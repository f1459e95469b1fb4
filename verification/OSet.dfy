/** The ordered set: an AVL tree with a resumable iterator on a fixed stack (m_oset.c). */
module OSet {
  import opened AvlTrees
  import opened AvlHeap
  import opened AvlOrder
  import opened OSetStack

  /** A subtree of a tree in memory is in memory. */
  lemma {:induction false} SubRep(p: Node?, t: Tree, s: Tree)
    requires Rep(p, t) && Sub(s, t) && s.Bin?
    ensures Rep(s.n, s) && s.n in Nodes(t)
  {
    if s != t {
      if Sub(s, t.l) { SubRep(t.n.left, t.l, s); } else { SubRep(t.n.right, t.r, s); }
    }
  }

  class OSet {
    var root: Node?
    var nElems: nat
    const nodeStack: array<Node?>
    const numStack: array<int>
    var stackTop: nat

    ghost var tree: Tree
    ghost var frames: seq<Frame>

    ghost predicate TreeInv()
      reads this`root, this`nElems, this`tree, Nodes(tree)
    {
      Rep(root, tree) && Ordered(tree) && Balanced(tree) && nElems == Size(tree)
    }

    /** The arrays spell out the frames. */
    ghost predicate Stacked()
      reads this`stackTop, this`frames, nodeStack, numStack
    {
      && nodeStack.Length == STACK_MAX && numStack.Length == STACK_MAX
      && stackTop == |frames| <= STACK_MAX
      && forall i {:trigger frames[i]} :: 0 <= i < |frames| ==>
           frames[i].t.Bin? && nodeStack[i] == frames[i].t.n && numStack[i] == frames[i].k
    }

    ghost predicate Valid()
      reads this, nodeStack, numStack, Nodes(tree)
    {
      TreeInv() && Stacked() && Sound(frames, tree) && Need(frames) <= Max(STACK_MAX, LeftDepth(tree))
    }

    /** OSetGen_Create. */
    constructor ()
      ensures Valid() && tree == Leaf && frames == [] && fresh(nodeStack) && fresh(numStack)
    {
      root, nElems, stackTop := null, 0, 0;
      nodeStack := new Node?[STACK_MAX](i => null);
      numStack := new int[STACK_MAX](i => 0);
      tree, frames := Leaf, [];
    }

    // ----- the stack

    /** stackClear. */
    method StackClear()
      requires nodeStack.Length == STACK_MAX && numStack.Length == STACK_MAX
      modifies this`stackTop, this`frames, nodeStack, numStack
      ensures Stacked() && frames == []
    {
      for i := 0 to STACK_MAX
      {
        nodeStack[i] := null;
        numStack[i] := 0;
      }
      stackTop := 0;
      frames := [];
    }

    /** stackPush. False stands for the failed assertion that there is room. */
    method StackPush(n: Node, i: int, ghost s: Tree) returns (ok: bool)
      requires Stacked() && s.Bin? && s.n == n && 1 <= i <= 3
      modifies this`stackTop, this`frames, nodeStack, numStack
      ensures ok == (|old(frames)| < STACK_MAX)
      ensures Stacked() && frames == old(frames) + if ok then [Frame(s, i)] else []
    {
      if stackTop >= STACK_MAX {
        return false;
      }
      nodeStack[stackTop] := n;
      numStack[stackTop] := i;
      stackTop := stackTop + 1;
      frames := frames + [Frame(s, i)];
      ok := true;
    }

    /** stackPop. */
    method StackPop() returns (found: bool, n: Node?, i: int)
      requires Stacked()
      modifies this`stackTop, this`frames, nodeStack, numStack
      ensures Stacked() && found == (old(frames) != [])
      ensures found ==> var f := old(frames)[|old(frames)| - 1]; old(frames) == frames + [f] && n == f.t.n && i == f.k
      ensures !found ==> frames == []
    {
      if stackTop == 0 {
        return false, null, 0;
      }
      stackTop := stackTop - 1;
      n := nodeStack[stackTop];
      i := numStack[stackTop];
      nodeStack[stackTop] := null;
      numStack[stackTop] := 0;
      frames := frames[..stackTop];
      found := true;
    }

    // ----- the iterator

    /** OSetGen_ResetIter. */
    method ResetIter()
      requires Valid()
      modifies this`stackTop, this`frames, nodeStack, numStack
      ensures Valid() && Pending(frames) == InOrder(tree) && Need(frames) == LeftDepth(tree)
    {
      hide Nodes, Ordered, Balanced, Size, InOrder, LeftDepth, Pending, Need, Sound, Sub;
      NodesAllocated(tree);
      StartIter(tree);
      StackClear();
      if root != null {
        var ok := StackPush(root, 1, tree);
        assert frames == [Frame(tree, 1)];
      }
    }

    /** case_1 of OSetGen_Next: push the node and everything on its leftmost path. */
    method PushSpine(n: Node, ghost s: Tree) returns (ok: bool)
      requires TreeInv() && Stacked() && s.Bin? && s.n == n && Sub(s, tree)
      modifies this`stackTop, this`frames, nodeStack, numStack
      ensures TreeInv() && Stacked()
      ensures ok <==> |old(frames)| + LeftSpine(s) <= STACK_MAX
      ensures ok ==> frames == old(frames) + Spine(s)
    {
      hide Nodes, Ordered, Balanced, Size;
      NodesAllocated(tree);
      var cur := n;
      ghost var c := s;
      while true
        invariant TreeInv() && Stacked() && c.Bin? && c.n == cur && Sub(c, tree)
        invariant frames + Spine(c) == old(frames) + Spine(s)
        decreases c
      {
        ghost var fs := frames;
        ok := StackPush(cur, 2, c);
        assert |Spine(c)| >= 1 && |frames + Spine(c)| == |frames| + |Spine(c)|;
        if !ok {
          assert |old(frames) + Spine(s)| == |old(frames)| + |Spine(s)|;
          return;
        }
        SubRep(root, tree, c);
        SubChildren(c, tree);
        assert frames + Spine(c.l) == fs + Spine(c);
        if cur.left == null {
          return;
        }
        cur, c := cur.left, c.l;
      }
    }

    /** Cases 1 and 3 of OSetGen_Next, for a frame just popped: what is pending stays as it is. */
    method Descend(n: Node, i: int, ghost f: Frame) returns (ok: bool)
      requires TreeInv() && Stacked() && |frames| < STACK_MAX && Sound(frames + [f], tree) && f.t.Bin? && f.t.n == n
      requires f.k == i && (i == 1 || i == 3)
      modifies this`stackTop, this`frames, nodeStack, numStack
      ensures TreeInv() && (ok ==> Stacked() && Sound(frames, tree))
      ensures Need(old(frames) + [f]) <= STACK_MAX ==> ok
      ensures ok ==> Pending(frames) == Pending(old(frames) + [f]) && SameNeed(old(frames) + [f], frames)
      ensures ok ==> frames == old(frames) || (frames != [] && frames[|frames| - 1].k == 2)
    {
      hide Nodes, Ordered, Balanced, Size, InOrder, LeftDepth, Pending, Need, Sound, Sub;
      NodesAllocated(tree);
      assert SoundFrame(f, tree) by { TopSound(frames, f, tree); }
      SubRep(root, tree, f.t);
      SubChildren(f.t, tree);
      if i == 1 {
        GoDown(frames, f.t, tree);
        ok := PushSpine(n, f.t);
      } else {
        GoRight(frames, f.t, tree);
        ok := true;
        if n.right != null {
          ok := PushSpine(n.right, f.t.r);
        }
      }
    }

    /** OSetGen_Next: the next node in order, or null when there is none left. `ok` is false if the stack was too
        small. */
    method Next() returns (ok: bool, e: Node?)
      requires Valid()
      modifies this`stackTop, this`frames, nodeStack, numStack
      ensures TreeInv() && (ok ==> Valid())
      ensures Need(old(frames)) <= STACK_MAX ==> ok
      ensures ok ==> SameNeed(frames, old(frames))
      ensures ok && Pending(old(frames)) == [] ==> e == null && frames == []
      ensures ok && Pending(old(frames)) != [] ==>
        e == Pending(old(frames))[0] && Pending(frames) == Pending(old(frames))[1..]
    {
      hide Nodes, Ordered, Balanced, Size, InOrder, LeftDepth, Pending, Need, Sound, Sub, Rep;
      NodesAllocated(tree);
      while true
        invariant Valid() && Pending(frames) == Pending(old(frames)) && SameNeed(frames, old(frames))
        decreases if frames == [] then 0 else if frames[|frames| - 1].k == 2 then 1 else |frames| + 2
      {
        ghost var fs := frames;
        var found, n, i := StackPop();
        if !found {
          EmptyStack(tree);
          return true, null;
        }
        ghost var f := fs[|fs| - 1];
        TopSound(frames, f, tree);
        if i == 2 {
          Yield(frames, f.t, tree);
          ok := StackPush(n, 3, f.t);
          return true, n;
        }
        ok := Descend(n, i, f);
        if !ok {
          return false, null;
        }
      }
    }

    /** OSetGen_ResetIterAt: set up to yield the nodes from key `k` on. It fails exactly if the search path pushes more
        frames than there is room for. */
    method ResetIterAt(k: int) returns (ok: bool)
      requires Valid()
      modifies this`stackTop, this`frames, nodeStack, numStack
      ensures TreeInv() && (ok ==> Valid() && Pending(frames) == From(tree, k) && Need(frames) == FromDepth(tree, k))
      ensures ok <==> SeekDepth(tree, k) <= STACK_MAX
    {
      hide Nodes, Ordered, Balanced, Size, InOrder, LeftDepth, Pending, Need, Sound, From, Sub, SeekDepth, FromDepth;
      hide Seeking;
      NodesAllocated(tree);
      StackClear();
      SeekStart(tree, k);
      ghost var s := tree;
      var t := root;
      while t != null
        invariant TreeInv() && Stacked() && Rep(t, s) && Seeking(frames, s, tree, k)
        decreases s
      {
        ghost var fs := frames;
        SeekStep(fs, s, tree, k);
        if k == t.key {
          ok := StackPush(t, 2, s);
          return;
        } else if k < t.key {
          ok := StackPush(t, 2, s);
          if !ok {
            return;
          }
          SubRep(root, tree, s);
          t, s := t.left, s.l;
        } else {
          t, s := t.right, s.r;
        }
      }
      SeekEnd(frames, tree, k);
      ok := true;
    }

    // ----- changing the set

    /** OSetGen_Insert. False stands for the failed assertion that the key is not there yet.
        The iterator is left with nothing to yield. */
    method Insert(n: Node) returns (ok: bool)
      requires Valid()
      modifies this`root, this`nElems, this`stackTop, this`tree, this`frames, Nodes(tree), n
      ensures ok <==> !HasKey(old(tree), n.key)
      ensures ok ==> Valid() && Nodes(tree) == Nodes(old(tree)) + {n} && frames == []
      ensures ok ==> tree == (if old(tree).Leaf? then Single(n) else AvlTrees.Insert(old(tree), n).t)
    {
      hide Ordered, Balanced, Nodes, Size, Sound, Need, LeftDepth, HasKey, Cut, AvlTrees.Insert;
      NodesAllocated(tree);
      ghost var t := tree;
      CutOrdered(t, n);
      SameKeyCut(t, n);
      if !HasKey(t, n.key) { Inserted(t, n); }
      Reset(n, root, t);
      RootOf(root, Cut(t, n));
      if root == null {
        root := n;
        tree := Single(n);
      } else {
        ghost var t' := AvlTrees.Insert(t, n).t;
        var ch, top;
        ok, ch, top := AvlInsert(root, n, Cut(t, n));
        if !ok {
          return;
        }
        ghost var rt' := Rep(top, t');
        root := top;
        tree := t';
        assert rt' == Rep(root, tree);
      }
      nElems := nElems + 1;
      stackTop, frames := 0, [];
      EmptyStack(tree);
      ok := true;
    }

    /** OSetGen_Lookup. */
    method Lookup(k: int) returns (n: Node?)
      requires Valid()
      ensures n == null <==> !HasKey(tree, k)
      ensures n != null ==> n in Nodes(tree) && n.key == k
    {
      n := AvlLookup(root, k, tree);
    }

    /** OSetGen_Contains. */
    method Contains(k: int) returns (b: bool)
      requires Valid()
      ensures b <==> HasKey(tree, k)
    {
      var n := Lookup(k);
      b := n != null;
    }

    /** OSetGen_Remove. Only a removal disturbs the iterator, and leaves it with nothing to yield. */
    method Remove(k: int) returns (n: Node?)
      requires Valid()
      modifies this`root, this`nElems, this`stackTop, this`tree, this`frames, Nodes(tree)
      ensures Valid() && (n == null <==> !HasKey(old(tree), k))
      ensures n == null ==> tree == old(tree) && frames == old(frames)
      ensures n != null ==> n in Nodes(old(tree)) && n.key == k && Nodes(tree) == Nodes(old(tree)) - {n} && frames == []
    {
      hide Ordered, Balanced, Nodes, Size, Sound, Need, LeftDepth, HasKey, AvlTrees.Remove;
      NodesAllocated(tree);
      n := AvlLookup(root, k, tree);
      if n != null {
        ghost var t := tree;
        Removed(t, n);
        ghost var t' := AvlTrees.Remove(t, n).t;
        var ch, top := AvlRemove(root, n, t);
        ghost var rt' := Rep(top, t');
        root := top;
        tree := t';
        assert rt' == Rep(root, tree);
        nElems := nElems - 1;
        stackTop, frames := 0, [];
        EmptyStack(tree);
      }
    }

    // ----- whole runs

    /** Call Next until it answers null. It fails exactly if the tree is too deep on the left,
        and else yields the nodes in order. */
    method Drain() returns (ok: bool, out: seq<Node>)
      requires Valid()
      modifies this`stackTop, this`frames, nodeStack, numStack
      ensures TreeInv()
      ensures ok <==> Need(old(frames)) <= STACK_MAX
      ensures ok ==> Valid() && frames == [] && out == Pending(old(frames))
    {
      hide Nodes, Ordered, Balanced, Size, InOrder, LeftDepth, Pending, Need, Sound, Rest, Wants, Sub;
      out := [];
      EmptyStack(tree);
      while true
        invariant Valid() && out + Pending(frames) == Pending(old(frames)) && SameNeed(frames, old(frames))
        decreases |Pending(frames)|
      {
        ghost var p := Pending(frames);
        var e;
        ok, e := Next();
        if !ok || e == null {
          return;
        }
        assert p == [e] + Pending(frames);
        out := out + [e];
      }
    }

    /** Reset the iterator and call Next until it answers null. */
    method Iterate() returns (ok: bool, out: seq<Node>)
      requires Valid()
      modifies this`stackTop, this`frames, nodeStack, numStack
      ensures ok <==> LeftDepth(tree) <= STACK_MAX
      ensures nElems < LIMIT ==> ok
      ensures ok ==> Valid() && frames == [] && out == InOrder(tree)
      ensures ok ==> AllOf(out, Nodes(tree)) && Ascending(out)
    {
      hide Nodes, InOrder, Ascending, LeftDepth, Balanced, Size, Ordered, Sound, Need;
      if nElems < LIMIT { HeightFits(tree); }
      NodesAllocated(tree);
      OrderedAscending(tree);
      InOrderNodes(tree);
      ResetIter();
      ok, out := Drain();
    }

    /** Start at key `k` and call Next until it answers null: exactly the nodes not less than `k`, in order. It fails
        exactly if the walk from `k` on is too deep on the left. */
    method IterateFrom(k: int) returns (ok: bool, out: seq<Node>)
      requires Valid()
      modifies this`stackTop, this`frames, nodeStack, numStack
      ensures ok <==> FromDepth(tree, k) <= STACK_MAX
      ensures nElems < LIMIT ==> ok
      ensures ok ==> Valid() && frames == [] && NotLess(out, Nodes(tree), k) && Ascending(out)
    {
      hide LeftDepth, Need, SeekDepth, FromDepth, Nodes, Ordered, InOrder, From, Balanced, Size, NotLess;
      NodesAllocated(tree);
      if nElems < LIMIT { HeightFits(tree); }
      SeekWithin(tree, k);
      OrderedAscending(tree);
      ghost var i := FromIsSuffix(tree, k);
      FromHas(tree, k);
      out := [];
      ok := ResetIterAt(k);
      if ok {
        ok, out := Drain();
      }
    }

    // ----- destruction

    /** A first or second visit in OSetGen_Destroy: push the node again, and its child above it. */
    method PushVisit(n: Node, i: int, child: Node?, ghost f: Frame) returns (ok: bool)
      requires Stacked() && |frames| < STACK_MAX && f.t.Bin? && f.t.n == n && f.k == i && 1 <= i <= 2
      requires if child == null then Child(f).Leaf? else Child(f).Bin? && Child(f).n == child
      modifies this`stackTop, this`frames, nodeStack, numStack
      ensures Stacked() && (ok <==> |Visited(old(frames), f)| <= STACK_MAX)
      ensures ok ==> frames == Visited(old(frames), f)
    {
      ok := StackPush(n, i + 1, f.t);
      if child != null {
        ok := StackPush(child, 1, Child(f));
      }
    }

    /** The first or second visit to a node whose frame has just been popped. It frees nothing. */
    method GoOn(n: Node, i: int, ghost f: Frame) returns (ok: bool)
      requires TreeInv() && Stacked() && |frames| < STACK_MAX && Sound(frames + [f], tree) && f.t.Bin? && f.t.n == n
      requires f.k == i && 1 <= i <= 2
      modifies this`stackTop, this`frames, nodeStack, numStack
      ensures TreeInv() && Stacked()
      ensures ok ==> Sound(frames, tree) && AllUnfreed(frames) == AllUnfreed(old(frames) + [f])
      ensures ok ==> FreeNeed(frames) == FreeNeed(old(frames) + [f]) && Work(frames) < Work(old(frames) + [f])
      ensures !ok ==> FreeNeed(old(frames) + [f]) > STACK_MAX
    {
      hide Nodes, Ordered, Balanced, Size, Height, PostOrder, AllUnfreed, FreeNeed, Work, Sound, Sub;
      NodesAllocated(tree);
      TopSound(frames, f, tree);
      SubRep(root, tree, f.t);
      Visit(frames, f);
      VisitSound(frames, f, tree);
      FreeNeedAtLeast(Visited(frames, f), tree);
      if i == 1 {
        ok := PushVisit(n, 1, n.left, f);
      } else {
        ok := PushVisit(n, 2, n.right, f);
      }
    }

    /** OSetGen_Destroy: every node is freed once, after its children, and not looked at again.
        It fails exactly if the tree is higher than the stack is deep. */
    method Destroy() returns (ok: bool, freed: seq<Node>)
      requires Valid()
      modifies this`stackTop, this`frames, nodeStack, numStack
      ensures ok <==> Height(tree) <= STACK_MAX
      ensures nElems < LIMIT ==> ok
      ensures ok ==> |freed| == nElems && AllOf(freed, Nodes(tree)) && Distinct(freed) && ChildrenFirst(freed)
    {
      hide Nodes, Ordered, Balanced, Size, Height, LeftDepth, PostOrder, AllUnfreed, FreeNeed, Work, Sound, Need, Sub;
      hide Distinct, Rep, AllOf, ChildrenFirst;
      NodesAllocated(tree);
      if nElems < LIMIT { HeightFits(tree); }
      PostOrderNodes(tree);
      var sz := 0;
      freed := [];
      StackClear();
      StartDestroy(tree);
      RootOf(root, tree);
      if root != null {
        ok := StackPush(root, 1, tree);
        assert frames == [Frame(tree, 1)];
      }
      while true
        invariant TreeInv() && Stacked() && Sound(frames, tree) && sz == |freed|
        invariant freed + AllUnfreed(frames) == PostOrder(tree)
        invariant Max(STACK_MAX, FreeNeed(frames)) == Max(STACK_MAX, Height(tree))
        decreases Work(frames)
      {
        ghost var fs := frames;
        var found, n, i := StackPop();
        if !found {
          assert freed == PostOrder(tree);
          PostOrderIs(root, tree);
          return sz == nElems, freed;
        }
        ghost var f := fs[|fs| - 1];
        TopSound(frames, f, tree);
        NotFreed(freed, frames, f);
        assert n !in freed;
        if i == 1 || i == 2 {
          ok := GoOn(n, i, f);
        } else {
          FreePush(frames, f);
          assert freed + ([n] + AllUnfreed(frames)) == (freed + [n]) + AllUnfreed(frames);
          freed := freed + [n];
          sz := sz + 1;
          ok := true;
        }
        if !ok {
          return;
        }
      }
    }
  }

  /** After the children of a node comes the node, in an order that has all nodes. */
  lemma {:induction false} PostOrderIs(p: Node?, t: Tree)
    requires Rep(p, t)
    ensures AllOf(PostOrder(t), Nodes(t)) && ChildrenFirst(PostOrder(t))
  {
    match t
    case Leaf =>
    case Bin(l, n, _, r) =>
      PostOrderIs(n.left, l);
      PostOrderIs(n.right, r);
      var a, b, s := PostOrder(l), PostOrder(r), PostOrder(t);
      forall i | 0 <= i < |s|
        ensures ComesAfter(s, i)
      {
        if i < |a| {
          assert s[i] == a[i] && s[..i] == a[..i] && ComesAfter(a, i);
        } else if i < |a + b| {
          assert s[i] == b[i - |a|] && s[..i] == a + b[..i - |a|] && ComesAfter(b, i - |a|);
        } else {
          assert s[i] == n && s[..i] == a + b;
        }
      }
  }

  /** Every node comes after its children. */
  ghost predicate ChildrenFirst(s: seq<Node>)
    reads s
  {
    forall i {:trigger ComesAfter(s, i)} :: 0 <= i < |s| ==> ComesAfter(s, i)
  }

  ghost predicate ComesAfter(s: seq<Node>, i: nat)
    requires i < |s|
    reads s[i]
  {
    (s[i].left != null ==> s[i].left in s[..i]) && (s[i].right != null ==> s[i].right in s[..i])
  }

  /** A stack with just the whole tree. */
  lemma StartIter(t: Tree)
    ensures t.Bin? ==>
      Pending([Frame(t, 1)]) == InOrder(t) && Need([Frame(t, 1)]) == LeftDepth(t) && Sound([Frame(t, 1)], t)
    ensures t.Leaf? ==> InOrder(t) == [] && LeftDepth(t) == 0
    ensures Pending([]) == [] && Need([]) == 0 && Sound([], t)
  {
    Push([], Frame(t, 1));
    assert [] + [Frame(t, 1)] == [Frame(t, 1)];
  }

  lemma EmptyStack(t: Tree)
    ensures Pending([]) == [] && Need([]) == 0 && Sound([], t) && Sub(t, t)
  {
  }

  lemma {:induction false} NothingFrom(t: Tree, k: int)
    requires Below(t, k)
    ensures From(t, k) == []
  {
    if t.Bin? {
      assert t.n in Nodes(t);
      NothingFrom(t.r, k);
    }
  }

  /** Insertion in full: order, balance, the nodes and their number. */
  lemma Inserted(t: Tree, n: Node)
    requires Balanced(t) && Ordered(t) && !HasKey(t, n.key)
    ensures n !in Nodes(t)
    ensures var t' := if t.Leaf? then Single(n) else AvlTrees.Insert(t, n).t;
            Balanced(t') && Ordered(t') && Nodes(t') == Nodes(t) + {n} && Size(t') == Size(t) + 1
  {
    hide AvlTrees.Insert;
    var t' := if t.Leaf? then Single(n) else AvlTrees.Insert(t, n).t;
    if t.Bin? { InsertOrdered(t, n); }
    SizeCounts(t);
    SizeCounts(t');
  }

  /** Resetting the new node does not hide whether its key is there. */
  lemma SameKeyCut(t: Tree, n: Node)
    requires Ordered(t)
    ensures HasKey(Cut(t, n), n.key) <==> HasKey(t, n.key)
    ensures !HasKey(t, n.key) ==> Cut(t, n) == t && n !in Nodes(t)
    ensures Cut(t, n).Leaf? <==> t.Leaf?
    ensures t.Leaf? ==> !HasKey(t, n.key)
  {
    CutOrdered(t, n);
  }

  /** Removal in full. */
  lemma Removed(t: Tree, n: Node)
    requires Balanced(t) && Ordered(t) && n in Nodes(t)
    ensures var t' := AvlTrees.Remove(t, n).t;
            Balanced(t') && Ordered(t') && Nodes(t') == Nodes(t) - {n} && Size(t') + 1 == Size(t)
  {
    hide AvlTrees.Remove;
    RemoveOrdered(t, n);
    SizeCounts(t);
    SizeCounts(AvlTrees.Remove(t, n).t);
  }

  /** The search for key `k` is at subtree `s` of `t`: what is on the stack and what is still to be searched make up
      the answer and its depth. */
  ghost predicate Seeking(fs: seq<Frame>, s: Tree, t: Tree, k: int) {
    && Sound(fs, t) && Sub(s, t) && Ordered(s)
    && From(s, k) + Pending(fs) == From(t, k)
    && |fs| <= Need(fs) && Max(Need(fs), |fs| + FromDepth(s, k)) == FromDepth(t, k)
    && |fs| + SeekDepth(s, k) == SeekDepth(t, k)
  }

  lemma SeekStart(t: Tree, k: int)
    requires Ordered(t)
    ensures Seeking([], t, t, k)
  {
    EmptyStack(t);
  }

  /** The stack holds the whole answer. */
  ghost predicate Sought(fs: seq<Frame>, t: Tree, k: int) {
    && Sound(fs, t) && Pending(fs) == From(t, k) && Need(fs) == FromDepth(t, k) && |fs| == SeekDepth(t, k) &&
       FromDepth(t, k) <= LeftDepth(t)
  }

  lemma SeekEnd(fs: seq<Frame>, t: Tree, k: int)
    requires Seeking(fs, Leaf, t, k)
    ensures Sought(fs, t, k)
  {
    hide Pending, Need, Sound;
    SeekWithin(t, k);
  }

  /** One step of the search. */
  lemma SeekStep(fs: seq<Frame>, s: Tree, t: Tree, k: int)
    requires s.Bin? && Seeking(fs, s, t, k)
    ensures Sub(s, t)
    ensures k == s.n.key ==> Sought(fs + [Frame(s, 2)], t, k)
    ensures k < s.n.key ==> Seeking(fs + [Frame(s, 2)], s.l, t, k) && |fs| < SeekDepth(t, k)
    ensures k > s.n.key ==> Seeking(fs, s.r, t, k)
  {
    hide InOrder, Pending, Need, Sub, Below, Above, Nodes, LeftDepth, Sound;
    SubChildren(s, t);
    SeekWithin(t, k);
    Push(fs, Frame(s, 2));
    PushSound(fs, Frame(s, 2), t);
    if k == s.n.key { NothingFrom(s.l, k); }
    if k <= s.n.key { Regroup(From(s.l, k), [s.n], InOrder(s.r), Pending(fs)); }
  }

  lemma PushSound(fs: seq<Frame>, f: Frame, t: Tree)
    requires Sound(fs, t) && SoundFrame(f, t)
    ensures Sound(fs + [f], t)
  {
  }

  lemma StartDestroy(t: Tree)
    ensures t.Leaf? ==> AllUnfreed([]) == PostOrder(t) && FreeNeed([]) == Height(t)
    ensures t.Bin? ==> AllUnfreed([Frame(t, 1)]) == PostOrder(t) && FreeNeed([Frame(t, 1)]) == Height(t)
    ensures AllUnfreed([]) == [] && FreeNeed([]) == 0 && Sound([], t) && Sound(if t.Leaf? then [] else [Frame(t, 1)], t)
  {
    assert [Frame(t, 1)][..0] == [];
  }

  /** Frames that are on the stack are counted in its need. */
  lemma FreeNeedAtLeast(fs: seq<Frame>, t: Tree)
    requires Sound(fs, t)
    ensures |fs| <= FreeNeed(fs)
  {
    if fs != [] {
      var f := fs[|fs| - 1];
      assert SoundFrame(f, t);
      HeightPositive(f.t);
    }
  }

  lemma HeightPositive(t: Tree)
    requires t.Bin?
    ensures Height(t) >= 1
  {
  }
}
