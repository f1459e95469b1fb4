/** The iterator's stack as a value: what it still has to yield, and how deep it will get (m_oset.c). */
module OSetStack {
  import opened AvlTrees
  import opened AvlOrder

  /** A subtree waiting on the stack, and how far it has been dealt with. */
  datatype Frame = Frame(t: Tree, k: int)

  /** `s` is a subtree of `t`. */
  ghost predicate Sub(s: Tree, t: Tree) {
    s == t || (t.Bin? && (Sub(s, t.l) || Sub(s, t.r)))
  }

  lemma {:induction false} SubChildren(s: Tree, t: Tree)
    requires s.Bin? && Sub(s, t)
    ensures Sub(s.l, t) && Sub(s.r, t)
  {
    assert Sub(s.l, s.l) && Sub(s.r, s.r);
    if s != t {
      if Sub(s, t.l) { SubChildren(s, t.l); } else { SubChildren(s, t.r); }
    }
  }

  ghost predicate SoundFrame(f: Frame, t: Tree) { f.t.Bin? && 1 <= f.k <= 3 && Sub(f.t, t) }

  /** Every frame holds a proper subtree of `t`. */
  ghost predicate Sound(fs: seq<Frame>, t: Tree) {
    forall i {:trigger fs[i]} :: 0 <= i < |fs| ==> SoundFrame(fs[i], t)
  }

  function Max(a: int, b: int): int { if a < b then b else a }

  // ----- in-order

  /** What a frame still has to yield: all of it, all but the left, or only the right. */
  ghost function Rest(f: Frame): seq<Node> {
    if f.t.Leaf? then []
    else if f.k == 1 then InOrder(f.t)
    else if f.k == 2 then [f.t.n] + InOrder(f.t.r)
    else InOrder(f.t.r)
  }

  /** What the whole stack still has to yield, from the top down. */
  ghost function Pending(fs: seq<Frame>): seq<Node> {
    if fs == [] then [] else Rest(fs[|fs| - 1]) + Pending(fs[..|fs| - 1])
  }

  /** The number of stack slots a frame needs, counted from its own. */
  ghost function Wants(f: Frame): nat {
    if f.t.Leaf? then 0
    else if f.k == 1 then LeftDepth(f.t)
    else if f.k == 2 then Max(1, LeftDepth(f.t.r))
    else LeftDepth(f.t.r)
  }

  /** The deepest that the stack gets before it is empty. */
  ghost function Need(fs: seq<Frame>): nat {
    if fs == [] then 0 else Max(Need(fs[..|fs| - 1]), |fs| - 1 + Wants(fs[|fs| - 1]))
  }

  lemma Push(fs: seq<Frame>, f: Frame)
    ensures Pending(fs + [f]) == Rest(f) + Pending(fs)
    ensures Need(fs + [f]) == Max(Need(fs), |fs| + Wants(f))
  {
    assert (fs + [f])[..|fs|] == fs;
  }

  /** The frames that walking down to the left from `s` pushes. */
  ghost function Spine(s: Tree): (fs: seq<Frame>)
    ensures |fs| == LeftSpine(s)
    ensures s.Bin? ==> fs[|fs| - 1].k == 2
  {
    if s.Leaf? then [] else [Frame(s, 2)] + Spine(s.l)
  }

  /** Pushing a left spine owes exactly the whole subtree, and needs exactly its left depth. */
  lemma {:induction false} SpineOwes(fs: seq<Frame>, s: Tree)
    ensures Pending(fs + Spine(s)) == InOrder(s) + Pending(fs)
    ensures s.Bin? ==> Need(fs + Spine(s)) == Max(Need(fs), |fs| + LeftDepth(s))
    decreases s
  {
    hide Pending, Need, Rest, Wants, Nodes, InOrder, LeftDepth;
    if s.Leaf? {
      assert fs + Spine(s) == fs;
      SpineStep(s, Pending(fs));
    } else {
      var f := Frame(s, 2);
      Push(fs, f);
      SpineOwes(fs + [f], s.l);
      assert fs + Spine(s) == (fs + [f]) + Spine(s.l);
      SpineStep(s, Pending(fs));
      if s.l.Leaf? { assert fs + Spine(s) == fs + [f]; }
    }
  }

  lemma SpineStep(s: Tree, p: seq<Node>)
    ensures s.Leaf? ==> InOrder(s) + p == p && LeftDepth(s) == 0
    ensures s.Bin? ==> InOrder(s) + p == InOrder(s.l) + (Rest(Frame(s, 2)) + p)
    ensures s.Bin? ==> LeftDepth(s) == Max(1 + LeftDepth(s.l), Wants(Frame(s, 2)))
    ensures s.Bin? ==> Wants(Frame(s, 2)) >= 1 && (s.l.Leaf? ==> LeftDepth(s.l) == 0)
  {
    hide InOrder, Rest, Nodes;
    SpineRest(s, p);
  }

  lemma SpineRest(s: Tree, p: seq<Node>)
    ensures s.Leaf? ==> InOrder(s) + p == p
    ensures s.Bin? ==> InOrder(s) + p == InOrder(s.l) + (Rest(Frame(s, 2)) + p)
  {
    if s.Bin? {
      Regroup(InOrder(s.l), [s.n], InOrder(s.r), p);
      assert Rest(Frame(s, 2)) == [s.n] + InOrder(s.r);
    }
  }

  lemma Regroup(a: seq<Node>, b: seq<Node>, c: seq<Node>, p: seq<Node>)
    ensures (a + b + c) + p == a + ((b + c) + p)
  {
  }

  lemma {:induction false} SpineSound(s: Tree, t: Tree)
    requires Sub(s, t)
    ensures Sound(Spine(s), t)
  {
    if s.Bin? {
      SubChildren(s, t);
      SpineSound(s.l, t);
    }
  }

  lemma {:induction false} SpineDepth(t: Tree)
    ensures LeftSpine(t) <= LeftDepth(t)
  {
    if t.Bin? { SpineDepth(t.l); }
  }

  lemma TopSound(fs: seq<Frame>, f: Frame, t: Tree)
    requires Sound(fs + [f], t)
    ensures SoundFrame(f, t) && Sound(fs, t)
  {
    assert (fs + [f])[|fs|] == f;
    assert (fs + [f])[..|fs|] == fs;
  }

  lemma JoinSound(fs: seq<Frame>, gs: seq<Frame>, t: Tree)
    requires Sound(fs, t) && Sound(gs, t)
    ensures Sound(fs + gs, t)
  {
  }

  lemma NextVisitSound(fs: seq<Frame>, s: Tree, t: Tree)
    requires Sound(fs + [Frame(s, 2)], t)
    ensures Sound(fs + [Frame(s, 3)], t)
  {
    hide Sub;
    TopSound(fs, Frame(s, 2), t);
    JoinSound(fs, [Frame(s, 3)], t);
  }

  /** The stack is as good as it was: the same need, as far as it is more than the stack has. */
  ghost predicate SameNeed(fs: seq<Frame>, gs: seq<Frame>) {
    Max(STACK_MAX, Need(fs)) == Max(STACK_MAX, Need(gs))
  }

  /** A node is yielded, and its frame goes on to the right subtree. */
  lemma Yield(fs: seq<Frame>, s: Tree, t: Tree)
    requires s.Bin? && |fs| < STACK_MAX && Sound(fs + [Frame(s, 2)], t)
    ensures Pending(fs + [Frame(s, 2)]) == [s.n] + Pending(fs + [Frame(s, 3)])
    ensures SameNeed(fs + [Frame(s, 2)], fs + [Frame(s, 3)]) && Sound(fs + [Frame(s, 3)], t)
  {
    hide InOrder, LeftDepth, Pending, Need, Nodes, Sound, Sub;
    NextVisitSound(fs, s, t);
    Push(fs, Frame(s, 2));
    Push(fs, Frame(s, 3));
    assert ([s.n] + InOrder(s.r)) + Pending(fs) == [s.n] + (InOrder(s.r) + Pending(fs));
  }

  /** A whole subtree is replaced by its left spine. */
  lemma GoDown(fs: seq<Frame>, s: Tree, t: Tree)
    requires s.Bin? && Sound(fs + [Frame(s, 1)], t)
    ensures Pending(fs + [Frame(s, 1)]) == Pending(fs + Spine(s))
    ensures SameNeed(fs + [Frame(s, 1)], fs + Spine(s)) && Sound(fs + Spine(s), t)
    ensures |fs| + LeftSpine(s) <= Need(fs + [Frame(s, 1)])
  {
    hide InOrder, LeftDepth, Pending, Need, Nodes, LeftSpine, Sound, Sub, Spine;
    TopSound(fs, Frame(s, 1), t);
    SpineSound(s, t);
    JoinSound(fs, Spine(s), t);
    Push(fs, Frame(s, 1));
    SpineOwes(fs, s);
    SpineDepth(s);
  }

  /** A node that has been yielded is replaced by the left spine of its right subtree. */
  lemma GoRight(fs: seq<Frame>, s: Tree, t: Tree)
    requires s.Bin? && |fs| < STACK_MAX && Sound(fs + [Frame(s, 3)], t)
    ensures Pending(fs + [Frame(s, 3)]) == Pending(fs + Spine(s.r))
    ensures SameNeed(fs + [Frame(s, 3)], fs + Spine(s.r)) && Sound(fs + Spine(s.r), t)
    ensures |fs| + LeftSpine(s.r) <= Need(fs + [Frame(s, 3)])
    ensures s.r.Leaf? ==> fs + Spine(s.r) == fs
  {
    hide InOrder, Pending, Need, Nodes, Sound, Sub;
    TopSound(fs, Frame(s, 3), t);
    SubChildren(s, t);
    SpineSound(s.r, t);
    JoinSound(fs, Spine(s.r), t);
    Push(fs, Frame(s, 3));
    SpineOwes(fs, s.r);
    SpineDepth(s.r);
    if s.r.Leaf? { assert fs + Spine(s.r) == fs; }
  }

  // ----- starting from a key

  /** How many frames the search for key `k` pushes: one for every step to the left, and one if it ends at the key. */
  ghost function SeekDepth(t: Tree, k: int): nat {
    match t
    case Leaf => 0
    case Bin(l, n, _, r) => if n.key < k then SeekDepth(r, k) else if n.key == k then 1 else 1 + SeekDepth(l, k)
  }

  /** The most frames there ever are when iterating from key `k` on. */
  ghost function FromDepth(t: Tree, k: int): nat {
    match t
    case Leaf => 0
    case Bin(l, n, _, r) =>
      if n.key < k then FromDepth(r, k)
      else if n.key == k then Max(1, LeftDepth(r))
      else Max(1 + FromDepth(l, k), Max(1, LeftDepth(r)))
  }

  lemma {:induction false} SeekWithin(t: Tree, k: int)
    ensures SeekDepth(t, k) <= FromDepth(t, k) <= LeftDepth(t)
  {
    if t.Bin? {
      SeekWithin(t.l, k);
      SeekWithin(t.r, k);
    }
  }

  // ----- post-order

  ghost function PostOrder(t: Tree): seq<Node> {
    match t
    case Leaf => []
    case Bin(l, n, _, r) => PostOrder(l) + PostOrder(r) + [n]
  }

  ghost predicate Distinct(s: seq<Node>) { forall i, j :: 0 <= i < j < |s| ==> s[i] != s[j] }

  ghost predicate AllIn(s: seq<Node>, ns: set<Node>) { forall i :: 0 <= i < |s| ==> s[i] in ns }

  lemma DistinctJoin(a: seq<Node>, b: seq<Node>, n: Node, as_: set<Node>, bs: set<Node>)
    requires Distinct(a) && Distinct(b) && AllIn(a, as_) && AllIn(b, bs)
    requires as_ !! bs && n !in as_ && n !in bs
    ensures Distinct(a + b + [n]) && AllIn(a + b + [n], as_ + {n} + bs)
  {
  }

  /** Post-order has every node of the tree exactly once. */
  lemma {:induction false} PostOrderNodes(t: Tree)
    requires Ordered(t)
    ensures |PostOrder(t)| == Size(t) == |Nodes(t)|
    ensures AllIn(PostOrder(t), Nodes(t)) && Distinct(PostOrder(t))
  {
    hide Distinct, AllIn;
    SizeCounts(t);
    match t
    case Leaf =>
      NothingDistinct();
    case Bin(l, n, _, r) =>
      PostOrderNodes(l);
      PostOrderNodes(r);
      assert n !in Nodes(l) && n !in Nodes(r) && Nodes(l) !! Nodes(r);
      DistinctJoin(PostOrder(l), PostOrder(r), n, Nodes(l), Nodes(r));
  }

  lemma NothingDistinct()
    ensures Distinct([]) && AllIn([], {})
  {
  }

  /** What a frame still has to free. */
  ghost function Unfreed(f: Frame): seq<Node> {
    if f.t.Leaf? then []
    else if f.k == 1 then PostOrder(f.t)
    else if f.k == 2 then PostOrder(f.t.r) + [f.t.n]
    else [f.t.n]
  }

  ghost function AllUnfreed(fs: seq<Frame>): seq<Node> {
    if fs == [] then [] else Unfreed(fs[|fs| - 1]) + AllUnfreed(fs[..|fs| - 1])
  }

  ghost function FreeWants(f: Frame): nat {
    if f.t.Leaf? then 0
    else if f.k == 1 then Height(f.t)
    else if f.k == 2 then 1 + Height(f.t.r)
    else 1
  }

  ghost function FreeNeed(fs: seq<Frame>): nat {
    if fs == [] then 0 else Max(FreeNeed(fs[..|fs| - 1]), |fs| - 1 + FreeWants(fs[|fs| - 1]))
  }

  lemma FreePush(fs: seq<Frame>, f: Frame)
    ensures AllUnfreed(fs + [f]) == Unfreed(f) + AllUnfreed(fs)
    ensures FreeNeed(fs + [f]) == Max(FreeNeed(fs), |fs| + FreeWants(f))
    ensures Work(fs + [f]) == FrameWork(f) + Work(fs)
  {
    assert (fs + [f])[..|fs|] == fs;
  }

  lemma VisitCosts(t: Tree)
    requires t.Bin?
    ensures PostOrder(t) == PostOrder(t.l) + (PostOrder(t.r) + [t.n])
    ensures Height(t) == 1 + Max(Height(t.l), Height(t.r))
    ensures Size(t) == Size(t.l) + 1 + Size(t.r)
    ensures t.l.Leaf? ==> PostOrder(t.l) == [] && Height(t.l) == 0 && Size(t.l) == 0
    ensures t.r.Leaf? ==> PostOrder(t.r) == [] && Height(t.r) == 0 && Size(t.r) == 0
  {
  }

  /** The steps that freeing what is on the stack takes. */
  ghost function Work(fs: seq<Frame>): nat {
    if fs == [] then 0 else FrameWork(fs[|fs| - 1]) + Work(fs[..|fs| - 1])
  }

  ghost function FrameWork(f: Frame): nat {
    if f.t.Leaf? then 0
    else if f.k == 1 then 3 * Size(f.t)
    else if f.k == 2 then 2 + 3 * Size(f.t.r)
    else 1
  }

  /** The child that a visit goes on to. */
  ghost function Child(f: Frame): Tree
    requires f.t.Bin?
  {
    if f.k == 1 then f.t.l else f.t.r
  }

  /** The stack after a visit: the next visit to the same node, below its child. */
  ghost function Visited(fs: seq<Frame>, f: Frame): seq<Frame>
    requires f.t.Bin?
  {
    fs + [Frame(f.t, f.k + 1)] + if Child(f).Leaf? then [] else [Frame(Child(f), 1)]
  }

  /** A first or second visit frees nothing, loses nothing, and takes one step. */
  lemma Visit(fs: seq<Frame>, f: Frame)
    requires f.t.Bin? && 1 <= f.k <= 2
    ensures AllUnfreed(Visited(fs, f)) == AllUnfreed(fs + [f])
    ensures FreeNeed(Visited(fs, f)) == FreeNeed(fs + [f])
    ensures Work(Visited(fs, f)) < Work(fs + [f])
  {
    hide AllUnfreed, FreeNeed, Nodes, PostOrder, Height, Work, Size;
    VisitCosts(f.t);
    var g, h := Frame(f.t, f.k + 1), Frame(Child(f), 1);
    FreePush(fs, f);
    FreePush(fs, g);
    FreePush(fs + [g], h);
    if Child(f).Leaf? { assert Visited(fs, f) == fs + [g]; }
    assert Unfreed(h) + (Unfreed(g) + AllUnfreed(fs)) == (Unfreed(h) + Unfreed(g)) + AllUnfreed(fs);
  }

  lemma VisitSound(fs: seq<Frame>, f: Frame, t: Tree)
    requires Sound(fs + [f], t) && f.t.Bin? && f.k < 3
    ensures Sound(Visited(fs, f), t)
  {
    hide Sub;
    TopSound(fs, f, t);
    SubChildren(f.t, t);
    JoinSound(fs, [Frame(f.t, f.k + 1)], t);
    if Child(f).Bin? {
      JoinSound(fs + [Frame(f.t, f.k + 1)], [Frame(Child(f), 1)], t);
    }
  }

  /** The node of a frame has not been freed yet. */
  lemma NotFreed(freed: seq<Node>, fs: seq<Frame>, f: Frame)
    requires f.t.Bin? && 1 <= f.k <= 3 && Distinct(freed + AllUnfreed(fs + [f]))
    ensures f.t.n !in freed
  {
    hide Nodes;
    FreePush(fs, f);
    var u := Unfreed(f);
    assert u[|u| - 1] == f.t.n;
    var s := freed + AllUnfreed(fs + [f]);
    assert s[|freed| + |u| - 1] == f.t.n;
    forall i | 0 <= i < |freed|
      ensures freed[i] != f.t.n
    {
      assert s[i] == freed[i];
    }
  }
}
