/** The AVL tree in memory: insertion, lookup and removal by changing links and balances in place (m_oset.c). */
module AvlHeap {
  import opened AvlTrees

  /** The nodes reachable from `p` spell out the tree `t`. */
  ghost predicate Rep(p: Node?, t: Tree)
    reads Nodes(t)
  {
    match t
    case Leaf => p == null
    case Bin(l, n, bal, r) => p == n && n.balance == bal && Rep(n.left, l) && Rep(n.right, r)
  }

  /** The nodes of a tree that is at hand are all allocated. */
  lemma {:induction false} NodesAllocated(t: Tree)
    ensures forall n {:trigger n in Nodes(t)} :: n in Nodes(t) ==> allocated(n)
  {
    match t
    case Leaf =>
    case Bin(l, _, _, r) =>
      NodesAllocated(l);
      NodesAllocated(r);
  }

  lemma RootOf(p: Node?, t: Tree)
    requires Rep(p, t)
    ensures (p == null <==> t.Leaf?) && (t.Bin? ==> p == t.n)
  {
  }

  /** Search order makes the nodes of a tree distinct. */
  lemma Apart(l: Tree, n: Node, r: Tree)
    requires OrderedAt(l, n, r)
    ensures n !in Nodes(l) && n !in Nodes(r) && Nodes(l) !! Nodes(r)
  {
  }

  /** avl_swl, returning the new root. */
  method Swl(a: Node) returns (b: Node)
    requires a.right != null && a.right != a
    modifies a`right, a.right`left
    ensures b == old(a.right) && a.right == old(a.right.left) && b.left == a
  {
    b := a.right;
    a.right := b.left;
    b.left := a;
  }

  /** avl_swr, returning the new root. */
  method Swr(a: Node) returns (b: Node)
    requires a.left != null && a.left != a
    modifies a`left, a.left`right
    ensures b == old(a.left) && a.left == old(a.left.right) && b.right == a
  {
    b := a.left;
    a.left := b.right;
    b.right := a;
  }

  /** avl_nasty. */
  method Nasty(root: Node)
    requires root.left != null && root.right != null && root.left != root && root.right != root
    requires root.left != root.right
    modifies root`balance, root.left`balance, root.right`balance
    ensures root.balance == 0
    ensures -1 <= old(root.balance) <= 1 ==>
      root.left.balance == NastyLeft(old(root.balance)) && root.right.balance == NastyRight(old(root.balance))
  {
    if root.balance == -1 {
      root.left.balance := 0;
      root.right.balance := 1;
    } else if root.balance == 1 {
      root.left.balance := -1;
      root.right.balance := 0;
    } else if root.balance == 0 {
      root.left.balance := 0;
      root.right.balance := 0;
    }
    root.balance := 0;
  }

  /** A single swing to the right, with the balances it leaves behind. */
  method SwingRightAt(root: Node, balL: int, balR: int, ghost l: Tree, ghost r: Tree) returns (root': Node)
    requires OrderedAt(l, root, r) && l.Bin? && Rep(root.left, l) && Rep(root.right, r)
    modifies Nodes(l), root
    ensures Rep(root', SwingRight(l, root, r, balL, balR))
  {
    NodesAllocated(l);
    NodesAllocated(r);
    Apart(l, root, r);
    Apart(l.l, l.n, l.r);
    ghost var pl, pm, pr := l.n.left, l.n.right, root.right;
    ghost var rl, rm, rr := Rep(pl, l.l), Rep(pm, l.r), Rep(pr, r);
    root' := Swr(root);
    root'.balance := balL;
    root'.right.balance := balR;
    assert rl == Rep(pl, l.l) && rm == Rep(pm, l.r) && rr == Rep(pr, r);
  }

  method SwingLeftAt(root: Node, balL: int, balR: int, ghost l: Tree, ghost r: Tree) returns (root': Node)
    requires OrderedAt(l, root, r) && r.Bin? && Rep(root.left, l) && Rep(root.right, r)
    modifies Nodes(r), root
    ensures Rep(root', SwingLeft(l, root, r, balL, balR))
  {
    NodesAllocated(l);
    NodesAllocated(r);
    Apart(l, root, r);
    Apart(r.l, r.n, r.r);
    ghost var pl, pm, pr := root.left, r.n.left, r.n.right;
    ghost var rl, rm, rr := Rep(pl, l), Rep(pm, r.l), Rep(pr, r.r);
    root' := Swl(root);
    root'.balance := balR;
    root'.left.balance := balL;
    assert rl == Rep(pl, l) && rm == Rep(pm, r.l) && rr == Rep(pr, r.r);
  }

  /** The three nodes of a double swing are distinct, and in none of the four subtrees. */
  ghost predicate ThreeApart(a: Node, b: Node, c: Node, t0: Tree, t1: Tree, t2: Tree, t3: Tree) {
    && a != b && b != c && a != c
    && a !in Nodes(t0) && a !in Nodes(t1) && a !in Nodes(t2) && a !in Nodes(t3)
    && b !in Nodes(t0) && b !in Nodes(t1) && b !in Nodes(t2) && b !in Nodes(t3)
    && c !in Nodes(t0) && c !in Nodes(t1) && c !in Nodes(t2) && c !in Nodes(t3)
  }

  lemma NastyApart(l: Tree, n: Node, r: Tree)
    requires OrderedAt(l, n, r) && l.Bin? && l.r.Bin?
    ensures ThreeApart(n, l.n, l.r.n, l.l, l.r.l, l.r.r, r) && l.n in Nodes(l) && l.r.n in Nodes(l)
  {
    Apart(l, n, r);
    Apart(l.l, l.n, l.r);
    Apart(l.r.l, l.r.n, l.r.r);
  }

  lemma NastyApartLeft(l: Tree, n: Node, r: Tree)
    requires OrderedAt(l, n, r) && r.Bin? && r.l.Bin?
    ensures ThreeApart(n, r.n, r.l.n, l, r.l.l, r.l.r, r.r) && r.n in Nodes(r) && r.l.n in Nodes(r)
  {
    Apart(l, n, r);
    Apart(r.l, r.n, r.r);
    Apart(r.l.l, r.l.n, r.l.r);
  }

  /** The double swing to the right. */
  method NastyRightAt(root: Node, ghost l: Tree, ghost r: Tree) returns (root': Node)
    requires OrderedAt(l, root, r) && l.Bin? && l.r.Bin? && -1 <= l.r.bal <= 1 && Rep(root.left, l)
    requires Rep(root.right, r)
    modifies Nodes(l), root
    ensures Rep(root', NastyRightward(l, root, r))
  {
    hide Ordered, Below, Above, Nodes;
    NodesAllocated(l.l);
    NodesAllocated(l.r.l);
    NodesAllocated(l.r.r);
    NodesAllocated(r);
    NastyApart(l, root, r);
    ghost var p0, p1, p2, p3 := l.n.left, l.r.n.left, l.r.n.right, root.right;
    ghost var r0, r1, r2, r3 := Rep(p0, l.l), Rep(p1, l.r.l), Rep(p2, l.r.r), Rep(p3, r);
    var left := Swl(root.left);
    root.left := left;
    root' := Swr(root);
    Nasty(root');
    assert r0 == Rep(p0, l.l) && r1 == Rep(p1, l.r.l) && r2 == Rep(p2, l.r.r) && r3 == Rep(p3, r);
  }

  /** The double swing to the left. */
  method NastyLeftAt(root: Node, ghost l: Tree, ghost r: Tree) returns (root': Node)
    requires OrderedAt(l, root, r) && r.Bin? && r.l.Bin? && -1 <= r.l.bal <= 1 && Rep(root.left, l)
    requires Rep(root.right, r)
    modifies Nodes(r), root
    ensures Rep(root', NastyLeftward(l, root, r))
  {
    hide Ordered, Below, Above, Nodes;
    NodesAllocated(l);
    NodesAllocated(r.l.l);
    NodesAllocated(r.l.r);
    NodesAllocated(r.r);
    NastyApartLeft(l, root, r);
    ghost var p0, p1, p2, p3 := root.left, r.l.n.left, r.l.n.right, r.n.right;
    ghost var r0, r1, r2, r3 := Rep(p0, l), Rep(p1, r.l.l), Rep(p2, r.l.r), Rep(p3, r.r);
    var right := Swr(root.right);
    root.right := right;
    root' := Swl(root);
    Nasty(root');
    assert r0 == Rep(p0, l) && r1 == Rep(p1, r.l.l) && r2 == Rep(p2, r.l.r) && r3 == Rep(p3, r.r);
  }

  // ----- insertion

  /** avl_insert, after the left subtree has grown. */
  method LeftGrown(root: Node, ghost l: Tree, ghost r: Tree) returns (ch: bool, root': Node)
    requires OrderedAt(l, root, r) && Rep(root.left, l) && Rep(root.right, r)
    requires Balanced(l) && Balanced(r) && l.Bin? && l.bal != 0 && -1 <= root.balance <= 1
    requires root.balance == Height(r) - (Height(l) - 1)
    modifies Nodes(l), root
    ensures var c := GrownLeft(l, root, old(root.balance), r); Rep(root', c.t) && ch == c.ch
  {
    hide Balanced, Height, Below, Above;
    NodesAllocated(l);
    NodesAllocated(r);
    Apart(l, root, r);
    ghost var rl, rr := Rep(root.left, l), Rep(root.right, r);
    var bal := root.balance;
    root.balance := bal - 1;
    assert rl == Rep(root.left, l) && rr == Rep(root.right, r);
    if bal == 1 { return false, root; }
    if bal == 0 { return true, root; }
    ch := false;
    if root.left.balance < 0 {
      root' := SwingRightAt(root, 0, 0, l, r);
    } else {
      GrownNasty(l, root, r);
      root' := NastyRightAt(root, l, r);
    }
  }

  lemma GrownNasty(l: Tree, n: Node, r: Tree)
    requires Balanced(l) && Balanced(r) && l.Bin? && l.bal > 0 && -1 == Height(r) - (Height(l) - 1)
    ensures l.r.Bin? && -1 <= l.r.bal <= 1
  {
    NastyRightwardBalanced(l, n, r);
  }

  /** avl_insert, after the right subtree has grown. */
  method RightGrown(root: Node, ghost l: Tree, ghost r: Tree) returns (ch: bool, root': Node)
    requires OrderedAt(l, root, r) && Rep(root.left, l) && Rep(root.right, r)
    requires Balanced(l) && Balanced(r) && r.Bin? && r.bal != 0 && -1 <= root.balance <= 1
    requires root.balance == (Height(r) - 1) - Height(l)
    modifies Nodes(r), root
    ensures var c := GrownRight(l, root, old(root.balance), r); Rep(root', c.t) && ch == c.ch
  {
    hide Balanced, Height, Below, Above;
    NodesAllocated(l);
    NodesAllocated(r);
    Apart(l, root, r);
    ghost var rl, rr := Rep(root.left, l), Rep(root.right, r);
    var bal := root.balance;
    root.balance := bal + 1;
    assert rl == Rep(root.left, l) && rr == Rep(root.right, r);
    if bal == -1 { return false, root; }
    if bal == 0 { return true, root; }
    ch := false;
    if root.right.balance > 0 {
      root' := SwingLeftAt(root, 0, 0, l, r);
    } else {
      GrownNastyRight(l, root, r);
      root' := NastyLeftAt(root, l, r);
    }
  }

  lemma GrownNastyRight(l: Tree, n: Node, r: Tree)
    requires Balanced(l) && Balanced(r) && r.Bin? && r.bal < 0 && 1 == (Height(r) - 1) - Height(l)
    ensures r.l.Bin? && -1 <= r.l.bal <= 1
  {
    NastyLeftwardBalanced(l, n, r);
  }

  /** A node ready to be inserted: it is in no tree yet. */
  ghost predicate Loose(n: Node)
    reads n
  {
    n.left == null && n.right == null && n.balance == 0
  }

  /** avl_insert into a tree that is not empty. `ok` is false, and nothing has changed, for the failed assertion that
      the key is not there yet. The subtree's root is not stored back when the subtree has grown, because growing never
      rotates the subtree's root away. */
  method AvlInsert(root: Node, n: Node, ghost t: Tree) returns (ok: bool, ch: bool, root': Node)
    requires Rep(root, t) && t.Bin? && Ordered(t) && Loose(n)
    requires HasKey(t, n.key) || (Balanced(t) && n !in Nodes(t))
    modifies Nodes(t), n
    ensures ok <==> !HasKey(t, n.key)
    ensures ok ==> Rep(root', Insert(t, n).t) && ch == Insert(t, n).ch
    decreases t
  {
    hide Height, Below, Above, GrownLeft, GrownRight, HasKey;
    NodesAllocated(t);
    Apart(t.l, t.n, t.r);
    KeySides(t, n.key);
    ghost var fresh_ := !HasKey(t, n.key);
    if fresh_ { InsertOrdered(t, n); }
    ghost var pl, pr := root.left, root.right;
    ghost var rl, rr := Rep(pl, t.l), Rep(pr, t.r);
    if n.key < root.key {
      if root.left != null {
        var grew, sub;
        ok, grew, sub := AvlInsert(root.left, n, t.l);
        if !ok {
          return ok, false, root;
        }
        assert rr == Rep(pr, t.r);
        InsertLeftReady(t, n);
        if grew {
          ch, root' := LeftGrown(root, Insert(t.l, n).t, t.r);
        } else {
          ghost var rs := Rep(sub, Insert(t.l, n).t);
          root.left := sub;
          assert rr == Rep(pr, t.r) && rs == Rep(sub, Insert(t.l, n).t);
          ch, root' := false, root;
        }
      } else {
        root.left := n;
        ch := root.balance == 0;
        root.balance := root.balance - 1;
        assert rr == Rep(pr, t.r);
        ok, root' := true, root;
      }
    } else if n.key > root.key {
      if root.right != null {
        var grew, sub;
        ok, grew, sub := AvlInsert(root.right, n, t.r);
        if !ok {
          return ok, false, root;
        }
        assert rl == Rep(pl, t.l);
        InsertRightReady(t, n);
        if grew {
          ch, root' := RightGrown(root, t.l, Insert(t.r, n).t);
        } else {
          ghost var rs := Rep(sub, Insert(t.r, n).t);
          root.right := sub;
          assert rl == Rep(pl, t.l) && rs == Rep(sub, Insert(t.r, n).t);
          ch, root' := false, root;
        }
      } else {
        root.right := n;
        ch := root.balance == 0;
        root.balance := root.balance + 1;
        assert rl == Rep(pl, t.l);
        ok, root' := true, root;
      }
    } else {
      return false, false, root;
    }
  }

  /** On which side of the root a key is, if it is in the tree. */
  lemma KeySides(t: Tree, k: int)
    requires t.Bin? && Ordered(t)
    ensures k < t.n.key ==> (HasKey(t, k) <==> HasKey(t.l, k))
    ensures k > t.n.key ==> (HasKey(t, k) <==> HasKey(t.r, k))
    ensures k == t.n.key ==> HasKey(t, k)
    ensures !HasKey(Leaf, k)
  {
    assert t.n in Nodes(t) && Nodes(t.l) <= Nodes(t) && Nodes(t.r) <= Nodes(t);
  }

  /** The tree that is left in memory when the fields of `n` are reset while `n` is in the tree. */
  ghost function Cut(t: Tree, n: Node): Tree {
    match t
    case Leaf => Leaf
    case Bin(l, m, bal, r) => if m == n then Single(n) else Bin(Cut(l, n), m, bal, Cut(r, n))
  }

  lemma {:induction false} CutOrdered(t: Tree, n: Node)
    requires Ordered(t)
    ensures Ordered(Cut(t, n)) && Nodes(Cut(t, n)) <= Nodes(t)
    ensures n in Nodes(t) ==> n in Nodes(Cut(t, n))
    ensures n !in Nodes(t) ==> Cut(t, n) == t
  {
    if t.Bin? && t.n != n {
      CutOrdered(t.l, n);
      CutOrdered(t.r, n);
    }
  }

  /** The nodes reachable from `p` spell out `t`, as far as node `n`. */
  ghost predicate RepTo(p: Node?, t: Tree, n: Node)
    reads Nodes(t) - {n}
  {
    match t
    case Leaf => p == null
    case Bin(l, m, bal, r) => p == m && (m != n ==> m.balance == bal && RepTo(m.left, l, n) && RepTo(m.right, r, n))
  }

  lemma {:induction false} RepGoesTo(p: Node?, t: Tree, n: Node)
    requires Rep(p, t)
    ensures RepTo(p, t, n)
  {
    if t.Bin? {
      RepGoesTo(t.n.left, t.l, n);
      RepGoesTo(t.n.right, t.r, n);
    }
  }

  lemma {:induction false} CutRep(p: Node?, t: Tree, n: Node)
    requires RepTo(p, t, n) && Loose(n)
    ensures Rep(p, Cut(t, n))
  {
    if t.Bin? && t.n != n {
      CutRep(t.n.left, t.l, n);
      CutRep(t.n.right, t.r, n);
    }
  }

  /** Clear the fields of a node that is to be inserted, even if it is in the tree already. */
  method Reset(n: Node, ghost root: Node?, ghost t: Tree)
    requires Rep(root, t)
    modifies n
    ensures Loose(n) && Rep(root, Cut(t, n))
  {
    NodesAllocated(t);
    RepGoesTo(root, t, n);
    ghost var upTo := RepTo(root, t, n);
    n.left, n.right, n.balance := null, null, 0;
    assert upTo == RepTo(root, t, n);
    CutRep(root, t, n);
  }

  lemma NoKeyBelow(t: Tree, k: int)
    requires t.Bin? && !HasKey(t, k)
    ensures !HasKey(t.l, k) && !HasKey(t.r, k)
  {
    assert Nodes(t.l) <= Nodes(t) && Nodes(t.r) <= Nodes(t);
  }

  lemma InsertLeftReady(t: Tree, n: Node)
    requires t.Bin? && Balanced(t) && Ordered(t) && !HasKey(t, n.key) && n.key < t.n.key && t.l.Bin?
    ensures var c := Insert(t.l, n);
            && OrderedAt(c.t, t.n, t.r) && t.n !in Nodes(c.t) && Nodes(c.t) == Nodes(t.l) + {n} &&
               Nodes(c.t) !! Nodes(t.r)
            && (c.ch ==> c.t.bal != 0 && t.bal == Height(t.r) - (Height(c.t) - 1))
  {
    NoKeyBelow(t, n.key);
    InsertOrdered(t.l, n);
    Apart(Insert(t.l, n).t, t.n, t.r);
  }

  lemma InsertRightReady(t: Tree, n: Node)
    requires t.Bin? && Balanced(t) && Ordered(t) && !HasKey(t, n.key) && n.key > t.n.key && t.r.Bin?
    ensures var c := Insert(t.r, n);
            && OrderedAt(t.l, t.n, c.t) && t.n !in Nodes(c.t) && Nodes(c.t) == Nodes(t.r) + {n} &&
               Nodes(c.t) !! Nodes(t.l)
            && (c.ch ==> c.t.bal != 0 && t.bal == (Height(c.t) - 1) - Height(t.l))
  {
    NoKeyBelow(t, n.key);
    InsertOrdered(t.r, n);
    Apart(t.l, t.n, Insert(t.r, n).t);
  }

  // ----- lookup

  /** avl_lookup: the node with key `k`, or null. */
  method AvlLookup(root: Node?, k: int, ghost t: Tree) returns (n: Node?)
    requires Rep(root, t) && Ordered(t)
    ensures n == null <==> !HasKey(t, k)
    ensures n != null ==> n in Nodes(t) && n.key == k
  {
    ghost var s := t;
    n := root;
    while n != null
      invariant Rep(n, s) && Ordered(s) && Nodes(s) <= Nodes(t)
      invariant forall m :: m in Nodes(t) && m.key == k ==> m in Nodes(s)
      decreases s
    {
      if k < n.key {
        n, s := n.left, s.l;
      } else if k > n.key {
        n, s := n.right, s.r;
      } else {
        return;
      }
    }
  }

  // ----- removal

  /** avl_remove, after the left subtree has shrunk. */
  method LeftShrunk(root: Node, ghost l: Tree, ghost r: Tree) returns (ch: bool, root': Node)
    requires OrderedAt(l, root, r) && Rep(root.left, l) && Rep(root.right, r)
    requires Balanced(l) && Balanced(r) && -1 <= root.balance <= 1 && root.balance == Height(r) - (Height(l) + 1)
    modifies Nodes(r), root
    ensures var c := ShrunkLeft(l, root, old(root.balance), r); Rep(root', c.t) && ch == c.ch
  {
    hide Balanced, Below, Above;
    NodesAllocated(l);
    NodesAllocated(r);
    Apart(l, root, r);
    ghost var rl, rr := Rep(root.left, l), Rep(root.right, r);
    var bal := root.balance;
    root.balance := bal + 1;
    assert rl == Rep(root.left, l) && rr == Rep(root.right, r);
    if bal == -1 { return true, root; }
    if bal == 0 { return false, root; }
    BalanceRange(r);
    if root.right.balance == 0 {
      root' := SwingLeftAt(root, 1, -1, l, r);
      return false, root';
    }
    if root.right.balance == 1 {
      root' := SwingLeftAt(root, 0, 0, l, r);
      return true, root';
    }
    GrownNastyRight(l, root, r);
    root' := NastyLeftAt(root, l, r);
    return true, root';
  }

  /** avl_remove, after the right subtree has shrunk. */
  method RightShrunk(root: Node, ghost l: Tree, ghost r: Tree) returns (ch: bool, root': Node)
    requires OrderedAt(l, root, r) && Rep(root.left, l) && Rep(root.right, r)
    requires Balanced(l) && Balanced(r) && -1 <= root.balance <= 1 && root.balance == (Height(r) + 1) - Height(l)
    modifies Nodes(l), root
    ensures var c := ShrunkRight(l, root, old(root.balance), r); Rep(root', c.t) && ch == c.ch
  {
    hide Balanced, Below, Above;
    NodesAllocated(l);
    NodesAllocated(r);
    Apart(l, root, r);
    ghost var rl, rr := Rep(root.left, l), Rep(root.right, r);
    var bal := root.balance;
    root.balance := bal - 1;
    assert rl == Rep(root.left, l) && rr == Rep(root.right, r);
    if bal == 1 { return true, root; }
    if bal == 0 { return false, root; }
    BalanceRange(l);
    if root.left.balance == 0 {
      root' := SwingRightAt(root, 1, -1, l, r);
      return false, root';
    }
    if root.left.balance == -1 {
      root' := SwingRightAt(root, 0, 0, l, r);
      return true, root';
    }
    GrownNasty(l, root, r);
    root' := NastyRightAt(root, l, r);
    return true, root';
  }

  lemma BalanceRange(t: Tree)
    requires Balanced(t)
    ensures t.Bin? ==> -1 <= t.bal <= 1
  {
  }

  lemma RemoveLeftReady(t: Tree, n: Node)
    requires n in Nodes(t) && Balanced(t) && Ordered(t) && n.key < t.n.key
    ensures n in Nodes(t.l)
    ensures var c := Remove(t.l, n);
            && OrderedAt(c.t, t.n, t.r) && Nodes(c.t) <= Nodes(t.l) && t.n !in Nodes(c.t)
            && (c.ch ==> t.bal == Height(t.r) - (Height(c.t) + 1))
  {
    RemoveOrdered(t.l, n);
  }

  lemma RemoveRightReady(t: Tree, n: Node)
    requires n in Nodes(t) && Balanced(t) && Ordered(t) && n.key > t.n.key
    ensures n in Nodes(t.r)
    ensures var c := Remove(t.r, n);
            && OrderedAt(t.l, t.n, c.t) && Nodes(c.t) <= Nodes(t.r) && t.n !in Nodes(c.t)
            && (c.ch ==> t.bal == (Height(c.t) + 1) - Height(t.l))
  {
    RemoveOrdered(t.r, n);
  }

  /** avl_remove: take out a node already found in the tree. */
  method AvlRemove(root: Node, n: Node, ghost t: Tree) returns (ch: bool, root': Node?)
    requires Rep(root, t) && n in Nodes(t) && Balanced(t) && Ordered(t)
    modifies Nodes(t)
    ensures Rep(root', Remove(t, n).t) && ch == Remove(t, n).ch
    decreases t, if n == root then 2 else 0
  {
    hide Height, Below, Above, ShrunkLeft, ShrunkRight, RemoveRoot;
    NodesAllocated(t);
    Apart(t.l, t.n, t.r);
    ghost var pl, pr := root.left, root.right;
    ghost var rl, rr := Rep(pl, t.l), Rep(pr, t.r);
    if n.key < root.key {
      RemoveLeftReady(t, n);
      var shrunk, sub := AvlRemove(root.left, n, t.l);
      ghost var l' := Remove(t.l, n).t;
      ghost var rs := Rep(sub, l');
      assert rr == Rep(pr, t.r);
      root.left := sub;
      assert rr == Rep(pr, t.r) && rs == Rep(sub, l');
      if shrunk {
        ch, root' := LeftShrunk(root, l', t.r);
      } else {
        ch, root' := false, root;
      }
    } else if n.key > root.key {
      RemoveRightReady(t, n);
      var shrunk, sub := AvlRemove(root.right, n, t.r);
      ghost var r' := Remove(t.r, n).t;
      ghost var rs := Rep(sub, r');
      assert rl == Rep(pl, t.l);
      root.right := sub;
      assert rl == Rep(pl, t.l) && rs == Rep(sub, r');
      if shrunk {
        ch, root' := RightShrunk(root, t.l, r');
      } else {
        ch, root' := false, root;
      }
    } else {
      SameKey(t, n);
      ch, root' := AvlRemoveRoot(root, t);
    }
  }

  lemma SameKey(t: Tree, n: Node)
    requires n in Nodes(t) && Ordered(t) && n.key == t.n.key
    ensures n == t.n
  {
  }

  /** The node that is to take the root's place: the largest on the left, or the smallest on the right. */
  method FindStand(root: Node, ghost t: Tree) returns (n: Node)
    requires Rep(root, t) && t.Bin? && t.l.Bin? && t.r.Bin? && Ordered(t)
    ensures n == Stand(t)
  {
    if root.balance < 0 {
      n := root.left;
      ghost var s := t.l;
      while n.right != null
        invariant s.Bin? && Rep(n, s) && MaxNode(s) == MaxNode(t.l)
        decreases s
      {
        n, s := n.right, s.r;
      }
    } else {
      n := root.right;
      ghost var s := t.r;
      while n.left != null
        invariant s.Bin? && Rep(n, s) && MinNode(s) == MinNode(t.r)
        decreases s
      {
        n, s := n.left, s.l;
      }
    }
  }

  /** The stand-in gets the links and the balance of the root it replaces. */
  method TakePlace(n: Node, root: Node, ghost t: Tree)
    requires Rep(root, t) && t.Bin? && n !in Nodes(t)
    modifies n
    ensures Rep(n, t.(n := n))
  {
    NodesAllocated(t);
    ghost var pl, pr := root.left, root.right;
    ghost var rl, rr := Rep(pl, t.l), Rep(pr, t.r);
    n.left := root.left;
    n.right := root.right;
    n.balance := root.balance;
    assert rl == Rep(pl, t.l) && rr == Rep(pr, t.r);
  }

  /** avl_removeroot. */
  method AvlRemoveRoot(root: Node, ghost t: Tree) returns (ch: bool, root': Node?)
    requires Rep(root, t) && t.Bin? && Balanced(t) && Ordered(t)
    modifies Nodes(t)
    ensures Rep(root', RemoveRoot(t).t) && ch == RemoveRoot(t).ch
    decreases t, 1
  {
    hide Height, Below, Above, Remove;
    if root.left == null {
      if root.right == null {
        return true, null;
      }
      return true, root.right;
    }
    if root.right == null {
      return true, root.left;
    }
    NodesAllocated(t);
    var n := FindStand(root, t);
    RemoveOrdered(t, n);
    StandKeepsRoot(t);
    var shrunk, top := AvlRemove(root, n, t);
    ghost var c := Remove(t, n).t;
    assert n !in Nodes(c);
    NodesAllocated(c);
    TakePlace(n, top, c);
    root' := n;
    ch := n.balance == 0 && shrunk;
  }

  /** Taking the stand-in out of the deeper side does not rotate the root away. */
  lemma StandKeepsRoot(t: Tree)
    requires t.Bin? && t.l.Bin? && t.r.Bin? && Balanced(t) && Ordered(t)
    ensures Remove(t, Stand(t)).t.Bin? && Remove(t, Stand(t)).t.n == t.n
  {
  }
}
