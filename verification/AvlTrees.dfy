/** AVL trees as values: what avl_insert and avl_remove do to the shape of a tree (m_oset.c). */
module AvlTrees {

  /** AvlNode: links and balance are changed in place; the key belongs to the element and does not change.
      A comparator is represented by the rank it gives to each key. */
  class Node {
    var left: Node?
    var right: Node?
    var balance: int
    const key: int

    constructor (k: int)
      ensures key == k && left == null && right == null && balance == 0
    {
      key := k;
      left, right, balance := null, null, 0;
    }
  }

  datatype Tree = Leaf | Bin(l: Tree, n: Node, bal: int, r: Tree)

  /** An operation's new tree, and its Boolean result. */
  datatype Changed = Changed(t: Tree, ch: bool)

  ghost function Nodes(t: Tree): set<Node> {
    match t
    case Leaf => {}
    case Bin(l, n, _, r) => Nodes(l) + {n} + Nodes(r)
  }

  ghost function Height(t: Tree): nat {
    match t
    case Leaf => 0
    case Bin(l, _, _, r) => 1 + if Height(l) < Height(r) then Height(r) else Height(l)
  }

  ghost predicate Below(t: Tree, k: int) { forall m :: m in Nodes(t) ==> m.key < k }
  ghost predicate Above(t: Tree, k: int) { forall m :: m in Nodes(t) ==> k < m.key }

  /** Search order: strictly increasing from left to right. */
  ghost predicate Ordered(t: Tree) {
    t.Bin? ==> Ordered(t.l) && Ordered(t.r) && Below(t.l, t.n.key) && Above(t.r, t.n.key)
  }

  /** Every balance factor is exact, and at most one off. */
  ghost predicate Balanced(t: Tree) {
    t.Bin? ==> Balanced(t.l) && Balanced(t.r) && t.bal == Height(t.r) - Height(t.l) && -1 <= t.bal <= 1
  }

  // ----- rotations

  /** avl_swr at a root that is two too heavy on its outer left. */
  ghost function SwingRight(l: Tree, n: Node, r: Tree, balL: int, balR: int): Tree
    requires l.Bin?
  {
    Bin(l.l, l.n, balL, Bin(l.r, n, balR, r))
  }

  ghost function SwingLeft(l: Tree, n: Node, r: Tree, balL: int, balR: int): Tree
    requires r.Bin?
  {
    Bin(Bin(l, n, balL, r.l), r.n, balR, r.r)
  }

  /** avl_nasty's balances for the children, from the balance of the node that comes on top. */
  ghost function NastyLeft(bal: int): int { if bal == 1 then -1 else 0 }
  ghost function NastyRight(bal: int): int { if bal == -1 then 1 else 0 }

  /** avl_swl on the left child, then avl_swr. */
  ghost function NastyRightward(l: Tree, n: Node, r: Tree): Tree
    requires l.Bin? && l.r.Bin?
  {
    var m := l.r;
    Bin(Bin(l.l, l.n, NastyLeft(m.bal), m.l), m.n, 0, Bin(m.r, n, NastyRight(m.bal), r))
  }

  ghost function NastyLeftward(l: Tree, n: Node, r: Tree): Tree
    requires r.Bin? && r.l.Bin?
  {
    var m := r.l;
    Bin(Bin(l, n, NastyLeft(m.bal), m.l), m.n, 0, Bin(m.r, r.n, NastyRight(m.bal), r.r))
  }

  /** The tree's search order, split at its root. */
  ghost predicate OrderedAt(l: Tree, n: Node, r: Tree) {
    Ordered(l) && Ordered(r) && Below(l, n.key) && Above(r, n.key)
  }

  lemma SwingRightOrdered(l: Tree, n: Node, r: Tree, balL: int, balR: int)
    requires OrderedAt(l, n, r) && l.Bin?
    ensures Ordered(SwingRight(l, n, r, balL, balR))
    ensures Nodes(SwingRight(l, n, r, balL, balR)) == Nodes(l) + {n} + Nodes(r)
  {
    var low := Bin(l.r, n, balR, r);
    assert Ordered(low);
    assert Above(low, l.n.key);
  }

  lemma SwingLeftOrdered(l: Tree, n: Node, r: Tree, balL: int, balR: int)
    requires OrderedAt(l, n, r) && r.Bin?
    ensures Ordered(SwingLeft(l, n, r, balL, balR))
    ensures Nodes(SwingLeft(l, n, r, balL, balR)) == Nodes(l) + {n} + Nodes(r)
  {
    var low := Bin(l, n, balL, r.l);
    assert Ordered(low);
    assert Below(low, r.n.key);
  }

  lemma NastyRightwardOrdered(l: Tree, n: Node, r: Tree)
    requires OrderedAt(l, n, r) && l.Bin? && l.r.Bin?
    ensures Ordered(NastyRightward(l, n, r)) && Nodes(NastyRightward(l, n, r)) == Nodes(l) + {n} + Nodes(r)
  {
    hide Ordered, Nodes, Below, Above;
    var m := l.r;
    OrderedParts(l);
    SwingLeftOrdered(l.l, l.n, l.r, NastyLeft(m.bal), 0);
    var l' := SwingLeft(l.l, l.n, l.r, NastyLeft(m.bal), 0);
    SameNodes(l, l', n.key);
    SwingRightOrdered(l', n, r, 0, NastyRight(m.bal));
  }

  lemma NastyLeftwardOrdered(l: Tree, n: Node, r: Tree)
    requires OrderedAt(l, n, r) && r.Bin? && r.l.Bin?
    ensures Ordered(NastyLeftward(l, n, r)) && Nodes(NastyLeftward(l, n, r)) == Nodes(l) + {n} + Nodes(r)
  {
    hide Ordered, Nodes, Below, Above;
    var m := r.l;
    OrderedParts(r);
    SwingRightOrdered(r.l, r.n, r.r, 0, NastyRight(m.bal));
    var r' := SwingRight(r.l, r.n, r.r, 0, NastyRight(m.bal));
    SameNodes(r, r', n.key);
    SwingLeftOrdered(l, n, r', NastyLeft(m.bal), 0);
  }

  lemma OrderedParts(t: Tree)
    requires t.Bin?
    ensures Ordered(t) <==> OrderedAt(t.l, t.n, t.r)
    ensures Nodes(t) == Nodes(t.l) + {t.n} + Nodes(t.r)
  {
  }

  lemma SameNodes(t: Tree, t': Tree, k: int)
    requires Nodes(t) == Nodes(t')
    ensures (Below(t, k) <==> Below(t', k)) && (Above(t, k) <==> Above(t', k))
  {
  }

  lemma NastyRightwardBalanced(l: Tree, n: Node, r: Tree)
    requires Balanced(l) && Balanced(r) && l.Bin? && l.bal == 1 && Height(l) == Height(r) + 2
    ensures l.r.Bin? && Balanced(NastyRightward(l, n, r)) && Height(NastyRightward(l, n, r)) == Height(r) + 2
  {
    var m := l.r;
    assert Balanced(m) && Height(m) == Height(r) + 1;
    assert Balanced(Bin(l.l, l.n, NastyLeft(m.bal), m.l));
    assert Balanced(Bin(m.r, n, NastyRight(m.bal), r));
  }

  lemma NastyLeftwardBalanced(l: Tree, n: Node, r: Tree)
    requires Balanced(l) && Balanced(r) && r.Bin? && r.bal == -1 && Height(r) == Height(l) + 2
    ensures r.l.Bin? && Balanced(NastyLeftward(l, n, r)) && Height(NastyLeftward(l, n, r)) == Height(l) + 2
  {
    var m := r.l;
    assert Balanced(m) && Height(m) == Height(l) + 1;
    assert Balanced(Bin(l, n, NastyLeft(m.bal), m.l));
    assert Balanced(Bin(m.r, r.n, NastyRight(m.bal), r.r));
  }

  // ----- insertion

  /** The left subtree has grown to `l`, in a tree whose root has balance `bal`. */
  ghost function GrownLeft(l: Tree, n: Node, bal: int, r: Tree): (c: Changed)
    requires Balanced(l) && Balanced(r) && l.Bin? && l.bal != 0
    requires -1 <= bal <= 1 && bal == Height(r) - (Height(l) - 1)
    ensures Balanced(c.t) && c.t.Bin? && (c.ch ==> c.t.bal != 0 && c.t.n == n)
    ensures Height(c.t) == (if Height(l) - 1 < Height(r) then Height(r) else Height(l) - 1) + 1 + (if c.ch then 1
                      else 0)
  {
    if bal == 1 then Changed(Bin(l, n, 0, r), false)
    else if bal == 0 then Changed(Bin(l, n, -1, r), true)
    else if l.bal < 0 then Changed(SwingRight(l, n, r, 0, 0), false)
    else NastyRightwardBalanced(l, n, r); Changed(NastyRightward(l, n, r), false)
  }

  ghost function GrownRight(l: Tree, n: Node, bal: int, r: Tree): (c: Changed)
    requires Balanced(l) && Balanced(r) && r.Bin? && r.bal != 0
    requires -1 <= bal <= 1 && bal == (Height(r) - 1) - Height(l)
    ensures Balanced(c.t) && c.t.Bin? && (c.ch ==> c.t.bal != 0 && c.t.n == n)
    ensures Height(c.t) == (if Height(r) - 1 < Height(l) then Height(l) else Height(r) - 1) + 1 + (if c.ch then 1
                      else 0)
  {
    if bal == -1 then Changed(Bin(l, n, 0, r), false)
    else if bal == 0 then Changed(Bin(l, n, 1, r), true)
    else if r.bal > 0 then Changed(SwingLeft(l, n, r, 0, 0), false)
    else NastyLeftwardBalanced(l, n, r); Changed(NastyLeftward(l, n, r), false)
  }

  ghost function Single(n: Node): Tree { Bin(Leaf, n, 0, Leaf) }

  /** avl_insert: `ch` is exactly "the tree has grown", and then the root has not been rotated away. */
  ghost function Insert(t: Tree, n: Node): (c: Changed)
    requires t.Bin? && Balanced(t)
    ensures c.t.Bin? && Balanced(c.t) && Height(c.t) == Height(t) + (if c.ch then 1 else 0)
    ensures c.ch ==> c.t.bal != 0 && c.t.n == t.n
  {
    if n.key < t.n.key then
      if t.l.Leaf? then
        Changed(Bin(Single(n), t.n, t.bal - 1, t.r), t.bal == 0)
      else
        var c := Insert(t.l, n);
        if c.ch then GrownLeft(c.t, t.n, t.bal, t.r) else Changed(Bin(c.t, t.n, t.bal, t.r), false)
    else
      if t.r.Leaf? then
        Changed(Bin(t.l, t.n, t.bal + 1, Single(n)), t.bal == 0)
      else
        var c := Insert(t.r, n);
        if c.ch then GrownRight(t.l, t.n, t.bal, c.t) else Changed(Bin(t.l, t.n, t.bal, c.t), false)
  }

  ghost predicate HasKey(t: Tree, k: int) { exists m :: m in Nodes(t) && m.key == k }

  lemma GrownLeftOrdered(l: Tree, n: Node, bal: int, r: Tree)
    requires Balanced(l) && Balanced(r) && l.Bin? && l.bal != 0
    requires -1 <= bal <= 1 && bal == Height(r) - (Height(l) - 1)
    requires Ordered(Bin(l, n, bal, r))
    ensures Ordered(GrownLeft(l, n, bal, r).t) && Nodes(GrownLeft(l, n, bal, r).t) == Nodes(l) + {n} + Nodes(r)
  {
    hide Below, Above, Height;
    if bal == -1 {
      if l.bal < 0 {
        SwingRightOrdered(l, n, r, 0, 0);
      } else {
        NastyRightwardBalanced(l, n, r);
        NastyRightwardOrdered(l, n, r);
      }
    }
  }

  lemma GrownRightOrdered(l: Tree, n: Node, bal: int, r: Tree)
    requires Balanced(l) && Balanced(r) && r.Bin? && r.bal != 0
    requires -1 <= bal <= 1 && bal == (Height(r) - 1) - Height(l)
    requires Ordered(Bin(l, n, bal, r))
    ensures Ordered(GrownRight(l, n, bal, r).t) && Nodes(GrownRight(l, n, bal, r).t) == Nodes(l) + {n} + Nodes(r)
  {
    hide Below, Above, Height;
    if bal == 1 {
      if r.bal > 0 {
        SwingLeftOrdered(l, n, r, 0, 0);
      } else {
        NastyLeftwardBalanced(l, n, r);
        NastyLeftwardOrdered(l, n, r);
      }
    }
  }

  /** Insertion keeps the search order and adds exactly the new node. */
  lemma {:induction false} InsertOrdered(t: Tree, n: Node)
    requires t.Bin? && Balanced(t) && Ordered(t) && !HasKey(t, n.key)
    ensures Ordered(Insert(t, n).t) && Nodes(Insert(t, n).t) == Nodes(t) + {n}
  {
    hide GrownLeft, GrownRight, Height;
    assert t.n in Nodes(t) && t.n.key != n.key;
    if n.key < t.n.key {
      if t.l.Bin? {
        InsertOrdered(t.l, n);
        var c := Insert(t.l, n);
        assert Ordered(Bin(c.t, t.n, t.bal, t.r));
        if c.ch { GrownLeftOrdered(c.t, t.n, t.bal, t.r); }
      }
    } else if t.r.Bin? {
      InsertOrdered(t.r, n);
      var c := Insert(t.r, n);
      assert Ordered(Bin(t.l, t.n, t.bal, c.t));
      if c.ch { GrownRightOrdered(t.l, t.n, t.bal, c.t); }
    }
  }

  // ----- removal

  /** The left subtree has shrunk to `l`, in a tree whose root has balance `bal`. */
  ghost function ShrunkLeft(l: Tree, n: Node, bal: int, r: Tree): (c: Changed)
    requires Balanced(l) && Balanced(r) && -1 <= bal <= 1 && bal == Height(r) - (Height(l) + 1)
    ensures Balanced(c.t) && c.t.Bin? && (bal < 1 ==> c.t.n == n)
    ensures Height(c.t) + (if c.ch then 1 else 0) == 1 + if Height(l) + 1 < Height(r) then Height(r) else Height(l) + 1
  {
    if bal == -1 then Changed(Bin(l, n, 0, r), true)
    else if bal == 0 then Changed(Bin(l, n, 1, r), false)
    else if r.bal == 0 then Changed(SwingLeft(l, n, r, 1, -1), false)
    else if r.bal == 1 then Changed(SwingLeft(l, n, r, 0, 0), true)
    else NastyLeftwardBalanced(l, n, r); Changed(NastyLeftward(l, n, r), true)
  }

  ghost function ShrunkRight(l: Tree, n: Node, bal: int, r: Tree): (c: Changed)
    requires Balanced(l) && Balanced(r) && -1 <= bal <= 1 && bal == (Height(r) + 1) - Height(l)
    ensures Balanced(c.t) && c.t.Bin? && (bal > -1 ==> c.t.n == n)
    ensures Height(c.t) + (if c.ch then 1 else 0) == 1 + if Height(r) + 1 < Height(l) then Height(l) else Height(r) + 1
  {
    if bal == 1 then Changed(Bin(l, n, 0, r), true)
    else if bal == 0 then Changed(Bin(l, n, -1, r), false)
    else if l.bal == 0 then Changed(SwingRight(l, n, r, 1, -1), false)
    else if l.bal == -1 then Changed(SwingRight(l, n, r, 0, 0), true)
    else NastyRightwardBalanced(l, n, r); Changed(NastyRightward(l, n, r), true)
  }

  ghost function MaxNode(t: Tree): (m: Node)
    requires t.Bin?
    ensures m in Nodes(t)
  {
    if t.r.Leaf? then t.n else MaxNode(t.r)
  }

  ghost function MinNode(t: Tree): (m: Node)
    requires t.Bin?
    ensures m in Nodes(t)
  {
    if t.l.Leaf? then t.n else MinNode(t.l)
  }

  /** The node that takes the place of the root: from the deeper side, and from the right if the sides are even. */
  ghost function Stand(t: Tree): (m: Node)
    requires t.Bin? && t.l.Bin? && t.r.Bin? && Ordered(t)
    ensures m in Nodes(t) && m != t.n
    ensures (if t.bal < 0 then m in Nodes(t.l) && m.key < t.n.key else m in Nodes(t.r) && t.n.key < m.key)
  {
    if t.bal < 0 then MaxNode(t.l) else MinNode(t.r)
  }

  /** avl_remove: `ch` is exactly "the tree has shrunk". Removal from the deeper side leaves the root in place. */
  ghost function Remove(t: Tree, n: Node): (c: Changed)
    requires n in Nodes(t) && Balanced(t) && Ordered(t)
    ensures Balanced(c.t) && Height(c.t) + (if c.ch then 1 else 0) == Height(t)
    ensures n.key < t.n.key && t.bal < 1 ==> c.t.Bin? && c.t.n == t.n && c.t.r == t.r
    ensures n.key > t.n.key && t.bal > -1 ==> c.t.Bin? && c.t.n == t.n && c.t.l == t.l
    decreases t, if n == t.n then 2 else 0
  {
    if n.key < t.n.key then
      var c := Remove(t.l, n);
      if c.ch then ShrunkLeft(c.t, t.n, t.bal, t.r) else Changed(Bin(c.t, t.n, t.bal, t.r), false)
    else if n.key > t.n.key then
      var c := Remove(t.r, n);
      if c.ch then ShrunkRight(t.l, t.n, t.bal, c.t) else Changed(Bin(t.l, t.n, t.bal, c.t), false)
    else RemoveRoot(t)
  }

  /** avl_removeroot. */
  ghost function RemoveRoot(t: Tree): (c: Changed)
    requires t.Bin? && Balanced(t) && Ordered(t)
    ensures Balanced(c.t) && Height(c.t) + (if c.ch then 1 else 0) == Height(t)
    decreases t, 1
  {
    if t.l.Leaf? then
      if t.r.Leaf? then Changed(Leaf, true) else Changed(t.r, true)
    else if t.r.Leaf? then Changed(t.l, true)
    else
      var m := Stand(t);
      var c := Remove(t, m);
      Changed(c.t.(n := m), c.t.bal == 0 && c.ch)
  }

  lemma ShrunkLeftOrdered(l: Tree, n: Node, bal: int, r: Tree)
    requires Balanced(l) && Balanced(r) && -1 <= bal <= 1 && bal == Height(r) - (Height(l) + 1)
    requires OrderedAt(l, n, r)
    ensures Ordered(ShrunkLeft(l, n, bal, r).t) && Nodes(ShrunkLeft(l, n, bal, r).t) == Nodes(l) + {n} + Nodes(r)
  {
    hide Below, Above;
    if bal == 1 {
      if r.bal == 0 {
        SwingLeftOrdered(l, n, r, 1, -1);
      } else if r.bal == 1 {
        SwingLeftOrdered(l, n, r, 0, 0);
      } else {
        NastyLeftwardBalanced(l, n, r);
        NastyLeftwardOrdered(l, n, r);
      }
    }
  }

  lemma ShrunkRightOrdered(l: Tree, n: Node, bal: int, r: Tree)
    requires Balanced(l) && Balanced(r) && -1 <= bal <= 1 && bal == (Height(r) + 1) - Height(l)
    requires OrderedAt(l, n, r)
    ensures Ordered(ShrunkRight(l, n, bal, r).t) && Nodes(ShrunkRight(l, n, bal, r).t) == Nodes(l) + {n} + Nodes(r)
  {
    hide Below, Above;
    if bal == -1 {
      if l.bal == 0 {
        SwingRightOrdered(l, n, r, 1, -1);
      } else if l.bal == -1 {
        SwingRightOrdered(l, n, r, 0, 0);
      } else {
        NastyRightwardBalanced(l, n, r);
        NastyRightwardOrdered(l, n, r);
      }
    }
  }

  lemma {:induction false} MaxIsLast(t: Tree)
    requires t.Bin? && Ordered(t)
    ensures forall x :: x in Nodes(t) && x != MaxNode(t) ==> x.key < MaxNode(t).key
  {
    if t.r.Bin? { MaxIsLast(t.r); }
  }

  lemma {:induction false} MinIsFirst(t: Tree)
    requires t.Bin? && Ordered(t)
    ensures forall x :: x in Nodes(t) && x != MinNode(t) ==> MinNode(t).key < x.key
  {
    if t.l.Bin? { MinIsFirst(t.l); }
  }

  /** The node that stands in for the root is next to it in the order, so the order survives. */
  lemma StandInOrdered(t: Tree, c: Tree)
    requires t.Bin? && t.l.Bin? && t.r.Bin? && Ordered(t)
    requires c.Bin? && c.n == t.n && Ordered(c) && Nodes(c) == Nodes(t) - {Stand(t)}
    ensures Ordered(c.(n := Stand(t))) && Nodes(c.(n := Stand(t))) == Nodes(t) - {t.n}
  {
    var m := Stand(t);
    if t.bal < 0 { MaxIsLast(t.l); } else { MinIsFirst(t.r); }
    assert forall x :: x in Nodes(c.l) ==> x in Nodes(t) && x != m && x.key < t.n.key;
    assert forall x :: x in Nodes(c.r) ==> x in Nodes(t) && x != m && t.n.key < x.key;
    assert m !in Nodes(c) && t.n !in Nodes(c.l) + Nodes(c.r);
  }

  /** Removal keeps the search order and takes out exactly the given node. */
  lemma {:induction false} RemoveOrdered(t: Tree, n: Node)
    requires n in Nodes(t) && Balanced(t) && Ordered(t)
    ensures Ordered(Remove(t, n).t) && Nodes(Remove(t, n).t) == Nodes(t) - {n}
    decreases t, if n == t.n then 2 else 0
  {
    hide ShrunkLeft, ShrunkRight, RemoveRoot;
    if n.key < t.n.key {
      RemoveOrdered(t.l, n);
      var c := Remove(t.l, n);
      assert OrderedAt(c.t, t.n, t.r);
      if c.ch { ShrunkLeftOrdered(c.t, t.n, t.bal, t.r); }
      assert n !in Nodes(t.r);
    } else if n.key > t.n.key {
      RemoveOrdered(t.r, n);
      var c := Remove(t.r, n);
      assert OrderedAt(t.l, t.n, c.t);
      if c.ch { ShrunkRightOrdered(t.l, t.n, t.bal, c.t); }
      assert n !in Nodes(t.l);
    } else {
      RemoveRootOrdered(t);
    }
  }

  lemma {:induction false} RemoveRootOrdered(t: Tree)
    requires t.Bin? && Balanced(t) && Ordered(t)
    ensures Ordered(RemoveRoot(t).t) && Nodes(RemoveRoot(t).t) == Nodes(t) - {t.n}
    decreases t, 1
  {
    if t.l.Bin? && t.r.Bin? {
      RemoveOrdered(t, Stand(t));
      StandInOrdered(t, Remove(t, Stand(t)).t);
    }
  }
}
