/** How many elements the iterator's 32 stack slots are good for. A comment at m_oset.c:105 says 2**32; in fact
    9,227,463 are always fine, and 9,227,464 insertions can lead to a set that cannot be iterated over. */
module OSetDepth {
  import opened AvlTrees
  import opened AvlHeap
  import opened AvlOrder
  import opened OSet

  // ----- every AVL tree can be built by insertions

  /** A deepest node: always to the deeper side, and to the left if the sides are even. */
  function Deepest(t: Tree): (n: Node)
    requires t.Bin?
    ensures n in Nodes(t)
  {
    if t.bal <= 0 then (if t.l.Leaf? then t.n else Deepest(t.l))
    else if t.r.Leaf? then t.n
    else Deepest(t.r)
  }

  /** The tree without its deepest node, and whether that makes it less high. */
  function Pruned(t: Tree): (p: (Tree, bool))
    requires t.Bin?
  {
    if t.bal <= 0 then
      if t.l.Leaf? then (Leaf, true)
      else var p := Pruned(t.l);
        (Bin(p.0, t.n, if p.1 then t.bal + 1 else t.bal, t.r), p.1 && t.bal < 0)
    else if t.r.Leaf? then (Leaf, true)
    else var p := Pruned(t.r);
      (Bin(t.l, t.n, if p.1 then t.bal - 1 else t.bal, p.0), p.1)
  }

  /** Pruning a balanced tree keeps it balanced and ordered, and takes out the one node. */
  lemma {:induction false} PrunedBalanced(t: Tree)
    requires t.Bin? && Balanced(t)
    ensures Balanced(Pruned(t).0) && Height(Pruned(t).0) == Height(t) - if Pruned(t).1 then 1 else 0
    ensures Pruned(t).0.Leaf? ==> t == Single(t.n)
  {
    if t.bal <= 0 {
      if t.l.Bin? { PrunedBalanced(t.l); }
    } else if t.r.Bin? {
      PrunedBalanced(t.r);
    }
  }

  lemma {:induction false} PrunedOrdered(t: Tree)
    requires t.Bin? && Balanced(t) && Ordered(t)
    ensures Ordered(Pruned(t).0) && Nodes(Pruned(t).0) == Nodes(t) - {Deepest(t)}
  {
    hide Height;
    PrunedBalanced(t);
    if t.bal <= 0 {
      if t.l.Bin? { PrunedOrdered(t.l); }
    } else if t.r.Bin? {
      PrunedOrdered(t.r);
    }
  }

  /** Putting the deepest node back needs no rotation and gives the same tree. */
  lemma {:induction false} InsertDeepest(t: Tree)
    requires t.Bin? && Balanced(t) && Ordered(t) && Pruned(t).0.Bin?
    ensures Balanced(Pruned(t).0)
    ensures Insert(Pruned(t).0, Deepest(t)) == Changed(t, Pruned(t).1)
  {
    PrunedBalanced(t);
    if t.bal <= 0 {
      PrunedBalanced(t.l);
      assert Deepest(t) in Nodes(t.l);
      if Pruned(t.l).0.Bin? { InsertDeepest(t.l); }
    } else {
      PrunedBalanced(t.r);
      assert Deepest(t) in Nodes(t.r);
      if Pruned(t.r).0.Bin? { InsertDeepest(t.r); }
    }
  }

  lemma {:induction false} KeyOnce(t: Tree, a: Node, b: Node)
    requires Ordered(t) && a in Nodes(t) && b in Nodes(t) && a.key == b.key
    ensures a == b
  {
    if a in Nodes(t.l) && b in Nodes(t.l) {
      KeyOnce(t.l, a, b);
    } else if a in Nodes(t.r) && b in Nodes(t.r) {
      KeyOnce(t.r, a, b);
    }
  }

  lemma PrunedLacksKey(t: Tree)
    requires t.Bin? && Balanced(t) && Ordered(t)
    ensures !HasKey(Pruned(t).0, Deepest(t).key) && Size(Pruned(t).0) < Size(t)
  {
    PrunedOrdered(t);
    PrunedBalanced(t);
    SizeCounts(t);
    SizeCounts(Pruned(t).0);
    forall m | m in Nodes(Pruned(t).0)
      ensures m.key != Deepest(t).key
    {
      if m.key == Deepest(t).key { KeyOnce(t, m, Deepest(t)); }
    }
  }

  /** Build any AVL tree in an empty set, by insertions alone. */
  method Fill(s: OSet, t: Tree)
    requires s.Valid() && s.tree == Leaf && Balanced(t) && Ordered(t)
    modifies s`root, s`nElems, s`stackTop, s`tree, s`frames, Nodes(t)
    ensures s.Valid() && s.tree == t && s.nElems == Size(t)
    decreases Size(t)
  {
    hide Ordered, Balanced, Nodes, Size, Height, HasKey, Insert;
    NodesAllocated(t);
    if t.Bin? {
      PrunedOrdered(t);
      PrunedBalanced(t);
      PrunedLacksKey(t);
      Fill(s, Pruned(t).0);
      if Pruned(t).0.Bin? { InsertDeepest(t); }
      var ok := s.Insert(Deepest(t));
    }
  }

  // ----- the smallest tree of a height

  /** A tree of height `h` with as few nodes as there can be, deepest on the left, with keys from lo + 1 on. */
  method MinimalTree(h: nat, lo: int) returns (t: Tree)
    ensures Balanced(t) && Ordered(t) && Height(t) == h == LeftDepth(t) && Size(t) == MinSize(h)
    ensures Above(t, lo) && Below(t, lo + MinSize(h) + 1) && fresh(Nodes(t))
  {
    hide Ordered, Balanced, Nodes, Size, Height, LeftDepth, MinSize, Above, Below;
    LeafFacts(lo);
    if h == 0 {
      return Leaf;
    }
    var l := MinimalTree(h - 1, lo);
    var n := new Node(lo + MinSize(h - 1) + 1);
    var r := Leaf;
    if h >= 2 {
      r := MinimalTree(h - 2, lo + MinSize(h - 1) + 1);
    }
    t := Bin(l, n, if h >= 2 then -1 else 0, r);
    MinimalJoin(h, lo, l, n, r);
  }

  lemma LeafFacts(lo: int)
    ensures Balanced(Leaf) && Ordered(Leaf) && Height(Leaf) == LeftDepth(Leaf) == Size(Leaf) == MinSize(0) == 0
    ensures Nodes(Leaf) == {}
    ensures forall k :: Above(Leaf, k) && Below(Leaf, k)
  {
  }

  /** The smallest trees of the two heights before, joined, are the smallest tree of height `h`. */
  lemma MinimalJoin(h: nat, lo: int, l: Tree, n: Node, r: Tree)
    requires h >= 1 && n.key == lo + MinSize(h - 1) + 1
    requires Balanced(l) && Ordered(l) && Height(l) == LeftDepth(l) == h - 1 && Size(l) == MinSize(h - 1)
    requires Above(l, lo) && Below(l, n.key)
    requires h == 1 ==> r == Leaf
    requires h >= 2 ==> Balanced(r) && Ordered(r) && Height(r) == LeftDepth(r) == h - 2 && Size(r) == MinSize(h - 2)
    requires h >= 2 ==> Above(r, n.key) && Below(r, n.key + MinSize(h - 2) + 1)
    ensures var t := Bin(l, n, if h >= 2 then -1 else 0, r);
            && Balanced(t) && Ordered(t) && Height(t) == h == LeftDepth(t) && Size(t) == MinSize(h)
            && Above(t, lo) && Below(t, lo + MinSize(h) + 1) && Nodes(t) == Nodes(l) + {n} + Nodes(r)
  {
  }

  /** A set of 9,227,464 elements, built by insertions, that is too deep for the stack. */
  method DeepSet() returns (s: OSet)
    ensures fresh(s) && fresh(s.nodeStack) && fresh(s.numStack) && s.Valid() && s.nElems == LIMIT
    ensures LeftDepth(s.tree) > STACK_MAX && Height(s.tree) > STACK_MAX
  {
    hide Ordered, Balanced, Nodes, Size, Height, LeftDepth, MinSize, OSet.Valid;
    LimitIsMinSize();
    var t := MinimalTree(STACK_MAX + 1, 0);
    s := new OSet();
    NodesAllocated(t);
    Fill(s, t);
  }

  /** Two sets of 9,227,464 elements each, built by insertions: the one cannot be iterated over, the other cannot be
      destroyed. */
  method TooDeep() returns (a: OSet, b: OSet, iterated: bool, destroyed: bool)
    ensures a != b && a.nElems == LIMIT && b.nElems == LIMIT && !iterated && !destroyed
  {
    hide OSet.Valid, LeftDepth, Height, Nodes;
    a := DeepSet();
    var out, freed;
    iterated, out := a.Iterate();
    b := DeepSet();
    destroyed, freed := b.Destroy();
  }
}
