/** Reading an AVL tree in order, and how deep it can be for its size (m_oset.c). */
module AvlOrder {
  import opened AvlTrees

  /** The nodes from left to right. */
  ghost function InOrder(t: Tree): seq<Node> {
    match t
    case Leaf => []
    case Bin(l, n, _, r) => InOrder(l) + [n] + InOrder(r)
  }

  ghost function Size(t: Tree): nat {
    match t
    case Leaf => 0
    case Bin(l, _, _, r) => Size(l) + 1 + Size(r)
  }

  /** `s` has all of the nodes. */
  ghost predicate AllOf(s: seq<Node>, nodes: set<Node>) {
    (forall i :: 0 <= i < |s| ==> s[i] in nodes) && (forall n :: n in nodes ==> n in s)
  }

  lemma {:induction false} InOrderNodes(t: Tree)
    ensures |InOrder(t)| == Size(t)
    ensures AllOf(InOrder(t), Nodes(t))
  {
    match t
    case Leaf =>
    case Bin(l, n, _, r) =>
      InOrderNodes(l);
      InOrderNodes(r);
  }

  ghost predicate Ascending(s: seq<Node>) {
    forall i, j :: 0 <= i < j < |s| ==> s[i].key < s[j].key
  }

  lemma {:induction false} InOrderBelow(t: Tree, k: int)
    requires Below(t, k)
    ensures forall i :: 0 <= i < |InOrder(t)| ==> InOrder(t)[i].key < k
  {
    match t
    case Leaf =>
    case Bin(l, n, _, r) =>
      assert n in Nodes(t);
      InOrderBelow(l, k);
      InOrderBelow(r, k);
  }

  lemma {:induction false} InOrderAbove(t: Tree, k: int)
    requires Above(t, k)
    ensures forall i :: 0 <= i < |InOrder(t)| ==> k < InOrder(t)[i].key
  {
    match t
    case Leaf =>
    case Bin(l, n, _, r) =>
      assert n in Nodes(t);
      InOrderAbove(l, k);
      InOrderAbove(r, k);
  }

  /** The keys on the two sides of a node lie on the two sides of its key. */
  lemma Sides(l: Tree, n: Node, r: Tree)
    requires OrderedAt(l, n, r)
    ensures forall i :: 0 <= i < |InOrder(l)| ==> InOrder(l)[i].key < n.key
    ensures forall i :: 0 <= i < |InOrder(r)| ==> n.key < InOrder(r)[i].key
  {
    InOrderBelow(l, n.key);
    InOrderAbove(r, n.key);
  }

  lemma JoinAscending(a: seq<Node>, n: Node, b: seq<Node>)
    requires Ascending(a) && Ascending(b)
    requires forall i :: 0 <= i < |a| ==> a[i].key < n.key
    requires forall i :: 0 <= i < |b| ==> n.key < b[i].key
    ensures Ascending(a + [n] + b)
  {
  }

  /** Search order means that the nodes, from left to right, are strictly ascending. */
  lemma {:induction false} OrderedAscending(t: Tree)
    requires Ordered(t)
    ensures Ascending(InOrder(t))
  {
    match t
    case Leaf =>
    case Bin(l, n, _, r) =>
      hide Ascending, Below, Above;
      OrderedAscending(l);
      OrderedAscending(r);
      Sides(l, n, r);
      JoinAscending(InOrder(l), n, InOrder(r));
  }

  lemma {:induction false} SizeCounts(t: Tree)
    requires Ordered(t)
    ensures |Nodes(t)| == Size(t)
  {
    match t
    case Leaf =>
    case Bin(l, n, _, r) =>
      SizeCounts(l);
      SizeCounts(r);
      assert n !in Nodes(l) && n !in Nodes(r) && Nodes(l) !! Nodes(r);
  }

  // ----- starting from a key

  /** The nodes at or after key `k`, found along one path from the root. */
  ghost function From(t: Tree, k: int): seq<Node> {
    match t
    case Leaf => []
    case Bin(l, n, _, r) => if n.key < k then From(r, k) else From(l, k) + [n] + InOrder(r)
  }

  /** `i` splits `s` into keys below `k` and keys not below `k`. */
  ghost predicate SplitsAt(s: seq<Node>, k: int, i: nat) {
    && i <= |s|
    && (forall j :: 0 <= j < i ==> s[j].key < k)
    && (forall j :: i <= j < |s| ==> k <= s[j].key)
  }

  lemma SplitRight(a: seq<Node>, n: Node, b: seq<Node>, k: int, i: nat)
    requires SplitsAt(b, k, i) && n.key < k && forall j :: 0 <= j < |a| ==> a[j].key < n.key
    ensures SplitsAt(a + [n] + b, k, |a| + 1 + i) && (a + [n] + b)[|a| + 1 + i..] == b[i..]
  {
  }

  lemma SplitLeft(a: seq<Node>, n: Node, b: seq<Node>, k: int, i: nat)
    requires SplitsAt(a, k, i) && k <= n.key && forall j :: 0 <= j < |b| ==> n.key < b[j].key
    ensures SplitsAt(a + [n] + b, k, i) && (a + [n] + b)[i..] == a[i..] + [n] + b
  {
  }

  /** They are the end part of the order that starts at the first node not less than `k`. */
  lemma {:induction false} FromIsSuffix(t: Tree, k: int) returns (i: nat)
    requires Ordered(t)
    ensures SplitsAt(InOrder(t), k, i) && From(t, k) == InOrder(t)[i..]
  {
    hide Below, Above, SplitsAt;
    match t
    case Leaf =>
      i := 0;
      NothingToSplit(k);
    case Bin(l, n, _, r) =>
      Sides(l, n, r);
      if n.key < k {
        var i' := FromIsSuffix(r, k);
        SplitRight(InOrder(l), n, InOrder(r), k, i');
        i := |InOrder(l)| + 1 + i';
      } else {
        i := FromIsSuffix(l, k);
        SplitLeft(InOrder(l), n, InOrder(r), k, i);
      }
  }

  /** `s` has those of the nodes whose keys are not less than `k`. */
  ghost predicate NotLess(s: seq<Node>, nodes: set<Node>, k: int) {
    (forall i :: 0 <= i < |s| ==> s[i] in nodes && k <= s[i].key) && (forall n :: n in nodes && k <= n.key ==> n in s)
  }

  /** They are the nodes whose keys are not less than `k`. */
  lemma FromHas(t: Tree, k: int)
    requires Ordered(t)
    ensures NotLess(From(t, k), Nodes(t), k)
  {
    hide Ordered, From;
    var i := FromIsSuffix(t, k);
    InOrderNodes(t);
    var s := InOrder(t);
    forall n | n in Nodes(t) && k <= n.key
      ensures n in s[i..]
    {
      assert n in InOrder(t);
      var j :| 0 <= j < |s| && s[j] == n;
      assert s[i..][j - i] == n;
    }
    forall j | 0 <= j < |s[i..]|
      ensures s[i..][j] in Nodes(t) && k <= s[i..][j].key
    {
      assert s[i..][j] == s[i + j] && s[i + j] in s;
    }
  }

  lemma NothingToSplit(k: int)
    ensures SplitsAt([], k, 0)
  {
  }

  // ----- depth

  /** The most nodes an in-order walk ever has waiting: only steps to the left add one. */
  ghost function LeftDepth(t: Tree): nat {
    match t
    case Leaf => 0
    case Bin(l, _, _, r) => if 1 + LeftDepth(l) < LeftDepth(r) then LeftDepth(r) else 1 + LeftDepth(l)
  }

  lemma {:induction false} LeftDepthHeight(t: Tree)
    ensures LeftDepth(t) <= Height(t)
  {
    match t
    case Leaf =>
    case Bin(l, _, _, r) =>
      LeftDepthHeight(l);
      LeftDepthHeight(r);
  }

  /** The length of the leftmost path. */
  ghost function LeftSpine(t: Tree): nat {
    match t
    case Leaf => 0
    case Bin(l, _, _, _) => 1 + LeftSpine(l)
  }

  /** The smallest number of nodes of an AVL tree of height `h`. */
  function MinSize(h: nat): nat {
    if h < 2 then h else MinSize(h - 1) + MinSize(h - 2) + 1
  }

  lemma {:induction false} MinSizeMonotone(h: nat)
    ensures MinSize(h) <= MinSize(h + 1)
  {
    if h >= 1 { MinSizeMonotone(h - 1); }
  }

  lemma MinSizeStep(a: nat, b: nat)
    requires -1 <= b - a <= 1
    ensures MinSize(1 + if a < b then b else a) <= MinSize(a) + 1 + MinSize(b)
  {
    if a == b && a >= 1 { MinSizeMonotone(a - 1); }
  }

  /** The Fibonacci bound: an AVL tree of height `h` has at least MinSize(h) nodes. */
  lemma {:induction false} SizeAtLeast(t: Tree)
    requires Balanced(t)
    ensures MinSize(Height(t)) <= Size(t)
  {
    match t
    case Leaf =>
    case Bin(l, _, _, r) =>
      SizeAtLeast(l);
      SizeAtLeast(r);
      MinSizeStep(Height(l), Height(r));
  }

  lemma {:induction false} MinSizeGrows(h: nat, k: nat)
    requires h <= k
    ensures MinSize(h) <= MinSize(k)
    decreases k
  {
    if h < k {
      MinSizeGrows(h, k - 1);
      MinSizeMonotone(k - 1);
    }
  }

  const STACK_MAX: nat := 32

  /** The number of elements from which the iterator's stack can be too small. */
  const LIMIT: nat := 9_227_464

  lemma LimitIsMinSize()
    ensures MinSize(STACK_MAX + 1) == LIMIT
  {
    assert MinSize(5) == 12 && MinSize(6) == 20;
    assert MinSize(7) == 33 && MinSize(8) == 54;
    assert MinSize(9) == 88 && MinSize(10) == 143;
    assert MinSize(11) == 232 && MinSize(12) == 376;
    assert MinSize(13) == 609 && MinSize(14) == 986;
    assert MinSize(15) == 1596 && MinSize(16) == 2583;
    assert MinSize(17) == 4180 && MinSize(18) == 6764;
    assert MinSize(19) == 10945 && MinSize(20) == 17710;
    assert MinSize(21) == 28656 && MinSize(22) == 46367;
    assert MinSize(23) == 75024 && MinSize(24) == 121392;
    assert MinSize(25) == 196417 && MinSize(26) == 317810;
    assert MinSize(27) == 514228 && MinSize(28) == 832039;
    assert MinSize(29) == 1346268 && MinSize(30) == 2178308;
    assert MinSize(31) == 3524577 && MinSize(32) == 5702886;
  }

  /** Below the limit, no AVL tree is higher than the stack is deep. */
  lemma HeightFits(t: Tree)
    requires Balanced(t) && Size(t) < LIMIT
    ensures Height(t) <= STACK_MAX && LeftDepth(t) <= STACK_MAX
  {
    SizeAtLeast(t);
    LimitIsMinSize();
    LeftDepthHeight(t);
    if Height(t) > STACK_MAX {
      MinSizeGrows(STACK_MAX + 1, Height(t));
    }
  }
}
