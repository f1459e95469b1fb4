/** The steps by which the allocator reshapes its blocks, each shown to keep the arena invariant (m_mallocfree.c). */
module ArenaSteps {
  import opened SizeClasses
  import opened ArenaState

  /** Lists are untouched by a change of blocks that keeps every listed block. */
  lemma ListsKept(g: Geometry, mem: Memory, bs: Blocks, bs': Blocks, lists: seq<seq<nat>>)
    requires ListsOk(g, mem, bs, lists) && AllListed(g, bs, lists)
    requires forall b :: b in bs && bs[b].st.Listed? ==> b in bs' && bs'[b] == bs[b]
    requires forall b :: b in bs' && bs'[b].st.Listed? ==> b in bs && bs[b] == bs'[b]
    ensures ListsOk(g, mem, bs', lists) && AllListed(g, bs', lists)
  {
    forall o | 0 <= o < N_MALLOC_LISTS
      ensures ListOk(g, mem, bs', o, lists[o])
    {
      assert ListOk(g, mem, bs, o, lists[o]);
      forall i | 0 <= i < |lists[o]|
        ensures lists[o][i] in bs' && bs'[lists[o][i]] == bs[lists[o][i]]
        ensures SameWords(g, mem, mem, bs, lists[o][i])
      {
      }
      ListFrame(g, mem, mem, bs, bs', o, lists[o]);
    }
  }

  /** A block handed back stops being used; its words no longer matter. */
  lemma RetireCore(g: Geometry, mem: Memory, sbs: Superblocks, bs: Blocks, lists: seq<seq<nat>>, b: nat)
    requires Core(g, mem, sbs, bs, lists) && b in bs && bs[b].st.Used?
    ensures Core(g, mem, sbs, bs[b := bs[b].(st := Loose)], lists)
  {
    TiledStatus(g, sbs, bs, b, Loose);
    TagsStatus(g, mem, sbs, bs, b, Loose);
    ListsKept(g, mem, bs, bs[b := bs[b].(st := Loose)], lists);
  }

  /** mkInuseBlock, once both tags hold the plain size. */
  lemma UseCore(g: Geometry, mem: Memory, sbs: Superblocks, bs: Blocks, lists: seq<seq<nat>>, b: nat)
    requires Core(g, mem, sbs, bs, lists) && b in bs && bs[b].st.Loose?
    requires Read(mem, b) == bs[b].size && Read(mem, HighCell(g, bs, b)) == bs[b].size
    ensures Core(g, mem, sbs, bs[b := bs[b].(st := Used)], lists)
  {
    TiledStatus(g, sbs, bs, b, Used);
    TagsStatus(g, mem, sbs, bs, b, Used);
    ListsKept(g, mem, bs, bs[b := bs[b].(st := Used)], lists);
  }

  lemma RotateCore(g: Geometry, mem: Memory, sbs: Superblocks, bs: Blocks, lists: seq<seq<nat>>, lno: nat, k: nat)
    requires Core(g, mem, sbs, bs, lists) && lno < N_MALLOC_LISTS && k <= |lists[lno]|
    ensures Core(g, mem, sbs, bs, lists[lno := Rotate(lists[lno], k)])
  {
    assert ListOk(g, mem, bs, lno, lists[lno]);
    RotateOk(g, mem, bs, lno, lists[lno], k);
    RotateSame(lists[lno], k);
    forall o | 0 <= o < N_MALLOC_LISTS
      ensures ListOk(g, mem, bs, o, if o == lno then Rotate(lists[lno], k) else lists[o])
    {
      assert ListOk(g, mem, bs, o, lists[o]);
    }
  }

  function Cut(bs: Blocks, b: nat, n: nat): Blocks
    requires b in bs && n <= bs[b].size
  {
    bs[b := bs[b].(size := n)][b + n := Block(bs[b].sb, bs[b].size - n, Loose)]
  }

  ghost predicate CanCut(g: Geometry, sbs: Superblocks, bs: Blocks, b: nat, n: nat) {
    && g.Valid() && Tiled(g, sbs, bs) && b in bs
    && n % MIN_SZB == 0 && g.Overhead() <= n && n + g.Overhead() <= bs[b].size
  }

  lemma CutFits(g: Geometry, sbs: Superblocks, bs: Blocks, b: nat, n: nat, c: nat)
    requires CanCut(g, sbs, bs, b, n) && c in Cut(bs, b, n)
    ensures b + n !in bs
    ensures BlockFits(g, sbs, Cut(bs, b, n), c)
  {
    hide SuperblocksApart, SuperblockFits;
    assert BlockFits(g, sbs, bs, b);
    Eights(b, n);
    Eights(bs[b].size, n);
    assert b + n !in bs;
    var bs' := Cut(bs, b, n);
    if c == b {
    } else if c == b + n {
      assert c + bs'[c].size == b + bs[b].size;
    } else {
      assert BlockFits(g, sbs, bs, c);
      assert bs'[c] == bs[c];
    }
  }

  lemma CutApart(g: Geometry, sbs: Superblocks, bs: Blocks, b: nat, n: nat)
    requires CanCut(g, sbs, bs, b, n)
    ensures BlocksApart(Cut(bs, b, n))
  {
    assert b + n !in bs;
  }

  lemma CutTiled(g: Geometry, sbs: Superblocks, bs: Blocks, b: nat, n: nat)
    requires CanCut(g, sbs, bs, b, n)
    ensures b + n !in bs
    ensures Tiled(g, sbs, Cut(bs, b, n))
  {
    var bs' := Cut(bs, b, n);
    CutFits(g, sbs, bs, b, n, b);
    CutApart(g, sbs, bs, b, n);
    forall c | c in bs'
      ensures BlockFits(g, sbs, bs', c)
    {
      CutFits(g, sbs, bs, b, n, c);
    }
    forall s | s in sbs
      ensures SuperblockFits(g, sbs, bs', s)
    {
      assert SuperblockFits(g, sbs, bs, s);
    }
  }

  /** A loose block may be cut in two. */
  lemma CutCore(g: Geometry, mem: Memory, sbs: Superblocks, bs: Blocks, lists: seq<seq<nat>>, b: nat, n: nat)
    requires Core(g, mem, sbs, bs, lists) && b in bs && bs[b].st.Loose?
    requires n % MIN_SZB == 0 && g.Overhead() <= n && n + g.Overhead() <= bs[b].size
    ensures b + n !in bs
    ensures Core(g, mem, sbs, Cut(bs, b, n), lists)
  {
    var bs' := Cut(bs, b, n);
    CutTiled(g, sbs, bs, b, n);
    forall c | c in bs'
      ensures TagOk(g, mem, bs', c)
    {
      if c != b && c != b + n {
        assert TagOk(g, mem, bs, c);
      }
    }
    ListsKept(g, mem, bs, bs', lists);
  }

  function Join(bs: Blocks, b: nat, c: nat): Blocks
    requires b in bs && c in bs
  {
    (bs - {c})[b := bs[b].(size := bs[b].size + bs[c].size)]
  }

  /** Blocks that touch belong to the same superblock: a header always lies in between superblocks. */
  lemma SameSuperblock(g: Geometry, sbs: Superblocks, bs: Blocks, b: nat)
    requires g.Valid() && Tiled(g, sbs, bs) && b in bs && b + bs[b].size in bs
    ensures bs[b + bs[b].size].sb == bs[b].sb
  {
    var c := b + bs[b].size;
    assert BlockFits(g, sbs, bs, b) && BlockFits(g, sbs, bs, c);
    assert c < End(g, sbs, bs[b].sb) || bs[c].sb == bs[b].sb;
  }

  ghost predicate CanJoin(g: Geometry, sbs: Superblocks, bs: Blocks, b: nat, c: nat) {
    g.Valid() && Tiled(g, sbs, bs) && b in bs && c in bs && c == b + bs[b].size
  }

  lemma JoinFits(g: Geometry, sbs: Superblocks, bs: Blocks, b: nat, c: nat, d: nat)
    requires CanJoin(g, sbs, bs, b, c) && d in Join(bs, b, c)
    ensures BlockFits(g, sbs, Join(bs, b, c), d)
  {
    hide SuperblocksApart, SuperblockFits;
    assert BlockFits(g, sbs, bs, b) && BlockFits(g, sbs, bs, c) && BlockFits(g, sbs, bs, d);
    Eights(bs[b].size, bs[c].size);
    SameSuperblock(g, sbs, bs, b);
    if d != b {
      CellsApart(g, sbs, bs, b, d);
      assert d + bs[d].size != c;
    }
  }

  lemma JoinApart(g: Geometry, sbs: Superblocks, bs: Blocks, b: nat, c: nat)
    requires CanJoin(g, sbs, bs, b, c)
    ensures BlocksApart(Join(bs, b, c))
  {
    assert BlockFits(g, sbs, bs, b) && BlockFits(g, sbs, bs, c);
  }

  lemma JoinTiled(g: Geometry, sbs: Superblocks, bs: Blocks, b: nat, c: nat)
    requires CanJoin(g, sbs, bs, b, c)
    ensures Tiled(g, sbs, Join(bs, b, c))
  {
    var bs' := Join(bs, b, c);
    JoinApart(g, sbs, bs, b, c);
    forall d | d in bs'
      ensures BlockFits(g, sbs, bs', d)
    {
      JoinFits(g, sbs, bs, b, c, d);
    }
    assert BlockFits(g, sbs, bs, b);
    forall s | s in sbs
      ensures SuperblockFits(g, sbs, bs', s)
    {
      assert SuperblockFits(g, sbs, bs, s);
      StartNotAfter(g, sbs, bs, b, s);
    }
  }

  /** The first block of a superblock follows no block. */
  lemma StartNotAfter(g: Geometry, sbs: Superblocks, bs: Blocks, b: nat, s: nat)
    requires g.Valid() && Tiled(g, sbs, bs) && b in bs && s in sbs
    ensures b + bs[b].size != Start(g, s)
  {
    HeaderApart(g, sbs, bs, b, s);
    assert BlockFits(g, sbs, bs, b);
    assert SuperblockFits(g, sbs, bs, s);
    assert BlockFits(g, sbs, bs, Start(g, s));
    if b + bs[b].size == Start(g, s) {
      SameSuperblock(g, sbs, bs, b);
    }
  }

  /** Two loose neighbours may be joined. */
  lemma JoinCore(g: Geometry, mem: Memory, sbs: Superblocks, bs: Blocks, lists: seq<seq<nat>>, b: nat, c: nat)
    requires Core(g, mem, sbs, bs, lists)
    requires b in bs && c in bs && c == b + bs[b].size && bs[b].st.Loose? && bs[c].st.Loose?
    ensures Core(g, mem, sbs, Join(bs, b, c), lists)
  {
    var bs' := Join(bs, b, c);
    JoinTiled(g, sbs, bs, b, c);
    forall d | d in bs'
      ensures TagOk(g, mem, bs', d)
    {
      assert TagOk(g, mem, bs, d);
    }
    ListsKept(g, mem, bs, bs', lists);
  }

  /** The region [s, s + len) lies clear of every superblock and inside the address space. */
  ghost predicate FreshRegion(g: Geometry, sbs: Superblocks, s: nat, len: nat) {
    && 0 < s && s % MIN_SZB == 0 && s + len < g.space
    && forall t :: t in sbs ==> End(g, sbs, t) <= s || s + len <= t
  }

  /** `mem` extended by the words of a superblock at `s` with `n` payload bytes, whose contents are `init`. */
  ghost predicate Extends(g: Geometry, mem: Memory, mem': Memory, s: nat, n: nat) {
    && (forall a :: s <= a < s + g.Header() + n ==> a in mem')
    && (forall a :: a in mem ==> a in mem')
    && (forall a :: !(s <= a < s + g.Header() + n) ==> Read(mem', a) == Read(mem, a))
    && Read(mem', s) == n
  }

  ghost predicate CanGrow(g: Geometry, sbs: Superblocks, bs: Blocks, s: nat, n: nat) {
    && g.Valid() && Tiled(g, sbs, bs)
    && FreshRegion(g, sbs, s, g.Header() + n) && n % MIN_SZB == 0 && g.Overhead() <= n
  }

  lemma GrowClear(g: Geometry, sbs: Superblocks, bs: Blocks, s: nat, n: nat, c: nat)
    requires CanGrow(g, sbs, bs, s, n) && c in bs
    ensures s !in sbs && c != Start(g, s)
    ensures c + bs[c].size <= s || Start(g, s) + n < c
    ensures BlockFits(g, sbs[s := n], bs[Start(g, s) := Block(s, n, Loose)], c)
  {
    assert BlockFits(g, sbs, bs, c);
    assert SuperblockFits(g, sbs, bs, bs[c].sb);
  }

  lemma GrowApart(g: Geometry, sbs: Superblocks, bs: Blocks, s: nat, n: nat)
    requires CanGrow(g, sbs, bs, s, n)
    ensures SuperblocksApart(g, sbs[s := n]) && BlocksApart(bs[Start(g, s) := Block(s, n, Loose)])
  {
    forall c | c in bs
      ensures c != Start(g, s) && (c + bs[c].size <= s || Start(g, s) + n <= c)
    {
      GrowClear(g, sbs, bs, s, n, c);
    }
    forall t | t in sbs
      ensures t != s && (End(g, sbs, t) <= s || Start(g, s) + n <= t)
    {
      assert End(g, sbs, t) <= s || s + (g.Header() + n) <= t;
    }
  }

  lemma GrowTiled(g: Geometry, sbs: Superblocks, bs: Blocks, s: nat, n: nat)
    requires CanGrow(g, sbs, bs, s, n)
    ensures s !in sbs && Start(g, s) !in bs
    ensures Tiled(g, sbs[s := n], bs[Start(g, s) := Block(s, n, Loose)])
  {
    var sbs', b := sbs[s := n], Start(g, s);
    var bs' := bs[b := Block(s, n, Loose)];
    assert s !in sbs;
    forall c | c in bs
      ensures c != b
      ensures BlockFits(g, sbs', bs', c)
    {
      GrowClear(g, sbs, bs, s, n, c);
    }
    assert BlockFits(g, sbs', bs', b);
    forall t | t in sbs
      ensures SuperblockFits(g, sbs', bs', t)
    {
      assert SuperblockFits(g, sbs, bs, t);
    }
    assert SuperblockFits(g, sbs', bs', s);
    GrowApart(g, sbs, bs, s, n);
  }

  lemma GrowWords(g: Geometry, mem: Memory, mem': Memory, sbs: Superblocks, bs: Blocks, s: nat, n: nat, c: nat)
    requires g.Valid() && Tiled(g, sbs, bs) && Extends(g, mem, mem', s, n)
    requires FreshRegion(g, sbs, s, g.Header() + n) && c in bs
    ensures SameWords(g, mem, mem', bs, c)
  {
    assert BlockFits(g, sbs, bs, c);
  }

  lemma GrowTags(g: Geometry, mem: Memory, mem': Memory, sbs: Superblocks, bs: Blocks, s: nat, n: nat)
    requires g.Valid() && Tiled(g, sbs, bs) && Extends(g, mem, mem', s, n) && TagsOk(g, mem, sbs, bs)
    requires FreshRegion(g, sbs, s, g.Header() + n)
    ensures TagsOk(g, mem', sbs[s := n], bs[Start(g, s) := Block(s, n, Loose)])
  {
    var bs' := bs[Start(g, s) := Block(s, n, Loose)];
    forall c | c in bs'
      ensures TagOk(g, mem', bs', c)
    {
      if c != Start(g, s) {
        assert TagOk(g, mem, bs, c);
        GrowWords(g, mem, mem', sbs, bs, s, n, c);
      }
    }
    forall t | t in sbs && t != s
      ensures Read(mem', t) == sbs[t]
    {
      assert End(g, sbs, t) <= s || s + g.Header() + n <= t;
      assert Read(mem', t) == Read(mem, t);
    }
  }

  /** newSuperblock: a fresh region becomes a superblock made of one loose block. */
  lemma GrowCore(g: Geometry, mem: Memory, mem': Memory, sbs: Superblocks, bs: Blocks, lists: seq<seq<nat>>, s: nat,
                 n: nat)
    requires Core(g, mem, sbs, bs, lists) && Extends(g, mem, mem', s, n)
    requires FreshRegion(g, sbs, s, g.Header() + n) && n % MIN_SZB == 0 && g.Overhead() <= n
    ensures s !in sbs && Start(g, s) !in bs
    ensures Core(g, mem', sbs[s := n], bs[Start(g, s) := Block(s, n, Loose)], lists)
  {
    var bs' := bs[Start(g, s) := Block(s, n, Loose)];
    GrowTiled(g, sbs, bs, s, n);
    GrowTags(g, mem, mem', sbs, bs, s, n);
    forall o | 0 <= o < N_MALLOC_LISTS
      ensures ListOk(g, mem', bs', o, lists[o])
    {
      assert ListOk(g, mem, bs, o, lists[o]);
      forall i | 0 <= i < |lists[o]|
        ensures SameWords(g, mem, mem', bs, lists[o][i])
      {
        GrowWords(g, mem, mem', sbs, bs, s, n, lists[o][i]);
      }
      ListFrame(g, mem, mem', bs, bs', o, lists[o]);
    }
  }
}
