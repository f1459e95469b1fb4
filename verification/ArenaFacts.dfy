/** The arena allocator: sizes and outcomes, and the facts its operations rest on (m_mallocfree.c). */
module ArenaFacts {
  import opened SizeClasses
  import opened ArenaState
  import opened ArenaSteps
  import opened ArenaWords
  import opened ArenaShapes
  import opened ArenaCounts
  import opened PowersOfTwo
  import opened Options

  const PAGE_SIZE: nat := 4096
  const SBLOCKS_SIZE_INITIAL: nat := 50

  /** Got(p): payload address. OutOfMemory: a null result, for the client arena only. Panic: a failed assertion or an
      exit. Wild(p): payload address, but the operation has written outside the block it obtained. */
  datatype Outcome = Got(p: nat) | OutOfMemory | Panic | Wild(p: nat)

  /** What the address space manager hands over: a region, with whatever it contains. */
  datatype Grant = Grant(addr: nat, contents: Memory)

  /** The answer of the part of arena_malloc that gets a new superblock: its one free block, a refusal, or an exit. */
  datatype Growth = Grown(b: nat, lno: nat) | Refused | Died

  /** align_req_pszB: round up to a multiple of 8, in SizeT arithmetic. */
  function AlignReq(g: Geometry, req: nat): nat
    requires g.Valid()
  {
    var x := (req + MIN_SZB - 1) % g.space;
    x - x % MIN_SZB
  }

  /** pszB_to_bszB in SizeT arithmetic. */
  function ToBsz(g: Geometry, pszB: nat): nat
    requires g.Valid()
  {
    (pszB + g.Overhead()) % g.space
  }

  /** The byte count newSuperblock asks the address space manager for. */
  function SuperblockBytes(g: Geometry, minSblock: nat, bszB: nat): nat
    requires g.Valid()
  {
    var c := (bszB + g.Header()) % g.space;
    var c := if c < minSblock then minSblock else c;
    var x := (c + PAGE_SIZE - 1) % g.space;
    x - x % PAGE_SIZE
  }

  /** The byte count of the superblock that a request would need. */
  function BytesFor(g: Geometry, minSblock: nat, req: nat): nat
    requires g.Valid()
  {
    SuperblockBytes(g, minSblock, ToBsz(g, AlignReq(g, req)))
  }

  /** A payload that some superblock could hold: their byte counts are multiples of the page size that fit in the
      address space. */
  predicate Deliverable(g: Geometry, pszB: nat) { pszB + g.Overhead() + g.Header() + PAGE_SIZE <= g.space }

  /** Superblocks are made of whole pages. */
  ghost predicate Paged(g: Geometry, sbs: Superblocks) {
    forall s :: s in sbs ==> (sbs[s] + g.Header()) % PAGE_SIZE == 0
  }

  /** A successful answer to a request for `len` bytes is a fresh, aligned region; a request for nothing fails. */
  ghost predicate GrantOk(g: Geometry, sbs: Superblocks, grant: Option<Grant>, len: nat) {
    grant.Some? ==>
      && 0 < len
      && FreshRegion(g, sbs, grant.value.addr, len)
      && (forall a :: a in grant.value.contents <==> grant.value.addr <= a < grant.value.addr + len)
  }

  /** Memory with a granted region added, whose first word records its payload size. */
  function GrantedMemory(mem: Memory, grant: Grant, n: nat): Memory {
    (mem + grant.contents)[grant.addr := n]
  }

  ghost predicate Heads(freelist: seq<nat>, lists: seq<seq<nat>>) {
    && |freelist| == |lists| == N_MALLOC_LISTS
    && forall l :: 0 <= l < N_MALLOC_LISTS ==> freelist[l] == (if lists[l] == [] then 0 else lists[l][0])
  }

  ghost predicate Ascending(t: seq<nat>) {
    forall i, j :: 0 <= i < j < |t| ==> t[i] < t[j]
  }

  /** A table of `len` words that the code's 32-bit index gets to the end of. */
  predicate TableFits(g: Geometry, len: nat) { 4 * len < g.space && len < WORD32 }

  /** One of twice the size fits, too. */
  predicate TableRoom(g: Geometry, len: nat) { 8 * len < g.space && 2 * len < WORD32 }

  /** The superblock table lists exactly the superblocks, in address order. */
  ghost predicate TableOk(t: seq<nat>, sbs: Superblocks) {
    Ascending(t) && (forall i :: 0 <= i < |t| ==> t[i] in sbs) && (forall s :: s in sbs ==> s in t)
  }

  /** The words of the blocks handed out are the same in both memories. */
  ghost predicate LiveWordsKept(mem: Memory, mem': Memory, bs: Blocks) {
    forall b, a :: b in bs && bs[b].st.Used? && b <= a < b + bs[b].size ==> Read(mem', a) == Read(mem, a)
  }

  /** A write inside a block that is not handed out keeps the words of those that are. */
  lemma WriteKeepsLive(g: Geometry, mem: Memory, sbs: Superblocks, bs: Blocks, b: nat, a: nat, v: nat)
    requires g.Valid() && Tiled(g, sbs, bs) && b in bs && !bs[b].st.Used? && b <= a < b + bs[b].size
    ensures LiveWordsKept(mem, mem[a := v], bs)
  {
    forall c, x | c in bs && bs[c].st.Used? && c <= x < c + bs[c].size
      ensures Read(mem[a := v], x) == Read(mem, x)
    {
      CellsApart(g, sbs, bs, b, c);
    }
  }

  /** Keeping composes, as long as no block stops being live in between. */
  lemma KeptTwice(m0: Memory, m1: Memory, m2: Memory, bs: Blocks, bs1: Blocks)
    requires LiveWordsKept(m0, m1, bs) && LiveWordsKept(m1, m2, bs1)
    requires forall b :: b in bs && bs[b].st.Used? ==> b in bs1 && bs1[b] == bs[b]
    ensures LiveWordsKept(m0, m2, bs)
  {
    forall b, a | b in bs && bs[b].st.Used? && b <= a < b + bs[b].size
      ensures Read(m2, a) == Read(m0, a)
    {
      assert b in bs1;
    }
  }

  /** Shift the entries above `x` up by one and put `x` in front of them. */
  method ShiftInto(a: array<nat>, n: nat, x: nat) returns (i: nat)
    requires n < a.Length
    modifies a
    ensures i <= n && (i > 0 ==> old(a[..n])[i - 1] <= x) && (i < n ==> x < old(a[..n])[i])
    ensures a[..n + 1] == Insert(old(a[..n]), i, x)
  {
    ghost var t := a[..n];
    i := n;
    while i > 0 && a[i - 1] > x
      invariant i <= n
      invariant forall k {:trigger a[k]} :: 0 <= k < i ==> a[k] == t[k]
      invariant forall k {:trigger a[k]} :: i < k <= n ==> a[k] == t[k - 1]
      invariant i < n ==> x < t[i]
    {
      a[i] := a[i - 1];
      i := i - 1;
    }
    a[i] := x;
    IsInsert(t, i, x, a[..n + 1]);
  }

  /** Every word of a block is mapped memory. */
  lemma Readable(g: Geometry, mem: Memory, sbs: Superblocks, bs: Blocks, b: nat)
    requires g.Valid() && Tiled(g, sbs, bs) && Mapped(g, mem, sbs) && b in bs
    ensures bs[b].size >= 4 * g.W && bs[b].size % MIN_SZB == 0 && b % MIN_SZB == 0 && 0 < b
    ensures forall a :: b <= a < b + bs[b].size ==> a in mem
  {
    assert BlockFits(g, sbs, bs, b);
    assert SuperblockFits(g, sbs, bs, bs[b].sb);
  }

  /** Blocks lie inside the address space. */
  lemma InSpace(g: Geometry, sbs: Superblocks, bs: Blocks, b: nat)
    requires g.Valid() && Tiled(g, sbs, bs) && b in bs
    ensures b + bs[b].size < g.space && bs[b].size >= 4 * g.W && bs[b].size % MIN_SZB == 0
    ensures forall a :: b <= a < b + bs[b].size ==> Cell(g, a) == a
  {
    hide Cell;
    assert BlockFits(g, sbs, bs, b);
    assert SuperblockFits(g, sbs, bs, bs[b].sb);
    forall a | b <= a < b + bs[b].size
      ensures Cell(g, a) == a
    {
      CellPlain(g, a);
    }
  }

  lemma CoreSpace(g: Geometry, mem: Memory, sbs: Superblocks, bs: Blocks, lists: seq<seq<nat>>, b: nat)
    requires Core(g, mem, sbs, bs, lists) && b in bs
    ensures b + bs[b].size < g.space && bs[b].size >= g.Overhead() && Plain(bs[b].size) == bs[b].size
    ensures forall a :: b <= a < b + bs[b].size ==> Cell(g, a) == a
  {
    hide Cell, ListsOk, AllListed, Mapped, TagsOk;
    InSpace(g, sbs, bs, b);
    assert BlockFits(g, sbs, bs, b);
    EvenSize(bs[b].size);
  }

  /** The addresses at which a block joins a ring. */
  lemma RingCells(g: Geometry, mem: Memory, sbs: Superblocks, bs: Blocks, lists: seq<seq<nat>>, b: nat, p: nat, q: nat)
    requires Core(g, mem, sbs, bs, lists)
    requires b in bs && p in bs && q in bs && !bs[p].st.Loose? && Read(mem, PrevCell(g, q)) == p
    ensures RingWords(g, mem, b, bs[b].size, q) ==
            mem[p + bs[p].size - 2 * g.W := b][q + g.W := b][b + bs[b].size - 2 * g.W := q][b + g.W := p]
  {
    hide Cell, ListsOk, AllListed, Mapped;
    InSpace(g, sbs, bs, b);
    InSpace(g, sbs, bs, p);
    InSpace(g, sbs, bs, q);
    PlainTag(bs[p]);
    assert TagOk(g, mem, bs, p);
  }

  /** The addresses at which two listed blocks are joined. */
  lemma JoiningCells(g: Geometry, mem: Memory, sbs: Superblocks, bs: Blocks, lists: seq<seq<nat>>, p: nat, q: nat)
    requires Core(g, mem, sbs, bs, lists) && p in bs && q in bs && !bs[p].st.Loose?
    ensures Joining(g, mem, p, q, q, p) == mem[p + bs[p].size - 2 * g.W := q][q + g.W := p]
  {
    hide Cell, ListsOk, AllListed, Mapped;
    InSpace(g, sbs, bs, p);
    InSpace(g, sbs, bs, q);
    PlainTag(bs[p]);
    assert TagOk(g, mem, bs, p);
  }

  /** The addresses of a block that leaves its list. */
  lemma UnlinkedCells(g: Geometry, mem: Memory, sbs: Superblocks, bs: Blocks, lists: seq<seq<nat>>, b: nat)
    requires Core(g, mem, sbs, bs, lists) && b in bs && !bs[b].st.Loose?
    ensures var n := bs[b].size;
            var p, q := Read(mem, b + g.W), Read(mem, b + n - 2 * g.W);
            UnlinkedWords(g, mem, b) == (if p == b then mem
                                         else Joining(g, mem, p, q, q, p))[b + g.W := 0][b + n - 2 * g.W := 0]
  {
    hide Cell, ListsOk, AllListed, Mapped, Joining;
    InSpace(g, sbs, bs, b);
    PlainTag(bs[b]);
    assert TagOk(g, mem, bs, b);
  }

  lemma PaintedIsSane(g: Geometry, mem: Memory, sbs: Superblocks, bs: Blocks, lists: seq<seq<nat>>, b: nat)
    requires Core(g, mem, sbs, bs, lists) && b in bs
    ensures RedzoneOf(g, Painted(g, mem, b, bs[b].size, g.rz), b, bs[b].size)
  {
    hide UnitListNo, ListsOk, AllListed, Mapped, TagsOk;
    InSpace(g, sbs, bs, b);
    assert BlockFits(g, sbs, bs, b);
    PaintedSane(g, mem, b, bs[b].size, g.rz);
  }

  /** The redzones of all blocks handed out, in an arena in which they are looked at. */
  ghost predicate Redzones(g: Geometry, mem: Memory, bs: Blocks)
    requires g.Valid()
  {
    g.clientmem ||
    forall b {:trigger RedzoneOf(g, mem, b, bs[b].size)} :: b in bs && bs[b].st.Used? ==>
      RedzoneOf(g, mem, b, bs[b].size)
  }

  lemma RedzoneKept(g: Geometry, mem: Memory, mem': Memory, sbs: Superblocks, bs: Blocks, lists: seq<seq<nat>>, b: nat)
    requires Core(g, mem', sbs, bs, lists) && b in bs && bs[b].st.Used? && LiveWordsKept(mem, mem', bs)
    requires g.clientmem || RedzoneOf(g, mem, b, bs[b].size)
    ensures g.clientmem || RedzoneOf(g, mem', b, bs[b].size)
  {
    hide Core, RedzoneOf;
    if !g.clientmem { RedzoneSame(g, mem, mem', sbs, bs, lists, b); }
  }

  /** After an operation that keeps the words of live blocks, and hands out no block but `x`. */
  lemma RedzonesAfter(g: Geometry, mem: Memory, mem': Memory, sbs: Superblocks, bs: Blocks, bs': Blocks,
                      lists: seq<seq<nat>>, x: int)
    requires g.Valid() && Core(g, mem', sbs, bs', lists) && LargeBlocks(g, bs) && Redzones(g, mem, bs)
    requires LiveWordsKept(mem, mem', bs) || LiveWordsKept(mem, mem', bs')
    requires forall c :: c in Live(g, bs') && c != x ==> c in Live(g, bs) && Live(g, bs)[c] == Live(g, bs')[c]
    requires x in bs' && bs'[x].st.Used? ==> g.clientmem || RedzoneOf(g, mem', x, bs'[x].size)
    ensures Redzones(g, mem', bs')
  {
    hide Core, RedzoneOf;
    CoreLarge(g, mem', sbs, bs', lists);
    if !g.clientmem {
      forall c | c in bs' && bs'[c].st.Used? && c != x
        ensures RedzoneOf(g, mem', c, bs'[c].size)
      {
        assert c in Live(g, bs') && c in Live(g, bs) && bs[c].size == bs'[c].size;
        assert RedzoneOf(g, mem, c, bs[c].size);
        var one: Blocks := map[c := bs'[c]];
        assert LiveWordsKept(mem, mem', one);
        RedzoneSame(g, mem, mem', sbs, bs', lists, c);
      }
    }
  }

  /** The redzones of the block, if they are looked at in this arena, have been filled in. */
  ghost predicate Filled(g: Geometry, mem: Memory, bs: Blocks, b: int)
    requires g.Valid()
  {
    b in bs && (g.clientmem || RedzoneOf(g, mem, b, bs[b].size))
  }

  lemma RedzonesHanded(g: Geometry, mem: Memory, mem': Memory, sbs: Superblocks, bs: Blocks, bs1: Blocks, bs': Blocks,
                       lists: seq<seq<nat>>, p: nat, reqP: nat)
    requires g.Valid() && Core(g, mem', sbs, bs', lists) && LargeBlocks(g, bs) && Redzones(g, mem, bs)
    requires LiveWordsKept(mem, mem', bs)
    requires Live(g, bs) == Live(g, bs1) && Handed(g, bs1, bs', p, reqP)
    requires g.clientmem || RedzoneOf(g, mem', p - g.OverheadLo(), bs'[p - g.OverheadLo()].size)
    ensures Redzones(g, mem', bs')
  {
    hide Core, LargeBlocks, Redzones, LiveWordsKept, Live, RedzoneOf, NoFreeBefore;
    RedzonesAfter(g, mem, mem', sbs, bs, bs', lists, p - g.OverheadLo());
  }

  /** A store into a live payload is no store into a redzone. */
  lemma RedzonesStored(g: Geometry, mem: Memory, sbs: Superblocks, bs: Blocks, lists: seq<seq<nat>>, b: nat, a: nat,
                       v: nat)
    requires Core(g, mem, sbs, bs, lists) && Redzones(g, mem, bs) && b in bs && bs[b].st.Used?
    requires b + g.OverheadLo() <= a && a + g.W <= b + g.OverheadLo() + Psz(g, bs[b])
    ensures Redzones(g, mem[a := v], bs)
  {
    hide UnitListNo, ListsOk, AllListed, Mapped, TagsOk, SuperblocksApart, SuperblockFits, RedzoneSane;
    var mem' := mem[a := v];
    assert BlockFits(g, sbs, bs, b);
    if !g.clientmem {
      forall c | c in bs && bs[c].st.Used?
        ensures RedzoneOf(g, mem', c, bs[c].size)
      {
        assert RedzoneOf(g, mem, c, bs[c].size);
        assert BlockFits(g, sbs, bs, c);
        InSpace(g, sbs, bs, c);
        if c != b { CellsApart(g, sbs, bs, b, c); }
        RedzoneFrame(g, mem, mem', NOTHING, NOTHING, c, bs[c].size, g.rz);
      }
    }
  }

  lemma RedzoneSame(g: Geometry, mem: Memory, mem': Memory, sbs: Superblocks, bs: Blocks, lists: seq<seq<nat>>, b: nat)
    requires Core(g, mem', sbs, bs, lists) && b in bs && bs[b].st.Used? && LiveWordsKept(mem, mem', map[b := bs[b]])
    requires RedzoneOf(g, mem, b, bs[b].size)
    ensures RedzoneOf(g, mem', b, bs[b].size)
  {
    hide UnitListNo, ListsOk, AllListed, Mapped, TagsOk;
    InSpace(g, sbs, bs, b);
    assert BlockFits(g, sbs, bs, b);
    var one: Blocks := map[b := bs[b]];
    forall a | b <= a < b + bs[b].size
      ensures WordAt(mem, a, NOTHING) == WordAt(mem', a, NOTHING)
    {
      assert b in one && one[b].st.Used? && Read(mem', a) == Read(mem, a);
    }
    RedzoneFrame(g, mem, mem', NOTHING, NOTHING, b, bs[b].size, g.rz);
  }

  /** The head of a list that is not empty, and that it stays there when another block joins the end. */
  lemma HeadIs(freelist: seq<nat>, lists: seq<seq<nat>>, lno: nat, b: nat)
    requires Heads(freelist, lists) && lno < N_MALLOC_LISTS
    ensures |freelist| == |lists| == N_MALLOC_LISTS
    ensures freelist[lno] != 0 ==> lists[lno] != [] && freelist[lno] == lists[lno][0]
    ensures freelist[lno] != 0 ==> Heads(freelist, lists[lno := lists[lno] + [b]])
  {
  }

  lemma HeadNonzero(g: Geometry, mem: Memory, sbs: Superblocks, bs: Blocks, lno: nat, l: seq<nat>)
    requires g.Valid() && Tiled(g, sbs, bs) && Mapped(g, mem, sbs) && ListOk(g, mem, bs, lno, l)
    ensures l != [] ==> l[0] != 0
  {
    if l != [] { Readable(g, mem, sbs, bs, l[0]); }
  }

  /** The four link writes of mkFreeBlock on a list that is not empty. */
  lemma JoinRing(g: Geometry, mem: Memory, sbs: Superblocks, bs: Blocks, lists: seq<seq<nat>>, lno: nat, b: nat)
    requires Core(g, mem, sbs, bs, lists)
    requires lno < N_MALLOC_LISTS && lists[lno] != [] && b in bs && bs[b].st.Loose?
    requires Psz(g, bs[b]) % MIN_SZB == 0 && ListNo(Psz(g, bs[b])) == lno
    requires Read(mem, b) == bs[b].size + 1 && Read(mem, HighCell(g, bs, b)) == bs[b].size + 1
    ensures ListOk(g, mem, bs, lno, lists[lno])
    ensures var l := lists[lno];
            var p, q := l[|l| - 1], l[0];
            var mem' := mem[NextCell(g, bs, p) := b][PrevCell(g, q) := b][NextCell(g, bs, b) := q][PrevCell(g, b) := p];
            && Core(g, mem', sbs, bs[b := bs[b].(st := Listed)], lists[lno := l + [b]])
            && LiveWordsKept(mem, mem', bs)
  {
    var l := lists[lno];
    assert ListOk(g, mem, bs, lno, l);
    var p, q := l[|l| - 1], l[0];
    Readable(g, mem, sbs, bs, b);
    Readable(g, mem, sbs, bs, p);
    Readable(g, mem, sbs, bs, q);
    CellsApart(g, sbs, bs, b, p);
    CellsApart(g, sbs, bs, b, q);
    var m1 := mem[NextCell(g, bs, b) := q];
    var own := m1[PrevCell(g, b) := p];
    LooseWrite(g, mem, sbs, bs, lists, b, NextCell(g, bs, b), q);
    LooseWrite(g, m1, sbs, bs, lists, b, PrevCell(g, b), p);
    LinkCore(g, own, sbs, bs, lists, lno, b);
    var mem' := mem[NextCell(g, bs, p) := b][PrevCell(g, q) := b][NextCell(g, bs, b) := q][PrevCell(g, b) := p];
    assert mem' == LinkedMemory(g, own, bs, l, b);
    WriteKeepsLive(g, mem, sbs, bs, b, NextCell(g, bs, b), q);
    WriteKeepsLive(g, m1, sbs, bs, b, PrevCell(g, b), p);
    WriteKeepsLive(g, own, sbs, bs, p, NextCell(g, bs, p), b);
    WriteKeepsLive(g, own[NextCell(g, bs, p) := b], sbs, bs, q, PrevCell(g, q), b);
  }

  lemma UnlinkKeepsLive(g: Geometry, mem: Memory, sbs: Superblocks, bs: Blocks, p: nat, q: nat)
    requires g.Valid() && Tiled(g, sbs, bs) && Mapped(g, mem, sbs)
    requires p in bs && q in bs && bs[p].st.Listed? && bs[q].st.Listed?
    ensures LiveWordsKept(mem, mem[NextCell(g, bs, p) := q][PrevCell(g, q) := p], bs)
  {
    Readable(g, mem, sbs, bs, p);
    Readable(g, mem, sbs, bs, q);
    WriteKeepsLive(g, mem, sbs, bs, p, NextCell(g, bs, p), q);
    WriteKeepsLive(g, mem[NextCell(g, bs, p) := q], sbs, bs, q, PrevCell(g, q), p);
  }

  /** The ring without its k-th block, read from the block before that one. */
  ghost function WithoutFrom(l: seq<nat>, k: nat): seq<nat>
    requires k < |l| && |l| > 1
  {
    Rotate(Before(l, k), |l| - 2)
  }

  /** The ring that the k-th block leaves, read from the block before it. */
  ghost function LeftBy(l: seq<nat>, k: nat): seq<nat>
    requires k < |l|
  {
    if |l| == 1 then [] else WithoutFrom(l, k)
  }

  /** What the prev and next words of a listed block say, and that both neighbours are blocks. */
  lemma Neighbours(g: Geometry, mem: Memory, sbs: Superblocks, bs: Blocks, lists: seq<seq<nat>>, lno: nat, k: nat)
    requires Core(g, mem, sbs, bs, lists) && lno < N_MALLOC_LISTS && k < |lists[lno]|
    ensures var l := lists[lno];
            var p, q := l[Pred(k, |l|)], l[Succ(k, |l|)];
            && p in bs && bs[p].st.Listed? && q in bs && bs[q].st.Listed? && l[k] in bs
            && Read(mem, NextCell(g, bs, l[k])) == q && Read(mem, PrevCell(g, l[k])) == p
  {
    hide UnitListNo, ListNo, AllListed, Mapped, TagsOk, Tiled;
    var l := lists[lno];
    assert ListOk(g, mem, bs, lno, l);
    assert LinkedAt(g, mem, bs, l, k);
  }

  /** The links of a block on a list: its previous block is itself exactly if it is alone there. And the words that it
      leaves behind when it leaves its list. */
  lemma LinksOf(g: Geometry, mem: Memory, sbs: Superblocks, bs: Blocks, lists: seq<seq<nat>>, lno: nat, k: nat)
    requires Core(g, mem, sbs, bs, lists) && lno < N_MALLOC_LISTS && k < |lists[lno]| && lists[lno][k] in bs
    requires !bs[lists[lno][k]].st.Loose?
    ensures var b := lists[lno][k];
            var p, q, n := Read(mem, PrevCell(g, b)), Read(mem, NextCell(g, bs, b)), bs[b].size;
            && (p == b <==> |lists[lno]| == 1) && (p == b ==> q == b)
            && UnlinkedWords(g, mem, b) == (if p == b then mem
                                            else Joining(g, mem, p, q, q, p))[b + g.W := 0][b + n - 2 * g.W := 0]
  {
    hide Joining, UnlinkedWords, ListNo, AllListed, Mapped, TagsOk, Tiled;
    UnlinkedCells(g, mem, sbs, bs, lists, lists[lno][k]);
    Neighbours(g, mem, sbs, bs, lists, lno, k);
    assert ListOk(g, mem, bs, lno, lists[lno]);
  }

  lemma CoreReadable(g: Geometry, mem: Memory, sbs: Superblocks, bs: Blocks, lists: seq<seq<nat>>, b: nat)
    requires Core(g, mem, sbs, bs, lists) && b in bs
    ensures bs[b].size >= 4 * g.W
  {
    Readable(g, mem, sbs, bs, b);
  }

  lemma LeaveCore(g: Geometry, mem: Memory, sbs: Superblocks, bs: Blocks, lists: seq<seq<nat>>, lno: nat, k: nat)
    requires Core(g, mem, sbs, bs, lists)
    requires lno < N_MALLOC_LISTS && k < |lists[lno]| && |lists[lno]| > 1
    ensures ListOk(g, mem, bs, lno, lists[lno])
    ensures var l := lists[lno];
            var p, q := l[Pred(k, |l|)], l[Succ(k, |l|)];
            var mem' := mem[NextCell(g, bs, p) := q][PrevCell(g, q) := p];
            && Core(g, mem', sbs, bs[l[k] := bs[l[k]].(st := Loose)], lists[lno := WithoutFrom(l, k)])
            && LiveWordsKept(mem, mem', bs)
            && |WithoutFrom(l, k)| == |l| - 1 && WithoutFrom(l, k)[0] == p
  {
    hide UnitListNo, AllListed, Linked;
    var l := lists[lno];
    assert ListOk(g, mem, bs, lno, l);
    var p, q := l[Pred(k, |l|)], l[Succ(k, |l|)];
    UnlinkCore(g, mem, sbs, bs, lists, lno, k);
    RotateCore(g, UnlinkedMemory(g, mem, bs, l, k), sbs, bs[l[k] := bs[l[k]].(st := Loose)], lists[lno := Before(l, k)],
               lno, |l| - 2);
    assert lists[lno := Before(l, k)][lno := WithoutFrom(l, k)] == lists[lno := WithoutFrom(l, k)];
    UnlinkKeepsLive(g, mem, sbs, bs, p, q);
  }

  /** `best` is the lowest of the blocks up to `i` steps from the head of the ring. */
  ghost predicate LowestSoFar(l: seq<nat>, i: nat, best: nat)
    requires l != []
  {
    && (forall j :: 0 <= j <= i ==> best <= l[Ahead(j, |l|)] && best <= l[Behind(j, |l|)])
    && (exists j :: 0 <= j <= i && (best == l[Ahead(j, |l|)] || best == l[Behind(j, |l|)]))
  }

  lemma NoSteps(n: nat)
    requires n > 0
    ensures Ahead(0, n) == 0 && Behind(0, n) == 0
  {
  }

  lemma OneMoreStep(l: seq<nat>, i: nat, best: nat, kb: nat)
    requires l != [] && LowestSoFar(l, i, best)
    ensures var pn, pp := l[Ahead(i + 1, |l|)], l[Behind(i + 1, |l|)];
            var least := if pn < best then pn else best;
            LowestSoFar(l, i + 1, if pp < least then pp else least)
    ensures Ahead(i + 1, |l|) == Succ(Ahead(i, |l|), |l|) && Behind(i + 1, |l|) == Pred(Behind(i, |l|), |l|)
  {
    hide Ahead, Behind;
    OneStep(i, |l|);
    var j :| 0 <= j <= i && (best == l[Ahead(j, |l|)] || best == l[Behind(j, |l|)]);
    assert 0 <= j <= i + 1 && 0 <= i + 1 <= i + 1;
  }

  lemma OneStep(i: nat, n: nat)
    requires n > 0
    ensures Ahead(i + 1, n) == Succ(Ahead(i, n), n) && Behind(i + 1, n) == Pred(Behind(i, n), n)
  {
  }

  lemma SwizzledIs(l: seq<nat>, kb: nat)
    requires kb < |l| && LowestSoFar(l, 5, l[kb])
    ensures Swizzled(l, Rotate(l, kb)) && Rotate(l, kb)[0] == l[kb]
  {
    hide Ahead, Behind;
    RotateAt(l, kb, 0);
  }

  lemma HeadStays(l: seq<nat>, best: nat)
    requires l != [] && LowestSoFar(l, 5, best) && best >= l[0]
    ensures Swizzled(l, l)
  {
    NoSteps(|l|);
    hide Ahead, Behind;
    assert Rotate(l, 0) == l;
  }

  lemma StartLow(l: seq<nat>)
    ensures l != [] ==> LowestSoFar(l, 0, l[0]) && Ahead(0, |l|) == 0 && Behind(0, |l|) == 0
  {
    if l != [] { NoSteps(|l|); }
  }

  /** The head of a list in memory, and the first block of the list. */
  lemma HeadOf(g: Geometry, mem: Memory, sbs: Superblocks, bs: Blocks, lists: seq<seq<nat>>, freelist: seq<nat>,
               lno: nat)
    requires Core(g, mem, sbs, bs, lists) && Heads(freelist, lists) && lno < N_MALLOC_LISTS
    ensures |freelist| == |lists| == N_MALLOC_LISTS && (freelist[lno] == 0 <==> lists[lno] == [])
    ensures lists[lno] != [] ==>
      freelist[lno] == lists[lno][0] && lists[lno][0] in bs && bs[lists[lno][0]].st.Listed?
  {
    hide ListNo, AllListed, TagsOk;
    assert ListOk(g, mem, bs, lno, lists[lno]);
    HeadNonzero(g, mem, sbs, bs, lno, lists[lno]);
  }

  lemma HeadsLength(freelist: seq<nat>, lists: seq<seq<nat>>)
    requires Heads(freelist, lists)
    ensures |freelist| == N_MALLOC_LISTS
  {
  }

  lemma HeadsRotated(freelist: seq<nat>, lists: seq<seq<nat>>, lno: nat, k: nat)
    requires Heads(freelist, lists) && lno < N_MALLOC_LISTS && k < |lists[lno]|
    ensures |freelist| == |lists| == N_MALLOC_LISTS
    ensures Heads(freelist[lno := lists[lno][k]], lists[lno := Rotate(lists[lno], k)])
  {
  }

  lemma NothingToSwizzle()
    ensures Swizzled([], [])
  {
  }

  lemma SuperblockMapped(g: Geometry, mem: Memory, sbs: Superblocks, bs: Blocks, s: nat)
    requires g.Valid() && Tiled(g, sbs, bs) && Mapped(g, mem, sbs) && TagsOk(g, mem, sbs, bs) && s in sbs
    ensures s in mem && mem[s] == sbs[s]
  {
    assert Read(mem, s) == sbs[s];
    assert s < End(g, sbs, s);
  }

  /** The first `n` superblocks of the table end at or before `b`. */
  ghost predicate EndBelow(g: Geometry, t: seq<nat>, sbs: Superblocks, n: nat, b: nat) {
    n <= |t| && forall i :: 0 <= i < n ==> t[i] in sbs && End(g, sbs, t[i]) <= b
  }

  /** From the n-th on, the superblocks of the table start after `b`. */
  ghost predicate StartAbove(g: Geometry, t: seq<nat>, n: nat, b: nat) {
    forall i :: n <= i < |t| ==> b < Start(g, t[i])
  }

  lemma NotLookedYet(g: Geometry, t: seq<nat>, sbs: Superblocks, b: nat)
    requires TableOk(t, sbs)
    ensures EndBelow(g, t, sbs, 0, b) && StartAbove(g, t, |t| + 1, b) && forall i :: 0 <= i < |t| ==> t[i] in sbs
  {
  }

  lemma NotInTable(g: Geometry, t: seq<nat>, sbs: Superblocks, m: nat, n: nat, b: nat)
    requires TableOk(t, sbs) && EndBelow(g, t, sbs, m, b) && StartAbove(g, t, n, b) && (n <= m || m == |t|)
    ensures forall s :: s in sbs ==> !(Start(g, s) <= b < End(g, sbs, s))
  {
    forall s | s in sbs
      ensures !(Start(g, s) <= b < End(g, sbs, s))
    {
      var i :| 0 <= i < |t| && t[i] == s;
    }
  }

  lemma TableBelow(g: Geometry, t: seq<nat>, sbs: Superblocks, bs: Blocks, pos: nat, b: nat)
    requires g.Valid() && Tiled(g, sbs, bs) && TableOk(t, sbs) && pos < |t| && End(g, sbs, t[pos]) <= b
    ensures EndBelow(g, t, sbs, pos + 1, b)
  {
    forall i | 0 <= i < pos
      ensures End(g, sbs, t[i]) <= b
    {
      assert t[i] < t[pos];
    }
  }

  lemma TableAbove(g: Geometry, t: seq<nat>, sbs: Superblocks, pos: nat, b: nat)
    requires TableOk(t, sbs) && pos < |t| && b < Start(g, t[pos])
    ensures StartAbove(g, t, pos, b)
  {
  }

  lemma PageMultiple(g: Geometry, x: nat)
    requires g.Valid() && 0 < x && x % PAGE_SIZE == 0
    ensures x >= g.Header() + g.Overhead() && x % MIN_SZB == 0 && (x - g.Header()) % MIN_SZB == 0
  {
    MultipleMod(8, 512 * (x / PAGE_SIZE));
    assert x == 8 * (512 * (x / PAGE_SIZE));
    Eights(x, g.Header());
  }

  /** The effect of newSuperblock on the arena. */
  lemma Granted(g: Geometry, mem: Memory, sbs: Superblocks, bs: Blocks, lists: seq<seq<nat>>, minSblock: nat, bszB: nat,
                grant: Grant)
    requires Core(g, mem, sbs, bs, lists)
    requires bszB < g.space && GrantOk(g, sbs, Some(grant), SuperblockBytes(g, minSblock, bszB))
    ensures SuperblockBytes(g, minSblock, bszB) >= g.Header() + g.Overhead()
    ensures (SuperblockBytes(g, minSblock, bszB) - g.Header()) % MIN_SZB == 0
    ensures var sb, n := grant.addr, SuperblockBytes(g, minSblock, bszB) - g.Header();
            var mem' := GrantedMemory(mem, grant, n);
            && sb !in sbs && Start(g, sb) !in bs
            && Core(g, mem', sbs[sb := n], bs[Start(g, sb) := Block(sb, n, Loose)], lists)
            && LiveWordsKept(mem, mem', bs)
  {
    var cszB := SuperblockBytes(g, minSblock, bszB);
    PageMultiple(g, cszB);
    hide SuperblockBytes;
    var sb, n := grant.addr, cszB - g.Header();
    var mem' := GrantedMemory(mem, grant, n);
    assert Extends(g, mem, mem', sb, n);
    hide Extends, LiveWordsKept, GrantOk, FreshRegion, UnitListNo;
    GrowKeepsLive(g, mem, mem', sbs, bs, sb, n);
    GrowCore(g, mem, mem', sbs, bs, lists, sb, n);
  }

  lemma GrowKeepsLive(g: Geometry, mem: Memory, mem': Memory, sbs: Superblocks, bs: Blocks, s: nat, n: nat)
    requires g.Valid() && Tiled(g, sbs, bs) && Extends(g, mem, mem', s, n)
    requires FreshRegion(g, sbs, s, g.Header() + n)
    ensures LiveWordsKept(mem, mem', bs)
  {
    forall b, a | b in bs && bs[b].st.Used? && b <= a < b + bs[b].size
      ensures Read(mem', a) == Read(mem, a)
    {
      assert BlockFits(g, sbs, bs, b);
    }
  }

  function Insert(t: seq<nat>, i: nat, x: nat): seq<nat>
    requires i <= |t|
  {
    t[..i] + [x] + t[i..]
  }

  lemma InsertAt(t: seq<nat>, i: nat, x: nat, k: nat)
    requires i <= |t| && k <= |t|
    ensures Insert(t, i, x)[k] == (if k < i then t[k] else if k == i then x else t[k - 1])
  {
  }

  lemma IsInsert(t: seq<nat>, i: nat, x: nat, u: seq<nat>)
    requires i <= |t| && |u| == |t| + 1
    requires u[i] == x
    requires forall k {:trigger u[k]} :: 0 <= k < i ==> u[k] == t[k]
    requires forall k {:trigger u[k]} :: i < k <= |t| ==> u[k] == t[k - 1]
    ensures u == Insert(t, i, x)
  {
  }

  lemma InsertAscending(t: seq<nat>, i: nat, x: nat)
    requires Ascending(t) && i <= |t|
    requires i > 0 ==> t[i - 1] < x
    requires i < |t| ==> x < t[i]
    ensures Ascending(Insert(t, i, x))
  {
    var u := Insert(t, i, x);
    forall k, m | 0 <= k < m < |u|
      ensures u[k] < u[m]
    {
      InsertAt(t, i, x, k);
      InsertAt(t, i, x, m);
      hide Insert;
      if k < i && m >= i {
        assert t[k] <= t[i - 1];
      }
      if k <= i && m > i {
        assert t[i] <= t[m - 1];
      }
    }
  }

  lemma TableInsert(t: seq<nat>, i: nat, sbs: Superblocks, sb: nat)
    requires sb in sbs && TableOk(t, sbs - {sb}) && i <= |t|
    requires i > 0 ==> t[i - 1] <= sb
    requires i < |t| ==> sb < t[i]
    ensures TableOk(Insert(t, i, sb), sbs)
  {
    assert i > 0 ==> t[i - 1] in sbs - {sb};
    InsertAscending(t, i, sb);
    forall k | 0 <= k <= |t|
      ensures Insert(t, i, sb)[k] in sbs
    {
      InsertAt(t, i, sb, k);
      assert k < i ==> t[k] in sbs - {sb};
      assert k > i ==> t[k - 1] in sbs - {sb};
    }
    forall s | s in sbs
      ensures s in Insert(t, i, sb)
    {
      if s != sb {
        assert s in sbs - {sb} && s in t;
        var k :| 0 <= k < |t| && t[k] == s;
        InsertAt(t, i, sb, if k < i then k else k + 1);
      }
    }
  }

  /** No free block on list `first` or above has `reqB` bytes. */
  ghost predicate NoneFrom(g: Geometry, bs: Blocks, first: nat, reqB: nat) {
    forall c :: c in bs && bs[c].st.Listed? ==>
      Psz(g, bs[c]) % MIN_SZB == 0 && (first <= ListNo(Psz(g, bs[c])) ==> bs[c].size < reqB)
  }

  lemma NoneFound(g: Geometry, bs: Blocks, lists: seq<seq<nat>>, first: nat, reqB: nat)
    requires |lists| == N_MALLOC_LISTS && AllListed(g, bs, lists)
    requires forall o, i :: first <= o < N_MALLOC_LISTS && 0 <= i < |lists[o]| ==>
      lists[o][i] in bs && bs[lists[o][i]].size < reqB
    ensures NoneFrom(g, bs, first, reqB)
  {
    hide UnitListNo;
    forall c | c in bs && bs[c].st.Listed? && first <= ListNo(Psz(g, bs[c]))
      ensures bs[c].size < reqB
    {
      var o := ListNo(Psz(g, bs[c]));
      var i :| 0 <= i < |lists[o]| && lists[o][i] == c;
    }
  }

  /** `b` is the first block of the ring, from its head on, that is large enough. */
  ghost predicate FirstOf(bs: Blocks, l: seq<nat>, reqB: nat, b: nat) {
    exists k :: 0 <= k < |l| && l[k] == b && b in bs && bs[b].size >= reqB
                && forall i :: 0 <= i < k ==> l[i] in bs && bs[l[i]].size < reqB
  }

  /** It is that of the first list, from the given one on, that has any. */
  ghost predicate FirstFit(bs: Blocks, lists: seq<seq<nat>>, first: nat, reqB: nat, b: int) {
    b >= 0 && exists lno :: first <= lno < |lists| && FirstOf(bs, lists[lno], reqB, b)
                            && forall o, i :: first <= o < lno && 0 <= i < |lists[o]| ==>
                                 lists[o][i] in bs && bs[lists[o][i]].size < reqB
  }

  lemma FirstFitIs(bs: Blocks, lists: seq<seq<nat>>, first: nat, lno: nat, reqB: nat, b: nat)
    requires first <= lno < |lists| && FirstOf(bs, lists[lno], reqB, b)
    requires forall o, i :: first <= o < lno && 0 <= i < |lists[o]| ==> lists[o][i] in bs && bs[lists[o][i]].size < reqB
    ensures FirstFit(bs, lists, first, reqB, b) && bs[b].size >= reqB
  {
    hide FirstOf;
    FirstIsLarge(bs, lists[lno], reqB, b);
  }

  lemma FirstIsLarge(bs: Blocks, l: seq<nat>, reqB: nat, b: nat)
    requires FirstOf(bs, l, reqB, b)
    ensures b in bs && bs[b].size >= reqB
  {
  }

  /** The block of a payload is the one that a scan for the request comes to first. */
  ghost predicate TakenFirst(g: Geometry, bs: Blocks, lists: seq<seq<nat>>, req: nat, p: int)
    requires g.Valid()
  {
    && AlignReq(g, req) % MIN_SZB == 0
    && FirstFit(bs, lists, ListNo(AlignReq(g, req)), ToBsz(g, AlignReq(g, req)), p - g.OverheadLo())
  }

  /** A ring whose walk is back at its head has been walked to its end. */
  lemma RingClosed(l: seq<nat>, i: nat)
    requires i < |l| && l[Succ(i, |l|)] == l[0] && Distinct(l)
    ensures i == |l| - 1
  {
    assert forall j :: 0 < j < |l| ==> l[0] != l[j];
  }

  /** When the block size of the request does not wrap, a failed scan means that no free block of the arena is big
      enough. */
  lemma NoneAnywhere(g: Geometry, bs: Blocks, reqP: nat)
    requires reqP % MIN_SZB == 0 && NoneFrom(g, bs, ListNo(reqP), reqP + g.Overhead())
    ensures AllSmaller(bs, reqP + g.Overhead())
  {
    forall c | c in bs && bs[c].st.Listed? && bs[c].size >= reqP + g.Overhead()
      ensures false
    {
      ListNoMonotone(reqP, Psz(g, bs[c]));
    }
  }

  lemma TakePartFits(g: Geometry, sbs: Superblocks, bs: Blocks, b: nat, n: nat)
    requires CanCut(g, sbs, bs, b, n)
    ensures b + n !in bs && n % MIN_SZB == 0 && g.Overhead() <= n && n + g.Overhead() <= bs[b].size
    ensures (bs[b].size - n) % MIN_SZB == 0 && (bs[b].size - n - g.Overhead()) % MIN_SZB == 0
  {
    CutTiled(g, sbs, bs, b, n);
    assert BlockFits(g, sbs, bs, b);
    Eights(bs[b].size, n);
    Eights(g.OverheadLo(), g.OverheadHi());
    Eights(bs[b].size - n, g.Overhead());
  }

  lemma KeptSame(mem: Memory, bs: Blocks)
    ensures LiveWordsKept(mem, mem, bs)
  {
  }

  lemma GrowReady(g: Geometry, mem: Memory, sbs: Superblocks, bs: Blocks, lists: seq<seq<nat>>, minSblock: nat,
                  bszB: nat, grant: Grant)
    requires Core(g, mem, sbs, bs, lists)
    requires bszB < g.space && GrantOk(g, sbs, Some(grant), SuperblockBytes(g, minSblock, bszB))
    ensures var n := SuperblockBytes(g, minSblock, bszB) - g.Header();
            n >= g.Overhead() && CanGrow(g, sbs, bs, grant.addr, n) && (n - g.Overhead()) % MIN_SZB == 0
  {
    var cszB := SuperblockBytes(g, minSblock, bszB);
    PageMultiple(g, cszB);
    Eights(g.OverheadLo(), g.OverheadHi());
    Eights(cszB - g.Header(), g.Overhead());
  }

  /** The outcome of a successful allocation: exactly one more live block, with payload address `p` and at least `reqP`
      bytes. */
  ghost predicate Handed(g: Geometry, bs: Blocks, bs': Blocks, p: int, reqP: int) {
    var b := p - g.OverheadLo();
    && b >= 0 && b !in Live(g, bs) && b in bs' && bs'[b].st.Used?
    && Live(g, bs') == Live(g, bs)[b := Psz(g, bs'[b])]
    && reqP <= Psz(g, bs'[b]) < reqP + g.Overhead()
    && p % MIN_SZB == 0
    && NoFreeBefore(bs', b)
  }

  /** The block with payload address `p` has room for `req` bytes. */
  ghost predicate Covers(g: Geometry, bs: Blocks, p: int, req: nat) {
    p - g.OverheadLo() in bs && Psz(g, bs[p - g.OverheadLo()]) >= req
  }

  lemma HandedExact(g: Geometry, bs0: Blocks, bs: Blocks, p: int, reqP: nat, req: nat)
    requires g.Valid() && Handed(g, bs0, bs, p, reqP)
    requires if req <= g.space - MIN_SZB then req <= reqP else reqP == 0
    ensures Covers(g, bs, p, req) <==> req <= g.space - MIN_SZB
  {
    hide Live, NoFreeBefore;
  }

  /** The block with payload address `p` is the first one of the superblock just granted, and if that has `len` bytes
      enough, the payload is exactly `reqP` bytes. */
  ghost predicate MadeFrom(g: Geometry, bs: Blocks, grant: Option<Grant>, p: int, reqP: nat, len: nat) {
    && grant.Some? && p == Start(g, grant.value.addr) + g.OverheadLo() && Start(g, grant.value.addr) in bs
    && (reqP + 2 * g.Overhead() + g.Header() <= len ==> bs[Start(g, grant.value.addr)].size == reqP + g.Overhead())
  }

  /** If free block `b` of `bs0` is large enough to be split, exactly `reqB` bytes of it have been used. */
  ghost predicate ExactCut(g: Geometry, bs0: Blocks, bs: Blocks, b: nat, reqB: nat) {
    b in bs0 && b in bs && (bs0[b].size >= reqB + g.Overhead() ==> bs[b].size == reqB)
  }

  lemma MadeExact(g: Geometry, bs1: Blocks, bs: Blocks, grant: Option<Grant>, b: nat, reqP: nat, len: nat)
    requires grant.Some? && b == Start(g, grant.value.addr) && ExactCut(g, bs1, bs, b, reqP + g.Overhead())
    requires bs1[b].size + g.Header() == len
    ensures MadeFrom(g, bs, grant, b + g.OverheadLo(), reqP, len)
  {
  }

  /** What is delivered fits into whole pages. */
  lemma HandedFits(g: Geometry, mem: Memory, sbs: Superblocks, bs0: Blocks, bs1: Blocks, bs: Blocks,
                   lists: seq<seq<nat>>, p: int, reqP: nat)
    requires Core(g, mem, sbs, bs, lists) && Paged(g, sbs) && Handed(g, bs1, bs, p, reqP)
    requires Live(g, bs0) == Live(g, bs1)
    ensures Handed(g, bs0, bs, p, reqP) && p - g.OverheadLo() in bs && Deliverable(g, reqP)
  {
    hide Core, Live, NoFreeBefore, Paged;
    LargestBlock(g, mem, sbs, bs, lists, p - g.OverheadLo());
    CoreLarge(g, mem, sbs, bs, lists);
  }

  /** All blocks are still there, and those handed out have kept their words; there may be more that are not handed
      out. */
  ghost predicate BlocksKept(g: Geometry, mem0: Memory, bs0: Blocks, mem: Memory, bs: Blocks) {
    && Live(g, bs) == Live(g, bs0) && LiveWordsKept(mem0, mem, bs0)
    && (forall c :: c in bs0 ==> c in bs && bs[c] == bs0[c])
  }

  lemma BlocksSame(g: Geometry, mem: Memory, bs: Blocks)
    ensures BlocksKept(g, mem, bs, mem, bs)
  {
  }

  lemma SameLive(g: Geometry, mem0: Memory, bs0: Blocks, mem: Memory, bs: Blocks)
    requires BlocksKept(g, mem0, bs0, mem, bs)
    ensures Live(g, bs) == Live(g, bs0)
  {
  }

  lemma BlocksGrown(g: Geometry, mem0: Memory, mem1: Memory, mem: Memory, bs0: Blocks, bs: Blocks, sb: nat, n: nat)
    requires Start(g, sb) !in bs0 && bs == bs0[Start(g, sb) := Block(sb, n, Listed)]
    requires LiveWordsKept(mem0, mem1, bs0) && LiveWordsKept(mem1, mem, bs) && Live(g, bs) == Live(g, bs0)
    ensures BlocksKept(g, mem0, bs0, mem, bs)
  {
    hide Live, LiveWordsKept;
    KeptTwice(mem0, mem1, mem, bs0, bs);
  }

  lemma RedzonesKept(g: Geometry, mem0: Memory, mem: Memory, sbs: Superblocks, bs0: Blocks, bs: Blocks,
                     lists: seq<seq<nat>>)
    requires g.Valid() && Core(g, mem, sbs, bs, lists) && LargeBlocks(g, bs0) && Redzones(g, mem0, bs0)
    requires BlocksKept(g, mem0, bs0, mem, bs)
    ensures Redzones(g, mem, bs) && LiveWordsKept(mem0, mem, bs0)
  {
    hide Core, LargeBlocks, Redzones, Live;
    RedzonesAfter(g, mem0, mem, sbs, bs0, bs, lists, -1);
  }

  /** What arena_malloc has delivered: one new block beside those of `bs0`, which are as in `bs1`, with all else
      kept. */
  lemma Delivered(g: Geometry, mem0: Memory, mem1: Memory, mem: Memory, sbs: Superblocks, bs0: Blocks,
                  bs1: Blocks, bs: Blocks, lists: seq<seq<nat>>, p: nat, reqP: nat)
    requires g.Valid() && Core(g, mem, sbs, bs, lists) && Paged(g, sbs) && LargeBlocks(g, bs0) && Redzones(g, mem0, bs0)
    requires Handed(g, bs1, bs, p, reqP) && BlocksKept(g, mem0, bs0, mem1, bs1) && LiveWordsKept(mem1, mem, bs1)
    requires Filled(g, mem, bs, p - g.OverheadLo())
    ensures LiveWordsKept(mem0, mem, bs0) && Redzones(g, mem, bs)
    ensures Handed(g, bs0, bs, p, reqP) && p - g.OverheadLo() in bs && Deliverable(g, reqP)
  {
    hide Core, LargeBlocks, Redzones, LiveWordsKept, Live, RedzoneOf, NoFreeBefore, Paged;
    KeptTwice(mem0, mem1, mem, bs0, bs1);
    RedzonesHanded(g, mem0, mem, sbs, bs0, bs1, bs, lists, p, reqP);
    HandedFits(g, mem, sbs, bs0, bs1, bs, lists, p, reqP);
  }

  /** What is known of the payload size and block size of a request. */
  ghost predicate SizesOk(g: Geometry, minSblock: nat, reqP: nat, reqB: nat)
    requires g.Valid()
  {
    && reqP % MIN_SZB == 0 && reqP < g.space && reqB % MIN_SZB == 0 && reqB < g.space
    && reqB == (if reqP + g.Overhead() < g.space then reqP + g.Overhead() else reqP + g.Overhead() - g.space)
    && (Deliverable(g, reqP) ==> SuperblockBytes(g, minSblock, reqB) >= reqB + g.Header())
    && (reqB < g.Overhead() ==> SuperblockBytes(g, minSblock, reqB) >= minSblock)
  }

  /** Every free block is smaller. */
  ghost predicate AllSmaller(bs: Blocks, size: nat) {
    forall c :: c in bs && bs[c].st.Listed? ==> bs[c].size < size
  }

  lemma BlockAligned(g: Geometry, mem: Memory, sbs: Superblocks, bs: Blocks, lists: seq<seq<nat>>, b: nat)
    requires Core(g, mem, sbs, bs, lists) && b in bs
    ensures (b + g.OverheadLo()) % MIN_SZB == 0
  {
    assert BlockFits(g, sbs, bs, b);
    Eights(b, g.OverheadLo());
  }

  /** The size computations of a request, with their wrap-around. */
  lemma RequestSizes(g: Geometry, req: nat, minSblock: nat)
    requires g.Valid() && req < g.space && minSblock % PAGE_SIZE == 0 && 16 * PAGE_SIZE <= minSblock <= 4096 * PAGE_SIZE
    ensures var reqP := AlignReq(g, req);
            var reqB := ToBsz(g, reqP);
            && SizesOk(g, minSblock, reqP, reqB)
            && (if req <= g.space - MIN_SZB then req <= reqP < req + MIN_SZB else reqP == 0)
  {
    hide AlignReq, ToBsz, SuperblockBytes;
    AlignExact(g, req);
    BszExact(g, AlignReq(g, req));
    RoundsUp(g, minSblock, ToBsz(g, AlignReq(g, req)));
  }

  /** A request whose block size wraps around is looked for among the largest blocks only. */
  lemma WrappedRequest(g: Geometry, mem: Memory, bs: Blocks, lists: seq<seq<nat>>, lno: nat, b: nat, reqP: nat)
    requires g.Valid() && ListsOk(g, mem, bs, lists) && lno < N_MALLOC_LISTS && b in lists[lno]
    requires reqP % MIN_SZB == 0 && reqP + g.Overhead() >= g.space && ListNo(reqP) <= lno
    ensures b in bs && 2 * g.Overhead() <= bs[b].size
  {
    assert ListOk(g, mem, bs, lno, lists[lno]);
    assert ListNo(reqP) == 111;
    ListNoInterval(Psz(g, bs[b]) / MIN_SZB);
  }

  lemma BszExact(g: Geometry, reqP: nat)
    requires g.Valid() && reqP < g.space && reqP % MIN_SZB == 0
    ensures var reqB := ToBsz(g, reqP);
            && reqB % MIN_SZB == 0 && reqB < g.space
            && reqB == (if reqP + g.Overhead() < g.space then reqP + g.Overhead() else reqP + g.Overhead() - g.space)
  {
    Eights(g.OverheadLo(), g.OverheadHi());
    Eights(reqP, g.Overhead());
    Eights(reqP + g.Overhead(), g.space);
    WrapOnce(reqP + g.Overhead(), g.space);
  }

  lemma WrapOnce(x: nat, m: nat)
    requires 0 < m && x < 2 * m
    ensures x % m == (if x < m then x else x - m)
  {
    if m <= x {
      assert x == m * 1 + (x - m);
    }
  }

  /** align_req_pszB rounds up, and covers the request, exactly when the addition does not wrap around. */
  lemma AlignExact(g: Geometry, req: nat)
    requires g.Valid() && req < g.space
    ensures AlignReq(g, req) % MIN_SZB == 0 && AlignReq(g, req) < g.space
    ensures req <= g.space - MIN_SZB ==> req <= AlignReq(g, req) < req + MIN_SZB
    ensures req > g.space - MIN_SZB ==> AlignReq(g, req) == 0
  {
  }

  /** Every superblock is short enough for a 32-bit index. */
  ghost predicate Indexable(sbs: Superblocks) {
    forall s :: s in sbs ==> sbs[s] < WORD32
  }

  /** On a 32-bit host, every superblock is. */
  lemma IndexableOn32(g: Geometry, mem: Memory, sbs: Superblocks, bs: Blocks, lists: seq<seq<nat>>)
    requires Core(g, mem, sbs, bs, lists) && g.W == 4
    ensures Indexable(sbs)
  {
    forall s | s in sbs
      ensures sbs[s] < WORD32
    {
      assert SuperblockFits(g, sbs, bs, s);
    }
  }

  /** The superblocks stay, and there is at most one new one: the region granted, with all the bytes asked for. */
  ghost predicate OnlyAdds(g: Geometry, sbs: Superblocks, sbs': Superblocks, grant: Option<Grant>, len: nat) {
    sbs' == sbs ||
    (grant.Some? && grant.value.addr !in sbs && len >= g.Header() && sbs' == sbs[grant.value.addr := len - g.Header()])
  }

  /** No block is larger than what a superblock of whole pages can hold. */
  lemma LargestBlock(g: Geometry, mem: Memory, sbs: Superblocks, bs: Blocks, lists: seq<seq<nat>>, b: nat)
    requires Core(g, mem, sbs, bs, lists) && Paged(g, sbs) && b in bs
    ensures bs[b].size + g.Header() + PAGE_SIZE <= g.space
  {
    hide ListsOk, AllListed, Mapped, TagsOk;
    assert BlockFits(g, sbs, bs, b);
    var s := bs[b].sb;
    assert SuperblockFits(g, sbs, bs, s);
    assert (sbs[s] + g.Header()) % PAGE_SIZE == 0;
    WholePages(g, sbs[s] + g.Header());
  }

  lemma WholePages(g: Geometry, len: nat)
    requires g.Valid() && len % PAGE_SIZE == 0 && len < g.space
    ensures len + PAGE_SIZE <= g.space
  {
  }

  /** A new superblock is one of whole pages, too. */
  lemma PagedAdd(g: Geometry, sbs: Superblocks, sb: nat, n: nat, minSblock: nat, bszB: nat)
    requires g.Valid() && Paged(g, sbs) && n + g.Header() == SuperblockBytes(g, minSblock, bszB)
    ensures Paged(g, sbs[sb := n])
  {
    PageRounded(g, minSblock, bszB);
    hide SuperblockBytes;
  }

  lemma PageRounded(g: Geometry, minSblock: nat, bszB: nat)
    requires g.Valid()
    ensures SuperblockBytes(g, minSblock, bszB) % PAGE_SIZE == 0
  {
  }

  lemma AlreadyAligned(g: Geometry, n: nat)
    requires g.Valid() && n % MIN_SZB == 0 && n < g.space
    ensures AlignReq(g, n) == n
  {
  }

  /** Both size words of a block say its size and status. */
  lemma TagWords(g: Geometry, mem: Memory, sbs: Superblocks, bs: Blocks, b: nat)
    requires g.Valid() && Tiled(g, sbs, bs) && Mapped(g, mem, sbs) && TagsOk(g, mem, sbs, bs) && b in bs
    requires !bs[b].st.Loose?
    ensures var t := Tag(bs[b]);
            && b in mem && mem[b] == t && b + bs[b].size - g.W in mem && mem[b + bs[b].size - g.W] == t
            && Plain(t) == bs[b].size && t > 0 && (t % 2 == 0 <==> bs[b].st.Used?)
  {
    Readable(g, mem, sbs, bs, b);
    PlainTag(bs[b]);
    assert TagOk(g, mem, bs, b);
  }

  /** A concrete request that is given a block of no payload at all: two bytes less than a 64-bit word can count. */
  lemma HugeRequestWraps()
    ensures var g := Geometry(8, 8, 0x1_0000_0000_0000_0000, true);
            g.Valid() && AlignReq(g, 0xFFFF_FFFF_FFFF_FFFE) == 0 &&
            ToBsz(g, AlignReq(g, 0xFFFF_FFFF_FFFF_FFFE)) == g.Overhead()
  {
    var g := Geometry(8, 8, 0x1_0000_0000_0000_0000, true);
    AlignExact(g, 0xFFFF_FFFF_FFFF_FFFE);
    BszExact(g, 0);
  }

  lemma RoundsUp(g: Geometry, minSblock: nat, bszB: nat)
    requires g.Valid() && bszB < g.space && minSblock % PAGE_SIZE == 0
    requires 16 * PAGE_SIZE <= minSblock <= 4096 * PAGE_SIZE
    ensures bszB + g.Header() + PAGE_SIZE <= g.space ==> SuperblockBytes(g, minSblock, bszB) >= bszB + g.Header()
    ensures bszB + g.Header() < minSblock ==> SuperblockBytes(g, minSblock, bszB) >= minSblock
  {
  }

  lemma KeptOnly(m0: Memory, m1: Memory, bs: Blocks, bs': Blocks)
    requires LiveWordsKept(m0, m1, bs)
    requires forall b :: b in bs' && bs'[b].st.Used? ==> b in bs && bs[b] == bs'[b]
    ensures LiveWordsKept(m0, m1, bs')
  {
    forall b, a | b in bs' && bs'[b].st.Used? && b <= a < b + bs'[b].size
      ensures Read(m1, a) == Read(m0, a)
    {
      assert b in bs;
    }
  }

  lemma SumMultiple(g: Geometry, mem: Memory, sbs: Superblocks, bs: Blocks, lists: seq<seq<nat>>, b: nat, c: nat)
    requires Core(g, mem, sbs, bs, lists) && b in bs && c in bs
    ensures bs[b].size >= g.Overhead() && (bs[b].size + bs[c].size - g.Overhead()) % MIN_SZB == 0
  {
    assert BlockFits(g, sbs, bs, b) && BlockFits(g, sbs, bs, c);
    Eights(g.OverheadLo(), g.OverheadHi());
    Eights(bs[b].size, bs[c].size);
    Eights(bs[b].size + bs[c].size, g.Overhead());
  }

  lemma NextInuse(bs: Blocks, b: nat)
    requires b in bs && ApartBut(bs, b) && (b + bs[b].size in bs ==> !bs[b + bs[b].size].st.Listed?)
    ensures ApartButBefore(bs, b)
  {
    assert NotBothFree(bs, b);
  }

  lemma StartsAfter(g: Geometry, mem: Memory, sbs: Superblocks, bs: Blocks, lists: seq<seq<nat>>, b: nat)
    requires Core(g, mem, sbs, bs, lists) && b in bs
    ensures bs[b].sb in sbs && b >= Start(g, bs[b].sb)
    ensures b != Start(g, bs[b].sb) ==> b >= Start(g, bs[b].sb) + g.Overhead()
  {
    assert BlockFits(g, sbs, bs, b);
    if b != Start(g, bs[b].sb) {
      var p := Predecessor(g, sbs, bs, b);
      assert BlockFits(g, sbs, bs, p);
    }
  }

  lemma DoubleEven(h: nat)
    ensures (2 * h) % 2 == 0 && (2 * h + 1) % 2 == 1
  {
  }

  lemma PlainTag(k: Block)
    requires k.size % MIN_SZB == 0
    ensures Plain(Tag(k)) == k.size && Tag(k) % 2 == (if k.st.Used? then 0 else 1)
  {
    DoubleEven(4 * (k.size / MIN_SZB));
    assert k.size == 2 * (4 * (k.size / MIN_SZB));
  }

  /** The word just below a block is the high size word of the block before it. */
  lemma PredecessorWord(g: Geometry, mem: Memory, sbs: Superblocks, bs: Blocks, lists: seq<seq<nat>>, b: nat)
    returns (q: nat)
    requires Core(g, mem, sbs, bs, lists) && NoLoose(bs) && b in bs && b != Start(g, bs[b].sb)
    ensures q in bs && q + bs[q].size == b && bs[q].sb == bs[b].sb && q >= Start(g, bs[q].sb)
    ensures bs[q].size >= g.Overhead()
    ensures b >= g.W && b - g.W in mem && Plain(mem[b - g.W]) == bs[q].size
  {
    hide UnitListNo, ListNo, ListsOk, AllListed, Plain;
    q := Predecessor(g, sbs, bs, b);
    Readable(g, mem, sbs, bs, q);
    assert BlockFits(g, sbs, bs, q);
    assert TagOk(g, mem, bs, q);
    PlainTag(bs[q]);
  }

  /** `p` is the payload address of a live block. */
  ghost predicate LiveAt(g: Geometry, bs: Blocks, p: int) {
    p - g.OverheadLo() in Live(g, bs)
  }

  lemma BlockSize(g: Geometry, sbs: Superblocks, bs: Blocks, b: nat)
    requires g.Valid() && Tiled(g, sbs, bs) && b in bs
    ensures bs[b].size >= g.Overhead() && (bs[b].size - g.Overhead()) % MIN_SZB == 0
  {
    assert BlockFits(g, sbs, bs, b);
    Eights(g.OverheadLo(), g.OverheadHi());
    Eights(bs[b].size, g.Overhead());
  }

  /** A block starts inside its own superblock and no other. */
  lemma OnlyInOwn(g: Geometry, sbs: Superblocks, bs: Blocks, b: nat)
    requires g.Valid() && Tiled(g, sbs, bs) && b in bs
    ensures bs[b].sb in sbs && Start(g, bs[b].sb) <= b < End(g, sbs, bs[b].sb)
    ensures forall s :: s in sbs && Start(g, s) <= b < End(g, sbs, s) ==> s == bs[b].sb
  {
    assert BlockFits(g, sbs, bs, b);
    var t := bs[b].sb;
    forall s | s in sbs && s != t
      ensures !(Start(g, s) <= b < End(g, sbs, s))
    {
      assert End(g, sbs, s) <= t || End(g, sbs, t) <= s;
    }
  }

  /** Which words are live depends only on the live blocks and their sizes. */
  lemma KeptByLive(g: Geometry, sbs: Superblocks, m0: Memory, m1: Memory, bs: Blocks, bs': Blocks)
    requires Tiled(g, sbs, bs) && Tiled(g, sbs, bs') && Live(g, bs) == Live(g, bs') && LiveWordsKept(m0, m1, bs)
    ensures LiveWordsKept(m0, m1, bs')
  {
    hide SuperblocksApart, SuperblockFits;
    forall b, a | b in bs' && bs'[b].st.Used? && b <= a < b + bs'[b].size
      ensures Read(m1, a) == Read(m0, a)
    {
      assert b in Live(g, bs') && b in Live(g, bs);
      assert Live(g, bs)[b] == Live(g, bs')[b];
      assert BlockFits(g, sbs, bs, b) && BlockFits(g, sbs, bs', b);
    }
  }

  lemma FreeFacts(g: Geometry, mem: Memory, sbs: Superblocks, bs: Blocks, lists: seq<seq<nat>>, b: nat)
    requires Core(g, mem, sbs, bs, lists) && b in bs
    ensures bs[b].size >= g.Overhead() && (bs[b].size - g.Overhead()) % MIN_SZB == 0
    ensures bs[b].sb in sbs && Start(g, bs[b].sb) <= b < End(g, sbs, bs[b].sb)
    ensures forall s :: s in sbs && Start(g, s) <= b < End(g, sbs, s) ==> s == bs[b].sb
    ensures bs[b].sb in mem && mem[bs[b].sb] == sbs[bs[b].sb]
  {
    hide UnitListNo, ListsOk, AllListed, BlockFits, SuperblockFits;
    BlockSize(g, sbs, bs, b);
    OnlyInOwn(g, sbs, bs, b);
    SuperblockMapped(g, mem, sbs, bs, bs[b].sb);
  }

  /** The words kept by the three parts of arena_free. */
  lemma KeptThrough(g: Geometry, sbs: Superblocks, mem0: Memory, mem1: Memory, bs1: Blocks, lists1: seq<seq<nat>>,
                    mem2: Memory, bs2: Blocks, lists2: seq<seq<nat>>, mem: Memory, bs: Blocks, lists: seq<seq<nat>>)
    requires Core(g, mem1, sbs, bs1, lists1) && Core(g, mem2, sbs, bs2, lists2) && Core(g, mem, sbs, bs, lists)
    requires Live(g, bs1) == Live(g, bs2) == Live(g, bs)
    requires LiveWordsKept(mem0, mem1, bs1) && LiveWordsKept(mem1, mem2, bs2) && LiveWordsKept(mem2, mem, bs)
    ensures LiveWordsKept(mem0, mem, bs)
  {
    hide UnitListNo, ListsOk, AllListed, Tiled, Mapped, TagsOk, LiveWordsKept, Live;
    KeptByLive(g, sbs, mem0, mem1, bs1, bs);
    KeptByLive(g, sbs, mem1, mem2, bs2, bs);
    KeptTwice(mem0, mem1, mem2, bs, bs);
    KeptTwice(mem0, mem2, mem, bs, bs);
  }

  lemma FragMultiple(g: Geometry, frag: nat)
    requires g.Valid() && frag % MIN_SZB == 0 && g.Overhead() <= frag
    ensures (frag - g.Overhead()) % MIN_SZB == 0
  {
    Eights(g.OverheadLo(), g.OverheadHi());
    Eights(frag, g.Overhead());
  }

  ghost predicate LargeBlocks(g: Geometry, bs: Blocks) {
    forall b :: b in bs ==> bs[b].size >= g.Overhead()
  }

  lemma TiledLarge(g: Geometry, sbs: Superblocks, bs: Blocks)
    requires Tiled(g, sbs, bs)
    ensures LargeBlocks(g, bs)
  {
    forall b | b in bs
      ensures bs[b].size >= g.Overhead()
    {
      assert BlockFits(g, sbs, bs, b);
    }
  }

  /** `b` is the one live block of `bs` that `bs0` has not, and no free block comes right before it. */
  ghost predicate BaseBlock(g: Geometry, bs0: Blocks, bs: Blocks, b: nat) {
    && b in bs && bs[b].st.Used? && b !in Live(g, bs0)
    && Live(g, bs) == Live(g, bs0)[b := Psz(g, bs[b])]
    && NoFreeBefore(bs, b)
  }

  /** Exactly one more live block, with payload address `p` and at least `reqP` bytes. */
  ghost predicate HandedAtLeast(g: Geometry, bs: Blocks, bs': Blocks, p: int, reqP: int) {
    var b := p - g.OverheadLo();
    && b >= 0 && b !in Live(g, bs) && b in bs' && bs'[b].st.Used?
    && Live(g, bs') == Live(g, bs)[b := Psz(g, bs'[b])]
    && reqP <= Psz(g, bs'[b])
    && p % MIN_SZB == 0
  }

  lemma LiveSwap(g: Geometry, bs0: Blocks, bs: Blocks, b: nat)
    requires BaseBlock(g, bs0, bs, b)
    ensures Live(g, bs) - {b} == Live(g, bs0)
    ensures forall c :: c in Live(g, bs0) ==> c in bs
  {
    hide Psz, NoFreeBefore;
    assert forall c :: c in Live(g, bs0) ==> c in Live(g, bs);
  }

  lemma KeptAfter(g: Geometry, m0: Memory, m1: Memory, m2: Memory, bs0: Blocks, bs: Blocks, b: nat)
    requires BaseBlock(g, bs0, bs, b) && LargeBlocks(g, bs0) && LargeBlocks(g, bs)
    requires LiveWordsKept(m0, m1, bs0) && LiveWordsKept(m1, m2, bs - {b})
    ensures LiveWordsKept(m0, m2, bs0)
  {
    hide NoFreeBefore;
    forall c, a | c in bs0 && bs0[c].st.Used? && c <= a < c + bs0[c].size
      ensures Read(m2, a) == Read(m0, a)
    {
      assert c in Live(g, bs0) && c in Live(g, bs) && c != b;
      assert Live(g, bs)[c] == Live(g, bs0)[c];
      assert c in bs - {b};
    }
  }

  lemma AlignFacts(g: Geometry, mem: Memory, sbs: Superblocks, bs: Blocks, lists: seq<seq<nat>>, base: nat, alignB: nat)
    requires Core(g, mem, sbs, bs, lists) && base in bs && alignB > 0 && alignB % MIN_SZB == 0
    ensures LargeBlocks(g, bs)
    ensures var p := AlignUpwards(base + 2 * g.OverheadLo() + g.OverheadHi(), alignB);
            var n := p - g.OverheadLo() - base;
            && p % alignB == 0 && p % MIN_SZB == 0 && g.Overhead() <= n < g.Overhead() + alignB && n % MIN_SZB == 0
            && (n + g.Overhead() <= bs[base].size ==> CanCut(g, sbs, bs, base, n))
  {
    hide UnitListNo, ListsOk, AllListed, Mapped, TagsOk;
    TiledLarge(g, sbs, bs);
    assert BlockFits(g, sbs, bs, base);
    var a := base + 2 * g.OverheadLo() + g.OverheadHi();
    AlignUpwardsExact(a, alignB);
    Eights(AlignUpwards(a, alignB), g.OverheadLo());
    Eights(AlignUpwards(a, alignB) - g.OverheadLo(), base);
  }

  /** The request arena_memalign makes of arena_malloc, in SizeT arithmetic. */
  function BaseReq(g: Geometry, alignB: nat, req: nat): nat
    requires g.Valid()
  {
    (AlignReq(g, req) + g.Overhead() + alignB) % g.space
  }

  /** The alignments that arena_memalign accepts. */
  ghost predicate Alignable(alignB: nat) { MIN_SZB <= alignB <= 1048576 && IsPowerOf2(alignB) }

  /** The size of the block that arena_memalign wants to split is too large for a SizeT. */
  predicate BaseWraps(g: Geometry, alignB: nat, req: nat)
    requires g.Valid()
  {
    AlignReq(g, req) + g.Overhead() + alignB >= g.space
  }

  /** The aligned block would start behind the end of the base block `b`. */
  ghost predicate AlignedBeyond(g: Geometry, bs: Blocks, b: nat, alignB: nat) {
    alignB > 0 && b in bs &&
    b + bs[b].size < AlignUpwards(b + 2 * g.OverheadLo() + g.OverheadHi(), alignB) - g.OverheadLo()
  }

  /** By how much. */
  ghost function Gap(g: Geometry, bs: Blocks, b: nat, alignB: nat): int
    requires alignB > 0 && b in bs
  {
    AlignUpwards(b + 2 * g.OverheadLo() + g.OverheadHi(), alignB) - g.OverheadLo() - b - bs[b].size
  }

  /** The arena when arena_memalign has made its base block, if it has: that block, the words, and all blocks. */
  datatype Base = NoBase | Base(b: nat, heap: Heap, blocks: Blocks)

  /** The words after arena_memalign has written two blocks over base block `b` and what comes behind that, to return
      `p`. */
  ghost predicate OverlapFrom(g: Geometry, h': Heap, h: Heap, bs: Blocks, b: nat, alignB: nat, p: nat)
    requires g.Valid()
  {
    && alignB > 0 && b in bs && |h.heads| == N_MALLOC_LISTS && 0 < Gap(g, bs, b, alignB) < g.space
    && var frag := bs[b].size + Gap(g, bs, b, alignB);
       && g.Overhead() <= frag && (frag - g.Overhead()) % MIN_SZB == 0
       && p == Cell(g, b + frag + g.OverheadLo())
       && h' == Overlap(g, h, b, frag, g.space - Gap(g, bs, b, alignB))
  }

  /** The aligned block would start behind the end of base block `b`, and its size, wrapped around, is enough for the
      payload. */
  ghost predicate WildFits(g: Geometry, bs: Blocks, b: nat, alignB: nat, reqP: nat) {
    AlignedBeyond(g, bs, b, alignB) && reqP + g.Overhead() + Gap(g, bs, b, alignB) <= g.space
  }

  lemma WrapFacts(g: Geometry, mem: Memory, sbs: Superblocks, bs: Blocks, lists: seq<seq<nat>>, base: nat, frag: nat)
    requires Core(g, mem, sbs, bs, lists) && base in bs && bs[base].size < frag < g.Overhead() + 1048576
    requires frag % MIN_SZB == 0
    ensures var size := g.space - (frag - bs[base].size);
            && frag >= g.Overhead() && (frag - g.Overhead()) % MIN_SZB == 0 && size % MIN_SZB == 0
            && Wrapping(g, base, frag, size) && g.Overhead() <= size
  {
    hide UnitListNo, ListsOk, AllListed, Mapped, TagsOk;
    assert BlockFits(g, sbs, bs, base);
    assert SuperblockFits(g, sbs, bs, bs[base].sb);
    Eights(g.OverheadLo(), g.OverheadHi());
    Eights(frag, g.Overhead());
    Eights(frag, bs[base].size);
    Eights(g.space, frag - bs[base].size);
  }

  /** The base block, as small as it is, reaches far enough that the size of the aligned block is not too small. */
  lemma GapBounded(g: Geometry, mem: Memory, sbs: Superblocks, bs: Blocks, lists: seq<seq<nat>>, baseP: nat,
                   alignB: nat, baseReq: nat)
    requires Core(g, mem, sbs, bs, lists) && baseP >= g.OverheadLo() && baseP - g.OverheadLo() in bs
    requires 0 < alignB <= 1048576 && alignB % MIN_SZB == 0
    ensures Covers(g, bs, baseP, baseReq) ==> Gap(g, bs, baseP - g.OverheadLo(), alignB) + baseReq < alignB
  {
    hide Core, AlignUpwards;
    AlignFacts(g, mem, sbs, bs, lists, baseP - g.OverheadLo(), alignB);
  }

  /** The arena is still empty, and both grants are given. */
  predicate FirstGrant(sbs: Superblocks, grant: Option<Grant>, tableGrant: bool)
  {
    sbs == map[] && grant.Some? && tableGrant
  }

  /** The requests that arena_memalign serves if it gets what it needs: a superblock could hold the block to be
      split. */
  ghost predicate Serveable(g: Geometry, alignB: nat, req: nat)
    requires g.Valid()
  {
    req < g.space - 1 && Alignable(alignB) && Deliverable(g, AlignReq(g, req) + g.Overhead() + alignB)
  }

  /** If the size has wrapped around, what is asked for instead is far too small. */
  lemma WrappedTooSmall(g: Geometry, req: nat, alignB: nat, lg: nat)
    requires g.Valid() && req < g.space && MIN_SZB <= alignB <= 1048576 && Pow2(lg) == alignB
    ensures BaseWraps(g, alignB, req) ==> AlignReq(g, BaseReq(g, alignB, req)) + g.Overhead() <= AlignReq(g, req)
  {
    AlignExact(g, req);
    BaseSizes(g, req, alignB, lg);
    hide AlignReq;
    if BaseWraps(g, alignB, req) {
      WrapOnce(AlignReq(g, req) + g.Overhead() + alignB, g.space);
      AlignExact(g, BaseReq(g, alignB, req));
    }
  }

  lemma CoversLess(g: Geometry, bs: Blocks, p: int, more: nat, less: nat)
    ensures Covers(g, bs, p, more) && less <= more ==> Covers(g, bs, p, less)
  {
  }

  /** A block just handed out is one to split. */
  lemma HandedBase(g: Geometry, bs0: Blocks, bs: Blocks, p: nat, reqP: nat)
    requires Handed(g, bs0, bs, p, reqP)
    ensures p >= g.OverheadLo() && BaseBlock(g, bs0, bs, p - g.OverheadLo()) && p - g.OverheadLo() in bs
    ensures Psz(g, bs[p - g.OverheadLo()]) < reqP + g.Overhead()
  {
  }

  /** A block that has less than another block's overhead over what was asked for. */
  ghost predicate SmallBase(g: Geometry, bs: Blocks, b: nat, reqP: nat) {
    b in bs && Psz(g, bs[b]) < reqP + g.Overhead()
  }

  lemma SomeSuperblock(g: Geometry, mem: Memory, sbs: Superblocks, bs: Blocks, lists: seq<seq<nat>>, b: nat)
    requires Core(g, mem, sbs, bs, lists) && b in bs
    ensures bs[b].sb in sbs && sbs != map[] && LargeBlocks(g, bs)
  {
    TiledLarge(g, sbs, bs);
    assert BlockFits(g, sbs, bs, b);
  }

  lemma CoreLarge(g: Geometry, mem: Memory, sbs: Superblocks, bs: Blocks, lists: seq<seq<nat>>)
    requires Core(g, mem, sbs, bs, lists)
    ensures LargeBlocks(g, bs)
  {
    TiledLarge(g, sbs, bs);
  }

  lemma BaseSizes(g: Geometry, req: nat, alignB: nat, lg: nat)
    requires g.Valid() && req < g.space && MIN_SZB <= alignB <= 1048576 && Pow2(lg) == alignB
    ensures alignB % MIN_SZB == 0
    ensures var n := AlignReq(g, req) + g.Overhead() + alignB;
            && BaseReq(g, alignB, req) == (if n < g.space then n else n - g.space) &&
               (n < g.space ==> n <= g.space - MIN_SZB)
            && BaseReq(g, alignB, req) < g.space && AlignReq(g, req) < g.space && BaseReq(g, alignB, req) % MIN_SZB == 0
  {
    hide AlignReq;
    MultipleOf8(lg);
    AlignExact(g, req);
    Eights(g.OverheadLo(), g.OverheadHi());
    Eights(AlignReq(g, req), g.Overhead());
    Eights(AlignReq(g, req) + g.Overhead(), alignB);
    Eights(g.space, AlignReq(g, req) + g.Overhead() + alignB);
    WrapOnce(AlignReq(g, req) + g.Overhead() + alignB, g.space);
  }

  lemma FreesMerged(bs: Blocks, b: nat)
    requires NoFreePair(bs) && b in bs && bs[b].st.Listed? && b + bs[b].size in bs
    ensures !bs[b + bs[b].size].st.Listed?
  {
    assert NotBothFree(bs, b);
  }

  lemma PszBounds(g: Geometry, mem: Memory, sbs: Superblocks, bs: Blocks, lists: seq<seq<nat>>, b: nat, lno: nat)
    requires Core(g, mem, sbs, bs, lists) && lno < N_MALLOC_LISTS && b in bs
    requires Psz(g, bs[b]) % MIN_SZB == 0 && ListNo(Psz(g, bs[b])) == lno
    ensures ListMin(lno) <= bs[b].size - g.Overhead() <= ListMax(lno, g.space - 1)
  {
    hide UnitListNo, FirstUnit, ListsOk, AllListed, Mapped, TagsOk;
    assert BlockFits(g, sbs, bs, b);
    assert SuperblockFits(g, sbs, bs, bs[b].sb);
    ListBoundsExact(Psz(g, bs[b]), lno, g.space - 1);
  }

  lemma ListMaxIs(lno: nat, maxPsz: nat)
    requires lno < N_MALLOC_LISTS
    ensures lno + 1 < N_MALLOC_LISTS ==> ListMin(lno + 1) >= 1
    ensures ListMax(lno, maxPsz) == (if lno == N_MALLOC_LISTS - 1 then maxPsz else ListMin(lno + 1) - 1)
  {
  }

  /** Between its two size words, no word of a live block is one that the allocator itself relies on. */
  lemma InteriorWrite(g: Geometry, mem: Memory, sbs: Superblocks, bs: Blocks, lists: seq<seq<nat>>, b: nat, a: nat,
                      v: nat)
    requires Core(g, mem, sbs, bs, lists) && b in bs && bs[b].st.Used?
    requires b + g.W <= a && a + 2 * g.W <= b + bs[b].size
    ensures Core(g, mem[a := v], sbs, bs, lists)
  {
    hide UnitListNo, SuperblocksApart, BlocksApart, SuperblockFits;
    var mem' := mem[a := v];
    assert BlockFits(g, sbs, bs, b);
    WriteApart(g, mem, sbs, bs, b, a, v);
    MappedWrite(g, mem, sbs, a, v);
    forall c | c in bs
      ensures TagOk(g, mem', bs, c)
    {
      assert TagOk(g, mem, bs, c);
      assert c != b ==> SameWords(g, mem, mem', bs, c);
    }
    forall lno | 0 <= lno < N_MALLOC_LISTS
      ensures ListOk(g, mem', bs, lno, lists[lno])
    {
      assert ListOk(g, mem, bs, lno, lists[lno]);
      ListFrame(g, mem, mem', bs, bs, lno, lists[lno]);
    }
  }

  /** A store into the payload of a live block keeps the whole invariant. */
  lemma PayloadWrite(g: Geometry, mem: Memory, sbs: Superblocks, bs: Blocks, lists: seq<seq<nat>>, b: nat, a: nat,
                     v: nat)
    requires Core(g, mem, sbs, bs, lists) && b in bs && bs[b].st.Used?
    requires b + g.OverheadLo() <= a && a + g.W <= b + g.OverheadLo() + Psz(g, bs[b])
    ensures Core(g, mem[a := v], sbs, bs, lists)
  {
    hide Tiled, Mapped, TagsOk, ListsOk, AllListed;
    InteriorWrite(g, mem, sbs, bs, lists, b, a, v);
  }

  /** Live payloads lie inside superblocks and never overlap one another. */
  lemma LivePayloadsApart(g: Geometry, mem: Memory, sbs: Superblocks, bs: Blocks, lists: seq<seq<nat>>, b: nat, c: nat)
    requires Core(g, mem, sbs, bs, lists) && b in Live(g, bs) && c in Live(g, bs) && b != c
    ensures var p, q := b + g.OverheadLo(), c + g.OverheadLo();
            p + Live(g, bs)[b] <= q || q + Live(g, bs)[c] <= p
    ensures bs[b].sb in sbs
    ensures Start(g, bs[b].sb) <= b + g.OverheadLo() && b + g.OverheadLo() + Live(g, bs)[b] <= End(g, sbs, bs[b].sb)
  {
    hide UnitListNo, SuperblocksApart, SuperblockFits, ListsOk, AllListed, Mapped, TagsOk;
    assert BlockFits(g, sbs, bs, b) && BlockFits(g, sbs, bs, c);
    CellsApart(g, sbs, bs, b, c);
  }
}
