/** Runs of the allocator on a 64-bit host that go wrong (m_mallocfree.c). */
module ArenaWitnesses {
  import opened SizeClasses
  import opened ArenaState
  import opened ArenaShapes
  import opened ArenaWords
  import opened Options
  import opened ArenaFacts
  import opened ArenaChecks
  import opened Arena
  import opened PowersOfTwo

  const HOST64: Geometry := Geometry(8, 8, 0x1_0000_0000_0000_0000, true)

  /** A region that a new arena may be granted for its first superblock. */
  ghost predicate FirstRegion(grant: Grant, req: nat) {
    grant.addr % PAGE_SIZE == 0 && GrantOk(HOST64, map[], Some(grant), BytesFor(HOST64, 256 * PAGE_SIZE, req))
  }

  lemma EmptyArena(g: Geometry, mem: Memory, sbs: Superblocks, bs: Blocks, lists: seq<seq<nat>>)
    requires Core(g, mem, sbs, bs, lists) && bs == map[]
    ensures sbs == map[]
  {
    assert forall s :: s in sbs ==> SuperblockFits(g, sbs, bs, s);
  }

  // ----- one superblock that is too long

  /** A block with a payload of 2^32 bytes or more is in a superblock that cannot be indexed. */
  lemma HoldsLarge(g: Geometry, mem: Memory, sbs: Superblocks, bs0: Blocks, bs: Blocks, lists: seq<seq<nat>>, p: nat,
                   reqP: nat, req: nat)
    requires Core(g, mem, sbs, bs, lists) && Handed(g, bs0, bs, p, reqP) && Covers(g, bs, p, req) && req >= WORD32
    ensures !Indexable(sbs)
  {
    hide Live, Mapped, TagsOk, ListsOk, AllListed;
    var b := p - g.OverheadLo();
    assert BlockFits(g, sbs, bs, b);
    assert bs[b].sb in sbs && sbs[bs[b].sb] >= WORD32;
  }

  /** After one request for 5 GiB, the sanity check never comes out sane, in however many steps. */
  method BigSuperblock(grant: Grant, steps: nat, junk: int -> nat) returns (r: Outcome, v: Verdict)
    requires FirstRegion(grant, 5 * 0x4000_0000)
    ensures r.Got? && !v.Sane?
  {
    hide Core, Settled, TableOk, Redzones, Paged, Live, AlignReq, BytesFor, Covers, Indexable, GrantOk, Checked;
    hide Heads, LiveWordsKept, TakenFirst, MadeFrom, AllSmaller, OnlyAdds, Handed;
    var req := 5 * 0x4000_0000;
    var a := new Arena(HOST64, 256 * PAGE_SIZE);
    EmptyArena(HOST64, a.mem, a.sbs, a.bs, a.lists);
    ghost var bs0 := a.bs;
    r := a.Malloc(req, Some(grant), true);
    AlignExact(HOST64, req);
    HoldsLarge(a.g, a.mem, a.sbs, bs0, a.bs, a.lists, r.p, AlignReq(HOST64, req), req);
    HeadsLength(a.freelist[..], a.lists);
    v := a.SanityCheck(steps, junk);
  }

  // ----- two blocks that overlap

  /** The alignment, and the request whose base size wraps around to 0. */
  const ALIGN: nat := 4096
  const REQUEST: nat := 0xFFFF_FFFF_FFFF_EFE0
  /** The payload bytes of the first superblock, and the sizes of the fragment and of the block that overlap. */
  const N: nat := 1048552
  const FRAG: nat := 4056
  const SIZE: nat := 0xFFFF_FFFF_FFFF_F048

  lemma WrappedSizes()
    ensures Alignable(ALIGN) && BaseWraps(HOST64, ALIGN, REQUEST) && BaseReq(HOST64, ALIGN, REQUEST) == 0
    ensures BytesFor(HOST64, 256 * PAGE_SIZE, 0) == N + HOST64.Header()
  {
    AlignExact(HOST64, REQUEST);
    AlignExact(HOST64, 0);
    assert Pow2(4) == 16 && Pow2(8) == 256 && Pow2(12) == 4096;
    WrapOnce(AlignReq(HOST64, REQUEST) + HOST64.Overhead() + ALIGN, HOST64.space);
  }

  /** The arena once the base block is there: the block `s + 24` in use and the block `s + 56` free. */
  ghost predicate Laid(h: Heap, s: nat) {
    && s % PAGE_SIZE == 0 && 0 < s && s + 24 + N < HOST64.space
    && (forall a :: s <= a < s + 24 + N ==> a in h.mem)
    && |h.heads| == N_MALLOC_LISTS && h.heads[93] == 0
    && h.mem[s + 24] == 32 && h.mem[s + 48] == 32
    && h.mem[s + 56] == N - 31 && h.mem[s + 16 + N] == N - 31
  }

  lemma FirstLayout(h: Heap, sbs: Superblocks, bs: Blocks, lists: seq<seq<nat>>, s: nat)
    requires Core(HOST64, h.mem, sbs, bs, lists) && Heads(h.heads, lists) && Settled(bs)
    requires s % PAGE_SIZE == 0 && sbs == map[s := N] && s + 24 in bs && Live(HOST64, bs) == map[s + 24 := 0]
    ensures bs[s + 24].size == 32 && Laid(h, s)
  {
    hide ListNo;
    var g := HOST64;
    var b, c := s + 24, s + 56;
    assert b in Live(g, bs);
    assert BlockFits(g, sbs, bs, b) && SuperblockFits(g, sbs, bs, s);
    assert c in bs && bs[c].sb == s;
    assert BlockFits(g, sbs, bs, c);
    assert c !in Live(g, bs);
    assert bs[c].st.Listed?;
    var d := c + bs[c].size;
    assert NotBothFree(bs, c);
    assert d !in Live(g, bs);
    assert d !in bs;
    assert bs[c].size == N - 32;
    assert TagOk(g, h.mem, bs, b) && TagOk(g, h.mem, bs, c);
    OthersEmpty(h, sbs, bs, lists, s);
  }

  lemma HeadOfList(g: Geometry, mem: Memory, bs: Blocks, lno: nat, l: seq<nat>)
    requires ListOk(g, mem, bs, lno, l)
    ensures l == [] ||
      (l[0] in bs && bs[l[0]].st.Listed? && Psz(g, bs[l[0]]) % MIN_SZB == 0 && ListNo(Psz(g, bs[l[0]])) == lno)
  {
  }

  lemma OthersEmpty(h: Heap, sbs: Superblocks, bs: Blocks, lists: seq<seq<nat>>, s: nat)
    requires Core(HOST64, h.mem, sbs, bs, lists) && Heads(h.heads, lists) && sbs == map[s := N]
    requires s + 24 in bs && bs[s + 24].size == 32 && bs[s + 24].st.Used? && s + 56 in bs && bs[s + 56].size == N - 32
    ensures h.heads[93] == 0
  {
    hide ListNo, Mapped, TagsOk, AllListed;
    var g := HOST64;
    LargeList();
    assert ListOk(g, h.mem, bs, 93, lists[93]);
    forall c | c in bs && c != s + 24
      ensures c == s + 56
    {
      assert BlockFits(g, sbs, bs, c);
    }
    HeadOfList(g, h.mem, bs, 93, lists[93]);
  }

  lemma LargeList()
    ensures ListNo(N - 64) == 111 && ListNo(4000) == 93 && ListNo(FRAG - 32) == 93
  {
  }

  /** Where the aligned block is, and how far beyond the end of a base block of no payload. */
  lemma AlignedAt(bs: Blocks, s: nat)
    requires s % PAGE_SIZE == 0 && s + 24 in bs && bs[s + 24].size == 32
    ensures AlignedBeyond(HOST64, bs, s + 24, ALIGN)
    ensures Gap(HOST64, bs, s + 24, ALIGN) == FRAG - 32 == HOST64.space - SIZE
  {
    assert (s + 72) % 4096 == 72;
  }

  lemma FromOverlap(h': Heap, h: Heap, bs: Blocks, s: nat, p: nat)
    requires s % PAGE_SIZE == 0 && s + 24 in bs && bs[s + 24].size == 32
    requires OverlapFrom(HOST64, h', h, bs, s + 24, ALIGN, p)
    ensures h' == Overlap(HOST64, h, s + 24, FRAG, SIZE) && p == Cell(HOST64, s + ALIGN)
  {
    hide Gap, Overlap, Cell;
    AlignedAt(bs, s);
  }

  /** The words of the two blocks that memalign makes. */
  function Overlapped(mem: Memory, s: nat): Memory {
    mem[s + 24 := FRAG + 1][s + 4072 := FRAG + 1][s + 32 := s + 24][s + 4064 := s + 24]
       [s + 4080 := SIZE][s + 48 := SIZE][s + 4088 := 0][s + 40 := 0]
  }

  lemma OverlapWords(h: Heap, s: nat)
    requires Laid(h, s)
    ensures Overlap(HOST64, h, s + 24, FRAG, SIZE) == Heap(Overlapped(h.mem, s), h.heads[93 := s + 24])
  {
    hide Cell, ListNo;
    var g := HOST64;
    LargeList();
    Cells(s);
    assert MarkFree(FRAG) == FRAG + 1 && Plain(FRAG + 1) == FRAG && Plain(SIZE) == SIZE;
  }

  /** The addresses of their words: the tag at the end of the second block and the link before it wrap around. */
  lemma Cells(s: nat)
    requires 0 < s && s + 24 + N < HOST64.space
    ensures forall a :: s <= a < s + 24 + N ==> Cell(HOST64, a) == a
    ensures Cell(HOST64, s + 4080 + SIZE - 8) == s + 48 && Cell(HOST64, s + 4080 + SIZE - 16) == s + 40
  {
    hide Cell;
    forall a | s <= a < s + 24 + N
      ensures Cell(HOST64, a) == a
    {
      CellPlain(HOST64, a);
    }
    CellOver(HOST64, s + 48);
    CellOver(HOST64, s + 40);
  }

  /** And after a request for 4000 bytes, which is served with the first one. */
  function Reused(mem: Memory, s: nat): Memory {
    Overlapped(mem, s)[s + 32 := 0][s + 4064 := 0][s + 24 := FRAG][s + 4072 := FRAG][s + 32 := 0][s + 4064 := 0]
  }

  lemma ReuseWords(h: Heap, s: nat)
    requires Laid(h, s) && 0 < s && s + 24 + N < HOST64.space && |h.heads| == N_MALLOC_LISTS && h.heads[93] == 0
    ensures var h1 := Overlap(HOST64, h, s + 24, FRAG, SIZE);
            && HeadFits(HOST64, h1, 4000) && h1.heads[ListNo(4000)] == s + 24
            && TakeHead(HOST64, h1, 4000) == Heap(Reused(h.mem, s), h.heads)
  {
    hide Cell, ListNo, Overlap, InuseWords, UnlinkedWords, Laid;
    LargeList();
    Cells(s);
    OverlapWords(h, s);
    var m := Overlapped(h.mem, s);
    Unlinked(m, s);
    Inuse(m[s + 32 := 0][s + 4064 := 0], s);
    assert Plain(FRAG + 1) == FRAG;
    assert h.heads[93 := s + 24][93 := 0] == h.heads;
  }

  lemma Unlinked(m: Memory, s: nat)
    requires 0 < s && s + 24 + N < HOST64.space
    requires s + 24 in m && m[s + 24] == FRAG + 1 && s + 32 in m && m[s + 32] == s + 24
    ensures UnlinkedWords(HOST64, m, s + 24) == m[s + 32 := 0][s + 4064 := 0]
  {
    hide Cell;
    Cells(s);
    assert Plain(FRAG + 1) == FRAG;
  }

  lemma Inuse(m: Memory, s: nat)
    requires 0 < s && s + 24 + N < HOST64.space
    ensures InuseWords(HOST64, m, s + 24, FRAG) == m[s + 24 := FRAG][s + 4072 := FRAG][s + 32 := 0][s + 4064 := 0]
  {
    hide Cell;
    Cells(s);
    assert Plain(FRAG) == FRAG;
  }

  /** The three blocks that the walk takes for the whole of the superblock; the second one makes its index wrap
      around. */
  ghost predicate ThreeBlocks(mem: Memory, s: nat, first: nat) {
    && (forall a :: s <= a < s + 24 + N ==> a in mem)
    && (first == FRAG || first == FRAG + 1) && mem[s + 24] == first && mem[s + 4072] == first
    && mem[s + 4080] == SIZE && mem[s + 48] == SIZE
  }

  /** One step of the walk, over a block at which nothing fails. */
  lemma WalkOn(mem: Memory, junk: int -> nat, start: nat, n: nat, i: nat, lastWasFree: bool, steps: nat, loan: nat,
               nfree: nat)
    requires i < n && steps > 0 && !StepFails(HOST64, mem, junk, start + i, lastWasFree)
    ensures var lo := WordAt(mem, start + i, junk);
            && (lo % 2 == 0 ==> lo >= 32)
            && Walk(HOST64, mem, junk, start, n, i, lastWasFree, steps, loan, nfree) ==
               Walk(HOST64, mem, junk, start, n, Low32(i + Plain(lo)), lo % 2 != 0, steps - 1,
                    if lo % 2 == 0 then loan + (lo - 32) else loan, if lo % 2 == 0 then nfree else nfree + 1)
  {
  }

  lemma WalkToThird(mem: Memory, s: nat, first: nat, junk: int -> nat, steps: nat)
    requires 0 < s && s + 24 + N < HOST64.space && ThreeBlocks(mem, s, first) && steps >= 3
    ensures Walk(HOST64, mem, junk, s + 24, N, 0, false, steps, 0, 0) ==
            Walk(HOST64, mem, junk, s + 24, N, 32, false, steps - 2,
                 if first == FRAG then FRAG - 32 + (SIZE - 32) else SIZE - 32, if first == FRAG then 0 else 1)
  {
    hide Cell, Walk, RedzoneSane;
    Cells(s);
    assert Plain(first) == FRAG && Plain(SIZE) == SIZE;
    var l, f := if first == FRAG then FRAG - 32 else 0, if first == FRAG then 0 else 1;
    WalkOn(mem, junk, s + 24, N, 0, false, steps, 0, 0);
    WalkOn(mem, junk, s + 24, N, FRAG, first % 2 != 0, steps - 1, l, f);
    assert Low32(FRAG + SIZE) == 32;
  }

  lemma WalkThird(mem: Memory, s: nat, junk: int -> nat, steps: nat, loan: nat, nfree: nat)
    requires 0 < s && s + 24 + N < HOST64.space && steps >= 1 && (forall a :: s <= a < s + 24 + N ==> a in mem)
    ensures mem[s + 56] == N - 31 == mem[s + 16 + N] ==>
      Walk(HOST64, mem, junk, s + 24, N, 32, false, steps, loan, nfree).v.Sane?
    ensures mem[s + 56] == 0 ==> Walk(HOST64, mem, junk, s + 24, N, 32, false, steps, loan, nfree).v.Bomb?
  {
    hide Cell, RedzoneSane;
    Cells(s);
    if mem[s + 56] == N - 31 == mem[s + 16 + N] { WalkOn(mem, junk, s + 24, N, 32, false, steps, loan, nfree); }
  }

  /** What the walk over the superblock says. */
  function Look(mem: Memory, s: nat, junk: int -> nat, steps: nat): Verdict {
    Walk(HOST64, mem, junk, s + 24, N, 0, false, steps, 0, 0).v
  }

  lemma Looked(mem: Memory, s: nat, first: nat, junk: int -> nat, steps: nat)
    requires 0 < s && s + 24 + N < HOST64.space && ThreeBlocks(mem, s, first) && steps >= 3
    ensures mem[s + 56] == N - 31 == mem[s + 16 + N] ==> Look(mem, s, junk, steps).Sane?
    ensures mem[s + 56] == 0 ==> Look(mem, s, junk, steps).Bomb?
  {
    hide Walk;
    WalkToThird(mem, s, first, junk, steps);
    var loan, nfree := if first == FRAG then FRAG - 32 + (SIZE - 32) else SIZE - 32, if first == FRAG then 0 else 1;
    WalkThird(mem, s, junk, steps - 2, loan, nfree);
  }

  /** The three states in which the superblock is walked. */
  lemma Verdicts(h: Heap, s: nat, junk: int -> nat, steps: nat)
    requires Laid(h, s) && steps >= 3
    ensures var h1 := Overlap(HOST64, h, s + 24, FRAG, SIZE);
            && Cell(HOST64, s + ALIGN) == s + ALIGN && |h1.heads| == N_MALLOC_LISTS
            && HeadFits(HOST64, h1, 4000) && h1.heads[ListNo(4000)] == s + 24
            && Look(h1.mem, s, junk, steps).Sane?
            && var h2 := TakeHead(HOST64, h1, 4000);
               Look(h2.mem, s, junk, steps).Sane? && Look(h2.mem[s + 56 := 0], s, junk, steps).Bomb?
  {
    hide Overlap, TakeHead, HeadFits, Look, ListNo, Cell;
    Cells(s);
    OverlapWords(h, s);
    ReuseWords(h, s);
    var m1, m2 := Overlapped(h.mem, s), Reused(h.mem, s);
    Looked(m1, s, FRAG + 1, junk, steps);
    Looked(m2, s, FRAG, junk, steps);
    Looked(m2[s + 56 := 0], s, FRAG, junk, steps);
  }

  lemma FirstBase(mem: Memory, sbs: Superblocks, bs: Blocks, lists: seq<seq<nat>>, grant: Grant)
    requires Core(HOST64, mem, sbs, bs, lists) && BaseBlock(HOST64, map[], bs, grant.addr + 24)
    requires OnlyAdds(HOST64, map[], sbs, Some(grant), N + 24) && bs[grant.addr + 24].size == 32
    ensures sbs == map[grant.addr := N] && Live(HOST64, bs) == map[grant.addr + 24 := 0]
  {
    hide Core, NoFreeBefore;
    SomeSuperblock(HOST64, mem, sbs, bs, lists, grant.addr + 24);
    assert Live(HOST64, map[]) == map[];
  }

  /** Three requests that end with a failing check: an aligned block, for which a pointer is returned; 4000 bytes, for
      which the fragment in front of it is reused; and a store of one word into the payload of the second. The walk over
      the superblock comes out sane after the first and after the second, and fails after the third, which has
      overwritten a tag. */
  method OverlappingBlocks(grant: Grant, junk: int -> nat, steps: nat)
    returns (p: nat, q: nat, v1: Verdict, v2: Verdict, v3: Verdict)
    requires FirstRegion(grant, 0) && steps >= 3
    ensures p == grant.addr + ALIGN && q == grant.addr + 40 && v1.Sane? && v2.Sane? && v3.Bomb?
  {
    hide Core, Heads, Settled, TableOk, Redzones, Paged, Live, AlignReq, BytesFor, BaseReq, GrantOk, Alignable;
    hide Serveable, Look, Overlap;
    hide Cell, HeadFits, TakeHead, Laid, BaseBlock, OverlapFrom, AlignedBeyond, Gap, AlignUpwards, OnlyAdds, ListNo;
    hide LiveWordsKept, HandedAtLeast, Deliverable, BaseWraps;
    var a := new Arena(HOST64, 256 * PAGE_SIZE);
    EmptyArena(HOST64, a.mem, a.sbs, a.bs, a.lists);
    WrappedSizes();
    var s := grant.addr;
    ghost var at;
    var r;
    r, at := a.Memalign(ALIGN, REQUEST, Some(grant), true);
    AlignedAt(at.blocks, s);
    p := r.p;
    FirstBase(at.heap.mem, a.sbs, a.bs, a.lists, grant);
    FirstLayout(at.heap, a.sbs, a.bs, a.lists, s);
    Verdicts(at.heap, s, junk, steps);
    var h := Heap(a.mem, a.freelist[..]);
    FromOverlap(h, at.heap, a.bs, s, p);
    v1 := Look(h.mem, s, junk, steps);
    q := h.heads[ListNo(4000)] + HOST64.OverheadLo();
    h := TakeHead(HOST64, h, 4000);
    v2 := Look(h.mem, s, junk, steps);
    v3 := Look(h.mem[q + 16 := 0], s, junk, steps);
  }
}
