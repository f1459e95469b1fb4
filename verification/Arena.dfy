/** The arena allocator: arena_malloc, arena_free, arena_memalign and its sanity checker (m_mallocfree.c). */
module Arena {
  import opened SizeClasses
  import opened ArenaState
  import opened ArenaSteps
  import opened ArenaWords
  import opened ArenaShapes
  import opened ArenaCounts
  import opened MapSums
  import opened PowersOfTwo
  import opened Options
  import opened ArenaFacts
  import opened ArenaChecks
  import opened ArenaSane

  /** An arena: the words it reads and writes, its lists, its superblock table and its counters; and, as ghosts, the
      superblocks, the blocks that tile them, and the contents of the lists. */
  class Arena {
    const g: Geometry
    const minSblock: nat
    var mem: Memory
    const freelist: array<nat>
    const sblocksInitial: array<nat>
    var sblocks: array<nat>
    var sblocksUsed: nat
    var bytesOnLoan: nat
    var bytesMmaped: nat
    var bytesOnLoanMax: nat

    ghost var sbs: Superblocks
    ghost var bs: Blocks
    ghost var lists: seq<seq<nat>>

    ghost predicate CoreInv()
      reads this, freelist
      ensures CoreInv() ==> g.Valid()
    {
      && Core(g, mem, sbs, bs, lists)
      && Heads(freelist[..], lists)
    }

    ghost predicate TableInv()
      reads this, sblocks
    {
      && sblocks != freelist && sblocksInitial != freelist
      && sblocksUsed <= sblocks.Length
      && SBLOCKS_SIZE_INITIAL <= sblocks.Length
      && TableFits(g, sblocks.Length)
      && (sblocks.Length == SBLOCKS_SIZE_INITIAL <==> sblocks == sblocksInitial)
      && TableOk(sblocks[..sblocksUsed], sbs) && Paged(g, sbs)
      && bytesMmaped == Total(sbs, g.Header())
      && minSblock % PAGE_SIZE == 0 && 16 * PAGE_SIZE <= minSblock <= 4096 * PAGE_SIZE
    }

    /** The invariant between operations. */
    ghost predicate Valid()
      reads this, freelist, sblocks
      ensures Valid() ==> g.Valid()
    {
      && CoreInv()
      && TableInv()
      && Settled(bs) && Redzones(g, mem, bs)
      && bytesOnLoan == Sum(Live(g, bs)) && bytesOnLoan <= bytesOnLoanMax
    }

    constructor (g: Geometry, minSblock: nat)
      requires g.Valid() && minSblock % PAGE_SIZE == 0 && 16 * PAGE_SIZE <= minSblock <= 4096 * PAGE_SIZE
      ensures Valid() && fresh(freelist) && fresh(sblocks)
      ensures bs == map[] && sblocks.Length == SBLOCKS_SIZE_INITIAL && this.g == g && this.minSblock == minSblock
    {
      this.g, this.minSblock := g, minSblock;
      mem := map[];
      freelist := new nat[N_MALLOC_LISTS](i => 0);
      sblocksInitial := new nat[SBLOCKS_SIZE_INITIAL](i => 0);
      sblocks := sblocksInitial;
      sblocksUsed, bytesOnLoan, bytesMmaped, bytesOnLoanMax := 0, 0, 0, 0;
      sbs, bs, lists := map[], map[], seq(N_MALLOC_LISTS, i => []);
      new;
      hide UnitListNo, Tiled, Distinct;
      assert Live(g, bs) == map[];
    }

    // ----- reading a block

    /** get_bszB_as_is: the size word, whose low and high copies must agree. */
    function BszBAsIs(b: nat): (v: nat)
      requires CoreInv() && b in bs && !bs[b].st.Loose?
      reads this, freelist
      ensures v == Tag(bs[b])
    {
      Readable(g, mem, sbs, bs, b);
      PlainTag(bs[b]);
      assert TagOk(g, mem, bs, b);
      var lo := mem[b];
      var hi := mem[b + Plain(lo) - g.W];
      assert lo == hi;
      lo
    }

    function BszB(b: nat): (v: nat)
      requires CoreInv() && b in bs && !bs[b].st.Loose?
      reads this, freelist
      ensures v == bs[b].size
    {
      assert BlockFits(g, sbs, bs, b);
      PlainTag(bs[b]);
      Plain(BszBAsIs(b))
    }

    predicate IsInuse(b: nat)
      requires CoreInv() && b in bs && !bs[b].st.Loose?
      reads this, freelist
      ensures IsInuse(b) <==> bs[b].st.Used?
    {
      assert BlockFits(g, sbs, bs, b);
      PlainTag(bs[b]);
      BszBAsIs(b) % 2 == 0
    }

    function PrevB(b: nat): (v: nat)
      requires CoreInv() && b in bs
      reads this, freelist
      ensures v == Read(mem, PrevCell(g, b))
    {
      Readable(g, mem, sbs, bs, b);
      mem[b + g.W]
    }

    function NextB(b: nat): (v: nat)
      requires CoreInv() && b in bs && !bs[b].st.Loose?
      reads this, freelist
      ensures v == Read(mem, NextCell(g, bs, b))
    {
      Readable(g, mem, sbs, bs, b);
      mem[b + BszB(b) - 2 * g.W]
    }

    // ----- writing a block

    /** A store into a block that is loose. */
    method StoreLoose(ghost b: nat, a: nat, v: nat)
      requires CoreInv() && b in bs && bs[b].st.Loose? && b <= a < b + bs[b].size
      modifies this`mem
      ensures CoreInv() && mem == old(mem)[a := v]
      ensures LiveWordsKept(old(mem), mem, bs)
    {
      LooseWrite(g, mem, sbs, bs, lists, b, a, v);
      WriteKeepsLive(g, mem, sbs, bs, b, a, v);
      mem := mem[a := v];
    }

    /** set_bszB on a loose block. */
    method SetTags(b: nat, bszB: nat)
      requires CoreInv() && b in bs && bs[b].st.Loose? && bs[b].size == Plain(bszB)
      modifies this`mem
      ensures CoreInv()
      ensures mem == Tagged(g, old(mem), b, bszB)
      ensures Read(mem, b) == bszB && Read(mem, HighCell(g, bs, b)) == bszB
      ensures LiveWordsKept(old(mem), mem, bs)
    {
      hide Cell;
      Readable(g, mem, sbs, bs, b);
      InSpace(g, sbs, bs, b);
      StoreLoose(b, b, bszB);
      StoreLoose(b, b + Plain(bszB) - g.W, bszB);
    }

    /** The redzones of a block, filled in from both ends of them. */
    method PaintRedzones(b: nat, bszB: nat)
      requires CoreInv() && b in bs && bs[b].st.Loose? && bs[b].size == bszB
      requires Read(mem, b) == bszB && Read(mem, HighCell(g, bs, b)) == bszB
      modifies this`mem
      ensures CoreInv() && mem == Painted(g, old(mem), b, bszB, g.rz)
      ensures Read(mem, b) == bszB && Read(mem, HighCell(g, bs, b)) == bszB
      ensures LiveWordsKept(old(mem), mem, bs)
    {
      hide Core, LiveWordsKept, Heads, Cell, RzWord, Painted;
      KeptSame(mem, bs);
      WholeWords(g);
      CoreSpace(g, mem, sbs, bs, lists, b);
      PaintedStep(g, mem, b, bszB, 0);
      var d := 0;
      while d < g.rz
        invariant CoreInv() && d <= g.rz && WordMultiple(g, g.rz - d) && mem == Painted(g, old(mem), b, bszB, d)
        invariant Read(mem, b) == bszB && Read(mem, HighCell(g, bs, b)) == bszB
        invariant LiveWordsKept(old(mem), mem, bs)
      {
        NextWord(g, g.rz - d);
        PaintedStep(g, old(mem), b, bszB, d);
        d := d + g.W;
        ghost var mem1 := mem;
        StoreLoose(b, b + d, RzWord(g, b, REDZONE_LO_MASK));
        ghost var mem2 := mem;
        StoreLoose(b, b + bszB - g.W - d, RzWord(g, b, REDZONE_HI_MASK));
        KeptTwice(mem1, mem2, mem, bs, bs);
        KeptTwice(old(mem), mem1, mem, bs, bs);
      }
    }

    /** mkInuseBlock. */
    method MkInuseBlock(b: nat, bszB: nat)
      requires CoreInv() && b in bs && bs[b].st.Loose? && bs[b].size == bszB
      modifies this`mem, this`bs
      ensures CoreInv() && bs == old(bs)[b := old(bs)[b].(st := Used)]
      ensures mem == InuseWords(g, old(mem), b, bszB)
      ensures g.clientmem || RedzoneOf(g, mem, b, bszB)
      ensures LiveWordsKept(old(mem), mem, old(bs))
    {
      hide Core, LiveWordsKept, Heads, Cell, Tagged, Painted, RedzoneOf;
      CoreSpace(g, mem, sbs, bs, lists, b);
      SetTags(b, bszB);
      ghost var mem1 := mem;
      ClearLinks(b, bszB);
      ghost var mem2 := mem;
      if !g.clientmem {
        PaintRedzones(b, bszB);
        PaintedIsSane(g, mem2, sbs, bs, lists, b);
      }
      KeptTwice(mem1, mem2, mem, bs, bs);
      KeptTwice(old(mem), mem1, mem, bs, bs);
      UseCore(g, mem, sbs, bs, lists, b);
      bs := bs[b := bs[b].(st := Used)];
    }

    /** A loose block whose tags already say that it is free, and the list it belongs on. */
    ghost predicate TaggedFree(b: nat, lno: nat)
      reads this
    {
      && b in bs && bs[b].st.Loose?
      && Read(mem, b) == bs[b].size + 1 && Read(mem, HighCell(g, bs, b)) == bs[b].size + 1
      && lno < N_MALLOC_LISTS && Psz(g, bs[b]) % MIN_SZB == 0 && lno == ListNo(Psz(g, bs[b]))
    }

    /** mkFreeBlock, when the list is empty. */
    method StartRing(b: nat, bszB: nat, lno: nat)
      requires CoreInv() && TaggedFree(b, lno) && bs[b].size == bszB && freelist[lno] == 0
      modifies this`mem, this`bs, this`lists, freelist
      ensures CoreInv() && bs == old(bs)[b := old(bs)[b].(st := Listed)]
      ensures mem == Linking(g, old(mem), b, bszB, b, b) && freelist[..] == old(freelist[..])[lno := b]
      ensures LiveWordsKept(old(mem), mem, bs)
    {
      hide UnitListNo, ListNo, AllListed, Mapped, TagsOk, Tiled, Cell;
      ghost var l := lists[lno];
      assert ListOk(g, mem, bs, lno, l);
      HeadNonzero(g, mem, sbs, bs, lno, l);
      Readable(g, mem, sbs, bs, b);
      InSpace(g, sbs, bs, b);
      StoreLoose(b, b + g.W, b);
      StoreLoose(b, b + bszB - 2 * g.W, b);
      LinkCore(g, mem, sbs, bs, lists, lno, b);
      freelist[lno] := b;
      bs, lists := bs[b := bs[b].(st := Listed)], lists[lno := l + [b]];
    }

    /** mkFreeBlock, when the list has blocks: in between the last and the first. */
    method ExtendRing(b: nat, bszB: nat, lno: nat)
      requires CoreInv() && TaggedFree(b, lno) && bs[b].size == bszB && freelist[lno] != 0
      modifies this`mem, this`bs, this`lists
      ensures CoreInv() && bs == old(bs)[b := old(bs)[b].(st := Listed)]
      ensures mem == RingWords(g, old(mem), b, bszB, freelist[lno])
      ensures LiveWordsKept(old(mem), mem, bs)
    {
      hide Core, Heads, ListNo, LiveWordsKept, RingWords;
      HeadIs(freelist[..], lists, lno, b);
      assert freelist[..][lno] == freelist[lno];
      ghost var l := lists[lno];
      Neighbours(g, mem, sbs, bs, lists, lno, 0);
      var bPrev := PrevB(freelist[lno]);
      var bNext := freelist[lno];
      var prevSz := BszB(bPrev);
      RingCells(g, mem, sbs, bs, lists, b, bPrev, bNext);
      JoinRing(g, mem, sbs, bs, lists, lno, b);
      mem := mem[bPrev + prevSz - 2 * g.W := b];
      mem := mem[bNext + g.W := b];
      mem := mem[b + bszB - 2 * g.W := bNext];
      mem := mem[b + g.W := bPrev];
      bs, lists := bs[b := bs[b].(st := Listed)], lists[lno := l + [b]];
      KeptOnly(old(mem), mem, old(bs), bs);
    }

    method MkFreeBlock(b: nat, bszB: nat, lno: nat)
      requires CoreInv() && b in bs && bs[b].st.Loose? && bs[b].size == bszB
      requires Psz(g, bs[b]) % MIN_SZB == 0 && lno == ListNo(Psz(g, bs[b]))
      modifies this`mem, this`bs, this`lists, freelist
      ensures CoreInv() && bs == old(bs)[b := old(bs)[b].(st := Listed)]
      ensures Heap(mem, freelist[..]) == FreeWords(g, Heap(old(mem), old(freelist[..])), b, bszB, lno)
      ensures LiveWordsKept(old(mem), mem, bs)
    {
      hide Tagged, Linking, RingWords;
      Readable(g, mem, sbs, bs, b);
      SetTags(b, MarkFree(bszB));
      if freelist[lno] == 0 {
        StartRing(b, bszB, lno);
      } else {
        ExtendRing(b, bszB, lno);
      }
    }

    // ----- taking a block off its list

    /** swizzle: try to make a block at a lower address the head of the list. */
    method Swizzle(lno: nat)
      requires CoreInv() && lno < N_MALLOC_LISTS
      modifies this`lists, freelist
      ensures CoreInv() && Swizzled(old(lists)[lno], lists[lno]) && lists == old(lists)[lno := lists[lno]]
      ensures freelist[lno] == if lists[lno] == [] then 0 else lists[lno][0]
    {
      hide Core, Heads, Swizzled, Ahead, Behind, LowestSoFar;
      HeadOf(g, mem, sbs, bs, lists, freelist[..], lno);
      assert freelist[..][lno] == freelist[lno];
      var best := freelist[lno];
      if best == 0 {
        NothingToSwizzle();
        return;
      }
      var pn, pp := best, best;
      ghost var l := lists[lno];
      ghost var kb := 0;
      StartLow(l);
      for i := 0 to 5
        invariant CoreInv() && lists == old(lists) && freelist[..] == old(freelist[..])
        invariant pn == l[Ahead(i, |l|)] && pp == l[Behind(i, |l|)] && 0 <= kb < |l| && best == l[kb]
        invariant pn in bs && bs[pn].st.Listed? && pp in bs && bs[pp].st.Listed? && LowestSoFar(l, i, best)
      {
        Neighbours(g, mem, sbs, bs, lists, lno, Ahead(i, |l|));
        Neighbours(g, mem, sbs, bs, lists, lno, Behind(i, |l|));
        OneMoreStep(l, i, best, kb);
        pn := NextB(pn);
        pp := PrevB(pp);
        if pn < best { best, kb := pn, Ahead(i + 1, |l|); }
        if pp < best { best, kb := pp, Behind(i + 1, |l|); }
      }
      SwizzledIs(l, kb);
      if best < freelist[lno] {
        RotateCore(g, mem, sbs, bs, lists, lno, kb);
        HeadsRotated(freelist[..], lists, lno, kb);
        freelist[lno] := best;
        lists := lists[lno := Rotate(l, kb)];
      } else {
        HeadStays(l, best);
      }
    }

    /** unlinkBlock, when the list has other blocks: the neighbours are joined and the previous one becomes the head. */
    method LeaveRing(b: nat, listno: nat, ghost k: nat)
      requires CoreInv() && b in bs && bs[b].st.Listed? && listno < N_MALLOC_LISTS
      requires k < |lists[listno]| && lists[listno][k] == b && |lists[listno]| > 1
      modifies this`mem, this`bs, this`lists, freelist
      ensures CoreInv() && bs == old(bs)[b := old(bs)[b].(st := Loose)]
      ensures mem == Joining(g, old(mem), old(PrevB(b)), old(NextB(b)), old(NextB(b)), old(PrevB(b)))
      ensures lists == old(lists)[listno := WithoutFrom(old(lists)[listno], k)]
      ensures LiveWordsKept(old(mem), mem, old(bs))
    {
      hide UnitListNo, ListNo, Core, LiveWordsKept, ListOk, ListsOk, AllListed, Mapped, TagsOk, Tiled, Joining;
      ghost var l := lists[listno];
      Neighbours(g, mem, sbs, bs, lists, listno, k);
      JoiningCells(g, mem, sbs, bs, lists, PrevB(b), NextB(b));
      var bPrev := PrevB(b);
      var bNext := NextB(b);
      var prevSz := BszB(bPrev);
      LeaveCore(g, mem, sbs, bs, lists, listno, k);
      freelist[listno] := bPrev;
      mem := mem[bPrev + prevSz - 2 * g.W := bNext];
      mem := mem[bNext + g.W := bPrev];
      bs, lists := bs[b := bs[b].(st := Loose)], lists[listno := WithoutFrom(l, k)];
    }

    /** unlinkBlock, when the block is alone on its list. */
    method EmptyList(b: nat, listno: nat, ghost k: nat)
      requires CoreInv() && b in bs && bs[b].st.Listed? && listno < N_MALLOC_LISTS
      requires k < |lists[listno]| && lists[listno][k] == b && |lists[listno]| == 1
      modifies this`bs, this`lists, freelist
      ensures CoreInv() && bs == old(bs)[b := old(bs)[b].(st := Loose)]
      ensures freelist[..] == old(freelist[..])[listno := 0] && lists == old(lists)[listno := []]
    {
      hide Core, ListNo;
      ghost var l := lists[listno];
      UnlinkCore(g, mem, sbs, bs, lists, listno, k);
      freelist[listno] := 0;
      assert Before(l, k) == [];
      bs, lists := bs[b := bs[b].(st := Loose)], lists[listno := Before(l, k)];
    }

    /** The end of unlinkBlock: the links of the block are cleared. */
    method ClearLinks(b: nat, bszB: nat)
      requires CoreInv() && b in bs && bs[b].st.Loose? && bs[b].size == bszB
      modifies this`mem
      ensures CoreInv() && mem == old(mem)[b + g.W := 0][b + bszB - 2 * g.W := 0]
      ensures LiveWordsKept(old(mem), mem, bs)
    {
      hide Core, LiveWordsKept, Heads;
      CoreReadable(g, mem, sbs, bs, lists, b);
      StoreLoose(b, b + g.W, 0);
      ghost var mem1 := mem;
      StoreLoose(b, b + bszB - 2 * g.W, 0);
      KeptTwice(old(mem), mem1, mem, bs, bs);
    }

    method UnlinkBlock(b: nat, listno: nat)
      requires CoreInv() && b in bs && bs[b].st.Listed? && listno < N_MALLOC_LISTS && b in lists[listno]
      modifies this`mem, this`bs, this`lists, freelist
      ensures CoreInv() && bs == old(bs)[b := old(bs)[b].(st := Loose)]
      ensures mem == UnlinkedWords(g, old(mem), b)
      ensures old(PrevB(b)) == b ==> freelist[..] == old(freelist[..])[listno := 0]
      ensures exists k :: 0 <= k < |old(lists)[listno]| && old(lists)[listno][k] == b
                          && Swizzled(LeftBy(old(lists)[listno], k), lists[listno])
      ensures LiveWordsKept(old(mem), mem, old(bs))
    {
      hide Core, LiveWordsKept, Swizzled, Joining, UnlinkedWords, NextCell, PrevCell, Tag;
      ghost var k :| 0 <= k < |lists[listno]| && lists[listno][k] == b;
      LinksOf(g, mem, sbs, bs, lists, listno, k);
      var bszB := BszB(b);
      if PrevB(b) == b {
        assert NextB(b) == b;
        KeptSame(mem, bs);
        EmptyList(b, listno, k);
        NothingToSwizzle();
      } else {
        LeaveRing(b, listno, k);
        Swizzle(listno);
      }
      ghost var mem1 := mem;
      ClearLinks(b, bszB);
      KeptTwice(old(mem), mem1, mem, old(bs), bs);
    }

    // ----- superblocks

    /** findSb: binary search of the table. None stands for the panic of a failed search. */
    method FindSb(b: nat) returns (r: Option<nat>)
      requires CoreInv() && TableInv()
      ensures r.Some? ==> r.value in sbs && Start(g, r.value) <= b < End(g, sbs, r.value)
      ensures r.None? ==> forall s :: s in sbs ==> !(Start(g, s) <= b < End(g, sbs, s))
    {
      hide UnitListNo, AllListed, ListsOk, Heads, Sum, Total, EndBelow, StartAbove, Tiled, Mapped, TagsOk, TableOk;
      ghost var t := sblocks[..sblocksUsed];
      NotLookedYet(g, t, sbs, b);
      var min, max := 0, sblocksUsed;
      ghost var top: int := max;
      while min <= max
        invariant 0 <= min <= sblocksUsed && -1 <= top <= sblocksUsed
        invariant max == top || (top == -1 && max == g.space - 1 && min == 0)
        invariant EndBelow(g, t, sbs, min, b)
        invariant StartAbove(g, t, top + 1, b)
        decreases if top == -1 then 0 else max - min + 1
      {
        var pos := min + (max - min) / 2;
        if pos >= sblocksUsed {
          NotInTable(g, t, sbs, min, top + 1, b);
          return None;
        }
        var sb := sblocks[pos];
        assert t[pos] == sb;
        SuperblockMapped(g, mem, sbs, bs, sb);
        var nPayload := mem[sb];
        if Start(g, sb) <= b && b < Start(g, sb) + nPayload {
          return Some(sb);
        } else if Start(g, sb) <= b {
          TableBelow(g, t, sbs, bs, pos, b);
          min := pos + 1;
        } else {
          TableAbove(g, t, sbs, pos, b);
          top := pos - 1;
          max := if pos == 0 then g.space - 1 else pos - 1;
        }
      }
      NotInTable(g, t, sbs, min, top + 1, b);
      return None;
    }

    /** newSuperblock, given the answer of the address space manager. */
    method NewSuperblock(bszB: nat, grant: Grant) returns (sb: nat, n: nat)
      requires g.Valid() && CoreInv() && bytesMmaped == Total(sbs, g.Header()) && bszB < g.space
      requires GrantOk(g, sbs, Some(grant), SuperblockBytes(g, minSblock, bszB))
      modifies this`mem, this`bytesMmaped, this`sbs, this`bs
      ensures CoreInv() && sb == grant.addr && sb !in old(sbs) && Start(g, sb) !in old(bs)
      ensures n + g.Header() == SuperblockBytes(g, minSblock, bszB) && n >= g.Overhead() && n % MIN_SZB == 0
      ensures sbs == old(sbs)[sb := n] && bs == old(bs)[Start(g, sb) := Block(sb, n, Loose)]
      ensures bytesMmaped == Total(sbs, g.Header())
      ensures LiveWordsKept(old(mem), mem, old(bs))
    {
      hide Core, Heads, Sum, Total, LiveWordsKept, SuperblockBytes, GrantOk, GrantedMemory, Geometry.Valid;
      var cszB := SuperblockBytes(g, minSblock, bszB);
      Granted(g, mem, sbs, bs, lists, minSblock, bszB, grant);
      sb := grant.addr;
      n := cszB - g.Header();
      TotalAdd(sbs, g.Header(), sb, n);
      mem := GrantedMemory(mem, grant, n);
      bytesMmaped := bytesMmaped + cszB;
      sbs, bs := sbs[sb := n], bs[Start(g, sb) := Block(sb, n, Loose)];
    }

    /** The table is replaced by one of twice the size, from the address space manager. */
    method EnlargeTable()
      requires sblocksUsed <= sblocks.Length
      modifies this`sblocks
      ensures fresh(sblocks) && sblocks.Length == 2 * old(sblocks.Length)
      ensures sblocks[..sblocksUsed] == old(sblocks[..sblocksUsed])
    {
      var bigger := new nat[2 * sblocks.Length](i => 0);
      for i := 0 to sblocksUsed
        invariant sblocks == old(sblocks) && sblocks[..] == old(sblocks[..])
        invariant bigger[..i] == sblocks[..i]
      {
        bigger[i] := sblocks[i];
      }
      sblocks := bigger;
    }

    /** The superblock is placed in the table by shifting the ones at higher addresses up. */
    method PlaceInTable(sb: nat)
      requires sblocksUsed < sblocks.Length && sb in sbs && TableOk(sblocks[..sblocksUsed], sbs - {sb})
      modifies this`sblocksUsed, sblocks
      ensures sblocksUsed == old(sblocksUsed) + 1 && TableOk(sblocks[..sblocksUsed], sbs)
    {
      hide TableOk;
      var i := ShiftInto(sblocks, sblocksUsed, sb);
      TableInsert(old(sblocks[..sblocksUsed]), i, sbs, sb);
      sblocksUsed := sblocksUsed + 1;
    }

    /** The superblock joins the table. False stands for running out of memory for a larger table. */
    method AddToTable(sb: nat, tableGrant: bool) returns (ok: bool)
      requires sblocks != freelist && sblocksInitial != freelist
      requires sblocksUsed <= sblocks.Length && SBLOCKS_SIZE_INITIAL <= sblocks.Length && TableFits(g, sblocks.Length)
      requires sblocks.Length == SBLOCKS_SIZE_INITIAL <==> sblocks == sblocksInitial
      requires sb in sbs && TableOk(sblocks[..sblocksUsed], sbs - {sb})
      requires tableGrant ==> TableRoom(g, sblocks.Length)
      modifies this`sblocks, this`sblocksUsed, sblocks
      ensures sblocks != freelist && (sblocks == old(sblocks) || fresh(sblocks))
      ensures sblocksUsed <= sblocks.Length && SBLOCKS_SIZE_INITIAL <= sblocks.Length && TableFits(g, sblocks.Length)
      ensures sblocks.Length == SBLOCKS_SIZE_INITIAL <==> sblocks == sblocksInitial
      ensures ok ==> TableOk(sblocks[..sblocksUsed], sbs)
      ensures old(sblocksUsed < sblocks.Length) ==> ok && sblocks == old(sblocks)
      ensures old(sblocksUsed == sblocks.Length) ==>
        ok == tableGrant && (ok ==> sblocks.Length == 2 * old(sblocks.Length))
    {
      hide TableOk;
      if sblocksUsed == sblocks.Length {
        if !tableGrant {
          return false;
        }
        EnlargeTable();
      }
      PlaceInTable(sb);
      return true;
    }

    // ----- looking for a free block

    /** Walk one list round for a block of at least `reqB` bytes; 0 if it has none. */
    method ScanList(lno: nat, reqB: nat) returns (b: nat)
      requires CoreInv() && lno < N_MALLOC_LISTS && ListOk(g, mem, bs, lno, lists[lno])
      ensures b == 0 ==> forall i :: 0 <= i < |lists[lno]| ==> lists[lno][i] in bs && bs[lists[lno][i]].size < reqB
      ensures b != 0 ==> b in lists[lno] && b in bs && bs[b].st.Listed? && FirstOf(bs, lists[lno], reqB, b)
    {
      hide UnitListNo, ListNo, AllListed, Mapped, TagsOk, Tiled, Distinct;
      b := freelist[lno];
      ghost var l := lists[lno];
      HeadNonzero(g, mem, sbs, bs, lno, l);
      if b == 0 {
        return;
      }
      ghost var i := 0;
      while true
        invariant 0 <= i < |l| && b == l[i]
        invariant forall k :: 0 <= k < i ==> l[k] in bs && bs[l[k]].size < reqB
        decreases |l| - i
      {
        Readable(g, mem, sbs, bs, b);
        if BszB(b) >= reqB {
          return;
        }
        assert LinkedAt(g, mem, bs, l, i);
        b := NextB(b);
        if b == freelist[lno] {
          RingClosed(l, i);
          return 0;
        }
        i := i + 1;
      }
    }

    /** The scan of arena_malloc: the lists from the request's own upwards. */
    method Scan(reqP: nat, reqB: nat) returns (b: nat, lno: nat)
      requires CoreInv() && reqP % MIN_SZB == 0
      ensures b == 0 ==> lno == N_MALLOC_LISTS && NoneFrom(g, bs, ListNo(reqP), reqB)
      ensures b != 0 ==>
        ListNo(reqP) <= lno < N_MALLOC_LISTS && b in lists[lno] && b in bs && bs[b].st.Listed? && bs[b].size >= reqB
      ensures b != 0 ==> FirstFit(bs, lists, ListNo(reqP), reqB, b)
    {
      hide UnitListNo, ListNo, Linked, Mapped, TagsOk, Tiled, Distinct, Heads, FirstOf, FirstFit;
      lno := ListNo(reqP);
      while lno < N_MALLOC_LISTS
        invariant ListNo(reqP) <= lno <= N_MALLOC_LISTS
        invariant forall o, i :: ListNo(reqP) <= o < lno && 0 <= i < |lists[o]| ==>
          lists[o][i] in bs && bs[lists[o][i]].size < reqB
      {
        assert ListOk(g, mem, bs, lno, lists[lno]);
        b := ScanList(lno, reqB);
        if b != 0 {
          FirstFitIs(bs, lists, ListNo(reqP), lno, reqB, b);
          return;
        }
        lno := lno + 1;
      }
      b := 0;
      NoneFound(g, bs, lists, ListNo(reqP), reqB);
    }

    // ----- arena_malloc

    /** obtained_block, when the rest of the block is large enough to be a block itself. */
    method TakePart(b: nat, lno: nat, reqB: nat)
      requires CoreInv() && b in bs && reqB <= bs[b].size && CanCut(g, sbs, bs, b, reqB) && bs[b].st.Listed?
      requires lno < N_MALLOC_LISTS && b in lists[lno]
      modifies this`mem, this`bs, this`lists, freelist
      ensures CoreInv() && bs == Carved(old(bs), b, reqB)
      ensures g.clientmem || RedzoneOf(g, mem, b, reqB)
      ensures LiveWordsKept(old(mem), mem, old(bs))
    {
      hide RedzoneOf, FreeWords, InuseWords, UnlinkedWords, UnitListNo, ListNo, Core, Heads, CanCut, LiveWordsKept;
      var frag := BszB(b) - reqB;
      TakePartFits(g, sbs, bs, b, reqB);
      UnlinkBlock(b, lno);
      ghost var bs1, mem1 := bs, mem;
      CutCore(g, mem, sbs, bs, lists, b, reqB);
      bs := Cut(bs, b, reqB);
      ghost var bs2 := bs;
      MkInuseBlock(b, reqB);
      ghost var bs3, mem3 := bs, mem;
      MkFreeBlock(b + reqB, frag, ListNo(frag - g.Overhead()));
      RedzoneKept(g, mem3, mem, sbs, bs, lists, b);
      KeptTwice(mem1, mem3, mem, bs2, bs);
      KeptTwice(old(mem), mem1, mem, old(bs), bs2);
      assert bs == Carved(old(bs), b, reqB);
    }

    /** obtained_block, when the block is used as it is. */
    method TakeWhole(b: nat, lno: nat)
      requires CoreInv() && b in bs && bs[b].st.Listed? && lno < N_MALLOC_LISTS && b in lists[lno]
      modifies this`mem, this`bs, this`lists, freelist
      ensures CoreInv() && bs == Whole(old(bs), b)
      ensures mem == InuseWords(g, UnlinkedWords(g, old(mem), b), b, old(bs)[b].size)
      ensures old(PrevB(b)) == b ==> freelist[..] == old(freelist[..])[lno := 0]
      ensures g.clientmem || RedzoneOf(g, mem, b, bs[b].size)
      ensures LiveWordsKept(old(mem), mem, old(bs))
    {
      hide RedzoneOf, FreeWords, InuseWords, UnlinkedWords, UnitListNo, ListNo, Core, Heads, LiveWordsKept;
      var bszB := BszB(b);
      UnlinkBlock(b, lno);
      ghost var bs1, mem1 := bs, mem;
      MkInuseBlock(b, bszB);
      KeptTwice(old(mem), mem1, mem, old(bs), bs1);
      assert bs == Whole(old(bs), b);
    }

    /** Take the request out of free block `b` of list `lno`. None stands for the failed assertion of mkInuseBlock. */
    method Carve(b: nat, lno: nat, reqB: nat) returns (r: Option<nat>)
      requires CoreInv() && Settled(bs) && b in bs && bs[b].st.Listed? && lno < N_MALLOC_LISTS && b in lists[lno]
      requires reqB % MIN_SZB == 0 && reqB <= bs[b].size
      requires reqB < g.Overhead() ==> 2 * g.Overhead() <= bs[b].size
      modifies this`mem, this`bs, this`lists, freelist
      ensures r.None? <==> reqB < g.Overhead()
      ensures r.Some? ==> CoreInv() && Settled(bs) && reqB <= r.value + g.Overhead() < reqB + g.Overhead()
      ensures r.Some? ==>
        Live(g, bs) == Live(g, old(bs))[b := r.value] && b in bs && bs[b].st.Used? && NoFreeBefore(bs, b)
      ensures r.Some? ==> ExactCut(g, old(bs), bs, b, reqB)
      ensures r.Some? ==> Filled(g, mem, bs, b)
      ensures r.Some? ==> LiveWordsKept(old(mem), mem, old(bs))
    {
      hide RedzoneOf, UnitListNo, ListNo, Heads, Settled, Tiled, Mapped, TagsOk, ListsOk, AllListed, Live;
      hide LiveWordsKept;
      var bszB := BszB(b);
      var frag := bszB - reqB;
      if frag >= g.Overhead() {
        if reqB < g.Overhead() {
          return None;
        }
        CarvedShape(g, sbs, bs, b, reqB);
        TakePart(b, lno, reqB);
        TakenFromFree(old(bs), b, bs);
        r := Some(BszB(b) - g.Overhead());
      } else {
        WholeShape(g, bs, b);
        TakeWhole(b, lno);
        TakenFromFree(old(bs), b, bs);
        r := Some(bszB - g.Overhead());
      }
    }

    /** Turn the loose block of a new superblock into a free block. */
    method FreeNewBlock(b: nat, n: nat) returns (lno: nat)
      requires CoreInv() && b in bs && bs[b].st.Loose? && bs[b].size == n && n % MIN_SZB == 0 && g.Overhead() <= n
      requires (n - g.Overhead()) % MIN_SZB == 0
      modifies this`mem, this`bs, this`lists, freelist
      ensures CoreInv() && bs == old(bs)[b := old(bs)[b].(st := Listed)] && lno < N_MALLOC_LISTS && b in lists[lno]
      ensures lno == ListNo(n - g.Overhead())
      ensures LiveWordsKept(old(mem), mem, bs)
    {
      hide FreeWords, InuseWords, UnlinkedWords, UnitListNo, ListNo, Heads, Tiled, Mapped, TagsOk, ListsOk;
      hide LiveWordsKept;
      lno := ListNo(n - g.Overhead());
      MkFreeBlock(b, n, lno);
      assert Psz(g, bs[b]) == n - g.Overhead();
    }

    /** The table part of the invariant survives a new superblock. */
    method GrowTable(sb: nat, tableGrant: bool, ghost sbs0: Superblocks) returns (ok: bool)
      requires minSblock % PAGE_SIZE == 0 && 16 * PAGE_SIZE <= minSblock <= 4096 * PAGE_SIZE
      requires sblocks != freelist && sblocksInitial != freelist
      requires sblocksUsed <= sblocks.Length && SBLOCKS_SIZE_INITIAL <= sblocks.Length && TableFits(g, sblocks.Length)
      requires sblocks.Length == SBLOCKS_SIZE_INITIAL <==> sblocks == sblocksInitial
      requires sb !in sbs0 && sb in sbs && sbs - {sb} == sbs0 && TableOk(sblocks[..sblocksUsed], sbs0)
      requires tableGrant ==> TableRoom(g, sblocks.Length)
      requires bytesMmaped == Total(sbs, g.Header()) && Paged(g, sbs)
      modifies this`sblocks, this`sblocksUsed, sblocks
      ensures ok ==> TableInv() && (sblocks == old(sblocks) || fresh(sblocks))
      ensures !ok ==> !tableGrant && old(sblocksUsed == sblocks.Length)
    {
      hide TableOk, Sum, Total, Paged;
      ok := AddToTable(sb, tableGrant);
    }

    /** No free block was big enough: get a new superblock, which becomes one big free block. */
    method Grow(reqB: nat, grant: Option<Grant>, tableGrant: bool) returns (o: Growth)
      requires g.Valid() && CoreInv() && TableInv() && Settled(bs) && reqB < g.space
      requires GrantOk(g, sbs, grant, SuperblockBytes(g, minSblock, reqB))
      requires tableGrant ==> TableRoom(g, sblocks.Length)
      modifies this`mem, this`bs, this`sbs, this`lists, this`bytesMmaped, this`sblocks, this`sblocksUsed
      modifies freelist, sblocks
      ensures !o.Died? ==> CoreInv() && TableInv() && Settled(bs) && BlocksKept(g, old(mem), old(bs), mem, bs)
      ensures !o.Died? ==> sblocks == old(sblocks) || fresh(sblocks)
      ensures o.Grown? ==> o.b in bs && bs[o.b].st.Listed? && o.lno < N_MALLOC_LISTS && o.b in lists[o.lno]
      ensures o.Grown? ==> bs[o.b].size + g.Header() == SuperblockBytes(g, minSblock, reqB) && o.b !in old(bs)
      ensures o.Grown? ==> grant.Some? && o.b == Start(g, grant.value.addr) && sbs != old(sbs)
      ensures !o.Died? ==> OnlyAdds(g, old(sbs), sbs, grant, SuperblockBytes(g, minSblock, reqB))
      ensures o.Refused? ==> g.clientmem && grant.None? && bs == old(bs) && sbs == old(sbs)
      ensures o.Died? ==> (grant.None? && !g.clientmem) || (!tableGrant && old(sblocksUsed == sblocks.Length))
    {
      hide BlocksKept, UnitListNo, ListNo, Heads, Core, Settled, Live, LiveWordsKept, GrantOk, SuperblockBytes, TableOk;
      hide Sum, Total, Paged;
      if grant.None? {
        if g.clientmem {
          BlocksSame(g, mem, bs);
          return Refused;
        }
        return Died;
      }
      ghost var sbs0, bs0, mem0 := sbs, bs, mem;
      GrowReady(g, mem, sbs, bs, lists, minSblock, reqB, grant.value);
      var sb, n := NewSuperblock(reqB, grant.value);
      PagedAdd(g, sbs0, sb, n, minSblock, reqB);
      var ok := GrowTable(sb, tableGrant, sbs0);
      if !ok {
        return Died;
      }
      ghost var mem1 := mem;
      GrownShape(g, sbs0, bs0, sb, n);
      var lno := FreeNewBlock(Start(g, sb), n);
      BlocksGrown(g, mem0, mem1, mem, bs0, bs, sb, n);
      return Grown(Start(g, sb), lno);
    }

    /** The end of arena_malloc: carve the block, update the counters, return the payload. */
    method Deliver(b: nat, lno: nat, reqB: nat) returns (r: Outcome)
      requires CoreInv() && Settled(bs) && b in bs && bs[b].st.Listed? && lno < N_MALLOC_LISTS && b in lists[lno]
      requires reqB % MIN_SZB == 0 && reqB <= bs[b].size
      requires reqB < g.Overhead() ==> 2 * g.Overhead() <= bs[b].size
      requires bytesOnLoan == Sum(Live(g, bs)) && bytesOnLoan <= bytesOnLoanMax
      modifies this`mem, this`bs, this`lists, this`bytesOnLoan, this`bytesOnLoanMax, freelist
      ensures r.Panic? || r.Got?
      ensures r.Panic? <==> reqB < g.Overhead()
      ensures r.Got? ==> CoreInv() && Settled(bs) && LiveWordsKept(old(mem), mem, old(bs))
      ensures r.Got? ==> r.p == b + g.OverheadLo() && Handed(g, old(bs), bs, r.p, reqB - g.Overhead())
      ensures r.Got? ==> ExactCut(g, old(bs), bs, b, reqB)
      ensures r.Got? ==> Filled(g, mem, bs, b)
      ensures r.Got? ==>
        bytesOnLoan == Sum(Live(g, bs)) && bytesOnLoanMax == if old(bytesOnLoanMax) < bytesOnLoan then bytesOnLoan
                                                             else old(bytesOnLoanMax)
    {
      hide Filled, ExactCut, UnitListNo, ListNo, Heads, Core, Settled, LiveWordsKept, Sum;
      BlockAligned(g, mem, sbs, bs, lists, b);
      var c := Carve(b, lno, reqB);
      if c.None? {
        return Panic;
      }
      SumAdd(Live(g, old(bs)), b, c.value);
      assert Live(g, bs)[b] == Psz(g, bs[b]);
      bytesOnLoan := bytesOnLoan + c.value;
      if bytesOnLoan > bytesOnLoanMax {
        bytesOnLoanMax := bytesOnLoan;
      }
      return Got(b + g.OverheadLo());
    }

    /** The scan and, when it fails, a new superblock. */
    method FindBlock(reqP: nat, reqB: nat, grant: Option<Grant>, tableGrant: bool) returns (o: Growth)
      requires g.Valid() && CoreInv() && TableInv() && Settled(bs) && reqP % MIN_SZB == 0 && reqP < g.space
      requires reqB == (if reqP + g.Overhead() < g.space then reqP + g.Overhead() else reqP + g.Overhead() - g.space)
      requires GrantOk(g, sbs, grant, SuperblockBytes(g, minSblock, reqB))
      requires tableGrant ==> TableRoom(g, sblocks.Length)
      modifies this`mem, this`bs, this`sbs, this`lists, this`bytesMmaped, this`sblocks, this`sblocksUsed
      modifies freelist, sblocks
      ensures !o.Died? ==> CoreInv() && TableInv() && Settled(bs) && BlocksKept(g, old(mem), old(bs), mem, bs)
      ensures !o.Died? ==> sblocks == old(sblocks) || fresh(sblocks)
      ensures o.Grown? ==> o.b in bs && bs[o.b].st.Listed? && o.lno < N_MALLOC_LISTS && o.b in lists[o.lno]
      ensures o.Grown? ==> reqB <= bs[o.b].size || bs[o.b].size + g.Header() == SuperblockBytes(g, minSblock, reqB)
      ensures o.Grown? && reqB < g.Overhead() ==> 2 * g.Overhead() <= bs[o.b].size
      ensures o.Refused? ==> g.clientmem && grant.None? && bs == old(bs)
      ensures o.Grown? && sbs != old(sbs) ==> grant.Some? && o.b == Start(g, grant.value.addr)
      ensures o.Grown? && sbs != old(sbs) ==> bs[o.b].size + g.Header() == SuperblockBytes(g, minSblock, reqB)
      ensures !o.Died? ==> OnlyAdds(g, old(sbs), sbs, grant, SuperblockBytes(g, minSblock, reqB))
      ensures o.Died? ==> (grant.None? && !g.clientmem) || (!tableGrant && old(sblocksUsed == sblocks.Length))
      ensures sbs != old(sbs) && reqP + g.Overhead() < g.space ==> AllSmaller(old(bs), reqP + g.Overhead())
      ensures o.Grown? && sbs == old(sbs) ==> FirstFit(old(bs), old(lists), ListNo(reqP), reqB, o.b)
    {
      hide FirstFit, BlocksKept, UnitListNo, ListNo, Heads, Tiled, Mapped, TagsOk, ListsOk, AllListed, Settled, Live;
      hide LiveWordsKept, GrantOk, SuperblockBytes, TableOk, Sum, Total, NoneFrom;
      var b, lno := Scan(reqP, reqB);
      if b != 0 {
        BlocksSame(g, mem, bs);
        if reqB < g.Overhead() {
          WrappedRequest(g, mem, bs, lists, lno, b, reqP);
        }
        return Grown(b, lno);
      }
      if reqP + g.Overhead() < g.space {
        NoneAnywhere(g, bs, reqP);
      }
      RoundsUp(g, minSblock, reqB);
      o := Grow(reqB, grant, tableGrant);
    }

    /** arena_malloc, for a payload of `reqP` bytes and a block of `reqB`, which may have wrapped around. */
    method FindAndDeliver(reqP: nat, reqB: nat, grant: Option<Grant>, tableGrant: bool) returns (r: Outcome)
      requires Valid() && SizesOk(g, minSblock, reqP, reqB)
      requires GrantOk(g, sbs, grant, SuperblockBytes(g, minSblock, reqB))
      requires tableGrant ==> TableRoom(g, sblocks.Length)
      modifies this, freelist, sblocks
      ensures !r.Wild?
      ensures !r.Panic? ==>
        Valid() && (sblocks == old(sblocks) || fresh(sblocks)) && LiveWordsKept(old(mem), mem, old(bs))
      ensures !r.Panic? ==> old(bytesOnLoanMax) <= bytesOnLoanMax
      ensures r.Got? ==>
        bytesOnLoanMax == if old(bytesOnLoanMax) < bytesOnLoan then bytesOnLoan else old(bytesOnLoanMax)
      ensures r.Got? && sbs == old(sbs) ==> FirstFit(old(bs), old(lists), ListNo(reqP), reqB, r.p - g.OverheadLo())
      ensures r.Got? ==> Handed(g, old(bs), bs, r.p, reqP) && Deliverable(g, reqP)
      ensures r.OutOfMemory? ==> g.clientmem && grant.None? && bs == old(bs)
      ensures r.Got? && sbs != old(sbs) ==> MadeFrom(g, bs, grant, r.p, reqP, SuperblockBytes(g, minSblock, reqB))
      ensures !r.Panic? ==> OnlyAdds(g, old(sbs), sbs, grant, SuperblockBytes(g, minSblock, reqB))
      ensures r.Panic? ==>
        !Deliverable(g, reqP) || (grant.None? && !g.clientmem) || (!tableGrant && old(sblocksUsed == sblocks.Length))
      ensures sbs != old(sbs) && reqP + g.Overhead() < g.space ==> AllSmaller(old(bs), reqP + g.Overhead())
    {
      hide ListNo, FirstFit, FirstOf;
      hide BlocksKept, RedzoneOf, Redzones, UnitListNo, ListNo, Heads, Core, Settled, Live, LiveWordsKept, GrantOk;
      hide SuperblockBytes, TableOk;
      hide Sum, Total, Handed, Paged, OnlyAdds, MadeFrom, AllSmaller;
      CoreLarge(g, mem, sbs, bs, lists);
      var o := FindBlock(reqP, reqB, grant, tableGrant);
      if o.Refused? {
        RedzonesKept(g, old(mem), mem, sbs, old(bs), bs, lists);
        return OutOfMemory;
      }
      if o.Died? || BszB(o.b) < reqB {
        return Panic;
      }
      ghost var bs1, mem1 := bs, mem;
      SameLive(g, old(mem), old(bs), mem, bs);
      r := Deliver(o.b, o.lno, reqB);
      if r.Got? {
        Delivered(g, old(mem), mem1, mem, sbs, old(bs), bs1, bs, lists, r.p, reqP);
        if sbs != old(sbs) { MadeExact(g, bs1, bs, grant, o.b, reqP, SuperblockBytes(g, minSblock, reqB)); }
      }
    }

    /** arena_malloc. `grant` and `tableGrant` are the answers the address space manager would give. If they are what is
        needed, a block is delivered exactly if a superblock of whole pages could hold the payload. */
    method Malloc(req: nat, grant: Option<Grant>, tableGrant: bool) returns (r: Outcome)
      requires Valid() && req < g.space
      requires GrantOk(g, sbs, grant, BytesFor(g, minSblock, req))
      requires tableGrant ==> TableRoom(g, sblocks.Length)
      modifies this, freelist, sblocks
      ensures !r.Wild?
      ensures !r.Panic? ==>
        Valid() && (sblocks == old(sblocks) || fresh(sblocks)) && LiveWordsKept(old(mem), mem, old(bs))
      ensures !r.Panic? ==> old(bytesOnLoanMax) <= bytesOnLoanMax
      ensures r.Got? ==>
        bytesOnLoanMax == if old(bytesOnLoanMax) < bytesOnLoan then bytesOnLoan else old(bytesOnLoanMax)
      ensures r.Got? && sbs == old(sbs) ==> TakenFirst(g, old(bs), old(lists), req, r.p)
      ensures r.Got? ==> Handed(g, old(bs), bs, r.p, AlignReq(g, req))
      ensures r.Got? ==> (Covers(g, bs, r.p, req) <==> req <= g.space - MIN_SZB)
      ensures (r.Got? ==> Deliverable(g, AlignReq(g, req))) && (req >= g.space - 1 ==> r.Panic?)
      ensures r.OutOfMemory? ==> g.clientmem && grant.None? && bs == old(bs)
      ensures r.Got? && sbs != old(sbs) ==> MadeFrom(g, bs, grant, r.p, AlignReq(g, req), BytesFor(g, minSblock, req))
      ensures !r.Panic? ==> OnlyAdds(g, old(sbs), sbs, grant, BytesFor(g, minSblock, req))
      ensures r.Panic? ==> req == g.space - 1 || !Deliverable(g, AlignReq(g, req))
                           || (grant.None? && !g.clientmem) || (!tableGrant && old(sblocksUsed == sblocks.Length))
      ensures grant.Some? && tableGrant ==> (r.Got? <==> req < g.space - 1 && Deliverable(g, AlignReq(g, req)))
      ensures sbs != old(sbs) && AlignReq(g, req) + g.Overhead() < g.space ==>
        AllSmaller(old(bs), AlignReq(g, req) + g.Overhead())
    {
      hide CoreInv, TableOk, Total, Paged, Settled, Sum, LiveWordsKept, GrantOk, AlignReq, ToBsz, SuperblockBytes;
      hide Handed, Covers, OnlyAdds, MadeFrom, AllSmaller, SizesOk, FirstFit, ListNo;
      if req >= g.space - 1 {
        return Panic;
      }
      RequestSizes(g, req, minSblock);
      var reqP := AlignReq(g, req);
      r := FindAndDeliver(reqP, ToBsz(g, reqP), grant, tableGrant);
      if r.Got? {
        HandedExact(g, old(bs), bs, r.p, reqP, req);
        AlignExact(g, req);
      }
    }

    // ----- arena_free

    /** unlinkBlock on the list that the size of the block selects. */
    method UnlinkFree(b: nat, bszB: nat)
      requires CoreInv() && b in bs && bs[b].st.Listed? && bs[b].size == bszB
      modifies this`mem, this`bs, this`lists, freelist
      ensures CoreInv() && bs == old(bs)[b := old(bs)[b].(st := Loose)]
      ensures LiveWordsKept(old(mem), mem, old(bs))
    {
      hide FreeWords, InuseWords, UnlinkedWords, UnitListNo, ListNo, Heads, Mapped, TagsOk, ListsOk, LiveWordsKept;
      assert BlockFits(g, sbs, bs, b);
      UnlinkBlock(b, ListNo(bszB - g.Overhead()));
    }

    /** Merge free neighbours `b` and `c`: both leave their lists and one block joins the list of the sum. */
    method Coalesce(b: nat, bszB: nat, c: nat, cszB: nat)
      requires CoreInv() && b in bs && bs[b].st.Listed? && bs[b].size == bszB
      requires c == b + bszB && c in bs && bs[c].st.Listed? && bs[c].size == cszB
      modifies this`mem, this`bs, this`lists, freelist
      ensures CoreInv() && bs == Joined(old(bs), b, c)
      ensures LiveWordsKept(old(mem), mem, bs)
    {
      hide FreeWords, InuseWords, UnlinkedWords, UnitListNo, ListNo, Heads, Core, LiveWordsKept;
      SumMultiple(g, mem, sbs, bs, lists, b, c);
      ghost var bs0, mem0 := bs, mem;
      UnlinkFree(b, bszB);
      ghost var mem1 := mem;
      UnlinkFree(c, cszB);
      ghost var bs2, mem2 := bs, mem;
      KeptTwice(mem0, mem1, mem2, bs0, bs0[b := bs0[b].(st := Loose)]);
      JoinCore(g, mem, sbs, bs, lists, b, c);
      bs := Join(bs, b, c);
      MkFreeBlock(b, bszB + cszB, ListNo(bszB + cszB - g.Overhead()));
      assert bs == Joined(bs0, b, c);
      KeptTwice(mem0, mem2, mem, bs0, bs);
      KeptOnly(mem0, mem, bs0, bs);
    }

    /** A free block swallows the block behind it, if that is free. */
    method MergeNext(b: nat, bszB: nat, sb: nat) returns (bszB': nat)
      requires CoreInv() && NoLoose(bs) && ApartBut(bs, b) && b in bs && bs[b].st.Listed? && bs[b].size == bszB
      requires sb == bs[b].sb && sb in sbs && sb in mem && mem[sb] == sbs[sb]
      modifies this`mem, this`bs, this`lists, freelist
      ensures CoreInv() && NoLoose(bs) && ApartButBefore(bs, b) && b in bs && bs[b].st.Listed? && bs[b].size == bszB'
      ensures bs[b].sb == sb
      ensures Live(g, bs) == Live(g, old(bs)) && LiveWordsKept(old(mem), mem, bs)
    {
      hide Redzones, UnitListNo, ListNo, Heads, Mapped, TagsOk, ListsOk, AllListed, LiveWordsKept, Live, ApartBut;
      hide BlockFits, SuperblockFits;
      var end := sb + g.Header() + mem[sb];
      NothingAfterEnd(g, sbs, bs, b);
      KeptSame(mem, bs);
      var other := b + bszB;
      bszB' := bszB;
      if other + g.Overhead() - 1 <= end - 1 {
        var otherSz := BszB(other);
        if !IsInuse(other) {
          JoinedNextApart(g, sbs, bs, b, other);
          JoinedLive(g, bs, b, other);
          Coalesce(b, bszB, other, otherSz);
          bszB' := bszB + otherSz;
        } else {
          NextInuse(bs, b);
        }
      } else {
        assert other - 1 == end - 1;
        NextInuse(bs, b);
      }
    }

    /** get_predecessor_block. */
    method PredecessorBlock(b: nat) returns (p: nat)
      requires CoreInv() && NoLoose(bs) && b in bs && b != Start(g, bs[b].sb)
      ensures p in bs && p + bs[p].size == b && bs[p].sb == bs[b].sb && p >= Start(g, bs[p].sb)
      ensures bs[p].size >= g.Overhead()
    {
      hide UnitListNo, ListNo, Heads, Core, Plain, NoLoose;
      ghost var q := PredecessorWord(g, mem, sbs, bs, lists, b);
      p := b - Plain(mem[b - g.W]);
    }

    /** A free block is swallowed by the block before it, if that is free. */
    method MergePrev(b: nat, bszB: nat, sb: nat)
      requires CoreInv() && NoLoose(bs) && ApartButBefore(bs, b) && b in bs && bs[b].st.Listed? && bs[b].size == bszB
      requires bs[b].sb == sb
      modifies this`mem, this`bs, this`lists, freelist
      ensures CoreInv() && Settled(bs)
      ensures Live(g, bs) == Live(g, old(bs)) && LiveWordsKept(old(mem), mem, bs)
    {
      hide UnitListNo, ListNo, Heads, Mapped, TagsOk, ListsOk, AllListed, LiveWordsKept, Live, ApartButBefore;
      hide BlockFits, SuperblockFits;
      KeptSame(mem, bs);
      StartsAfter(g, mem, sbs, bs, lists, b);
      if b >= Start(g, sb) + g.Overhead() {
        var other := PredecessorBlock(b);
        var otherSz := BszB(other);
        if !IsInuse(other) {
          JoinedPrevApart(g, sbs, bs, other, b);
          JoinedLive(g, bs, other, b);
          Coalesce(other, otherSz, b, bszB);
        } else {
          AllApartUsed(g, sbs, bs, other, b);
        }
      } else {
        assert b == Start(g, sb);
        AllApart(g, sbs, bs, b);
      }
    }

    /** The block is put back on a list, before any merging. */
    method Release(b: nat, bszB: nat)
      requires CoreInv() && b in bs && bs[b].st.Used? && bs[b].size == bszB && g.Overhead() <= bszB
      requires (bszB - g.Overhead()) % MIN_SZB == 0
      modifies this`mem, this`bs, this`lists, freelist
      ensures CoreInv() && bs == Released(old(bs), b)
      ensures LiveWordsKept(old(mem), mem, bs)
    {
      hide FreeWords, InuseWords, UnlinkedWords, UnitListNo, ListNo, Heads, Core, LiveWordsKept;
      RetireCore(g, mem, sbs, bs, lists, b);
      bs := bs[b := bs[b].(st := Loose)];
      MkFreeBlock(b, bszB, ListNo(bszB - g.Overhead()));
    }

    /** The block is put back on a list and merged with its free neighbours. */
    method ReleaseAndMerge(b: nat, bszB: nat, sb: nat)
      requires CoreInv() && Settled(bs) && b in bs && bs[b].st.Used? && bs[b].size == bszB
      requires sb == bs[b].sb && sb in sbs && sb in mem && mem[sb] == sbs[sb]
      modifies this`mem, this`bs, this`lists, freelist
      ensures CoreInv() && Settled(bs) && Live(g, bs) == Live(g, old(bs)) - {b}
      ensures LiveWordsKept(old(mem), mem, bs)
    {
      hide UnitListNo, ListNo, Heads, Core, LiveWordsKept, NoFreePair;
      FreeFacts(g, mem, sbs, bs, lists, b);
      ReleasedShape(g, bs, b);
      Release(b, bszB);
      ghost var bs1, mem1, lists1 := bs, mem, lists;
      FreeFacts(g, mem, sbs, bs, lists, b);
      var bszB' := MergeNext(b, bszB, sb);
      ghost var bs2, mem2, lists2 := bs, mem, lists;
      MergePrev(b, bszB', sb);
      KeptThrough(g, sbs, old(mem), mem1, bs1, lists1, mem2, bs2, lists2, mem, bs, lists);
    }

    /** arena_free. A null pointer is ignored; any other must be the payload of a live block. */
    method Free(p: nat)
      requires Valid() && (p == 0 || LiveAt(g, bs, p))
      modifies this`mem, this`bs, this`lists, this`bytesOnLoan, freelist
      ensures Valid()
      ensures Live(g, bs) == (if p == 0 then Live(g, old(bs)) else Live(g, old(bs)) - {p - g.OverheadLo()})
      ensures LiveWordsKept(old(mem), mem, bs)
    {
      hide Redzones, UnitListNo, ListNo, Heads, Core, LiveWordsKept, TableOk, Paged, Settled, Sum, Total;
      KeptSame(mem, bs);
      CoreLarge(g, mem, sbs, bs, lists);
      if p == 0 {
        return;
      }
      var b := p - g.OverheadLo();
      var bszB := BszB(b);
      FreeFacts(g, mem, sbs, bs, lists, b);
      var pszB := bszB - g.Overhead();
      var found := FindSb(b);
      SumRemove(Live(g, bs), b);
      bytesOnLoan := bytesOnLoan - pszB;
      ReleaseAndMerge(b, bszB, found.value);
      RedzonesAfter(g, old(mem), mem, sbs, old(bs), bs, lists, b);
    }

    // ----- arena_memalign

    /** Split live block `b` into a free fragment of `frag` bytes and a live block behind it. */
    method SplitFront(b: nat, frag: nat, bszB: nat)
      requires CoreInv() && b in bs && bs[b].st.Used? && bs[b].size == bszB && frag <= bszB
      requires CanCut(g, sbs, bs, b, frag)
      modifies this`mem, this`bs, this`lists, freelist
      ensures CoreInv() && bs == Fronted(old(bs), b, frag)
      ensures g.clientmem || RedzoneOf(g, mem, b + frag, bszB - frag)
      ensures LiveWordsKept(old(mem), mem, old(bs) - {b})
    {
      hide RedzoneOf, FreeWords, InuseWords, UnlinkedWords, UnitListNo, ListNo, Heads, Core, CanCut, LiveWordsKept;
      TakePartFits(g, sbs, bs, b, frag);
      FragMultiple(g, frag);
      ghost var bs0, mem0 := bs, mem;
      RetireCore(g, mem, sbs, bs, lists, b);
      bs := bs[b := bs[b].(st := Loose)];
      CutCore(g, mem, sbs, bs, lists, b, frag);
      bs := Cut(bs, b, frag);
      MkFreeBlock(b, frag, ListNo(frag - g.Overhead()));
      ghost var bs1, mem1 := bs, mem;
      MkInuseBlock(b + frag, bszB - frag);
      KeptOnly(mem0, mem1, bs1, bs0 - {b});
      KeptTwice(mem0, mem1, mem, bs0 - {b}, bs1);
      assert bs == Fronted(bs0, b, frag);
    }

    /** The end of arena_memalign, when the size of the aligned block has wrapped around: the fragment and the aligned
        block are written over whatever is there. The ghost fields are left as they were. */
    method Overwrite(base: nat, frag: nat, size: nat, reqP: nat) returns (r: Outcome)
      requires CoreInv() && frag >= g.Overhead() && (frag - g.Overhead()) % MIN_SZB == 0 && size % MIN_SZB == 0
      requires Wrapping(g, base, frag, size) && g.Overhead() <= size
      modifies this`mem, freelist
      ensures r.Wild? <==> reqP + g.Overhead() <= size
      ensures r.Wild? ==> r.p == Cell(g, base + frag + g.OverheadLo())
      ensures r.Panic? || r.Wild?
      ensures freelist.Length == N_MALLOC_LISTS
      ensures Heap(mem, freelist[..]) == Overlap(g, Heap(old(mem), old(freelist[..])), base, frag, size)
    {
      hide UnitListNo, ListNo, Core, FreeWords, InuseWords, Cell;
      var lno := ListNo(frag - g.Overhead());
      var h := FreeWords(g, Heap(mem, freelist[..]), base, frag, lno);
      FreeHeads(g, Heap(mem, freelist[..]), base, frag, lno);
      OverlapTags(g, h.mem, base, frag, size);
      var align := Cell(g, base + frag);
      mem := InuseWords(g, h.mem, align, size);
      freelist[lno] := h.heads[lno];
      var pszB := SizeWord(mem, align) - g.Overhead();
      return if pszB < reqP then Panic else Wild(Cell(g, base + frag + g.OverheadLo()));
    }

    /** The end of arena_memalign, when there is room for the aligned block: split off the fragment, and count what is
        on loan. */
    method SplitAligned(base: nat, frag: nat, reqP: nat, ghost bs0: Blocks, ghost mem0: Memory) returns (r: Outcome)
      requires CoreInv() && TableInv() && Settled(bs) && bytesOnLoan == Sum(Live(g, bs0))
      requires bytesOnLoan <= bytesOnLoanMax
      requires LargeBlocks(g, bs0) && LargeBlocks(g, bs) && BaseBlock(g, bs0, bs, base) && LiveWordsKept(mem0, mem, bs0)
      requires frag <= bs[base].size && CanCut(g, sbs, bs, base, frag) && (base + frag + g.OverheadLo()) % MIN_SZB == 0
      requires Redzones(g, mem0, bs0)
      modifies this`mem, this`bs, this`lists, this`bytesOnLoan, this`bytesOnLoanMax, freelist
      ensures r.Panic? || r.Got?
      ensures r.Got? <==> reqP + g.Overhead() + frag <= old(bs)[base].size
      ensures r.Got? ==> Valid() && LiveWordsKept(mem0, mem, bs0) && r.p == base + frag + g.OverheadLo()
      ensures r.Got? ==> HandedAtLeast(g, bs0, bs, r.p, reqP)
    {
      hide Redzones, RedzoneOf, UnitListNo, ListNo, Heads, Core, Settled, LiveWordsKept, TableOk, Sum, Total;
      hide LargeBlocks, NoFreeBefore, Live, CanCut;
      hide Paged;
      var bszB, align := BszB(base), base + frag;
      ghost var bs1, mem1 := bs, mem;
      FrontedShape(g, sbs, bs, base, frag);
      SplitFront(base, frag, bszB);
      KeptAfter(g, mem0, mem1, mem, bs0, bs1, base);
      var pszB := BszB(align) - g.Overhead();
      if pszB < reqP {
        return Panic;
      }
      LiveSwap(g, bs0, bs1, base);
      assert align in bs && align !in bs1;
      SumAdd(Live(g, bs0), align, pszB);
      bytesOnLoan := bytesOnLoan + pszB;
      if bytesOnLoan > bytesOnLoanMax {
        bytesOnLoanMax := bytesOnLoan;
      }
      RedzonesAfter(g, mem0, mem, sbs, bs0, bs, lists, align);
      return Got(align + g.OverheadLo());
    }

    /** The base block has been allocated, and is not counted as on loan. */
    ghost predicate BaseReady(bs0: Blocks, mem0: Memory, baseP: nat)
      reads this, freelist, sblocks
    {
      && CoreInv() && TableInv() && Settled(bs) && bytesOnLoan == Sum(Live(g, bs0)) && bytesOnLoan <= bytesOnLoanMax
      && baseP >= g.OverheadLo() && LargeBlocks(g, bs0) && BaseBlock(g, bs0, bs, baseP - g.OverheadLo())
      && LiveWordsKept(mem0, mem, bs0) && Redzones(g, mem0, bs0)
    }

    /** The second half of arena_memalign: split the base block at the aligned address.
        `bs0` and `mem0` are the state before the base block was allocated. */
    method AlignBase(baseP: nat, alignB: nat, reqP: nat, ghost bs0: Blocks, ghost mem0: Memory) returns (r: Outcome)
      requires BaseReady(bs0, mem0, baseP) && 0 < alignB <= 1048576 && alignB % MIN_SZB == 0
      modifies this`mem, this`bs, this`lists, this`bytesOnLoan, this`bytesOnLoanMax, freelist
      ensures !r.OutOfMemory?
      ensures r.Got? ==>
        Valid() && LiveWordsKept(mem0, mem, bs0) && r.p % alignB == 0 && HandedAtLeast(g, bs0, bs, r.p, reqP)
      ensures Covers(g, old(bs), baseP, reqP + g.Overhead() + alignB) ==> r.Got?
      ensures r.Got? ==> reqP <= Psz(g, old(bs)[baseP - g.OverheadLo()])
      ensures r.Wild? <==> WildFits(g, old(bs), baseP - g.OverheadLo(), alignB, reqP)
      ensures r.Wild? ==> bs == old(bs) && lists == old(lists)
      ensures r.Wild? ==>
        OverlapFrom(g, Heap(mem, freelist[..]), Heap(old(mem), old(freelist[..])), bs, baseP - g.OverheadLo(), alignB,
                    r.p)
    {
      hide Redzones, UnitListNo, ListNo, Heads, Core, Settled, LiveWordsKept, TableOk, Sum, Total, LargeBlocks;
      hide NoFreeBefore, Live, CanCut;
      hide AlignUpwards, Overlap, Wrapping, Cell;
      var base := baseP - g.OverheadLo();
      var bszB := BszB(base);
      AlignFacts(g, mem, sbs, bs, lists, base, alignB);
      var alignP := AlignUpwards(base + 2 * g.OverheadLo() + g.OverheadHi(), alignB);
      var align := alignP - g.OverheadLo();
      var frag := align - base;
      assert frag >= g.Overhead();
      if base + bszB < align {
        WrapFacts(g, mem, sbs, bs, lists, base, frag);
        r := Overwrite(base, frag, g.space - (align - base - bszB), reqP);
        return;
      }
      if base + bszB - align < g.Overhead() {
        return Panic;
      }
      r := SplitAligned(base, frag, reqP, bs0, mem0);
    }

    /** What a memalign that has written outside the block it obtained leaves behind: the ghost fields still describe
        the arena as it was `at` the time when that block, a new one beside those of `bs0`, had just been made. */
    ghost predicate Overwrote(at: Base, bs0: Blocks, alignB: nat, p: nat)
      reads this, freelist
    {
      && g.Valid() && at.Base? && bs == at.blocks
      && Core(g, at.heap.mem, sbs, bs, lists) && Heads(at.heap.heads, lists) && Settled(bs)
      && BaseBlock(g, bs0, bs, at.b)
      && OverlapFrom(g, Heap(mem, freelist[..]), at.heap, bs, at.b, alignB, p)
    }

    /** Ask for the base block of arena_memalign. `at` is the arena once it is there. */
    method MakeBase(baseReq: nat, grant: Option<Grant>, tableGrant: bool) returns (r: Outcome, ghost at: Base)
      requires Valid() && baseReq < g.space
      requires GrantOk(g, sbs, grant, BytesFor(g, minSblock, baseReq))
      requires tableGrant ==> TableRoom(g, sblocks.Length)
      modifies this, freelist, sblocks
      ensures !r.Wild? && (r.Got? <==> at.Base?)
      ensures r.Got? ==> BaseReady(old(bs), old(mem), r.p) && Deliverable(g, AlignReq(g, baseReq))
      ensures r.Got? ==> at == Base(r.p - g.OverheadLo(), Heap(mem, freelist[..]), bs)
      ensures r.Got? ==> SmallBase(g, bs, at.b, AlignReq(g, baseReq))
      ensures r.Got? && baseReq <= g.space - MIN_SZB ==> Covers(g, bs, r.p, baseReq)
      ensures r.Got? ==> sblocks == old(sblocks) || fresh(sblocks)
      ensures r.OutOfMemory? ==>
        Valid() && (sblocks == old(sblocks) || fresh(sblocks)) && LiveWordsKept(old(mem), mem, old(bs))
      ensures r.OutOfMemory? ==> g.clientmem && grant.None? && bs == old(bs)
      ensures !r.Panic? ==> OnlyAdds(g, old(sbs), sbs, grant, BytesFor(g, minSblock, baseReq))
      ensures r.Panic? ==> baseReq == g.space - 1 || !Deliverable(g, AlignReq(g, baseReq))
                           || (grant.None? && !g.clientmem) || (!tableGrant && old(sblocksUsed == sblocks.Length))
      ensures FirstGrant(old(sbs), grant, tableGrant) && baseReq < g.space - 1 &&
              Deliverable(g, AlignReq(g, baseReq)) ==>
        at.Base? &&
        MadeFrom(g, at.blocks, grant, at.b + g.OverheadLo(), AlignReq(g, baseReq), BytesFor(g, minSblock, baseReq))
    {
      hide UnitListNo, ListNo, Heads, Core, Settled, LiveWordsKept, GrantOk, AlignReq, BytesFor, TableOk, Sum, Total;
      hide Live;
      hide OnlyAdds, Handed, BaseBlock, Covers, Psz, LargeBlocks, Deliverable, MadeFrom, Paged, Redzones;
      at := NoBase;
      CoreLarge(g, mem, sbs, bs, lists);
      var saved := bytesOnLoan;
      r := Malloc(baseReq, grant, tableGrant);
      bytesOnLoan := saved;
      if r.Got? {
        HandedBase(g, old(bs), bs, r.p, AlignReq(g, baseReq));
        SomeSuperblock(g, mem, sbs, bs, lists, r.p - g.OverheadLo());
        at := Base(r.p - g.OverheadLo(), Heap(mem, freelist[..]), bs);
      }
    }

    /** Ask for the base block of arena_memalign, and split it. `at` is the arena in between. */
    method SplitBase(alignB: nat, reqP: nat, baseReq: nat, grant: Option<Grant>, tableGrant: bool)
      returns (r: Outcome, ghost at: Base)
      requires Valid() && reqP < g.space && baseReq < g.space && 0 < alignB <= 1048576 && alignB % MIN_SZB == 0
      requires GrantOk(g, sbs, grant, BytesFor(g, minSblock, baseReq))
      requires tableGrant ==> TableRoom(g, sblocks.Length)
      modifies this, freelist, sblocks
      ensures r.Got? || r.OutOfMemory? ==>
        Valid() && (sblocks == old(sblocks) || fresh(sblocks)) && LiveWordsKept(old(mem), mem, old(bs))
      ensures r.Got? ==>
        r.p % alignB == 0 && HandedAtLeast(g, old(bs), bs, r.p, reqP) && reqP < AlignReq(g, baseReq) + g.Overhead()
      ensures r.Got? ==> Deliverable(g, AlignReq(g, baseReq))
      ensures r.OutOfMemory? ==> g.clientmem && grant.None? && bs == old(bs)
      ensures r.Got? || r.OutOfMemory? || r.Wild? ==> OnlyAdds(g, old(sbs), sbs, grant, BytesFor(g, minSblock, baseReq))
      ensures reqP + g.Overhead() + alignB <= baseReq <= g.space - MIN_SZB ==> !r.Wild?
      ensures reqP + g.Overhead() + alignB <= baseReq <= g.space - MIN_SZB && r.Panic? ==>
        !Deliverable(g, AlignReq(g, baseReq)) || (grant.None? && !g.clientmem) ||
        (!tableGrant && old(sblocksUsed == sblocks.Length))
      ensures FirstGrant(old(sbs), grant, tableGrant) && baseReq < g.space - 1 &&
              Deliverable(g, AlignReq(g, baseReq)) ==>
        at.Base? &&
        MadeFrom(g, at.blocks, grant, at.b + g.OverheadLo(), AlignReq(g, baseReq), BytesFor(g, minSblock, baseReq))
      ensures r.Wild? ==> Overwrote(at, old(bs), alignB, r.p)
      ensures at.Base? && reqP + g.Overhead() + alignB == g.space + baseReq ==>
        (r.Wild? <==> AlignedBeyond(g, at.blocks, at.b, alignB))
    {
      hide Heads, Core, TableInv, Settled, LiveWordsKept, GrantOk, AlignReq, BytesFor, Sum, Live, BaseReady;
      hide OnlyAdds, AlignedBeyond, HandedAtLeast, Covers, Psz, Gap, OverlapFrom, Deliverable, MadeFrom, Redzones;
      r, at := MakeBase(baseReq, grant, tableGrant);
      if r.Got? {
        var baseP := r.p;
        BaseFacts(old(bs), old(mem), baseP);
        CoversLess(g, bs, baseP, baseReq, reqP + g.Overhead() + alignB);
        GapBounded(g, mem, sbs, bs, lists, baseP, alignB, baseReq);
        r := AlignBase(baseP, alignB, reqP, old(bs), old(mem));
      }
    }

    lemma BaseFacts(bs0: Blocks, mem0: Memory, baseP: nat)
      requires BaseReady(bs0, mem0, baseP)
      ensures Core(g, mem, sbs, bs, lists) && Heads(freelist[..], lists) && Settled(bs)
      ensures BaseBlock(g, bs0, bs, baseP - g.OverheadLo())
      ensures baseP >= g.OverheadLo() && baseP - g.OverheadLo() in bs
    {
    }

    /** arena_memalign. With the grants it needs, it delivers an aligned block of the size asked for if and only if the
        alignment is a power of two in range and a superblock could hold the block to be split. If the size of that one
        wraps around, it never delivers, and it writes outside the block it obtained if and only if the aligned block
        would start behind the end of that. */
    method Memalign(alignB: nat, req: nat, grant: Option<Grant>, tableGrant: bool) returns (r: Outcome, ghost at: Base)
      requires Valid() && req < g.space && alignB < g.space
      requires GrantOk(g, sbs, grant, BytesFor(g, minSblock, BaseReq(g, alignB, req)))
      requires tableGrant ==> TableRoom(g, sblocks.Length)
      modifies this, freelist, sblocks
      ensures r.Got? || r.OutOfMemory? ==>
        Valid() && (sblocks == old(sblocks) || fresh(sblocks)) && LiveWordsKept(old(mem), mem, old(bs))
      ensures r.Got? ==> Serveable(g, alignB, req)
      ensures r.Got? ==> r.p % alignB == 0 && HandedAtLeast(g, old(bs), bs, r.p, AlignReq(g, req))
      ensures r.OutOfMemory? ==> g.clientmem && grant.None? && bs == old(bs)
      ensures r.Got? || r.OutOfMemory? || r.Wild? ==>
        OnlyAdds(g, old(sbs), sbs, grant, BytesFor(g, minSblock, BaseReq(g, alignB, req)))
      ensures !Alignable(alignB) ==> r.Panic?
      ensures r.Panic? ==>
        !Serveable(g, alignB, req) || (grant.None? && !g.clientmem) ||
        (!tableGrant && old(sblocksUsed == sblocks.Length))
      ensures grant.Some? && tableGrant ==> (r.Got? <==> Serveable(g, alignB, req))
      ensures r.Wild? ==> Alignable(alignB) && BaseWraps(g, alignB, req) && Overwrote(at, old(bs), alignB, r.p)
      ensures at.Base? && BaseWraps(g, alignB, req) ==> (r.Wild? <==> AlignedBeyond(g, at.blocks, at.b, alignB))
      ensures FirstGrant(old(sbs), grant, tableGrant) && BaseWraps(g, alignB, req) && Alignable(alignB) &&
              req < g.space - 1 ==>
        at.Base? &&
        MadeFrom(g, at.blocks, grant, at.b + g.OverheadLo(), BaseReq(g, alignB, req),
                 BytesFor(g, minSblock, BaseReq(g, alignB, req)))
    {
      hide Arena.Valid, Arena.Overwrote, AlignReq, BytesFor, BaseReq, OnlyAdds, HandedAtLeast, LiveWordsKept, GrantOk;
      hide IsPowerOf2;
      hide MadeFrom, AlignedBeyond;
      at := NoBase;
      if req >= g.space - 1 {
        return Panic, at;
      }
      var lg := Log2(alignB);
      if alignB < MIN_SZB || alignB > 1048576 || lg == -1 {
        return Panic, at;
      }
      var reqP := AlignReq(g, req);
      var baseReq := BaseReq(g, alignB, req);
      BaseSizes(g, req, alignB, lg);
      AlreadyAligned(g, baseReq);
      WrappedTooSmall(g, req, alignB, lg);
      r, at := SplitBase(alignB, reqP, baseReq, grant, tableGrant);
    }

    // ----- sanity_check_malloc_arena

    /** blockSane: the words of both redzones, from both ends. */
    method CheckRedzones(b: nat, bszB: nat, junk: int -> nat) returns (sane: bool)
      requires g.Valid()
      ensures sane == RedzoneSane(g, mem, junk, b, bszB, g.rz)
    {
      hide Cell, RzWord;
      WholeWords(g);
      var d: nat := g.rz;
      while d > 0
        invariant d <= g.rz && WordMultiple(g, d)
        invariant RedzoneSane(g, mem, junk, b, bszB, g.rz) == RedzoneSane(g, mem, junk, b, bszB, d)
      {
        NextWord(g, d);
        if WordAt(mem, Cell(g, b + d), junk) != RzWord(g, b, REDZONE_LO_MASK) {
          return false;
        }
        if WordAt(mem, Cell(g, b + bszB - g.W - d), junk) != RzWord(g, b, REDZONE_HI_MASK) {
          return false;
        }
        d := d - g.W;
      }
      return true;
    }

    /** blockSane, and what get_bszB and bszB_to_pszB assert of a block: size words that agree, a size that can be, and,
        in arenas that have them, the redzones of a block in use. */
    method BlockSane(b: nat, junk: int -> nat) returns (sane: bool)
      requires g.Valid()
      ensures sane == !StepFails(g, mem, junk, b, false)
    {
      hide Cell, RedzoneSane;
      var bszB := WordAt(mem, b, junk);
      if bszB == 0 || WordAt(mem, Cell(g, b + Plain(bszB) - g.W), junk) != bszB {
        return false;
      }
      if !g.clientmem && bszB % 2 == 0 {
        sane := CheckRedzones(b, bszB, junk);
        if !sane {
          return;
        }
      }
      return bszB % 2 != 0 || bszB >= g.Overhead();
    }

    /** Walk the blocks of one superblock with a 32-bit index, adding up the bytes on loan and the free blocks. */
    method CheckSuperblock(sb: nat, loan0: nat, free0: nat, steps: nat, junk: int -> nat) returns (w: Walked)
      requires g.Valid()
      ensures w == Walk(g, mem, junk, Start(g, sb), WordAt(mem, sb, junk), 0, false, steps, loan0, free0)
    {
      hide Cell, RedzoneSane, TagsAgree, WordAt;
      var n := WordAt(mem, sb, junk);
      var lastWasFree, i: nat, k: nat := false, 0, 0;
      var loan: nat, nfree: nat := loan0, free0;
      while i < n
        invariant k <= steps
        invariant Walk(g, mem, junk, Start(g, sb), n, 0, false, steps, loan0, free0) ==
                  Walk(g, mem, junk, Start(g, sb), n, i, lastWasFree, steps - k, loan, nfree)
        decreases steps - k
      {
        if k == steps {
          return Walked(Running, loan, nfree);
        }
        var b := Start(g, sb) + i;
        var sane := BlockSane(b, junk);
        var bszB := WordAt(mem, b, junk);
        var thisFree := bszB % 2 != 0;
        if !sane || (thisFree && lastWasFree) {
          return Walked(Bomb, loan, nfree);
        }
        if thisFree {
          nfree := nfree + 1;
        } else {
          loan := loan + (bszB - g.Overhead());
        }
        lastWasFree := thisFree;
        i := Low32(i + Plain(bszB));
        k := k + 1;
      }
      w := Walked(if i > n then Bomb else Sane, loan, nfree);
    }

    /** The walk over every superblock of the table. */
    method CheckSuperblocks(steps: nat, junk: int -> nat) returns (w: Walked)
      requires g.Valid() && sblocksUsed <= sblocks.Length
      ensures w == WalkAll(g, mem, junk, sblocks[..sblocksUsed], steps, 0, 0)
    {
      hide Walk, WordAt;
      w := Walked(Sane, 0, 0);
      ghost var t := sblocks[..sblocksUsed];
      assert t[0..] == t;
      for j := 0 to sblocksUsed
        invariant w.v.Sane?
        invariant WalkAll(g, mem, junk, t, steps, 0, 0) == WalkAll(g, mem, junk, t[j..], steps, w.loan, w.nfree)
      {
        assert t[j..][0] == sblocks[j] && t[j..][1..] == t[j + 1..];
        w := CheckSuperblock(sblocks[j], w.loan, w.nfree, steps, junk);
        if !w.v.Sane? {
          return;
        }
      }
    }

    /** Once round one ring: links agree in both directions, and sizes belong to the list. */
    method CheckList(head: nat, minPsz: nat, maxPsz: nat, steps: nat, junk: int -> nat, count0: nat)
      returns (c: Counted)
      requires g.Valid()
      ensures c == Ring(g, mem, junk, head, head, minPsz, maxPsz, steps, count0)
    {
      hide Cell;
      var b: nat, k: nat, count: nat := head, 0, count0;
      while k < steps
        invariant k <= steps && Ring(g, mem, junk, head, head, minPsz, maxPsz, steps, count0) ==
                                Ring(g, mem, junk, head, b, minPsz, maxPsz, steps - k, count)
      {
        var bPrev := b;
        var bszB := WordAt(mem, b, junk);
        if bszB == 0 || WordAt(mem, Cell(g, b + Plain(bszB) - g.W), junk) != bszB {
          return Counted(Bomb, count);
        }
        b := WordAt(mem, Cell(g, b + Plain(bszB) - 2 * g.W), junk);
        if WordAt(mem, Cell(g, b + g.W), junk) != bPrev {
          return Counted(Bomb, count);
        }
        bszB := WordAt(mem, b, junk);
        if bszB == 0 || WordAt(mem, Cell(g, b + Plain(bszB) - g.W), junk) != bszB || Plain(bszB) < g.Overhead() {
          return Counted(Bomb, count);
        }
        var pszB := Plain(bszB) - g.Overhead();
        if pszB < minPsz || pszB > maxPsz {
          return Counted(Bomb, count);
        }
        count := count + 1;
        if b == head {
          return Counted(Sane, count);
        }
        k := k + 1;
      }
      c := Counted(Running, count);
    }

    /** Once round each of the rings, counting their blocks. */
    method CheckLists(steps: nat, junk: int -> nat) returns (c: Counted)
      requires g.Valid() && freelist.Length == N_MALLOC_LISTS
      ensures c == RingsFrom(g, mem, junk, freelist[..], 0, steps, 0)
    {
      hide Ring, UnitListNo, FirstUnit, ListNo, ListMin;
      var mins := ComputeListMins();
      c := Counted(Sane, 0);
      for lno := 0 to N_MALLOC_LISTS
        invariant c.v.Sane?
        invariant RingsFrom(g, mem, junk, freelist[..], 0, steps, 0) ==
            RingsFrom(g, mem, junk, freelist[..], lno, steps, c.count)
      {
        if freelist[lno] != 0 {
          ListMaxIs(lno, g.space - 1);
          var maxPsz := if lno == N_MALLOC_LISTS - 1 then g.space - 1 else mins[lno + 1] - 1;
          c := CheckList(freelist[lno], mins[lno], maxPsz, steps, junk, c.count);
          if !c.v.Sane? {
            return;
          }
        }
      }
    }

    /** sanity_check_malloc_arena, with a number of steps for each superblock and each ring: the function of the words
        that `Checked` defines, on any memory. Given enough steps, a valid arena is found sane if and only if every
        superblock has less than 2^32 payload bytes; and without that condition, never. */
    method SanityCheck(steps: nat, junk: int -> nat) returns (v: Verdict)
      requires g.Valid() && freelist.Length == N_MALLOC_LISTS
      ensures var tableOk := 50 <= sblocks.Length && sblocksUsed <= sblocks.Length
                             && (sblocks.Length == 50 <==> sblocks == sblocksInitial);
              var table := if tableOk then sblocks[..sblocksUsed] else [];
              v == Checked(g, Heap(mem, freelist[..]), table, tableOk, bytesOnLoan, junk, steps)
      ensures Valid() && v.Sane? ==> Indexable(sbs)
      ensures Valid() && steps >= g.space ==> (v.Sane? <==> Indexable(sbs))
      ensures Valid() && steps >= g.space && g.W == 4 ==> v.Sane?
    {
      hide Redzones, Paged, UnitListNo, ListNo, Heads, Core, TableOk, Sum, Total, Live, Settled, Indexable, WalkAll;
      hide RingsFrom;
      if Valid() {
        HeadsLength(freelist[..], lists);
        ValidIsSane(g, mem, sbs, bs, lists, freelist[..], sblocks[..sblocksUsed], bytesOnLoan, junk, steps);
        if g.W == 4 { IndexableOn32(g, mem, sbs, bs, lists); }
      }
      var sblockarrOk := SBLOCKS_SIZE_INITIAL <= sblocks.Length && sblocksUsed <= sblocks.Length
                         && (if sblocks.Length == SBLOCKS_SIZE_INITIAL then sblocks == sblocksInitial
                             else sblocks != sblocksInitial);
      if !sblockarrOk {
        return Bomb;
      }
      var w := CheckSuperblocks(steps, junk);
      if !w.v.Sane? {
        return w.v;
      }
      if w.loan % g.space != bytesOnLoan % g.space {
        return Bomb;
      }
      var c := CheckLists(steps, junk);
      if !c.v.Sane? {
        return c.v;
      }
      return if Low32(w.nfree) != Low32(c.count) then Bomb else Sane;
    }

    /** arena_payload_szB. */
    method PayloadSzB(p: nat) returns (n: nat)
      requires Valid() && LiveAt(g, bs, p)
      ensures n == Live(g, bs)[p - g.OverheadLo()]
    {
      hide Redzones, UnitListNo, ListNo, Heads, Core, TableOk, Sum, Total, NoFreePair;
      var b := p - g.OverheadLo();
      FreeFacts(g, mem, sbs, bs, lists, b);
      n := BszB(b) - g.Overhead();
    }

    // ----- the client's own writes

    /** The client stores a word into the payload of a block it holds. */
    method ClientStore(p: nat, a: nat, v: nat)
      requires Valid() && LiveAt(g, bs, p)
      requires p <= a && a + g.W <= p + Live(g, bs)[p - g.OverheadLo()]
      modifies this`mem
      ensures Valid() && mem == old(mem)[a := v]
    {
      hide Redzones, UnitListNo, ListNo, Heads, TableOk, Sum, Total, NoFreePair, Tiled, Mapped, TagsOk, ListsOk;
      hide AllListed;
      PayloadWrite(g, mem, sbs, bs, lists, p - g.OverheadLo(), a, v);
      RedzonesStored(g, mem, sbs, bs, lists, p - g.OverheadLo(), a, v);
      mem := mem[a := v];
    }
  }
}
