/** The sizes, alignments and fill words of the allocator, in numbers (m_mallocfree.c). */
module ArenaLaws {
  import opened SizeClasses
  import opened ArenaState
  import opened ArenaShapes
  import opened ArenaWords
  import opened ArenaFacts
  import opened PowersOfTwo
  import opened Options
  import opened Arena

  // ----- layout

  /** A block has two size words and two redzones around its payload; a superblock has a header of 16 or 24 bytes. */
  lemma LayoutIs(g: Geometry)
    requires g.Valid()
    ensures g.Overhead() == 2 * g.W + 2 * g.rz && g.OverheadLo() == g.OverheadHi() == g.W + g.rz
    ensures g.Header() == if g.W == 4 then 16 else 24
  {
  }

  /** A new superblock has the fewest whole pages that hold the block and the header, but not less than the arena's
      minimum. */
  lemma SuperblockBytesExact(g: Geometry, minSblock: nat, bszB: nat)
    requires g.Valid() && minSblock % 4096 == 0 && 0x1_0000 <= minSblock <= 0x100_0000
    requires bszB + g.Header() + 4096 <= g.space
    ensures var n := SuperblockBytes(g, minSblock, bszB);
            && n % 4096 == 0 && minSblock <= n && bszB + g.Header() <= n
            && (n == minSblock || n < bszB + g.Header() + 4096)
  {
  }

  // ----- the lists

  /** Up to 504 bytes every payload size has a list of its own. */
  lemma SmallListsExact(pszB: nat)
    requires pszB % 8 == 0 && pszB < 512
    ensures ListNo(pszB) == pszB / 8
  {
  }

  /** The least payload sizes of the other lists, in bytes. */
  lemma LargeListsExact(l: nat)
    requires 64 <= l < 112
    ensures ListMin(l) ==
              match l
              case 64 => 512 case 65 => 536 case 66 => 560 case 67 => 592 case 68 => 616 case 69 => 648 case 70 => 680
              case 71 => 720 case 72 => 752 case 73 => 792 case 74 => 832 case 75 => 872 case 76 => 912 case 77 => 960
              case 78 => 1008 case 79 => 1064 case 80 => 1112 case 81 => 1224 case 82 => 1352 case 83 => 1480
              case 84 => 1632 case 85 => 1792 case 86 => 1976 case 87 => 2176 case 88 => 2392 case 89 => 2632
              case 90 => 2896 case 91 => 3184 case 92 => 3504 case 93 => 3856 case 94 => 4240 case 95 => 4664
              case 96 => 5128 case 97 => 6160 case 98 => 7392 case 99 => 8872 case 100 => 10648 case 101 => 12776
              case 102 => 15328 case 103 => 18400 case 104 => 22080 case 105 => 26496 case 106 => 31792
              case 107 => 38152 case 108 => 45784 case 109 => 54944 case 110 => 65928 case 111 => 79120
              case _ => 0
  {
  }

  // ----- the order of a list

  /** A list that has been swizzled starts at the lowest of its first six and last five blocks, and goes on round the
      ring. */
  lemma SwizzledMeans(l: seq<nat>, l': seq<nat>) returns (k: nat)
    requires Swizzled(l, l') && l != [] && Distinct(l)
    ensures k < |l| && l' == l[k..] + l[..k] && (k <= 5 || |l| <= k + 5)
    ensures forall i :: 0 <= i < |l| && (i <= 5 || |l| <= i + 5) ==> l'[0] <= l[i]
  {
    hide Ahead, Behind;
    var r :| 0 <= r < |l| && l' == Rotate(l, r);
    var j :| 0 <= j <= 5 && (l'[0] == l[Ahead(j, |l|)] || l'[0] == l[Behind(j, |l|)]);
    StepsAre(j, |l|);
    k := r;
    assert r == Ahead(j, |l|) || r == Behind(j, |l|);
    forall i | 0 <= i < |l| && (i <= 5 || |l| <= i + 5)
      ensures l'[0] <= l[i]
    {
      StepsAre(if i <= 5 then i else |l| - i, |l|);
    }
  }

  lemma {:induction false} StepsAre(i: nat, n: nat)
    requires 0 < n
    ensures i < n ==> Ahead(i, n) == i
    ensures i <= n ==> Behind(i, n) == if i == 0 then 0 else n - i
  {
    if i > 0 { StepsAre(i - 1, n); }
  }

  /** The next multiple of 8. */
  function Rounded(req: nat): (r: nat)
    ensures r % 8 == 0 && req <= r < req + 8
  {
    if req % 8 == 0 then req else req + 8 - req % 8
  }

  /** The block has at least `n` bytes. */
  ghost predicate Enough(bs: Blocks, b: nat, n: nat) { b in bs && bs[b].size >= n }

  lemma NeededIs(g: Geometry, req: nat)
    requires g.Valid() && req + 2 * (g.W + g.rz) + 8 <= g.space
    ensures AlignReq(g, req) == Rounded(req) && ToBsz(g, Rounded(req)) == Rounded(req) + 2 * (g.W + g.rz)
    ensures g.OverheadLo() == g.W + g.rz
  {
    hide AlignReq;
    RoundedIs(g, req);
  }

  /** The block that is taken is the first one large enough in its list, and its list is the first one that has any,
      from that of the request on. Large enough is the request, rounded up to a multiple of 8, with two size words and
      two redzones. */
  lemma TakenFirstMeans(g: Geometry, bs: Blocks, lists: seq<seq<nat>>, req: nat, p: int) returns (lno: nat, k: nat)
    requires g.Valid() && TakenFirst(g, bs, lists, req, p) && |lists| == 112 && req + 2 * (g.W + g.rz) + 8 <= g.space
    ensures var rounded := Rounded(req);
            var need := rounded + 2 * (g.W + g.rz);
            && ListNo(rounded) <= lno < 112 && k < |lists[lno]|
            && lists[lno][k] == p - g.W - g.rz && Enough(bs, lists[lno][k], need)
            && (forall i :: 0 <= i < k ==> !Enough(bs, lists[lno][i], need))
            && forall o, i :: ListNo(rounded) <= o < lno && 0 <= i < |lists[o]| ==> !Enough(bs, lists[o][i], need)
  {
    hide ListNo, AlignReq, ToBsz, Rounded, FirstFit;
    NeededIs(g, req);
    lno, k := FirstFitMeans(bs, lists, ListNo(Rounded(req)), Rounded(req) + 2 * (g.W + g.rz), p - g.W - g.rz);
  }

  lemma FirstFitMeans(bs: Blocks, lists: seq<seq<nat>>, first: nat, need: nat, b: int) returns (lno: nat, k: nat)
    requires FirstFit(bs, lists, first, need, b)
    ensures first <= lno < |lists| && k < |lists[lno]| && lists[lno][k] == b && Enough(bs, lists[lno][k], need)
    ensures forall i :: 0 <= i < k ==> !Enough(bs, lists[lno][i], need)
    ensures forall o, i :: first <= o < lno && 0 <= i < |lists[o]| ==> !Enough(bs, lists[o][i], need)
  {
    lno :| first <= lno < |lists| && FirstOf(bs, lists[lno], need, b)
           && forall o, i :: first <= o < lno && 0 <= i < |lists[o]| ==>
                lists[o][i] in bs && bs[lists[o][i]].size < need;
    var l := lists[lno];
    k :| 0 <= k < |l| && l[k] == b && l[k] in bs && bs[l[k]].size >= need
         && forall i :: 0 <= i < k ==> l[i] in bs && bs[l[i]].size < need;
  }

  // ----- alignments

  /** The alignments that are accepted are the powers of two from 2^3 to 2^20. */
  lemma AlignableIs(alignB: nat)
    ensures Alignable(alignB) <==> exists i: nat :: 3 <= i <= 20 && Pow2(i) == alignB
  {
    hide Pow2;
    PowersKnown();
    if Alignable(alignB) {
      var i: nat :| i < 32 && Pow2(i) == alignB;
      if i < 3 { Pow2Monotone(i, 2); }
      if i > 20 { Pow2Monotone(21, i); }
    }
    if i: nat :| 3 <= i <= 20 && Pow2(i) == alignB {
      Pow2Monotone(3, i);
      Pow2Monotone(i, 20);
    }
  }

  lemma PowersKnown()
    ensures Pow2(2) == 4 && Pow2(3) == 8 && Pow2(20) == 1048576 && Pow2(21) == 2097152
  {
    assert Pow2(5) == 32 && Pow2(10) == 1024 && Pow2(15) == 32768;
  }

  /** In numbers: the payload, rounded up, and the least alignment have to leave room in the address space for a page, a
      superblock header, and the overheads of two blocks. */
  lemma ServeableIs(g: Geometry, alignB: nat, req: nat)
    requires g.Valid() && req < g.space
    ensures Serveable(g, alignB, req) <==>
              && req < g.space - 1 && (exists i: nat :: 3 <= i <= 20 && Pow2(i) == alignB)
              && (var rounded := if req > g.space - 8 then 0 else if req % 8 == 0 then req else req + 8 - req % 8;
                  rounded + alignB + 4 * (g.W + g.rz) + (if g.W == 4 then 16 else 24) + 4096 <= g.space)
    ensures Deliverable(g, AlignReq(g, req)) <==>
              (var rounded := if req > g.space - 8 then 0 else if req % 8 == 0 then req else req + 8 - req % 8;
               rounded + 2 * (g.W + g.rz) + (if g.W == 4 then 16 else 24) + 4096 <= g.space)
  {
    hide Alignable, Pow2;
    AlignableIs(alignB);
    RoundedIs(g, req);
    LayoutIs(g);
  }

  lemma RoundedIs(g: Geometry, req: nat)
    requires g.Valid() && req < g.space
    ensures AlignReq(g, req) == if req > g.space - 8 then 0 else if req % 8 == 0 then req else req + 8 - req % 8
  {
  }

  /** Which aligned requests are served, in numbers: those with a power of two from 2^3 to 2^20 for which there is room.
      All other alignments are refused. */
  method AlignedExactly(a: Arena, alignB: nat, req: nat, grant: Option<Grant>) returns (r: Outcome)
    requires a.Valid() && req < a.g.space && alignB < a.g.space && TableRoom(a.g, a.sblocks.Length)
    requires grant.Some? && GrantOk(a.g, a.sbs, grant, BytesFor(a.g, a.minSblock, BaseReq(a.g, alignB, req)))
    modifies a, a.freelist, a.sblocks
    ensures (forall i: nat :: 3 <= i <= 20 ==> Pow2(i) != alignB) ==> r.Panic?
    ensures r.Got? <==>
              && req < a.g.space - 1 && (exists i: nat :: 3 <= i <= 20 && Pow2(i) == alignB)
              && (var rounded := if req > a.g.space - 8 then 0 else if req % 8 == 0 then req else req + 8 - req % 8;
                  rounded + alignB + 4 * (a.g.W + a.g.rz) + (if a.g.W == 4 then 16 else 24) + 4096 <= a.g.space)
    ensures r.Got? ==> r.p % alignB == 0 && (req <= a.g.space - 8 ==> Covers(a.g, a.bs, r.p, req))
  {
    hide Alignable, Serveable, Pow2, GrantOk, BytesFor, BaseReq, Core, TableOk, Settled, Redzones, Paged, LiveWordsKept;
    hide AlignReq, OnlyAdds, MadeFrom, BaseWraps, AlignedBeyond, Arena.Overwrote, TableRoom;
    AlignableIs(alignB);
    ServeableIs(a.g, alignB, req);
    AlignExact(a.g, req);
    ghost var at;
    r, at := a.Memalign(alignB, req, grant, true);
  }

  // ----- the words of a redzone

  /** The byte that fills a redzone is the low byte of the block's address with some bits flipped: 0x31 before the
      payload, and 0x7c behind it. All bytes of a word are that one. */
  lemma FillIs(g: Geometry, b: nat)
    requires g.Valid()
    ensures RzByte(b, REDZONE_LO_MASK) == ((b % 256) as bv8 ^ 0x31) as nat
    ensures RzByte(b, REDZONE_HI_MASK) == ((b % 256) as bv8 ^ 0x7c) as nat
    ensures 255 * RzWord(g, b, REDZONE_LO_MASK) == RzByte(b, REDZONE_LO_MASK) * (g.space - 1)
    ensures 255 * RzWord(g, b, REDZONE_HI_MASK) == RzByte(b, REDZONE_HI_MASK) * (g.space - 1)
  {
    RepeatedByte(g, b, REDZONE_LO_MASK);
    RepeatedByte(g, b, REDZONE_HI_MASK);
  }

  lemma RepeatedByte(g: Geometry, b: nat, mask: bv8)
    requires g.Valid()
    ensures 255 * RzWord(g, b, mask) == RzByte(b, mask) * (g.space - 1)
  {
    hide RzByte;
  }
}
