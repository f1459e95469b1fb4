/** A valid arena is found sane, and damage to a redzone is found (m_mallocfree.c). */
module ArenaSane {
  import opened SizeClasses
  import opened ArenaState
  import opened ArenaWords
  import opened ArenaShapes
  import opened ArenaCounts
  import opened MapSums
  import opened ArenaFacts
  import opened ArenaChecks

  // ----- the walk

  /** The redzones of the block, if it is in use and they are looked at. */
  ghost predicate RedzoneOk(g: Geometry, mem: Memory, bs: Blocks, b: nat)
    requires g.Valid()
  {
    b in bs && bs[b].st.Used? && !g.clientmem ==> RedzoneOf(g, mem, b, bs[b].size)
  }

  lemma RedzonesAre(g: Geometry, mem: Memory, bs: Blocks)
    requires g.Valid() && Redzones(g, mem, bs)
    ensures forall b :: RedzoneOk(g, mem, bs, b)
  {
    hide RedzoneOf;
    forall b
      ensures RedzoneOk(g, mem, bs, b)
    {
      if b in bs && bs[b].st.Used? && !g.clientmem { assert RedzoneOf(g, mem, b, bs[b].size); }
    }
  }

  /** The bytes on loan and the free blocks that a walk has counted when it is at `x` in superblock `sb`. */
  ghost predicate Tallied(g: Geometry, bs: Blocks, done: set<nat>, sb: nat, x: nat, loan: nat, nfree: nat) {
    loan == Sum(Live(g, Seen(bs, done, sb, x))) && nfree == |FreeSet(Seen(bs, done, sb, x))|
  }

  lemma WalkStart(g: Geometry, sbs: Superblocks, bs: Blocks, done: set<nat>, sb: nat, loan: nat, nfree: nat)
    requires g.Valid() && Tiled(g, sbs, bs) && sb in sbs && Tallied(g, bs, done, sb, 0, loan, nfree)
    ensures AtBlock(g, sbs, bs, sb, Start(g, sb)) && Tallied(g, bs, done, sb, Start(g, sb), loan, nfree)
  {
    SeenStart(g, sbs, bs, done, sb);
  }

  /** At the end of one superblock, the walk is where it starts another. */
  lemma TallyNext(g: Geometry, sbs: Superblocks, bs: Blocks, done: set<nat>, sb: nat, loan: nat, nfree: nat)
    requires g.Valid() && Tiled(g, sbs, bs) && sb in sbs && Tallied(g, bs, done, sb, End(g, sbs, sb), loan, nfree)
    ensures forall s :: Tallied(g, bs, done + {sb}, s, 0, loan, nfree)
  {
    hide Tiled, Seen, Sum, FreeSet, Live;
    forall s: nat
      ensures Tallied(g, bs, done + {sb}, s, 0, loan, nfree)
    {
      SeenNext(g, sbs, bs, done, sb, s);
    }
  }

  lemma TallyAll(g: Geometry, sbs: Superblocks, bs: Blocks, done: set<nat>, loan: nat, nfree: nat)
    requires g.Valid() && Tiled(g, sbs, bs) && sbs.Keys <= done && Tallied(g, bs, done, 0, 0, loan, nfree)
    ensures loan == Sum(Live(g, bs)) && nfree == |FreeSet(bs)|
  {
    hide Tiled, Seen, Sum, FreeSet, Live;
    SeenAll(g, sbs, bs, done, 0);
  }

  /** A free block ends at `x`. */
  ghost predicate FreeUpTo(bs: Blocks, last: nat, x: nat)
  {
    last in bs && bs[last].st.Listed? && last + bs[last].size == x
  }

  /** One step of the checker's walk, at a block: nothing fails, and the tallies go on. */
  lemma WalkStep(g: Geometry, mem: Memory, sbs: Superblocks, bs: Blocks, done: set<nat>, sb: nat, b: nat,
                 last: nat, lastWasFree: bool, junk: int -> nat, loan: nat, nfree: nat)
    requires g.Valid() && Tiled(g, sbs, bs) && Mapped(g, mem, sbs) && TagsOk(g, mem, sbs, bs) && Settled(bs)
    requires RedzoneOk(g, mem, bs, b) && AtBlock(g, sbs, bs, sb, b) && b < End(g, sbs, sb) && sb !in done
    requires Tallied(g, bs, done, sb, b, loan, nfree)
    requires lastWasFree ==> FreeUpTo(bs, last, b)
    ensures b in bs && bs[b].size > 0 && AtBlock(g, sbs, bs, sb, b + bs[b].size) && b + bs[b].size <= End(g, sbs, sb)
    ensures !StepFails(g, mem, junk, b, lastWasFree)
    ensures var t := WordAt(mem, b, junk);
            && Plain(t) == bs[b].size && (t % 2 != 0 ==> FreeUpTo(bs, b, b + bs[b].size))
            && (t % 2 == 0 ==>
                  t >= g.Overhead() && Tallied(g, bs, done, sb, b + bs[b].size, loan + (t - g.Overhead()), nfree))
            && (t % 2 != 0 ==> Tallied(g, bs, done, sb, b + bs[b].size, loan, nfree + 1))
  {
    hide Tiled, Mapped, TagsOk, Seen, Sum, FreeSet, Live, NoFreePair, Cell, RedzoneSane, RedzoneOf;
    TagWords(g, mem, sbs, bs, b);
    InSpace(g, sbs, bs, b);
    BlockSize(g, sbs, bs, b);
    SeenStep(g, sbs, bs, done, sb, b);
    LoanAdd(g, Seen(bs, done, sb, b), b, bs[b]);
    FreeAdd(Seen(bs, done, sb, b), b, bs[b]);
    if lastWasFree { FreesMerged(bs, last); }
    if bs[b].st.Used? && !g.clientmem { RedzoneSeen(g, mem, sbs, bs, b, junk); }
  }

  /** The checker finds the redzones of a block in use sane, whatever it would read elsewhere. */
  lemma RedzoneSeen(g: Geometry, mem: Memory, sbs: Superblocks, bs: Blocks, b: nat, junk: int -> nat)
    requires g.Valid() && Tiled(g, sbs, bs) && Mapped(g, mem, sbs) && b in bs && RedzoneOf(g, mem, b, bs[b].size)
    ensures RedzoneSane(g, mem, junk, b, bs[b].size, g.rz)
  {
    Readable(g, mem, sbs, bs, b);
    InSpace(g, sbs, bs, b);
    BlockSize(g, sbs, bs, b);
    RedzoneFrame(g, mem, mem, NOTHING, junk, b, bs[b].size, g.rz);
  }

  lemma SeenNothing(g: Geometry, bs: Blocks)
    ensures forall s :: Tallied(g, bs, {}, s, 0, 0, 0)
  {
    forall s
      ensures Tallied(g, bs, {}, s, 0, 0, 0)
    {
      assert Seen(bs, {}, s, 0) == map[];
      assert Live(g, map[]) == map[];
      assert FreeSet(map[]) == {};
    }
  }

  /** What a walk relies on: tiled superblocks, agreeing tags, and nothing in between two steps of an operation. */
  ghost predicate Walkable(g: Geometry, mem: Memory, sbs: Superblocks, bs: Blocks) {
    g.Valid() && Tiled(g, sbs, bs) && Mapped(g, mem, sbs) && TagsOk(g, mem, sbs, bs) && Settled(bs)
  }

  /** The walk is at a block, or at the end, of superblock `sb`; what it has counted is right. */
  ghost predicate WalkAt(g: Geometry, sbs: Superblocks, bs: Blocks, done: set<nat>, sb: nat, i: nat, last: nat,
                         lastWasFree: bool, loan: nat, nfree: nat) {
    && sb in sbs && sb !in done && i <= sbs[sb] < WORD32 && AtBlock(g, sbs, bs, sb, Start(g, sb) + i)
    && Tallied(g, bs, done, sb, Start(g, sb) + i, loan, nfree)
    && (lastWasFree ==> FreeUpTo(bs, last, Start(g, sb) + i))
  }

  lemma WalkGoesOn(g: Geometry, mem: Memory, sbs: Superblocks, bs: Blocks, done: set<nat>, sb: nat, i: nat, last: nat,
                   lastWasFree: bool, junk: int -> nat, loan: nat, nfree: nat)
    requires Walkable(g, mem, sbs, bs) && WalkAt(g, sbs, bs, done, sb, i, last, lastWasFree, loan, nfree) && i < sbs[sb]
    requires RedzoneOk(g, mem, bs, Start(g, sb) + i)
    ensures !StepFails(g, mem, junk, Start(g, sb) + i, lastWasFree)
    ensures var lo := WordAt(mem, Start(g, sb) + i, junk);
            var b, i' := Start(g, sb) + i, Low32(i + Plain(lo));
            && i < i' && i' == i + Plain(lo) && b in bs && i' == i + bs[b].size
            && (lo % 2 != 0 ==> WalkAt(g, sbs, bs, done, sb, i', b, true, loan, nfree + 1))
            && (lo % 2 == 0 ==>
                  lo >= g.Overhead() && WalkAt(g, sbs, bs, done, sb, i', b, false, loan + (lo - g.Overhead()), nfree))
  {
    hide Tiled, Mapped, TagsOk, Settled, Tallied, StepFails, AtBlock;
    WalkStep(g, mem, sbs, bs, done, sb, Start(g, sb) + i, last, lastWasFree, junk, loan, nfree);
  }

  /** The walk over a valid superblock that a 32-bit index can get through is sane, and adds up its bytes on loan and
      its free blocks. */
  lemma {:induction false} WalkSane(g: Geometry, mem: Memory, sbs: Superblocks, bs: Blocks, done: set<nat>, sb: nat,
                                    i: nat, last: nat, lastWasFree: bool, steps: nat, junk: int -> nat, loan: nat,
                                    nfree: nat)
    requires Walkable(g, mem, sbs, bs) && WalkAt(g, sbs, bs, done, sb, i, last, lastWasFree, loan, nfree)
    requires steps >= sbs[sb] - i && forall b :: b in bs && bs[b].sb == sb ==> RedzoneOk(g, mem, bs, b)
    ensures var w := Walk(g, mem, junk, Start(g, sb), sbs[sb], i, lastWasFree, steps, loan, nfree);
            w.v.Sane? && Tallied(g, bs, done, sb, End(g, sbs, sb), w.loan, w.nfree)
    decreases sbs[sb] - i
  {
    hide Walkable, Tallied, StepFails, RedzoneOk;
    if i < sbs[sb] {
      BlockHere(g, sbs, bs, sb, Start(g, sb) + i);
      WalkGoesOn(g, mem, sbs, bs, done, sb, i, last, lastWasFree, junk, loan, nfree);
      var b := Start(g, sb) + i;
      var lo := WordAt(mem, b, junk);
      var i' := Low32(i + Plain(lo));
      if lo % 2 != 0 {
        WalkSane(g, mem, sbs, bs, done, sb, i', b, true, steps - 1, junk, loan, nfree + 1);
      } else {
        WalkSane(g, mem, sbs, bs, done, sb, i', b, false, steps - 1, junk, loan + (lo - g.Overhead()), nfree);
      }
    }
  }

  lemma BlockHere(g: Geometry, sbs: Superblocks, bs: Blocks, sb: nat, x: nat)
    requires AtBlock(g, sbs, bs, sb, x) && x < End(g, sbs, sb)
    ensures x in bs && bs[x].sb == sb
  {
  }

  lemma WalkBegins(g: Geometry, mem: Memory, sbs: Superblocks, bs: Blocks, done: set<nat>, sb: nat, loan: nat,
                   nfree: nat)
    requires Walkable(g, mem, sbs, bs) && sb in sbs && sb !in done && sbs[sb] < WORD32
    requires Tallied(g, bs, done, sb, 0, loan, nfree)
    ensures WalkAt(g, sbs, bs, done, sb, 0, 0, false, loan, nfree)
  {
    hide Tallied;
    WalkStart(g, sbs, bs, done, sb, loan, nfree);
  }

  /** The superblocks of the first `j` entries of a table. */
  ghost function FirstIn(t: seq<nat>, j: nat): set<nat>
    requires j <= |t|
  {
    set k | 0 <= k < j :: t[k]
  }

  /** So are the walks over all of the superblocks. */
  lemma {:induction false} WalkAllSane(g: Geometry, mem: Memory, sbs: Superblocks, bs: Blocks, t: seq<nat>, j: nat,
                                       done: set<nat>, steps: nat, junk: int -> nat, loan: nat, nfree: nat)
    requires Walkable(g, mem, sbs, bs) && TableOk(t, sbs) && j <= |t| && done == FirstIn(t, j)
    requires Indexable(sbs) && steps >= WORD32 && (forall s :: Tallied(g, bs, done, s, 0, loan, nfree))
    requires forall b :: RedzoneOk(g, mem, bs, b)
    ensures var w := WalkAll(g, mem, junk, t[j..], steps, loan, nfree);
            w.v.Sane? && w.loan == Sum(Live(g, bs)) && w.nfree == |FreeSet(bs)|
    decreases |t| - j
  {
    hide Tallied, Walk, Sum, Live, FreeSet, RedzoneOk;
    if j == |t| {
      assert sbs.Keys <= done;
      assert Tiled(g, sbs, bs) && Tallied(g, bs, done, 0, 0, loan, nfree);
      TallyAll(g, sbs, bs, done, loan, nfree);
    } else {
      var sb := t[j];
      assert t[j..][0] == sb && t[j..][1..] == t[j + 1..] && sb in sbs && sb !in done;
      SuperblockMapped(g, mem, sbs, bs, sb);
      WalkBegins(g, mem, sbs, bs, done, sb, loan, nfree);
      WalkSane(g, mem, sbs, bs, done, sb, 0, 0, false, steps, junk, loan, nfree);
      var w := Walk(g, mem, junk, Start(g, sb), sbs[sb], 0, false, steps, loan, nfree);
      TallyNext(g, sbs, bs, done, sb, w.loan, w.nfree);
      WalkAllSane(g, mem, sbs, bs, t, j + 1, done + {sb}, steps, junk, w.loan, w.nfree);
    }
  }

  // ----- the rings

  lemma {:induction false} FewNats(s: set<nat>, n: nat)
    requires forall x :: x in s ==> x < n
    ensures |s| <= n
  {
    if n == 0 {
      assert s == {};
    } else {
      FewNats(s - {n - 1}, n - 1);
    }
  }

  /** A ring has fewer blocks than there are addresses. */
  lemma RingFits(g: Geometry, mem: Memory, sbs: Superblocks, bs: Blocks, lists: seq<seq<nat>>, lno: nat)
    requires Core(g, mem, sbs, bs, lists) && lno < N_MALLOC_LISTS
    ensures |lists[lno]| <= g.space
  {
    hide ListNo, AllListed, Mapped, TagsOk, Linked;
    var l := lists[lno];
    assert ListOk(g, mem, bs, lno, l);
    DistinctCount(l);
    forall b | b in l
      ensures b < g.space
    {
      InSpace(g, sbs, bs, b);
    }
    FewNats(Elements(l), g.space);
  }

  /** What the checker reads at a listed block. */
  lemma ListedWords(g: Geometry, mem: Memory, sbs: Superblocks, bs: Blocks, lists: seq<seq<nat>>, lno: nat, k: nat,
                    junk: int -> nat)
    requires Core(g, mem, sbs, bs, lists) && lno < N_MALLOC_LISTS && k < |lists[lno]|
    ensures var l := lists[lno];
            && TagsAgree(g, mem, junk, l[k]) && NextOf(g, mem, junk, l[k]) == l[Succ(k, |l|)]
            && WordAt(mem, Cell(g, l[k] + g.W), junk) == l[Pred(k, |l|)]
            && SizeFits(g, mem, junk, l[k], ListMin(lno), ListMax(lno, g.space - 1))
  {
    hide ListNo, AllListed, Cell, ListMin, ListMax;
    var l := lists[lno];
    assert ListOk(g, mem, bs, lno, l);
    assert LinkedAt(g, mem, bs, l, k);
    TagWords(g, mem, sbs, bs, l[k]);
    InSpace(g, sbs, bs, l[k]);
    Readable(g, mem, sbs, bs, l[k]);
    BlockSize(g, sbs, bs, l[k]);
    PszBounds(g, mem, sbs, bs, lists, l[k], lno);
  }

  /** The ring of a list is sane, and as many blocks are counted as the list has. */
  lemma {:induction false} RingIsSane(g: Geometry, mem: Memory, sbs: Superblocks, bs: Blocks, lists: seq<seq<nat>>,
                                      lno: nat, k: nat, steps: nat, junk: int -> nat, count: nat)
    requires Core(g, mem, sbs, bs, lists) && lno < N_MALLOC_LISTS && k < |lists[lno]| && steps >= |lists[lno]| - k
    ensures var l := lists[lno];
            Ring(g, mem, junk, l[0], l[k], ListMin(lno), ListMax(lno, g.space - 1), steps, count)
            == Counted(Sane, count + |l| - k)
    decreases |lists[lno]| - k
  {
    hide Core, TagsAgree, SizeFits, NextOf, WordAt, Cell, ListMin, ListMax;
    HasLists(g, mem, sbs, bs, lists);
    var l := lists[lno];
    ListedWords(g, mem, sbs, bs, lists, lno, k, junk);
    ListedWords(g, mem, sbs, bs, lists, lno, Succ(k, |l|), junk);
    OnlyHead(g, mem, bs, sbs, lists, lno, Succ(k, |l|));
    if k + 1 < |l| { RingIsSane(g, mem, sbs, bs, lists, lno, k + 1, steps - 1, junk, count + 1); }
  }

  lemma HasLists(g: Geometry, mem: Memory, sbs: Superblocks, bs: Blocks, lists: seq<seq<nat>>)
    requires Core(g, mem, sbs, bs, lists)
    ensures |lists| == N_MALLOC_LISTS
  {
  }

  lemma OnlyHead(g: Geometry, mem: Memory, bs: Blocks, sbs: Superblocks, lists: seq<seq<nat>>, lno: nat, k: nat)
    requires Core(g, mem, sbs, bs, lists) && lno < N_MALLOC_LISTS && k < |lists[lno]|
    ensures lists[lno][k] == lists[lno][0] <==> k == 0
  {
    assert ListOk(g, mem, bs, lno, lists[lno]);
  }

  /** The rings are sane, and together have all the free blocks. */
  lemma {:induction false} RingsAreSane(g: Geometry, mem: Memory, sbs: Superblocks, bs: Blocks, lists: seq<seq<nat>>,
                                        heads: seq<nat>, lno: nat, steps: nat, junk: int -> nat)
    requires Core(g, mem, sbs, bs, lists) && Heads(heads, lists) && lno <= N_MALLOC_LISTS && steps >= g.space
    ensures RingsFrom(g, mem, junk, heads, lno, steps, |FreeBelow(g, bs, lno)|) == Counted(Sane, |FreeSet(bs)|)
    decreases N_MALLOC_LISTS - lno
  {
    hide Core, Ring, ListMin, ListMax, FreeBelow, FreeSet, Heads, ListNo;
    if lno == N_MALLOC_LISTS {
      AllBelow(g, mem, sbs, bs, lists);
    } else {
      HeadOf(g, mem, sbs, bs, lists, heads, lno);
      RingFits(g, mem, sbs, bs, lists, lno);
      OneMoreList(g, mem, sbs, bs, lists, lno);
      if lists[lno] != [] { RingIsSane(g, mem, sbs, bs, lists, lno, 0, steps, junk, |FreeBelow(g, bs, lno)|); }
      RingsAreSane(g, mem, sbs, bs, lists, heads, lno + 1, steps, junk);
    }
  }

  lemma AllBelow(g: Geometry, mem: Memory, sbs: Superblocks, bs: Blocks, lists: seq<seq<nat>>)
    requires Core(g, mem, sbs, bs, lists)
    ensures |FreeBelow(g, bs, N_MALLOC_LISTS)| == |FreeSet(bs)| && |FreeBelow(g, bs, 0)| == 0
  {
    hide FreeBelow, FreeSet, ListNo;
    FreeBelowAll(g, bs, lists);
  }

  lemma OneMoreList(g: Geometry, mem: Memory, sbs: Superblocks, bs: Blocks, lists: seq<seq<nat>>, lno: nat)
    requires Core(g, mem, sbs, bs, lists) && lno < N_MALLOC_LISTS
    ensures |FreeBelow(g, bs, lno + 1)| == |FreeBelow(g, bs, lno)| + |lists[lno]|
  {
    hide FreeBelow, ListNo;
    FreeBelowStep(g, mem, bs, lists, lno);
  }

  // ----- the whole check

  /** A valid arena is found sane, given enough steps, if and only if every superblock has less than 2^32 payload
      bytes. */
  lemma ValidIsSane(g: Geometry, mem: Memory, sbs: Superblocks, bs: Blocks, lists: seq<seq<nat>>, heads: seq<nat>,
                    t: seq<nat>, loan: nat, junk: int -> nat, steps: nat)
    requires Core(g, mem, sbs, bs, lists) && Heads(heads, lists) && Settled(bs) && Redzones(g, mem, bs)
    requires TableOk(t, sbs)
    requires loan == Sum(Live(g, bs))
    ensures |heads| == N_MALLOC_LISTS
    ensures Checked(g, Heap(mem, heads), t, true, loan, junk, steps).Sane? ==> Indexable(sbs)
    ensures steps >= g.space ==> (Checked(g, Heap(mem, heads), t, true, loan, junk, steps).Sane? <==> Indexable(sbs))
  {
    hide Settled, Redzones, Live, Sum, FreeSet, WalkAll, RingsFrom, ListNo, Tallied, Walk;
    CheckedMeans(g, Heap(mem, heads), t, true, loan, junk, steps);
    if WalkAll(g, mem, junk, t, steps, 0, 0).v.Sane? { SaneIsIndexable(g, mem, sbs, bs, t, junk, steps); }
    if steps >= g.space && Indexable(sbs) {
      assert Walkable(g, mem, sbs, bs);
      RedzonesAre(g, mem, bs);
      SeenNothing(g, bs);
      assert FirstIn(t, 0) == {};
      WalkAllSane(g, mem, sbs, bs, t, 0, {}, steps, junk, 0, 0);
      assert t[0..] == t;
      AllBelow(g, mem, sbs, bs, lists);
      RingsAreSane(g, mem, sbs, bs, lists, heads, 0, steps, junk);
    }
  }

  lemma SaneIsIndexable(g: Geometry, mem: Memory, sbs: Superblocks, bs: Blocks, t: seq<nat>, junk: int -> nat,
                        steps: nat)
    requires g.Valid() && Tiled(g, sbs, bs) && Mapped(g, mem, sbs) && TagsOk(g, mem, sbs, bs) && TableOk(t, sbs)
    requires WalkAll(g, mem, junk, t, steps, 0, 0).v.Sane?
    ensures Indexable(sbs)
  {
    hide Walk, WalkAll;
    forall s | s in sbs
      ensures sbs[s] < WORD32
    {
      var j :| 0 <= j < |t| && t[j] == s;
      WalkAllMeans(g, mem, junk, t, steps, 0, 0, j);
      SuperblockMapped(g, mem, sbs, bs, s);
    }
  }

  // ----- damage

  /** The word at `a` is one of the redzones of live block `b`: `e` bytes from its start, or as far from its end. */
  ghost predicate InRedzone(g: Geometry, bs: Blocks, b: nat, e: nat, a: nat)
    requires g.Valid()
  {
    && b in bs && bs[b].st.Used? && g.W <= e <= g.rz && WordMultiple(g, e)
    && (a == b + e || a + g.W + e == b + bs[b].size)
  }

  /** All redzones but those of block `b`. */
  ghost predicate RedzonesBut(g: Geometry, mem: Memory, bs: Blocks, b: nat)
    requires g.Valid()
  {
    forall c :: c != b ==> RedzoneOk(g, mem, bs, c)
  }

  /** A store that changes a redzone, and so spoils it, and no other one, and nothing that the walk relies on. */
  lemma Spoilt(g: Geometry, mem: Memory, sbs: Superblocks, bs: Blocks, lists: seq<seq<nat>>, b: nat, e: nat, a: nat,
               v: nat, junk: int -> nat)
    requires Core(g, mem, sbs, bs, lists) && Settled(bs) && Redzones(g, mem, bs) && !g.clientmem
    requires InRedzone(g, bs, b, e, a) && v != Read(mem, a)
    ensures Core(g, mem[a := v], sbs, bs, lists) && Walkable(g, mem[a := v], sbs, bs)
    ensures !RedzoneSane(g, mem[a := v], junk, b, bs[b].size, g.rz)
    ensures RedzonesBut(g, mem[a := v], bs, b)
  {
    hide Settled, Redzones, Core;
    SpoiltCore(g, mem, sbs, bs, lists, b, e, a, v);
    SpoiltOne(g, mem, sbs, bs, lists, b, e, a, v, junk);
    SpoiltOthers(g, mem, sbs, bs, lists, b, e, a, v);
  }

  lemma SpoiltCore(g: Geometry, mem: Memory, sbs: Superblocks, bs: Blocks, lists: seq<seq<nat>>, b: nat, e: nat, a: nat,
                   v: nat)
    requires Core(g, mem, sbs, bs, lists) && Settled(bs) && InRedzone(g, bs, b, e, a)
    ensures Core(g, mem[a := v], sbs, bs, lists) && Walkable(g, mem[a := v], sbs, bs)
    ensures g.W == 4 || g.W == 8
    ensures b + g.W <= a && a + 2 * g.W <= b + bs[b].size && b + bs[b].size < g.space && bs[b].size >= g.Overhead()
  {
    hide Settled, Mapped, TagsOk, ListsOk, AllListed;
    InSpace(g, sbs, bs, b);
    BlockSize(g, sbs, bs, b);
    InteriorWrite(g, mem, sbs, bs, lists, b, a, v);
  }

  lemma SpoiltOne(g: Geometry, mem: Memory, sbs: Superblocks, bs: Blocks, lists: seq<seq<nat>>, b: nat, e: nat, a: nat,
                  v: nat, junk: int -> nat)
    requires Core(g, mem, sbs, bs, lists) && Redzones(g, mem, bs) && !g.clientmem
    requires InRedzone(g, bs, b, e, a) && v != Read(mem, a)
    ensures !RedzoneSane(g, mem[a := v], junk, b, bs[b].size, g.rz)
  {
    hide Mapped, TagsOk, ListsOk, AllListed, Cell, RzWord, RedzoneSane;
    Readable(g, mem, sbs, bs, b);
    InSpace(g, sbs, bs, b);
    BlockSize(g, sbs, bs, b);
    WholeWords(g);
    assert RedzoneOf(g, mem, b, bs[b].size);
    RedzoneMeans(g, mem, NOTHING, b, bs[b].size, g.rz);
    RedzoneMeans(g, mem[a := v], junk, b, bs[b].size, g.rz);
    assert WordMultiple(g, e);
  }

  lemma SpoiltOthers(g: Geometry, mem: Memory, sbs: Superblocks, bs: Blocks, lists: seq<seq<nat>>, b: nat, e: nat,
                     a: nat, v: nat)
    requires Core(g, mem, sbs, bs, lists) && Redzones(g, mem, bs) && !g.clientmem && InRedzone(g, bs, b, e, a)
    ensures RedzonesBut(g, mem[a := v], bs, b)
  {
    hide Mapped, TagsOk, ListsOk, AllListed, RedzoneSane;
    InSpace(g, sbs, bs, b);
    BlockSize(g, sbs, bs, b);
    forall c | c != b && c in bs && bs[c].st.Used?
      ensures RedzoneOf(g, mem[a := v], c, bs[c].size)
    {
      assert RedzoneOf(g, mem, c, bs[c].size);
      InSpace(g, sbs, bs, c);
      BlockSize(g, sbs, bs, c);
      CellsApart(g, sbs, bs, b, c);
      RedzoneFrame(g, mem, mem[a := v], NOTHING, NOTHING, c, bs[c].size, g.rz);
    }
  }

  /** The walk that gets to a block with a spoilt redzone ends there. */
  lemma {:induction false} WalkFinds(g: Geometry, mem: Memory, sbs: Superblocks, bs: Blocks, done: set<nat>, b: nat,
                                     i: nat, last: nat, lastWasFree: bool, steps: nat, junk: int -> nat, loan: nat,
                                     nfree: nat)
    requires Walkable(g, mem, sbs, bs) && b in bs
    requires WalkAt(g, sbs, bs, done, bs[b].sb, i, last, lastWasFree, loan, nfree)
    requires steps >= sbs[bs[b].sb] - i && RedzonesBut(g, mem, bs, b)
    requires Start(g, bs[b].sb) + i <= b && StepFails(g, mem, junk, b, false)
    ensures Walk(g, mem, junk, Start(g, bs[b].sb), sbs[bs[b].sb], i, lastWasFree, steps, loan, nfree).v.Bomb?
    decreases sbs[bs[b].sb] - i
  {
    hide Walkable, Tallied, StepFails, RedzoneOk;
    var sb := bs[b].sb;
    var c := Start(g, sb) + i;
    BeforeIt(g, mem, sbs, bs, b, c);
    if c == b {
      FailsEither(g, mem, junk, b, lastWasFree);
    } else {
      WalkGoesOn(g, mem, sbs, bs, done, sb, i, last, lastWasFree, junk, loan, nfree);
      var lo := WordAt(mem, c, junk);
      var i' := Low32(i + Plain(lo));
      if lo % 2 != 0 {
        WalkFinds(g, mem, sbs, bs, done, b, i', c, true, steps - 1, junk, loan, nfree + 1);
      } else {
        WalkFinds(g, mem, sbs, bs, done, b, i', c, false, steps - 1, junk, loan + (lo - g.Overhead()), nfree);
      }
    }
  }

  lemma FailsEither(g: Geometry, mem: Memory, junk: int -> nat, b: nat, lastWasFree: bool)
    requires g.Valid() && StepFails(g, mem, junk, b, false)
    ensures StepFails(g, mem, junk, b, lastWasFree)
  {
  }

  lemma BeforeIt(g: Geometry, mem: Memory, sbs: Superblocks, bs: Blocks, b: nat, c: nat)
    requires Walkable(g, mem, sbs, bs) && b in bs && c <= b
    ensures g.Valid() && bs[b].sb in sbs && b < End(g, sbs, bs[b].sb) && (c in bs && c < b ==> c + bs[c].size <= b)
  {
    hide SuperblockFits, SuperblocksApart;
    assert BlockFits(g, sbs, bs, b);
  }

  /** And so do the walks over all superblocks. */
  lemma {:induction false} WalkAllFinds(g: Geometry, mem: Memory, sbs: Superblocks, bs: Blocks, t: seq<nat>, j: nat,
                                        done: set<nat>, b: nat, steps: nat, junk: int -> nat, loan: nat, nfree: nat)
    requires Walkable(g, mem, sbs, bs) && TableOk(t, sbs) && j <= |t| && done == FirstIn(t, j)
    requires Indexable(sbs) && steps >= WORD32 && (forall s :: Tallied(g, bs, done, s, 0, loan, nfree))
    requires b in bs && bs[b].sb !in done && StepFails(g, mem, junk, b, false)
    requires RedzonesBut(g, mem, bs, b)
    ensures WalkAll(g, mem, junk, t[j..], steps, loan, nfree).v.Bomb?
    decreases |t| - j
  {
    hide Tallied, Walk, RedzoneOk, StepFails;
    BeforeIt(g, mem, sbs, bs, b, b);
    assert bs[b].sb in t;
    var sb := t[j];
    assert t[j..][0] == sb && t[j..][1..] == t[j + 1..] && sb in sbs && sb !in done;
    SuperblockMapped(g, mem, sbs, bs, sb);
    WalkBegins(g, mem, sbs, bs, done, sb, loan, nfree);
    if sb == bs[b].sb {
      AfterStart(g, mem, sbs, bs, b);
      WalkFinds(g, mem, sbs, bs, done, b, 0, 0, false, steps, junk, loan, nfree);
    } else {
      WalkSane(g, mem, sbs, bs, done, sb, 0, 0, false, steps, junk, loan, nfree);
      var w := Walk(g, mem, junk, Start(g, sb), sbs[sb], 0, false, steps, loan, nfree);
      TallyNext(g, sbs, bs, done, sb, w.loan, w.nfree);
      WalkAllFinds(g, mem, sbs, bs, t, j + 1, done + {sb}, b, steps, junk, w.loan, w.nfree);
    }
  }

  lemma AfterStart(g: Geometry, mem: Memory, sbs: Superblocks, bs: Blocks, b: nat)
    requires Walkable(g, mem, sbs, bs) && b in bs
    ensures Start(g, bs[b].sb) <= b
  {
    hide SuperblockFits, SuperblocksApart;
    assert BlockFits(g, sbs, bs, b);
  }

  /** In an arena with redzones whose superblocks can be indexed, the check finds a store into any word of a redzone of
      any live block, if and only if the store has changed the word. */
  lemma DamageIsFound(g: Geometry, mem: Memory, sbs: Superblocks, bs: Blocks, lists: seq<seq<nat>>, heads: seq<nat>,
                      t: seq<nat>, loan: nat, junk: int -> nat, steps: nat, b: nat, e: nat, a: nat, v: nat)
    requires Core(g, mem, sbs, bs, lists) && Heads(heads, lists) && Settled(bs) && Redzones(g, mem, bs)
    requires TableOk(t, sbs)
    requires loan == Sum(Live(g, bs)) && Indexable(sbs) && steps >= g.space && !g.clientmem
    requires InRedzone(g, bs, b, e, a)
    ensures |heads| == N_MALLOC_LISTS
    ensures var verdict := Checked(g, Heap(mem[a := v], heads), t, true, loan, junk, steps);
            if v == Read(mem, a) then verdict.Sane? else verdict.Bomb?
  {
    hide Core, Heads, Settled, Redzones, Live, Sum, WalkAll, RingsFrom, Tallied, RedzoneOk, TableOk, Indexable;
    HeadsLength(heads, lists);
    if v == Read(mem, a) {
      SameStored(g, mem, sbs, bs, lists, b, e, a);
      ValidIsSane(g, mem, sbs, bs, lists, heads, t, loan, junk, steps);
    } else {
      Spoilt(g, mem, sbs, bs, lists, b, e, a, v, junk);
      SpoiltFails(g, mem, mem[a := v], sbs, bs, lists, b, e, a, junk);
      SeenNothing(g, bs);
      assert FirstIn(t, 0) == {};
      WalkAllFinds(g, mem[a := v], sbs, bs, t, 0, {}, b, steps, junk, 0, 0);
      assert t[0..] == t;
    }
  }

  lemma SameStored(g: Geometry, mem: Memory, sbs: Superblocks, bs: Blocks, lists: seq<seq<nat>>, b: nat, e: nat, a: nat)
    requires Core(g, mem, sbs, bs, lists) && InRedzone(g, bs, b, e, a)
    ensures mem[a := Read(mem, a)] == mem
  {
    hide TagsOk, ListsOk, AllListed;
    BlockSize(g, sbs, bs, b);
    Readable(g, mem, sbs, bs, b);
  }

  lemma SpoiltFails(g: Geometry, mem0: Memory, mem: Memory, sbs: Superblocks, bs: Blocks, lists: seq<seq<nat>>, b: nat,
                    e: nat, a: nat, junk: int -> nat)
    requires Core(g, mem, sbs, bs, lists) && InRedzone(g, bs, b, e, a) && !g.clientmem
    requires !RedzoneSane(g, mem, junk, b, bs[b].size, g.rz)
    ensures StepFails(g, mem, junk, b, false)
  {
    hide ListsOk, AllListed, RedzoneSane, Cell;
    TagWords(g, mem, sbs, bs, b);
    Readable(g, mem, sbs, bs, b);
    InSpace(g, sbs, bs, b);
  }
}
