/** The sanity checker, as a function of the words it reads, whatever they are (m_mallocfree.c). */
module ArenaChecks {
  import opened SizeClasses
  import opened ArenaState
  import opened ArenaWords

  // ----- the walk over a superblock

  /** How a walk has ended, and what it has counted: the bytes on loan, and the free blocks. */
  datatype Walked = Walked(v: Verdict, loan: nat, nfree: nat)

  /** Both size words of the block are the same, and not 0. */
  predicate TagsAgree(g: Geometry, mem: Memory, junk: int -> nat, b: nat)
    requires g.Valid()
  {
    var lo := WordAt(mem, b, junk);
    lo != 0 && WordAt(mem, Cell(g, b + Plain(lo) - g.W), junk) == lo
  }

  /** What makes the walk stop at a block: tags that differ or say no size, a free block after a free one, one in use
      that is too small, or a redzone that is not what it was filled with. */
  predicate StepFails(g: Geometry, mem: Memory, junk: int -> nat, b: nat, lastWasFree: bool)
    requires g.Valid()
  {
    var lo := WordAt(mem, b, junk);
    || !TagsAgree(g, mem, junk, b)
    || (lo % 2 != 0 && lastWasFree) || (lo % 2 == 0 && lo < g.Overhead())
    || (lo % 2 == 0 && !g.clientmem && !RedzoneSane(g, mem, junk, b, lo, g.rz))
  }

  /** The walk over `n` payload bytes from `start` on, seen from index `i`. */
  function Walk(g: Geometry, mem: Memory, junk: int -> nat, start: nat, n: nat, i: nat, lastWasFree: bool,
                steps: nat, loan: nat, nfree: nat): Walked
    requires g.Valid()
    decreases steps
  {
    if i >= n then Walked(if i > n then Bomb else Sane, loan, nfree)
    else if steps == 0 then Walked(Running, loan, nfree)
    else if StepFails(g, mem, junk, start + i, lastWasFree) then Walked(Bomb, loan, nfree)
    else
      var lo := WordAt(mem, start + i, junk);
      var i' := Low32(i + Plain(lo));
      if lo % 2 != 0 then Walk(g, mem, junk, start, n, i', true, steps - 1, loan, nfree + 1)
      else Walk(g, mem, junk, start, n, i', false, steps - 1, loan + (lo - g.Overhead()), nfree)
  }

  /** The walks over the superblocks of a table. */
  function WalkAll(g: Geometry, mem: Memory, junk: int -> nat, table: seq<nat>, steps: nat, loan: nat,
                   nfree: nat): Walked
    requires g.Valid()
  {
    if table == [] then Walked(Sane, loan, nfree)
    else
      var w := Walk(g, mem, junk, Start(g, table[0]), WordAt(mem, table[0], junk), 0, false, steps, loan, nfree);
      if !w.v.Sane? then w else WalkAll(g, mem, junk, table[1..], steps, w.loan, w.nfree)
  }

  // ----- the rings

  datatype Counted = Counted(v: Verdict, count: nat)

  function NextOf(g: Geometry, mem: Memory, junk: int -> nat, b: nat): nat
    requires g.Valid()
  {
    WordAt(mem, Cell(g, b + Plain(WordAt(mem, b, junk)) - 2 * g.W), junk)
  }

  /** The tags of a listed block agree, and its payload size is one of those of its list. */
  predicate SizeFits(g: Geometry, mem: Memory, junk: int -> nat, b: nat, minPsz: nat, maxPsz: nat)
    requires g.Valid()
  {
    && TagsAgree(g, mem, junk, b)
    && var bszB := Plain(WordAt(mem, b, junk));
       g.Overhead() <= bszB && minPsz <= bszB - g.Overhead() <= maxPsz
  }

  /** Once round a ring, seen from block `b`. */
  function Ring(g: Geometry, mem: Memory, junk: int -> nat, head: nat, b: nat, minPsz: nat, maxPsz: nat, steps: nat,
                count: nat): Counted
    requires g.Valid()
    decreases steps
  {
    if steps == 0 then Counted(Running, count)
    else if !TagsAgree(g, mem, junk, b) then Counted(Bomb, count)
    else
      var c := NextOf(g, mem, junk, b);
      if WordAt(mem, Cell(g, c + g.W), junk) != b then Counted(Bomb, count)
      else if !SizeFits(g, mem, junk, c, minPsz, maxPsz) then Counted(Bomb, count)
      else if c == head then Counted(Sane, count + 1)
      else Ring(g, mem, junk, head, c, minPsz, maxPsz, steps - 1, count + 1)
  }

  /** The rings of the lists from `lno` on. */
  function RingsFrom(g: Geometry, mem: Memory, junk: int -> nat, heads: seq<nat>, lno: nat, steps: nat,
                     count: nat): Counted
    requires g.Valid() && |heads| == N_MALLOC_LISTS && lno <= N_MALLOC_LISTS
    decreases N_MALLOC_LISTS - lno
  {
    if lno == N_MALLOC_LISTS then Counted(Sane, count)
    else if heads[lno] == 0 then RingsFrom(g, mem, junk, heads, lno + 1, steps, count)
    else
      var c := Ring(g, mem, junk, heads[lno], heads[lno], ListMin(lno), ListMax(lno, g.space - 1), steps, count);
      if !c.v.Sane? then c else RingsFrom(g, mem, junk, heads, lno + 1, steps, c.count)
  }

  // ----- the whole check

  /** The table looks right; the superblocks are sane; what is on loan in them is what the counter says; the rings are
      sane; and they have as many blocks as are free in the superblocks. */
  function Checked(g: Geometry, h: Heap, table: seq<nat>, tableOk: bool, bytesOnLoan: nat, junk: int -> nat,
                   steps: nat): Verdict
    requires g.Valid() && |h.heads| == N_MALLOC_LISTS
  {
    if !tableOk then Bomb
    else
      var w := WalkAll(g, h.mem, junk, table, steps, 0, 0);
      if !w.v.Sane? then w.v
      else if w.loan % g.space != bytesOnLoan % g.space then Bomb
      else
        var c := RingsFrom(g, h.mem, junk, h.heads, 0, steps, 0);
        if !c.v.Sane? then c.v else if Low32(w.nfree) != Low32(c.count) then Bomb else Sane
  }

  // ----- what a sane verdict means

  /** The words of both redzones, one by one. */
  lemma {:induction false} RedzoneMeans(g: Geometry, mem: Memory, junk: int -> nat, b: nat, bszB: nat, d: nat)
    requires g.Valid() && d <= g.rz && WordMultiple(g, d)
    ensures RedzoneSane(g, mem, junk, b, bszB, d) <==>
              forall e {:trigger WordMultiple(g, e)} :: g.W <= e <= d && WordMultiple(g, e) ==>
                && WordAt(mem, Cell(g, b + e), junk) == RzWord(g, b, 0x31)
                && WordAt(mem, Cell(g, b + bszB - g.W - e), junk) == RzWord(g, b, 0x7c)
    decreases d
  {
    hide Cell, RzWord, WordAt;
    if d > 0 {
      NextWord(g, d);
      RedzoneMeans(g, mem, junk, b, bszB, d - g.W);
      forall e | d - g.W < e < d
        ensures !WordMultiple(g, e)
      {
        BetweenWords(g, d, e);
      }
    }
  }

  lemma BetweenWords(g: Geometry, d: nat, e: nat)
    requires g.Valid() && WordMultiple(g, d) && d - g.W < e < d
    ensures !WordMultiple(g, e)
  {
  }

  /** A block that a sane walk has come by, word for word. */
  ghost predicate SoundBlock(g: Geometry, mem: Memory, junk: int -> nat, b: nat)
    requires g.Valid()
  {
    var lo := WordAt(mem, b, junk);
    && lo != 0 && WordAt(mem, (b + lo - lo % 2 - g.W) % g.space, junk) == lo
    && (lo % 2 == 0 ==> 2 * (g.W + g.rz) <= lo)
    && (lo % 2 == 0 && !g.clientmem ==>
          forall e {:trigger WordMultiple(g, e)} :: g.W <= e <= g.rz && WordMultiple(g, e) ==>
            && WordAt(mem, (b + e) % g.space, junk) == RzWord(g, b, 0x31)
            && WordAt(mem, (b + lo - g.W - e) % g.space, junk) == RzWord(g, b, 0x7c))
  }

  /** The walk goes from index `i` to `next`: the block there is sound, it ends, modulo 2^32, at the next index, and it
      is not free if the one before it was. */
  ghost predicate SoundStep(g: Geometry, mem: Memory, junk: int -> nat, start: nat, n: nat, i: nat, next: nat,
                            afterFree: bool)
    requires g.Valid()
  {
    var lo := WordAt(mem, start + i, junk);
    && i < n && SoundBlock(g, mem, junk, start + i) && next == (i + lo - lo % 2) % 0x1_0000_0000
    && (lo % 2 != 0 ==> !afterFree)
  }

  /** The block at index `i` is free. */
  ghost predicate FreeAt(mem: Memory, junk: int -> nat, b: nat) { WordAt(mem, b, junk) % 2 != 0 }

  /** The indices lead from sound block to sound block up to the end, and no two free ones follow one another. */
  ghost predicate SoundTrail(g: Geometry, mem: Memory, junk: int -> nat, start: nat, n: nat, trail: seq<nat>,
                             afterFree: bool)
    requires g.Valid()
  {
    if |trail| <= 1 then trail == [n]
    else
      && SoundStep(g, mem, junk, start, n, trail[0], trail[1], afterFree)
      && SoundTrail(g, mem, junk, start, n, trail[1..], FreeAt(mem, junk, start + trail[0]))
  }

  /** A sane walk has gone along such a trail. */
  lemma {:induction false} WalkMeans(g: Geometry, mem: Memory, junk: int -> nat, start: nat, n: nat, i: nat,
                                     lastWasFree: bool, steps: nat, loan: nat, nfree: nat)
    returns (trail: seq<nat>)
    requires g.Valid() && Walk(g, mem, junk, start, n, i, lastWasFree, steps, loan, nfree).v.Sane?
    ensures |trail| > 0 && trail[0] == i && SoundTrail(g, mem, junk, start, n, trail, lastWasFree)
    decreases steps
  {
    hide SoundStep, StepFails;
    if i == n {
      return [i];
    }
    var lo := WordAt(mem, start + i, junk);
    var i' := Low32(i + Plain(lo));
    PassedIsSound(g, mem, junk, start, n, i, lastWasFree);
    var rest;
    if lo % 2 != 0 {
      rest := WalkMeans(g, mem, junk, start, n, i', true, steps - 1, loan, nfree + 1);
    } else {
      rest := WalkMeans(g, mem, junk, start, n, i', false, steps - 1, loan + (lo - g.Overhead()), nfree);
    }
    trail := [i] + rest;
    assert trail[1..] == rest;
  }

  lemma PassedIsSound(g: Geometry, mem: Memory, junk: int -> nat, start: nat, n: nat, i: nat, lastWasFree: bool)
    requires g.Valid() && i < n && !StepFails(g, mem, junk, start + i, lastWasFree)
    ensures var lo := WordAt(mem, start + i, junk);
            SoundStep(g, mem, junk, start, n, i, Low32(i + Plain(lo)), lastWasFree) &&
            (lo % 2 == 0 ==> lo >= g.Overhead())
  {
    hide RzWord, WordAt, RedzoneSane;
    WholeWords(g);
    var b := start + i;
    if WordAt(mem, b, junk) % 2 == 0 && !g.clientmem {
      RedzoneMeans(g, mem, junk, b, WordAt(mem, b, junk), g.rz);
    }
  }

  /** From one block of a ring to the next one: the tags agree, the links lead there and back, and the size of the next
      one belongs to the list. */
  ghost predicate SoundLink(g: Geometry, mem: Memory, junk: int -> nat, b: nat, next: nat, minPsz: nat, maxPsz: nat)
    requires g.Valid()
  {
    var lo, size := WordAt(mem, b, junk), WordAt(mem, next, junk);
    && lo != 0 && WordAt(mem, (b + lo - lo % 2 - g.W) % g.space, junk) == lo
    && WordAt(mem, (b + lo - lo % 2 - 2 * g.W) % g.space, junk) == next
    && WordAt(mem, (next + g.W) % g.space, junk) == b
    && minPsz + 2 * (g.W + g.rz) <= size - size % 2 <= maxPsz + 2 * (g.W + g.rz)
  }

  /** From block to block by sound links, and round to the head. */
  ghost predicate SoundRing(g: Geometry, mem: Memory, junk: int -> nat, head: nat, ring: seq<nat>, minPsz: nat,
                            maxPsz: nat)
    requires g.Valid()
  {
    if |ring| <= 1 then |ring| == 1 && SoundLink(g, mem, junk, ring[0], head, minPsz, maxPsz)
    else
      && SoundLink(g, mem, junk, ring[0], ring[1], minPsz, maxPsz)
      && SoundRing(g, mem, junk, head, ring[1..], minPsz, maxPsz)
  }

  /** A ring that has been found sane is one. */
  lemma {:induction false} RingMeans(g: Geometry, mem: Memory, junk: int -> nat, head: nat, b: nat, minPsz: nat,
                                     maxPsz: nat, steps: nat, count: nat)
    returns (ring: seq<nat>)
    requires g.Valid() && Ring(g, mem, junk, head, b, minPsz, maxPsz, steps, count).v.Sane?
    ensures |ring| > 0 && ring[0] == b && SoundRing(g, mem, junk, head, ring, minPsz, maxPsz)
    ensures Ring(g, mem, junk, head, b, minPsz, maxPsz, steps, count).count == count + |ring|
    decreases steps
  {
    hide SoundLink, TagsAgree, SizeFits, NextOf, WordAt, Cell;
    var c := NextOf(g, mem, junk, b);
    LinkIsSound(g, mem, junk, b, minPsz, maxPsz);
    if c == head {
      ring := [b];
    } else {
      var rest := RingMeans(g, mem, junk, head, c, minPsz, maxPsz, steps - 1, count + 1);
      ring := [b] + rest;
      assert ring[1..] == rest;
    }
  }

  lemma LinkIsSound(g: Geometry, mem: Memory, junk: int -> nat, b: nat, minPsz: nat, maxPsz: nat)
    requires g.Valid() && TagsAgree(g, mem, junk, b)
    ensures var c := NextOf(g, mem, junk, b);
            WordAt(mem, Cell(g, c + g.W), junk) == b && SizeFits(g, mem, junk, c, minPsz, maxPsz) ==>
              SoundLink(g, mem, junk, b, c, minPsz, maxPsz)
  {
    hide WordAt;
  }

  /** In a sane verdict over a table, every superblock has less than 2^32 payload bytes and a sane walk. */
  lemma {:induction false} WalkAllMeans(g: Geometry, mem: Memory, junk: int -> nat, table: seq<nat>, steps: nat,
                                        loan: nat, nfree: nat, j: nat)
    requires g.Valid() && WalkAll(g, mem, junk, table, steps, loan, nfree).v.Sane? && j < |table|
    ensures WordAt(mem, table[j], junk) < 0x1_0000_0000
    ensures exists l, f ::
      Walk(g, mem, junk, Start(g, table[j]), WordAt(mem, table[j], junk), 0, false, steps, l, f).v.Sane?
    decreases j
  {
    hide WordAt, Walk;
    var w := Walk(g, mem, junk, Start(g, table[0]), WordAt(mem, table[0], junk), 0, false, steps, loan, nfree);
    if j == 0 {
      LongNeverSane(g, mem, junk, Start(g, table[0]), WordAt(mem, table[0], junk), 0, false, steps, loan, nfree);
    } else {
      WalkAllMeans(g, mem, junk, table[1..], steps, w.loan, w.nfree, j - 1);
    }
  }

  /** The 32-bit index never gets to the end of a superblock of 2^32 payload bytes or more. */
  lemma {:induction false} LongNeverSane(g: Geometry, mem: Memory, junk: int -> nat, start: nat, n: nat, i: nat,
                                         lastWasFree: bool, steps: nat, loan: nat, nfree: nat)
    requires g.Valid() && i < 0x1_0000_0000
    ensures n >= 0x1_0000_0000 ==> !Walk(g, mem, junk, start, n, i, lastWasFree, steps, loan, nfree).v.Sane?
    decreases steps
  {
    hide WordAt, StepFails;
    if i < n && steps > 0 && !StepFails(g, mem, junk, start + i, lastWasFree) {
      var lo := WordAt(mem, start + i, junk);
      if lo % 2 != 0 {
        LongNeverSane(g, mem, junk, start, n, Low32(i + Plain(lo)), true, steps - 1, loan, nfree + 1);
      } else {
        PassedIsLarge(g, mem, junk, start + i, lastWasFree);
        LongNeverSane(g, mem, junk, start, n, Low32(i + Plain(lo)), false, steps - 1, loan + (lo - g.Overhead()),
                      nfree);
      }
    }
  }

  lemma PassedIsLarge(g: Geometry, mem: Memory, junk: int -> nat, b: nat, lastWasFree: bool)
    requires g.Valid() && !StepFails(g, mem, junk, b, lastWasFree) && WordAt(mem, b, junk) % 2 == 0
    ensures WordAt(mem, b, junk) >= g.Overhead()
  {
  }

  /** The ring of the list is sane, whatever has been counted before. */
  ghost predicate RingSane(g: Geometry, mem: Memory, junk: int -> nat, head: nat, lno: nat, steps: nat, count: nat)
    requires g.Valid() && lno < N_MALLOC_LISTS
  {
    Ring(g, mem, junk, head, head, ListMin(lno), ListMax(lno, g.space - 1), steps, count).v.Sane?
  }

  /** The rings of all lists are sane, or the list is empty. */
  lemma {:induction false} RingsMean(g: Geometry, mem: Memory, junk: int -> nat, heads: seq<nat>, lno: nat, steps: nat,
                                     count: nat, o: nat)
    requires g.Valid() && |heads| == N_MALLOC_LISTS && lno <= o < N_MALLOC_LISTS
    requires RingsFrom(g, mem, junk, heads, lno, steps, count).v.Sane?
    ensures heads[o] == 0 || exists c :: RingSane(g, mem, junk, heads[o], o, steps, c)
    decreases o - lno
  {
    hide Ring, ListMin, ListMax;
    if lno == o {
      assert heads[o] == 0 || RingSane(g, mem, junk, heads[o], o, steps, count);
    } else {
      if heads[lno] == 0 {
        RingsMean(g, mem, junk, heads, lno + 1, steps, count, o);
      } else {
        var c := Ring(g, mem, junk, heads[lno], heads[lno], ListMin(lno), ListMax(lno, g.space - 1), steps, count);
        RingsMean(g, mem, junk, heads, lno + 1, steps, c.count, o);
      }
    }
  }

  /** The verdict is sane exactly if the five parts of the check are. */
  lemma CheckedMeans(g: Geometry, h: Heap, table: seq<nat>, tableOk: bool, bytesOnLoan: nat, junk: int -> nat,
                     steps: nat)
    requires g.Valid() && |h.heads| == N_MALLOC_LISTS
    ensures var w, c := WalkAll(g, h.mem, junk, table, steps, 0, 0), RingsFrom(g, h.mem, junk, h.heads, 0, steps, 0);
            Checked(g, h, table, tableOk, bytesOnLoan, junk, steps).Sane? <==>
              && tableOk && w.v.Sane? && c.v.Sane?
              && w.loan % g.space == bytesOnLoan % g.space && w.nfree % 0x1_0000_0000 == c.count % 0x1_0000_0000
  {
    hide WalkAll, RingsFrom;
  }
}
