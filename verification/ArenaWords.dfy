/** The words that the operations of an arena write and read, address by address, whatever the words mean
    (m_mallocfree.c). */
module ArenaWords {
  import opened SizeClasses
  import opened ArenaState

  /** The words of memory, and the heads of the lists. */
  datatype Heap = Heap(mem: Memory, heads: seq<nat>)

  /** x & ~1 and x | 1 on SizeT values. */
  function Plain(x: nat): nat { x - x % 2 }
  function MarkFree(x: nat): nat { Plain(x) + 1 }

  /** An address, after pointer arithmetic that may wrap around. */
  function Cell(g: Geometry, a: int): nat
    requires g.Valid()
  {
    a % g.space
  }

  lemma CellPlain(g: Geometry, a: int)
    requires g.Valid() && 0 <= a < g.space
    ensures Cell(g, a) == a
  {
  }

  // ----- writing a block

  /** set_bszB. */
  function Tagged(g: Geometry, mem: Memory, b: nat, bszB: nat): Memory
    requires g.Valid()
  {
    mem[b := bszB][Cell(g, b + Plain(bszB) - g.W) := bszB]
  }

  /** set_prev_b and set_next_b, for a block whose tags say `bszB`. */
  function Linking(g: Geometry, mem: Memory, b: nat, bszB: nat, prev: nat, next: nat): Memory
    requires g.Valid()
  {
    mem[Cell(g, b + g.W) := prev][Cell(g, b + bszB - 2 * g.W) := next]
  }

  const REDZONE_LO_MASK: bv8 := 0x31
  const REDZONE_HI_MASK: bv8 := 0x7c

  /** The byte that fills a redzone of block `b`. */
  function RzByte(b: nat, mask: bv8): nat { ((b % 256) as bv8 ^ mask) as nat }

  /** A word made of such bytes. */
  function RzWord(g: Geometry, b: nat, mask: bv8): nat {
    RzByte(b, mask) * (if g.W == 4 then 0x01010101 else 0x01010101_01010101)
  }

  /** The first `d` bytes of the low redzone filled in, and the last `d` of the high one. */
  function Painted(g: Geometry, mem: Memory, b: nat, bszB: nat, d: nat): Memory
    requires g.Valid()
    decreases d
  {
    if d < g.W then mem
    else
      Painted(g, mem, b, bszB, d - g.W)[Cell(g, b + d) := RzWord(g, b, REDZONE_LO_MASK)]
                                       [Cell(g, b + bszB - g.W - d) := RzWord(g, b, REDZONE_HI_MASK)]
  }

  lemma PaintedStep(g: Geometry, mem: Memory, b: nat, bszB: nat, d: nat)
    requires g.Valid()
    ensures Painted(g, mem, b, bszB, 0) == mem
    ensures Painted(g, mem, b, bszB, d + g.W) ==
      Painted(g, mem, b, bszB, d)[Cell(g, b + (d + g.W)) := RzWord(g, b, REDZONE_LO_MASK)]
                                 [Cell(g, b + bszB - g.W - (d + g.W)) := RzWord(g, b, REDZONE_HI_MASK)]
  {
    hide Cell, RzWord;
    assert d + g.W - g.W == d;
  }

  /** mkInuseBlock. */
  function InuseWords(g: Geometry, mem: Memory, b: nat, bszB: nat): Memory
    requires g.Valid()
  {
    var mem := Linking(g, Tagged(g, mem, b, bszB), b, bszB, 0, 0);
    if g.clientmem then mem else Painted(g, mem, b, bszB, g.rz)
  }

  /** get_bszB, of a block whose tags agree. */
  function SizeWord(mem: Memory, b: nat): nat { Plain(Read(mem, b)) }

  /** Redirecting `next` of one block and `prev` of another. */
  function Joining(g: Geometry, mem: Memory, p: nat, next: nat, q: nat, prev: nat): Memory
    requires g.Valid()
  {
    mem[Cell(g, p + SizeWord(mem, p) - 2 * g.W) := next][Cell(g, q + g.W) := prev]
  }

  /** The link writes of mkFreeBlock on a list that is not empty. */
  function RingWords(g: Geometry, mem: Memory, b: nat, bszB: nat, head: nat): Memory
    requires g.Valid()
  {
    var last := Read(mem, Cell(g, head + g.W));
    Joining(g, mem, last, b, head, b)[Cell(g, b + bszB - 2 * g.W) := head][Cell(g, b + g.W) := last]
  }

  /** mkFreeBlock. */
  function FreeWords(g: Geometry, h: Heap, b: nat, bszB: nat, lno: nat): Heap
    requires g.Valid() && lno < |h.heads|
  {
    var mem := Tagged(g, h.mem, b, MarkFree(bszB));
    var head := h.heads[lno];
    if head == 0 then Heap(Linking(g, mem, b, bszB, b, b), h.heads[lno := b])
    else Heap(RingWords(g, mem, b, bszB, head), h.heads)
  }

  /** The words after unlinkBlock. */
  function UnlinkedWords(g: Geometry, mem: Memory, b: nat): Memory
    requires g.Valid()
  {
    var bszB := SizeWord(mem, b);
    var prev, next := Read(mem, Cell(g, b + g.W)), Read(mem, Cell(g, b + bszB - 2 * g.W));
    Linking(g, if prev == b then mem else Joining(g, mem, prev, next, next, prev), b, bszB, 0, 0)
  }

  /** Redzones are made of whole words. */
  predicate WordMultiple(g: Geometry, n: int) { n % (if g.W == 4 then 4 else 8) == 0 }

  lemma WholeWords(g: Geometry)
    requires g.Valid()
    ensures WordMultiple(g, g.rz) && g.rz - 0 == g.rz
  {
  }

  lemma NextWord(g: Geometry, n: nat)
    requires g.Valid() && WordMultiple(g, n) && n > 0
    ensures n >= g.W && WordMultiple(g, n - g.W)
  {
  }

  /** The first block on the list of a request of `reqP` bytes is alone there, large enough, and too small to be
      split. */
  predicate HeadFits(g: Geometry, h: Heap, reqP: nat)
    requires g.Valid()
  {
    && |h.heads| == N_MALLOC_LISTS && reqP % MIN_SZB == 0
    && var b := h.heads[ListNo(reqP)];
       && b != 0 && Read(h.mem, Cell(g, b + g.W)) == b
       && reqP + g.Overhead() <= SizeWord(h.mem, b) < reqP + 2 * g.Overhead()
  }

  /** arena_malloc in that case: the block is taken off its list and put to use as it is. */
  function TakeHead(g: Geometry, h: Heap, reqP: nat): Heap
    requires g.Valid() && HeadFits(g, h, reqP)
  {
    var b := h.heads[ListNo(reqP)];
    Heap(InuseWords(g, UnlinkedWords(g, h.mem, b), b, SizeWord(h.mem, b)), h.heads[ListNo(reqP) := 0])
  }

  // ----- two blocks written over what is there

  /** The aligned block starts `frag` bytes behind `base`, but its size has wrapped around: it ends before it starts. */
  predicate Wrapping(g: Geometry, base: nat, frag: nat, size: nat) {
    size < g.space && frag + 2 * g.W < g.space && g.space + g.Overhead() <= frag + size && g.Overhead() <= size
  }

  /** The words of arena_memalign's two blocks: a fragment of `frag` bytes on its list, and the block behind it. */
  function Overlap(g: Geometry, h: Heap, base: nat, frag: nat, size: nat): Heap
    requires g.Valid() && |h.heads| == N_MALLOC_LISTS && frag >= g.Overhead() && (frag - g.Overhead()) % MIN_SZB == 0
  {
    var h := FreeWords(g, h, base, frag, ListNo(frag - g.Overhead()));
    Heap(InuseWords(g, h.mem, Cell(g, base + frag), size), h.heads)
  }

  lemma FreeHeads(g: Geometry, h: Heap, b: nat, bszB: nat, lno: nat)
    requires g.Valid() && lno < |h.heads|
    ensures var h' := FreeWords(g, h, b, bszB, lno);
            |h'.heads| == |h.heads| && h'.heads == h.heads[lno := h'.heads[lno]]
  {
    hide Tagged, Linking, RingWords;
  }

  /** The tags of the block behind the fragment agree, although its high one lies before the low one. */
  lemma OverlapTags(g: Geometry, mem: Memory, base: nat, frag: nat, size: nat)
    requires g.Valid() && Wrapping(g, base, frag, size) && size % MIN_SZB == 0
    ensures var b := Cell(g, base + frag);
            var m := InuseWords(g, mem, b, size);
            SizeWord(m, b) == size && Read(m, b) == size && Read(m, Cell(g, b + size - g.W)) == size
  {
    hide Cell;
    EvenSize(size);
    var b, end := base + frag, base + frag + size - g.space;
    CellShift(g, b, 0);
    CellShift(g, b, g.W);
    CellShift(g, b, size - g.W);
    CellShift(g, b, size - 2 * g.W);
    CellOver(g, end - g.W);
    CellOver(g, end - 2 * g.W);
    CellsDiffer(g, end - g.W, b);
    CellsDiffer(g, end - 2 * g.W, b);
    CellsDiffer(g, end - 2 * g.W, end - g.W);
    CellsDiffer(g, end - g.W, b + g.W);
    CellsDiffer(g, b, b + g.W);
    PaintedTags(g, Linking(g, Tagged(g, mem, Cell(g, b), size), Cell(g, b), size, 0, 0), b, size, g.rz);
  }

  /** Filling in the redzones of such a block does not hit its tags. */
  lemma {:induction false} PaintedTags(g: Geometry, mem: Memory, b: nat, size: nat, d: nat)
    requires g.Valid() && g.Overhead() <= size < g.space && g.space + g.Overhead() <= b + size && d <= g.rz
    ensures var c := Cell(g, b);
            var m := Painted(g, mem, c, size, d);
            Read(m, c) == Read(mem, c) && Read(m, Cell(g, c + size - g.W)) == Read(mem, Cell(g, c + size - g.W))
    decreases d
  {
    hide Cell, RzWord;
    if d >= g.W {
      PaintedTags(g, mem, b, size, d - g.W);
      var end := b + size - g.space;
      CellShift(g, b, d);
      CellShift(g, b, size - g.W);
      CellShift(g, b, size - g.W - d);
      CellOver(g, end - g.W);
      CellOver(g, end - g.W - d);
      CellsDiffer(g, b, b + d);
      CellsDiffer(g, end - g.W, b + d);
      CellsDiffer(g, end - g.W - d, end - g.W);
      CellsDiffer(g, end - g.W - d, b);
    }
  }

  lemma EvenSize(size: nat)
    requires size % MIN_SZB == 0
    ensures Plain(size) == size
  {
  }

  lemma CellOver(g: Geometry, a: nat)
    requires g.Valid()
    ensures Cell(g, a + g.space) == Cell(g, a)
  {
  }

  lemma CellShift(g: Geometry, a: nat, d: int)
    requires g.Valid() && d >= 0
    ensures Cell(g, Cell(g, a) + d) == Cell(g, a + d)
  {
    var q := a / g.space;
    assert a == q * g.space + Cell(g, a);
    CellTimes(g, Cell(g, a) + d, q);
  }

  lemma {:induction false} CellTimes(g: Geometry, a: nat, q: nat)
    requires g.Valid()
    ensures Cell(g, a + q * g.space) == Cell(g, a)
  {
    hide Cell;
    if q > 0 {
      CellTimes(g, a, q - 1);
      CellOver(g, a + (q - 1) * g.space);
      assert a + (q - 1) * g.space + g.space == a + q * g.space;
    }
  }

  lemma CellsDiffer(g: Geometry, a: nat, b: nat)
    requires g.Valid() && a < b < a + g.space
    ensures Cell(g, a) != Cell(g, b)
  {
  }

  // ----- what the sanity checker reads

  /** What the checker comes to. Running: it has not ended in the steps it was given. */
  datatype Verdict = Sane | Bomb | Running

  const WORD32: nat := 0x1_0000_0000

  /** What a UInt keeps of a number. */
  function Low32(x: nat): (r: nat)
    ensures r < WORD32 && (x < WORD32 ==> r == x)
  {
    x % WORD32
  }

  /** A word of memory, whatever it may hold. */
  function WordAt(mem: Memory, a: int, junk: int -> nat): nat { if a in mem then mem[a] else junk(a) }

  /** blockSane, for `d` bytes of each redzone. */
  predicate RedzoneSane(g: Geometry, mem: Memory, junk: int -> nat, b: nat, bszB: nat, d: nat)
    requires g.Valid()
    decreases d
  {
    d < g.W ||
    (RedzoneSane(g, mem, junk, b, bszB, d - g.W)
     && WordAt(mem, Cell(g, b + d), junk) == RzWord(g, b, REDZONE_LO_MASK)
     && WordAt(mem, Cell(g, b + bszB - g.W - d), junk) == RzWord(g, b, REDZONE_HI_MASK))
  }

  // ----- redzones

  /** Where nothing is, there is nothing. */
  const NOTHING: int -> nat := a => 0

  /** The redzones of a block in use are what they were filled with. */
  ghost predicate RedzoneOf(g: Geometry, mem: Memory, b: nat, bszB: nat)
    requires g.Valid()
  {
    RedzoneSane(g, mem, NOTHING, b, bszB, g.rz)
  }

  /** Only the words of the redzones are looked at. */
  lemma {:induction false} RedzoneFrame(g: Geometry, mem: Memory, mem': Memory, junk: int -> nat, junk': int -> nat,
                                        b: nat, bszB: nat, d: nat)
    requires g.Valid() && g.Overhead() <= bszB && b + bszB < g.space && d <= g.rz
    requires forall a :: b <= a <= b + d || b + bszB - g.W - d <= a < b + bszB ==>
      WordAt(mem, a, junk) == WordAt(mem', a, junk')
    ensures RedzoneSane(g, mem, junk, b, bszB, d) == RedzoneSane(g, mem', junk', b, bszB, d)
    decreases d
  {
    hide Cell, RzWord, WordAt;
    if d >= g.W {
      RedzoneFrame(g, mem, mem', junk, junk', b, bszB, d - g.W);
      CellPlain(g, b + d);
      CellPlain(g, b + bszB - g.W - d);
    }
  }

  /** Redzones that have been filled in are sane. */
  lemma {:induction false} PaintedSane(g: Geometry, mem: Memory, b: nat, bszB: nat, d: nat)
    requires g.Valid() && g.Overhead() <= bszB && b + bszB < g.space && d <= g.rz
    ensures RedzoneSane(g, Painted(g, mem, b, bszB, d), NOTHING, b, bszB, d)
    decreases d
  {
    hide Cell, RzWord;
    if d >= g.W {
      PaintedSane(g, mem, b, bszB, d - g.W);
      CellPlain(g, b + d);
      CellPlain(g, b + bszB - g.W - d);
      RedzoneFrame(g, Painted(g, mem, b, bszB, d - g.W), Painted(g, mem, b, bszB, d), NOTHING, NOTHING, b, bszB,
                   d - g.W);
    }
  }
}
