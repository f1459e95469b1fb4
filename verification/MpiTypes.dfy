/** What an MPI datatype means: its type map, as in section 3.12 of MPI 1.1 (used by libmpiwrap.c). */
module MpiTypes {

  /** Named types. The first group has known sizes; the second are structs of a value and an int; the bounds have no
      size. */
  datatype Name =
    | Char | Short | Int | Long | UnsignedChar | UnsignedShort | Unsigned | UnsignedLong | Float | Double | Byte
    | LongDouble | Packed | LongLongInt | Real8 | Real4 | Real | Integer8 | Integer4 | Integer | DoublePrecision
    | Wchar | SignedChar | UnsignedLongLong | Complex | DoubleComplex | Logical | TwoInteger | TwoComplex
    | TwoDoubleComplex | TwoReal | TwoDoublePrecision | Character
    | TwoInt | LongInt | DoubleInt | ShortInt | FloatInt | LongDoubleInt
    | Lb | Ub
    | Other(id: nat)

  /** A run of copies of the old type, and where it starts. */
  datatype Block = Block(len: int, disp: int)

  datatype Field = Field(len: int, disp: int, ty: Type)

  /** A datatype, by the combiner that made it. */
  datatype Type =
    | Named(name: Name)
    | Contiguous(count: int, old_: Type)
    | Vector(count: int, blocklen: int, stride: int, old_: Type)
    | HVector(count: int, blocklen: int, hstride: int, old_: Type)
    | Indexed(blocks: seq<Block>, old_: Type)
    | HIndexed(blocks: seq<Block>, old_: Type)
    | Struct(fields: seq<Field>)
    | OtherCombiner(id: nat)

  /** The platform, and the MPI library's answers. First the sizes of C's types; a store of a long double writes
      `ldImage` bytes. Then those of Fortran's types. `pairOffset` says where the library puts the int of a struct of a
      value and an int. */
  datatype Env = Env(
    shortSize: nat, intSize: nat, longSize: nat, longLongSize: nat, floatSize: nat, doubleSize: nat, wcharSize: nat,
    ldImage: nat, ldSize: nat, intAlign: nat,
    integer: nat, real_: nat, double_: nat, logical: nat,
    pairOffset: Name -> nat, extent: Type -> int)

  ghost predicate Sane(env: Env) {
    && env.shortSize > 0 && env.intSize > 0 && env.longSize > 0 && env.longLongSize > 0
    && env.floatSize > 0 && env.doubleSize > 0 && env.wcharSize > 0 && env.intAlign > 0 && env.integer > 0 &&
       env.real_ > 0 && env.double_ > 0 && env.logical > 0
    && (env.ldImage == 8 || env.ldImage == 10 || env.ldImage == 16) && env.ldImage <= env.ldSize
    && (forall name :: SizeOfNamed(name, env) > 0 ==> env.extent(Named(name)) > 0)
  }

  /** sizeofOneNamedTy: C types by sizeof, the others by a constant; 0 if not known. */
  function SizeOfNamed(name: Name, env: Env): nat {
    match name
    case Char | UnsignedChar | Byte | Packed | SignedChar | Character => 1
    case Short | UnsignedShort => env.shortSize
    case Int | Unsigned => env.intSize
    case Long | UnsignedLong => env.longSize
    case LongLongInt => env.longLongSize
    case Float => env.floatSize
    case Double => env.doubleSize
    case LongDouble => env.ldImage
    case Wchar => 2
    case Real4 | Real | Integer4 | Integer | Logical => 4
    case Real8 | Integer8 | DoublePrecision | UnsignedLongLong | Complex | TwoInteger | TwoReal => 8
    case DoubleComplex | TwoComplex | TwoDoublePrecision => 16
    case TwoDoubleComplex => 32
    case _ => 0
  }

  function SizeOf(ty: Type, env: Env): nat { if ty.Named? then SizeOfNamed(ty.name, env) else 0 }

  // ----- type maps

  /** A basic element: how many bytes, and how far from the start. */
  datatype Entry = Entry(size: nat, disp: int)

  type TypeMap = seq<Entry>

  function Shift(m: TypeMap, d: int): (r: TypeMap)
    ensures |r| == |m|
  {
    seq(|m|, i requires 0 <= i < |m| => Entry(m[i].size, m[i].disp + d))
  }

  /** Copies one after another, each `step` bytes further on. */
  function Copies(m: TypeMap, n: int, step: int): TypeMap {
    if n <= 0 then [] else Copies(m, n - 1, step) + Shift(m, (n - 1) * step)
  }

  /** Equal values, packed. */
  function Values(n: nat, size: nat): TypeMap { Copies([Entry(size, 0)], n, size) }

  /** How many values of what size a name stands for, except for structs of a value and an int. */
  function Meaning(name: Name, env: Env): (nat, nat) {
    match name
    case Char | UnsignedChar | Byte | Packed | SignedChar | Character => (1, 1)
    case Short | UnsignedShort => (1, env.shortSize)
    case Int | Unsigned => (1, env.intSize)
    case Long | UnsignedLong => (1, env.longSize)
    case LongLongInt | UnsignedLongLong => (1, env.longLongSize)
    case Float => (1, env.floatSize)
    case Double => (1, env.doubleSize)
    case LongDouble => (1, env.ldImage)
    case Wchar => (1, env.wcharSize)
    case Real4 | Integer4 => (1, 4)
    case Real8 | Integer8 => (1, 8)
    case Integer => (1, env.integer)
    case Real => (1, env.real_)
    case DoublePrecision => (1, env.double_)
    case Logical => (1, env.logical)
    case TwoInteger => (2, env.integer)
    case Complex | TwoReal => (2, env.real_)
    case DoubleComplex | TwoDoublePrecision => (2, env.double_)
    case TwoComplex => (4, env.real_)
    case TwoDoubleComplex => (4, env.double_)
    case _ => (0, 0)
  }

  /** The size of the value in a struct of a value and an int. */
  function ValueSize(name: Name, env: Env): nat {
    match name
    case TwoInt => env.intSize
    case LongInt => env.longSize
    case DoubleInt => env.doubleSize
    case ShortInt => env.shortSize
    case FloatInt => env.floatSize
    case LongDoubleInt => env.ldImage
    case _ => 0
  }

  predicate IsPair(name: Name) { name in {TwoInt, LongInt, DoubleInt, ShortInt, FloatInt, LongDoubleInt} }

  /** What a name means: its values, or a value and then an int where the library puts it. */
  function NamedMap(name: Name, env: Env): TypeMap {
    if IsPair(name) then [Entry(ValueSize(name, env), 0), Entry(env.intSize, env.pairOffset(name))]
    else Values(Meaning(name, env).0, Meaning(name, env).1)
  }

  /** The type map. What is not known contributes nothing. */
  function MapOf(ty: Type, env: Env): TypeMap
    decreases ty, 1, 0
  {
    match ty
    case Named(name) => NamedMap(name, env)
    case Contiguous(count, o) => Copies(MapOf(o, env), count, env.extent(o))
    case Vector(count, blocklen, stride, o) =>
      Copies(Copies(MapOf(o, env), blocklen, env.extent(o)), count, stride * env.extent(o))
    case HVector(count, blocklen, hstride, o) => Copies(Copies(MapOf(o, env), blocklen, env.extent(o)), count, hstride)
    case Indexed(blocks, o) => BlocksMap(MapOf(o, env), blocks, env.extent(o), env.extent(o))
    case HIndexed(blocks, o) => BlocksMap(MapOf(o, env), blocks, env.extent(o), 1)
    case Struct(fields) => FieldsMap(ty, |fields|, env)
    case OtherCombiner(_) => []
  }

  /** Blocks of copies, at displacements counted in units of `unit` bytes. */
  function BlocksMap(m: TypeMap, blocks: seq<Block>, ex: int, unit: int): TypeMap {
    if blocks == [] then []
    else
      var b := blocks[|blocks| - 1];
      BlocksMap(m, blocks[..|blocks| - 1], ex, unit) + Shift(Copies(m, b.len, ex), b.disp * unit)
  }

  /** The first `n` fields of a struct. */
  function FieldsMap(ty: Type, n: nat, env: Env): TypeMap
    requires ty.Struct? && n <= |ty.fields|
    decreases ty, 0, n
  {
    if n == 0 then []
    else
      var f := ty.fields[n - 1];
      FieldsMap(ty, n - 1, env) + Shift(Copies(MapOf(f.ty, env), f.len, env.extent(f.ty)), f.disp)
  }

  // ----- bytes

  /** The addresses of `n` bytes from `a` on; none if `n` is not positive. */
  function Span(a: int, n: int): (s: seq<int>)
    ensures |s| == if n <= 0 then 0 else n
    ensures forall i :: 0 <= i < |s| ==> s[i] == a + i
  {
    if n <= 0 then [] else seq(n, i => a + i)
  }

  /** The addresses of the bytes of a type map placed at `base`, in order. */
  function MapBytes(base: int, m: TypeMap): seq<int> {
    if m == [] then [] else MapBytes(base, m[..|m| - 1]) + Span(base + m[|m| - 1].disp, m[|m| - 1].size)
  }

  lemma MapBytesLast(base: int, m: TypeMap, e: Entry)
    ensures MapBytes(base, m + [e]) == MapBytes(base, m) + Span(base + e.disp, e.size)
    ensures MapBytes(base, []) == []
  {
    assert (m + [e])[..|m|] == m;
  }

  lemma {:induction false} MapBytesJoin(base: int, a: TypeMap, b: TypeMap)
    ensures MapBytes(base, a + b) == MapBytes(base, a) + MapBytes(base, b)
    decreases |b|
  {
    hide MapBytes, Span;
    if b == [] {
      assert a + b == a;
      MapBytesLast(base, a, Entry(0, 0));
    } else {
      var b', e := b[..|b| - 1], b[|b| - 1];
      MapBytesJoin(base, a, b');
      assert b == b' + [e] && a + b == (a + b') + [e];
      MapBytesLast(base, b', e);
      MapBytesLast(base, a + b', e);
    }
  }

  lemma {:induction false} MapBytesShift(base: int, m: TypeMap, d: int)
    ensures MapBytes(base, Shift(m, d)) == MapBytes(base + d, m)
    decreases |m|
  {
    hide MapBytes, Span;
    if m == [] {
      assert Shift(m, d) == [];
      MapBytesLast(base, [], Entry(0, 0));
      MapBytesLast(base + d, [], Entry(0, 0));
    } else {
      var m', e := m[..|m| - 1], m[|m| - 1];
      MapBytesShift(base, m', d);
      assert m == m' + [e] && Shift(m, d) == Shift(m', d) + [Entry(e.size, e.disp + d)];
      MapBytesLast(base + d, m', e);
      MapBytesLast(base, Shift(m', d), Entry(e.size, e.disp + d));
    }
  }

  /** The bytes of copies are those of the copies before, and of one more. */
  lemma CopiesBytes(base: int, m: TypeMap, n: int, step: int)
    requires n >= 0
    ensures MapBytes(base, Copies(m, n + 1, step)) == MapBytes(base, Copies(m, n, step)) + MapBytes(base + n * step, m)
  {
    MapBytesJoin(base, Copies(m, n, step), Shift(m, n * step));
    MapBytesShift(base, m, n * step);
  }

  // ----- the standard's own identities

  lemma {:induction false} ShiftByNothing(m: TypeMap)
    ensures Shift(m, 0) == m
  {
  }

  lemma OneCopy(m: TypeMap, step: int)
    ensures Copies(m, 1, step) == m
  {
    ShiftByNothing(m);
    assert Copies(m, 0, step) == [];
    assert Copies(m, 1, step) == Copies(m, 0, step) + Shift(m, 0 * step);
  }

  /** A contiguous type is a vector of blocks of one, and a vector of one block (section 3.12.1). */
  lemma ContiguousIsVector(count: int, ty: Type, env: Env)
    ensures MapOf(Contiguous(count, ty), env) == MapOf(Vector(count, 1, 1, ty), env)
    ensures MapOf(Contiguous(count, ty), env) == MapOf(Vector(1, count, 0, ty), env)
  {
    OneCopy(MapOf(ty, env), env.extent(ty));
    OneCopy(Copies(MapOf(ty, env), count, env.extent(ty)), 0 * env.extent(ty));
  }

  function Strided(count: nat, blocklen: int, stride: int): (bs: seq<Block>)
    ensures |bs| == count
  {
    seq(count, i => Block(blocklen, i * stride))
  }

  lemma {:induction false} StridedBlocks(m: TypeMap, count: nat, blocklen: int, stride: int, ex: int)
    ensures BlocksMap(m, Strided(count, blocklen, stride), ex, ex) ==
        Copies(Copies(m, blocklen, ex), count, stride * ex)
    decreases count
  {
    hide Shift;
    if count > 0 {
      StridedBlocks(m, count - 1, blocklen, stride, ex);
      var bs := Strided(count, blocklen, stride);
      assert bs[..count - 1] == Strided(count - 1, blocklen, stride);
      Regroup(count - 1, stride, ex);
    }
  }

  lemma Regroup(a: int, b: int, c: int)
    ensures (a * b) * c == a * (b * c)
  {
  }

  /** A vector is an indexed type with equal blocks at equal distances (section 3.12.1). */
  lemma VectorIsIndexed(count: nat, blocklen: int, stride: int, ty: Type, env: Env)
    ensures MapOf(Vector(count, blocklen, stride, ty), env) == MapOf(Indexed(Strided(count, blocklen, stride), ty), env)
  {
    StridedBlocks(MapOf(ty, env), count, blocklen, stride, env.extent(ty));
  }
}
