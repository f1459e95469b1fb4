/** What datatypes mean, byte by byte, and which bytes are visited on common platforms (libmpiwrap.c). */
module MpiLaws {
  import opened MpiTypes
  import opened MpiWalk
  import opened PowersOfTwo

  // ----- the names, with the sizes of a platform filled in

  /** The room that the value has in a struct of a value and an int. */
  function Room(name: Name, env: Env): nat
    requires IsPair(name)
  {
    match name
    case TwoInt => env.intSize
    case LongInt => env.longSize
    case DoubleInt => env.doubleSize
    case ShortInt => env.shortSize
    case FloatInt => env.floatSize
    case _ => env.ldSize
  }

  /** For a struct of a value and an int, the value is visited where the struct is, and the int at the first address
      behind the room of the value that an int may have. */
  lemma PairCalls(base: int, name: Name, env: Env)
    requires Sane(env) && name in {TwoInt, LongInt, DoubleInt, ShortInt, FloatInt, LongDoubleInt}
    ensures var calls := NamedCalls(base, name, env);
            && |calls| == 2 && calls[0].addr == base && calls[1].len == env.intSize
            && calls[0].len == (if name == LongDoubleInt then env.ldImage else Room(name, env))
            && var offset := calls[1].addr - base;
               offset % env.intAlign == 0 && Room(name, env) <= offset < Room(name, env) + env.intAlign
  {
    AlignUpwardsExact(Room(name, env), env.intAlign);
  }

  /** What is visited for each name that is no struct: types of C by their size, all others by a constant. */
  lemma NamesVisited(base: int, name: Name, env: Env)
    requires Sane(env) && !IsPair(name)
    ensures NamedCalls(base, name, env) ==
              match name
              case Char | UnsignedChar | Byte | Packed | SignedChar | Character => [Call(base, 1)]
              case Short | UnsignedShort => [Call(base, env.shortSize)]
              case Int | Unsigned => [Call(base, env.intSize)]
              case Long | UnsignedLong => [Call(base, env.longSize)]
              case LongLongInt => [Call(base, env.longLongSize)]
              case Float => [Call(base, env.floatSize)]
              case Double => [Call(base, env.doubleSize)]
              case LongDouble => [Call(base, env.ldImage)]
              case Wchar => [Call(base, 2)]
              case Real4 | Real | Integer4 | Integer | Logical => [Call(base, 4)]
              case UnsignedLongLong | Real8 | Integer8 | DoublePrecision | Complex | TwoInteger | TwoReal =>
                [Call(base, 8)]
              case DoubleComplex | TwoComplex | TwoDoublePrecision => [Call(base, 16)]
              case TwoDoubleComplex => [Call(base, 32)]
              case _ => []
  {
  }

  /** What is meant: the number of bytes of each name that is no struct. */
  lemma NamesMeant(base: int, name: Name, env: Env)
    requires Sane(env) && !IsPair(name)
    ensures MapBytes(base, MapOf(Named(name), env)) ==
              Span(base, match name
                         case Char | UnsignedChar | Byte | Packed | SignedChar | Character => 1
                         case Short | UnsignedShort => env.shortSize
                         case Int | Unsigned => env.intSize
                         case Long | UnsignedLong => env.longSize
                         case LongLongInt | UnsignedLongLong => env.longLongSize
                         case Float => env.floatSize
                         case Double => env.doubleSize
                         case LongDouble => env.ldImage
                         case Wchar => env.wcharSize
                         case Real4 | Integer4 => 4
                         case Real8 | Integer8 => 8
                         case Integer => env.integer
                         case Real => env.real_
                         case DoublePrecision => env.double_
                         case Logical => env.logical
                         case TwoInteger => 2 * env.integer
                         case Complex | TwoReal => 2 * env.real_
                         case DoubleComplex | TwoDoublePrecision => 2 * env.double_
                         case TwoComplex => 4 * env.real_
                         case TwoDoubleComplex => 4 * env.double_
                         case _ => 0)
  {
    hide MapBytes, Copies;
    MeaningBytes(base, name, env);
  }

  /** A 64-bit Linux host, with a Fortran compiler whose default sizes are the usual ones. */
  ghost predicate Lp64(env: Env) {
    && env.shortSize == 2 && env.intSize == 4 && env.longSize == 8 && env.longLongSize == 8
    && env.floatSize == 4 && env.doubleSize == 8 && env.wcharSize == 4
    && env.ldImage == 10 && env.ldSize == 16 && env.intAlign == 4
    && env.integer == 4 && env.real_ == 4 && env.double_ == 8 && env.logical == 4
    && env.pairOffset(TwoInt) == 4 && env.pairOffset(LongInt) == 8 && env.pairOffset(DoubleInt) == 8
    && env.pairOffset(ShortInt) == 4 && env.pairOffset(FloatInt) == 4 && env.pairOffset(LongDoubleInt) == 16
  }

  /** What is visited there for the structs of a value and an int: a SHORT_INT has its bytes 0 and 1, and 4 to 7
      visited. */
  lemma PairsOnLp64(base: int, name: Name, env: Env)
    requires Sane(env) && Lp64(env) && IsPair(name)
    ensures NamedCalls(base, name, env) ==
              match name
              case ShortInt => [Call(base, 2), Call(base + 4, 4)]
              case TwoInt | FloatInt => [Call(base, 4), Call(base + 4, 4)]
              case LongInt | DoubleInt => [Call(base, 8), Call(base + 8, 4)]
              case _ => [Call(base, 10), Call(base + 16, 4)]
  {
    hide AlignUpwards;
    PairCalls(base, name, env);
  }

  /** That is right for all names but wide characters. */
  lemma FitOnLp64(name: Name, env: Env)
    requires Sane(env) && Lp64(env)
    ensures Fits(name, env) <==> name != Wchar
  {
    hide AlignUpwards;
    if IsPair(name) { AlignUpwardsExact(Room(name, env), env.intAlign); }
  }

  // ----- the laws that determine the bytes of a type

  /** A struct of a value and an int means the bytes of the value, and those of an int where the library puts it. */
  lemma PairsMeant(base: int, name: Name, env: Env)
    requires Sane(env) && IsPair(name)
    ensures MapBytes(base, MapOf(Named(name), env)) ==
              Span(base, if name == LongDoubleInt then env.ldImage else Room(name, env)) +
              Span(base + env.pairOffset(name), env.intSize)
  {
    hide MapBytes, Copies;
    MeaningBytes(base, name, env);
  }

  /** A contiguous type is one item after another, each an extent further on. */
  lemma ContiguousMeans(base: int, n: int, o: Type, env: Env)
    ensures n <= 0 ==> MapBytes(base, MapOf(Contiguous(n, o), env)) == []
    ensures n >= 0 ==>
      MapBytes(base, MapOf(Contiguous(n + 1, o), env)) ==
        MapBytes(base, MapOf(Contiguous(n, o), env)) + MapBytes(base + n * env.extent(o), MapOf(o, env))
  {
    hide MapBytes, Copies;
    if n >= 0 { CopiesBytes(base, MapOf(o, env), n, env.extent(o)); }
    if n <= 0 { NoCopies(base, MapOf(o, env), n, env.extent(o)); }
  }

  /** A struct is one field after another, each a contiguous type at its displacement. */
  lemma StructMeans(base: int, fields: seq<Field>, f: Field, env: Env)
    ensures MapBytes(base, MapOf(Struct([]), env)) == []
    ensures MapBytes(base, MapOf(Struct(fields + [f]), env)) ==
              MapBytes(base, MapOf(Struct(fields), env)) + MapBytes(base + f.disp, MapOf(Contiguous(f.len, f.ty), env))
  {
    hide MapBytes, Copies;
    NoCopies(base, [], 0, 0);
    assert Copies([], 0, 0) == [] by { OneCopy([], 0); Empty(base); }
    SameFields(Struct(fields + [f]), Struct(fields), |fields|, env);
    var copies := Copies(MapOf(f.ty, env), f.len, env.extent(f.ty));
    MapBytesJoin(base, FieldsMap(Struct(fields), |fields|, env), MpiTypes.Shift(copies, f.disp));
    MapBytesShift(base, copies, f.disp);
  }

  lemma {:induction false} SameFields(a: Type, b: Type, n: nat, env: Env)
    requires a.Struct? && b.Struct? && n <= |a.fields| && n <= |b.fields| && a.fields[..n] == b.fields[..n]
    ensures FieldsMap(a, n, env) == FieldsMap(b, n, env)
  {
    hide Copies, MapOf, MpiTypes.Shift;
    if n > 0 {
      assert a.fields[..n][..n - 1] == a.fields[..n - 1] && b.fields[..n][..n - 1] == b.fields[..n - 1];
      SameFields(a, b, n - 1, env);
      assert a.fields[..n][n - 1] == a.fields[n - 1] && b.fields[..n][n - 1] == b.fields[n - 1];
    }
  }

  /** A vector is an hvector whose stride is counted in bytes (section 3.12.1). */
  lemma VectorIsHVector(count: int, blocklen: int, stride: int, ty: Type, env: Env)
    ensures MapOf(Vector(count, blocklen, stride, ty), env) ==
              MapOf(HVector(count, blocklen, stride * env.extent(ty), ty), env)
    ensures count <= 0 ==> MapOf(Vector(count, blocklen, stride, ty), env) == []
  {
  }

  /** The blocks, with displacements in bytes. */
  function InBytes(blocks: seq<Block>, ex: int): seq<Block> {
    seq(|blocks|, i requires 0 <= i < |blocks| => Block(blocks[i].len, blocks[i].disp * ex))
  }

  /** An indexed type is an hindexed one whose displacements are counted in bytes (section 3.12.1). */
  lemma {:induction false} IndexedIsHIndexed(blocks: seq<Block>, ty: Type, env: Env)
    ensures MapOf(Indexed(blocks, ty), env) == MapOf(HIndexed(InBytes(blocks, env.extent(ty)), ty), env)
  {
    BlocksInBytes(MapOf(ty, env), blocks, env.extent(ty));
  }

  lemma {:induction false} BlocksInBytes(m: TypeMap, blocks: seq<Block>, ex: int)
    ensures BlocksMap(m, blocks, ex, ex) == BlocksMap(m, InBytes(blocks, ex), ex, 1)
  {
    hide Copies, MpiTypes.Shift;
    if blocks != [] {
      BlocksInBytes(m, blocks[..|blocks| - 1], ex);
      assert InBytes(blocks, ex)[..|blocks| - 1] == InBytes(blocks[..|blocks| - 1], ex);
    }
  }

  /** The fields of equal type at the places of the blocks. */
  function AsFields(blocks: seq<Block>, ty: Type): seq<Field> {
    seq(|blocks|, i requires 0 <= i < |blocks| => Field(blocks[i].len, blocks[i].disp, ty))
  }

  /** An hindexed type is a struct whose fields have one type (section 3.12.1). With the laws for contiguous types and
      structs, these identities determine the bytes of every type. */
  lemma {:induction false} HIndexedIsStruct(blocks: seq<Block>, ty: Type, env: Env)
    ensures MapOf(HIndexed(blocks, ty), env) == MapOf(Struct(AsFields(blocks, ty)), env)
  {
    BlocksAreFields(blocks, ty, |blocks|, env);
    assert blocks[..|blocks|] == blocks;
  }

  lemma {:induction false} BlocksAreFields(blocks: seq<Block>, ty: Type, n: nat, env: Env)
    requires n <= |blocks|
    ensures BlocksMap(MapOf(ty, env), blocks[..n], env.extent(ty), 1) == FieldsMap(Struct(AsFields(blocks, ty)), n, env)
  {
    hide Copies, MapOf, MpiTypes.Shift;
    if n > 0 {
      BlocksAreFields(blocks, ty, n - 1, env);
      assert blocks[..n][..n - 1] == blocks[..n - 1];
    }
  }

  // ----- what is not handled

  /** The walk over `ty` comes to part `s`: no loop on the way there is empty. */
  ghost predicate ComesTo(ty: Type, s: Type) {
    s == ty ||
    match ty
    case Named(_) => false
    case Contiguous(count, o) => 0 < count && ComesTo(o, s)
    case Vector(count, blocklen, _, o) => 0 < count && 0 < blocklen && ComesTo(o, s)
    case HVector(count, blocklen, _, o) => 0 < count && 0 < blocklen && ComesTo(o, s)
    case Indexed(blocks, o) => (exists i :: 0 <= i < |blocks| && 0 < blocks[i].len) && ComesTo(o, s)
    case HIndexed(blocks, o) => (exists i :: 0 <= i < |blocks| && 0 < blocks[i].len) && ComesTo(o, s)
    case Struct(fields) => exists i :: 0 <= i < |fields| && 0 < fields[i].len && ComesTo(fields[i].ty, s)
    case OtherCombiner(_) => false
  }

  /** What strict mode does not accept are types in which the walk comes to a name or a combiner that is not known. */
  lemma {:induction false} MeetsIs(ty: Type)
    ensures Meets(ty) <==> exists s :: ComesTo(ty, s) && (s.OtherCombiner? || (s.Named? && s.name.Other?))
  {
    match ty
    case Named(_) =>
      assert ComesTo(ty, ty);
    case OtherCombiner(_) =>
      assert ComesTo(ty, ty);
    case Struct(fields) =>
      forall i | 0 <= i < |fields|
        ensures Meets(fields[i].ty) <==>
                  exists s :: ComesTo(fields[i].ty, s) && (s.OtherCombiner? || (s.Named? && s.name.Other?))
      {
        MeetsIs(fields[i].ty);
      }
      forall s | ComesTo(ty, s) && (s.OtherCombiner? || (s.Named? && s.name.Other?))
        ensures Meets(ty)
      {
        assert s != ty;
      }
      if Meets(ty) {
        var i :| 0 <= i < |fields| && fields[i].len > 0 && Meets(fields[i].ty);
        var s :| ComesTo(fields[i].ty, s) && (s.OtherCombiner? || (s.Named? && s.name.Other?));
        assert ComesTo(ty, s);
      }
    case _ =>
      MeetsIs(ty.old_);
      if Meets(ty) {
        var s :| ComesTo(ty.old_, s) && (s.OtherCombiner? || (s.Named? && s.name.Other?));
        assert ComesTo(ty, s);
      }
  }
}
