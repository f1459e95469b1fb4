/** The walker over MPI datatypes: it calls a visitor on every contiguous piece of memory (libmpiwrap.c). */
module MpiWalk {
  import opened MpiTypes
  import opened PowersOfTwo

  /** One call of the visitor. */
  datatype Call = Call(addr: int, len: int)

  /** The addresses of the bytes visited, in order. */
  function TraceBytes(calls: seq<Call>): seq<int> {
    if calls == [] then []
    else TraceBytes(calls[..|calls| - 1]) + Span(calls[|calls| - 1].addr, calls[|calls| - 1].len)
  }

  lemma TraceLast(calls: seq<Call>, c: Call)
    ensures TraceBytes(calls + [c]) == TraceBytes(calls) + Span(c.addr, c.len)
    ensures TraceBytes([]) == [] && TraceBytes([c]) == Span(c.addr, c.len)
  {
    assert (calls + [c])[..|calls|] == calls;
    assert [c][..0] == [];
  }

  lemma {:induction false} TraceJoin(a: seq<Call>, b: seq<Call>)
    ensures TraceBytes(a + b) == TraceBytes(a) + TraceBytes(b)
    decreases |b|
  {
    hide TraceBytes, Span;
    TraceLast([], Call(0, 0));
    if b == [] {
      assert a + b == a;
    } else {
      var b', c := b[..|b| - 1], b[|b| - 1];
      TraceJoin(a, b');
      assert b == b' + [c] && a + b == (a + b') + [c];
      TraceLast(b', c);
      TraceLast(a + b', c);
    }
  }

  // ----- telling two sequences of bytes apart, part by part

  /** Sequences that differ still do when these are put behind them. */
  ghost predicate KeepApart(s: seq<int>, t: seq<int>) {
    forall a: seq<int>, b: seq<int> :: a != b ==> a + s != b + t
  }

  /** The bytes visited are those that are meant exactly if `c`; and they do not make up for any mistake before them. */
  ghost predicate Tells(s: seq<int>, t: seq<int>, c: bool) { (s == t <==> c) && KeepApart(s, t) }

  /** So one part after another tells about all of them. */
  lemma TellsBoth(a: seq<int>, b: seq<int>, c: bool, d: seq<int>, e: seq<int>, f: bool)
    requires Tells(a, b, c) && Tells(d, e, f)
    ensures Tells(a + d, b + e, c && f)
  {
    if a == b && a + d == b + e {
      assert d == (a + d)[|a|..] && e == (b + e)[|b|..];
    }
    forall p: seq<int>, q: seq<int> | p != q
      ensures p + (a + d) != q + (b + e)
    {
      assert p + a != q + b;
      assert p + (a + d) == (p + a) + d && q + (b + e) == (q + b) + e;
    }
  }

  lemma SameLengthKeepsApart(s: seq<int>, t: seq<int>)
    requires |s| == |t|
    ensures KeepApart(s, t)
  {
    forall a: seq<int>, b: seq<int> | a + s == b + t
      ensures a == b
    {
      assert |a| == |b|;
      assert a == (a + s)[..|a|] && b == (b + t)[..|b|];
    }
  }

  /** It starts with `x`, which does not come again. */
  predicate StartsWith(s: seq<int>, x: int) { |s| > 0 && s[0] == x && forall i :: 0 < i < |s| ==> s[i] != x }

  /** One sequence is behind the other, by some bytes. If it makes up for them, its first byte is in the wrong place. */
  lemma BehindStaysApart(a: seq<int>, s: seq<int>, b: seq<int>, t: seq<int>, x: int)
    requires StartsWith(s, x) && StartsWith(t, x) && |a| < |b|
    ensures a + s != b + t
  {
    var lag := |b| - |a|;
    if |s| > lag {
      assert (a + s)[|b|] == s[lag] && (b + t)[|b|] == t[0];
    } else {
      assert |a + s| < |b + t|;
    }
  }

  lemma StartsKeepApart(s: seq<int>, t: seq<int>, x: int)
    requires StartsWith(s, x) && StartsWith(t, x)
    ensures KeepApart(s, t)
  {
    forall a: seq<int>, b: seq<int> | a != b
      ensures a + s != b + t
    {
      if |a| < |b| {
        BehindStaysApart(a, s, b, t, x);
      } else if |b| < |a| {
        BehindStaysApart(b, t, a, s, x);
      } else {
        assert a == (a + s)[..|a|] && b == (b + t)[..|b|];
      }
    }
  }

  // ----- the contiguous fast path

  predicate PowerSize(n: int) { n == 8 || n == 4 || n == 2 || n == 1 }

  lemma SpanJoin(a: int, n: int, k: int)
    requires n >= 0 && k >= 0
    ensures Span(a, n + k) == Span(a, n) + Span(a + n, k)
  {
  }

  /** Packed copies of one element are one span. */
  lemma {:induction false} PackedCopies(base: int, size: nat, n: int)
    requires n >= 0
    ensures MapBytes(base, Copies([Entry(size, 0)], n, size)) == Span(base, n * size)
  {
    hide MapBytes, Span, Copies;
    if n == 0 {
      Empty(base);
      NoSpan(base);
    } else {
      PackedCopies(base, size, n - 1);
      OneMorePacked(base, size, n - 1);
    }
  }

  lemma NoSpan(base: int)
    ensures Span(base, 0) == []
  {
  }

  lemma OneMorePacked(base: int, size: nat, k: int)
    requires k >= 0 && MapBytes(base, Copies([Entry(size, 0)], k, size)) == Span(base, k * size)
    ensures MapBytes(base, Copies([Entry(size, 0)], k + 1, size)) == Span(base, (k + 1) * size)
  {
    hide MapBytes, Span, Copies;
    CopiesBytes(base, [Entry(size, 0)], k, size);
    OneEntry(base + k * size, size);
    OneMoreTimes(k, size);
    SpanJoin(base, k * size, size);
  }

  lemma OneMoreTimes(k: int, size: nat)
    requires k >= 0
    ensures k * size >= 0 && (k + 1) * size == k * size + size
  {
  }

  lemma OneEntry(base: int, size: nat)
    ensures MapBytes(base, [Entry(size, 0)]) == Span(base, size)
  {
    MapBytesLast(base, [], Entry(size, 0));
    assert [] + [Entry(size, 0)] == [Entry(size, 0)];
  }

  /** Of two or more copies, the second one starts at the extent. */
  lemma {:induction false} SecondCopy(base: int, size: nat, n: int, ex: int)
    requires n >= 2 && size > 0
    ensures var s := MapBytes(base, Copies([Entry(size, 0)], n, ex)); |s| > size && s[size] == base + ex
  {
    CopiesBytes(base, [Entry(size, 0)], n - 1, ex);
    if n == 2 {
      OneCopy([Entry(size, 0)], ex);
      OneEntry(base, size);
      OneEntry(base + 1 * ex, size);
    } else {
      SecondCopy(base, size, n - 1, ex);
    }
  }

  /** The fast path visits what the slow one would, if and only if the extent is the size or there are not two
      elements. */
  lemma FastPathExact(base: int, size: nat, n: int, ex: int)
    requires size > 0
    ensures Span(base, n * size) == MapBytes(base, Copies([Entry(size, 0)], n, ex)) <==> n <= 1 || ex == size
  {
    if n >= 2 {
      SecondCopy(base, size, n, ex);
      LongEnough(n, size);
      if ex == size { PackedCopies(base, size, n); }
    } else if n == 1 {
      OneCopy([Entry(size, 0)], ex);
      OneEntry(base, size);
    } else {
      NotPositive(n, size);
      assert Copies([Entry(size, 0)], n, ex) == [];
    }
  }

  lemma LongEnough(n: int, size: nat)
    requires n >= 2 && size > 0
    ensures n * size > size
  {
  }

  lemma NotPositive(n: int, size: nat)
    requires n <= 0
    ensures n * size <= 0
  {
  }

  // ----- named types

  /** offsetof(Ty, loc), in the struct that the code declares for a value and an int. */
  function StructOffset(name: Name, env: Env): nat
    requires Sane(env)
  {
    var size := if name == LongDoubleInt then env.ldSize else ValueSize(name, env);
    AlignUpwards(size, env.intAlign)
  }

  /** The platforms on which the code is right about a name. */
  predicate Fits(name: Name, env: Env)
    requires Sane(env)
  {
    match name
    case Wchar => env.wcharSize == 2
    case UnsignedLongLong => env.longLongSize == 8
    case Integer | TwoInteger => env.integer == 4
    case Real | Complex | TwoReal | TwoComplex => env.real_ == 4
    case DoublePrecision | DoubleComplex | TwoDoublePrecision | TwoDoubleComplex => env.double_ == 8
    case Logical => env.logical == 4
    case _ => IsPair(name) ==> env.pairOffset(name) == StructOffset(name, env)
  }

  /** The calls that walk_type makes for a name. */
  function NamedCalls(base: int, name: Name, env: Env): seq<Call>
    requires Sane(env)
  {
    var size := SizeOfNamed(name, env);
    if size > 0 then [Call(base, size)]
    else if IsPair(name) then [Call(base, ValueSize(name, env)), Call(base + StructOffset(name, env), env.intSize)]
    else []
  }

  lemma OneSpan(base: int, n: nat, k: nat)
    ensures Span(base, n) == Span(base, k) <==> n == k
  {
    assert |Span(base, n)| == n && |Span(base, k)| == k;
  }

  lemma TwoSpans(base: int, n: nat, p: nat, q: nat, k: nat)
    requires k > 0
    ensures Span(base, n) + Span(base + p, k) == Span(base, n) + Span(base + q, k) <==> p == q
  {
    var s, t := Span(base, n) + Span(base + p, k), Span(base, n) + Span(base + q, k);
    assert s[n] == base + p && t[n] == base + q;
  }

  /** Both parts of a name's meaning: the number of bytes, and, for all but structs, that they are one span. */
  lemma MeaningBytes(base: int, name: Name, env: Env)
    requires Sane(env)
    ensures !IsPair(name) ==>
      MapBytes(base, NamedMap(name, env)) == Span(base, Meaning(name, env).0 * Meaning(name, env).1)
    ensures IsPair(name) ==>
      MapBytes(base, NamedMap(name, env)) ==
        Span(base, ValueSize(name, env)) + Span(base + env.pairOffset(name), env.intSize)
  {
    hide MapBytes, Span, Meaning, ValueSize, IsPair;
    if IsPair(name) {
      var e, f := Entry(ValueSize(name, env), 0), Entry(env.intSize, env.pairOffset(name));
      assert [e, f] == [e] + [f];
      MapBytesLast(base, [e], f);
      OneEntry(base, ValueSize(name, env));
    } else {
      PackedCopies(base, Meaning(name, env).1, Meaning(name, env).0);
    }
  }

  lemma CallsBytes(base: int, name: Name, env: Env)
    requires Sane(env)
    ensures !IsPair(name) ==> TraceBytes(NamedCalls(base, name, env)) == Span(base, SizeOfNamed(name, env))
    ensures IsPair(name) ==>
      TraceBytes(NamedCalls(base, name, env)) ==
        Span(base, ValueSize(name, env)) + Span(base + StructOffset(name, env), env.intSize)
  {
    hide TraceBytes, StructOffset;
    var size := SizeOfNamed(name, env);
    if size > 0 {
      TraceLast([], Call(base, size));
    } else if IsPair(name) {
      var c, d := Call(base, ValueSize(name, env)), Call(base + StructOffset(name, env), env.intSize);
      assert [c, d] == [c] + [d];
      TraceLast([c], d);
      TraceLast([], c);
    } else {
      TraceLast([], Call(0, 0));
    }
  }

  /** The code visits the bytes that a name means, in order, if and only if the platform is one of those it fits;
      otherwise it visits fewer or more of them, except that it may look for the int of a struct in another place. */
  lemma NamedExact(base: int, name: Name, env: Env)
    requires Sane(env)
    ensures var s, t := TraceBytes(NamedCalls(base, name, env)), MapBytes(base, NamedMap(name, env));
            && Tells(s, t, Fits(name, env))
            && |s| == CodeSize(name, env) && |t| == MeantSize(name, env)
            && (CodeSize(name, env) == MeantSize(name, env) <==> IsPair(name) || Fits(name, env))
  {
    hide TraceBytes, MapBytes, StructOffset, NamedMap, NamedCalls, Span, SizeOfNamed, Meaning, ValueSize, Fits, IsPair;
    hide KeepApart;
    MeaningBytes(base, name, env);
    CallsBytes(base, name, env);
    SizesFit(name, env);
    SpanSizes(base, SizeOfNamed(name, env), MeantSize(name, env), ValueSize(name, env), StructOffset(name, env),
              env.pairOffset(name), env.intSize);
    if IsPair(name) {
      SameLengthKeepsApart(TraceBytes(NamedCalls(base, name, env)), MapBytes(base, NamedMap(name, env)));
    } else {
      SpansKeepApart(base, SizeOfNamed(name, env), MeantSize(name, env));
    }
  }

  lemma SpansKeepApart(base: int, n: nat, k: nat)
    requires n > 0 <==> k > 0
    ensures KeepApart(Span(base, n), Span(base, k))
  {
    hide KeepApart;
    if n == 0 {
      SameLengthKeepsApart(Span(base, n), Span(base, k));
    } else {
      StartsKeepApart(Span(base, n), Span(base, k), base);
    }
  }

  /** The platforms, name by name. */
  lemma SizesFit(name: Name, env: Env)
    requires Sane(env)
    ensures !IsPair(name) ==> (SizeOfNamed(name, env) == MeantSize(name, env) <==> Fits(name, env))
    ensures !IsPair(name) ==> (SizeOfNamed(name, env) > 0 <==> MeantSize(name, env) > 0)
    ensures IsPair(name) ==> (env.pairOffset(name) == StructOffset(name, env) <==> Fits(name, env))
  {
    hide StructOffset;
  }

  lemma SpanSizes(base: int, n: nat, k: nat, v: nat, p: nat, q: nat, i: nat)
    ensures |Span(base, n)| == n && |Span(base, k)| == k && (Span(base, n) == Span(base, k) <==> n == k)
    ensures |Span(base, v) + Span(base + p, i)| == |Span(base, v) + Span(base + q, i)| == v + i
    ensures i > 0 ==> (Span(base, v) + Span(base + p, i) == Span(base, v) + Span(base + q, i) <==> p == q)
  {
    OneSpan(base, n, k);
    if i > 0 { TwoSpans(base, v, p, q, i); }
  }

  /** How many bytes are visited, and how many are meant. */
  function CodeSize(name: Name, env: Env): nat {
    if IsPair(name) then ValueSize(name, env) + env.intSize else SizeOfNamed(name, env)
  }

  function MeantSize(name: Name, env: Env): nat {
    if IsPair(name) then ValueSize(name, env) + env.intSize else Meaning(name, env).0 * Meaning(name, env).1
  }

  lemma Empty(base: int)
    ensures TraceBytes([]) == [] && MapBytes(base, []) == [] && forall m: TypeMap, step: int :: Copies(m, 0, step) == []
  {
  }

  // ----- where the walker is right

  predicate FastPath(base: int, ty: Type, env: Env) {
    var size := SizeOf(ty, env);
    PowerSize(size) && base % size == 0
  }

  /** The walk over one item visits its bytes. */
  predicate RightAt(base: int, ty: Type, env: Env)
    requires Sane(env)
    decreases ty, 1, 0
  {
    match ty
    case Named(name) => Fits(name, env)
    case Contiguous(count, o) => RightArray(base, o, count, env)
    case Vector(count, blocklen, stride, o) => RightStrided(base, o, count, blocklen, stride * env.extent(o), env)
    case HVector(count, blocklen, hstride, o) => RightStrided(base, o, count, blocklen, hstride, env)
    case Indexed(blocks, o) => RightBlocks(base, o, blocks, env.extent(o), env)
    case HIndexed(blocks, o) => RightBlocks(base, o, blocks, 1, env)
    case Struct(fields) => RightFields(base, ty, |fields|, env)
    case OtherCombiner(_) => true
  }

  /** The walk over an array does: on the fast path if the extent is the size, or there is but one element. */
  predicate RightArray(base: int, elemTy: Type, count: int, env: Env)
    requires Sane(env)
    decreases elemTy, 3, 0
  {
    if FastPath(base, elemTy, env) then
      count <= 0 || (Fits(elemTy.name, env) && (count == 1 || env.extent(elemTy) == SizeOf(elemTy, env)))
    else RightEach(base, elemTy, count, env)
  }

  predicate RightEach(base: int, elemTy: Type, count: int, env: Env)
    requires Sane(env)
    decreases elemTy, 2, count
  {
    count <= 0 ||
    (RightEach(base, elemTy, count - 1, env) && RightAt(base + (count - 1) * env.extent(elemTy), elemTy, env))
  }

  predicate RightStrided(base: int, o: Type, count: int, blocklen: int, step: int, env: Env)
    requires Sane(env)
    decreases o, 4, count
  {
    count <= 0 ||
    (RightStrided(base, o, count - 1, blocklen, step, env) && RightArray(base + (count - 1) * step, o, blocklen, env))
  }

  predicate RightBlocks(base: int, o: Type, blocks: seq<Block>, unit: int, env: Env)
    requires Sane(env)
    decreases o, 4, |blocks|
  {
    blocks == [] ||
    var b := blocks[|blocks| - 1];
    RightBlocks(base, o, blocks[..|blocks| - 1], unit, env) && RightArray(base + b.disp * unit, o, b.len, env)
  }

  predicate RightFields(base: int, ty: Type, n: nat, env: Env)
    requires Sane(env) && ty.Struct? && n <= |ty.fields|
    decreases ty, 0, n
  {
    n == 0 ||
    var f := ty.fields[n - 1];
    RightFields(base, ty, n - 1, env) && RightArray(base + f.disp, f.ty, f.len, env)
  }

  /** The walk over the type comes to a part that it does not handle. */
  predicate Meets(ty: Type) {
    match ty
    case Named(name) => name.Other?
    case Contiguous(count, o) => count > 0 && Meets(o)
    case Vector(count, blocklen, _, o) => count > 0 && blocklen > 0 && Meets(o)
    case HVector(count, blocklen, _, o) => count > 0 && blocklen > 0 && Meets(o)
    case Indexed(blocks, o) => (exists i :: 0 <= i < |blocks| && blocks[i].len > 0) && Meets(o)
    case HIndexed(blocks, o) => (exists i :: 0 <= i < |blocks| && blocks[i].len > 0) && Meets(o)
    case Struct(fields) => exists i :: 0 <= i < |fields| && fields[i].len > 0 && Meets(fields[i].ty)
    case OtherCombiner(_) => true
  }

  // ----- the walker

  /** The structs that the code declares for a value and an int: how many bytes the value has, and how much room. */
  method StructFields(name: Name, env: Env) returns (val: nat, room: nat)
    requires Sane(env)
    ensures room > 0 <==> IsPair(name)
    ensures IsPair(name) ==> val == ValueSize(name, env) && room == (if name == LongDoubleInt then env.ldSize else val)
  {
    if name == TwoInt {
      val, room := env.intSize, env.intSize;
    } else if name == LongInt {
      val, room := env.longSize, env.longSize;
    } else if name == DoubleInt {
      val, room := env.doubleSize, env.doubleSize;
    } else if name == ShortInt {
      val, room := env.shortSize, env.shortSize;
    } else if name == FloatInt {
      val, room := env.floatSize, env.floatSize;
    } else if name == LongDoubleInt {
      val, room := env.ldImage, env.ldSize;
    } else {
      val, room := 0, 0;
    }
  }

  /** The base cases of walk_type. */
  method WalkNamed(base: int, name: Name, env: Env) returns (known: bool, calls: seq<Call>)
    requires Sane(env)
    ensures (known <==> !name.Other?) && calls == NamedCalls(base, name, env)
    ensures Tells(TraceBytes(calls), MapBytes(base, NamedMap(name, env)), Fits(name, env))
  {
    hide TraceBytes, MapBytes, NamedMap, Fits, SizeOfNamed, AlignUpwards, CodeSize, MeantSize, Tells;
    known, calls := true, [];
    var sz := SizeOfNamed(name, env);
    if sz > 0 {
      calls := [Call(base, sz)];
    } else if name != Lb && name != Ub {
      var val, room := StructFields(name, env);
      known := room > 0;
      if known {
        calls := [Call(base, val), Call(base + AlignUpwards(room, env.intAlign), env.intSize)];
      }
    }
    KnownNames(name, env);
    NamedExact(base, name, env);
  }

  lemma KnownNames(name: Name, env: Env)
    requires Sane(env)
    ensures SizeOfNamed(name, env) > 0 || IsPair(name) || name == Lb || name == Ub <==> !name.Other?
  {
  }

  /** walk_type. False stands for the exit in strict mode on a type that is not handled. On every platform, the bytes
      visited are those of the type map, in order, if and only if RightAt: no mistake in one part makes up for one in
      another. */
  method WalkType(base: int, ty: Type, env: Env, strict: bool) returns (ok: bool, calls: seq<Call>)
    requires Sane(env)
    ensures ok <==> !(strict && Meets(ty))
    ensures ok ==> Tells(TraceBytes(calls), MapBytes(base, MapOf(ty, env)), RightAt(base, ty, env))
    ensures ok && ty.Named? ==> calls == NamedCalls(base, ty.name, env)
    decreases ty, 1
  {
    hide TraceBytes, MapBytes, Copies, Shift, SizeOfNamed, NamedMap, NamedCalls, Fits, RightArray, RightStrided;
    hide RightBlocks, RightFields;
    hide Tells;
    match ty
    case Named(name) =>
      var known;
      known, calls := WalkNamed(base, name, env);
      ok := known || !strict;
    case Contiguous(count, o) =>
      ok, calls := WalkTypeArray(base, o, count, env, strict);
    case Vector(count, blocklen, stride, o) =>
      var ex := env.extent(o);
      ok, calls := WalkStrided(base, o, count, blocklen, stride * ex, env, strict);
    case HVector(count, blocklen, hstride, o) =>
      ok, calls := WalkStrided(base, o, count, blocklen, hstride, env, strict);
    case Indexed(blocks, o) =>
      ok, calls := WalkBlocks(base, o, blocks, env.extent(o), env, strict);
    case HIndexed(blocks, o) =>
      ok, calls := WalkBlocks(base, o, blocks, 1, env, strict);
    case Struct(fields) =>
      ok, calls := WalkFields(base, ty, env, strict);
    case OtherCombiner(_) =>
      ok, calls := !strict, [];
      Empty(base);
      NothingTold();
  }

  /** The loops for vectors and hvectors, with the stride in bytes. */
  method WalkStrided(base: int, o: Type, count: int, blocklen: int, step: int, env: Env, strict: bool)
    returns (ok: bool, calls: seq<Call>)
    requires Sane(env)
    ensures ok <==> !(strict && count > 0 && blocklen > 0 && Meets(o))
    ensures ok ==>
      Tells(TraceBytes(calls), MapBytes(base, Copies(Copies(MapOf(o, env), blocklen, env.extent(o)), count, step)),
            RightStrided(base, o, count, blocklen, step, env))
    decreases o, 4
  {
    hide TraceBytes, MapBytes, Shift, MapOf, Meets, RightArray, Tells;
    ghost var m := Copies(MapOf(o, env), blocklen, env.extent(o));
    ok, calls := true, [];
    Empty(base);
    NothingTold();
    var i := 0;
    while i < count
      invariant 0 <= i && (i <= count || i == 0) && ok && (i > 0 ==> !(strict && blocklen > 0 && Meets(o)))
      invariant Tells(TraceBytes(calls), MapBytes(base, Copies(m, i, step)),
                      RightStrided(base, o, i, blocklen, step, env))
    {
      var part;
      ok, part := WalkTypeArray(base + i * step, o, blocklen, env, strict);
      if !ok {
        return;
      }
      CopiesBytes(base, m, i, step);
      TraceJoin(calls, part);
      TellsBoth(TraceBytes(calls), MapBytes(base, Copies(m, i, step)), RightStrided(base, o, i, blocklen, step, env),
                TraceBytes(part), MapBytes(base + i * step, m), RightArray(base + i * step, o, blocklen, env));
      calls := calls + part;
      i := i + 1;
    }
    assert count <= 0 ==> Copies(m, count, step) == [];
  }

  lemma NothingTold()
    ensures Tells([], [], true)
  {
    SameLengthKeepsApart([], []);
  }

  /** The loops for indexed and hindexed types, with displacements in units of `unit` bytes. */
  method WalkBlocks(base: int, o: Type, blocks: seq<Block>, unit: int, env: Env, strict: bool)
    returns (ok: bool, calls: seq<Call>)
    requires Sane(env)
    ensures ok <==> !(strict && (exists i :: 0 <= i < |blocks| && blocks[i].len > 0) && Meets(o))
    ensures ok ==>
      Tells(TraceBytes(calls), MapBytes(base, BlocksMap(MapOf(o, env), blocks, env.extent(o), unit)),
            RightBlocks(base, o, blocks, unit, env))
    decreases o, 4
  {
    hide TraceBytes, MapBytes, Shift, MapOf, Meets, Copies, RightArray, Tells;
    ghost var m := MapOf(o, env);
    ok, calls := true, [];
    Empty(base);
    NothingTold();
    for i := 0 to |blocks|
      invariant ok && !(strict && (exists k :: 0 <= k < i && blocks[k].len > 0) && Meets(o))
      invariant Tells(TraceBytes(calls), MapBytes(base, BlocksMap(m, blocks[..i], env.extent(o), unit)),
              RightBlocks(base, o, blocks[..i], unit, env))
    {
      var part;
      ok, part := WalkTypeArray(base + blocks[i].disp * unit, o, blocks[i].len, env, strict);
      if !ok {
        return;
      }
      assert blocks[..i + 1][..i] == blocks[..i];
      ghost var copies := Copies(m, blocks[i].len, env.extent(o));
      MapBytesJoin(base, BlocksMap(m, blocks[..i], env.extent(o), unit), Shift(copies, blocks[i].disp * unit));
      MapBytesShift(base, copies, blocks[i].disp * unit);
      TraceJoin(calls, part);
      TellsBoth(TraceBytes(calls), MapBytes(base, BlocksMap(m, blocks[..i], env.extent(o), unit)),
                RightBlocks(base, o, blocks[..i], unit, env),
                TraceBytes(part), MapBytes(base + blocks[i].disp * unit, copies),
                RightArray(base + blocks[i].disp * unit, o, blocks[i].len, env));
      calls := calls + part;
    }
    assert blocks[..|blocks|] == blocks;
  }

  /** The loop for structs. */
  method WalkFields(base: int, ty: Type, env: Env, strict: bool) returns (ok: bool, calls: seq<Call>)
    requires Sane(env) && ty.Struct?
    ensures ok <==> !(strict && exists i :: 0 <= i < |ty.fields| && ty.fields[i].len > 0 && Meets(ty.fields[i].ty))
    ensures ok ==>
      Tells(TraceBytes(calls), MapBytes(base, FieldsMap(ty, |ty.fields|, env)), RightFields(base, ty, |ty.fields|, env))
    decreases ty, 0
  {
    hide TraceBytes, MapBytes, Shift, MapOf, Copies, RightArray, Tells, Meets;
    ok, calls := true, [];
    Empty(base);
    NothingTold();
    for i := 0 to |ty.fields|
      invariant ok && !(strict && exists k :: 0 <= k < i && ty.fields[k].len > 0 && Meets(ty.fields[k].ty))
      invariant Tells(TraceBytes(calls), MapBytes(base, FieldsMap(ty, i, env)), RightFields(base, ty, i, env))
    {
      var f := ty.fields[i];
      var part;
      ok, part := WalkTypeArray(base + f.disp, f.ty, f.len, env, strict);
      if !ok {
        return;
      }
      ghost var copies := Copies(MapOf(f.ty, env), f.len, env.extent(f.ty));
      MapBytesJoin(base, FieldsMap(ty, i, env), Shift(copies, f.disp));
      MapBytesShift(base, copies, f.disp);
      TraceJoin(calls, part);
      TellsBoth(TraceBytes(calls), MapBytes(base, FieldsMap(ty, i, env)), RightFields(base, ty, i, env),
                TraceBytes(part), MapBytes(base + f.disp, copies), RightArray(base + f.disp, f.ty, f.len, env));
      calls := calls + part;
    }
  }

  /** walk_type_array: in one call, if the elements are of a small named type and well aligned; else one by one. */
  method WalkTypeArray(base: int, elemTy: Type, count: int, env: Env, strict: bool) returns (ok: bool, calls: seq<Call>)
    requires Sane(env)
    ensures ok <==> !(strict && count > 0 && Meets(elemTy))
    ensures ok ==>
      Tells(TraceBytes(calls), MapBytes(base, Copies(MapOf(elemTy, env), count, env.extent(elemTy))),
            RightArray(base, elemTy, count, env))
    ensures ok && elemTy.Named? ==>
      var size := SizeOfNamed(elemTy.name, env);
      calls == if size in {1, 2, 4, 8} && base % size == 0 then [Call(base, count * size)]
               else EachNamed(base, elemTy.name, count, env.extent(elemTy), env)
    decreases elemTy, 3
  {
    hide TraceBytes, MapBytes, Shift, Meets, Span, Copies, Fits, RightEach, MapOf, Tells;
    var ex: int := SizeOf(elemTy, env);
    if PowerSize(ex) && base % ex == 0 {
      ok, calls := true, [Call(base, count * ex)];
      TraceLast([], calls[0]);
      SmallMeetsNothing(elemTy, env);
      FastPathRight(base, elemTy, count, env);
    } else {
      ok, calls := WalkOneByOne(base, elemTy, count, env, strict);
    }
  }

  lemma SmallMeetsNothing(ty: Type, env: Env)
    requires PowerSize(SizeOf(ty, env))
    ensures ty.Named? && !Meets(ty)
  {
  }

  /** The calls for names one by one, each an extent further on. */
  function EachNamed(base: int, name: Name, n: int, ex: int, env: Env): seq<Call>
    requires Sane(env)
  {
    if n <= 0 then [] else EachNamed(base, name, n - 1, ex, env) + NamedCalls(base + (n - 1) * ex, name, env)
  }

  /** The slow path. */
  method WalkOneByOne(base: int, elemTy: Type, count: int, env: Env, strict: bool) returns (ok: bool, calls: seq<Call>)
    requires Sane(env)
    ensures ok <==> !(strict && count > 0 && Meets(elemTy))
    ensures ok ==>
      Tells(TraceBytes(calls), MapBytes(base, Copies(MapOf(elemTy, env), count, env.extent(elemTy))),
            RightEach(base, elemTy, count, env))
    ensures ok && elemTy.Named? ==> calls == EachNamed(base, elemTy.name, count, env.extent(elemTy), env)
    decreases elemTy, 2
  {
    hide TraceBytes, MapBytes, Shift, MapOf, Meets, RightAt, Tells, Fits, NamedCalls;
    ghost var m := MapOf(elemTy, env);
    var ex := env.extent(elemTy);
    ok, calls := true, [];
    Empty(base);
    NothingTold();
    var i := 0;
    while i < count
      invariant 0 <= i && (i <= count || i == 0) && ok && (i > 0 ==> !(strict && Meets(elemTy)))
      invariant elemTy.Named? ==> calls == EachNamed(base, elemTy.name, i, ex, env)
      invariant Tells(TraceBytes(calls), MapBytes(base, Copies(m, i, ex)), RightEach(base, elemTy, i, env))
    {
      var part;
      ok, part := WalkType(base + i * ex, elemTy, env, strict);
      if !ok {
        return;
      }
      CopiesBytes(base, m, i, ex);
      TraceJoin(calls, part);
      TellsBoth(TraceBytes(calls), MapBytes(base, Copies(m, i, ex)), RightEach(base, elemTy, i, env),
                TraceBytes(part), MapBytes(base + i * ex, m), RightAt(base + i * ex, elemTy, env));
      calls := calls + part;
      i := i + 1;
    }
    assert count <= 0 ==> Copies(m, count, ex) == [];
  }

  /** Maps with the same bytes have copies with the same bytes. */
  lemma {:induction false} SameCopies(base: int, m: TypeMap, m': TypeMap, n: int, step: int)
    requires n >= 0 && forall b {:trigger MapBytes(b, m)} :: MapBytes(b, m) == MapBytes(b, m')
    ensures MapBytes(base, Copies(m, n, step)) == MapBytes(base, Copies(m', n, step))
  {
    hide MapBytes, Copies;
    if n == 0 {
      Empty(base);
    } else {
      SameCopies(base, m, m', n - 1, step);
      CopiesBytes(base, m, n - 1, step);
      CopiesBytes(base, m', n - 1, step);
    }
  }

  /** The number of bytes of copies of a name. */
  lemma {:induction false} CopiesSize(base: int, name: Name, env: Env, n: int, step: int)
    requires Sane(env) && n >= 0
    ensures |MapBytes(base, Copies(NamedMap(name, env), n, step))| == n * MeantSize(name, env)
  {
    hide MapBytes, Copies, NamedMap, MeantSize, CodeSize, Fits;
    if n == 0 {
      Empty(base);
    } else {
      CopiesSize(base, name, env, n - 1, step);
      CopiesBytes(base, NamedMap(name, env), n - 1, step);
      NamedExact(base + (n - 1) * step, name, env);
      OneMoreTimes(n - 1, MeantSize(name, env));
    }
  }

  /** The names on the fast path are no structs, so that they fit exactly if they have the size the code thinks. */
  lemma SmallName(ty: Type, env: Env)
    requires Sane(env) && PowerSize(SizeOf(ty, env))
    ensures ty.Named? && !IsPair(ty.name) && SizeOf(ty, env) == CodeSize(ty.name, env) > 0
    ensures MapOf(ty, env) == NamedMap(ty.name, env)
    ensures Fits(ty.name, env) <==> MeantSize(ty.name, env) == CodeSize(ty.name, env)
    ensures MeantSize(ty.name, env) > 0 && env.extent(ty) > 0
  {
    hide TraceBytes, MapBytes, NamedMap, NamedCalls, KeepApart, Fits;
    NamedExact(0, ty.name, env);
    SizesFit(ty.name, env);
    SmallPositive(ty, env);
  }

  lemma SmallPositive(ty: Type, env: Env)
    requires Sane(env) && PowerSize(SizeOf(ty, env))
    ensures ty.Named? && !IsPair(ty.name) && SizeOf(ty, env) == CodeSize(ty.name, env) > 0 && env.extent(ty) > 0
  {
    assert ty == Named(ty.name);
  }

  lemma MoreTimes(n: int, k: nat, j: nat)
    requires n >= 1 && k != j
    ensures n * k != n * j
  {
    if k < j { Product(n, j - k); } else { Product(n, k - j); }
    assert n * (k - j) == n * k - n * j;
  }

  lemma Product(n: int, k: int)
    requires n >= 1 && k >= 1
    ensures n * k >= 1
  {
  }

  /** Copies of a small name start at their address and never come back to it. */
  lemma {:induction false} CopiesStart(base: int, name: Name, env: Env, n: int, step: int)
    requires Sane(env) && n >= 1 && step > 0 && !IsPair(name) && MeantSize(name, env) > 0
    ensures var s := MapBytes(base, Copies(NamedMap(name, env), n, step));
            && |s| > 0 && s[0] == base && forall i :: 0 < i < |s| ==> s[i] > base
  {
    hide MapBytes, Copies, NamedMap, MeantSize, IsPair;
    var m := NamedMap(name, env);
    CopiesBytes(base, m, n - 1, step);
    MeaningSpan(base + (n - 1) * step, name, env);
    if n == 1 {
      NoCopies(base, m, 0, step);
    } else {
      CopiesStart(base, name, env, n - 1, step);
      Product(n - 1, step);
    }
  }

  lemma MeaningSpan(base: int, name: Name, env: Env)
    requires Sane(env) && !IsPair(name)
    ensures MapBytes(base, NamedMap(name, env)) == Span(base, MeantSize(name, env))
  {
    hide MapBytes, NamedMap, Span, Meaning;
    MeaningBytes(base, name, env);
  }

  /** The fast path tells, and is right exactly as RightArray says. */
  lemma FastPathRight(base: int, ty: Type, count: int, env: Env)
    requires Sane(env) && FastPath(base, ty, env)
    ensures Tells(Span(base, count * SizeOf(ty, env)), MapBytes(base, Copies(MapOf(ty, env), count, env.extent(ty))),
                  RightArray(base, ty, count, env))
  {
    hide MapBytes, Copies, Fits, CodeSize, MeantSize, NamedMap, MapOf, IsPair, PowerSize, KeepApart;
    var size, ex := SizeOf(ty, env), env.extent(ty);
    SmallName(ty, env);
    var m := NamedMap(ty.name, env);
    if count <= 0 {
      NotPositive(count, size);
      NoCopies(base, m, count, ex);
      SameLengthKeepsApart([], []);
    } else {
      Product(count, size);
      CopiesStart(base, ty.name, env, count, ex);
      StartsKeepApart(Span(base, count * size), MapBytes(base, Copies(m, count, ex)), base);
      FastPathEqual(base, ty, count, env);
    }
  }

  lemma FastPathEqual(base: int, ty: Type, count: int, env: Env)
    requires Sane(env) && FastPath(base, ty, env) && count > 0
    ensures Span(base, count * SizeOf(ty, env)) == MapBytes(base, Copies(MapOf(ty, env), count, env.extent(ty)))
            <==> RightArray(base, ty, count, env)
  {
    hide MapBytes, Copies, Fits, CodeSize, MeantSize, NamedMap, MapOf, IsPair, PowerSize;
    var size, ex := SizeOf(ty, env), env.extent(ty);
    SmallName(ty, env);
    CopiesSize(base, ty.name, env, count, ex);
    if Fits(ty.name, env) {
      FitsAsOne(ty.name, env);
      SameCopies(base, NamedMap(ty.name, env), [Entry(size, 0)], count, ex);
      FastPathExact(base, size, count, ex);
    } else {
      MoreTimes(count, size, MeantSize(ty.name, env));
    }
  }

  lemma NoCopies(base: int, m: TypeMap, n: int, step: int)
    requires n <= 0
    ensures MapBytes(base, Copies(m, n, step)) == []
  {
  }

  lemma FitsAsOne(name: Name, env: Env)
    requires Sane(env) && !IsPair(name) && Fits(name, env)
    ensures forall b {:trigger MapBytes(b, NamedMap(name, env))} ::
      MapBytes(b, NamedMap(name, env)) == MapBytes(b, [Entry(CodeSize(name, env), 0)])
  {
    hide MapBytes, NamedMap, Fits;
    forall b
      ensures MapBytes(b, NamedMap(name, env)) == MapBytes(b, [Entry(CodeSize(name, env), 0)])
    {
      NamedExact(b, name, env);
      CallsBytes(b, name, env);
      OneEntry(b, CodeSize(name, env));
    }
  }

  // ----- environments in which nothing goes wrong, and one in which something does

  /** All names in the type fit the platform, and small named types that are elements have their size as extent. */
  predicate Natural(ty: Type, env: Env)
    requires Sane(env)
  {
    match ty
    case Named(name) => Fits(name, env)
    case Contiguous(_, o) => NaturalElement(o, env) && Natural(o, env)
    case Vector(_, _, _, o) => NaturalElement(o, env) && Natural(o, env)
    case HVector(_, _, _, o) => NaturalElement(o, env) && Natural(o, env)
    case Indexed(_, o) => NaturalElement(o, env) && Natural(o, env)
    case HIndexed(_, o) => NaturalElement(o, env) && Natural(o, env)
    case Struct(fields) =>
      forall i :: 0 <= i < |fields| ==> NaturalElement(fields[i].ty, env) && Natural(fields[i].ty, env)
    case OtherCombiner(_) => true
  }

  predicate NaturalElement(ty: Type, env: Env) { PowerSize(SizeOf(ty, env)) ==> env.extent(ty) == SizeOf(ty, env) }

  /** Then the walk is right at every address. Only the names that occur in the type matter. */
  lemma {:induction false} NaturalIsRight(base: int, ty: Type, env: Env)
    requires Sane(env) && Natural(ty, env)
    ensures RightAt(base, ty, env)
    decreases ty, 1, 0
  {
    hide Fits;
    match ty
    case Named(name) =>
    case Contiguous(count, o) => NaturalArray(base, o, count, env);
    case Vector(count, blocklen, stride, o) => NaturalStrided(base, o, count, blocklen, stride * env.extent(o), env);
    case HVector(count, blocklen, hstride, o) => NaturalStrided(base, o, count, blocklen, hstride, env);
    case Indexed(blocks, o) => NaturalBlocks(base, o, blocks, env.extent(o), env);
    case HIndexed(blocks, o) => NaturalBlocks(base, o, blocks, 1, env);
    case Struct(fields) =>
      NaturalFields(base, ty, |fields|, env);
    case OtherCombiner(_) =>
  }

  lemma {:induction false} NaturalArray(base: int, o: Type, count: int, env: Env)
    requires Sane(env) && Natural(o, env) && NaturalElement(o, env)
    ensures RightArray(base, o, count, env)
    decreases o, 3, 0
  {
    hide Fits;
    NaturalIsRight(base, o, env);
    if !FastPath(base, o, env) { NaturalEach(base, o, count, env); }
  }

  lemma {:induction false} NaturalEach(base: int, o: Type, count: int, env: Env)
    requires Sane(env) && Natural(o, env)
    ensures RightEach(base, o, count, env)
    decreases o, 2, count
  {
    if count > 0 {
      NaturalEach(base, o, count - 1, env);
      NaturalIsRight(base + (count - 1) * env.extent(o), o, env);
    }
  }

  lemma {:induction false} NaturalStrided(base: int, o: Type, count: int, blocklen: int, step: int, env: Env)
    requires Sane(env) && Natural(o, env) && NaturalElement(o, env)
    ensures RightStrided(base, o, count, blocklen, step, env)
    decreases o, 4, count
  {
    NaturalIsRight(base, o, env);
    if count > 0 {
      NaturalStrided(base, o, count - 1, blocklen, step, env);
      NaturalArray(base + (count - 1) * step, o, blocklen, env);
    }
  }

  lemma {:induction false} NaturalBlocks(base: int, o: Type, blocks: seq<Block>, unit: int, env: Env)
    requires Sane(env) && Natural(o, env) && NaturalElement(o, env)
    ensures RightBlocks(base, o, blocks, unit, env)
    decreases o, 4, |blocks|
  {
    NaturalIsRight(base, o, env);
    if blocks != [] {
      var b := blocks[|blocks| - 1];
      NaturalBlocks(base, o, blocks[..|blocks| - 1], unit, env);
      NaturalArray(base + b.disp * unit, o, b.len, env);
    }
  }

  lemma {:induction false} NaturalFields(base: int, ty: Type, n: nat, env: Env)
    requires Sane(env) && ty.Struct? && n <= |ty.fields| && Natural(ty, env)
    ensures RightFields(base, ty, n, env)
    decreases ty, 0, n
  {
    if n > 0 {
      NaturalFields(base, ty, n - 1, env);
      NaturalArray(base + ty.fields[n - 1].disp, ty.fields[n - 1].ty, ty.fields[n - 1].len, env);
    }
  }

  /** Where wide characters have 4 bytes, as on Linux, neither two of them at an aligned address nor a struct of two of
      them and two ints are visited as they should be, while a vector of ints is. */
  method WideCharacters(env: Env, base: int, stride: int) returns (wide: seq<Call>, mixed: seq<Call>, ints: seq<Call>)
    requires Sane(env) && base % 2 == 0 && env.wcharSize == 4 && env.intSize == 4
    requires env.extent(Named(Int)) == 4
    ensures TraceBytes(wide) != MapBytes(base, Copies(MapOf(Named(Wchar), env), 2, env.extent(Named(Wchar))))
    ensures TraceBytes(mixed) !=
        MapBytes(base, MapOf(Struct([Field(2, 0, Named(Wchar)), Field(2, 8, Named(Int))]), env))
    ensures TraceBytes(ints) == MapBytes(base, MapOf(Vector(3, 2, stride, Named(Int)), env))
  {
    hide TraceBytes, MapBytes, Copies, RightAt, KeepApart;
    var ok;
    ok, wide := WalkTypeArray(base, Named(Wchar), 2, env, false);
    MixedWrong(base, env);
    ok, mixed := WalkType(base, Struct([Field(2, 0, Named(Wchar)), Field(2, 8, Named(Int))]), env, false);
    NaturalIsRight(base, Vector(3, 2, stride, Named(Int)), env);
    ok, ints := WalkType(base, Vector(3, 2, stride, Named(Int)), env, false);
  }

  lemma MixedWrong(base: int, env: Env)
    requires Sane(env) && base % 2 == 0 && env.wcharSize == 4
    ensures !RightAt(base, Struct([Field(2, 0, Named(Wchar)), Field(2, 8, Named(Int))]), env)
  {
    var ty := Struct([Field(2, 0, Named(Wchar)), Field(2, 8, Named(Int))]);
    assert !RightArray(base, Named(Wchar), 2, env);
    assert !RightFields(base, ty, 1, env);
    assert !RightFields(base, ty, 2, env);
  }
}
