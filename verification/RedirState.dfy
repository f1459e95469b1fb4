/** Redirection as a state machine: specifications, active bindings, and the translations made under them
    (m_redir.c, with the parts of m_translate.c and m_transtab.c that it relies on). */
module RedirState {
  import opened Options

  type Addr = nat

  /** What a symbol name of the special form asks for, as decoded by VG_(maybe_Z_demangle). */
  datatype Request = Request(sopatt: string, fnpatt: string, isWrap: bool)

  /** A symbol of an object. `glink` says that its code has the AIX glink form. */
  datatype Symbol = Symbol(addr: Addr, name: string, isText: bool, toc: nat, request: Option<Request>, glink: bool)

  /** DebugInfo: a loaded object. The handle stands for its address. */
  datatype DebugInfo = DebugInfo(handle: nat, soname: string, syms: seq<Symbol>)

  datatype Spec = Spec(sopatt: string, fnpatt: string, to: Addr, isWrap: bool, mandatory: bool)

  /** The specs of an object, or those preloaded at startup. */
  datatype TopSpec = TopSpec(seginfo: Option<DebugInfo>, specs: seq<Spec>)

  /** A pointer to a TopSpec: null, to the one with the preloaded specs, or to that of an object. */
  datatype Parent = NoParent | Preloaded | Of(handle: nat)

  function ParentOf(ts: TopSpec): Parent { if ts.seginfo.None? then Preloaded else Of(ts.seginfo.value.handle) }

  datatype Active = Active(to: Addr, specParent: Parent, symParent: Parent, isWrap: bool)

  datatype Binding = Binding(from: Addr, act: Active)

  // ----- translations

  datatype Kind = Normal | Wrap | Replace

  datatype Extent = Extent(base: Addr, len: nat)

  /** A cached translation: where it really starts, of what kind, and the code it was made from. */
  datatype Translation = Translation(target: Addr, kind: Kind, extents: seq<Extent>)

  /** The active set and the translation cache. */
  datatype Table = Table(active: map<Addr, Active>, cache: map<Addr, Translation>)

  /** overlap1, for a range of one byte. */
  predicate Touches(e: Extent, a: Addr) { e.base <= a < e.base + e.len }

  predicate Overlaps(t: Translation, a: Addr) { exists i :: 0 <= i < |t.extents| && Touches(t.extents[i], a) }

  /** VG_(discard_translations) of one byte. */
  function Discard(cache: map<Addr, Translation>, a: Addr): map<Addr, Translation> {
    map k | k in cache && !Overlaps(cache[k], a) :: cache[k]
  }

  /** VG_(redir_do_lookup). */
  function Lookup(active: map<Addr, Active>, a: Addr): Addr { if a in active then active[a].to else a }

  /** How m_translate classifies a translation of `a`. */
  function KindOf(active: map<Addr, Active>, a: Addr): Kind {
    if Lookup(active, a) == a then Normal else if active[a].isWrap then Wrap else Replace
  }

  /** The translation of `a` is what would be made of it now: it starts at the redirected address, has the right
      kind, and nowhere runs on into code that is redirected. */
  ghost predicate UpToDate(active: map<Addr, Active>, a: Addr, t: Translation) {
    && t.target == Lookup(active, a) && t.kind == KindOf(active, a)
    && |t.extents| > 0 && t.extents[0].base == t.target && t.extents[0].len > 0
    && forall i :: 1 <= i < |t.extents| && t.extents[i].len > 0 ==>
         t.extents[i].base !in active || active[t.extents[i].base].to == t.extents[i].base
  }

  ghost predicate CacheOk(t: Table) {
    forall a :: a in t.cache ==> UpToDate(t.active, a, t.cache[a])
  }

  // ----- adding bindings

  /** maybe_add_active: an implausible from-address is ignored, and so is one that is bound already. */
  function AddOne(t: Table, b: Binding, okFrom: set<Addr>): Table {
    if b.from !in okFrom || b.from in t.active then t
    else Table(t.active[b.from := b.act], Discard(Discard(t.cache, b.from), b.act.to))
  }

  function AddAll(t: Table, bs: seq<Binding>, okFrom: set<Addr>): Table {
    if bs == [] then t else AddOne(AddAll(t, bs[..|bs| - 1], okFrom), bs[|bs| - 1], okFrom)
  }

  lemma AddNone(t: Table, okFrom: set<Addr>)
    ensures AddAll(t, [], okFrom) == t
  {
  }

  lemma AddOneMore(t: Table, bs: seq<Binding>, b: Binding, okFrom: set<Addr>)
    ensures AddAll(t, bs + [b], okFrom) == AddOne(AddAll(t, bs, okFrom), b, okFrom)
  {
    assert (bs + [b])[..|bs|] == bs;
  }

  lemma {:induction false} AddBoth(t: Table, a: seq<Binding>, b: seq<Binding>, okFrom: set<Addr>)
    ensures AddAll(t, a + b, okFrom) == AddAll(AddAll(t, a, okFrom), b, okFrom)
    decreases |b|
  {
    if b == [] {
      assert a + b == a;
    } else {
      AddBoth(t, a, b[..|b| - 1], okFrom);
      assert (a + b)[..|a + b| - 1] == a + b[..|b| - 1];
    }
  }

  lemma AddOneKeepsCache(t: Table, b: Binding, okFrom: set<Addr>)
    requires CacheOk(t)
    ensures CacheOk(AddOne(t, b, okFrom))
  {
    var t' := AddOne(t, b, okFrom);
    forall a | a in t'.cache
      ensures UpToDate(t'.active, a, t'.cache[a])
    {
      assert UpToDate(t.active, a, t.cache[a]);
      if t' != t {
        var x := t.cache[a];
        assert !Overlaps(x, b.from);
        assert !Touches(x.extents[0], b.from);
        assert forall i :: 1 <= i < |x.extents| ==> !Touches(x.extents[i], b.from);
      }
    }
  }

  /** Adding bindings never leaves a translation behind that should now be redirected. */
  lemma {:induction false} AddAllKeepsCache(t: Table, bs: seq<Binding>, okFrom: set<Addr>)
    requires CacheOk(t)
    ensures CacheOk(AddAll(t, bs, okFrom))
  {
    if bs != [] {
      AddAllKeepsCache(t, bs[..|bs| - 1], okFrom);
      AddOneKeepsCache(AddAll(t, bs[..|bs| - 1], okFrom), bs[|bs| - 1], okFrom);
    }
  }

  /** The first of the bindings for `a`, if there is one. */
  ghost function FirstFor(bs: seq<Binding>, a: Addr): Option<Active> {
    if bs == [] then None
    else if FirstFor(bs[..|bs| - 1], a).Some? then FirstFor(bs[..|bs| - 1], a)
    else if bs[|bs| - 1].from == a then Some(bs[|bs| - 1].act)
    else None
  }

  /** What is bound stays bound; else the first binding for a plausible address is taken, and all others ignored. */
  lemma {:induction false} FirstWins(t: Table, bs: seq<Binding>, okFrom: set<Addr>, a: Addr)
    ensures var m := AddAll(t, bs, okFrom).active;
            && (a in t.active ==> a in m && m[a] == t.active[a])
            && (a !in t.active ==> (a in m <==> a in okFrom && FirstFor(bs, a).Some?))
            && (a !in t.active && a in m ==> FirstFor(bs, a) == Some(m[a]))
  {
    if bs != [] {
      FirstWins(t, bs[..|bs| - 1], okFrom, a);
    }
  }

  lemma {:induction false} FirstIsOne(bs: seq<Binding>, a: Addr)
    ensures FirstFor(bs, a).Some? <==> exists i :: 0 <= i < |bs| && bs[i].from == a
    ensures FirstFor(bs, a).Some? ==> Binding(a, FirstFor(bs, a).value) in bs
  {
    if bs != [] {
      var bs', b := bs[..|bs| - 1], bs[|bs| - 1];
      FirstIsOne(bs', a);
      assert bs == bs' + [b];
      if i :| 0 <= i < |bs| && bs[i].from == a {
        if i < |bs'| { assert bs'[i].from == a; }
      }
      if i :| 0 <= i < |bs'| && bs'[i].from == a { assert bs[i].from == a; }
    }
  }
}
