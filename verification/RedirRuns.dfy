/** Whole runs of loading, unloading and translating (m_redir.c). */
module RedirRuns {
  import opened SeqMatch
  import opened Options
  import opened RedirState
  import opened RedirCross
  import opened Redir

  /** Each event comes with the addresses that look plausible at the time. */
  datatype Event =
    | Load(di: DebugInfo, plausible: set<Addr>)
    | Unload(h: nat, plausible: set<Addr>)
    | Use(nraddr: Addr, len: nat, chase: seq<Extent>)

  ghost function Without(tops: seq<TopSpec>, h: nat): seq<TopSpec> {
    if tops == [] then []
    else if ParentOf(tops[0]) == Of(h) then tops[1..]
    else [tops[0]] + Without(tops[1..], h)
  }

  ghost function After(tops: seq<TopSpec>, e: Event, usesToc: bool): seq<TopSpec> {
    match e
    case Load(di, _) => [NewTop(di, usesToc)] + tops
    case Unload(h, _) => Without(tops, h)
    case Use(_, _, _) => tops
  }

  // ----- an orderly environment

  /** Code of the objects at hand looks plausible, at both ends of every binding. */
  ghost predicate LooksPlausible(tops: seq<TopSpec>, plausible: set<Addr>) {
    forall b :: Derives(tops, b) ==> b.from in plausible && b.act.to in plausible
  }

  /** Only the code of objects at hand looks plausible, and no address is bound in two ways. */
  ghost predicate OrderlyStep(tops: seq<TopSpec>, e: Event, hard: map<Addr, Active>, usesToc: bool) {
    match e
    case Load(_, plausible) => ConflictFree(After(tops, e, usesToc), hard) &&
    LooksPlausible(After(tops, e, usesToc), plausible)
    case Unload(h, plausible) =>
      && LooksPlausible(After(tops, e, usesToc), plausible)
      && forall k :: 0 <= k < |tops| && ParentOf(tops[k]) == Of(h) ==> NoneOf(tops[k].seginfo.value, plausible)
    case Use(_, len, _) => true
  }

  ghost predicate NoneOf(di: DebugInfo, plausible: set<Addr>) {
    forall sym :: sym in di.syms ==> sym.addr !in plausible
  }

  ghost predicate Orderly(tops: seq<TopSpec>, events: seq<Event>, hard: map<Addr, Active>, usesToc: bool)
    decreases |events|
  {
    || events == []
    || (&& OrderlyStep(tops, events[0], hard, usesToc)
        && Orderly(After(tops, events[0], usesToc), events[1..], hard, usesToc))
  }

  lemma {:induction false} WithoutIs(tops: seq<TopSpec>, k: nat, h: nat)
    requires Apart(tops) && k < |tops| && ParentOf(tops[k]) == Of(h)
    ensures Without(tops, h) == tops[..k] + tops[k + 1..]
  {
    hide Apart;
    if k > 0 {
      TailApart(tops, k);
      WithoutIs(tops[1..], k - 1, h);
      DropLater(tops, k);
    }
  }

  lemma TailApart(tops: seq<TopSpec>, k: nat)
    requires Apart(tops) && 0 < k < |tops|
    ensures Apart(tops[1..]) && ParentOf(tops[0]) != ParentOf(tops[k]) && tops[1..][k - 1] == tops[k]
  {
  }

  lemma DropLater(s: seq<TopSpec>, k: nat)
    requires 0 < k < |s|
    ensures [s[0]] + (s[1..][..k - 1] + s[1..][k..]) == s[..k] + s[k + 1..]
  {
  }

  lemma OrderlyLoad(tops: seq<TopSpec>, new_: TopSpec, plausible: set<Addr>)
    requires new_.seginfo.Some? && LooksPlausible([new_] + tops, plausible)
    ensures forall b :: b in LoadBindings(tops, new_) ==> b.from in plausible
  {
    hide LoadBindings, Derives;
    forall b | b in LoadBindings(tops, new_)
      ensures b.from in plausible
    {
      LoadComplete(tops, new_, b);
    }
  }

  lemma OrderlyUnload(tops: seq<TopSpec>, k: nat, hard: map<Addr, Active>, active: map<Addr, Active>,
                      plausible: set<Addr>)
    requires k < |tops| && Apart(tops) && tops[k].seginfo.Some? && Hardwired(hard) && Exact(tops, hard, active)
    requires LooksPlausible(tops[..k] + tops[k + 1..], plausible) && NoneOf(tops[k].seginfo.value, plausible)
    ensures forall a :: a in active ==> CleanFor(a, active[a], tops[k].seginfo.value.handle, plausible)
  {
    hide Matches;
    forall a | a in active
      ensures CleanFor(a, active[a], tops[k].seginfo.value.handle, plausible)
    {
      var b := Binding(a, active[a]);
      assert active[b.from] == b.act;
      if Derives(tops, b) {
        RestDerives(tops, k, b);
        if b.act.symParent == ParentOf(tops[k]) { FromUnloaded(tops, k, b); }
      }
    }
  }

  lemma FromUnloaded(tops: seq<TopSpec>, k: nat, b: Binding)
    requires k < |tops| && Apart(tops) && tops[k].seginfo.Some? && Derives(tops, b)
    requires b.act.symParent == ParentOf(tops[k])
    ensures exists sym :: sym in tops[k].seginfo.value.syms && sym.addr == b.from
  {
    hide Matches;
    var i, j :| 0 <= i < |tops| && 0 <= j < |tops| && DerivesFrom(tops, i, j, b);
    ParentsOf(tops, i, j, b);
    assert j == k;
  }

  /** Run the events until one fails. No run leaves a stale translation; and an orderly run keeps the active set
      exactly the full cross product of all specs and all symbols at hand, with the hardwired bindings. */
  method Run(r: Redirector, events: seq<Event>) returns (ok: bool)
    requires r.Valid()
    modifies r`topSpecs, r`active, r`cache
    ensures ok ==> r.Valid()
    ensures ok && Orderly(old(r.topSpecs), events, r.hard, r.usesToc) &&
            Exact(old(r.topSpecs), r.hard, old(r.active)) ==>
      Exact(r.topSpecs, r.hard, r.active)
    decreases |events|
  {
    hide Exact, ParentsLive, CacheOk, LooksPlausible, ConflictFree, Loadable, LoadBindings, Sweep, AddAll, Harvest;
    hide NoneOf;
    if events == [] {
      return true;
    }
    ghost var tops, active := r.topSpecs, r.active;
    match events[0] {
      case Load(di, plausible) =>
        ok := r.NotifyNew(di, plausible);
        if LooksPlausible([NewTop(di, r.usesToc)] + tops, plausible) {
          OrderlyLoad(tops, NewTop(di, r.usesToc), plausible);
        }
      case Unload(h, plausible) =>
        ghost var k;
        ok, k := r.NotifyDelete(h, plausible);
        if ok {
          WithoutIs(tops, k, h);
          if Exact(tops, r.hard, active) && OrderlyStep(tops, events[0], r.hard, r.usesToc) {
            OrderlyUnload(tops, k, r.hard, active, plausible);
          }
        }
      case Use(nraddr, len, chase) =>
        ok := len > 0;
        if ok {
          ghost var chased;
          ok, chased := r.Translate(nraddr, len, chase);
        }
    }
    if ok {
      ok := Run(r, events[1..]);
    }
  }

  /** Right after startup, the active set is exact. */
  lemma StartsExact(hard: map<Addr, Active>, preloaded: seq<Spec>)
    ensures Exact([], hard, hard) && Exact([TopSpec(None, preloaded)], hard, hard)
  {
  }

  /** Whatever has happened, the translator and the cache agree. */
  lemma CacheAgrees(r: Redirector, a: Addr)
    requires r.Valid() && a in r.cache
    ensures r.cache[a].target == if a in r.active then r.active[a].to else a
    ensures r.cache[a].kind == Normal <==> r.cache[a].target == a
    ensures r.cache[a].kind == Wrap <==> r.cache[a].target != a && r.active[a].isWrap
    ensures var es := r.cache[a].extents;
            && |es| > 0 && es[0].base == r.cache[a].target && es[0].len > 0
            && forall i :: 1 <= i < |es| && es[i].len > 0 && es[i].base in r.active ==>
                 r.active[es[i].base].to == es[i].base
  {
    assert UpToDate(r.active, a, r.cache[a]);
  }

  // ----- a run with a conflict

  const library := DebugInfo(1, "x", [Symbol(100, "f", true, 0, None, false)])
  const first := DebugInfo(2, "x", [Symbol(200, "g", true, 0, Some(Request("x", "f", false)), false)])
  const second := DebugInfo(3, "x", [Symbol(300, "g", true, 0, Some(Request("x", "f", false)), false)])
  const fSpec := Spec("x", "f", 200, false, false)
  const gSpec := Spec("x", "f", 300, false, false)

  lemma LettersMatch()
    ensures StringMatches("x", "x") && StringMatches("f", "f")
  {
    MatchAllIsMembership(CharRules(), "x", "x");
    MatchAllIsMembership(CharRules(), "f", "f");
  }

  lemma DerivedPair(tops: seq<TopSpec>, i: nat, j: nat, sp: Spec)
    requires i < |tops| && j < |tops| && sp in tops[i].specs && tops[j].seginfo == Some(library) && sp.sopatt == "x"
    requires sp.fnpatt == "f"
    ensures Derives(tops, Binding(100, Active(sp.to, ParentOf(tops[i]), Of(1), sp.isWrap)))
  {
    LettersMatch();
    var sym := library.syms[0];
    assert Matches(sp, library, sym);
    var b := Bind(sp, ParentOf(tops[i]), sym, Of(1));
    assert FromPair(b, tops[i].specs, ParentOf(tops[i]), library, Of(1));
    assert DerivesFrom(tops, i, j, b);
  }

  /** Two objects redirect the same function, and the first one wins. When the first one is unloaded, the function is
      not redirected at all, though the second object is still there: the active set is no longer the full cross
      product. */
  lemma ShadowedNotRevived(okFrom: set<Addr>, plausible: set<Addr>)
    requires 100 in okFrom
    ensures var l, f, g := NewTop(library, false), TopSpec(Some(first), [fSpec]), TopSpec(Some(second), [gSpec]);
            var t1 := AddAll(Table(map[], map[]), LoadBindings([], l), okFrom);
            var t2 := AddAll(t1, LoadBindings([l], f), okFrom);
            var t3 := AddAll(t2, LoadBindings([f, l], g), okFrom);
            var t4 := Sweep(t3, 2, plausible);
            && f == NewTop(first, false) && g == NewTop(second, false)
            && 100 !in t4.active && Derives([g, l], Binding(100, Active(300, Of(3), Of(1), false)))
            && !Exact([g, l], map[], t4.active)
  {
    hide LoadBindings, AddAll, Derives, FirstFor;
    var l, f, g := NewTop(library, false), TopSpec(Some(first), [fSpec]), TopSpec(Some(second), [gSpec]);
    var bs1, bs2, bs3 := LoadBindings([], l), LoadBindings([l], f), LoadBindings([f, l], g);
    var t0 := Table(map[], map[]);
    var t1 := AddAll(t0, bs1, okFrom);
    var t2 := AddAll(t1, bs2, okFrom);
    FirstWins(t0, bs1, okFrom, 100);
    FirstIsOne(bs1, 100);
    FirstWins(t1, bs2, okFrom, 100);
    FirstIsOne(bs2, 100);
    FirstWins(t2, bs3, okFrom, 100);
    var b := Binding(100, Active(200, Of(2), Of(1), false));
    DerivedPair([f, l], 0, 1, fSpec);
    DerivedPair([g, l], 0, 1, gSpec);
    assert [f] + [l] == [f, l] && [l] + [] == [l];
    forall c: Binding
      ensures Derives([l], c) ==> false
      ensures c in bs1 ==> Derives([l], c)
      ensures c in bs2 <==> Derives([f, l], c)
      ensures Derives([f, l], c) ==> c.act.specParent == Of(2) && c.act.symParent.Of?
    {
      LoadComplete([], l, c);
      LoadComplete([l], f, c);
      DerivedParents([f, l], c);
      OnlySupplier(l, f, c);
    }
    var c := Binding(100, Active(300, Of(3), Of(1), false));
    assert c.from !in Sweep(AddAll(t2, bs3, okFrom), 2, plausible).active;
  }

  lemma OnlySupplier(l: TopSpec, f: TopSpec, c: Binding)
    requires l.specs == []
    ensures !Derives([l], c)
    ensures Derives([f, l], c) ==> c.act.specParent == ParentOf(f)
  {
    hide Matches;
    if Derives([f, l], c) {
      var i, j :| 0 <= i < 2 && 0 <= j < 2 && DerivesFrom([f, l], i, j, c);
      assert i == 0;
    }
  }

  const preloadedSpec := Spec("x", "f", 500, false, false)

  /** A preloaded spec binds a function of an object. When the object is unloaded while both ends still look plausible,
      the binding stays, and its pointer to the object's entry dangles. */
  lemma DanglingParent(okFrom: set<Addr>, plausible: set<Addr>)
    requires 100 in okFrom && 100 in plausible && 500 in plausible
    ensures var p, l := TopSpec(None, [preloadedSpec]), NewTop(library, false);
            var t1 := AddAll(Table(map[], map[]), LoadBindings([p], l), okFrom);
            var t2 := Sweep(t1, 1, plausible);
            && 100 in t2.active && t2.active[100] == Active(500, Preloaded, Of(1), false)
            && !ParentsLive([p], map[], t2.active)
  {
    hide LoadBindings, AddAll, Derives, FirstFor, ParentsLive, Apart;
    var p, l := TopSpec(None, [preloadedSpec]), NewTop(library, false);
    var bs, t0 := LoadBindings([p], l), Table(map[], map[]);
    var t1 := AddAll(t0, bs, okFrom);
    var b := Binding(100, Active(500, Preloaded, Of(1), false));
    DerivedPair([l, p], 1, 0, preloadedSpec);
    assert [l] + [p] == [l, p];
    forall c: Binding
      ensures Derives([p], c) ==> false
      ensures c in bs <==> Derives([l, p], c)
      ensures Derives([l, p], c) ==> c == b
    {
      LoadComplete([p], l, c);
      OnlyPair(p, l, c);
    }
    FirstWins(t0, bs, okFrom, 100);
    FirstIsOne(bs, 100);
    NothingLive([p]);
    LoadParents([p], l, map[], t0, okFrom);
    TwoApart(l, p);
    assert [l, p][..0] + [l, p][1..] == [p];
    UnloadParents([l, p], 0, map[], t1, plausible);
  }

  lemma NothingLive(tops: seq<TopSpec>)
    ensures ParentsLive(tops, map[], map[])
  {
  }

  lemma TwoApart(l: TopSpec, p: TopSpec)
    requires ParentOf(l) != ParentOf(p)
    ensures Apart([l, p])
  {
  }

  lemma OnlyPair(p: TopSpec, l: TopSpec, c: Binding)
    requires p == TopSpec(None, [preloadedSpec]) && l == NewTop(library, false)
    ensures !Derives([p], c)
    ensures Derives([l, p], c) ==> c == Binding(100, Active(500, Preloaded, Of(1), false))
  {
    hide StringMatches;
    HarvestIs(library.syms, false, preloadedSpec);
    if Derives([l, p], c) {
      var i, j :| 0 <= i < 2 && 0 <= j < 2 && DerivesFrom([l, p], i, j, c);
      assert j == 0;
      assert Harvest(library.syms, false) == [] by { assert library.syms[..0] == []; }
    }
  }
}
