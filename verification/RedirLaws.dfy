/** What the tables of the redirector mean, from the symbols of the objects to what is looked up (m_redir.c). */
module RedirLaws {
  import opened SeqMatch
  import opened Options
  import opened RedirState
  import opened RedirCross
  import opened Redir

  // ----- what is bound, and to what

  /** A text symbol of the second entry's object, named by the patterns of a spec of the first entry, is redirected to
      the spec's own address, as a wrapper if the spec says so; and the binding knows both entries. */
  ghost predicate Redirects(spec: TopSpec, obj: TopSpec, sp: Spec, sym: Symbol, b: Binding) {
    && sp in spec.specs && obj.seginfo.Some? && sym in obj.seginfo.value.syms && sym.isText && !sym.glink
    && StringMatches(sp.sopatt, obj.seginfo.value.soname) && StringMatches(sp.fnpatt, sym.name)
    && b.from == sym.addr && b.act.to == sp.to && b.act.isWrap == sp.isWrap
    && b.act.specParent == (if spec.seginfo.None? then Preloaded else Of(spec.seginfo.value.handle))
    && b.act.symParent == Of(obj.seginfo.value.handle)
  }

  lemma RedirectsIs(tops: seq<TopSpec>, i: nat, j: nat, b: Binding)
    requires i < |tops| && j < |tops|
    ensures DerivesFrom(tops, i, j, b) <==> exists sp, sym :: Redirects(tops[i], tops[j], sp, sym, b)
  {
    hide StringMatches;
    if DerivesFrom(tops, i, j, b) {
      var sp, sym :| sp in tops[i].specs && sym in tops[j].seginfo.value.syms &&
                     Matches(sp, tops[j].seginfo.value, sym) &&
                     b == Bind(sp, ParentOf(tops[i]), sym, ParentOf(tops[j]));
      assert Redirects(tops[i], tops[j], sp, sym, b);
    }
    if sp, sym :| Redirects(tops[i], tops[j], sp, sym, b) {
      assert Matches(sp, tops[j].seginfo.value, sym);
      assert b == Bind(sp, ParentOf(tops[i]), sym, ParentOf(tops[j]));
    }
  }

  /** The bindings of the full cross product are those that some entry makes for some object. */
  lemma DerivesMeans(tops: seq<TopSpec>, b: Binding)
    ensures Derives(tops, b) <==>
            exists i, j, sp, sym :: 0 <= i < |tops| && 0 <= j < |tops| && Redirects(tops[i], tops[j], sp, sym, b)
  {
    hide Redirects, DerivesFrom;
    forall i, j | 0 <= i < |tops| && 0 <= j < |tops|
      ensures DerivesFrom(tops, i, j, b) <==> exists sp, sym :: Redirects(tops[i], tops[j], sp, sym, b)
    {
      RedirectsIs(tops, i, j, b);
    }
    if Derives(tops, b) {
      var i, j :| 0 <= i < |tops| && 0 <= j < |tops| && DerivesFrom(tops, i, j, b);
      var sp, sym :| Redirects(tops[i], tops[j], sp, sym, b);
    }
  }

  /** The symbol asks for a redirection, and can be redirected to. */
  predicate Asks(sym: Symbol, q: Request, usesToc: bool) {
    sym.isText && sym.request == Some(q) && (usesToc ==> sym.toc != 0)
  }

  /** The symbol of the object is one that the request names. */
  ghost predicate Named(q: Request, di: DebugInfo, sym: Symbol) {
    && sym in di.syms && sym.isText && !sym.glink
    && StringMatches(q.sopatt, di.soname) && StringMatches(q.fnpatt, sym.name)
  }

  /** A request of a new object for a symbol, of that object or another, that is not bound yet. */
  ghost predicate FreshRequest(r: Redirector, di: DebugInfo, sup: Symbol, q: Request, j: nat, sym: Symbol)
    reads r
  {
    && sup in di.syms && Asks(sup, q, r.usesToc)
    && (if j == 0 then Named(q, di, sym)
        else j <= |r.topSpecs| && r.topSpecs[j - 1].seginfo.Some? && Named(q, r.topSpecs[j - 1].seginfo.value, sym))
    && sym.addr !in r.active
  }

  lemma RequestDerives(r: Redirector, di: DebugInfo, sup: Symbol, q: Request, j: nat, sym: Symbol) returns (b: Binding)
    requires FreshRequest(r, di, sup, q, j, sym)
    ensures Derives([TopSpec(Some(di), Harvest(di.syms, r.usesToc))] + r.topSpecs, b)
    ensures b.from == sym.addr && b.act.to == sup.addr && b.act.isWrap == q.isWrap && b.act.specParent == Of(di.handle)
  {
    hide StringMatches, Derives;
    var tops := [TopSpec(Some(di), Harvest(di.syms, r.usesToc))] + r.topSpecs;
    var sp := Spec(q.sopatt, q.fnpatt, sup.addr, q.isWrap, false);
    HarvestIs(di.syms, r.usesToc, sp);
    assert sp in tops[0].specs;
    b := Binding(sym.addr, Active(sup.addr, Of(di.handle), Of(tops[j].seginfo.value.handle), q.isWrap));
    assert Redirects(tops[0], tops[j], sp, sym, b);
    DerivesMeans(tops, b);
  }

  /** From symbol to use: once the object is loaded, without a conflict, what its symbol asks for is what happens. A
      lookup of the symbol that is named gives the address of the one that asks, as a wrapper exactly if that was asked
      for, and code translated for the former is made from the latter. */
  method LoadThenUse(r: Redirector, di: DebugInfo, plausible: set<Addr>, ghost sup: Symbol, ghost q: Request,
                     ghost j: nat, sym: Symbol, len: nat, chase: seq<Extent>)
    returns (loaded: bool, found: bool, there: Addr, isWrap: bool)
    requires r.Valid() && FreshRequest(r, di, sup, q, j, sym) && sym.addr in plausible && len > 0
    requires ConflictFree([TopSpec(Some(di), Harvest(di.syms, r.usesToc))] + r.topSpecs, r.hard)
    modifies r`topSpecs, r`active, r`cache
    ensures loaded && sup.addr != 0 ==> found && there == sup.addr && isWrap == q.isWrap
    ensures loaded && sup.addr != 0 && (forall a :: a in r.active ==> r.active[a].to != 0) ==>
      sym.addr in r.cache && r.cache[sym.addr].target == sup.addr
      && (sup.addr != sym.addr ==> r.cache[sym.addr].kind == if q.isWrap then Wrap else Replace)
  {
    hide Derives, LoadBindings, ConflictFree, ParentsLive, FineOnOld, FineOnNew, Fine, Exact, StringMatches, AddAll;
    hide FreshRequest;
    ghost var b := RequestDerives(r, di, sup, q, j, sym);
    ghost var tops, t0, new_ := r.topSpecs, r.Tables(), TopSpec(Some(di), Harvest(di.syms, r.usesToc));
    RequestUnbound(r, di, sup, q, j, sym);
    found, there, isWrap := false, 0, false;
    loaded := r.NotifyNew(di, plausible);
    if !loaded {
      return;
    }
    NotDerivedYet(tops, di, b);
    BoundAsAsked(tops, new_, r.hard, t0, plausible + r.exempt, b);
    assert r.Tables() == AddAll(t0, LoadBindings(tops, new_), plausible + r.exempt);
    found, there, isWrap := r.DoLookup(sym.addr);
    ghost var chased;
    var ok;
    ok, chased := r.Translate(sym.addr, len, chase);
    if ok { KindNow(r, sym.addr); }
  }

  lemma KindNow(r: Redirector, a: Addr)
    requires r.Valid() && a in r.cache && a in r.active
    ensures r.cache[a].target == r.active[a].to
    ensures r.active[a].to != a ==> r.cache[a].kind == if r.active[a].isWrap then Wrap else Replace
  {
    assert UpToDate(r.active, a, r.cache[a]);
  }

  /** Before the object is there, none of its requests has been served. */
  lemma NotDerivedYet(tops: seq<TopSpec>, di: DebugInfo, b: Binding)
    requires forall i :: 0 <= i < |tops| ==> ParentOf(tops[i]) != Of(di.handle)
    requires b.act.specParent == Of(di.handle)
    ensures !Derives(tops, b)
  {
    hide DerivesFrom;
    forall i, j | 0 <= i < |tops| && 0 <= j < |tops|
      ensures DerivesFrom(tops, i, j, b) ==> b.act.specParent == ParentOf(tops[i])
    {
      if DerivesFrom(tops, i, j, b) { ParentsOf(tops, i, j, b); }
    }
  }

  lemma RequestUnbound(r: Redirector, di: DebugInfo, sup: Symbol, q: Request, j: nat, sym: Symbol)
    requires FreshRequest(r, di, sup, q, j, sym)
    ensures sym.addr !in r.active
  {
  }

  /** If nothing is bound in two ways, a binding that a load derives for an address not bound before is what it gets. */
  lemma BoundAsAsked(tops: seq<TopSpec>, new_: TopSpec, hard: map<Addr, Active>, t: Table, okFrom: set<Addr>,
                     b: Binding)
    requires new_.seginfo.Some? && ConflictFree([new_] + tops, hard) && Derives([new_] + tops, b)
    requires !Derives(tops, b)
    requires b.from !in t.active && b.from in okFrom
    ensures var m := AddAll(t, LoadBindings(tops, new_), okFrom).active; b.from in m && m[b.from] == b.act
  {
    hide Derives, LoadBindings;
    var bs := LoadBindings(tops, new_);
    LoadComplete(tops, new_, b);
    FirstWins(t, bs, okFrom, b.from);
    FirstIsOne(bs, b.from);
    var i :| 0 <= i < |bs| && bs[i] == b;
    var c := Binding(b.from, FirstFor(bs, b.from).value);
    LoadComplete(tops, new_, c);
  }

  // ----- which of several bindings is taken

  lemma {:induction false} FirstForBoth(a: seq<Binding>, b: seq<Binding>, x: Addr)
    ensures FirstFor(a + b, x) == if FirstFor(a, x).Some? then FirstFor(a, x) else FirstFor(b, x)
    decreases |b|
  {
    if b == [] {
      assert a + b == a;
    } else {
      FirstForBoth(a, b[..|b| - 1], x);
      assert (a + b)[..|a + b| - 1] == a + b[..|b| - 1];
    }
  }

  /** Of the symbols of an object at one address, and of the specs that name such a symbol, the first ones are taken;
      the symbols come first. */
  lemma FirstOfProduct(specs: seq<Spec>, ps: Parent, di: DebugInfo, py: Parent, i: nat, k: nat)
    requires i < |di.syms| && k < |specs| && Matches(specs[k], di, di.syms[i])
    requires forall m :: 0 <= m < k ==> !Matches(specs[m], di, di.syms[i])
    requires forall n, m :: 0 <= n < i && 0 <= m < |specs| && di.syms[n].addr == di.syms[i].addr ==>
      !Matches(specs[m], di, di.syms[n])
    ensures FirstFor(Cross(specs, ps, di, di.syms, py), di.syms[i].addr)
            == Some(Active(specs[k].to, ps, py, specs[k].isWrap))
  {
    hide Matches;
    var syms, a := di.syms, di.syms[i].addr;
    CrossMisses(specs, ps, di, syms[..i], py, a);
    SymFirst(specs, ps, di, syms[i], py, k);
    CrossOneMore(specs, ps, di, syms, i, py);
    FirstForBoth(Cross(specs, ps, di, syms[..i], py), SymBindings(specs, ps, di, syms[i], py), a);
    CrossJoin(specs, ps, di, syms[..i + 1], syms[i + 1..], py);
    assert syms == syms[..i + 1] + syms[i + 1..];
    FirstForBoth(Cross(specs, ps, di, syms[..i + 1], py), Cross(specs, ps, di, syms[i + 1..], py), a);
  }

  lemma {:induction false} CrossJoin(specs: seq<Spec>, ps: Parent, di: DebugInfo, a: seq<Symbol>, b: seq<Symbol>,
                                     py: Parent)
    ensures Cross(specs, ps, di, a + b, py) == Cross(specs, ps, di, a, py) + Cross(specs, ps, di, b, py)
    decreases |b|
  {
    hide SymBindings;
    if b == [] {
      assert a + b == a;
    } else {
      CrossJoin(specs, ps, di, a, b[..|b| - 1], py);
      assert (a + b)[..|a + b| - 1] == a + b[..|b| - 1];
    }
  }

  lemma {:induction false} CrossMisses(specs: seq<Spec>, ps: Parent, di: DebugInfo, syms: seq<Symbol>, py: Parent,
                                       a: Addr)
    requires forall n, m :: 0 <= n < |syms| && 0 <= m < |specs| && syms[n].addr == a ==> !Matches(specs[m], di, syms[n])
    ensures FirstFor(Cross(specs, ps, di, syms, py), a) == None
  {
    hide Matches, FirstFor, Cross;
    FirstIsOne(Cross(specs, ps, di, syms, py), a);
    forall b | b in Cross(specs, ps, di, syms, py)
      ensures b.from != a
    {
      CrossIs(specs, ps, di, syms, py, b);
    }
  }

  lemma {:induction false} SymFirst(specs: seq<Spec>, ps: Parent, di: DebugInfo, sym: Symbol, py: Parent, k: nat)
    requires k < |specs| && Matches(specs[k], di, sym) && forall m :: 0 <= m < k ==> !Matches(specs[m], di, sym)
    ensures FirstFor(SymBindings(specs, ps, di, sym, py), sym.addr) ==
        Some(Active(specs[k].to, ps, py, specs[k].isWrap))
    decreases |specs|
  {
    hide Matches;
    var init, last := specs[..|specs| - 1], specs[|specs| - 1];
    FirstForBoth(SymBindings(init, ps, di, sym, py), if Matches(last, di, sym) then [Bind(last, ps, sym, py)] else [],
                 sym.addr);
    if k < |init| {
      SymFirst(init, ps, di, sym, py, k);
    } else {
      NoSymBindings(init, ps, di, sym, py);
    }
  }

  /** When an object arrives: first its requests for symbols at hand, object by object from the front; then those at
      hand for its symbols, entry by entry from the front; and last its own for its own. */
  lemma Priority(tops: seq<TopSpec>, new_: TopSpec, a: Addr)
    requires new_.seginfo.Some?
    ensures var di, p := new_.seginfo.value, ParentOf(new_);
            var f1, f2 := FirstFor(Case1(tops, new_.specs, p), a), FirstFor(Case2(tops, di, p), a);
            FirstFor(LoadBindings(tops, new_), a) ==
              if f1.Some? then f1 else if f2.Some? then f2 else FirstFor(Cross(new_.specs, p, di, di.syms, p), a)
  {
    hide Case1, Case2, Cross, FirstFor;
    var di, p := new_.seginfo.value, ParentOf(new_);
    FirstForBoth(Case1(tops, new_.specs, p), Case2(tops, di, p), a);
    FirstForBoth(Case1(tops, new_.specs, p) + Case2(tops, di, p), Cross(new_.specs, p, di, di.syms, p), a);
  }

  /** Of the entries at hand, the first one with a request for a symbol of the object at `a` is taken. */
  lemma {:induction false} FrontEntryFirst(tops: seq<TopSpec>, di: DebugInfo, py: Parent, i: nat, a: Addr)
    requires i < |tops| && FirstFor(Cross(tops[i].specs, ParentOf(tops[i]), di, di.syms, py), a).Some?
    requires forall n :: 0 <= n < i ==> FirstFor(Cross(tops[n].specs, ParentOf(tops[n]), di, di.syms, py), a) == None
    ensures FirstFor(Case2(tops, di, py), a) == FirstFor(Cross(tops[i].specs, ParentOf(tops[i]), di, di.syms, py), a)
    decreases |tops|
  {
    hide Cross, FirstFor;
    var init, last := tops[..|tops| - 1], tops[|tops| - 1];
    FirstForBoth(Case2(init, di, py), Cross(last.specs, ParentOf(last), di, di.syms, py), a);
    if i < |init| {
      FrontEntryFirst(init, di, py, i, a);
    } else {
      NoEntry(init, di, py, a);
    }
  }

  lemma {:induction false} NoEntry(tops: seq<TopSpec>, di: DebugInfo, py: Parent, a: Addr)
    requires forall n :: 0 <= n < |tops| ==>
      FirstFor(Cross(tops[n].specs, ParentOf(tops[n]), di, di.syms, py), a) == None
    ensures FirstFor(Case2(tops, di, py), a) == None
  {
    hide Cross;
    if tops != [] {
      var init, last := tops[..|tops| - 1], tops[|tops| - 1];
      NoEntry(init, di, py, a);
      FirstForBoth(Case2(init, di, py), Cross(last.specs, ParentOf(last), di, di.syms, py), a);
    }
  }

  /** Of two symbols of one object that ask, the later one comes first in the list of specs. */
  lemma LaterFirst(syms: seq<Symbol>, usesToc: bool, i: nat, j: nat, q: Request, p: Request) returns (k: nat, l: nat)
    requires i < j < |syms| && Asks(syms[i], q, usesToc) && Asks(syms[j], p, usesToc)
    ensures k < l < |Harvest(syms, usesToc)|
    ensures Harvest(syms, usesToc)[k] == Spec(p.sopatt, p.fnpatt, syms[j].addr, p.isWrap, false)
    ensures Harvest(syms, usesToc)[l] == Spec(q.sopatt, q.fnpatt, syms[i].addr, q.isWrap, false)
  {
    k := PlaceOf(syms, usesToc, j, p);
    l := PlaceOf(syms, usesToc, i, q);
    PlacesFall(syms, usesToc, i, j);
  }

  /** How many of the symbols from `i` on ask. */
  ghost function Askers(syms: seq<Symbol>, usesToc: bool, i: nat): nat
    requires i <= |syms|
    decreases |syms| - i
  {
    if i == |syms| then 0
    else (if syms[i].isText && syms[i].request.Some? && (usesToc ==> syms[i].toc != 0) then 1 else 0)
         + Askers(syms, usesToc, i + 1)
  }

  lemma {:induction false} PlaceOf(syms: seq<Symbol>, usesToc: bool, i: nat, q: Request) returns (k: nat)
    requires i < |syms| && Asks(syms[i], q, usesToc)
    ensures k == Askers(syms, usesToc, i + 1) && k < |Harvest(syms, usesToc)|
    ensures Harvest(syms, usesToc)[k] == Spec(q.sopatt, q.fnpatt, syms[i].addr, q.isWrap, false)
    decreases |syms|
  {
    var init, last := syms[..|syms| - 1], syms[|syms| - 1];
    AskersLast(syms, usesToc, i + 1);
    if i == |syms| - 1 {
      k := 0;
    } else {
      k := PlaceOf(init, usesToc, i, q);
      if Supplies(last, usesToc) { k := k + 1; }
    }
  }

  lemma {:induction false} AskersLast(syms: seq<Symbol>, usesToc: bool, i: nat)
    requires i <= |syms| && syms != []
    ensures i < |syms| ==>
      Askers(syms, usesToc, i) ==
        Askers(syms[..|syms| - 1], usesToc, i) + (if Supplies(syms[|syms| - 1], usesToc) then 1 else 0)
    decreases |syms| - i
  {
    if i + 1 < |syms| { AskersLast(syms, usesToc, i + 1); }
  }

  lemma {:induction false} PlacesFall(syms: seq<Symbol>, usesToc: bool, i: nat, j: nat)
    requires i < j < |syms| && syms[j].isText && syms[j].request.Some? && (usesToc ==> syms[j].toc != 0)
    ensures Askers(syms, usesToc, j + 1) < Askers(syms, usesToc, i + 1)
    decreases j - i
  {
    if i + 1 < j { PlacesFall(syms, usesToc, i + 1, j); }
  }

  // ----- what happens to translations, and to bindings when an object goes

  /** No byte of the code that a translation was made from is at `a`. */
  predicate Clear(t: Translation, a: Addr) {
    forall i :: 0 <= i < |t.extents| ==> !(t.extents[i].base <= a < t.extents[i].base + t.extents[i].len)
  }

  /** After a load, exactly those translations are gone that have code at an end of a binding that is new. */
  lemma {:induction false} LoadKeeps(t: Table, bs: seq<Binding>, okFrom: set<Addr>, x: Addr)
    ensures var m := AddAll(t, bs, okFrom);
            && (x in m.cache <==> x in t.cache && forall a :: a in m.active && a !in t.active ==>
                                                   Clear(t.cache[x], a) && Clear(t.cache[x], m.active[a].to))
            && (x in m.cache ==> m.cache[x] == t.cache[x])
  {
    if bs != [] {
      var init, b := bs[..|bs| - 1], bs[|bs| - 1];
      LoadKeeps(t, init, okFrom, x);
      var m := AddAll(t, init, okFrom);
      FirstWins(t, init, okFrom, b.from);
      forall a | a in t.active
        ensures a in m.active
      {
        FirstWins(t, init, okFrom, a);
      }
    }
  }

  /** When object `h` goes, a binding goes with it if both its ends have entries of objects and one is the object's; or
      if it is not hardwired and one of its feet is in no plausible place. All others stay as they are. And exactly
      those translations are gone that have code at an end of a binding that goes. */
  lemma SweepIs(t: Table, h: nat, plausible: set<Addr>, a: Addr, x: Addr)
    ensures var m := Sweep(t, h, plausible);
            && (a in t.active && a !in m.active <==>
                  && a in t.active && t.active[a].specParent != NoParent && t.active[a].symParent != NoParent
                  && (|| a !in plausible || t.active[a].to !in plausible
                      || (&& t.active[a].specParent.Of? && t.active[a].symParent.Of?
                          && (t.active[a].specParent.handle == h || t.active[a].symParent.handle == h))))
            && (a in m.active ==> a in t.active && m.active[a] == t.active[a])
            && (x in m.cache <==> x in t.cache && forall c :: c in t.active && c !in m.active ==>
                                                   Clear(t.cache[x], c) && Clear(t.cache[x], t.active[c].to))
            && (x in m.cache ==> m.cache[x] == t.cache[x])
  {
  }

  // ----- what can be loaded

  /** Matching a spec against an object comes to its end if the names that are compared are shorter than 1,000,000
      characters, and, should the spec be mandatory and for this object, if it names one of its text symbols. */
  ghost predicate Comparable(sp: Spec, di: DebugInfo) {
    && |sp.sopatt| < 1_000_000 && |di.soname| < 1_000_000
    && (StringMatches(sp.sopatt, di.soname) ==>
          && (forall sym :: sym in di.syms && sym.isText && !sym.glink ==>
                |sp.fnpatt| < 1_000_000 && |sym.name| < 1_000_000)
          && (sp.mandatory ==>
                exists sym :: sym in di.syms && sym.isText && !sym.glink && StringMatches(sp.fnpatt, sym.name)))
  }

  lemma FineIs(specs: seq<Spec>, di: DebugInfo)
    ensures Fine(specs, di) <==> forall sp :: sp in specs ==> Comparable(sp, di)
  {
    hide StringMatches;
    forall sp
      ensures !TooLong(sp, di) && !Misses(sp, di) <==> Comparable(sp, di)
    {
      if sp.mandatory && StringMatches(sp.sopatt, di.soname) && Comparable(sp, di) {
        var sym :| sym in di.syms && sym.isText && !sym.glink && StringMatches(sp.fnpatt, sym.name);
        var i :| 0 <= i < |di.syms| && di.syms[i] == sym;
        assert Matches(sp, di, di.syms[i]);
      }
      forall sym | sym in di.syms && !TooLong(sp, di) && StringMatches(sp.sopatt, di.soname)
        ensures !LongAt(sp, sym)
      {
        var i :| 0 <= i < |di.syms| && di.syms[i] == sym;
      }
    }
  }

  /** An object can be loaded exactly if it is not there yet, its requests come from plausible places, and every spec at
      hand or new can be compared with every object at hand or new, except old with old. */
  lemma LoadableMeans(tops: seq<TopSpec>, di: DebugInfo, usesToc: bool, plausible: set<Addr>)
    ensures Loadable(tops, di, usesToc, plausible) <==>
              && (forall ts :: ts in tops && ts.seginfo.Some? ==> ts.seginfo.value.handle != di.handle)
              && (forall sym :: sym in di.syms && sym.isText && sym.request.Some? && (usesToc ==> sym.toc != 0) ==>
                    sym.addr in plausible)
              && (forall sp :: sp in Harvest(di.syms, usesToc) ==> Comparable(sp, di))
              && (forall sp, ts :: sp in Harvest(di.syms, usesToc) && ts in tops && ts.seginfo.Some? ==>
                    Comparable(sp, ts.seginfo.value))
              && (forall ts, sp :: ts in tops && sp in ts.specs ==> Comparable(sp, di))
  {
    hide Comparable, Fine, Harvest;
    FineIs(Harvest(di.syms, usesToc), di);
    forall i | 0 <= i < |tops|
      ensures Fine(tops[i].specs, di) <==> forall sp :: sp in tops[i].specs ==> Comparable(sp, di)
      ensures tops[i].seginfo.Some? ==> (Fine(Harvest(di.syms, usesToc), tops[i].seginfo.value) <==>
                forall sp :: sp in Harvest(di.syms, usesToc) ==> Comparable(sp, tops[i].seginfo.value))
    {
      FineIs(tops[i].specs, di);
      if tops[i].seginfo.Some? { FineIs(Harvest(di.syms, usesToc), tops[i].seginfo.value); }
    }
    PlausibleSuppliers(di.syms, usesToc, plausible);
  }

  lemma PlausibleSuppliers(syms: seq<Symbol>, usesToc: bool, plausible: set<Addr>)
    ensures (forall sp :: sp in Harvest(syms, usesToc) ==> sp.to in plausible) <==>
            forall sym :: sym in syms && sym.isText && sym.request.Some? && (usesToc ==> sym.toc != 0) ==>
              sym.addr in plausible
  {
    hide Harvest;
    forall sp
      ensures sp in Harvest(syms, usesToc) ==>
                exists sym :: sym in syms && sym.isText && sym.request.Some? && (usesToc ==> sym.toc != 0) &&
                              sp.to == sym.addr
    {
      HarvestIs(syms, usesToc, sp);
    }
    forall sym | sym in syms && sym.isText && sym.request.Some? && (usesToc ==> sym.toc != 0)
      ensures exists sp :: sp in Harvest(syms, usesToc) && sp.to == sym.addr
    {
      var q := sym.request.value;
      HarvestIs(syms, usesToc, Spec(q.sopatt, q.fnpatt, sym.addr, q.isWrap, false));
    }
  }
}
