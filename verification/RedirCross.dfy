/** The cross product of specifications and symbols, and what loading and unloading an object do to it (m_redir.c). */
module RedirCross {
  import opened SeqMatch
  import opened Options
  import opened RedirState

  /** The spec asks for the symbol to be redirected. */
  ghost predicate Matches(sp: Spec, di: DebugInfo, sym: Symbol) {
    sym.isText && !sym.glink && StringMatches(sp.sopatt, di.soname) && StringMatches(sp.fnpatt, sym.name)
  }

  function Bind(sp: Spec, ps: Parent, sym: Symbol, py: Parent): Binding {
    Binding(sym.addr, Active(sp.to, ps, py, sp.isWrap))
  }

  /** `b` comes from one of the specs and one of the object's symbols. */
  ghost predicate FromPair(b: Binding, specs: seq<Spec>, ps: Parent, di: DebugInfo, py: Parent) {
    exists sp, sym :: sp in specs && sym in di.syms && Matches(sp, di, sym) && b == Bind(sp, ps, sym, py)
  }

  /** The bindings of one symbol, in the order of the specs. */
  ghost function SymBindings(specs: seq<Spec>, ps: Parent, di: DebugInfo, sym: Symbol, py: Parent): seq<Binding> {
    if specs == [] then []
    else
      var sp := specs[|specs| - 1];
      SymBindings(specs[..|specs| - 1], ps, di, sym, py) + if Matches(sp, di, sym) then [Bind(sp, ps, sym, py)] else []
  }

  /** The bindings of an object's symbols from `syms`, in the order in which they are found. */
  ghost function Cross(specs: seq<Spec>, ps: Parent, di: DebugInfo, syms: seq<Symbol>, py: Parent): seq<Binding> {
    if syms == [] then []
    else Cross(specs, ps, di, syms[..|syms| - 1], py) + SymBindings(specs, ps, di, syms[|syms| - 1], py)
  }

  lemma {:induction false} SymBindingsAre(specs: seq<Spec>, ps: Parent, di: DebugInfo, sym: Symbol, py: Parent,
                                          b: Binding)
    ensures b in SymBindings(specs, ps, di, sym, py) <==>
      exists sp :: sp in specs && Matches(sp, di, sym) && b == Bind(sp, ps, sym, py)
  {
    if specs != [] {
      SymBindingsAre(specs[..|specs| - 1], ps, di, sym, py, b);
      assert specs == specs[..|specs| - 1] + [specs[|specs| - 1]];
    }
  }

  /** The nested loops find exactly the matching pairs. */
  lemma {:induction false} CrossIs(specs: seq<Spec>, ps: Parent, di: DebugInfo, syms: seq<Symbol>, py: Parent,
                                   b: Binding)
    ensures b in Cross(specs, ps, di, syms, py) <==>
      exists sp, sym :: sp in specs && sym in syms && Matches(sp, di, sym) && b == Bind(sp, ps, sym, py)
  {
    if syms != [] {
      hide StringMatches;
      var init, sym := syms[..|syms| - 1], syms[|syms| - 1];
      CrossIs(specs, ps, di, init, py, b);
      SymBindingsAre(specs, ps, di, sym, py, b);
      assert syms == init + [sym];
    }
  }

  // ----- the reference: all specs against all symbols

  /** `b` comes from some spec and some symbol of the objects at hand. */
  ghost predicate Derives(tops: seq<TopSpec>, b: Binding) {
    exists i, j :: 0 <= i < |tops| && 0 <= j < |tops| && DerivesFrom(tops, i, j, b)
  }

  ghost predicate DerivesFrom(tops: seq<TopSpec>, i: nat, j: nat, b: Binding)
    requires i < |tops| && j < |tops|
  {
    tops[j].seginfo.Some? && FromPair(b, tops[i].specs, ParentOf(tops[i]), tops[j].seginfo.value, ParentOf(tops[j]))
  }

  /** The active set is exactly the full cross product, and the hardwired bindings. */
  ghost predicate Exact(tops: seq<TopSpec>, hard: map<Addr, Active>, active: map<Addr, Active>) {
    forall b: Binding ::
      (b.from in active && active[b.from] == b.act) <==> ((b.from in hard && hard[b.from] == b.act) || Derives(tops, b))
  }

  /** No address is bound in two ways. */
  ghost predicate ConflictFree(tops: seq<TopSpec>, hard: map<Addr, Active>) {
    && (forall b, c :: Derives(tops, b) && Derives(tops, c) && b.from == c.from ==> b == c)
    && (forall b :: Derives(tops, b) && b.from in hard ==> hard[b.from] == b.act)
  }

  // ----- loading

  /** The new specs against the objects at hand. */
  ghost function Case1(tops: seq<TopSpec>, specs: seq<Spec>, ps: Parent): seq<Binding> {
    if tops == [] then []
    else
      var ts := tops[|tops| - 1];
      Case1(tops[..|tops| - 1], specs, ps)
      + if ts.seginfo.None? then [] else Cross(specs, ps, ts.seginfo.value, ts.seginfo.value.syms, ParentOf(ts))
  }

  /** The specs at hand against the new object. */
  ghost function Case2(tops: seq<TopSpec>, di: DebugInfo, py: Parent): seq<Binding> {
    if tops == [] then []
    else
      var ts := tops[|tops| - 1];
      Case2(tops[..|tops| - 1], di, py) + Cross(ts.specs, ParentOf(ts), di, di.syms, py)
  }

  /** All that the arrival of an object adds. */
  ghost function LoadBindings(tops: seq<TopSpec>, new_: TopSpec): seq<Binding>
    requires new_.seginfo.Some?
  {
    var di := new_.seginfo.value;
    Case1(tops, new_.specs, ParentOf(new_)) + Case2(tops, di, ParentOf(new_)) +
    Cross(new_.specs, ParentOf(new_), di, di.syms, ParentOf(new_))
  }

  lemma CrossPairs(specs: seq<Spec>, ps: Parent, di: DebugInfo, py: Parent, b: Binding)
    ensures b in Cross(specs, ps, di, di.syms, py) <==> FromPair(b, specs, ps, di, py)
  {
    CrossIs(specs, ps, di, di.syms, py, b);
  }

  lemma {:induction false} Case1Is(tops: seq<TopSpec>, specs: seq<Spec>, ps: Parent, b: Binding)
    ensures b in Case1(tops, specs, ps) <==>
            exists j ::
              0 <= j < |tops| && tops[j].seginfo.Some? &&
              FromPair(b, specs, ps, tops[j].seginfo.value, ParentOf(tops[j]))
  {
    hide Cross, FromPair;
    if tops != [] {
      var init, ts := tops[..|tops| - 1], tops[|tops| - 1];
      Case1Is(init, specs, ps, b);
      if ts.seginfo.Some? { CrossPairs(specs, ps, ts.seginfo.value, ParentOf(ts), b); }
      assert forall j :: 0 <= j < |init| ==> tops[j] == init[j];
    }
  }

  lemma {:induction false} Case2Is(tops: seq<TopSpec>, di: DebugInfo, py: Parent, b: Binding)
    ensures b in Case2(tops, di, py) <==>
            exists i :: 0 <= i < |tops| && FromPair(b, tops[i].specs, ParentOf(tops[i]), di, py)
  {
    hide Cross, FromPair;
    if tops != [] {
      var init, ts := tops[..|tops| - 1], tops[|tops| - 1];
      Case2Is(init, di, py, b);
      CrossPairs(ts.specs, ParentOf(ts), di, py, b);
      assert forall j :: 0 <= j < |init| ==> tops[j] == init[j];
    }
  }

  /** The three cases together are what is new in the full cross product. */
  lemma LoadComplete(tops: seq<TopSpec>, new_: TopSpec, b: Binding)
    requires new_.seginfo.Some?
    ensures Derives([new_] + tops, b) <==> Derives(tops, b) || b in LoadBindings(tops, new_)
  {
    hide Case1, Case2, Cross, FromPair;
    var di, p, all := new_.seginfo.value, ParentOf(new_), [new_] + tops;
    Case1Is(tops, new_.specs, p, b);
    Case2Is(tops, di, p, b);
    CrossPairs(new_.specs, p, di, p, b);
    if Derives(all, b) {
      var i, j :| 0 <= i < |all| && 0 <= j < |all| && DerivesFrom(all, i, j, b);
      if i > 0 && j > 0 {
        assert DerivesFrom(tops, i - 1, j - 1, b);
      } else if i > 0 {
        assert FromPair(b, tops[i - 1].specs, ParentOf(tops[i - 1]), di, p);
      } else if j > 0 {
        assert tops[j - 1].seginfo.Some? &&
               FromPair(b, new_.specs, p, tops[j - 1].seginfo.value, ParentOf(tops[j - 1]));
      }
    }
    if Derives(tops, b) {
      var i, j :| 0 <= i < |tops| && 0 <= j < |tops| && DerivesFrom(tops, i, j, b);
      assert DerivesFrom(all, i + 1, j + 1, b);
    }
    if b in LoadBindings(tops, new_) {
      if b in Case1(tops, new_.specs, p) {
        var j :| && 0 <= j < |tops| && tops[j].seginfo.Some?
                 && FromPair(b, new_.specs, p, tops[j].seginfo.value, ParentOf(tops[j]));
        assert DerivesFrom(all, 0, j + 1, b);
      } else if b in Case2(tops, di, p) {
        var i :| 0 <= i < |tops| && FromPair(b, tops[i].specs, ParentOf(tops[i]), di, p);
        assert DerivesFrom(all, i + 1, 0, b);
      } else {
        assert DerivesFrom(all, 0, 0, b);
      }
    }
  }

  /** Loading an object keeps the active set exact if and only if no address comes to be bound in two ways,
      and no new binding is refused as implausible. */
  lemma LoadExact(tops: seq<TopSpec>, new_: TopSpec, hard: map<Addr, Active>, t: Table, okFrom: set<Addr>)
    requires new_.seginfo.Some? && Exact(tops, hard, t.active)
    ensures var bs := LoadBindings(tops, new_);
            Exact([new_] + tops, hard, AddAll(t, bs, okFrom).active) <==>
              ConflictFree([new_] + tops, hard) && (forall b :: b in bs && b.from !in t.active ==> b.from in okFrom)
  {
    hide LoadBindings, Derives;
    var bs := LoadBindings(tops, new_);
    var all, m := [new_] + tops, AddAll(t, bs, okFrom).active;
    forall b: Binding
      ensures Derives(all, b) <==> Derives(tops, b) || b in bs
    {
      LoadComplete(tops, new_, b);
    }
    if ConflictFree(all, hard) && (forall b :: b in bs && b.from !in t.active ==> b.from in okFrom) {
      forall b: Binding
        ensures (b.from in m && m[b.from] == b.act) <==> ((b.from in hard && hard[b.from] == b.act) || Derives(all, b))
      {
        FirstWins(t, bs, okFrom, b.from);
        FirstIsOne(bs, b.from);
        AddedExactly(tops, all, bs, hard, t.active, m, b, okFrom);
      }
    }
    if Exact(all, hard, m) {
      ExactConflictFree(all, hard, m);
      forall b | b in bs && b.from !in t.active
        ensures b.from in okFrom
      {
        FirstWins(t, bs, okFrom, b.from);
        assert Derives(all, b);
      }
    }
  }

  lemma ExactConflictFree(tops: seq<TopSpec>, hard: map<Addr, Active>, active: map<Addr, Active>)
    requires Exact(tops, hard, active)
    ensures ConflictFree(tops, hard)
  {
    hide Derives;
    forall b | Derives(tops, b) && b.from in hard
      ensures hard[b.from] == b.act
    {
      var c := Binding(b.from, hard[b.from]);
      assert active[c.from] == c.act;
    }
  }

  lemma AddedExactly(tops: seq<TopSpec>, all: seq<TopSpec>, bs: seq<Binding>, hard: map<Addr, Active>,
                     active: map<Addr, Active>, m: map<Addr, Active>, b: Binding, okFrom: set<Addr>)
    requires Exact(tops, hard, active) && ConflictFree(all, hard)
    requires forall c: Binding :: Derives(all, c) <==> Derives(tops, c) || c in bs
    requires forall c :: c in bs && c.from !in active ==> c.from in okFrom
    requires b.from in active ==> b.from in m && m[b.from] == active[b.from]
    requires b.from !in active ==> (b.from in m <==> b.from in okFrom && FirstFor(bs, b.from).Some?)
    requires b.from !in active && b.from in m ==> FirstFor(bs, b.from) == Some(m[b.from])
    requires FirstFor(bs, b.from).Some? <==> exists i :: 0 <= i < |bs| && bs[i].from == b.from
    requires FirstFor(bs, b.from).Some? ==> Binding(b.from, FirstFor(bs, b.from).value) in bs
    ensures (b.from in m && m[b.from] == b.act) <==> ((b.from in hard && hard[b.from] == b.act) || Derives(all, b))
  {
    hide Derives, FirstFor;
    if b.from in active {
      var c := Binding(b.from, active[b.from]);
      assert c.from in active && active[c.from] == c.act;
    } else if FirstFor(bs, b.from).Some? {
      var c := Binding(b.from, FirstFor(bs, b.from).value);
      assert Derives(all, c);
    }
  }

  // ----- unloading

  /** No two entries are for the same object. */
  ghost predicate Apart(tops: seq<TopSpec>) {
    forall i, j :: 0 <= i < j < |tops| ==> ParentOf(tops[i]) != ParentOf(tops[j])
  }

  /** The sweep's first test: both parents are objects, and one of them is the one that goes. */
  predicate Goes(act: Active, h: nat) {
    act.specParent.Of? && act.symParent.Of? && (act.specParent == Of(h) || act.symParent == Of(h))
  }

  /** The sweep's second test: not hardwired, and without both feet in plausible areas. */
  predicate Implausible(a: Addr, act: Active, plausible: set<Addr>) {
    act.specParent != NoParent && act.symParent != NoParent && (a !in plausible || act.to !in plausible)
  }

  predicate Doomed(a: Addr, act: Active, h: nat, plausible: set<Addr>) {
    Goes(act, h) || Implausible(a, act, plausible)
  }

  /** The translation has code at one end of a binding of one of the addresses. */
  ghost predicate AtEnds(active: map<Addr, Active>, doomed: set<Addr>, x: Translation) {
    exists a :: a in doomed && a in active && (Overlaps(x, a) || Overlaps(x, active[a].to))
  }

  ghost function Survivors(t: Table, doomed: set<Addr>): map<Addr, Translation> {
    map a | a in t.cache && !AtEnds(t.active, doomed, t.cache[a]) :: t.cache[a]
  }

  function DoomedIn(active: map<Addr, Active>, h: nat, plausible: set<Addr>): set<Addr> {
    set a | a in active && Doomed(a, active[a], h, plausible)
  }

  /** What is left of the tables when the object with handle `h` goes. */
  ghost function Sweep(t: Table, h: nat, plausible: set<Addr>): Table {
    var doomed := DoomedIn(t.active, h, plausible);
    Table(t.active - doomed, Survivors(t, doomed))
  }

  /** One more doomed binding: discarding both of its ends is all there is to do. */
  lemma OneMoreDoomed(t: Table, doomed: set<Addr>, a: Addr)
    requires a in t.active
    ensures Survivors(t, doomed + {a}) == Discard(Discard(Survivors(t, doomed), a), t.active[a].to)
    ensures Survivors(t, {}) == t.cache
  {
  }

  /** Every translation that a deleted binding was used for is deleted too. */
  lemma SweepKeepsCache(t: Table, h: nat, plausible: set<Addr>)
    requires CacheOk(t)
    ensures CacheOk(Sweep(t, h, plausible))
  {
    var t' := Sweep(t, h, plausible);
    forall a | a in t'.cache
      ensures UpToDate(t'.active, a, t'.cache[a])
    {
      var x := t.cache[a];
      assert UpToDate(t.active, a, x);
      if a in t.active && Doomed(a, t.active[a], h, plausible) {
        assert Touches(x.extents[0], t.active[a].to);
        assert Overlaps(x, t.active[a].to);
      }
    }
  }

  lemma ParentsOf(tops: seq<TopSpec>, i: nat, j: nat, b: Binding)
    requires i < |tops| && j < |tops| && DerivesFrom(tops, i, j, b)
    ensures b.act.specParent == ParentOf(tops[i]) && b.act.symParent == ParentOf(tops[j])
  {
  }

  /** What is derived without the object is what was derived with neither end in it. */
  lemma RestDerives(tops: seq<TopSpec>, k: nat, b: Binding)
    requires k < |tops| && Apart(tops)
    ensures Derives(tops[..k] + tops[k + 1..], b) <==>
            Derives(tops, b) && b.act.specParent != ParentOf(tops[k]) && b.act.symParent != ParentOf(tops[k])
  {
    hide DerivesFrom;
    var rest := tops[..k] + tops[k + 1..];
    if Derives(rest, b) {
      var i, j :| 0 <= i < |rest| && 0 <= j < |rest| && DerivesFrom(rest, i, j, b);
      var i', j' := if i < k then i else i + 1, if j < k then j else j + 1;
      SameEntries(rest, i, j, tops, i', j', b);
      ParentsOf(tops, i', j', b);
    }
    if Derives(tops, b) && b.act.specParent != ParentOf(tops[k]) && b.act.symParent != ParentOf(tops[k]) {
      var i, j :| 0 <= i < |tops| && 0 <= j < |tops| && DerivesFrom(tops, i, j, b);
      ParentsOf(tops, i, j, b);
      var i', j' := if i < k then i else i - 1, if j < k then j else j - 1;
      SameEntries(tops, i, j, rest, i', j', b);
    }
  }

  lemma SameEntries(tops: seq<TopSpec>, i: nat, j: nat, tops': seq<TopSpec>, i': nat, j': nat, b: Binding)
    requires i < |tops| && j < |tops| && i' < |tops'| && j' < |tops'| && tops[i] == tops'[i'] && tops[j] == tops'[j']
    requires DerivesFrom(tops, i, j, b)
    ensures DerivesFrom(tops', i', j', b)
  {
    hide FromPair;
  }

  lemma DerivedParents(tops: seq<TopSpec>, b: Binding)
    ensures Derives(tops, b) ==> b.act.specParent != NoParent && b.act.symParent.Of?
  {
    if Derives(tops, b) {
      var i, j :| 0 <= i < |tops| && 0 <= j < |tops| && DerivesFrom(tops, i, j, b);
      ParentsOf(tops, i, j, b);
    }
  }

  ghost predicate Hardwired(hard: map<Addr, Active>) {
    forall a :: a in hard ==> hard[a].specParent == NoParent && hard[a].symParent == NoParent
  }

  /** What a binding must be like when the object `h` goes: one that does not concern the object has both feet in
      plausible areas, and one from a preloaded spec to a symbol of the object has not. */
  predicate CleanFor(a: Addr, act: Active, h: nat, plausible: set<Addr>) {
    && (act.specParent != Of(h) && act.symParent != Of(h) && act.specParent != NoParent ==>
          a in plausible && act.to in plausible)
    && (act.specParent == Preloaded && act.symParent == Of(h) ==> a !in plausible || act.to !in plausible)
  }

  /** Unloading keeps the active set exact if and only if every binding is clean. */
  lemma UnloadExact(tops: seq<TopSpec>, k: nat, hard: map<Addr, Active>, t: Table, plausible: set<Addr>)
    requires k < |tops| && Apart(tops) && tops[k].seginfo.Some? && Hardwired(hard) && Exact(tops, hard, t.active)
    ensures var h := tops[k].seginfo.value.handle;
            Exact(tops[..k] + tops[k + 1..], hard, Sweep(t, h, plausible).active) <==>
              forall a :: a in t.active ==> CleanFor(a, t.active[a], h, plausible)
  {
    var h, rest := tops[k].seginfo.value.handle, tops[..k] + tops[k + 1..];
    var m := Sweep(t, h, plausible).active;
    forall b: Binding
      ensures Derives(rest, b) <==> Derives(tops, b) && b.act.specParent != Of(h) && b.act.symParent != Of(h)
      ensures Derives(tops, b) ==> b.act.specParent != NoParent && b.act.symParent.Of?
    {
      RestDerives(tops, k, b);
      DerivedParents(tops, b);
    }
    SweptExactly(tops, rest, hard, t.active, m, h, plausible);
  }

  lemma SweptExactly(tops: seq<TopSpec>, rest: seq<TopSpec>, hard: map<Addr, Active>, active: map<Addr, Active>,
                     m: map<Addr, Active>, h: nat, plausible: set<Addr>)
    requires Exact(tops, hard, active) && Hardwired(hard)
    requires m == active - DoomedIn(active, h, plausible)
    requires forall b: Binding ::
      Derives(rest, b) <==> Derives(tops, b) && b.act.specParent != Of(h) && b.act.symParent != Of(h)
    requires forall b: Binding :: Derives(tops, b) ==> b.act.specParent != NoParent && b.act.symParent.Of?
    ensures Exact(rest, hard, m) <==> forall a :: a in active ==> CleanFor(a, active[a], h, plausible)
  {
    hide Derives;
    if Exact(rest, hard, m) {
      forall a | a in active
        ensures CleanFor(a, active[a], h, plausible)
      {
        var b := Binding(a, active[a]);
        assert active[b.from] == b.act;
      }
    }
  }

  /** Every binding is hardwired, or comes from specs and symbols that are still loaded: no pointer to a parent
      dangles. */
  ghost predicate ParentsLive(tops: seq<TopSpec>, hard: map<Addr, Active>, active: map<Addr, Active>) {
    forall a :: a in active ==> (a in hard && hard[a] == active[a]) || Derives(tops, Binding(a, active[a]))
  }

  /** With or without conflicts, loading never makes a parent pointer dangle. */
  lemma LoadParents(tops: seq<TopSpec>, new_: TopSpec, hard: map<Addr, Active>, t: Table, okFrom: set<Addr>)
    requires new_.seginfo.Some? && ParentsLive(tops, hard, t.active)
    ensures ParentsLive([new_] + tops, hard, AddAll(t, LoadBindings(tops, new_), okFrom).active)
  {
    hide LoadBindings, Derives;
    var bs := LoadBindings(tops, new_);
    var m := AddAll(t, bs, okFrom).active;
    forall a | a in m
      ensures (a in hard && hard[a] == m[a]) || Derives([new_] + tops, Binding(a, m[a]))
    {
      FirstWins(t, bs, okFrom, a);
      FirstIsOne(bs, a);
      LoadComplete(tops, new_, Binding(a, m[a]));
    }
  }

  /** Unloading makes a parent pointer dangle exactly if a preloaded spec had bound a symbol of the object,
      and both ends of that binding still look plausible. */
  lemma UnloadParents(tops: seq<TopSpec>, k: nat, hard: map<Addr, Active>, t: Table, plausible: set<Addr>)
    requires k < |tops| && Apart(tops) && tops[k].seginfo.Some? && Hardwired(hard) && ParentsLive(tops, hard, t.active)
    ensures var h := tops[k].seginfo.value.handle;
            ParentsLive(tops[..k] + tops[k + 1..], hard, Sweep(t, h, plausible).active) <==>
              forall a :: a in t.active && t.active[a].specParent == Preloaded && t.active[a].symParent == Of(h) ==>
                a !in plausible || t.active[a].to !in plausible
  {
    var h, rest := tops[k].seginfo.value.handle, tops[..k] + tops[k + 1..];
    var m := Sweep(t, h, plausible).active;
    forall a | a in t.active
      ensures Derives(rest, Binding(a, t.active[a])) <==>
              Derives(tops, Binding(a, t.active[a])) && t.active[a].specParent != Of(h) &&
              t.active[a].symParent != Of(h)
      ensures Derives(tops, Binding(a, t.active[a])) ==> t.active[a].specParent != NoParent && t.active[a].symParent.Of?
    {
      DerivedParents(tops, Binding(a, t.active[a]));
      RestDerives(tops, k, Binding(a, t.active[a]));
    }
    SweptParents(tops, rest, hard, t.active, m, h, plausible);
  }

  lemma SweptParents(tops: seq<TopSpec>, rest: seq<TopSpec>, hard: map<Addr, Active>, active: map<Addr, Active>,
                     m: map<Addr, Active>, h: nat, plausible: set<Addr>)
    requires ParentsLive(tops, hard, active) && Hardwired(hard)
    requires m == active - DoomedIn(active, h, plausible)
    requires forall a :: a in active ==> (Derives(rest, Binding(a, active[a])) <==>
             Derives(tops, Binding(a, active[a])) && active[a].specParent != Of(h) && active[a].symParent != Of(h))
    requires forall a :: a in active && Derives(tops, Binding(a, active[a])) ==>
      active[a].specParent != NoParent && active[a].symParent.Of?
    ensures ParentsLive(rest, hard, m) <==>
            forall a :: a in active && active[a].specParent == Preloaded && active[a].symParent == Of(h) ==>
              a !in plausible || active[a].to !in plausible
  {
    hide Derives;
    if ParentsLive(rest, hard, m) {
      forall a | a in active && active[a].specParent == Preloaded && active[a].symParent == Of(h)
        ensures a !in plausible || active[a].to !in plausible
      {
        assert a in plausible && active[a].to in plausible ==> a in m;
      }
    }
  }
}
