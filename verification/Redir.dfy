/** The redirector: its tables are changed in place as objects come and go (m_redir.c). */
module Redir {
  import opened SeqMatch
  import opened Options
  import opened RedirState
  import opened RedirCross

  // ----- the specs of an object

  /** The symbol supplies a spec; on platforms with TOC pointers only if it has one. */
  predicate Supplies(sym: Symbol, usesToc: bool) {
    sym.isText && sym.request.Some? && !(usesToc && sym.toc == 0)
  }

  function SpecOf(sym: Symbol): Spec
    requires sym.request.Some?
  {
    var q := sym.request.value;
    Spec(q.sopatt, q.fnpatt, sym.addr, q.isWrap, false)
  }

  /** The specs of an object, the last found first. */
  function Harvest(syms: seq<Symbol>, usesToc: bool): seq<Spec> {
    if syms == [] then []
    else
      var sym := syms[|syms| - 1];
      (if Supplies(sym, usesToc) then [SpecOf(sym)] else []) + Harvest(syms[..|syms| - 1], usesToc)
  }

  /** The specs of an object are those that its text symbols ask for, each with the symbol's own address. */
  lemma {:induction false} HarvestIs(syms: seq<Symbol>, usesToc: bool, sp: Spec)
    ensures sp in Harvest(syms, usesToc) <==>
            exists sym :: sym in syms && sym.isText && sym.request.Some? && (usesToc ==> sym.toc != 0)
                          && sp.sopatt == sym.request.value.sopatt && sp.fnpatt == sym.request.value.fnpatt
                          && sp.to == sym.addr && sp.isWrap == sym.request.value.isWrap && !sp.mandatory
  {
    if syms != [] {
      HarvestIs(syms[..|syms| - 1], usesToc, sp);
      assert syms == syms[..|syms| - 1] + [syms[|syms| - 1]];
    }
  }

  function NewTop(di: DebugInfo, usesToc: bool): TopSpec { TopSpec(Some(di), Harvest(di.syms, usesToc)) }

  /** A mandatory spec is for this object and finds nothing in it. */
  ghost predicate Misses(sp: Spec, di: DebugInfo) {
    sp.mandatory && StringMatches(sp.sopatt, di.soname) && !Found(sp, di, |di.syms|)
  }

  ghost predicate Found(sp: Spec, di: DebugInfo, n: nat)
    requires n <= |di.syms|
  {
    exists i :: 0 <= i < n && Matches(sp, di, di.syms[i])
  }

  /** Matching the spec against the object fails an assertion: names that are compared are too long for the matcher. */
  ghost predicate TooLong(sp: Spec, di: DebugInfo) {
    || !Short(sp.sopatt) || !Short(di.soname)
    || (StringMatches(sp.sopatt, di.soname) && exists i :: 0 <= i < |di.syms| && LongAt(sp, di.syms[i]))
  }

  predicate LongAt(sp: Spec, sym: Symbol) { sym.isText && !sym.glink && (!Short(sp.fnpatt) || !Short(sym.name)) }

  /** Matching the specs against the object comes to its end. */
  ghost predicate Fine(specs: seq<Spec>, di: DebugInfo) {
    forall k :: 0 <= k < |specs| ==> !TooLong(specs[k], di) && !Misses(specs[k], di)
  }

  /** The object can be loaded: it is not there yet, its specs lead to plausible places, and matching in all three cases
      comes to its end. */
  ghost predicate Loadable(tops: seq<TopSpec>, di: DebugInfo, usesToc: bool, plausible: set<Addr>) {
    && (forall i :: 0 <= i < |tops| ==> ParentOf(tops[i]) != Of(di.handle))
    && (forall sp :: sp in Harvest(di.syms, usesToc) ==> sp.to in plausible)
    && FineOnOld(tops, Harvest(di.syms, usesToc), |tops|) && FineOnNew(tops, di, |tops|) &&
       Fine(Harvest(di.syms, usesToc), di)
  }

  ghost predicate FineOnOld(tops: seq<TopSpec>, specs: seq<Spec>, n: nat)
    requires n <= |tops|
  {
    forall i :: 0 <= i < n && tops[i].seginfo.Some? ==> Fine(specs, tops[i].seginfo.value)
  }

  ghost predicate FineOnNew(tops: seq<TopSpec>, di: DebugInfo, n: nat)
    requires n <= |tops|
  {
    forall i :: 0 <= i < n ==> Fine(tops[i].specs, di)
  }

  /** Chasing goes on for `n` of the extents: two at most, and not into code that is redirected. */
  ghost predicate ChasedAsFar(active: map<Addr, Active>, chase: seq<Extent>, n: nat) {
    && n <= |chase| && n <= 2
    && (forall k :: 0 <= k < n ==> chase[k].base !in active || active[chase[k].base].to == chase[k].base)
    && (n < |chase| && n < 2 ==> chase[n].base in active && active[chase[n].base].to != chase[n].base)
  }

  class Redirector {
    var topSpecs: seq<TopSpec>
    var active: map<Addr, Active>
    var cache: map<Addr, Translation>

    const usesToc: bool
    /** From-addresses that are exempt from the plausibility check: the two vsyscall entries on amd64. */
    const exempt: set<Addr>
    ghost const hard: map<Addr, Active>

    ghost function Tables(): Table
      reads this
    {
      Table(active, cache)
    }

    /** One entry an object, hardwired bindings without parents, and no stale translation. */
    ghost predicate Valid()
      reads this
    {
      Apart(topSpecs) && Hardwired(hard) && CacheOk(Tables())
    }

    /** VG_(redir_initialise), for any hardwired bindings and preloaded specs. */
    constructor (usesToc: bool, exempt: set<Addr>, hardwired: map<Addr, Addr>, preloaded: seq<Spec>)
      ensures Valid() && cache == map[] && active == hard && this.usesToc == usesToc && this.exempt == exempt
      ensures active == map a | a in hardwired :: Active(hardwired[a], NoParent, NoParent, false)
      ensures topSpecs == if preloaded == [] then [] else [TopSpec(None, preloaded)]
    {
      this.usesToc, this.exempt := usesToc, exempt;
      topSpecs := if preloaded == [] then [] else [TopSpec(None, preloaded)];
      active := map a | a in hardwired :: Active(hardwired[a], NoParent, NoParent, false);
      hard := map a | a in hardwired :: Active(hardwired[a], NoParent, NoParent, false);
      cache := map[];
    }

    // ----- loading

    /** maybe_add_active. */
    method MaybeAddActive(b: Binding, plausible: set<Addr>)
      modifies this`active, this`cache
      ensures Tables() == AddOne(old(Tables()), b, plausible + exempt)
    {
      if b.from !in plausible && b.from !in exempt {
        return;
      }
      if b.from !in active {
        active := active[b.from := b.act];
        cache := Discard(cache, b.from);
        cache := Discard(cache, b.act.to);
      }
    }

    /** The inner loop of generate_and_add_actives: one symbol against the marked specs. False stands for a failed
        assertion of the matcher. */
    method AddSymbol(specs: seq<Spec>, marks: seq<bool>, done: seq<bool>, ps: Parent, ghost di: DebugInfo, sym: Symbol,
                     py: Parent, plausible: set<Addr>)
      returns (ok: bool, done': seq<bool>)
      requires |marks| == |done| == |specs| && sym.isText && !sym.glink
      requires forall k :: 0 <= k < |specs| ==> marks[k] == StringMatches(specs[k].sopatt, di.soname)
      modifies this`active, this`cache
      ensures ok <==> forall k :: 0 <= k < |specs| && marks[k] ==> !LongAt(specs[k], sym)
      ensures ok ==> Tables() == AddAll(old(Tables()), SymBindings(specs, ps, di, sym, py), plausible + exempt)
      ensures ok ==>
        |done'| == |specs| && forall k :: 0 <= k < |specs| ==> done'[k] == (done[k] || Matches(specs[k], di, sym))
    {
      hide StringMatches, AddOne, AddAll, SymBindings;
      done' := done;
      ok := true;
      SymOneMore(specs, 0, ps, di, sym, py);
      AddNone(Tables(), plausible + exempt);
      for n := 0 to |specs|
        invariant ok && forall k :: 0 <= k < n && marks[k] ==> !LongAt(specs[k], sym)
        invariant Tables() == AddAll(old(Tables()), SymBindings(specs[..n], ps, di, sym, py), plausible + exempt)
        invariant |done'| == |specs|
        invariant forall k :: 0 <= k < n ==> done'[k] == (done[k] || Matches(specs[k], di, sym))
        invariant forall k :: n <= k < |specs| ==> done'[k] == done[k]
      {
        ghost var bs := SymBindings(specs[..n], ps, di, sym, py);
        SymOneMore(specs, n, ps, di, sym, py);
        AddOneMore(old(Tables()), bs, Bind(specs[n], ps, sym, py), plausible + exempt);
        if marks[n] {
          var matched;
          ok, matched := StringMatch(specs[n].fnpatt, sym.name);
          if !ok {
            return;
          }
          if matched {
            done' := done'[n := true];
            MaybeAddActive(Bind(specs[n], ps, sym, py), plausible);
          }
        }
      }
      assert specs[..|specs|] == specs;
    }

    /** The first loop of generate_and_add_actives: which specs are for this object. */
    method MarkSpecs(specs: seq<Spec>, di: DebugInfo) returns (ok: bool, marks: seq<bool>, anyMark: bool)
      ensures ok <==> forall k :: 0 <= k < |specs| ==> Short(specs[k].sopatt) && Short(di.soname)
      ensures ok ==>
        |marks| == |specs| && forall k :: 0 <= k < |specs| ==> marks[k] == StringMatches(specs[k].sopatt, di.soname)
      ensures ok && !anyMark ==> forall k :: 0 <= k < |specs| ==> !marks[k]
    {
      hide StringMatches;
      ok, marks, anyMark := true, [], false;
      for k := 0 to |specs|
        invariant ok && |marks| == k && (!anyMark ==> forall i :: 0 <= i < k ==> !marks[i])
        invariant forall i :: 0 <= i < k ==> marks[i] == StringMatches(specs[i].sopatt, di.soname)
        invariant forall i :: 0 <= i < k ==> Short(specs[i].sopatt) && Short(di.soname)
      {
        var m;
        ok, m := StringMatch(specs[k].sopatt, di.soname);
        if !ok {
          return;
        }
        marks, anyMark := marks + [m], anyMark || m;
      }
    }

    /** generate_and_add_actives. False stands for a failed assertion of the matcher, or for the fatal error that a
        mandatory redirection cannot be set up. */
    method GenerateAndAddActives(specs: seq<Spec>, ps: Parent, di: DebugInfo, py: Parent, plausible: set<Addr>)
      returns (ok: bool)
      modifies this`active, this`cache
      ensures ok <==> Fine(specs, di)
      ensures ok ==> Tables() == AddAll(old(Tables()), Cross(specs, ps, di, di.syms, py), plausible + exempt)
    {
      hide StringMatches, AddOne, AddAll, SymBindings, Cross, Short;
      var marks, anyMark;
      ok, marks, anyMark := MarkSpecs(specs, di);
      if !ok {
        return;
      }
      CrossOneMore(specs, ps, di, di.syms, 0, py);
      AddNone(Tables(), plausible + exempt);
      if !anyMark {
        CrossOfNone(specs, ps, di, di.syms, py);
        return true;
      }
      var done: seq<bool> := seq(|specs|, i => false);
      for i := 0 to |di.syms|
        invariant ok && Tables() == AddAll(old(Tables()), Cross(specs, ps, di, di.syms[..i], py), plausible + exempt)
        invariant |done| == |specs| && forall k :: 0 <= k < |specs| ==> done[k] == Found(specs[k], di, i)
        invariant forall k, n :: 0 <= k < |specs| && marks[k] && 0 <= n < i ==> !LongAt(specs[k], di.syms[n])
      {
        var sym := di.syms[i];
        CrossOneMore(specs, ps, di, di.syms, i, py);
        AddBoth(old(Tables()), Cross(specs, ps, di, di.syms[..i], py), SymBindings(specs, ps, di, sym, py),
                plausible + exempt);
        if sym.isText && !sym.glink {
          ok, done := AddSymbol(specs, marks, done, ps, di, sym, py, plausible);
          if !ok {
            ghost var k :| 0 <= k < |specs| && marks[k] && LongAt(specs[k], sym);
            assert LongAt(specs[k], di.syms[i]) && TooLong(specs[k], di);
            return;
          }
        } else {
          NoSymBindings(specs, ps, di, sym, py);
          AddNone(Tables(), plausible + exempt);
        }
        FoundOneMore(specs, di, i);
      }
      assert di.syms[..|di.syms|] == di.syms;
      assert forall k :: 0 <= k < |specs| ==> !TooLong(specs[k], di);
      for k := 0 to |specs|
        invariant Tables() == AddAll(old(Tables()), Cross(specs, ps, di, di.syms, py), plausible + exempt)
        invariant ok <==> forall i :: 0 <= i < k ==> !Misses(specs[i], di)
      {
        if marks[k] && !done[k] && specs[k].mandatory {
          ok := false;
        }
      }
    }

    /** The scan of the symbol table for specs. False stands for the failed assertion that a spec leads to a plausible
        place. */
    method HarvestSpecs(di: DebugInfo, plausible: set<Addr>) returns (ok: bool, specList: seq<Spec>)
      ensures ok <==> forall sp :: sp in Harvest(di.syms, usesToc) ==> sp.to in plausible
      ensures ok ==> specList == Harvest(di.syms, usesToc)
    {
      specList := [];
      ok := true;
      for i := 0 to |di.syms|
        invariant ok <==> forall sp :: sp in Harvest(di.syms[..i], usesToc) ==> sp.to in plausible
        invariant specList == Harvest(di.syms[..i], usesToc)
      {
        var sym := di.syms[i];
        assert di.syms[..i + 1][..i] == di.syms[..i];
        if Supplies(sym, usesToc) {
          specList := [SpecOf(sym)] + specList;
          assert SpecOf(sym) in specList;
          ok := ok && sym.addr in plausible;
        }
      }
      assert di.syms[..|di.syms|] == di.syms;
    }

    /** VG_(redir_notify_new_DebugInfo). False stands for a failed assertion or the fatal error. */
    method NotifyNew(newsi: DebugInfo, plausible: set<Addr>) returns (ok: bool)
      requires Valid()
      modifies this`topSpecs, this`active, this`cache
      ensures ok <==> Loadable(old(topSpecs), newsi, usesToc, plausible)
      ensures ok ==> Valid() && topSpecs == [TopSpec(Some(newsi), Harvest(newsi.syms, usesToc))] + old(topSpecs)
      ensures ok ==>
        Tables() == AddAll(old(Tables()), LoadBindings(old(topSpecs), NewTop(newsi, usesToc)), plausible + exempt)
      ensures ok && ParentsLive(old(topSpecs), hard, old(active)) ==> ParentsLive(topSpecs, hard, active)
      ensures ok && Exact(old(topSpecs), hard, old(active)) ==>
        (Exact(topSpecs, hard, active) <==>
           ConflictFree(topSpecs, hard)
           && forall b :: b in LoadBindings(old(topSpecs), NewTop(newsi, usesToc)) && b.from !in old(active) ==>
                b.from in plausible + exempt)
    {
      hide StringMatches, AddAll, Cross, Case1, Case2, Exact, ParentsLive, ConflictFree, CacheOk, Fine, Harvest;
      ghost var t0, new_ := Tables(), NewTop(newsi, usesToc);
      ok := true;
      for i := 0 to |topSpecs|
        invariant ok <==> forall k :: 0 <= k < i ==> ParentOf(topSpecs[k]) != Of(newsi.handle)
      {
        ok := ok && (topSpecs[i].seginfo.None? || topSpecs[i].seginfo.value.handle != newsi.handle);
      }
      if !ok {
        return;
      }
      var specList;
      ok, specList := HarvestSpecs(newsi, plausible);
      if !ok {
        return;
      }
      ok := NewAgainstOld(newsi, specList, plausible);
      if !ok {
        return;
      }
      ok := OldAgainstNew(newsi, plausible);
      if !ok {
        return;
      }
      ok := GenerateAndAddActives(specList, Of(newsi.handle), newsi, Of(newsi.handle), plausible);
      if !ok {
        return;
      }
      InThree(t0, topSpecs, new_, plausible + exempt);
      AddAllKeepsCache(t0, LoadBindings(topSpecs, new_), plausible + exempt);
      LoadAftermath(topSpecs, new_, hard, t0, plausible + exempt);
      topSpecs := [TopSpec(Some(newsi), specList)] + topSpecs;
    }

    /** Case (1): the new specs against the symbols of the objects at hand. */
    method NewAgainstOld(newsi: DebugInfo, specList: seq<Spec>, plausible: set<Addr>) returns (ok: bool)
      modifies this`active, this`cache
      ensures ok <==> FineOnOld(topSpecs, specList, |topSpecs|)
      ensures ok ==> Tables() == AddAll(old(Tables()), Case1(topSpecs, specList, Of(newsi.handle)), plausible + exempt)
    {
      hide AddAll, Case1, Fine, Cross;
      ok := true;
      CasesOneMore(topSpecs, 0, specList, newsi);
      AddNone(Tables(), plausible + exempt);
      for i := 0 to |topSpecs|
        invariant ok && FineOnOld(topSpecs, specList, i)
        invariant Tables() ==
            AddAll(old(Tables()), Case1(topSpecs[..i], specList, Of(newsi.handle)), plausible + exempt)
      {
        ghost var bs := Case1(topSpecs[..i], specList, Of(newsi.handle));
        CasesOneMore(topSpecs, i, specList, newsi);
        var ts := topSpecs[i];
        if ts.seginfo.Some? {
          AddBoth(old(Tables()), bs,
                  Cross(specList, Of(newsi.handle), ts.seginfo.value, ts.seginfo.value.syms, ParentOf(ts)),
                  plausible + exempt);
          ok := GenerateAndAddActives(specList, Of(newsi.handle), ts.seginfo.value, ParentOf(ts), plausible);
          if !ok {
            return;
          }
        }
      }
      assert topSpecs[..|topSpecs|] == topSpecs;
    }

    /** Case (2): the specs at hand against the new symbols. */
    method OldAgainstNew(newsi: DebugInfo, plausible: set<Addr>) returns (ok: bool)
      modifies this`active, this`cache
      ensures ok <==> FineOnNew(topSpecs, newsi, |topSpecs|)
      ensures ok ==> Tables() == AddAll(old(Tables()), Case2(topSpecs, newsi, Of(newsi.handle)), plausible + exempt)
    {
      hide AddAll, Case2, Fine, Cross;
      ok := true;
      CasesOneMore(topSpecs, 0, [], newsi);
      AddNone(Tables(), plausible + exempt);
      for n := 0 to |topSpecs|
        invariant ok && FineOnNew(topSpecs, newsi, n)
        invariant Tables() == AddAll(old(Tables()), Case2(topSpecs[..n], newsi, Of(newsi.handle)), plausible + exempt)
      {
        ghost var bs := Case2(topSpecs[..n], newsi, Of(newsi.handle));
        var ts := topSpecs[n];
        CasesOneMore(topSpecs, n, [], newsi);
        AddBoth(old(Tables()), bs, Cross(ts.specs, ParentOf(ts), newsi, newsi.syms, Of(newsi.handle)),
                plausible + exempt);
        ok := GenerateAndAddActives(ts.specs, ParentOf(ts), newsi, Of(newsi.handle), plausible);
        if !ok {
          return;
        }
      }
      assert topSpecs[..|topSpecs|] == topSpecs;
    }

    // ----- unloading

    /** The position of the object's entry, or the number of entries. */
    method FindTop(h: nat) returns (k: nat)
      ensures k <= |topSpecs| && (k < |topSpecs| ==> ParentOf(topSpecs[k]) == Of(h))
      ensures forall i :: 0 <= i < k ==> ParentOf(topSpecs[i]) != Of(h)
    {
      k := 0;
      while k < |topSpecs| && !(topSpecs[k].seginfo.Some? && topSpecs[k].seginfo.value.handle == h)
        invariant k <= |topSpecs| && forall i :: 0 <= i < k ==> ParentOf(topSpecs[i]) != Of(h)
      {
        k := k + 1;
      }
    }

    /** The traversal of the actives: collect what is to go, and discard translations at both ends. */
    method CollectDoomed(h: nat, plausible: set<Addr>) returns (tmpSet: set<Addr>)
      modifies this`cache
      ensures tmpSet == DoomedIn(active, h, plausible) && cache == Survivors(old(Tables()), tmpSet)
    {
      hide Survivors, Discard;
      tmpSet := {};
      var todo := active.Keys;
      if todo != {} {
        var a :| a in todo;
        OneMoreDoomed(Tables(), {}, a);
      } else {
        NoneDoomed(Tables());
      }
      while todo != {}
        invariant todo <= active.Keys
        invariant tmpSet == set a | a in active && a !in todo && Doomed(a, active[a], h, plausible)
        invariant cache == Survivors(old(Tables()), tmpSet)
        decreases |todo|
      {
        var a :| a in todo;
        todo := todo - {a};
        var act := active[a];
        var delMe := act.specParent != NoParent && act.symParent != NoParent
                     && act.specParent != Preloaded && act.symParent != Preloaded
                     && (act.specParent == Of(h) || act.symParent == Of(h));
        if !delMe && act.specParent != NoParent && act.symParent != NoParent {
          if a !in plausible {
            delMe := true;
          }
          if act.to !in plausible {
            delMe := true;
          }
        }
        if delMe {
          OneMoreDoomed(old(Tables()), tmpSet, a);
          tmpSet := tmpSet + {a};
          cache := Discard(cache, a);
          cache := Discard(cache, act.to);
        }
      }
    }

    /** VG_(redir_notify_delete_DebugInfo). False stands for the failed assertion that the object is known. */
    method NotifyDelete(h: nat, plausible: set<Addr>) returns (ok: bool, ghost k: nat)
      requires Valid()
      modifies this`topSpecs, this`active, this`cache
      ensures Valid() && (ok <==> exists i :: 0 <= i < |old(topSpecs)| && ParentOf(old(topSpecs)[i]) == Of(h))
      ensures !ok ==> topSpecs == old(topSpecs) && Tables() == old(Tables())
      ensures ok ==> k < |old(topSpecs)| && ParentOf(old(topSpecs)[k]) == Of(h)
      ensures ok ==>
        topSpecs == old(topSpecs)[..k] + old(topSpecs)[k + 1..] && Tables() == Sweep(old(Tables()), h, plausible)
      ensures ok && ParentsLive(old(topSpecs), hard, old(active)) ==>
        (ParentsLive(topSpecs, hard, active) <==>
           forall a :: a in old(active) && old(active)[a].specParent == Preloaded &&
                       old(active)[a].symParent == Of(h) ==>
             a !in plausible || old(active)[a].to !in plausible)
      ensures ok && Exact(old(topSpecs), hard, old(active)) ==>
        (Exact(topSpecs, hard, active) <==> forall a :: a in old(active) ==> CleanFor(a, old(active)[a], h, plausible))
    {
      hide Exact, ParentsLive, CacheOk, Survivors;
      ghost var t0 := Tables();
      var j := FindTop(h);
      k := j;
      if j == |topSpecs| {
        return false, k;
      }
      var tmpSet := CollectDoomed(h, plausible);
      ghost var doomed := tmpSet;
      while tmpSet != {}
        invariant topSpecs == old(topSpecs) && cache == Survivors(t0, doomed)
        invariant tmpSet <= doomed && active == t0.active - (doomed - tmpSet)
        decreases |tmpSet|
      {
        var a :| a in tmpSet;
        tmpSet := tmpSet - {a};
        active := active - {a};
      }
      assert Tables() == Sweep(t0, h, plausible);
      SweepKeepsCache(t0, h, plausible);
      if Exact(topSpecs, hard, t0.active) { UnloadExact(topSpecs, k, hard, t0, plausible); }
      if ParentsLive(topSpecs, hard, t0.active) { UnloadParents(topSpecs, k, hard, t0, plausible); }
      topSpecs := topSpecs[..j] + topSpecs[j + 1..];
      ok := true;
    }

    // ----- use

    /** VG_(redir_do_lookup). `ok` is false for the failed assertion that a target is not 0. */
    method DoLookup(orig: Addr) returns (ok: bool, a: Addr, isWrap: bool)
      ensures ok <==> !(orig in active && active[orig].to == 0)
      ensures a == if orig in active then active[orig].to else orig
      ensures orig in active ==> isWrap == active[orig].isWrap
    {
      if orig !in active {
        return true, orig, false;
      }
      return active[orig].to != 0, active[orig].to, active[orig].isWrap;
    }

    /** The part of m_translate that consults the redirector: translate the code at `nraddr`, which takes `len` bytes
        there and then runs on into the extents of `chase`, as far as chasing is allowed (at most two). `ok` is false
        for a failed assertion; if no target is 0, there is none. */
    method Translate(nraddr: Addr, len: nat, chase: seq<Extent>) returns (ok: bool, ghost chased: nat)
      requires Valid() && len > 0
      modifies this`cache
      ensures Valid() && ((forall a :: a in active ==> active[a].to != 0) ==> ok) && (ok ==> nraddr in cache)
      ensures ok ==> ChasedAsFar(active, chase, chased) && 1 <= |cache[nraddr].extents| <= 3
      ensures ok ==>
        cache[nraddr].extents == [Extent(if nraddr in active then active[nraddr].to else nraddr, len)] + chase[..chased]
      ensures forall a :: a != nraddr ==>
        (a in cache <==> a in old(cache)) && (a in cache ==> cache[a] == old(cache)[a])
    {
      var addr, isWrap;
      chased := 0;
      ok, addr, isWrap := DoLookup(nraddr);
      if !ok {
        return;
      }
      var kind := if addr == nraddr then Normal else if isWrap then Wrap else Replace;
      var extents := [Extent(addr, len)];
      var i := 0;
      while i < |chase| && i < 2
        invariant ok && cache == old(cache) && 0 <= i <= |chase| && |extents| == i + 1
        invariant extents == [Extent(addr, len)] + chase[..i] && i <= 2 && chased == i
        invariant forall k :: 0 <= k < i ==> Lookup(active, chase[k].base) == chase[k].base
      {
        var there, w;
        ok, there, w := DoLookup(chase[i].base);
        if !ok {
          return;
        }
        if there != chase[i].base {
          break;
        }
        extents := extents + [chase[i]];
        i, chased := i + 1, chased + 1;
      }
      cache := cache[nraddr := Translation(addr, kind, extents)];
      assert UpToDate(active, nraddr, cache[nraddr]);
    }
  }

  lemma {:induction false} CrossOfNone(specs: seq<Spec>, ps: Parent, di: DebugInfo, syms: seq<Symbol>, py: Parent)
    requires forall k :: 0 <= k < |specs| ==> !StringMatches(specs[k].sopatt, di.soname)
    ensures Cross(specs, ps, di, syms, py) == []
  {
    hide StringMatches;
    if syms != [] {
      CrossOfNone(specs, ps, di, syms[..|syms| - 1], py);
      NoSymBindings(specs, ps, di, syms[|syms| - 1], py);
    }
  }

  lemma {:induction false} NoSymBindings(specs: seq<Spec>, ps: Parent, di: DebugInfo, sym: Symbol, py: Parent)
    requires forall k :: 0 <= k < |specs| ==> !Matches(specs[k], di, sym)
    ensures SymBindings(specs, ps, di, sym, py) == []
  {
    if specs != [] { NoSymBindings(specs[..|specs| - 1], ps, di, sym, py); }
  }

  lemma SymOneMore(specs: seq<Spec>, n: nat, ps: Parent, di: DebugInfo, sym: Symbol, py: Parent)
    ensures SymBindings(specs[..0], ps, di, sym, py) == []
    ensures n < |specs| && Matches(specs[n], di, sym) ==>
              SymBindings(specs[..n + 1], ps, di, sym, py) ==
                SymBindings(specs[..n], ps, di, sym, py) + [Bind(specs[n], ps, sym, py)]
    ensures n < |specs| && !Matches(specs[n], di, sym) ==>
              SymBindings(specs[..n + 1], ps, di, sym, py) == SymBindings(specs[..n], ps, di, sym, py)
  {
    if n < |specs| { assert specs[..n + 1][..n] == specs[..n]; }
  }

  lemma CrossOneMore(specs: seq<Spec>, ps: Parent, di: DebugInfo, syms: seq<Symbol>, i: nat, py: Parent)
    ensures Cross(specs, ps, di, syms[..0], py) == []
    ensures i < |syms| ==>
      Cross(specs, ps, di, syms[..i + 1], py) ==
        Cross(specs, ps, di, syms[..i], py) + SymBindings(specs, ps, di, syms[i], py)
  {
    if i < |syms| { assert syms[..i + 1][..i] == syms[..i]; }
  }

  lemma FoundOneMore(specs: seq<Spec>, di: DebugInfo, i: nat)
    requires i < |di.syms|
    ensures forall k :: 0 <= k < |specs| ==>
      (Found(specs[k], di, i + 1) <==> Found(specs[k], di, i) || Matches(specs[k], di, di.syms[i]))
  {
    hide Matches;
  }

  lemma NoneDoomed(t: Table)
    ensures Survivors(t, {}) == t.cache
  {
  }

  lemma CasesOneMore(tops: seq<TopSpec>, i: nat, specs: seq<Spec>, di: DebugInfo)
    ensures Case1(tops[..0], specs, Of(di.handle)) == [] && Case2(tops[..0], di, Of(di.handle)) == []
    ensures i < |tops| && tops[i].seginfo.None? ==>
      Case1(tops[..i + 1], specs, Of(di.handle)) == Case1(tops[..i], specs, Of(di.handle))
    ensures i < |tops| && tops[i].seginfo.Some? ==>
              Case1(tops[..i + 1], specs, Of(di.handle)) ==
              Case1(tops[..i], specs, Of(di.handle)) +
              Cross(specs, Of(di.handle), tops[i].seginfo.value, tops[i].seginfo.value.syms, ParentOf(tops[i]))
    ensures i < |tops| ==>
              Case2(tops[..i + 1], di, Of(di.handle)) ==
              Case2(tops[..i], di, Of(di.handle)) + Cross(tops[i].specs, ParentOf(tops[i]), di, di.syms, Of(di.handle))
  {
    hide Cross;
    if i < |tops| { assert tops[..i + 1][..i] == tops[..i]; }
  }

  lemma InThree(t: Table, tops: seq<TopSpec>, new_: TopSpec, okFrom: set<Addr>)
    requires new_.seginfo.Some?
    ensures var di, p := new_.seginfo.value, ParentOf(new_);
            AddAll(t, LoadBindings(tops, new_), okFrom)
            == AddAll(AddAll(AddAll(t, Case1(tops, new_.specs, p), okFrom), Case2(tops, di, p), okFrom),
                      Cross(new_.specs, p, di, di.syms, p), okFrom)
  {
    hide AddAll, Case1, Case2, Cross;
    var di, p := new_.seginfo.value, ParentOf(new_);
    AddBoth(t, Case1(tops, new_.specs, p), Case2(tops, di, p), okFrom);
    AddBoth(t, Case1(tops, new_.specs, p) + Case2(tops, di, p), Cross(new_.specs, p, di, di.syms, p), okFrom);
  }

  /** What loading does for exactness and for the parents, in one place. */
  lemma LoadAftermath(tops: seq<TopSpec>, new_: TopSpec, hard: map<Addr, Active>, t: Table, okFrom: set<Addr>)
    requires new_.seginfo.Some?
    ensures var m := AddAll(t, LoadBindings(tops, new_), okFrom).active;
            && (ParentsLive(tops, hard, t.active) ==> ParentsLive([new_] + tops, hard, m))
            && (Exact(tops, hard, t.active) ==>
                  (Exact([new_] + tops, hard, m) <==>
                     ConflictFree([new_] + tops, hard) &&
                     forall b :: b in LoadBindings(tops, new_) && b.from !in t.active ==> b.from in okFrom))
  {
    hide AddAll, LoadBindings, ParentsLive, Exact, ConflictFree;
    if ParentsLive(tops, hard, t.active) { LoadParents(tops, new_, hard, t, okFrom); }
    if Exact(tops, hard, t.active) { LoadExact(tops, new_, hard, t, okFrom); }
  }
}
