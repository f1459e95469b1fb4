/** The table of stack traces: each is stored once, in a hash table that grows and reorders itself (m_execontext.c). */
module ExeContexts {
  import opened ExeChains

  const N_PRIMES: nat := 18

  /** ec_primes. */
  const primes: seq<nat> := [769, 1543, 3079, 6151, 12289, 24593, 49157, 98317, 196613, 393241, 786433, 1572869,
                             3145739, 6291469, 12582917, 25165843, 50331653, 100663319]

  function Prime(i: nat): (p: nat)
    requires i < N_PRIMES
    ensures p > 0 && (i + 1 < N_PRIMES ==> p < primes[i + 1])
  {
    primes[i]
  }

  const WORD32: nat := 0x1_0000_0000

  /** What is read as word `i` of a stored trace. Beyond its end it is whatever memory holds there. */
  function WordAt(c: ExeContext, i: nat, junk: (ExeContext, nat) -> Addr): Addr {
    if i < |c.ips| then c.ips[i] else junk(c, i)
  }

  /** The comparison in record_ExeContext_wrk2: only the first n_ips words, and not the lengths. */
  ghost predicate Same(c: ExeContext, ips: seq<Addr>, junk: (ExeContext, nat) -> Addr) {
    forall i :: 0 <= i < |ips| ==> WordAt(c, i, junk) == ips[i]
  }

  ghost predicate FirstSame(s: seq<ExeContext>, k: nat, ips: seq<Addr>, junk: (ExeContext, nat) -> Addr) {
    k < |s| && Same(s[k], ips, junk) && forall m :: 0 <= m < k ==> !Same(s[m], ips, junk)
  }

  ghost predicate Unseen(s: seq<ExeContext>, ips: seq<Addr>, junk: (ExeContext, nat) -> Addr) {
    forall m :: 0 <= m < |s| ==> !Same(s[m], ips, junk)
  }

  /** A stored trace that can be taken for another one: it goes on after it, or it is the start of it and memory beyond
      its end happens to hold the rest. */
  ghost predicate Clashes(c: ExeContext, ips: seq<Addr>, junk: (ExeContext, nat) -> Addr) {
    c.ips != ips && (ips <= c.ips || (c.ips <= ips && forall i :: |c.ips| <= i < |ips| ==> junk(c, i) == ips[i]))
  }

  /** What compares equal is the trace itself, or clashes with it. */
  lemma SameIs(c: ExeContext, ips: seq<Addr>, junk: (ExeContext, nat) -> Addr)
    ensures Same(c, ips, junk) <==> c.ips == ips || Clashes(c, ips, junk)
  {
    if Same(c, ips, junk) {
      assert forall i :: 0 <= i < |ips| && i < |c.ips| ==> WordAt(c, i, junk) == ips[i] == c.ips[i];
      assert forall i :: |c.ips| <= i < |ips| ==> WordAt(c, i, junk) == junk(c, i) == ips[i];
    }
  }

  /** Every context that clashes with the trace stands behind the one that holds it. */
  ghost predicate Clear(s: seq<ExeContext>, ips: seq<Addr>, junk: (ExeContext, nat) -> Addr) {
    forall m :: 0 <= m < |s| && Clashes(s[m], ips, junk) ==> exists j :: 0 <= j < m && s[j].ips == ips
  }

  /** What is found has exactly the trace if and only if the chain is clear for it. */
  lemma ClearIsExact(s: seq<ExeContext>, ips: seq<Addr>, junk: (ExeContext, nat) -> Addr)
    ensures Unseen(s, ips, junk) ==> Clear(s, ips, junk)
    ensures forall k: nat :: FirstSame(s, k, ips, junk) ==> !Unseen(s, ips, junk)
    ensures forall k: nat :: FirstSame(s, k, ips, junk) ==> (s[k].ips == ips <==> Clear(s, ips, junk))
  {
    hide Same, Clashes;
    forall m | 0 <= m < |s|
      ensures Same(s[m], ips, junk) <==> s[m].ips == ips || Clashes(s[m], ips, junk)
      ensures Clashes(s[m], ips, junk) ==> s[m].ips != ips
    {
      SameIs(s[m], ips, junk);
      NoClash(s[m], ips, junk);
    }
    forall k: nat | FirstSame(s, k, ips, junk)
      ensures s[k].ips == ips <==> Clear(s, ips, junk)
    {
      if s[k].ips == ips {
        forall m | 0 <= m < |s| && Clashes(s[m], ips, junk)
          ensures exists j :: 0 <= j < m && s[j].ips == ips
        {
          assert k < m;
        }
      }
    }
  }

  lemma NoClash(c: ExeContext, ips: seq<Addr>, junk: (ExeContext, nat) -> Addr)
    ensures Clashes(c, ips, junk) ==> c.ips != ips
  {
  }

  ghost function Elems(s: seq<ExeContext>): set<ExeContext> { set c | c in s }

  /** No two contexts hold the same trace. */
  ghost predicate Interned(order: seq<ExeContext>) {
    forall i, j :: 0 <= i < j < |order| ==> order[i].ips != order[j].ips
  }

  /** The ECUs count up in fours. */
  ghost predicate Numbered(order: seq<ExeContext>) {
    forall i :: 0 <= i < |order| ==> order[i].ecu == 4 * (i + 1)
  }

  /** The comparison loop. */
  method Compare(list: ExeContext, ips: seq<Addr>, junk: (ExeContext, nat) -> Addr) returns (same: bool)
    ensures same == Same(list, ips, junk)
  {
    for i := 0 to |ips|
      invariant forall m :: 0 <= m < i ==> WordAt(list, m, junk) == ips[m]
    {
      if WordAt(list, i, junk) != ips[i] {
        return false;
      }
    }
    return true;
  }

  /** VG_(is_plausible_ECU). */
  predicate PlausibleEcu(ecu: nat) { ecu > 0 && ecu % 4 == 0 }

  // ----- comparing contexts

  /** VgRes. */
  datatype Resolution = LowRes | MedRes | HighRes

  /** The traces are the same, or have the same first `n` words. */
  predicate Alike(a: seq<Addr>, b: seq<Addr>, n: nat) {
    a == b || (n <= |a| && n <= |b| && a[..n] == b[..n])
  }

  /** Traces with the same first four words have the same first two. */
  lemma CoarserIsWeaker(a: seq<Addr>, b: seq<Addr>)
    ensures a == b || (4 <= |a| && 4 <= |b| && a[..4] == b[..4]) ==>
      a == b || (2 <= |a| && 2 <= |b| && a[..2] == b[..2])
  {
    if 4 <= |a| && 4 <= |b| && a[..4] == b[..4] { assert a[..4][..2] == a[..2] && b[..4][..2] == b[..2]; }
  }

  /** The comparison loop of VG_(eq_ExeContext), for 2 or 4 words. */
  method EqTop(e1: ExeContext, e2: ExeContext, n: nat) returns (same: bool)
    ensures same <==> Alike(e1.ips, e2.ips, n)
  {
    for i := 0 to n
      invariant i <= |e1.ips| && i <= |e2.ips| && e1.ips[..i] == e2.ips[..i]
    {
      if |e1.ips| <= i && |e2.ips| <= i {
        assert e1.ips == e1.ips[..i] && e2.ips == e2.ips[..i];
        return true;
      }
      if |e1.ips| <= i || |e2.ips| <= i || e1.ips[i] != e2.ips[i] {
        DifferAt(e1.ips, e2.ips, i, n);
        return false;
      }
    }
    return true;
  }

  lemma DifferAt(a: seq<Addr>, b: seq<Addr>, i: nat, n: nat)
    requires i < n && i <= |a| && i <= |b| && (i < |a| || i < |b|) && (i < |a| && i < |b| ==> a[i] != b[i])
    ensures !Alike(a, b, n)
  {
    if n <= |a| && n <= |b| { assert a[..n][i] == a[i] && b[..n][i] == b[i]; }
  }

  /** VG_(eq_ExeContext): the same trace, or the same two or four callers on top; at full resolution, the same pointer.
      A null context is like no other. */
  method EqExeContext(res: Resolution, e1: ExeContext?, e2: ExeContext?) returns (same: bool)
    ensures e1 == null || e2 == null ==> !same
    ensures e1 != null && e2 != null && res == LowRes ==>
      (same <==> e1.ips == e2.ips || (2 <= |e1.ips| && 2 <= |e2.ips| && e1.ips[..2] == e2.ips[..2]))
    ensures e1 != null && e2 != null && res == MedRes ==>
      (same <==> e1.ips == e2.ips || (4 <= |e1.ips| && 4 <= |e2.ips| && e1.ips[..4] == e2.ips[..4]))
    ensures e1 != null && e2 != null && res == HighRes ==> (same <==> e1 == e2)
  {
    if e1 == null || e2 == null {
      return false;
    }
    match res {
      case LowRes => same := EqTop(e1, e2, 2);
      case MedRes => same := EqTop(e1, e2, 4);
      case HighRes => same := e1 == e2;
    }
  }

  class ExeTable {
    var htab: array<ExeContext?>
    var sizeIdx: nat
    var nextEcu: nat
    var totStored: nat
    var ctr: nat

    ghost var chains: seq<seq<ExeContext>>
    /** All contexts, oldest first. */
    ghost var order: seq<ExeContext>

    ghost predicate Shaped()
      reads this, htab, order
    {
      && sizeIdx < N_PRIMES && htab.Length == |chains| == Prime(sizeIdx)
      && Placed(chains, Elems(order)) && InMemory(htab, chains, Elems(order))
    }

    ghost predicate Valid()
      reads this, htab, order
    {
      && Shaped() && Interned(order) && Numbered(order)
      && totStored == |order| && nextEcu == 4 * (|order| + 1) < WORD32
      && (totStored <= htab.Length || sizeIdx == N_PRIMES - 1)
    }

    /** init_ExeContext_storage. */
    constructor ()
      ensures Valid() && order == [] && ctr == 0 && fresh(htab)
    {
      htab := new ExeContext?[769](i => null);
      sizeIdx, nextEcu, totStored, ctr := 0, 4, 0, 0;
      chains := seq(769, i => []);
      order := [];
    }

    /** resize_ec_htab, when there is a next prime. */
    method Resize()
      requires Shaped() && sizeIdx + 1 < N_PRIMES
      modifies this`htab, this`sizeIdx, this`chains, order`chain
      ensures Shaped() && sizeIdx == old(sizeIdx) + 1 && fresh(htab)
      ensures chains == Moved(old(chains), Prime(old(sizeIdx) + 1))
    {
      hide Hash, Distinct, Placed, InMemory, PutAll, Flat, Moved, LinkedFrom;
      ghost var all := Elems(order);
      var newSize := Prime(sizeIdx + 1);
      var newTab := new ExeContext?[newSize](i => null);
      ghost var newChains: seq<seq<ExeContext>> := seq(newSize, i => []);
      ghost var moved: set<ExeContext> := {};
      ghost var none := newChains;
      MoveNone(chains, none);
      EmptyInMemory(newTab, newChains);
      AllLinked(htab, chains, all);
      for i := 0 to htab.Length
        invariant Placed(newChains, moved) && moved <= all && InMemory(newTab, newChains, moved)
        invariant newTab.Length == newSize
        invariant fresh(newTab) && htab == old(htab) && sizeIdx == old(sizeIdx) && chains == old(chains)
        invariant order == old(order) && newChains == PutAll(none, Flat(chains, i))
        invariant forall b {:trigger chains[b]} :: i <= b < |chains| ==> LinkedFrom(htab[b], chains[b], 0)
        invariant forall c :: c in all ==> (c in moved <==> Hash(c.ips, |chains|) < i)
      {
        OneChain(chains, all, i);
        assert forall m :: 0 <= m < |chains[i]| ==> chains[i][m] in all && chains[i][m] in old(order);
        MoveOn(chains, none, i);
        newChains, moved := MoveChain(newTab, htab[i], chains[i], newChains, moved);
      }
      AllBelow(all, |chains|);
      MoveDone(chains, none);
      SameLength(newTab, newChains, moved);
      assert moved == all;
      htab := newTab;
      chains := newChains;
      sizeIdx := sizeIdx + 1;
    }

    /** The search loop: the first context of the chain that compares equal, and the two before it. */
    method Search(hash: nat, ips: seq<Addr>, junk: (ExeContext, nat) -> Addr)
      returns (list: ExeContext?, prev: ExeContext?, prev2: ExeContext?, ghost k: nat)
      requires Shaped() && hash < htab.Length
      ensures var s := chains[hash];
              && (list == null ==> Unseen(s, ips, junk))
              && (list != null ==> FirstSame(s, k, ips, junk) && k < |s| && list == s[k])
              && (list != null ==> prev == (if k >= 1 then s[k - 1] else null) && prev2 == (if k >= 2 then s[k - 2]
                                            else null))
    {
      hide Same, Hash, Distinct;
      AllLinked(htab, chains, Elems(order));
      ghost var s := chains[hash];
      prev2, prev, list, k := null, null, htab[hash], 0;
      while list != null
        invariant LinkedFrom(list, s, k)
        invariant prev == (if k >= 1 then s[k - 1] else null) && prev2 == (if k >= 2 then s[k - 2] else null)
        invariant forall m :: 0 <= m < k ==> !Same(s[m], ips, junk)
        decreases |s| - k
      {
        var same := Compare(list, ips, junk);
        if same {
          return;
        }
        assert LinkedAt(s, k);
        prev2 := prev;
        prev := list;
        list := list.chain;
        k := k + 1;
      }
    }

    /** The chain in which a trace belongs. */
    ghost function ChainOf(ips: seq<Addr>): seq<ExeContext>
      requires |chains| > 0
      reads this`chains
    {
      chains[Hash(ips, |chains|)]
    }

    /** A find: every eighth time, the context moves up by one. */
    method MoveUp(hash: nat, list: ExeContext, prev: ExeContext?, prev2: ExeContext?, ghost k: nat)
      requires Valid() && hash < htab.Length && k < |chains[hash]| && list == chains[hash][k]
      requires prev == (if k >= 1 then chains[hash][k - 1] else null)
      requires prev2 == (if k >= 2 then chains[hash][k - 2] else null)
      modifies this`ctr, this`chains, htab, order`chain
      ensures Valid() && ctr == (old(ctr) + 1) % WORD32
      ensures chains == if old(ctr) % 8 == 0 && k > 0 then old(chains)[hash := Exchanged(old(chains)[hash], k)]
                  else old(chains)
    {
      hide Hash, Distinct, Placed, InMemory, Exchanged;
      SameLength(htab, chains, Elems(order));
      if ctr % 8 == 0 && prev != null {
        Transpose(htab, hash, prev2, prev, list, chains, Elems(order), k);
        chains := chains[hash := Exchanged(chains[hash], k)];
      }
      ctr := (ctr + 1) % WORD32;
    }

    /** A new context with the next number; it is in no chain yet. The number after the last one is 0. */
    method Make(ips: seq<Addr>) returns (r: ExeContext)
      requires Shaped() && nextEcu < WORD32
      modifies this`totStored, this`nextEcu
      ensures Shaped() && fresh(r) && r !in Elems(order) && r.ips == ips && r.ecu == old(nextEcu)
      ensures totStored == old(totStored) + 1
      ensures nextEcu == if old(nextEcu) + 4 == WORD32 then 0 else old(nextEcu) + 4
    {
      hide Hash, Distinct, Placed, InMemory;
      totStored := totStored + 1;
      r := new ExeContext(nextEcu, ips);
      nextEcu := if nextEcu + 4 == WORD32 then 0 else nextEcu + 4;
    }

    /** A new context, made and put at the front of its chain; then the table may grow. */
    method AddNew(hash: nat, ips: seq<Addr>, ghost junk: (ExeContext, nat) -> Addr) returns (ok: bool, r: ExeContext)
      requires Valid() && hash < htab.Length && hash == Hash(ips, htab.Length) && Unseen(chains[hash], ips, junk)
      modifies this, htab, order`chain
      ensures ok <==> |old(order)| + 2 < 0x4000_0000
      ensures fresh(r) && r.ips == ips && r.ecu == 4 * |old(order)| + 4 && ctr == old(ctr)
      ensures ok ==> Valid() && order == old(order) + [r]
      ensures htab == old(htab) || fresh(htab)
      ensures |old(chains)| > 0
      ensures ok ==>
        if |old(order)| < |old(chains)| || |old(chains)| == 100663319 then chains == Put(old(chains), r)
        else chains == Moved(Put(old(chains), r), Prime(old(sizeIdx) + 1))
    {
      hide Hash, Distinct, Placed, InMemory, Unseen, Interned, Numbered, Elems;
      ghost var all := Elems(order);
      SameLength(htab, chains, all);
      NewTrace(chains, all, order, ips, junk);
      r := Make(ips);
      if nextEcu == 0 {
        return false, r;
      }
      PushFront(htab, hash, r, chains, all);
      chains := Put(chains, r);
      OrderGrows(order, r);
      order := order + [r];
      SameLength(htab, chains, Elems(order));
      if totStored > htab.Length && sizeIdx < N_PRIMES - 1 {
        Resize();
      }
      ok := true;
    }

    /** record_ExeContext_wrk2. False stands for the panic after 2^30 - 1 contexts. A context is made if and only if
        none in the chain compares equal; else the first that does is returned, and at every eighth find it moves up by
        one. */
    method Record(ips: seq<Addr>, junk: (ExeContext, nat) -> Addr) returns (ok: bool, r: ExeContext, ghost k: nat)
      requires Valid() && ips != []
      modifies this, htab, order`chain
      ensures (ok ==> Valid() && r in order) && (htab == old(htab) || fresh(htab))
      ensures |old(chains)| > 0
      ensures ok <==> !Unseen(old(ChainOf(ips)), ips, junk) || |old(order)| + 2 < 0x4000_0000
      ensures Unseen(old(ChainOf(ips)), ips, junk) ==>
        r.ips == ips && r.ecu == 4 * |old(order)| + 4 && fresh(r) && ctr == old(ctr) &&
        (ok ==> order == old(order) + [r])
      ensures Unseen(old(ChainOf(ips)), ips, junk) && ok ==>
        if |old(order)| < |old(chains)| || |old(chains)| == 100663319 then chains == Put(old(chains), r)
        else chains == Moved(Put(old(chains), r), Prime(old(sizeIdx) + 1))
      ensures r.ips == ips <==> Clear(old(ChainOf(ips)), ips, junk)
      ensures !Unseen(old(ChainOf(ips)), ips, junk) ==>
        FirstSame(old(ChainOf(ips)), k, ips, junk) && r == old(ChainOf(ips))[k] && order == old(order) &&
        ctr == (old(ctr) + 1) % WORD32
      ensures !Unseen(old(ChainOf(ips)), ips, junk) ==>
        chains ==
          if old(ctr) % 8 == 0 && k > 0 then old(chains)[Hash(ips, |old(chains)|) := Exchanged(old(ChainOf(ips)), k)]
          else old(chains)
    {
      hide Hash, Distinct, Placed, InMemory, Same, Exchanged, Clear, Unseen, FirstSame, Interned, Numbered, Elems;
      ghost var all := Elems(order);
      SameLength(htab, chains, all);
      ClearIsExact(ChainOf(ips), ips, junk);
      var hash := CalcHash(ips, htab.Length);
      HashBelow(ips, htab.Length);
      var list, prev, prev2;
      list, prev, prev2, k := Search(hash, ips, junk);
      if list != null {
        InOrder(chains, order, hash, k);
        MoveUp(hash, list, prev, prev2, k);
        ok, r := true, list;
      } else {
        ok, r := AddNew(hash, ips, junk);
      }
    }

    /** VG_(get_ExeContext_from_ECU): the context with this number, or null if it was never given out. `ok` is false for
        the failed assertion that the number is a plausible ECU. */
    method FromEcu(ecu: nat) returns (ok: bool, r: ExeContext?)
      requires Valid()
      ensures ok <==> ecu > 0 && ecu % 4 == 0
      ensures ok && r != null ==> r in order && r.ecu == ecu
      ensures r == null ==> (ok ==> forall c :: c in order ==> c.ecu != ecu)
    {
      hide Distinct, Hash, Placed, InMemory;
      ghost var all := Elems(order);
      r, ok := null, PlausibleEcu(ecu);
      if !ok {
        return;
      }
      AllLinked(htab, chains, all);
      for i := 0 to htab.Length
        invariant forall c :: c in all && Hash(c.ips, |chains|) < i ==> c.ecu != ecu
      {
        OneChain(chains, all, i);
        ghost var k: nat, s := 0, chains[i];
        r := htab[i];
        while r != null
          invariant LinkedFrom(r, s, k) && forall m :: 0 <= m < k ==> s[m].ecu != ecu
          decreases |s| - k
        {
          assert LinkedAt(s, k);
          if r.ecu == ecu {
            return;
          }
          r := r.chain;
          k := k + 1;
        }
      }
      AllBelow(all, |chains|);
      r := null;
    }

    /** VG_(eq_ExeContext) on two stored contexts: at full resolution, comparing the pointers is comparing the
        traces. */
    method EqStored(res: Resolution, e1: ExeContext, e2: ExeContext) returns (same: bool)
      requires Valid() && e1 in order && e2 in order
      ensures same <==>
                || e1.ips == e2.ips
                || (res == LowRes && 2 <= |e1.ips| && 2 <= |e2.ips| && e1.ips[..2] == e2.ips[..2])
                || (res == MedRes && 4 <= |e1.ips| && 4 <= |e2.ips| && e1.ips[..4] == e2.ips[..4])
    {
      hide Placed, InMemory;
      TraceOnce(order, e1, e2);
      same := EqExeContext(res, e1, e2);
    }

    /** Looking up the number of a stored context gives back that context. */
    method EcuRoundTrip(c: ExeContext) returns (ok: bool, r: ExeContext?)
      requires Valid() && c in order
      ensures ok && r == c && c.ecu % 4 == 0 && 0 < c.ecu < WORD32
    {
      hide Placed, InMemory;
      EcuOnce(order, c, c);
      ok, r := FromEcu(c.ecu);
      if r != null { EcuOnce(order, r, c); }
    }
  }

  /** The inner loop of resize_ec_htab: all contexts of one chain go to the front of their new chains. */
  method MoveChain(newTab: array<ExeContext?>, head: ExeContext?, ghost s: seq<ExeContext>,
                   ghost newChains0: seq<seq<ExeContext>>, ghost moved0: set<ExeContext>)
    returns (ghost newChains: seq<seq<ExeContext>>, ghost moved: set<ExeContext>)
    requires Placed(newChains0, moved0) && InMemory(newTab, newChains0, moved0) && LinkedFrom(head, s, 0) && Distinct(s)
    requires forall i :: 0 <= i < |s| ==> s[i] !in moved0
    modifies newTab, s`chain
    ensures Placed(newChains, moved) && InMemory(newTab, newChains, moved) && moved == moved0 + Elems(s)
    ensures |newChains0| > 0 && newChains == PutAll(newChains0, s)
  {
    hide Hash, Placed, InMemory, PutAll, Put;
    newChains, moved := newChains0, moved0;
    SameLength(newTab, newChains, moved);
    NonePut(newChains0, s);
    var cur := head;
    ghost var k: nat := 0;
    while cur != null
      invariant Placed(newChains, moved) && InMemory(newTab, newChains, moved) && newTab.Length > 0
      invariant LinkedFrom(cur, s, k) && moved == moved0 + Elems(s[..k]) && newChains == PutAll(newChains0, s[..k])
      decreases |s| - k
    {
      assert LinkedAt(s, k);
      var next := cur.chain;
      var hash := CalcHash(cur.ips, newTab.Length);
      ghost var before := forall m: nat :: k + 1 <= m < |s| ==> LinkedAt(s, m);
      SameLength(newTab, newChains, moved);
      PushFront(newTab, hash, cur, newChains, moved);
      assert before == forall m: nat :: k + 1 <= m < |s| ==> LinkedAt(s, m);
      OnePut(newChains0, s, k);
      newChains := Put(newChains, cur);
      moved := moved + {cur};
      assert s[..k + 1] == s[..k] + [cur];
      cur := next;
      k := k + 1;
    }
    assert s[..k] == s;
  }

  lemma NonePut(chains: seq<seq<ExeContext>>, s: seq<ExeContext>)
    requires |chains| > 0
    ensures PutAll(chains, s[..0]) == chains
  {
  }

  lemma OnePut(chains: seq<seq<ExeContext>>, s: seq<ExeContext>, k: nat)
    requires |chains| > 0 && k < |s|
    ensures PutAll(chains, s[..k + 1]) == Put(PutAll(chains, s[..k]), s[k])
  {
    hide Put;
    assert s[..k + 1][..k] == s[..k];
  }

  lemma MoveNone(chains: seq<seq<ExeContext>>, none: seq<seq<ExeContext>>)
    requires |none| > 0
    ensures PutAll(none, Flat(chains, 0)) == none
  {
  }

  lemma MoveOn(chains: seq<seq<ExeContext>>, none: seq<seq<ExeContext>>, i: nat)
    requires |none| > 0 && i < |chains|
    ensures PutAll(none, Flat(chains, i + 1)) == PutAll(PutAll(none, Flat(chains, i)), chains[i])
  {
    hide PutAll;
    PutAllOn(none, Flat(chains, i), chains[i]);
  }

  lemma MoveDone(chains: seq<seq<ExeContext>>, none: seq<seq<ExeContext>>)
    requires |none| > 0 && forall b :: 0 <= b < |none| ==> none[b] == []
    ensures PutAll(none, Flat(chains, |chains|)) == Moved(chains, |none|)
  {
    assert none == seq(|none|, i => []);
  }

  lemma AllBelow(all: set<ExeContext>, size: nat)
    requires size > 0
    ensures forall c :: c in all ==> Hash(c.ips, size) < size
  {
  }

  lemma SameLength(tab: array<ExeContext?>, chains: seq<seq<ExeContext>>, all: set<ExeContext>)
    requires Placed(chains, all) && InMemory(tab, chains, all)
    ensures tab.Length == |chains| > 0
  {
  }

  lemma EmptyInMemory(tab: array<ExeContext?>, chains: seq<seq<ExeContext>>)
    requires tab.Length == |chains| > 0
    requires forall b :: 0 <= b < |chains| ==> chains[b] == [] && tab[b] == null
    ensures Placed(chains, {}) && InMemory(tab, chains, {})
  {
  }

  lemma AllLinked(tab: array<ExeContext?>, chains: seq<seq<ExeContext>>, all: set<ExeContext>)
    requires Placed(chains, all) && InMemory(tab, chains, all)
    ensures tab.Length == |chains|
    ensures forall b {:trigger chains[b]} :: 0 <= b < |chains| ==> LinkedFrom(tab[b], chains[b], 0)
  {
  }

  /** Chain `b` has exactly the contexts whose hash is `b`, and shares none with another chain. */
  lemma OneChain(chains: seq<seq<ExeContext>>, all: set<ExeContext>, b: nat)
    requires Placed(chains, all) && b < |chains|
    ensures forall m :: 0 <= m < |chains[b]| ==> chains[b][m] in all && chains[b][m] in Elems(chains[b])
    ensures Distinct(chains[b]) && forall c :: c in Elems(chains[b]) <==> c in all && Hash(c.ips, |chains|) == b
    ensures forall d, m :: 0 <= d < |chains| && d != b && 0 <= m < |chains[d]| ==> chains[d][m] !in Elems(chains[b])
  {
    hide Hash;
    forall d, m | 0 <= d < |chains| && d != b && 0 <= m < |chains[d]|
      ensures chains[d][m] !in Elems(chains[b])
    {
      assert Hash(chains[d][m].ips, |chains|) == d;
    }
  }

  lemma HashBelow(ips: seq<Addr>, size: nat)
    requires size > 0
    ensures Hash(ips, size) < size
  {
  }

  lemma InOrder(chains: seq<seq<ExeContext>>, order: seq<ExeContext>, b: nat, k: nat)
    requires Placed(chains, Elems(order)) && b < |chains| && k < |chains[b]|
    ensures chains[b][k] in order
  {
  }

  /** A trace that nothing in its chain compares equal to is not stored yet. */
  lemma NewTrace(chains: seq<seq<ExeContext>>, all: set<ExeContext>, order: seq<ExeContext>, ips: seq<Addr>,
                 junk: (ExeContext, nat) -> Addr)
    requires Placed(chains, all) && all == Elems(order) && Unseen(chains[Hash(ips, |chains|)], ips, junk)
    ensures forall i :: 0 <= i < |order| ==> order[i].ips != ips
  {
    hide Hash;
    forall i | 0 <= i < |order|
      ensures order[i].ips != ips
    {
      assert order[i] in chains[Hash(order[i].ips, |chains|)];
      assert order[i].ips == ips ==> Same(order[i], ips, junk);
    }
  }

  /** A context with a new trace and the next number joins the others. */
  lemma OrderGrows(order: seq<ExeContext>, r: ExeContext)
    requires Interned(order) && Numbered(order) && r.ecu == 4 * (|order| + 1)
    requires forall i :: 0 <= i < |order| ==> order[i].ips != r.ips
    ensures Interned(order + [r]) && Numbered(order + [r]) && Elems(order + [r]) == Elems(order) + {r}
  {
  }

  /** Numbers are multiples of four, not zero, and given out once. */
  lemma EcuOnce(order: seq<ExeContext>, a: ExeContext, b: ExeContext)
    requires Numbered(order) && a in order && b in order
    ensures a.ecu % 4 == 0 && 4 <= a.ecu <= 4 * |order| && (a.ecu == b.ecu ==> a == b)
  {
    var i :| 0 <= i < |order| && order[i] == a;
    var j :| 0 <= j < |order| && order[j] == b;
  }

  /** Stored contexts are the same object exactly if they hold the same trace. */
  lemma TraceOnce(order: seq<ExeContext>, a: ExeContext, b: ExeContext)
    requires Interned(order) && a in order && b in order
    ensures a == b <==> a.ips == b.ips
  {
    var i :| 0 <= i < |order| && order[i] == a;
    var j :| 0 <= j < |order| && order[j] == b;
  }

  /** A trace, and then a longer one with the same hash, which stands in front of it. */
  method ShortThenLong(t: ExeTable) returns (a: ExeContext, b: ExeContext)
    requires t.Valid() && t.order == []
    modifies t, t.htab, t.order`chain
    ensures t.Valid() && t.order == [a, b] && fresh(a) && fresh(b) && (t.htab == old(t.htab) || fresh(t.htab))
    ensures a.ips == [0] && b.ips == [0, 0] && |t.chains| > 0 && t.ChainOf([0]) != [] && t.ChainOf([0])[0] == b
  {
    hide Exchanged, InMemory, Hash, Placed, Interned, Numbered, Elems, Clear;
    ghost var ok, k;
    var junk := (c: ExeContext, i: nat) => 1 as Addr;
    ZeroHashes();
    ChainInOrder(t, [0]);
    ok, a, k := t.Record([0], junk);
    assert t.order == [a];
    ChainInOrder(t, [0, 0]);
    assert !Same(a, [0, 0], junk) by { assert WordAt(a, 1, junk) == 1; }
    ok, b, k := t.Record([0, 0], junk);
  }

  lemma LongerInFront(s: seq<ExeContext>, junk: (ExeContext, nat) -> Addr)
    requires s != [] && s[0].ips == [0, 0]
    ensures !Unseen(s, [0], junk) && forall k :: FirstSame(s, k, [0], junk) ==> k == 0
  {
    assert Same(s[0], [0], junk);
  }

  /** The same trace, recorded twice, is given two different contexts: a longer trace with the same hash, recorded
      in between, now stands in front of it and is taken for it. */
  method SameTraceTwice() returns (a: ExeContext, b: ExeContext, c: ExeContext)
    ensures a.ips == [0] && b.ips == [0, 0] && c == b && a != c
  {
    hide Exchanged, InMemory, Hash, Placed, Interned, Numbered, Elems, Clear, Unseen, FirstSame;
    ghost var ok, k;
    var junk := (c: ExeContext, i: nat) => 1 as Addr;
    var t := new ExeTable();
    a, b := ShortThenLong(t);
    LongerInFront(t.ChainOf([0]), junk);
    ok, c, k := t.Record([0], junk);
  }

  lemma ZeroHashes()
    ensures forall size: nat {:trigger Hash([0], size)} :: size > 0 ==> Hash([0], size) == 0
    ensures forall size: nat {:trigger Hash([0, 0], size)} :: size > 0 ==> Hash([0, 0], size) == 0
  {
    var none: seq<Addr> := [];
    var one, two: seq<Addr> := [0], [0, 0];
    assert one[..0] == none && two[..1] == one;
    assert HashWord(none) == 0 && Rol19(0 ^ 0) == 0;
    assert HashWord(one) == 0;
    assert HashWord(two) == 0;
  }

  lemma ChainInOrder(t: ExeTable, ips: seq<Addr>)
    requires t.Valid()
    ensures |t.chains| == t.htab.Length > 0 && forall m :: 0 <= m < |t.ChainOf(ips)| ==> t.ChainOf(ips)[m] in t.order
  {
    HashBelow(ips, |t.chains|);
    OneChain(t.chains, Elems(t.order), Hash(ips, |t.chains|));
  }
}
