/** Hash chains of stored stack traces (m_execontext.c). */
module ExeChains {

  type Addr = bv64

  /** A stored context. Only its link changes; `ips` has its n_ips addresses. */
  class ExeContext {
    var chain: ExeContext?
    const ecu: nat
    const ips: seq<Addr>

    constructor (ecu: nat, ips: seq<Addr>)
      ensures this.ecu == ecu && this.ips == ips
    {
      this.ecu, this.ips := ecu, ips;
      chain := null;
    }
  }

  // ----- hashing

  /** ROLW by 19, for 64-bit words. */
  function Rol19(w: Addr): Addr { (w << 19) | (w >> 45) }

  function HashWord(ips: seq<Addr>): Addr {
    if ips == [] then 0 else Rol19(HashWord(ips[..|ips| - 1]) ^ ips[|ips| - 1])
  }

  function Hash(ips: seq<Addr>, size: nat): (h: nat)
    requires size > 0
    ensures h < size
  {
    HashWord(ips) as int % size
  }

  /** The hash of a trace goes on from that of the trace without its last word: exclusive or, and a rotation by 19
      bits. */
  lemma HashIs(ips: seq<Addr>, w: Addr, size: nat)
    requires size > 0
    ensures HashWord([]) == 0 && HashWord(ips + [w]) == (HashWord(ips) ^ w).RotateLeft(19)
    ensures Hash(ips, size) == HashWord(ips) as int % size
  {
    var s := ips + [w];
    assert s[..|s| - 1] == ips && s[|s| - 1] == w;
  }

  /** calc_hash. */
  method CalcHash(ips: seq<Addr>, size: nat) returns (h: nat)
    requires size > 0
    ensures h == Hash(ips, size)
  {
    var hash: Addr := 0;
    for i := 0 to |ips|
      invariant hash == HashWord(ips[..i])
    {
      assert ips[..i + 1][..i] == ips[..i];
      hash := hash ^ ips[i];
      hash := Rol19(hash);
    }
    assert ips[..|ips|] == ips;
    h := hash as int % size;
  }

  // ----- chains as values

  ghost predicate Distinct(s: seq<ExeContext>) { forall i, j :: 0 <= i < j < |s| ==> s[i] != s[j] }

  /** Every context of `all` is in the chain its hash selects, once, and there is nothing else. */
  ghost predicate Placed(chains: seq<seq<ExeContext>>, all: set<ExeContext>) {
    && |chains| > 0
    && (forall b, m :: 0 <= b < |chains| && 0 <= m < |chains[b]| ==>
          chains[b][m] in all && Hash(chains[b][m].ips, |chains|) == b)
    && (forall c :: c in all ==> c in chains[Hash(c.ips, |chains|)])
    && (forall b :: 0 <= b < |chains| ==> Distinct(chains[b]))
  }

  /** The chains with `c` put in front of the one it belongs to. */
  ghost function Put(chains: seq<seq<ExeContext>>, c: ExeContext): seq<seq<ExeContext>>
    requires |chains| > 0
  {
    var h := Hash(c.ips, |chains|);
    chains[h := [c] + chains[h]]
  }

  /** The contexts put in front, one after the other. */
  ghost function PutAll(chains: seq<seq<ExeContext>>, s: seq<ExeContext>): (r: seq<seq<ExeContext>>)
    requires |chains| > 0
    ensures |r| == |chains|
  {
    if s == [] then chains else Put(PutAll(chains, s[..|s| - 1]), s[|s| - 1])
  }

  lemma {:induction false} PutAllOn(chains: seq<seq<ExeContext>>, s: seq<ExeContext>, t: seq<ExeContext>)
    requires |chains| > 0
    ensures PutAll(chains, s + t) == PutAll(PutAll(chains, s), t)
  {
    hide Put;
    if t == [] {
      assert s + t == s;
    } else {
      PutAllOn(chains, s, t[..|t| - 1]);
      assert (s + t)[..|s + t| - 1] == s + t[..|t| - 1];
    }
  }

  /** The contexts of the first `n` chains, one chain after the other. */
  ghost function Flat(chains: seq<seq<ExeContext>>, n: nat): seq<ExeContext>
    requires n <= |chains|
  {
    if n == 0 then [] else Flat(chains, n - 1) + chains[n - 1]
  }

  /** The chains of a table of `size` entries into which all contexts have been moved. */
  ghost function Moved(chains: seq<seq<ExeContext>>, size: nat): seq<seq<ExeContext>>
    requires size > 0
  {
    PutAll(seq(size, i => []), Flat(chains, |chains|))
  }

  /** Each chain of the new table has the contexts whose hash selects it, in the opposite of the order in which the old
      table had them. */
  lemma MovedIs(chains: seq<seq<ExeContext>>, size: nat, b: nat)
    requires b < size
    ensures |Moved(chains, size)| == size && Moved(chains, size)[b] == Selected(Flat(chains, |chains|), size, b)
  {
    PutAllIs(seq(size, i => []), Flat(chains, |chains|), b);
  }

  /** The contexts of a chain that has had others put in front: those whose hash selects it, the last one first, and
      then what was there. */
  lemma {:induction false} PutAllIs(chains: seq<seq<ExeContext>>, s: seq<ExeContext>, b: nat)
    requires b < |chains|
    ensures PutAll(chains, s)[b] == Selected(s, |chains|, b) + chains[b]
  {
    hide Hash;
    if s != [] { PutAllIs(chains, s[..|s| - 1], b); }
  }

  /** The contexts whose hash is `b`, the last one first. */
  ghost function Selected(s: seq<ExeContext>, size: nat, b: nat): seq<ExeContext>
    requires size > 0
  {
    if s == [] then []
    else
      var rest := Selected(s[..|s| - 1], size, b);
      if Hash(s[|s| - 1].ips, size) == b then [s[|s| - 1]] + rest else rest
  }

  lemma PutPlaced(chains: seq<seq<ExeContext>>, all: set<ExeContext>, c: ExeContext)
    requires Placed(chains, all) && c !in all
    ensures Placed(Put(chains, c), all + {c})
  {
    hide Hash;
    var h, chains' := Hash(c.ips, |chains|), Put(chains, c);
    forall x | x in all + {c}
      ensures x in chains'[Hash(x.ips, |chains'|)]
    {
      if x == c {
        assert chains'[h][0] == c;
      } else if Hash(x.ips, |chains|) == h {
        var m :| 0 <= m < |chains[h]| && chains[h][m] == x;
        assert chains'[h][m + 1] == x;
      }
    }
  }

  ghost function Exchanged(s: seq<ExeContext>, k: nat): seq<ExeContext>
    requires 0 < k < |s|
  {
    s[k - 1 := s[k]][k := s[k - 1]]
  }

  /** Two neighbours have changed places. */
  lemma ExchangedIs(s: seq<ExeContext>, k: nat)
    requires 0 < k < |s|
    ensures Exchanged(s, k) == s[..k - 1] + [s[k], s[k - 1]] + s[k + 1..]
  {
    var t := s[..k - 1] + [s[k], s[k - 1]] + s[k + 1..];
    assert |t| == |s|;
    forall i | 0 <= i < |s|
      ensures t[i] == Exchanged(s, k)[i]
    {
      if i > k { assert t[i] == s[k + 1..][i - (k + 1)]; }
    }
  }

  lemma ExchangePlaced(chains: seq<seq<ExeContext>>, all: set<ExeContext>, b: nat, k: nat)
    requires Placed(chains, all) && b < |chains| && 0 < k < |chains[b]|
    ensures Placed(chains[b := Exchanged(chains[b], k)], all)
  {
    hide Hash;
    var s, chains' := chains[b], chains[b := Exchanged(chains[b], k)];
    forall c | c in all
      ensures c in chains'[Hash(c.ips, |chains|)]
    {
      if Hash(c.ips, |chains|) == b {
        var m :| 0 <= m < |s| && s[m] == c;
        assert chains'[b][if m == k then k - 1 else if m == k - 1 then k else m] == c;
      }
    }
  }

  // ----- chains in memory

  /** The link of the context at position `i`. */
  ghost predicate LinkedAt(s: seq<ExeContext>, i: nat)
    requires i < |s|
    reads s[i]
  {
    s[i].chain == if i + 1 < |s| then s[i + 1] else null
  }

  /** From `p`, the links lead through `s` from position `k` on. */
  ghost predicate LinkedFrom(p: ExeContext?, s: seq<ExeContext>, k: nat)
    reads s
  {
    && k <= |s| && p == (if k < |s| then s[k] else null)
    && forall i: nat {:trigger LinkedAt(s, i)} :: k <= i < |s| ==> LinkedAt(s, i)
  }

  ghost predicate InMemory(tab: array<ExeContext?>, chains: seq<seq<ExeContext>>, all: set<ExeContext>)
    requires Placed(chains, all)
    reads tab, all
  {
    && tab.Length == |chains|
    && forall b {:trigger chains[b]} :: 0 <= b < |chains| ==>
         (forall m :: 0 <= m < |chains[b]| ==> chains[b][m] in all) && LinkedFrom(tab[b], chains[b], 0)
  }

  /** Link a context in at the front of its chain. */
  method PushFront(tab: array<ExeContext?>, h: nat, c: ExeContext, ghost chains: seq<seq<ExeContext>>,
                   ghost all: set<ExeContext>)
    requires Placed(chains, all) && InMemory(tab, chains, all) && c !in all && h < tab.Length
    requires h == Hash(c.ips, tab.Length)
    modifies tab, c`chain
    ensures Placed(Put(chains, c), all + {c}) && InMemory(tab, Put(chains, c), all + {c})
  {
    hide Hash, Distinct;
    ghost var chains' := Put(chains, c);
    PutPlaced(chains, all, c);
    c.chain := tab[h];
    tab[h] := c;
    forall b | 0 <= b < |chains|
      ensures (forall m :: 0 <= m < |chains'[b]| ==> chains'[b][m] in all + {c}) && LinkedFrom(tab[b], chains'[b], 0)
    {
      assert old(LinkedFrom(tab[b], chains[b], 0));
      forall i: nat | i < |chains'[b]|
        ensures LinkedAt(chains'[b], i)
      {
        if b != h {
          assert old(LinkedAt(chains[b], i));
        } else if i > 0 {
          assert old(LinkedAt(chains[b], i - 1));
        }
      }
    }
  }

  /** Move the context at position `k` of chain `b` one step closer to the front. */
  method Transpose(tab: array<ExeContext?>, b: nat, prev2: ExeContext?, prev: ExeContext, list: ExeContext,
                   ghost chains: seq<seq<ExeContext>>, ghost all: set<ExeContext>, ghost k: nat)
    requires Placed(chains, all) && InMemory(tab, chains, all) && b < tab.Length && 0 < k < |chains[b]|
    requires list == chains[b][k] && prev == chains[b][k - 1] && prev2 == if k >= 2 then chains[b][k - 2] else null
    modifies tab, all`chain
    ensures var chains' := chains[b := Exchanged(chains[b], k)]; Placed(chains', all) && InMemory(tab, chains', all)
  {
    hide Hash;
    ghost var s, chains' := chains[b], chains[b := Exchanged(chains[b], k)];
    ExchangePlaced(chains, all, b, k);
    assert Distinct(s) && LinkedFrom(tab[b], s, 0);
    assert LinkedAt(s, k) && LinkedAt(s, k - 1);
    if prev2 != null {
      assert LinkedAt(s, k - 2);
      assert prev2.chain == prev && prev.chain == list;
      prev2.chain := list;
      prev.chain := list.chain;
      list.chain := prev;
    } else {
      assert tab[b] == prev && prev.chain == list;
      prev.chain := list.chain;
      list.chain := prev;
      tab[b] := list;
    }
    Relinked(chains, all, b, k, chains');
    forall d | 0 <= d < |chains|
      ensures (forall m :: 0 <= m < |chains'[d]| ==> chains'[d][m] in all) && LinkedFrom(tab[d], chains'[d], 0)
    {
      forall i: nat | i < |chains'[d]|
        ensures LinkedAt(chains'[d], i)
      {
        assert old(LinkedFrom(tab[d], chains[d], 0));
        assert old(LinkedAt(chains[d], i));
        assert d == b && i + 1 == k ==> chains'[d][i + 1] == prev;
      }
      if d != b { assert old(LinkedFrom(tab[d], chains[d], 0)); }
    }
  }

  /** A context of another chain is none of those that are relinked. */
  lemma Relinked(chains: seq<seq<ExeContext>>, all: set<ExeContext>, b: nat, k: nat, chains': seq<seq<ExeContext>>)
    requires Placed(chains, all) && b < |chains| && 0 < k < |chains[b]|
    requires chains' == chains[b := Exchanged(chains[b], k)]
    ensures forall d, i :: 0 <= d < |chains| && d != b && 0 <= i < |chains[d]| ==>
              chains[d][i] != chains[b][k] && chains[d][i] != chains[b][k - 1] &&
              (k >= 2 ==> chains[d][i] != chains[b][k - 2])
    ensures forall d, m :: 0 <= d < |chains| && 0 <= m < |chains'[d]| ==> chains'[d][m] in all
  {
    hide Hash;
    forall d, i | 0 <= d < |chains| && d != b && 0 <= i < |chains[d]|
      ensures chains[d][i] != chains[b][k] && chains[d][i] != chains[b][k - 1]
      ensures (k >= 2 ==> chains[d][i] != chains[b][k - 2])
    {
      assert Hash(chains[d][i].ips, |chains|) == d;
      assert Hash(chains[b][k].ips, |chains|) == b && Hash(chains[b][k - 1].ips, |chains|) == b;
      if k >= 2 { assert Hash(chains[b][k - 2].ips, |chains|) == b; }
    }
    ExchangePlaced(chains, all, b, k);
  }
}
