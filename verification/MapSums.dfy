/** Sums over the values of finite maps. */
module MapSums {

  ghost function Pick(m: map<nat, nat>): (k: nat)
    requires |m| > 0
    ensures k in m
  {
    var k :| k in m;
    k
  }

  ghost function Sum(m: map<nat, nat>): nat
    decreases |m|
  {
    if |m| == 0 then 0 else m[Pick(m)] + Sum(m - {Pick(m)})
  }

  /** Any key may be taken out first. */
  lemma {:induction false} SumRemove(m: map<nat, nat>, k: nat)
    requires k in m
    ensures Sum(m) == m[k] + Sum(m - {k})
    decreases |m|
  {
    var j := Pick(m);
    if j != k {
      SumRemove(m - {j}, k);
      SumRemove(m - {k}, j);
      assert m - {j} - {k} == m - {k} - {j};
    }
  }

  lemma SumAdd(m: map<nat, nat>, k: nat, v: nat)
    requires k !in m
    ensures Sum(m[k := v]) == Sum(m) + v
  {
    SumRemove(m[k := v], k);
    assert m[k := v] - {k} == m;
  }

  /** The sum with `h` more for every key. */
  ghost function Total(m: map<nat, nat>, h: nat): nat
    decreases |m|
  {
    if |m| == 0 then 0 else h + m[Pick(m)] + Total(m - {Pick(m)}, h)
  }

  lemma {:induction false} TotalRemove(m: map<nat, nat>, h: nat, k: nat)
    requires k in m
    ensures Total(m, h) == h + m[k] + Total(m - {k}, h)
    decreases |m|
  {
    var j := Pick(m);
    if j != k {
      TotalRemove(m - {j}, h, k);
      TotalRemove(m - {k}, h, j);
      assert m - {j} - {k} == m - {k} - {j};
    }
  }

  lemma TotalAdd(m: map<nat, nat>, h: nat, k: nat, v: nat)
    requires k !in m
    ensures Total(m[k := v], h) == Total(m, h) + h + v
  {
    TotalRemove(m[k := v], h, k);
    assert m[k := v] - {k} == m;
  }
}
