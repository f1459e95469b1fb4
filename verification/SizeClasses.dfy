/** Free-list size classes of the arena allocator (m_mallocfree.c). */
module SizeClasses {

  /** VG_MIN_MALLOC_SZB: minimum payload granularity and alignment. */
  const MIN_SZB: nat := 8
  const N_MALLOC_LISTS: nat := 112

  /** Number of the free list that holds blocks of payload size `pszB`. */
  function ListNo(pszB: nat): (l: nat)
    requires pszB % MIN_SZB == 0
    ensures l < N_MALLOC_LISTS
  {
    UnitListNo(pszB / MIN_SZB)
  }

  function UnitListNo(n: nat): (l: nat)
    ensures l < N_MALLOC_LISTS
  {
    if n < 64 then n
    else if n < 67 then 64
    else if n < 70 then 65
    else if n < 74 then 66
    else if n < 77 then 67
    else if n < 81 then 68
    else if n < 85 then 69
    else if n < 90 then 70
    else if n < 94 then 71
    else if n < 99 then 72
    else if n < 104 then 73
    else if n < 109 then 74
    else if n < 114 then 75
    else if n < 120 then 76
    else if n < 126 then 77
    else if n < 133 then 78
    else if n < 139 then 79
    else if n < 153 then 80
    else if n < 169 then 81
    else if n < 185 then 82
    else if n < 204 then 83
    else if n < 224 then 84
    else if n < 247 then 85
    else if n < 272 then 86
    else if n < 299 then 87
    else if n < 329 then 88
    else if n < 362 then 89
    else if n < 398 then 90
    else if n < 438 then 91
    else if n < 482 then 92
    else if n < 530 then 93
    else if n < 583 then 94
    else if n < 641 then 95
    else if n < 770 then 96
    else if n < 924 then 97
    else if n < 1109 then 98
    else if n < 1331 then 99
    else if n < 1597 then 100
    else if n < 1916 then 101
    else if n < 2300 then 102
    else if n < 2760 then 103
    else if n < 3312 then 104
    else if n < 3974 then 105
    else if n < 4769 then 106
    else if n < 5723 then 107
    else if n < 6868 then 108
    else if n < 8241 then 109
    else if n < 9890 then 110
    else 111
  }

  /** The smallest size, in units, that belongs to list `l`. */
  function FirstUnit(l: nat): (n: nat)
    requires l < N_MALLOC_LISTS
  {
    if l < 64 then l
    else if l == 64 then 64
    else if l == 65 then 67
    else if l == 66 then 70
    else if l == 67 then 74
    else if l == 68 then 77
    else if l == 69 then 81
    else if l == 70 then 85
    else if l == 71 then 90
    else if l == 72 then 94
    else if l == 73 then 99
    else if l == 74 then 104
    else if l == 75 then 109
    else if l == 76 then 114
    else if l == 77 then 120
    else if l == 78 then 126
    else if l == 79 then 133
    else if l == 80 then 139
    else if l == 81 then 153
    else if l == 82 then 169
    else if l == 83 then 185
    else if l == 84 then 204
    else if l == 85 then 224
    else if l == 86 then 247
    else if l == 87 then 272
    else if l == 88 then 299
    else if l == 89 then 329
    else if l == 90 then 362
    else if l == 91 then 398
    else if l == 92 then 438
    else if l == 93 then 482
    else if l == 94 then 530
    else if l == 95 then 583
    else if l == 96 then 641
    else if l == 97 then 770
    else if l == 98 then 924
    else if l == 99 then 1109
    else if l == 100 then 1331
    else if l == 101 then 1597
    else if l == 102 then 1916
    else if l == 103 then 2300
    else if l == 104 then 2760
    else if l == 105 then 3312
    else if l == 106 then 3974
    else if l == 107 then 4769
    else if l == 108 then 5723
    else if l == 109 then 6868
    else if l == 110 then 8241
    else 9890
  }

  lemma FirstUnitStep(l: nat)
    requires l + 1 < N_MALLOC_LISTS
    ensures FirstUnit(l) < FirstUnit(l + 1)
  {
  }

  lemma {:induction false} FirstUnitMonotone(k: nat, l: nat)
    requires k <= l < N_MALLOC_LISTS
    ensures FirstUnit(k) <= FirstUnit(l)
    ensures k < l ==> FirstUnit(k) < FirstUnit(l)
  {
    if k < l {
      FirstUnitMonotone(k, l - 1);
      FirstUnitStep(l - 1);
    }
  }

  /** Every list is exactly the interval of sizes from its first unit up to the next list's first unit. */
  lemma ListNoInterval(n: nat)
    ensures var l := UnitListNo(n);
            FirstUnit(l) <= n && (l + 1 < N_MALLOC_LISTS ==> n < FirstUnit(l + 1))
  {
  }

  /** The lists partition the sizes: a size is in list `l` iff it lies in the interval of `l`. */
  lemma ListNoExact(n: nat, l: nat)
    requires l < N_MALLOC_LISTS
    ensures UnitListNo(n) == l <==> FirstUnit(l) <= n && (l + 1 < N_MALLOC_LISTS ==> n < FirstUnit(l + 1))
  {
    ListNoInterval(n);
    var k := UnitListNo(n);
    if k < l {
      FirstUnitMonotone(k + 1, l);
    } else if l < k {
      FirstUnitMonotone(l + 1, k);
    }
  }

  lemma ListNoMonotone(p: nat, q: nat)
    requires p % MIN_SZB == 0 && q % MIN_SZB == 0 && p <= q
    ensures ListNo(p) <= ListNo(q)
  {
    var m, n := p / MIN_SZB, q / MIN_SZB;
    ListNoInterval(m);
    ListNoInterval(n);
    if UnitListNo(n) < UnitListNo(m) {
      FirstUnitMonotone(UnitListNo(n) + 1, UnitListNo(m));
    }
  }

  /** listNo_to_pszB_min, as a closed form. */
  function ListMin(l: nat): (p: nat)
    requires l < N_MALLOC_LISTS
  {
    MIN_SZB * FirstUnit(l)
  }

  /** listNo_to_pszB_max; `maxPsz` is the largest SizeT. */
  function ListMax(l: nat, maxPsz: nat): (p: nat)
    requires l < N_MALLOC_LISTS
  {
    if l == N_MALLOC_LISTS - 1 then maxPsz else ListMin(l + 1) - 1
  }

  /** The interval test of the sanity checker accepts exactly the sizes that the list number selects. */
  lemma ListBoundsExact(p: nat, l: nat, maxPsz: nat)
    requires l < N_MALLOC_LISTS && p % MIN_SZB == 0 && p <= maxPsz
    ensures ListNo(p) == l <==> ListMin(l) <= p <= ListMax(l, maxPsz)
  {
    ListNoExact(p / MIN_SZB, l);
  }

  /** The cache that listNo_to_pszB_min fills on its first call, by searching upwards for each list. */
  method ComputeListMins() returns (cache: seq<nat>)
    ensures |cache| == N_MALLOC_LISTS
    ensures forall l :: 0 <= l < N_MALLOC_LISTS ==> cache[l] == ListMin(l) && ListNo(cache[l]) == l
    ensures forall l, p: nat :: 0 <= l < N_MALLOC_LISTS && p < cache[l] && p % MIN_SZB == 0 ==> ListNo(p) < l
  {
    cache := [];
    for i := 0 to N_MALLOC_LISTS
      invariant |cache| == i
      invariant forall l :: 0 <= l < i ==> cache[l] == ListMin(l) && ListNo(cache[l]) == l
    {
      var pszB := 0;
      ListNoExact(FirstUnit(i), i);
      FirstUnitAttained(i);
      while ListNo(pszB) < i
        invariant pszB % MIN_SZB == 0 && pszB <= ListMin(i)
        decreases ListMin(i) - pszB
      {
        pszB := pszB + MIN_SZB;
      }
      if pszB < ListMin(i) {
        BelowFirstUnit(pszB, i);
      }
      cache := cache + [pszB];
    }
    forall l, p: nat | 0 <= l < N_MALLOC_LISTS && p < cache[l] && p % MIN_SZB == 0
      ensures ListNo(p) < l
    {
      BelowFirstUnit(p, l);
    }
  }

  /** Every list number is attained, by its own minimum. */
  lemma FirstUnitAttained(l: nat)
    requires l < N_MALLOC_LISTS
    ensures ListNo(ListMin(l)) == l
  {
    if l + 1 < N_MALLOC_LISTS { FirstUnitStep(l); }
    ListNoExact(FirstUnit(l), l);
  }

  lemma BelowFirstUnit(p: nat, l: nat)
    requires l < N_MALLOC_LISTS && p % MIN_SZB == 0 && p < ListMin(l)
    ensures ListNo(p) < l
  {
    ListNoInterval(p / MIN_SZB);
    var k := UnitListNo(p / MIN_SZB);
    if l <= k {
      FirstUnitMonotone(l, k);
    }
  }
}
