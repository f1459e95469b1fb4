/** The Bentley-McIlroy quicksort behind VG_(ssort) (m_libcbase.c). Positions count elements, not bytes. */
module QuickSort {
  import opened SortOrder
  import opened PowersOfTwo

  /** BM_SWAP. */
  method Swap<T>(a: array<T>, i: nat, j: nat)
    requires i < a.Length && j < a.Length
    modifies a
    ensures a[..] == Swapped(old(a[..]), i, j)
  {
    var t := a[i];
    a[i] := a[j];
    a[j] := t;
  }

  /** The insertion sort for fewer than 7 elements; it is right for any number. */
  method InsertionSort<T(!new)>(a: array<T>, lo: nat, hi: nat, cmp: (T, T) -> int)
    requires lo <= hi <= a.Length && TotalPreorder(cmp)
    modifies a
    ensures Shuffled(old(a[..]), a[..], lo, hi) && Sorted(cmp, a[..], lo, hi)
  {
    hide Shuffled, TotalPreorder;
    ghost var s := a[..];
    Unshuffled(s, lo, hi);
    var pm := lo + 1;
    while pm < hi
      invariant lo < pm && (pm <= hi || pm == lo + 1) && Shuffled(s, a[..], lo, hi)
      invariant pm <= hi ==> Sorted(cmp, a[..], lo, pm)
    {
      ghost var t := a[..];
      Sink(a, lo, pm, cmp);
      ShuffledWithin(t, a[..], lo, pm + 1, lo, hi);
      ShuffledTwice(s, t, a[..], lo, hi);
      pm := pm + 1;
    }
  }

  /** Below `hi`, all is in order but for what stands before position `p`. */
  ghost predicate SortedBut<T>(cmp: (T, T) -> int, s: seq<T>, lo: nat, hi: nat, p: nat)
    requires lo <= hi <= |s|
  {
    forall i, j :: lo <= i < j < hi && j != p ==> cmp(s[i], s[j]) <= 0
  }

  /** The inner loop of the insertion sort: the element at `pm` sinks to its place. */
  method Sink<T(!new)>(a: array<T>, lo: nat, pm: nat, cmp: (T, T) -> int)
    requires lo < pm < a.Length && TotalPreorder(cmp) && Sorted(cmp, a[..], lo, pm)
    modifies a
    ensures Shuffled(old(a[..]), a[..], lo, pm + 1) && Sorted(cmp, a[..], lo, pm + 1)
  {
    hide Shuffled, TotalPreorder, Sorted, SortedBut, Swapped;
    ghost var s := a[..];
    Unshuffled(s, lo, pm + 1);
    SinkStart(cmp, s, lo, pm);
    var pl := pm;
    while pl > lo && cmp(a[pl - 1], a[pl]) > 0
      invariant lo <= pl <= pm && Shuffled(s, a[..], lo, pm + 1) && SortedBut(cmp, a[..], lo, pm + 1, pl)
      decreases pl
    {
      ghost var t := a[..];
      Swap(a, pl, pl - 1);
      SinkStep(cmp, t, lo, pm + 1, pl);
      SwapShuffles(t, pl, pl - 1, lo, pm + 1);
      assert Shuffled(t, a[..], lo, pm + 1);
      ShuffledTwice(s, t, a[..], lo, pm + 1);
      pl := pl - 1;
    }
    SinkEnd(cmp, a[..], lo, pm + 1, pl);
  }

  lemma SinkStart<T(!new)>(cmp: (T, T) -> int, s: seq<T>, lo: nat, pm: nat)
    requires lo <= pm < |s| && Sorted(cmp, s, lo, pm)
    ensures SortedBut(cmp, s, lo, pm + 1, pm)
  {
  }

  lemma SinkStep<T(!new)>(cmp: (T, T) -> int, s: seq<T>, lo: nat, hi: nat, p: nat)
    requires lo < p < hi <= |s| && TotalPreorder(cmp) && SortedBut(cmp, s, lo, hi, p) && cmp(s[p - 1], s[p]) > 0
    ensures SortedBut(cmp, Swapped(s, p, p - 1), lo, hi, p - 1)
  {
    hide TotalPreorder;
    Flip(cmp, s[p - 1], s[p]);
  }

  lemma SinkEnd<T(!new)>(cmp: (T, T) -> int, s: seq<T>, lo: nat, hi: nat, p: nat)
    requires lo <= p < hi <= |s| && TotalPreorder(cmp) && SortedBut(cmp, s, lo, hi, p)
    requires (p == lo || cmp(s[p - 1], s[p]) <= 0)
    ensures Sorted(cmp, s, lo, hi)
  {
    hide TotalPreorder;
    forall i, j | lo <= i < j < hi
      ensures cmp(s[i], s[j]) <= 0
    {
      if j == p && i < p - 1 { Chain(cmp, s[i], s[p - 1], s[p]); }
    }
  }

  // ----- the pivot

  /** `m` lies between the other two. */
  ghost predicate Between<T>(cmp: (T, T) -> int, x: T, m: T, y: T) {
    (cmp(x, m) <= 0 && cmp(m, y) <= 0) || (cmp(y, m) <= 0 && cmp(m, x) <= 0)
  }

  /** bm_med3: the position, out of three, of a median. */
  function Med3<T(!new)>(s: seq<T>, i: nat, j: nat, k: nat, cmp: (T, T) -> int): (m: nat)
    requires i < |s| && j < |s| && k < |s|
    ensures m == i || m == j || m == k
    ensures TotalPreorder(cmp) ==>
      || (m == i && Between(cmp, s[j], s[m], s[k]))
      || (m == j && Between(cmp, s[i], s[m], s[k]))
      || (m == k && Between(cmp, s[i], s[m], s[j]))
  {
    if cmp(s[i], s[j]) < 0 then
      if cmp(s[j], s[k]) < 0 then j else if cmp(s[i], s[k]) < 0 then k else i
    else
      if cmp(s[j], s[k]) > 0 then j else if cmp(s[i], s[k]) > 0 then k else i
  }

  /** Position `m` is one of the three, and what is there lies between what is at the other two. */
  ghost predicate Middle<T(!new)>(s: seq<T>, cmp: (T, T) -> int, m: nat, i: nat, j: nat, k: nat) {
    && i < |s| && j < |s| && k < |s| && (m == i || m == j || m == k)
    && ((m == i && Between(cmp, s[j], s[m], s[k])) || (m == j && Between(cmp, s[i], s[m], s[k]))
        || (m == k && Between(cmp, s[i], s[m], s[j])))
  }

  /** The middle of three middles: of three elements an eighth apart at the start, of three in the middle, of three at
      the end. */
  ghost predicate MiddleOfNine<T(!new)>(s: seq<T>, cmp: (T, T) -> int, m: nat, lo: nat, n: nat)
    requires n >= 7
  {
    exists l, c, h ::
      && Middle(s, cmp, l, lo, lo + n / 8, lo + 2 * (n / 8))
      && Middle(s, cmp, c, lo + n / 2 - n / 8, lo + n / 2, lo + n / 2 + n / 8)
      && Middle(s, cmp, h, lo + n - 1 - 2 * (n / 8), lo + n - 1 - n / 8, lo + n - 1)
      && Middle(s, cmp, m, l, c, h)
  }

  lemma Med3Middle<T(!new)>(s: seq<T>, i: nat, j: nat, k: nat, cmp: (T, T) -> int)
    requires i < |s| && j < |s| && k < |s|
    ensures TotalPreorder(cmp) ==> Middle(s, cmp, Med3(s, i, j, k, cmp), i, j, k)
  {
  }

  lemma NineMiddle<T(!new)>(s: seq<T>, lo: nat, n: nat, cmp: (T, T) -> int, l: nat, c: nat, h: nat)
    requires n >= 7 && lo + n <= |s| && TotalPreorder(cmp)
    requires n > 40
    requires l == Med3(s, lo, lo + n / 8, lo + 2 * (n / 8), cmp)
    requires c == Med3(s, lo + n / 2 - n / 8, lo + n / 2, lo + n / 2 + n / 8, cmp)
    requires h == Med3(s, lo + n - 1 - 2 * (n / 8), lo + n - 1 - n / 8, lo + n - 1, cmp)
    ensures MiddleOfNine(s, cmp, Med3(s, l, c, h, cmp), lo, n)
  {
    hide Middle, Med3, TotalPreorder;
    Med3Middle(s, lo, lo + n / 8, lo + 2 * (n / 8), cmp);
    Med3Middle(s, lo + n / 2 - n / 8, lo + n / 2, lo + n / 2 + n / 8, cmp);
    Med3Middle(s, lo + n - 1 - 2 * (n / 8), lo + n - 1 - n / 8, lo + n - 1, cmp);
    Med3Middle(s, l, c, h, cmp);
  }

  /** The position of the pivot: the middle, the median of three, or the median of three medians. */
  method ChoosePivot<T(!new)>(a: array<T>, lo: nat, n: nat, cmp: (T, T) -> int) returns (pm: nat)
    requires lo + n <= a.Length && n >= 7
    ensures lo <= pm < lo + n && (n == 7 ==> pm == lo + 3)
    ensures TotalPreorder(cmp) && 7 < n <= 40 ==> Middle(a[..], cmp, pm, lo, lo + n / 2, lo + n - 1)
    ensures TotalPreorder(cmp) && n > 40 ==> MiddleOfNine(a[..], cmp, pm, lo, n)
  {
    hide TotalPreorder, Between, Middle, MiddleOfNine, Med3;
    pm := lo + n / 2;
    if n > 7 {
      var pl, pn := lo, lo + n - 1;
      if n > 40 {
        var s := n / 8;
        assert 0 < s && 4 * s <= n / 2 && n / 2 + s < n;
        pl := Med3(a[..], pl, pl + s, pl + 2 * s, cmp);
        pm := Med3(a[..], pm - s, pm, pm + s, cmp);
        pn := Med3(a[..], pn - 2 * s, pn - s, pn, cmp);
        if TotalPreorder(cmp) { NineMiddle(a[..], lo, n, cmp, pl, pm, pn); }
      } else {
        Med3Middle(a[..], pl, pm, pn, cmp);
      }
      pm := Med3(a[..], pl, pm, pn, cmp);
    }
  }

  // ----- the partition

  ghost predicate AllEq<T>(cmp: (T, T) -> int, s: seq<T>, lo: int, hi: int, v: T)
    requires 0 <= lo && hi <= |s|
  {
    forall i :: lo <= i < hi ==> cmp(s[i], v) == 0
  }

  ghost predicate AllLess<T>(cmp: (T, T) -> int, s: seq<T>, lo: int, hi: int, v: T)
    requires 0 <= lo && hi <= |s|
  {
    forall i :: lo <= i < hi ==> cmp(s[i], v) < 0
  }

  ghost predicate AllMore<T>(cmp: (T, T) -> int, s: seq<T>, lo: int, hi: int, v: T)
    requires 0 <= lo && hi <= |s|
  {
    forall i :: lo <= i < hi ==> cmp(s[i], v) > 0
  }

  /** Where the partition stands: equal, less, not looked at yet, more, equal. */
  ghost predicate Zones<T>(cmp: (T, T) -> int, s: seq<T>, v: T, lo: nat, hi: nat, pa: int, pb: int, pc: int, pd: int) {
    && lo <= pa <= pb <= pc + 1 <= pd + 1 <= hi <= |s|
    && AllEq(cmp, s, lo, pa, v) && AllLess(cmp, s, pa, pb, v)
    && AllMore(cmp, s, pc + 1, pd + 1, v) && AllEq(cmp, s, pd + 1, hi, v)
  }

  /** A pivot that is used in place stays where it is. */
  ghost predicate PivotKept<T>(s: seq<T>, v: T, lo: nat, pa: int, pb: int, inPlace: bool) {
    inPlace ==> lo < |s| && s[lo] == v && (pa > lo || pb == lo)
  }

  lemma UpEqual<T(!new)>(cmp: (T, T) -> int, s: seq<T>, v: T, lo: nat, hi: nat, pa: int, pb: int, pc: int, pd: int)
    requires Zones(cmp, s, v, lo, hi, pa, pb, pc, pd) && pb <= pc && cmp(s[pb], v) == 0
    ensures Zones(cmp, Swapped(s, pa, pb), v, lo, hi, pa + 1, pb + 1, pc, pd)
  {
  }

  lemma UpLess<T(!new)>(cmp: (T, T) -> int, s: seq<T>, v: T, lo: nat, hi: nat, pa: int, pb: int, pc: int, pd: int)
    requires Zones(cmp, s, v, lo, hi, pa, pb, pc, pd) && pb <= pc && cmp(s[pb], v) < 0
    ensures Zones(cmp, s, v, lo, hi, pa, pb + 1, pc, pd)
  {
  }

  lemma DownEqual<T(!new)>(cmp: (T, T) -> int, s: seq<T>, v: T, lo: nat, hi: nat, pa: int, pb: int, pc: int, pd: int)
    requires Zones(cmp, s, v, lo, hi, pa, pb, pc, pd) && pb <= pc && cmp(s[pc], v) == 0
    ensures Zones(cmp, Swapped(s, pc, pd), v, lo, hi, pa, pb, pc - 1, pd - 1)
  {
  }

  lemma DownMore<T(!new)>(cmp: (T, T) -> int, s: seq<T>, v: T, lo: nat, hi: nat, pa: int, pb: int, pc: int, pd: int)
    requires Zones(cmp, s, v, lo, hi, pa, pb, pc, pd) && pb <= pc && cmp(s[pc], v) > 0
    ensures Zones(cmp, s, v, lo, hi, pa, pb, pc - 1, pd)
  {
  }

  lemma Exchange<T(!new)>(cmp: (T, T) -> int, s: seq<T>, v: T, lo: nat, hi: nat, pa: int, pb: int, pc: int, pd: int)
    requires Zones(cmp, s, v, lo, hi, pa, pb, pc, pd) && pb < pc && cmp(s[pb], v) > 0 && cmp(s[pc], v) < 0
    ensures Zones(cmp, Swapped(s, pb, pc), v, lo, hi, pa, pb + 1, pc - 1, pd)
  {
  }

  lemma StartZones<T(!new)>(cmp: (T, T) -> int, s: seq<T>, v: T, lo: nat, hi: nat)
    requires lo < hi <= |s|
    ensures Zones(cmp, s, v, lo, hi, lo, lo, hi - 1, hi - 1)
  {
  }

  /** The facts that the two scans and their exchange keep. */
  ghost predicate Going<T(!new)>(cmp: (T, T) -> int, s: seq<T>, t: seq<T>, v: T, lo: nat, hi: nat, pa: int, pb: int,
                                 pc: int, pd: int, inPlace: bool) {
    Zones(cmp, t, v, lo, hi, pa, pb, pc, pd) && Shuffled(s, t, lo, hi) && PivotKept(t, v, lo, pa, pb, inPlace)
  }

  lemma Moved<T>(s: seq<T>, t: seq<T>, i: nat, j: nat, lo: nat, hi: nat)
    requires Shuffled(s, t, lo, hi) && lo <= i < hi && lo <= j < hi
    ensures i < |t| && j < |t| && Shuffled(s, Swapped(t, i, j), lo, hi)
  {
    SwapShuffles(t, i, j, lo, hi);
    ShuffledTwice(s, t, Swapped(t, i, j), lo, hi);
  }

  /** The first inner loop: up to an element that is more than the pivot. */
  method ScanUp<T(!new)>(a: array<T>, lo: nat, hi: nat, cmp: (T, T) -> int, v: T, inPlace: bool,
                         pa0: nat, pb0: nat, pc: int, pd: int, ghost s: seq<T>) returns (pa: nat, pb: nat)
    requires TotalPreorder(cmp) && lo < hi && Going(cmp, s, a[..], v, lo, hi, pa0, pb0, pc, pd, inPlace)
    modifies a
    ensures pb >= pb0 && Going(cmp, s, a[..], v, lo, hi, pa, pb, pc, pd, inPlace)
    ensures pb > pc || cmp(a[pb], v) > 0
  {
    hide TotalPreorder, Shuffled, AllEq, AllLess, AllMore;
    pa, pb := pa0, pb0;
    while pb <= pc && cmp(a[pb], if inPlace then a[lo] else v) <= 0
      invariant pb0 <= pb && Going(cmp, s, a[..], v, lo, hi, pa, pb, pc, pd, inPlace)
      decreases pc - pb
    {
      ghost var t := a[..];
      Flip(cmp, v, v);
      if cmp(a[pb], if inPlace then a[lo] else v) == 0 {
        Swap(a, pa, pb);
        UpEqual(cmp, t, v, lo, hi, pa, pb, pc, pd);
        Moved(s, t, pa, pb, lo, hi);
        pa := pa + 1;
      } else {
        UpLess(cmp, t, v, lo, hi, pa, pb, pc, pd);
      }
      pb := pb + 1;
    }
  }

  /** The second inner loop: down to an element that is less than the pivot. */
  method ScanDown<T(!new)>(a: array<T>, lo: nat, hi: nat, cmp: (T, T) -> int, v: T, inPlace: bool,
                           pa: nat, pb: nat, pc0: int, pd0: int, ghost s: seq<T>) returns (pc: int, pd: int)
    requires lo < hi && Going(cmp, s, a[..], v, lo, hi, pa, pb, pc0, pd0, inPlace) && (inPlace ==> pa > lo)
    modifies a
    ensures pc <= pc0 && Going(cmp, s, a[..], v, lo, hi, pa, pb, pc, pd, inPlace)
    ensures pb > pc || cmp(a[pc], v) < 0
    ensures pb < a.Length ==> pb <= pc ==> a[pb] == old(a[pb])
  {
    hide Shuffled, AllEq, AllLess, AllMore;
    pc, pd := pc0, pd0;
    while pc >= pb && cmp(a[pc], if inPlace then a[lo] else v) >= 0
      invariant pc <= pc0 && Going(cmp, s, a[..], v, lo, hi, pa, pb, pc, pd, inPlace)
      invariant pb < a.Length ==> pb <= pc ==> a[pb] == old(a[pb])
      decreases pc
    {
      ghost var t := a[..];
      if cmp(a[pc], if inPlace then a[lo] else v) == 0 {
        Swap(a, pc, pd);
        DownEqual(cmp, t, v, lo, hi, pa, pb, pc, pd);
        Moved(s, t, pc, pd, lo, hi);
        pd := pd - 1;
      } else {
        DownMore(cmp, t, v, lo, hi, pa, pb, pc, pd);
      }
      pc := pc - 1;
    }
  }

  /** Where two elements are to be exchanged, both beyond a pivot that is used in place. */
  lemma ExchangeGoing<T(!new)>(cmp: (T, T) -> int, s: seq<T>, t: seq<T>, v: T, lo: nat, hi: nat, pa: int, pb: int,
                               pc: int, pd: int, inPlace: bool)
    requires lo < hi && Going(cmp, s, t, v, lo, hi, pa, pb, pc, pd, inPlace) && pb < pc && cmp(t[pb], v) > 0
    requires cmp(t[pc], v) < 0
    requires inPlace ==> pa > lo
    ensures Going(cmp, s, Swapped(t, pb, pc), v, lo, hi, pa, pb + 1, pc - 1, pd, inPlace)
  {
    hide Shuffled, AllEq, AllLess, AllMore;
    Exchange(cmp, t, v, lo, hi, pa, pb, pc, pd);
    Moved(s, t, pb, pc, lo, hi);
  }

  /** The partition loop. At least one element is found equal to the pivot. */
  method Partition<T(!new)>(a: array<T>, lo: nat, hi: nat, cmp: (T, T) -> int, v: T, inPlace: bool, ghost k: nat)
    returns (pa: nat, pb: nat, pc: int, pd: int)
    requires TotalPreorder(cmp) && lo <= k < hi <= a.Length && a[k] == v && (inPlace ==> k == lo)
    modifies a
    ensures pb == pc + 1 && Zones(cmp, a[..], v, lo, hi, pa, pb, pc, pd) && Shuffled(old(a[..]), a[..], lo, hi)
    ensures pa > lo || pd < hi - 1
  {
    hide TotalPreorder, Shuffled, AllEq, AllLess, AllMore, Going, Swapped;
    ghost var s := a[..];
    StartGoing(cmp, s, v, lo, hi, inPlace);
    pa, pb, pc, pd := lo, lo, hi - 1, hi - 1;
    while true
      invariant Going(cmp, s, a[..], v, lo, hi, pa, pb, pc, pd, inPlace) && (pb == lo ==> pc == hi - 1)
      decreases pc - pb
    {
      GoingZones(cmp, s, a[..], v, lo, hi, pa, pb, pc, pd, inPlace);
      pa, pb := ScanUp(a, lo, hi, cmp, v, inPlace, pa, pb, pc, pd, s);
      GoingZones(cmp, s, a[..], v, lo, hi, pa, pb, pc, pd, inPlace);
      PastPivot(cmp, s, a[..], v, lo, hi, pa, pb, pc, pd, inPlace);
      pc, pd := ScanDown(a, lo, hi, cmp, v, inPlace, pa, pb, pc, pd, s);
      GoingZones(cmp, s, a[..], v, lo, hi, pa, pb, pc, pd, inPlace);
      if pb > pc {
        break;
      }
      ghost var t := a[..];
      Swap(a, pb, pc);
      ExchangeGoing(cmp, s, t, v, lo, hi, pa, pb, pc, pd, inPlace);
      pb := pb + 1;
      pc := pc - 1;
    }
    SomeEqual(cmp, s, a[..], v, lo, hi, pa, pb, pc, pd, k);
  }

  lemma StartGoing<T(!new)>(cmp: (T, T) -> int, s: seq<T>, v: T, lo: nat, hi: nat, inPlace: bool)
    requires lo < hi <= |s| && (inPlace ==> s[lo] == v)
    ensures Going(cmp, s, s, v, lo, hi, lo, lo, hi - 1, hi - 1, inPlace)
  {
    Unshuffled(s, lo, hi);
    StartZones(cmp, s, v, lo, hi);
  }

  lemma GoingZones<T(!new)>(cmp: (T, T) -> int, s: seq<T>, t: seq<T>, v: T, lo: nat, hi: nat, pa: int, pb: int, pc: int,
                            pd: int, inPlace: bool)
    requires Going(cmp, s, t, v, lo, hi, pa, pb, pc, pd, inPlace)
    ensures Zones(cmp, t, v, lo, hi, pa, pb, pc, pd) && Shuffled(s, t, lo, hi)
  {
  }

  /** After the first scan, a pivot that is used in place has been passed. */
  lemma PastPivot<T(!new)>(cmp: (T, T) -> int, s: seq<T>, t: seq<T>, v: T, lo: nat, hi: nat, pa: int, pb: int, pc: int,
                           pd: int, inPlace: bool)
    requires TotalPreorder(cmp) && lo < hi && Going(cmp, s, t, v, lo, hi, pa, pb, pc, pd, inPlace)
    requires (pb == lo ==> pc == hi - 1) && (pb > pc || cmp(t[pb], v) > 0)
    ensures inPlace ==> pa > lo
  {
    hide TotalPreorder, Shuffled, AllEq, AllLess, AllMore;
    Flip(cmp, v, v);
  }

  lemma SomeEqual<T(!new)>(cmp: (T, T) -> int, s: seq<T>, t: seq<T>, v: T, lo: nat, hi: nat, pa: int, pb: int, pc: int,
                           pd: int, k: nat)
    requires TotalPreorder(cmp) && Shuffled(s, t, lo, hi) && lo <= k < hi && s[k] == v
    requires Zones(cmp, t, v, lo, hi, pa, pb, pc, pd) && pb == pc + 1
    ensures pa > lo || pd < hi - 1
  {
    hide TotalPreorder;
    Flip(cmp, v, v);
    var j := CameFrom(t, s, lo, hi, k);
  }

  // ----- bringing the equal elements to the middle

  /** The `n` elements from `i` and from `j` have changed places, and no others. */
  ghost predicate Traded<T>(s: seq<T>, t: seq<T>, i: nat, j: nat, n: nat) {
    && |s| == |t| && i + n <= j && j + n <= |s|
    && (forall p :: i <= p < i + n ==> t[p] == s[p + j - i])
    && (forall p :: j <= p < j + n ==> t[p] == s[p + i - j])
    && (forall p :: 0 <= p < |s| && !(i <= p < i + n) && !(j <= p < j + n) ==> t[p] == s[p])
  }

  /** BM_VECSWAP. */
  method VecSwap<T>(a: array<T>, i: nat, j: nat, n: nat, ghost lo: nat, ghost hi: nat)
    requires lo <= i && i + n <= j && j + n <= hi <= a.Length
    modifies a
    ensures Traded(old(a[..]), a[..], i, j, n) && Shuffled(old(a[..]), a[..], lo, hi)
  {
    hide Shuffled, Traded, Swapped;
    ghost var s := a[..];
    Unshuffled(s, lo, hi);
    NoTrade(s, i, j);
    for k := 0 to n
      invariant Traded(s, a[..], i, j, k) && Shuffled(s, a[..], lo, hi)
    {
      ghost var t := a[..];
      Swap(a, i + k, j + k);
      assert a[..] == Swapped(t, i + k, j + k);
      Moved(s, t, i + k, j + k, lo, hi);
      TradeOneMore(s, t, i, j, k);
    }
  }

  lemma NoTrade<T>(s: seq<T>, i: nat, j: nat)
    requires i <= j <= |s|
    ensures Traded(s, s, i, j, 0)
  {
  }

  lemma TradeOneMore<T>(s: seq<T>, t: seq<T>, i: nat, j: nat, k: nat)
    requires Traded(s, t, i, j, k) && i + k < j && j + k < |s|
    ensures Traded(s, Swapped(t, i + k, j + k), i, j, k + 1)
  {
  }

  /** Less, equal, more. */
  ghost predicate Parted<T>(cmp: (T, T) -> int, s: seq<T>, v: T, lo: nat, m1: nat, m2: nat, hi: nat) {
    && lo <= m1 <= m2 <= hi <= |s|
    && AllLess(cmp, s, lo, m1, v) && AllEq(cmp, s, m1, m2, v) && AllMore(cmp, s, m2, hi, v)
  }

  lemma TradeLeft<T(!new)>(cmp: (T, T) -> int, s: seq<T>, t: seq<T>, v: T, lo: nat, hi: nat, pa: nat, pb: nat, n: nat)
    requires lo <= pa <= pb <= hi <= |s| && AllEq(cmp, s, lo, pa, v) && AllLess(cmp, s, pa, pb, v)
    requires n == (if pa - lo < pb - pa then pa - lo else pb - pa) && Traded(s, t, lo, pb - n, n)
    ensures AllLess(cmp, t, lo, lo + pb - pa, v) && AllEq(cmp, t, lo + pb - pa, pb, v)
  {
  }

  lemma TradeRight<T(!new)>(cmp: (T, T) -> int, s: seq<T>, t: seq<T>, v: T, lo: nat, hi: nat, pb: nat, pd: int, n: nat)
    requires lo <= pb <= pd + 1 <= hi <= |s| && AllMore(cmp, s, pb, pd + 1, v) && AllEq(cmp, s, pd + 1, hi, v)
    requires n == (if pd + 1 - pb < hi - pd - 1 then pd + 1 - pb else hi - pd - 1) && Traded(s, t, pb, hi - n, n)
    ensures AllEq(cmp, t, pb, hi - (pd + 1 - pb), v) && AllMore(cmp, t, hi - (pd + 1 - pb), hi, v)
  {
  }

  /** The two vector swaps: the equal elements come to the middle. */
  method Gather<T(!new)>(a: array<T>, lo: nat, hi: nat, ghost cmp: (T, T) -> int, ghost v: T, pa: nat, pb: nat, pc: int,
                         pd: int)
    requires Zones(cmp, a[..], v, lo, hi, pa, pb, pc, pd) && pb == pc + 1 && hi <= a.Length
    modifies a
    ensures Parted(cmp, a[..], v, lo, lo + (pb - pa), hi - (pd - pc), hi) && Shuffled(old(a[..]), a[..], lo, hi)
  {
    hide Shuffled, AllEq, AllLess, AllMore, Traded;
    ghost var s := a[..];
    var n := if pa - lo < pb - pa then pa - lo else pb - pa;
    VecSwap(a, lo, pb - n, n, lo, hi);
    ghost var t := a[..];
    TradeLeft(cmp, s, t, v, lo, hi, pa, pb, n);
    TradedElsewhere(cmp, s, t, v, lo, pb - n, n, pb, pd + 1, hi);
    n := if pd - pc < hi - pd - 1 then pd - pc else hi - pd - 1;
    VecSwap(a, pb, hi - n, n, lo, hi);
    TradeRight(cmp, t, a[..], v, lo, hi, pb, pd, n);
    TradedAbove(cmp, t, a[..], v, pb, hi - n, n, lo, lo + (pb - pa));
    ShuffledTwice(s, t, a[..], lo, hi);
    EqualJoined(cmp, a[..], v, lo + (pb - pa), pb, hi - (pd - pc));
  }

  lemma TradedElsewhere<T(!new)>(cmp: (T, T) -> int, s: seq<T>, t: seq<T>, v: T, i: nat, j: nat, n: nat, pb: nat,
                                 pe: nat, hi: nat)
    requires Traded(s, t, i, j, n) && j + n == pb <= pe <= hi <= |s|
    requires AllMore(cmp, s, pb, pe, v) && AllEq(cmp, s, pe, hi, v)
    ensures AllMore(cmp, t, pb, pe, v) && AllEq(cmp, t, pe, hi, v)
  {
  }

  lemma TradedAbove<T(!new)>(cmp: (T, T) -> int, s: seq<T>, t: seq<T>, v: T, i: nat, j: nat, n: nat, lo: nat, m: nat)
    requires Traded(s, t, i, j, n) && lo <= m <= i && AllLess(cmp, s, lo, m, v) && AllEq(cmp, s, m, i, v)
    ensures AllLess(cmp, t, lo, m, v) && AllEq(cmp, t, m, i, v)
  {
  }

  lemma EqualJoined<T(!new)>(cmp: (T, T) -> int, s: seq<T>, v: T, l: nat, m: nat, h: nat)
    requires l <= m <= h <= |s| && AllEq(cmp, s, l, m, v) && AllEq(cmp, s, m, h, v)
    ensures AllEq(cmp, s, l, h, v)
  {
  }

  /** A parted range is in order but for the insides of its two outer parts. */
  lemma PartedInOrder<T(!new)>(cmp: (T, T) -> int, s: seq<T>, v: T, lo: nat, m1: nat, m2: nat, hi: nat)
    requires TotalPreorder(cmp) && Parted(cmp, s, v, lo, m1, m2, hi)
    ensures InOrderBut(cmp, s, lo, hi, lo, m1, m2, hi)
  {
    hide TotalPreorder;
    forall i, j | lo <= i < j < hi && Across(i, j, lo, m1, m2, hi)
      ensures cmp(s[i], s[j]) <= 0
    {
      Flip(cmp, s[j], v);
      Chain(cmp, s[i], v, s[j]);
    }
  }

  /** The same inside a larger range that is otherwise in order. */
  lemma PartedInside<T(!new)>(cmp: (T, T) -> int, s: seq<T>, t: seq<T>, lo: nat, hi: nat, l: nat, m1: nat, m2: nat,
                              h: nat)
    requires InOrderBut(cmp, s, lo, hi, l, h, l, l) && Shuffled(s, t, l, h)
    requires InOrderBut(cmp, t, l, h, l, m1, m2, h)
    ensures InOrderBut(cmp, t, lo, hi, l, m1, m2, h)
  {
    hide Shuffled;
    PartShuffled(cmp, s, t, lo, hi, l, h, l, l);
    forall i, j | lo <= i < j < hi && Across(i, j, l, m1, m2, h)
      ensures cmp(t[i], t[j]) <= 0
    {
      if !(l <= i && j < h) { assert Across(i, j, l, h, l, l); }
    }
  }

  /** BM_PVINIT: the pivot is moved to the front, or copied. */
  method InitPivot<T>(a: array<T>, lo: nat, hi: nat, pm: nat, inPlace: bool) returns (v: T, ghost k: nat)
    requires lo <= pm < hi <= a.Length
    modifies a
    ensures Shuffled(old(a[..]), a[..], lo, hi) && lo <= k < hi && a[k] == v && (inPlace ==> k == lo)
  {
    ghost var s := a[..];
    v, k := a[pm], pm;
    if inPlace {
      Swap(a, lo, pm);
      SwapShuffles(s, lo, pm, lo, hi);
      assert a[..][lo] == v;
      k := lo;
    }
  }

  /** One round of bm_qsort, up to the recursion: the range is parted around some pivot. `inPlace` is swaptype != 0. */
  method Part<T(!new)>(a: array<T>, lo: nat, n: nat, cmp: (T, T) -> int, inPlace: bool) returns (s1: nat, s2: nat)
    requires lo + n <= a.Length && n >= 7 && TotalPreorder(cmp)
    modifies a
    ensures s1 + s2 < n && Shuffled(old(a[..]), a[..], lo, lo + n)
    ensures InOrderBut(cmp, a[..], lo, lo + n, lo, lo + s1, lo + n - s2, lo + n)
  {
    hide Shuffled, TotalPreorder, AllLess, AllEq, AllMore, InOrderBut, Middle, MiddleOfNine;
    ghost var s := a[..];
    var pm := ChoosePivot(a, lo, n, cmp);
    var v, k := InitPivot(a, lo, lo + n, pm, inPlace);
    ghost var t := a[..];
    var pa, pb, pc, pd := Partition(a, lo, lo + n, cmp, v, inPlace, k);
    ghost var u := a[..];
    Gather(a, lo, lo + n, cmp, v, pa, pb, pc, pd);
    ShuffledTwice(s, t, u, lo, lo + n);
    ShuffledTwice(s, u, a[..], lo, lo + n);
    s1, s2 := pb - pa, pd - pc;
    PartedInOrder(cmp, a[..], v, lo, lo + s1, lo + n - s2, lo + n);
  }

  /** bm_qsort: the range becomes a sorted rearrangement of itself. `depth` is the number of calls that are
      open inside this one at the deepest point; it never exceeds the base-2 logarithm of `n0`. */
  method QSort<T(!new)>(a: array<T>, lo0: nat, n0: nat, cmp: (T, T) -> int, inPlace: bool) returns (ghost depth: nat)
    requires lo0 + n0 <= a.Length && TotalPreorder(cmp)
    modifies a
    ensures Shuffled(old(a[..]), a[..], lo0, lo0 + n0) && Sorted(cmp, a[..], lo0, lo0 + n0)
    ensures n0 > 0 ==> Pow2(depth) <= n0
    decreases n0
  {
    hide Shuffled, TotalPreorder, Sorted, InOrderBut;
    ghost var s, hi0 := a[..], lo0 + n0;
    Unshuffled(s, lo0, hi0);
    AllOpen(cmp, s, lo0, hi0);
    var lo: nat, n: nat := lo0, n0;
    depth := 0;
    while true
      invariant lo0 <= lo && lo + n <= hi0 && n <= n0 && (n0 > 0 ==> Pow2(depth) <= n0)
      invariant Shuffled(s, a[..], lo0, hi0) && InOrderBut(cmp, a[..], lo0, hi0, lo, lo + n, lo, lo)
      decreases n
    {
      ghost var t := a[..];
      if n < 7 {
        InsertionSort(a, lo, lo + n, cmp);
        Closed(cmp, s, t, a[..], lo0, hi0, lo, lo + n, lo, lo);
        NothingOpen(cmp, a[..], lo0, hi0, lo, lo);
        return;
      }
      var s1, s2 := Part(a, lo, n, cmp, inPlace);
      PartedInside(cmp, t, a[..], lo0, hi0, lo, lo + s1, lo + n - s2, lo + n);
      Widened(s, t, a[..], lo0, hi0, lo, lo + n);
      if s1 < s2 {
        ghost var d := SortPart(a, lo0, n0, lo, s1, lo + n - s2, s2, cmp, inPlace, n, s);
        depth := if depth < d then d else depth;
        if s2 > 1 {
          lo, n := lo + n - s2, s2;
        } else {
          NothingOpen(cmp, a[..], lo0, hi0, lo + n - s2, lo + n);
          return;
        }
      } else {
        SymmetricParts(cmp, a[..], lo0, hi0, lo, lo + s1, lo + n - s2, lo + n);
        ghost var d := SortPart(a, lo0, n0, lo + n - s2, s2, lo, s1, cmp, inPlace, n, s);
        depth := if depth < d then d else depth;
        if s1 > 1 {
          n := s1;
        } else {
          NothingOpen(cmp, a[..], lo0, hi0, lo, lo + s1);
          return;
        }
      }
    }
  }

  /** The explicit recursive call, on the smaller part, if it has more than one element. */
  method SortPart<T(!new)>(a: array<T>, ghost lo0: nat, ghost n0: nat, l: nat, m: nat, ghost l': nat, ghost m': nat,
                           cmp: (T, T) -> int, inPlace: bool, ghost n: nat, ghost s: seq<T>) returns (ghost depth: nat)
    requires TotalPreorder(cmp) && lo0 + n0 <= a.Length && l + m <= a.Length && m <= m' && m + m' < n <= n0
    requires Shuffled(s, a[..], lo0, lo0 + n0) && InOrderBut(cmp, a[..], lo0, lo0 + n0, l, l + m, l', l' + m')
    modifies a
    ensures Shuffled(s, a[..], lo0, lo0 + n0) && InOrderBut(cmp, a[..], lo0, lo0 + n0, l', l' + m', l', l')
    ensures n0 > 0 ==> Pow2(depth) <= n0
    decreases n0, 0
  {
    hide Shuffled, TotalPreorder, Sorted;
    ghost var t := a[..];
    depth := 0;
    if m > 1 {
      depth := QSort(a, l, m, cmp, inPlace);
      depth := depth + 1;
      Closed(cmp, s, t, a[..], lo0, lo0 + n0, l, l + m, l', l' + m');
    } else {
      Unshuffled(t, l, l + m);
      OneSorted(cmp, t, l, l + m);
      PartSorted(cmp, t, t, lo0, lo0 + n0, l, l + m, l', l' + m');
    }
  }

  lemma OneSorted<T(!new)>(cmp: (T, T) -> int, s: seq<T>, lo: nat, hi: nat)
    requires lo <= hi <= |s| && hi <= lo + 1
    ensures Sorted(cmp, s, lo, hi)
  {
  }

  lemma AllOpen<T(!new)>(cmp: (T, T) -> int, s: seq<T>, lo: nat, hi: nat)
    requires lo <= hi <= |s|
    ensures InOrderBut(cmp, s, lo, hi, lo, hi, lo, lo)
  {
  }

  lemma NothingOpen<T(!new)>(cmp: (T, T) -> int, s: seq<T>, lo: nat, hi: nat, l: nat, h: nat)
    requires InOrderBut(cmp, s, lo, hi, l, h, l, l) && h <= l + 1
    ensures Sorted(cmp, s, lo, hi)
  {
    forall i, j | lo <= i < j < hi
      ensures cmp(s[i], s[j]) <= 0
    {
      assert Across(i, j, l, h, l, l);
    }
  }

  lemma Widened<T>(s: seq<T>, t: seq<T>, u: seq<T>, lo: nat, hi: nat, l: nat, h: nat)
    requires Shuffled(s, t, lo, hi) && Shuffled(t, u, l, h) && lo <= l && h <= hi
    ensures Shuffled(s, u, lo, hi)
  {
    ShuffledWithin(t, u, l, h, lo, hi);
    ShuffledTwice(s, t, u, lo, hi);
  }

  /** One part has been sorted: only the other is still open. */
  lemma Closed<T(!new)>(cmp: (T, T) -> int, s: seq<T>, t: seq<T>, u: seq<T>, lo: nat, hi: nat, l: nat, h: nat, l': nat,
                        h': nat)
    requires Shuffled(s, t, lo, hi) && InOrderBut(cmp, t, lo, hi, l, h, l', h') && Shuffled(t, u, l, h)
    requires Sorted(cmp, u, l, h)
    ensures Shuffled(s, u, lo, hi) && InOrderBut(cmp, u, lo, hi, l', h', l', l')
  {
    Widened(s, t, u, lo, hi, l, h);
    PartSorted(cmp, t, u, lo, hi, l, h, l', h');
  }

  /** VG_(ssort). */
  method Ssort<T(!new)>(a: array<T>, cmp: (T, T) -> int, inPlace: bool)
    requires TotalPreorder(cmp)
    modifies a
    ensures multiset(a[..]) == multiset(old(a[..])) && forall i, j :: 0 <= i < j < a.Length ==> cmp(a[i], a[j]) <= 0
  {
    ghost var s := a[..];
    ghost var depth := QSort(a, 0, a.Length, cmp, inPlace);
    assert s[0..a.Length] == s && a[0..a.Length] == a[..];
    assert forall i, j :: 0 <= i < j < a.Length ==> a[..][i] == a[i] && a[..][j] == a[j];
  }
}
