/** What it means to sort part of an array: rearranged inside the part, untouched outside, in order. */
module SortOrder {

  /** `cmp` orders all elements, some of them perhaps alike. */
  ghost predicate TotalPreorder<T(!new)>(cmp: (T, T) -> int) {
    && (forall x, y :: cmp(x, y) < 0 <==> cmp(y, x) > 0)
    && (forall x, y, z :: cmp(x, y) <= 0 && cmp(y, z) <= 0 ==> cmp(x, z) <= 0)
  }

  lemma Flip<T(!new)>(cmp: (T, T) -> int, x: T, y: T)
    requires TotalPreorder(cmp)
    ensures cmp(x, y) < 0 <==> cmp(y, x) > 0
    ensures cmp(x, y) > 0 <==> cmp(y, x) < 0
    ensures cmp(x, y) == 0 <==> cmp(y, x) == 0
    ensures cmp(x, x) == 0
  {
  }

  lemma Chain<T(!new)>(cmp: (T, T) -> int, x: T, y: T, z: T)
    requires TotalPreorder(cmp) && cmp(x, y) <= 0 && cmp(y, z) <= 0
    ensures cmp(x, z) <= 0
  {
  }

  ghost predicate Sorted<T>(cmp: (T, T) -> int, s: seq<T>, lo: nat, hi: nat)
    requires lo <= hi <= |s|
  {
    forall i, j :: lo <= i < j < hi ==> cmp(s[i], s[j]) <= 0
  }

  // ----- rearrangement

  /** `t` is `s` with its elements from `lo` to `hi` rearranged, and no others. */
  ghost predicate Shuffled<T>(s: seq<T>, t: seq<T>, lo: nat, hi: nat) {
    && |s| == |t| && lo <= hi <= |s|
    && (forall i :: 0 <= i < lo ==> s[i] == t[i])
    && (forall i :: hi <= i < |s| ==> s[i] == t[i])
    && multiset(s[lo..hi]) == multiset(t[lo..hi])
  }

  function Swapped<T>(s: seq<T>, i: nat, j: nat): seq<T>
    requires i < |s| && j < |s|
  {
    s[i := s[j]][j := s[i]]
  }

  lemma SwapShuffles<T>(s: seq<T>, i: nat, j: nat, lo: nat, hi: nat)
    requires lo <= i < hi <= |s| && lo <= j < hi
    ensures Shuffled(s, Swapped(s, i, j), lo, hi)
  {
    var u, v := s[lo..hi], Swapped(s, i, j)[lo..hi];
    assert v == u[i - lo := u[j - lo]][j - lo := u[i - lo]];
    assert multiset(v) == multiset(u);
  }

  lemma Unshuffled<T>(s: seq<T>, lo: nat, hi: nat)
    requires lo <= hi <= |s|
    ensures Shuffled(s, s, lo, hi)
  {
  }

  lemma ShuffledTwice<T>(s: seq<T>, t: seq<T>, u: seq<T>, lo: nat, hi: nat)
    requires Shuffled(s, t, lo, hi) && Shuffled(t, u, lo, hi)
    ensures Shuffled(s, u, lo, hi)
  {
  }

  lemma ShuffledWithin<T>(s: seq<T>, t: seq<T>, lo: nat, hi: nat, lo': nat, hi': nat)
    requires Shuffled(s, t, lo, hi) && lo' <= lo && hi <= hi' <= |s|
    ensures Shuffled(s, t, lo', hi')
  {
    assert s[lo'..hi'] == s[lo'..lo] + s[lo..hi] + s[hi..hi'];
    assert t[lo'..hi'] == t[lo'..lo] + t[lo..hi] + t[hi..hi'];
    assert s[lo'..lo] == t[lo'..lo] && s[hi..hi'] == t[hi..hi'];
  }

  /** Every element of the rearranged part was in that part before. */
  lemma CameFrom<T>(s: seq<T>, t: seq<T>, lo: nat, hi: nat, i: nat) returns (k: nat)
    requires Shuffled(s, t, lo, hi) && lo <= i < hi
    ensures lo <= k < hi && t[i] == s[k]
  {
    assert t[lo..hi][i - lo] == t[i];
    assert t[i] in multiset(t[lo..hi]);
    assert t[i] in multiset(s[lo..hi]);
    var j :| 0 <= j < hi - lo && s[lo..hi][j] == t[i];
    k := lo + j;
  }

  // ----- what is in order already

  /** The pair does not lie inside one of the two parts still to be sorted. */
  predicate Across(i: int, j: int, l1: nat, h1: nat, l2: nat, h2: nat) {
    !(l1 <= i && j < h1) && !(l2 <= i && j < h2)
  }

  /** Between `lo` and `hi`, all is in order but for the insides of two separate parts. */
  ghost predicate InOrderBut<T>(cmp: (T, T) -> int, s: seq<T>, lo: nat, hi: nat, l1: nat, h1: nat, l2: nat, h2: nat) {
    && hi <= |s| && lo <= l1 <= h1 <= hi && lo <= l2 <= h2 <= hi && (h1 <= l2 || h2 <= l1)
    && forall i, j :: lo <= i < j < hi && Across(i, j, l1, h1, l2, h2) ==> cmp(s[i], s[j]) <= 0
  }

  lemma SymmetricParts<T>(cmp: (T, T) -> int, s: seq<T>, lo: nat, hi: nat, l1: nat, h1: nat, l2: nat, h2: nat)
    requires InOrderBut(cmp, s, lo, hi, l1, h1, l2, h2)
    ensures InOrderBut(cmp, s, lo, hi, l2, h2, l1, h1)
  {
  }

  /** Rearranging one of the parts does not disturb the rest. */
  lemma PartShuffled<T>(cmp: (T, T) -> int, s: seq<T>, t: seq<T>, lo: nat, hi: nat, l1: nat, h1: nat, l2: nat, h2: nat)
    requires InOrderBut(cmp, s, lo, hi, l1, h1, l2, h2) && Shuffled(s, t, l1, h1)
    ensures InOrderBut(cmp, t, lo, hi, l1, h1, l2, h2)
  {
    forall i, j | lo <= i < j < hi && Across(i, j, l1, h1, l2, h2)
      ensures cmp(t[i], t[j]) <= 0
    {
      if l1 <= i < h1 {
        var k := CameFrom(s, t, l1, h1, i);
        assert Across(k, j, l1, h1, l2, h2);
      } else if l1 <= j < h1 {
        var k := CameFrom(s, t, l1, h1, j);
        assert Across(i, k, l1, h1, l2, h2);
      }
    }
  }

  /** Sorting one of the parts leaves the other. */
  lemma PartSorted<T>(cmp: (T, T) -> int, s: seq<T>, t: seq<T>, lo: nat, hi: nat, l1: nat, h1: nat, l2: nat, h2: nat)
    requires InOrderBut(cmp, s, lo, hi, l1, h1, l2, h2) && Shuffled(s, t, l1, h1) && Sorted(cmp, t, l1, h1)
    ensures InOrderBut(cmp, t, lo, hi, l2, h2, l2, l2)
  {
    PartShuffled(cmp, s, t, lo, hi, l1, h1, l2, h2);
    forall i, j | lo <= i < j < hi && Across(i, j, l2, h2, l2, l2)
      ensures cmp(t[i], t[j]) <= 0
    {
      if !(l1 <= i && j < h1) { assert Across(i, j, l1, h1, l2, h2); }
    }
  }
}
