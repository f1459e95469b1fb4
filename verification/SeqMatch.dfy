/** The wildcard matcher for sequences, and its use on strings (m_seqmatch.c). */
module SeqMatch {

  /** The three callbacks. `same` need not answer for a wildcard. */
  datatype Rules<!P, !I> = Rules(isStar: P -> bool, isQuery: P -> bool, same: (P, I) --> bool)

  ghost predicate Fair<P(!new), I(!new)>(r: Rules<P, I>) {
    forall p, c :: !r.isStar(p) && !r.isQuery(p) ==> r.same.requires(p, c)
  }

  // ----- what a pattern means

  /** A stretch of input that one element of a pattern stands for: any at all for a star, any one element for a
      query, and an equal one for a literal. */
  ghost predicate Fits<P(!new), I(!new)>(r: Rules<P, I>, p: P, s: seq<I>)
    requires Fair(r)
  {
    r.isStar(p) || (|s| == 1 && (r.isQuery(p) || r.same(p, s[0])))
  }

  /** `cuts` divides the input from cuts[0] on among the elements of the pattern from `i` on. */
  ghost predicate Divides<P(!new), I(!new)>(r: Rules<P, I>, patt: seq<P>, i: nat, input: seq<I>, cuts: seq<nat>)
    requires Fair(r)
  {
    && i <= |patt| && |cuts| == |patt| - i + 1
    && (forall k :: 0 <= k < |cuts| ==> cuts[k] <= |input|)
    && forall k :: 0 <= k < |patt| - i ==> cuts[k] <= cuts[k + 1] && Fits(r, patt[i + k], input[cuts[k]..cuts[k + 1]])
  }

  /** The input is in the language of the pattern. */
  ghost predicate InLanguage<P(!new), I(!new)>(r: Rules<P, I>, patt: seq<P>, input: seq<I>)
    requires Fair(r)
  {
    exists cuts: seq<nat> :: Divides(r, patt, 0, input, cuts) && cuts[0] == 0 && cuts[|patt|] == |input|
  }

  /** Some prefix of the input is. */
  ghost predicate PrefixInLanguage<P(!new), I(!new)>(r: Rules<P, I>, patt: seq<P>, input: seq<I>)
    requires Fair(r)
  {
    exists n: nat :: n <= |input| && InLanguage(r, patt, input[..n])
  }

  // ----- the matcher

  /** The matcher's own specification, from the comment in its source: pattern from `i`, input from `j`. */
  ghost predicate Ma<P(!new), I(!new)>(r: Rules<P, I>, matchAll: bool, patt: seq<P>, i: nat, input: seq<I>, j: nat)
    requires Fair(r) && i <= |patt| && j <= |input|
    decreases |patt| - i + |input| - j
  {
    if i == |patt| then j == |input| || !matchAll
    else if r.isStar(patt[i]) then
      Ma(r, matchAll, patt, i + 1, input, j) || (j < |input| && Ma(r, matchAll, patt, i, input, j + 1))
    else j < |input| && (r.isQuery(patt[i]) || r.same(patt[i], input[j])) && Ma(r, matchAll, patt, i + 1, input, j + 1)
  }

  ghost function Stars<P(!new), I(!new)>(r: Rules<P, I>, patt: seq<P>, i: nat): nat
    requires i <= |patt|
    decreases |patt| - i
  {
    if i == |patt| then 0 else (if r.isStar(patt[i]) then 1 else 0) + Stars(r, patt, i + 1)
  }

  /** The matcher asserts that patterns and inputs are shorter than this. */
  const LIMIT: nat := 1_000_000

  /** VG_(generic_match). `ok` is false for the failed assertion on the lengths. The literal comparer is never called on
      a wildcard, and `depth`, the number of recursive calls open at the deepest point, is at most the number of
      stars. */
  method GenericMatch<P(!new), I(!new)>(r: Rules<P, I>, matchAll: bool, patt: seq<P>, ixPatt: nat, input: seq<I>,
                                        ixInput: nat)
    returns (ok: bool, matched: bool, ghost depth: nat)
    requires Fair(r) && ixPatt <= |patt| && ixInput <= |input|
    ensures ok <==> |patt| < 1_000_000 && |input| < 1_000_000
    ensures ok ==> matched == Ma(r, matchAll, patt, ixPatt, input, ixInput)
    ensures depth <= Stars(r, patt, ixPatt)
    decreases |patt| - ixPatt
  {
    var i: nat, j: nat := ixPatt, ixInput;
    depth := 0;
    if |patt| >= LIMIT || |input| >= LIMIT {
      return false, false, depth;
    }
    ok := true;
    while true
      invariant ok && ixPatt <= i <= |patt| && j <= |input|
      invariant Ma(r, matchAll, patt, i, input, j) == Ma(r, matchAll, patt, ixPatt, input, ixInput)
      invariant Stars(r, patt, i) <= Stars(r, patt, ixPatt) && depth <= Stars(r, patt, ixPatt)
      decreases |patt| - i + |input| - j
    {
      var havePatt, haveInput := i < |patt|, j < |input|;
      if havePatt && r.isStar(patt[i]) {
        if haveInput {
          var rest;
          ghost var d;
          ok, rest, d := GenericMatch(r, matchAll, patt, i + 1, input, j);
          depth := if depth < d + 1 then d + 1 else depth;
          if rest {
            return ok, true, depth;
          }
          j := j + 1;
        } else {
          i := i + 1;
        }
      } else if havePatt && r.isQuery(patt[i]) {
        if !haveInput {
          return ok, false, depth;
        }
        i, j := i + 1, j + 1;
      } else if havePatt && haveInput {
        if !r.same(patt[i], input[j]) {
          return ok, false, depth;
        }
        i, j := i + 1, j + 1;
      } else {
        return ok, !havePatt && (!haveInput || !matchAll), depth;
      }
    }
  }

  // ----- the matcher decides the language

  /** A division starts with the stretch for the first element, and goes on with a division for the others. */
  lemma DividesCons<P(!new), I(!new)>(r: Rules<P, I>, patt: seq<P>, i: nat, input: seq<I>, j: nat, c: seq<nat>)
    requires Fair(r) && i < |patt| && |c| > 0
    ensures Divides(r, patt, i, input, [j] + c) <==>
            j <= c[0] <= |input| && Fits(r, patt[i], input[j..c[0]]) && Divides(r, patt, i + 1, input, c)
  {
    var d := [j] + c;
    if Divides(r, patt, i, input, d) {
      assert d[0] <= d[1] && Fits(r, patt[i + 0], input[d[0]..d[1]]);
      forall k | 0 <= k < |c|
        ensures c[k] <= |input|
      {
        assert d[k + 1] <= |input|;
      }
      forall k | 0 <= k < |patt| - (i + 1)
        ensures c[k] <= c[k + 1] && Fits(r, patt[i + 1 + k], input[c[k]..c[k + 1]])
      {
        assert d[k + 1] <= d[k + 2] && Fits(r, patt[i + (k + 1)], input[d[k + 1]..d[k + 2]]);
      }
    }
  }

  /** What the matcher accepts can be divided among the pattern. */
  lemma {:induction false} Sound<P(!new), I(!new)>(r: Rules<P, I>, matchAll: bool, patt: seq<P>, i: nat, input: seq<I>,
                                                   j: nat)
    returns (cuts: seq<nat>)
    requires Fair(r) && i <= |patt| && j <= |input| && Ma(r, matchAll, patt, i, input, j)
    ensures Divides(r, patt, i, input, cuts) && |cuts| == |patt| - i + 1 && cuts[0] == j
    ensures (matchAll ==> cuts[|patt| - i] == |input|)
    decreases |patt| - i + |input| - j
  {
    hide Divides, Fair;
    if i == |patt| {
      cuts := [j];
      DividesNothing(r, patt, input, j);
    } else if r.isStar(patt[i]) && !Ma(r, matchAll, patt, i + 1, input, j) {
      var c := Sound(r, matchAll, patt, i, input, j + 1);
      DividesCons(r, patt, i, input, j + 1, c[1..]);
      assert c == [j + 1] + c[1..];
      DividesCons(r, patt, i, input, j, c[1..]);
      cuts := [j] + c[1..];
    } else {
      var c := Sound(r, matchAll, patt, i + 1, input, if r.isStar(patt[i]) then j else j + 1);
      DividesCons(r, patt, i, input, j, c);
      cuts := [j] + c;
    }
  }

  lemma DividesNothing<P(!new), I(!new)>(r: Rules<P, I>, patt: seq<P>, input: seq<I>, j: nat)
    requires Fair(r) && j <= |input|
    ensures Divides(r, patt, |patt|, input, [j])
  {
  }

  /** What can be divided among the pattern is accepted. */
  lemma {:induction false} Complete<P(!new), I(!new)>(r: Rules<P, I>, matchAll: bool, patt: seq<P>, i: nat,
                                                      input: seq<I>, cuts: seq<nat>)
    requires Fair(r) && i <= |patt| && |cuts| == |patt| - i + 1 && cuts[0] <= |input|
    requires Divides(r, patt, i, input, cuts)
    requires matchAll ==> cuts[|patt| - i] == |input|
    ensures Ma(r, matchAll, patt, i, input, cuts[0])
    decreases |patt| - i + |input| - cuts[0]
  {
    hide Divides, Fair;
    if i < |patt| {
      assert cuts == [cuts[0]] + cuts[1..];
      DividesCons(r, patt, i, input, cuts[0], cuts[1..]);
      if r.isStar(patt[i]) && cuts[0] < cuts[1] {
        DividesCons(r, patt, i, input, cuts[0] + 1, cuts[1..]);
        Complete(r, matchAll, patt, i, input, [cuts[0] + 1] + cuts[1..]);
      } else {
        Complete(r, matchAll, patt, i + 1, input, cuts[1..]);
      }
    }
  }

  /** In match-all mode, the answer is membership in the language. */
  lemma MatchAllIsMembership<P(!new), I(!new)>(r: Rules<P, I>, patt: seq<P>, input: seq<I>)
    requires Fair(r)
    ensures Ma(r, true, patt, 0, input, 0) <==> InLanguage(r, patt, input)
  {
    if Ma(r, true, patt, 0, input, 0) {
      var cuts := Sound(r, true, patt, 0, input, 0);
    }
    if InLanguage(r, patt, input) {
      var cuts: seq<nat> :| Divides(r, patt, 0, input, cuts) && cuts[0] == 0 && cuts[|patt|] == |input|;
      Complete(r, true, patt, 0, input, cuts);
    }
  }

  lemma {:induction false} CutsGrow<P(!new), I(!new)>(r: Rules<P, I>, patt: seq<P>, i: nat, input: seq<I>,
                                                      cuts: seq<nat>, k: nat)
    requires Fair(r) && Divides(r, patt, i, input, cuts) && k < |cuts|
    ensures cuts[k] <= cuts[|cuts| - 1]
    decreases |cuts| - k
  {
    if k < |cuts| - 1 { CutsGrow(r, patt, i, input, cuts, k + 1); }
  }

  /** A division of a prefix is a division of that much of the whole, and the other way around. */
  lemma DividesPrefix<P(!new), I(!new)>(r: Rules<P, I>, patt: seq<P>, input: seq<I>, n: nat, cuts: seq<nat>)
    requires Fair(r) && n <= |input| && |cuts| == |patt| + 1 && cuts[|patt|] == n
    ensures Divides(r, patt, 0, input[..n], cuts) <==> Divides(r, patt, 0, input, cuts)
  {
    var front := input[..n];
    if Divides(r, patt, 0, front, cuts) {
      forall k | 0 <= k < |patt|
        ensures cuts[k] <= cuts[k + 1] && Fits(r, patt[k], input[cuts[k]..cuts[k + 1]])
      {
        assert Fits(r, patt[0 + k], front[cuts[k]..cuts[k + 1]]);
        assert front[cuts[k]..cuts[k + 1]] == input[cuts[k]..cuts[k + 1]];
      }
    }
    if Divides(r, patt, 0, input, cuts) {
      forall k | 0 <= k < |cuts|
        ensures cuts[k] <= n
      {
        CutsGrow(r, patt, 0, input, cuts, k);
      }
      forall k | 0 <= k < |patt|
        ensures cuts[k] <= cuts[k + 1] && Fits(r, patt[k], front[cuts[k]..cuts[k + 1]])
      {
        assert Fits(r, patt[0 + k], input[cuts[k]..cuts[k + 1]]);
        assert front[cuts[k]..cuts[k + 1]] == input[cuts[k]..cuts[k + 1]];
      }
    }
  }

  /** In prefix mode, the answer is whether some prefix is in the language. */
  lemma MatchPrefixIsMembership<P(!new), I(!new)>(r: Rules<P, I>, patt: seq<P>, input: seq<I>)
    requires Fair(r)
    ensures Ma(r, false, patt, 0, input, 0) <==> PrefixInLanguage(r, patt, input)
  {
    if Ma(r, false, patt, 0, input, 0) {
      var cuts := Sound(r, false, patt, 0, input, 0);
      var n := cuts[|patt|];
      DividesPrefix(r, patt, input, n, cuts);
      assert InLanguage(r, patt, input[..n]);
    }
    if PrefixInLanguage(r, patt, input) {
      var n: nat :| n <= |input| && InLanguage(r, patt, input[..n]);
      var cuts: seq<nat> :| Divides(r, patt, 0, input[..n], cuts) && cuts[0] == 0 && cuts[|patt|] == n;
      DividesPrefix(r, patt, input, n, cuts);
      Complete(r, false, patt, 0, input, cuts);
    }
  }

  // ----- the laws that determine a pattern's language

  /** The empty pattern stands for nothing. */
  lemma LanguageOfNothing<P(!new), I(!new)>(r: Rules<P, I>, input: seq<I>)
    requires Fair(r)
    ensures InLanguage(r, [], input) <==> input == []
  {
    if input == [] { DividesNothing(r, [], input, 0); }
  }

  /** A pattern of one element stands for what the element does. */
  lemma LanguageOfOne<P(!new), I(!new)>(r: Rules<P, I>, p: P, input: seq<I>)
    requires Fair(r)
    ensures InLanguage(r, [p], input) <==> Fits(r, p, input)
  {
    var cuts: seq<nat> := [0, |input|];
    assert input[0..|input|] == input;
    if InLanguage(r, [p], input) {
      var c: seq<nat> :| Divides(r, [p], 0, input, c) && c[0] == 0 && c[1] == |input|;
      assert c == cuts;
      assert Fits(r, [p][0 + 0], input[cuts[0]..cuts[1]]);
    }
    if Fits(r, p, input) { assert Divides(r, [p], 0, input, cuts); }
  }

  /** Two patterns in a row stand for what they stand for, in a row. */
  lemma LanguageOfBoth<P(!new), I(!new)>(r: Rules<P, I>, p: seq<P>, q: seq<P>, input: seq<I>)
    requires Fair(r)
    ensures InLanguage(r, p + q, input) <==>
            exists k :: 0 <= k <= |input| && InLanguage(r, p, input[..k]) && InLanguage(r, q, input[k..])
  {
    hide Fair, Fits;
    if InLanguage(r, p + q, input) {
      var c: seq<nat> :| Divides(r, p + q, 0, input, c) && c[0] == 0 && c[|p + q|] == |input|;
      var c1, c2 := SplitCuts(r, p, q, input, c);
    }
    if k :| 0 <= k <= |input| && InLanguage(r, p, input[..k]) && InLanguage(r, q, input[k..]) {
      var c1: seq<nat> :| Divides(r, p, 0, input[..k], c1) && c1[0] == 0 && c1[|p|] == k;
      var c2: seq<nat> :| Divides(r, q, 0, input[k..], c2) && c2[0] == 0 && c2[|q|] == |input| - k;
      var c := JoinCuts(r, p, q, input, k, c1, c2);
    }
  }

  lemma SplitCuts<P(!new), I(!new)>(r: Rules<P, I>, p: seq<P>, q: seq<P>, input: seq<I>, c: seq<nat>)
    returns (c1: seq<nat>, c2: seq<nat>)
    requires Fair(r) && Divides(r, p + q, 0, input, c) && c[0] == 0 && c[|p + q|] == |input|
    ensures |c1| == |p| + 1 && |c2| == |q| + 1 && c1[0] == 0 && c2[0] == 0
    ensures c1[|p|] <= |input| && c2[|q|] == |input| - c1[|p|]
    ensures Divides(r, p, 0, input[..c1[|p|]], c1) && Divides(r, q, 0, input[c1[|p|]..], c2)
  {
    var k := c[|p|];
    c1 := c[..|p| + 1];
    forall i | 0 <= i < |p|
      ensures c1[i] <= c1[i + 1] && Fits(r, p[0 + i], input[c1[i]..c1[i + 1]])
    {
      assert Fits(r, (p + q)[0 + i], input[c[i]..c[i + 1]]);
    }
    assert Divides(r, p, 0, input, c1);
    DividesPrefix(r, p, input, k, c1);
    CutsUp(r, p + q, input, c, |p|);
    c2 := seq(|q| + 1, i requires 0 <= i <= |q| => c[|p| + i] - k);
    forall i | 0 <= i < |q|
      ensures c2[i] <= c2[i + 1] && Fits(r, q[0 + i], input[k..][c2[i]..c2[i + 1]])
    {
      assert c[|p| + i] <= c[|p| + i + 1] && Fits(r, (p + q)[0 + (|p| + i)], input[c[|p| + i]..c[|p| + i + 1]]);
      assert input[k..][c2[i]..c2[i + 1]] == input[c[|p| + i]..c[|p| + i + 1]];
    }
  }

  /** Cuts from the k-th on do not go back behind it. */
  lemma CutsUp<P(!new), I(!new)>(r: Rules<P, I>, patt: seq<P>, input: seq<I>, c: seq<nat>, k: nat)
    requires Fair(r) && Divides(r, patt, 0, input, c) && k <= |patt|
    ensures forall m :: k <= m <= |patt| ==> c[k] <= c[m] <= |input|
  {
    forall m | k <= m <= |patt|
      ensures c[k] <= c[m]
    {
      CutsBetween(r, patt, input, c, k, m);
    }
  }

  lemma {:induction false} CutsBetween<P(!new), I(!new)>(r: Rules<P, I>, patt: seq<P>, input: seq<I>, c: seq<nat>,
                                                         k: nat, m: nat)
    requires Fair(r) && Divides(r, patt, 0, input, c) && k <= m <= |patt|
    ensures c[k] <= c[m]
    decreases m
  {
    if k < m {
      CutsBetween(r, patt, input, c, k, m - 1);
      assert c[m - 1] <= c[m - 1 + 1];
    }
  }

  lemma JoinCuts<P(!new), I(!new)>(r: Rules<P, I>, p: seq<P>, q: seq<P>, input: seq<I>, k: nat, c1: seq<nat>,
                                   c2: seq<nat>)
    returns (c: seq<nat>)
    requires Fair(r) && k <= |input| && Divides(r, p, 0, input[..k], c1) && Divides(r, q, 0, input[k..], c2)
    requires c1[0] == 0 && c1[|p|] == k && c2[0] == 0 && c2[|q|] == |input| - k
    ensures Divides(r, p + q, 0, input, c) && c[0] == 0 && c[|p + q|] == |input|
  {
    DividesPrefix(r, p, input, k, c1);
    c := seq(|p + q| + 1, i requires 0 <= i <= |p + q| => if i <= |p| then c1[i] else k + c2[i - |p|]);
    forall i | 0 <= i < |p + q|
      ensures c[i] <= c[i + 1] && Fits(r, (p + q)[0 + i], input[c[i]..c[i + 1]])
    {
      if i < |p| {
        assert Fits(r, p[0 + i], input[c1[i]..c1[i + 1]]);
      } else {
        var m := i - |p|;
        assert c2[m] <= c2[m + 1] && Fits(r, q[0 + m], input[k..][c2[m]..c2[m + 1]]);
        assert input[k..][c2[m]..c2[m + 1]] == input[c[i]..c[i + 1]];
      }
    }
  }

  /** Matching a prefix is matching all with a star at the end. */
  lemma PrefixIsStarred<P(!new), I(!new)>(r: Rules<P, I>, patt: seq<P>, star: P, input: seq<I>)
    requires Fair(r) && r.isStar(star)
    ensures PrefixInLanguage(r, patt, input) <==> InLanguage(r, patt + [star], input)
  {
    hide InLanguage, Fair;
    LanguageOfBoth(r, patt, [star], input);
    forall k | 0 <= k <= |input|
      ensures InLanguage(r, [star], input[k..])
    {
      LanguageOfOne(r, star, input[k..]);
    }
  }

  // ----- strings

  /** charIsStar, charIsQuery and char_p_EQ_i, the last with its assertion as a precondition. */
  function CharRules(): (r: Rules<char, char>)
    ensures Fair(r)
  {
    Rules(p => p == '*', p => p == '?', (p, c) requires p != '*' && p != '?' => p == c)
  }

  /** The string is in the language of the pattern. */
  ghost predicate StringMatches(patt: string, input: string) {
    InLanguage(CharRules(), patt, input)
  }

  predicate Short(s: string) { |s| < LIMIT }

  /** VG_(string_match). `ok` is false for the failed assertion on the lengths. */
  method StringMatch(patt: string, input: string) returns (ok: bool, matched: bool)
    ensures ok <==> |patt| < 1_000_000 && |input| < 1_000_000
    ensures ok ==> (matched <==> StringMatches(patt, input))
  {
    ghost var depth;
    ok, matched, depth := GenericMatch(CharRules(), true, patt, 0, input, 0);
    MatchAllIsMembership(CharRules(), patt, input);
  }

  // ----- the laws of string patterns

  /** A star matches every string. */
  lemma StarMatches(s: string)
    ensures StringMatches("*", s)
  {
    LanguageOfOne(CharRules(), '*', s);
  }

  /** A question mark matches the strings of one character. */
  lemma QueryMatches(s: string)
    ensures StringMatches("?", s) <==> |s| == 1
  {
    LanguageOfOne(CharRules(), '?', s);
  }

  /** Every other character matches itself. */
  lemma LiteralMatches(c: char, s: string)
    requires c != '*' && c != '?'
    ensures StringMatches([c], s) <==> s == [c]
  {
    LanguageOfOne(CharRules(), c, s);
  }

  /** Nothing matches the empty string only. */
  lemma NothingMatches(s: string)
    ensures StringMatches("", s) <==> s == ""
  {
    LanguageOfNothing(CharRules(), s);
  }

  /** Two patterns in a row match what can be divided between them. These laws determine every answer. */
  lemma BothMatch(p: string, q: string, s: string)
    ensures StringMatches(p + q, s) <==>
            exists k :: 0 <= k <= |s| && StringMatches(p, s[..k]) && StringMatches(q, s[k..])
  {
    hide InLanguage;
    LanguageOfBoth(CharRules(), p, q, s);
  }

  /** A pattern without wildcards matches itself only. */
  lemma {:induction false} PlainMatches(p: string, s: string)
    requires '*' !in p && '?' !in p
    ensures StringMatches(p, s) <==> s == p
  {
    hide StringMatches;
    if p == "" {
      NothingMatches(s);
    } else {
      BothMatch([p[0]], p[1..], s);
      assert p == [p[0]] + p[1..];
      forall k | 0 <= k <= |s|
        ensures StringMatches([p[0]], s[..k]) && StringMatches(p[1..], s[k..]) <==> s[..k] == [p[0]] && s[k..] == p[1..]
      {
        LiteralMatches(p[0], s[..k]);
        PlainMatches(p[1..], s[k..]);
      }
      if s == p { assert s[..1] == [p[0]] && s[1..] == p[1..]; }
      if k :| 0 <= k <= |s| && s[..k] == [p[0]] && s[k..] == p[1..] { assert s == s[..k] + s[k..]; }
    }
  }
}
