/** Counting the blocks of an arena in the two ways its sanity checker does (m_mallocfree.c). */
module ArenaCounts {
  import opened SizeClasses
  import opened ArenaState
  import opened ArenaShapes
  import opened MapSums

  ghost function FreeSet(bs: Blocks): set<nat> { set b | b in bs && bs[b].st.Listed? }

  /** The part of `bs` that a walk has seen: all of the superblocks in `done`, and those of `s` below `x`. */
  ghost function Seen(bs: Blocks, done: set<nat>, s: nat, x: nat): Blocks {
    map b | b in bs && (bs[b].sb in done || (bs[b].sb == s && b < x)) :: bs[b]
  }

  /** The walk is at a block of `s` or at the end of `s`. */
  ghost predicate AtBlock(g: Geometry, sbs: Superblocks, bs: Blocks, s: nat, x: nat) {
    s in sbs && (x == End(g, sbs, s) || (x < End(g, sbs, s) && x in bs && bs[x].sb == s))
  }

  lemma SeenStep(g: Geometry, sbs: Superblocks, bs: Blocks, done: set<nat>, s: nat, x: nat)
    requires g.Valid() && Tiled(g, sbs, bs) && x in bs && bs[x].sb == s && s !in done
    ensures bs[x].size > 0 && x !in Seen(bs, done, s, x)
    ensures Seen(bs, done, s, x + bs[x].size) == Seen(bs, done, s, x)[x := bs[x]]
    ensures AtBlock(g, sbs, bs, s, x + bs[x].size)
  {
    hide SuperblocksApart, SuperblockFits;
    assert BlockFits(g, sbs, bs, x);
    assert forall b :: b in bs && x < b ==> x + bs[x].size <= b;
  }

  lemma LoanAdd(g: Geometry, seen: Blocks, x: nat, k: Block)
    requires x !in seen
    ensures Sum(Live(g, seen[x := k])) == Sum(Live(g, seen)) + (if k.st.Used? then Psz(g, k) else 0)
  {
    hide Psz, Sum;
    if k.st.Used? {
      assert Live(g, seen[x := k]) == Live(g, seen)[x := Psz(g, k)];
      SumAdd(Live(g, seen), x, Psz(g, k));
    } else {
      assert Live(g, seen[x := k]) == Live(g, seen);
    }
  }

  lemma FreeAdd(seen: Blocks, x: nat, k: Block)
    requires x !in seen
    ensures |FreeSet(seen[x := k])| == |FreeSet(seen)| + (if k.st.Listed? then 1 else 0)
  {
    if k.st.Listed? {
      assert FreeSet(seen[x := k]) == FreeSet(seen) + {x};
    } else {
      assert FreeSet(seen[x := k]) == FreeSet(seen);
    }
  }

  lemma SeenNext(g: Geometry, sbs: Superblocks, bs: Blocks, done: set<nat>, s: nat, t: nat)
    requires g.Valid() && Tiled(g, sbs, bs) && s in sbs
    ensures Seen(bs, done, s, End(g, sbs, s)) == Seen(bs, done + {s}, t, 0)
  {
    hide SuperblocksApart, SuperblockFits;
    forall b | b in bs && bs[b].sb == s
      ensures b < End(g, sbs, s)
    {
      assert BlockFits(g, sbs, bs, b);
    }
  }

  lemma SeenStart(g: Geometry, sbs: Superblocks, bs: Blocks, done: set<nat>, s: nat)
    requires g.Valid() && Tiled(g, sbs, bs) && s in sbs
    ensures Seen(bs, done, s, 0) == Seen(bs, done, s, Start(g, s)) && AtBlock(g, sbs, bs, s, Start(g, s))
  {
    hide SuperblocksApart;
    assert SuperblockFits(g, sbs, bs, s);
    forall b | b in bs && bs[b].sb == s
      ensures Start(g, s) <= b
    {
      assert BlockFits(g, sbs, bs, b);
    }
  }

  lemma SeenAll(g: Geometry, sbs: Superblocks, bs: Blocks, done: set<nat>, s: nat)
    requires g.Valid() && Tiled(g, sbs, bs) && sbs.Keys <= done
    ensures Seen(bs, done, s, 0) == bs
  {
    hide SuperblocksApart, SuperblockFits;
    forall b | b in bs
      ensures bs[b].sb in done
    {
      assert BlockFits(g, sbs, bs, b);
    }
  }

  // ----- counting along the lists

  ghost function Elements(l: seq<nat>): set<nat> { set b | b in l }

  lemma {:induction false} DistinctCount(l: seq<nat>)
    requires Distinct(l)
    ensures |Elements(l)| == |l|
  {
    if l == [] {
      assert Elements(l) == {};
    } else {
      var m := l[..|l| - 1];
      DistinctCount(m);
      assert l == m + [l[|l| - 1]];
      assert Elements(l) == Elements(m) + {l[|l| - 1]};
    }
  }

  /** Free blocks that belong on the lists below `n`. */
  ghost function FreeBelow(g: Geometry, bs: Blocks, n: nat): set<nat> {
    set b | b in bs && bs[b].st.Listed? && Psz(g, bs[b]) % MIN_SZB == 0 && ListNo(Psz(g, bs[b])) < n
  }

  lemma FreeBelowStep(g: Geometry, mem: Memory, bs: Blocks, lists: seq<seq<nat>>, lno: nat)
    requires ListsOk(g, mem, bs, lists) && AllListed(g, bs, lists) && lno < N_MALLOC_LISTS
    ensures |FreeBelow(g, bs, lno + 1)| == |FreeBelow(g, bs, lno)| + |lists[lno]|
  {
    hide UnitListNo, Linked, Psz;
    var l := lists[lno];
    assert ListOk(g, mem, bs, lno, l);
    DistinctCount(l);
    assert FreeBelow(g, bs, lno + 1) == FreeBelow(g, bs, lno) + Elements(l);
    assert FreeBelow(g, bs, lno) !! Elements(l);
  }

  lemma FreeBelowAll(g: Geometry, bs: Blocks, lists: seq<seq<nat>>)
    requires |lists| == N_MALLOC_LISTS && AllListed(g, bs, lists)
    ensures FreeBelow(g, bs, 0) == {} && FreeBelow(g, bs, N_MALLOC_LISTS) == FreeSet(bs)
  {
    hide UnitListNo, Psz;
  }
}
