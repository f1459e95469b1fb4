/** What the operations of the allocator do to the map of blocks: who is live, and that free blocks stay apart
    (m_mallocfree.c). */
module ArenaShapes {
  import opened ArenaState
  import opened ArenaSteps

  /** Blocks handed out, with their payload sizes. */
  ghost function Live(g: Geometry, bs: Blocks): map<nat, nat> {
    map b | b in bs && bs[b].st.Used? :: Psz(g, bs[b])
  }

  ghost predicate NoLoose(bs: Blocks) {
    forall b :: b in bs ==> !bs[b].st.Loose?
  }

  /** Free blocks are apart, and nothing is in between states. */
  ghost predicate Settled(bs: Blocks) { NoLoose(bs) && NoFreePair(bs) }

  // ----- carving a request out of a free block

  ghost function Whole(bs: Blocks, b: nat): Blocks
    requires b in bs
  {
    bs[b := bs[b].(st := Used)]
  }

  /** The first `n` bytes of free block `b` in use, the rest free. */
  ghost function Carved(bs: Blocks, b: nat, n: nat): Blocks
    requires b in bs && n <= bs[b].size
  {
    bs[b := Block(bs[b].sb, n, Used)][b + n := Block(bs[b].sb, bs[b].size - n, Listed)]
  }

  lemma WholeShape(g: Geometry, bs: Blocks, b: nat)
    requires b in bs && bs[b].st.Listed? && Settled(bs)
    ensures Settled(Whole(bs, b)) && Live(g, Whole(bs, b)) == Live(g, bs)[b := Psz(g, bs[b])]
  {
    var bs' := Whole(bs, b);
    forall c | c in bs'
      ensures NotBothFree(bs', c)
    {
      assert NotBothFree(bs, c);
    }
  }

  lemma CarvedApart(g: Geometry, sbs: Superblocks, bs: Blocks, b: nat, n: nat)
    requires CanCut(g, sbs, bs, b, n) && bs[b].st.Listed? && NoFreePair(bs)
    ensures NoFreePair(Carved(bs, b, n))
  {
    hide SuperblocksApart, SuperblockFits;
    var bs' := Carved(bs, b, n);
    assert BlockFits(g, sbs, bs, b);
    forall c | c in bs'
      ensures NotBothFree(bs', c)
    {
      if c == b + n {
        assert NotBothFree(bs, b);
        assert c + bs'[c].size == b + bs[b].size;
      } else if c != b {
        assert NotBothFree(bs, c);
        CellsApart(g, sbs, bs, b, c);
      }
    }
  }

  lemma CarvedLive(g: Geometry, bs: Blocks, b: nat, n: nat)
    requires b in bs && bs[b].st.Listed? && n <= bs[b].size && n >= g.Overhead() && b + n !in bs && NoLoose(bs)
    ensures NoLoose(Carved(bs, b, n)) && Live(g, Carved(bs, b, n)) == Live(g, bs)[b := n - g.Overhead()]
  {
    hide Geometry.OverheadLo, Geometry.OverheadHi;
    assert Psz(g, Block(bs[b].sb, n, Used)) == n - g.Overhead();
    hide Psz;
  }

  lemma CarvedShape(g: Geometry, sbs: Superblocks, bs: Blocks, b: nat, n: nat)
    requires CanCut(g, sbs, bs, b, n) && bs[b].st.Listed? && Settled(bs)
    ensures b + n !in bs
    ensures Settled(Carved(bs, b, n)) && Live(g, Carved(bs, b, n)) == Live(g, bs)[b := n - g.Overhead()]
  {
    hide NoFreePair, NoLoose, Tiled, Live, Carved;
    CarvedApart(g, sbs, bs, b, n);
    CutTiled(g, sbs, bs, b, n);
    CarvedLive(g, bs, b, n);
  }

  // ----- a new superblock

  lemma GrownApart(g: Geometry, sbs: Superblocks, bs: Blocks, s: nat, n: nat)
    requires CanGrow(g, sbs, bs, s, n) && NoFreePair(bs)
    ensures Start(g, s) !in bs
    ensures NoFreePair(bs[Start(g, s) := Block(s, n, Listed)])
  {
    hide Tiled, FreshRegion, BlockFits, SuperblockFits;
    var b := Start(g, s);
    var bs' := bs[b := Block(s, n, Listed)];
    forall c | c in bs
      ensures c + bs[c].size != b && c != b + n && c != b
    {
      GrowClear(g, sbs, bs, s, n, c);
    }
    forall c | c in bs'
      ensures NotBothFree(bs', c)
    {
      if c != b {
        assert NotBothFree(bs, c);
      }
    }
  }

  lemma GrownShape(g: Geometry, sbs: Superblocks, bs: Blocks, s: nat, n: nat)
    requires CanGrow(g, sbs, bs, s, n) && Settled(bs)
    ensures Start(g, s) !in bs
    ensures var bs' := bs[Start(g, s) := Block(s, n, Listed)];
            Settled(bs') && Live(g, bs') == Live(g, bs)
  {
    hide NoFreePair, CanGrow;
    GrownApart(g, sbs, bs, s, n);
  }

  // ----- freeing a block and joining it with its neighbours

  /** Free blocks are apart, but for the pairs that `b` is in. */
  ghost predicate ApartBut(bs: Blocks, b: nat) {
    forall c {:trigger NotBothFree(bs, c)} :: c in bs && c != b && c + bs[c].size != b ==> NotBothFree(bs, c)
  }

  /** Free blocks are apart, but for the block that ends where `b` starts. */
  ghost predicate ApartButBefore(bs: Blocks, b: nat) {
    forall c {:trigger NotBothFree(bs, c)} :: c in bs && c + bs[c].size != b ==> NotBothFree(bs, c)
  }

  ghost function Released(bs: Blocks, b: nat): Blocks
    requires b in bs
  {
    bs[b := bs[b].(st := Listed)]
  }

  /** Free neighbours `b` and `c` as one free block. */
  ghost function Joined(bs: Blocks, b: nat, c: nat): Blocks
    requires b in bs && c in bs
  {
    (bs - {c})[b := Block(bs[b].sb, bs[b].size + bs[c].size, Listed)]
  }

  lemma ReleasedShape(g: Geometry, bs: Blocks, b: nat)
    requires b in bs && bs[b].st.Used? && Settled(bs)
    ensures NoLoose(Released(bs, b)) && ApartBut(Released(bs, b), b)
    ensures Live(g, Released(bs, b)) == Live(g, bs) - {b}
  {
    var bs' := Released(bs, b);
    forall c | c in bs' && c != b && c + bs'[c].size != b
      ensures NotBothFree(bs', c)
    {
      assert NotBothFree(bs, c);
    }
  }

  lemma JoinedNextApart(g: Geometry, sbs: Superblocks, bs: Blocks, b: nat, c: nat)
    requires CanJoin(g, sbs, bs, b, c) && bs[b].st.Listed? && bs[c].st.Listed? && ApartBut(bs, b)
    ensures ApartButBefore(Joined(bs, b, c), b)
  {
    hide SuperblocksApart, SuperblockFits;
    var bs' := Joined(bs, b, c);
    assert BlockFits(g, sbs, bs, b) && BlockFits(g, sbs, bs, c);
    assert NotBothFree(bs, c);
    forall d | d in bs' && d + bs'[d].size != b
      ensures NotBothFree(bs', d)
    {
      if d == b {
        assert d + bs'[d].size == c + bs[c].size;
      } else {
        CellsApart(g, sbs, bs, b, d);
        assert NotBothFree(bs, d);
      }
    }
  }

  lemma JoinedPrevApart(g: Geometry, sbs: Superblocks, bs: Blocks, p: nat, b: nat)
    requires CanJoin(g, sbs, bs, p, b) && bs[p].st.Listed? && bs[b].st.Listed? && ApartButBefore(bs, b)
    ensures NoFreePair(Joined(bs, p, b))
  {
    hide SuperblocksApart, SuperblockFits;
    var bs' := Joined(bs, p, b);
    assert BlockFits(g, sbs, bs, p) && BlockFits(g, sbs, bs, b);
    assert NotBothFree(bs, b);
    forall d | d in bs'
      ensures NotBothFree(bs', d)
    {
      if d == p {
        assert d + bs'[d].size == b + bs[b].size;
      } else {
        CellsApart(g, sbs, bs, p, d);
        assert NotBothFree(bs, d);
      }
    }
  }

  lemma JoinedLive(g: Geometry, bs: Blocks, b: nat, c: nat)
    requires b in bs && c in bs && bs[b].st.Listed? && bs[c].st.Listed? && NoLoose(bs)
    ensures NoLoose(Joined(bs, b, c)) && Live(g, Joined(bs, b, c)) == Live(g, bs)
  {
    hide Psz;
  }

  /** The last block of a superblock has nothing after it. */
  lemma NothingAfterEnd(g: Geometry, sbs: Superblocks, bs: Blocks, b: nat)
    requires g.Valid() && Tiled(g, sbs, bs) && b in bs
    ensures b + bs[b].size in bs <==> bs[b].sb in sbs && b + bs[b].size < End(g, sbs, bs[b].sb)
    ensures bs[b].sb in sbs
    ensures b + bs[b].size in bs ==> b + bs[b].size + g.Overhead() <= End(g, sbs, bs[b].sb)
    ensures b + bs[b].size !in bs ==> b + bs[b].size == End(g, sbs, bs[b].sb)
  {
    assert BlockFits(g, sbs, bs, b);
    if b + bs[b].size in bs {
      SameSuperblock(g, sbs, bs, b);
      assert BlockFits(g, sbs, bs, b + bs[b].size);
    }
  }

  lemma NothingBeforeStart(g: Geometry, sbs: Superblocks, bs: Blocks, b: nat, c: nat)
    requires g.Valid() && Tiled(g, sbs, bs) && b in bs && c in bs && b == Start(g, bs[b].sb)
    ensures c + bs[c].size != b
  {
    assert BlockFits(g, sbs, bs, b);
    StartNotAfter(g, sbs, bs, c, bs[b].sb);
  }

  lemma AllApart(g: Geometry, sbs: Superblocks, bs: Blocks, b: nat)
    requires g.Valid() && Tiled(g, sbs, bs) && b in bs && b == Start(g, bs[b].sb) && ApartButBefore(bs, b)
    ensures NoFreePair(bs)
  {
    hide SuperblocksApart, SuperblockFits, BlockFits;
    forall c | c in bs
      ensures NotBothFree(bs, c)
    {
      NothingBeforeStart(g, sbs, bs, b, c);
    }
  }

  lemma AllApartUsed(g: Geometry, sbs: Superblocks, bs: Blocks, p: nat, b: nat)
    requires CanJoin(g, sbs, bs, p, b) && !bs[p].st.Listed? && ApartButBefore(bs, b)
    ensures NoFreePair(bs)
  {
    hide SuperblocksApart, SuperblockFits;
    forall c | c in bs
      ensures NotBothFree(bs, c)
    {
      assert BlockFits(g, sbs, bs, c);
      if c != p { CellsApart(g, sbs, bs, c, p); }
    }
  }

  // ----- the leading fragment of an aligned block

  /** No free block ends where `b` starts. */
  ghost predicate NoFreeBefore(bs: Blocks, b: nat) {
    forall c {:trigger bs[c]} :: c in bs && c + bs[c].size == b ==> !bs[c].st.Listed?
  }

  /** A block taken from a free block has no free block before it, because free blocks were apart. */
  lemma TakenFromFree(bs: Blocks, b: nat, bs': Blocks)
    requires b in bs && bs[b].st.Listed? && Settled(bs)
    requires b in bs' && bs'[b].size > 0
    requires forall c :: c in bs' && c < b ==> c in bs && bs[c] == bs'[c]
    ensures NoFreeBefore(bs', b)
  {
    forall c | c in bs' && c + bs'[c].size == b
      ensures !bs'[c].st.Listed?
    {
      if c < b { assert NotBothFree(bs, c); }
    }
  }

  /** The first `n` bytes of `b` free, the rest in use. */
  ghost function Fronted(bs: Blocks, b: nat, n: nat): Blocks
    requires b in bs && n <= bs[b].size
  {
    bs[b := Block(bs[b].sb, n, Listed)][b + n := Block(bs[b].sb, bs[b].size - n, Used)]
  }

  lemma FrontedApart(g: Geometry, sbs: Superblocks, bs: Blocks, b: nat, n: nat)
    requires CanCut(g, sbs, bs, b, n) && bs[b].st.Used? && NoFreePair(bs) && NoFreeBefore(bs, b)
    ensures NoFreePair(Fronted(bs, b, n))
  {
    hide SuperblocksApart, SuperblockFits;
    var bs' := Fronted(bs, b, n);
    assert BlockFits(g, sbs, bs, b);
    forall c | c in bs'
      ensures NotBothFree(bs', c)
    {
      if c != b && c != b + n {
        assert NotBothFree(bs, c);
        CellsApart(g, sbs, bs, b, c);
        assert c + bs[c].size == b ==> !bs[c].st.Listed?;
      }
    }
  }

  lemma FrontedLive(g: Geometry, bs: Blocks, b: nat, n: nat)
    requires b in bs && bs[b].st.Used? && n + g.Overhead() <= bs[b].size && 0 < n && b + n !in bs && NoLoose(bs)
    ensures NoLoose(Fronted(bs, b, n))
    ensures Live(g, Fronted(bs, b, n)) == (Live(g, bs) - {b})[b + n := bs[b].size - n - g.Overhead()]
  {
    hide Geometry.OverheadLo, Geometry.OverheadHi;
    assert Psz(g, Block(bs[b].sb, bs[b].size - n, Used)) == bs[b].size - n - g.Overhead();
  }

  lemma FrontedShape(g: Geometry, sbs: Superblocks, bs: Blocks, b: nat, n: nat)
    requires CanCut(g, sbs, bs, b, n) && bs[b].st.Used? && Settled(bs) && NoFreeBefore(bs, b)
    ensures b + n !in bs && Settled(Fronted(bs, b, n))
    ensures Live(g, Fronted(bs, b, n)) == (Live(g, bs) - {b})[b + n := bs[b].size - n - g.Overhead()]
  {
    hide NoFreePair, NoLoose, Tiled, Live, Fronted, NoFreeBefore;
    FrontedApart(g, sbs, bs, b, n);
    CutTiled(g, sbs, bs, b, n);
    FrontedLive(g, bs, b, n);
  }
}
