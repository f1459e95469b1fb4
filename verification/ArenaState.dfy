/** The memory of an arena, seen as blocks: layout, tiling, tags and circular free lists (m_mallocfree.c). */
module ArenaState {
  import opened SizeClasses

  /** Machine and arena parameters. `W` is sizeof(SizeT) == sizeof(void*); `rz` is Arena.rz_szB. `space` bounds the
      addresses: it is the number of values of a SizeT. The redzones of the client arena are not checked. */
  datatype Geometry = Geometry(W: nat, rz: nat, space: nat, clientmem: bool) {
    predicate Valid() {
      && (W == 4 || W == 8)
      && rz >= W
      && (W + rz) % MIN_SZB == 0
      && space == (if W == 4 then 0x1_0000_0000 else 0x1_0000_0000_0000_0000)
      && rz < 256
    }

    function OverheadLo(): nat { W + rz }
    function OverheadHi(): nat { rz + W }
    function Overhead(): nat { OverheadLo() + OverheadHi() }

    /** sizeof(Superblock), with its elastic padding. */
    function Header(): nat { 2 * W + MIN_SZB - (2 * W) % MIN_SZB }
  }

  /** Memory in units of addressable words. */
  type Memory = map<int, nat>

  /** Used: handed out. Listed: on its free list. Loose: in neither state, between two steps of an operation. */
  datatype Status = Used | Listed | Loose

  datatype Block = Block(sb: nat, size: nat, st: Status)

  type Blocks = map<nat, Block>

  /** Superblock address to n_payload_bytes. */
  type Superblocks = map<nat, nat>

  function Start(g: Geometry, s: nat): nat { s + g.Header() }

  ghost function End(g: Geometry, sbs: Superblocks, s: nat): nat
    requires s in sbs
  {
    s + g.Header() + sbs[s]
  }

  ghost predicate BlockFits(g: Geometry, sbs: Superblocks, bs: Blocks, b: nat)
    requires b in bs
  {
    var k := bs[b];
    && k.sb in sbs
    && Start(g, k.sb) <= b
    && b % MIN_SZB == 0 && k.size % MIN_SZB == 0 && k.size >= g.Overhead()
    && b + k.size <= End(g, sbs, k.sb)
    && (b + k.size < End(g, sbs, k.sb) ==> b + k.size in bs && bs[b + k.size].sb == k.sb)
  }

  ghost predicate SuperblockFits(g: Geometry, sbs: Superblocks, bs: Blocks, s: nat)
    requires s in sbs
  {
    && 0 < s && s % MIN_SZB == 0 && sbs[s] % MIN_SZB == 0
    && End(g, sbs, s) < g.space
    && g.Overhead() <= sbs[s]
    && Start(g, s) in bs && bs[Start(g, s)].sb == s
  }

  ghost predicate BlocksApart(bs: Blocks) {
    forall b, c :: b in bs && c in bs && b < c ==> b + bs[b].size <= c
  }

  ghost predicate SuperblocksApart(g: Geometry, sbs: Superblocks) {
    forall s, t :: s in sbs && t in sbs && s < t ==> End(g, sbs, s) <= t
  }

  /** The blocks of the arena tile every superblock exactly, and lie nowhere else. */
  ghost predicate Tiled(g: Geometry, sbs: Superblocks, bs: Blocks) {
    && (forall b {:trigger BlockFits(g, sbs, bs, b)} :: b in bs ==> BlockFits(g, sbs, bs, b))
    && (forall s {:trigger SuperblockFits(g, sbs, bs, s)} :: s in sbs ==> SuperblockFits(g, sbs, bs, s))
    && BlocksApart(bs)
    && SuperblocksApart(g, sbs)
  }

  /** All of every superblock is mapped memory. */
  ghost predicate Mapped(g: Geometry, mem: Memory, sbs: Superblocks) {
    forall s, a :: s in sbs && s <= a < End(g, sbs, s) ==> a in mem
  }

  // ----- words of a block

  function Tag(k: Block): nat { if k.st.Used? then k.size else k.size + 1 }

  function Read(mem: Memory, a: int): nat { if a in mem then mem[a] else 0 }

  ghost function PrevCell(g: Geometry, b: nat): nat { b + g.W }

  ghost function NextCell(g: Geometry, bs: Blocks, b: nat): int
    requires b in bs
  {
    b + bs[b].size - 2 * g.W
  }

  ghost function HighCell(g: Geometry, bs: Blocks, b: nat): int
    requires b in bs
  {
    b + bs[b].size - g.W
  }

  function Psz(g: Geometry, k: Block): nat {
    if k.size >= g.Overhead() then k.size - g.Overhead() else 0
  }

  ghost predicate TagOk(g: Geometry, mem: Memory, bs: Blocks, b: nat)
    requires b in bs
  {
    bs[b].st.Loose? || (Read(mem, b) == Tag(bs[b]) && Read(mem, HighCell(g, bs, b)) == Tag(bs[b]))
  }

  ghost predicate TagsOk(g: Geometry, mem: Memory, sbs: Superblocks, bs: Blocks) {
    && (forall b {:trigger TagOk(g, mem, bs, b)} :: b in bs ==> TagOk(g, mem, bs, b))
    && (forall s :: s in sbs ==> Read(mem, s) == sbs[s])
  }

  // ----- circular lists

  function Succ(i: nat, n: nat): nat
    requires i < n
  {
    if i + 1 == n then 0 else i + 1
  }

  function Pred(i: nat, n: nat): nat
    requires i < n
  {
    if i == 0 then n - 1 else i - 1
  }

  /** The position `i` steps further round a ring of `n` blocks, and the one `i` steps back. */
  function Ahead(i: nat, n: nat): (k: nat)
    requires 0 < n
    ensures k < n
  {
    if i == 0 then 0 else Succ(Ahead(i - 1, n), n)
  }

  function Behind(i: nat, n: nat): (k: nat)
    requires 0 < n
    ensures k < n
  {
    if i == 0 then 0 else Pred(Behind(i - 1, n), n)
  }

  ghost predicate Distinct(l: seq<nat>) {
    forall i, j :: 0 <= i < j < |l| ==> l[i] != l[j]
  }

  ghost predicate Members(g: Geometry, bs: Blocks, lno: nat, l: seq<nat>) {
    forall i :: 0 <= i < |l| ==>
      l[i] in bs && bs[l[i]].st.Listed? && Psz(g, bs[l[i]]) % MIN_SZB == 0 && ListNo(Psz(g, bs[l[i]])) == lno
  }

  /** The prev and next words of the blocks of `l` link them into one ring, in the order of `l`. */
  ghost predicate Linked(g: Geometry, mem: Memory, bs: Blocks, l: seq<nat>)
  {
    forall i {:trigger LinkedAt(g, mem, bs, l, i)} :: 0 <= i < |l| ==> LinkedAt(g, mem, bs, l, i)
  }

  ghost predicate LinkedAt(g: Geometry, mem: Memory, bs: Blocks, l: seq<nat>, i: nat)
    requires i < |l|
  {
    && l[i] in bs
    && Read(mem, NextCell(g, bs, l[i])) == l[Succ(i, |l|)]
    && Read(mem, PrevCell(g, l[i])) == l[Pred(i, |l|)]
  }

  ghost predicate ListOk(g: Geometry, mem: Memory, bs: Blocks, lno: nat, l: seq<nat>) {
    Members(g, bs, lno, l) && Distinct(l) && Linked(g, mem, bs, l)
  }

  ghost predicate ListsOk(g: Geometry, mem: Memory, bs: Blocks, lists: seq<seq<nat>>) {
    && |lists| == N_MALLOC_LISTS
    && (forall lno :: 0 <= lno < N_MALLOC_LISTS ==> ListOk(g, mem, bs, lno, lists[lno]))
  }

  /** Every free block is on the list its payload size selects. */
  ghost predicate AllListed(g: Geometry, bs: Blocks, lists: seq<seq<nat>>)
    requires |lists| == N_MALLOC_LISTS
  {
    forall b :: b in bs && bs[b].st.Listed? ==>
      Psz(g, bs[b]) % MIN_SZB == 0 && b in lists[ListNo(Psz(g, bs[b]))]
  }

  /** No two neighbouring blocks are both free. */
  ghost predicate NotBothFree(bs: Blocks, b: nat)
    requires b in bs
  {
    bs[b].st.Listed? && b + bs[b].size in bs ==> !bs[b + bs[b].size].st.Listed?
  }

  ghost predicate NoFreePair(bs: Blocks) {
    forall b {:trigger NotBothFree(bs, b)} :: b in bs ==> NotBothFree(bs, b)
  }

  // ----- consequences of the tiling

  lemma Eights(x: int, y: int)
    requires x % 8 == 0 && y % 8 == 0
    ensures (x - y) % 8 == 0 && (x + y) % 8 == 0
  {
  }

  /** Distinct blocks share no word. */
  lemma CellsApart(g: Geometry, sbs: Superblocks, bs: Blocks, b: nat, c: nat)
    requires g.Valid() && Tiled(g, sbs, bs) && b in bs && c in bs && b != c
    ensures b + bs[b].size <= c || c + bs[c].size <= b
    ensures bs[b].size >= 4 * g.W && bs[c].size >= 4 * g.W
  {
    assert BlockFits(g, sbs, bs, b) && BlockFits(g, sbs, bs, c);
  }

  /** No word of a block is the header word of a superblock. */
  lemma HeaderApart(g: Geometry, sbs: Superblocks, bs: Blocks, b: nat, s: nat)
    requires g.Valid() && Tiled(g, sbs, bs) && b in bs && s in sbs
    ensures s + g.W <= b || b + bs[b].size <= s
  {
    assert BlockFits(g, sbs, bs, b);
    var t := bs[b].sb;
    if s < t { } else if t < s { }
  }

  /** A block that is not first in its superblock has a predecessor that ends where it starts. */
  lemma Predecessor(g: Geometry, sbs: Superblocks, bs: Blocks, b: nat) returns (p: nat)
    requires g.Valid() && Tiled(g, sbs, bs) && b in bs && b != Start(g, bs[b].sb)
    ensures p in bs && p + bs[p].size == b && bs[p].sb == bs[b].sb
  {
    assert BlockFits(g, sbs, bs, b);
    assert SuperblockFits(g, sbs, bs, bs[b].sb);
    p := Start(g, bs[b].sb);
    while p + bs[p].size != b
      invariant p in bs && p < b && bs[p].sb == bs[b].sb
      decreases b - p
    {
      assert BlockFits(g, sbs, bs, p);
      p := p + bs[p].size;
      assert BlockFits(g, sbs, bs, p);
    }
  }

  // ----- the state invariant of every step

  ghost predicate Core(g: Geometry, mem: Memory, sbs: Superblocks, bs: Blocks, lists: seq<seq<nat>>) {
    && g.Valid()
    && Tiled(g, sbs, bs)
    && Mapped(g, mem, sbs)
    && TagsOk(g, mem, sbs, bs)
    && ListsOk(g, mem, bs, lists)
    && AllListed(g, bs, lists)
  }

  /** `mem'` agrees with `mem` on the words that `b` keeps: its tags and links. */
  ghost predicate SameWords(g: Geometry, mem: Memory, mem': Memory, bs: Blocks, b: nat)
    requires b in bs
  {
    && Read(mem', b) == Read(mem, b)
    && Read(mem', HighCell(g, bs, b)) == Read(mem, HighCell(g, bs, b))
    && Read(mem', PrevCell(g, b)) == Read(mem, PrevCell(g, b))
    && Read(mem', NextCell(g, bs, b)) == Read(mem, NextCell(g, bs, b))
  }

  lemma ListFrame(g: Geometry, mem: Memory, mem': Memory, bs: Blocks, bs': Blocks, lno: nat, l: seq<nat>)
    requires ListOk(g, mem, bs, lno, l)
    requires forall i :: 0 <= i < |l| ==> l[i] in bs' && bs'[l[i]] == bs[l[i]] && SameWords(g, mem, mem', bs, l[i])
    ensures ListOk(g, mem', bs', lno, l)
  {
    forall i | 0 <= i < |l|
      ensures LinkedAt(g, mem', bs', l, i)
    {
      assert LinkedAt(g, mem, bs, l, i);
      assert SameWords(g, mem, mem', bs, l[i]);
    }
  }

  /** A write inside one block leaves the words of every other block and of the headers alone. */
  lemma WriteApart(g: Geometry, mem: Memory, sbs: Superblocks, bs: Blocks, b: nat, a: nat, v: nat)
    requires g.Valid() && Tiled(g, sbs, bs) && b in bs && b <= a < b + bs[b].size
    ensures forall c {:trigger SameWords(g, mem, mem[a := v], bs, c)} :: c in bs && c != b ==>
      SameWords(g, mem, mem[a := v], bs, c)
    ensures forall s :: s in sbs ==> Read(mem[a := v], s) == Read(mem, s)
  {
    forall c | c in bs && c != b
      ensures SameWords(g, mem, mem[a := v], bs, c)
    {
      CellsApart(g, sbs, bs, b, c);
    }
    forall s | s in sbs
      ensures Read(mem[a := v], s) == Read(mem, s)
    {
      HeaderApart(g, sbs, bs, b, s);
    }
  }

  lemma MappedWrite(g: Geometry, mem: Memory, sbs: Superblocks, a: nat, v: nat)
    requires Mapped(g, mem, sbs)
    ensures Mapped(g, mem[a := v], sbs)
  {
  }

  /** The words of a loose block may be written freely. */
  lemma LooseWrite(g: Geometry, mem: Memory, sbs: Superblocks, bs: Blocks, lists: seq<seq<nat>>, b: nat, a: nat, v: nat)
    requires Core(g, mem, sbs, bs, lists)
    requires b in bs && bs[b].st.Loose? && b <= a < b + bs[b].size
    ensures Core(g, mem[a := v], sbs, bs, lists)
  {
    var mem' := mem[a := v];
    WriteApart(g, mem, sbs, bs, b, a, v);
    MappedWrite(g, mem, sbs, a, v);
    forall c | c in bs
      ensures TagOk(g, mem', bs, c)
    {
      assert TagOk(g, mem, bs, c);
      assert c != b ==> SameWords(g, mem, mem', bs, c);
    }
    forall lno | 0 <= lno < N_MALLOC_LISTS
      ensures ListOk(g, mem', bs, lno, lists[lno])
    {
      assert ListOk(g, mem, bs, lno, lists[lno]);
      ListFrame(g, mem, mem', bs, bs, lno, lists[lno]);
    }
  }

  /** Changing the status of a block keeps the tiling. */
  lemma TiledStatus(g: Geometry, sbs: Superblocks, bs: Blocks, b: nat, st: Status)
    requires Tiled(g, sbs, bs) && b in bs
    ensures Tiled(g, sbs, bs[b := bs[b].(st := st)])
  {
    var bs' := bs[b := bs[b].(st := st)];
    forall c | c in bs'
      ensures BlockFits(g, sbs, bs', c)
    {
      assert BlockFits(g, sbs, bs, c);
    }
    forall s | s in sbs
      ensures SuperblockFits(g, sbs, bs', s)
    {
      assert SuperblockFits(g, sbs, bs, s);
    }
  }

  // ----- ring surgery

  function Rotate(l: seq<nat>, k: nat): (r: seq<nat>)
    requires k <= |l|
  {
    l[k..] + l[..k]
  }

  /** The ring is the same, and its head is the lowest of the blocks up to five steps from the head before. */
  ghost predicate Swizzled(l: seq<nat>, l': seq<nat>) {
    if l == [] then l' == []
    else
      && |l'| == |l|
      && (exists k :: 0 <= k < |l| && l' == Rotate(l, k))
      && (forall i :: 0 <= i <= 5 ==> l'[0] <= l[Ahead(i, |l|)] && l'[0] <= l[Behind(i, |l|)])
      && (exists i :: 0 <= i <= 5 && (l'[0] == l[Ahead(i, |l|)] || l'[0] == l[Behind(i, |l|)]))
  }

  function Before(l: seq<nat>, k: nat): seq<nat>
    requires k < |l|
  {
    l[k + 1..] + l[..k]
  }

  function Shift(i: nat, k: nat, n: nat): nat
    requires i < n && k <= n
  {
    if i + k < n then i + k else i + k - n
  }

  lemma RotateAt(l: seq<nat>, k: nat, i: nat)
    requires k <= |l| && i < |l|
    ensures Rotate(l, k)[i] == l[Shift(i, k, |l|)]
  {
  }

  lemma RotateSame(l: seq<nat>, k: nat)
    requires k <= |l|
    ensures forall b :: b in Rotate(l, k) <==> b in l
  {
    assert l == l[..k] + l[k..];
  }

  lemma RotateDistinct(l: seq<nat>, k: nat)
    requires k <= |l| && Distinct(l)
    ensures Distinct(Rotate(l, k))
  {
    forall i, j | 0 <= i < j < |l|
      ensures Rotate(l, k)[i] != Rotate(l, k)[j]
    {
      RotateAt(l, k, i);
      RotateAt(l, k, j);
    }
  }

  lemma RotateLinked(g: Geometry, mem: Memory, bs: Blocks, l: seq<nat>, k: nat)
    requires Linked(g, mem, bs, l) && k <= |l|
    ensures Linked(g, mem, bs, Rotate(l, k))
  {
    var n := |l|;
    var r := Rotate(l, k);
    forall i | 0 <= i < n
      ensures LinkedAt(g, mem, bs, r, i)
    {
      RotateAt(l, k, i);
      RotateAt(l, k, Succ(i, n));
      RotateAt(l, k, Pred(i, n));
      hide Rotate;
      assert LinkedAt(g, mem, bs, l, Shift(i, k, n));
    }
  }

  lemma RotateOk(g: Geometry, mem: Memory, bs: Blocks, lno: nat, l: seq<nat>, k: nat)
    requires ListOk(g, mem, bs, lno, l) && k <= |l|
    ensures ListOk(g, mem, bs, lno, Rotate(l, k))
  {
    hide UnitListNo, Distinct, Linked;
    RotateDistinct(l, k);
    RotateLinked(g, mem, bs, l, k);
    RotateSame(l, k);
  }

  /** Two writes seen from the links of `c`. */
  lemma LinksAfter(g: Geometry, mem: Memory, sbs: Superblocks, bs: Blocks, p: nat, q: nat, v: nat, w: nat, c: nat)
    requires g.Valid() && Tiled(g, sbs, bs) && p in bs && q in bs && c in bs
    ensures var mem' := mem[NextCell(g, bs, p) := v][PrevCell(g, q) := w];
            && Read(mem', NextCell(g, bs, c)) == (if c == p then v else Read(mem, NextCell(g, bs, c)))
            && Read(mem', PrevCell(g, c)) == (if c == q then w else Read(mem, PrevCell(g, c)))
            && Read(mem', c) == Read(mem, c)
            && Read(mem', HighCell(g, bs, c)) == Read(mem, HighCell(g, bs, c))
  {
    assert BlockFits(g, sbs, bs, c);
    if c != p { CellsApart(g, sbs, bs, c, p); }
    if c != q { CellsApart(g, sbs, bs, c, q); }
  }

  /** Splicing the head out of a ring. */
  lemma SpliceHead(g: Geometry, mem: Memory, sbs: Superblocks, bs: Blocks, lno: nat, l: seq<nat>)
    requires g.Valid() && Tiled(g, sbs, bs)
    requires ListOk(g, mem, bs, lno, l) && |l| >= 2
    ensures var p, q := l[|l| - 1], l[1];
            ListOk(g, mem[NextCell(g, bs, p) := q][PrevCell(g, q) := p], bs, lno, l[1..])
  {
    hide UnitListNo;
    var n := |l|;
    var p, q := l[n - 1], l[1];
    var mem' := mem[NextCell(g, bs, p) := q][PrevCell(g, q) := p];
    var m := l[1..];
    forall i | 0 <= i < |m|
      ensures LinkedAt(g, mem', bs, m, i)
    {
      assert m[i] == l[i + 1];
      assert LinkedAt(g, mem, bs, l, i + 1);
      LinksAfter(g, mem, sbs, bs, p, q, q, p, m[i]);
      assert m[i] == p <==> i == n - 2;
      assert m[i] == q <==> i == 0;
    }
  }

  /** Linking a block in between the last and the first block of a ring. */
  lemma SpliceIn(g: Geometry, mem: Memory, sbs: Superblocks, bs: Blocks, lno: nat, l: seq<nat>, b: nat)
    requires g.Valid() && Tiled(g, sbs, bs)
    requires ListOk(g, mem, bs, lno, l) && |l| >= 1 && b !in l
    requires b in bs && Members(g, bs, lno, [b])
    requires Read(mem, NextCell(g, bs, b)) == l[0] && Read(mem, PrevCell(g, b)) == l[|l| - 1]
    ensures ListOk(g, mem[NextCell(g, bs, l[|l| - 1]) := b][PrevCell(g, l[0]) := b], bs, lno, l + [b])
  {
    hide UnitListNo;
    var n := |l|;
    var p, q := l[n - 1], l[0];
    var mem' := mem[NextCell(g, bs, p) := b][PrevCell(g, q) := b];
    var m := l + [b];
    assert [b][0] == b;
    forall i | 0 <= i < |m|
      ensures LinkedAt(g, mem', bs, m, i)
    {
      LinksAfter(g, mem, sbs, bs, p, q, b, b, m[i]);
      if i < n {
        assert LinkedAt(g, mem, bs, l, i);
        assert m[i] == p <==> i == n - 1;
        assert m[i] == q <==> i == 0;
      }
    }
  }

  /** A list untouched by two link writes and a status change elsewhere. */
  lemma OtherList(g: Geometry, mem: Memory, sbs: Superblocks, bs: Blocks, lno: nat, l: seq<nat>,
                  p: nat, q: nat, v: nat, w: nat, b: nat, st: Status)
    requires g.Valid() && Tiled(g, sbs, bs) && ListOk(g, mem, bs, lno, l)
    requires p in bs && q in bs && b in bs && p !in l && q !in l && b !in l
    ensures ListOk(g, mem[NextCell(g, bs, p) := v][PrevCell(g, q) := w], bs[b := bs[b].(st := st)], lno, l)
  {
    var mem' := mem[NextCell(g, bs, p) := v][PrevCell(g, q) := w];
    forall i | 0 <= i < |l|
      ensures SameWords(g, mem, mem', bs, l[i])
    {
      LinksAfter(g, mem, sbs, bs, p, q, v, w, l[i]);
    }
    ListFrame(g, mem, mem', bs, bs[b := bs[b].(st := st)], lno, l);
  }

  lemma ListStatus(g: Geometry, mem: Memory, bs: Blocks, lno: nat, l: seq<nat>, b: nat, st: Status)
    requires ListOk(g, mem, bs, lno, l) && b in bs && b !in l
    ensures ListOk(g, mem, bs[b := bs[b].(st := st)], lno, l)
  {
    ListFrame(g, mem, mem, bs, bs[b := bs[b].(st := st)], lno, l);
  }

  lemma NotOnOther(g: Geometry, mem: Memory, bs: Blocks, lists: seq<seq<nat>>, lno: nat, other: nat, b: nat)
    requires ListsOk(g, mem, bs, lists)
    requires lno < N_MALLOC_LISTS && other < N_MALLOC_LISTS && lno != other && b in lists[lno]
    ensures b !in lists[other]
  {
    assert ListOk(g, mem, bs, lno, lists[lno]);
    assert ListOk(g, mem, bs, other, lists[other]);
  }

  lemma TagsAfterLinks(g: Geometry, mem: Memory, sbs: Superblocks, bs: Blocks, p: nat, q: nat, v: nat, w: nat)
    requires g.Valid() && Tiled(g, sbs, bs) && Mapped(g, mem, sbs) && TagsOk(g, mem, sbs, bs) && p in bs && q in bs
    ensures var mem' := mem[NextCell(g, bs, p) := v][PrevCell(g, q) := w];
            Mapped(g, mem', sbs) && TagsOk(g, mem', sbs, bs)
  {
    var mem' := mem[NextCell(g, bs, p) := v][PrevCell(g, q) := w];
    forall c | c in bs
      ensures TagOk(g, mem', bs, c)
    {
      assert TagOk(g, mem, bs, c);
      LinksAfter(g, mem, sbs, bs, p, q, v, w, c);
    }
    forall s | s in sbs
      ensures Read(mem', s) == sbs[s]
    {
      assert BlockFits(g, sbs, bs, p) && BlockFits(g, sbs, bs, q);
      HeaderApart(g, sbs, bs, p, s);
      HeaderApart(g, sbs, bs, q, s);
    }
  }

  lemma TagsStatus(g: Geometry, mem: Memory, sbs: Superblocks, bs: Blocks, b: nat, st: Status)
    requires TagsOk(g, mem, sbs, bs) && b in bs
    requires st.Loose? ||
             (Read(mem, b) == Tag(bs[b].(st := st)) && Read(mem, HighCell(g, bs, b)) == Tag(bs[b].(st := st)))
    ensures TagsOk(g, mem, sbs, bs[b := bs[b].(st := st)])
  {
    forall c | c in bs
      ensures TagOk(g, mem, bs[b := bs[b].(st := st)], c)
    {
      assert TagOk(g, mem, bs, c);
    }
  }

  ghost function UnlinkedMemory(g: Geometry, mem: Memory, bs: Blocks, l: seq<nat>, k: nat): Memory
    requires k < |l| && l[Pred(k, |l|)] in bs
  {
    var p, q := l[Pred(k, |l|)], l[Succ(k, |l|)];
    if |l| == 1 then mem else mem[NextCell(g, bs, p) := q][PrevCell(g, q) := p]
  }

  lemma UnlinkList(g: Geometry, mem: Memory, sbs: Superblocks, bs: Blocks, lno: nat, l: seq<nat>, k: nat)
    requires g.Valid() && Tiled(g, sbs, bs) && ListOk(g, mem, bs, lno, l) && k < |l|
    ensures ListOk(g, UnlinkedMemory(g, mem, bs, l, k), bs[l[k] := bs[l[k]].(st := Loose)], lno, Before(l, k))
  {
    hide UnitListNo;
    var b, l' := l[k], Before(l, k);
    var mem' := UnlinkedMemory(g, mem, bs, l, k);
    if |l| > 1 {
      RotateOk(g, mem, bs, lno, l, k);
      SpliceHead(g, mem, sbs, bs, lno, Rotate(l, k));
      assert Rotate(l, k)[1..] == l';
    } else {
      assert l' == [];
    }
    assert ListOk(g, mem', bs, lno, l');
    assert b !in l';
    ListStatus(g, mem', bs, lno, l', b, Loose);
  }

  lemma UnlinkOthers(g: Geometry, mem: Memory, sbs: Superblocks, bs: Blocks, lists: seq<seq<nat>>, lno: nat, k: nat,
                     o: nat)
    requires g.Valid() && Tiled(g, sbs, bs) && ListsOk(g, mem, bs, lists)
    requires lno < N_MALLOC_LISTS && o < N_MALLOC_LISTS && o != lno && k < |lists[lno]|
    ensures ListOk(g, mem, bs, lno, lists[lno])
    ensures var l := lists[lno];
            ListOk(g, UnlinkedMemory(g, mem, bs, l, k), bs[l[k] := bs[l[k]].(st := Loose)], o, lists[o])
  {
    var l := lists[lno];
    var b, p, q := l[k], l[Pred(k, |l|)], l[Succ(k, |l|)];
    assert ListOk(g, mem, bs, lno, l);
    assert ListOk(g, mem, bs, o, lists[o]);
    NotOnOther(g, mem, bs, lists, lno, o, b);
    NotOnOther(g, mem, bs, lists, lno, o, p);
    NotOnOther(g, mem, bs, lists, lno, o, q);
    if |l| > 1 {
      OtherList(g, mem, sbs, bs, o, lists[o], p, q, q, p, b, Loose);
    } else {
      ListStatus(g, mem, bs, o, lists[o], b, Loose);
    }
  }

  lemma AllListedUnlink(g: Geometry, bs: Blocks, lists: seq<seq<nat>>, lno: nat, k: nat)
    requires |lists| == N_MALLOC_LISTS && lno < N_MALLOC_LISTS && k < |lists[lno]| && lists[lno][k] in bs
    requires AllListed(g, bs, lists)
    ensures var l := lists[lno];
            AllListed(g, bs[l[k] := bs[l[k]].(st := Loose)], lists[lno := Before(l, k)])
  {
    var l := lists[lno];
    var b, l' := l[k], Before(l, k);
    assert forall c :: c in l && c != b ==> c in l' by {
      forall c | c in l && c != b
        ensures c in l'
      {
        var i :| 0 <= i < |l| && l[i] == c;
        assert if i < k then l'[|l| - k - 1 + i] == c else l'[i - k - 1] == c;
      }
    }
  }

  /** unlinkBlock: a listed block becomes loose and its neighbours on the ring are joined. */
  lemma UnlinkCore(g: Geometry, mem: Memory, sbs: Superblocks, bs: Blocks, lists: seq<seq<nat>>, lno: nat, k: nat)
    requires Core(g, mem, sbs, bs, lists)
    requires lno < N_MALLOC_LISTS && k < |lists[lno]|
    ensures ListOk(g, mem, bs, lno, lists[lno])
    ensures var l := lists[lno];
            Core(g, UnlinkedMemory(g, mem, bs, l, k), sbs, bs[l[k] := bs[l[k]].(st := Loose)],
                 lists[lno := Before(l, k)])
  {
    hide UnitListNo;
    var l := lists[lno];
    assert ListOk(g, mem, bs, lno, l);
    var b, p, q := l[k], l[Pred(k, |l|)], l[Succ(k, |l|)];
    var mem' := UnlinkedMemory(g, mem, bs, l, k);
    if |l| > 1 {
      TagsAfterLinks(g, mem, sbs, bs, p, q, q, p);
    }
    TagsStatus(g, mem', sbs, bs, b, Loose);
    TiledStatus(g, sbs, bs, b, Loose);
    UnlinkList(g, mem, sbs, bs, lno, l, k);
    forall o | 0 <= o < N_MALLOC_LISTS && o != lno
      ensures ListOk(g, mem', bs[b := bs[b].(st := Loose)], o, lists[o])
    {
      UnlinkOthers(g, mem, sbs, bs, lists, lno, k, o);
    }
    AllListedUnlink(g, bs, lists, lno, k);
  }

  ghost function LinkedMemory(g: Geometry, mem: Memory, bs: Blocks, l: seq<nat>, b: nat): Memory
    requires l != [] ==> l[|l| - 1] in bs
  {
    if l == [] then mem else mem[NextCell(g, bs, l[|l| - 1]) := b][PrevCell(g, l[0]) := b]
  }

  lemma LinkList(g: Geometry, mem: Memory, sbs: Superblocks, bs: Blocks, lno: nat, l: seq<nat>, b: nat)
    requires g.Valid() && Tiled(g, sbs, bs) && ListOk(g, mem, bs, lno, l)
    requires b in bs && bs[b].st.Loose?
    requires Psz(g, bs[b]) % MIN_SZB == 0 && ListNo(Psz(g, bs[b])) == lno
    requires Read(mem, NextCell(g, bs, b)) == (l + [b])[0]
    requires Read(mem, PrevCell(g, b)) == (if l == [] then b else l[|l| - 1])
    ensures ListOk(g, LinkedMemory(g, mem, bs, l, b), bs[b := bs[b].(st := Listed)], lno, l + [b])
  {
    hide UnitListNo;
    var bs' := bs[b := bs[b].(st := Listed)];
    assert b !in l;
    TiledStatus(g, sbs, bs, b, Listed);
    ListStatus(g, mem, bs, lno, l, b, Listed);
    if l == [] {
      assert l + [b] == [b];
      assert LinkedAt(g, mem, bs', [b], 0);
    } else {
      SpliceIn(g, mem, sbs, bs', lno, l, b);
    }
  }

  lemma LinkOthers(g: Geometry, mem: Memory, sbs: Superblocks, bs: Blocks, lists: seq<seq<nat>>, lno: nat, b: nat,
                   o: nat)
    requires g.Valid() && Tiled(g, sbs, bs) && ListsOk(g, mem, bs, lists)
    requires lno < N_MALLOC_LISTS && o < N_MALLOC_LISTS && o != lno
    requires b in bs && bs[b].st.Loose?
    ensures ListOk(g, mem, bs, lno, lists[lno])
    ensures ListOk(g, LinkedMemory(g, mem, bs, lists[lno], b), bs[b := bs[b].(st := Listed)], o, lists[o])
  {
    var l := lists[lno];
    assert ListOk(g, mem, bs, lno, l);
    assert ListOk(g, mem, bs, o, lists[o]);
    if l == [] {
      ListStatus(g, mem, bs, o, lists[o], b, Listed);
    } else {
      NotOnOther(g, mem, bs, lists, lno, o, l[0]);
      NotOnOther(g, mem, bs, lists, lno, o, l[|l| - 1]);
      OtherList(g, mem, sbs, bs, o, lists[o], l[|l| - 1], l[0], b, b, b, Listed);
    }
  }

  /** mkFreeBlock: a loose block, already tagged and with its own links set, joins the end of its ring. */
  lemma LinkCore(g: Geometry, mem: Memory, sbs: Superblocks, bs: Blocks, lists: seq<seq<nat>>, lno: nat, b: nat)
    requires Core(g, mem, sbs, bs, lists)
    requires lno < N_MALLOC_LISTS && b in bs && bs[b].st.Loose?
    requires Psz(g, bs[b]) % MIN_SZB == 0 && ListNo(Psz(g, bs[b])) == lno
    requires Read(mem, b) == bs[b].size + 1 && Read(mem, HighCell(g, bs, b)) == bs[b].size + 1
    requires Read(mem, NextCell(g, bs, b)) == (lists[lno] + [b])[0]
    requires Read(mem, PrevCell(g, b)) == (if lists[lno] == [] then b else lists[lno][|lists[lno]| - 1])
    ensures ListOk(g, mem, bs, lno, lists[lno])
    ensures var l := lists[lno];
            Core(g, LinkedMemory(g, mem, bs, l, b), sbs, bs[b := bs[b].(st := Listed)], lists[lno := l + [b]])
  {
    hide UnitListNo;
    var l := lists[lno];
    assert ListOk(g, mem, bs, lno, l);
    var mem' := LinkedMemory(g, mem, bs, l, b);
    if l != [] {
      TagsAfterLinks(g, mem, sbs, bs, l[|l| - 1], l[0], b, b);
      LinksAfter(g, mem, sbs, bs, l[|l| - 1], l[0], b, b, b);
    }
    TagsStatus(g, mem', sbs, bs, b, Listed);
    TiledStatus(g, sbs, bs, b, Listed);
    LinkList(g, mem, sbs, bs, lno, l, b);
    forall o | 0 <= o < N_MALLOC_LISTS && o != lno
      ensures ListOk(g, mem', bs[b := bs[b].(st := Listed)], o, lists[o])
    {
      LinkOthers(g, mem, sbs, bs, lists, lno, b, o);
    }
  }
}
