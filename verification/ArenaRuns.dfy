/** Whole runs of the allocator, with its sanity check after every step (m_mallocfree.c). */
module ArenaRuns {
  import opened SizeClasses
  import opened ArenaState
  import opened ArenaShapes
  import opened ArenaWords
  import opened Options
  import opened ArenaFacts
  import opened Arena
  import ArenaChecks

  /** A client's request. `grant` is what the address space manager would answer to a request for a superblock,
      and `table` whether it could enlarge the superblock table. */
  datatype Command =
    | Alloc(req: nat, grant: Option<Grant>, table: bool)
    | AllocAligned(alignB: nat, req: nat, grant: Option<Grant>, table: bool)
    | Release(k: nat)
    | Write(k: nat, offset: nat, v: nat)

  /** A word the client wrote: into which block, and what. */
  datatype Written = Written(b: nat, v: nat)

  /** The answers that an address space manager can give: fresh, aligned regions of the size asked for. */
  predicate Grantable(g: Geometry, t: seq<nat>, mem: Memory, grant: Grant, len: nat) {
    && 0 < len && 0 < grant.addr && grant.addr % MIN_SZB == 0 && grant.addr + len < g.space
    && (forall a :: grant.addr <= a < grant.addr + len ==> a in grant.contents)
    && (forall a :: a in grant.contents ==> grant.addr <= a < grant.addr + len)
    && (forall i :: 0 <= i < |t| ==> t[i] in mem)
    && (forall i :: 0 <= i < |t| ==> t[i] + g.Header() + mem[t[i]] <= grant.addr || grant.addr + len <= t[i])
  }

  /** What the address space manager hands over, if what it is to hand over is a fresh region of that size. */
  ghost function Given(g: Geometry, sbs: Superblocks, grant: Option<Grant>, len: nat): Option<Grant> {
    if GrantOk(g, sbs, grant, len) then grant else None
  }

  lemma GrantableExact(g: Geometry, t: seq<nat>, mem: Memory, sbs: Superblocks, bs: Blocks, lists: seq<seq<nat>>,
                       grant: Grant, len: nat)
    requires Core(g, mem, sbs, bs, lists) && TableOk(t, sbs)
    ensures Grantable(g, t, mem, grant, len) <==> GrantOk(g, sbs, Some(grant), len)
  {
    hide Tiled, TagsOk, ListsOk, AllListed;
    forall i | 0 <= i < |t|
      ensures t[i] in mem && t[i] + g.Header() + mem[t[i]] == End(g, sbs, t[i])
    {
      SuperblockMapped(g, mem, sbs, bs, t[i]);
    }
    if Grantable(g, t, mem, grant, len) {
      forall s | s in sbs
        ensures End(g, sbs, s) <= grant.addr || grant.addr + len <= s
      {
        var i :| 0 <= i < |t| && t[i] == s;
        assert t[i] + g.Header() + mem[t[i]] <= grant.addr || grant.addr + len <= t[i];
      }
    }
  }

  /** The client holds distinct live payload addresses. */
  ghost predicate Holding(g: Geometry, bs: Blocks, held: seq<nat>) {
    && (forall i :: 0 <= i < |held| ==> LiveAt(g, bs, held[i]))
    && (forall i, j :: 0 <= i < j < |held| ==> held[i] != held[j])
  }

  /** Every word the client wrote into a block it still holds has kept its value. */
  ghost predicate Remembers(g: Geometry, mem: Memory, bs: Blocks, words: map<nat, Written>) {
    forall a :: a in words ==> Remembered(g, mem, bs, a, words[a])
  }

  ghost predicate Remembered(g: Geometry, mem: Memory, bs: Blocks, a: nat, w: Written) {
    && w.b in Live(g, bs)
    && w.b + g.OverheadLo() <= a < a + g.W <= w.b + g.OverheadLo() + Live(g, bs)[w.b]
    && Read(mem, a) == w.v
  }

  lemma RememberedAfter(g: Geometry, mem: Memory, mem': Memory, bs: Blocks, bs': Blocks, words: map<nat, Written>)
    requires Remembers(g, mem, bs, words) && LiveWordsKept(mem, mem', bs)
    requires forall b :: b in Live(g, bs) ==> b in Live(g, bs') && Live(g, bs')[b] == Live(g, bs)[b]
    ensures Remembers(g, mem', bs', words)
  {
    forall a | a in words
      ensures Remembered(g, mem', bs', a, words[a])
    {
      assert Remembered(g, mem, bs, a, words[a]);
    }
  }

  /** All but the words in block `b`. */
  ghost function Forget(words: map<nat, Written>, b: nat): map<nat, Written> {
    map a | a in words && words[a].b != b :: words[a]
  }

  lemma RememberedFreed(g: Geometry, mem: Memory, mem': Memory, bs: Blocks, bs': Blocks, words: map<nat, Written>,
                        b: nat)
    requires Remembers(g, mem, bs, words) && LiveWordsKept(mem, mem', bs') && Live(g, bs') == Live(g, bs) - {b}
    ensures Remembers(g, mem', bs', Forget(words, b))
  {
    forall a | a in words && words[a].b != b
      ensures Remembered(g, mem', bs', a, words[a])
    {
      assert Remembered(g, mem, bs, a, words[a]);
      assert words[a].b in Live(g, bs');
    }
  }

  /** A request for an aligned block, with an alignment that is accepted, whose base block is too large for a SizeT. */
  ghost predicate WrapsRound(g: Geometry, cmd: Command)
    requires g.Valid()
  {
    cmd.AllocAligned? && cmd.req < g.space && Alignable(cmd.alignB) && BaseWraps(g, cmd.alignB, cmd.req)
  }

  // ----- what each request does

  /** All that a run can tell of an arena and its client: the memory, the superblocks and blocks, the length of the
      superblock table and how much of it is used, the pointers held and the words written. */
  datatype Moment = Moment(mem: Memory, sbs: Superblocks, bs: Blocks, room: nat, used: nat, held: seq<nat>,
                           words: map<nat, Written>)

  ghost function Now(a: Arena, held: seq<nat>, words: map<nat, Written>): Moment
    reads a
  {
    Moment(a.mem, a.sbs, a.bs, a.sblocks.Length, a.sblocksUsed, held, words)
  }

  /** A pointer to a block that was not live is handed out; the client keeps what it had. */
  ghost predicate HandsOut(g: Geometry, s: Moment, s': Moment, pszB: nat, alignB: nat) {
    && |s'.held| == |s.held| + 1 && s'.held[..|s.held|] == s.held && s'.words == s.words
    && alignB > 0 && s'.held[|s.held|] % alignB == 0 && HandedAtLeast(g, s.bs, s'.bs, s'.held[|s.held|], pszB)
    && LiveWordsKept(s.mem, s'.mem, s.bs)
  }

  /** The request is not served: an arena of the client's has not been given a superblock. */
  ghost predicate GoesWithout(g: Geometry, s: Moment, s': Moment, answer: Option<Grant>) {
    && g.clientmem && answer.None? && s'.bs == s.bs && s'.held == s.held && s'.words == s.words
    && LiveWordsKept(s.mem, s'.mem, s.bs)
  }

  /** The superblock that request `cmd` may need: its size, and what is answered. */
  ghost function Needs(g: Geometry, minSblock: nat, cmd: Command): nat
    requires g.Valid()
  {
    match cmd
    case Alloc(req, _, _) => BytesFor(g, minSblock, req)
    case AllocAligned(alignB, req, _, _) => BytesFor(g, minSblock, BaseReq(g, alignB, req))
    case Release(_) => 0
    case Write(_, _, _) => 0
  }

  ghost function GivenFor(g: Geometry, minSblock: nat, cmd: Command, s: Moment): Option<Grant>
    requires g.Valid() && (cmd.Alloc? || cmd.AllocAligned?)
  {
    Given(g, s.sbs, cmd.grant, Needs(g, minSblock, cmd))
  }

  /** A word at `offset` fits into the payload of the block with payload address `p`. */
  ghost predicate FitsIn(g: Geometry, bs: Blocks, p: nat, offset: nat) {
    p - g.OverheadLo() in Live(g, bs) && offset + g.W <= Live(g, bs)[p - g.OverheadLo()]
  }

  /** What the request does, if the process lives on. */
  ghost predicate Does(g: Geometry, minSblock: nat, cmd: Command, s: Moment, s': Moment)
    requires g.Valid()
  {
    match cmd
    case Alloc(req, _, _) =>
      if req >= g.space then s' == s
      else
        var answer := GivenFor(g, minSblock, cmd, s);
        && req < g.space - 1 && OnlyAdds(g, s.sbs, s'.sbs, answer, Needs(g, minSblock, cmd))
        && (|| (Deliverable(g, AlignReq(g, req)) && HandsOut(g, s, s', AlignReq(g, req), MIN_SZB))
            || GoesWithout(g, s, s', answer))
    case AllocAligned(alignB, req, _, _) =>
      if req >= g.space || alignB >= g.space then s' == s
      else
        var answer := GivenFor(g, minSblock, cmd, s);
        && Alignable(alignB) && OnlyAdds(g, s.sbs, s'.sbs, answer, Needs(g, minSblock, cmd))
        && (|| (Serveable(g, alignB, req) && HandsOut(g, s, s', AlignReq(g, req), alignB))
            || GoesWithout(g, s, s', answer))
    case Release(k) =>
      if k >= |s.held| then s' == s
      else
        && LetsGo(g, s, s', s.held[k] - g.OverheadLo()) && s'.held == s.held[..k] + s.held[k + 1..]
    case Write(k, offset, v) =>
      if k < |s.held| && offset % g.W == 0 && FitsIn(g, s.bs, s.held[k], offset) then
        s' == Stored(s, s.held[k] + offset, s.held[k] - g.OverheadLo(), v)
      else s' == s
  }

  /** Block `b` is no longer live; all others keep their words. */
  ghost predicate LetsGo(g: Geometry, s: Moment, s': Moment, b: int) {
    && Live(g, s'.bs) == Live(g, s.bs) - {b} && s'.sbs == s.sbs && LiveWordsKept(s.mem, s'.mem, s'.bs)
    && b >= 0 && s'.words == Forget(s.words, b)
  }

  /** The word at `a`, in block `b`, has been written, and nothing else. */
  ghost function Stored(s: Moment, a: nat, b: int, v: nat): Moment {
    if b < 0 then s else s.(mem := s.mem[a := v], words := s.words[a := Written(b, v)])
  }

  /** The request may end the process: a size of all ones, or one that no superblock can hold, or an alignment that is
      not accepted; an arena of the core's own that is not given a superblock; or a full superblock table that cannot
      grow. */
  ghost predicate MayExit(g: Geometry, minSblock: nat, cmd: Command, s: Moment)
    requires g.Valid()
  {
    && (cmd.Alloc? || cmd.AllocAligned?) && cmd.req < g.space
    && (cmd.Alloc? ==> cmd.req == g.space - 1 || !Deliverable(g, AlignReq(g, cmd.req)) || Unlucky(g, minSblock, cmd, s))
    && (cmd.AllocAligned? ==> !Serveable(g, cmd.alignB, cmd.req) || Unlucky(g, minSblock, cmd, s))
  }

  ghost predicate Unlucky(g: Geometry, minSblock: nat, cmd: Command, s: Moment)
    requires g.Valid() && (cmd.Alloc? || cmd.AllocAligned?)
  {
    || (GivenFor(g, minSblock, cmd, s).None? && !g.clientmem)
    || (!(cmd.table && TableRoom(g, s.room)) && s.used == s.room)
  }

  /** The client holds distinct live pointers, and every word it wrote is still there. */
  ghost predicate Intact(g: Geometry, s: Moment) {
    Holding(g, s.bs, s.held) && Remembers(g, s.mem, s.bs, s.words)
  }

  /** What any request does leaves that intact. */
  lemma IntactAfter(g: Geometry, minSblock: nat, cmd: Command, s: Moment, s': Moment)
    requires g.Valid() && Intact(g, s) && Does(g, minSblock, cmd, s, s')
    ensures Intact(g, s')
  {
    hide Holding, Remembers, LiveWordsKept, OnlyAdds, BytesFor, BaseReq, AlignReq, Forget, Live, Needs, GivenFor;
    hide HandedAtLeast;
    match cmd
    case Alloc(req, _, _) =>
      AllocIntact(g, s, s');
    case AllocAligned(_, _, _, _) =>
      AllocIntact(g, s, s');
    case Release(k) =>
      if k < |s.held| {
        HoldingDrop(g, s.bs, s.held, k);
        HoldingFreed(g, s.bs, s'.bs, s.held, k);
        RememberedFreed(g, s.mem, s'.mem, s.bs, s'.bs, s.words, s.held[k] - g.OverheadLo());
      }
    case Write(k, offset, v) =>
      if k < |s.held| && offset % g.W == 0 && FitsIn(g, s.bs, s.held[k], offset) {
        HoldingDrop(g, s.bs, s.held, k);
        WrittenNow(g, s.mem, s.bs, s.words, s.held[k] + offset, Written(s.held[k] - g.OverheadLo(), v));
      }
  }

  lemma AllocIntact(g: Geometry, s: Moment, s': Moment)
    requires Intact(g, s)
    ensures forall psz, al :: HandsOut(g, s, s', psz, al) ==> Intact(g, s')
    ensures forall o :: GoesWithout(g, s, s', o) ==> Intact(g, s')
  {
    hide Holding, Remembers, LiveWordsKept;
    forall psz, al | HandsOut(g, s, s', psz, al)
      ensures Intact(g, s')
    {
      var p := s'.held[|s.held|];
      Gained(g, s.mem, s'.mem, s.bs, s'.bs, s.words, s.held, p);
      assert s'.held == s.held + [p];
    }
    forall o | GoesWithout(g, s, s', o)
      ensures Intact(g, s')
    {
      RememberedAfter(g, s.mem, s'.mem, s.bs, s'.bs, s.words);
    }
  }

  // ----- serving a request

  /** What becomes of the process: it lives on, a sanity check fails, it exits, or the allocator has written outside the
      block that it was to split, and lives on, but not by the rules. */
  datatype Fate = Alive | CheckFailed | Exited | WroteOutside

  /** One request served. */
  method Serve(a: Arena, cmd: Command, held: seq<nat>, ghost words: map<nat, Written>)
    returns (fate: Fate, held': seq<nat>, ghost words': map<nat, Written>)
    requires a.Valid() && Intact(a.g, Now(a, held, words))
    modifies a, a.freelist, a.sblocks
    ensures fate.Alive? ==> a.Valid() && (a.sblocks == old(a.sblocks) || fresh(a.sblocks))
    ensures fate.Alive? ==> Does(a.g, a.minSblock, cmd, old(Now(a, held, words)), Now(a, held', words'))
    ensures fate.Exited? ==> MayExit(a.g, a.minSblock, cmd, old(Now(a, held, words)))
    ensures !fate.CheckFailed? && (fate.WroteOutside? ==> WrapsRound(a.g, cmd))
  {
    hide Arena.Valid, Intact, Does, MayExit, WrapsRound;
    match cmd
    case Alloc(req, grant, table) =>
      fate, held' := ServeAlloc(a, req, grant, table, held, words);
      words' := words;
    case AllocAligned(alignB, req, grant, table) =>
      fate, held' := ServeAligned(a, alignB, req, grant, table, held, words);
      words' := words;
    case Release(k) =>
      held', words' := ServeFree(a, k, held, words);
      fate := Alive;
    case Write(k, offset, v) =>
      words' := ServeWrite(a, k, offset, v, held, words);
      fate, held' := Alive, held;
  }

  /** The address space manager's answer, if it is one it could give. */
  method Answer(a: Arena, grant: Option<Grant>, len: nat) returns (r: Option<Grant>)
    requires a.Valid()
    ensures r == Given(a.g, a.sbs, grant, len) && GrantOk(a.g, a.sbs, r, len)
  {
    hide Core, TableOk, GrantOk, Grantable;
    NoGrant(a.g, a.sbs, len);
    if grant.Some? {
      GrantableExact(a.g, a.sblocks[..a.sblocksUsed], a.mem, a.sbs, a.bs, a.lists, grant.value, len);
      if Grantable(a.g, a.sblocks[..a.sblocksUsed], a.mem, grant.value, len) {
        return grant;
      }
    }
    return None;
  }

  lemma NoGrant(g: Geometry, sbs: Superblocks, len: nat)
    ensures GrantOk(g, sbs, None, len)
  {
  }

  /** A new live block joins those held; nothing is forgotten. */
  lemma Gained(g: Geometry, mem: Memory, mem': Memory, bs: Blocks, bs': Blocks, words: map<nat, Written>,
               held: seq<nat>, p: int)
    requires Holding(g, bs, held) && Remembers(g, mem, bs, words) && LiveWordsKept(mem, mem', bs)
    requires p >= 0 && p - g.OverheadLo() >= 0 && p - g.OverheadLo() !in Live(g, bs) && p - g.OverheadLo() in bs'
    requires Live(g, bs') == Live(g, bs)[p - g.OverheadLo() := Psz(g, bs'[p - g.OverheadLo()])]
    ensures Holding(g, bs', held + [p]) && Remembers(g, mem', bs', words)
  {
    hide Live, LiveWordsKept, Psz, Remembers;
    RememberedAfter(g, mem, mem', bs, bs', words);
    forall i | 0 <= i < |held|
      ensures LiveAt(g, bs', held[i]) && held[i] != p
    {
      assert LiveAt(g, bs, held[i]);
    }
  }

  lemma HandedEnough(g: Geometry, bs: Blocks, bs': Blocks, p: int, reqP: nat)
    requires Handed(g, bs, bs', p, reqP)
    ensures p >= 0 && p % MIN_SZB == 0 && HandedAtLeast(g, bs, bs', p, reqP)
  {
  }

  method ServeAlloc(a: Arena, req: nat, grant: Option<Grant>, table: bool, held: seq<nat>, ghost words: map<nat,
                    Written>)
    returns (fate: Fate, held': seq<nat>)
    requires a.Valid()
    modifies a, a.freelist, a.sblocks
    ensures fate.Alive? || fate.Exited?
    ensures fate.Alive? ==> a.Valid() && (a.sblocks == old(a.sblocks) || fresh(a.sblocks))
    ensures var cmd, s := Alloc(req, grant, table), old(Now(a, held, words));
            && (fate.Alive? ==> Does(a.g, a.minSblock, cmd, s, Now(a, held', words)))
            && (fate.Exited? ==> MayExit(a.g, a.minSblock, cmd, s))
  {
    hide Core, TableOk, Settled, Redzones, Paged, LiveWordsKept, GrantOk, BytesFor, AlignReq, Live, Given;
    hide Covers, Deliverable, OnlyAdds, MadeFrom, AllSmaller, Handed, HandedAtLeast, TakenFirst, TableRoom;
    if req >= a.g.space {
      return Alive, held;
    }
    var answer := Answer(a, grant, BytesFor(a.g, a.minSblock, req));
    var r := a.Malloc(req, answer, table && TableRoom(a.g, a.sblocks.Length));
    if r.Panic? {
      return Exited, held;
    }
    if r.Got? {
      HandedEnough(a.g, old(a.bs), a.bs, r.p, AlignReq(a.g, req));
      return Alive, held + [r.p];
    }
    return Alive, held;
  }

  method ServeAligned(a: Arena, alignB: nat, req: nat, grant: Option<Grant>, table: bool, held: seq<nat>,
                      ghost words: map<nat, Written>)
    returns (fate: Fate, held': seq<nat>)
    requires a.Valid()
    modifies a, a.freelist, a.sblocks
    ensures !fate.CheckFailed? && (fate.WroteOutside? ==> WrapsRound(a.g, AllocAligned(alignB, req, grant, table)))
    ensures fate.Alive? ==> a.Valid() && (a.sblocks == old(a.sblocks) || fresh(a.sblocks))
    ensures var cmd, s := AllocAligned(alignB, req, grant, table), old(Now(a, held, words));
            && (fate.Alive? ==> Does(a.g, a.minSblock, cmd, s, Now(a, held', words)))
            && (fate.Exited? ==> MayExit(a.g, a.minSblock, cmd, s))
  {
    hide Core, TableOk, Settled, Redzones, Paged, LiveWordsKept, GrantOk, BytesFor, AlignReq, BaseReq, Live, Given;
    hide Deliverable, OnlyAdds, MadeFrom, AlignedBeyond, Arena.Overwrote, Alignable, BaseWraps, TableRoom;
    if req >= a.g.space || alignB >= a.g.space {
      return Alive, held;
    }
    var answer := Answer(a, grant, BytesFor(a.g, a.minSblock, BaseReq(a.g, alignB, req)));
    ghost var at;
    var r;
    r, at := a.Memalign(alignB, req, answer, table && TableRoom(a.g, a.sblocks.Length));
    if r.Panic? || r.Wild? {
      return if r.Panic? then Exited else WroteOutside, held;
    }
    if r.Got? {
      SomeAlignment(alignB);
      return Alive, held + [r.p];
    }
    return Alive, held;
  }

  lemma SomeAlignment(alignB: nat)
    ensures Alignable(alignB) ==> alignB > 0
  {
  }

  lemma HoldingDrop(g: Geometry, bs: Blocks, held: seq<nat>, k: nat)
    requires Holding(g, bs, held) && k < |held|
    ensures LiveAt(g, bs, held[k]) && held[k] >= g.OverheadLo()
  {
  }

  lemma HoldingFreed(g: Geometry, bs: Blocks, bs': Blocks, held: seq<nat>, k: nat)
    requires Holding(g, bs, held) && k < |held|
    requires Live(g, bs') == Live(g, bs) - {held[k] - g.OverheadLo()}
    ensures Holding(g, bs', held[..k] + held[k + 1..])
  {
    hide Live;
    var rest := held[..k] + held[k + 1..];
    forall i | 0 <= i < |rest|
      ensures rest[i] == held[if i < k then i else i + 1] && LiveAt(g, bs', rest[i])
    {
      assert LiveAt(g, bs, held[if i < k then i else i + 1]);
    }
  }

  lemma DoesNothing(g: Geometry, minSblock: nat, k: nat, s: Moment)
    requires g.Valid() && k >= |s.held|
    ensures Does(g, minSblock, Release(k), s, s)
  {
  }

  lemma DoesRelease(g: Geometry, minSblock: nat, k: nat, s: Moment, s': Moment)
    requires g.Valid() && k < |s.held| && s'.held == s.held[..k] + s.held[k + 1..]
    requires Live(g, s'.bs) == Live(g, s.bs) - {s.held[k] - g.OverheadLo()} && s'.sbs == s.sbs
    requires LiveWordsKept(s.mem, s'.mem, s'.bs)
    requires s.held[k] >= g.OverheadLo() && s'.words == Forget(s.words, s.held[k] - g.OverheadLo())
    ensures Does(g, minSblock, Release(k), s, s')
  {
    hide Live, LiveWordsKept, Forget;
  }

  method ServeFree(a: Arena, k: nat, held: seq<nat>, ghost words: map<nat, Written>)
    returns (held': seq<nat>, ghost words': map<nat, Written>)
    requires a.Valid() && Intact(a.g, Now(a, held, words))
    modifies a, a.freelist
    ensures a.Valid() && a.sblocks == old(a.sblocks)
    ensures Does(a.g, a.minSblock, Release(k), old(Now(a, held, words)), Now(a, held', words'))
  {
    hide Arena.Valid, Does, LiveWordsKept, Remembers, Holding, Forget, Live, LetsGo;
    if k >= |held| {
      DoesNothing(a.g, a.minSblock, k, Now(a, held, words));
      return held, words;
    }
    var p := held[k];
    HoldingDrop(a.g, a.bs, held, k);
    a.Free(p);
    words' := Forget(words, p - a.g.OverheadLo());
    held' := held[..k] + held[k + 1..];
    DoesRelease(a.g, a.minSblock, k, old(Now(a, held, words)), Now(a, held', words'));
  }

  method ServeWrite(a: Arena, k: nat, offset: nat, v: nat, held: seq<nat>, ghost words: map<nat, Written>)
    returns (ghost words': map<nat, Written>)
    requires a.Valid() && Intact(a.g, Now(a, held, words))
    modifies a
    ensures a.Valid() && a.sblocks == old(a.sblocks)
    ensures Does(a.g, a.minSblock, Write(k, offset, v), old(Now(a, held, words)), Now(a, held, words'))
  {
    hide Core, TableOk, Settled, Redzones, Paged, LiveWordsKept, Remembers, Holding, Live;
    if k >= |held| || offset % a.g.W != 0 {
      return words;
    }
    var p := held[k];
    HoldingDrop(a.g, a.bs, held, k);
    var n := a.PayloadSzB(p);
    if offset + a.g.W > n {
      return words;
    }
    a.ClientStore(p, p + offset, v);
    words' := words[p + offset := Written(p - a.g.OverheadLo(), v)];
  }

  lemma WrittenNow(g: Geometry, mem: Memory, bs: Blocks, words: map<nat, Written>, a: nat, w: Written)
    requires Remembers(g, mem, bs, words) && w.b in Live(g, bs)
    requires w.b + g.OverheadLo() <= a < a + g.W <= w.b + g.OverheadLo() + Live(g, bs)[w.b]
    ensures Remembers(g, mem[a := w.v], bs, words[a := w])
  {
    hide Live;
    forall x | x in words && x != a
      ensures Remembered(g, mem[a := w.v], bs, x, words[x])
    {
      assert Remembered(g, mem, bs, x, words[x]);
    }
  }

  // ----- whole runs

  /** Each moment of the run has come from the one before by what the request does. */
  ghost predicate Follows(g: Geometry, minSblock: nat, script: seq<Command>, trace: seq<Moment>)
    requires g.Valid()
  {
    && 0 < |trace| <= |script| + 1
    && forall i :: 0 <= i < |trace| - 1 ==> Does(g, minSblock, script[i], trace[i], trace[i + 1])
  }

  ghost function Last(trace: seq<Moment>): Moment
    requires |trace| > 0
  {
    trace[|trace| - 1]
  }

  /** In every moment of the run, what the client holds and has written is intact. */
  lemma {:induction false} AlwaysIntact(g: Geometry, minSblock: nat, script: seq<Command>, trace: seq<Moment>, k: nat)
    requires g.Valid() && Follows(g, minSblock, script, trace) && k < |trace| && Intact(g, trace[0])
    ensures Intact(g, trace[k])
  {
    hide Intact, Does;
    if k > 0 {
      AlwaysIntact(g, minSblock, script, trace, k - 1);
      assert Does(g, minSblock, script[k - 1], trace[k - 1], trace[k - 1 + 1]);
      IntactAfter(g, minSblock, script[k - 1], trace[k - 1], trace[k]);
    }
  }

  /** A run of requests, with a sanity check after each one, until it ends in one of these ways. `trace` has its
      moments: each follows from the one before by what the request does, whatever the address space manager answers,
      and what the client holds and wrote is intact in all of them. The process exits only over a request that may end
      it, and the allocator writes outside only in a request that wraps around. A sanity check fails, given enough
      steps, if and only if there is then a superblock of 2^32 payload bytes or more; that cannot be if every request is
      modest, nor on a 32-bit host. */
  method Run(a: Arena, script: seq<Command>, steps: nat, junk: int -> nat)
    returns (end: Fate, held: seq<nat>, ghost trace: seq<Moment>)
    requires a.Valid()
    modifies a, a.freelist, a.sblocks
    ensures Follows(a.g, a.minSblock, script, trace) && trace[0] == old(Now(a, [], map[]))
    ensures forall k :: 0 <= k < |trace| ==> Intact(a.g, trace[k])
    ensures end.Alive? ==> |trace| == |script| + 1
    ensures end.Alive? || end.CheckFailed? ==> a.Valid() && Last(trace) == Now(a, held, Last(trace).words)
    ensures forall k :: 0 < k < |trace| - (if end.CheckFailed? then 1 else 0) ==> Indexable(trace[k].sbs)
    ensures end.CheckFailed? ==> |trace| > 1
    ensures end.CheckFailed? && steps >= a.g.space ==> !Indexable(Last(trace).sbs)
    ensures end.Exited? || end.WroteOutside? ==> |trace| <= |script|
    ensures end.Exited? ==> MayExit(a.g, a.minSblock, script[|trace| - 1], Last(trace))
    ensures end.WroteOutside? ==> WrapsRound(a.g, script[|trace| - 1])
    ensures steps >= a.g.space && a.g.W == 4 ==> !end.CheckFailed?
    ensures steps >= a.g.space && Indexable(old(a.sbs)) && AllModest(a.g, a.minSblock, script, |script|) ==>
      !end.CheckFailed?
  {
    hide Arena.Valid, Intact, Indexable, Does, MayExit, Modest, WrapsRound, AllModest, ArenaChecks.Checked;
    end, held := Alive, [];
    ghost var words: map<nat, Written> := map[];
    trace := [Now(a, [], map[])];
    NothingHeld(a.g, Now(a, [], map[]));
    NothingAsked(a.g, a.minSblock, script);
    for n := 0 to |script|
      invariant end.Alive? && a.Valid() && |trace| == n + 1 && (a.sblocks == old(a.sblocks) || fresh(a.sblocks))
      invariant trace[0] == old(Now(a, [], map[])) && trace[n] == Now(a, held, words)
      invariant forall i :: 0 <= i < n ==> Does(a.g, a.minSblock, script[i], trace[i], trace[i + 1])
      invariant forall k :: 0 <= k <= n ==> Intact(a.g, trace[k])
      invariant forall k :: 0 < k <= n ==> Indexable(trace[k].sbs)
      invariant Indexable(old(a.sbs)) && AllModest(a.g, a.minSblock, script, n) ==> Indexable(a.sbs)
    {
      var fate;
      fate, held, words := Serve(a, script[n], held, words);
      if !fate.Alive? {
        end := if fate.Exited? then Exited else WroteOutside;
        return;
      }
      IntactAfter(a.g, a.minSblock, script[n], trace[n], Now(a, held, words));
      ModestNow(a.g, a.minSblock, script, n, trace[n], Now(a, held, words));
      trace := trace + [Now(a, held, words)];
      HasLists(a);
      var v := a.SanityCheck(steps, junk);
      if !v.Sane? {
        ModestAll(a.g, a.minSblock, script, n + 1);
        end := CheckFailed;
        return;
      }
    }
  }

  lemma HasLists(a: Arena)
    requires a.Valid()
    ensures a.freelist.Length == N_MALLOC_LISTS
  {
    hide Core, Heads, TableOk, Redzones, Settled;
    HeadsLength(a.freelist[..], a.lists);
  }

  /** A superblock made for the request would have less than 2^32 payload bytes. */
  ghost predicate Modest(g: Geometry, minSblock: nat, cmd: Command)
    requires g.Valid()
  {
    Needs(g, minSblock, cmd) < WORD32 + g.Header()
  }

  lemma ModestKeeps(g: Geometry, minSblock: nat, cmd: Command, s: Moment, s': Moment)
    requires g.Valid() && Does(g, minSblock, cmd, s, s') && Modest(g, minSblock, cmd) && Indexable(s.sbs)
    ensures Indexable(s'.sbs)
  {
    hide BytesFor, BaseReq, HandsOut, GoesWithout, GrantOk;
  }

  /** The first `n` requests of the script are modest. */
  ghost predicate AllModest(g: Geometry, minSblock: nat, script: seq<Command>, n: nat)
    requires g.Valid() && n <= |script|
  {
    forall i :: 0 <= i < n ==> Modest(g, minSblock, script[i])
  }

  lemma NothingAsked(g: Geometry, minSblock: nat, script: seq<Command>)
    requires g.Valid()
    ensures AllModest(g, minSblock, script, 0)
  {
  }

  lemma ModestAll(g: Geometry, minSblock: nat, script: seq<Command>, n: nat)
    requires g.Valid() && n <= |script|
    ensures AllModest(g, minSblock, script, |script|) ==> AllModest(g, minSblock, script, n)
  {
    hide Modest;
  }

  lemma ModestNow(g: Geometry, minSblock: nat, script: seq<Command>, n: nat, s: Moment, s': Moment)
    requires g.Valid() && n < |script| && Does(g, minSblock, script[n], s, s')
    ensures AllModest(g, minSblock, script, n + 1) ==> AllModest(g, minSblock, script, n)
    ensures AllModest(g, minSblock, script, n + 1) && Indexable(s.sbs) ==> Indexable(s'.sbs)
  {
    hide Modest, Does, Indexable;
    if AllModest(g, minSblock, script, n + 1) && Indexable(s.sbs) { ModestKeeps(g, minSblock, script[n], s, s'); }
  }

  lemma NothingHeld(g: Geometry, s: Moment)
    requires s.held == [] && s.words == map[]
    ensures Intact(g, s)
  {
  }
}
