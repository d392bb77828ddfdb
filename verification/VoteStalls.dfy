/** What holds the vote indexer back for good: an address that never gets a row, and rows stranded
    above the pointer. Neither a restart nor any number of batches gets past them
    (internal/packages/consensus/voteindexer/indexer/batch_sync.go, lines 154-213 and 243-246;
    docker/postgres/schema/02-init-voteindexer.sql, line 12). */
module VoteStalls {
  import opened VoteChain
  import opened VoteSync
  import opened VoteProgress
  import opened Windows

  /** What holds in every run, however the tables look. */
  ghost predicate Sound(c: Chain, s: State) {
    TableValid(c, s.info, s.nextId) && CacheValid(c, s.info, s.vim) && 1 <= s.mem <= s.pointer
  }

  /** The batch wrote the rows [mem, end): all their addresses were cached and nothing clashed. */
  ghost predicate Wrote(c: Chain, s: State, e: Env, r: State) {
    var end := EndHeight(s.mem, e.latest);
    && s.mem < e.latest && r.pointer == end && (r.mem == s.mem || r.mem == end)
    && r.votes == s.votes + Expected(c, r.info, s.mem, end)
    && DistinctKeys(r.votes) && AllCached(c, r.vim, s.mem, end)
  }

  ghost predicate Untouched(s: State, r: State) {
    r.votes == s.votes && r.pointer == s.pointer && r.mem == s.mem
  }

  /** Every batch, whatever fails, writes its whole window or leaves votes and pointers alone. */
  lemma BatchCases(c: Chain, s: State, e: Env)
    requires Honest(c) && Sound(c, s) && OwnInfos(c, e.infos)
    ensures var r := Batch(c, s, e).0;
            && Sound(c, r) && Extends(s.info, r.info) && (Untouched(s, r) || Wrote(c, s, e, r))
            && (Batch(c, s, e).1 == Panicked ==> Untouched(s, r))
            && (|| (r.info == s.info && r.vim == s.vim)
                || (var s1 := Register(s, e, Window(c, s, e)).0; r.info == s1.info && r.vim == s1.vim))
  {
    hide Register, Build, DistinctKeys, TableValid, CacheValid, OwnInfos, AllCached, Expected;
    SameExtends(s.info);
    if s.mem < e.latest {
      RegisterKeeps(c, s, e, Window(c, s, e));
      CommitsExactly(c, s, e);
    }
  }

  // ---------------------------------------------------------------- an address without a row

  /** The address is not cached, and no row of the table has it as its key. */
  ghost predicate Unlisted(s: State, a: Address) {
    a !in s.vim && !IsKey(s.info, a)
  }

  predicate IsKey(info: InfoTable, a: Address) {
    exists op :: op in info && info[op].hex == a
  }

  /** The list does not name the address, or is refused as a whole. The empty list of an info
      builder that gave up is such a list. */
  ghost predicate LeavesOut(infos: seq<Info>, a: Address) {
    !DistinctOperators(infos) || forall i :: 0 <= i < |infos| ==> infos[i].hex != a
  }

  ghost predicate EventLeavesOut(ev: Event, a: Address) {
    match ev
    case Sync(e) => LeavesOut(e.infos, a)
    case OtherService(infos) => LeavesOut(infos, a)
    case _ => true
  }

  lemma {:induction false} UpsertUnlisted(info: InfoTable, nextId: int, infos: seq<Info>, a: Address)
    requires !IsKey(info, a) && forall i :: 0 <= i < |infos| ==> infos[i].hex != a
    ensures !IsKey(Upsert(info, nextId, infos).0, a)
    decreases |infos|
  {
    if infos != [] {
      hide IsKey;
      var (before, id) := Upsert(info, nextId, infos[..|infos| - 1]);
      var x := infos[|infos| - 1];
      UpsertUnlisted(info, nextId, infos[..|infos| - 1], a);
      PutUnlisted(before, x.operator, Upsert(info, nextId, infos).0[x.operator], a);
    }
  }

  lemma PutUnlisted(info: InfoTable, op: Operator, row: InfoRow, a: Address)
    requires !IsKey(info, a) && row.hex != a
    ensures !IsKey(info[op := row], a)
  {
  }

  lemma ReloadUnlisted(vim: IdMap, info: UniqueTable, a: Address)
    requires a !in vim && !IsKey(info, a)
    ensures a !in Reload(vim, info)
  {
  }

  lemma RegisterUnlisted(s: State, e: Env, list: SummaryMap, a: Address)
    requires Unlisted(s, a) && LeavesOut(e.infos, a)
    ensures Unlisted(Register(s, e, list).0, a)
  {
    hide Upsert, Reload, UniqueHex, DistinctOperators, NewAddresses;
    ReloadUnlisted(s.vim, s.info, a);
    if UpsertAllowed(s.info, s.nextId, e.infos) {
      UpsertUnlisted(s.info, s.nextId, e.infos, a);
      ReloadUnlisted(s.vim, Upsert(s.info, s.nextId, e.infos).0, a);
    }
  }

  lemma RestartSound(c: Chain, s: State)
    requires Sound(c, s)
    ensures Sound(c, Restart(s))
  {
    ReloadKeeps(c, map[], s.info, s.nextId);
  }

  lemma OtherServiceSound(c: Chain, s: State, infos: seq<Info>)
    requires Sound(c, s) && OwnInfos(c, infos)
    ensures Sound(c, Step(c, s, OtherService(infos))) && Extends(s.info, Step(c, s, OtherService(infos)).info)
  {
    hide TableValid, CacheValid, Upsert, UniqueHex, DistinctOperators;
    SameExtends(s.info);
    UpsertKeeps(c, s.info, s.nextId, infos);
    CacheStable(c, s.info, Upsert(s.info, s.nextId, infos).0, s.vim);
  }

  lemma UnlistedStep(c: Chain, s: State, ev: Event, a: Address, g: int)
    requires Honest(c) && Sound(c, s) && OwnEvent(c, ev) && EventLeavesOut(ev, a)
    requires Unlisted(s, a) && a in Mentioned(c.block(g)) && s.pointer <= g
    ensures var r := Step(c, s, ev);
            && Sound(c, r) && Unlisted(r, a) && r.pointer <= g
            && (s.mem == s.pointer && (ev.Sync? ==> EndHeight(s.mem, ev.env.latest) > g) ==>
                  r.pointer == s.pointer && r.mem == s.mem)
  {
    hide Batch, TableValid, CacheValid, Register, Upsert, UniqueHex, DistinctOperators, Reload, Mentioned, DistinctKeys;
    match ev {
      case Sync(e) =>
        BatchCases(c, s, e);
        RegisterUnlisted(s, e, Window(c, s, e), a);
        var r := Batch(c, s, e).0;
        assert Unlisted(r, a);
        assert Wrote(c, s, e, r) ==> EndHeight(s.mem, e.latest) <= g;
        RestartSound(c, r);
        ReloadUnlisted(map[], r.info, a);
      case Crash =>
        RestartSound(c, s);
        ReloadUnlisted(map[], s.info, a);
      case OtherService(infos) =>
        OtherServiceSound(c, s, infos);
        if UpsertAllowed(s.info, s.nextId, infos) {
          UpsertUnlisted(s.info, s.nextId, infos, a);
        }
      case Retention(cutoff) =>
    }
  }

  /** As long as no accepted list names an address, no run, restarts and other services included,
      gets the pointer past a height that mentions it; and while every window covers that height the
      pointer does not move at all. This is the stall at a key rotation: the node lists one key per
      operator, so the replaced key of a height still to be read is never named again. */
  lemma {:induction false} UnlistedKeyStalls(c: Chain, s: State, events: seq<Event>, a: Address, g: int)
    requires Honest(c) && Sound(c, s) && OwnRun(c, events)
    requires forall i :: 0 <= i < |events| ==> EventLeavesOut(events[i], a)
    requires Unlisted(s, a) && a in Mentioned(c.block(g)) && s.pointer <= g
    ensures var r := Run(c, s, events);
            && Sound(c, r) && Unlisted(r, a) && r.pointer <= g
            && (s.mem == s.pointer && AllCover(events, s.mem, g) ==> r.pointer == s.pointer && r.mem == s.mem)
    decreases |events|
  {
    hide Sound, Unlisted, Step, Honest, OwnEvent, EventLeavesOut, Mentioned;
    if events != [] {
      var init := events[..|events| - 1];
      UnlistedKeyStalls(c, s, init, a, g);
      UnlistedStep(c, Run(c, s, init), events[|events| - 1], a, g);
    }
  }

  /** Every batch from `mem` would read beyond g. */
  predicate AllCover(events: seq<Event>, mem: int, g: int) {
    forall i :: 0 <= i < |events| && events[i].Sync? ==> EndHeight(mem, events[i].env.latest) > g
  }

  // ---------------------------------------------------------------- stranded rows

  /** A row of height g is stored. */
  ghost predicate Holds(c: Chain, s: State, g: int) {
    && |c.block(g).validators| > 0 && c.owner(c.block(g).validators[0]) in s.info
    && VoteAt(c, s.info, g, 0) in s.votes
  }

  ghost predicate KeepsRow(c: Chain, ev: Event, g: int) {
    ev.Retention? ==> c.block(g).timestamp >= ev.cutoff
  }

  lemma SameVote(c: Chain, info: InfoTable, later: InfoTable, g: int)
    requires |c.block(g).validators| > 0 && c.owner(c.block(g).validators[0]) in info && Extends(info, later)
    ensures c.owner(c.block(g).validators[0]) in later && VoteAt(c, info, g, 0) == VoteAt(c, later, g, 0)
  {
  }

  lemma WritingClashes(c: Chain, s: State, e: Env, r: State, g: int)
    requires Holds(c, s, g) && Extends(s.info, r.info) && Wrote(c, s, e, r) && s.mem <= g
    ensures EndHeight(s.mem, e.latest) <= g && Holds(c, r, g)
  {
    var end := EndHeight(s.mem, e.latest);
    SameVote(c, s.info, r.info, g);
    if g < end {
      ExpectedContains(c, r.info, s.mem, end, g, 0);
      Clashes(s.votes, Expected(c, r.info, s.mem, end), VoteAt(c, r.info, g, 0));
      assert false;
    }
  }

  lemma StrandedStep(c: Chain, s: State, ev: Event, g: int)
    requires Honest(c) && Sound(c, s) && OwnEvent(c, ev) && KeepsRow(c, ev, g) && Holds(c, s, g) && s.pointer <= g
    ensures var r := Step(c, s, ev); Sound(c, r) && Holds(c, r, g) && r.pointer <= g
  {
    hide Batch, TableValid, CacheValid, Register, Upsert, UniqueHex, DistinctOperators, Reload, Expected, DistinctKeys;
    match ev {
      case Sync(e) =>
        BatchCases(c, s, e);
        var r := Batch(c, s, e).0;
        SameVote(c, s.info, r.info, g);
        hide Wrote;
        if Wrote(c, s, e, r) {
          WritingClashes(c, s, e, r, g);
          WroteMoves(c, s, e, r);
        }
        RestartSound(c, r);
      case Crash =>
        RestartSound(c, s);
      case OtherService(infos) =>
        OtherServiceSound(c, s, infos);
        SameVote(c, s.info, Step(c, s, ev).info, g);
      case Retention(cutoff) =>
        FilterMember(s.votes, Since(cutoff), VoteAt(c, s.info, g, 0));
    }
  }

  lemma WroteMoves(c: Chain, s: State, e: Env, r: State)
    requires Wrote(c, s, e, r)
    ensures r.pointer == EndHeight(s.mem, e.latest)
  {
  }

  /** A stored row at or above the pointer holds every later run back: until retention removes it no
      batch whose window reaches its height commits, before or after a restart. */
  lemma {:induction false} StrandedRowsBlock(c: Chain, s: State, events: seq<Event>, g: int)
    requires Honest(c) && Sound(c, s) && OwnRun(c, events) && Holds(c, s, g) && s.pointer <= g
    requires forall i :: 0 <= i < |events| ==> KeepsRow(c, events[i], g)
    ensures var r := Run(c, s, events); Sound(c, r) && Holds(c, r, g) && r.pointer <= g
    decreases |events|
  {
    hide Sound, Holds, Step, Honest, OwnEvent, KeepsRow;
    if events != [] {
      var init := events[..|events| - 1];
      StrandedRowsBlock(c, s, init, g);
      StrandedStep(c, Run(c, s, init), events[|events| - 1], g);
    }
  }

  /** Which is what a batch that strands rows leaves behind. */
  lemma StrandingBlocks(c: Chain, s: State, e: Env, events: seq<Event>, p0: int, lo: int)
    requires Honest(c) && Inv(c, s, p0, lo) && Good(c, s, e) && Strands(s, e)
    requires OwnRun(c, events) && forall i :: 0 <= i < |events| ==> KeepsRow(c, events[i], lo)
    ensures var r := Step(c, s, Sync(e));
            r.pointer == EndHeight(s.mem, e.latest) <= lo && Run(c, r, events).pointer <= lo
  {
    NothingBelow(c, s, p0, lo, EndHeight(s.mem, e.latest));
    SomeValidator(c, lo);
    ExpectedContains(c, s.info, lo, s.pointer, lo, 0);
    assert KnownAt(c, s.info, lo) && c.block(lo).validators[0] in c.block(lo).validators;
    assert Sound(c, s) && Holds(c, s, lo);
    hide Batch, TableValid, CacheValid, Expected, OwnEvent, KeepsRow, Register, Good;
    GoodOwns(c, s, e);
    ReturningCommits(c, s, e, p0, lo);
    BatchCases(c, s, e);
    var r := Batch(c, s, e).0;
    SameVote(c, s.info, r.info, lo);
    StrandedRowsBlock(c, r, events, lo);
  }

  // ---------------------------------------------------------------- a run that strands rows

  /** One validator; the block of height h carries the time h. */
  function OneBlock(h: int): Summary {
    Summary(h, h, "key", h - 1, [true], ["key"])
  }

  function OneOperator(a: Address): Operator {
    "operator"
  }

  const ONE_CHAIN := Chain(OneBlock, OneOperator)

  function OneEnv(latest: int, commit: Commit): Env {
    Env(latest, true, {}, {}, [], true, true, commit)
  }

  function OneState(): State {
    State([], 1, map["operator" := InfoRow(1, "key", "moniker")], 2, 1, map["key" := 1])
  }

  lemma OneChainHonest()
    ensures Honest(ONE_CHAIN) && Timely(ONE_CHAIN) && Inv(ONE_CHAIN, OneState(), 1, 1)
  {
    forall h | h >= 1 ensures HonestAt(ONE_CHAIN, h) {
    }
  }

  lemma OneGood(s: State, latest: int)
    requires "key" in s.vim
    ensures Good(ONE_CHAIN, s, OneEnv(latest, Applied))
  {
    var e := OneEnv(latest, Applied);
    var list := Window(ONE_CHAIN, s, e);
    forall h | h in list ensures Mentioned(list[h]) <= {"key"} {
      assert list[h] == OneBlock(h);
    }
    assert NewAddresses(s.vim, list) == {};
  }

  /** Latest height 12 and a lost acknowledgement, retention of what is older than 8, latest height
      4: the pointer falls from 12 to 4 and the rows of 8 to 11 stay above it. */
  lemma StrandingHappens()
    ensures var s1 := Step(ONE_CHAIN, OneState(), Sync(OneEnv(12, Unacknowledged)));
            var s2 := Step(ONE_CHAIN, s1, Retention(8));
            var r := Step(ONE_CHAIN, s2, Sync(OneEnv(4, Applied)));
            && s1.pointer == 12 && Strands(s2, OneEnv(4, Applied)) && r.pointer == 4
            && forall l :: !Inv(ONE_CHAIN, r, 1, l)
  {
    hide Step, Good, Inv, Honest, Timely, Strands;
    var s, e, e' := OneState(), OneEnv(12, Unacknowledged), OneEnv(4, Applied);
    OneChainHonest();
    OneGood(s, 12);
    OneCached(s, e);
    OneGood(Step(ONE_CHAIN, Step(ONE_CHAIN, s, Sync(e)), Retention(8)), 4);
    DropAfterRetentionReturns(ONE_CHAIN, s, e, 8, e', 1, 1);
  }

  lemma OneCached(s: State, e: Env)
    requires s == OneState() && e == OneEnv(12, Unacknowledged) && Good(ONE_CHAIN, s, OneEnv(12, Applied))
    ensures "key" in Step(ONE_CHAIN, Step(ONE_CHAIN, s, Sync(e)), Retention(8)).vim
  {
    OneChainHonest();
    hide Batch, Good, Inv, Honest, Timely;
    GoodBatchAdvances(ONE_CHAIN, s, OneEnv(12, Applied), 1, 1);
    assert e.(commit := Applied) == OneEnv(12, Applied);
    LostAcknowledgement(ONE_CHAIN, s, e);
    BatchCached(ONE_CHAIN, s, e, "key");
  }

  lemma BatchCached(c: Chain, s: State, e: Env, a: Address)
    requires a in s.vim
    ensures a in Batch(c, s, e).0.vim
  {
    hide Build, Upsert, UniqueHex, DistinctOperators, NewAddresses, Reload;
    ReloadGrows(s.vim, s.info, a);
    if UpsertAllowed(s.info, s.nextId, e.infos) {
      ReloadGrows(s.vim, Upsert(s.info, s.nextId, e.infos).0, a);
    }
  }
}
