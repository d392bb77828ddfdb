/** The vote indexer as a state machine: batches that may fail at any point, panics, crashes and
    restarts, other services writing validator_info, lost acknowledgements and retention
    (internal/packages/consensus/voteindexer/indexer/batch_sync.go, indexer.go;
    internal/packages/consensus/voteindexer/repository/repository.go;
    internal/common/indexer/repository/validator_info.go). */
module VoteSync {
  import opened VoteChain
  import opened Windows

  type IdMap = map<Address, int>
  type SummaryMap = map<int, Summary>

  /** Tables (votes, pointer, info, nextId) survive a crash; `mem` and `vim` do not. */
  datatype State = State(votes: seq<Vote>, pointer: int, info: UniqueTable, nextId: int, mem: int, vim: IdMap)

  /** One element of the list to insert into validator_info. */
  datatype Info = Info(hex: Address, operator: Operator, moniker: string)

  /** How the vote transaction ends: applied, rolled back, or applied without the client knowing. */
  datatype Commit = Applied | Refused | Unacknowledged

  /** Everything a batch depends on besides the chain: the latest height it sees, which workers
      report a failure, which are silent because a panic was recovered, what the info list builder
      returned (whatever its error, which is discarded), and how each database call ends. */
  datatype Env = Env(latest: int, baseOk: bool, failed: set<int>, silent: set<int>,
                     infos: seq<Info>, upsertOk: bool, fetchOk: bool, commit: Commit)

  datatype Outcome = Skipped | Failed | Panicked | Committed

  // ---------------------------------------------------------------- validator_info

  predicate DistinctOperators(infos: seq<Info>) {
    forall i, j :: 0 <= i < j < |infos| ==> infos[i].operator != infos[j].operator
  }

  /** UNIQUE (hex_address). */
  predicate UniqueHex(info: InfoTable) {
    forall p, q :: p in info && q in info && p != q ==> info[p].hex != info[q].hex
  }

  type UniqueTable = t: InfoTable | UniqueHex(t)

  /** Insert, or update hex_address alone where the operator has a row. */
  function Upsert(info: InfoTable, nextId: int, infos: seq<Info>): (InfoTable, int) {
    if infos == [] then (info, nextId)
    else
      var (before, id) := Upsert(info, nextId, infos[..|infos| - 1]);
      var x := infos[|infos| - 1];
      if x.operator in before then (before[x.operator := before[x.operator].(hex := x.hex)], id)
      else (before[x.operator := InfoRow(id, x.hex, x.moniker)], id + 1)
  }

  /** The statement fails as a whole when it would touch a row twice or break a constraint. */
  predicate UpsertAllowed(info: InfoTable, nextId: int, infos: seq<Info>) {
    DistinctOperators(infos) && UniqueHex(Upsert(info, nextId, infos).0)
  }

  /** Loading the rows into the cache; entries of replaced keys stay. */
  function Reload(vim: IdMap, info: UniqueTable): IdMap {
    vim + map op | op in info :: info[op].hex := info[op].id
  }

  // ---------------------------------------------------------------- one batch

  predicate SomeFailed(failed: set<int>, start: int, end: int) {
    exists h :: start <= h <= end && h in failed
  }

  /** The base summary at start - 1 and whatever the workers delivered. */
  function Collected(c: Chain, start: int, end: int, silent: set<int>): SummaryMap {
    map h | start - 1 <= h <= end && (h == start - 1 || h !in silent) :: c.block(h)
  }

  function Lookup(list: SummaryMap, h: int): Summary {
    if h in list then list[h] else NO_SUMMARY
  }

  function Mentioned(b: Summary): set<Address> {
    {b.proposer} + set a | a in b.validators
  }

  function NewAddresses(vim: IdMap, list: SummaryMap): set<Address> {
    set h, a | h in list && a in Mentioned(list[h]) && a !in vim :: a
  }

  /** Registering unseen addresses; false when the batch gives up here. */
  function Register(s: State, e: Env, list: SummaryMap): (State, bool) {
    if NewAddresses(s.vim, list) == {} then (s, true)
    else if !e.upsertOk || !UpsertAllowed(s.info, s.nextId, e.infos) then
      (if e.fetchOk then s.(vim := Reload(s.vim, s.info)) else s, false)
    else
      var (info, nextId) := Upsert(s.info, s.nextId, e.infos);
      var s1 := s.(info := info, nextId := nextId);
      if e.fetchOk then (s1.(vim := Reload(s.vim, info)), true) else (s1, false)
  }

  /** Rows, an address without id, or a panic. */
  datatype Built = Rows(rows: seq<Vote>) | NoId | Panic

  /** The first n rows of a height. */
  function VotesUpTo(vim: IdMap, prev: Summary, signatures: seq<bool>, n: nat): Built
    requires n <= |prev.validators|
  {
    if n == 0 then (if prev.proposer in vim then Rows([]) else NoId)
    else match VotesUpTo(vim, prev, signatures, n - 1)
      case Rows(rows) =>
        var a := prev.validators[n - 1];
        if n > |signatures| then Panic
        else if a !in vim then NoId
        else
          var status := if !signatures[n - 1] then Missed
                        else if prev.proposer in vim && vim[prev.proposer] == vim[a] then Proposed
                        else Voted;
          Rows(rows + [Vote(prev.height, prev.timestamp, vim[a], status)])
      case other => other
  }

  function MakeVotes(vim: IdMap, prev: Summary, signatures: seq<bool>): Built {
    VotesUpTo(vim, prev, signatures, |prev.validators|)
  }

  predicate Linked(list: SummaryMap, h: int) {
    Lookup(list, h).lastCommit == Lookup(list, h - 1).height
  }

  function Build(list: SummaryMap, vim: IdMap, start: int, end: int): Built
    decreases end - start
  {
    if end < start then Rows([])
    else match Build(list, vim, start, end - 1)
      case Rows(rows) =>
        if !Linked(list, end) then Panic
        else (match MakeVotes(vim, Lookup(list, end - 1), Lookup(list, end).signatures)
              case Rows(more) => Rows(rows + more)
              case other => other)
      case other => other
  }

  /** Rows and pointer in one transaction; the loop keeps the new pointer only on success. */
  function Finish(s: State, rows: seq<Vote>, pointer: int, commit: Commit): (State, Outcome) {
    if commit == Refused || !DistinctKeys(s.votes + rows) then (s, Failed)
    else
      var s1 := s.(votes := s.votes + rows, pointer := pointer);
      if commit == Applied then (s1.(mem := pointer), Committed) else (s1, Failed)
  }

  function Restart(s: State): State {
    s.(mem := s.pointer, vim := Reload(map[], s.info))
  }

  function Batch(c: Chain, s: State, e: Env): (State, Outcome) {
    if s.mem >= e.latest then (s, Skipped)
    else
      var start, end := s.mem + 1, EndHeight(s.mem, e.latest);
      if !e.baseOk || SomeFailed(e.failed, start, end) then (s, Failed)
      else
        var list := Collected(c, start, end, e.silent);
        var (s1, ok) := Register(s, e, list);
        if !ok then (s1, Failed)
        else match Build(list, s1.vim, start, end)
          case Rows(rows) => Finish(s1, rows, Lookup(list, end).height, e.commit)
          case NoId => (s1, Failed)
          case Panic => (s1, Panicked)
  }

  // ---------------------------------------------------------------- runs

  /** A crash inside a batch is the failed batch followed by Crash. */
  datatype Event = Sync(env: Env) | Crash | OtherService(infos: seq<Info>) | Retention(cutoff: int)

  function Since(cutoff: int): Vote -> bool {
    (v: Vote) => v.timestamp >= cutoff
  }

  function Step(c: Chain, s: State, ev: Event): State {
    match ev
    case Sync(e) => (var (s1, out) := Batch(c, s, e); if out == Panicked then Restart(s1) else s1)
    case Crash => Restart(s)
    case OtherService(infos) =>
      if !UpsertAllowed(s.info, s.nextId, infos) then s
      else (var (info, nextId) := Upsert(s.info, s.nextId, infos); s.(info := info, nextId := nextId))
    case Retention(cutoff) => s.(votes := Filter(s.votes, Since(cutoff)))
  }

  function Run(c: Chain, s: State, events: seq<Event>): State {
    if events == [] then s
    else Step(c, Run(c, s, events[..|events| - 1]), events[|events| - 1])
  }

  // ---------------------------------------------------------------- the info table and the cache

  /** The list builder pairs an address with its own operator. */
  ghost predicate OwnInfos(c: Chain, infos: seq<Info>) {
    forall i :: 0 <= i < |infos| ==> c.owner(infos[i].hex) == infos[i].operator
  }

  lemma {:induction false} UpsertKeeps(c: Chain, info: InfoTable, nextId: int, infos: seq<Info>)
    requires TableValid(c, info, nextId) && OwnInfos(c, infos)
    ensures var (later, id) := Upsert(info, nextId, infos);
            TableValid(c, later, id) && Extends(info, later) && id >= nextId
    decreases |infos|
  {
    if infos != [] {
      var init := infos[..|infos| - 1];
      UpsertKeeps(c, info, nextId, init);
      assert c.owner(infos[|infos| - 1].hex) == infos[|infos| - 1].operator;
    }
  }

  /** Distinct operators: each listed address is now the key of its operator's row. */
  lemma {:induction false} UpsertStores(info: InfoTable, nextId: int, infos: seq<Info>, i: nat)
    requires DistinctOperators(infos) && i < |infos|
    ensures var later := Upsert(info, nextId, infos).0;
            infos[i].operator in later && later[infos[i].operator].hex == infos[i].hex
    decreases |infos|
  {
    if i < |infos| - 1 {
      UpsertStores(info, nextId, infos[..|infos| - 1], i);
    }
  }

  lemma ValidTableIsUnique(c: Chain, info: InfoTable, nextId: int)
    requires TableValid(c, info, nextId)
    ensures UniqueHex(info)
  {
  }

  /** Read by address: a key of the table gets the id of its owner's row, any other its old id. */
  lemma ReloadByOwner(c: Chain, vim: IdMap, info: UniqueTable, nextId: int, a: Address)
    requires TableValid(c, info, nextId)
    ensures var later := Reload(vim, info);
            var op := c.owner(a);
            if op in info && info[op].hex == a then a in later && later[a] == info[op].id
            else (a in later <==> a in vim) && (a in vim ==> later[a] == vim[a])
  {
    var rows := map op | op in info :: info[op].hex := info[op].id;
    if a in rows {
      var op :| op in info && info[op].hex == a;
    }
  }

  lemma ReloadKeeps(c: Chain, vim: IdMap, info: UniqueTable, nextId: int)
    requires TableValid(c, info, nextId) && CacheValid(c, info, vim)
    ensures CacheValid(c, info, Reload(vim, info))
  {
    forall a | a in Reload(vim, info) ensures c.owner(a) in info && Reload(vim, info)[a] == info[c.owner(a)].id {
      ReloadByOwner(c, vim, info, nextId, a);
    }
  }

  lemma RegisterKeeps(c: Chain, s: State, e: Env, list: SummaryMap)
    requires TableValid(c, s.info, s.nextId) && CacheValid(c, s.info, s.vim) && OwnInfos(c, e.infos)
    ensures var (s1, _) := Register(s, e, list);
            && TableValid(c, s1.info, s1.nextId) && CacheValid(c, s1.info, s1.vim) && Extends(s.info, s1.info)
            && s1.votes == s.votes && s1.pointer == s.pointer && s1.mem == s.mem
  {
    hide Upsert, Reload, TableValid, CacheValid, UniqueHex;
    UpsertKeeps(c, s.info, s.nextId, e.infos);
    var later := Upsert(s.info, s.nextId, e.infos);
    CacheStable(c, s.info, later.0, s.vim);
    ValidTableIsUnique(c, later.0, later.1);
    ReloadKeeps(c, s.vim, later.0, later.1);
    ReloadKeeps(c, s.vim, s.info, s.nextId);
  }

  /** Registration touches neither votes nor pointers, and does not depend on the vote commit. */
  lemma RegisterFrame(s: State, e: Env, list: SummaryMap, commit: Commit)
    ensures var s1 := Register(s, e, list).0; s1.mem == s.mem && s1.pointer == s.pointer && s1.votes == s.votes
    ensures Register(s, e, list) == Register(s, e.(commit := commit), list)
  {
    hide Reload, Upsert, UpsertAllowed, NewAddresses;
  }

  // ---------------------------------------------------------------- rows of one height

  /** With a valid cache a height builds exactly its rows, or fails for want of an id. */
  lemma {:induction false} VotesUpToCorrect(c: Chain, info: InfoTable, nextId: int, vim: IdMap, h: int, n: nat)
    requires HonestAt(c, h) && TableValid(c, info, nextId) && CacheValid(c, info, vim) && n <= |c.block(h).validators|
    ensures var b := c.block(h);
            var built := VotesUpTo(vim, b, c.block(h + 1).signatures, n);
            && !built.Panic?
            && (built.Rows? <==> b.proposer in vim && forall k :: 0 <= k < n ==> b.validators[k] in vim)
            && (built.Rows? ==> built.rows == VoteList(c, info, h)[..n])
    decreases n
  {
    assert |c.block(h + 1).signatures| == |c.block(h).validators| && c.block(h).height == h;
    hide TableValid, HonestAt;
    if n > 0 {
      VotesUpToCorrect(c, info, nextId, vim, h, n - 1);
      var b := c.block(h);
      var a := b.validators[n - 1];
      if VotesUpTo(vim, b, c.block(h + 1).signatures, n).Rows? {
        ProposerById(c, info, nextId, vim, h, n - 1);
        assert VoteList(c, info, h)[..n] == VoteList(c, info, h)[..n - 1] + [VoteAt(c, info, h, n - 1)];
      }
    }
  }

  /** Comparing ids finds the proposer. */
  lemma ProposerById(c: Chain, info: InfoTable, nextId: int, vim: IdMap, h: int, k: nat)
    requires HonestAt(c, h) && TableValid(c, info, nextId) && CacheValid(c, info, vim) && k < |c.block(h).validators|
    requires c.block(h).proposer in vim && c.block(h).validators[k] in vim
    ensures vim[c.block(h).proposer] == vim[c.block(h).validators[k]] <==>
            c.block(h).proposer == c.block(h).validators[k]
  {
  }

  lemma MakeVotesCorrect(c: Chain, info: InfoTable, nextId: int, vim: IdMap, h: int)
    requires HonestAt(c, h) && TableValid(c, info, nextId) && CacheValid(c, info, vim)
    ensures var built := MakeVotes(vim, c.block(h), c.block(h + 1).signatures);
            && !built.Panic?
            && (built.Rows? <==> Mentioned(c.block(h)) <= vim.Keys)
            && (built.Rows? ==> built.rows == VoteList(c, info, h) && KnownAt(c, info, h))
  {
    var b := c.block(h);
    VotesUpToCorrect(c, info, nextId, vim, h, |b.validators|);
    var built := MakeVotes(vim, b, c.block(h + 1).signatures);
    if built.Rows? {
      forall a | a in b.validators ensures a in vim && c.owner(a) in info {
        var k :| 0 <= k < |b.validators| && b.validators[k] == a;
      }
    }
    if Mentioned(b) <= vim.Keys {
      forall k | 0 <= k < |b.validators| ensures b.validators[k] in vim {
        assert b.validators[k] in Mentioned(b);
      }
      assert b.proposer in Mentioned(b);
    }
  }

  // ---------------------------------------------------------------- the chain check

  ghost predicate Complete(list: SummaryMap, start: int, end: int) {
    forall h :: start <= h <= end ==> h in list
  }

  /** With a base of height 1 or more the check passes exactly when nothing is missing; with a base
      of height 0 it passes also when everything is. */
  lemma ChainCheckExact(c: Chain, start: int, end: int, silent: set<int>)
    requires 1 <= start <= end && Honest(c) && c.block(0).height == 0 && c.block(1).lastCommit == 0
    ensures var list := Collected(c, start, end, silent);
            (forall h :: start <= h <= end ==> Linked(list, h)) <==>
            (Complete(list, start, end) || (start == 1 && forall h :: start <= h <= end ==> h !in list))
  {
    var list := Collected(c, start, end, silent);
    forall h | start <= h <= end ensures c.block(h).height == h && c.block(h).lastCommit == h - 1 {
      assert HonestAt(c, h) && (h > 1 ==> HonestAt(c, h - 1));
    }
    assert start > 1 ==> HonestAt(c, start - 1);
    if forall h :: start <= h <= end ==> Linked(list, h) {
      if start > 1 || start in list {
        NoHoleAfter(list, start, end, start > 1);
      } else {
        AllMissing(list, end);
      }
    }
    if Complete(list, start, end) || (start == 1 && forall h :: start <= h <= end ==> h !in list) {
      forall h | start <= h <= end ensures Linked(list, h) {
      }
    }
  }

  lemma {:induction false} NoHoleAfter(list: SummaryMap, start: int, end: int, based: bool)
    requires 1 <= start && (based ==> start > 1) && (!based ==> start in list)
    requires start - 1 in list && (forall h :: start - 1 <= h <= end && h in list ==> list[h].height == h)
    requires forall h :: start <= h <= end ==> Linked(list, h)
    ensures Complete(list, start, end)
    decreases end - start
  {
    if start < end {
      NoHoleAfter(list, start, end - 1, based);
      assert Linked(list, end) && end - 1 in list;
    } else if start == end {
      assert Linked(list, end);
    }
  }

  lemma {:induction false} AllMissing(list: SummaryMap, end: int)
    requires 0 in list && 1 !in list && (forall h :: 1 <= h <= end && h in list ==> list[h].lastCommit == h - 1)
    requires forall h :: 1 <= h <= end ==> Linked(list, h)
    ensures forall h :: 1 <= h <= end ==> h !in list
    decreases end
  {
    if end > 1 {
      AllMissing(list, end - 1);
      assert Linked(list, end) && end - 1 !in list;
    }
  }

  /** Whatever passes the check and finds its ids is exactly the rows of [start - 1, end). */
  lemma {:induction false} BuildCorrect(c: Chain, info: InfoTable, nextId: int, vim: IdMap, start: int, end: int,
                                        list: SummaryMap, last: int, silent: set<int>)
    requires Honest(c) && TableValid(c, info, nextId) && CacheValid(c, info, vim)
    requires 2 <= start && start - 1 <= last <= end && list == Collected(c, start, end, silent)
    ensures var built := Build(list, vim, start, last);
            built.Rows? ==> && built.rows == Expected(c, info, start - 1, last)
                            && Known(c, info, start - 1, last) && last in list && Lookup(list, last).height == last
    decreases last - start
  {
    hide TableValid, CacheValid, MakeVotes, KnownAt, VoteList;
    assert HonestAt(c, last) && HonestAt(c, start - 1);
    if start <= last && Build(list, vim, start, last).Rows? {
      BuildCorrect(c, info, nextId, vim, start, end, list, last - 1, silent);
      assert HonestAt(c, last - 1);
      assert last in list;
      MakeVotesCorrect(c, info, nextId, vim, last - 1);
      forall h | start - 1 <= h < last ensures KnownAt(c, info, h) {
      }
    }
  }

  // ---------------------------------------------------------------- the invariant

  /** The vote table holds the rows of exactly [lo, pointer). Memory lags the pointer only after a
      lost acknowledgement. */
  ghost predicate Inv(c: Chain, s: State, p0: int, lo: int) {
    && 1 <= p0 <= lo <= s.pointer
    && p0 <= s.mem <= s.pointer
    && TableValid(c, s.info, s.nextId)
    && CacheValid(c, s.info, s.vim)
    && Known(c, s.info, p0, s.pointer)
    && s.votes == Expected(c, s.info, lo, s.pointer)
  }

  /** A proposer is a validator, so no validator set is empty. */
  lemma SomeValidator(c: Chain, h: int)
    requires Honest(c) && h >= 1
    ensures |c.block(h).validators| > 0
  {
    assert HonestAt(c, h);
  }

  /** The batch would end below the persisted pointer, and retention has left no row below that
      end: only a stale memory together with a drop of the latest height gets here. */
  predicate GoesBack(s: State, e: Env) {
    var end := EndHeight(s.mem, e.latest);
    s.mem < e.latest && end < s.pointer && forall i :: 0 <= i < |s.votes| ==> s.votes[i].height >= end
  }

  /** Then rows that are still stored would end up at and above the pointer. */
  predicate Strands(s: State, e: Env) {
    GoesBack(s, e) && s.votes != []
  }

  /** Info lists pair every address with its own operator. */
  ghost predicate OwnEvent(c: Chain, ev: Event) {
    match ev
    case Sync(e) => OwnInfos(c, e.infos)
    case OtherService(infos) => OwnInfos(c, infos)
    case _ => true
  }

  ghost predicate OwnRun(c: Chain, events: seq<Event>) {
    forall i :: 0 <= i < |events| ==> OwnEvent(c, events[i])
  }

  predicate NoStrand(s: State, ev: Event) {
    ev.Sync? ==> !Strands(s, ev.env)
  }

  predicate NoReturn(s: State, ev: Event) {
    ev.Sync? ==> !GoesBack(s, ev.env)
  }

  ghost predicate NoStrands(c: Chain, s: State, events: seq<Event>) {
    forall i :: 0 <= i < |events| ==> NoStrand(Run(c, s, events[..i]), events[i])
  }

  ghost predicate NoReturns(c: Chain, s: State, events: seq<Event>) {
    forall i :: 0 <= i < |events| ==> NoReturn(Run(c, s, events[..i]), events[i])
  }

  lemma InvExtends(c: Chain, s: State, s1: State, p0: int, lo: int)
    requires Inv(c, s, p0, lo) && Extends(s.info, s1.info)
    requires TableValid(c, s1.info, s1.nextId) && CacheValid(c, s1.info, s1.vim)
    requires s1.votes == s.votes && s1.pointer == s.pointer
    requires s1.mem == s.mem || s1.mem == s.pointer
    ensures Inv(c, s1, p0, lo)
  {
    ExpectedStable(c, s.info, s1.info, p0, s.pointer);
    forall h | lo <= h < s.pointer ensures KnownAt(c, s.info, h) {
    }
    ExpectedStable(c, s.info, s1.info, lo, s.pointer);
  }

  lemma RestartKeeps(c: Chain, s: State, p0: int, lo: int)
    requires Inv(c, s, p0, lo)
    ensures Inv(c, Restart(s), p0, lo)
  {
    ReloadKeeps(c, map[], s.info, s.nextId);
    InvExtends(c, s, Restart(s), p0, lo);
  }

  lemma Clashes(votes: seq<Vote>, rows: seq<Vote>, v: Vote)
    requires v in votes && v in rows
    ensures !DistinctKeys(votes + rows)
  {
    var i :| 0 <= i < |votes| && votes[i] == v;
    var j :| 0 <= j < |rows| && rows[j] == v;
    var all := votes + rows;
    assert all[i] == all[|votes| + j];
  }

  lemma DistinctConcat(votes: seq<Vote>, rows: seq<Vote>, h: int)
    requires DistinctKeys(votes) && DistinctKeys(rows)
    requires forall i :: 0 <= i < |votes| ==> votes[i].height >= h
    requires forall i :: 0 <= i < |rows| ==> rows[i].height < h
    ensures DistinctKeys(votes + rows)
  {
  }

  /** No stored row lies below h exactly when the stored interval starts at h or is empty. */
  lemma NothingBelow(c: Chain, s: State, p0: int, lo: int, h: int)
    requires Honest(c) && Inv(c, s, p0, lo)
    ensures (forall i :: 0 <= i < |s.votes| ==> s.votes[i].height >= h) <==> h <= lo || lo == s.pointer
    ensures s.votes == [] <==> lo == s.pointer
  {
    if lo < s.pointer {
      SomeValidator(c, lo);
      ExpectedContains(c, s.info, lo, s.pointer, lo, 0);
    }
    if h <= lo {
      forall i | 0 <= i < |s.votes| ensures s.votes[i].height >= h {
        var g, k := ExpectedOrigin(c, s.info, lo, s.pointer, i);
      }
    } else if lo < s.pointer {
      var i :| 0 <= i < |s.votes| && s.votes[i] == VoteAt(c, s.info, lo, 0);
    }
  }

  /** The rows a stale process builds fit beside the stored ones exactly when the two intervals of
      heights do not overlap. */
  lemma StaleFitsExactly(c: Chain, s: State, p0: int, lo: int, end: int)
    requires Honest(c) && Inv(c, s, p0, lo) && s.mem < s.pointer && s.mem < end && Known(c, s.info, s.mem, end)
    ensures DistinctKeys(s.votes + Expected(c, s.info, s.mem, end)) <==> end <= lo || lo == s.pointer
  {
    hide DistinctKeys, TableValid, CacheValid;
    var rows := Expected(c, s.info, s.mem, end);
    if lo < end && lo < s.pointer {
      var h := if lo < s.mem then s.mem else lo;
      SomeValidator(c, h);
      ExpectedContains(c, s.info, lo, s.pointer, h, 0);
      ExpectedContains(c, s.info, s.mem, end, h, 0);
      Clashes(s.votes, rows, VoteAt(c, s.info, h, 0));
    } else {
      forall h | lo <= h < s.pointer ensures KnownAt(c, s.info, h) {
      }
      ExpectedDistinct(c, s.info, s.nextId, lo, s.pointer);
      ExpectedDistinct(c, s.info, s.nextId, s.mem, end);
      if lo == s.pointer {
        assert s.votes + rows == rows;
      } else {
        NothingBelow(c, s, p0, lo, end);
        forall i | 0 <= i < |rows| ensures rows[i].height < end {
          var g, k := ExpectedOrigin(c, s.info, s.mem, end, i);
        }
        DistinctConcat(s.votes, rows, end);
      }
    }
  }

  /** The lower end after a commit: a stale process that finds the table emptied fills it again. */
  function LowAfter(s: State, lo: int): int {
    if s.mem < s.pointer && lo == s.pointer then s.mem else lo
  }

  lemma FinishKeeps(c: Chain, s: State, p0: int, lo: int, end: int, commit: Commit)
    requires Honest(c) && Inv(c, s, p0, lo) && s.mem < end && Known(c, s.info, s.mem, end)
    requires end < s.pointer && end <= lo ==> lo == s.pointer
    ensures var (s1, _) := Finish(s, Expected(c, s.info, s.mem, end), end, commit);
            && (s1 == s || Inv(c, s1, p0, LowAfter(s, lo)))
            && (end < s.pointer && lo < s.pointer ==> s1 == s)
            && (lo <= s.mem < s.pointer ==> s1 == s)
  {
    hide DistinctKeys, TableValid, CacheValid, Expected;
    forall h | p0 <= h < end ensures KnownAt(c, s.info, h) {
    }
    if s.mem == s.pointer {
      ExpectedConcat(c, s.info, lo, s.pointer, end);
    } else {
      StaleFitsExactly(c, s, p0, lo, end);
      NothingStored(c, s.info, s.pointer);
      assert [] + Expected(c, s.info, s.mem, end) == Expected(c, s.info, s.mem, end);
    }
  }

  lemma NothingStored(c: Chain, info: InfoTable, h: int)
    ensures Expected(c, info, h, h) == []
  {
  }

  /** Every batch keeps the table in shape unless it strands rows, and never moves the pointer back
      unless it goes back. */
  lemma BatchKeeps(c: Chain, s: State, e: Env, p0: int, lo: int) returns (lo': int)
    requires Honest(c) && Inv(c, s, p0, lo) && OwnInfos(c, e.infos) && !Strands(s, e)
    ensures var (s1, _) := Batch(c, s, e);
            && Inv(c, s1, p0, lo')
            && (!GoesBack(s, e) ==> s1.pointer >= s.pointer)
            && ((s1.pointer == s.pointer && s1.mem == s.mem)
                || (s1.pointer == EndHeight(s.mem, e.latest) && (s1.mem == s.mem || s1.mem == s1.pointer)))
            && (lo <= s.mem < s.pointer ==> s1.votes == s.votes && s1.pointer == s.pointer && s1.mem == s.mem)
    ensures lo' == lo || (lo' == s.mem < s.pointer == lo)
  {
    hide Register, Build, Finish, OwnInfos, TableValid, CacheValid, Honest;
    lo' := lo;
    var start, end := s.mem + 1, EndHeight(s.mem, e.latest);
    if s.mem < e.latest && e.baseOk && !SomeFailed(e.failed, start, end) {
      var list := Collected(c, start, end, e.silent);
      var (s1, ok) := Register(s, e, list);
      RegisterKeeps(c, s, e, list);
      InvExtends(c, s, s1, p0, lo);
      BuildCorrect(c, s1.info, s1.nextId, s1.vim, start, end, list, end, e.silent);
      NothingBelow(c, s, p0, lo, end);
      if ok && Build(list, s1.vim, start, end).Rows? {
        FinishKeeps(c, s1, p0, lo, end, e.commit);
        FinishMoves(s1, Build(list, s1.vim, start, end).rows, end, e.commit);
        if Batch(c, s, e).0 != s1 {
          lo' := LowAfter(s1, lo);
        }
      }
    }
  }

  lemma FinishMoves(s: State, rows: seq<Vote>, end: int, commit: Commit)
    requires s.mem <= end
    ensures var (s1, _) := Finish(s, rows, end, commit);
            s1 == s || (s1.pointer == end && (s1.mem == s.mem || s1.mem == end))
  {
  }

  /** Retention cuts the stored interval from below. */
  lemma RetentionKeeps(c: Chain, s: State, cutoff: int, p0: int, lo: int) returns (lo': int)
    requires Timely(c) && Inv(c, s, p0, lo)
    ensures lo <= lo' <= s.pointer && Inv(c, Step(c, s, Retention(cutoff)), p0, lo')
    ensures forall h :: lo <= h < s.pointer ==> (c.block(h).timestamp >= cutoff <==> lo' <= h)
  {
    lo' := lo;
    while lo' < s.pointer && c.block(lo').timestamp < cutoff
      invariant lo <= lo' <= s.pointer
      invariant forall h :: lo <= h < lo' ==> c.block(h).timestamp < cutoff
    {
      lo' := lo' + 1;
    }
    FilterCuts(c, s.info, lo, s.pointer, Since(cutoff), lo');
  }

  // ---------------------------------------------------------------- the theorems

  /** The invariant over one step. Without retention the lower end stays where it is, as long as
      memory is in step with the table or its next height is stored. */
  lemma StepKeeps(c: Chain, s: State, ev: Event, p0: int, lo: int) returns (lo': int)
    requires Honest(c) && Inv(c, s, p0, lo) && OwnEvent(c, ev) && NoStrand(s, ev) && (ev.Retention? ==> Timely(c))
    ensures Inv(c, Step(c, s, ev), p0, lo')
    ensures NoReturn(s, ev) ==> Step(c, s, ev).pointer >= s.pointer
    ensures !ev.Retention? && (s.mem == s.pointer || lo <= s.mem) ==> lo' == lo
  {
    hide Batch, Upsert, TableValid, CacheValid, Strands, GoesBack, Known, Expected;
    lo' := lo;
    match ev {
      case Sync(e) =>
        lo' := BatchKeeps(c, s, e, p0, lo);
        RestartKeeps(c, Batch(c, s, e).0, p0, lo');
      case Crash =>
        RestartKeeps(c, s, p0, lo);
      case OtherService(infos) =>
        UpsertKeeps(c, s.info, s.nextId, infos);
        CacheStable(c, s.info, Upsert(s.info, s.nextId, infos).0, s.vim);
        SameExtends(s.info);
        InvExtends(c, s, Step(c, s, ev), p0, lo);
      case Retention(cutoff) =>
        lo' := RetentionKeeps(c, s, cutoff, p0, lo);
    }
  }

  lemma SameExtends(info: InfoTable)
    ensures Extends(info, info)
  {
  }

  /** Exactly once over whole runs: whatever mix of batches, failures, panics, lost
      acknowledgements, crashes, other writers and retention ran, as long as no batch strands rows
      the vote table is one row per validator of each height of an interval ending below the
      persisted pointer, in order and nothing else; without retention the interval starts at the
      initial pointer. The pointer never decreases unless a batch goes back. */
  lemma {:induction false} ExactlyOnce(c: Chain, s: State, events: seq<Event>, p0: int)
    requires Honest(c) && Inv(c, s, p0, p0) && OwnRun(c, events) && NoStrands(c, s, events)
    requires NoRetention(events) || Timely(c)
    ensures exists lo :: Inv(c, Run(c, s, events), p0, lo) && (NoRetention(events) ==> lo == p0)
    ensures NoReturns(c, s, events) ==> Run(c, s, events).pointer >= s.pointer
    decreases |events|
  {
    hide Inv, Step, OwnEvent, NoStrand, NoReturn, Honest, Timely;
    if events == [] {
      assert Inv(c, Run(c, s, events), p0, p0);
    } else {
      var init, ev := events[..|events| - 1], events[|events| - 1];
      StrandsInit(c, s, events);
      ExactlyOnce(c, s, init, p0);
      var lo :| Inv(c, Run(c, s, init), p0, lo) && (NoRetention(init) ==> lo == p0);
      MemoryAboveStart(c, Run(c, s, init), p0, lo);
      var lo' := StepKeeps(c, Run(c, s, init), ev, p0, lo);
      assert Inv(c, Run(c, s, events), p0, lo');
    }
  }

  lemma MemoryAboveStart(c: Chain, s: State, p0: int, lo: int)
    requires Inv(c, s, p0, lo)
    ensures p0 <= s.mem
  {
  }

  lemma StrandsInit(c: Chain, s: State, events: seq<Event>)
    requires events != []
    ensures var n := |events| - 1;
            var mid := Run(c, s, events[..n]);
            && (NoStrands(c, s, events) <==> NoStrands(c, s, events[..n]) && NoStrand(mid, events[n]))
            && (NoReturns(c, s, events) <==> NoReturns(c, s, events[..n]) && NoReturn(mid, events[n]))
  {
    hide Run, NoStrand, NoReturn;
    var init := events[..|events| - 1];
    forall i | 0 <= i < |init|
      ensures NoStrand(Run(c, s, init[..i]), init[i]) == NoStrand(Run(c, s, events[..i]), events[i])
      ensures NoReturn(Run(c, s, init[..i]), init[i]) == NoReturn(Run(c, s, events[..i]), events[i])
    {
      assert init[..i] == events[..i] && init[i] == events[i];
    }
  }

  predicate NoRetention(events: seq<Event>) {
    forall i :: 0 <= i < |events| ==> !events[i].Retention?
  }

  // ---------------------------------------------------------------- when no batch goes back

  function LookOf(ev: Event): Look {
    if ev.Sync? then Saw(ev.env.latest) else Nothing
  }

  /** The pointer is never further than the batch that memory would start next. */
  lemma StepReach(c: Chain, s: State, ev: Event, p0: int, lo: int, top: int)
    requires Honest(c) && Inv(c, s, p0, lo) && OwnEvent(c, ev) && NoStrand(s, ev)
    requires s.pointer <= Reach(s.mem, top) && (ev.Sync? ==> ev.env.latest >= top)
    ensures var r := Step(c, s, ev); r.pointer <= Reach(r.mem, if ev.Sync? then ev.env.latest else top)
    ensures NoReturn(s, ev)
  {
    hide Batch, Upsert, TableValid, CacheValid, Known, Expected;
    if ev.Sync? {
      var lo' := BatchKeeps(c, s, ev.env, p0, lo);
    }
  }

  lemma StoredStartStays(c: Chain, s: State, e: Env, p0: int)
    requires Honest(c) && Inv(c, s, p0, p0)
    ensures !GoesBack(s, e)
  {
    NothingBelow(c, s, p0, p0, EndHeight(s.mem, e.latest));
  }

  /** No batch goes back, and so none strands rows, when there is no retention and also when the
      latest height never drops. */
  lemma {:induction false} NeverReturns(c: Chain, s: State, events: seq<Event>, p0: int, top: int)
    requires Honest(c) && Inv(c, s, p0, p0) && s.mem == s.pointer && OwnRun(c, events)
    requires NoRetention(events) || (Timely(c) && Rising(events, LookOf, top))
    ensures NoReturns(c, s, events) && NoStrands(c, s, events)
    ensures Rising(events, LookOf, top) ==>
              Run(c, s, events).pointer <= Reach(Run(c, s, events).mem, TopOf(events, LookOf, top))
    decreases |events|
  {
    hide Inv, Step, OwnEvent, NoStrands, NoReturns, Rising, Honest, Timely, GoesBack;
    if events == [] {
      EmptyRun(c, s);
    } else {
      var init, ev := events[..|events| - 1], events[|events| - 1];
      if Rising(events, LookOf, top) {
        RisingInit(events, LookOf, top);
      }
      NeverReturns(c, s, init, p0, top);
      ExactlyOnce(c, s, init, p0);
      var mid := Run(c, s, init);
      var lo :| Inv(c, mid, p0, lo) && (NoRetention(init) ==> lo == p0);
      if ev.Sync? && NoRetention(events) {
        StoredStartStays(c, mid, ev.env, p0);
      }
      if Rising(events, LookOf, top) {
        StepAhead(mid, ev, TopOf(init, LookOf, top));
        StepReach(c, mid, ev, p0, lo, TopOf(init, LookOf, top));
      }
      StrandsInit(c, s, events);
    }
  }

  /** Exactly once, by what can be seen from outside: no retention, or a latest height that never
      drops. */
  lemma ExactlyOnceWhileRising(c: Chain, s: State, events: seq<Event>, p0: int, top: int)
    requires Honest(c) && Inv(c, s, p0, p0) && s.mem == s.pointer && OwnRun(c, events)
    requires NoRetention(events) || (Timely(c) && Rising(events, LookOf, top))
    ensures Run(c, s, events).pointer >= s.pointer
    ensures exists lo :: Inv(c, Run(c, s, events), p0, lo) && (NoRetention(events) ==> lo == p0)
  {
    hide Inv, Run, OwnRun, NoStrands, NoReturns, Rising, Honest, Timely;
    NeverReturns(c, s, events, p0, top);
    ExactlyOnce(c, s, events, p0);
  }

  lemma EmptyRun(c: Chain, s: State)
    ensures NoReturns(c, s, []) && NoStrands(c, s, [])
  {
  }

  lemma StepAhead(s: State, ev: Event, top: int)
    requires s.pointer <= Reach(s.mem, top) && (ev.Sync? ==> ev.env.latest >= top)
    ensures NoReturn(s, ev) && NoStrand(s, ev)
  {
  }

  // ---------------------------------------------------------------- stuck after a lost acknowledgement

  /** Nothing restarts the process: no crash, and no batch that panics. */
  ghost predicate KeepsRunning(c: Chain, s: State, events: seq<Event>) {
    forall i :: 0 <= i < |events| ==> RunsOn(c, Run(c, s, events[..i]), events[i])
  }

  predicate RunsOn(c: Chain, s: State, ev: Event) {
    ev.OtherService? || (ev.Sync? && Batch(c, s, ev.env).1 != Panicked)
  }

  lemma KeepsRunningInit(c: Chain, s: State, events: seq<Event>)
    requires events != [] && KeepsRunning(c, s, events)
    ensures var n := |events| - 1;
            KeepsRunning(c, s, events[..n]) && RunsOn(c, Run(c, s, events[..n]), events[n])
  {
    hide Run, RunsOn;
    var init := events[..|events| - 1];
    forall i | 0 <= i < |init| ensures RunsOn(c, Run(c, s, init[..i]), init[i]) {
      assert init[..i] == events[..i];
    }
  }

  /** After a lost acknowledgement a process whose next height is stored writes no row and moves no
      pointer again, in any run without retention, until it restarts. */
  lemma {:induction false} StaleStuck(c: Chain, s: State, events: seq<Event>, p0: int, lo: int)
    requires Honest(c) && Inv(c, s, p0, lo) && lo <= s.mem < s.pointer
    requires OwnRun(c, events) && KeepsRunning(c, s, events)
    ensures var r := Run(c, s, events);
            Inv(c, r, p0, lo) && r.pointer == s.pointer && r.mem == s.mem && r.votes == s.votes
    decreases |events|
  {
    hide Inv, OwnEvent, KeepsRunning, Honest, Batch;
    if events != [] {
      var init, ev := events[..|events| - 1], events[|events| - 1];
      KeepsRunningInit(c, s, events);
      StaleStuck(c, s, init, p0, lo);
      StaleStep(c, Run(c, s, init), ev, p0, lo);
    }
  }

  lemma StaleStep(c: Chain, s: State, ev: Event, p0: int, lo: int)
    requires Honest(c) && Inv(c, s, p0, lo) && lo <= s.mem < s.pointer && OwnEvent(c, ev) && RunsOn(c, s, ev)
    ensures var r := Step(c, s, ev);
            Inv(c, r, p0, lo) && r.pointer == s.pointer && r.mem == s.mem && r.votes == s.votes
  {
    hide Batch, Upsert, TableValid, CacheValid, Expected;
    if ev.Sync? {
      NothingBelow(c, s, p0, lo, EndHeight(s.mem, ev.env.latest));
      var lo' := BatchKeeps(c, s, ev.env, p0, lo);
    }
    var lo' := StepKeeps(c, s, ev, p0, lo);
  }

  /** A first start: no rows yet, memory and pointer at the initial height, an empty cache. */
  lemma FreshStart(c: Chain, info: UniqueTable, nextId: int, p0: int)
    requires p0 >= 1 && TableValid(c, info, nextId)
    ensures Inv(c, State([], p0, info, nextId, p0, Reload(map[], info)), p0, p0)
  {
    ReloadKeeps(c, map[], info, nextId);
  }

  /** No other row has this row's height and validator. */
  ghost predicate OnlyRow(votes: seq<Vote>, i: nat)
    requires i < |votes|
  {
    forall j :: 0 <= j < |votes| && votes[j].height == votes[i].height && votes[j].validator == votes[i].validator ==>
      j == i
  }

  /** The row of validator k of height h, read off the blocks of h and h + 1. */
  ghost predicate RowOf(c: Chain, info: InfoTable, h: int, k: nat, v: Vote)
    requires k < |c.block(h).validators|
  {
    var a, signed := c.block(h).validators[k], c.block(h + 1).signatures;
    && k < |signed| && c.owner(a) in info
    && v.height == h && v.timestamp == c.block(h).timestamp && v.validator == info[c.owner(a)].id
    && v.status == if !signed[k] then Missed else if a == c.block(h).proposer then Proposed else Voted
  }

  /** What the invariant means for a single height: its rows are there, one per validator, with the
      id of the validator's operator: missed exactly when the next block carries no signature of it,
      proposed exactly when it signed and proposed the block, voted otherwise. */
  lemma RowsOfHeight(c: Chain, s: State, p0: int, lo: int, h: int, k: nat)
    requires Honest(c) && Inv(c, s, p0, lo) && lo <= h < s.pointer && k < |c.block(h).validators|
    ensures exists i :: 0 <= i < |s.votes| && RowOf(c, s.info, h, k, s.votes[i]) && OnlyRow(s.votes, i)
  {
    assert HonestAt(c, h);
    var v := VoteAt(c, s.info, h, k);
    assert KnownAt(c, s.info, h);
    assert c.block(h).validators[k] in c.block(h).validators;
    ExpectedContains(c, s.info, lo, s.pointer, h, k);
    var i :| 0 <= i < |s.votes| && s.votes[i] == v;
    forall g | lo <= g < s.pointer ensures KnownAt(c, s.info, g) {
    }
    ExpectedDistinct(c, s.info, s.nextId, lo, s.pointer);
  }

  ghost predicate Stored(votes: seq<Vote>, h: int) {
    exists i :: 0 <= i < |votes| && votes[i].height == h
  }

  /** The surviving heights are an interval ending just below the pointer. */
  lemma SurvivorsContiguous(c: Chain, s: State, p0: int, lo: int, h: int)
    requires Honest(c) && Inv(c, s, p0, lo)
    ensures Stored(s.votes, h) <==> lo <= h < s.pointer
  {
    if Stored(s.votes, h) {
      var i :| 0 <= i < |s.votes| && s.votes[i].height == h;
      var g, k := ExpectedOrigin(c, s.info, lo, s.pointer, i);
    }
    if lo <= h < s.pointer {
      SomeValidator(c, h);
      ExpectedContains(c, s.info, lo, s.pointer, h, 0);
      var i :| 0 <= i < |s.votes| && s.votes[i] == VoteAt(c, s.info, h, 0);
    }
  }
}
