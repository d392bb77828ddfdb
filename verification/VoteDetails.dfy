/** What the vote indexer's single operations do, stated field by field for all inputs: the upsert, the
    search for unseen addresses, the cache after registration, the rows of one height, the write, a
    panic and a restart
    (internal/packages/consensus/voteindexer/indexer/batch_sync.go, lines 132-251 and 255-329;
    internal/packages/consensus/voteindexer/indexer/indexer.go, lines 58-87 and 205-218;
    internal/common/indexer/repository/validator_info.go, lines 62-77). */
module VoteDetails {
  import opened VoteChain
  import opened VoteSync
  import opened VoteProgress
  import opened Windows

  // ---------------------------------------------------------------- the upsert

  predicate Listed(infos: seq<Info>, op: Operator) {
    exists i :: 0 <= i < |infos| && infos[i].operator == op
  }

  /** An operator that is not listed is neither added nor changed. */
  lemma {:induction false} UpsertLeaves(info: InfoTable, nextId: int, infos: seq<Info>, op: Operator)
    requires !Listed(infos, op)
    ensures var later := Upsert(info, nextId, infos).0;
            (op in later <==> op in info) && (op in info ==> later[op] == info[op])
    decreases |infos|
  {
    if infos != [] {
      var init := infos[..|infos| - 1];
      assert infos[|infos| - 1].operator != op;
      forall i | 0 <= i < |init| ensures init[i].operator != op {
        assert infos[i].operator != op;
      }
      UpsertLeaves(info, nextId, init, op);
    }
  }

  /** A listed operator takes the listed key. If it had a row it keeps id and moniker; if not it gets
      a new id and the listed moniker. */
  lemma {:induction false} UpsertExact(info: InfoTable, nextId: int, infos: seq<Info>, i: nat)
    requires DistinctOperators(infos) && i < |infos|
    ensures var (later, id) := Upsert(info, nextId, infos);
            var x := infos[i];
            && x.operator in later && later[x.operator].hex == x.hex
            && (x.operator in info ==>
                  later[x.operator].id == info[x.operator].id && later[x.operator].moniker == info[x.operator].moniker)
            && (x.operator !in info ==> nextId <= later[x.operator].id < id && later[x.operator].moniker == x.moniker)
            && nextId <= id
    decreases |infos|
  {
    var init, last := infos[..|infos| - 1], infos[|infos| - 1];
    UpsertIds(info, nextId, init);
    if i < |init| {
      UpsertExact(info, nextId, init, i);
      assert infos[i].operator != last.operator;
    } else {
      assert !Listed(init, last.operator);
      UpsertLeaves(info, nextId, init, last.operator);
    }
  }

  lemma {:induction false} UpsertIds(info: InfoTable, nextId: int, infos: seq<Info>)
    ensures nextId <= Upsert(info, nextId, infos).1
    decreases |infos|
  {
    if infos != [] {
      UpsertIds(info, nextId, infos[..|infos| - 1]);
    }
  }

  /** Another service's list is in the table afterwards, or refused as a whole. */
  lemma OtherServiceStores(c: Chain, s: State, infos: seq<Info>, i: nat)
    requires TableValid(c, s.info, s.nextId) && OwnInfos(c, infos) && i < |infos|
    ensures var r, op := Step(c, s, OtherService(infos)), infos[i].operator;
            && (DistinctOperators(infos) ==> op in r.info && r.info[op].hex == infos[i].hex)
            && (DistinctOperators(infos) && op !in s.info ==> r.info[op].moniker == infos[i].moniker)
            && (!DistinctOperators(infos) ==> r == s)
            && r.votes == s.votes && r.pointer == s.pointer && r.mem == s.mem && r.vim == s.vim
  {
    hide Upsert, UniqueHex, DistinctOperators, TableValid;
    if DistinctOperators(infos) {
      UpsertKeeps(c, s.info, s.nextId, infos);
      var later := Upsert(s.info, s.nextId, infos);
      ValidTableIsUnique(c, later.0, later.1);
      UpsertExact(s.info, s.nextId, infos, i);
    }
  }

  // ---------------------------------------------------------------- unseen addresses and the cache

  /** Proposers and validators of the collected blocks that are not cached. */
  lemma NewAddressesExactly(vim: IdMap, list: SummaryMap, a: Address)
    ensures a in NewAddresses(vim, list) <==>
            a !in vim && exists h :: h in list && (a == list[h].proposer || a in list[h].validators)
  {
    if h :| h in list && (a == list[h].proposer || a in list[h].validators) {
      assert a in Mentioned(list[h]);
    }
  }

  /** Every row of the table is cached with its id. */
  ghost predicate CachesTable(vim: IdMap, info: InfoTable) {
    forall op :: op in info ==> info[op].hex in vim && vim[info[op].hex] == info[op].id
  }

  lemma ReloadCaches(vim: IdMap, info: UniqueTable)
    ensures CachesTable(Reload(vim, info), info)
    ensures forall a :: a in Reload(vim, info) && a !in vim ==> exists op :: op in info && info[op].hex == a
  {
    var later := Reload(vim, info);
    forall op | op in info ensures info[op].hex in later && later[info[op].hex] == info[op].id {
      forall p | p in info && info[p].hex == info[op].hex ensures p == op {
      }
    }
  }

  /** When there is something to register and the table can be read, registration ends with every row
      cached, also after a refused insert; otherwise the cache stays. The table changes only when the
      statement is accepted. */
  lemma RegisterRereads(c: Chain, s: State, e: Env, list: SummaryMap)
    requires TableValid(c, s.info, s.nextId) && OwnInfos(c, e.infos)
    ensures var s1 := Register(s, e, list).0;
            var unseen := NewAddresses(s.vim, list) != {};
            && (unseen && e.fetchOk ==> CachesTable(s1.vim, s1.info))
            && (!unseen || !e.fetchOk ==> s1.vim == s.vim)
            && (unseen && e.upsertOk && DistinctOperators(e.infos) ==>
                  forall i :: 0 <= i < |e.infos| ==>
                    e.infos[i].operator in s1.info && s1.info[e.infos[i].operator].hex == e.infos[i].hex)
            && (!unseen || !e.upsertOk || !DistinctOperators(e.infos) ==> s1.info == s.info && s1.nextId == s.nextId)
  {
    hide Upsert, UniqueHex, DistinctOperators, TableValid, Reload, CachesTable, NewAddresses;
    UpsertKeeps(c, s.info, s.nextId, e.infos);
    var later := Upsert(s.info, s.nextId, e.infos);
    ValidTableIsUnique(c, later.0, later.1);
    ReloadCaches(s.vim, later.0);
    ReloadCaches(s.vim, s.info);
    if DistinctOperators(e.infos) {
      forall i | 0 <= i < |e.infos|
        ensures e.infos[i].operator in later.0 && later.0[e.infos[i].operator].hex == e.infos[i].hex
      {
        UpsertExact(s.info, s.nextId, e.infos, i);
      }
    }
  }

  // ---------------------------------------------------------------- the rows of one height

  /** The row of validator k, read off the two blocks. */
  ghost predicate IsRow(vim: IdMap, prev: Summary, signatures: seq<bool>, k: nat, v: Vote)
    requires k < |prev.validators| && k < |signatures|
  {
    && prev.proposer in vim && prev.validators[k] in vim
    && v.height == prev.height && v.timestamp == prev.timestamp && v.validator == vim[prev.validators[k]]
    && (v.status == Missed <==> !signatures[k])
    && (v.status == Proposed <==> signatures[k] && vim[prev.proposer] == vim[prev.validators[k]])
  }

  /** Whatever the two blocks say: a height is built exactly when proposer and validators are cached and
      no signature slot is missing, and then row k is the one of validator k; the process panics exactly
      when the slots run out before an address without id is met. */
  lemma {:induction false} VotesExactly(vim: IdMap, prev: Summary, signatures: seq<bool>, n: nat)
    requires n <= |prev.validators|
    ensures var r := VotesUpTo(vim, prev, signatures, n);
            var m := if |signatures| < n then |signatures| else n;
            var known := prev.proposer in vim && forall k :: 0 <= k < m ==> prev.validators[k] in vim;
            && (r.NoId? <==> !known)
            && (r.Panic? <==> known && |signatures| < n)
            && (r.Rows? ==> |r.rows| == n && forall k :: 0 <= k < n ==> IsRow(vim, prev, signatures, k, r.rows[k]))
    decreases n
  {
    hide IsRow;
    if n > 0 {
      VotesExactly(vim, prev, signatures, n - 1);
      var r := VotesUpTo(vim, prev, signatures, n);
      if r.Rows? {
        RowBuilt(vim, prev, signatures, n - 1, r.rows[n - 1]);
      }
    }
  }

  lemma RowBuilt(vim: IdMap, prev: Summary, signatures: seq<bool>, k: nat, v: Vote)
    requires k < |prev.validators| && k < |signatures|
    requires prev.proposer in vim && prev.validators[k] in vim
    requires v == Vote(prev.height, prev.timestamp, vim[prev.validators[k]],
                       if !signatures[k] then Missed
                       else if vim[prev.proposer] == vim[prev.validators[k]] then Proposed else Voted)
    ensures IsRow(vim, prev, signatures, k, v)
  {
  }

  /** Whatever was collected: a window is built exactly when at every height the block commits the height
      of the block before it, a missing block counting as one of height 0 that commits height 0, and
      the rows of the block before can be built. */
  lemma {:induction false} BuildExactly(list: SummaryMap, vim: IdMap, start: int, end: int)
    ensures Build(list, vim, start, end).Rows? <==>
            forall h :: start <= h <= end ==>
              && (if h in list then list[h].lastCommit else 0) == (if h - 1 in list then list[h - 1].height else 0)
              && MakeVotes(vim, Lookup(list, h - 1), Lookup(list, h).signatures).Rows?
    decreases end - start
  {
    hide MakeVotes;
    if start <= end {
      BuildExactly(list, vim, start, end - 1);
      assert Linked(list, end) <==>
             (if end in list then list[end].lastCommit else 0) == (if end - 1 in list then list[end - 1].height else 0);
    }
  }

  // ---------------------------------------------------------------- the write

  /** Two rows, among the stored and the new ones, of one height and validator. */
  predicate Doubled(votes: seq<Vote>) {
    exists i, j :: 0 <= i < j < |votes| &&
      votes[i].height == votes[j].height && votes[i].validator == votes[j].validator
  }

  /** The write is refused as a whole when some height and validator would have two rows, whatever
      their statuses; otherwise rows and pointer are stored, and memory follows an acknowledgement. */
  lemma FinishExactly(s: State, rows: seq<Vote>, pointer: int, commit: Commit)
    ensures var (r, out) := Finish(s, rows, pointer, commit);
            if commit == Refused || Doubled(s.votes + rows) then r == s && out == Failed
            else && r.votes == s.votes + rows && r.pointer == pointer && r.info == s.info && r.vim == s.vim
                 && r.mem == (if commit == Applied then pointer else s.mem)
                 && (out == Committed <==> commit == Applied) && (out == Failed <==> commit == Unacknowledged)
  {
  }

  // ---------------------------------------------------------------- a panic

  /** A worker stayed silent, and no address is missing at the heights built before. */
  ghost predicate SilentBeforeUnknown(c: Chain, vim: IdMap, silent: set<int>, start: int, last: int) {
    exists h :: start <= h <= last && h in silent && AllCached(c, vim, start - 1, h - 1)
  }

  lemma {:induction false} BuildPanics(c: Chain, info: InfoTable, nextId: int, vim: IdMap, start: int, end: int,
                                       list: SummaryMap, last: int, silent: set<int>)
    requires Honest(c) && TableValid(c, info, nextId) && CacheValid(c, info, vim)
    requires 2 <= start && start - 1 <= last <= end && list == Collected(c, start, end, silent)
    ensures Build(list, vim, start, last).Panic? <==> SilentBeforeUnknown(c, vim, silent, start, last)
    decreases last - start
  {
    hide TableValid, CacheValid, MakeVotes, KnownAt, VoteList, Mentioned, DistinctOwners, AllCached;
    if start <= last {
      BuildPanics(c, info, nextId, vim, start, end, list, last - 1, silent);
      var before := Build(list, vim, start, last - 1);
      if before.Rows? {
        BuildNeeds(c, info, nextId, vim, start, end, list, last - 1, silent);
        BuildCorrect(c, info, nextId, vim, start, end, list, last - 1, silent);
        assert HonestAt(c, last - 1) && HonestAt(c, last);
        MakeVotesCorrect(c, info, nextId, vim, last - 1);
        assert Linked(list, last) <==> last !in silent;
      } else if before.NoId? {
        NoIdMeansUnknown(c, info, nextId, vim, start, end, list, last - 1, silent);
      }
    }
  }

  lemma {:induction false} NoIdMeansUnknown(c: Chain, info: InfoTable, nextId: int, vim: IdMap, start: int, end: int,
                                            list: SummaryMap, last: int, silent: set<int>)
    requires Honest(c) && TableValid(c, info, nextId) && CacheValid(c, info, vim)
    requires 2 <= start && start - 1 <= last <= end && list == Collected(c, start, end, silent)
    requires Build(list, vim, start, last).NoId?
    ensures !AllCached(c, vim, start - 1, last)
    decreases last - start
  {
    hide TableValid, CacheValid, MakeVotes, KnownAt, VoteList, Mentioned, DistinctOwners;
    var before := Build(list, vim, start, last - 1);
    if start <= last && before.NoId? {
      NoIdMeansUnknown(c, info, nextId, vim, start, end, list, last - 1, silent);
    } else if start <= last {
      BuildCorrect(c, info, nextId, vim, start, end, list, last - 1, silent);
      BuildNeeds(c, info, nextId, vim, start, end, list, last - 1, silent);
      assert HonestAt(c, last - 1) && HonestAt(c, last);
      MakeVotesCorrect(c, info, nextId, vim, last - 1);
    }
  }

  /** The process panics exactly when no worker reported a failure, registration succeeded, and a silent
      worker's height comes up before an address without id; it is skipped exactly when there is
      nothing to fetch. */
  lemma PanicsExactly(c: Chain, s: State, e: Env)
    requires Honest(c) && TableValid(c, s.info, s.nextId) && CacheValid(c, s.info, s.vim)
    requires 1 <= s.mem && OwnInfos(c, e.infos)
    ensures var start, end := s.mem + 1, EndHeight(s.mem, e.latest);
            var (s1, ok) := Register(s, e, Window(c, s, e));
            var out := Batch(c, s, e).1;
            && (out == Panicked <==>
                && s.mem < e.latest && e.baseOk && (forall h :: start <= h <= end ==> h !in e.failed) && ok
                && SilentBeforeUnknown(c, s1.vim, e.silent, start, end))
            && (out == Skipped <==> s.mem >= e.latest)
  {
    hide DistinctKeys, TableValid, CacheValid, Register, Build, Mentioned, OwnInfos, SilentBeforeUnknown;
    if s.mem < e.latest {
      var start, end, list := s.mem + 1, EndHeight(s.mem, e.latest), Window(c, s, e);
      var s1 := Register(s, e, list).0;
      RegisterKeeps(c, s, e, list);
      BuildPanics(c, s1.info, s1.nextId, s1.vim, start, end, list, end, e.silent);
    }
  }

  // ---------------------------------------------------------------- a new process

  /** A new process reads the persisted pointer, and caches exactly the rows of the table. */
  ghost predicate Recovered(s: State, r: State) {
    && r.mem == s.pointer && r.pointer == s.pointer && r.votes == s.votes && r.info == s.info && r.nextId == s.nextId
    && CachesTable(r.vim, s.info)
    && forall a :: a in r.vim ==> exists op :: op in s.info && s.info[op].hex == a
  }

  /** So it is after a crash and after a panic, in every state, however stale memory was. */
  lemma RestartRecovers(c: Chain, s: State, ev: Event)
    requires ev.Crash? || (ev.Sync? && Batch(c, s, ev.env).1 == Panicked)
    ensures Recovered(if ev.Crash? then s else Batch(c, s, ev.env).0, Step(c, s, ev))
  {
    hide Batch, Reload, CachesTable, UniqueHex;
    ReloadCaches(map[], s.info);
    if ev.Sync? {
      ReloadCaches(map[], Batch(c, s, ev.env).0.info);
    }
  }

  /** And so the first good batch after a crash commits and advances from the persisted pointer. */
  lemma CrashThenAdvances(c: Chain, s: State, e: Env, p0: int, lo: int)
    requires Honest(c) && Inv(c, s, p0, lo) && s.pointer < e.latest && Good(c, Step(c, s, Crash), e)
    ensures var (r, out) := Batch(c, Step(c, s, Crash), e);
            out == Committed && r.pointer == r.mem == Min(s.pointer + 11, e.latest)
  {
    hide Batch, Good, Inv, Reload, UniqueHex, CachesTable;
    RestartKeeps(c, s, p0, lo);
    RestartRecovers(c, s, Crash);
    GoodBatchAdvances(c, Step(c, s, Crash), e, p0, lo);
  }
}
