/** The amplifier indexer's object, proved against the state machine
    (internal/packages/axelar/amplifier-verifier/indexer/sync.go, lines 46-273;
    internal/packages/axelar/amplifier-verifier/repository/repository.go, lines 33-115). */
module AmplifierService {
  import opened IntSets
  import opened AmplifierPolls
  import opened Windows

  type SummaryMap = map<int, Summary>

  function Lookup(summary: SummaryMap, h: int): Summary {
    if h in summary then summary[h] else Summary([], [])
  }

  /** The collected map, read at a height of the batch, is what was seen there. */
  ghost predicate Holds(summary: SummaryMap, c: Chain, silent: set<int>, start: int, end: int) {
    forall h :: start <= h <= end ==> Lookup(summary, h) == Seen(c, silent, h)
  }

  /** Results arrive in any order; a silent worker leaves no entry. */
  method Collect(c: Chain, start: int, end: int, failed: set<int>, silent: set<int>)
    returns (summary: SummaryMap, errorCount: nat)
    ensures errorCount > 0 <==> SomeFailed(failed, start, end)
    ensures errorCount == 0 ==> Holds(summary, c, silent, start, end)
  {
    var pending := StartWorkers(start, end);
    summary, errorCount := map[], 0;
    while pending != {}
      invariant forall h :: h in pending ==> start <= h <= end
      invariant errorCount == 0 ==>
        forall h :: start <= h <= end && h !in pending ==> Lookup(summary, h) == Seen(c, silent, h)
      invariant forall h :: h in summary ==> h !in pending
      invariant errorCount > 0 <==> exists h :: start <= h <= end && h !in pending && h in failed
      decreases |pending|
    {
      SomeMember(pending);
      var h :| h in pending;
      pending := pending - {h};
      if h in failed {
        errorCount := errorCount + 1;
      } else if h !in silent {
        summary := summary[h := c(h)];
      }
    }
  }

  // ---------------------------------------------------------------- new verifiers

  lemma NewOfConcat(vim: set<Verifier>, a: seq<Init>, b: seq<Init>)
    ensures NewVerifiers(vim, a + b) == NewVerifiers(vim, a) + NewVerifiers(vim, b)
  {
    forall v | v in NewVerifiers(vim, a) ensures v in NewVerifiers(vim, a + b) {
      var i :| 0 <= i < |a| && a[i].key.verifier == v && v !in vim;
      assert (a + b)[i] == a[i];
    }
    forall v | v in NewVerifiers(vim, b) ensures v in NewVerifiers(vim, a + b) {
      var i :| 0 <= i < |b| && b[i].key.verifier == v && v !in vim;
      assert (a + b)[|a| + i] == b[i];
    }
    forall v | v in NewVerifiers(vim, a + b) ensures v in NewVerifiers(vim, a) + NewVerifiers(vim, b) {
      var i :| 0 <= i < |a + b| && (a + b)[i].key.verifier == v && v !in vim;
      if i < |a| {
        assert a[i].key.verifier == v;
      } else {
        assert b[i - |a|].key.verifier == v;
      }
    }
  }

  method AddParticipants(h: int, p: Poll, vim: set<Verifier>, found: set<Verifier>) returns (r: set<Verifier>)
    ensures r == found + NewVerifiers(vim, PollInits(h, p))
  {
    r := found;
    for j := 0 to |p.participants|
      invariant r == found + NewVerifiers(vim, PollInits(h, p)[..j])
    {
      var v := p.participants[j];
      assert PollInits(h, p)[..j + 1] == PollInits(h, p)[..j] + [Init(Key(p.name, v), h)];
      NewOfConcat(vim, PollInits(h, p)[..j], [Init(Key(p.name, v), h)]);
      NewOfOne(vim, Init(Key(p.name, v), h));
      if v !in vim {
        r := r + {v};
      }
    }
    assert PollInits(h, p)[..|p.participants|] == PollInits(h, p);
  }

  lemma NewOfOne(vim: set<Verifier>, x: Init)
    ensures NewVerifiers(vim, [x]) == if x.key.verifier in vim then {} else {x.key.verifier}
  {
    if x.key.verifier !in vim {
      assert [x][0].key.verifier in NewVerifiers(vim, [x]);
    }
  }

  method FindNewVerifiers(ghost c: Chain, ghost silent: set<int>, summary: SummaryMap, start: int, end: int,
                          vim: set<Verifier>)
    returns (found: set<Verifier>)
    requires Holds(summary, c, silent, start, end)
    ensures found == NewVerifiers(vim, InitList(c, silent, start, end))
  {
    hide NewVerifiers, PollInits;
    found := {};
    NewOfNothing(vim);
    var h := start;
    while h <= end
      invariant start <= h && (h <= end + 1 || h == start)
      invariant found == NewVerifiers(vim, InitList(c, silent, start, h - 1))
    {
      var polls := Lookup(summary, h).polls;
      ghost var before := found;
      for i := 0 to |polls|
        invariant found == before + NewVerifiers(vim, HeightInits(h, polls[..i]))
      {
        assert polls[..i + 1][..i] == polls[..i];
        NewOfConcat(vim, HeightInits(h, polls[..i]), PollInits(h, polls[i]));
        found := AddParticipants(h, polls[i], vim, found);
      }
      assert polls[..|polls|] == polls;
      NewOfConcat(vim, InitList(c, silent, start, h - 1), HeightInits(h, polls));
      h := h + 1;
    }
  }

  lemma NewOfNothing(vim: set<Verifier>)
    ensures NewVerifiers(vim, []) == {}
  {
  }

  // ---------------------------------------------------------------- the two lists

  method HeightLists(h: int, s: Summary, contracts: set<Contract>, vim: set<Verifier>)
    returns (inits: seq<Init>, updates: Updates)
    ensures inits == HeightInits(h, s.polls)
    ensures updates == HeightUpdates(h, s.votes, contracts, vim)
  {
    inits := [];
    for i := 0 to |s.polls|
      invariant inits == HeightInits(h, s.polls[..i])
    {
      assert s.polls[..i + 1][..i] == s.polls[..i];
      var p := s.polls[i];
      var rows: seq<Init> := [];
      for j := 0 to |p.participants|
        invariant rows == PollInits(h, p)[..j]
      {
        rows := rows + [Init(Key(p.name, p.participants[j]), h)];
      }
      inits := inits + rows;
    }
    assert s.polls[..|s.polls|] == s.polls;
    var list: seq<Update> := [];
    for i := 0 to |s.votes|
      invariant HeightUpdates(h, s.votes[..i], contracts, vim) == Updates(list)
    {
      assert s.votes[..i + 1][..i] == s.votes[..i];
      var pv := s.votes[i];
      if pv.contract !in contracts {
        UnknownSticks(h, s.votes, contracts, vim, i + 1);
        return inits, UnknownContract;
      }
      if pv.verifier in vim {
        list := list + [Update(Key(pv.poll, pv.verifier), h, pv.status)];
      }
    }
    assert s.votes[..|s.votes|] == s.votes;
    return inits, Updates(list);
  }

  lemma {:induction false} UnknownSticks(h: int, votes: seq<PollVote>, contracts: set<Contract>,
                                         vim: set<Verifier>, i: nat)
    requires i <= |votes| && HeightUpdates(h, votes[..i], contracts, vim).UnknownContract?
    ensures HeightUpdates(h, votes, contracts, vim).UnknownContract?
    decreases |votes|
  {
    if i == |votes| {
      assert votes[..i] == votes;
    } else {
      assert votes[..|votes| - 1][..i] == votes[..i];
      UnknownSticks(h, votes[..|votes| - 1], contracts, vim, i);
    }
  }

  lemma {:induction false} UnknownStops(c: Chain, silent: set<int>, contracts: set<Contract>,
                                        vim: set<Verifier>, start: int, m: int, n: int)
    requires start <= m <= n && UpdateList(c, silent, contracts, vim, start, m).UnknownContract?
    ensures UpdateList(c, silent, contracts, vim, start, n).UnknownContract?
    decreases n - m
  {
    if m < n {
      UnknownStops(c, silent, contracts, vim, start, m, n - 1);
    }
  }

  /** An unknown contract ends the batch before anything is written. */
  method BuildLists(ghost c: Chain, ghost silent: set<int>, summary: SummaryMap, start: int, end: int,
                    contracts: set<Contract>, vim: set<Verifier>)
    returns (inits: seq<Init>, updates: Updates)
    requires start <= end && Holds(summary, c, silent, start, end)
    ensures updates == UpdateList(c, silent, contracts, vim, start, end)
    ensures updates.Updates? ==> inits == InitList(c, silent, start, end)
  {
    hide HeightInits, HeightUpdates;
    inits := [];
    var list: seq<Update> := [];
    var h := start;
    while h <= end
      invariant start <= h <= end + 1
      invariant inits == InitList(c, silent, start, h - 1)
      invariant UpdateList(c, silent, contracts, vim, start, h - 1) == Updates(list)
    {
      var more, votes := HeightLists(h, Lookup(summary, h), contracts, vim);
      inits := inits + more;
      if votes.UnknownContract? {
        UnknownStops(c, silent, contracts, vim, start, h, end);
        return inits, UnknownContract;
      }
      list := list + votes.list;
      h := h + 1;
    }
    return inits, Updates(list);
  }

  // ---------------------------------------------------------------- the indexer

  /** The map is traversed in any order. */
  method ListOf(unseen: set<Verifier>) returns (list: seq<Verifier>)
    ensures forall v :: v in list <==> v in unseen
    ensures forall i, j :: 0 <= i < j < |list| ==> list[i] != list[j]
  {
    list := [];
    var pending := unseen;
    while pending != {}
      invariant pending <= unseen && forall v :: v in list <==> v in unseen && v !in pending
      invariant forall i, j :: 0 <= i < j < |list| ==> list[i] != list[j]
      decreases |pending|
    {
      var v :| v in pending;
      assert v !in list;
      pending := pending - {v};
      list := list + [v];
    }
  }

  lemma Apart(list: seq<Verifier>, unseen: set<Verifier>, info: set<Verifier>)
    requires forall v :: v in list <==> v in unseen
    ensures unseen * info == {} <==> forall v :: v in list ==> v !in info
  {
    forall v | v in list && v in info ensures v in unseen * info {
    }
  }

  class AmplifierIndexer {
    var rows: Rows
    var pointer: int
    var info: set<Verifier>
    var indexPoint: int
    var vim: set<Verifier>

    ghost function Abs(): State
      reads this
    {
      State(rows, pointer, info, indexPoint, vim)
    }

    method InsertInitPollVoteList(list: seq<Init>, commit: Commit) returns (ok: bool)
      modifies this`rows
      ensures ok == (commit == Applied)
      ensures rows == if commit == Refused then old(rows) else InsertInits(old(rows), list)
    {
      if commit == Refused {
        return false;
      }
      for i := 0 to |list|
        invariant rows == InsertInits(old(rows), list[..i])
      {
        assert list[..i + 1][..i] == list[..i];
        if list[i].key !in rows {
          rows := rows[list[i].key := Row(list[i].height, 0, PollStart)];
        }
      }
      assert list[..|list|] == list;
      return commit == Applied;
    }

    /** Votes and pointer in one transaction. */
    method UpdatePollVoteList(height: int, list: seq<Update>, commit: Commit) returns (ok: bool)
      modifies this`rows, this`pointer
      ensures ok == (commit == Applied)
      ensures commit == Refused ==> rows == old(rows) && pointer == old(pointer)
      ensures commit != Refused ==> rows == UpdateVotes(old(rows), list) && pointer == height
    {
      if commit == Refused {
        return false;
      }
      for i := 0 to |list|
        invariant rows == UpdateVotes(old(rows), list[..i])
      {
        assert list[..i + 1][..i] == list[..i];
        var x := list[i];
        if x.key in rows && x.height < rows[x.key].start + BLOCK_EXPIRY {
          rows := rows[x.key := Row(rows[x.key].start, x.height, x.status)];
        }
      }
      assert list[..|list|] == list;
      pointer := height;
      return commit == Applied;
    }

    /** A plain insert: nothing is inserted when one of the addresses is already there. */
    method InsertVerifierInfoList(list: seq<Verifier>, allowed: bool) returns (ok: bool)
      modifies this`info
      ensures ok == (allowed && forall v :: v in list ==> v !in old(info))
      ensures info == if ok then old(info) + set v | v in list else old(info)
    {
      if !allowed {
        return false;
      }
      var table := info;
      for i := 0 to |list|
        invariant table == info + set v | v in list[..i]
        invariant forall j :: 0 <= j < i ==> list[j] !in info
      {
        if list[i] in info {
          assert list[i] in list;
          return false;
        }
        table := table + {list[i]};
      }
      assert list[..|list|] == list;
      info := table;
      return true;
    }

    /** The rows come in any order; what was cached stays. */
    method FetchValidatorInfoList()
      modifies this`vim
      ensures vim == old(vim) + info
    {
      var pending := info;
      while pending != {}
        invariant pending <= info && vim == old(vim) + (info - pending)
        decreases |pending|
      {
        var v :| v in pending;
        pending := pending - {v};
        vim := vim + {v};
      }
    }

    /** Either every unseen verifier is now registered and cached, or the batch gives up. */
    method RegisterNew(unseen: set<Verifier>, e: Env) returns (ok: bool)
      modifies this`info, this`vim
      ensures ok ==> unseen <= info && (unseen != {} ==> unseen <= vim)
      ensures old(info) <= info <= old(info) + unseen && old(vim) <= vim
      ensures (Abs(), ok) == Register(old(Abs()), e, unseen)
    {
      if unseen == {} {
        return true;
      }
      var list := ListOf(unseen);
      var inserted := InsertVerifierInfoList(list, e.insertOk);
      assert unseen == set v | v in list;
      Apart(list, unseen, old(info));
      if e.fetchOk {
        FetchValidatorInfoList();
      }
      return inserted && e.fetchOk;
    }

    method BatchSync(c: Chain, e: Env) returns (out: Outcome)
      modifies this
      ensures (Abs(), out) == Batch(c, old(Abs()), e)
    {
      hide InitList, UpdateList, NewVerifiers, InsertInits, UpdateVotes, SomeFailed, Register, Holds;
      var start, end := indexPoint + 1, e.latest;
      if start > end {
        return Skipped;
      }
      if end - start > BATCH_SYNC_LIMIT {
        end := start + BATCH_SYNC_LIMIT;
      }
      if !e.contractsOk {
        return Failed;
      }
      var summary, errorCount := Collect(c, start, end, e.failed, e.silent);
      if errorCount > 0 {
        return Failed;
      }
      var unseen := FindNewVerifiers(c, e.silent, summary, start, end, vim);
      var registered := RegisterNew(unseen, e);
      if !registered {
        return Failed;
      }
      var inits, updates := BuildLists(c, e.silent, summary, start, end, e.contracts, vim);
      if updates.UnknownContract? {
        return Failed;
      }
      NothingToInsert(rows, inits);
      if inits != [] {
        var inserted := InsertInitPollVoteList(inits, e.initCommit);
        if !inserted {
          return Failed;
        }
      }
      var updated := UpdatePollVoteList(end, updates.list, e.voteCommit);
      if !updated {
        return Failed;
      }
      indexPoint := end;
      return Committed;
    }

    /** One event: a turn of the loop, a new process, or another service writing verifier_info. */
    method Handle(c: Chain, ev: Event)
      modifies this
      ensures Abs() == Step(c, old(Abs()), ev)
    {
      match ev {
        case Sync(e) =>
          var _ := BatchSync(c, e);
        case Crash =>
          indexPoint, vim := pointer, {};
          FetchValidatorInfoList();
        case OtherService(verifiers) =>
          info := info + verifiers;
      }
    }

    /** The object goes through every run exactly as the state machine does. */
    method RunAll(c: Chain, events: seq<Event>)
      modifies this
      ensures Abs() == Run(c, old(Abs()), events)
    {
      hide Step;
      for i := 0 to |events|
        invariant Abs() == Run(c, old(Abs()), events[..i])
      {
        assert events[..i + 1][..i] == events[..i];
        Handle(c, events[i]);
      }
      assert events[..|events|] == events;
    }
  }
}
