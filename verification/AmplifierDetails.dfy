/** What the amplifier indexer's single operations do, stated field by field for all inputs: the two
    statements, the lists, registration, the commits and a restart
    (internal/packages/axelar/amplifier-verifier/indexer/sync.go, lines 132-273;
    internal/packages/axelar/amplifier-verifier/indexer/indexer.go, lines 54-71 and 170-180;
    internal/packages/axelar/amplifier-verifier/repository/repository.go, lines 33-115;
    internal/common/indexer/repository/verifier_info.go, lines 62-75). */
module AmplifierDetails {
  import opened AmplifierPolls
  import opened AmplifierRuns
  import opened Windows

  // ---------------------------------------------------------------- the two statements

  /** The first listed row of a new pair is the one that is inserted. */
  lemma {:induction false} FirstInitWins(rows: Rows, list: seq<Init>, i: nat)
    requires i < |list| && list[i].key !in rows && forall j :: 0 <= j < i ==> list[j].key != list[i].key
    ensures var r := InsertInits(rows, list);
            list[i].key in r && r[list[i].key] == Row(list[i].height, 0, PollStart)
    decreases |list|
  {
    if i < |list| - 1 {
      FirstInitWins(rows, list[..|list| - 1], i);
    } else {
      InsertInitsSpec(rows, list[..i]);
    }
  }

  /** The last listed vote of a pair that comes less than ten blocks after the start is the one that
      stays. */
  lemma {:induction false} LastVoteWins(rows: Rows, list: seq<Update>, i: nat)
    requires i < |list| && list[i].key in rows && list[i].height < rows[list[i].key].start + 10
    requires forall j :: i < j < |list| && list[j].key == list[i].key ==> list[j].height >= rows[list[i].key].start + 10
    ensures var r, k := UpdateVotes(rows, list), list[i].key;
            k in r && r[k] == Row(rows[k].start, list[i].height, list[i].status)
    decreases |list|
  {
    var k := list[i].key;
    UpdateVotesSpec(rows, list[..|list| - 1], k);
    if i < |list| - 1 {
      LastVoteWins(rows, list[..|list| - 1], i);
    }
  }

  // ---------------------------------------------------------------- the lists

  /** Participants of the listed rows that are not cached. */
  lemma NewVerifiersExactly(vim: set<Verifier>, inits: seq<Init>, v: Verifier)
    ensures v in NewVerifiers(vim, inits) <==> v !in vim && exists x :: x in inits && x.key.verifier == v
  {
    if x :| x in inits && x.key.verifier == v && v !in vim {
      var i :| 0 <= i < |inits| && inits[i] == x;
    }
  }

  predicate NamesUnknown(votes: seq<PollVote>, contracts: set<Contract>) {
    exists i :: 0 <= i < |votes| && votes[i].contract !in contracts
  }

  lemma {:induction false} HeightUnknownExactly(h: int, votes: seq<PollVote>, contracts: set<Contract>,
                                                vim: set<Verifier>)
    ensures HeightUpdates(h, votes, contracts, vim).UnknownContract? <==> NamesUnknown(votes, contracts)
    decreases |votes|
  {
    if votes != [] {
      var init := votes[..|votes| - 1];
      HeightUnknownExactly(h, init, contracts, vim);
      if i :| 0 <= i < |init| && init[i].contract !in contracts {
        assert votes[i].contract !in contracts;
      }
      if i :| 0 <= i < |votes| && votes[i].contract !in contracts {
        assert i < |init| ==> init[i] == votes[i];
      }
    }
  }

  /** The batch gives up exactly when a vote at a height that was seen names a contract outside the
      list, also when its verifier is not cached. */
  lemma {:induction false} UnknownExactly(c: Chain, silent: set<int>, contracts: set<Contract>, vim: set<Verifier>,
                                          start: int, end: int)
    ensures UpdateList(c, silent, contracts, vim, start, end).UnknownContract? <==>
            exists h :: start <= h <= end && h !in silent && NamesUnknown(c(h).votes, contracts)
    decreases end - start
  {
    hide HeightUpdates, NamesUnknown;
    if start <= end {
      UnknownExactly(c, silent, contracts, vim, start, end - 1);
      HeightUnknownExactly(end, Seen(c, silent, end).votes, contracts, vim);
      NoVotes(contracts);
    }
  }

  lemma NoVotes(contracts: set<Contract>)
    ensures !NamesUnknown([], contracts)
  {
  }

  // ---------------------------------------------------------------- registration

  /** When there is something to register and the table can be read, registration ends with the whole
      table cached, also after a refused insert; otherwise the cache stays. An insert that is not
      refused adds exactly the unseen verifiers. */
  lemma RegisterRereads(s: State, e: Env, unseen: set<Verifier>)
    requires s.vim <= s.info
    ensures var (s1, ok) := Register(s, e, unseen);
            var stored := e.insertOk && unseen !! s.info;
            && (unseen != {} && e.fetchOk ==> s1.vim == s1.info)
            && (unseen == {} || !e.fetchOk ==> s1.vim == s.vim)
            && s1.info == s.info + (if stored then unseen else {})
            && (ok <==> unseen == {} || (stored && e.fetchOk))
  {
  }

  /** So when another service was first, the retry of the same batch succeeds. */
  lemma RetryAccepted(s: State, e: Env, inits: seq<Init>, e': Env)
    requires s.vim <= s.info && e.fetchOk && NewVerifiers(s.vim, inits) != {} && e'.insertOk && e'.fetchOk
    ensures var s1 := Register(s, e, NewVerifiers(s.vim, inits)).0;
            Register(s1, e', NewVerifiers(s1.vim, inits)).1
  {
    hide Register, NewVerifiers;
    RegisterRereads(s, e, NewVerifiers(s.vim, inits));
    var s1 := Register(s, e, NewVerifiers(s.vim, inits)).0;
    forall v | v in NewVerifiers(s1.vim, inits) ensures v !in s1.info {
      NewVerifiersExactly(s1.vim, inits, v);
    }
    RegisterRereads(s1, e', NewVerifiers(s1.vim, inits));
  }

  // ---------------------------------------------------------------- the commits

  /** The batch gets as far as its commits: something to fetch, the contract list, no reported failure,
      registration, and no vote for an unknown contract. */
  ghost predicate Ready(c: Chain, s: State, e: Env) {
    var start, end := s.mem + 1, EndHeight(s.mem, e.latest);
    && s.mem < e.latest && e.contractsOk && (forall h :: start <= h <= end ==> h !in e.failed)
    && Register(s, e, NewVerifiers(s.vim, InitList(c, e.silent, start, end))).1
    && !exists h :: start <= h <= end && h !in e.silent && NamesUnknown(c(h).votes, e.contracts)
  }

  /** Exactly when a batch commits, and when it moves the persisted pointer: the first commit, if there
      is anything to insert, must be acknowledged; the second moves the pointer also when its
      acknowledgement is lost. */
  lemma CommitsExactly(c: Chain, s: State, e: Env)
    ensures var start, end := s.mem + 1, EndHeight(s.mem, e.latest);
            var (r, out) := Batch(c, s, e);
            var begins := InitList(c, e.silent, start, end) == [] || e.initCommit == Applied;
            && (out == Skipped <==> s.mem >= e.latest)
            && (out == Committed <==> Ready(c, s, e) && begins && e.voteCommit == Applied)
            && r.mem == (if out == Committed then end else s.mem)
            && r.pointer == (if Ready(c, s, e) && begins && e.voteCommit != Refused then end else s.pointer)
            && (!Ready(c, s, e) ==> r.rows == s.rows)
            && (Ready(c, s, e) && !begins && e.initCommit == Refused ==> r.rows == s.rows)
  {
    hide InitList, UpdateList, NewVerifiers, InsertInits, UpdateVotes, Register, NamesUnknown;
    var start, end := s.mem + 1, EndHeight(s.mem, e.latest);
    var unseen := NewVerifiers(s.vim, InitList(c, e.silent, start, end));
    RegisterFrame(s, e, unseen);
    UnknownExactly(c, e.silent, e.contracts, Register(s, e, unseen).0.vim, start, end);
  }

  // ---------------------------------------------------------------- what a run has taken in

  ghost predicate InWindow(s: State, e: Env, g: int) {
    s.mem < g <= EndHeight(s.mem, e.latest) && g !in e.silent
  }

  /** The batch stores the polls of height g. */
  ghost predicate Begins(c: Chain, s: State, e: Env, g: int) {
    && Ready(c, s, e) && InWindow(s, e, g)
    && (InitList(c, e.silent, s.mem + 1, EndHeight(s.mem, e.latest)) == [] || e.initCommit != Refused)
  }

  /** The batch applies the votes of height g. */
  ghost predicate Takes(c: Chain, s: State, e: Env, g: int) {
    && Ready(c, s, e) && InWindow(s, e, g) && e.voteCommit != Refused
    && (InitList(c, e.silent, s.mem + 1, EndHeight(s.mem, e.latest)) == [] || e.initCommit == Applied)
  }

  lemma NextExactly(c: Chain, s: State, ev: Event, h: Hist, g: int, t: int)
    ensures var h' := Next(c, s, ev, h);
            && (g in h'.begun <==> g in h.begun || (ev.Sync? && Begins(c, s, ev.env, g)))
            && (Taken(t, g) in h'.taken <==>
                Taken(t, g) in h.taken || (ev.Sync? && Takes(c, s, ev.env, g) && t in h'.begun))
  {
    hide InitList, UpdateList, NewVerifiers, Register, NamesUnknown, Heights;
    if ev.Sync? {
      var e := ev.env;
      var start, end := s.mem + 1, EndHeight(s.mem, e.latest);
      HeightsSpec(start, end, e.silent);
      var unseen := NewVerifiers(s.vim, InitList(c, e.silent, start, end));
      UnknownExactly(c, e.silent, e.contracts, Register(s, e, unseen).0.vim, start, end);
    }
  }

  ghost predicate BeganAt(c: Chain, s: State, events: seq<Event>, i: int, g: int) {
    0 <= i < |events| && events[i].Sync? && Begins(c, Run(c, s, events[..i]), events[i].env, g)
  }

  ghost predicate TookAt(c: Chain, s: State, events: seq<Event>, h: Hist, i: int, t: int, g: int) {
    && 0 <= i < |events| && events[i].Sync? && Takes(c, Run(c, s, events[..i]), events[i].env, g)
    && t in HistOf(c, s, events[..i + 1], h).begun
  }

  /** The history, read off the events: the polls of a height are begun exactly when some batch stored
      them, and the votes of a height are taken in over earlier polls exactly when some batch applied
      them with those polls in the table. */
  lemma {:induction false} HistExactly(c: Chain, s: State, events: seq<Event>, h: Hist, g: int, t: int)
    ensures var h' := HistOf(c, s, events, h);
            && (g in h'.begun <==> g in h.begun || exists i :: BeganAt(c, s, events, i, g))
            && (Taken(t, g) in h'.taken <==> Taken(t, g) in h.taken || exists i :: TookAt(c, s, events, h, i, t, g))
    decreases |events|
  {
    hide Next, Step, Begins, Takes;
    if events == [] {
      forall i ensures !BeganAt(c, s, events, i, g) && !TookAt(c, s, events, h, i, t, g) {
      }
    } else {
      hide HistOf, Run;
      var init, n := events[..|events| - 1], |events| - 1;
      HistExactly(c, s, init, h, g, t);
      LastEvent(c, s, events, h, g, t);
      forall i | i < n
        ensures BeganAt(c, s, init, i, g) <==> BeganAt(c, s, events, i, g)
        ensures TookAt(c, s, init, h, i, t, g) <==> TookAt(c, s, events, h, i, t, g)
      {
        if 0 <= i {
          assert init[..i] == events[..i] && init[..i + 1] == events[..i + 1] && init[i] == events[i];
        }
      }
      assert !BeganAt(c, s, init, n, g) && !TookAt(c, s, init, h, n, t, g);
      forall i | i > n ensures !BeganAt(c, s, events, i, g) && !TookAt(c, s, events, h, i, t, g) {
      }
    }
  }

  lemma LastEvent(c: Chain, s: State, events: seq<Event>, h: Hist, g: int, t: int)
    requires events != []
    ensures var n := |events| - 1;
            var before, after := HistOf(c, s, events[..n], h), HistOf(c, s, events, h);
            && (g in after.begun <==> g in before.begun || BeganAt(c, s, events, n, g))
            && (Taken(t, g) in after.taken <==> Taken(t, g) in before.taken || TookAt(c, s, events, h, n, t, g))
  {
    hide Next, Step, Begins, Takes;
    var n := |events| - 1;
    assert events[..n + 1] == events;
    NextExactly(c, Run(c, s, events[..n]), events[n], HistOf(c, s, events[..n], h), g, t);
  }

  // ---------------------------------------------------------------- a new process

  /** A new process reads pointer and verifiers from the tables, however stale memory was; another
      service's verifiers are in the table afterwards. */
  lemma RestartRecovers(c: Chain, s: State, verifiers: set<Verifier>)
    ensures var r := Step(c, s, Crash);
            r.mem == r.pointer == s.pointer && r.vim == r.info == s.info && r.rows == s.rows
    ensures var r := Step(c, s, OtherService(verifiers));
            && r.info == s.info + verifiers && r.vim == s.vim && r.rows == s.rows
            && r.pointer == s.pointer && r.mem == s.mem
  {
  }
}
