/** Whole runs of the amplifier indexer: every table is the one determined by the polls and votes it
    took in, through replays, crashes, lost acknowledgements and silent workers, and a row changes
    exactly when its own timely vote is taken in
    (internal/packages/axelar/amplifier-verifier/indexer/sync.go, lines 132-273;
    internal/packages/axelar/amplifier-verifier/repository/repository.go, lines 33-115). */
module AmplifierRuns {
  import opened AmplifierPolls
  import opened Windows

  /** What the commits have taken in: the heights whose polls were inserted, which votes were applied
      over which polls, and the furthest end of a poll commit and of a vote commit. */
  datatype Hist = Hist(begun: set<int>, taken: set<Taken>, reach: int, front: int)

  ghost predicate Inv(c: Chain, s: State, p0: int, h: Hist) {
    && 0 <= p0 <= s.mem <= s.pointer <= h.front <= h.reach
    && (forall g :: g in h.begun ==> p0 < g <= h.reach)
    && (forall x :: x in h.taken ==> x.start in h.begun && p0 < x.vote <= h.front)
    && Reflects(c, s.rows, h.begun, h.taken)
    && (forall k :: k in s.rows ==> k.verifier in s.vim)
    && s.vim <= s.info
  }

  /** The heights of a batch that were seen. */
  function Heights(start: int, end: int, silent: set<int>): set<int>
    decreases end - start
  {
    if end < start then {} else Heights(start, end - 1, silent) + (if end in silent then {} else {end})
  }

  lemma {:induction false} HeightsSpec(start: int, end: int, silent: set<int>)
    ensures forall g :: g in Heights(start, end, silent) <==> start <= g <= end && g !in silent
    decreases end - start
  {
    if start <= end {
      HeightsSpec(start, end - 1, silent);
    }
  }

  function Cross(starts: set<int>, votes: set<int>): set<Taken> {
    set t, g | t in starts && g in votes :: Taken(t, g)
  }

  // ---------------------------------------------------------------- the two commits

  lemma InitsKeep(c: Chain, rows: Rows, begun: set<int>, taken: set<Taken>, silent: set<int>, start: int, end: int)
    requires Reflects(c, rows, begun, taken) && forall x :: x in taken ==> x.start in begun
    ensures Reflects(c, InsertInits(rows, InitList(c, silent, start, end)), begun + Heights(start, end, silent), taken)
  {
    var list := InitList(c, silent, start, end);
    var r, all := InsertInits(rows, list), begun + Heights(start, end, silent);
    HeightsSpec(start, end, silent);
    InsertInitsSpec(rows, list);
    forall k | k in r ensures r[k].start in all && RowOk(c, k, r[k], taken) {
      if k !in rows {
        var x :| x in list && x.key == k && r[k] == Row(x.height, 0, PollStart);
        InitListSpec(c, silent, start, end, x);
        assert x.height !in begun;
      }
    }
    forall g, k | g in all && StartsAt(c, g, k) ensures k in r {
      if g !in begun {
        InitListSpec(c, silent, start, end, Init(k, g));
        assert Init(k, g) in list && Init(k, g).key in r;
      }
    }
  }

  lemma VotesKeep(c: Chain, rows: Rows, begun: set<int>, taken: set<Taken>, e: Env, vim: set<Verifier>,
                  start: int, end: int)
    requires Reflects(c, rows, begun, taken) && start > 0 && forall k :: k in rows ==> k.verifier in vim
    requires UpdateList(c, e.silent, e.contracts, vim, start, end).Updates?
    ensures var list := UpdateList(c, e.silent, e.contracts, vim, start, end).list;
            Reflects(c, UpdateVotes(rows, list), begun, taken + Cross(begun, Heights(start, end, e.silent)))
  {
    var list := UpdateList(c, e.silent, e.contracts, vim, start, end).list;
    var r, all := UpdateVotes(rows, list), taken + Cross(begun, Heights(start, end, e.silent));
    UpdateVotesSpec(rows, list, Key("", ""));
    forall k | k in r ensures r[k].start in begun && RowOk(c, k, r[k], all) {
      UpdateVotesSpec(rows, list, k);
      VoteKeeps(c, rows, begun, taken, e, vim, start, end, k, r[k]);
    }
    forall g, k | g in begun && StartsAt(c, g, k) ensures k in r {
      assert k in rows;
    }
  }

  lemma VoteKeeps(c: Chain, rows: Rows, begun: set<int>, taken: set<Taken>, e: Env, vim: set<Verifier>,
                  start: int, end: int, k: Key, r: Row)
    requires k in rows && k.verifier in vim && rows[k].start in begun && RowOk(c, k, rows[k], taken) && start > 0
    requires UpdateList(c, e.silent, e.contracts, vim, start, end).Updates?
    requires var list := UpdateList(c, e.silent, e.contracts, vim, start, end).list;
             || (r == rows[k] && forall x :: x in list && x.key == k ==> x.height >= rows[k].start + BLOCK_EXPIRY)
             || (exists x :: x in list && x.key == k && x.height < rows[k].start + BLOCK_EXPIRY
                             && r == Row(rows[k].start, x.height, x.status))
    ensures RowOk(c, k, r, taken + Cross(begun, Heights(start, end, e.silent)))
  {
    var list := UpdateList(c, e.silent, e.contracts, vim, start, end).list;
    var seen := Heights(start, end, e.silent);
    var all := taken + Cross(begun, seen);
    HeightsSpec(start, end, e.silent);
    if r == rows[k] && forall x :: x in list && x.key == k ==> x.height >= rows[k].start + BLOCK_EXPIRY {
      forall g, i | Taken(r.start, g) in all && IsVote(c, g, i, k) && r.voteHeight == 0
        ensures g >= r.start + BLOCK_EXPIRY
      {
        if Taken(r.start, g) !in taken {
          var x := Update(k, g, c(g).votes[i].status);
          assert CastAs(c, g, k, x.status);
          UpdateListSpec(c, e.silent, e.contracts, vim, start, end, x);
        }
      }
    } else {
      var x :| && x in list && x.key == k && x.height < rows[k].start + BLOCK_EXPIRY
               && r == Row(rows[k].start, x.height, x.status);
      UpdateListSpec(c, e.silent, e.contracts, vim, start, end, x);
      var i :| IsVote(c, x.height, i, k) && c(x.height).votes[i].status == x.status;
      assert Taken(r.start, r.voteHeight) in Cross(begun, seen);
    }
  }

  // ---------------------------------------------------------------- one step

  /** Registration changes the cache only, and when it succeeds every participant is cached. */
  lemma RegisterKeeps(c: Chain, s: State, e: Env, p0: int, h: Hist, start: int, end: int)
    requires Inv(c, s, p0, h)
    ensures var inits := InitList(c, e.silent, start, end);
            var (s1, ok) := Register(s, e, NewVerifiers(s.vim, inits));
            && Inv(c, s1, p0, h) && s1.rows == s.rows && s1.pointer == s.pointer && s1.mem == s.mem
            && s.vim <= s1.vim && (ok ==> forall x :: x in inits ==> x.key.verifier in s1.vim)
  {
    hide Reflects;
    var inits := InitList(c, e.silent, start, end);
    var unseen := NewVerifiers(s.vim, inits);
    forall x | x in inits ensures x.key.verifier in s.vim || x.key.verifier in unseen {
      var i :| 0 <= i < |inits| && inits[i] == x;
    }
  }

  function Max(a: int, b: int): int {
    if a < b then b else a
  }

  /** What the two commits of a batch add to the history. */
  function AfterWrite(h: Hist, e: Env, inits: seq<Init>, start: int, end: int): Hist {
    var seen := Heights(start, end, e.silent);
    var begun, reach := h.begun + seen, Max(h.reach, end);
    if inits != [] && e.initCommit == Refused then h
    else if (inits != [] && e.initCommit == Unacknowledged) || e.voteCommit == Refused then
      h.(begun := begun, reach := reach)
    else Hist(begun, h.taken + Cross(begun, seen), reach, Max(h.front, end))
  }

  lemma WriteKeeps(c: Chain, s: State, e: Env, p0: int, h: Hist, start: int, end: int)
    requires Inv(c, s, p0, h) && start == s.mem + 1 <= end
    requires forall x :: x in InitList(c, e.silent, start, end) ==> x.key.verifier in s.vim
    requires UpdateList(c, e.silent, e.contracts, s.vim, start, end).Updates?
    ensures var inits := InitList(c, e.silent, start, end);
            var list := UpdateList(c, e.silent, e.contracts, s.vim, start, end).list;
            Inv(c, Write(s, e, inits, list, end).0, p0, AfterWrite(h, e, inits, start, end))
  {
    hide Reflects, InsertInits, UpdateVotes, InitList, UpdateList, Heights;
    var inits := InitList(c, e.silent, start, end);
    var list := UpdateList(c, e.silent, e.contracts, s.vim, start, end).list;
    var seen := Heights(start, end, e.silent);
    HeightsSpec(start, end, e.silent);
    InitsKeep(c, s.rows, h.begun, h.taken, e.silent, start, end);
    InitVerifiers(s.rows, inits, s.vim);
    NothingToInsert(s.rows, inits);
    var rows := InsertInits(s.rows, inits);
    VotesKeep(c, rows, h.begun + seen, h.taken, e, s.vim, start, end);
    UpdateVotesSpec(rows, list, Key("", ""));
  }

  lemma InitVerifiers(rows: Rows, inits: seq<Init>, vim: set<Verifier>)
    requires (forall k :: k in rows ==> k.verifier in vim) && (forall x :: x in inits ==> x.key.verifier in vim)
    ensures forall k :: k in InsertInits(rows, inits) ==> k.verifier in vim
  {
    InsertInitsSpec(rows, inits);
  }

  /** Does the batch get as far as writing? */
  predicate Writes(c: Chain, s: State, e: Env) {
    var start, end := s.mem + 1, EndHeight(s.mem, e.latest);
    && start <= e.latest && e.contractsOk && !SomeFailed(e.failed, start, end)
    && var (s1, ok) := Register(s, e, NewVerifiers(s.vim, InitList(c, e.silent, start, end)));
       ok && UpdateList(c, e.silent, e.contracts, s1.vim, start, end).Updates?
  }

  /** The history after a step: only a batch that gets as far as writing adds to it. */
  function Next(c: Chain, s: State, ev: Event, h: Hist): Hist {
    if ev.Sync? && Writes(c, s, ev.env) then
      var start, end := s.mem + 1, EndHeight(s.mem, ev.env.latest);
      AfterWrite(h, ev.env, InitList(c, ev.env.silent, start, end), start, end)
    else h
  }

  lemma StepKeeps(c: Chain, s: State, ev: Event, p0: int, h: Hist)
    requires Inv(c, s, p0, h)
    ensures Inv(c, Step(c, s, ev), p0, Next(c, s, ev, h))
  {
    hide Reflects, InitList, UpdateList, NewVerifiers, Write, AfterWrite, Register, SomeFailed;
    if ev.Sync? {
      hide Inv;
      var e := ev.env;
      var start, end := s.mem + 1, EndHeight(s.mem, e.latest);
      if start <= e.latest {
        RegisterKeeps(c, s, e, p0, h, start, end);
        var (s1, ok) := Register(s, e, NewVerifiers(s.vim, InitList(c, e.silent, start, end)));
        if ok && UpdateList(c, e.silent, e.contracts, s1.vim, start, end).Updates? {
          WriteKeeps(c, s1, e, p0, h, start, end);
        }
      }
    }
  }

  function HistOf(c: Chain, s: State, events: seq<Event>, h: Hist): Hist {
    if events == [] then h
    else
      var init := events[..|events| - 1];
      Next(c, Run(c, s, init), events[|events| - 1], HistOf(c, s, init, h))
  }

  /** Every table of every run is the one determined by what the run has taken in. */
  lemma {:induction false} TableReflectsHistory(c: Chain, s: State, events: seq<Event>, p0: int, h: Hist)
    requires Inv(c, s, p0, h)
    ensures Inv(c, Run(c, s, events), p0, HistOf(c, s, events, h))
    decreases |events|
  {
    hide Inv, Step, Next;
    if events != [] {
      var init := events[..|events| - 1];
      TableReflectsHistory(c, s, init, p0, h);
      StepKeeps(c, Run(c, s, init), events[|events| - 1], p0, HistOf(c, s, init, h));
    }
  }

  /** A first start on an empty table. */
  function Fresh(info: set<Verifier>, p0: int): State {
    State(map[], p0, info, p0, info)
  }

  function NoHist(p0: int): Hist {
    Hist({}, {}, p0, p0)
  }

  lemma FreshInv(c: Chain, info: set<Verifier>, p0: int)
    requires p0 >= 0
    ensures Inv(c, Fresh(info, p0), p0, NoHist(p0)) && CaughtUp(Fresh(info, p0), NoHist(p0))
  {
  }

  // ---------------------------------------------------------------- when a row changes

  /** A vote height is 0 or lies in the ten blocks from the start. */
  lemma VoteHeightInWindow(c: Chain, s: State, p0: int, h: Hist, k: Key)
    requires Orderly(c) && Inv(c, s, p0, h) && k in s.rows
    ensures s.rows[k].voteHeight == 0 || s.rows[k].start <= s.rows[k].voteHeight < s.rows[k].start + 10
  {
  }

  /** What a step newly takes in over a poll that is already there: votes of heights of its own
      window that were seen. */
  lemma NewlyTaken(c: Chain, s: State, ev: Event, p0: int, h: Hist, x: Taken)
    requires Inv(c, s, p0, h)
    ensures h.begun <= Next(c, s, ev, h).begun && h.taken <= Next(c, s, ev, h).taken
    ensures x in Next(c, s, ev, h).taken && x !in h.taken ==>
              ev.Sync? && s.mem < x.vote <= EndHeight(s.mem, ev.env.latest) && x.vote !in ev.env.silent
  {
    hide Reflects, InitList, UpdateList, NewVerifiers, Heights, Register;
    if ev.Sync? {
      HeightsSpec(s.mem + 1, EndHeight(s.mem, ev.env.latest), ev.env.silent);
    }
  }

  /** The step takes in the timely vote of a pair, which it had not before. */
  ghost predicate TakesVote(c: Chain, s: State, ev: Event, h: Hist, k: Key, start: int) {
    exists g, i :: && Taken(start, g) in Next(c, s, ev, h).taken && Taken(start, g) !in h.taken
                   && IsVote(c, g, i, k) && g < start + BLOCK_EXPIRY
  }

  /** No row is ever removed or moved, and a row, expired or not, changes exactly when the step newly
      takes in a vote of its pair less than ten blocks after its start. */
  lemma RowChangesExactly(c: Chain, s: State, ev: Event, p0: int, h: Hist, k: Key)
    requires Orderly(c) && Inv(c, s, p0, h) && k in s.rows
    ensures var r := Step(c, s, ev);
            && k in r.rows && r.rows[k].start == s.rows[k].start
            && (r.rows[k] != s.rows[k] <==> TakesVote(c, s, ev, h, k, s.rows[k].start))
  {
    hide Step, Next;
    StepKeeps(c, s, ev, p0, h);
    NewlyTaken(c, s, ev, p0, h, Taken(0, 0));
    var rows, h' := Step(c, s, ev).rows, Next(c, s, ev, h);
    assert StartsAt(c, s.rows[k].start, k) && s.rows[k].start in h'.begun;
    RowMoves(c, k, s.rows[k], rows[k], h.taken, h'.taken);
  }

  lemma RowMoves(c: Chain, k: Key, r: Row, r': Row, taken: set<Taken>, taken': set<Taken>)
    requires Orderly(c) && RowOk(c, k, r, taken) && RowOk(c, k, r', taken') && taken <= taken'
    ensures r'.start == r.start
    ensures r' != r <==> exists g, i :: && Taken(r.start, g) in taken' && Taken(r.start, g) !in taken
                                        && IsVote(c, g, i, k) && g < r.start + BLOCK_EXPIRY
  {
    if exists g, i :: && Taken(r.start, g) in taken' && Taken(r.start, g) !in taken
                      && IsVote(c, g, i, k) && g < r.start + BLOCK_EXPIRY {
      var g, i :| && Taken(r.start, g) in taken' && Taken(r.start, g) !in taken
                  && IsVote(c, g, i, k) && g < r.start + BLOCK_EXPIRY;
      assert r.voteHeight == 0;
    } else {
      assert RowOk(c, k, r', taken);
      SameRow(c, k, r, r', taken);
    }
  }

  lemma {:induction false} HistGrows(c: Chain, s: State, events: seq<Event>, p0: int, h: Hist)
    requires Inv(c, s, p0, h)
    ensures h.begun <= HistOf(c, s, events, h).begun && h.taken <= HistOf(c, s, events, h).taken
    decreases |events|
  {
    hide Inv, Step, Next;
    if events != [] {
      var init := events[..|events| - 1];
      HistGrows(c, s, init, p0, h);
      TableReflectsHistory(c, s, init, p0, h);
      NewlyTaken(c, Run(c, s, init), events[|events| - 1], p0, HistOf(c, s, init, h), Taken(0, 0));
    }
  }

  /** The same over any run: a row is never removed or moved, and it ends up changed exactly when the
      run has newly taken in a timely vote of its pair. */
  lemma RowChangesOverRun(c: Chain, s: State, events: seq<Event>, p0: int, h: Hist, k: Key)
    requires Orderly(c) && Inv(c, s, p0, h) && k in s.rows
    ensures var r, taken, t := Run(c, s, events), HistOf(c, s, events, h).taken, s.rows[k].start;
            && k in r.rows && r.rows[k].start == t
            && (r.rows[k] != s.rows[k] <==>
                exists g, i :: Taken(t, g) in taken && Taken(t, g) !in h.taken && IsVote(c, g, i, k)
                    && g < t + 10)
  {
    hide Run, HistOf;
    TableReflectsHistory(c, s, events, p0, h);
    HistGrows(c, s, events, p0, h);
    var rows, h' := Run(c, s, events).rows, HistOf(c, s, events, h);
    assert StartsAt(c, s.rows[k].start, k) && s.rows[k].start in h'.begun;
    RowMoves(c, k, s.rows[k], rows[k], h.taken, h'.taken);
  }

  // ---------------------------------------------------------------- expiry

  predicate NoneSilent(silent: set<int>, start: int, end: int) {
    forall g :: start <= g <= end ==> g !in silent
  }

  /** A vote commit that is applied but not acknowledged had seen every height of its batch. */
  predicate Allowed(s: State, ev: Event) {
    ev.Sync? && ev.env.voteCommit == Unacknowledged ==>
      NoneSilent(ev.env.silent, s.mem + 1, EndHeight(s.mem, ev.env.latest))
  }

  ghost predicate AllowedRun(c: Chain, s: State, events: seq<Event>) {
    forall i :: 0 <= i < |events| ==> Allowed(Run(c, s, events[..i]), events[i])
  }

  lemma AllowedInit(c: Chain, s: State, events: seq<Event>)
    requires events != [] && AllowedRun(c, s, events)
    ensures AllowedRun(c, s, events[..|events| - 1])
    ensures Allowed(Run(c, s, events[..|events| - 1]), events[|events| - 1])
  {
    hide Run, Allowed;
    var init := events[..|events| - 1];
    forall i | 0 <= i < |init| ensures Allowed(Run(c, s, init[..i]), init[i]) {
      assert init[..i] == events[..i];
    }
  }

  /** Heights that the process would read again are fully taken in. */
  ghost predicate CaughtUp(s: State, h: Hist) {
    && (forall g :: s.mem < g <= h.front ==> g in h.begun)
    && (forall t, g :: t in h.begun && t <= g && s.mem < g <= h.front ==> Taken(t, g) in h.taken)
  }

  lemma CaughtUpKept(c: Chain, s: State, ev: Event, p0: int, h: Hist)
    requires Inv(c, s, p0, h) && CaughtUp(s, h) && Allowed(s, ev)
    ensures CaughtUp(Step(c, s, ev), Next(c, s, ev, h)) && Next(c, s, ev, h).front >= h.front
  {
    hide Reflects, InitList, UpdateList, NewVerifiers, Heights, InsertInits, UpdateVotes, Register, SomeFailed;
    if ev.Sync? {
      var end := EndHeight(s.mem, ev.env.latest);
      HeightsSpec(s.mem + 1, end, ev.env.silent);
      RegisterFrame(s, ev.env, NewVerifiers(s.vim, InitList(c, ev.env.silent, s.mem + 1, end)));
    }
  }

  lemma RegisterFrame(s: State, e: Env, unseen: set<Verifier>)
    ensures var s1 := Register(s, e, unseen).0; s1.mem == s.mem && s1.pointer == s.pointer && s1.rows == s.rows
  {
  }

  lemma {:induction false} CaughtUpOverRun(c: Chain, s: State, events: seq<Event>, p0: int, h: Hist)
    requires Inv(c, s, p0, h) && CaughtUp(s, h) && AllowedRun(c, s, events)
    ensures var r, h' := Run(c, s, events), HistOf(c, s, events, h);
            Inv(c, r, p0, h') && CaughtUp(r, h') && h'.front >= h.front
    decreases |events|
  {
    hide Inv, CaughtUp, Step, Next, Allowed, AllowedRun;
    if events != [] {
      var init, ev := events[..|events| - 1], events[|events| - 1];
      AllowedInit(c, s, events);
      CaughtUpOverRun(c, s, init, p0, h);
      StepKeeps(c, Run(c, s, init), ev, p0, HistOf(c, s, init, h));
      CaughtUpKept(c, Run(c, s, init), ev, p0, HistOf(c, s, init, h));
    }
  }

  lemma {:induction false} FrozenFrom(c: Chain, s: State, events: seq<Event>, p0: int, h: Hist, k: Key)
    requires Orderly(c) && Inv(c, s, p0, h) && CaughtUp(s, h) && AllowedRun(c, s, events)
    requires k in s.rows && h.front >= s.rows[k].start + BLOCK_EXPIRY - 1
    ensures k in Run(c, s, events).rows && Run(c, s, events).rows[k] == s.rows[k]
    decreases |events|
  {
    hide Inv, CaughtUp, Orderly, Step, Next, Allowed, AllowedRun;
    if events != [] {
      var init, ev := events[..|events| - 1], events[|events| - 1];
      AllowedInit(c, s, events);
      FrozenFrom(c, s, init, p0, h, k);
      CaughtUpOverRun(c, s, init, p0, h);
      ExpiredRowKept(c, Run(c, s, init), ev, p0, HistOf(c, s, init, h), k);
    }
  }

  lemma {:induction false} RunConcat(c: Chain, s: State, before: seq<Event>, after: seq<Event>)
    ensures Run(c, s, before + after) == Run(c, Run(c, s, before), after)
    decreases |after|
  {
    hide Step;
    if after == [] {
      assert before + after == before;
    } else {
      var init, all := after[..|after| - 1], before + after;
      assert all[..|all| - 1] == before + init;
      RunConcat(c, s, before, init);
    }
  }

  lemma AllowedSplit(c: Chain, s: State, before: seq<Event>, after: seq<Event>)
    requires AllowedRun(c, s, before + after)
    ensures AllowedRun(c, s, before) && AllowedRun(c, Run(c, s, before), after)
  {
    hide Run, Allowed;
    var all := before + after;
    forall i | 0 <= i < |before| ensures Allowed(Run(c, s, before[..i]), before[i]) {
      assert all[..i] == before[..i] && all[i] == before[i];
    }
    forall i | 0 <= i < |after| ensures Allowed(Run(c, Run(c, s, before), after[..i]), after[i]) {
      assert all[..|before| + i] == before + after[..i] && all[|before| + i] == after[i];
      RunConcat(c, s, before, after[..i]);
    }
  }

  /** In every run from a first start: once the persisted pointer has passed the window of a row,
      nothing that follows changes it. */
  lemma ExpiredRowsFrozen(c: Chain, info: set<Verifier>, before: seq<Event>, after: seq<Event>, p0: int, k: Key)
    requires Orderly(c) && p0 >= 0 && AllowedRun(c, Fresh(info, p0), before + after)
    requires var s := Run(c, Fresh(info, p0), before);
             k in s.rows && s.pointer >= s.rows[k].start + 9
    ensures var s, r := Run(c, Fresh(info, p0), before), Run(c, Fresh(info, p0), before + after);
            k in r.rows && r.rows[k] == s.rows[k]
  {
    hide Run, Orderly, AllowedRun, CaughtUp, Reflects;
    var s0, h0 := Fresh(info, p0), NoHist(p0);
    FreshInv(c, info, p0);
    AllowedSplit(c, s0, before, after);
    CaughtUpOverRun(c, s0, before, p0, h0);
    RunConcat(c, s0, before, after);
    FrozenFrom(c, Run(c, s0, before), after, p0, HistOf(c, s0, before, h0), k);
  }

  lemma ExpiredRowKept(c: Chain, s: State, ev: Event, p0: int, h: Hist, k: Key)
    requires Orderly(c) && Inv(c, s, p0, h) && CaughtUp(s, h)
    requires k in s.rows && h.front >= s.rows[k].start + BLOCK_EXPIRY - 1
    ensures k in Step(c, s, ev).rows && Step(c, s, ev).rows[k] == s.rows[k]
  {
    hide Step, Next;
    RowChangesExactly(c, s, ev, p0, h, k);
    var t := s.rows[k].start;
    assert StartsAt(c, t, k) && t in h.begun;
    forall g, i | Taken(t, g) in Next(c, s, ev, h).taken && Taken(t, g) !in h.taken && IsVote(c, g, i, k)
      ensures g >= t + BLOCK_EXPIRY
    {
      NewlyTaken(c, s, ev, p0, h, Taken(t, g));
    }
  }

  // ---------------------------------------------------------------- a row that thaws

  function OneVote(h: int): Summary {
    if h == 2 then Summary([Poll("p", ["v"])], [])
    else if h == 3 then Summary([], [PollVote("c", "p", "v", SucceededOnChain)])
    else Summary([], [])
  }

  lemma OneVoteStarts(h: int, k: Key)
    ensures StartsAt(OneVote, h, k) <==> h == 2 && k == Key("p", "v")
  {
    if h == 2 && k == Key("p", "v") {
      assert OneVote(2).polls[0].participants[0] == "v";
    }
  }

  lemma OneVoteVotes(h: int, i: int, k: Key)
    ensures IsVote(OneVote, h, i, k) <==> h == 3 && i == 0 && k == Key("p", "v")
  {
  }

  lemma OneVoteOrderly()
    ensures Orderly(OneVote)
  {
    forall h, k ensures StartsAt(OneVote, h, k) <==> h == 2 && k == Key("p", "v") {
      OneVoteStarts(h, k);
    }
    forall h, i, k ensures IsVote(OneVote, h, i, k) <==> h == 3 && i == 0 && k == Key("p", "v") {
      OneVoteVotes(h, i, k);
    }
    hide StartsAt, IsVote, OneVote;
  }

  lemma OneVoteWrites(s: State, e: Env)
    requires s.mem < e.latest && e.contractsOk && e.failed == {} && e.contracts == {"c"} && e.insertOk && e.fetchOk
    requires s.info == s.vim
    ensures Writes(OneVote, s, e)
    ensures var inits := InitList(OneVote, e.silent, s.mem + 1, EndHeight(s.mem, e.latest));
            var s1 := Register(s, e, NewVerifiers(s.vim, inits)).0;
            s1.info == s1.vim
  {
    hide InitList, UpdateList;
    var start, end := s.mem + 1, EndHeight(s.mem, e.latest);
    var unseen := NewVerifiers(s.vim, InitList(OneVote, e.silent, start, end));
    assert unseen * s.info == {};
    UpdatesKnown(OneVote, e.silent, e.contracts, Register(s, e, unseen).0.vim, start, end);
  }

  /** One batch over this chain up to height 12, both commits applied. */
  lemma OneVoteBatch(s: State, e: Env, h: Hist)
    requires Inv(OneVote, s, 1, h) && s.mem == 1 && e.latest == 12 && Writes(OneVote, s, e) && 2 !in e.silent
    requires e.initCommit == Applied && e.voteCommit != Refused
    ensures var r, h' := Step(OneVote, s, Sync(e)), Next(OneVote, s, Sync(e), h);
            && Inv(OneVote, r, 1, h')
            && (Taken(2, 3) in h'.taken <==> Taken(2, 3) in h.taken || 3 !in e.silent)
            && Key("p", "v") in r.rows
            && r.rows[Key("p", "v")] == if Taken(2, 3) in h'.taken then Row(2, 3, SucceededOnChain)
                else Row(2, 0, PollStart)
  {
    hide Step, Writes, InitList, Heights, Reflects, RowOk;
    var k := Key("p", "v");
    StepKeeps(OneVote, s, Sync(e), 1, h);
    HeightsSpec(2, 12, e.silent);
    var rows, h' := Step(OneVote, s, Sync(e)).rows, Next(OneVote, s, Sync(e), h);
    assert 2 in h'.begun;
    OneVoteRow(rows, h'.begun, h'.taken);
  }

  lemma OneVoteRow(rows: Rows, begun: set<int>, taken: set<Taken>)
    requires Reflects(OneVote, rows, begun, taken) && 2 in begun
    ensures Key("p", "v") in rows
    ensures rows[Key("p", "v")] == if Taken(2, 3) in taken then Row(2, 3, SucceededOnChain) else Row(2, 0, PollStart)
  {
    hide OneVote;
    OneVoteStarts(2, Key("p", "v"));
    StartIsTwo(rows[Key("p", "v")], taken);
  }

  /** Without that condition an expired row does change: the vote of height 3 is silent in a batch
      whose commit is not acknowledged, the pointer passes the window, and the replay takes it in. */
  lemma UnacknowledgedSilenceThaws()
    ensures Orderly(OneVote)
    ensures var e := Env(12, true, {"c"}, {}, {3}, true, true, Applied, Unacknowledged);
            var s := Step(OneVote, Fresh({}, 1), Sync(e));
            var r := Step(OneVote, s, Sync(e.(silent := {}, voteCommit := Applied)));
            var k := Key("p", "v");
            && s.pointer == 12 >= 2 + BLOCK_EXPIRY - 1
            && k in s.rows && s.rows[k] == Row(2, 0, PollStart)
            && k in r.rows && r.rows[k] == Row(2, 3, SucceededOnChain)
  {
    hide Step, Writes, Inv, Next, Orderly, OneVote, InitList, Register, NewVerifiers;
    var e := Env(12, true, {"c"}, {}, {3}, true, true, Applied, Unacknowledged);
    var e' := e.(silent := {}, voteCommit := Applied);
    var s0, h0 := Fresh({}, 1), NoHist(1);
    OneVoteOrderly();
    FreshInv(OneVote, {}, 1);
    OneVoteWrites(s0, e);
    OneVoteBatch(s0, e, h0);
    AfterFirst(s0, e);
    var s, h := Step(OneVote, s0, Sync(e)), Next(OneVote, s0, Sync(e), h0);
    OneVoteWrites(s, e');
    OneVoteBatch(s, e', h);
  }

  lemma StartIsTwo(r: Row, taken: set<Taken>)
    requires RowOk(OneVote, Key("p", "v"), r, taken)
    ensures r == if Taken(2, 3) in taken then Row(2, 3, SucceededOnChain) else Row(2, 0, PollStart)
  {
    var k := Key("p", "v");
    OneVoteStarts(r.start, k);
    if r.voteHeight != 0 {
      var i :| IsVote(OneVote, r.voteHeight, i, k) && r.status == OneVote(r.voteHeight).votes[i].status;
      OneVoteVotes(r.voteHeight, i, k);
    } else {
      OneVoteVotes(3, 0, k);
    }
  }

  lemma AfterFirst(s: State, e: Env)
    requires s == Fresh({}, 1) && e == Env(12, true, {"c"}, {}, {3}, true, true, Applied, Unacknowledged)
    requires Writes(OneVote, s, e)
    requires var inits := InitList(OneVote, e.silent, s.mem + 1, EndHeight(s.mem, e.latest));
             var s1 := Register(s, e, NewVerifiers(s.vim, inits)).0;
             s1.info == s1.vim
    ensures var r := Step(OneVote, s, Sync(e)); r.mem == 1 && r.pointer == 12 && r.info == r.vim
  {
    hide InitList, UpdateList, NewVerifiers, InsertInits, UpdateVotes, Register, SomeFailed;
    RegisterFrame(s, e, NewVerifiers(s.vim, InitList(OneVote, e.silent, 2, 12)));
  }
}
