/** When the amplifier table is the one of the heights up to the pointer, whatever the batching:
    exactly for every run, and always when no worker is silent and the latest height never drops
    (internal/packages/axelar/amplifier-verifier/indexer/sync.go, lines 21-38, 116-130 and 253-265). */
module AmplifierBatching {
  import opened AmplifierPolls
  import opened AmplifierRuns
  import opened IntSets
  import opened Windows

  /** The heights (p0, p]. */
  function Covered(p0: int, p: int): set<int> {
    Heights(p0 + 1, p, {})
  }

  /** The table that the heights (p0, p] call for. */
  ghost predicate CoversExactly(c: Chain, rows: Rows, p0: int, p: int) {
    Reflects(c, rows, Covered(p0, p), Cross(Covered(p0, p), Covered(p0, p)))
  }

  // ---------------------------------------------------------------- the exact condition

  /** What was taken in differs from the heights `all` in nothing that a row would show: heights on
      one side only start no poll, and a timely vote of a poll in `all` was taken in exactly when
      its own height is in `all`. */
  ghost predicate SameAs(c: Chain, begun: set<int>, taken: set<Taken>, all: set<int>) {
    && (forall g, k :: g in all && g !in begun ==> !StartsAt(c, g, k))
    && (forall g, k :: g in begun && g !in all ==> !StartsAt(c, g, k))
    && (forall t, g, i, k :: t in all && StartsAt(c, t, k) && IsVote(c, g, i, k) && g < t + BLOCK_EXPIRY ==>
          (Taken(t, g) in taken <==> g in all))
  }

  lemma CompleteExact(c: Chain, rows: Rows, begun: set<int>, taken: set<Taken>, all: set<int>)
    requires Orderly(c) && Reflects(c, rows, begun, taken)
    ensures Reflects(c, rows, all, Cross(all, all)) <==> SameAs(c, begun, taken, all)
  {
    if SameAs(c, begun, taken, all) {
      forall k | k in rows ensures rows[k].start in all && RowOk(c, k, rows[k], Cross(all, all)) {
        assert StartsAt(c, rows[k].start, k);
      }
    }
    if Reflects(c, rows, all, Cross(all, all)) {
      CompleteNeeds(c, rows, begun, taken, all);
    }
  }

  lemma CompleteNeeds(c: Chain, rows: Rows, begun: set<int>, taken: set<Taken>, all: set<int>)
    requires Orderly(c) && Reflects(c, rows, begun, taken) && Reflects(c, rows, all, Cross(all, all))
    ensures SameAs(c, begun, taken, all)
  {
    forall g, k | StartsAt(c, g, k) && (g in begun || g in all) ensures k in rows && rows[k].start == g {
      assert StartsAt(c, rows[k].start, k);
    }
    forall t, g, i, k | t in all && StartsAt(c, t, k) && IsVote(c, g, i, k) && g < t + BLOCK_EXPIRY
      ensures Taken(t, g) in taken <==> g in all
    {
      assert RowOk(c, k, rows[k], taken) && RowOk(c, k, rows[k], Cross(all, all));
    }
  }

  /** For every run from a first start: the table is the one of the heights up to the pointer if and
      only if what silent workers lost, and what half-failed batches inserted above the pointer,
      shows in no row. */
  lemma RunTableExact(c: Chain, info: set<Verifier>, events: seq<Event>, p0: int)
    requires Orderly(c) && p0 >= 0
    ensures var r, h := Run(c, Fresh(info, p0), events), HistOf(c, Fresh(info, p0), events, NoHist(p0));
            CoversExactly(c, r.rows, p0, r.pointer) <==> SameAs(c, h.begun, h.taken, Covered(p0, r.pointer))
  {
    hide Orderly, Run, HistOf, Reflects, SameAs, Covered;
    FreshInv(c, info, p0);
    TableReflectsHistory(c, Fresh(info, p0), events, p0, NoHist(p0));
    var r, h := Run(c, Fresh(info, p0), events), HistOf(c, Fresh(info, p0), events, NoHist(p0));
    CompleteExact(c, r.rows, h.begun, h.taken, Covered(p0, r.pointer));
  }

  /** A half-failed batch followed by one with a lower latest height leaves rows above the pointer. */
  lemma DropLeavesRow(c: Chain, s: State, e: Env, e': Env, p0: int, h: Hist, g: int, k: Key)
    requires Orderly(c) && Inv(c, s, p0, h) && StartsAt(c, g, k)
    requires g in Next(c, s, Sync(e), h).begun && Batch(c, Step(c, s, Sync(e)), e').1 == Committed
    requires EndHeight(Step(c, s, Sync(e)).mem, e'.latest) < g
    ensures var r := Step(c, Step(c, s, Sync(e)), Sync(e'));
            k in r.rows && r.rows[k].start == g > r.pointer
  {
    var s1, h1 := Step(c, s, Sync(e)), Next(c, s, Sync(e), h);
    StepKeeps(c, s, Sync(e), p0, h);
    CommitMoves(c, s1, e');
    hide Step, Next, Batch;
    StepKeeps(c, s1, Sync(e'), p0, h1);
    NewlyTaken(c, s1, Sync(e'), p0, h1, Taken(0, 0));
    var r := Step(c, s1, Sync(e'));
    assert StartsAt(c, r.rows[k].start, k);
  }

  lemma CommitMoves(c: Chain, s: State, e: Env)
    requires Batch(c, s, e).1 == Committed
    ensures Batch(c, s, e).0.pointer == Batch(c, s, e).0.mem == EndHeight(s.mem, e.latest) && Writes(c, s, e)
  {
    hide Register, InitList, UpdateList, NewVerifiers, InsertInits, UpdateVotes, SomeFailed;
  }

  function OnePoll(h: int): Summary {
    if h == 2 then Summary([Poll("chain/1", ["v"])], []) else Summary([], [])
  }

  /** One silent worker is enough: the poll of height 2 is lost for good once the pointer is at 2. */
  lemma SilentHeightLosesPoll(e: Env)
    requires e.latest == 2 && e.contractsOk && e.failed == {} && e.silent == {2} && e.voteCommit == Applied
    ensures var (r, out) := Batch(OnePoll, Fresh({}, 1), e);
            out == Committed && r.pointer == 2 && r.rows == map[] && !CoversExactly(OnePoll, r.rows, 1, 2)
  {
    assert InitList(OnePoll, {2}, 2, 1) == [];
    assert InitList(OnePoll, {2}, 2, 2) == [];
    assert UpdateList(OnePoll, {2}, e.contracts, {}, 2, 1) == Updates([]);
    OnePollUncovered(map[]);
  }

  lemma OnePollUncovered(rows: Rows)
    requires rows == map[]
    ensures !CoversExactly(OnePoll, rows, 1, 2)
  {
    var k := Key("chain/1", "v");
    HeightsSpec(2, 2, {});
    assert 2 in Covered(1, 2);
    assert StartsAt(OnePoll, 2, k) by {
      assert OnePoll(2).polls[0].participants[0] == "v";
    }
  }

  // ---------------------------------------------------------------- no silent worker

  predicate Loud(s: State, ev: Event) {
    ev.Sync? ==> NoneSilent(ev.env.silent, s.mem + 1, EndHeight(s.mem, ev.env.latest))
  }

  ghost predicate LoudRun(c: Chain, s: State, events: seq<Event>) {
    forall i :: 0 <= i < |events| ==> Loud(Run(c, s, events[..i]), events[i])
  }

  lemma LoudInit(c: Chain, s: State, events: seq<Event>)
    requires events != [] && LoudRun(c, s, events)
    ensures LoudRun(c, s, events[..|events| - 1]) && Loud(Run(c, s, events[..|events| - 1]), events[|events| - 1])
  {
    hide Run, Loud;
    var init := events[..|events| - 1];
    forall i | 0 <= i < |init| ensures Loud(Run(c, s, init[..i]), init[i]) {
      assert init[..i] == events[..i];
    }
  }

  /** Polls of (p0, reach] and votes of (p0, front] are in the table. */
  ghost predicate Whole(s: State, p0: int, h: Hist) {
    && (forall g :: g in h.begun <==> p0 < g <= h.reach)
    && (forall t, g :: t <= g ==> (Taken(t, g) in h.taken <==> p0 < t && g <= h.front))
    && p0 <= s.mem <= s.pointer <= h.front <= h.reach
  }

  lemma WholeKept(c: Chain, s: State, ev: Event, p0: int, h: Hist)
    requires Whole(s, p0, h) && Loud(s, ev)
    ensures Whole(Step(c, s, ev), p0, Next(c, s, ev, h))
  {
    hide InitList, UpdateList, NewVerifiers, Heights, InsertInits, UpdateVotes, Register, SomeFailed;
    if ev.Sync? {
      var end := EndHeight(s.mem, ev.env.latest);
      HeightsSpec(s.mem + 1, end, ev.env.silent);
      RegisterFrame(s, ev.env, NewVerifiers(s.vim, InitList(c, ev.env.silent, s.mem + 1, end)));
    }
  }

  lemma {:induction false} LoudRunIsWhole(c: Chain, info: set<Verifier>, events: seq<Event>, p0: int)
    requires p0 >= 0 && LoudRun(c, Fresh(info, p0), events)
    ensures Whole(Run(c, Fresh(info, p0), events), p0, HistOf(c, Fresh(info, p0), events, NoHist(p0)))
    decreases |events|
  {
    hide Step, Next, LoudRun;
    if events != [] {
      hide Whole;
      var init := events[..|events| - 1];
      LoudInit(c, Fresh(info, p0), events);
      LoudRunIsWhole(c, info, init, p0);
      WholeKept(c, Run(c, Fresh(info, p0), init), events[|events| - 1], p0,
                HistOf(c, Fresh(info, p0), init, NoHist(p0)));
    }
  }

  /** Without silent workers the table is determined by the furthest poll commit and the furthest
      vote commit alone. */
  lemma LoudTable(c: Chain, info: set<Verifier>, events: seq<Event>, p0: int)
    requires Orderly(c) && p0 >= 0 && LoudRun(c, Fresh(info, p0), events)
    ensures var h := HistOf(c, Fresh(info, p0), events, NoHist(p0));
            Reflects(c, Run(c, Fresh(info, p0), events).rows, Covered(p0, h.reach),
                     Cross(Covered(p0, h.front), Covered(p0, h.front)))
  {
    hide Run, HistOf, LoudRun;
    FreshInv(c, info, p0);
    TableReflectsHistory(c, Fresh(info, p0), events, p0, NoHist(p0));
    LoudRunIsWhole(c, info, events, p0);
    var s, h := Run(c, Fresh(info, p0), events), HistOf(c, Fresh(info, p0), events, NoHist(p0));
    HeightsSpec(p0 + 1, h.reach, {});
    HeightsSpec(p0 + 1, h.front, {});
    SameMembers(h.begun, Covered(p0, h.reach));
    hide Heights;
    ReflectsSame(c, s.rows, h.begun, h.taken, Cross(Covered(p0, h.front), Covered(p0, h.front)));
  }

  /** Only votes not before the start matter. */
  lemma ReflectsSame(c: Chain, rows: Rows, begun: set<int>, taken: set<Taken>, taken': set<Taken>)
    requires Orderly(c) && Reflects(c, rows, begun, taken)
    requires forall t, g :: t in begun && t <= g ==> (Taken(t, g) in taken <==> Taken(t, g) in taken')
    ensures Reflects(c, rows, begun, taken')
  {
    forall k | k in rows ensures RowOk(c, k, rows[k], taken') {
      assert StartsAt(c, rows[k].start, k);
    }
  }

  /** Batching, crashes and failures are invisible: two runs without silent workers that got equally
      far with polls and with votes have the same table, also when the latest height drops. */
  lemma BatchingInvisible(c: Chain, info: set<Verifier>, events: seq<Event>, info': set<Verifier>,
                          events': seq<Event>, p0: int)
    requires Orderly(c) && p0 >= 0 && LoudRun(c, Fresh(info, p0), events) && LoudRun(c, Fresh(info', p0), events')
    requires var h := HistOf(c, Fresh(info, p0), events, NoHist(p0));
             var h' := HistOf(c, Fresh(info', p0), events', NoHist(p0));
             h.reach == h'.reach && h.front == h'.front
    ensures Run(c, Fresh(info, p0), events).rows == Run(c, Fresh(info', p0), events').rows
  {
    hide Orderly, Run, HistOf, Reflects, LoudRun;
    LoudTable(c, info, events, p0);
    LoudTable(c, info', events', p0);
    var h := HistOf(c, Fresh(info, p0), events, NoHist(p0));
    ReflectsUnique(c, Run(c, Fresh(info, p0), events).rows, Run(c, Fresh(info', p0), events').rows,
                   Covered(p0, h.reach), Cross(Covered(p0, h.front), Covered(p0, h.front)));
  }

  // ---------------------------------------------------------------- a latest height that never drops

  function LookOf(ev: Event): Look {
    if ev.Sync? then Saw(ev.env.latest) else Nothing
  }

  /** A half-failed batch has inserted no more polls than the next batch from the same pointer
      inserts again. */
  ghost predicate InStep(s: State, p0: int, h: Hist, top: int) {
    p0 <= s.mem <= s.pointer == h.front <= h.reach <= Reach(s.mem, top)
  }

  lemma InStepKept(c: Chain, s: State, ev: Event, p0: int, h: Hist, top: int)
    requires InStep(s, p0, h, top) && (ev.Sync? ==> ev.env.latest >= top)
    ensures InStep(Step(c, s, ev), p0, Next(c, s, ev, h), if ev.Sync? then ev.env.latest else top)
    ensures ev.Sync? && Batch(c, s, ev.env).1 == Committed ==>
              Next(c, s, ev, h).reach == Next(c, s, ev, h).front == Step(c, s, ev).pointer
  {
    hide InitList, UpdateList, NewVerifiers, InsertInits, UpdateVotes, SomeFailed, Heights, Cross, Register;
    if ev.Sync? {
      var end := EndHeight(s.mem, ev.env.latest);
      RegisterFrame(s, ev.env, NewVerifiers(s.vim, InitList(c, ev.env.silent, s.mem + 1, end)));
    }
  }

  lemma {:induction false} RisingStaysInStep(c: Chain, info: set<Verifier>, events: seq<Event>, p0: int, top: int)
    requires p0 >= 0 && Rising(events, LookOf, top)
    ensures InStep(Run(c, Fresh(info, p0), events), p0, HistOf(c, Fresh(info, p0), events, NoHist(p0)),
                   TopOf(events, LookOf, top))
    decreases |events|
  {
    hide Step, Next, Rising;
    if events != [] {
      hide InStep;
      var init := events[..|events| - 1];
      RisingInit(events, LookOf, top);
      RisingStaysInStep(c, info, init, p0, top);
      InStepKept(c, Run(c, Fresh(info, p0), init), events[|events| - 1], p0,
                 HistOf(c, Fresh(info, p0), init, NoHist(p0)), TopOf(init, LookOf, top));
    }
  }

  /** Then, after a committed batch, the table is the one of the heights up to the pointer. */
  lemma CommittedTable(c: Chain, info: set<Verifier>, events: seq<Event>, e: Env, p0: int, top: int)
    requires Orderly(c) && p0 >= 0
    requires LoudRun(c, Fresh(info, p0), events + [Sync(e)]) && Rising(events + [Sync(e)], LookOf, top)
    requires Batch(c, Run(c, Fresh(info, p0), events), e).1 == Committed
    ensures var r := Run(c, Fresh(info, p0), events + [Sync(e)]); CoversExactly(c, r.rows, p0, r.pointer)
  {
    hide Orderly, Step, Next, Batch, Reflects, LoudRun, Rising, InStep, Covered, Cross;
    var s, all := Fresh(info, p0), events + [Sync(e)];
    assert all[..|all| - 1] == events;
    RisingInit(all, LookOf, top);
    RisingStaysInStep(c, info, events, p0, top);
    InStepKept(c, Run(c, s, events), Sync(e), p0, HistOf(c, s, events, NoHist(p0)), TopOf(events, LookOf, top));
    LoudTable(c, info, all, p0);
  }
}
