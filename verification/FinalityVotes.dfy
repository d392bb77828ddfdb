/** The Babylon finality provider indexer: a pointer-driven batch indexer that stays three heights
    behind the chain and stores rows for the fetched heights themselves
    (internal/packages/babylon/finality-provider/indexer/batch_sync.go, lines 16-244;
    internal/packages/babylon/finality-provider/repository/repository.go, lines 32-83;
    internal/common/indexer/repository/finality_provider_info.go, lines 62-75). */
module FinalityVotes {
  import Windows

  type Pk = string

  const FINALITY_SIG_TIMEOUT := 3
  const BATCH_HEIGHTS := Windows.BATCH_HEIGHTS

  /** The active providers of a height and the keys whose finality vote was seen. */
  datatype Chain = Chain(active: int -> seq<Pk>, voted: int -> seq<Pk>)

  type VoteMap = map<Pk, bool>
  type IdMap = map<Pk, int>
  datatype Vote = Vote(height: int, provider: int, voted: bool)

  /** `ids` is the finality_provider_info table; `mem` and `vim` are lost in a crash. */
  datatype State = State(votes: multiset<Vote>, pointer: int, ids: IdMap, nextId: int, mem: int, vim: IdMap)

  datatype Commit = Applied | Refused | Unacknowledged
  datatype Env = Env(latest: int, failed: set<int>, silent: set<int>, infos: seq<Pk>, insertOk: bool, fetchOk: bool,
                     commit: Commit)
  datatype Outcome = Skipped | Failed | Panicked | Committed

  // ---------------------------------------------------------------- what should be stored

  /** Active providers default to missed; a key that voted counts as voted, active or not. */
  function VotesAt(c: Chain, h: int): VoteMap {
    map pk | pk in c.active(h) + c.voted(h) :: pk in c.voted(h)
  }

  function IdOf(ids: IdMap, pk: Pk): int {
    if pk in ids then ids[pk] else 0
  }

  function RowSet(votes: VoteMap, ids: IdMap, h: int): set<Vote> {
    set pk | pk in votes :: Vote(h, IdOf(ids, pk), votes[pk])
  }

  /** One row per provider of each height in (lo, hi]. */
  function Expected(c: Chain, ids: IdMap, lo: int, hi: int): multiset<Vote>
    decreases hi - lo
  {
    if hi <= lo then multiset{} else Expected(c, ids, lo, hi - 1) + multiset(RowSet(VotesAt(c, hi), ids, hi))
  }

  // ---------------------------------------------------------------- one batch

  /** The last height whose votes are expected to be complete. */
  function Goal(latest: int): int {
    latest - FINALITY_SIG_TIMEOUT
  }

  function EndHeight(mem: int, latest: int): int {
    Windows.EndHeight(mem, Goal(latest))
  }

  /** A worker reports failure when a call fails and when no vote is known yet. */
  predicate SomeFailed(c: Chain, failed: set<int>, silent: set<int>, start: int, end: int) {
    exists h :: start <= h <= end && Fails(c, failed, silent, h)
  }

  predicate Fails(c: Chain, failed: set<int>, silent: set<int>, h: int) {
    h in failed || (h !in silent && c.voted(h) == [])
  }

  function Collected(c: Chain, start: int, end: int, silent: set<int>): map<int, VoteMap> {
    map h | start <= h <= end && h !in silent :: VotesAt(c, h)
  }

  function NewKeys(vim: IdMap, list: map<int, VoteMap>): set<Pk> {
    set h, pk | h in list && pk in list[h] && pk !in vim :: pk
  }

  predicate Distinct(pks: seq<Pk>) {
    forall i, j :: 0 <= i < j < |pks| ==> pks[i] != pks[j]
  }

  /** A plain insert: any key present twice makes it fail. */
  predicate InsertAllowed(ids: IdMap, pks: seq<Pk>) {
    Distinct(pks) && forall i :: 0 <= i < |pks| ==> pks[i] !in ids
  }

  function Insert(ids: IdMap, nextId: int, pks: seq<Pk>): (IdMap, int) {
    if pks == [] then (ids, nextId)
    else
      var (before, id) := Insert(ids, nextId, pks[..|pks| - 1]);
      (before[pks[|pks| - 1] := id], id + 1)
  }

  function Register(s: State, e: Env, list: map<int, VoteMap>): (State, bool) {
    if NewKeys(s.vim, list) == {} then (s, true)
    else if !e.insertOk || !InsertAllowed(s.ids, e.infos) then
      (if e.fetchOk then s.(vim := s.vim + s.ids) else s, false)
    else
      var (ids, nextId) := Insert(s.ids, s.nextId, e.infos);
      var s1 := s.(ids := ids, nextId := nextId);
      if e.fetchOk then (s1.(vim := s.vim + ids), true) else (s1, false)
  }

  datatype Built = Rows(rows: multiset<Vote>) | NoId | Panic

  /** A missing entry reads as height 0 and stops the process. */
  function Build(list: map<int, VoteMap>, vim: IdMap, start: int, end: int): Built
    decreases end - start
  {
    if end < start then Rows(multiset{})
    else match Build(list, vim, start, end - 1)
      case Rows(rows) =>
        if end !in list && end != 0 then Panic
        else
          var votes := if end in list then list[end] else map[];
          if votes.Keys <= vim.Keys then Rows(rows + multiset(RowSet(votes, vim, end))) else NoId
      case other => other
  }

  /** UNIQUE (height, finality_provider_pk_id) against what is stored. */
  predicate Clash(votes: multiset<Vote>, rows: multiset<Vote>) {
    exists v, w :: v in votes && w in rows && v.height == w.height && v.provider == w.provider
  }

  function Finish(s: State, rows: multiset<Vote>, pointer: int, commit: Commit): (State, Outcome) {
    if commit == Refused || Clash(s.votes, rows) then (s, Failed)
    else
      var s1 := s.(votes := s.votes + rows, pointer := pointer);
      if commit == Applied then (s1.(mem := pointer), Committed) else (s1, Failed)
  }

  function Batch(c: Chain, s: State, e: Env): (State, Outcome) {
    var start, end := s.mem + 1, EndHeight(s.mem, e.latest);
    if start > Goal(e.latest) then (s, Skipped)
    else if SomeFailed(c, e.failed, e.silent, start, end) then (s, Failed)
    else
      var list := Collected(c, start, end, e.silent);
      var (s1, ok) := Register(s, e, list);
      if !ok then (s1, Failed)
      else match Build(list, s1.vim, start, end)
        case Rows(rows) => Finish(s1, rows, if end in list then end else 0, e.commit)
        case NoId => (s1, Failed)
        case Panic => (s1, Panicked)
  }

  datatype Event = Sync(env: Env) | Crash | OtherService(infos: seq<Pk>)

  function Restart(s: State): State {
    s.(mem := s.pointer, vim := s.ids)
  }

  function Step(c: Chain, s: State, ev: Event): State {
    match ev
    case Sync(e) => (var (s1, out) := Batch(c, s, e); if out == Panicked then Restart(s1) else s1)
    case Crash => Restart(s)
    case OtherService(infos) =>
      if !InsertAllowed(s.ids, infos) then s
      else (var (ids, nextId) := Insert(s.ids, s.nextId, infos); s.(ids := ids, nextId := nextId))
  }

  function Run(c: Chain, s: State, events: seq<Event>): State {
    if events == [] then s
    else Step(c, Run(c, s, events[..|events| - 1]), events[|events| - 1])
  }

  // ---------------------------------------------------------------- ids

  ghost predicate Injective(ids: IdMap, nextId: int) {
    && (forall pk :: pk in ids ==> ids[pk] < nextId)
    && (forall p, q :: p in ids && q in ids && p != q ==> ids[p] != ids[q])
  }

  /** Every entry of a is an entry of b. */
  ghost predicate Within(a: IdMap, b: IdMap) {
    forall pk :: pk in a ==> pk in b && a[pk] == b[pk]
  }

  lemma AddFresh(ids: IdMap, nextId: int, pk: Pk)
    requires Injective(ids, nextId) && pk !in ids
    ensures Injective(ids[pk := nextId], nextId + 1) && Within(ids, ids[pk := nextId])
  {
  }

  lemma LastIsNew(pks: seq<Pk>)
    requires pks != [] && Distinct(pks)
    ensures var init, last := pks[..|pks| - 1], pks[|pks| - 1];
            last !in init && Distinct(init) && (set pk | pk in pks) == (set pk | pk in init) + {last}
  {
  }

  lemma {:induction false} InsertKeeps(ids: IdMap, nextId: int, pks: seq<Pk>)
    requires Injective(ids, nextId) && InsertAllowed(ids, pks)
    ensures var (later, id) := Insert(ids, nextId, pks);
            && Injective(later, id) && Within(ids, later)
            && later.Keys == ids.Keys + set pk | pk in pks
    decreases |pks|
  {
    hide Injective, Distinct;
    if pks != [] {
      var init, last := pks[..|pks| - 1], pks[|pks| - 1];
      LastIsNew(pks);
      InsertKeeps(ids, nextId, init);
      var (before, id) := Insert(ids, nextId, init);
      AddFresh(before, id, last);
    }
  }

  lemma RegisterKeeps(s: State, e: Env, list: map<int, VoteMap>)
    requires Injective(s.ids, s.nextId) && Within(s.vim, s.ids)
    ensures var (s1, _) := Register(s, e, list);
            && Injective(s1.ids, s1.nextId) && Within(s1.vim, s1.ids) && Within(s.ids, s1.ids)
            && s1.votes == s.votes && s1.pointer == s.pointer && s1.mem == s.mem
  {
    if InsertAllowed(s.ids, e.infos) {
      InsertKeeps(s.ids, s.nextId, e.infos);
    }
  }

  // ---------------------------------------------------------------- rows

  ghost predicate KnownAt(c: Chain, ids: IdMap, h: int) {
    VotesAt(c, h).Keys <= ids.Keys
  }

  ghost predicate Known(c: Chain, ids: IdMap, lo: int, hi: int) {
    forall h :: lo < h <= hi ==> KnownAt(c, ids, h)
  }

  lemma RowSetStable(votes: VoteMap, ids: IdMap, later: IdMap, h: int)
    requires votes.Keys <= ids.Keys && Within(ids, later)
    ensures RowSet(votes, ids, h) == RowSet(votes, later, h)
  {
  }

  lemma {:induction false} ExpectedStable(c: Chain, ids: IdMap, later: IdMap, lo: int, hi: int)
    requires Known(c, ids, lo, hi) && Within(ids, later)
    ensures Expected(c, ids, lo, hi) == Expected(c, later, lo, hi) && Known(c, later, lo, hi)
    decreases hi - lo
  {
    forall h | lo < h <= hi ensures KnownAt(c, later, h) {
      assert KnownAt(c, ids, h);
    }
    if lo < hi {
      ExpectedStable(c, ids, later, lo, hi - 1);
      assert KnownAt(c, ids, hi);
      RowSetStable(VotesAt(c, hi), ids, later, hi);
    }
  }

  lemma {:induction false} ExpectedConcat(c: Chain, ids: IdMap, lo: int, mid: int, hi: int)
    requires lo <= mid <= hi
    ensures Expected(c, ids, lo, mid) + Expected(c, ids, mid, hi) == Expected(c, ids, lo, hi)
    decreases hi - mid
  {
    hide RowSet, VotesAt;
    if mid < hi {
      ExpectedConcat(c, ids, lo, mid, hi - 1);
      var last := multiset(RowSet(VotesAt(c, hi), ids, hi));
      SumAssociative(Expected(c, ids, lo, mid), Expected(c, ids, mid, hi - 1), last);
    }
  }

  lemma SumAssociative(a: multiset<Vote>, b: multiset<Vote>, d: multiset<Vote>)
    ensures a + (b + d) == (a + b) + d
  {
  }

  lemma {:induction false} ExpectedContains(c: Chain, ids: IdMap, lo: int, hi: int, h: int, pk: Pk)
    requires lo < h <= hi && pk in VotesAt(c, h)
    ensures Vote(h, IdOf(ids, pk), VotesAt(c, h)[pk]) in Expected(c, ids, lo, hi)
    decreases hi - lo
  {
    if h < hi {
      ExpectedContains(c, ids, lo, hi - 1, h, pk);
    } else {
      assert Vote(h, IdOf(ids, pk), VotesAt(c, h)[pk]) in RowSet(VotesAt(c, h), ids, h);
    }
  }

  lemma {:induction false} ExpectedHeights(c: Chain, ids: IdMap, lo: int, hi: int, v: Vote)
    requires v in Expected(c, ids, lo, hi)
    ensures lo < v.height <= hi
    decreases hi - lo
  {
    if v in Expected(c, ids, lo, hi - 1) {
      ExpectedHeights(c, ids, lo, hi - 1, v);
    } else {
      assert v in RowSet(VotesAt(c, hi), ids, hi);
    }
  }

  /** The presence check: what is built is exactly the rows of (start - 1, last]. */
  lemma {:induction false} BuildCorrect(c: Chain, ids: IdMap, vim: IdMap, start: int, end: int, last: int,
                                        silent: set<int>)
    requires Within(vim, ids) && 1 <= start && start - 1 <= last <= end
    ensures var list := Collected(c, start, end, silent);
            var built := Build(list, vim, start, last);
            && (built.Rows? ==> && built.rows == Expected(c, ids, start - 1, last) && Known(c, ids, start - 1, last)
                                && forall h :: start <= h <= last ==> h in list)
    decreases last - start
  {
    var list := Collected(c, start, end, silent);
    if start <= last && Build(list, vim, start, last).Rows? {
      BuildCorrect(c, ids, vim, start, end, last - 1, silent);
      assert last in list;
      forall pk | pk in VotesAt(c, last) ensures pk in vim {
        assert pk in list[last].Keys;
      }
      RowSetStable(VotesAt(c, last), vim, ids, last);
      forall h | start - 1 < h <= last ensures KnownAt(c, ids, h) {
      }
    }
  }

  // ---------------------------------------------------------------- exactly once

  ghost predicate Inv(c: Chain, s: State, p0: int) {
    && 0 <= p0 <= s.mem <= s.pointer
    && Injective(s.ids, s.nextId) && Within(s.vim, s.ids)
    && Known(c, s.ids, p0, s.pointer)
    && s.votes == Expected(c, s.ids, p0, s.pointer)
  }

  lemma InvExtends(c: Chain, s: State, s1: State, p0: int)
    requires Inv(c, s, p0) && Within(s.ids, s1.ids) && Injective(s1.ids, s1.nextId) && Within(s1.vim, s1.ids)
    requires s1.votes == s.votes && s1.pointer == s.pointer && (s1.mem == s.mem || s1.mem == s.pointer)
    ensures Inv(c, s1, p0)
  {
    ExpectedStable(c, s.ids, s1.ids, p0, s.pointer);
  }

  /** Memory behind the pointer builds rows that are already stored. */
  lemma StaleClashes(c: Chain, s: State, p0: int, end: int)
    requires Inv(c, s, p0) && s.mem < s.pointer && s.mem < end && c.voted(s.mem + 1) != []
    ensures Clash(s.votes, Expected(c, s.ids, s.mem, end))
  {
    var h := s.mem + 1;
    var pk := c.voted(h)[0];
    ExpectedContains(c, s.ids, p0, s.pointer, h, pk);
    ExpectedContains(c, s.ids, s.mem, end, h, pk);
    var v := Vote(h, IdOf(s.ids, pk), VotesAt(c, h)[pk]);
    assert v in s.votes && v in Expected(c, s.ids, s.mem, end);
  }

  lemma BatchKeeps(c: Chain, s: State, e: Env, p0: int)
    requires Inv(c, s, p0)
    ensures var (s1, _) := Batch(c, s, e); Inv(c, s1, p0) && s1.pointer >= s.pointer
  {
    hide Register, Build, Clash, Injective, Within, Expected, KnownAt, VotesAt;
    var start, end := s.mem + 1, EndHeight(s.mem, e.latest);
    if start <= Goal(e.latest) && !SomeFailed(c, e.failed, e.silent, start, end) {
      var list := Collected(c, start, end, e.silent);
      var s1 := Register(s, e, list).0;
      RegisterKeeps(s, e, list);
      InvExtends(c, s, s1, p0);
      BuildCorrect(c, s1.ids, s1.vim, start, end, end, e.silent);
      if Build(list, s1.vim, start, end).Rows? {
        if s.mem == s.pointer {
          ExpectedConcat(c, s1.ids, p0, s.pointer, end);
          forall h | p0 < h <= end ensures KnownAt(c, s1.ids, h) {
          }
        } else {
          assert start in list && !Fails(c, e.failed, e.silent, start);
          StaleClashes(c, s1, p0, end);
        }
      }
    }
  }

  /** Exactly once over whole runs: the table is one row per provider of each height in
      (p0, pointer], voted exactly where the key's vote was seen. */
  lemma {:induction false} ExactlyOnce(c: Chain, s: State, events: seq<Event>, p0: int)
    requires Inv(c, s, p0)
    ensures Inv(c, Run(c, s, events), p0) && Run(c, s, events).pointer >= s.pointer
    decreases |events|
  {
    hide Batch, Insert, InsertAllowed, Injective, Within, Expected, Known;
    if events != [] {
      ExactlyOnce(c, s, events[..|events| - 1], p0);
      var mid := Run(c, s, events[..|events| - 1]);
      match events[|events| - 1] {
        case Sync(e) =>
          BatchKeeps(c, mid, e, p0);
          RestartKeeps(c, Batch(c, mid, e).0, p0);
        case Crash =>
          RestartKeeps(c, mid, p0);
        case OtherService(infos) =>
          if InsertAllowed(mid.ids, infos) {
            InsertKeeps(mid.ids, mid.nextId, infos);
            WithinTrans(mid.vim, mid.ids, Insert(mid.ids, mid.nextId, infos).0);
            InvExtends(c, mid, Step(c, mid, OtherService(infos)), p0);
          }
      }
    }
  }

  lemma WithinTrans(a: IdMap, b: IdMap, d: IdMap)
    requires Within(a, b) && Within(b, d)
    ensures Within(a, d)
  {
  }

  lemma RestartKeeps(c: Chain, s: State, p0: int)
    requires Inv(c, s, p0)
    ensures Inv(c, Restart(s), p0)
  {
  }

  /** A first start: no rows yet, memory and pointer at the initial height, the cache as the table. */
  lemma FreshStart(c: Chain, ids: IdMap, nextId: int, p0: int)
    requires p0 >= 0 && Injective(ids, nextId)
    ensures Inv(c, State(multiset{}, p0, ids, nextId, p0, ids), p0)
  {
  }

  // ---------------------------------------------------------------- catch-up

  ghost predicate Good(c: Chain, s: State, e: Env) {
    var start, end := s.mem + 1, EndHeight(s.mem, e.latest);
    && e.insertOk && e.fetchOk && e.commit == Applied && Delivered(c, s, e)
    && InsertAllowed(s.ids, e.infos)
    && NewKeys(s.vim, Collected(c, start, end, e.silent)) <= s.ids.Keys + set pk | pk in e.infos
  }

  ghost predicate AllCached(c: Chain, vim: IdMap, lo: int, hi: int) {
    forall h :: lo < h <= hi ==> VotesAt(c, h).Keys <= vim.Keys
  }

  /** Rows are built exactly when every worker delivered and every key is cached. */
  lemma {:induction false} BuildExact(c: Chain, vim: IdMap, start: int, end: int, last: int, silent: set<int>)
    requires 1 <= start && start - 1 <= last <= end
    ensures Build(Collected(c, start, end, silent), vim, start, last).Rows? <==>
            (forall h :: start <= h <= last ==> h !in silent) && AllCached(c, vim, start - 1, last)
    decreases last - start
  {
    hide VotesAt, RowSet;
    if start <= last {
      BuildExact(c, vim, start, end, last - 1, silent);
    }
  }

  /** Every worker of the batch delivers, and votes are known at every height. */
  predicate Delivered(c: Chain, s: State, e: Env) {
    forall h :: s.mem < h <= EndHeight(s.mem, e.latest) ==> h !in e.failed && h !in e.silent && c.voted(h) != []
  }

  lemma DeliveredExactly(c: Chain, s: State, e: Env)
    ensures var start, end := s.mem + 1, EndHeight(s.mem, e.latest);
            Delivered(c, s, e) <==>
            !SomeFailed(c, e.failed, e.silent, start, end) && forall h :: start <= h <= end ==> h !in e.silent
  {
    if !SomeFailed(c, e.failed, e.silent, s.mem + 1, EndHeight(s.mem, e.latest)) {
      forall h | s.mem < h <= EndHeight(s.mem, e.latest) && h !in e.silent ensures h !in e.failed && c.voted(h) != [] {
        assert !Fails(c, e.failed, e.silent, h);
      }
    }
  }

  /** There is nothing to register, or both calls work and no key is listed twice or has a row. */
  predicate Registers(s: State, e: Env, list: map<int, VoteMap>) {
    NewKeys(s.vim, list) == {} || (e.insertOk && e.fetchOk && InsertAllowed(s.ids, e.infos))
  }

  lemma RegisterExact(s: State, e: Env, list: map<int, VoteMap>)
    ensures Register(s, e, list).1 <==> Registers(s, e, list)
  {
    hide NewKeys, InsertAllowed, Insert;
  }

  /** Exactly when a batch of any reachable state commits, whatever fails: memory agrees with the
      table, there is something to fetch, every worker delivers, registration succeeds, every key of
      the batch is then cached, and the commit is applied. */
  lemma CommitsExactly(c: Chain, s: State, e: Env, p0: int)
    requires Inv(c, s, p0)
    ensures var end := EndHeight(s.mem, e.latest);
            var list := Collected(c, s.mem + 1, end, e.silent);
            var (r, out) := Batch(c, s, e);
            && (out == Committed <==>
                && s.mem == s.pointer < e.latest - 3 && Delivered(c, s, e) && Registers(s, e, list)
                && AllCached(c, Register(s, e, list).0.vim, s.mem, end) && e.commit == Applied)
            && (out == Committed ==>
                  r.pointer == r.mem == Windows.Min(s.pointer + 11, e.latest - 3))
            && (out != Committed && e.commit != Unacknowledged ==>
                  r.pointer == s.pointer && r.mem == s.mem && r.votes == s.votes)
  {
    hide Register, Build, Clash, Injective, Within, Expected, KnownAt, VotesAt, AllCached, Delivered, SomeFailed,
         Registers;
    var start, end := s.mem + 1, EndHeight(s.mem, e.latest);
    DeliveredExactly(c, s, e);
    if start <= Goal(e.latest) {
      var list := Collected(c, start, end, e.silent);
      var s1 := Register(s, e, list).0;
      RegisterKeeps(s, e, list);
      RegisterExact(s, e, list);
      InvExtends(c, s, s1, p0);
      BuildExact(c, s1.vim, start, end, end, e.silent);
      BuildCorrect(c, s1.ids, s1.vim, start, end, end, e.silent);
      if s.mem == s.pointer {
        NoClash(c, s1.ids, p0, s.mem, end);
      } else if Delivered(c, s, e) {
        VotesKnown(c, s, e);
        StaleClashes(c, s1, p0, end);
      }
    }
  }

  lemma VotesKnown(c: Chain, s: State, e: Env)
    requires Delivered(c, s, e) && s.mem < EndHeight(s.mem, e.latest)
    ensures c.voted(s.mem + 1) != []
  {
  }

  lemma RegisterCovers(s: State, e: Env, list: map<int, VoteMap>, h: int)
    requires Injective(s.ids, s.nextId) && h in list && e.insertOk && e.fetchOk && InsertAllowed(s.ids, e.infos)
    requires NewKeys(s.vim, list) <= s.ids.Keys + set pk | pk in e.infos
    ensures Register(s, e, list).1 && list[h].Keys <= Register(s, e, list).0.vim.Keys
  {
    InsertKeeps(s.ids, s.nextId, e.infos);
    forall pk | pk in list[h] ensures pk in Register(s, e, list).0.vim {
      if pk !in s.vim {
        assert pk in NewKeys(s.vim, list);
      }
    }
  }

  /** So a good batch moves the pointer to min(latest - 3, pointer + 11). */
  lemma GoodBatchAdvances(c: Chain, s: State, e: Env, p0: int)
    requires Inv(c, s, p0) && s.mem == s.pointer < Goal(e.latest) && Good(c, s, e)
    ensures var (s1, out) := Batch(c, s, e);
            && out == Committed && s1.mem == s1.pointer
            && s1.pointer == Windows.Min(s.pointer + 11, e.latest - 3)
  {
    hide Register, Batch, Injective, Within, Expected, Known, InsertAllowed, NewKeys, VotesAt;
    var start, end := s.mem + 1, EndHeight(s.mem, e.latest);
    var list := Collected(c, start, end, e.silent);
    forall h | s.mem < h <= end ensures VotesAt(c, h).Keys <= Register(s, e, list).0.vim.Keys {
      RegisterCovers(s, e, list, h);
    }
    CommitsExactly(c, s, e, p0);
  }

  lemma NoClash(c: Chain, ids: IdMap, lo: int, mid: int, hi: int)
    ensures !Clash(Expected(c, ids, lo, mid), Expected(c, ids, mid, hi))
  {
    forall v, w | v in Expected(c, ids, lo, mid) && w in Expected(c, ids, mid, hi) ensures v.height != w.height {
      ExpectedHeights(c, ids, lo, mid, v);
      ExpectedHeights(c, ids, mid, hi, w);
    }
  }

  function Syncs(envs: seq<Env>): (r: seq<Event>)
    ensures |r| == |envs| && forall i :: 0 <= i < |envs| ==> r[i] == Sync(envs[i])
  {
    seq(|envs|, i requires 0 <= i < |envs| => Sync(envs[i]))
  }

  ghost predicate GoodRun(c: Chain, s: State, envs: seq<Env>, latest: int) {
    forall i :: 0 <= i < |envs| ==>
      envs[i].latest == latest &&
      (s.pointer + BATCH_HEIGHTS * i < Goal(latest) ==> Good(c, Run(c, s, Syncs(envs[..i])), envs[i]))
  }

  lemma GoodRunInit(c: Chain, s: State, envs: seq<Env>, latest: int)
    requires envs != [] && GoodRun(c, s, envs, latest)
    ensures var n := |envs| - 1;
            && GoodRun(c, s, envs[..n], latest) && envs[n].latest == latest
            && (s.pointer + BATCH_HEIGHTS * n < Goal(latest) ==> Good(c, Run(c, s, Syncs(envs[..n])), envs[n]))
  {
    hide Good, Run;
    var init := envs[..|envs| - 1];
    forall i | 0 <= i < |init|
      ensures init[i].latest == latest
      ensures s.pointer + BATCH_HEIGHTS * i < Goal(latest) ==> Good(c, Run(c, s, Syncs(init[..i])), init[i])
    {
      assert init[..i] == envs[..i];
    }
  }

  /** After n good batches the pointer is min(latest - 3, pointer + 11 n): it reaches latest - 3 in
      ceil(gap / 11) batches, not before, and stays there. */
  lemma {:induction false} CatchUp(c: Chain, s: State, envs: seq<Env>, latest: int, p0: int)
    requires Inv(c, s, p0) && s.mem == s.pointer <= Goal(latest) && GoodRun(c, s, envs, latest)
    ensures var r := Run(c, s, Syncs(envs));
            && Inv(c, r, p0) && r.mem == r.pointer
            && r.pointer == Windows.Min(s.pointer + 11 * |envs|, latest - 3)
            && (r.pointer == latest - 3 <==> 11 * |envs| >= latest - 3 - s.pointer)
    decreases |envs|
  {
    hide Inv, Good, Batch, GoodRun;
    if envs != [] {
      var init, e := envs[..|envs| - 1], envs[|envs| - 1];
      GoodRunInit(c, s, envs, latest);
      CatchUp(c, s, init, latest, p0);
      assert Syncs(envs)[..|envs| - 1] == Syncs(init);
      CatchUpStep(c, Run(c, s, Syncs(init)), e, p0);
    }
  }

  lemma CatchUpStep(c: Chain, s: State, e: Env, p0: int)
    requires Inv(c, s, p0) && s.mem == s.pointer <= Goal(e.latest)
    requires s.pointer < Goal(e.latest) ==> Good(c, s, e)
    ensures var r := Step(c, s, Sync(e));
            && Inv(c, r, p0) && r.mem == r.pointer
            && r.pointer == Windows.Min(s.pointer + BATCH_HEIGHTS, Goal(e.latest))
  {
    hide Inv, Good;
    BatchKeeps(c, s, e, p0);
    if s.pointer < Goal(e.latest) {
      hide Batch;
      GoodBatchAdvances(c, s, e, p0);
    }
  }
}
