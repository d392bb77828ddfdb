/** What the finality provider indexer's single operations do, stated field by field for all inputs: the
    rows of one height, the write, registration, a panic and a restart
    (internal/packages/babylon/finality-provider/indexer/batch_sync.go, lines 63-244;
    internal/packages/babylon/finality-provider/indexer/indexer.go, lines 53-89 and 192-204;
    internal/common/indexer/repository/finality_provider_info.go, lines 62-75). */
module FinalityDetails {
  import opened FinalityVotes
  import Windows

  // ---------------------------------------------------------------- the rows of one height

  lemma {:induction false} RowsAtHeight(c: Chain, ids: IdMap, lo: int, hi: int, v: Vote)
    ensures Expected(c, ids, lo, hi)[v] ==
            if lo < v.height <= hi && v in RowSet(VotesAt(c, v.height), ids, v.height) then 1 else 0
    decreases hi - lo
  {
    if lo < hi {
      RowsAtHeight(c, ids, lo, hi - 1, v);
      RowsNameHeight(c, ids, hi, v);
    }
  }

  lemma RowsNameHeight(c: Chain, ids: IdMap, h: int, v: Vote)
    ensures v in RowSet(VotesAt(c, h), ids, h) ==> v.height == h
  {
  }

  /** Each key that was active or voted at a stored height has one row there, voted exactly when its vote
      was seen, and no row to the contrary. */
  lemma RowsOfHeight(c: Chain, s: State, p0: int, h: int, pk: Pk)
    requires Inv(c, s, p0) && p0 < h <= s.pointer && (pk in c.active(h) || pk in c.voted(h))
    ensures pk in s.ids
    ensures s.votes[Vote(h, s.ids[pk], pk in c.voted(h))] == 1 && s.votes[Vote(h, s.ids[pk], pk !in c.voted(h))] == 0
  {
    assert KnownAt(c, s.ids, h) && pk in VotesAt(c, h).Keys;
    var yes, no := Vote(h, s.ids[pk], pk in c.voted(h)), Vote(h, s.ids[pk], pk !in c.voted(h));
    RowsAtHeight(c, s.ids, p0, s.pointer, yes);
    RowsAtHeight(c, s.ids, p0, s.pointer, no);
  }

  /** And every row belongs to such a key. */
  lemma RowsHaveKeys(c: Chain, s: State, p0: int, v: Vote)
    requires Inv(c, s, p0) && v in s.votes
    ensures p0 < v.height <= s.pointer
    ensures exists pk :: (pk in c.active(v.height) || pk in c.voted(v.height)) && pk in s.ids && s.ids[pk] == v.provider
  {
    RowsAtHeight(c, s.ids, p0, s.pointer, v);
    var pk :| pk in VotesAt(c, v.height) && Vote(v.height, IdOf(s.ids, pk), VotesAt(c, v.height)[pk]) == v;
    assert KnownAt(c, s.ids, v.height);
  }

  // ---------------------------------------------------------------- the write

  /** The write is refused as a whole when a stored and a new row are of one height and provider,
      whether voted or not. */
  lemma FinishExactly(s: State, rows: multiset<Vote>, pointer: int, commit: Commit)
    ensures var (r, out) := Finish(s, rows, pointer, commit);
            var clash := exists v, w :: v in s.votes && w in rows && v.height == w.height && v.provider == w.provider;
            if commit == Refused || clash then r == s && out == Failed
            else && r.votes == s.votes + rows && r.pointer == pointer && r.ids == s.ids && r.vim == s.vim
                 && r.mem == (if commit == Applied then pointer else s.mem)
                 && (out == Committed <==> commit == Applied) && (out == Failed <==> commit == Unacknowledged)
  {
  }

  // ---------------------------------------------------------------- registration

  /** Keys at the collected heights that are not cached. */
  lemma NewKeysExactly(vim: IdMap, list: map<int, VoteMap>, pk: Pk)
    ensures pk in NewKeys(vim, list) <==> pk !in vim && exists h :: h in list && pk in list[h]
  {
  }

  /** When there is something to register and the table can be read, registration ends with the whole
      table cached, also after a refused insert; otherwise the cache stays. A list that is not refused
      adds exactly its keys. */
  lemma RegisterRereads(s: State, e: Env, list: map<int, VoteMap>)
    requires Injective(s.ids, s.nextId) && Within(s.vim, s.ids)
    ensures var s1 := Register(s, e, list).0;
            var unseen := NewKeys(s.vim, list) != {};
            var stored := unseen && e.insertOk && InsertAllowed(s.ids, e.infos);
            && (unseen && e.fetchOk ==> s1.vim == s1.ids)
            && (!unseen || !e.fetchOk ==> s1.vim == s.vim)
            && s1.ids.Keys == s.ids.Keys + (if stored then set pk | pk in e.infos else {})
            && (!stored ==> s1.ids == s.ids && s1.nextId == s.nextId)
  {
    hide NewKeys, InsertAllowed, Insert;
    RegisterKeeps(s, e, list);
    if InsertAllowed(s.ids, e.infos) {
      InsertKeeps(s.ids, s.nextId, e.infos);
    }
    CoveredBy(s.vim, s.ids);
    CoveredBy(s.vim, Insert(s.ids, s.nextId, e.infos).0);
    if InsertAllowed(s.ids, e.infos) {
      WithinTrans(s.vim, s.ids, Insert(s.ids, s.nextId, e.infos).0);
    }
  }

  lemma CoveredBy(vim: IdMap, ids: IdMap)
    ensures Within(vim, ids) ==> vim + ids == ids
  {
  }

  /** So when another service was first, the retry of the same batch has no unseen key left that the
      table knows: a list that names the unseen keys once is accepted. */
  lemma RetryAccepted(s: State, e: Env, list: map<int, VoteMap>, e': Env)
    requires Injective(s.ids, s.nextId) && Within(s.vim, s.ids) && e.fetchOk && NewKeys(s.vim, list) != {}
    requires var s1 := Register(s, e, list).0;
             && e'.insertOk && e'.fetchOk && Distinct(e'.infos)
             && forall i :: 0 <= i < |e'.infos| ==> e'.infos[i] in NewKeys(s1.vim, list)
    ensures Register(Register(s, e, list).0, e', list).1
  {
    hide Register, Insert;
    RegisterRereads(s, e, list);
    var s1 := Register(s, e, list).0;
    forall i | 0 <= i < |e'.infos| ensures e'.infos[i] !in s1.ids {
      NewKeysExactly(s1.vim, list, e'.infos[i]);
    }
    RegisterExact(s1, e', list);
  }

  // ---------------------------------------------------------------- a panic

  ghost predicate SilentBeforeUnknown(c: Chain, vim: IdMap, silent: set<int>, start: int, last: int) {
    exists h :: start <= h <= last && h in silent && AllCached(c, vim, start - 1, h - 1)
  }

  lemma {:induction false} BuildPanics(c: Chain, vim: IdMap, start: int, end: int, last: int, silent: set<int>)
    requires 1 <= start && start - 1 <= last <= end
    ensures Build(Collected(c, start, end, silent), vim, start, last).Panic? <==>
            SilentBeforeUnknown(c, vim, silent, start, last)
    decreases last - start
  {
    hide VotesAt, RowSet;
    if start <= last {
      BuildPanics(c, vim, start, end, last - 1, silent);
      BuildExact(c, vim, start, end, last - 1, silent);
      NoIdMeansUnknown(c, vim, start, end, last - 1, silent);
      assert last in Collected(c, start, end, silent) <==> last !in silent;
    }
  }

  lemma {:induction false} NoIdMeansUnknown(c: Chain, vim: IdMap, start: int, end: int, last: int, silent: set<int>)
    requires 1 <= start && start - 1 <= last <= end
    ensures Build(Collected(c, start, end, silent), vim, start, last).NoId? ==> !AllCached(c, vim, start - 1, last)
    decreases last - start
  {
    hide VotesAt, RowSet;
    if start <= last {
      NoIdMeansUnknown(c, vim, start, end, last - 1, silent);
    }
  }

  /** The process panics exactly when no worker reports a failure, registration succeeds, and a silent
      worker's height comes up before a key without id; it is skipped exactly when there is nothing
      to fetch. */
  lemma PanicsExactly(c: Chain, s: State, e: Env)
    requires s.mem >= 0
    ensures var start, end := s.mem + 1, EndHeight(s.mem, e.latest);
            var (s1, ok) := Register(s, e, Collected(c, start, end, e.silent));
            var out := Batch(c, s, e).1;
            && (out == Panicked <==>
                && s.mem < e.latest - 3 && ok && SilentBeforeUnknown(c, s1.vim, e.silent, start, end)
                && forall h :: start <= h <= end ==> h !in e.failed && (h in e.silent || c.voted(h) != []))
            && (out == Skipped <==> s.mem >= e.latest - 3)
  {
    hide Register, Build, Clash, VotesAt, AllCached, SilentBeforeUnknown, Collected;
    var start, end := s.mem + 1, EndHeight(s.mem, e.latest);
    if s.mem < e.latest - 3 {
      var s1 := Register(s, e, Collected(c, start, end, e.silent)).0;
      BuildPanics(c, s1.vim, start, end, end, e.silent);
      NobodyFailed(c, e.failed, e.silent, start, end);
    }
  }

  lemma NobodyFailed(c: Chain, failed: set<int>, silent: set<int>, start: int, end: int)
    ensures !SomeFailed(c, failed, silent, start, end) <==>
            forall h :: start <= h <= end ==> h !in failed && (h in silent || c.voted(h) != [])
  {
    if !SomeFailed(c, failed, silent, start, end) {
      forall h | start <= h <= end ensures h !in failed && (h in silent || c.voted(h) != []) {
        assert !Fails(c, failed, silent, h);
      }
    }
  }

  // ---------------------------------------------------------------- a new process

  /** A new process reads pointer and ids from the tables, after a crash and after a panic, however
      stale memory was. */
  lemma RestartRecovers(c: Chain, s: State, ev: Event)
    requires ev.Crash? || (ev.Sync? && Batch(c, s, ev.env).1 == Panicked)
    ensures var before, r := if ev.Crash? then s else Batch(c, s, ev.env).0, Step(c, s, ev);
            && r.mem == r.pointer == before.pointer && r.vim == before.ids && r.ids == before.ids
            && r.votes == before.votes && r.nextId == before.nextId
  {
    hide Batch;
  }

  /** And so the first good batch after a crash commits and advances from the persisted pointer. */
  lemma CrashThenAdvances(c: Chain, s: State, e: Env, p0: int)
    requires Inv(c, s, p0) && s.pointer < e.latest - 3 && Good(c, Step(c, s, Crash), e)
    ensures var (r, out) := Batch(c, Step(c, s, Crash), e);
            out == Committed && r.pointer == r.mem == Windows.Min(s.pointer + 11, e.latest - 3)
  {
    hide Batch, Good, Inv;
    RestartKeeps(c, s, p0);
    RestartRecovers(c, s, Crash);
    GoodBatchAdvances(c, Step(c, s, Crash), e, p0);
  }

  /** Another service's keys are in the table afterwards, or none of them is added. */
  lemma OtherServiceStores(c: Chain, s: State, infos: seq<Pk>)
    requires Injective(s.ids, s.nextId)
    ensures var r := Step(c, s, OtherService(infos));
            && (InsertAllowed(s.ids, infos) ==> r.ids.Keys == s.ids.Keys + set pk | pk in infos)
            && (!InsertAllowed(s.ids, infos) ==> r == s)
            && r.votes == s.votes && r.pointer == s.pointer && r.mem == s.mem && r.vim == s.vim
  {
    hide InsertAllowed, Insert;
    if InsertAllowed(s.ids, infos) {
      InsertKeeps(s.ids, s.nextId, infos);
    }
  }
}
