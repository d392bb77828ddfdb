/** Progress of the vote indexer: when every call succeeds, batches close the gap to the latest
    height in steps of eleven
    (internal/packages/consensus/voteindexer/indexer/batch_sync.go, lines 21-34 and 243-250). */
module VoteProgress {
  import opened VoteChain
  import opened VoteSync
  import opened Windows

  /** Every worker delivers. */
  predicate Delivered(s: State, e: Env) {
    && e.baseOk
    && (forall h :: s.mem + 1 <= h <= EndHeight(s.mem, e.latest) ==> h !in e.failed && h !in e.silent)
  }

  /** Besides, no database call fails and the commit is acknowledged. */
  predicate Clean(s: State, e: Env) {
    Delivered(s, e) && e.upsertOk && e.fetchOk && e.commit == Applied
  }

  /** Besides, the info list names every unseen address, no operator twice. */
  ghost predicate Good(c: Chain, s: State, e: Env) {
    && Clean(s, e) && OwnInfos(c, e.infos) && DistinctOperators(e.infos)
    && Lists(e.infos, NewAddresses(s.vim, Window(c, s, e)))
  }

  /** What a batch collects. */
  function Window(c: Chain, s: State, e: Env): SummaryMap {
    Collected(c, s.mem + 1, EndHeight(s.mem, e.latest), e.silent)
  }

  /** Every address mentioned at the heights [lo, hi) is cached. */
  ghost predicate AllCached(c: Chain, vim: IdMap, lo: int, hi: int) {
    forall h :: lo <= h < hi ==> Mentioned(c.block(h)) <= vim.Keys
  }

  ghost predicate Lists(infos: seq<Info>, addresses: set<Address>) {
    forall a :: a in addresses ==> exists i :: 0 <= i < |infos| && infos[i].hex == a
  }

  lemma CachedAfterReload(vim: IdMap, info: UniqueTable, op: Operator)
    requires op in info
    ensures info[op].hex in Reload(vim, info)
  {
  }

  lemma RegisterCovers(c: Chain, s: State, e: Env, list: SummaryMap, h: int)
    requires TableValid(c, s.info, s.nextId) && h in list
    requires e.upsertOk && e.fetchOk && OwnInfos(c, e.infos) && DistinctOperators(e.infos)
    requires Lists(e.infos, NewAddresses(s.vim, list))
    ensures Register(s, e, list).1 && Mentioned(list[h]) <= Register(s, e, list).0.vim.Keys
  {
    hide TableValid, UniqueHex, Upsert, Reload;
    UpsertKeeps(c, s.info, s.nextId, e.infos);
    var (info, nextId) := Upsert(s.info, s.nextId, e.infos);
    ValidTableIsUnique(c, info, nextId);
    forall a | a in Mentioned(list[h]) ensures a in Register(s, e, list).0.vim {
      if a !in s.vim {
        assert a in NewAddresses(s.vim, list);
        var i :| 0 <= i < |e.infos| && e.infos[i].hex == a;
        UpsertStores(s.info, s.nextId, e.infos, i);
        CachedAfterReload(s.vim, info, e.infos[i].operator);
      } else {
        ReloadGrows(s.vim, info, a);
      }
    }
  }

  lemma ReloadGrows(vim: IdMap, info: UniqueTable, a: Address)
    requires a in vim
    ensures a in Reload(vim, info)
  {
  }

  /** Over a complete window rows are built exactly when every address below the end is cached. */
  lemma {:induction false} BuildExact(c: Chain, info: InfoTable, nextId: int, vim: IdMap, start: int, last: int,
                                      list: SummaryMap)
    requires Honest(c) && TableValid(c, info, nextId) && CacheValid(c, info, vim) && 2 <= start && start - 1 <= last
    requires forall h :: start - 1 <= h <= last ==> h in list && list[h] == c.block(h)
    ensures var built := Build(list, vim, start, last);
            !built.Panic? && (built.Rows? <==> AllCached(c, vim, start - 1, last))
    decreases last - start
  {
    hide TableValid, CacheValid, MakeVotes, Mentioned, VoteList, KnownAt, DistinctOwners;
    if start <= last {
      BuildExact(c, info, nextId, vim, start, last - 1, list);
      assert HonestAt(c, last - 1);
      MakeVotesCorrect(c, info, nextId, vim, last - 1);
    }
  }

  /** Over any window that takes every worker and every address below the end. */
  lemma {:induction false} BuildNeeds(c: Chain, info: InfoTable, nextId: int, vim: IdMap, start: int, end: int,
                                      list: SummaryMap, last: int, silent: set<int>)
    requires Honest(c) && TableValid(c, info, nextId) && CacheValid(c, info, vim)
    requires 2 <= start && start - 1 <= last <= end && list == Collected(c, start, end, silent)
    ensures Build(list, vim, start, last).Rows? ==>
              AllCached(c, vim, start - 1, last) && forall h :: start <= h <= last ==> h !in silent
    decreases last - start
  {
    hide TableValid, CacheValid, MakeVotes, KnownAt, VoteList, Mentioned, DistinctOwners;
    if start <= last && Build(list, vim, start, last).Rows? {
      BuildNeeds(c, info, nextId, vim, start, end, list, last - 1, silent);
      BuildCorrect(c, info, nextId, vim, start, end, list, last - 1, silent);
      BuildCorrect(c, info, nextId, vim, start, end, list, last, silent);
      assert HonestAt(c, last - 1);
      MakeVotesCorrect(c, info, nextId, vim, last - 1);
    }
  }

  /** Registration succeeds exactly when there is nothing to register, or both calls work and no
      operator is listed twice. */
  lemma RegisterExact(c: Chain, s: State, e: Env, list: SummaryMap)
    requires TableValid(c, s.info, s.nextId) && OwnInfos(c, e.infos)
    ensures Register(s, e, list).1 <==>
            NewAddresses(s.vim, list) == {} || (e.upsertOk && e.fetchOk && DistinctOperators(e.infos))
  {
    hide TableValid, UniqueHex, Upsert, Reload, DistinctOperators, OwnInfos;
    UpsertKeeps(c, s.info, s.nextId, e.infos);
    var later := Upsert(s.info, s.nextId, e.infos);
    ValidTableIsUnique(c, later.0, later.1);
  }

  /** After a successful registration an address is cached exactly when it was before, or when it is
      the key of its operator's row in the table just read. */
  lemma CachedExactly(c: Chain, s: State, e: Env, list: SummaryMap, a: Address)
    requires TableValid(c, s.info, s.nextId) && OwnInfos(c, e.infos) && Register(s, e, list).1
    ensures var s1 := Register(s, e, list).0;
            var op := c.owner(a);
            a in s1.vim <==> a in s.vim || (NewAddresses(s.vim, list) != {} && op in s1.info && s1.info[op].hex == a)
  {
    hide TableValid, UniqueHex, Upsert, Reload, OwnInfos;
    UpsertKeeps(c, s.info, s.nextId, e.infos);
    var later := Upsert(s.info, s.nextId, e.infos);
    ValidTableIsUnique(c, later.0, later.1);
    ReloadByOwner(c, s.vim, later.0, later.1, a);
  }

  /** Exactly when a batch writes, whatever fails: there is something to fetch, every worker delivers,
      registration succeeds, every address below the end is then cached, and the rows do not clash
      with stored ones. */
  ghost predicate Writes(c: Chain, s: State, e: Env) {
    var end := EndHeight(s.mem, e.latest);
    var (s1, ok) := Register(s, e, Window(c, s, e));
    && s.mem < e.latest && Delivered(s, e) && ok && AllCached(c, s1.vim, s.mem, end)
    && DistinctKeys(s.votes + Expected(c, s1.info, s.mem, end))
  }

  /** Then the expected rows and the end are written unless the commit is refused; else nothing is. */
  lemma CommitsExactly(c: Chain, s: State, e: Env)
    requires Honest(c) && TableValid(c, s.info, s.nextId) && CacheValid(c, s.info, s.vim)
    requires 1 <= s.mem && OwnInfos(c, e.infos)
    ensures var end := EndHeight(s.mem, e.latest);
            var s1 := Register(s, e, Window(c, s, e)).0;
            var (r, out) := Batch(c, s, e);
            && (out == Committed <==> Writes(c, s, e) && e.commit == Applied)
            && r.mem == (if out == Committed then end else s.mem)
            && (if Writes(c, s, e) && e.commit != Refused then
                  r.pointer == end && r.votes == s.votes + Expected(c, s1.info, s.mem, end)
                else r.pointer == s.pointer && r.votes == s.votes)
            && (s.mem < e.latest && Clean(s, e) && out != Committed ==> out == Failed && r == s1)
  {
    hide DistinctKeys, TableValid, CacheValid, Register, Build, Mentioned, Expected, OwnInfos, AllCached;
    if s.mem < e.latest {
      var start, end, list := s.mem + 1, EndHeight(s.mem, e.latest), Window(c, s, e);
      var s1 := Register(s, e, list).0;
      RegisterKeeps(c, s, e, list);
      BuildNeeds(c, s1.info, s1.nextId, s1.vim, start, end, list, end, e.silent);
      BuildCorrect(c, s1.info, s1.nextId, s1.vim, start, end, list, end, e.silent);
      if Delivered(s, e) {
        BuildExact(c, s1.info, s1.nextId, s1.vim, start, end, list);
      }
    }
  }

  lemma CachedIsKnown(c: Chain, info: InfoTable, vim: IdMap, lo: int, hi: int)
    requires CacheValid(c, info, vim) && AllCached(c, vim, lo, hi)
    ensures Known(c, info, lo, hi)
  {
    forall h | lo <= h < hi ensures KnownAt(c, info, h) {
      forall a | a in c.block(h).validators ensures c.owner(a) in info {
        assert a in Mentioned(c.block(h));
      }
    }
  }

  /** A height of the batch is stored already. */
  predicate Overlaps(votes: seq<Vote>, lo: int, hi: int) {
    exists i :: 0 <= i < |votes| && lo <= votes[i].height < hi
  }

  lemma DistinctApart(votes: seq<Vote>, rows: seq<Vote>)
    requires DistinctKeys(votes) && DistinctKeys(rows)
    requires forall i, j :: 0 <= i < |votes| && 0 <= j < |rows| ==> votes[i].height != rows[j].height
    ensures DistinctKeys(votes + rows)
  {
  }

  /** New rows fit exactly when none of their heights is stored. */
  lemma FitsExactly(c: Chain, s: State, p0: int, lo: int, end: int)
    requires Honest(c) && Inv(c, s, p0, lo) && Known(c, s.info, s.mem, end)
    ensures DistinctKeys(s.votes + Expected(c, s.info, s.mem, end)) <==> !Overlaps(s.votes, s.mem, end)
  {
    hide DistinctKeys, TableValid, CacheValid;
    var rows := Expected(c, s.info, s.mem, end);
    if i :| 0 <= i < |s.votes| && s.mem <= s.votes[i].height < end {
      var h, k := ExpectedOrigin(c, s.info, lo, s.pointer, i);
      ExpectedContains(c, s.info, s.mem, end, h, k);
      Clashes(s.votes, rows, s.votes[i]);
    } else {
      forall h | lo <= h < s.pointer ensures KnownAt(c, s.info, h) {
      }
      ExpectedDistinct(c, s.info, s.nextId, lo, s.pointer);
      ExpectedDistinct(c, s.info, s.nextId, s.mem, end);
      forall i, j | 0 <= i < |s.votes| && 0 <= j < |rows| ensures s.votes[i].height != rows[j].height {
        var h, k := ExpectedOrigin(c, s.info, s.mem, end, j);
      }
      DistinctApart(s.votes, rows);
    }
  }

  /** Exactly when a batch of any reachable state writes, and exactly when a process in step with the
      table advances: every worker delivers, registration succeeds, every address mentioned below the
      end is then cached, and no height of the batch is stored, which in step it never is. */
  lemma AdvancesExactly(c: Chain, s: State, e: Env, p0: int, lo: int)
    requires Honest(c) && Inv(c, s, p0, lo) && OwnInfos(c, e.infos)
    ensures var end := EndHeight(s.mem, e.latest);
            var (s1, ok) := Register(s, e, Window(c, s, e));
            var (r, out) := Batch(c, s, e);
            && (out == Committed <==> Writes(c, s, e) && e.commit == Applied)
            && (out == Committed ==> r.pointer == r.mem == Min(s.mem + 11, e.latest))
            && (Writes(c, s, e) <==>
                && s.mem < e.latest && Delivered(s, e) && ok && AllCached(c, s1.vim, s.mem, end)
                && !Overlaps(s.votes, s.mem, end))
            && (s.mem == s.pointer ==> !Overlaps(s.votes, s.mem, end))
            && (Clean(s, e) ==> (ok <==> NewAddresses(s.vim, Window(c, s, e)) == {} || DistinctOperators(e.infos)))
  {
    hide DistinctKeys, Register, Build, Batch, OwnInfos, DistinctOperators, NewAddresses, AllCached, Window, Expected;
    var end := EndHeight(s.mem, e.latest);
    var s1 := Register(s, e, Window(c, s, e)).0;
    if Clean(s, e) {
      RegisterExactWhenClean(c, s, e);
    }
    RegisterKeeps(c, s, e, Window(c, s, e));
    InvExtends(c, s, s1, p0, lo);
    if AllCached(c, s1.vim, s.mem, end) {
      CachedIsKnown(c, s1.info, s1.vim, s.mem, end);
      FitsExactly(c, s1, p0, lo, end);
    }
    if s.mem == s.pointer {
      NothingAbove(c, s, p0, lo);
    }
    CommitsExactly(c, s, e);
  }

  lemma NothingAbove(c: Chain, s: State, p0: int, lo: int)
    requires Inv(c, s, p0, lo)
    ensures forall i :: 0 <= i < |s.votes| ==> s.votes[i].height < s.pointer
  {
    hide TableValid, CacheValid;
    forall i | 0 <= i < |s.votes| ensures s.votes[i].height < s.pointer {
      var h, k := ExpectedOrigin(c, s.info, lo, s.pointer, i);
    }
  }

  lemma RegisterExactWhenClean(c: Chain, s: State, e: Env)
    requires TableValid(c, s.info, s.nextId) && OwnInfos(c, e.infos) && Clean(s, e)
    ensures var list := Window(c, s, e);
            Register(s, e, list).1 <==> NewAddresses(s.vim, list) == {} || DistinctOperators(e.infos)
  {
    RegisterExact(c, s, e, Window(c, s, e));
  }

  /** A list that names every unseen address, no operator twice, is enough. */
  lemma GoodIsCached(c: Chain, s: State, e: Env)
    requires TableValid(c, s.info, s.nextId) && Good(c, s, e)
    ensures var (s1, ok) := Register(s, e, Window(c, s, e));
            ok && AllCached(c, s1.vim, s.mem, EndHeight(s.mem, e.latest))
  {
    hide TableValid, Register, OwnInfos, DistinctOperators, Mentioned;
    var end, list := EndHeight(s.mem, e.latest), Window(c, s, e);
    RegisterExact(c, s, e, list);
    forall h | s.mem <= h < end ensures Mentioned(c.block(h)) <= Register(s, e, list).0.vim.Keys {
      RegisterCovers(c, s, e, list, h);
    }
  }

  /** So a good batch moves the pointer to min(latest, pointer + 11). */
  lemma GoodBatchAdvances(c: Chain, s: State, e: Env, p0: int, lo: int)
    requires Honest(c) && Inv(c, s, p0, lo) && s.mem == s.pointer < e.latest && Good(c, s, e)
    ensures var (s1, out) := Batch(c, s, e);
            out == Committed && s1.pointer == s1.mem == Min(s.pointer + 11, e.latest)
  {
    hide Register, Batch, AllCached, Window, TableValid, CacheValid, DistinctKeys, Overlaps, OwnInfos;
    GoodIsCached(c, s, e);
    AdvancesExactly(c, s, e, p0, lo);
  }

  function Syncs(envs: seq<Env>): (r: seq<Event>)
    ensures |r| == |envs| && forall i :: 0 <= i < |envs| ==> r[i] == Sync(envs[i])
  {
    seq(|envs|, i requires 0 <= i < |envs| => Sync(envs[i]))
  }

  /** All batches see the same latest height and none fails before it is reached. */
  ghost predicate GoodRun(c: Chain, s: State, envs: seq<Env>, latest: int) {
    forall i :: 0 <= i < |envs| ==>
      envs[i].latest == latest &&
      (s.pointer + BATCH_HEIGHTS * i < latest ==> Good(c, Run(c, s, Syncs(envs[..i])), envs[i]))
  }

  lemma SyncsInit(envs: seq<Env>)
    requires envs != []
    ensures Syncs(envs)[..|envs| - 1] == Syncs(envs[..|envs| - 1])
  {
  }

  lemma GoodRunInit(c: Chain, s: State, envs: seq<Env>, latest: int)
    requires envs != [] && GoodRun(c, s, envs, latest)
    ensures var n := |envs| - 1;
            && GoodRun(c, s, envs[..n], latest) && envs[n].latest == latest
            && (s.pointer + BATCH_HEIGHTS * n < latest ==> Good(c, Run(c, s, Syncs(envs[..n])), envs[n]))
  {
    hide Good, Run;
    var init := envs[..|envs| - 1];
    forall i | 0 <= i < |init|
      ensures init[i].latest == latest
      ensures s.pointer + BATCH_HEIGHTS * i < latest ==> Good(c, Run(c, s, Syncs(init[..i])), init[i])
    {
      assert init[..i] == envs[..i];
    }
  }

  /** Catch-up is exact: after n good batches the pointer is min(latest, pointer + 11 n), so it
      reaches latest after ceil(gap / 11) batches, not before, and stays there. */
  lemma {:induction false} CatchUp(c: Chain, s: State, envs: seq<Env>, latest: int, p0: int, lo: int)
    requires Honest(c) && Inv(c, s, p0, lo) && s.mem == s.pointer <= latest && GoodRun(c, s, envs, latest)
    ensures var r := Run(c, s, Syncs(envs));
            && Inv(c, r, p0, lo) && r.mem == r.pointer
            && r.pointer == Min(s.pointer + 11 * |envs|, latest)
            && (r.pointer == latest <==> 11 * |envs| >= latest - s.pointer)
    decreases |envs|
  {
    hide Inv, Batch, Good, GoodRun, Honest;
    if envs != [] {
      var init, e := envs[..|envs| - 1], envs[|envs| - 1];
      GoodRunInit(c, s, envs, latest);
      CatchUp(c, s, init, latest, p0, lo);
      SyncsInit(envs);
      CatchUpStep(c, Run(c, s, Syncs(init)), e, p0, lo);
    }
  }

  lemma CatchUpStep(c: Chain, s: State, e: Env, p0: int, lo: int)
    requires Honest(c) && Inv(c, s, p0, lo) && s.mem == s.pointer <= e.latest
    requires s.pointer < e.latest ==> Good(c, s, e)
    ensures var r := Step(c, s, Sync(e));
            && Inv(c, r, p0, lo) && r.mem == r.pointer
            && r.pointer == Min(s.pointer + BATCH_HEIGHTS, e.latest)
  {
    hide Inv, Honest;
    if s.mem < e.latest {
      hide Batch;
      var lo' := BatchKeeps(c, s, e, p0, lo);
      GoodBatchAdvances(c, s, e, p0, lo);
    }
  }

  // ---------------------------------------------------------------- a list that is refused

  /** A list that names an operator twice is refused as a whole: the batch fails and, but for a
      reread cache, changes nothing. */
  lemma RepeatedOperatorFails(c: Chain, s: State, e: Env, a: Address)
    requires !DistinctOperators(e.infos) && s.mem < e.latest && a in NewAddresses(s.vim, Window(c, s, e))
    ensures var (s1, out) := Batch(c, s, e);
            && out == Failed && s1.(vim := s.vim) == s
            && (s1.vim == s.vim || s1.vim == Reload(s.vim, s.info))
  {
    hide Build, Reload, Upsert, UniqueHex, DistinctOperators, NewAddresses;
  }

  // ---------------------------------------------------------------- going back

  lemma ReturningCommits(c: Chain, s: State, e: Env, p0: int, lo: int)
    requires Honest(c) && Inv(c, s, p0, lo) && Good(c, s, e) && GoesBack(s, e)
    ensures var (s1, out) := Batch(c, s, e);
            && out == Committed && s1.pointer == s1.mem == EndHeight(s.mem, e.latest)
            && exists rows :: s1.votes == s.votes + rows
  {
    var end := EndHeight(s.mem, e.latest);
    NothingBelow(c, s, p0, lo, end);
    hide DistinctKeys, TableValid, CacheValid, Register, Build, Batch, AllCached;
    var s1 := Register(s, e, Window(c, s, e)).0;
    GoodIsCached(c, s, e);
    RegisterKeeps(c, s, e, Window(c, s, e));
    InvExtends(c, s, s1, p0, lo);
    CachedIsKnown(c, s1.info, s1.vim, s.mem, end);
    StaleFitsExactly(c, s1, p0, lo, end);
    CommitsExactly(c, s, e);
  }

  lemma GoodOwns(c: Chain, s: State, e: Env)
    requires Good(c, s, e)
    ensures OwnInfos(c, e.infos)
  {
  }

  /** A good batch moves the persisted pointer back exactly when it ends below it and no stored row
      lies below that end. */
  lemma ReturnsExactly(c: Chain, s: State, e: Env, p0: int, lo: int)
    requires Honest(c) && Inv(c, s, p0, lo) && Good(c, s, e)
    ensures Batch(c, s, e).0.pointer < s.pointer <==> GoesBack(s, e)
  {
    if GoesBack(s, e) {
      ReturningCommits(c, s, e, p0, lo);
    } else {
      hide Batch, Inv, Honest, GoesBack, Good;
      NotStranding(s, e);
      GoodOwns(c, s, e);
      var lo' := BatchKeeps(c, s, e, p0, lo);
    }
  }

  lemma NotStranding(s: State, e: Env)
    requires !GoesBack(s, e)
    ensures !Strands(s, e)
  {
  }

  /** A good batch leaves a table that is not the rows of one interval below the pointer exactly
      when, besides, a row is stored: then rows at and above the pointer stay behind. */
  lemma StrandsExactly(c: Chain, s: State, e: Env, p0: int, lo: int)
    requires Honest(c) && Inv(c, s, p0, lo) && Good(c, s, e)
    ensures (exists lo' :: Inv(c, Batch(c, s, e).0, p0, lo')) <==> !Strands(s, e)
  {
    if Strands(s, e) {
      ReturningCommits(c, s, e, p0, lo);
      var s1 := Batch(c, s, e).0;
      hide Batch, Good;
      assert s1.votes[0] == s.votes[0];
      forall lo' ensures !Inv(c, s1, p0, lo') {
        if Inv(c, s1, p0, lo') {
          var h, k := ExpectedOrigin(c, s1.info, lo', s1.pointer, 0);
          assert false;
        }
      }
    } else {
      hide Batch, Inv, Honest, Strands, Good;
      GoodOwns(c, s, e);
      var lo' := BatchKeeps(c, s, e, p0, lo);
    }
  }

  /** A lost acknowledgement changes nothing but what the process remembers. */
  lemma LostAcknowledgement(c: Chain, s: State, e: Env)
    requires e.commit == Unacknowledged && Batch(c, s, e.(commit := Applied)).1 == Committed
    ensures Batch(c, s, e) == (Batch(c, s, e.(commit := Applied)).0.(mem := s.mem), Failed)
  {
    var end := EndHeight(s.mem, e.latest);
    hide Register, Build, Collected;
    RegisterFrame(s, e, Collected(c, s.mem + 1, end, e.silent), Applied);
  }

  /** The way there: a lost acknowledgement, retention of the rows below the later end, and a lower
      latest height. The pointer goes back, and rows are stranded exactly when retention has kept
      one. */
  lemma DropAfterRetentionReturns(c: Chain, s: State, e: Env, cutoff: int, e': Env, p0: int, lo: int)
    requires Honest(c) && Timely(c) && Inv(c, s, p0, lo) && s.mem == s.pointer < e.latest
    requires e.commit == Unacknowledged && Good(c, s, e.(commit := Applied))
    requires s.mem < e'.latest && EndHeight(s.mem, e'.latest) < EndHeight(s.mem, e.latest)
    requires forall h :: lo <= h < EndHeight(s.mem, e'.latest) ==> c.block(h).timestamp < cutoff
    requires Good(c, Step(c, Step(c, s, Sync(e)), Retention(cutoff)), e')
    ensures var s1 := Step(c, s, Sync(e));
            var s2 := Step(c, s1, Retention(cutoff));
            var r := Step(c, s2, Sync(e'));
            && r.pointer == EndHeight(s.mem, e'.latest) < s1.pointer == EndHeight(s.mem, e.latest)
            && (Strands(s2, e') <==> c.block(s1.pointer - 1).timestamp >= cutoff)
            && ((exists l :: Inv(c, r, p0, l)) <==> c.block(s1.pointer - 1).timestamp < cutoff)
  {
    hide Batch, Good, TableValid, CacheValid;
    GoodBatchAdvances(c, s, e.(commit := Applied), p0, lo);
    LostAcknowledgement(c, s, e);
    GoodOwns(c, s, e.(commit := Applied));
    var lo1 := BatchKeeps(c, s, e, p0, lo);
    var s1 := Step(c, s, Sync(e));
    var lo2 := RetentionKeeps(c, s1, cutoff, p0, lo);
    var s2 := Step(c, s1, Retention(cutoff));
    assert c.block(EndHeight(s.mem, e'.latest) - 1).timestamp < cutoff;
    NothingBelow(c, s2, p0, lo2, EndHeight(s.mem, e'.latest));
    assert lo2 == s1.pointer <==> c.block(s1.pointer - 1).timestamp < cutoff;
    hide Inv;
    ReturningCommits(c, s2, e', p0, lo2);
    StrandsExactly(c, s2, e', p0, lo2);
  }
}
