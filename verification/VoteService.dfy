/** The vote indexer's objects, method by method, proved against the state machine
    (internal/packages/consensus/voteindexer/indexer/batch_sync.go and indexer.go;
    internal/packages/consensus/voteindexer/repository/repository.go, lines 33-89 and 121-152;
    internal/common/indexer/repository/validator_info.go, lines 45-77). */
module VoteService {
  import opened VoteChain
  import opened VoteSync
  import opened VoteDetails
  import opened IntSets
  import opened Windows

  // ---------------------------------------------------------------- the database

  class Repository {
    var votes: seq<Vote>
    var pointer: int
    var info: UniqueTable
    var nextId: int

    /** Rows and pointer change together or not at all. */
    method InsertValidatorVoteList(list: seq<Vote>, height: int, commit: Commit) returns (ok: bool)
      requires DistinctKeys(votes)
      modifies this`votes, this`pointer
      ensures DistinctKeys(votes)
      ensures commit == Refused || !DistinctKeys(old(votes) + list) ==>
                !ok && votes == old(votes) && pointer == old(pointer)
      ensures commit != Refused && DistinctKeys(old(votes) + list) ==>
                ok == (commit == Applied) && votes == old(votes) + list && pointer == height
    {
      if list == [] {
        assert votes + list == votes;
        if commit == Refused {
          return false;
        }
        pointer := height;
        return commit == Applied;
      }
      var inserted := votes + list;
      if commit == Refused || !DistinctKeys(inserted) {
        return false;
      }
      votes := inserted;
      pointer := height;
      return commit == Applied;
    }

    method InsertValidatorInfoList(infos: seq<Info>, allowed: bool) returns (ok: bool)
      modifies this`info, this`nextId
      ensures ok == (allowed && UpsertAllowed(old(info), old(nextId), infos))
      ensures (info, nextId) == if ok then Upsert(old(info), old(nextId), infos) else (old(info), old(nextId))
    {
      if !allowed || !DistinctOperators(infos) {
        return false;
      }
      var table: InfoTable := info;
      var id := nextId;
      for i := 0 to |infos|
        invariant (table, id) == Upsert(info, nextId, infos[..i])
      {
        var x := infos[i];
        assert infos[..i + 1][..i] == infos[..i];
        if x.operator in table {
          table := table[x.operator := table[x.operator].(hex := x.hex)];
        } else {
          table, id := table[x.operator := InfoRow(id, x.hex, x.moniker)], id + 1;
        }
      }
      assert infos[..|infos|] == infos;
      ok := UniqueHex(table);
      if ok {
        info, nextId := table, id;
      }
    }

    method DeleteOldValidatorVoteList(cutoff: int)
      modifies this`votes
      ensures votes == Filter(old(votes), Since(cutoff))
    {
      var kept: seq<Vote> := [];
      for i := 0 to |votes|
        invariant kept == Filter(votes[..i], Since(cutoff))
      {
        assert votes[..i + 1][..i] == votes[..i];
        if votes[i].timestamp >= cutoff {
          kept := kept + [votes[i]];
        }
      }
      assert votes[..|votes|] == votes;
      votes := kept;
    }
  }

  // ---------------------------------------------------------------- loops without state

  /** What has been received once the workers not in `pending` are done. */
  function Received(c: Chain, start: int, end: int, silent: set<int>, pending: set<int>): SummaryMap {
    map h | start - 1 <= h <= end && (h == start - 1 || (h !in silent && h !in pending)) :: c.block(h)
  }

  /** Worker results arrive in any order; a silent worker delivers nothing. */
  method CollectSummaries(c: Chain, start: int, end: int, failed: set<int>, silent: set<int>)
    returns (list: SummaryMap, errorCount: nat)
    requires Honest(c) && 1 <= start <= end
    ensures errorCount > 0 <==> SomeFailed(failed, start, end)
    ensures errorCount == 0 ==> list == Collected(c, start, end, silent)
  {
    var pending := StartWorkers(start, end);
    list := map[start - 1 := c.block(start - 1)];
    errorCount := 0;
    while pending != {}
      invariant forall h :: h in pending ==> start <= h <= end
      invariant errorCount == 0 ==> list == Received(c, start, end, silent, pending)
      invariant errorCount > 0 <==> exists h :: start <= h <= end && h !in pending && h in failed
      decreases |pending|
    {
      SomeMember(pending);
      var h :| h in pending;
      pending := pending - {h};
      if h in failed {
        errorCount := errorCount + 1;
      } else if h !in silent {
        var item := c.block(h);
        assert HonestAt(c, h);
        list := list[item.height := item];
      }
    }
    assert Received(c, start, end, silent, {}) == Collected(c, start, end, silent);
  }

  method AddUnseen(b: Summary, vim: IdMap, found: set<Address>) returns (r: set<Address>)
    ensures r == found + (Mentioned(b) - vim.Keys)
  {
    r := found;
    if b.proposer !in vim {
      r := r + {b.proposer};
    }
    for k := 0 to |b.validators|
      invariant r == found + ({b.proposer} + (set a | a in b.validators[..k]) - vim.Keys)
    {
      if b.validators[k] !in vim {
        r := r + {b.validators[k]};
      }
    }
    assert b.validators[..|b.validators|] == b.validators;
  }

  function UnseenAt(vim: IdMap, list: SummaryMap, heights: set<int>): set<Address> {
    set h, a | h in heights && h in list && a in Mentioned(list[h]) && a !in vim :: a
  }

  lemma UnseenGrows(vim: IdMap, list: SummaryMap, heights: set<int>, h: int)
    requires h in list
    ensures UnseenAt(vim, list, heights + {h}) == UnseenAt(vim, list, heights) + (Mentioned(list[h]) - vim.Keys)
  {
  }

  /** The map is traversed in any order. */
  method FindUnseen(vim: IdMap, list: SummaryMap) returns (found: set<Address>)
    ensures found == NewAddresses(vim, list)
  {
    hide Mentioned;
    found := {};
    var pending, done := list.Keys, {};
    while pending != {}
      invariant pending <= list.Keys && done == list.Keys - pending
      invariant found == UnseenAt(vim, list, done)
      decreases |pending|
    {
      SomeMember(pending);
      var h :| h in pending;
      UnseenGrows(vim, list, done, h);
      pending, done := pending - {h}, done + {h};
      found := AddUnseen(list[h], vim, found);
    }
  }

  method MakeValidatorVoteList(vim: IdMap, prev: Summary, signatures: seq<bool>) returns (r: Built)
    ensures r == MakeVotes(vim, prev, signatures)
  {
    if prev.proposer !in vim {
      NoProposer(vim, prev, signatures, |prev.validators|);
      return NoId;
    }
    var rows: seq<Vote> := [];
    var proposerId := vim[prev.proposer];
    for idx := 0 to |prev.validators|
      invariant VotesUpTo(vim, prev, signatures, idx) == Rows(rows)
    {
      var a := prev.validators[idx];
      if idx >= |signatures| {
        Stuck(vim, prev, signatures, idx + 1, |prev.validators|);
        return Panic;
      }
      if a !in vim {
        Stuck(vim, prev, signatures, idx + 1, |prev.validators|);
        return NoId;
      }
      if !signatures[idx] {
        rows := rows + [Vote(prev.height, prev.timestamp, vim[a], Missed)];
      } else if proposerId == vim[a] {
        rows := rows + [Vote(prev.height, prev.timestamp, vim[a], Proposed)];
      } else {
        rows := rows + [Vote(prev.height, prev.timestamp, vim[a], Voted)];
      }
    }
    return Rows(rows);
  }

  lemma {:induction false} NoProposer(vim: IdMap, prev: Summary, signatures: seq<bool>, n: nat)
    requires n <= |prev.validators| && prev.proposer !in vim
    ensures VotesUpTo(vim, prev, signatures, n) == NoId
  {
    if n > 0 {
      NoProposer(vim, prev, signatures, n - 1);
    }
  }

  lemma {:induction false} Stuck(vim: IdMap, prev: Summary, signatures: seq<bool>, m: nat, n: nat)
    requires m <= n <= |prev.validators| && !VotesUpTo(vim, prev, signatures, m).Rows?
    ensures VotesUpTo(vim, prev, signatures, n) == VotesUpTo(vim, prev, signatures, m)
    decreases n - m
  {
    if m < n {
      Stuck(vim, prev, signatures, m, n - 1);
    }
  }

  method BuildVotes(list: SummaryMap, vim: IdMap, start: int, end: int) returns (r: Built)
    requires start <= end
    ensures r == Build(list, vim, start, end)
  {
    hide MakeVotes, Linked;
    var rows: seq<Vote> := [];
    var height := start;
    while height <= end
      invariant start <= height <= end + 1
      invariant Build(list, vim, start, height - 1) == Rows(rows)
    {
      if !Linked(list, height) {
        StuckBuild(list, vim, start, height, end);
        return Panic;
      }
      var more := MakeValidatorVoteList(vim, Lookup(list, height - 1), Lookup(list, height).signatures);
      if !more.Rows? {
        StuckBuild(list, vim, start, height, end);
        return more;
      }
      rows := rows + more.rows;
      height := height + 1;
    }
    return Rows(rows);
  }

  lemma {:induction false} StuckBuild(list: SummaryMap, vim: IdMap, start: int, m: int, n: int)
    requires m <= n && !Build(list, vim, start, m).Rows?
    ensures Build(list, vim, start, n) == Build(list, vim, start, m)
    decreases n - m
  {
    if m < n {
      StuckBuild(list, vim, start, m, n - 1);
    }
  }

  // ---------------------------------------------------------------- the indexer

  function HexesOf(info: InfoTable, ops: set<Operator>): set<Address> {
    set op | op in ops && op in info :: info[op].hex
  }

  /** The cache once the rows of `ops` are loaded. */
  ghost predicate Loaded(r: IdMap, vim: IdMap, info: InfoTable, ops: set<Operator>) {
    && r.Keys == vim.Keys + HexesOf(info, ops)
    && (forall op :: op in ops && op in info ==> r[info[op].hex] == info[op].id)
    && (forall a :: a in vim && a !in HexesOf(info, ops) ==> r[a] == vim[a])
  }

  lemma HexesGrow(info: InfoTable, ops: set<Operator>, op: Operator)
    requires op in info
    ensures HexesOf(info, ops + {op}) == HexesOf(info, ops) + {info[op].hex}
  {
    assert op in ops + {op};
    forall a | a in HexesOf(info, ops) ensures a in HexesOf(info, ops + {op}) {
      var p :| p in ops && p in info && info[p].hex == a;
      assert p in ops + {op};
    }
  }

  lemma LoadedGrows(r: IdMap, vim: IdMap, info: UniqueTable, ops: set<Operator>, op: Operator)
    requires Loaded(r, vim, info, ops) && op in info && op !in ops
    ensures Loaded(r[info[op].hex := info[op].id], vim, info, ops + {op})
  {
    HexesGrow(info, ops, op);
    hide HexesOf;
  }

  lemma LoadedNone(vim: IdMap, info: InfoTable)
    ensures Loaded(vim, vim, info, {})
  {
  }

  lemma ReloadRow(vim: IdMap, info: UniqueTable, op: Operator)
    requires op in info
    ensures info[op].hex in Reload(vim, info) && Reload(vim, info)[info[op].hex] == info[op].id
  {
  }

  lemma ReloadOther(vim: IdMap, info: UniqueTable, a: Address)
    requires a !in HexesOf(info, info.Keys)
    ensures (a in Reload(vim, info) <==> a in vim) && (a in vim ==> Reload(vim, info)[a] == vim[a])
  {
    forall op | op in info ensures info[op].hex != a {
      assert op in info.Keys;
    }
  }

  lemma LoadedAll(r: IdMap, vim: IdMap, info: UniqueTable)
    requires Loaded(r, vim, info, info.Keys)
    ensures r == Reload(vim, info)
  {
    var all := Reload(vim, info);
    hide Reload, UniqueHex;
    forall a ensures (a in r <==> a in all) && (a in r ==> all[a] == r[a]) {
      if a in HexesOf(info, info.Keys) {
        var op :| op in info && info[op].hex == a;
        ReloadRow(vim, info, op);
      } else {
        ReloadOther(vim, info, a);
      }
    }
  }

  /** The rows come in any order. */
  method LoadRows(vim: IdMap, info: UniqueTable) returns (r: IdMap)
    ensures r == Reload(vim, info)
  {
    hide Loaded, Reload, UniqueHex;
    r := vim;
    var pending := info.Keys;
    ghost var done: set<Operator> := {};
    LoadedNone(vim, info);
    while pending != {}
      invariant pending <= info.Keys && done == info.Keys - pending
      invariant Loaded(r, vim, info, done)
      decreases |pending|
    {
      var op :| op in pending;
      LoadedGrows(r, vim, info, done, op);
      pending, done := pending - {op}, done + {op};
      r := r[info[op].hex := info[op].id];
    }
    assert done == info.Keys;
    LoadedAll(r, vim, info);
  }

  const MAX_BACK_OFF := 5

  class Indexer {
    const repo: Repository
    var vim: IdMap
    var indexPoint: int

    constructor (r: Repository)
      ensures repo == r && vim == map[] && indexPoint == 0
    {
      repo := r;
      vim := map[];
      indexPoint := 0;
    }

    ghost function Abs(): State
      reads this, repo
    {
      State(repo.votes, repo.pointer, repo.info, repo.nextId, indexPoint, vim)
    }

    ghost predicate Ready(c: Chain)
      reads this, repo
    {
      && Honest(c) && TableValid(c, repo.info, repo.nextId) && DistinctKeys(repo.votes)
      && indexPoint >= 0 && repo.pointer >= 0
    }

    method FetchValidatorInfoList(fetchOk: bool) returns (ok: bool)
      modifies this`vim
      ensures ok == fetchOk
      ensures vim == if fetchOk then Reload(old(vim), repo.info) else old(vim)
    {
      if fetchOk {
        vim := LoadRows(vim, repo.info);
      }
      return fetchOk;
    }

    /** Registers the addresses not seen before; false when the batch gives up. */
    method RegisterNew(c: Chain, list: SummaryMap, e: Env) returns (ok: bool)
      requires Ready(c) && OwnInfos(c, e.infos)
      modifies this`vim, repo`info, repo`nextId
      ensures (Abs(), ok) == Register(old(Abs()), e, list)
      ensures TableValid(c, repo.info, repo.nextId)
    {
      hide TableValid, Honest, Reload, Upsert, UpsertAllowed, OwnInfos, NewAddresses;
      var found := FindUnseen(vim, list);
      if found == {} {
        return true;
      }
      UpsertKeeps(c, repo.info, repo.nextId, e.infos);
      var inserted := repo.InsertValidatorInfoList(e.infos, e.upsertOk);
      if !inserted {
        var _ := FetchValidatorInfoList(e.fetchOk);
        return false;
      }
      ok := FetchValidatorInfoList(e.fetchOk);
    }

    method BatchSync(c: Chain, last: int, next: int, e: Env) returns (pointer: int, out: Outcome)
      requires Ready(c) && OwnInfos(c, e.infos) && last == indexPoint && next == last + 1
      modifies this`vim, repo
      ensures var (s1, o) := Batch(c, old(Abs()), e);
              out == o && pointer == s1.mem && Abs() == s1.(mem := indexPoint)
      ensures Ready(c) && pointer >= 0
    {
      hide TableValid, Register, Build, Collected, DistinctKeys, OwnInfos, SomeFailed;
      if last >= e.latest {
        return last, Skipped;
      }
      var start, end := next, e.latest;
      if e.latest - next > BATCH_SYNC_LIMIT {
        end := next + BATCH_SYNC_LIMIT;
      }
      if !e.baseOk {
        return last, Failed;
      }
      var list, errorCount := CollectSummaries(c, start, end, e.failed, e.silent);
      if errorCount > 0 {
        return last, Failed;
      }
      var registered := RegisterNew(c, list, e);
      if !registered {
        return last, Failed;
      }
      var built := BuildVotes(list, vim, start, end);
      match built {
        case Panic =>
          return last, Panicked;
        case NoId =>
          return last, Failed;
        case Rows(rows) =>
          var height := Lookup(list, end).height;
          EndIsHeight(c, start, end, e.silent);
          var ok := repo.InsertValidatorVoteList(rows, height, e.commit);
          if !ok {
            return last, Failed;
          }
          return height, Committed;
      }
    }

    /** A new process: the pointer is asked for again after each of the first five failures, then
        the cache is loaded. `failures` is how many loads fail before one succeeds. */
    method Start(failures: nat, fetchOk: bool) returns (ok: bool, loads: nat)
      modifies this
      ensures ok == (failures <= 5 && fetchOk)
      ensures loads == if failures <= 5 then failures + 1 else 6
      ensures ok ==> Abs() == Restart(old(Abs()))
      ensures ok ==> indexPoint == repo.pointer
      ensures ok ==> CachesTable(vim, repo.info)
      ensures ok ==> forall a :: a in vim ==> exists op :: op in repo.info && repo.info[op].hex == a
      ensures failures > 5 ==> unchanged(this)
    {
      hide Reload, UniqueHex, CachesTable;
      var cnt := 0;
      loads := 1;
      while loads <= failures
        invariant loads == cnt + 1 && cnt <= MAX_BACK_OFF && cnt <= failures
        decreases failures - cnt
      {
        if cnt >= MAX_BACK_OFF {
          return false, loads;
        }
        cnt := cnt + 1;
        loads := loads + 1;
      }
      indexPoint := repo.pointer;
      vim := map[];
      ok := FetchValidatorInfoList(fetchOk);
      ReloadCaches(map[], repo.info);
    }

    /** One turn of the loop; after a panic the process is started again. */
    method LoopOnce(c: Chain, e: Env) returns (out: Outcome)
      requires Ready(c) && OwnInfos(c, e.infos)
      modifies this, repo
      ensures out == Batch(c, old(Abs()), e).1
      ensures Abs() == Step(c, old(Abs()), Sync(e))
      ensures Ready(c)
    {
      hide TableValid, DistinctKeys, OwnInfos, Batch, Reload;
      var pointer;
      ghost var before := Abs();
      BatchFailureKeepsMem(c, before, e);
      pointer, out := BatchSync(c, indexPoint, indexPoint + 1, e);
      if out == Panicked {
        var _, _ := Start(0, true);
      } else {
        indexPoint := pointer;
      }
    }

    /** One event: a turn of the loop, a new process, another service writing validator_info, or the
        retention loop. */
    method Handle(c: Chain, ev: Event)
      requires Ready(c) && OwnEvent(c, ev)
      modifies this, repo
      ensures Abs() == Step(c, old(Abs()), ev)
      ensures Ready(c)
    {
      hide TableValid, DistinctKeys, OwnInfos, Batch, Reload, Upsert, UpsertAllowed, Filter;
      match ev {
        case Sync(e) =>
          var _ := LoopOnce(c, e);
        case Crash =>
          var _, _ := Start(0, true);
        case OtherService(infos) =>
          UpsertKeeps(c, repo.info, repo.nextId, infos);
          var _ := repo.InsertValidatorInfoList(infos, true);
        case Retention(cutoff) =>
          FilterDistinct(repo.votes, Since(cutoff));
          repo.DeleteOldValidatorVoteList(cutoff);
      }
    }

    /** The objects go through every run exactly as the state machine does. */
    method RunAll(c: Chain, events: seq<Event>)
      requires Ready(c) && OwnRun(c, events)
      modifies this, repo
      ensures Abs() == Run(c, old(Abs()), events)
      ensures Ready(c)
    {
      hide Step, Ready, OwnEvent;
      for i := 0 to |events|
        invariant Abs() == Run(c, old(Abs()), events[..i])
        invariant Ready(c)
      {
        assert events[..i + 1][..i] == events[..i];
        Handle(c, events[i]);
      }
      assert events[..|events|] == events;
    }
  }

  /** The pointer a batch writes is its end, or 0 when the end was not collected. */
  lemma EndIsHeight(c: Chain, start: int, end: int, silent: set<int>)
    requires Honest(c) && 1 <= start <= end
    ensures Lookup(Collected(c, start, end, silent), end).height == if end in silent then 0 else end
  {
    assert HonestAt(c, end);
  }

  /** Only a commit moves the pointer held in memory. */
  lemma BatchFailureKeepsMem(c: Chain, s: State, e: Env)
    ensures Batch(c, s, e).1 != Committed ==> Batch(c, s, e).0.mem == s.mem
  {
    hide Register, Build, Collected;
    RegisterFrame(s, e, Collected(c, s.mem + 1, EndHeight(s.mem, e.latest), e.silent), e.commit);
  }
}
