/** The finality provider indexer's object, proved against the state machine
    (internal/packages/babylon/finality-provider/indexer/batch_sync.go, lines 47-244). */
module FinalityService {
  import opened IntSets
  import opened FinalityVotes
  import Windows

  /** What a worker builds: every active key missed, then every key that voted set to voted. */
  method MarkVotes(fps: seq<Pk>, btcPks: seq<Pk>) returns (votes: VoteMap)
    ensures votes == map pk | pk in fps + btcPks :: pk in btcPks
  {
    votes := map[];
    for i := 0 to |fps|
      invariant votes == map pk | pk in fps[..i] :: false
    {
      votes := votes[fps[i] := false];
    }
    assert fps[..|fps|] == fps;
    for i := 0 to |btcPks|
      invariant votes == map pk | pk in fps + btcPks[..i] :: pk in btcPks[..i]
    {
      votes := votes[btcPks[i] := true];
    }
    assert btcPks[..|btcPks|] == btcPks;
  }

  function RowsOf(votes: VoteMap, vim: IdMap, h: int, pks: set<Pk>): set<Vote> {
    set pk | pk in pks && pk in votes :: Vote(h, IdOf(vim, pk), votes[pk])
  }

  /** Distinct ids: each key adds one new row. */
  lemma RowsGrow(votes: VoteMap, vim: IdMap, h: int, done: set<Pk>, pk: Pk, nextId: int)
    requires Injective(vim, nextId) && done <= votes.Keys && done <= vim.Keys && pk in votes && pk in vim && pk !in done
    ensures Vote(h, vim[pk], votes[pk]) !in RowsOf(votes, vim, h, done)
    ensures RowsOf(votes, vim, h, done + {pk}) == RowsOf(votes, vim, h, done) + {Vote(h, vim[pk], votes[pk])}
  {
  }

  datatype Made = Made(rows: seq<Vote>) | MissingId

  /** The vote map is traversed in any order. */
  method MakeVoteList(vim: IdMap, h: int, votes: VoteMap, ghost nextId: int) returns (r: Made)
    requires Injective(vim, nextId)
    ensures r.Made? <==> votes.Keys <= vim.Keys
    ensures r.Made? ==> multiset(r.rows) == multiset(RowSet(votes, vim, h))
  {
    hide Injective, RowsOf, RowSet;
    var rows: seq<Vote> := [];
    var pending := votes.Keys;
    ghost var done: set<Pk> := {};
    RowsNone(votes, vim, h);
    while pending != {}
      invariant pending <= votes.Keys && done == votes.Keys - pending && done <= vim.Keys
      invariant multiset(rows) == multiset(RowsOf(votes, vim, h, done))
      decreases |pending|
    {
      var pk :| pk in pending;
      if pk !in vim {
        return MissingId;
      }
      RowsGrow(votes, vim, h, done, pk, nextId);
      rows := rows + [Vote(h, vim[pk], votes[pk])];
      pending, done := pending - {pk}, done + {pk};
    }
    RowsAll(votes, vim, h);
    assert done == votes.Keys;
    return Made(rows);
  }

  lemma RowsNone(votes: VoteMap, vim: IdMap, h: int)
    ensures RowsOf(votes, vim, h, {}) == {}
  {
  }

  lemma RowsAll(votes: VoteMap, vim: IdMap, h: int)
    ensures RowsOf(votes, vim, h, votes.Keys) == RowSet(votes, vim, h)
  {
  }

  method BuildVotes(list: map<int, VoteMap>, vim: IdMap, start: int, end: int, ghost nextId: int) returns (r: Built)
    requires 1 <= start <= end && Injective(vim, nextId)
    ensures r == Build(list, vim, start, end)
  {
    hide Injective, RowSet;
    var all: seq<Vote> := [];
    var height := start;
    while height <= end
      invariant start <= height <= end + 1
      invariant Build(list, vim, start, height - 1) == Rows(multiset(all))
    {
      if height !in list {
        StuckBuild(list, vim, start, height, end);
        return Panic;
      }
      var made := MakeVoteList(vim, height, list[height], nextId);
      if made.MissingId? {
        StuckBuild(list, vim, start, height, end);
        return NoId;
      }
      all := all + made.rows;
      height := height + 1;
    }
    return Rows(multiset(all));
  }

  lemma {:induction false} StuckBuild(list: map<int, VoteMap>, vim: IdMap, start: int, m: int, n: int)
    requires m <= n && !Build(list, vim, start, m).Rows?
    ensures Build(list, vim, start, n) == Build(list, vim, start, m)
    decreases n - m
  {
    if m < n {
      StuckBuild(list, vim, start, m, n - 1);
    }
  }

  lemma MarkedIsVotesAt(c: Chain, h: int, votes: VoteMap)
    requires votes == map pk | pk in c.active(h) + c.voted(h) :: pk in c.voted(h)
    ensures votes == VotesAt(c, h)
  {
  }

  function Received(c: Chain, start: int, end: int, silent: set<int>, pending: set<int>): map<int, VoteMap> {
    map h | start <= h <= end && h !in silent && h !in pending :: VotesAt(c, h)
  }

  /** Results arrive in any order; a height without votes reports a failure, then its summary. */
  method CollectVotes(c: Chain, start: int, end: int, failed: set<int>, silent: set<int>)
    returns (list: map<int, VoteMap>, errorCount: nat)
    ensures errorCount > 0 <==> SomeFailed(c, failed, silent, start, end)
    ensures errorCount == 0 ==> list == Collected(c, start, end, silent)
  {
    hide VotesAt;
    var pending := StartWorkers(start, end);
    list, errorCount := map[], 0;
    while pending != {}
      invariant forall h :: h in pending ==> start <= h <= end
      invariant errorCount == 0 ==> list == Received(c, start, end, silent, pending)
      invariant errorCount > 0 <==> exists h :: start <= h <= end && h !in pending && Fails(c, failed, silent, h)
      decreases |pending|
    {
      SomeMember(pending);
      var h :| h in pending;
      ghost var before := pending;
      pending := pending - {h};
      if h in failed {
        errorCount := errorCount + 1;
        assert Fails(c, failed, silent, h);
      } else if h !in silent {
        var fps, btcPks := c.active(h), c.voted(h);
        if btcPks == [] {
          errorCount := errorCount + 1;
          assert Fails(c, failed, silent, h);
        }
        var votes := MarkVotes(fps, btcPks);
        MarkedIsVotesAt(c, h, votes);
        list := list[h := votes];
      }
      assert forall g :: g != h ==> (g in pending <==> g in before);
    }
    assert Received(c, start, end, silent, {}) == Collected(c, start, end, silent);
  }

  function NewAt(vim: IdMap, list: map<int, VoteMap>, heights: set<int>): set<Pk> {
    set h, pk | h in heights && h in list && pk in list[h] && pk !in vim :: pk
  }

  lemma NewGrows(vim: IdMap, list: map<int, VoteMap>, heights: set<int>, h: int)
    requires h in list
    ensures NewAt(vim, list, heights + {h}) == NewAt(vim, list, heights) + (list[h].Keys - vim.Keys)
  {
  }

  method FindNew(vim: IdMap, list: map<int, VoteMap>) returns (found: set<Pk>)
    ensures found == NewKeys(vim, list)
  {
    found := {};
    var pending, done := list.Keys, {};
    while pending != {}
      invariant pending <= list.Keys && done == list.Keys - pending
      invariant found == NewAt(vim, list, done)
      decreases |pending|
    {
      SomeMember(pending);
      var h :| h in pending;
      NewGrows(vim, list, done, h);
      pending, done := pending - {h}, done + {h};
      found := found + (list[h].Keys - vim.Keys);
    }
  }

  /** Tables and memory of the indexer; rows carry no order. */
  class FinalityIndexer {
    var votes: multiset<Vote>
    var pointer: int
    var ids: IdMap
    var nextId: int
    var indexPoint: int
    var vim: IdMap

    ghost function Abs(): State
      reads this
    {
      State(votes, pointer, ids, nextId, indexPoint, vim)
    }

    ghost predicate Ready()
      reads this
    {
      Injective(ids, nextId) && Within(vim, ids) && indexPoint >= 0 && pointer >= 0
    }

    method InsertInfoList(pks: seq<Pk>, allowed: bool) returns (ok: bool)
      modifies this`ids, this`nextId
      ensures ok == (allowed && InsertAllowed(old(ids), pks))
      ensures (ids, nextId) == if ok then Insert(old(ids), old(nextId), pks) else (old(ids), old(nextId))
    {
      if !allowed || !InsertAllowed(ids, pks) {
        return false;
      }
      for i := 0 to |pks|
        invariant (ids, nextId) == Insert(old(ids), old(nextId), pks[..i])
      {
        assert pks[..i + 1][..i] == pks[..i];
        ids, nextId := ids[pks[i] := nextId], nextId + 1;
      }
      assert pks[..|pks|] == pks;
      return true;
    }

    method RegisterNew(list: map<int, VoteMap>, e: Env) returns (ok: bool)
      requires Ready()
      modifies this`ids, this`nextId, this`vim
      ensures (Abs(), ok) == Register(old(Abs()), e, list)
      ensures Ready()
    {
      RegisterKeeps(Abs(), e, list);
      hide Injective, Within, Insert, InsertAllowed, NewKeys;
      var found := FindNew(vim, list);
      if found == {} {
        return true;
      }
      var inserted := InsertInfoList(e.infos, e.insertOk);
      if e.fetchOk {
        vim := vim + ids;
      }
      return inserted && e.fetchOk;
    }

    method BatchSync(c: Chain, e: Env) returns (out: Outcome)
      requires Ready()
      modifies this
      ensures (Abs(), out) == Batch(c, old(Abs()), e)
      ensures Ready()
    {
      hide Injective, Within, Register, Build, Collected, Clash, SomeFailed;
      var start, end := indexPoint + 1, e.latest - FINALITY_SIG_TIMEOUT;
      if start > end {
        return Skipped;
      }
      if end - start > Windows.BATCH_SYNC_LIMIT {
        end := start + Windows.BATCH_SYNC_LIMIT;
      }
      var list, errorCount := CollectVotes(c, start, end, e.failed, e.silent);
      if errorCount > 0 {
        return Failed;
      }
      var registered := RegisterNew(list, e);
      if !registered {
        return Failed;
      }
      SubmapInjective(vim, ids, nextId);
      var built := BuildVotes(list, vim, start, end, nextId);
      match built {
        case Panic =>
          return Panicked;
        case NoId =>
          return Failed;
        case Rows(rows) =>
          if e.commit == Refused || Clash(votes, rows) {
            return Failed;
          }
          var height := if end in list then end else 0;
          votes, pointer := votes + rows, height;
          if e.commit == Unacknowledged {
            return Failed;
          }
          indexPoint := height;
          return Committed;
      }
    }

    /** A new process reads pointer and ids again. */
    method Start()
      requires Ready()
      modifies this`indexPoint, this`vim
      ensures Abs() == Restart(old(Abs()))
      ensures Ready()
    {
      indexPoint, vim := pointer, ids;
    }

    /** One event; after a panic the process is started again. */
    method Handle(c: Chain, ev: Event)
      requires Ready()
      modifies this
      ensures Abs() == Step(c, old(Abs()), ev)
      ensures Ready()
    {
      hide Injective, Within, Batch, Insert, InsertAllowed;
      match ev {
        case Sync(e) =>
          var out := BatchSync(c, e);
          if out == Panicked {
            Start();
          }
        case Crash =>
          Start();
        case OtherService(infos) =>
          ghost var before := ids;
          if InsertAllowed(ids, infos) {
            InsertKeeps(ids, nextId, infos);
          }
          var inserted := InsertInfoList(infos, true);
          if inserted {
            WithinTrans(vim, before, ids);
          }
      }
    }

    /** The object goes through every run exactly as the state machine does. */
    method RunAll(c: Chain, events: seq<Event>)
      requires Ready()
      modifies this
      ensures Abs() == Run(c, old(Abs()), events)
      ensures Ready()
    {
      hide Step, Ready;
      for i := 0 to |events|
        invariant Abs() == Run(c, old(Abs()), events[..i])
        invariant Ready()
      {
        assert events[..i + 1][..i] == events[..i];
        Handle(c, events[i]);
      }
      assert events[..|events|] == events;
    }
  }

  lemma SubmapInjective(vim: IdMap, ids: IdMap, nextId: int)
    requires Injective(ids, nextId) && Within(vim, ids)
    ensures Injective(vim, nextId)
  {
  }
}
