/** The Axelar amplifier poll table: rows are inserted when a poll starts and updated when a
    participant votes within ten blocks, in two separate commits that are replayed after failures
    (internal/packages/axelar/amplifier-verifier/indexer/sync.go, lines 21-273;
    internal/packages/axelar/amplifier-verifier/repository/repository.go, lines 33-115).
    A verifier is named by its address, for which the database holds a unique id. */
module AmplifierPolls {
  import opened Windows

  type Verifier = string
  type Contract = string

  const BLOCK_EXPIRY := 10

  datatype Status = PollStart | FailedOnChain | NotFound | SucceededOnChain

  /** A started poll, and a vote with the name of the poll it resolves to. */
  datatype Poll = Poll(name: string, participants: seq<Verifier>)
  datatype PollVote = PollVote(contract: Contract, poll: string, verifier: Verifier, status: Status)

  /** UNIQUE (chain_and_poll_id, verifier_id). */
  datatype Key = Key(poll: string, verifier: Verifier)
  datatype Row = Row(start: int, voteHeight: int, status: Status)
  type Rows = map<Key, Row>

  /** The polls started and the votes cast at each height. */
  datatype Summary = Summary(polls: seq<Poll>, votes: seq<PollVote>)
  type Chain = int -> Summary

  datatype Init = Init(key: Key, height: int)
  datatype Update = Update(key: Key, height: int, status: Status)

  datatype State = State(rows: Rows, pointer: int, info: set<Verifier>, mem: int, vim: set<Verifier>)
  datatype Commit = Applied | Refused | Unacknowledged
  datatype Env = Env(latest: int, contractsOk: bool, contracts: set<Contract>, failed: set<int>, silent: set<int>,
                     insertOk: bool, fetchOk: bool, initCommit: Commit, voteCommit: Commit)
  datatype Outcome = Skipped | Failed | Committed

  // ---------------------------------------------------------------- the two statements

  /** ON CONFLICT DO NOTHING. */
  function InsertInits(rows: Rows, list: seq<Init>): Rows {
    if list == [] then rows
    else
      var before := InsertInits(rows, list[..|list| - 1]);
      var x := list[|list| - 1];
      if x.key in before then before else before[x.key := Row(x.height, 0, PollStart)]
  }

  /** Only rows whose poll has not expired at the vote's height are touched. */
  function UpdateVotes(rows: Rows, list: seq<Update>): Rows {
    if list == [] then rows
    else
      var before := UpdateVotes(rows, list[..|list| - 1]);
      var x := list[|list| - 1];
      if x.key in before && x.height < before[x.key].start + BLOCK_EXPIRY then
        before[x.key := Row(before[x.key].start, x.height, x.status)]
      else before
  }

  lemma NothingToInsert(rows: Rows, inits: seq<Init>)
    ensures inits == [] ==> InsertInits(rows, inits) == rows
  {
  }

  // ---------------------------------------------------------------- one batch

  predicate SomeFailed(failed: set<int>, start: int, end: int) {
    exists h :: start <= h <= end && h in failed
  }

  /** A height whose worker stayed silent reads as empty. */
  function Seen(c: Chain, silent: set<int>, h: int): Summary {
    if h in silent then Summary([], []) else c(h)
  }

  function PollInits(h: int, p: Poll): seq<Init> {
    seq(|p.participants|, j requires 0 <= j < |p.participants| => Init(Key(p.name, p.participants[j]), h))
  }

  function HeightInits(h: int, polls: seq<Poll>): seq<Init> {
    if polls == [] then [] else HeightInits(h, polls[..|polls| - 1]) + PollInits(h, polls[|polls| - 1])
  }

  function InitList(c: Chain, silent: set<int>, start: int, end: int): seq<Init>
    decreases end - start
  {
    if end < start then []
    else InitList(c, silent, start, end - 1) + HeightInits(end, Seen(c, silent, end).polls)
  }

  datatype Updates = Updates(list: seq<Update>) | UnknownContract

  function HeightUpdates(h: int, votes: seq<PollVote>, contracts: set<Contract>, vim: set<Verifier>): Updates {
    if votes == [] then Updates([])
    else match HeightUpdates(h, votes[..|votes| - 1], contracts, vim)
      case UnknownContract => UnknownContract
      case Updates(list) =>
        var pv := votes[|votes| - 1];
        if pv.contract !in contracts then UnknownContract
        else if pv.verifier !in vim then Updates(list)
        else Updates(list + [Update(Key(pv.poll, pv.verifier), h, pv.status)])
  }

  function UpdateList(c: Chain, silent: set<int>, contracts: set<Contract>, vim: set<Verifier>, start: int,
                      end: int): Updates
    decreases end - start
  {
    if end < start then Updates([])
    else match UpdateList(c, silent, contracts, vim, start, end - 1)
      case UnknownContract => UnknownContract
      case Updates(list) =>
        match HeightUpdates(end, Seen(c, silent, end).votes, contracts, vim)
        case UnknownContract => UnknownContract
        case Updates(more) => Updates(list + more)
  }

  function NewVerifiers(vim: set<Verifier>, inits: seq<Init>): set<Verifier> {
    set i | 0 <= i < |inits| && inits[i].key.verifier !in vim :: inits[i].key.verifier
  }

  /** A plain insert: an address already registered makes it fail, and the cache is read again. */
  function Register(s: State, e: Env, unseen: set<Verifier>): (State, bool) {
    if unseen == {} then (s, true)
    else if !e.insertOk || unseen * s.info != {} then (if e.fetchOk then s.(vim := s.vim + s.info) else s, false)
    else
      var s1 := s.(info := s.info + unseen);
      if e.fetchOk then (s1.(vim := s1.vim + s1.info), true) else (s1, false)
  }

  function Write(s: State, e: Env, inits: seq<Init>, updates: seq<Update>, end: int): (State, Outcome) {
    if inits != [] && e.initCommit == Refused then (s, Failed)
    else
      var s1 := s.(rows := InsertInits(s.rows, inits));
      if (inits != [] && e.initCommit == Unacknowledged) || e.voteCommit == Refused then (s1, Failed)
      else
        var s2 := s1.(rows := UpdateVotes(s1.rows, updates), pointer := end);
        if e.voteCommit == Applied then (s2.(mem := end), Committed) else (s2, Failed)
  }

  function Batch(c: Chain, s: State, e: Env): (State, Outcome) {
    var start, end := s.mem + 1, EndHeight(s.mem, e.latest);
    if start > e.latest then (s, Skipped)
    else if !e.contractsOk || SomeFailed(e.failed, start, end) then (s, Failed)
    else
      var inits := InitList(c, e.silent, start, end);
      var (s1, ok) := Register(s, e, NewVerifiers(s.vim, inits));
      if !ok then (s1, Failed)
      else match UpdateList(c, e.silent, e.contracts, s1.vim, start, end)
        case UnknownContract => (s1, Failed)
        case Updates(updates) => Write(s1, e, inits, updates, end)
  }

  datatype Event = Sync(env: Env) | Crash | OtherService(verifiers: set<Verifier>)

  function Step(c: Chain, s: State, ev: Event): State {
    match ev
    case Sync(e) => Batch(c, s, e).0
    case Crash => s.(mem := s.pointer, vim := s.info)
    case OtherService(verifiers) => s.(info := s.info + verifiers)
  }

  function Run(c: Chain, s: State, events: seq<Event>): State {
    if events == [] then s
    else Step(c, Run(c, s, events[..|events| - 1]), events[|events| - 1])
  }

  // ---------------------------------------------------------------- what the table should say

  predicate StartsAt(c: Chain, h: int, k: Key) {
    exists i :: 0 <= i < |c(h).polls| && c(h).polls[i].name == k.poll && k.verifier in c(h).polls[i].participants
  }

  predicate IsVote(c: Chain, h: int, i: int, k: Key) {
    0 <= i < |c(h).votes| && c(h).votes[i].poll == k.poll && c(h).votes[i].verifier == k.verifier
  }

  /** A pair starts at one height, votes at most once, and not before it starts. */
  ghost predicate Orderly(c: Chain) {
    && (forall k, g, h :: StartsAt(c, g, k) && StartsAt(c, h, k) ==> g == h)
    && (forall k, g, i, h, j :: IsVote(c, g, i, k) && IsVote(c, h, j, k) ==> g == h && i == j)
    && (forall k, g, h, i :: StartsAt(c, g, k) && IsVote(c, h, i, k) ==> g <= h)
  }

  /** The votes of height `vote` were applied while the polls of height `start` were in the table. */
  datatype Taken = Taken(start: int, vote: int)

  /** The row of a pair: its start, and its vote if that was taken in and came less than ten blocks
      after the start. */
  ghost predicate RowOk(c: Chain, k: Key, r: Row, taken: set<Taken>) {
    && StartsAt(c, r.start, k)
    && (if r.voteHeight == 0
        then && r.status == PollStart
             && forall h, i :: Taken(r.start, h) in taken && IsVote(c, h, i, k) ==> h >= r.start + BLOCK_EXPIRY
        else && Taken(r.start, r.voteHeight) in taken && r.voteHeight < r.start + BLOCK_EXPIRY
             && exists i :: IsVote(c, r.voteHeight, i, k) && r.status == c(r.voteHeight).votes[i].status)
  }

  /** The table after the polls of the heights `begun` and the votes `taken`. */
  ghost predicate Reflects(c: Chain, rows: Rows, begun: set<int>, taken: set<Taken>) {
    && (forall k :: k in rows ==> rows[k].start in begun && RowOk(c, k, rows[k], taken))
    && (forall h, k :: h in begun && StartsAt(c, h, k) ==> k in rows)
  }

  lemma SameRow(c: Chain, k: Key, r: Row, r': Row, taken: set<Taken>)
    requires Orderly(c) && RowOk(c, k, r, taken) && RowOk(c, k, r', taken)
    ensures r == r'
  {
  }

  /** What was taken in determines the table. */
  lemma ReflectsUnique(c: Chain, rows: Rows, rows': Rows, begun: set<int>, taken: set<Taken>)
    requires Orderly(c) && Reflects(c, rows, begun, taken) && Reflects(c, rows', begun, taken)
    ensures rows == rows'
  {
    forall k | k in rows ensures k in rows' && rows[k] == rows'[k] {
      SameRow(c, k, rows[k], rows'[k], taken);
    }
    forall k | k in rows' ensures k in rows {
      assert StartsAt(c, rows'[k].start, k);
    }
  }

  // ---------------------------------------------------------------- the statements, by content

  lemma {:induction false} InsertInitsSpec(rows: Rows, list: seq<Init>)
    ensures var r := InsertInits(rows, list);
            && (forall k :: k in rows ==> k in r && r[k] == rows[k])
            && (forall k :: k in r && k !in rows ==>
                  exists x :: x in list && x.key == k && r[k] == Row(x.height, 0, PollStart))
            && (forall x :: x in list ==> x.key in r)
    decreases |list|
  {
    if list != [] {
      var init, x := list[..|list| - 1], list[|list| - 1];
      InsertInitsSpec(rows, init);
      assert list == init + [x];
      var before, r := InsertInits(rows, init), InsertInits(rows, list);
      forall k | k in r && k !in rows
        ensures exists y :: y in list && y.key == k && r[k] == Row(y.height, 0, PollStart)
      {
        if k in before {
          var y :| y in init && y.key == k && before[k] == Row(y.height, 0, PollStart);
          assert y in list;
        } else {
          assert x in list;
        }
      }
    }
  }

  lemma {:induction false} UpdateVotesSpec(rows: Rows, list: seq<Update>, k: Key)
    ensures var r := UpdateVotes(rows, list);
            && r.Keys == rows.Keys
            && (k in rows ==>
                  && r[k].start == rows[k].start
                  && (|| (r[k] == rows[k] && forall x :: x in list && x.key == k ==>
                      x.height >= rows[k].start + BLOCK_EXPIRY)
                      || (exists x :: x in list && x.key == k && x.height < rows[k].start + BLOCK_EXPIRY
                                      && r[k] == Row(rows[k].start, x.height, x.status))))
    decreases |list|
  {
    if list != [] {
      var init, x := list[..|list| - 1], list[|list| - 1];
      UpdateVotesSpec(rows, init, k);
      assert list == init + [x];
      var before, r := UpdateVotes(rows, init), UpdateVotes(rows, list);
      if k in rows {
        if x.key == k && x.height < rows[k].start + BLOCK_EXPIRY {
          assert x in list && r[k] == Row(rows[k].start, x.height, x.status);
        } else if exists y :: y in init && y.key == k && y.height < rows[k].start + BLOCK_EXPIRY
                              && before[k] == Row(rows[k].start, y.height, y.status) {
          var y :| y in init && y.key == k && y.height < rows[k].start + BLOCK_EXPIRY
                   && before[k] == Row(rows[k].start, y.height, y.status);
          assert y in list && r[k] == before[k];
        }
      }
    }
  }

  // ---------------------------------------------------------------- the lists, by content

  lemma {:induction false} HeightInitsSpec(h: int, polls: seq<Poll>, x: Init)
    ensures x in HeightInits(h, polls) <==>
            && x.height == h
            && exists i :: 0 <= i < |polls| && polls[i].name == x.key.poll && x.key.verifier in polls[i].participants
    decreases |polls|
  {
    if polls != [] {
      var init, p := polls[..|polls| - 1], polls[|polls| - 1];
      HeightInitsSpec(h, init, x);
      PollInitsSpec(h, p, x);
      if exists i :: 0 <= i < |polls| && polls[i].name == x.key.poll && x.key.verifier in polls[i].participants {
        var i :| 0 <= i < |polls| && polls[i].name == x.key.poll && x.key.verifier in polls[i].participants;
        assert i < |init| ==> init[i] == polls[i];
      }
      if exists i :: 0 <= i < |init| && init[i].name == x.key.poll && x.key.verifier in init[i].participants {
        var i :| 0 <= i < |init| && init[i].name == x.key.poll && x.key.verifier in init[i].participants;
        assert polls[i] == init[i];
      }
    }
  }

  lemma PollInitsSpec(h: int, p: Poll, x: Init)
    ensures x in PollInits(h, p) <==> x.height == h && x.key.poll == p.name && x.key.verifier in p.participants
  {
    if x.height == h && x.key.poll == p.name && x.key.verifier in p.participants {
      var j :| 0 <= j < |p.participants| && p.participants[j] == x.key.verifier;
      assert PollInits(h, p)[j] == x;
    }
  }

  /** The started pairs of a batch are those of its heights that were seen. */
  lemma {:induction false} InitListSpec(c: Chain, silent: set<int>, start: int, end: int, x: Init)
    ensures x in InitList(c, silent, start, end) <==>
            start <= x.height <= end && x.height !in silent && StartsAt(c, x.height, x.key)
    decreases end - start
  {
    if start <= end {
      InitListSpec(c, silent, start, end - 1, x);
      HeightInitsSpec(end, Seen(c, silent, end).polls, x);
    }
  }

  lemma {:induction false} HeightUpdatesSpec(h: int, votes: seq<PollVote>, contracts: set<Contract>,
                                             vim: set<Verifier>, x: Update)
    requires HeightUpdates(h, votes, contracts, vim).Updates?
    ensures x in HeightUpdates(h, votes, contracts, vim).list <==>
            && x.height == h && x.key.verifier in vim
            && exists i :: 0 <= i < |votes| && votes[i].poll == x.key.poll && votes[i].verifier == x.key.verifier
                && votes[i].status == x.status
    decreases |votes|
  {
    if votes != [] {
      var init := votes[..|votes| - 1];
      HeightUpdatesSpec(h, init, contracts, vim, x);
      if exists i :: 0 <= i < |votes| && votes[i].poll == x.key.poll && votes[i].verifier == x.key.verifier
          && votes[i].status == x.status {
        var i :| 0 <= i < |votes| && votes[i].poll == x.key.poll && votes[i].verifier == x.key.verifier
            && votes[i].status == x.status;
        assert i < |init| ==> init[i] == votes[i];
      }
      if exists i :: 0 <= i < |init| && init[i].poll == x.key.poll && init[i].verifier == x.key.verifier
          && init[i].status == x.status {
        var i :| 0 <= i < |init| && init[i].poll == x.key.poll && init[i].verifier == x.key.verifier
            && init[i].status == x.status;
        assert votes[i] == init[i];
      }
    }
  }

  /** A vote of a pair with the status it carries. */
  ghost predicate CastAs(c: Chain, h: int, k: Key, status: Status) {
    exists i :: IsVote(c, h, i, k) && c(h).votes[i].status == status
  }

  lemma {:induction false} UpdateListSpec(c: Chain, silent: set<int>, contracts: set<Contract>, vim: set<Verifier>,
                                          start: int, end: int, x: Update)
    requires UpdateList(c, silent, contracts, vim, start, end).Updates?
    ensures x in UpdateList(c, silent, contracts, vim, start, end).list <==>
            start <= x.height <= end && x.height !in silent && x.key.verifier in vim
                && CastAs(c, x.height, x.key, x.status)
    decreases end - start
  {
    if start <= end {
      UpdateListSpec(c, silent, contracts, vim, start, end - 1, x);
      var votes := Seen(c, silent, end).votes;
      HeightUpdatesSpec(end, votes, contracts, vim, x);
      if x.height == end && CastAs(c, end, x.key, x.status) && end !in silent {
        var i :| IsVote(c, end, i, x.key) && c(end).votes[i].status == x.status;
        assert votes[i].poll == x.key.poll;
      }
      if exists i :: 0 <= i < |votes| && votes[i].poll == x.key.poll && votes[i].verifier == x.key.verifier
          && votes[i].status == x.status {
        var i :| 0 <= i < |votes| && votes[i].poll == x.key.poll && votes[i].verifier == x.key.verifier
            && votes[i].status == x.status;
        assert end !in silent && IsVote(c, end, i, x.key);
      }
    }
  }

  lemma {:induction false} HeightKnown(h: int, votes: seq<PollVote>, contracts: set<Contract>, vim: set<Verifier>)
    requires forall i :: 0 <= i < |votes| ==> votes[i].contract in contracts
    ensures HeightUpdates(h, votes, contracts, vim).Updates?
    decreases |votes|
  {
    if votes != [] {
      HeightKnown(h, votes[..|votes| - 1], contracts, vim);
    }
  }

  /** With every contract known the update list is built. */
  lemma {:induction false} UpdatesKnown(c: Chain, silent: set<int>, contracts: set<Contract>, vim: set<Verifier>,
                                        start: int, end: int)
    requires forall h, i :: start <= h <= end && 0 <= i < |c(h).votes| ==> c(h).votes[i].contract in contracts
    ensures UpdateList(c, silent, contracts, vim, start, end).Updates?
    decreases end - start
  {
    if start <= end {
      UpdatesKnown(c, silent, contracts, vim, start, end - 1);
      HeightKnown(end, Seen(c, silent, end).votes, contracts, vim);
    }
  }
}
