/** What the vote indexer reads and what it should store: block summaries served by a node, the
    shared validator_info table and the rows of the vote table
    (internal/packages/consensus/voteindexer/indexer/batch_sync.go, lines 43-67 and 255-329;
    docker/postgres/schema/02-init-voteindexer.sql; docker/postgres/schema/01-init-meta.sql). */
module VoteChain {
  type Address = string
  type Operator = string

  /** One block and the validator set of its height. A signature is present or nil. */
  datatype Summary = Summary(height: int, timestamp: int, proposer: Address, lastCommit: int,
                             signatures: seq<bool>, validators: seq<Address>)

  /** What a missing map entry reads as. */
  const NO_SUMMARY := Summary(0, 0, "", 0, [], [])

  datatype Status = Missed | Voted | Proposed
  datatype Vote = Vote(height: int, timestamp: int, validator: int, status: Status)

  datatype InfoRow = InfoRow(id: int, hex: Address, moniker: string)
  type InfoTable = map<Operator, InfoRow>

  /** The blocks a node serves and the operator behind each consensus key. */
  datatype Chain = Chain(block: int -> Summary, owner: Address -> Operator)

  /** A block knows its height, commits its predecessor, carries one signature slot per validator
      of the predecessor, and is proposed by one of its validators. */
  ghost predicate HonestAt(c: Chain, h: int) {
    var b := c.block(h);
    && b.height == h
    && c.block(h + 1).lastCommit == h
    && |c.block(h + 1).signatures| == |b.validators|
    && b.proposer in b.validators
    && DistinctOwners(c, b.validators)
  }

  ghost predicate DistinctOwners(c: Chain, vs: seq<Address>) {
    forall i, j :: 0 <= i < j < |vs| ==> c.owner(vs[i]) != c.owner(vs[j])
  }

  ghost predicate Honest(c: Chain) {
    forall h :: h >= 1 ==> HonestAt(c, h)
  }

  /** Block times do not run backwards. */
  ghost predicate Timely(c: Chain) {
    forall g, h :: 1 <= g <= h ==> c.block(g).timestamp <= c.block(h).timestamp
  }

  // ---------------------------------------------------------------- what should be stored

  function IdOf(info: InfoTable, op: Operator): int {
    if op in info then info[op].id else 0
  }

  /** The status of the k-th validator at height h, read off the next block. */
  function StatusOf(c: Chain, h: int, k: nat): Status
    requires k < |c.block(h).validators|
  {
    var signed := c.block(h + 1).signatures;
    if k < |signed| && signed[k] then
      (if c.block(h).validators[k] == c.block(h).proposer then Proposed else Voted)
    else Missed
  }

  function VoteAt(c: Chain, info: InfoTable, h: int, k: nat): Vote
    requires k < |c.block(h).validators|
  {
    Vote(h, c.block(h).timestamp, IdOf(info, c.owner(c.block(h).validators[k])), StatusOf(c, h, k))
  }

  function VoteList(c: Chain, info: InfoTable, h: int): (r: seq<Vote>)
    ensures |r| == |c.block(h).validators|
    ensures forall k :: 0 <= k < |r| ==> r[k] == VoteAt(c, info, h, k)
  {
    var n := |c.block(h).validators|;
    seq(n, k requires 0 <= k < n => VoteAt(c, info, h, k))
  }

  /** One row per validator of each height in [lo, hi). */
  function Expected(c: Chain, info: InfoTable, lo: int, hi: int): seq<Vote>
    decreases hi - lo
  {
    if hi <= lo then [] else Expected(c, info, lo, hi - 1) + VoteList(c, info, hi - 1)
  }

  lemma {:induction false} ExpectedConcat(c: Chain, info: InfoTable, lo: int, mid: int, hi: int)
    requires lo <= mid <= hi
    ensures Expected(c, info, lo, mid) + Expected(c, info, mid, hi) == Expected(c, info, lo, hi)
    decreases hi - mid
  {
    if mid < hi {
      ExpectedConcat(c, info, lo, mid, hi - 1);
    } else {
      assert Expected(c, info, mid, hi) == [];
    }
  }

  /** The operators of all validators of the heights in [lo, hi) have a row. */
  ghost predicate Known(c: Chain, info: InfoTable, lo: int, hi: int) {
    forall h :: lo <= h < hi ==> KnownAt(c, info, h)
  }

  ghost predicate KnownAt(c: Chain, info: InfoTable, h: int) {
    forall a :: a in c.block(h).validators ==> c.owner(a) in info
  }

  /** Rows are never removed and never change their id. */
  ghost predicate Extends(info: InfoTable, later: InfoTable) {
    forall op :: op in info ==> op in later && later[op].id == info[op].id && later[op].moniker == info[op].moniker
  }

  lemma {:induction false} ExpectedStable(c: Chain, info: InfoTable, later: InfoTable, lo: int, hi: int)
    requires Known(c, info, lo, hi) && Extends(info, later)
    ensures Expected(c, info, lo, hi) == Expected(c, later, lo, hi) && Known(c, later, lo, hi)
    decreases hi - lo
  {
    forall h | lo <= h < hi ensures KnownAt(c, later, h) {
      assert KnownAt(c, info, h);
    }
    if lo < hi {
      ExpectedStable(c, info, later, lo, hi - 1);
      VoteListStable(c, info, later, hi - 1);
    }
  }

  lemma VoteListStable(c: Chain, info: InfoTable, later: InfoTable, h: int)
    requires KnownAt(c, info, h) && Extends(info, later)
    ensures VoteList(c, info, h) == VoteList(c, later, h)
  {
  }

  lemma {:induction false} ExpectedContains(c: Chain, info: InfoTable, lo: int, hi: int, h: int, k: nat)
    requires lo <= h < hi && k < |c.block(h).validators|
    ensures VoteAt(c, info, h, k) in Expected(c, info, lo, hi)
    decreases hi - lo
  {
    if h < hi - 1 {
      ExpectedContains(c, info, lo, hi - 1, h, k);
    } else {
      assert VoteList(c, info, h)[k] == VoteAt(c, info, h, k);
    }
  }

  /** Every stored row names its height and a validator of it. */
  lemma {:induction false} ExpectedOrigin(c: Chain, info: InfoTable, lo: int, hi: int, i: nat) returns (h: int, k: nat)
    requires i < |Expected(c, info, lo, hi)|
    ensures lo <= h < hi && k < |c.block(h).validators| && Expected(c, info, lo, hi)[i] == VoteAt(c, info, h, k)
    decreases hi - lo
  {
    var init := Expected(c, info, lo, hi - 1);
    if i < |init| {
      h, k := ExpectedOrigin(c, info, lo, hi - 1, i);
    } else {
      h, k := hi - 1, i - |init|;
      assert Expected(c, info, lo, hi)[i] == VoteList(c, info, h)[k];
    }
  }

  // ---------------------------------------------------------------- the tables

  /** A row belongs to the operator owning its key, and ids are distinct and were handed out. */
  ghost predicate TableValid(c: Chain, info: InfoTable, nextId: int) {
    && nextId >= 1
    && (forall op :: op in info ==> c.owner(info[op].hex) == op && 1 <= info[op].id < nextId)
    && (forall p, q :: p in info && q in info && p != q ==> info[p].id != info[q].id)
  }

  /** Every cached address carries the row id of its operator. */
  ghost predicate CacheValid(c: Chain, info: InfoTable, vim: map<Address, int>) {
    forall a :: a in vim ==> c.owner(a) in info && vim[a] == info[c.owner(a)].id
  }

  lemma CacheStable(c: Chain, info: InfoTable, later: InfoTable, vim: map<Address, int>)
    requires CacheValid(c, info, vim) && Extends(info, later)
    ensures CacheValid(c, later, vim)
  {
  }

  /** UNIQUE (height, validator_hex_address_id). */
  predicate DistinctKeys(votes: seq<Vote>) {
    forall i, j :: 0 <= i < j < |votes| ==>
      !(votes[i].height == votes[j].height && votes[i].validator == votes[j].validator)
  }

  /** Nothing the indexer should store violates the constraint. */
  lemma {:induction false} ExpectedDistinct(c: Chain, info: InfoTable, nextId: int, lo: int, hi: int)
    requires lo >= 1 && Honest(c) && TableValid(c, info, nextId) && Known(c, info, lo, hi)
    ensures DistinctKeys(Expected(c, info, lo, hi))
    decreases hi - lo
  {
    if lo < hi {
      ExpectedDistinct(c, info, nextId, lo, hi - 1);
      var init, last := Expected(c, info, lo, hi - 1), VoteList(c, info, hi - 1);
      VoteListDistinct(c, info, nextId, hi - 1);
      forall i, j | 0 <= i < |init| && 0 <= j < |last| ensures init[i].height != last[j].height {
        var h, k := ExpectedOrigin(c, info, lo, hi - 1, i);
      }
    }
  }

  lemma VoteListDistinct(c: Chain, info: InfoTable, nextId: int, h: int)
    requires HonestAt(c, h) && TableValid(c, info, nextId) && KnownAt(c, info, h)
    ensures DistinctKeys(VoteList(c, info, h))
  {
  }

  // ---------------------------------------------------------------- dropping rows

  function Filter(votes: seq<Vote>, keep: Vote -> bool): seq<Vote> {
    if votes == [] then []
    else
      var last := votes[|votes| - 1];
      Filter(votes[..|votes| - 1], keep) + (if keep(last) then [last] else [])
  }

  lemma {:induction false} FilterConcat(a: seq<Vote>, b: seq<Vote>, keep: Vote -> bool)
    ensures Filter(a + b, keep) == Filter(a, keep) + Filter(b, keep)
    decreases |b|
  {
    if b == [] {
      assert a + b == a;
    } else {
      var init := b[..|b| - 1];
      FilterConcat(a, init, keep);
      assert (a + b)[..|a + b| - 1] == a + init;
    }
  }

  lemma {:induction false} FilterMember(votes: seq<Vote>, keep: Vote -> bool, v: Vote)
    ensures v in Filter(votes, keep) <==> v in votes && keep(v)
    decreases |votes|
  {
    if votes != [] {
      FilterMember(votes[..|votes| - 1], keep, v);
      assert votes == votes[..|votes| - 1] + [votes[|votes| - 1]];
    }
  }

  lemma {:induction false} FilterDistinct(votes: seq<Vote>, keep: Vote -> bool)
    requires DistinctKeys(votes)
    ensures DistinctKeys(Filter(votes, keep))
    decreases |votes|
  {
    if votes != [] {
      var init, last := votes[..|votes| - 1], votes[|votes| - 1];
      FilterDistinct(init, keep);
      forall i | 0 <= i < |Filter(init, keep)|
        ensures !(Filter(init, keep)[i].height == last.height && Filter(init, keep)[i].validator == last.validator)
      {
        FilterMember(init, keep, Filter(init, keep)[i]);
      }
    }
  }

  lemma {:induction false} FilterUniform(votes: seq<Vote>, keep: Vote -> bool, all: bool)
    requires forall i :: 0 <= i < |votes| ==> keep(votes[i]) == all
    ensures Filter(votes, keep) == if all then votes else []
    decreases |votes|
  {
    if votes != [] {
      FilterUniform(votes[..|votes| - 1], keep, all);
    }
  }

  /** A row filter that keeps exactly the heights from t on cuts the table at t. */
  lemma {:induction false} FilterCuts(c: Chain, info: InfoTable, lo: int, hi: int, keep: Vote -> bool, t: int)
    requires lo <= t <= hi
    requires forall h, k :: lo <= h < hi && 0 <= k < |c.block(h).validators| ==> keep(VoteAt(c, info, h, k)) == (t <= h)
    ensures Filter(Expected(c, info, lo, hi), keep) == Expected(c, info, t, hi)
    decreases hi - lo
  {
    if lo < hi {
      FilterConcat(Expected(c, info, lo, hi - 1), VoteList(c, info, hi - 1), keep);
      FilterUniform(VoteList(c, info, hi - 1), keep, t <= hi - 1);
      FilterCuts(c, info, lo, hi - 1, keep, if t == hi then hi - 1 else t);
      assert t == hi ==> Expected(c, info, hi - 1, hi - 1) == [];
    }
  }
}
