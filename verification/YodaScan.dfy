/** The scan for non-expired oracle requests: batches of twenty from the newest id downwards, cut
    short after the first batch with an expired request, and the misses of each validator
    (internal/packages/duty/yoda/api/api.go, lines 98-203). */
module YodaScan {
  import opened IntSets

  const BATCH_SIZE := 20

  type Validator = string

  /** What asking for one request id brings: data, a reported failure, or nothing at all. */
  datatype Fetch = Got(height: int, missed: seq<Validator>) | Failed | Silent

  datatype Request = Request(id: int, height: int, blocksPassed: int, missed: seq<Validator>)

  datatype Query = Query(count: int, window: int, current: int, fetch: int -> Fetch)

  predicate Expired(q: Query, id: int) {
    q.fetch(id).Got? && q.fetch(id).height + q.window < q.current
  }

  /** Delivered, not expired, and not from a block above the current one. */
  predicate Live(q: Query, id: int) {
    q.fetch(id).Got? && !Expired(q, id) && q.current - q.fetch(id).height >= 0
  }

  function RequestOf(q: Query, id: int): Request
    requires q.fetch(id).Got?
  {
    var f := q.fetch(id);
    Request(id, f.height, q.current - f.height, f.missed)
  }

  predicate HasId(rs: seq<Request>, id: int) {
    exists k :: 0 <= k < |rs| && rs[k].id == id
  }

  predicate DistinctIds(rs: seq<Request>) {
    forall j, k :: 0 <= j < k < |rs| ==> rs[j].id != rs[k].id
  }

  /** The live requests among the ids, each once, as the node described them. */
  ghost predicate Lists(q: Query, rs: seq<Request>, ids: set<int>) {
    && (forall k :: 0 <= k < |rs| ==> rs[k].id in ids && Live(q, rs[k].id) && rs[k] == RequestOf(q, rs[k].id))
    && (forall id :: id in ids && Live(q, id) ==> HasId(rs, id))
    && DistinctIds(rs)
  }

  lemma ListsAppend(q: Query, rs: seq<Request>, ids: set<int>, id: int)
    requires Lists(q, rs, ids) && id !in ids
    ensures Live(q, id) ==> Lists(q, rs + [RequestOf(q, id)], ids + {id})
    ensures !Live(q, id) ==> Lists(q, rs, ids + {id})
  {
    if Live(q, id) {
      var r := rs + [RequestOf(q, id)];
      forall i | i in ids + {id} && Live(q, i) ensures HasId(r, i) {
        if i == id {
          assert r[|rs|].id == id;
        } else {
          var k :| 0 <= k < |rs| && rs[k].id == i;
          assert r[k].id == i;
        }
      }
    }
  }

  /** One batch; its answers arrive in any order. */
  method ScanBatch(q: Query, i: int, found: seq<Request>, ghost ids: set<int>)
    returns (results: seq<Request>, expiredCount: nat, ghost ids': set<int>)
    requires Lists(q, found, ids) && forall id :: id in ids ==> id > i
    ensures Lists(q, results, ids')
    ensures forall id :: id in ids' <==> id in ids || i - BATCH_SIZE < id <= i
    ensures expiredCount > 0 <==> exists id :: i - BATCH_SIZE < id <= i && Expired(q, id)
  {
    hide Lists, Live;
    var pending: set<int> := {};
    var request := i;
    while request > i - BATCH_SIZE
      invariant i - BATCH_SIZE <= request <= i
      invariant forall id :: id in pending <==> request < id <= i
    {
      pending := pending + {request};
      request := request - 1;
    }
    results, expiredCount, ids' := found, 0, ids;
    while pending != {}
      invariant forall id :: id in pending ==> i - BATCH_SIZE < id <= i
      invariant forall id :: id in ids' <==> id in ids || (i - BATCH_SIZE < id <= i && id !in pending)
      invariant Lists(q, results, ids')
      invariant expiredCount > 0 <==> exists id :: i - BATCH_SIZE < id <= i && id !in pending && Expired(q, id)
      decreases |pending|
    {
      SomeMember(pending);
      var id :| id in pending;
      pending := pending - {id};
      ListsAppend(q, results, ids', id);
      ids' := ids' + {id};
      LiveExact(q, id);
      match q.fetch(id) {
        case Got(height, missed) =>
          if height + q.window < q.current {
            expiredCount := expiredCount + 1;
            assert Expired(q, id);
          } else if q.current - height >= 0 {
            results := results + [Request(id, height, q.current - height, missed)];
          }
        case Failed =>
        case Silent =>
      }
    }
  }

  /** A delivered request is expired when it is more than the window old, and live when its age is
      between 0 and the window. */
  lemma LiveExact(q: Query, id: int)
    ensures Expired(q, id) <==> q.fetch(id).Got? && q.current - q.fetch(id).height > q.window
    ensures Live(q, id) <==> q.fetch(id).Got? && 0 <= q.current - q.fetch(id).height <= q.window
    ensures q.fetch(id).Got? ==>
              && RequestOf(q, id).id == id && RequestOf(q, id).height == q.fetch(id).height
              && RequestOf(q, id).blocksPassed == q.current - q.fetch(id).height
              && RequestOf(q, id).missed == q.fetch(id).missed
  {
  }

  /** The id below which a scan without early exit stops. */
  function Floor(i: int): int
    decreases i
  {
    if i <= 1 then i else Floor(i - BATCH_SIZE)
  }

  predicate ExpiredIn(q: Query, i: int) {
    exists id :: i - BATCH_SIZE < id <= i && Expired(q, id)
  }

  /** The id below which the scan stops: the end of the first batch with an expired request. */
  function Stop(q: Query, i: int): int
    decreases i
  {
    if i <= 1 then i else if ExpiredIn(q, i) then i - BATCH_SIZE else Stop(q, i - BATCH_SIZE)
  }

  /** The scan with its early exit: every live request above the stop, each once. */
  method Scan(q: Query) returns (results: seq<Request>)
    ensures forall id :: HasId(results, id) <==> Stop(q, q.count) < id <= q.count && Live(q, id)
    ensures forall k :: 0 <= k < |results| ==> Live(q, results[k].id) && results[k] == RequestOf(q, results[k].id)
    ensures DistinctIds(results)
  {
    results := [];
    var expiredCount: nat := 0;
    ghost var ids: set<int> := {};
    var i := q.count;
    while i > 1
      invariant i <= q.count && Stop(q, i) == Stop(q, q.count)
      invariant Lists(q, results, ids)
      invariant forall id :: id in ids <==> i < id <= q.count
      decreases i
    {
      results, expiredCount, ids := ScanBatch(q, i, results, ids);
      i := i - BATCH_SIZE;
      if expiredCount > 0 {
        break;
      }
    }
    assert i == Stop(q, q.count);
    forall id ensures HasId(results, id) <==> i < id <= q.count && Live(q, id) {
      if HasId(results, id) {
        var k :| 0 <= k < |results| && results[k].id == id;
      }
    }
  }

  // ---------------------------------------------------------------- early exit against full scan

  /** No live request lies in a lower batch than an expired one; batches are counted from i down. */
  ghost predicate Layered(q: Query, i: int) {
    forall e, id :: Floor(i) < e <= i && Expired(q, e) && Floor(i) < id <= i && Live(q, id) ==>
        (i - id) / BATCH_SIZE <= (i - e) / BATCH_SIZE
  }

  /** No live request lies between the full scan's floor and the stop. */
  ghost predicate NoneLost(q: Query, i: int) {
    forall id :: Floor(i) < id <= Stop(q, i) ==> !Live(q, id)
  }

  /** The early exit returns what the full scan returns exactly when the requests are layered. */
  lemma {:induction false} EarlyExitExact(q: Query, i: int)
    ensures Floor(i) <= Stop(q, i) <= i
    ensures NoneLost(q, i) <==> Layered(q, i)
    decreases i
  {
    hide Live, Expired;
    if i > 1 {
      FloorBelow(i - BATCH_SIZE);
      EarlyExitExact(q, i - BATCH_SIZE);
      if ExpiredIn(q, i) {
        StopsHere(q, i);
      } else {
        GoesOn(q, i);
      }
    }
  }

  lemma StopsHere(q: Query, i: int)
    requires i > 1 && ExpiredIn(q, i) && Floor(i) <= i - BATCH_SIZE
    ensures NoneLost(q, i) <==> Layered(q, i)
  {
    hide Live, Expired, Floor;
    var e :| i - BATCH_SIZE < e <= i && Expired(q, e);
    assert Stop(q, i) == i - BATCH_SIZE && (i - e) / BATCH_SIZE == 0;
    if Layered(q, i) {
      forall id | Floor(i) < id <= i - BATCH_SIZE ensures !Live(q, id) {
        assert (i - id) / BATCH_SIZE >= 1;
      }
    }
    if NoneLost(q, i) {
      forall e, id | Floor(i) < e <= i && Expired(q, e) && Floor(i) < id <= i && Live(q, id)
        ensures (i - id) / BATCH_SIZE <= (i - e) / BATCH_SIZE
      {
        assert id > i - BATCH_SIZE;
      }
    }
  }

  lemma GoesOn(q: Query, i: int)
    requires i > 1 && !ExpiredIn(q, i)
    ensures NoneLost(q, i) <==> NoneLost(q, i - BATCH_SIZE)
    ensures Layered(q, i) <==> Layered(q, i - BATCH_SIZE)
  {
    hide Live, Expired;
    var j := i - BATCH_SIZE;
    assert Floor(i) == Floor(j) && Stop(q, i) == Stop(q, j);
    hide Floor;
    if Layered(q, i) {
      forall e, id | Floor(j) < e <= j && Expired(q, e) && Floor(j) < id <= j && Live(q, id)
        ensures (j - id) / BATCH_SIZE <= (j - e) / BATCH_SIZE
      {
        OneBatchLower(j - id);
        OneBatchLower(j - e);
      }
    }
    if Layered(q, j) {
      forall e, id | Floor(i) < e <= i && Expired(q, e) && Floor(i) < id <= i && Live(q, id)
        ensures (i - id) / BATCH_SIZE <= (i - e) / BATCH_SIZE
      {
        assert e <= j;
        OneBatchLower(j - id);
        OneBatchLower(j - e);
      }
    }
  }

  lemma OneBatchLower(d: int)
    ensures (d + BATCH_SIZE) / BATCH_SIZE == d / BATCH_SIZE + 1
  {
  }

  /** Newer requests are not from older blocks. */
  ghost predicate Monotone(q: Query) {
    forall i, j :: i <= j <= q.count && q.fetch(i).Got? && q.fetch(j).Got? ==> q.fetch(i).height <= q.fetch(j).height
  }

  /** Monotone heights are enough. */
  lemma MonotoneIsLayered(q: Query)
    requires Monotone(q)
    ensures Layered(q, q.count)
  {
  }

  /** The early exit refines the full scan: with monotone heights both return the same requests. */
  lemma EarlyExitLosesNothing(q: Query, id: int)
    requires Monotone(q)
    ensures Stop(q, q.count) < id <= q.count && Live(q, id) <==> Floor(q.count) < id <= q.count && Live(q, id)
  {
    MonotoneIsLayered(q);
    EarlyExitExact(q, q.count);
  }

  lemma {:induction false} FloorBelow(i: int)
    ensures Floor(i) <= i
    decreases i
  {
    if i > 1 {
      FloorBelow(i - BATCH_SIZE);
    }
  }

  function OldNew(id: int): Fetch {
    if id == 25 then Got(1, []) else if id == 3 then Got(100, ["v"]) else Failed
  }

  /** Without monotone heights it does lose: an expired request 25 hides the live request 3. */
  lemma EarlyExitCanLose()
    ensures var q := Query(25, 10, 100, OldNew);
            Live(q, 3) && Floor(25) < 3 <= Stop(q, 25)
  {
    var q := Query(25, 10, 100, OldNew);
    assert Expired(q, 25);
    assert Floor(25) == Floor(5) == Floor(-15);
  }

  lemma {:induction false} FloorShape(count: int) returns (batches: nat)
    requires count >= 2
    ensures Floor(count) == count - BATCH_SIZE * batches && 2 - BATCH_SIZE <= Floor(count) <= 1
    decreases count
  {
    if count > BATCH_SIZE + 1 {
      batches := FloorShape(count - BATCH_SIZE);
      batches := batches + 1;
    } else {
      batches := 1;
    }
  }

  /** The floor of a scan is at most 1, and request 1 itself is asked for unless the count is one
      more than a multiple of the batch size. */
  lemma FloorExact(count: int)
    requires count >= 2
    ensures -18 <= Floor(count) <= 1 && (Floor(count) == 1 <==> count % 20 == 1)
  {
    hide Floor;
    var batches := FloorShape(count);
    var f := Floor(count);
    assert count == BATCH_SIZE * batches + f;
  }

  /** What the scan returns when requests are layered and ids start at 1: the live requests from 2
      on, and request 1 exactly when count % 20 is not 1. */
  lemma ScanIsFullScan(q: Query, id: int)
    requires Layered(q, q.count) && q.count >= 2 && forall i :: i < 1 ==> !q.fetch(i).Got?
    ensures Stop(q, q.count) < id <= q.count && Live(q, id)
            <==> Live(q, id) && (2 <= id <= q.count || (id == 1 && q.count % 20 != 1))
  {
    FloorExact(q.count);
    EarlyExitExact(q, q.count);
  }

  // ---------------------------------------------------------------- misses per validator

  function MissedBy(rs: seq<Request>, v: Validator): seq<Request> {
    if rs == [] then []
    else MissedBy(rs[..|rs| - 1], v) + (if v in rs[|rs| - 1].missed then [rs[|rs| - 1]] else [])
  }

  lemma {:induction false} MissedByExact(rs: seq<Request>, v: Validator, r: Request)
    ensures r in MissedBy(rs, v) <==> r in rs && v in r.missed
    decreases |rs|
  {
    if rs != [] {
      MissedByExact(rs[..|rs| - 1], v, r);
      assert rs == rs[..|rs| - 1] + [rs[|rs| - 1]];
    }
  }

  lemma {:induction false} MissedByDistinct(rs: seq<Request>, v: Validator)
    requires DistinctIds(rs)
    ensures DistinctIds(MissedBy(rs, v))
    decreases |rs|
  {
    if rs != [] {
      var init, last := rs[..|rs| - 1], rs[|rs| - 1];
      MissedByDistinct(init, v);
      var m := MissedBy(init, v);
      forall j | 0 <= j < |m| ensures m[j].id != last.id {
        MissedByExact(init, v, m[j]);
        var k :| 0 <= k < |init| && init[k] == m[j];
        assert rs[k].id != rs[|rs| - 1].id;
      }
    }
  }

  /** MaxMisses is the largest number of blocks passed over the validator's missed requests, and 0
      when it has none. */
  method MapMisses(rs: seq<Request>, v: Validator) returns (maxMisses: int, failed: seq<Request>)
    ensures failed == MissedBy(rs, v)
    ensures maxMisses >= 0 && forall r :: r in failed ==> r.blocksPassed <= maxMisses
    ensures maxMisses > 0 ==> exists r :: r in failed && r.blocksPassed == maxMisses
  {
    maxMisses, failed := 0, [];
    for k := 0 to |rs|
      invariant failed == MissedBy(rs[..k], v)
      invariant maxMisses >= 0 && forall r :: r in failed ==> r.blocksPassed <= maxMisses
      invariant maxMisses > 0 ==> exists r :: r in failed && r.blocksPassed == maxMisses
    {
      assert rs[..k + 1][..k] == rs[..k];
      if v in rs[k].missed {
        ghost var before := failed;
        if rs[k].blocksPassed > maxMisses {
          maxMisses := rs[k].blocksPassed;
        }
        failed := failed + [rs[k]];
        assert rs[k] in failed && forall r :: r in before ==> r in failed;
      }
    }
    assert rs[..|rs|] == rs;
  }

  lemma ScannedExact(q: Query, rs: seq<Request>, r: Request)
    requires forall id :: HasId(rs, id) <==> Stop(q, q.count) < id <= q.count && Live(q, id)
    requires forall k :: 0 <= k < |rs| ==> Live(q, rs[k].id) && rs[k] == RequestOf(q, rs[k].id)
    ensures r in rs <==> Stop(q, q.count) < r.id <= q.count && Live(q, r.id) && r == RequestOf(q, r.id)
  {
  }
}
