/** Diffing successive snapshots of missed oracle requests
    (internal/packages/duty/yoda/processor/processor.go, lines 7-37;
    internal/packages/duty/yoda/collector/collector.go, lines 147-257). */
module YodaMisses {
  import opened IntSets
  import opened YodaScan

  datatype ValidatorStatus = ValidatorStatus(address: Validator, moniker: string, maxMisses: int,
      requests: seq<Request>)
  type Snapshot = seq<ValidatorStatus>

  datatype MissedRequest = MissedRequest(validator: ValidatorStatus, request: Request)

  /** An open miss: a validator and the request it has not answered. */
  datatype Pair = Pair(validator: Validator, id: int)

  // ---------------------------------------------------------------- what a snapshot says

  /** Ids not above zero are placeholders and are never reported. */
  function PairsOf(v: ValidatorStatus): set<Pair> {
    set k | 0 <= k < |v.requests| && v.requests[k].id > 0 :: Pair(v.address, v.requests[k].id)
  }

  function Open(s: Snapshot): set<Pair> {
    if s == [] then {} else Open(s[..|s| - 1]) + PairsOf(s[|s| - 1])
  }

  function Addresses(s: Snapshot): set<Validator> {
    set k | 0 <= k < |s| :: s[k].address
  }

  /** One entry per validator and one per request, as the scan delivers them. */
  ghost predicate WellFormed(s: Snapshot) {
    && (forall i, j :: 0 <= i < j < |s| ==> s[i].address != s[j].address)
    && (forall i :: 0 <= i < |s| ==> DistinctIds(s[i].requests))
  }

  lemma {:induction false} OpenExact(s: Snapshot, p: Pair)
    ensures p in Open(s) <==> exists i :: 0 <= i < |s| && p in PairsOf(s[i])
    decreases |s|
  {
    if s != [] {
      var init := s[..|s| - 1];
      OpenExact(init, p);
      if exists i :: 0 <= i < |s| && p in PairsOf(s[i]) {
        var i :| 0 <= i < |s| && p in PairsOf(s[i]);
        assert i < |init| ==> init[i] == s[i];
      }
      if exists i :: 0 <= i < |init| && p in PairsOf(init[i]) {
        var i :| 0 <= i < |init| && p in PairsOf(init[i]);
        assert s[i] == init[i];
      }
    }
  }

  /** Misses that ended between two snapshots, for validators still listed. */
  function Finished(old': Snapshot, new': Snapshot): set<Pair> {
    set p | p in Open(old') && p !in Open(new') && p.validator in Addresses(new')
  }

  /** Misses whose validator left while they were open. */
  function Dropped(old': Snapshot, new': Snapshot): set<Pair> {
    set p | p in Open(old') && p.validator !in Addresses(new')
  }

  // ---------------------------------------------------------------- the processor

  type IdSets = map<Validator, set<int>>

  function IdsOf(v: ValidatorStatus): set<int> {
    set k | 0 <= k < |v.requests| :: v.requests[k].id
  }

  /** Later entries of the same validator replace earlier ones. */
  function IdSetsOf(s: Snapshot): IdSets {
    if s == [] then map[] else IdSetsOf(s[..|s| - 1])[s[|s| - 1].address := IdsOf(s[|s| - 1])]
  }

  /** Reports of one validator: its requests that the new snapshot no longer lists. */
  function ReportsOf(v: ValidatorStatus, ids: set<int>, n: nat): seq<MissedRequest>
    requires n <= |v.requests|
  {
    if n == 0 then []
    else ReportsOf(v, ids, n - 1) +
         (if v.requests[n - 1].id !in ids && v.requests[n - 1].id > 0 then [MissedRequest(v, v.requests[n - 1])]
             else [])
  }

  function Reports(old': Snapshot, ids: IdSets): seq<MissedRequest> {
    if old' == [] then []
    else
      var v := old'[|old'| - 1];
      Reports(old'[..|old'| - 1], ids) + (if v.address in ids then ReportsOf(v, ids[v.address], |v.requests|) else [])
  }

  method ProcessYodaMisses(old': Snapshot, new': Snapshot) returns (reqsFinished: seq<MissedRequest>)
    ensures reqsFinished == Reports(old', IdSetsOf(new'))
    ensures forall r :: r in reqsFinished ==> r.validator in old' && r.request in r.validator.requests
  {
    var newRequestsMap: IdSets := map[];
    for i := 0 to |new'|
      invariant newRequestsMap == IdSetsOf(new'[..i])
    {
      assert new'[..i + 1][..i] == new'[..i];
      var reqIds: set<int> := {};
      for k := 0 to |new'[i].requests|
        invariant reqIds == set j | 0 <= j < k :: new'[i].requests[j].id
      {
        reqIds := reqIds + {new'[i].requests[k].id};
      }
      newRequestsMap := newRequestsMap[new'[i].address := reqIds];
    }
    assert new'[..|new'|] == new';
    reqsFinished := [];
    for i := 0 to |old'|
      invariant reqsFinished == Reports(old'[..i], newRequestsMap)
    {
      assert old'[..i + 1][..i] == old'[..i];
      var v := old'[i];
      if v.address in newRequestsMap {
        ghost var before := reqsFinished;
        for k := 0 to |v.requests|
          invariant reqsFinished == before + ReportsOf(v, newRequestsMap[v.address], k)
        {
          if v.requests[k].id !in newRequestsMap[v.address] && v.requests[k].id > 0 {
            reqsFinished := reqsFinished + [MissedRequest(v, v.requests[k])];
          }
        }
      }
    }
    assert old'[..|old'|] == old';
    ReportsCarry(old', newRequestsMap);
  }

  /** The ids looked up for a listed validator are those of its last entry. */
  lemma {:induction false} LastEntryCounts(s: Snapshot, i: nat)
    requires i < |s| && forall j :: i < j < |s| ==> s[j].address != s[i].address
    ensures s[i].address in IdSetsOf(s)
    ensures forall id :: id in IdSetsOf(s)[s[i].address] <==>
              exists k :: 0 <= k < |s[i].requests| && s[i].requests[k].id == id
    decreases |s|
  {
    if i < |s| - 1 {
      LastEntryCounts(s[..|s| - 1], i);
    }
  }

  // ---------------------------------------------------------------- what a report carries

  lemma {:induction false} ReportsOfCarry(v: ValidatorStatus, ids: set<int>, n: nat, r: MissedRequest)
    requires n <= |v.requests|
    ensures r in ReportsOf(v, ids, n) <==>
            r.validator == v && r.request.id > 0 && r.request.id !in ids && r.request in v.requests[..n]
    decreases n
  {
    if n > 0 {
      ReportsOfCarry(v, ids, n - 1, r);
      assert v.requests[..n] == v.requests[..n - 1] + [v.requests[n - 1]];
    }
  }

  lemma {:induction false} ReportsExactly(old': Snapshot, ids: IdSets, r: MissedRequest)
    ensures r in Reports(old', ids) <==>
            && r.validator in old' && r.request in r.validator.requests && r.request.id > 0
            && r.validator.address in ids && r.request.id !in ids[r.validator.address]
    decreases |old'|
  {
    if old' != [] {
      var init, v := old'[..|old'| - 1], old'[|old'| - 1];
      assert old' == init + [v];
      ReportsExactly(init, ids, r);
      if v.address in ids {
        ReportsOfCarry(v, ids[v.address], |v.requests|, r);
        assert v.requests[..|v.requests|] == v.requests;
      }
    }
  }

  /** Each report names an entry of the old snapshot and, unchanged, one of its requests. */
  lemma ReportsCarry(old': Snapshot, ids: IdSets)
    ensures forall r :: r in Reports(old', ids) ==> r.validator in old' && r.request in r.validator.requests
  {
    forall r | r in Reports(old', ids) ensures r.validator in old' && r.request in r.validator.requests {
      ReportsExactly(old', ids, r);
    }
  }

  /** Reports come in the order of the entries, ... */
  lemma {:induction false} ReportsInOrder(old': Snapshot, more: Snapshot, ids: IdSets)
    ensures Reports(old' + more, ids) == Reports(old', ids) + Reports(more, ids)
    decreases |more|
  {
    if more == [] {
      assert old' + more == old';
    } else {
      var init, v := more[..|more| - 1], more[|more| - 1];
      hide Reports, ReportsOf;
      assert old' + more == old' + init + [v];
      ReportsInOrder(old', init, ids);
      ReportsSnoc(old' + init, v, ids);
      ReportsSnoc(init, v, ids);
      assert more == init + [v];
    }
  }

  lemma ReportsSnoc(old': Snapshot, v: ValidatorStatus, ids: IdSets)
    ensures Reports(old' + [v], ids) ==
            Reports(old', ids) + if v.address in ids then ReportsOf(v, ids[v.address], |v.requests|) else []
  {
    hide ReportsOf;
    assert (old' + [v])[..|old'|] == old';
  }

  /** ... and, within one entry, in the order of its requests. */
  lemma ReportsOfInOrder(v: ValidatorStatus, ids: IdSets, n: nat)
    requires v.address in ids && n < |v.requests|
    ensures ReportsOf(v, ids[v.address], n + 1) == ReportsOf(v, ids[v.address], n) +
            if v.requests[n].id > 0 && v.requests[n].id !in ids[v.address] then [MissedRequest(v, v.requests[n])]
            else []
    ensures Reports([v], ids) == ReportsOf(v, ids[v.address], |v.requests|)
  {
    assert Reports([], ids) == [];
  }

  // ---------------------------------------------------------------- reports are the finished misses

  function PairOf(r: MissedRequest): Pair {
    Pair(r.validator.address, r.request.id)
  }

  function PairsIn(rs: seq<MissedRequest>): (r: seq<Pair>)
    ensures |r| == |rs| && forall k :: 0 <= k < |rs| ==> r[k] == PairOf(rs[k])
  {
    seq(|rs|, k requires 0 <= k < |rs| => PairOf(rs[k]))
  }

  lemma {:induction false} IdSetsExact(s: Snapshot, v: Validator)
    requires WellFormed(s)
    ensures v in IdSetsOf(s) <==> v in Addresses(s)
    ensures v in IdSetsOf(s) ==> forall id :: id > 0 ==> (id in IdSetsOf(s)[v] <==> Pair(v, id) in Open(s))
    decreases |s|
  {
    if s != [] {
      var init, last := s[..|s| - 1], s[|s| - 1];
      assert WellFormed(init);
      IdSetsExact(init, v);
      AddressesSplit(s);
      if v == last.address {
        forall id | id > 0 ensures id in IdsOf(last) <==> Pair(v, id) in Open(s) {
          IdsArePairs(last, id);
          OpenNeedsAddress(init, Pair(v, id));
          forall i | 0 <= i < |init| ensures init[i].address != v {
            assert s[i].address != s[|s| - 1].address;
          }
        }
      } else if v in IdSetsOf(s) {
        forall id | id > 0 ensures id in IdSetsOf(s)[v] <==> Pair(v, id) in Open(s) {
          assert Pair(v, id) !in PairsOf(last);
        }
      }
    }
  }

  lemma AddressesSplit(s: Snapshot)
    requires s != []
    ensures Addresses(s) == Addresses(s[..|s| - 1]) + {s[|s| - 1].address}
  {
  }

  lemma IdsArePairs(v: ValidatorStatus, id: int)
    requires id > 0
    ensures id in IdsOf(v) <==> Pair(v.address, id) in PairsOf(v)
  {
  }

  lemma OpenNeedsAddress(s: Snapshot, p: Pair)
    ensures p in Open(s) ==> exists i :: 0 <= i < |s| && s[i].address == p.validator
  {
    OpenExact(s, p);
    if p in Open(s) {
      var i :| 0 <= i < |s| && p in PairsOf(s[i]);
      assert s[i].address == p.validator;
    }
  }

  ghost predicate Listed(v: ValidatorStatus, n: nat, id: int)
    requires n <= |v.requests|
  {
    exists k :: 0 <= k < n && v.requests[k].id == id
  }

  lemma ListedStep(v: ValidatorStatus, n: nat, id: int)
    requires 0 < n <= |v.requests| && DistinctIds(v.requests)
    ensures Listed(v, n, id) <==> Listed(v, n - 1, id) || v.requests[n - 1].id == id
    ensures Listed(v, n - 1, id) ==> v.requests[n - 1].id != id
  {
  }

  lemma {:induction false} ReportsOfExact(v: ValidatorStatus, ids: set<int>, n: nat, p: Pair)
    requires n <= |v.requests| && DistinctIds(v.requests)
    ensures multiset(PairsIn(ReportsOf(v, ids, n)))[p] ==
            if p.validator == v.address && p.id > 0 && p.id !in ids && Listed(v, n, p.id) then 1 else 0
    decreases n
  {
    hide Listed, DistinctIds;
    if n == 0 {
      NothingListed(v, p.id);
    } else {
      ReportsOfExact(v, ids, n - 1, p);
      ListedStep(v, n, p.id);
      var before, r := ReportsOf(v, ids, n - 1), v.requests[n - 1];
      if r.id !in ids && r.id > 0 {
        assert PairsIn(ReportsOf(v, ids, n)) == PairsIn(before) + [Pair(v.address, r.id)];
      } else {
        assert ReportsOf(v, ids, n) == before;
      }
    }
  }

  lemma NothingListed(v: ValidatorStatus, id: int)
    ensures !Listed(v, 0, id)
  {
  }

  lemma {:induction false} ReportsExact(old': Snapshot, ids: IdSets, p: Pair)
    requires WellFormed(old')
    ensures multiset(PairsIn(Reports(old', ids)))[p] ==
            if p in Open(old') && p.validator in ids && p.id !in ids[p.validator] then 1 else 0
    decreases |old'|
  {
    hide WellFormed, PairsOf, Listed, ReportsOf, Addresses;
    if old' != [] {
      var init, v := old'[..|old'| - 1], old'[|old'| - 1];
      WellFormedSplit(old');
      ReportsExact(init, ids, p);
      if p in Open(init) {
        OpenAddress(init, p);
      }
      var more := if v.address in ids then ReportsOf(v, ids[v.address], |v.requests|) else [];
      assert PairsIn(Reports(old', ids)) == PairsIn(Reports(init, ids)) + PairsIn(more);
      if v.address in ids {
        ReportsOfExact(v, ids[v.address], |v.requests|, p);
      }
      PairsOfExact(v, p);
    }
  }

  lemma WellFormedSplit(s: Snapshot)
    requires WellFormed(s) && s != []
    ensures WellFormed(s[..|s| - 1]) && DistinctIds(s[|s| - 1].requests)
    ensures s[|s| - 1].address !in Addresses(s[..|s| - 1])
  {
  }

  lemma PairsOfExact(v: ValidatorStatus, p: Pair)
    ensures p in PairsOf(v) <==> p.validator == v.address && p.id > 0 && Listed(v, |v.requests|, p.id)
  {
  }

  lemma {:induction false} OpenIdsPositive(s: Snapshot, p: Pair)
    requires p in Open(s)
    ensures p.id > 0
    decreases |s|
  {
    if p in Open(s[..|s| - 1]) {
      OpenIdsPositive(s[..|s| - 1], p);
    }
  }

  /** Each finished miss is reported once, and nothing else is. */
  lemma ReportsAreFinished(old': Snapshot, new': Snapshot)
    requires WellFormed(old') && WellFormed(new')
    ensures multiset(PairsIn(Reports(old', IdSetsOf(new')))) == multiset(Finished(old', new'))
    ensures |Reports(old', IdSetsOf(new'))| == |Finished(old', new')|
  {
    var rs := Reports(old', IdSetsOf(new'));
    var m, f := multiset(PairsIn(rs)), multiset(Finished(old', new'));
    forall p: Pair ensures m[p] == f[p] {
      ReportsExact(old', IdSetsOf(new'), p);
      IdSetsExact(new', p.validator);
      if p in Open(old') {
        OpenIdsPositive(old', p);
        assert Pair(p.validator, p.id) == p;
      }
    }
    assert m == f;
    assert |m| == |PairsIn(rs)|;
  }

  // ---------------------------------------------------------------- the collector

  /** A poll of the node: a status for every validator, or an error. */
  datatype Poll = Status(snapshot: Snapshot) | Error

  datatype State = State(misses: Snapshot, reported: seq<MissedRequest>)

  function PollStep(s: State, p: Poll): State {
    match p
    case Error => s
    case Status(new') => State(new', s.reported + Reports(s.misses, IdSetsOf(new')))
  }

  function PollRun(s: State, ps: seq<Poll>): State {
    if ps == [] then s else PollStep(PollRun(s, ps[..|ps| - 1]), ps[|ps| - 1])
  }

  /** The carried snapshot is replaced after a successful poll only. */
  class Collector {
    var yodaRequestMisses: Snapshot
    var reported: seq<MissedRequest>

    constructor ()
      ensures yodaRequestMisses == [] && reported == []
    {
      yodaRequestMisses, reported := [], [];
    }

    ghost function Abs(): State
      reads this
    {
      State(yodaRequestMisses, reported)
    }

    method LoopOnce(p: Poll)
      modifies this
      ensures Abs() == PollStep(old(Abs()), p)
    {
      match p {
        case Error =>
          return;
        case Status(new') =>
          var reqsFinished := ProcessYodaMisses(yodaRequestMisses, new');
          reported := reported + reqsFinished;
          yodaRequestMisses := new';
      }
    }
  }

  // ---------------------------------------------------------------- conservation

  ghost predicate AllWellFormed(ps: seq<Poll>) {
    forall i :: 0 <= i < |ps| && ps[i].Status? ==> WellFormed(ps[i].snapshot)
  }

  /** Misses that a poll opens, and misses it loses with their validator. */
  function OpenedBy(s: State, p: Poll): set<Pair> {
    if p.Status? then Open(p.snapshot) - Open(s.misses) else {}
  }

  function DroppedBy(s: State, p: Poll): set<Pair> {
    if p.Status? then Dropped(s.misses, p.snapshot) else {}
  }

  function Tally(b: bool): nat {
    if b then 1 else 0
  }

  function TimesOpened(s: State, ps: seq<Poll>, p: Pair): nat {
    if ps == [] then 0
    else TimesOpened(s, ps[..|ps| - 1], p) + Tally(p in OpenedBy(PollRun(s, ps[..|ps| - 1]), ps[|ps| - 1]))
  }

  function TimesDropped(s: State, ps: seq<Poll>, p: Pair): nat {
    if ps == [] then 0
    else TimesDropped(s, ps[..|ps| - 1], p) + Tally(p in DroppedBy(PollRun(s, ps[..|ps| - 1]), ps[|ps| - 1]))
  }

  function TimesReported(rs: seq<MissedRequest>, p: Pair): nat {
    multiset(PairsIn(rs))[p]
  }

  lemma OpenAddress(s: Snapshot, p: Pair)
    requires p in Open(s)
    ensures p.validator in Addresses(s)
  {
  }

  lemma ReportedStep(s: State, poll: Poll, p: Pair)
    requires WellFormed(s.misses) && (poll.Status? ==> WellFormed(poll.snapshot))
    ensures Tally(p in Open(s.misses)) + Tally(p in OpenedBy(s, poll)) + TimesReported(s.reported, p)
         == TimesReported(PollStep(s, poll).reported, p) + Tally(p in DroppedBy(s, poll))
             + Tally(p in Open(PollStep(s, poll).misses))
  {
    if poll.Status? {
      var new' := poll.snapshot;
      ReportsAreFinished(s.misses, new');
      var more := Reports(s.misses, IdSetsOf(new'));
      assert PairsIn(s.reported + more) == PairsIn(s.reported) + PairsIn(more);
      if p in Open(new') {
        OpenAddress(new', p);
      }
    }
  }

  /** Miss reports are conserved: over any run of polls, failed ones included, a miss has been
      opened as often as it was reported, lost with its validator, or is still open. */
  lemma {:induction false} MissesConserved(ps: seq<Poll>, p: Pair)
    requires AllWellFormed(ps)
    ensures var s := State([], []);
            && WellFormed(PollRun(s, ps).misses)
            && TimesOpened(s, ps, p) == TimesReported(PollRun(s, ps).reported, p) + TimesDropped(s, ps, p)
                                        + Tally(p in Open(PollRun(s, ps).misses))
    decreases |ps|
  {
    var s := State([], []);
    if ps != [] {
      hide WellFormed, Open, OpenedBy, DroppedBy, PollStep, TimesReported;
      var init := ps[..|ps| - 1];
      AllButLast(ps);
      MissesConserved(init, p);
      ReportedStep(PollRun(s, init), ps[|ps| - 1], p);
      StepWellFormed(PollRun(s, init), ps[|ps| - 1]);
    }
  }

  lemma AllButLast(ps: seq<Poll>)
    requires ps != [] && AllWellFormed(ps)
    ensures AllWellFormed(ps[..|ps| - 1]) && (ps[|ps| - 1].Status? ==> WellFormed(ps[|ps| - 1].snapshot))
  {
  }

  lemma StepWellFormed(s: State, p: Poll)
    requires WellFormed(s.misses) && (p.Status? ==> WellFormed(p.snapshot))
    ensures WellFormed(PollStep(s, p).misses)
  {
  }

  /** A miss that never reopens is reported at most once. */
  lemma ReportedAtMostOnce(ps: seq<Poll>, p: Pair)
    requires AllWellFormed(ps) && TimesOpened(State([], []), ps, p) <= 1
    ensures TimesReported(PollRun(State([], []), ps).reported, p) <= 1
    ensures p in Open(PollRun(State([], []), ps).misses) ==> TimesReported(PollRun(State([], []), ps).reported, p) == 0
  {
    MissesConserved(ps, p);
  }

  // ---------------------------------------------------------------- where a report comes from

  /** Polls i and j succeeded, and every poll between them failed. */
  predicate Successive(ps: seq<Poll>, i: int, j: int) {
    && 0 <= i < j < |ps| && ps[i].Status? && ps[j].Status?
    && forall k :: i < k < j ==> ps[k].Error?
  }

  /** The report is a request of poll i that poll j, though it lists the validator, does not show. */
  ghost predicate EndedBetween(ps: seq<Poll>, i: int, j: int, r: MissedRequest) {
    && Successive(ps, i, j) && r.validator in ps[i].snapshot && r.request in r.validator.requests
    && r.request.id > 0 && r.validator.address in Addresses(ps[j].snapshot)
    && Pair(r.validator.address, r.request.id) !in Open(ps[j].snapshot)
  }

  /** The carried snapshot is the one of the last poll that succeeded. */
  lemma {:induction false} CarriedIsLast(ps: seq<Poll>, i: int)
    requires -1 <= i < |ps| && (i >= 0 ==> ps[i].Status?) && forall k :: i < k < |ps| ==> ps[k].Error?
    ensures PollRun(State([], []), ps).misses == if i < 0 then [] else ps[i].snapshot
    decreases |ps|
  {
    if i < |ps| - 1 {
      CarriedIsLast(ps[..|ps| - 1], i);
    }
  }

  lemma {:induction false} LastSuccess(ps: seq<Poll>) returns (i: int)
    ensures -1 <= i < |ps| && (i >= 0 ==> ps[i].Status?) && forall k :: i < k < |ps| ==> ps[k].Error?
    decreases |ps|
  {
    if ps == [] || ps[|ps| - 1].Status? {
      i := |ps| - 1;
    } else {
      i := LastSuccess(ps[..|ps| - 1]);
    }
  }

  lemma NewReport(ps: seq<Poll>, i: int, r: MissedRequest)
    requires AllWellFormed(ps) && ps != [] && ps[|ps| - 1].Status?
    requires -1 <= i < |ps| - 1 && (i >= 0 ==> ps[i].Status?) && forall k :: i < k < |ps| - 1 ==> ps[k].Error?
    ensures var mid := PollRun(State([], []), ps[..|ps| - 1]);
            r in Reports(mid.misses, IdSetsOf(ps[|ps| - 1].snapshot)) <==> EndedBetween(ps, i, |ps| - 1, r)
  {
    hide WellFormed, Reports, IdSetsOf, Open, Addresses;
    var mid, new' := PollRun(State([], []), ps[..|ps| - 1]), ps[|ps| - 1].snapshot;
    AllButLast(ps);
    CarriedIsLast(ps[..|ps| - 1], i);
    ReportsExactly(mid.misses, IdSetsOf(new'), r);
    IdSetsExact(new', r.validator.address);
  }

  /** Over any run of polls, failed ones included: what is reported is exactly, with all it carried, what
      one successful poll showed and the next successful one did not. */
  lemma {:induction false} ReportedExactly(ps: seq<Poll>, r: MissedRequest)
    requires AllWellFormed(ps)
    ensures r in PollRun(State([], []), ps).reported <==> exists i, j :: EndedBetween(ps, i, j, r)
    decreases |ps|
  {
    if ps != [] {
      hide EndedBetween, WellFormed, Reports;
      var init, n := ps[..|ps| - 1], |ps| - 1;
      AllButLast(ps);
      ReportedExactly(init, r);
      forall i, j | j < n ensures EndedBetween(ps, i, j, r) <==> EndedBetween(init, i, j, r) {
        EndedBefore(ps, i, j, r);
      }
      var l := LastSuccess(init);
      EndedLast(ps, l, r);
      if ps[n].Status? {
        NewReport(ps, l, r);
      }
    } else {
      forall i, j ensures !EndedBetween(ps, i, j, r) {
      }
    }
  }

  lemma EndedBefore(ps: seq<Poll>, i: int, j: int, r: MissedRequest)
    requires ps != [] && j < |ps| - 1
    ensures EndedBetween(ps, i, j, r) <==> EndedBetween(ps[..|ps| - 1], i, j, r)
  {
    hide Open, Addresses;
    var init := ps[..|ps| - 1];
    assert forall k :: 0 <= k < |init| ==> init[k] == ps[k];
  }

  /** A run that ends in the last poll started in the last successful one before it. */
  lemma EndedLast(ps: seq<Poll>, l: int, r: MissedRequest)
    requires ps != [] && -1 <= l < |ps| - 1
    requires (l >= 0 ==> ps[l].Status?) && forall k :: l < k < |ps| - 1 ==> ps[k].Error?
    ensures forall i, j :: EndedBetween(ps, i, j, r) ==> j < |ps| && (j == |ps| - 1 ==> i == l && ps[j].Status?)
  {
    hide Open, Addresses;
  }

  // ---------------------------------------------------------------- totals

  function TotalOpened(s: State, ps: seq<Poll>): nat {
    if ps == [] then 0
    else TotalOpened(s, ps[..|ps| - 1]) + |OpenedBy(PollRun(s, ps[..|ps| - 1]), ps[|ps| - 1])|
  }

  function TotalDropped(s: State, ps: seq<Poll>): nat {
    if ps == [] then 0
    else TotalDropped(s, ps[..|ps| - 1]) + |DroppedBy(PollRun(s, ps[..|ps| - 1]), ps[|ps| - 1])|
  }

  lemma Balance(a: set<Pair>, b: set<Pair>, f: set<Pair>, d: set<Pair>)
    requires a - b == f + d && f !! d
    ensures |a| + |b - a| == |b| + |f| + |d|
  {
    var both := a * b;
    assert a == both + (a - b) && b == both + (b - a);
    assert both !! (a - b) && both !! (b - a);
  }

  lemma LeaversSplit(old': Snapshot, new': Snapshot)
    ensures Open(old') - Open(new') == Finished(old', new') + Dropped(old', new')
    ensures Finished(old', new') !! Dropped(old', new')
  {
    hide Open, Addresses;
    forall p | p in Open(new') ensures p.validator in Addresses(new') {
      OpenAddress(new', p);
    }
  }

  lemma TotalStep(s: State, poll: Poll)
    requires WellFormed(s.misses) && (poll.Status? ==> WellFormed(poll.snapshot))
    ensures |Open(s.misses)| + |OpenedBy(s, poll)| + |s.reported|
         == |PollStep(s, poll).reported| + |DroppedBy(s, poll)| + |Open(PollStep(s, poll).misses)|
  {
    hide WellFormed, Open, Finished, Dropped, Reports, IdSetsOf;
    if poll.Status? {
      var new' := poll.snapshot;
      ReportsAreFinished(s.misses, new');
      LeaversSplit(s.misses, new');
      Balance(Open(s.misses), Open(new'), Finished(s.misses, new'), Dropped(s.misses, new'));
    }
  }

  /** In total: openings equal reports, plus the misses still open, plus those lost with their
      validator. */
  lemma {:induction false} TotalsConserved(ps: seq<Poll>)
    requires AllWellFormed(ps)
    ensures var s := State([], []);
            && WellFormed(PollRun(s, ps).misses)
            && TotalOpened(s, ps) == |PollRun(s, ps).reported| + TotalDropped(s, ps) + |Open(PollRun(s, ps).misses)|
    decreases |ps|
  {
    var s := State([], []);
    if ps != [] {
      hide WellFormed, Open, OpenedBy, DroppedBy, PollStep;
      var init := ps[..|ps| - 1];
      AllButLast(ps);
      TotalsConserved(init);
      TotalStep(PollRun(s, init), ps[|ps| - 1]);
      StepWellFormed(PollRun(s, init), ps[|ps| - 1]);
    }
  }

  /** The polls list one set of validators throughout. */
  ghost predicate FixedValidators(ps: seq<Poll>, vs: set<Validator>) {
    forall i :: 0 <= i < |ps| && ps[i].Status? ==> Addresses(ps[i].snapshot) == vs
  }

  /** With a fixed validator set nothing is lost: openings equal reports plus open misses. */
  lemma {:induction false} NothingLost(ps: seq<Poll>, vs: set<Validator>)
    requires AllWellFormed(ps) && FixedValidators(ps, vs)
    ensures var s := State([], []);
            && TotalDropped(s, ps) == 0
            && TotalOpened(s, ps) == |PollRun(s, ps).reported| + |Open(PollRun(s, ps).misses)|
            && Addresses(PollRun(s, ps).misses) <= vs
    decreases |ps|
  {
    var s := State([], []);
    TotalsConserved(ps);
    if ps != [] {
      var init := ps[..|ps| - 1];
      AllButLast(ps);
      NothingLost(init, vs);
      var mid := PollRun(s, init);
      forall p | p in Open(mid.misses) ensures p.validator in vs {
        OpenAddress(mid.misses, p);
      }
      assert DroppedBy(mid, ps[|ps| - 1]) == {};
    }
  }

  // ---------------------------------------------------------------- snapshots from the scan

  /** A bonded validator as the chain lists it. */
  datatype Listing = Listing(address: Validator, moniker: string)

  /** Exactly the live requests the validator missed, and the greatest age among them: 0 if there
      is none, never beyond the window. */
  ghost predicate StatusExact(q: Query, v: Listing, st: ValidatorStatus) {
    && st.address == v.address && st.moniker == v.moniker
    && (forall r :: r in st.requests <==>
          Stop(q, q.count) < r.id <= q.count && Live(q, r.id) && r == RequestOf(q, r.id) && v.address in r.missed)
    && (if st.requests == [] then st.maxMisses == 0
        else && (forall r :: r in st.requests ==> r.blocksPassed <= st.maxMisses)
             && exists r :: r in st.requests && r.blocksPassed == st.maxMisses)
    && 0 <= st.maxMisses && (q.window >= 0 ==> st.maxMisses <= q.window)
  }

  lemma MissesExact(q: Query, rs: seq<Request>, v: Listing, maxMisses: int, failed: seq<Request>)
    requires forall id :: HasId(rs, id) <==> Stop(q, q.count) < id <= q.count && Live(q, id)
    requires forall k :: 0 <= k < |rs| ==> Live(q, rs[k].id) && rs[k] == RequestOf(q, rs[k].id)
    requires failed == MissedBy(rs, v.address)
    requires maxMisses >= 0 && forall r :: r in failed ==> r.blocksPassed <= maxMisses
    requires maxMisses > 0 ==> exists r :: r in failed && r.blocksPassed == maxMisses
    ensures StatusExact(q, v, ValidatorStatus(v.address, v.moniker, maxMisses, failed))
  {
    forall r ensures r in failed <==>
              Stop(q, q.count) < r.id <= q.count && Live(q, r.id) && r == RequestOf(q, r.id) && v.address in r.missed {
      MissedByExact(rs, v.address, r);
      ScannedExact(q, rs, r);
    }
    if failed != [] && maxMisses == 0 {
      assert failed[0] in failed && failed[0].blocksPassed == 0;
    }
  }

  /** Every entry describes a listed validator. */
  ghost predicate AllExact(q: Query, validators: seq<Listing>, s: Snapshot) {
    forall k :: 0 <= k < |s| ==> exists j :: 0 <= j < |validators| && StatusExact(q, validators[j], s[k])
  }

  lemma SnapshotGrows(q: Query, validators: seq<Listing>, s: Snapshot, st: ValidatorStatus, j: nat)
    requires WellFormed(s) && AllExact(q, validators, s) && st.address !in Addresses(s) && DistinctIds(st.requests)
    requires j < |validators| && StatusExact(q, validators[j], st)
    ensures WellFormed(s + [st]) && AllExact(q, validators, s + [st])
            && Addresses(s + [st]) == Addresses(s) + {st.address}
  {
    hide StatusExact, DistinctIds;
    AddressesSplit(s + [st]);
    assert (s + [st])[..|s|] == s;
    forall i | 0 <= i < |s| ensures s[i].address != st.address {
      assert s[i].address in Addresses(s);
    }
  }

  /** The addresses of the listed validators that are neither awaited nor silent. */
  function Answered(validators: seq<Listing>, pending: set<int>, silent: set<Validator>): set<Validator> {
    set k | 0 <= k < |validators| && k !in pending && validators[k].address !in silent :: validators[k].address
  }

  lemma AnsweredGrows(validators: seq<Listing>, pending: set<int>, silent: set<Validator>, j: int)
    requires 0 <= j < |validators| && j in pending
    requires forall i, k :: 0 <= i < k < |validators| ==> validators[i].address != validators[k].address
    ensures validators[j].address !in Answered(validators, pending, silent)
    ensures Answered(validators, pending - {j}, silent) ==
            Answered(validators, pending, silent) + if validators[j].address in silent then {}
                else {validators[j].address}
  {
    var more := Answered(validators, pending - {j}, silent);
    forall v | v in Answered(validators, pending, silent) ensures v in more {
      var k :| 0 <= k < |validators| && k !in pending && validators[k].address !in silent && validators[k].address == v;
      assert k !in pending - {j};
    }
    if validators[j].address !in silent {
      assert j !in pending - {j} && validators[j].address in more;
    }
  }

  ghost predicate SomeFailed(validators: seq<Listing>, pending: set<int>, failed: set<Validator>) {
    exists k :: 0 <= k < |validators| && k !in pending && validators[k].address in failed
  }

  /** A status poll: one scan, then the misses of each listed validator, whose own query may fail or
      stay silent; answers arrive in any order. A failure makes the poll fail, a silent validator is
      missing from it. */
  method GetYodaStatus(q: Query, validators: seq<Listing>, failed: set<Validator>, silent: set<Validator>)
    returns (p: Poll)
    requires forall i, j :: 0 <= i < j < |validators| ==> validators[i].address != validators[j].address
    ensures p.Error? <==> SomeFailed(validators, {}, failed)
    ensures p.Status? ==> WellFormed(p.snapshot) && AllExact(q, validators, p.snapshot)
    ensures p.Status? ==> Addresses(p.snapshot) == Answered(validators, {}, silent)
  {
    var rs := Scan(q);
    var pending := StartWorkers(0, |validators| - 1);
    var s: Snapshot := [];
    var errorCount := 0;
    hide StatusExact, Live, MissedBy, WellFormed, AllExact, Answered, DistinctIds;
    NothingYet(q, validators, pending, silent);
    while pending != {}
      invariant forall k :: k in pending ==> 0 <= k < |validators|
      invariant errorCount >= 0 && (errorCount > 0 <==> SomeFailed(validators, pending, failed))
      invariant WellFormed(s) && AllExact(q, validators, s)
      invariant errorCount == 0 ==> Addresses(s) == Answered(validators, pending, silent)
      invariant Addresses(s) <= Answered(validators, pending, silent)
      decreases |pending|
    {
      SomeMember(pending);
      var j :| j in pending;
      AnsweredGrows(validators, pending, silent, j);
      ghost var before := pending;
      pending := pending - {j};
      var v := validators[j];
      var maxMisses, misses := MapMisses(rs, v.address);
      if v.address in failed {
        errorCount := errorCount + 1;
        assert j !in pending;
      } else if v.address !in silent {
        MissesExact(q, rs, v, maxMisses, misses);
        MissedByDistinct(rs, v.address);
        var st := ValidatorStatus(v.address, v.moniker, maxMisses, misses);
        SnapshotGrows(q, validators, s, st, j);
        s := s + [st];
      }
      FailedGrows(validators, before, failed, j);
    }
    if errorCount > 0 {
      return Error;
    }
    return Status(s);
  }

  lemma NothingYet(q: Query, validators: seq<Listing>, pending: set<int>, silent: set<Validator>)
    requires forall k :: 0 <= k < |validators| ==> k in pending
    ensures WellFormed([]) && AllExact(q, validators, [])
            && Addresses([]) == Answered(validators, pending, silent) == {}
  {
  }

  lemma FailedGrows(validators: seq<Listing>, pending: set<int>, failed: set<Validator>, j: int)
    requires 0 <= j < |validators| && j in pending
    ensures SomeFailed(validators, pending - {j}, failed) <==>
            SomeFailed(validators, pending, failed) || validators[j].address in failed
  {
    if SomeFailed(validators, pending, failed) {
      var k :| 0 <= k < |validators| && k !in pending && validators[k].address in failed;
      assert k !in pending - {j};
    }
    if validators[j].address in failed {
      assert j !in pending - {j};
    }
  }
}
