/** The recent-miss query over the vote table
    (internal/packages/consensus/voteindexer/repository/repository.go, lines 91-119). */
module RecentVotes {
  import opened VoteChain
  import opened VoteSync

  const WINDOW := 100

  /** The row reported for one moniker; a moniker without votes in the window has none. */
  datatype Group = NoGroup | Recent(maxHeight: int, minHeight: int, missed: nat, committed: nat, proposed: nat)

  function MaxHeight(votes: seq<Vote>): int
    requires votes != []
  {
    var last := votes[|votes| - 1].height;
    if |votes| == 1 then last
    else
      var m := MaxHeight(votes[..|votes| - 1]);
      if m < last then last else m
  }

  function MinHeight(votes: seq<Vote>): int
    requires votes != []
  {
    var last := votes[|votes| - 1].height;
    if |votes| == 1 then last
    else
      var m := MinHeight(votes[..|votes| - 1]);
      if m > last then last else m
  }

  function Above(height: int): Vote -> bool {
    (v: Vote) => v.height > height
  }

  /** The WHERE clause; over an empty table the maximum is null and nothing is selected. */
  function RecentRows(votes: seq<Vote>): seq<Vote> {
    if votes == [] then [] else Filter(votes, Above(MaxHeight(votes) - WINDOW))
  }

  /** The JOIN with validator_info on the id. */
  predicate HasMoniker(info: InfoTable, id: int, moniker: string) {
    exists op :: op in info && info[op].id == id && info[op].moniker == moniker
  }

  function Matches(info: InfoTable, moniker: string, status: Status): Vote -> bool {
    (v: Vote) => v.status == status && HasMoniker(info, v.validator, moniker)
  }

  function Named(info: InfoTable, moniker: string): Vote -> bool {
    (v: Vote) => HasMoniker(info, v.validator, moniker)
  }

  /** The group of one moniker. */
  function SelectRecent(votes: seq<Vote>, info: InfoTable, moniker: string): Group {
    var rows := RecentRows(votes);
    var named := Filter(rows, Named(info, moniker));
    if named == [] then NoGroup
    else Recent(MaxHeight(named), MinHeight(named),
                |Filter(rows, Matches(info, moniker, Missed))|,
                |Filter(rows, Matches(info, moniker, Voted))|,
                |Filter(rows, Matches(info, moniker, Proposed))|)
  }

  // ---------------------------------------------------------------- the direct count

  /** Is the k-th validator of height h run under this moniker? */
  predicate IsNamed(c: Chain, info: InfoTable, h: int, k: nat, moniker: string)
    requires k < |c.block(h).validators|
  {
    var op := c.owner(c.block(h).validators[k]);
    op in info && info[op].moniker == moniker
  }

  /** How many of the first n validators of height h have this moniker and status. */
  function SlotCount(c: Chain, info: InfoTable, h: int, n: nat, moniker: string, status: Status): nat
    requires n <= |c.block(h).validators|
  {
    if n == 0 then 0
    else SlotCount(c, info, h, n - 1, moniker, status) +
         if IsNamed(c, info, h, n - 1, moniker) && StatusOf(c, h, n - 1) == status then 1 else 0
  }

  function DirectCount(c: Chain, info: InfoTable, lo: int, hi: int, moniker: string, status: Status): nat
    decreases hi - lo
  {
    if hi <= lo then 0
    else DirectCount(c, info, lo, hi - 1, moniker, status) +
         SlotCount(c, info, hi - 1, |c.block(hi - 1).validators|, moniker, status)
  }

  /** Some validator of height h is run under this moniker. */
  predicate Serves(c: Chain, info: InfoTable, h: int, moniker: string) {
    exists k :: 0 <= k < |c.block(h).validators| && IsNamed(c, info, h, k, moniker)
  }

  // ---------------------------------------------------------------- the direct count, as a set

  datatype Slot = Slot(height: int, index: int)

  /** Validator k of height h is run under the moniker, and the blocks of h and h + 1 give it the status. */
  ghost predicate Counted(c: Chain, info: InfoTable, x: Slot, moniker: string, status: Status) {
    var b, signed := c.block(x.height), c.block(x.height + 1).signatures;
    && 0 <= x.index < |b.validators|
    && c.owner(b.validators[x.index]) in info && info[c.owner(b.validators[x.index])].moniker == moniker
    && (status == Missed <==> !(x.index < |signed| && signed[x.index]))
    && (status == Proposed <==> x.index < |signed| && signed[x.index] && b.validators[x.index] == b.proposer)
  }

  ghost function SlotsAt(c: Chain, info: InfoTable, h: int, n: nat, moniker: string, status: Status): set<Slot>
    requires n <= |c.block(h).validators|
  {
    set k | 0 <= k < n && Counted(c, info, Slot(h, k), moniker, status) :: Slot(h, k)
  }

  ghost function Slots(c: Chain, info: InfoTable, lo: int, hi: int, moniker: string, status: Status): set<Slot> {
    set h, k | lo <= h < hi && 0 <= k < |c.block(h).validators| && Counted(c, info, Slot(h, k), moniker, status) ::
      Slot(h, k)
  }

  lemma CountedExactly(c: Chain, info: InfoTable, h: int, k: nat, moniker: string, status: Status)
    requires k < |c.block(h).validators|
    ensures Counted(c, info, Slot(h, k), moniker, status) <==>
            IsNamed(c, info, h, k, moniker) && StatusOf(c, h, k) == status
  {
  }

  lemma {:induction false} SlotCountIsCard(c: Chain, info: InfoTable, h: int, n: nat, moniker: string, status: Status)
    requires n <= |c.block(h).validators|
    ensures SlotCount(c, info, h, n, moniker, status) == |SlotsAt(c, info, h, n, moniker, status)|
    decreases n
  {
    hide Counted, IsNamed, StatusOf;
    if n > 0 {
      SlotCountIsCard(c, info, h, n - 1, moniker, status);
      CountedExactly(c, info, h, n - 1, moniker, status);
      NextSlot(c, info, h, n - 1, moniker, status);
      hide SlotsAt;
    }
  }

  lemma NextSlot(c: Chain, info: InfoTable, h: int, n: nat, moniker: string, status: Status)
    requires n < |c.block(h).validators|
    ensures var before, x := SlotsAt(c, info, h, n, moniker, status), Slot(h, n);
            && x !in before
            && SlotsAt(c, info, h, n + 1, moniker, status) ==
                 before + if Counted(c, info, x, moniker, status) then {x} else {}
  {
    hide Counted;
  }

  /** The direct count is the number of slots, of all validators at all heights from lo up to below hi,
      that are run under the moniker and have the status. */
  lemma {:induction false} CountIsCard(c: Chain, info: InfoTable, lo: int, hi: int, moniker: string, status: Status)
    ensures DirectCount(c, info, lo, hi, moniker, status) == |Slots(c, info, lo, hi, moniker, status)|
    decreases hi - lo
  {
    hide Counted, SlotCount, Slots, SlotsAt;
    if lo < hi {
      CountIsCard(c, info, lo, hi - 1, moniker, status);
      SlotCountIsCard(c, info, hi - 1, |c.block(hi - 1).validators|, moniker, status);
      NextHeight(c, info, lo, hi - 1, moniker, status);
    } else {
      NoHeights(c, info, lo, hi, moniker, status);
    }
  }

  lemma InSlots(c: Chain, info: InfoTable, lo: int, hi: int, moniker: string, status: Status, x: Slot)
    ensures x in Slots(c, info, lo, hi, moniker, status) <==>
            lo <= x.height < hi && Counted(c, info, x, moniker, status)
  {
    assert x == Slot(x.height, x.index);
  }

  lemma InSlotsAt(c: Chain, info: InfoTable, h: int, moniker: string, status: Status, x: Slot)
    ensures x in SlotsAt(c, info, h, |c.block(h).validators|, moniker, status) <==>
            x.height == h && Counted(c, info, x, moniker, status)
  {
    assert x == Slot(x.height, x.index);
  }

  lemma NextHeight(c: Chain, info: InfoTable, lo: int, h: int, moniker: string, status: Status)
    requires lo <= h
    ensures var before, at := Slots(c, info, lo, h, moniker, status),
                              SlotsAt(c, info, h, |c.block(h).validators|, moniker, status);
            Slots(c, info, lo, h + 1, moniker, status) == before + at && before !! at
  {
    hide Counted, Slots, SlotsAt;
    forall x: Slot
      ensures x in Slots(c, info, lo, h, moniker, status) <==>
              lo <= x.height < h && Counted(c, info, x, moniker, status)
      ensures x in Slots(c, info, lo, h + 1, moniker, status) <==>
              lo <= x.height < h + 1 && Counted(c, info, x, moniker, status)
      ensures x in SlotsAt(c, info, h, |c.block(h).validators|, moniker, status) <==>
              x.height == h && Counted(c, info, x, moniker, status)
    {
      InSlots(c, info, lo, h, moniker, status, x);
      InSlots(c, info, lo, h + 1, moniker, status, x);
      InSlotsAt(c, info, h, moniker, status, x);
    }
  }

  lemma NoHeights(c: Chain, info: InfoTable, lo: int, hi: int, moniker: string, status: Status)
    requires hi <= lo
    ensures Slots(c, info, lo, hi, moniker, status) == {}
  {
  }

  // ---------------------------------------------------------------- the query is the direct count

  lemma JoinIsOwner(c: Chain, info: InfoTable, nextId: int, h: int, k: nat, moniker: string)
    requires TableValid(c, info, nextId) && KnownAt(c, info, h) && k < |c.block(h).validators|
    ensures HasMoniker(info, VoteAt(c, info, h, k).validator, moniker) <==> IsNamed(c, info, h, k, moniker)
  {
  }

  lemma {:induction false} CountOfHeight(c: Chain, info: InfoTable, nextId: int, h: int, n: nat,
                                         moniker: string, status: Status)
    requires TableValid(c, info, nextId) && KnownAt(c, info, h) && n <= |c.block(h).validators|
    ensures |Filter(VoteList(c, info, h)[..n], Matches(info, moniker, status))|
            == SlotCount(c, info, h, n, moniker, status)
    decreases n
  {
    hide TableValid, KnownAt, HasMoniker;
    if n > 0 {
      CountOfHeight(c, info, nextId, h, n - 1, moniker, status);
      JoinIsOwner(c, info, nextId, h, n - 1, moniker);
      assert VoteList(c, info, h)[..n][..n - 1] == VoteList(c, info, h)[..n - 1];
    }
  }

  lemma {:induction false} CountOfRange(c: Chain, info: InfoTable, nextId: int, lo: int, hi: int,
                                        moniker: string, status: Status)
    requires TableValid(c, info, nextId) && Known(c, info, lo, hi)
    ensures |Filter(Expected(c, info, lo, hi), Matches(info, moniker, status))|
            == DirectCount(c, info, lo, hi, moniker, status)
    decreases hi - lo
  {
    hide TableValid, KnownAt, HasMoniker, Matches;
    if lo < hi {
      CountOfRange(c, info, nextId, lo, hi - 1, moniker, status);
      var last := VoteList(c, info, hi - 1);
      CountOfHeight(c, info, nextId, hi - 1, |last|, moniker, status);
      assert last[..|last|] == last;
      FilterConcat(Expected(c, info, lo, hi - 1), last, Matches(info, moniker, status));
    }
  }

  /** The extremes are attained and bound every row. */
  lemma {:induction false} ExtremesExact(votes: seq<Vote>)
    requires votes != []
    ensures forall v :: v in votes ==> MinHeight(votes) <= v.height <= MaxHeight(votes)
    ensures HasHeight(votes, MinHeight(votes)) && HasHeight(votes, MaxHeight(votes))
    decreases |votes|
  {
    var init, last := votes[..|votes| - 1], votes[|votes| - 1];
    assert votes == init + [last] && last in votes;
    if |votes| > 1 {
      ExtremesExact(init);
      forall h | HasHeight(init, h) ensures HasHeight(votes, h) {
        var v :| v in init && v.height == h;
        assert v in votes;
      }
    }
  }

  ghost predicate HasHeight(votes: seq<Vote>, h: int) {
    exists v :: v in votes && v.height == h
  }

  lemma TopHeight(c: Chain, info: InfoTable, lo: int, hi: int)
    requires Honest(c) && 1 <= lo < hi
    ensures Expected(c, info, lo, hi) != [] && MaxHeight(Expected(c, info, lo, hi)) == hi - 1
  {
    hide MaxHeight, MinHeight;
    var votes := Expected(c, info, lo, hi);
    SomeValidator(c, hi - 1);
    ExpectedContains(c, info, lo, hi, hi - 1, 0);
    ExtremesExact(votes);
    forall v | v in votes ensures v.height <= hi - 1 {
      var i :| 0 <= i < |votes| && votes[i] == v;
      var h, k := ExpectedOrigin(c, info, lo, hi, i);
    }
  }

  /** The selected rows are those of the last min(100, pointer - lo) heights below the pointer. */
  lemma RecentRowsExact(c: Chain, info: InfoTable, lo: int, hi: int)
    requires Honest(c) && 1 <= lo < hi
    ensures RecentRows(Expected(c, info, lo, hi)) == Expected(c, info, if lo < hi - 100 then hi - 100 else lo, hi)
  {
    hide MaxHeight, Expected, Filter;
    TopHeight(c, info, lo, hi);
    FilterCuts(c, info, lo, hi, Above(hi - 1 - WINDOW), if lo < hi - WINDOW then hi - WINDOW else lo);
  }

  lemma {:induction false} StatusesPartition(rows: seq<Vote>, info: InfoTable, moniker: string)
    ensures |Filter(rows, Matches(info, moniker, Missed))| + |Filter(rows, Matches(info, moniker, Voted))|
          + |Filter(rows, Matches(info, moniker, Proposed))| == |Filter(rows, Named(info, moniker))|
    decreases |rows|
  {
    hide HasMoniker;
    if rows != [] {
      StatusesPartition(rows[..|rows| - 1], info, moniker);
    }
  }

  /** The heights of a moniker's rows are the heights at which it has a validator. */
  lemma NamedHeights(c: Chain, info: InfoTable, nextId: int, lo: int, hi: int, moniker: string, h: int)
    requires TableValid(c, info, nextId) && Known(c, info, lo, hi)
    ensures HasHeight(Filter(Expected(c, info, lo, hi), Named(info, moniker)), h) <==>
            lo <= h < hi && Serves(c, info, h, moniker)
  {
    hide TableValid, HasMoniker, Expected, Filter;
    var rows := Expected(c, info, lo, hi);
    var named := Filter(rows, Named(info, moniker));
    if HasHeight(named, h) {
      var v :| v in named && v.height == h;
      FilterMember(rows, Named(info, moniker), v);
      var i :| 0 <= i < |rows| && rows[i] == v;
      var g, k := ExpectedOrigin(c, info, lo, hi, i);
      JoinIsOwner(c, info, nextId, g, k, moniker);
    }
    if lo <= h < hi && Serves(c, info, h, moniker) {
      var k: nat :| k < |c.block(h).validators| && IsNamed(c, info, h, k, moniker);
      JoinIsOwner(c, info, nextId, h, k, moniker);
      ExpectedContains(c, info, lo, hi, h, k);
      FilterMember(rows, Named(info, moniker), VoteAt(c, info, h, k));
    }
  }

  /** The extremes of a group: the first and the last height of the window at which the moniker has
      a validator. */
  ghost predicate ExtremesOk(c: Chain, info: InfoTable, from: int, to: int, moniker: string, lo: int, hi: int) {
    && from <= lo <= hi < to && Serves(c, info, lo, moniker) && Serves(c, info, hi, moniker)
    && forall h :: from <= h < to && Serves(c, info, h, moniker) ==> lo <= h <= hi
  }

  lemma GroupExtremes(c: Chain, info: InfoTable, nextId: int, from: int, to: int, moniker: string)
    requires TableValid(c, info, nextId) && Known(c, info, from, to)
    ensures var named := Filter(Expected(c, info, from, to), Named(info, moniker));
            if named == [] then forall h :: from <= h < to ==> !Serves(c, info, h, moniker)
            else ExtremesOk(c, info, from, to, moniker, MinHeight(named), MaxHeight(named))
  {
    hide TableValid, Known, Expected, Filter, Serves;
    var named := Filter(Expected(c, info, from, to), Named(info, moniker));
    forall h ensures HasHeight(named, h) <==> from <= h < to && Serves(c, info, h, moniker) {
      NamedHeights(c, info, nextId, from, to, moniker, h);
    }
    if named != [] {
      ExtremesExact(named);
    }
  }

  /** In every state the indexer can reach, the query counts per moniker exactly the nil signatures,
      signatures and proposals of its validators over the last 100 stored heights, the three
      counters add up to all its rows there, and the extremes are the first and last height at
      which it has a validator; a moniker without one has no row. */
  lemma RecentVotesExact(c: Chain, s: State, p0: int, lo: int, moniker: string)
    requires Honest(c) && Inv(c, s, p0, lo) && lo < s.pointer
    ensures var from := if lo < s.pointer - 100 then s.pointer - 100 else lo;
            match SelectRecent(s.votes, s.info, moniker)
            case NoGroup => forall h :: from <= h < s.pointer ==> !Serves(c, s.info, h, moniker)
            case Recent(maxHeight, minHeight, missed, committed, proposed) =>
              && missed == |Slots(c, s.info, from, s.pointer, moniker, Missed)|
              && committed == |Slots(c, s.info, from, s.pointer, moniker, Voted)|
              && proposed == |Slots(c, s.info, from, s.pointer, moniker, Proposed)|
              && missed + committed + proposed == |Filter(Expected(c, s.info, from, s.pointer), Named(s.info, moniker))|
              && ExtremesOk(c, s.info, from, s.pointer, moniker, minHeight, maxHeight)
  {
    hide TableValid, CacheValid, Matches, Named, RecentRows, Filter, Expected, ExtremesOk, Serves, Slots, Counted;
    var from := if lo < s.pointer - WINDOW then s.pointer - WINDOW else lo;
    RecentRowsExact(c, s.info, lo, s.pointer);
    forall h | from <= h < s.pointer ensures KnownAt(c, s.info, h) {
    }
    GroupExtremes(c, s.info, s.nextId, from, s.pointer, moniker);
    CountIsCard(c, s.info, from, s.pointer, moniker, Missed);
    CountIsCard(c, s.info, from, s.pointer, moniker, Voted);
    CountIsCard(c, s.info, from, s.pointer, moniker, Proposed);
    CountOfRange(c, s.info, s.nextId, from, s.pointer, moniker, Missed);
    CountOfRange(c, s.info, s.nextId, from, s.pointer, moniker, Voted);
    CountOfRange(c, s.info, s.nextId, from, s.pointer, moniker, Proposed);
    StatusesPartition(Expected(c, s.info, from, s.pointer), s.info, moniker);
  }
}
