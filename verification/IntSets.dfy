/** Finite sets of heights, and the worker started for each height of a batch
    (internal/packages/consensus/voteindexer/indexer/batch_sync.go, lines 69-74). */
module IntSets {
  lemma SomeMember(s: set<int>)
    ensures s == {} || exists h :: h in s
  {
    if forall h :: h !in s {
      assert s == {};
    }
  }

  lemma SameMembers(a: set<int>, b: set<int>)
    requires forall g :: g in a <==> g in b
    ensures a == b
  {
    forall g | g in a ensures g in b {
    }
    assert a <= b;
    forall g | g in b ensures g in a {
    }
    assert b <= a;
  }

  /** One worker per height is started. */
  method StartWorkers(start: int, end: int) returns (pending: set<int>)
    ensures forall h :: h in pending <==> start <= h <= end
  {
    pending := {};
    var height := start;
    while height <= end
      invariant forall h :: h in pending <==> start <= h < height && h <= end
    {
      pending := pending + {height};
      height := height + 1;
    }
  }
}
