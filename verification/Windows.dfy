/** The window of a batch and the latest heights a run has seen, shared by the three indexers
    (internal/packages/consensus/voteindexer/indexer/batch_sync.go, lines 26-34;
    internal/packages/babylon/finality-provider/indexer/batch_sync.go, lines 26-37;
    internal/packages/axelar/amplifier-verifier/indexer/sync.go, lines 27-38). */
module Windows {
  const BATCH_SYNC_LIMIT := 10

  /** The most heights one batch can cover: both ends of the window count. */
  const BATCH_HEIGHTS := BATCH_SYNC_LIMIT + 1

  function Min(a: int, b: int): int {
    if a < b then a else b
  }

  function EndHeight(mem: int, latest: int): int {
    if latest - (mem + 1) > BATCH_SYNC_LIMIT then mem + 1 + BATCH_SYNC_LIMIT else latest
  }

  /** The furthest end of a batch from mem, over all latest heights up to top. */
  function Reach(mem: int, top: int): int {
    if top <= mem then mem else EndHeight(mem, top)
  }

  /** Some events look at the latest height. */
  datatype Look = Saw(latest: int) | Nothing

  /** The latest height last seen. */
  function TopOf<E>(events: seq<E>, look: E -> Look, top: int): int {
    if events == [] then top
    else
      match look(events[|events| - 1])
      case Saw(latest) => latest
      case Nothing => TopOf(events[..|events| - 1], look, top)
  }

  /** The latest height never drops. */
  predicate Rising<E>(events: seq<E>, look: E -> Look, top: int) {
    forall i :: 0 <= i < |events| && look(events[i]).Saw? ==> look(events[i]).latest >= TopOf(events[..i], look, top)
  }

  lemma RisingInit<E>(events: seq<E>, look: E -> Look, top: int)
    requires events != [] && Rising(events, look, top)
    ensures var n := |events| - 1;
            && Rising(events[..n], look, top)
            && (look(events[n]).Saw? ==> look(events[n]).latest >= TopOf(events[..n], look, top))
  {
    hide TopOf;
    var init := events[..|events| - 1];
    forall i | 0 <= i < |init| && look(init[i]).Saw? ensures look(init[i]).latest >= TopOf(init[..i], look, top) {
      assert init[..i] == events[..i] && events[i] == init[i];
    }
  }
}
