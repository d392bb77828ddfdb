/** Building the validator_info entries of new addresses, with more validators fetched by bond
    status when an address is unknown: a retry loop whose counter is shared by all addresses
    (internal/common/function/function.go, lines 160-230; the consumer branch, lines 129-159, runs
    the same loop over the provider's validators). */
module ValidatorInfoList {
  import opened VoteChain
  import opened VoteSync
  import VoteProgress
  import VoteStalls
  import opened Windows

  datatype Meta = Meta(operator: Operator, moniker: string)
  type MetaMap = map<Address, Meta>

  /** The first list, and what asking for unbonding, unbonded and unspecified validators adds.
      A fetch that fails part of the way adds what it had read. */
  datatype Fetches = Fetches(base: MetaMap, unbonding: MetaMap, unbonded: MetaMap, unspecified: MetaMap)

  const MAX_RETRIES := 3

  function Extra(f: Fetches, n: nat): MetaMap
    requires 1 <= n <= MAX_RETRIES
  {
    if n == 1 then f.unbonding else if n == 2 then f.unbonded else f.unspecified
  }

  /** The map after n extra fetches; a later fetch replaces earlier entries. */
  function Known(f: Fetches, n: nat): MetaMap
    requires n <= MAX_RETRIES
  {
    if n == 0 then f.base else Known(f, n - 1) + Extra(f, n)
  }

  lemma {:induction false} KnownGrows(f: Fetches, m: nat, n: nat)
    requires m <= n <= MAX_RETRIES
    ensures Known(f, m).Keys <= Known(f, n).Keys
    decreases n - m
  {
    if m < n {
      KnownGrows(f, m, n - 1);
    }
  }

  /** What the list covers after no, one, two and three extra fetches. */
  lemma KnownCovers(f: Fetches)
    ensures Known(f, 0).Keys == f.base.Keys
    ensures Known(f, 1).Keys == f.base.Keys + f.unbonding.Keys
    ensures Known(f, 2).Keys == f.base.Keys + f.unbonding.Keys + f.unbonded.Keys
    ensures Known(f, 3).Keys == f.base.Keys + f.unbonding.Keys + f.unbonded.Keys + f.unspecified.Keys
  {
    assert Known(f, 2) == Known(f, 1) + f.unbonded;
    assert Known(f, 3) == Known(f, 2) + f.unspecified;
  }

  /** Of several descriptions of an address the latest one that was fetched counts. */
  lemma LatestCounts(f: Fetches, n: nat, a: Address)
    requires n <= 3 && a in Known(f, n)
    ensures n == 3 && a in f.unspecified ==> Known(f, n)[a] == f.unspecified[a]
    ensures n >= 2 && (n < 3 || a !in f.unspecified) && a in f.unbonded ==> Known(f, n)[a] == f.unbonded[a]
    ensures n >= 1 && (n < 3 || a !in f.unspecified) && (n < 2 || a !in f.unbonded) && a in f.unbonding ==>
              Known(f, n)[a] == f.unbonding[a]
    ensures (n < 3 || a !in f.unspecified) && (n < 2 || a !in f.unbonded) && (n < 1 || a !in f.unbonding) ==>
              a in f.base && Known(f, n)[a] == f.base[a]
  {
    assert n >= 1 ==> Known(f, 1) == Known(f, 0) + f.unbonding;
    assert n >= 2 ==> Known(f, 2) == Known(f, 1) + f.unbonded;
    assert n >= 3 ==> Known(f, 3) == Known(f, 2) + f.unspecified;
  }

  /** n is the smallest number of extra fetches that covers the addresses. */
  ghost predicate Least(f: Fetches, addresses: set<Address>, n: nat)
    requires n <= MAX_RETRIES
  {
    addresses <= Known(f, n).Keys && (n > 0 ==> !(addresses <= Known(f, n - 1).Keys))
  }

  datatype Made = Made(list: seq<Info>) | NotFound

  /** One entry per address, each as some fetched list described it. */
  ghost predicate Lists(f: Fetches, list: seq<Info>, addresses: set<Address>, n: nat)
    requires n <= MAX_RETRIES
  {
    && |list| == |addresses|
    && (forall k :: 0 <= k < |list| ==> list[k].hex in addresses && Described(f, list[k], n))
    && (forall a :: a in addresses ==> HasEntry(list, a))
  }

  predicate HasEntry(list: seq<Info>, a: Address) {
    exists k :: 0 <= k < |list| && list[k].hex == a
  }

  ghost predicate Described(f: Fetches, x: Info, n: nat)
    requires n <= MAX_RETRIES
  {
    exists m :: 0 <= m <= n && x.hex in Known(f, m) && Meta(x.operator, x.moniker) == Known(f, m)[x.hex]
  }

  lemma DescribedNow(f: Fetches, n: nat, a: Address)
    requires n <= MAX_RETRIES && a in Known(f, n)
    ensures Described(f, Info(a, Known(f, n)[a].operator, Known(f, n)[a].moniker), n)
  {
  }

  lemma DescribedLater(f: Fetches, x: Info, m: nat, n: nat)
    requires m <= n <= MAX_RETRIES && Described(f, x, m)
    ensures Described(f, x, n)
  {
  }

  lemma ListsGrow(f: Fetches, list: seq<Info>, addresses: set<Address>, m: nat, n: nat, a: Address)
    requires m <= n <= MAX_RETRIES && Lists(f, list, addresses, m) && a in Known(f, n) && a !in addresses
    ensures Lists(f, list + [Info(a, Known(f, n)[a].operator, Known(f, n)[a].moniker)], addresses + {a}, n)
  {
    hide Described, Known;
    var x := Info(a, Known(f, n)[a].operator, Known(f, n)[a].moniker);
    DescribedNow(f, n, a);
    forall k | 0 <= k < |list| ensures Described(f, list[k], n) {
      DescribedLater(f, list[k], m, n);
    }
    var all := list + [x];
    forall b | b in addresses + {a} ensures HasEntry(all, b) {
      if b == a {
        assert all[|list|].hex == a;
      } else {
        var k :| 0 <= k < |list| && list[k].hex == b;
        assert all[k].hex == b;
      }
    }
  }

  /** Addresses come in any order. At most three extra fetches are made in total; the list is built
      exactly when all addresses are known after all of them; the number of fetches is the least
      that suffices, whatever the order. */
  method MakeValidatorInfoList(f: Fetches, addresses: set<Address>) returns (r: Made, fetches: nat)
    ensures fetches <= 3
    ensures r.Made? <==> addresses <= f.base.Keys + f.unbonding.Keys + f.unbonded.Keys + f.unspecified.Keys
    ensures r.Made? ==> Least(f, addresses, fetches) && Lists(f, r.list, addresses, fetches)
    ensures r.NotFound? ==> fetches == 3
  {
    hide Known, Lists, Least, Extra;
    KnownCovers(f);
    var known := f.base;
    var list: seq<Info> := [];
    var retryCount: nat := 0;
    var pending := addresses;
    ghost var done: set<Address> := {};
    Start(f);
    while pending != {}
      invariant retryCount <= MAX_RETRIES && known == Known(f, retryCount)
      invariant pending <= addresses && done == addresses - pending
      invariant Lists(f, list, done, retryCount)
      invariant Least(f, done, retryCount)
      decreases |pending|
    {
      var a :| a in pending;
      ghost var before := retryCount;
      while a !in known
        invariant before <= retryCount <= MAX_RETRIES && known == Known(f, retryCount)
        invariant retryCount > before ==> a !in Known(f, retryCount - 1)
        decreases MAX_RETRIES - retryCount
      {
        if retryCount == MAX_RETRIES {
          return NotFound, retryCount;
        }
        retryCount := retryCount + 1;
        known := known + Extra(f, retryCount);
        KnownStep(f, retryCount);
      }
      LeastGrows(f, done, before, retryCount, a);
      ListsGrow(f, list, done, before, retryCount, a);
      list := list + [Info(a, known[a].operator, known[a].moniker)];
      pending, done := pending - {a}, done + {a};
    }
    assert done == addresses;
    LeastCovers(f, addresses, retryCount);
    return Made(list), retryCount;
  }

  lemma Start(f: Fetches)
    ensures Known(f, 0) == f.base && Lists(f, [], {}, 0) && Least(f, {}, 0)
  {
  }

  lemma LeastGrows(f: Fetches, done: set<Address>, m: nat, n: nat, a: Address)
    requires m <= n <= MAX_RETRIES && Least(f, done, m) && a in Known(f, n) && (m < n ==> a !in Known(f, n - 1))
    ensures Least(f, done + {a}, n)
  {
  }

  lemma LeastCovers(f: Fetches, addresses: set<Address>, n: nat)
    requires n <= MAX_RETRIES && Least(f, addresses, n)
    ensures addresses <= Known(f, MAX_RETRIES).Keys
  {
    hide Known;
    KnownGrows(f, n, MAX_RETRIES);
  }

  lemma KnownStep(f: Fetches, n: nat)
    requires 1 <= n <= MAX_RETRIES
    ensures Known(f, n) == Known(f, n - 1) + Extra(f, n)
  {
  }

  /** The lists agree on whatever they both describe. */
  ghost predicate Agree(f: Fetches) {
    forall m, n, a :: 0 <= m <= n <= MAX_RETRIES && a in Known(f, m) && a in Known(f, n) ==>
        Known(f, m)[a] == Known(f, n)[a]
  }

  /** Then the content, too, is the same for every order: each address has the one entry there is. */
  lemma ContentFixed(f: Fetches, list: seq<Info>, list': seq<Info>, addresses: set<Address>, n: nat, j: nat, k: nat)
    requires n <= MAX_RETRIES && Agree(f) && Lists(f, list, addresses, n) && Lists(f, list', addresses, n)
    requires j < |list| && k < |list'| && list[j].hex == list'[k].hex
    ensures list[j] == list'[k]
  {
  }

  /** No address is listed twice. */
  lemma EntriesDistinct(f: Fetches, list: seq<Info>, addresses: set<Address>, n: nat)
    requires n <= MAX_RETRIES && Lists(f, list, addresses, n)
    ensures forall i, j :: 0 <= i < j < |list| ==> list[i].hex != list[j].hex
  {
    hide Described;
    if i, j :| 0 <= i < j < |list| && list[i].hex == list[j].hex {
      var short := list[..i] + list[i + 1..];
      forall a | a in addresses ensures HasEntry(short, a) {
        var k :| 0 <= k < |list| && list[k].hex == a;
        if k < i {
          assert short[k].hex == a;
        } else if k > i {
          assert short[k - 1].hex == a;
        } else {
          assert short[j - 1].hex == a;
        }
      }
      FewEntries(short, addresses);
      assert false;
    }
  }

  lemma {:induction false} FewEntries(list: seq<Info>, addresses: set<Address>)
    requires forall a :: a in addresses ==> HasEntry(list, a)
    ensures |addresses| <= |list|
    decreases |list|
  {
    if list == [] {
      assert addresses == {};
    } else {
      var init, x := list[..|list| - 1], list[|list| - 1];
      forall a | a in addresses - {x.hex} ensures HasEntry(init, a) {
        var k :| 0 <= k < |list| && list[k].hex == a;
        assert init[k].hex == a;
      }
      FewEntries(init, addresses - {x.hex});
    }
  }

  /** No two of the addresses are keys of one operator. */
  ghost predicate OneKeyEach(c: Chain, addresses: set<Address>) {
    forall a, b :: a in addresses && b in addresses && a != b ==> c.owner(a) != c.owner(b)
  }

  /** What the vote indexer relies on: when the fetched lists pair each address with its own
      operator, so do the entries, every requested address has one, and no operator is listed twice
      exactly when no two requested addresses are keys of one operator. */
  lemma FeedsVoteIndexer(c: Chain, f: Fetches, list: seq<Info>, addresses: set<Address>, n: nat)
    requires n <= MAX_RETRIES && Lists(f, list, addresses, n)
    requires forall m, a :: 0 <= m <= MAX_RETRIES && a in Known(f, m) ==> Known(f, m)[a].operator == c.owner(a)
    ensures OwnInfos(c, list) && VoteProgress.Lists(list, addresses)
    ensures DistinctOperators(list) <==> OneKeyEach(c, addresses)
  {
    EntriesDistinct(f, list, addresses, n);
    forall k | 0 <= k < |list| ensures c.owner(list[k].hex) == list[k].operator {
      assert Described(f, list[k], n);
    }
    hide Described, Known;
    if DistinctOperators(list) {
      forall a, b | a in addresses && b in addresses && a != b ensures c.owner(a) != c.owner(b) {
        assert HasEntry(list, a) && HasEntry(list, b);
        var i :| 0 <= i < |list| && list[i].hex == a;
        var j :| 0 <= j < |list| && list[j].hex == b;
        var x, y := if i < j then i else j, if i < j then j else i;
        assert list[x].operator != list[y].operator;
      }
    }
  }

  /** Two keys of one operator among the fetched lists, as when a key is rotated between two fetches:
      the built list names the operator twice, so the batch fails at registration. */
  lemma RotationFails(c: Chain, s: State, e: Env, f: Fetches, n: nat, a: Address, b: Address)
    requires n <= MAX_RETRIES && s.mem < e.latest
    requires forall m, x :: 0 <= m <= MAX_RETRIES && x in Known(f, m) ==> Known(f, m)[x].operator == c.owner(x)
    requires var unseen := NewAddresses(s.vim, VoteProgress.Window(c, s, e));
             Lists(f, e.infos, unseen, n) && a in unseen && b in unseen && a != b && c.owner(a) == c.owner(b)
    ensures var (s1, out) := Batch(c, s, e);
            out == Failed && s1.pointer == s.pointer && s1.mem == s.mem && s1.votes == s.votes && s1.info == s.info
  {
    hide Lists, Known, VoteProgress.Window, Build;
    FeedsVoteIndexer(c, f, e.infos, NewAddresses(s.vim, VoteProgress.Window(c, s, e)), n);
    VoteProgress.RepeatedOperatorFails(c, s, e, a);
  }

  // ---------------------------------------------------------------- a replaced key

  /** What the caller passes on: the built list, or nothing when the builder gave up, since its error
      is discarded. */
  ghost predicate Supplied(f: Fetches, addresses: set<Address>, infos: seq<Info>) {
    if addresses <= Known(f, MAX_RETRIES).Keys then exists n :: 0 <= n <= MAX_RETRIES && Lists(f, infos, addresses, n)
    else infos == []
  }

  /** The list comes from fetches that do not show the address, such as the former key of an operator:
      the node lists one current key for each. */
  ghost predicate BuiltWithout(infos: seq<Info>, a: Address) {
    exists f, addresses :: Supplied(f, addresses, infos) && a !in Known(f, MAX_RETRIES)
  }

  lemma BuiltLeavesOut(infos: seq<Info>, a: Address)
    requires BuiltWithout(infos, a)
    ensures VoteStalls.LeavesOut(infos, a)
  {
    var f, addresses :| Supplied(f, addresses, infos) && a !in Known(f, MAX_RETRIES);
    hide Known, BuiltWithout, Described, HasEntry;
    if addresses <= Known(f, MAX_RETRIES).Keys {
      var n :| 0 <= n <= MAX_RETRIES && Lists(f, infos, addresses, n);
      assert forall k :: 0 <= k < |infos| ==> infos[k].hex in addresses;
    }
  }

  ghost predicate EventBuiltWithout(ev: Event, a: Address) {
    match ev
    case Sync(e) => BuiltWithout(e.infos, a)
    case OtherService(infos) => BuiltWithout(infos, a)
    case _ => true
  }

  /** A height still to be read mentions a key that no fetched list shows any more and that has no row:
      however many batches, restarts and other services follow, the pointer does not get past it. */
  lemma ReplacedKeyStalls(c: Chain, s: State, events: seq<Event>, a: Address, g: int)
    requires Honest(c) && VoteStalls.Sound(c, s) && OwnRun(c, events)
    requires forall i :: 0 <= i < |events| ==> EventBuiltWithout(events[i], a)
    requires VoteStalls.Unlisted(s, a) && a in Mentioned(c.block(g)) && s.pointer <= g
    ensures var r := Run(c, s, events);
            && VoteStalls.Unlisted(r, a) && r.pointer <= g
            && (s.mem == s.pointer && VoteStalls.AllCover(events, s.mem, g) ==> r.pointer == s.pointer)
  {
    hide BuiltWithout, VoteStalls.LeavesOut, Mentioned, VoteStalls.Sound, VoteStalls.Unlisted, Run;
    forall i | 0 <= i < |events| ensures VoteStalls.EventLeavesOut(events[i], a) {
      match events[i] {
        case Sync(e) => BuiltLeavesOut(e.infos, a);
        case OtherService(infos) => BuiltLeavesOut(infos, a);
        case _ =>
      }
    }
    VoteStalls.UnlistedKeyStalls(c, s, events, a, g);
  }
}
