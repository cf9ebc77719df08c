/** A node: the prefetcher polls the chain head and fills the engine's cache while blocks are
    validated. */
module NodeRuns {
  import opened Arithmetic
  import opened CacheTraces
  import opened Consensus
  import opened FrontierCaching
  import opened HeaderValidation
  import opened Prefetching
  import opened Primitives
  import opened RecentSigners
  import opened Seal
  import opened SpanCaching

  datatype NodeEvent = Polled(head: nat, oracle: Oracle) | Validated(block: SealedBlock)

  /** The last polled head, the highest fetched span and the engine's memory. */
  datatype Node = Node(head: nat, last: Option<nat>, memory: Memory)

  function Booted(genesis: Oracle): Node {
    var cache := if genesis(0).Some? then Inserted(EMPTY, CACHE_SIZE, genesis(0).value) else EMPTY;
    Node(0, None, Memory(cache, map[]))
  }

  /** A poll is one pass of `EnsureSpansForBlock`, a validation one `ValidateBlockPreExecution`. */
  ghost function NodeStep(n: Node, e: NodeEvent, spanSize: nat, keccak: Keccak, recover: Recover): Node
    requires spanSize > 0
  {
    match e
    case Polled(head, oracle) =>
      var fetched := Fetches(n.last, SpanIdAt(head, spanSize), 0, oracle);
      Node(head, LastAfter(n.last, fetched), n.memory.(cache := InsertAll(n.memory.cache, CACHE_SIZE, fetched)))
    case Validated(b) => n.(memory := Remembered(n.memory, b, keccak, recover))
  }

  ghost function NodeAfter(
    genesis: Oracle, events: seq<NodeEvent>, spanSize: nat, keccak: Keccak, recover: Recover): Node
    requires spanSize > 0
  {
    if events == [] then Booted(genesis)
    else
      var front := events[..|events| - 1];
      NodeStep(NodeAfter(genesis, front, spanSize, keccak, recover), events[|events| - 1], spanSize, keccak, recover)
  }

  // ---------------------------------------------------------------- node runs are prefetch runs

  /** What an event does to the cache: a block is looked up once its sealer is known. */
  ghost function ActionOf(e: NodeEvent, spanSize: nat, keccak: Keccak, recover: Recover): seq<Action>
    requires spanSize > 0
  {
    match e
    case Polled(head, oracle) => [Poll(SpanIdAt(head, spanSize), oracle)]
    case Validated(b) =>
      if ReadSealer(b, keccak, recover).Ok? then [Query(SpanIdAt(b.header.number, SPAN_SIZE))] else []
  }

  ghost function ActionsOf(events: seq<NodeEvent>, spanSize: nat, keccak: Keccak, recover: Recover): seq<Action>
    requires spanSize > 0
  {
    if events == [] then []
    else
      ActionsOf(events[..|events| - 1], spanSize, keccak, recover)
      + ActionOf(events[|events| - 1], spanSize, keccak, recover)
  }

  /** The node agrees with the progress of its prefetch run. */
  ghost predicate Matches(n: Node, p: Progress, spanSize: nat)
    requires spanSize > 0
  {
    && p.current == SpanIdAt(n.head, spanSize)
    && p.last == n.last
    && n.memory.cache == Run(p.trace, CACHE_SIZE)
  }

  lemma {:induction false} RunOfInserts(trace: seq<Op>, capacity: nat, spans: seq<Span>)
    ensures Run(trace + Inserts(spans), capacity) == InsertAll(Run(trace, capacity), capacity, spans)
  {
    hide Inserted;
    var all := trace + Inserts(spans);
    if spans == [] {
      assert all == trace;
    } else {
      assert Front(all) == trace + Inserts(spans[..|spans| - 1]);
      RunOfInserts(trace, capacity, spans[..|spans| - 1]);
    }
  }

  lemma StepMatches(n: Node, p: Progress, e: NodeEvent, spanSize: nat, keccak: Keccak, recover: Recover)
    requires spanSize > 0 && Matches(n, p, spanSize)
    ensures
      var n', actions := NodeStep(n, e, spanSize, keccak, recover), ActionOf(e, spanSize, keccak, recover);
      |actions| <= 1 && Matches(n', if actions == [] then p else Act(p, actions[0]), spanSize)
  {
    hide Fetches, InsertAll, Inserts, Verdict, ReadSealer, Got;
    match e {
      case Polled(head, oracle) =>
        hide Run;
        RunOfInserts(p.trace, CACHE_SIZE, Fetches(p.last, SpanIdAt(head, spanSize), 0, oracle));
      case Validated(b) =>
        var id := SpanIdAt(b.header.number, SPAN_SIZE);
        assert Front(p.trace + [GetOp(id)]) == p.trace;
    }
  }

  lemma BootMatches(genesis: Oracle, spanSize: nat)
    requires spanSize > 0
    ensures Matches(Booted(genesis), Start(genesis), spanSize)
  {
    hide Inserted;
    var trace := Start(genesis).trace;
    assert Run([], CACHE_SIZE) == EMPTY;
    if trace != [] {
      assert Front(trace) == [] && Last(trace) == InsertOp(genesis(0).value);
      assert Run(trace, CACHE_SIZE) == Step(EMPTY, CACHE_SIZE, Last(trace));
    }
  }

  /** The engine's cache in a node run is the cache left by the trace of its prefetch run, for any
      interleaving of polls and validations, readable or not. */
  lemma {:induction false} NodeIsPrefetchRun(
    genesis: Oracle, events: seq<NodeEvent>, spanSize: nat, keccak: Keccak, recover: Recover)
    requires spanSize > 0
    ensures Matches(
      NodeAfter(genesis, events, spanSize, keccak, recover),
      ActAll(genesis, ActionsOf(events, spanSize, keccak, recover)),
      spanSize)
  {
    hide NodeStep, Act, ActionOf, Matches, Run;
    if events == [] {
      BootMatches(genesis, spanSize);
    } else {
      var front, e := events[..|events| - 1], events[|events| - 1];
      NodeIsPrefetchRun(genesis, front, spanSize, keccak, recover);
      var n, actions := NodeAfter(genesis, front, spanSize, keccak, recover), ActionsOf(front, spanSize, keccak, recover);
      var more := ActionOf(e, spanSize, keccak, recover);
      StepMatches(n, ActAll(genesis, actions), e, spanSize, keccak, recover);
      hide ActAll;
      if more == [] {
        assert actions + more == actions;
      } else {
        assert more == [more[0]];
        FrontOfRun(genesis, actions, more[0]);
      }
    }
  }

  // ---------------------------------------------------------------- what validation can rely on

  /** How far behind the head a validated block may be, in spans. */
  const LOOKBACK: nat := CACHE_SIZE - 2 * PREFETCH_AHEAD - 1

  /** The span server is honest, heads do not move back, and no readable block is validated more
      than 59 spans of blocks behind the head. */
  ghost predicate Ordinary(
    genesis: Oracle, events: seq<NodeEvent>, spanSize: nat, keccak: Keccak, recover: Recover)
    requires spanSize > 0
  {
    if events == [] then Honest(genesis)
    else
      var front, e := events[..|events| - 1], events[|events| - 1];
      Ordinary(genesis, front, spanSize, keccak, recover)
      && OrdinaryStep(NodeAfter(genesis, front, spanSize, keccak, recover).head, e, keccak, recover)
  }

  ghost predicate OrdinaryStep(head: nat, e: NodeEvent, keccak: Keccak, recover: Recover) {
    match e
    case Polled(next, oracle) => head <= next && Honest(oracle)
    case Validated(b) => ReadSealer(b, keccak, recover).Ok? ==> head <= b.header.number + LOOKBACK * SPAN_SIZE
  }

  lemma SpansAreMonotone(a: nat, b: nat, spans: nat)
    requires a <= b + spans * SPAN_SIZE
    ensures SpanIdAt(a, SPAN_SIZE) <= SpanIdAt(b, SPAN_SIZE) + spans
  {
  }

  lemma {:induction false} OrdinaryIsForward(
    genesis: Oracle, events: seq<NodeEvent>, keccak: Keccak, recover: Recover)
    requires Ordinary(genesis, events, SPAN_SIZE, keccak, recover)
    ensures
      var actions := ActionsOf(events, SPAN_SIZE, keccak, recover);
      AllHonest(genesis, actions) && Forward(genesis, actions, LOOKBACK)
  {
    hide NodeAfter, ActAll, ReadSealer;
    if events == [] {
    } else {
      var front, e := events[..|events| - 1], events[|events| - 1];
      OrdinaryIsForward(genesis, front, keccak, recover);
      NodeIsPrefetchRun(genesis, front, SPAN_SIZE, keccak, recover);
      var head, actions := NodeAfter(genesis, front, SPAN_SIZE, keccak, recover).head,
        ActionsOf(front, SPAN_SIZE, keccak, recover);
      var more := ActionOf(e, SPAN_SIZE, keccak, recover);
      if more == [] {
        assert actions + more == actions;
      } else {
        match e {
          case Polled(next, _) => SpansAreMonotone(head, next, 0);
          case Validated(b) => SpansAreMonotone(head, b.header.number, LOOKBACK);
        }
        hide Honest, SpanIdAt;
        FrontOfRun(genesis, actions, more[0]);
        ForwardExtends(genesis, actions, more[0], LOOKBACK);
        assert actions + more == actions + [more[0]];
      }
    }
  }

  /** The covering span of `number`, with spans of `spanSize` blocks, lies between the head's and the
      last fetched one. */
  predicate Prefetched(n: Node, number: nat, spanSize: nat)
    requires spanSize > 0
  {
    n.last.Some? && SpanIdAt(n.head, spanSize) <= SpanIdAt(number, spanSize) <= n.last.value
  }

  /** With the engine's span size, what is prefetched is cached. */
  lemma PrefetchedIsKnown(genesis: Oracle, events: seq<NodeEvent>, number: nat, keccak: Keccak, recover: Recover)
    requires Ordinary(genesis, events, SPAN_SIZE, keccak, recover)
    requires Prefetched(NodeAfter(genesis, events, SPAN_SIZE, keccak, recover), number, SPAN_SIZE)
    ensures KnownSigners(NodeAfter(genesis, events, SPAN_SIZE, keccak, recover).memory.cache, number).Some?
  {
    var actions, id := ActionsOf(events, SPAN_SIZE, keccak, recover), SpanIdAt(number, SPAN_SIZE);
    hide NodeAfter, ActAll, Forward, AllHonest, Ordinary, ActionsOf, Run, SpanIdAt;
    OrdinaryIsForward(genesis, events, keccak, recover);
    NodeIsPrefetchRun(genesis, events, SPAN_SIZE, keccak, recover);
    FrontierIsCached(genesis, actions, id, LOOKBACK, CACHE_SIZE);
  }

  lemma VerdictWithSigners(m: Memory, b: SealedBlock, keccak: Keccak, recover: Recover)
    requires KnownSigners(m.cache, b.header.number).Some?
    ensures
      var signers, sealer := KnownSigners(m.cache, b.header.number).value, ReadSealer(b, keccak, recover);
      Verdict(m, b, keccak, recover).Ok? <==>
        && sealer.Ok? && sealer.value in signers
        && !RecentlySigned(m.log, sealer.value, b.header.number, |signers|)
  {
    hide ReadSealer, KnownSigners, RecentlySigned;
  }

  /** A block prefetched with the engine's span size is never waved through: its span is known, so it
      passes only with a sealer from that span's set that signed no block of the window. */
  lemma PrefetchedIsGuarded(
    genesis: Oracle, events: seq<NodeEvent>, b: SealedBlock, keccak: Keccak, recover: Recover)
    requires Ordinary(genesis, events, SPAN_SIZE, keccak, recover)
    requires Prefetched(NodeAfter(genesis, events, SPAN_SIZE, keccak, recover), b.header.number, SPAN_SIZE)
    ensures
      var m := NodeAfter(genesis, events, SPAN_SIZE, keccak, recover).memory;
      var signers, sealer := KnownSigners(m.cache, b.header.number), ReadSealer(b, keccak, recover);
      && signers.Some?
      && (Verdict(m, b, keccak, recover).Ok? <==>
          && sealer.Ok? && sealer.value in signers.value
          && !RecentlySigned(m.log, sealer.value, b.header.number, |signers.value|))
  {
    hide NodeAfter, Ordinary, Prefetched, KnownSigners, ReadSealer, Verdict, RecentlySigned;
    PrefetchedIsKnown(genesis, events, b.header.number, keccak, recover);
    VerdictWithSigners(NodeAfter(genesis, events, SPAN_SIZE, keccak, recover).memory, b, keccak, recover);
  }

  // ---------------------------------------------------------------- another span size

  /** In every ordinary run the head's block finds its span once the head's pass has delivered. */
  ghost predicate HeadIsKnown(spanSize: nat, keccak: Keccak, recover: Recover)
    requires spanSize > 0
  {
    forall genesis: Oracle, events: seq<NodeEvent> :: Ordinary(genesis, events, spanSize, keccak, recover) ==>
      var n := NodeAfter(genesis, events, spanSize, keccak, recover);
      Prefetched(n, n.head, spanSize) ==> KnownSigners(n.memory.cache, n.head).Some?
  }

  /** The head at which the prefetcher's span id and the engine's differ by more than is fetched. */
  function ApartHead(spanSize: nat): nat {
    3 * SPAN_SIZE * spanSize
  }

  lemma IdsApart(spanSize: nat)
    requires 0 < spanSize != SPAN_SIZE
    ensures SpanIdAt(ApartHead(spanSize), spanSize) == 3 * SPAN_SIZE
    ensures SpanIdAt(ApartHead(spanSize), SPAN_SIZE) == 3 * spanSize
  {
    var head := ApartHead(spanSize);
    assert head == spanSize * (3 * SPAN_SIZE) == SPAN_SIZE * (3 * spanSize);
    DivModUnique(head, spanSize, 3 * SPAN_SIZE, 0);
    DivModUnique(head, SPAN_SIZE, 3 * spanSize, 0);
  }

  /** With any other span size a full pass can miss the span the engine looks for, and the head's own
      block is not checked. */
  lemma OtherSizeMissesHead(spanSize: nat, keccak: Keccak, recover: Recover)
    requires 0 < spanSize != SPAN_SIZE
    ensures
      var head, events := ApartHead(spanSize), [Polled(ApartHead(spanSize), SERVING)];
      var n := NodeAfter(SILENT, events, spanSize, keccak, recover);
      && Ordinary(SILENT, events, spanSize, keccak, recover)
      && n.head == head && n.last == Some(3 * SPAN_SIZE + PREFETCH_AHEAD)
      && Prefetched(n, head, spanSize)
      && KnownSigners(n.memory.cache, head) == None
  {
    var id := 3 * SPAN_SIZE;
    IdsApart(spanSize);
    OneServedPoll(ApartHead(spanSize), spanSize, keccak, recover);
    hide ApartHead, SpanIdAt, NodeAfter, Ordinary, Run;
    NotServed(SpansFrom(id, PREFETCH_AHEAD + 1), 3 * spanSize);
  }

  /** A node right after its first poll, with a server that has every span. */
  lemma OneServedPoll(head: nat, spanSize: nat, keccak: Keccak, recover: Recover)
    requires spanSize > 0
    ensures
      var events, id := [Polled(head, SERVING)], SpanIdAt(head, spanSize);
      var n := NodeAfter(SILENT, events, spanSize, keccak, recover);
      && Ordinary(SILENT, events, spanSize, keccak, recover)
      && n.head == head && n.last == Some(id + PREFETCH_AHEAD)
      && n.memory.cache == Run(Inserts(SpansFrom(id, PREFETCH_AHEAD + 1)), CACHE_SIZE)
  {
    hide NodeAfter, ActionsOf, ActAll, Ordinary, Run, SpanIdAt;
    OneEvent(Polled(head, SERVING), spanSize, keccak, recover);
    NodeIsPrefetchRun(SILENT, [Polled(head, SERVING)], spanSize, keccak, recover);
    FirstServedPoll(SpanIdAt(head, spanSize));
  }

  lemma OneEvent(e: NodeEvent, spanSize: nat, keccak: Keccak, recover: Recover)
    requires spanSize > 0 && e.Polled? && Honest(e.oracle)
    ensures Ordinary(SILENT, [e], spanSize, keccak, recover)
    ensures ActionsOf([e], spanSize, keccak, recover) == [Poll(SpanIdAt(e.head, spanSize), e.oracle)]
    ensures NodeAfter(SILENT, [e], spanSize, keccak, recover).head == e.head
  {
    hide Fetches, InsertAll, SpanIdAt, Remembered, ReadSealer;
    assert [e][..0] == [];
    assert Ordinary(SILENT, [], spanSize, keccak, recover);
    assert NodeAfter(SILENT, [], spanSize, keccak, recover).head == 0;
  }

  /** What was never inserted is not cached. */
  lemma NotServed(spans: seq<Span>, id: nat)
    requires forall i :: 0 <= i < |spans| ==> spans[i].id != id
    ensures id !in Run(Inserts(spans), CACHE_SIZE).spans
  {
    assert [] + Inserts(spans) == Inserts(spans);
    assert Uses([], CACHE_SIZE) == [];
    hide Run, Uses;
    UsesOfInserts([], CACHE_SIZE, spans);
    HitIffFewSince(Inserts(spans), CACHE_SIZE, id);
  }

  /** Exactly when: the prefetcher serves the engine just when both divide by the same span size. */
  lemma HeadIsKnownIff(spanSize: nat, keccak: Keccak, recover: Recover)
    requires spanSize > 0
    ensures HeadIsKnown(spanSize, keccak, recover) <==> spanSize == SPAN_SIZE
  {
    hide Ordinary, NodeAfter, KnownSigners, Prefetched;
    if spanSize == SPAN_SIZE {
      forall genesis: Oracle, events: seq<NodeEvent> | Ordinary(genesis, events, spanSize, keccak, recover)
        ensures
          var n := NodeAfter(genesis, events, spanSize, keccak, recover);
          Prefetched(n, n.head, spanSize) ==> KnownSigners(n.memory.cache, n.head).Some?
      {
        var n := NodeAfter(genesis, events, spanSize, keccak, recover);
        if Prefetched(n, n.head, spanSize) {
          PrefetchedIsKnown(genesis, events, n.head, keccak, recover);
        }
      }
    } else {
      OtherSizeMissesHead(spanSize, keccak, recover);
    }
  }
}
