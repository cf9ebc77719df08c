/** The background span prefetcher, and what it guarantees to block validation. */
module Prefetching {
  import opened CacheTraces
  import opened Consensus
  import opened Primitives
  import opened SpanCaching

  const PREFETCH_AHEAD: nat := 2

  /** One poll's view of the span server: a span, or a failure of any kind. */
  type Oracle = nat -> Option<Span>

  /** The server answers with the span it was asked for. */
  ghost predicate Honest(oracle: Oracle) {
    forall id :: oracle(id).Some? ==> oracle(id).value.id == id
  }

  predicate AlreadyFetched(last: Option<nat>, id: nat) {
    last.Some? && id <= last.value
  }

  /** The spans fetched from `offset` on: known ids are skipped, the first failure ends the pass. */
  function Fetches(last: Option<nat>, current: nat, offset: nat, oracle: Oracle): seq<Span>
    decreases PREFETCH_AHEAD + 1 - offset
  {
    if offset > PREFETCH_AHEAD then []
    else
      var id := current + offset;
      if AlreadyFetched(last, id) then Fetches(last, current, offset + 1, oracle)
      else
        match oracle(id)
        case None => []
        case Some(span) => [span] + Fetches(Some(id), current, offset + 1, oracle)
  }

  /** The highest fetched id after a pass. */
  function LastAfter(last: Option<nat>, fetched: seq<Span>): Option<nat> {
    if fetched == [] then last else Some(fetched[|fetched| - 1].id)
  }

  /** The cache after inserting spans in order. */
  function InsertAll(s: State, capacity: nat, spans: seq<Span>): State {
    if spans == [] then s
    else Inserted(InsertAll(s, capacity, spans[..|spans| - 1]), capacity, spans[|spans| - 1])
  }

  /** The server's answers from `first` on, up to the first failure or `end`. */
  function Answers(oracle: Oracle, first: nat, end: nat): (r: seq<Span>)
    ensures |r| == 0 || first + |r| <= end
    ensures forall i :: 0 <= i < |r| ==> oracle(first + i) == Some(r[i])
    ensures first + |r| < end ==> oracle(first + |r|).None?
    decreases end - first
  {
    if first >= end || oracle(first).None? then []
    else
      var rest := Answers(oracle, first + 1, end);
      assert forall i :: 0 <= i < |rest| ==> oracle(first + 1 + i) == Some(rest[i]);
      [oracle(first).value] + rest
  }

  class SpanPrefetcher {
    var lastFetchedSpan: Option<nat>
    const spanSize: nat
    const consensus: BorConsensus

    constructor (consensus0: BorConsensus, spanSize0: nat)
      ensures lastFetchedSpan == None && spanSize == spanSize0 && consensus == consensus0
    {
      lastFetchedSpan, spanSize, consensus := None, spanSize0, consensus0;
    }

    method FetchAndCacheSpan(id: nat, oracle: Oracle) returns (ok: bool)
      requires consensus.Valid()
      modifies consensus.spanCache
      ensures ok == oracle(id).Some?
      ensures consensus.spanCache.Value()
           == if ok then Inserted(old(consensus.spanCache.Value()), CACHE_SIZE, oracle(id).value)
              else old(consensus.spanCache.Value())
    {
      var span := oracle(id);
      if span.Some? {
        consensus.InsertSpan(span.value);
      }
      ok := span.Some?;
    }

    /** One pass: whatever the server answers for the missing ids up to two ahead is inserted in
        order until it fails once, and the last id asked for with success is noted.  A zero span
        size panics in the program. */
    method EnsureSpansForBlock(block: nat, oracle: Oracle)
      requires spanSize > 0 && consensus.Valid()
      modifies this, consensus.spanCache
      ensures
        var last, current := old(lastFetchedSpan), SpanIdAt(block, spanSize);
        var first := if last.Some? && last.value >= current then last.value + 1 else current;
        var answers := Answers(oracle, first, current + 3);
        && lastFetchedSpan == (if answers == [] then last else Some(first + |answers| - 1))
        && consensus.spanCache.Value() == InsertAll(old(consensus.spanCache.Value()), CACHE_SIZE, answers)
      ensures
        var fetched := Fetches(old(lastFetchedSpan), SpanIdAt(block, spanSize), 0, oracle);
        Honest(oracle) ==>
          && lastFetchedSpan == LastAfter(old(lastFetchedSpan), fetched)
          && consensus.spanCache.Value() == InsertAll(old(consensus.spanCache.Value()), CACHE_SIZE, fetched)
    {
      hide Inserted, InsertAll, Fetches, PassFrom, Answers, LastAfter, Honest;
      var current := SpanIdAt(block, spanSize);
      ghost var last, cache := lastFetchedSpan, consensus.spanCache.Value();
      ghost var end := PassFrom(last, cache, current, 0, oracle);
      var offset := 0;
      while offset <= PREFETCH_AHEAD
        invariant offset <= PREFETCH_AHEAD + 1
        invariant PassFrom(lastFetchedSpan, consensus.spanCache.Value(), current, offset, oracle) == end
      {
        PassStep(lastFetchedSpan, consensus.spanCache.Value(), current, offset, oracle);
        var id := current + offset;
        if AlreadyFetched(lastFetchedSpan, id) {
          offset := offset + 1;
          continue;
        }
        var ok := FetchAndCacheSpan(id, oracle);
        if !ok {
          break;
        }
        lastFetchedSpan := Some(id);
        offset := offset + 1;
      }
      PassStep(lastFetchedSpan, consensus.spanCache.Value(), current, offset, oracle);
      assert (lastFetchedSpan, consensus.spanCache.Value()) == end;
      PassMeans(last, cache, current, oracle);
      PassIsFetches(last, cache, current, 0, oracle);
    }
  }

  /** The pass as a state change: the highest fetched id and the cache. */
  function PassFrom(last: Option<nat>, cache: State, current: nat, offset: nat, oracle: Oracle)
    : (Option<nat>, State)
    decreases PREFETCH_AHEAD + 1 - offset
  {
    var id := current + offset;
    if offset > PREFETCH_AHEAD then (last, cache)
    else if AlreadyFetched(last, id) then PassFrom(last, cache, current, offset + 1, oracle)
    else
      match oracle(id)
      case None => (last, cache)
      case Some(span) => PassFrom(Some(id), Inserted(cache, CACHE_SIZE, span), current, offset + 1, oracle)
  }

  lemma PassStep(last: Option<nat>, cache: State, current: nat, offset: nat, oracle: Oracle)
    ensures
      var id, all := current + offset, PassFrom(last, cache, current, offset, oracle);
      if offset > PREFETCH_AHEAD then all == (last, cache)
      else if AlreadyFetched(last, id) then all == PassFrom(last, cache, current, offset + 1, oracle)
      else if oracle(id).None? then all == (last, cache)
      else all == PassFrom(Some(id), Inserted(cache, CACHE_SIZE, oracle(id).value), current, offset + 1, oracle)
  {
  }

  lemma {:induction false} InsertFirst(s: State, capacity: nat, span: Span, rest: seq<Span>)
    ensures InsertAll(s, capacity, [span] + rest) == InsertAll(Inserted(s, capacity, span), capacity, rest)
  {
    hide Inserted;
    if rest == [] {
      assert ([span] + rest)[..0] == [];
    } else {
      assert ([span] + rest)[..|rest|] == [span] + rest[..|rest| - 1];
      InsertFirst(s, capacity, span, rest[..|rest| - 1]);
    }
  }

  lemma AnswersStep(oracle: Oracle, first: nat, end: nat)
    ensures Answers(oracle, first, end)
         == if first >= end || oracle(first).None? then []
            else [oracle(first).value] + Answers(oracle, first + 1, end)
  {
  }

  lemma MissingStep(last: Option<nat>, id: nat)
    ensures FirstMissing(last, id) >= id
    ensures if AlreadyFetched(last, id) then FirstMissing(last, id) == FirstMissing(last, id + 1)
            else FirstMissing(last, id) == id && FirstMissing(Some(id), id + 1) == id + 1
  {
  }

  /** What a pass fetches from any server: the answers in order, up to the first failure. */
  lemma {:induction false} FetchesAreAnswers(last: Option<nat>, current: nat, offset: nat, oracle: Oracle)
    requires offset <= PREFETCH_AHEAD + 1
    ensures Fetches(last, current, offset, oracle)
         == Answers(oracle, FirstMissing(last, current + offset), current + PREFETCH_AHEAD + 1)
    decreases PREFETCH_AHEAD + 1 - offset
  {
    hide Fetches, Answers, FirstMissing;
    var id, end := current + offset, current + PREFETCH_AHEAD + 1;
    FetchStep(last, current, offset, oracle);
    AnswersStep(oracle, FirstMissing(last, id), end);
    MissingStep(last, id);
    if offset > PREFETCH_AHEAD {
    } else if AlreadyFetched(last, id) {
      FetchesAreAnswers(last, current, offset + 1, oracle);
    } else if oracle(id).Some? {
      FetchesAreAnswers(Some(id), current, offset + 1, oracle);
    }
  }

  /** How a pass changes the state, for any server. */
  lemma {:induction false} PassInsertsFetches(
    last: Option<nat>, cache: State, current: nat, offset: nat, oracle: Oracle)
    requires offset <= PREFETCH_AHEAD + 1
    ensures
      var fetched := Fetches(last, current, offset, oracle);
      PassFrom(last, cache, current, offset, oracle)
      == (if fetched == [] then last else Some(FirstMissing(last, current + offset) + |fetched| - 1),
          InsertAll(cache, CACHE_SIZE, fetched))
    decreases PREFETCH_AHEAD + 1 - offset
  {
    hide Inserted, Fetches, PassFrom, InsertAll;
    var id := current + offset;
    PassStep(last, cache, current, offset, oracle);
    FetchStep(last, current, offset, oracle);
    NothingInserted(cache, CACHE_SIZE);
    if offset > PREFETCH_AHEAD {
    } else if AlreadyFetched(last, id) {
      PassInsertsFetches(last, cache, current, offset + 1, oracle);
    } else if oracle(id).Some? {
      var span, rest := oracle(id).value, Fetches(Some(id), current, offset + 1, oracle);
      var cache' := Inserted(cache, CACHE_SIZE, span);
      PassInsertsFetches(Some(id), cache', current, offset + 1, oracle);
      NothingInserted(cache', CACHE_SIZE);
      InsertFirst(cache, CACHE_SIZE, span, rest);
    }
  }

  /** A whole pass. */
  lemma PassMeans(last: Option<nat>, cache: State, current: nat, oracle: Oracle)
    ensures
      var first := if last.Some? && last.value >= current then last.value + 1 else current;
      var answers := Answers(oracle, first, current + 3);
      PassFrom(last, cache, current, 0, oracle)
      == (if answers == [] then last else Some(first + |answers| - 1), InsertAll(cache, CACHE_SIZE, answers))
  {
    hide Fetches, PassFrom, InsertAll, Answers;
    FetchesAreAnswers(last, current, 0, oracle);
    PassInsertsFetches(last, cache, current, 0, oracle);
  }

  lemma NothingInserted(s: State, capacity: nat)
    ensures InsertAll(s, capacity, []) == s
  {
  }

  /** The pass inserts the fetched spans in order and notes the last of them. */
  lemma {:induction false} PassIsFetches(
    last: Option<nat>, cache: State, current: nat, offset: nat, oracle: Oracle)
    ensures
      var fetched := Fetches(last, current, offset, oracle);
      Honest(oracle) ==>
        PassFrom(last, cache, current, offset, oracle)
        == (LastAfter(last, fetched), InsertAll(cache, CACHE_SIZE, fetched))
    decreases PREFETCH_AHEAD + 1 - offset
  {
    hide Inserted, Fetches, PassFrom;
    var id := current + offset;
    PassStep(last, cache, current, offset, oracle);
    FetchStep(last, current, offset, oracle);
    if offset > PREFETCH_AHEAD {
    } else {
      if AlreadyFetched(last, id) {
        PassIsFetches(last, cache, current, offset + 1, oracle);
      } else if oracle(id).Some? {
        var span := oracle(id).value;
        var rest := Fetches(Some(id), current, offset + 1, oracle);
        PassIsFetches(Some(id), Inserted(cache, CACHE_SIZE, span), current, offset + 1, oracle);
        InsertFirst(cache, CACHE_SIZE, span, rest);
        hide InsertAll;
        assert Honest(oracle) ==> LastAfter(last, [span] + rest) == LastAfter(Some(id), rest);
      }
    }
  }

  // ---------------------------------------------------------------- one pass

  /** The first id a pass can still fetch. */
  function FirstMissing(last: Option<nat>, from: nat): nat {
    if AlreadyFetched(last, from) then last.value + 1 else from
  }

  lemma FetchStep(last: Option<nat>, current: nat, offset: nat, oracle: Oracle)
    ensures
      var id, all := current + offset, Fetches(last, current, offset, oracle);
      if offset > PREFETCH_AHEAD then all == []
      else if AlreadyFetched(last, id) then all == Fetches(last, current, offset + 1, oracle)
      else if oracle(id).None? then all == []
      else all == [oracle(id).value] + Fetches(Some(id), current, offset + 1, oracle)
  {
  }

  /** A pass fetches consecutive ids from the first missing one, none beyond two ahead, and stops
      earlier only at an id the server fails to deliver. */
  lemma {:induction false} FetchesAreConsecutive(last: Option<nat>, current: nat, offset: nat, oracle: Oracle)
    requires Honest(oracle) && offset <= PREFETCH_AHEAD + 1
    ensures
      var fetched := Fetches(last, current, offset, oracle);
      var first := FirstMissing(last, current + offset);
      && (forall i :: 0 <= i < |fetched| ==> fetched[i].id == first + i)
      && (fetched != [] ==> first + |fetched| <= current + PREFETCH_AHEAD + 1)
      && (first + |fetched| <= current + PREFETCH_AHEAD ==> oracle(first + |fetched|).None?)
    decreases PREFETCH_AHEAD + 1 - offset
  {
    hide Fetches;
    FetchStep(last, current, offset, oracle);
    if offset > PREFETCH_AHEAD {
    } else {
      var id := current + offset;
      if AlreadyFetched(last, id) {
        FetchesAreConsecutive(last, current, offset + 1, oracle);
      } else if oracle(id).Some? {
        var fetched, rest := Fetches(last, current, offset, oracle), Fetches(Some(id), current, offset + 1, oracle);
        FetchesAreConsecutive(Some(id), current, offset + 1, oracle);
        assert FirstMissing(last, id) == id && FirstMissing(Some(id), id + 1) == id + 1;
        assert forall i :: 1 <= i < |fetched| ==> fetched[i] == rest[i - 1];
      }
    }
  }

  // ---------------------------------------------------------------- runs

  /** Polls of the chain head, each with the server's behaviour then, mixed with span lookups by
      block validation. */
  datatype Action = Poll(current: nat, oracle: Oracle) | Query(id: nat)

  /** `current` is the head's span at the last poll, `ids` the ids fetched by passes in order,
      `trace` everything done to the cache. */
  datatype Progress = Progress(current: nat, last: Option<nat>, ids: seq<nat>, trace: seq<Op>)

  function Ids(spans: seq<Span>): (r: seq<nat>)
    ensures |r| == |spans| && forall i :: 0 <= i < |r| ==> r[i] == spans[i].id
  {
    seq(|spans|, i requires 0 <= i < |spans| => spans[i].id)
  }

  function Inserts(spans: seq<Span>): (r: seq<Op>)
    ensures |r| == |spans| && forall i :: 0 <= i < |r| ==> r[i] == InsertOp(spans[i])
  {
    seq(|spans|, i requires 0 <= i < |spans| => InsertOp(spans[i]))
  }

  /** Before the first poll the genesis span is fetched, without being noted as fetched. */
  function Start(oracle: Oracle): Progress {
    Progress(0, None, [], if oracle(0).Some? then [InsertOp(oracle(0).value)] else [])
  }

  function Act(p: Progress, a: Action): Progress {
    match a
    case Query(id) => p.(trace := p.trace + [GetOp(id)])
    case Poll(current, oracle) =>
      var fetched := Fetches(p.last, current, 0, oracle);
      Progress(current, LastAfter(p.last, fetched), p.ids + Ids(fetched), p.trace + Inserts(fetched))
  }

  function ActAll(genesis: Oracle, actions: seq<Action>): Progress {
    if actions == [] then Start(genesis)
    else Act(ActAll(genesis, actions[..|actions| - 1]), actions[|actions| - 1])
  }

  /** The server is honest throughout. */
  ghost predicate AllHonest(genesis: Oracle, actions: seq<Action>) {
    Honest(genesis) && forall i :: 0 <= i < |actions| && actions[i].Poll? ==> Honest(actions[i].oracle)
  }

  /** Heads do not move back, and validation looks at most `lookback` spans behind the head's. */
  ghost predicate Forward(genesis: Oracle, actions: seq<Action>, lookback: nat) {
    actions == [] ||
    var front, last := actions[..|actions| - 1], actions[|actions| - 1];
    Forward(genesis, front, lookback) && ForwardStep(ActAll(genesis, front).current, last, lookback)
  }

  predicate ForwardStep(current: nat, a: Action, lookback: nat) {
    match a
    case Poll(c, _) => current <= c
    case Query(id) => current <= id + lookback
  }

  lemma FrontOfRun(genesis: Oracle, actions: seq<Action>, a: Action)
    ensures ActAll(genesis, actions + [a]) == Act(ActAll(genesis, actions), a)
    ensures AllHonest(genesis, actions + [a])
       <==> AllHonest(genesis, actions) && (a.Poll? ==> Honest(a.oracle))
  {
    hide Act, Honest;
    var all := actions + [a];
    assert all[..|actions|] == actions && all[|actions|] == a;
    assert forall i :: 0 <= i < |actions| ==> all[i] == actions[i];
  }

  lemma ForwardExtends(genesis: Oracle, actions: seq<Action>, a: Action, lookback: nat)
    ensures Forward(genesis, actions + [a], lookback)
       <==> Forward(genesis, actions, lookback) && ForwardStep(ActAll(genesis, actions).current, a, lookback)
  {
    hide ActAll;
    assert (actions + [a])[..|actions|] == actions;
  }

  // ---------------------------------------------------------------- no refetch

  /** Ids are fetched in increasing order and `last` is the highest. */
  ghost predicate Ordered(p: Progress) {
    && (forall i, j :: 0 <= i < j < |p.ids| ==> p.ids[i] < p.ids[j])
    && (p.last.None? <==> p.ids == [])
    && (p.last.Some? ==> p.last.value == p.ids[|p.ids| - 1])
  }

  lemma ActKeepsOrdered(p: Progress, a: Action)
    requires Ordered(p) && (a.Poll? ==> Honest(a.oracle))
    ensures Ordered(Act(p, a))
  {
    if a.Poll? {
      var fetched := Fetches(p.last, a.current, 0, a.oracle);
      FetchesAreConsecutive(p.last, a.current, 0, a.oracle);
      hide Fetches, Honest;
      var p', first := Act(p, a), FirstMissing(p.last, a.current);
      assert p'.ids == p.ids + Ids(fetched) && p'.last == LastAfter(p.last, fetched);
      assert p.ids != [] ==> p.ids[|p.ids| - 1] < first;
      hide Act, FirstMissing;
      AppendKeepsIncreasing(p.ids, Ids(fetched), first);
    }
  }

  lemma AppendKeepsIncreasing(a: seq<nat>, b: seq<nat>, first: nat)
    requires forall i, j :: 0 <= i < j < |a| ==> a[i] < a[j]
    requires a != [] ==> a[|a| - 1] < first
    requires forall i :: 0 <= i < |b| ==> b[i] == first + i
    ensures forall i, j :: 0 <= i < j < |a + b| ==> (a + b)[i] < (a + b)[j]
  {
    assert forall i :: 0 <= i < |a| ==> a[i] < first;
  }

  /** No id is fetched twice by the passes, however the head moves. */
  lemma {:induction false} NeverRefetches(genesis: Oracle, actions: seq<Action>)
    requires AllHonest(genesis, actions)
    ensures Ordered(ActAll(genesis, actions))
  {
    if actions == [] {
    } else {
      var front, last := actions[..|actions| - 1], actions[|actions| - 1];
      assert actions == front + [last];
      FrontOfRun(genesis, front, last);
      NeverRefetches(genesis, front);
      ActKeepsOrdered(ActAll(genesis, front), last);
    }
  }

  // ---------------------------------------------------------------- the frontier

  /** Everything from the head's span to the highest fetched id has been fetched, and that id is
      at most two ahead. */
  ghost predicate FrontierComplete(p: Progress) {
    p.last.Some? ==>
      && p.last.value <= p.current + PREFETCH_AHEAD
      && forall id :: p.current <= id <= p.last.value ==> id in p.ids
  }

  lemma ActKeepsFrontier(p: Progress, a: Action)
    requires FrontierComplete(p)
    requires a.Poll? ==> Honest(a.oracle) && p.current <= a.current
    ensures FrontierComplete(Act(p, a))
  {
    if a.Poll? {
      FetchesAreConsecutive(p.last, a.current, 0, a.oracle);
      var fetched := Fetches(p.last, a.current, 0, a.oracle);
      var first := FirstMissing(p.last, a.current);
      var p' := Act(p, a);
      hide Fetches;
      if p'.last.Some? {
        forall id | a.current <= id <= p'.last.value ensures id in p'.ids {
          if fetched != [] && id >= first {
            assert Ids(fetched)[id - first] == id;
          }
        }
      }
    }
  }

  lemma {:induction false} FrontierIsComplete(genesis: Oracle, actions: seq<Action>, lookback: nat)
    requires AllHonest(genesis, actions) && Forward(genesis, actions, lookback)
    ensures FrontierComplete(ActAll(genesis, actions))
  {
    if actions == [] {
    } else {
      var front, last := actions[..|actions| - 1], actions[|actions| - 1];
      assert actions == front + [last];
      FrontOfRun(genesis, front, last);
      FrontierIsComplete(genesis, front, lookback);
      ActKeepsFrontier(ActAll(genesis, front), last);
    }
  }

  // ---------------------------------------------------------------- a head that moves back

  /** What a pass at `current` skips ends at most two ahead, and counting that many ids back from
      the last fetched one leads to `current`. */
  predicate SkipsOnlyFetched(p: Progress, current: nat) {
    AlreadyFetched(p.last, current) ==>
      var skipped := p.last.value - current + 1;
      skipped <= PREFETCH_AHEAD + 1 && skipped <= |p.ids| && p.ids[|p.ids| - skipped] == current
  }

  /** In an increasing list ending in `last`, everything from `current` on is there exactly when
      `current` is as far from the end as from `last`. */
  lemma {:induction false} ConsecutiveTail(ids: seq<nat>, current: nat, last: nat)
    requires forall i, j :: 0 <= i < j < |ids| ==> ids[i] < ids[j]
    requires ids != [] && current <= last == ids[|ids| - 1]
    ensures (forall id :: current <= id <= last ==> id in ids)
       <==> last - current + 1 <= |ids| && ids[|ids| - (last - current + 1)] == current
    decreases |ids|
  {
    var front := ids[..|ids| - 1];
    if current == last {
      assert ids[|ids| - 1] in ids;
    } else if front != [] && front[|front| - 1] == last - 1 {
      ConsecutiveTail(front, current, last - 1);
      assert ids == front + [last];
      assert forall id :: id in ids <==> id in front || id == last;
      assert (forall id :: current <= id <= last ==> id in ids) <==> (forall id :: current <= id <= last - 1 ==> id in front);
    } else {
      assert forall i :: 0 <= i < |front| ==> front[i] <= front[|front| - 1];
      assert last - 1 !in ids;
      if last - current + 1 <= |ids| && ids[|ids| - (last - current + 1)] == current {
        Spread(front, |ids| - (last - current + 1), |front| - 1);
      }
    }
  }

  lemma {:induction false} Spread(ids: seq<nat>, i: nat, j: nat)
    requires forall i, j :: 0 <= i < j < |ids| ==> ids[i] < ids[j]
    requires i <= j < |ids|
    ensures ids[i] + (j - i) <= ids[j]
  {
    if i == j {
    } else {
      Spread(ids, i, j - 1);
    }
  }

  /** Exactly when a pass leaves a complete frontier, wherever the head went before: what it skips
      was fetched and reaches at most two ahead, which the last three fetched ids tell. */
  lemma PollCompletesIff(p: Progress, current: nat, oracle: Oracle)
    requires Ordered(p) && Honest(oracle)
    ensures FrontierComplete(Act(p, Poll(current, oracle))) <==> SkipsOnlyFetched(p, current)
  {
    var fetched := Fetches(p.last, current, 0, oracle);
    var first, p' := FirstMissing(p.last, current), Act(p, Poll(current, oracle));
    FetchesAreConsecutive(p.last, current, 0, oracle);
    hide Fetches, Honest;
    assert p'.current == current && p'.last == LastAfter(p.last, fetched) && p'.ids == p.ids + Ids(fetched);
    hide Act;
    if AlreadyFetched(p.last, current) {
      ConsecutiveTail(p.ids, current, p.last.value);
    }
    hide FirstMissing, LastAfter;
    if SkipsOnlyFetched(p, current) {
      NothingMissing(p, p', fetched, current);
    } else {
      SomethingMissing(p, p', fetched, current);
    }
  }

  /** A pass that skips only what was fetched leaves no gap. */
  lemma NothingMissing(p: Progress, p': Progress, fetched: seq<Span>, current: nat)
    requires forall i :: 0 <= i < |fetched| ==> fetched[i].id == FirstMissing(p.last, current) + i
    requires fetched != [] ==> FirstMissing(p.last, current) + |fetched| <= current + PREFETCH_AHEAD + 1
    requires p'.current == current && p'.last == LastAfter(p.last, fetched) && p'.ids == p.ids + Ids(fetched)
    requires AlreadyFetched(p.last, current) ==>
      && p.last.value <= current + PREFETCH_AHEAD
      && forall id :: current <= id <= p.last.value ==> id in p.ids
    ensures FrontierComplete(p')
  {
    var first, more := FirstMissing(p.last, current), Ids(fetched);
    if p'.last.Some? {
      forall id | current <= id <= p'.last.value ensures id in p'.ids {
        if fetched != [] && id >= first {
          assert more[id - first] == id;
        }
      }
    }
  }

  /** A pass fills no gap below the last fetched id. */
  lemma SomethingMissing(p: Progress, p': Progress, fetched: seq<Span>, current: nat)
    requires forall i :: 0 <= i < |fetched| ==> fetched[i].id == FirstMissing(p.last, current) + i
    requires p'.current == current && p'.last == LastAfter(p.last, fetched) && p'.ids == p.ids + Ids(fetched)
    requires AlreadyFetched(p.last, current)
    requires p.last.value <= current + PREFETCH_AHEAD ==> exists id :: current <= id <= p.last.value && id !in p.ids
    ensures !FrontierComplete(p')
  {
    var more := Ids(fetched);
    assert forall i :: 0 <= i < |more| ==> more[i] > p.last.value;
    assert p'.last.Some? && p.last.value <= p'.last.value;
    if p.last.value <= current + PREFETCH_AHEAD {
      var id :| current <= id <= p.last.value && id !in p.ids;
      assert id !in more;
      assert id !in p'.ids;
    }
  }

  /** A head that moves back below everything fetched leaves a gap that no later pass at that head
      fills: all ids up to the last fetched one are skipped. */
  lemma HeadMovesBack(p: Progress, current: nat, oracle: Oracle)
    requires Ordered(p) && Honest(oracle) && p.ids != [] && current < p.ids[0]
    requires current + PREFETCH_AHEAD <= p.last.value
    ensures
      var p' := Act(p, Poll(current, oracle));
      !FrontierComplete(p') && p' == p.(current := current) && current !in p'.ids
  {
    FetchesAreConsecutive(p.last, current, 0, oracle);
    assert Fetches(p.last, current, 0, oracle) == [];
    hide Fetches;
    assert p.ids + Ids([]) == p.ids && p.trace + Inserts([]) == p.trace;
    assert current !in p.ids by {
      assert forall i :: 0 < i < |p.ids| ==> p.ids[0] < p.ids[i];
    }
    assert current <= p.last.value;
  }

  // ---------------------------------------------------------------- a server with every span

  function AnySpan(id: nat): Span {
    Span(id, 0, 0, ValidatorSet([], None), [], "")
  }

  const SERVING: Oracle := (id: nat) => Some(AnySpan(id))
  const SILENT: Oracle := (id: nat) => None

  function SpansFrom(first: nat, n: nat): (r: seq<Span>)
    ensures |r| == n && forall i :: 0 <= i < n ==> r[i] == AnySpan(first + i)
  {
    seq(n, i requires 0 <= i < n => AnySpan(first + i))
  }

  /** A pass then fetches everything missing up to two ahead. */
  lemma {:induction false} ServedPass(last: Option<nat>, current: nat, offset: nat)
    requires offset <= PREFETCH_AHEAD + 1
    ensures
      var first, end := FirstMissing(last, current + offset), current + PREFETCH_AHEAD + 1;
      Fetches(last, current, offset, SERVING) == SpansFrom(first, if first <= end then end - first else 0)
    decreases PREFETCH_AHEAD + 1 - offset
  {
    hide Fetches;
    FetchStep(last, current, offset, SERVING);
    if offset > PREFETCH_AHEAD {
    } else {
      var id := current + offset;
      if AlreadyFetched(last, id) {
        ServedPass(last, current, offset + 1);
      } else {
        ServedPass(Some(id), current, offset + 1);
      }
    }
  }

  lemma FirstServedPass(c: nat)
    ensures
      var spans := SpansFrom(c, PREFETCH_AHEAD + 1);
      Act(Progress(0, None, [], []), Poll(c, SERVING))
      == Progress(c, Some(c + PREFETCH_AHEAD), Ids(spans), Inserts(spans))
  {
    var spans := SpansFrom(c, PREFETCH_AHEAD + 1);
    ServedPass(None, c, 0);
    hide Fetches;
    assert Fetches(None, c, 0, SERVING) == spans && spans != [];
    hide Ids, Inserts;
    assert [] + Ids(spans) == Ids(spans) && [] + Inserts(spans) == Inserts(spans);
  }

  /** The state after a first poll anywhere. */
  lemma FirstServedPoll(c: nat)
    ensures AllHonest(SILENT, [Poll(c, SERVING)])
    ensures
      var spans := SpansFrom(c, PREFETCH_AHEAD + 1);
      ActAll(SILENT, [Poll(c, SERVING)]) == Progress(c, Some(c + PREFETCH_AHEAD), Ids(spans), Inserts(spans))
  {
    var a := Poll(c, SERVING);
    assert [] + [a] == [a];
    assert AllHonest(SILENT, []) && Honest(SERVING);
    assert ActAll(SILENT, []) == Progress(0, None, [], []);
    hide Act, ActAll, AllHonest, Honest;
    FrontOfRun(SILENT, [], a);
    FirstServedPass(c);
  }

  function PollsAt(heads: seq<nat>): (r: seq<Action>)
    ensures |r| == |heads| && forall i :: 0 <= i < |r| ==> r[i] == Poll(heads[i], SERVING)
  {
    seq(|heads|, i requires 0 <= i < |heads| => Poll(heads[i], SERVING))
  }

  /** Such states are reached, and for good: after a first poll at `c`, polls at lower heads fetch
      nothing, however many there are and whatever the server has. */
  lemma {:induction false} StuckBehind(c: nat, heads: seq<nat>)
    requires forall i :: 0 <= i < |heads| ==> heads[i] < c
    ensures
      var p := ActAll(SILENT, [Poll(c, SERVING)] + PollsAt(heads));
      && p.ids == [c, c + 1, c + 2] && p.last == Some(c + 2)
      && (heads != [] ==> p.current == Last(heads) && !FrontierComplete(p) && p.current !in p.ids)
  {
    FirstServedPoll(c);
    hide Act, ActAll, FrontierComplete;
    var first := [Poll(c, SERVING)];
    if heads == [] {
      assert first + PollsAt(heads) == first;
      assert Ids(SpansFrom(c, PREFETCH_AHEAD + 1)) == [c, c + 1, c + 2];
    } else {
      var front, last := Front(heads), Last(heads);
      StuckBehind(c, front);
      assert first + PollsAt(heads) == (first + PollsAt(front)) + [Poll(last, SERVING)];
      FrontOfRun(SILENT, first + PollsAt(front), Poll(last, SERVING));
      HeadMovesBack(ActAll(SILENT, first + PollsAt(front)), last, SERVING);
    }
  }

  // ---------------------------------------------------------------- what is inserted

  /** The ids inserted into the cache, in time order. */
  function InsertedIds(trace: seq<Op>): seq<nat> {
    if trace == [] then []
    else
      InsertedIds(trace[..|trace| - 1]) +
      match trace[|trace| - 1] { case InsertOp(span) => [span.id] case GetOp(_) => [] }
  }

  lemma {:induction false} InsertedIdsOf(trace: seq<Op>, spans: seq<Span>)
    ensures InsertedIds(trace + Inserts(spans)) == InsertedIds(trace) + Ids(spans)
  {
    var all := trace + Inserts(spans);
    if spans == [] {
      assert all == trace;
    } else {
      var front := spans[..|spans| - 1];
      assert all[..|all| - 1] == trace + Inserts(front);
      assert Ids(spans) == Ids(front) + [spans[|spans| - 1].id];
      InsertedIdsOf(trace, front);
    }
  }

  lemma InsertedByStep(p: Progress, a: Action)
    ensures
      var p' := Act(p, a);
      |p.ids| <= |p'.ids| && p'.ids[..|p.ids|] == p.ids
      && InsertedIds(p'.trace) == InsertedIds(p.trace) + p'.ids[|p.ids|..]
  {
    hide Fetches;
    match a {
      case Query(id) => assert (p.trace + [GetOp(id)])[..|p.trace|] == p.trace;
      case Poll(c, oracle) =>
        hide InsertedIds;
        InsertedIdsOf(p.trace, Fetches(p.last, c, 0, oracle));
    }
  }

  /** What the start inserts. */
  function GenesisIds(genesis: Oracle): seq<nat> {
    if genesis(0).Some? then [0] else []
  }

  lemma InsertedAtStart(genesis: Oracle)
    requires Honest(genesis)
    ensures InsertedIds(Start(genesis).trace) == GenesisIds(genesis)
  {
    var trace := Start(genesis).trace;
    if genesis(0).Some? {
      assert trace[..0] == [] && InsertedIds([]) == [];
    }
  }

  /** The cache sees the genesis span, if it was delivered, and then each fetched id. */
  lemma {:induction false} InsertedInRun(genesis: Oracle, actions: seq<Action>)
    requires AllHonest(genesis, actions)
    ensures InsertedIds(ActAll(genesis, actions).trace) == GenesisIds(genesis) + ActAll(genesis, actions).ids
  {
    hide Act, InsertedIds, Fetches, GenesisIds;
    if actions == [] {
      InsertedAtStart(genesis);
      assert ActAll(genesis, actions).ids == [];
    } else {
      var front, last := actions[..|actions| - 1], actions[|actions| - 1];
      assert actions == front + [last];
      FrontOfRun(genesis, front, last);
      InsertedInRun(genesis, front);
      hide ActAll, AllHonest;
      InsertedByStep(ActAll(genesis, front), last);
    }
  }

  /** A poll that delivers its head's span. */
  predicate Delivers(a: Action) {
    a.Poll? && a.oracle(a.current).Some?
  }

  /** Action `i` is the first poll to deliver its head's span, and that is span 0. */
  predicate FirstDeliversZero(actions: seq<Action>, i: int) {
    && 0 <= i < |actions| && Delivers(actions[i]) && actions[i].current == 0
    && forall j :: 0 <= j < i ==> !Delivers(actions[j])
  }

  lemma {:induction false} NothingFetchedIff(genesis: Oracle, actions: seq<Action>)
    requires AllHonest(genesis, actions)
    ensures ActAll(genesis, actions).ids == [] <==> forall i :: 0 <= i < |actions| ==> !Delivers(actions[i])
  {
    if actions == [] {
    } else {
      var front, last := actions[..|actions| - 1], actions[|actions| - 1];
      assert actions == front + [last];
      FrontOfRun(genesis, front, last);
      NothingFetchedIff(genesis, front);
      NeverRefetches(genesis, front);
      if last.Poll? {
        FetchesAreConsecutive(ActAll(genesis, front).last, last.current, 0, last.oracle);
      }
      hide Fetches, ActAll;
      assert forall i :: 0 <= i < |actions| ==> actions[i] == if i < |front| then front[i] else last;
    }
  }

  lemma {:induction false} ZeroFetchedIff(genesis: Oracle, actions: seq<Action>)
    requires AllHonest(genesis, actions)
    ensures 0 in ActAll(genesis, actions).ids <==> exists i :: FirstDeliversZero(actions, i)
  {
    if actions == [] {
    } else {
      var front, last := actions[..|actions| - 1], actions[|actions| - 1];
      assert actions == front + [last];
      FrontOfRun(genesis, front, last);
      ZeroFetchedIff(genesis, front);
      NothingFetchedIff(genesis, front);
      NeverRefetches(genesis, front);
      ZeroFetchedByStep(ActAll(genesis, front), last);
      hide ActAll, Act, AllHonest, Ordered;
      FirstDeliversExtends(front, last);
    }
  }

  lemma FirstDeliversExtends(front: seq<Action>, last: Action)
    ensures (exists i :: FirstDeliversZero(front + [last], i)) <==>
      || (exists i :: FirstDeliversZero(front, i))
      || ((forall i :: 0 <= i < |front| ==> !Delivers(front[i])) && Delivers(last) && last.current == 0)
  {
    hide Delivers;
    var all := front + [last];
    assert all[|front|] == last && forall i :: 0 <= i < |front| ==> all[i] == front[i];
    if i :| FirstDeliversZero(front, i) {
      assert FirstDeliversZero(all, i);
    } else if i :| FirstDeliversZero(all, i) {
      assert i == |front| by {
        assert i < |front| ==> FirstDeliversZero(front, i);
      }
    } else {
      assert !FirstDeliversZero(all, |front|);
    }
  }

  lemma ZeroFetchedByStep(p: Progress, a: Action)
    requires Ordered(p) && (a.Poll? ==> Honest(a.oracle))
    ensures 0 in Act(p, a).ids <==> 0 in p.ids || (p.ids == [] && Delivers(a) && a.current == 0)
  {
    if a.Poll? {
      var fetched := Fetches(p.last, a.current, 0, a.oracle);
      FetchesAreConsecutive(p.last, a.current, 0, a.oracle);
      hide Fetches;
      if fetched != [] {
        assert Ids(fetched)[0] == FirstMissing(p.last, a.current);
      }
    }
  }

  /** `id` is inserted at two different times. */
  ghost predicate InsertedTwice(trace: seq<Op>, id: nat) {
    exists i, j :: 0 <= i < j < |InsertedIds(trace)| && InsertedIds(trace)[i] == id == InsertedIds(trace)[j]
  }

  /** The genesis fetch is not noted, so span 0 can be fetched twice: in every honest run an id is
      inserted twice exactly when it is 0, the start delivered it, and the first poll that delivers
      its head's span is at span 0. */
  lemma InsertedTwiceIff(genesis: Oracle, actions: seq<Action>, id: nat)
    requires AllHonest(genesis, actions)
    ensures InsertedTwice(ActAll(genesis, actions).trace, id)
       <==> id == 0 && genesis(0).Some? && exists i :: FirstDeliversZero(actions, i)
  {
    var p := ActAll(genesis, actions);
    InsertedInRun(genesis, actions);
    NeverRefetches(genesis, actions);
    ZeroFetchedIff(genesis, actions);
    hide ActAll, FirstDeliversZero, InsertedIds, AllHonest;
    SplitOccurrences(GenesisIds(genesis), p.ids, id);
  }

  lemma SplitOccurrences(a: seq<nat>, b: seq<nat>, id: nat)
    requires NoDuplicates(a) && NoDuplicates(b)
    ensures (exists i, j :: 0 <= i < j < |a + b| && (a + b)[i] == id == (a + b)[j]) <==> id in a && id in b
  {
    if id in a && id in b {
      var i, j :| 0 <= i < |a| && a[i] == id && 0 <= j < |b| && b[j] == id;
      assert (a + b)[i] == id == (a + b)[|a| + j];
    }
  }
}
