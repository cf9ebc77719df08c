/** Whether the spans from the head to the prefetched frontier are still cached: with lookups up to
    `lookback` spans behind the head, exactly when the capacity is at least `lookback` + 5. */
module FrontierCaching {
  import opened CacheTraces
  import opened Prefetching
  import opened Primitives

  /** The ids from the head's span to the last fetched one. */
  predicate OnFrontier(p: Progress, id: nat) {
    p.last.Some? && p.current <= id <= p.last.value
  }

  /** The capacity that keeps the frontier; capacity 0 means no bound. */
  predicate Suffices(capacity: nat, lookback: nat) {
    capacity == 0 || capacity >= lookback + 5
  }

  // ---------------------------------------------------------------- uses

  lemma UsesOfGet(trace: seq<Op>, capacity: nat, id: nat)
    ensures Uses(trace + [GetOp(id)], capacity)
         == Uses(trace, capacity) + if id in Run(trace, capacity).spans then [id] else []
  {
    assert Front(trace + [GetOp(id)]) == trace;
  }

  lemma {:induction false} UsesOfInserts(trace: seq<Op>, capacity: nat, spans: seq<Span>)
    ensures Uses(trace + Inserts(spans), capacity) == Uses(trace, capacity) + Ids(spans)
  {
    var all := trace + Inserts(spans);
    if spans == [] {
      assert all == trace;
    } else {
      var front := spans[..|spans| - 1];
      assert Front(all) == trace + Inserts(front);
      assert Ids(spans) == Ids(front) + [spans[|spans| - 1].id];
      UsesOfInserts(trace, capacity, front);
    }
  }

  /** An id that can be used while `k` is on the frontier. */
  predicate Near(k: nat, id: nat, lookback: nat) {
    id <= k + PREFETCH_AHEAD && k <= id + PREFETCH_AHEAD + lookback
  }

  /** `k` was used, and everything used since is near it. */
  ghost predicate UsedLately(uses: seq<nat>, k: nat, lookback: nat) {
    exists q :: 0 <= q < |uses| && uses[q] == k && NearAfter(uses, q, lookback)
  }

  predicate NearAfter(uses: seq<nat>, q: nat, lookback: nat)
    requires q < |uses|
  {
    forall r :: q < r < |uses| ==> Near(uses[q], uses[r], lookback)
  }

  lemma LatelyExtends(uses: seq<nat>, more: seq<nat>, k: nat, lookback: nat)
    requires UsedLately(uses, k, lookback)
    requires forall i :: 0 <= i < |more| ==> Near(k, more[i], lookback)
    ensures UsedLately(uses + more, k, lookback)
  {
    hide Near;
    var q :| 0 <= q < |uses| && uses[q] == k && NearAfter(uses, q, lookback);
    assert NearAfter(uses + more, q, lookback);
  }

  lemma NewIsLate(uses: seq<nat>, more: seq<nat>, i: nat, lookback: nat)
    requires i < |more| && NearAfter(more, i, lookback)
    ensures UsedLately(uses + more, more[i], lookback)
  {
    hide Near;
    var all, q := uses + more, |uses| + i;
    forall r | q < r < |all| ensures Near(all[q], all[r], lookback) {
      assert all[r] == more[r - |uses|];
    }
    assert all[q] == more[i] && NearAfter(all, q, lookback);
  }

  /** Fewer than `lookback` + 5 different ids are near. */
  lemma FewSince(uses: seq<nat>, k: nat, lookback: nat)
    requires UsedLately(uses, k, lookback)
    ensures k in uses && |UsedSince(uses, k)| < lookback + 2 * PREFETCH_AHEAD + 1
  {
    var q :| 0 <= q < |uses| && uses[q] == k && NearAfter(uses, q, lookback);
    var p := LastUse(uses, k);
    var since := UsedSince(uses, k);
    hide LastUse;
    forall x | x in since ensures Near(k, x, lookback) && x != k {
      var r :| 0 <= r < |uses| - (p + 1) && uses[p + 1..][r] == x;
      assert uses[p + 1 + r] == x;
    }
    SizeInRange(since + {k}, k - PREFETCH_AHEAD - lookback, lookback + 2 * PREFETCH_AHEAD + 1);
  }

  // ---------------------------------------------------------------- enough room

  /** Everything used was fetched (or is span 0), and the frontier was used lately. */
  ghost predicate Fresh(p: Progress, capacity: nat, lookback: nat) {
    var uses := Uses(p.trace, capacity);
    && (forall i :: 0 <= i < |uses| ==> uses[i] == 0 || uses[i] in p.ids)
    && forall id :: OnFrontier(p, id) ==> UsedLately(uses, id, lookback)
  }

  lemma IdsUpToLast(p: Progress, id: nat)
    requires Ordered(p) && id in p.ids
    ensures p.last.Some? && id <= p.last.value
  {
  }

  lemma QueryKeepsFresh(p: Progress, id: nat, capacity: nat, lookback: nat)
    requires Ordered(p) && FrontierComplete(p) && Fresh(p, capacity, lookback)
    requires capacity > 0 && p.current <= id + lookback
    ensures Fresh(Act(p, Query(id)), capacity, lookback)
  {
    var p', uses := Act(p, Query(id)), Uses(p.trace, capacity);
    assert p' == p.(trace := p.trace + [GetOp(id)]);
    hide Act, Uses, Run, UsedLately, FrontierComplete, Ordered, UsedSince, Near;
    HitIffFewSince(p.trace, capacity, id);
    UsesOfGet(p.trace, capacity, id);
    if id in Run(p.trace, capacity).spans {
      assert id in uses;
      forall k | OnFrontier(p, k) ensures UsedLately(uses + [id], k, lookback) {
        HitIsNear(p, id, k, lookback);
        LatelyExtends(uses, [id], k, lookback);
      }
    } else {
      assert Uses(p'.trace, capacity) == uses;
    }
  }

  lemma HitIsNear(p: Progress, id: nat, k: nat, lookback: nat)
    requires Ordered(p) && FrontierComplete(p) && OnFrontier(p, k)
    requires (id == 0 || id in p.ids) && p.current <= id + lookback
    ensures Near(k, id, lookback)
  {
    if id != 0 {
      IdsUpToLast(p, id);
    }
  }

  /** One pass: its ids lie close together from `first` on, and close above the old frontier. */
  lemma PassKeepsLately(uses: seq<nat>, more: seq<nat>, first: nat, current: nat, k: nat, lookback: nat)
    requires forall j :: 0 <= j < |more| ==> more[j] == first + j
    requires more != [] ==> first + |more| <= current + PREFETCH_AHEAD + 1
    requires current <= k < first + |more|
    requires k < first ==> UsedLately(uses, k, lookback)
    ensures UsedLately(uses + more, k, lookback)
  {
    hide UsedLately;
    if k < first {
      LatelyExtends(uses, more, k, lookback);
    } else {
      NewIsLate(uses, more, k - first, lookback);
    }
  }

  lemma FetchedUpToFrontier(p: Progress, fetched: seq<Span>, first: nat, current: nat, k: nat)
    requires first == FirstMissing(p.last, current) && p.current <= current <= k
    requires forall j :: 0 <= j < |fetched| ==> fetched[j].id == first + j
    requires LastAfter(p.last, fetched).Some? && k <= LastAfter(p.last, fetched).value
    ensures k < first + |fetched|
    ensures k < first ==> OnFrontier(p, k)
  {
  }

  lemma PollKeepsFresh(p: Progress, current: nat, oracle: Oracle, capacity: nat, lookback: nat)
    requires Ordered(p) && FrontierComplete(p) && Fresh(p, capacity, lookback)
    requires Honest(oracle) && p.current <= current
    ensures Fresh(Act(p, Poll(current, oracle)), capacity, lookback)
  {
    var uses, p' := Uses(p.trace, capacity), Act(p, Poll(current, oracle));
    var fetched := Fetches(p.last, current, 0, oracle);
    var more, first := Ids(fetched), FirstMissing(p.last, current);
    assert p' == Progress(current, LastAfter(p.last, fetched), p.ids + more, p.trace + Inserts(fetched));
    FetchesAreConsecutive(p.last, current, 0, oracle);
    hide Uses, UsedLately, Act, Fetches, Ordered, FrontierComplete, Honest, Inserts, Ids, FirstMissing, LastAfter;
    UsesOfInserts(p.trace, capacity, fetched);
    forall k: nat | OnFrontier(p', k) ensures UsedLately(uses + more, k, lookback) {
      FetchedUpToFrontier(p, fetched, first, current, k);
      PassKeepsLately(uses, more, first, current, k, lookback);
    }
  }

  lemma StartIsFresh(genesis: Oracle, capacity: nat, lookback: nat)
    requires Honest(genesis)
    ensures Fresh(Start(genesis), capacity, lookback)
  {
    if genesis(0).Some? {
      UsesOfInserts([], capacity, [genesis(0).value]);
      assert [] + Inserts([genesis(0).value]) == Start(genesis).trace;
    }
  }

  lemma {:induction false} RunsAreFresh(genesis: Oracle, actions: seq<Action>, capacity: nat, lookback: nat)
    requires AllHonest(genesis, actions) && Forward(genesis, actions, lookback) && capacity > 0
    ensures Fresh(ActAll(genesis, actions), capacity, lookback)
  {
    if actions == [] {
      StartIsFresh(genesis, capacity, lookback);
    } else {
      var front, last := actions[..|actions| - 1], actions[|actions| - 1];
      assert actions == front + [last];
      FrontOfRun(genesis, front, last);
      RunsAreFresh(genesis, front, capacity, lookback);
      NeverRefetches(genesis, front);
      FrontierIsComplete(genesis, front, lookback);
      hide Act, Fresh, Ordered, FrontierComplete, Honest;
      var p := ActAll(genesis, front);
      match last {
        case Query(id) => QueryKeepsFresh(p, id, capacity, lookback);
        case Poll(c, oracle) => PollKeepsFresh(p, c, oracle, capacity, lookback);
      }
    }
  }

  /** The frontier is cached: whatever the polls and lookups, a fetched span from the head's on is
      there when validation asks for it. */
  lemma FrontierIsCached(genesis: Oracle, actions: seq<Action>, id: nat, lookback: nat, capacity: nat)
    requires AllHonest(genesis, actions) && Forward(genesis, actions, lookback)
    requires OnFrontier(ActAll(genesis, actions), id) && Suffices(capacity, lookback)
    ensures id in Run(ActAll(genesis, actions).trace, capacity).spans
  {
    var trace := ActAll(genesis, actions).trace;
    var least := lookback + 2 * PREFETCH_AHEAD + 1;
    RunsAreFresh(genesis, actions, least, lookback);
    hide ActAll, AllHonest, Forward;
    FewSince(Uses(trace, least), id, lookback);
    HitIffFewSince(trace, least, id);
    LargerCacheHitsWhereSmallerDoes(trace, least, capacity, id);
  }

  // ---------------------------------------------------------------- too little room

  /** A run reaches a state: the head's span, the last fetched id and the uses so far. */
  ghost predicate Reaches(
    actions: seq<Action>, capacity: nat, lookback: nat, current: nat, last: nat, uses: seq<nat>)
  {
    var p := ActAll(SILENT, actions);
    && AllHonest(SILENT, actions) && Forward(SILENT, actions, lookback)
    && p.current == current && p.last == Some(last) && Uses(p.trace, capacity) == uses
  }

  lemma ReachesByPoll(
    actions: seq<Action>, capacity: nat, lookback: nat, current: nat, last: nat, uses: seq<nat>,
    head: nat, spans: seq<Span>)
    requires Reaches(actions, capacity, lookback, current, last, uses)
    requires head >= current && spans != [] && Fetches(Some(last), head, 0, SERVING) == spans
    ensures Reaches(actions + [Poll(head, SERVING)], capacity, lookback,
      head, spans[|spans| - 1].id, uses + Ids(spans))
  {
    var a := Poll(head, SERVING);
    FrontOfRun(SILENT, actions, a);
    ForwardExtends(SILENT, actions, a, lookback);
    hide Fetches, Uses, ActAll, Forward, AllHonest;
    UsesOfInserts(ActAll(SILENT, actions).trace, capacity, spans);
  }

  lemma ReachesByQuery(
    actions: seq<Action>, capacity: nat, lookback: nat, current: nat, last: nat, uses: seq<nat>, id: nat)
    requires Reaches(actions, capacity, lookback, current, last, uses)
    requires current <= id + lookback && capacity > 0
    requires id in uses && |UsedSince(uses, id)| < capacity
    ensures Reaches(actions + [Query(id)], capacity, lookback, current, last, uses + [id])
  {
    var a := Query(id);
    FrontOfRun(SILENT, actions, a);
    ForwardExtends(SILENT, actions, a, lookback);
    hide Uses, ActAll, Forward, AllHonest, UsedSince, Run;
    var trace := ActAll(SILENT, actions).trace;
    UsesOfGet(trace, capacity, id);
    HitIffFewSince(trace, capacity, id);
  }

  /** 0, 1, ..., n - 1. */
  function Upward(n: nat): (r: seq<nat>)
    ensures |r| == n && forall i :: 0 <= i < n ==> r[i] == i
  {
    seq(n, i => i)
  }

  /** k - 1, k - 2, ..., k - n. */
  function Downward(k: nat, n: nat): (r: seq<nat>)
    requires n <= k
    ensures |r| == n && forall i :: 0 <= i < n ==> r[i] == k - 1 - i
  {
    seq(n, i requires 0 <= i < n => k - 1 - i)
  }

  lemma FirstPoll(capacity: nat, lookback: nat)
    ensures Reaches([Poll(0, SERVING)], capacity, lookback, 0, 2, Upward(3))
  {
    var a, spans := Poll(0, SERVING), SpansFrom(0, PREFETCH_AHEAD + 1);
    FirstServedPoll(0);
    ForwardExtends(SILENT, [], a, lookback);
    assert [] + [a] == [a] && Forward(SILENT, [a], lookback);
    hide ActAll, Forward, AllHonest;
    UsesOfInserts([], capacity, spans);
    assert [] + Inserts(spans) == Inserts(spans) && Uses([], capacity) == [];
    hide Uses;
    assert Ids(spans) == Upward(3);
  }

  /** Polling head by head uses each id once. */
  lemma {:induction false} Climb(head: nat, capacity: nat, lookback: nat) returns (actions: seq<Action>)
    ensures Reaches(actions, capacity, lookback, head, head + 2, Upward(head + 3))
  {
    hide Reaches, Fetches;
    if head == 0 {
      FirstPoll(capacity, lookback);
      actions := [Poll(0, SERVING)];
    } else {
      actions := Climb(head - 1, capacity, lookback);
      var spans := SpansFrom(head + 2, 1);
      ServedPass(Some(head + 1), head, 0);
      ReachesByPoll(actions, capacity, lookback, head - 1, head + 1, Upward(head + 2), head, spans);
      assert Upward(head + 2) + Ids(spans) == Upward(head + 3);
      actions := actions + [Poll(head, SERVING)];
    }
  }

  /** Looking up ids further and further back hits as long as fewer than `capacity` were used. */
  lemma {:induction false} Descend(k: nat, n: nat, capacity: nat, lookback: nat) returns (actions: seq<Action>)
    requires 2 <= k && n <= k && n <= lookback + 2 && (n > 0 ==> n < capacity)
    ensures Reaches(actions, capacity, lookback, k - 2, k, Upward(k + 1) + Downward(k, n))
  {
    hide Reaches, UsedSince;
    if n == 0 {
      actions := Climb(k - 2, capacity, lookback);
      assert Upward(k + 1) + Downward(k, 0) == Upward(k + 1);
    } else {
      actions := Descend(k, n - 1, capacity, lookback);
      var uses, id := Upward(k + 1) + Downward(k, n - 1), k - n;
      UsedSinceDescent(k, n);
      ReachesByQuery(actions, capacity, lookback, k - 2, k, uses, id);
      assert uses + [id] == Upward(k + 1) + Downward(k, n);
      actions := actions + [Query(id)];
    }
  }

  lemma UsedSinceDescent(k: nat, n: nat)
    requires 0 < n <= k
    ensures
      var uses := Upward(k + 1) + Downward(k, n - 1);
      k - n in uses && |UsedSince(uses, k - n)| <= n
  {
    var uses, id := Upward(k + 1) + Downward(k, n - 1), k - n;
    assert uses[id] == id;
    var p, since := LastUse(uses, id), UsedSince(uses, id);
    hide LastUse, Upward, Downward;
    forall x | x in since ensures id + 1 <= x < id + 1 + n {
      var r :| 0 <= r < |uses| - (p + 1) && uses[p + 1..][r] == x;
      assert uses[p + 1 + r] == x;
    }
    SizeInRange(since, id + 1, n);
  }

  /** After the descent the head moves to `k`, which the two new ids then push out. */
  lemma FrontierLost(k: nat, n: nat, capacity: nat, lookback: nat) returns (actions: seq<Action>)
    requires 2 <= k && n <= k && n <= lookback + 2 && (n > 0 ==> n < capacity)
    requires 0 < capacity <= n + 2
    ensures AllHonest(SILENT, actions) && Forward(SILENT, actions, lookback)
    ensures OnFrontier(ActAll(SILENT, actions), k)
    ensures k !in Run(ActAll(SILENT, actions).trace, capacity).spans
  {
    hide Uses, ActAll, Forward, AllHonest, UsedSince, Run, Fetches;
    var before := Upward(k + 1) + Downward(k, n);
    actions := Descend(k, n, capacity, lookback);
    var spans := SpansFrom(k + 1, 2);
    ServedPass(Some(k), k, 0);
    ReachesByPoll(actions, capacity, lookback, k - 2, k, before, k, spans);
    actions := actions + [Poll(k, SERVING)];
    assert Ids(spans) == [k + 1, k + 2];
    UsedSinceLost(k, n);
    HitIffFewSince(ActAll(SILENT, actions).trace, capacity, k);
  }

  lemma UsedSinceLost(k: nat, n: nat)
    requires n <= k
    ensures
      var uses := Upward(k + 1) + Downward(k, n) + [k + 1, k + 2];
      k in uses && |UsedSince(uses, k)| >= n + 2
  {
    var later: seq<nat> := Downward(k, n) + [k + 1, k + 2];
    assert Upward(k + 1) + Downward(k, n) + [k + 1, k + 2] == Upward(k) + [k] + later;
    SinceSuffix(Upward(k), k, later);
    SizeOfSet(later);
  }

  lemma SinceSuffix(before: seq<nat>, k: nat, later: seq<nat>)
    requires k !in later
    ensures k in before + [k] + later && UsedSince(before + [k] + later, k) == SetOf(later)
  {
    var uses := before + [k] + later;
    assert uses[|before|] == k && uses[|before| + 1..] == later;
    var p := LastUse(uses, k);
    hide LastUse;
    assert forall r :: |before| < r < |uses| ==> uses[r] == later[r - |before| - 1];
    assert p == |before|;
  }

  /** Exactly when: the frontier is cached in every run whose lookups reach at most `lookback`
      spans behind the head, just when the capacity is 0 or at least `lookback` + 5. */
  lemma FrontierAlwaysCachedIff(lookback: nat, capacity: nat)
    ensures (forall genesis: Oracle, actions: seq<Action>, id: nat ::
              AllHonest(genesis, actions) && Forward(genesis, actions, lookback)
              && OnFrontier(ActAll(genesis, actions), id)
              ==> id in Run(ActAll(genesis, actions).trace, capacity).spans)
       <==> Suffices(capacity, lookback)
  {
    hide ActAll, AllHonest, Forward, Run, OnFrontier;
    if Suffices(capacity, lookback) {
      forall genesis: Oracle, actions: seq<Action>, id: nat |
        AllHonest(genesis, actions) && Forward(genesis, actions, lookback)
        && OnFrontier(ActAll(genesis, actions), id)
        ensures id in Run(ActAll(genesis, actions).trace, capacity).spans
      {
        FrontierIsCached(genesis, actions, id, lookback, capacity);
      }
    } else {
      var n := if capacity >= 2 then capacity - 2 else 0;
      var actions := FrontierLost(n + 3, n, capacity, lookback);
    }
  }
}
