/** What a trace of cache operations leaves: recency order, agreement with the unbounded store,
    and inclusion between caches of different capacities. */
module CacheTraces {
  import opened Primitives
  import opened SpanCaching

  datatype Op = GetOp(id: nat) | InsertOp(span: Span)

  function Step(s: State, capacity: nat, op: Op): State {
    match op
    case GetOp(id) => Got(s, id)
    case InsertOp(span) => Inserted(s, capacity, span)
  }

  /** The cache after a trace. */
  function Run(trace: seq<Op>, capacity: nat): State {
    if trace == [] then EMPTY else Step(Run(Front(trace), capacity), capacity, Last(trace))
  }

  /** The unbounded store after the same trace. */
  function Stored(trace: seq<Op>): map<nat, Span> {
    if trace == [] then map[]
    else
      match Last(trace)
      case GetOp(_) => Stored(Front(trace))
      case InsertOp(span) => Stored(Front(trace))[span.id := span]
  }

  /** The ids hit or inserted, in time order; misses leave no trace. */
  function Uses(trace: seq<Op>, capacity: nat): seq<nat> {
    if trace == [] then []
    else
      var before := Uses(Front(trace), capacity);
      match Last(trace)
      case GetOp(id) => if id in Run(Front(trace), capacity).spans then before + [id] else before
      case InsertOp(span) => before + [span.id]
  }

  // ---------------------------------------------------------------- recency

  /** The distinct ids of a list of uses, ordered by their last use. */
  function Recency(uses: seq<nat>): seq<nat> {
    if uses == [] then [] else Touched(Recency(uses[..|uses| - 1]), uses[|uses| - 1])
  }

  /** The position of the last use. */
  function LastUse(uses: seq<nat>, id: nat): (p: nat)
    requires id in uses
    ensures p < |uses| && uses[p] == id
    ensures forall k :: p < k < |uses| ==> uses[k] != id
  {
    if uses[|uses| - 1] == id then |uses| - 1 else LastUse(uses[..|uses| - 1], id)
  }

  lemma WithoutStep(order: seq<nat>, id: nat)
    requires order != []
    ensures Without(order, id) == if order[0] == id then order[1..] else [order[0]] + Without(order[1..], id)
  {
  }

  lemma {:induction false} WithoutConcat(a: seq<nat>, b: seq<nat>, id: nat)
    ensures Without(a + b, id) == if id in a then Without(a, id) + b else a + Without(b, id)
  {
    hide Without;
    if a == [] {
      assert a + b == b;
    } else {
      var x, rest := a[0], a[1..];
      assert a == [x] + rest && (a + b)[1..] == rest + b && (a + b)[0] == x;
      WithoutStep(a, id);
      WithoutStep(a + b, id);
      if x == id {
      } else {
        WithoutConcat(rest, b, id);
        ConcatThree([x], rest, b, Without(rest, id), Without(b, id));
      }
    }
  }

  lemma ConcatThree(x: seq<nat>, a: seq<nat>, b: seq<nat>, a': seq<nat>, b': seq<nat>)
    ensures x + (a' + b) == (x + a') + b
    ensures x + (a + b') == (x + a) + b'
  {
  }

  lemma WithoutKeeps(order: seq<nat>, id: nat)
    requires NoDuplicates(order)
    ensures NoDuplicates(Without(order, id))
    ensures forall x :: x in Without(order, id) <==> x in order && x != id
    ensures |Without(order, id)| == if id in order then |order| - 1 else |order|
  {
    hide Without;
    match PositionOf(order, id) {
      case None =>
      case Some(p) =>
        WithoutAt(order, id, p);
        RemovalKeeps(order, p);
    }
  }

  lemma RemovalKeeps(order: seq<nat>, p: nat)
    requires NoDuplicates(order) && p < |order|
    ensures
      var rest := order[..p] + order[p + 1..];
      NoDuplicates(rest) && forall x :: x in rest <==> x in order && x != order[p]
  {
    var rest := order[..p] + order[p + 1..];
    forall x | x in order && x != order[p] ensures x in rest {
      var k :| 0 <= k < |order| && order[k] == x;
      assert rest[if k < p then k else k - 1] == x;
    }
  }

  lemma TouchedKeeps(order: seq<nat>, id: nat)
    requires NoDuplicates(order)
    ensures NoDuplicates(Touched(order, id))
    ensures forall x :: x in Touched(order, id) <==> x in order || x == id
  {
    hide Without;
    WithoutKeeps(order, id);
  }

  lemma {:induction false} RecencyKeeps(uses: seq<nat>)
    ensures NoDuplicates(Recency(uses))
    ensures forall x :: x in Recency(uses) <==> x in uses
  {
    if uses == [] {
    } else {
      RecencyKeeps(uses[..|uses| - 1]);
      TouchedKeeps(Recency(uses[..|uses| - 1]), uses[|uses| - 1]);
    }
  }

  /** `order` lists ids of `uses`, earlier last uses first. */
  ghost predicate ByLastUse(order: seq<nat>, uses: seq<nat>) {
    && (forall i :: 0 <= i < |order| ==> order[i] in uses)
    && forall i, j :: 0 <= i < j < |order| ==> LastUse(uses, order[i]) < LastUse(uses, order[j])
  }

  lemma WithoutKeepsOrder(order: seq<nat>, uses: seq<nat>, id: nat)
    requires ByLastUse(order, uses)
    ensures ByLastUse(Without(order, id), uses)
  {
    hide Without;
    match PositionOf(order, id) {
      case None =>
      case Some(p) =>
        WithoutAt(order, id, p);
        RemovalKeepsOrder(order, uses, p);
    }
  }

  lemma RemovalKeepsOrder(order: seq<nat>, uses: seq<nat>, p: nat)
    requires ByLastUse(order, uses) && p < |order|
    ensures ByLastUse(order[..p] + order[p + 1..], uses)
  {
    hide LastUse;
    var rest := order[..p] + order[p + 1..];
    forall i | 0 <= i < |rest| ensures rest[i] in uses {
      assert rest[i] == order[if i < p then i else i + 1];
    }
    forall i, j | 0 <= i < j < |rest| ensures LastUse(uses, rest[i]) < LastUse(uses, rest[j]) {
      var i', j' := if i < p then i else i + 1, if j < p then j else j + 1;
      assert rest[i] == order[i'] && rest[j] == order[j'];
    }
  }

  /** Recency is what it says: ids appear in the order of their last use. */
  lemma {:induction false} RecencyIsByLastUse(uses: seq<nat>)
    ensures ByLastUse(Recency(uses), uses)
  {
    if uses == [] {
    } else {
      var front, id := uses[..|uses| - 1], uses[|uses| - 1];
      var before := Recency(front);
      assert Recency(uses) == Without(before, id) + [id] && uses == front + [id];
      hide Recency, Without, ByLastUse, NoDuplicates;
      RecencyIsByLastUse(front);
      RecencyKeeps(front);
      WithoutKeeps(before, id);
      WithoutKeepsOrder(before, front, id);
      LaterUse(Without(before, id), front, id);
    }
  }

  lemma LaterUse(order: seq<nat>, uses: seq<nat>, id: nat)
    requires ByLastUse(order, uses) && id !in order
    ensures ByLastUse(order + [id], uses + [id])
  {
    assert (uses + [id])[..|uses|] == uses;
    forall i | 0 <= i < |order|
      ensures order[i] in uses + [id] && LastUse(uses + [id], order[i]) == LastUse(uses, order[i])
    {
      assert order[i] in uses;
    }
  }

  // ---------------------------------------------------------------- refinement

  ghost predicate WellFormed(s: State, capacity: nat) {
    && NoDuplicates(s.order)
    && (forall id :: id in s.order <==> id in s.spans)
    && (capacity > 0 ==> |s.order| <= capacity)
  }

  lemma SizesAgree(s: State, capacity: nat)
    requires WellFormed(s, capacity)
    ensures |s.spans| == |s.order|
  {
    SizeOfSet(s.order);
    assert SetOf(s.order) == s.spans.Keys;
  }

  lemma WithoutFirst(order: seq<nat>)
    requires NoDuplicates(order) && order != []
    ensures NoDuplicates(order[1..])
    ensures forall x :: x in order[1..] <==> x in order && x != order[0]
  {
    RemovalKeeps(order, 0);
    assert order[..0] + order[1..] == order[1..];
  }

  lemma EvictionMakesRoom(s: State, capacity: nat)
    requires WellFormed(s, capacity)
    ensures WellFormed(Evicted(s, capacity), capacity)
    ensures capacity > 0 ==> |Evicted(s, capacity).order| < capacity
    ensures forall id :: id in Evicted(s, capacity).spans ==> id in s.spans
  {
    hide NoDuplicates;
    SizesAgree(s, capacity);
    if s.order != [] {
      WithoutFirst(s.order);
    }
  }

  lemma StepKeepsWellFormed(s: State, capacity: nat, op: Op)
    requires WellFormed(s, capacity)
    ensures WellFormed(Step(s, capacity, op), capacity)
  {
    hide Without, Evicted;
    match op {
      case GetOp(id) =>
        WithoutKeeps(s.order, id);
        TouchedKeeps(s.order, id);
      case InsertOp(span) =>
        WithoutKeeps(s.order, span.id);
        TouchedKeeps(s.order, span.id);
        EvictionMakesRoom(s, capacity);
    }
  }

  lemma {:induction false} RunIsWellFormed(trace: seq<Op>, capacity: nat)
    ensures WellFormed(Run(trace, capacity), capacity)
  {
    if trace == [] {
    } else {
      RunIsWellFormed(Front(trace), capacity);
      StepKeepsWellFormed(Run(Front(trace), capacity), capacity, Last(trace));
    }
  }

  /** The last `capacity` entries, or all of them for capacity 0. */
  function Newest(s: seq<nat>, capacity: nat): seq<nat> {
    if capacity == 0 || |s| <= capacity then s else s[|s| - capacity..]
  }

  /** The order holds exactly the `capacity` most recently hit or inserted distinct ids. */
  lemma {:induction false} OrderIsRecency(trace: seq<Op>, capacity: nat)
    ensures Run(trace, capacity).order == Newest(Recency(Uses(trace, capacity)), capacity)
  {
    if trace == [] {
    } else {
      OrderIsRecency(Front(trace), capacity);
      RunIsWellFormed(Front(trace), capacity);
      var s, uses := Run(Front(trace), capacity), Uses(Front(trace), capacity);
      match Last(trace) {
        case GetOp(id) =>
          if id in s.spans {
            UseIsNewest(s, uses, capacity, id);
          }
        case InsertOp(span) => InsertIsNewest(s, uses, capacity, span);
      }
    }
  }

  lemma RecencyOfUse(uses: seq<nat>, id: nat)
    ensures Recency(uses + [id]) == Touched(Recency(uses), id)
  {
    assert (uses + [id])[..|uses|] == uses;
  }

  lemma UseIsNewest(s: State, uses: seq<nat>, capacity: nat, id: nat)
    requires WellFormed(s, capacity) && s.order == Newest(Recency(uses), capacity) && id in s.spans
    ensures Touched(s.order, id) == Newest(Recency(uses + [id]), capacity)
  {
    hide Recency, Newest, Touched, NoDuplicates;
    RecencyKeeps(uses);
    RecencyOfUse(uses, id);
    TouchIsNewest(Recency(uses), capacity, id);
  }

  lemma InsertIsNewest(s: State, uses: seq<nat>, capacity: nat, span: Span)
    requires WellFormed(s, capacity) && s.order == Newest(Recency(uses), capacity)
    ensures Inserted(s, capacity, span).order == Newest(Recency(uses + [span.id]), capacity)
  {
    hide Recency, Newest, Touched, NoDuplicates;
    if span.id in s.spans {
      UseIsNewest(s, uses, capacity, span.id);
    } else {
      SizesAgree(s, capacity);
      RecencyKeeps(uses);
      RecencyOfUse(uses, span.id);
      AppendIsNewest(Recency(uses), capacity, span.id);
    }
  }

  /** A list splits into what is too old and the newest entries. */
  lemma SplitNewest(recency: seq<nat>, capacity: nat) returns (older: seq<nat>)
    ensures recency == older + Newest(recency, capacity)
    ensures older != [] ==> |Newest(recency, capacity)| == capacity > 0
    ensures capacity > 0 ==> |Newest(recency, capacity)| <= capacity
  {
    older := recency[..|recency| - |Newest(recency, capacity)|];
  }

  lemma JoinNewest(older: seq<nat>, s: seq<nat>, capacity: nat)
    requires older != [] ==> |s| == capacity > 0
    requires capacity > 0 ==> |s| <= capacity
    ensures Newest(older + s, capacity) == s
  {
    assert older == [] ==> older + s == s;
    assert (older + s)[|older|..] == s;
  }

  lemma TouchIsNewest(recency: seq<nat>, capacity: nat, id: nat)
    requires NoDuplicates(recency) && id in Newest(recency, capacity)
    ensures Newest(Touched(recency, id), capacity) == Touched(Newest(recency, capacity), id)
  {
    var newest := Newest(recency, capacity);
    var older := SplitNewest(recency, capacity);
    hide Without, Newest;
    assert id !in older by {
      DisjointParts(older, newest, id);
    }
    WithoutConcat(older, newest, id);
    LengthOfWithout(newest, id);
    assert Touched(recency, id) == older + Touched(newest, id);
    JoinNewest(older, Touched(newest, id), capacity);
  }

  lemma DisjointParts(a: seq<nat>, b: seq<nat>, x: nat)
    requires NoDuplicates(a + b) && x in b
    ensures x !in a
  {
    var j :| 0 <= j < |b| && b[j] == x;
    assert (a + b)[|a| + j] == x;
    assert forall i :: 0 <= i < |a| ==> (a + b)[i] == a[i];
  }

  lemma LengthOfWithout(order: seq<nat>, id: nat)
    requires id in order
    ensures |Without(order, id)| == |order| - 1
  {
    WithoutAt(order, id, PositionOf(order, id).value);
  }

  lemma AppendIsNewest(recency: seq<nat>, capacity: nat, id: nat)
    requires id !in Newest(recency, capacity)
    ensures
      var newest := Newest(recency, capacity);
      var kept := if capacity > 0 && |newest| >= capacity then newest[1..] else newest;
      Newest(Touched(recency, id), capacity) == kept + [id]
  {
    var newest := Newest(recency, capacity);
    var older := SplitNewest(recency, capacity);
    hide Without, Newest;
    WithoutConcat(older, newest, id);
    var rest := Without(older, id);
    assert Touched(recency, id) == rest + (newest + [id]);
    if capacity > 0 && |newest| >= capacity {
      assert rest + (newest + [id]) == (rest + [newest[0]]) + (newest[1..] + [id]);
      JoinNewest(rest + [newest[0]], newest[1..] + [id], capacity);
    } else {
      assert older == [] && rest == [];
      JoinNewest(rest, newest + [id], capacity);
    }
  }

  /** Whatever the cache holds is what the unbounded store holds. */
  lemma {:induction false} CacheAgreesWithStore(trace: seq<Op>, capacity: nat, id: nat)
    requires id in Run(trace, capacity).spans
    ensures id in Stored(trace) && Run(trace, capacity).spans[id] == Stored(trace)[id]
  {
    if trace == [] {
    } else {
      var s := Run(Front(trace), capacity);
      match Last(trace) {
        case GetOp(_) => CacheAgreesWithStore(Front(trace), capacity, id);
        case InsertOp(span) =>
          if id != span.id {
            CacheAgreesWithStore(Front(trace), capacity, id);
          }
      }
    }
  }

  /** A hit returns the stored span, and an id hits exactly when it is among the newest. */
  lemma HitIff(trace: seq<Op>, capacity: nat, id: nat)
    ensures
      var r := Lookup(Run(trace, capacity), id);
      && (r.Some? <==> id in Newest(Recency(Uses(trace, capacity)), capacity))
      && (r.Some? ==> id in Stored(trace) && r.value == Stored(trace)[id])
  {
    OrderIsRecency(trace, capacity);
    RunIsWellFormed(trace, capacity);
    if id in Run(trace, capacity).spans {
      CacheAgreesWithStore(trace, capacity, id);
    }
  }

  /** The distinct ids used since the last use of `id`. */
  function UsedSince(uses: seq<nat>, id: nat): set<nat>
    requires id in uses
  {
    SetOf(uses[LastUse(uses, id) + 1..])
  }

  lemma SinceIsTail(recency: seq<nat>, uses: seq<nat>, j: nat)
    requires ByLastUse(recency, uses) && j < |recency|
    requires forall x :: x in recency <==> x in uses
    ensures UsedSince(uses, recency[j]) == SetOf(recency[j + 1..])
  {
    hide ByLastUse, LastUse;
    var later, tail := uses[LastUse(uses, recency[j]) + 1..], recency[j + 1..];
    forall x ensures x in later <==> x in tail {
      if x in tail {
        TailIsSince(recency, uses, j, x);
      }
      if x in later {
        SinceIsInTail(recency, uses, j, x);
      }
    }
  }

  lemma TailIsSince(recency: seq<nat>, uses: seq<nat>, j: nat, x: nat)
    requires ByLastUse(recency, uses) && j < |recency| && x in recency[j + 1..]
    ensures recency[j] in uses && x in uses[LastUse(uses, recency[j]) + 1..]
  {
    hide LastUse;
    var i :| 0 <= i < |recency[j + 1..]| && recency[j + 1..][i] == x;
    assert recency[j + 1 + i] == x && recency[j] in uses;
    var p, q := LastUse(uses, recency[j]), LastUse(uses, x);
    assert p < q && uses[p + 1..][q - (p + 1)] == x;
  }

  lemma SinceIsInTail(recency: seq<nat>, uses: seq<nat>, j: nat, x: nat)
    requires ByLastUse(recency, uses) && j < |recency| && x in recency
    requires recency[j] in uses && x in uses[LastUse(uses, recency[j]) + 1..]
    ensures x in recency[j + 1..]
  {
    hide LastUse;
    var p := LastUse(uses, recency[j]);
    var r :| 0 <= r < |uses[p + 1..]| && uses[p + 1..][r] == x;
    assert uses[p + 1 + r] == x && x in uses;
    var i :| 0 <= i < |recency| && recency[i] == x;
    assert LastUse(uses, x) >= p + 1 + r;
    assert i > j;
    assert recency[j + 1..][i - (j + 1)] == x;
  }

  /** An id is among the newest exactly when fewer than `capacity` distinct ids were used since. */
  lemma NewestIff(uses: seq<nat>, id: nat, capacity: nat)
    requires id in uses && capacity > 0
    ensures id in Newest(Recency(uses), capacity) <==> |UsedSince(uses, id)| < capacity
  {
    var recency := Recency(uses);
    RecencyKeeps(uses);
    RecencyIsByLastUse(uses);
    hide Recency, ByLastUse, UsedSince;
    var j: nat :| j < |recency| && recency[j] == id;
    SinceIsTail(recency, uses, j);
    SizeOfSet(recency[j + 1..]);
    AmongNewestIff(recency, j, capacity);
  }

  lemma AmongNewestIff(recency: seq<nat>, j: nat, capacity: nat)
    requires NoDuplicates(recency) && j < |recency| && capacity > 0
    ensures recency[j] in Newest(recency, capacity) <==> |recency| - j <= capacity
  {
    var newest := Newest(recency, capacity);
    var start := |recency| - |newest|;
    assert forall i :: 0 <= i < |newest| ==> newest[i] == recency[start + i];
    if j >= start {
      assert newest[j - start] == recency[j];
    }
  }

  /** When a bounded cache hits, said by counting: the id was used before, and fewer than
      `capacity` distinct ids have been used since. */
  lemma HitIffFewSince(trace: seq<Op>, capacity: nat, id: nat)
    requires capacity > 0
    ensures
      var uses := Uses(trace, capacity);
      id in Run(trace, capacity).spans <==> id in uses && |UsedSince(uses, id)| < capacity
  {
    var uses := Uses(trace, capacity);
    HitIff(trace, capacity, id);
    RecencyKeeps(uses);
    hide Run, Uses, Recency, UsedSince;
    var newest := Newest(Recency(uses), capacity);
    assert id in newest ==> id in Recency(uses);
    if id in uses {
      NewestIff(uses, id, capacity);
    }
  }

  // ---------------------------------------------------------------- inclusion

  /** `a` is obtained from `b` by leaving entries out. */
  predicate Subsequence(a: seq<nat>, b: seq<nat>) {
    a == [] ||
    (b != [] && if a[0] == b[0] then Subsequence(a[1..], b[1..]) else Subsequence(a, b[1..]))
  }

  lemma {:induction false} SubsequenceMembers(a: seq<nat>, b: seq<nat>)
    requires Subsequence(a, b)
    ensures forall x :: x in a ==> x in b
  {
    if a == [] {
    } else {
      assert a == [a[0]] + a[1..];
      SubsequenceMembers(if a[0] == b[0] then a[1..] else a, b[1..]);
    }
  }

  lemma {:induction false} SubsequenceSelf(a: seq<nat>)
    ensures Subsequence(a, a)
  {
    if a == [] {
    } else {
      SubsequenceSelf(a[1..]);
    }
  }

  lemma {:induction false} DropFromShorter(a: seq<nat>, b: seq<nat>)
    requires a != [] && Subsequence(a, b)
    ensures Subsequence(a[1..], b)
    decreases |a| + |b|, 0
  {
    if a[0] != b[0] {
      DropFromShorter(a, b[1..]);
    }
    WeakenFront(a[1..], b[1..], b[0]);
    assert [b[0]] + b[1..] == b;
  }

  lemma {:induction false} WeakenFront(a: seq<nat>, b: seq<nat>, x: nat)
    requires Subsequence(a, b)
    ensures Subsequence(a, [x] + b)
    decreases |a| + |b|, 1
  {
    assert ([x] + b)[1..] == b;
    if a != [] && a[0] == x {
      DropFromShorter(a, b);
    }
  }

  lemma {:induction false} AppendBoth(a: seq<nat>, b: seq<nat>, x: nat)
    requires Subsequence(a, b)
    ensures Subsequence(a + [x], b + [x])
  {
    if b == [] {
      assert a + [x] == [x] && b + [x] == [x];
      SubsequenceSelf([x]);
    } else {
      assert (b + [x])[1..] == b[1..] + [x];
      if a == [] {
        assert a + [x] == [x];
        AppendBoth(a, b[1..], x);
        WeakenFront([x], b[1..] + [x], b[0]);
        assert a + [x] == [x] && [b[0]] + (b[1..] + [x]) == b + [x];
      } else if a[0] == b[0] {
        assert (a + [x])[1..] == a[1..] + [x];
        AppendBoth(a[1..], b[1..], x);
      } else {
        AppendBoth(a, b[1..], x);
      }
    }
  }

  lemma {:induction false} AppendLonger(a: seq<nat>, b: seq<nat>, x: nat)
    requires Subsequence(a, b)
    ensures Subsequence(a, b + [x])
  {
    if a == [] {
    } else {
      assert (b + [x])[1..] == b[1..] + [x];
      AppendLonger(if a[0] == b[0] then a[1..] else a, b[1..], x);
    }
  }

  lemma {:induction false} WithoutBoth(a: seq<nat>, b: seq<nat>, x: nat)
    requires Subsequence(a, b) && NoDuplicates(b)
    ensures Subsequence(Without(a, x), Without(b, x))
  {
    if a == [] {
    } else {
      var rest := b[1..];
      if a[0] == b[0] {
        if a[0] != x {
          WithoutBoth(a[1..], rest, x);
        }
      } else if b[0] == x {
        SubsequenceMembers(a, rest);
      } else {
        WithoutBoth(a, rest, x);
        WeakenFront(Without(a, x), Without(rest, x), b[0]);
      }
    }
  }

  lemma DropBoth(a: seq<nat>, b: seq<nat>)
    requires a != [] && b != [] && Subsequence(a, b)
    ensures Subsequence(a[1..], b[1..])
  {
    if a[0] != b[0] {
      DropFromShorter(a, b[1..]);
    }
  }

  /** The smaller cache is left over from the larger one, and they are equal until it is full. */
  ghost predicate Included(small: State, c1: nat, large: State, c2: nat) {
    && WellFormed(small, c1) && WellFormed(large, c2)
    && Subsequence(small.order, large.order)
    && (|small.order| < c1 ==> small.order == large.order)
  }

  lemma TouchKeepsInclusion(a: seq<nat>, b: seq<nat>, id: nat)
    requires Subsequence(a, b) && NoDuplicates(b)
    ensures Subsequence(Touched(a, id), Touched(b, id))
    ensures id !in a ==> Subsequence(a, Touched(b, id))
  {
    WithoutBoth(a, b, id);
    AppendBoth(Without(a, id), Without(b, id), id);
    AppendLonger(Without(a, id), Without(b, id), id);
  }

  lemma GetKeepsInclusion(small: State, c1: nat, large: State, c2: nat, id: nat)
    requires Included(small, c1, large, c2)
    ensures Included(Got(small, id), c1, Got(large, id), c2)
  {
    hide Subsequence, Without, NoDuplicates;
    StepKeepsWellFormed(small, c1, GetOp(id));
    StepKeepsWellFormed(large, c2, GetOp(id));
    SubsequenceMembers(small.order, large.order);
    TouchKeepsInclusion(small.order, large.order, id);
    WithoutKeeps(small.order, id);
  }

  lemma InsertKeepsInclusion(small: State, c1: nat, large: State, c2: nat, span: Span)
    requires c1 > 0 && (c2 == 0 || c2 >= c1)
    requires Included(small, c1, large, c2)
    ensures Included(Inserted(small, c1, span), c1, Inserted(large, c2, span), c2)
  {
    hide Subsequence, Without, NoDuplicates;
    var a, b, id := small.order, large.order, span.id;
    StepKeepsWellFormed(small, c1, InsertOp(span));
    StepKeepsWellFormed(large, c2, InsertOp(span));
    SubsequenceMembers(a, b);
    TouchKeepsInclusion(a, b, id);
    WithoutKeeps(a, id);
    SizesAgree(small, c1);
    SizesAgree(large, c2);
    if id !in a {
      var a' := if |a| >= c1 then a[1..] else a;
      var b' := if id in b then Without(b, id) else if |b| >= c2 > 0 then b[1..] else b;
      RoomKeepsInclusion(a, c1, b, c2, id);
      AppendBoth(a', b', id);
    }
  }

  /** Making room on both sides for an id the smaller cache lacks. */
  lemma RoomKeepsInclusion(a: seq<nat>, c1: nat, b: seq<nat>, c2: nat, id: nat)
    requires c1 > 0 && (c2 == 0 || c2 >= c1)
    requires Subsequence(a, b) && NoDuplicates(b) && id !in a
    requires |a| < c1 ==> a == b
    ensures
      var a' := if |a| >= c1 then a[1..] else a;
      var b' := if id in b then Without(b, id) else if |b| >= c2 > 0 then b[1..] else b;
      Subsequence(a', b')
  {
    WithoutBoth(a, b, id);
    if |a| >= c1 {
      if id in b {
        DropFromShorter(a, Without(b, id));
      } else if |b| >= c2 > 0 {
        DropBoth(a, b);
      } else {
        DropFromShorter(a, b);
      }
    }
  }

  lemma {:induction false} RunsAreIncluded(trace: seq<Op>, c1: nat, c2: nat)
    requires c1 > 0 && (c2 == 0 || c2 >= c1)
    ensures Included(Run(trace, c1), c1, Run(trace, c2), c2)
  {
    if trace == [] {
    } else {
      hide Included;
      RunsAreIncluded(Front(trace), c1, c2);
      var small, large := Run(Front(trace), c1), Run(Front(trace), c2);
      match Last(trace) {
        case GetOp(id) => GetKeepsInclusion(small, c1, large, c2, id);
        case InsertOp(span) => InsertKeepsInclusion(small, c1, large, c2, span);
      }
    }
  }

  /** Inclusion: on a shared trace the access order of the smaller cache is a subsequence of that
      of the larger (or unbounded) one, which therefore hits, with the same span, wherever the
      smaller one does. */
  lemma LargerCacheHitsWhereSmallerDoes(trace: seq<Op>, c1: nat, c2: nat, id: nat)
    requires c1 > 0 && (c2 == 0 || c2 >= c1)
    ensures Subsequence(Run(trace, c1).order, Run(trace, c2).order)
    ensures
      var r := Lookup(Run(trace, c1), id);
      r.Some? ==> Lookup(Run(trace, c2), id) == r
  {
    RunsAreIncluded(trace, c1, c2);
    SubsequenceMembers(Run(trace, c1).order, Run(trace, c2).order);
    if id in Run(trace, c1).spans {
      CacheAgreesWithStore(trace, c1, id);
      CacheAgreesWithStore(trace, c2, id);
    }
  }
}
