/** The least-recently-used span cache: a map and an access-order list changed in place. */
module SpanCaching {
  import opened Primitives

  /** The value of a cache: ids from least to most recently used, and the span of each. */
  datatype State = State(order: seq<nat>, spans: map<nat, Span>)

  const EMPTY := State([], map[])

  /** The list without the first occurrence of `id`. */
  function Without(order: seq<nat>, id: nat): (r: seq<nat>)
    ensures id !in order ==> r == order
  {
    if order == [] then []
    else if order[0] == id then order[1..]
    else [order[0]] + Without(order[1..], id)
  }

  /** `id` moved to, or put at, the most recent end. */
  function Touched(order: seq<nat>, id: nat): seq<nat> {
    Without(order, id) + [id]
  }

  function Lookup(s: State, id: nat): Option<Span> {
    if id in s.spans then Some(s.spans[id]) else None
  }

  /** A hit is promoted, a miss changes nothing. */
  function Got(s: State, id: nat): State {
    if id in s.spans then s.(order := Touched(s.order, id)) else s
  }

  /** Room for one more: capacity 0 means no bound. */
  function Evicted(s: State, capacity: nat): State {
    if |s.spans| >= capacity && capacity > 0 && s.order != []
    then State(s.order[1..], s.spans - {s.order[0]})
    else s
  }

  function Inserted(s: State, capacity: nat, span: Span): State {
    if span.id in s.spans then State(Touched(s.order, span.id), s.spans[span.id := span])
    else
      var e := Evicted(s, capacity);
      State(e.order + [span.id], e.spans[span.id := span])
  }

  /** Leaving out the first occurrence is removing its position. */
  lemma {:induction false} WithoutAt(order: seq<nat>, id: nat, p: nat)
    requires p < |order| && order[p] == id && forall k :: 0 <= k < p ==> order[k] != id
    ensures Without(order, id) == order[..p] + order[p + 1..]
  {
    if p == 0 {
    } else {
      var rest := order[1..];
      assert forall k :: 0 <= k < |rest| ==> rest[k] == order[k + 1];
      WithoutAt(rest, id, p - 1);
      assert Without(order, id) == [order[0]] + Without(rest, id);
      hide Without;
      assert order[..p] == [order[0]] + rest[..p - 1];
      assert order[p + 1..] == rest[p..];
    }
  }

  class SpanCache {
    var spans: map<nat, Span>
    const maxSize: nat
    var accessOrder: seq<nat>

    constructor (maxSize0: nat)
      ensures maxSize == maxSize0 && Value() == EMPTY
    {
      maxSize, spans, accessOrder := maxSize0, map[], [];
    }

    function Value(): State
      reads this
    {
      State(accessOrder, spans)
    }

    method Get(id: nat) returns (span: Option<Span>)
      modifies this`accessOrder
      ensures span == Lookup(old(Value()), id)
      ensures Value() == Got(old(Value()), id)
      ensures span == if id in old(spans) then Some(old(spans)[id]) else None
      ensures spans == old(spans)
      ensures if id in spans then accessOrder != [] && Last(accessOrder) == id else accessOrder == old(accessOrder)
    {
      if id in spans {
        Touch(id);
        span := Some(spans[id]);
      } else {
        span := None;
      }
    }

    method Insert(span: Span)
      modifies this
      ensures Value() == Inserted(old(Value()), maxSize, span)
      ensures
        var full := |old(spans)| >= maxSize > 0 && old(accessOrder) != [] && span.id !in old(spans);
        spans == if full then (old(spans) - {old(accessOrder)[0]})[span.id := span] else old(spans)[span.id := span]
      ensures accessOrder != [] && Last(accessOrder) == span.id
    {
      if span.id in spans {
        spans := spans[span.id := span];
        Touch(span.id);
        return;
      }
      if |spans| >= maxSize && maxSize > 0 {
        if |accessOrder| > 0 {
          var lru := accessOrder[0];
          accessOrder := accessOrder[1..];
          spans := spans - {lru};
        }
      }
      spans := spans[span.id := span];
      accessOrder := accessOrder + [span.id];
    }

    method Touch(id: nat)
      modifies this`accessOrder
      ensures accessOrder == Touched(old(accessOrder), id)
    {
      var position := PositionOf(accessOrder, id);
      if position.Some? {
        WithoutAt(accessOrder, id, position.value);
        accessOrder := accessOrder[..position.value] + accessOrder[position.value + 1..];
      }
      accessOrder := accessOrder + [id];
    }
  }

  /** The unbounded in-memory store. */
  class InMemorySpanStore {
    var spans: map<nat, Span>

    constructor ()
      ensures spans == map[]
    {
      spans := map[];
    }

    function GetSpan(id: nat): Option<Span>
      reads this
    {
      if id in spans then Some(spans[id]) else None
    }

    method PutSpan(span: Span)
      modifies this
      ensures spans == old(spans)[span.id := span]
      ensures GetSpan(span.id) == Some(span)
      ensures forall id :: id != span.id ==> GetSpan(id) == old(GetSpan(id))
    {
      spans := spans[span.id := span];
    }
  }
}
