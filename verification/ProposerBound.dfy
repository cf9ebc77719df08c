/** How far priorities can drift: the harmonic bound, proportionality of every prefix of a run,
    and when 64-bit priorities are wide enough. */
module ProposerBound {
  import opened Primitives
  import opened Proposer
  import opened ProposerFairness

  // ---------------------------------------------------------------- sums over some validators

  /** The sum of the entries below `n` whose index is in `S`. */
  function SubSum(a: seq<int>, S: set<int>, n: nat): int
    requires n <= |a|
  {
    if n == 0 then 0 else SubSum(a, S, n - 1) + if n - 1 in S then a[n - 1] else 0
  }

  lemma {:induction false} SubSumOfSums(a: seq<int>, b: seq<int>, c: seq<int>, S: set<int>, n: nat)
    requires n <= |a| == |b| == |c|
    requires forall i :: 0 <= i < n ==> c[i] == a[i] + b[i]
    ensures SubSum(c, S, n) == SubSum(a, S, n) + SubSum(b, S, n)
  {
    if n == 0 {
    } else {
      SubSumOfSums(a, b, c, S, n - 1);
    }
  }

  lemma {:induction false} SubSumOfUpdate(a: seq<int>, j: nat, v: int, S: set<int>, n: nat)
    requires n <= |a| && j < |a|
    ensures SubSum(a[j := v], S, n) == SubSum(a, S, n) + if j < n && j in S then v - a[j] else 0
  {
    if n == 0 {
    } else {
      SubSumOfUpdate(a, j, v, S, n - 1);
    }
  }

  lemma {:induction false} SubSumOfInsert(a: seq<int>, S: set<int>, j: nat, n: nat)
    requires n <= |a| && j < |a| && j !in S
    ensures SubSum(a, S + {j}, n) == SubSum(a, S, n) + if j < n then a[j] else 0
  {
    if n == 0 {
    } else {
      SubSumOfInsert(a, S, j, n - 1);
    }
  }

  lemma {:induction false} SubSumAtMost(a: seq<int>, S: set<int>, top: int, n: nat)
    requires n <= |a| && S <= Range(0, n)
    requires forall i :: 0 <= i < n ==> a[i] <= top
    ensures SubSum(a, S, n) <= |S| * top
  {
    hide Range;
    if n == 0 {
      assert S == {};
    } else if n - 1 in S {
      var S' := S - {n - 1};
      SubSumOfInsert(a, S', n - 1, n - 1);
      assert S' + {n - 1} == S;
      SubSumAtMost(a, S', top, n - 1);
      OneMore(|S|, top, 0, 0);
    } else {
      SubSumAtMost(a, S, top, n - 1);
    }
  }

  lemma {:induction false} SubSumAtMostSum(a: seq<int>, S: set<int>, n: nat)
    requires n <= |a| && forall i :: 0 <= i < n ==> a[i] >= 0
    ensures SubSum(a, S, n) <= SumTo(a, n)
  {
    if n == 0 {
    } else {
      SubSumAtMostSum(a, S, n - 1);
    }
  }

  lemma {:induction false} SubSumOfZeros(a: seq<int>, S: set<int>, n: nat)
    requires n <= |a| && forall i :: 0 <= i < n ==> a[i] == 0
    ensures SubSum(a, S, n) == 0
  {
    if n == 0 {
    } else {
      SubSumOfZeros(a, S, n - 1);
    }
  }

  lemma {:induction false} SubSumOfOne(a: seq<int>, i: nat, n: nat)
    requires n <= |a| && i < |a|
    ensures SubSum(a, {i}, n) == if i < n then a[i] else 0
  {
    if n == 0 {
    } else {
      SubSumOfOne(a, i, n - 1);
    }
  }

  // ---------------------------------------------------------------- harmonic tails

  /** 1/(k+1) + ... + 1/n. */
  function HarmonicTail(k: nat, n: nat): real
    decreases n - k
  {
    if k >= n then 0.0 else 1.0 / (k + 1) as real + HarmonicTail(k + 1, n)
  }

  /** The n-th harmonic number. */
  function Harmonic(n: nat): real {
    HarmonicTail(0, n)
  }

  lemma {:induction false} TailIsNonNegative(k: nat, n: nat)
    ensures HarmonicTail(k, n) >= 0.0
    decreases n - k
  {
    if k >= n {
    } else {
      TailIsNonNegative(k + 1, n);
    }
  }

  /** The most that `k` of `n` validators with total power `t` can hold together. */
  function Cap(t: int, n: nat, k: nat): real {
    k as real * (t as real * HarmonicTail(k, n))
  }

  lemma CapRecurrence(t: int, n: nat, k: nat)
    requires k < n
    ensures (k + 1) as real * Cap(t, n, k) == k as real * (Cap(t, n, k + 1) + t as real)
  {
    var x, tr, rest := (k + 1) as real, t as real, HarmonicTail(k + 1, n);
    assert x * (tr * (1.0 / x + rest)) == tr + x * (tr * rest) by {
      assert x * (1.0 / x) == 1.0;
    }
    calc {
      x * Cap(t, n, k);
      x * (k as real * (tr * (1.0 / x + rest)));
      k as real * (x * (tr * (1.0 / x + rest)));
      k as real * (tr + x * (tr * rest));
    }
  }

  lemma CapIsNonNegative(t: int, n: nat, k: nat)
    requires t >= 0
    ensures Cap(t, n, k) >= 0.0
  {
    TailIsNonNegative(k, n);
    assert t as real * HarmonicTail(k, n) >= 0.0;
  }

  // ---------------------------------------------------------------- the bound

  /** No group of `k` validators holds more than `Cap`. */
  ghost predicate WithinCaps(powers: seq<int>, priorities: seq<int>) {
    && |priorities| == |powers|
    && forall S: set<int> :: S <= Range(0, |powers|) ==>
      SubSum(priorities, S, |powers|) as real <= Cap(Sum(powers), |powers|, |S|)
  }

  /** A group without the largest entry holds at most its share of the group with it. */
  lemma GroupWithoutTop(raised: seq<int>, j: nat, S: set<int>, t: int)
    requires j < |raised| && forall i :: 0 <= i < |raised| ==> raised[i] <= raised[j]
    requires S <= Range(0, |raised|) && j !in S
    requires SubSum(raised, S + {j}, |raised|) as real <= Cap(t, |raised|, |S + {j}|) + t as real
    ensures SubSum(raised, S, |raised|) as real <= Cap(t, |raised|, |S|)
  {
    hide Cap, Range, SubSum;
    var n, k := |raised|, |S|;
    assert |S + {j}| == k + 1;
    SubSumOfInsert(raised, S, j, n);
    SubSumAtMost(raised, S, raised[j], n);
    SmallerThanAll(S, n, j);
    CapRecurrence(t, n, k);
    ShareOfGroup(SubSum(raised, S, n), raised[j], k, Cap(t, n, k), Cap(t, n, k + 1) + t as real);
  }

  /** Raising adds at most the total power to what a group holds. */
  lemma RaisedGroup(powers: seq<int>, priorities: seq<int>, S: set<int>)
    requires Weights(powers) && WithinCaps(powers, priorities) && S <= Range(0, |powers|)
    ensures SubSum(Raised(powers, priorities), S, |powers|) as real
         <= Cap(Sum(powers), |powers|, |S|) + Sum(powers) as real
  {
    hide Cap;
    SubSumOfSums(priorities, powers, Raised(powers, priorities), S, |powers|);
    SubSumAtMostSum(powers, S, |powers|);
  }

  lemma SmallerThanAll(S: set<int>, n: nat, j: nat)
    requires S <= Range(0, n) && j < n && j !in S
    ensures |S| < n
  {
    assert S + {j} <= Range(0, n);
    SizeInRange(S + {j}, 0, n);
  }

  lemma ShareOfGroup(x: int, top: int, k: nat, cap: real, capNext: real)
    requires x <= k * top
    requires (x + top) as real <= capNext
    requires (k + 1) as real * cap == k as real * capNext
    ensures x as real <= cap
  {
    assert (k + 1) * x <= k * (x + top) by {
      assert (k + 1) * x == k * x + x;
      assert k * (x + top) == k * x + k * top;
    }
    assert ((k + 1) * x) as real == (k + 1) as real * x as real;
    assert (k * (x + top)) as real == k as real * (x + top) as real;
    assert k as real * (x + top) as real <= k as real * capNext;
    assert (k + 1) as real * x as real <= (k + 1) as real * cap;
  }

  /** The largest entry pays the total: any group is then within its cap. */
  lemma GroupAfterPayment(raised: seq<int>, j: nat, S: set<int>, t: int)
    requires j < |raised| && forall i :: 0 <= i < |raised| ==> raised[i] <= raised[j]
    requires S <= Range(0, |raised|)
    requires SubSum(raised, S + {j}, |raised|) as real <= Cap(t, |raised|, |S + {j}|) + t as real
    ensures SubSum(raised[j := raised[j] - t], S, |raised|) as real <= Cap(t, |raised|, |S|)
  {
    hide Cap, SubSum, Range;
    var n, before := |raised|, SubSum(raised, S, |raised|);
    SubSumOfUpdate(raised, j, raised[j] - t, S, n);
    if j in S {
      assert S + {j} == S;
      assert (before - t) as real == before as real - t as real;
    } else {
      GroupWithoutTop(raised, j, S, t);
    }
  }

  lemma WinnerPays(powers: seq<int>, priorities: seq<int>) returns (j: nat)
    requires |powers| == |priorities| > 0
    ensures
      var raised := Raised(powers, priorities);
      && j < |raised| && (forall i :: 0 <= i < |raised| ==> raised[i] <= raised[j])
      && Next(powers, priorities) == raised[j := raised[j] - Sum(powers)]
  {
    j := LastMax(Raised(powers, priorities));
  }

  lemma OneMoreInRange(S: set<int>, n: nat, j: nat)
    requires S <= Range(0, n) && j < n
    ensures S + {j} <= Range(0, n)
  {
  }

  lemma GroupAfterRound(powers: seq<int>, priorities: seq<int>, S: set<int>)
    requires Weights(powers) && |priorities| == |powers| && WithinCaps(powers, priorities)
    requires S <= Range(0, |powers|)
    ensures SubSum(Next(powers, priorities), S, |powers|) as real <= Cap(Sum(powers), |powers|, |S|)
  {
    hide Cap, SubSum, Sum, Next, Raised, Range, WithinCaps;
    var j := WinnerPays(powers, priorities);
    OneMoreInRange(S, |powers|, j);
    RaisedGroup(powers, priorities, S + {j});
    GroupAfterPayment(Raised(powers, priorities), j, S, Sum(powers));
  }

  lemma RoundKeepsCaps(powers: seq<int>, priorities: seq<int>)
    requires Weights(powers) && WithinCaps(powers, priorities)
    ensures WithinCaps(powers, Next(powers, priorities))
  {
    hide Cap, SubSum, Sum, Next, Range;
    var n, next := |powers|, Next(powers, priorities);
    forall S: set<int> | S <= Range(0, n) ensures SubSum(next, S, n) as real <= Cap(Sum(powers), n, |S|) {
      GroupAfterRound(powers, priorities, S);
    }
  }

  lemma {:induction false} CapsAreKept(powers: seq<int>, start: seq<int>, m: nat)
    requires Weights(powers) && |start| == |powers| && WithinCaps(powers, start)
    ensures WithinCaps(powers, After(powers, start, m))
  {
    hide Next, WithinCaps, Sum;
    if m == 0 {
    } else {
      CapsAreKept(powers, start, m - 1);
      RoundKeepsCaps(powers, After(powers, start, m - 1));
    }
  }

  /** Priorities of zero or less are within every cap. */
  lemma NonPositiveWithinCaps(powers: seq<int>, start: seq<int>)
    requires Weights(powers) && |start| == |powers|
    requires forall i :: 0 <= i < |start| ==> start[i] <= 0
    ensures WithinCaps(powers, start)
  {
    hide Cap, Sum, SubSum, Range;
    var n, t := |powers|, Sum(powers);
    forall S: set<int> | S <= Range(0, n) ensures SubSum(start, S, n) as real <= Cap(t, n, |S|) {
      SubSumAtMost(start, S, 0, n);
      CapIsNonNegative(t, n, |S|);
    }
  }

  /** The harmonic bound: in every run from zero priorities, any `k` of the `n` validators
      together hold at most k * T * (1/(k+1) + ... + 1/n). */
  lemma RunKeepsCaps(powers: seq<int>, m: nat)
    requires Weights(powers)
    ensures WithinCaps(powers, After(powers, Zeros(|powers|), m))
  {
    hide WithinCaps, After;
    NonPositiveWithinCaps(powers, Zeros(|powers|));
    CapsAreKept(powers, Zeros(|powers|), m);
  }

  // ---------------------------------------------------------------- any start

  /** Every priority lowered by `c`. */
  function Lowered(priorities: seq<int>, c: int): (r: seq<int>)
    ensures |r| == |priorities| && forall i :: 0 <= i < |r| ==> r[i] == priorities[i] - c
  {
    seq(|priorities|, i requires 0 <= i < |priorities| => priorities[i] - c)
  }

  /** The rotation does not see a common offset. */
  lemma LoweredRound(powers: seq<int>, priorities: seq<int>, c: int)
    requires |powers| == |priorities| > 0
    ensures Next(powers, Lowered(priorities, c)) == Lowered(Next(powers, priorities), c)
  {
    hide Sum;
    var raised, low := Raised(powers, priorities), Raised(powers, Lowered(priorities, c));
    assert low == Lowered(raised, c);
    SameWinner(raised, c);
  }

  lemma SameWinner(raised: seq<int>, c: int)
    requires |raised| > 0
    ensures LastMax(Lowered(raised, c)) == LastMax(raised)
  {
    var low := Lowered(raised, c);
    var i, j := LastMax(low), LastMax(raised);
    hide LastMax, Lowered;
    assert low[i] == raised[i] - c && low[j] == raised[j] - c;
  }

  lemma {:induction false} LoweredRun(powers: seq<int>, start: seq<int>, c: int, m: nat)
    requires |powers| == |start| > 0
    ensures After(powers, Lowered(start, c), m) == Lowered(After(powers, start, m), c)
  {
    hide Next, Lowered;
    if m == 0 {
    } else {
      LoweredRun(powers, start, c, m - 1);
      LoweredRound(powers, After(powers, start, m - 1), c);
    }
  }

  /** The harmonic bound from any start, counted from the highest starting priority. */
  lemma RunKeepsCapsFrom(powers: seq<int>, start: seq<int>, top: int, m: nat)
    requires Weights(powers) && |start| == |powers|
    requires forall i :: 0 <= i < |start| ==> start[i] <= top
    ensures WithinCaps(powers, Lowered(After(powers, start, m), top))
  {
    hide WithinCaps, After, Lowered;
    NonPositiveWithinCaps(powers, Lowered(start, top));
    CapsAreKept(powers, Lowered(start, top), m);
    LoweredRun(powers, start, top, m);
  }

  /** Between rounds a priority stays in [floor, top + T * (H_n - 1)], where `top` bounds the
      starting priorities; inside a round a raised priority stays at or below top + T * H_n. */
  lemma PriorityRangeFrom(powers: seq<int>, start: seq<int>, top: int, m: nat, i: nat)
    requires Weights(powers) && |start| == |powers| && i < |powers|
    requires forall k :: 0 <= k < |start| ==> start[k] <= top
    ensures
      var t, h := Sum(powers) as real, Harmonic(|powers|);
      var priorities := After(powers, start, m);
      && Floor(powers, start) <= priorities[i]
      && priorities[i] as real <= top as real + t * (h - 1.0)
      && Raised(powers, priorities)[i] as real <= top as real + t * h
  {
    hide After, Harmonic, Sum, Cap, WithinCaps, Floor;
    FloorHolds(powers, start);
    RunKeepsFloor(powers, start, Floor(powers, start), m);
    RunKeepsCapsFrom(powers, start, top, m);
    CapOfOne(powers, Lowered(After(powers, start, m), top), i);
    CapAtOne(Sum(powers), |powers|);
  }

  /** Proportionality from any start: the turns taken differ from the exact share m * p / T by what
      the start and the range of priorities allow. */
  lemma PrefixIsProportionalFrom(powers: seq<int>, start: seq<int>, top: int, m: nat, i: nat)
    requires Weights(powers) && |start| == |powers| && i < |powers|
    requires forall k :: 0 <= k < |start| ==> start[k] <= top
    ensures
      var t, turns := Sum(powers), Picks(powers, start, m, i);
      && t * turns - m * powers[i] <= start[i] - Floor(powers, start)
      && (m * powers[i] - t * turns) as real
         <= (top - start[i]) as real + t as real * (Harmonic(|powers|) - 1.0)
  {
    hide After, Raised, Picks, Harmonic, Floor, Sum;
    PriorityRangeFrom(powers, start, top, m, i);
    Ledger(powers, start, m, i);
  }

  /** From zero priorities the floor is one turn below the average share, at least 1 - T. */
  lemma FloorFromZero(powers: seq<int>)
    requires Weights(powers)
    ensures 1 - Sum(powers) <= Floor(powers, Zeros(|powers|))
  {
    hide Least, Sum;
    var n, t := |powers|, Sum(powers);
    assert Sum(Zeros(n)) == 0 by {
      ZerosAreBalanced(powers);
    }
    assert (t + n - 1) / n >= 1;
  }

  /** Between rounds a priority stays in [1 - T, T * (H_n - 1)]; inside a round a raised
      priority stays at or below T * H_n. */
  lemma PriorityRange(powers: seq<int>, m: nat, i: nat)
    requires Weights(powers) && i < |powers|
    ensures
      var t, h := Sum(powers), Harmonic(|powers|);
      var priorities := After(powers, Zeros(|powers|), m);
      && 1 - t <= priorities[i]
      && priorities[i] as real <= t as real * (h - 1.0)
      && Raised(powers, priorities)[i] as real <= t as real * h
  {
    hide After, Harmonic, Raised, Sum, Floor;
    PriorityRangeFrom(powers, Zeros(|powers|), 0, m, i);
    FloorFromZero(powers);
  }

  lemma CapOfOne(powers: seq<int>, priorities: seq<int>, i: nat)
    requires Weights(powers) && WithinCaps(powers, priorities) && i < |powers|
    ensures priorities[i] as real <= Cap(Sum(powers), |powers|, 1)
    ensures powers[i] <= Sum(powers)
  {
    hide Sum, Cap, SubSum, Range;
    var n, t := |powers|, Sum(powers);
    SubSumOfOne(priorities, i, n);
    assert {i} <= Range(0, n) && |{i}| == 1;
    assert SubSum(priorities, {i}, n) as real <= Cap(t, n, 1);
    OnePowerAtMostTotal(powers, i);
  }

  lemma CapAtOne(t: int, n: nat)
    requires n > 0
    ensures Cap(t, n, 1) == t as real * (Harmonic(n) - 1.0)
    ensures Cap(t, n, 1) + t as real == t as real * Harmonic(n)
  {
    assert Harmonic(n) == 1.0 + HarmonicTail(1, n);
  }

  lemma OnePowerAtMostTotal(powers: seq<int>, i: nat)
    requires Weights(powers) && i < |powers|
    ensures powers[i] <= Sum(powers)
  {
    SubSumOfOne(powers, i, |powers|);
    SubSumAtMostSum(powers, {i}, |powers|);
  }

  /** Proportionality of every prefix: after `m` rounds validator `i` has had less than one turn
      more than its exact share m * p / T, and is behind it by at most H_n - 1 turns. */
  lemma PrefixIsProportional(powers: seq<int>, m: nat, i: nat)
    requires Weights(powers) && i < |powers|
    ensures
      var t, turns := Sum(powers), Picks(powers, Zeros(|powers|), m, i);
      && t * turns <= m * powers[i] + t - 1
      && (m * powers[i]) as real - t as real * (Harmonic(|powers|) - 1.0) <= (t * turns) as real
  {
    hide Picks, Harmonic, Sum, Floor;
    PrefixIsProportionalFrom(powers, Zeros(|powers|), 0, m, i);
    FloorFromZero(powers);
  }

  // ---------------------------------------------------------------- 64-bit priorities

  const I64_MAX: int := 0x7fff_ffff_ffff_ffff
  const I64_MIN: int := -0x8000_0000_0000_0000

  predicate FitsI64(x: int): (fits: bool)
    ensures fits <==> -0x8000_0000_0000_0000 <= x < 0x8000_0000_0000_0000
  {
    I64_MIN <= x <= I64_MAX
  }

  /** The running total of `iter().sum()` and every stored or intermediate value fit. */
  predicate RoundFits(powers: seq<int>, priorities: seq<int>)
    requires |powers| == |priorities| > 0
  {
    && (forall k :: 0 <= k <= |powers| ==> FitsI64(Sum(powers[..k])))
    && (forall i :: 0 <= i < |powers| ==> FitsI64(Raised(powers, priorities)[i]))
    && (forall i :: 0 <= i < |powers| ==> FitsI64(Next(powers, priorities)[i]))
  }

  /** A run on 64-bit priorities, where an overflow stops the program. */
  function CheckedAfter(powers: seq<int>, priorities: seq<int>, m: nat): (r: Option<seq<int>>)
    requires |powers| == |priorities| > 0
    ensures r.Some? ==> |r.value| == |powers|
  {
    if m == 0 then Some(priorities)
    else
      var before := CheckedAfter(powers, priorities, m - 1);
      if before.Some? && RoundFits(powers, before.value) then Some(Next(powers, before.value)) else None
  }

  /** What the check of one round amounts to. */
  lemma RoundFitsIff(powers: seq<int>, priorities: seq<int>)
    requires |powers| == |priorities| > 0
    ensures RoundFits(powers, priorities) <==>
      && (forall k :: 0 <= k <= |powers| ==> FitsI64(Sum(powers[..k])))
      && forall i :: 0 <= i < |powers| ==>
            FitsI64(priorities[i] + powers[i]) && FitsI64(Next(powers, priorities)[i])
  {
    hide Next, FitsI64, Sum;
    if RoundFits(powers, priorities) {
      forall i | 0 <= i < |powers| ensures FitsI64(priorities[i] + powers[i]) {
        assert FitsI64(Raised(powers, priorities)[i]);
      }
    } else if i :| 0 <= i < |powers| && !FitsI64(Raised(powers, priorities)[i]) {
      assert !FitsI64(priorities[i] + powers[i]);
    }
  }

  /** A run goes through exactly when every partial total and, in each of its rounds, every raised
      priority and every priority afterwards is a signed 64-bit integer. */
  lemma {:induction false} CheckedRunIff(powers: seq<int>, start: seq<int>, m: nat)
    requires |powers| == |start| > 0
    ensures CheckedAfter(powers, start, m).Some? <==>
      && (m > 0 ==> forall k :: 0 <= k <= |powers| ==> FitsI64(Sum(powers[..k])))
      && forall r: nat, i: nat :: r < m && i < |powers| ==>
            && FitsI64(After(powers, start, r)[i] + powers[i])
            && FitsI64(Next(powers, After(powers, start, r))[i])
    ensures CheckedAfter(powers, start, m).Some? ==> CheckedAfter(powers, start, m).value == After(powers, start, m)
  {
    hide Next, FitsI64, RoundFits, Sum;
    if m == 0 {
    } else {
      CheckedRunIff(powers, start, m - 1);
      RoundFitsIff(powers, After(powers, start, m - 1));
    }
  }

  /** The starting priorities and the bounds of the run fit. */
  ghost predicate RangeFits(powers: seq<int>, start: seq<int>, top: int)
    requires |powers| == |start| > 0
  {
    && (forall k :: 0 <= k < |start| ==> start[k] <= top)
    && Sum(powers) <= I64_MAX
    && I64_MIN <= Floor(powers, start)
    && top as real + Sum(powers) as real * Harmonic(|powers|) <= I64_MAX as real
  }

  /** From any start, 64-bit priorities never overflow, however long the run, once its range fits. */
  lemma {:induction false} WideEnoughFrom(powers: seq<int>, start: seq<int>, top: int, m: nat)
    requires Weights(powers) && |start| == |powers| && RangeFits(powers, start, top)
    ensures CheckedAfter(powers, start, m) == Some(After(powers, start, m))
  {
    hide Next, RoundFits, RangeFits, Sum;
    if m == 0 {
    } else {
      WideEnoughFrom(powers, start, top, m - 1);
      RoundIsWideEnough(powers, start, top, m - 1);
    }
  }

  lemma RoundIsWideEnough(powers: seq<int>, start: seq<int>, top: int, m: nat)
    requires Weights(powers) && |start| == |powers| && RangeFits(powers, start, top)
    ensures RoundFits(powers, After(powers, start, m))
  {
    hide Next, Harmonic, Floor, Sum, Raised;
    var priorities := After(powers, start, m);
    var raised, next := Raised(powers, priorities), Next(powers, priorities);
    assert next == After(powers, start, m + 1);
    hide After;
    PartialTotals(powers);
    forall i | 0 <= i < |powers| ensures FitsI64(raised[i]) && FitsI64(next[i]) {
      PriorityRangeFrom(powers, start, top, m, i);
      PriorityRangeFrom(powers, start, top, m + 1, i);
      ValuesFit(powers, Floor(powers, start), top as real, priorities, i, next[i]);
    }
  }

  /** The raised value is at most the bound, and so is the value after the round. */
  lemma ValuesFit(powers: seq<int>, floor: int, top: real, priorities: seq<int>, i: nat, next: int)
    requires Weights(powers) && |priorities| == |powers| && i < |powers|
    requires I64_MIN <= floor && top + Sum(powers) as real * Harmonic(|powers|) <= I64_MAX as real
    requires floor <= priorities[i] && floor <= next
    requires Raised(powers, priorities)[i] as real <= top + Sum(powers) as real * Harmonic(|powers|)
    requires next as real <= top + Sum(powers) as real * (Harmonic(|powers|) - 1.0)
    ensures FitsI64(Raised(powers, priorities)[i]) && FitsI64(next)
  {
    hide Harmonic, Sum;
    var t, h := Sum(powers) as real, Harmonic(|powers|);
    assert t * (h - 1.0) == t * h - t;
  }

  lemma PartialTotals(powers: seq<int>)
    requires Weights(powers)
    ensures forall k :: 0 <= k <= |powers| ==> 0 <= Sum(powers[..k]) <= Sum(powers)
  {
    forall k | 0 <= k <= |powers| ensures 0 <= Sum(powers[..k]) <= Sum(powers) {
      SumOfPrefix(powers, powers[..k], k);
      NonNegativeSum(powers, k);
      PartialSums(powers, k, |powers|);
    }
  }

  lemma {:induction false} SumOfPrefix(a: seq<int>, b: seq<int>, k: nat)
    requires k <= |a| && k <= |b| && forall i :: 0 <= i < k ==> a[i] == b[i]
    ensures SumTo(a, k) == SumTo(b, k)
  {
    if k == 0 {
    } else {
      SumOfPrefix(a, b, k - 1);
    }
  }

  /** From zero priorities it is enough that T * H_n fits. */
  lemma WideEnough(powers: seq<int>, m: nat)
    requires Weights(powers)
    requires Sum(powers) as real * Harmonic(|powers|) <= I64_MAX as real
    ensures CheckedAfter(powers, Zeros(|powers|), m) == Some(After(powers, Zeros(|powers|), m))
  {
    hide After, CheckedAfter, Floor, Sum;
    TotalFits(powers);
    FloorFromZero(powers);
    WideEnoughFrom(powers, Zeros(|powers|), 0, m);
  }

  lemma TotalFits(powers: seq<int>)
    requires Weights(powers)
    requires Sum(powers) as real * Harmonic(|powers|) <= I64_MAX as real
    ensures Sum(powers) <= I64_MAX
  {
    hide Sum;
    var t, tail := Sum(powers) as real, HarmonicTail(1, |powers|);
    TailIsNonNegative(1, |powers|);
    assert Harmonic(|powers|) == 1.0 + tail;
    hide Harmonic, HarmonicTail;
    assert t * tail >= 0.0;
    assert t * (1.0 + tail) == t + t * tail;
  }

  lemma {:induction false} PartialSums(a: seq<int>, k: nat, n: nat)
    requires k <= n <= |a| && forall i :: 0 <= i < n ==> a[i] >= 0
    ensures SumTo(a, k) <= SumTo(a, n)
  {
    if k == n {
    } else {
      PartialSums(a, k, n - 1);
    }
  }
}
