/** What every run of the proposer rotation keeps, and how it shares the rounds out. */
module ProposerFairness {
  import opened Arithmetic
  import opened Proposer

  /** The powers of a validator set that can take part: none negative, total positive. */
  ghost predicate Weights(powers: seq<int>) {
    && |powers| > 0
    && (forall i :: 0 <= i < |powers| ==> powers[i] >= 0)
    && Sum(powers) > 0
  }

  /** The invariant of a run that starts from zero priorities. */
  ghost predicate Balanced(powers: seq<int>, priorities: seq<int>) {
    && |priorities| == |powers|
    && Sum(priorities) == 0
    && forall i :: 0 <= i < |powers| ==> 1 - Sum(powers) <= priorities[i]
  }

  // ---------------------------------------------------------------- conservation

  /** A round moves priority around and neither creates nor destroys any, whatever the powers. */
  lemma RoundConservesPriority(powers: seq<int>, priorities: seq<int>)
    requires |powers| == |priorities| > 0
    ensures Sum(Next(powers, priorities)) == Sum(priorities)
  {
    var raised := Raised(powers, priorities);
    var j := LastMax(raised);
    SumOfSums(priorities, powers, raised, |powers|);
    SumOfUpdate(raised, j, raised[j] - Sum(powers), |powers|);
  }

  lemma {:induction false} RunConservesPriority(powers: seq<int>, priorities: seq<int>, m: nat)
    requires |powers| == |priorities| > 0
    ensures Sum(After(powers, priorities, m)) == Sum(priorities)
  {
    if m == 0 {
    } else {
      RunConservesPriority(powers, priorities, m - 1);
      RoundConservesPriority(powers, After(powers, priorities, m - 1));
    }
  }

  /** The ledger of a run: what a validator earned less what it paid for its turns. */
  lemma {:induction false} Ledger(powers: seq<int>, priorities: seq<int>, m: nat, i: nat)
    requires |powers| == |priorities| > 0 && i < |powers|
    ensures After(powers, priorities, m)[i]
         == priorities[i] + m * powers[i] - Sum(powers) * Picks(powers, priorities, m, i)
  {
    hide Next, Chosen, Sum;
    if m == 0 {
    } else {
      Ledger(powers, priorities, m - 1, i);
      RoundAt(powers, After(powers, priorities, m - 1), i);
      OneMore(m, powers[i], Sum(powers), Picks(powers, priorities, m - 1, i));
    }
  }

  lemma RoundAt(powers: seq<int>, priorities: seq<int>, i: nat)
    requires |powers| == |priorities| > 0 && i < |powers|
    ensures Next(powers, priorities)[i] == priorities[i] + powers[i]
              - if Chosen(powers, priorities) == i then Sum(powers) else 0
  {
  }

  lemma OneMore(m: int, p: int, t: int, c: int)
    ensures m * p == (m - 1) * p + p
    ensures t * (c + 1) == t * c + t
  {
  }

  // ---------------------------------------------------------------- the lower bound

  lemma ZerosAreBalanced(powers: seq<int>)
    requires Weights(powers)
    ensures Balanced(powers, Zeros(|powers|))
  {
    SumOfConstant(Zeros(|powers|), |powers|);
  }

  /** The winner of a round holds at least the average of the raised priorities. */
  lemma WinnerIsAboveAverage(powers: seq<int>, priorities: seq<int>)
    requires |powers| == |priorities| > 0
    ensures Sum(priorities) + Sum(powers) <= |powers| * Raised(powers, priorities)[Chosen(powers, priorities)]
  {
    var raised := Raised(powers, priorities);
    SumOfSums(priorities, powers, raised, |powers|);
    SumAtMost(raised, raised[LastMax(raised)], |powers|);
  }

  /** From zero priorities that is a positive amount. */
  lemma WinnerIsPositive(powers: seq<int>, priorities: seq<int>)
    requires Weights(powers) && Balanced(powers, priorities)
    ensures Raised(powers, priorities)[Chosen(powers, priorities)] >= 1
  {
    hide Raised, Chosen, Sum;
    WinnerIsAboveAverage(powers, priorities);
    PositiveFactor(|powers|, Raised(powers, priorities)[Chosen(powers, priorities)]);
  }

  lemma PositiveFactor(n: int, w: int)
    requires n > 0 && n * w > 0
    ensures w > 0
  {
    assert w <= 0 ==> n * w <= n * 0;
  }

  /** No priority is below `floor`, and the average is high enough to keep it so. */
  ghost predicate HoldsFloor(powers: seq<int>, priorities: seq<int>, floor: int) {
    && |priorities| == |powers|
    && (forall i :: 0 <= i < |powers| ==> floor <= priorities[i])
    && |powers| * (floor + Sum(powers) - 1) < Sum(priorities) + Sum(powers)
  }

  lemma RoundKeepsFloor(powers: seq<int>, priorities: seq<int>, floor: int)
    requires Weights(powers) && HoldsFloor(powers, priorities, floor)
    ensures HoldsFloor(powers, Next(powers, priorities), floor)
  {
    hide Sum, LastMax;
    RoundConservesPriority(powers, priorities);
    WinnerIsAboveAverage(powers, priorities);
    var n, t, w := |powers|, Sum(powers), Raised(powers, priorities)[Chosen(powers, priorities)];
    PositiveFactor(n, w - (floor + t - 1)) by {
      assert n * (w - (floor + t - 1)) == n * w - n * (floor + t - 1);
    }
  }

  /** The lower bound from any start: what every priority is above, it stays above. */
  lemma {:induction false} RunKeepsFloor(powers: seq<int>, start: seq<int>, floor: int, m: nat)
    requires Weights(powers) && |start| == |powers| && HoldsFloor(powers, start, floor)
    ensures HoldsFloor(powers, After(powers, start, m), floor)
  {
    hide Next, HoldsFloor;
    if m == 0 {
    } else {
      RunKeepsFloor(powers, start, floor, m - 1);
      RoundKeepsFloor(powers, After(powers, start, m - 1), floor);
    }
  }

  function Least(s: seq<int>): (r: int)
    requires |s| > 0
    ensures r in s && forall i :: 0 <= i < |s| ==> r <= s[i]
  {
    if |s| == 1 then s[0]
    else
      var r := Least(s[1..]);
      assert forall i :: 1 <= i < |s| ==> s[i] == s[1..][i - 1];
      if s[0] < r then s[0] else r
  }

  /** The floor of a run: the least starting priority, or one turn below the raised average
      (rounded up) if that is lower. */
  function Floor(powers: seq<int>, start: seq<int>): int
    requires |powers| == |start| > 0
  {
    var n, t := |powers|, Sum(powers);
    var turn := (Sum(start) + t + n - 1) / n - t;
    if Least(start) < turn then Least(start) else turn
  }

  lemma FloorHolds(powers: seq<int>, start: seq<int>)
    requires |powers| == |start| > 0
    ensures HoldsFloor(powers, start, Floor(powers, start))
  {
    hide Sum, Least;
    var n, t, x := |powers|, Sum(powers), Sum(start) + Sum(powers);
    var q, floor := (x + n - 1) / n, Floor(powers, start);
    assert n * q <= x + n - 1;
    assert floor + t - 1 <= q - 1;
    assert n * (floor + t - 1) <= n * (q - 1) == n * q - n;
  }

  lemma RoundKeepsBalance(powers: seq<int>, priorities: seq<int>)
    requires Weights(powers) && Balanced(powers, priorities)
    ensures Balanced(powers, Next(powers, priorities))
  {
    hide Sum, Next;
    RoundConservesPriority(powers, priorities);
    assert |powers| * (1 - Sum(powers) + Sum(powers) - 1) == 0;
    RoundKeepsFloor(powers, priorities, 1 - Sum(powers));
  }

  lemma {:induction false} RunKeepsBalance(powers: seq<int>, m: nat)
    requires Weights(powers)
    ensures Balanced(powers, After(powers, Zeros(|powers|), m))
  {
    if m == 0 {
      ZerosAreBalanced(powers);
    } else {
      RunKeepsBalance(powers, m - 1);
      RoundKeepsBalance(powers, After(powers, Zeros(|powers|), m - 1));
    }
  }

  // ---------------------------------------------------------------- the period

  lemma MultipleAboveMinus(x: int, t: int, q: int)
    requires t > 0 && x == t * q && x > -t
    ensures x >= 0
  {
    assert q <= -1 ==> t * q <= t * -1;
  }

  /** The exact period: the run is back at zero after `m` rounds just when the total divides
      every `m * power`. */
  lemma BackAtZeroIff(powers: seq<int>, m: nat)
    requires Weights(powers)
    ensures After(powers, Zeros(|powers|), m) == Zeros(|powers|)
       <==> forall i :: 0 <= i < |powers| ==> (m * powers[i]) % Sum(powers) == 0
  {
    var zeros, t := Zeros(|powers|), Sum(powers);
    var end := After(powers, zeros, m);
    RunKeepsBalance(powers, m);
    forall i | 0 <= i < |powers|
      ensures end[i] == 0 ==> (m * powers[i]) % t == 0
      ensures (m * powers[i]) % t == 0 ==> end[i] >= 0
    {
      Ledger(powers, zeros, m, i);
      var c := Picks(powers, zeros, m, i);
      DividesIff(m * powers[i], t, c, end[i]);
    }
    if forall i :: 0 <= i < |powers| ==> (m * powers[i]) % t == 0 {
      NonNegativeSum(end, |powers|);
      assert end == zeros;
    }
    if end == zeros {
      assert forall i :: 0 <= i < |powers| ==> end[i] == 0;
    }
  }

  lemma DividesIff(x: int, t: int, c: int, rest: int)
    requires t > 0 && rest == x - t * c && rest > -t
    ensures rest == 0 ==> x % t == 0
    ensures x % t == 0 ==> rest >= 0
  {
    if rest == 0 {
      ModOfMultiple(t, c);
    }
    if x % t == 0 {
      assert x == t * (x / t);
      assert rest == t * (x / t - c);
      MultipleAboveMinus(rest, t, x / t - c);
    }
  }

  // ---------------------------------------------------------------- joining runs

  lemma {:induction false} RunsCompose(powers: seq<int>, priorities: seq<int>, a: nat, b: nat)
    requires |powers| == |priorities| > 0
    ensures After(powers, After(powers, priorities, a), b) == After(powers, priorities, a + b)
  {
    hide Next;
    if b == 0 {
    } else {
      RunsCompose(powers, priorities, a, b - 1);
    }
  }

  /** A run is its rounds, one after the other, whether the first or the last is split off. */
  lemma RunIsRounds(powers: seq<int>, priorities: seq<int>, m: nat)
    requires |powers| == |priorities| > 0
    ensures After(powers, priorities, 0) == priorities
    ensures After(powers, priorities, m + 1) == Next(powers, After(powers, priorities, m))
    ensures After(powers, priorities, m + 1) == After(powers, Next(powers, priorities), m)
  {
    hide Next;
    RunsCompose(powers, priorities, 1, m);
    assert After(powers, priorities, 1) == Next(powers, priorities);
  }

  /** The rounds before `m` that validator `i` wins. */
  ghost function Turns(powers: seq<int>, priorities: seq<int>, m: nat, i: nat): set<nat>
    requires |powers| == |priorities| > 0
  {
    set r: nat | r < m && Chosen(powers, After(powers, priorities, r)) == i
  }

  lemma TurnsStep(powers: seq<int>, priorities: seq<int>, m: nat, i: nat)
    requires |powers| == |priorities| > 0
    ensures |Turns(powers, priorities, m + 1, i)|
         == |Turns(powers, priorities, m, i)|
          + if Chosen(powers, After(powers, priorities, m)) == i then 1 else 0
  {
    hide Chosen, After;
    var before, all := Turns(powers, priorities, m, i), Turns(powers, priorities, m + 1, i);
    var won := Chosen(powers, After(powers, priorities, m)) == i;
    assert forall r :: r in all <==> r in before || (won && r == m);
    assert forall r :: r in before ==> r < m;
    hide Turns;
    SizeWithOneMore(before, all, m, won);
  }

  lemma SizeWithOneMore(before: set<nat>, all: set<nat>, m: nat, won: bool)
    requires forall r :: r in all <==> r in before || (won && r == m)
    requires m !in before
    ensures |all| == |before| + if won then 1 else 0
  {
    assert all == before + if won then {m} else {};
  }

  lemma NoTurns(powers: seq<int>, priorities: seq<int>, i: nat)
    requires |powers| == |priorities| > 0
    ensures |Turns(powers, priorities, 0, i)| == 0
  {
    hide Chosen, After;
    assert Turns(powers, priorities, 0, i) == {};
  }

  lemma {:induction false} PicksCountTurns(powers: seq<int>, priorities: seq<int>, m: nat, i: nat)
    requires |powers| == |priorities| > 0
    ensures Picks(powers, priorities, m, i) == |Turns(powers, priorities, m, i)|
  {
    hide Chosen, After, Turns;
    if m == 0 {
      NoTurns(powers, priorities, i);
    } else {
      PicksCountTurns(powers, priorities, m - 1, i);
      TurnsStep(powers, priorities, m - 1, i);
    }
  }

  /** `g` divides every power; a cycle then takes `Sum(powers) / g` rounds. */
  ghost predicate CommonDivisor(powers: seq<int>, g: nat) {
    g > 0 && forall i :: 0 <= i < |powers| ==> powers[i] % g == 0
  }

  lemma {:induction false} DivisorOfSum(powers: seq<int>, g: nat, n: nat)
    requires CommonDivisor(powers, g) && n <= |powers|
    ensures SumTo(powers, n) % g == 0
  {
    if n > 0 {
      DivisorOfSum(powers, g, n - 1);
      var a, b := SumTo(powers, n - 1), powers[n - 1];
      assert a == g * (a / g) && b == g * (b / g);
      assert a + b == g * (a / g + b / g);
      ModOfMultiple(g, a / g + b / g);
    } else {
      assert 0 % g == 0;
    }
  }

  /** (t/g) * p == t * (p/g) when g divides both. */
  lemma CycleArithmetic(t: int, p: int, g: nat)
    requires g > 0 && t % g == 0 && p % g == 0
    ensures (t / g) * p == t * (p / g)
  {
    var a, b := t / g, p / g;
    assert t == g * a && p == g * b;
    assert a * (g * b) == (g * a) * b;
  }

  /** After a cycle every priority is zero again. */
  lemma CycleEndsAtZero(powers: seq<int>, g: nat)
    requires Weights(powers) && CommonDivisor(powers, g)
    ensures After(powers, Zeros(|powers|), Sum(powers) / g) == Zeros(|powers|)
  {
    var t := Sum(powers);
    var length := t / g;
    DivisorOfSum(powers, g, |powers|);
    forall i | 0 <= i < |powers|
      ensures (length * powers[i]) % t == 0
    {
      CycleArithmetic(t, powers[i], g);
      ModOfMultiple(t, powers[i] / g);
    }
    BackAtZeroIff(powers, length);
  }

  /** Every state of the run recurs one cycle later. */
  lemma StatesRecur(powers: seq<int>, g: nat, m: nat)
    requires Weights(powers) && CommonDivisor(powers, g)
    ensures After(powers, Zeros(|powers|), m + Sum(powers) / g) == After(powers, Zeros(|powers|), m)
  {
    hide Next;
    var zeros, length := Zeros(|powers|), Sum(powers) / g;
    CycleEndsAtZero(powers, g);
    RunsCompose(powers, zeros, length, m);
    assert length + m == m + length;
  }

  lemma EqualProducts(t: int, a: int, b: int)
    requires t > 0 && t * a == t * b
    ensures a == b
  {
    assert a < b ==> t * a < t * b;
    assert b < a ==> t * b < t * a;
  }

  /** Exact fairness: in every window of one cycle, aligned or not, each validator is chosen
      in exact proportion to its power. */
  lemma WindowIsFair(powers: seq<int>, g: nat, m: nat, i: nat)
    requires Weights(powers) && CommonDivisor(powers, g) && i < |powers|
    ensures Picks(powers, After(powers, Zeros(|powers|), m), Sum(powers) / g, i) == powers[i] / g
  {
    hide Next, Picks;
    var t, length, start := Sum(powers), Sum(powers) / g, After(powers, Zeros(|powers|), m);
    StatesRecur(powers, g, m);
    RunsCompose(powers, Zeros(|powers|), m, length);
    Ledger(powers, start, length, i);
    DivisorOfSum(powers, g, |powers|);
    CycleArithmetic(t, powers[i], g);
    EqualProducts(t, Picks(powers, start, length, i), powers[i] / g);
  }

  /** No starvation: a validator with power gets a turn in every window of one cycle. */
  lemma NoStarvation(powers: seq<int>, g: nat, m: nat, i: nat)
    requires Weights(powers) && CommonDivisor(powers, g)
    requires i < |powers| && powers[i] > 0
    ensures Picks(powers, After(powers, Zeros(|powers|), m), Sum(powers) / g, i) >= 1
  {
    hide Next, Picks;
    WindowIsFair(powers, g, m, i);
    assert powers[i] == g * (powers[i] / g);
  }

  // ---------------------------------------------------------------- zero power

  lemma {:induction false} ZeroPowerStaysOut(powers: seq<int>, m: nat, i: nat)
    requires Weights(powers) && i < |powers| && powers[i] == 0
    ensures After(powers, Zeros(|powers|), m)[i] == 0
    ensures Picks(powers, Zeros(|powers|), m, i) == 0
  {
    hide Next, Sum, Chosen;
    if m == 0 {
    } else {
      ZeroPowerStaysOut(powers, m - 1, i);
      RunKeepsBalance(powers, m - 1);
      ZeroPowerLosesRound(powers, After(powers, Zeros(|powers|), m - 1), i);
    }
  }

  lemma ZeroPowerLosesRound(powers: seq<int>, priorities: seq<int>, i: nat)
    requires Weights(powers) && Balanced(powers, priorities)
    requires i < |powers| && powers[i] == 0 && priorities[i] == 0
    ensures Chosen(powers, priorities) != i
    ensures Next(powers, priorities)[i] == 0
  {
    WinnerIsPositive(powers, priorities);
  }

  /** With no power anywhere nothing moves and the last validator wins every tie. */
  lemma {:induction false} AllZeroPowers(powers: seq<int>, m: nat)
    requires |powers| > 0 && forall i :: 0 <= i < |powers| ==> powers[i] == 0
    ensures After(powers, Zeros(|powers|), m) == Zeros(|powers|)
    ensures Picks(powers, Zeros(|powers|), m, |powers| - 1) == m
  {
    hide Next, Chosen;
    if m == 0 {
    } else {
      AllZeroPowers(powers, m - 1);
      NothingMoves(powers);
    }
  }

  lemma NothingMoves(powers: seq<int>)
    requires |powers| > 0 && forall i :: 0 <= i < |powers| ==> powers[i] == 0
    ensures Next(powers, Zeros(|powers|)) == Zeros(|powers|)
    ensures Chosen(powers, Zeros(|powers|)) == |powers| - 1
  {
    SumOfConstant(powers, |powers|);
  }

  /** A validator without power is chosen in some run from zero priorities exactly when nobody
      has power and it is the last of the list. */
  lemma ZeroPowerChosenIff(powers: seq<int>, i: nat)
    requires i < |powers| && powers[i] == 0
    requires forall k :: 0 <= k < |powers| ==> powers[k] >= 0
    ensures (exists m: nat :: Picks(powers, Zeros(|powers|), m, i) > 0)
       <==> (forall k :: 0 <= k < |powers| ==> powers[k] == 0) && i == |powers| - 1
  {
    NonNegativeSum(powers, |powers|);
    if Sum(powers) > 0 {
      forall m: nat ensures Picks(powers, Zeros(|powers|), m, i) == 0 {
        ZeroPowerStaysOut(powers, m, i);
      }
      if forall k :: 0 <= k < |powers| ==> powers[k] == 0 {
        SumOfConstant(powers, |powers|);
      }
    } else if i == |powers| - 1 {
      AllZeroPowers(powers, 1);
    } else {
      forall m: nat ensures Picks(powers, Zeros(|powers|), m, i) == 0 {
        AllZeroPowers(powers, m);
        PicksAreShared(powers, Zeros(|powers|), m, i, |powers| - 1);
      }
    }
  }

  /** Two validators together are chosen at most once a round. */
  lemma {:induction false} PicksAreShared(powers: seq<int>, priorities: seq<int>, m: nat, i: nat, j: nat)
    requires |powers| == |priorities| > 0 && i != j
    ensures Picks(powers, priorities, m, i) + Picks(powers, priorities, m, j) <= m
  {
    hide Next, Chosen;
    if m == 0 {
    } else {
      PicksAreShared(powers, priorities, m - 1, i, j);
    }
  }

  // ---------------------------------------------------------------- negative power

  /** Priorities of a run from zero never fall below `floor`. */
  ghost predicate BoundedBelow(powers: seq<int>, floor: int)
    requires |powers| > 0
  {
    forall m: nat, i :: 0 <= i < |powers| ==> After(powers, Zeros(|powers|), m)[i] >= floor
  }

  /** Exactly the sets without negative power keep their priorities bounded: a negative one sinks
      without end, and 64-bit priorities overflow sooner or later. */
  lemma BoundedBelowIff(powers: seq<int>)
    requires |powers| > 0 && Sum(powers) > 0
    ensures (exists floor :: BoundedBelow(powers, floor)) <==> forall i :: 0 <= i < |powers| ==> powers[i] >= 0
  {
    hide After, Next, Sum;
    if forall i :: 0 <= i < |powers| ==> powers[i] >= 0 {
      assert Weights(powers);
      forall m: nat, i | 0 <= i < |powers|
        ensures After(powers, Zeros(|powers|), m)[i] >= 1 - Sum(powers)
      {
        RunKeepsBalance(powers, m);
      }
      assert BoundedBelow(powers, 1 - Sum(powers));
    } else {
      var i :| 0 <= i < |powers| && powers[i] < 0;
      forall floor ensures !BoundedBelow(powers, floor) {
        var m := if floor <= 0 then 1 - floor else 0;
        NegativePowerSinks(powers, m, i);
      }
    }
  }

  lemma NegativePowerSinks(powers: seq<int>, m: nat, i: nat)
    requires |powers| > 0 && Sum(powers) > 0 && i < |powers| && powers[i] < 0
    ensures After(powers, Zeros(|powers|), m)[i] <= 0 - m
  {
    hide After, Next, Picks, Sum;
    Ledger(powers, Zeros(|powers|), m, i);
    var c := Picks(powers, Zeros(|powers|), m, i);
    assert m * powers[i] <= m * -1;
    assert Sum(powers) * c >= 0;
  }
}
