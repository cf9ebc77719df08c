/** CometBFT weighted round-robin: one round, runs of rounds, and the in-place step. */
module Proposer {
  import opened Primitives

  // ---------------------------------------------------------------- sums

  /** The sum of the first `n` entries. */
  function SumTo(s: seq<int>, n: nat): int
    requires n <= |s|
  {
    if n == 0 then 0 else SumTo(s, n - 1) + s[n - 1]
  }

  function Sum(s: seq<int>): int {
    SumTo(s, |s|)
  }

  lemma {:induction false} SumOfSums(a: seq<int>, b: seq<int>, c: seq<int>, n: nat)
    requires n <= |a| == |b| == |c|
    requires forall i :: 0 <= i < n ==> c[i] == a[i] + b[i]
    ensures SumTo(c, n) == SumTo(a, n) + SumTo(b, n)
  {
    if n == 0 {
    } else {
      SumOfSums(a, b, c, n - 1);
    }
  }

  lemma {:induction false} SumOfUpdate(a: seq<int>, j: nat, v: int, n: nat)
    requires n <= |a| && j < |a|
    ensures SumTo(a[j := v], n) == SumTo(a, n) + if j < n then v - a[j] else 0
  {
    if n == 0 {
    } else {
      SumOfUpdate(a, j, v, n - 1);
    }
  }

  lemma {:induction false} SumAtMost(a: seq<int>, top: int, n: nat)
    requires n <= |a|
    requires forall i :: 0 <= i < n ==> a[i] <= top
    ensures SumTo(a, n) <= n * top
  {
    if n == 0 {
    } else {
      SumAtMost(a, top, n - 1);
      assert n * top == (n - 1) * top + top;
    }
  }

  /** Non-negative entries that sum to at most zero are all zero. */
  lemma {:induction false} NonNegativeSum(a: seq<int>, n: nat)
    requires n <= |a|
    requires forall i :: 0 <= i < n ==> a[i] >= 0
    ensures SumTo(a, n) >= 0
    ensures SumTo(a, n) == 0 ==> forall i :: 0 <= i < n ==> a[i] == 0
  {
    if n == 0 {
    } else {
      NonNegativeSum(a, n - 1);
    }
  }

  lemma {:induction false} SumOfConstant(a: seq<int>, n: nat)
    requires n <= |a|
    requires forall i :: 0 <= i < n ==> a[i] == 0
    ensures SumTo(a, n) == 0
  {
    if n == 0 {
    } else {
      SumOfConstant(a, n - 1);
    }
  }

  // ---------------------------------------------------------------- one round

  /** Every priority incremented by its validator's voting power. */
  function Raised(powers: seq<int>, priorities: seq<int>): (r: seq<int>)
    requires |powers| == |priorities|
    ensures |r| == |powers|
    ensures forall i :: 0 <= i < |r| ==> r[i] == priorities[i] + powers[i]
  {
    seq(|powers|, i requires 0 <= i < |powers| => priorities[i] + powers[i])
  }

  /** `max_by_key` on an iterator keeps the last of several equal maxima. */
  predicate IsLastMax(a: seq<int>, j: nat) {
    && j < |a|
    && (forall i :: 0 <= i < |a| ==> a[i] <= a[j])
    && (forall i :: j < i < |a| ==> a[i] < a[j])
  }

  /** Scanning the first `n` entries from the left, a later equal entry takes the lead. */
  function LastMaxTo(a: seq<int>, n: nat): (j: nat)
    requires 0 < n <= |a|
    ensures j < n
    ensures forall i :: 0 <= i < n ==> a[i] <= a[j]
    ensures forall i :: j < i < n ==> a[i] < a[j]
  {
    if n == 1 then 0
    else
      var k := LastMaxTo(a, n - 1);
      if a[n - 1] >= a[k] then n - 1 else k
  }

  function LastMax(a: seq<int>): (j: nat)
    requires |a| > 0
    ensures IsLastMax(a, j)
  {
    LastMaxTo(a, |a|)
  }

  function Chosen(powers: seq<int>, priorities: seq<int>): (j: nat)
    requires |powers| == |priorities| > 0
    ensures IsLastMax(Raised(powers, priorities), j)
  {
    LastMax(Raised(powers, priorities))
  }

  function Next(powers: seq<int>, priorities: seq<int>): (r: seq<int>)
    requires |powers| == |priorities| > 0
    ensures |r| == |powers|
  {
    var raised, j := Raised(powers, priorities), Chosen(powers, priorities);
    raised[j := raised[j] - Sum(powers)]
  }

  lemma LastMaxIsUnique(a: seq<int>, i: nat, j: nat)
    requires IsLastMax(a, i) && IsLastMax(a, j)
    ensures i == j
  {
    assert a[i] <= a[j] && a[j] <= a[i];
  }

  /** One round, said by the sums of priority and power: the last of the largest sums pays the total
      and everybody keeps the rest. */
  lemma OneRound(powers: seq<int>, priorities: seq<int>, sums: seq<int>, j: nat)
    requires |powers| == |priorities| == |sums| > 0
    requires forall i :: 0 <= i < |sums| ==> sums[i] == priorities[i] + powers[i]
    requires IsLastMax(sums, j)
    ensures Chosen(powers, priorities) == j
    ensures forall i :: 0 <= i < |sums| ==>
      Next(powers, priorities)[i] == if i == j then sums[i] - Sum(powers) else sums[i]
  {
    assert sums == Raised(powers, priorities);
    LastMaxIsUnique(sums, Chosen(powers, priorities), j);
  }

  /** The priorities after `m` rounds. */
  function After(powers: seq<int>, priorities: seq<int>, m: nat): (r: seq<int>)
    requires |powers| == |priorities| > 0
    ensures |r| == |powers|
  {
    if m == 0 then priorities else Next(powers, After(powers, priorities, m - 1))
  }

  /** How often validator `i` is chosen in `m` rounds. */
  function Picks(powers: seq<int>, priorities: seq<int>, m: nat, i: nat): nat
    requires |powers| == |priorities| > 0
  {
    if m == 0 then 0
    else
      Picks(powers, priorities, m - 1, i) +
      if Chosen(powers, After(powers, priorities, m - 1)) == i then 1 else 0
  }

  function Zeros(n: nat): (r: seq<int>)
    ensures |r| == n
    ensures forall i :: 0 <= i < n ==> r[i] == 0
  {
    seq(n, _ => 0)
  }

  // ---------------------------------------------------------------- the in-place step

  function Powers(vs: seq<Validator>): (r: seq<int>)
    ensures |r| == |vs|
    ensures forall i :: 0 <= i < |vs| ==> r[i] == vs[i].votingPower
  {
    seq(|vs|, i requires 0 <= i < |vs| => vs[i].votingPower)
  }

  function Priorities(vs: seq<Validator>): (r: seq<int>)
    ensures |r| == |vs|
    ensures forall i :: 0 <= i < |vs| ==> r[i] == vs[i].proposerPriority
  {
    seq(|vs|, i requires 0 <= i < |vs| => vs[i].proposerPriority)
  }

  /** `after` is `before` with other priorities and nothing else changed. */
  predicate SameButPriorities(before: seq<Validator>, after: seq<Validator>) {
    && |before| == |after|
    && forall i :: 0 <= i < |after| ==>
      after[i] == before[i].(proposerPriority := after[i].proposerPriority)
  }

  /** When the last of the raised maxima has paid, the round is done. */
  lemma PaymentEndsRound(before: seq<Validator>, raised: seq<Validator>, j: nat)
    requires |before| > 0 && SameButPriorities(before, raised)
    requires forall k :: 0 <= k < |raised| ==>
      raised[k].proposerPriority == before[k].proposerPriority + before[k].votingPower
    requires j == LastMax(Priorities(raised))
    ensures
      var paid := raised[j].(proposerPriority := raised[j].proposerPriority - Sum(Powers(before)));
      var after := raised[j := paid];
      && j == Chosen(Powers(before), Priorities(before))
      && SameButPriorities(before, after)
      && Priorities(after) == Next(Powers(before), Priorities(before))
  {
    assert Priorities(raised) == Raised(Powers(before), Priorities(before));
    hide Sum, LastMax, Raised;
    LastMaxIsUnique(Priorities(raised), j, Chosen(Powers(before), Priorities(before)));
    hide Chosen;
    var paid := raised[j].(proposerPriority := raised[j].proposerPriority - Sum(Powers(before)));
    assert Priorities(raised[j := paid]) == Next(Powers(before), Priorities(before));
  }

  /** The validators after a round, entry by entry. */
  lemma RoundWritten(before: seq<Validator>, after: seq<Validator>, j: nat)
    requires |before| > 0 && SameButPriorities(before, after) && j == Chosen(Powers(before), Priorities(before))
    requires Priorities(after) == Next(Powers(before), Priorities(before))
    ensures forall i :: 0 <= i < |before| ==>
      var sum := before[i].proposerPriority + before[i].votingPower;
      after[i] == before[i].(proposerPriority := if i == j then sum - Sum(Powers(before)) else sum)
    ensures forall i :: 0 <= i < |before| ==>
      before[i].proposerPriority + before[i].votingPower <= before[j].proposerPriority + before[j].votingPower
    ensures forall i :: j < i < |before| ==>
      before[i].proposerPriority + before[i].votingPower < before[j].proposerPriority + before[j].votingPower
  {
    hide Sum;
    var powers, priorities := Powers(before), Priorities(before);
    var raised, next := Raised(powers, priorities), Next(powers, priorities);
    forall i | 0 <= i < |before|
      ensures raised[i] == before[i].proposerPriority + before[i].votingPower
      ensures next[i] == if i == j then raised[i] - Sum(powers) else raised[i]
      ensures after[i] == before[i].(proposerPriority := next[i])
    {
      assert Priorities(after)[i] == next[i];
    }
    assert IsLastMax(raised, j);
  }

  /** The mutable validator set that `select_proposer` borrows. */
  class Rotation {
    var validatorSet: ValidatorSet

    constructor (set0: ValidatorSet)
      ensures validatorSet == set0
    {
      validatorSet := set0;
    }

    /** One round.  The stored proposer is the chosen validator with its reduced priority.
        An empty set panics in the program. */
    method SelectProposer() returns (address: Address)
      requires |validatorSet.validators| > 0
      modifies this
      ensures
        var before, after := old(validatorSet.validators), validatorSet.validators;
        var j := Chosen(Powers(before), Priorities(before));
        && SameButPriorities(before, after)
        && Priorities(after) == Next(Powers(before), Priorities(before))
        && validatorSet.proposer == Some(after[j])
        && address == before[j].signer
      ensures
        var before, after := old(validatorSet.validators), validatorSet.validators;
        exists j :: 0 <= j < |before|
          && (forall i :: 0 <= i < |before| ==>
                before[i].proposerPriority + before[i].votingPower
                <= before[j].proposerPriority + before[j].votingPower)
          && (forall i :: j < i < |before| ==>
                before[i].proposerPriority + before[i].votingPower
                < before[j].proposerPriority + before[j].votingPower)
          && |after| == |before|
          && (forall i :: 0 <= i < |before| ==>
                var sum := before[i].proposerPriority + before[i].votingPower;
                after[i] == before[i].(
                  proposerPriority := if i == j then sum - Sum(Powers(before)) else sum))
          && validatorSet.proposer == Some(after[j])
          && address == before[j].signer
    {
      hide Sum, Chosen, Next, Raised, LastMax;
      var vs := validatorSet.validators;
      var total := Sum(Powers(vs));

      for i := 0 to |vs|
        invariant SameButPriorities(old(validatorSet.validators), vs)
        invariant forall k :: 0 <= k < |vs| ==>
          var v := old(validatorSet.validators)[k];
          vs[k].proposerPriority == v.proposerPriority + if k < i then v.votingPower else 0
      {
        vs := vs[i := vs[i].(proposerPriority := vs[i].proposerPriority + vs[i].votingPower)];
      }
      ghost var before := old(validatorSet.validators);
      var selected := LastMax(Priorities(vs));
      ghost var raised := vs;
      vs := vs[selected := vs[selected].(proposerPriority := vs[selected].proposerPriority - total)];
      PaymentEndsRound(before, raised, selected);

      var proposer := vs[selected];
      address := proposer.signer;
      validatorSet := ValidatorSet(vs, Some(proposer));
      RoundWritten(before, vs, selected);
    }
  }
}
