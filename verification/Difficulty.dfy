/** In-turn and out-of-turn difficulty, and how it rotates through the signers. */
module Difficulty {
  import opened Arithmetic
  import opened Primitives

  function DiffInturn(count: nat): nat {
    count
  }

  function DiffNoturn(count: nat, distance: nat): (r: nat)
    ensures r >= 1
  {
    Max(if distance >= count then 1 else count - distance, 1)
  }

  function Max(a: nat, b: nat): nat {
    if a >= b then a else b
  }

  predicate IsInturn(signer: Address, validators: seq<Address>, block: nat) {
    |validators| > 0 && validators[block % |validators|] == signer
  }

  function CalculateDifficulty(signer: Address, validators: seq<Address>, block: nat): (r: nat)
    ensures r >= 1
    ensures |validators| > 0 ==> r <= |validators|
  {
    if |validators| == 0 then 1
    else
      var count := |validators|;
      var inturn := block % count;
      match PositionOf(validators, signer)
      case None => 1
      case Some(index) =>
        if index == inturn then DiffInturn(count)
        else
          var distance := if index > inturn then index - inturn else count - inturn + index;
          DiffNoturn(count, distance)
  }

  // ---------------------------------------------------------------- closed form

  /** In any list, a signer that first stands at index `i` gets n - ((i - block) mod n), and an
      address outside gets 1. */
  lemma DifficultyOfFirst(validators: seq<Address>, signer: Address, i: nat, block: nat)
    ensures i < |validators| && validators[i] == signer && signer !in validators[..i]
        ==> CalculateDifficulty(signer, validators, block) == |validators| - (i - block) % |validators|
    ensures signer !in validators ==> CalculateDifficulty(signer, validators, block) == 1
  {
    if i < |validators| && validators[i] == signer && signer !in validators[..i] {
      assert forall k :: 0 <= k < i ==> validators[..i][k] == validators[k];
      assert PositionOf(validators, signer) == Some(i);
      ModOfDifference(i, block, |validators|);
    }
  }

  /** Among distinct signers that is the one at index `i`. */
  lemma DifficultyOfIndex(validators: seq<Address>, i: nat, block: nat)
    requires NoDuplicates(validators) && i < |validators|
    ensures CalculateDifficulty(validators[i], validators, block)
         == |validators| - (i - block) % |validators|
  {
    DifficultyOfFirst(validators, validators[i], i, block);
  }

  // ---------------------------------------------------------------- one height

  /** The index that gets difficulty `d` at a height. */
  function IndexOfDifficulty(n: nat, d: nat, block: nat): (i: nat)
    requires 1 <= d <= n
    ensures i < n
  {
    (block + (n - d)) % n
  }

  /** At every height distinct signers get the difficulties 1..n, each exactly once. */
  lemma DifficultyIsBijection(validators: seq<Address>, block: nat, d: nat, i: nat)
    requires NoDuplicates(validators) && 1 <= d <= |validators| && i < |validators|
    ensures CalculateDifficulty(validators[i], validators, block) == d
       <==> i == IndexOfDifficulty(|validators|, d, block)
  {
    hide CalculateDifficulty, NoDuplicates;
    var n := |validators|;
    DifficultyOfIndex(validators, i, block);
    var q, r := (i - block) / n, (i - block) % n;
    assert i - block == n * q + r;
    var k := n - d;
    if r == k {
      assert block + k == n * -q + i;
      DivModUnique(block + k, n, -q, i);
    }
    if i == (block + k) % n {
      var p := (block + k) / n;
      assert block + k == n * p + i;
      assert i - block == n * -p + k;
      DivModUnique(i - block, n, -p, k);
    }
  }

  /** Full difficulty is the mark of the in-turn signer; nobody else reaches it. */
  lemma FullDifficultyIffInturn(validators: seq<Address>, signer: Address, block: nat)
    requires NoDuplicates(validators) && (signer in validators || |validators| >= 2)
    ensures CalculateDifficulty(signer, validators, block) == |validators|
       <==> IsInturn(signer, validators, block)
  {
    if signer in validators {
      var i :| 0 <= i < |validators| && validators[i] == signer;
      DifficultyOfIndex(validators, i, block);
      ModOfDifference(i, block, |validators|);
    }
  }

  // ---------------------------------------------------------------- the next heights

  /** From one height to the next each difficulty rises by one and n wraps to 1. */
  lemma DifficultyRotates(validators: seq<Address>, i: nat, block: nat)
    requires NoDuplicates(validators) && i < |validators|
    ensures
      var d := CalculateDifficulty(validators[i], validators, block);
      CalculateDifficulty(validators[i], validators, block + 1) == if d == |validators| then 1 else d + 1
  {
    hide CalculateDifficulty, NoDuplicates;
    DifficultyOfIndex(validators, i, block);
    DifficultyOfIndex(validators, i, block + 1);
    ModOfSuccessor(i - block - 1, |validators|);
  }

  /** What a signer would be worth over the heights `block`, ..., `block + length - 1`. */
  function TotalOver(signer: Address, validators: seq<Address>, block: nat, length: nat): nat {
    if length == 0 then 0
    else
      TotalOver(signer, validators, block, length - 1) +
      CalculateDifficulty(signer, validators, block + length - 1)
  }

  lemma {:induction false} DifficultyIsPeriodic(validators: seq<Address>, i: nat, block: nat)
    requires NoDuplicates(validators) && i < |validators|
    ensures CalculateDifficulty(validators[i], validators, block + |validators|)
         == CalculateDifficulty(validators[i], validators, block)
  {
    hide CalculateDifficulty, NoDuplicates;
    var n := |validators|;
    DifficultyOfIndex(validators, i, block);
    DifficultyOfIndex(validators, i, block + n);
    var q, r := (i - block) / n, (i - block) % n;
    assert i - block == n * q + r;
    assert i - (block + n) == n * (q - 1) + r;
    DivModUnique(i - (block + n), n, q - 1, r);
  }

  /** A window one longer is the window plus its last height, and its first height plus the rest. */
  lemma {:induction false} SlideWindow(signer: Address, validators: seq<Address>, block: nat, length: nat)
    ensures TotalOver(signer, validators, block, length + 1)
         == TotalOver(signer, validators, block, length) + CalculateDifficulty(signer, validators, block + length)
    ensures TotalOver(signer, validators, block, length + 1)
         == CalculateDifficulty(signer, validators, block) + TotalOver(signer, validators, block + 1, length)
  {
    hide CalculateDifficulty, NoDuplicates;
    if length == 0 {
    } else {
      SlideWindow(signer, validators, block, length - 1);
    }
  }

  /** Starting right after its turn a signer climbs 1, 2, ... */
  lemma {:induction false} ClimbFromOne(validators: seq<Address>, i: nat, length: nat)
    requires NoDuplicates(validators) && i < |validators| && length <= |validators|
    ensures 2 * TotalOver(validators[i], validators, i + 1, length) == length * (length + 1)
  {
    hide CalculateDifficulty, NoDuplicates;
    if length == 0 {
    } else {
      ClimbFromOne(validators, i, length - 1);
      DifficultyOfIndex(validators, i, i + length);
      DivModUnique(0 - length, |validators|, -1, |validators| - length);
      NextTriangle(length);
    }
  }

  lemma NextTriangle(k: int)
    ensures k * (k + 1) == (k - 1) * k + 2 * k
  {
  }

  /** Every signer is worth n(n+1)/2 over any n consecutive heights. */
  lemma {:induction false} FullTurnTotal(validators: seq<Address>, i: nat, block: nat)
    requires NoDuplicates(validators) && i < |validators|
    ensures 2 * TotalOver(validators[i], validators, block, |validators|)
         == |validators| * (|validators| + 1)
    decreases if block >= i + 1 then block - (i + 1) else i + 1 - block
  {
    hide CalculateDifficulty, NoDuplicates, TotalOver;
    var n, signer := |validators|, validators[i];
    if block == i + 1 {
      ClimbFromOne(validators, i, n);
    } else if block > i + 1 {
      FullTurnTotal(validators, i, block - 1);
      SlideWindow(signer, validators, block - 1, n);
      DifficultyIsPeriodic(validators, i, block - 1);
    } else {
      FullTurnTotal(validators, i, block + 1);
      SlideWindow(signer, validators, block, n);
      DifficultyIsPeriodic(validators, i, block);
    }
  }
}
