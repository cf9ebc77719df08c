/** The consensus snapshot and its own copy of the recent-signers log. */
module Snapshot {
  import opened Primitives
  import opened RecentSigners

  /** The log after `apply`: without validators nothing is pruned. */
  function Applied(log: Log, block: nat, signer: Address, count: nat): Log {
    var inserted := log[block := signer];
    if count > 0 then SplitOff(inserted, Cutoff(block, count)) else inserted
  }

  class BorSnapshot {
    var number: nat
    const hash: B256
    var validatorSet: ValidatorSet
    var recents: Log

    constructor (number0: nat, hash0: B256, validatorSet0: ValidatorSet)
      ensures number == number0 && hash == hash0 && validatorSet == validatorSet0 && recents == map[]
    {
      number, hash, validatorSet, recents := number0, hash0, validatorSet0, map[];
    }

    method Apply(block: nat, signer: Address)
      modifies this
      ensures number == block
      ensures recents == Applied(old(recents), block, signer, |validatorSet.validators|)
      ensures validatorSet == old(validatorSet)
      ensures
        var n := |validatorSet.validators|;
        && (forall b :: b in recents <==>
              (b == block || b in old(recents)) && (n > 0 ==> b >= block - (n / 2 + 1)))
        && (forall b :: b in recents ==> recents[b] == if b == block then signer else old(recents)[b])
    {
      number := block;
      recents := recents[block := signer];
      var count := |validatorSet.validators|;
      if count > 0 {
        recents := SplitOff(recents, Cutoff(block, count));
      }
    }

    predicate IsAuthorized(address: Address): (authorized: bool)
      reads this
      ensures authorized <==> address in Signers(validatorSet.validators)
    {
      exists i :: 0 <= i < |validatorSet.validators| && validatorSet.validators[i].signer == address
    }
  }

  // ---------------------------------------------------------------- two stores, one log

  /** One record: the block, its signer and the number of validators at the time. */
  datatype Entry = Entry(block: nat, signer: Address, count: nat)

  /** The snapshot's log after a sequence of `apply` calls. */
  function AppliedAll(entries: seq<Entry>): Log {
    if entries == [] then map[]
    else
      var last := entries[|entries| - 1];
      Applied(AppliedAll(entries[..|entries| - 1]), last.block, last.signer, last.count)
  }

  /** The engine's log after the same sequence of `add_signer` and `prune`. */
  function RecordedAll(entries: seq<Entry>): Log {
    if entries == [] then map[]
    else
      var last := entries[|entries| - 1];
      Record(RecordedAll(entries[..|entries| - 1]), last.block, last.signer, last.count)
  }

  /** An empty validator set does not matter to the first record, which nothing precedes. */
  predicate NeverEmptied(counts: seq<nat>) {
    forall i :: 1 <= i < |counts| ==> counts[i] > 0
  }

  function CountsOf(entries: seq<Entry>): (r: seq<nat>)
    ensures |r| == |entries| && forall i :: 0 <= i < |r| ==> r[i] == entries[i].count
  {
    seq(|entries|, i requires 0 <= i < |entries| => entries[i].count)
  }

  /** The two stores agree while the validator set, which may change, is not empty. */
  lemma {:induction false} StoresAgree(entries: seq<Entry>)
    requires NeverEmptied(CountsOf(entries))
    ensures AppliedAll(entries) == RecordedAll(entries)
  {
    if entries == [] {
    } else {
      var front, last := entries[..|entries| - 1], entries[|entries| - 1];
      assert CountsOf(front) == CountsOf(entries)[..|front|];
      StoresAgree(front);
      if |entries| > 1 {
        assert CountsOf(entries)[|front|] > 0;
      } else {
        assert AppliedAll(front) == map[];
      }
    }
  }

  /** Exactly when: for given sizes of the validator set the two stores agree on every history just
      when no record but the first meets an empty set. */
  lemma StoresAgreeIff(counts: seq<nat>)
    ensures (forall entries: seq<Entry> :: CountsOf(entries) == counts ==> AppliedAll(entries) == RecordedAll(entries))
       <==> NeverEmptied(counts)
  {
    if NeverEmptied(counts) {
      forall entries: seq<Entry> | CountsOf(entries) == counts ensures AppliedAll(entries) == RecordedAll(entries) {
        StoresAgree(entries);
      }
    } else {
      var i :| 1 <= i < |counts| && counts[i] == 0;
      var entries := Diverging(counts, i);
      StoresDiverge(counts, i, |counts|);
      assert CountsOf(entries) == counts && entries[..|counts|] == entries;
      assert AppliedAll(entries) != RecordedAll(entries);
    }
  }

  /** Block 0 first, block 2 when the set is empty, block 1 otherwise. */
  function Diverging(counts: seq<nat>, i: nat): (r: seq<Entry>)
    ensures |r| == |counts|
    ensures forall k :: 0 <= k < |r| ==>
      r[k].count == counts[k] && r[k].block == if k == 0 then 0 else if k == i then 2 else 1
  {
    var a: Address := seq(20, _ => 0);
    seq(|counts|, k requires 0 <= k < |counts| => Entry(if k == 0 then 0 else if k == i then 2 else 1, a, counts[k]))
  }

  /** Without validators the snapshot keeps block 0 while the engine's window of one drops it. */
  lemma {:induction false} StoresDiverge(counts: seq<nat>, i: nat, n: nat)
    requires 1 <= i < |counts| && counts[i] == 0 && 1 <= n <= |counts|
    ensures 0 in AppliedAll(Diverging(counts, i)[..n])
    ensures n > i ==> 0 !in RecordedAll(Diverging(counts, i)[..n])
  {
    var entries := Diverging(counts, i)[..n];
    hide Diverging;
    assert entries[..n - 1] == Diverging(counts, i)[..n - 1];
    if n == 1 {
    } else {
      StoresDiverge(counts, i, n - 1);
    }
  }
}
