/** Payload assembly: user transactions up to the gas limit, then the system transactions. */
module Payloads {
  import opened Primitives

  type Bytes = seq<Byte>

  /** A state sync event: its id and its data. */
  datatype Event = Event(id: nat, data: Bytes)

  /** Call data of the two system calls; the ABI encoding itself is not modelled. */
  datatype Abi = Abi(commitSpan: (nat, Bytes) -> Bytes, stateReceive: (nat, Bytes) -> Bytes)

  datatype SystemTxPlan = SystemTxPlan(executeCommitSpan: bool, stateSyncEvents: seq<Event>)

  datatype SystemCallRecord = SystemCallRecord(to: Address, from: Address, data: Bytes)

  datatype SystemTxResult = SystemTxResult(
    commitSpanExecuted: bool,
    stateSyncCount: nat,
    systemCalls: seq<SystemCallRecord>)

  datatype PayloadConfig = PayloadConfig(
    blockNumber: nat,
    gasLimit: U64,
    sprintSize: nat,
    spanSize: nat,
    hasPendingSpan: bool,
    pendingSpanId: Option<nat>,
    pendingValidatorBytes: Option<Bytes>,
    pendingStateSyncEvents: seq<Event>)

  datatype PayloadTx = PayloadTx(data: Bytes, gasUsed: U64, isSystemTx: bool)

  datatype BuiltPayload = BuiltPayload(
    blockNumber: nat,
    transactions: seq<PayloadTx>,
    totalGasUsed: U64,
    systemCalls: seq<SystemCallRecord>,
    commitSpanExecuted: bool,
    stateSyncCount: nat)

  // ---------------------------------------------------------------- well-known addresses

  function SystemAddress(): (a: Address)
    ensures forall i :: 0 <= i < 20 ==> a[i] == if i == 19 then 0xfe else 0xff
  {
    seq(19, _ => 0xff as Byte) + [0xfe]
  }

  function ValidatorSetAddress(): (a: Address)
    ensures forall i :: 0 <= i < 20 ==> a[i] == if i == 18 then 0x10 else 0
  {
    seq(18, _ => 0 as Byte) + [0x10, 0x00]
  }

  function StateReceiverAddress(): (a: Address)
    ensures forall i :: 0 <= i < 20 ==> a[i] == if i == 18 then 0x10 else if i == 19 then 1 else 0
  {
    seq(18, _ => 0 as Byte) + [0x10, 0x01]
  }

  // ---------------------------------------------------------------- system transactions

  predicate IsBoundary(block: nat, size: nat)
    requires block > 0 ==> size > 0
  {
    block > 0 && block % size == 0
  }

  /** A zero sprint or span size panics in the program from block 1 on. */
  function PlanSystemTxs(block: nat, sprintSize: nat, spanSize: nat, hasPendingSpan: bool, events: seq<Event>)
    : SystemTxPlan
    requires block > 0 ==> sprintSize > 0 && spanSize > 0
  {
    SystemTxPlan(
      IsBoundary(block, spanSize) && hasPendingSpan,
      if IsBoundary(block, sprintSize) then events else [])
  }

  /** The calls in order: commitSpan with its arguments, if there are any, then one onStateReceive
      per event, all from the system address. */
  ghost predicate FollowsPlan(
    calls: seq<SystemCallRecord>, commit: Option<(nat, Bytes)>, events: seq<Event>, abi: Abi)
  {
    var first := if commit.Some? then 1 else 0;
    && |calls| == first + |events|
    && (commit.Some? ==>
          calls[0] == SystemCallRecord(
            ValidatorSetAddress(), SystemAddress(), abi.commitSpan(commit.value.0, commit.value.1)))
    && forall i :: 0 <= i < |events| ==>
          calls[first + i] == SystemCallRecord(
            StateReceiverAddress(), SystemAddress(), abi.stateReceive(events[i].id, events[i].data))
  }

  /** commitSpan comes first, if it is due and both its arguments are there, then one onStateReceive
      per event in input order. */
  method ExecuteSystemTxPlan(plan: SystemTxPlan, spanId: Option<nat>, validatorBytes: Option<Bytes>, abi: Abi)
    returns (r: SystemTxResult)
    ensures
      var commit := if plan.executeCommitSpan && spanId.Some? && validatorBytes.Some?
                    then Some((spanId.value, validatorBytes.value)) else None;
      && r.commitSpanExecuted == commit.Some?
      && r.stateSyncCount == |plan.stateSyncEvents|
      && FollowsPlan(r.systemCalls, commit, plan.stateSyncEvents, abi)
  {
    var calls := [];
    var executed, count := false, 0;
    ghost var commit: Option<(nat, Bytes)> := None;
    if plan.executeCommitSpan {
      if spanId.Some? && validatorBytes.Some? {
        var data := abi.commitSpan(spanId.value, validatorBytes.value);
        calls := calls + [SystemCallRecord(ValidatorSetAddress(), SystemAddress(), data)];
        executed := true;
        commit := Some((spanId.value, validatorBytes.value));
      }
    }
    for i := 0 to |plan.stateSyncEvents|
      invariant count == i && FollowsPlan(calls, commit, plan.stateSyncEvents[..i], abi)
    {
      var event := plan.stateSyncEvents[i];
      var data := abi.stateReceive(event.id, event.data);
      calls := calls + [SystemCallRecord(StateReceiverAddress(), SystemAddress(), data)];
      count := count + 1;
    }
    assert plan.stateSyncEvents[..|plan.stateSyncEvents|] == plan.stateSyncEvents;
    r := SystemTxResult(executed, count, calls);
  }

  // ---------------------------------------------------------------- receipts

  function DeriveBorReceiptGas(regularCumulativeGas: nat, borTxIndex: nat): nat {
    regularCumulativeGas
  }

  /** More system transactions than transactions underflow in the program. */
  predicate IsBorSystemTx(index: nat, total: nat, systemCount: nat)
    requires systemCount <= total
  {
    index >= total - systemCount
  }

  // ---------------------------------------------------------------- assembly

  /** The gas of a list of transactions. */
  function GasOf(txs: seq<PayloadTx>): nat {
    if txs == [] then 0 else GasOf(txs[..|txs| - 1]) + txs[|txs| - 1].gasUsed
  }

  /** Gas adds up. */
  lemma {:induction false} GasAddsUp(a: seq<PayloadTx>, b: seq<PayloadTx>, tx: PayloadTx)
    ensures GasOf([]) == 0 && GasOf([tx]) == tx.gasUsed
    ensures GasOf(a + b) == GasOf(a) + GasOf(b)
  {
    assert [tx][..0] == [];
    if b == [] {
      assert a + b == a;
    } else {
      assert (a + b)[..|a + b| - 1] == a + b[..|b| - 1];
      GasAddsUp(a, b[..|b| - 1], tx);
    }
  }

  /** The gas of the first `j` transactions. */
  function GasUpTo(txs: seq<PayloadTx>, j: nat): nat
    requires j <= |txs|
  {
    GasOf(txs[..j])
  }

  lemma OneMore(txs: seq<PayloadTx>, j: nat)
    requires j < |txs|
    ensures GasUpTo(txs, j + 1) == GasUpTo(txs, j) + txs[j].gasUsed
  {
    assert txs[..j + 1][..j] == txs[..j];
  }

  lemma {:induction false} GasGrows(txs: seq<PayloadTx>, j: nat, k: nat)
    requires j <= k <= |txs|
    ensures GasUpTo(txs, j) <= GasUpTo(txs, k)
  {
    if j == k {
    } else {
      GasGrows(txs, j, k - 1);
      OneMore(txs, k - 1);
    }
  }

  /** `k` transactions fit and no more do. */
  ghost predicate LongestFitting(txs: seq<PayloadTx>, limit: nat, k: nat) {
    k <= |txs| && forall j :: 0 <= j <= |txs| ==> (GasUpTo(txs, j) <= limit <==> j <= k)
  }

  /** What is left of a sum in 64 bits; without overflow checks it wraps around. */
  function Wrapped(n: nat): U64 {
    n % U64_LIMIT
  }

  lemma WrappedSum(a: nat, b: nat)
    ensures Wrapped(Wrapped(a) + b) == Wrapped(a + b)
  {
  }

  /** The program stops at `k`: the first prefix whose wrapped gas is over the limit is one longer. */
  ghost predicate StopsAt(txs: seq<PayloadTx>, limit: U64, k: nat) {
    && k <= |txs|
    && (forall j :: 0 <= j <= k ==> Wrapped(GasUpTo(txs, j)) <= limit)
    && (k < |txs| ==> Wrapped(GasUpTo(txs, k + 1)) > limit)
  }

  /** Some prefix fits, and with one more transaction its gas needs more than 64 bits. */
  ghost predicate Overflows(txs: seq<PayloadTx>, limit: U64) {
    exists j :: 0 <= j < |txs| && GasUpTo(txs, j) <= limit && GasUpTo(txs, j + 1) >= U64_LIMIT
  }

  lemma {:induction false} FitsWithoutOverflow(txs: seq<PayloadTx>, limit: U64, k: nat, j: nat)
    requires StopsAt(txs, limit, k) && !Overflows(txs, limit) && j <= k
    ensures GasUpTo(txs, j) <= limit
  {
    if j > 0 {
      FitsWithoutOverflow(txs, limit, k, j - 1);
      hide GasUpTo;
      assert GasUpTo(txs, j - 1 + 1) < U64_LIMIT;
      assert Wrapped(GasUpTo(txs, j)) <= limit;
    } else {
      assert txs[..0] == [];
    }
  }

  /** Exactly when: where the program stops is the longest fitting prefix just when no fitting prefix
      overflows with its next transaction. */
  lemma LongestIffNoOverflow(txs: seq<PayloadTx>, limit: U64, k: nat)
    requires StopsAt(txs, limit, k)
    ensures LongestFitting(txs, limit, k) <==> !Overflows(txs, limit)
  {
    if Overflows(txs, limit) {
      OverflowIsNotLongest(txs, limit, k);
    } else {
      FitsWithoutOverflow(txs, limit, k, k);
      hide GasUpTo;
      assert k < |txs| ==> GasUpTo(txs, k + 1) < U64_LIMIT;
      StoppedAtLongest(txs, limit, k);
    }
  }

  lemma OverflowIsNotLongest(txs: seq<PayloadTx>, limit: U64, k: nat)
    requires StopsAt(txs, limit, k) && Overflows(txs, limit)
    ensures !LongestFitting(txs, limit, k)
  {
    hide GasUpTo;
    var j :| 0 <= j < |txs| && GasUpTo(txs, j) <= limit && GasUpTo(txs, j + 1) >= U64_LIMIT;
    OneMore(txs, j);
    assert Wrapped(GasUpTo(txs, j + 1)) == GasUpTo(txs, j + 1) - U64_LIMIT <= limit;
    hide Wrapped;
    assert j != k;
    assert GasUpTo(txs, j + 1) > limit;
  }

  /** The system part of a payload: one flagged transaction without gas per system call. */
  predicate CarriesCalls(txs: seq<PayloadTx>, calls: seq<SystemCallRecord>) {
    |txs| == |calls| && forall i :: 0 <= i < |txs| ==> txs[i] == PayloadTx(calls[i].data, 0, true)
  }

  /** Takes user transactions until one would pass the gas limit; sums wrap around. */
  method IncludeUserTxs(userTxs: seq<PayloadTx>, gasLimit: U64)
    returns (transactions: seq<PayloadTx>, totalGasUsed: U64)
    ensures |transactions| <= |userTxs| && StopsAt(userTxs, gasLimit, |transactions|)
    ensures transactions == userTxs[..|transactions|]
    ensures totalGasUsed == Wrapped(GasUpTo(userTxs, |transactions|))
  {
    transactions, totalGasUsed := [], 0;
    assert Wrapped(GasUpTo(userTxs, 0)) == 0;
    hide GasUpTo, Wrapped;
    for i := 0 to |userTxs|
      invariant transactions == userTxs[..i]
      invariant totalGasUsed == Wrapped(GasUpTo(userTxs, i))
      invariant forall j :: 0 <= j <= i ==> Wrapped(GasUpTo(userTxs, j)) <= gasLimit
    {
      OneMore(userTxs, i);
      WrappedSum(GasUpTo(userTxs, i), userTxs[i].gasUsed);
      var next := Wrapped(totalGasUsed + userTxs[i].gasUsed);
      if next > gasLimit {
        return;
      }
      totalGasUsed := next;
      transactions := transactions + [userTxs[i]];
    }
  }

  /** Appends one transaction per system call; the total gas stays what it was. */
  method AppendSystemTxs(user: seq<PayloadTx>, calls: seq<SystemCallRecord>) returns (txs: seq<PayloadTx>)
    ensures |txs| == |user| + |calls| && txs[..|user|] == user
    ensures CarriesCalls(txs[|user|..], calls)
    ensures GasOf(txs) == GasOf(user)
  {
    txs := user;
    for c := 0 to |calls|
      invariant |txs| == |user| + c && txs[..|user|] == user
      invariant CarriesCalls(txs[|user|..], calls[..c])
      invariant GasOf(txs) == GasOf(user)
    {
      var tx := PayloadTx(calls[c].data, 0, true);
      assert (txs + [tx])[..|txs|] == txs;
      txs := txs + [tx];
    }
    assert calls[..|calls|] == calls;
  }

  method Build(config: PayloadConfig, userTxs: seq<PayloadTx>, abi: Abi) returns (p: BuiltPayload)
    requires config.blockNumber > 0 ==> config.sprintSize > 0 && config.spanSize > 0
    ensures p.blockNumber == config.blockNumber
    ensures
      var k := |p.transactions| - |p.systemCalls|;
      && 0 <= k <= |userTxs|
      && StopsAt(userTxs, config.gasLimit, k)
      && (LongestFitting(userTxs, config.gasLimit, k) <==> !Overflows(userTxs, config.gasLimit))
      && p.transactions[..k] == userTxs[..k]
      && forall i :: 0 <= i < |p.systemCalls| ==>
            p.transactions[k + i] == PayloadTx(p.systemCalls[i].data, 0, true)
    ensures p.totalGasUsed == Wrapped(GasOf(p.transactions))
    ensures !Overflows(userTxs, config.gasLimit) ==> p.totalGasUsed == GasOf(p.transactions)
    ensures
      var number := config.blockNumber;
      var commit := if number > 0 && number % config.spanSize == 0 && config.hasPendingSpan
                       && config.pendingSpanId.Some? && config.pendingValidatorBytes.Some?
                    then Some((config.pendingSpanId.value, config.pendingValidatorBytes.value)) else None;
      var events := if number > 0 && number % config.sprintSize == 0 then config.pendingStateSyncEvents else [];
      && p.commitSpanExecuted == commit.Some?
      && p.stateSyncCount == |events|
      && FollowsPlan(p.systemCalls, commit, events, abi)
  {
    hide GasOf, GasUpTo, Overflows, StopsAt, LongestFitting, FollowsPlan, Wrapped, CarriesCalls;
    var user, totalGasUsed := IncludeUserTxs(userTxs, config.gasLimit);
    GasOfTaken(userTxs, config.gasLimit, |user|);
    var result := RunSystemTxs(config, abi);
    var transactions := AppendSystemTxs(user, result.systemCalls);
    SystemPart(transactions, user, result.systemCalls);
    p := BuiltPayload(config.blockNumber, transactions, totalGasUsed, result.systemCalls,
      result.commitSpanExecuted, result.stateSyncCount);
    assert |p.transactions| - |p.systemCalls| == |user|;
  }

  /** Plans the system transactions of a block and executes the plan. */
  method RunSystemTxs(config: PayloadConfig, abi: Abi) returns (r: SystemTxResult)
    requires config.blockNumber > 0 ==> config.sprintSize > 0 && config.spanSize > 0
    ensures
      var number := config.blockNumber;
      var commit := if number > 0 && number % config.spanSize == 0 && config.hasPendingSpan
                       && config.pendingSpanId.Some? && config.pendingValidatorBytes.Some?
                    then Some((config.pendingSpanId.value, config.pendingValidatorBytes.value)) else None;
      var events := if number > 0 && number % config.sprintSize == 0 then config.pendingStateSyncEvents else [];
      && r.commitSpanExecuted == commit.Some?
      && r.stateSyncCount == |events|
      && FollowsPlan(r.systemCalls, commit, events, abi)
  {
    hide FollowsPlan;
    var plan := PlanSystemTxs(config.blockNumber, config.sprintSize, config.spanSize,
      config.hasPendingSpan, config.pendingStateSyncEvents);
    r := ExecuteSystemTxPlan(plan, config.pendingSpanId, config.pendingValidatorBytes, abi);
  }

  lemma SystemPart(txs: seq<PayloadTx>, user: seq<PayloadTx>, calls: seq<SystemCallRecord>)
    requires |txs| == |user| + |calls| && CarriesCalls(txs[|user|..], calls)
    ensures forall i :: 0 <= i < |calls| ==> txs[|user| + i] == PayloadTx(calls[i].data, 0, true)
  {
    assert forall i :: 0 <= i < |calls| ==> txs[|user| + i] == txs[|user|..][i];
  }

  /** What is taken, and that its gas is exact unless something overflows. */
  lemma GasOfTaken(txs: seq<PayloadTx>, limit: U64, k: nat)
    requires StopsAt(txs, limit, k)
    ensures LongestFitting(txs, limit, k) <==> !Overflows(txs, limit)
    ensures GasUpTo(txs, k) == GasOf(txs[..k])
    ensures !Overflows(txs, limit) ==> Wrapped(GasOf(txs[..k])) == GasOf(txs[..k])
  {
    LongestIffNoOverflow(txs, limit, k);
    hide GasOf, Overflows;
    if !Overflows(txs, limit) {
      assert GasUpTo(txs, k) <= limit;
    }
  }

  lemma StoppedAtLongest(txs: seq<PayloadTx>, limit: nat, k: nat)
    requires k <= |txs| && GasUpTo(txs, k) <= limit
    requires k < |txs| ==> GasUpTo(txs, k + 1) > limit
    ensures LongestFitting(txs, limit, k)
  {
    forall j | 0 <= j <= |txs| ensures GasUpTo(txs, j) <= limit <==> j <= k {
      if j <= k {
        GasGrows(txs, j, k);
      } else {
        GasGrows(txs, k + 1, j);
      }
    }
  }

  /** System transactions leave the running gas where the user transactions left it, so every
      system receipt carries the block total; and the index rule finds exactly the flagged ones. */
  lemma {:induction false} SystemTxsAtTheEnd(
    txs: seq<PayloadTx>, calls: seq<SystemCallRecord>, user: seq<PayloadTx>, j: nat)
    requires |txs| == |user| + |calls| && txs[..|user|] == user
    requires CarriesCalls(txs[|user|..], calls)
    requires forall i :: 0 <= i < |user| ==> !user[i].isSystemTx
    requires |user| <= j <= |txs|
    ensures GasOf(txs[..j]) == DeriveBorReceiptGas(GasOf(user), j - |user|)
    ensures forall i :: 0 <= i < |txs| ==> (IsBorSystemTx(i, |txs|, |calls|) <==> txs[i].isSystemTx)
  {
    assert forall i :: |user| <= i < |txs| ==> txs[i] == txs[|user|..][i - |user|];
    if j == |user| {
      assert txs[..j] == user;
    } else {
      SystemTxsAtTheEnd(txs, calls, user, j - 1);
      assert txs[..j][..j - 1] == txs[..j - 1];
    }
  }
}
