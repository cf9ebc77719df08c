/** Chains of validated headers and their total difficulty. */
module InTurnChain {
  import opened Admission
  import opened Arithmetic
  import opened Difficulty
  import opened HeaderValidation
  import opened Primitives
  import opened RecentSigners
  import opened Snapshot

  /** The clock reading at which each height is validated. */
  type Clock = nat -> U64

  /** The snapshot's log after the headers of a chain; a header without a sealer adds nothing. */
  function LogAfter(chain: seq<HeaderParams>, signers: seq<Address>, recover: Recover): Log {
    if chain == [] then map[]
    else Noted(LogAfter(chain[..|chain| - 1], signers, recover), chain[|chain| - 1], signers, recover)
  }

  function Noted(log: Log, h: HeaderParams, signers: seq<Address>, recover: Recover): Log {
    match Sealer(h, recover)
    case None => log
    case Some(signer) => Applied(log, h.number, signer, |signers|)
  }

  /** Consecutive headers from height `start` that all validate, starting from an empty log. */
  predicate AcceptedChain(
    chain: seq<HeaderParams>, signers: seq<Address>, start: nat, clock: Clock, recover: Recover)
  {
    chain == [] ||
    var front, h := chain[..|chain| - 1], chain[|chain| - 1];
    && AcceptedChain(front, signers, start, clock, recover)
    && h.number == start + |front|
    && ValidateHeader(h, signers, LogAfter(front, signers, recover), clock(h.number), recover).Ok?
  }

  function TotalDifficulty(chain: seq<HeaderParams>): nat {
    if chain == [] then 0
    else TotalDifficulty(chain[..|chain| - 1]) + chain[|chain| - 1].difficulty
  }

  /** Header `k` carries the seal of the signer whose turn its height is. */
  predicate SealedInTurn(h: HeaderParams, signers: seq<Address>, height: nat, recover: Recover) {
    |signers| > 0 && Sealer(h, recover) == Some(signers[height % |signers|])
  }

  /** Every header has its height, passes the signer-independent checks, claims full difficulty
      and is sealed by the signer whose turn it is. */
  predicate AllInTurn(
    chain: seq<HeaderParams>, signers: seq<Address>, start: nat, clock: Clock, recover: Recover)
  {
    forall k :: 0 <= k < |chain| ==>
      && chain[k].number == start + k
      && Clean(chain[k], clock(start + k))
      && chain[k].difficulty == |signers|
      && SealedInTurn(chain[k], signers, start + k, recover)
  }

  // ---------------------------------------------------------------- one header

  /** What validation says about one header, in terms of its block and its weight. */
  lemma WeightOfHeader(h: HeaderParams, signers: seq<Address>, log: Log, now: U64, recover: Recover)
    requires NoDuplicates(signers) && ValidateHeader(h, signers, log, now, recover).Ok?
    ensures h.difficulty <= |signers|
    ensures h.difficulty == |signers| <==> SealedInTurn(h, signers, h.number, recover)
  {
    hide CalculateDifficulty, ValidateHeader;
    var signer := ValidateHeader(h, signers, log, now, recover).value;
    ValidatesByParts(h, signers, log, now, recover, signer);
    FullDifficultyIffInturn(signers, signer, h.number);
  }

  /** A validated header is an accepted block, and noting it records the block. */
  lemma HeaderIsBlock(h: HeaderParams, signers: seq<Address>, log: Log, now: U64, recover: Recover)
    requires ValidateHeader(h, signers, log, now, recover).Ok?
    ensures Sealer(h, recover).Some?
    ensures Accepts(log, Block(h.number, Sealer(h, recover).value, signers))
    ensures Noted(log, h, signers, recover)
         == Record(log, h.number, Sealer(h, recover).value, |signers|)
  {
    hide CalculateDifficulty, ValidateHeader;
    ValidatesByParts(h, signers, log, now, recover, ValidateHeader(h, signers, log, now, recover).value);
  }

  // ---------------------------------------------------------------- weight

  /** No accepted chain outweighs the in-turn one, and only in-turn chains match it: `k` accepted
      blocks weigh at most n * k, with equality just when every sealer was in turn. */
  lemma {:induction false} HeaviestIffInTurn(
    chain: seq<HeaderParams>, signers: seq<Address>, start: nat, clock: Clock, recover: Recover)
    requires NoDuplicates(signers) && AcceptedChain(chain, signers, start, clock, recover)
    ensures TotalDifficulty(chain) <= |signers| * |chain|
    ensures TotalDifficulty(chain) == |signers| * |chain|
       <==> forall k :: 0 <= k < |chain| ==> SealedInTurn(chain[k], signers, start + k, recover)
  {
    hide ValidateHeader, LogAfter, SealedInTurn;
    if chain == [] {
    } else {
      var front, h := chain[..|chain| - 1], chain[|chain| - 1];
      HeaviestIffInTurn(front, signers, start, clock, recover);
      WeightOfHeader(h, signers, LogAfter(front, signers, recover), clock(h.number), recover);
      OneFactorMore(|signers|, |chain|);
      assert forall k :: 0 <= k < |front| ==> chain[k] == front[k];
    }
  }

  lemma OneFactorMore(n: int, k: int)
    ensures n * k == n * (k - 1) + n
  {
  }

  // ---------------------------------------------------------------- acceptance

  /** What the log of a chain can hold: sealers of its own headers at their heights. */
  lemma {:induction false} LogHoldsSealer(
    chain: seq<HeaderParams>, signers: seq<Address>, start: nat, recover: Recover, b: nat)
    requires forall k :: 0 <= k < |chain| ==> chain[k].number == start + k
    requires b in LogAfter(chain, signers, recover)
    ensures start <= b < start + |chain|
    ensures Sealer(chain[b - start], recover) == Some(LogAfter(chain, signers, recover)[b])
  {
    hide Sealer;
    var front, h := chain[..|chain| - 1], chain[|chain| - 1];
    if b in LogAfter(front, signers, recover) {
      LogHoldsSealer(front, signers, start, recover, b);
    }
  }

  /** Heights less than n apart belong to different turns. */
  lemma TurnsDiffer(a: nat, b: nat, n: nat)
    requires 0 < n && a < b < a + n
    ensures a % n != b % n
  {
    var q, r := a / n, a % n;
    assert a == n * q + r;
    if r + (b - a) < n {
      DivModUnique(b, n, q, r + (b - a));
    } else {
      assert n * (q + 1) == n * q + n;
      DivModUnique(b, n, q + 1, r + (b - a) - n);
    }
  }

  /** The signers of two turns inside one window differ, from three signers on or near the start. */
  lemma EarlierTurn(signers: seq<Address>, b: nat, height: nat, start: nat)
    requires NoDuplicates(signers) && |signers| > 0
    requires start <= b < height && Cutoff(height, |signers|) <= b
    requires |signers| >= 3 || height - start < |signers|
    ensures signers[b % |signers|] != signers[height % |signers|]
  {
    TurnsDiffer(b, height, |signers|);
    var i, j := b % |signers|, height % |signers|;
    assert i != j && i < |signers| && j < |signers|;
  }

  lemma InTurnSignerIsFree(
    chain: seq<HeaderParams>, signers: seq<Address>, start: nat, clock: Clock, recover: Recover)
    requires NoDuplicates(signers) && |signers| > 0
    requires AllInTurn(chain, signers, start, clock, recover)
    requires |signers| >= 3 || |chain| < |signers|
    ensures
      var n, height := |signers|, start + |chain|;
      !RecentlySigned(LogAfter(chain, signers, recover), signers[height % n], height, n)
  {
    hide LogAfter, Sealer, Clean, NoDuplicates;
    var n, height := |signers|, start + |chain|;
    var log := LogAfter(chain, signers, recover);
    forall b | Cutoff(height, n) <= b < height && b in log
      ensures log[b] != signers[height % n]
    {
      LogHoldsSealer(chain, signers, start, recover, b);
      var k := b - start;
      assert SealedInTurn(chain[k], signers, start + k, recover);
      EarlierTurn(signers, b, height, start);
    }
  }

  lemma {:induction false} InTurnIsAccepted(
    chain: seq<HeaderParams>, signers: seq<Address>, start: nat, clock: Clock, recover: Recover)
    requires NoDuplicates(signers) && |signers| > 0
    requires AllInTurn(chain, signers, start, clock, recover)
    requires |signers| >= 3 || |chain| <= |signers|
    ensures AcceptedChain(chain, signers, start, clock, recover)
  {
    hide ValidateHeader, LogAfter, RecentlySigned, CalculateDifficulty, Clean, Sealer;
    if chain == [] {
    } else {
      var front, h := chain[..|chain| - 1], chain[|chain| - 1];
      assert AllInTurn(front, signers, start, clock, recover);
      InTurnIsAccepted(front, signers, start, clock, recover);
      InTurnSignerIsFree(front, signers, start, clock, recover);
      assert h.number == start + |front| && SealedInTurn(h, signers, h.number, recover);
      var signer := signers[h.number % |signers|];
      FullDifficultyIffInturn(signers, signer, h.number);
      ValidatesByParts(h, signers, LogAfter(front, signers, recover), clock(h.number), recover, signer);
    }
  }

  // ---------------------------------------------------------------- chains are runs

  /** The sealers of an accepted chain. */
  function Sealers(chain: seq<HeaderParams>, recover: Recover): (r: seq<Address>)
    requires forall k :: 0 <= k < |chain| ==> Sealer(chain[k], recover).Some?
    ensures |r| == |chain|
    ensures forall k :: 0 <= k < |r| ==> r[k] == Sealer(chain[k], recover).value
  {
    seq(|chain|, k requires 0 <= k < |chain| => Sealer(chain[k], recover).value)
  }

  lemma SealersExtend(chain: seq<HeaderParams>, recover: Recover)
    requires chain != [] && forall k :: 0 <= k < |chain| ==> Sealer(chain[k], recover).Some?
    ensures Sealers(chain, recover)
         == Sealers(chain[..|chain| - 1], recover) + [Sealer(chain[|chain| - 1], recover).value]
  {
    hide Sealer;
  }

  /** An accepted chain is an accepted run of its sealers, and the snapshot keeps the run's log. */
  lemma {:induction false} ChainIsRun(
    chain: seq<HeaderParams>, signers: seq<Address>, start: nat, clock: Clock, recover: Recover)
    requires AcceptedChain(chain, signers, start, clock, recover)
    ensures forall k :: 0 <= k < |chain| ==> Sealer(chain[k], recover).Some?
    ensures Accepted(FixedRun(signers, start, Sealers(chain, recover)))
    ensures LogAfter(chain, signers, recover) == KeptLog(FixedRun(signers, start, Sealers(chain, recover)))
  {
    hide ValidateHeader, Sealer, Noted, KeptLog, Accepted, Record, Accepts;
    assert KeptLog([]) == map[] && Accepted([]) by {
      ExtendEmpty();
    }
    if chain == [] {
      assert FixedRun(signers, start, Sealers(chain, recover)) == [];
    } else {
      hide FixedRun, Sealers;
      var front, h := chain[..|chain| - 1], chain[|chain| - 1];
      ChainIsRun(front, signers, start, clock, recover);
      HeaderIsBlock(h, signers, LogAfter(front, signers, recover), clock(h.number), recover);
      var before := FixedRun(signers, start, Sealers(front, recover));
      var b := Block(h.number, Sealer(h, recover).value, signers);
      SealersExtend(chain, recover);
      FixedRunExtends(signers, start, Sealers(front, recover), b.signer);
      Extend(before, b);
    }
  }

  /** The in-turn chain is accepted at every height exactly when there are at least three signers;
      with one or two it is stopped after as many blocks. */
  lemma InTurnAcceptedIff(
    chain: seq<HeaderParams>, signers: seq<Address>, start: nat, clock: Clock, recover: Recover)
    requires NoDuplicates(signers) && |signers| > 0
    requires AllInTurn(chain, signers, start, clock, recover)
    ensures AcceptedChain(chain, signers, start, clock, recover)
       <==> |signers| >= 3 || |chain| <= |signers|
  {
    var n := |signers|;
    if n >= 3 || |chain| <= n {
      InTurnIsAccepted(chain, signers, start, clock, recover);
    } else {
      SmallSetStopsInTurn(chain, signers, start, clock, recover);
    }
  }

  lemma SmallSetStopsInTurn(
    chain: seq<HeaderParams>, signers: seq<Address>, start: nat, clock: Clock, recover: Recover)
    requires 1 <= |signers| <= 2 && |chain| > |signers|
    requires AllInTurn(chain, signers, start, clock, recover)
    ensures !AcceptedChain(chain, signers, start, clock, recover)
  {
    hide AcceptedChain, Clean, Sealer, Accepted, KeptLog, LogAfter;
    if AcceptedChain(chain, signers, start, clock, recover) {
      var n := |signers|;
      ChainIsRun(chain, signers, start, clock, recover);
      var run := FixedRun(signers, start, Sealers(chain, recover));
      FixedRunIsSteady(signers, start, Sealers(chain, recover));
      assert SealedInTurn(chain[0], signers, start + 0, recover);
      assert SealedInTurn(chain[n], signers, start + n, recover);
      TurnComesBack(start, n);
      NoRepeatInWindow(run, 0, n);
      assert false;
    }
  }

  /** What stops it is the recents window and nothing else: of all checks on the next in-turn header,
      only that one fails, and so it is the error reported. */
  lemma StoppedByWindowAlone(
    chain: seq<HeaderParams>, next: HeaderParams, signers: seq<Address>, start: nat, clock: Clock, recover: Recover)
    requires NoDuplicates(signers) && 1 <= |signers| <= 2 && |chain| == |signers|
    requires AllInTurn(chain + [next], signers, start, clock, recover)
    ensures
      var log, now := LogAfter(chain, signers, recover), clock(start + |chain|);
      var error := SignedRecently(signers[start % |signers|]);
      && Failures(next, signers, log, now, recover) == [error]
      && ValidateHeader(next, signers, log, now, recover) == Err(error)
  {
    hide LogAfter, CalculateDifficulty, RecentlySigned, AllInTurn, Clean, Sealer, ValidateHeader, Failures;
    var n, signer := |signers|, signers[start % |signers|];
    LastInTurn(chain, next, signers, start, clock, recover);
    FirstSealerIsRecent(chain, signers, start, clock, recover);
    TurnComesBack(start, n);
    FullDifficultyIffInturn(signers, signer, next.number);
    OnlyWindowFails(next, signers, LogAfter(chain, signers, recover), clock(start + n), recover, signer);
  }

  lemma LastInTurn(
    chain: seq<HeaderParams>, next: HeaderParams, signers: seq<Address>, start: nat, clock: Clock, recover: Recover)
    requires AllInTurn(chain + [next], signers, start, clock, recover)
    ensures AllInTurn(chain, signers, start, clock, recover)
    ensures next.number == start + |chain| && Clean(next, clock(start + |chain|))
    ensures next.difficulty == |signers| && SealedInTurn(next, signers, start + |chain|, recover)
  {
    hide Clean, SealedInTurn;
    var all := chain + [next];
    assert all[|chain|] == next && forall k :: 0 <= k < |chain| ==> all[k] == chain[k];
  }

  lemma FirstSealerIsRecent(
    chain: seq<HeaderParams>, signers: seq<Address>, start: nat, clock: Clock, recover: Recover)
    requires NoDuplicates(signers) && 1 <= |signers| <= 2 && |chain| == |signers|
    requires AllInTurn(chain, signers, start, clock, recover)
    ensures RecentlySigned(LogAfter(chain, signers, recover), signers[start % |signers|], start + |signers|, |signers|)
  {
    var n, signer := |signers|, signers[start % |signers|];
    assert SealedInTurn(chain[0], signers, start + 0, recover);
    hide AcceptedChain, Clean, Sealer, KeptLog, LogAfter, Accepted, AllInTurn;
    InTurnIsAccepted(chain, signers, start, clock, recover);
    ChainIsRun(chain, signers, start, clock, recover);
    var run := FixedRun(signers, start, Sealers(chain, recover));
    hide Sealers;
    FirstStaysInForce(run, signers, start, signer);
  }

  lemma FirstStaysInForce(run: seq<Block>, signers: seq<Address>, start: nat, signer: Address)
    requires 1 <= |run| == |signers| <= 2 && run[0].signer == signer
    requires forall k :: 0 <= k < |run| ==> run[k].height == start + k && run[k].signers == signers
    ensures RecentlySigned(KeptLog(run), signer, start + |signers|, |signers|)
  {
    hide KeptLog;
    assert Live(run, 0);
    KeptHoldsIff(run, start, signer);
    assert LiveSigner(run, start, signer);
  }

  lemma TurnComesBack(a: nat, n: nat)
    requires n > 0
    ensures (a + n) % n == a % n
  {
    assert a + n == n * (a / n + 1) + a % n;
    DivModUnique(a + n, n, a / n + 1, a % n);
  }

  /** Fork choice: with three or more signers the in-turn chain is accepted, and it is strictly
      heavier than every other accepted chain over the same heights with a sealer out of turn. */
  lemma InTurnIsUniqueHeaviest(
    inTurn: seq<HeaderParams>, other: seq<HeaderParams>,
    signers: seq<Address>, start: nat, clock: Clock, recover: Recover)
    requires NoDuplicates(signers) && |signers| >= 3 && |other| == |inTurn|
    requires AllInTurn(inTurn, signers, start, clock, recover)
    requires AcceptedChain(other, signers, start, clock, recover)
    ensures AcceptedChain(inTurn, signers, start, clock, recover)
    ensures TotalDifficulty(inTurn) == |signers| * |inTurn|
    ensures TotalDifficulty(other) < TotalDifficulty(inTurn)
       <==> exists k :: 0 <= k < |other| && !SealedInTurn(other[k], signers, start + k, recover)
  {
    InTurnIsAccepted(inTurn, signers, start, clock, recover);
    HeaviestIffInTurn(inTurn, signers, start, clock, recover);
    HeaviestIffInTurn(other, signers, start, clock, recover);
  }
}
