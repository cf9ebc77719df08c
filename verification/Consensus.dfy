/** The consensus engine: span cache and recents behind block validation, and its runs. */
module Consensus {
  import opened Admission
  import opened ExtraDataFormat
  import opened HeaderValidation
  import opened Primitives
  import opened RecentSigners
  import opened Seal
  import opened SpanCaching

  const CACHE_SIZE: nat := 64
  const SPAN_SIZE: nat := 6400

  datatype SealedBlock = SealedBlock(header: Header, hasOmmers: bool, hasWithdrawals: bool)

  datatype ConsensusError =
    | OmmersPresent
    | WithdrawalsPresent
    | BadExtraData
    | SealUnreadable
    | Unauthorized
    | SignedTooRecently

  /** What the engine remembers. */
  datatype Memory = Memory(cache: State, log: Log)

  /** The outcome of the checks before the span cache is consulted. */
  ghost function ReadSealer(b: SealedBlock, keccak: Keccak, recover: Recover): Result<Address, ConsensusError> {
    if b.hasOmmers then Err(OmmersPresent)
    else if b.hasWithdrawals then Err(WithdrawalsPresent)
    else
      match Parse(b.header.extraData)
      case Err(_) => Err(BadExtraData)
      case Ok(extra) =>
        match recover(keccak(SealPreimage(b.header)), extra.seal)
        case None => Err(SealUnreadable)
        case Some(signer) => Ok(signer)
  }

  /** The signers of the span that covers a block, if that span is cached. */
  function KnownSigners(cache: State, number: nat): Option<seq<Address>> {
    match Lookup(cache, SpanIdAt(number, SPAN_SIZE))
    case None => None
    case Some(span) => Some(Signers(span.validatorSet.validators))
  }

  /** The verdict on a block; without its span no signer check is made. */
  ghost function Verdict(m: Memory, b: SealedBlock, keccak: Keccak, recover: Recover): Result<(), ConsensusError> {
    match ReadSealer(b, keccak, recover)
    case Err(e) => Err(e)
    case Ok(signer) =>
      match KnownSigners(m.cache, b.header.number)
      case None => Ok(())
      case Some(signers) =>
        if signer !in signers then Err(Unauthorized)
        else if RecentlySigned(m.log, signer, b.header.number, |signers|) then Err(SignedTooRecently)
        else Ok(())
  }

  /** What is remembered after a block: the span counts as used once the seal was readable, the
      signer is recorded when the block passed with its span known. */
  ghost function Remembered(m: Memory, b: SealedBlock, keccak: Keccak, recover: Recover): Memory {
    match ReadSealer(b, keccak, recover)
    case Err(_) => m
    case Ok(signer) =>
      var id := SpanIdAt(b.header.number, SPAN_SIZE);
      var signers := KnownSigners(m.cache, b.header.number);
      Memory(
        Got(m.cache, id),
        if signers.Some? && Verdict(m, b, keccak, recover).Ok?
        then Record(m.log, b.header.number, signer, |signers.value|)
        else m.log)
  }

  class BorConsensus {
    const spanCache: SpanCache
    const recents: Recents

    ghost predicate Valid() {
      spanCache.maxSize == CACHE_SIZE
    }

    ghost function Value(): Memory
      reads spanCache, recents
    {
      Memory(spanCache.Value(), recents.signers)
    }

    constructor ()
      ensures Valid() && fresh(spanCache) && fresh(recents)
      ensures spanCache.maxSize == 64
      ensures Value() == Memory(EMPTY, map[])
    {
      spanCache := new SpanCache(CACHE_SIZE);
      recents := new Recents();
    }

    method InsertSpan(span: Span)
      requires Valid()
      modifies spanCache
      ensures spanCache.Value() == Inserted(old(spanCache.Value()), CACHE_SIZE, span)
    {
      spanCache.Insert(span);
    }

    method GetSpanForBlock(number: nat, spanSize: nat) returns (span: Option<Span>)
      requires spanSize > 0
      modifies spanCache
      ensures span == Lookup(old(spanCache.Value()), SpanIdAt(number, spanSize))
      ensures spanCache.Value() == Got(old(spanCache.Value()), SpanIdAt(number, spanSize))
    {
      span := spanCache.Get(SpanIdAt(number, spanSize));
    }

    /** Check and record are one step here; the program takes the lock twice. */
    method ValidateBlockPreExecution(b: SealedBlock, keccak: Keccak, recover: Recover)
      returns (r: Result<(), ConsensusError>)
      requires Valid()
      modifies spanCache, recents
      ensures r == Verdict(old(Value()), b, keccak, recover)
      ensures Value() == Remembered(old(Value()), b, keccak, recover)
    {
      if b.hasOmmers {
        return Err(OmmersPresent);
      }
      if b.hasWithdrawals {
        return Err(WithdrawalsPresent);
      }
      var extra := Parse(b.header.extraData);
      if extra.Err? {
        return Err(BadExtraData);
      }
      var sealHash := ComputeSealHash(b.header, keccak);
      var signer := recover(sealHash, extra.value.seal);
      if signer.None? {
        return Err(SealUnreadable);
      }
      var number := b.header.number;
      var span := GetSpanForBlock(number, SPAN_SIZE);
      if span.Some? {
        var signers := Signers(span.value.validatorSet.validators);
        if signer.value !in signers {
          return Err(Unauthorized);
        }
        var recent := recents.IsRecentlySigned(signer.value, number, |signers|);
        if recent {
          return Err(SignedTooRecently);
        }
        recents.AddSigner(number, signer.value);
        recents.Prune(number, |signers|);
      }
      return Ok(());
    }
  }

  // ---------------------------------------------------------------- one block

  /** Whose seal a block carries: a clean body, and extra data that is a printed value whose seal
      recovers to that signer. */
  lemma SealedByIff(b: SealedBlock, keccak: Keccak, recover: Recover, s: Address)
    ensures ReadSealer(b, keccak, recover) == Ok(s) <==>
      && !b.hasOmmers && !b.hasWithdrawals
      && exists e: ExtraData ::
          && WellFormed(e) && Print(e) == b.header.extraData
          && recover(keccak(SealPreimage(b.header)), e.seal) == Some(s)
  {
    forall e: ExtraData ensures Parse(b.header.extraData) == Ok(e) <==> WellFormed(e) && Print(e) == b.header.extraData {
      ParseIffPrint(b.header.extraData, e);
    }
    hide SealPreimage, Parse, WellFormed, Print;
  }

  /** All that is wrong with a block, each fault judged on its own, in the order of the checks: the
      seal can be read when the extra data can, and the signer is checked when its span is cached. */
  ghost function Faults(m: Memory, b: SealedBlock, keccak: Keccak, recover: Recover): seq<ConsensusError> {
    FailureIf(b.hasOmmers, OmmersPresent)
    + FailureIf(b.hasWithdrawals, WithdrawalsPresent)
    + match Parse(b.header.extraData) {
        case Err(_) => [BadExtraData]
        case Ok(e) =>
          match recover(keccak(SealPreimage(b.header)), e.seal)
          case None => [SealUnreadable]
          case Some(s) => SignerFaults(m, s, b.header.number)
      }
  }

  ghost function SignerFaults(m: Memory, s: Address, number: nat): seq<ConsensusError> {
    if number / 6400 !in m.cache.spans then []
    else
      var validators := m.cache.spans[number / 6400].validatorSet.validators;
      FailureIf(forall v :: v in validators ==> v.signer != s, Unauthorized)
      + FailureIf(
          exists h :: number - (|validators| / 2 + 1) <= h < number && h in m.log && m.log[h] == s,
          SignedTooRecently)
  }

  /** The verdict is the first fault, or acceptance when there is none. */
  lemma ReportsFirstFault(m: Memory, b: SealedBlock, keccak: Keccak, recover: Recover)
    ensures
      var faults := Faults(m, b, keccak, recover);
      Verdict(m, b, keccak, recover) == if faults == [] then Ok(()) else Err(faults[0])
  {
    hide SealPreimage, Parse;
  }

  /** What a block leaves behind: the cached spans stay, a readable block promotes its span, and just
      a block that passed with its span cached is recorded and the log cut at its window. */
  lemma MemoryAfterBlock(m: Memory, b: SealedBlock, keccak: Keccak, recover: Recover)
    ensures
      var m', sealer := Remembered(m, b, keccak, recover), ReadSealer(b, keccak, recover);
      var number, id := b.header.number, b.header.number / 6400;
      && m'.cache.spans == m.cache.spans
      && m'.cache.order == (if sealer.Ok? && id in m.cache.spans then Touched(m.cache.order, id) else m.cache.order)
      && if Verdict(m, b, keccak, recover).Ok? && id in m.cache.spans then
           var n := |m.cache.spans[id].validatorSet.validators|;
           && (forall h :: h in m'.log <==> (h == number || h in m.log) && h >= number - (n / 2 + 1))
           && (forall h :: h in m'.log ==> m'.log[h] == if h == number then sealer.value else m.log[h])
         else m'.log == m.log
  {
    hide ReadSealer, Touched;
  }

  // ---------------------------------------------------------------- runs

  /** What happens to an engine: spans arrive and blocks are validated, in any order. */
  datatype Event = SpanArrives(span: Span) | BlockArrives(block: SealedBlock)

  ghost function MemoryAfter(events: seq<Event>, keccak: Keccak, recover: Recover): Memory {
    if events == [] then Memory(EMPTY, map[])
    else
      var m := MemoryAfter(events[..|events| - 1], keccak, recover);
      match events[|events| - 1]
      case SpanArrives(span) => m.(cache := Inserted(m.cache, CACHE_SIZE, span))
      case BlockArrives(b) => Remembered(m, b, keccak, recover)
  }

  /** A span that arrives is cached under its id and changes nothing else the engine decides by. */
  lemma SpanArrivalIsCached(events: seq<Event>, span: Span, keccak: Keccak, recover: Recover)
    ensures
      var m := MemoryAfter(events, keccak, recover);
      var m' := MemoryAfter(events + [SpanArrives(span)], keccak, recover);
      && span.id in m'.cache.spans && m'.cache.spans[span.id] == span
      && (forall id :: id in m'.cache.spans && id != span.id ==>
            id in m.cache.spans && m'.cache.spans[id] == m.cache.spans[id])
      && m'.log == m.log
      && Recorded(events + [SpanArrives(span)], keccak, recover) == Recorded(events, keccak, recover)
  {
    assert (events + [SpanArrives(span)])[..|events|] == events;
    hide Remembered;
  }

  /** The blocks that passed with their span known, each with the signers it was checked against. */
  ghost function Recorded(events: seq<Event>, keccak: Keccak, recover: Recover): seq<Block> {
    if events == [] then []
    else
      var front := events[..|events| - 1];
      Recorded(front, keccak, recover)
      + RecordedBy(MemoryAfter(front, keccak, recover), events[|events| - 1], keccak, recover)
  }

  ghost function RecordedBy(m: Memory, e: Event, keccak: Keccak, recover: Recover): seq<Block> {
    match e
    case SpanArrives(_) => []
    case BlockArrives(b) =>
      var signers := KnownSigners(m.cache, b.header.number);
      if Verdict(m, b, keccak, recover).Ok? && signers.Some?
      then [Block(b.header.number, ReadSealer(b, keccak, recover).value, signers.value)]
      else []
  }

  /** A run gains a block exactly when one passes with its span cached. */
  lemma RecordedByBlock(m: Memory, b: SealedBlock, keccak: Keccak, recover: Recover)
    ensures
      var id := b.header.number / 6400;
      RecordedBy(m, BlockArrives(b), keccak, recover)
      == if Verdict(m, b, keccak, recover).Ok? && id in m.cache.spans then
           var signers := Signers(m.cache.spans[id].validatorSet.validators);
           [Block(b.header.number, ReadSealer(b, keccak, recover).value, signers)]
         else []
  {
    hide ReadSealer, Verdict;
    assert Verdict(m, b, keccak, recover).Ok? ==> ReadSealer(b, keccak, recover).Ok? by {
      VerdictNeedsSealer(m, b, keccak, recover);
    }
  }

  lemma VerdictNeedsSealer(m: Memory, b: SealedBlock, keccak: Keccak, recover: Recover)
    ensures Verdict(m, b, keccak, recover).Ok? ==> ReadSealer(b, keccak, recover).Ok?
  {
    hide ReadSealer;
  }

  lemma RecordedIsAccepted(m: Memory, e: Event, run: seq<Block>, keccak: Keccak, recover: Recover)
    requires Accepted(run) && m.log == KeptLog(run)
    ensures
      var run' := run + RecordedBy(m, e, keccak, recover);
      && Accepted(run')
      && (e.BlockArrives? ==> Remembered(m, e.block, keccak, recover).log == KeptLog(run'))
      && (e.SpanArrives? ==> run' == run)
  {
    hide Accepted, KeptLog, ReadSealer, KnownSigners, Record;
    var added := RecordedBy(m, e, keccak, recover);
    if added == [] {
      assert run + added == run;
    } else {
      Extend(run, added[0]);
      assert added == [added[0]];
    }
  }

  /** Whatever the order of span arrivals and validations, the recorded blocks form an accepted
      run and the engine's log is the log of that run. */
  lemma {:induction false} EngineRunIsAdmissionRun(events: seq<Event>, keccak: Keccak, recover: Recover)
    ensures Accepted(Recorded(events, keccak, recover))
    ensures MemoryAfter(events, keccak, recover).log == KeptLog(Recorded(events, keccak, recover))
  {
    hide Remembered, RecordedBy, Inserted;
    if events == [] {
      ExtendEmpty();
    } else {
      var front, last := events[..|events| - 1], events[|events| - 1];
      EngineRunIsAdmissionRun(front, keccak, recover);
      hide Accepted, KeptLog;
      RecordedIsAccepted(MemoryAfter(front, keccak, recover), last, Recorded(front, keccak, recover), keccak, recover);
    }
  }

  /** Engine safety, for any order of spans, blocks and heights: a recorded block differs in signer
      from every earlier recorded one in its window that is still in force. */
  lemma EngineNeverRepeatsSigner(events: seq<Event>, keccak: Keccak, recover: Recover, i: nat, j: nat)
    requires
      var run := Recorded(events, keccak, recover);
      && i < j < |run| && Live(run[..j], i)
      && CutoffOf(run[j]) <= run[i].height < run[j].height
    ensures Recorded(events, keccak, recover)[i].signer != Recorded(events, keccak, recover)[j].signer
  {
    EngineRunIsAdmissionRun(events, keccak, recover);
    hide Recorded;
    NoRepeatWhileLive(Recorded(events, keccak, recover), i, j);
  }

  /** When a block passes, said without the program's order of checks: no ommers, no withdrawals,
      extra data that is a printed value whose seal recovers to some signer and, if the span is
      cached, that signer is in its set and signed none of the blocks in the window. */
  lemma PassesIff(m: Memory, b: SealedBlock, keccak: Keccak, recover: Recover)
    ensures Verdict(m, b, keccak, recover).Ok? <==>
      && !b.hasOmmers && !b.hasWithdrawals
      && exists e: ExtraData, s: Address ::
          && WellFormed(e) && Print(e) == b.header.extraData
          && recover(keccak(SealPreimage(b.header)), e.seal) == Some(s)
          && MaySign(m, s, b.header.number)
  {
    hide SealPreimage;
    forall e: ExtraData ensures Parse(b.header.extraData) == Ok(e) <==> WellFormed(e) && Print(e) == b.header.extraData {
      ParseIffPrint(b.header.extraData, e);
    }
  }

  ghost predicate MaySign(m: Memory, s: Address, number: nat) {
    var id := number / 6400;
    id in m.cache.spans ==>
      var validators := m.cache.spans[id].validatorSet.validators;
      && (exists v :: v in validators && v.signer == s)
      && forall h :: number - (|validators| / 2 + 1) <= h < number && h in m.log ==> m.log[h] != s
  }

  /** A block from outside the set passes if and only if its span is missing, and it then leaves no
      trace in the log; no block ever adds or evicts a span. */
  lemma UnauthorizedPassesIff(m: Memory, b: SealedBlock, keccak: Keccak, recover: Recover)
    requires ReadSealer(b, keccak, recover).Ok?
    requires
      var signers := KnownSigners(m.cache, b.header.number);
      signers.Some? ==> ReadSealer(b, keccak, recover).value !in signers.value
    ensures Verdict(m, b, keccak, recover).Ok? <==> SpanIdAt(b.header.number, SPAN_SIZE) !in m.cache.spans
    ensures Remembered(m, b, keccak, recover).log == m.log
    ensures Remembered(m, b, keccak, recover).cache.spans == m.cache.spans
  {
    hide ReadSealer;
  }
}
