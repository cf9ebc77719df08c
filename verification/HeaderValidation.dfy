/** The standalone header checks, in the program's order. */
module HeaderValidation {
  import opened Difficulty
  import opened ExtraDataFormat
  import opened Primitives
  import opened RecentSigners

  const MAX_FUTURE_BLOCK_TIME: nat := 15

  /** Public-key recovery: a hash and a 65-byte signature to an address, or a failure. */
  type Recover = (B256, seq<Byte>) -> Option<Address>

  datatype HeaderParams = HeaderParams(
    number: nat,
    timestamp: U64,
    nonce: nat,
    mixHash: B256,
    difficulty: nat,
    extraData: seq<Byte>,
    gasLimit: nat,
    sealHash: B256,
    hasOmmers: bool)

  datatype ValidationError =
    | NonZeroNonce
    | NonZeroMixHash
    | NonEmptyOmmers
    | InvalidExtraData(error: ExtraDataError)
    | FutureBlock(blockTime: U64, now: U64)
    | SealError
    | UnauthorizedSigner(signer: Address)
    | SignedRecently(signer: Address)
    | WrongDifficulty(expected: nat, got: nat)

  /** The latest timestamp accepted at `now`; without overflow checks the sum wraps around. */
  function Deadline(now: U64): U64 {
    (now + MAX_FUTURE_BLOCK_TIME) % U64_LIMIT
  }

  predicate OnTime(timestamp: U64, now: U64) {
    timestamp <= Deadline(now)
  }

  /** Timestamps up to 15 seconds ahead are the accepted ones exactly while the sum fits; at the end
      of the 64-bit range even blocks of the present are taken for future ones. */
  lemma OnTimeIff(now: U64)
    ensures (forall t: U64 :: OnTime(t, now) <==> t <= now + MAX_FUTURE_BLOCK_TIME)
       <==> now + MAX_FUTURE_BLOCK_TIME < U64_LIMIT
    ensures OnTime(now, now) <==> now + MAX_FUTURE_BLOCK_TIME < U64_LIMIT
  {
    if now + MAX_FUTURE_BLOCK_TIME >= U64_LIMIT {
      assert Deadline(now) == now + MAX_FUTURE_BLOCK_TIME - U64_LIMIT;
      assert !OnTime(now, now);
    }
  }

  function ValidateHeader(h: HeaderParams, signers: seq<Address>, recents: Log, now: U64, recover: Recover)
    : Result<Address, ValidationError>
  {
    if h.nonce != 0 then Err(NonZeroNonce)
    else if h.mixHash != ZeroHash() then Err(NonZeroMixHash)
    else if h.hasOmmers then Err(NonEmptyOmmers)
    else
      match Parse(h.extraData)
      case Err(e) => Err(InvalidExtraData(e))
      case Ok(extra) =>
        if !OnTime(h.timestamp, now) then Err(FutureBlock(h.timestamp, now))
        else
          match recover(h.sealHash, extra.seal)
          case None => Err(SealError)
          case Some(signer) =>
            if signer !in signers then Err(UnauthorizedSigner(signer))
            else if RecentlySigned(recents, signer, h.number, |signers|) then Err(SignedRecently(signer))
            else
              var expected := CalculateDifficulty(signer, signers, h.number);
              if h.difficulty != expected then Err(WrongDifficulty(expected, h.difficulty))
              else Ok(signer)
  }

  /** The checks that do not involve the signer. */
  predicate Clean(h: HeaderParams, now: U64) {
    && h.nonce == 0
    && h.mixHash == ZeroHash()
    && !h.hasOmmers
    && Parse(h.extraData).Ok?
    && OnTime(h.timestamp, now)
  }

  /** Whoever sealed the header, if the seal can be read. */
  function Sealer(h: HeaderParams, recover: Recover): Option<Address> {
    match Parse(h.extraData)
    case Err(_) => None
    case Ok(extra) => recover(h.sealHash, extra.seal)
  }

  lemma ValidatesByParts(
    h: HeaderParams, signers: seq<Address>, recents: Log, now: U64, recover: Recover, s: Address)
    ensures ValidateHeader(h, signers, recents, now, recover) == Ok(s)
       <==> && Clean(h, now)
            && Sealer(h, recover) == Some(s)
            && s in signers
            && !RecentlySigned(recents, s, h.number, |signers|)
            && h.difficulty == CalculateDifficulty(s, signers, h.number)
  {
    hide CalculateDifficulty, RecentlySigned, Parse;
  }

  lemma SealerIff(h: HeaderParams, recover: Recover, s: Address)
    ensures Sealer(h, recover) == Some(s) <==>
      exists e: ExtraData ::
        WellFormed(e) && Print(e) == h.extraData && recover(h.sealHash, e.seal) == Some(s)
    ensures Sealer(h, recover) == Some(s) ==> Parse(h.extraData).Ok?
  {
    forall e: ExtraData ensures Parse(h.extraData) == Ok(e) <==> WellFormed(e) && Print(e) == h.extraData {
      ParseIffPrint(h.extraData, e);
    }
    hide Parse, WellFormed, Print;
  }

  /** A header validates with signer `s` exactly when nonce, mix hash and ommers are empty, it is on
      time, its extra data is a printed value whose seal recovers to `s`, `s` is authorised and
      signed none of the blocks in the window, and the difficulty is the one due to `s`. */
  lemma ValidatesIff(h: HeaderParams, signers: seq<Address>, recents: Log, now: U64, recover: Recover, s: Address)
    ensures ValidateHeader(h, signers, recents, now, recover) == Ok(s)
       <==> && h.nonce == 0 && h.mixHash == ZeroHash() && !h.hasOmmers
            && h.timestamp <= (now + 15) % 0x1_0000_0000_0000_0000
            && (exists e: ExtraData ::
                  WellFormed(e) && Print(e) == h.extraData && recover(h.sealHash, e.seal) == Some(s))
            && s in signers
            && (forall b :: h.number - (|signers| / 2 + 1) <= b < h.number && b in recents ==> recents[b] != s)
            && h.difficulty == CalculateDifficulty(s, signers, h.number)
  {
    ValidatesByParts(h, signers, recents, now, recover, s);
    SealerIff(h, recover, s);
    hide CalculateDifficulty, ValidateHeader, Sealer, Parse, WellFormed, Print;
  }

  /** The errors of all checks that fail, each judged on its own, in the order of the checks.  The
      checks on the signer apply when there is one. */
  function Failures(h: HeaderParams, signers: seq<Address>, recents: Log, now: U64, recover: Recover)
    : seq<ValidationError>
  {
    FailureIf(h.nonce != 0, NonZeroNonce)
    + FailureIf(h.mixHash != ZeroHash(), NonZeroMixHash)
    + FailureIf(h.hasOmmers, NonEmptyOmmers)
    + (match Parse(h.extraData) { case Err(e) => [InvalidExtraData(e)] case Ok(_) => [] })
    + FailureIf(!OnTime(h.timestamp, now), FutureBlock(h.timestamp, now))
    + match Sealer(h, recover) {
        case None => [SealError]
        case Some(s) =>
          var due := CalculateDifficulty(s, signers, h.number);
          FailureIf(s !in signers, UnauthorizedSigner(s))
          + FailureIf(RecentlySigned(recents, s, h.number, |signers|), SignedRecently(s))
          + FailureIf(h.difficulty != due, WrongDifficulty(due, h.difficulty))
      }
  }

  /** The outcome is determined: the first of all failures, or the sealer when there is none. */
  lemma ReportsFirstFailure(h: HeaderParams, signers: seq<Address>, recents: Log, now: U64, recover: Recover)
    ensures
      var failures := Failures(h, signers, recents, now, recover);
      if failures == [] then
        Sealer(h, recover).Some? && ValidateHeader(h, signers, recents, now, recover) == Ok(Sealer(h, recover).value)
      else ValidateHeader(h, signers, recents, now, recover) == Err(failures[0])
  {
    hide CalculateDifficulty, RecentlySigned, Parse;
  }

  /** A header that is right in everything but the recents window. */
  lemma OnlyWindowFails(h: HeaderParams, signers: seq<Address>, recents: Log, now: U64, recover: Recover, s: Address)
    requires Clean(h, now) && Sealer(h, recover) == Some(s) && s in signers
    requires h.difficulty == CalculateDifficulty(s, signers, h.number)
    requires RecentlySigned(recents, s, h.number, |signers|)
    ensures Failures(h, signers, recents, now, recover) == [SignedRecently(s)]
    ensures ValidateHeader(h, signers, recents, now, recover) == Err(SignedRecently(s))
  {
    ReportsFirstFailure(h, signers, recents, now, recover);
    hide CalculateDifficulty, RecentlySigned, Parse, Sealer, ValidateHeader, OnTime;
  }
}
