/** The body checks and the span-start rule. */
module BlockValidation {
  import opened Arithmetic
  import opened ExtraDataFormat
  import opened Primitives

  datatype BlockError =
    | NonEmptyOmmers
    | NonEmptyWithdrawals
    | InvalidExtraData
    | MissingValidatorsAtSpanStart(number: nat)

  predicate IsSpanStart(number: nat, spanSize: nat)
    requires number > 0 ==> spanSize > 0
  {
    number > 0 && number % spanSize == 0
  }

  /** A zero span size panics in the program as soon as it is used as a divisor. */
  function ValidateBlockPreExecution(
      number: nat,
      extra: seq<Byte>,
      hasOmmers: bool,
      hasWithdrawals: bool,
      spanSize: nat,
      expected: Option<seq<Address>>): Result<(), BlockError>
    requires number > 0 ==> spanSize > 0
  {
    if hasOmmers then Err(NonEmptyOmmers)
    else if hasWithdrawals then Err(NonEmptyWithdrawals)
    else if !IsSpanStart(number, spanSize) then Ok(())
    else
      match Parse(extra)
      case Err(_) => Err(InvalidExtraData)
      case Ok(parsed) =>
        var validators := Decode(parsed.validatorBytes);
        if |validators| == 0 then Err(MissingValidatorsAtSpanStart(number))
        else if expected.Some? && |validators| != |expected.value| then Err(InvalidExtraData)
        else if expected.Some? && exists i :: 0 <= i < |validators| && validators[i] != expected.value[i]
        then Err(InvalidExtraData)
        else Ok(())
  }

  /** The extra data is 32 bytes, then the encoding of a non-empty list, then 65 bytes; the list
      is the expected one if there is an expectation. */
  ghost predicate Announces(extra: seq<Byte>, expected: Option<seq<Address>>) {
    exists vanity: B256, list: seq<Address>, seal: seq<Byte> ::
      && IsAnnouncement(extra, vanity, list, seal)
      && (expected.Some? ==> list == expected.value)
  }

  ghost predicate IsAnnouncement(extra: seq<Byte>, vanity: B256, list: seq<Address>, seal: seq<Byte>) {
    list != [] && |seal| == SEAL_LEN && extra == vanity + Encode(list) + seal
  }

  /** The verdict, said by the span that holds the block: at the first block of a span after the
      first one the extra data has to announce validators, elsewhere anything goes.  The error for
      a missing list is exactly bare extra data. */
  lemma AcceptedIff(
      number: nat,
      extra: seq<Byte>,
      hasOmmers: bool,
      hasWithdrawals: bool,
      spanSize: nat,
      expected: Option<seq<Address>>)
    requires number > 0 ==> spanSize > 0
    ensures
      var r := ValidateBlockPreExecution(number, extra, hasOmmers, hasWithdrawals, spanSize, expected);
      var starts := number > 0 && SpanIdAt(number, spanSize) * spanSize == number;
      var bodyOk := !hasOmmers && !hasWithdrawals;
      && (r.Ok? <==> bodyOk && (starts ==> Announces(extra, expected)))
      && (r == Err(NonEmptyOmmers) <==> hasOmmers)
      && (r == Err(NonEmptyWithdrawals) <==> !hasOmmers && hasWithdrawals)
      && (r == Err(MissingValidatorsAtSpanStart(number)) <==> bodyOk && starts && |extra| == 97)
      && (r == Err(InvalidExtraData) <==> bodyOk && starts && |extra| != 97 && !Announces(extra, expected))
  {
    AnnouncesIffDecodes(extra, expected);
    SpanStartIff(number, spanSize);
    hide IsSpanStart, Announces, Parse, Decode, SpanIdAt;
  }

  lemma SpanStartIff(number: nat, spanSize: nat)
    requires number > 0 ==> spanSize > 0
    ensures IsSpanStart(number, spanSize) <==> number > 0 && SpanIdAt(number, spanSize) * spanSize == number
  {
    if number > 0 {
      assert number == spanSize * SpanIdAt(number, spanSize) + number % spanSize;
    }
  }

  lemma AnnouncesIffDecodes(extra: seq<Byte>, expected: Option<seq<Address>>)
    ensures Announces(extra, expected) <==>
      && Parse(extra).Ok?
      && var list := Decode(Parse(extra).value.validatorBytes);
         list != [] && (expected.Some? ==> list == expected.value)
    ensures Parse(extra).Ok? && Decode(Parse(extra).value.validatorBytes) == [] <==> |extra| == MIN_LEN
  {
    if vanity: B256, list: seq<Address>, seal: seq<Byte> :|
      IsAnnouncement(extra, vanity, list, seal) && (expected.Some? ==> list == expected.value)
    {
      EncodedLength(list);
      ModOfMultiple(ADDRESS_LEN, |list|);
      ParseIffPrint(extra, ExtraData(vanity, Encode(list), seal));
      DecodeOfEncode(list);
    }
    if Parse(extra).Ok? {
      var e := Parse(extra).value;
      ParseIffPrint(extra, e);
      EncodeOfDecode(e.validatorBytes);
      var list := Decode(e.validatorBytes);
      if list != [] {
        assert IsAnnouncement(extra, e.vanity, list, e.seal);
      }
    }
  }
}
