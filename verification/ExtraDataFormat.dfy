/** Header extra data: 32 bytes of vanity, 20 bytes per validator, 65 bytes of seal. */
module ExtraDataFormat {
  import opened Primitives

  const VANITY_LEN: nat := 32
  const SEAL_LEN: nat := 65
  const MIN_LEN: nat := VANITY_LEN + SEAL_LEN
  const ADDRESS_LEN: nat := 20

  datatype ExtraDataError = TooShort(len: nat) | InvalidValidatorBytes(len: nat)

  datatype ExtraData = ExtraData(vanity: B256, validatorBytes: seq<Byte>, seal: seq<Byte>)

  function Parse(extra: seq<Byte>): Result<ExtraData, ExtraDataError> {
    if |extra| < MIN_LEN then Err(TooShort(|extra|))
    else
      var len := |extra| - VANITY_LEN - SEAL_LEN;
      if len % ADDRESS_LEN != 0 then Err(InvalidValidatorBytes(len))
      else Ok(ExtraData(
        extra[..VANITY_LEN],
        extra[VANITY_LEN..VANITY_LEN + len],
        extra[|extra| - SEAL_LEN..]))
  }

  /** The bytes a parsed value stands for. */
  function Print(e: ExtraData): seq<Byte> {
    e.vanity + e.validatorBytes + e.seal
  }

  /** The values that parsing can produce. */
  predicate WellFormed(e: ExtraData) {
    |e.validatorBytes| % ADDRESS_LEN == 0 && |e.seal| == SEAL_LEN
  }

  /** Parsing and printing are inverse: bytes parse to `e` exactly when `e` prints them. */
  lemma ParseIffPrint(extra: seq<Byte>, e: ExtraData)
    ensures Parse(extra) == Ok(e) <==> WellFormed(e) && Print(e) == extra
  {
    if Parse(extra) == Ok(e) {
      assert extra == Print(e);
    }
    if WellFormed(e) && Print(e) == extra {
      var len := |e.validatorBytes|;
      assert extra[..VANITY_LEN] == e.vanity;
      assert extra[VANITY_LEN..VANITY_LEN + len] == e.validatorBytes;
      assert extra[VANITY_LEN + len..] == e.seal;
    }
  }

  /** Parsing fails exactly on the lengths that no well-formed value prints. */
  lemma ParseFailsIff(extra: seq<Byte>)
    ensures Parse(extra).Err? <==> forall e :: WellFormed(e) ==> Print(e) != extra
  {
    if Parse(extra).Ok? {
      ParseIffPrint(extra, Parse(extra).value);
    } else {
      forall e | WellFormed(e) ensures Print(e) != extra {
        ParseIffPrint(extra, e);
      }
    }
  }

  /** Which error: too short for vanity and seal, or a rest that is not whole addresses. */
  lemma ParseErrorIs(extra: seq<Byte>, n: nat)
    ensures Parse(extra) == Err(TooShort(n)) <==> n == |extra| < 97
    ensures Parse(extra) == Err(InvalidValidatorBytes(n)) <==> n == |extra| - 97 && n % 20 != 0
  {
  }

  // ---------------------------------------------------------------- validator bytes

  /** `chunks_exact(20)`: whole addresses from the front, a shorter rest is dropped. */
  function Decode(bytes: seq<Byte>): seq<Address> {
    if |bytes| < ADDRESS_LEN then []
    else [bytes[..ADDRESS_LEN]] + Decode(bytes[ADDRESS_LEN..])
  }

  /** The addresses laid end to end. */
  function Encode(addresses: seq<Address>): seq<Byte> {
    if addresses == [] then []
    else Encode(addresses[..|addresses| - 1]) + addresses[|addresses| - 1]
  }

  /** Builds the encoding the way the program does, one signer after the other. */
  method EncodeValidatorBytes(validators: seq<Validator>) returns (bytes: seq<Byte>)
    ensures bytes == Encode(Signers(validators))
  {
    bytes := [];
    for i := 0 to |validators|
      invariant bytes == Encode(Signers(validators[..i]))
    {
      bytes := bytes + validators[i].signer;
      assert Signers(validators[..i + 1])[..i] == Signers(validators[..i]);
    }
    assert validators[..|validators|] == validators;
  }

  lemma {:induction false} EncodedLength(addresses: seq<Address>)
    ensures |Encode(addresses)| == ADDRESS_LEN * |addresses|
  {
    if addresses == [] {
    } else {
      EncodedLength(addresses[..|addresses| - 1]);
    }
  }

  lemma {:induction false} EncodeFromFront(a: Address, rest: seq<Address>)
    ensures Encode([a] + rest) == a + Encode(rest)
  {
    if rest == [] {
      assert ([a] + rest)[..0] == [];
    } else {
      var front := rest[..|rest| - 1];
      assert ([a] + rest)[..|rest|] == [a] + front;
      EncodeFromFront(a, front);
    }
  }

  lemma {:induction false} DecodeOfEncode(addresses: seq<Address>)
    ensures Decode(Encode(addresses)) == addresses
  {
    if addresses == [] {
    } else {
      var a, rest := addresses[0], addresses[1..];
      assert [a] + rest == addresses;
      EncodeFromFront(a, rest);
      assert (a + Encode(rest))[..ADDRESS_LEN] == a;
      assert (a + Encode(rest))[ADDRESS_LEN..] == Encode(rest);
      DecodeOfEncode(rest);
    }
  }

  lemma {:induction false} EncodeOfDecode(bytes: seq<Byte>)
    requires |bytes| % ADDRESS_LEN == 0
    ensures Encode(Decode(bytes)) == bytes
  {
    if bytes == [] {
    } else {
      EncodeOfDecode(bytes[ADDRESS_LEN..]);
      EncodeFromFront(bytes[..ADDRESS_LEN], Decode(bytes[ADDRESS_LEN..]));
    }
  }

  /** Decoding reads from the front and drops what is too short for an address. */
  lemma {:induction false} DecodeDropsRest(addresses: seq<Address>, rest: seq<Byte>)
    requires |rest| < ADDRESS_LEN
    ensures Decode(Encode(addresses) + rest) == addresses
  {
    if addresses == [] {
      assert Encode(addresses) + rest == rest;
    } else {
      var a, tail := addresses[0], addresses[1..];
      assert [a] + tail == addresses;
      EncodeFromFront(a, tail);
      var bytes := Encode(addresses) + rest;
      assert bytes == a + (Encode(tail) + rest);
      assert bytes[..ADDRESS_LEN] == a && bytes[ADDRESS_LEN..] == Encode(tail) + rest;
      DecodeDropsRest(tail, rest);
    }
  }

  lemma {:induction false} DecodeSplits(bytes: seq<Byte>) returns (rest: seq<Byte>)
    ensures |rest| < ADDRESS_LEN && bytes == Encode(Decode(bytes)) + rest
  {
    if |bytes| < ADDRESS_LEN {
      rest := bytes;
    } else {
      var a, tail := bytes[..ADDRESS_LEN], bytes[ADDRESS_LEN..];
      rest := DecodeSplits(tail);
      EncodeFromFront(a, Decode(tail));
      assert bytes == a + tail && tail == Encode(Decode(tail)) + rest;
    }
  }

  /** Bytes decode to a list exactly when they are its encoding and less than an address more; on
      whole addresses the two are inverse. */
  lemma DecodeIffEncode(bytes: seq<Byte>, addresses: seq<Address>)
    ensures Decode(bytes) == addresses <==> exists rest :: |rest| < 20 && bytes == Encode(addresses) + rest
    ensures |bytes| % 20 == 0 ==> (Decode(bytes) == addresses <==> bytes == Encode(addresses))
  {
    if Decode(bytes) == addresses {
      var rest := DecodeSplits(bytes);
    }
    if rest :| |rest| < 20 && bytes == Encode(addresses) + rest {
      DecodeDropsRest(addresses, rest);
    }
    if |bytes| % 20 == 0 {
      DecodeOfEncode(addresses);
      EncodeOfDecode(bytes);
    }
  }

  /** Where each address stands. */
  lemma {:induction false} EncodedAt(addresses: seq<Address>, i: nat)
    requires i < |addresses|
    ensures |Encode(addresses)| == 20 * |addresses|
    ensures Encode(addresses)[20 * i..20 * i + 20] == addresses[i]
  {
    var front, last := addresses[..|addresses| - 1], addresses[|addresses| - 1];
    EncodedLength(addresses);
    EncodedLength(front);
    assert Encode(addresses) == Encode(front) + last;
    if i == |front| {
    } else {
      EncodedAt(front, i);
    }
  }
}
