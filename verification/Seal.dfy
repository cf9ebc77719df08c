/** The seal hash preimage, and which headers share one. */
module Seal {
  import opened ExtraDataFormat
  import opened Primitives
  import opened RecentSigners
  import opened Rlp

  type Bloom = b: Bytes | |b| == 256 witness seq(256, _ => 0)
  type B64 = b: Bytes | |b| == 8 witness seq(8, _ => 0)
  /** A byte vector; allocations are limited to half the address space. */
  type ByteVec = b: Bytes | |b| < 0x8000_0000_0000_0000

  datatype Header = Header(
    parentHash: B256,
    ommersHash: B256,
    beneficiary: Address,
    stateRoot: B256,
    transactionsRoot: B256,
    receiptsRoot: B256,
    logsBloom: Bloom,
    difficulty: U256,
    number: U64,
    gasLimit: U64,
    gasUsed: U64,
    timestamp: U64,
    extraData: ByteVec,
    mixHash: Option<B256>,
    nonce: Option<B64>,
    baseFee: Option<U64>,
    withdrawalsRoot: Option<B256>,
    blobGasUsed: Option<U64>,
    excessBlobGas: Option<U64>,
    parentBeaconRoot: Option<B256>,
    requestsHash: Option<B256>)

  // ---------------------------------------------------------------- the shape of accepted headers

  datatype HeaderError =
    | NonceNotZero
    | OmmersNotEmpty
    | GasUsedExceedsLimit
    | ExtraDataLength
    | UnexpectedWithdrawalsRoot
    | UnexpectedBlobGasUsed
    | UnexpectedExcessBlobGas
    | UnexpectedParentBeaconRoot
    | UnexpectedRequestsHash

  function ZeroNonce(): B64 {
    [0, 0, 0, 0, 0, 0, 0, 0]
  }

  /** The hash of the empty ommers list. */
  function EmptyOmmersHash(): B256 {
    [0x1d, 0xcc, 0x4d, 0xe8, 0xde, 0xc7, 0x5d, 0x7a, 0xab, 0x85, 0xb5, 0x67, 0xb6, 0xcc, 0xd4, 0x1a,
     0xd3, 0x12, 0x45, 0x1b, 0x94, 0x8a, 0x74, 0x13, 0xf0, 0xa1, 0x42, 0xfd, 0x40, 0xd4, 0x93, 0x47]
  }

  /** The header checks that need no other state, in the program's order. */
  function ValidateShape(h: Header): Result<(), HeaderError> {
    if h.nonce != Some(ZeroNonce()) then Err(NonceNotZero)
    else if h.ommersHash != EmptyOmmersHash() then Err(OmmersNotEmpty)
    else if h.gasUsed > h.gasLimit then Err(GasUsedExceedsLimit)
    else if |h.extraData| < MIN_LEN then Err(ExtraDataLength)
    else if h.withdrawalsRoot.Some? then Err(UnexpectedWithdrawalsRoot)
    else if h.blobGasUsed.Some? then Err(UnexpectedBlobGasUsed)
    else if h.excessBlobGas.Some? then Err(UnexpectedExcessBlobGas)
    else if h.parentBeaconRoot.Some? then Err(UnexpectedParentBeaconRoot)
    else if h.requestsHash.Some? then Err(UnexpectedRequestsHash)
    else Ok(())
  }

  /** Which headers have the accepted shape. */
  lemma ShapeAcceptedIff(h: Header)
    ensures ValidateShape(h).Ok? <==>
      && h.nonce == Some([0, 0, 0, 0, 0, 0, 0, 0])
      && h.ommersHash == EmptyOmmersHash()
      && h.gasUsed <= h.gasLimit
      && 97 <= |h.extraData|
      && h.withdrawalsRoot == None && h.blobGasUsed == None && h.excessBlobGas == None
      && h.parentBeaconRoot == None && h.requestsHash == None
  {
  }

  /** All that is wrong with the shape, each fault judged on its own, in the order of the checks. */
  function ShapeFaults(h: Header): seq<HeaderError> {
    FailureIf(h.nonce != Some([0, 0, 0, 0, 0, 0, 0, 0]), NonceNotZero)
    + FailureIf(h.ommersHash != EmptyOmmersHash(), OmmersNotEmpty)
    + FailureIf(h.gasUsed > h.gasLimit, GasUsedExceedsLimit)
    + FailureIf(|h.extraData| < 97, ExtraDataLength)
    + FailureIf(h.withdrawalsRoot != None, UnexpectedWithdrawalsRoot)
    + FailureIf(h.blobGasUsed != None, UnexpectedBlobGasUsed)
    + FailureIf(h.excessBlobGas != None, UnexpectedExcessBlobGas)
    + FailureIf(h.parentBeaconRoot != None, UnexpectedParentBeaconRoot)
    + FailureIf(h.requestsHash != None, UnexpectedRequestsHash)
  }

  /** The verdict is the first fault, or acceptance when there is none. */
  lemma ReportsFirstShapeFault(h: Header)
    ensures ValidateShape(h) == if ShapeFaults(h) == [] then Ok(()) else Err(ShapeFaults(h)[0])
  {
  }

  // ---------------------------------------------------------------- the preimage

  /** Extra data without its last 65 bytes; shorter data loses everything. */
  function Trimmed(extra: Bytes): Bytes {
    extra[..SaturatingSub(|extra|, SEAL_LEN)]
  }

  function MixHashOrZero(h: Header): B256 {
    match h.mixHash
    case None => ZeroHash()
    case Some(m) => m
  }

  function NonceOrZero(h: Header): B64 {
    match h.nonce
    case None => ZeroNonce()
    case Some(n) => n
  }

  /** The fields that every header has. */
  function FixedItems(h: Header): (r: seq<Bytes>)
    ensures |r| == 15
  {
    HeadItems(h) + [Trimmed(h.extraData)] + [MixHashOrZero(h), NonceOrZero(h)]
  }

  function HeadItems(h: Header): (r: seq<Bytes>)
    ensures |r| == 12
  {
    [h.parentHash, h.ommersHash, h.beneficiary, h.stateRoot, h.transactionsRoot, h.receiptsRoot,
     h.logsBloom, Be(h.difficulty), Be(h.number), Be(h.gasLimit), Be(h.gasUsed), Be(h.timestamp)]
  }

  function HashItem(o: Option<B256>): seq<Bytes> {
    if o.Some? then [o.value] else []
  }

  function NumberItem(o: Option<U64>): seq<Bytes> {
    if o.Some? then [Be(o.value)] else []
  }

  /** The fields written only when present. */
  function OptionalItems(h: Header): (r: seq<Bytes>)
    ensures |r| <= 6
  {
    NumberItem(h.baseFee) + HashItem(h.withdrawalsRoot) + NumberItem(h.blobGasUsed) +
    NumberItem(h.excessBlobGas) + HashItem(h.parentBeaconRoot) + HashItem(h.requestsHash)
  }

  function Items(h: Header): seq<Bytes> {
    FixedItems(h) + OptionalItems(h)
  }

  lemma SmallNumbers(h: Header)
    ensures |Be(h.difficulty)| <= 32 && |Be(h.number)| <= 8 && |Be(h.gasLimit)| <= 8
    ensures |Be(h.gasUsed)| <= 8 && |Be(h.timestamp)| <= 8
  {
    LengthOfU256(h.difficulty);
    LengthOfU64(h.number);
    LengthOfU64(h.gasLimit);
    LengthOfU64(h.gasUsed);
    LengthOfU64(h.timestamp);
  }

  lemma SmallNumberItem(o: Option<U64>)
    ensures forall i :: 0 <= i < |NumberItem(o)| ==> |NumberItem(o)[i]| <= 256
  {
    if o.Some? {
      LengthOfU64(o.value);
    }
  }

  /** Every item but the extra data is short. */
  lemma ItemsAreSmall(h: Header)
    ensures forall i :: 0 <= i < 12 ==> |HeadItems(h)[i]| <= 256
    ensures forall i :: 0 <= i < |OptionalItems(h)| ==> |OptionalItems(h)[i]| <= 256
  {
    hide Be;
    SmallNumbers(h);
    OptionalItemsAreSmall(h);
  }

  lemma OptionalItemsAreSmall(h: Header)
    ensures forall i :: 0 <= i < |OptionalItems(h)| ==> |OptionalItems(h)[i]| <= 256
  {
    hide Be, NumberItem;
    SmallNumberItem(h.baseFee);
    SmallNumberItem(h.blobGasUsed);
    SmallNumberItem(h.excessBlobGas);
  }

  lemma ItemsFit(h: Header)
    ensures AllFit(Items(h))
    ensures Fits(Payload(Items(h)))
  {
    ItemsAreSmall(h);
    var head, extra := HeadItems(h), Trimmed(h.extraData);
    var tail := [MixHashOrZero(h), NonceOrZero(h)] + OptionalItems(h);
    assert Items(h) == head + [extra] + tail;
    hide HeadItems, OptionalItems, Items, FixedItems, Payload;
    PayloadAround(head, extra, tail);
  }

  /** What is hashed for the seal. */
  ghost function SealPreimage(h: Header): Bytes {
    ItemsFit(h);
    EncodeList(Payload(Items(h)))
  }

  lemma FixedLayout(h: Header)
    ensures FixedItems(h)
         == [h.parentHash, h.ommersHash, h.beneficiary, h.stateRoot, h.transactionsRoot, h.receiptsRoot,
             h.logsBloom, Be(h.difficulty), Be(h.number), Be(h.gasLimit), Be(h.gasUsed), Be(h.timestamp),
             Trimmed(h.extraData), MixHashOrZero(h), NonceOrZero(h)]
  {
    hide Be, Trimmed, MixHashOrZero, NonceOrZero;
  }

  lemma OptionalLayout(h: Header)
    ensures OptionalItems(h)
         == (if h.baseFee.Some? then [Be(h.baseFee.value)] else [])
          + (if h.withdrawalsRoot.Some? then [h.withdrawalsRoot.value] else [])
          + (if h.blobGasUsed.Some? then [Be(h.blobGasUsed.value)] else [])
          + (if h.excessBlobGas.Some? then [Be(h.excessBlobGas.value)] else [])
          + (if h.parentBeaconRoot.Some? then [h.parentBeaconRoot.value] else [])
          + (if h.requestsHash.Some? then [h.requestsHash.value] else [])
  {
    hide Be;
  }

  /** The layout: an RLP list of the fields in this order, extra data without its last 65 bytes, an
      absent mix hash or nonce as zeros, and the optional fields that are present. */
  lemma PreimageLayout(h: Header)
    ensures AllFit(Items(h)) && Fits(Payload(Items(h)))
    ensures SealPreimage(h) == EncodeList(Payload(Items(h)))
    ensures
      var extra := if |h.extraData| >= 65 then h.extraData[..|h.extraData| - 65] else [];
      var mixHash := if h.mixHash.Some? then h.mixHash.value else ZeroHash();
      var nonce := if h.nonce.Some? then h.nonce.value else [0, 0, 0, 0, 0, 0, 0, 0];
      var fixed :=
        [h.parentHash, h.ommersHash, h.beneficiary, h.stateRoot, h.transactionsRoot, h.receiptsRoot,
         h.logsBloom, Be(h.difficulty), Be(h.number), Be(h.gasLimit), Be(h.gasUsed), Be(h.timestamp),
         extra, mixHash, nonce];
      var optional :=
        (if h.baseFee.Some? then [Be(h.baseFee.value)] else [])
        + (if h.withdrawalsRoot.Some? then [h.withdrawalsRoot.value] else [])
        + (if h.blobGasUsed.Some? then [Be(h.blobGasUsed.value)] else [])
        + (if h.excessBlobGas.Some? then [Be(h.excessBlobGas.value)] else [])
        + (if h.parentBeaconRoot.Some? then [h.parentBeaconRoot.value] else [])
        + (if h.requestsHash.Some? then [h.requestsHash.value] else []);
      Items(h) == fixed + optional
  {
    ItemsFit(h);
    assert Trimmed(h.extraData) == if |h.extraData| >= 65 then h.extraData[..|h.extraData| - 65] else [];
    assert MixHashOrZero(h) == if h.mixHash.Some? then h.mixHash.value else ZeroHash();
    assert NonceOrZero(h) == if h.nonce.Some? then h.nonce.value else [0, 0, 0, 0, 0, 0, 0, 0];
    hide Be, Payload, ZeroHash, FixedItems, OptionalItems, Trimmed, MixHashOrZero, NonceOrZero, AllFit, EncodeList;
    FixedLayout(h);
    OptionalLayout(h);
  }

  /** What is hashed of parsed extra data: all of it but the seal. */
  lemma VanityAndValidatorsAreHashed(h: Header, e: ExtraData)
    requires Parse(h.extraData) == Ok(e)
    ensures |Items(h)| > 12 && Items(h)[12] == e.vanity + e.validatorBytes
  {
    ParseIffPrint(h.extraData, e);
    assert Trimmed(h.extraData) == e.vanity + e.validatorBytes;
    hide Trimmed, HeadItems, OptionalItems;
  }

  /** Extra data that differ at most in the last 65 bytes; less than 65 bytes count as a seal. */
  ghost predicate SameUpToSeal(x: Bytes, y: Bytes) {
    || (|x| <= 65 && |y| <= 65)
    || exists prefix: Bytes, s: Bytes, t: Bytes ::
         |s| == |t| == 65 && x == prefix + s && y == prefix + t
  }

  lemma SameUpToSealIff(x: Bytes, y: Bytes)
    ensures Trimmed(x) == Trimmed(y) <==> SameUpToSeal(x, y)
  {
    if Trimmed(x) == Trimmed(y) && (|x| > 65 || |y| > 65) {
      var prefix, s, t := Trimmed(x), x[|x| - 65..], y[|y| - 65..];
      assert x == prefix + s && y == prefix + t;
    } else if prefix: Bytes, s: Bytes, t: Bytes :| |s| == |t| == 65 && x == prefix + s && y == prefix + t {
      assert Trimmed(x) == prefix && Trimmed(y) == prefix;
    }
  }

  /** For all headers: the preimage determines the encoded items and nothing else. */
  lemma PreimageIffItems(a: Header, b: Header)
    ensures SealPreimage(a) == SealPreimage(b) <==> Items(a) == Items(b)
  {
    ItemsFit(a);
    ItemsFit(b);
    if SealPreimage(a) == SealPreimage(b) {
      ListInjective(Payload(Items(a)), Payload(Items(b)));
      PayloadInjective(Items(a), Items(b));
    }
  }

  // ---------------------------------------------------------------- accepted headers

  /** The headers agree on every field except that seals of 65 bytes complete one common prefix to
      their extra data and that an absent mix hash counts as zero. */
  ghost predicate SameButSeal(a: Header, b: Header) {
    && b == a.(extraData := b.extraData, mixHash := b.mixHash)
    && (exists prefix: Bytes, s: Bytes, t: Bytes ::
          |s| == |t| == 65 && a.extraData == prefix + s && b.extraData == prefix + t)
    && (a.mixHash == b.mixHash || {a.mixHash, b.mixHash} == {None, Some(ZeroHash())})
  }

  lemma HeadItemsInjective(a: Header, b: Header)
    requires HeadItems(a) == HeadItems(b)
    ensures a.parentHash == b.parentHash && a.ommersHash == b.ommersHash
    ensures a.beneficiary == b.beneficiary && a.stateRoot == b.stateRoot
    ensures a.transactionsRoot == b.transactionsRoot && a.receiptsRoot == b.receiptsRoot
    ensures a.logsBloom == b.logsBloom && a.difficulty == b.difficulty
    ensures a.number == b.number && a.gasLimit == b.gasLimit
    ensures a.gasUsed == b.gasUsed && a.timestamp == b.timestamp
  {
    var x, y := HeadItems(a), HeadItems(b);
    assert x[0] == y[0] && x[1] == y[1] && x[2] == y[2] && x[3] == y[3] && x[4] == y[4] && x[5] == y[5];
    assert x[6] == y[6] && x[7] == y[7] && x[8] == y[8] && x[9] == y[9] && x[10] == y[10] && x[11] == y[11];
    BeInjective(a.difficulty, b.difficulty);
    BeInjective(a.number, b.number);
    BeInjective(a.gasLimit, b.gasLimit);
    BeInjective(a.gasUsed, b.gasUsed);
    BeInjective(a.timestamp, b.timestamp);
  }

  lemma NumberItemInjective(a: Option<U64>, b: Option<U64>)
    requires NumberItem(a) == NumberItem(b)
    ensures a == b
  {
    if a.Some? {
      assert NumberItem(a)[0] == NumberItem(b)[0];
      BeInjective(a.value, b.value);
    }
  }

  /** The seal covers everything but itself: accepted headers have the same preimage exactly when
      they agree apart from the seal. */
  lemma PreimageInjectiveApartFromSeal(a: Header, b: Header)
    requires ValidateShape(a).Ok? && ValidateShape(b).Ok?
    ensures SealPreimage(a) == SealPreimage(b) <==> SameButSeal(a, b)
  {
    hide SealPreimage;
    PreimageIffItems(a, b);
    SameUpToSealIff(a.extraData, b.extraData);
    SameMixHash(a, b);
    ShapeAcceptedIff(a);
    ShapeAcceptedIff(b);
    assert OptionalItems(a) == NumberItem(a.baseFee) && OptionalItems(b) == NumberItem(b.baseFee);
    hide ValidateShape, Trimmed, MixHashOrZero;
    if Items(a) == Items(b) {
      ItemsDetermineFields(a, b);
      assert SameButSeal(a, b);
    }
  }

  lemma SameMixHash(a: Header, b: Header)
    ensures MixHashOrZero(a) == MixHashOrZero(b)
       <==> a.mixHash == b.mixHash || {a.mixHash, b.mixHash} == {None, Some(ZeroHash())}
  {
    hide ZeroHash;
    assert None in {a.mixHash, b.mixHash} <==> a.mixHash == None || b.mixHash == None;
    assert Some(ZeroHash()) in {a.mixHash, b.mixHash}
      <==> a.mixHash == Some(ZeroHash()) || b.mixHash == Some(ZeroHash());
  }

  /** With nothing optional but a base fee, equal items mean equal fields. */
  lemma ItemsDetermineFields(a: Header, b: Header)
    requires Items(a) == Items(b)
    requires OptionalItems(a) == NumberItem(a.baseFee) && OptionalItems(b) == NumberItem(b.baseFee)
    ensures HeadItems(a) == HeadItems(b) && a.baseFee == b.baseFee
    ensures Trimmed(a.extraData) == Trimmed(b.extraData) && MixHashOrZero(a) == MixHashOrZero(b)
    ensures a.parentHash == b.parentHash && a.ommersHash == b.ommersHash
    ensures a.beneficiary == b.beneficiary && a.stateRoot == b.stateRoot
    ensures a.transactionsRoot == b.transactionsRoot && a.receiptsRoot == b.receiptsRoot
    ensures a.logsBloom == b.logsBloom && a.difficulty == b.difficulty
    ensures a.number == b.number && a.gasLimit == b.gasLimit
    ensures a.gasUsed == b.gasUsed && a.timestamp == b.timestamp
  {
    hide HeadItems, NumberItem, Trimmed, MixHashOrZero, NonceOrZero, OptionalItems;
    var x, y := Items(a), Items(b);
    assert HeadItems(a) == x[..12] && HeadItems(b) == y[..12];
    assert Trimmed(a.extraData) == x[12] && Trimmed(b.extraData) == y[12];
    assert MixHashOrZero(a) == x[13] && MixHashOrZero(b) == y[13];
    assert NumberItem(a.baseFee) == x[15..] && NumberItem(b.baseFee) == y[15..];
    HeadItemsInjective(a, b);
    NumberItemInjective(a.baseFee, b.baseFee);
  }

  /** Outside the accepted shape a base fee can pass for blob gas. */
  lemma OptionalFieldsCollide(h: Header, fee: U64)
    requires h.withdrawalsRoot == h.parentBeaconRoot == h.requestsHash == None && h.excessBlobGas == None
    ensures
      var a := h.(baseFee := Some(fee), blobGasUsed := None);
      var b := h.(baseFee := None, blobGasUsed := Some(fee));
      a != b && SealPreimage(a) == SealPreimage(b)
  {
    var a := h.(baseFee := Some(fee), blobGasUsed := None);
    var b := h.(baseFee := None, blobGasUsed := Some(fee));
    assert OptionalItems(a) == OptionalItems(b) == [Be(fee)];
    assert FixedItems(a) == FixedItems(b);
    PreimageIffItems(a, b);
  }

  // ---------------------------------------------------------------- all headers

  /** An optional field that is present. */
  datatype Field = Number(number: U64) | Hash(hash: B256)

  function NumberField(o: Option<U64>): seq<Field> {
    if o.Some? then [Number(o.value)] else []
  }

  function HashField(o: Option<B256>): seq<Field> {
    if o.Some? then [Hash(o.value)] else []
  }

  /** The optional fields that are present, in order, without their names. */
  function OptionalFields(h: Header): seq<Field> {
    NumberField(h.baseFee) + HashField(h.withdrawalsRoot) + NumberField(h.blobGasUsed) +
    NumberField(h.excessBlobGas) + HashField(h.parentBeaconRoot) + HashField(h.requestsHash)
  }

  function ItemOf(f: Field): Bytes {
    match f
    case Number(n) => Be(n)
    case Hash(h) => h
  }

  function ItemsOf(fields: seq<Field>): (r: seq<Bytes>)
    ensures |r| == |fields| && forall i :: 0 <= i < |r| ==> r[i] == ItemOf(fields[i])
  {
    seq(|fields|, i requires 0 <= i < |fields| => ItemOf(fields[i]))
  }

  lemma ItemsOfConcat(a: seq<Field>, b: seq<Field>)
    ensures ItemsOf(a + b) == ItemsOf(a) + ItemsOf(b)
  {
  }

  lemma OptionalItemsAreFields(h: Header)
    ensures OptionalItems(h) == ItemsOf(OptionalFields(h))
  {
    hide Be;
    var a, b, c, d, e, f := NumberField(h.baseFee), HashField(h.withdrawalsRoot), NumberField(h.blobGasUsed),
      NumberField(h.excessBlobGas), HashField(h.parentBeaconRoot), HashField(h.requestsHash);
    assert ItemsOf(a) == NumberItem(h.baseFee) && ItemsOf(b) == HashItem(h.withdrawalsRoot);
    assert ItemsOf(c) == NumberItem(h.blobGasUsed) && ItemsOf(d) == NumberItem(h.excessBlobGas);
    assert ItemsOf(e) == HashItem(h.parentBeaconRoot) && ItemsOf(f) == HashItem(h.requestsHash);
    hide NumberField, HashField, NumberItem, HashItem, ItemsOf;
    ItemsOfConcat(a, b);
    ItemsOfConcat(a + b, c);
    ItemsOfConcat(a + b + c, d);
    ItemsOfConcat(a + b + c + d, e);
    ItemsOfConcat(a + b + c + d + e, f);
  }

  /** A number has at most 8 bytes and a hash 32, so an item tells its kind and value. */
  lemma ItemInjective(f: Field, g: Field)
    requires ItemOf(f) == ItemOf(g)
    ensures f == g
  {
    match (f, g) {
      case (Number(m), Number(n)) => BeInjective(m, n);
      case (Number(m), Hash(_)) => LengthOfU64(m);
      case (Hash(_), Number(n)) => LengthOfU64(n);
      case (Hash(_), Hash(_)) =>
    }
  }

  lemma ItemsOfInjective(a: seq<Field>, b: seq<Field>)
    requires ItemsOf(a) == ItemsOf(b)
    ensures a == b
  {
    hide ItemOf;
    assert |a| == |ItemsOf(a)| == |ItemsOf(b)| == |b|;
    forall i | 0 <= i < |a| ensures a[i] == b[i] {
      assert ItemsOf(a)[i] == ItemsOf(b)[i];
      ItemInjective(a[i], b[i]);
    }
  }

  /** The fields every header has agree; an absent mix hash or nonce counts as zero. */
  ghost predicate SameFixed(a: Header, b: Header) {
    && HeadItems(a) == HeadItems(b)
    && SameUpToSeal(a.extraData, b.extraData)
    && MixHashOrZero(a) == MixHashOrZero(b)
    && NonceOrZero(a) == NonceOrZero(b)
  }

  /** What the seal covers, for all headers: two preimages agree exactly when the fixed fields do and
      the optional fields present are the same list of numbers and hashes. */
  lemma PreimageIffFields(a: Header, b: Header)
    ensures SealPreimage(a) == SealPreimage(b) <==> SameFixed(a, b) && OptionalFields(a) == OptionalFields(b)
  {
    PreimageIffItems(a, b);
    OptionalItemsAreFields(a);
    OptionalItemsAreFields(b);
    SameUpToSealIff(a.extraData, b.extraData);
    hide SealPreimage, Trimmed, SameUpToSeal, HeadItems, OptionalItems, OptionalFields, ItemsOf;
    if Items(a) == Items(b) {
      var x, y := Items(a), Items(b);
      assert HeadItems(a) == x[..12] && HeadItems(b) == y[..12];
      assert Trimmed(a.extraData) == x[12] && Trimmed(b.extraData) == y[12];
      assert MixHashOrZero(a) == x[13] && MixHashOrZero(b) == y[13];
      assert NonceOrZero(a) == x[14] && NonceOrZero(b) == y[14];
      assert OptionalItems(a) == x[15..] && OptionalItems(b) == y[15..];
      ItemsOfInjective(OptionalFields(a), OptionalFields(b));
    }
  }

  // ---------------------------------------------------------------- which fields are present

  datatype Presence = Presence(
    baseFee: bool,
    withdrawalsRoot: bool,
    blobGasUsed: bool,
    excessBlobGas: bool,
    parentBeaconRoot: bool,
    requestsHash: bool)

  function PresenceOf(h: Header): Presence {
    Presence(h.baseFee.Some?, h.withdrawalsRoot.Some?, h.blobGasUsed.Some?,
      h.excessBlobGas.Some?, h.parentBeaconRoot.Some?, h.requestsHash.Some?)
  }

  /** The headers agree in every field, apart from the last 65 bytes of extra data and from absent
      mix hashes and nonces, which count as zero. */
  ghost predicate SameEncoded(a: Header, b: Header) {
    && b == a.(extraData := b.extraData, mixHash := b.mixHash, nonce := b.nonce)
    && SameUpToSeal(a.extraData, b.extraData)
    && MixHashOrZero(a) == MixHashOrZero(b)
    && NonceOrZero(a) == NonceOrZero(b)
  }

  lemma PeelBack<T>(x: seq<T>, y: seq<T>, x': seq<T>, y': seq<T>)
    requires |y| == |y'| && x + y == x' + y'
    ensures x == x' && y == y'
  {
    assert |x| == |x'|;
    assert x == (x + y)[..|x|] && y == (x + y)[|x|..];
  }

  lemma SamePresenceFields(a: Header, b: Header)
    requires PresenceOf(a) == PresenceOf(b) && OptionalFields(a) == OptionalFields(b)
    ensures a.baseFee == b.baseFee && a.withdrawalsRoot == b.withdrawalsRoot && a.blobGasUsed == b.blobGasUsed
    ensures a.excessBlobGas == b.excessBlobGas && a.parentBeaconRoot == b.parentBeaconRoot
    ensures a.requestsHash == b.requestsHash
  {
    var a1, a2, a3, a4, a5, a6 := NumberField(a.baseFee), HashField(a.withdrawalsRoot), NumberField(a.blobGasUsed),
      NumberField(a.excessBlobGas), HashField(a.parentBeaconRoot), HashField(a.requestsHash);
    var b1, b2, b3, b4, b5, b6 := NumberField(b.baseFee), HashField(b.withdrawalsRoot), NumberField(b.blobGasUsed),
      NumberField(b.excessBlobGas), HashField(b.parentBeaconRoot), HashField(b.requestsHash);
    PeelBack(a1 + a2 + a3 + a4 + a5, a6, b1 + b2 + b3 + b4 + b5, b6);
    PeelBack(a1 + a2 + a3 + a4, a5, b1 + b2 + b3 + b4, b5);
    PeelBack(a1 + a2 + a3, a4, b1 + b2 + b3, b4);
    PeelBack(a1 + a2, a3, b1 + b2, b3);
    PeelBack(a1, a2, b1, b2);
    NumberFieldInjective(a.baseFee, b.baseFee);
    HashFieldInjective(a.withdrawalsRoot, b.withdrawalsRoot);
    NumberFieldInjective(a.blobGasUsed, b.blobGasUsed);
    NumberFieldInjective(a.excessBlobGas, b.excessBlobGas);
    HashFieldInjective(a.parentBeaconRoot, b.parentBeaconRoot);
    HashFieldInjective(a.requestsHash, b.requestsHash);
  }

  lemma NumberFieldInjective(a: Option<U64>, b: Option<U64>)
    requires NumberField(a) == NumberField(b)
    ensures a == b
  {
    assert a.Some? && b.Some? ==> NumberField(a)[0] == NumberField(b)[0];
  }

  lemma HashFieldInjective(a: Option<B256>, b: Option<B256>)
    requires HashField(a) == HashField(b)
    ensures a == b
  {
    assert a.Some? && b.Some? ==> HashField(a)[0] == HashField(b)[0];
  }

  /** With the same optional fields present the preimage determines every encoded field. */
  lemma SamePresenceInjective(a: Header, b: Header)
    requires PresenceOf(a) == PresenceOf(b)
    ensures SealPreimage(a) == SealPreimage(b) <==> SameEncoded(a, b)
  {
    hide SealPreimage;
    PreimageIffFields(a, b);
    if SealPreimage(a) == SealPreimage(b) {
      HeadItemsInjective(a, b);
      SamePresenceFields(a, b);
    }
  }

  datatype Kind = NumberKind | HashKind

  function KindOf(f: Field): Kind {
    match f
    case Number(_) => NumberKind
    case Hash(_) => HashKind
  }

  function KindIf(present: bool, kind: Kind): seq<Kind> {
    if present then [kind] else []
  }

  /** The kinds of the present fields, in order. */
  function Kinds(p: Presence): seq<Kind> {
    KindIf(p.baseFee, NumberKind) + KindIf(p.withdrawalsRoot, HashKind) + KindIf(p.blobGasUsed, NumberKind) +
    KindIf(p.excessBlobGas, NumberKind) + KindIf(p.parentBeaconRoot, HashKind) + KindIf(p.requestsHash, HashKind)
  }

  /** The fields have these kinds. */
  ghost predicate HasKinds(fields: seq<Field>, kinds: seq<Kind>) {
    |fields| == |kinds| && forall i :: 0 <= i < |fields| ==> KindOf(fields[i]) == kinds[i]
  }

  lemma HasKindsConcat(f: seq<Field>, k: seq<Kind>, g: seq<Field>, l: seq<Kind>)
    requires HasKinds(f, k) && HasKinds(g, l)
    ensures HasKinds(f + g, k + l)
  {
  }

  lemma KindsOfNumber(o: Option<U64>)
    ensures HasKinds(NumberField(o), KindIf(o.Some?, NumberKind))
  {
  }

  lemma KindsOfHash(o: Option<B256>)
    ensures HasKinds(HashField(o), KindIf(o.Some?, HashKind))
  {
  }

  lemma KindsOfFields(h: Header)
    ensures HasKinds(OptionalFields(h), Kinds(PresenceOf(h)))
  {
    hide HasKinds, NumberField, HashField, KindIf;
    var p := PresenceOf(h);
    var f1, k1 := NumberField(h.baseFee), KindIf(p.baseFee, NumberKind);
    var f2, k2 := HashField(h.withdrawalsRoot), KindIf(p.withdrawalsRoot, HashKind);
    var f3, k3 := NumberField(h.blobGasUsed), KindIf(p.blobGasUsed, NumberKind);
    var f4, k4 := NumberField(h.excessBlobGas), KindIf(p.excessBlobGas, NumberKind);
    var f5, k5 := HashField(h.parentBeaconRoot), KindIf(p.parentBeaconRoot, HashKind);
    var f6, k6 := HashField(h.requestsHash), KindIf(p.requestsHash, HashKind);
    KindsOfNumber(h.baseFee);
    KindsOfHash(h.withdrawalsRoot);
    KindsOfNumber(h.blobGasUsed);
    KindsOfNumber(h.excessBlobGas);
    KindsOfHash(h.parentBeaconRoot);
    KindsOfHash(h.requestsHash);
    HasKindsConcat(f1, k1, f2, k2);
    HasKindsConcat(f1 + f2, k1 + k2, f3, k3);
    HasKindsConcat(f1 + f2 + f3, k1 + k2 + k3, f4, k4);
    HasKindsConcat(f1 + f2 + f3 + f4, k1 + k2 + k3 + k4, f5, k5);
    HasKindsConcat(f1 + f2 + f3 + f4 + f5, k1 + k2 + k3 + k4 + k5, f6, k6);
  }

  function ZeroNumber(present: bool): Option<U64> {
    if present then Some(0) else None
  }

  function ZeroHashIf(present: bool): Option<B256> {
    if present then Some(ZeroHash()) else None
  }

  /** The header with zeros in the optional fields of a pattern, and no others. */
  function ZeroFilled(h: Header, p: Presence): Header {
    h.(baseFee := ZeroNumber(p.baseFee),
       withdrawalsRoot := ZeroHashIf(p.withdrawalsRoot),
       blobGasUsed := ZeroNumber(p.blobGasUsed),
       excessBlobGas := ZeroNumber(p.excessBlobGas),
       parentBeaconRoot := ZeroHashIf(p.parentBeaconRoot),
       requestsHash := ZeroHashIf(p.requestsHash))
  }

  lemma ZeroFilledKeepsRest(h: Header, p: Presence, q: Presence)
    ensures PresenceOf(ZeroFilled(h, p)) == p
    ensures SameFixed(ZeroFilled(h, p), ZeroFilled(h, q))
  {
    SameUpToSealIff(h.extraData, h.extraData);
  }

  predicate IsZero(f: Field) {
    f == Number(0) || f == Hash(ZeroHash())
  }

  predicate AllZero(fields: seq<Field>) {
    forall i :: 0 <= i < |fields| ==> IsZero(fields[i])
  }

  lemma ZeroPieces(present: bool)
    ensures AllZero(NumberField(ZeroNumber(present))) && AllZero(HashField(ZeroHashIf(present)))
  {
  }

  lemma AllZeroConcat(a: seq<Field>, b: seq<Field>)
    requires AllZero(a) && AllZero(b)
    ensures AllZero(a + b)
  {
  }

  lemma ZeroFilledIsZero(h: Header, p: Presence)
    ensures AllZero(OptionalFields(ZeroFilled(h, p)))
  {
    hide NumberField, HashField, AllZero, ZeroNumber, ZeroHashIf;
    var z := ZeroFilled(h, p);
    var a, b, c, d, e, f := NumberField(z.baseFee), HashField(z.withdrawalsRoot), NumberField(z.blobGasUsed),
      NumberField(z.excessBlobGas), HashField(z.parentBeaconRoot), HashField(z.requestsHash);
    ZeroPieces(p.baseFee);
    ZeroPieces(p.withdrawalsRoot);
    ZeroPieces(p.blobGasUsed);
    ZeroPieces(p.excessBlobGas);
    ZeroPieces(p.parentBeaconRoot);
    ZeroPieces(p.requestsHash);
    AllZeroConcat(a, b);
    AllZeroConcat(a + b, c);
    AllZeroConcat(a + b + c, d);
    AllZeroConcat(a + b + c + d, e);
    AllZeroConcat(a + b + c + d + e, f);
  }

  lemma ZeroFieldsOfKinds(f: seq<Field>, g: seq<Field>, kinds: seq<Kind>)
    requires HasKinds(f, kinds) && HasKinds(g, kinds) && AllZero(f) && AllZero(g)
    ensures f == g
  {
    forall i | 0 <= i < |f| ensures f[i] == g[i] {
      assert IsZero(f[i]) && IsZero(g[i]) && KindOf(f[i]) == kinds[i] == KindOf(g[i]);
    }
  }

  /** Two headers with these optional fields present share a preimage. */
  ghost predicate CanCollide(p: Presence, q: Presence) {
    exists a: Header, b: Header :: PresenceOf(a) == p && PresenceOf(b) == q && SealPreimage(a) == SealPreimage(b)
  }

  lemma CollisionMeansSameKinds(a: Header, b: Header)
    requires SealPreimage(a) == SealPreimage(b)
    ensures Kinds(PresenceOf(a)) == Kinds(PresenceOf(b))
  {
    hide SealPreimage, OptionalFields, Kinds;
    PreimageIffFields(a, b);
    KindsOfFields(a);
    KindsOfFields(b);
  }

  lemma SameKindsCollide(h: Header, p: Presence, q: Presence)
    requires Kinds(p) == Kinds(q)
    ensures SealPreimage(ZeroFilled(h, p)) == SealPreimage(ZeroFilled(h, q))
  {
    hide SealPreimage, OptionalFields, Kinds, ZeroFilled, SameFixed, PresenceOf, HasKinds, AllZero;
    var a, b := ZeroFilled(h, p), ZeroFilled(h, q);
    ZeroFilledKeepsRest(h, p, q);
    ZeroFilledKeepsRest(h, q, p);
    KindsOfFields(a);
    KindsOfFields(b);
    ZeroFilledIsZero(h, p);
    ZeroFilledIsZero(h, q);
    ZeroFieldsOfKinds(OptionalFields(a), OptionalFields(b), Kinds(p));
    PreimageIffFields(a, b);
  }

  /** Two patterns of optional fields admit equal preimages exactly when they have the same sequence
      of kinds; and then any header can be completed to such a pair. */
  lemma PatternsCollideIff(p: Presence, q: Presence, h: Header)
    ensures CanCollide(p, q) <==> Kinds(p) == Kinds(q)
    ensures Kinds(p) == Kinds(q) ==> SealPreimage(ZeroFilled(h, p)) == SealPreimage(ZeroFilled(h, q))
  {
    hide SealPreimage, Kinds, ZeroFilled, PresenceOf, SameFixed;
    ZeroFilledKeepsRest(h, p, q);
    ZeroFilledKeepsRest(h, q, p);
    if Kinds(p) == Kinds(q) {
      SameKindsCollide(h, p, q);
    } else if CanCollide(p, q) {
      var a, b :| PresenceOf(a) == p && PresenceOf(b) == q && SealPreimage(a) == SealPreimage(b);
      CollisionMeansSameKinds(a, b);
    }
  }

  // ---------------------------------------------------------------- the hash

  type Keccak = Bytes -> B256

  /** If the hash separates the two preimages, equal seal hashes mean equal headers apart from the seal. */
  lemma SealHashBinds(a: Header, b: Header, keccak: Keccak)
    requires ValidateShape(a).Ok? && ValidateShape(b).Ok?
    requires keccak(SealPreimage(a)) == keccak(SealPreimage(b)) ==> SealPreimage(a) == SealPreimage(b)
    ensures keccak(SealPreimage(a)) == keccak(SealPreimage(b)) <==> SameButSeal(a, b)
  {
    PreimageInjectiveApartFromSeal(a, b);
  }

  /** The buffer that fields encode themselves into; `items` remembers what was written. */
  class ListContent {
    var bytes: Bytes
    ghost var items: seq<Bytes>

    ghost predicate Valid()
      reads this
    {
      AllFit(items) && bytes == Payload(items)
    }

    constructor ()
      ensures Valid() && items == []
    {
      bytes, items := [], [];
    }

    method Put(item: Bytes)
      requires Valid() && Fits(item)
      modifies this
      ensures Valid() && items == old(items) + [item]
      ensures bytes == old(bytes) + EncodeString(item)
    {
      PayloadAppend(items, item);
      bytes := bytes + EncodeString(item);
      items := items + [item];
    }

    method PutNumber(n: U256)
      requires Valid()
      modifies this
      ensures Valid() && items == old(items) + [Be(n)]
    {
      LengthOfU256(n);
      Put(Be(n));
    }

    method PutNumberIfPresent(o: Option<U64>)
      requires Valid()
      modifies this
      ensures Valid() && items == old(items) + NumberItem(o)
    {
      if o.Some? {
        LengthOfU64(o.value);
        Put(Be(o.value));
      }
    }

    method PutHashIfPresent(o: Option<B256>)
      requires Valid()
      modifies this
      ensures Valid() && items == old(items) + HashItem(o)
    {
      if o.Some? {
        Put(o.value);
      }
    }
  }

  /** Encodes the fields one by one into the list content, then wraps it in a list header. */
  method ComputeSealHash(h: Header, keccak: Keccak) returns (hash: B256)
    ensures hash == keccak(SealPreimage(h))
  {
    var content := new ListContent();
    PutHead(content, h);
    content.Put(Trimmed(h.extraData));
    content.Put(MixHashOrZero(h));
    content.Put(NonceOrZero(h));
    assert content.items == FixedItems(h);
    PutOptional(content, h);
    ItemsFit(h);
    hash := keccak(Prefix(0xc0, |content.bytes|) + content.bytes);
  }

  method PutHead(content: ListContent, h: Header)
    requires content.Valid() && content.items == []
    modifies content
    ensures content.Valid() && content.items == HeadItems(h)
  {
    hide Payload, Be;
    PutHashes(content, h);
    content.PutNumber(h.difficulty);
    content.PutNumber(h.number);
    content.PutNumber(h.gasLimit);
    content.PutNumber(h.gasUsed);
    content.PutNumber(h.timestamp);
  }

  method PutHashes(content: ListContent, h: Header)
    requires content.Valid() && content.items == []
    modifies content
    ensures content.Valid()
    ensures content.items
         == [h.parentHash, h.ommersHash, h.beneficiary, h.stateRoot, h.transactionsRoot, h.receiptsRoot, h.logsBloom]
  {
    hide Payload;
    content.Put(h.parentHash);
    content.Put(h.ommersHash);
    content.Put(h.beneficiary);
    content.Put(h.stateRoot);
    content.Put(h.transactionsRoot);
    content.Put(h.receiptsRoot);
    content.Put(h.logsBloom);
  }

  method PutOptional(content: ListContent, h: Header)
    requires content.Valid()
    modifies content
    ensures content.Valid() && content.items == old(content.items) + OptionalItems(h)
  {
    hide Payload, Be, NumberItem, HashItem;
    content.PutNumberIfPresent(h.baseFee);
    content.PutHashIfPresent(h.withdrawalsRoot);
    content.PutNumberIfPresent(h.blobGasUsed);
    content.PutNumberIfPresent(h.excessBlobGas);
    content.PutHashIfPresent(h.parentBeaconRoot);
    content.PutHashIfPresent(h.requestsHash);
  }
}
