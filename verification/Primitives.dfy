/** The value types shared by the consensus, cache and encoding models. */
module Primitives {

  newtype Byte = b: int | 0 <= b < 256

  const U64_LIMIT: nat := 0x1_0000_0000_0000_0000

  type U64 = n: int | 0 <= n < U64_LIMIT

  /** A 20-byte account address. */
  type Address = a: seq<Byte> | |a| == 20 witness seq(20, _ => 0)

  /** A 32-byte hash. */
  type B256 = h: seq<Byte> | |h| == 32 witness seq(32, _ => 0)

  function ZeroHash(): (h: B256)
    ensures forall i :: 0 <= i < 32 ==> h[i] == 0
  {
    seq(32, _ => 0)
  }

  datatype Option<+T> = None | Some(value: T)

  datatype Result<+T, +E> = Ok(value: T) | Err(error: E)

  /** A Bor validator.  `votingPower` and `proposerPriority` are signed 64-bit integers in the
      program; here they are unbounded, and the proposer model proves when the width suffices. */
  datatype Validator = Validator(
    id: nat,
    address: Address,
    votingPower: int,
    signer: Address,
    proposerPriority: int)

  datatype ValidatorSet = ValidatorSet(validators: seq<Validator>, proposer: Option<Validator>)

  datatype Span = Span(
    id: nat,
    startBlock: nat,
    endBlock: nat,
    validatorSet: ValidatorSet,
    selectedProducers: seq<Validator>,
    borChainId: string)

  /** The signer addresses of a validator list, in order. */
  function Signers(validators: seq<Validator>): (r: seq<Address>)
    ensures |r| == |validators|
    ensures forall i :: 0 <= i < |r| ==> r[i] == validators[i].signer
  {
    seq(|validators|, i requires 0 <= i < |validators| => validators[i].signer)
  }

  /** The span that holds a block: division by zero panics in the program. */
  function SpanIdAt(block: nat, spanSize: nat): (id: nat)
    requires spanSize > 0
    ensures id * spanSize <= block < (id + 1) * spanSize
  {
    block / spanSize
  }

  /** One entry of a list of failed checks. */
  function FailureIf<E>(failed: bool, error: E): seq<E> {
    if failed then [error] else []
  }

  predicate NoDuplicates<T(==)>(s: seq<T>) {
    forall i, j :: 0 <= i < j < |s| ==> s[i] != s[j]
  }

  function SetOf<T(==)>(s: seq<T>): set<T> {
    set x | x in s
  }

  function Last<T>(s: seq<T>): T
    requires s != []
  {
    s[|s| - 1]
  }

  function Front<T>(s: seq<T>): seq<T>
    requires s != []
  {
    s[..|s| - 1]
  }

  /** The first position of `x`. */
  function PositionOf<T(==)>(s: seq<T>, x: T): (r: Option<nat>)
    ensures r.None? <==> x !in s
    ensures r.Some? ==> r.value < |s| && s[r.value] == x
    ensures r.Some? ==> forall k :: 0 <= k < r.value ==> s[k] != x
  {
    if s == [] then None
    else if s[0] == x then Some(0)
    else
      match PositionOf(s[1..], x)
      case None => None
      case Some(p) => Some(p + 1)
  }

  lemma {:induction false} SizeOfSet<T>(s: seq<T>)
    requires NoDuplicates(s)
    ensures |SetOf(s)| == |s|
  {
    if s == [] {
    } else {
      var front, last := s[..|s| - 1], s[|s| - 1];
      SizeOfSet(front);
      assert last !in front;
      assert SetOf(s) == SetOf(front) + {last};
    }
  }

  lemma {:induction false} SubsetSize<T>(small: set<T>, large: set<T>)
    requires small <= large
    ensures |small| <= |large|
  {
    if small == {} {
    } else {
      var x :| x in small;
      SubsetSize(small - {x}, large - {x});
    }
  }

  /** The `n` integers from `lo` on. */
  function Range(lo: int, n: nat): (r: set<int>)
    ensures |r| == n
    ensures forall x :: x in r <==> lo <= x < lo + n
  {
    if n == 0 then {} else Range(lo, n - 1) + {lo + n - 1}
  }

  lemma SizeInRange(s: set<int>, lo: int, n: nat)
    requires forall x :: x in s ==> lo <= x < lo + n
    ensures |s| <= n
  {
    SubsetSize(s, Range(lo, n));
  }
}
