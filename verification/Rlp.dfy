/** RLP strings and list headers (Appendix B of the Ethereum Yellow Paper), with the reader that
    takes one string off the front of a buffer. */
module Rlp {
  import opened Primitives

  type Bytes = seq<Byte>

  // ---------------------------------------------------------------- big-endian integers

  /** The shortest big-endian form; zero is the empty string. */
  function Be(n: nat): Bytes {
    if n == 0 then [] else Be(n / 256) + [(n % 256) as Byte]
  }

  function FromBe(s: Bytes): nat {
    if s == [] then 0 else 256 * FromBe(s[..|s| - 1]) + s[|s| - 1] as nat
  }

  lemma {:induction false} FromBeOfBe(n: nat)
    ensures FromBe(Be(n)) == n
  {
    if n == 0 {
    } else {
      FromBeOfBe(n / 256);
      assert Be(n)[..|Be(n)| - 1] == Be(n / 256);
    }
  }

  lemma BeInjective(m: nat, n: nat)
    requires Be(m) == Be(n)
    ensures m == n
  {
    FromBeOfBe(m);
    FromBeOfBe(n);
  }

  /** 256 to the k. */
  function Limit(k: nat): nat {
    if k == 0 then 1 else 256 * Limit(k - 1)
  }

  lemma {:induction false} BeLength(n: nat, k: nat)
    requires n < Limit(k)
    ensures |Be(n)| <= k
  {
    if n == 0 {
    } else {
      assert k > 0;
      BeLength(n / 256, k - 1);
    }
  }

  /** Big-endian: a leading byte counts 256 to the number of bytes after it. */
  lemma {:induction false} LeadingByte(x: Byte, s: Bytes)
    ensures FromBe([x] + s) == x as nat * Limit(|s|) + FromBe(s)
  {
    if s == [] {
      assert [x] + s == [x] && [x][..0] == [];
    } else {
      var front, all := s[..|s| - 1], [x] + s;
      assert all[..|all| - 1] == [x] + front && all[|all| - 1] == s[|s| - 1];
      LeadingByte(x, front);
      ScaleByByte(x as nat, Limit(|front|));
    }
  }

  lemma ScaleByByte(x: nat, y: nat)
    ensures 256 * (x * y) == x * (256 * y)
  {
  }

  /** The shortest form has no leading zero. */
  lemma {:induction false} NoLeadingZero(n: nat)
    requires n > 0
    ensures Be(n) != [] && Be(n)[0] != 0
  {
    if n < 256 {
      assert Be(n / 256) == [];
    } else {
      NoLeadingZero(n / 256);
    }
  }

  const U256_LIMIT: nat :=
    0x1_0000_0000_0000_0000_0000_0000_0000_0000_0000_0000_0000_0000_0000_0000_0000_0000

  type U256 = n: nat | n < U256_LIMIT

  lemma LimitOfThirtyTwo()
    ensures Limit(32) == U256_LIMIT
  {
    LimitOfEight();
    LimitProduct(8, 8);
    LimitProduct(16, 16);
  }

  lemma {:induction false} LimitProduct(j: nat, k: nat)
    ensures Limit(j + k) == Limit(j) * Limit(k)
  {
    if k == 0 {
    } else {
      LimitProduct(j, k - 1);
    }
  }

  lemma LengthOfU256(n: U256)
    ensures |Be(n)| <= 32
  {
    LimitOfThirtyTwo();
    BeLength(n, 32);
  }

  lemma LimitOfEight()
    ensures Limit(8) == U64_LIMIT
  {
    assert Limit(2) == 0x1_0000;
    assert Limit(4) == 0x1_0000_0000;
    assert Limit(6) == 0x1_0000_0000_0000;
  }

  lemma LengthOfU64(n: U64)
    ensures |Be(n)| <= 8
    ensures n > 0 ==> |Be(n)| >= 1
  {
    LimitOfEight();
    BeLength(n, 8);
  }

  // ---------------------------------------------------------------- strings

  /** A byte string that fits in memory. */
  ghost predicate Fits(s: Bytes) {
    |s| < U64_LIMIT
  }

  /** A prefix that announces `length` bytes: short up to 55, else a length of the length. */
  function Prefix(base: nat, length: U64): Bytes
    requires base + 55 + 8 < 256
  {
    if length <= 55 then [(base + length) as Byte]
    else
      LengthOfU64(length);
      [(base + 55 + |Be(length)|) as Byte] + Be(length)
  }

  function EncodeString(s: Bytes): (r: Bytes)
    requires Fits(s)
    ensures 0 < |r| <= |s| + 9
  {
    if |s| == 1 && s[0] < 0x80 then s
    else
      LengthOfU64(|s|);
      Prefix(0x80, |s|) + s
  }

  /** How a string starts: a byte below 0x80 stands for itself, up to 55 bytes follow one byte that
      counts them, and more follow their length in the shortest form, itself counted. */
  lemma StringHeader(s: Bytes) returns (length: Bytes)
    requires Fits(s)
    ensures |s| == 1 && s[0] < 0x80 ==> EncodeString(s) == s
    ensures |s| <= 55 && !(|s| == 1 && s[0] < 0x80) ==> EncodeString(s) == [(0x80 + |s|) as Byte] + s
    ensures |s| > 55 ==>
      && 1 <= |length| <= 8 && FromBe(length) == |s| && length[0] != 0
      && EncodeString(s) == [(0xb7 + |length|) as Byte] + length + s
  {
    length := Be(|s|);
    LengthOfU64(|s|);
    FromBeOfBe(|s|);
    if |s| > 0 {
      NoLeadingZero(|s|);
    }
    hide Be, FromBe;
  }

  /** Reads one string off the front. */
  function TakeString(buffer: Bytes): Option<(Bytes, Bytes)> {
    if buffer == [] then None
    else
      var first, rest := buffer[0] as int, buffer[1..];
      if first < 0x80 then Some((buffer[..1], rest))
      else if first <= 0xb7 then Split(rest, first - 0x80)
      else if first <= 0xbf && first - 0xb7 <= |rest| then
        var k := first - 0xb7;
        Split(rest[k..], FromBe(rest[..k]))
      else None
  }

  function Split(s: Bytes, n: nat): Option<(Bytes, Bytes)> {
    if n <= |s| then Some((s[..n], s[n..])) else None
  }

  /** The reader undoes the writer and leaves what follows. */
  lemma TakeOfEncode(s: Bytes, after: Bytes)
    requires Fits(s)
    ensures TakeString(EncodeString(s) + after) == Some((s, after))
  {
    if |s| == 1 && s[0] < 0x80 {
      SplitOfConcat(s, after);
    } else if |s| <= 55 {
      TakeOfShort(s, after);
    } else {
      TakeOfLong(s, after);
    }
  }

  lemma TakeOfShort(s: Bytes, after: Bytes)
    requires |s| <= 55
    ensures TakeString(Prefix(0x80, |s|) + s + after) == Some((s, after))
  {
    hide Be, FromBe;
    var buffer := Prefix(0x80, |s|) + s + after;
    assert buffer[1..] == s + after;
    SplitOfConcat(s, after);
  }

  lemma TakeOfLong(s: Bytes, after: Bytes)
    requires Fits(s) && |s| > 55
    ensures TakeString(Prefix(0x80, |s|) + s + after) == Some((s, after))
  {
    var be, buffer := Be(|s|), Prefix(0x80, |s|) + s + after;
    LengthOfU64(|s|);
    FromBeOfBe(|s|);
    hide Be, FromBe;
    assert buffer == [(0xb7 + |be|) as Byte] + (be + (s + after));
    var first, rest := buffer[0] as int, buffer[1..];
    assert first == 0xb7 + |be| && rest == be + (s + after);
    SplitOfConcat(be, s + after);
    SplitOfConcat(s, after);
  }

  lemma SplitOfConcat(a: Bytes, b: Bytes)
    ensures (a + b)[..|a|] == a && (a + b)[|a|..] == b
    ensures Split(a + b, |a|) == Some((a, b))
  {
    assert (a + b)[..|a|] == a && (a + b)[|a|..] == b;
  }

  // ---------------------------------------------------------------- lists of strings

  ghost predicate AllFit(items: seq<Bytes>) {
    forall i :: 0 <= i < |items| ==> Fits(items[i])
  }

  /** The encodings of the items one after the other. */
  ghost function Payload(items: seq<Bytes>): Bytes
    requires AllFit(items)
  {
    if items == [] then [] else EncodeString(items[0]) + Payload(items[1..])
  }

  lemma {:induction false} PayloadAppend(items: seq<Bytes>, item: Bytes)
    requires AllFit(items) && Fits(item)
    ensures AllFit(items + [item])
    ensures Payload(items + [item]) == Payload(items) + EncodeString(item)
  {
    hide EncodeString;
    if items == [] {
      assert [] + [item] == [item];
    } else {
      assert (items + [item])[1..] == items[1..] + [item];
      PayloadAppend(items[1..], item);
    }
  }

  /** Two item lists with the same payload are equal: no encoding is a prefix of another. */
  lemma {:induction false} PayloadInjective(a: seq<Bytes>, b: seq<Bytes>)
    requires AllFit(a) && AllFit(b) && Payload(a) == Payload(b)
    ensures a == b
  {
    hide EncodeString;
    if a == [] || b == [] {
    } else {
      TakeOfEncode(a[0], Payload(a[1..]));
      TakeOfEncode(b[0], Payload(b[1..]));
      PayloadInjective(a[1..], b[1..]);
      assert a == [a[0]] + a[1..] && b == [b[0]] + b[1..];
    }
  }

  lemma {:induction false} PayloadLength(items: seq<Bytes>, bound: nat)
    requires AllFit(items) && forall i :: 0 <= i < |items| ==> |items[i]| <= bound
    ensures |Payload(items)| <= |items| * (bound + 9)
  {
    hide EncodeString;
    if items == [] {
    } else {
      PayloadLength(items[1..], bound);
      assert |items| * (bound + 9) == (|items| - 1) * (bound + 9) + bound + 9;
    }
  }

  lemma {:induction false} PayloadConcat(a: seq<Bytes>, b: seq<Bytes>)
    requires AllFit(a) && AllFit(b)
    ensures AllFit(a + b) && Payload(a + b) == Payload(a) + Payload(b)
  {
    hide EncodeString;
    if a == [] {
      assert [] + b == b;
    } else {
      assert (a + b)[1..] == a[1..] + b;
      PayloadConcat(a[1..], b);
    }
  }

  /** Few short items around one long one stay within the length of a list. */
  lemma PayloadAround(head: seq<Bytes>, long: Bytes, tail: seq<Bytes>)
    requires |head| <= 20 && |tail| <= 20 && |long| < 0x8000_0000_0000_0000
    requires forall i :: 0 <= i < |head| ==> |head[i]| <= 256
    requires forall i :: 0 <= i < |tail| ==> |tail[i]| <= 256
    ensures AllFit(head + [long] + tail) && Fits(Payload(head + [long] + tail))
  {
    assert AllFit(head) && AllFit(tail) && Fits(long);
    PayloadAppend(head, long);
    PayloadConcat(head + [long], tail);
    PayloadLength(head, 256);
    PayloadLength(tail, 256);
    hide Payload, EncodeString;
    assert |EncodeString(long)| <= |long| + 9;
  }

  /** A list: its header, then its payload. */
  ghost function EncodeList(payload: Bytes): Bytes
    requires Fits(payload)
  {
    Prefix(0xc0, |payload|) + payload
  }

  /** How a list starts. */
  lemma ListHeader(payload: Bytes) returns (length: Bytes)
    requires Fits(payload)
    ensures |payload| <= 55 ==> EncodeList(payload) == [(0xc0 + |payload|) as Byte] + payload
    ensures |payload| > 55 ==>
      && 1 <= |length| <= 8 && FromBe(length) == |payload| && length[0] != 0
      && EncodeList(payload) == [(0xf7 + |length|) as Byte] + length + payload
  {
    length := Be(|payload|);
    LengthOfU64(|payload|);
    FromBeOfBe(|payload|);
    if |payload| > 0 {
      NoLeadingZero(|payload|);
    }
    hide Be, FromBe;
  }

  /** The list header adds no ambiguity. */
  lemma ListInjective(p: Bytes, q: Bytes)
    requires Fits(p) && Fits(q) && EncodeList(p) == EncodeList(q)
    ensures p == q
  {
    LengthOfU64(|p|);
    LengthOfU64(|q|);
    var hp, hq := Prefix(0xc0, |p|), Prefix(0xc0, |q|);
    assert hp[0] == EncodeList(p)[0] == EncodeList(q)[0] == hq[0];
    assert |hp| == |hq|;
    assert p == EncodeList(p)[|hp|..] && q == EncodeList(q)[|hq|..];
  }
}
