/** The root hash over a range of block hashes. */
module Merkle {
  import opened Primitives

  type PairHash = (B256, B256) -> B256

  predicate IsPow2(n: nat) {
    n == 1 || (n > 0 && n % 2 == 0 && IsPow2(n / 2))
  }

  function GrowPow2(p: nat, n: nat): (r: nat)
    requires IsPow2(p)
    ensures IsPow2(r) && r >= n && r >= p
    ensures r == p || r < 2 * n
    decreases n - p
  {
    if p >= n then p else GrowPow2(2 * p, n)
  }

  /** `next_power_of_two`. */
  function NextPow2(n: nat): (r: nat)
    requires n > 0
    ensures IsPow2(r) && n <= r < 2 * n
  {
    GrowPow2(1, n)
  }

  /** The list filled up with zero hashes. */
  function Padded(hashes: seq<B256>): (r: seq<B256>)
    requires hashes != []
    ensures |r| == NextPow2(|hashes|)
  {
    hashes + seq(NextPow2(|hashes|) - |hashes|, _ => ZeroHash())
  }

  /** One level up: neighbours hashed together. */
  function PairUp(s: seq<B256>, hash: PairHash): (r: seq<B256>)
    requires |s| % 2 == 0
    ensures |r| == |s| / 2
    ensures forall i :: 0 <= i < |r| ==> r[i] == hash(s[2 * i], s[2 * i + 1])
  {
    seq(|s| / 2, i requires 0 <= i < |s| / 2 => hash(s[2 * i], s[2 * i + 1]))
  }

  /** The Merkle tree read from the top: the halves are the subtrees. */
  function Root(s: seq<B256>, hash: PairHash): B256
    requires IsPow2(|s|)
    decreases |s|
  {
    if |s| == 1 then s[0]
    else hash(Root(s[..|s| / 2], hash), Root(s[|s| / 2..], hash))
  }

  lemma HalfOfPow2(n: nat)
    requires IsPow2(n) && n > 1
    ensures IsPow2(n / 2) && n == 2 * (n / 2)
  {
  }

  lemma RootOfHalves(s: seq<B256>, hash: PairHash)
    requires IsPow2(|s|) && |s| > 1 && IsPow2(|s| / 2) && |s| % 2 == 0
    ensures Root(s, hash) == hash(Root(s[..|s| / 2], hash), Root(s[|s| / 2..], hash))
  {
    hide IsPow2;
  }

  lemma RootOfOne(s: seq<B256>, hash: PairHash)
    requires IsPow2(|s|) && |s| == 1
    ensures Root(s, hash) == s[0]
  {
  }

  /** Going up commutes with halving. */
  lemma PairUpHalves(s: seq<B256>, h: nat, hash: PairHash)
    requires |s| == 4 * h
    ensures
      var up := PairUp(s, hash);
      && |up| == 2 * h
      && up[..h] == PairUp(s[..2 * h], hash)
      && up[h..] == PairUp(s[2 * h..], hash)
  {
  }

  /** Going one level up keeps the root. */
  lemma {:induction false} PairUpKeepsRoot(s: seq<B256>, hash: PairHash)
    requires IsPow2(|s|) && |s| >= 2
    ensures IsPow2(|s| / 2) && Root(PairUp(s, hash), hash) == Root(s, hash)
    decreases |s|
  {
    var up, half := PairUp(s, hash), |s| / 2;
    hide IsPow2, Root;
    HalfOfPow2(|s|);
    RootOfHalves(s, hash);
    if half == 1 {
      RootOfOne(up, hash);
      RootOfOne(s[..1], hash);
      RootOfOne(s[1..], hash);
    } else {
      HalfOfPow2(half);
      PairUpHalves(s, half / 2, hash);
      hide PairUp;
      RootOfHalves(up, hash);
      PairUpKeepsRoot(s[..half], hash);
      PairUpKeepsRoot(s[half..], hash);
    }
  }

  /** What the program's loops compute. */
  function RootHash(hashes: seq<B256>, hash: PairHash): B256 {
    if hashes == [] then ZeroHash() else Root(Padded(hashes), hash)
  }

  /** Pads to a power of two, then replaces each level by the next until one hash is left. */
  method ComputeRootHash(hashes: seq<B256>, hash: PairHash) returns (root: B256)
    ensures root == RootHash(hashes, hash)
  {
    if |hashes| == 0 {
      return ZeroHash();
    }
    if |hashes| == 1 {
      assert Padded(hashes) == hashes;
      return hashes[0];
    }
    var level := hashes;
    var target := NextPow2(|level|);
    while |level| < target
      invariant |hashes| <= |level| <= target
      invariant level == Padded(hashes)[..|level|]
    {
      level := level + [ZeroHash()];
    }
    assert level == Padded(hashes);
    hide Padded, NextPow2;
    while |level| > 1
      invariant IsPow2(|level|)
      invariant Root(level, hash) == Root(Padded(hashes), hash)
      decreases |level|
    {
      PairUpKeepsRoot(level, hash);
      level := NextLevel(level, hash);
    }
    return level[0];
  }

  /** One pass over the pairs of a level; no chunk is ever short. */
  method NextLevel(level: seq<B256>, hash: PairHash) returns (next: seq<B256>)
    requires |level| % 2 == 0
    ensures next == PairUp(level, hash)
  {
    next := [];
    for i := 0 to |level| / 2
      invariant next == PairUp(level, hash)[..i]
    {
      next := next + [hash(level[2 * i], level[2 * i + 1])];
    }
  }

  // ---------------------------------------------------------------- binding

  /** The pairs hashed on the way to the root. */
  function PairsOf(s: seq<B256>, hash: PairHash): set<(B256, B256)>
    requires IsPow2(|s|)
    decreases |s|
  {
    if |s| == 1 then {}
    else
      var a, b := s[..|s| / 2], s[|s| / 2..];
      PairsOf(a, hash) + PairsOf(b, hash) + {(Root(a, hash), Root(b, hash))}
  }

  /** The hash separates these pairs. */
  ghost predicate InjectiveOn(hash: PairHash, pairs: set<(B256, B256)>) {
    forall p, q :: p in pairs && q in pairs && hash(p.0, p.1) == hash(q.0, q.1) ==> p == q
  }

  lemma Halves(s: seq<B256>)
    requires IsPow2(|s|) && |s| > 1
    ensures IsPow2(|s| / 2) && |s| % 2 == 0
    ensures |s[..|s| / 2]| == |s[|s| / 2..]| == |s| / 2 && s == s[..|s| / 2] + s[|s| / 2..]
  {
    hide IsPow2;
    HalfOfPow2(|s|);
    var h := |s| / 2;
    assert s[..h] + s[h..] == s;
  }

  lemma PairsOfHalves(s: seq<B256>, hash: PairHash)
    requires IsPow2(|s|) && |s| > 1 && IsPow2(|s| / 2) && |s| % 2 == 0
    ensures
      var l, r := s[..|s| / 2], s[|s| / 2..];
      PairsOf(s, hash) == PairsOf(l, hash) + PairsOf(r, hash) + {(Root(l, hash), Root(r, hash))}
  {
    hide IsPow2, Root;
  }

  /** The two subtrees and the pair at the top. */
  lemma TopPair(s: seq<B256>, hash: PairHash)
    requires IsPow2(|s|) && |s| > 1
    ensures IsPow2(|s| / 2) && |s| % 2 == 0
    ensures
      var l, r := s[..|s| / 2], s[|s| / 2..];
      && |l| == |r| == |s| / 2 && s == l + r
      && Root(s, hash) == hash(Root(l, hash), Root(r, hash))
      && PairsOf(s, hash) == PairsOf(l, hash) + PairsOf(r, hash) + {(Root(l, hash), Root(r, hash))}
  {
    hide IsPow2, Root, PairsOf;
    Halves(s);
    RootOfHalves(s, hash);
    PairsOfHalves(s, hash);
  }

  lemma SingleLeaf(s: seq<B256>, hash: PairHash)
    requires IsPow2(|s|) && |s| <= 1
    ensures s == [Root(s, hash)]
  {
  }

  lemma SameTop(s: seq<B256>, t: seq<B256>, hash: PairHash, pairs: set<(B256, B256)>)
    requires IsPow2(|s|) && 1 < |s| == |t| && Root(s, hash) == Root(t, hash)
    requires InjectiveOn(hash, pairs) && PairsOf(s, hash) <= pairs && PairsOf(t, hash) <= pairs
    ensures
      var h := |s| / 2;
      && IsPow2(h)
      && Root(s[..h], hash) == Root(t[..h], hash) && Root(s[h..], hash) == Root(t[h..], hash)
  {
    hide PairsOf, Root, IsPow2;
    TopPair(s, hash);
    TopPair(t, hash);
    var h := |s| / 2;
    var p, q := (Root(s[..h], hash), Root(s[h..], hash)), (Root(t[..h], hash), Root(t[h..], hash));
    assert p in PairsOf(s, hash) && q in PairsOf(t, hash);
    assert hash(p.0, p.1) == hash(q.0, q.1);
    assert p == q;
  }

  lemma {:induction false} RootBinds(s: seq<B256>, t: seq<B256>, hash: PairHash, pairs: set<(B256, B256)>)
    requires IsPow2(|s|) && |s| == |t| && Root(s, hash) == Root(t, hash)
    requires InjectiveOn(hash, pairs) && PairsOf(s, hash) <= pairs && PairsOf(t, hash) <= pairs
    ensures s == t
    decreases |s|
  {
    hide PairsOf, Root, IsPow2, InjectiveOn;
    if |s| <= 1 {
      SingleLeaf(s, hash);
      SingleLeaf(t, hash);
    } else {
      var h := |s| / 2;
      TopPair(s, hash);
      TopPair(t, hash);
      SameTop(s, t, hash, pairs);
      RootBinds(s[..h], t[..h], hash, pairs);
      RootBinds(s[h..], t[h..], hash, pairs);
    }
  }

  // ---------------------------------------------------------------- trees of different heights

  /** Different powers of two are at least a factor of two apart. */
  lemma {:induction false} Pow2Gap(m: nat, n: nat)
    requires IsPow2(m) && IsPow2(n) && m > n
    ensures m / 2 >= n && m % 2 == 0 && IsPow2(m / 2)
  {
    if n == 1 {
    } else {
      Pow2Gap(m / 2, n / 2);
    }
  }

  /** The list lifted level by level until `n` hashes are left. */
  function Lifted(s: seq<B256>, n: nat, hash: PairHash): (r: seq<B256>)
    requires IsPow2(|s|) && IsPow2(n) && |s| >= n
    ensures |r| == n
    decreases |s|
  {
    if |s| == n then s
    else
      Pow2Gap(|s|, n);
      Lifted(PairUp(s, hash), n, hash)
  }

  lemma {:induction false} LiftKeepsRoot(s: seq<B256>, n: nat, hash: PairHash)
    requires IsPow2(|s|) && IsPow2(n) && |s| >= n
    ensures Root(Lifted(s, n, hash), hash) == Root(s, hash)
    ensures PairsOf(Lifted(s, n, hash), hash) <= PairsOf(s, hash)
    decreases |s|
  {
    if |s| == n {
    } else {
      Pow2Gap(|s|, n);
      hide Root, PairsOf, IsPow2;
      PairUpKeepsRoot(s, hash);
      PairUpKeepsPairs(s, hash);
      LiftKeepsRoot(PairUp(s, hash), n, hash);
    }
  }

  /** Every pair hashed above the next level is hashed in the whole tree. */
  lemma {:induction false} PairUpKeepsPairs(s: seq<B256>, hash: PairHash)
    requires IsPow2(|s|) && |s| >= 2
    ensures IsPow2(|s| / 2) && PairsOf(PairUp(s, hash), hash) <= PairsOf(s, hash)
    decreases |s|
  {
    var up, half := PairUp(s, hash), |s| / 2;
    hide IsPow2, Root, PairsOf;
    HalfOfPow2(|s|);
    if half == 1 {
      NoPairs(up, hash);
    } else {
      HalfOfPow2(half);
      PairUpHalves(s, half / 2, hash);
      hide PairUp;
      TopPair(s, hash);
      TopPair(up, hash);
      PairUpKeepsPairs(s[..half], hash);
      PairUpKeepsPairs(s[half..], hash);
      PairUpKeepsRoot(s[..half], hash);
      PairUpKeepsRoot(s[half..], hash);
    }
  }

  lemma NoPairs(s: seq<B256>, hash: PairHash)
    requires IsPow2(|s|) && |s| == 1
    ensures PairsOf(s, hash) == {}
  {
  }

  /** Roots of trees of any two heights agree exactly when the taller one's leaves lift to the
      leaves of the other. */
  lemma RootIff(s: seq<B256>, t: seq<B256>, hash: PairHash)
    requires IsPow2(|s|) && IsPow2(|t|) && |s| >= |t|
    requires InjectiveOn(hash, PairsOf(s, hash) + PairsOf(t, hash))
    ensures Root(s, hash) == Root(t, hash) <==> Lifted(s, |t|, hash) == t
  {
    hide PairsOf, Root, InjectiveOn, Lifted, IsPow2;
    var up := Lifted(s, |t|, hash);
    LiftKeepsRoot(s, |t|, hash);
    if Root(s, hash) == Root(t, hash) {
      RootBinds(up, t, hash, PairsOf(s, hash) + PairsOf(t, hash));
    }
  }

  /** The leaves under a root; no blocks count as one zero hash. */
  function Leaves(hashes: seq<B256>): (r: seq<B256>)
    ensures IsPow2(|r|)
  {
    if hashes == [] then [ZeroHash()] else Padded(hashes)
  }

  /** What a root binds, for all lists: if the hash separates the pairs of the two trees, two roots
      agree exactly when the longer list of leaves, lifted to the length of the shorter one, gives
      that list.  In particular equally long lists with equal roots are equal. */
  lemma RootHashIff(s: seq<B256>, t: seq<B256>, hash: PairHash)
    requires InjectiveOn(hash, PairsOf(Leaves(s), hash) + PairsOf(Leaves(t), hash))
    ensures
      var a, b := Leaves(s), Leaves(t);
      RootHash(s, hash) == RootHash(t, hash)
      <==> if |a| >= |b| then Lifted(a, |b|, hash) == b else Lifted(b, |a|, hash) == a
    ensures |s| == |t| ==> (RootHash(s, hash) == RootHash(t, hash) <==> s == t)
  {
    var a, b := Leaves(s), Leaves(t);
    assert RootHash(s, hash) == Root(a, hash) && RootHash(t, hash) == Root(b, hash);
    assert PairsOf(a, hash) + PairsOf(b, hash) == PairsOf(b, hash) + PairsOf(a, hash);
    hide PairsOf, Root, RootHash;
    if |a| >= |b| {
      RootIff(a, b, hash);
    } else {
      RootIff(b, a, hash);
    }
    if |s| == |t| > 0 {
      assert s == a[..|s|] && t == b[..|t|];
    }
  }

  /** Levels are not told apart: a full list and any level above it share a root. */
  lemma LevelsCollide(s: seq<B256>, n: nat, hash: PairHash)
    requires IsPow2(|s|) && IsPow2(n) && |s| >= n
    ensures RootHash(Lifted(s, n, hash), hash) == RootHash(s, hash)
  {
    hide Root, PairsOf, Lifted, Padded;
    FullListIsPadded(s);
    FullListIsPadded(Lifted(s, n, hash));
    LiftKeepsRoot(s, n, hash);
  }

  /** The smallest such pair: one hash and the two it was made of. */
  lemma TwoLeavesCollide(a: B256, b: B256, hash: PairHash)
    ensures RootHash([], hash) == ZeroHash()
    ensures RootHash([a], hash) == a
    ensures RootHash([a, b], hash) == hash(a, b)
    ensures RootHash([hash(a, b)], hash) == RootHash([a, b], hash)
  {
    FullListIsPadded([a]);
    FullListIsPadded([a, b]);
    FullListIsPadded([hash(a, b)]);
    hide Padded;
    assert Root([hash(a, b)], hash) == hash(a, b);
    assert [a, b][..1] == [a] && [a, b][1..] == [b];
    assert Root([a], hash) == a && Root([b], hash) == b;
  }

  lemma FullListIsPadded(s: seq<B256>)
    requires IsPow2(|s|)
    ensures Padded(s) == s
  {
    var m := NextPow2(|s|);
    if m > |s| {
      Pow2Gap(m, |s|);
    }
    assert m == |s|;
  }

  /** Length is not bound: a list and the list with its first padding hash written out share a root. */
  lemma PaddingIsNotBound(s: seq<B256>, hash: PairHash)
    requires s != [] && !IsPow2(|s|)
    ensures RootHash(s + [ZeroHash()], hash) == RootHash(s, hash)
  {
    var n, m := |s|, NextPow2(|s|);
    assert n < m;
    SamePow2(n);
    assert Padded(s + [ZeroHash()]) == Padded(s);
  }

  lemma SamePow2(n: nat)
    requires n > 0 && !IsPow2(n)
    ensures NextPow2(n + 1) == NextPow2(n)
  {
    GrowSame(1, n);
  }

  lemma {:induction false} GrowSame(p: nat, n: nat)
    requires IsPow2(p) && !IsPow2(n)
    ensures p < n ==> GrowPow2(p, n + 1) == GrowPow2(p, n)
    decreases n - p
  {
    if p >= n {
    } else {
      assert IsPow2(2 * p) && 2 * p != n;
      GrowSame(2 * p, n);
    }
  }
}
