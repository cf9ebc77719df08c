/** The EIP-2124 fork identifier over the Ethereum hardforks. */
module ForkIds {
  import opened Primitives

  datatype ForkCondition =
    | AtBlock(block: nat)
    | TTD(forkBlock: Option<nat>)
    | AtTimestamp(timestamp: nat)
    | Never

  /** The block a condition contributes, if any. */
  function BlockOf(c: ForkCondition): Option<nat> {
    match c
    case AtBlock(block) => Some(block)
    case TTD(forkBlock) => forkBlock
    case _ => None
  }

  /** Folding a fork block into the running checksum. */
  type Fold<!H> = (H, nat) -> H

  datatype ForkId<H> = ForkId(hash: H, next: nat)

  predicate Increasing(s: seq<nat>) {
    forall i, j :: 0 <= i < j < |s| ==> s[i] < s[j]
  }

  predicate Sorted(s: seq<nat>) {
    forall i, j :: 0 <= i < j < |s| ==> s[i] <= s[j]
  }

  // ---------------------------------------------------------------- the list of fork blocks

  function Insert(b: nat, s: seq<nat>): (r: seq<nat>)
    requires Sorted(s)
    ensures Sorted(r)
    ensures forall x :: x in r <==> x == b || x in s
  {
    if s == [] then [b]
    else if b <= s[0] then [b] + s
    else
      var rest := Insert(b, s[1..]);
      assert forall x :: x in s <==> x == s[0] || x in s[1..];
      assert forall k :: 0 <= k < |rest| ==> rest[k] in rest;
      [s[0]] + rest
  }

  /** `sort_unstable`. */
  function Sort(s: seq<nat>): (r: seq<nat>)
    ensures Sorted(r)
    ensures forall x :: x in r <==> x in s
  {
    if s == [] then [] else Insert(s[|s| - 1], Sort(s[..|s| - 1]))
  }

  /** `dedup`: of equal neighbours the first stays. */
  function Dedup(s: seq<nat>): (r: seq<nat>)
    requires Sorted(s)
    ensures Increasing(r)
    ensures forall x :: x in r <==> x in s
    ensures s != [] ==> r != [] && r[|r| - 1] == s[|s| - 1]
  {
    if s == [] then []
    else
      var front, last := s[..|s| - 1], s[|s| - 1];
      var r := Dedup(front);
      assert forall x :: x in s <==> x in front || x == last;
      if front != [] && front[|front| - 1] == last then r
      else
        assert r != [] ==> r[|r| - 1] < last;
        assert forall k :: 0 <= k < |r| ==> r[k] <= r[|r| - 1];
        r + [last]
  }

  /** `retain` of the non-zero blocks. */
  function NonZero(s: seq<nat>): (r: seq<nat>)
    requires Increasing(s)
    ensures Increasing(r)
    ensures forall x :: x in r <==> x in s && x != 0
  {
    if s == [] then []
    else
      var front, last := s[..|s| - 1], s[|s| - 1];
      assert forall x :: x in s <==> x in front || x == last;
      var r := NonZero(front);
      assert forall k :: 0 <= k < |r| ==> r[k] in r;
      if last != 0 then r + [last] else r
  }

  /** The blocks contributed by a list of conditions, in its order. */
  function Contributed(forks: seq<ForkCondition>): (r: seq<nat>)
    ensures forall b: nat :: b in r <==> AtBlock(b) in forks || TTD(Some(b)) in forks
  {
    if forks == [] then []
    else
      var front, last := forks[..|forks| - 1], forks[|forks| - 1];
      assert forall c :: c in forks <==> c in front || c == last;
      match BlockOf(last)
      case None => Contributed(front)
      case Some(b) => Contributed(front) + [b]
  }

  /** The fork blocks used for fork ids. */
  function ForkBlocks(forks: seq<ForkCondition>): (r: seq<nat>)
    ensures Increasing(r)
    ensures forall b: nat :: b in r <==> b != 0 && (AtBlock(b) in forks || TTD(Some(b)) in forks)
  {
    NonZero(Dedup(Sort(Contributed(forks))))
  }

  /** A non-zero block at which some condition activates; timestamps and never do not count. */
  predicate IsForkBlock(forks: seq<ForkCondition>, b: nat) {
    b != 0 && (AtBlock(b) in forks || TTD(Some(b)) in forks)
  }

  /** Collects, sorts, deduplicates and drops block 0. */
  method EthForkBlocks(forks: seq<ForkCondition>) returns (blocks: seq<nat>)
    ensures blocks == ForkBlocks(forks)
  {
    blocks := [];
    for i := 0 to |forks|
      invariant blocks == Contributed(forks[..i])
    {
      assert forks[..i + 1][..i] == forks[..i];
      var block := BlockOf(forks[i]);
      if block.Some? {
        blocks := blocks + [block.value];
      }
    }
    assert forks[..|forks|] == forks;
    blocks := Sort(blocks);
    blocks := Dedup(blocks);
    blocks := NonZero(blocks);
  }

  lemma HasMember(s: seq<nat>)
    ensures s != [] ==> exists x :: x in s
  {
    if s != [] {
      assert s[0] in s;
    }
  }

  /** An increasing list is determined by its members. */
  lemma {:induction false} IncreasingIsUnique(s: seq<nat>, t: seq<nat>)
    requires Increasing(s) && Increasing(t) && forall x :: x in s <==> x in t
    ensures s == t
  {
    if s == [] {
      HasMember(t);
    } else {
      var x := s[|s| - 1];
      assert x in s;
      assert t != [];
      var y := t[|t| - 1];
      assert y in t;
      assert x == y;
      var s', t' := s[..|s| - 1], t[..|t| - 1];
      forall z ensures z in s' <==> z in t' {
        assert z in s <==> z in s' || z == x;
        assert z in t <==> z in t' || z == x;
      }
      IncreasingIsUnique(s', t');
    }
  }

  // ---------------------------------------------------------------- the fork id

  /** The loop over the fork blocks: fold the passed ones, stop at the first later one. */
  function ForkIdFrom<H>(blocks: seq<nat>, hash: H, head: nat, fold: Fold<H>): ForkId<H> {
    if blocks == [] then ForkId(hash, 0)
    else if head >= blocks[0] then ForkIdFrom(blocks[1..], fold(hash, blocks[0]), head, fold)
    else ForkId(hash, blocks[0])
  }

  function ForkIdAt<H>(forks: seq<ForkCondition>, genesis: H, head: nat, fold: Fold<H>): ForkId<H> {
    ForkIdFrom(ForkBlocks(forks), genesis, head, fold)
  }

  method ComputeForkId<H>(forks: seq<ForkCondition>, genesis: H, head: nat, fold: Fold<H>)
    returns (id: ForkId<H>)
    ensures id == ForkIdAt(forks, genesis, head, fold)
  {
    var hash := genesis;
    var blocks := EthForkBlocks(forks);
    assert blocks[0..] == blocks;
    for i := 0 to |blocks|
      invariant ForkIdFrom(blocks[i..], hash, head, fold) == ForkIdAt(forks, genesis, head, fold)
    {
      if head >= blocks[i] {
        hash := fold(hash, blocks[i]);
      } else {
        return ForkId(hash, blocks[i]);
      }
    }
    return ForkId(hash, 0);
  }

  method LatestForkId<H>(forks: seq<ForkCondition>, genesis: H, fold: Fold<H>) returns (id: ForkId<H>)
    ensures id == ForkIdAt(forks, genesis, LatestHead(forks), fold)
  {
    var blocks := EthForkBlocks(forks);
    if |blocks| > 0 {
      id := ComputeForkId(forks, genesis, blocks[|blocks| - 1], fold);
    } else {
      id := ComputeForkId(forks, genesis, 0, fold);
    }
  }

  function LatestHead(forks: seq<ForkCondition>): nat {
    var blocks := ForkBlocks(forks);
    if blocks == [] then 0 else blocks[|blocks| - 1]
  }

  // ---------------------------------------------------------------- what a fork id says

  /** The checksum of a list of blocks, first block first. */
  function Checksum<H>(genesis: H, blocks: seq<nat>, fold: Fold<H>): H {
    if blocks == [] then genesis
    else fold(Checksum(genesis, blocks[..|blocks| - 1], fold), blocks[|blocks| - 1])
  }

  /** `passed` are the fork blocks at or below the head, in ascending order. */
  ghost predicate ArePassed(passed: seq<nat>, forks: seq<ForkCondition>, head: nat) {
    Increasing(passed) && forall b: nat :: b in passed <==> IsForkBlock(forks, b) && b <= head
  }

  /** `next` is the least fork block above the head, or 0 if there is none. */
  ghost predicate IsNext(next: nat, forks: seq<ForkCondition>, head: nat) {
    if next == 0 then forall b: nat :: IsForkBlock(forks, b) ==> b <= head
    else
      && IsForkBlock(forks, next) && next > head
      && forall b: nat :: IsForkBlock(forks, b) && b > head ==> next <= b
  }

  lemma {:induction false} ChecksumFromFront<H>(genesis: H, b: nat, rest: seq<nat>, fold: Fold<H>)
    ensures Checksum(genesis, [b] + rest, fold) == Checksum(fold(genesis, b), rest, fold)
  {
    if rest == [] {
      assert ([b] + rest)[..0] == [];
    } else {
      assert ([b] + rest)[..|rest|] == [b] + rest[..|rest| - 1];
      ChecksumFromFront(genesis, b, rest[..|rest| - 1], fold);
    }
  }

  /** The number of leading blocks at or below the head. */
  function PassedCount(blocks: seq<nat>, head: nat): (k: nat)
    requires Increasing(blocks)
    ensures k <= |blocks|
    ensures forall i :: 0 <= i < |blocks| ==> (blocks[i] <= head <==> i < k)
  {
    if blocks == [] || blocks[0] > head then 0 else 1 + PassedCount(blocks[1..], head)
  }

  lemma {:induction false} LoopSplits<H>(blocks: seq<nat>, hash: H, head: nat, fold: Fold<H>)
    requires Increasing(blocks)
    ensures
      var k := PassedCount(blocks, head);
      ForkIdFrom(blocks, hash, head, fold)
      == ForkId(Checksum(hash, blocks[..k], fold), if k == |blocks| then 0 else blocks[k])
  {
    if blocks != [] && blocks[0] <= head {
      var k := PassedCount(blocks, head);
      LoopSplits(blocks[1..], fold(hash, blocks[0]), head, fold);
      assert blocks[..k] == [blocks[0]] + blocks[1..][..k - 1];
      ChecksumFromFront(hash, blocks[0], blocks[1..][..k - 1], fold);
    }
  }

  /** The hash folds exactly the fork blocks up to the head in ascending order, and `next` is the
      first one after it. */
  lemma ForkIdMeans<H>(forks: seq<ForkCondition>, genesis: H, head: nat, fold: Fold<H>) returns (passed: seq<nat>)
    ensures ArePassed(passed, forks, head)
    ensures ForkIdAt(forks, genesis, head, fold).hash == Checksum(genesis, passed, fold)
    ensures IsNext(ForkIdAt(forks, genesis, head, fold).next, forks, head)
  {
    var blocks := ForkBlocks(forks);
    passed := blocks[..PassedCount(blocks, head)];
    LoopSplits(blocks, genesis, head, fold);
    PassedMembers(blocks, head);
    hide ForkBlocks, ForkIdFrom, Checksum, IsForkBlock, PassedCount;
    assert forall b: nat :: IsForkBlock(forks, b) <==> b in blocks;
  }

  /** Membership on the two sides of the split. */
  lemma PassedMembers(blocks: seq<nat>, head: nat)
    requires Increasing(blocks)
    ensures
      var k := PassedCount(blocks, head);
      && Increasing(blocks[..k])
      && (forall b :: b in blocks[..k] <==> b in blocks && b <= head)
      && (k == |blocks| ==> forall b :: b in blocks ==> b <= head)
      && (k < |blocks| ==> blocks[k] in blocks && forall b :: b in blocks && b > head ==> blocks[k] <= b)
  {
    var k := PassedCount(blocks, head);
    hide PassedCount;
    forall b | b in blocks && b <= head ensures b in blocks[..k] {
      var i :| 0 <= i < |blocks| && blocks[i] == b;
      assert blocks[..k][i] == b;
    }
  }

  /** Two heads share a fork id exactly when no fork block separates them. */
  lemma SameForkIdIff<H>(forks: seq<ForkCondition>, genesis: H, low: nat, high: nat, fold: Fold<H>)
    requires low <= high
    ensures ForkIdAt(forks, genesis, low, fold) == ForkIdAt(forks, genesis, high, fold)
       <==> !exists b: nat :: IsForkBlock(forks, b) && low < b <= high
  {
    var p := ForkIdMeans(forks, genesis, low, fold);
    var q := ForkIdMeans(forks, genesis, high, fold);
    hide ForkIdAt, IsForkBlock, Checksum;
    if !exists b: nat :: IsForkBlock(forks, b) && low < b <= high {
      IncreasingIsUnique(p, q);
    }
  }

  /** The latest fork id is the id at every head from the last fork on. */
  lemma LatestIsFinal<H>(forks: seq<ForkCondition>, genesis: H, head: nat, fold: Fold<H>)
    requires head >= LatestHead(forks)
    ensures ForkIdAt(forks, genesis, head, fold) == ForkIdAt(forks, genesis, LatestHead(forks), fold)
    ensures ForkIdAt(forks, genesis, head, fold).next == 0
  {
    var blocks := ForkBlocks(forks);
    forall b: nat | IsForkBlock(forks, b) ensures b <= LatestHead(forks) {
      assert b in blocks;
    }
    SameForkIdIff(forks, genesis, LatestHead(forks), head, fold);
    var passed := ForkIdMeans(forks, genesis, head, fold);
  }

  /** Only the set of fork blocks matters, not the order or repetition of the conditions. */
  lemma ForkIdOfSet<H>(a: seq<ForkCondition>, b: seq<ForkCondition>, genesis: H, head: nat, fold: Fold<H>)
    requires forall x: nat :: IsForkBlock(a, x) <==> IsForkBlock(b, x)
    ensures ForkIdAt(a, genesis, head, fold) == ForkIdAt(b, genesis, head, fold)
  {
    var s, t := ForkBlocks(a), ForkBlocks(b);
    forall x: nat ensures x in s <==> IsForkBlock(a, x) {
    }
    forall x: nat ensures x in t <==> IsForkBlock(b, x) {
    }
    hide IsForkBlock, ForkBlocks, ForkIdFrom;
    IncreasingIsUnique(s, t);
  }
}
