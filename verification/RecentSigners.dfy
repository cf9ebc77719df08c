/** The recent-signers log: block number to signer, scanned and pruned by a sliding window. */
module RecentSigners {
  import opened Primitives

  type Log = map<nat, Address>

  function SaturatingSub(a: nat, b: nat): nat {
    if a >= b then a - b else 0
  }

  /** How many earlier blocks are looked at with `count` validators. */
  function Window(count: nat): nat {
    count / 2 + 1
  }

  /** The first block number inside the window of `block`. */
  function Cutoff(block: nat, count: nat): nat {
    SaturatingSub(block, Window(count))
  }

  predicate RecentlySigned(log: Log, signer: Address, block: nat, count: nat) {
    exists b :: Cutoff(block, count) <= b < block && b in log && log[b] == signer
  }

  /** `BTreeMap::split_off`: the entries from `cutoff` on. */
  function SplitOff(log: Log, cutoff: nat): (r: Log)
    ensures forall b :: b in r <==> b in log && b >= cutoff
    ensures forall b :: b in r ==> r[b] == log[b]
  {
    map b | b in log && b >= cutoff :: log[b]
  }

  /** What `add_signer` followed by `prune` leaves. */
  function Record(log: Log, block: nat, signer: Address, count: nat): Log {
    SplitOff(log[block := signer], Cutoff(block, count))
  }

  class Recents {
    var signers: Log

    constructor ()
      ensures signers == map[]
    {
      signers := map[];
    }

    method IsRecentlySigned(signer: Address, block: nat, count: nat) returns (recent: bool)
      ensures recent <==> RecentlySigned(signers, signer, block, count)
      ensures recent <==> exists b :: block - (count / 2 + 1) <= b < block && b in signers && signers[b] == signer
    {
      var start := Cutoff(block, count);
      for b := start to block
        invariant forall c :: start <= c < b && c in signers ==> signers[c] != signer
      {
        if b in signers && signers[b] == signer {
          return true;
        }
      }
      return false;
    }

    method AddSigner(block: nat, signer: Address)
      modifies this
      ensures signers == old(signers)[block := signer]
    {
      signers := signers[block := signer];
    }

    method Prune(block: nat, count: nat)
      modifies this
      ensures signers == SplitOff(old(signers), Cutoff(block, count))
      ensures forall b :: b in signers <==> b in old(signers) && b >= block - (count / 2 + 1)
      ensures forall b :: b in signers ==> signers[b] == old(signers)[b]
    {
      signers := SplitOff(signers, Cutoff(block, count));
    }
  }
}
