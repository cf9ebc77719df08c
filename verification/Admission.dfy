/** Runs of accepted blocks: each one is checked against the log, recorded and the log pruned. */
module Admission {
  import opened Primitives
  import opened RecentSigners

  /** An accepted block: its height, its signer and the signers authorised by its span. */
  datatype Block = Block(height: nat, signer: Address, signers: seq<Address>)

  /** The checks a block with a known span must pass. */
  ghost predicate Accepts(log: Log, b: Block) {
    b.signer in b.signers && !RecentlySigned(log, b.signer, b.height, |b.signers|)
  }

  /** The log the engine keeps. */
  function KeptLog(run: seq<Block>): Log {
    if run == [] then map[]
    else Record(KeptLog(Front(run)), Last(run).height, Last(run).signer, |Last(run).signers|)
  }

  /** The log without any pruning. */
  function FullLog(run: seq<Block>): Log {
    if run == [] then map[] else FullLog(Front(run))[Last(run).height := Last(run).signer]
  }

  /** Every block was accepted when it came. */
  ghost predicate Accepted(run: seq<Block>) {
    run == [] || (Accepted(Front(run)) && Accepts(KeptLog(Front(run)), Last(run)))
  }

  /** Heights increase and the window grows by at most one from block to block. */
  ghost predicate Steady(run: seq<Block>) {
    forall k :: 0 < k < |run| ==> SteadyStep(run[k - 1], run[k])
  }

  ghost predicate SteadyStep(a: Block, b: Block) {
    a.height < b.height && Window(|b.signers|) <= Window(|a.signers|) + 1
  }

  function CutoffOf(b: Block): nat {
    Cutoff(b.height, |b.signers|)
  }

  // ---------------------------------------------------------------- pruning is invisible

  lemma {:induction false} HeightsIncrease(run: seq<Block>, i: nat, j: nat)
    requires Steady(run) && i < j < |run|
    ensures run[i].height < run[j].height
  {
    assert SteadyStep(run[j - 1], run[j]);
    if i == j - 1 {
    } else {
      HeightsIncrease(run, i, j - 1);
    }
  }

  lemma SteadyPrefix(run: seq<Block>, j: nat)
    requires Steady(run) && j <= |run|
    ensures Steady(run[..j])
  {
    forall k | 0 < k < j ensures SteadyStep(run[..j][k - 1], run[..j][k]) {
      assert SteadyStep(run[k - 1], run[k]);
    }
  }

  lemma ExtendEmpty()
    ensures KeptLog([]) == map[] && FullLog([]) == map[] && Accepted([])
  {
  }

  lemma Extend(run: seq<Block>, b: Block)
    ensures KeptLog(run + [b]) == Record(KeptLog(run), b.height, b.signer, |b.signers|)
    ensures FullLog(run + [b]) == FullLog(run)[b.height := b.signer]
    ensures Accepted(run + [b]) <==> Accepted(run) && Accepts(KeptLog(run), b)
  {
    assert Front(run + [b]) == run;
  }

  lemma FirstBlock(b: Block)
    ensures KeptLog([b]) == FullLog([b]) == map[b.height := b.signer]
    ensures Accepted([b]) <==> b.signer in b.signers
  {
    ExtendEmpty();
    hide KeptLog, FullLog, Accepted;
    Extend([], b);
    assert [] + [b] == [b];
  }

  /** The kept log is the full log from the last cutoff on. */
  lemma {:induction false} KeptIsSuffixOfFull(run: seq<Block>)
    requires Steady(run) && run != []
    ensures KeptLog(run) == SplitOff(FullLog(run), CutoffOf(Last(run)))
  {
    var front, last := Front(run), Last(run);
    if front == [] {
    } else {
      SteadyPrefix(run, |front|);
      KeptIsSuffixOfFull(front);
      assert SteadyStep(run[|run| - 2], run[|run| - 1]);
      assert CutoffOf(Last(front)) <= CutoffOf(last);
    }
  }

  /** The kept log and the unpruned one give the same verdict on the next block. */
  ghost predicate SameVerdict(run: seq<Block>, next: Block, signer: Address) {
    RecentlySigned(KeptLog(run), signer, next.height, |next.signers|) <==>
    RecentlySigned(FullLog(run), signer, next.height, |next.signers|)
  }

  lemma SameVerdictFromCutoff(run: seq<Block>, next: Block, signer: Address)
    requires Steady(run) && run != [] && CutoffOf(Last(run)) <= CutoffOf(next)
    ensures SameVerdict(run, next, signer)
  {
    KeptIsSuffixOfFull(run);
  }

  /** Pruning is invisible along every steady run. */
  lemma PruningIsInvisible(run: seq<Block>, next: Block, signer: Address)
    requires Steady(run + [next])
    ensures SameVerdict(run, next, signer)
  {
    if run != [] {
      var all := run + [next];
      SteadyPrefix(all, |run|);
      assert all[..|run|] == run;
      assert SteadyStep(all[|run| - 1], all[|run|]);
      SameVerdictFromCutoff(run, next, signer);
    }
  }

  /** Exactly when: after a block `last`, pruning stays invisible to `next` for every steady
      accepted run and every signer just when the first height in the window does not move back.
      It moves back when the window grows by more than the height does. */
  lemma PruningIsInvisibleIff(last: Block, next: Block)
    requires last.height < next.height && last.signer in last.signers
    ensures (forall run: seq<Block>, signer: Address ::
              Accepted(run) && Steady(run) && run != [] && Last(run) == last ==> SameVerdict(run, next, signer))
       <==> CutoffOf(last) <= CutoffOf(next)
  {
    if CutoffOf(last) <= CutoffOf(next) {
      forall run: seq<Block>, signer: Address | Accepted(run) && Steady(run) && run != [] && Last(run) == last
        ensures SameVerdict(run, next, signer)
      {
        SameVerdictFromCutoff(run, next, signer);
      }
    } else {
      WindowMovedBack(last, next);
    }
  }

  lemma WindowMovedBack(last: Block, next: Block)
    requires last.height < next.height && last.signer in last.signers && CutoffOf(next) < CutoffOf(last)
    ensures exists run: seq<Block>, signer: Address ::
      Accepted(run) && Steady(run) && run != [] && Last(run) == last && !SameVerdict(run, next, signer)
  {
    var zero: Address, one: Address := seq(20, _ => 0), seq(20, _ => 1);
    assert zero[0] != one[0];
    var other := if last.signer == zero then one else zero;
    var lost := Block(CutoffOf(next), other, seq(|last.signers|, _ => other));
    assert lost.signers[0] == other;
    hide KeptLog, FullLog, Accepted;
    var run := [lost, last];
    FirstIsLost(lost, last);
    assert Steady(run) by {
      assert SteadyStep(lost, last);
    }
    assert Last(run) == last;
    assert !SameVerdict(run, next, other) by {
      assert lost.height in FullLog(run) && FullLog(run)[lost.height] == other;
      assert RecentlySigned(FullLog(run), other, next.height, |next.signers|);
    }
  }

  /** A block below the next one's cutoff leaves the kept log and stays in the full one. */
  lemma FirstIsLost(lost: Block, last: Block)
    requires lost.signer in lost.signers && last.signer in last.signers && lost.signer != last.signer
    requires lost.height < CutoffOf(last)
    ensures Accepted([lost, last])
    ensures KeptLog([lost, last]) == map[last.height := last.signer]
    ensures FullLog([lost, last]) == map[lost.height := lost.signer, last.height := last.signer]
  {
    hide KeptLog, FullLog, Accepted;
    FirstBlock(lost);
    Extend([lost], last);
    assert [lost] + [last] == [lost, last];
  }

  // ---------------------------------------------------------------- safety

  lemma {:induction false} PrefixAccepted(run: seq<Block>, j: nat)
    requires Accepted(run) && j < |run|
    ensures Accepted(run[..j]) && Accepts(KeptLog(run[..j]), run[j])
  {
    if j == |run| - 1 {
      assert run[..j] == Front(run);
    } else {
      PrefixAccepted(Front(run), j);
      assert Front(run)[..j] == run[..j];
    }
  }

  /** Block `i` is still in force after a run, in whatever order its heights came: no later block
      at its height has another signer, and no later cutoff has passed it. */
  ghost predicate Live(run: seq<Block>, i: int) {
    && 0 <= i < |run|
    && (forall k :: i < k < |run| && run[k].height == run[i].height ==> run[k].signer == run[i].signer)
    && (forall k :: i < k < |run| ==> CutoffOf(run[k]) <= run[i].height)
  }

  lemma LiveExtends(run: seq<Block>, b: Block, i: int)
    ensures Live(run + [b], i) <==>
      || i == |run|
      || (Live(run, i) && CutoffOf(b) <= run[i].height && (b.height == run[i].height ==> b.signer == run[i].signer))
  {
    var all := run + [b];
    hide CutoffOf;
    assert all[|run|] == b && forall k :: 0 <= k < |run| ==> all[k] == run[k];
    if 0 <= i < |run| && Live(all, i) {
      assert all[i] == run[i] && CutoffOf(all[|run|]) <= all[i].height;
    }
  }

  ghost predicate LiveSigner(run: seq<Block>, height: nat, signer: Address) {
    exists i :: Live(run, i) && run[i].height == height && run[i].signer == signer
  }

  /** The engine's log, said without replaying it: the signers of the blocks still in force. */
  lemma {:induction false} KeptHoldsIff(run: seq<Block>, height: nat, signer: Address)
    ensures height in KeptLog(run) && KeptLog(run)[height] == signer <==> LiveSigner(run, height, signer)
  {
    if run == [] {
    } else {
      var front, last := Front(run), Last(run);
      assert run == front + [last];
      KeptHoldsIff(front, height, signer);
      LiveSignerExtends(front, last, height, signer);
      hide LiveSigner;
    }
  }

  lemma LiveSignerExtends(run: seq<Block>, b: Block, height: nat, signer: Address)
    ensures LiveSigner(run + [b], height, signer) <==>
      if height == b.height then signer == b.signer
      else LiveSigner(run, height, signer) && CutoffOf(b) <= height
  {
    var all := run + [b];
    hide CutoffOf;
    assert all[|run|] == b && forall k :: 0 <= k < |run| ==> all[k] == run[k];
    LiveExtends(run, b, |run|);
    if LiveSigner(all, height, signer) {
      var i :| Live(all, i) && all[i].height == height && all[i].signer == signer;
      LiveExtends(run, b, i);
    }
    if LiveSigner(run, height, signer) {
      var i :| Live(run, i) && run[i].height == height && run[i].signer == signer;
      LiveExtends(run, b, i);
    }
  }

  /** Block `i` bars the next one: it is in force, inside the window, and has the same signer. */
  ghost predicate Bars(run: seq<Block>, i: int, next: Block) {
    Live(run, i) && run[i].signer == next.signer && CutoffOf(next) <= run[i].height < next.height
  }

  /** The check on the kept log, said about the blocks still in force. */
  lemma AcceptsIffNoneBars(run: seq<Block>, b: Block)
    ensures Accepts(KeptLog(run), b) <==> b.signer in b.signers && forall i :: !Bars(run, i, b)
  {
    hide KeptLog;
    if RecentlySigned(KeptLog(run), b.signer, b.height, |b.signers|) {
      var h :| CutoffOf(b) <= h < b.height && h in KeptLog(run) && KeptLog(run)[h] == b.signer;
      KeptHoldsIff(run, h, b.signer);
      var i :| Live(run, i) && run[i].height == h && run[i].signer == b.signer;
      assert Bars(run, i, b);
    } else {
      forall i ensures !Bars(run, i, b) {
        if Bars(run, i, b) {
          KeptHoldsIff(run, run[i].height, b.signer);
        }
      }
    }
  }

  /** Safety for any order of heights, in both directions: a block is accepted after a run exactly
      when its signer is authorised and no block still in force inside its window has that signer. */
  lemma AcceptedIffNoneBars(run: seq<Block>, b: Block)
    ensures Accepted(run + [b]) <==> Accepted(run) && b.signer in b.signers && forall i :: !Bars(run, i, b)
  {
    hide Accepts, Bars, Accepted;
    Extend(run, b);
    AcceptsIffNoneBars(run, b);
  }

  /** Hence an accepted block differs from every earlier one in its window that is still in force. */
  lemma NoRepeatWhileLive(run: seq<Block>, i: nat, j: nat)
    requires Accepted(run) && i < j < |run| && Live(run[..j], i)
    requires CutoffOf(run[j]) <= run[i].height < run[j].height
    ensures run[i].signer != run[j].signer
  {
    hide KeptLog, FullLog, Accepted, Live, Accepts;
    PrefixAccepted(run, j);
    AcceptsIffNoneBars(run[..j], run[j]);
    assert !Bars(run[..j], i, run[j]);
  }

  /** Why being in force matters: a sibling at the same height replaces the entry, and the first
      signer may sign the next block. */
  lemma SiblingFreesSigner(height: nat, a: Address, b: Address, signers: seq<Address>)
    requires a in signers && b in signers && a != b
    ensures Accepted([Block(height, a, signers), Block(height, b, signers), Block(height + 1, a, signers)])
  {
    var x, y, z := Block(height, a, signers), Block(height, b, signers), Block(height + 1, a, signers);
    hide KeptLog, FullLog, Accepted;
    FirstBlock(x);
    Extend([x], y);
    assert [x] + [y] == [x, y] && KeptLog([x, y]) == map[height := b];
    Extend([x, y], z);
    assert [x, y] + [z] == [x, y, z];
  }

  lemma {:induction false} CutoffsIncrease(run: seq<Block>, i: nat, j: nat)
    requires Steady(run) && i <= j < |run|
    ensures CutoffOf(run[i]) <= CutoffOf(run[j])
  {
    if i == j {
    } else {
      assert SteadyStep(run[j - 1], run[j]);
      CutoffsIncrease(run, i, j - 1);
    }
  }

  /** Along steady runs everything inside the window is still in force. */
  lemma SteadyIsLive(run: seq<Block>, i: nat, j: nat)
    requires Steady(run) && i < j < |run| && CutoffOf(run[j]) <= run[i].height
    ensures Live(run[..j], i)
  {
    hide CutoffOf, Steady;
    forall k | i < k < j ensures run[k].height != run[i].height && CutoffOf(run[k]) <= run[i].height {
      HeightsIncrease(run, i, k);
      CutoffsIncrease(run, k, j);
    }
  }

  /** Two blocks of a steady accepted run no further apart than the later one's window have
      different signers. */
  lemma NoRepeatInWindow(run: seq<Block>, i: nat, j: nat)
    requires Accepted(run) && Steady(run) && i < j < |run|
    requires run[j].height - run[i].height <= Window(|run[j].signers|)
    ensures run[i].signer != run[j].signer
  {
    hide Accepted, Steady, Live;
    HeightsIncrease(run, i, j);
    SteadyIsLive(run, i, j);
    NoRepeatWhileLive(run, i, j);
  }

  /** Consecutive heights from `start` under one list of signers. */
  function FixedRun(signers: seq<Address>, start: nat, chosen: seq<Address>): (run: seq<Block>)
    ensures |run| == |chosen|
    ensures forall k :: 0 <= k < |run| ==> run[k] == Block(start + k, chosen[k], signers)
  {
    seq(|chosen|, k requires 0 <= k < |chosen| => Block(start + k, chosen[k], signers))
  }

  lemma FixedRunExtends(signers: seq<Address>, start: nat, chosen: seq<Address>, next: Address)
    ensures FixedRun(signers, start, chosen + [next])
         == FixedRun(signers, start, chosen) + [Block(start + |chosen|, next, signers)]
  {
  }

  lemma FixedRunIsSteady(signers: seq<Address>, start: nat, chosen: seq<Address>)
    ensures Steady(FixedRun(signers, start, chosen))
  {
  }

  /** Safety: any n/2 + 2 consecutive accepted blocks have pairwise different signers. */
  lemma ConsecutiveSignersDiffer(signers: seq<Address>, start: nat, chosen: seq<Address>, first: nat)
    requires Accepted(FixedRun(signers, start, chosen))
    requires first + |signers| / 2 + 2 <= |chosen|
    ensures NoDuplicates(chosen[first..first + |signers| / 2 + 2])
  {
    var run := FixedRun(signers, start, chosen);
    var w := Window(|signers|);
    FixedRunIsSteady(signers, start, chosen);
    hide Accepted, Steady;
    forall i, j | first <= i < j <= first + w ensures chosen[i] != chosen[j] {
      NoRepeatInWindow(run, i, j);
    }
  }

  // ---------------------------------------------------------------- progress

  /** The signers recorded at the heights lo..hi-1. */
  function Seen(log: Log, lo: nat, hi: nat): (r: set<Address>)
    requires lo <= hi
    ensures |r| <= hi - lo
    decreases hi
  {
    if lo == hi then {}
    else Seen(log, lo, hi - 1) + if hi - 1 in log then {log[hi - 1]} else {}
  }

  lemma SeenStep(log: Log, lo: nat, hi: nat)
    requires lo < hi
    ensures Seen(log, lo, hi - 1) <= Seen(log, lo, hi)
    ensures hi - 1 in log ==> log[hi - 1] in Seen(log, lo, hi)
  {
  }

  lemma {:induction false} SeenHolds(log: Log, lo: nat, hi: nat, b: nat)
    requires lo <= b < hi && b in log
    ensures log[b] in Seen(log, lo, hi)
    decreases hi
  {
    SeenStep(log, lo, hi);
    hide Seen;
    if b == hi - 1 {
    } else {
      SeenHolds(log, lo, hi - 1, b);
    }
  }

  /** The authorised signers that may sign the next block. */
  ghost function Admissible(log: Log, height: nat, signers: seq<Address>): set<Address> {
    set a | a in signers && Accepts(log, Block(height, a, signers))
  }

  /** Progress: by pigeonhole over the window, whatever the log holds, at least n - (n/2 + 1)
      authorised signers may sign. */
  lemma EnoughAdmissible(log: Log, height: nat, signers: seq<Address>)
    requires NoDuplicates(signers)
    ensures |Admissible(log, height, signers)| >= |signers| - Window(|signers|)
  {
    var n := |signers|;
    var lo := Cutoff(height, n);
    var seen := Seen(log, lo, height);
    forall a | a in SetOf(signers) - seen ensures a in Admissible(log, height, signers) {
      if RecentlySigned(log, a, height, n) {
        var b :| lo <= b < height && b in log && log[b] == a;
        SeenHolds(log, lo, height, b);
      }
    }
    SizeOfSet(signers);
    Remaining(SetOf(signers), seen);
    SubsetSize(SetOf(signers) - seen, Admissible(log, height, signers));
  }

  lemma Remaining(all: set<Address>, seen: set<Address>)
    ensures |all - seen| >= |all| - |seen|
  {
    assert |all| == |all - seen| + |all * seen| by {
      assert all == (all - seen) + (all * seen);
    }
    SubsetSize(all * seen, seen);
  }

  /** Some run of consecutive accepted blocks leaves nobody who may sign the next one. */
  ghost predicate CanStall(signers: seq<Address>) {
    exists start: nat, chosen: seq<Address> ::
      Accepted(FixedRun(signers, start, chosen)) && Stalled(signers, start, chosen)
  }

  ghost predicate Stalled(signers: seq<Address>, start: nat, chosen: seq<Address>) {
    Admissible(KeptLog(FixedRun(signers, start, chosen)), start + |chosen|, signers) == {}
  }

  /** The chain never stalls exactly when there are at least three signers. */
  lemma NeverStallsIff(signers: seq<Address>)
    requires NoDuplicates(signers)
    ensures !CanStall(signers) <==> |signers| >= 3
  {
    if |signers| >= 3 {
      forall start: nat, chosen: seq<Address> ensures !Stalled(signers, start, chosen) {
        EnoughAdmissible(KeptLog(FixedRun(signers, start, chosen)), start + |chosen|, signers);
      }
    } else {
      SmallSetsStall(signers);
    }
  }

  /** With one or two signers everybody has signed within the window after as many blocks. */
  lemma SmallSetsStall(signers: seq<Address>)
    requires NoDuplicates(signers) && |signers| <= 2
    ensures Accepted(FixedRun(signers, 0, signers)) && Stalled(signers, 0, signers)
  {
    var run, n := FixedRun(signers, 0, signers), |signers|;
    SmallRun(signers);
    forall a | a in signers ensures RecentlySigned(KeptLog(run), a, n, n) {
      var i :| 0 <= i < n && signers[i] == a;
      assert Cutoff(n, n) <= i < n && i in KeptLog(run) && KeptLog(run)[i] == a;
    }
  }

  lemma SmallRun(signers: seq<Address>)
    requires NoDuplicates(signers) && |signers| <= 2
    ensures Accepted(FixedRun(signers, 0, signers))
    ensures forall i :: 0 <= i < |signers| ==>
      i in KeptLog(FixedRun(signers, 0, signers)) && KeptLog(FixedRun(signers, 0, signers))[i] == signers[i]
  {
    ExtendEmpty();
    hide KeptLog, FullLog, Accepted;
    var run, n := FixedRun(signers, 0, signers), |signers|;
    if n == 0 {
      assert run == [];
    } else {
      var r1 := [run[0]];
      FirstBlock(run[0]);
      if n == 1 {
        assert run == r1;
      } else {
        assert run == r1 + [run[1]];
        Extend(r1, run[1]);
        assert KeptLog(run) == map[0 := signers[0], 1 := signers[1]] && Accepted(run);
      }
    }
  }
}
