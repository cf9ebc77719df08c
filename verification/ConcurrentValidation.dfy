/** Validation on several threads: the program releases the recents lock between the check and the
    recording, so other blocks may be recorded in between. */
module ConcurrentValidation {
  import opened Admission
  import opened Primitives
  import opened RecentSigners

  /** A recorded block and how many blocks had been recorded when its check passed. */
  datatype Checked = Checked(block: Block, seen: nat)

  function Blocks(history: seq<Checked>): (r: seq<Block>)
    ensures |r| == |history| && forall i :: 0 <= i < |r| ==> r[i] == history[i].block
  {
    seq(|history|, i requires 0 <= i < |history| => history[i].block)
  }

  /** A history in the order of the recordings, under any interleaving: each check passed against
      the log at its own time.  Checks that failed leave no trace. */
  ghost predicate Interleaved(history: seq<Checked>) {
    forall j :: 0 <= j < |history| ==>
      history[j].seen <= j && Accepts(KeptLog(Blocks(history)[..history[j].seen]), history[j].block)
  }

  /** Block `j` is overtaken: one recorded between its check and its own recording bars it. */
  ghost predicate Overtaken(history: seq<Checked>, j: int) {
    0 <= j < |history| && exists i :: history[j].seen <= i && Bars(Blocks(history)[..j], i, history[j].block)
  }

  lemma BarredEarlier(run: seq<Block>, b: Block, seen: nat, i: int)
    requires seen <= |run| && i < seen && Bars(run, i, b)
    ensures Bars(run[..seen], i, b)
  {
    var early := run[..seen];
    assert forall k :: 0 <= k < seen ==> early[k] == run[k];
  }

  /** What the first `seen` blocks could object to was settled at the check. */
  lemma StillAcceptedIff(run: seq<Block>, b: Block, seen: nat)
    requires seen <= |run| && Accepts(KeptLog(run[..seen]), b)
    ensures Accepts(KeptLog(run), b) <==> forall i :: seen <= i ==> !Bars(run, i, b)
  {
    AcceptsIffNoneBars(run[..seen], b);
    AcceptsIffNoneBars(run, b);
    hide Accepts, Bars, KeptLog;
    forall i | i < seen ensures !Bars(run, i, b) {
      if Bars(run, i, b) {
        BarredEarlier(run, b, seen, i);
      }
    }
  }

  lemma FrontIsInterleaved(history: seq<Checked>)
    requires Interleaved(history) && history != []
    ensures Interleaved(history[..|history| - 1])
    ensures Blocks(history) == Blocks(history[..|history| - 1]) + [history[|history| - 1].block]
  {
    hide Accepts, KeptLog;
    var front := history[..|history| - 1];
    forall j | 0 <= j < |front|
      ensures front[j].seen <= j && Accepts(KeptLog(Blocks(front)[..front[j].seen]), front[j].block)
    {
      assert front[j] == history[j];
      assert Blocks(front)[..front[j].seen] == Blocks(history)[..front[j].seen];
    }
  }

  lemma OvertakenInFront(history: seq<Checked>, j: nat)
    requires j < |history| - 1
    ensures Overtaken(history, j) <==> Overtaken(history[..|history| - 1], j)
  {
    hide Bars;
    assert Blocks(history)[..j] == Blocks(history[..|history| - 1])[..j];
  }

  lemma LastIsAcceptedIff(history: seq<Checked>)
    requires Interleaved(history) && history != []
    ensures
      var n := |history| - 1;
      Accepts(KeptLog(Blocks(history[..n])), history[n].block) <==> !Overtaken(history, n)
  {
    hide Accepts, KeptLog, Bars;
    var n := |history| - 1;
    var run, last := Blocks(history[..n]), history[n];
    assert Blocks(history)[..n] == run && Blocks(history)[..last.seen] == run[..last.seen];
    StillAcceptedIff(run, last.block, last.seen);
  }

  /** Whatever the interleaving, the recorded blocks are a run that one thread would have accepted
      exactly when no block is overtaken. */
  lemma {:induction false} SequentialIff(history: seq<Checked>)
    requires Interleaved(history)
    ensures Accepted(Blocks(history)) <==> forall j :: 0 <= j < |history| ==> !Overtaken(history, j)
  {
    if history == [] {
      ExtendEmpty();
      assert Blocks(history) == [];
    } else {
      hide Accepts, Accepted, KeptLog, Overtaken, Blocks;
      var n := |history| - 1;
      FrontIsInterleaved(history);
      LastIsAcceptedIff(history);
      SequentialIff(history[..n]);
      Extend(Blocks(history[..n]), history[n].block);
      hide Interleaved;
      forall j | 0 <= j < n ensures Overtaken(history, j) <==> Overtaken(history[..n], j) {
        OvertakenInFront(history, j);
      }
    }
  }

  /** Validations that do not overlap are sequential. */
  lemma OneAtATime(history: seq<Checked>)
    requires Interleaved(history) && forall j :: 0 <= j < |history| ==> history[j].seen == j
    ensures Accepted(Blocks(history))
  {
    SequentialIff(history);
    hide Accepted, Interleaved;
    forall j | 0 <= j < |history| ensures !Overtaken(history, j) {
      assert forall i :: Bars(Blocks(history)[..j], i, history[j].block) ==> i < j;
    }
  }

  /** Two blocks checked before either is recorded: one signer gets two heights in a row, which no
      single thread would accept. */
  lemma RaceRepeatsSigner(height: nat, a: Address, signers: seq<Address>)
    requires a in signers
    ensures
      var history := [Checked(Block(height, a, signers), 0), Checked(Block(height + 1, a, signers), 0)];
      Interleaved(history) && !Accepted(Blocks(history))
  {
    var x, y := Block(height, a, signers), Block(height + 1, a, signers);
    var history := [Checked(x, 0), Checked(y, 0)];
    ExtendEmpty();
    assert Blocks(history)[..0] == [];
    hide KeptLog, Accepted;
    FirstBlock(x);
    assert RecentlySigned(KeptLog([x]), a, height + 1, |signers|) by {
      assert height in KeptLog([x]) && KeptLog([x])[height] == a;
    }
    Extend([x], y);
    assert Blocks(history) == [x] + [y];
  }
}
