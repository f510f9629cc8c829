/**
 Exact convergence of the codec of application/audio/adpcm.c: whatever state it is in, once the input
 holds still the predictor reaches the input exactly, and stays there, within 102 samples.

 The 102 are at most 11 samples in overload, one in range, 88 for the step index to sink to 0 and two
 at the finest step. `Rank` counts them down.
 */
module AdpcmConvergence {
  import opened Adpcm
  import opened AdpcmStream
  import opened Runs

  function NextUp(i: Index): Index { if i < 88 then i + 1 else 88 }

  /** The error is already what one in-range step at the next larger step size leaves behind. */
  predicate Settled(st: State, s: Sample) {
    Error(st, s) <= StepSize(NextUp(st.idx)) / 8 + 2
  }

  /** A settled error is below the step size, so the code's magnitude is small and the index sinks. */
  lemma SettledStep(st: State, s: Sample)
    requires Settled(st, s)
    ensures Settled(EncodeStep(st, s), s)
    ensures EncodeStep(st, s).idx == if st.idx > 0 then st.idx - 1 else 0
  {
    StepTableShape(st.idx);
    QuantiserBound(st, s);
    IndexFalls(st, s);
    StepTableMonotone(st.idx, NextUp(EncodeStep(st, s).idx));
  }

  lemma InRangeSettles(st: State, s: Sample)
    requires !Overload(st, s)
    ensures Settled(EncodeStep(st, s), s)
  {
    QuantiserBound(st, s);
    IndexFalls(st, s);
    StepTableMonotone(st.idx, NextUp(EncodeStep(st, s).idx));
  }

  /** One overloaded sample brings the error below twice the largest step size. */
  lemma OverloadProgress(st: State, s: Sample)
    requires Overload(st, s)
    ensures Error(EncodeStep(st, s), s) < 2 * 32767
    ensures EncodeStep(st, s).idx == if st.idx + 8 <= 88 then st.idx + 8 else 88
  {
    StepTableShape(st.idx);
    OverloadStep(st, s);
  }

  /** At the finest step, errors of three and one vanish in one sample and an error of two in two. */
  lemma FinestStep(st: State, s: Sample)
    requires st.idx == 0 && Settled(st, s)
    ensures Error(st, s) <= 3
    ensures EncodeStep(st, s).idx == 0
    ensures Error(EncodeStep(st, s), s) == if Error(st, s) == 2 then 1 else 0
  {
    StepTableShape(0);
    SettledStep(st, s);
  }

  /** An upper bound on the samples that are still needed to reproduce `s` exactly at index 0. */
  function Rank(st: State, s: Sample): nat {
    if Settled(st, s) then
      if st.idx > 0 then st.idx + 2
      else if Error(st, s) == 2 then 2 else if Error(st, s) == 0 then 0 else 1
    else if !Overload(st, s) then 91
    else if st.idx == 88 then 92 else 91 + (88 - st.idx + 7) / 8
  }

  lemma RankBounds(st: State, s: Sample)
    ensures Rank(st, s) <= 102
    ensures Rank(st, s) == 0 <==> st == State(s, 0)
  {
    StepTableShape(0);
  }

  lemma RankOfSettled(st: State, s: Sample)
    requires Settled(st, s)
    ensures Rank(st, s) <= st.idx + 2
  {
  }

  /** Every sample brings the rank down, until it is 0 and the state no longer moves. */
  lemma RankDrops(st: State, s: Sample)
    ensures if Rank(st, s) == 0 then EncodeStep(st, s) == st
            else Rank(EncodeStep(st, s), s) < Rank(st, s)
  {
    var next := EncodeStep(st, s);
    if Settled(st, s) {
      SettledStep(st, s);
      RankOfSettled(next, s);
      if st.idx == 0 {
        FinestStep(st, s);
        RankBounds(st, s);
      }
    } else if !Overload(st, s) {
      InRangeSettles(st, s);
      RankOfSettled(next, s);
    } else {
      OverloadProgress(st, s);
      StepTableShape(next.idx);
    }
  }

  /** The codec's state after `n` samples that all equal `s`. */
  function Hold(st: State, s: Sample, n: nat): State
    decreases n
  {
    if n == 0 then st else Hold(EncodeStep(st, s), s, n - 1)
  }

  /** From any state, a constant input is reproduced exactly after `Rank` samples and for ever after. */
  lemma {:induction false} ConvergesByRank(st: State, s: Sample, n: nat)
    requires n >= Rank(st, s)
    ensures Hold(st, s, n) == State(s, 0)
    decreases n
  {
    hide Rank, EncodeStep;
    RankBounds(st, s);
    if n == 0 {
    } else {
      RankDrops(st, s);
      ConvergesByRank(EncodeStep(st, s), s, n - 1);
    }
  }

  /** From any state, a constant input is reproduced exactly from the 102nd sample on, at index 0. */
  lemma ExactConvergence(st: State, s: Sample, n: nat)
    requires n >= 102
    ensures Hold(st, s, n) == State(s, 0)
  {
    RankBounds(st, s);
    ConvergesByRank(st, s, n);
  }

  lemma {:induction false} HoldIsARun(st: State, s: Sample, xs: seq<Sample>)
    requires forall k :: 0 <= k < |xs| ==> xs[k] == s
    ensures EncoderAfter(st, xs) == Hold(st, s, |xs|)
    decreases |xs|
  {
    hide EncodeStep;
    if |xs| == 0 {
    } else {
      var next := EncodeStep(st, s);
      assert xs == [s] + xs[1..];
      FoldSplits(EncodeStep, st, [s], xs[1..]);
      assert Fold(EncodeStep, st, [s]) == next by {
        FoldNext(EncodeStep, st, [s], 0);
        assert [s][..1] == [s];
      }
      HoldIsARun(next, s, xs[1..]);
    }
  }

  /**
   What the listener hears: from equal but otherwise arbitrary states, once the input has held still for
   101 samples every further decoded sample equals it.
   */
  lemma DecodedConvergence(st: State, s: Sample, xs: seq<Sample>, k: nat)
    requires forall k :: 0 <= k < |xs| ==> xs[k] == s
    requires 101 <= k < |xs|
    ensures Pcm(st, Codes(st, xs))[k] == s
  {
    PcmLockstep(st, xs);
    HoldIsARun(st, s, xs[..k + 1]);
    ExactConvergence(st, s, k + 1);
  }
}
