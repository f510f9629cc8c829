/** Runs of a step function over a sequence of inputs, and the facts about them every stream needs. */
module Runs {
  /** The state after the inputs `xs`. */
  function Fold<S, X>(f: (S, X) -> S, st: S, xs: seq<X>): S
    decreases |xs|
  {
    if |xs| == 0 then st else f(Fold(f, st, xs[..|xs| - 1]), xs[|xs| - 1])
  }

  /** The state after each input. */
  function Trace<S, X>(f: (S, X) -> S, st: S, xs: seq<X>): (ts: seq<S>)
    ensures |ts| == |xs|
  {
    seq(|xs|, k requires 0 <= k < |xs| => Fold(f, st, xs[..k + 1]))
  }

  /** The output each input gives in the state it meets. */
  function Outputs<S, X, Y>(f: (S, X) -> S, g: (S, X) -> Y, st: S, xs: seq<X>): (ys: seq<Y>)
    ensures |ys| == |xs|
  {
    seq(|xs|, k requires 0 <= k < |xs| => g(Fold(f, st, xs[..k]), xs[k]))
  }

  lemma FoldNext<S, X>(f: (S, X) -> S, st: S, xs: seq<X>, i: nat)
    requires i < |xs|
    ensures Fold(f, st, xs[..i + 1]) == f(Fold(f, st, xs[..i]), xs[i])
  {
    assert xs[..i + 1][..i] == xs[..i];
  }

  lemma {:induction false} FoldSplits<S, X>(f: (S, X) -> S, st: S, xs: seq<X>, ys: seq<X>)
    ensures Fold(f, st, xs + ys) == Fold(f, Fold(f, st, xs), ys)
    decreases |ys|
  {
    if |ys| == 0 {
      assert xs + ys == xs;
    } else {
      var n := |ys| - 1;
      assert (xs + ys)[..|xs + ys| - 1] == xs + ys[..n];
      FoldSplits(f, st, xs, ys[..n]);
    }
  }

  lemma OutputsPrefix<S, X, Y>(f: (S, X) -> S, g: (S, X) -> Y, st: S, xs: seq<X>, n: nat)
    requires n <= |xs|
    ensures Outputs(f, g, st, xs)[..n] == Outputs(f, g, st, xs[..n])
  {
    forall k | 0 <= k < n ensures Outputs(f, g, st, xs)[k] == Outputs(f, g, st, xs[..n])[k] {
      assert xs[..n][..k] == xs[..k];
    }
  }

  lemma FoldPrefixSplits<S, X>(f: (S, X) -> S, st: S, xs: seq<X>, ys: seq<X>, k: nat)
    requires k <= |xs| + |ys|
    ensures k <= |xs| ==> (xs + ys)[..k] == xs[..k]
    ensures k >= |xs| ==> Fold(f, st, (xs + ys)[..k]) == Fold(f, Fold(f, st, xs), ys[..k - |xs|])
  {
    if k >= |xs| {
      assert (xs + ys)[..k] == xs + ys[..k - |xs|];
      FoldSplits(f, st, xs, ys[..k - |xs|]);
    }
  }

  lemma TraceSplits<S, X>(f: (S, X) -> S, st: S, xs: seq<X>, ys: seq<X>)
    ensures Trace(f, st, xs + ys) == Trace(f, st, xs) + Trace(f, Fold(f, st, xs), ys)
  {
    forall k | 0 <= k < |xs + ys|
      ensures Trace(f, st, xs + ys)[k] == (Trace(f, st, xs) + Trace(f, Fold(f, st, xs), ys))[k]
    {
      FoldPrefixSplits(f, st, xs, ys, k + 1);
    }
  }

  /**
   Lockstep of a producer and a consumer, for every run: when one step of the consumer on the producer's
   output lands in the producer's state, their traces are the same.
   */
  lemma {:induction false} FoldLockstep<S(!new), X(!new), Y>(f: (S, X) -> S, g: (S, X) -> Y,
                                          h: (S, Y) -> S, st: S, xs: seq<X>)
    requires forall s, x :: h(s, g(s, x)) == f(s, x)
    ensures Fold(h, st, Outputs(f, g, st, xs)) == Fold(f, st, xs)
    decreases |xs|
  {
    if |xs| == 0 {
    } else {
      var n := |xs| - 1;
      FoldLockstep(f, g, h, st, xs[..n]);
      OutputsPrefix(f, g, st, xs, n);
    }
  }

  lemma TraceLockstep<S(!new), X(!new), Y>(f: (S, X) -> S, g: (S, X) -> Y, h: (S, Y) -> S, st: S, xs: seq<X>)
    requires forall s, x :: h(s, g(s, x)) == f(s, x)
    ensures Trace(h, st, Outputs(f, g, st, xs)) == Trace(f, st, xs)
  {
    var ys := Outputs(f, g, st, xs);
    forall k | 0 <= k < |xs| ensures Trace(h, st, ys)[k] == Trace(f, st, xs)[k] {
      OutputsPrefix(f, g, st, xs, k + 1);
      FoldLockstep(f, g, h, st, xs[..k + 1]);
    }
  }
}
