/** The noise filter of `adc_sample_and_get_result` in drivers/B85/adc.c: insertion sort and a trimmed mean. */
module AdcFilter {
  import opened Modulo

  /** A raw result: 0 when its sign bit 13 is set, else its low 13 bits. Division rounds down, as bits do. */
  function Clean(raw: int): (v: nat)
    ensures v < 0x2000
  {
    if raw / 0x2000 % 2 == 1 then 0 else raw % 0x2000
  }

  /** A reading has 14 bits: with the top one set it is negative and counts as 0, else the other 13 are its value. */
  lemma CleanExactly(above: int, negative: bool, value: nat)
    requires value < 0x2000
    ensures Clean(0x4000 * above + (if negative then 0x2000 else 0) + value) == if negative then 0 else value
  {
    var word := 0x4000 * above + (if negative then 0x2000 else 0) + value;
    RemainderIs(word, 0x2000, 2 * above + if negative then 1 else 0, value);
  }

  function CleanAll(raw: seq<int>): (vs: seq<nat>)
    ensures |vs| == |raw|
  {
    seq(|raw|, k requires 0 <= k < |raw| => Clean(raw[k]))
  }

  lemma CleanAt(raw: seq<int>, k: nat)
    requires k < |raw|
    ensures CleanAll(raw)[k] == Clean(raw[k])
  {
  }

  ghost predicate Sorted(s: seq<nat>) {
    forall j, k :: 0 <= j < k < |s| ==> s[j] <= s[k]
  }

  ghost predicate Permutation(a: seq<nat>, b: seq<nat>) {
    multiset(a) == multiset(b)
  }

  // ----- counting bad samples

  function Bad(v: nat, lo: nat, hi: nat): nat { if lo <= v <= hi then 0 else 1 }

  /** How many samples lie outside `lo..hi`. */
  function Outside(s: seq<nat>, lo: nat, hi: nat): nat {
    if |s| == 0 then 0 else Bad(s[0], lo, hi) + Outside(s[1..], lo, hi)
  }

  lemma {:induction false} OutsideSplits(a: seq<nat>, b: seq<nat>, lo: nat, hi: nat)
    ensures Outside(a + b, lo, hi) == Outside(a, lo, hi) + Outside(b, lo, hi)
  {
    if |a| == 0 {
      assert a + b == b;
    } else {
      assert (a + b)[1..] == a[1..] + b;
      OutsideSplits(a[1..], b, lo, hi);
    }
  }

  lemma RemoveOne(a: seq<nat>, b: seq<nat>, k: nat)
    requires multiset(a) == multiset(b) && |a| > 0 && k < |b| && b[k] == a[0]
    ensures multiset(a[1..]) == multiset(b[..k] + b[k + 1..])
  {
    assert a == [a[0]] + a[1..];
    assert b == b[..k] + ([b[k]] + b[k + 1..]);
    assert multiset(b) == multiset(b[..k]) + (multiset{a[0]} + multiset(b[k + 1..]));
    assert multiset(b[..k] + b[k + 1..]) == multiset(b[..k]) + multiset(b[k + 1..]);
    assert multiset(a[1..]) == multiset(a) - multiset{a[0]};
  }

  lemma {:induction false} OutsidePermutes(a: seq<nat>, b: seq<nat>, lo: nat, hi: nat)
    requires Permutation(a, b)
    ensures Outside(a, lo, hi) == Outside(b, lo, hi)
  {
    if |a| == 0 {
      assert |multiset(b)| == 0;
    } else {
      assert a[0] in multiset(b);
      var k :| 0 <= k < |b| && b[k] == a[0];
      assert b == b[..k] + ([b[k]] + b[k + 1..]);
      RemoveOne(a, b, k);
      OutsidePermutes(a[1..], b[..k] + b[k + 1..], lo, hi);
      OutsideSplits(b[..k], b[k + 1..], lo, hi);
      OutsideSplits(b[..k], [b[k]] + b[k + 1..], lo, hi);
      assert ([b[k]] + b[k + 1..])[1..] == b[k + 1..];
    }
  }

  lemma {:induction false} AllOutside(s: seq<nat>, lo: nat, hi: nat)
    requires forall k :: 0 <= k < |s| ==> !(lo <= s[k] <= hi)
    ensures Outside(s, lo, hi) == |s|
  {
    if |s| == 0 {
    } else {
      AllOutside(s[1..], lo, hi);
    }
  }

  lemma LowEnd(s: seq<nat>, lo: nat, hi: nat, k: nat)
    requires Sorted(s) && k < |s| && s[k] < lo
    ensures Outside(s, lo, hi) >= k + 1
  {
    assert s == s[..k + 1] + s[k + 1..];
    OutsideSplits(s[..k + 1], s[k + 1..], lo, hi);
    AllOutside(s[..k + 1], lo, hi);
  }

  lemma HighEnd(s: seq<nat>, lo: nat, hi: nat, k: nat)
    requires Sorted(s) && k < |s| && s[k] > hi
    ensures Outside(s, lo, hi) >= |s| - k
  {
    assert s == s[..k] + s[k..];
    OutsideSplits(s[..k], s[k..], lo, hi);
    AllOutside(s[k..], lo, hi);
  }

  /** With at most `cut` samples outside, what is left after cutting `cut` at each end is inside. */
  lemma MiddleIsGood(s: seq<nat>, lo: nat, hi: nat, cut: nat, k: nat)
    requires Sorted(s) && Outside(s, lo, hi) <= cut <= k < |s| - cut
    ensures lo <= s[k] <= hi
  {
    hide Sorted, Outside;
    if s[k] < lo {
      LowEnd(s, lo, hi, k);
    } else if s[k] > hi {
      HighEnd(s, lo, hi, k);
    }
  }

  // ----- the sort

  function Insert(s: seq<nat>, at: nat, x: nat): seq<nat>
    requires at <= |s|
  {
    s[..at] + [x] + s[at..]
  }

  lemma InsertPermutes(s: seq<nat>, at: nat, x: nat)
    requires at <= |s|
    ensures Permutation(Insert(s, at, x), s + [x])
  {
    assert s == s[..at] + s[at..];
  }

  lemma InsertSorts(s: seq<nat>, at: nat, x: nat)
    requires Sorted(s) && Fits(s, at, x)
    ensures Sorted(Insert(s, at, x))
  {
  }

  /** One round of the sampling loop: `x` is put in its place among the `i` sorted samples before it. */
  method InsertSample(adcSample: array<nat>, i: nat, x: nat)
    requires i < adcSample.Length && Sorted(adcSample[..i])
    modifies adcSample
    ensures Sorted(adcSample[..i + 1])
    ensures Permutation(adcSample[..i + 1], old(adcSample[..i]) + [x])
  {
    hide Sorted, Insert, Permutation;
    ghost var s := adcSample[..i];
    ghost var at := PlaceSample(adcSample, i, x);
    InsertPermutes(s, at, x);
    InsertSorts(s, at, x);
  }

  /** Between its neighbours `x` is in order. */
  ghost predicate Fits(s: seq<nat>, at: nat, x: nat) {
    at <= |s| && (at > 0 ==> s[at - 1] <= x) && (at < |s| ==> x <= s[at])
  }

  method PlaceSample(adcSample: array<nat>, i: nat, x: nat) returns (ghost at: nat)
    requires i < adcSample.Length
    modifies adcSample
    ensures Fits(old(adcSample[..i]), at, x) && adcSample[..i + 1] == Insert(old(adcSample[..i]), at, x)
  {
    hide Insert;
    ghost var s := adcSample[..i];
    adcSample[i] := x;
    at := i;
    assert adcSample[..i] == s;
    if i > 0 && adcSample[i] < adcSample[i - 1] {
      at := SinkIn(adcSample, i, s);
    } else {
      InsertAt(adcSample[..i + 1], s, i, x);
      assert i > 0 ==> s[i - 1] == adcSample[i - 1];
    }
  }

  lemma InsertAt(r: seq<nat>, s: seq<nat>, at: nat, x: nat)
    requires at <= |s| && |r| == |s| + 1 && r[at] == x
    requires forall k :: 0 <= k < at ==> r[k] == s[k]
    requires forall k :: at < k <= |s| ==> r[k] == s[k - 1]
    ensures r == Insert(s, at, x)
  {
  }

  /** The inner loop, when the new sample is smaller than the one before it. */
  method SinkIn(adcSample: array<nat>, i: nat, ghost s: seq<nat>) returns (ghost at: nat)
    requires 0 < i < adcSample.Length && adcSample[..i] == s && adcSample[i] < adcSample[i - 1]
    modifies adcSample
    ensures at < i && adcSample[..i + 1] == Insert(s, at, old(adcSample[i]))
    ensures (at > 0 ==> s[at - 1] <= old(adcSample[i])) && old(adcSample[i]) <= s[at]
  {
    var temp := adcSample[i];
    adcSample[i] := adcSample[i - 1];
    var j := i - 1;
    while j >= 0 && adcSample[j] > temp
      invariant -1 <= j < i
      invariant forall k :: 0 <= k <= j ==> adcSample[k] == s[k]
      invariant forall k :: j + 2 <= k <= i ==> adcSample[k] == s[k - 1]
      invariant adcSample[i] == s[i - 1] && s[if j == i - 1 then j else j + 1] > temp
    {
      adcSample[j + 1] := adcSample[j];
      j := j - 1;
    }
    adcSample[j + 1] := temp;
    at := j + 1;
    InsertAt(adcSample[..i + 1], s, at, temp);
  }

  // ----- the result

  /** `ADC_SAMPLE_NUM` of the two builds */
  predicate IsSampleNum(n: nat) { n == 4 || n == 8 }

  /** The mean of the samples in the middle: two of four, or four of eight. */
  function MiddleMean(s: seq<nat>): nat
    requires IsSampleNum(|s|)
  {
    if |s| == 4 then (s[1] + s[2]) / 2 else (s[2] + s[3] + s[4] + s[5]) / 4
  }

  /** Whatever a quarter of the samples are, the mean lies in the range of the others. */
  lemma MiddleMeanIsGood(s: seq<nat>, vs: seq<nat>, lo: nat, hi: nat)
    requires IsSampleNum(|s|) && Sorted(s) && Permutation(s, vs) && Outside(vs, lo, hi) <= |s| / 4
    ensures lo <= MiddleMean(s) <= hi
  {
    hide Sorted, Outside;
    OutsidePermutes(s, vs, lo, hi);
    if |s| == 4 {
      MiddleIsGood(s, lo, hi, 1, 1);
      MiddleIsGood(s, lo, hi, 1, 2);
    } else {
      MiddleIsGood(s, lo, hi, 2, 2);
      MiddleIsGood(s, lo, hi, 2, 3);
      MiddleIsGood(s, lo, hi, 2, 4);
      MiddleIsGood(s, lo, hi, 2, 5);
    }
  }

  /** Two is the limit: three wrong samples can pull the mean out of the range of the other five. */
  lemma ThreeBadSamplesShow()
    ensures var s := [0, 0, 0] + [100, 100, 100, 100, 100];
            Sorted(s) && Outside(s, 100, 100) == 3 && MiddleMean(s) == 75
  {
    OutsideSplits([0, 0, 0], [100, 100, 100, 100, 100], 100, 100);
    AllOutside([0, 0, 0], 100, 100);
    NoneOutside([100, 100, 100, 100, 100], 100, 100);
  }

  lemma {:induction false} NoneOutside(s: seq<nat>, lo: nat, hi: nat)
    requires forall k :: 0 <= k < |s| ==> lo <= s[k] <= hi
    ensures Outside(s, lo, hi) == 0
  {
    if |s| == 0 {
    } else {
      NoneOutside(s[1..], lo, hi);
    }
  }

  /** The sampling loop */
  method SortSamples(adcDataBuf: seq<int>, adcSample: array<nat>)
    requires |adcDataBuf| == adcSample.Length
    modifies adcSample
    ensures Sorted(adcSample[..]) && Permutation(adcSample[..], CleanAll(adcDataBuf))
  {
    assert Sorted([]) && Permutation([], []);
    hide Sorted, Permutation, Clean;
    ghost var vs := CleanAll(adcDataBuf);
    hide CleanAll;
    assert adcSample[..0] == vs[..0] == [];
    for i := 0 to adcSample.Length
      invariant Sorted(adcSample[..i])
      invariant Permutation(adcSample[..i], vs[..i])
    {
      ghost var before := adcSample[..i];
      CleanAt(adcDataBuf, i);
      InsertSample(adcSample, i, Clean(adcDataBuf[i]));
      PermutationNext(adcSample[..i + 1], before, vs[..i], vs[i]);
      OneMore(vs, i);
    }
    assert adcSample[..adcSample.Length] == adcSample[..] && vs[..adcSample.Length] == vs;
  }

  lemma PermutationNext(after: seq<nat>, before: seq<nat>, vs: seq<nat>, x: nat)
    requires Permutation(after, before + [x]) && Permutation(before, vs)
    ensures Permutation(after, vs + [x])
  {
  }

  lemma OneMore(s: seq<nat>, i: nat)
    requires i < |s|
    ensures s[..i] + [s[i]] == s[..i + 1]
  {
  }

  /** The code that `adc_sample_and_get_result` converts to a voltage, from the words the hardware delivers. */
  method SampleAndAverage(adcDataBuf: seq<int>) returns (adcResult: nat)
    requires IsSampleNum(|adcDataBuf|)
    ensures exists s: seq<nat> ::
              && |s| == |adcDataBuf| && Sorted(s) && Permutation(s, CleanAll(adcDataBuf))
              && adcResult == if |s| == 4 then (s[1] + s[2]) / 2 else (s[2] + s[3] + s[4] + s[5]) / 4
    ensures forall lo: nat, hi: nat ::
              Outside(CleanAll(adcDataBuf), lo, hi) <= |adcDataBuf| / 4 ==> lo <= adcResult <= hi
  {
    hide Sorted, Outside, CleanAll, Permutation;
    var adcSample := new nat[|adcDataBuf|](_ => 0);
    SortSamples(adcDataBuf, adcSample);
    ghost var s := adcSample[..];
    if |adcDataBuf| == 4 {
      adcResult := (adcSample[1] + adcSample[2]) / 2;
    } else {
      adcResult := (adcSample[2] + adcSample[3] + adcSample[4] + adcSample[5]) / 4;
    }
    assert adcResult == MiddleMean(s);
    forall lo: nat, hi: nat | Outside(CleanAll(adcDataBuf), lo, hi) <= |s| / 4 ensures lo <= adcResult <= hi {
      MiddleMeanIsGood(s, CleanAll(adcDataBuf), lo, hi);
    }
  }
}
