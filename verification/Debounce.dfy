/** The debounce filter over scans of the key matrix, `key_debounce_filter` of application/keyboard/keyboard.c. */
module Debounce {
  import opened GhostKeys
  import opened Runs

  /** One scan of one row, and whether filtering is on (`filt_en`). */
  datatype RowScan = RowScan(raw: Row, filtEn: bool)

  /** `mtrx_pre[i]` and `mtrx_last[i]` */
  datatype RowState = RowState(pre: Row, last: Row)

  const START := RowState(0, 0)

  function Other(a: Row): Row { !a }

  /** `(~last & (pre & tmp)) | (last & (pre | tmp))` */
  function Filtered(last: Row, pre: Row, tmp: Row): Row {
    Either(Both(Other(last), Both(pre, tmp)), Both(last, Either(pre, tmp)))
  }

  function StepRow(st: RowState, s: RowScan): RowState {
    RowState(s.raw, if s.filtEn then Filtered(st.last, st.pre, s.raw) else s.raw)
  }

  function RowAfter(h: seq<RowScan>): RowState { Fold(StepRow, START, h) }

  // ----- the filter is a majority vote, key by key

  lemma MeetBoth(a: Row, b: Row, key: Row)
    ensures (a & b) & key == (a & key) & (b & key)
  {
  }

  lemma MeetAgain(key: Row)
    ensures key & key == key && 0 & key == 0 && key & 0 == 0 && (0 as Row) & 0 == 0
  {
  }

  lemma KeyInBoth(a: Row, b: Row, key: Row)
    requires IsKey(key)
    ensures Has(Both(a, b), key) <==> Has(a, key) && Has(b, key)
  {
    KeyIsAtomic(a, key);
    KeyIsAtomic(b, key);
    MeetBoth(a, b, key);
    MeetAgain(key);
  }

  lemma MeetOther(a: Row, key: Row)
    ensures !a & key == key & !a
  {
  }

  lemma KeyInOther(a: Row, key: Row)
    requires IsKey(key)
    ensures Has(Other(a), key) <==> !Has(a, key)
  {
    KeyIsAtomic(a, key);
    MeetOther(a, key);
    KeyOutside(a, key);
    KeyInside(a, key);
  }

  /** Two scans that agree on a key decide its output; two that differ keep it. */
  lemma FilterVotes(last: Row, pre: Row, tmp: Row, key: Row)
    requires IsKey(key)
    ensures Has(Filtered(last, pre, tmp), key) == if Has(pre, key) == Has(tmp, key) then Has(tmp, key) else Has(last, key)
  {
    hide Has, IsKey, Both, Either, Other;
    KeyInOther(last, key);
    KeyInBoth(pre, tmp, key);
    KeyInBoth(Other(last), Both(pre, tmp), key);
    HasEither(pre, tmp, key);
    KeyInBoth(last, Either(pre, tmp), key);
    HasEither(Both(Other(last), Both(pre, tmp)), Both(last, Either(pre, tmp)), key);
  }

  // ----- whole runs

  /** Scan `k` decides the key: filtering is off, or the scan before it (none pressed before the first) agrees. */
  predicate Settles(h: seq<RowScan>, k: nat, key: Row)
    requires k < |h|
  {
    !h[k].filtEn || Has(h[k].raw, key) == (k > 0 && Has(h[k - 1].raw, key))
  }

  lemma {:induction false} PreIsLastRaw(h: seq<RowScan>)
    ensures RowAfter(h).pre == if |h| == 0 then 0 else h[|h| - 1].raw
  {
  }

  lemma OneScan(h: seq<RowScan>, key: Row)
    requires |h| > 0 && IsKey(key)
    ensures var n := |h| - 1;
            Has(RowAfter(h).last, key) == if Settles(h, n, key) then Has(h[n].raw, key) else Has(RowAfter(h[..n]).last, key)
  {
    hide Has, IsKey, Filtered;
    var n := |h| - 1;
    var st := RowAfter(h[..n]);
    PreIsLastRaw(h[..n]);
    FilterVotes(st.last, st.pre, h[n].raw, key);
    HasEither(0, 0, key);
  }

  /** After any run, a key's output is its raw value in the last scan that decided it. */
  lemma {:induction false} OutputIsLastSettled(h: seq<RowScan>, k: nat, key: Row)
    requires k < |h| && IsKey(key) && Settles(h, k, key)
    requires forall j :: k < j < |h| ==> !Settles(h, j, key)
    ensures Has(RowAfter(h).last, key) == Has(h[k].raw, key)
    decreases |h|
  {
    hide Has, IsKey;
    var n := |h| - 1;
    OneScan(h, key);
    if k < n {
      forall j | k <= j < n ensures Settles(h[..n], j, key) == Settles(h, j, key) {
      }
      OutputIsLastSettled(h[..n], k, key);
    }
  }

  /** A key no scan ever decided is released. */
  lemma {:induction false} OutputUndecided(h: seq<RowScan>, key: Row)
    requires IsKey(key)
    requires forall j :: 0 <= j < |h| ==> !Settles(h, j, key)
    ensures !Has(RowAfter(h).last, key)
    decreases |h|
  {
    hide Has, IsKey;
    HasEither(0, 0, key);
    if |h| == 0 {
    } else {
      var n := |h| - 1;
      OneScan(h, key);
      forall j | 0 <= j < n ensures Settles(h[..n], j, key) == Settles(h, j, key) {
      }
      OutputUndecided(h[..n], key);
    }
  }

  /** A scan without filtering is taken as it is. */
  lemma UnfilteredIsRaw(h: seq<RowScan>)
    requires |h| > 0 && !h[|h| - 1].filtEn
    ensures RowAfter(h).last == h[|h| - 1].raw
  {
  }

  /** A filtered output is pressed exactly if both last scans found it so, or one of them and the output before. */
  lemma FilteredIsMajority(h: seq<RowScan>, key: Row)
    requires |h| > 1 && IsKey(key) && h[|h| - 1].filtEn
    ensures var n := |h| - 1;
            Has(RowAfter(h).last, key) <==>
              (Has(h[n].raw, key) && Has(h[n - 1].raw, key))
              || (Has(RowAfter(h[..n]).last, key) && (Has(h[n].raw, key) || Has(h[n - 1].raw, key)))
  {
    hide Has, IsKey;
    OneScan(h, key);
  }

  /** With filtering on, an output changes only to the value of the last two raw scans. */
  lemma ChangeTakesTwoScans(h: seq<RowScan>, key: Row)
    requires |h| > 0 && IsKey(key) && h[|h| - 1].filtEn
    ensures var n := |h| - 1;
            Has(RowAfter(h).last, key) != Has(RowAfter(h[..n]).last, key) ==>
              Has(h[n].raw, key) == (n > 0 && Has(h[n - 1].raw, key)) == Has(RowAfter(h).last, key)
  {
    hide Has, IsKey;
    OneScan(h, key);
  }

  /** A key that differs for one filtered scan from its settled value never shows it. */
  lemma GlitchNeverAppears(h: seq<RowScan>, glitch: RowScan, back: RowScan, key: Row)
    requires |h| > 0 && IsKey(key) && Settles(h, |h| - 1, key) && glitch.filtEn && back.filtEn
    requires Has(glitch.raw, key) != Has(h[|h| - 1].raw, key) == Has(back.raw, key)
    ensures Has(RowAfter(h).last, key) == Has(h[|h| - 1].raw, key)
    ensures Has(RowAfter(h + [glitch]).last, key) == Has(RowAfter(h).last, key)
    ensures Has(RowAfter(h + [glitch, back]).last, key) == Has(RowAfter(h).last, key)
  {
    hide Has, IsKey, RowAfter;
    OneScan(h, key);
    OneScan(h + [glitch], key);
    OneScan(h + [glitch, back], key);
    assert (h + [glitch])[..|h|] == h;
    assert (h + [glitch, back])[..|h| + 1] == h + [glitch];
  }
}
