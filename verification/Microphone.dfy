/**
 The ping-pong microphone buffer behind `proc_mic_encoder` of application/audio/tl_audio.c: the hardware
 fills `buffer_mic` round and round, the encoder takes it half by half.
 */
module Microphone {
  import opened Adpcm
  import opened Modulo
  import opened PacketSlots

  /** The ring `a` holds the latest samples, each in its place. */
  ghost predicate HoldsLatest(a: seq<Sample>, stream: seq<Sample>) {
    |a| > 0 && forall k :: 0 <= k < |stream| <= k + |a| ==> a[k % |a|] == stream[k]
  }

  /** Of the samples captured for the place of sample `k` in a ring of `m`, the latest. */
  function LatestAt(stream: seq<Sample>, k: nat, m: nat): Sample
    requires k < |stream| && m > 0
  {
    stream[LatestInSlot(k, |stream|, m)]
  }

  lemma HoldsNext(a: seq<Sample>, stream: seq<Sample>, s: Sample)
    requires HoldsLatest(a, stream)
    ensures HoldsLatest(a[|stream| % |a| := s], stream + [s])
  {
    var n, m := |stream|, |a|;
    forall k | 0 <= k <= n < k + m ensures a[n % m := s][k % m] == (stream + [s])[k] {
      if k < n {
        StepAround(k, n - k, m);
      }
    }
  }

  lemma LatestIsHeld(a: seq<Sample>, stream: seq<Sample>, k: nat)
    requires HoldsLatest(a, stream) && k < |stream|
    ensures a[k % |a|] == LatestAt(stream, k, |a|)
    ensures |stream| <= k + |a| ==> LatestAt(stream, k, |a|) == stream[k]
  {
    LatestSharesPlace(k, |stream|, |a|);
  }

  class MicBuffer {
    /** Half of `buffer_mic`: `TL_MIC_BUFFER_SIZE >> 2` samples. */
    const unit: nat
    const bufferMic: array<Sample>
    /** The hardware's write position, `get_mic_wr_ptr ()`. */
    var micWptr: nat
    /** The static `buffer_mic_rptr` */
    var bufferMicRptr: nat
    /** Every sample captured so far, and every sample taken. */
    ghost var stream: seq<Sample>
    ghost var taken: seq<Sample>
    /** Whether the hardware has been a whole buffer ahead. */
    ghost var lapped: bool

    ghost predicate Valid()
      reads this, bufferMic
    {
      && (unit == 240 || unit == 248 || unit == 256)
      && bufferMic.Length == 2 * unit && |taken| <= |stream|
      && (bufferMicRptr == 0 || bufferMicRptr == unit) && Pointers()
      && HoldsLatest(bufferMic[..], stream)
      && (!lapped ==> |stream| < |taken| + 2 * unit && taken <= stream)
    }

    ghost predicate Pointers()
      requires unit > 0
      reads `micWptr, `bufferMicRptr, `stream, `taken
    {
      micWptr == |stream| % (2 * unit) && bufferMicRptr == |taken| % (2 * unit)
    }

    constructor (unit: nat, bufferMic: array<Sample>)
      requires unit == 240 || unit == 248 || unit == 256
      requires bufferMic.Length == 2 * unit
      ensures Valid() && stream == taken == [] && !lapped
      ensures this.unit == unit && this.bufferMic == bufferMic
    {
      this.unit := unit;
      this.bufferMic := bufferMic;
      micWptr, bufferMicRptr := 0, 0;
      stream, taken, lapped := [], [], false;
    }

    /** The hardware stores one sample, whether or not the encoder has taken the one that was there. */
    method Capture(s: Sample)
      requires Valid()
      modifies `micWptr, `stream, `lapped, bufferMic
      ensures Valid() && stream == old(stream) + [s]
      ensures lapped == (old(lapped) || |stream| == |taken| + 2 * unit)
    {
      HoldsNext(bufferMic[..], stream, s);
      bufferMic[micWptr] := s;
      StepAround(|stream|, 1, 2 * unit);
      micWptr := if micWptr + 1 < 2 * unit then micWptr + 1 else 0;
      stream := stream + [s];
      lapped := lapped || |stream| == |taken| + 2 * unit;
    }

    lemma AllTaken()
      requires Valid() && !lapped && |taken| == |stream|
      ensures taken == stream
    {
      hide HoldsLatest;
    }

    /** How far the hardware is ahead, as far as the pointers tell. */
    ghost function Ahead(): nat
      reads `stream, `taken
      requires unit > 0 && |taken| <= |stream|
    {
      (|stream| - |taken|) % (2 * unit)
    }

    lemma AheadUnlessLapped()
      requires Valid() && |stream| < |taken| + 2 * unit
      ensures Ahead() == |stream| - |taken|
    {
      hide HoldsLatest;
      RemainderIs(|stream| - |taken|, 2 * unit, 0, |stream| - |taken|);
    }

    /** `l >= (TL_MIC_BUFFER_SIZE >> 2)`: exact in both halves, but for whole laps. */
    method HalfReady() returns (ready: bool)
      requires Valid()
      ensures ready <==> Ahead() >= unit
    {
      var l := if micWptr >= bufferMicRptr then micWptr - bufferMicRptr else 0xffff;
      ready := l >= unit;
      var d := (|stream| - |taken|) % (2 * unit);
      TurnsApart(|taken|, |stream|, 2 * unit);
      StepAround(|taken|, d, 2 * unit);
    }

    /** The next half: of all samples captured for each place, the latest. */
    ghost function Half(): (xs: seq<Sample>)
      reads this, bufferMic
      requires Valid()
      ensures |xs| == unit
    {
      bufferMic[bufferMicRptr..bufferMicRptr + unit]
    }

    /** The samples at `buffer_mic + buffer_mic_rptr`, and the switch to the other half. */
    method TakeHalf() returns (xs: seq<Sample>)
      requires Valid() && Ahead() >= unit
      modifies `bufferMicRptr, `taken
      ensures Valid() && xs == old(Half()) && taken == old(taken) + xs
      ensures forall j :: 0 <= j < unit ==> xs[j] == LatestAt(stream, |old(taken)| + j, 2 * unit)
    {
      hide HoldsLatest;
      ghost var n := |taken|;
      xs := bufferMic[bufferMicRptr..bufferMicRptr + unit];
      AheadIsThere(n, |stream|, unit);
      HalfIsLatest(bufferMic[..], stream, n, bufferMicRptr, unit, xs);
      NextHalf(n, unit);
      bufferMicRptr := if bufferMicRptr != 0 then 0 else unit;
      taken := taken + xs;
    }
  }

  lemma HalfIsLatest(a: seq<Sample>, stream: seq<Sample>, n: nat, at: nat, unit: nat, xs: seq<Sample>)
    requires HoldsLatest(a, stream) && |a| == 2 * unit && at == n % (2 * unit) && (at == 0 || at == unit)
    requires xs == a[at..at + unit] && n + unit <= |stream|
    ensures forall j :: 0 <= j < unit ==> xs[j] == LatestAt(stream, n + j, 2 * unit)
    ensures |stream| < n + 2 * unit ==> xs == stream[n..n + unit]
  {
    hide HoldsLatest, LatestAt;
    forall j | 0 <= j < unit
      ensures xs[j] == LatestAt(stream, n + j, 2 * unit)
      ensures |stream| < n + 2 * unit ==> xs[j] == stream[n + j]
    {
      InHalf(n, j, unit);
      LatestIsHeld(a, stream, n + j);
    }
  }

  lemma InHalf(taken: nat, j: nat, unit: nat)
    requires j < unit && (taken % (2 * unit) == 0 || taken % (2 * unit) == unit)
    ensures (taken + j) % (2 * unit) == taken % (2 * unit) + j
  {
    StepAround(taken, j, 2 * unit);
  }

  lemma NextHalf(taken: nat, unit: nat)
    requires unit > 0 && (taken % (2 * unit) == 0 || taken % (2 * unit) == unit)
    ensures (taken + unit) % (2 * unit) == unit - taken % (2 * unit)
  {
    StepAround(taken, unit, 2 * unit);
  }

  lemma AheadIsThere(taken: nat, n: nat, unit: nat)
    requires unit > 0 && taken <= n && (n - taken) % (2 * unit) >= unit
    ensures n >= taken + unit
  {
    if n < taken + unit {
      RemainderIs(n - taken, 2 * unit, 0, n - taken);
    }
  }

  /** Whole turns do not show in the remainder. */
  lemma {:induction false} TurnsApart(a: nat, b: nat, m: nat)
    requires m > 0 && a <= b
    ensures b % m == (a + (b - a) % m) % m
    decreases b - a
  {
    if b - a < m {
      RemainderIs(b - a, m, 0, b - a);
    } else {
      TurnsApart(a, b - m, m);
      OneTurnBack(b, m);
      OneTurnBack(b - a, m);
    }
  }

  lemma {:induction false} LatestSharesPlace(k: nat, n: nat, m: nat)
    requires k < n && m > 0
    ensures LatestInSlot(k, n, m) % m == k % m
    decreases n - k
  {
    if n - k <= m {
    } else {
      LatestSharesPlace(k + m, n, m);
      OneTurnBack(k + m, m);
    }
  }
}
