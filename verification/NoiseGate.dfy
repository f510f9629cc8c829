/**
 The fixed-point noise gate `noise_suppression` of application/audio/tl_audio.h: three running averages
 of the input magnitude, a gate that opens on loud input and closes on quiet, and a gain that slides.
 */
module NoiseGate {
  import opened Adpcm
  import opened Bounds
  import opened Runs

  /** The static `md_th` */
  const TH: nat := 384

  datatype Gate = Gate(long: int, short: int, im: int, noise: bool, gain: int)

  const POWER_ON: Gate := Gate(0, 0, 0, false, 256)

  /** `((avg * (2^n - 1)) + x) >> n`, written with the weight `w` = 2^n */
  function Average(avg: int, x: nat, w: nat): int
    requires w > 0
  {
    (avg * (w - 1) + x) / w
  }

  /** One call: the averages, the gate decision, the gain. */
  function Step(g: Gate, md: Sample): Gate {
    var long := Average(g.long, Abs(md), 1024);
    var short := Average(g.short, Abs(md), 128);
    var im := Average(g.im, Abs(md), 16);
    var opens := (g.noise && short > TH) || im > 2 * TH;
    var closes := !opens && !g.noise && long < TH;
    var noise := if opens then false else if closes then true else g.noise;
    Gate(if opens then short * 4 else long, short, im, noise,
         if noise then (if g.gain != 0 then g.gain - 1 else 0) else if g.gain < 256 then g.gain + 1 else g.gain)
  }

  /** The returned sample */
  function Output(g: Gate, md: Sample): int { Scaled(md, Step(g, md).gain) }

  /** `(md * md_gain + 128) >> 8` */
  function Scaled(md: Sample, gain: int): int { (md * gain + 128) / 256 }

  /** `int` arithmetic of the C code stays inside 32 bits. */
  predicate FitsInt(x: int) { -0x8000_0000 <= x < 0x8000_0000 }

  /** The gate's invariant: the bounds of the averages and of the gain. */
  predicate Inv(g: Gate) {
    0 <= g.long <= 4 * 32768 && 0 <= g.short <= 32768 && 0 <= g.im <= 32768 && 0 <= g.gain <= 256
  }

  /** An average stays within its bound and moves towards its input, by whole units. */
  lemma AverageMoves(avg: nat, x: nat, w: nat, bound: nat)
    requires (w == 16 || w == 128 || w == 1024) && avg <= bound && x <= bound
    ensures 0 <= Average(avg, x, w) <= bound
    ensures x < avg ==> x <= Average(avg, x, w) < avg
    ensures x >= avg ==> Average(avg, x, w) >= avg
    ensures x >= avg + w ==> Average(avg, x, w) > avg
  {
  }

  lemma StepKeepsInv(g: Gate, md: Sample)
    requires Inv(g)
    ensures Inv(Step(g, md))
  {
    AverageMoves(g.long, Abs(md), 1024, 4 * 32768);
    AverageMoves(g.short, Abs(md), 128, 32768);
    AverageMoves(g.im, Abs(md), 16, 32768);
  }

  /** No intermediate result of a call leaves 32 bits, although `md_long` is reloaded with `md_short << 2`. */
  lemma NoOverflow(g: Gate, md: Sample)
    requires Inv(g)
    ensures FitsInt(g.long * 1023 + Abs(md)) && FitsInt(g.short * 127 + Abs(md)) && FitsInt(g.im * 15 + Abs(md))
    ensures FitsInt(Step(g, md).short * 4) && FitsInt(md * Step(g, md).gain + 128)
  {
    StepKeepsInv(g, md);
    ScaledMagnitude(md, Step(g, md).gain);
  }

  /** The gate never makes a sample louder and never flips its sign. */
  lemma NeverLouder(g: Gate, md: Sample)
    requires Inv(g)
    ensures Abs(Output(g, md)) <= Abs(md)
    ensures md >= 0 ==> Output(g, md) >= 0
    ensures md <= 0 ==> Output(g, md) <= 0
  {
    StepKeepsInv(g, md);
    ScaledMagnitude(md, Step(g, md).gain);
  }

  lemma ScaledMagnitude(md: Sample, gain: int)
    requires 0 <= gain <= 256
    ensures md >= 0 ==> 0 <= (md * gain + 128) / 256 <= md
    ensures md <= 0 ==> md <= (md * gain + 128) / 256 <= 0
  {
    ProductBetween(md, gain);
    RoundedBetween(md * gain, md);
  }

  lemma ProductBetween(md: int, gain: int)
    requires 0 <= gain <= 256
    ensures md >= 0 ==> 0 <= md * gain <= 256 * md
    ensures md <= 0 ==> 256 * md <= md * gain <= 0
  {
    if md >= 0 {
      ScaledUpTo(md, gain);
    } else {
      ScaledUpTo(-md, gain);
      assert -md * gain == -(md * gain);
    }
  }

  lemma {:induction false} ScaledUpTo(x: nat, gain: nat)
    requires gain <= 256
    ensures 0 <= x * gain <= 256 * x
    decreases 256 - gain
  {
    if gain == 256 {
    } else {
      ScaledUpTo(x, gain + 1);
      assert x * (gain + 1) == x * gain + x;
    }
  }

  lemma RoundedBetween(p: int, md: int)
    requires if md >= 0 then 0 <= p <= 256 * md else 256 * md <= p <= 0
    ensures if md >= 0 then 0 <= (p + 128) / 256 <= md else md <= (p + 128) / 256 <= 0
  {
    var q, r := (p + 128) / 256, (p + 128) % 256;
    assert p + 128 == 256 * q + r && 0 <= r < 256;
  }

  lemma ScaledByGain(g: Gate, md: Sample)
    requires Inv(g)
    ensures Inv(Step(g, md))
    ensures var scaled := Scaled(md, Step(g, md).gain);
            -32768 <= scaled <= 32767 && scaled == Output(g, md)
  {
    StepKeepsInv(g, md);
    NeverLouder(g, md);
  }

  /**
   The rules of one call: the averages with their weights, when the gate opens and shuts, what `md_long` is reloaded
   with, a gain that slides by one between 0 and 256, and the rounding of the output.
   */
  lemma StepRules(g: Gate, md: Sample)
    requires Inv(g)
    ensures var next, x := Step(g, md), Abs(md);
            var opens := (g.noise && next.short > 384) || next.im > 768;
            && next.short == (g.short * 127 + x) / 128 && next.im == (g.im * 15 + x) / 16
            && next.long == (if opens then 4 * next.short else (g.long * 1023 + x) / 1024)
            && next.noise == (!opens && (g.noise || (g.long * 1023 + x) / 1024 < 384))
            && next.gain == (if next.noise then if g.gain > 0 then g.gain - 1 else 0
                             else if g.gain < 256 then g.gain + 1 else 256)
            && Output(g, md) == ((md as int) * next.gain + 128) / 256
  {
  }

  /** One loud enough sample opens a shut gate, however quiet it was before. */
  lemma LoudSampleOpens(g: Gate, md: Sample)
    requires Inv(g) && (md >= 12304 || md <= -12304)
    ensures !Step(g, md).noise && Step(g, md).long == 4 * Step(g, md).short
  {
    StepRules(g, md);
  }

  /** The invariant holds after every input stream, from power on. */
  lemma {:induction false} StreamKeepsInv(g: Gate, mds: seq<Sample>)
    requires Inv(g)
    ensures Inv(Fold(Step, g, mds))
    decreases |mds|
  {
    if |mds| == 0 {
    } else {
      var n := |mds| - 1;
      StreamKeepsInv(g, mds[..n]);
      StepKeepsInv(Fold(Step, g, mds[..n]), mds[n]);
    }
  }

  // ----- what the gate settles to

  predicate Quiet(mds: seq<Sample>) { forall k :: 0 <= k < |mds| ==> Abs(mds[k]) < TH }
  predicate Loud(mds: seq<Sample>) { forall k :: 0 <= k < |mds| ==> Abs(mds[k]) >= 512 }

  /** Calls a quiet input still takes to mute: the short averages fall, then `md_long`, then the gain. */
  function MuteRank(g: Gate): nat
    requires Inv(g)
  {
    if g.short > TH || g.im > 2 * TH then 132073 + Max(g.short, g.im)
    else if !g.noise then 1000 + g.long
    else g.gain
  }

  lemma MuteRankDrops(g: Gate, md: Sample)
    requires Inv(g) && Abs(md) < TH
    ensures Inv(Step(g, md))
    ensures if MuteRank(g) == 0 then MuteRank(Step(g, md)) == 0 else MuteRank(Step(g, md)) < MuteRank(g)
  {
    StepKeepsInv(g, md);
    AverageMoves(g.long, Abs(md), 1024, 4 * 32768);
    AverageMoves(g.short, Abs(md), 128, 32768);
    AverageMoves(g.im, Abs(md), 16, 32768);
  }

  /** Calls a loud input still takes to pass through unchanged: `md_short` rises, the gate opens, the gain rises. */
  function PassRank(g: Gate): nat
    requires Inv(g)
  {
    if g.short <= TH then 258 + (TH + 1 - g.short)
    else if g.noise then 257
    else if g.long < TH then 258
    else 256 - g.gain
  }

  lemma PassRankDrops(g: Gate, md: Sample)
    requires Inv(g) && Abs(md) >= 512
    ensures Inv(Step(g, md))
    ensures if PassRank(g) == 0 then PassRank(Step(g, md)) == 0 else PassRank(Step(g, md)) < PassRank(g)
  {
    StepKeepsInv(g, md);
    AverageMoves(g.long, Abs(md), 1024, 4 * 32768);
    AverageMoves(g.short, Abs(md), 128, 32768);
  }

  lemma {:induction false} MutesByRank(g: Gate, mds: seq<Sample>)
    requires Inv(g) && Quiet(mds)
    ensures Inv(Fold(Step, g, mds))
    ensures MuteRank(Fold(Step, g, mds)) <= if |mds| < MuteRank(g) then MuteRank(g) - |mds| else 0
    decreases |mds|
  {
    if |mds| == 0 {
    } else {
      var n := |mds| - 1;
      MutesByRank(g, mds[..n]);
      MuteRankDrops(Fold(Step, g, mds[..n]), mds[n]);
    }
  }

  lemma {:induction false} PassesByRank(g: Gate, mds: seq<Sample>)
    requires Inv(g) && Loud(mds)
    ensures Inv(Fold(Step, g, mds))
    ensures PassRank(Fold(Step, g, mds)) <= if |mds| < PassRank(g) then PassRank(g) - |mds| else 0
    decreases |mds|
  {
    if |mds| == 0 {
    } else {
      var n := |mds| - 1;
      PassesByRank(g, mds[..n]);
      PassRankDrops(Fold(Step, g, mds[..n]), mds[n]);
    }
  }

  /** Any input that stays below the threshold for 164841 samples is then muted to exact silence, and stays so. */
  lemma QuietIsMuted(g: Gate, mds: seq<Sample>, md: Sample)
    requires Inv(g) && Quiet(mds) && |mds| >= 164841 && Abs(md) < TH
    ensures Output(Fold(Step, g, mds), md) == 0
  {
    MutesByRank(g, mds);
    MuteRankDrops(Fold(Step, g, mds), md);
  }

  /** Any input that stays at 512 or above for 643 samples then passes through unchanged. */
  lemma LoudPassesUnchanged(g: Gate, mds: seq<Sample>, md: Sample)
    requires Inv(g) && Loud(mds) && |mds| >= 643 && Abs(md) >= 512
    ensures Output(Fold(Step, g, mds), md) == md
  {
    PassesByRank(g, mds);
    PassRankDrops(Fold(Step, g, mds), md);
  }

  /** The globals of the noise gate. */
  class Suppressor {
    var mdLong: int
    var mdShort: int
    var mdIm: int
    var mdNoise: bool
    var mdGain: int

    ghost function Contents(): Gate
      reads this
    {
      Gate(mdLong, mdShort, mdIm, mdNoise, mdGain)
    }

    constructor ()
      ensures Contents() == POWER_ON && Inv(Contents())
    {
      mdLong, mdShort, mdIm, mdNoise, mdGain := 0, 0, 0, false, 256;
    }

    method NoiseSuppression(md: Sample) returns (out: Sample)
      requires Inv(Contents())
      modifies this
      ensures Inv(Contents())
      ensures Contents() == Step(old(Contents()), md)
      ensures out == Output(old(Contents()), md)
    {
      hide Output, Inv, Average, Scaled;
      ScaledByGain(Contents(), md);
      mdLong := Average(mdLong, Abs(md), 1024);
      mdShort := Average(mdShort, Abs(md), 128);
      mdIm := Average(mdIm, Abs(md), 16);
      if (mdNoise && mdShort > TH) || mdIm > TH * 2 {
        mdNoise := false;
        mdLong := mdShort * 4;
      } else if !mdNoise && mdLong < TH {
        mdNoise := true;
      }
      if mdNoise {
        if mdGain != 0 {
          mdGain := mdGain - 1;
        }
      } else {
        if mdGain < 256 {
          mdGain := mdGain + 1;
        }
      }
      out := Scaled(md, mdGain);
    }
  }
}
