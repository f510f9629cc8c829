/**
 Whole runs of the codec: what the encoder's and the decoder's loops compute over a sequence of samples
 or codes, the lockstep between the two, and the packing of codes into bytes.
 */
module AdpcmStream {
  import opened Adpcm
  import opened PacketSlots
  import opened Runs

  // ----- runs

  /** The encoder's state after the samples `xs`. */
  function EncoderAfter(st: State, xs: seq<Sample>): State { Fold(EncodeStep, st, xs) }

  /** The decoder's state after the codes `cs`. */
  function DecoderAfter(st: State, cs: seq<Nibble>): State { Fold(DecodeStep, st, cs) }

  /** The codes the encoder emits for the samples `xs`. */
  function Codes(st: State, xs: seq<Sample>): seq<Nibble> { Outputs(EncodeStep, Code, st, xs) }

  function Predicts(sts: seq<State>): (ps: seq<Sample>)
    ensures |ps| == |sts|
  {
    seq(|sts|, k requires 0 <= k < |sts| => sts[k].predict)
  }

  /** The encoder's `predict` after each sample. */
  function Predictions(st: State, xs: seq<Sample>): seq<Sample> { Predicts(Trace(EncodeStep, st, xs)) }

  /** Each prediction is for its own sample: unless the step overloads, off by an eighth of the step size and two. */
  lemma PredictionIsNear(st: State, xs: seq<Sample>, k: nat)
    requires k < |xs|
    ensures var before := EncoderAfter(st, xs[..k]);
            var after := EncodeStep(before, xs[k]);
            && Predictions(st, xs)[k] == after.predict
            && (Overload(before, xs[k]) || Error(after, xs[k]) <= StepSize(before.idx) / 8 + 2)
  {
    hide EncodeStep, Overload, StepSize, Error;
    var before := EncoderAfter(st, xs[..k]);
    assert xs[..k + 1][..k] == xs[..k];
    if !Overload(before, xs[k]) {
      QuantiserBound(before, xs[k]);
    }
  }

  /** The samples the decoder writes for the codes `cs`. */
  function Pcm(st: State, cs: seq<Nibble>): seq<Sample> { Predicts(Trace(DecodeStep, st, cs)) }

  lemma StepsInLockstep()
    ensures forall st, s :: DecodeStep(st, Code(st, s)) == EncodeStep(st, s)
  {
    forall st, s ensures DecodeStep(st, Code(st, s)) == EncodeStep(st, s) {
      StepLockstep(st, s);
    }
  }

  /** Lockstep of the two states, for every run. */
  lemma StateLockstep(st: State, xs: seq<Sample>)
    ensures DecoderAfter(st, Codes(st, xs)) == EncoderAfter(st, xs)
  {
    StepsInLockstep();
    FoldLockstep(EncodeStep, Code, DecodeStep, st, xs);
  }

  /** Lockstep of the outputs: what the decoder plays is what the encoder predicted, sample by sample. */
  lemma PcmLockstep(st: State, xs: seq<Sample>)
    ensures Pcm(st, Codes(st, xs)) == Predictions(st, xs)
  {
    StepsInLockstep();
    TraceLockstep(EncodeStep, Code, DecodeStep, st, xs);
  }

  /** Two consecutive runs predict what one run over both inputs predicts. */
  lemma PredictionsSplit(st: State, xs: seq<Sample>, ys: seq<Sample>)
    ensures Predictions(st, xs + ys) == Predictions(st, xs) + Predictions(EncoderAfter(st, xs), ys)
    ensures EncoderAfter(st, xs + ys) == EncoderAfter(EncoderAfter(st, xs), ys)
  {
    TraceSplits(EncodeStep, st, xs, ys);
    FoldSplits(EncodeStep, st, xs, ys);
  }

  // ----- packing

  /** `((b >> 4) & 0x0f) | ((b << 4) & 0xf0)` */
  function SwapNibbles(b: Byte): Byte { b / 16 + b % 16 * 16 }

  lemma NibblesOf(low: Nibble, high: Nibble)
    ensures (low + 16 * high) % 16 == low && (low + 16 * high) / 16 == high
    ensures SwapNibbles(low + 16 * high) == high + 16 * low
  {
  }

  function MaybeSwap(b: Byte, swap: bool): Byte { if swap then SwapNibbles(b) else b }

  /** Two codes in one byte, the earlier one low; Google and HID frames then swap the nibbles. */
  function PackByte(first: Nibble, second: Nibble, swap: bool): Byte {
    MaybeSwap(first + 16 * second, swap)
  }

  /** The bytes a call emits: one 16-bit word for every four codes, nothing for an incomplete group. */
  function Pack(cs: seq<Nibble>, swap: bool): (bs: seq<Byte>)
    ensures |bs| == |cs| / 4 * 2
  {
    seq(|cs| / 4 * 2, k requires 0 <= k < |cs| / 4 * 2 => PackByte(cs[2 * k], cs[2 * k + 1], swap))
  }

  /** The `k`-th code the decoder takes from the bytes `bs`. */
  function CodeAt(bs: seq<Byte>, k: nat, swap: bool): Nibble
    requires k / 2 < |bs|
  {
    var b := MaybeSwap(bs[k / 2], swap);
    if k % 2 == 0 then b % 16 else b / 16
  }

  function Unpack(bs: seq<Byte>, len: nat, swap: bool): (cs: seq<Nibble>)
    requires len <= 2 * |bs|
    ensures |cs| == len
  {
    seq(len, k requires 0 <= k < len => CodeAt(bs, k, swap))
  }

  lemma PackByteRoundTrip(first: Nibble, second: Nibble, swap: bool)
    ensures
      var bs := [PackByte(first, second, swap)];
      CodeAt(bs, 0, swap) == first && CodeAt(bs, 1, swap) == second
  {
    NibblesOf(first, second);
    NibblesOf(second, first);
  }

  /** Unpacking undoes packing, with the nibble swaps of the two sides cancelling. */
  lemma UnpackPack(cs: seq<Nibble>, swap: bool)
    ensures Unpack(Pack(cs, swap), |cs| / 4 * 4, swap) == cs[..|cs| / 4 * 4]
  {
    var n := |cs| / 4 * 4;
    var bs := Pack(cs, swap);
    forall k | 0 <= k < n ensures CodeAt(bs, k, swap) == cs[k] {
      var j := k / 2;
      assert bs[j] == PackByte(cs[2 * j], cs[2 * j + 1], swap);
      PackByteRoundTrip(cs[2 * j], cs[2 * j + 1], swap);
      assert k == 2 * j || k == 2 * j + 1;
    }
  }

  /** Only the first `(len + 1) / 2` bytes matter to a decoder that reads one byte further. */
  lemma UnpackIgnoresLookahead(bs: seq<Byte>, more: seq<Byte>, len: nat, swap: bool)
    requires len <= 2 * |bs|
    ensures Unpack(bs + more, len, swap) == Unpack(bs, len, swap)
  {
    forall k | 0 <= k < len ensures CodeAt(bs + more, k, swap) == CodeAt(bs, k, swap) {
      assert (bs + more)[k / 2] == bs[k / 2];
    }
  }

  /**
   Codec lockstep through the bytes: decoding what a run packed gives the encoder's predictions, and for
   whole groups of four samples also the encoder's final state.
   */
  lemma PackedLockstep(st: State, xs: seq<Sample>, swap: bool)
    ensures
      var n := |xs| / 4 * 4;
      var cs := Unpack(Pack(Codes(st, xs), swap), n, swap);
      && Pcm(st, cs) == Predictions(st, xs[..n])
      && DecoderAfter(st, cs) == EncoderAfter(st, xs[..n])
  {
    var n := |xs| / 4 * 4;
    UnpackPack(Codes(st, xs), swap);
    OutputsPrefix(EncodeStep, Code, st, xs, n);
    PcmLockstep(st, xs[..n]);
    StateLockstep(st, xs[..n]);
  }
}
