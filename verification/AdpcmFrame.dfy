/**
 `mic_to_adpcm_split` and `adpcm_to_pcm` of application/audio/adpcm.c in their four build variants, the
 frame headers they exchange, and the proof that a frame decodes to the encoder's own predictions.

 Words are stored little-endian. Where the C code combines disjoint bit fields with `|`, this model adds.
 */
module AdpcmFrame {
  import opened Adpcm
  import opened AdpcmStream
  import opened Modulo
  import opened PacketSlots
  import opened Runs

  /** The build variants: `TL_AUDIO_MODE`, and for Google the version of the voice-over-BLE format. */
  datatype Variant = Telink | Google04 | Google10 | Hid
  {
    predicate Swaps() { !Telink? }
    predicate HasHeader() { Telink? || Google04? }
    function HeaderSize(): nat { match this case Telink => 4 case Google04 => 6 case _ => 0 }
  }

  /** `ADPCM_PACKET_LEN` of the Telink variant. */
  const TELINK_PACKET_LEN: int := 128
  const ADPCM_ANDROID_ID: Byte := 0

  // ----- headers

  /** A signed 16-bit word from its two bytes. */
  function SignedWord(low: Byte, high: Byte): Sample {
    var w := low + 256 * high;
    if w >= 32768 then w - 65536 else w
  }

  lemma SignedWordRoundTrip(s: Sample)
    ensures SignedWord(LowByte(s), HighByte(s)) == s
  {
  }

  function Header(v: Variant, st: State, serial: nat): (bs: seq<Byte>)
    ensures |bs| == v.HeaderSize()
  {
    match v
    case Telink => [LowByte(st.predict), HighByte(st.predict), st.idx, TELINK_PACKET_LEN - 4]
    case Google04 =>
      [HighByte(serial), LowByte(serial), ADPCM_ANDROID_ID, HighByte(st.predict), LowByte(st.predict), st.idx]
    case _ => []
  }

  /** The index byte of a received header; the table has no entry beyond 88. */
  predicate HeaderFits(v: Variant, bs: seq<Byte>) {
    && |bs| >= v.HeaderSize()
    && (v.Telink? ==> bs[2] <= 88)
    && (v.Google04? ==> bs[5] <= 88)
  }

  /** The state the decoder takes from a header; without one it goes on from its own. */
  function StartState(v: Variant, own: State, bs: seq<Byte>): State
    requires HeaderFits(v, bs)
  {
    match v
    case Telink => State(SignedWord(bs[0], bs[1]), bs[2])
    case Google04 => State(SignedWord(bs[4], bs[3]), bs[5])
    case _ => own
  }

  /** A header carries the whole state, whatever state the receiver was in. */
  lemma HeaderRoundTrip(v: Variant, st: State, serial: nat, own: State, rest: seq<Byte>)
    requires v.HasHeader()
    ensures HeaderFits(v, Header(v, st, serial) + rest)
    ensures StartState(v, own, Header(v, st, serial) + rest) == st
  {
    SignedWordRoundTrip(st.predict);
  }

  // ----- frames

  /** The bytes of one frame for the samples `xs`, encoded from `st`. */
  function Frame(v: Variant, st: State, serial: nat, xs: seq<Sample>): seq<Byte> {
    Header(v, st, serial) + Pack(Codes(st, xs), v.Swaps())
  }

  /**
   The bytes on the air: `predict`, low byte first in the Telink build and high byte first in the Google one, the index,
   the bytes of the packet behind the header or the serial number, and then the codes in pairs. The first of a pair is
   the low half of its byte in the Telink build, the high half in the others.
   */
  lemma FrameBytes(v: Variant, st: State, serial: nat, xs: seq<Sample>)
    ensures var f: seq<int>, h := Frame(v, st, serial, xs), if v.Telink? then 4 else if v.Google04? then 6 else 0;
            && |f| == h + |xs| / 4 * 2
            && (v.Telink? ==> f[0] + 256 * f[1] == st.predict % 65536 && f[2] == st.idx && f[3] == 124)
            && (v.Google04? ==>
                  && 256 * f[0] + f[1] == serial % 65536 && f[2] == 0
                  && 256 * f[3] + f[4] == st.predict % 65536 && f[5] == st.idx)
    ensures var f: seq<int>, h := Frame(v, st, serial, xs), if v.Telink? then 4 else if v.Google04? then 6 else 0;
            forall k :: 0 <= k < |xs| / 4 * 2 ==>
              f[h + k] == ByteOf(if v.Telink? then CodeOf(st, xs, 2 * k + 1) else CodeOf(st, xs, 2 * k),
                                 if v.Telink? then CodeOf(st, xs, 2 * k) else CodeOf(st, xs, 2 * k + 1))
  {
    hide Code, EncodeStep;
    BytesOfWord(st.predict);
    BytesOfWord(serial);
    forall k | 0 <= k < |xs| / 4 * 2
      ensures Pack(Codes(st, xs), v.Swaps())[k]
           == ByteOf(if v.Telink? then CodeOf(st, xs, 2 * k + 1) else CodeOf(st, xs, 2 * k),
                     if v.Telink? then CodeOf(st, xs, 2 * k) else CodeOf(st, xs, 2 * k + 1))
    {
      HalvesSwap(CodeOf(st, xs, 2 * k), CodeOf(st, xs, 2 * k + 1));
    }
  }

  function ByteOf(high: Nibble, low: Nibble): Byte { 16 * high + low }

  /** The code for sample `k`, encoded after the samples before it. */
  function CodeOf(st: State, xs: seq<Sample>, k: nat): Nibble
    requires k < |xs|
  {
    Code(EncoderAfter(st, xs[..k]), xs[k])
  }

  lemma BytesOfWord(w: int)
    ensures LowByte(w) + 256 * HighByte(w) == w % 65536
  {
  }

  lemma HalvesSwap(first: Nibble, second: Nibble)
    ensures PackByte(first, second, false) == ByteOf(second, first)
    ensures PackByte(first, second, true) == ByteOf(first, second)
  {
  }

  /** The codes a decoder takes from a frame. */
  function FrameCodes(v: Variant, bs: seq<Byte>, len: nat): seq<Nibble>
    requires |bs| >= v.HeaderSize() + (len + 1) / 2
  {
    Unpack(bs[v.HeaderSize()..], len, v.Swaps())
  }

  /** What a decoder in state `own` plays for a frame. */
  function FramePcm(v: Variant, own: State, bs: seq<Byte>, len: nat): (pcm: seq<Sample>)
    requires HeaderFits(v, bs)
    requires |bs| >= v.HeaderSize() + (len + 1) / 2
    ensures |pcm| == len
  {
    Pcm(StartState(v, own, bs), FrameCodes(v, bs, len))
  }

  /** The decoder's state after that. */
  function FrameEnd(v: Variant, own: State, bs: seq<Byte>, len: nat): State
    requires HeaderFits(v, bs)
    requires |bs| >= v.HeaderSize() + (len + 1) / 2
  {
    DecoderAfter(StartState(v, own, bs), FrameCodes(v, bs, len))
  }

  /**
   A frame of whole groups of four samples decodes to the encoder's predictions and leaves the decoder in
   the encoder's state, whatever bytes follow it. With a header this holds from any decoder state, without
   one from the encoder's.
   */
  lemma FrameDecodes(v: Variant, st: State, serial: nat, xs: seq<Sample>, own: State, rest: seq<Byte>)
    requires |xs| % 4 == 0
    requires v.HasHeader() || own == st
    ensures
      var bs := Frame(v, st, serial, xs) + rest;
      && HeaderFits(v, bs)
      && |bs| >= v.HeaderSize() + (|xs| + 1) / 2
      && FramePcm(v, own, bs, |xs|) == Predictions(st, xs)
      && FrameEnd(v, own, bs, |xs|) == EncoderAfter(st, xs)
  {
    var header, data := Header(v, st, serial), Pack(Codes(st, xs), v.Swaps());
    FrameSlices(header, data, rest);
    if v.HasHeader() {
      HeaderRoundTrip(v, st, serial, own, data + rest);
    }
    DataDecodes(v, Frame(v, st, serial, xs) + rest, data, rest, st, xs);
  }

  lemma DataDecodes(v: Variant, bs: seq<Byte>, data: seq<Byte>, rest: seq<Byte>, st: State, xs: seq<Sample>)
    requires |xs| % 4 == 0 && data == Pack(Codes(st, xs), v.Swaps())
    requires |bs| >= v.HeaderSize() && bs[v.HeaderSize()..] == data + rest
    ensures |bs| >= v.HeaderSize() + (|xs| + 1) / 2
    ensures Pcm(st, FrameCodes(v, bs, |xs|)) == Predictions(st, xs)
    ensures DecoderAfter(st, FrameCodes(v, bs, |xs|)) == EncoderAfter(st, xs)
  {
    var groups := |xs| / 4;
    assert |xs| == 4 * groups && |data| == 2 * groups && (|xs| + 1) / 2 == 2 * groups;
    UnpackIgnoresLookahead(data, rest, |xs|, v.Swaps());
    assert FrameCodes(v, bs, |xs|) == Unpack(data, |xs|, v.Swaps());
    PackedLockstep(st, xs, v.Swaps());
    assert xs[..groups * 4] == xs;
  }

  lemma FrameSlices(header: seq<Byte>, data: seq<Byte>, rest: seq<Byte>)
    ensures header + data + rest == header + (data + rest)
    ensures (header + data + rest)[|header|..] == data + rest
  {
  }

  /**
   The headerless Google 1.0 pair starts out of step, the encoder at index 1 and the decoder at index 0.
   From those states a frame decodes to the encoder's predictions exactly when it is empty: the first
   sample already differs, whatever it is.
   */
  lemma Google10StartsApart(xs: seq<Sample>, rest: seq<Byte>)
    requires |xs| % 4 == 0
    ensures
      var bs := Frame(Google10, State(0, 1), 0, xs) + rest;
      && |bs| >= (|xs| + 1) / 2
      && (FramePcm(Google10, State(0, 0), bs, |xs|) == Predictions(State(0, 1), xs) <==> |xs| == 0)
  {
    var st, own := State(0, 1), State(0, 0);
    var data := Pack(Codes(st, xs), true);
    assert Frame(Google10, st, 0, xs) + rest == data + rest;
    UnpackIgnoresLookahead(data, rest, |xs|, true);
    UnpackPack(Codes(st, xs), true);
    var cs := Codes(st, xs);
    assert cs[..|xs|] == cs;
    if |xs| > 0 {
      FoldNext(EncodeStep, st, xs, 0);
      FoldNext(DecodeStep, own, cs, 0);
      StepLockstep(st, xs[0]);
      FirstStepsDiffer(cs[0]);
      assert Pcm(own, cs)[0] != Predictions(st, xs)[0];
    }
  }

  lemma FirstStepsDiffer(c: Nibble)
    ensures DecodeStep(State(0, 0), c).predict != DecodeStep(State(0, 1), c).predict
  {
    StepTableShape(0);
  }

  // ----- the encoder

  /** The encoder's inner loop. */
  method Quantise(diff0: nat, step0: nat) returns (bits: nat, diffq: int)
    ensures Quantum(bits, diffq) == Greedy(diff0, step0, TOP_BIT)
  {
    var diff: nat, step: nat, j: nat := diff0, step0, TOP_BIT;
    bits, diffq := 0, 0;
    ghost var whole := Greedy(diff0, step0, TOP_BIT);
    while j > 0
      invariant whole.bits == bits + Greedy(diff, step, j).bits
      invariant whole.diffq == diffq + Greedy(diff, step, j).diffq
    {
      ghost var before := Greedy(diff, step, j);
      if diff >= step {
        diff := diff - step;
        diffq := diffq + step;
        bits := bits + j;
        assert before == var q := Greedy(diff, step / 2, j / 2); Quantum(j + q.bits, step + q.diffq);
      }
      step := step / 2;
      j := j / 2;
    }
  }

  class Encoder {
    const variant: Variant
    var predict: Sample
    var predictIdx: Index
    var adpcmSerialNum: nat
    /** The static output pointer `pd`: an array and an offset into it. */
    var buf: array<Byte>
    var pd: nat

    constructor (variant: Variant, buf: array<Byte>)
      ensures this.variant == variant && this.buf == buf && pd == 0 && adpcmSerialNum == 0
      ensures Contents() == State(0, if variant.Google04? || variant.Google10? then 1 else 0)
    {
      this.variant := variant;
      this.buf := buf;
      predict, predictIdx := 0, if variant.Google04? || variant.Google10? then 1 else 0;
      adpcmSerialNum, pd := 0, 0;
    }

    ghost function Contents(): State
      reads `predict, `predictIdx
    {
      State(predict, predictIdx)
    }

    /** The Hid variant resets its output pointer on every call, the others when `start` is set. */
    predicate Restarts(start: bool) { start || variant.Hid? }

    /** The bytes one call emits. */
    ghost function Emitted(ps: seq<Sample>, start: bool): seq<Byte>
      reads this
    {
      if Restarts(start) then Frame(variant, Contents(), adpcmSerialNum, ps)
      else Pack(Codes(Contents(), ps), variant.Swaps())
    }

    /** The array one call writes to, and where it begins. */
    function Target(pds: array<Byte>, start: bool): array<Byte>
      reads this
    {
      if Restarts(start) then pds else buf
    }

    function TargetStart(at: nat, start: bool): nat
      reads this
    {
      if Restarts(start) then at else pd
    }

    /** The header part of `mic_to_adpcm_split`. */
    method WriteHeader()
      requires pd + variant.HeaderSize() <= buf.Length
      modifies `pd, buf
      ensures pd == old(pd) + variant.HeaderSize()
      ensures buf[..] == Overwrite(old(buf[..]), old(pd), Header(variant, Contents(), adpcmSerialNum))
    {
      if variant.Telink? {
        buf[pd], buf[pd + 1] := LowByte(predict), HighByte(predict);
        buf[pd + 2], buf[pd + 3] := predictIdx, TELINK_PACKET_LEN - 4;
        pd := pd + 4;
      } else if variant.Google04? {
        buf[pd], buf[pd + 1] := HighByte(adpcmSerialNum), LowByte(adpcmSerialNum);
        buf[pd + 2], buf[pd + 3] := ADPCM_ANDROID_ID, HighByte(predict);
        buf[pd + 4], buf[pd + 5] := LowByte(predict), predictIdx;
        pd := pd + 6;
      }
    }

    method StartFrame(pds: array<Byte>, at: nat)
      requires at + variant.HeaderSize() <= pds.Length
      modifies this, pds
      ensures Contents() == old(Contents()) && buf == pds && pd == at + variant.HeaderSize()
      ensures adpcmSerialNum == NextSerial(old(adpcmSerialNum))
      ensures pds[..] == old(Overwrite(pds[..], at, Header(variant, Contents(), adpcmSerialNum)))
    {
      buf, pd := pds, at;
      WriteHeader();
      ghost var headed := buf[..];
      adpcmSerialNum := NextSerial(adpcmSerialNum);
      assert buf[..] == headed;
    }

    /** One round of the sample loop: the code, and the new state. */
    method EncodeSample(di: Sample) returns (code: Nibble)
      modifies `predict, `predictIdx
      ensures code == Code(old(Contents()), di)
      ensures Contents() == EncodeStep(old(Contents()), di)
    {
      hide Greedy, StepSize, IndexShift, Code, EncoderDiffq, EncodeStep;
      var step := StepSize(predictIdx);
      var diff := di - predict;
      var sign := 0;
      if diff < 0 {
        diff := -diff;
        sign := 8;
      }
      var bits, diffq := Quantise(diff, step);
      StepInParts(Contents(), di, Quantum(bits, diffq));
      diffq := step / 8 + diffq;
      code := sign + bits;
      if code >= 8 {
        predict := ClampPredict(predict - diffq);
      } else {
        predict := ClampPredict(predict + diffq);
      }
      predictIdx := ClampIndex(predictIdx + IndexShift(code));
    }

    /** `*pd++ = code16`, after the nibble swap of the Google and Hid variants. */
    method EmitWord(code16: nat, ghost cs: seq<Nibble>)
      requires |cs| == 4 && code16 == Word(cs[0], cs[1], cs[2], cs[3])
      requires pd + 2 <= buf.Length
      modifies `pd, buf
      ensures pd == old(pd) + 2
      ensures buf[..] == Overwrite(old(buf[..]), old(pd), Pack(cs, variant.Swaps()))
    {
      hide MaybeSwap, PackByte, Pack, Word;
      WordHalves(cs[0], cs[1], cs[2], cs[3]);
      PackByteOfWord(cs[0], cs[1], variant.Swaps());
      PackByteOfWord(cs[2], cs[3], variant.Swaps());
      PackOfGroup(cs, variant.Swaps());
      var low, high := MaybeSwap(code16 % 256, variant.Swaps()), MaybeSwap(code16 / 256, variant.Swaps());
      StoreWord(low, high);
    }

    method StoreWord(low: Byte, high: Byte)
      requires pd + 2 <= buf.Length
      modifies `pd, buf
      ensures pd == old(pd) + 2
      ensures buf[..] == Overwrite(old(buf[..]), old(pd), [low, high])
    {
      buf[pd], buf[pd + 1] := low, high;
      pd := pd + 2;
    }

    /** The packing part of one round: shift the `i`-th code in and write every fourth time. */
    method PutCode(i: nat, code16: nat, code: Nibble, ghost cs: seq<Nibble>, ghost data: seq<Byte>, ghost from: nat)
      returns (next: nat)
      requires i < |cs| && code == cs[i] && Pending(code16, cs, i)
      requires buf.Length == |data|
      requires from + |Pack(cs, variant.Swaps())| <= |data|
      requires pd == from + |Pack(cs[..i], variant.Swaps())| <= |data|
      requires buf[..] == Overwrite(data, from, Pack(cs[..i], variant.Swaps()))
      modifies `pd, buf
      ensures Pending(next, cs, i + 1)
      ensures pd == from + |Pack(cs[..i + 1], variant.Swaps())| <= |data|
      ensures buf[..] == Overwrite(data, from, Pack(cs[..i + 1], variant.Swaps()))
    {
      hide Pending, Overwrite, Pack, ShiftIn, Word;
      ShiftInPending(code16, cs, i);
      PackNext(cs, variant.Swaps(), i);
      next := ShiftIn(code16, code);
      if i % 4 == 3 {
        ghost var packed, word := Pack(cs[..i], variant.Swaps()), Pack(cs[i - 3..i + 1], variant.Swaps());
        EmitWord(next, cs[i - 3..i + 1]);
        assert buf[..] == Overwrite(Overwrite(data, from, packed), from + |packed|, word);
        OverwriteTwice(data, from, packed, word);
      }
    }

    /** The sample loop of `mic_to_adpcm_split`. */
    method EncodeSamples(ps: seq<Sample>)
      requires pd + |ps| / 4 * 2 <= buf.Length
      modifies `predict, `predictIdx, `pd, buf
      ensures Contents() == EncoderAfter(old(Contents()), ps)
      ensures pd == old(pd) + |ps| / 4 * 2
      ensures buf[..] == Overwrite(old(buf[..]), old(pd), Pack(Codes(old(Contents()), ps), variant.Swaps()))
    {
      hide EncodeStep, Code, Pack, Overwrite;
      ghost var st0, data := Contents(), buf[..];
      ghost var cs := Codes(st0, ps);
      NothingPacked(cs, variant.Swaps(), data, pd);
      var code16 := 0;
      for i := 0 to |ps|
        invariant Contents() == EncoderAfter(st0, ps[..i])
        invariant pd == old(pd) + |Pack(cs[..i], variant.Swaps())| <= |data|
        invariant buf[..] == Overwrite(data, old(pd), Pack(cs[..i], variant.Swaps()))
        invariant Pending(code16, cs, i)
      {
        FoldNext(EncodeStep, st0, ps, i);
        var code := EncodeSample(ps[i]);
        code16 := PutCode(i, code16, code, cs, data, old(pd));
      }
      assert cs[..|ps|] == cs && ps[..|ps|] == ps;
    }

    /**
     `mic_to_adpcm_split (ps, len, pds, start)`: emits a header when started, then the packed codes of
     `ps`, and leaves the output pointer behind them for a continuation.
     */
    method MicToAdpcmSplit(ps: seq<Sample>, pds: array<Byte>, at: nat, start: bool)
      requires TargetStart(at, start) + |Emitted(ps, start)| <= Target(pds, start).Length
      modifies this, Target(pds, start)
      ensures Contents() == old(EncoderAfter(Contents(), ps))
      ensures adpcmSerialNum
           == if variant.Google04? || variant.Google10? then (old(adpcmSerialNum) + 1) % 0x10000 else old(adpcmSerialNum)
      ensures start || variant.Hid? ==>
                && buf == pds
                && pds[..] == old(Overwrite(pds[..], at, Frame(variant, Contents(), adpcmSerialNum, ps)))
      ensures !start && !variant.Hid? ==>
                && buf == old(buf)
                && buf[..] == old(Overwrite(buf[..], pd, Pack(Codes(Contents(), ps), variant.Swaps())))
      ensures buf == old(Target(pds, start))
      ensures pd == old(TargetStart(at, start) + |Emitted(ps, start)|)
      ensures buf[..] == old(Overwrite(Target(pds, start)[..], TargetStart(at, start), Emitted(ps, start)))
    {
      hide EncoderAfter, Pack, Header, Overwrite;
      if Restarts(start) {
        StartFrame(pds, at);
        ghost var header, headed := Header(variant, Contents(), old(adpcmSerialNum)), buf[..];
        ghost var body := Pack(Codes(Contents(), ps), variant.Swaps());
        EncodeSamples(ps);
        assert buf[..] == Overwrite(headed, at + |header|, body);
        OverwriteTwice(old(pds[..]), at, header, body);
      } else {
        adpcmSerialNum := NextSerial(adpcmSerialNum);
        EncodeSamples(ps);
      }
    }

    function NextSerial(serial: nat): nat {
      if variant.Google04? || variant.Google10? then (serial + 1) % 0x10000 else serial
    }
  }

  /** Four codes in a 16-bit word, the earliest lowest. */
  function Word(c0: int, c1: int, c2: int, c3: int): int { c0 + 16 * c1 + 256 * c2 + 4096 * c3 }

  /** What `code16` holds of the codes before the `i`-th: the last `i % 4` of them, in its top bits. */
  ghost predicate Pending(code16: nat, cs: seq<Nibble>, i: nat)
    requires i <= |cs|
  {
    && code16 < 0x10000
    && (i % 4 == 1 ==> code16 / 4096 == cs[i - 1])
    && (i % 4 == 2 ==> code16 / 256 == Word(cs[i - 2], cs[i - 1], 0, 0))
    && (i % 4 == 3 ==> code16 / 16 == Word(cs[i - 3], cs[i - 2], cs[i - 1], 0))
  }

  /** `(code16 >> 4) | (code << 12)` */
  function ShiftIn(code16: nat, code: Nibble): nat { code16 / 16 + code * 4096 }

  /** Shifting in the next code keeps `Pending`; every fourth time the word is complete. */
  lemma ShiftInPending(code16: nat, cs: seq<Nibble>, i: nat)
    requires i < |cs| && Pending(code16, cs, i)
    ensures Pending(ShiftIn(code16, cs[i]), cs, i + 1)
    ensures i % 4 == 3 ==> ShiftIn(code16, cs[i]) == Word(cs[i - 3], cs[i - 2], cs[i - 1], cs[i])
  {
    var c: int := cs[i];
    var next := ShiftIn(code16, c);
    assert next / 4096 == c;
    assert i % 4 == 1 ==> next / 256 == code16 / 4096 + 16 * c;
    assert i % 4 == 2 ==> next / 16 == code16 / 256 + 256 * c;
  }

  lemma NothingPacked(cs: seq<Nibble>, swap: bool, data: seq<int>, at: nat)
    requires at <= |data|
    ensures Pack(cs[..0], swap) == [] && Overwrite(data, at, Pack(cs[..0], swap)) == data && Pending(0, cs, 0)
  {
  }

  lemma PackAt(cs: seq<Nibble>, swap: bool, k: nat)
    requires k < |cs| / 4 * 2
    ensures 2 * k + 1 < |cs| && Pack(cs, swap)[k] == PackByte(cs[2 * k], cs[2 * k + 1], swap)
  {
  }

  /** The bytes of a longer run extend those of a shorter one. */
  lemma PackPrefix(cs: seq<Nibble>, swap: bool, n: nat)
    requires n <= |cs|
    ensures n / 4 * 2 <= |cs| / 4 * 2 && Pack(cs[..n], swap) == Pack(cs, swap)[..n / 4 * 2]
  {
    assert n / 4 <= |cs| / 4;
    forall k | 0 <= k < n / 4 * 2 ensures Pack(cs[..n], swap)[k] == Pack(cs, swap)[k] {
      PackAt(cs[..n], swap, k);
      PackAt(cs, swap, k);
    }
  }

  /** The bytes for one code more: a complete group of four adds its word. */
  lemma PackNext(cs: seq<Nibble>, swap: bool, i: nat)
    requires i < |cs|
    ensures i % 4 == 3 ==> Pack(cs[..i + 1], swap) == Pack(cs[..i], swap) + Pack(cs[i - 3..i + 1], swap)
    ensures i % 4 != 3 ==> Pack(cs[..i + 1], swap) == Pack(cs[..i], swap)
    ensures |Pack(cs[..i + 1], swap)| <= |Pack(cs, swap)|
    ensures i % 4 == 3 ==> |Pack(cs[i - 3..i + 1], swap)| == 2
  {
    PackPrefix(cs, swap, i);
    PackPrefix(cs, swap, i + 1);
    var g := i / 4;
    if i % 4 == 3 {
      assert i == 4 * g + 3 && (i + 1) / 4 == g + 1;
      PackOfGroup(cs[i - 3..i + 1], swap);
      PackAt(cs, swap, 2 * g);
      PackAt(cs, swap, 2 * g + 1);
    } else {
      assert (i + 1) / 4 == g;
    }
  }

  lemma PackOfGroup(cs: seq<Nibble>, swap: bool)
    requires |cs| == 4
    ensures Pack(cs, swap) == [PackByte(cs[0], cs[1], swap), PackByte(cs[2], cs[3], swap)]
  {
    PackAt(cs, swap, 0);
    PackAt(cs, swap, 1);
  }

  lemma WordSplits(low: nat, high: nat)
    requires low < 256
    ensures (low + 256 * high) % 256 == low && (low + 256 * high) / 256 == high
  {
  }

  lemma WordHalves(c0: Nibble, c1: Nibble, c2: Nibble, c3: Nibble)
    ensures 0 <= Word(c0, c1, 0, 0) < 256 && 0 <= Word(c2, c3, 0, 0) < 256
    ensures 0 <= Word(c0, c1, c2, c3) < 0x10000
    ensures Word(c0, c1, c2, c3) % 256 == Word(c0, c1, 0, 0) && Word(c0, c1, c2, c3) / 256 == Word(c2, c3, 0, 0)
  {
    WordSplits(Word(c0, c1, 0, 0), Word(c2, c3, 0, 0));
  }

  lemma PackByteOfWord(c0: Nibble, c1: Nibble, swap: bool)
    ensures 0 <= Word(c0, c1, 0, 0) < 256 && PackByte(c0, c1, swap) == MaybeSwap(Word(c0, c1, 0, 0), swap)
  {
    hide MaybeSwap;
  }

  // ----- the decoder

  /** The bit tests look at the low nibble only; the high one still holds the next code. */
  lemma LowNibbleBits(code: Byte)
    ensures Bit3(code % 16) == Bit3(code) && Bit2(code % 16) == Bit2(code)
    ensures Bit1(code % 16) == Bit1(code) && Bit0(code % 16) == Bit0(code)
  {
    var high, low := code / 16, code % 16;
    NibbleQuotients(high, low);
    EvenPart(high, low / 8);
    EvenPart(2 * high, low / 4);
    EvenPart(4 * high, low / 2);
    EvenPart(8 * high, low);
  }

  lemma NibbleQuotients(high: nat, low: Nibble)
    ensures (16 * high + low) / 8 == 2 * high + low / 8
    ensures (16 * high + low) / 4 == 4 * high + low / 4
    ensures (16 * high + low) / 2 == 8 * high + low / 2
  {
    RemainderIs(16 * high + low, 8, 2 * high + low / 8, low % 8);
    RemainderIs(16 * high + low, 4, 4 * high + low / 4, low % 4);
    RemainderIs(16 * high + low, 2, 8 * high + low / 2, low % 2);
  }

  lemma EvenPart(x: nat, y: nat)
    ensures (2 * x + y) % 2 == y % 2
  {
    RemainderIs(2 * x + y, 2, x + y / 2, y % 2);
  }

  /** One round of the decoder's loop: `code` is a byte whose low nibble is the current code. */
  method DecodeSample(st: State, code: Byte) returns (predict: Sample, predictIdx: Index)
    ensures State(predict, predictIdx) == DecodeStep(st, code % 16)
  {
    var step := StepSize(st.idx);
    var diffq := step / 8;
    if Bit2(code) {
      diffq := diffq + step;
    }
    step := step / 2;
    if Bit1(code) {
      diffq := diffq + step;
    }
    step := step / 2;
    if Bit0(code) {
      diffq := diffq + step;
    }
    LowNibbleBits(code);
    assert diffq == DecoderDiffq(StepSize(st.idx), code % 16);
    if Bit3(code) {
      predict := ClampPredict(st.predict - diffq);
    } else {
      predict := ClampPredict(st.predict + diffq);
    }
    predictIdx := ClampIndex(st.idx + IndexShift(code % 16));
  }

  /** The decoder's byte variable at sample `i`: swapped when fetched, shifted down for the second code. */
  function CodeByte(bs: seq<Byte>, i: nat, swap: bool): Byte
    requires i / 2 < |bs|
  {
    var b := MaybeSwap(bs[i / 2], swap);
    if i % 2 == 0 then b else b / 16
  }

  lemma CodeByteNext(bs: seq<Byte>, i: nat, swap: bool)
    requires (i + 1) / 2 < |bs|
    ensures CodeByte(bs, i, swap) % 16 == CodeAt(bs, i, swap)
    ensures i % 2 == 1 ==> CodeByte(bs, i + 1, swap) == MaybeSwap(bs[i / 2 + 1], swap)
    ensures i % 2 == 0 ==> CodeByte(bs, i + 1, swap) == CodeByte(bs, i, swap) / 16
  {
    assert i % 2 == 1 ==> (i + 1) / 2 == i / 2 + 1;
    assert i % 2 == 0 ==> (i + 1) / 2 == i / 2;
  }

  lemma PcmNext(st: State, cs: seq<Nibble>, i: nat)
    requires i < |cs|
    ensures
      var next := DecodeStep(Fold(DecodeStep, st, cs[..i]), cs[i]);
      Fold(DecodeStep, st, cs[..i + 1]) == next && Pcm(st, cs)[i] == next.predict
  {
    FoldNext(DecodeStep, st, cs, i);
  }

  class Decoder {
    const variant: Variant
    /** The globals of the headerless variants; the others take their state from each header. */
    var predict: Sample
    var predictIdx: Index

    constructor (variant: Variant)
      ensures this.variant == variant && Contents() == State(0, 0)
    {
      this.variant := variant;
      predict, predictIdx := 0, 0;
    }

    /** `predict = 0; predict_idx = 0;` of `abuf_init` */
    method Restart()
      modifies this
      ensures Contents() == State(0, 0)
    {
      predict, predictIdx := 0, 0;
    }

    ghost function Contents(): State
      reads this
    {
      State(predict, predictIdx)
    }

    /** The advance to the next code: a fresh byte after an odd-numbered sample, the high nibble otherwise. */
    method NextCode(ps: array<Byte>, ghost at: nat, i: nat, code: Byte, pcode: nat) returns (code': Byte, pcode': nat)
      requires pcode == at + i / 2 + 1 && at + (i + 1) / 2 < ps.Length
      requires code == CodeByte(ps[at..], i, variant.Swaps())
      ensures code % 16 == CodeAt(ps[at..], i, variant.Swaps())
      ensures pcode' == at + (i + 1) / 2 + 1
      ensures code' == CodeByte(ps[at..], i + 1, variant.Swaps())
    {
      CodeByteNext(ps[at..], i, variant.Swaps());
      code', pcode' := code / 16, pcode;
      if i % 2 == 1 {
        code' := MaybeSwap(ps[pcode], variant.Swaps());
        pcode' := pcode + 1;
      }
    }

    /** The sample loop of `adpcm_to_pcm` on the bytes from `at` on, in state `st0`. */
    method DecodeCodes(st0: State, ps: array<Byte>, at: nat, pd: array<Sample>, to: nat, len: nat) returns (st: State)
      requires at + len / 2 < ps.Length && to + len <= pd.Length && ps as object != pd
      modifies pd
      ensures st == old(DecoderAfter(st0, Unpack(ps[at..], len, variant.Swaps())))
      ensures pd[..] == old(Overwrite(pd[..], to, Pcm(st0, Unpack(ps[at..], len, variant.Swaps()))))
    {
      ghost var bs := ps[at..];
      ghost var cs := Unpack(bs, len, variant.Swaps());
      ghost var pcm, data := Pcm(st0, cs), pd[..];
      st := st0;
      var code := MaybeSwap(ps[at], variant.Swaps());
      var pcode := at + 1;
      for i := 0 to len
        invariant pcode == at + i / 2 + 1
        invariant st == Fold(DecodeStep, st0, cs[..i])
        invariant code == CodeByte(bs, i, variant.Swaps())
        invariant pd[..] == Overwrite(data, to, pcm[..i])
      {
        PcmNext(st0, cs, i);
        CodeByteNext(bs, i, variant.Swaps());
        assert ps[at..] == bs;
        var predict', predictIdx' := DecodeSample(st, code);
        st := State(predict', predictIdx');
        code, pcode := NextCode(ps, at, i, code, pcode);
        OverwriteNext(data, to, pcm, i);
        pd[to + i] := predict';
        assert pd[..] == Overwrite(data, to, pcm[..i])[to + i := pcm[i]];
      }
      assert cs[..len] == cs && pcm[..len] == pcm;
    }

    /**
     `adpcm_to_pcm (ps, pd, len)` on the frame at `from`. After an odd-numbered sample it fetches the next
     byte at once, so it reads one byte beyond the last code; the result does not depend on that byte.
     */
    method AdpcmToPcm(ps: array<Byte>, from: nat, pd: array<Sample>, to: nat, len: nat)
      requires from + variant.HeaderSize() + len / 2 < ps.Length
      requires HeaderFits(variant, ps[from..])
      requires to + len <= pd.Length && ps as object != pd
      modifies this, pd
      ensures pd[..] == old(Overwrite(pd[..], to, FramePcm(variant, Contents(), ps[from..], len)))
      ensures Contents() == if variant.HasHeader() then old(Contents())
                            else old(FrameEnd(variant, Contents(), ps[from..], len))
    {
      var st := State(predict, predictIdx);
      if variant.Telink? {
        st := State(SignedWord(ps[from], ps[from + 1]), ps[from + 2]);
      } else if variant.Google04? {
        st := State(SignedWord(ps[from + 4], ps[from + 3]), ps[from + 5]);
      }
      assert st == StartState(variant, Contents(), ps[from..]);
      assert ps[from..][variant.HeaderSize()..] == ps[from + variant.HeaderSize()..];
      st := DecodeCodes(st, ps, from + variant.HeaderSize(), pd, to, len);
      if !variant.HasHeader() {
        predict, predictIdx := st.predict, st.idx;
      }
    }
  }
}
