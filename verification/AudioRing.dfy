/**
 The encoded-packet ring of the remote control in application/audio/tl_audio.c: `proc_mic_encoder`,
 `mic_encoder_data_buffer` and `mic_encoder_data_read_ok`, with free-running 8-bit pointers.

 The GATT builds drop the oldest packet when the ring is full; the HID build, whose frames carry no
 header, refuses to encode instead. A full history of the frames encoded says what a packet in the ring is.
 */
module AudioRing {
  import opened Adpcm
  import opened AdpcmStream
  import opened AdpcmFrame
  import opened Microphone
  import opened PacketRings
  import opened PacketSlots
  import opened Runs

  /** `TL_MIC_PACKET_BUFFER_NUM` */
  const PACKET_NUM: nat := 4

  /** `ADPCM_PACKET_LEN` */
  function PacketLen(v: Variant): nat { match v case Telink => 128 case Google04 => 136 case _ => 120 }

  /** `TL_MIC_ADPCM_UNIT_SIZE`, the samples in one packet */
  function UnitSize(v: Variant): nat { match v case Telink => 248 case Google04 => 256 case _ => 240 }

  lemma FrameFillsPacket(v: Variant, st: State, serial: nat, xs: seq<Sample>)
    requires |xs| == UnitSize(v)
    ensures |Frame(v, st, serial, xs)| <= PacketLen(v)
    ensures v.Telink? ==> |xs| == 248 && |Frame(v, st, serial, xs)| == PacketLen(v) == 128
    ensures v.Google04? ==> |xs| == 256 && |Frame(v, st, serial, xs)| == 134 && PacketLen(v) == 136
    ensures v.Hid? ==> |xs| == 240 && |Frame(v, st, serial, xs)| == PacketLen(v) == 120
  {
  }

  /** What went into one frame: the encoder's state before it, the serial number and the samples. */
  datatype Record = Record(st: State, serial: nat, xs: seq<Sample>)
  {
    function Bytes(v: Variant): seq<Byte> { Frame(v, st, serial, xs) }
    function After(): State { EncoderAfter(st, xs) }
  }

  /**
   `log` and `frames` are what encoding the first `taken` samples of `stream` from state `init` gives, one
   packet after the other, and `now` is the encoder's state after the last of them.
   */
  ghost predicate Encoded(v: Variant, init: State, log: seq<Record>, frames: seq<seq<Byte>>, now: State,
                          stream: seq<Sample>, taken: nat)
    decreases |log|
  {
    && |frames| == |log| && taken <= |stream|
    && if |log| == 0 then now == init && taken == 0
       else
         var n, unit := |log| - 1, UnitSize(v);
         var last := log[n];
         && frames[n] == last.Bytes(v) && now == last.After()
         && taken >= unit && last.xs == stream[taken - unit..taken]
         && Encoded(v, init, log[..n], frames[..n], last.st, stream, taken - unit)
  }

  lemma EncodedNext(v: Variant, init: State, log: seq<Record>, frames: seq<seq<Byte>>, record: Record,
                    stream: seq<Sample>, taken: nat)
    requires Encoded(v, init, log, frames, record.st, stream, taken)
    requires taken + UnitSize(v) <= |stream| && record.xs == stream[taken..taken + UnitSize(v)]
    ensures Encoded(v, init, log + [record], frames + [record.Bytes(v)], record.After(), stream, taken + UnitSize(v))
  {
    hide EncoderAfter, Frame;
    var log', frames' := log + [record], frames + [record.Bytes(v)];
    assert log'[..|log|] == log && frames'[..|log|] == frames;
  }

  lemma EncoderAfterNothing(init: State, stream: seq<Sample>)
    ensures EncoderAfter(init, stream[..0]) == init
  {
  }

  lemma EncoderAfterSplits(init: State, xs: seq<Sample>, ys: seq<Sample>)
    ensures EncoderAfter(init, xs + ys) == EncoderAfter(EncoderAfter(init, xs), ys)
  {
    FoldSplits(EncodeStep, init, xs, ys);
  }

  /** The last record, and what came before it. */
  lemma EncodedLast(v: Variant, init: State, log: seq<Record>, frames: seq<seq<Byte>>, now: State,
                    stream: seq<Sample>, taken: nat)
    requires Encoded(v, init, log, frames, now, stream, taken)
    ensures |frames| == |log| && taken <= |stream|
    ensures |log| == 0 ==> now == init && taken == 0
    ensures
      |log| > 0 ==>
        var n, unit := |log| - 1, UnitSize(v);
        && frames[n] == log[n].Bytes(v) && now == EncoderAfter(log[n].st, log[n].xs)
        && taken >= unit && log[n].xs == stream[taken - unit..taken]
        && Encoded(v, init, log[..n], frames[..n], log[n].st, stream, taken - unit)
  {
    hide EncoderAfter, Frame, UnitSize;
  }

  /** All that has been encoded is one run of the encoder over the captured stream. */
  lemma {:induction false} EncodedRun(v: Variant, init: State, log: seq<Record>, frames: seq<seq<Byte>>, now: State,
                                      stream: seq<Sample>, taken: nat)
    requires Encoded(v, init, log, frames, now, stream, taken)
    ensures |frames| == |log| && taken == SlotAt(|log|, UnitSize(v)) <= |stream|
    ensures now == EncoderAfter(init, stream[..taken])
    decreases |log|
  {
    hide Encoded, Frame, UnitSize, EncoderAfter;
    EncodedLast(v, init, log, frames, now, stream, taken);
    if |log| == 0 {
      EncoderAfterNothing(init, stream);
    } else {
      var n, unit := |log| - 1, UnitSize(v);
      EncodedRun(v, init, log[..n], frames[..n], log[n].st, stream, taken - unit);
      assert stream[..taken - unit] + log[n].xs == stream[..taken];
      EncoderAfterSplits(init, stream[..taken - unit], log[n].xs);
    }
  }

  /** Every record is a stretch of that run. */
  lemma {:induction false} EncodedAt(v: Variant, init: State, log: seq<Record>, frames: seq<seq<Byte>>, now: State,
                                     stream: seq<Sample>, taken: nat, k: nat)
    requires Encoded(v, init, log, frames, now, stream, taken) && k < |log|
    ensures |frames| == |log| && taken <= |stream|
    ensures
      var from, to := SlotAt(k, UnitSize(v)), SlotAt(k + 1, UnitSize(v));
      && to <= taken && to == from + UnitSize(v)
      && log[k] == Record(EncoderAfter(init, stream[..from]), log[k].serial, stream[from..to])
      && frames[k] == log[k].Bytes(v)
    decreases |log|
  {
    hide Encoded, Frame, UnitSize, EncoderAfter;
    var n, unit := |log| - 1, UnitSize(v);
    EncodedLast(v, init, log, frames, now, stream, taken);
    EncodedRun(v, init, log, frames, now, stream, taken);
    if k < n {
      EncodedAt(v, init, log[..n], frames[..n], log[n].st, stream, taken - unit, k);
      assert log[..n][k] == log[k] && frames[..n][k] == frames[k];
    } else {
      EncodedRun(v, init, log[..n], frames[..n], log[n].st, stream, taken - unit);
    }
  }

  /**
   Frame independence under loss: with a header, any frame decodes to the encoder's own predictions for
   its stretch of the captured stream, whatever state the decoder is in and whatever came before.
   */
  lemma SurvivorDecodes(v: Variant, init: State, log: seq<Record>, frames: seq<seq<Byte>>, now: State,
                        stream: seq<Sample>, taken: nat, k: nat, own: State, rest: seq<Byte>)
    requires Encoded(v, init, log, frames, now, stream, taken) && k < |log| && v.HasHeader()
    ensures
      var bs, from := frames[k] + rest, SlotAt(k, UnitSize(v));
      && HeaderFits(v, bs) && |bs| >= v.HeaderSize() + (UnitSize(v) + 1) / 2
      && from + UnitSize(v) <= |stream|
      && FramePcm(v, own, bs, UnitSize(v)) == Predictions(init, stream)[from..from + UnitSize(v)]
  {
    hide EncodeStep, FramePcm, Frame, HeaderFits, EncoderAfter, Predictions;
    EncodedAt(v, init, log, frames, now, stream, taken, k);
    var r := log[k];
    FrameDecodes(v, r.st, r.serial, r.xs, own, rest);
    PredictionsSlice(init, stream, SlotAt(k, UnitSize(v)), SlotAt(k, UnitSize(v)) + UnitSize(v));
  }

  lemma PredictionsSlice(init: State, stream: seq<Sample>, from: nat, to: nat)
    requires from <= to <= |stream|
    ensures Predictions(EncoderAfter(init, stream[..from]), stream[from..to]) == Predictions(init, stream)[from..to]
  {
    hide EncodeStep;
    var head, body, tail := stream[..from], stream[from..to], stream[to..];
    assert stream == head + body + tail && head + body == stream[..to];
    PredictionsSplit(init, head + body, tail);
    PredictionsSplit(init, head, body);
  }

  /** Captured samples that come later do not matter. */
  lemma {:induction false} EncodedOfMore(v: Variant, init: State, log: seq<Record>, frames: seq<seq<Byte>>, now: State,
                                         stream: seq<Sample>, taken: nat, more: seq<Sample>)
    requires Encoded(v, init, log, frames, now, stream, taken)
    ensures Encoded(v, init, log, frames, now, stream + more, taken)
    decreases |log|
  {
    hide EncoderAfter, Frame;
    if |log| == 0 {
    } else {
      var n, unit := |log| - 1, UnitSize(v);
      EncodedOfMore(v, init, log[..n], frames[..n], log[n].st, stream, taken - unit, more);
      assert (stream + more)[taken - unit..taken] == stream[taken - unit..taken];
    }
  }

  lemma EncodedMore(v: Variant, init: State, log: seq<Record>, frames: seq<seq<Byte>>, record: Record, spoken: seq<Sample>)
    requires Encoded(v, init, log, frames, record.st, spoken, |spoken|) && |record.xs| == UnitSize(v)
    ensures Encoded(v, init, log + [record], frames + [record.Bytes(v)], record.After(),
                    spoken + record.xs, |spoken + record.xs|)
  {
    hide Encoded, EncoderAfter, Frame;
    EncodedOfMore(v, init, log, frames, record.st, spoken, |spoken|, record.xs);
    EncodedNext(v, init, log, frames, record, spoken + record.xs, |spoken|);
  }

  lemma NothingEncoded(v: Variant, init: State)
    ensures Encoded(v, init, [], [], init, [], 0)
  {
  }

  /** The remote control's side: microphone buffer, encoder and packet ring. */
  class MicEncoder {
    const variant: Variant
    const mic: MicBuffer
    const encoder: Encoder
    const ring: PacketRing
    /** The run of the encoder from state `init`: the samples it has encoded, and every frame that came of them. */
    ghost var init: State
    ghost var spoken: seq<Sample>
    ghost var log: seq<Record>
    ghost var frames: seq<seq<Byte>>
    /** The first frame of those that went into the ring since its pointers were last reset. */
    ghost var base: nat

    ghost predicate Valid()
      reads this, mic, mic.bufferMic, encoder, ring, ring.packets
    {
      && Parts()
      && mic.Valid() && mic.unit == UnitSize(variant)
      && ring.Valid() && ring.num == PACKET_NUM && ring.size == PacketLen(variant)
      && History()
    }

    /** The parts do not overlap. */
    ghost predicate Parts()
      reads this
    {
      mic.bufferMic as object != ring.packets && mic as object != ring && encoder as object !in {ring, mic}
    }

    /** The frames are those of the samples taken, encoded one after the other; the ring has the last of them. */
    ghost predicate History()
      reads `init, `spoken, `log, `frames, `base, mic`taken, encoder`predict, encoder`predictIdx, ring`frames
    {
      && encoder.variant == variant
      && Encoded(variant, init, log, frames, encoder.Contents(), spoken, |spoken|)
      && base <= |frames| && ring.frames == frames[base..]
      && |spoken| <= |mic.taken| && spoken == mic.taken[|mic.taken| - |spoken|..]
    }

    /** Where the next packet to send is among all frames. */
    ghost function Head(): nat
      reads this, ring
    {
      base + ring.head
    }

    constructor (variant: Variant, mic: MicBuffer, encoder: Encoder, ring: PacketRing)
      requires mic.Valid() && mic.unit == UnitSize(variant) && mic.taken == []
      requires ring.Valid() && ring.num == PACKET_NUM && ring.size == PacketLen(variant) && ring.frames == []
      requires encoder.variant == variant
      requires mic.bufferMic as object != ring.packets && mic as object != ring && encoder as object !in {ring, mic}
      ensures Valid() && spoken == [] && log == [] && frames == [] && base == 0 && init == encoder.Contents()
      ensures this.variant == variant && this.mic == mic && this.encoder == encoder && this.ring == ring
    {
      this.variant := variant;
      this.mic, this.encoder, this.ring := mic, encoder, ring;
      init, spoken, log, frames, base := encoder.Contents(), [], [], [], 0;
    }

    /** What was encoded is a stretch of the captured sound, unless the hardware has been a whole buffer ahead. */
    lemma SpokenIsCaptured()
      requires Valid() && !mic.lapped
      ensures |spoken| <= |mic.taken| <= |mic.stream|
      ensures spoken == mic.stream[|mic.taken| - |spoken|..|mic.taken|]
    {
      hide Encoded, SlotsHold, HoldsLatest;
      assert mic.taken == mic.stream[..|mic.taken|];
    }

    ghost function NextRecord(xs: seq<Sample>): Record
      reads this, encoder
    {
      Record(encoder.Contents(), encoder.adpcmSerialNum, xs)
    }

    /**
     The voice session begins: the ring's pointers start again, and in the HID build, `audio_mic_param_init`, the
     encoder's state too. Nothing resets the read pointer of the microphone buffer.
     */
    method AudioOn()
      requires Valid()
      modifies `init, `spoken, `log, `frames, `base, encoder`predict, encoder`predictIdx, encoder`adpcmSerialNum
      modifies ring`wptr, ring`rptr, ring`frames, ring`head
      ensures Valid() && ring.frames == [] && ring.head == 0
      ensures variant.Hid? ==> init == State(0, 0) && spoken == [] && frames == [] && base == 0
      ensures !variant.Hid? ==> init == old(init) && spoken == old(spoken) && frames == old(frames) && Head() == |frames|
    {
      hide EncoderAfter, SlotsHold, HoldsLatest, MicBuffer.Pointers, Encoded, PacketLen, UnitSize;
      ring.Restart();
      base := |frames|;
      if variant.Google04? || variant.Google10? {
        encoder.adpcmSerialNum := 0;
      }
      if variant.Hid? {
        RestartEncoder();
      }
    }

    method RestartEncoder()
      requires Parts() && History() && ring.frames == []
      modifies `init, `spoken, `log, `frames, `base, encoder`predict, encoder`predictIdx
      ensures History() && init == State(0, 0) && spoken == [] && frames == [] && base == 0
    {
      hide EncoderAfter, Encoded, PacketLen, UnitSize;
      NothingEncoded(variant, State(0, 0));
      encoder.predict, encoder.predictIdx := 0, 0;
      init, spoken, log, frames, base := State(0, 0), [], [], [], 0;
    }

    /** `mic_to_adpcm_split` into the slot at the write pointer, then `buffer_mic_pkt_wptr++`. */
    method EncodePacket(xs: seq<Sample>)
      requires Parts() && ring.Valid() && ring.num == PACKET_NUM && ring.size == PacketLen(variant)
      requires encoder.variant == variant && |xs| == UnitSize(variant)
      modifies encoder, ring`wptr, ring`frames, ring.packets
      ensures encoder.Contents() == old(NextRecord(xs).After())
      ensures ring.frames == old(ring.frames + [NextRecord(xs).Bytes(variant)])
      ensures ring.Pointers()
      ensures SlotsHold(ring.packets[..], PACKET_NUM, ring.size, ring.frames, old(ring.KeptFrom()))
    {
      hide EncoderAfter, Frame, SlotsHold, Overwrite;
      ghost var record := NextRecord(xs);
      ghost var bytes := record.Bytes(variant);
      FrameFillsPacket(variant, record.st, record.serial, xs);
      WriteSlot(ring.packets[..], ring.num, ring.size, ring.frames, ring.head, bytes);
      var at := ring.WriteOffset();
      encoder.MicToAdpcmSplit(xs, ring.packets, at, true);
      ring.Commit(bytes);
    }

    /**
     `proc_mic_encoder`: encodes the waiting half of the microphone buffer, if there is one. With a full
     ring the HID build leaves it waiting and the others drop the oldest packet.
     */
    method ProcMicEncoder() returns (encoded: bool)
      requires Valid()
      modifies `spoken, `log, `frames, mic`bufferMicRptr, mic`taken, encoder, ring, ring.packets
      ensures Valid()
      ensures encoded <==> old(mic.Ahead() >= mic.unit && (variant.Hid? ==> |ring.frames| < ring.head + PACKET_NUM))
      ensures encoded ==>
        && mic.taken == old(mic.taken + mic.Half()) && spoken == old(spoken + mic.Half())
        && log == old(log + [NextRecord(mic.Half())])
        && frames == old(frames + [NextRecord(mic.Half()).Bytes(variant)])
        && ring.head == old(if |ring.frames| == ring.head + PACKET_NUM then ring.head + 1 else ring.head)
      ensures !encoded ==>
        && mic.taken == old(mic.taken) && spoken == old(spoken) && log == old(log) && frames == old(frames)
        && encoder.Contents() == old(encoder.Contents()) && ring.head == old(ring.head)
    {
      hide EncoderAfter, Frame, HoldsLatest, MicBuffer.Pointers, Encoded, SlotsHold, History, PacketLen, UnitSize;
      encoded := mic.HalfReady();
      if variant.Hid? {
        var room := ring.HasRoom();
        encoded := encoded && room;
      }
      if encoded {
        EncodeHalf();
        if !variant.Hid? {
          ring.DropExcess();
        }
      }
    }

    method EncodeHalf()
      requires Valid() && mic.Ahead() >= mic.unit
      modifies `spoken, `log, `frames, mic`bufferMicRptr, mic`taken, encoder, ring`wptr, ring`frames, ring.packets
      ensures Parts() && mic.Valid() && History()
      ensures mic.taken == old(mic.taken + mic.Half()) && spoken == old(spoken + mic.Half())
      ensures log == old(log + [NextRecord(mic.Half())])
      ensures frames == old(frames + [NextRecord(mic.Half()).Bytes(variant)])
      ensures |ring.frames| == |old(ring.frames)| + 1 && ring.Pointers()
      ensures SlotsHold(ring.packets[..], PACKET_NUM, ring.size, ring.frames, old(ring.KeptFrom()))
    {
      hide EncoderAfter, Frame, SlotsHold, UnitSize, PacketLen, HoldsLatest, MicBuffer.Pointers, Encoded;
      ghost var half := mic.Half();
      ghost var record := NextRecord(half);
      EncodedMore(variant, init, log, frames, record, spoken);
      var xs := mic.TakeHalf();
      EncodePacket(xs);
      spoken, log, frames := spoken + half, log + [record], frames + [record.Bytes(variant)];
      assert frames[base..] == old(frames[base..]) + [record.Bytes(variant)];
      SuffixGrows(old(mic.taken), old(spoken), half);
    }
  }

  lemma SuffixGrows(taken: seq<Sample>, spoken: seq<Sample>, more: seq<Sample>)
    requires |spoken| <= |taken| && spoken == taken[|taken| - |spoken|..]
    ensures spoken + more == (taken + more)[|taken + more| - |spoken + more|..]
  {
  }

  /** The remote control's side as it powers up. */
  method NewMicEncoder(v: Variant) returns (rcu: MicEncoder)
    ensures fresh(rcu) && rcu.variant == v && rcu.Valid()
    ensures rcu.mic.stream == rcu.mic.taken == rcu.spoken == [] && !rcu.mic.lapped
    ensures rcu.frames == rcu.ring.frames == [] && rcu.base == 0
    ensures rcu.init == State(0, if v.Google04? || v.Google10? then 1 else 0)
    ensures fresh(rcu.mic) && fresh(rcu.mic.bufferMic) && fresh(rcu.encoder) && fresh(rcu.ring) && fresh(rcu.ring.packets)
  {
    hide EncoderAfter, SlotsHold, SlotAt, HoldsLatest, MicBuffer.Pointers;
    var bufferMic := new Sample[2 * UnitSize(v)](_ => 0);
    var bufferMicEnc := new Byte[SlotAt(PACKET_NUM, PacketLen(v))](_ => 0);
    var mic := new MicBuffer(UnitSize(v), bufferMic);
    var encoder := new Encoder(v, bufferMicEnc);
    var ring := new PacketRing(PACKET_NUM, PacketLen(v), bufferMicEnc);
    rcu := new MicEncoder(v, mic, encoder, ring);
  }
}
