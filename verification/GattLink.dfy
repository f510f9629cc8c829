/**
 The GATT voice link of the Telink and Google 0.4 builds end to end. Both of its packet rings lose packets: the
 remote control's drops the oldest one, the dongle's is overwritten, skipped and resynchronised. Whatever
 reaches the USB host is still the encoder's own predictions.
 */
module GattLink {
  import opened Adpcm
  import opened AdpcmFrame
  import opened AdpcmStream
  import opened AudioRing
  import opened GattDongles
  import opened Microphone
  import opened PacketRings
  import opened PacketSlots
  import opened ReceiveRings
  import opened UsbPlayback

  /** Frame `k` and what it decodes to: the encoder's predictions for its stretch of the captured sound. */
  lemma FramePlays(v: Variant, init: State, log: seq<Record>, frames: seq<seq<Byte>>, now: State, stream: seq<Sample>,
                   taken: nat, k: nat)
    requires IsGatt(v) && Encoded(v, init, log, frames, now, stream, taken) && k < |frames|
    ensures Decodable(v, frames[k]) && |frames[k]| <= PacketLen(v)
    ensures SlotAt(k, UnitSize(v)) + UnitSize(v) <= |stream| == |Predictions(init, stream)|
    ensures BlockPcm(v, frames[k]) == Predictions(init, stream)[SlotAt(k, UnitSize(v))..SlotAt(k, UnitSize(v)) + UnitSize(v)]
  {
    hide Frame, EncoderAfter, FramePcm, Encoded, EncodeStep;
    EncodedRun(v, init, log, frames, now, stream, taken);
    EncodedAt(v, init, log, frames, now, stream, taken, k);
    FrameFillsPacket(v, log[k].st, log[k].serial, log[k].xs);
    assert frames[k] + [] == frames[k];
    SurvivorDecodes(v, init, log, frames, now, stream, taken, k, State(0, 0), []);
  }

  /** A block holds what one of the frames decodes to. */
  ghost predicate FromFrame(v: Variant, frames: seq<seq<Byte>>, h: Held) {
    h.Block? ==> h.frame < |frames| && Decodable(v, frames[h.frame]) && h.pcm == BlockPcm(v, frames[h.frame])
  }

  ghost predicate AllFromFrames(v: Variant, frames: seq<seq<Byte>>, held: seq<Held>) {
    forall s :: 0 <= s < |held| ==> FromFrame(v, frames, held[s])
  }

  /** The packets received are frames, whole at their beginning, in the order encoded. */
  ghost predicate Received(v: Variant, frames: seq<seq<Byte>>, head: nat, received: seq<seq<Byte>>, origin: seq<nat>) {
    && |origin| == |received| && head <= |frames|
    && (forall i :: 0 <= i < |origin| ==>
          origin[i] < head && Decodable(v, frames[origin[i]]) && frames[origin[i]] <= received[i])
    && (forall i, j :: 0 <= i < j < |origin| ==> origin[i] < origin[j])
  }

  lemma BlockFromFrame(v: Variant, frames: seq<seq<Byte>>, head: nat,
                       received: seq<seq<Byte>>, origin: seq<nat>, j: nat, at: nat)
    requires IsGatt(v) && Received(v, frames, head, received, origin) && j < |received|
    ensures Decodable(v, received[j])
    ensures FromFrame(v, frames, Block(at, origin[j], BlockPcm(v, received[j])))
  {
    hide Decodable, BlockPcm, FramePcm;
    FrameSuffices(v, State(0, 0), frames[origin[j]], received[j]);
    SelfPcm(v, received[j]);
  }

  lemma SelfPcm(v: Variant, bs: seq<Byte>)
    requires Decodable(v, bs)
    ensures FramePcm(v, State(0, 0), bs, UnitSize(v)) == BlockPcm(v, bs)
  {
  }

  /** Two GATT sides and what passes between them, as a machine whose steps may come in any order. */
  class VoiceLink {
    const rcu: MicEncoder
    const dongle: GattDongle

    ghost predicate Valid()
      reads this, rcu, rcu.mic, rcu.mic.bufferMic, rcu.encoder, rcu.ring, rcu.ring.packets
      reads dongle, dongle.decoder, dongle.ring, dongle.ring.abufMic, dongle.playback, dongle.playback.abufDec
    {
      && Apart()
      && rcu.Valid() && dongle.Valid() && dongle.variant == rcu.variant
      && Received(rcu.variant, rcu.frames, rcu.Head(), dongle.ring.received, dongle.origin)
      && AllFromFrames(rcu.variant, rcu.frames, dongle.playback.held)
    }

    /** Everything the link is made of. */
    ghost function Parts(): set<object>
      reads this, rcu, rcu.mic, rcu.ring, dongle, dongle.ring, dongle.playback
    {
      {rcu, rcu.mic, rcu.mic.bufferMic, rcu.encoder, rcu.ring, rcu.ring.packets, dongle, dongle.decoder, dongle.ring,
       dongle.ring.abufMic, dongle.playback, dongle.playback.abufDec}
    }

    ghost predicate Apart()
      reads this, rcu, rcu.mic, rcu.ring, dongle, dongle.ring, dongle.playback
    {
      && rcu.ring.packets != dongle.ring.abufMic && rcu.ring.packets as object != dongle.playback.abufDec
      && rcu.mic.bufferMic != dongle.playback.abufDec && rcu.mic.bufferMic as object != dongle.ring.abufMic
    }

    constructor (rcu: MicEncoder, dongle: GattDongle)
      requires rcu.Valid() && dongle.Valid() && dongle.variant == rcu.variant
      requires dongle.ring.received == [] && dongle.playback.held == [Nothing, Nothing, Nothing, Nothing]
      requires rcu.ring.packets != dongle.ring.abufMic && rcu.ring.packets as object != dongle.playback.abufDec
      requires rcu.mic.bufferMic != dongle.playback.abufDec && rcu.mic.bufferMic as object != dongle.ring.abufMic
      ensures Valid() && this.rcu == rcu && this.dongle == dongle
    {
      hide Encoded, SlotsHold, HeldIn, Decodable, HoldsLatest, MicBuffer.Pointers, Direct;
      this.rcu, this.dongle := rcu, dongle;
    }

    /** The hardware captures one sample. */
    method Capture(s: Sample)
      requires Valid()
      modifies rcu.mic`micWptr, rcu.mic`stream, rcu.mic`lapped, rcu.mic.bufferMic
      ensures Valid() && rcu.mic.stream == old(rcu.mic.stream) + [s]
      ensures rcu.mic.lapped == (old(rcu.mic.lapped) || |rcu.mic.stream| == |rcu.mic.taken| + 2 * rcu.mic.unit)
    {
      hide Encoded, EncoderAfter, SlotsHold, HeldIn, Decodable, Received, AllFromFrames;
      hide HoldsLatest, MicBuffer.Pointers, Direct;
      rcu.mic.Capture(s);
    }

    /** Encoding may push the oldest unsent packet out. */
    method Encode() returns (encoded: bool)
      requires Valid()
      modifies rcu`spoken, rcu`log, rcu`frames, rcu.mic`bufferMicRptr, rcu.mic`taken
      modifies rcu.encoder, rcu.ring, rcu.ring.packets
      ensures Valid()
      ensures encoded <==> old(rcu.mic.Ahead() >= rcu.mic.unit)
      ensures var half := if encoded then old(rcu.mic.Half()) else [];
              rcu.spoken == old(rcu.spoken) + half && rcu.mic.taken == old(rcu.mic.taken) + half
      ensures |rcu.frames| == |old(rcu.frames)| + if encoded then 1 else 0
      ensures |rcu.ring.frames| == |old(rcu.ring.frames)| + (if encoded then 1 else 0) && rcu.base == old(rcu.base)
      ensures rcu.ring.head == old(rcu.ring.head) +
          if encoded && |old(rcu.ring.frames)| == old(rcu.ring.head) + PACKET_NUM then 1 else 0
    {
      hide Encoded, EncoderAfter, SlotsHold, HeldIn, Decodable, Received, AllFromFrames;
      hide HoldsLatest, MicBuffer.Pointers, Direct, Frame;
      ghost var frames, head := rcu.frames, rcu.Head();
      encoded := rcu.ProcMicEncoder();
      if encoded {
        ReceivedGrows(rcu.variant, frames, rcu.frames, head, rcu.Head(), dongle.ring.received, dongle.origin);
        FromFramesGrow(rcu.variant, frames, rcu.frames, dongle.playback.held);
      }
    }

    /** One packet goes over the air and is acknowledged. */
    method Send() returns (sent: bool)
      requires Valid()
      modifies rcu.ring`rptr, rcu.ring`head
      modifies dongle`origin, dongle.ring`abufMicWptr, dongle.ring`received, dongle.ring.abufMic
      ensures Valid()
      ensures sent <==> old(rcu.ring.head < |rcu.ring.frames|)
      ensures rcu.ring.head == old(rcu.ring.head) + if sent then 1 else 0
      ensures dongle.origin == old(dongle.origin) + if sent then [old(rcu.Head())] else []
    {
      hide Encoded, EncoderAfter, SlotsHold, HeldIn, Decodable, Received, AllFromFrames;
      hide HoldsLatest, MicBuffer.Pointers, Direct, PacketLen, UnitSize;
      ghost var k := rcu.Head();
      var p;
      sent, p := NextPacket();
      if sent {
        ReceivedNext(rcu.variant, rcu.frames, k, dongle.ring.received, dongle.origin, p);
        dongle.AbufMicAdd(p, k);
        rcu.ring.DataReadOk();
      }
    }

    /** The packet that `mic_encoder_data_buffer` points to, if there is one */
    method NextPacket() returns (some: bool, p: seq<Byte>)
      requires Valid()
      ensures some <==> rcu.ring.head < |rcu.ring.frames|
      ensures some ==>
                && rcu.Head() < |rcu.frames| && Decodable(rcu.variant, rcu.frames[rcu.Head()])
                && rcu.frames[rcu.Head()] <= p && Decodable(rcu.variant, p) && |p| == PacketLen(rcu.variant)
    {
      hide Encoded, EncoderAfter, SlotsHold, HeldIn, Decodable, Received, AllFromFrames;
      hide HoldsLatest, MicBuffer.Pointers, Direct, Frame, PacketLen, UnitSize;
      var at;
      some, at := rcu.ring.DataBuffer();
      p := rcu.ring.packets[at..at + rcu.ring.size];
      if some {
        ghost var k := rcu.Head();
        FramePlays(rcu.variant, rcu.init, rcu.log, rcu.frames, rcu.encoder.Contents(), rcu.spoken, |rcu.spoken|, k);
        assert rcu.ring.frames[rcu.ring.head] == rcu.frames[k] <= p;
        FrameSuffices(rcu.variant, State(0, 0), rcu.frames[k], p);
      }
    }

    /** The dongle's main loop decodes. */
    method Decode() returns (decoded: bool, ghost j: nat)
      requires Valid()
      modifies dongle`start, dongle`straight, dongle.decoder, dongle.playback.abufDec
      modifies dongle.playback`abufDecWptr, dongle.playback`abufReset, dongle.playback`position, dongle.playback`held
      modifies dongle.playback`disturbed
      ensures Valid()
      ensures decoded <==>
        old(dongle.playback.abufReset == 0
            && dongle.Waiting() >= (if dongle.start then 2 else 1)
            && dongle.playback.position - dongle.playback.reading <= 3)
      ensures old(dongle.playback.abufReset) == 0 ==>
        dongle.playback.position == old(dongle.playback.position) + (if decoded then 1 else 0)
          + if old(dongle.Waiting()) > 4 then 1 else 0
      ensures dongle.playback.abufReset
           == old(if dongle.playback.abufReset == 0 && dongle.playback.position - dongle.playback.reading > 4 then 16
                  else dongle.playback.abufReset)
      ensures decoded ==> !dongle.start
      ensures decoded ==>
        dongle.playback.position <= |dongle.origin| && j == Fetched(dongle.playback.position - 1, |dongle.origin|, 4)
      ensures dongle.straight == (old(dongle.straight) && (decoded ==> j == dongle.playback.position - 1))
      ensures old(dongle.playback.abufReset) == 0 && old(dongle.Waiting()) <= 4 ==>
        dongle.playback.disturbed == old(dongle.playback.disturbed)
      ensures forall s :: 0 <= s < 4 && !(decoded && s == (dongle.playback.position - 1) % 4) ==>
        dongle.playback.held[s] == old(dongle.playback.held[s])
    {
      hide Encoded, EncoderAfter, SlotsHold, HeldIn, Decodable, Received, AllFromFrames;
      hide HoldsLatest, MicBuffer.Pointers, Direct;
      hide MicEncoder.History, GattDongle.Waiting;
      ghost var held := dongle.playback.held;
      decoded, j := dongle.AbufMicDec();
      if decoded {
        ghost var k := dongle.playback.position - 1;
        BlockFromFrame(rcu.variant, rcu.frames, rcu.Head(), dongle.ring.received, dongle.origin, j, k);
        FromFramesNext(rcu.variant, rcu.frames, held, k % 4, dongle.playback.held[k % 4]);
      }
    }

    /**
     The USB host reads 16 samples. Each of them is the encoder's prediction for its place in some stretch of the
     sound, or 0 from a slot never written. Unless a packet was skipped or overwritten since the last
     resynchronisation, and if two packets are ahead or the read stays in its packet, they are the predictions for
     the frames received at these positions, which are in the order encoded.
     */
    method UsbIso(late: bool) returns (playing: bool, out: seq<Sample>)
      requires Valid()
      modifies dongle`straight
      modifies dongle.playback`abufDecRptr, dongle.playback`abufReset, dongle.playback`bufferEmpty, dongle.playback`nUsbIso
      modifies dongle.playback`reading, dongle.playback`off, dongle.playback`disturbed
      ensures Valid()
      ensures var p, o := old(dongle.playback.StartPacket(late)), old(dongle.playback.StartOff(late));
              var ahead := dongle.playback.position - p;
              && 0 <= ahead && o < dongle.playback.dec
              && (playing <==> ahead >= if old(dongle.playback.bufferEmpty) then 3 else 1)
              && dongle.playback.bufferEmpty == (if ahead == 0 then true else old(dongle.playback.bufferEmpty) && !playing)
              && dongle.playback.reading == (p + if playing && o + ISO_SIZE >= dongle.playback.dec then 1 else 0)
              && dongle.playback.off == (if playing then NextOff(dongle.playback.dec, Ptr(p), o) else o)
      ensures playing ==>
                var p, o := old(dongle.playback.StartPacket(late)), old(dongle.playback.StartOff(late));
                var dec, ahead := dongle.playback.dec, dongle.playback.position - p;
                && ReadIsPredicted(out, dongle.playback.held, dec, p, o, Predictions(rcu.init, rcu.spoken))
                && (!dongle.playback.disturbed ==>
                      (OwnBlocks(dongle.playback.held, dec, p, o) <==> ahead >= 2 || o + ISO_SIZE <= dec))
                && (dongle.straight && !dongle.playback.disturbed && (ahead >= 2 || o + ISO_SIZE <= dec) ==>
                      ReadIsDue(out, dongle.origin, dec, p, o, Predictions(rcu.init, rcu.spoken)))
      ensures dongle.playback.abufReset
           == if late then 15 else if old(dongle.playback.abufReset) > 0 then old(dongle.playback.abufReset) - 1 else 0
      ensures dongle.playback.disturbed == (old(dongle.playback.disturbed) && !(late || old(dongle.playback.abufReset) > 0))
      ensures dongle.straight == (old(dongle.straight) || late || old(dongle.playback.abufReset) > 0)
    {
      hide Encoded, EncoderAfter, SlotsHold, HeldIn, Decodable, Received, AllFromFrames;
      hide HoldsLatest, MicBuffer.Pointers, Direct;
      hide ReadIsPredicted, ReadIsDue, SentFrom, OwnBlocks, NextOff, Predictions, Fresh, UnitSize, PacketLen;
      ghost var held, dec := dongle.playback.held, dongle.playback.dec;
      ghost var p, o := dongle.playback.StartPacket(late), dongle.playback.StartOff(late);
      ghost var predicted := Predictions(rcu.init, rcu.spoken);
      playing, out := dongle.UsbIso(late);
      OffsetInside(dec, o);
      if playing {
        ReadPlays(rcu.variant, rcu.init, rcu.log, rcu.frames, rcu.encoder.Contents(), rcu.spoken, |rcu.spoken|, held, p, o);
        if !dongle.playback.disturbed {
          ghost var position := dongle.playback.position;
          OwnExactly(held, dec, p, o, position);
          if dongle.straight && (position - p >= 2 || o + ISO_SIZE <= dec) {
            ReadBecomesDue(out, held, dongle.origin, dec, p, o, position, predicted);
          }
        }
      }
    }

    /** The dongle's main loop starts over after 200 ms of silence. */
    method Init()
      requires Valid()
      modifies dongle`origin, dongle.ring`abufMicWptr, dongle.ring`received
      modifies dongle.playback`abufDecWptr, dongle.playback`abufReset, dongle.playback`position, dongle.playback`held
      ensures Valid() && dongle.origin == [] && dongle.playback.abufReset == 16
    {
      hide Encoded, EncoderAfter, SlotsHold, HeldIn, Decodable, AllFromFrames, HoldsLatest, MicBuffer.Pointers;
      FromFramesAged(rcu.variant, rcu.frames, dongle.playback.held);
      dongle.AbufInit();
    }

    /** The remote control's ring starts over with a new voice session, at any moment. */
    method AudioOn()
      requires Valid()
      modifies rcu`init, rcu`spoken, rcu`log, rcu`frames, rcu`base
      modifies rcu.encoder`predict, rcu.encoder`predictIdx, rcu.encoder`adpcmSerialNum
      modifies rcu.ring`wptr, rcu.ring`rptr, rcu.ring`frames, rcu.ring`head
      ensures Valid() && rcu.init == old(rcu.init) && rcu.spoken == old(rcu.spoken) && rcu.frames == old(rcu.frames)
      ensures rcu.ring.frames == [] && rcu.ring.head == 0
    {
      hide Encoded, EncoderAfter, SlotsHold, HeldIn, Decodable, AllFromFrames, Received;
      hide HoldsLatest, MicBuffer.Pointers, Direct, PacketLen, UnitSize;
      ReceivedGrows(rcu.variant, rcu.frames, rcu.frames, rcu.Head(), |rcu.frames|, dongle.ring.received, dongle.origin);
      rcu.AudioOn();
    }
  }

  /** A sample at offset `o` of a block is the prediction there, and 0 where there is no block. */
  ghost predicate IsPrediction(x: Sample, h: Held, o: nat, predicted: seq<Sample>, dec: nat) {
    if h.Nothing? then x == 0
    else SlotAt(h.frame, dec) + o < |predicted| && x == predicted[SlotAt(h.frame, dec) + o]
  }

  /** A read that begins at offset `o` of packet position `p` sends such samples. */
  ghost predicate ReadIsPredicted(out: seq<Sample>, held: seq<Held>, dec: nat, p: nat, o: nat, predicted: seq<Sample>)
    requires |held| == 4
  {
    && |out| == ISO_SIZE
    && forall i :: 0 <= i < ISO_SIZE ==>
                     IsPrediction(out[i], held[PacketOf(dec, p, o + i) % 4], OffsetOf(dec, o + i), predicted, dec)
  }

  lemma ReadPlays(v: Variant, init: State, log: seq<Record>, frames: seq<seq<Byte>>, now: State, stream: seq<Sample>,
                  taken: nat, held: seq<Held>, p: nat, o: nat)
    requires IsGatt(v) && Encoded(v, init, log, frames, now, stream, taken)
    requires |held| == 4 && AllFromFrames(v, frames, held) && o < UnitSize(v)
    ensures ReadIsPredicted(SentFrom(held, UnitSize(v), p, o), held, UnitSize(v), p, o, Predictions(init, stream))
  {
    hide Encoded, EncoderAfter, AllFromFrames, Predictions, IsPrediction, SampleAt;
    var dec := UnitSize(v);
    var out := SentFrom(held, dec, p, o);
    forall i | 0 <= i < ISO_SIZE
      ensures IsPrediction(out[i], held[PacketOf(dec, p, o + i) % 4], OffsetOf(dec, o + i), Predictions(init, stream), dec)
    {
      SamplePlays(v, init, log, frames, now, stream, taken, held, p, o + i);
    }
  }

  lemma SamplePlays(v: Variant, init: State, log: seq<Record>, frames: seq<seq<Byte>>, now: State, stream: seq<Sample>,
                    taken: nat, held: seq<Held>, p: nat, e: nat)
    requires IsGatt(v) && Encoded(v, init, log, frames, now, stream, taken)
    requires |held| == 4 && AllFromFrames(v, frames, held) && e < 2 * UnitSize(v)
    ensures var dec := UnitSize(v);
            IsPrediction(SampleAt(held, dec, p, e), held[PacketOf(dec, p, e) % 4], OffsetOf(dec, e),
                         Predictions(init, stream), dec)
  {
    hide Encoded, EncoderAfter, Decodable, BlockPcm, Predictions;
    var h := held[PacketOf(UnitSize(v), p, e) % 4];
    assert FromFrame(v, frames, h);
    if h.Block? {
      FramePlays(v, init, log, frames, now, stream, taken, h.frame);
    }
  }

  /** Such a read is due: it is of the frames received at the positions it reads. */
  ghost predicate ReadIsDue(out: seq<Sample>, origin: seq<nat>, dec: nat, p: nat, o: nat, predicted: seq<Sample>) {
    && |out| == ISO_SIZE
    && forall i :: 0 <= i < ISO_SIZE ==> IsDue(out[i], origin, PacketOf(dec, p, o + i), OffsetOf(dec, o + i), dec, predicted)
  }

  ghost predicate IsDue(x: Sample, origin: seq<nat>, q: nat, o: nat, dec: nat, predicted: seq<Sample>) {
    && q < |origin| && SlotAt(origin[q], dec) + o < |predicted|
    && x == predicted[SlotAt(origin[q], dec) + o]
  }

  lemma ReadBecomesDue(out: seq<Sample>, held: seq<Held>, origin: seq<nat>, dec: nat, p: nat, o: nat, position: nat,
                       predicted: seq<Sample>)
    requires |held| == 4 && ReadIsPredicted(out, held, dec, p, o, predicted) && Direct(held, origin, p, position)
    requires p < position && o < dec && (position - p >= 2 || o + ISO_SIZE <= dec)
    ensures ReadIsDue(out, origin, dec, p, o, predicted)
  {
    hide SlotAt;
    forall i | 0 <= i < ISO_SIZE
      ensures IsDue(out[i], origin, PacketOf(dec, p, o + i), OffsetOf(dec, o + i), dec, predicted)
    {
      var q := PacketOf(dec, p, o + i);
      assert IsDirect(held, origin, q);
      assert IsPrediction(out[i], held[q % 4], OffsetOf(dec, o + i), predicted, dec);
    }
  }

  lemma OffsetInside(dec: nat, o: nat)
    requires OnGrid(dec, o)
    ensures o < dec
  {
  }

  lemma FromFramesNext(v: Variant, frames: seq<seq<Byte>>, held: seq<Held>, s: nat, h: Held)
    requires AllFromFrames(v, frames, held) && s < |held| && FromFrame(v, frames, h)
    ensures AllFromFrames(v, frames, held[s := h])
  {
    hide FromFrame;
  }

  lemma FromFramesGrow(v: Variant, frames: seq<seq<Byte>>, more: seq<seq<Byte>>, held: seq<Held>)
    requires AllFromFrames(v, frames, held) && frames <= more
    ensures AllFromFrames(v, more, held)
  {
    hide Decodable, BlockPcm;
  }

  lemma FromFramesAged(v: Variant, frames: seq<seq<Byte>>, held: seq<Held>)
    requires AllFromFrames(v, frames, held)
    ensures AllFromFrames(v, frames, Aged(held))
  {
    hide Decodable, BlockPcm;
  }

  lemma ReceivedNext(v: Variant, frames: seq<seq<Byte>>, head: nat, received: seq<seq<Byte>>, origin: seq<nat>, p: seq<Byte>)
    requires Received(v, frames, head, received, origin) && head < |frames|
    requires Decodable(v, frames[head]) && frames[head] <= p
    ensures Received(v, frames, head + 1, received + [p], origin + [head])
  {
    hide Decodable;
  }

  lemma ReceivedGrows(v: Variant, frames: seq<seq<Byte>>, more: seq<seq<Byte>>, head: nat, next: nat,
                      received: seq<seq<Byte>>, origin: seq<nat>)
    requires Received(v, frames, head, received, origin) && frames <= more && head <= next <= |more|
    ensures Received(v, more, next, received, origin)
  {
    hide Decodable;
  }

  // ----- runs that play

  /** The link as it powers up. */
  method PowerOn(v: Variant) returns (link: VoiceLink)
    requires IsGatt(v)
    ensures fresh(link) && link.Valid() && link.rcu.variant == v && fresh(link.Parts())
    ensures link.rcu.mic.stream == link.rcu.mic.taken == link.rcu.spoken == [] && !link.rcu.mic.lapped
    ensures link.rcu.frames == link.rcu.ring.frames == [] && link.rcu.ring.head == link.rcu.base == 0
    ensures link.dongle.origin == [] && link.dongle.start && link.dongle.straight && link.dongle.playback.position == 0
    ensures link.dongle.playback.abufReset == 0 && link.dongle.playback.bufferEmpty
  {
    hide Encoded, EncoderAfter, SlotsHold, HeldIn, Decodable, AllFromFrames, Received, SlotAt;
    hide HoldsLatest, MicBuffer.Pointers, Direct;
    var rcu := NewMicEncoder(v);
    var dongle := NewGattDongle(v);
    link := new VoiceLink(rcu, dongle);
  }

  /** The encoder has taken all sound and all its packets are sent, none lost. */
  ghost predicate AllSent(rcu: MicEncoder)
    reads rcu`spoken, rcu`frames, rcu`base, rcu.mic`stream, rcu.mic`taken, rcu.mic`lapped, rcu.ring`frames, rcu.ring`head
  {
    && !rcu.mic.lapped && rcu.mic.stream == rcu.mic.taken == rcu.spoken
    && rcu.base == 0 && |rcu.frames| == |rcu.ring.frames| == rcu.ring.head
  }

  /** The packets received are the first ones, none left out. */
  function FirstFrames(n: nat): (s: seq<nat>)
    ensures |s| == n && forall k :: 0 <= k < n ==> s[k] == k
  {
    seq(n, k => k)
  }

  /** The microphone captures one packet's worth of sound. */
  method Speak(link: VoiceLink, sound: seq<Sample>)
    requires link.Valid() && |sound| == UnitSize(link.rcu.variant) && AllSent(link.rcu)
    modifies link.rcu.mic`micWptr, link.rcu.mic`stream, link.rcu.mic`lapped, link.rcu.mic.bufferMic
    ensures link.Valid() && !link.rcu.mic.lapped && link.rcu.mic.stream == old(link.rcu.mic.stream) + sound
  {
    hide Encoded, EncoderAfter, SlotsHold, HeldIn, Decodable, AllFromFrames, Received;
    hide HoldsLatest, MicBuffer.Pointers, Direct, UnitSize, MicEncoder.History;
    for i := 0 to |sound|
      invariant link.Valid() && !link.rcu.mic.lapped && link.rcu.mic.stream == old(link.rcu.mic.stream) + sound[..i]
    {
      link.Capture(sound[i]);
    }
    assert sound[..|sound|] == sound;
  }

  /** One packet's worth of sound is captured and encoded. */
  method SpeakAndEncode(link: VoiceLink, sound: seq<Sample>)
    requires link.Valid() && |sound| == UnitSize(link.rcu.variant) && AllSent(link.rcu)
    modifies link.rcu, link.rcu.mic, link.rcu.mic.bufferMic, link.rcu.encoder, link.rcu.ring, link.rcu.ring.packets
    ensures link.Valid() && link.rcu.init == old(link.rcu.init) && link.rcu.base == 0
    ensures !link.rcu.mic.lapped && link.rcu.mic.stream == link.rcu.mic.taken == link.rcu.spoken
    ensures link.rcu.spoken == old(link.rcu.spoken) + sound
    ensures link.rcu.ring.head == |old(link.rcu.frames)| == |link.rcu.frames| - 1 == |link.rcu.ring.frames| - 1
  {
    hide Encoded, EncoderAfter, SlotsHold, HeldIn, Decodable, AllFromFrames, Received, HoldsLatest, Direct, UnitSize;
    hide MicBuffer.Pointers, MicBuffer.Ahead, MicEncoder.History;
    Speak(link, sound);
    link.rcu.mic.AheadUnlessLapped();
    var encoded := link.Encode();
    link.rcu.mic.AllTaken();
  }

  /** One packet's worth of sound is captured, encoded and sent. */
  method SpeakAndSend(link: VoiceLink, sound: seq<Sample>)
    requires link.Valid() && |sound| == UnitSize(link.rcu.variant) && AllSent(link.rcu)
    requires link.dongle.origin == FirstFrames(|link.rcu.frames|)
    modifies link.rcu, link.rcu.mic, link.rcu.mic.bufferMic, link.rcu.encoder, link.rcu.ring, link.rcu.ring.packets
    modifies link.dongle`origin, link.dongle.ring`abufMicWptr, link.dongle.ring`received, link.dongle.ring.abufMic
    ensures link.Valid() && AllSent(link.rcu) && link.rcu.init == old(link.rcu.init)
    ensures link.rcu.spoken == old(link.rcu.spoken) + sound
    ensures |link.rcu.frames| == |old(link.rcu.frames)| + 1
    ensures link.dongle.origin == FirstFrames(|link.rcu.frames|)
  {
    hide Encoded, EncoderAfter, SlotsHold, HeldIn, Decodable, AllFromFrames, Received;
    hide HoldsLatest, MicBuffer.Pointers, Direct, UnitSize, MicEncoder.History;
    SpeakAndEncode(link, sound);
    var sent := link.Send();
  }

  /** Sixteen reads of the USB host after power on, the first of which is late, until the dongle begins to decode. */
  method WarmUp(link: VoiceLink)
    requires link.Valid() && link.dongle.playback.abufReset == 0
    requires link.dongle.playback.position == 0 && link.dongle.playback.bufferEmpty
    modifies link.dongle`straight, link.dongle.playback
    ensures link.Valid() && link.dongle.playback.abufReset == 0 && link.dongle.playback.bufferEmpty
    ensures link.dongle.playback.position == link.dongle.playback.reading == link.dongle.playback.off == 0
    ensures link.dongle.straight && !link.dongle.playback.disturbed
  {
    hide Encoded, EncoderAfter, SlotsHold, HeldIn, Decodable, AllFromFrames, Received;
    hide HoldsLatest, MicBuffer.Pointers, Direct, UnitSize, ReadIsPredicted, ReadIsDue, OwnBlocks, Predictions;
    hide MicEncoder.History;
    for i := 0 to 16
      invariant link.Valid()
      invariant link.dongle.playback.abufReset == (if i == 0 then 0 else 16 - i) && link.dongle.playback.bufferEmpty
      invariant link.dongle.playback.position == 0
      invariant i > 0 ==>
        link.dongle.playback.reading == link.dongle.playback.off == 0
        && link.dongle.straight && !link.dongle.playback.disturbed
    {
      var playing, out := link.UsbIso(i == 0);
    }
  }

  /** Decoding goes on without a skip, and nothing has been read. */
  ghost predicate Steady(dongle: GattDongle, position: nat)
    reads dongle`straight, dongle`start, dongle.playback
  {
    && dongle.straight && dongle.start == (position == 0)
    && !dongle.playback.disturbed && dongle.playback.abufReset == 0 && dongle.playback.bufferEmpty
    && dongle.playback.position == position && dongle.playback.reading == dongle.playback.off == 0
  }

  /** One packet is decoded, of at most four that wait; the first one waits for a second. */
  method DecodeOne(link: VoiceLink, k: nat)
    requires link.Valid() && Steady(link.dongle, k) && k <= 3
    requires k + (if k == 0 then 2 else 1) <= |link.dongle.origin| <= k + 4
    modifies link.dongle`start, link.dongle`straight, link.dongle.decoder, link.dongle.playback.abufDec
    modifies link.dongle.playback`abufDecWptr, link.dongle.playback`abufReset, link.dongle.playback`position
    modifies link.dongle.playback`held, link.dongle.playback`disturbed
    ensures link.Valid() && Steady(link.dongle, k + 1)
  {
    hide Encoded, EncoderAfter, SlotsHold, HeldIn, Decodable, AllFromFrames, Received;
    hide HoldsLatest, MicBuffer.Pointers, Direct, UnitSize, MicEncoder.History;
    var decoded, j := link.Decode();
  }

  /** Power on, until the dongle begins to decode. */
  method ReadyLink(v: Variant) returns (link: VoiceLink)
    requires IsGatt(v)
    ensures fresh(link) && fresh(link.Parts()) && link.Valid() && link.rcu.variant == v
    ensures AllSent(link.rcu) && link.rcu.spoken == [] && link.rcu.frames == []
    ensures link.dongle.origin == [] && Steady(link.dongle, 0)
  {
    hide Encoded, EncoderAfter, SlotsHold, HeldIn, Decodable, AllFromFrames, Received;
    hide HoldsLatest, MicBuffer.Pointers, Direct, UnitSize, MicEncoder.History;
    link := PowerOn(v);
    WarmUp(link);
  }

  /** Both packets that a start needs are sent. */
  method SpeakTwice(link: VoiceLink, first: seq<Sample>, second: seq<Sample>)
    requires link.Valid() && |first| == |second| == UnitSize(link.rcu.variant) && AllSent(link.rcu)
    requires link.rcu.frames == [] && link.rcu.spoken == [] && link.dongle.origin == FirstFrames(0)
    modifies link.rcu, link.rcu.mic, link.rcu.mic.bufferMic, link.rcu.encoder, link.rcu.ring, link.rcu.ring.packets
    modifies link.dongle`origin, link.dongle.ring`abufMicWptr, link.dongle.ring`received, link.dongle.ring.abufMic
    ensures link.Valid() && AllSent(link.rcu) && link.rcu.spoken == first + second && |link.rcu.frames| == 2
    ensures link.dongle.origin == FirstFrames(2)
  {
    hide Encoded, EncoderAfter, SlotsHold, HeldIn, Decodable, AllFromFrames, Received;
    hide HoldsLatest, MicBuffer.Pointers, Direct, UnitSize, AllSent;
    hide MicEncoder.History;
    SpeakAndSend(link, first);
    SpeakAndSend(link, second);
    assert [] + first == first;
  }

  /** The first two packets after power on are sent and decoded. */
  method TwoPackets(v: Variant, first: seq<Sample>, second: seq<Sample>) returns (link: VoiceLink)
    requires IsGatt(v) && |first| == |second| == UnitSize(v)
    ensures fresh(link) && fresh(link.Parts()) && link.Valid() && link.rcu.variant == v
    ensures AllSent(link.rcu) && link.rcu.spoken == first + second && |link.rcu.frames| == 2
    ensures link.dongle.origin == FirstFrames(2) && Steady(link.dongle, 2)
  {
    hide Encoded, EncoderAfter, SlotsHold, HeldIn, Decodable, AllFromFrames, Received;
    hide HoldsLatest, MicBuffer.Pointers, Direct, UnitSize, AllSent, Steady;
    hide MicEncoder.History;
    link := ReadyLink(v);
    assert FirstFrames(0) == [];
    SpeakTwice(link, first, second);
    DecodeOne(link, 0);
    DecodeOne(link, 1);
  }

  /** A third packet is sent and decoded. */
  method OnePacket(link: VoiceLink, sound: seq<Sample>)
    requires link.Valid() && |sound| == UnitSize(link.rcu.variant) && AllSent(link.rcu) && |link.rcu.frames| == 2
    requires link.dongle.origin == FirstFrames(2) && Steady(link.dongle, 2)
    modifies link.rcu, link.rcu.mic, link.rcu.mic.bufferMic, link.rcu.encoder, link.rcu.ring, link.rcu.ring.packets
    modifies link.dongle`origin, link.dongle.ring`abufMicWptr, link.dongle.ring`received, link.dongle.ring.abufMic
    modifies link.dongle`start, link.dongle`straight, link.dongle.decoder, link.dongle.playback.abufDec
    modifies link.dongle.playback`abufDecWptr, link.dongle.playback`abufReset, link.dongle.playback`position
    modifies link.dongle.playback`held, link.dongle.playback`disturbed
    ensures link.Valid() && AllSent(link.rcu) && link.rcu.spoken == old(link.rcu.spoken) + sound
    ensures link.dongle.origin == FirstFrames(3) && Steady(link.dongle, 3)
  {
    hide Encoded, EncoderAfter, SlotsHold, HeldIn, Decodable, AllFromFrames, Received;
    hide HoldsLatest, MicBuffer.Pointers, Direct, UnitSize, AllSent, Steady;
    hide MicEncoder.History;
    SpeakAndSend(link, sound);
    DecodeOne(link, 2);
  }

  /** The first three packets after power on are sent and decoded. */
  method ThreePackets(v: Variant, sound: seq<Sample>) returns (link: VoiceLink)
    requires IsGatt(v) && |sound| == 3 * UnitSize(v)
    ensures fresh(link) && fresh(link.Parts()) && link.Valid() && link.rcu.variant == v
    ensures AllSent(link.rcu) && link.rcu.spoken == sound && link.dongle.origin == FirstFrames(3)
    ensures Steady(link.dongle, 3)
  {
    hide Encoded, EncoderAfter, SlotsHold, HeldIn, Decodable, AllFromFrames, Received;
    hide HoldsLatest, MicBuffer.Pointers, Direct, UnitSize, AllSent, Steady;
    hide MicEncoder.History;
    var unit := UnitSize(v);
    link := TwoPackets(v, sound[..unit], sound[unit..2 * unit]);
    OnePacket(link, sound[2 * unit..]);
    assert sound[..unit] + sound[unit..2 * unit] + sound[2 * unit..] == sound;
  }

  /**
   A run of the machine in which sound reaches the USB host: of the sound of three packets, whatever it is, the host
   gets the beginning of the encoder's predictions.
   */
  method FirstSound(v: Variant, sound: seq<Sample>) returns (link: VoiceLink, playing: bool, out: seq<Sample>)
    requires IsGatt(v) && |sound| == 3 * UnitSize(v)
    ensures fresh(link) && link.Valid() && AllSent(link.rcu) && link.rcu.spoken == sound && playing
    ensures |out| == ISO_SIZE && out <= Predictions(link.rcu.init, sound)
    ensures fresh(link.Parts()) && link.rcu.variant == v && ReadSoFar(link.dongle.playback, 1)
  {
    hide Encoded, EncoderAfter, SlotsHold, HeldIn, Decodable, AllFromFrames, Received;
    hide HoldsLatest, MicBuffer.Pointers, Direct;
    hide ReadIsPredicted, ReadIsDue, OwnBlocks, Predictions, FirstFrames, AllSent;
    link := ThreePackets(v, sound);
    playing, out := link.UsbIso(false);
    DueFromTheStart(out, link.dongle.playback.dec, Predictions(link.rcu.init, sound));
  }

  /** `n` reads of 16 samples have been sent of three packets that were decoded. */
  ghost predicate ReadSoFar(playback: Playback, n: nat)
    reads playback
  {
    && playback.position == 3 && playback.abufReset == 0 && !playback.disturbed && !playback.bufferEmpty
    && SlotAt(playback.reading, playback.dec) + playback.off == ISO_SIZE * n && playback.off < playback.dec
  }

  /** After 46 reads the Telink build's pointer is eight samples before the end of the third packet. */
  lemma ReadPlace(reading: nat, off: nat, n: nat)
    requires SlotAt(reading, 248) + off == ISO_SIZE * n && off < 248 && n <= 46
    ensures reading <= 2 && (n == 46 ==> reading == 2 && off == 240)
    ensures 3 - reading >= 2 || off + ISO_SIZE <= 248 <==> n < 46
    ensures var o := NextOff(248, Ptr(reading), off);
            o < 248 && SlotAt(reading + if off + ISO_SIZE >= 248 then 1 else 0, 248) + o == ISO_SIZE * (n + 1)
  {
    SlotAtIsProduct(reading, 248);
    assert SlotAt(reading + 1, 248) == SlotAt(reading, 248) + 248;
  }

  /** The host reads once more. */
  method ReadNext(link: VoiceLink, n: nat) returns (out: seq<Sample>)
    requires link.Valid() && link.rcu.variant == Telink && ReadSoFar(link.dongle.playback, n) && n <= 46
    modifies link.dongle`straight, link.dongle.playback
    ensures link.Valid() && ReadSoFar(link.dongle.playback, n + 1)
    ensures OwnBlocks(link.dongle.playback.held, 248, old(link.dongle.playback.reading), old(link.dongle.playback.off))
       <==> n < 46
  {
    hide Encoded, EncoderAfter, SlotsHold, HeldIn, Decodable, AllFromFrames, Received, HoldsLatest, Direct;
    hide ReadIsPredicted, ReadIsDue, OwnBlocks, Predictions, NextOff, SlotAt;
    ReadPlace(link.dongle.playback.reading, link.dongle.playback.off, n);
    var playing;
    playing, out := link.UsbIso(false);
  }

  /**
   The Telink build reads into a packet that is not decoded yet: with no fourth packet, the 47th read takes its last
   eight samples from the next slot.
   */
  method LateRead(sound: seq<Sample>) returns (link: VoiceLink, out: seq<Sample>)
    requires |sound| == 3 * UnitSize(Telink)
    ensures fresh(link) && link.Valid() && link.rcu.spoken == sound && ReadSoFar(link.dongle.playback, 47)
    ensures !OwnBlocks(link.dongle.playback.held, 248, 2, 240)
  {
    hide Encoded, EncoderAfter, SlotsHold, HeldIn, Decodable, AllFromFrames, Received, HoldsLatest, Direct;
    hide OwnBlocks, Predictions, MicEncoder.History, SlotAt;
    var playing;
    link, playing, out := FirstSound(Telink, sound);
    for n := 1 to 46
      invariant link.Valid() && link.rcu.variant == Telink && ReadSoFar(link.dongle.playback, n) && link.rcu.spoken == sound
    {
      out := ReadNext(link, n);
    }
    ReadPlace(link.dongle.playback.reading, link.dongle.playback.off, 46);
    out := ReadNext(link, 46);
  }

  lemma DueFromTheStart(out: seq<Sample>, dec: nat, predicted: seq<Sample>)
    requires ReadIsDue(out, FirstFrames(3), dec, 0, 0, predicted) && dec > ISO_SIZE
    ensures |out| == ISO_SIZE && out <= predicted
  {
    assert |out| == ISO_SIZE;
    forall i | 0 <= i < |out| ensures i < |predicted| && out[i] == predicted[i] {
      assert IsDue(out[i], FirstFrames(3), PacketOf(dec, 0, 0 + i), OffsetOf(dec, 0 + i), dec, predicted);
      assert SlotAt(0, dec) == 0;
    }
    assert IsDue(out[ISO_SIZE - 1], FirstFrames(3), 0, ISO_SIZE - 1, dec, predicted);
  }
}
