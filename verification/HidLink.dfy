/**
 The headerless HID voice link end to end: the refuse-when-full packet ring of the remote control feeds the
 dongle, which decodes the packets as one stream and plays it to the USB host.
 */
module HidLink {
  import opened Adpcm
  import opened AdpcmFrame
  import opened AdpcmStream
  import opened AudioRing
  import opened HidDongles
  import opened HidStream
  import opened Microphone
  import opened PacketRings
  import opened PacketSlots
  import opened ReceiveRings
  import opened UsbPlayback

  /**
   The whole link, as a machine whose steps may come in any order. A voice session begins with `abuf_init` on the
   dongle and `audio_mic_param_init` on the remote control.
   */
  class VoiceLink {
    const rcu: MicEncoder
    const dongle: HidDongle
    /** Whether both ends began the session with nothing sent in between. */
    ghost var paired: bool

    ghost predicate Valid()
      reads this, rcu, rcu.mic, rcu.mic.bufferMic, rcu.encoder, rcu.ring, rcu.ring.packets
      reads dongle, dongle.decoder, dongle.ring, dongle.ring.abufMic, dongle.playback, dongle.playback.abufDec
    {
      && Apart()
      && rcu.Valid() && rcu.variant == Hid && rcu.init == START && rcu.base == 0
      && dongle.Valid()
      && (paired ==> dongle.ring.received == rcu.ring.frames[..rcu.ring.head])
    }

    /** Everything the link is made of. */
    ghost function Parts(): set<object>
      reads this, rcu, rcu.mic, rcu.ring, dongle, dongle.ring, dongle.playback
    {
      {this, rcu, rcu.mic, rcu.mic.bufferMic, rcu.encoder, rcu.ring, rcu.ring.packets, dongle, dongle.decoder, dongle.ring,
       dongle.ring.abufMic, dongle.playback, dongle.playback.abufDec}
    }

    ghost predicate Apart()
      reads this, rcu, rcu.mic, rcu.ring, dongle, dongle.ring, dongle.playback
    {
      && rcu.ring.packets != dongle.ring.abufMic && rcu.ring.packets as object != dongle.playback.abufDec
      && rcu.mic.bufferMic != dongle.playback.abufDec && rcu.mic.bufferMic as object != dongle.ring.abufMic
    }

    constructor (rcu: MicEncoder, dongle: HidDongle)
      requires rcu.Valid() && rcu.variant == Hid && rcu.init == START && rcu.base == 0 && rcu.ring.frames == []
      requires dongle.Valid() && dongle.ring.received == []
      requires rcu.ring.packets != dongle.ring.abufMic && rcu.ring.packets as object != dongle.playback.abufDec
      requires rcu.mic.bufferMic != dongle.playback.abufDec && rcu.mic.bufferMic as object != dongle.ring.abufMic
      ensures Valid() && this.rcu == rcu && this.dongle == dongle && paired
    {
      hide Encoded, StreamPcm, StreamEnd, EncoderAfter, SlotsHold, HeldIn, Latest, Blocks;
      hide HoldsLatest, MicBuffer.Pointers, Picked;
      this.rcu, this.dongle, paired := rcu, dongle, true;
    }

    /** The hardware captures one sample. */
    method Capture(s: Sample)
      requires Valid()
      modifies rcu.mic`micWptr, rcu.mic`stream, rcu.mic`lapped, rcu.mic.bufferMic
      ensures Valid() && rcu.mic.stream == old(rcu.mic.stream) + [s]
      ensures rcu.mic.lapped == (old(rcu.mic.lapped) || |rcu.mic.stream| == |rcu.mic.taken| + 2 * rcu.mic.unit)
    {
      hide Encoded, StreamPcm, StreamEnd, EncoderAfter, SlotsHold, HeldIn, Latest, Blocks;
      hide HoldsLatest, MicBuffer.Pointers, Picked;
      rcu.mic.Capture(s);
    }

    /** The remote control's main loop encodes, if half a buffer is waiting and the ring has room. */
    method Encode() returns (encoded: bool)
      requires Valid()
      modifies rcu`spoken, rcu`log, rcu`frames, rcu.mic`bufferMicRptr, rcu.mic`taken
      modifies rcu.encoder, rcu.ring, rcu.ring.packets
      ensures Valid() && rcu.ring.head == old(rcu.ring.head)
      ensures encoded <==> old(rcu.mic.Ahead() >= rcu.mic.unit && |rcu.ring.frames| < rcu.ring.head + PACKET_NUM)
      ensures var half := if encoded then old(rcu.mic.Half()) else [];
              rcu.spoken == old(rcu.spoken) + half && rcu.mic.taken == old(rcu.mic.taken) + half
      ensures |rcu.ring.frames| == |old(rcu.ring.frames)| + if encoded then 1 else 0
    {
      hide Encoded, StreamPcm, StreamEnd, EncoderAfter, SlotsHold, HeldIn, Latest, Blocks;
      hide HoldsLatest, MicBuffer.Pointers, Picked, Frame;
      encoded := rcu.ProcMicEncoder();
      assert rcu.ring.frames[..rcu.ring.head] == old(rcu.ring.frames[..rcu.ring.head]);
    }

    /** The packet that `mic_encoder_data_buffer` points to, if there is one */
    method NextPacket() returns (some: bool, p: seq<Byte>)
      requires Valid()
      ensures some <==> rcu.ring.head < |rcu.ring.frames|
      ensures |p| == FRAME_SIZE && (some ==> p == rcu.ring.frames[rcu.ring.head])
    {
      hide Encoded, StreamPcm, StreamEnd, EncoderAfter, SlotsHold, HeldIn, Latest, Blocks;
      hide HoldsLatest, MicBuffer.Pointers, Picked;
      var at;
      some, at := rcu.ring.DataBuffer();
      p := rcu.ring.packets[at..at + FRAME_SIZE];
      if some {
        FrameSizes(rcu.log, rcu.frames, rcu.encoder.Contents(), rcu.spoken, |rcu.spoken|);
        assert rcu.ring.frames[rcu.ring.head] == rcu.frames[rcu.ring.head];
      }
    }

    /** One packet goes over the air and is acknowledged. */
    method Send() returns (sent: bool)
      requires Valid()
      modifies rcu.ring`rptr, rcu.ring`head
      modifies dongle.ring`abufMicWptr, dongle.ring`received, dongle.ring.abufMic
      ensures Valid()
      ensures sent <==> old(rcu.ring.head < |rcu.ring.frames|)
      ensures rcu.ring.head == old(rcu.ring.head) + if sent then 1 else 0
      ensures dongle.ring.received == old(dongle.ring.received) + if sent then [old(rcu.ring.frames[rcu.ring.head])] else []
    {
      hide Encoded, StreamPcm, StreamEnd, EncoderAfter, SlotsHold, HeldIn, Latest, Blocks;
      hide HoldsLatest, MicBuffer.Pointers, Picked;
      var p;
      sent, p := NextPacket();
      if sent {
        dongle.AbufMicAdd(p);
        rcu.ring.DataReadOk();
      }
    }

    /** The dongle's main loop decodes. */
    method Decode() returns (decoded: bool)
      requires Valid()
      modifies dongle, dongle.decoder, dongle.playback.abufDec
      modifies dongle.playback`abufDecWptr, dongle.playback`abufDecRptr, dongle.playback`position
      modifies dongle.playback`reading, dongle.playback`off, dongle.playback`held, dongle.playback`disturbed
      ensures Valid() && old(dongle.pcm) <= dongle.pcm
      ensures decoded <==> old((|dongle.ring.received| - dongle.playback.position) % 256 >= if dongle.start then 2 else 1)
      ensures dongle.order == old(dongle.order) +
          if decoded then [Fetched(old(dongle.playback.position), |dongle.ring.received|, 8)] else []
      ensures dongle.playback.position == old(dongle.playback.position) + if decoded then 1 else 0
      ensures dongle.start == (old(dongle.start) && !decoded)
      ensures old(dongle.playback.abufReset) == 0 ==>
        var ahead := old(dongle.playback.position - dongle.playback.reading);
        && dongle.playback.reading == (if ahead > 4 then old(dongle.playback.position) else old(dongle.playback.reading))
        && dongle.playback.off == (if ahead > 4 then 0 else old(dongle.playback.off))
        && dongle.playback.disturbed ==
           (if ahead > 4 then false else old(dongle.playback.disturbed) || (decoded && ahead == 4))
        && (ahead <= 4 ==> dongle.heard == old(dongle.heard) && dongle.from == old(dongle.from))
        && (ahead > 4 ==> dongle.heard == [])
    {
      hide Encoded, StreamPcm, StreamEnd, EncoderAfter, SlotsHold, HeldIn, Latest, Blocks;
      hide HoldsLatest, MicBuffer.Pointers, Picked, Fresh;
      decoded := dongle.AbufMicDec();
    }

    /** The USB host reads 16 samples. */
    method UsbIso(late: bool) returns (playing: bool, out: seq<Sample>)
      requires Valid()
      modifies dongle`heard, dongle`from
      modifies dongle.playback`abufDecRptr, dongle.playback`abufReset, dongle.playback`bufferEmpty, dongle.playback`nUsbIso
      modifies dongle.playback`reading, dongle.playback`off, dongle.playback`disturbed
      ensures Valid()
      ensures var p := old(dongle.playback.StartPacket(late));
              && p <= dongle.playback.position
              && (playing <==> dongle.playback.position - p >= if old(dongle.playback.bufferEmpty) then 3 else 1)
              && (playing ==> (HoldsOwn(dongle.playback.held, p) <==> dongle.playback.position - p <= 4))
              && (!playing ==>
                    out == [] && dongle.playback.reading == p && dongle.playback.off == old(dongle.playback.StartOff(late)))
              && (!playing && old(dongle.playback.bufferEmpty) ==> dongle.playback.bufferEmpty)
      ensures playing ==>
                var p, o := old(dongle.playback.StartPacket(late)), old(dongle.playback.StartOff(late));
                && |out| == ISO_SIZE
                && (dongle.playback.position - p <= 4 ==> IsStretch(dongle.pcm, SlotAt(p, DEC_SIZE) + o, out))
                && SlotAt(dongle.playback.reading, DEC_SIZE) + dongle.playback.off == SlotAt(p, DEC_SIZE) + o + ISO_SIZE
      ensures dongle.playback.abufReset
           == if late then 15 else if old(dongle.playback.abufReset) > 0 then old(dongle.playback.abufReset) - 1 else 0
      ensures dongle.playback.disturbed == (old(dongle.playback.disturbed) && !(late || old(dongle.playback.abufReset) > 0))
      ensures dongle.heard
           == (if late || old(dongle.playback.abufReset) > 0 then [] else old(dongle.heard)) + if playing then out else []
    {
      hide Encoded, StreamPcm, StreamEnd, EncoderAfter, SlotsHold, HeldIn, Latest, Blocks;
      hide HoldsLatest, MicBuffer.Pointers, Picked, Fresh, HoldsOwn, IsStretch;
      playing, out := dongle.UsbIso(late);
    }

    /** The dongle's end of a session begins: the ends are in step if the remote control has sent nothing of its own. */
    method AbufInit()
      requires Valid()
      modifies `paired, dongle`packets, dongle`order, dongle`pcm, dongle`heard, dongle`from, dongle.decoder
      modifies dongle.ring`abufMicWptr, dongle.ring`received
      modifies dongle.playback`abufDecWptr, dongle.playback`abufReset, dongle.playback`position, dongle.playback`held
      ensures Valid() && paired == (rcu.ring.head == 0)
      ensures dongle.ring.received == [] && dongle.order == [] && dongle.pcm == dongle.heard == []
      ensures dongle.playback.position == 0 && dongle.playback.abufReset == 16
    {
      hide Encoded, StreamPcm, StreamEnd, EncoderAfter, SlotsHold, HeldIn, Latest, Blocks;
      hide HoldsLatest, MicBuffer.Pointers, Picked;
      dongle.AbufInit();
      paired := rcu.ring.head == 0;
    }

    /** The remote control's end begins: the ends are in step if the dongle has received nothing since its own did. */
    method AudioOn()
      requires Valid()
      modifies `paired, rcu`init, rcu`spoken, rcu`log, rcu`frames, rcu`base
      modifies rcu.encoder`predict, rcu.encoder`predictIdx, rcu.encoder`adpcmSerialNum
      modifies rcu.ring`wptr, rcu.ring`rptr, rcu.ring`frames, rcu.ring`head
      ensures Valid() && paired == (dongle.ring.received == [])
      ensures rcu.spoken == [] && rcu.ring.frames == [] && rcu.ring.head == 0
    {
      hide Encoded, StreamPcm, StreamEnd, EncoderAfter, SlotsHold, HeldIn, Latest, Blocks;
      hide HoldsLatest, MicBuffer.Pointers, Picked;
      rcu.AudioOn();
      paired := dongle.ring.received == [];
    }

    /**
     HID stream integrity: in a session that both ends began together, everything the dongle has decoded so far is a
     prefix of the encoder's own predictions for the sound it took, whatever the steps were and in whatever order they
     came, unless a packet was overwritten before it was decoded.
     */
    lemma DecodesThePredictions()
      requires Valid() && paired && dongle.InSequence()
      ensures SlotAt(dongle.playback.position, DEC_SIZE) <= |rcu.spoken| == |Predictions(START, rcu.spoken)|
      ensures dongle.pcm == Predictions(START, rcu.spoken)[..SlotAt(dongle.playback.position, DEC_SIZE)]
    {
      hide StreamPcm, StreamEnd, EncoderAfter, SlotsHold, Frame, HeldIn, Latest, Blocks, Fresh, SlotAt, Encoded;
      hide HoldsLatest, MicBuffer.Pointers;
      var k, n := dongle.playback.position, |rcu.spoken|;
      EncodedRun(Hid, START, rcu.log, rcu.frames, rcu.encoder.Contents(), rcu.spoken, n);
      FrameSizes(rcu.log, rcu.frames, rcu.encoder.Contents(), rcu.spoken, n);
      InSequenceIsPrefix(dongle.packets, dongle.order, dongle.ring.received, k);
      assert dongle.ring.received == rcu.frames[..rcu.ring.head];
      assert dongle.packets == rcu.frames[..k];
      PrefixIsPredicted(rcu.log, rcu.frames, rcu.encoder.Contents(), rcu.spoken, n, k);
      PredictionsLength(START, rcu.spoken);
    }

    /**
     What the host has got since the last resynchronisation is one uninterrupted stretch of the encoder's
     predictions, as long as every decode since then found fewer than four decoded packets ahead of the host.
     */
    lemma HostHearsThePredictions()
      requires Valid() && paired && dongle.InSequence() && dongle.playback.abufReset == 0 && !dongle.playback.disturbed
      ensures dongle.from + |dongle.heard| <= |Predictions(START, rcu.spoken)|
      ensures dongle.heard == Predictions(START, rcu.spoken)[dongle.from..dongle.from + |dongle.heard|]
    {
      hide StreamPcm, StreamEnd, EncoderAfter, SlotsHold, Frame, HeldIn, Latest, Blocks, Fresh, SlotAt, Predictions;
      hide Encoded, HoldsLatest, MicBuffer.Pointers, Picked;
      DecodesThePredictions();
      assert dongle.pcm == Predictions(START, rcu.spoken)[..|dongle.pcm|];
    }
  }

  // ----- runs that play

  /** The link as it powers up. */
  method PowerOn() returns (link: VoiceLink)
    ensures fresh(link) && link.Valid() && fresh(link.Parts()) && link.paired
    ensures link.rcu.mic.stream == link.rcu.mic.taken == link.rcu.spoken == [] && !link.rcu.mic.lapped
    ensures link.rcu.ring.frames == [] && link.rcu.ring.head == 0
    ensures link.dongle.ring.received == [] && link.dongle.order == [] && link.dongle.start
    ensures link.dongle.playback.position == link.dongle.playback.abufReset == 0 && link.dongle.playback.bufferEmpty
  {
    hide Encoded, StreamPcm, StreamEnd, EncoderAfter, SlotsHold, HeldIn, Latest, Blocks;
    hide HoldsLatest, MicBuffer.Pointers, Picked;
    var rcu := NewMicEncoder(Hid);
    var dongle := NewHidDongle();
    link := new VoiceLink(rcu, dongle);
  }

  /** A new session at any moment: with nothing sent between its two beginnings, the ends are in step again. */
  method NewSession(link: VoiceLink)
    requires link.Valid()
    modifies link.Parts()
    ensures link.Valid() && link.paired && link.dongle.InSequence()
    ensures link.rcu.spoken == [] && link.rcu.ring.frames == [] && link.rcu.ring.head == 0
    ensures link.dongle.ring.received == [] && link.dongle.pcm == link.dongle.heard == []
  {
    hide Encoded, StreamPcm, StreamEnd, EncoderAfter, SlotsHold, HeldIn, Latest, Blocks;
    hide HoldsLatest, MicBuffer.Pointers, Picked;
    link.AbufInit();
    link.AudioOn();
  }

  /** Sixteen reads of the USB host after power on, the first of which is late, settle the read pointer. */
  method WarmUp(link: VoiceLink)
    requires link.Valid() && link.dongle.playback.abufReset == 0
    requires link.dongle.playback.position == 0 && link.dongle.playback.bufferEmpty
    modifies link.dongle`heard, link.dongle`from, link.dongle.playback
    ensures link.Valid() && link.dongle.playback.abufReset == 0 && link.dongle.playback.bufferEmpty
    ensures link.dongle.playback.position == link.dongle.playback.reading == link.dongle.playback.off == 0
    ensures !link.dongle.playback.disturbed && link.dongle.heard == []
  {
    hide Encoded, StreamPcm, StreamEnd, EncoderAfter, SlotsHold, HeldIn, Latest, Blocks;
    hide HoldsLatest, MicBuffer.Pointers, Picked, Fresh, HoldsOwn, UnitSize, IsStretch, SlotAt;
    hide MicEncoder.History;
    for i := 0 to 16
      invariant link.Valid()
      invariant link.dongle.playback.abufReset == (if i == 0 then 0 else 16 - i) && link.dongle.playback.bufferEmpty
      invariant link.dongle.playback.position == 0
      invariant i > 0 ==>
        link.dongle.playback.reading == link.dongle.playback.off == 0 && !link.dongle.playback.disturbed
        && link.dongle.heard == []
    {
      var playing, out := link.UsbIso(i == 0);
    }
  }

  /** The encoder has taken all sound, and all its packets are sent. */
  ghost predicate AllSent(rcu: MicEncoder)
    reads rcu`spoken, rcu.mic`stream, rcu.mic`taken, rcu.mic`lapped, rcu.ring`frames, rcu.ring`head
  {
    !rcu.mic.lapped && rcu.mic.stream == rcu.mic.taken == rcu.spoken && |rcu.ring.frames| == rcu.ring.head
  }

  /** The microphone captures one packet's worth of sound. */
  method Speak(link: VoiceLink, sound: seq<Sample>)
    requires link.Valid() && |sound| == DEC_SIZE && AllSent(link.rcu)
    modifies link.rcu.mic`micWptr, link.rcu.mic`stream, link.rcu.mic`lapped, link.rcu.mic.bufferMic
    ensures link.Valid() && !link.rcu.mic.lapped && link.rcu.mic.stream == old(link.rcu.mic.stream) + sound
  {
    hide Encoded, StreamPcm, StreamEnd, EncoderAfter, SlotsHold, HeldIn, Latest, Blocks;
    hide HoldsLatest, MicBuffer.Pointers, Picked, Fresh, HoldsOwn;
    hide MicEncoder.History;
    for i := 0 to |sound|
      invariant link.Valid() && !link.rcu.mic.lapped && link.rcu.mic.stream == old(link.rcu.mic.stream) + sound[..i]
    {
      link.Capture(sound[i]);
    }
    assert sound[..|sound|] == sound;
  }

  /** One packet's worth of sound is captured, encoded and sent. */
  method SpeakAndSend(link: VoiceLink, sound: seq<Sample>)
    requires link.Valid() && |sound| == DEC_SIZE && AllSent(link.rcu)
    modifies link.rcu, link.rcu.mic, link.rcu.mic.bufferMic, link.rcu.encoder, link.rcu.ring, link.rcu.ring.packets
    modifies link.dongle.ring`abufMicWptr, link.dongle.ring`received, link.dongle.ring.abufMic
    ensures link.Valid() && AllSent(link.rcu)
    ensures link.rcu.spoken == old(link.rcu.spoken) + sound
    ensures |link.dongle.ring.received| == |old(link.dongle.ring.received)| + 1
  {
    hide Encoded, StreamPcm, StreamEnd, EncoderAfter, SlotsHold, HeldIn, Latest, Blocks;
    hide HoldsLatest, MicBuffer.Pointers, Picked, Fresh, HoldsOwn;
    hide MicEncoder.History;
    Speak(link, sound);
    link.rcu.mic.AheadUnlessLapped();
    var encoded := link.Encode();
    link.rcu.mic.AllTaken();
    var sent := link.Send();
  }

  /** `n` packets are sent, and none decoded. */
  method SendAll(link: VoiceLink, sound: seq<Sample>, n: nat)
    requires link.Valid() && |sound| == n * DEC_SIZE && AllSent(link.rcu) && link.rcu.spoken == []
    requires link.dongle.ring.received == []
    modifies link.rcu, link.rcu.mic, link.rcu.mic.bufferMic, link.rcu.encoder, link.rcu.ring, link.rcu.ring.packets
    modifies link.dongle.ring`abufMicWptr, link.dongle.ring`received, link.dongle.ring.abufMic
    ensures link.Valid() && AllSent(link.rcu) && link.rcu.spoken == sound && |link.dongle.ring.received| == n
  {
    hide Encoded, StreamPcm, StreamEnd, EncoderAfter, SlotsHold, HeldIn, Latest, Blocks;
    hide HoldsLatest, MicBuffer.Pointers, Picked, Fresh, HoldsOwn, UnitSize, AllSent;
    hide MicEncoder.History;
    for i := 0 to n
      invariant link.Valid() && AllSent(link.rcu) && link.rcu.spoken == sound[..i * DEC_SIZE]
      invariant |link.dongle.ring.received| == i
    {
      assert sound[..(i + 1) * DEC_SIZE] == sound[..i * DEC_SIZE] + sound[i * DEC_SIZE..(i + 1) * DEC_SIZE];
      SpeakAndSend(link, sound[i * DEC_SIZE..(i + 1) * DEC_SIZE]);
    }
    assert sound[..n * DEC_SIZE] == sound;
  }

  /** `n` packets are decoded while the host does not read. */
  method DecodeAll(link: VoiceLink, n: nat)
    requires link.Valid() && 2 <= n <= 5 && |link.dongle.ring.received| == n && link.dongle.start
    requires link.dongle.playback.abufReset == 0 && !link.dongle.playback.disturbed && link.dongle.order == []
    requires link.dongle.playback.position == link.dongle.playback.reading == link.dongle.playback.off == 0
    modifies link.dongle, link.dongle.decoder, link.dongle.playback.abufDec
    modifies link.dongle.playback`abufDecWptr, link.dongle.playback`abufDecRptr, link.dongle.playback`position
    modifies link.dongle.playback`reading, link.dongle.playback`off, link.dongle.playback`held, link.dongle.playback`disturbed
    ensures link.Valid() && link.dongle.InSequence() && link.dongle.playback.position == n
    ensures link.dongle.playback.reading == link.dongle.playback.off == 0
    ensures link.dongle.playback.disturbed <==> n == 5
  {
    hide Encoded, StreamPcm, StreamEnd, EncoderAfter, SlotsHold, HeldIn, Latest, Blocks;
    hide HoldsLatest, MicBuffer.Pointers, Fresh, HoldsOwn, UnitSize;
    hide MicEncoder.History;
    for i := 0 to n
      invariant link.Valid() && link.dongle.InSequence() && link.dongle.playback.position == i
      invariant link.dongle.start == (i == 0)
      invariant link.dongle.playback.reading == link.dongle.playback.off == 0
      invariant link.dongle.playback.disturbed <==> i == 5
    {
      var decoded := link.Decode();
    }
  }

  /** The sound of `n` packets is sent after power on. */
  method Sent(sound: seq<Sample>, n: nat) returns (link: VoiceLink)
    requires |sound| == n * DEC_SIZE
    ensures fresh(link) && fresh(link.Parts()) && link.Valid() && link.paired
    ensures AllSent(link.rcu) && link.rcu.spoken == sound
    ensures |link.dongle.ring.received| == n && link.dongle.start && link.dongle.order == []
    ensures link.dongle.playback.abufReset == 0 && link.dongle.playback.bufferEmpty && !link.dongle.playback.disturbed
    ensures link.dongle.playback.position == link.dongle.playback.reading == link.dongle.playback.off == 0
  {
    hide Encoded, StreamPcm, StreamEnd, EncoderAfter, SlotsHold, HeldIn, Latest, Blocks;
    hide HoldsLatest, MicBuffer.Pointers, Picked, Fresh, HoldsOwn, UnitSize;
    hide MicEncoder.History;
    link := PowerOn();
    WarmUp(link);
    SendAll(link, sound, n);
  }

  /**
   The sound of `n` packets is sent and decoded after power on before the host first reads. Up to four it gets
   the beginning of the encoder's predictions; the fifth packet has been decoded over the first.
   */
  method HostReadsAfter(sound: seq<Sample>, n: nat) returns (link: VoiceLink, playing: bool, out: seq<Sample>)
    requires 3 <= n <= 5 && |sound| == n * DEC_SIZE
    ensures fresh(link) && link.Valid() && link.rcu.mic.stream == sound && playing
    ensures n <= 4 ==> |out| == ISO_SIZE && out <= Predictions(START, sound)
    ensures n == 5 ==> !HoldsOwn(link.dongle.playback.held, 0)
  {
    hide Encoded, StreamPcm, StreamEnd, EncoderAfter, SlotsHold, HeldIn, Latest, Blocks;
    hide HoldsLatest, MicBuffer.Pointers, Picked, Fresh, HoldsOwn, UnitSize, Predictions, IsStretch;
    hide MicEncoder.History;
    link := Sent(sound, n);
    DecodeAll(link, n);
    playing, out := link.UsbIso(false);
    link.DecodesThePredictions();
    if n <= 4 {
      BeginsAlike(link.dongle.pcm, out, Predictions(START, sound));
    }
  }

  /** Nine packets are sent before the first is decoded: the ninth is decoded in its place. */
  method NinthIsFirst(sound: seq<Sample>) returns (link: VoiceLink)
    requires |sound| == 9 * DEC_SIZE
    ensures fresh(link) && link.Valid() && link.paired && AllSent(link.rcu) && link.rcu.spoken == sound
    ensures link.dongle.order == [8] && !link.dongle.InSequence()
  {
    hide Encoded, StreamPcm, StreamEnd, EncoderAfter, SlotsHold, HeldIn, Latest, Blocks;
    hide HoldsLatest, MicBuffer.Pointers, Picked, Fresh, HoldsOwn, UnitSize, AllSent;
    hide MicEncoder.History;
    link := Sent(sound, 9);
    var decoded := link.Decode();
    assert Fetched(0, 9, 8) == 8;
    assert link.dongle.order[0] != 0;
  }

  lemma BeginsAlike(pcm: seq<Sample>, out: seq<Sample>, whole: seq<Sample>)
    requires IsStretch(pcm, SlotAt(0, DEC_SIZE), out) && pcm <= whole
    ensures out <= whole
  {
  }
}
