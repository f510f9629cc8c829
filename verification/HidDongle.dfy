/**
 The dongle of the HID build (application/audio/tl_audio.c): `abuf_init`, `abuf_mic_add`, `abuf_mic_dec` and
 `abuf_dec_usb`. It decodes the headerless packets as one stream and plays it to the USB host.
 */
module HidDongles {
  import opened Adpcm
  import opened AdpcmFrame
  import opened HidStream
  import opened PacketSlots
  import opened ReceiveRings
  import opened UsbPlayback

  /** Every one of the last four packets is in its slot. */
  ghost predicate Latest(held: seq<Held>, position: nat) {
    |held| == 4 && forall q :: 0 <= q < position <= q + 4 ==> HoldsOwn(held, q)
  }

  /** The blocks are stretches of what has been decoded. */
  ghost predicate Blocks(held: seq<Held>, position: nat, pcm: seq<Sample>) {
    && |pcm| == SlotAt(position, DEC_SIZE)
    && forall s :: 0 <= s < |held| ==> IsBlock(held[s], position, pcm)
  }

  /** `out` is the stretch of `pcm` that begins at `from`. */
  ghost predicate IsStretch(pcm: seq<Sample>, from: nat, out: seq<Sample>) {
    from + |out| <= |pcm| && out == pcm[from..from + |out|]
  }

  /** The packets decoded are those received that `order` names. */
  ghost predicate Picked(packets: seq<Packet>, order: seq<nat>, received: seq<seq<Byte>>, position: nat) {
    && |packets| == |order| == position
    && forall k :: 0 <= k < |order| ==> order[k] < |received| && packets[k] == received[order[k]]
  }

  lemma PickedNext(packets: seq<Packet>, order: seq<nat>, received: seq<seq<Byte>>, position: nat, p: Packet, j: nat)
    requires Picked(packets, order, received, position) && j < |received| && p == received[j]
    ensures Picked(packets + [p], order + [j], received, position + 1)
  {
  }

  lemma InSequenceIsPrefix(packets: seq<Packet>, order: seq<nat>, received: seq<seq<Byte>>, position: nat)
    requires Picked(packets, order, received, position) && position <= |received|
    requires forall k :: 0 <= k < |order| ==> order[k] == k
    ensures packets == received[..position]
  {
  }

  lemma PickedOfMore(packets: seq<Packet>, order: seq<nat>, received: seq<seq<Byte>>, position: nat, more: seq<seq<Byte>>)
    requires Picked(packets, order, received, position)
    ensures Picked(packets, order, received + more, position)
  {
  }

  ghost predicate IsBlock(h: Held, position: nat, pcm: seq<Sample>) {
    h.Block? && h.at >= 0 ==>
      && h.at < position && SlotAt(h.at, DEC_SIZE) + DEC_SIZE <= |pcm|
      && h.pcm == pcm[SlotAt(h.at, DEC_SIZE)..SlotAt(h.at, DEC_SIZE) + DEC_SIZE]
  }

  lemma LatestNext(held: seq<Held>, position: nat, h: Held)
    requires Latest(held, position) && h.Block? && h.at == position
    ensures Latest(held[position % 4 := h], position + 1)
  {
    var next := held[position % 4 := h];
    forall q | 0 <= q < position + 1 <= q + 4 ensures HoldsOwn(next, q) {
      if q < position {
        assert HoldsOwn(held, q) && q % 4 != position % 4;
      }
    }
  }

  /** A packet is still in its slot exactly when it is one of the last four. */
  lemma OwnWhileNear(held: seq<Held>, position: nat, q: nat)
    requires Latest(held, position) && q < position <= q + 8
    ensures HoldsOwn(held, q) <==> position - q <= 4
  {
    if position - q <= 4 {
      assert HoldsOwn(held, q);
    } else {
      assert HoldsOwn(held, q + 4);
      assert (q + 4) % 4 == q % 4;
    }
  }

  lemma BlocksNext(held: seq<Held>, position: nat, pcm: seq<Sample>, h: Held)
    requires Blocks(held, position, pcm) && |held| == 4 && h.Block? && h.at == position && |h.pcm| == DEC_SIZE
    ensures Blocks(held[position % 4 := h], position + 1, pcm + h.pcm)
  {
    hide SlotAt;
    assert SlotAt(position + 1, DEC_SIZE) == SlotAt(position, DEC_SIZE) + DEC_SIZE by {
      SlotAfter(position);
    }
    var next, more := held[position % 4 := h], pcm + h.pcm;
    forall s | 0 <= s < 4 ensures IsBlock(next[s], position + 1, more) {
      if s != position % 4 {
        assert IsBlock(held[s], position, pcm);
      }
    }
  }

  lemma SlotAfter(k: nat)
    ensures SlotAt(k + 1, DEC_SIZE) == SlotAt(k, DEC_SIZE) + DEC_SIZE
  {
  }

  lemma BlocksLength(held: seq<Held>, position: nat, pcm: seq<Sample>)
    requires Blocks(held, position, pcm)
    ensures |pcm| == SlotAt(position, DEC_SIZE)
  {
  }

  /** A read of a packet that is in its slot sends the next 16 samples of what has been decoded. */
  lemma ReadIsDecoded(held: seq<Held>, position: nat, pcm: seq<Sample>, p: nat, o: nat)
    requires |held| == 4 && Blocks(held, position, pcm) && HoldsOwn(held, p) && o + ISO_SIZE <= DEC_SIZE
    ensures SlotAt(p, DEC_SIZE) + o + ISO_SIZE <= |pcm|
    ensures SentFrom(held, DEC_SIZE, p, o) == pcm[SlotAt(p, DEC_SIZE) + o..SlotAt(p, DEC_SIZE) + o + ISO_SIZE]
  {
    hide SlotAt;
    assert IsBlock(held[p % 4], position, pcm);
    var out, from := SentFrom(held, DEC_SIZE, p, o), SlotAt(p, DEC_SIZE);
    forall i | 0 <= i < ISO_SIZE ensures out[i] == pcm[from + o..from + o + ISO_SIZE][i] {
      assert out[i] == SampleAt(held, DEC_SIZE, p, o + i) == held[p % 4].pcm[o + i];
      assert pcm[from..from + DEC_SIZE][o + i] == pcm[from + o + i];
    }
  }

  class HidDongle {
    const decoder: Decoder
    const ring: ReceiveRing
    const playback: Playback
    /** The static `start` of `abuf_mic_dec`: hold the first packet back until a second one is there. */
    var start: bool
    /** The packets decoded, which of those received they were, and the samples that came of them. */
    ghost var packets: seq<Packet>
    ghost var order: seq<nat>
    ghost var pcm: seq<Sample>
    /** The samples sent to the host since the last resynchronisation, and where in `pcm` they begin. */
    ghost var heard: seq<Sample>
    ghost var from: nat

    ghost predicate Valid()
      reads this, decoder, ring, ring.abufMic, playback, playback.abufDec
    {
      && Parts() && ring.Valid() && playback.Valid()
      && (playback.abufReset == 0 ==> playback.position <= playback.reading + 5)
      && Latest(playback.held, playback.position) && Blocks(playback.held, playback.position, pcm)
      && playback.position <= |ring.received| && Picked(packets, order, ring.received, playback.position)
      && OneStream()
      && (playback.abufReset == 0 && !playback.disturbed ==> HeardInPcm())
    }

    ghost predicate Parts()
      reads this
    {
      && decoder.variant == Hid
      && ring.num == 8 && ring.size == FRAME_SIZE
      && playback.dec == DEC_SIZE && !playback.zeros
      && ring.abufMic as object != playback.abufDec
    }

    /** The decoder has made one stream of the packets. */
    ghost predicate OneStream()
      reads `pcm, `packets, decoder
    {
      decoder.Contents() == StreamEnd(packets) && pcm == StreamPcm(packets)
    }

    /** No packet was overwritten before it could be decoded. */
    ghost predicate InSequence()
      reads `order
    {
      forall k :: 0 <= k < |order| ==> order[k] == k
    }

    /** What was sent is one uninterrupted stretch of what was decoded, up to the read pointer. */
    ghost predicate HeardInPcm()
      reads this, playback
    {
      && from + |heard| == SlotAt(playback.reading, DEC_SIZE) + playback.off
      && IsStretch(pcm, from, heard)
    }

    constructor (decoder: Decoder, ring: ReceiveRing, playback: Playback)
      requires decoder.variant == Hid && decoder.Contents() == START
      requires ring.Valid() && ring.num == 8 && ring.size == FRAME_SIZE && ring.received == []
      requires playback.Valid() && playback.dec == DEC_SIZE && !playback.zeros
      requires playback.position == playback.reading == playback.off == 0
      requires playback.held == [Nothing, Nothing, Nothing, Nothing]
      requires ring.abufMic as object != playback.abufDec
      ensures Valid() && start && pcm == heard == [] && packets == [] && order == []
      ensures this.decoder == decoder && this.ring == ring && this.playback == playback
    {
      hide SlotsHold, HeldIn;
      this.decoder, this.ring, this.playback := decoder, ring, playback;
      start, packets, order, pcm, heard, from := true, [], [], [], [], 0;
    }

    /** `abuf_init`, which restarts the decoder too */
    method AbufInit()
      requires Valid()
      modifies `packets, `order, `pcm, `heard, `from, decoder, ring`abufMicWptr, ring`received
      modifies playback`abufDecWptr, playback`abufReset, playback`position, playback`held
      ensures Valid() && ring.received == [] && pcm == heard == [] && packets == [] && order == []
      ensures playback.position == 0 && playback.abufReset == 16
    {
      hide SlotsHold, HeldIn;
      ring.AbufInit();
      playback.AbufInit();
      decoder.Restart();
      packets, order, pcm, heard, from := [], [], [], [], 0;
    }

    /** `abuf_mic_add` */
    method AbufMicAdd(p: Packet)
      requires Valid()
      modifies ring`abufMicWptr, ring`received, ring.abufMic
      ensures Valid() && ring.received == old(ring.received) + [p]
    {
      hide SlotsHold, HeldIn, StreamEnd, StreamPcm, Latest, Blocks, SlotAt, Picked;
      PickedOfMore(packets, order, ring.received, playback.position, [p]);
      ring.AbufMicAdd(p);
    }

    /**
     `abuf_mic_dec`: decodes the next packet, the first one only once a second has arrived. More than four
     decoded packets that the host has not read make it drop them; at four it still decodes over the oldest.
     */
    method AbufMicDec() returns (decoded: bool)
      requires Valid()
      modifies this, decoder, playback.abufDec, playback`abufDecWptr, playback`abufDecRptr, playback`position
      modifies playback`reading, playback`off, playback`held, playback`disturbed
      ensures Valid()
      ensures decoded <==> old((|ring.received| - playback.position) % 256 >= if start then 2 else 1)
      ensures order == old(order) + if decoded then [Fetched(old(playback.position), |ring.received|, 8)] else []
      ensures playback.position == old(playback.position) + if decoded then 1 else 0
      ensures old(pcm) <= pcm
      ensures start == (old(start) && !decoded)
      ensures old(playback.abufReset) == 0 ==>
        var ahead := old(playback.position - playback.reading);
        && playback.reading == (if ahead > 4 then old(playback.position) else old(playback.reading))
        && playback.off == (if ahead > 4 then 0 else old(playback.off))
        && playback.disturbed == (if ahead > 4 then false else old(playback.disturbed) || (decoded && ahead == 4))
        && (ahead <= 4 ==> heard == old(heard) && from == old(from))
        && (ahead > 4 ==> heard == [])
    {
      hide SlotsHold, HeldIn, StreamEnd, StreamPcm, Latest, Blocks, SlotAt, Picked, OneStream, IsStretch;
      var numMic := ring.NumMic(playback.abufDecWptr, playback.position);
      Catchup();
      decoded := if start then numMic >= 2 else numMic >= 1;
      if decoded {
        DecodeNext();
        start := false;
      }
    }

    /** `if (num_dec > 4) abuf_dec_rptr = abuf_dec_wptr * MIC_SHORT_DEC_SIZE` */
    method Catchup()
      requires Valid()
      modifies `heard, `from, playback`abufDecRptr, playback`reading, playback`off, playback`disturbed
      ensures Valid()
      ensures playback.abufReset == 0 ==>
        && playback.position <= playback.reading + 4
        && playback.reading == (
           if old(playback.position - playback.reading) > 4 then playback.position else old(playback.reading))
        && playback.off == (if old(playback.position - playback.reading) > 4 then 0 else old(playback.off))
        && playback.disturbed == (old(playback.disturbed) && old(playback.position - playback.reading) <= 4)
        && (old(playback.position - playback.reading) <= 4 ==> heard == old(heard) && from == old(from))
        && (old(playback.position - playback.reading) > 4 ==> heard == [])
    {
      hide SlotsHold, HeldIn, StreamEnd, StreamPcm, Latest, SlotAt, OneStream, Picked;
      var numDec := playback.NumDec();
      if numDec > 4 {
        playback.Resynchronise();
        heard, from := [], SlotAt(playback.position, DEC_SIZE);
      }
    }

    /** Decodes what the slot at the write position holds: the latest packet that went there. */
    method DecodeNext()
      requires Valid() && playback.position < |ring.received|
      requires playback.abufReset == 0 ==> playback.position <= playback.reading + 4
      modifies `packets, `order, `pcm, decoder, playback.abufDec
      modifies playback`abufDecWptr, playback`position, playback`held, playback`disturbed
      ensures Valid() && playback.position == old(playback.position) + 1 && old(pcm) <= pcm
      ensures order == old(order) + [Fetched(old(playback.position), |ring.received|, 8)]
      ensures playback.disturbed == (old(playback.disturbed) || old(playback.position) >= playback.reading + 4)
    {
      hide SlotsHold, HeldIn, StreamEnd, StreamPcm, Latest, Blocks, FramePcm, FrameEnd, Overwrite, SlotAt, IsStretch, Picked;
      ghost var k := playback.position;
      ghost var j := Fetched(k, |ring.received|, 8);
      PtrSlot(k);
      SlotsInOrder(k % 4, 4, DEC_SIZE);
      var at := ring.Offset(playback.abufDecWptr, k);
      var to := SlotAt(playback.abufDecWptr % 4, DEC_SIZE);
      ghost var own, p, bs, data := decoder.Contents(), ring.received[j], ring.abufMic[at..], playback.abufDec[..];
      ghost var block := Block(k, 0, FramePcm(Hid, own, bs, DEC_SIZE));
      PacketSuffices(own, p, bs);
      StreamGrows(packets, p);
      PickedNext(packets, order, ring.received, k, p, j);
      LatestNext(playback.held, k, block);
      BlocksNext(playback.held, k, pcm, block);
      StretchKept(pcm, block.pcm, from, heard);
      decoder.AdpcmToPcm(ring.abufMic, at, playback.abufDec, to, DEC_SIZE);
      playback.Decoded(block, data);
      packets, order, pcm := packets + [p], order + [j], pcm + block.pcm;
    }

    /**
     `abuf_dec_usb`. What is sent is the packet it should be exactly when at most four decoded packets are ahead,
     and then it is the next 16 samples of what was decoded.
     */
    method UsbIso(late: bool) returns (playing: bool, out: seq<Sample>)
      requires Valid()
      modifies `heard, `from, playback`abufDecRptr, playback`abufReset, playback`bufferEmpty, playback`nUsbIso
      modifies playback`reading, playback`off, playback`disturbed
      ensures Valid()
      ensures var p := old(playback.StartPacket(late));
              && p <= playback.position
              && (playing <==> playback.position - p >= if old(playback.bufferEmpty) then 3 else 1)
              && (playing ==> (HoldsOwn(playback.held, p) <==> playback.position - p <= 4))
              && (!playing ==> out == [] && playback.reading == p && playback.off == old(playback.StartOff(late)))
              && (!playing && old(playback.bufferEmpty) ==> playback.bufferEmpty)
      ensures playing ==>
                var p, o := old(playback.StartPacket(late)), old(playback.StartOff(late));
                && |out| == ISO_SIZE
                && (playback.position - p <= 4 ==> IsStretch(pcm, SlotAt(p, DEC_SIZE) + o, out))
                && SlotAt(playback.reading, DEC_SIZE) + playback.off == SlotAt(p, DEC_SIZE) + o + ISO_SIZE
      ensures playback.abufReset
           == if late then 15 else if old(playback.abufReset) > 0 then old(playback.abufReset) - 1 else 0
      ensures playback.disturbed == (old(playback.disturbed) && !(late || old(playback.abufReset) > 0))
      ensures heard == (if late || old(playback.abufReset) > 0 then [] else old(heard)) + if playing then out else []
    {
      hide SlotsHold, HeldIn, StreamEnd, StreamPcm, SlotAt, Latest, Blocks, SentFrom, HoldsOwn, NextOff, Before, Picked;
      hide Fresh, OneStream, IsStretch, OnGrid, IsDecSize, Playback.StartPacket, Playback.StartOff;
      ghost var p, o := playback.StartPacket(late), playback.StartOff(late);
      StartHearing(late);
      playing, out := playback.AbufDecUsb(late);
      if playing {
        HeardNext(playback.held, playback.position, pcm, p, o, from, heard, out, !playback.disturbed);
        heard := heard + out;
      }
    }

    /** A resynchronisation begins a new stretch. */
    ghost method StartHearing(late: bool)
      requires Valid()
      modifies `heard, `from
      ensures heard == if late || playback.abufReset > 0 then [] else old(heard)
      ensures late || playback.abufReset > 0 || !playback.disturbed ==>
                && from + |heard| == SlotAt(playback.StartPacket(late), DEC_SIZE) + playback.StartOff(late)
                && IsStretch(pcm, from, heard)
      ensures OnGrid(DEC_SIZE, playback.StartOff(late)) && playback.StartPacket(late) <= playback.position
      ensures playback.position <= playback.StartPacket(late) + 5
      ensures !playback.disturbed || late || playback.abufReset > 0 ==> playback.position <= playback.StartPacket(late) + 4
    {
      hide SlotsHold, HeldIn, StreamEnd, StreamPcm, SlotAt, Latest, Blocks, Before, OneStream, Picked;
      BlocksLength(playback.held, playback.position, pcm);
      if late || playback.abufReset > 0 {
        heard, from := [], SlotAt(playback.position, DEC_SIZE);
      }
    }
  }

  /** One read, of the packet it should be of exactly while at most four are ahead: it sends what was decoded. */
  lemma HeardNext(held: seq<Held>, position: nat, pcm: seq<Sample>, p: nat, o: nat,
                  from: nat, heard: seq<Sample>, out: seq<Sample>, steady: bool)
    requires |held| == 4 && Latest(held, position) && Blocks(held, position, pcm)
    requires p < position <= p + 8 && OnGrid(DEC_SIZE, o) && out == SentFrom(held, DEC_SIZE, p, o)
    requires steady ==> position - p <= 4 && from + |heard| == SlotAt(p, DEC_SIZE) + o && IsStretch(pcm, from, heard)
    ensures HoldsOwn(held, p) <==> position - p <= 4
    ensures position - p <= 4 ==> IsStretch(pcm, SlotAt(p, DEC_SIZE) + o, out)
    ensures SlotAt(p + if o + ISO_SIZE >= DEC_SIZE then 1 else 0, DEC_SIZE) + NextOff(DEC_SIZE, Ptr(p), o)
         == SlotAt(p, DEC_SIZE) + o + ISO_SIZE
    ensures steady ==> IsStretch(pcm, from, heard + out)
  {
    hide Latest, Blocks, SlotAt, SentFrom, NextOff, HoldsOwn;
    OwnWhileNear(held, position, p);
    NextRead(p, o);
    if position - p <= 4 {
      ReadIsDecoded(held, position, pcm, p, o);
    }
  }

  lemma StretchKept(pcm: seq<Sample>, more: seq<Sample>, from: nat, out: seq<Sample>)
    ensures IsStretch(pcm, from, out) ==> IsStretch(pcm + more, from, out)
  {
  }

  /** Reads of 16 samples never straddle packets of 240, and move on through them without a gap. */
  lemma NextRead(p: nat, o: nat)
    requires OnGrid(DEC_SIZE, o)
    ensures o + ISO_SIZE <= DEC_SIZE
    ensures SlotAt(p + if o + ISO_SIZE >= DEC_SIZE then 1 else 0, DEC_SIZE) + NextOff(DEC_SIZE, Ptr(p), o)
         == SlotAt(p, DEC_SIZE) + o + ISO_SIZE
  {
    hide SlotAt;
    SlotAfter(p);
  }

  /** The dongle as it powers up. */
  method NewHidDongle() returns (dongle: HidDongle)
    ensures fresh(dongle) && dongle.Valid() && dongle.ring.received == [] && dongle.start && dongle.order == []
    ensures fresh(dongle.decoder) && fresh(dongle.ring) && fresh(dongle.ring.abufMic)
    ensures fresh(dongle.playback) && fresh(dongle.playback.abufDec)
    ensures dongle.playback.position == dongle.playback.abufReset == 0 && dongle.playback.bufferEmpty
  {
    hide SlotsHold, HeldIn, SlotAt, StreamEnd, StreamPcm, Latest, Blocks;
    var decoder := new Decoder(Hid);
    var abufMic := new Byte[SlotAt(8, FRAME_SIZE) + 1](_ => 0);
    var ring := new ReceiveRing(8, FRAME_SIZE, abufMic);
    var abufDec := new Sample[4 * DEC_SIZE](_ => 0);
    var playback := new Playback(DEC_SIZE, false, abufDec);
    dongle := new HidDongle(decoder, ring, playback);
  }
}
