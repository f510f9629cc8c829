/**
 The dongle of the GATT builds, Telink and Google 0.4 (application/audio/tl_audio.c): `abuf_init`, `abuf_mic_add`
 and `abuf_mic_dec`. Frames carry their own start state, so each is decoded on its own.
 */
module GattDongles {
  import opened Adpcm
  import opened AdpcmFrame
  import opened AdpcmStream
  import opened AudioRing
  import opened PacketSlots
  import opened ReceiveRings
  import opened UsbPlayback

  predicate IsGatt(v: Variant) { v.Telink? || v.Google04? }

  /** Enough bytes for a decoder, with a header it can use. */
  predicate Decodable(v: Variant, bs: seq<Byte>) {
    HeaderFits(v, bs) && |bs| >= v.HeaderSize() + (UnitSize(v) + 1) / 2
  }

  /** What a packet decodes to, on its own. */
  function BlockPcm(v: Variant, bs: seq<Byte>): (pcm: seq<Sample>)
    requires Decodable(v, bs)
    ensures |pcm| == UnitSize(v)
  {
    FramePcm(v, State(0, 0), bs, UnitSize(v))
  }

  /** The decoder's own state and the bytes behind a frame do not matter. */
  lemma FrameSuffices(v: Variant, own: State, p: seq<Byte>, bs: seq<Byte>)
    requires IsGatt(v) && Decodable(v, p) && p <= bs
    ensures Decodable(v, bs) && FramePcm(v, own, bs, UnitSize(v)) == BlockPcm(v, p)
  {
    hide Pcm;
    var rest, h := bs[|p|..], v.HeaderSize();
    assert bs == p + rest && bs[h..] == p[h..] + rest;
    UnpackIgnoresLookahead(p[h..], rest, UnitSize(v), v.Swaps());
  }

  /** What waits to be read is, position by position, the packets received. */
  ghost predicate Direct(held: seq<Held>, origin: seq<nat>, reading: nat, position: nat)
    requires |held| == 4
  {
    position <= |origin| && forall q :: reading <= q < position ==> IsDirect(held, origin, q)
  }

  ghost predicate IsDirect(held: seq<Held>, origin: seq<nat>, q: nat)
    requires |held| == 4 && q < |origin|
  {
    HoldsOwn(held, q) && held[q % 4].frame == origin[q]
  }

  lemma DirectNext(held: seq<Held>, origin: seq<nat>, reading: nat, position: nat, h: Held)
    requires |held| == 4 && Direct(held, origin, reading, position) && position < reading + 4 && position < |origin|
    requires h.Block? && h.at == position && h.frame == origin[position]
    ensures Direct(held[position % 4 := h], origin, reading, position + 1)
  {
    var next := held[position % 4 := h];
    forall q | reading <= q < position + 1 ensures IsDirect(next, origin, q) {
      if q < position {
        assert IsDirect(held, origin, q) && q % 4 != position % 4;
      }
    }
  }

  lemma DirectOfMore(held: seq<Held>, origin: seq<nat>, reading: nat, position: nat, frame: nat)
    requires |held| == 4 && Direct(held, origin, reading, position)
    ensures Direct(held, origin + [frame], reading, position)
  {
    forall q | reading <= q < position ensures IsDirect(held, origin + [frame], q) {
      assert IsDirect(held, origin, q);
    }
  }

  lemma DirectFrom(held: seq<Held>, origin: seq<nat>, reading: nat, next: nat, position: nat)
    requires |held| == 4 && Direct(held, origin, reading, position) && reading <= next
    ensures Direct(held, origin, next, position)
  {
  }

  class GattDongle {
    const variant: Variant
    const decoder: Decoder
    const ring: ReceiveRing
    const playback: Playback
    /** The static `start` of `abuf_mic_dec`: hold the first packet back until a second one is there. */
    var start: bool
    /** Which of the encoder's frames each received packet is. */
    ghost var origin: seq<nat>
    /** Whether since the last resynchronisation each packet was decoded before a later one came into its slot. */
    ghost var straight: bool

    ghost predicate Valid()
      reads this, decoder, ring, ring.abufMic, playback, playback.abufDec
    {
      Ready() && (playback.abufReset == 0 ==> playback.position <= playback.reading + 5)
    }

    /** `Valid`, between the parts of one call. */
    ghost predicate Ready()
      reads this, decoder, ring, ring.abufMic, playback, playback.abufDec
    {
      && Parts() && ring.Valid() && playback.Valid()
      && |origin| == |ring.received| && playback.position <= |ring.received|
      && (forall k :: 0 <= k < |ring.received| ==> Decodable(variant, ring.received[k]))
      && (playback.abufReset == 0 && straight && !playback.disturbed ==>
            Direct(playback.held, origin, playback.reading, playback.position))
    }

    ghost predicate Parts()
      reads this
    {
      && IsGatt(variant) && decoder.variant == variant
      && ring.num == 4 && ring.size == PacketLen(variant)
      && playback.dec == UnitSize(variant) && playback.zeros == variant.Telink?
      && ring.abufMic as object != playback.abufDec
    }

    constructor (variant: Variant, decoder: Decoder, ring: ReceiveRing, playback: Playback)
      requires IsGatt(variant) && decoder.variant == variant
      requires ring.Valid() && ring.num == 4 && ring.size == PacketLen(variant) && ring.received == []
      requires playback.Valid() && playback.dec == UnitSize(variant) && playback.zeros == variant.Telink?
      requires playback.position == playback.reading == 0
      requires ring.abufMic as object != playback.abufDec
      ensures Valid() && start && origin == [] && straight
      ensures this.variant == variant && this.decoder == decoder && this.ring == ring && this.playback == playback
    {
      this.variant, this.decoder, this.ring, this.playback := variant, decoder, ring, playback;
      start, origin, straight := true, [], true;
    }

    /** `abuf_init` */
    method AbufInit()
      requires Valid()
      modifies `origin, ring`abufMicWptr, ring`received
      modifies playback`abufDecWptr, playback`abufReset, playback`position, playback`held
      ensures Valid() && ring.received == [] && playback.held == Aged(old(playback.held))
      ensures playback.position == 0 && playback.abufReset == 16
    {
      hide SlotsHold, HeldIn, Decodable;
      ring.AbufInit();
      playback.AbufInit();
      origin := [];
    }

    /** `abuf_mic_add` */
    method AbufMicAdd(p: seq<Byte>, ghost frame: nat)
      requires Valid() && |p| == PacketLen(variant) && Decodable(variant, p)
      modifies `origin, ring`abufMicWptr, ring`received, ring.abufMic
      ensures Valid() && ring.received == old(ring.received) + [p] && origin == old(origin) + [frame]
    {
      hide SlotsHold, HeldIn, Decodable, SlotAt, Direct;
      if Direct(playback.held, origin, playback.reading, playback.position) {
        DirectOfMore(playback.held, origin, playback.reading, playback.position, frame);
      }
      ring.AbufMicAdd(p);
      origin := origin + [frame];
    }

    /** The packets not yet decoded, as the code counts them. */
    ghost function Waiting(): int
      reads ring, playback`position
    {
      (|ring.received| - playback.position) % 256
    }

    /**
     `abuf_mic_dec`: resynchronises while `abuf_reset` counts down, skips a packet when it is more than four
     behind, and decodes what the slot at the write position holds by now: packet `j`.
     */
    method AbufMicDec() returns (decoded: bool, ghost j: nat)
      requires Valid()
      modifies `start, `straight, decoder, playback.abufDec
      modifies playback`abufDecWptr, playback`abufReset, playback`position, playback`held, playback`disturbed
      ensures Valid()
      ensures decoded <==>
        old(playback.abufReset == 0 && Waiting() >= (if start then 2 else 1)
            && playback.position - playback.reading <= 3)
      ensures playback.abufReset
           == old(if playback.abufReset == 0 && playback.position - playback.reading > 4 then 16 else playback.abufReset)
      ensures !decoded ==> playback.held == old(playback.held)
      ensures !decoded ==>
        playback.position
          == if old(playback.abufReset) != 0 then |ring.received|
             else old(playback.position) + if old(Waiting()) > 4 then 1 else 0
      ensures decoded ==>
        Advanced(old(playback.position) + (if old(Waiting()) > 4 then 1 else 0),
                 old(playback.held), j)
      ensures old(playback.abufReset) == 0 && old(Waiting()) <= 4 ==>
        playback.disturbed == old(playback.disturbed)
      ensures straight == (old(straight) && (decoded ==> j == playback.position - 1))
      ensures start == if decoded then false else old(start) || (old(playback.abufReset) == 0 && playback.abufReset != 0)
    {
      hide SlotsHold, HeldIn, Decodable, SlotAt, OnGrid, IsDecSize, Before, Fresh, Direct, PacketLen, UnitSize;
      decoded, j := false, 0;
      if playback.abufReset != 0 {
        playback.FollowMic(ring.abufMicWptr, |ring.received|);
      } else {
        var numMic := ring.NumMic(playback.abufDecWptr, playback.position);
        var numDec := playback.NumDec();
        SkipOverflow(numMic);
        decoded, j := DecodeOrReset(numMic, numDec);
      }
    }

    /** In case of overflow the oldest packet is skipped. */
    method SkipOverflow(numMic: nat)
      requires Valid() && playback.abufReset == 0 && numMic == Waiting()
      modifies playback`abufDecWptr, playback`position, playback`disturbed
      ensures playback.Valid() &&
          playback.position == old(playback.position) + (if numMic > 4 then 1 else 0) <= |ring.received|
      ensures playback.disturbed == (old(playback.disturbed) || numMic > 4)
    {
      hide SlotsHold, HeldIn, Decodable, SlotAt, OnGrid, IsDecSize, Before, Fresh, Direct, PacketLen, UnitSize;
      if numMic > 4 {
        playback.Skip();
      }
    }

    method DecodeOrReset(numMic: nat, numDec: nat) returns (decoded: bool, ghost j: nat)
      requires Ready() && playback.abufReset == 0
      requires numMic > 0 ==> playback.position < |ring.received|
      requires playback.position <= playback.reading + numDec + 1
      requires playback.position <= playback.reading + numDec || numMic > 4
      modifies `start, `straight, decoder, playback.abufDec
      modifies playback`abufDecWptr, playback`abufReset, playback`position, playback`held, playback`disturbed
      ensures Valid()
      ensures decoded <==> numMic >= (if old(start) then 2 else 1) && numDec <= 3
      ensures playback.abufReset == if numDec > 4 then 16 else 0
      ensures start == (numDec > 4 || (old(start) && !decoded))
      ensures !decoded ==> playback.position == old(playback.position) && playback.held == old(playback.held)
      ensures decoded ==> Advanced(old(playback.position), old(playback.held), j)
      ensures straight == (old(straight) && (decoded ==> j == old(playback.position)))
      ensures numMic <= 4 ==> playback.disturbed == old(playback.disturbed)
    {
      hide SlotsHold, HeldIn, Decodable, SlotAt, OnGrid, IsDecSize, Before, Fresh, Direct, PacketLen, UnitSize, BlockPcm;
      decoded, j := false, 0;
      if numDec > 4 {
        playback.abufReset := 16;
        start := true;
      } else if (if start then numMic >= 2 else numMic >= 1) && numDec <= 3 {
        j := DecodeNext();
        decoded := true;
        start := false;
      }
    }

    /** Position `k` has been decoded, from packet `j`. */
    ghost predicate Advanced(k: nat, held: seq<Held>, j: nat)
      reads this, ring, playback
    {
      && playback.position == k + 1 && k < |ring.received| && |held| == 4
      && j == LatestInSlot(k, |ring.received|, 4) && j < |origin| && Decodable(variant, ring.received[j])
      && playback.held == held[k % 4 := Block(k, origin[j], BlockPcm(variant, ring.received[j]))]
    }

    /** Decodes what the slot at the write position holds into the slot for that position. */
    method DecodeNext() returns (ghost j: nat)
      requires Ready() && playback.position < |ring.received| && playback.abufReset == 0
      requires playback.position <= playback.reading + 4
      modifies `straight, decoder, playback.abufDec
      modifies playback`abufDecWptr, playback`position, playback`held, playback`disturbed
      ensures Valid() && straight == (old(straight) && j == old(playback.position))
      ensures Advanced(old(playback.position), old(playback.held), j)
      ensures playback.disturbed == (old(playback.disturbed) || old(playback.position) >= playback.reading + 4)
    {
      hide SlotsHold, HeldIn, Decodable, BlockPcm, FramePcm, Overwrite, SlotAt, Direct;
      ghost var k := playback.position;
      j := LatestInSlot(k, |ring.received|, 4);
      PtrSlot(k);
      SlotsInOrder(k % 4, 4, playback.dec);
      var from := ring.Offset(playback.abufDecWptr, k);
      var to := SlotAt(playback.abufDecWptr % 4, playback.dec);
      ghost var own, bs, data := decoder.Contents(), ring.abufMic[from..], playback.abufDec[..];
      FrameSuffices(variant, own, ring.received[j], bs);
      FetchInside(variant, ring.abufMic.Length, from);
      HeaderOf(variant, bs);
      decoder.AdpcmToPcm(ring.abufMic, from, playback.abufDec, to, playback.dec);
      ghost var block := Block(k, origin[j], BlockPcm(variant, ring.received[j]));
      if straight && j == k && !playback.disturbed && k < playback.reading + 4 {
        DirectNext(playback.held, origin, playback.reading, k, block);
      }
      playback.Decoded(block, data);
      straight := straight && j == k;
    }

    /** `abuf_dec_usb` */
    method UsbIso(late: bool) returns (playing: bool, out: seq<Sample>)
      requires Valid()
      modifies `straight, playback`abufDecRptr, playback`abufReset, playback`bufferEmpty, playback`nUsbIso
      modifies playback`reading, playback`off, playback`disturbed
      ensures Valid()
      ensures var p, o := old(playback.StartPacket(late)), old(playback.StartOff(late));
              && p <= playback.position && OnGrid(playback.dec, o)
              && (playing <==> playback.position - p >= if old(playback.bufferEmpty) then 3 else 1)
              && playback.bufferEmpty == (if playback.position == p then true else old(playback.bufferEmpty) && !playing)
              && playback.reading == (p + if playing && o + ISO_SIZE >= playback.dec then 1 else 0)
              && playback.off == (if playing then NextOff(playback.dec, Ptr(p), o) else o)
              && (playing ==> out == SentFrom(playback.held, playback.dec, p, o))
              && (!playing ==> out == if playback.zeros then Silence(ISO_SIZE) else [])
              && (!playback.disturbed ==> Fresh(playback.held, p, playback.position))
              && (straight && !playback.disturbed ==> Direct(playback.held, origin, p, playback.position))
      ensures playback.abufReset
           == if late then 15 else if old(playback.abufReset) > 0 then old(playback.abufReset) - 1 else 0
      ensures playback.disturbed == (old(playback.disturbed) && !(late || old(playback.abufReset) > 0))
      ensures straight == (old(straight) || late || old(playback.abufReset) > 0)
    {
      hide SlotsHold, HeldIn, Decodable, SlotAt, OnGrid, IsDecSize, Before, Direct, NextOff, SentFrom, PacketLen, UnitSize;
      ghost var p := playback.StartPacket(late);
      StartingDirect(late);
      playing, out := playback.AbufDecUsb(late);
      straight := straight || late || old(playback.abufReset) > 0;
      if straight && !playback.disturbed {
        DirectFrom(playback.held, origin, p, playback.reading, playback.position);
      }
    }

    lemma StartingDirect(late: bool)
      requires Valid()
      ensures var p := playback.StartPacket(late);
              && p <= playback.position <= p + 5 && OnGrid(playback.dec, playback.StartOff(late))
              && (late || playback.abufReset > 0 || !playback.disturbed ==> Fresh(playback.held, p, playback.position))
              && (late || playback.abufReset > 0 || (straight && !playback.disturbed) ==>
                    Direct(playback.held, origin, p, playback.position))
    {
    }
  }

  lemma FetchInside(v: Variant, length: nat, from: nat)
    requires IsGatt(v) && from + PacketLen(v) < length
    ensures from + v.HeaderSize() + UnitSize(v) / 2 < length
  {
  }

  lemma HeaderOf(v: Variant, bs: seq<Byte>)
    requires Decodable(v, bs)
    ensures HeaderFits(v, bs)
  {
  }

  /** The dongle as it powers up. */
  method NewGattDongle(v: Variant) returns (dongle: GattDongle)
    requires IsGatt(v)
    ensures fresh(dongle) && dongle.Valid() && dongle.variant == v
    ensures fresh(dongle.decoder) && fresh(dongle.ring) && fresh(dongle.ring.abufMic)
    ensures fresh(dongle.playback) && fresh(dongle.playback.abufDec)
    ensures dongle.ring.received == [] && dongle.start && dongle.origin == [] && dongle.straight
    ensures dongle.playback.position == dongle.playback.abufReset == 0 && dongle.playback.bufferEmpty
    ensures dongle.playback.held == [Nothing, Nothing, Nothing, Nothing]
  {
    hide SlotsHold, HeldIn, Decodable, SlotAt;
    var decoder := new Decoder(v);
    var abufMic := new Byte[SlotAt(4, PacketLen(v)) + 1](_ => 0);
    var ring := new ReceiveRing(4, PacketLen(v), abufMic);
    var abufDec := new Sample[4 * UnitSize(v)](_ => 0);
    var playback := new Playback(UnitSize(v), v.Telink?, abufDec);
    dongle := new GattDongle(v, decoder, ring, playback);
  }
}
