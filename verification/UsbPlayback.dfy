/**
 The dongle's playback side, `abuf_dec_usb` of application/audio/tl_audio.c: every millisecond it takes 16
 samples from the ring of four decoded packets, splitting the read in two when it meets the end.
 */
module UsbPlayback {
  import opened Adpcm
  import opened Modulo
  import opened PacketSlots

  /** `USB_ISO_IN_SIZE` at 16 kHz */
  const ISO_SIZE: nat := 16

  /** `MIC_SHORT_DEC_SIZE` of the HID, Telink and Google builds */
  predicate IsDecSize(dec: nat) { dec == 240 || dec == 248 || dec == 256 }

  /** A read pointer: below 256 packets, and at a sample the 16-sample grid of some packet can reach. */
  predicate IsRptr(dec: nat, r: nat) { r < 256 * dec && r % 8 == 0 }

  /** `abuf_dec_rptr += 16; if (abuf_dec_rptr >= (MIC_SHORT_DEC_SIZE << 8)) abuf_dec_rptr = 0;` on 16 bits */
  function NextRptr(dec: nat, r: nat): nat {
    var n := (r + ISO_SIZE) % 0x10000;
    if n >= 256 * dec then 0 else n
  }

  lemma NextRptrIs(dec: nat, r: nat)
    requires IsDecSize(dec) && r < 256 * dec && (dec == 256 ==> r + ISO_SIZE <= 256 * dec)
    ensures NextRptr(dec, r) == if r + ISO_SIZE < 256 * dec then r + ISO_SIZE else 0
  {
  }

  /** The one read after which the pointer restarts eight samples too early. */
  predicate Slips(dec: nat, r: nat) { dec != 256 && r == 256 * dec - 8 }

  lemma NextRptrKeepsGrid(dec: nat, r: nat)
    requires IsDecSize(dec) && IsRptr(dec, r)
    ensures IsRptr(dec, NextRptr(dec, r))
    ensures !Slips(dec, r) ==> NextRptr(dec, r) % 16 == r % 16
  {
    if dec == 256 {
      assert NextRptr(dec, r) == if r + ISO_SIZE < 0x10000 then r + ISO_SIZE else r + ISO_SIZE - 0x10000;
    } else {
      hide NextRptr;
      NextRptrIs(dec, r);
    }
  }

  /** The next read continues where this one ended, around the ring, exactly when it does not slip. */
  lemma ContinuesUnlessSlips(dec: nat, r: nat)
    requires IsDecSize(dec) && IsRptr(dec, r)
    ensures NextRptr(dec, r) % (4 * dec) == (r + ISO_SIZE) % (4 * dec) <==> !Slips(dec, r)
  {
  }

  /** The pointer after `n` reads. */
  function RptrAfter(dec: nat, r: nat, n: nat): nat
    decreases n
  {
    if n == 0 then r else NextRptr(dec, RptrAfter(dec, r, n - 1))
  }

  /** The playback position after every number of reads is `16 * n` samples on, around the ring. */
  ghost predicate PlaysOn(dec: nat, r: nat)
    requires dec > 0
  {
    forall n: nat :: RptrAfter(dec, r, n) % (4 * dec) == (r + ISO_SIZE * n) % (4 * dec)
  }

  lemma {:induction false} OnTheGrid(dec: nat, r: nat, n: nat)
    requires IsDecSize(dec) && IsRptr(dec, r) && (dec == 256 || r % 16 == 0)
    ensures IsRptr(dec, RptrAfter(dec, r, n)) && (dec == 256 || RptrAfter(dec, r, n) % 16 == 0)
    ensures RptrAfter(dec, r, n) % (4 * dec) == (r + ISO_SIZE * n) % (4 * dec)
  {
    if n == 0 {
    } else {
      OnTheGrid(dec, r, n - 1);
      var last := RptrAfter(dec, r, n - 1);
      NextRptrKeepsGrid(dec, last);
      ContinuesUnlessSlips(dec, last);
      AddOnRing(dec, last, r + ISO_SIZE * (n - 1));
    }
  }

  /** Only the read that begins eight samples before the end of the ring meets it. */
  lemma OffsetOnGrid(dec: nat, r: nat)
    requires IsDecSize(dec) && r % 8 == 0
    ensures r % (4 * dec) + ISO_SIZE <= 4 * dec || r % (4 * dec) == 4 * dec - ISO_SIZE / 2
  {
    var m, offset := 4 * dec, r % (4 * dec);
    var q := r / m;
    assert r == q * m + offset;
    assert q * m == 8 * (q * (dec / 2)) by {
      assert m == 8 * (dec / 2);
    }
    assert offset == 8 * (r / 8 - q * (dec / 2));
  }

  lemma AddOnRing(dec: nat, a: nat, b: nat)
    requires IsDecSize(dec) && a % (4 * dec) == b % (4 * dec)
    ensures (a + ISO_SIZE) % (4 * dec) == (b + ISO_SIZE) % (4 * dec)
  {
    StepAround(a, ISO_SIZE, 4 * dec);
    StepAround(b, ISO_SIZE, 4 * dec);
  }

  /** Off the grid, the reads run straight up to the one that slips. */
  lemma {:induction false} StraightRun(dec: nat, r: nat, n: nat)
    requires IsDecSize(dec) && dec != 256 && r + ISO_SIZE * n < 256 * dec
    ensures RptrAfter(dec, r, n) == r + ISO_SIZE * n
  {
    hide NextRptr;
    if n == 0 {
    } else {
      StraightRun(dec, r, n - 1);
      NextRptrIs(dec, r + ISO_SIZE * (n - 1));
    }
  }

  /** Playback goes on without a break for ever exactly from a pointer that is a multiple of 16. */
  lemma PlaysOnExactly(dec: nat, r: nat)
    requires IsDecSize(dec) && IsRptr(dec, r)
    ensures PlaysOn(dec, r) <==> dec == 256 || r % 16 == 0
  {
    if dec == 256 || r % 16 == 0 {
      forall n: nat ensures RptrAfter(dec, r, n) % (4 * dec) == (r + ISO_SIZE * n) % (4 * dec) {
        OnTheGrid(dec, r, n);
      }
    } else {
      var n := (256 * dec - 8 - r) / ISO_SIZE;
      assert r + ISO_SIZE * n == 256 * dec - 8;
      StraightRun(dec, r, n);
      ContinuesUnlessSlips(dec, r + ISO_SIZE * n);
      assert RptrAfter(dec, r, n + 1) % (4 * dec) != (r + ISO_SIZE * (n + 1)) % (4 * dec);
    }
  }

  lemma PacketStart(dec: nat, wptr: Byte)
    requires IsDecSize(dec)
    ensures 0 <= wptr * dec < 256 * dec && wptr * dec % 8 == 0
    ensures dec != 256 ==> (wptr * dec % 16 == 0 <==> dec == 240 || wptr % 2 == 0)
  {
    assert 0 <= wptr * dec <= 255 * dec;
    if dec == 240 {
      RemainderIs(wptr * dec, 8, 30 * wptr, 0);
      RemainderIs(wptr * dec, 16, 15 * wptr, 0);
    } else if dec == 248 {
      RemainderIs(wptr * dec, 8, 31 * wptr, 0);
      RemainderIs(wptr * dec, 16, 15 * wptr + wptr / 2, wptr % 2 * 8);
    } else {
      RemainderIs(wptr * dec, 8, 32 * wptr, 0);
    }
  }

  /**
   After a resynchronisation to packet `wptr` the Telink build plays on for ever exactly when `wptr` is
   even, the HID and Google builds always.
   */
  lemma PlaysOnAfterReset(dec: nat, wptr: Byte)
    requires IsDecSize(dec)
    ensures IsRptr(dec, wptr * dec)
    ensures PlaysOn(dec, wptr * dec) <==> dec != 248 || wptr % 2 == 0
  {
    PacketStart(dec, wptr);
    PlaysOnExactly(dec, wptr * dec);
  }

  // ----- places in the ring

  /** Packet `reading` at sample `off`, and the `e`-th sample from its start, which may lie in the next packet. */
  function PacketOf(dec: nat, reading: nat, e: nat): nat { if e < dec then reading else reading + 1 }

  function OffsetOf(dec: nat, e: nat): nat { if e < dec then e else e - dec }

  /** Offsets the reads can have: multiples of 16 where the packets are. */
  predicate OnGrid(dec: nat, off: nat) { off < dec && off % 8 == 0 && (dec != 248 ==> off % 16 == 0) }

  /** `slot * dec`, split off a whole number of turns. */
  lemma TurnsOf(dec: nat, p: nat)
    ensures p * dec == p / 4 * (4 * dec) + p % 4 * dec
  {
    assert p == p / 4 * 4 + p % 4;
    assert p * dec == p / 4 * 4 * dec + p % 4 * dec;
    assert p / 4 * 4 * dec == p / 4 * (4 * dec);
  }

  lemma RingIndex(dec: nat, p: nat, e: nat)
    requires e < 2 * dec
    ensures (p * dec + e) % (4 * dec) == SlotAt(PacketOf(dec, p, e) % 4, dec) + OffsetOf(dec, e)
  {
    TurnsOf(dec, p);
    if e < dec {
      SlotAtIsProduct(p % 4, dec);
      OneTurn(dec, p / 4, p % 4, e);
    } else {
      SlotAtIsProduct((p + 1) % 4, dec);
      TurnsOf(dec, p + 1);
      OneTurn(dec, (p + 1) / 4, (p + 1) % 4, e - dec);
      assert (p + 1) * dec == p * dec + dec;
    }
  }

  lemma OneTurn(dec: nat, a: nat, b: nat, e: nat)
    requires b < 4 && e < dec
    ensures (a * (4 * dec) + b * dec + e) % (4 * dec) == b * dec + e
  {
    UpTo4(b, dec);
    assert a * (4 * dec) >= 0;
    RemainderIs(a * (4 * dec) + b * dec + e, 4 * dec, a, b * dec + e);
  }

  lemma UpTo4(b: nat, dec: nat)
    requires b < 4
    ensures 0 <= b * dec <= 3 * dec
  {
    assert b * dec <= 3 * dec;
  }

  /** Where the offset stands after a read from `off`, and whether the pointer was reset before its packet's end. */
  function NextOff(dec: nat, p: Byte, off: nat): nat {
    if off + ISO_SIZE < dec then off + ISO_SIZE else if off + ISO_SIZE > dec && p != 255 then off + ISO_SIZE - dec else 0
  }

  lemma NextPlace(dec: nat, p: Byte, off: nat)
    requires IsDecSize(dec) && OnGrid(dec, off)
    ensures NextRptr(dec, p * dec + off) == (if off + ISO_SIZE < dec then p else Next(p)) * dec + NextOff(dec, p, off)
    ensures OnGrid(dec, NextOff(dec, p, off))
  {
    hide IsDecSize, OnGrid, NextRptr;
    NextOffOnGrid(dec, p, off);
    PacketBounds(dec, p);
    NextRptrIs(dec, p * dec + off);
  }

  lemma PacketBounds(dec: nat, p: Byte)
    ensures 0 <= p * dec && p * dec + dec == (p + 1) * dec
    ensures if p == 255 then p * dec + dec == 256 * dec else p * dec + 2 * dec <= 256 * dec
  {
    if p < 255 {
      assert (254 - p) * dec >= 0;
    }
  }

  lemma NextOffOnGrid(dec: nat, p: Byte, off: nat)
    requires IsDecSize(dec) && OnGrid(dec, off)
    ensures off < dec && dec > ISO_SIZE && (dec == 256 ==> off + ISO_SIZE <= dec)
    ensures OnGrid(dec, NextOff(dec, p, off))
  {
  }

  // ----- what the ring holds

  function Silence(n: nat): (out: seq<Sample>)
    ensures |out| == n
  {
    seq(n, _ => 0)
  }

  /** What one slot holds: nothing yet, or the block decoded for packet position `at` from encoder frame `frame`. */
  datatype Held = Nothing | Block(at: int, frame: nat, pcm: seq<Sample>)
  {
    function Pcm(dec: nat): seq<Sample> { if Nothing? then Silence(dec) else pcm }
    /** Pointers that start again at 0 make every block one of an earlier time. */
    function Aged(): Held { if Nothing? then this else Block(-1, frame, pcm) }
  }

  ghost predicate SlotIs(a: seq<int>, dec: nat, s: nat, h: Held) {
    && |h.Pcm(dec)| == dec && SlotAt(s, dec) + dec <= |a|
    && a[SlotAt(s, dec)..SlotAt(s, dec) + dec] == h.Pcm(dec)
  }

  ghost predicate HeldIn(a: seq<int>, dec: nat, held: seq<Held>) {
    && |a| == SlotAt(4, dec) && |held| == 4
    && forall s :: 0 <= s < 4 ==> SlotIs(a, dec, s, held[s])
  }

  /** Every packet from `reading` on, before `position`, is in its slot. */
  ghost predicate Fresh(held: seq<Held>, reading: nat, position: nat)
    requires |held| == 4
  {
    position <= reading + 4 && forall q :: reading <= q < position ==> HoldsOwn(held, q)
  }

  /** No block is of a position still to come. */
  ghost predicate Before(held: seq<Held>, position: nat) {
    forall s :: 0 <= s < |held| ==> held[s].Block? ==> held[s].at < position
  }

  lemma NothingHeld(a: seq<int>, dec: nat)
    requires |a| == SlotAt(4, dec) && forall k :: 0 <= k < |a| ==> a[k] == 0
    ensures HeldIn(a, dec, [Nothing, Nothing, Nothing, Nothing])
  {
    hide SlotAt;
    var held := [Nothing, Nothing, Nothing, Nothing];
    forall s | 0 <= s < 4 ensures SlotIs(a, dec, s, held[s]) {
      SlotsInOrder(s, 4, dec);
    }
  }

  function Aged(held: seq<Held>): (r: seq<Held>)
    ensures |r| == |held|
  {
    seq(|held|, s requires 0 <= s < |held| => held[s].Aged())
  }

  lemma AgedHolds(a: seq<int>, dec: nat, held: seq<Held>)
    requires HeldIn(a, dec, held)
    ensures HeldIn(a, dec, Aged(held)) && Before(Aged(held), 0)
  {
    forall s | 0 <= s < 4 ensures SlotIs(a, dec, s, Aged(held)[s]) {
      assert SlotIs(a, dec, s, held[s]);
    }
  }

  lemma OtherSlotKept(a: seq<int>, dec: nat, at: nat, bs: seq<int>, from: nat)
    requires at + |bs| <= |a| && from + dec <= |a| && (at + |bs| <= from || from + dec <= at)
    ensures Overwrite(a, at, bs)[from..from + dec] == a[from..from + dec]
  {
  }

  /** Decoding into a slot replaces what it held, and nothing else. */
  lemma WriteBlock(a: seq<int>, dec: nat, held: seq<Held>, slot: nat, h: Held)
    requires HeldIn(a, dec, held) && slot < 4 && h.Block? && |h.pcm| == dec
    ensures SlotAt(slot, dec) + dec <= |a|
    ensures HeldIn(Overwrite(a, SlotAt(slot, dec), h.pcm), dec, held[slot := h])
  {
    hide Overwrite, SlotAt;
    SlotsInOrder(slot, 4, dec);
    OwnSlot(a, SlotAt(slot, dec), h.pcm);
    var b, next := Overwrite(a, SlotAt(slot, dec), h.pcm), held[slot := h];
    forall s | 0 <= s < 4 ensures SlotIs(b, dec, s, next[s]) {
      SlotsInOrder(s, 4, dec);
      if s < slot {
        SlotsInOrder(s, slot, dec);
      } else if s > slot {
        SlotsInOrder(slot, s, dec);
      }
      if s != slot {
        assert SlotIs(a, dec, s, held[s]);
        OtherSlotKept(a, dec, SlotAt(slot, dec), h.pcm, SlotAt(s, dec));
      }
    }
  }

  lemma FreshNext(held: seq<Held>, reading: nat, position: nat, h: Held)
    requires |held| == 4 && Fresh(held, reading, position) && position < reading + 4 && h.Block? && h.at == position
    ensures Fresh(held[position % 4 := h], reading, position + 1)
  {
    var next := held[position % 4 := h];
    forall q | reading <= q < position + 1 ensures HoldsOwn(next, q) {
      if q < position {
        assert HoldsOwn(held, q) && q % 4 != position % 4;
      }
    }
  }

  // ----- one read

  /** The `e`-th sample from the start of packet `reading`, as the slots hold it. */
  function SampleAt(held: seq<Held>, dec: nat, reading: nat, e: nat): Sample
    requires |held| == 4
  {
    var pcm, o := held[PacketOf(dec, reading, e) % 4].Pcm(dec), OffsetOf(dec, e);
    if o < |pcm| then pcm[o] else 0
  }

  /** A read at `reading` and `off` sends what the slots of its packets hold. */
  function SentFrom(held: seq<Held>, dec: nat, reading: nat, off: nat): (out: seq<Sample>)
    requires |held| == 4
    ensures |out| == ISO_SIZE
  {
    seq<Sample>(ISO_SIZE, i requires 0 <= i < ISO_SIZE => SampleAt(held, dec, reading, off + i))
  }

  /** The slot of packet position `q` holds that packet's block. */
  predicate HoldsOwn(held: seq<Held>, q: nat)
    requires |held| == 4
  {
    held[q % 4].Block? && held[q % 4].at == q
  }

  /** Both the packet where the read begins and the one where it ends are in their slots. */
  predicate OwnBlocks(held: seq<Held>, dec: nat, reading: nat, off: nat)
    requires |held| == 4
  {
    HoldsOwn(held, reading) && (off + ISO_SIZE > dec ==> HoldsOwn(held, reading + 1))
  }

  /**
   When every packet is in its slot, a read sends the samples it should exactly when two packets are ahead or
   the read stays in its packet.
   */
  lemma OwnExactly(held: seq<Held>, dec: nat, reading: nat, off: nat, position: nat)
    requires |held| == 4 && IsDecSize(dec) && OnGrid(dec, off) && reading < position
    requires Fresh(held, reading, position) && Before(held, position)
    ensures OwnBlocks(held, dec, reading, off) <==> position - reading >= 2 || off + ISO_SIZE <= dec
  {
    assert HoldsOwn(held, reading);
    if position - reading >= 2 {
      assert HoldsOwn(held, reading + 1);
    }
  }

  lemma GridOfPointer(dec: nat, p: Byte, off: nat)
    requires IsDecSize(dec) && OnGrid(dec, off)
    ensures (p * dec + off) % 8 == 0
  {
    PacketStart(dec, p);
    RemainderIs(p * dec + off, 8, p * dec / 8 + off / 8, 0);
  }

  lemma ReadFromSlots(a: seq<int>, dec: nat, held: seq<Held>, reading: nat, off: nat, out: seq<Sample>)
    requires |held| == 4 && HeldIn(a, dec, held) && IsDecSize(dec) && off < dec && |a| == 4 * dec
    requires |out| == ISO_SIZE && forall i :: 0 <= i < ISO_SIZE ==> out[i] == a[(Ptr(reading) * dec + off + i) % (4 * dec)]
    ensures out == SentFrom(held, dec, reading, off)
  {
    hide HeldIn, SampleAt;
    forall i | 0 <= i < ISO_SIZE ensures out[i] == SentFrom(held, dec, reading, off)[i] {
      SampleFromSlot(a, dec, held, reading, off + i);
    }
  }

  lemma SampleFromSlot(a: seq<int>, dec: nat, held: seq<Held>, reading: nat, e: nat)
    requires HeldIn(a, dec, held) && e < 2 * dec && |a| == 4 * dec && dec > 0
    ensures a[(Ptr(reading) * dec + e) % (4 * dec)] == SampleAt(held, dec, reading, e)
  {
    hide SlotAt, HeldIn, SlotIs;
    RingIndex(dec, Ptr(reading), e);
    SlotOfPacket(dec, reading, e);
    SlotContents(a, dec, held, PacketOf(dec, reading, e) % 4, OffsetOf(dec, e));
  }

  lemma SlotOfPacket(dec: nat, reading: nat, e: nat)
    ensures PacketOf(dec, Ptr(reading), e) % 4 == PacketOf(dec, reading, e) % 4
  {
    PtrSlot(reading);
    EighthsAgree(Ptr(reading), reading);
  }

  lemma EighthsAgree(a: nat, b: nat)
    requires a % 4 == b % 4
    ensures (a + 1) % 4 == (b + 1) % 4
  {
  }

  lemma SlotContents(a: seq<int>, dec: nat, held: seq<Held>, s: nat, o: nat)
    requires HeldIn(a, dec, held) && s < 4 && o < dec
    ensures SlotAt(s, dec) + o < |a| && o < |held[s].Pcm(dec)| && a[SlotAt(s, dec) + o] == held[s].Pcm(dec)[o]
  {
    hide SlotAt;
    assert SlotIs(a, dec, s, held[s]);
    assert a[SlotAt(s, dec)..SlotAt(s, dec) + dec][o] == a[SlotAt(s, dec) + o];
  }

  /**
   The decoded-packet ring and the globals that `abuf_mic_dec` and `abuf_dec_usb` share: `abuf_dec`,
   `abuf_dec_wptr`, `abuf_dec_rptr` and `abuf_reset`.
   */
  class Playback {
    const dec: nat
    /** Whether the build sends zeros while it has nothing to play; the others send an empty packet. */
    const zeros: bool
    const abufDec: array<Sample>
    var abufDecWptr: Byte
    var abufDecRptr: nat
    var abufReset: nat
    var bufferEmpty: bool
    var nUsbIso: Byte
    /** The packet position of the write pointer, and packet position and offset of the read pointer. */
    ghost var position: nat
    ghost var reading: nat
    ghost var off: nat
    ghost var held: seq<Held>
    /** Whether since the last resynchronisation a packet was skipped or decoded over one still to be read. */
    ghost var disturbed: bool

    ghost predicate Valid()
      reads this, abufDec
    {
      Pointers() && HeldIn(abufDec[..], dec, held)
    }

    ghost predicate Pointers()
      reads this
    {
      && IsDecSize(dec) && abufDec.Length == SlotAt(4, dec) == 4 * dec
      && abufDecWptr == Ptr(position) && abufDecRptr == Ptr(reading) * dec + off && OnGrid(dec, off)
      && |held| == 4 && Before(held, position)
      && (abufReset == 0 ==> Near())
    }

    ghost predicate Near()
      requires |held| == 4
      reads this
    {
      reading <= position <= reading + 6 && (!disturbed ==> Fresh(held, reading, position))
    }

    constructor (dec: nat, zeros: bool, abufDec: array<Sample>)
      requires IsDecSize(dec) && abufDec.Length == 4 * dec && forall k :: 0 <= k < abufDec.Length ==> abufDec[k] == 0
      ensures Valid() && this.dec == dec && this.zeros == zeros && this.abufDec == abufDec
      ensures position == reading == off == abufReset == 0 && bufferEmpty && !disturbed
      ensures held == [Nothing, Nothing, Nothing, Nothing]
    {
      this.dec, this.zeros, this.abufDec := dec, zeros, abufDec;
      abufDecWptr, abufDecRptr, abufReset, bufferEmpty, nUsbIso := 0, 0, 0, true, 0;
      position, reading, off, disturbed := 0, 0, 0, false;
      held := [Nothing, Nothing, Nothing, Nothing];
      new;
      SlotAtIsProduct(4, dec);
      NothingHeld(abufDec[..], dec);
    }

    /** The decoded-packet part of `abuf_init` */
    method AbufInit()
      requires Valid()
      modifies `abufDecWptr, `abufReset, `position, `held
      ensures Valid() && position == 0 && abufReset == 16
      ensures held == Aged(old(held))
    {
      abufDecWptr, abufReset := 0, 16;
      position := 0;
      held := Aged(held);
      AgedHolds(abufDec[..], dec, old(held));
    }

    /** `abuf_dec_wptr++` after the decoder has filled the slot, as `block` says. */
    method Decoded(ghost block: Held, ghost data: seq<int>)
      requires Pointers() && HeldIn(data, dec, held) && block.Block? && block.at == position && |block.pcm| == dec
      requires SlotAt(position % 4, dec) + dec <= |data|
      requires abufDec[..] == Overwrite(data, SlotAt(position % 4, dec), block.pcm)
      requires abufReset == 0 ==> position <= reading + 5
      modifies `abufDecWptr, `position, `held, `disturbed
      ensures Valid() && position == old(position) + 1 && held == old(held)[old(position) % 4 := block]
      ensures disturbed == (old(disturbed) || old(position) >= reading + 4)
    {
      hide Overwrite, HeldIn, SlotIs;
      WriteBlock(data, dec, held, position % 4, block);
      PtrNext(position);
      if !disturbed && reading <= position < reading + 4 && Fresh(held, reading, position) {
        FreshNext(held, reading, position, block);
      }
      disturbed := disturbed || position >= reading + 4;
      abufDecWptr := Next(abufDecWptr);
      held := held[position % 4 := block];
      position := position + 1;
    }

    /** `abuf_dec_wptr++` past a packet that is not decoded. */
    method Skip()
      requires Valid() && (abufReset == 0 ==> position <= reading + 5)
      modifies `abufDecWptr, `position, `disturbed
      ensures Valid() && position == old(position) + 1 && disturbed
    {
      hide HeldIn;
      PtrNext(position);
      abufDecWptr := Next(abufDecWptr);
      position := position + 1;
      disturbed := true;
    }

    /** `abuf_dec_wptr = abuf_mic_wptr` while a reset is pending */
    method FollowMic(micWptr: Byte, ghost n: nat)
      requires Valid() && abufReset > 0 && micWptr == Ptr(n) && position <= n
      modifies `abufDecWptr, `position
      ensures Valid() && position == n
    {
      hide HeldIn;
      abufDecWptr := micWptr;
      position := n;
    }

    /** `abuf_dec_rptr = abuf_dec_wptr * MIC_SHORT_DEC_SIZE` */
    method Resynchronise()
      requires Valid()
      modifies `abufDecRptr, `reading, `off, `disturbed
      ensures Valid() && reading == position && off == 0 && !disturbed
    {
      hide HeldIn;
      abufDecRptr := abufDecWptr * dec;
      reading, off, disturbed := position, 0, false;
    }

    /** `num_dec`, the decoded packets that the USB side is behind */
    method NumDec() returns (n: nat)
      requires Valid()
      ensures n < 256 && (Near() ==> n == position - reading)
    {
      hide HeldIn;
      RemainderIs(abufDecRptr, dec, Ptr(reading), off);
      if Near() {
        PtrDistance(reading, position);
      }
      n := (abufDecWptr - abufDecRptr / dec) % 256;
    }

    /** The copy to the endpoint, in two parts when the read meets the end of the ring. */
    method ReadSplit() returns (out: seq<Sample>)
      requires Valid()
      ensures out == SentFrom(held, dec, reading, off)
    {
      hide HeldIn, SlotAt, SentFrom;
      var offset := abufDecRptr % (4 * dec);
      GridOfPointer(dec, Ptr(reading), off);
      OffsetOnGrid(dec, abufDecRptr);
      if offset == 4 * dec - ISO_SIZE / 2 {
        out := abufDec[offset..offset + ISO_SIZE / 2] + abufDec[..ISO_SIZE / 2];
      } else {
        out := abufDec[offset..offset + ISO_SIZE];
      }
      forall i | 0 <= i < ISO_SIZE ensures out[i] == abufDec[..][(abufDecRptr + i) % (4 * dec)] {
        StepAround(abufDecRptr, i, 4 * dec);
      }
      ReadFromSlots(abufDec[..], dec, held, reading, off, out);
    }

    /** The read pointer after 16 samples. */
    method MoveOn()
      requires Valid() && Near() && reading < position
      modifies `abufDecRptr, `reading, `off
      ensures Valid()
      ensures reading == old(reading) + if old(off) + ISO_SIZE >= dec then 1 else 0
      ensures off == NextOff(dec, Ptr(old(reading)), old(off))
    {
      hide HeldIn, NextOff, NextRptr;
      NextPlace(dec, Ptr(reading), off);
      PtrNext(reading);
      ghost var next := NextOff(dec, Ptr(reading), off);
      abufDecRptr := NextRptr(dec, abufDecRptr);
      reading := reading + if off + ISO_SIZE >= dec then 1 else 0;
      off := next;
    }

    /** One read */
    method Play() returns (out: seq<Sample>)
      requires Valid() && Near() && reading < position
      modifies `abufDecRptr, `reading, `off
      ensures Valid() && out == SentFrom(held, dec, old(reading), old(off))
      ensures reading == old(reading) + if old(off) + ISO_SIZE >= dec then 1 else 0
      ensures off == NextOff(dec, Ptr(old(reading)), old(off))
    {
      hide HeldIn, SentFrom, SlotAt, OnGrid, IsDecSize, Fresh, Before, NextOff;
      out := ReadSplit();
      MoveOn();
    }

    /** Where the read begins: a pending reset moves it to the write position. */
    ghost function StartPacket(late: bool): nat
      reads `abufReset, `position, `reading
    {
      if late || abufReset > 0 then position else reading
    }

    ghost function StartOff(late: bool): nat
      reads `abufReset, `off
    {
      if late || abufReset > 0 then 0 else off
    }

    /** The reset part of `abuf_dec_usb` */
    method Settle(late: bool)
      requires Valid()
      modifies `abufDecRptr, `abufReset, `reading, `off, `disturbed
      ensures Valid() && Near()
      ensures reading == old(StartPacket(late)) && off == old(StartOff(late))
      ensures abufReset == if late then 15 else if old(abufReset) > 0 then old(abufReset) - 1 else 0
      ensures disturbed == (old(disturbed) && !(late || old(abufReset) > 0))
    {
      hide HeldIn, SlotAt, OnGrid, IsDecSize, Before;
      if late {
        abufReset := 16;
      }
      if abufReset > 0 {
        Resynchronise();
        abufReset := abufReset - 1;
      }
    }

    /**
     `abuf_dec_usb`; `late` says that the last call was over 4 ms ago. After a gap nothing from the ring is sent
     until three packets are ahead.
     */
    method AbufDecUsb(late: bool) returns (playing: bool, out: seq<Sample>)
      requires Valid()
      modifies `abufDecRptr, `abufReset, `bufferEmpty, `nUsbIso, `reading, `off, `disturbed
      ensures Valid()
      ensures var num := position - old(StartPacket(late));
              && 0 <= num
              && (playing <==> num >= if old(bufferEmpty) then 3 else 1)
              && bufferEmpty == if num == 0 then true else old(bufferEmpty) && !playing
      ensures abufReset == if late then 15 else if old(abufReset) > 0 then old(abufReset) - 1 else 0
      ensures disturbed == (old(disturbed) && !(late || old(abufReset) > 0))
      ensures reading == old(StartPacket(late)) + if playing && old(StartOff(late)) + ISO_SIZE >= dec then 1 else 0
      ensures off == if playing then NextOff(dec, Ptr(old(StartPacket(late))), old(StartOff(late))) else old(StartOff(late))
      ensures playing ==> out == SentFrom(held, dec, old(StartPacket(late)), old(StartOff(late)))
      ensures !playing ==> out == if zeros then Silence(ISO_SIZE) else []
    {
      hide HeldIn, SentFrom, SlotAt, OnGrid, IsDecSize, Fresh, Before, NextOff, StartPacket, StartOff;
      nUsbIso := (nUsbIso + 1) % 256;
      Settle(late);
      out := if zeros then Silence(ISO_SIZE) else [];
      playing := false;
      var num := NumDec();
      var phase := nUsbIso % 4;
      if num != 0 {
        if (bufferEmpty && num >= 3) || (!bufferEmpty && (num >= 1 || phase != 0)) {
          bufferEmpty := false;
          playing := true;
          out := Play();
        }
      } else {
        bufferEmpty := true;
      }
    }
  }
}
