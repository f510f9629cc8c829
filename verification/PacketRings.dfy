/**
 The packet rings of application/audio/tl_audio.c: fixed-size slots in a flat array and free-running
 8-bit pointers. A full history of the packets stored says what the slots hold.
 */
module PacketRings {
  import opened PacketSlots

  class PacketRing {
    const num: nat
    const size: nat
    const packets: array<Byte>
    var wptr: Byte
    var rptr: Byte
    /** Every packet stored so far, and how many of them have been read or dropped. */
    ghost var frames: seq<seq<Byte>>
    ghost var head: nat

    ghost predicate Valid()
      reads this, packets
    {
      Pointers() && |frames| <= head + num && SlotsHold(packets[..], num, size, frames, head)
    }

    ghost predicate Pointers()
      reads this
    {
      && RingSize(num)
      && head <= |frames| <= head + num + 1
      && wptr == Ptr(|frames|) && rptr == Ptr(head)
    }

    /** The first packet that is still in its slot once one more has been stored. */
    ghost function KeptFrom(): nat
      reads this
    {
      if |frames| == head + num then head + 1 else head
    }

    constructor (num: nat, size: nat, packets: array<Byte>)
      requires RingSize(num)
      requires packets.Length >= SlotAt(num, size)
      ensures Valid() && frames == [] && head == 0
      ensures this.num == num && this.size == size && this.packets == packets
    {
      this.num := num;
      this.size := size;
      this.packets := packets;
      wptr, rptr := 0, 0;
      frames, head := [], 0;
    }

    /** `wptr = rptr = 0` */
    method Restart()
      requires Valid()
      modifies `wptr, `rptr, `frames, `head
      ensures Valid() && frames == [] && head == 0
    {
      wptr, rptr := 0, 0;
      frames, head := [], 0;
    }

    /** Where the next packet goes: the slot `wptr & (num - 1)`. */
    method WriteOffset() returns (at: nat)
      requires Valid()
      ensures at == SlotAt(SlotOf(|frames|, num), size) && at + size <= packets.Length
    {
      PtrSlotOf(|frames|, num);
      SlotsInOrder(SlotOf(wptr, num), num, size);
      at := SlotAt(SlotOf(wptr, num), size);
    }

    /** `wptr++` */
    method Advance(ghost bytes: seq<Byte>)
      requires Pointers() && |frames| <= head + num
      modifies `wptr, `frames
      ensures Pointers() && frames == old(frames) + [bytes] && wptr == Next(old(wptr))
    {
      PtrNext(|frames|);
      wptr := Next(wptr);
      frames := frames + [bytes];
    }

    /** `wptr++`, once `bytes` are in their slot. */
    method Commit(ghost bytes: seq<Byte>)
      requires Pointers() && |frames| <= head + num
      requires SlotsHold(packets[..], num, size, frames + [bytes], KeptFrom())
      modifies `wptr, `frames
      ensures Pointers() && frames == old(frames) + [bytes]
      ensures SlotsHold(packets[..], num, size, frames, old(KeptFrom()))
    {
      hide SlotsHold;
      ghost var data := packets[..];
      Advance(bytes);
      assert packets[..] == data;
    }

    /** `((u8)(wptr - rptr) & (num * 2 - 1)) < num`, for the ring of four */
    method HasRoom() returns (room: bool)
      requires Valid() && num == 4
      ensures room <==> |frames| < head + num
    {
      PtrDistance(head, |frames|);
      room := (wptr - rptr) % 8 < 4;
    }

    /** `pkts = (wptr - rptr) & (num * 2 - 1); if (pkts > num) rptr++`, for the ring of four */
    method DropExcess()
      requires Pointers() && num == 4
      requires SlotsHold(packets[..], num, size, frames, if |frames| > head + num then head + 1 else head)
      modifies `rptr, `head
      ensures Valid() && head == old(if |frames| > head + num then head + 1 else head)
    {
      PtrDistance(head, |frames|);
      PtrNext(head);
      var pkts := (wptr - rptr) % 8;
      if pkts > 4 {
        rptr := Next(rptr);
        head := head + 1;
      }
    }

    /** `(u8)(wptr - rptr)` */
    method Count() returns (n: nat)
      requires Valid()
      ensures n == |frames| - head
    {
      PtrDistance(head, |frames|);
      n := (wptr - rptr) % 256;
    }

    /** `mic_encoder_data_buffer`: where the oldest packet starts, or nothing when the ring is empty. */
    method DataBuffer() returns (nonEmpty: bool, at: nat)
      requires Valid()
      ensures nonEmpty <==> head < |frames|
      ensures at + size <= SlotAt(num, size) <= packets.Length
      ensures nonEmpty ==> frames[head] <= packets[at..]
    {
      PtrDistance(head, |frames|);
      PtrSlotOf(head, num);
      SlotsInOrder(SlotOf(rptr, num), num, size);
      nonEmpty := rptr != wptr;
      at := SlotAt(SlotOf(rptr, num), size);
      assert nonEmpty ==> frames[head] <= packets[..][at..];
    }

    /** `mic_encoder_data_read_ok`, which does not look for a packet: the ring stays sound exactly if there was one. */
    method DataReadOk()
      requires Valid()
      modifies `rptr, `head
      ensures head == old(head) + 1 && rptr == Next(old(rptr))
      ensures Valid() <==> old(head) < |frames|
    {
      PtrNext(head);
      rptr := Next(rptr);
      head := head + 1;
    }
  }
}
