/**
 The dongle's ring of received packets, `abuf_mic` of application/audio/tl_audio.c. `abuf_mic_add` stores without
 looking for room, so a slot holds the latest packet that went into it.
 */
module ReceiveRings {
  import opened Modulo
  import opened PacketSlots

  /** The oldest of `n` packets that a ring of `num` still holds. */
  function OldestOf(n: nat, num: nat): nat { if n < num then 0 else n - num }

  /**
   The decoder fetches one byte behind the packet in a slot. That byte lies outside the array exactly for the
   last slot.
   */
  lemma LookaheadLeavesExactly(num: nat, size: nat, slot: nat)
    requires slot < num && size > 0
    ensures SlotAt(slot, size) + size >= SlotAt(num, size) <==> slot == num - 1
  {
    if slot == num - 1 {
      assert SlotAt(num, size) == SlotAt(slot, size) + size;
    } else {
      SlotsInOrder(slot + 1, num, size);
    }
  }

  class ReceiveRing {
    const num: nat
    const size: nat
    /** `abuf_mic`, and the byte behind it that the decoder fetches unused */
    const abufMic: array<Byte>
    var abufMicWptr: Byte
    /** Every packet received since the pointers were last reset. */
    ghost var received: seq<seq<Byte>>

    ghost predicate Valid()
      reads this, abufMic
    {
      && RingSize(num) && abufMic.Length == SlotAt(num, size) + 1
      && abufMicWptr == Ptr(|received|)
      && SlotsHold(abufMic[..], num, size, received, OldestOf(|received|, num))
      && forall k :: 0 <= k < |received| ==> |received[k]| == size
    }

    constructor (num: nat, size: nat, abufMic: array<Byte>)
      requires RingSize(num) && abufMic.Length == SlotAt(num, size) + 1
      ensures Valid() && received == []
      ensures this.num == num && this.size == size && this.abufMic == abufMic
    {
      this.num, this.size, this.abufMic := num, size, abufMic;
      abufMicWptr, received := 0, [];
    }

    /** `abuf_mic_wptr = 0` of `abuf_init` */
    method AbufInit()
      requires Valid()
      modifies `abufMicWptr, `received
      ensures Valid() && received == []
    {
      abufMicWptr, received := 0, [];
    }

    /** `abuf_mic_add`, whether or not there is room */
    method AbufMicAdd(p: seq<Byte>)
      requires Valid() && |p| == size
      modifies `abufMicWptr, `received, abufMic
      ensures Valid() && received == old(received) + [p]
    {
      hide SlotsHold, SlotAt, SlotOf;
      ghost var data := abufMic[..];
      WriteSlot(data, num, size, received, OldestOf(|received|, num), p);
      PtrSlotOf(|received|, num);
      PtrNext(|received|);
      CopyInto(abufMic, SlotAt(SlotOf(abufMicWptr, num), size), p);
      ghost var stored := abufMic[..];
      abufMicWptr := Next(abufMicWptr);
      received := received + [p];
      assert abufMic[..] == stored;
    }

    /** Where the packet that pointer `wptr` selects begins: for position `k` that is the latest in its slot. */
    method Offset(wptr: Byte, ghost k: nat) returns (at: nat)
      requires Valid() && wptr == Ptr(k)
      ensures at + size < abufMic.Length
      ensures k < |received| ==> received[LatestInSlot(k, |received|, num)] <= abufMic[at..]
    {
      hide SlotAt, SlotOf;
      PtrSlotOf(k, num);
      SlotsInOrder(SlotOf(wptr, num), num, size);
      at := SlotAt(SlotOf(wptr, num), size);
      if k < |received| {
        LatestSharesSlot(k, |received|, num);
        ghost var j := LatestInSlot(k, |received|, num);
        assert received[j] <= abufMic[..][SlotAt(SlotOf(j, num), size)..];
      }
    }

    /** `num_mic`, the packets still to decode, as an 8-bit count */
    method NumMic(wptr: Byte, ghost k: nat) returns (n: nat)
      requires Valid() && wptr == Ptr(k)
      ensures n < 256 && (k <= |received| ==> n == (|received| - k) % 256)
    {
      if k <= |received| {
        WrappedDistance(k, |received|);
      }
      n := (abufMicWptr - wptr) % 256;
    }
  }

  lemma {:induction false} WrappedDistance(head: nat, tail: nat)
    requires head <= tail
    ensures (Ptr(tail) - Ptr(head)) % 256 == (tail - head) % 256
    decreases tail
  {
    if tail < head + 256 {
      PtrDistance(head, tail);
    } else {
      WrappedDistance(head, tail - 256);
      OneTurnBack(tail - head, 256);
    }
  }
}
