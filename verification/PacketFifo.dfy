/**
 `my_fifo_t` of common/utility.c: a bounded queue of packets, each stored in its slot behind a two-byte
 length. Its fields `size`, `num`, `wptr`, `rptr` and `p` are those of a `PacketRing`.
 */
module PacketFifo {
  import opened PacketSlots
  import opened PacketRings

  /** What a slot starts with: the length, low byte first, and the data. */
  function Entry(p: seq<Byte>): (e: seq<Byte>)
    ensures |e| == |p| + 2
  {
    [LowByte(|p|), HighByte(|p|)] + p
  }

  /** The length a reader finds in a slot. */
  function LengthIn(slot: seq<int>): int
    requires |slot| >= 2
  {
    slot[0] + 256 * slot[1]
  }

  /** The stored length is the packet's exactly when it fits sixteen bits. */
  lemma LengthIsKept(p: seq<Byte>)
    ensures LengthIn(Entry(p)) == |p| <==> |p| < 65536
  {
    var n := |p|;
    assert n == 256 * (n / 256) + n % 256;
    if n >= 65536 {
      assert n / 256 >= 256;
    }
  }

  function Entries(ps: seq<seq<Byte>>): (es: seq<seq<Byte>>)
    ensures |es| == |ps|
  {
    seq(|ps|, k requires 0 <= k < |ps| => Entry(ps[k]))
  }

  lemma EntriesNext(ps: seq<seq<Byte>>, p: seq<Byte>)
    ensures Entries(ps + [p]) == Entries(ps) + [Entry(p)]
  {
  }

  /** `(unsigned int)n` of a 32-bit integer */
  function Unsigned(n: int): int { if n < 0 then n + 0x1_0000_0000 else n }

  // ----- what an overrun does to the queue

  /** Packet `k` is whole in its slot. */
  ghost predicate Whole(a: seq<int>, num: nat, size: nat, p: seq<Byte>, k: nat)
    requires num > 0
  {
    SlotAt(SlotOf(k, num), size) <= |a| && Entry(p) <= a[SlotAt(SlotOf(k, num), size)..]
  }

  lemma OverwriteElsewhere(a: seq<int>, at: nat, bs: seq<int>, other: nat, cs: seq<int>)
    requires at + |bs| <= |a| && other + |cs| <= |a| && (at + |bs| <= other || other + |cs| <= at)
    requires cs <= a[other..]
    ensures cs <= Overwrite(a, at, bs)[other..]
  {
  }

  /** The slot behind that of packet `n` is the slot of packet `n + 1`, but for the last one. */
  lemma {:induction false} NextSlot(n: nat, num: nat)
    requires num > 0
    ensures SlotOf(n + 1, num) == if SlotOf(n, num) + 1 < num then SlotOf(n, num) + 1 else 0
  {
    if n < num {
    } else {
      NextSlot(n - num, num);
    }
  }

  /** Of the packets waiting only the oldest of a nearly full queue can be in the slot behind the next one. */
  lemma BehindIsOldest(k: nat, n: nat, num: nat)
    requires num > 0 && k < n < k + num
    ensures SlotOf(k, num) == SlotOf(n, num) + 1 <==> k + num == n + 1 && SlotOf(n, num) + 1 < num
  {
    hide SlotOf;
    NextSlot(n, num);
    if n + 1 < k + num {
      SlotsApart(num, k, n + 1);
    } else {
      OneTurnOn(k, num);
    }
  }

  lemma OneTurnOn(k: nat, num: nat)
    requires num > 0
    ensures SlotOf(k + num, num) == SlotOf(k, num)
  {
  }

  /** What a push that overruns its slot by a byte does to one waiting packet. */
  lemma OverrunMeets(a: seq<int>, num: nat, size: nat, q: seq<Byte>, k: nat, n: nat, p: seq<Byte>)
    requires num > 0 && k < n < k + num && |p| > 0 && |p| == size - 1 && |Entry(q)| <= size
    requires |a| >= SlotAt(num, size) && SlotAt(SlotOf(n, num), size) + size < |a| && Whole(a, num, size, q, k)
    ensures Whole(Overwrite(a, SlotAt(SlotOf(n, num), size), Entry(p)), num, size, q, k)
       <==> (k + num == n + 1 && SlotOf(n, num) + 1 < num ==> p[|p| - 1] == LowByte(|q|))
  {
    hide SlotOf, SlotAt, Overwrite;
    var s, j := SlotOf(n, num), SlotOf(k, num);
    var at, other := SlotAt(s, size), SlotAt(j, size);
    SlotsApart(num, k, n);
    BehindIsOldest(k, n, num);
    SlotsInOrder(j, num, size);
    if j == s + 1 {
      AdjacentSlots(s, size);
      MeetsFirstByte(a, at, p, other, q);
    } else {
      if j < s {
        SlotsInOrder(j, s, size);
      } else {
        AdjacentSlots(s, size);
        SlotsInOrder(s + 1, j, size);
      }
      OverwriteElsewhere(a, at, Entry(p), other, Entry(q));
    }
  }

  lemma AdjacentSlots(s: nat, size: nat)
    ensures SlotAt(s + 1, size) == SlotAt(s, size) + size
  {
  }

  lemma MeetsFirstByte(a: seq<int>, at: nat, p: seq<Byte>, other: nat, q: seq<Byte>)
    requires |p| > 0 && other == at + |Entry(p)| - 1 && other + |Entry(q)| <= |a| && Entry(q) <= a[other..]
    ensures at + |Entry(p)| <= |a|
    ensures Entry(q) <= Overwrite(a, at, Entry(p))[other..] <==> p[|p| - 1] == LowByte(|q|)
  {
    var b := Overwrite(a, at, Entry(p));
    assert b[other..][0] == b[other] == p[|p| - 1];
    assert forall i :: 0 < i < |Entry(q)| ==> b[other..][i] == a[other..][i];
  }

  /**
   A packet one byte short of the slot size breaks the queue, so that a later `my_fifo_get` returns a wrong packet,
   exactly when the queue was one short of full, the packet's slot is not the last, and its last byte is not the
   low length byte of the oldest packet.
   */
  lemma OverrunBreaksExactly(a: seq<int>, num: nat, size: nat, ps: seq<seq<Byte>>, head: nat, p: seq<Byte>)
    requires RingSize(num) && SlotsHold(a, num, size, Entries(ps), head) && head <= |ps| < head + num
    requires |p| > 0 && |p| == size - 1 && SlotAt(SlotOf(|ps|, num), size) + size < |a|
    ensures var b := Overwrite(a, SlotAt(SlotOf(|ps|, num), size), Entry(p));
            && Whole(b, num, size, p, |ps|)
            && ((forall k :: head <= k < |ps| ==> Whole(b, num, size, ps[k], k)) <==>
                !(|ps| - head == num - 1 > 0 && SlotOf(|ps|, num) + 1 < num && p[|p| - 1] != LowByte(|ps[head]|)))
  {
    hide SlotOf, SlotAt, Overwrite, Whole, SlotsHold, Entries;
    var n := |ps|;
    var b := Overwrite(a, SlotAt(SlotOf(n, num), size), Entry(p));
    WrittenIsWhole(a, num, size, p, n);
    forall k | head <= k < n
      ensures Whole(b, num, size, ps[k], k)
         <==> (k + num == n + 1 && SlotOf(n, num) + 1 < num ==> p[|p| - 1] == LowByte(|ps[k]|))
    {
      HeldIsWhole(a, num, size, ps, head, k);
      OverrunMeets(a, num, size, ps[k], k, n, p);
    }
    var broken := n - head == num - 1 > 0 && SlotOf(n, num) + 1 < num && p[|p| - 1] != LowByte(|ps[head]|);
    if broken {
      assert !Whole(b, num, size, ps[head], head);
    } else {
      assert forall k :: head <= k < n ==> Whole(b, num, size, ps[k], k);
    }
  }

  lemma HeldIsWhole(a: seq<int>, num: nat, size: nat, ps: seq<seq<Byte>>, head: nat, k: nat)
    requires RingSize(num) && SlotsHold(a, num, size, Entries(ps), head) && head <= k < |ps|
    ensures Whole(a, num, size, ps[k], k) && |Entry(ps[k])| <= size && |a| >= SlotAt(num, size)
  {
    hide SlotOf, SlotAt;
    assert Entries(ps)[k] == Entry(ps[k]);
  }

  lemma WrittenIsWhole(a: seq<int>, num: nat, size: nat, p: seq<Byte>, n: nat)
    requires num > 0 && SlotAt(SlotOf(n, num), size) + |Entry(p)| <= |a|
    ensures Whole(Overwrite(a, SlotAt(SlotOf(n, num), size), Entry(p)), num, size, p, n)
  {
    OwnSlot(a, SlotAt(SlotOf(n, num), size), Entry(p));
  }

  /** The packet itself is broken by the next push, exactly when its slot is not the last and the two bytes differ. */
  lemma NextPushBreaksExactly(a: seq<int>, num: nat, size: nat, n: nat, p: seq<Byte>, q: seq<Byte>)
    requires num > 1 && |p| > 0 && |p| == size - 1 && |Entry(q)| <= size && |a| >= SlotAt(num, size)
    requires SlotAt(SlotOf(n, num), size) + size < |a| && Whole(a, num, size, p, n)
    ensures SlotAt(SlotOf(n + 1, num), size) + |Entry(q)| <= |a|
    ensures Whole(Overwrite(a, SlotAt(SlotOf(n + 1, num), size), Entry(q)), num, size, p, n)
       <==> (SlotOf(n, num) + 1 < num ==> p[|p| - 1] == LowByte(|q|))
  {
    hide SlotOf, SlotAt, Overwrite;
    var s := SlotOf(n, num);
    NextSlot(n, num);
    SlotsInOrder(SlotOf(n + 1, num), num, size);
    AdjacentSlots(s, size);
    if s + 1 < num {
      MeetsLastByte(a, SlotAt(s, size), p, SlotAt(s + 1, size), q);
    } else {
      SlotsInOrder(0, s, size);
      OverwriteElsewhere(a, SlotAt(0, size), Entry(q), SlotAt(s, size), Entry(p));
    }
  }

  lemma MeetsLastByte(a: seq<int>, at: nat, p: seq<Byte>, other: nat, q: seq<Byte>)
    requires |p| > 0 && other == at + |Entry(p)| - 1 && other + |Entry(q)| <= |a| && Entry(p) <= a[at..]
    ensures Entry(p) <= Overwrite(a, other, Entry(q))[at..] <==> p[|p| - 1] == LowByte(|q|)
  {
    var b := Overwrite(a, other, Entry(q));
    assert b[at..][|p| + 1] == b[other] == LowByte(|q|) && Entry(p)[|p| + 1] == p[|p| - 1];
    assert forall i :: 0 <= i < |p| + 1 ==> b[at..][i] == a[at..][i];
  }

  class MyFifo {
    const ring: PacketRing
    /** Every packet pushed so far; the first `ring.head` of them have been popped. */
    ghost var pushed: seq<seq<Byte>>

    ghost predicate Valid()
      reads this, ring, ring.packets
    {
      ring.Valid() && ring.frames == Entries(pushed)
    }

    /** The packets waiting, oldest first. */
    ghost function Queue(): (q: seq<seq<Byte>>)
      reads this, ring, ring.packets
      requires Valid()
      ensures |q| <= ring.num
    {
      pushed[ring.head..]
    }

    /** `my_fifo_init` */
    constructor (size: nat, num: nat, p: array<Byte>)
      requires RingSize(num) && p.Length >= SlotAt(num, size)
      ensures Valid() && Queue() == pushed == [] && ring.head == 0
      ensures fresh(ring) && ring.packets == p && ring.num == num && ring.size == size
    {
      ring := new PacketRing(num, size, p);
      pushed := [];
    }

    /** `my_fifo_wptr`: where the next entry goes, or nothing when the queue is full */
    method WPtr() returns (room: bool, at: nat)
      requires Valid()
      ensures room <==> |Queue()| < ring.num
      ensures at == SlotAt(SlotOf(|pushed|, ring.num), ring.size) && at + ring.size <= ring.packets.Length
    {
      var count := ring.Count();
      room := count < ring.num;
      at := ring.WriteOffset();
    }

    /**
     `my_fifo_next`, once the entry of `p` has been written at `my_fifo_wptr`. It does not look for room: at a full
     queue the counted length exceeds the number of slots, as no sound queue's does.
     */
    method Next(ghost p: seq<Byte>)
      requires Valid() && |Entry(p)| <= ring.size
      requires |Queue()| < ring.num ==>
                 SlotsHold(ring.packets[..], ring.num, ring.size, ring.frames + [Entry(p)], ring.head)
      modifies this`pushed, ring`wptr, ring`frames
      ensures |old(Queue())| < ring.num ==> Valid() && Queue() == old(Queue()) + [p]
      ensures (ring.wptr - ring.rptr) % 256 == |old(Queue())| + 1
    {
      hide SlotsHold;
      EntriesNext(pushed, p);
      PtrDistance(ring.head, |pushed|);
      PtrDistance(ring.head, |pushed| + 1);
      ghost var data := ring.packets[..];
      ring.Advance(Entry(p));
      pushed := pushed + [p];
      assert ring.packets[..] == data;
    }

    /**
     `my_fifo_push`: 0 when the packet was queued, -1 with nothing changed when it was refused. A packet one byte
     short of the slot size is written over the end of its slot, which must not be the end of the memory.
     */
    method Push(p: array<Byte>, n: int) returns (r: int)
      requires Valid() && p != ring.packets && n <= p.Length
      requires -0x8000_0000 <= n < 0x8000_0000 && ring.size <= 0x8000_0000
      requires n == ring.size - 1 && |Queue()| < ring.num ==>
                 SlotAt(SlotOf(|pushed|, ring.num), ring.size) + ring.size < ring.packets.Length
      modifies this`pushed, ring`wptr, ring`frames, ring.packets
      ensures r == if |old(Queue())| < ring.num && 0 <= n < ring.size then 0 else -1
      ensures r == 0 ==>
                && pushed == old(pushed) + [old(p[..n])] && ring.wptr == PacketSlots.Next(old(ring.wptr))
                && SlotAt(SlotOf(|old(pushed)|, ring.num), ring.size) + n + 2 <= ring.packets.Length
                && ring.packets[..]
                   == Overwrite(old(ring.packets[..]), SlotAt(SlotOf(|old(pushed)|, ring.num), ring.size), Entry(old(p[..n])))
      ensures r == 0 && n < ring.size - 1 ==> Valid() && Queue() == old(Queue()) + [old(p[..n])]
      ensures r == -1 ==>
                && Valid() && Queue() == old(Queue())
                && ring.packets[..] == old(ring.packets[..]) && ring.wptr == old(ring.wptr)
    {
      hide SlotsHold, Overwrite, SlotAt, SlotOf;
      var count := ring.Count();
      if count >= ring.num {
        return -1;
      }
      if Unsigned(n) >= ring.size {
        return -1;
      }
      EntriesNext(pushed, p[..n]);
      ghost var data, memory := p[..n], ring.packets[..];
      var pd := ring.WriteOffset();
      if n < ring.size - 1 {
        WriteSlot(memory, ring.num, ring.size, ring.frames, ring.head, Entry(data));
      }
      CopyInto(ring.packets, pd, Entry(p[..n]));
      ghost var written := ring.packets[..];
      ring.Advance(Entry(data));
      pushed := pushed + [data];
      assert ring.packets[..] == written;
      return 0;
    }

    /** `my_fifo_get`: where the oldest entry starts */
    method Get() returns (nonEmpty: bool, at: nat)
      requires Valid()
      ensures nonEmpty <==> Queue() != []
      ensures at + ring.size <= ring.packets.Length
      ensures nonEmpty ==>
                var p := Queue()[0];
                && at + 2 + |p| <= ring.packets.Length
                && ring.packets[at + 2..at + 2 + |p|] == p
                && (|p| < 65536 ==> ring.packets[at] as int + 256 * ring.packets[at + 1] as int == |p|)
    {
      nonEmpty, at := ring.DataBuffer();
      if nonEmpty {
        ghost var p := Queue()[0];
        assert Entry(p) <= ring.packets[at..];
        assert ring.packets[at..][2..2 + |p|] == Entry(p)[2..];
        assert ring.packets[at + 2..at + 2 + |p|] == ring.packets[at..][2..2 + |p|];
        LengthIsKept(p);
      }
    }

    /**
     `my_fifo_pop`, which does not check for an empty queue: one such call makes the counted length 255, so the
     queue is full for `my_fifo_push` from then on.
     */
    method Pop()
      requires Valid()
      modifies ring`rptr, ring`head
      ensures ring.head == old(ring.head) + 1
      ensures old(Queue()) != [] ==> Valid() && Queue() == old(Queue())[1..]
      ensures old(Queue()) == [] ==> (ring.wptr - ring.rptr) % 256 == 255
    {
      ring.DataReadOk();
    }
  }
  /** A queue of two slots of eight bytes, with one packet of one byte waiting in the second slot. */
  method OneWaiting() returns (f: MyFifo)
    ensures fresh(f) && fresh(f.ring) && fresh(f.ring.packets) && f.Valid()
    ensures f.ring.num == 2 && f.ring.size == 8 && f.ring.packets.Length == 16
    ensures f.pushed == [[1], [1]] && f.ring.head == 1
  {
    hide SlotsHold, SlotAt, SlotOf, Overwrite, Entries, Entry;
    TwoSlots();
    var memory := new Byte[16](_ => 0);
    var p := new Byte[1](_ => 1);
    f := new MyFifo(8, 2, memory);
    assert p[..] == [1];
    PushOne(f, p);
    PushOne(f, p);
    f.Pop();
  }

  method PushOne(f: MyFifo, p: array<Byte>)
    requires f.Valid() && |f.Queue()| < f.ring.num && f.ring.size == 8
    requires p != f.ring.packets && p.Length == 1
    modifies f`pushed, f.ring`wptr, f.ring`frames, f.ring.packets
    ensures f.Valid() && f.pushed == old(f.pushed) + [p[..]]
  {
    hide SlotsHold, SlotAt, SlotOf, Overwrite, Entries, Entry;
    var accepted := f.Push(p, 1);
    assert p[..1] == p[..];
  }

  lemma TwoSlots()
    ensures SlotAt(2, 8) == 16 && SlotAt(SlotOf(2, 2), 8) == 0 && SlotOf(2, 2) == 0
  {
    assert SlotAt(1, 8) == 8;
  }

  /**
   A run that breaks a queue: a packet of seven bytes is accepted into the first slot, and the one waiting in the
   second is whole no more.
   */
  method SevenInEight() returns (f: MyFifo)
    ensures f.ring.num == 2 && f.ring.size == 8 && f.ring.head == 1 && f.pushed == [[1], [1], [9, 9, 9, 9, 9, 9, 9]]
    ensures !Whole(f.ring.packets[..], 2, 8, f.pushed[1], 1)
  {
    hide SlotsHold, SlotAt, SlotOf, Overwrite, Entries, Entry, Whole;
    TwoSlots();
    f := OneWaiting();
    var p := new Byte[7](_ => 9);
    ghost var seven := [9, 9, 9, 9, 9, 9, 9];
    assert p[..7] == seven;
    OverrunBreaksExactly(f.ring.packets[..], 2, 8, f.pushed, 1, seven);
    var accepted := f.Push(p, 7);
  }
}
