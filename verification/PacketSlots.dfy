/** Packets in the slots of a flat byte array, addressed by free-running 8-bit pointers. */
module PacketSlots {
  import opened Modulo

  type Byte = b: int | 0 <= b < 256

  /** The bytes of a 16-bit word. */
  function LowByte(w: int): Byte { w % 256 }
  function HighByte(w: int): Byte { w / 256 % 256 }

  /** `a` with its elements from `at` on replaced by `bs`. */
  function Overwrite(a: seq<int>, at: nat, bs: seq<int>): (r: seq<int>)
    requires at + |bs| <= |a|
    ensures |r| == |a|
  {
    seq(|a|, k requires 0 <= k < |a| => if at <= k < at + |bs| then bs[k - at] else a[k])
  }

  lemma OverwriteTwice(a: seq<int>, at: nat, bs: seq<int>, cs: seq<int>)
    requires at + |bs| + |cs| <= |a|
    ensures Overwrite(Overwrite(a, at, bs), at + |bs|, cs) == Overwrite(a, at, bs + cs)
  {
  }

  lemma OverwriteNext(a: seq<int>, at: nat, bs: seq<int>, i: nat)
    requires i < |bs| && at + |bs| <= |a|
    ensures Overwrite(a, at, bs[..i])[at + i := bs[i]] == Overwrite(a, at, bs[..i + 1])
  {
  }

  /** The loop that copies bytes into a slot */
  method CopyInto(a: array<Byte>, at: nat, bs: seq<Byte>)
    requires at + |bs| <= a.Length
    modifies a
    ensures a[..] == Overwrite(old(a[..]), at, bs)
  {
    ghost var data := a[..];
    for i := 0 to |bs|
      invariant a[..] == Overwrite(data, at, bs[..i])
    {
      OverwriteNext(data, at, bs, i);
      a[at + i] := bs[i];
      assert a[..] == Overwrite(data, at, bs[..i])[at + i := bs[i]];
    }
    assert bs[..|bs|] == bs;
  }

  // ----- free-running 8-bit pointers

  /** The 8-bit pointer after `n` increments from 0, by subtraction so that the solver need not divide. */
  function Ptr(n: nat): Byte {
    if n < 256 then n else Ptr(n - 256)
  }

  /** `p++` on an 8-bit pointer */
  function Next(p: Byte): Byte { if p == 255 then 0 else p + 1 }

  lemma {:induction false} PtrNext(n: nat)
    ensures Ptr(n + 1) == Next(Ptr(n))
  {
    if n < 256 {
    } else {
      PtrNext(n - 256);
    }
  }

  lemma {:induction false} PtrIsRemainder(n: nat)
    ensures Ptr(n) == n % 256
  {
    if n < 256 {
    } else {
      PtrIsRemainder(n - 256);
    }
  }

  /** Pointer differences and equality survive the wrap while the pointers are less than 256 apart. */
  lemma {:induction false} PtrDistance(head: nat, tail: nat)
    requires head <= tail < head + 256
    ensures (Ptr(tail) - Ptr(head)) % 256 == tail - head
    ensures Ptr(tail) == Ptr(head) <==> tail == head
    ensures tail < head + 8 ==> (Ptr(tail) - Ptr(head)) % 8 == tail - head
  {
    if head < 256 {
    } else {
      PtrDistance(head - 256, tail - 256);
    }
  }

  // ----- slots

  /** The powers of two that 8-bit pointers can count. */
  predicate RingSize(num: nat) {
    num == 1 || num == 2 || num == 4 || num == 8 || num == 16 || num == 32 || num == 64 || num == 128
  }

  /** The slot `k & (num - 1)` of packet `k`, by subtraction again. */
  function SlotOf(k: nat, num: nat): (i: nat)
    requires num > 0
    ensures i < num
  {
    if k < num then k else SlotOf(k - num, num)
  }

  lemma {:induction false} SlotIsRemainder(k: nat, num: nat)
    requires num > 0
    ensures SlotOf(k, num) == k % num
  {
    if k < num {
      RemainderIs(k, num, 0, k);
    } else {
      SlotIsRemainder(k - num, num);
      assert k - num == (k - num) / num * num + (k - num) % num;
      RemainderIs(k, num, (k - num) / num + 1, (k - num) % num);
    }
  }

  /** Of the first `n` packets, the latest one in the slot of packet `k`. */
  function LatestInSlot(k: nat, n: nat, num: nat): (j: nat)
    requires k < n && num > 0
    ensures k <= j < n <= j + num
    ensures n - k <= num <==> j == k
    decreases n - k
  {
    if n - k <= num then k else LatestInSlot(k + num, n, num)
  }

  /** The packet that the slot of position `k` holds after `n` packets. */
  function Fetched(k: nat, n: nat, num: nat): (j: nat)
    requires num > 0
    ensures j == k <==> n <= k + num
  {
    if k < n then LatestInSlot(k, n, num) else k
  }

  lemma {:induction false} LatestSharesSlot(k: nat, n: nat, num: nat)
    requires k < n && num > 0
    ensures SlotOf(LatestInSlot(k, n, num), num) == SlotOf(k, num)
    decreases n - k
  {
    if n - k <= num {
    } else {
      LatestSharesSlot(k + num, n, num);
    }
  }

  /** The slots of two packets differ unless they are a multiple of the ring size apart. */
  lemma {:induction false} SlotsApart(num: nat, k: nat, n: nat)
    requires k < n < k + num
    ensures SlotOf(k, num) != SlotOf(n, num)
  {
    if k >= num {
      SlotsApart(num, k - num, n - num);
    } else if n >= num {
      assert SlotOf(n, num) == n - num;
    }
  }

  lemma {:induction false} SlotAfterTurns(k: nat, num: nat, turns: nat)
    requires num > 0
    ensures SlotOf(k + SlotAt(turns, num), num) == SlotOf(k, num)
  {
    if turns == 0 {
    } else {
      SlotAfterTurns(k, num, turns - 1);
    }
  }

  /** A wrapped pointer still tells the slot, in a ring of any of these sizes. */
  lemma {:induction false} PtrSlotOf(n: nat, num: nat)
    requires RingSize(num)
    ensures SlotOf(Ptr(n), num) == SlotOf(n, num)
  {
    if n < 256 {
    } else {
      PtrSlotOf(n - 256, num);
      var turns := 256 / num;
      SlotAtIsProduct(turns, num);
      SlotAfterTurns(n - 256, num, turns);
    }
  }

  /** The same as remainders. */
  lemma PtrSlot(n: nat)
    ensures Ptr(n) % 4 == n % 4 && Ptr(n) % 8 == n % 8
  {
    hide Ptr, SlotOf;
    PtrSlotOf(n, 4);
    PtrSlotOf(n, 8);
    SlotIsRemainder(n, 4);
    SlotIsRemainder(n, 8);
    SlotIsRemainder(Ptr(n), 4);
    SlotIsRemainder(Ptr(n), 8);
  }

  /** The offset `i * size` of slot `i`, by addition so that the solver need not multiply. */
  function SlotAt(i: nat, size: nat): nat {
    if i == 0 then 0 else SlotAt(i - 1, size) + size
  }

  lemma {:induction false} SlotAtIsProduct(i: nat, size: nat)
    ensures SlotAt(i, size) == i * size
  {
    if i == 0 {
    } else {
      SlotAtIsProduct(i - 1, size);
    }
  }

  lemma {:induction false} SlotsInOrder(i: nat, j: nat, size: nat)
    requires i < j
    ensures SlotAt(i, size) + size <= SlotAt(j, size)
  {
    if i == j - 1 {
    } else {
      SlotsInOrder(i, j - 1, size);
    }
  }

  /** Packet `k` of `ps` is what slot `k % num` starts with, for every packet from `from` on. */
  ghost predicate SlotsHold(a: seq<int>, num: nat, size: nat, ps: seq<seq<int>>, from: nat)
    requires RingSize(num)
  {
    && |a| >= SlotAt(num, size)
    && (forall k :: 0 <= k < |ps| ==> |ps[k]| <= size)
    && (forall k :: from <= k < |ps| ==> SlotAt(SlotOf(k, num), size) <= |a| && ps[k] <= a[SlotAt(SlotOf(k, num), size)..])
  }

  lemma OtherSlot(a: seq<int>, size: nat, at: nat, bs: seq<int>, other: nat, cs: seq<int>)
    requires at + size <= other || other + size <= at
    requires |bs| <= size && |cs| <= size && at + size <= |a| && other + size <= |a|
    requires cs <= a[other..]
    ensures cs <= Overwrite(a, at, bs)[other..]
  {
  }

  lemma OwnSlot(a: seq<int>, at: nat, bs: seq<int>)
    requires at + |bs| <= |a|
    ensures bs <= Overwrite(a, at, bs)[at..]
    ensures Overwrite(a, at, bs)[at..at + |bs|] == bs
  {
  }

  /** Writing packet `n` leaves an earlier one in its slot, if fewer than `num` packets lie between. */
  lemma KeepSlot(a: seq<int>, num: nat, size: nat, n: nat, bs: seq<int>, k: nat, cs: seq<int>)
    requires RingSize(num) && k < n < k + num && |a| >= SlotAt(num, size)
    requires |bs| <= size && |cs| <= size
    requires SlotAt(SlotOf(k, num), size) <= |a| && cs <= a[SlotAt(SlotOf(k, num), size)..]
    ensures SlotAt(SlotOf(n, num), size) + |bs| <= |a|
    ensures cs <= Overwrite(a, SlotAt(SlotOf(n, num), size), bs)[SlotAt(SlotOf(k, num), size)..]
  {
    var i, j := SlotOf(n, num), SlotOf(k, num);
    SlotsApart(num, k, n);
    SlotsInOrder(i, num, size);
    SlotsInOrder(j, num, size);
    if j < i {
      SlotsInOrder(j, i, size);
    } else {
      SlotsInOrder(i, j, size);
    }
    OtherSlot(a, size, SlotAt(i, size), bs, SlotAt(j, size), cs);
  }

  /** Writing the next packet into its slot costs at most the oldest of `num` packets. */
  lemma WriteSlot(a: seq<int>, num: nat, size: nat, ps: seq<seq<int>>, from: nat, bs: seq<int>)
    requires RingSize(num) && SlotsHold(a, num, size, ps, from) && |bs| <= size
    requires from <= |ps| <= from + num
    ensures SlotAt(SlotOf(|ps|, num), size) + size <= |a|
    ensures SlotsHold(Overwrite(a, SlotAt(SlotOf(|ps|, num), size), bs), num, size, ps + [bs],
                      if |ps| == from + num then from + 1 else from)
  {
    hide Overwrite, SlotAt, SlotOf;
    var n := |ps|;
    SlotsInOrder(SlotOf(n, num), num, size);
    OwnSlot(a, SlotAt(SlotOf(n, num), size), bs);
    forall k | from <= k < n && k + num > n
      ensures ps[k] <= Overwrite(a, SlotAt(SlotOf(n, num), size), bs)[SlotAt(SlotOf(k, num), size)..]
    {
      KeepSlot(a, num, size, n, bs, k, ps[k]);
    }
  }
}
