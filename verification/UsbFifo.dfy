/**
 `usb_fifo` and the code around it: the keyboard's and the mouse's report functions, which queue a report when
 its endpoint is busy, and `usb_hid_report_fifo_proc`, which sends the oldest one later
 (application/app/usbkb.c, application/app/usbmouse.c). It refines the machine of `UsbReports`.
 */
module UsbFifo {
  import opened PacketSlots
  import opened PacketRings
  import opened UsbReports

  const DAT_TYPE_KB: Byte := 1
  const DAT_TYPE_MOUSE: Byte := 2
  const USB_FIFO_NUM: nat := 4
  const USB_FIFO_SIZE: nat := 8

  /** What a report's slot starts with. The fourth byte of a mouse report is not written. */
  function Entry(r: Report, stale: Byte): (e: seq<Byte>)
    ensures |e| <= USB_FIFO_SIZE
  {
    match r
    case KeyReport(ctrl, keycode) => [DAT_TYPE_KB, ctrl] + keycode
    case MouseReport(id, data) => [DAT_TYPE_MOUSE, id, Count(data), stale] + data
  }

  lemma EntryBytes(r: Report, stale: Byte)
    ensures var e := Entry(r, stale);
            if r.KeyReport? then e == [1, r.ctrl] + r.keycode
            else |e| == 4 + |r.data| && e[0] == 2 && e[1] == r.id && e[2] == |r.data| && e[4..] == r.data
  {
  }

  function Count(data: MouseData): Byte { |data| }

  /** The report `usb_hid_report_fifo_proc` reads from a slot. */
  function ReportIn(slot: seq<Byte>): Report
    requires |slot| >= USB_FIFO_SIZE
  {
    if slot[0] == DAT_TYPE_KB then KeyReport(slot[1], slot[2..8]) else MouseReport(slot[1], MouseBytes(slot))
  }

  function MouseBytes(slot: seq<Byte>): MouseData
    requires |slot| >= USB_FIFO_SIZE
  {
    if slot[2] <= 4 then slot[4..4 + slot[2]] else []
  }

  ghost predicate Encodes(frame: seq<Byte>, r: Report) { exists stale: Byte :: frame == Entry(r, stale) }

  /** A queued report is read back as it was, whatever else is in the slot. */
  lemma EntryReadsBack(r: Report, frame: seq<Byte>, slot: seq<Byte>)
    requires |slot| >= USB_FIFO_SIZE && Encodes(frame, r) && frame <= slot
    ensures slot[0] == (if r.KeyReport? then DAT_TYPE_KB else DAT_TYPE_MOUSE)
    ensures ReportIn(slot[..USB_FIFO_SIZE]) == r
  {
    var stale: Byte :| frame == Entry(r, stale);
    var cell := slot[..USB_FIFO_SIZE];
    assert cell[..|frame|] == frame;
    match r
    case KeyReport(ctrl, keycode) =>
      assert cell[2..8] == frame[2..] == keycode;
    case MouseReport(id, data) =>
      assert cell[4..4 + |data|] == frame[4..] == data;
  }

  /**
   A mouse report stays inside its slot just when it has at most four bytes; the fifth one would replace the
   type of the entry in the next slot.
   */
  lemma MouseFitsExactly(a: seq<Byte>, i: nat, id: Byte, stale: Byte, data: seq<Byte>)
    requires |data| < 8 && SlotAt(i + 2, USB_FIFO_SIZE) <= |a|
    ensures var e := [DAT_TYPE_MOUSE, id, |data|, stale] + data;
            && (|e| <= USB_FIFO_SIZE <==> |data| <= 4)
            && SlotAt(i, USB_FIFO_SIZE) + |e| <= |a|
            && (|data| > 4 ==> Overwrite(a, SlotAt(i, USB_FIFO_SIZE), e)[SlotAt(i + 1, USB_FIFO_SIZE)] == data[4])
  {
    assert SlotAt(i + 2, USB_FIFO_SIZE) == SlotAt(i + 1, USB_FIFO_SIZE) + 8 == SlotAt(i, USB_FIFO_SIZE) + 16;
  }

  class UsbHid {
    const ring: PacketRing
    var keyboardBusy: bool
    var mouseBusy: bool
    /** The reports written to the endpoints, as they were written there. */
    var log: seq<Report>
    ghost var now: Usb

    ghost predicate Valid()
      reads this, ring, ring.packets
    {
      && ring.Valid() && ring.num == USB_FIFO_NUM && ring.size == USB_FIFO_SIZE
      && Inv(now) && keyboardBusy == now.keyboardBusy && mouseBusy == now.mouseBusy
      && |ring.frames| == |now.ever| && ring.head == |now.ever| - |now.queue|
      && Holds(ring.frames, now.ever, now.made, ring.head)
      && Logged(log, now.delivered, now.made)
    }

    constructor (packets: array<Byte>)
      requires packets.Length >= SlotAt(USB_FIFO_NUM, USB_FIFO_SIZE)
      ensures Valid() && now == IDLE && fresh(ring) && ring.packets == packets
    {
      ring := new PacketRing(USB_FIFO_NUM, USB_FIFO_SIZE, packets);
      keyboardBusy, mouseBusy := false, false;
      log := [];
      now := IDLE;
      new;
      IdleInv();
    }

    /** Writes an entry over the slot at `usb_ff_wptr` and drops the oldest one if that was its slot. */
    method Queue(e: seq<Byte>)
      requires ring.Valid() && ring.num == USB_FIFO_NUM && ring.size == USB_FIFO_SIZE && |e| <= USB_FIFO_SIZE
      modifies ring, ring.packets
      ensures ring.Valid() && ring.frames == old(ring.frames) + [e]
      ensures ring.head == if |old(ring.frames)| == old(ring.head) + 4 then old(ring.head) + 1 else old(ring.head)
    {
      hide SlotsHold;
      ghost var data := ring.packets[..];
      WriteSlot(data, USB_FIFO_NUM, USB_FIFO_SIZE, ring.frames, ring.head, e);
      var at := ring.WriteOffset();
      CopyInto(ring.packets, at, e);
      ring.Commit(e);
      ring.DropExcess();
    }

    /** The endpoint takes a report; it is busy until the host has read it. */
    method Send(r: Report)
      modifies `log, `keyboardBusy, `mouseBusy
      ensures log == old(log) + [r]
      ensures keyboardBusy == (r.KeyReport? || old(keyboardBusy)) && mouseBusy == (r.MouseReport? || old(mouseBusy))
    {
      log := log + [r];
      if r.KeyReport? {
        keyboardBusy := true;
      } else {
        mouseBusy := true;
      }
    }

    /** `usbkb_hid_report_normal` and `usbmouse_hid_report`: whether the report was sent at once */
    method HidReport(r: Report) returns (sent: bool)
      requires Valid()
      modifies this, ring, ring.packets
      ensures Valid() && now == Step(old(now), Make(r)) && now.made == old(now.made) + [r]
      ensures sent <==> if r.KeyReport? then !old(keyboardBusy) else !old(mouseBusy)
      ensures log == old(log) + if sent then [r] else []
      ensures sent ==> now.queue == old(now.queue)
      ensures !sent ==> now.queue == old(if |now.queue| < 4 then now.queue else now.queue[1..]) + [|old(now.made)|]
      ensures !sent ==>
                && |ring.frames| == |old(ring.frames)| + 1
                && var e := ring.frames[|old(ring.frames)|];
                   if r.KeyReport? then e == [1, r.ctrl] + r.keycode
                   else |e| == 4 + |r.data| && e[0] == 2 && e[1] == r.id && e[2] == |r.data| && e[4..] == r.data
      ensures keyboardBusy == (old(keyboardBusy) || (sent && r.KeyReport?))
      ensures mouseBusy == (old(mouseBusy) || (sent && !r.KeyReport?))
    {
      hide Inv, Holds, Logged, SlotsHold, Entry;
      ghost var n, made := |now.made|, now.made + [r];
      StepKeeps(now, Make(r));
      MakeExactly(now, r);
      QueueHead(now);
      HoldsGrows(ring.frames, now.ever, now.made, ring.head, r);
      LoggedGrows(log, now.delivered, now.made, r);
      sent := if r.KeyReport? then !keyboardBusy else !mouseBusy;
      if sent {
        LoggedNext(log, now.delivered, made, r, n);
        Send(r);
      } else {
        var at := ring.WriteOffset();
        var stale := ring.packets[at + 3];
        HoldsNext(ring.frames, now.ever, made, ring.head, n, stale);
        EntryBytes(r, stale);
        Queue(Entry(r, stale));
      }
      now := Step(now, Make(r));
    }

    /** The host reads what an endpoint holds. */
    method HostReads(ep: Endpoint)
      requires Valid()
      modifies `keyboardBusy, `mouseBusy, `now
      ensures Valid() && now == Step(old(now), Event.HostReads(ep))
      ensures now.made == old(now.made) && now.queue == old(now.queue)
      ensures keyboardBusy == (old(keyboardBusy) && !ep.KeyboardIn?) && mouseBusy == (old(mouseBusy) && ep.KeyboardIn?)
    {
      hide Inv, Holds, Logged, SlotsHold;
      StepKeeps(now, Event.HostReads(ep));
      if ep.KeyboardIn? {
        keyboardBusy := false;
      } else {
        mouseBusy := false;
      }
      now := Step(now, Event.HostReads(ep));
    }

    /** `usb_hid_report_fifo_proc`: whether the oldest queued report was sent */
    method UsbHidReportFifoProc() returns (sent: bool)
      requires Valid()
      modifies this, ring`rptr, ring`head
      ensures Valid() && now == Step(old(now), Proc) && now.made == old(now.made)
      ensures old(now.queue) == [] ==> !sent
      ensures old(now.queue) != [] ==>
                && old(now.queue[0]) < |now.made|
                && var r := now.made[old(now.queue[0])];
                   (sent <==> if r.KeyReport? then !old(keyboardBusy) else !old(mouseBusy))
      ensures log == old(log) + if sent then [now.made[old(now.queue[0])]] else []
      ensures now.queue == old(now.queue)[if sent then 1 else 0..]
    {
      hide Inv, Logged, SlotsHold, Encodes, Entry, ReportIn;
      StepKeeps(now, Proc);
      if now.queue != [] {
        ProcExactly(now);
      }
      QueueHead(now);
      var nonEmpty, at := ring.DataBuffer();
      if !nonEmpty {
        return false;
      }
      ghost var r := now.made[now.queue[0]];
      EntryReadsBack(r, ring.frames[ring.head], ring.packets[at..]);
      var slot := ring.packets[at..at + USB_FIFO_SIZE];
      assert slot == ring.packets[at..][..USB_FIFO_SIZE];
      if slot[0] == DAT_TYPE_KB {
        if keyboardBusy {
          return false;
        }
      } else if slot[0] == DAT_TYPE_MOUSE {
        if mouseBusy {
          return false;
        }
      }
      LoggedNext(log, now.delivered, now.made, r, now.queue[0]);
      Send(ReportIn(slot));
      ring.DataReadOk();
      now := Step(now, Proc);
      return true;
    }
  }

  lemma QueueHead(u: Usb)
    requires Inv(u)
    ensures |u.queue| <= 4 && |u.queue| <= |u.ever|
    ensures |u.queue| > 0 ==> u.queue[0] == u.ever[|u.ever| - |u.queue|] && u.queue[0] < |u.made|
  {
  }

  /** The slots from packet `head` on hold the reports that `ever` numbers. */
  ghost predicate Holds(frames: seq<seq<Byte>>, ever: seq<nat>, made: seq<Report>, head: nat) {
    && |frames| == |ever|
    && forall k :: head <= k < |ever| ==> ever[k] < |made| && Encodes(frames[k], made[ever[k]])
  }

  ghost predicate Logged(log: seq<Report>, delivered: seq<nat>, made: seq<Report>) {
    && |log| == |delivered|
    && forall k :: 0 <= k < |log| ==> delivered[k] < |made| && log[k] == made[delivered[k]]
  }

  lemma HoldsGrows(frames: seq<seq<Byte>>, ever: seq<nat>, made: seq<Report>, head: nat, r: Report)
    requires Holds(frames, ever, made, head)
    ensures Holds(frames, ever, made + [r], head)
  {
  }

  lemma HoldsNext(frames: seq<seq<Byte>>, ever: seq<nat>, made: seq<Report>, head: nat, n: nat, stale: Byte)
    requires Holds(frames, ever, made, head) && n < |made|
    ensures Holds(frames + [Entry(made[n], stale)], ever + [n], made, head)
    ensures Holds(frames + [Entry(made[n], stale)], ever + [n], made, head + 1)
  {
    assert Encodes(Entry(made[n], stale), made[n]);
    hide Encodes, Entry;
  }

  lemma LoggedGrows(log: seq<Report>, delivered: seq<nat>, made: seq<Report>, r: Report)
    requires Logged(log, delivered, made)
    ensures Logged(log, delivered, made + [r])
  {
  }

  lemma LoggedNext(log: seq<Report>, delivered: seq<nat>, made: seq<Report>, r: Report, n: nat)
    requires Logged(log, delivered, made) && n < |made| && made[n] == r
    ensures Logged(log + [r], delivered + [n], made)
  {
  }
}
