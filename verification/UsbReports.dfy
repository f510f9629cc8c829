/**
 The reports that keyboard and mouse send to the USB host, and the queue of four they share while an endpoint
 is busy (application/app/usbkb.c, application/app/usbmouse.c), as a machine whose steps come in any order.
 */
module UsbReports {
  import opened Runs
  import opened PacketSlots

  type KeyCodes = k: seq<Byte> | |k| == 6 witness [0, 0, 0, 0, 0, 0]
  type MouseData = d: seq<Byte> | |d| <= 4 witness []

  datatype Report = KeyReport(ctrl: Byte, keycode: KeyCodes) | MouseReport(id: Byte, data: MouseData)
  datatype Endpoint = KeyboardIn | MouseIn

  function EndpointOf(r: Report): Endpoint { if r.KeyReport? then KeyboardIn else MouseIn }

  /**
   All reports made so far, and where each one is, by its number: handed to its endpoint, waiting, or
   overwritten. `ever` lists all that were put in the queue.
   */
  datatype Usb = Usb(made: seq<Report>, delivered: seq<nat>, queue: seq<nat>, lost: seq<nat>, ever: seq<nat>,
                     keyboardBusy: bool, mouseBusy: bool)

  const IDLE := Usb([], [], [], [], [], false, false)

  datatype Event = Make(report: Report) | Proc | HostReads(ep: Endpoint)

  predicate Busy(u: Usb, ep: Endpoint) { if ep.KeyboardIn? then u.keyboardBusy else u.mouseBusy }

  function SetBusy(u: Usb, ep: Endpoint, busy: bool): Usb {
    if ep.KeyboardIn? then u.(keyboardBusy := busy) else u.(mouseBusy := busy)
  }

  /** The endpoint accepts report `n`. */
  function Deliver(u: Usb, n: nat, ep: Endpoint): (v: Usb)
    ensures v.made == u.made && v.queue == u.queue && v.ever == u.ever && v.lost == u.lost
  {
    SetBusy(u.(delivered := u.delivered + [n]), ep, true)
  }

  /** The queue with one more report; a fifth one costs the oldest. */
  function Pushed(queue: seq<nat>, n: nat): seq<nat> {
    if |queue| < 4 then queue + [n] else queue[1..] + [n]
  }

  /** What the fifth report overwrites. */
  function Overwritten(queue: seq<nat>): seq<nat> { if |queue| < 4 then [] else [queue[0]] }

  /** Report `n` joins the queue. */
  function Enqueue(u: Usb, n: nat): (v: Usb)
    ensures v.made == u.made && v.ever == u.ever + [n]
  {
    u.(queue := Pushed(u.queue, n), lost := u.lost + Overwritten(u.queue), ever := u.ever + [n])
  }

  function Step(u: Usb, e: Event): Usb {
    match e
    case Make(r) =>
      var v := u.(made := u.made + [r]);
      if Busy(u, EndpointOf(r)) then Enqueue(v, |u.made|) else Deliver(v, |u.made|, EndpointOf(r))
    case Proc =>
      if Ready(u) then Deliver(u.(queue := u.queue[1..]), u.queue[0], HeadEndpoint(u)) else u
    case HostReads(ep) => SetBusy(u, ep, false)
  }

  function HeadEndpoint(u: Usb): Endpoint
    requires |u.queue| > 0
  {
    if u.queue[0] < |u.made| then EndpointOf(u.made[u.queue[0]]) else KeyboardIn
  }

  predicate Ready(u: Usb) { |u.queue| > 0 && !Busy(u, HeadEndpoint(u)) }

  // ----- what every run keeps

  predicate Increasing(s: seq<nat>) { forall j, k :: 0 <= j < k < |s| ==> s[j] < s[k] }

  function UpTo(n: nat): (s: seq<nat>)
    ensures |s| == n
  {
    seq(n, i => i)
  }

  /** Report `n` was followed into the queue by at least four others. */
  predicate Outdated(u: Usb, n: nat) { exists p :: 0 <= p && p + 4 < |u.ever| && u.ever[p] == n }

  /** The queue is the latest that went into it, in the order made. */
  ghost predicate Latest(queue: seq<nat>, ever: seq<nat>, made: nat) {
    && |queue| <= 4 && |queue| <= |ever|
    && queue == ever[|ever| - |queue|..]
    && Increasing(ever)
    && (forall k :: 0 <= k < |ever| ==> ever[k] < made)
  }

  ghost function Places(delivered: seq<nat>, queue: seq<nat>, lost: seq<nat>): multiset<nat> {
    multiset(delivered) + multiset(queue) + multiset(lost)
  }

  /** Every report made is in just one place: accepted by its endpoint, waiting, or overwritten. */
  ghost predicate Conserved(u: Usb) {
    Places(u.delivered, u.queue, u.lost) == multiset(UpTo(|u.made|))
  }

  /** Only reports that four later ones followed were overwritten. */
  ghost predicate LossesOutdated(u: Usb) { forall n :: n in u.lost ==> Outdated(u, n) }

  ghost predicate Inv(u: Usb) { Latest(u.queue, u.ever, |u.made|) && Conserved(u) && LossesOutdated(u) }

  function After(events: seq<Event>): Usb { Fold(Step, IDLE, events) }

  lemma UpToNext(n: nat)
    ensures multiset(UpTo(n + 1)) == multiset(UpTo(n)) + multiset{n}
  {
    assert UpTo(n + 1) == UpTo(n) + [n];
  }

  lemma SuffixGrows(s: seq<nat>, k: nat, x: nat)
    requires k <= |s|
    ensures (s + [x])[k..] == s[k..] + [x]
    ensures k < |s| ==> (s + [x])[k + 1..] == s[k..][1..] + [x]
    ensures k < |s| ==> s[k..][1..] == s[k + 1..]
  {
  }

  lemma IncreasingGrows(s: seq<nat>, x: nat)
    requires Increasing(s) && forall k :: 0 <= k < |s| ==> s[k] < x
    ensures Increasing(s + [x])
  {
  }

  lemma PushLatest(queue: seq<nat>, ever: seq<nat>, n: nat)
    requires Latest(queue, ever, n)
    ensures Latest(Pushed(queue, n), ever + [n], n + 1)
  {
    IncreasingGrows(ever, n);
    hide Increasing;
    SuffixGrows(ever, |ever| - |queue|, n);
  }

  lemma PopLatest(queue: seq<nat>, ever: seq<nat>, n: nat)
    requires Latest(queue, ever, n)
    ensures |queue| > 0 ==> Latest(queue[1..], ever, n)
    ensures Latest(queue, ever, n + 1)
  {
    SuffixGrows(ever, |ever| - |queue|, 0);
  }

  lemma LatestKept(u: Usb, e: Event)
    requires Latest(u.queue, u.ever, |u.made|)
    ensures var v := Step(u, e); Latest(v.queue, v.ever, |v.made|)
  {
    hide Latest, Pushed;
    PushLatest(u.queue, u.ever, |u.made|);
    PopLatest(u.queue, u.ever, |u.made|);
  }

  lemma PushPlaces(delivered: seq<nat>, queue: seq<nat>, lost: seq<nat>, n: nat)
    ensures Places(delivered, Pushed(queue, n), lost + Overwritten(queue)) == Places(delivered, queue, lost) + multiset{n}
    ensures Places(delivered + [n], queue, lost) == Places(delivered, queue, lost) + multiset{n}
  {
    hide Pushed, Overwritten;
    QueuePlaces(queue, n);
    Regroup(multiset(delivered), multiset(Pushed(queue, n)), multiset(lost), multiset(Overwritten(queue)),
            multiset(queue), multiset{n});
    assert multiset(lost + Overwritten(queue)) == multiset(lost) + multiset(Overwritten(queue));
    assert multiset(delivered + [n]) == multiset(delivered) + multiset{n};
    Regroup(multiset(delivered), multiset(queue) + multiset{n}, multiset(lost), multiset{}, multiset(queue), multiset{n});
  }

  lemma Regroup(d: multiset<nat>, p: multiset<nat>, l: multiset<nat>,
                o: multiset<nat>, q: multiset<nat>, n: multiset<nat>)
    requires p + o == q + n
    ensures d + p + (l + o) == d + q + l + n
    ensures d + n + q + l == d + q + l + n
  {
    assert d + p + (l + o) == (p + o) + (d + l);
    assert d + q + l + n == (q + n) + (d + l);
  }

  lemma QueuePlaces(queue: seq<nat>, n: nat)
    ensures multiset(Pushed(queue, n)) + multiset(Overwritten(queue)) == multiset(queue) + multiset{n}
  {
    if |queue| >= 4 {
      assert queue == [queue[0]] + queue[1..];
    }
  }

  lemma PopPlaces(delivered: seq<nat>, queue: seq<nat>, lost: seq<nat>)
    requires |queue| > 0
    ensures Places(delivered + [queue[0]], queue[1..], lost) == Places(delivered, queue, lost)
  {
    assert queue == [queue[0]] + queue[1..];
  }

  lemma ConservedKept(u: Usb, e: Event)
    requires Conserved(u)
    ensures Conserved(Step(u, e))
  {
    hide UpTo, Places, Pushed, Overwritten;
    UpToNext(|u.made|);
    PushPlaces(u.delivered, u.queue, u.lost, |u.made|);
    if |u.queue| > 0 {
      PopPlaces(u.delivered, u.queue, u.lost);
    }
  }

  lemma StillOutdated(u: Usb, v: Usb, n: nat)
    requires Outdated(u, n) && u.ever <= v.ever
    ensures Outdated(v, n)
  {
    var p :| 0 <= p && p + 4 < |u.ever| && u.ever[p] == n;
    assert v.ever[p] == n;
  }

  lemma LossesKept(u: Usb, e: Event)
    requires Latest(u.queue, u.ever, |u.made|) && LossesOutdated(u)
    ensures LossesOutdated(Step(u, e))
  {
    hide Outdated;
    var v := Step(u, e);
    forall n | n in v.lost ensures Outdated(v, n) {
      if n in u.lost {
        StillOutdated(u, v, n);
      } else {
        JustOutdated(u, v, n);
      }
    }
  }

  lemma JustOutdated(u: Usb, v: Usb, n: nat)
    requires Latest(u.queue, u.ever, |u.made|) && |u.queue| == 4 && n == u.queue[0] && u.ever < v.ever
    ensures Outdated(v, n)
  {
    assert v.ever[|u.ever| - 4] == n;
  }

  lemma StepKeeps(u: Usb, e: Event)
    requires Inv(u)
    ensures Inv(Step(u, e))
  {
    LatestKept(u, e);
    ConservedKept(u, e);
    LossesKept(u, e);
  }

  /** Over every run, in whatever order keyboard, mouse and host act. */
  lemma {:induction false} EveryRun(events: seq<Event>)
    ensures Inv(After(events))
    decreases |events|
  {
    hide Inv, Step;
    if |events| == 0 {
      IdleInv();
    } else {
      var n := |events| - 1;
      EveryRun(events[..n]);
      StepKeeps(After(events[..n]), events[n]);
    }
  }

  lemma IdleInv()
    ensures Inv(IDLE)
  {
    assert UpTo(0) == [];
  }

  // ----- progress

  /** A new report goes to its endpoint exactly when that is free, whatever the other one is, and else into the queue. */
  lemma MakeExactly(u: Usb, r: Report)
    ensures var v, n := Step(u, Make(r)), |u.made|;
            && v.made == u.made + [r]
            && (if r.KeyReport? then !u.keyboardBusy else !u.mouseBusy) ==>
                 && v.delivered == u.delivered + [n] && v.queue == u.queue && v.lost == u.lost
                 && v.keyboardBusy == (u.keyboardBusy || r.KeyReport?) && v.mouseBusy == (u.mouseBusy || !r.KeyReport?)
    ensures var v, n := Step(u, Make(r)), |u.made|;
            (if r.KeyReport? then u.keyboardBusy else u.mouseBusy) ==>
              && v.delivered == u.delivered && v.keyboardBusy == u.keyboardBusy && v.mouseBusy == u.mouseBusy
              && v.queue == (if |u.queue| < 4 then u.queue else u.queue[1..]) + [n]
              && v.lost == u.lost + if |u.queue| < 4 then [] else [u.queue[0]]
  {
  }

  /** A poll sends the oldest queued report exactly when its own endpoint is free, whatever the other one is. */
  lemma ProcExactly(u: Usb)
    requires Inv(u) && |u.queue| > 0
    ensures u.queue[0] < |u.made|
    ensures var v, r := Step(u, Proc), u.made[u.queue[0]];
            if (if r.KeyReport? then u.keyboardBusy else u.mouseBusy) then v == u
            else
              && v.delivered == u.delivered + [u.queue[0]] && v.queue == u.queue[1..]
              && v.made == u.made && v.lost == u.lost && v.ever == u.ever
              && v.keyboardBusy == (u.keyboardBusy || r.KeyReport?) && v.mouseBusy == (u.mouseBusy || !r.KeyReport?)
  {
    HeadMade(u);
    hide Inv;
  }

  lemma HeadMade(u: Usb)
    requires Inv(u) && |u.queue| > 0
    ensures u.queue[0] < |u.made|
  {
    assert u.queue[0] == u.ever[|u.ever| - |u.queue|];
  }

  /** In a round the host reads both endpoints and the main loop polls once. */
  function Rounds(n: nat): seq<Event> {
    if n == 0 then [] else Rounds(n - 1) + [HostReads(KeyboardIn), HostReads(MouseIn), Proc]
  }

  lemma OneRound(u: Usb)
    requires Inv(u) && |u.queue| > 0
    ensures var v := Fold(Step, u, [HostReads(KeyboardIn), HostReads(MouseIn), Proc]);
            Inv(v) && v.delivered == u.delivered + [u.queue[0]] && v.queue == u.queue[1..]
  {
    hide Inv;
    var a := Step(u, HostReads(KeyboardIn));
    var b := Step(a, HostReads(MouseIn));
    StepKeeps(u, HostReads(KeyboardIn));
    StepKeeps(a, HostReads(MouseIn));
    StepKeeps(b, Proc);
    ProcExactly(b);
    var es := [HostReads(KeyboardIn), HostReads(MouseIn), Proc];
    assert es[..2][..1] == es[..1] && es[..1][..0] == [];
    assert Fold(Step, u, es[..1]) == a;
    assert Fold(Step, u, es[..2]) == b;
  }

  lemma {:induction false} RoundsDeliver(u: Usb, n: nat)
    requires Inv(u) && n <= |u.queue|
    ensures var v := Fold(Step, u, Rounds(n));
            Inv(v) && v.delivered == u.delivered + u.queue[..n] && v.queue == u.queue[n..]
  {
    hide Inv, Step;
    if n == 0 {
    } else {
      RoundsDeliver(u, n - 1);
      OneRound(Fold(Step, u, Rounds(n - 1)));
      FoldSplits(Step, u, Rounds(n - 1), [HostReads(KeyboardIn), HostReads(MouseIn), Proc]);
    }
  }

  /** After any run every report still queued is delivered, in as many rounds as there are. */
  lemma QueueDrains(events: seq<Event>)
    ensures var u := After(events);
            var v := After(events + Rounds(|u.queue|));
            v.queue == [] && v.delivered == u.delivered + u.queue
  {
    hide Step;
    EveryRun(events);
    var u := After(events);
    RoundsDeliver(u, |u.queue|);
    FoldSplits(Step, IDLE, events, Rounds(|u.queue|));
  }

  // ----- the order in which an endpoint gets its reports

  /** The reports among `s` that are for `ep`. */
  function Only(made: seq<Report>, s: seq<nat>, ep: Endpoint): seq<nat> {
    if |s| == 0 then []
    else (if s[0] < |made| && EndpointOf(made[s[0]]) == ep then [s[0]] else []) + Only(made, s[1..], ep)
  }

  /** What `ep` has got and is still to get from the queue is in the order made. */
  ghost predicate InOrder(u: Usb, ep: Endpoint) {
    Increasing(Only(u.made, u.delivered, ep) + Only(u.made, u.queue, ep))
  }

  /** A new report finds its endpoint free while older ones for it still wait in the queue. */
  predicate Overtakes(u: Usb, e: Event, ep: Endpoint) {
    e.Make? && EndpointOf(e.report) == ep && !Busy(u, ep) && Only(u.made, u.queue, ep) != []
  }

  predicate Below(s: seq<nat>, n: nat) { forall k :: 0 <= k < |s| ==> s[k] < n }

  lemma {:induction false} OnlySplits(made: seq<Report>, s: seq<nat>, t: seq<nat>, ep: Endpoint)
    ensures Only(made, s + t, ep) == Only(made, s, ep) + Only(made, t, ep)
  {
    if |s| == 0 {
      assert s + t == t;
    } else {
      assert (s + t)[1..] == s[1..] + t;
      OnlySplits(made, s[1..], t, ep);
    }
  }

  lemma {:induction false} OnlyKept(made: seq<Report>, r: Report, s: seq<nat>, ep: Endpoint)
    requires Below(s, |made|)
    ensures Only(made + [r], s, ep) == Only(made, s, ep) && Below(Only(made, s, ep), |made|)
  {
    if |s| == 0 {
    } else {
      OnlyKept(made, r, s[1..], ep);
    }
  }

  lemma OnlyOne(made: seq<Report>, n: nat, ep: Endpoint)
    ensures Only(made, [n], ep) == if n < |made| && EndpointOf(made[n]) == ep then [n] else []
  {
    assert Only(made, [n][1..], ep) == [];
  }

  lemma ConservedInRange(u: Usb)
    requires Conserved(u)
    ensures Below(u.delivered, |u.made|) && Below(u.queue, |u.made|)
  {
    BelowPlaces(u.delivered, u);
    BelowPlaces(u.queue, u);
  }

  lemma BelowPlaces(s: seq<nat>, u: Usb)
    requires Conserved(u) && multiset(s) <= Places(u.delivered, u.queue, u.lost)
    ensures Below(s, |u.made|)
  {
    forall k | 0 <= k < |s| ensures s[k] < |u.made| {
      assert s[k] in multiset(s);
      assert s[k] in multiset(UpTo(|u.made|));
    }
  }

  lemma IncreasingWithout(a: seq<nat>, x: seq<nat>, b: seq<nat>)
    requires Increasing(a + (x + b))
    ensures Increasing(a + b)
  {
    forall j, k | 0 <= j < k < |a + b| ensures (a + b)[j] < (a + b)[k] {
      var j', k' := if j < |a| then j else j + |x|, if k < |a| then k else k + |x|;
      assert (a + (x + b))[j'] == (a + b)[j] && (a + (x + b))[k'] == (a + b)[k];
    }
  }

  lemma IncreasingExactly(a: seq<nat>, n: nat, b: seq<nat>)
    requires Increasing(a + b) && Below(a, n) && Below(b, n)
    ensures Increasing(a + [n] + b) <==> b == []
    ensures Increasing(a + (b + [n]))
  {
    assert a + (b + [n]) == (a + b) + [n];
    IncreasingGrows(a + b, n);
    if b == [] {
      assert a + [n] + b == a + b + [n];
    } else {
      assert (a + [n] + b)[|a|] == n && (a + [n] + b)[|a| + 1] == b[0];
    }
  }

  /** One step keeps an endpoint's reports in order exactly when it is not such an overtaking one. */
  lemma OrderExactly(u: Usb, e: Event, ep: Endpoint)
    requires Inv(u) && InOrder(u, ep)
    ensures InOrder(Step(u, e), ep) <==> !Overtakes(u, e, ep)
  {
    hide Increasing, Below, Latest, LossesOutdated;
    ConservedInRange(u);
    match e
    case Make(r) => MakeOrder(u, r, ep);
    case Proc =>
      if Ready(u) {
        ProcOrder(u.made, u.delivered, u.queue, ep);
      }
    case HostReads(_) =>
  }

  lemma ProcOrder(made: seq<Report>, delivered: seq<nat>, queue: seq<nat>, ep: Endpoint)
    requires |queue| > 0
    ensures Only(made, delivered + [queue[0]], ep) + Only(made, queue[1..], ep)
         == Only(made, delivered, ep) + Only(made, queue, ep)
  {
    hide Only;
    OnlySplits(made, delivered, [queue[0]], ep);
    OnlySplits(made, [queue[0]], queue[1..], ep);
    assert queue == [queue[0]] + queue[1..];
  }

  lemma MakeOrder(u: Usb, r: Report, ep: Endpoint)
    requires InOrder(u, ep) && Below(u.delivered, |u.made|) && Below(u.queue, |u.made|)
    ensures InOrder(Step(u, Make(r)), ep) <==> !Overtakes(u, Make(r), ep)
  {
    var n, made := |u.made|, u.made + [r];
    OnlyKept(u.made, r, u.delivered, ep);
    OnlyKept(u.made, r, u.queue, ep);
    OnlyOne(made, n, ep);
    var d, q := Only(made, u.delivered, ep), Only(made, u.queue, ep);
    if Busy(u, EndpointOf(r)) {
      PushedOrder(made, u.queue, n, d, ep);
    } else {
      OnlySplits(made, u.delivered, [n], ep);
      if EndpointOf(r) == ep {
        IncreasingExactly(d, n, q);
      } else {
        assert d + [] == d;
      }
    }
  }

  lemma PushedOrder(made: seq<Report>, queue: seq<nat>, n: nat, d: seq<nat>, ep: Endpoint)
    requires Below(d, n) && Below(Only(made, queue, ep), n) && Increasing(d + Only(made, queue, ep))
    ensures Increasing(d + Only(made, Pushed(queue, n), ep))
  {
    OnlyOne(made, n, ep);
    var q := Only(made, queue, ep);
    IncreasingExactly(d, n, q);
    if |queue| < 4 {
      OnlySplits(made, queue, [n], ep);
      assert q + [] == q;
    } else {
      var t := Only(made, queue[1..], ep);
      OnlySplits(made, queue[1..], [n], ep);
      OnlySplits(made, queue[..1], queue[1..], ep);
      assert queue == queue[..1] + queue[1..];
      var h := Only(made, queue[..1], ep);
      assert q == h + t;
      assert d + (q + [n]) == d + (h + (t + [n])) && t + [] == t;
      IncreasingWithout(d, h, t + [n]);
      IncreasingWithout(d, h, t);
    }
  }

  /** As long as no report overtakes, every endpoint gets its reports in the order made. */
  lemma {:induction false} OrderOfRuns(events: seq<Event>, ep: Endpoint)
    requires forall k :: 0 <= k < |events| ==> !Overtakes(After(events[..k]), events[k], ep)
    ensures InOrder(After(events), ep)
    decreases |events|
  {
    hide Step, Overtakes, Inv;
    if |events| == 0 {
    } else {
      var n := |events| - 1;
      forall k | 0 <= k < n ensures !Overtakes(After(events[..n][..k]), events[..n][k], ep) {
        assert events[..n][..k] == events[..k];
      }
      OrderOfRuns(events[..n], ep);
      EveryRun(events[..n]);
      OrderExactly(After(events[..n]), events[n], ep);
    }
  }

  /**
   A run that overtakes: a report is sent, a second one queued behind it, the host reads, and a third one is sent
   before the second.
   */
  lemma OvertakingIsReached(r: Report)
    requires r.KeyReport?
    ensures var u := After([Make(r), Make(r), HostReads(KeyboardIn), Make(r)]);
            u.delivered == [0, 2] && u.queue == [1] && !InOrder(u, KeyboardIn)
  {
    var events := [Make(r), Make(r), HostReads(KeyboardIn)];
    QueuedBehind(r);
    hide After, InOrder, Increasing;
    AfterNext(events, Make(r));
    assert events + [Make(r)] == [Make(r), Make(r), HostReads(KeyboardIn), Make(r)];
    var u := After(events + [Make(r)]);
    assert u == Usb([r, r, r], [0] + [2], [1], [], [1], true, false);
    OnlySplits(u.made, [0], [2], KeyboardIn);
    OnlyOne(u.made, 0, KeyboardIn);
    OnlyOne(u.made, 1, KeyboardIn);
    OnlyOne(u.made, 2, KeyboardIn);
    TwoBeforeOne(u);
  }

  /** The second report waits although its endpoint is free again. */
  lemma QueuedBehind(r: Report)
    requires r.KeyReport?
    ensures After([Make(r), Make(r), HostReads(KeyboardIn)]) == Usb([r, r], [0], [1], [], [1], false, false)
  {
    hide After;
    AfterNothing();
    AfterNext([], Make(r));
    var one := [] + [Make(r)];
    assert After(one) == Usb([r], [0], [], [], [], true, false);
    AfterNext(one, Make(r));
    var two := one + [Make(r)];
    assert After(two) == Usb([r, r], [0], [1], [], [1], true, false);
    AfterNext(two, HostReads(KeyboardIn));
    assert two + [HostReads(KeyboardIn)] == [Make(r), Make(r), HostReads(KeyboardIn)];
  }

  lemma TwoBeforeOne(u: Usb)
    requires Only(u.made, u.delivered, KeyboardIn) == [0] + [2] && Only(u.made, u.queue, KeyboardIn) == [1]
    ensures !InOrder(u, KeyboardIn)
  {
    var order := [0] + [2] + [1];
    assert order[1] > order[2];
  }

  lemma AfterNothing()
    ensures After([]) == IDLE
  {
  }

  lemma AfterNext(events: seq<Event>, e: Event)
    ensures After(events + [e]) == Step(After(events), e)
  {
    assert (events + [e])[..|events|] == events;
  }
}
