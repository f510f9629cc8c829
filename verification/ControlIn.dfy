/**
 Control transfers to the host on endpoint 0 (application/usbstd/usb.c): a GetDescriptor request to the device,
 answered in chunks of eight bytes over the setup interrupt and any number of data interrupts
 (sections 5.5.3 and 9.3.5 of the USB 2.0 specification).
 */
module ControlIn {
  import opened Bounds
  import opened Options
  import opened PacketSlots

  type Half = h: int | 0 <= h < 65536
  type Text = d: seq<Byte> | |d| < 65536 witness []

  datatype Request = Request(requestType: Byte, request: Byte, value: Half, index: Half, length: Half)

  /** The descriptors of the device. */
  datatype Descriptors = Descriptors(device: Text, configuration: Text,
                                     language: Text, vendor: Text, product: Text, serial: Text)

  const DEVICE_TO_HOST: Byte := 0x80
  const HOST_TO_DEVICE: Byte := 0x00
  const REQ_GET_DESCRIPTOR: Byte := 6
  const REQ_GET_CONFIGURATION: Byte := 8
  const REQ_SET_CONFIGURATION: Byte := 9
  const DTYPE_DEVICE: nat := 1
  const DTYPE_CONFIGURATION: nat := 2
  const DTYPE_STRING: nat := 3

  // ----- what the host is to get

  /** The descriptor a request names, if the device has it. */
  function Find(ds: Descriptors, value: Half): Option<Text> {
    var (h, l) := (value / 256, value % 256);
    if h == DTYPE_DEVICE then Some(ds.device)
    else if h == DTYPE_CONFIGURATION then Some(ds.configuration)
    else if h == DTYPE_STRING && l == 0 then Some(ds.language)
    else if h == DTYPE_STRING && l == 1 then Some(ds.vendor)
    else if h == DTYPE_STRING && l == 2 then Some(ds.product)
    else if h == DTYPE_STRING && l == 3 then Some(ds.serial)
    else None
  }

  /** As much of the descriptor as the host asked for; nothing when the request is refused. */
  function Answer(ds: Descriptors, r: Request): (a: Text)
    ensures |a| <= r.length
  {
    match Find(ds, r.value)
    case None => []
    case Some(d) => d[..Min(r.length, |d|)]
  }

  /** The eight bytes of `a` from `8 * k` on, or what there is of them. */
  function Chunk(a: seq<Byte>, k: nat): seq<Byte> {
    a[Min(8 * k, |a|)..Min(8 * k + 8, |a|)]
  }

  function Joined(chunks: seq<seq<Byte>>): seq<Byte> {
    if |chunks| == 0 then [] else Joined(chunks[..|chunks| - 1]) + chunks[|chunks| - 1]
  }

  /** The chunks of a transfer are those of its answer. */
  ghost predicate ChunksOf(chunks: seq<seq<Byte>>, a: seq<Byte>) {
    forall k :: 0 <= k < |chunks| ==> chunks[k] == Chunk(a, k)
  }

  /** However many interrupts there are, the host gets the answer from its first byte on, and no more than it. */
  lemma {:induction false} ChunksJoin(chunks: seq<seq<Byte>>, a: seq<Byte>)
    requires ChunksOf(chunks, a)
    ensures Joined(chunks) == a[..Min(8 * |chunks|, |a|)]
  {
    if |chunks| == 0 {
    } else {
      ChunksJoin(chunks[..|chunks| - 1], a);
    }
  }

  /** A chunk is full, or the last one with any bytes, after which all are empty. */
  lemma ChunkSizes(a: seq<Byte>, k: nat)
    ensures |Chunk(a, k)| == if 8 * k + 8 <= |a| then 8 else if 8 * k < |a| then |a| - 8 * k else 0
    ensures |Chunk(a, k)| < 8 ==> forall j :: j > k ==> Chunk(a, j) == []
  {
  }

  /** The host sees the end of any answer: enough interrupts deliver all of it and then a chunk that is short. */
  lemma TransferEnds(chunks: seq<seq<Byte>>, a: seq<Byte>)
    requires ChunksOf(chunks, a)
    ensures Joined(chunks) == a && |chunks| > 0 && |chunks[|chunks| - 1]| < 8 <==> 8 * |chunks| > |a|
  {
    ChunksJoin(chunks, a);
    if |chunks| > 0 {
      ChunkSizes(a, |chunks| - 1);
    }
  }

  /** The descriptor that a value names. */
  lemma FindExactly(ds: Descriptors, value: Half)
    ensures value / 256 == 1 ==> Find(ds, value) == Some(ds.device)
    ensures value / 256 == 2 ==> Find(ds, value) == Some(ds.configuration)
    ensures value == 0x0300 ==> Find(ds, value) == Some(ds.language)
    ensures value == 0x0301 ==> Find(ds, value) == Some(ds.vendor)
    ensures value == 0x0302 ==> Find(ds, value) == Some(ds.product)
    ensures value == 0x0303 ==> Find(ds, value) == Some(ds.serial)
    ensures Find(ds, value) == None <==>
              !(value / 256 == 1 || value / 256 == 2 || (value / 256 == 3 && value % 256 <= 3))
  {
  }

  lemma SliceNext(s: seq<Byte>, from: nat, to: nat)
    requires from <= to < |s|
    ensures s[from..to] + [s[to]] == s[from..to + 1]
  {
  }

  lemma SliceOfPrefix(s: seq<Byte>, a: seq<Byte>, from: nat, to: nat)
    requires from <= to <= |a| && a <= s
    ensures s[from..to] == a[from..to]
  {
  }

  // ----- the code

  class Control {
    const descriptors: Descriptors
    var controlRequest: Request
    /** `g_response`: what it points into, and how far it has come */
    var response: Text
    var at: nat
    var gResponseLen: nat
    var gStall: bool
    var usbGConfig: bool
    var usbGConfigValue: Byte
    /** The chunks put into the endpoint since the last setup. */
    ghost var chunks: seq<seq<Byte>>

    ghost predicate Descriptor()
      reads this
    {
      controlRequest.requestType == DEVICE_TO_HOST && controlRequest.request == REQ_GET_DESCRIPTOR
    }

    /** While a descriptor is being sent, the chunks are those of the answer and the pointer stands behind them. */
    ghost predicate Valid()
      reads this
    {
      Descriptor() ==>
        && Sending(Answer(descriptors, controlRequest), |chunks|)
        && ChunksOf(chunks, Answer(descriptors, controlRequest))
    }

    ghost predicate Sending(a: Text, k: nat)
      reads this
    {
      && at == Min(8 * k, |a|) && at + gResponseLen == |a| <= |response|
      && response[..|a|] == a
    }

    constructor (descriptors: Descriptors)
      ensures Valid() && this.descriptors == descriptors
    {
      this.descriptors := descriptors;
      controlRequest := Request(0, 0, 0, 0, 0);
      response, at, gResponseLen := [], 0, 0;
      gStall, usbGConfig, usbGConfigValue := false, false, 0;
      chunks := [];
    }

    /** `usb_send_response`: the endpoint's buffer gets at most eight bytes */
    method UsbSendResponse(ghost a: Text, ghost k: nat) returns (data: seq<Byte>)
      requires Sending(a, k)
      modifies `at, `gResponseLen
      ensures data == Chunk(a, k) && Sending(a, k + 1)
    {
      var n := if gResponseLen < 8 then gResponseLen else 8;
      gResponseLen := gResponseLen - n;
      data := [];
      ghost var from := at;
      while n > 0
        modifies `at
        invariant 0 <= n && at + n == Min(from + 8, |a|) && from <= at
        invariant data == response[from..at]
      {
        SliceNext(response, from, at);
        data := data + [response[at]];
        at := at + 1;
        n := n - 1;
      }
      SliceOfPrefix(response, a, from, at);
    }

    /** `usb_prepare_desc_data` */
    method UsbPrepareDescData()
      modifies `response, `at, `gResponseLen, `gStall
      ensures Sending(Answer(descriptors, controlRequest), 0)
      ensures gStall == (old(gStall) || Find(descriptors, controlRequest.value).None?)
    {
      var valueL, valueH := controlRequest.value % 256, controlRequest.value / 256 % 256;
      response, at, gResponseLen := [], 0, 0;
      match valueH {
        case 1 => response := descriptors.device; gResponseLen := |response|;
        case 2 => response := descriptors.configuration; gResponseLen := |response|;
        case 3 =>
          if valueL == 0 {
            response := descriptors.language; gResponseLen := |response|;
          } else if valueL == 1 {
            response := descriptors.vendor; gResponseLen := |response|;
          } else if valueL == 2 {
            response := descriptors.product; gResponseLen := |response|;
          } else if valueL == 3 {
            response := descriptors.serial; gResponseLen := |response|;
          } else {
            gStall := true;
          }
        case _ => gStall := true;
      }
      if controlRequest.length < gResponseLen {
        gResponseLen := controlRequest.length;
      }
    }

    /** The standard device requests of `usb_handle_request` */
    method UsbHandleRequest(setup: bool) returns (data: seq<Byte>)
      requires controlRequest.requestType == DEVICE_TO_HOST || controlRequest.requestType == HOST_TO_DEVICE
      requires if setup then chunks == [] else Valid()
      modifies `response, `at, `gResponseLen, `gStall, `usbGConfig, `usbGConfigValue, `chunks
      ensures Valid() && chunks == old(chunks) + [data]
      ensures Descriptor() ==>
                && data == Chunk(Answer(descriptors, controlRequest), |old(chunks)|)
                && gStall == (old(gStall) || (setup && Find(descriptors, controlRequest.value).None?))
      ensures !Descriptor() ==> gStall == old(gStall)
      ensures controlRequest.requestType == DEVICE_TO_HOST && controlRequest.request == REQ_GET_CONFIGURATION ==>
                data == [old(usbGConfigValue)]
      ensures usbGConfigValue
           == if controlRequest.requestType == 0 && controlRequest.request == 9 then controlRequest.value % 256
              else old(usbGConfigValue)
      ensures usbGConfig
           == (old(usbGConfig)
               || (controlRequest.requestType == 0 && controlRequest.request == 9 && controlRequest.value % 256 != 0))
    {
      hide Chunk, Answer, Find;
      data := [];
      if controlRequest.requestType == DEVICE_TO_HOST {
        if controlRequest.request == REQ_GET_DESCRIPTOR {
          if setup {
            UsbPrepareDescData();
          }
          data := UsbSendResponse(Answer(descriptors, controlRequest), |chunks|);
        } else if controlRequest.request == REQ_GET_CONFIGURATION {
          data := [usbGConfigValue];
        }
      } else if controlRequest.request == REQ_SET_CONFIGURATION {
        usbGConfigValue := controlRequest.value % 256;
        if controlRequest.value % 256 != 0 {
          usbGConfig := true;
        }
      }
      chunks := chunks + [data];
    }

    /** `usb_handle_ctl_ep_setup`: the chunk put into the endpoint, and whether it is stalled */
    method SetupInterrupt(r: Request) returns (data: seq<Byte>, stall: bool)
      requires r.requestType == DEVICE_TO_HOST || r.requestType == HOST_TO_DEVICE
      modifies this
      ensures Valid() && controlRequest == r && chunks == [data]
      ensures stall <==>
        r.requestType == 0x80 && r.request == 6
        && !(r.value / 256 == 1 || r.value / 256 == 2 || (r.value / 256 == 3 && r.value % 256 <= 3))
      ensures usbGConfigValue == if r.requestType == 0 && r.request == 9 then r.value % 256 else old(usbGConfigValue)
      ensures r.requestType == 0x80 && r.request == 8 ==> data == [usbGConfigValue]
    {
      FindExactly(descriptors, r.value);
      hide Find;
      controlRequest := r;
      gStall := false;
      chunks := [];
      data := UsbHandleRequest(true);
      stall := gStall;
    }

    /** `usb_handle_ctl_ep_data`, which never stalls a descriptor, even one refused at its setup */
    method DataInterrupt() returns (data: seq<Byte>, stall: bool)
      requires Valid()
      requires controlRequest.requestType == DEVICE_TO_HOST || controlRequest.requestType == HOST_TO_DEVICE
      modifies this
      ensures Valid() && controlRequest == old(controlRequest) && chunks == old(chunks) + [data] && !stall
      ensures usbGConfigValue
           == if controlRequest.requestType == 0 && controlRequest.request == 9 then controlRequest.value % 256
              else old(usbGConfigValue)
    {
      gStall := false;
      data := UsbHandleRequest(false);
      stall := gStall;
    }

    /** What has been sent of a descriptor: its beginning, eight bytes for each interrupt, up to the length asked for. */
    lemma SentSoFar()
      requires Valid() && controlRequest.requestType == 0x80 && controlRequest.request == 6
      ensures var value, n := controlRequest.value, Min(8 * |chunks|, controlRequest.length);
              && (value / 256 == 1 ==> Joined(chunks) == descriptors.device[..Min(n, |descriptors.device|)])
              && (value / 256 == 2 ==> Joined(chunks) == descriptors.configuration[..Min(n, |descriptors.configuration|)])
              && (value == 0x0300 ==> Joined(chunks) == descriptors.language[..Min(n, |descriptors.language|)])
              && (value == 0x0301 ==> Joined(chunks) == descriptors.vendor[..Min(n, |descriptors.vendor|)])
              && (value == 0x0302 ==> Joined(chunks) == descriptors.product[..Min(n, |descriptors.product|)])
              && (value == 0x0303 ==> Joined(chunks) == descriptors.serial[..Min(n, |descriptors.serial|)])
              && (!(value / 256 == 1 || value / 256 == 2 || (value / 256 == 3 && value % 256 <= 3)) ==> Joined(chunks) == [])
    {
      FindExactly(descriptors, controlRequest.value);
      ChunksJoin(chunks, Answer(descriptors, controlRequest));
      BeginningOf(descriptors, controlRequest, |chunks|);
    }
  }

  lemma BeginningOf(ds: Descriptors, r: Request, k: nat)
    ensures var a := Answer(ds, r);
            match Find(ds, r.value)
            case None => a == []
            case Some(d) => a[..Min(8 * k, |a|)] == d[..Min(Min(8 * k, r.length), |d|)]
  {
    hide Find;
  }

  /** A request and `n` data interrupts after it. */
  method Transfer(c: Control, r: Request, n: nat) returns (stall: bool)
    requires r.requestType == 0x80 && r.request == 6
    modifies c
    ensures c.Valid() && c.controlRequest == r && |c.chunks| == n + 1
    ensures stall <==> !(r.value / 256 == 1 || r.value / 256 == 2 || (r.value / 256 == 3 && r.value % 256 <= 3))
    ensures r.value / 256 == 1 ==>
              Joined(c.chunks) == c.descriptors.device[..Min(Min(8 * (n + 1), r.length), |c.descriptors.device|)]
    ensures r.value / 256 == 2 ==>
              Joined(c.chunks)
              == c.descriptors.configuration[..Min(Min(8 * (n + 1), r.length), |c.descriptors.configuration|)]
  {
    var data;
    data, stall := c.SetupInterrupt(r);
    for i := 0 to n
      invariant c.Valid() && c.controlRequest == r && |c.chunks| == i + 1
    {
      var more, refused := c.DataInterrupt();
    }
    c.SentSoFar();
  }

  /** A configuration that was set is the one answered. */
  method Configure(c: Control, choice: Request, ask: Request) returns (data: seq<Byte>)
    requires choice.requestType == 0 && choice.request == 9 && ask.requestType == 0x80 && ask.request == 8
    modifies c
    ensures data == [choice.value % 256]
  {
    var nothing, accepted := c.SetupInterrupt(choice);
    var stall;
    data, stall := c.SetupInterrupt(ask);
  }
}
