/**
 The headerless HID stream: what a decoder makes of the packets of application/audio/tl_audio.c when it takes
 them one after the other, and that it is the encoder's own predictions.
 */
module HidStream {
  import opened Adpcm
  import opened AdpcmFrame
  import opened AdpcmStream
  import opened AudioRing
  import opened PacketSlots

  /** `MIC_ADPCM_FRAME_SIZE` and `MIC_SHORT_DEC_SIZE` of the HID dongle */
  const FRAME_SIZE: nat := 120
  const DEC_SIZE: nat := 240
  const START: State := State(0, 0)

  type Packet = p: seq<Byte> | |p| == FRAME_SIZE witness seq(120, _ => 0)

  /** A decoder's state after the packets `ps`. */
  function StreamEnd(ps: seq<Packet>): State {
    if |ps| == 0 then START else FrameEnd(Hid, StreamEnd(ps[..|ps| - 1]), ps[|ps| - 1], DEC_SIZE)
  }

  /** What it plays for them. */
  function StreamPcm(ps: seq<Packet>): seq<Sample> {
    if |ps| == 0 then []
    else StreamPcm(ps[..|ps| - 1]) + FramePcm(Hid, StreamEnd(ps[..|ps| - 1]), ps[|ps| - 1], DEC_SIZE)
  }

  lemma StreamGrows(ps: seq<Packet>, p: Packet)
    ensures StreamEnd(ps + [p]) == FrameEnd(Hid, StreamEnd(ps), p, DEC_SIZE)
    ensures StreamPcm(ps + [p]) == StreamPcm(ps) + FramePcm(Hid, StreamEnd(ps), p, DEC_SIZE)
  {
    assert (ps + [p])[..|ps|] == ps;
  }

  lemma {:induction false} FrameSizes(log: seq<Record>, frames: seq<seq<Byte>>, now: State, stream: seq<Sample>, taken: nat)
    requires Encoded(Hid, START, log, frames, now, stream, taken)
    ensures forall p <- frames :: |p| == FRAME_SIZE
    decreases |log|
  {
    hide Frame, EncoderAfter;
    if |log| == 0 {
    } else {
      var n := |log| - 1;
      var last := log[n];
      FrameSizes(log[..n], frames[..n], last.st, stream, taken - DEC_SIZE);
      HidFrameSize(last.st, last.serial, last.xs);
      assert frames == frames[..n] + [frames[n]];
    }
  }

  /** The packets of an encoder that started in `START` decode to its predictions for all it encoded. */
  lemma {:induction false} StreamIsPredicted(log: seq<Record>, frames: seq<Packet>, now: State,
                                             stream: seq<Sample>, taken: nat)
    requires Encoded(Hid, START, log, frames, now, stream, taken)
    ensures StreamEnd(frames) == now
    ensures StreamPcm(frames) == Predictions(START, stream[..taken])
    decreases |log|
  {
    hide FrameEnd, FramePcm, Frame, EncoderAfter, Predictions;
    if |log| == 0 {
      NothingPredicted(stream);
    } else {
      var n := |log| - 1;
      var last := log[n];
      StreamIsPredicted(log[..n], frames[..n], last.st, stream, taken - DEC_SIZE);
      assert frames[n] + [] == frames[n];
      FrameDecodes(Hid, last.st, last.serial, last.xs, last.st, []);
      EncodedRun(Hid, START, log[..n], frames[..n], last.st, stream, taken - DEC_SIZE);
      assert stream[..taken] == stream[..taken - DEC_SIZE] + last.xs;
      PredictionsSplit(START, stream[..taken - DEC_SIZE], last.xs);
    }
  }

  /** The first `k` packets are what encoding their stretch of the stream gives. */
  lemma {:induction false} EncodedPrefix(log: seq<Record>, frames: seq<Packet>, now: State,
                                         stream: seq<Sample>, taken: nat, k: nat)
    returns (st: State)
    requires Encoded(Hid, START, log, frames, now, stream, taken) && k <= |log|
    ensures SlotAt(k, DEC_SIZE) <= taken <= |stream|
    ensures Encoded(Hid, START, log[..k], frames[..k], st, stream, SlotAt(k, DEC_SIZE))
    decreases |log|
  {
    hide Frame, EncoderAfter, Encoded;
    EncodedRun(Hid, START, log, frames, now, stream, taken);
    if k == |log| {
      st := now;
      assert log[..k] == log && frames[..k] == frames;
    } else {
      var n := |log| - 1;
      EncodedLast(Hid, START, log, frames, now, stream, taken);
      st := EncodedPrefix(log[..n], frames[..n], log[n].st, stream, taken - DEC_SIZE, k);
      assert log[..n][..k] == log[..k] && frames[..n][..k] == frames[..k];
    }
  }

  /** The first `k` packets of an encoder play the first `240 * k` of its predictions. */
  lemma PrefixIsPredicted(log: seq<Record>, frames: seq<Packet>, now: State, stream: seq<Sample>, taken: nat, k: nat)
    requires Encoded(Hid, START, log, frames, now, stream, taken) && k <= |log|
    ensures SlotAt(k, DEC_SIZE) <= |stream|
    ensures StreamPcm(frames[..k]) == Predictions(START, stream)[..SlotAt(k, DEC_SIZE)]
  {
    hide EncoderAfter, Predictions, Frame;
    var st := EncodedPrefix(log, frames, now, stream, taken, k);
    StreamIsPredicted(log[..k], frames[..k], st, stream, SlotAt(k, DEC_SIZE));
    var n := SlotAt(k, DEC_SIZE);
    assert stream == stream[..n] + stream[n..];
    PredictionsSplit(START, stream[..n], stream[n..]);
    PredictionsLength(START, stream[..n]);
  }

  lemma PredictionsLength(st: State, xs: seq<Sample>)
    ensures |Predictions(st, xs)| == |xs|
  {
  }

  lemma NothingPredicted(stream: seq<Sample>)
    ensures Predictions(START, stream[..0]) == []
  {
  }

  lemma HidFrameSize(st: State, serial: nat, xs: seq<Sample>)
    requires |xs| == DEC_SIZE
    ensures |Frame(Hid, st, serial, xs)| == FRAME_SIZE
  {
  }

  /** A decoder looks no further than the packet itself. */
  lemma PacketSuffices(own: State, p: Packet, bs: seq<Byte>)
    requires p <= bs
    ensures FramePcm(Hid, own, bs, DEC_SIZE) == FramePcm(Hid, own, p, DEC_SIZE)
    ensures FrameEnd(Hid, own, bs, DEC_SIZE) == FrameEnd(Hid, own, p, DEC_SIZE)
  {
    assert bs == p + bs[FRAME_SIZE..];
    UnpackIgnoresLookahead(p, bs[FRAME_SIZE..], DEC_SIZE, true);
    assert p[0..] == p && bs[0..] == bs;
  }
}
