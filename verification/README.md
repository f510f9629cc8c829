# Verified model of the Telink BLE single-connection SDK

The project models the algorithms of the SDK's audio, flash, keyboard, USB and utility code in Dafny and proves
properties of the model. `dafny verify dfyconfig.toml` checks all of it.

## What is modelled

**The voice path** (`Adpcm`, `AdpcmConvergence`, `AdpcmStream`, `AdpcmFrame`, `PacketSlots`, `PacketRings`,
`StepTable`, `Microphone`, `AudioRing`, `ReceiveRings`, `UsbPlayback`, `GattDongles`, `GattLink`, `HidStream`, `HidDongles`,
`HidLink`, `NoiseGate`). A remote control samples sound into a ping-pong buffer, compresses it with the IMA ADPCM
recurrence (DVI4, section 4.5.1 of RFC 3551) into packets of a ring of four, and a dongle decodes them and plays them
to a USB host. The encoder's greedy loop and the decoder's bit tests are proved to stay in exact lockstep through
packing, headers and nibble swaps, in the Telink, Google 0.4 and HID builds.

Above the codec, each link is a machine whose steps may come in any order. The GATT link (Telink and Google 0.4) has
seven: capture, encode, send, decode, a read of the USB host, the dongle's restart after silence and a new session of
the remote control. Its invariant gives that every sample the host gets is the encoder's prediction for some stretch of
the sound, whatever packets were dropped, skipped or overwritten; and that while none was skipped or overwritten in
the dongle since it last resynchronised, the host gets the frames that were received, in the order encoded. `FirstSound`
is a run from power on that reaches such a read.

The HID link has no headers and refuses when its ring is full. A session begins with a restart of each end, which are
in step when nothing is sent in between. What its dongle then decodes is a prefix of the encoder's predictions unless
it decodes with more than eight packets waiting; what the host hears is an uninterrupted stretch of them as long as the decoder does
not write over a packet the host has still to read, which the HID code does not prevent. `HidDongle.UsbIso` says exactly
when a read is of the packet due.

**Flash programming** (`FlashMemory` in `Flash.dfy`). The driver shifts bytes to a chip model in which a command takes
effect when chip select rises, programming only clears bits and wraps in its page, and a command sent too early or
without a write enable is ignored. The chunking loop refines one flat write.

**The keyboard** (`GhostKeys`, `Debounce`, `KeyMatrix`, `KeyRemap`): ghost removal, the two-scan debounce filter over
whole runs, the drop-oldest ring of changed matrices, and the mapping to an event of at most six key codes.

**Primitives** (`Multiply`, `PacketFifo`, `CopyBytes`, `PrintInteger`, `PrintFields`, `AdcFilter`): the 32x32 multiply, the packet
FIFO, overlapping copies, integer fields and the ADC's trimmed mean.

**USB** (`UsbReports`, `UsbFifo`, `ControlIn`): the queue of four reports that keyboard and mouse share, refined to a
machine over all interleavings of reports, polls and host reads, and GetDescriptor control transfers over any sequence
of interrupts.

`Runs`, `Modulo`, `Bounds` and `Options` are general helpers.

Objects that the C code updates in place are classes with those fields; ghost fields record histories (every packet
stored, every report made) that the invariants speak about. Words are unbounded integers with the width written out:
`Sample`, `Byte` and `Int32` are ranges, 8-bit pointers wrap in `Next`, 32-bit sums in `Wrap`. Row and control bits
are bit vectors.

## What the inputs stand for

- Scan results, ADC words, captured samples, received packets, USB setup packets and number-lock flags are arbitrary
  parameters. Whether 4 ms have passed is a parameter of `abuf_dec_usb`.
- The flash chip answers every status poll and is done before the driver's ten million polls run out.
- The predictions are those for the samples the encoder took. These are the captured ones as long as the hardware was
  never a whole buffer ahead (`SpokenIsCaptured`). Where the hardware's write position starts in a later session is not
  part of this model; a restart elsewhere in the buffer counts as capturing again what is there.
- A received header's index byte is at most 88, as every header the encoder writes is; the decoder does not check it.
- The dongle's array of received packets is one byte longer than the code's. The decoder fetches one byte behind the
  packet, which it does not use; for the last slot, and only there, that byte lies outside the code's array
  (`LookaheadLeavesExactly`).
- What a Google 0.4 packet holds behind its frame is arbitrary.
- While nothing is played the Telink build sends 16 zeros and the Google and HID builds an empty packet (`zeros`).
- Steps are atomic: a USB read does not happen in the middle of a decoder step.
- `my_fifo` has a power of two of at most 128 packets, and a packet one byte shorter than the slot size that goes into
  the last slot finds one more byte behind it. `my_fifo_next` is called with an entry written where there is room.
- Copies are shorter than 2^31 bytes, so that the length stays positive as an `int`.
- A mouse report has at most four bytes, as all callers' do, although the function's own assertion admits seven.
- Whether ghost keys are removed (`KB_RM_GHOST_KEY_EN`) is a parameter; it is off by default.

## Where code and comments or names disagree

The model follows the code.

- The Telink encoder's comment speaks of 62 samples in 124 bytes (`tc_ble_single_sdk/application/audio/adpcm.c:73`);
  a packet holds 248.
- In `abuf_dec_usb` the test `(n_usb_iso & 3)` can never decide anything, because `num` is not 0 there.
- The decoded-packet read pointer is reset at 256 packets, but a read of 16 samples can step over that point when a
  packet is not a multiple of 16 samples long (Telink, 248) and the pointer is 8 samples off. `PlaysOnExactly` and
  `PlaysOnAfterReset` say exactly when playback then jumps back by 8 samples.
- The HID dongle decodes a fifth packet over one the host has still to read, where the Telink and Google builds wait;
  `HostHearsThePredictions` has the condition and `HostReadsAfter` runs on either side of it.
- A Telink read of 16 samples that begins 8 samples before the end of a packet takes 8 samples of the next one, which
  may not be decoded yet; `OwnExactly` says exactly when, and `LateRead` is such a run.
- The debounce filter is not a vote over the last three raw scans: it keeps its own last output when two scans differ.
- Left alignment with zero padding (`%-05d`) pads with zeros on the right, so the field shows another number;
  `FieldReadsBack` gives exactly that case.
- A descriptor that is refused with a stall at setup is answered with empty, acknowledged chunks by later data
  interrupts.
- A new report whose endpoint is free is sent before older ones for it that still wait; `OrderExactly` gives exactly
  that case.

## Model

| member | source | states |
|---|---|---|
| `Adpcm.StepTableShape` | tc_ble_single_sdk/application/audio/adpcm.c:33-42 | the step table grows strictly from 7 to 32767, and an eighth of an entry plus two is below the entry before it |
| `Adpcm.GreedyMatchesBits` | tc_ble_single_sdk/application/audio/adpcm.c:88-97 | the encoder's greedy subtract loop and the decoder's bit tests compute the same difference from a code, for every step and distance |
| `Adpcm.StepLockstep` | tc_ble_single_sdk/application/audio/adpcm.c:300-345 | fed the encoder's code, the decoder lands in the encoder's next state, from any state and for any sample |
| `Adpcm.ClampNeverHurts` | tc_ble_single_sdk/application/audio/adpcm.c:111-116 | the 16-bit clamp never takes the predictor further from a 16-bit sample |
| `Adpcm.QuantiserBound` | tc_ble_single_sdk/application/audio/adpcm.c:76-116 | a distance below two steps is brought down to an eighth of the step plus two |
| `Adpcm.OverloadStep` | tc_ble_single_sdk/application/audio/adpcm.c:76-124 | beyond that the magnitude bits are 7, the predictor moves by all of `diffq` without overshooting or clamping, and the index climbs by 8 |
| `Adpcm.IndexFalls` | tc_ble_single_sdk/application/audio/adpcm.c:118-124 | the index sinks exactly when the distance was below the step |
| `StepTable.StepTableExactly` | tc_ble_single_sdk/application/audio/adpcm.c:33-42 | every entry of the step table: 7 to 14, then 16 growing by a tenth and rounded down, and 32767 at the end |
| `Adpcm.CodeByDistance` | tc_ble_single_sdk/application/audio/adpcm.c:76-116 | which code every distance gets, in steps, half steps and quarter steps, and how far the predictor moves, for both signs and with the clamp |
| `Adpcm.IndexRises` | tc_ble_single_sdk/application/audio/adpcm.c:118-124 | from the step size on the index climbs by 2, 4, 6 or 8, as the distance grows by quarter steps |
| `Adpcm.DecodeByCode` | tc_ble_single_sdk/application/audio/adpcm.c:307-345 | what the decoder makes of each of the sixteen codes, in any state |
| `AdpcmConvergence.RankDrops` | tc_ble_single_sdk/application/audio/adpcm.c:74-125 | each sample of a constant input brings a count of at most 102 down until the state no longer moves |
| `AdpcmConvergence.ExactConvergence` | tc_ble_single_sdk/application/audio/adpcm.c:74-125 | from any state a constant 16-bit input is reproduced exactly, at index 0, after 102 samples and for ever |
| `AdpcmConvergence.DecodedConvergence` | tc_ble_single_sdk/application/audio/adpcm.c:300-360 | the decoded stream equals the constant from then on, through the codes |
| `AdpcmStream.StateLockstep` | tc_ble_single_sdk/application/audio/adpcm.c:74-125 | encoder and decoder states stay equal over every run |
| `AdpcmStream.PcmLockstep` | tc_ble_single_sdk/application/audio/adpcm.c:304-360 | the decoder's samples are the encoder's predictions over every run |
| `AdpcmStream.PredictionIsNear` | tc_ble_single_sdk/application/audio/adpcm.c:74-125 | each prediction is made from its own sample and, unless the step overloads, within an eighth of the step size and two of it |
| `AdpcmStream.UnpackPack` | tc_ble_single_sdk/application/audio/adpcm.c:99-102 | unpacking the emitted words gives the codes back, the nibble swaps of the Google and HID builds cancelling |
| `AdpcmStream.UnpackIgnoresLookahead` | tc_ble_single_sdk/application/audio/adpcm.c:346-351 | the byte the decoder fetches beyond the last code does not matter |
| `AdpcmStream.PackedLockstep` | tc_ble_single_sdk/application/audio/adpcm.c:74-125 | lockstep through the packed bytes, for whole groups of four samples |
| `AdpcmFrame.HeaderRoundTrip` | tc_ble_single_sdk/application/audio/adpcm.c:64-71 | a Telink or Google 0.4 header carries the whole state to a receiver in any state |
| `AdpcmFrame.FrameBytes` | tc_ble_single_sdk/application/audio/adpcm.c:57-107 | the bytes on the air for each build: header fields in their order, and which half of a byte holds which code |
| `AdpcmFrame.FrameDecodes` | tc_ble_single_sdk/application/audio/adpcm.c:289-361 | a frame decodes to the encoder's predictions and leaves the encoder's state, whatever follows it in memory |
| `AdpcmFrame.Google10StartsApart` | tc_ble_single_sdk/application/audio/adpcm.c:135-135 | the headerless Google 1.0 pair starts at indices 1 and 0: a frame then decodes to the predictions exactly when it is empty |
| `AdpcmFrame.Quantise` | tc_ble_single_sdk/application/audio/adpcm.c:88-97 | the in-place loop computes the greedy quantum |
| `AdpcmFrame.Encoder.WriteHeader` | tc_ble_single_sdk/application/audio/adpcm.c:146-152 | the header bytes, for each variant |
| `AdpcmFrame.Encoder.EncodeSample` | tc_ble_single_sdk/application/audio/adpcm.c:76-124 | one round of the sample loop is one encoder step |
| `AdpcmFrame.Encoder.EncodeSamples` | tc_ble_single_sdk/application/audio/adpcm.c:74-125 | the loop leaves the state of the run and the packed codes at the output pointer, nothing else changed |
| `AdpcmFrame.Encoder.MicToAdpcmSplit` | tc_ble_single_sdk/application/audio/adpcm.c:53-126 | a call writes exactly one frame, or the continuation of one, and keeps the output pointer behind it |
| `AdpcmFrame.DecodeSample` | tc_ble_single_sdk/application/audio/adpcm.c:306-344 | one round of the decoder's loop is one decoder step |
| `AdpcmFrame.Decoder.AdpcmToPcm` | tc_ble_single_sdk/application/audio/adpcm.c:289-361 | a call writes exactly the frame's samples; only the headerless builds keep the state |
| `PacketSlots.PtrDistance` | tc_ble_single_sdk/application/audio/tl_audio.c:907-908 | 8-bit pointer differences and comparisons are right across the wrap |
| `PacketSlots.PtrSlotOf` | tc_ble_single_sdk/common/utility.c:119-119 | a wrapped 8-bit pointer still tells the slot in rings of any power of two up to 128 |
| `PacketSlots.WriteSlot` | tc_ble_single_sdk/application/audio/tl_audio.c:721-730 | writing the next packet costs at most the oldest one and damages no other |
| `PacketSlots.PtrIsRemainder` | tc_ble_single_sdk/application/audio/tl_audio.c:726-726 | a free-running 8-bit pointer after `n` increments is `n` modulo 256 |
| `PacketSlots.LatestSharesSlot` | tc_ble_single_sdk/application/audio/tl_audio.c:889-889 | the packet that a full turn has put into a slot is the latest of all that share it |
| `PacketRings.PacketRing.DropExcess` | tc_ble_single_sdk/application/audio/tl_audio.c:726-730 | drop-oldest: the pointer moves on exactly when a fifth packet is stored |
| `PacketRings.PacketRing.HasRoom` | tc_ble_single_sdk/application/audio/tl_audio.c:344-344 | the refuse-when-full test is exact |
| `PacketRings.PacketRing.DataBuffer` | tc_ble_single_sdk/application/audio/tl_audio.c:420-431 | null exactly when empty, else the oldest packet's bytes |
| `PacketRings.PacketRing.DataReadOk` | tc_ble_single_sdk/application/audio/tl_audio.c:433-436 | the oldest packet leaves; the ring stays sound exactly if there was one |
| `Microphone.MicBuffer.Capture` | tc_ble_single_sdk/drivers/B85/audio.h:131-134 | the hardware fills the ping-pong buffer round and round, whether or not the encoder has taken what was there; while it was never a whole buffer ahead, what was taken is a prefix of what was captured |
| `Microphone.MicBuffer.HalfReady` | tc_ble_single_sdk/application/audio/tl_audio.c:340-344 | the half-ready test is exact in both halves, with the `0xffff` of the wrapped case, but blind to whole laps |
| `Microphone.MicBuffer.TakeHalf` | tc_ble_single_sdk/application/audio/tl_audio.c:346-411 | the samples taken are, for each place in the half, the latest captured, which are the next ones unless the hardware has lapped |
| `AudioRing.MicEncoder.ProcMicEncoder` | tc_ble_single_sdk/application/audio/tl_audio.c:652-733 | encodes the waiting half, drops the oldest packet (GATT) or refuses when full (HID), and keeps the history exact |
| `AudioRing.MicEncoder.SpokenIsCaptured` | tc_ble_single_sdk/application/audio/tl_audio.c:338-418 | what was encoded is a stretch of the captured sound, unless the hardware has been a whole buffer ahead |
| `AudioRing.MicEncoder.AudioOn` | tc_ble_single_sdk/vendor/ble_remote/app_audio.c:192-216 | a voice session starts the ring's pointers again, and in the HID build the encoder; the history of a GATT encoder goes on |
| `AudioRing.FrameFillsPacket` | tc_ble_single_sdk/application/audio/audio_config.h:34-58 | a frame of 248 or 240 samples fills the Telink and HID packets of 128 and 120 bytes, one of 256 leaves 2 of the 136 of the Google one |
| `AudioRing.EncodedAt` | tc_ble_single_sdk/application/audio/tl_audio.c:721-730 | every packet in the history is a stretch of one encoder run over the whole captured stream |
| `AudioRing.SurvivorDecodes` | tc_ble_single_sdk/application/audio/tl_audio.c:721-730 | any surviving frame with a header (Telink, Google 0.4) decodes to the encoder's predictions for its stretch, whatever was dropped before |
| `ReceiveRings.ReceiveRing.AbufMicAdd` | tc_ble_single_sdk/application/audio/tl_audio.c:887-895 | a received packet is stored whether or not there is room, and every slot then holds the latest packet that went into it |
| `ReceiveRings.LookaheadLeavesExactly` | tc_ble_single_sdk/application/audio/adpcm.c:346-347 | the byte the decoder fetches behind a packet lies outside the array exactly for the last slot |
| `ReceiveRings.ReceiveRing.NumMic` | tc_ble_single_sdk/application/audio/tl_audio.c:907-907 | the 8-bit count of packets to decode is the true one modulo 256, however far the dongle is behind |
| `UsbPlayback.ContinuesUnlessSlips` | tc_ble_single_sdk/application/audio/tl_audio.c:989-992 | the read pointer's reset at the end of its range keeps its place in the ring, but for one case |
| `UsbPlayback.PlaysOnExactly` | tc_ble_single_sdk/application/audio/tl_audio.c:963-992 | reads follow each other in the ring for ever exactly when the packet size is 256 or the pointer is a multiple of 16 samples |
| `UsbPlayback.PlaysOnAfterReset` | tc_ble_single_sdk/application/audio/tl_audio.c:949-953 | after a reset to packet `wptr` that is so in the HID and Google builds always, in the Telink build exactly when `wptr` is even |
| `UsbPlayback.WriteBlock` | tc_ble_single_sdk/application/audio/tl_audio.c:923-926 | decoding into a slot replaces what it held and nothing else |
| `UsbPlayback.OwnExactly` | tc_ble_single_sdk/application/audio/tl_audio.c:956-986 | while no packet was skipped or overwritten, a read sends the samples of the packets it should exactly when two packets are ahead or the read stays in its packet |
| `UsbPlayback.Playback.Decoded` | tc_ble_single_sdk/application/audio/tl_audio.c:923-928 | a decoded block joins the ring at its position; a packet still to be read is lost exactly when four were ahead |
| `UsbPlayback.Playback.NumDec` | tc_ble_single_sdk/application/audio/tl_audio.c:908-908 | the count of decoded packets is the distance from reader to writer, across the 8-bit wrap |
| `UsbPlayback.Playback.ReadSplit` | tc_ble_single_sdk/application/audio/tl_audio.c:963-986 | the 16 samples sent are those of the packets in the slots from the read position on, in one part or two |
| `UsbPlayback.Playback.MoveOn` | tc_ble_single_sdk/application/audio/tl_audio.c:989-992 | the read pointer goes 16 samples on: inside its packet, into the next one, or, after packet 255, back to the start of its range, losing an offset of 8 |
| `UsbPlayback.Playback.AbufDecUsb` | tc_ble_single_sdk/application/audio/tl_audio.c:935-1011 | what is sent, where the pointer goes, that a pending reset moves it to the write position, and that after a gap nothing is sent until three packets are ahead |
| `GattDongles.GattDongle.AbufInit` | tc_ble_single_sdk/application/audio/tl_audio.c:881-885 | the pointers start again, and every block decoded before counts as one of an earlier time |
| `GattDongles.GattDongle.AbufMicDec` | tc_ble_single_sdk/application/audio/tl_audio.c:897-932 | when a packet is decoded, skipped or a reset begun, and that what is decoded is what the slot holds by then: the latest packet in it, the one due exactly while at most four wait |
| `GattDongles.GattDongle.UsbIso` | tc_ble_single_sdk/application/audio/tl_audio.c:935-1011 | after a resynchronisation the packets waiting to be read are those received at these positions, as long as none was skipped or overwritten |
| `GattLink.PowerOn` | tc_ble_single_sdk/application/audio/tl_audio.c:865-879 | the link invariant holds at power on, in the Telink and the Google 0.4 build |
| `GattLink.VoiceLink.Encode` | tc_ble_single_sdk/application/audio/tl_audio.c:652-733 | the link invariant survives an encoder step, the oldest packet dropped when the ring is full |
| `GattLink.VoiceLink.Send` | tc_ble_single_sdk/application/audio/tl_audio.c:735-751 | the packet sent is one of the encoder's frames, however many were dropped |
| `GattLink.VoiceLink.Decode` | tc_ble_single_sdk/application/audio/tl_audio.c:897-932 | the link invariant survives a decoder step, through overflow, skips and resets |
| `GattLink.VoiceLink.UsbIso` | tc_ble_single_sdk/application/audio/tl_audio.c:935-1011 | over every run and every loss, each sample sent to the host is the encoder's prediction for its place in some stretch of the sound, or 0 from a slot never written; and with nothing skipped or overwritten since the last resynchronisation, the read is of the frames received at its positions, in the order encoded, unless it runs into a packet not decoded yet |
| `GattLink.VoiceLink.Init` | tc_ble_single_sdk/vendor/ble_master_kma_dongle/app_audio.c:98-110 | the link invariant survives `abuf_init` at any moment, with the decoded packets still in their slots |
| `GattLink.VoiceLink.AudioOn` | tc_ble_single_sdk/vendor/ble_remote/app_audio.c:192-216 | and a new voice session of the remote control at any moment |
| `GattLink.FramePlays` | tc_ble_single_sdk/application/audio/tl_audio.c:923-926 | any frame, from any decoder state, decodes to its stretch of the encoder's predictions |
| `GattLink.FirstSound` | tc_ble_single_sdk/application/audio/tl_audio.c:897-1011 | a run of the machine from power on, for each of the two builds and every sound of three packets: the host first gets the beginning of the encoder's predictions |
| `GattLink.LateRead` | tc_ble_single_sdk/application/audio/tl_audio.c:935-1011 | continued in the Telink build with no fourth packet, the 47th read takes eight samples of a packet that is not there |
| `HidStream.StreamIsPredicted` | tc_ble_single_sdk/application/audio/tl_audio.c:1229-1235 | all HID packets in order decode to the encoder's predictions, though no frame carries a header |
| `HidStream.PrefixIsPredicted` | tc_ble_single_sdk/application/audio/tl_audio.c:1229-1235 | the first packets in order decode to the beginning of them |
| `HidDongles.HidDongle.AbufInit` | tc_ble_single_sdk/application/audio/tl_audio.c:1185-1194 | the pointers and the decoder's state start again |
| `HidDongles.HidDongle.AbufMicAdd` | tc_ble_single_sdk/application/audio/tl_audio.c:1195-1203 | a packet joins the ring of eight, over the oldest when eight already wait |
| `HidDongles.HidDongle.AbufMicDec` | tc_ble_single_sdk/application/audio/tl_audio.c:1205-1238 | what the slot holds by then is decoded, as part of one stream, the first packet only once a second is there; it is the packet due exactly when at most eight wait; more than four that the host has not read are dropped, and at four the decoder writes over the oldest |
| `HidDongles.OwnWhileNear` | tc_ble_single_sdk/application/audio/tl_audio.c:1229-1235 | a decoded packet is still in its slot exactly while at most four are ahead of the reader |
| `HidDongles.HidDongle.UsbIso` | tc_ble_single_sdk/application/audio/tl_audio.c:1241-1317 | a read is of the packet due exactly when at most four decoded ones are ahead, and then sends the next 16 decoded samples; what was sent since the last resynchronisation grows by just them |
| `HidLink.PowerOn` | tc_ble_single_sdk/application/audio/tl_audio.c:1170-1183 | the link invariant holds at power on |
| `HidLink.VoiceLink.Encode` | tc_ble_single_sdk/application/audio/tl_audio.c:338-418 | the link invariant survives an encoder step, which refuses when the ring is full |
| `HidLink.VoiceLink.Send` | tc_ble_single_sdk/application/audio/tl_audio.c:420-436 | each packet goes over once, in order, when only non-null buffers are acknowledged |
| `HidLink.VoiceLink.Decode` | tc_ble_single_sdk/application/audio/tl_audio.c:1205-1238 | the link invariant survives a decoder step, and what the host got stays as it was unless more than four packets are dropped |
| `HidLink.VoiceLink.UsbIso` | tc_ble_single_sdk/application/audio/tl_audio.c:1241-1317 | the link invariant survives a read, with what it sends, where the next one begins, and that just this joins what the host got |
| `HidLink.VoiceLink.AbufInit` | tc_ble_single_sdk/vendor/ble_master_kma_dongle/blm_host.c:690-698 | the dongle begins a session at any moment: the ends are in step if the remote control has sent nothing of its own |
| `HidLink.VoiceLink.AudioOn` | tc_ble_single_sdk/vendor/ble_remote/app_audio.c:202-216 | the remote control begins one: the ends are in step if the dongle has received nothing since its own beginning |
| `HidLink.NewSession` | tc_ble_single_sdk/vendor/ble_master_kma_dongle/blm_host.c:690-698 | both one after the other, with nothing sent in between, bring the ends into step from any state |
| `HidLink.VoiceLink.DecodesThePredictions` | tc_ble_single_sdk/application/audio/tl_audio.c:1185-1238 | at any moment of any run with the ends in step, what the dongle has decoded in this session is a prefix of the encoder's predictions for the sound it took, unless a ninth packet came before one was decoded |
| `HidLink.VoiceLink.HostHearsThePredictions` | tc_ble_single_sdk/application/audio/tl_audio.c:1185-1317 | what the host has got since the last resynchronisation is one uninterrupted stretch of the predictions, as long as each decode since then found fewer than four decoded packets ahead |
| `HidLink.HostReadsAfter` | tc_ble_single_sdk/application/audio/tl_audio.c:1205-1317 | runs from power on at the border of that condition: with up to four packets decoded before the first read the host gets the beginning of the predictions, with five the first packet is gone |
| `HidLink.NinthIsFirst` | tc_ble_single_sdk/application/audio/tl_audio.c:1195-1238 | with nine packets sent before the first is decoded, the ninth is decoded in its place |
| `NoiseGate.StepKeepsInv` | tc_ble_single_sdk/application/audio/tl_audio.h:81-101 | gain within 0..256 and the averages bounded, although `md_long` is reloaded with `md_short << 2` |
| `NoiseGate.StepRules` | tc_ble_single_sdk/application/audio/tl_audio.h:81-103 | the averages with their weights, when the gate opens and shuts, the reload of `md_long`, the gain that slides by one, and the rounding |
| `NoiseGate.LoudSampleOpens` | tc_ble_single_sdk/application/audio/tl_audio.h:85-93 | one sample of at least 12304 opens a shut gate, however quiet it was |
| `NoiseGate.NoOverflow` | tc_ble_single_sdk/application/audio/tl_audio.h:81-103 | no intermediate result leaves 32 bits |
| `NoiseGate.NeverLouder` | tc_ble_single_sdk/application/audio/tl_audio.h:103-103 | the output is never louder than the input and keeps its sign |
| `NoiseGate.StreamKeepsInv` | tc_ble_single_sdk/application/audio/tl_audio.h:73-104 | the bounds hold after every input stream |
| `NoiseGate.QuietIsMuted` | tc_ble_single_sdk/application/audio/tl_audio.h:89-103 | an input below the threshold is silenced within 164841 samples and stays so |
| `NoiseGate.LoudPassesUnchanged` | tc_ble_single_sdk/application/audio/tl_audio.h:89-103 | an input of at least 512 passes unchanged after 643 samples |
| `NoiseGate.Suppressor.NoiseSuppression` | tc_ble_single_sdk/application/audio/tl_audio.h:73-104 | the code's update of its globals is that step |
| `FlashMemory.ProgramPageIsFlat` | tc_ble_single_sdk/drivers/B85/flash.c:234-246 | a chunk inside one page is programmed like a flat write, although the chip wraps in its page |
| `FlashMemory.FlatWriteAt` | tc_ble_single_sdk/drivers/B85/flash.c:227-254 | a flat write ANDs the data into its range and leaves every other cell |
| `FlashMemory.AndBits` | tc_ble_single_sdk/drivers/B85/flash.c:227-254 | a bit is left set exactly when it was set and is to be |
| `FlashMemory.WriteAfterErase` | tc_ble_single_sdk/drivers/B85/flash.c:227-254 | on erased cells it stores exactly the data |
| `FlashMemory.Driver.SendCmd` | tc_ble_single_sdk/drivers/B85/flash.c:50-56 | raising chip select completes the write enable that is still on the bus |
| `FlashMemory.Driver.SendAddr` | tc_ble_single_sdk/drivers/B85/flash.c:63-70 | the chip receives 24 bits of the address, most significant byte first |
| `FlashMemory.Driver.WaitDone` | tc_ble_single_sdk/drivers/B85/flash.c:76-88 | the chip is idle afterwards |
| `FlashMemory.Driver.MspiWriteRam` | tc_ble_single_sdk/drivers/B85/flash.c:138-157 | one command has its effect, follows a write enable, and is never ignored by the chip |
| `FlashMemory.Driver.EraseSectorAt` | tc_ble_single_sdk/drivers/B85/flash.c:176-181 | the addressed sector is all ones, every other cell as before, by a write enable, the erase command with its address and a status poll |
| `FlashMemory.Driver.PageProgram` | tc_ble_single_sdk/drivers/B85/flash.c:227-254 | for any address and length the chunked write is one flat write, and the loop ends |
| `GhostKeys.SurvivesExactly` | tc_ble_single_sdk/application/keyboard/keyboard.c:202-218 | a pressed key survives exactly when no ghost pair that begins at or above its row shares its column |
| `GhostKeys.SurvivesUnlessShared` | tc_ble_single_sdk/application/keyboard/keyboard.c:202-218 | in terms of the rows alone: a pressed key survives exactly when any two rows that share it, the upper at or above its own, both hold nothing else |
| `GhostKeys.SharedKeyIsLone` | tc_ble_single_sdk/application/keyboard/keyboard.c:202-218 | two rows of the result share a key only if the scanned rows were identical and held just that key: no rectangle survives |
| `GhostKeys.MixRow` | tc_ble_single_sdk/application/keyboard/keyboard.c:205-215 | the inner loop accumulates the row's ghosts |
| `GhostKeys.KbRmvGhostKey` | tc_ble_single_sdk/application/keyboard/keyboard.c:202-218 | the in-place loop computes the cleaned matrix |
| `Debounce.FilterVotes` | tc_ble_single_sdk/application/keyboard/keyboard.c:239-239 | two scans that agree on a key decide it, two that differ keep it |
| `Debounce.FilteredIsMajority` | tc_ble_single_sdk/application/keyboard/keyboard.c:239-239 | a filtered output is pressed exactly when both last scans found it so, or one of them and the output before |
| `Debounce.UnfilteredIsRaw` | tc_ble_single_sdk/application/keyboard/keyboard.c:237-240 | with filtering off a scan is taken as it is |
| `Debounce.OutputIsLastSettled` | tc_ble_single_sdk/application/keyboard/keyboard.c:224-246 | after any run a key's output is its raw value in the last scan that decided it |
| `Debounce.OutputUndecided` | tc_ble_single_sdk/application/keyboard/keyboard.c:224-246 | a key no scan decided is released |
| `Debounce.ChangeTakesTwoScans` | tc_ble_single_sdk/application/keyboard/keyboard.c:237-240 | with filtering on an output only changes to the value of the last two raw scans |
| `Debounce.GlitchNeverAppears` | tc_ble_single_sdk/application/keyboard/keyboard.c:237-246 | a glitch of one scan never reaches the output |
| `KeyMatrix.Keyboard.KeyDebounceFilter` | tc_ble_single_sdk/application/keyboard/keyboard.c:224-263 | the loop computes the filter for every row, and its flag is set exactly when some row changed |
| `KeyMatrix.ChangesDiffer` | tc_ble_single_sdk/application/keyboard/keyboard.c:443-449 | no two matrices queued in a row are the same |
| `KeyMatrix.LatestIsSettled` | tc_ble_single_sdk/application/keyboard/keyboard.c:436-449 | the latest matrix queued shows every key as the last scan that decided it found it |
| `KeyMatrix.Keyboard.FoundTwiceShows` | tc_ble_single_sdk/application/keyboard/keyboard.c:396-449 | without ghost removal a key that the last two scans found pressed, or released, is so in the latest matrix queued, whatever else is pressed |
| `KeyMatrix.Keyboard.CleanTwiceShows` | tc_ble_single_sdk/application/keyboard/keyboard.c:396-449 | with ghost removal so is a key pressed in both that no other row shares but as its only key |
| `KeyMatrix.Keyboard.Push` | tc_ble_single_sdk/application/keyboard/keyboard.c:446-453 | a fifth matrix costs the oldest one |
| `KeyMatrix.Keyboard.Pop` | tc_ble_single_sdk/application/keyboard/keyboard.c:464-465 | the oldest matrix is read back as it was pushed |
| `KeyMatrix.Keyboard.KbScanKeyValue` | tc_ble_single_sdk/application/keyboard/keyboard.c:396-465 | with ghost removal and without, the ring holds the latest changes of the debounced matrix in order, and what a scan reads is the oldest of them |
| `KeyRemap.ColumnsAreThosePressed` | tc_ble_single_sdk/application/keyboard/keyboard.c:269-293 | the shifting loop visits exactly the pressed columns |
| `KeyRemap.ColumnsAscend` | tc_ble_single_sdk/application/keyboard/keyboard.c:269-293 | each once, in ascending order |
| `KeyRemap.RowKeysFollowColumns` | tc_ble_single_sdk/application/keyboard/keyboard.c:269-293 | and gives its key from the map |
| `KeyRemap.KeysInOrder` | tc_ble_single_sdk/application/keyboard/keyboard.c:268-310 | the keys of a matrix are those pressed, each once, row by row and column by column |
| `KeyRemap.KeptGivesFirstCodes` | tc_ble_single_sdk/application/keyboard/keyboard.c:288-290 | stopping at the limit keeps the first codes of all, and all keys when there are fewer |
| `KeyRemap.KeptStopsAtOnce` | tc_ble_single_sdk/application/keyboard/keyboard.c:288-290 | no key counts behind the one whose code is the last returned |
| `KeyRemap.PlainKeysAreCodes` | tc_ble_single_sdk/application/keyboard/keyboard.c:273-287 | without control keys, or without special ones pressed, the codes are the keys and no control bit is set |
| `KeyRemap.CodesInOrder` | tc_ble_single_sdk/application/keyboard/keyboard.c:274-283 | the codes are the keys in order, less the control keys and the function key, with the zoom keys read as equal and minus |
| `KeyRemap.ControlsExactly` | tc_ble_single_sdk/application/keyboard/keyboard.c:274-281 | a control bit is set exactly when it was, its key counts, or for the first one a zoom key does |
| `KeyRemap.KeyData.AddKey` | tc_ble_single_sdk/application/keyboard/keyboard.c:271-287 | what one key adds to the event, with and without control keys |
| `KeyRemap.KeyData.RemapRow` | tc_ble_single_sdk/application/keyboard/keyboard.c:268-297 | one row's codes and control bits, up to the limit |
| `KeyRemap.KeyData.RemapCode` | tc_ble_single_sdk/application/keyboard/keyboard.c:299-310 | the event holds the first codes of all keys pressed, and the control bits of the keys up to the last of them; plain keys are reported as they are |
| `Multiply.SumsFit` | tc_ble_single_sdk/common/utility.h:188-200 | no sum of the 16-bit halves overflows 32 bits, and the pieces make up the product |
| `Multiply.Mul64` | tc_ble_single_sdk/common/utility.h:181-208 | the exact 64-bit product of any two words |
| `PacketFifo.LengthIsKept` | tc_ble_single_sdk/common/utility.c:120-121 | the stored length is the packet's exactly when it is below 65536 |
| `PacketFifo.OverrunBreaksExactly` | tc_ble_single_sdk/common/utility.c:115-122 | a packet one byte short of the slot size passes the length check and breaks the queue, so that a later `my_fifo_get` returns a wrong packet, exactly when the queue was one short of full, the slot is not the last, and its last byte is not the oldest packet's low length byte |
| `PacketFifo.NextPushBreaksExactly` | tc_ble_single_sdk/common/utility.c:115-122 | such a packet is itself broken by the next push exactly when its slot is not the last and the same two bytes differ |
| `PacketFifo.SevenInEight` | tc_ble_single_sdk/common/utility.c:108-139 | a run that breaks the queue so: seven bytes into a slot of eight |
| `PacketFifo.MyFifo.Push` | tc_ble_single_sdk/common/utility.c:108-124 | stores the packet and its length, or refuses it with nothing changed, exactly when full or too long; below the border case it joins the queue |
| `PacketFifo.MyFifo.Get` | tc_ble_single_sdk/common/utility.c:131-139 | the oldest packet with its length and bytes, nothing when empty |
| `PacketFifo.MyFifo.Pop` | tc_ble_single_sdk/common/utility.c:126-129 | the oldest packet leaves; on an empty queue the count becomes 255, which reads as full |
| `PacketFifo.MyFifo.WPtr` | tc_ble_single_sdk/common/utility.c:94-101 | the next slot, exactly when there is room |
| `PacketFifo.MyFifo.Next` | tc_ble_single_sdk/common/utility.c:103-106 | the packet written there joins the queue; at a full one the count exceeds the slots |
| `CopyBytes.AscendingExactly` | tc_ble_single_sdk/common/string.c:56-58 | the ascending loop copies every content right exactly when the destination does not begin inside the source |
| `CopyBytes.DescendingExactly` | tc_ble_single_sdk/common/string.c:59-64 | the descending loop likewise exactly when the source does not begin inside the destination |
| `CopyBytes.Bcopy` | tc_ble_single_sdk/common/string.c:55-66 | the destination gets the old source for every overlap, nothing else changes |
| `CopyBytes.Memcpy` | tc_ble_single_sdk/common/string.c:75-78 | the same |
| `PrintInteger.FieldLength` | tc_ble_single_sdk/application/print/u_printf.c:68-102 | a field is as long as the larger of its width and its text |
| `PrintInteger.BufferSuffices` | tc_ble_single_sdk/application/print/u_printf.c:102-106 | 12 characters hold the sign, the digits and the terminator of every word |
| `PrintInteger.FieldReadsBack` | tc_ble_single_sdk/application/print/u_printf.c:104-144 | a field reads back as the number printed, for every word, base, width and padding, except exactly when zeros pad a number other than 0 on the right |
| `PrintInteger.MisleadingField` | tc_ble_single_sdk/application/print/u_printf.c:104-144 | 42 printed with `%-05d` is such a case: the field is 42000 |
| `PrintFields.FieldOneCase` | tc_ble_single_sdk/application/print/u_printf.c:125-134 | a `%x` field has no upper-case letter, a `%X` field no lower-case one |
| `PrintFields.RepeatsOne` | tc_ble_single_sdk/application/print/u_printf.c:80-96 | the padding is all one character |
| `PrintFields.FieldSides` | tc_ble_single_sdk/application/print/u_printf.c:68-99 | the padding goes behind a left-aligned text, in front of the others, and zeros in front between sign and digits |
| `PrintFields.NaturalShape` | tc_ble_single_sdk/application/print/u_printf.c:104-146 | a sign exactly for negative signed decimals, and no leading zero but for 0 itself |
| `PrintInteger.Printer.Prints` | tc_ble_single_sdk/application/print/u_printf.c:68-99 | the padded text is appended, and its length returned |
| `PrintInteger.Printer.StoreDigits` | tc_ble_single_sdk/application/print/u_printf.c:125-134 | the backward digit loop leaves the digits in front of the terminator |
| `PrintInteger.Printer.Printi` | tc_ble_single_sdk/application/print/u_printf.c:104-146 | exactly the field is appended, and its length returned |
| `AdcFilter.CleanExactly` | tc_ble_single_sdk/drivers/B85/adc.c:469-474 | a negative reading counts as 0, any other as its low 13 bits, whatever is above them |
| `AdcFilter.OutsidePermutes` | tc_ble_single_sdk/drivers/B85/adc.c:476-486 | how many samples are outside a range does not depend on their order |
| `AdcFilter.MiddleIsGood` | tc_ble_single_sdk/drivers/B85/adc.c:493-497 | cutting as many samples at each end as there are bad ones leaves only good ones |
| `AdcFilter.MiddleMeanIsGood` | tc_ble_single_sdk/drivers/B85/adc.c:495-497 | the mean of the middle four of eight is in the range of the other six whatever any two samples are |
| `AdcFilter.ThreeBadSamplesShow` | tc_ble_single_sdk/drivers/B85/adc.c:495-497 | three bad samples can move it out |
| `AdcFilter.SinkIn` | tc_ble_single_sdk/drivers/B85/adc.c:478-485 | the inner loop opens the gap where the new sample belongs |
| `AdcFilter.InsertSample` | tc_ble_single_sdk/drivers/B85/adc.c:476-486 | after each round the samples so far are a sorted permutation |
| `AdcFilter.SampleAndAverage` | tc_ble_single_sdk/drivers/B85/adc.c:450-498 | in the builds with four and with eight samples, the result is the mean of the middle samples, and in the range of the good ones whatever one or two bad samples are |
| `UsbReports.EveryRun` | tc_ble_single_sdk/application/app/usbkb.c:150-166 | over every interleaving: the queue is the latest four in order, every report is in just one place, and one is overwritten only when four later ones were queued |
| `UsbReports.ConservedKept` | tc_ble_single_sdk/application/app/usbkb.c:343-388 | no step loses or doubles a report |
| `UsbReports.MakeExactly` | tc_ble_single_sdk/application/app/usbkb.c:150-203 | a new report goes to its endpoint exactly when that one is free, and else into the queue of four |
| `UsbReports.ProcExactly` | tc_ble_single_sdk/application/app/usbkb.c:343-388 | a poll sends the oldest queued report exactly when its own endpoint is free, whatever the other one is |
| `UsbReports.QueueDrains` | tc_ble_single_sdk/application/app/usbkb.c:343-388 | after any run, as many rounds of both endpoints being read and one poll as there are queued reports deliver all of them, in order |
| `UsbReports.OrderExactly` | tc_ble_single_sdk/application/app/usbkb.c:150-203 | a step keeps an endpoint's reports in order exactly when no new report finds the endpoint free while older ones for it wait |
| `UsbReports.OrderOfRuns` | tc_ble_single_sdk/application/app/usbkb.c:343-388 | so an endpoint gets its reports in the order made as long as that does not happen |
| `UsbReports.OvertakingIsReached` | tc_ble_single_sdk/application/app/usbkb.c:150-203 | a run of four steps in which it does happen |
| `UsbFifo.EntryReadsBack` | tc_ble_single_sdk/application/app/usbkb.c:154-157 | a queued report is read back as it was, whatever else is in the slot |
| `UsbFifo.MouseFitsExactly` | tc_ble_single_sdk/application/app/usbmouse.c:112-120 | a mouse report stays in its slot just when it has at most four bytes; a fifth replaces the next entry's type |
| `UsbFifo.UsbHid.Queue` | tc_ble_single_sdk/application/app/usbmouse.c:116-126 | an entry is stored across pointer wraps and costs at most the oldest |
| `UsbFifo.UsbHid.HidReport` | tc_ble_single_sdk/application/app/usbkb.c:150-203 | sent at once exactly when its own endpoint is free, else queued with its bytes in the slot's layout |
| `UsbFifo.UsbHid.UsbHidReportFifoProc` | tc_ble_single_sdk/application/app/usbkb.c:343-388 | the oldest report leaves exactly when its own endpoint is free, whatever the other one is, with its bytes intact |
| `ControlIn.ChunksJoin` | tc_ble_single_sdk/application/usbstd/usb.c:77-97 | the chunks join to the answer from its first byte on, however many interrupts there are |
| `ControlIn.ChunkSizes` | tc_ble_single_sdk/application/usbstd/usb.c:77-97 | every chunk but the last with bytes is eight long, and later ones are empty |
| `ControlIn.TransferEnds` | tc_ble_single_sdk/application/usbstd/usb.c:77-97 | the whole answer and a short chunk are there exactly when eight times the interrupts exceed its length |
| `ControlIn.FindExactly` | tc_ble_single_sdk/application/usbstd/usb.c:108-152 | which descriptor each value names, and that any other value has none |
| `ControlIn.Control.SentSoFar` | tc_ble_single_sdk/application/usbstd/usb.c:77-159 | at any moment of a transfer what was sent is the beginning of the named descriptor, eight bytes for each interrupt and up to the length asked for; nothing for other values |
| `ControlIn.Transfer` | tc_ble_single_sdk/application/usbstd/usb.c:623-778 | so after a setup and any number of data interrupts, which stall at once for other values |
| `ControlIn.Configure` | tc_ble_single_sdk/application/usbstd/usb.c:623-778 | the configuration that was set is the one answered |
| `ControlIn.Control.UsbSendResponse` | tc_ble_single_sdk/application/usbstd/usb.c:77-97 | one chunk, with pointer and rest advanced |
| `ControlIn.Control.UsbPrepareDescData` | tc_ble_single_sdk/application/usbstd/usb.c:101-159 | the descriptor the request names, cut to the length asked for; a stall when there is none |
| `ControlIn.Control.UsbHandleRequest` | tc_ble_single_sdk/application/usbstd/usb.c:623-645 | the standard device requests at setup and data interrupts |
| `ControlIn.Control.SetupInterrupt` | tc_ble_single_sdk/application/usbstd/usb.c:729-753 | a setup begins a new transfer and stalls exactly when the device has no such descriptor |
| `ControlIn.Control.DataInterrupt` | tc_ble_single_sdk/application/usbstd/usb.c:756-778 | a data interrupt sends the next chunk |

## Left out

- `voice_iir` and `voice_iir_OOB`: the coefficients come from flash, so no useful bound holds.
- The noise suppression call inside `proc_mic_encoder`, which is off by default; the gate itself is modelled alone.
- SBC and mSBC builds: those codecs are prebuilt libraries and not part of this model.
- The application's splitting of a packet into notifications and its flow control: `Send` moves a whole packet.
- The GATT link of the Google 1.0 build: its frames carry no state, and its pair starts apart (`Google10StartsApart`).
- USB reads in the middle of a decoder step, which the interrupt can cause.
- The order in which the bytes of one slot are written.
- PacketFifo.MyFifo.Push: the source buffer is not the queue's own memory, so an overlap of the two is not modelled.
- Flash reads, status writes, buffers that reside in flash (the code stops there on purpose when a chunk exceeds 32 bytes), and interrupts during a write.
- FlashMemory.Driver.MspiWriteRam: only page program and sector erase, both with an address, are modelled.
- The chip's busy time in real units: it is a number of polls.
- `kb_scan_row`, the function-key layer and the choice of the key map: scans are parameters, and so is the map.
- KeyMatrix.Keyboard.KbScanKeyValue: key repetition and stuck-key handling, which are off by default, are not modelled.
- `print`'s format scanning, string and character directives: only integer fields are modelled; their texts go through the same `prints`.
- `u_sprintf` and `u_printf` wrappers: no algorithm.
- The conversion of the ADC code to millivolts and the register set-up around sampling.
- The boot protocol of mouse reports, which sends three bytes whatever the report, and the data-toggle bits.
- ControlIn.Control.UsbHandleRequest: only standard requests to the device are modelled; interface descriptors, class requests and the Microsoft OS string are not.
- `usbmouse_add_frame` and the report frames above the shared queue.
- Register drivers (GPIO, clock, PWM, I2C, SPI, timers, analog), descriptor tables, cryptography and the BLE stack: hardware effects and prototypes.
