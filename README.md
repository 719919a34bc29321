# Wireless DMX receiver — Dafny model

This project models the core of an ESP32 library that receives DMX512 lighting
data sent over nRF24L01 radios with the "wireless DMX" protocol. The protocol
is not a public standard. The model covers three things.

- **Pipe address codec** (`AddressCodec`, `address.dfy`). A (unit ID, channel)
  pair becomes a 40-bit pipe address. The five bytes are, in order: the
  channel, the unit ID, their bitwise complements, and their sum modulo 256.
  The source builds the address by overlaying a struct on a `uint64_t`. The
  model packs the bytes explicitly, little-endian. It proves what each byte
  holds, that a decoder inverts the packing, and that the packing is
  injective.
- **Link scanner** (`LinkScanner`, `scanner.dfy`). `_doScan` probes channels
  0..125 for one unit ID. `begin` runs `_doScan` for unit IDs 1..7 and repeats
  until some probe delivers a frame with an accepted magic byte. Each probe
  becomes the answer of an oracle: no frame within the listen window, or a
  frame with magic `m`. The oracle is indexed by sweep, unit ID and channel;
  a sweep is one round of `begin`'s outer loop. The scan is modelled twice:
  - as a cursor with a step function (`Step`, `Run`);
  - as the two nested loops of the source (`DoScan`, `ScanForLock`).

  Lemmas tie the two together. They also prove the search order, that a
  failed probe never locks, and that the lock lands on the first succeeding
  probe. A transmitter heard in the first sweep is locked within 7·126
  probes, on the lexicographically least (unit ID, channel) pair.
- **Frame reassembler** (`FrameReassembler`, `reassembler.dfy`, and the class
  `Receiver.WirelessDmxReceiver`, `receiver.dfy`). This is one pass of the
  receive loop's body:
  - check the magic byte;
  - bump the error counter or the frame counter;
  - copy the 28 data bytes into the 512-byte universe at `payloadID * 28`;
  - wrap the part past the end to index 0.

  The class keeps `dmxBuffer` as an `array` and the counters as fields. Its
  methods are proved against the functional `Receive`, whose meaning is given
  by `ApplyPayload`. `ApplyPayload` lays the payload down cyclically modulo
  512. Lemmas about `Receive` cover the counters, the placement of the bytes,
  frames with a rejected magic, and a full universe. Frames 0..18 received in
  order overwrite all 512 channels.

`protocol.dfy` (`Protocol`) holds what the header declares:
- the sizes (512, 32, 4, and 28 data bytes);
- the accepted magic bytes 0x80 and 0xA0;
- the unit IDs and `operator++` on them;
- the layout of a 32-byte radio payload as a frame.

Where `WirelessDMXReceiver.h` and `WirelessDMXReceiver.cpp` disagree, the
model follows the `.cpp`:
- The header declares `_rxSeqErrors`, `_rxOverruns` and `_lastRxMillis`,
  `begin(wdmxID_t ID)` with a configured unit ID, `_scanChannel`/`_scanNext`
  and the capture functions. `WirelessDMXReceiver.cpp` implements none of
  them. The counters are initialised to 0 in the header, and the model keeps
  them at 0.
- The `.cpp` counts rejected frames in `_rxErrors`. The header names that
  counter `_rxInvalid`. The model calls it `rxErrors`.
- The `.cpp` compares against a single `WDMX_MAGIC`, which is defined in
  neither `WirelessDMXReceiver.h` nor `WirelessDMXReceiver.cpp`. The header defines two values, `WDMX_MAGIC_1 = 0x80` and
  `WDMX_MAGIC_2 = 0xA0`. The model checks membership in a set of accepted
  bytes. The receiver uses {0x80, 0xA0}.
- The header declares `_ID`, `_channel` and `_locked` with getters, which
  the `.cpp` never writes; see the `Begin` line under "## Left out".

## Model

| member | source | states |
|---|---|---|
| Protocol.Succ | WirelessDMXReceiver.h:41-42 | the increment never returns its argument; it yields AUTO exactly when the argument is WHITE, and `id + 1` otherwise |
| Protocol.SuccNAdds | WirelessDMXReceiver.h:41-42 | `n` increments add `n` modulo 8, so the result is always in 0..7 and 8 increments return to the start |
| Protocol.Increment | WirelessDMXReceiver.h:41-44 | `operator++` stores the successor into its reference argument and returns exactly the stored value |
| Protocol.UnpackPackLE | WirelessDMXReceiver.h:52 | reading bytes as a little-endian integer and writing it back with as many bytes gives the same bytes |
| Protocol.PackUnpackLE | WirelessDMXReceiver.h:52 | a value below 256^n written as n little-endian bytes reads back as the same value |
| Protocol.ParseFrame | WirelessDMXReceiver.h:49-54 | the 32-byte payload read as magic, payload ID, little-endian 16-bit highest channel ID and 28 data bytes; serializing the frame gives the payload back |
| Protocol.ParseSerialize | WirelessDMXReceiver.h:49-54 | parsing the serialization of a well-formed frame gives the frame back |
| AddressCodec.GetAddress | WirelessDMXReceiver.cpp:20-39 | the 40-bit address's bytes are, least significant first, `channel`, `unitID`, `255 - channel`, `255 - unitID` and `(channel + unitID) mod 256` (inputs taken mod 256) |
| AddressCodec.DecodeAddress | WirelessDMXReceiver.cpp:32-36 | the inverse of the packing at these lines, which the source does not have; it serves the injectivity proof: a decoded pair is a pair of bytes whose encoding is exactly the decoded address |
| AddressCodec.DecodeGetAddress | WirelessDMXReceiver.cpp:32-36 | decoding the address of any byte-sized pair returns that pair |
| AddressCodec.GetAddressInjective | WirelessDMXReceiver.cpp:32-33 | two different byte-sized (unit ID, channel) pairs, including every pair of [1,7] x [0,126), never get the same address |
| LinkScanner.CursorAt | WirelessDMXReceiver.cpp:163-176 | the n-th probe is at a valid cursor (unit ID in 1..7, never AUTO; channel in 0..125) whose position in the scan order is n |
| LinkScanner.CursorAtIndex | WirelessDMXReceiver.cpp:163-176 | scan positions and valid cursors correspond one to one: channel varies fastest, then unit ID, then sweep |
| LinkScanner.Next | WirelessDMXReceiver.cpp:163-176 | after a failed probe the scan moves to a valid cursor whose position in the scan order is exactly one more |
| LinkScanner.Step | WirelessDMXReceiver.cpp:63-77 | a locked scanner stays locked on its pair; otherwise the probe locks exactly when it delivers an accepted magic, it locks on the probed pair, and a failed probe advances the scan position by one |
| LinkScanner.Run | WirelessDMXReceiver.cpp:163-176 | every state reached from the start of `begin` is valid, and a scanner still scanning after `n` probes is at the `n`-th cursor of the scan order |
| LinkScanner.RunBeforeLock | WirelessDMXReceiver.cpp:63-80 | while no probe has locked, the n-th state is still scanning at exactly the n-th cursor: timeouts and wrong-magic frames never lock |
| LinkScanner.RunAfterLock | WirelessDMXReceiver.cpp:169-175 | once the first locking probe has been made, the scanner stays locked on that probe's pair |
| LinkScanner.FirstLockExists | WirelessDMXReceiver.cpp:163-176 | if the n-th probe locks, some probe at or before it is the first probe that locks |
| LinkScanner.LocksWithinOneSweep | WirelessDMXReceiver.cpp:163-176 | if some pair locks in the first sweep, the scan locks within 7·126 probes on the lexicographically least locking pair |
| LinkScanner.DoScan | WirelessDMXReceiver.cpp:44-81 | probes channels in increasing order; returns true at the first channel whose probe locks, false only when all 126 channels fail |
| LinkScanner.ScanForLock | WirelessDMXReceiver.cpp:161-176 | the nested loops of `begin` lock at the first locking probe in scan order, on a unit ID in 1..7; for a sweep-independent transmitter within 7·126 probes |
| FrameReassembler.ApplyPayload | WirelessDMXReceiver.cpp:103-109 | writing a payload leaves a 512-byte universe |
| FrameReassembler.PayloadPlacement | WirelessDMXReceiver.cpp:103-109 | `data[i]` lands at `start + i` up to index 511, the rest at `j < start + 28 - 512` from `data[512 - start + j]`, and every other index is unchanged |
| FrameReassembler.Receive | WirelessDMXReceiver.cpp:92-109 | one pass of the loop body keeps a 512-byte universe and adds exactly 1 to the frame count plus the error count |
| FrameReassembler.ReceiveCounts | WirelessDMXReceiver.cpp:94-100 | a rejected magic adds exactly 1 to the error count and changes neither universe nor frame count; an accepted one adds exactly 1 to the frame count and writes the payload |
| FrameReassembler.ReceiveAll | WirelessDMXReceiver.cpp:86-117 | receiving a run of frames keeps a 512-byte universe |
| FrameReassembler.ReceiveAllCounts | WirelessDMXReceiver.cpp:94-100 | after a run of frames, frame count plus error count has grown by exactly the number of frames: each is counted once, as accepted or as rejected |
| FrameReassembler.ReceiveRejected | WirelessDMXReceiver.cpp:94-98 | a single frame with a rejected magic adds 1 to the error count and leaves the rest of the state as it was |
| FrameReassembler.ReceiveAllAppend | WirelessDMXReceiver.cpp:86-117 | receiving `xs` and then `ys` gives the same state as receiving `xs + ys` in one run |
| FrameReassembler.ReceiveAllErrorShift | WirelessDMXReceiver.cpp:94-100 | the error count never influences processing: starting with `extra` more errors ends with exactly `extra` more errors and everything else equal |
| FrameReassembler.RejectedFrameTransparent | WirelessDMXReceiver.cpp:94-98 | a rejected frame between two runs adds 1 to the error count and leaves universe and frame count as if it had not arrived |
| FrameReassembler.FullUniverse | WirelessDMXReceiver.cpp:103-109 | frames 0..18 rebuild the universe from their payloads alone, with frame 18 split across the end and the start, and count 19 frames |
| FrameReassembler.UniversePrefix | WirelessDMXReceiver.cpp:103-109 | after frames 0..k-1 of a universe (k <= 18) channel index `j < 28k` holds byte `j mod 28` of frame `j div 28`, every later index is untouched, and k frames are counted |
| FrameReassembler.FullUniverseOverwritesAll | WirelessDMXReceiver.cpp:103-109 | after frames 0..18 the universe does not depend on what it held before |
| Receiver.CopyBytes | WirelessDMXReceiver.cpp:106-108 | `memcpy` writes exactly the `n` destination bytes from the source and leaves the rest |
| Receiver.TwoCopiesApplyPayload | WirelessDMXReceiver.cpp:106-108 | the two copies of the loop body together have exactly the effect of `ApplyPayload` |
| Receiver.WirelessDmxReceiver.constructor | WirelessDMXReceiver.h:93-98 | all frame counters and the last-receive time start at 0, and the universe has 512 channels |
| Receiver.WirelessDmxReceiver.Begin | WirelessDMXReceiver.cpp:161-183 | locks on the first locking probe in scan order, never on AUTO, then zeroes all 512 channels; counters unchanged |
| Receiver.WirelessDmxReceiver.ReceiveFrame | WirelessDMXReceiver.cpp:92-109 | universe and counters after the pass equal `Receive` of those before on the parsed payload; nothing else changes |
| Receiver.WirelessDmxReceiver.GetValue | WirelessDMXReceiver.h:61 | 1-based: channel `a` is universe element `a - 1`, for `1 <= a <= 512` |
| Receiver.WirelessDmxReceiver.GetValues | WirelessDMXReceiver.h:62 | the first `length` bytes of the caller's buffer become channels `start .. start + length - 1`; the rest of it and the universe are unchanged |

## Left out

- Radio driver calls. This covers radio start-up and configuration, `flush_rx`,
  `openReadingPipe`, `startListening`, `setChannel`, `available` and `read`.
  They are foreign code. A probe becomes an oracle answer, and a received
  payload becomes a 32-byte parameter.
- A radio start-up failure is only logged in the source and has no effect, so
  it is left out.
- Timing: `micros`, `delay` and the 10 ms listen window need a clock. Each
  probe is one oracle answer. The sweep index stands in for time.
- Status LED and serial logging are cosmetic output. This covers
  `digitalWrite`, `analogWrite`, `Serial.printf` and `printPrettyDetails`.
- The FreeRTOS task, the watchdog and the endless receive loop are left out.
  `ReceiveFrame` models one pass of the loop body, and `ReceiveAll` models a
  run of passes. Concurrent readers of `dmxBuffer` are not modelled.
- The capture ring buffer (`startCapture`, `stopCapture`,
  `isCaptureBufferFull`, `printCapture`) is declared in the header but not
  implemented in `WirelessDMXReceiver.cpp`. RingBuf is not part of this
  model.
- Features the header declares but `WirelessDMXReceiver.cpp` never updates
  or defines are left out. These are sequence-error and overrun counting,
  the last-receive time, `begin(wdmxID_t)` with a configured unit ID, and
  `_scanChannel`/`_scanNext`. The counters stay at their initial 0.
- The header gives `_ID`, `_channel` and `_locked` no initial value, and the
  constructor does not set them. The model's constructor starts them at
  AUTO, 0 and not locked.
- The constructor's pin arguments are left out; they only configure the
  radio and the LED.
- Receiver.WirelessDmxReceiver.ReceiveFrame: requires `payloadID * 28 < 512`
  for frames with an accepted magic. For payload IDs above 18 the source's
  `sizeof(dmxBuffer) - dmxChanStart` underflows. The first copy then writes
  28 bytes past the end of `dmxBuffer`. The second copy reads from before
  `dmxData`, and from payload ID 36 on it also writes past the end of
  `dmxBuffer`.
- Receiver.WirelessDmxReceiver.GetValue: requires `1 <= address <= 512`, and
  GetValues requires the copied range to lie in 1..512. Outside those ranges
  the source reads out of bounds.
- Receiver.WirelessDmxReceiver.Begin: requires that some probe eventually
  locks. Otherwise the source's `for (;;)` never ends.
- Receiver.WirelessDmxReceiver.Begin: the `.cpp`'s `begin` never writes
  `_ID`, `_channel` or `_locked`. The ensures on `id`, `channel` and `locked`
  are the model's own bookkeeping: they record the pair the radio is left
  tuned to, which the source keeps only in the radio's configuration.
- The counters are unbounded: the 32-bit wrap-around of `unsigned int` is not
  modelled.
- The upper three bytes of the source's `uint64_t` union are uninitialised,
  and its value depends on host byte order. The model gives only the 40-bit
  little-endian value.
- The `.cpp` passes `int` unit IDs and channels to `_getAddress`. The header
  declares `_getAddress(unsigned int channel, wdmxID_t ID)`, with the
  arguments in the other order. The model follows the `.cpp`.
