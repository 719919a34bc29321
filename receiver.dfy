/** The receiver object: the DMX universe it exposes, its frame counters, the
    scan that `begin` runs and one pass of the receive loop. */
module Receiver {
  import opened Protocol
  import opened LinkScanner
  import opened FrameReassembler

  /** `memcpy(&dst[dstStart], &src[srcStart], n)` for a destination that does
      not overlap the source. */
  method CopyBytes(dst: array<Byte>, dstStart: nat, src: seq<Byte>, srcStart: nat, n: nat)
    requires dstStart + n <= dst.Length && srcStart + n <= |src|
    modifies dst
    ensures forall j :: dstStart <= j < dstStart + n ==> dst[j] == src[srcStart + j - dstStart]
    ensures forall j :: 0 <= j < dst.Length && !(dstStart <= j < dstStart + n) ==> dst[j] == old(dst[j])
  {
    forall j | dstStart <= j < dstStart + n {
      dst[j] := src[srcStart + j - dstStart];
    }
  }

  /** The two copies of the receive loop together lay the payload down as
      ApplyPayload describes: `after` agrees with the payload from `start` to
      the end of the universe and on the wrapped-around prefix, and with
      `before` everywhere else. */
  lemma TwoCopiesApplyPayload(before: seq<Byte>, after: seq<Byte>, start: nat, data: seq<Byte>)
    requires |before| == DMX_BUFSIZE && |after| == DMX_BUFSIZE && start < DMX_BUFSIZE && |data| == DATA_SIZE
    requires forall j :: start <= j < start + DATA_SIZE && j < DMX_BUFSIZE ==> after[j] == data[j - start]
    requires forall j :: 0 <= j < start + DATA_SIZE - DMX_BUFSIZE ==> after[j] == data[DMX_BUFSIZE - start + j]
    requires forall j ::
      (0 <= j < DMX_BUFSIZE && !(start <= j < start + DATA_SIZE) && !(j < start + DATA_SIZE - DMX_BUFSIZE))
      ==> after[j] == before[j]
    ensures after == ApplyPayload(before, start, data)
  {
    var r := ApplyPayload(before, start, data);
    PayloadPlacement(before, start, data);
    forall j | 0 <= j < DMX_BUFSIZE
      ensures after[j] == r[j]
    {
      if start <= j < start + DATA_SIZE {
        assert r[start + (j - start)] == data[j - start];
      }
    }
  }

  class WirelessDmxReceiver {
    /** The DMX universe, channel `a` (1-based) at index `a - 1`. */
    var dmxBuffer: array<Byte>
    /** Frames accepted by the receive loop. */
    var rxCount: nat
    /** Frames the receive loop dropped for a wrong magic byte. */
    var rxErrors: nat
    /** Counters the header declares but `WirelessDMXReceiver.cpp` never updates. */
    var rxOverruns: nat
    var rxSeqErrors: nat
    var lastRxMillis: nat
    /** The (unit ID, channel) pair the radio is left tuned to by the scan. */
    var id: UnitId
    var channel: int
    var locked: bool

    ghost predicate Valid()
      reads this
    {
      dmxBuffer.Length == DMX_BUFSIZE
    }

    /** The universe and the two counters the receive loop updates. */
    function RxView(): (s: RxState)
      reads this, dmxBuffer
      requires Valid()
      ensures ValidRx(s)
    {
      RxState(dmxBuffer[..], rxCount, rxErrors)
    }

    /** The radio pins are not modelled. The source leaves `_ID`, `_channel`
        and `_locked` uninitialised; the model starts them at AUTO, 0 and
        not locked. */
    constructor ()
      ensures Valid() && fresh(dmxBuffer) && !locked
      ensures rxCount == 0 && rxErrors == 0 && rxOverruns == 0 && rxSeqErrors == 0 && lastRxMillis == 0
    {
      dmxBuffer := new Byte[DMX_BUFSIZE];
      rxCount, rxErrors, rxOverruns, rxSeqErrors, lastRxMillis := 0, 0, 0, 0, 0;
      id, channel, locked := AUTO, 0, false;
    }

    /** `begin()`: scans until a probe locks, then clears the universe. The
        locked pair is the first in scan order whose probe locks. The source
        does not store it; `id`, `channel` and `locked` record it here. */
    method Begin(o: Oracle) returns (ghost probes: nat)
      requires Valid()
      requires exists k: nat, u: int, c: int ::
        FIRST_UNIT <= u <= LAST_UNIT && 0 <= c < CHANNELS && Locks(ACCEPTED_MAGIC, o(k, u, c))
      modifies this, dmxBuffer
      ensures Valid() && dmxBuffer == old(dmxBuffer)
      ensures locked && FirstLock(ACCEPTED_MAGIC, o, probes)
      ensures id == CursorAt(probes).unitID && channel == CursorAt(probes).channel
      ensures id != AUTO
      ensures forall i :: 0 <= i < DMX_BUFSIZE ==> dmxBuffer[i] == 0
      ensures rxCount == old(rxCount) && rxErrors == old(rxErrors) && rxOverruns == old(rxOverruns)
      ensures rxSeqErrors == old(rxSeqErrors) && lastRxMillis == old(lastRxMillis)
    {
      var u, c;
      u, c, probes := ScanForLock(ACCEPTED_MAGIC, o);
      id, channel, locked := u, c, true;
      forall i | 0 <= i < dmxBuffer.Length {
        dmxBuffer[i] := 0;
      }
    }

    /** One pass of the receive loop's body on the 32-byte payload `raw` read
        from the radio: a frame with a rejected magic only counts an error; an
        accepted one counts a frame and is copied into the universe at
        `payloadID * 28`, the part past channel 512 wrapping to channel 1.
        The source writes out of bounds for payload IDs above 18, hence the
        precondition. */
    method ReceiveFrame(raw: seq<Byte>)
      requires Valid() && |raw| == PAYLOAD_SIZE
      requires ParseFrame(raw).magic in ACCEPTED_MAGIC ==> ChanStart(ParseFrame(raw)) < DMX_BUFSIZE
      modifies this, dmxBuffer
      ensures Valid() && dmxBuffer == old(dmxBuffer)
      ensures RxView() == Receive(ACCEPTED_MAGIC, old(RxView()), ParseFrame(raw))
      ensures rxOverruns == old(rxOverruns) && rxSeqErrors == old(rxSeqErrors)
      ensures lastRxMillis == old(lastRxMillis)
      ensures id == old(id) && channel == old(channel) && locked == old(locked)
    {
      var rxBuf := ParseFrame(raw);
      if rxBuf.magic !in ACCEPTED_MAGIC {
        rxErrors := rxErrors + 1;
        return;
      }
      rxCount := rxCount + 1;
      var dmxChanStart := rxBuf.payloadID * DATA_SIZE;
      ghost var before := dmxBuffer[..];
      var firstPart := if DATA_SIZE < DMX_BUFSIZE - dmxChanStart then DATA_SIZE else DMX_BUFSIZE - dmxChanStart;
      CopyBytes(dmxBuffer, dmxChanStart, rxBuf.dmxData, 0, firstPart);
      if dmxChanStart + DATA_SIZE > DMX_BUFSIZE {
        CopyBytes(dmxBuffer, 0, rxBuf.dmxData, DMX_BUFSIZE - dmxChanStart, dmxChanStart + DATA_SIZE - DMX_BUFSIZE);
      }
      TwoCopiesApplyPayload(before, dmxBuffer[..], dmxChanStart, rxBuf.dmxData);
    }

    /** `getValue(address)`: the value of 1-based DMX channel `address`. */
    function GetValue(address: int): (v: Byte)
      reads this, dmxBuffer
      requires Valid() && 1 <= address <= DMX_BUFSIZE
      ensures v == RxView().universe[address - 1]
    {
      dmxBuffer[address - 1]
    }

    /** `getValues(startAddress, length, buffer)`: copies channels
        `startAddress .. startAddress + length - 1` (1-based) into the first
        `length` bytes of `buffer`. */
    method GetValues(startAddress: int, length: nat, buffer: array<Byte>)
      requires Valid() && 1 <= startAddress && startAddress - 1 + length <= DMX_BUFSIZE
      requires length <= buffer.Length && buffer != dmxBuffer
      modifies buffer
      ensures buffer[..length] == dmxBuffer[startAddress - 1 .. startAddress - 1 + length]
      ensures forall i :: 0 <= i < length ==> buffer[i] == GetValue(startAddress + i)
      ensures buffer[length..] == old(buffer[length..])
    {
      CopyBytes(buffer, 0, dmxBuffer[..], startAddress - 1, length);
    }
  }
}
