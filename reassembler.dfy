/** Frame reassembly: one pass of the receive loop's body, as a function of the
    universe and the two counters it updates. */
module FrameReassembler {
  import opened Protocol

  /** What one received frame can change: the 512-byte universe, the count of
      accepted frames (`_rxCount`) and the count of rejected ones (`_rxErrors`). */
  datatype RxState = RxState(universe: seq<Byte>, rxCount: nat, rxErrors: nat)

  ghost predicate ValidRx(s: RxState)
  {
    |s.universe| == DMX_BUFSIZE
  }

  /** Offset of the first universe byte a frame carries. */
  function ChanStart(f: Frame): nat
  {
    f.payloadID * DATA_SIZE
  }

  /** A frame the receive loop can process. A rejected frame is dropped before
      any copy, whatever its payload ID. For an accepted frame the source needs
      `payloadID * 28 < 512`: beyond that `sizeof(dmxBuffer) - dmxChanStart`
      underflows, the first copy writes past the end of `dmxBuffer` and the
      second reads from before `dmxData`. */
  ghost predicate Deliverable(magics: set<Byte>, f: Frame)
  {
    WellFormed(f) && (f.magic in magics ==> ChanStart(f) < DMX_BUFSIZE)
  }

  /** Reference meaning of the copy: the payload is laid down cyclically from
      `start`, so universe index `j` receives byte `(j - start) mod 512` of the
      payload when that is below 28, and keeps its value otherwise. */
  function ApplyPayload(universe: seq<Byte>, start: nat, data: seq<Byte>): (r: seq<Byte>)
    requires |universe| == DMX_BUFSIZE && start < DMX_BUFSIZE && |data| == DATA_SIZE
    ensures |r| == DMX_BUFSIZE
  {
    seq(DMX_BUFSIZE, j requires 0 <= j < DMX_BUFSIZE =>
      if (j - start) % DMX_BUFSIZE < DATA_SIZE then data[(j - start) % DMX_BUFSIZE] else universe[j])
  }

  /** The payload lands at `start..` up to the end of the universe, the rest
      wraps to index 0, and every other index keeps its value. */
  lemma PayloadPlacement(universe: seq<Byte>, start: nat, data: seq<Byte>)
    requires |universe| == DMX_BUFSIZE && start < DMX_BUFSIZE && |data| == DATA_SIZE
    ensures var r := ApplyPayload(universe, start, data);
      && (forall i :: 0 <= i < DATA_SIZE && start + i < DMX_BUFSIZE ==> r[start + i] == data[i])
      && (forall j :: 0 <= j < start + DATA_SIZE - DMX_BUFSIZE ==> r[j] == data[DMX_BUFSIZE - start + j])
      && (forall j ::
            (0 <= j < DMX_BUFSIZE && !(start <= j < start + DATA_SIZE) &&
             !(j < start + DATA_SIZE - DMX_BUFSIZE)) ==> r[j] == universe[j])
  {
    var r := ApplyPayload(universe, start, data);
    forall i | 0 <= i < DATA_SIZE && start + i < DMX_BUFSIZE
      ensures r[start + i] == data[i]
    {
      Slot(start + i, start);
    }
    forall j | 0 <= j < start + DATA_SIZE - DMX_BUFSIZE
      ensures r[j] == data[DMX_BUFSIZE - start + j]
    {
      Slot(j, start);
    }
    forall j | 0 <= j < DMX_BUFSIZE && !(start <= j < start + DATA_SIZE) &&
        !(j < start + DATA_SIZE - DMX_BUFSIZE)
      ensures r[j] == universe[j]
    {
      Slot(j, start);
    }
  }

  /** Position of universe index `j` in a payload laid down from `start`. */
  lemma Slot(j: int, start: int)
    requires 0 <= j < DMX_BUFSIZE && 0 <= start < DMX_BUFSIZE
    ensures (j - start) % DMX_BUFSIZE == if start <= j then j - start else DMX_BUFSIZE - start + j
  {
    if j < start {
      assert j - start == -1 * DMX_BUFSIZE + (DMX_BUFSIZE - start + j);
    }
  }

  /** One pass of the receive loop's body for frame `f`. */
  function Receive(magics: set<Byte>, s: RxState, f: Frame): (t: RxState)
    requires ValidRx(s) && Deliverable(magics, f)
    ensures ValidRx(t)
    ensures t.rxCount + t.rxErrors == s.rxCount + s.rxErrors + 1
  {
    if f.magic !in magics then s.(rxErrors := s.rxErrors + 1)
    else RxState(ApplyPayload(s.universe, ChanStart(f), f.dmxData), s.rxCount + 1, s.rxErrors)
  }

  /** A rejected frame adds exactly one error and changes nothing else; an
      accepted one adds exactly one to the frame count and writes its payload. */
  lemma ReceiveCounts(magics: set<Byte>, s: RxState, f: Frame)
    requires ValidRx(s) && Deliverable(magics, f)
    ensures var t := Receive(magics, s, f);
      && (f.magic !in magics ==> t.universe == s.universe && t.rxCount == s.rxCount && t.rxErrors == s.rxErrors + 1)
      && (f.magic in magics ==>
            && t.rxCount == s.rxCount + 1 && t.rxErrors == s.rxErrors
            && forall i :: 0 <= i < DATA_SIZE && ChanStart(f) + i < DMX_BUFSIZE ==>
                 t.universe[ChanStart(f) + i] == f.dmxData[i])
  {
    if f.magic in magics {
      PayloadPlacement(s.universe, ChanStart(f), f.dmxData);
    }
  }

  ghost predicate AllDeliverable(magics: set<Byte>, fs: seq<Frame>)
  {
    forall k :: 0 <= k < |fs| ==> Deliverable(magics, fs[k])
  }

  /** The receive loop fed the frames `fs` in order. */
  function ReceiveAll(magics: set<Byte>, s: RxState, fs: seq<Frame>): (t: RxState)
    requires ValidRx(s)
    requires AllDeliverable(magics, fs)
    ensures ValidRx(t)
  {
    if fs == [] then s
    else Receive(magics, ReceiveAll(magics, s, fs[..|fs| - 1]), fs[|fs| - 1])
  }

  /** Every frame of a run is counted exactly once, as accepted or as
      rejected. */
  lemma {:induction false} ReceiveAllCounts(magics: set<Byte>, s: RxState, fs: seq<Frame>)
    requires ValidRx(s)
    requires AllDeliverable(magics, fs)
    ensures var t := ReceiveAll(magics, s, fs);
      t.rxCount + t.rxErrors == s.rxCount + s.rxErrors + |fs|
  {
    if fs != [] {
      ReceiveAllCounts(magics, s, fs[..|fs| - 1]);
    }
  }

  lemma {:induction false} ReceiveAllAppend(magics: set<Byte>, s: RxState, xs: seq<Frame>, ys: seq<Frame>)
    requires ValidRx(s)
    requires AllDeliverable(magics, xs)
    requires AllDeliverable(magics, ys)
    ensures AllDeliverable(magics, xs + ys)
    ensures ReceiveAll(magics, s, xs + ys) == ReceiveAll(magics, ReceiveAll(magics, s, xs), ys)
  {
    assert AllDeliverable(magics, xs + ys) by {
      forall k | 0 <= k < |xs + ys| ensures Deliverable(magics, (xs + ys)[k]) {
        if k >= |xs| {
          assert (xs + ys)[k] == ys[k - |xs|];
        }
      }
    }
    if ys != [] {
      var init := ys[..|ys| - 1];
      assert (xs + ys)[..|xs + ys| - 1] == xs + init;
      ReceiveAllAppend(magics, s, xs, init);
    } else {
      assert xs + ys == xs;
    }
  }

  /** Processing does not depend on the error count: it is carried along. */
  lemma {:induction false} ReceiveAllErrorShift(magics: set<Byte>, s: RxState, fs: seq<Frame>, extra: nat)
    requires ValidRx(s)
    requires AllDeliverable(magics, fs)
    ensures ReceiveAll(magics, s.(rxErrors := s.rxErrors + extra), fs) ==
      ReceiveAll(magics, s, fs).(rxErrors := ReceiveAll(magics, s, fs).rxErrors + extra)
  {
    if fs != [] {
      ReceiveAllErrorShift(magics, s, fs[..|fs| - 1], extra);
    }
  }

  /** A frame with a rejected magic slipped between two runs of frames only
      adds one to the error count: universe and frame count are as if it had
      never arrived. */
  lemma RejectedFrameTransparent(magics: set<Byte>, s: RxState, xs: seq<Frame>, bad: Frame, ys: seq<Frame>)
    requires ValidRx(s) && WellFormed(bad) && bad.magic !in magics
    requires AllDeliverable(magics, xs)
    requires AllDeliverable(magics, ys)
    ensures AllDeliverable(magics, xs + [bad] + ys)
    ensures AllDeliverable(magics, xs + ys)
    ensures var withBad := ReceiveAll(magics, s, xs + [bad] + ys);
      var without := ReceiveAll(magics, s, xs + ys);
      withBad.universe == without.universe && withBad.rxCount == without.rxCount &&
      withBad.rxErrors == without.rxErrors + 1
  {
    var xb := xs + [bad];
    assert AllDeliverable(magics, [bad]);
    ReceiveAllAppend(magics, s, xs, [bad]);
    ReceiveAllAppend(magics, s, xb, ys);
    ReceiveAllAppend(magics, s, xs, ys);
    var mid := ReceiveAll(magics, s, xs);
    ReceiveRejected(magics, mid, bad);
    var midBad := ReceiveAll(magics, s, xb);
    assert midBad == mid.(rxErrors := mid.rxErrors + 1);
    ReceiveAllErrorShift(magics, mid, ys, 1);
    var withBad := ReceiveAll(magics, midBad, ys);
    var without := ReceiveAll(magics, mid, ys);
    assert withBad == without.(rxErrors := without.rxErrors + 1);
  }

  lemma ReceiveRejected(magics: set<Byte>, s: RxState, bad: Frame)
    requires ValidRx(s) && WellFormed(bad) && bad.magic !in magics
    ensures AllDeliverable(magics, [bad])
    ensures ReceiveAll(magics, s, [bad]) == s.(rxErrors := s.rxErrors + 1)
  {
    assert [bad][..0] == [];
  }

  /** The frames of one full universe: payload IDs 0..18, all accepted. */
  ghost predicate FullUniverseFrames(magics: set<Byte>, fs: seq<Frame>)
  {
    |fs| == 19 &&
    forall k :: 0 <= k < |fs| ==> WellFormed(fs[k]) && fs[k].magic in magics && fs[k].payloadID == k
  }

  /** After frames 0..k-1 of a universe (k <= 18, none of them wraps) the
      first 28 * k channels hold their payloads and the rest is untouched. */
  lemma {:induction false} UniversePrefix(magics: set<Byte>, s: RxState, fs: seq<Frame>, k: nat)
    requires ValidRx(s) && FullUniverseFrames(magics, fs) && k <= 18
    ensures AllDeliverable(magics, fs[..k])
    ensures var t := ReceiveAll(magics, s, fs[..k]);
      && t.rxCount == s.rxCount + k && t.rxErrors == s.rxErrors
      && (forall j :: 0 <= j < DATA_SIZE * k ==> t.universe[j] == fs[j / DATA_SIZE].dmxData[j % DATA_SIZE])
      && (forall j :: DATA_SIZE * k <= j < DMX_BUFSIZE ==> t.universe[j] == s.universe[j])
  {
    if k > 0 {
      UniversePrefix(magics, s, fs, k - 1);
      assert fs[..k][..k - 1] == fs[..k - 1];
      var prev := ReceiveAll(magics, s, fs[..k - 1]);
      var f := fs[k - 1];
      var start := DATA_SIZE * (k - 1);
      assert ChanStart(f) == start;
      PayloadPlacement(prev.universe, start, f.dmxData);
      var t := ReceiveAll(magics, s, fs[..k]);
      assert t.universe == ApplyPayload(prev.universe, start, f.dmxData);
      forall j | start <= j < start + DATA_SIZE
        ensures t.universe[j] == fs[j / DATA_SIZE].dmxData[j % DATA_SIZE]
      {
        assert j / DATA_SIZE == k - 1 && j % DATA_SIZE == j - start;
        assert t.universe[start + (j - start)] == f.dmxData[j - start];
      }
    }
  }

  /** Frames 0..18 of a universe received in order rebuild all 512 channels
      from their payloads alone: channels 20..503 come from frames 0..17 (the
      first 20 bytes of frame 0 are overwritten), channels 504..511 from the
      start of frame 18 and channels 0..19 from its wrapped-around rest. */
  lemma FullUniverse(magics: set<Byte>, s: RxState, fs: seq<Frame>)
    requires ValidRx(s) && FullUniverseFrames(magics, fs)
    ensures AllDeliverable(magics, fs)
    ensures var t := ReceiveAll(magics, s, fs);
      && t.rxCount == s.rxCount + 19 && t.rxErrors == s.rxErrors
      && (forall j :: 0 <= j < 20 ==> t.universe[j] == fs[18].dmxData[8 + j])
      && (forall j :: 20 <= j < 504 ==> t.universe[j] == fs[j / DATA_SIZE].dmxData[j % DATA_SIZE])
      && (forall j :: 504 <= j < DMX_BUFSIZE ==> t.universe[j] == fs[18].dmxData[j - 504])
  {
    UniversePrefix(magics, s, fs, 18);
    var prev := ReceiveAll(magics, s, fs[..18]);
    assert fs[..19] == fs;
    assert fs[..18] == fs[..|fs| - 1];
    PayloadPlacement(prev.universe, 504, fs[18].dmxData);
  }

  /** The universe after a full set of frames does not depend on what it held
      before: every one of the 512 channels is overwritten. */
  lemma FullUniverseOverwritesAll(magics: set<Byte>, s1: RxState, s2: RxState, fs: seq<Frame>)
    requires ValidRx(s1) && ValidRx(s2) && FullUniverseFrames(magics, fs)
    ensures AllDeliverable(magics, fs)
    ensures ReceiveAll(magics, s1, fs).universe == ReceiveAll(magics, s2, fs).universe
  {
    FullUniverse(magics, s1, fs);
    FullUniverse(magics, s2, fs);
  }
}
