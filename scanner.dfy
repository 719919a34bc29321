/** Link acquisition: the receiver probes every (unit ID, channel) pair until a
    transmitter answers with a frame carrying an accepted magic byte.

    One probe (flush, open the pipe, listen, tune, wait up to 10 ms, read) is
    collapsed into the answer of an oracle. The oracle may depend on the sweep,
    i.e. on how many times the outer `for (;;)` of `begin` has gone round, so a
    transmitter that only starts sending later is covered too. */
module LinkScanner {
  import opened Protocol

  /** rfCH runs over 0..125. */
  const CHANNELS := 126
  /** Unit IDs 1..7 are scanned; AUTO (0) never is. */
  const FIRST_UNIT := 1
  const LAST_UNIT := 7
  /** Probes in one sweep over all unit IDs and channels. */
  const SWEEP := (LAST_UNIT - FIRST_UNIT + 1) * CHANNELS

  /** What one probe observes within its 10 ms listen window. */
  datatype Probe = NoFrame | Received(magic: Byte)

  /** The probe outcome for (sweep, unit ID, channel). */
  type Oracle = (nat, int, int) -> Probe

  /** A probe ends the scan only when a frame arrived and its magic is accepted. */
  predicate Locks(magics: set<Byte>, p: Probe)
  {
    p.Received? && p.magic in magics
  }

  /** A transmitter that behaves the same in every sweep. */
  ghost predicate SweepIndependent(o: Oracle)
  {
    forall k: nat, u: int, c: int :: o(k, u, c) == o(0, u, c)
  }

  /** The scan position: channel varies fastest, then unit ID, then sweep. */
  datatype Cursor = Cursor(sweep: nat, unitID: int, channel: int)

  predicate ValidCursor(c: Cursor)
  {
    FIRST_UNIT <= c.unitID <= LAST_UNIT && 0 <= c.channel < CHANNELS
  }

  /** How many probes come before the one at `c`. */
  function Index(c: Cursor): nat
    requires ValidCursor(c)
  {
    c.sweep * SWEEP + (c.unitID - 1) * CHANNELS + c.channel
  }

  /** The position of the `n`-th probe (counting from 0). */
  function CursorAt(n: nat): (c: Cursor)
    ensures ValidCursor(c) && Index(c) == n
  {
    var r := n % SWEEP;
    Cursor(n / SWEEP, r / CHANNELS + 1, r % CHANNELS)
  }

  /** Index is one-to-one: every valid cursor is the CursorAt of its index. */
  lemma CursorAtIndex(c: Cursor)
    requires ValidCursor(c)
    ensures CursorAt(Index(c)) == c
  {
    var n := Index(c);
    var r := (c.unitID - 1) * CHANNELS + c.channel;
    assert 0 <= r < SWEEP;
    assert n / SWEEP == c.sweep && n % SWEEP == r;
    assert r / CHANNELS == c.unitID - 1 && r % CHANNELS == c.channel;
  }

  /** Where the scan goes after a failed probe at `c`. */
  function Next(c: Cursor): (d: Cursor)
    requires ValidCursor(c)
    ensures ValidCursor(d) && Index(d) == Index(c) + 1
  {
    if c.channel < CHANNELS - 1 then Cursor(c.sweep, c.unitID, c.channel + 1)
    else if c.unitID < LAST_UNIT then Cursor(c.sweep, c.unitID + 1, 0)
    else Cursor(c.sweep + 1, FIRST_UNIT, 0)
  }

  function ProbeAt(o: Oracle, c: Cursor): Probe
  {
    o(c.sweep, c.unitID, c.channel)
  }

  /** The scanner either is still probing at a cursor or has locked a pair. */
  datatype ScanState = Scanning(at: Cursor) | Locked(unitID: int, channel: int)

  const START := Scanning(Cursor(0, FIRST_UNIT, 0))

  predicate ValidState(s: ScanState)
  {
    s.Scanning? ==> ValidCursor(s.at)
  }

  /** One probe attempt: a locked scanner stays as it is; otherwise the probe
      at the cursor either locks that cursor's pair or moves the cursor one
      position on in the scan order. */
  function Step(magics: set<Byte>, o: Oracle, s: ScanState): (t: ScanState)
    requires ValidState(s)
    ensures ValidState(t)
    ensures s.Locked? ==> t == s
    ensures s.Scanning? ==> (t.Locked? <==> Locks(magics, ProbeAt(o, s.at)))
    ensures s.Scanning? && t.Locked? ==> t.unitID == s.at.unitID && t.channel == s.at.channel
    ensures s.Scanning? && t.Scanning? ==> Index(t.at) == Index(s.at) + 1
  {
    match s
    case Locked(_, _) => s
    case Scanning(c) =>
      if Locks(magics, ProbeAt(o, c)) then Locked(c.unitID, c.channel) else Scanning(Next(c))
  }

  /** The state after `n` probe attempts from the start of `begin`. */
  function Run(magics: set<Byte>, o: Oracle, n: nat): (s: ScanState)
    ensures ValidState(s)
    ensures s.Scanning? ==> s.at == CursorAt(n)
  {
    if n == 0 then START
    else
      var prev := Run(magics, o, n - 1);
      var s := Step(magics, o, prev);
      if s.Scanning? then CursorAtIndex(s.at); s else s
  }

  /** Probe `n` is the first one that locks. */
  ghost predicate FirstLock(magics: set<Byte>, o: Oracle, n: nat)
  {
    Locks(magics, ProbeAt(o, CursorAt(n))) &&
    forall m: nat :: m < n ==> !Locks(magics, ProbeAt(o, CursorAt(m)))
  }

  /** Search order and "a failed probe never locks": as long as no probe has
      locked, the `n`-th state probes exactly the `n`-th cursor. */
  lemma {:induction false} RunBeforeLock(magics: set<Byte>, o: Oracle, n: nat)
    requires forall m: nat :: m < n ==> !Locks(magics, ProbeAt(o, CursorAt(m)))
    ensures Run(magics, o, n) == Scanning(CursorAt(n))
  {
    if n > 0 {
      RunBeforeLock(magics, o, n - 1);
      assert !Locks(magics, ProbeAt(o, CursorAt(n - 1)));
    }
  }

  /** Once probe `n` locks, the scanner stays locked on that probe's pair. */
  lemma {:induction false} RunAfterLock(magics: set<Byte>, o: Oracle, n: nat, m: nat)
    requires FirstLock(magics, o, n) && n < m
    ensures Run(magics, o, m) == Locked(CursorAt(n).unitID, CursorAt(n).channel)
  {
    if m == n + 1 {
      RunBeforeLock(magics, o, n);
    } else {
      RunAfterLock(magics, o, n, m - 1);
    }
  }

  /** If some probe locks, a first one does. */
  lemma {:induction false} FirstLockExists(magics: set<Byte>, o: Oracle, n: nat)
    requires Locks(magics, ProbeAt(o, CursorAt(n)))
    ensures exists m: nat :: m <= n && FirstLock(magics, o, m)
  {
    if !FirstLock(magics, o, n) {
      var m: nat :| m < n && Locks(magics, ProbeAt(o, CursorAt(m)));
      FirstLockExists(magics, o, m);
    }
  }

  /** (u1, c1) comes before (u2, c2) in the scan order of one sweep. */
  predicate Before(u1: int, c1: int, u2: int, c2: int)
  {
    u1 < u2 || (u1 == u2 && c1 < c2)
  }

  /** No pair before (unitID, channel) in the first sweep locks. */
  ghost predicate NoEarlierLock(magics: set<Byte>, o: Oracle, unitID: int, channel: int)
  {
    forall u, c ::
      (FIRST_UNIT <= u <= LAST_UNIT && 0 <= c < CHANNELS && Before(u, c, unitID, channel))
      ==> !Locks(magics, o(0, u, c))
  }

  /** If some pair locks in the first sweep (for a transmitter that answers the
      same way in every sweep: if some pair locks at all), the scan locks within
      the first 7 * 126 probes, on the lexicographically least (unit ID, channel)
      pair that locks. */
  lemma LocksWithinOneSweep(magics: set<Byte>, o: Oracle, unitID: int, channel: int)
    requires FIRST_UNIT <= unitID <= LAST_UNIT && 0 <= channel < CHANNELS
    requires Locks(magics, o(0, unitID, channel))
    ensures exists n: nat ::
      && n < SWEEP
      && FirstLock(magics, o, n)
      && Run(magics, o, n + 1) == Locked(CursorAt(n).unitID, CursorAt(n).channel)
      && !Before(unitID, channel, CursorAt(n).unitID, CursorAt(n).channel)
      && NoEarlierLock(magics, o, CursorAt(n).unitID, CursorAt(n).channel)
  {
    var target := Cursor(0, unitID, channel);
    CursorAtIndex(target);
    FirstLockExists(magics, o, Index(target));
    var n: nat :| n <= Index(target) && FirstLock(magics, o, n);
    RunAfterLock(magics, o, n, n + 1);
    var at := CursorAt(n);
    FirstLockInFirstSweep(magics, o, n, Index(target));
    assert !Before(unitID, channel, at.unitID, at.channel);
    assert n < SWEEP && Run(magics, o, n + 1) == Locked(at.unitID, at.channel);
  }

  /** A first lock no later than a probe of the first sweep lies in the first
      sweep, and no pair before it in that sweep locks. */
  lemma FirstLockInFirstSweep(magics: set<Byte>, o: Oracle, n: nat, bound: nat)
    requires FirstLock(magics, o, n) && n <= bound < SWEEP
    ensures n < SWEEP && CursorAt(n).sweep == 0
    ensures NoEarlierLock(magics, o, CursorAt(n).unitID, CursorAt(n).channel)
  {
    var at := CursorAt(n);
    forall u, c | FIRST_UNIT <= u <= LAST_UNIT && 0 <= c < CHANNELS && Before(u, c, at.unitID, at.channel)
      ensures !Locks(magics, o(0, u, c))
    {
      var earlier := Cursor(0, u, c);
      CursorAtIndex(earlier);
      assert Index(earlier) < n;
    }
  }

  /** `_doScan(unitID)` in sweep `sweep`: probes channels 0, 1, ..., 125 in
      turn and stops at the first probe that locks. `found` is the value the
      source returns; `channel` is the channel the radio is left tuned to. */
  method DoScan(magics: set<Byte>, o: Oracle, sweep: nat, unitID: int) returns (found: bool, channel: int)
    requires FIRST_UNIT <= unitID <= LAST_UNIT
    ensures 0 <= channel < CHANNELS
    ensures found ==> Locks(magics, o(sweep, unitID, channel))
    ensures forall c :: 0 <= c < channel ==> !Locks(magics, o(sweep, unitID, c))
    ensures !found ==> channel == CHANNELS - 1 && !Locks(magics, o(sweep, unitID, channel))
  {
    var rfCH := 0;
    while rfCH < CHANNELS
      invariant 0 <= rfCH <= CHANNELS
      invariant forall c :: 0 <= c < rfCH ==> !Locks(magics, o(sweep, unitID, c))
    {
      var probe := o(sweep, unitID, rfCH);
      if probe.Received? && probe.magic in magics {
        return true, rfCH;
      }
      rfCH := rfCH + 1;
    }
    return false, CHANNELS - 1;
  }

  /** The unit-ID loops of `begin`: for unit IDs 1..7 run `_doScan`, and repeat
      the whole sweep until some probe locks. The source loops forever when no
      probe ever locks, so the model requires that one does. `probes` counts
      the probes made before the locking one. */
  method ScanForLock(magics: set<Byte>, o: Oracle) returns (unitID: int, channel: int, ghost probes: nat)
    requires exists k: nat, u: int, c: int ::
      FIRST_UNIT <= u <= LAST_UNIT && 0 <= c < CHANNELS && Locks(magics, o(k, u, c))
    ensures FIRST_UNIT <= unitID <= LAST_UNIT && 0 <= channel < CHANNELS
    ensures FirstLock(magics, o, probes)
    ensures CursorAt(probes).unitID == unitID && CursorAt(probes).channel == channel
    ensures SweepIndependent(o) ==> probes < SWEEP
  {
    ghost var lockSweep: nat, lockUnit: int, lockChannel: int :|
      FIRST_UNIT <= lockUnit <= LAST_UNIT && 0 <= lockChannel < CHANNELS &&
      Locks(magics, o(lockSweep, lockUnit, lockChannel));
    var sweep: nat := 0;
    var gotLock := false;
    unitID, channel := FIRST_UNIT, 0;
    while true
      invariant sweep <= lockSweep
      invariant forall m: nat :: m < sweep * SWEEP ==> !Locks(magics, ProbeAt(o, CursorAt(m)))
      decreases lockSweep - sweep
    {
      unitID := FIRST_UNIT;
      while unitID <= LAST_UNIT
        invariant FIRST_UNIT <= unitID <= LAST_UNIT + 1
        invariant forall m: nat :: m < sweep * SWEEP + (unitID - 1) * CHANNELS ==>
          !Locks(magics, ProbeAt(o, CursorAt(m)))
      {
        gotLock, channel := DoScan(magics, o, sweep, unitID);
        NoLockInScannedChannels(magics, o, sweep, unitID, channel);
        if gotLock {
          break;
        }
        unitID := unitID + 1;
      }
      if gotLock {
        break;
      }
      SweepBeforeLock(magics, o, sweep, lockSweep, lockUnit, lockChannel);
      sweep := sweep + 1;
    }
    probes := Index(Cursor(sweep, unitID, channel));
    LockedAtProbe(magics, o, sweep, unitID, channel);
  }

  /** A sweep all of whose probes failed is not the one in which the
      transmitter answers. */
  lemma SweepBeforeLock(magics: set<Byte>, o: Oracle, sweep: nat,
                        lockSweep: nat, lockUnit: int, lockChannel: int)
    requires FIRST_UNIT <= lockUnit <= LAST_UNIT && 0 <= lockChannel < CHANNELS
    requires Locks(magics, o(lockSweep, lockUnit, lockChannel))
    requires forall m: nat :: m < sweep * SWEEP + LAST_UNIT * CHANNELS ==>
      !Locks(magics, ProbeAt(o, CursorAt(m)))
    ensures sweep < lockSweep
  {
    var target := Cursor(lockSweep, lockUnit, lockChannel);
    CursorAtIndex(target);
  }

  /** The probe at (sweep, unitID, channel) locks and all earlier ones failed:
      it is the first lock, and for a sweep-independent transmitter it lies in
      the first sweep. */
  lemma LockedAtProbe(magics: set<Byte>, o: Oracle, sweep: nat, unitID: int, channel: int)
    requires FIRST_UNIT <= unitID <= LAST_UNIT && 0 <= channel < CHANNELS
    requires Locks(magics, o(sweep, unitID, channel))
    requires forall m: nat :: m < Index(Cursor(sweep, unitID, channel)) ==>
      !Locks(magics, ProbeAt(o, CursorAt(m)))
    ensures FirstLock(magics, o, Index(Cursor(sweep, unitID, channel)))
    ensures CursorAt(Index(Cursor(sweep, unitID, channel))) == Cursor(sweep, unitID, channel)
    ensures SweepIndependent(o) ==> Index(Cursor(sweep, unitID, channel)) < SWEEP
  {
    var here := Cursor(sweep, unitID, channel);
    CursorAtIndex(here);
    CursorAtIndex(Cursor(0, unitID, channel));
  }

  /** After `_doScan` has probed channels 0..channel of `unitID`, every probe up
      to (excluding) the locking one has failed; if it also failed on
      `channel`, every probe of that unit ID has. */
  lemma NoLockInScannedChannels(magics: set<Byte>, o: Oracle, sweep: nat, unitID: int, channel: int)
    requires FIRST_UNIT <= unitID <= LAST_UNIT && 0 <= channel < CHANNELS
    requires forall c :: 0 <= c < channel ==> !Locks(magics, o(sweep, unitID, c))
    requires forall m: nat :: m < sweep * SWEEP + (unitID - 1) * CHANNELS ==>
      !Locks(magics, ProbeAt(o, CursorAt(m)))
    ensures forall m: nat :: m < Index(Cursor(sweep, unitID, channel)) ==>
      !Locks(magics, ProbeAt(o, CursorAt(m)))
    ensures channel == CHANNELS - 1 && !Locks(magics, o(sweep, unitID, channel)) ==>
      forall m: nat :: m < sweep * SWEEP + unitID * CHANNELS ==> !Locks(magics, ProbeAt(o, CursorAt(m)))
  {
    var base := sweep * SWEEP + (unitID - 1) * CHANNELS;
    forall m: nat | base <= m < base + CHANNELS
      ensures CursorAt(m) == Cursor(sweep, unitID, m - base)
    {
      CursorAtIndex(Cursor(sweep, unitID, m - base));
    }
  }
}
