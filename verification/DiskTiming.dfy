// Disk: how long a request takes, from where the head is and how far the platter has turned.
module DiskTiming {
  import EventQueue
  import Interrupts

  const SECTORS_PER_TRACK := 32
  const NUM_TRACKS := 32
  const NUM_SECTORS := SECTORS_PER_TRACK * NUM_TRACKS
  const SEEK_TIME := 500
  const ROTATION_TIME := 500

  // ---- the platter -----------------------------------------------------------------------------------

  /** In turn `m` of the disk's clock the head passes over exactly one sector of its track. */
  predicate Under(m: int, sector: int) {
    m % SECTORS_PER_TRACK == sector % SECTORS_PER_TRACK
  }

  /** Turn `m` lies wholly between times `from` and `to`. */
  predicate Within(m: int, from: int, to: int) {
    from <= m * ROTATION_TIME && (m + 1) * ROTATION_TIME <= to
  }

  /** Some time between `from` and `to` the whole sector has passed under the head. */
  ghost predicate Passed(sector: int, from: int, to: int) {
    exists m :: Under(m, sector) && Within(m, from, to)
  }

  /** `c` is the first moment by which the whole sector has passed under the head since `from`. */
  ghost predicate FirstPassed(sector: int, from: int, c: int) {
    Passed(sector, from, c) && forall e :: e < c ==> !Passed(sector, from, e)
  }

  // ---- the computation ---------------------------------------------------------------------------------

  function Distance(a: int, b: int): nat {
    if a < b then b - a else a - b
  }

  function Seek(lastSector: nat, newSector: nat): (s: nat)
    ensures SeekIs(lastSector, newSector, s)
  {
    Distance(newSector / SECTORS_PER_TRACK, lastSector / SECTORS_PER_TRACK) * SEEK_TIME
  }

  /** One seek time for each track in between. */
  predicate SeekIs(lastSector: nat, newSector: nat, s: int) {
    var tracks := newSector / 32 - lastSector / 32;
    s >= 0 && (s == 500 * tracks || s == -500 * tracks)
  }

  /** Ticks from `time` to the next boundary between sectors. */
  function ToBoundary(time: nat): (r: nat)
    ensures r < ROTATION_TIME && (time + r) % ROTATION_TIME == 0
  {
    var over := time % ROTATION_TIME;
    if over > 0 then ROTATION_TIME - over else 0
  }

  function ModuloDiff(to: nat, from: nat): (d: nat)
    ensures d < SECTORS_PER_TRACK && Under(from + d, to)
  {
    ((to % SECTORS_PER_TRACK - from % SECTORS_PER_TRACK) + SECTORS_PER_TRACK) % SECTORS_PER_TRACK
  }

  /** The next turn from `start` on in which the head passes over a sector. */
  lemma NextTurn(sector: nat, start: nat, m: int)
    requires start <= m < start + ModuloDiff(sector, start)
    ensures !Under(m, sector)
  {
  }

  /** Is a sector to be had from the track buffer, which has been filled since `bufferInit`? */
  ghost predicate Buffered(lastSector: nat, bufferInit: nat, newSector: nat, writing: bool, now: nat) {
    !writing && Seek(lastSector, newSector) == 0 && Passed(newSector, bufferInit, now + ToBoundary(now))
  }

  /** Since when the track buffer is filled: after a seek, from the next boundary on. */
  function Restarted(lastSector: nat, bufferInit: nat, newSector: nat, now: nat): (b: nat)
    ensures newSector / 32 == lastSector / 32 ==> b == bufferInit
    ensures newSector / 32 != lastSector / 32 ==>
              b % 500 == 0 && now + Seek(lastSector, newSector) <= b < now + Seek(lastSector, newSector) + 500
  {
    var seek := Seek(lastSector, newSector);
    if seek != 0 then now + seek + ToBoundary(now + seek) else bufferInit
  }

  /** How long a request takes: one turn if it is, and otherwise to the first boundary by which the whole
      sector has passed under the head since the seek. */
  ghost predicate Awaited(lastSector: nat, bufferInit: nat, newSector: nat, writing: bool, now: nat, latency: nat) {
    if Buffered(lastSector, bufferInit, newSector, writing, now) then
      latency == ROTATION_TIME && Passed(newSector, bufferInit, now + latency)
    else
      (now + latency) % ROTATION_TIME == 0 && FirstPassed(newSector, now + Seek(lastSector, newSector), now + latency)
  }

  /** What that means in numbers. The turn in which the sector is read or written begins with a boundary, not before
      the head has got there, and before all 32 sectors have passed; unless it is to be read from the track the head
      is on, and its first turn since the buffer was started is over by the next boundary. */
  lemma AwaitedMeans(lastSector: nat, bufferInit: nat, newSector: nat, writing: bool, now: nat, latency: nat, seek: nat)
    requires Awaited(lastSector, bufferInit, newSector, writing, now, latency) && SeekIs(lastSector, newSector, seek)
    requires bufferInit % 500 == 0 && bufferInit <= now + 499
    ensures var first := bufferInit + (newSector - bufferInit / 500) % 32 * 500;
      if !writing && newSector / 32 == lastSector / 32 && first < now then latency == 500
      else
        var begin := now + latency - 500;
        begin % 500 == 0 && begin / 500 % 32 == newSector % 32 && now + seek <= begin < now + seek + 32 * 500
  {
    BufferedMeans(lastSector, bufferInit, newSector, writing, now);
    assert seek == Seek(lastSector, newSector);
    if !Buffered(lastSector, bufferInit, newSector, writing, now) {
      FirstMeans(newSector, now + seek, now + latency);
    }
    hide Buffered, FirstPassed, Seek;
  }

  lemma BufferedMeans(lastSector: nat, bufferInit: nat, newSector: nat, writing: bool, now: nat)
    requires bufferInit % 500 == 0 && bufferInit <= now + ToBoundary(now)
    ensures Buffered(lastSector, bufferInit, newSector, writing, now) <==>
            && !writing && newSector / 32 == lastSector / 32
            && bufferInit + (newSector - bufferInit / 500) % 32 * 500 < now
  {
    var boundary := now + ToBoundary(now);
    BufferedIff(newSector, bufferInit, boundary);
    hide Passed;
    assert Seek(lastSector, newSector) == 0 <==> newSector / 32 == lastSector / 32;
    BoundaryTurns(newSector, bufferInit, now, boundary);
    hide Seek, ToBoundary;
  }

  lemma BoundaryTurns(sector: nat, bufferInit: nat, now: nat, boundary: nat)
    requires bufferInit % 500 == 0 && bufferInit <= boundary && boundary % 500 == 0 && now <= boundary < now + 500
    ensures (boundary - bufferInit) / 500 > ModuloDiff(sector, bufferInit / 500)
            <==> bufferInit + (sector - bufferInit / 500) % 32 * 500 < now
  {
    var d := ModuloDiff(sector, bufferInit / 500);
    assert d == (sector - bufferInit / 500) % 32;
    hide ModuloDiff;
  }

  lemma FirstMeans(sector: nat, from: nat, c: int)
    requires FirstPassed(sector, from, c)
    ensures var begin := c - 500;
      begin % 500 == 0 && begin / 500 % 32 == sector % 32 && from <= begin < from + 32 * 500
  {
    var m :| Under(m, sector) && Within(m, from, c);
    LastTurn(sector, from, c, m);
    EarlierTurn(sector, from, c, m);
    hide Passed, FirstPassed;
  }

  lemma LastTurn(sector: nat, from: nat, c: int, m: int)
    requires FirstPassed(sector, from, c) && Under(m, sector) && Within(m, from, c)
    ensures c == m * 500 + 500
  {
    PassedIn(sector, m, from, m * 500 + 500);
  }

  lemma EarlierTurn(sector: nat, from: nat, c: int, m: int)
    requires FirstPassed(sector, from, c) && Under(m, sector) && c == m * 500 + 500
    ensures m * 500 < from + 32 * 500
  {
    if m * 500 >= from + 32 * 500 {
      PassedIn(sector, m - 32, from, m * 500 + 500 - 32 * 500);
    }
  }

  lemma PassedIn(sector: nat, m: int, from: nat, to: int)
    requires Under(m, sector) && Within(m, from, to)
    ensures Passed(sector, from, to)
  {
  }

  class Disk {
    var lastSector: nat
    var bufferInit: nat
    var active: bool
    ghost var doneAt: nat    // when the request under way will be finished

    /** The track buffer has been filled from a sector boundary on; a request is only made once the seek
        of the one before has ended. */
    ghost predicate Valid(now: nat)
      reads this
    {
      lastSector < NUM_SECTORS && bufferInit % ROTATION_TIME == 0 && bufferInit <= if active then doneAt else now
    }

    constructor ()
      ensures Valid(0) && !active
    {
      lastSector, bufferInit, active, doneAt := 0, 0, false, 0;
    }

    method TimeToSeek(newSector: nat, now: nat) returns (seek: nat, rotation: nat)
      requires newSector < NUM_SECTORS && lastSector < NUM_SECTORS
      ensures SeekIs(lastSector, newSector, seek)
      ensures seek == Seek(lastSector, newSector) && seek % ROTATION_TIME == 0 && seek <= (NUM_TRACKS - 1) * SEEK_TIME
      ensures rotation == ToBoundary(now + seek)
    {
      var newTrack := newSector / SECTORS_PER_TRACK;
      var oldTrack := lastSector / SECTORS_PER_TRACK;
      seek := (if newTrack < oldTrack then oldTrack - newTrack else newTrack - oldTrack) * SEEK_TIME;
      var over := (now + seek) % ROTATION_TIME;
      rotation := 0;
      if over > 0 {
        rotation := ROTATION_TIME - over;
      }
    }

    /** A request made now is finished at the first sector boundary by which the whole sector has passed
        under the head since the seek; or, if it had already passed since the track buffer was started,
        one turn from now. */
    method ComputeLatency(newSector: nat, writing: bool, now: nat) returns (latency: nat, ghost buffered: bool)
      requires Valid(now) && !active && newSector < NUM_SECTORS
      ensures ROTATION_TIME <= latency <= 31999
      ensures buffered <==> Buffered(lastSector, bufferInit, newSector, writing, now)
      ensures Awaited(lastSector, bufferInit, newSector, writing, now, latency)
      ensures now + Seek(lastSector, newSector) + ToBoundary(now + Seek(lastSector, newSector)) <= now + latency
    {
      var seek, rotation := TimeToSeek(newSector, now);
      var timeAfter := now + seek + rotation;
      buffered := false;
      var diff := ModuloDiff(newSector, bufferInit / ROTATION_TIME);
      BufferedIff(newSector, bufferInit, timeAfter);
      if !writing && seek == 0 && (timeAfter - bufferInit) / ROTATION_TIME > diff {
        buffered := true;
        latency := ROTATION_TIME;
        PassedLater(newSector, bufferInit, timeAfter, now + latency);
        return;
      }
      rotation := rotation + ModuloDiff(newSector, timeAfter / ROTATION_TIME) * ROTATION_TIME;
      latency := seek + rotation + ROTATION_TIME;
      FirstPass(newSector, now + seek, timeAfter);
    }

    method UpdateLast(newSector: nat, now: nat)
      requires newSector < NUM_SECTORS && lastSector < NUM_SECTORS && bufferInit % ROTATION_TIME == 0
      modifies this`lastSector, this`bufferInit
      ensures lastSector == newSector && bufferInit % ROTATION_TIME == 0
      ensures bufferInit == Restarted(old(lastSector), old(bufferInit), newSector, now)
    {
      var seek, rotate := TimeToSeek(newSector, now);
      if seek != 0 {
        bufferInit := now + seek + rotate;
      }
      lastSector := newSector;
    }

    /** The head is on its way. */
    method Begin(newSector: nat, writing: bool, now: nat) returns (ticks: nat)
      requires Valid(now) && !active && newSector < NUM_SECTORS
      modifies this
      ensures Valid(now) && active && doneAt == now + ticks && lastSector == newSector
      ensures bufferInit == Restarted(old(lastSector), old(bufferInit), newSector, now)
      ensures Awaited(old(lastSector), old(bufferInit), newSector, writing, now, ticks)
              && ROTATION_TIME <= ticks <= 31999
    {
      hide Awaited, Buffered;
      ghost var buffered;
      ticks, buffered := ComputeLatency(newSector, writing, now);
      active, doneAt := true, now + ticks;
      UpdateLast(newSector, now);
    }

    /** The clockwork of ReadRequest and WriteRequest: the disk interrupt is to come when the request will be
        finished. `me` is this disk as the object to call. */
    method Request(interrupt: Interrupts.Interrupt, me: nat, newSector: nat, writing: bool) returns (ticks: nat)
      requires interrupt.Valid() && Valid(interrupt.totalTicks) && !active && newSector < NUM_SECTORS
      requires this !in interrupt.pending.Repr
      modifies this, interrupt`serial, interrupt`events, interrupt.pending.Repr, interrupt.intCount
      ensures interrupt.Valid() && fresh(interrupt.pending.Repr - old(interrupt.pending.Repr))
      ensures var now := interrupt.totalTicks;
        && Valid(now) && active && doneAt == now + ticks && lastSector == newSector
        && bufferInit == Restarted(old(lastSector), old(bufferInit), newSector, now)
        && Awaited(old(lastSector), old(bufferInit), newSector, writing, now, ticks) && ROTATION_TIME <= ticks <= 31999
        && interrupt.State() == old(interrupt.State()).(
             events := EventQueue.Booked(old(interrupt.events), EventQueue.Request(me, ticks, EventQueue.DiskInt), now))
    {
      hide Awaited, Restarted, EventQueue.Booked, EventQueue.Settled, EventQueue.Polite, Interrupts.Interrupt.Wired,
        Interrupts.Interrupt.Tally;
      ticks := Begin(newSector, writing, interrupt.totalTicks);
      interrupt.ScheduleFor(EventQueue.Request(me, ticks, EventQueue.DiskInt));
    }

    /** The disk interrupt: the disk is free again. */
    method CallBack(now: nat)
      requires Valid(now) && active && doneAt <= now
      modifies this`active
      ensures Valid(now) && !active
    {
      active := false;
    }
  }

  lemma PassedLater(sector: nat, from: int, to: int, later: int)
    requires Passed(sector, from, to) && to <= later
    ensures Passed(sector, from, later)
  {
    var m :| Under(m, sector) && Within(m, from, to);
    assert Within(m, from, later);
  }

  /** The test for the track buffer says just that the sector has passed since the buffer was started. */
  lemma BufferedIff(sector: nat, bufferInit: nat, timeAfter: nat)
    requires bufferInit % ROTATION_TIME == 0 && timeAfter % ROTATION_TIME == 0 && bufferInit <= timeAfter
    ensures (timeAfter - bufferInit) / ROTATION_TIME > ModuloDiff(sector, bufferInit / ROTATION_TIME)
            <==> Passed(sector, bufferInit, timeAfter)
  {
    var start, d := bufferInit / ROTATION_TIME, ModuloDiff(sector, bufferInit / ROTATION_TIME);
    if (timeAfter - bufferInit) / ROTATION_TIME > d {
      assert Under(start + d, sector) && Within(start + d, bufferInit, timeAfter);
    }
    if Passed(sector, bufferInit, timeAfter) {
      var m :| Under(m, sector) && Within(m, bufferInit, timeAfter);
      if m < start + d {
        NextTurn(sector, start, m);
      }
    }
  }

  /** Waiting for the sector from the first boundary after the seek is neither too short nor too long. */
  lemma FirstPass(sector: nat, seekEnd: nat, boundary: nat)
    requires boundary == seekEnd + ToBoundary(seekEnd)
    ensures var c := boundary + ModuloDiff(sector, boundary / ROTATION_TIME) * ROTATION_TIME + ROTATION_TIME;
            c % ROTATION_TIME == 0 && FirstPassed(sector, seekEnd, c)
  {
    var start, d := boundary / ROTATION_TIME, ModuloDiff(sector, boundary / ROTATION_TIME);
    var c := boundary + d * ROTATION_TIME + ROTATION_TIME;
    Boundary(seekEnd, boundary);
    hide Under, ToBoundary, ModuloDiff;
    PassedThen(sector, seekEnd, boundary, start, d);
    forall e | e < c ensures !Passed(sector, seekEnd, e) {
      if Passed(sector, seekEnd, e) {
        var m :| Under(m, sector) && Within(m, seekEnd, e);
        TurnAfter(m, seekEnd, boundary, e, start, d);
        NextTurn(sector, start, m);
      }
    }
  }

  lemma Boundary(seekEnd: nat, boundary: nat)
    requires boundary == seekEnd + ToBoundary(seekEnd)
    ensures boundary == boundary / ROTATION_TIME * ROTATION_TIME && seekEnd <= boundary < seekEnd + ROTATION_TIME
  {
  }

  lemma PassedThen(sector: nat, seekEnd: nat, boundary: nat, start: nat, d: nat)
    requires boundary == start * ROTATION_TIME && seekEnd <= boundary && Under(start + d, sector)
    ensures var c := boundary + d * ROTATION_TIME + ROTATION_TIME; c % ROTATION_TIME == 0 && Passed(sector, seekEnd, c)
  {
    assert Within(start + d, seekEnd, boundary + d * ROTATION_TIME + ROTATION_TIME);
    assert boundary + d * ROTATION_TIME + ROTATION_TIME == (start + d + 1) * ROTATION_TIME;
  }

  lemma TurnAfter(m: int, seekEnd: nat, boundary: nat, e: int, start: nat, d: nat)
    requires Within(m, seekEnd, e) && boundary == start * ROTATION_TIME && boundary < seekEnd + ROTATION_TIME
    requires e < boundary + d * ROTATION_TIME + ROTATION_TIME
    ensures start <= m < start + d
  {
  }
}
