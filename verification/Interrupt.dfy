// Interrupt: simulated time, and the device interrupts that are to happen in it.
module Interrupts {
  import opened SortedLists
  import opened EventQueue

  function Slot(t: IntType): (i: nat)
    ensures i < 6
  {
    match t
    case TimerInt => 0
    case DiskInt => 1
    case ConsoleWriteInt => 2
    case ConsoleReadInt => 3
    case NetworkSendInt => 4
    case NetworkRecvInt => 5
  }

  /** How many interrupts of slot `i` there are in `s`. */
  function Count(s: seq<PendingInterrupt>, i: nat): nat {
    if s == [] then 0 else (if Slot(s[0].kind) == i then 1 else 0) + Count(s[1..], i)
  }

  /** The counts of the six types are apart, and each counts just its own. */
  lemma SlotsApart(t: IntType, u: IntType)
    ensures Slot(t) == Slot(u) ==> t == u
  {
  }

  lemma {:induction false} CountIs(s: seq<PendingInterrupt>, t: IntType)
    ensures Count(s, Slot(t)) <= |s|
    ensures Count(s, Slot(t)) == 0 <==> forall k :: 0 <= k < |s| ==> s[k].kind != t
    ensures Count(s, Slot(t)) == |s| <==> forall k :: 0 <= k < |s| ==> s[k].kind == t
  {
    if s != [] {
      CountIs(s[1..], t);
      SlotsApart(s[0].kind, t);
    }
    hide Slot;
  }

  /** A new interrupt is one more of its kind; nothing about the others changes. */
  lemma {:induction false} InsertedCounts(s: seq<PendingInterrupt>, p: PendingInterrupt, i: nat)
    ensures Count(Inserted(s, p, pendingCompare), i) == Count(s, i) + if Slot(p.kind) == i then 1 else 0
  {
    if s == [] {
      assert [p][1..] == [];
    } else if pendingCompare(p, s[0]) < 0 {
      assert ([p] + s)[1..] == s;
    } else {
      InsertedCounts(s[1..], p, i);
      assert ([s[0]] + Inserted(s[1..], p, pendingCompare))[1..] == Inserted(s[1..], p, pendingCompare);
    }
  }

  lemma InsertedTally(s: seq<PendingInterrupt>, p: PendingInterrupt)
    ensures forall i: nat :: Count(Inserted(s, p, pendingCompare), i) == Count(s, i) + if Slot(p.kind) == i then 1
            else 0
  {
    forall i: nat ensures Count(Inserted(s, p, pendingCompare), i) == Count(s, i) + if Slot(p.kind) == i then 1 else 0 {
      InsertedCounts(s, p, i);
    }
  }

  class Interrupt {
    var level: IntStatus
    var status: MachineStatus
    var inHandler: bool
    var yieldOnReturn: bool
    const pending: SortedList<PendingInterrupt>
    const intCount: array<int>
    // the statistics the source keeps apart
    var totalTicks: nat
    var idleTicks: nat
    var systemTicks: nat
    var userTicks: nat
    // what the handlers do, and how many have been called
    const handlers: Handlers
    var called: nat
    var serial: nat        // the next object's identity
    ghost var events: Events

    /** `events` is what has happened, and what the list holds of it. */
    ghost predicate Wired()
      reads this, pending, pending.Repr
    {
      && this !in pending.Repr && pending in pending.Repr && intCount !in pending.Repr && pending.Valid()
      && pending.compare == pendingCompare
      && events.pending == pending.Contents() && events.yieldOnReturn == yieldOnReturn
      && serial == |events.scheduled| && called == |events.fired| && Polite(handlers)
    }

    /** intCount says how many interrupts of each type are pending; the one of slot `extra`, if there is
        such a slot, is in its handler and counted still. */
    ghost predicate Tally(extra: int)
      reads `events, intCount
    {
      intCount.Length == 6 && forall i :: 0 <= i < 6 ==>
        intCount[i] == Count(events.pending, i) + if i == extra then 1 else 0
    }

    ghost function State(): State
      reads this
    {
      EventQueue.State(level, status, Clock(totalTicks, idleTicks, systemTicks, userTicks), events)
    }

    /** As it is between any two of its operations. */
    ghost predicate Valid()
      reads this, pending, pending.Repr, intCount
    {
      Wired() && Tally(-1) && !inHandler && Settled(State())
    }

    constructor (handlers: Handlers)
      requires Polite(handlers)
      ensures Valid() && fresh(pending.Repr) && fresh(intCount) && this.handlers == handlers
      ensures State() == BEGUN
    {
      level, status, inHandler, yieldOnReturn := IntOff, SystemMode, false, false;
      pending := new SortedList<PendingInterrupt>(pendingCompare);
      intCount := new int[6](i => 0);
      totalTicks, idleTicks, systemTicks, userTicks := 0, 0, 0, 0;
      this.handlers := handlers;
      called, serial, events := 0, 0, BEGUN.events;
    }

    /** Arrange for an interrupt; its ASSERT is the precondition. */
    method Schedule(toCall: nat, fromNow: int, kind: IntType, ghost extra: int)
      requires Wired() && Tally(extra) && Ledger(events) && fromNow > 0
      modifies this`serial, this`events, pending.Repr, intCount
      ensures Wired() && Tally(extra) && fresh(pending.Repr - old(pending.Repr))
      ensures events == Booked(old(events), Request(toCall, fromNow, kind), totalTicks) && Ledger(events)
    {
      hide Sorted, Inserted, Ledger, Count, Polite, SortedList.Valid;
      ghost var e, r := events, Request(toCall, fromNow, kind);
      var when := totalTicks + fromNow;
      var toOccur := PendingInterrupt(serial, toCall, when, kind);
      NotYet(e, r, totalTicks);
      pending.Insert(toOccur);
      InsertedTally(e.pending, toOccur);
      intCount[Slot(kind)] := intCount[Slot(kind)] + 1;
      serial, events := serial + 1, Booked(e, r, totalTicks);
      BookedLedger(e, r, totalTicks);
    }

    /** The handler of `next`: the call is recorded, and its calls of Schedule are made, in order. */
    method CallBack(next: PendingInterrupt)
      requires Wired() && Tally(Slot(next.kind)) && inHandler
      requires forall r :: Ledger(Entered(events, next, totalTicks, r))
      modifies this`serial, this`called, this`events, this`yieldOnReturn, pending.Repr, intCount
      ensures Wired() && Tally(Slot(next.kind)) && fresh(pending.Repr - old(pending.Repr))
      ensures events == Called(old(events), next, totalTicks, handlers)
    {
      hide Ledger, Booked, Count, SortedList.Valid, SortedList.Contents, Ahead, Polite;
      var response := handlers(next.callOnInterrupt, called);
      PoliteAhead(handlers, next.callOnInterrupt, called);
      Enter(next, response);
      ScheduleAll(response.requests, Slot(next.kind));
    }

    method Enter(next: PendingInterrupt, response: Response)
      requires Wired() && Tally(Slot(next.kind)) && inHandler
      modifies this`called, this`events, this`yieldOnReturn
      ensures Wired() && Tally(Slot(next.kind)) && events == Entered(old(events), next, totalTicks, response)
    {
      hide Count, SortedList.Valid, SortedList.Contents, Polite;
      called, events := called + 1, Entered(events, next, totalTicks, response);
      if response.wantsYield {
        assert inHandler;
        yieldOnReturn := true;
      }
    }

    method ScheduleAll(requests: seq<Request>, ghost extra: int)
      requires Wired() && Tally(extra) && Ledger(events) && Ahead(requests)
      modifies this`serial, this`events, pending.Repr, intCount
      ensures Wired() && Tally(extra) && fresh(pending.Repr - old(pending.Repr))
      ensures events == BookedAll(old(events), requests, totalTicks)
    {
      hide Ledger, Booked, Count, SortedList.Valid, SortedList.Contents, Polite, Interrupt.Tally;
      var k := 0;
      while k < |requests|
        invariant 0 <= k <= |requests| && Wired() && Tally(extra) && fresh(pending.Repr - old(pending.Repr))
        invariant events == BookedAll(old(events), requests[..k], totalTicks) && Ledger(events)
      {
        var r := requests[k];
        assert requests[..k + 1][..k] == requests[..k];
        Schedule(r.toCall, r.fromNow, r.kind, extra);
        k := k + 1;
      }
      assert requests[..k] == requests;
    }

    /** One turn of the loop of CheckIfDue. */
    method FireFront()
      requires Wired() && Tally(-1) && inHandler && Timely(events, totalTicks) && IsDue(events, totalTicks)
      modifies this`serial, this`called, this`events, this`yieldOnReturn, pending.Repr, intCount
      ensures Wired() && Tally(-1) && Timely(events, totalTicks) && fresh(pending.Repr - old(pending.Repr))
      ensures events == FrontFired(old(events), totalTicks, handlers)
    {
      hide Timely, Ledger, Called, Entered, Polite, SortedList.Valid, SortedList.Contents, Interrupt.Tally;
      FrontKeeps(events, totalTicks, handlers);
      var next := TakeFront();
      CallBack(next);
      Uncount(next.kind);
    }

    /** The first interrupt comes off; it is counted still. */
    method TakeFront() returns (next: PendingInterrupt)
      requires Wired() && Tally(-1) && events.pending != []
      modifies pending, this`events
      ensures next == old(events).pending[0] && events == old(events).(pending := old(events).pending[1..])
      ensures Wired() && Tally(Slot(next.kind)) && pending.Repr == old(pending.Repr)
    {
      hide Polite;
      ghost var s := events.pending;
      next := pending.RemoveFront();
      assert s == [next] + pending.Contents();
      events := events.(pending := s[1..]);
    }

    /** The end of a turn; its ASSERT holds. */
    method Uncount(kind: IntType)
      requires Wired() && Tally(Slot(kind))
      modifies intCount
      ensures Wired() && Tally(-1)
    {
      hide Polite, SortedList.Valid;
      assert intCount[Slot(kind)] > 0;
      intCount[Slot(kind)] := intCount[Slot(kind)] - 1;
    }

    lemma FrontIsFirst()
      requires Wired()
      ensures pending.IsEmpty() <==> events.pending == []
      ensures events.pending != [] ==> pending.first != null && pending.Front() == events.pending[0]
    {
    }

    /** Fire what is due; with `advanceClock`, first move on to the next interrupt. */
    method CheckIfDue(advanceClock: bool) returns (r: bool)
      requires Wired() && Tally(-1) && !inHandler && level == IntOff && Timely(events, totalTicks)
      modifies this`serial, this`called, this`events, this`yieldOnReturn, this`inHandler, this`totalTicks,
        this`idleTicks,
               pending.Repr, intCount
      ensures Wired() && Tally(-1) && !inHandler && fresh(pending.Repr - old(pending.Repr))
      ensures State() == Checked(old(State()), advanceClock, handlers)
      ensures events.fired == old(events).fired + FiredAt(Dues(old(events).pending, totalTicks), totalTicks)
      ensures events.yieldOnReturn <==> old(events).yieldOnReturn || Asked(events.fired, |old(events).fired|, handlers)
      ensures r <==> Dues(old(events).pending, totalTicks) != []
      ensures advanceClock && old(events).pending != [] ==> r && totalTicks >= old(events).pending[0].when
    {
      hide Timely, Polite, FrontFired, SortedList.Valid, Interrupt.Tally, FiredAt, Asked;
      ghost var e := events;
      FiresDues(e, totalTicks, handlers);
      LoopAsks(e, totalTicks, handlers);
      FrontIsFirst();
      if pending.IsEmpty() {
        return false;
      }
      if pending.Front().when > totalTicks {
        if !advanceClock {
          return false;
        }
        TimeJumps(e, totalTicks);
        idleTicks := idleTicks + (pending.Front().when - totalTicks);
        totalTicks := pending.Front().when;
        FiresDues(e, totalTicks, handlers);
        LoopAsks(e, totalTicks, handlers);
      }
      FireAll();
      return true;
    }

    /** The loop of CheckIfDue. */
    method FireAll()
      requires Wired() && Tally(-1) && !inHandler && Timely(events, totalTicks) && IsDue(events, totalTicks)
      modifies this`serial, this`called, this`events, this`yieldOnReturn, this`inHandler, pending.Repr, intCount
      ensures Wired() && Tally(-1) && !inHandler && fresh(pending.Repr - old(pending.Repr))
      ensures events == AllFired(old(events), totalTicks, handlers)
      ensures events.fired == old(events).fired + FiredAt(Dues(old(events).pending, totalTicks), totalTicks)
    {
      hide Timely, Polite, Dues, FrontFired, SortedList.Valid, SortedList.Contents, Interrupt.Tally, FiredAt;
      ghost var e := events;
      FiresDues(e, totalTicks, handlers);
      FrontDues(e, totalTicks, handlers);
      inHandler := true;
      FireFront();
      while FrontDue()
        invariant inHandler && Wired() && Tally(-1) && Timely(events, totalTicks)
                  && fresh(pending.Repr - old(pending.Repr))
        invariant AllFired(events, totalTicks, handlers) == AllFired(e, totalTicks, handlers)
        decreases |Dues(events.pending, totalTicks)|
      {
        FrontDues(events, totalTicks, handlers);
        FireFront();
      }
      inHandler := false;
    }

    /** The test of that loop. */
    predicate FrontDue()
      requires Wired()
      reads this, pending, pending.Repr
      ensures FrontDue() <==> IsDue(events, totalTicks)
    {
      !pending.IsEmpty() && pending.Front().when <= totalTicks
    }

    method ChangeLevel(now: IntStatus)
      modifies this`level
      ensures level == now
    {
      level := now;
    }

    /** Advance time by one tick and fire what has come due. If a handler asked for a context switch, this
        is where the thread gives up the processor. */
    method OneTick() returns (switching: bool)
      requires Valid() && level == IntOn
      modifies this, pending.Repr, intCount
      ensures Valid() && fresh(pending.Repr - old(pending.Repr))
      ensures State() == Ticked(old(State()), handlers)
      ensures level == IntOn && idleTicks == old(idleTicks)
      ensures systemTicks == old(systemTicks) + if old(status) == SystemMode then SYSTEM_TICK else 0
      ensures userTicks == old(userTicks) + if old(status) == SystemMode then 0 else USER_TICK
      ensures events.fired == old(events).fired + FiredAt(Dues(old(events).pending, totalTicks), totalTicks)
      ensures switching <==>
                old(events).yieldOnReturn
                || exists k :: |old(events).fired| <= k < |events.fired| && Asks(events.fired, k, handlers)
      ensures !yieldOnReturn && !events.yieldOnReturn && status == if switching then SystemMode else old(status)
    {
      hide Settled, Timely, Polite, Dues, SortedList.Valid, SortedList.Contents, Interrupt.Tally, FiredAt, AllFired;
      TickedKeeps(State(), handlers);
      if status == SystemMode {
        totalTicks, systemTicks := totalTicks + SYSTEM_TICK, systemTicks + SYSTEM_TICK;
      } else {
        totalTicks, userTicks := totalTicks + USER_TICK, userTicks + USER_TICK;
      }
      ChangeLevel(IntOff);
      var any := CheckIfDue(false);
      ChangeLevel(IntOn);
      switching := yieldOnReturn;
      if switching {
        Yield();
      }
    }

    /** The thread gives up the processor, in system mode; it is back with setStatus of the mode it was in. */
    method Yield()
      requires Wired() && Tally(-1)
      modifies this`yieldOnReturn, this`events, this`status
      ensures Wired() && Tally(-1) && status == SystemMode && events == old(events).(yieldOnReturn := false)
    {
      hide Polite, SortedList.Valid, SortedList.Contents, Count;
      yieldOnReturn, events := false, events.(yieldOnReturn := false);
      status := SystemMode;
    }

    method SetLevel(now: IntStatus) returns (old_: IntStatus)
      requires Valid()
      modifies this, pending.Repr, intCount
      ensures Valid() && old_ == old(level) && fresh(pending.Repr - old(pending.Repr))
      ensures State() == LevelSet(old(State()), now, handlers) && level == now
      ensures totalTicks > old(totalTicks) <==> now == IntOn && old_ == IntOff
      ensures now == IntOff || old_ == IntOn ==> State() == old(State()).(level := now)
    {
      hide Polite, SortedList.Valid, SortedList.Contents, Interrupt.Tally, Ticked, Timely, NoneDue;
      old_ := level;
      ChangeLevel(now);
      if now == IntOn && old_ == IntOff {
        var switching := OneTick();
      }
    }

    method SetStatus(now: MachineStatus)
      requires Valid()
      modifies this`status
      ensures Valid() && State() == old(State()).(status := now)
    {
      hide Polite, SortedList.Valid, SortedList.Contents, Interrupt.Tally, Timely, NoneDue;
      status := now;
    }

    /** Nothing to run: move on to the next interrupt, or report that there is none and stop. */
    method Idle() returns (halted: bool)
      requires Valid() && level == IntOff
      modifies this, pending.Repr, intCount
      ensures Valid() && fresh(pending.Repr - old(pending.Repr))
      ensures State() == Idled(old(State()), handlers) && (halted <==> old(events).pending == [])
      ensures events.fired == old(events).fired + FiredAt(Dues(old(events).pending, totalTicks), totalTicks)
      ensures !halted ==> totalTicks == old(events).pending[0].when > old(totalTicks)
      ensures level == IntOff && status == if halted then IdleMode else SystemMode
      ensures totalTicks - old(totalTicks) == idleTicks - old(idleTicks)
    {
      hide Settled, Timely, Polite, SortedList.Valid, SortedList.Contents, Interrupt.Tally, FiredAt, FrontFired;
      IdledKeeps(State(), handlers);
      status := IdleMode;
      var r := CheckIfDue(true);
      if r {
        status := SystemMode;
        return false;
      }
      return true;
    }

    /** A device asks for an interrupt. */
    method ScheduleFor(r: Request)
      requires Valid() && r.fromNow > 0
      modifies this`serial, this`events, pending.Repr, intCount
      ensures Valid() && fresh(pending.Repr - old(pending.Repr))
      ensures State() == old(State()).(events := Booked(old(events), r, totalTicks))
    {
      hide Settled, Polite, SortedList.Valid, SortedList.Contents, Interrupt.Tally, Ledger, Booked;
      AskedKeeps(State(), r);
      Schedule(r.toCall, r.fromNow, r.kind, -1);
    }
  }

  // ---- runs ------------------------------------------------------------------------------------------------

  /** What a command does, if it can be given. */
  method Obey(i: Interrupt, c: Command)
    requires i.Valid()
    modifies i, i.pending.Repr, i.intCount
    ensures i.Valid() && fresh(i.pending.Repr - old(i.pending.Repr))
    ensures i.State() == Performed(old(i.State()), c, i.handlers)
  {
    hide Settled, Polite, SortedList.Valid, SortedList.Contents, Interrupt.Tally, Ticked, Idled, LevelSet, Booked;
    if i.status == IdleMode {
      return;
    }
    match c
    case Tick =>
      if i.level == IntOn {
        var switching := i.OneTick();
      }
    case Set(now) => var was := i.SetLevel(now);
    case Mode(user) => i.SetStatus(if user then UserMode else SystemMode);
    case Sleep =>
      if i.level == IntOff {
        var halted := i.Idle();
      }
    case Ask(r) =>
      if r.fromNow > 0 {
        i.ScheduleFor(r);
      }
  }

  /** Whatever the machine does and whatever handlers ask for, until it halts: the object is in the state of
      the run, of which RunAccounts and RunClocks hold, and intCount counts what is pending. */
  method Run(handlers: Handlers, commands: seq<Command>) returns (i: Interrupt)
    requires Polite(handlers)
    ensures i.Valid() && i.State() == RunOf(handlers, commands)
    ensures i.pending.Contents() == RunOf(handlers, commands).events.pending
    ensures forall k :: 0 <= k < 6 ==> i.intCount[k] == Count(i.pending.Contents(), k)
  {
    hide Settled, Polite, SortedList.Valid, SortedList.Contents, Performed;
    i := new Interrupt(handlers);
    var k := 0;
    while k < |commands|
      invariant 0 <= k <= |commands| && i.Valid() && fresh(i) && fresh(i.pending.Repr) && fresh(i.intCount)
      invariant i.handlers == handlers && i.State() == RunOf(handlers, commands[..k])
    {
      assert commands[..k + 1][..k] == commands[..k];
      Obey(i, commands[k]);
      k := k + 1;
    }
    assert commands[..k] == commands;
  }
}
