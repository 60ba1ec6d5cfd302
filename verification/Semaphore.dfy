// Semaphores, with the threads that sleep in P and those V has made ready but which have not run since.
module Semaphores {
  import opened Collections

  type Tid = nat

  /** `queue` is the source's ThreadQueue; `woken` are the threads V took from it that are on the ready
      list and will look at `value` again when they run. */
  datatype Sem = Sem(value: nat, queue: seq<Tid>, woken: set<Tid>)

  /** One turn of the loop in P by thread `t`, called for the first time or woken up: either the value
      is consumed, or `t` goes to sleep. */
  function Attempt(s: Sem, t: Tid): Sem {
    if s.value == 0 then Sem(0, s.queue + [t], s.woken - {t}) else Sem(s.value - 1, s.queue, s.woken - {t})
  }

  function AfterV(s: Sem): Sem {
    if s.queue == [] then s.(value := s.value + 1)
    else Sem(s.value + 1, s.queue[1..], s.woken + {s.queue[0]})
  }

  /** No wakeup is lost, even when threads that were never asleep get in first: while anyone sleeps,
      the value does not exceed the number of threads that will still try for it. */
  ghost predicate Sound(s: Sem) {
    && Distinct(s.queue) && (forall t :: t in s.queue ==> t !in s.woken)
    && (s.queue != [] ==> s.value <= |s.woken|)
  }

  lemma AttemptSound(s: Sem, t: Tid)
    requires Sound(s) && t !in s.queue
    ensures Sound(Attempt(s, t))
    ensures forall u :: u in Attempt(s, t).queue <==> u in s.queue || (u == t && s.value == 0)
  {
  }

  lemma VSound(s: Sem)
    requires Sound(s)
    ensures Sound(AfterV(s))
    ensures forall u :: u in AfterV(s).queue || u in AfterV(s).woken <==> u in s.queue || u in s.woken
  {
    assert s.queue != [] ==> s.queue == [s.queue[0]] + s.queue[1..];
    if s.queue != [] {
      assert s.queue[0] in s.queue;
      assert |s.woken + {s.queue[0]}| == |s.woken| + 1;
    }
  }

  // ---- runs of one semaphore ---------------------------------------------------------------------------

  /** A thread enters P or is run again inside it; or somebody calls V. */
  datatype Event = Enter(t: Tid) | Signal

  predicate Possible(s: Sem, e: Event) {
    e.Enter? ==> e.t !in s.queue
  }

  function After(s: Sem, e: Event): Sem {
    match e
    case Enter(t) => Attempt(s, t)
    case Signal => AfterV(s)
  }

  function RunOf(initial: nat, events: seq<Event>): Sem {
    if events == [] then Sem(initial, [], {})
    else
      var s := RunOf(initial, events[..|events| - 1]);
      var e := events[|events| - 1];
      if Possible(s, e) then After(s, e) else s
  }

  /** How many V's there were, and how many P's got through. */
  function Signals(events: seq<Event>): nat {
    if events == [] then 0
    else Signals(events[..|events| - 1]) + if events[|events| - 1].Signal? then 1 else 0
  }

  function Passes(initial: nat, events: seq<Event>): nat {
    if events == [] then 0
    else
      var s := RunOf(initial, events[..|events| - 1]);
      var e := events[|events| - 1];
      Passes(initial, events[..|events| - 1]) + if Possible(s, e) && e.Enter? && s.value > 0 then 1 else 0
  }

  /** The threads that went to sleep, in the order in which they did, and those that V's woke. */
  function Sleepers(initial: nat, events: seq<Event>): seq<Tid> {
    if events == [] then []
    else
      var s := RunOf(initial, events[..|events| - 1]);
      var e := events[|events| - 1];
      Sleepers(initial, events[..|events| - 1]) + if Possible(s, e) && e.Enter? && s.value == 0 then [e.t] else []
  }

  function Taken(initial: nat, events: seq<Event>): seq<Tid> {
    if events == [] then []
    else
      var s := RunOf(initial, events[..|events| - 1]);
      var e := events[|events| - 1];
      Taken(initial, events[..|events| - 1]) + if e.Signal? && s.queue != [] then [s.queue[0]] else []
  }

  /** One event, with threads woken from the front and put to sleep at the back. */
  lemma QueueStep(s: Sem, e: Event, slept: seq<Tid>, taken: seq<Tid>)
    requires slept == taken + s.queue && Possible(s, e)
    ensures slept + (if e.Enter? && s.value == 0 then [e.t] else [])
            == taken + (if e.Signal? && s.queue != [] then [s.queue[0]] else []) + After(s, e).queue
  {
    assert s.queue != [] ==> s.queue == [s.queue[0]] + s.queue[1..];
  }

  /** For every interleaving, threads are woken in the order in which they went to sleep: those that were woken,
      followed by those that still sleep, are all that went to sleep. */
  lemma {:induction false} FirstAsleepFirst(initial: nat, events: seq<Event>)
    ensures Sleepers(initial, events) == Taken(initial, events) + RunOf(initial, events).queue
  {
    if events != [] {
      hide After;
      var n := |events| - 1;
      FirstAsleepFirst(initial, events[..n]);
      var s := RunOf(initial, events[..n]);
      if Possible(s, events[n]) {
        QueueStep(s, events[n], Sleepers(initial, events[..n]), Taken(initial, events[..n]));
      }
    }
  }

  /** For every interleaving: the value is the initial one plus the V's minus the P's that got through,
      so it is never negative; and no wakeup is lost. */
  lemma {:induction false} SemaphoreRun(initial: nat, events: seq<Event>)
    ensures Sound(RunOf(initial, events))
    ensures RunOf(initial, events).value == initial + Signals(events) - Passes(initial, events)
  {
    if events != [] {
      var n := |events| - 1;
      SemaphoreRun(initial, events[..n]);
      var s := RunOf(initial, events[..n]);
      match events[n]
      case Enter(t) =>
        if t !in s.queue {
          AttemptSound(s, t);
        }
      case Signal => VSound(s);
    }
  }

  // ---- the object ----------------------------------------------------------------------------------------

  class Semaphore {
    var value: int
    var threadQueue: seq<Tid>
    ghost var woken: set<Tid>

    ghost predicate Valid()
      reads this
    {
      value >= 0 && Sound(State())
    }

    ghost function State(): Sem
      reads this
    {
      Sem(if value >= 0 then value else 0, threadQueue, woken)
    }

    constructor (initialValue: int)
      requires initialValue >= 0
      ensures Valid() && State() == Sem(initialValue, [], {})
    {
      value, threadQueue, woken := initialValue, [], {};
    }

    /** P by the current thread, as far as it gets without sleeping; to be run again when woken. */
    method P(currentThread: Tid) returns (done: bool)
      requires Valid() && currentThread !in threadQueue
      modifies this
      ensures Valid() && State() == Attempt(old(State()), currentThread)
      ensures done <==> old(value) > 0
      ensures done ==> value == old(value) - 1 && threadQueue == old(threadQueue)
      ensures !done ==> value == 0 && threadQueue == old(threadQueue) + [currentThread]
    {
      AttemptSound(State(), currentThread);
      woken := woken - {currentThread};
      if value == 0 {
        threadQueue := threadQueue + [currentThread];
        return false;
      }
      value := value - 1;
      return true;
    }

    /** V; the thread made ready, if there is one, is handed to the scheduler. */
    method V() returns (readyToRun: seq<Tid>)
      modifies this
      requires Valid()
      ensures Valid() && State() == AfterV(old(State()))
      ensures value == old(value) + 1 && old(threadQueue) == readyToRun + threadQueue
      ensures readyToRun == if old(threadQueue) == [] then [] else [old(threadQueue)[0]]
    {
      VSound(State());
      readyToRun := [];
      if threadQueue != [] {
        readyToRun := [threadQueue[0]];
        woken := woken + {threadQueue[0]};
        threadQueue := threadQueue[1..];
      }
      value := value + 1;
    }
  }
}
