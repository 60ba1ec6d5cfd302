// Condition and SynchList as objects.
module SynchLists {
  import opened Collections
  import opened Semaphores
  import opened Locks
  import opened Monitors

  class Condition {
    var waitQueue: seq<Semaphore>    // a semaphore for each waiting thread

    /** Every waiter has a semaphore of its own. */
    ghost predicate Valid()
      reads this, waitQueue
    {
      Distinct(waitQueue) && forall k :: 0 <= k < |waitQueue| ==> waitQueue[k].Valid()
    }

    constructor ()
      ensures Valid() && waitQueue == []
    {
      waitQueue := [];
    }

    /** The first half of Wait, up to the release of the lock: the semaphore the thread will sleep on. */
    method Enqueue(conditionLock: Lock, ghost currentThread: Tid) returns (waiter: Semaphore)
      requires Valid() && conditionLock.IsHeldByCurrentThread(currentThread)
      modifies this
      ensures Valid() && fresh(waiter) && waiter.State() == Sem(0, [], {}) && waitQueue == old(waitQueue) + [waiter]
    {
      waiter := new Semaphore(0);
      waitQueue := waitQueue + [waiter];
    }

    method Signal(conditionLock: Lock, ghost currentThread: Tid) returns (readyToRun: seq<Tid>)
      requires Valid() && conditionLock.IsHeldByCurrentThread(currentThread)
      modifies this, if waitQueue == [] then {} else {waitQueue[0]}
      ensures Valid()
      ensures old(waitQueue) == [] ==> waitQueue == [] && readyToRun == []
      ensures old(waitQueue) != [] ==> waitQueue == old(waitQueue)[1..]
      ensures old(waitQueue) != [] ==>
              old(waitQueue)[0].Valid() && old(waitQueue)[0].State() == AfterV(old(waitQueue[0].State()))
      ensures old(waitQueue) != [] ==> readyToRun == First(old(waitQueue[0].State()))
    {
      readyToRun := [];
      if waitQueue != [] {
        var waiter := waitQueue[0];
        waitQueue := waitQueue[1..];
        hide Sound;
        readyToRun := waiter.V();
      }
    }

    /** Every waiter gets exactly one V. */
    method Broadcast(conditionLock: Lock, ghost currentThread: Tid) returns (readyToRun: seq<Tid>)
      requires Valid() && conditionLock.IsHeldByCurrentThread(currentThread)
      modifies this, waitQueue
      ensures Valid() && waitQueue == []
      ensures forall w :: w in old(waitQueue) ==> w.Valid() && w.State() == AfterV(old(w.State()))
      ensures readyToRun == Heads(old(States(waitQueue)))
    {
      hide Sound, AfterV, First, Semaphore.State, Semaphore.Valid;
      readyToRun := [];
      ghost var states := States(waitQueue);
      ghost var queue, k := waitQueue, 0;
      while waitQueue != []
        invariant 0 <= k <= |queue| && waitQueue == queue[k..]
        invariant forall j :: 0 <= j < |queue| ==> queue[j].Valid()
        invariant forall j :: 0 <= j < k ==> queue[j].State() == AfterV(states[j])
        invariant forall j :: k <= j < |queue| ==> queue[j].State() == states[j]
        invariant readyToRun == Heads(states[..k])
        decreases |waitQueue|
      {
        assert waitQueue[0] == queue[k];
        var ready := Signal(conditionLock, currentThread);
        readyToRun := readyToRun + ready;
        assert states[..k + 1][..k] == states[..k];
        k := k + 1;
      }
      assert states[..k] == states;
    }
  }

  ghost function States(queue: seq<Semaphore>): (s: seq<Sem>)
    reads queue
    ensures |s| == |queue| && forall i :: 0 <= i < |s| ==> s[i] == queue[i].State()
  {
    seq(|queue|, i requires 0 <= i < |queue| reads queue => queue[i].State())
  }

  /** Whom a V makes ready. */
  function First(s: Sem): seq<Tid> {
    if s.queue == [] then [] else [s.queue[0]]
  }

  /** Whom a V on each of these semaphores makes ready. */
  function Heads(s: seq<Sem>): seq<Tid> {
    if s == [] then [] else Heads(s[..|s| - 1]) + First(s[|s| - 1])
  }

  /** The threads at the fronts of the queues, in the order of the semaphores. */
  lemma {:induction false} HeadsInOrder(s: seq<Sem>, who: seq<Tid>)
    requires |who| == |s| && forall i :: 0 <= i < |s| ==> s[i].queue != [] && s[i].queue[0] == who[i]
    ensures Heads(s) == who
  {
    if s != [] {
      var n := |s| - 1;
      HeadsInOrder(s[..n], who[..n]);
      assert who == who[..n] + [who[n]];
    }
  }

  /** The list with its lock and condition variable, and where each thread is inside its operations. A
      waiter's semaphore is kept by the thread's name. */
  class SynchList<I(==)> {
    const lock: Lock
    var list: seq<I>
    var waitQueue: seq<Tid>
    var waiters: map<Tid, Sem>
    var pc: map<Tid, Pc<I>>
    ghost var appended: seq<I>
    ghost var removed: seq<I>
    ghost var signalled: set<Tid>
    ghost var ringing: set<Tid>
    ghost var busy: set<Tid>

    ghost function State(): Monitor<I>
      reads this, lock, lock.semaphore
    {
      Monitor(lock.semaphore.State(), lock.lockHolder, list, waitQueue, waiters, pc, appended, removed, signalled,
        ringing, busy)
    }

    ghost predicate Valid()
      reads this, lock, lock.semaphore
    {
      lock.Valid() && Inv(State())
    }

    constructor (threads: set<Tid>)
      ensures Valid() && fresh(lock) && fresh(lock.semaphore) && State() == Started<I>(threads)
    {
      lock := new Lock();
      list, waitQueue, waiters := [], [], map[];
      pc := map t | t in threads :: Idle;
      appended, removed, signalled, ringing, busy := [], [], {}, {}, {};
      new;
      StartedInv<I>(threads);
    }

    predicate CanDo(a: Act<I>)
      reads this, lock, lock.semaphore
      ensures CanDo(a) <==> CanAct(State(), a)
    {
      a.t in pc &&
      if a.Go? then a.t !in lock.semaphore.threadQueue && (a.t in waiters ==> a.t !in waiters[a.t].queue)
        else pc[a.t].Idle?
    }

    method Call(t: Tid, why: Purpose<I>)
      requires Valid() && t in pc && pc[t].Idle? && !why.ToRecheck?
      modifies this
      ensures Valid() && State() == Called(old(State()), t, why)
    {
      CallKeeps(State(), t, why);
      pc := pc[t := Entering(why)];
    }

    // One method for each kind of step; Step puts them together.

    method TryLock(t: Tid)
      requires lock.Valid() && t in pc && pc[t].Entering? && t !in lock.semaphore.threadQueue
      modifies this`pc, lock.semaphore
      ensures lock.Valid() && State() == Next(old(State()), t)
    {
      var done := lock.semaphore.P(t);
      if done {
        pc := pc[t := Entered(pc[t].why)];
      }
    }

    method SetHolder(t: Tid)
      requires lock.Valid() && t in pc && pc[t].Entered?
      modifies this`pc, this`waiters, lock
      ensures lock.Valid() && State() == Next(old(State()), t)
    {
      lock.lockHolder := Some(t);
      match pc[t].why
      case ToPut(item) => pc := pc[t := Putting(item)];
      case ToCheck => pc := pc[t := Checking];
      case ToRecheck =>
        waiters := waiters - {t};
        pc := pc[t := Checking];
    }

    method Put(t: Tid)
      requires lock.Valid() && t in pc && pc[t].Putting?
      modifies this
      ensures lock.Valid() && State() == Next(old(State()), t)
    {
      var item := pc[t].item;
      if item !in list {
        list, appended := list + [item], appended + [item];
      }
      busy := busy + {t};
      pc := pc[t := Signalling];
    }

    method Signal(t: Tid)
      requires lock.Valid() && t in pc && pc[t].Signalling?
      requires lock.IsHeldByCurrentThread(t)
      modifies this
      ensures lock.Valid() && State() == Next(old(State()), t)
    {
      assert lock.IsHeldByCurrentThread(t);
      busy := busy - {t};
      if waitQueue == [] {
        pc := pc[t := Leaving(Finish)];
      } else {
        var who := waitQueue[0];
        waitQueue, pc := waitQueue[1..], pc[t := Waking(who)];
        signalled, ringing := signalled + {who}, ringing + {who};
      }
    }

    method Wake(t: Tid)
      requires lock.Valid() && t in pc && pc[t].Waking? && pc[t].who in waiters
      modifies this
      ensures lock.Valid() && State() == Next(old(State()), t)
    {
      var who := pc[t].who;
      waiters, ringing := waiters[who := AfterV(waiters[who])], ringing - {who};
      pc := pc[t := Leaving(Finish)];
    }

    method Check(t: Tid)
      requires lock.Valid() && t in pc && pc[t].Checking?
      modifies this
      ensures lock.Valid() && State() == Next(old(State()), t)
    {
      signalled := signalled - {t};
      if list == [] {
        pc := pc[t := Queueing];
      } else {
        busy := busy + {t};
        pc := pc[t := Taking];
      }
    }

    method Enqueue(t: Tid)
      requires lock.Valid() && t in pc && pc[t].Queueing?
      requires lock.IsHeldByCurrentThread(t)
      modifies this
      ensures lock.Valid() && State() == Next(old(State()), t)
    {
      assert lock.IsHeldByCurrentThread(t);
      waiters, waitQueue := waiters[t := Sem(0, [], {})], waitQueue + [t];
      pc := pc[t := Leaving(Doze)];
    }

    method Take(t: Tid) returns (item: I)
      requires lock.Valid() && t in pc && pc[t].Taking? && list != []
      modifies this
      ensures lock.Valid() && State() == Next(old(State()), t) && removed == old(removed) + [item]
    {
      item := list[0];
      removed, busy := removed + [item], busy - {t};
      list := list[1..];
      pc := pc[t := Leaving(Finish)];
    }

    method ClearHolder(t: Tid)
      requires lock.Valid() && t in pc && pc[t].Leaving?
      requires lock.IsHeldByCurrentThread(t)
      modifies this`pc, lock
      ensures lock.Valid() && State() == Next(old(State()), t)
    {
      assert lock.IsHeldByCurrentThread(t);
      lock.lockHolder := None;
      pc := pc[t := Left(pc[t].aim)];
    }

    method Unlock(t: Tid)
      requires lock.Valid() && t in pc && pc[t].Left?
      modifies this`pc, lock.semaphore
      ensures lock.Valid() && State() == Next(old(State()), t)
    {
      var ready := lock.semaphore.V();
      pc := pc[t := if pc[t].aim == Finish then Idle else Dozing];
    }

    method TryWaiter(t: Tid)
      requires lock.Valid() && t in pc && pc[t].Dozing? && t in waiters
      modifies this`pc, this`waiters
      ensures lock.Valid() && State() == Next(old(State()), t)
    {
      var value := waiters[t].value;
      waiters := waiters[t := Attempt(waiters[t], t)];
      if value > 0 {
        pc := pc[t := Entering(ToRecheck)];
      }
    }

    /** The next step of thread `t`; `taken` is what RemoveFront takes off the list in it. */
    method Step(t: Tid) returns (taken: Option<I>)
      requires Valid() && t in pc && !Asleep(State(), t)
      modifies this, lock, lock.semaphore
      ensures Valid() && State() == Next(old(State()), t)
      ensures taken.Some? ==> old(pc)[t].Taking? && removed == old(removed) + [taken.value]
      ensures old(pc)[t].Taking? ==> taken.Some?
    {
      StepKeeps(State(), t);
      hide Inv, Sound, Next;
      taken := None;
      match pc[t]
      case Idle => IdleStep(State(), t);
      case Entering(_) => TryLock(t);
      case Entered(_) => SetHolder(t);
      case Putting(_) => Put(t);
      case Signalling => Signal(t);
      case Waking(_) => Wake(t);
      case Checking => Check(t);
      case Queueing => Enqueue(t);
      case Taking =>
        var item := Take(t);
        taken := Some(item);
      case Leaving(_) => ClearHolder(t);
      case Left(_) => Unlock(t);
      case Dozing => TryWaiter(t);
    }
  }

  lemma IdleStep<I>(m: Monitor<I>, t: Tid)
    requires t in m.pc && m.pc[t].Idle?
    ensures Next(m, t) == m
  {
  }

  /** The object under any sequence of calls and steps of any threads: just the machine's run, so that
      everything proved of runs holds of it. */
  method Run<I(==)>(threads: set<Tid>, acts: seq<Act<I>>) returns (l: SynchList<I>)
    ensures l.Valid() && l.State() == MonitorRun(threads, acts)
  {
    hide Inv, Next, Called, CanAct;
    l := new SynchList<I>(threads);
    var i := 0;
    while i < |acts|
      invariant 0 <= i <= |acts| && l.Valid() && l.State() == MonitorRun(threads, acts[..i])
      invariant fresh(l) && fresh(l.lock) && fresh(l.lock.semaphore)
    {
      var a := acts[i];
      if l.CanDo(a) {
        Do(l, a);
      }
      assert acts[..i + 1][..i] == acts[..i];
      i := i + 1;
    }
    assert acts[..i] == acts;
  }

  method Do<I(==)>(l: SynchList<I>, a: Act<I>)
    requires l.Valid() && CanAct(l.State(), a)
    modifies l, l.lock, l.lock.semaphore
    ensures l.Valid() && l.State() == Perform(old(l.State()), a)
  {
    hide Inv, Next, Called;
    match a
    case CallAppend(t, item) => l.Call(t, ToPut(item));
    case CallRemoveFront(t) => l.Call(t, ToCheck);
    case Go(t) => var taken := l.Step(t);
  }
}
