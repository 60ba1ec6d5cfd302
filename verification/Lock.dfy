// Locks: a semaphore that starts at 1, and the name of the holder, set and cleared in steps of their own.
module Locks {
  import opened Collections
  import opened Semaphores

  /** Where a thread is with respect to one lock. `Acquired` is the window in Acquire after P and before
      lockHolder is set; `Cleared` the one in Release after lockHolder is cleared and before V. */
  datatype Phase = Outside | Acquiring | Acquired | Holding | Cleared

  datatype LockState = LockState(sem: Sem, holder: Option<Tid>, phase: map<Tid, Phase>)

  predicate Owns(p: Phase) {
    p.Acquired? || p.Holding? || p.Cleared?
  }

  predicate Owner(s: LockState, t: Tid) {
    t in s.phase && Owns(s.phase[t])
  }

  ghost predicate LockInv(s: LockState) {
    && Sound(s.sem)
    && (forall t :: t in s.sem.queue || t in s.sem.woken ==> t in s.phase && s.phase[t].Acquiring?)
    && (forall t, u :: Owner(s, t) && Owner(s, u) ==> t == u)
    && s.sem.value <= 1
    && (s.sem.value == 0 <==> exists t :: Owner(s, t))
    && (forall t :: s.holder == Some(t) <==> t in s.phase && s.phase[t].Holding?)
  }

  /** The threads, and nobody in Acquire yet. */
  predicate Fresh(s: LockState) {
    s.sem == Sem(1, [], {}) && s.holder == None && forall t :: t in s.phase ==> s.phase[t].Outside?
  }

  /** The atomic steps of Acquire and Release by thread `t`. */
  datatype LockStep = Begin | Try | SetHolder | ClearHolder | Unlock

  predicate Able(s: LockState, t: Tid, step: LockStep) {
    t in s.phase &&
    match step
    case Begin => s.phase[t].Outside?
    case Try => s.phase[t].Acquiring? && t !in s.sem.queue
    case SetHolder => s.phase[t].Acquired?
    case ClearHolder => s.phase[t].Holding?
    case Unlock => s.phase[t].Cleared?
  }

  function Took(s: LockState, t: Tid, step: LockStep): LockState {
    match step
    case Begin => s.(phase := s.phase[t := Acquiring])
    case Try => s.(sem := Attempt(s.sem, t), phase := if s.sem.value == 0 then s.phase else s.phase[t := Acquired])
    case SetHolder => s.(holder := Some(t), phase := s.phase[t := Holding])
    case ClearHolder => s.(holder := None, phase := s.phase[t := Cleared])
    case Unlock => s.(sem := AfterV(s.sem), phase := s.phase[t := Outside])
  }

  lemma FreshLock(s: LockState)
    requires Fresh(s)
    ensures LockInv(s)
  {
  }

  lemma TryKeeps(s: LockState, t: Tid)
    requires LockInv(s) && Able(s, t, Try)
    ensures LockInv(Took(s, t, Try))
  {
    hide Sound;
    var n := Took(s, t, Try);
    AttemptSound(s.sem, t);
    assert forall u :: u != t ==> Owner(n, u) == Owner(s, u);
    assert s.sem.value == 1 ==> Owner(n, t);
  }

  lemma UnlockKeeps(s: LockState, t: Tid)
    requires LockInv(s) && Able(s, t, Unlock)
    ensures LockInv(Took(s, t, Unlock))
  {
    hide Sound;
    var n := Took(s, t, Unlock);
    VSound(s.sem);
    assert Owner(s, t);
    assert forall u :: u != t ==> Owner(n, u) == Owner(s, u);
    assert !Owner(n, t);
  }

  /** Mutual exclusion and the holder's name survive every step of every thread. */
  lemma LockKeeps(s: LockState, t: Tid, step: LockStep)
    requires LockInv(s) && Able(s, t, step)
    ensures LockInv(Took(s, t, step))
    ensures step.ClearHolder? ==> s.holder == Some(t)
  {
    match step
    case Try => TryKeeps(s, t);
    case Unlock => UnlockKeeps(s, t);
    case _ =>
      var n := Took(s, t, step);
      hide Sound;
      assert forall u :: Owner(n, u) == Owner(s, u);
      assert (exists u :: Owner(n, u)) == (exists u :: Owner(s, u));
      assert !step.Begin? ==> Owner(s, t);
      assert forall u :: u in s.phase && s.phase[u].Holding? ==> Owner(s, u);
  }

  /** Every step brings its thread to the next of the five phases, and no other anywhere; unless it has to sleep. */
  lemma LockMoves(s: LockState, t: Tid, step: LockStep)
    requires LockInv(s) && Able(s, t, step)
    ensures var n, p := Took(s, t, step), s.phase[t];
      && n.phase.Keys == s.phase.Keys && (forall u :: u in s.phase && u != t ==> n.phase[u] == s.phase[u])
      && if p.Acquiring? && s.sem.value == 0 then t in n.sem.queue && n.phase == s.phase
         else n.phase[t] == if p.Outside? then Acquiring else if p.Acquiring? then Acquired
                            else if p.Acquired? then Holding else if p.Holding? then Cleared else Outside
  {
    assert s.sem.value == 0 ==> Attempt(s.sem, t).queue[|s.sem.queue|] == t;
  }

  function LockRun(s: LockState, steps: seq<(Tid, LockStep)>): LockState {
    if steps == [] then s
    else
      var m, last := LockRun(s, steps[..|steps| - 1]), steps[|steps| - 1];
      if Able(m, last.0, last.1) then Took(m, last.0, last.1) else m
  }

  /** For every interleaving of any threads: at most one owner, counting both windows; a thread that
      passes the ASSERT of Release is that owner; and while the lock is free and somebody sleeps for
      it, somebody has been made ready. */
  lemma {:induction false} LockRuns(s: LockState, steps: seq<(Tid, LockStep)>)
    requires Fresh(s)
    ensures LockInv(LockRun(s, steps))
    ensures var n := LockRun(s, steps); n.sem.value > 0 && n.sem.queue != [] ==> n.sem.woken != {}
  {
    if steps == [] {
      FreshLock(s);
    } else {
      var last := steps[|steps| - 1];
      LockRuns(s, steps[..|steps| - 1]);
      var m := LockRun(s, steps[..|steps| - 1]);
      if Able(m, last.0, last.1) {
        LockKeeps(m, last.0, last.1);
      }
    }
  }

  class Lock {
    const semaphore: Semaphore
    var lockHolder: Option<Tid>

    ghost predicate Valid()
      reads semaphore
    {
      semaphore.Valid()
    }

    constructor ()
      ensures Valid() && fresh(semaphore) && semaphore.State() == Sem(1, [], {}) && lockHolder == None
    {
      semaphore := new Semaphore(1);
      lockHolder := None;
    }

    predicate IsHeldByCurrentThread(currentThread: Tid)
      reads this
    {
      lockHolder == Some(currentThread)
    }

    /** Acquire, as far as it gets without sleeping in P. */
    method Acquire(currentThread: Tid) returns (done: bool)
      requires Valid() && currentThread !in semaphore.threadQueue
      modifies this, semaphore
      ensures Valid() && semaphore.State() == Attempt(old(semaphore.State()), currentThread)
      ensures done <==> old(semaphore.value) > 0
      ensures lockHolder == if done then Some(currentThread) else old(lockHolder)
      ensures done ==> IsHeldByCurrentThread(currentThread)
      ensures done ==> semaphore.threadQueue == old(semaphore.threadQueue)
      ensures !done ==> semaphore.threadQueue == old(semaphore.threadQueue) + [currentThread]
    {
      done := semaphore.P(currentThread);
      if done {
        lockHolder := Some(currentThread);
      }
    }

    /** Release; its ASSERT is the precondition. */
    method Release(ghost currentThread: Tid) returns (readyToRun: seq<Tid>)
      requires Valid() && IsHeldByCurrentThread(currentThread)
      modifies this, semaphore
      ensures Valid() && lockHolder == None && semaphore.State() == AfterV(old(semaphore.State()))
      ensures semaphore.value == old(semaphore.value) + 1
      ensures old(semaphore.threadQueue) == readyToRun + semaphore.threadQueue
      ensures readyToRun == if old(semaphore.threadQueue) == [] then [] else [old(semaphore.threadQueue)[0]]
    {
      lockHolder := None;
      readyToRun := semaphore.V();
    }
  }
}
