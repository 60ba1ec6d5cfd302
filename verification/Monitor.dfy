// SynchList: a list, a lock and a condition variable, under every interleaving of any threads.
module Monitors {
  import opened Collections
  import opened Semaphores
  import opened Locks

  /** Why a thread is in Acquire: at the start of Append or RemoveFront, or at the end of Wait. */
  datatype Purpose<I> = ToPut(item: I) | ToCheck | ToRecheck

  /** What comes after Release: the end of the operation, or going to sleep in Wait. */
  datatype Aim = Finish | Doze

  /** The next atomic step of a thread. */
  datatype Pc<I> =
    | Idle
    | Entering(why: Purpose<I>)      // in lock->P
    | Entered(why: Purpose<I>)       // through P, lockHolder not set yet
    | Putting(item: I)               // Append: list->Append(item)
    | Signalling                     // Append: listEmpty->Signal, up to taking a waiter from its queue
    | Waking(who: Tid)               // and that waiter's V
    | Checking                       // RemoveFront: the test of its loop
    | Queueing                       // Wait: a new semaphore, onto the queue
    | Taking                         // RemoveFront: list->RemoveFront
    | Leaving(aim: Aim)              // in Release, lockHolder still set
    | Left(aim: Aim)                 // lockHolder cleared, before V
    | Dozing                         // Wait: in waiter->P

  /** `waitQueue` names the waiting threads, each of which has a semaphore of its own in `waiters`. The
      last six are for the proof only: all that was ever put on the list and taken off, the threads
      signalled that have not looked at the list since, those between Signal's choice and its V, and the
      thread, if any, that has put an item and not signalled yet or is about to take one. */
  datatype Monitor<I> = Monitor(
    sem: Sem, holder: Option<Tid>, list: seq<I>, waitQueue: seq<Tid>, waiters: map<Tid, Sem>, pc: map<Tid, Pc<I>>,
    appended: seq<I>, removed: seq<I>, signalled: set<Tid>, ringing: set<Tid>, busy: set<Tid>)

  function PhaseOf<I>(p: Pc<I>): Phase {
    match p
    case Idle => Phase.Outside
    case Dozing => Phase.Outside
    case Entering(_) => Phase.Acquiring
    case Entered(_) => Phase.Acquired
    case Left(_) => Phase.Cleared
    case _ => Phase.Holding
  }

  function Phases<I>(pc: map<Tid, Pc<I>>): map<Tid, Phase> {
    map t | t in pc :: PhaseOf(pc[t])
  }

  function LockView<I>(m: Monitor<I>): LockState {
    LockState(m.sem, m.holder, Phases(m.pc))
  }

  predicate Asleep<I>(m: Monitor<I>, t: Tid) {
    t in m.sem.queue || (t in m.waiters && t in m.waiters[t].queue)
  }

  // ---- the steps ---------------------------------------------------------------------------------------

  /** A thread calls Append or RemoveFront. */
  function Called<I>(m: Monitor<I>, t: Tid, why: Purpose<I>): Monitor<I> {
    m.(pc := m.pc[t := Entering(why)])
  }

  function Next<I(==)>(m: Monitor<I>, t: Tid): Monitor<I>
    requires t in m.pc
  {
    match m.pc[t]
    case Idle => m
    case Entering(why) =>
      m.(sem := Attempt(m.sem, t), pc := if m.sem.value == 0 then m.pc else m.pc[t := Entered(why)])
    case Entered(why) =>
      var n := m.(holder := Some(t));
      (match why
       case ToPut(item) => n.(pc := m.pc[t := Putting(item)])
       case ToCheck => n.(pc := m.pc[t := Checking])
       case ToRecheck => n.(pc := m.pc[t := Checking], waiters := m.waiters - {t}))
    case Putting(item) =>
      m.(list := Appended(m.list, item), appended := m.appended + if item in m.list then [] else [item],
         busy := m.busy + {t}, pc := m.pc[t := Signalling])
    case Signalling =>
      if m.waitQueue == [] then m.(busy := m.busy - {t}, pc := m.pc[t := Leaving(Finish)])
      else
        m.(waitQueue := m.waitQueue[1..], signalled := m.signalled + {m.waitQueue[0]},
          ringing := m.ringing + {m.waitQueue[0]},
           busy := m.busy - {t}, pc := m.pc[t := Waking(m.waitQueue[0])])
    case Waking(who) =>
      m.(waiters := if who in m.waiters then m.waiters[who := AfterV(m.waiters[who])] else m.waiters,
         ringing := m.ringing - {who}, pc := m.pc[t := Leaving(Finish)])
    case Checking =>
      if m.list == [] then m.(signalled := m.signalled - {t}, pc := m.pc[t := Queueing])
      else m.(signalled := m.signalled - {t}, busy := m.busy + {t}, pc := m.pc[t := Taking])
    case Queueing =>
      m.(waiters := m.waiters[t := Sem(0, [], {})], waitQueue := m.waitQueue + [t], pc := m.pc[t := Leaving(Doze)])
    case Taking =>
      if m.list == [] then m
      else m.(list := m.list[1..], removed := m.removed + [m.list[0]], busy := m.busy - {t},
        pc := m.pc[t := Leaving(Finish)])
    case Leaving(aim) => m.(holder := None, pc := m.pc[t := Left(aim)])
    case Left(aim) => m.(sem := AfterV(m.sem), pc := m.pc[t := if aim == Finish then Idle else Dozing])
    case Dozing =>
      if t !in m.waiters then m
      else
        m.(waiters := m.waiters[t := Attempt(m.waiters[t], t)],
           pc := if m.waiters[t].value == 0 then m.pc else m.pc[t := Entering(ToRecheck)])
  }

  /** What the source asserts on the way: the ASSERTs of Signal, Wait and Release, and that of
      SortedList::RemoveFront; and nobody is ever put on a queue twice. */
  predicate AssertsHold<I>(m: Monitor<I>, t: Tid)
    requires t in m.pc
  {
    match m.pc[t]
    case Signalling => m.holder == Some(t)
    case Queueing => m.holder == Some(t) && t !in m.waitQueue && t !in m.waiters
    case Leaving(_) => m.holder == Some(t)
    case Taking => m.list != []
    case Entering(_) => t !in m.sem.queue
    case Dozing => t in m.waiters && t !in m.waiters[t].queue
    case Waking(who) => who in m.waiters && m.waiters[who].value == 0
    case _ => true
  }

  // ---- the invariant -------------------------------------------------------------------------------------

  /** From the allocation of a waiter's semaphore to its deletion. */
  predicate InWait<I>(p: Pc<I>) {
    p == Leaving(Doze) || p == Left(Doze) || p == Dozing || Rejoining(p)
  }

  /** In Wait, through its own semaphore's P and acquiring the lock again. */
  predicate Rejoining<I>(p: Pc<I>) {
    p == Entering(ToRecheck) || p == Entered(ToRecheck)
  }

  /** The semaphore of waiting thread `t`: one V is due to it exactly, and it arrives with the signal. */
  ghost predicate WaiterOk<I>(m: Monitor<I>, t: Tid)
    requires t in m.pc && t in m.waiters
  {
    var s := m.waiters[t];
    && Sound(s) && s.woken <= {t}
    && s.value == (if t in m.signalled && t !in m.ringing && !Rejoining(m.pc[t]) then 1 else 0)
    && (s.queue == [] || (s.queue == [t] && m.pc[t] == Dozing && s.value == 0))
  }

  /** Everything about one thread's waiting. */
  ghost predicate TidOk<I>(m: Monitor<I>, t: Tid) {
    && (t in m.waiters <==> t in m.pc && InWait(m.pc[t]))
    && (t in m.waiters ==> WaiterOk(m, t) && (t in m.waitQueue <==> t !in m.signalled))
    && (t in m.waitQueue ==> t in m.waiters && !Rejoining(m.pc[t]))
    && (t in m.signalled ==> t in m.waiters || (t in m.pc && m.pc[t].Checking?))
    && (t in m.ringing ==>
      t in m.signalled && t in m.waiters && !Rejoining(m.pc[t]) && exists s :: s in m.pc && m.pc[s] == Waking(t))
    && (t in m.pc && m.pc[t].Waking? ==> m.pc[t].who in m.ringing)
  }

  ghost predicate WaitInv<I>(m: Monitor<I>) {
    (forall t :: TidOk(m, t)) && Distinct(m.waitQueue)
  }

  ghost predicate ListInv<I>(m: Monitor<I>) {
    && m.appended == m.removed + m.list && Distinct(m.list)
    && (forall t :: t in m.busy <==> t in m.pc && (m.pc[t].Signalling? || m.pc[t].Taking?))
    && (forall t :: t in m.pc && m.pc[t].Taking? ==> m.list != [])
    && (forall t :: t in m.pc && m.pc[t].Queueing? ==> m.list == [])
    && (m.waitQueue != [] ==> |m.list| <= |m.signalled| + |m.busy|)
  }

  ghost predicate Inv<I>(m: Monitor<I>) {
    LockInv(LockView(m)) && WaitInv(m) && ListInv(m)
  }

  lemma Asserts<I>(m: Monitor<I>, t: Tid)
    requires Inv(m) && t in m.pc && !Asleep(m, t)
    ensures AssertsHold(m, t)
  {
    assert LockView(m).phase[t] == PhaseOf(m.pc[t]) && TidOk(m, t);
    if m.pc[t].Waking? {
      assert TidOk(m, m.pc[t].who);
    }
  }

  // ---- every step keeps it -------------------------------------------------------------------------------

  lemma PhasesUpdate<I>(pc: map<Tid, Pc<I>>, t: Tid, p: Pc<I>)
    ensures Phases(pc[t := p]) == Phases(pc)[t := PhaseOf(p)]
  {
  }

  lemma LockPart<I>(m: Monitor<I>, t: Tid)
    requires Inv(m) && t in m.pc && !Asleep(m, t)
    ensures LockInv(LockView(Next(m, t)))
  {
    hide LockInv, WaitInv, ListInv;
    var v, n := LockView(m), Next(m, t);
    if t in n.pc {
      PhasesUpdate(m.pc, t, n.pc[t]);
    }
    match m.pc[t]
    case Entering(_) => LockKeeps(v, t, Try);
    case Entered(_) => LockKeeps(v, t, SetHolder);
    case Leaving(_) => LockKeeps(v, t, ClearHolder);
    case Left(_) => LockKeeps(v, t, Unlock);
    case Dozing =>
      if t in m.waiters && m.waiters[t].value > 0 {
        LockKeeps(v, t, Begin);
        assert n.pc == m.pc[t := n.pc[t]];
      }
    case _ =>
      assert n.pc == m.pc[t := n.pc[t]];
      assert LockView(n) == v;
  }

  /** While one thread owns the lock no other is anywhere inside. */
  lemma Alone<I>(m: Monitor<I>, t: Tid)
    requires LockInv(LockView(m)) && t in m.pc && Owns(PhaseOf(m.pc[t]))
    ensures forall u :: u in m.pc && u != t ==> !Owns(PhaseOf(m.pc[u]))
  {
    forall u | u in m.pc && u != t ensures !Owns(PhaseOf(m.pc[u])) {
      assert Owner(LockView(m), t);
      assert Owns(PhaseOf(m.pc[u])) ==> Owner(LockView(m), u);
    }
  }

  ghost predicate OnlyOwner<I>(m: Monitor<I>, t: Tid) {
    t in m.pc && forall u :: u in m.pc && u != t ==> !Owns(PhaseOf(m.pc[u]))
  }

  lemma ListPutting<I>(m: Monitor<I>, t: Tid)
    requires ListInv(m) && OnlyOwner(m, t) && m.pc[t].Putting?
    ensures ListInv(Next(m, t))
  {
    var n := Next(m, t);
    assert t !in m.busy && |n.busy| == |m.busy| + 1;
    assert n.appended == n.removed + n.list;
    forall u | u in n.busy ensures u in n.pc && (n.pc[u].Signalling? || n.pc[u].Taking?) {
    }
  }

  lemma ListSignalling<I>(m: Monitor<I>, t: Tid)
    requires ListInv(m) && OnlyOwner(m, t) && m.pc[t].Signalling?
    requires m.waitQueue != [] ==> m.waitQueue[0] !in m.signalled
    ensures ListInv(Next(m, t))
  {
    var n := Next(m, t);
    assert t in m.busy && |n.busy| == |m.busy| - 1;
    assert m.waitQueue != [] ==> |n.signalled| == |m.signalled| + 1;
  }

  lemma ListChecking<I>(m: Monitor<I>, t: Tid)
    requires ListInv(m) && OnlyOwner(m, t) && m.pc[t].Checking?
    ensures ListInv(Next(m, t))
  {
    var n := Next(m, t);
    assert t !in m.busy;
    assert m.list != [] ==> |n.busy| == |m.busy| + 1;
    assert |n.signalled| >= |m.signalled| - 1;
  }

  lemma ListTaking<I>(m: Monitor<I>, t: Tid)
    requires ListInv(m) && OnlyOwner(m, t) && m.pc[t].Taking?
    ensures ListInv(Next(m, t))
  {
    var n := Next(m, t);
    assert t in m.busy && |n.busy| == |m.busy| - 1;
    assert m.list == [m.list[0]] + m.list[1..];
    assert n.appended == n.removed + n.list;
  }

  lemma ListQueueing<I>(m: Monitor<I>, t: Tid)
    requires ListInv(m) && OnlyOwner(m, t) && m.pc[t].Queueing?
    ensures ListInv(Next(m, t))
  {
    var n := Next(m, t);
    assert t !in m.busy;
  }

  /** All other steps leave the list, its queue and the counts alone. */
  lemma ListOther<I>(m: Monitor<I>, t: Tid)
    requires ListInv(m) && t in m.pc && !m.pc[t].Putting? && !m.pc[t].Signalling? && !m.pc[t].Checking?
             && !m.pc[t].Taking? && !m.pc[t].Queueing?
    ensures ListInv(Next(m, t))
  {
    var n := Next(m, t);
    assert n.list == m.list && n.busy == m.busy && n.signalled == m.signalled && n.waitQueue == m.waitQueue;
    assert n.removed == m.removed && n.appended == m.appended;
    assert t !in m.busy && forall u :: u != t ==> (u in n.pc <==> u in m.pc) && (u in m.pc ==> n.pc[u] == m.pc[u]);
    assert t in n.pc && !n.pc[t].Signalling? && !n.pc[t].Taking? && !n.pc[t].Queueing?;
    hide Next;
  }

  lemma ListPart<I>(m: Monitor<I>, t: Tid)
    requires Inv(m) && t in m.pc && !Asleep(m, t)
    ensures ListInv(Next(m, t))
  {
    if Owns(PhaseOf(m.pc[t])) {
      Alone(m, t);
    }
    assert m.waitQueue != [] ==> TidOk(m, m.waitQueue[0]) && m.waitQueue[0] in m.waitQueue;
    hide LockInv, WaiterOk, ListInv, Next;
    match m.pc[t]
    case Putting(_) => ListPutting(m, t);
    case Signalling => ListSignalling(m, t);
    case Checking => ListChecking(m, t);
    case Taking => ListTaking(m, t);
    case Queueing => ListQueueing(m, t);
    case _ => ListOther(m, t);
  }

  lemma WaitEntered<I>(m: Monitor<I>, t: Tid, u: Tid)
    requires TidOk(m, t) && TidOk(m, u) && t in m.pc && m.pc[t].Entered?
    ensures TidOk(Next(m, t), u)
  {
    if u in m.ringing {
      var s :| s in m.pc && m.pc[s] == Waking(u);
      assert Next(m, t).pc[s] == Waking(u);
    }
  }

  lemma WaitSignalling<I>(m: Monitor<I>, t: Tid, u: Tid)
    requires TidOk(m, t) && TidOk(m, u) && OnlyOwner(m, t) && m.pc[t].Signalling? && Distinct(m.waitQueue)
    requires m.waitQueue != [] ==> TidOk(m, m.waitQueue[0])
    ensures TidOk(Next(m, t), u)
  {
    var n := Next(m, t);
    if m.waitQueue != [] {
      var w := m.waitQueue[0];
      assert m.waitQueue == [w] + m.waitQueue[1..] && w in m.waitQueue;
      assert n.pc[t] == Waking(w);
    }
  }

  lemma Rung(s: Sem, w: Tid)
    requires Sound(s) && s.woken <= {w} && s.value == 0 && (s.queue == [] || s.queue == [w])
    ensures var n := AfterV(s); Sound(n) && n.woken <= {w} && n.value == 1 && n.queue == []
  {
    VSound(s);
  }

  lemma WaitWaking<I>(m: Monitor<I>, t: Tid, u: Tid)
    requires TidOk(m, t) && TidOk(m, u) && OnlyOwner(m, t) && m.pc[t].Waking? && TidOk(m, m.pc[t].who)
    ensures TidOk(Next(m, t), u)
  {
    hide Sound, AfterV;
    var w := m.pc[t].who;
    Rung(m.waiters[w], w);
    if u in m.ringing {
      var s :| s in m.pc && m.pc[s] == Waking(u);
      assert u == w;
    }
  }

  lemma WaitQueueing<I>(m: Monitor<I>, t: Tid, u: Tid)
    requires TidOk(m, t) && TidOk(m, u) && m.pc.Keys >= {t} && m.pc[t].Queueing?
    ensures TidOk(Next(m, t), u)
  {
    if u in m.ringing {
      var s :| s in m.pc && m.pc[s] == Waking(u);
      assert Next(m, t).pc[s] == Waking(u);
    }
  }

  lemma WaitDozing<I>(m: Monitor<I>, t: Tid, u: Tid)
    requires TidOk(m, t) && TidOk(m, u) && t in m.pc && m.pc[t].Dozing? && !Asleep(m, t)
    ensures TidOk(Next(m, t), u)
  {
    AttemptSound(m.waiters[t], t);
    if u in m.ringing {
      var s :| s in m.pc && m.pc[s] == Waking(u);
      assert Next(m, t).pc[s] == Waking(u);
    }
    hide Sound;
  }

  lemma WaitChecking<I>(m: Monitor<I>, t: Tid, u: Tid)
    requires TidOk(m, t) && TidOk(m, u) && t in m.pc && m.pc[t].Checking?
    ensures TidOk(Next(m, t), u)
  {
    if u in m.ringing {
      var s :| s in m.pc && m.pc[s] == Waking(u);
      assert Next(m, t).pc[s] == Waking(u);
    }
    hide Sound;
  }

  /** All other steps leave the waiters alone, and nobody enters or leaves Wait. */
  lemma WaitOther<I>(m: Monitor<I>, t: Tid, u: Tid)
    requires TidOk(m, t) && TidOk(m, u) && t in m.pc
    requires !m.pc[t].Entered? && !m.pc[t].Signalling? && !m.pc[t].Waking? && !m.pc[t].Queueing? && !m.pc[t].Dozing?
    requires !m.pc[t].Checking?
    ensures TidOk(Next(m, t), u)
  {
    hide TidOk;
    var n := Next(m, t);
    assert n.waiters == m.waiters && n.waitQueue == m.waitQueue && n.ringing == m.ringing && n.signalled == m.signalled;
    assert n.pc == m.pc[t := n.pc[t]];
    hide Next;
    WaitSame(m, n, t, u);
  }

  lemma WaitSame<I>(m: Monitor<I>, n: Monitor<I>, t: Tid, u: Tid)
    requires TidOk(m, u) && t in m.pc && t in n.pc && n.pc == m.pc[t := n.pc[t]]
    requires n.waiters == m.waiters && n.waitQueue == m.waitQueue && n.ringing == m.ringing
             && n.signalled == m.signalled
    requires InWait(n.pc[t]) == InWait(m.pc[t]) && Rejoining(n.pc[t]) == Rejoining(m.pc[t])
    requires !m.pc[t].Waking? && !n.pc[t].Waking? && !m.pc[t].Checking? && !m.pc[t].Dozing?
    ensures TidOk(n, u)
  {
    hide Sound, InWait, Rejoining;
    if u in m.ringing {
      var s :| s in m.pc && m.pc[s] == Waking(u);
      assert n.pc[s] == Waking(u);
    }
  }

  lemma WaitStep<I>(m: Monitor<I>, t: Tid, u: Tid)
    requires Inv(m) && t in m.pc && !Asleep(m, t)
    ensures TidOk(Next(m, t), u)
  {
    if Owns(PhaseOf(m.pc[t])) {
      Alone(m, t);
    }
    hide LockInv, TidOk, ListInv, Next;
    match m.pc[t]
    case Entered(_) => WaitEntered(m, t, u);
    case Signalling => WaitSignalling(m, t, u);
    case Waking(_) => WaitWaking(m, t, u);
    case Queueing => WaitQueueing(m, t, u);
    case Dozing => WaitDozing(m, t, u);
    case Checking => WaitChecking(m, t, u);
    case _ => WaitOther(m, t, u);
  }

  lemma WaitPart<I>(m: Monitor<I>, t: Tid)
    requires Inv(m) && t in m.pc && !Asleep(m, t)
    ensures WaitInv(Next(m, t))
  {
    assert Distinct(Next(m, t).waitQueue) by {
      assert TidOk(m, t);
    }
    hide Inv, TidOk, Next;
    forall u ensures TidOk(Next(m, t), u) {
      WaitStep(m, t, u);
    }
  }

  lemma StepKeeps<I>(m: Monitor<I>, t: Tid)
    requires Inv(m) && t in m.pc && !Asleep(m, t)
    ensures Inv(Next(m, t)) && AssertsHold(m, t)
  {
    hide LockInv, WaitInv, ListInv, Next, AssertsHold;
    LockPart(m, t);
    WaitPart(m, t);
    ListPart(m, t);
    Asserts(m, t);
  }

  lemma CallKeeps<I>(m: Monitor<I>, t: Tid, why: Purpose<I>)
    requires Inv(m) && t in m.pc && m.pc[t].Idle? && !why.ToRecheck?
    ensures Inv(Called(m, t, why))
  {
    var n := Called(m, t, why);
    assert LockInv(LockView(n)) by {
      hide LockInv, WaitInv, ListInv;
      PhasesUpdate(m.pc, t, n.pc[t]);
      LockKeeps(LockView(m), t, Begin);
    }
    hide LockInv;
    assert ListInv(n) by {
      hide WaitInv;
      assert n.pc.Keys == m.pc.Keys;
    }
    hide ListInv;
    forall u ensures TidOk(n, u) {
      assert TidOk(m, t) && TidOk(m, u);
      if u in m.ringing {
        var s :| s in m.pc && m.pc[s] == Waking(u);
        assert n.pc[s] == Waking(u);
      }
    }
  }

  // ---- runs ------------------------------------------------------------------------------------------------

  /** A thread calls an operation, or one that is inside an operation and not asleep takes its next step. */
  datatype Act<I> = CallAppend(t: Tid, item: I) | CallRemoveFront(t: Tid) | Go(t: Tid)

  predicate CanAct<I>(m: Monitor<I>, a: Act<I>) {
    a.t in m.pc && if a.Go? then !Asleep(m, a.t) else m.pc[a.t].Idle?
  }

  function Perform<I(==)>(m: Monitor<I>, a: Act<I>): Monitor<I>
    requires CanAct(m, a)
  {
    match a
    case CallAppend(t, item) => Called(m, t, ToPut(item))
    case CallRemoveFront(t) => Called(m, t, ToCheck)
    case Go(t) => Next(m, t)
  }

  function Started<I>(threads: set<Tid>): Monitor<I> {
    Monitor(Sem(1, [], {}), None, [], [], map[], map t | t in threads :: Idle, [], [], {}, {}, {})
  }

  function MonitorRun<I(==)>(threads: set<Tid>, acts: seq<Act<I>>): Monitor<I> {
    if acts == [] then Started(threads)
    else
      var m, a := MonitorRun(threads, acts[..|acts| - 1]), acts[|acts| - 1];
      if CanAct(m, a) then Perform(m, a) else m
  }

  lemma StartedInv<I>(threads: set<Tid>)
    ensures Inv(Started<I>(threads))
  {
    FreshLock(LockView(Started<I>(threads)));
  }

  /** For any threads and any interleaving: the invariant. */
  lemma {:induction false} MonitorRuns<I>(threads: set<Tid>, acts: seq<Act<I>>)
    ensures Inv(MonitorRun(threads, acts))
  {
    if acts == [] {
      StartedInv<I>(threads);
    } else {
      MonitorRuns(threads, acts[..|acts| - 1]);
      var m, a := MonitorRun(threads, acts[..|acts| - 1]), acts[|acts| - 1];
      hide Inv, Next, Called;
      if CanAct(m, a) {
        match a
        case CallAppend(t, item) => CallKeeps(m, t, ToPut(item));
        case CallRemoveFront(t) => CallKeeps(m, t, ToCheck);
        case Go(t) => StepKeeps(m, t);
      }
    }
  }

  /** What that means. What went onto the list is what was taken off it followed by what is on it, in
      order. At most one thread is inside. No ASSERT fails. No signal is missed: when the lock is free and
      somebody still waits unsignalled, there are at least as many threads signalled and on their way back
      as there are items. And a waiter gets exactly one V: it is due to it from the signal on, it is there
      once the signaller has rung, and it is gone once the waiter has taken it. */
  lemma MonitorPromises<I>(threads: set<Tid>, acts: seq<Act<I>>, t: Tid, u: Tid)
    ensures var m := MonitorRun(threads, acts);
      && m.appended == m.removed + m.list
      && (t in m.pc && u in m.pc && Owns(PhaseOf(m.pc[t])) && Owns(PhaseOf(m.pc[u])) ==> t == u)
      && (t in m.pc && !Asleep(m, t) ==> AssertsHold(m, t))
      && (m.sem.value > 0 && m.waitQueue != [] ==> |m.list| <= |m.signalled|)
      && (m.sem.value > 0 && m.sem.queue != [] ==> m.sem.woken != {})
      && (t in m.waiters ==>
            && t in m.pc && (t in m.waitQueue <==> t !in m.signalled)
            && m.waiters[t].value == if t in m.signalled && t !in m.ringing && !Rejoining(m.pc[t]) then 1 else 0)
  {
    MonitorRuns(threads, acts);
    var m := MonitorRun(threads, acts);
    if t in m.pc && Owns(PhaseOf(m.pc[t])) {
      Alone(m, t);
    }
    if t in m.pc && !Asleep(m, t) {
      Asserts(m, t);
    }
    assert TidOk(m, t);
    if m.sem.value > 0 && m.busy != {} {
      var b :| b in m.busy;
      assert Owner(LockView(m), b);
    }
  }

  // ---- who waits gets on -----------------------------------------------------------------------------------

  function QueuedBy<I>(m: Monitor<I>, a: Act<I>): seq<Tid> {
    if CanAct(m, a) && a.Go? && m.pc[a.t].Queueing? then [a.t] else []
  }

  function SummonedBy<I>(m: Monitor<I>, a: Act<I>): seq<Tid> {
    if CanAct(m, a) && a.Go? && m.pc[a.t].Signalling? && m.waitQueue != [] then [m.waitQueue[0]] else []
  }

  /** The threads that went onto the queue of Wait, in the order in which they did, and those that were signalled. */
  function Queued<I(==)>(threads: set<Tid>, acts: seq<Act<I>>): seq<Tid> {
    if acts == [] then []
    else
      Queued(threads, acts[..|acts| - 1]) + QueuedBy(MonitorRun(threads, acts[..|acts| - 1]), acts[|acts| - 1])
  }

  function Summoned<I(==)>(threads: set<Tid>, acts: seq<Act<I>>): seq<Tid> {
    if acts == [] then []
    else
      Summoned(threads, acts[..|acts| - 1]) + SummonedBy(MonitorRun(threads, acts[..|acts| - 1]), acts[|acts| - 1])
  }

  /** In every run, waiting threads are signalled in the order in which they came, and each once. */
  lemma {:induction false} FirstWaitingFirst<I>(threads: set<Tid>, acts: seq<Act<I>>)
    ensures Queued(threads, acts) == Summoned(threads, acts) + MonitorRun(threads, acts).waitQueue
  {
    hide Perform, CanAct, QueuedBy, SummonedBy;
    if acts != [] {
      var m, a := MonitorRun(threads, acts[..|acts| - 1]), acts[|acts| - 1];
      FirstWaitingFirst(threads, acts[..|acts| - 1]);
      WaitQueueBy(m, a, Queued(threads, acts[..|acts| - 1]), Summoned(threads, acts[..|acts| - 1]));
    }
  }

  lemma WaitQueueBy<I>(m: Monitor<I>, a: Act<I>, queued: seq<Tid>, summoned: seq<Tid>)
    requires queued == summoned + m.waitQueue
    ensures queued + QueuedBy(m, a)
            == summoned + SummonedBy(m, a) + (if CanAct(m, a) then Perform(m, a) else m).waitQueue
  {
    assert m.waitQueue != [] ==> m.waitQueue == [m.waitQueue[0]] + m.waitQueue[1..];
  }

  /** How far a thread has to go, if it finds an item. */
  function ToGo<I>(p: Pc<I>): nat {
    match p
    case Idle => 0
    case Left(aim) => if aim == Finish then 1 else 9
    case Leaving(aim) => if aim == Finish then 2 else 10
    case Taking => 3
    case Waking(_) => 3
    case Signalling => 4
    case Putting(_) => 5
    case Entered(why) => if why.ToPut? then 6 else if why.ToCheck? then 13 else 6
    case Entering(why) => if why.ToPut? then 7 else if why.ToCheck? then 14 else 7
    case Dozing => 8
    case Queueing => 11
    case Checking => 12
  }

  /** Every step of a thread that can take one brings it nearer to its end, or to sleep; but for the loop of
      RemoveFront, which looks at the list again after it has waited. */
  lemma Advances<I>(m: Monitor<I>, t: Tid)
    requires Inv(m) && t in m.pc && !Asleep(m, t) && !m.pc[t].Idle?
    ensures var n := Next(m, t);
      && t in n.pc
      && (Asleep(n, t) || ToGo(n.pc[t]) < ToGo(m.pc[t]) || (m.pc[t] == Entered(ToRecheck) && n.pc[t] == Checking))
  {
    Asserts(m, t);
    hide Inv, Asleep, Next, ToGo;
    if m.pc[t].Dozing? || m.pc[t].Entering? {
      Tries(m, t);
    } else {
      GoesOn(m, t);
    }
  }

  lemma Tries<I>(m: Monitor<I>, t: Tid)
    requires t in m.pc && (m.pc[t].Entering? || (m.pc[t].Dozing? && t in m.waiters))
    ensures var n := Next(m, t); t in n.pc && (Asleep(n, t) || ToGo(n.pc[t]) < ToGo(m.pc[t]))
  {
  }

  lemma GoesOn<I>(m: Monitor<I>, t: Tid)
    requires t in m.pc && !m.pc[t].Entering? && !m.pc[t].Dozing? && !m.pc[t].Idle? && (m.pc[t].Taking? ==> m.list != [])
    ensures var n := Next(m, t);
      t in n.pc && (ToGo(n.pc[t]) < ToGo(m.pc[t]) || (m.pc[t] == Entered(ToRecheck) && n.pc[t] == Checking))
  {
    hide AfterV, Appended;
  }

  /** Nobody can take a step. */
  ghost predicate Stuck<I>(m: Monitor<I>) {
    forall t :: t in m.pc && !m.pc[t].Idle? ==> !CanAct(m, Act<I>.Go(t))
  }

  /** The only way to get stuck is for the list to be empty and nobody inside but threads that wait for an item: no
      deadlock otherwise, over every interleaving. */
  lemma StuckOnlyEmpty<I>(threads: set<Tid>, acts: seq<Act<I>>, t: Tid)
    requires Stuck(MonitorRun(threads, acts))
    ensures var m := MonitorRun(threads, acts);
      && m.sem.value == 1 && m.holder == None && m.sem.queue == []
      && (t in m.pc && !m.pc[t].Idle? ==> m.list == [] && m.pc[t] == Dozing && t in m.waitQueue)
  {
    MonitorRuns(threads, acts);
    var m := MonitorRun(threads, acts);
    hide MonitorRun, ListInv;
    StuckLock(m);
    if t in m.pc && !m.pc[t].Idle? {
      StuckWaits(m, t);
      StuckEmpty(m, t);
    }
  }

  /** Then nobody is inside, nobody is on the way to the lock, and nobody is being signalled. */
  lemma Still<I>(m: Monitor<I>, u: Tid)
    requires Inv(m) && Stuck(m)
    ensures u in m.pc ==> !Owns(PhaseOf(m.pc[u]))
    ensures u !in m.sem.woken
  {
    assert TidOk(m, u);
    assert u in m.pc ==> LockView(m).phase[u] == PhaseOf(m.pc[u]);
  }

  lemma NotRinging<I>(m: Monitor<I>, u: Tid)
    requires Inv(m) && Stuck(m)
    ensures u !in m.ringing
  {
    assert TidOk(m, u);
    if u in m.ringing {
      var s :| s in m.pc && m.pc[s] == Waking(u);
      Still(m, s);
    }
  }

  lemma StuckLock<I>(m: Monitor<I>)
    requires Inv(m) && Stuck(m)
    ensures m.sem.value == 1 && m.holder == None && m.sem.queue == []
  {
    var v := LockView(m);
    forall u ensures !Owner(v, u) && u !in m.sem.woken {
      Still(m, u);
    }
    assert m.sem.woken == {};
    assert forall u :: m.holder == Some(u) ==> Owner(v, u);
    hide WaitInv, ListInv, Stuck;
  }

  lemma StuckWaits<I>(m: Monitor<I>, t: Tid)
    requires Inv(m) && Stuck(m) && m.sem.queue == [] && t in m.pc && !m.pc[t].Idle?
    ensures m.pc[t] == Dozing && t in m.waitQueue
  {
    NotRinging(m, t);
    assert TidOk(m, t);
    hide LockInv, ListInv;
  }

  lemma StuckEmpty<I>(m: Monitor<I>, t: Tid)
    requires Inv(m) && Stuck(m) && m.sem.queue == [] && t in m.waitQueue
    ensures m.list == []
  {
    forall u ensures u !in m.busy && u !in m.signalled {
      assert TidOk(m, u);
      if u in m.pc && !m.pc[u].Idle? {
        StuckWaits(m, u);
      }
    }
    assert m.busy == {} && m.signalled == {};
  }

  // ---- what Append loses -------------------------------------------------------------------------------------

  /** Is this the step in which an Append finds its item in the list? */
  predicate Repeats<I(==)>(m: Monitor<I>, a: Act<I>) {
    CanAct(m, a) && a.Go? && m.pc[a.t].Putting? && m.pc[a.t].item in m.list
  }

  /** The items of all Appends that have got to the list, in order. */
  function Offered<I(==)>(threads: set<Tid>, acts: seq<Act<I>>): seq<I> {
    if acts == [] then []
    else
      var m, a := MonitorRun(threads, acts[..|acts| - 1]), acts[|acts| - 1];
      Offered(threads, acts[..|acts| - 1]) + if CanAct(m, a) && a.Go? && m.pc[a.t].Putting? then [m.pc[a.t].item]
        else []
  }

  /** No Append found its item in the list. */
  predicate NoRepeat<I(==)>(threads: set<Tid>, acts: seq<Act<I>>) {
    acts == [] || (NoRepeat(threads, acts[..|acts| - 1]) && !Repeats(MonitorRun(threads, acts[..|acts| - 1]),
      acts[|acts| - 1]))
  }

  /** Items are conserved exactly in the runs in which no Append finds its item in the list already: such
      an item is dropped without a word. */
  lemma OfferedConserved<I>(threads: set<Tid>, acts: seq<Act<I>>)
    ensures var m := MonitorRun(threads, acts);
      Offered(threads, acts) == m.removed + m.list <==> NoRepeat(threads, acts)
  {
    MonitorRuns(threads, acts);
    OfferedCount(threads, acts);
  }

  lemma {:induction false} OfferedCount<I>(threads: set<Tid>, acts: seq<Act<I>>)
    ensures NoRepeat(threads, acts) ==> Offered(threads, acts) == MonitorRun(threads, acts).appended
    ensures |MonitorRun(threads, acts).appended| <= |Offered(threads, acts)|
    ensures !NoRepeat(threads, acts) ==> |MonitorRun(threads, acts).appended| < |Offered(threads, acts)|
  {
    if acts != [] {
      OfferedCount(threads, acts[..|acts| - 1]);
      var m, a := MonitorRun(threads, acts[..|acts| - 1]), acts[|acts| - 1];
      if CanAct(m, a) {
        AppendedBy(m, a);
      }
    }
  }

  lemma AppendedBy<I>(m: Monitor<I>, a: Act<I>)
    requires CanAct(m, a)
    ensures Perform(m, a).appended ==
      m.appended + if a.Go? && m.pc[a.t].Putting? && m.pc[a.t].item !in m.list then [m.pc[a.t].item] else []
  {
  }

  /** One thread appends the same item twice, and the list holds it once. */
  lemma AppendTwice<I>(x: I)
    ensures var acts := Appending(x) + Appending(x);
      && Offered({0}, acts) == [x, x]
      && MonitorRun({0}, acts).list == [x] && MonitorRun({0}, acts).removed == []
  {
    var acts := Appending(x);
    assert acts + [] == acts && [] + acts == acts;
    AppendOnce([], x);
    AppendOnce(acts, x);
  }

  /** Thread 0 calls Append and goes through it. */
  function Appending<I>(x: I): seq<Act<I>> {
    [CallAppend(0, x), Go(0), Go(0), Go(0), Go(0), Go(0), Go(0)]
  }

  /** Nobody is inside, and nobody waits. */
  predicate Quiet<I>(m: Monitor<I>) {
    m.sem == Sem(1, [], {}) && m.waitQueue == [] && m.waiters == map[] && 0 in m.pc && m.pc[0].Idle?
  }

  lemma AppendOnce<I>(before: seq<Act<I>>, x: I)
    requires Quiet(MonitorRun({0}, before))
    ensures var m, n := MonitorRun({0}, before), MonitorRun({0}, before + Appending(x));
      && Quiet(n) && n.list == Appended(m.list, x) && n.removed == m.removed
      && Offered({0}, before + Appending(x)) == Offered({0}, before) + [x]
  {
    AppendBegins(before, x);
    AppendEnds(before + Appending(x)[..4]);
    assert before + Appending(x)[..4] + [Go(0), Go(0), Go(0)] == before + Appending(x);
  }

  lemma AppendBegins<I>(before: seq<Act<I>>, x: I)
    requires Quiet(MonitorRun({0}, before))
    ensures var m, n := MonitorRun({0}, before), MonitorRun({0}, before + Appending(x)[..4]);
      && n.sem == Sem(0, [], {}) && n.waitQueue == [] && n.waiters == map[] && 0 in n.pc && n.pc[0].Signalling?
      && n.list == Appended(m.list, x) && n.removed == m.removed
      && Offered({0}, before + Appending(x)[..4]) == Offered({0}, before) + [x]
  {
    hide MonitorRun, Offered;
    var b1 := before + [CallAppend(0, x)];
    var b2 := b1 + [Go(0)];
    var b3 := b2 + [Go(0)];
    OneMore(before, CallAppend(0, x));
    OneMore(b1, Go(0));
    OneMore(b2, Go(0));
    OneMore(b3, Go(0));
    assert b3 + [Go(0)] == before + Appending(x)[..4];
  }

  lemma AppendEnds<I>(before: seq<Act<I>>)
    requires var m := MonitorRun({0}, before);
      m.sem == Sem(0, [], {}) && m.waitQueue == [] && m.waiters == map[] && 0 in m.pc && m.pc[0].Signalling?
    ensures var m, n := MonitorRun({0}, before), MonitorRun({0}, before + [Go(0), Go(0), Go(0)]);
      && Quiet(n) && n.list == m.list && n.removed == m.removed
      && Offered({0}, before + [Go(0), Go(0), Go(0)]) == Offered({0}, before)
  {
    hide MonitorRun, Offered;
    var b1 := before + [Go(0)];
    var b2 := b1 + [Go(0)];
    OneMore(before, Go(0));
    OneMore(b1, Go(0));
    OneMore(b2, Go(0));
    assert b2 + [Go(0)] == before + [Go(0), Go(0), Go(0)];
  }

  lemma OneMore<I>(acts: seq<Act<I>>, a: Act<I>)
    ensures var m := MonitorRun({0}, acts);
      && MonitorRun({0}, acts + [a]) == (if CanAct(m, a) then Perform(m, a) else m)
      && Offered({0}, acts + [a]) ==
         Offered({0}, acts) + if CanAct(m, a) && a.Go? && m.pc[a.t].Putting? then [m.pc[a.t].item] else []
  {
    assert (acts + [a])[..|acts|] == acts;
  }
}
