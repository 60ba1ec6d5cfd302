// SynchDisk, Disk and the disk interrupt together, under every interleaving of any threads.
module DiskProtocol {
  import opened Collections
  import opened Semaphores
  import opened Locks

  datatype Request<D> = Read(sector: nat) | Write(sector: nat, data: D)

  /** The next atomic step of a thread in ReadSector or WriteSector. A waiting thread has the number of
      its request, and what the disk put in its buffer. */
  datatype Pc<D> =
    | Idle
    | Entering(req: Request<D>)              // in lock->P
    | Entered(req: Request<D>)               // through P, lockHolder not set yet
    | Requesting(req: Request<D>)            // about to call the disk
    | Waiting(req: Request<D>, ticket: nat, buffer: D)
    | Leaving
    | Left

  /** An operation that has returned: the request, and for a read what it returned. */
  datatype Done<D> = Done(req: Request<D>, result: D)

  /** `done` is SynchDisk's semaphore; `active` is Disk's; `pending` counts disk interrupts in the event
      queue; `issued` and `delivered` count requests and interrupts so far. */
  datatype System<D> = System(
    sem: Sem, holder: Option<Tid>, done: Sem, active: bool, pending: nat, contents: seq<D>, pc: map<Tid, Pc<D>>,
    issued: nat, delivered: nat, waiting: Option<Tid>, log: seq<Done<D>>)

  function PhaseOf<D>(p: Pc<D>): Phase {
    match p
    case Idle => Phase.Outside
    case Entering(_) => Phase.Acquiring
    case Entered(_) => Phase.Acquired
    case Left => Phase.Cleared
    case _ => Phase.Holding
  }

  function Phases<D>(pc: map<Tid, Pc<D>>): map<Tid, Phase> {
    map t | t in pc :: PhaseOf(pc[t])
  }

  function LockView<D>(s: System<D>): LockState {
    LockState(s.sem, s.holder, Phases(s.pc))
  }

  predicate Asleep<D>(s: System<D>, t: Tid) {
    t in s.sem.queue || t in s.done.queue
  }

  // ---- the steps ---------------------------------------------------------------------------------------

  function Called<D>(s: System<D>, t: Tid, req: Request<D>): System<D> {
    s.(pc := s.pc[t := Entering(req)])
  }

  function Next<D>(s: System<D>, t: Tid): System<D>
    requires t in s.pc
  {
    match s.pc[t]
    case Idle => s
    case Entering(req) => s.(sem := Attempt(s.sem, t), pc := if s.sem.value == 0 then s.pc else s.pc[t := Entered(req)])
    case Entered(req) => s.(holder := Some(t), pc := s.pc[t := Requesting(req)])
    case Requesting(req) =>
      if req.sector >= |s.contents| then s
      else
        s.(active := true, pending := s.pending + 1, issued := s.issued + 1, waiting := Some(t),
           contents := if req.Read? then s.contents else s.contents[req.sector := req.data],
           pc := s.pc[t := Waiting(req, s.issued + 1, if req.Read? then s.contents[req.sector] else req.data)])
    case Waiting(req, _, buffer) =>
      if s.done.value == 0 then s.(done := Attempt(s.done, t))
      else s.(done := Attempt(s.done, t), waiting := None, log := s.log + [Done(req, buffer)], pc := s.pc[t := Leaving])
    case Leaving => s.(holder := None, pc := s.pc[t := Left])
    case Left => s.(sem := AfterV(s.sem), pc := s.pc[t := Idle])
  }

  /** The disk interrupt: Disk::CallBack, and in it SynchDisk::CallBack. */
  function Interrupted<D>(s: System<D>): System<D> {
    if s.pending == 0 then s
    else s.(pending := s.pending - 1, delivered := s.delivered + 1, active := false, done := AfterV(s.done))
  }

  /** The ASSERTs on the way: one request at a time, for an existing sector; Release by the holder. */
  predicate AssertsHold<D>(s: System<D>, t: Tid)
    requires t in s.pc
  {
    match s.pc[t]
    case Requesting(req) => !s.active && req.sector < |s.contents|
    case Leaving => s.holder == Some(t)
    case _ => true
  }

  // ---- the invariant -------------------------------------------------------------------------------------

  /** The sectors after the operations of a log, in order. */
  function Replay<D>(initial: seq<D>, log: seq<Done<D>>): (c: seq<D>)
    ensures |c| == |initial|
  {
    if log == [] then initial
    else
      var c, last := Replay(initial, log[..|log| - 1]), log[|log| - 1].req;
      if last.Write? && last.sector < |c| then c[last.sector := last.data] else c
  }

  function Effect<D>(c: seq<D>, req: Request<D>): (n: seq<D>)
    ensures |n| == |c|
  {
    if req.Write? && req.sector < |c| then c[req.sector := req.data] else c
  }

  /** Every read in a log returned what the writes before it had left in its sector. */
  ghost predicate Linear<D>(initial: seq<D>, log: seq<Done<D>>) {
    forall k :: 0 <= k < |log| && log[k].req.Read? ==>
      log[k].req.sector < |initial| && log[k].result == Replay(initial, log[..k])[log[k].req.sector]
  }

  /** The one request under way: its interrupt is still to come, or has come and is waiting for it. */
  ghost predicate DiskInv<D>(s: System<D>, initial: seq<D>) {
    && |s.contents| == |initial|
    && (s.active <==> s.pending == 1) && s.pending <= 1 && s.issued == s.delivered + s.pending
    && (forall t :: s.waiting == Some(t) <==> t in s.pc && s.pc[t].Waiting?)
    && Sound(s.done) && (forall t :: t in s.done.queue || t in s.done.woken ==> s.waiting == Some(t))
    && (forall t :: t in s.pc && !s.pc[t].Idle? && !s.pc[t].Leaving? && !s.pc[t].Left? ==>
      s.pc[t].req.sector < |initial|)
    && Linear(initial, s.log)
    && (match s.waiting
        case None => s.pending == 0 && s.done.value == 0 && s.contents == Replay(initial, s.log)
        case Some(t) =>
          && s.done.value + s.pending == 1 && (s.done.value > 0 ==> s.done.queue == [])
          && t in s.pc && s.pc[t].Waiting? && s.pc[t].ticket == s.issued
          && s.contents == Effect(Replay(initial, s.log), s.pc[t].req)
          && (s.pc[t].req.Read? ==> s.pc[t].buffer == s.contents[s.pc[t].req.sector]))
  }

  ghost predicate Inv<D>(s: System<D>, initial: seq<D>) {
    LockInv(LockView(s)) && DiskInv(s, initial)
  }

  lemma PhasesUpdate<D>(pc: map<Tid, Pc<D>>, t: Tid, p: Pc<D>)
    ensures Phases(pc[t := p]) == Phases(pc)[t := PhaseOf(p)]
  {
  }

  /** While one thread owns the lock no other is anywhere inside. */
  lemma Alone<D>(s: System<D>, t: Tid)
    requires LockInv(LockView(s)) && t in s.pc && Owns(PhaseOf(s.pc[t]))
    ensures forall u :: u in s.pc && u != t ==> !Owns(PhaseOf(s.pc[u]))
  {
    forall u | u in s.pc && u != t ensures !Owns(PhaseOf(s.pc[u])) {
      assert Owner(LockView(s), t);
      assert Owns(PhaseOf(s.pc[u])) ==> Owner(LockView(s), u);
    }
  }

  lemma Asserts<D>(s: System<D>, t: Tid, initial: seq<D>)
    requires Inv(s, initial) && t in s.pc
    ensures AssertsHold(s, t)
  {
    assert LockView(s).phase[t] == PhaseOf(s.pc[t]);
    if s.pc[t].Requesting? {
      Alone(s, t);
      if s.waiting.Some? {
        assert s.pc[s.waiting.value].Waiting?;
      }
    }
  }

  lemma LockPart<D>(s: System<D>, t: Tid, initial: seq<D>)
    requires Inv(s, initial) && t in s.pc && !Asleep(s, t)
    ensures LockInv(LockView(Next(s, t)))
  {
    hide LockInv, DiskInv;
    var v, n := LockView(s), Next(s, t);
    PhasesUpdate(s.pc, t, n.pc[t]);
    match s.pc[t]
    case Entering(_) => LockKeeps(v, t, Try);
    case Entered(_) => LockKeeps(v, t, SetHolder);
    case Leaving => LockKeeps(v, t, ClearHolder);
    case Left => LockKeeps(v, t, Unlock);
    case _ =>
      assert n.pc == s.pc[t := n.pc[t]];
      assert LockView(n) == v;
  }

  lemma RequestingPart<D>(s: System<D>, t: Tid, initial: seq<D>)
    requires DiskInv(s, initial) && t in s.pc && s.pc[t].Requesting? && s.waiting == None
    ensures DiskInv(Next(s, t), initial)
  {
  }

  /** One more operation in the log, whose read returned what the log says is in the sector. */
  lemma LinearGrows<D>(initial: seq<D>, log: seq<Done<D>>, d: Done<D>)
    requires Linear(initial, log) && d.req.sector < |initial|
    requires d.req.Read? ==> d.result == Replay(initial, log)[d.req.sector]
    ensures Linear(initial, log + [d]) && Replay(initial, log + [d]) == Effect(Replay(initial, log), d.req)
  {
    var n := log + [d];
    assert n[..|n| - 1] == log;
    forall k | 0 <= k < |n| && n[k].req.Read?
      ensures n[k].req.sector < |initial| && n[k].result == Replay(initial, n[..k])[n[k].req.sector]
    {
      assert n[..k] == log[..k];
      assert k == |log| ==> log[..k] == log;
    }
  }

  lemma WaitingMore<D>(s: System<D>, t: Tid, initial: seq<D>)
    requires DiskInv(s, initial) && t in s.pc && s.pc[t].Waiting? && s.done.value == 0 && t !in s.done.queue
    ensures DiskInv(Next(s, t), initial)
  {
    hide Linear, Replay, Effect, Sound;
    AttemptSound(s.done, t);
  }

  lemma WaitingOver<D>(s: System<D>, t: Tid, initial: seq<D>)
    requires DiskInv(s, initial) && t in s.pc && s.pc[t].Waiting? && s.done.value > 0 && t !in s.done.queue
    ensures DiskInv(Next(s, t), initial) && s.pc[t].ticket == s.delivered
  {
    var n, req := Next(s, t), s.pc[t].req;
    assert Effect(Replay(initial, s.log), req) == Replay(initial, s.log) || req.Write?;
    hide Linear, Replay, Effect, Sound;
    AttemptSound(s.done, t);
    LinearGrows(initial, s.log, Done(req, s.pc[t].buffer));
  }

  lemma WaitingPart<D>(s: System<D>, t: Tid, initial: seq<D>)
    requires DiskInv(s, initial) && t in s.pc && s.pc[t].Waiting? && !Asleep(s, t)
    ensures DiskInv(Next(s, t), initial)
    ensures Next(s, t).pc[t].Leaving? ==> s.pc[t].ticket == s.delivered
  {
    hide DiskInv;
    if s.done.value == 0 {
      WaitingMore(s, t, initial);
    } else {
      WaitingOver(s, t, initial);
    }
  }

  lemma OtherPart<D>(s: System<D>, t: Tid, initial: seq<D>)
    requires DiskInv(s, initial) && t in s.pc && !s.pc[t].Requesting? && !s.pc[t].Waiting?
    ensures DiskInv(Next(s, t), initial)
  {
    hide Linear, Sound, Replay, Effect;
  }

  /** Every step of every thread keeps the invariant, and none runs into an ASSERT. */
  lemma StepKeeps<D>(s: System<D>, t: Tid, initial: seq<D>)
    requires Inv(s, initial) && t in s.pc && !Asleep(s, t)
    ensures Inv(Next(s, t), initial) && AssertsHold(s, t)
  {
    Asserts(s, t, initial);
    LockPart(s, t, initial);
    if s.pc[t].Requesting? {
      Alone(s, t);
      assert s.waiting == None;
    }
    hide LockInv, DiskInv, Next, AssertsHold;
    match s.pc[t]
    case Requesting(_) => RequestingPart(s, t, initial);
    case Waiting(_, _, _) => WaitingPart(s, t, initial);
    case _ => OtherPart(s, t, initial);
  }

  lemma {:induction false} AtMostOne(q: seq<Tid>, t: Tid)
    requires Distinct(q) && forall u :: u in q ==> u == t
    ensures |q| <= 1
  {
    assert multiset(q)[t] <= 1 by {
      DistinctOnce(q, t);
    }
    AllSame(q, t);
  }

  lemma {:induction false} DistinctOnce(q: seq<Tid>, t: Tid)
    requires Distinct(q)
    ensures multiset(q)[t] <= 1
  {
    if q != [] {
      var n := |q| - 1;
      DistinctOnce(q[..n], t);
      assert q == q[..n] + [q[n]];
      assert q[n] !in q[..n];
    }
  }

  lemma {:induction false} AllSame(q: seq<Tid>, t: Tid)
    requires forall u :: u in q ==> u == t
    ensures multiset(q)[t] == |q|
  {
    if q != [] {
      var n := |q| - 1;
      assert q == q[..n] + [q[n]] && q[n] in q;
      assert forall u :: u in q[..n] ==> u in q;
      AllSame(q[..n], t);
    }
  }

  lemma InterruptKeeps<D>(s: System<D>, initial: seq<D>)
    requires Inv(s, initial)
    ensures Inv(Interrupted(s), initial)
  {
    hide LockInv, Linear;
    VSound(s.done);
    if s.waiting.Some? {
      AtMostOne(s.done.queue, s.waiting.value);
    }
  }

  lemma CallKeeps<D>(s: System<D>, t: Tid, req: Request<D>, initial: seq<D>)
    requires Inv(s, initial) && t in s.pc && s.pc[t].Idle? && req.sector < |initial|
    ensures Inv(Called(s, t, req), initial)
  {
    var n := Called(s, t, req);
    assert LockInv(LockView(n)) by {
      hide LockInv, DiskInv;
      PhasesUpdate(s.pc, t, n.pc[t]);
      LockKeeps(LockView(s), t, Begin);
    }
    hide LockInv, Linear, Sound;
  }

  // ---- runs ------------------------------------------------------------------------------------------------

  /** A thread calls ReadSector or WriteSector, or takes its next step; or the disk interrupt comes. */
  datatype Act<D> = Call(t: Tid, req: Request<D>) | Go(t: Tid) | DiskInterrupt

  predicate CanAct<D>(s: System<D>, a: Act<D>) {
    match a
    case Call(t, req) => t in s.pc && s.pc[t].Idle? && req.sector < |s.contents|
    case Go(t) => t in s.pc && !Asleep(s, t)
    case DiskInterrupt => s.pending > 0
  }

  function Perform<D>(s: System<D>, a: Act<D>): System<D>
    requires CanAct(s, a)
  {
    match a
    case Call(t, req) => Called(s, t, req)
    case Go(t) => Next(s, t)
    case DiskInterrupt => Interrupted(s)
  }

  function Started<D>(threads: set<Tid>, initial: seq<D>): System<D> {
    System(Sem(1, [], {}), None, Sem(0, [], {}), false, 0, initial, map t | t in threads :: Idle, 0, 0, None, [])
  }

  function SystemRun<D>(threads: set<Tid>, initial: seq<D>, acts: seq<Act<D>>): System<D> {
    if acts == [] then Started(threads, initial)
    else
      var s, a := SystemRun(threads, initial, acts[..|acts| - 1]), acts[|acts| - 1];
      if CanAct(s, a) then Perform(s, a) else s
  }

  lemma {:induction false} SystemRuns<D>(threads: set<Tid>, initial: seq<D>, acts: seq<Act<D>>)
    ensures Inv(SystemRun(threads, initial, acts), initial)
  {
    if acts == [] {
      FreshLock(LockView(Started(threads, initial)));
    } else {
      SystemRuns(threads, initial, acts[..|acts| - 1]);
      var s, a := SystemRun(threads, initial, acts[..|acts| - 1]), acts[|acts| - 1];
      assert |s.contents| == |initial|;
      hide Inv, Next, Called, Interrupted;
      if CanAct(s, a) {
        match a
        case Call(t, req) => CallKeeps(s, t, req, initial);
        case Go(t) => StepKeeps(s, t, initial);
        case DiskInterrupt => InterruptKeeps(s, initial);
      }
    }
  }

  /** In every run: the disk is busy exactly while one disk interrupt is pending, and its ASSERT never
      fails; every read that has returned gave what the writes returned before it had left there; and
      with nothing under way the disk holds just what the log says. */
  lemma SystemPromises<D>(threads: set<Tid>, initial: seq<D>, acts: seq<Act<D>>, t: Tid)
    ensures var s := SystemRun(threads, initial, acts);
      && (s.active <==> s.pending == 1) && s.pending <= 1
      && (t in s.pc ==> AssertsHold(s, t))
      && Linear(initial, s.log)
      && (s.waiting == None ==> s.contents == Replay(initial, s.log))
  {
    SystemRuns(threads, initial, acts);
    var s := SystemRun(threads, initial, acts);
    if t in s.pc {
      Asserts(s, t, initial);
    }
  }

  /** A thread gets past its wait only when the interrupt of its own request has come. */
  lemma OwnInterrupt<D>(threads: set<Tid>, initial: seq<D>, acts: seq<Act<D>>, t: Tid)
    requires var s := SystemRun(threads, initial, acts); t in s.pc && s.pc[t].Waiting? && !Asleep(s, t)
    ensures var s := SystemRun(threads, initial, acts);
      Next(s, t).pc[t].Leaving? <==> s.delivered == s.pc[t].ticket == s.issued
  {
    SystemRuns(threads, initial, acts);
  }

  // ---- who uses the disk gets on ---------------------------------------------------------------------------

  /** How far a thread has to go. */
  function ToGo<D>(p: Pc<D>): nat {
    match p
    case Idle => 0
    case Left => 1
    case Leaving => 2
    case Waiting(_, _, _) => 3
    case Requesting(_) => 4
    case Entered(_) => 5
    case Entering(_) => 6
  }

  /** Every step of a thread that can take one brings it nearer to its end, or to sleep; and a disk interrupt
      makes one fewer of those to come. */
  lemma Advances<D>(s: System<D>, t: Tid, initial: seq<D>)
    requires Inv(s, initial) && t in s.pc && !Asleep(s, t) && !s.pc[t].Idle?
    ensures t in Next(s, t).pc && (Asleep(Next(s, t), t) || ToGo(Next(s, t).pc[t]) < ToGo(s.pc[t]))
    ensures s.pending > 0 ==> Interrupted(s).pending == s.pending - 1
  {
    Asserts(s, t, initial);
    hide Inv, AfterV;
  }

  /** Nobody can take a step, and no disk interrupt is to come. */
  ghost predicate Stuck<D>(s: System<D>) {
    !CanAct(s, DiskInterrupt) && forall t :: t in s.pc && !s.pc[t].Idle? ==> !CanAct(s, Act<D>.Go(t))
  }

  /** No deadlock, over every interleaving: then no thread is in ReadSector or WriteSector at all. */
  lemma NeverStuck<D>(threads: set<Tid>, initial: seq<D>, acts: seq<Act<D>>)
    requires Stuck(SystemRun(threads, initial, acts))
    ensures var s := SystemRun(threads, initial, acts);
      && (forall t :: t in s.pc ==> s.pc[t].Idle?)
      && s.sem.value == 1 && s.holder == None && s.contents == Replay(initial, s.log)
  {
    SystemRuns(threads, initial, acts);
    hide SystemRun, Linear, Effect, Replay;
    StuckDisk(SystemRun(threads, initial, acts), initial);
    StuckLock(SystemRun(threads, initial, acts), initial);
  }

  lemma StuckDisk<D>(s: System<D>, initial: seq<D>)
    requires Inv(s, initial) && Stuck(s)
    ensures s.waiting == None && forall t :: t !in s.done.queue
  {
    hide Linear, Effect, Replay;
  }

  lemma StuckLock<D>(s: System<D>, initial: seq<D>)
    requires Inv(s, initial) && Stuck(s) && forall t :: t !in s.done.queue
    ensures s.sem.value == 1 && s.holder == None && forall t :: t in s.pc ==> s.pc[t].Idle?
  {
    var v := LockView(s);
    hide DiskInv;
    forall u ensures !Owner(v, u) && u !in s.sem.woken {
      assert u in s.pc ==> v.phase[u] == PhaseOf(s.pc[u]);
    }
    assert s.sem.woken == {};
    assert forall u :: s.holder == Some(u) ==> Owner(v, u);
  }

  // ---- the log is what happened ------------------------------------------------------------------------------

  function ReturnedBy<D>(s: System<D>, a: Act<D>): seq<Done<D>> {
    if CanAct(s, a) && a.Go? && s.pc[a.t].Waiting? && s.done.value > 0 then [Done(s.pc[a.t].req, s.pc[a.t].buffer)]
    else []
  }

  /** The operations that have got past their wait, in the order in which they did. */
  function Returned<D>(threads: set<Tid>, initial: seq<D>, acts: seq<Act<D>>): seq<Done<D>> {
    if acts == [] then []
    else
      Returned(threads, initial, acts[..|acts| - 1])
      + ReturnedBy(SystemRun(threads, initial, acts[..|acts| - 1]), acts[|acts| - 1])
  }

  lemma {:induction false} LogIsReturned<D>(threads: set<Tid>, initial: seq<D>, acts: seq<Act<D>>)
    ensures SystemRun(threads, initial, acts).log == Returned(threads, initial, acts)
  {
    hide Perform, ReturnedBy, CanAct;
    if acts != [] {
      LogIsReturned(threads, initial, acts[..|acts| - 1]);
      LogGrows(SystemRun(threads, initial, acts[..|acts| - 1]), acts[|acts| - 1]);
    }
  }

  lemma LogGrows<D>(s: System<D>, a: Act<D>)
    ensures (if CanAct(s, a) then Perform(s, a) else s).log == s.log + ReturnedBy(s, a)
  {
    hide AfterV, Attempt;
  }

  /** The request of a thread's last call. */
  function LastCall<D>(threads: set<Tid>, initial: seq<D>, acts: seq<Act<D>>, t: Tid): Option<Request<D>> {
    if acts == [] then None
    else
      var s, a := SystemRun(threads, initial, acts[..|acts| - 1]), acts[|acts| - 1];
      if a.Call? && a.t == t && CanAct(s, a) then Some(a.req) else LastCall(threads, initial, acts[..|acts| - 1], t)
  }

  /** And the request that a thread is busy with is the one it was called for last. */
  lemma {:induction false} ServesCall<D>(threads: set<Tid>, initial: seq<D>, acts: seq<Act<D>>, t: Tid)
    ensures var s := SystemRun(threads, initial, acts);
      t in s.pc && !s.pc[t].Idle? && !s.pc[t].Leaving? && !s.pc[t].Left? ==>
        LastCall(threads, initial, acts, t) == Some(s.pc[t].req)
  {
    if acts != [] {
      ServesCall(threads, initial, acts[..|acts| - 1], t);
      var s, a := SystemRun(threads, initial, acts[..|acts| - 1]), acts[|acts| - 1];
      if CanAct(s, a) {
        RequestStays(s, a, t);
      }
      hide Perform, CanAct;
    }
  }

  lemma RequestStays<D>(s: System<D>, a: Act<D>, t: Tid)
    requires CanAct(s, a)
    ensures var n := Perform(s, a);
      t in n.pc && !n.pc[t].Idle? && !n.pc[t].Leaving? && !n.pc[t].Left? ==>
        && t in s.pc
        && if a.Call? && a.t == t then n.pc[t].req == a.req
           else !s.pc[t].Idle? && !s.pc[t].Leaving? && !s.pc[t].Left? && s.pc[t].req == n.pc[t].req
  {
    hide AfterV, Attempt;
  }
}
