// Any run of the process table, with one thread per process: who is told what, and how often.
module ProcessRuns {
  import opened ProcessTree
  import opened ProcTables

  /** Something one thread does next. `Wake` runs a thread that was asleep in GetProcStatus. */
  datatype Event = Fork(parentId: int) | Exit(id: int, status: int) | Join(childId: int,
    parentId: int) | Wake(parentId: int)

  /** What comes of it; nothing, if there is no such thread or it is not the one to run. */
  datatype Outcome = Skipped | Forked(id: int) | Done | Answered(a: Answer)

  /** The table without its lists: processes, which child each sleeping parent waits for, and which of
      those parents have been made ready. */
  datatype Scene = Scene(v: seq<Process>, asleep: map<int, int>, woken: set<int>)

  predicate Active(a: Scene, p: int) {
    0 <= p < |a.v| && a.v[p].Running? && p !in a.asleep
  }

  /** An event can happen if the thread it belongs to exists and is not asleep. */
  predicate CanHappen(a: Scene, e: Event) {
    match e
    case Fork(p) => p < 0 || Active(a, p)
    case Exit(id, _) => Active(a, id)
    case Join(_, p) => Active(a, p)
    case Wake(p) => p in a.woken && p in a.asleep && 0 <= a.asleep[p] < |a.v|
  }

  ghost predicate Effect(a: Scene, e: Event, o: Outcome, b: Scene)
    requires CanHappen(a, e)
  {
    |b.v| == |a.v| &&
    match e
    case Fork(p) =>
      && o.Forked? && b.asleep == a.asleep && b.woken == a.woken
      && if o.id == -1 then b.v == a.v && forall i :: 0 <= i < |a.v| ==> a.v[i] != None
         else
            0 <= o.id < |a.v| && a.v[o.id] == None && (forall i :: 0 <= i < o.id ==> a.v[i] != None)
            && b.v == a.v[o.id := Running(p)]
    case Exit(id, status) =>
      && o == Done && b.asleep == a.asleep
      && b.woken == a.woken + (set p | p in a.asleep && a.asleep[p] == id)
      && forall i :: 0 <= i < |a.v| ==> b.v[i] == AfterExit(a.v, id, status, i)
    case Join(c, p) =>
      && b.woken == a.woken
      && if 0 <= c < |a.v| && a.v[c] == Running(p) then
        o == Answered(Asleep) && b.v == a.v && b.asleep == a.asleep[p := c]
         else if 0 <= c < |a.v| && a.v[c].Exited? && a.v[c].parentId == p then
           o == Answered(Status(a.v[c].status)) && b == a.(v := a.v[c := None])
         else o == Answered(NotAChild) && b == a
    case Wake(p) =>
      var c := a.asleep[p];
      && a.v[c].Exited? && a.v[c].parentId == p && o == Answered(Status(a.v[c].status))
      && b == Scene(a.v[c := None], a.asleep - {p}, a.woken - {p})
  }

  ghost predicate SceneStep(a: Scene, e: Event, o: Outcome, b: Scene) {
    if CanHappen(a, e) then Effect(a, e, o, b) else o == Skipped && b == a
  }

  /** What an exit comes to. Its status is kept for a parent, if there is one; its children, if they have exited too,
      are forgotten, and have no parent any more if not; who waits for it is made ready. */
  lemma ExitMeans(a: Scene, id: int, status: int, o: Outcome, b: Scene)
    requires SceneStep(a, Exit(id, status), o, b) && Active(a, id)
    ensures |b.v| == |a.v| && o == Done && b.asleep == a.asleep
    ensures b.v[id] == if a.v[id].parentId >= 0 then Exited(a.v[id].parentId, status) else None
    ensures forall i :: 0 <= i < |a.v| && i != id ==>
              b.v[i] == if a.v[i] == Running(id) then Running(-1)
                        else if a.v[i].Exited? && a.v[i].parentId == id then None else a.v[i]
    ensures forall p :: p in b.woken <==> p in a.woken || (p in a.asleep && a.asleep[p] == id)
  {
  }

  /** What a parent is told, at once or when it is woken: of its child that has exited just the status, and then that
      child is forgotten; it sleeps for one that has not; and of any other it is told nothing. */
  lemma JoinMeans(a: Scene, c: int, p: int, o: Outcome, b: Scene)
    requires SceneStep(a, Join(c, p), o, b) && Active(a, p)
    ensures |b.v| == |a.v| && o.Answered? && b.woken == a.woken
    ensures forall s :: 0 <= c < |a.v| && a.v[c] == Exited(p, s) ==>
              o.a == Status(s) && b.v == a.v[c := None] && b.asleep == a.asleep
    ensures 0 <= c < |a.v| && a.v[c] == Running(p) ==>
              o.a == Asleep && b.v == a.v && p in b.asleep && b.asleep[p] == c && b.asleep == a.asleep[p := c]
    ensures !(0 <= c < |a.v| && a.v[c] != None && a.v[c].parentId == p) ==> o.a == NotAChild && b == a
  {
  }

  lemma WakeMeans(a: Scene, p: int, o: Outcome, b: Scene)
    requires SceneStep(a, Wake(p), o, b) && CanHappen(a, Wake(p))
    ensures var c := a.asleep[p];
      && 0 <= c < |a.v| && a.v[c].Exited? && a.v[c].parentId == p && o == Answered(Status(a.v[c].status))
      && b.v == a.v[c := None] && p !in b.asleep && p !in b.woken
  {
  }

  ghost predicate SceneRun(trace: seq<Scene>, events: seq<Event>, outcomes: seq<Outcome>) {
    && |trace| == |events| + 1 && |outcomes| == |events|
    && trace[0] == Scene(seq(MAX_NUM_PROCESSES, i => None), map[], {})
    && forall i :: 0 <= i < |events| ==> SceneStep(trace[i], events[i], outcomes[i], trace[i + 1])
  }

  // ---- what such a run amounts to ----------------------------------------------------------------------

  /** A history of processes, each with a serial number of its own although slots are used again: which
      process each slot was last given to, what status each process left, and what parents have been
      told, in order. */
  datatype History = History(serial: seq<nat>, born: nat, left: map<nat, int>, told: seq<(nat, int)>)

  /** The history of a run: a pure record of its events and outcomes. */
  function Record(events: seq<Event>, outcomes: seq<Outcome>, asleep: seq<map<int, int>>): (h: History)
    requires |outcomes| == |events| == |asleep|
    ensures |h.serial| == MAX_NUM_PROCESSES
  {
    if events == [] then History(seq(MAX_NUM_PROCESSES, i => 0), 0, map[], [])
    else
      var n := |events| - 1;
      Noted(Record(events[..n], outcomes[..n], asleep[..n]), events[n], outcomes[n], asleep[n])
  }

  function Noted(h: History, e: Event, o: Outcome, asleep: map<int, int>): (g: History)
    requires |h.serial| == MAX_NUM_PROCESSES
    ensures |g.serial| == MAX_NUM_PROCESSES
  {
    match e
    case Fork(_) =>
      if o.Forked? && 0 <= o.id < MAX_NUM_PROCESSES then h.(serial := h.serial[o.id := h.born], born := h.born + 1)
        else h
    case Exit(id, status) =>
      if o.Done? && 0 <= id < MAX_NUM_PROCESSES then h.(left := h.left[h.serial[id] := status]) else h
    case Join(c, _) =>
      if o.Answered? && o.a.Status? && 0 <= c < MAX_NUM_PROCESSES then
        h.(told := h.told + [(h.serial[c], o.a.status)]) else h
    case Wake(p) =>
      if o.Answered? && o.a.Status? && p in asleep && 0 <= asleep[p] < MAX_NUM_PROCESSES
      then h.(told := h.told + [(h.serial[asleep[p]], o.a.status)]) else h
  }

  ghost predicate WasTold(h: History, n: nat) {
    exists k :: 0 <= k < |h.told| && h.told[k].0 == n
  }

  /** Slots and history agree: a slot is in use exactly while its process runs, or has left a status
      that nobody has been told. */
  ghost predicate Ledger(v: seq<Process>, h: History) {
    && |h.serial| == |v|
    && (forall n :: n in h.left ==> n < h.born)
    && (forall i :: 0 <= i < |v| && v[i] != None ==> h.serial[i] < h.born && !WasTold(h, h.serial[i]))
    && (forall i, j :: 0 <= i < j < |v| && v[i] != None && v[j] != None ==> h.serial[i] != h.serial[j])
    && (forall i :: 0 <= i < |v| && v[i].Running? ==> h.serial[i] !in h.left)
    && (forall i :: 0 <= i < |v| && v[i].Exited? ==> h.serial[i] in h.left && h.left[h.serial[i]] == v[i].status)
  }

  /** Every status told is the very one that process left, and no process's is told twice. */
  ghost predicate Truthful(h: History) {
    && (forall k :: 0 <= k < |h.told| ==> h.told[k].0 in h.left && h.left[h.told[k].0] == h.told[k].1)
    && (forall j, k :: 0 <= j < k < |h.told| ==> h.told[j].0 != h.told[k].0)
  }

  lemma ForkLedger(v: seq<Process>, h: History, id: nat, parentId: int)
    requires Ledger(v, h) && Truthful(h) && id < |v| && v[id] == None
    ensures Ledger(v[id := Running(parentId)], h.(serial := h.serial[id := h.born], born := h.born + 1))
    ensures Truthful(h.(serial := h.serial[id := h.born], born := h.born + 1))
  {
    var g := h.(serial := h.serial[id := h.born], born := h.born + 1);
    assert !WasTold(g, h.born);
    assert forall n :: WasTold(g, n) == WasTold(h, n);
  }

  lemma ExitLedger(v: seq<Process>, h: History, id: nat, status: int, w: seq<Process>)
    requires Ledger(v, h) && Truthful(h) && id < |v| && v[id].Running? && |w| == |v|
    requires forall i :: 0 <= i < |v| ==> w[i] == AfterExit(v, id, status, i)
    ensures Ledger(w, h.(left := h.left[h.serial[id] := status]))
            && Truthful(h.(left := h.left[h.serial[id] := status]))
  {
    var g := h.(left := h.left[h.serial[id] := status]);
    assert forall n :: WasTold(g, n) == WasTold(h, n);
  }

  /** Joining a child tells the status that process left, and tells it for the first time. */
  lemma JoinLedger(v: seq<Process>, h: History, id: nat, status: int)
    requires Ledger(v, h) && Truthful(h) && id < |v| && v[id].Exited? && v[id].status == status
    ensures Ledger(v[id := None], h.(told := h.told + [(h.serial[id], status)]))
    ensures Truthful(h.(told := h.told + [(h.serial[id], status)]))
  {
    var g := h.(told := h.told + [(h.serial[id], status)]);
    forall n | WasTold(g, n) ensures n == h.serial[id] || WasTold(h, n) {
      var k :| 0 <= k < |g.told| && g.told[k].0 == n;
      assert k < |h.told| ==> h.told[k].0 == n;
    }
    forall j | 0 <= j < |h.told| ensures h.told[j].0 != h.serial[id] {
      assert WasTold(h, h.told[j].0);
    }
  }

  lemma StepLedger(a: Scene, e: Event, o: Outcome, b: Scene, h: History)
    requires SceneStep(a, e, o, b) && |a.v| == MAX_NUM_PROCESSES == |h.serial| && Ledger(a.v, h) && Truthful(h)
    ensures |b.v| == MAX_NUM_PROCESSES && Ledger(b.v, Noted(h, e, o, a.asleep)) && Truthful(Noted(h, e, o, a.asleep))
  {
    hide Ledger, Truthful;
    if CanHappen(a, e) {
      match e
      case Fork(p) =>
        if o.id != -1 {
          ForkLedger(a.v, h, o.id, p);
        }
      case Exit(id, status) =>
        ExitLedger(a.v, h, id, status, b.v);
      case Join(c, p) =>
        if o.a.Status? {
          JoinLedger(a.v, h, c, o.a.status);
        }
      case Wake(p) =>
        JoinLedger(a.v, h, a.asleep[p], o.a.status);
    }
  }

  function Sleepers(trace: seq<Scene>): (s: seq<map<int, int>>)
    ensures |s| == |trace| && forall i :: 0 <= i < |s| ==> s[i] == trace[i].asleep
  {
    seq(|trace|, i requires 0 <= i < |trace| => trace[i].asleep)
  }

  /** In every run, whatever slots are used again: each status a parent is told is the one that very
      process left, and it is told at most once. */
  lemma {:induction false} RunTells(trace: seq<Scene>, events: seq<Event>, outcomes: seq<Outcome>)
    requires SceneRun(trace, events, outcomes)
    ensures |trace[|events|].v| == MAX_NUM_PROCESSES
    ensures Ledger(trace[|events|].v, Record(events, outcomes, Sleepers(trace)[..|events|]))
    ensures Truthful(Record(events, outcomes, Sleepers(trace)[..|events|]))
    decreases |events|
  {
    if events != [] {
      var n := |events| - 1;
      RunTells(trace[..n + 1], events[..n], outcomes[..n]);
      hide Ledger, Truthful;
      assert Sleepers(trace[..n + 1])[..n] == Sleepers(trace)[..n + 1][..n];
      StepLedger(trace[n], events[n], outcomes[n], trace[n + 1],
        Record(events[..n], outcomes[..n], Sleepers(trace)[..n + 1][..n]));
    }
  }

  // ---- the table does just that ------------------------------------------------------------------------

  function WaitedFor(joins: map<int, Suspended>): (m: map<int, int>)
    ensures m.Keys == joins.Keys && forall p :: p in joins ==> m[p] == joins[p].childId
  {
    map p | p in joins :: joins[p].childId
  }

  ghost function SceneOf(t: ProcTable): Scene
    reads t, t.Repr
  {
    Scene(Processes(t.slots), WaitedFor(t.joins), t.woken)
  }

  method ForkStep(t: ProcTable, parentId: int) returns (o: Outcome)
    requires t.Valid() && (parentId < 0 || t.Active(parentId))
    modifies t, t.Repr
    ensures t.Valid() && fresh(t.Repr - old(t.Repr))
    ensures SceneStep(old(SceneOf(t)), Fork(parentId), o, SceneOf(t))
  {
    assert |t.slots| == MAX_NUM_PROCESSES;
    var id := t.GetNewProcId(parentId);
    assert |t.slots| == MAX_NUM_PROCESSES;
    hide Inv, Frames, Linked;
    o := Forked(id);
  }

  method ExitStep(t: ProcTable, id: int, status: int) returns (o: Outcome)
    requires t.Valid() && t.Active(id)
    modifies t, t.Repr
    ensures t.Valid() && fresh(t.Repr - old(t.Repr))
    ensures SceneStep(old(SceneOf(t)), Exit(id, status), o, SceneOf(t))
  {
    hide Inv, Frames, Linked;
    Sizes(t.slots, t.kids, t.waits, t.woken);
    ghost var joins := t.joins;
    t.ProcIsDone(id, status);
    Sizes(t.slots, t.kids, t.waits, t.woken);
    assert (set p | p in joins && joins[p].childId == id) == set p | p in WaitedFor(joins) && WaitedFor(joins)[p] == id;
    o := Done;
  }

  method JoinStep(t: ProcTable, childId: int, parentId: int) returns (o: Outcome)
    requires t.Valid() && t.Active(parentId)
    modifies t, t.Repr
    ensures t.Valid() && fresh(t.Repr - old(t.Repr))
    ensures SceneStep(old(SceneOf(t)), Join(childId, parentId), o, SceneOf(t))
  {
    hide Inv, Frames, Linked;
    var a := t.GetProcStatus(childId, parentId);
    o := Answered(a);
  }

  method WakeStep(t: ProcTable, parentId: int) returns (o: Outcome)
    requires t.Valid() && parentId in t.woken
    modifies t, t.Repr
    ensures t.Valid() && fresh(t.Repr - old(t.Repr))
    ensures SceneStep(old(SceneOf(t)), Wake(parentId), o, SceneOf(t))
  {
    hide Inv, Frames, Linked;
    Sizes(t.slots, t.kids, t.waits, t.woken);
    ghost var joins := t.joins;
    var status := t.Resume(parentId);
    Sizes(t.slots, t.kids, t.waits, t.woken);
    assert WaitedFor(joins - {parentId}) == WaitedFor(joins) - {parentId};
    o := Answered(Status(status));
  }

  method Step(t: ProcTable, e: Event) returns (o: Outcome)
    requires t.Valid()
    modifies t, t.Repr
    ensures t.Valid() && fresh(t.Repr - old(t.Repr))
    ensures SceneStep(old(SceneOf(t)), e, o, SceneOf(t))
  {
    match e
    case Fork(p) => if p < 0 || t.Active(p) { o := ForkStep(t, p); } else { o := Skipped; }
    case Exit(id, status) => if t.Active(id) { o := ExitStep(t, id, status); } else { o := Skipped; }
    case Join(c, p) => if t.Active(p) { o := JoinStep(t, c, p); } else { o := Skipped; }
    case Wake(p) => if p in t.woken { o := WakeStep(t, p); } else { o := Skipped; }
  }

  /** Nobody sleeps through it: a parent asleep has been made ready exactly if its child has exited. */
  lemma NobodyForgotten(t: ProcTable, p: int)
    requires t.Valid() && p in t.joins
    ensures 0 <= t.joins[p].childId < MAX_NUM_PROCESSES
    ensures var c := Processes(t.slots)[t.joins[p].childId];
            if p in t.woken then c.Exited? && c.parentId == p else c == Running(p)
  {
    hide Kin, Parents, Holding;
    assert p in t.waits.Keys && ChildOf(t.slots, t.waits[p], p);
  }

  /** The process table, driven by any events at all from its construction on. */
  method Run(events: seq<Event>) returns (t: ProcTable, outcomes: seq<Outcome>, ghost trace: seq<Scene>)
    ensures t.Valid() && SceneRun(trace, events, outcomes) && trace[|events|] == SceneOf(t)
  {
    hide SceneStep, Inv, Frames;
    t := new ProcTable();
    outcomes, trace := [], [SceneOf(t)];
    var i := 0;
    while i < |events|
      invariant 0 <= i <= |events| && t.Valid() && fresh(t) && fresh(t.Repr)
      invariant SceneRun(trace, events[..i], outcomes) && trace[i] == SceneOf(t)
    {
      var o := Step(t, events[i]);
      outcomes, trace := outcomes + [o], trace + [SceneOf(t)];
      i := i + 1;
    }
    assert events[..i] == events;
  }
}
