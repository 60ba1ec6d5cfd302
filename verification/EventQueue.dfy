// The event queue on values: which interrupts are scheduled, pending and fired, and simulated time.
module EventQueue {
  import opened SortedLists

  const USER_TICK := 1
  const SYSTEM_TICK := 10

  datatype IntType = TimerInt | DiskInt | ConsoleWriteInt | ConsoleReadInt | NetworkSendInt | NetworkRecvInt

  datatype IntStatus = IntOff | IntOn

  datatype MachineStatus = IdleMode | SystemMode | UserMode

  /** `serial` stands for the object's identity: each is allocated by one call of Schedule. */
  datatype PendingInterrupt = PendingInterrupt(serial: nat, callOnInterrupt: nat, when: int, kind: IntType)

  /** A call of Schedule. */
  datatype Request = Request(toCall: nat, fromNow: int, kind: IntType)

  /** What a device's handler does when it is called: some calls of Schedule, and perhaps one of
      YieldOnReturn. */
  datatype Response = Response(requests: seq<Request>, wantsYield: bool)

  /** What the handler of a device does in the `n`-th call of a handler overall. */
  type Handlers = (nat, nat) -> Response

  /** A call of an interrupt's handler, and when it came. */
  datatype Firing = Firing(what: PendingInterrupt, at: int)

  /** All that were ever scheduled, those pending, and those fired, in order. */
  datatype Events = Events(scheduled: seq<PendingInterrupt>, pending: seq<PendingInterrupt>, fired: seq<Firing>,
    yieldOnReturn: bool)

  const pendingCompare: (PendingInterrupt, PendingInterrupt) -> int :=
    (x: PendingInterrupt, y: PendingInterrupt) => if x.when < y.when then -1 else if x.when > y.when then 1 else 0

  lemma WhenRanks()
    ensures Ranked(pendingCompare, (p: PendingInterrupt) => p.when)
  {
  }

  /** Handlers only schedule for later, as Schedule's ASSERT demands. */
  ghost predicate Polite(handlers: Handlers) {
    forall who, n :: Ahead(handlers(who, n).requests)
  }

  predicate Ahead(requests: seq<Request>) {
    forall k :: 0 <= k < |requests| ==> requests[k].fromNow > 0
  }

  lemma PoliteAhead(handlers: Handlers, who: nat, n: nat)
    requires Polite(handlers)
    ensures Ahead(handlers(who, n).requests)
  {
  }

  // ---- scheduling and firing ---------------------------------------------------------------------------

  function Requested(e: Events, r: Request, now: int): PendingInterrupt {
    PendingInterrupt(|e.scheduled|, r.toCall, now + r.fromNow, r.kind)
  }

  /** Schedule. */
  function Booked(e: Events, r: Request, now: int): Events {
    var p := Requested(e, r, now);
    e.(scheduled := e.scheduled + [p], pending := Inserted(e.pending, p, pendingCompare))
  }

  function BookedAll(e: Events, requests: seq<Request>, now: int): Events {
    if requests == [] then e
    else Booked(BookedAll(e, requests[..|requests| - 1], now), requests[|requests| - 1], now)
  }

  /** The call of the handler of `p`. */
  function Called(e: Events, p: PendingInterrupt, now: int, handlers: Handlers): Events {
    var response := handlers(p.callOnInterrupt, |e.fired|);
    BookedAll(Entered(e, p, now, response), response.requests, now)
  }

  /** Up to the handler's calls of Schedule. */
  function Entered(e: Events, p: PendingInterrupt, now: int, response: Response): Events {
    e.(fired := e.fired + [Firing(p, now)], yieldOnReturn := e.yieldOnReturn || response.wantsYield)
  }

  predicate IsDue(e: Events, now: int) {
    e.pending != [] && e.pending[0].when <= now
  }

  /** The first pending interrupt comes off and its handler is called. */
  function FrontFired(e: Events, now: int, handlers: Handlers): Events
    requires e.pending != []
  {
    Called(e.(pending := e.pending[1..]), e.pending[0], now, handlers)
  }

  /** The interrupts at the front that are due. */
  function Dues(s: seq<PendingInterrupt>, now: int): (r: seq<PendingInterrupt>)
    ensures |r| <= |s| && r == s[..|r|]
  {
    if s == [] || s[0].when > now then [] else [s[0]] + Dues(s[1..], now)
  }

  /** The loop of CheckIfDue: it ends, since handlers only schedule for later. */
  ghost function AllFired(e: Events, now: int, handlers: Handlers): Events
    requires Polite(handlers)
    decreases |Dues(e.pending, now)|
  {
    if !IsDue(e, now) then e
    else
      FrontDues(e, now, handlers);
      AllFired(FrontFired(e, now, handlers), now, handlers)
  }

  /** A later interrupt makes no difference to what is due. */
  lemma {:induction false} InsertedDues(s: seq<PendingInterrupt>, p: PendingInterrupt, now: int)
    requires p.when > now
    ensures Dues(Inserted(s, p, pendingCompare), now) == Dues(s, now)
  {
    if s == [] || pendingCompare(p, s[0]) < 0 {
    } else {
      InsertedDues(s[1..], p, now);
    }
  }

  lemma {:induction false} BookedDues(e: Events, requests: seq<Request>, now: int)
    requires Ahead(requests)
    ensures Dues(BookedAll(e, requests, now).pending, now) == Dues(e.pending, now)
    ensures BookedAll(e, requests, now).fired == e.fired
  {
    if requests != [] {
      hide Inserted, Dues;
      var n := |requests| - 1;
      BookedDues(e, requests[..n], now);
      var b := BookedAll(e, requests[..n], now);
      InsertedDues(b.pending, Requested(b, requests[n], now), now);
    }
  }

  lemma FrontDues(e: Events, now: int, handlers: Handlers)
    requires Polite(handlers) && IsDue(e, now)
    ensures var n := FrontFired(e, now, handlers);
            && Dues(e.pending, now) == [e.pending[0]] + Dues(n.pending, now)
            && n.fired == e.fired + [Firing(e.pending[0], now)]
  {
    var p, rest := e.pending[0], e.(pending := e.pending[1..]);
    var response := handlers(p.callOnInterrupt, |e.fired|);
    BookedDues(Entered(rest, p, now, response), response.requests, now);
  }

  function FiredAt(s: seq<PendingInterrupt>, now: int): (r: seq<Firing>)
    ensures |r| == |s| && forall k :: 0 <= k < |r| ==> r[k] == Firing(s[k], now)
  {
    seq(|s|, k requires 0 <= k < |s| => Firing(s[k], now))
  }

  /** What a series of requests adds to all that was scheduled: each as it was asked for, in order. */
  lemma {:induction false} BookedGives(e: Events, requests: seq<Request>, now: int)
    ensures var n := BookedAll(e, requests, now);
      && |n.scheduled| == |e.scheduled| + |requests| && e.scheduled <= n.scheduled
      && forall k :: 0 <= k < |requests| ==>
           var p, r := n.scheduled[|e.scheduled| + k], requests[k];
           p.callOnInterrupt == r.toCall && p.when == now + r.fromNow && p.kind == r.kind
  {
    if requests != [] {
      BookedGives(e, requests[..|requests| - 1], now);
    }
  }

  /** A firing schedules what the handler of that very interrupt asks for in its call, and nothing else. */
  lemma FrontGives(e: Events, now: int, handlers: Handlers)
    requires e.pending != []
    ensures var n, requests := FrontFired(e, now, handlers), handlers(e.pending[0].callOnInterrupt, |e.fired|).requests;
      && |n.scheduled| == |e.scheduled| + |requests| && e.scheduled <= n.scheduled
      && forall k :: 0 <= k < |requests| ==>
           var p, r := n.scheduled[|e.scheduled| + k], requests[k];
           p.callOnInterrupt == r.toCall && p.when == now + r.fromNow && p.kind == r.kind
  {
    var response := handlers(e.pending[0].callOnInterrupt, |e.fired|);
    BookedGives(Entered(e.(pending := e.pending[1..]), e.pending[0], now, response), response.requests, now);
  }

  /** Did the handler in the `k`-th call ask for a context switch? */
  predicate Asks(fired: seq<Firing>, k: nat, handlers: Handlers)
    requires k < |fired|
  {
    handlers(fired[k].what.callOnInterrupt, k).wantsYield
  }

  ghost predicate Asked(fired: seq<Firing>, from: nat, handlers: Handlers) {
    exists k :: from <= k < |fired| && Asks(fired, k, handlers)
  }

  lemma {:induction false} BookedAsks(e: Events, requests: seq<Request>, now: int)
    ensures BookedAll(e, requests, now).yieldOnReturn == e.yieldOnReturn && BookedAll(e, requests, now).fired == e.fired
  {
    if requests != [] {
      BookedAsks(e, requests[..|requests| - 1], now);
    }
  }

  lemma FrontAsks(e: Events, now: int, handlers: Handlers)
    requires e.pending != []
    ensures var n := FrontFired(e, now, handlers);
      && n.fired == e.fired + [Firing(e.pending[0], now)]
      && (n.yieldOnReturn <==> e.yieldOnReturn || Asks(n.fired, |e.fired|, handlers))
  {
    var response := handlers(e.pending[0].callOnInterrupt, |e.fired|);
    BookedAsks(Entered(e.(pending := e.pending[1..]), e.pending[0], now, response), response.requests, now);
  }

  /** The flag is set after the loop exactly if it was before or a handler called in the loop asked for it. */
  lemma {:induction false} LoopAsks(e: Events, now: int, handlers: Handlers)
    requires Polite(handlers)
    ensures var n := AllFired(e, now, handlers);
      && e.fired <= n.fired && (n.yieldOnReturn <==> e.yieldOnReturn || Asked(n.fired, |e.fired|, handlers))
    decreases |Dues(e.pending, now)|
  {
    if IsDue(e, now) {
      hide Polite, Dues, FrontFired;
      FrontDues(e, now, handlers);
      FrontAsks(e, now, handlers);
      var f := FrontFired(e, now, handlers);
      LoopAsks(f, now, handlers);
      AskedFrom(f.fired, AllFired(f, now, handlers).fired, |e.fired|, handlers);
    }
  }

  lemma AskedFrom(a: seq<Firing>, b: seq<Firing>, k: nat, handlers: Handlers)
    requires |a| == k + 1 && a <= b
    ensures Asked(b, k, handlers) <==> Asks(a, k, handlers) || Asked(b, k + 1, handlers)
  {
    assert a[k] == b[k];
    assert Asks(a, k, handlers) == Asks(b, k, handlers);
  }

  lemma FiredAtCons(log: seq<Firing>, p: PendingInterrupt, s: seq<PendingInterrupt>, now: int)
    ensures log + [Firing(p, now)] + FiredAt(s, now) == log + FiredAt([p] + s, now)
  {
    assert [Firing(p, now)] + FiredAt(s, now) == FiredAt([p] + s, now);
  }

  /** What the loop fires is exactly what was due when it began, each once and in order. */
  lemma {:induction false} FiresDues(e: Events, now: int, handlers: Handlers)
    requires Polite(handlers)
    ensures AllFired(e, now, handlers).fired == e.fired + FiredAt(Dues(e.pending, now), now)
    ensures !IsDue(AllFired(e, now, handlers), now)
    decreases |Dues(e.pending, now)|
  {
    if IsDue(e, now) {
      FrontDues(e, now, handlers);
      hide Polite, Dues, FrontFired, FiredAt;
      var f := FrontFired(e, now, handlers);
      FiresDues(f, now, handlers);
      FiredAtCons(e.fired, e.pending[0], Dues(f.pending, now), now);
    }
  }

  /** In a sorted queue that is all that are due at all. */
  lemma {:induction false} DuesExactly(s: seq<PendingInterrupt>, now: int, p: PendingInterrupt)
    requires Sorted(s, pendingCompare)
    ensures p in Dues(s, now) <==> p in s && p.when <= now
  {
    if s != [] {
      DuesExactly(s[1..], now, p);
      if s[0].when > now {
        assert forall i :: 0 < i < |s| ==> pendingCompare(s[0], s[i]) <= 0;
      } else {
        assert s == [s[0]] + s[1..];
      }
    }
  }

  // ---- the ledger ----------------------------------------------------------------------------------------

  function Whats(log: seq<Firing>): (s: seq<PendingInterrupt>)
    ensures |s| == |log| && forall k :: 0 <= k < |s| ==> s[k] == log[k].what
  {
    seq(|log|, k requires 0 <= k < |log| => log[k].what)
  }

  /** Whatever was scheduled has been fired or is pending, and serial numbers tell them all apart. */
  ghost predicate Ledger(e: Events) {
    && (forall k :: 0 <= k < |e.scheduled| ==> e.scheduled[k].serial == k)
    && multiset(e.scheduled) == multiset(Whats(e.fired)) + multiset(e.pending)
  }

  lemma {:induction false} InsertedOne(s: seq<PendingInterrupt>, p: PendingInterrupt)
    ensures multiset(Inserted(s, p, pendingCompare)) == multiset(s) + multiset{p}
  {
    if s == [] || pendingCompare(p, s[0]) < 0 {
    } else {
      InsertedOne(s[1..], p);
      assert s == [s[0]] + s[1..];
    }
  }

  lemma NotYet(e: Events, r: Request, now: int)
    requires Ledger(e)
    ensures Requested(e, r, now) !in e.pending
  {
    forall x | x in e.pending ensures x != Requested(e, r, now) {
      assert x in multiset(e.scheduled);
    }
  }

  lemma BookedLedger(e: Events, r: Request, now: int)
    requires Ledger(e)
    ensures Ledger(Booked(e, r, now))
  {
    InsertedOne(e.pending, Requested(e, r, now));
    hide Inserted, Whats;
  }

  lemma FrontLedger(e: Events, now: int)
    requires Ledger(e) && e.pending != []
    ensures forall r :: Ledger(Entered(e.(pending := e.pending[1..]), e.pending[0], now, r))
  {
    var p := e.pending[0];
    assert e.pending == [p] + e.pending[1..];
    assert Whats(e.fired + [Firing(p, now)]) == Whats(e.fired) + [p];
  }

  lemma {:induction false} DistinctCount(s: seq<PendingInterrupt>, k: nat)
    requires k < |s| && forall i :: 0 <= i < |s| ==> s[i].serial == i
    ensures multiset(s)[s[k]] == 1
  {
    assert s == s[..k] + [s[k]] + s[k + 1..];
    assert s[k] !in s[..k] && s[k] !in s[k + 1..];
  }

  lemma TwiceCount<T>(s: seq<T>, i: nat, j: nat)
    requires i < j < |s| && s[i] == s[j]
    ensures multiset(s)[s[i]] >= 2
  {
    assert s == s[..i] + [s[i]] + s[i + 1..j] + [s[j]] + s[j + 1..];
  }

  /** Fired once, that is, and not for the lack of another. */
  ghost predicate FiredOnce(log: seq<Firing>, p: PendingInterrupt) {
    exists j :: 0 <= j < |log| && log[j].what == p && forall i :: 0 <= i < |log| && i != j ==> log[i].what != p
  }

  /** What the ledger says of each interrupt that was ever scheduled: it is pending or fired, once and not both. */
  lemma OnceOnly(e: Events, k: nat)
    requires Ledger(e) && k < |e.scheduled|
    ensures var p := e.scheduled[k];
      && (p in e.pending <==> p !in Whats(e.fired))
      && (p in Whats(e.fired) ==> FiredOnce(e.fired, p))
      && (p in e.pending ==> multiset(e.pending)[p] == 1)
  {
    var p, all := e.scheduled[k], Whats(e.fired);
    DistinctCount(e.scheduled, k);
    assert multiset(all)[p] + multiset(e.pending)[p] == 1;
    if p in all {
      var j :| 0 <= j < |all| && all[j] == p;
      forall i | 0 <= i < |e.fired| && i != j ensures e.fired[i].what != p {
        if all[i] == p {
          TwiceCount(all, if i < j then i else j, if i < j then j else i);
        }
      }
    }
  }

  // ---- time --------------------------------------------------------------------------------------------

  /** What has happened so far: in order, never early, at most nine ticks late. */
  ghost predicate Log(fired: seq<Firing>, now: int) {
    && (forall k :: 0 <= k < |fired| ==> fired[k].what.when <= fired[k].at <= fired[k].what.when + SYSTEM_TICK - 1)
    && (forall k :: 0 <= k < |fired| ==> fired[k].at <= now)
    && (forall j, k :: 0 <= j < k < |fired| ==> fired[j].what.when <= fired[k].what.when && fired[j].at <= fired[k].at)
  }

  /** Nothing pending is due before what has been fired, or more than nine ticks overdue. */
  ghost predicate Waiting(s: seq<PendingInterrupt>, fired: seq<Firing>, now: int) {
    && (forall p :: p in s ==> p.when + SYSTEM_TICK - 1 >= now)
    && (forall p, k :: p in s && 0 <= k < |fired| ==> fired[k].what.when <= p.when)
  }

  ghost predicate Timely(e: Events, now: int) {
    Ledger(e) && Sorted(e.pending, pendingCompare) && Log(e.fired, now) && Waiting(e.pending, e.fired, now)
  }

  ghost predicate NoneDue(s: seq<PendingInterrupt>, now: int) {
    forall p :: p in s ==> p.when > now
  }

  lemma InsertedMembers(s: seq<PendingInterrupt>, p: PendingInterrupt, x: PendingInterrupt)
    ensures x in Inserted(s, p, pendingCompare) <==> x == p || x in s
  {
    var k := InsertedSomewhere(s, p, pendingCompare);
    assert s == s[..k] + s[k..];
  }

  lemma BookedKeeps(e: Events, r: Request, now: int)
    requires Timely(e, now) && r.fromNow > 0
    ensures Timely(Booked(e, r, now), now)
    ensures NoneDue(e.pending, now) ==> NoneDue(Booked(e, r, now).pending, now)
  {
    var p, n := Requested(e, r, now), Booked(e, r, now);
    BookedLedger(e, r, now);
    WhenRanks();
    InsertedSorted(e.pending, p, pendingCompare, (p: PendingInterrupt) => p.when);
    hide Inserted, Sorted, Ledger, Ranked, Waiting, NoneDue, Log;
    forall x ensures x in n.pending <==> x == p || x in e.pending {
      InsertedMembers(e.pending, p, x);
    }
    LaterWaits(e.pending, n.pending, p, e.fired, now);
  }

  lemma LaterWaits(s: seq<PendingInterrupt>, n: seq<PendingInterrupt>, p: PendingInterrupt, log: seq<Firing>, now: int)
    requires Log(log, now) && Waiting(s, log, now) && p.when > now && forall x :: x in n <==> x == p || x in s
    ensures Waiting(n, log, now) && (NoneDue(s, now) ==> NoneDue(n, now))
  {
  }

  lemma {:induction false} BookedAllKeeps(e: Events, requests: seq<Request>, now: int)
    requires Timely(e, now) && Ahead(requests)
    ensures Timely(BookedAll(e, requests, now), now)
  {
    hide Timely, Booked;
    if requests != [] {
      var n := |requests| - 1;
      BookedAllKeeps(e, requests[..n], now);
      BookedKeeps(BookedAll(e, requests[..n], now), requests[n], now);
    }
  }

  lemma FirstIsFirst(s: seq<PendingInterrupt>, p: PendingInterrupt)
    requires Sorted(s, pendingCompare) && p in s
    ensures s[0].when <= p.when
  {
    var k :| 0 <= k < |s| && s[k] == p;
    assert k > 0 ==> pendingCompare(s[0], s[k]) <= 0;
  }

  lemma RestSorted(s: seq<PendingInterrupt>)
    requires Sorted(s, pendingCompare) && s != []
    ensures Sorted(s[1..], pendingCompare) && forall p :: p in s[1..] ==> p in s && s[0].when <= p.when
  {
    forall p | p in s[1..] ensures p in s && s[0].when <= p.when {
      FirstIsFirst(s, p);
    }
  }

  lemma LogMore(log: seq<Firing>, s: seq<PendingInterrupt>, now: int)
    requires Log(log, now) && Waiting(s, log, now) && s != [] && s[0].when <= now
    ensures Log(log + [Firing(s[0], now)], now)
  {
    assert s[0] in s;
  }

  lemma RestWaiting(log: seq<Firing>, s: seq<PendingInterrupt>, now: int)
    requires Waiting(s, log, now) && s != [] && forall p :: p in s[1..] ==> p in s && s[0].when <= p.when
    ensures Waiting(s[1..], log + [Firing(s[0], now)], now)
  {
  }

  /** Off with the first. */
  lemma FrontTaken(e: Events, now: int)
    requires Timely(e, now) && IsDue(e, now)
    ensures forall r :: Timely(Entered(e.(pending := e.pending[1..]), e.pending[0], now, r), now)
  {
    FrontLedger(e, now);
    RestSorted(e.pending);
    LogMore(e.fired, e.pending, now);
    RestWaiting(e.fired, e.pending, now);
    hide Ledger, Sorted, Log, Waiting;
  }

  lemma FrontKeeps(e: Events, now: int, handlers: Handlers)
    requires Timely(e, now) && IsDue(e, now) && Polite(handlers)
    ensures Timely(FrontFired(e, now, handlers), now)
    ensures forall r :: Ledger(Entered(e.(pending := e.pending[1..]), e.pending[0], now, r))
  {
    FrontTaken(e, now);
    var p, rest := e.pending[0], e.(pending := e.pending[1..]);
    var response := handlers(p.callOnInterrupt, |e.fired|);
    assert Timely(Entered(rest, p, now, response), now);
    hide Timely, Entered;
    BookedAllKeeps(Entered(rest, p, now, response), response.requests, now);
  }

  lemma {:induction false} AllKeep(e: Events, now: int, handlers: Handlers)
    requires Timely(e, now) && Polite(handlers)
    ensures var n := AllFired(e, now, handlers); Timely(n, now) && NoneDue(n.pending, now)
    decreases |Dues(e.pending, now)|
  {
    if IsDue(e, now) {
      FrontKeeps(e, now, handlers);
      FrontDues(e, now, handlers);
      hide Timely, Dues, FrontFired, Polite;
      AllKeep(FrontFired(e, now, handlers), now, handlers);
    } else {
      forall p | p in e.pending ensures p.when > now {
        FirstIsFirst(e.pending, p);
      }
    }
  }

  /** After one tick nothing is more than nine ticks overdue. */
  lemma TimePasses(e: Events, now: int, ticks: nat)
    requires Timely(e, now) && NoneDue(e.pending, now) && ticks <= SYSTEM_TICK
    ensures Timely(e, now + ticks)
  {
    hide Ledger;
  }

  /** Nor after the clock has moved on to the first interrupt. */
  lemma TimeJumps(e: Events, now: int)
    requires Timely(e, now) && e.pending != [] && e.pending[0].when > now
    ensures Timely(e, e.pending[0].when)
  {
    forall p | p in e.pending ensures e.pending[0].when <= p.when {
      FirstIsFirst(e.pending, p);
    }
    hide Ledger;
  }

  lemma {:induction false} ScheduledHas(e: Events, p: PendingInterrupt) returns (k: nat)
    requires Ledger(e) && p in e.pending
    ensures k < |e.scheduled| && e.scheduled[k] == p
  {
    assert p in multiset(e.scheduled);
    k :| 0 <= k < |e.scheduled| && e.scheduled[k] == p;
  }

  lemma PrefixCount<T>(s: seq<T>, n: nat, x: T)
    requires n <= |s| && x in s[..n] && multiset(s)[x] == 1
    ensures multiset(s[..n])[x] == 1
  {
    assert s == s[..n] + s[n..];
  }

  lemma DueOnce(e: Events, now: int, p: PendingInterrupt)
    requires Ledger(e) && Sorted(e.pending, pendingCompare)
    ensures multiset(Dues(e.pending, now))[p] == if p in e.pending && p.when <= now then 1 else 0
  {
    hide Ledger, Sorted, Dues, Whats, FiredOnce;
    DuesExactly(e.pending, now, p);
    var dues := Dues(e.pending, now);
    if p in dues {
      var k := ScheduledHas(e, p);
      OnceOnly(e, k);
      PrefixCount(e.pending, |dues|, p);
    }
  }

  lemma FiredWhats(log: seq<Firing>, s: seq<PendingInterrupt>, now: int)
    ensures Whats((log + FiredAt(s, now))[|log|..]) == s
  {
  }

  /** What the loop fires, and calls the handler of: each interrupt that was pending and due when it began,
      once, and nothing else. */
  lemma FiresExactly(e: Events, now: int, handlers: Handlers, p: PendingInterrupt)
    requires Timely(e, now) && Polite(handlers)
    ensures var n := AllFired(e, now, handlers);
      && e.fired <= n.fired
      && multiset(Whats(n.fired[|e.fired|..]))[p] == if p in e.pending && p.when <= now then 1 else 0
  {
    hide AllFired, Dues, Log, Waiting, Sorted, Polite, Ledger, Whats, FiredAt;
    FiresDues(e, now, handlers);
    FiredWhats(e.fired, Dues(e.pending, now), now);
    DueOnce(e, now, p);
  }

  // ---- the whole machine -------------------------------------------------------------------------------

  datatype Clock = Clock(total: nat, idle: nat, system: nat, user: nat)

  datatype State = State(level: IntStatus, status: MachineStatus, clock: Clock, events: Events)

  /** One tick, on the clock of the mode the machine is in. */
  function Advanced(c: Clock, status: MachineStatus): Clock {
    if status == SystemMode then c.(total := c.total + SYSTEM_TICK, system := c.system + SYSTEM_TICK)
    else c.(total := c.total + USER_TICK, user := c.user + USER_TICK)
  }

  /** The clock moves on to the first pending interrupt, if that is later. */
  function MovedOn(c: Clock, e: Events): Clock {
    if e.pending != [] && e.pending[0].when > c.total then
      c.(idle := c.idle + (e.pending[0].when - c.total), total := e.pending[0].when)
    else c
  }

  /** CheckIfDue. */
  ghost function Checked(s: State, advanceClock: bool, handlers: Handlers): State
    requires Polite(handlers)
  {
    var clock := if advanceClock then MovedOn(s.clock, s.events) else s.clock;
    s.(clock := clock, events := AllFired(s.events, clock.total, handlers))
  }

  /** OneTick. If a handler asked for a context switch, this is where the thread gives up the processor, in
      system mode; it is back with setStatus of the mode it was in. */
  ghost function Ticked(s: State, handlers: Handlers): State
    requires Polite(handlers)
  {
    var n := Checked(s.(clock := Advanced(s.clock, s.status)), false, handlers);
    if n.events.yieldOnReturn then n.(status := SystemMode, events := n.events.(yieldOnReturn := false)) else n
  }

  ghost function LevelSet(s: State, now: IntStatus, handlers: Handlers): State
    requires Polite(handlers)
  {
    if now == IntOn && s.level == IntOff then Ticked(s.(level := IntOn), handlers) else s.(level := now)
  }

  /** Idle; with nothing pending the machine halts, and stays in idle mode. */
  ghost function Idled(s: State, handlers: Handlers): State
    requires Polite(handlers)
  {
    if s.events.pending == [] then s.(status := IdleMode)
    else Checked(s, true, handlers).(status := SystemMode)
  }

  /** What the rest of the machine does to it, in whatever order: instructions, turning interrupts on and off,
      entering and leaving user mode, having nothing to run, and devices that want to be called. */
  datatype Command = Tick | Set(now: IntStatus) | Mode(user: bool) | Sleep | Ask(request: Request)

  /** Until it halts; and instructions are only executed with interrupts on, threads only find nothing to run with
      interrupts off, and devices only ask for later. */
  predicate CanDo(s: State, c: Command) {
    && !s.status.IdleMode?
    && match c
       case Tick => s.level == IntOn
       case Sleep => s.level == IntOff
       case Ask(r) => r.fromNow > 0
       case _ => true
  }

  ghost function Performed(s: State, c: Command, handlers: Handlers): State
    requires Polite(handlers)
  {
    if !CanDo(s, c) then s
    else
      match c
      case Tick => Ticked(s, handlers)
      case Set(now) => LevelSet(s, now, handlers)
      case Mode(user) => s.(status := if user then UserMode else SystemMode)
      case Sleep => Idled(s, handlers)
      case Ask(r) => s.(events := Booked(s.events, r, s.clock.total))
  }

  /** Each command does its work whenever the machine has not halted and the interrupts are as it needs them. */
  lemma Does(s: State, handlers: Handlers, now: IntStatus, user: bool, r: Request)
    requires Polite(handlers) && !s.status.IdleMode?
    ensures s.level == IntOn ==> Performed(s, Tick, handlers) == Ticked(s, handlers)
    ensures s.level == IntOff ==> Performed(s, Sleep, handlers) == Idled(s, handlers)
    ensures Performed(s, Set(now), handlers) == LevelSet(s, now, handlers)
    ensures Performed(s, Mode(user), handlers) == s.(status := if user then UserMode else SystemMode)
    ensures r.fromNow > 0 ==>
              Performed(s, Ask(r), handlers) == s.(events := Booked(s.events, r, s.clock.total))
  {
    hide Ticked, Idled, LevelSet, Booked;
  }

  const BEGUN := State(IntOff, SystemMode, Clock(0, 0, 0, 0), Events([], [], [], false))

  ghost function RunOf(handlers: Handlers, commands: seq<Command>): State
    requires Polite(handlers)
  {
    if commands == [] then BEGUN
    else Performed(RunOf(handlers, commands[..|commands| - 1]), commands[|commands| - 1], handlers)
  }

  /** Between commands nothing is due, and the clocks add up. */
  ghost predicate Settled(s: State) {
    && Timely(s.events, s.clock.total) && NoneDue(s.events.pending, s.clock.total)
    && s.clock.total == s.clock.idle + s.clock.system + s.clock.user
  }

  /** A tick, and what is then due fired. */
  lemma TickedKeeps(s: State, handlers: Handlers)
    requires Settled(s) && Polite(handlers)
    ensures Timely(s.events, Advanced(s.clock, s.status).total)
    ensures Settled(Ticked(s, handlers))
  {
    hide Timely, NoneDue, Polite, AllFired;
    var now := Advanced(s.clock, s.status).total;
    TimePasses(s.events, s.clock.total, now - s.clock.total);
    AllKeep(s.events, now, handlers);
    TimelyUnasked(AllFired(s.events, now, handlers), now);
  }

  lemma TimelyUnasked(e: Events, now: int)
    ensures Timely(e.(yieldOnReturn := false), now) == Timely(e, now)
  {
  }

  lemma IdledKeeps(s: State, handlers: Handlers)
    requires Settled(s) && Polite(handlers)
    ensures Settled(Idled(s, handlers)) && Timely(s.events, s.clock.total)
    ensures s.events.pending != [] ==> Idled(s, handlers).clock.total == s.events.pending[0].when > s.clock.total
  {
    hide Timely, Polite, AllFired;
    if s.events.pending != [] {
      assert s.events.pending[0] in s.events.pending;
      TimeJumps(s.events, s.clock.total);
      AllKeep(s.events, s.events.pending[0].when, handlers);
    }
  }

  lemma AskedKeeps(s: State, r: Request)
    requires Settled(s) && r.fromNow > 0
    ensures Ledger(s.events) && Settled(s.(events := Booked(s.events, r, s.clock.total)))
  {
    hide Ledger, NoneDue, Sorted, Log, Waiting, Booked;
    BookedKeeps(s.events, r, s.clock.total);
  }

  lemma PerformedKeeps(s: State, c: Command, handlers: Handlers)
    requires Settled(s) && Polite(handlers)
    ensures Settled(Performed(s, c, handlers))
  {
    hide Timely, NoneDue, Polite, Checked, Ticked, Idled, Booked;
    if CanDo(s, c) {
      match c
      case Tick => TickedKeeps(s, handlers);
      case Set(now) =>
        if now == IntOn {
          TickedKeeps(s.(level := IntOn), handlers);
        }
      case Mode(_) =>
      case Sleep => IdledKeeps(s, handlers);
      case Ask(r) => AskedKeeps(s, r);
    }
  }

  lemma {:induction false} RunSettles(handlers: Handlers, commands: seq<Command>)
    requires Polite(handlers)
    ensures Settled(RunOf(handlers, commands))
  {
    if commands != [] {
      hide Settled, Performed, Polite;
      RunSettles(handlers, commands[..|commands| - 1]);
      PerformedKeeps(RunOf(handlers, commands[..|commands| - 1]), commands[|commands| - 1], handlers);
    }
  }

  /** Once, at its time or at most nine ticks after it. */
  ghost predicate FiredInTime(log: seq<Firing>, p: PendingInterrupt) {
    exists j :: 0 <= j < |log| && log[j].what == p && p.when <= log[j].at <= p.when + SYSTEM_TICK - 1
                && forall i :: 0 <= i < |log| && i != j ==> log[i].what != p
  }

  lemma InTime(log: seq<Firing>, p: PendingInterrupt, now: int)
    requires Log(log, now) && FiredOnce(log, p)
    ensures FiredInTime(log, p)
  {
  }

  /** In every run, whatever the handlers ask for: each interrupt that was ever scheduled is either pending
      still, once, and later than now; or its handler was called, once, at its time or at most nine ticks
      after it, and in the order of time. */
  lemma RunAccounts(handlers: Handlers, commands: seq<Command>, k: nat)
    requires Polite(handlers) && k < |RunOf(handlers, commands).events.scheduled|
    ensures var s := RunOf(handlers, commands); var p := s.events.scheduled[k];
      && p.serial == k && Log(s.events.fired, s.clock.total)
      && (p in s.events.pending <==> p !in Whats(s.events.fired))
      && (p in s.events.pending ==> p.when > s.clock.total)
      && (p in s.events.pending ==> multiset(s.events.pending)[p] == 1)
      && (p !in s.events.pending ==> FiredInTime(s.events.fired, p))
  {
    RunSettles(handlers, commands);
    hide Whats, Log, FiredOnce, FiredInTime, RunOf;
    var s := RunOf(handlers, commands);
    OnceOnly(s.events, k);
    if s.events.scheduled[k] !in s.events.pending {
      InTime(s.events.fired, s.events.scheduled[k], s.clock.total);
    }
  }

  /** And nothing else is pending or was fired. */
  lemma RunInvents(handlers: Handlers, commands: seq<Command>, p: PendingInterrupt)
    requires Polite(handlers)
    ensures var e := RunOf(handlers, commands).events; p in e.pending || p in Whats(e.fired) ==> p in e.scheduled
  {
    RunSettles(handlers, commands);
    var e := RunOf(handlers, commands).events;
    hide Whats, RunOf;
    assert p in multiset(e.scheduled) <==> p in multiset(Whats(e.fired)) + multiset(e.pending);
  }

  /** Does a command let a tick pass? */
  predicate Ticking(s: State, c: Command) {
    CanDo(s, c) && (c.Tick? || (c == Set(IntOn) && s.level == IntOff))
  }

  /** The modes in which the ticks of a run passed. */
  ghost function Modes(handlers: Handlers, commands: seq<Command>): seq<MachineStatus>
    requires Polite(handlers)
  {
    if commands == [] then []
    else
      var s := RunOf(handlers, commands[..|commands| - 1]);
      Modes(handlers, commands[..|commands| - 1]) + if Ticking(s, commands[|commands| - 1]) then [s.status] else []
  }

  lemma PerformedClock(s: State, c: Command, handlers: Handlers)
    requires Polite(handlers)
    ensures var n := Performed(s, c, handlers).clock;
      && n.system == s.clock.system + (if Ticking(s, c) && s.status == SystemMode then SYSTEM_TICK else 0)
      && n.user == s.clock.user + (if Ticking(s, c) && s.status == UserMode then USER_TICK else 0)
  {
    hide Polite, AllFired, Booked;
  }

  /** In every run the time is the sum of its parts, and system and user time are the ticks that passed in
      that mode. */
  lemma {:induction false} RunClocks(handlers: Handlers, commands: seq<Command>)
    requires Polite(handlers)
    ensures var c := RunOf(handlers, commands).clock;
      && c.total == c.idle + c.system + c.user
      && c.system == SYSTEM_TICK * multiset(Modes(handlers, commands))[SystemMode]
      && c.user == USER_TICK * multiset(Modes(handlers, commands))[UserMode]
  {
    RunSettles(handlers, commands);
    if commands != [] {
      var before, last := commands[..|commands| - 1], commands[|commands| - 1];
      RunClocks(handlers, before);
      PerformedClock(RunOf(handlers, before), last, handlers);
      hide Timely, NoneDue, Polite, Performed, Ticking;
    }
  }

  /** How many firings there had been by the end of the last tick. */
  ghost function Served(handlers: Handlers, commands: seq<Command>): nat
    requires Polite(handlers)
  {
    if commands == [] then 0
    else
      var before, last := commands[..|commands| - 1], commands[|commands| - 1];
      if Ticking(RunOf(handlers, before), last) then |RunOf(handlers, commands).events.fired|
      else Served(handlers, before)
  }

  lemma PerformedAsks(s: State, c: Command, handlers: Handlers)
    requires Polite(handlers)
    ensures var n := Performed(s, c, handlers);
      && s.events.fired <= n.events.fired
      && (Ticking(s, c) ==> !n.events.yieldOnReturn)
      && (!Ticking(s, c) ==>
            (n.events.yieldOnReturn <==> s.events.yieldOnReturn || Asked(n.events.fired, |s.events.fired|, handlers)))
  {
    hide Polite, AllFired, Asked;
    if CanDo(s, c) && c.Sleep? {
      LoopAsks(s.events, MovedOn(s.clock, s.events).total, handlers);
    } else if Ticking(s, c) {
      LoopAsks(s.events, Advanced(s.clock, s.status).total, handlers);
    }
    AskedNone(s.events.fired, handlers);
  }

  lemma AskedNone(fired: seq<Firing>, handlers: Handlers)
    ensures !Asked(fired, |fired|, handlers)
  {
  }

  lemma AskedSplit(a: seq<Firing>, b: seq<Firing>, from: nat, handlers: Handlers)
    requires a <= b && from <= |a|
    ensures Asked(b, from, handlers) <==> Asked(a, from, handlers) || Asked(b, |a|, handlers)
  {
    forall k | 0 <= k < |a| ensures Asks(a, k, handlers) == Asks(b, k, handlers) {
    }
    if Asked(b, from, handlers) {
      var k :| from <= k < |b| && Asks(b, k, handlers);
      assert k < |a| ==> Asks(a, k, handlers);
    }
    if Asked(a, from, handlers) {
      var k :| from <= k < |a| && Asks(a, k, handlers);
      assert Asks(b, k, handlers);
    }
  }

  /** In every run a context switch is wanted exactly if a handler called since the last tick has asked for one:
      no request outlives the next tick, and none is made up. */
  lemma {:induction false} RunServes(handlers: Handlers, commands: seq<Command>)
    requires Polite(handlers)
    ensures var e := RunOf(handlers, commands).events;
      Served(handlers, commands) <= |e.fired|
      && (e.yieldOnReturn <==> Asked(e.fired, Served(handlers, commands), handlers))
  {
    if commands != [] {
      hide Polite, Performed, Asked, Ticking;
      var before, last := commands[..|commands| - 1], commands[|commands| - 1];
      RunServes(handlers, before);
      var s, n := RunOf(handlers, before), RunOf(handlers, commands);
      PerformedAsks(s, last, handlers);
      AskedNone(n.events.fired, handlers);
      AskedSplit(s.events.fired, n.events.fired, Served(handlers, before), handlers);
    }
  }

  /** And a tick in which there was a request, or which has fired a handler that makes one, ends in a context
      switch; any other leaves the machine in the mode it was in. */
  lemma TickServes(s: State, c: Command, handlers: Handlers)
    requires Polite(handlers) && Ticking(s, c)
    ensures var n := Performed(s, c, handlers);
      && n.level == IntOn && !n.events.yieldOnReturn
      && n.status == if s.events.yieldOnReturn || Asked(n.events.fired, |s.events.fired|, handlers) then SystemMode
                     else s.status
  {
    hide Polite, AllFired, Asked;
    LoopAsks(s.events, Advanced(s.clock, s.status).total, handlers);
  }
}
