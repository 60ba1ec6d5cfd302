// The post offices of any number of machines, sending to the mailboxes of one host over lossy pipes,
// under every interleaving of senders, interrupts, the postal worker and receivers.
module PostOffices {
  import opened Collections
  import opened Codec
  import opened Semaphores
  import opened Network

  const MAX_MAIL_SIZE := MAX_PACKET_SIZE - HEADER_SIZE

  /** Mail: what a mailbox holds. */
  datatype Letter = Letter(pktHdr: WireHeader, mailHdr: WireHeader, data: seq<byte>)

  /** A letter as Send sends it: its ASSERTs, and the packet length it fills in. */
  predicate Postable(l: Letter) {
    && l.mailHdr.length <= MAX_MAIL_SIZE && 0 <= l.mailHdr.to && |l.data| == l.mailHdr.length
    && l.pktHdr.length == l.mailHdr.length + HEADER_SIZE
  }

  // ---- framing ---------------------------------------------------------------------------------------

  /** The payload of a letter's packet: mail header and data. */
  function Payload(l: Letter): seq<byte> {
    EncodeWireHeader(l.mailHdr) + l.data
  }

  /** The letter a packet header and a packet buffer spell. */
  function LetterIn(hdr: WireHeader, buffer: seq<byte>): Letter
    requires |buffer| == MAX_PACKET_SIZE
  {
    var mail := DecodeWireHeader(buffer[..HEADER_SIZE]);
    Letter(hdr, mail, if mail.length <= MAX_MAIL_SIZE then buffer[HEADER_SIZE..HEADER_SIZE + mail.length] else [])
  }

  function LetterOn(wire: seq<byte>): Letter
    requires |wire| == MAX_WIRE_SIZE
  {
    LetterIn(HeaderOf(wire), wire[HEADER_SIZE..])
  }

  /** Whatever the padding, the letter read off the wire is the letter sent. */
  lemma SentIsRead(l: Letter, wire: seq<byte>)
    requires Postable(l) && Carries(wire, l.pktHdr, Payload(l))
    ensures LetterOn(wire) == l
  {
    CarriedIntact(wire, l.pktHdr, Payload(l));
    WireHeaderRoundTrip(l.mailHdr);
    var body := wire[HEADER_SIZE..];
    assert body[..|Payload(l)|] == Payload(l);
    assert body[..HEADER_SIZE] == Payload(l)[..HEADER_SIZE] == EncodeWireHeader(l.mailHdr);
    assert body[HEADER_SIZE..HEADER_SIZE + |l.data|] == Payload(l)[HEADER_SIZE..] == l.data;
  }

  /** A letter survives a bcopy of as many bytes as its packet header tells. */
  lemma CopiedLetter(hdr: WireHeader, from: seq<byte>, to: seq<byte>)
    requires |from| == MAX_PACKET_SIZE == |to| && Postable(LetterIn(hdr, from))
    ensures LetterIn(hdr, Overlaid(to, from[..hdr.length])) == LetterIn(hdr, from)
  {
    var n := Overlaid(to, from[..hdr.length]);
    var mail := DecodeWireHeader(from[..HEADER_SIZE]);
    assert n[..HEADER_SIZE] == from[..HEADER_SIZE];
    assert n[HEADER_SIZE..HEADER_SIZE + mail.length] == from[HEADER_SIZE..HEADER_SIZE + mail.length];
  }

  /** PostOfficeOutput::Send up to the lock: the packet it hands to the network spells the letter. */
  method Concatenate(pktHdr: WireHeader, mailHdr: WireHeader, data: array<byte>, hostname: int32)
    returns (hdr: WireHeader, buffer: array<byte>)
    requires mailHdr.length <= MAX_MAIL_SIZE && 0 <= mailHdr.to && mailHdr.length <= data.Length
    ensures fresh(buffer) && buffer.Length == MAX_PACKET_SIZE
    ensures hdr.to == pktHdr.to && hdr.from == hostname && Postable(LetterIn(hdr, buffer[..]))
    ensures LetterIn(hdr, buffer[..]) == Letter(hdr, mailHdr, data[..mailHdr.length])
    ensures buffer[..hdr.length] == Payload(LetterIn(hdr, buffer[..]))
    ensures hdr.length == 12 + mailHdr.length && buffer[12..hdr.length] == data[..mailHdr.length]
    ensures Unsigned(mailHdr.to) == WordAt(buffer[..], 0) && Unsigned(mailHdr.from) == WordAt(buffer[..], 4)
            && mailHdr.length == WordAt(buffer[..], 8)
  {
    buffer := new byte[MAX_PACKET_SIZE];
    hdr := WireHeader(pktHdr.to, hostname, mailHdr.length + HEADER_SIZE);
    var front := EncodeWireHeader(mailHdr);
    forall k | 0 <= k < HEADER_SIZE { buffer[k] := front[k]; }
    forall k | 0 <= k < mailHdr.length { buffer[HEADER_SIZE + k] := data[k]; }
    assert buffer[..][..HEADER_SIZE] == front;
    assert buffer[..][HEADER_SIZE..HEADER_SIZE + mailHdr.length] == data[..mailHdr.length];
    WireHeaderRoundTrip(mailHdr);
    WireLayout(front);
    hide WordAt, Unsigned, DecodeWireHeader, EncodeWireHeader;
    assert WordAt(buffer[..], 0) == WordAt(front, 0) && WordAt(buffer[..], 4) == WordAt(front, 4)
           && WordAt(buffer[..], 8) == WordAt(front, 8);
  }

  // ---- sending -----------------------------------------------------------------------------------------

  /** The next step of a thread in PostOfficeOutput::Send. */
  datatype Sender = Idle | Locking(letter: Letter) | Handing(letter: Letter) | Awaiting | Unlocking

  /** One machine's output: sendLock's holder, the value of messageSent, the send interrupts in its event
      queue, and its threads. */
  datatype Office = Office(holder: Option<Tid>, messageSent: nat, pending: nat, threads: map<Tid, Sender>)

  datatype SendStep = Compose(letter: Letter) | Lock | Hand | Await | Unlock

  predicate Able(o: Office, machine: int32, t: Tid, step: SendStep) {
    t in o.threads &&
    match step
    case Compose(l) => o.threads[t].Idle? && Postable(l) && l.pktHdr.from == machine
    case Lock => o.threads[t].Locking? && o.holder.None?
    case Hand => o.threads[t].Handing?
    case Await => o.threads[t].Awaiting? && o.messageSent > 0
    case Unlock => o.threads[t].Unlocking?
  }

  function Acted(o: Office, t: Tid, step: SendStep): Office
    requires t in o.threads && (step.Lock? ==> o.threads[t].Locking?) && (step.Await? ==> o.messageSent > 0)
  {
    match step
    case Compose(l) => o.(threads := o.threads[t := Locking(l)])
    case Lock => o.(holder := Some(t), threads := o.threads[t := Handing(o.threads[t].letter)])
    case Hand => o.(pending := o.pending + 1, threads := o.threads[t := Awaiting])
    case Await => o.(messageSent := o.messageSent - 1, threads := o.threads[t := Unlocking])
    case Unlock => o.(holder := None, threads := o.threads[t := Idle])
  }

  /** NetworkOutput::CallBack, and in it PostOfficeOutput::CallBack. */
  function Acknowledged(o: Office): Office
    requires o.pending > 0
  {
    o.(pending := o.pending - 1, messageSent := o.messageSent + 1)
  }

  predicate InSend(s: Sender) {
    s.Handing? || s.Awaiting? || s.Unlocking?
  }

  /** One packet at a time: an interrupt is pending, or has come, exactly while the lock's holder awaits it. */
  ghost predicate OfficeOk(o: Office, machine: int32) {
    && (forall t :: o.holder == Some(t) <==> t in o.threads && InSend(o.threads[t]))
    && o.pending + o.messageSent ==
       (if o.holder.Some? && o.holder.value in o.threads && o.threads[o.holder.value].Awaiting? then 1 else 0)
    && (forall t :: t in o.threads && (o.threads[t].Locking? || o.threads[t].Handing?) ==>
          Postable(o.threads[t].letter) && o.threads[t].letter.pktHdr.from == machine)
  }

  lemma OfficeKeeps(o: Office, machine: int32, t: Tid, step: SendStep)
    requires OfficeOk(o, machine) && Able(o, machine, t, step)
    ensures OfficeOk(Acted(o, t, step), machine)
  {
    hide Postable;
    assert InSend(o.threads[t]) ==> o.holder == Some(t);
  }

  /** The ASSERTs of NetworkOutput::Send, and that the packet before has been acknowledged. */
  lemma OneAtATime(o: Office, machine: int32, t: Tid)
    requires OfficeOk(o, machine) && Able(o, machine, t, Hand)
    ensures o.pending == 0 && o.messageSent == 0
    ensures var hdr := o.threads[t].letter.pktHdr; 0 < hdr.length <= MAX_PACKET_SIZE && hdr.from == machine
    ensures forall u :: u in o.threads && InSend(o.threads[u]) ==> u == t
  {
    assert o.holder == Some(t);
  }

  // ---- the receiving host ----------------------------------------------------------------------------------

  /** The postal worker: in messageAvailable->P, about to call Receive, or with a packet in its buffer. */
  datatype Worker = Waiting | Fetching | Sorting(hdr: WireHeader)

  /** All machines' outputs, the host's pipe and its post office, and the history of letters: handed to the
      network, not lost, put in a box, taken from each box. */
  datatype World = World(
    offices: map<int32, Office>, pipe: seq<seq<byte>>,
    inHdr: WireHeader, inbox: seq<byte>, available: nat, worker: Worker, buffer: seq<byte>,
    boxes: seq<seq<Letter>>, halted: bool,
    posted: seq<Letter>, kept: seq<Letter>, read: seq<Letter>, sorted: seq<Letter>, taken: seq<seq<Letter>>)

  datatype Event =
    | Send(machine: int32, t: Tid, step: SendStep, wire: seq<byte>, lost: bool)
    | Acknowledge(machine: int32)
    | Poll
    | Wake
    | Fetch
    | Sort
    | Take(box: nat)

  predicate Whole(w: World) {
    |w.inbox| == MAX_PACKET_SIZE && |w.buffer| == MAX_PACKET_SIZE && |w.taken| == |w.boxes|
  }

  /** `wire` is what Send of NetworkOutput builds, with any padding. */
  predicate Possible(w: World, e: Event) {
    match e
    case Send(m, t, step, wire, _) =>
      && m in w.offices && Able(w.offices[m], m, t, step)
      && (step.Hand? ==> Carries(wire, w.offices[m].threads[t].letter.pktHdr, Payload(w.offices[m].threads[t].letter)))
    case Acknowledge(m) => m in w.offices && w.offices[m].pending > 0
    case Poll => !w.halted && w.inHdr.length == 0 && w.pipe != [] && |w.pipe[0]| == MAX_WIRE_SIZE
      && HeaderOf(w.pipe[0]).length <= MAX_PACKET_SIZE
    case Wake => !w.halted && w.worker.Waiting? && w.available > 0
    case Fetch => !w.halted && w.worker.Fetching? && w.inHdr.length <= MAX_PACKET_SIZE
    case Sort => !w.halted && w.worker.Sorting?
    case Take(b) => !w.halted && b < |w.boxes| && w.boxes[b] != []
  }

  function Handed(w: World, host: int32, l: Letter, wire: seq<byte>, lost: bool): World {
    if l.pktHdr.to != host then w
    else if lost then w.(posted := w.posted + [l])
    else w.(posted := w.posted + [l], kept := w.kept + [l], pipe := w.pipe + [wire])
  }

  /** NetworkInput::CallBack with an empty inbox and a packet to read. */
  function Polled(w: World): World
    requires Whole(w) && Possible(w, Poll)
  {
    var wire := w.pipe[0];
    w.(pipe := w.pipe[1..], inHdr := HeaderOf(wire), inbox := Overlaid(w.inbox, BodyOf(wire)),
       available := w.available + 1, read := w.read + [LetterOn(wire)])
  }

  /** NetworkInput::Receive, called by the worker. */
  function Fetched(w: World): World
    requires Whole(w) && Possible(w, Fetch)
  {
    w.(worker := Sorting(w.inHdr), inHdr := w.inHdr.(length := 0),
      buffer := Overlaid(w.buffer, w.inbox[..w.inHdr.length]))
  }

  /** The worker's ASSERT on the box, and Put. */
  function Sorted(w: World): World
    requires Whole(w) && Possible(w, Sort)
  {
    var l := LetterIn(w.worker.hdr, w.buffer);
    var b := l.mailHdr.to;
    if 0 <= b < |w.boxes| then
      w.(boxes := w.boxes[b := w.boxes[b] + [l]], sorted := w.sorted + [l], worker := Waiting)
    else
      w.(halted := true)
  }

  function Taken(w: World, b: nat): World
    requires Whole(w) && Possible(w, Take(b))
  {
    w.(taken := w.taken[b := w.taken[b] + [w.boxes[b][0]]], boxes := w.boxes[b := w.boxes[b][1..]])
  }

  function After(w: World, host: int32, e: Event): World
    requires Whole(w) && Possible(w, e)
  {
    match e
    case Send(m, t, step, wire, lost) =>
      var o := w.offices[m];
      var n := w.(offices := w.offices[m := Acted(o, t, step)]);
      if step.Hand? then Handed(n, host, o.threads[t].letter, wire, lost) else n
    case Acknowledge(m) => w.(offices := w.offices[m := Acknowledged(w.offices[m])])
    case Poll => Polled(w)
    case Wake => w.(available := w.available - 1, worker := Fetching)
    case Fetch => Fetched(w)
    case Sort => Sorted(w)
    case Take(b) => Taken(w, b)
  }

  // ---- the invariant -----------------------------------------------------------------------------------------

  /** `a` can be had from `b` by leaving letters out. */
  ghost predicate Thinned<T>(a: seq<T>, b: seq<T>) {
    if b == [] then a == []
    else Thinned(a, b[..|b| - 1]) || (a != [] && a[|a| - 1] == b[|b| - 1] && Thinned(a[..|a| - 1], b[..|b| - 1]))
  }

  /** The letters for box `b`, in order. */
  function For(s: seq<Letter>, b: int): seq<Letter> {
    if s == [] then []
    else For(s[..|s| - 1], b) + if s[|s| - 1].mailHdr.to == b then [s[|s| - 1]] else []
  }

  function Letters(pipe: seq<seq<byte>>): (s: seq<Letter>)
    requires forall i :: 0 <= i < |pipe| ==> |pipe[i]| == MAX_WIRE_SIZE
    ensures |s| == |pipe|
  {
    seq(|pipe|, i requires 0 <= i < |pipe| => LetterOn(pipe[i]))
  }

  /** The letter in the worker's hands, and the one in the inbox. */
  function Hands(w: World): seq<Letter>
    requires Whole(w)
  {
    if w.worker.Sorting? then [LetterIn(w.worker.hdr, w.buffer)] else []
  }

  function Inbox(w: World): seq<Letter>
    requires Whole(w)
  {
    if w.inHdr.length != 0 then [LetterIn(w.inHdr, w.inbox)] else []
  }

  ghost predicate PipeOk(pipe: seq<seq<byte>>, host: int32) {
    forall i :: 0 <= i < |pipe| ==>
      |pipe[i]| == MAX_WIRE_SIZE && Postable(LetterOn(pipe[i])) && HeaderOf(pipe[i]).to == host
  }

  /** What is on its way is intact, and no packet is told of twice or not at all. */
  ghost predicate OnTheWay(w: World, host: int32)
    requires Whole(w)
  {
    && PipeOk(w.pipe, host)
    && (forall l :: l in Inbox(w) + Hands(w) ==> Postable(l))
    && w.available + (if w.worker.Fetching? then 1 else 0) == |Inbox(w)|
    && (w.halted ==> w.worker.Sorting? && LetterIn(w.worker.hdr, w.buffer).mailHdr.to >= |w.boxes|)
  }

  /** Nothing is lost but on the wire, nothing duplicated or reordered. */
  ghost predicate Conserved(w: World)
    requires Whole(w) && forall i :: 0 <= i < |w.pipe| ==> |w.pipe[i]| == MAX_WIRE_SIZE
  {
    && Thinned(w.kept, w.posted)
    && w.kept == w.read + Letters(w.pipe)
    && w.read == w.sorted + Hands(w) + Inbox(w)
    && (forall b :: 0 <= b < |w.boxes| ==> w.taken[b] + w.boxes[b] == For(w.sorted, b))
  }

  ghost predicate OfficesOk(offices: map<int32, Office>) {
    forall m :: m in offices ==> OfficeOk(offices[m], m)
  }

  ghost predicate Inv(w: World, host: int32) {
    OfficesOk(w.offices) && Whole(w) && OnTheWay(w, host) && Conserved(w)
  }

  // ---- sequences -----------------------------------------------------------------------------------------------

  lemma ThinnedMore<T>(a: seq<T>, b: seq<T>, x: T)
    requires Thinned(a, b)
    ensures Thinned(a, b + [x]) && Thinned(a + [x], b + [x])
  {
    assert (b + [x])[..|b|] == b && (a + [x])[..|a|] == a;
  }

  lemma {:induction false} ThinnedPrefix<T>(a: seq<T>, c: seq<T>, b: seq<T>)
    requires Thinned(a + c, b)
    ensures Thinned(a, b)
  {
    if b == [] {
      assert a + c == [];
    } else {
      var d := b[..|b| - 1];
      if Thinned(a + c, d) {
        ThinnedPrefix(a, c, d);
      } else if c != [] {
        assert (a + c)[..|a + c| - 1] == a + c[..|c| - 1];
        ThinnedPrefix(a, c[..|c| - 1], d);
      } else {
        assert a + c == a;
      }
    }
  }

  lemma {:induction false} ThinnedFor(a: seq<Letter>, b: seq<Letter>, box: int)
    requires Thinned(a, b)
    ensures Thinned(For(a, box), For(b, box))
  {
    if b != [] {
      var d, x := b[..|b| - 1], b[|b| - 1];
      assert d + [x] == b;
      ForOne(d, x, box);
      if Thinned(a, d) {
        ThinnedFor(a, d, box);
        ThinnedMore(For(a, box), For(d, box), x);
        assert For(d, box) + [] == For(d, box);
      } else {
        var c := a[..|a| - 1];
        assert c + [x] == a;
        ForOne(c, x, box);
        ThinnedFor(c, d, box);
        ThinnedMore(For(c, box), For(d, box), x);
        assert For(d, box) + [] == For(d, box) && For(c, box) + [] == For(c, box);
      }
    }
  }

  lemma {:induction false} ForConcat(a: seq<Letter>, c: seq<Letter>, box: int)
    ensures For(a + c, box) == For(a, box) + For(c, box)
  {
    if c == [] {
      assert a + c == a;
    } else {
      var d, x := c[..|c| - 1], c[|c| - 1];
      assert (a + c)[..|a + c| - 1] == a + d && (a + c)[|a + c| - 1] == x;
      ForConcat(a, d, box);
    }
  }

  lemma ForOne(s: seq<Letter>, l: Letter, box: int)
    ensures For(s + [l], box) == For(s, box) + if l.mailHdr.to == box then [l] else []
  {
    assert (s + [l])[..|s|] == s;
  }

  // ---- every step keeps the invariant ------------------------------------------------------------------------------

  lemma HandedKeeps(w: World, host: int32, l: Letter, wire: seq<byte>, lost: bool)
    requires Whole(w) && OnTheWay(w, host) && Conserved(w)
    requires Postable(l) && Carries(wire, l.pktHdr, Payload(l))
    ensures var n := Handed(w, host, l, wire, lost);
      Whole(n) && OnTheWay(n, host) && Conserved(n) && n.offices == w.offices
  {
    SentIsRead(l, wire);
    CarriedIntact(wire, l.pktHdr, Payload(l));
    ThinnedMore(w.kept, w.posted, l);
    hide Carries, Payload, LetterIn, LetterOn, HeaderOf, Thinned, Postable, For;
    if l.pktHdr.to == host && !lost {
      PutOnWire(w, host, l, wire);
    }
  }

  lemma PutOnWire(w: World, host: int32, l: Letter, wire: seq<byte>)
    requires Whole(w) && OnTheWay(w, host) && Conserved(w)
    requires |wire| == MAX_WIRE_SIZE && LetterOn(wire) == l && Postable(l) && HeaderOf(wire).to == host
    requires Thinned(w.kept + [l], w.posted + [l])
    ensures var n := w.(posted := w.posted + [l], kept := w.kept + [l], pipe := w.pipe + [wire]);
      Whole(n) && OnTheWay(n, host) && Conserved(n)
  {
    hide LetterIn, LetterOn, HeaderOf, Thinned, Postable, For;
    var n := w.(posted := w.posted + [l], kept := w.kept + [l], pipe := w.pipe + [wire]);
    assert Hands(n) == Hands(w) && Inbox(n) == Inbox(w);
    assert Letters(n.pipe) == Letters(w.pipe) + [l];
  }

  lemma PipeTail(pipe: seq<seq<byte>>, host: int32)
    requires PipeOk(pipe, host) && pipe != []
    ensures PipeOk(pipe[1..], host)
  {
    hide LetterOn, HeaderOf, Postable;
  }

  /** The letter in the inbox after CallBack. */
  lemma PolledLetter(w: World, host: int32)
    requires Inv(w, host) && Possible(w, Poll)
    ensures var l := LetterOn(w.pipe[0]);
      Postable(l) && Polled(w).inHdr.length != 0 && LetterIn(Polled(w).inHdr, Polled(w).inbox) == l
  {
    hide Conserved, OfficesOk;
    var wire := w.pipe[0];
    assert Postable(LetterOn(wire));
    CopiedLetter(HeaderOf(wire), wire[HEADER_SIZE..], w.inbox);
    assert wire[HEADER_SIZE..][..HeaderOf(wire).length] == BodyOf(wire);
  }

  lemma PolledKeeps(w: World, host: int32)
    requires Inv(w, host) && Possible(w, Poll)
    ensures var n := Polled(w); Whole(n) && OnTheWay(n, host) && Conserved(n)
  {
    hide LetterIn, Overlaid, BodyOf, HeaderOf, Postable;
    var n, wire := Polled(w), w.pipe[0];
    var l := LetterOn(wire);
    PolledLetter(w, host);
    assert Inbox(n) == [l] && Inbox(w) == [] && Hands(n) == Hands(w);
    PipeTail(w.pipe, host);
    assert n.read == n.sorted + Hands(n) + Inbox(n);
    assert Letters(w.pipe) == [l] + Letters(n.pipe);
    assert n.kept == n.read + Letters(n.pipe);
  }

  lemma FetchedKeeps(w: World, host: int32)
    requires Inv(w, host) && Possible(w, Fetch)
    ensures var n := Fetched(w); Whole(n) && OnTheWay(n, host) && Conserved(n)
  {
    var n := Fetched(w);
    assert |Inbox(w)| == 1;
    assert Inbox(w)[0] in Inbox(w) + Hands(w);
    CopiedLetter(w.inHdr, w.inbox, w.buffer);
    assert Inbox(n) == [] && Hands(n) == Inbox(w) && Hands(w) == [];
  }

  lemma SortedKeeps(w: World, host: int32)
    requires Inv(w, host) && Possible(w, Sort)
    ensures var n := Sorted(w); Whole(n) && OnTheWay(n, host) && Conserved(n)
  {
    hide LetterIn, Thinned, For, PipeOk, OfficesOk;
    var n, l := Sorted(w), LetterIn(w.worker.hdr, w.buffer);
    assert Hands(w)[0] == l && l in Inbox(w) + Hands(w);
    assert Postable(l);
    if n.worker.Waiting? {
      assert n.sorted + Hands(n) + Inbox(n) == w.sorted + Hands(w) + Inbox(w);
      forall b | 0 <= b < |n.boxes| ensures n.taken[b] + n.boxes[b] == For(n.sorted, b) {
        ForOne(w.sorted, l, b);
        assert w.taken[b] + w.boxes[b] == For(w.sorted, b);
      }
    }
  }

  lemma TakenKeeps(w: World, host: int32, b: nat)
    requires Inv(w, host) && Possible(w, Take(b))
    ensures var n := Taken(w, b); Whole(n) && OnTheWay(n, host) && Conserved(n)
  {
    hide LetterIn, Thinned, For, PipeOk, Postable;
    var n := Taken(w, b);
    assert Hands(n) == Hands(w) && Inbox(n) == Inbox(w);
    forall c | 0 <= c < |n.boxes| ensures n.taken[c] + n.boxes[c] == For(n.sorted, c) {
      assert w.taken[c] + w.boxes[c] == For(w.sorted, c);
    }
  }

  lemma WokenKeeps(w: World, host: int32)
    requires Inv(w, host) && Possible(w, Wake)
    ensures var n := After(w, host, Wake); Whole(n) && OnTheWay(n, host) && Conserved(n)
  {
  }

  lemma OfficesApart(w: World, host: int32, offices: map<int32, Office>)
    requires Inv(w, host)
    ensures var n := w.(offices := offices); Whole(n) && OnTheWay(n, host) && Conserved(n)
  {
  }

  lemma SendKeeps(w: World, host: int32, m: int32, t: Tid, step: SendStep, wire: seq<byte>, lost: bool)
    requires Inv(w, host) && Possible(w, Send(m, t, step, wire, lost))
    ensures Inv(After(w, host, Send(m, t, step, wire, lost)), host)
  {
    hide Acted, OnTheWay, Conserved, Handed, Postable, Carries;
    OfficeKeeps(w.offices[m], m, t, step);
    var o := w.offices[m := Acted(w.offices[m], t, step)];
    OfficesApart(w, host, o);
    assert OfficesOk(o) by { hide OfficeOk; }
    if step.Hand? {
      HandedKeeps(w.(offices := o), host, w.offices[m].threads[t].letter, wire, lost);
    }
  }

  lemma AcknowledgeKeeps(w: World, host: int32, m: int32)
    requires Inv(w, host) && Possible(w, Acknowledge(m))
    ensures Inv(After(w, host, Acknowledge(m)), host)
  {
    hide OnTheWay, Conserved;
    OfficesApart(w, host, w.offices[m := Acknowledged(w.offices[m])]);
  }

  lemma StepKeeps(w: World, host: int32, e: Event)
    requires Inv(w, host) && Possible(w, e)
    ensures Inv(After(w, host, e), host)
  {
    hide OfficesOk, OnTheWay, Conserved, Handed, Postable, Carries;
    match e
    case Send(m, t, step, wire, lost) => SendKeeps(w, host, m, t, step, wire, lost);
    case Acknowledge(m) => AcknowledgeKeeps(w, host, m);
    case Poll => PolledKeeps(w, host);
    case Wake => WokenKeeps(w, host);
    case Fetch => FetchedKeeps(w, host);
    case Sort => SortedKeeps(w, host);
    case Take(b) => TakenKeeps(w, host, b);
  }

  // ---- runs -------------------------------------------------------------------------------------------------------

  /** No thread in Send, nothing in the pipe, the inbox and the boxes empty. */
  predicate Started(w: World) {
    && (forall m :: m in w.offices ==>
          var o := w.offices[m];
          o.holder.None? && o.messageSent == 0 && o.pending == 0 && forall t :: t in o.threads ==> o.threads[t].Idle?)
    && |w.inbox| == |w.buffer| == MAX_PACKET_SIZE && w.pipe == [] && w.inHdr.length == 0
    && w.available == 0 && w.worker.Waiting? && !w.halted
    && (forall b :: 0 <= b < |w.boxes| ==> w.boxes[b] == [])
    && w.posted == w.kept == w.read == w.sorted == [] && w.taken == w.boxes
  }

  /** Events that are not possible when their turn comes do nothing. */
  function Run(w: World, host: int32, events: seq<Event>): World {
    if events == [] then w
    else
      var n := Run(w, host, events[..|events| - 1]);
      var e := events[|events| - 1];
      if Whole(n) && Possible(n, e) then After(n, host, e) else n
  }

  lemma {:induction false} RunKeeps(w: World, host: int32, events: seq<Event>)
    requires Started(w)
    ensures Inv(Run(w, host, events), host)
  {
    if events == [] {
      assert Letters(w.pipe) == [];
    } else {
      RunKeeps(w, host, events[..|events| - 1]);
      var n := Run(w, host, events[..|events| - 1]);
      if Possible(n, events[|events| - 1]) {
        StepKeeps(n, host, events[|events| - 1]);
      }
    }
  }

  lemma Delivers(n: World, host: int32, b: nat)
    requires Inv(n, host) && b < |n.boxes|
    ensures n.taken[b] + n.boxes[b] + For(Hands(n), b) + For(Inbox(n), b) == For(n.read, b)
    ensures Thinned(n.taken[b], For(n.posted, b))
  {
    EndToEnd(n.posted, n.sorted, Hands(n), Inbox(n), Letters(n.pipe), n.taken[b], n.boxes[b], b);
  }

  lemma EndToEnd(posted: seq<Letter>, sorted: seq<Letter>, hands: seq<Letter>, inbox: seq<Letter>, pipe: seq<Letter>,
                 taken: seq<Letter>, box: seq<Letter>, b: nat)
    requires Thinned(sorted + hands + inbox + pipe, posted) && taken + box == For(sorted, b)
    ensures taken + box + For(hands, b) + For(inbox, b) == For(sorted + hands + inbox, b)
    ensures Thinned(taken, For(posted, b))
  {
    hide *;
    var kept := sorted + hands + inbox + pipe;
    ForConcat(sorted + hands + inbox, pipe, b);
    ForConcat(sorted + hands, inbox, b);
    ForConcat(sorted, hands, b);
    ThinnedFor(kept, posted, b);
    var rest := box + For(hands, b) + For(inbox, b) + For(pipe, b);
    assert taken + rest == taken + box + For(hands, b) + For(inbox, b) + For(pipe, b);
    ThinnedPrefix(taken, rest, For(posted, b));
  }

  /** In every run, for every box: what receivers took, what is queued, what the worker holds and what is in
      the inbox are, end to end, the letters read for the box; and those taken are letters posted to it, in
      order and intact. */
  lemma RunDelivers(w: World, host: int32, events: seq<Event>, b: nat)
    requires Started(w) && b < |Run(w, host, events).boxes|
    ensures var n := Run(w, host, events);
      && Whole(n)
      && n.taken[b] + n.boxes[b] + For(Hands(n), b) + For(Inbox(n), b) == For(n.read, b)
      && Thinned(n.taken[b], For(n.posted, b))
  {
    RunKeeps(w, host, events);
    hide *;
    Delivers(Run(w, host, events), host, b);
  }

  /** Nothing is dropped inside a machine: once pipe, inbox and worker are empty, every letter the wire did
      not lose is in its box or has been taken from it. */
  lemma RunLosesNothing(w: World, host: int32, events: seq<Event>, b: nat)
    requires Started(w)
    requires var n := Run(w, host, events);
      b < |n.boxes| && n.pipe == [] && n.inHdr.length == 0 && !n.worker.Sorting?
    ensures var n := Run(w, host, events); Whole(n) && n.taken[b] + n.boxes[b] == For(n.kept, b)
  {
    RunKeeps(w, host, events);
    var n := Run(w, host, events);
    hide Run, After, Started, PipeOk, OfficesOk, LetterIn;
    assert Letters(n.pipe) == [] && Hands(n) == [] && Inbox(n) == [];
    assert n.kept == n.sorted;
  }

  /** In every run: CallBack's ASSERT holds and the inbox is free when a packet is put in it; Receive gets a
      packet whenever it is called; one send interrupt at most is pending on each machine. */
  lemma RunProtocol(w: World, host: int32, events: seq<Event>)
    requires Started(w)
    ensures var n := Run(w, host, events);
      && Whole(n)
      && (n.pipe != [] ==> Meant(n.pipe[0], host))
      && (n.worker.Fetching? ==> 0 < n.inHdr.length <= MAX_PACKET_SIZE)
      && (n.available > 0 ==> n.inHdr.length != 0)
      && (forall m :: m in n.offices ==> n.offices[m].pending <= 1)
  {
    RunKeeps(w, host, events);
    var n := Run(w, host, events);
    hide Run, After, Started;
    Ready(n, host);
    forall m | m in n.offices ensures n.offices[m].pending <= 1 {
      assert OfficeOk(n.offices[m], m);
    }
  }

  /** With nothing left for the interrupts and the worker to do, there is nothing left on the way: every letter the
      wire did not lose is in its box or has been taken from it, unless the host has halted. */
  lemma RunQuiet(w: World, host: int32, events: seq<Event>, b: nat)
    requires Started(w)
    requires var n := Run(w, host, events);
      && b < |n.boxes| && !n.halted
      && !Possible(n, Poll) && !Possible(n, Wake) && !Possible(n, Fetch) && !Possible(n, Sort)
    ensures var n := Run(w, host, events); Whole(n) && n.taken[b] + n.boxes[b] == For(n.kept, b)
    ensures var n := Run(w, host, events); Possible(n, Take(b)) || n.taken[b] == For(n.kept, b)
  {
    hide Run, Started, Possible, Inv;
    RunKeeps(w, host, events);
    Quiet(Run(w, host, events), host);
    TakeOrEmpty(Run(w, host, events), b);
    RunLosesNothing(w, host, events, b);
  }

  lemma TakeOrEmpty(w: World, b: nat)
    requires b < |w.boxes| && !w.halted
    ensures Possible(w, Take(b)) || w.boxes[b] == []
  {
  }

  predicate QuietHost(w: World) {
    w.pipe == [] && w.inHdr.length == 0 && w.worker.Waiting?
  }

  lemma Quiet(w: World, host: int32)
    requires Inv(w, host) && !w.halted
    requires !Possible(w, Poll) && !Possible(w, Wake) && !Possible(w, Fetch) && !Possible(w, Sort)
    ensures QuietHost(w)
  {
    Ready(w, host);
    hide Conserved, OfficesOk, PipeOk, Postable, LetterIn, LetterOn;
  }

  lemma Ready(w: World, host: int32)
    requires Inv(w, host)
    ensures w.inHdr.length <= MAX_PACKET_SIZE && (w.pipe != [] ==> Meant(w.pipe[0], host))
  {
    hide Conserved, OfficesOk;
    assert forall l :: l in Inbox(w) ==> l in Inbox(w) + Hands(w);
    assert w.inHdr.length != 0 ==> LetterIn(w.inHdr, w.inbox) in Inbox(w);
    assert w.pipe != [] ==> Postable(LetterOn(w.pipe[0]));
  }

  /** What each event at the host moves on; with the letters conserved, that says where every one of them is. */
  lemma HostAdvances(w: World, host: int32, e: Event)
    requires Inv(w, host) && Possible(w, e) && !e.Send? && !e.Acknowledge?
    ensures var n := After(w, host, e);
      && n.offices == w.offices && n.posted == w.posted && n.kept == w.kept && Whole(n)
      && (e.Poll? ==> |n.read| == |w.read| + 1 && n.available == w.available + 1 && n.worker == w.worker)
      && (e.Wake? ==> n.available == w.available - 1 && n.worker.Fetching?)
      && (e.Fetch? ==> n.inHdr.length == 0 && n.worker.Sorting? && n.available == w.available)
      && (e.Sort? ==> n.halted || (|n.sorted| == |w.sorted| + 1 && n.worker.Waiting?))
      && (e.Take? ==> [w.boxes[e.box][0]] + n.boxes[e.box] == w.boxes[e.box]
                      && n.taken[e.box] == w.taken[e.box] + [w.boxes[e.box][0]])
      && (!e.Poll? ==> n.read == w.read) && (!e.Sort? ==> n.sorted == w.sorted && n.halted == w.halted)
      && (!e.Take? ==> n.taken == w.taken) && (!e.Take? && !e.Sort? ==> n.boxes == w.boxes)
  {
    hide Conserved, OfficesOk, LetterIn, LetterOn, Payload, HeaderOf, BodyOf, Overlaid;
  }

  /** Handing a letter for the host to its network puts it into the pipe, unless it gets lost there. */
  lemma HandAdvances(w: World, host: int32, m: int32, t: Tid, wire: seq<byte>, lost: bool)
    requires Inv(w, host) && Possible(w, Send(m, t, Hand, wire, lost))
    ensures var n, l := After(w, host, Send(m, t, Hand, wire, lost)), w.offices[m].threads[t].letter;
      && (l.pktHdr.to == host ==> n.posted == w.posted + [l])
      && (l.pktHdr.to == host && !lost ==> n.kept == w.kept + [l] && n.pipe == w.pipe + [wire])
      && (l.pktHdr.to != host || lost ==> n.kept == w.kept && n.pipe == w.pipe)
      && (l.pktHdr.to != host ==> n.posted == w.posted)
  {
    hide Inv, Carries, Payload;
  }

  /** A whole Send, with the interrupt it waits for, leaves the office as it was. */
  lemma SendReturns(o: Office, machine: int32, t: Tid, l: Letter)
    requires OfficeOk(o, machine) && o.holder.None? && t in o.threads && o.threads[t].Idle?
    requires Postable(l) && l.pktHdr.from == machine
    ensures Able(o, machine, t, Compose(l))
    ensures var a := Acted(o, t, Compose(l));
      && Able(a, machine, t, Lock)
      && var b := Acted(a, t, Lock);
      && Able(b, machine, t, Hand) && b.threads[t].letter == l && b.pending == 0
      && var c := Acted(b, t, Hand);
      && !Able(c, machine, t, Await) && c.pending == 1
      && var d := Acknowledged(c);
      && Able(d, machine, t, Await)
      && var e := Acted(d, t, Await);
      && Able(e, machine, t, Unlock) && Acted(e, t, Unlock) == o
  {
    hide Postable;
    assert o.threads[t := Idle] == o.threads;
  }

  /** What a thread inside Send can do next. */
  predicate GetsOn(o: Office, machine: int32, t: Tid) {
    Able(o, machine, t, Lock) || Able(o, machine, t, Hand) || Able(o, machine, t, Await) || Able(o, machine, t, Unlock)
  }

  /** And in no run are the senders of a machine ever stuck: when none of them can do anything and no send interrupt
      can come, no thread is in Send at all. */
  lemma SendersGetOn(w: World, host: int32, events: seq<Event>, m: int32)
    requires Started(w) && m in Run(w, host, events).offices
    requires !Possible(Run(w, host, events), Acknowledge(m))
    requires forall t :: !GetsOn(Run(w, host, events).offices[m], m, t)
    ensures var o := Run(w, host, events).offices[m]; forall t :: t in o.threads ==> o.threads[t].Idle?
  {
    RunKeeps(w, host, events);
    var n := Run(w, host, events);
    hide Run, Started, OnTheWay, Conserved, GetsOn;
    assert OfficeOk(n.offices[m], m);
    OfficeGetsOn(n.offices[m], m);
  }

  lemma OfficeGetsOn(o: Office, machine: int32)
    requires OfficeOk(o, machine) && o.pending == 0 && forall t :: !GetsOn(o, machine, t)
    ensures forall t :: t in o.threads ==> o.threads[t].Idle?
  {
    hide Postable;
    forall t | t in o.threads ensures o.threads[t].Idle? {
      assert !GetsOn(o, machine, t) && (o.holder.Some? ==> !GetsOn(o, machine, o.holder.value));
    }
  }

  /** The worker's first ASSERT fails exactly on a letter to a box that the host does not have: Send only
      checks that the box is not negative. */
  lemma SortHalts(w: World, host: int32)
    requires Inv(w, host) && Possible(w, Sort)
    ensures Sorted(w).halted <==> Hands(w)[0].mailHdr.to >= |w.boxes|
  {
    hide Conserved, OfficesOk, PipeOk;
    assert Hands(w)[0] in Inbox(w) + Hands(w);
  }

  /** Such a letter is not stopped before: sent by an idle machine over a wire that keeps it, it halts the host. */
  lemma BadBoxHalts(w: World, host: int32, m: int32, t: Tid, l: Letter, wire: seq<byte>)
    requires Started(w) && m in w.offices && t in w.offices[m].threads
    requires Postable(l) && l.pktHdr.from == m && l.pktHdr.to == host && l.mailHdr.to >= |w.boxes|
    requires Carries(wire, l.pktHdr, Payload(l))
    ensures Run(w, host, [Send(m, t, Compose(l), wire, false), Send(m, t, Lock, wire, false),
            Send(m, t, Hand, wire, false),
                          Poll, Wake, Fetch, Sort]).halted
  {
    hide Run, Started;
    var sends := [Send(m, t, Compose(l), wire, false), Send(m, t, Lock, wire, false), Send(m, t, Hand, wire, false)];
    BadBoxSent(w, host, m, t, l, wire);
    var n := Run(w, host, sends);
    RunKeeps(w, host, sends);
    BadBoxSorted(n, host, l, wire);
    RunOne(w, host, sends, Poll);
    RunOne(w, host, sends + [Poll], Wake);
    RunOne(w, host, sends + [Poll] + [Wake], Fetch);
    RunOne(w, host, sends + [Poll] + [Wake] + [Fetch], Sort);
    assert sends + [Poll] + [Wake] + [Fetch] + [Sort] ==
      [Send(m, t, Compose(l), wire, false), Send(m, t, Lock, wire, false), Send(m, t, Hand, wire, false), Poll, Wake,
        Fetch, Sort];
  }

  lemma BadBoxSent(w: World, host: int32, m: int32, t: Tid, l: Letter, wire: seq<byte>)
    requires Started(w) && m in w.offices && t in w.offices[m].threads
    requires Postable(l) && l.pktHdr.from == m && l.pktHdr.to == host && Carries(wire, l.pktHdr, Payload(l))
    ensures var n := Run(w, host,
            [Send(m, t, Compose(l), wire, false), Send(m, t, Lock, wire, false), Send(m, t, Hand, wire, false)]);
      n.pipe == [wire] && n.inHdr.length == 0 && n.worker.Waiting? && !n.halted && n.boxes == w.boxes
  {
    hide Carries, Payload, Postable;
    var e1, e2, e3 := Send(m, t, Compose(l), wire, false), Send(m, t, Lock, wire, false), Send(m, t, Hand, wire, false);
    assert Run(w, host, []) == w;
    hide Run;
    RunOne(w, host, [], e1);
    RunOne(w, host, [e1], e2);
    RunOne(w, host, [e1, e2], e3);
    assert [e1] == [] + [e1] && [e1, e2] == [e1] + [e2] && [e1, e2, e3] == [e1, e2] + [e3];
  }

  lemma BadBoxSorted(w: World, host: int32, l: Letter, wire: seq<byte>)
    requires Inv(w, host) && w.pipe == [wire] && w.inHdr.length == 0 && w.worker.Waiting? && !w.halted
    requires Postable(l) && Carries(wire, l.pktHdr, Payload(l)) && l.mailHdr.to >= |w.boxes|
    ensures Possible(w, Poll)
    ensures var a := After(w, host, Poll);
      && Whole(a) && Possible(a, Wake)
      && var b := After(a, host, Wake);
      && Whole(b) && Possible(b, Fetch)
      && var c := After(b, host, Fetch);
      && Whole(c) && Possible(c, Sort) && After(c, host, Sort).halted
  {
    SentIsRead(l, wire);
    CarriedIntact(wire, l.pktHdr, Payload(l));
    PolledLetter(w, host);
    var a := After(w, host, Poll);
    hide Carries, Payload, LetterIn, HeaderOf, Overlaid, BodyOf, Conserved, OfficesOk, PipeOk;
    CopiedLetter(a.inHdr, a.inbox, a.buffer);
  }

  lemma RunOne(w: World, host: int32, events: seq<Event>, e: Event)
    ensures var n := Run(w, host, events);
      Run(w, host, events + [e]) == if Whole(n) && Possible(n, e) then After(n, host, e) else n
  {
    assert (events + [e])[..|events|] == events;
  }
}
