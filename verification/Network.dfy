// The network device: fixed-size packets, delivered in order or lost.
module Network {
  import opened Codec
  import opened EventQueue
  import opened Interrupts

  const HEADER_SIZE := 12
  const MAX_WIRE_SIZE := 64
  const NETWORK_TIME := 100
  const MAX_PACKET_SIZE := MAX_WIRE_SIZE - HEADER_SIZE

  type uint32 = n: int | 0 <= n < 0x1_0000_0000

  /** PacketHeader and MailHeader have the same layout. */
  datatype WireHeader = WireHeader(to: int32, from: int32, length: uint32)

  function EncodeWireHeader(h: WireHeader): (b: seq<byte>)
    ensures |b| == HEADER_SIZE
  {
    EncodeInt(h.to) + EncodeInt(h.from) + EncodeInt(AsInt(h.length))
  }

  function DecodeWireHeader(b: seq<byte>): WireHeader
    requires |b| == HEADER_SIZE
  {
    WireHeader(DecodeInt(b[0..4]), DecodeInt(b[4..8]), Unsigned(DecodeInt(b[8..12])))
  }

  lemma WireHeaderRoundTrip(h: WireHeader)
    ensures DecodeWireHeader(EncodeWireHeader(h)) == h
  {
    var b := EncodeWireHeader(h);
    assert b[0..4] == EncodeInt(h.to) && b[4..8] == EncodeInt(h.from) && b[8..12] == EncodeInt(AsInt(h.length));
    IntRoundTrip(h.to);
    IntRoundTrip(h.from);
    IntRoundTrip(AsInt(h.length));
  }

  /** How a header lies in its twelve bytes. */
  lemma WireLayout(b: seq<byte>)
    requires |b| == 12
    ensures var h := DecodeWireHeader(b);
      Unsigned(h.to) == WordAt(b, 0) && Unsigned(h.from) == WordAt(b, 4) && h.length == WordAt(b, 8)
  {
    IntAt(b, 0);
    IntAt(b, 4);
    IntAt(b, 8);
    hide DecodeInt, Unsigned, WordAt;
  }

  /** bcopy to the front of a buffer. */
  function Overlaid(buffer: seq<byte>, front: seq<byte>): (b: seq<byte>)
    requires |front| <= |buffer|
    ensures |b| == |buffer|
  {
    front + buffer[|front|..]
  }

  /** What is on the wire, whatever the padding. */
  predicate Carries(wire: seq<byte>, hdr: WireHeader, body: seq<byte>) {
    && |wire| == MAX_WIRE_SIZE && |body| <= MAX_PACKET_SIZE
    && wire[..HEADER_SIZE] == EncodeWireHeader(hdr)
    && wire[HEADER_SIZE..HEADER_SIZE + |body|] == body
  }

  function HeaderOf(wire: seq<byte>): WireHeader
    requires |wire| == MAX_WIRE_SIZE
  {
    DecodeWireHeader(wire[..HEADER_SIZE])
  }

  /** The packets of a host's pipe are whole, and for that host. */
  predicate Meant(wire: seq<byte>, host: int32) {
    |wire| == MAX_WIRE_SIZE && HeaderOf(wire).to == host && HeaderOf(wire).length <= MAX_PACKET_SIZE
  }

  function BodyOf(wire: seq<byte>): seq<byte>
    requires |wire| == MAX_WIRE_SIZE && HeaderOf(wire).length <= MAX_PACKET_SIZE
  {
    wire[HEADER_SIZE..HEADER_SIZE + HeaderOf(wire).length]
  }

  /** A packet is read as it was sent. */
  lemma CarriedIntact(wire: seq<byte>, hdr: WireHeader, body: seq<byte>)
    requires Carries(wire, hdr, body) && hdr.length == |body|
    ensures HeaderOf(wire) == hdr && BodyOf(wire) == body
  {
    WireHeaderRoundTrip(hdr);
  }

  /** A named pipe: what other machines have put in and its host has not read. */
  class Pipe {
    var packets: seq<seq<byte>>
  }

  class NetworkOutput {
    const hostName: int32
    var sendBusy: bool

    constructor (hostName: int32)
      ensures !sendBusy && this.hostName == hostName
    {
      this.hostName, sendBusy := hostName, false;
    }

    /** Send, with the outcome of the dice as a parameter. `me` is this object as the one to call when the
        next packet can be sent. */
    method Send(interrupt: Interrupt, me: nat, hdr: WireHeader, data: array<byte>, pipe: Pipe, lost: bool)
      requires !sendBusy && 0 < hdr.length <= MAX_PACKET_SIZE && hdr.from == hostName
      requires hdr.length <= data.Length && interrupt.Valid()
      requires data != interrupt.intCount as object && {data as object, pipe} !! interrupt.pending.Repr
      modifies interrupt`serial, interrupt`events, interrupt.pending.Repr, interrupt.intCount, pipe
      ensures interrupt.Valid() && fresh(interrupt.pending.Repr - old(interrupt.pending.Repr))
      ensures interrupt.State() == old(interrupt.State()).(
        events := Booked(old(interrupt.events), Request(me, NETWORK_TIME, NetworkSendInt), interrupt.totalTicks))
      ensures lost ==> pipe.packets == old(pipe.packets)
      ensures !lost ==>
        exists wire :: Carries(wire, hdr, data[..hdr.length]) && pipe.packets == old(pipe.packets) + [wire]
    {
      hide Booked, Settled, Polite, SortedLists.SortedList.Valid;
      interrupt.ScheduleFor(Request(me, NETWORK_TIME, NetworkSendInt));
      if lost {
        return;
      }
      var buffer := new byte[MAX_WIRE_SIZE];
      var front := EncodeWireHeader(hdr);
      forall k | 0 <= k < HEADER_SIZE { buffer[k] := front[k]; }
      forall k | 0 <= k < hdr.length { buffer[HEADER_SIZE + k] := data[k]; }
      assert buffer[..][..HEADER_SIZE] == front;
      assert buffer[..][HEADER_SIZE..HEADER_SIZE + hdr.length] == data[..hdr.length];
      assert Carries(buffer[..], hdr, data[..hdr.length]);
      pipe.packets := pipe.packets + [buffer[..]];
    }

    method CallBack()
      modifies this
      ensures !sendBusy
    {
      sendBusy := false;
    }
  }

  class NetworkInput {
    const hostName: int32
    var inHdr: WireHeader
    const inbox: array<byte>

    ghost predicate Valid()
      reads this
    {
      inbox.Length == MAX_PACKET_SIZE && inHdr.length <= MAX_PACKET_SIZE
    }

    /** The first poll is scheduled at once. */
    constructor (hostName: int32, interrupt: Interrupt, me: nat)
      requires interrupt.Valid()
      modifies interrupt`serial, interrupt`events, interrupt.pending.Repr, interrupt.intCount
      ensures Valid() && inHdr.length == 0 && this.hostName == hostName && fresh(inbox)
      ensures interrupt.Valid() && fresh(interrupt.pending.Repr - old(interrupt.pending.Repr))
      ensures interrupt.events == Booked(old(interrupt.events), Request(me, NETWORK_TIME, NetworkRecvInt),
                                         interrupt.totalTicks)
    {
      this.hostName, inHdr := hostName, WireHeader(0, 0, 0);
      inbox := new byte[MAX_PACKET_SIZE];
      new;
      hide Booked, Settled, Polite, SortedLists.SortedList.Valid, Interrupt.Tally;
      interrupt.ScheduleFor(Request(me, NETWORK_TIME, NetworkRecvInt));
    }

    /** CallBack, as a handler: schedules its own next poll, and reads a packet only if the last one has been
        taken. `told` is the call to whoever waits. */
    method CallBack(interrupt: Interrupt, me: nat, pipe: Pipe, ghost extra: int) returns (told: bool)
      requires Valid() && (inHdr.length == 0 && pipe.packets != [] ==> Meant(pipe.packets[0], hostName))
      requires interrupt.Wired() && interrupt.Tally(extra) && Ledger(interrupt.events) && interrupt.inHandler
      requires inbox != interrupt.intCount as object && {this as object, inbox, pipe} !! interrupt.pending.Repr
      modifies interrupt`serial, interrupt`events, interrupt.pending.Repr, interrupt.intCount, this`inHdr, inbox, pipe
      ensures Valid() && interrupt.Wired() && interrupt.Tally(extra) && Ledger(interrupt.events)
      ensures interrupt.events == Booked(old(interrupt.events), Request(me, NETWORK_TIME, NetworkRecvInt),
              interrupt.totalTicks)
      ensures told <==> old(inHdr).length == 0 && old(pipe.packets) != []
      ensures !told ==> pipe.packets == old(pipe.packets) && inHdr == old(inHdr) && inbox[..] == old(inbox[..])
      ensures told ==>
        var wire := old(pipe.packets)[0];
        && pipe.packets == old(pipe.packets)[1..] && inHdr == HeaderOf(wire)
        && inbox[..] == Overlaid(old(inbox[..]), BodyOf(wire))
    {
      hide Booked, Ledger, Polite, SortedLists.SortedList.Valid, Interrupt.Tally;
      interrupt.Schedule(me, NETWORK_TIME, NetworkRecvInt, extra);
      if inHdr.length != 0 {
        return false;
      }
      if pipe.packets == [] {
        return false;
      }
      var buffer := pipe.packets[0];
      pipe.packets := pipe.packets[1..];
      inHdr := HeaderOf(buffer);
      Copy(inbox, BodyOf(buffer));
      return true;
    }

    /** Receive: a header of length 0 if nothing is buffered. */
    method Receive(data: array<byte>) returns (hdr: WireHeader)
      requires Valid() && data.Length >= MAX_PACKET_SIZE && data != inbox
      modifies this`inHdr, data
      ensures Valid() && hdr == old(inHdr) && inHdr == hdr.(length := 0)
      ensures data[..] == Overlaid(old(data[..]), inbox[..hdr.length])
    {
      hdr := inHdr;
      inHdr := inHdr.(length := 0);
      if hdr.length != 0 {
        Copy(data, inbox[..hdr.length]);
      }
    }
  }

  method Copy(to: array<byte>, from: seq<byte>)
    requires |from| <= to.Length
    modifies to
    ensures to[..] == Overlaid(old(to[..]), from)
  {
    var i := 0;
    while i < |from|
      invariant 0 <= i <= |from|
      invariant forall k :: 0 <= k < to.Length ==> to[k] == if k < i then from[k] else old(to[k])
    {
      to[i] := from[i];
      i := i + 1;
    }
  }
}
