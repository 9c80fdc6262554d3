/** The credit-controlled packet protocol: two endpoints, two byte channels, any interleaving. */
module Protocol {
  import opened Packets

  // One endpoint ---------------------------------------------------------

  /** The part of a connection_state that the protocol is about; buf is the valid data. */
  datatype Endpoint = Endpoint(
    buf: seq<Byte>,
    nextPacketOffset: nat,
    bytesSentNotReceived: int,
    bytesReceivedNotConfirmed: nat,
    totalBytesReceived: nat,
    maxAllowedInPipe: int)

  /** The atomic blocks of read1, write1 and scan_headers. */
  datatype Event =
    | Send(body: seq<Byte>)       // one packet written
    | Arrive(bytes: seq<Byte>)    // one successful SAFE_READ
    | TakeCredit                  // scan_headers
    | Copy(count: nat)            // copy out of the open packet
    | Open(count: nat)            // skip a header and copy from its body

  predicate Enabled(e: Endpoint, ev: Event) {
    && e.nextPacketOffset <= |e.buf|
    && match ev
       case Send(body) =>
         e.bytesSentNotReceived <= e.maxAllowedInPipe && |body| <= MAX_PACKET - HDR_SIZE
       case Arrive(bytes) => bytes != []
       case TakeCredit => true
       case Copy(count) => count <= e.nextPacketOffset
       case Open(count) =>
         && e.nextPacketOffset == 0
         && |e.buf| >= HDR_SIZE
         && PacketReceived(e.buf) == 0
         && HDR_SIZE + count <= PacketLength(e.buf) <= |e.buf|
  }

  function Apply(e: Endpoint, ev: Event): Endpoint
    requires Enabled(e, ev)
  {
    match ev
    case Send(body) =>
      e.(bytesReceivedNotConfirmed := 0,
         bytesSentNotReceived := e.bytesSentNotReceived + HDR_SIZE + |body|)
    case Arrive(bytes) =>
      e.(buf := e.buf + bytes,
         bytesReceivedNotConfirmed := e.bytesReceivedNotConfirmed + |bytes|,
         totalBytesReceived := e.totalBytesReceived + |bytes|)
    case TakeCredit =>
      var (rest, credit) := Scan(e.buf[e.nextPacketOffset..]);
      e.(buf := e.buf[..e.nextPacketOffset] + rest,
         bytesSentNotReceived := e.bytesSentNotReceived - credit)
    case Copy(count) =>
      e.(buf := e.buf[count..], nextPacketOffset := e.nextPacketOffset - count)
    case Open(count) =>
      e.(buf := e.buf[HDR_SIZE + count..],
         nextPacketOffset := PacketLength(e.buf) - HDR_SIZE - count)
  }

  /** The bytes an event puts on the wire. */
  function Sent(e: Endpoint, ev: Event): seq<Byte> {
    match ev
    case Send(body) => Packet(e.bytesReceivedNotConfirmed, body)
    case _ => []
  }

  /** The user bytes an event hands to the caller of read1. */
  function Delivered(e: Endpoint, ev: Event): seq<Byte>
    requires Enabled(e, ev)
  {
    match ev
    case Copy(count) => e.buf[..count]
    case Open(count) => e.buf[HDR_SIZE..HDR_SIZE + count]
    case _ => []
  }

  function Body(ev: Event): seq<Byte> {
    match ev
    case Send(body) => body
    case _ => []
  }

  /** setup_connection_state */
  function Fresh(maxAllowedInPipe: int): Endpoint {
    Endpoint([], 0, 0, 0, 0, maxAllowedInPipe)
  }

  /** The events of a trace are enabled one after the other. */
  predicate Runs(e: Endpoint, trace: seq<Event>)
    decreases |trace|, 0
  {
    trace == [] ||
    var k := |trace| - 1;
    Runs(e, trace[..k]) && Enabled(After(e, trace[..k]), trace[k])
  }

  function After(e: Endpoint, trace: seq<Event>): Endpoint
    requires Runs(e, trace)
    decreases |trace|, 1
  {
    if trace == [] then e
    else var k := |trace| - 1; Apply(After(e, trace[..k]), trace[k])
  }

  /** All bytes a trace puts on the wire. */
  function Emitted(e: Endpoint, trace: seq<Event>): seq<Byte>
    requires Runs(e, trace)
    decreases |trace|
  {
    if trace == [] then []
    else var k := |trace| - 1; Emitted(e, trace[..k]) + Sent(After(e, trace[..k]), trace[k])
  }

  /** All user bytes a trace hands to the callers of read1. */
  function Handed(e: Endpoint, trace: seq<Event>): seq<Byte>
    requires Runs(e, trace)
    decreases |trace|
  {
    if trace == [] then []
    else var k := |trace| - 1; Handed(e, trace[..k]) + Delivered(After(e, trace[..k]), trace[k])
  }

  /** All bytes that reads brought in. */
  function Arrived(trace: seq<Event>): seq<Byte>
    decreases |trace|
  {
    if trace == [] then []
    else var k := |trace| - 1; Arrived(trace[..k]) + ArrivedBy(trace[k])
  }

  function ArrivedBy(ev: Event): seq<Byte> {
    if ev.Arrive? then ev.bytes else []
  }

  /** All user bytes given to write1. */
  function Bodies(trace: seq<Event>): seq<Byte>
    decreases |trace|
  {
    if trace == [] then []
    else var k := |trace| - 1; Bodies(trace[..k]) + Body(trace[k])
  }

  lemma TotalsExtend(trace: seq<Event>, ev: Event)
    ensures Arrived(trace + [ev]) == Arrived(trace) + ArrivedBy(ev)
    ensures Bodies(trace + [ev]) == Bodies(trace) + Body(ev)
  {
    assert (trace + [ev])[..|trace|] == trace;
  }

  /** What an endpoint and its two channels show is what the trace from e0 leads to. */
  ghost predicate Follows(e0: Endpoint, trace: seq<Event>, e: Endpoint, outbox: seq<Byte>, peer: seq<Byte>,
                          inbox: seq<Byte>)
  {
    && Runs(e0, trace) && After(e0, trace) == e
    && Emitted(e0, trace) == outbox
    && Arrived(trace) + inbox == peer
  }

  lemma FollowsStart(e0: Endpoint, peer: seq<Byte>)
    ensures Follows(e0, [], e0, [], peer, peer)
  {
    assert [] + peer == peer;
  }

  lemma FollowsExtend(e0: Endpoint, trace: seq<Event>, e: Endpoint, outbox: seq<Byte>, peer: seq<Byte>,
                      inbox: seq<Byte>, ev: Event, rest: seq<Byte>)
    requires Follows(e0, trace, e, outbox, peer, inbox) && Enabled(e, ev)
    requires inbox == ArrivedBy(ev) + rest
    ensures Follows(e0, trace + [ev], Apply(e, ev), outbox + Sent(e, ev), peer, rest)
    ensures Runs(e0, trace) && Runs(e0, trace + [ev])
    ensures Handed(e0, trace + [ev]) == Handed(e0, trace) + Delivered(e, ev)
  {
    RunsExtend(e0, trace, ev);
    TotalsExtend(trace, ev);
    ConcatAssoc(Arrived(trace), ArrivedBy(ev), rest);
  }

  lemma RunsExtend(e: Endpoint, trace: seq<Event>, ev: Event)
    requires Runs(e, trace) && Enabled(After(e, trace), ev)
    ensures Runs(e, trace + [ev])
    ensures After(e, trace + [ev]) == Apply(After(e, trace), ev)
    ensures Emitted(e, trace + [ev]) == Emitted(e, trace) + Sent(After(e, trace), ev)
    ensures Handed(e, trace + [ev]) == Handed(e, trace) + Delivered(After(e, trace), ev)
    ensures !ev.Send? ==> Emitted(e, trace + [ev]) == Emitted(e, trace)
    ensures !ev.Copy? && !ev.Open? ==> Handed(e, trace + [ev]) == Handed(e, trace)
  {
    assert (trace + [ev])[..|trace|] == trace;
  }

  // Two endpoints --------------------------------------------------------

  /** One direction: bytes in flight, user bytes given to write1, user bytes read1 returned. */
  datatype Wire = Wire(flight: seq<Byte>, written: seq<Byte>, delivered: seq<Byte>)

  datatype Sys = Sys(a: Endpoint, b: Endpoint, ab: Wire, ba: Wire)

  function Swap(s: Sys): Sys {
    Sys(s.b, s.a, s.ba, s.ab)
  }

  predicate CanAct(s: Sys, ev: Event) {
    Enabled(s.a, ev) && (ev.Arrive? ==> ev.bytes <= s.ba.flight)
  }

  /** Endpoint a performs one event. */
  function Act(s: Sys, ev: Event): Sys
    requires CanAct(s, ev)
  {
    Sys(Apply(s.a, ev), s.b,
        Wire(s.ab.flight + Sent(s.a, ev), s.ab.written + Body(ev), s.ab.delivered),
        Wire(if ev.Arrive? then s.ba.flight[|ev.bytes|..] else s.ba.flight,
             s.ba.written,
             s.ba.delivered + Delivered(s.a, ev)))
  }

  datatype Move = Move(byA: bool, ev: Event)

  predicate CanMove(s: Sys, m: Move) {
    if m.byA then CanAct(s, m.ev) else CanAct(Swap(s), m.ev)
  }

  function MoveTo(s: Sys, m: Move): Sys
    requires CanMove(s, m)
  {
    if m.byA then Act(s, m.ev) else Swap(Act(Swap(s), m.ev))
  }

  predicate Legal(s: Sys, moves: seq<Move>)
    decreases |moves|, 0
  {
    moves == [] ||
    var k := |moves| - 1;
    Legal(s, moves[..k]) && CanMove(Reached(s, moves[..k]), moves[k])
  }

  function Reached(s: Sys, moves: seq<Move>): Sys
    requires Legal(s, moves)
    decreases |moves|, 1
  {
    if moves == [] then s
    else var k := |moves| - 1; MoveTo(Reached(s, moves[..k]), moves[k])
  }

  /** The events of one side. */
  function Of(moves: seq<Move>, byA: bool): seq<Event>
    decreases |moves|
  {
    if moves == [] then []
    else
      var k := |moves| - 1;
      if moves[k].byA == byA then Of(moves[..k], byA) + [moves[k].ev] else Of(moves[..k], byA)
  }

  function Start(maxA: int, maxB: int): Sys {
    Sys(Fresh(maxA), Fresh(maxB), Wire([], [], []), Wire([], [], []))
  }

  // The invariant --------------------------------------------------------

  /** Unread bytes of direction x -> y: what y has buffered and what is in flight. */
  function Unread(y: Endpoint, xy: Wire): seq<Byte> {
    y.buf + xy.flight
  }

  predicate WellFramed(y: Endpoint, xy: Wire) {
    y.nextPacketOffset <= |y.buf| && Framed(Unread(y, xy)[y.nextPacketOffset..])
  }

  /** Credit that x can still collect from packets of direction y -> x. */
  function CreditDue(x: Endpoint, yx: Wire): nat
    requires WellFramed(x, yx)
  {
    Credit(Unread(x, yx)[x.nextPacketOffset..])
  }

  /** Every byte x has sent and not been told about is in flight, or is counted at y as not
      confirmed, or is in a confirmation on its way to x. */
  predicate CreditConserved(x: Endpoint, y: Endpoint, xy: Wire, yx: Wire)
    requires WellFramed(x, yx)
  {
    x.bytesSentNotReceived == |xy.flight| + y.bytesReceivedNotConfirmed + CreditDue(x, yx)
  }

  /** What was written is what was delivered followed by what is still to be delivered. */
  predicate Transparent(y: Endpoint, xy: Wire)
    requires WellFramed(y, xy)
  {
    xy.written == xy.delivered + Upcoming(Unread(y, xy), y.nextPacketOffset)
  }

  predicate HalfInv(x: Endpoint, y: Endpoint, xy: Wire, yx: Wire) {
    && WellFramed(x, yx)
    && WellFramed(y, xy)
    && Transparent(y, xy)
    && CreditConserved(x, y, xy, yx)
    && x.bytesSentNotReceived <= x.maxAllowedInPipe + MAX_PACKET < 0x1_0000
  }

  predicate Inv(s: Sys) {
    HalfInv(s.a, s.b, s.ab, s.ba) && HalfInv(s.b, s.a, s.ba, s.ab)
  }

  lemma StartInv(maxA: int, maxB: int)
    requires 0 <= maxA + MAX_PACKET < 0x1_0000 && 0 <= maxB + MAX_PACKET < 0x1_0000
    ensures Inv(Start(maxA, maxB))
  {
  }

  // Each event keeps the invariant ---------------------------------------

  /** What a packet of a adds to the unread bytes of b. */
  lemma SendOnWire(s: Sys, body: seq<Byte>)
    requires CanAct(s, Send(body)) && WellFramed(s.b, s.ab)
    ensures var t := Act(s, Send(body));
            var u := Unread(s.b, s.ab);
            var v := Unread(t.b, t.ab);
            var n := s.b.nextPacketOffset;
            && WellFramed(t.b, t.ab)
            && Upcoming(v, n) == Upcoming(u, n) + body
            && CreditDue(t.b, t.ab) == CreditDue(s.b, s.ab) + s.a.bytesReceivedNotConfirmed % 0x1_0000
  {
    var n, p := s.b.nextPacketOffset, Sent(s.a, Send(body));
    var u := Unread(s.b, s.ab);
    ConcatAssoc(s.b.buf, s.ab.flight, p);
    assert (u + p)[n..] == u[n..] + p && (u + p)[..n] == u[..n];
    FramedAppend(u[n..], s.a.bytesReceivedNotConfirmed, body);
    ConcatAssoc(u[..n], Payload(u[n..]), body);
  }

  lemma SendKeepsInv(s: Sys, body: seq<Byte>)
    requires Inv(s) && CanAct(s, Send(body))
    ensures Inv(Act(s, Send(body)))
  {
    var t := Act(s, Send(body));
    SendOnWire(s, body);
    ConcatAssoc(s.ab.delivered, Upcoming(Unread(s.b, s.ab), s.b.nextPacketOffset), body);
    assert t.ba.flight == s.ba.flight && t.ba.written == s.ba.written && t.ba.delivered == s.ba.delivered;
    assert Unread(t.a, t.ba) == Unread(s.a, s.ba);
  }

  lemma ArriveKeepsInv(s: Sys, bytes: seq<Byte>)
    requires Inv(s) && CanAct(s, Arrive(bytes))
    ensures Inv(Act(s, Arrive(bytes)))
  {
    var t := Act(s, Arrive(bytes));
    assert Unread(t.a, t.ba) == Unread(s.a, s.ba);
    assert t.ba.delivered == s.ba.delivered && t.ab.flight == s.ab.flight && t.ab.written == s.ab.written;
  }

  lemma ScanKeepsInv(s: Sys)
    requires Inv(s) && CanAct(s, TakeCredit)
    ensures Inv(Act(s, TakeCredit))
  {
    var t := Act(s, TakeCredit);
    ScanOnWire(s.a.buf, s.ba.flight, s.a.nextPacketOffset);
    assert t.ba.delivered == s.ba.delivered && t.ab.flight == s.ab.flight && t.ab.written == s.ab.written;
  }

  lemma ScanOnWire(buf: seq<Byte>, flight: seq<Byte>, n: nat)
    requires n <= |buf| && Framed((buf + flight)[n..])
    ensures var u := buf + flight;
            var v := buf[..n] + Scan(buf[n..]).0 + flight;
            && Framed(v[n..])
            && Upcoming(v, n) == Upcoming(u, n)
            && Credit(u[n..]) == Scan(buf[n..]).1 + Credit(v[n..])
  {
    hide Framed, Payload, Credit, Scan;
    var u := buf + flight;
    var v := buf[..n] + Scan(buf[n..]).0 + flight;
    assert u[n..] == buf[n..] + flight;
    assert v[n..] == Scan(buf[n..]).0 + flight;
    ScanMovesCredit(buf[n..], flight);
    assert v[..n] == u[..n];
  }

  lemma CopyKeepsInv(s: Sys, count: nat)
    requires Inv(s) && CanAct(s, Copy(count))
    ensures Inv(Act(s, Copy(count)))
  {
    hide Framed, Payload, Credit;
    var t := Act(s, Copy(count));
    var n := s.a.nextPacketOffset;
    assert t.a.buf == s.a.buf[count..];
    CopyOnWire(s.a.buf, s.ba.flight, n, count);
    ConcatAssoc(s.ba.delivered, s.a.buf[..count], Upcoming(Unread(t.a, t.ba), n - count));
    assert t.ab.flight == s.ab.flight && t.ab.written == s.ab.written;
  }

  lemma CopyOnWire(buf: seq<Byte>, flight: seq<Byte>, n: nat, count: nat)
    requires count <= n <= |buf| && Framed((buf + flight)[n..])
    ensures var u := buf + flight;
            var v := buf[count..] + flight;
            && v[n - count..] == u[n..]
            && Upcoming(u, n) == buf[..count] + Upcoming(v, n - count)
  {
    hide Framed, Payload;
    var u := buf + flight;
    var v := buf[count..] + flight;
    assert v == u[count..];
    assert v[n - count..] == u[n..];
    assert u[..n] == buf[..count] + v[..n - count];
    ConcatAssoc(buf[..count], v[..n - count], Payload(u[n..]));
  }

  lemma OpenKeepsInv(s: Sys, count: nat)
    requires Inv(s) && CanAct(s, Open(count))
    ensures Inv(Act(s, Open(count)))
  {
    hide Framed, Payload, Credit;
    var t := Act(s, Open(count));
    OpenOnWire(s.a.buf, s.ba.flight, count);
    ConcatAssoc(s.ba.delivered, Delivered(s.a, Open(count)), Upcoming(Unread(t.a, t.ba), t.a.nextPacketOffset));
    assert t.ab.flight == s.ab.flight && t.ab.written == s.ab.written;
  }

  lemma OpenOnWire(buf: seq<Byte>, flight: seq<Byte>, count: nat)
    requires Framed((buf + flight)[0..])
    requires |buf| >= HDR_SIZE && PacketReceived(buf) == 0
    requires HDR_SIZE + count <= PacketLength(buf) <= |buf|
    ensures var u := buf + flight;
            var v := buf[HDR_SIZE + count..] + flight;
            var rest := PacketLength(buf) - HDR_SIZE - count;
            && Framed(v[rest..])
            && Upcoming(u, 0) == buf[HDR_SIZE..HDR_SIZE + count] + Upcoming(v, rest)
            && Credit(u[0..]) == Credit(v[rest..])
  {
    hide Framed, Payload, Credit, PacketLength, PacketReceived, OnePacket;
    var n := PacketLength(buf);
    var rest := n - HDR_SIZE - count;
    var got := buf[HDR_SIZE..HDR_SIZE + count];
    var h := buf[..n];
    var tail := buf[n..] + flight;
    var v := buf[HDR_SIZE + count..] + flight;
    assert (buf + flight)[0..] == buf + flight;
    SplitAppended(buf, flight);
    FirstPacket(h, tail);
    assert v[rest..] == tail && v[..rest] == h[HDR_SIZE + count..];
    assert h[HDR_SIZE..] == got + v[..rest];
    ConcatAssoc(got, v[..rest], Payload(tail));
    assert [] + Payload(h + tail) == Payload(h + tail);
    assert (buf + flight)[..0] == [];
  }

  lemma ActKeepsInv(s: Sys, ev: Event)
    requires Inv(s) && CanAct(s, ev)
    ensures Inv(Act(s, ev))
  {
    match ev
    case Send(body) => SendKeepsInv(s, body);
    case Arrive(bytes) => ArriveKeepsInv(s, bytes);
    case TakeCredit => ScanKeepsInv(s);
    case Copy(count) => CopyKeepsInv(s, count);
    case Open(count) => OpenKeepsInv(s, count);
  }

  // The theorems ---------------------------------------------------------

  lemma {:induction false} LegalKeepsInv(s: Sys, moves: seq<Move>)
    requires Inv(s) && Legal(s, moves)
    ensures Inv(Reached(s, moves))
    decreases |moves|
  {
    if moves != [] {
      var k := |moves| - 1;
      LegalKeepsInv(s, moves[..k]);
      var t, m := Reached(s, moves[..k]), moves[k];
      if m.byA {
        ActKeepsInv(t, m.ev);
      } else {
        ActKeepsInv(Swap(t), m.ev);
      }
    }
  }

  /** In every reachable state of every interleaving, credit is conserved in both directions,
      the window bound holds, and the two-byte field is wide enough. */
  lemma CreditTheorem(maxA: int, maxB: int, moves: seq<Move>)
    requires 0 <= maxA + MAX_PACKET < 0x1_0000 && 0 <= maxB + MAX_PACKET < 0x1_0000
    requires Legal(Start(maxA, maxB), moves)
    ensures var t := Reached(Start(maxA, maxB), moves);
            && WellFramed(t.a, t.ba) && CreditConserved(t.a, t.b, t.ab, t.ba)
            && WellFramed(t.b, t.ab) && CreditConserved(t.b, t.a, t.ba, t.ab)
            && 0 <= t.a.bytesSentNotReceived <= t.a.maxAllowedInPipe + MAX_PACKET
            && 0 <= t.b.bytesSentNotReceived <= t.b.maxAllowedInPipe + MAX_PACKET
            && t.a.bytesReceivedNotConfirmed < 0x1_0000 && t.b.bytesReceivedNotConfirmed < 0x1_0000
  {
    StartInv(maxA, maxB);
    LegalKeepsInv(Start(maxA, maxB), moves);
  }

  /** In every reachable state, the bytes delivered so far, then the payload still buffered or
      in flight, are the bytes written, in order; once nothing is unread, all were delivered. */
  lemma StreamTheorem(maxA: int, maxB: int, moves: seq<Move>)
    requires 0 <= maxA + MAX_PACKET < 0x1_0000 && 0 <= maxB + MAX_PACKET < 0x1_0000
    requires Legal(Start(maxA, maxB), moves)
    ensures var t := Reached(Start(maxA, maxB), moves);
            && WellFramed(t.b, t.ab) && Transparent(t.b, t.ab) && t.ab.delivered <= t.ab.written
            && WellFramed(t.a, t.ba) && Transparent(t.a, t.ba) && t.ba.delivered <= t.ba.written
            && (Unread(t.b, t.ab) == [] ==> t.ab.delivered == t.ab.written)
            && (Unread(t.a, t.ba) == [] ==> t.ba.delivered == t.ba.written)
  {
    StartInv(maxA, maxB);
    LegalKeepsInv(Start(maxA, maxB), moves);
  }

  /** Seen from one side, a run of the two endpoints is a run of that endpoint alone, and what
      the wires record as delivered is what that endpoint handed out. */
  lemma {:induction false} Projection(s: Sys, moves: seq<Move>)
    requires Legal(s, moves)
    ensures var t := Reached(s, moves);
            var a := Of(moves, true);
            var b := Of(moves, false);
            && Runs(s.a, a) && After(s.a, a) == t.a
            && Runs(s.b, b) && After(s.b, b) == t.b
            && t.ba.delivered == s.ba.delivered + Handed(s.a, a)
            && t.ab.delivered == s.ab.delivered + Handed(s.b, b)
    decreases |moves|
  {
    if moves == [] {
    } else {
      var k := |moves| - 1;
      Projection(s, moves[..k]);
      var t := Reached(s, moves[..k]);
      var m := moves[k];
      if m.byA {
        RunsExtend(s.a, Of(moves[..k], true), m.ev);
        ConcatAssoc(s.ba.delivered, Handed(s.a, Of(moves[..k], true)), Delivered(t.a, m.ev));
      } else {
        RunsExtend(s.b, Of(moves[..k], false), m.ev);
        ConcatAssoc(s.ab.delivered, Handed(s.b, Of(moves[..k], false)), Delivered(t.b, m.ev));
      }
    }
  }

  /** Each side's events are a run of that endpoint alone, and what either side has read so far
      is a beginning of what was in flight to it and what the other side has sent so far. */
  ghost predicate Consistent(s: Sys, moves: seq<Move>) {
    var a, b := Of(moves, true), Of(moves, false);
    && Runs(s.a, a) && Runs(s.b, b)
    && Arrived(a) <= s.ba.flight + Emitted(s.b, b)
    && Arrived(b) <= s.ab.flight + Emitted(s.a, a)
  }

  /** No read is ahead of what the other side had sent at that time. */
  ghost predicate Causal(s: Sys, moves: seq<Move>) {
    forall k :: 0 <= k <= |moves| ==> Consistent(s, moves[..k])
  }

  /** The state of the pair in terms of the two runs. */
  ghost predicate Composed(s: Sys, moves: seq<Move>, t: Sys)
    requires Consistent(s, moves)
  {
    var a, b := Of(moves, true), Of(moves, false);
    && t.a == After(s.a, a) && t.b == After(s.b, b)
    && t.ba.flight == (s.ba.flight + Emitted(s.b, b))[|Arrived(a)|..]
    && t.ab.flight == (s.ab.flight + Emitted(s.a, a))[|Arrived(b)|..]
    && t.ab.written == s.ab.written + Bodies(a) && t.ba.written == s.ba.written + Bodies(b)
    && t.ab.delivered == s.ab.delivered + Handed(s.b, b) && t.ba.delivered == s.ba.delivered + Handed(s.a, a)
  }

  lemma OfLast(moves: seq<Move>)
    requires moves != []
    ensures var k := |moves| - 1; var m := moves[k];
            && Of(moves, m.byA) == Of(moves[..k], m.byA) + [m.ev]
            && Of(moves, !m.byA) == Of(moves[..k], !m.byA)
  {
  }

  lemma RunsLast(e: Endpoint, trace: seq<Event>, ev: Event)
    requires Runs(e, trace + [ev])
    ensures Runs(e, trace) && Enabled(After(e, trace), ev)
  {
    assert (trace + [ev])[..|trace|] == trace;
  }

  /** One more byte sequence read from a channel, or sent into it. */
  lemma FlightAfter(total: seq<Byte>, n: nat, read: seq<Byte>, sent: seq<Byte>)
    requires n <= |total|
    ensures (total + sent)[n..] == total[n..] + sent
    ensures read <= total[n..] ==> n + |read| <= |total| && total[n..][|read|..] == total[n + |read|..]
  {
  }

  lemma PrefixAfter(total: seq<Byte>, read: seq<Byte>, more: seq<Byte>)
    requires read <= total
    ensures more <= total[|read|..] <==> read + more <= total
  {
    if more <= total[|read|..] {
      assert total == read + total[|read|..];
    }
    if read + more <= total {
      assert total[|read|..][..|more|] == total[..|read| + |more|][|read|..];
    }
  }

  /** One step of a, seen in both ways. */
  lemma ComposeStep(s: Sys, a: seq<Event>, b: seq<Event>, t: Sys, ev: Event)
    requires Runs(s.a, a) && Runs(s.b, b)
    requires Arrived(a) <= s.ba.flight + Emitted(s.b, b) && Arrived(b) <= s.ab.flight + Emitted(s.a, a)
    requires t.a == After(s.a, a) && t.b == After(s.b, b)
    requires t.ba.flight == (s.ba.flight + Emitted(s.b, b))[|Arrived(a)|..]
    requires t.ab.flight == (s.ab.flight + Emitted(s.a, a))[|Arrived(b)|..]
    ensures CanAct(t, ev) <==> Runs(s.a, a + [ev]) && Arrived(a + [ev]) <= s.ba.flight + Emitted(s.b, b)
    ensures CanAct(t, ev) ==>
              && Act(t, ev).a == After(s.a, a + [ev]) && Act(t, ev).b == t.b
              && Act(t, ev).ba.flight == (s.ba.flight + Emitted(s.b, b))[|Arrived(a + [ev])|..]
              && Act(t, ev).ab.flight == (s.ab.flight + Emitted(s.a, a + [ev]))[|Arrived(b)|..]
              && Arrived(b) <= s.ab.flight + Emitted(s.a, a + [ev])
              && Act(t, ev).ab.written == t.ab.written + Body(ev) && Act(t, ev).ba.written == t.ba.written
              && Act(t, ev).ba.delivered == t.ba.delivered + Delivered(t.a, ev)
              && Act(t, ev).ab.delivered == t.ab.delivered
              && Handed(s.a, a + [ev]) == Handed(s.a, a) + Delivered(t.a, ev)
  {
    hide Apply, Delivered, Sent;
    var total := s.ba.flight + Emitted(s.b, b);
    TotalsExtend(a, ev);
    PrefixAfter(total, Arrived(a), ArrivedBy(ev));
    if Runs(s.a, a + [ev]) {
      RunsLast(s.a, a, ev);
    }
    if CanAct(t, ev) {
      RunsExtend(s.a, a, ev);
      FlightAfter(total, |Arrived(a)|, ArrivedBy(ev), []);
      FlightAfter(s.ab.flight + Emitted(s.a, a), |Arrived(b)|, [], Sent(t.a, ev));
      ConcatAssoc(s.ab.flight, Emitted(s.a, a), Sent(t.a, ev));
    }
  }
  lemma CausalLast(s: Sys, moves: seq<Move>)
    requires moves != []
    ensures Causal(s, moves) <==> Causal(s, moves[..|moves| - 1]) && Consistent(s, moves)
  {
    hide Consistent;
    var n := |moves| - 1;
    assert moves[..|moves|] == moves;
    forall k | 0 <= k <= n
      ensures moves[..n][..k] == moves[..k]
    {
    }
    if Causal(s, moves) {
      forall k | 0 <= k <= n
        ensures Consistent(s, moves[..n][..k])
      {
      }
    }
  }

  /** A step of a, or of b, keeps the two views together. */
  lemma ComposeMove(s: Sys, moves: seq<Move>, t: Sys)
    requires moves != [] && Consistent(s, moves[..|moves| - 1]) && Composed(s, moves[..|moves| - 1], t)
    ensures CanMove(t, moves[|moves| - 1]) <==> Consistent(s, moves)
    ensures Consistent(s, moves) ==> Composed(s, moves, MoveTo(t, moves[|moves| - 1]))
  {
    var k := |moves| - 1;
    var m := moves[k];
    var a, b := Of(moves[..k], true), Of(moves[..k], false);
    OfLast(moves);
    if m.byA {
      hide Of, Act, CanAct, Delivered, Runs, After, Emitted, Handed, Arrived, Bodies;
      ComposeStep(s, a, b, t, m.ev);
      TotalsExtend(a, m.ev);
      ConcatAssoc(s.ab.written, Bodies(a), Body(m.ev));
      if CanAct(t, m.ev) {
        ActDelivers(t, m.ev);
        ConcatAssoc(s.ba.delivered, Handed(s.a, a), Delivered(t.a, m.ev));
      }
    } else {
      hide Of, Act, CanAct, Delivered, Runs, After, Emitted, Handed, Arrived, Bodies;
      ComposeStep(Swap(s), b, a, Swap(t), m.ev);
      TotalsExtend(b, m.ev);
      ConcatAssoc(s.ba.written, Bodies(b), Body(m.ev));
      if CanAct(Swap(t), m.ev) {
        ActDelivers(Swap(t), m.ev);
        ConcatAssoc(s.ab.delivered, Handed(s.b, b), Delivered(t.b, m.ev));
      }
    }
  }

  lemma ActDelivers(s: Sys, ev: Event)
    requires CanAct(s, ev)
    ensures Enabled(s.a, ev)
  {
  }

  /** A list of moves is a run of the pair exactly when each side's events are a run of that
      endpoint alone and no read is ahead of the other side's sends; the endpoints reached are
      those that the two runs lead to. */
  lemma {:induction false} LegalIff(s: Sys, moves: seq<Move>)
    ensures Legal(s, moves) <==> Causal(s, moves)
    ensures Legal(s, moves) ==> Consistent(s, moves) && Composed(s, moves, Reached(s, moves))
    decreases |moves|
  {
    if moves == [] {
      StartConsistent(s);
    } else {
      var k := |moves| - 1;
      LegalIff(s, moves[..k]);
      CausalLast(s, moves);
      hide Causal, Consistent, Composed, CanMove, MoveTo;
      if Legal(s, moves[..k]) {
        ComposeMove(s, moves, Reached(s, moves[..k]));
      }
    }
  }

  lemma StartConsistent(s: Sys)
    ensures Consistent(s, []) && Causal(s, []) && Composed(s, [], s)
  {
    assert Of([], true) == [] && Of([], false) == [];
    var none: seq<Move> := [];
    assert none[..0] == none;
  }

  /** Any two endpoints whose reads are not ahead of each other's sends conserve credit, and hand
      out what the other one was given to write, in order. */
  lemma TracesConserve(maxA: int, maxB: int, moves: seq<Move>)
    requires 0 <= maxA + MAX_PACKET < 0x1_0000 && 0 <= maxB + MAX_PACKET < 0x1_0000
    requires Causal(Start(maxA, maxB), moves)
    ensures var a, b := Of(moves, true), Of(moves, false);
            && Runs(Fresh(maxA), a) && Runs(Fresh(maxB), b)
            && Handed(Fresh(maxB), b) <= Bodies(a) && Handed(Fresh(maxA), a) <= Bodies(b)
            && var ea, eb := After(Fresh(maxA), a), After(Fresh(maxB), b);
            && ea.bytesSentNotReceived <= maxA + MAX_PACKET && eb.bytesSentNotReceived <= maxB + MAX_PACKET
            && ea.bytesReceivedNotConfirmed < 0x1_0000 && eb.bytesReceivedNotConfirmed < 0x1_0000
  {
    var s := Start(maxA, maxB);
    LegalIff(s, moves);
    CreditTheorem(maxA, maxB, moves);
    StreamTheorem(maxA, maxB, moves);
    WindowStays(s, moves);
    var a, b := Of(moves, true), Of(moves, false);
    assert [] + Handed(s.b, b) == Handed(s.b, b) && [] + Bodies(a) == Bodies(a);
    assert [] + Handed(s.a, a) == Handed(s.a, a) && [] + Bodies(b) == Bodies(b);
  }

  lemma {:induction false} WindowStays(s: Sys, moves: seq<Move>)
    requires Legal(s, moves)
    ensures Reached(s, moves).a.maxAllowedInPipe == s.a.maxAllowedInPipe
    ensures Reached(s, moves).b.maxAllowedInPipe == s.b.maxAllowedInPipe
    decreases |moves|
  {
    if moves != [] {
      WindowStays(s, moves[..|moves| - 1]);
    }
  }

  /** A writer whose window is exceeded has credit coming: when all it sent has arrived, and the
      other side keeps no more than 2000 bytes unconfirmed, which is within the window, then the
      packets on their way to the writer report more than the window is exceeded by. */
  lemma BlockedHasCredit(maxA: int, maxB: int, moves: seq<Move>)
    requires 0 <= maxA + MAX_PACKET < 0x1_0000 && 0 <= maxB + MAX_PACKET < 0x1_0000
    requires Legal(Start(maxA, maxB), moves)
    ensures var t := Reached(Start(maxA, maxB), moves);
            && WellFramed(t.a, t.ba) && WellFramed(t.b, t.ab)
            && (maxA >= 2000 && t.ab.flight == [] && t.b.bytesReceivedNotConfirmed <= 2000 ==>
                  t.a.bytesSentNotReceived > maxA ==>
                    CreditDue(t.a, t.ba) > 0 && t.a.bytesSentNotReceived - CreditDue(t.a, t.ba) <= maxA)
            && (maxB >= 2000 && t.ba.flight == [] && t.a.bytesReceivedNotConfirmed <= 2000 ==>
                  t.b.bytesSentNotReceived > maxB ==>
                    CreditDue(t.b, t.ab) > 0 && t.b.bytesSentNotReceived - CreditDue(t.b, t.ab) <= maxB)
  {
    CreditTheorem(maxA, maxB, moves);
  }

  /** Without a bound on the window: a packet keeps the peer's credit equation exactly when the
      number of unconfirmed bytes fits the two-byte field that reports it. */
  lemma SendConservesIff(s: Sys, body: seq<Byte>)
    requires CanAct(s, Send(body))
    requires WellFramed(s.a, s.ba) && WellFramed(s.b, s.ab)
    requires CreditConserved(s.b, s.a, s.ba, s.ab)
    ensures var t := Act(s, Send(body));
            && WellFramed(t.b, t.ab)
            && (CreditConserved(t.b, t.a, t.ba, t.ab) <==> s.a.bytesReceivedNotConfirmed < 0x1_0000)
  {
    SendOnWire(s, body);
  }
}
