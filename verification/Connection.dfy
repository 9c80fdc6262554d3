/** The connection_state object of gcl-tk: read1, write1 and scan_headers on a real buffer.
    Every method extends a ghost trace of protocol events, so what is proved of all traces
    in module Protocol holds of the code here. */
module Connection {
  import opened Packets
  import opened Protocol

  /** How read1 ended: all bytes delivered, SAFE_READ gave 0 or -1, or the process aborted. */
  datatype Status = Full | Short(nread: int) | Aborted

  // The room that lines 172-183 of comm.c make -----------------------------

  datatype Room = Room(capacity: nat, offset: nat)

  function MakeRoomSpec(capacity: nat, offset: nat, size: nat): Room
    requires offset + size <= capacity
  {
    if capacity - size < MAX_PACKET then Room(2 * capacity, 0)
    else if capacity - offset < MAX_PACKET then Room(capacity, 0)
    else Room(capacity, offset)
  }

  function Space(r: Room, size: nat): int {
    r.capacity - (r.offset + size)
  }

  /** The comment at line 184 of comm.c promises a packet of free space. It is so exactly when
      the buffer grew, was compacted, or had the space already; offset and size never pass the
      capacity, and a reader that waits for the rest of a packet always has some space. */
  lemma RoomIff(capacity: nat, offset: nat, size: nat)
    requires offset + size <= capacity && capacity >= MAX_PACKET
    ensures var r := MakeRoomSpec(capacity, offset, size);
            && Space(r, size) >= 0
            && (Space(r, size) >= MAX_PACKET <==>
                || capacity - size < MAX_PACKET
                || capacity - offset < MAX_PACKET
                || capacity - (offset + size) >= MAX_PACKET)
            && (size < MAX_PACKET ==> Space(r, size) > 0)
  {
  }

  /** Where the valid data lies in the buffer. */
  datatype Place = Place(capacity: nat, offset: nat, size: nat)

  function MadeRoom(p: Place): Place
    requires p.offset + p.size <= p.capacity
  {
    var r := MakeRoomSpec(p.capacity, p.offset, p.size);
    Place(r.capacity, r.offset, p.size)
  }

  function FreeSpace(p: Place): int {
    p.capacity - (p.offset + p.size)
  }

  /** Room is made and n bytes are read into it. */
  ghost predicate ReadsInto(p: Place, q: Place, n: int) {
    && p.offset + p.size <= p.capacity
    && 0 < n <= FreeSpace(MadeRoom(p))
    && q == MadeRoom(p).(size := p.size + n)
  }

  /** n bytes of packets are passed over. */
  ghost predicate TakesOut(p: Place, q: Place, n: nat) {
    n <= p.size && q == p.(offset := p.offset + n, size := p.size - n)
  }

  /** No room can be made: SAFE_READ will be asked for 0 bytes. */
  ghost predicate NoSpace(p: Place) {
    p.offset + p.size <= p.capacity && FreeSpace(MadeRoom(p)) == 0
  }

  /** Three steps lead from an empty buffer of two pages to one without any space: a read of
      5000 bytes, 1192 of them taken out, and a read of 3192 more. */
  lemma NoRoomExample()
    ensures var start, p := Place(8192, 0, 0), Place(8192, 0, 5000);
            var q, full := Place(8192, 1192, 3808), Place(8192, 1192, 7000);
            && ReadsInto(start, p, 5000) && TakesOut(p, q, 1192) && ReadsInto(q, full, 3192)
            && NoSpace(full)
  {
    assert MadeRoom(Place(8192, 0, 0)) == Place(8192, 0, 0);
    assert MadeRoom(Place(8192, 1192, 3808)) == Place(8192, 1192, 3808);
    assert MadeRoom(Place(8192, 1192, 7000)) == Place(8192, 1192, 7000);
  }

  // scan_headers on values -------------------------------------------------

  /** The state of the scan of s after k bytes: b is the buffer now, got the credit so far. */
  ghost predicate ScanSoFar(s: seq<Byte>, t: seq<Byte>, k: nat, b: seq<Byte>, got: int) {
    && |b| == |s|
    && if k <= |s| then
         && b[k..] == s[k..]
         && Framed(s[k..] + t)
         && Scan(s).0 == b[..k] + Scan(s[k..]).0
         && Scan(s).1 == got + Scan(s[k..]).1
       else
         Scan(s) == (b, got)
  }

  lemma ScanStep(s: seq<Byte>, t: seq<Byte>, k: nat, b: seq<Byte>, got: int)
    requires |b| == |s| && k + HDR_SIZE <= |s| && ScanSoFar(s, t, k, b, got)
    ensures b[k] == OUR_SOCK_MAGIC && HDR_SIZE <= PacketLength(b[k..]) <= MAX_PACKET
    ensures ScanSoFar(s, t, k + PacketLength(b[k..]), b[k + 3 := 0][k + 4 := 0],
                      got + PacketReceived(b[k..]))
  {
    FirstHeader(s[k..], t);
    if k + PacketLength(s[k..]) <= |s| {
      ScanWholePacket(s, t, k, b, got);
    } else {
      ScanPartPacket(s, t, k, b, got);
    }
  }

  lemma ScanWholePacket(s: seq<Byte>, t: seq<Byte>, k: nat, b: seq<Byte>, got: int)
    requires |b| == |s| && k + HDR_SIZE <= |s| && ScanSoFar(s, t, k, b, got)
    requires HDR_SIZE <= PacketLength(s[k..]) <= |s| - k
    ensures ScanSoFar(s, t, k + PacketLength(s[k..]), b[k + 3 := 0][k + 4 := 0],
                      got + PacketReceived(s[k..]))
  {
    hide Framed, PacketLength, PacketReceived;
    var cur := s[k..];
    var n := PacketLength(cur);
    var c := b[k + 3 := 0][k + 4 := 0];
    SplitAppended(cur, t);
    assert cur[n..] == s[k + n..] == c[k + n..];
    ZeroInPlace(b, k, n);
    ScanHead(cur);
    ConcatAssoc(b[..k], ZeroReceived(cur[..n]), Scan(cur[n..]).0);
  }

  lemma ScanPartPacket(s: seq<Byte>, t: seq<Byte>, k: nat, b: seq<Byte>, got: int)
    requires |b| == |s| && k + HDR_SIZE <= |s| && ScanSoFar(s, t, k, b, got)
    requires PacketLength(s[k..]) > |s| - k
    ensures ScanSoFar(s, t, k + PacketLength(s[k..]), b[k + 3 := 0][k + 4 := 0],
                      got + PacketReceived(s[k..]))
  {
    hide Framed, PacketLength, PacketReceived, Scan, ZeroReceived;
    var cur := s[k..];
    var c := b[k + 3 := 0][k + 4 := 0];
    ScanPart(cur);
    ZeroInPlace(b, k, |cur|);
    assert cur[..|cur|] == cur && c[..|s|] == c;
  }

  lemma ScanPart(cur: seq<Byte>)
    requires |cur| >= HDR_SIZE && PacketLength(cur) > |cur|
    ensures Scan(cur) == (ZeroReceived(cur), PacketReceived(cur))
  {
  }

  lemma ScanHead(cur: seq<Byte>)
    requires |cur| >= HDR_SIZE && HDR_SIZE <= PacketLength(cur) <= |cur|
    ensures var n := PacketLength(cur);
            && Scan(cur).0 == ZeroReceived(cur[..n]) + Scan(cur[n..]).0
            && Scan(cur).1 == PacketReceived(cur) + Scan(cur[n..]).1
  {
    if PacketLength(cur) == |cur| {
      assert cur[..|cur|] == cur;
    }
  }

  lemma FirstHeader(cur: seq<Byte>, t: seq<Byte>)
    requires Framed(cur + t) && |cur| >= HDR_SIZE
    ensures cur[0] == OUR_SOCK_MAGIC && HDR_SIZE <= PacketLength(cur) <= MAX_PACKET
  {
    assert PacketLength(cur + t) == PacketLength(cur) && (cur + t)[0] == cur[0];
  }

  lemma ZeroInPlace(b: seq<Byte>, k: nat, n: nat)
    requires HDR_SIZE <= n && k + n <= |b|
    ensures b[k + 3 := 0][k + 4 := 0][..k + n] == b[..k] + ZeroReceived(b[k..][..n])
  {
  }

  lemma ScanDone(s: seq<Byte>, t: seq<Byte>, k: nat, b: seq<Byte>, got: int)
    requires |b| == |s| && k + HDR_SIZE > |s| && ScanSoFar(s, t, k, b, got)
    ensures Scan(s) == (b, got)
  {
    hide Framed;
    if k <= |s| {
      assert Scan(s[k..]) == (s[k..], 0);
      assert b == b[..k] + b[k..];
    }
  }

  lemma ScanStarts(s: seq<Byte>, t: seq<Byte>)
    requires Framed(s + t)
    ensures ScanSoFar(s, t, 0, s, 0)
  {
    assert s[0..] == s;
    assert [] + Scan(s).0 == Scan(s).0;
  }

  /** Reading and zeroing the header k bytes into the packets rb[base..base + len]. */
  lemma HeaderInBuffer(rb: seq<Byte>, start: nat, base: nat, len: nat, k: nat)
    requires start <= base && base + len <= |rb| && k + HDR_SIZE <= len
    ensures var b := rb[base..base + len];
            var p := base + k;
            var z := rb[p + 3 := 0][p + 4 := 0];
            && rb[p] == b[k]
            && Get2(rb, p + 3) == PacketReceived(b[k..])
            && Get2(z, p + 1) == PacketLength(b[k..])
            && z[base..base + len] == b[k + 3 := 0][k + 4 := 0]
            && z[start..base] == rb[start..base]
  {
    var b := rb[base..base + len];
    assert forall i | 0 <= i < HDR_SIZE :: b[k..][i] == rb[base + k + i];
  }

  lemma ScanResult(pre: seq<Byte>, s: seq<Byte>, t: seq<Byte>)
    requires Framed(s + t)
    ensures Framed(Scan(s).0 + t)
    ensures Payload(Scan(s).0 + t) == Payload(s + t)
    ensures Scanned(Scan(s).0)
    ensures (pre + s)[|pre|..] == s && (pre + s)[..|pre|] == pre
  {
    ScanMovesCredit(s, t);
    ScanIsScanned(s);
  }

  /** What is left of an open packet or of the packets after it stays scanned. */
  lemma ScannedTail(s: seq<Byte>, n: nat)
    requires Scanned(s) && |s| >= HDR_SIZE && HDR_SIZE <= n == PacketLength(s) <= |s|
    ensures PacketReceived(s) == 0 && Scanned(s[n..])
  {
  }

  /** Opening the packet at the front of s: what it delivers and what it leaves. */
  lemma OpenOnTotal(s: seq<Byte>, t: seq<Byte>, mm: nat, out: seq<Byte>, open: seq<Byte>, packets: seq<Byte>)
    requires |s| >= HDR_SIZE && Framed(s + t) && Scanned(s) && HDR_SIZE + mm <= PacketLength(s) <= |s|
    requires out == s[HDR_SIZE..HDR_SIZE + mm] && open + packets == s[HDR_SIZE + mm..]
    requires |open| == PacketLength(s) - (HDR_SIZE + mm)
    ensures PacketReceived(s) == 0 && Framed(packets + t) && Scanned(packets)
    ensures Payload(s + t) == out + (open + Payload(packets + t))
  {
    hide Framed, Scanned, Payload, PacketLength, PacketReceived, OnePacket;
    var n := PacketLength(s);
    SplitBody(s, n, mm, out, open, packets);
    SplitAppended(s, t);
    ScannedTail(s, n);
    FirstPacket(s[..n], packets + t);
    ConcatAssoc(out, open, Payload(packets + t));
  }

  lemma SplitBody(s: seq<Byte>, n: nat, mm: nat, out: seq<Byte>, open: seq<Byte>, packets: seq<Byte>)
    requires HDR_SIZE + mm <= n <= |s| && out == s[HDR_SIZE..HDR_SIZE + mm]
    requires open + packets == s[HDR_SIZE + mm..] && |open| == n - (HDR_SIZE + mm)
    ensures s[n..] == packets && s[..n][HDR_SIZE..] == out + open
  {
    var k := HDR_SIZE + mm;
    assert open == s[k..][..n - k] && packets == s[k..][n - k..];
    SliceOfSlice(s, k, |s|, n - k, |s| - k);
    assert s[k..] == s[k..|s|];
    SliceOfSlice(s, k, |s|, 0, n - k);
    JoinSlices(s, HDR_SIZE, k, n);
    assert s[..n][HDR_SIZE..] == s[HDR_SIZE..n];
  }

  /** Taking from the open packet leaves the packets behind it. */
  lemma CopyTotal(open: seq<Byte>, packets: seq<Byte>, out: seq<Byte>, open2: seq<Byte>, packets2: seq<Byte>)
    requires |out| <= |open| && out == (open + packets)[0..|out|]
    requires open2 + packets2 == (open + packets)[|out|..] && |open2| == |open| - |out|
    ensures open == out + open2 && packets == packets2
    ensures (open + packets)[..|out|] == out
  {
    assert (open + packets)[|out|..] == open[|out|..] + packets;
    assert open2 == (open2 + packets2)[..|open2|] && packets2 == (open2 + packets2)[|open2|..];
  }

  /** The valid data as one sequence. */
  lemma ValidBytes(rb: seq<Byte>, v: nat, npo: nat, size: nat, skip: nat, n: nat)
    requires npo <= size && v + size <= |rb| && skip <= n <= size
    ensures var all := rb[v..v + npo] + rb[v + npo..v + size];
            && |all| == size && all[skip..n] == rb[v + skip..v + n] && all[n..] == rb[v + n..v + size]
  {
    JoinSlices(rb, v, v + npo, v + size);
    SliceOfSlice(rb, v, v + size, skip, n);
    SliceOfSlice(rb, v, v + size, n, size);
    var all := rb[v..v + size];
    assert all[n..] == all[n..size];
  }

  /** Moving the valid data to the front of a buffer. */
  lemma MovedToFront(rb: seq<Byte>, v: nat, npo: nat, size: nat, tail: seq<Byte>)
    requires npo <= size && v + size <= |rb|
    ensures var z := rb[v..v + size] + tail;
            && |z| == size + |tail|
            && z[0..npo] == rb[v..v + npo]
            && z[npo..size] == rb[v + npo..v + size]
  {
    SliceOfSlice(rb, v, v + size, 0, npo);
    SliceOfSlice(rb, v, v + size, npo, size);
    var z := rb[v..v + size] + tail;
    assert z[0..npo] == rb[v..v + size][0..npo];
    assert z[npo..size] == rb[v..v + size][npo..size];
  }

  lemma AppendToBuffer(rb: seq<Byte>, v: nat, npo: nat, size: nat, data: seq<Byte>)
    requires npo <= size && v + size + |data| <= |rb|
    ensures var e := v + size;
            var n := |data|;
            var z := rb[..e] + data + rb[e + n..];
            && |z| == |rb|
            && z[v..v + npo] == rb[v..v + npo]
            && z[v + npo..e + n] == rb[v + npo..e] + data
  {
  }

  lemma HeaderHere(rb: seq<Byte>, v: nat, size: nat, t: seq<Byte>)
    requires HDR_SIZE <= size && v + size <= |rb| && Framed(rb[v..v + size] + t)
    ensures HDR_SIZE <= Get2(rb, v + 1) <= MAX_PACKET
    ensures PacketLength(rb[v..v + size]) == Get2(rb, v + 1)
  {
    var s := rb[v..v + size];
    assert s[1] == rb[v + 1] && s[2] == rb[v + 2];
    FirstHeader(s, t);
  }

  // Single steps on values ------------------------------------------------------------------

  lemma ArriveView(open: seq<Byte>, packets: seq<Byte>, e: Endpoint, data: seq<Byte>)
    requires e.buf == open + packets && e.nextPacketOffset <= |e.buf| && data != []
    ensures Enabled(e, Arrive(data)) && Sent(e, Arrive(data)) == [] && Delivered(e, Arrive(data)) == []
    ensures Apply(e, Arrive(data)) ==
              e.(buf := open + (packets + data),
                 bytesReceivedNotConfirmed := e.bytesReceivedNotConfirmed + |data|,
                 totalBytesReceived := e.totalBytesReceived + |data|)
  {
    ConcatAssoc(open, packets, data);
  }

  lemma ArriveRecord(data: seq<Byte>, inbox: seq<Byte>, outbox: seq<Byte>)
    ensures data + inbox == ArrivedBy(Arrive(data)) + inbox && outbox + [] == outbox
  {
  }

  lemma CopyView(out: seq<Byte>, rest: seq<Byte>, e: Endpoint)
    requires |out| <= e.nextPacketOffset <= |e.buf| && e.buf[..|out|] == out && e.buf[|out|..] == rest
    ensures Enabled(e, Copy(|out|)) && Sent(e, Copy(|out|)) == [] && ArrivedBy(Copy(|out|)) == []
    ensures Delivered(e, Copy(|out|)) == out
    ensures Apply(e, Copy(|out|)) == e.(buf := rest, nextPacketOffset := e.nextPacketOffset - |out|)
  {
  }

  lemma NoOpenPart(open: seq<Byte>, packets: seq<Byte>, rest: seq<Byte>)
    requires open == []
    ensures open + packets == packets && open + rest == rest
  {
  }

  lemma OpenView(e: Endpoint, mm: nat, out: seq<Byte>, rest: seq<Byte>)
    requires e.nextPacketOffset == 0 && |e.buf| >= HDR_SIZE && PacketReceived(e.buf) == 0
    requires HDR_SIZE + mm <= PacketLength(e.buf) <= |e.buf|
    requires e.buf[HDR_SIZE..HDR_SIZE + mm] == out && e.buf[HDR_SIZE + mm..] == rest
    ensures Enabled(e, Open(mm)) && Sent(e, Open(mm)) == [] && ArrivedBy(Open(mm)) == []
    ensures Delivered(e, Open(mm)) == out
    ensures Apply(e, Open(mm)) == e.(buf := rest, nextPacketOffset := PacketLength(e.buf) - HDR_SIZE - mm)
  {
  }

  lemma SendView(e: Endpoint, chunk: seq<Byte>)
    requires e.nextPacketOffset <= |e.buf| && e.bytesSentNotReceived <= e.maxAllowedInPipe
    requires |chunk| <= MAX_PACKET - HDR_SIZE
    ensures Enabled(e, Send(chunk)) && Delivered(e, Send(chunk)) == [] && ArrivedBy(Send(chunk)) == []
    ensures Sent(e, Send(chunk)) == Packet(e.bytesReceivedNotConfirmed, chunk)
    ensures Apply(e, Send(chunk)) ==
              e.(bytesReceivedNotConfirmed := 0, bytesSentNotReceived := e.bytesSentNotReceived + HDR_SIZE + |chunk|)
  {
  }

  // What happened to the reads and waits of a connection ------------------------------------

  /** One SAFE_READ and its result, or one wait of write1 for credit: the bytes not acknowledged
      before and after it. */
  datatype Note = Got(space: nat, nread: int) | Waited(before: int, after: int)

  /** The last thing that happened is a read that gave nothing. */
  predicate EndsEmpty(log: seq<Note>) {
    log != [] && var n := log[|log| - 1]; n.Got? && -1 <= n.nread <= 0
  }

  /** The last thing that happened is a wait that began with a window of max exceeded and brought
      no credit; bs bytes are not acknowledged now. */
  predicate EndsBlocked(log: seq<Note>, max: int, bs: int) {
    log != [] && var n := log[|log| - 1]; n.Waited? && max < n.before <= n.after == bs
  }

  lemma NoteLast(log: seq<Note>, n: Note)
    ensures log <= log + [n] && (log + [n])[|log|] == n
  {
  }

  /** s has no whole packet at its front. */
  predicate NoWholePacket(s: seq<Byte>) {
    |s| >= HDR_SIZE ==> PacketLength(s) > |s|
  }

  /** The body of the last packet of those that write1 cuts p into. */
  function LastChunk(p: seq<Byte>): seq<Byte>
    decreases |p|
  {
    if |p| <= MAX_PACKET - HDR_SIZE then p else LastChunk(p[MAX_PACKET - HDR_SIZE..])
  }

  // The object -------------------------------------------------------------------------------

  class ConnectionState {
    var readBuffer: seq<Byte>        // grown by doubling, so not an array
    var validData: nat               // valid_data - read_buffer
    var validDataSize: nat
    var nextPacketOffset: nat
    var bytesSentNotReceived: int
    var bytesReceivedNotConfirmed: nat
    var totalBytesReceived: nat
    var maxAllowedInPipe: int

    // The file descriptor: the bytes the peer will ever send, and the bytes sent to the peer.
    var inbox: seq<Byte>
    var outbox: seq<Byte>

    ghost const origin: Endpoint
    ghost const peer: seq<Byte>      // all that inbox ever held
    ghost var trace: seq<Event>
    ghost var log: seq<Note>

    ghost predicate InBounds()
      reads this`readBuffer, this`validData, this`validDataSize, this`nextPacketOffset
    {
      && validData + validDataSize <= |readBuffer|
      && |readBuffer| >= MAX_PACKET
      && nextPacketOffset <= validDataSize
    }

    /** The rest of the open packet. */
    ghost function OpenPart(): (s: seq<Byte>)
      requires InBounds()
      reads this`readBuffer, this`validData, this`validDataSize, this`nextPacketOffset
      ensures |s| == nextPacketOffset
    {
      readBuffer[validData..validData + nextPacketOffset]
    }

    /** The buffered bytes from the next packet boundary on. */
    ghost function Packets(): (s: seq<Byte>)
      requires InBounds()
      reads this`readBuffer, this`validData, this`validDataSize, this`nextPacketOffset
      ensures |s| == validDataSize - nextPacketOffset
    {
      readBuffer[validData + nextPacketOffset..validData + validDataSize]
    }

    ghost function View(): Endpoint
      requires InBounds()
      reads this`readBuffer, this`validData, this`validDataSize, this`nextPacketOffset
      reads this`bytesSentNotReceived, this`bytesReceivedNotConfirmed, this`totalBytesReceived, this`maxAllowedInPipe
    {
      Endpoint(OpenPart() + Packets(), nextPacketOffset, bytesSentNotReceived,
               bytesReceivedNotConfirmed, totalBytesReceived, maxAllowedInPipe)
    }

    ghost predicate Valid()
      reads this`readBuffer, this`validData, this`validDataSize, this`nextPacketOffset
      reads this`bytesSentNotReceived, this`bytesReceivedNotConfirmed, this`totalBytesReceived, this`maxAllowedInPipe
      reads this`inbox, this`outbox, this`trace
    {
      && InBounds()
      && Framed(Packets() + inbox)
      && Framed(outbox)
      && Follows(origin, trace, View(), outbox, peer, inbox)
    }

    /** The user bytes this end has not handed out yet. */
    ghost function Remaining(): seq<Byte>
      requires InBounds() && Framed(Packets() + inbox)
      reads this`readBuffer, this`validData, this`validDataSize, this`nextPacketOffset, this`inbox
    {
      OpenPart() + Payload(Packets() + inbox)
    }

    /** The user bytes this end has handed out. */
    ghost function HandedOut(): seq<Byte>
      requires Valid()
      reads this`readBuffer, this`validData, this`validDataSize, this`nextPacketOffset
      reads this`bytesSentNotReceived, this`bytesReceivedNotConfirmed, this`totalBytesReceived, this`maxAllowedInPipe
      reads this`inbox, this`outbox, this`trace
    {
      Handed(origin, trace)
    }

    /** All complete headers in the buffer have given their credit. */
    ghost predicate Settled()
      requires InBounds()
      reads this`readBuffer, this`validData, this`validDataSize, this`nextPacketOffset
    {
      Scanned(Packets())
    }

    /** Nothing more can be handed out without a read. */
    ghost predicate Drained()
      requires InBounds()
      reads this`readBuffer, this`validData, this`validDataSize, this`nextPacketOffset
    {
      nextPacketOffset == 0 && NoWholePacket(Packets())
    }

    ghost function Extent(): Place
      reads this`readBuffer, this`validData, this`validDataSize
    {
      Place(|readBuffer|, validData, validDataSize)
    }

    /** What no call ever undoes. */
    twostate predicate Advances()
      reads this
    {
      && old(trace) <= trace
      && old(log) <= log
      && maxAllowedInPipe == old(maxAllowedInPipe)
      && |inbox| <= |old(inbox)|
    }

    /** The call ended with a read that gave nothing. */
    twostate predicate ReadNothing()
      reads this
    {
      |log| > |old(log)| && EndsEmpty(log)
    }

    /** The call ended in write_timeout_error: it waited with the window exceeded, and no credit
        came. */
    twostate predicate GaveUp()
      reads this
    {
      |log| > |old(log)| && EndsBlocked(log, maxAllowedInPipe, bytesSentNotReceived)
    }

    /** setup_connection_state */
    constructor (pageSize: nat, peer: seq<Byte>)
      requires 2 * pageSize >= MAX_PACKET
      requires Framed(peer)
      ensures Valid() && Settled()
      ensures origin == Fresh(pageSize) && trace == [] && log == [] && this.peer == peer
      ensures inbox == peer && Remaining() == Payload(peer) && outbox == []
      ensures Extent() == Place(2 * pageSize, 0, 0)
    {
      readBuffer := seq(2 * pageSize, i => 0);
      validData, validDataSize, nextPacketOffset := 0, 0, 0;
      bytesSentNotReceived, bytesReceivedNotConfirmed, totalBytesReceived := 0, 0, 0;
      maxAllowedInPipe := pageSize;
      inbox, outbox := peer, [];
      origin, trace, log := Fresh(pageSize), [], [];
      this.peer := peer;
      new;
      hide Follows, Framed, Payload;
      FollowsStart(origin, peer);
      EmptyBuffer(readBuffer, peer);
      HandedSame(Payload(peer), []);
    }

    /** The event that led from the endpoint e to the present one joins the trace. */
    ghost method Record(ev: Event, e: Endpoint, outbox0: seq<Byte>, inbox0: seq<Byte>)
      requires InBounds() && Framed(Packets() + inbox) && Framed(outbox)
      requires Follows(origin, trace, e, outbox0, peer, inbox0) && Enabled(e, ev)
      requires View() == Apply(e, ev) && outbox == outbox0 + Sent(e, ev) && inbox0 == ArrivedBy(ev) + inbox
      modifies this`trace
      ensures Valid() && trace == old(trace) + [ev] && Runs(origin, old(trace))
      ensures HandedOut() == Handed(origin, old(trace)) + Delivered(e, ev)
    {
      hide Framed, Follows, Handed, Apply, Enabled, Sent, Delivered, ArrivedBy, OpenPart, Packets;
      FollowsExtend(origin, trace, e, outbox0, peer, inbox0, ev, inbox);
      trace := trace + [ev];
    }

    /** SAFE_READ: nothing or an error, or any number of bytes up to the space given. */
    method SafeRead(space: nat) returns (nread: int, data: seq<Byte>)
      modifies this`inbox, this`log
      ensures -1 <= nread <= space && (nread > 0 ==> nread <= |old(inbox)|)
      ensures nread <= 0 ==> inbox == old(inbox)
      ensures nread > 0 ==> data == old(inbox)[..nread] && inbox == old(inbox)[nread..]
      ensures log == old(log) + [Got(space, nread)]
    {
      nread :| -1 <= nread <= space && nread <= |inbox|;
      data := [];
      if nread > 0 {
        data, inbox := inbox[..nread], inbox[nread..];
      }
      log := log + [Got(space, nread)];
    }

    /** comm.c:90-96: the header at p, k bytes into the packets. */
    method TakeHeader(p: nat, ghost k: nat) returns (received: nat, length: nat)
      requires InBounds() && p == validData + nextPacketOffset + k && k + HDR_SIZE <= |Packets()|
      requires Packets()[k] == OUR_SOCK_MAGIC
      modifies this`readBuffer
      ensures InBounds() && OpenPart() == old(OpenPart())
      ensures Packets() == old(Packets())[k + 3 := 0][k + 4 := 0] && |readBuffer| == |old(readBuffer)|
      ensures received == PacketReceived(old(Packets())[k..])
      ensures length == PacketLength(old(Packets())[k..])
    {
      hide Get2;
      HeaderInBuffer(readBuffer, validData, validData + nextPacketOffset, |Packets()|, k);
      assert readBuffer[p] == OUR_SOCK_MAGIC;      // so the abort() is never reached
      received := Get2(readBuffer, p + 3);
      readBuffer := readBuffer[p + 3 := 0][p + 4 := 0];
      length := Get2(readBuffer, p + 1);
    }

    /** comm.c:86-99: the loop over the headers. */
    method ScanLoop()
      requires InBounds() && Framed(Packets() + inbox)
      modifies this`bytesSentNotReceived, this`readBuffer
      ensures InBounds() && OpenPart() == old(OpenPart())
      ensures Packets() == Scan(old(Packets())).0 && |readBuffer| == |old(readBuffer)|
      ensures bytesSentNotReceived == old(bytesSentNotReceived) - Scan(old(Packets())).1
    {
      hide Framed, Scan, ScanSoFar, Get2, PacketLength, PacketReceived, OpenPart, Packets;
      var p := validData + nextPacketOffset;
      var n: int := validDataSize - nextPacketOffset;
      ghost var s, pre, k, got := Packets(), OpenPart(), 0, 0;
      ScanStarts(s, inbox);
      while n >= HDR_SIZE
        invariant p == validData + nextPacketOffset + k && n == |s| - k
        invariant InBounds() && OpenPart() == pre && bytesSentNotReceived == old(bytesSentNotReceived) - got
        invariant ScanSoFar(s, inbox, k, Packets(), got) && |readBuffer| == |old(readBuffer)|
        decreases n
      {
        ghost var b := Packets();
        ScanStep(s, inbox, k, b, got);
        var received, length := TakeHeader(p, k);
        bytesSentNotReceived := bytesSentNotReceived - received;
        p := p + length;
        n := n - length;
        k, got := k + length, got + received;
      }
      ScanDone(s, inbox, k, Packets(), got);
    }

    /** comm.c:82-100 */
    method ScanHeaders()
      requires Valid()
      modifies this`bytesSentNotReceived, this`trace, this`readBuffer
      ensures Valid() && Settled() && trace == old(trace) + [TakeCredit] && HandedOut() == old(HandedOut())
      ensures Remaining() == old(Remaining()) && Extent() == old(Extent())
    {
      hide Framed, Scan, Scanned, Payload, Follows, Handed, OpenPart, Packets;
      ghost var s, pre := Packets(), OpenPart();
      ScanLoop();
      ScanResult(pre, s, inbox);
      HandedSame(old(HandedOut()), outbox);
      Record(TakeCredit, old(View()), outbox, inbox);
    }

    /** Memory with arbitrary contents. */
    method Malloc(n: nat) returns (s: seq<Byte>)
      ensures |s| == n
    {
      s := seq(n, i => 0);
    }

    /** The valid data moves to the front, with tail behind it. */
    method MoveToFront(tail: seq<Byte>)
      requires InBounds() && validDataSize + |tail| >= MAX_PACKET
      modifies this`readBuffer, this`validData
      ensures InBounds() && OpenPart() == old(OpenPart()) && Packets() == old(Packets())
      ensures Extent() == Place(validDataSize + |tail|, 0, validDataSize)
    {
      MovedToFront(readBuffer, validData, nextPacketOffset, validDataSize, tail);
      readBuffer := readBuffer[validData..validData + validDataSize] + tail;
      validData := 0;
    }

    /** comm.c:172-183: grow by doubling, then move the valid data to the front. */
    method Relocate() returns (space: nat)
      requires InBounds()
      modifies this`readBuffer, this`validData
      ensures InBounds() && OpenPart() == old(OpenPart()) && Packets() == old(Packets())
      ensures Extent() == MadeRoom(old(Extent())) && space == FreeSpace(Extent())
    {
      hide OpenPart, Packets;
      if |readBuffer| - validDataSize < MAX_PACKET {
        var tmp := Malloc(2 * |readBuffer| - validDataSize);
        MoveToFront(tmp);
      }
      if |readBuffer| - validData < MAX_PACKET {
        MoveToFront(readBuffer[validDataSize..]);
      }
      space := |readBuffer| - (validData + validDataSize);
    }

    method MakeRoom() returns (space: nat)
      requires Valid()
      modifies this`readBuffer, this`validData
      ensures Valid() && OpenPart() == old(OpenPart()) && Packets() == old(Packets())
      ensures HandedOut() == old(HandedOut())
      ensures Extent() == MadeRoom(old(Extent())) && space == FreeSpace(Extent())
    {
      hide Framed, Follows, Handed, OpenPart, Packets;
      space := Relocate();
    }

    /** The bytes go behind the valid data. */
    method PutBytes(data: seq<Byte>)
      requires InBounds() && validData + validDataSize + |data| <= |readBuffer|
      modifies this`readBuffer, this`validDataSize
      ensures InBounds() && OpenPart() == old(OpenPart()) && Packets() == old(Packets()) + data
      ensures Extent() == old(Extent()).(size := old(validDataSize) + |data|)
    {
      AppendToBuffer(readBuffer, validData, nextPacketOffset, validDataSize, data);
      var start := validData + validDataSize;
      readBuffer := readBuffer[..start] + data + readBuffer[start + |data|..];
      validDataSize := validDataSize + |data|;
    }

    /** The first n bytes of the valid data are passed over, and those from skip on are copied; npo
        more of them belong to the open packet. */
    method TakeBytes(skip: nat, n: nat, npo: nat) returns (out: seq<Byte>)
      requires InBounds() && skip <= n && n + npo <= validDataSize
      modifies this`validData, this`validDataSize, this`nextPacketOffset
      ensures InBounds() && nextPacketOffset == npo && TakesOut(old(Extent()), Extent(), n)
      ensures out == old(OpenPart() + Packets())[skip..n]
      ensures OpenPart() + Packets() == old(OpenPart() + Packets())[n..]
    {
      ValidBytes(readBuffer, validData, nextPacketOffset, validDataSize, skip, n);
      out := readBuffer[validData + skip..validData + n];
      validData := validData + n;
      validDataSize := validDataSize - n;
      nextPacketOffset := npo;
      JoinSlices(readBuffer, validData, validData + npo, validData + validDataSize);
    }

    /** comm.c:196-200 for data already read: store it and count it. */
    method Store(data: seq<Byte>)
      requires InBounds() && data != [] && validData + validDataSize + |data| <= |readBuffer|
      requires Follows(origin, trace, View(), outbox, peer, data + inbox)
      requires Framed(Packets() + (data + inbox)) && Framed(outbox)
      modifies this`readBuffer, this`totalBytesReceived, this`bytesReceivedNotConfirmed, this`validDataSize, this`trace
      ensures Valid() && trace == old(trace) + [Arrive(data)] && OpenPart() == old(OpenPart())
      ensures Packets() == old(Packets()) + data
      ensures Packets() + inbox == old(Packets()) + (data + inbox)
      ensures Runs(origin, old(trace)) && HandedOut() == Handed(origin, old(trace))
      ensures totalBytesReceived == old(totalBytesReceived) + |data|
      ensures bytesReceivedNotConfirmed == old(bytesReceivedNotConfirmed) + |data|
      ensures Extent() == old(Extent()).(size := old(validDataSize) + |data|)
    {
      hide Framed, Follows, Handed, Enabled, Apply, Sent, Delivered, OpenPart, Packets, ArrivedBy;
      ghost var packets, e := Packets(), View();
      ArriveView(OpenPart(), packets, e, data);
      PutBytes(data);
      totalBytesReceived := totalBytesReceived + |data|;
      bytesReceivedNotConfirmed := bytesReceivedNotConfirmed + |data|;
      ConcatAssoc(packets, data, inbox);
      ArriveRecord(data, inbox, outbox);
      Record(Arrive(data), e, outbox, data + inbox);
      HandedSame(Handed(origin, old(trace)), outbox);
    }

    /** comm.c:187-200: one SAFE_READ into the free space and its counters. */
    method Receive(space: nat) returns (nread: int)
      requires Valid() && space == FreeSpace(Extent())
      modifies this
      ensures Valid() && Advances() && OpenPart() == old(OpenPart())
      ensures Remaining() == old(Remaining()) && HandedOut() == old(HandedOut())
      ensures outbox == old(outbox) && bytesSentNotReceived == old(bytesSentNotReceived)
      ensures log == old(log) + [Got(space, nread)] && -1 <= nread <= space
      ensures nread <= 0 ==> Packets() == old(Packets()) && inbox == old(inbox) && Extent() == old(Extent())
      ensures nread > 0 ==> |inbox| == |old(inbox)| - nread
      ensures nread > 0 ==> Extent() == old(Extent()).(size := old(validDataSize) + nread)
      ensures nextPacketOffset == old(nextPacketOffset)
      ensures var n := if nread > 0 then nread else 0;
              && totalBytesReceived == old(totalBytesReceived) + n
              && bytesReceivedNotConfirmed == old(bytesReceivedNotConfirmed) + n
    {
      hide Framed, Payload, Follows, Handed;
      var data;
      nread, data := SafeRead(space);
      if nread > 0 {
        assert data + inbox == old(inbox);
        Store(data);
      }
    }

    /** comm.c:135-144: copy out of the open packet. */
    method CopyOut(mm: nat) returns (out: seq<Byte>)
      requires Valid() && mm <= nextPacketOffset
      modifies this`validData, this`validDataSize, this`nextPacketOffset, this`trace
      ensures Valid() && old(trace) <= trace && Packets() == old(Packets())
      ensures |out| == mm && old(Remaining()) == out + Remaining() && HandedOut() == old(HandedOut()) + out
      ensures TakesOut(old(Extent()), Extent(), mm) && nextPacketOffset == old(nextPacketOffset) - mm
    {
      hide Framed, Payload, Follows, Handed, Enabled, Apply, Sent, Delivered, ArrivedBy, OpenPart, Packets;
      ghost var open, packets, e := OpenPart(), Packets(), View();
      out := TakeBytes(0, mm, nextPacketOffset - mm);
      CopyTotal(open, packets, out, OpenPart(), Packets());
      ConcatAssoc(out, OpenPart(), Payload(packets + inbox));
      CopyView(out, OpenPart() + Packets(), e);
      HandedSame(inbox, outbox);
      Record(Copy(mm), e, outbox, inbox);
    }

    /** comm.c:158-166: step over the header of a whole packet and copy from its body. */
    method OpenPacket(length: nat, mm: nat) returns (out: seq<Byte>)
      requires Valid() && Settled() && nextPacketOffset == 0 && validDataSize >= HDR_SIZE
      requires length == PacketLength(Packets())
      requires HDR_SIZE + mm <= length <= validDataSize
      modifies this`validData, this`validDataSize, this`nextPacketOffset, this`trace
      ensures Valid() && Settled() && old(trace) <= trace
      ensures |out| == mm && old(Remaining()) == out + Remaining() && HandedOut() == old(HandedOut()) + out
      ensures TakesOut(old(Extent()), Extent(), HDR_SIZE + mm)
    {
      hide Framed, Payload, Scanned, Follows, Handed, PacketLength, PacketReceived;
      hide Enabled, Apply, Sent, Delivered, ArrivedBy, OpenPart, Packets;
      ghost var packets, e := Packets(), View();
      NoOpenPart(OpenPart(), packets, Payload(packets + inbox));
      out := TakeBytes(HDR_SIZE, HDR_SIZE + mm, length - (HDR_SIZE + mm));
      OpenOnTotal(packets, inbox, mm, out, OpenPart(), Packets());
      OpenView(e, mm, out, OpenPart() + Packets());
      HandedSame(inbox, outbox);
      Record(Open(mm), e, outbox, inbox);
    }

    /** comm.c:233-255: one packet, with the credit that is due to the peer. */
    method SendPacket(chunk: seq<Byte>)
      requires Valid() && |chunk| <= MAX_PACKET - HDR_SIZE
      requires bytesSentNotReceived <= maxAllowedInPipe
      modifies this`bytesReceivedNotConfirmed, this`bytesSentNotReceived, this`outbox, this`trace
      ensures Valid() && trace == old(trace) + [Send(chunk)] && HandedOut() == old(HandedOut())
      ensures Payload(outbox) == old(Payload(outbox)) + chunk
      ensures outbox == old(outbox + Packet(bytesReceivedNotConfirmed, chunk))
      ensures var n, c := 5 + |chunk|, old(bytesReceivedNotConfirmed);
              outbox == old(outbox) + ([134, n % 256, n / 256, c % 256, c / 256 % 256] + chunk)
      ensures bytesReceivedNotConfirmed == 0
      ensures bytesSentNotReceived == old(bytesSentNotReceived) + HDR_SIZE + |chunk|
    {
      hide Framed, Payload, Follows, Handed, OpenPart, Packets, Enabled, Apply, Sent, Delivered, Packet;
      ghost var e := View();
      SendView(e, chunk);
      PacketBytes(bytesReceivedNotConfirmed, chunk);
      FramedAppend(outbox, bytesReceivedNotConfirmed, chunk);
      outbox := outbox + Packet(bytesReceivedNotConfirmed, chunk);
      bytesReceivedNotConfirmed := 0;
      bytesSentNotReceived := bytesSentNotReceived + HDR_SIZE + |chunk|;
      HandedSame(inbox, outbox);
      HandedSame(old(HandedOut()), outbox);
      Record(Send(chunk), e, old(outbox), inbox);
    }

    /** comm.c:134-169: one pass at TRY_PACKET; needMore is the jump to READ_SOME. */
    method TryPacket(wanted: nat) returns (got: seq<Byte>, needMore: bool)
      requires Valid() && Settled()
      modifies this`validData, this`validDataSize, this`nextPacketOffset, this`trace
      ensures Valid() && Settled() && Advances()
      ensures old(Remaining()) == got + Remaining() && HandedOut() == old(HandedOut()) + got
      ensures |got| <= wanted && (needMore ==> |got| < wanted || wanted == 0)
      ensures needMore ==> Drained()
      ensures needMore || |got| == wanted || validDataSize < old(validDataSize)
    {
      hide Framed, Payload, Scanned, Follows, Handed, Get2;
      got := [];
      assert [] + Remaining() == Remaining() && HandedOut() + [] == HandedOut();
      if nextPacketOffset > 0 {
        var mm := if nextPacketOffset >= wanted then wanted else nextPacketOffset;
        got := CopyOut(mm);
        if |got| == wanted {
          return got, false;
        }
      }
      if validDataSize < HDR_SIZE {
        return got, true;
      }
      var length := Get2(readBuffer, validData + 1);
      HeaderHere(readBuffer, validData, validDataSize, inbox);
      if length > validDataSize {
        return got, true;
      }
      var mm := if wanted - |got| <= length - HDR_SIZE then wanted - |got| else length - HDR_SIZE;
      var more := OpenPacket(length, mm);
      ConcatAssoc(got, more, Remaining());
      ConcatAssoc(old(HandedOut()), got, more);
      got, needMore := got + more, false;
    }

    /** comm.c:121-205. Delivers the next m user bytes, however they were cut into packets and
        reads; out is what went to the caller's buffer. It stops short only when nothing more can
        be handed out and a read has just given nothing, or when a confirmation gave up. With
        m == 0 it only reads. */
    method Read1(m: nat) returns (status: Status, out: seq<Byte>)
      requires Valid() && (m > 0 ==> Settled())
      modifies this
      ensures Valid() && Advances()
      ensures old(Remaining()) == out + Remaining() && HandedOut() == old(HandedOut()) + out
      ensures |out| <= m && (status.Full? ==> |out| == m) && (m > 0 && |out| == m ==> status.Full?)
      ensures status.Short? ==> ReadNothing() && -1 <= status.nread <= 0 && log[|log| - 1].nread == status.nread
      ensures status.Short? && m > 0 ==> Drained()
      ensures status.Aborted? ==> GaveUp()
      ensures m == 0 ==> |log| > |old(log)| && (status.Full? ==> |inbox| < |old(inbox)|)
      ensures status.Full? && |log| > |old(log)| ==> bytesReceivedNotConfirmed <= 2000
      ensures !status.Aborted? && old(bytesReceivedNotConfirmed) <= 2000 ==> bytesReceivedNotConfirmed <= 2000
      ensures m == 0 && old(NoSpace(Extent())) ==> status.Short? && bytesSentNotReceived == old(bytesSentNotReceived)
      ensures Payload(outbox) == old(Payload(outbox))
      ensures |inbox| == |old(inbox)| ==> bytesSentNotReceived == old(bytesSentNotReceived)
      ensures old(Settled()) && !status.Aborted? ==> Settled()
      decreases |inbox|, 1
    {
      hide Framed, Payload, Scanned, Follows, Handed, OpenPart, Packets, Get2, EndsEmpty, EndsBlocked, NoWholePacket;
      var wanted, tryPacket := m, m > 0;
      out := [];
      assert old(Remaining()) == [] + Remaining() && HandedOut() == HandedOut() + [];
      while true
        invariant Valid() && Advances()
        invariant old(Remaining()) == out + Remaining() && HandedOut() == old(HandedOut()) + out
        invariant |out| == m - wanted && 0 <= wanted && (m > 0 ==> wanted > 0)
        invariant Payload(outbox) == old(Payload(outbox))
        invariant |inbox| == |old(inbox)| ==> bytesSentNotReceived == old(bytesSentNotReceived)
        invariant tryPacket || old(Settled()) ==> Settled()
        invariant bytesReceivedNotConfirmed <= 2000 ||
                  (|log| == |old(log)| && bytesReceivedNotConfirmed == old(bytesReceivedNotConfirmed))
        invariant !tryPacket ==> m == 0 && Extent() == old(Extent())
        invariant !tryPacket ==> bytesSentNotReceived == old(bytesSentNotReceived)
        invariant m == 0 && tryPacket ==> |log| > |old(log)| && |inbox| < |old(inbox)| && !old(NoSpace(Extent()))
        decreases |inbox|, validDataSize
      {
        var needMore := true;
        if tryPacket {
          var got;
          got, needMore := TryPacket(wanted);
          ConcatAssoc(out, got, Remaining());
          ConcatAssoc(old(HandedOut()), out, got);
          out, wanted := out + got, wanted - |got|;
          if wanted == 0 && !needMore {
            return Full, out;
          }
        }
        if needMore {
          var got := ReadSome();
          if !got.Full? {
            return got, out;
          }
          tryPacket := true;
        }
      }
    }

    /** comm.c:171-203: make room, read, confirm when much is unconfirmed and only then, scan. */
    method ReadSome() returns (status: Status)
      requires Valid()
      modifies this
      ensures Valid() && Advances()
      ensures Remaining() == old(Remaining()) && HandedOut() == old(HandedOut())
      ensures Payload(outbox) == old(Payload(outbox))
      ensures status.Full? ==> Settled()
      ensures status.Short? ==> bytesSentNotReceived == old(bytesSentNotReceived) && (old(Settled()) ==> Settled())
      ensures status.Full? ==> bytesReceivedNotConfirmed <= 2000
      ensures status.Short? ==> bytesReceivedNotConfirmed == old(bytesReceivedNotConfirmed) && outbox == old(outbox)
      ensures |log| > |old(log)| && log[|old(log)|].Got?
      ensures status.Full? && old(bytesReceivedNotConfirmed) + log[|old(log)|].nread <= 2000 ==>
                outbox == old(outbox)
                && bytesReceivedNotConfirmed == old(bytesReceivedNotConfirmed) + log[|old(log)|].nread
      ensures status.Short? ==> (old(Drained()) ==> Drained())
      ensures status.Short? ==> log == old(log) + [Got(FreeSpace(old(MadeRoom(Extent()))), status.nread)]
      ensures status.Short? ==> ReadNothing() && -1 <= status.nread <= 0 && log[|log| - 1].nread == status.nread
      ensures status.Aborted? ==> GaveUp()
      ensures old(NoSpace(Extent())) ==> status.Short?
      ensures status.Short? <==> inbox == old(inbox)
      ensures !status.Short? ==> |inbox| < |old(inbox)|
      decreases |inbox|, 0
    {
      hide Framed, Payload, Scanned, Follows, Handed, OpenPart, Packets;
      var space := MakeRoom();
      var nread := Receive(space);
      NoteLast(old(log), Got(space, nread));
      if nread <= 0 {
        return Short(nread);
      }
      if bytesReceivedNotConfirmed > MUST_CONFIRM {
        var ok := SendConfirmation();
        if !ok {
          return Aborted;
        }
      }
      ScanHeaders();
      return Full;
    }

    /** comm.c:106-109: an empty packet, which reports the count and resets it. */
    method SendConfirmation() returns (ok: bool)
      requires Valid()
      modifies this
      ensures Valid() && Advances()
      ensures Remaining() == old(Remaining()) && HandedOut() == old(HandedOut())
      ensures Payload(outbox) == old(Payload(outbox))
      ensures ok ==> |trace| > |old(trace)| && trace[|trace| - 1] == Send([]) && bytesReceivedNotConfirmed == 0
      ensures !ok ==> GaveUp()
      decreases |inbox|, 4
    {
      hide Framed, Payload, Scanned, Follows, Handed, OpenPart, Packets, EndsBlocked;
      ghost var sent;
      ok, sent := Write1([]);
      assert sent == [];
      assert old(Payload(outbox)) + [] == old(Payload(outbox));
    }

    /** comm.c:217-262. Sends p in packets as the window allows; not ok means the process was
        aborted by write_timeout_error after a prefix of p, the window being exceeded and a wait
        having brought no credit. */
    method Write1(p: seq<Byte>) returns (ok: bool, ghost sent: seq<Byte>)
      requires Valid()
      modifies this
      ensures Valid() && Advances()
      ensures Remaining() == old(Remaining()) && HandedOut() == old(HandedOut())
      ensures Payload(outbox) == old(Payload(outbox)) + sent
      ensures sent <= p && (ok ==> sent == p)
      ensures ok ==> |trace| > |old(trace)| && trace[|trace| - 1] == Send(LastChunk(p))
      ensures ok ==> bytesReceivedNotConfirmed == 0
      ensures !ok ==> GaveUp()
      ensures old(bytesSentNotReceived > maxAllowedInPipe && NoSpace(Extent())) ==> !ok && sent == []
      ensures old(Settled()) && ok ==> Settled()
      decreases |inbox|, 3
    {
      hide Framed, Payload, Scanned, Follows, Handed, OpenPart, Packets, LastChunk;
      var rest := p;
      sent := [];
      assert old(Payload(outbox)) + [] == old(Payload(outbox));
      while true
        invariant Valid() && Advances()
        invariant Remaining() == old(Remaining()) && HandedOut() == old(HandedOut())
        invariant Payload(outbox) == old(Payload(outbox)) + sent
        invariant p == sent + rest && LastChunk(rest) == LastChunk(p)
        invariant old(bytesSentNotReceived > maxAllowedInPipe && NoSpace(Extent())) ==>
                    bytesSentNotReceived == old(bytesSentNotReceived) && Extent() == old(Extent()) && sent == []
        invariant old(Settled()) ==> Settled()
        decreases |inbox|, |rest|
      {
        var bs := bytesSentNotReceived;
        if bs > maxAllowedInPipe {
          var ok1 := AwaitCredit();
          if !ok1 {
            return false, sent;
          }
          continue;
        }
        var nToSend := if |rest| > MAX_PACKET - HDR_SIZE then MAX_PACKET else |rest| + HDR_SIZE;
        var chunk := rest[..nToSend - HDR_SIZE];
        NextChunk(rest);
        SendPacket(chunk);
        ConcatAssoc(old(Payload(outbox)), sent, chunk);
        sent := sent + chunk;
        rest := rest[nToSend - HDR_SIZE..];
        if rest == [] {
          return true, sent;
        }
      }
    }

    /** comm.c:226-231: read once for credit; not ok means that none came. */
    method AwaitCredit() returns (ok: bool)
      requires Valid() && bytesSentNotReceived > maxAllowedInPipe
      modifies this
      ensures Valid() && Advances()
      ensures Remaining() == old(Remaining()) && HandedOut() == old(HandedOut())
      ensures Payload(outbox) == old(Payload(outbox))
      ensures ok ==> bytesSentNotReceived < old(bytesSentNotReceived) && |inbox| < |old(inbox)|
      ensures ok && old(Settled()) ==> Settled()
      ensures !ok ==> GaveUp()
      ensures old(NoSpace(Extent())) ==> !ok
      decreases |inbox|, 2
    {
      hide Framed, Payload, Scanned, Follows, Handed, OpenPart, Packets;
      var bs := bytesSentNotReceived;
      var status, nothing := Read1(0);
      assert nothing == [] && [] + Remaining() == Remaining() && HandedOut() + [] == HandedOut();
      if status.Aborted? {
        return false;
      }
      NoteLast(log, Waited(bs, bytesSentNotReceived));
      log := log + [Waited(bs, bytesSentNotReceived)];
      ok := bs > bytesSentNotReceived;             // else write_timeout_error
    }
  }

  lemma NextChunk(p: seq<Byte>)
    ensures |p| <= MAX_PACKET - HDR_SIZE ==> LastChunk(p) == p
    ensures |p| > MAX_PACKET - HDR_SIZE ==> LastChunk(p) == LastChunk(p[MAX_PACKET - HDR_SIZE..])
  {
  }

  lemma EmptyBuffer(rb: seq<Byte>, peer: seq<Byte>)
    ensures rb[0..0] == [] && [] + peer == peer && Framed([]) && Scanned([])
  {
  }

  lemma HandedSame(h: seq<Byte>, outbox: seq<Byte>)
    ensures h + [] == h && outbox + [] == outbox && [] + h == h
  {
  }
}
