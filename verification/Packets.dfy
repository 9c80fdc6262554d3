/** The byte format of the gcl-tk packets and what a stretch of packet bytes means. */
module Packets {

  type Byte = n: nat | n < 256

  const MAX_PACKET := 1000
  const MUST_CONFIRM := 2000
  const OUR_SOCK_MAGIC: Byte := 134
  const HDR_SIZE := 5

  // Little-endian fields -------------------------------------------------

  function Store2(n: nat): (s: seq<Byte>)
    ensures |s| == 2
  {
    [n % 256, n / 256 % 256]
  }

  function Get2(s: seq<Byte>, at: nat): (n: nat)
    requires at + 2 <= |s|
    ensures n < 0x1_0000
  {
    var b0: nat, b1: nat := s[at], s[at + 1];
    b0 + 256 * b1
  }

  function Store3(n: nat): (s: seq<Byte>)
    ensures |s| == 3
  {
    [n % 256, n / 256 % 256, n / 65536 % 256]
  }

  function Get3(s: seq<Byte>, at: nat): (n: nat)
    requires at + 3 <= |s|
    ensures n < 0x100_0000
  {
    var b0: nat, b1: nat, b2: nat := s[at], s[at + 1], s[at + 2];
    b0 + 256 * b1 + 65536 * b2
  }

  /** A two-byte field keeps a number modulo 2^16, and a number below 2^16 as it is. */
  lemma Get2Store2(pre: seq<Byte>, n: nat, post: seq<Byte>)
    ensures Get2(pre + Store2(n) + post, |pre|) == n % 0x1_0000
    ensures n < 0x1_0000 ==> Get2(pre + Store2(n) + post, |pre|) == n
  {
    var s := pre + Store2(n) + post;
    assert s[|pre|] == n % 256 && s[|pre| + 1] == n / 256 % 256;
  }

  lemma Digits3(n: nat)
    ensures n % 256 + 256 * (n / 256 % 256) + 65536 * (n / 65536 % 256) == n % 0x100_0000
  {
    var m := n / 256;
    assert m / 256 == n / 65536;
    assert m % 65536 == m % 256 + 256 * (m / 256 % 256);
  }

  /** A three-byte field keeps a number modulo 2^24. */
  lemma Get3Store3(pre: seq<Byte>, n: nat, post: seq<Byte>)
    ensures Get3(pre + Store3(n) + post, |pre|) == n % 0x100_0000
  {
    var s := pre + Store3(n) + post;
    assert s[|pre|] == Store3(n)[0] && s[|pre| + 1] == Store3(n)[1] && s[|pre| + 2] == Store3(n)[2];
    Digits3(n);
  }

  // Packets --------------------------------------------------------------

  /** One packet as write1 lays it out. */
  function Packet(received: nat, body: seq<Byte>): (s: seq<Byte>)
    ensures |s| == HDR_SIZE + |body|
  {
    [OUR_SOCK_MAGIC] + Store2(HDR_SIZE + |body|) + Store2(received) + body
  }

  /** The packet byte by byte, low bytes first. */
  lemma PacketBytes(received: nat, body: seq<Byte>)
    requires |body| <= 995
    ensures var n := 5 + |body|;
            && n / 256 < 256
            && Packet(received, body) == [134, n % 256, n / 256, received % 256, received / 256 % 256] + body
  {
  }

  /** The sizes of the protocol. */
  lemma WireConstants()
    ensures HDR_SIZE == 5 && MAX_PACKET == 1000 && MUST_CONFIRM == 2000 && OUR_SOCK_MAGIC == 134
  {
  }

  function PacketLength(s: seq<Byte>): nat
    requires |s| >= HDR_SIZE
  {
    Get2(s, 1)
  }

  function PacketReceived(s: seq<Byte>): nat
    requires |s| >= HDR_SIZE
  {
    Get2(s, 3)
  }

  lemma PacketFields(received: nat, body: seq<Byte>, rest: seq<Byte>)
    requires |body| <= MAX_PACKET - HDR_SIZE
    ensures var s := Packet(received, body) + rest;
            && s[0] == OUR_SOCK_MAGIC
            && PacketLength(s) == HDR_SIZE + |body|
            && PacketReceived(s) == received % 0x1_0000
            && s[HDR_SIZE..HDR_SIZE + |body|] == body
            && s[HDR_SIZE + |body|..] == rest
  {
    var s := Packet(received, body) + rest;
    Get2Store2([OUR_SOCK_MAGIC], HDR_SIZE + |body|, Store2(received) + body + rest);
    assert s == [OUR_SOCK_MAGIC] + Store2(HDR_SIZE + |body|) + (Store2(received) + body + rest);
    var pre := [OUR_SOCK_MAGIC] + Store2(HDR_SIZE + |body|);
    Get2Store2(pre, received, body + rest);
    assert s == pre + Store2(received) + (body + rest);
  }

  /** s is a sequence of whole packets. */
  predicate Framed(s: seq<Byte>) {
    s == [] ||
    (&& |s| >= HDR_SIZE
     && s[0] == OUR_SOCK_MAGIC
     && HDR_SIZE <= PacketLength(s) <= MAX_PACKET
     && PacketLength(s) <= |s|
     && Framed(s[PacketLength(s)..]))
  }

  /** The user bytes that a sequence of packets carries. */
  function Payload(s: seq<Byte>): seq<Byte>
    requires Framed(s)
  {
    if s == [] then []
    else s[HDR_SIZE..PacketLength(s)] + Payload(s[PacketLength(s)..])
  }

  /** The sum of the "received" fields of a sequence of packets. */
  function Credit(s: seq<Byte>): nat
    requires Framed(s)
  {
    if s == [] then 0
    else PacketReceived(s) + Credit(s[PacketLength(s)..])
  }

  lemma ConcatAssoc<T>(a: seq<T>, b: seq<T>, c: seq<T>)
    ensures (a + b) + c == a + (b + c)
  {
  }

  lemma SliceOfSlice<T>(s: seq<T>, a: nat, b: nat, i: nat, j: nat)
    requires b <= |s| && i <= j && a + j <= b
    ensures s[a..b][i..j] == s[a + i..a + j]
  {
    assert forall k | 0 <= k < j - i :: s[a..b][i..j][k] == s[a..b][i + k] == s[a + i + k] == s[a + i..a + j][k];
  }

  lemma JoinSlices<T>(s: seq<T>, a: nat, b: nat, c: nat)
    requires a <= b <= c <= |s|
    ensures s[a..b] + s[b..c] == s[a..c]
  {
  }

  /** h is exactly one packet. */
  predicate OnePacket(h: seq<Byte>) {
    |h| >= HDR_SIZE && h[0] == OUR_SOCK_MAGIC && PacketLength(h) == |h| <= MAX_PACKET
  }

  lemma FirstPacket(h: seq<Byte>, rest: seq<Byte>)
    requires OnePacket(h)
    ensures Framed(h + rest) <==> Framed(rest)
    ensures Framed(rest) ==> Payload(h + rest) == h[HDR_SIZE..] + Payload(rest)
    ensures Framed(rest) ==> Credit(h + rest) == PacketReceived(h) + Credit(rest)
  {
    var u := h + rest;
    assert u[|h|..] == rest;
    assert u[HDR_SIZE..|h|] == h[HDR_SIZE..];
    assert PacketLength(u) == |h| && PacketReceived(u) == PacketReceived(h);
  }

  lemma {:induction false} AppendPacket(s: seq<Byte>, p: seq<Byte>)
    requires Framed(s) && OnePacket(p)
    ensures Framed(s + p)
    ensures Payload(s + p) == Payload(s) + p[HDR_SIZE..]
    ensures Credit(s + p) == Credit(s) + PacketReceived(p)
  {
    if s == [] {
      FirstPacket(p, []);
      assert s + p == p == p + [];
    } else {
      var h, rest := s[..PacketLength(s)], s[PacketLength(s)..];
      SplitPacket(s);
      AppendPacket(rest, p);
      PrependPacket(h, rest, p);
    }
  }

  lemma PrependPacket(h: seq<Byte>, rest: seq<Byte>, p: seq<Byte>)
    requires OnePacket(h) && OnePacket(p) && Framed(rest) && Framed(rest + p)
    requires Payload(rest + p) == Payload(rest) + p[HDR_SIZE..]
    requires Credit(rest + p) == Credit(rest) + PacketReceived(p)
    ensures var s := h + rest;
            && Framed(s) && Framed(s + p)
            && Payload(s + p) == Payload(s) + p[HDR_SIZE..]
            && Credit(s + p) == Credit(s) + PacketReceived(p)
  {
    FirstPacket(h, rest);
    FirstPacket(h, rest + p);
    ConcatAssoc(h, rest, p);
    ConcatAssoc(h[HDR_SIZE..], Payload(rest), p[HDR_SIZE..]);
  }

  lemma SplitPacket(s: seq<Byte>)
    requires Framed(s) && s != []
    ensures var n := PacketLength(s);
            && OnePacket(s[..n]) && s == s[..n] + s[n..] && Framed(s[n..])
            && PacketReceived(s[..n]) == PacketReceived(s)
  {
    var n := PacketLength(s);
    assert Framed(s[n..]) && s[0] == OUR_SOCK_MAGIC && HDR_SIZE <= n <= MAX_PACKET;
    hide Framed;
    var h := s[..n];
    assert h[0] == s[0] && h[1] == s[1] && h[2] == s[2] && h[3] == s[3] && h[4] == s[4];
  }

  lemma FramedAppend(s: seq<Byte>, received: nat, body: seq<Byte>)
    requires Framed(s) && |body| <= MAX_PACKET - HDR_SIZE
    ensures Framed(s + Packet(received, body))
    ensures Payload(s + Packet(received, body)) == Payload(s) + body
    ensures Credit(s + Packet(received, body)) == Credit(s) + received % 0x1_0000
  {
    var p := Packet(received, body);
    PacketFields(received, body, []);
    assert p + [] == p;
    AppendPacket(s, p);
  }

  // What scan_headers does to the bytes of a buffer ----------------------

  function ZeroReceived(s: seq<Byte>): seq<Byte>
    requires |s| >= HDR_SIZE
  {
    s[3 := 0][4 := 0]
  }

  /** The bytes after a scan that starts at a packet boundary, and the credit it collected. */
  function Scan(s: seq<Byte>): (r: (seq<Byte>, nat))
    ensures |r.0| == |s|
  {
    if |s| < HDR_SIZE then (s, 0)
    else if HDR_SIZE <= PacketLength(s) < |s| then
      var h := s[..PacketLength(s)];
      var rest := Scan(s[PacketLength(s)..]);
      (ZeroReceived(h) + rest.0, PacketReceived(s) + rest.1)
    else
      (ZeroReceived(s), PacketReceived(s))
  }

  /** Every header that lies wholly in s has had its credit taken. */
  predicate Scanned(s: seq<Byte>) {
    |s| >= HDR_SIZE ==>
      && PacketReceived(s) == 0
      && (HDR_SIZE <= PacketLength(s) < |s| ==> Scanned(s[PacketLength(s)..]))
  }

  lemma {:induction false} ScanIsScanned(s: seq<Byte>)
    ensures Scanned(Scan(s).0)
  {
    if |s| >= HDR_SIZE {
      var n := PacketLength(s);
      if HDR_SIZE <= n < |s| {
        ScanIsScanned(s[n..]);
        var r := Scan(s).0;
        assert r[n..] == Scan(s[n..]).0;
        assert r[..n] == ZeroReceived(s[..n]);
        assert PacketLength(r) == n && PacketReceived(r) == 0;
      }
    }
  }

  /** Scanning the part s that has arrived of a packet sequence s + t moves credit out of
      the headers and changes nothing else. */
  lemma {:induction false} ScanMovesCredit(s: seq<Byte>, t: seq<Byte>)
    requires Framed(s + t)
    ensures Framed(Scan(s).0 + t)
    ensures Payload(Scan(s).0 + t) == Payload(s + t)
    ensures Credit(s + t) == Scan(s).1 + Credit(Scan(s).0 + t)
  {
    if |s| < HDR_SIZE {
    } else if PacketLength(s) < |s| {
      var h, rest := s[..PacketLength(s)], s[PacketLength(s)..];
      SplitAppended(s, t);
      ZeroedPacket(h);
      FirstPacket(h, rest + t);
      ScanMovesCredit(rest, t);
      FirstPacket(ZeroReceived(h), Scan(rest).0 + t);
      ConcatAssoc(ZeroReceived(h), Scan(rest).0, t);
    } else {
      ScanLastHeader(s, t);
    }
  }

  lemma SplitAppended(s: seq<Byte>, t: seq<Byte>)
    requires Framed(s + t) && |s| >= HDR_SIZE && PacketLength(s) <= |s|
    ensures var n := PacketLength(s);
            && OnePacket(s[..n])
            && s + t == s[..n] + (s[n..] + t)
            && PacketReceived(s[..n]) == PacketReceived(s)
            && Framed(s[n..] + t)
  {
    var n := PacketLength(s);
    SplitPacket(s + t);
    assert (s + t)[n..] == s[n..] + t;
    assert (s + t)[..n] == s[..n];
  }

  lemma ScanLastHeader(s: seq<Byte>, t: seq<Byte>)
    requires Framed(s + t) && |s| >= HDR_SIZE && PacketLength(s) >= |s|
    ensures Framed(ZeroReceived(s) + t)
    ensures Payload(ZeroReceived(s) + t) == Payload(s + t)
    ensures Credit(s + t) == PacketReceived(s) + Credit(ZeroReceived(s) + t)
  {
    var u := s + t;
    var h, rest := u[..PacketLength(u)], u[PacketLength(u)..];
    SplitPacket(u);
    ZeroedPacket(h);
    FirstPacket(h, rest);
    FirstPacket(ZeroReceived(h), rest);
    ZeroAppend(h, rest);
    ZeroAppend(s, t);
  }

  lemma ZeroAppend(s: seq<Byte>, t: seq<Byte>)
    requires |s| >= HDR_SIZE
    ensures ZeroReceived(s) + t == ZeroReceived(s + t)
  {
  }

  lemma ZeroedPacket(h: seq<Byte>)
    requires OnePacket(h)
    ensures OnePacket(ZeroReceived(h)) && PacketReceived(ZeroReceived(h)) == 0
    ensures ZeroReceived(h)[HDR_SIZE..] == h[HDR_SIZE..]
  {
  }

  /** The user bytes still to come from unread bytes s whose first npo bytes belong to a
      packet that is already open. */
  function Upcoming(s: seq<Byte>, npo: nat): seq<Byte>
    requires npo <= |s| && Framed(s[npo..])
  {
    s[..npo] + Payload(s[npo..])
  }
}
