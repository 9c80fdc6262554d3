/** gcl-tk messages on top of write1 and read1. */
module Framing {
  import opened Packets
  import opened Connection

  const MAGIC1: Byte := 6
  const MAGIC2: Byte := 65
  const MESSAGE_HEADER_SIZE := 10
  const BUF_SIZE := 0x1000

  /** A message; the body is the optional inner header followed by the text. */
  datatype Message = Message(kind: Byte, flag: Byte, id: nat, body: seq<Byte>)

  predicate WellFormed(m: Message) {
    m.id < 0x100_0000 && |m.body| < 0x100_0000
  }

  function Header(m: Message): (s: seq<Byte>)
    ensures |s| == MESSAGE_HEADER_SIZE
  {
    [MAGIC1, MAGIC2, m.kind, m.flag] + Store3(|m.body|) + Store3(m.id)
  }

  function Encode(m: Message): seq<Byte> {
    Header(m) + m.body
  }

  function EncodeAll(ms: seq<Message>): seq<Byte> {
    if ms == [] then [] else Encode(ms[0]) + EncodeAll(ms[1..])
  }

  /** The header byte by byte, low bytes first. */
  lemma HeaderBytes(m: Message)
    requires WellFormed(m)
    ensures var n, i := |m.body|, m.id;
            && n / 65536 < 256 && i / 65536 < 256
            && Encode(m) == [6, 65, m.kind, m.flag, n % 256, n / 256 % 256, n / 65536,
                             i % 256, i / 256 % 256, i / 65536] + m.body
  {
  }

  lemma HeaderFields(m: Message)
    requires WellFormed(m)
    ensures var h := Header(m);
            && h[0] == MAGIC1 && h[1] == MAGIC2 && h[2] == m.kind && h[3] == m.flag
            && Get3(h, 4) == |m.body| && Get3(h, 7) == m.id
  {
    var h := Header(m);
    var pre := [MAGIC1, MAGIC2, m.kind, m.flag];
    Get3Store3(pre, |m.body|, Store3(m.id));
    Get3Store3(pre + Store3(|m.body|), m.id, []);
    assert h == pre + Store3(|m.body|) + Store3(m.id) + [];
  }

  /** A header with the right magic determines the message header it encodes. */
  lemma HeaderOf(h: seq<Byte>, m: Message)
    requires |h| == MESSAGE_HEADER_SIZE && h[0] == MAGIC1 && h[1] == MAGIC2
    requires m.kind == h[2] && m.flag == h[3] && m.id == Get3(h, 7) && |m.body| == Get3(h, 4)
    ensures Header(m) == h && WellFormed(m)
  {
    Digits(h[4], h[5], h[6]);
    Digits(h[7], h[8], h[9]);
  }

  lemma EncodeIs(m: Message, h: seq<Byte>)
    requires Header(m) == h
    ensures Encode(m) == h + m.body
  {
  }

  lemma Digits(a: nat, b: nat, c: nat)
    requires a < 256 && b < 256 && c < 256
    ensures Store3(a + 256 * b + 65536 * c) == [a, b, c]
  {
    var n := a + 256 * b + 65536 * c;
    assert n == 256 * (b + 256 * c) + a && n / 256 == b + 256 * c;
    assert n == 65536 * c + (a + 256 * b) && n / 65536 == c;
  }

  /** The first message of a byte stream is determined by the stream. */
  lemma FirstMessageUnique(m: Message, n: Message, s: seq<Byte>, t: seq<Byte>)
    requires WellFormed(m) && WellFormed(n) && Encode(m) + s == Encode(n) + t
    ensures m == n && s == t
  {
    var u := Encode(m) + s;
    assert u[..MESSAGE_HEADER_SIZE] == Header(m) == Header(n);
    HeaderFields(m);
    HeaderFields(n);
    var k := MESSAGE_HEADER_SIZE + |m.body|;
    assert u[MESSAGE_HEADER_SIZE..k] == m.body == n.body;
    assert u[k..] == s == t;
  }

  lemma EncodeNonEmpty(ms: seq<Message>)
    ensures ms == [] <==> EncodeAll(ms) == []
  {
    if ms != [] {
      assert |EncodeAll(ms)| >= |Encode(ms[0])|;
    }
  }

  /** Reading back what was written: the stream determines the whole list of messages. */
  lemma {:induction false} MessagesUnique(ms: seq<Message>, ns: seq<Message>)
    requires forall m | m in ms + ns :: WellFormed(m)
    requires EncodeAll(ms) == EncodeAll(ns)
    ensures ms == ns
  {
    EncodeNonEmpty(ms);
    EncodeNonEmpty(ns);
    if ms != [] {
      assert ms[0] in ms + ns && ns[0] in ms + ns;
      FirstMessageUnique(ms[0], ns[0], EncodeAll(ms[1..]), EncodeAll(ns[1..]));
      assert forall m | m in ms[1..] + ns[1..] :: m in ms + ns;
      MessagesUnique(ms[1..], ns[1..]);
    }
  }

  /** What a C string holds before its terminator. */
  function StrLen(text: seq<Byte>): (n: nat)
    requires 0 in text
    ensures n < |text| && text[n] == 0 && 0 !in text[..n]
  {
    if text[0] == 0 then 0 else 1 + StrLen(text[1..])
  }

  /** The number read1 returns. */
  function ReturnValue(status: Status, m: nat): int {
    match status
    case Full => m
    case Short(nread) => nread
    case Aborted => -1
  }

  /** A message stands at the front of the stream. */
  ghost predicate HasMessage(stream: seq<Byte>) {
    exists m, rest :: StartsWith(stream, m, rest)
  }

  ghost predicate StartsWith(stream: seq<Byte>, m: Message, rest: seq<Byte>) {
    WellFormed(m) && stream == Encode(m) + rest
  }

  /** What the first MESSAGE_HEADER_SIZE bytes of a stream with a message say about it. */
  lemma FrontHeader(stream: seq<Byte>, head: seq<Byte>, tail: seq<Byte>)
    requires HasMessage(stream) && |head| == MESSAGE_HEADER_SIZE && stream == head + tail
    ensures head[0] == MAGIC1 && head[1] == MAGIC2
  {
    var m, rest :| StartsWith(stream, m, rest);
    HeaderFields(m);
    assert Header(m) == stream[..MESSAGE_HEADER_SIZE] == head;
  }

  /** bcopy of s into the buffer at place at */
  method Bcopy(s: seq<Byte>, buf: array<Byte>, at: nat)
    requires at + |s| <= buf.Length
    modifies buf
    ensures buf[..at + |s|] == old(buf[..at]) + s
  {
    ghost var front := buf[..at];
    for i := 0 to |s|
      invariant buf[..at + i] == front + s[..i]
    {
      ghost var done := buf[..at + i];
      buf[at + i] := s[i];
      assert buf[..at + i] == done;
      assert buf[..at + i + 1] == done + [s[i]] == front + (s[..i] + [s[i]]);
      assert s[..i] + [s[i]] == s[..i + 1];
    }
    assert s[..|s|] == s;
  }

  /** The local buffer with the header of a message whose body is n bytes, and with hdr behind it */
  method StartMessage(kind: Byte, hdr: seq<Byte>, n: nat, id: nat) returns (buf: array<Byte>)
    requires |hdr| + MESSAGE_HEADER_SIZE <= BUF_SIZE
    ensures fresh(buf) && buf.Length == BUF_SIZE
    ensures buf[..MESSAGE_HEADER_SIZE + |hdr|] == [MAGIC1, MAGIC2, kind, 0] + Store3(n) + Store3(id) + hdr
  {
    hide Store3;
    buf := new Byte[BUF_SIZE];
    Bcopy([MAGIC1, MAGIC2, kind, 0] + Store3(n) + Store3(id), buf, 0);
    Bcopy(hdr, buf, MESSAGE_HEADER_SIZE);
  }

  class Gui {
    const sfd: ConnectionState
    var messageId: nat

    constructor (sfd: ConnectionState)
      ensures this.sfd == sfd && messageId == 0
    {
      this.sfd, messageId := sfd, 0;
    }

    /** guis.c:388-440. Length 0 means that text is a C string. ok is false only when the
        process was aborted on the way, because the peer gave no credit. */
    method SockWriteStr2(kind: Byte, hdr: seq<Byte>, text: seq<Byte>, length: nat) returns (ok: bool)
      requires sfd.Valid() && |hdr| + MESSAGE_HEADER_SIZE <= BUF_SIZE
      requires length <= |text| && (length == 0 ==> 0 in text)
      modifies this, sfd
      ensures sfd.Valid() && messageId == old(messageId) + 1
      ensures sfd.Remaining() == old(sfd.Remaining()) && sfd.HandedOut() == old(sfd.HandedOut())
      ensures ok && old(sfd.Settled()) ==> sfd.Settled()
      ensures !ok ==> sfd.GaveUp()
      ensures var body := hdr + text[..if length == 0 then StrLen(text) else length];
              ok ==>
                Payload(sfd.outbox) == old(Payload(sfd.outbox)) + Encode(Message(kind, 0, old(messageId), body))
    {
      hide Payload, Framed, Scanned, Store3, EndsBlocked, LastChunk;
      hide ConnectionState.Settled, ConnectionState.Remaining, ConnectionState.HandedOut;
      var len := if length == 0 then StrLen(text) else length;
      ghost var body := hdr + text[..len];
      var buf := StartMessage(kind, hdr, |hdr| + len, messageId);
      var m := MESSAGE_HEADER_SIZE + |hdr|;
      ghost var head := buf[..m];
      messageId := messageId + 1;
      ghost var sent;
      ghost var was := Payload(sfd.outbox);
      assert head + text[..len] == Encode(Message(kind, 0, old(messageId), body));
      if BUF_SIZE >= len + |hdr| + MESSAGE_HEADER_SIZE {
        Bcopy(text[..len], buf, m);
        ok, sent := sfd.Write1(buf[..m + len]);
      } else {
        ok, sent := sfd.Write1(buf[..m]);
        if ok {
          ok, sent := sfd.Write1(text[..len]);
          ConcatAssoc(was, head, text[..len]);
        }
      }
    }

    /** guis.c:445-482, up to the flush on bad magic. A message that is returned is exactly the
        message at the front of the stream, and nothing after it was taken. If there is a message
        at the front, it is returned, unless a read gives nothing or the process is aborted. */
    method GuiParseMsg1() returns (ok: bool, msg: Message)
      requires sfd.Valid() && sfd.Settled()
      modifies sfd
      ensures sfd.Valid()
      ensures ok ==> StartsWith(old(sfd.Remaining()), msg, sfd.Remaining())
      ensures ok ==> forall m, rest :: StartsWith(old(sfd.Remaining()), m, rest) ==> msg == m && sfd.Remaining() == rest
      ensures old(HasMessage(sfd.Remaining())) && !ok ==> sfd.ReadNothing() || sfd.GaveUp()
      ensures Payload(sfd.outbox) == old(Payload(sfd.outbox))
      ensures ok && msg.body != [] ==> sfd.Settled()
    {
      hide Payload, Framed, Scanned, Get3, HasMessage, StartsWith, EndsBlocked, EndsEmpty;
      hide ConnectionState.Settled, ConnectionState.Remaining, ConnectionState.HandedOut;
      ghost var stream := sfd.Remaining();
      msg := Message(0, 0, 0, []);
      var status, head := sfd.Read1(MESSAGE_HEADER_SIZE);
      if ReturnValue(status, MESSAGE_HEADER_SIZE) != MESSAGE_HEADER_SIZE {
        return false, msg;
      }
      if HasMessage(stream) {
        FrontHeader(stream, head, sfd.Remaining());
      }
      if head[0] != MAGIC1 || head[1] != MAGIC2 {
        return false, msg;                       // the flush is not part of this model
      }
      var bodyLength := Get3(head, 4);
      ghost var rest := sfd.Remaining();
      var status2, body := sfd.Read1(bodyLength);
      if ReturnValue(status2, bodyLength) != bodyLength {
        return false, msg;
      }
      ok, msg := true, Message(head[2], head[3], Get3(head, 7), body);
      MessageRead(stream, head, msg, sfd.Remaining());
    }
  }

  /** A message that was put together from the front of a stream is the message there. */
  lemma MessageRead(stream: seq<Byte>, head: seq<Byte>, msg: Message, rest: seq<Byte>)
    requires |head| == MESSAGE_HEADER_SIZE && head[0] == MAGIC1 && head[1] == MAGIC2
    requires msg == Message(head[2], head[3], Get3(head, 7), msg.body) && |msg.body| == Get3(head, 4)
    requires stream == head + (msg.body + rest)
    ensures StartsWith(stream, msg, rest)
    ensures forall m, r :: StartsWith(stream, m, r) ==> msg == m && rest == r
  {
    hide Get3, Encode, Header, WellFormed;
    HeaderOf(head, msg);
    EncodeIs(msg, head);
    ConcatAssoc(head, msg.body, rest);
    forall m, r | StartsWith(stream, m, r)
      ensures msg == m && rest == r
    {
      FirstMessageUnique(m, msg, r, rest);
    }
  }
}
