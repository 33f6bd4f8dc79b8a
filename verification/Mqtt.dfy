/**
 MQTT framing: a parser of possibly incomplete packets, the loop that consumes them from a
 receive buffer, and the publisher. Section numbers are those of MQTT 3.1.1.
 */
module Mqtt {
  import opened Bytes

  const CONNACK := 2
  const PUBLISH := 3
  const SUBSCRIBE := 8
  const SUBACK := 9

  datatype Message = Message(cmd: nat, qos: nat, id: nat, ack: nat, topic: seq<Byte>, data: seq<Byte>, length: nat)

  datatype Outcome = Incomplete | Malformed | Complete(message: Message)

  // ---------------------------------------------------------------------------------------
  // Parsing one packet
  // ---------------------------------------------------------------------------------------

  /** A number shifted left by seven bits for each of `k` bytes. */
  function Shift(n: nat, k: nat): nat
    requires k < 4
  {
    n * [1, 0x80, 0x4000, 0x20_0000][k]
  }

  datatype Length = Cut | TooLong | Length(n: nat, at: nat)

  /** The remaining length of section 2.2.3, from byte `at` on, `k` bytes being read already. */
  function ReadLength(buf: seq<Byte>, at: nat, n: nat, k: nat): (r: Length)
    requires k < 4
    ensures r.Length? ==> at < r.at <= |buf| && r.at <= at + 4 - k && r.n >= n
    decreases 4 - k
  {
    if at >= |buf| then Cut else
    var sum := n + Shift(buf[at] % 128, k);
    if buf[at] < 128 then Length(sum, at + 1)
    else if k + 1 == 4 then TooLong
    else ReadLength(buf, at + 1, sum, k + 1)
  }

  function ParsePublish(m: Message, body: seq<Byte>): (r: Outcome)
    ensures r.Complete? ==> r.message.length == m.length
  {
    if |body| < 2 then Malformed else
    var p := 2 + Be16(body[0], body[1]);
    if p > |body| then Malformed
    else if m.qos == 0 then Complete(m.(topic := body[2..p], data := body[p..]))
    else if p + 2 > |body| then Malformed
    else Complete(m.(topic := body[2..p], id := Be16(body[p], body[p + 1]), data := body[p + 2..]))
  }

  function ParseBody(first: Byte, body: seq<Byte>, length: nat): (r: Outcome)
    ensures !r.Incomplete? && (r.Complete? ==> r.message.length == length)
  {
    var m := Message(first / 16, first / 2 % 4, 0, 0, [], [], length);
    if m.cmd == CONNACK then
      if |body| < 2 then Malformed else Complete(m.(ack := body[1]))
    else if m.cmd == PUBLISH then ParsePublish(m, body)
    else if PUBLISH < m.cmd <= SUBACK then
      if |body| < 2 then Malformed else Complete(m.(id := Be16(body[0], body[1])))
    else Complete(m)
  }

  function Parse(buf: seq<Byte>): (r: Outcome)
    ensures r.Complete? ==> 2 <= r.message.length <= |buf|
  {
    if |buf| < 2 then Incomplete else
    match ReadLength(buf, 1, 0, 0)
    case Cut => Incomplete
    case TooLong => Malformed
    case Length(n, p) =>
      if p + n > |buf| then Incomplete else ParseBody(buf[0], buf[p..p + n], p + n)
  }

  // ---------------------------------------------------------------------------------------
  // Consuming a stream
  // ---------------------------------------------------------------------------------------

  /** The packets that can be taken off the front of a buffer, and the bytes left behind them. */
  function Taken(buf: seq<Byte>): seq<Message>
    decreases |buf|
  {
    match Parse(buf)
    case Complete(m) => [m] + Taken(buf[m.length..])
    case _ => []
  }

  function Left(buf: seq<Byte>): (r: seq<Byte>)
    ensures !Parse(r).Complete?
    decreases |buf|
  {
    match Parse(buf)
    case Complete(m) => Left(buf[m.length..])
    case _ => buf
  }

  /** A refused login, after which the connection is to be closed. */
  predicate Refused(m: Message) { m.cmd == CONNACK && m.ack != 0 }

  predicate AnyRefused(ms: seq<Message>) { exists i | 0 <= i < |ms| :: Refused(ms[i]) }

  datatype Receiver = Receiver(pending: seq<Byte>, delivered: seq<Message>, closing: bool)

  const FRESH: Receiver := Receiver([], [], false)

  /** One read event. A connection that is closing reads no more. */
  function Read(r: Receiver, bytes: seq<Byte>): Receiver {
    if r.closing then r else
    var buf := r.pending + bytes;
    Receiver(Left(buf), r.delivered + Taken(buf), AnyRefused(Taken(buf)) || Parse(Left(buf)).Malformed?)
  }

  function ReadAll(r: Receiver, chunks: seq<seq<Byte>>): Receiver
    decreases |chunks|
  {
    if chunks == [] then r else ReadAll(Read(r, chunks[0]), chunks[1..])
  }

  // ---------------------------------------------------------------------------------------
  // More bytes do not change what is already decided
  // ---------------------------------------------------------------------------------------

  lemma {:induction false} LengthIsStable(buf: seq<Byte>, more: seq<Byte>, at: nat, n: nat, k: nat)
    requires k < 4 && !ReadLength(buf, at, n, k).Cut?
    ensures ReadLength(buf + more, at, n, k) == ReadLength(buf, at, n, k)
    decreases 4 - k
  {
    if buf[at] >= 128 && k + 1 < 4 {
      LengthIsStable(buf, more, at + 1, n + Shift(buf[at] % 128, k), k + 1);
    }
  }

  lemma ParseIsStable(buf: seq<Byte>, more: seq<Byte>)
    requires !Parse(buf).Incomplete?
    ensures Parse(buf + more) == Parse(buf)
  {
    hide ReadLength, ParseBody;
    LengthIsStable(buf, more, 1, 0, 0);
    var l := ReadLength(buf, 1, 0, 0);
    if l.Length? { assert (buf + more)[l.at..l.at + l.n] == buf[l.at..l.at + l.n]; }
  }

  /** A packet stands on its own bytes, and any fewer of them are reported incomplete. */
  lemma PacketIsTight(buf: seq<Byte>, k: nat)
    requires Parse(buf).Complete? && k <= Parse(buf).message.length
    ensures Parse(buf[..k]) == if k == Parse(buf).message.length then Parse(buf) else Incomplete
  {
    hide ReadLength, ParseBody;
    assert buf[..k] + buf[k..] == buf;
    if !Parse(buf[..k]).Incomplete? {
      ParseIsStable(buf[..k], buf[k..]);
    } else if k == Parse(buf).message.length {
      var l := ReadLength(buf, 1, 0, 0);
      if ReadLength(buf[..k], 1, 0, 0).Cut? {
        LengthIsCut(buf, k, 1, 0, 0);
        assert false;
      } else {
        LengthIsStable(buf[..k], buf[k..], 1, 0, 0);
      }
    }
  }

  lemma {:induction false} LengthIsCut(buf: seq<Byte>, to: nat, at: nat, n: nat, k: nat)
    requires k < 4 && at <= to <= |buf| && ReadLength(buf[..to], at, n, k).Cut?
    ensures var l := ReadLength(buf, at, n, k); l.Length? ==> to < l.at
    decreases 4 - k
  {
    if at < to && buf[at] >= 128 && k + 1 < 4 {
      LengthIsCut(buf, to, at + 1, n + Shift(buf[at] % 128, k), k + 1);
    }
  }

  /** Taking packets before or after more bytes arrive comes to the same, up to a malformed one. */
  lemma {:induction false} TakenAppend(a: seq<Byte>, b: seq<Byte>)
    ensures Parse(Left(a)).Malformed? ==> Taken(a + b) == Taken(a) && Parse(Left(a + b)).Malformed?
    ensures Parse(Left(a)).Incomplete? ==> Taken(a + b) == Taken(a) + Taken(Left(a) + b) && Left(a + b) == Left(Left(a) + b)
    decreases |a|
  {
    hide Parse;
    if !Parse(a).Incomplete? { ParseIsStable(a, b); }
    if Parse(a).Complete? {
      var n := Parse(a).message.length;
      assert (a + b)[n..] == a[n..] + b;
      TakenAppend(a[n..], b);
    }
  }

  // ---------------------------------------------------------------------------------------
  // Every split into reads delivers the same
  // ---------------------------------------------------------------------------------------

  /** Nothing follows a refused login. */
  ghost predicate RefusalIsLast(ms: seq<Message>) {
    forall i | 0 <= i < |ms| - 1 :: !Refused(ms[i])
  }

  lemma {:induction false} ReadsDeliver(r: Receiver, chunks: seq<seq<Byte>>)
    requires !r.closing && RefusalIsLast(Taken(r.pending + Concat(chunks)))
    requires Taken(r.pending) == [] && Parse(r.pending).Incomplete?
    ensures ReadAll(r, chunks).delivered == r.delivered + Taken(r.pending + Concat(chunks))
    decreases |chunks|
  {
    hide Parse, Refused, Taken, Left;
    if chunks == [] {
      assert r.pending + [] == r.pending;
    } else {
      var buf, rest := r.pending + chunks[0], Concat(chunks[1..]);
      assert buf + rest == r.pending + Concat(chunks);
      TakenAppend(buf, rest);
      var d := Read(r, chunks[0]);
      if d.closing {
        ClosingStays(d, chunks[1..]);
        if Parse(Left(buf)).Incomplete? {
          RefusalEnds(Taken(buf), Taken(Left(buf) + rest));
        }
      } else {
        NothingLeft(buf);
        AfterTaken(Taken(buf), Taken(d.pending + rest));
        ReadsDeliver(d, chunks[1..]);
      }
    }
  }

  lemma {:induction false} ClosingStays(r: Receiver, chunks: seq<seq<Byte>>)
    requires r.closing
    ensures ReadAll(r, chunks) == r
    decreases |chunks|
  {
    if chunks != [] { ClosingStays(r, chunks[1..]); }
  }

  lemma NothingLeft(buf: seq<Byte>)
    ensures Taken(Left(buf)) == []
  {
  }

  lemma RefusalEnds(a: seq<Message>, b: seq<Message>)
    requires RefusalIsLast(a + b) && AnyRefused(a)
    ensures b == []
  {
    var i :| 0 <= i < |a| && Refused(a[i]);
    assert (a + b)[i] == a[i];
  }

  lemma AfterTaken(a: seq<Message>, b: seq<Message>)
    requires RefusalIsLast(a + b)
    ensures RefusalIsLast(b)
  {
    forall i | 0 <= i < |b| - 1 ensures !Refused(b[i]) {
      assert (a + b)[|a| + i] == b[i];
    }
  }

  /** The bytes of the first `k` packets of a buffer, as a buffer of their own. */
  lemma {:induction false} FirstPackets(buf: seq<Byte>, k: nat) returns (to: nat)
    requires k <= |Taken(buf)|
    ensures to <= |buf| && Taken(buf[..to]) == Taken(buf)[..k] && Left(buf[..to]) == []
    decreases k
  {
    hide Parse;
    if k == 0 {
      to := 0;
      ParseNothing();
    } else {
      var n := Parse(buf).message.length;
      var rest := FirstPackets(buf[n..], k - 1);
      to := n + rest;
      PacketIsTight(buf, n);
      assert buf[..n] + buf[n..][..rest] == buf[..to];
      ParseIsStable(buf[..n], buf[n..][..rest]);
      assert buf[..to][n..] == buf[n..][..rest];
    }
  }

  lemma ParseNothing()
    ensures Parse([]) == Incomplete
  {
  }

  /** Every split of a stream delivers all its packets, except that a refusal cuts it short. */
  lemma SplitsAgree(stream: seq<Byte>)
    ensures (forall chunks | Concat(chunks) == stream :: ReadAll(FRESH, chunks).delivered == Taken(stream))
            <==> RefusalIsLast(Taken(stream))
  {
    hide Parse, Refused;
    ParseNothing();
    if RefusalIsLast(Taken(stream)) {
      forall chunks | Concat(chunks) == stream
        ensures ReadAll(FRESH, chunks).delivered == Taken(stream)
      {
        assert [] + stream == stream;
        ReadsDeliver(FRESH, chunks);
      }
    } else {
      var i :| 0 <= i < |Taken(stream)| - 1 && Refused(Taken(stream)[i]);
      var chunks := RefusalCuts(stream, i);
    }
  }

  lemma RefusalCuts(stream: seq<Byte>, i: nat) returns (chunks: seq<seq<Byte>>)
    requires i + 1 < |Taken(stream)| && Refused(Taken(stream)[i])
    ensures Concat(chunks) == stream && ReadAll(FRESH, chunks).delivered == Taken(stream)[..i + 1]
  {
    hide Parse, Refused;
    var to := FirstPackets(stream, i + 1);
    var a, b := stream[..to], stream[to..];
    chunks := [a, b];
    assert chunks[1..] == [b];
    assert Concat([b]) == b + Concat([]) == b;
    assert a + b == stream && [] + a == a;
    var d := Read(FRESH, a);
    assert Refused(Taken(a)[i]);
    ClosingStays(d, [b]);
  }

  // ---------------------------------------------------------------------------------------
  // Publishing
  // ---------------------------------------------------------------------------------------

  datatype Publication = Publication(topic: seq<Byte>, data: seq<Byte>, qos: int, retain: bool, id: nat)

  /** At most four bytes of seven bits each, least significant first; `k` of them are out already. */
  function LengthBytes(n: nat, k: nat): (r: seq<Byte>)
    requires k < 4
    ensures 1 <= |r| <= 4 - k
    decreases 4 - k
  {
    if n / 128 == 0 then [n % 128]
    else if k + 1 == 4 then [n % 128 + 128]
    else [n % 128 + 128] + LengthBytes(n / 128, k + 1)
  }

  /** What follows the fixed header; the topic's length is cut to 16 bits. */
  function Body(p: Publication): (r: seq<Byte>)
    requires p.id < 0x1_0000
    ensures |r| == Size(p)
  {
    Bytes16(|p.topic| % 0x1_0000) + p.topic + (if p.qos % 4 > 0 then Bytes16(p.id) else []) + p.data
  }

  function Size(p: Publication): nat {
    2 + |p.topic| + |p.data| + if p.qos % 4 > 0 then 2 else 0
  }

  function First(p: Publication): Byte {
    16 * PUBLISH + 2 * (p.qos % 4) + if p.retain then 1 else 0
  }

  /** A packet of section 3.3; its remaining length is computed in 32 bits. */
  function Packet(p: Publication): (r: seq<Byte>)
    requires p.id < 0x1_0000
  {
    [First(p)] + LengthBytes(Size(p) % WORD32, 0) + Body(p)
  }

  function Expected(p: Publication): Message
    requires p.id < 0x1_0000
  {
    Message(PUBLISH, p.qos % 4, if p.qos % 4 > 0 then p.id else 0, 0, p.topic, p.data, |Packet(p)|)
  }

  /** Which numbers the bytes that are left can hold. */
  function Room(k: nat): nat
    requires k < 4
  {
    [0x1000_0000, 0x20_0000, 0x4000, 0x80][k]
  }

  lemma SevenBits(n: nat, k: nat)
    requires k < 4
    ensures n < 128 ==> n < Room(k) && n % 128 == n
    ensures k == 3 && n >= 128 ==> n >= Room(k)
    ensures k < 3 ==> (n < Room(k) <==> n / 128 < Room(k + 1))
    ensures k < 3 ==> Shift(n % 128, k) + Shift(n / 128, k + 1) == Shift(n, k)
  {
  }

  lemma FirstLengthByte(n: nat, k: nat)
    requires k < 4
    ensures var bytes := LengthBytes(n, k);
            && bytes[0] % 128 == n % 128 && (bytes[0] < 128 <==> n < 128)
            && bytes[1..] == if n >= 128 && k < 3 then LengthBytes(n / 128, k + 1) else []
  {
  }

  lemma {:induction false} LengthReadsBack(n: nat, before: seq<Byte>, after: seq<Byte>, sum: nat, k: nat)
    requires k < 4
    ensures ReadLength(before + LengthBytes(n, k) + after, |before|, sum, k) ==
            if n < Room(k) then Length(sum + Shift(n, k), |before| + |LengthBytes(n, k)|) else TooLong
    decreases 4 - k
  {
    hide Shift, Room, LengthBytes;
    SevenBits(n, k);
    FirstLengthByte(n, k);
    if n >= 128 && k < 3 {
      var b := LengthBytes(n, k)[0];
      var buf := before + LengthBytes(n, k) + after;
      assert LengthBytes(n, k) == [b] + LengthBytes(n, k)[1..];
      assert buf == (before + [b]) + LengthBytes(n / 128, k + 1) + after;
      LengthReadsBack(n / 128, before + [b], after, sum + Shift(n % 128, k), k + 1);
    }
  }

  predicate Fits(p: Publication) {
    |p.topic| < 0x1_0000 && Size(p) < 0x1000_0000
  }

  lemma BodyReadsBack(p: Publication, m: Message)
    requires p.id < 0x1_0000 && |p.topic| < 0x1_0000 && m.qos == p.qos % 4 && m.id == 0
    ensures ParsePublish(m, Body(p)) ==
            Complete(m.(topic := p.topic, data := p.data, id := if m.qos > 0 then p.id else 0))
  {
    hide Be16, Bytes16;
    var body, t := Body(p), 2 + |p.topic|;
    assert body[..2] == Bytes16(|p.topic|);
    assert body[0] == body[..2][0] && body[1] == body[..2][1];
    assert body[2..t] == p.topic;
    if m.qos > 0 {
      assert body[t..t + 2] == Bytes16(p.id);
      assert body[t] == body[t..t + 2][0] && body[t + 1] == body[t..t + 2][1];
      assert body[t + 2..] == p.data;
    } else {
      assert body[t..] == p.data;
    }
  }

  lemma FirstReadsBack(p: Publication)
    ensures First(p) / 16 == PUBLISH && First(p) / 2 % 4 == p.qos % 4
  {
  }

  /** A topic is never read longer than 16 bits can say. */
  lemma TopicIsShort(first: Byte, body: seq<Byte>, length: nat)
    ensures ParseBody(first, body, length).Complete? ==> |ParseBody(first, body, length).message.topic| < 0x1_0000
  {
  }

  /** A published packet parses to what was published, exactly when its lengths fit their fields. */
  lemma PublishedParses(p: Publication, rest: seq<Byte>)
    requires p.id < 0x1_0000
    ensures Parse(Packet(p) + rest) == Complete(Expected(p)) <==> Fits(p)
  {
    hide ReadLength, Shift, ParsePublish, Be16, Bytes16, First, LengthBytes, Body, Size;
    var size, lengthBytes := Size(p), LengthBytes(Size(p) % WORD32, 0);
    var buf, at := Packet(p) + rest, 1 + |lengthBytes|;
    assert buf == [First(p)] + lengthBytes + (Body(p) + rest);
    LengthReadsBack(size % WORD32, [First(p)], Body(p) + rest, 0, 0);
    ShiftNothing(size % WORD32);
    if size < 0x1000_0000 {
      assert buf[at..at + size] == Body(p);
      FirstReadsBack(p);
      if Fits(p) {
        BodyReadsBack(p, Message(PUBLISH, p.qos % 4, 0, 0, [], [], at + size));
      } else {
        TopicIsShort(buf[0], Body(p), at + size);
      }
    }
  }

  lemma ShiftNothing(n: nat)
    ensures Shift(n, 0) == n
  {
  }

  // ---------------------------------------------------------------------------------------
  // From publisher to subscriber
  // ---------------------------------------------------------------------------------------

  function Stream(ps: seq<Publication>): seq<Byte>
    requires forall p | p in ps :: p.id < 0x1_0000
  {
    if ps == [] then [] else Packet(ps[0]) + Stream(ps[1..])
  }

  function AllExpected(ps: seq<Publication>): (r: seq<Message>)
    requires forall p | p in ps :: p.id < 0x1_0000
    ensures |r| == |ps| && forall i | 0 <= i < |ps| :: r[i] == Expected(ps[i])
  {
    if ps == [] then [] else [Expected(ps[0])] + AllExpected(ps[1..])
  }

  lemma {:induction false} StreamIsTaken(ps: seq<Publication>)
    requires forall p | p in ps :: p.id < 0x1_0000 && Fits(p)
    ensures Taken(Stream(ps)) == AllExpected(ps) && Left(Stream(ps)) == []
  {
    hide Parse, Packet;
    if ps == [] {
      ParseNothing();
    } else {
      PublishedParses(ps[0], Stream(ps[1..]));
      assert Stream(ps)[|Packet(ps[0])|..] == Stream(ps[1..]);
      StreamIsTaken(ps[1..]);
    }
  }

  /** However the bytes of some publications are cut into reads, these are delivered in order. */
  lemma PublicationsArrive(ps: seq<Publication>, chunks: seq<seq<Byte>>)
    requires forall p | p in ps :: p.id < 0x1_0000 && Fits(p)
    requires Concat(chunks) == Stream(ps)
    ensures ReadAll(FRESH, chunks).delivered == AllExpected(ps)
  {
    hide Parse, Packet, Expected;
    StreamIsTaken(ps);
    SplitsAgree(Stream(ps));
    assert RefusalIsLast(AllExpected(ps)) by { PublicationsAreNoRefusals(ps); }
  }

  lemma PublicationsAreNoRefusals(ps: seq<Publication>)
    requires forall p | p in ps :: p.id < 0x1_0000
    ensures !AnyRefused(AllExpected(ps))
  {
    hide Packet;
  }

  // ---------------------------------------------------------------------------------------
  // Other packets
  // ---------------------------------------------------------------------------------------

  /** The first byte of a publication is that of section 3.3.1. */
  lemma PublicationStarts(p: Publication)
    requires p.id < 0x1_0000
    ensures Packet(p)[0] == 0x30 + 2 * (p.qos % 4) + if p.retain then 1 else 0
  {
  }

  /** A packet of any other kind with this first byte and body. */
  function Framed(first: Byte, body: seq<Byte>): seq<Byte>
    requires |body| < 0x1000_0000
  {
    [first] + LengthBytes(|body|, 0) + body
  }

  /**
   Every packet that is no publication: the answer to a login carries its return code, an
   acknowledgement its id, most significant byte first, and both are malformed without them.
   */
  lemma OthersParse(first: Byte, body: seq<Byte>, rest: seq<Byte>)
    requires |body| < 0x1000_0000 && first / 16 != 3
    ensures
      var cmd, length := first / 16, |Framed(first, body)|;
      Parse(Framed(first, body) + rest) ==
        if (cmd == 2 || 4 <= cmd <= 9) && |body| < 2 then Malformed
        else Complete(Message(cmd, first / 2 % 4, if 4 <= cmd <= 9 then body[0] as int * 256 + body[1] else 0,
                              if cmd == 2 then body[1] else 0, [], [], length))
  {
    hide ReadLength, Shift, LengthBytes;
    var buf, at := Framed(first, body) + rest, 1 + |LengthBytes(|body|, 0)|;
    assert buf == [first] + LengthBytes(|body|, 0) + (body + rest);
    LengthReadsBack(|body|, [first], body + rest, 0, 0);
    ShiftNothing(|body|);
    assert buf[at..at + |body|] == body;
  }

  /** The answer to a login is delivered, and closes the connection exactly when its code is not zero. */
  lemma LoginAnswers(flags: Byte, code: Byte)
    ensures Read(FRESH, [0x20, 2, flags, code]) == Receiver([], [Message(2, 0, 0, code, [], [], 4)], code != 0)
  {
    hide Parse;
    var buf: seq<Byte> := [0x20, 2, flags, code];
    assert LengthBytes(2, 0) == [2];
    assert Framed(0x20, [flags, code]) + [] == buf && [] + buf == buf;
    OthersParse(0x20, [flags, code], []);
    assert buf[4..] == [];
    ParseNothing();
    var m := Message(2, 0, 0, code, [], [], 4);
    assert Taken(buf) == [m] + Taken([]) == [m] && Left(buf) == [];
    assert AnyRefused([m]) <==> Refused([m][0]);
  }

  /** A malformed packet closes the connection, and is never passed on. */
  lemma MalformedCloses(buf: seq<Byte>)
    requires Parse(buf).Malformed?
    ensures Read(FRESH, buf).closing && Read(FRESH, buf).delivered == []
  {
    hide Parse;
    assert [] + buf == buf;
  }
}
