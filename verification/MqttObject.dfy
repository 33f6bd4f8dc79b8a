/** The MQTT connection: parsing with a cursor, consuming the receive buffer, and publishing. */
module MqttObject {
  import opened Bytes
  import opened Mqtt

  /** Walks a cursor over the length bytes instead of recursing. */
  method ParseLength(buf: seq<Byte>) returns (r: Length)
    ensures r == ReadLength(buf, 1, 0, 0)
  {
    hide Shift;
    var lc: nat, n: nat, k: nat, p: nat := 0, 0, 0, 1;
    while p < |buf|
      invariant k < 4 && ReadLength(buf, p, n, k) == ReadLength(buf, 1, 0, 0)
    {
      lc := buf[p];
      p := p + 1;
      n := n + Shift(lc % 128, k);
      k := k + 1;
      if lc < 128 {
        return Length(n, p);
      }
      if k >= 4 {
        return TooLong;
      }
    }
    r := Cut;
  }

  method ParseMessage(buf: seq<Byte>) returns (r: Outcome)
    ensures r == Parse(buf)
  {
    hide ReadLength, ParseBody;
    if |buf| < 2 {
      return Incomplete;
    }
    var length := ParseLength(buf);
    match length
    case TooLong => r := Malformed;
    case Cut => r := Incomplete;
    case Length(n, p) =>
      if p + n > |buf| {
        return Incomplete;
      }
      r := ParseFields(buf, p, p + n);
  }

  method ParseFields(buf: seq<Byte>, start: nat, end: nat) returns (r: Outcome)
    requires 0 < start <= end <= |buf|
    ensures r == ParseBody(buf[0], buf[start..end], end)
  {
    hide Be16;
    var m := Message(buf[0] / 16, buf[0] / 2 % 4, 0, 0, [], [], end);
    ghost var body := buf[start..end];
    var p := start;
    if m.cmd == CONNACK {
      if end - p < 2 {
        return Malformed;
      }
      m := m.(ack := buf[p + 1]);
    } else if m.cmd == PUBLISH {
      if p + 2 > end {
        return Malformed;
      }
      var size := Be16(buf[p], buf[p + 1]);
      p := p + 2 + size;
      if p > end {
        return Malformed;
      }
      m := m.(topic := buf[p - size..p]);
      assert body[2..p - start] == buf[p - size..p];
      if m.qos > 0 {
        if p + 2 > end {
          return Malformed;
        }
        m := m.(id := Be16(buf[p], buf[p + 1]));
        p := p + 2;
      }
      m := m.(data := buf[p..end]);
      assert body[p - start..] == buf[p..end];
    } else if PUBLISH < m.cmd <= SUBACK {
      if p + 2 > end {
        return Malformed;
      }
      m := m.(id := Be16(buf[p], buf[p + 1]));
    }
    r := Complete(m);
  }

  /** The remaining length, in 32-bit arithmetic. */
  method RemainingLength(p: Publication) returns (size: nat)
    ensures size == Size(p) % WORD32
  {
    ModAdds(|p.topic|, 2 + |p.data| % WORD32);
    ModAdds(|p.data|, 2 + |p.topic|);
    size := (2 + |p.topic| % WORD32 + |p.data| % WORD32) % WORD32;
    if p.qos % 4 > 0 {
      ModAdds(2 + |p.topic| + |p.data|, 2);
      size := (size + 2) % WORD32;
    }
  }

  /** The identifiers of published packets, one counter for all connections. */
  class PacketIds {
    var last: nat

    ghost predicate Valid()
      reads this
    {
      last < 0x1_0000
    }

    constructor ()
      ensures Valid() && last == 0
    {
      last := 0;
    }

    /** Identifiers count through 1 to 0xffff. */
    method Next()
      requires Valid()
      modifies this
      ensures Valid() && last == if old(last) == 0xffff then 1 else old(last) + 1
    {
      last := (last + 1) % 0x1_0000;
      if last == 0 {
        last := last + 1;
      }
    }
  }

  class Connection {
    var recv: seq<Byte>
    var send: seq<Byte>
    var delivered: seq<Message>
    var closing: bool

    constructor ()
      ensures Receiver(recv, delivered, closing) == FRESH && send == []
    {
      recv, send, delivered, closing := [], [], [], false;
    }

    /** Bytes arrive and all packets that are complete by now are handed on. */
    method OnRead(bytes: seq<Byte>)
      requires !closing
      modifies this`recv, this`delivered, this`closing
      ensures Receiver(recv, delivered, closing) == Read(old(Receiver(recv, delivered, closing)), bytes)
    {
      hide Parse, Taken, Left, AnyRefused, Refused;
      recv := recv + bytes;
      ghost var buf, taken := recv, [];
      NoneRefused();
      while true
        invariant delivered == old(delivered) + taken
        invariant Taken(buf) == taken + Taken(recv) && Left(buf) == Left(recv)
        invariant closing <==> AnyRefused(taken)
        decreases |recv|
      {
        var r := ParseMessage(recv);
        TakeOne(recv);
        match r
        case Malformed =>
          closing := true;
          break;
        case Complete(m) =>
          if Refused(m) {
            closing := true;
          }
          RefusedBefore(taken, m);
          assert taken + [m] + Taken(recv[m.length..]) == taken + ([m] + Taken(recv[m.length..]));
          taken := taken + [m];
          delivered := delivered + [m];
          recv := recv[m.length..];
        case Incomplete =>
          break;
      }
      assert taken + [] == taken;
    }

    method SendHeader(first: Byte, len: nat)
      modifies this`send
      ensures send == old(send) + [first] + LengthBytes(len, 0)
    {
      send := send + [first];
      var n, k := len, 0;
      while true
        invariant k < 4
        invariant send + LengthBytes(n, k) == old(send) + [first] + LengthBytes(len, 0)
        decreases 4 - k
      {
        var b: Byte := n % 128;
        n := n / 128;
        if n > 0 {
          b := b + 128;
        }
        send := send + [b];
        k := k + 1;
        if n == 0 || k == 4 {
          break;
        }
      }
    }

    /** Sends one publication; above service level 0 it gets the next packet identifier. */
    method Publish(topic: seq<Byte>, data: seq<Byte>, qos: int, retain: bool, ids: PacketIds)
      requires ids.Valid()
      modifies this`send, ids
      ensures ids.Valid()
      ensures ids.last == if qos % 4 == 0 then old(ids.last) else if old(ids.last) == 0xffff then 1 else old(ids.last) + 1
      ensures send == old(send) + Packet(Publication(topic, data, qos, retain, ids.last))
    {
      hide Bytes16, LengthBytes, Size, First, Packet;
      var p := Publication(topic, data, qos, retain, ids.last);
      var size := RemainingLength(p);
      SendHeader(First(p), size);
      send := send + Bytes16(|topic| % 0x1_0000);
      send := send + topic;
      var id: seq<Byte> := [];
      if qos % 4 > 0 {
        ids.Next();
        id := Bytes16(ids.last);
      }
      send := send + id;
      send := send + data;
      PartsArePacket(old(send), p, ids.last);
    }
  }

  lemma PartsArePacket(before: seq<Byte>, p: Publication, id: nat)
    requires id < 0x1_0000
    ensures before + [First(p)] + LengthBytes(Size(p) % WORD32, 0) + Bytes16(|p.topic| % 0x1_0000) + p.topic
            + (if p.qos % 4 > 0 then Bytes16(id) else []) + p.data == before + Packet(p.(id := id))
  {
    hide Bytes16, LengthBytes, Size, First;
    SameHeader(p, id);
    var head, field := before + [First(p)] + LengthBytes(Size(p) % WORD32, 0), if p.qos % 4 > 0 then Bytes16(id) else [];
    assert head + Body(p.(id := id)) == before + ([First(p)] + LengthBytes(Size(p) % WORD32, 0) + Body(p.(id := id)));
  }

  lemma SameHeader(p: Publication, id: nat)
    ensures First(p.(id := id)) == First(p) && Size(p.(id := id)) == Size(p)
  {
  }

  lemma TakeOne(buf: seq<Byte>)
    ensures Parse(buf).Complete? ==>
              var m := Parse(buf).message;
              Taken(buf) == [m] + Taken(buf[m.length..]) && Left(buf) == Left(buf[m.length..])
    ensures !Parse(buf).Complete? ==> Taken(buf) == [] && Left(buf) == buf
  {
  }

  lemma NoneRefused()
    ensures !AnyRefused([])
  {
  }

  lemma RefusedBefore(ms: seq<Message>, m: Message)
    ensures AnyRefused(ms + [m]) <==> AnyRefused(ms) || Refused(m)
  {
    forall i | 0 <= i < |ms| ensures (ms + [m])[i] == ms[i] {
    }
    assert (ms + [m])[|ms|] == m;
  }
}
