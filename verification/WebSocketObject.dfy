/**
 A WebSocket connection with its receive and send buffers edited in place: frames are
 unmasked where they lie, headers are cut out of fragmented messages, and the offset marks
 the end of the message gathered so far.
 */
module WebSocketObject {
  import opened Options
  import opened Bytes
  import opened WebSocket

  class Connection {
    const isClient: bool
    var recv: seq<Byte>
    var ofs: nat
    var send: seq<Byte>
    var isClosing: bool
    var events: seq<Event>

    ghost predicate Valid()
      reads this
    {
      ofs <= |recv|
    }

    ghost function View(): Receiver
      requires Valid()
      reads this
    {
      Receiver(recv[..ofs], recv[ofs..], isClosing, events)
    }

    constructor (isClient: bool)
      ensures Valid() && View() == INITIAL && this.isClient == isClient && send == []
    {
      this.isClient := isClient;
      recv, ofs, send, isClosing, events := [], 0, [], false, [];
    }

    /** Deletes bytes from the receive buffer, as many as there are. */
    method Delete(at: nat, len: nat)
      modifies this`recv
      ensures at + len <= |old(recv)| ==> recv == old(recv)[..at] + old(recv)[at + len..]
    {
      var o := if at > |recv| then |recv| else at;
      var n := if o + len > |recv| then |recv| - o else len;
      recv := recv[..o] + recv[o + n..];
    }

    /** Finds the frame behind the offset and unmasks its payload in the buffer; 0 when incomplete. */
    method ProcessFrame() returns (headerLen: nat, dataLen: nat, flags: Byte)
      requires Valid()
      modifies this`recv
      ensures Valid() && |recv| == |old(recv)| && recv[..ofs] == old(recv)[..ofs]
      ensures
        match Process(old(recv)[ofs..])
        case None => headerLen == 0 && recv == old(recv)
        case Some(f) =>
          && 2 <= headerLen && headerLen + dataLen == f.length && ofs + f.length <= |recv|
          && recv[ofs] == flags == f.flags
          && recv[ofs + headerLen..ofs + f.length] == f.payload
          && recv[ofs + f.length..] == old(recv)[ofs..][f.length..]
    {
      hide Mask, Process, Unmasked;
      var masked;
      ghost var before := recv;
      headerLen, dataLen, flags, masked := Locate(recv[ofs..]);
      if headerLen > 0 {
        var p := ofs + headerLen;
        Rest(recv, ofs, headerLen + dataLen);
        UnmaskedAt(recv, ofs, headerLen, dataLen);
        assert recv[ofs] == flags;
        if masked {
          Front(recv, ofs, p);
          Unmask(p, dataLen);
          Front(recv, ofs, p);
        }
        assert recv[p..p + dataLen] == Unmasked(before[ofs..], headerLen, dataLen);
      }
    }

    /** Unmasks the payload at `p` in place with the four bytes in front of it. */
    method Unmask(p: nat, len: nat)
      requires 4 <= p && p + len <= |recv|
      modifies this`recv
      ensures |recv| == |old(recv)| && recv[..p] == old(recv)[..p] && recv[p + len..] == old(recv)[p + len..]
      ensures recv[p..p + len] == Mask(old(recv)[p..p + len], old(recv)[p - 4..p])
    {
      hide Mask, Xor;
      ghost var before, data, key := recv, recv[p..p + len], recv[p - 4..p];
      var i := 0;
      assert data[..0] == [];
      while i < len
        invariant 0 <= i <= len && recv == before[..p] + Mask(data[..i], key) + before[p + i..]
      {
        assert recv[p + i] == data[i] && recv[p - 4 + i % 4] == key[i % 4];
        recv := recv[p + i := Xor(recv[p + i], recv[p - 4 + i % 4])];
        assert recv == before[..p] + (Mask(data[..i], key) + [Xor(data[i], key[i % 4])]) + before[p + i + 1..];
        i := i + 1;
      }
      assert data[..len] == data;
    }

    /** The handler calls for one frame. */
    method Dispatch(flags: Byte, data: seq<Byte>)
      modifies this`events, this`isClosing
      ensures events == old(events) + Calls(flags, data)
      ensures isClosing == (old(isClosing) || Closes(flags))
    {
      var op := Op(flags);
      match op
      case 0 => events := events + [Ctl(flags, data)];
      case 9 => events := events + [Pong(data), Ctl(flags, data)];
      case 10 => events := events + [Ctl(flags, data)];
      case 1 => if Final(flags) { events := events + [Msg(flags, data)]; }
      case 2 => if Final(flags) { events := events + [Msg(flags, data)]; }
      case 8 =>
        events := events + [Ctl(flags, data)];
        isClosing := true;
      case _ =>
        events := events + [UnknownOp(op)];
        isClosing := true;
    }

    /** Strips or keeps the frame behind the offset, and delivers a message that is now complete. */
    method Store(headerLen: nat, dataLen: nat, flags: Byte)
      requires Valid() && 2 <= headerLen && ofs + headerLen + dataLen <= |recv| && recv[ofs] == flags
      modifies this`recv, this`ofs, this`events
      ensures Valid()
      ensures
        var data := old(recv)[old(ofs) + headerLen..old(ofs) + headerLen + dataLen];
        && recv[..ofs] == Gather(old(recv)[..old(ofs)], flags, data)
        && recv[ofs..] == old(recv)[old(ofs) + headerLen + dataLen..]
        && old(events) <= events
        && Calls(flags, data) + events[|old(events)|..] == Deliver(old(recv)[..old(ofs)], flags, data)
    {
      var final, op := Final(flags), Op(flags);
      ghost var partial := recv[..ofs];
      ghost var data := recv[ofs + headerLen..ofs + headerLen + dataLen];
      ghost var rest := recv[ofs + headerLen + dataLen..];
      if final && op != 0 {
        Delete(ofs, headerLen + dataLen);
        assert recv == partial + rest;
        assert Calls(flags, data) + [] == Calls(flags, data);
      } else {
        var h, len := headerLen, headerLen + dataLen;
        if op != 0 {
          ofs, len, h := ofs + 1, len - 1, h - 1;
        }
        ghost var kept := recv[..ofs];
        assert op != 0 ==> kept == partial + [flags];
        Delete(ofs, h);
        len := len - h;
        assert recv == kept + data + rest;
        ofs := ofs + len;
        assert recv[..ofs] == kept + data && recv[ofs..] == rest;
        assert Calls(flags, data) + [] == Calls(flags, data);
        if final && op == 0 {
          ghost var whole := partial + data;
          if ofs == 0 {
            events := events + [Undefined];
          } else {
            assert recv[0] == whole[0] && recv[1..ofs] == whole[1..];
            events := events + [Msg(recv[0], recv[1..ofs])];
          }
          Delete(0, ofs);
          ofs := 0;
          assert recv == rest;
        }
      }
    }

    /** A read: the bytes are appended and every complete frame is handled. */
    method OnRead(chunk: seq<Byte>)
      requires Valid() && !isClosing
      modifies this`recv, this`ofs, this`events, this`isClosing
      ensures Valid() && View() == Read(old(View()), chunk)
    {
      hide Process, Gather, Deliver, Calls, Closes;
      recv := recv + chunk;
      assert recv[..ofs] == old(recv)[..ofs] && recv[ofs..] == old(recv)[ofs..] + chunk;
      ghost var target := Drain(View());
      while true
        invariant Valid() && Drain(View()) == target
        decreases |recv| - ofs
      {
        ghost var before := View();
        ghost var frame := Process(before.pending);
        var headerLen, dataLen, flags := ProcessFrame();
        if headerLen == 0 {
          return;
        }
        ghost var f := frame.value;
        Dispatch(flags, recv[ofs + headerLen..ofs + headerLen + dataLen]);
        ghost var called := events;
        Store(headerLen, dataLen, flags);
        assert View().partial == Gather(before.partial, f.flags, f.payload);
        assert View().pending == before.pending[f.length..];
        assert events == called + events[|called|..];
        assert events == before.events + Deliver(before.partial, f.flags, f.payload);
      }
    }

    /** Sends one final frame: its header, the payload, and for a client the payload masked in place. */
    method Send(payload: seq<Byte>, op: Byte, key: seq<Byte>)
      requires op < 16 && |key| == 4 && |payload| < 0x1_0000_0000_0000_0000
      modifies this`send
      ensures send == old(send) + Encode(Sent(128 + op, Minimal(|payload|), if isClient then Some(key) else None, payload))
    {
      hide Mask, HeaderBytes;
      var header := new Byte[14];
      var n := MakeHeader(|payload|, op, isClient, key, header);
      send := send + header[..n];
      ghost var front := send;
      send := send + payload;
      if isClient {
        HeaderEndsWithKey(128 + op, Minimal(|payload|), key, |payload|);
        assert front[|front| - 4..] == key;
        MaskTail(|payload|, key, front, payload);
      }
      assert old(send) + header[..n] == front;
    }

    /** Masks the last `len` bytes of the send buffer with the four bytes in front of them. */
    method MaskTail(len: nat, ghost key: seq<Byte>, ghost front: seq<Byte>, ghost payload: seq<Byte>)
      requires |payload| == len && send == front + payload && |front| >= 4 && |key| == 4 && front[|front| - 4..] == key
      modifies this`send
      ensures send == front + Mask(payload, key)
    {
      hide Mask, Xor;
      var p := |send| - len;
      var i := 0;
      assert payload[..0] == [];
      while i < len
        invariant 0 <= i <= len && send == front + Mask(payload[..i], key) + payload[i..]
      {
        assert send[p + i] == payload[i] && send[p - 4 + i % 4] == front[|front| - 4..][i % 4] == key[i % 4];
        send := send[p + i := Xor(send[p + i], send[p - 4 + i % 4])];
        assert send == front + (Mask(payload[..i], key) + [Xor(payload[i], key[i % 4])]) + payload[i + 1..];
        i := i + 1;
      }
      assert payload[..len] == payload;
    }
  }

  /** The shortest form of a length. */
  function Minimal(n: nat): Form {
    if n < 126 then Short else if n < 65536 then Medium else Long
  }

  /** Writes a length behind the first byte of `buf` and returns where it ends. */
  method PutLength(len: nat, buf: array<Byte>) returns (n: nat)
    requires len < 0x1_0000_0000_0000_0000 && buf.Length >= 10
    modifies buf
    ensures 2 <= n <= 10 && buf[..n] == [old(buf[0])] + LengthBytes(Minimal(len), len)
  {
    hide Bytes16, Bytes32, Be16, Be32;
    if len < 126 {
      buf[1] := len;
      n := 2;
    } else if len < 65536 {
      buf[1] := 126;
      buf[2], buf[3] := Bytes16(len)[0], Bytes16(len)[1];
      n := 4;
    } else {
      buf[1] := 127;
      var high, low := Bytes32(len / WORD32), Bytes32(len % WORD32);
      buf[2], buf[3], buf[4], buf[5] := high[0], high[1], high[2], high[3];
      buf[6], buf[7], buf[8], buf[9] := low[0], low[1], low[2], low[3];
      n := 10;
    }
  }

  /** Writes the header of a final frame into the front of `buf` and returns its length. */
  method MakeHeader(len: nat, op: Byte, isClient: bool, key: seq<Byte>, buf: array<Byte>) returns (n: nat)
    requires len < 0x1_0000_0000_0000_0000 && op < 16 && |key| == 4 && buf.Length >= 14
    modifies buf
    ensures n <= 14
    ensures buf[..n] == HeaderBytes(128 + op, Minimal(len), if isClient then Some(key) else None, len)
  {
    hide HeaderBytes, LengthBytes;
    buf[0] := op + 128;
    n := PutLength(len, buf);
    HeaderParts(128 + op, Minimal(len), key, len);
    if isClient {
      ghost var length := LengthBytes(Minimal(len), len);
      buf[1] := buf[1] + 128;
      buf[n], buf[n + 1], buf[n + 2], buf[n + 3] := key[0], key[1], key[2], key[3];
      assert buf[..n + 4] == [op + 128] + length[0 := length[0] + 128] + key;
      n := n + 4;
    }
  }

  lemma HeaderParts(flags: Byte, form: Form, key: seq<Byte>, n: nat)
    requires Fits(form, n)
    ensures var l := LengthBytes(form, n);
            && HeaderBytes(flags, form, None, n) == [flags] + l
            && HeaderBytes(flags, form, Some(key), n) == [flags] + l[0 := l[0] + 128] + key
  {
    hide LengthBytes;
  }

  lemma HeaderEndsWithKey(flags: Byte, form: Form, key: seq<Byte>, n: nat)
    requires Fits(form, n) && |key| == 4
    ensures
      var h := HeaderBytes(flags, form, Some(key), n);
      |h| >= 4 && h[|h| - 4..] == key
  {
  }

  /** Reads the header of the frame at the front; 0 when the frame is incomplete or too long. */
  method Locate(buf: seq<Byte>) returns (headerLen: nat, dataLen: nat, flags: Byte, masked: bool)
    ensures
      match Process(buf)
      case None => headerLen == 0
      case Some(f) =>
        && headerLen + dataLen == f.length && 2 <= headerLen && masked == (buf[1] >= 128) && (masked ==> 6 <= headerLen)
        && flags == f.flags == buf[0]
        && f.payload == Unmasked(buf, headerLen, dataLen)
  {
    hide Unmasked, Be16, Be32;
    headerLen, dataLen, flags, masked := 0, 0, 0, false;
    if |buf| >= 2 {
      var n := buf[1] % 128;
      var maskLen := if buf[1] >= 128 then 4 else 0;
      flags, masked := buf[0], buf[1] >= 128;
      if n < 126 && |buf| >= maskLen {
        headerLen, dataLen := 2 + maskLen, n;
      } else if n == 126 && |buf| >= 4 + maskLen {
        headerLen, dataLen := 4 + maskLen, Be16(buf[2], buf[3]);
      } else if |buf| >= 10 + maskLen {
        headerLen := 10 + maskLen;
        dataLen := Be32(buf[2], buf[3], buf[4], buf[5]) * WORD32 + Be32(buf[6], buf[7], buf[8], buf[9]);
      }
      if dataLen > MAX_PAYLOAD || headerLen + dataLen > |buf| {
        headerLen := 0;
      }
    }
  }

  lemma Front(s: seq<Byte>, at: nat, p: nat)
    requires at < p <= |s|
    ensures s[..p][..at] == s[..at] && s[..p][at] == s[at]
  {
  }

  lemma UnmaskedAt(s: seq<Byte>, at: nat, h: nat, n: nat)
    requires 2 <= h && at + h + n <= |s| && (s[at..][1] >= 128 ==> 6 <= h)
    ensures Unmasked(s[at..], h, n) ==
            if s[at..][1] >= 128 then Mask(s[at + h..at + h + n], s[at + h - 4..at + h]) else s[at + h..at + h + n]
  {
    hide Mask;
    Slice(s, at, h, h + n);
    if s[at..][1] >= 128 { Slice(s, at, h - 4, h); }
  }

  lemma Slice(s: seq<Byte>, at: nat, lo: nat, hi: nat)
    requires lo <= hi && at + hi <= |s|
    ensures s[at..][lo..hi] == s[at + lo..at + hi]
  {
  }

  lemma Rest(s: seq<Byte>, at: nat, n: nat)
    requires at + n <= |s|
    ensures s[at..][n..] == s[at + n..]
  {
  }

}
