/**
 WebSocket framing and reassembly (sections 5.2 to 5.4 of RFC 6455).  The receive buffer is
 the part of a fragmented message gathered so far, followed by bytes not yet processed; how
 the stream is cut into reads makes no difference, and messages come out as they were sent.
 */
module WebSocket {
  import opened Options
  import opened Bytes

  /** What a complete frame at the front of a buffer says; `length` counts all its bytes. */
  datatype Frame = Frame(flags: Byte, payload: seq<Byte>, length: nat)

  const MAX_PAYLOAD: nat := 0x4000_0000

  predicate Final(flags: Byte) { flags >= 128 }

  function Op(flags: Byte): nat { flags % 16 }

  /** XOR with the repeated four-byte key. */
  function Mask(data: seq<Byte>, key: seq<Byte>): (r: seq<Byte>)
    requires |key| == 4
    ensures |r| == |data| && forall i | 0 <= i < |data| :: r[i] == Xor(data[i], key[i % 4])
  {
    seq(|data|, i requires 0 <= i < |data| => Xor(data[i], key[i % 4]))
  }

  /** Lengths of header and payload as far as the header can be read, else zeros. */
  function Header(buf: seq<Byte>): (r: (nat, nat))
    requires |buf| >= 2
    ensures r.0 != 0 ==> 2 <= r.0 && (buf[1] >= 128 ==> 6 <= r.0)
  {
    var n, maskLen := buf[1] % 128, if buf[1] >= 128 then 4 else 0;
    if n < 126 && |buf| >= maskLen then (2 + maskLen, n)
    else if n == 126 && |buf| >= 4 + maskLen then (4 + maskLen, Be16(buf[2], buf[3]))
    else if |buf| >= 10 + maskLen then
      (10 + maskLen, Be32(buf[2], buf[3], buf[4], buf[5]) * WORD32 + Be32(buf[6], buf[7], buf[8], buf[9]))
    else (0, 0)
  }

  /** The payload behind a header of `h` bytes, which ends with the key if there is one. */
  function Unmasked(buf: seq<Byte>, h: nat, n: nat): (r: seq<Byte>)
    requires 2 <= h && h + n <= |buf| && (buf[1] >= 128 ==> 6 <= h)
    ensures |r| == n
  {
    if buf[1] >= 128 then Mask(buf[h..h + n], buf[h - 4..h]) else buf[h..h + n]
  }

  /** The frame at the front of the buffer, unmasked, if it is complete and not too long. */
  function Process(buf: seq<Byte>): (r: Option<Frame>)
    ensures r.Some? ==> 2 <= r.value.length <= |buf|
  {
    if |buf| < 2 then None
    else
      var (h, n) := Header(buf);
      if h == 0 || n > MAX_PAYLOAD || h + n > |buf| then None
      else
        Some(Frame(buf[0], Unmasked(buf, h, n), h + n))
  }

  // ---------------------------------------------------------------------------------------
  // Reassembly
  // ---------------------------------------------------------------------------------------

  /** Handler calls and replies; `Undefined` is a read before the start of the buffer. */
  datatype Event =
    | Msg(flags: Byte, data: seq<Byte>)
    | Ctl(flags: Byte, data: seq<Byte>)
    | Pong(data: seq<Byte>)
    | UnknownOp(op: nat)
    | Undefined

  /** The calls made for a frame by itself, before fragments are considered. */
  function Calls(flags: Byte, data: seq<Byte>): seq<Event> {
    match Op(flags)
    case 0 => [Ctl(flags, data)]
    case 9 => [Pong(data), Ctl(flags, data)]
    case 10 => [Ctl(flags, data)]
    case 1 => if Final(flags) then [Msg(flags, data)] else []
    case 2 => if Final(flags) then [Msg(flags, data)] else []
    case 8 => [Ctl(flags, data)]
    case op => [UnknownOp(op)]
  }

  /** Whether a frame makes the connection close. */
  predicate Closes(flags: Byte) {
    Op(flags) !in {0, 1, 2, 9, 10}
  }

  /** The gathered message after a frame: its first flags byte, then the data so far. */
  function Gather(partial: seq<Byte>, flags: Byte, data: seq<Byte>): seq<Byte> {
    if Final(flags) then if Op(flags) == 0 then [] else partial
    else if Op(flags) == 0 then partial + data
    else partial + [flags] + data
  }

  function Deliver(partial: seq<Byte>, flags: Byte, data: seq<Byte>): seq<Event> {
    if Final(flags) && Op(flags) == 0 then
      var whole := partial + data;
      Calls(flags, data) + [if whole == [] then Undefined else Msg(whole[0], whole[1..])]
    else Calls(flags, data)
  }

  /** `partial` and `pending` make up the receive buffer; the offset is where they meet. */
  datatype Receiver = Receiver(partial: seq<Byte>, pending: seq<Byte>, closing: bool, events: seq<Event>)

  /** Handles every complete frame in the buffer. */
  function Drain(r: Receiver): Receiver
    decreases |r.pending|
  {
    var f := Process(r.pending);
    if f.None? then r
    else
      var Frame(flags, data, n) := f.value;
      Drain(Receiver(Gather(r.partial, flags, data), r.pending[n..], r.closing || Closes(flags),
                     r.events + Deliver(r.partial, flags, data)))
  }

  /** One read: a connection that is being closed is no longer read. */
  function Read(r: Receiver, chunk: seq<Byte>): Receiver {
    if r.closing then r else Drain(r.(pending := r.pending + chunk))
  }

  function ReadAll(r: Receiver, chunks: seq<seq<Byte>>): Receiver
    decreases |chunks|
  {
    if chunks == [] then r else ReadAll(Read(r, chunks[0]), chunks[1..])
  }

  const INITIAL: Receiver := Receiver([], [], false, [])

  /** An empty final continuation with nothing gathered before it. */
  predicate EndsNothing(partial: seq<Byte>, flags: Byte, data: seq<Byte>) {
    Final(flags) && Op(flags) == 0 && partial == [] && data == []
  }

  /** Such a frame comes among the complete frames of a stream. */
  predicate StrayEnd(partial: seq<Byte>, stream: seq<Byte>)
    decreases |stream|
  {
    var f := Process(stream);
    f.Some? &&
    var Frame(flags, data, n) := f.value;
    EndsNothing(partial, flags, data) || StrayEnd(Gather(partial, flags, data), stream[n..])
  }

  lemma OnlyStrayEnds(partial: seq<Byte>, flags: Byte, data: seq<Byte>)
    ensures Undefined in Deliver(partial, flags, data) <==> EndsNothing(partial, flags, data)
  {
    var calls, whole := Calls(flags, data), partial + data;
    if Final(flags) && Op(flags) == 0 {
      var last := if whole == [] then Undefined else Msg(whole[0], whole[1..]);
      assert (calls + [last])[|calls|] == last;
    }
  }

  /** The receiver reads before its buffer if and only if a frame ends a message that never began. */
  lemma {:induction false} UndefinedExactly(r: Receiver)
    ensures Undefined in Drain(r).events <==> Undefined in r.events || StrayEnd(r.partial, r.pending)
    decreases |r.pending|
  {
    hide Process, Deliver, Gather, EndsNothing;
    var f := Process(r.pending);
    if f.Some? {
      var Frame(flags, data, n) := f.value;
      OnlyStrayEnds(r.partial, flags, data);
      UndefinedExactly(Receiver(Gather(r.partial, flags, data), r.pending[n..], r.closing || Closes(flags),
                                r.events + Deliver(r.partial, flags, data)));
    }
  }

  // ---------------------------------------------------------------------------------------
  // Any split into reads gives the same result
  // ---------------------------------------------------------------------------------------

  lemma HeaderIsStable(buf: seq<Byte>, more: seq<Byte>)
    requires |buf| >= 2 && Header(buf).0 != 0
    ensures Header(buf + more) == Header(buf)
  {
    hide Be16, Be32;
    assert forall i | 0 <= i < |buf| :: (buf + more)[i] == buf[i];
  }

  /** More bytes behind a complete frame do not change it. */
  lemma ProcessIsStable(buf: seq<Byte>, more: seq<Byte>)
    requires Process(buf).Some?
    ensures Process(buf + more) == Process(buf)
  {
    hide Header, Mask;
    HeaderIsStable(buf, more);
    var whole := buf + more;
    var (h, n) := Header(buf);
    assert whole[0] == buf[0] && whole[1] == buf[1];
    assert whole[h..h + n] == buf[h..h + n];
    if buf[1] >= 128 { assert whole[h - 4..h] == buf[h - 4..h]; }
  }

  /** Draining before or after more bytes arrive comes to the same. */
  lemma {:induction false} DrainTwice(r: Receiver, more: seq<Byte>)
    ensures
      var d := Drain(r);
      Drain(d.(pending := d.pending + more)) == Drain(r.(pending := r.pending + more))
    decreases |r.pending|
  {
    var f := Process(r.pending);
    if f.Some? {
      var Frame(flags, data, n) := f.value;
      ProcessIsStable(r.pending, more);
      assert (r.pending + more)[n..] == r.pending[n..] + more;
      DrainTwice(Receiver(Gather(r.partial, flags, data), r.pending[n..], r.closing || Closes(flags),
                          r.events + Deliver(r.partial, flags, data)), more);
    }
  }

  lemma {:induction false} DrainKeepsClosing(r: Receiver)
    ensures r.closing ==> Drain(r).closing
    decreases |r.pending|
  {
    var f := Process(r.pending);
    if f.Some? {
      var Frame(flags, data, n) := f.value;
      DrainKeepsClosing(Receiver(Gather(r.partial, flags, data), r.pending[n..], r.closing || Closes(flags),
                                 r.events + Deliver(r.partial, flags, data)));
    }
  }

  /** If no frame of the stream closes the connection, every split of it ends alike. */
  lemma {:induction false} SplitsAgree(r: Receiver, chunks: seq<seq<Byte>>)
    requires !r.closing && !Drain(r.(pending := r.pending + Concat(chunks))).closing
    ensures Drain(ReadAll(r, chunks)) == Drain(r.(pending := r.pending + Concat(chunks)))
    decreases |chunks|
  {
    if chunks == [] {
      assert r.pending + [] == r.pending;
    } else {
      var m := r.(pending := r.pending + chunks[0]);
      var d := Drain(m);
      var rest := Concat(chunks[1..]);
      DrainTwice(m, rest);
      assert m.pending + rest == r.pending + Concat(chunks);
      if d.closing { DrainKeepsClosing(d.(pending := d.pending + rest)); }
      SplitsAgree(d, chunks[1..]);
    }
  }

  ghost predicate Drained(r: Receiver) { Process(r.pending).None? }

  lemma {:induction false} DrainIsDrained(r: Receiver)
    ensures Drained(Drain(r))
    decreases |r.pending|
  {
    var f := Process(r.pending);
    if f.Some? {
      var Frame(flags, data, n) := f.value;
      DrainIsDrained(Receiver(Gather(r.partial, flags, data), r.pending[n..], r.closing || Closes(flags),
                              r.events + Deliver(r.partial, flags, data)));
    }
  }

  lemma {:induction false} ReadAllIsDrained(r: Receiver, chunks: seq<seq<Byte>>)
    requires Drained(r)
    ensures Drained(ReadAll(r, chunks))
    decreases |chunks|
  {
    if chunks != [] {
      DrainIsDrained(r.(pending := r.pending + chunks[0]));
      ReadAllIsDrained(Read(r, chunks[0]), chunks[1..]);
    }
  }

  // ---------------------------------------------------------------------------------------
  // What a closing frame changes
  // ---------------------------------------------------------------------------------------

  /** The receiver after the next frame. */
  function Next(r: Receiver): (n: Receiver)
    requires Process(r.pending).Some?
    ensures |n.pending| < |r.pending|
  {
    var Frame(flags, data, n) := Process(r.pending).value;
    Receiver(Gather(r.partial, flags, data), r.pending[n..], r.closing || Closes(flags),
             r.events + Deliver(r.partial, flags, data))
  }

  /** The receiver after at most `n` frames. */
  function After(r: Receiver, n: nat): (a: Receiver)
    ensures |a.pending| <= |r.pending|
    decreases n
  {
    if n == 0 || Process(r.pending).None? then r else After(Next(r), n - 1)
  }

  function More(r: Receiver, bytes: seq<Byte>): Receiver { r.(pending := r.pending + bytes) }

  lemma NextIsStable(r: Receiver, bytes: seq<Byte>)
    requires Process(r.pending).Some?
    ensures Process(More(r, bytes).pending) == Process(r.pending) && Next(More(r, bytes)) == More(Next(r), bytes)
  {
    hide Process;
    ProcessIsStable(r.pending, bytes);
    var n := Process(r.pending).value.length;
    assert (r.pending + bytes)[n..] == r.pending[n..] + bytes;
  }

  lemma {:induction false} AfterAdds(r: Receiver, a: nat, b: nat)
    ensures After(After(r, a), b) == After(r, a + b)
    decreases a
  {
    hide Process, Next;
    if a > 0 && Process(r.pending).Some? { AfterAdds(Next(r), a - 1, b); }
  }

  /** Draining a part of a stream is taking some of its frames. */
  lemma {:induction false} DrainIsAfter(r: Receiver, bytes: seq<Byte>) returns (n: nat)
    ensures After(More(r, bytes), n) == More(Drain(r), bytes)
    decreases |r.pending|
  {
    hide Process, Next;
    n := 0;
    if Process(r.pending).Some? {
      NextIsStable(r, bytes);
      DrainStep(r);
      n := DrainIsAfter(Next(r), bytes);
      n := n + 1;
    }
  }

  lemma DrainStep(r: Receiver)
    ensures Drain(r) == if Process(r.pending).None? then r else Drain(Next(r))
  {
    hide Process;
  }

  lemma HeaderIsTight(buf: seq<Byte>, m: nat)
    requires |buf| >= 2 && Header(buf).0 != 0 && Header(buf).0 <= m <= |buf|
    ensures Header(buf[..m]) == Header(buf)
  {
    hide Be16, Be32;
    assert forall i | 0 <= i < m :: buf[..m][i] == buf[i];
  }

  lemma FrameIsTight(buf: seq<Byte>)
    requires Process(buf).Some?
    ensures Process(buf[..Process(buf).value.length]) == Process(buf)
  {
    hide Header, Unmasked;
    var m := Process(buf).value.length;
    HeaderIsTight(buf, m);
    assert buf[..m] + buf[m..] == buf;
    ProcessIsStable(buf[..m], buf[m..]);
  }

  /** A frame is handled alike when bytes behind it are missing. */
  lemma NextOfFront(r: Receiver, m: nat)
    requires Process(r.pending).Some? && Process(r.pending).value.length <= m <= |r.pending|
    ensures Process(r.pending[..m]) == Process(r.pending)
    ensures Next(r.(pending := r.pending[..m])) ==
            Next(r).(pending := Next(r).pending[..m - Process(r.pending).value.length])
  {
    hide Process;
    var length := Process(r.pending).value.length;
    FrameIsTight(r.pending);
    ProcessIsStable(r.pending[..length], r.pending[length..m]);
    assert r.pending[..length] + r.pending[length..m] == r.pending[..m];
    assert r.pending[..m][length..] == r.pending[length..][..m - length];
  }

  /** The bytes of the first `n` frames, read by themselves, leave nothing over. */
  lemma {:induction false} FirstFramesAlone(r: Receiver, n: nat)
    ensures var a := After(r, n);
            Drain(r.(pending := r.pending[..|r.pending| - |a.pending|])) == a.(pending := [])
    decreases n
  {
    hide Process, Next, Drain;
    var a := After(r, n);
    if n == 0 || Process(r.pending).None? {
      NothingToDrain(r.(pending := []));
      assert r.pending[..0] == [];
    } else {
      var m, length := |r.pending| - |a.pending|, Process(r.pending).value.length;
      NextLength(r);
      FirstFramesAlone(Next(r), n - 1);
      NextOfFront(r, m);
      DrainStep(r.(pending := r.pending[..m]));
    }
  }

  lemma NextLength(r: Receiver)
    requires Process(r.pending).Some?
    ensures |Next(r).pending| == |r.pending| - Process(r.pending).value.length
  {
    hide Process;
  }

  /** The first frame of a message in several: the only kind that calls nobody. */
  predicate Opening(flags: Byte) { (Op(flags) == 1 || Op(flags) == 2) && !Final(flags) }

  /** Once a frame closes the connection, only frames that open a message follow. */
  predicate OnlyOpeningsFollow(stream: seq<Byte>, closing: bool)
    decreases |stream|
  {
    var f := Process(stream);
    f.None? ||
    var Frame(flags, _, n) := f.value;
    (closing ==> Opening(flags)) && OnlyOpeningsFollow(stream[n..], closing || Closes(flags))
  }

  lemma OpeningsAreSilent(partial: seq<Byte>, flags: Byte, data: seq<Byte>)
    ensures Deliver(partial, flags, data) == [] <==> Opening(flags)
  {
  }

  lemma FrameFollows(r: Receiver)
    requires Process(r.pending).Some?
    ensures OnlyOpeningsFollow(r.pending, r.closing) <==>
            && (r.closing ==> Opening(Process(r.pending).value.flags))
            && OnlyOpeningsFollow(Next(r).pending, Next(r).closing)
    ensures Next(r).events == r.events <==> Opening(Process(r.pending).value.flags)
    ensures r.events <= Next(r).events && (r.closing ==> Next(r).closing)
  {
    hide Process, Deliver, Opening;
    var Frame(flags, data, _) := Process(r.pending).value;
    OpeningsAreSilent(r.partial, flags, data);
  }

  /** Once closing, draining calls nobody if and only if all frames left open a message. */
  lemma {:induction false} ClosingDrain(r: Receiver)
    ensures r.events <= Drain(r).events
    ensures r.closing ==> (Drain(r).events == r.events <==> OnlyOpeningsFollow(r.pending, true))
    decreases |r.pending|
  {
    hide Process, Next, Opening;
    DrainStep(r);
    if Process(r.pending).Some? {
      hide Drain;
      FrameFollows(r);
      ClosingDrain(Next(r));
    }
  }

  lemma {:induction false} QuietByFlags(r: Receiver)
    ensures QuietOnceClosing(r) <==> OnlyOpeningsFollow(r.pending, r.closing)
    decreases |r.pending|
  {
    hide Process, Next, Opening, Drain, OnlyOpeningsFollow;
    ClosingDrain(r);
    assert After(r, 0) == r;
    DrainStep(r);
    if Process(r.pending).Some? {
      FrameFollows(r);
      QuietByFlags(Next(r));
      assert forall n: nat :: After(r, n + 1) == After(Next(r), n);
      if QuietOnceClosing(r) {
        assert QuietOnceClosing(Next(r));
      } else {
        var n: nat :| After(r, n).closing && After(r, n).events != Drain(r).events;
        if n > 0 { assert After(Next(r), n - 1) == After(r, n); }
      }
    } else {
      NoFrameFollows(r);
    }
  }

  lemma NoFrameFollows(r: Receiver)
    requires Process(r.pending).None?
    ensures OnlyOpeningsFollow(r.pending, r.closing) && forall n :: After(r, n) == r
  {
  }

  /** Frames behind one that closes the connection call nobody. */
  ghost predicate QuietOnceClosing(r: Receiver) {
    forall n: nat :: After(r, n).closing ==> After(r, n).events == Drain(r).events
  }

  lemma {:induction false} QuietSplitsAgree(r: Receiver, chunks: seq<seq<Byte>>)
    requires !r.closing && QuietOnceClosing(More(r, Concat(chunks))) && Drained(r)
    ensures ReadAll(r, chunks).events == Drain(More(r, Concat(chunks))).events
    decreases |chunks|
  {
    hide Process, Drain, After;
    if chunks == [] {
      assert More(r, []) == r;
      DrainedStays(r);
    } else {
      var m, rest := More(r, chunks[0]), Concat(chunks[1..]);
      var d := Drain(m);
      assert More(m, rest) == More(r, Concat(chunks));
      var n := DrainIsAfter(m, rest);
      if d.closing {
        ClosedStays(d, chunks[1..]);
      } else {
        DrainTwice(m, rest);
        DrainIsDrained(m);
        forall k: nat | After(More(d, rest), k).closing
          ensures After(More(d, rest), k).events == Drain(More(d, rest)).events
        {
          AfterAdds(More(m, rest), n, k);
        }
        QuietSplitsAgree(d, chunks[1..]);
      }
    }
  }

  lemma {:induction false} ClosedStays(r: Receiver, chunks: seq<seq<Byte>>)
    requires r.closing
    ensures ReadAll(r, chunks) == r
    decreases |chunks|
  {
    if chunks != [] { ClosedStays(r, chunks[1..]); }
  }

  /**
   The exact condition: all splits of a stream make the same calls if and only if no frame
   behind a closing one is anything but the opening of a message.
   */
  lemma SplitsAgreeExactly(stream: seq<Byte>)
    ensures (forall chunks | Concat(chunks) == stream :: ReadAll(INITIAL, chunks).events == Drain(More(INITIAL, stream)).events)
            <==> OnlyOpeningsFollow(stream, false)
  {
    hide Process, Drain, After, Read, ReadAll, Concat, OnlyOpeningsFollow;
    QuietByFlags(More(INITIAL, stream));
    assert [] + stream == stream;
    if QuietOnceClosing(More(INITIAL, stream)) {
      forall chunks | Concat(chunks) == stream
        ensures ReadAll(INITIAL, chunks).events == Drain(More(INITIAL, stream)).events
      {
        NothingDrained();
        QuietSplitsAgree(INITIAL, chunks);
      }
    } else {
      var chunks := LoudSplitDiffers(stream);
    }
  }

  lemma NothingDrained()
    ensures Drained(INITIAL)
  {
  }

  /** A read that ends with a closing frame loses the calls behind it. */
  lemma LoudSplitDiffers(stream: seq<Byte>) returns (chunks: seq<seq<Byte>>)
    requires !QuietOnceClosing(More(INITIAL, stream))
    ensures Concat(chunks) == stream && ReadAll(INITIAL, chunks).events != Drain(More(INITIAL, stream)).events
  {
    hide Process, Drain, After, ReadAll, Concat;
    var r := More(INITIAL, stream);
    assert [] + stream == stream;
    var n: nat :| After(r, n).closing && After(r, n).events != Drain(r).events;
    FirstFramesAlone(r, n);
    var to := |stream| - |After(r, n).pending|;
    var a, b := stream[..to], stream[to..];
    assert a + b == stream && [] + a == a;
    TwoReads(a, b);
    chunks := [a, b];
  }

  /** What comes in after a read that closes the connection is lost. */
  lemma TwoReads(a: seq<Byte>, b: seq<Byte>)
    ensures Concat([a, b]) == a + b
    ensures Read(INITIAL, a).closing ==> ReadAll(INITIAL, [a, b]) == Read(INITIAL, a)
  {
    hide Read;
    assert [a, b][1..] == [b] && Concat([b]) == b + Concat([]) == b;
    if Read(INITIAL, a).closing { ClosedStays(Read(INITIAL, a), [b]); }
  }

  // ---------------------------------------------------------------------------------------
  // Frames on the wire
  // ---------------------------------------------------------------------------------------

  /** How the payload length is written: in 7, 16 or 64 bits. */
  datatype Form = Short | Medium | Long

  datatype Sent = Sent(flags: Byte, form: Form, key: Option<seq<Byte>>, payload: seq<Byte>)

  predicate Fits(form: Form, n: nat) {
    match form
    case Short => n < 126
    case Medium => n < 0x1_0000
    case Long => n < 0x1_0000_0000_0000_0000
  }

  /** The payload length fits its form, and a key has four bytes. */
  predicate Encodable(s: Sent) {
    Fits(s.form, |s.payload|) && (s.key.Some? ==> |s.key.value| == 4)
  }

  /** The seven length bits and the extended length behind them. */
  function LengthBytes(form: Form, n: nat): (r: seq<Byte>)
    requires Fits(form, n)
    ensures |r| > 0 && r[0] < 128
  {
    match form
    case Short => [n]
    case Medium => [126] + Bytes16(n)
    case Long => [127] + (Bytes32(n / WORD32) + Bytes32(n % WORD32))
  }

  function HeaderBytes(flags: Byte, form: Form, key: Option<seq<Byte>>, n: nat): (r: seq<Byte>)
    requires Fits(form, n)
    ensures |r| >= 2
  {
    var l := LengthBytes(form, n);
    match key
    case None => [flags, l[0]] + l[1..]
    case Some(key) => [flags, l[0] + 128] + l[1..] + key
  }

  function HeaderOf(s: Sent): seq<Byte>
    requires Encodable(s)
  {
    HeaderBytes(s.flags, s.form, s.key, |s.payload|)
  }

  function Encode(s: Sent): seq<Byte>
    requires Encodable(s)
  {
    HeaderOf(s) + (match s.key case None => s.payload case Some(key) => Mask(s.payload, key))
  }

  lemma MaskTwice(data: seq<Byte>, key: seq<Byte>)
    requires |key| == 4
    ensures Mask(Mask(data, key), key) == data
  {
    hide Xor;
    forall i | 0 <= i < |data| ensures Mask(Mask(data, key), key)[i] == data[i] {
      XorTwice(data[i], key[i % 4]);
    }
  }

  lemma HeaderParts(s: Sent)
    requires Encodable(s)
    ensures
      var l, buf := LengthBytes(s.form, |s.payload|), Encode(s);
      && |HeaderOf(s)| == 1 + |l| + MaskLength(s.key.Some?) <= |buf|
      && buf[1] == l[0] + MaskBit(s.key.Some?)
      && forall i | 1 <= i < |l| :: buf[i + 1] == l[i]
  {
    hide Mask, LengthBytes;
  }

  function MaskLength(masked: bool): nat { if masked then 4 else 0 }

  function MaskBit(masked: bool): nat { if masked then 128 else 0 }

  lemma ReadsShort(buf: seq<Byte>, n: nat, masked: bool)
    requires |buf| >= 2 + MaskLength(masked) && n < 126 && buf[1] == n + MaskBit(masked)
    ensures Header(buf) == (2 + MaskLength(masked), n)
  {
  }

  lemma ReadsMedium(buf: seq<Byte>, masked: bool)
    requires |buf| >= 4 + MaskLength(masked) && buf[1] == 126 + MaskBit(masked)
    ensures Header(buf) == (4 + MaskLength(masked), Be16(buf[2], buf[3]))
  {
  }

  lemma ReadsLong(buf: seq<Byte>, masked: bool)
    requires |buf| >= 10 + MaskLength(masked) && buf[1] == 127 + MaskBit(masked)
    ensures Header(buf) == (10 + MaskLength(masked),
                            Be32(buf[2], buf[3], buf[4], buf[5]) * WORD32 + Be32(buf[6], buf[7], buf[8], buf[9]))
  {
    hide Be32;
  }

  /** The extended length bytes are where the reader looks for them. */
  lemma LengthParts(form: Form, n: nat)
    requires Fits(form, n)
    ensures
      var l := LengthBytes(form, n);
      match form
      case Short => l == [n]
      case Medium => |l| == 3 && l[0] == 126 && Be16(l[1], l[2]) == n
      case Long =>
        && |l| == 9 && l[0] == 127
        && Be32(l[1], l[2], l[3], l[4]) * WORD32 + Be32(l[5], l[6], l[7], l[8]) == n
  {
    hide Be32, Bytes32, Be16, Bytes16;
  }

  /** The header is read back as it was written. */
  lemma HeaderReadsBack(s: Sent)
    requires Encodable(s)
    ensures Header(Encode(s)) == (|HeaderOf(s)|, |s.payload|)
  {
    hide Encode, HeaderOf, LengthBytes, Header, Be16, Be32;
    HeaderParts(s);
    LengthParts(s.form, |s.payload|);
    var buf, l, masked := Encode(s), LengthBytes(s.form, |s.payload|), s.key.Some?;
    match s.form
    case Short => ReadsShort(buf, |s.payload|, masked);
    case Medium =>
      assert l[1] == buf[2] && l[2] == buf[3];
      ReadsMedium(buf, masked);
    case Long =>
      assert l[1] == buf[2] && l[2] == buf[3] && l[3] == buf[4] && l[4] == buf[5];
      assert l[5] == buf[6] && l[6] == buf[7] && l[7] == buf[8] && l[8] == buf[9];
      ReadsLong(buf, masked);
  }

  /** A frame is read back as it was sent, exactly up to the receiver's limit. */
  lemma ProcessEncoded(s: Sent)
    requires Encodable(s)
    ensures Process(Encode(s)) ==
            if |s.payload| <= MAX_PAYLOAD then Some(Frame(s.flags, s.payload, |Encode(s)|)) else None
  {
    hide Mask, LengthBytes, Header;
    var buf, h := Encode(s), |HeaderOf(s)|;
    HeaderReadsBack(s);
    assert buf[0] == s.flags && (buf[1] >= 128 <==> s.key.Some?);
    match s.key
    case None => assert buf[h..h + |s.payload|] == s.payload;
    case Some(key) =>
      assert buf[h..h + |s.payload|] == Mask(s.payload, key) && buf[h - 4..h] == key;
      MaskTwice(s.payload, key);
  }

  // ---------------------------------------------------------------------------------------
  // Runs of frames
  // ---------------------------------------------------------------------------------------

  /** Frames within the receiver's limit. */
  predicate AllEncodable(fs: seq<Sent>) { forall f | f in fs :: Encodable(f) && |f.payload| <= MAX_PAYLOAD }

  function EncodeAll(fs: seq<Sent>): seq<Byte>
    requires AllEncodable(fs)
  {
    if fs == [] then [] else Encode(fs[0]) + EncodeAll(fs[1..])
  }

  function GatherAll(partial: seq<Byte>, fs: seq<Sent>): seq<Byte>
    decreases |fs|
  {
    if fs == [] then partial else GatherAll(Gather(partial, fs[0].flags, fs[0].payload), fs[1..])
  }

  function DeliverAll(partial: seq<Byte>, fs: seq<Sent>): seq<Event>
    decreases |fs|
  {
    if fs == [] then []
    else
      Deliver(partial, fs[0].flags, fs[0].payload)
      + DeliverAll(Gather(partial, fs[0].flags, fs[0].payload), fs[1..])
  }

  predicate ClosesNone(fs: seq<Sent>) { forall f | f in fs :: !Closes(f.flags) }

  /** The first frame of a stream is handled by itself. */
  lemma DrainFirst(partial: seq<Byte>, f: Sent, rest: seq<Byte>, closing: bool, events: seq<Event>)
    requires Encodable(f) && |f.payload| <= MAX_PAYLOAD
    ensures Drain(Receiver(partial, Encode(f) + rest, closing, events)) ==
            Drain(Receiver(Gather(partial, f.flags, f.payload), rest, closing || Closes(f.flags),
                           events + Deliver(partial, f.flags, f.payload)))
  {
    hide Encode, Process, Drain, Gather, Deliver, Closes;
    ProcessEncoded(f);
    ProcessIsStable(Encode(f), rest);
    assert (Encode(f) + rest)[|Encode(f)|..] == rest;
    DrainStep(Receiver(partial, Encode(f) + rest, closing, events));
  }

  /** Draining the bytes of complete frames handles exactly those frames. */
  lemma {:induction false} DrainFrames(partial: seq<Byte>, fs: seq<Sent>, closing: bool, events: seq<Event>)
    requires AllEncodable(fs)
    ensures Drain(Receiver(partial, EncodeAll(fs), closing, events)) ==
            Receiver(GatherAll(partial, fs), [], closing || !ClosesNone(fs), events + DeliverAll(partial, fs))
    decreases |fs|
  {
    hide Encode, Drain, Gather, Deliver, Closes;
    if fs == [] {
      NothingToDrain(Receiver(partial, [], closing, events));
      assert events + [] == events;
    } else {
      var f, rest := fs[0], EncodeAll(fs[1..]);
      DrainFirst(partial, f, rest, closing, events);
      DrainFrames(Gather(partial, f.flags, f.payload), fs[1..], closing || Closes(f.flags),
                  events + Deliver(partial, f.flags, f.payload));
    }
  }

  lemma NothingToDrain(r: Receiver)
    requires r.pending == []
    ensures Drain(r) == r
  {
  }

  lemma {:induction false} GatherAppend(partial: seq<Byte>, a: seq<Sent>, b: seq<Sent>)
    ensures GatherAll(partial, a + b) == GatherAll(GatherAll(partial, a), b)
    decreases |a|
  {
    hide Gather;
    if a == [] {
      assert a + b == b;
    } else {
      assert (a + b)[0] == a[0] && (a + b)[1..] == a[1..] + b;
      GatherAppend(Gather(partial, a[0].flags, a[0].payload), a[1..], b);
    }
  }

  lemma {:induction false} DeliverAppend(partial: seq<Byte>, a: seq<Sent>, b: seq<Sent>)
    ensures GatherAll(partial, a + b) == GatherAll(GatherAll(partial, a), b)
    ensures DeliverAll(partial, a + b) == DeliverAll(partial, a) + DeliverAll(GatherAll(partial, a), b)
    decreases |a|
  {
    hide Gather, Deliver;
    GatherAppend(partial, a, b);
    if a == [] {
      assert a + b == b;
    } else {
      assert (a + b)[0] == a[0] && (a + b)[1..] == a[1..] + b;
      var p := Gather(partial, a[0].flags, a[0].payload);
      DeliverAppend(p, a[1..], b);
    }
  }

  // ---------------------------------------------------------------------------------------
  // Messages in fragments, with control frames between them
  // ---------------------------------------------------------------------------------------

  /** Control frames, then one fragment of the message. */
  datatype Fragment = Fragment(controls: seq<Sent>, form: Form, key: Option<seq<Byte>>, data: seq<Byte>)

  datatype Message = Message(op: nat, fragments: seq<Fragment>)

  /** A final ping or pong. */
  predicate IsControl(s: Sent) { Final(s.flags) && (Op(s.flags) == 9 || Op(s.flags) == 10) }

  predicate ValidMessage(m: Message) {
    && (m.op == 1 || m.op == 2)
    && m.fragments != []
    && forall f | f in m.fragments :: forall c | c in f.controls :: IsControl(c)
  }

  function Payload(fs: seq<Fragment>): seq<Byte> {
    if fs == [] then [] else fs[0].data + Payload(fs[1..])
  }

  /** The first fragment carries the opcode, the last the final bit. */
  function FragmentFrames(op: Byte, fs: seq<Fragment>, first: bool): seq<Sent>
    requires op == 1 || op == 2
  {
    if fs == [] then []
    else
      var flags: Byte := (if |fs| == 1 then 128 else 0) + (if first then op else 0);
      fs[0].controls + [Sent(flags, fs[0].form, fs[0].key, fs[0].data)] + FragmentFrames(op, fs[1..], false)
  }

  function MessageFrames(ms: seq<Message>): seq<Sent>
    requires forall i | 0 <= i < |ms| :: ValidMessage(ms[i])
  {
    if ms == [] then []
    else assert ValidMessage(ms[0]); FragmentFrames(ms[0].op, ms[0].fragments, true) + MessageFrames(ms[1..])
  }

  /** The messages among the events: opcode and payload, in order. */
  function Messages(es: seq<Event>): seq<(nat, seq<Byte>)> {
    if es == [] then [] else Heard(es[0]) + Messages(es[1..])
  }

  function Heard(e: Event): seq<(nat, seq<Byte>)> {
    if e.Msg? then [(Op(e.flags), e.data)] else []
  }

  lemma {:induction false} MessagesAppend(a: seq<Event>, b: seq<Event>)
    ensures Messages(a + b) == Messages(a) + Messages(b)
    decreases |a|
  {
    hide Heard;
    if a == [] {
      assert a + b == b;
    } else {
      assert (a + b)[0] == a[0] && (a + b)[1..] == a[1..] + b;
      MessagesAppend(a[1..], b);
      assert Heard(a[0]) + (Messages(a[1..]) + Messages(b)) == Heard(a[0]) + Messages(a[1..]) + Messages(b);
    }
  }

  lemma MessagesOfOne(e: Event)
    ensures Messages([e]) == Heard(e)
  {
    assert [e][1..] == [];
  }

  /** Control frames deliver no message and leave the gathered part alone. */
  lemma {:induction false} ControlsPass(partial: seq<Byte>, cs: seq<Sent>)
    requires forall c | c in cs :: IsControl(c)
    ensures GatherAll(partial, cs) == partial && ClosesNone(cs)
    ensures Messages(DeliverAll(partial, cs)) == [] && Undefined !in DeliverAll(partial, cs)
    decreases |cs|
  {
    if cs != [] {
      var c := cs[0];
      ControlsPass(partial, cs[1..]);
      ControlCalls(partial, c);
      MessagesAppend(Deliver(partial, c.flags, c.payload), DeliverAll(partial, cs[1..]));
    }
  }

  lemma ControlCalls(partial: seq<Byte>, c: Sent)
    requires IsControl(c)
    ensures Gather(partial, c.flags, c.payload) == partial && !Closes(c.flags)
    ensures Messages(Deliver(partial, c.flags, c.payload)) == [] && Undefined !in Deliver(partial, c.flags, c.payload)
  {
    MessagesOfOne(Ctl(c.flags, c.payload));
    MessagesOfOne(Pong(c.payload));
    MessagesAppend([Pong(c.payload)], [Ctl(c.flags, c.payload)]);
    assert [Pong(c.payload)] + [Ctl(c.flags, c.payload)] == [Pong(c.payload), Ctl(c.flags, c.payload)];
  }

  /** What has been gathered of a message: nothing, or its opcode and the data so far. */
  function Gathered(op: Byte, first: bool, data: seq<Byte>): seq<Byte> {
    if first then [] else [op] + data
  }

  /** A message in one frame. */
  lemma WholeFrame(op: Byte, data: seq<Byte>)
    requires op == 1 || op == 2
    ensures !Closes(128 + op) && Gather([], 128 + op, data) == []
    ensures Messages(Deliver([], 128 + op, data)) == [(op as nat, data)] && Undefined !in Deliver([], 128 + op, data)
  {
    MessagesOfOne(Msg(128 + op, data));
  }

  /** The first of several fragments. */
  lemma FirstFrame(op: Byte, data: seq<Byte>)
    requires op == 1 || op == 2
    ensures !Closes(op) && Gather([], op, data) == [op] + data
    ensures Messages(Deliver([], op, data)) == [] && Undefined !in Deliver([], op, data)
  {
    assert [] + [op] + data == [op] + data;
  }

  /** A fragment between the first and the last. */
  lemma MiddleFrame(op: Byte, before: seq<Byte>, data: seq<Byte>)
    ensures !Closes(0) && Gather([op] + before, 0, data) == [op] + (before + data)
    ensures Messages(Deliver([op] + before, 0, data)) == [] && Undefined !in Deliver([op] + before, 0, data)
  {
    MessagesOfOne(Ctl(0, data));
    assert [op] + before + data == [op] + (before + data);
  }

  /** The last of several fragments. */
  lemma LastFrame(op: Byte, before: seq<Byte>, data: seq<Byte>)
    requires op == 1 || op == 2
    ensures !Closes(128) && Gather([op] + before, 128, data) == []
    ensures Messages(Deliver([op] + before, 128, data)) == [(op as nat, before + data)]
    ensures Undefined !in Deliver([op] + before, 128, data)
  {
    hide Messages;
    var whole := [op] + before + data;
    assert whole[0] == op && whole[1..] == before + data;
    MessagesAppend([Ctl(128, data)], [Msg(op, before + data)]);
    MessagesOfOne(Ctl(128, data));
    MessagesOfOne(Msg(op, before + data));
  }

  /** One data frame of a message: the last one delivers the message, the others gather it. */
  lemma DataFrame(op: Byte, first: bool, last: bool, before: seq<Byte>, data: seq<Byte>)
    requires (op == 1 || op == 2) && (first ==> before == [])
    ensures
      var flags: Byte := (if last then 128 else 0) + (if first then op else 0);
      var partial := Gathered(op, first, before);
      && !Closes(flags)
      && Gather(partial, flags, data) == (if last then [] else Gathered(op, false, before + data))
      && Messages(Deliver(partial, flags, data)) == (if last then [(op as nat, before + data)] else [])
      && Undefined !in Deliver(partial, flags, data)
  {
    hide Closes, Gather, Deliver, Messages;
    if first { assert before + data == data; }
    if first && last { WholeFrame(op, data); }
    else if first { FirstFrame(op, data); }
    else if last { LastFrame(op, before, data); }
    else { MiddleFrame(op, before, data); }
  }

  ghost predicate Interleaved(fs: seq<Fragment>) {
    forall i | 0 <= i < |fs| :: forall c | c in fs[i].controls :: IsControl(c)
  }

  /** Control frames and then the data frame of one fragment. */
  lemma OneFragment(partial: seq<Byte>, controls: seq<Sent>, s: Sent)
    requires forall c | c in controls :: IsControl(c)
    ensures GatherAll(partial, controls + [s]) == Gather(partial, s.flags, s.payload)
    ensures Messages(DeliverAll(partial, controls + [s])) == Messages(Deliver(partial, s.flags, s.payload))
    ensures Undefined !in Deliver(partial, s.flags, s.payload) ==> Undefined !in DeliverAll(partial, controls + [s])
    ensures !Closes(s.flags) ==> ClosesNone(controls + [s])
  {
    hide Gather, Deliver, Closes;
    ControlsPass(partial, controls);
    DeliverAppend(partial, controls, [s]);
    OneFrame(partial, s);
    MessagesAppend(DeliverAll(partial, controls), Deliver(partial, s.flags, s.payload));
    assert [] + Messages(Deliver(partial, s.flags, s.payload)) == Messages(Deliver(partial, s.flags, s.payload));
  }

  lemma OneFrame(partial: seq<Byte>, s: Sent)
    ensures GatherAll(partial, [s]) == Gather(partial, s.flags, s.payload)
    ensures DeliverAll(partial, [s]) == Deliver(partial, s.flags, s.payload)
  {
    hide Gather, Deliver;
    assert [s][1..] == [];
    var d := Deliver(partial, s.flags, s.payload);
    assert d + [] == d;
  }

  lemma {:induction false} FragmentsArrive(op: Byte, fs: seq<Fragment>, first: bool, before: seq<Byte>)
    requires (op == 1 || op == 2) && fs != [] && Interleaved(fs) && (first ==> before == [])
    ensures
      var frames, partial := FragmentFrames(op, fs, first), Gathered(op, first, before);
      && ClosesNone(frames)
      && GatherAll(partial, frames) == []
      && Messages(DeliverAll(partial, frames)) == [(op as nat, before + Payload(fs))]
      && Undefined !in DeliverAll(partial, frames)
    decreases |fs|
  {
    hide Gather, Deliver, Closes, IsControl, Gathered, Messages, GatherAll, DeliverAll;
    var f, last := fs[0], |fs| == 1;
    var flags: Byte := (if last then 128 else 0) + (if first then op else 0);
    var s := Sent(flags, f.form, f.key, f.data);
    var partial, head, tail := Gathered(op, first, before), f.controls + [s], FragmentFrames(op, fs[1..], false);
    DataFrame(op, first, last, before, f.data);
    OneFragment(partial, f.controls, s);
    if last {
      assert tail == [] && head + tail == head;
      assert Payload(fs) == f.data + [] == f.data;
    } else {
      FragmentsArrive(op, fs[1..], false, before + f.data);
      DeliverAppend(partial, head, tail);
      MessagesAppend(DeliverAll(partial, head), DeliverAll(GatherAll(partial, head), tail));
      assert before + f.data + Payload(fs[1..]) == before + Payload(fs);
    }
  }

  function Wanted(ms: seq<Message>): seq<(nat, seq<Byte>)> {
    if ms == [] then [] else [(ms[0].op, Payload(ms[0].fragments))] + Wanted(ms[1..])
  }

  /** The frames come in, and only these messages come out. */
  ghost predicate Arrive(frames: seq<Sent>, messages: seq<(nat, seq<Byte>)>) {
    && ClosesNone(frames)
    && GatherAll([], frames) == []
    && Messages(DeliverAll([], frames)) == messages
    && Undefined !in DeliverAll([], frames)
  }

  lemma ArriveTogether(a: seq<Sent>, b: seq<Sent>, x: seq<(nat, seq<Byte>)>, y: seq<(nat, seq<Byte>)>)
    requires Arrive(a, x) && Arrive(b, y)
    ensures Arrive(a + b, x + y)
  {
    hide Closes, GatherAll, DeliverAll, Messages;
    DeliverAppend([], a, b);
    MessagesAppend(DeliverAll([], a), DeliverAll([], b));
  }

  lemma MessageArrives(m: Message)
    requires ValidMessage(m)
    ensures Arrive(FragmentFrames(m.op, m.fragments, true), [(m.op, Payload(m.fragments))])
  {
    hide FragmentFrames, Closes, Payload, GatherAll, DeliverAll, Messages, IsControl;
    assert Interleaved(m.fragments);
    FragmentsArrive(m.op, m.fragments, true, []);
    assert [] + Payload(m.fragments) == Payload(m.fragments);
  }

  lemma NothingArrives()
    ensures Arrive([], [])
  {
  }

  lemma {:induction false} MessagesArrive(ms: seq<Message>)
    requires forall i | 0 <= i < |ms| :: ValidMessage(ms[i])
    ensures Arrive(MessageFrames(ms), Wanted(ms))
    decreases |ms|
  {
    hide FragmentFrames, Payload, Arrive, IsControl;
    if ms == [] {
      NothingArrives();
    } else {
      var m := ms[0];
      MessageArrives(m);
      MessagesArrive(ms[1..]);
      ArriveTogether(FragmentFrames(m.op, m.fragments, true), MessageFrames(ms[1..]),
                     [(m.op, Payload(m.fragments))], Wanted(ms[1..]));
    }
  }

  /** The reads make up the frames of the messages and of control frames behind them, all within the limit. */
  ghost predicate Transmits(ms: seq<Message>, trailing: seq<Sent>, chunks: seq<seq<Byte>>) {
    && (forall i | 0 <= i < |ms| :: ValidMessage(ms[i]))
    && (forall c | c in trailing :: IsControl(c))
    && AllEncodable(MessageFrames(ms) + trailing) && Concat(chunks) == EncodeAll(MessageFrames(ms) + trailing)
  }

  /** Exactly these messages were delivered, in order, and nothing is kept back. */
  ghost predicate Delivers(r: Receiver, ms: seq<Message>) {
    && Messages(r.events) == Wanted(ms) && Undefined !in r.events
    && r.partial == [] && r.pending == [] && !r.closing
  }

  /**
   Main result: for every list of messages, every fragmentation with control frames before,
   between and behind the fragments, masked or not, with any way to write the lengths, and
   for every split of the bytes into reads, the receiver delivers exactly the messages sent,
   in order, and keeps nothing back.
   */
  lemma Reassembly(ms: seq<Message>, trailing: seq<Sent>, chunks: seq<seq<Byte>>)
    requires Transmits(ms, trailing, chunks)
    ensures Delivers(ReadAll(INITIAL, chunks), ms)
  {
    hide MessageFrames, DeliverAll, GatherAll, Drain, ReadAll, Process, EncodeAll, Messages, Wanted, ValidMessage;
    var frames := MessageFrames(ms) + trailing;
    AllArrive(ms, trailing);
    DrainFrames([], frames, false, []);
    assert [] + EncodeAll(frames) == EncodeAll(frames);
    SplitsAgree(INITIAL, chunks);
    ReadAllIsDrained(INITIAL, chunks);
    DrainedStays(ReadAll(INITIAL, chunks));
    assert [] + DeliverAll([], frames) == DeliverAll([], frames);
  }

  lemma AllArrive(ms: seq<Message>, trailing: seq<Sent>)
    requires forall i | 0 <= i < |ms| :: ValidMessage(ms[i])
    requires forall c | c in trailing :: IsControl(c)
    ensures Arrive(MessageFrames(ms) + trailing, Wanted(ms))
  {
    hide MessageFrames, DeliverAll, GatherAll, Messages, Wanted, ValidMessage, IsControl, Closes;
    MessagesArrive(ms);
    ControlsPass([], trailing);
    ArriveTogether(MessageFrames(ms), trailing, Wanted(ms), []);
    assert Wanted(ms) + [] == Wanted(ms);
  }

  lemma DrainedStays(r: Receiver)
    requires Drained(r)
    ensures Drain(r) == r
  {
  }

  // ---------------------------------------------------------------------------------------
  // Closing and answering
  // ---------------------------------------------------------------------------------------

  /**
   One frame, by its opcode: 9 is answered with its own payload, 8 and every unknown opcode
   close the connection, 0, 1, 2, 9 and 10 do not, and only a final 0, 1 or 2 delivers a
   message; a frame above the limit is not handled at all.
   */
  lemma FrameExactly(r: Receiver, s: Sent)
    requires !r.closing && r.pending == [] && Encodable(s)
    ensures
      var n, op, final := Read(r, Encode(s)), s.flags % 16, s.flags >= 128;
      var whole := r.partial + s.payload;
      if |s.payload| > 0x4000_0000 then n == r.(pending := Encode(s))
      else
        && n.pending == []
        && (n.closing <==> op == 8 || 3 <= op <= 7 || op >= 11)
        && (op == 9 ==> n.events == r.events + [Pong(s.payload), Ctl(s.flags, s.payload)])
        && (op == 8 || op == 10 || (op == 0 && !final) ==> n.events == r.events + [Ctl(s.flags, s.payload)])
        && (op == 1 || op == 2 ==> n.events == r.events + if final then [Msg(s.flags, s.payload)] else [])
        && (op == 0 && final && whole != [] ==>
              n.events == r.events + [Ctl(s.flags, s.payload), Msg(whole[0], whole[1..])])
        && (3 <= op <= 7 || op >= 11 ==> n.events == r.events + [UnknownOp(op)])
        && (final ==> n.partial == if op == 0 then [] else r.partial)
        && (!final ==> n.partial == if op == 0 then whole else r.partial + [s.flags] + s.payload)
  {
    hide Encode, Process, Drain;
    ProcessEncoded(s);
    assert [] + Encode(s) == Encode(s) == Encode(s) + [];
    if |s.payload| > MAX_PAYLOAD {
      DrainStep(r.(pending := Encode(s)));
    } else {
      DrainFirst(r.partial, s, [], false, r.events);
      NothingToDrain(Receiver(Gather(r.partial, s.flags, s.payload), [], Closes(s.flags),
                              r.events + Deliver(r.partial, s.flags, s.payload)));
    }
  }

  /** Whether the connection closes does not depend on how the stream is cut into reads. */
  lemma {:induction false} ClosingInAnySplit(r: Receiver, chunks: seq<seq<Byte>>)
    requires !r.closing && Drained(r)
    ensures ReadAll(r, chunks).closing <==> Drain(More(r, Concat(chunks))).closing
    decreases |chunks|
  {
    hide Process, Drain;
    if chunks == [] {
      assert More(r, []) == r;
      DrainedStays(r);
    } else {
      var m, rest := More(r, chunks[0]), Concat(chunks[1..]);
      var d := Drain(m);
      assert More(m, rest) == More(r, Concat(chunks));
      DrainTwice(m, rest);
      if d.closing {
        ClosedStays(d, chunks[1..]);
        DrainKeepsClosing(More(d, rest));
      } else {
        DrainIsDrained(m);
        ClosingInAnySplit(d, chunks[1..]);
      }
    }
  }

  /** The connection closes if and only if some frame is a close frame or has an unknown opcode. */
  lemma ClosesExactly(fs: seq<Sent>, chunks: seq<seq<Byte>>)
    requires AllEncodable(fs) && Concat(chunks) == EncodeAll(fs)
    ensures ReadAll(INITIAL, chunks).closing <==>
            exists f | f in fs :: f.flags % 16 == 8 || 3 <= f.flags % 16 <= 7 || f.flags % 16 >= 11
  {
    hide Process, Drain, ReadAll, Concat, EncodeAll, GatherAll, DeliverAll;
    ClosingInAnySplit(INITIAL, chunks);
    DrainFrames([], fs, false, []);
    assert [] + EncodeAll(fs) == EncodeAll(fs);
  }

  /** The answers among the events, and the payloads of the pings. */
  function Pongs(es: seq<Event>): seq<seq<Byte>> {
    if es == [] then [] else (if es[0].Pong? then [es[0].data] else []) + Pongs(es[1..])
  }

  function Pings(fs: seq<Sent>): seq<seq<Byte>> {
    if fs == [] then [] else (if fs[0].flags % 16 == 9 then [fs[0].payload] else []) + Pings(fs[1..])
  }

  lemma {:induction false} PongsAppend(a: seq<Event>, b: seq<Event>)
    ensures Pongs(a + b) == Pongs(a) + Pongs(b)
    decreases |a|
  {
    if a == [] {
      assert a + b == b;
    } else {
      assert (a + b)[0] == a[0] && (a + b)[1..] == a[1..] + b;
      PongsAppend(a[1..], b);
    }
  }

  lemma PongOfFrame(partial: seq<Byte>, flags: Byte, data: seq<Byte>)
    ensures Pongs(Deliver(partial, flags, data)) == if flags % 16 == 9 then [data] else []
  {
    var calls, whole := Calls(flags, data), partial + data;
    if Final(flags) && Op(flags) == 0 {
      PongsAppend(calls, [if whole == [] then Undefined else Msg(whole[0], whole[1..])]);
    }
    assert Pongs([Ctl(flags, data)]) == [];
    if flags % 16 == 9 {
      assert calls == [Pong(data)] + [Ctl(flags, data)];
      PongsAppend([Pong(data)], [Ctl(flags, data)]);
    }
  }

  lemma {:induction false} PingsAreAnswered(partial: seq<Byte>, fs: seq<Sent>)
    ensures Pongs(DeliverAll(partial, fs)) == Pings(fs)
    decreases |fs|
  {
    hide Deliver, Gather;
    if fs != [] {
      var f := fs[0];
      var next := Gather(partial, f.flags, f.payload);
      PongOfFrame(partial, f.flags, f.payload);
      PongsAppend(Deliver(partial, f.flags, f.payload), DeliverAll(next, fs[1..]));
      PingsAreAnswered(next, fs[1..]);
    }
  }

  /** As long as nothing closes the connection, every ping is answered, in order, with its payload. */
  lemma PingsInAnySplit(fs: seq<Sent>, chunks: seq<seq<Byte>>)
    requires AllEncodable(fs) && Concat(chunks) == EncodeAll(fs)
    requires forall f | f in fs :: f.flags % 16 <= 2 || f.flags % 16 == 9 || f.flags % 16 == 10
    ensures Pongs(ReadAll(INITIAL, chunks).events) == Pings(fs)
  {
    hide Process, Drain, ReadAll, EncodeAll, GatherAll, DeliverAll, Pongs, Pings;
    DrainFrames([], fs, false, []);
    assert [] + EncodeAll(fs) == EncodeAll(fs);
    SplitsAgree(INITIAL, chunks);
    ReadAllIsDrained(INITIAL, chunks);
    DrainedStays(ReadAll(INITIAL, chunks));
    assert [] + DeliverAll([], fs) == DeliverAll([], fs);
    PingsAreAnswered([], fs);
  }
}
