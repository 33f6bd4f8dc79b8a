/**
 UTF-8 and UTF-16, one code point at a time and over whole strings. A stream that has run out
 yields zeros.
 */
module Utf8 {
  import opened Bytes
  import opened Options

  type Unit = u: int | 0 <= u < 0x1_0000

  /** What a code point may be: anything up to 0x10FFFF that is not a surrogate. */
  predicate Scalar(c: nat) { c <= 0x10_FFFF && !(0xD800 <= c <= 0xDFFF) }

  // ---------------------------------------------------------------------------------------
  // UTF-8
  // ---------------------------------------------------------------------------------------

  /** The class of a byte: 0x10, 0x40 and 0x20 split the continuation bytes. */
  function Range(c: Byte): nat {
    if c < 0x80 then 0
    else if c < 0x90 then 0x10
    else if c < 0xA0 then 0x40
    else if c < 0xC0 then 0x20
    else if c < 0xC2 then 8
    else if c < 0xE0 then 2
    else if c == 0xE0 then 10
    else if c == 0xED then 4
    else if c < 0xF0 then 3
    else if c == 0xF0 then 11
    else if c < 0xF4 then 6
    else if c == 0xF4 then 5
    else 8
  }

  /** Whether two numbers share one of the bits 0x10, 0x20 and 0x40. */
  predicate Shares(a: nat, mask: nat) {
    || (a / 0x10 % 2 == 1 && mask / 0x10 % 2 == 1)
    || (a / 0x20 % 2 == 1 && mask / 0x20 % 2 == 1)
    || (a / 0x40 % 2 == 1 && mask / 0x40 % 2 == 1)
  }

  function Peek(s: seq<Byte>, at: nat): Byte { if at < |s| then s[at] else 0 }

  function Next(s: seq<Byte>, at: nat): nat { if at < |s| then at + 1 else at }

  datatype Decoded = Decoded(ok: bool, codepoint: nat, used: nat)

  /** One more byte, whose class must share a bit with `mask`. */
  function Step(s: seq<Byte>, d: Decoded, mask: nat): Decoded {
    var c := Peek(s, d.used);
    Decoded(d.ok && Shares(Range(c), mask), d.codepoint * 64 + c % 64, Next(s, d.used))
  }

  /** What is left of a first byte once its class is masked off. */
  function FirstBits(c: Byte, range: nat): nat {
    if range < 8 then c % Pow2(8 - range) else 0
  }

  function Decode(s: seq<Byte>): (r: Decoded)
    ensures s != [] ==> 1 <= r.used <= |s|
  {
    var c := Peek(s, 0);
    var range := Range(c);
    var d := Decoded(true, FirstBits(c, range), Next(s, 0));
    if c < 0x80 then Decoded(true, c, Next(s, 0))
    else if range == 2 then Step(s, d, 0x70)
    else if range == 3 then Step(s, Step(s, d, 0x70), 0x70)
    else if range == 4 then Step(s, Step(s, d, 0x50), 0x70)
    else if range == 5 then Step(s, Step(s, Step(s, d, 0x10), 0x70), 0x70)
    else if range == 6 then Step(s, Step(s, Step(s, d, 0x70), 0x70), 0x70)
    else if range == 10 then Step(s, Step(s, d, 0x20), 0x70)
    else if range == 11 then Step(s, Step(s, Step(s, d, 0x60), 0x70), 0x70)
    else d.(ok := false)
  }

  function Encode(c: nat): (r: seq<Byte>)
    requires c <= 0x10_FFFF
    ensures 1 <= |r| <= 4
  {
    if c <= 0x7F then [c]
    else if c <= 0x7FF then [0xC0 + c / 0x40, 0x80 + c % 0x40]
    else if c <= 0xFFFF then [0xE0 + c / 0x1000, 0x80 + c / 0x40 % 0x40, 0x80 + c % 0x40]
    else [0xF0 + c / 0x4_0000, 0x80 + c / 0x1000 % 0x40, 0x80 + c / 0x40 % 0x40, 0x80 + c % 0x40]
  }

  predicate Tail(b: Byte) { 0x80 <= b <= 0xBF }

  /** The first two bytes of a character of three bytes. */
  predicate Opens3(a: Byte, b: Byte) {
    || (a == 0xE0 && 0xA0 <= b <= 0xBF)
    || (0xE1 <= a <= 0xEC && Tail(b))
    || (a == 0xED && 0x80 <= b <= 0x9F)
    || (0xEE <= a <= 0xEF && Tail(b))
  }

  /** The first two bytes of a character of four bytes. */
  predicate Opens4(a: Byte, b: Byte) {
    || (a == 0xF0 && 0x90 <= b <= 0xBF)
    || (0xF1 <= a <= 0xF3 && Tail(b))
    || (a == 0xF4 && 0x80 <= b <= 0x8F)
  }

  /** The length of the character at the front by the grammar of section 4 of RFC 3629, or zero. */
  function Front(s: seq<Byte>): (n: nat)
    ensures n <= |s| && n <= 4
  {
    if s == [] then 0
    else if s[0] <= 0x7F then 1
    else if |s| >= 2 && 0xC2 <= s[0] <= 0xDF && Tail(s[1]) then 2
    else if |s| >= 3 && Opens3(s[0], s[1]) && Tail(s[2]) then 3
    else if |s| >= 4 && Opens4(s[0], s[1]) && Tail(s[2]) && Tail(s[3]) then 4
    else 0
  }

  lemma SharesIs(c: Byte)
    ensures Shares(Range(c), 0x70) <==> Tail(c)
    ensures Shares(Range(c), 0x50) <==> 0x80 <= c <= 0x9F
    ensures Shares(Range(c), 0x10) <==> 0x80 <= c <= 0x8F
    ensures Shares(Range(c), 0x20) <==> 0xA0 <= c <= 0xBF
    ensures Shares(Range(c), 0x60) <==> 0x90 <= c <= 0xBF
  {
  }

  /** The byte classes and masks accept exactly what the grammar allows. */
  lemma DecodeIsGrammar(s: seq<Byte>)
    requires s != []
    ensures Decode(s).ok <==> Front(s) > 0
    ensures Decode(s).ok ==> Decode(s).used == Front(s)
  {
    hide Shares;
    SharesIs(Peek(s, 1));
    SharesIs(Peek(s, 2));
    SharesIs(Peek(s, 3));
  }

  lemma FirstBitsAre(c: Byte)
    ensures var r := FirstBits(c, Range(c));
            && (0xC2 <= c <= 0xDF ==> r == c - 0xC0)
            && (0xE0 <= c <= 0xEF ==> r == c - 0xE0)
            && (0xF0 <= c <= 0xF4 ==> r == c - 0xF0)
  {
    assert Pow2(6) == 64 && Pow2(5) == 32 && Pow2(4) == 16 && Pow2(3) == 8 && Pow2(2) == 4;
  }

  lemma Base64Twice(x: nat, y: nat, z: nat)
    requires y < 64 && z < 64
    ensures var c := (x * 64 + y) * 64 + z; c / 0x1000 == x && c / 64 % 64 == y && c % 64 == z
  {
  }

  lemma Base64Thrice(w: nat, x: nat, y: nat, z: nat)
    requires x < 64 && y < 64 && z < 64
    ensures var c := ((w * 64 + x) * 64 + y) * 64 + z;
            c / 0x4_0000 == w && c / 0x1000 % 64 == x && c / 64 % 64 == y && c % 64 == z
  {
    Base64Twice(w * 64 + x, y, z);
  }

  /** Six more bits behind a number. */
  function Join(x: nat, b: Byte): nat
    requires Tail(b)
  {
    x * 64 + (b - 0x80)
  }

  /** The bits of a well-formed character, put together. */
  function Value(s: seq<Byte>): nat
    requires Front(s) > 0
  {
    if Front(s) == 1 then s[0]
    else if Front(s) == 2 then Join(s[0] - 0xC0, s[1])
    else if Front(s) == 3 then Join(Join(s[0] - 0xE0, s[1]), s[2])
    else Join(Join(Join(s[0] - 0xF0, s[1]), s[2]), s[3])
  }

  lemma TailBits(b: Byte)
    requires Tail(b)
    ensures b % 64 == b - 0x80
  {
  }

  lemma DecodeIsValue(s: seq<Byte>)
    requires Front(s) > 0
    ensures Decode(s).codepoint == Value(s)
  {
    hide Shares, FirstBits;
    FirstBitsAre(s[0]);
    if Front(s) > 1 { TailBits(s[1]); }
    if Front(s) > 2 { TailBits(s[2]); }
    if Front(s) > 3 { TailBits(s[3]); }
  }

  lemma Encodes2(a: Byte, b: Byte)
    requires 0xC2 <= a <= 0xDF && Tail(b)
    ensures var v := Join(a - 0xC0, b); Scalar(v) && Encode(v) == [a, b]
  {
  }

  lemma Encodes3(a: Byte, b: Byte, c: Byte)
    requires Opens3(a, b) && Tail(c)
    ensures var v := Join(Join(a - 0xE0, b), c); Scalar(v) && Encode(v) == [a, b, c]
  {
    Base64Twice(a - 0xE0, b - 0x80, c - 0x80);
  }

  lemma Encodes4(a: Byte, b: Byte, c: Byte, d: Byte)
    requires Opens4(a, b) && Tail(c) && Tail(d)
    ensures var v := Join(Join(Join(a - 0xF0, b), c), d); Scalar(v) && Encode(v) == [a, b, c, d]
  {
    Base64Thrice(a - 0xF0, b - 0x80, c - 0x80, d - 0x80);
  }

  lemma ValueEncodes(s: seq<Byte>)
    requires Front(s) > 0
    ensures Scalar(Value(s)) && Encode(Value(s)) == s[..Front(s)]
  {
    hide Encode, Join, Opens3, Opens4;
    if Front(s) == 1 {
      Encodes1(s[0]);
    } else if Front(s) == 2 {
      Encodes2(s[0], s[1]);
    } else if Front(s) == 3 {
      Encodes3(s[0], s[1], s[2]);
    } else {
      Encodes4(s[0], s[1], s[2], s[3]);
    }
  }

  lemma Encodes1(a: Byte)
    requires a <= 0x7F
    ensures Scalar(a) && Encode(a) == [a]
  {
  }

  /** The bytes of a character of two, three or four bytes are those of the grammar. */
  lemma Splits2(v: nat)
    requires 0x80 <= v <= 0x7FF
    ensures var r := Encode(v); |r| == 2 && 0xC2 <= r[0] <= 0xDF && Tail(r[1]) && Join(r[0] - 0xC0, r[1]) == v
  {
  }

  lemma Splits3(v: nat)
    requires 0x800 <= v <= 0xFFFF && Scalar(v)
    ensures var r := Encode(v); |r| == 3 && Opens3(r[0], r[1]) && Tail(r[2]) && Join(Join(r[0] - 0xE0, r[1]), r[2]) == v
  {
    var x, y := v / 0x1000, v / 0x40;
    assert y / 0x40 == x;
  }

  lemma Splits4(v: nat)
    requires 0x1_0000 <= v <= 0x10_FFFF
    ensures var r := Encode(v);
            && |r| == 4 && Opens4(r[0], r[1]) && Tail(r[2]) && Tail(r[3])
            && Join(Join(Join(r[0] - 0xF0, r[1]), r[2]), r[3]) == v
  {
    var x, y := v / 0x1000, v / 0x40;
    assert y / 0x40 == x && x / 0x40 == v / 0x4_0000;
  }

  lemma EncodeIsGrammar(v: nat, rest: seq<Byte>)
    requires Scalar(v)
    ensures Front(Encode(v) + rest) == |Encode(v)| && Value(Encode(v) + rest) == v
  {
    hide Encode, Join;
    if v <= 0x7F {
      Encodes1(v);
    } else if v <= 0x7FF {
      Splits2(v);
    } else if v <= 0xFFFF {
      Splits3(v);
    } else {
      Splits4(v);
    }
  }

  // ---------------------------------------------------------------------------------------
  // Validation: the same walk, copying bytes instead of collecting bits
  // ---------------------------------------------------------------------------------------

  datatype Checked = Checked(ok: bool, copied: seq<Byte>, used: nat)

  function Copy(s: seq<Byte>, d: Checked, mask: nat): Checked {
    var c := Peek(s, d.used);
    Checked(d.ok && Shares(Range(c), mask), d.copied + [c], Next(s, d.used))
  }

  function Validate(s: seq<Byte>): Checked {
    var c := Peek(s, 0);
    var range := Range(c);
    var d := Checked(true, [c], Next(s, 0));
    if c < 0x80 then d
    else if range == 2 then Copy(s, d, 0x70)
    else if range == 3 then Copy(s, Copy(s, d, 0x70), 0x70)
    else if range == 4 then Copy(s, Copy(s, d, 0x50), 0x70)
    else if range == 5 then Copy(s, Copy(s, Copy(s, d, 0x10), 0x70), 0x70)
    else if range == 6 then Copy(s, Copy(s, Copy(s, d, 0x70), 0x70), 0x70)
    else if range == 10 then Copy(s, Copy(s, d, 0x20), 0x70)
    else if range == 11 then Copy(s, Copy(s, Copy(s, d, 0x60), 0x70), 0x70)
    else d.(ok := false)
  }

  /** Validation accepts and consumes what decoding does, and copies what it consumed. */
  lemma ValidateIsDecode(s: seq<Byte>)
    ensures Validate(s).ok == Decode(s).ok && Validate(s).used == Decode(s).used
    ensures Decode(s).ok && s != [] ==> Validate(s).copied == s[..Decode(s).used]
  {
    hide Shares, FirstBits;
    SharesIs(Peek(s, 1));
    SharesIs(Peek(s, 2));
    SharesIs(Peek(s, 3));
  }

  // ---------------------------------------------------------------------------------------
  // Whole strings
  // ---------------------------------------------------------------------------------------

  predicate WellFormed(s: seq<Byte>)
    decreases |s|
  {
    s == [] || (Front(s) > 0 && WellFormed(s[Front(s)..]))
  }

  ghost predicate Scalars(cs: seq<nat>) { forall i | 0 <= i < |cs| :: Scalar(cs[i]) }

  function EncodeAll(cs: seq<nat>): seq<Byte>
    requires Scalars(cs)
  {
    if cs == [] then [] else Encode(cs[0]) + EncodeAll(cs[1..])
  }

  function DecodeAll(s: seq<Byte>): Option<seq<nat>>
    decreases |s|
  {
    if s == [] then Some([]) else
    var d := Decode(s);
    if !d.ok then None else
    var rest := DecodeAll(s[d.used..]);
    if rest.None? then None else Some([d.codepoint] + rest.value)
  }

  /** Decoding accepts exactly the well-formed strings, and what it yields encodes back to them. */
  lemma {:induction false} DecodesTheWellFormed(s: seq<Byte>)
    ensures DecodeAll(s).Some? <==> WellFormed(s)
    ensures DecodeAll(s).Some? ==> Scalars(DecodeAll(s).value) && EncodeAll(DecodeAll(s).value) == s
    decreases |s|
  {
    hide Decode, Front, Value;
    if s != [] {
      DecodeIsGrammar(s);
      var d := Decode(s);
      if d.ok {
        DecodeIsValue(s);
        ValueEncodes(s);
        DecodesTheWellFormed(s[d.used..]);
      }
    }
  }

  lemma {:induction false} DecodesTheEncoded(cs: seq<nat>)
    requires Scalars(cs)
    ensures DecodeAll(EncodeAll(cs)) == Some(cs)
  {
    hide Decode, Front, Value, Encode;
    if cs != [] {
      var s, rest := EncodeAll(cs), EncodeAll(cs[1..]);
      EncodeIsGrammar(cs[0], rest);
      DecodeIsGrammar(s);
      DecodeIsValue(s);
      assert s[|Encode(cs[0])|..] == rest;
      assert [cs[0]] + cs[1..] == cs;
      DecodesTheEncoded(cs[1..]);
    }
  }

  function ValidateAll(s: seq<Byte>): Option<seq<Byte>>
    decreases |s|
  {
    if s == [] then Some([]) else
    ValidateIsDecode(s);
    var d := Validate(s);
    if !d.ok then None else
    var rest := ValidateAll(s[d.used..]);
    if rest.None? then None else Some(d.copied + rest.value)
  }

  /** Validation copies the well-formed strings and refuses all others. */
  lemma {:induction false} ValidatesTheWellFormed(s: seq<Byte>)
    ensures ValidateAll(s) == if WellFormed(s) then Some(s) else None
    decreases |s|
  {
    hide Decode, Front, Validate;
    if s != [] {
      DecodeIsGrammar(s);
      ValidateIsDecode(s);
      var d := Decode(s);
      if d.ok {
        ValidatesTheWellFormed(s[d.used..]);
        assert s[..d.used] + s[d.used..] == s;
      }
    }
  }

  // ---------------------------------------------------------------------------------------
  // UTF-16
  // ---------------------------------------------------------------------------------------

  /** Section 2.1 of RFC 2781. */
  function Encode16(c: nat): (r: seq<Unit>)
    requires Scalar(c)
    ensures 1 <= |r| <= 2
  {
    if c <= 0xFFFF then [c] else
    var v := c - 0x1_0000;
    [0xD800 + v / 0x400, 0xDC00 + v % 0x400]
  }

  function Peek16(s: seq<Unit>, at: nat): Unit { if at < |s| then s[at] else 0 }

  function Next16(s: seq<Unit>, at: nat): nat { if at < |s| then at + 1 else at }

  /** Section 2.2 of RFC 2781. */
  function Decode16(s: seq<Unit>): (r: Decoded)
    ensures s != [] ==> 1 <= r.used <= |s|
  {
    var c, next := Peek16(s, 0), Next16(s, 0);
    if c < 0xD800 || c > 0xDFFF then Decoded(true, c, next)
    else if c <= 0xDBFF then
      var low := Peek16(s, next);
      Decoded(0xDC00 <= low <= 0xDFFF, c % 0x400 * 0x400 + low % 0x400 + 0x1_0000, Next16(s, next))
    else Decoded(false, 0, next)
  }

  lemma Decodes16(c: nat, rest: seq<Unit>)
    requires Scalar(c)
    ensures Decode16(Encode16(c) + rest) == Decoded(true, c, |Encode16(c)|)
  {
  }

  lemma Encodes16(s: seq<Unit>)
    requires s != [] && Decode16(s).ok
    ensures Scalar(Decode16(s).codepoint) && Encode16(Decode16(s).codepoint) == s[..Decode16(s).used]
  {
  }

  // ---------------------------------------------------------------------------------------
  // Transcoding
  // ---------------------------------------------------------------------------------------

  function ToUtf16(s: seq<Byte>): Option<seq<Unit>>
    decreases |s|
  {
    if s == [] then Some([]) else
    var d := Decode(s);
    if !d.ok then None else
    DecodeGivesScalar(s);
    var rest := ToUtf16(s[d.used..]);
    if rest.None? then None else Some(Encode16(d.codepoint) + rest.value)
  }

  function ToUtf8(s: seq<Unit>): Option<seq<Byte>>
    decreases |s|
  {
    if s == [] then Some([]) else
    var d := Decode16(s);
    if !d.ok then None else
    Encodes16(s);
    var rest := ToUtf8(s[d.used..]);
    if rest.None? then None else Some(Encode(d.codepoint) + rest.value)
  }

  lemma DecodeGivesScalar(s: seq<Byte>)
    requires s != [] && Decode(s).ok
    ensures Scalar(Decode(s).codepoint) && Encode(Decode(s).codepoint) == s[..Decode(s).used]
  {
    DecodeIsGrammar(s);
    DecodeIsValue(s);
    ValueEncodes(s);
  }

  /** Every well-formed string, and no other, goes to UTF-16 and comes back as it was. */
  lemma {:induction false} ThereAndBack(s: seq<Byte>)
    ensures ToUtf16(s).Some? <==> WellFormed(s)
    ensures ToUtf16(s).Some? ==> ToUtf8(ToUtf16(s).value) == Some(s)
    decreases |s|
  {
    hide Decode, Front, Value, Encode, Decode16, Encode16;
    if s != [] {
      DecodeIsGrammar(s);
      var d := Decode(s);
      if d.ok {
        DecodeGivesScalar(s);
        ThereAndBack(s[d.used..]);
        if ToUtf16(s).Some? {
          var units, rest := Encode16(d.codepoint), ToUtf16(s[d.used..]).value;
          Decodes16(d.codepoint, rest);
          assert (units + rest)[|units|..] == rest;
          assert s[..d.used] + s[d.used..] == s;
        }
      }
    }
  }

  /** The other way round, for every string of units that has a UTF-8 form. */
  lemma {:induction false} BackAndThere(s: seq<Unit>)
    ensures ToUtf8(s).Some? ==> ToUtf16(ToUtf8(s).value) == Some(s)
    decreases |s|
  {
    hide Decode, Front, Value, Encode, Decode16, Encode16;
    if s != [] && ToUtf8(s).Some? {
      var d := Decode16(s);
      Encodes16(s);
      BackAndThere(s[d.used..]);
      var bytes, rest := Encode(d.codepoint), ToUtf8(s[d.used..]).value;
      EncodeIsGrammar(d.codepoint, rest);
      DecodeIsGrammar(bytes + rest);
      DecodeIsValue(bytes + rest);
      assert (bytes + rest)[|bytes|..] == rest;
      assert s[..d.used] + s[d.used..] == s;
    }
  }
}
