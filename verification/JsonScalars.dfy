/**
 The scalar half of the JSON reader: white space, literals, strings and numbers, each as a
 function of the text and a position.  A character is one code unit of the UTF-8 text; reading
 at or past the end of the text gives the terminating NUL.
 */
module JsonScalars {
  import opened Options
  import Utf8

  /** What the reader tells its handler.  A double is its sign, significand and decimal exponent. */
  datatype Event =
    | Null
    | Bool(b: bool)
    | Int(n: int)
    | Uint(n: int)
    | Int64(n: int)
    | Uint64(n: int)
    | Double(minus: bool, significand: real, exponent: int)
    | String(s: string)
    | Key(s: string)
    | StartObject
    | EndObject(count: nat)
    | StartArray
    | EndArray(count: nat)

  /** A scalar parsed up to `pos`, or a parse error. */
  datatype Scalar = Bad | Good(pos: nat, event: Event)

  const NUL: char := 0 as char

  function Peek(t: string, i: nat): (c: char)
    ensures c != NUL ==> i < |t| && t[i] == c
  {
    if i < |t| then t[i] else NUL
  }

  predicate IsSpace(c: char) { c == ' ' || c == '\n' || c == '\r' || c == '\t' }

  predicate IsDigit(c: char) { '0' <= c <= '9' }

  function DigitValue(c: char): (d: nat)
    requires IsDigit(c)
    ensures d < 10
  {
    c as int - '0' as int
  }

  /** The first position from `i` on that does not hold white space. */
  function Skip(t: string, i: nat): (j: nat)
    requires i <= |t|
    ensures i <= j <= |t|
    ensures !IsSpace(Peek(t, j))
    decreases |t| - i
  {
    if IsSpace(Peek(t, i)) then Skip(t, i + 1) else i
  }

  // ---------------------------------------------------------------------------------------
  // Literals
  // ---------------------------------------------------------------------------------------

  /** `word` stands at position `i`; the first character decides which word is expected. */
  function ParseLiteral(t: string, i: nat, word: string, event: Event): (r: Scalar)
    requires i <= |t| && word != []
    ensures r.Good? ==> i < r.pos <= |t|
  {
    if i + |word| <= |t| && t[i..i + |word|] == word then Good(i + |word|, event) else Bad
  }

  // ---------------------------------------------------------------------------------------
  // Strings
  // ---------------------------------------------------------------------------------------

  datatype Text = Broken | Text(pos: nat, s: string)

  /** The character a one-letter escape stands for, or NUL. */
  function Unescape(e: char): char {
    if e == '"' then '"'
    else if e == '/' then '/'
    else if e == '\\' then '\\'
    else if e == 'b' then 8 as char
    else if e == 'f' then 12 as char
    else if e == 'n' then '\n'
    else if e == 'r' then '\r'
    else if e == 't' then '\t'
    else NUL
  }

  datatype Hex = NoHex | Hex(value: nat)

  function HexDigit(c: char): (h: Hex)
    ensures h.Hex? ==> h.value < 16 && c != NUL
  {
    if '0' <= c <= '9' then Hex(c as int - '0' as int)
    else if 'A' <= c <= 'F' then Hex(c as int - 'A' as int + 10)
    else if 'a' <= c <= 'f' then Hex(c as int - 'a' as int + 10)
    else NoHex
  }

  /** Four hexadecimal digits at position `i`. */
  function ParseHex4(t: string, i: nat): (h: Hex)
    ensures h.Hex? ==> h.value < 0x10000 && i + 4 <= |t|
  {
    var a, b, c, d := HexDigit(Peek(t, i)), HexDigit(Peek(t, i + 1)), HexDigit(Peek(t, i + 2)), HexDigit(Peek(t, i + 3));
    if a.Hex? && b.Hex? && c.Hex? && d.Hex? then
      Hex(a.value * 4096 + b.value * 256 + c.value * 16 + d.value)
    else NoHex
  }

  /** The UTF-8 code units of a code point, as characters. */
  function CodeUnits(cp: nat): string
    requires cp <= 0x10FFFF
  {
    var bytes := Utf8.Encode(cp);
    seq(|bytes|, i requires 0 <= i < |bytes| => bytes[i] as char)
  }

  /** A \u escape whose hexadecimal digits start at `i`, with its low surrogate if it needs one. */
  function ParseUnicode(t: string, i: nat): (r: Text)
    ensures r.Text? ==> i < r.pos <= |t|
  {
    var h := ParseHex4(t, i);
    if h.NoHex? then Broken
    else if !(0xD800 <= h.value <= 0xDBFF) then Text(i + 4, CodeUnits(h.value))
    else if Peek(t, i + 4) != '\\' || Peek(t, i + 5) != 'u' then Broken
    else
      var low := ParseHex4(t, i + 6);
      if low.NoHex? || !(0xDC00 <= low.value <= 0xDFFF) then Broken
      else Text(i + 10, CodeUnits((h.value - 0xD800) * 0x400 + (low.value - 0xDC00) + 0x10000))
  }

  /** One escape, unescaped character or error at position `i`, which is not the closing quote. */
  function ParseUnit(t: string, i: nat): (r: Text)
    ensures r.Text? ==> i < r.pos <= |t|
  {
    var c := Peek(t, i);
    if c == '\\' then
      var e := Peek(t, i + 1);
      if Unescape(e) != NUL then Text(i + 2, [Unescape(e)])
      else if e == 'u' then ParseUnicode(t, i + 2)
      else Broken
    else if c as int < 0x20 then Broken
    else Text(i + 1, [c])
  }

  /** The rest of a string from inside its quotes. */
  function ParseChars(t: string, i: nat): (r: Text)
    requires i <= |t|
    ensures r.Text? ==> i < r.pos <= |t|
    decreases |t| - i
  {
    if Peek(t, i) == '"' then Text(i + 1, "")
    else
      var u := ParseUnit(t, i);
      if u.Broken? then Broken
      else
        var rest := ParseChars(t, u.pos);
        if rest.Broken? then Broken else Text(rest.pos, u.s + rest.s)
  }

  function ParseString(t: string, i: nat, isKey: bool): (r: Scalar)
    requires i < |t|
    ensures r.Good? ==> i < r.pos <= |t|
  {
    var r := ParseChars(t, i + 1);
    if r.Broken? then Bad else Good(r.pos, if isKey then Key(r.s) else String(r.s))
  }

  // ---------------------------------------------------------------------------------------
  // Numbers
  // ---------------------------------------------------------------------------------------

  /** An accumulator after some digits; `full` when the next digit no longer fits. */
  datatype Digits = Digits(pos: nat, acc: nat, count: nat, full: bool)

  /** Takes digits while `acc * 10 + digit` stays at most `limit * 10 + last`. */
  function TakeDigits(t: string, i: nat, acc: nat, count: nat, limit: nat, last: char): (r: Digits)
    requires i <= |t|
    ensures i <= r.pos <= |t|
    ensures r.full ==> IsDigit(Peek(t, r.pos))
    ensures !r.full ==> !IsDigit(Peek(t, r.pos))
    decreases |t| - i
  {
    var c := Peek(t, i);
    if !IsDigit(c) then Digits(i, acc, count, false)
    else if acc >= limit && (acc != limit || c > last) then Digits(i, acc, count, true)
    else TakeDigits(t, i + 1, acc * 10 + DigitValue(c), count + 1, limit, last)
  }

  /** The largest accumulator, and the largest digit after it, that a 32-bit result takes in. */
  function Limit32(minus: bool): (nat, char) {
    if minus then (214748364, '8') else (429496729, '5')
  }

  function Limit64(minus: bool): (nat, char) {
    if minus then (0x0CCC_CCCC_CCCC_CCCC, '8') else (0x1999_9999_9999_9999, '5')
  }

  /** A tenth of the largest double. */
  const TOO_BIG: real := 17976931348623157.0 * Power10(291)

  function Power10(n: nat): real { if n == 0 then 1.0 else 10.0 * Power10(n - 1) }

  /**
   A number while it is read: `integer` is its value so far unless `isDouble`, then
   `significand` is; `digits` counts significant digits after the first.
   */
  datatype Number = Number(pos: nat, wide: bool, isDouble: bool, integer: nat,
                           significand: real, digits: nat, fraction: int)

  /** Digits that no longer fit 64 bits, unless the significand runs out of the range of a double. */
  function TakeBig(t: string, i: nat, d: real): (r: Option<(nat, real)>)
    requires i <= |t|
    ensures r.Some? ==> i <= r.value.0 <= |t|
    decreases |t| - i
  {
    var c := Peek(t, i);
    if !IsDigit(c) then Some((i, d))
    else if d >= TOO_BIG then None
    else TakeBig(t, i + 1, d * 10.0 + DigitValue(c) as real)
  }

  /** zero / ( digit1-9 *DIGIT ), in the narrowest of 32 bits, 64 bits and a double. */
  function ParseInteger(t: string, i: nat, minus: bool): (r: Option<Number>)
    requires i <= |t|
    ensures r.Some? ==> i < r.value.pos <= |t|
  {
    var c := Peek(t, i);
    if c == '0' then Some(Number(i + 1, false, false, 0, 0.0, 0, 0))
    else if '1' <= c <= '9' then
      var a := TakeDigits(t, i + 1, DigitValue(c), 0, Limit32(minus).0, Limit32(minus).1);
      if !a.full then Some(Number(a.pos, false, false, a.acc, 0.0, a.count, 0))
      else
        var b := TakeDigits(t, a.pos, a.acc, a.count, Limit64(minus).0, Limit64(minus).1);
        if !b.full then Some(Number(b.pos, true, false, b.acc, 0.0, b.count, 0))
        else
          var big := TakeBig(t, b.pos, b.acc as real);
          if big.None? then None
          else Some(Number(big.value.0, true, true, b.acc, big.value.1, b.count, 0))
    else None
  }

  /** Fraction digits into the 64-bit accumulator while it is below 2^53. */
  function TakeFraction64(t: string, i: nat, acc: nat, digits: nat, fraction: int): (r: Number)
    requires i <= |t|
    ensures i <= r.pos <= |t| && r.isDouble
    decreases |t| - i
  {
    var c := Peek(t, i);
    if !IsDigit(c) || acc > 0x1F_FFFF_FFFF_FFFF then Number(i, true, true, acc, acc as real, digits, fraction)
    else
      var acc' := acc * 10 + DigitValue(c);
      TakeFraction64(t, i + 1, acc', if acc' != 0 then digits + 1 else digits, fraction - 1)
  }

  /** Fraction digits into the double, until it has 17 significant ones. */
  function TakeFraction(t: string, i: nat, d: real, digits: nat, fraction: int): (r: Number)
    requires i <= |t|
    ensures i <= r.pos <= |t| && r.isDouble
    decreases |t| - i
  {
    var c := Peek(t, i);
    if !IsDigit(c) then Number(i, true, true, 0, d, digits, fraction)
    else if digits < 17 then
      var d' := d * 10.0 + DigitValue(c) as real;
      TakeFraction(t, i + 1, d', if d' > 0.0 then digits + 1 else digits, fraction - 1)
    else TakeFraction(t, i + 1, d, digits, fraction)
  }

  function ParseFraction(t: string, n: Number): (r: Option<Number>)
    requires n.pos <= |t|
    ensures r.Some? ==> n.pos <= r.value.pos <= |t|
  {
    if Peek(t, n.pos) != '.' then Some(n)
    else if !IsDigit(Peek(t, n.pos + 1)) then None
    else if n.isDouble then Some(TakeFraction(t, n.pos + 1, n.significand, n.digits, 0))
    else
      var f := TakeFraction64(t, n.pos + 1, n.integer, n.digits, 0);
      Some(TakeFraction(t, f.pos, f.significand, f.digits, f.fraction))
  }

  function SkipDigits(t: string, i: nat): (j: nat)
    requires i <= |t|
    ensures i <= j <= |t|
    decreases |t| - i
  {
    if IsDigit(Peek(t, i)) then SkipDigits(t, i + 1) else i
  }

  /** A negative exponent; once it reaches 214748364 the remaining digits no longer count. */
  function TakeNegativeExponent(t: string, i: nat, exp: nat): (r: (nat, nat))
    requires i <= |t| && exp < 214748364
    ensures i <= r.0 <= |t| && r.1 < 0x8000_0000
    decreases |t| - i
  {
    var c := Peek(t, i);
    if !IsDigit(c) then (i, exp)
    else
      var exp' := exp * 10 + DigitValue(c);
      if exp' >= 214748364 then (SkipDigits(t, i + 1), exp') else TakeNegativeExponent(t, i + 1, exp')
  }

  function TakeExponent(t: string, i: nat, exp: nat, max: int): (r: Option<(nat, nat)>)
    requires i <= |t|
    ensures r.Some? ==> i <= r.value.0 <= |t|
    decreases |t| - i
  {
    var c := Peek(t, i);
    if !IsDigit(c) then Some((i, exp))
    else
      var exp' := exp * 10 + DigitValue(c);
      if exp' > max then None else TakeExponent(t, i + 1, exp', max)
  }

  function Finish(minus: bool, n: Number, pos: nat, exp: int): Scalar {
    Good(pos,
         if n.isDouble then Double(minus, n.significand, exp + n.fraction)
         else if n.wide then if minus then Int64(-(n.integer as int)) else Uint64(n.integer)
         else if minus then Int(-(n.integer as int)) else Uint(n.integer))
  }

  function AsDouble(n: Number): Number {
    if n.isDouble then n else n.(isDouble := true, significand := n.integer as real)
  }

  /** The sign and digits behind the letter of an exponent: where they end, and their value. */
  function ExponentDigits(t: string, i: nat, fraction: int): (r: Option<(nat, int)>)
    requires i <= |t|
    ensures r.Some? ==> i < r.value.0 <= |t|
  {
    var sign := Peek(t, i);
    var j := if sign == '+' || sign == '-' then i + 1 else i;
    var c := Peek(t, j);
    if !IsDigit(c) then None
    else if sign == '-' then
      var r := TakeNegativeExponent(t, j + 1, DigitValue(c));
      Some((r.0, -(r.1 as int)))
    else
      var r := TakeExponent(t, j + 1, DigitValue(c), 308 - fraction);
      if r.None? then None else Some((r.value.0, r.value.1))
  }

  /** An optional exponent after the number, then the event. */
  function ParseExponent(t: string, minus: bool, n: Number): (r: Scalar)
    requires n.pos <= |t|
    ensures r.Good? ==> n.pos <= r.pos <= |t|
  {
    if Peek(t, n.pos) != 'e' && Peek(t, n.pos) != 'E' then Finish(minus, n, n.pos, 0)
    else
      var e := ExponentDigits(t, n.pos + 1, n.fraction);
      if e.None? then Bad else Finish(minus, AsDouble(n), e.value.0, e.value.1)
  }

  function ParseNumber(t: string, i: nat): (r: Scalar)
    requires i <= |t|
    ensures r.Good? ==> i < r.pos <= |t|
  {
    var minus := Peek(t, i) == '-';
    var n := ParseInteger(t, if minus then i + 1 else i, minus);
    if n.None? then Bad
    else
      var f := ParseFraction(t, n.value);
      if f.None? then Bad else ParseExponent(t, minus, f.value)
  }
}
