/**
 The words of the JSON grammar: white space, strings and numbers as section 2, 7 and 6 of
 RFC 8259 spell them, and that the reader takes exactly these, for what they mean.
 */
module JsonLexis {
  import opened Options
  import opened JsonScalars
  import opened JsonNumber
  import Utf8

  // ---------------------------------------------------------------------------------------
  // Text at a position
  // ---------------------------------------------------------------------------------------

  predicate Stands(t: string, i: nat, s: string) {
    i + |s| <= |t| && t[i..i + |s|] == s
  }

  lemma Apart(t: string, i: nat, a: string, b: string)
    ensures Stands(t, i, a + b) <==> Stands(t, i, a) && Stands(t, i + |a|, b)
  {
    if Stands(t, i, a + b) {
      assert t[i..i + |a|] == (a + b)[..|a|] == a;
      assert t[i + |a|..i + |a| + |b|] == (a + b)[|a|..] == b;
    }
    if Stands(t, i, a) && Stands(t, i + |a|, b) {
      assert t[i..i + |a + b|] == t[i..i + |a|] + t[i + |a|..i + |a| + |b|];
    }
  }

  lemma Each(t: string, i: nat, s: string, k: nat)
    requires Stands(t, i, s) && k < |s|
    ensures Peek(t, i + k) == s[k]
  {
    assert t[i..i + |s|][k] == t[i + k];
  }

  lemma First(t: string, i: nat, s: string)
    requires Stands(t, i, s) && s != ""
    ensures Peek(t, i) == s[0]
  {
    Each(t, i, s, 0);
  }

  // ---------------------------------------------------------------------------------------
  // White space (section 2)
  // ---------------------------------------------------------------------------------------

  predicate IsBlank(c: char) { c as int == 0x20 || c as int == 0x09 || c as int == 0x0A || c as int == 0x0D }

  predicate Blank(s: string) { forall k | 0 <= k < |s| :: IsBlank(s[k]) }

  lemma {:induction false} SkipsBlank(t: string, i: nat, s: string)
    requires Stands(t, i, s) && Blank(s) && !IsBlank(Peek(t, i + |s|))
    ensures Skip(t, i) == i + |s|
    decreases |s|
  {
    if s != "" {
      First(t, i, s);
      assert s == [s[0]] + s[1..];
      Apart(t, i, [s[0]], s[1..]);
      SkipsBlank(t, i + 1, s[1..]);
    }
  }

  lemma {:induction false} FindsBlank(t: string, i: nat)
    requires i <= |t|
    ensures Blank(t[i..Skip(t, i)]) && Stands(t, i, t[i..Skip(t, i)]) && !IsBlank(Peek(t, Skip(t, i)))
    decreases |t| - i
  {
    if IsSpace(Peek(t, i)) {
      FindsBlank(t, i + 1);
      assert t[i..Skip(t, i)] == [t[i]] + t[i + 1..Skip(t, i + 1)];
    }
  }

  // ---------------------------------------------------------------------------------------
  // Strings (section 7)
  // ---------------------------------------------------------------------------------------

  /** One character of a string as it is written. */
  datatype Piece = Plain(c: char) | Short(letter: char) | Code(digits: string) | Pair(high: string, low: string)

  const ESCAPES: map<char, char> :=
    map['"' := '"', '\\' := '\\', '/' := '/', 'b' := 8 as char, 'f' := 12 as char,
        'n' := 10 as char, 'r' := 13 as char, 't' := 9 as char]

  predicate IsHex(c: char) { '0' <= c <= '9' || 'a' <= c <= 'f' || 'A' <= c <= 'F' }

  predicate IsHex4(d: string) { |d| == 4 && IsHex(d[0]) && IsHex(d[1]) && IsHex(d[2]) && IsHex(d[3]) }

  function HexOf(c: char): (h: nat)
    requires IsHex(c)
    ensures h < 16
  {
    if c <= '9' then c as int - 48 else if c <= 'F' then c as int - 55 else c as int - 87
  }

  function Hex4(d: string): (h: nat)
    requires IsHex4(d)
    ensures h < 0x1_0000
  {
    ((HexOf(d[0]) * 16 + HexOf(d[1])) * 16 + HexOf(d[2])) * 16 + HexOf(d[3])
  }

  predicate IsHigh(h: nat) { 0xD800 <= h < 0xDC00 }

  predicate IsLow(h: nat) { 0xDC00 <= h < 0xE000 }

  predicate ValidPiece(p: Piece) {
    match p
    case Plain(c) => c as int >= 0x20 && c != '"' && c != '\\'
    case Short(letter) => letter in ESCAPES
    case Code(d) => IsHex4(d) && !IsHigh(Hex4(d))
    case Pair(h, l) => IsHex4(h) && IsHigh(Hex4(h)) && IsHex4(l) && IsLow(Hex4(l))
  }

  function Written(p: Piece): (s: string)
    ensures s != ""
  {
    match p
    case Plain(c) => [c]
    case Short(letter) => ['\\', letter]
    case Code(d) => "\\u" + d
    case Pair(h, l) => "\\u" + h + ("\\u" + l)
  }

  /** A pair of escapes is a surrogate pair of UTF-16. */
  function Meant(p: Piece): string
    requires ValidPiece(p)
  {
    match p
    case Plain(c) => [c]
    case Short(letter) => [ESCAPES[letter]]
    case Code(d) => CodeUnits(Hex4(d))
    case Pair(h, l) => CodeUnits(0x1_0000 + (Hex4(h) - 0xD800) * 0x400 + (Hex4(l) - 0xDC00))
  }

  /** The two units of a pair are the surrogates of its code point (section 2.1 of RFC 2781). */
  lemma PairIsUtf16(high: nat, low: nat)
    requires IsHigh(high) && IsLow(low)
    ensures
      var cp := 0x1_0000 + (high - 0xD800) * 0x400 + (low - 0xDC00);
      Utf8.Scalar(cp) && cp >= 0x1_0000 && Utf8.Encode16(cp) == [high, low]
  {
  }

  function WrittenAll(ps: seq<Piece>): string {
    if ps == [] then "\"" else Written(ps[0]) + WrittenAll(ps[1..])
  }

  function MeantAll(ps: seq<Piece>): string
    requires forall p | p in ps :: ValidPiece(p)
  {
    if ps == [] then "" else Meant(ps[0]) + MeantAll(ps[1..])
  }

  lemma HexByDigit(c: char)
    ensures HexDigit(c) == if IsHex(c) then Hex(HexOf(c)) else NoHex
  {
  }

  lemma ReadsHex4(t: string, i: nat, d: string)
    requires Stands(t, i, d) && IsHex4(d)
    ensures ParseHex4(t, i) == Hex(Hex4(d))
  {
    hide HexDigit, HexOf;
    Each(t, i, d, 0);
    Each(t, i, d, 1);
    Each(t, i, d, 2);
    Each(t, i, d, 3);
    HexByDigit(d[0]);
    HexByDigit(d[1]);
    HexByDigit(d[2]);
    HexByDigit(d[3]);
  }

  lemma FindsHex4(t: string, i: nat)
    requires ParseHex4(t, i).Hex?
    ensures IsHex4(t[i..i + 4]) && ParseHex4(t, i).value == Hex4(t[i..i + 4])
  {
    hide HexDigit, HexOf;
    HexByDigit(t[i]);
    HexByDigit(t[i + 1]);
    HexByDigit(t[i + 2]);
    HexByDigit(t[i + 3]);
    ReadsHex4(t, i, t[i..i + 4]);
  }

  lemma EscapesByTable(e: char)
    ensures Unescape(e) == if e in ESCAPES then ESCAPES[e] else NUL
  {
  }

  lemma ReadsCode(t: string, i: nat, p: Piece)
    requires ValidPiece(p) && (p.Code? || p.Pair?) && Stands(t, i, Written(p))
    ensures ParseUnicode(t, i + 2) == Text(i + |Written(p)|, Meant(p))
  {
    hide ParseHex4, Hex4, CodeUnits, Stands, IsHex4;
    if p.Code? {
      Apart(t, i, "\\u", p.digits);
      ReadsHex4(t, i + 2, p.digits);
      HexLength(p.digits);
    } else {
      Apart(t, i, "\\u" + p.high, "\\u" + p.low);
      Apart(t, i, "\\u", p.high);
      assert |p.high| == 4 by { HexLength(p.high); }
      Apart(t, i + 6, "\\u", p.low);
      Each(t, i + 6, "\\u", 0);
      Each(t, i + 6, "\\u", 1);
      ReadsHex4(t, i + 2, p.high);
      ReadsHex4(t, i + 8, p.low);
      assert |p.low| == 4 by { HexLength(p.low); }
    }
  }

  lemma HexLength(d: string)
    requires IsHex4(d)
    ensures |d| == 4
  {
  }

  /** A piece that stands in the text is read as what it means. */
  lemma ReadsPiece(t: string, i: nat, p: Piece)
    requires ValidPiece(p) && Stands(t, i, Written(p))
    ensures ParseUnit(t, i) == Text(i + |Written(p)|, Meant(p)) && Peek(t, i) != '"'
  {
    hide Stands, ParseUnicode, Unescape, CodeUnits, Hex4, IsHex4;
    First(t, i, Written(p));
    if !p.Plain? {
      Each(t, i, Written(p), 1);
      EscapesByTable(Written(p)[1]);
      if !p.Short? { ReadsCode(t, i, p); }
    }
  }

  lemma SliceStands(t: string, i: nat, j: nat)
    requires i <= j <= |t|
    ensures Stands(t, i, t[i..j]) && |t[i..j]| == j - i
  {
  }

  lemma CharStands(t: string, i: nat, c: char)
    requires c != NUL && Peek(t, i) == c
    ensures Stands(t, i, [c])
  {
  }

  lemma EscapeStands(t: string, i: nat)
    requires Peek(t, i) == '\\' && Peek(t, i + 1) == 'u'
    ensures Stands(t, i, "\\u")
  {
  }

  /** A backslash, a u and four digits. */
  lemma CodeStands(t: string, i: nat)
    requires Stands(t, i, "\\u") && i + 6 <= |t|
    ensures Stands(t, i, "\\u" + t[i + 2..i + 6])
  {
    hide Stands;
    SliceStands(t, i + 2, i + 6);
    Apart(t, i, "\\u", t[i + 2..i + 6]);
  }

  /** What is read after a backslash and a u is one escape, or a pair of them. */
  lemma FindsCode(t: string, i: nat) returns (p: Piece)
    requires Stands(t, i, "\\u") && ParseUnicode(t, i + 2).Text?
    ensures ValidPiece(p) && Stands(t, i, Written(p))
    ensures ParseUnicode(t, i + 2) == Text(i + |Written(p)|, Meant(p))
  {
    hide Stands, ParseHex4, Hex4, CodeUnits, IsHex4;
    FindsHex4(t, i + 2);
    CodeStands(t, i);
    var high := t[i + 2..i + 6];
    if !IsHigh(Hex4(high)) {
      p := Code(high);
    } else {
      FindsHex4(t, i + 8);
      EscapeStands(t, i + 6);
      CodeStands(t, i + 6);
      var low := t[i + 8..i + 12];
      p := Pair(high, low);
      Apart(t, i, "\\u" + high, "\\u" + low);
    }
  }

  /** Whatever is read as a character is a piece. */
  lemma FindsPiece(t: string, i: nat) returns (p: Piece)
    requires ParseUnit(t, i).Text? && Peek(t, i) != '"'
    ensures ValidPiece(p) && Stands(t, i, Written(p))
    ensures ParseUnit(t, i) == Text(i + |Written(p)|, Meant(p))
  {
    hide ParseUnicode, Unescape, CodeUnits, Hex4, IsHex4;
    if Peek(t, i) != '\\' {
      p := Plain(t[i]);
    } else {
      EscapesByTable(Peek(t, i + 1));
      if Peek(t, i + 1) in ESCAPES {
        p := Short(t[i + 1]);
      } else {
        assert t[i..i + 2] == "\\u";
        p := FindsCode(t, i);
      }
    }
  }

  lemma {:induction false} ReadsPieces(t: string, i: nat, ps: seq<Piece>)
    requires (forall p | p in ps :: ValidPiece(p)) && Stands(t, i, WrittenAll(ps))
    ensures ParseChars(t, i) == Text(i + |WrittenAll(ps)|, MeantAll(ps))
    decreases |ps|
  {
    hide Stands, ParseUnit, Written, Meant, ValidPiece;
    assert i <= |t| by { Inside(t, i, WrittenAll(ps)); }
    if ps == [] {
      First(t, i, "\"");
    } else {
      Apart(t, i, Written(ps[0]), WrittenAll(ps[1..]));
      ReadsPiece(t, i, ps[0]);
      ReadsPieces(t, i + |Written(ps[0])|, ps[1..]);
    }
  }

  lemma Inside(t: string, i: nat, s: string)
    requires Stands(t, i, s)
    ensures i + |s| <= |t|
  {
  }

  lemma {:induction false} FindsPieces(t: string, i: nat) returns (ps: seq<Piece>)
    requires i <= |t| && ParseChars(t, i).Text?
    ensures (forall p | p in ps :: ValidPiece(p)) && Stands(t, i, WrittenAll(ps))
    ensures ParseChars(t, i) == Text(i + |WrittenAll(ps)|, MeantAll(ps))
    decreases |t| - i
  {
    hide ParseUnit, Written, Meant, ValidPiece;
    if Peek(t, i) == '"' {
      ps := [];
    } else {
      hide Stands;
      var p := FindsPiece(t, i);
      var rest := FindsPieces(t, i + |Written(p)|);
      ps := [p] + rest;
      assert ps[1..] == rest;
      Apart(t, i, Written(p), WrittenAll(rest));
    }
  }

  // ---------------------------------------------------------------------------------------
  // Numbers (section 6)
  // ---------------------------------------------------------------------------------------

  function FractionText(b: string): string { if b == "" then "" else "." + b }

  function ExponentText(x: Exponent): string {
    if x.NoExponent? then "" else [x.letter] + (x.sign + x.digits)
  }

  function NumberText(p: Parts): string {
    (if p.minus then "-" else "") + (p.whole + (FractionText(p.fraction) + ExponentText(p.exponent)))
  }

  /** What may follow a value: the end, white space, a comma or a closing bracket. */
  predicate Ends(c: char) { c == NUL || IsBlank(c) || c == ',' || c == ']' || c == '}' }

  /** Digits that stand in the text, with no digit behind them. */
  lemma StandingDigits(t: string, i: nat, ds: string)
    requires Stands(t, i, ds) && AllDigits(ds) && !JsonScalars.IsDigit(Peek(t, i + |ds|))
    ensures JsonInteger.DigitRun(t, i, i + |ds|) && t[i..i + |ds|] == ds
  {
    forall k | i <= k < i + |ds| ensures JsonScalars.IsDigit(t[k]) {
      Each(t, i, ds, k - i);
    }
  }

  lemma ReadsExponent(t: string, f: nat, x: Exponent)
    requires ValidExponent(x) && Stands(t, f, ExponentText(x)) && Ends(Peek(t, f + |ExponentText(x)|))
    ensures ExponentPart(t, f, f + |ExponentText(x)|) && ExponentAt(t, f, f + |ExponentText(x)|) == x
    ensures Peek(t, f) != '.' && !JsonScalars.IsDigit(Peek(t, f))
  {
    hide Stands;
    Inside(t, f, ExponentText(x));
    if x.Exponent? {
      Apart(t, f, [x.letter], x.sign + x.digits);
      Apart(t, f + 1, x.sign, x.digits);
      First(t, f, [x.letter]);
      First(t, f + 1 + |x.sign|, x.digits);
      if x.sign != "" { First(t, f + 1, x.sign); }
      StandingDigits(t, f + 1 + |x.sign|, x.digits);
      assert ExponentStart(t, f) == f + 1 + |x.sign|;
    }
  }

  lemma ReadsFraction(t: string, m: nat, b: string)
    requires AllDigits(b) && Stands(t, m, FractionText(b))
    requires var f := m + |FractionText(b)|; Peek(t, f) != '.' && !JsonScalars.IsDigit(Peek(t, f))
    ensures
      var f := m + |FractionText(b)|;
      FractionPart(t, m, f) && (if f == m then b == "" else b == t[m + 1..f]) && !JsonScalars.IsDigit(Peek(t, m))
  {
    if b != "" {
      Apart(t, m, ".", b);
      First(t, m, ".");
      StandingDigits(t, m + 1, b);
    }
  }

  /** A number that stands in the text, with nothing behind it that could belong to it. */
  lemma ReadsNumber(t: string, i: nat, p: Parts)
    requires ValidParts(p) && Stands(t, i, NumberText(p)) && Ends(Peek(t, i + |NumberText(p)|))
    ensures
      ParseNumber(t, i) == if Meaning(p).None? then Bad else Good(i + |NumberText(p)|, Meaning(p).value)
  {
    hide ParseNumber, Stands, Meaning, ExponentText, FractionText, ValidExponent, ExponentPart, FractionPart, ExponentAt;
    var minus := if p.minus then "-" else "";
    var s := i + |minus|;
    var m := s + |p.whole|;
    var f, e := m + |FractionText(p.fraction)|, i + |NumberText(p)|;
    Apart(t, i, minus, p.whole + (FractionText(p.fraction) + ExponentText(p.exponent)));
    Apart(t, s, p.whole, FractionText(p.fraction) + ExponentText(p.exponent));
    Apart(t, m, FractionText(p.fraction), ExponentText(p.exponent));
    ReadsExponent(t, f, p.exponent);
    ReadsFraction(t, m, p.fraction);
    StandingDigits(t, s, p.whole);
    First(t, s, p.whole);
    if p.minus { First(t, i, minus); }
    assert PartsAt(t, i, m, f, e) == p;
    NumbersAreExact(t, i, m, f, e);
  }

  lemma FindsNumber(t: string, i: nat) returns (p: Parts)
    requires i <= |t| && ParseNumber(t, i).Good?
    ensures ValidParts(p) && Stands(t, i, NumberText(p)) && Meaning(p).Some?
    ensures ParseNumber(t, i) == Good(i + |NumberText(p)|, Meaning(p).value)
  {
    hide ParseNumber, Meaning, ValidParts;
    var m, f := OnlyNumbersAreRead(t, i);
    var e := ParseNumber(t, i).pos;
    p := PartsAt(t, i, m, f, e);
    NumbersAreExact(t, i, m, f, e);
    PartsStand(t, i, m, f, e);
  }

  lemma ExponentStands(t: string, f: nat, e: nat)
    requires f <= |t| && ExponentPart(t, f, e)
    ensures Stands(t, f, ExponentText(ExponentAt(t, f, e))) && f + |ExponentText(ExponentAt(t, f, e))| == e
  {
    hide Stands, ValidExponent;
    var x := ExponentAt(t, f, e);
    if e == f {
      SliceStands(t, f, f);
      assert t[f..f] == "";
    } else {
      CharStands(t, f, x.letter);
      if x.sign == "" {
        SliceStands(t, f + 1, f + 1);
        assert t[f + 1..f + 1] == "";
      } else {
        CharStands(t, f + 1, x.sign[0]);
        assert [x.sign[0]] == x.sign;
      }
      SliceStands(t, ExponentStart(t, f), e);
      Apart(t, f + 1, x.sign, x.digits);
      Apart(t, f, [x.letter], x.sign + x.digits);
    }
  }

  lemma FractionEnds(t: string, m: nat, f: nat)
    requires m <= |t| && FractionPart(t, m, f)
    ensures f <= |t|
  {
  }

  lemma FractionStands(t: string, m: nat, f: nat)
    requires m <= |t| && FractionPart(t, m, f)
    ensures
      var b := FractionText(if f == m then "" else t[m + 1..f]);
      Stands(t, m, b) && m + |b| == f
  {
    hide Stands;
    if f == m {
      SliceStands(t, m, m);
      assert t[m..m] == "";
    } else {
      CharStands(t, m, '.');
      SliceStands(t, m + 1, f);
      Apart(t, m, ".", t[m + 1..f]);
    }
  }

  lemma PartsStand(t: string, i: nat, m: nat, f: nat, e: nat)
    requires i < |t| && IntegerPart(t, if t[i] == '-' then i + 1 else i, m) && FractionPart(t, m, f) && ExponentPart(t, f, e)
    ensures Stands(t, i, NumberText(PartsAt(t, i, m, f, e))) && i + |NumberText(PartsAt(t, i, m, f, e))| == e
  {
    hide Stands, FractionPart, ExponentPart, ExponentAt, ExponentText, FractionText, ValidExponent, ValidParts;
    var p, s := PartsAt(t, i, m, f, e), if t[i] == '-' then i + 1 else i;
    var minus := if p.minus then "-" else "";
    assert f <= |t| by { FractionEnds(t, m, f); }
    ExponentStands(t, f, e);
    FractionStands(t, m, f);
    Apart(t, m, FractionText(p.fraction), ExponentText(p.exponent));
    SliceStands(t, s, m);
    Apart(t, s, p.whole, FractionText(p.fraction) + ExponentText(p.exponent));
    SliceStands(t, i, i);
    if p.minus { CharStands(t, i, '-'); } else { assert t[i..i] == ""; }
    Apart(t, i, minus, p.whole + (FractionText(p.fraction) + ExponentText(p.exponent)));
  }
}
