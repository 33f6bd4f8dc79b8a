/** JSON Pointers (RFC 6901): parsing and printing, as a string and as a URI fragment. */
module Pointer {
  import opened Bytes
  import opened Options
  import opened Utf8

  const HASH: Byte := 0x23
  const PERCENT: Byte := 0x25
  const SLASH: Byte := 0x2F
  const ZERO: Byte := 0x30
  const ONE: Byte := 0x31
  const TILDE: Byte := 0x7E

  const INVALID_INDEX := 0xFFFF_FFFF

  datatype Error = TokenMustBeginWithSolidus | InvalidEscape | InvalidPercentEncoding | CharacterMustPercentEncode

  datatype Token = Token(name: seq<Byte>, index: nat)

  datatype Parsed = Tokens(tokens: seq<Token>) | Failed(error: Error, offset: nat)

  predicate Digit(c: Byte) { 0x30 <= c <= 0x39 }

  /** Everything but the unreserved characters of section 2.3 of RFC 3986. */
  predicate NeedPercentEncode(c: Byte) {
    !(Digit(c) || 0x41 <= c <= 0x5A || 0x61 <= c <= 0x7A || c == 0x2D || c == 0x2E || c == 0x5F || c == TILDE)
  }

  // ---------------------------------------------------------------------------------------
  // Parsing
  // ---------------------------------------------------------------------------------------

  function HexValue(c: Byte): Option<nat> {
    if Digit(c) then Some(c - 0x30)
    else if 0x41 <= c <= 0x46 then Some(c - 0x41 + 10)
    else if 0x61 <= c <= 0x66 then Some(c - 0x61 + 10)
    else None
  }

  /** The byte that a percent sign and two hexadecimal digits stand for. */
  function Triplet(s: seq<Byte>, i: nat): Option<Byte> {
    if i + 3 > |s| || s[i] != PERCENT then None else
    var high, low := HexValue(s[i + 1]), HexValue(s[i + 2]);
    if high.None? || low.None? then None else Some(16 * high.value + low.value)
  }

  /** The bytes of all triplets that follow each other from `i` on. */
  function Run(s: seq<Byte>, i: nat): seq<Byte>
    decreases |s| - i
  {
    if Triplet(s, i).None? then [] else [Triplet(s, i).value] + Run(s, i + 3)
  }

  /** What one turn of the inner loop appends to a name, and where it goes on. */
  datatype Piece = Piece(bytes: seq<Byte>, digit: bool, next: nat) | Bad(error: Error, offset: nat)

  function Unescape(s: seq<Byte>, c: Byte, i: nat): Piece {
    if c != TILDE then Piece([c], Digit(c), i)
    else if i < |s| && s[i] == ZERO then Piece([TILDE], false, i + 1)
    else if i < |s| && s[i] == ONE then Piece([SLASH], false, i + 1)
    else Bad(InvalidEscape, i)
  }

  function TakePiece(s: seq<Byte>, i: nat, uri: bool): (r: Piece)
    requires i < |s|
    ensures r.Piece? ==> i < r.next <= |s| && |r.bytes| <= r.next - i
  {
    if uri && s[i] == PERCENT then
      var run := Run(s, i);
      var d := Validate(run);
      if run == [] || !d.ok then Bad(InvalidPercentEncoding, i) else
      RunFits(s, i);
      ValidateIsDecode(run);
      if |d.copied| == 1 then Unescape(s, d.copied[0], i + 3)
      else Piece(d.copied, false, i + 3 * |d.copied|)
    else if uri && NeedPercentEncode(s[i]) then Bad(CharacterMustPercentEncode, i)
    else Unescape(s, s[i], i + 1)
  }

  lemma RunFits(s: seq<Byte>, i: nat)
    ensures Run(s, i) != [] ==> i + 3 * |Run(s, i)| <= |s|
    decreases |s| - i
  {
  }

  datatype Named = Name(bytes: seq<Byte>, digits: bool, next: nat) | BadName(error: Error, offset: nat)

  /** A name up to the next solidus, and whether it has nothing but digits. */
  function TakeName(s: seq<Byte>, i: nat, uri: bool): (r: Named)
    ensures r.Name? && i <= |s| ==> i <= r.next <= |s| && |r.bytes| <= r.next - i
    decreases |s| - i
  {
    if i >= |s| || s[i] == SLASH then Name([], true, i) else
    match TakePiece(s, i, uri)
    case Bad(error, offset) => BadName(error, offset)
    case Piece(bytes, digit, next) =>
      var rest := TakeName(s, next, uri);
      if rest.BadName? then rest else Name(bytes + rest.bytes, digit && rest.digits, rest.next)
  }

  /** Digits to a number in 32 bits, with the code's test for having wrapped around. */
  function ToIndex(name: seq<Byte>, n: nat): nat {
    if name == [] then n else
    var c: int := name[0];
    var m := (n * 10 + (c - 0x30) % WORD32) % WORD32;
    if m < n then INVALID_INDEX else ToIndex(name[1..], m)
  }

  function Index(name: seq<Byte>, digits: bool): nat {
    if !digits || name == [] || (|name| > 1 && name[0] == ZERO) then INVALID_INDEX else ToIndex(name, 0)
  }

  function TakeTokens(s: seq<Byte>, i: nat, uri: bool): (r: Parsed)
    decreases |s| - i
  {
    if i >= |s| then Tokens([]) else
    match TakeName(s, i + 1, uri)
    case BadName(error, offset) => Failed(error, offset)
    case Name(bytes, digits, next) =>
      var rest := TakeTokens(s, next, uri);
      if rest.Failed? then rest else Tokens([Token(bytes, Index(bytes, digits))] + rest.tokens)
  }

  function Parse(s: seq<Byte>): Parsed {
    var uri := |s| > 0 && s[0] == HASH;
    var i := if uri then 1 else 0;
    if i != |s| && s[i] != SLASH then Failed(TokenMustBeginWithSolidus, i) else TakeTokens(s, i, uri)
  }

  // ---------------------------------------------------------------------------------------
  // Printing
  // ---------------------------------------------------------------------------------------

  function HexDigit(n: nat): Byte
    requires n < 16
  {
    if n < 10 then 0x30 + n else 0x41 + n - 10
  }

  function Percent(bytes: seq<Byte>): (r: seq<Byte>)
    ensures |r| == 3 * |bytes|
  {
    if bytes == [] then []
    else [PERCENT, HexDigit(bytes[0] / 16), HexDigit(bytes[0] % 16)] + Percent(bytes[1..])
  }

  datatype Front = Printed(text: seq<Byte>, used: nat) | Unprintable

  /** The first character of a name, escaped; in a fragment, ill-formed UTF-8 cannot be printed. */
  function PrintFront(name: seq<Byte>, uri: bool): (r: Front)
    requires name != []
    ensures r.Printed? ==> 1 <= r.used <= |name|
  {
    if name[0] == TILDE then Printed([TILDE, ZERO], 1)
    else if name[0] == SLASH then Printed([TILDE, ONE], 1)
    else if uri && NeedPercentEncode(name[0]) then
      ValidateIsDecode(name);
      var d := Validate(name);
      if d.ok then Printed(Percent(d.copied), d.used) else Unprintable
    else Printed([name[0]], 1)
  }

  function PrintName(name: seq<Byte>, uri: bool): Option<seq<Byte>>
    decreases |name|
  {
    if name == [] then Some([]) else
    var front := PrintFront(name, uri);
    if front.Unprintable? then None else
    var rest := PrintName(name[front.used..], uri);
    if rest.None? then None else Some(front.text + rest.value)
  }

  function PrintNames(names: seq<seq<Byte>>, uri: bool): Option<seq<Byte>> {
    if names == [] then Some([]) else
    var first, rest := PrintName(names[0], uri), PrintNames(names[1..], uri);
    if first.None? || rest.None? then None else Some([SLASH] + first.value + rest.value)
  }

  function Stringify(names: seq<seq<Byte>>, uri: bool): Option<seq<Byte>> {
    var r := PrintNames(names, uri);
    if r.None? then None else Some((if uri then [HASH] else []) + r.value)
  }

  // ---------------------------------------------------------------------------------------
  // Printing, then parsing
  // ---------------------------------------------------------------------------------------

  lemma HexReadsBack(n: nat)
    requires n < 16
    ensures HexValue(HexDigit(n)) == Some(n)
  {
  }

  lemma TripletReadsBack(before: seq<Byte>, b: Byte, after: seq<Byte>)
    ensures Triplet(before + [PERCENT, HexDigit(b / 16), HexDigit(b % 16)] + after, |before|) == Some(b)
  {
    hide HexValue, HexDigit;
    HexReadsBack(b / 16);
    HexReadsBack(b % 16);
  }

  lemma {:induction false} RunOfPercent(before: seq<Byte>, bytes: seq<Byte>, after: seq<Byte>)
    ensures var s := before + Percent(bytes) + after;
            Run(s, |before|) == bytes + Run(s, |before| + 3 * |bytes|)
    decreases |bytes|
  {
    if bytes != [] {
      hide Triplet, HexDigit;
      var s, b := before + Percent(bytes) + after, bytes[0];
      var three, rest := [PERCENT, HexDigit(b / 16), HexDigit(b % 16)], Percent(bytes[1..]);
      assert s == before + three + (rest + after);
      TripletReadsBack(before, b, rest + after);
      assert s == (before + three) + rest + after;
      RunOfPercent(before + three, bytes[1..], after);
    }
  }

  /** A well-formed character stays what it is whatever follows. */
  lemma FrontIsTight(s: seq<Byte>, more: seq<Byte>)
    requires Utf8.Front(s) > 0
    ensures Utf8.Front(s[..Utf8.Front(s)] + more) == Utf8.Front(s)
  {
  }

  predicate AllDigits(name: seq<Byte>) { forall i | 0 <= i < |name| :: Digit(name[i]) }

  lemma TripletsReadBack(before: seq<Byte>, name: seq<Byte>, after: seq<Byte>)
    requires name != [] && Validate(name).ok
    ensures var n := Validate(name).used;
            var run := Run(before + Percent(name[..n]) + after, |before|);
            && 1 <= n <= |name| && Validate(name).copied == name[..n]
            && run != [] && Validate(run).ok && Validate(run).copied == name[..n]
  {
    hide Validate, Decode, Utf8.Front, Percent, Run;
    ValidateIsDecode(name);
    DecodeIsGrammar(name);
    var n := Validate(name).used;
    var s := before + Percent(name[..n]) + after;
    RunOfPercent(before, name[..n], after);
    FrontIsTight(name, Run(s, |before| + 3 * n));
    ValidateIsDecode(Run(s, |before|));
    DecodeIsGrammar(Run(s, |before|));
  }

  /** Parsing the print of a name's first character gives that character back. */
  lemma PieceReadsBack(before: seq<Byte>, name: seq<Byte>, uri: bool, after: seq<Byte>)
    requires name != [] && PrintFront(name, uri).Printed?
    ensures var Printed(text, used) := PrintFront(name, uri);
            && |text| > 0 && text[0] != SLASH
            && TakePiece(before + text + after, |before|, uri) ==
               Piece(name[..used], AllDigits(name[..used]), |before| + |text|)
  {
    hide Validate, Run;
    var Printed(text, used) := PrintFront(name, uri);
    var s := before + text + after;
    if uri && NeedPercentEncode(name[0]) && name[0] != SLASH {
      TripletsReadBack(before, name, after);
      assert Percent(name[..used])[0] == PERCENT;
    } else {
      assert name[..used] == [name[0]];
    }
    assert s[|before|] == text[0];
    if |text| > 1 { assert s[|before| + 1] == text[1]; }
  }

  lemma {:induction false} NameReadsBack(before: seq<Byte>, name: seq<Byte>, uri: bool, after: seq<Byte>)
    requires PrintName(name, uri).Some? && (after == [] || after[0] == SLASH)
    ensures var text := PrintName(name, uri).value;
            TakeName(before + text + after, |before|, uri) == Name(name, AllDigits(name), |before| + |text|)
    decreases |name|
  {
    hide PrintFront, TakePiece, TakeName, AllDigits;
    if name == [] {
      NoDigits();
      NameEnds(before, after, uri);
    } else {
      var Printed(first, used) := PrintFront(name, uri);
      var rest := PrintName(name[used..], uri).value;
      var s := before + first + (rest + after);
      PieceReadsBack(before, name, uri, rest + after);
      assert s[|before|] == first[0];
      Resumes(before, first, rest, after);
      NameReadsBack(before + first, name[used..], uri, after);
      DigitsAppend(name, used);
      NameGoesOn(s, |before|, uri);
    }
  }

  lemma NameEnds(before: seq<Byte>, after: seq<Byte>, uri: bool)
    requires after == [] || after[0] == SLASH
    ensures TakeName(before + [] + after, |before|, uri) == Name([], true, |before|)
  {
  }

  lemma NameGoesOn(s: seq<Byte>, i: nat, uri: bool)
    requires i < |s| && s[i] != SLASH && TakePiece(s, i, uri).Piece?
    requires TakeName(s, TakePiece(s, i, uri).next, uri).Name?
    ensures var piece := TakePiece(s, i, uri);
            var rest := TakeName(s, piece.next, uri);
            TakeName(s, i, uri) == Name(piece.bytes + rest.bytes, piece.digit && rest.digits, rest.next)
  {
    hide TakePiece;
  }

  lemma Resumes(before: seq<Byte>, first: seq<Byte>, rest: seq<Byte>, after: seq<Byte>)
    ensures before + first + (rest + after) == (before + first) + rest + after
    ensures before + (first + rest) + after == (before + first) + rest + after
  {
  }

  lemma NoDigits()
    ensures AllDigits([])
  {
  }

  lemma DigitsAppend(name: seq<Byte>, n: nat)
    requires n <= |name|
    ensures AllDigits(name) <==> AllDigits(name[..n]) && AllDigits(name[n..])
    ensures name[..n] + name[n..] == name
  {
    assert forall i | n <= i < |name| :: name[i] == name[n..][i - n];
  }

  function Indexed(names: seq<seq<Byte>>): seq<Token> {
    if names == [] then [] else [Token(names[0], Index(names[0], AllDigits(names[0])))] + Indexed(names[1..])
  }

  lemma {:induction false} TokensReadBack(before: seq<Byte>, names: seq<seq<Byte>>, uri: bool)
    requires PrintNames(names, uri).Some?
    ensures TakeTokens(before + PrintNames(names, uri).value, |before|, uri) == Tokens(Indexed(names))
    decreases |names|
  {
    hide PrintName, TakeName, Index, AllDigits;
    var s := before + PrintNames(names, uri).value;
    if names == [] {
      assert s == before;
    } else {
      var first, rest := PrintName(names[0], uri).value, PrintNames(names[1..], uri).value;
      assert s == (before + [SLASH]) + first + rest;
      NameReadsBack(before + [SLASH], names[0], uri, rest);
      assert s == (before + [SLASH] + first) + rest;
      TokensReadBack(before + [SLASH] + first, names[1..], uri);
    }
  }

  /** Whatever can be printed, in either form, parses to the same names. */
  lemma PrintedParses(names: seq<seq<Byte>>, uri: bool)
    requires Stringify(names, uri).Some?
    ensures Parse(Stringify(names, uri).value) == Tokens(Indexed(names))
  {
    hide PrintName, TakeTokens;
    var before := if uri then [HASH] else [];
    TokensReadBack(before, names, uri);
  }

  // ---------------------------------------------------------------------------------------
  // What can be printed
  // ---------------------------------------------------------------------------------------

  lemma {:induction false} PrintableName(name: seq<Byte>, uri: bool)
    ensures PrintName(name, uri).Some? <==> !uri || WellFormed(name)
    decreases |name|
  {
    if name != [] {
      hide Validate, Decode;
      var front := PrintFront(name, uri);
      if uri {
        ValidateIsDecode(name);
        DecodeIsGrammar(name);
      }
      if front.Printed? { PrintableName(name[front.used..], uri); }
    }
  }

  /** The string form prints every list of names, the fragment form those that are UTF-8. */
  lemma {:induction false} Printable(names: seq<seq<Byte>>, uri: bool)
    ensures Stringify(names, uri).Some? <==> !uri || forall i | 0 <= i < |names| :: WellFormed(names[i])
    decreases |names|
  {
    hide PrintName, WellFormed;
    if names != [] {
      PrintableName(names[0], uri);
      Printable(names[1..], uri);
      assert forall i | 0 < i < |names| :: names[i] == names[1..][i - 1];
      assert forall i | 0 <= i < |names| - 1 :: names[1..][i] == names[i + 1];
    }
  }

  // ---------------------------------------------------------------------------------------
  // The buffers are large enough
  // ---------------------------------------------------------------------------------------

  /** What the first pass over the text counts, from `i` on. */
  function Slashes(s: seq<Byte>, i: nat): nat
    decreases |s| - i
  {
    if i >= |s| then 0 else (if s[i] == SLASH then 1 else 0) + Slashes(s, i + 1)
  }

  /** The room that names and their terminators take. */
  function Room(tokens: seq<Token>): nat {
    if tokens == [] then 0 else |tokens[0].name| + 1 + Room(tokens[1..])
  }

  ghost predicate Free(s: seq<Byte>, i: nat, j: nat)
    requires j <= |s|
  {
    forall k | i <= k < j :: s[k] != SLASH
  }

  lemma {:induction false} FreeOfSlashes(s: seq<Byte>, i: nat, j: nat)
    requires i <= j <= |s| && Free(s, i, j)
    ensures Slashes(s, i) == Slashes(s, j)
    decreases j - i
  {
    if i < j { FreeOfSlashes(s, i + 1, j); }
  }

  lemma {:induction false} RunIsFree(s: seq<Byte>, i: nat, n: nat)
    requires n <= |Run(s, i)| && i + 3 * n <= |s|
    ensures Free(s, i, i + 3 * n)
    decreases n
  {
    if n > 0 { RunIsFree(s, i + 3, n - 1); }
  }

  lemma PieceIsFree(s: seq<Byte>, i: nat, uri: bool)
    requires i < |s| && s[i] != SLASH && TakePiece(s, i, uri).Piece?
    ensures Free(s, i, TakePiece(s, i, uri).next)
  {
    hide Validate, Run;
    if uri && s[i] == PERCENT {
      RunFits(s, i);
      ValidateIsDecode(Run(s, i));
      RunIsFree(s, i, |Validate(Run(s, i)).copied|);
    }
  }

  /** A name ends where the text does or at the next solidus. */
  lemma {:induction false} NameIsFree(s: seq<Byte>, i: nat, uri: bool)
    requires i <= |s| && TakeName(s, i, uri).Name?
    ensures var n := TakeName(s, i, uri).next; Free(s, i, n) && (n < |s| ==> s[n] == SLASH)
    decreases |s| - i
  {
    hide TakePiece;
    if i < |s| && s[i] != SLASH {
      PieceIsFree(s, i, uri);
      NameIsFree(s, TakePiece(s, i, uri).next, uri);
    }
  }

  lemma {:induction false} TokensFit(s: seq<Byte>, i: nat, uri: bool)
    requires i <= |s| && (i < |s| ==> s[i] == SLASH) && TakeTokens(s, i, uri).Tokens?
    ensures var tokens := TakeTokens(s, i, uri).tokens; |tokens| == Slashes(s, i) && Room(tokens) <= |s| - i
    decreases |s| - i
  {
    hide TakeName, Index;
    if i < |s| {
      var name := TakeName(s, i + 1, uri);
      NameIsFree(s, i + 1, uri);
      FreeOfSlashes(s, i + 1, name.next);
      TokensFit(s, name.next, uri);
    }
  }

  /** Every counted token is filled, and the names never outgrow a buffer as long as the text. */
  lemma BuffersSuffice(s: seq<Byte>)
    requires Parse(s).Tokens?
    ensures |Parse(s).tokens| == Slashes(s, 0) && Room(Parse(s).tokens) <= |s|
  {
    hide TakeTokens;
    var i := if |s| > 0 && s[0] == HASH then 1 else 0;
    FreeOfSlashes(s, 0, i);
    TokensFit(s, i, i == 1);
  }

  // ---------------------------------------------------------------------------------------
  // Indexes
  // ---------------------------------------------------------------------------------------

  function Decimal(digits: seq<Byte>, n: nat): (r: nat)
    requires AllDigits(digits)
    ensures r >= n
  {
    if digits == [] then n else Decimal(digits[1..], n * 10 + (digits[0] - 0x30))
  }

  /** A numeral as section 4 of RFC 6901 wants it: digits without a leading zero. */
  predicate Canonical(name: seq<Byte>) {
    AllDigits(name) && name != [] && (|name| > 1 ==> name[0] != ZERO)
  }

  lemma {:induction false} DigitsConvert(name: seq<Byte>, n: nat)
    requires AllDigits(name) && Decimal(name, n) < WORD32
    ensures ToIndex(name, n) == Decimal(name, n)
    decreases |name|
  {
    if name != [] { DigitsConvert(name[1..], n * 10 + (name[0] - 0x30)); }
  }

  lemma {:induction false} IndexIsSmall(name: seq<Byte>, n: nat)
    requires n < WORD32
    ensures ToIndex(name, n) < WORD32
    decreases |name|
  {
    if name != [] {
      var c: int := name[0];
      IndexIsSmall(name[1..], (n * 10 + (c - 0x30) % WORD32) % WORD32);
    }
  }

  /** Canonical numerals get their value exactly when it has 32 bits; names that are none get no index. */
  lemma IndexIsValue(name: seq<Byte>)
    ensures Canonical(name) ==> (Index(name, AllDigits(name)) == Decimal(name, 0) <==> Decimal(name, 0) < WORD32)
    ensures !Canonical(name) ==> Index(name, AllDigits(name)) == 0xFFFF_FFFF
  {
    hide ToIndex, Decimal;
    IndexIsSmall(name, 0);
    if Canonical(name) && Decimal(name, 0) < WORD32 { DigitsConvert(name, 0); }
  }

  /** What the first `k` digits are worth. */
  function Worth(name: seq<Byte>, k: nat): nat
    requires AllDigits(name) && k <= |name|
  {
    Decimal(name[..k], 0)
  }

  /** Some digit takes the number modulo 2^32 below what it was before: the wrap-around the code looks for. */
  ghost predicate Noticed(name: seq<Byte>, from: nat)
    requires AllDigits(name)
  {
    exists k | from <= k < |name| :: Worth(name, k + 1) % WORD32 < Worth(name, k) % WORD32
  }

  lemma {:induction false} DecimalAppend(digits: seq<Byte>, c: Byte, n: nat)
    requires AllDigits(digits + [c])
    ensures AllDigits(digits) && Digit(c) && Decimal(digits + [c], n) == Decimal(digits, n) * 10 + (c - 0x30)
    decreases |digits|
  {
    assert (digits + [c])[|digits|] == c;
    assert forall i | 0 <= i < |digits| :: (digits + [c])[i] == digits[i];
    if digits != [] {
      assert (digits + [c])[1..] == digits[1..] + [c];
      DecimalAppend(digits[1..], c, n * 10 + (digits[0] - 0x30));
    }
  }

  lemma NextDigit(name: seq<Byte>, k: nat)
    requires AllDigits(name) && k < |name|
    ensures Worth(name, k + 1) == Worth(name, k) * 10 + (name[k] - 0x30)
  {
    hide Decimal;
    assert name[..k + 1] == name[..k] + [name[k]];
    DecimalAppend(name[..k], name[k], 0);
  }

  lemma TimesTen(a: nat, d: nat)
    requires d < 10
    ensures (a % WORD32 * 10 + d % WORD32) % WORD32 == (a * 10 + d) % WORD32
  {
    DivMod(a * 10 + d, a / WORD32 * 10 + (a % WORD32 * 10 + d) / WORD32, (a % WORD32 * 10 + d) % WORD32);
  }

  lemma {:induction false} RestConverts(name: seq<Byte>, k: nat)
    requires AllDigits(name) && k <= |name|
    ensures ToIndex(name[k..], Worth(name, k) % WORD32) ==
            if Noticed(name, k) then INVALID_INDEX else Worth(name, |name|) % WORD32
    decreases |name| - k
  {
    hide Worth;
    if k < |name| {
      NextDigit(name, k);
      TimesTen(Worth(name, k), name[k] - 0x30);
      assert name[k..][0] == name[k] && name[k..][1..] == name[k + 1..];
      RestConverts(name, k + 1);
    }
  }

  /** The exact index of every canonical numeral, however large. */
  lemma IndexOfNumeral(name: seq<Byte>)
    requires Canonical(name)
    ensures Index(name, true) == if Noticed(name, 0) then INVALID_INDEX else Decimal(name, 0) % WORD32
  {
    RestConverts(name, 0);
    assert name[0..] == name && name[..|name|] == name;
  }

  /** A numeral too large for an index is recognized as such if and only if its wrap-around is noticed or it is 2^32 - 1 modulo 2^32. */
  lemma LargeNumerals(name: seq<Byte>)
    requires Canonical(name) && Decimal(name, 0) >= INVALID_INDEX
    ensures Index(name, true) == INVALID_INDEX <==> Noticed(name, 0) || Decimal(name, 0) % WORD32 == INVALID_INDEX
  {
    hide ToIndex, Decimal;
    IndexOfNumeral(name);
  }

  function ZeroDigits(k: nat): seq<Byte> { if k == 0 then [] else [ZERO] + ZeroDigits(k - 1) }

  lemma OneMoreZero(k: nat, n: nat)
    requires n * 10 < WORD32
    ensures ToIndex(ZeroDigits(k + 1), n) == ToIndex(ZeroDigits(k), n * 10)
  {
    var zeros := ZeroDigits(k + 1);
    assert zeros[0] == ZERO && zeros[1..] == ZeroDigits(k);
  }

  lemma FirstFive(rest: seq<Byte>)
    ensures ToIndex([0x35] + rest, 0) == ToIndex(rest, 5)
  {
    assert ([0x35] + rest)[1..] == rest;
  }

  lemma LastZero()
    ensures ToIndex(ZeroDigits(1), 500_000_000) == 705032704
  {
    assert ZeroDigits(1) == [ZERO] && ZeroDigits(1)[1..] == [];
    assert ToIndex([], 705032704) == 705032704;
  }

  /** One that is not: 5000000000 gets the index 705032704. */
  lemma UnnoticedWrap()
    ensures Index([0x35] + ZeroDigits(9), true) == 705032704
  {
    hide ToIndex, ZeroDigits;
    FirstFive(ZeroDigits(9));
    OneMoreZero(8, 5);
    OneMoreZero(7, 50);
    OneMoreZero(6, 500);
    OneMoreZero(5, 5_000);
    OneMoreZero(4, 50_000);
    OneMoreZero(3, 500_000);
    OneMoreZero(2, 5_000_000);
    OneMoreZero(1, 50_000_000);
    LastZero();
  }

  // ---------------------------------------------------------------------------------------
  // Indexes of parsed names
  // ---------------------------------------------------------------------------------------

  lemma PieceDigits(s: seq<Byte>, i: nat, uri: bool)
    requires i < |s| && TakePiece(s, i, uri).Piece?
    ensures TakePiece(s, i, uri).digit == AllDigits(TakePiece(s, i, uri).bytes)
  {
    hide Validate, Decode, Run;
    var piece := TakePiece(s, i, uri);
    if uri && s[i] == PERCENT {
      var run := Run(s, i);
      ValidateIsDecode(run);
      DecodeIsGrammar(run);
    }
    assert |piece.bytes| > 0;
    if piece.digit {
      assert piece.bytes == [piece.bytes[0]];
    } else {
      assert !Digit(piece.bytes[0]);
    }
  }

  /** The flag the walk keeps says whether the name has nothing but digits. */
  lemma {:induction false} NameDigits(s: seq<Byte>, i: nat, uri: bool)
    requires TakeName(s, i, uri).Name?
    ensures TakeName(s, i, uri).digits == AllDigits(TakeName(s, i, uri).bytes)
    decreases |s| - i
  {
    hide TakePiece, AllDigits;
    NoDigits();
    if i < |s| && s[i] != SLASH {
      var piece := TakePiece(s, i, uri);
      PieceDigits(s, i, uri);
      NameDigits(s, piece.next, uri);
      var name := TakeName(s, i, uri).bytes;
      DigitsAppend(name, |piece.bytes|);
      assert name[..|piece.bytes|] == piece.bytes && name[|piece.bytes|..] == TakeName(s, piece.next, uri).bytes;
    }
  }

  lemma {:induction false} TokensIndexed(s: seq<Byte>, i: nat, uri: bool, k: nat)
    requires TakeTokens(s, i, uri).Tokens? && k < |TakeTokens(s, i, uri).tokens|
    ensures var t := TakeTokens(s, i, uri).tokens[k]; t.index == Index(t.name, AllDigits(t.name))
    decreases |s| - i
  {
    hide TakeName, Index, AllDigits;
    var name := TakeName(s, i + 1, uri);
    NameDigits(s, i + 1, uri);
    if k > 0 { TokensIndexed(s, name.next, uri, k - 1); }
  }

  /** Every token of every text that parses has the index of its name. */
  lemma ParsedIndexes(s: seq<Byte>, k: nat)
    requires Parse(s).Tokens? && k < |Parse(s).tokens|
    ensures var t := Parse(s).tokens[k]; t.index == Index(t.name, AllDigits(t.name))
  {
    hide TakeTokens, Index, AllDigits;
    var i := if |s| > 0 && s[0] == HASH then 1 else 0;
    TokensIndexed(s, i, i == 1, k);
  }
}
