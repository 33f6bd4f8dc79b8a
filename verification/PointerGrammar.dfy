/**
 The grammar of RFC 6901: how names are spelled in a JSON Pointer, byte by byte, as a string
 and as a URI fragment, and that the parser accepts exactly the strings spelled that way.
 */
module PointerGrammar {
  import opened Bytes
  import opened Options
  import Utf8
  import opened Pointer

  /** Section 2.3 of RFC 3986. */
  predicate Unreserved(c: Byte) {
    0x30 <= c <= 0x39 || 0x41 <= c <= 0x5A || 0x61 <= c <= 0x7A || c == 0x2D || c == 0x2E || c == 0x5F || c == 0x7E
  }

  const UPPER: seq<Byte> := [0x30, 0x31, 0x32, 0x33, 0x34, 0x35, 0x36, 0x37, 0x38, 0x39, 0x41, 0x42, 0x43, 0x44, 0x45, 0x46]

  const LOWER: seq<Byte> := [0x30, 0x31, 0x32, 0x33, 0x34, 0x35, 0x36, 0x37, 0x38, 0x39, 0x61, 0x62, 0x63, 0x64, 0x65, 0x66]

  /** A tilde is spelled ~0, a solidus ~1; in a fragment what is not unreserved, as a triplet. */
  function SpelledByte(c: Byte, uri: bool): seq<Byte> {
    if c == 0x7E then [0x7E, 0x30]
    else if c == 0x2F then [0x7E, 0x31]
    else if uri && !Unreserved(c) then [0x25, UPPER[c / 16], UPPER[c % 16]]
    else [c]
  }

  function Spelled(name: seq<Byte>, uri: bool): seq<Byte> {
    if name == [] then [] else SpelledByte(name[0], uri) + Spelled(name[1..], uri)
  }

  function SpelledAll(names: seq<seq<Byte>>, uri: bool): seq<Byte> {
    if names == [] then [] else [0x2F] + Spelled(names[0], uri) + SpelledAll(names[1..], uri)
  }

  // ---------------------------------------------------------------------------------------
  // Printing
  // ---------------------------------------------------------------------------------------

  lemma {:induction false} SpelledAppend(a: seq<Byte>, b: seq<Byte>, uri: bool)
    ensures Spelled(a + b, uri) == Spelled(a, uri) + Spelled(b, uri)
    decreases |a|
  {
    if a == [] {
      assert a + b == b;
    } else {
      assert (a + b)[1..] == a[1..] + b;
      SpelledAppend(a[1..], b, uri);
    }
  }

  lemma UpperHex(n: nat)
    requires n < 16
    ensures HexDigit(n) == UPPER[n] && HexValue(UPPER[n]) == Some(n) && HexValue(LOWER[n]) == Some(n)
  {
  }

  /** Bytes that all need it are spelled as triplets. */
  lemma {:induction false} TripletsSpell(bytes: seq<Byte>)
    requires forall k | 0 <= k < |bytes| :: !Unreserved(bytes[k]) && bytes[k] != 0x2F
    ensures Percent(bytes) == Spelled(bytes, true)
    decreases |bytes|
  {
    if bytes != [] {
      UpperHex(bytes[0] / 16);
      UpperHex(bytes[0] % 16);
      TripletsSpell(bytes[1..]);
    }
  }

  /** Only characters of one byte have a byte below 0x80. */
  lemma CharactersAreHigh(s: seq<Byte>)
    requires Utf8.Front(s) > 0
    ensures Utf8.Front(s) <= |s| && (s[0] >= 0x80 ==> forall k | 0 <= k < Utf8.Front(s) :: s[k] >= 0x80) && (s[0] < 0x80 ==> Utf8.Front(s) == 1)
  {
  }

  lemma FrontSpells(name: seq<Byte>, uri: bool)
    requires name != [] && (uri ==> Utf8.Front(name) > 0)
    ensures
      var front := PrintFront(name, uri);
      && front.Printed? && front.used <= |name| && (uri ==> front.used == Utf8.Front(name))
      && front.text == Spelled(name[..front.used], uri)
  {
    hide Utf8.Decode, Utf8.Validate, Percent;
    var front := PrintFront(name, uri);
    if uri { CharactersAreHigh(name); }
    if uri && NeedPercentEncode(name[0]) && name[0] != 0x2F {
      Utf8.DecodeIsGrammar(name);
      Utf8.ValidateIsDecode(name);
      TripletsSpell(name[..front.used]);
    } else {
      assert name[..1] == [name[0]];
      assert Spelled([name[0]], uri) == SpelledByte(name[0], uri) + [];
    }
  }

  lemma PrintStep(name: seq<Byte>, uri: bool)
    requires name != [] && PrintFront(name, uri).Printed? && PrintName(name[PrintFront(name, uri).used..], uri).Some?
    ensures
      var front := PrintFront(name, uri);
      PrintName(name, uri) == Some(front.text + PrintName(name[front.used..], uri).value)
  {
    hide PrintFront;
  }

  /** The first character, once the rest is printed. */
  lemma PrintsNext(name: seq<Byte>, uri: bool)
    requires name != [] && PrintFront(name, uri).Printed?
    requires
      var front := PrintFront(name, uri);
      front.text == Spelled(name[..front.used], uri) && PrintName(name[front.used..], uri) == Some(Spelled(name[front.used..], uri))
    ensures PrintName(name, uri) == Some(Spelled(name, uri))
  {
    hide PrintName, PrintFront, Spelled;
    var used := PrintFront(name, uri).used;
    PrintStep(name, uri);
    SpelledAppend(name[..used], name[used..], uri);
    assert name[..used] + name[used..] == name;
  }

  lemma {:induction false} PrintsByByte(name: seq<Byte>, uri: bool)
    requires uri ==> Utf8.WellFormed(name)
    ensures PrintName(name, uri) == Some(Spelled(name, uri))
    decreases |name|
  {
    if name == [] {
      hide Utf8.WellFormed, PrintFront;
    } else {
      hide PrintName, PrintFront, Utf8.Front, Spelled, Utf8.WellFormed;
      if uri { RestIsWellFormed(name); }
      FrontSpells(name, uri);
      PrintsByByte(name[PrintFront(name, uri).used..], uri);
      PrintsNext(name, uri);
    }
  }

  lemma RestIsWellFormed(name: seq<Byte>)
    requires name != [] && Utf8.WellFormed(name)
    ensures Utf8.Front(name) > 0
    ensures PrintFront(name, true).Printed? ==> Utf8.WellFormed(name[PrintFront(name, true).used..])
  {
    hide Utf8.Decode, Utf8.Validate;
    FrontSpells(name, true);
    CharactersAreHigh(name);
  }

  /** What is printed is the spelling, for every list of names that can be printed. */
  lemma {:induction false} PrintsTheSpelling(names: seq<seq<Byte>>, uri: bool)
    requires uri ==> forall i | 0 <= i < |names| :: Utf8.WellFormed(names[i])
    ensures PrintNames(names, uri) == Some(SpelledAll(names, uri))
    ensures Stringify(names, uri) == Some((if uri then [0x23] else []) + SpelledAll(names, uri))
    decreases |names|
  {
    hide PrintName, Spelled, Utf8.WellFormed;
    if names != [] {
      PrintsByByte(names[0], uri);
      assert forall i | 0 <= i < |names| - 1 :: names[1..][i] == names[i + 1];
      PrintsTheSpelling(names[1..], uri);
    }
  }

  // ---------------------------------------------------------------------------------------
  // Parsing the string form
  // ---------------------------------------------------------------------------------------

  lemma OneByte(c: Byte)
    ensures Spelled([c], false) == SpelledByte(c, false)
  {
    assert [c][1..] == [];
    assert SpelledByte(c, false) + [] == SpelledByte(c, false);
  }

  /** One turn of the loop takes what spells one byte. */
  lemma PieceIsSpelled(s: seq<Byte>, i: nat)
    requires i < |s| && s[i] != SLASH
    ensures
      var p := TakePiece(s, i, false);
      && (p.Piece? ==> |p.bytes| == 1 && i < p.next <= |s| && s[i..p.next] == Spelled(p.bytes, false))
      && (p.Bad? ==> BadTilde(s, p.error, p.offset))
  {
    var p := TakePiece(s, i, false);
    if p.Piece? {
      OneByte(p.bytes[0]);
      assert p.bytes == [p.bytes[0]];
      assert s[i..p.next] == SpelledByte(p.bytes[0], false);
    }
  }

  /** A name is taken from the text that spells it, up to the next solidus. */
  lemma {:induction false} NameIsSpelled(s: seq<Byte>, i: nat)
    requires i <= |s|
    ensures
      var r := TakeName(s, i, false);
      && (r.Name? ==> i <= r.next <= |s| && s[i..r.next] == Spelled(r.bytes, false) && (r.next < |s| ==> s[r.next] == 0x2F))
      && (r.BadName? ==> BadTilde(s, r.error, r.offset))
    decreases |s| - i
  {
    hide TakePiece, BadTilde;
    if i < |s| && s[i] != SLASH {
      hide Spelled;
      var p := TakePiece(s, i, false);
      PieceIsSpelled(s, i);
      if p.Piece? {
        NameIsSpelled(s, p.next);
        var rest := TakeName(s, p.next, false);
        if rest.Name? {
          SpelledAppend(p.bytes, rest.bytes, false);
          assert s[i..rest.next] == s[i..p.next] + s[p.next..rest.next];
        }
      }
    } else {
      assert s[i..i] == [] == Spelled([], false);
    }
  }

  /** The error is a tilde that neither 0 nor 1 follows, right before the offset. */
  predicate BadTilde(s: seq<Byte>, error: Error, offset: nat) {
    && error == InvalidEscape && 1 <= offset <= |s| && s[offset - 1] == 0x7E
    && (offset < |s| ==> s[offset] != 0x30 && s[offset] != 0x31)
  }

  function Names(tokens: seq<Token>): (r: seq<seq<Byte>>)
    ensures |r| == |tokens| && forall i | 0 <= i < |tokens| :: r[i] == tokens[i].name
  {
    seq(|tokens|, i requires 0 <= i < |tokens| => tokens[i].name)
  }

  lemma {:induction false} TokensAreSpelled(s: seq<Byte>, i: nat)
    requires i <= |s| && (i < |s| ==> s[i] == 0x2F)
    ensures
      var r := TakeTokens(s, i, false);
      && (r.Tokens? ==> s[i..] == SpelledAll(Names(r.tokens), false))
      && (r.Failed? ==> BadTilde(s, r.error, r.offset))
    decreases |s| - i
  {
    hide TakeName, Spelled, BadTilde;
    if i < |s| {
      NameIsSpelled(s, i + 1);
      var n := TakeName(s, i + 1, false);
      if n.Name? {
        TokensAreSpelled(s, n.next);
        var rest := TakeTokens(s, n.next, false);
        if rest.Tokens? {
          var all := TakeTokens(s, i, false).tokens;
          assert Names(all)[1..] == Names(rest.tokens);
          assert s[i..] == [0x2F] + s[i + 1..n.next] + s[n.next..];
        }
      }
    }
  }

  /**
   The string form: a text is accepted if and only if it spells some list of names, and then
   it is parsed to these names; else the offset points right behind a bad tilde, or the text
   does not begin with a solidus.
   */
  lemma AcceptsTheGrammar(s: seq<Byte>)
    requires s == [] || s[0] != 0x23
    ensures Parse(s).Tokens? <==> exists names :: SpelledAll(names, false) == s
    ensures forall names | SpelledAll(names, false) == s :: Parse(s) == Tokens(Indexed(names))
    ensures Parse(s).Failed? ==>
              || (Parse(s) == Failed(TokenMustBeginWithSolidus, 0) && s != [] && s[0] != 0x2F)
              || BadTilde(s, Parse(s).error, Parse(s).offset)
  {
    hide TakeTokens, BadTilde;
    if s == [] || s[0] == 0x2F {
      TokensAreSpelled(s, 0);
      assert s[0..] == s;
    }
    if Parse(s).Tokens? { assert SpelledAll(Names(Parse(s).tokens), false) == s; }
    forall names | SpelledAll(names, false) == s ensures Parse(s) == Tokens(Indexed(names)) {
      PrintsTheSpelling(names, false);
      assert [] + SpelledAll(names, false) == s;
      PrintedParses(names, false);
    }
  }

  // ---------------------------------------------------------------------------------------
  // Parsing the fragment form
  // ---------------------------------------------------------------------------------------

  /** A triplet stands for its byte, with digits of either case. */
  lemma TripletsExactly(b: Byte)
    ensures Triplet([0x25, UPPER[b / 16], UPPER[b % 16]], 0) == Some(b)
    ensures Triplet([0x25, LOWER[b / 16], LOWER[b % 16]], 0) == Some(b)
  {
    UpperHex(b / 16);
    UpperHex(b % 16);
  }

  /** The bytes a fragment may hold. */
  predicate FragmentByte(c: Byte) { Unreserved(c) || c == 0x2F || c == 0x25 }

  ghost predicate FragmentText(s: seq<Byte>, i: nat, j: nat)
    requires i <= j <= |s|
  {
    forall k | i <= k < j :: FragmentByte(s[k])
  }

  lemma TripletIsFragment(s: seq<Byte>, i: nat)
    requires Triplet(s, i).Some?
    ensures i + 3 <= |s| && FragmentText(s, i, i + 3)
  {
  }

  lemma {:induction false} RunIsFragment(s: seq<Byte>, i: nat, n: nat)
    requires n <= |Run(s, i)|
    ensures i <= |s| ==> i + 3 * n <= |s| && FragmentText(s, i, i + 3 * n)
    decreases n
  {
    hide Triplet, FragmentByte;
    if n > 0 {
      TripletIsFragment(s, i);
      RunIsFragment(s, i + 3, n - 1);
    }
  }

  lemma PieceIsFragment(s: seq<Byte>, i: nat)
    requires i < |s| && s[i] != SLASH && TakePiece(s, i, true).Piece?
    ensures FragmentText(s, i, TakePiece(s, i, true).next)
  {
    hide Run, Triplet, Utf8.Validate, Utf8.Decode;
    if s[i] == PERCENT {
      var run := Run(s, i);
      Utf8.ValidateIsDecode(run);
      RunIsFragment(s, i, |Utf8.Validate(run).copied|);
      RunIsFragment(s, i, 1);
    }
  }

  lemma {:induction false} NameIsFragment(s: seq<Byte>, i: nat)
    requires i <= |s| && TakeName(s, i, true).Name?
    ensures FragmentText(s, i, TakeName(s, i, true).next)
    decreases |s| - i
  {
    hide TakePiece, FragmentByte;
    if i < |s| && s[i] != SLASH {
      PieceIsFragment(s, i);
      NameIsFragment(s, TakePiece(s, i, true).next);
    }
  }

  lemma {:induction false} TokensAreFragment(s: seq<Byte>, i: nat)
    requires i <= |s| && (i < |s| ==> s[i] == 0x2F) && TakeTokens(s, i, true).Tokens?
    ensures FragmentText(s, i, |s|)
    decreases |s| - i
  {
    hide TakeName;
    if i < |s| {
      var n := TakeName(s, i + 1, true);
      NameIsFragment(s, i + 1);
      assert n.next < |s| ==> s[n.next] == 0x2F by { NameStops(s, i + 1, true); }
      TokensAreFragment(s, n.next);
    }
  }

  lemma {:induction false} NameStops(s: seq<Byte>, i: nat, uri: bool)
    requires i <= |s| && TakeName(s, i, uri).Name?
    ensures TakeName(s, i, uri).next < |s| ==> s[TakeName(s, i, uri).next] == 0x2F
    decreases |s| - i
  {
    hide TakePiece;
    if i < |s| && s[i] != SLASH { NameStops(s, TakePiece(s, i, uri).next, uri); }
  }

  /** A fragment that is accepted holds nothing that RFC 3986 wants written as a triplet. */
  lemma FragmentsAreUris(s: seq<Byte>)
    requires s != [] && s[0] == 0x23 && Parse(s).Tokens?
    ensures forall k | 1 <= k < |s| :: Unreserved(s[k]) || s[k] == 0x2F || s[k] == 0x25
  {
    hide TakeTokens;
    TokensAreFragment(s, 1);
  }
}
