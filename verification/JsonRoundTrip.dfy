/**
 Writing a value, reading the text back and building a value from the events gives the same
 value, at any depth: the writer, either reader and the document builder together are the
 identity.
 */
module JsonRoundTrip {
  import opened Bytes
  import opened JsonScalars
  import opened JsonInteger
  import opened JsonReader
  import W = JsonWriter

  type Value = W.Value

  /** Numbers of 64 bits, and fewer than 2^32 items in every array and object. */
  predicate Representable(v: Value) {
    match v
    case Number(n) => -0x8000_0000_0000_0000 <= n < 0x1_0000_0000_0000_0000
    case Arr(es) => |es| < WORD32 && forall e | e in es :: Representable(e)
    case Obj(ms) => |ms| < WORD32 && forall m | m in ms :: Representable(m.value)
    case _ => true
  }

  // ---------------------------------------------------------------------------------------
  // What the reader reports for the text of a value
  // ---------------------------------------------------------------------------------------

  function Magnitude(n: int): nat { if n < 0 then -n else n }

  function Heard(v: Value): seq<Event>
    decreases v, 1
  {
    match v
    case NullValue => [Null]
    case BoolValue(b) => [Bool(b)]
    case Number(n) => [IntegerEvent(n < 0, Magnitude(n))]
    case Str(s) => [String(s)]
    case Arr(es) => [StartArray] + (HeardElements(es) + [EndArray(|es|)])
    case Obj(ms) => [StartObject] + (HeardMembers(ms) + [EndObject(|ms|)])
  }

  function HeardElements(es: seq<Value>): seq<Event>
    decreases es, 0
  {
    if es == [] then [] else Heard(es[0]) + HeardElements(es[1..])
  }

  function HeardMembers(ms: seq<W.Member>): seq<Event>
    decreases ms, 0
  {
    if ms == [] then [] else [Key(ms[0].name)] + (Heard(ms[0].value) + HeardMembers(ms[1..]))
  }

  // ---------------------------------------------------------------------------------------
  // Text at a position
  // ---------------------------------------------------------------------------------------

  predicate At(t: string, i: nat, s: string) {
    i + |s| <= |t| && t[i..i + |s|] == s
  }

  lemma AtSplit(t: string, i: nat, a: string, b: string)
    requires At(t, i, a + b)
    ensures At(t, i, a) && At(t, i + |a|, b)
  {
    assert t[i..i + |a|] == (a + b)[..|a|] == a;
    assert t[i + |a|..i + |a| + |b|] == (a + b)[|a|..] == b;
  }

  lemma AtFirst(t: string, i: nat, s: string)
    requires At(t, i, s) && s != ""
    ensures Peek(t, i) == s[0]
  {
    assert t[i..i + |s|][0] == t[i];
  }

  // ---------------------------------------------------------------------------------------
  // Scalars
  // ---------------------------------------------------------------------------------------

  lemma AtEach(t: string, i: nat, s: string, k: nat)
    requires At(t, i, s) && k < |s|
    ensures Peek(t, i + k) == s[k]
  {
    assert t[i..i + |s|][k] == t[i + k];
  }

  /** A control character written as \u00XX. */
  lemma ReadControl(t: string, i: nat, c: char)
    requires c as int < 0x20 && At(t, i, W.EscapeChar(c)) && W.EscapeLetter(c) == 'u'
    ensures ParseHex4(t, i + 2) == Hex(c as int)
  {
    var u := W.EscapeChar(c);
    AtEach(t, i, u, 2);
    AtEach(t, i, u, 3);
    AtEach(t, i, u, 4);
    AtEach(t, i, u, 5);
    ReadHex(c as int / 16);
    ReadHex(c as int % 16);
  }

  /** One character, escaped or not, reads back as itself. */
  lemma ReadChar(t: string, i: nat, c: char)
    requires At(t, i, W.EscapeChar(c))
    ensures ParseUnit(t, i) == Text(i + |W.EscapeChar(c)|, [c])
    ensures Peek(t, i) != '"'
  {
    hide ParseHex4, At, W.HexChar;
    var u := W.EscapeChar(c);
    AtEach(t, i, u, 0);
    if |u| > 1 { AtEach(t, i, u, 1); }
    if |u| == 6 { ReadControl(t, i, c); }
  }

  lemma ReadHex(d: nat)
    requires d < 16
    ensures HexDigit(W.HexChar(d)) == Hex(d)
  {
  }

  lemma {:induction false} ReadChars(t: string, i: nat, s: string)
    requires At(t, i, W.Escape(s) + "\"")
    ensures ParseChars(t, i) == Text(i + |W.Escape(s)| + 1, s)
    decreases |s|
  {
    hide ParseUnit, W.EscapeChar;
    if s == "" {
      AtFirst(t, i, "\"");
    } else {
      var u, rest := W.EscapeChar(s[0]), W.Escape(s[1..]);
      assert W.Escape(s) + "\"" == u + (rest + "\"");
      AtSplit(t, i, u, rest + "\"");
      ReadChar(t, i, s[0]);
      ReadChars(t, i + |u|, s[1..]);
      assert [s[0]] + s[1..] == s;
    }
  }

  lemma ReadQuoted(t: string, i: nat, s: string, isKey: bool)
    requires At(t, i, W.Quote(s))
    ensures Peek(t, i) == '"'
    ensures ParseString(t, i, isKey) == Good(i + |W.Quote(s)|, if isKey then Key(s) else String(s))
  {
    assert W.Quote(s) == "\"" + (W.Escape(s) + "\"");
    AtFirst(t, i, W.Quote(s));
    AtSplit(t, i, "\"", W.Escape(s) + "\"");
    ReadChars(t, i + 1, s);
  }

  lemma {:induction false} ValueOfDigits(n: nat)
    ensures DigitsValue(0, W.Digits(n)) == n
    ensures W.Digits(n)[0] == '0' ==> n == 0 && |W.Digits(n)| == 1
  {
    if n < 10 {
      assert W.Digits(n)[1..] == "";
    } else {
      ValueOfDigits(n / 10);
      ValueAppend(0, W.Digits(n / 10), W.DigitChar(n % 10));
    }
  }

  lemma {:induction false} ValueAppend(acc: nat, ds: string, c: char)
    requires IsDigit(c) && forall k | 0 <= k < |ds| :: IsDigit(ds[k])
    ensures DigitsValue(acc, ds + [c]) == DigitsValue(acc, ds) * 10 + DigitValue(c)
    decreases |ds|
  {
    if ds == "" {
      assert (ds + [c])[1..] == "";
    } else {
      assert (ds + [c])[1..] == ds[1..] + [c];
      ValueAppend(acc * 10 + DigitValue(ds[0]), ds[1..], c);
    }
  }

  /** What may follow a value in the text of a larger one. */
  predicate Delimits(c: char) { c == NUL || c == ',' || c == ']' || c == '}' }

  lemma ReadDecimal(t: string, i: nat, n: int)
    requires Representable(W.Number(n)) && At(t, i, W.Decimal(n)) && Delimits(Peek(t, i + |W.Decimal(n)|))
    ensures ParseNumber(t, i) == Good(i + |W.Decimal(n)|, IntegerEvent(n < 0, Magnitude(n)))
    ensures IsDigit(Peek(t, i)) || Peek(t, i) == '-'
  {
    hide ParseNumber, W.Digits;
    var ds := W.Digits(Magnitude(n));
    var j := if n < 0 then i + 1 else i;
    AtFirst(t, i, W.Decimal(n));
    if n < 0 { AtSplit(t, i, "-", ds); }
    AtFirst(t, j, ds);
    ValueOfDigits(Magnitude(n));
    var e := j + |ds|;
    forall k | j <= k < e ensures IsDigit(t[k]) { assert t[k] == ds[k - j]; }
    IntegersAreExact(t, i, n < 0, e);
  }

  // ---------------------------------------------------------------------------------------
  // Values
  // ---------------------------------------------------------------------------------------

  lemma SkipNothing(t: string, i: nat)
    requires i <= |t| && !IsSpace(Peek(t, i))
    ensures Skip(t, i) == i
  {
  }

  /** The text of a value starts with a character that neither is white space nor closes anything. */
  lemma StartsValue(v: Value)
    ensures W.Print(v) != ""
    ensures !IsSpace(W.Print(v)[0]) && !Delimits(W.Print(v)[0])
  {
  }

  lemma ReadScalar(t: string, i: nat, v: Value)
    requires Representable(v) && At(t, i, W.Print(v)) && Delimits(Peek(t, i + |W.Print(v)|)) && !v.Arr? && !v.Obj?
    ensures ParseValue(t, i) == Parsed(true, i + |W.Print(v)|, Heard(v))
  {
    hide ParseString, ParseNumber, W.Decimal, W.Quote;
    match v
    case Number(n) => ReadDecimal(t, i, n);
    case Str(s) => ReadQuoted(t, i, s, false);
    case _ => AtFirst(t, i, W.Print(v));
  }

  lemma {:induction false} ReadValue(t: string, i: nat, v: Value)
    requires Representable(v) && At(t, i, W.Print(v)) && Delimits(Peek(t, i + |W.Print(v)|))
    ensures ParseValue(t, i) == Parsed(true, i + |W.Print(v)|, Heard(v))
    decreases v, 1
  {
    match v
    case Arr(es) => ReadArray(t, i, es);
    case Obj(ms) => ReadObject(t, i, ms);
    case _ => ReadScalar(t, i, v);
  }

  /** The rest of an array behind its first `count` elements: a comma and an element, or the bracket. */
  function ElementsTail(es: seq<Value>): string { W.PrintElements(es, false) + "]" }

  lemma ReadEmpty(t: string, i: nat, open: char, close: char)
    requires At(t, i, [open, close]) && ((open == '[' && close == ']') || (open == '{' && close == '}'))
    ensures ParseValue(t, i) ==
            Parsed(true, i + 2, if open == '[' then [StartArray, EndArray(0)] else [StartObject, EndObject(0)])
  {
    hide ParseElements, ParseMembers;
    AtEach(t, i, [open, close], 0);
    AtEach(t, i, [open, close], 1);
    SkipNothing(t, i + 1);
  }

  lemma {:induction false} ReadArray(t: string, i: nat, es: seq<Value>)
    requires Representable(W.Arr(es)) && At(t, i, W.Print(W.Arr(es)))
    ensures ParseValue(t, i) == Parsed(true, i + |W.Print(W.Arr(es))|, Heard(W.Arr(es)))
    decreases es, 2
  {
    hide ParseElements, ElementsTail, At;
    if es == [] {
      assert W.Print(W.Arr(es)) == "[]" && Heard(W.Arr(es)) == [StartArray, EndArray(0)];
      ReadEmpty(t, i, '[', ']');
    } else {
      ArrayText(es);
      AtFirst(t, i, W.Print(W.Arr(es)));
      AtSplit(t, i, "[", W.Print(es[0]) + ElementsTail(es[1..]));
      StartsAt(t, i + 1, es[0], ElementsTail(es[1..]));
      ReadElements(t, i + 1, es, 0);
    }
  }

  lemma ArrayText(es: seq<Value>)
    requires es != []
    ensures W.Print(W.Arr(es)) == "[" + (W.Print(es[0]) + ElementsTail(es[1..]))
  {
    assert W.PrintElements(es, true) == W.Print(es[0]) + W.PrintElements(es[1..], false);
  }

  /** A value with something behind it: no white space in front, no closing bracket. */
  lemma StartsAt(t: string, i: nat, v: Value, rest: string)
    requires At(t, i, W.Print(v) + rest)
    ensures At(t, i, W.Print(v)) && At(t, i + |W.Print(v)|, rest)
    ensures Skip(t, i) == i && !Delimits(Peek(t, i))
  {
    hide W.Print;
    StartsValue(v);
    AtSplit(t, i, W.Print(v), rest);
    AtFirst(t, i, W.Print(v));
    SkipNothing(t, i);
  }

  lemma TailText(es: seq<Value>)
    ensures ElementsTail(es) == if es == [] then "]" else "," + (W.Print(es[0]) + ElementsTail(es[1..]))
  {
    hide W.Print;
  }

  /** What follows an element delimits it, and only that: a comma or the closing bracket. */
  lemma TailAt(t: string, i: nat, es: seq<Value>)
    requires At(t, i, ElementsTail(es))
    ensures Peek(t, i) == (if es == [] then ']' else ',') && Skip(t, i) == i
    ensures es != [] ==> At(t, i + 1, W.Print(es[0]) + ElementsTail(es[1..]))
  {
    hide W.Print, ElementsTail;
    TailText(es);
    AtFirst(t, i, ElementsTail(es));
    SkipNothing(t, i);
    if es != [] { AtSplit(t, i, ",", W.Print(es[0]) + ElementsTail(es[1..])); }
  }

  lemma {:induction false} ReadElements(t: string, i: nat, es: seq<Value>, count: nat)
    requires es != [] && count + |es| < WORD32 && forall e | e in es :: Representable(e)
    requires At(t, i, W.Print(es[0]) + ElementsTail(es[1..]))
    ensures ParseElements(t, i, count) ==
            Parsed(true, i + |W.Print(es[0]) + ElementsTail(es[1..])|, HeardElements(es) + [EndArray(count + |es|)])
    decreases es, 0
  {
    hide ParseValue, W.Print, ElementsTail, Heard, AfterElement, Representable, At;
    var j := i + |W.Print(es[0])|;
    StartsAt(t, i, es[0], ElementsTail(es[1..]));
    TailAt(t, j, es[1..]);
    ReadValue(t, i, es[0]);
    ReadTail(t, j, es[1..], count);
    Associate(Heard(es[0]), HeardElements(es[1..]), [EndArray(count + |es|)]);
  }

  lemma {:induction false} ReadTail(t: string, i: nat, es: seq<Value>, count: nat)
    requires count + 1 + |es| < WORD32 && forall e | e in es :: Representable(e)
    requires At(t, i, ElementsTail(es))
    ensures AfterElement(t, i, count) ==
            Parsed(true, i + |ElementsTail(es)|, HeardElements(es) + [EndArray(count + 1 + |es|)])
    decreases es, 1
  {
    hide ParseElements, W.Print, ElementsTail, Representable, At;
    TailAt(t, i, es);
    TailText(es);
    if es != [] {
      StartsAt(t, i + 1, es[0], ElementsTail(es[1..]));
      ReadElements(t, i + 1, es, count + 1);
    }
  }

  // Objects

  function MembersTail(ms: seq<W.Member>): string { W.PrintMembers(ms, false) + "}" }

  function MemberText(m: W.Member): string { W.Quote(m.name) + (":" + W.Print(m.value)) }

  lemma {:induction false} ReadObject(t: string, i: nat, ms: seq<W.Member>)
    requires Representable(W.Obj(ms)) && At(t, i, W.Print(W.Obj(ms)))
    ensures ParseValue(t, i) == Parsed(true, i + |W.Print(W.Obj(ms))|, Heard(W.Obj(ms)))
    decreases ms, 2
  {
    hide ParseMembers, MembersTail, MemberText, At;
    if ms == [] {
      assert W.Print(W.Obj(ms)) == "{}" && Heard(W.Obj(ms)) == [StartObject, EndObject(0)];
      ReadEmpty(t, i, '{', '}');
    } else {
      ObjectText(ms);
      AtFirst(t, i, W.Print(W.Obj(ms)));
      AtSplit(t, i, "{", MemberText(ms[0]) + MembersTail(ms[1..]));
      NameAt(t, i + 1, ms[0], MembersTail(ms[1..]));
      ReadMembers(t, i + 1, ms, 0);
    }
  }

  lemma ObjectText(ms: seq<W.Member>)
    requires ms != []
    ensures W.Print(W.Obj(ms)) == "{" + (MemberText(ms[0]) + MembersTail(ms[1..]))
  {
    hide W.Quote;
    assert W.PrintMembers(ms, true) == MemberText(ms[0]) + W.PrintMembers(ms[1..], false);
  }

  lemma MembersTailText(ms: seq<W.Member>)
    ensures MembersTail(ms) == if ms == [] then "}" else "," + (MemberText(ms[0]) + MembersTail(ms[1..]))
  {
    hide W.Print, W.Quote;
  }

  /** A member with something behind it: its name, a colon, its value. */
  lemma NameAt(t: string, i: nat, m: W.Member, rest: string)
    requires At(t, i, MemberText(m) + rest)
    ensures At(t, i, W.Quote(m.name)) && Peek(t, i) == '"' && Skip(t, i) == i
    ensures
      var j := i + |W.Quote(m.name)|;
      && Peek(t, j) == ':' && Skip(t, j) == j
      && At(t, j + 1, W.Print(m.value) + rest)
  {
    hide W.Print;
    var name, value := W.Quote(m.name), W.Print(m.value);
    assert MemberText(m) + rest == name + (":" + (value + rest));
    AtSplit(t, i, name, ":" + (value + rest));
    AtFirst(t, i, name);
    SkipNothing(t, i);
    var j := i + |name|;
    AtSplit(t, j, ":", value + rest);
    AtFirst(t, j, ":");
    SkipNothing(t, j);
  }

  lemma ReadName(t: string, i: nat, m: W.Member, rest: string)
    requires At(t, i, MemberText(m) + rest)
    ensures ParseName(t, i) == Parsed(true, i + |W.Quote(m.name)| + 1, [Key(m.name)])
  {
    hide W.Print, W.Quote, At, ParseString;
    NameAt(t, i, m, rest);
    ReadQuoted(t, i, m.name, true);
    StartsAt(t, i + |W.Quote(m.name)| + 1, m.value, rest);
  }

  lemma MembersTailAt(t: string, i: nat, ms: seq<W.Member>)
    requires At(t, i, MembersTail(ms))
    ensures Peek(t, i) == (if ms == [] then '}' else ',') && Skip(t, i) == i
    ensures ms != [] ==> At(t, i + 1, MemberText(ms[0]) + MembersTail(ms[1..]))
  {
    hide MemberText, MembersTail;
    MembersTailText(ms);
    AtFirst(t, i, MembersTail(ms));
    SkipNothing(t, i);
    if ms != [] { AtSplit(t, i, ",", MemberText(ms[0]) + MembersTail(ms[1..])); }
  }

  lemma {:induction false} ReadMembers(t: string, i: nat, ms: seq<W.Member>, count: nat)
    requires ms != [] && count + |ms| < WORD32 && forall m | m in ms :: Representable(m.value)
    requires At(t, i, MemberText(ms[0]) + MembersTail(ms[1..]))
    ensures ParseMembers(t, i, count) ==
            Parsed(true, i + |MemberText(ms[0]) + MembersTail(ms[1..])|, HeardMembers(ms) + [EndObject(count + |ms|)])
    decreases ms, 0
  {
    hide ParseName, ParseMemberValue, W.Print, W.Quote, MembersTail, Heard, Representable, At;
    var m := ms[0];
    ReadName(t, i, m, MembersTail(ms[1..]));
    NameAt(t, i, m, MembersTail(ms[1..]));
    ReadMember(t, i + |W.Quote(m.name)| + 1, ms, count);
    Associate([Key(m.name)], Heard(m.value) + HeardMembers(ms[1..]), [EndObject(count + |ms|)]);
  }

  lemma {:induction false} ReadMember(t: string, i: nat, ms: seq<W.Member>, count: nat)
    requires ms != [] && count + |ms| < WORD32 && forall m | m in ms :: Representable(m.value)
    requires At(t, i, W.Print(ms[0].value) + MembersTail(ms[1..]))
    ensures ParseMemberValue(t, i, count) ==
            Parsed(true, i + |W.Print(ms[0].value) + MembersTail(ms[1..])|,
                   Heard(ms[0].value) + HeardMembers(ms[1..]) + [EndObject(count + |ms|)])
    decreases ms, 0, 0
  {
    hide ParseValue, W.Print, MembersTail, Heard, HeardMembers, AfterMember, Representable, At;
    var v := ms[0].value;
    var j := i + |W.Print(v)|;
    StartsAt(t, i, v, MembersTail(ms[1..]));
    MembersTailAt(t, j, ms[1..]);
    ReadValue(t, i, v);
    ReadMembersTail(t, j, ms[1..], count);
    Associate(Heard(v), HeardMembers(ms[1..]), [EndObject(count + |ms|)]);
  }

  lemma {:induction false} ReadMembersTail(t: string, i: nat, ms: seq<W.Member>, count: nat)
    requires count + 1 + |ms| < WORD32 && forall m | m in ms :: Representable(m.value)
    requires At(t, i, MembersTail(ms))
    ensures AfterMember(t, i, count) ==
            Parsed(true, i + |MembersTail(ms)|, HeardMembers(ms) + [EndObject(count + 1 + |ms|)])
    decreases ms, 1
  {
    hide ParseMembers, MemberText, MembersTail, Representable, At;
    MembersTailAt(t, i, ms);
    MembersTailText(ms);
    if ms != [] {
      NameAt(t, i + 1, ms[0], MembersTail(ms[1..]));
      ReadMembers(t, i + 1, ms, count + 1);
    }
  }

  /** Reading the text of a value accepts it and reports the value's events. */
  lemma ReadPrinted(v: Value)
    requires Representable(v)
    ensures Parse(W.Print(v)) == Outcome(true, Heard(v))
  {
    hide ParseValue, W.Print, Heard, Representable;
    var t := W.Print(v);
    assert t[0..|t|] == t;
    StartsValue(v);
    AtFirst(t, 0, t);
    SkipNothing(t, 0);
    ReadValue(t, 0, v);
    SkipNothing(t, |t|);
  }

  // ---------------------------------------------------------------------------------------
  // The document builds values on a stack
  // ---------------------------------------------------------------------------------------

  predicate Alternates(vs: seq<Value>) {
    vs == [] || (|vs| >= 2 && vs[0].Str? && Alternates(vs[2..]))
  }

  /** Names and values alternating on the stack become members. */
  function Pairs(vs: seq<Value>): seq<W.Member>
    requires Alternates(vs)
  {
    if vs == [] then [] else [W.Member(vs[0].s, vs[1])] + Pairs(vs[2..])
  }

  /** The stack holds what the end of an array or object pops, and below it the value it fills. */
  predicate Builds(stack: seq<Value>, e: Event) {
    match e
    case EndArray(n) => |stack| > n
    case EndObject(n) => |stack| > 2 * n && Alternates(stack[|stack| - 2 * n..])
    case Double(_, _, _) => false
    case _ => true
  }

  function Build(stack: seq<Value>, e: Event): seq<Value>
    requires Builds(stack, e)
  {
    match e
    case Null => stack + [W.NullValue]
    case Bool(b) => stack + [W.BoolValue(b)]
    case Int(n) => stack + [W.Number(n)]
    case Uint(n) => stack + [W.Number(n)]
    case Int64(n) => stack + [W.Number(n)]
    case Uint64(n) => stack + [W.Number(n)]
    case String(s) => stack + [W.Str(s)]
    case Key(s) => stack + [W.Str(s)]
    case StartArray => stack + [W.Arr([])]
    case StartObject => stack + [W.Obj([])]
    case EndArray(n) =>
      var k := |stack| - n;
      stack[..k - 1] + [W.Arr(stack[k..])]
    case EndObject(n) =>
      var k := |stack| - 2 * n;
      stack[..k - 1] + [W.Obj(Pairs(stack[k..]))]
  }

  predicate BuildsAll(stack: seq<Value>, es: seq<Event>)
    decreases |es|
  {
    es == [] || (Builds(stack, es[0]) && BuildsAll(Build(stack, es[0]), es[1..]))
  }

  function BuildAll(stack: seq<Value>, es: seq<Event>): seq<Value>
    requires BuildsAll(stack, es)
    decreases |es|
  {
    if es == [] then stack else BuildAll(Build(stack, es[0]), es[1..])
  }

  /** Events `es` are handled on `stack` and leave `result`. */
  predicate Yields(stack: seq<Value>, es: seq<Event>, result: seq<Value>) {
    BuildsAll(stack, es) && BuildAll(stack, es) == result
  }

  lemma {:induction false} YieldsAppend(s: seq<Value>, a: seq<Event>, m: seq<Value>, b: seq<Event>, n: seq<Value>)
    requires Yields(s, a, m) && Yields(m, b, n)
    ensures Yields(s, a + b, n)
    decreases |a|
  {
    hide Builds, Build;
    if a == [] {
      assert a + b == b;
    } else {
      YieldsAppend(Build(s, a[0]), a[1..], m, b, n);
      assert (a + b)[1..] == a[1..] + b;
    }
  }

  lemma YieldsOne(s: seq<Value>, e: Event)
    requires Builds(s, e)
    ensures Yields(s, [e], Build(s, e))
  {
    hide Builds, Build;
    assert BuildsAll(Build(s, e), []) && BuildAll(Build(s, e), []) == Build(s, e);
    assert [e][1..] == [];
  }

  lemma {:induction false} BuildValue(s: seq<Value>, v: Value)
    ensures Yields(s, Heard(v), s + [v])
    decreases v, 1
  {
    hide Yields;
    match v
    case Arr(es) => BuildArray(s, es);
    case Obj(ms) => BuildObject(s, ms);
    case _ => YieldsOne(s, Heard(v)[0]);
  }

  lemma {:induction false} BuildArray(s: seq<Value>, es: seq<Value>)
    ensures Yields(s, Heard(W.Arr(es)), s + [W.Arr(es)])
    decreases es, 2
  {
    hide Yields, HeardElements;
    var p := s + [W.Arr([])];
    YieldsOne(s, StartArray);
    BuildElements(p, es);
    YieldsOne(p + es, EndArray(|es|));
    Unstack(s, W.Arr([]), es);
    YieldsAppend(p, HeardElements(es), p + es, [EndArray(|es|)], s + [W.Arr(es)]);
    YieldsAppend(s, [StartArray], p, HeardElements(es) + [EndArray(|es|)], s + [W.Arr(es)]);
  }

  lemma {:induction false} BuildElements(s: seq<Value>, es: seq<Value>)
    ensures Yields(s, HeardElements(es), s + es)
    decreases es, 0
  {
    hide Heard;
    if es == [] {
      assert s + es == s;
    } else {
      BuildValue(s, es[0]);
      BuildElements(s + [es[0]], es[1..]);
      assert s + [es[0]] + es[1..] == s + es;
      YieldsAppend(s, Heard(es[0]), s + [es[0]], HeardElements(es[1..]), s + es);
    }
  }

  /** The stack form of members. */
  function Flat(ms: seq<W.Member>): (r: seq<Value>)
    ensures |r| == 2 * |ms|
  {
    if ms == [] then [] else [W.Str(ms[0].name), ms[0].value] + Flat(ms[1..])
  }

  lemma {:induction false} PairsOfFlat(ms: seq<W.Member>)
    ensures Alternates(Flat(ms)) && Pairs(Flat(ms)) == ms
  {
    if ms != [] {
      PairsOfFlat(ms[1..]);
      assert Flat(ms)[2..] == Flat(ms[1..]);
    }
  }

  lemma {:induction false} BuildObject(s: seq<Value>, ms: seq<W.Member>)
    ensures Yields(s, Heard(W.Obj(ms)), s + [W.Obj(ms)])
    decreases ms, 2
  {
    hide Yields, HeardMembers, Flat, Pairs, Builds, Build, Alternates;
    var p, f := s + [W.Obj([])], Flat(ms);
    YieldsStart(s);
    BuildMembers(p, ms);
    PairsOfFlat(ms);
    EndsObject(s, W.Obj([]), f, p + f, |ms|);
    YieldsOne(p + f, EndObject(|ms|));
    YieldsAppend(p, HeardMembers(ms), p + f, [EndObject(|ms|)], s + [W.Obj(ms)]);
    YieldsAppend(s, [StartObject], p, HeardMembers(ms) + [EndObject(|ms|)], s + [W.Obj(ms)]);
  }

  /** The end of an object replaces the value it fills and what is above it. */
  lemma EndsObject(s: seq<Value>, v: Value, top: seq<Value>, stack: seq<Value>, n: nat)
    requires stack == s + [v] + top && |top| == 2 * n && Alternates(top)
    ensures Builds(stack, EndObject(n)) && Build(stack, EndObject(n)) == s + [W.Obj(Pairs(top))]
  {
    hide Pairs, Alternates;
    Unstack(s, v, top);
    var k := |stack| - 2 * n;
    assert k == |s| + 1;
    assert stack[k..] == top;
  }

  lemma Unstack(s: seq<Value>, v: Value, top: seq<Value>)
    ensures (s + [v] + top)[|s| + 1..] == top && (s + [v] + top)[..|s|] == s
  {
  }

  lemma YieldsStart(s: seq<Value>)
    ensures Yields(s, [StartObject], s + [W.Obj([])])
    ensures Yields(s, [StartArray], s + [W.Arr([])])
    ensures forall name :: Yields(s, [Key(name)], s + [W.Str(name)])
  {
    hide Yields;
    YieldsOne(s, StartObject);
    YieldsOne(s, StartArray);
    forall name ensures Yields(s, [Key(name)], s + [W.Str(name)]) { YieldsOne(s, Key(name)); }
  }

  lemma {:induction false} BuildMembers(s: seq<Value>, ms: seq<W.Member>)
    ensures Yields(s, HeardMembers(ms), s + Flat(ms))
    decreases ms, 0
  {
    hide Heard, Yields;
    if ms == [] {
      YieldsNothing(s);
      assert s + Flat(ms) == s;
    } else {
      var m := ms[0];
      var s1 := s + [W.Str(m.name)];
      var n := s1 + [m.value] + Flat(ms[1..]);
      YieldsStart(s);
      BuildValue(s1, m.value);
      BuildMembers(s1 + [m.value], ms[1..]);
      YieldsAppend(s1, Heard(m.value), s1 + [m.value], HeardMembers(ms[1..]), n);
      YieldsAppend(s, [Key(m.name)], s1, Heard(m.value) + HeardMembers(ms[1..]), n);
      assert n == s + Flat(ms);
    }
  }

  lemma YieldsNothing(s: seq<Value>)
    ensures Yields(s, [], s)
  {
  }

  /**
   Main result: the writer puts out a text for every value, both readers accept it, and the
   document built from their events is the value.
   */
  lemma RoundTrip(v: Value)
    requires Representable(v)
    ensures W.AcceptsAll(W.EMPTY, W.Accept(v))
    ensures
      var text := W.WriteAll(W.EMPTY, W.Accept(v)).os;
      && Parse(text).ok && IterativeParse(text) == Parse(text)
      && BuildsAll([], Parse(text).events) && BuildAll([], Parse(text).events) == [v]
  {
    hide Representable, Heard, W.Print, W.AcceptsAll, W.WriteAll, BuildsAll, BuildAll, Parse, IterativeParse;
    W.WriterPrints(v);
    ReadPrinted(v);
    ReadersAgree(W.Print(v));
    BuildValue([], v);
    assert [] + [v] == [v];
  }
}
