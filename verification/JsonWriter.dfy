/**
 JSON values, the events a value sends to its handler, and the writer: a handler that puts
 text on an output stream and tracks, per nesting level, how many values it has written.
 */
module JsonWriter {
  import opened JsonScalars

  datatype Value =
    | NullValue
    | BoolValue(b: bool)
    | Number(n: int)
    | Str(s: string)
    | Arr(elements: seq<Value>)
    | Obj(members: seq<Member>)

  datatype Member = Member(name: string, value: Value)

  // ---------------------------------------------------------------------------------------
  // The events of a value
  // ---------------------------------------------------------------------------------------

  /** The event of a number: the first of Int, Uint, Int64 and Uint64 that holds it. */
  function NumberEvent(n: int): Event {
    if -0x8000_0000 <= n < 0x8000_0000 then Int(n)
    else if 0 <= n < 0x1_0000_0000 then Uint(n)
    else if n < 0x8000_0000_0000_0000 then Int64(n)
    else Uint64(n)
  }

  function Accept(v: Value): seq<Event>
    decreases v, 1
  {
    match v
    case NullValue => [Null]
    case BoolValue(b) => [Bool(b)]
    case Number(n) => [NumberEvent(n)]
    case Str(s) => [String(s)]
    case Arr(es) => [StartArray] + AcceptElements(es) + [EndArray(|es|)]
    case Obj(ms) => [StartObject] + AcceptMembers(ms) + [EndObject(|ms|)]
  }

  function AcceptElements(es: seq<Value>): seq<Event>
    decreases es, 0
  {
    if es == [] then [] else Accept(es[0]) + AcceptElements(es[1..])
  }

  function AcceptMembers(ms: seq<Member>): seq<Event>
    decreases ms, 0
  {
    if ms == [] then [] else [Key(ms[0].name)] + Accept(ms[0].value) + AcceptMembers(ms[1..])
  }

  // ---------------------------------------------------------------------------------------
  // Text
  // ---------------------------------------------------------------------------------------

  function HexChar(d: nat): char
    requires d < 16
  {
    "0123456789ABCDEF"[d]
  }

  /** The letter that follows the backslash for a character that needs one, or NUL. */
  function EscapeLetter(c: char): char {
    if c == '"' then '"'
    else if c == '\\' then '\\'
    else if c as int >= 0x20 then NUL
    else if c as int == 8 then 'b'
    else if c == '\t' then 't'
    else if c == '\n' then 'n'
    else if c as int == 12 then 'f'
    else if c == '\r' then 'r'
    else 'u'
  }

  function EscapeChar(c: char): (r: string)
    ensures |r| > 0
  {
    var e := EscapeLetter(c);
    if e == NUL then [c]
    else if e == 'u' then ['\\', 'u', '0', '0', HexChar(c as int / 16), HexChar(c as int % 16)]
    else ['\\', e]
  }

  /** Only quotes, backslashes and control characters are escaped, and how. */
  lemma EscapesExactly(c: char)
    ensures c as int >= 0x20 && c != '"' && c != '\\' ==> EscapeChar(c) == [c]
    ensures c == '"' || c == '\\' ==> EscapeChar(c) == ['\\', c]
    ensures c as int < 0x20 ==>
              EscapeChar(c) ==
                if c as int == 8 then "\\b" else if c as int == 9 then "\\t" else if c as int == 10 then "\\n"
                else if c as int == 12 then "\\f" else if c as int == 13 then "\\r"
                else "\\u00" + ["0123456789ABCDEF"[c as int / 16], "0123456789ABCDEF"[c as int % 16]]
  {
  }

  function Escape(s: string): string {
    if s == "" then "" else EscapeChar(s[0]) + Escape(s[1..])
  }

  function Quote(s: string): string { "\"" + Escape(s) + "\"" }

  function DigitChar(d: nat): (c: char)
    requires d < 10
    ensures IsDigit(c) && DigitValue(c) == d
  {
    ('0' as int + d) as char
  }

  function Digits(n: nat): (r: string)
    ensures |r| > 0 && forall k | 0 <= k < |r| :: IsDigit(r[k])
  {
    if n < 10 then [DigitChar(n)] else Digits(n / 10) + [DigitChar(n % 10)]
  }

  function Decimal(n: int): string {
    if n < 0 then "-" + Digits(-n) else Digits(n)
  }

  /** The text of a value. */
  function Print(v: Value): string
    decreases v, 1
  {
    match v
    case NullValue => "null"
    case BoolValue(b) => if b then "true" else "false"
    case Number(n) => Decimal(n)
    case Str(s) => Quote(s)
    case Arr(es) => "[" + PrintElements(es, true) + "]"
    case Obj(ms) => "{" + PrintMembers(ms, true) + "}"
  }

  function Comma(first: bool): string { if first then "" else "," }

  function PrintElements(es: seq<Value>, first: bool): string
    decreases es, 0
  {
    if es == [] then "" else Comma(first) + Print(es[0]) + PrintElements(es[1..], false)
  }

  function PrintMembers(ms: seq<Member>, first: bool): string
    decreases ms, 0
  {
    if ms == [] then ""
    else Comma(first) + Quote(ms[0].name) + ":" + Print(ms[0].value) + PrintMembers(ms[1..], false)
  }

  // ---------------------------------------------------------------------------------------
  // The writer
  // ---------------------------------------------------------------------------------------

  datatype Level = Level(valueCount: nat, inArray: bool)

  datatype State = State(os: string, levels: seq<Level>, hasRoot: bool)

  /** The separator in front of the next value of a level. */
  function Separator(l: Level): string {
    if l.valueCount == 0 then ""
    else if l.inArray || l.valueCount % 2 == 0 then ","
    else ":"
  }

  /** A value may come: the root once, a string where a name is due, anything elsewhere. */
  predicate Ready(w: State, isString: bool) {
    if w.levels == [] then !w.hasRoot
    else
      var top := w.levels[|w.levels| - 1];
      !top.inArray && top.valueCount % 2 == 0 ==> isString
  }

  function Prefix(w: State): State {
    if w.levels == [] then w.(hasRoot := true)
    else
      var k := |w.levels| - 1;
      var top := w.levels[k];
      w.(os := w.os + Separator(top), levels := w.levels[k := top.(valueCount := top.valueCount + 1)])
  }

  function Put(w: State, s: string): State { w.(os := w.os + s) }

  function Open(w: State, s: string, inArray: bool): State {
    var p := Put(Prefix(w), s);
    p.(levels := p.levels + [Level(0, inArray)])
  }

  function Close(w: State, s: string): State
    requires w.levels != []
  {
    Put(w.(levels := w.levels[..|w.levels| - 1]), s)
  }

  /** The events the writer accepts in a state. */
  predicate Accepts(w: State, e: Event) {
    match e
    case Double(_, _, _) => false
    case EndObject(_) => w.levels != [] && !w.levels[|w.levels| - 1].inArray
    case EndArray(_) => w.levels != [] && w.levels[|w.levels| - 1].inArray
    case _ => Ready(w, e.String? || e.Key?)
  }

  function Write(w: State, e: Event): State
    requires Accepts(w, e)
  {
    match e
    case Null => Put(Prefix(w), "null")
    case Bool(b) => Put(Prefix(w), if b then "true" else "false")
    case Int(n) => Put(Prefix(w), Decimal(n))
    case Uint(n) => Put(Prefix(w), Decimal(n))
    case Int64(n) => Put(Prefix(w), Decimal(n))
    case Uint64(n) => Put(Prefix(w), Decimal(n))
    case String(s) => Put(Prefix(w), Quote(s))
    case Key(s) => Put(Prefix(w), Quote(s))
    case StartObject => Open(w, "{", false)
    case EndObject(_) => Close(w, "}")
    case StartArray => Open(w, "[", true)
    case EndArray(_) => Close(w, "]")
  }

  /** The whole sequence is accepted, one event after the other. */
  predicate AcceptsAll(w: State, es: seq<Event>)
    decreases |es|
  {
    es == [] || (Accepts(w, es[0]) && AcceptsAll(Write(w, es[0]), es[1..]))
  }

  function WriteAll(w: State, es: seq<Event>): State
    requires AcceptsAll(w, es)
    decreases |es|
  {
    if es == [] then w else WriteAll(Write(w, es[0]), es[1..])
  }

  const EMPTY: State := State("", [], false)

  // ---------------------------------------------------------------------------------------
  // The level stack puts commas and colons where the text of the value has them
  // ---------------------------------------------------------------------------------------

  lemma {:induction false} WriteAppend(w: State, a: seq<Event>, b: seq<Event>)
    requires AcceptsAll(w, a) && AcceptsAll(WriteAll(w, a), b)
    ensures AcceptsAll(w, a + b) && WriteAll(w, a + b) == WriteAll(WriteAll(w, a), b)
    decreases |a|
  {
    hide Accepts, Write;
    if a == [] {
      assert a + b == b;
    } else {
      WriteAppend(Write(w, a[0]), a[1..], b);
      assert (a + b)[1..] == a[1..] + b;
    }
  }

  lemma WriteOne(w: State, e: Event)
    requires Accepts(w, e)
    ensures AcceptsAll(w, [e]) && WriteAll(w, [e]) == Write(w, e)
  {
    hide Accepts, Write;
    assert [e][1..] == [];
  }

  /** Events `es` are accepted in `w` and lead to `n`. */
  predicate Leads(w: State, es: seq<Event>, n: State) {
    AcceptsAll(w, es) && WriteAll(w, es) == n
  }

  lemma LeadsFurther(w: State, a: seq<Event>, m: State, b: seq<Event>, n: State)
    requires Leads(w, a, m) && Leads(m, b, n)
    ensures Leads(w, a + b, n)
  {
    WriteAppend(w, a, b);
  }

  /** A level with `count` values after `text`; what is below does not change. */
  function Within(w: State, text: string, inArray: bool, count: nat): State {
    w.(os := w.os + text, levels := w.levels + [Level(count, inArray)])
  }

  lemma {:induction false} WriteValue(w: State, v: Value)
    requires Ready(w, v.Str?)
    ensures Leads(w, Accept(v), Put(Prefix(w), Print(v)))
    decreases v, 1
  {
    hide Leads, Ready;
    match v
    case Arr(es) => WriteArray(w, es);
    case Obj(ms) => WriteObject(w, ms);
    case _ => WriteScalar(w, v);
  }

  lemma WriteScalar(w: State, v: Value)
    requires Ready(w, v.Str?) && !v.Arr? && !v.Obj?
    ensures Leads(w, Accept(v), Put(Prefix(w), Print(v)))
  {
    hide Ready, Prefix, Decimal, Quote;
    WriteOne(w, Accept(v)[0]);
  }

  lemma {:induction false} WriteArray(w: State, es: seq<Value>)
    requires Ready(w, false)
    ensures Leads(w, Accept(Arr(es)), Put(Prefix(w), Print(Arr(es))))
    decreases es, 2
  {
    hide AcceptsAll, WriteAll, Ready, Prefix, AcceptElements, PrintElements;
    var p := Prefix(w);
    var m := Within(p, "[", true, 0);
    WriteOne(w, StartArray);
    assert Leads(w, [StartArray], m);
    WriteElements(p, "[", es, 0);
    var text := "[" + PrintElements(es, true);
    LeadsFurther(w, [StartArray], m, AcceptElements(es), Within(p, text, true, |es|));
    var n := Within(p, text, true, |es|);
    WriteOne(n, EndArray(|es|));
    assert n.levels[..|n.levels| - 1] == p.levels;
    assert p.os + text + "]" == p.os + (text + "]");
    assert Leads(n, [EndArray(|es|)], Put(p, text + "]"));
    LeadsFurther(w, [StartArray] + AcceptElements(es), n, [EndArray(|es|)], Put(p, text + "]"));
  }

  /** One value more on the level: its separator, its text, and the count goes up. */
  lemma Next(p: State, text: string, inArray: bool, count: nat, s: string)
    ensures Put(Prefix(Within(p, text, inArray, count)), s) ==
            Within(p, text + (Separator(Level(count, inArray)) + s), inArray, count + 1)
  {
    var w := Within(p, text, inArray, count);
    var sep := Separator(Level(count, inArray));
    assert w.levels[|p.levels|] == Level(count, inArray);
    assert w.levels[|p.levels| := Level(count + 1, inArray)] == p.levels + [Level(count + 1, inArray)];
    assert p.os + text + sep + s == p.os + (text + (sep + s));
  }

  lemma {:induction false} WriteElements(p: State, text: string, es: seq<Value>, count: nat)
    ensures Leads(Within(p, text, true, count), AcceptElements(es),
                  Within(p, text + PrintElements(es, count == 0), true, count + |es|))
    decreases es, 0
  {
    hide Leads, Prefix, Accept, Print;
    var w := Within(p, text, true, count);
    if es == [] {
      LeadsNowhere(w);
      assert text + "" == text;
    } else {
      WriteValue(w, es[0]);
      Next(p, text, true, count, Print(es[0]));
      var t1 := text + (Comma(count == 0) + Print(es[0]));
      WriteElements(p, t1, es[1..], count + 1);
      var n := Within(p, t1 + PrintElements(es[1..], false), true, count + |es|);
      LeadsFurther(w, Accept(es[0]), Within(p, t1, true, count + 1), AcceptElements(es[1..]), n);
      Join(text, Comma(count == 0) + Print(es[0]), PrintElements(es[1..], false));
    }
  }

  lemma Join(a: string, b: string, c: string)
    ensures a + b + c == a + (b + c)
  {
  }

  lemma LeadsNowhere(w: State)
    ensures Leads(w, [], w)
  {
  }

  lemma {:induction false} WriteObject(w: State, ms: seq<Member>)
    requires Ready(w, false)
    ensures Leads(w, Accept(Obj(ms)), Put(Prefix(w), Print(Obj(ms))))
    decreases ms, 2
  {
    hide AcceptsAll, WriteAll, Ready, Prefix, AcceptMembers, PrintMembers;
    var p := Prefix(w);
    var m := Within(p, "{", false, 0);
    WriteOne(w, StartObject);
    assert Leads(w, [StartObject], m);
    WriteMembers(p, "{", ms, 0);
    var text := "{" + PrintMembers(ms, true);
    var n := Within(p, text, false, 2 * |ms|);
    LeadsFurther(w, [StartObject], m, AcceptMembers(ms), n);
    WriteOne(n, EndObject(|ms|));
    assert n.levels[..|n.levels| - 1] == p.levels;
    assert p.os + text + "}" == p.os + (text + "}");
    assert Leads(n, [EndObject(|ms|)], Put(p, text + "}"));
    LeadsFurther(w, [StartObject] + AcceptMembers(ms), n, [EndObject(|ms|)], Put(p, text + "}"));
  }

  /** A name where a name is due. */
  lemma WriteName(p: State, text: string, count: nat, name: string)
    ensures Leads(Within(p, text, false, 2 * count), [Key(name)],
                  Within(p, text + (Comma(count == 0) + Quote(name)), false, 2 * count + 1))
  {
    hide Prefix, Quote, AcceptsAll, WriteAll;
    var w := Within(p, text, false, 2 * count);
    WriteOne(w, Key(name));
    Next(p, text, false, 2 * count, Quote(name));
  }

  /** A name and its value. */
  lemma {:induction false} WriteMember(p: State, text: string, m: Member, count: nat)
    ensures Leads(Within(p, text, false, 2 * count), [Key(m.name)] + Accept(m.value),
                  Within(p, text + (Comma(count == 0) + Quote(m.name) + ":" + Print(m.value)), false, 2 * (count + 1)))
    decreases m, 2
  {
    hide Leads, Prefix, Accept, Print, Quote;
    WriteName(p, text, count, m.name);
    var t1 := text + (Comma(count == 0) + Quote(m.name));
    var w1 := Within(p, t1, false, 2 * count + 1);
    WriteValue(w1, m.value);
    Next(p, t1, false, 2 * count + 1, Print(m.value));
    var t2 := t1 + (":" + Print(m.value));
    assert t2 == text + (Comma(count == 0) + Quote(m.name) + ":" + Print(m.value));
    LeadsFurther(Within(p, text, false, 2 * count), [Key(m.name)], w1, Accept(m.value), Within(p, t2, false, 2 * (count + 1)));
  }

  lemma {:induction false} WriteMembers(p: State, text: string, ms: seq<Member>, count: nat)
    ensures Leads(Within(p, text, false, 2 * count), AcceptMembers(ms),
                  Within(p, text + PrintMembers(ms, count == 0), false, 2 * (count + |ms|)))
    decreases ms, 0
  {
    hide Leads, Prefix, Accept, Print, Quote;
    var w := Within(p, text, false, 2 * count);
    if ms == [] {
      LeadsNowhere(w);
      assert text + "" == text;
    } else {
      var s := Comma(count == 0) + Quote(ms[0].name) + ":" + Print(ms[0].value);
      WriteMember(p, text, ms[0], count);
      WriteMembers(p, text + s, ms[1..], count + 1);
      var n := Within(p, text + s + PrintMembers(ms[1..], false), false, 2 * (count + |ms|));
      LeadsFurther(w, [Key(ms[0].name)] + Accept(ms[0].value), Within(p, text + s, false, 2 * (count + 1)),
                   AcceptMembers(ms[1..]), n);
      Join(text, s, PrintMembers(ms[1..], false));
    }
  }

  /** Main result: the events of any value make an empty writer put out exactly its text. */
  lemma WriterPrints(v: Value)
    ensures AcceptsAll(EMPTY, Accept(v)) && WriteAll(EMPTY, Accept(v)).os == Print(v)
  {
    hide Accept, Print;
    WriteValue(EMPTY, v);
    assert "" + Print(v) == Print(v);
  }
}
