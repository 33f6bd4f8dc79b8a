/**
 The two JSON readers: recursive descent, and a table-driven loop with an explicit stack of
 (state, count) frames.  For every text they accept or reject alike and emit the same events,
 also before a rejection.
 */
module JsonReader {
  import opened Bytes
  import opened JsonScalars

  /** Member and element counts are 32 bits wide. */
  function Inc(count: nat): nat { (count + 1) % WORD32 }

  // ---------------------------------------------------------------------------------------
  // Recursive descent
  // ---------------------------------------------------------------------------------------

  /** The events up to position `pos`, or, when not `ok`, up to an error. */
  datatype Parsed = Parsed(ok: bool, pos: nat, events: seq<Event>)

  function FromScalar(r: Scalar): Parsed {
    if r.Good? then Parsed(true, r.pos, [r.event]) else Parsed(false, 0, [])
  }

  function Prepend(events: seq<Event>, r: Parsed): Parsed {
    r.(events := events + r.events)
  }

  /** A value that is neither an object nor an array. */
  function ParseScalar(t: string, i: nat): (r: Scalar)
    requires i <= |t|
    ensures r.Good? ==> i < r.pos <= |t|
  {
    match Peek(t, i)
    case 'n' => ParseLiteral(t, i, "null", Null)
    case 't' => ParseLiteral(t, i, "true", Bool(true))
    case 'f' => ParseLiteral(t, i, "false", Bool(false))
    case '"' => ParseString(t, i, false)
    case _ => ParseNumber(t, i)
  }

  function ParseValue(t: string, i: nat): (r: Parsed)
    requires i <= |t|
    ensures r.ok ==> i < r.pos <= |t|
    decreases |t| - i, 1
  {
    match Peek(t, i)
    case '{' => ParseObject(t, i)
    case '[' => ParseArray(t, i)
    case _ => FromScalar(ParseScalar(t, i))
  }

  function ParseArray(t: string, i: nat): (r: Parsed)
    requires i < |t|
    ensures r.ok ==> i < r.pos <= |t|
    decreases |t| - i, 0
  {
    var j := Skip(t, i + 1);
    if Peek(t, j) == ']' then Parsed(true, j + 1, [StartArray, EndArray(0)])
    else Prepend([StartArray], ParseElements(t, j, 0))
  }

  /** Elements from the one at `i` to the closing bracket, `count` elements having gone before. */
  function ParseElements(t: string, i: nat, count: nat): (r: Parsed)
    requires i <= |t|
    ensures r.ok ==> i < r.pos <= |t|
    decreases |t| - i, 2
  {
    var v := ParseValue(t, i);
    if !v.ok then v else Prepend(v.events, AfterElement(t, Skip(t, v.pos), count))
  }

  function AfterElement(t: string, i: nat, count: nat): (r: Parsed)
    requires i <= |t|
    ensures r.ok ==> i < r.pos <= |t|
    decreases |t| - i, 0
  {
    match Peek(t, i)
    case ',' => ParseElements(t, Skip(t, i + 1), Inc(count))
    case ']' => Parsed(true, i + 1, [EndArray(Inc(count))])
    case _ => Parsed(false, 0, [])
  }

  function ParseObject(t: string, i: nat): (r: Parsed)
    requires i < |t|
    ensures r.ok ==> i < r.pos <= |t|
    decreases |t| - i, 0
  {
    var j := Skip(t, i + 1);
    if Peek(t, j) == '}' then Parsed(true, j + 1, [StartObject, EndObject(0)])
    else Prepend([StartObject], ParseMembers(t, j, 0))
  }

  /** A member's name and the colon behind it, up to its value. */
  function ParseName(t: string, i: nat): (r: Parsed)
    requires i <= |t|
    ensures r.ok ==> i < r.pos <= |t|
  {
    if Peek(t, i) != '"' then Parsed(false, 0, [])
    else
      var k := ParseString(t, i, true);
      if k.Bad? then Parsed(false, 0, [])
      else
        var j := Skip(t, k.pos);
        if Peek(t, j) != ':' then Parsed(false, 0, [k.event])
        else Parsed(true, Skip(t, j + 1), [k.event])
  }

  /** Members from the one at `i` to the closing brace, `count` members having gone before. */
  function ParseMembers(t: string, i: nat, count: nat): (r: Parsed)
    requires i <= |t|
    ensures r.ok ==> i < r.pos <= |t|
    decreases |t| - i, 2
  {
    var n := ParseName(t, i);
    if !n.ok then n else Prepend(n.events, ParseMemberValue(t, n.pos, count))
  }

  /** From the value of a member on. */
  function ParseMemberValue(t: string, i: nat, count: nat): (r: Parsed)
    requires i <= |t|
    ensures r.ok ==> i < r.pos <= |t|
    decreases |t| - i, 2
  {
    var v := ParseValue(t, i);
    if !v.ok then v else Prepend(v.events, AfterMember(t, Skip(t, v.pos), count))
  }

  function AfterMember(t: string, i: nat, count: nat): (r: Parsed)
    requires i <= |t|
    ensures r.ok ==> i < r.pos <= |t|
    decreases |t| - i, 0
  {
    match Peek(t, i)
    case ',' => ParseMembers(t, Skip(t, i + 1), Inc(count))
    case '}' => Parsed(true, i + 1, [EndObject(Inc(count))])
    case _ => Parsed(false, 0, [])
  }

  /** Whether a text was accepted, and the events it gave. */
  datatype Outcome = Outcome(ok: bool, events: seq<Event>)

  function Parse(t: string): Outcome {
    var i := Skip(t, 0);
    if Peek(t, i) == NUL then Outcome(false, [])
    else
      var v := ParseValue(t, i);
      Outcome(v.ok && Peek(t, Skip(t, v.pos)) == NUL, v.events)
  }

  // ---------------------------------------------------------------------------------------
  // Table-driven
  // ---------------------------------------------------------------------------------------

  datatype State =
    | Start | Finish | Error
    | ObjectInitial | MemberKey | KeyValueDelimiter | MemberValue | MemberDelimiter | ObjectFinish
    | ArrayInitial | Element | ElementDelimiter | ArrayFinish
    | SingleValue

  datatype Token =
    | LeftBracket | RightBracket | LeftCurly | RightCurly | Comma | Colon
    | StringToken | FalseToken | TrueToken | NullToken | NumberToken

  function Tokenize(c: char): Token {
    match c
    case '[' => LeftBracket
    case ']' => RightBracket
    case '{' => LeftCurly
    case '}' => RightCurly
    case ',' => Comma
    case ':' => Colon
    case '"' => StringToken
    case 'f' => FalseToken
    case 't' => TrueToken
    case 'n' => NullToken
    case _ => NumberToken
  }

  predicate IsScalarToken(k: Token) {
    k.StringToken? || k.FalseToken? || k.TrueToken? || k.NullToken? || k.NumberToken?
  }

  function Predict(s: State, k: Token): State {
    match s
    case Start =>
      if k.LeftBracket? then ArrayInitial else if k.LeftCurly? then ObjectInitial
      else if IsScalarToken(k) then SingleValue else Error
    case ObjectInitial | MemberDelimiter =>
      if k.RightCurly? then ObjectFinish else if k.StringToken? then MemberKey else Error
    case MemberKey => if k.Colon? then KeyValueDelimiter else Error
    case KeyValueDelimiter =>
      if k.LeftBracket? then ArrayInitial else if k.LeftCurly? then ObjectInitial
      else if IsScalarToken(k) then MemberValue else Error
    case MemberValue =>
      if k.RightCurly? then ObjectFinish else if k.Comma? then MemberDelimiter else Error
    case ArrayInitial | ElementDelimiter =>
      if k.LeftBracket? then ArrayInitial else if k.RightBracket? then ArrayFinish
      else if k.LeftCurly? then ObjectInitial
      else if IsScalarToken(k) then Element else Error
    case Element =>
      if k.RightBracket? then ArrayFinish else if k.Comma? then ElementDelimiter else Error
    case Finish | Error | ObjectFinish | ArrayFinish | SingleValue => Error
  }

  /** What is restored when the object or array ends, and how many of its items are complete. */
  datatype Frame = Frame(state: State, count: nat)

  datatype Move = Move(state: State, pos: nat, stack: seq<Frame>, events: seq<Event>)

  /** Outside all objects and arrays the stack is empty; inside, its bottom frame returns to the start. */
  predicate Coherent(s: State, stack: seq<Frame>) {
    match s
    case Start | Finish => stack == []
    case ObjectInitial | MemberKey | KeyValueDelimiter | MemberValue | MemberDelimiter
       | ArrayInitial | Element | ElementDelimiter => Nested(stack)
    case Error | ObjectFinish | ArrayFinish | SingleValue => false
  }

  predicate Nested(stack: seq<Frame>) {
    && stack != [] && stack[0].state == Start
    && forall k | 0 < k < |stack| :: stack[k].state == Element || stack[k].state == MemberValue
  }

  function Take(r: Scalar, dst: State, stack: seq<Frame>): Move {
    if r.Good? then Move(dst, r.pos, stack, [r.event]) else Move(Error, 0, stack, [])
  }

  /** The state an object or array in state `src` leaves behind when it is complete. */
  function Resume(src: State): State {
    if src == ArrayInitial || src == ElementDelimiter then Element
    else if src == KeyValueDelimiter then MemberValue
    else src
  }

  function Reopen(s: State): State { if s == Start then Finish else s }

  /** Enters an object or array. */
  function Open(i: nat, src: State, dst: State, stack: seq<Frame>, event: Event): (m: Move)
    requires Coherent(src, stack) && ExpectsValue(src)
    ensures Nested(m.stack)
  {
    Move(dst, i + 1, stack + [Frame(Resume(src), 0)], [event])
  }

  /** Counts one more item of the innermost object or array. */
  function Count(i: nat, dst: State, stack: seq<Frame>): (m: Move)
    requires Nested(stack)
    ensures Nested(m.stack)
  {
    var top := |stack| - 1;
    Move(dst, i + 1, stack[top := stack[top].(count := Inc(stack[top].count))], [])
  }

  /** Leaves the innermost object or array. */
  function Close(i: nat, stack: seq<Frame>, event: Event): (m: Move)
    requires Nested(stack)
    ensures Coherent(m.state, m.stack)
  {
    Move(Reopen(stack[|stack| - 1].state), i + 1, stack[..|stack| - 1], [event])
  }

  /** How many items the innermost object or array has, the one just read included. */
  function Total(stack: seq<Frame>, more: bool): nat
    requires Nested(stack)
  {
    var c := stack[|stack| - 1].count;
    if more then Inc(c) else c
  }

  predicate ExpectsValue(s: State) {
    s == Start || s == KeyValueDelimiter || s == ArrayInitial || s == ElementDelimiter
  }

  function Transit(t: string, i: nat, src: State, dst: State, stack: seq<Frame>): (m: Move)
    requires i < |t| && Coherent(src, stack) && dst == Predict(src, Tokenize(t[i]))
    ensures m.state != Error ==> i < m.pos <= |t| && Coherent(m.state, m.stack)
  {
    match dst
    case Error => Move(Error, 0, stack, [])
    case ObjectInitial => Open(i, src, dst, stack, StartObject)
    case ArrayInitial => Open(i, src, dst, stack, StartArray)
    case MemberKey => Take(ParseString(t, i, true), dst, stack)
    case KeyValueDelimiter => Move(dst, i + 1, stack, [])
    case MemberValue | Element => Take(ParseScalar(t, i), dst, stack)
    case MemberDelimiter | ElementDelimiter => Count(i, dst, stack)
    case ObjectFinish =>
      if src == MemberDelimiter then Move(Error, 0, stack, [])
      else Close(i, stack, EndObject(Total(stack, src == MemberValue)))
    case ArrayFinish =>
      if src == ElementDelimiter then Move(Error, 0, stack, [])
      else Close(i, stack, EndArray(Total(stack, src == Element)))
    case _ => Take(ParseScalar(t, i), Finish, stack)
  }

  /** The loop from position `i`, which does not hold white space. */
  function Drive(t: string, i: nat, s: State, stack: seq<Frame>): Outcome
    requires i <= |t| && Coherent(s, stack)
    decreases |t| - i
  {
    if Peek(t, i) == NUL then Outcome(s == Finish, [])
    else
      var m := Transit(t, i, s, Predict(s, Tokenize(t[i])), stack);
      if m.state == Error then Outcome(false, m.events)
      else
        var rest := Drive(t, Skip(t, m.pos), m.state, m.stack);
        Outcome(rest.ok, m.events + rest.events)
  }

  function IterativeParse(t: string): Outcome {
    Drive(t, Skip(t, 0), Start, [])
  }

  // ---------------------------------------------------------------------------------------
  // Simulation: a recursive call corresponds to the frames above its caller's stack
  // ---------------------------------------------------------------------------------------

  function AfterValue(s: State): State { Reopen(Resume(s)) }

  /** The events of `r`, followed, if it succeeded, by the loop from where it stopped. */
  function Continue(t: string, r: Parsed, s: State, stack: seq<Frame>): Outcome
    requires Coherent(s, stack) && (r.ok ==> r.pos <= |t|)
  {
    if !r.ok then Outcome(false, r.events)
    else
      var rest := Drive(t, Skip(t, r.pos), s, stack);
      Outcome(rest.ok, r.events + rest.events)
  }

  lemma PopIsCoherent(s: State, stack: seq<Frame>, f: Frame)
    requires Coherent(s, stack + [f]) && s != Start && s != Finish
    ensures Coherent(Reopen(f.state), stack)
  {
    hide Nested;
    var m := Close(0, stack + [f], Null);
    Retop(stack, f, f);
  }

  lemma ValueIsCoherent(s: State, stack: seq<Frame>)
    requires Coherent(s, stack) && ExpectsValue(s)
    ensures Coherent(AfterValue(s), stack)
  {
  }

  // One step of the loop for each kind of token.

  function Stepped(pos: nat, events: seq<Event>): Parsed { Parsed(true, pos, events) }

  lemma OneStep(t: string, i: nat, s: State, stack: seq<Frame>)
    requires i < |t| && Coherent(s, stack) && t[i] != NUL
    ensures
      var m := Transit(t, i, s, Predict(s, Tokenize(t[i])), stack);
      Drive(t, i, s, stack) ==
      if m.state == Error then Outcome(false, m.events)
      else Continue(t, Stepped(m.pos, m.events), m.state, m.stack)
  {
    hide Transit, Predict, Coherent, Tokenize;
  }

  lemma OpenStep(t: string, i: nat, s: State, stack: seq<Frame>)
    requires i < |t| && ExpectsValue(s) && Coherent(s, stack) && (t[i] == '[' || t[i] == '{')
    ensures
      var (dst, event) := if t[i] == '[' then (ArrayInitial, StartArray) else (ObjectInitial, StartObject);
      && Coherent(dst, stack + [Frame(Resume(s), 0)])
      && Drive(t, i, s, stack) == Continue(t, Stepped(i + 1, [event]), dst, stack + [Frame(Resume(s), 0)])
  {
    hide Drive;
    OneStep(t, i, s, stack);
  }

  lemma CloseArrayStep(t: string, i: nat, s: State, stack: seq<Frame>, f: Frame)
    requires i < |t| && (s == ArrayInitial || s == Element) && Coherent(s, stack + [f]) && t[i] == ']'
    ensures Coherent(Reopen(f.state), stack)
    ensures Drive(t, i, s, stack + [f]) ==
            Continue(t, Stepped(i + 1, [EndArray(if s == Element then Inc(f.count) else f.count)]), Reopen(f.state), stack)
  {
    hide Drive, Nested;
    OneStep(t, i, s, stack + [f]);
    Retop(stack, f, f);
  }

  lemma CloseObjectStep(t: string, i: nat, s: State, stack: seq<Frame>, f: Frame)
    requires i < |t| && (s == ObjectInitial || s == MemberValue) && Coherent(s, stack + [f]) && t[i] == '}'
    ensures Coherent(Reopen(f.state), stack)
    ensures Drive(t, i, s, stack + [f]) ==
            Continue(t, Stepped(i + 1, [EndObject(if s == MemberValue then Inc(f.count) else f.count)]), Reopen(f.state), stack)
  {
    hide Drive, Nested;
    OneStep(t, i, s, stack + [f]);
    Retop(stack, f, f);
  }

  lemma CommaStep(t: string, i: nat, s: State, stack: seq<Frame>, f: Frame)
    requires i < |t| && (s == Element || s == MemberValue) && Coherent(s, stack + [f]) && t[i] == ','
    ensures
      var dst := if s == Element then ElementDelimiter else MemberDelimiter;
      var g := f.(count := Inc(f.count));
      && Coherent(dst, stack + [g])
      && Drive(t, i, s, stack + [f]) == Continue(t, Stepped(i + 1, []), dst, stack + [g])
  {
    hide Drive, Nested;
    OneStep(t, i, s, stack + [f]);
    Retop(stack, f, f.(count := Inc(f.count)));
  }

  lemma Retop(stack: seq<Frame>, f: Frame, g: Frame)
    ensures (stack + [f])[|stack|] == f
    ensures (stack + [f])[|stack| := g] == stack + [g]
    ensures (stack + [f])[..|stack|] == stack
  {
  }

  lemma ColonStep(t: string, i: nat, stack: seq<Frame>)
    requires i < |t| && Coherent(MemberKey, stack) && t[i] == ':'
    ensures Coherent(KeyValueDelimiter, stack)
    ensures Drive(t, i, MemberKey, stack) == Continue(t, Stepped(i + 1, []), KeyValueDelimiter, stack)
  {
    hide Drive, Nested;
    OneStep(t, i, MemberKey, stack);
  }

  lemma KeyStep(t: string, i: nat, s: State, stack: seq<Frame>)
    requires i < |t| && (s == ObjectInitial || s == MemberDelimiter) && Coherent(s, stack) && t[i] == '"'
    ensures Coherent(MemberKey, stack)
    ensures Drive(t, i, s, stack) == Continue(t, FromScalar(ParseString(t, i, true)), MemberKey, stack)
  {
    hide Drive, Nested, ParseString;
    OneStep(t, i, s, stack);
  }

  lemma ScalarStep(t: string, i: nat, s: State, stack: seq<Frame>)
    requires i < |t| && ExpectsValue(s) && Coherent(s, stack) && t[i] != NUL && IsScalarToken(Tokenize(t[i]))
    ensures Coherent(AfterValue(s), stack)
    ensures Drive(t, i, s, stack) == Continue(t, FromScalar(ParseScalar(t, i)), AfterValue(s), stack)
  {
    hide Drive, Nested, ParseScalar;
    OneStep(t, i, s, stack);
  }

  /** The characters the loop goes on with in a state; at any other it stops. */
  predicate Stuck(s: State, c: char) {
    match s
    case Finish => true
    case Start | KeyValueDelimiter | ElementDelimiter => c == NUL || c == ']' || c == '}' || c == ',' || c == ':'
    case ArrayInitial => c == NUL || c == '}' || c == ',' || c == ':'
    case ObjectInitial => c != '"' && c != '}'
    case MemberDelimiter => c != '"'
    case MemberKey => c != ':'
    case Element => c != ',' && c != ']'
    case MemberValue => c != ',' && c != '}'
    case _ => false
  }

  lemma StuckStep(t: string, i: nat, s: State, stack: seq<Frame>)
    requires i <= |t| && Coherent(s, stack) && Stuck(s, Peek(t, i))
    ensures Drive(t, i, s, stack) == Outcome(s == Finish && Peek(t, i) == NUL, [])
  {
    hide Nested, ParseString, ParseScalar, Open, Count, Close;
    if Peek(t, i) != NUL { OneStep(t, i, s, stack); }
  }

  // Sequencing

  lemma Associate(a: seq<Event>, b: seq<Event>, c: seq<Event>)
    ensures a + (b + c) == a + b + c
  {
  }

  lemma AssociateContinue(t: string, a: seq<Event>, r: Parsed, s: State, stack: seq<Frame>)
    requires Coherent(s, stack) && (r.ok ==> r.pos <= |t|)
    ensures
      var c := Continue(t, r, s, stack);
      Continue(t, Prepend(a, r), s, stack) == Outcome(c.ok, a + c.events)
  {
    hide Drive, Coherent;
    if r.ok { Associate(a, r.events, Drive(t, Skip(t, r.pos), s, stack).events); }
  }

  /** Nothing but a digit or a minus sign starts a number. */
  lemma NotANumber(t: string, i: nat)
    requires i <= |t| && !IsDigit(Peek(t, i)) && Peek(t, i) != '-'
    ensures ParseNumber(t, i) == Bad
  {
  }

  lemma {:induction false} ScalarSim(t: string, i: nat, s: State, stack: seq<Frame>)
    requires i <= |t| && ExpectsValue(s) && Coherent(s, stack) && Peek(t, i) != '[' && Peek(t, i) != '{'
    requires s == ArrayInitial ==> Peek(t, i) != ']'
    ensures Coherent(AfterValue(s), stack)
    ensures Drive(t, i, s, stack) == Continue(t, ParseValue(t, i), AfterValue(s), stack)
  {
    hide Drive, Coherent, ParseLiteral, ParseString, ParseNumber;
    if Stuck(s, Peek(t, i)) {
      ValueIsCoherent(s, stack);
      StuckStep(t, i, s, stack);
      NotANumber(t, i);
    } else {
      ScalarStep(t, i, s, stack);
    }
  }

  lemma {:induction false} ValueSim(t: string, i: nat, s: State, stack: seq<Frame>)
    requires i <= |t| && ExpectsValue(s) && Coherent(s, stack)
    requires s == ArrayInitial ==> Peek(t, i) != ']'
    ensures Coherent(AfterValue(s), stack)
    ensures Drive(t, i, s, stack) == Continue(t, ParseValue(t, i), AfterValue(s), stack)
    decreases |t| - i, 1
  {
    hide Coherent, Drive, ParseScalar, ParseArray, ParseObject;
    if Peek(t, i) == '[' { ArraySim(t, i, s, stack); }
    else if Peek(t, i) == '{' { ObjectSim(t, i, s, stack); }
    else { ScalarSim(t, i, s, stack); }
  }

  lemma {:induction false} ArraySim(t: string, i: nat, s: State, stack: seq<Frame>)
    requires i < |t| && ExpectsValue(s) && Coherent(s, stack) && t[i] == '['
    ensures Coherent(AfterValue(s), stack)
    ensures Drive(t, i, s, stack) == Continue(t, ParseArray(t, i), AfterValue(s), stack)
    decreases |t| - i, 0
  {
    hide Coherent, Drive, ParseElements;
    var f := Frame(Resume(s), 0);
    var j := Skip(t, i + 1);
    OpenStep(t, i, s, stack);
    if Peek(t, j) == ']' {
      CloseArrayStep(t, j, ArrayInitial, stack, f);
      AssociateContinue(t, [StartArray], Stepped(j + 1, [EndArray(0)]), AfterValue(s), stack);
      assert [StartArray] + [EndArray(0)] == [StartArray, EndArray(0)];
    } else {
      ElementsSim(t, j, ArrayInitial, stack, f);
      AssociateContinue(t, [StartArray], ParseElements(t, j, 0), AfterValue(s), stack);
    }
  }

  lemma {:induction false} ElementsSim(t: string, i: nat, s: State, stack: seq<Frame>, f: Frame)
    requires i <= |t| && (s == ArrayInitial || s == ElementDelimiter) && Coherent(s, stack + [f])
    requires s == ArrayInitial ==> Peek(t, i) != ']'
    ensures Coherent(Reopen(f.state), stack)
    ensures Drive(t, i, s, stack + [f]) == Continue(t, ParseElements(t, i, f.count), Reopen(f.state), stack)
    decreases |t| - i, 2
  {
    hide Coherent, Drive, ParseValue, AfterElement;
    PopIsCoherent(s, stack, f);
    ValueSim(t, i, s, stack + [f]);
    var v := ParseValue(t, i);
    if v.ok {
      AfterElementSim(t, Skip(t, v.pos), stack, f);
      AssociateContinue(t, v.events, AfterElement(t, Skip(t, v.pos), f.count), Reopen(f.state), stack);
    }
  }

  lemma {:induction false} AfterElementSim(t: string, i: nat, stack: seq<Frame>, f: Frame)
    requires i <= |t| && Coherent(Element, stack + [f])
    ensures Coherent(Reopen(f.state), stack)
    ensures Drive(t, i, Element, stack + [f]) == Continue(t, AfterElement(t, i, f.count), Reopen(f.state), stack)
    decreases |t| - i, 0
  {
    hide Coherent, Drive, ParseElements;
    PopIsCoherent(Element, stack, f);
    if Peek(t, i) == ',' {
      CommaStep(t, i, Element, stack, f);
      ElementsSim(t, Skip(t, i + 1), ElementDelimiter, stack, f.(count := Inc(f.count)));
    } else if Peek(t, i) == ']' {
      CloseArrayStep(t, i, Element, stack, f);
    } else {
      StuckStep(t, i, Element, stack + [f]);
    }
  }

  lemma {:induction false} ObjectSim(t: string, i: nat, s: State, stack: seq<Frame>)
    requires i < |t| && ExpectsValue(s) && Coherent(s, stack) && t[i] == '{'
    ensures Coherent(AfterValue(s), stack)
    ensures Drive(t, i, s, stack) == Continue(t, ParseObject(t, i), AfterValue(s), stack)
    decreases |t| - i, 0
  {
    hide Coherent, Drive, ParseMembers;
    var f := Frame(Resume(s), 0);
    var j := Skip(t, i + 1);
    OpenStep(t, i, s, stack);
    if Peek(t, j) == '}' {
      CloseObjectStep(t, j, ObjectInitial, stack, f);
      AssociateContinue(t, [StartObject], Stepped(j + 1, [EndObject(0)]), AfterValue(s), stack);
      assert [StartObject] + [EndObject(0)] == [StartObject, EndObject(0)];
    } else {
      MembersSim(t, j, ObjectInitial, stack, f);
      AssociateContinue(t, [StartObject], ParseMembers(t, j, 0), AfterValue(s), stack);
    }
  }

  lemma {:induction false} MembersSim(t: string, i: nat, s: State, stack: seq<Frame>, f: Frame)
    requires i <= |t| && (s == ObjectInitial || s == MemberDelimiter) && Coherent(s, stack + [f])
    requires s == ObjectInitial ==> Peek(t, i) != '}'
    ensures Coherent(Reopen(f.state), stack)
    ensures Drive(t, i, s, stack + [f]) == Continue(t, ParseMembers(t, i, f.count), Reopen(f.state), stack)
    decreases |t| - i, 2
  {
    hide Coherent, Drive, ParseString, ParseMemberValue;
    PopIsCoherent(s, stack, f);
    if Peek(t, i) != '"' {
      StuckStep(t, i, s, stack + [f]);
    } else {
      KeyStep(t, i, s, stack + [f]);
      var k := ParseString(t, i, true);
      if k.Good? {
        var j := Skip(t, k.pos);
        if Peek(t, j) != ':' {
          StuckStep(t, j, MemberKey, stack + [f]);
        } else {
          ColonStep(t, j, stack + [f]);
          MemberValueSim(t, Skip(t, j + 1), stack, f);
          AssociateContinue(t, [k.event], ParseMemberValue(t, Skip(t, j + 1), f.count), Reopen(f.state), stack);
        }
      }
    }
  }

  lemma {:induction false} MemberValueSim(t: string, i: nat, stack: seq<Frame>, f: Frame)
    requires i <= |t| && Coherent(KeyValueDelimiter, stack + [f])
    ensures Coherent(Reopen(f.state), stack)
    ensures Drive(t, i, KeyValueDelimiter, stack + [f]) ==
            Continue(t, ParseMemberValue(t, i, f.count), Reopen(f.state), stack)
    decreases |t| - i, 2
  {
    hide Coherent, Drive, ParseValue, AfterMember;
    PopIsCoherent(KeyValueDelimiter, stack, f);
    ValueSim(t, i, KeyValueDelimiter, stack + [f]);
    var v := ParseValue(t, i);
    if v.ok {
      AfterMemberSim(t, Skip(t, v.pos), stack, f);
      AssociateContinue(t, v.events, AfterMember(t, Skip(t, v.pos), f.count), Reopen(f.state), stack);
    }
  }

  lemma {:induction false} AfterMemberSim(t: string, i: nat, stack: seq<Frame>, f: Frame)
    requires i <= |t| && Coherent(MemberValue, stack + [f])
    ensures Coherent(Reopen(f.state), stack)
    ensures Drive(t, i, MemberValue, stack + [f]) == Continue(t, AfterMember(t, i, f.count), Reopen(f.state), stack)
    decreases |t| - i, 0
  {
    hide Coherent, Drive, ParseMembers;
    PopIsCoherent(MemberValue, stack, f);
    if Peek(t, i) == ',' {
      CommaStep(t, i, MemberValue, stack, f);
      MembersSim(t, Skip(t, i + 1), MemberDelimiter, stack, f.(count := Inc(f.count)));
    } else if Peek(t, i) == '}' {
      CloseObjectStep(t, i, MemberValue, stack, f);
    } else {
      StuckStep(t, i, MemberValue, stack + [f]);
    }
  }

  /** Main result: on every text both readers accept or reject alike, with the same events. */
  lemma ReadersAgree(t: string)
    ensures IterativeParse(t) == Parse(t)
  {
    hide Drive, ParseValue;
    var i := Skip(t, 0);
    ValueSim(t, i, Start, []);
    if Peek(t, i) == NUL {
      StuckStep(t, i, Start, []);
    } else {
      var v := ParseValue(t, i);
      if v.ok { StuckStep(t, Skip(t, v.pos), Finish, []); }
    }
  }
}
