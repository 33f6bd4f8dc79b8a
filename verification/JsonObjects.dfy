/**
 The JSON reader and writer as objects that advance a stream, push and pop a stack and call
 a handler.  Each method is proved against the functions of `JsonScalars`, `JsonReader` and
 `JsonWriter`; `events` records the handler calls in order.
 */
module JsonObjects {
  import opened Bytes
  import opened JsonScalars
  import opened JsonInteger
  import opened JsonReader
  import W = JsonWriter

  class Reader {
    const text: string
    var pos: nat
    var events: seq<Event>
    var stack: seq<Frame>
    var error: bool

    ghost predicate Valid()
      reads this
    {
      pos <= |text|
    }

    constructor (text: string)
      ensures this.text == text && Valid() && pos == 0 && events == [] && stack == [] && !error
    {
      this.text := text;
      pos, events, stack, error := 0, [], [], false;
    }

    /** The outcome of a parsing method that started with the given events. */
    ghost predicate Did(r: Parsed, before: seq<Event>)
      reads this
    {
      && Valid()
      && error == !r.ok
      && events == before + r.events
      && (r.ok ==> pos == r.pos)
    }

    method SkipWhitespace()
      requires Valid()
      modifies this`pos
      ensures Valid() && pos == Skip(text, old(pos))
    {
      while IsSpace(Peek(text, pos))
        invariant Valid() && Skip(text, pos) == Skip(text, old(pos))
        decreases |text| - pos
      {
        pos := pos + 1;
      }
    }

    method Consume(wanted: char) returns (ok: bool)
      requires Valid() && wanted != NUL
      modifies this`pos
      ensures Valid() && ok == (Peek(text, old(pos)) == wanted)
      ensures pos == if ok then old(pos) + 1 else old(pos)
    {
      if Peek(text, pos) == wanted {
        pos := pos + 1;
        return true;
      }
      return false;
    }

    /** The characters of a literal one by one; the first is known to be there. */
    method ParseLiteral(word: string, event: Event)
      requires Valid() && !error && word != "" && NUL !in word && Peek(text, pos) == word[0]
      modifies this`pos, this`events, this`error
      ensures Did(FromScalar(JsonScalars.ParseLiteral(text, old(pos), word, event)), old(events))
    {
      ghost var start := pos;
      pos := pos + 1;
      var k := 1;
      while k < |word|
        invariant 1 <= k <= |word| && pos == start + k <= |text|
        invariant forall j | 0 <= j < k :: text[start + j] == word[j]
        invariant events == old(events) && error == old(error)
      {
        var ok := Consume(word[k]);
        if !ok {
          error := true;
          assert start + |word| <= |text| ==> text[start..start + |word|][k] == text[start + k];
          return;
        }
        k := k + 1;
      }
      assert text[start..start + |word|] == word;
      events := events + [event];
    }

    method ParseHex4() returns (codepoint: nat)
      requires Valid() && !error
      modifies this`pos, this`error
      ensures Valid()
      ensures
        var h := JsonScalars.ParseHex4(text, old(pos));
        error == h.NoHex? && (h.Hex? ==> pos == old(pos) + 4 && codepoint == h.value)
    {
      codepoint := 0;
      var i := 0;
      ghost var start := pos;
      ghost var d := [HexDigit(Peek(text, pos)), HexDigit(Peek(text, pos + 1)),
                      HexDigit(Peek(text, pos + 2)), HexDigit(Peek(text, pos + 3))];
      while i < 4
        invariant 0 <= i <= 4 && pos == start + i && Valid() && !error
        invariant forall k | 0 <= k < i :: d[k].Hex?
        invariant i == 0 ==> codepoint == 0
        invariant i == 1 ==> codepoint == d[0].value
        invariant i == 2 ==> codepoint == d[0].value * 16 + d[1].value
        invariant i == 3 ==> codepoint == d[0].value * 256 + d[1].value * 16 + d[2].value
        invariant i == 4 ==> codepoint == d[0].value * 4096 + d[1].value * 256 + d[2].value * 16 + d[3].value
      {
        var h := HexDigit(Peek(text, pos));
        assert h == d[i];
        if h.NoHex? {
          error := true;
          return;
        }
        codepoint := codepoint * 16 + h.value;
        pos := pos + 1;
        i := i + 1;
      }
    }

    /** A \u escape behind its `u`, put on the output. */
    method ParseUnicode() returns (s: string)
      requires Valid() && !error
      modifies this`pos, this`error
      ensures Valid()
      ensures
        var r := JsonScalars.ParseUnicode(text, old(pos));
        error == r.Broken? && (r.Text? ==> pos == r.pos && s == r.s)
    {
      hide JsonScalars.ParseHex4, CodeUnits;
      s := "";
      var codepoint := ParseHex4();
      if error { return; }
      if 0xD800 <= codepoint <= 0xDBFF {
        var ok := Consume('\\');
        if ok { ok := Consume('u'); }
        if !ok {
          error := true;
          return;
        }
        var codepoint2 := ParseHex4();
        if error { return; }
        if codepoint2 < 0xDC00 || codepoint2 > 0xDFFF {
          error := true;
          return;
        }
        codepoint := (codepoint - 0xD800) * 0x400 + (codepoint2 - 0xDC00) + 0x10000;
      }
      s := CodeUnits(codepoint);
    }

    /** One turn of the string loop: an escape or a plain character, put on the output. */
    method ParseUnit() returns (s: string)
      requires Valid() && !error
      modifies this`pos, this`error
      ensures Valid()
      ensures
        var r := JsonScalars.ParseUnit(text, old(pos));
        error == r.Broken? && (r.Text? ==> pos == r.pos && s == r.s)
    {
      hide JsonScalars.ParseUnicode;
      s := "";
      var c := Peek(text, pos);
      if c == '\\' {
        var e := Peek(text, pos + 1);
        if Unescape(e) != NUL {
          pos := pos + 2;
          s := [Unescape(e)];
        } else if e == 'u' {
          pos := pos + 2;
          s := ParseUnicode();
        } else {
          error := true;
        }
      } else if c as int < 0x20 {
        error := true;
      } else {
        pos := pos + 1;
        s := [c];
      }
    }

    method ParseString(isKey: bool)
      requires Valid() && !error && Peek(text, pos) == '"'
      modifies this`pos, this`events, this`error
      ensures Did(FromScalar(JsonScalars.ParseString(text, old(pos), isKey)), old(events))
    {
      hide JsonScalars.ParseUnit;
      pos := pos + 1;
      var os := "";
      ghost var whole := ParseChars(text, pos);
      while Peek(text, pos) != '"'
        invariant Valid() && !error && events == old(events)
        invariant
          var rest := ParseChars(text, pos);
          whole == if rest.Broken? then Broken else Text(rest.pos, os + rest.s)
        decreases |text| - pos
      {
        ghost var rest := ParseChars(text, pos);
        var s := ParseUnit();
        if error { return; }
        assert rest.Text? ==> os + (s + ParseChars(text, pos).s) == os + s + ParseChars(text, pos).s;
        os := os + s;
      }
      pos := pos + 1;
      assert os + "" == os;
      events := events + [if isKey then Key(os) else String(os)];
    }

    /** Digits into an unsigned accumulator of the given width; it never wraps around. */
    method Accumulate(acc0: nat, count0: nat, limit: nat, last: char, width: nat)
      returns (acc: nat, count: nat, full: bool)
      requires Valid() && IsDigit(last) && acc0 <= Max(limit, last) < width
      modifies this`pos
      ensures Valid() && TakeDigits(text, old(pos), acc0, count0, limit, last) == Digits(pos, acc, count, full)
      ensures acc <= Max(limit, last)
    {
      acc, count, full := acc0, count0, false;
      while IsDigit(Peek(text, pos))
        invariant Valid() && acc <= Max(limit, last) && !full
        invariant TakeDigits(text, pos, acc, count, limit, last) == TakeDigits(text, old(pos), acc0, count0, limit, last)
        decreases |text| - pos
      {
        var c := Peek(text, pos);
        if acc >= limit {
          if acc != limit || c > last {
            full := true;
            return;
          }
        }
        SmallMod(acc * 10 + DigitValue(c), width);
        acc := (acc * 10 + DigitValue(c)) % width;
        pos := pos + 1;
        count := count + 1;
      }
    }

    /** The integer part of a number, in the narrowest form that holds it. */
    method ParseInteger(minus: bool) returns (n: Number)
      requires Valid() && !error
      modifies this`pos, this`error
      ensures Valid()
      ensures
        var r := JsonScalars.ParseInteger(text, old(pos), minus);
        error == r.None? && (r.Some? ==> n == r.value && pos == n.pos)
      ensures !error && !n.isDouble ==> InRange(minus, n.integer) && (!n.wide ==> InRange32(minus, n.integer))
    {
      hide TakeDigits, TakeBig;
      n := Number(pos, false, false, 0, 0.0, 0, 0);
      var c := Peek(text, pos);
      if c == '0' {
        pos := pos + 1;
        n := Number(pos, false, false, 0, 0.0, 0, 0);
      } else if '1' <= c <= '9' {
        pos := pos + 1;
        var i, digits, use64bit := Accumulate(DigitValue(c), 0, Limit32(minus).0, Limit32(minus).1, WORD32);
        if !use64bit {
          n := Number(pos, false, false, i, 0.0, digits, 0);
        } else {
          var i64, digits64, useDouble := Accumulate(i, digits, Limit64(minus).0, Limit64(minus).1, 0x1_0000_0000_0000_0000);
          if !useDouble {
            n := Number(pos, true, false, i64, 0.0, digits64, 0);
          } else {
            var d := TakeBigDigits(i64 as real);
            if !error { n := Number(pos, true, true, i64, d, digits64, 0); }
          }
        }
      } else {
        error := true;
      }
    }

    method TakeBigDigits(d0: real) returns (d: real)
      requires Valid() && !error
      modifies this`pos, this`error
      ensures Valid()
      ensures
        var r := TakeBig(text, old(pos), d0);
        error == r.None? && (r.Some? ==> r.value == (pos, d))
    {
      d := d0;
      while IsDigit(Peek(text, pos))
        invariant Valid() && !error && TakeBig(text, pos, d) == TakeBig(text, old(pos), d0)
        decreases |text| - pos
      {
        if d >= TOO_BIG {
          error := true;
          return;
        }
        d := d * 10.0 + DigitValue(Peek(text, pos)) as real;
        pos := pos + 1;
      }
    }

    method ParseFraction(n0: Number) returns (n: Number)
      requires Valid() && !error && pos == n0.pos
      modifies this`pos, this`error
      ensures Valid()
      ensures
        var r := JsonScalars.ParseFraction(text, n0);
        error == r.None? && (r.Some? ==> n == r.value && pos == n.pos)
      ensures !error && !n.isDouble ==> n == n0
    {
      n := n0;
      var dot := Consume('.');
      if !dot { return; }
      if !IsDigit(Peek(text, pos)) {
        error := true;
        return;
      }
      var d, digits, expFrac := n0.significand, n0.digits, 0;
      ghost var f := TakeFraction64(text, pos, n0.integer, digits, expFrac);
      ghost var whole := if n0.isDouble then TakeFraction(text, pos, d, digits, expFrac)
                         else TakeFraction(text, f.pos, f.significand, f.digits, f.fraction);
      if !n0.isDouble {
        var i64: nat := n0.integer;
        while IsDigit(Peek(text, pos)) && i64 <= 0x1F_FFFF_FFFF_FFFF
          invariant Valid() && !error && TakeFraction64(text, pos, i64, digits, expFrac) == f
          decreases |text| - pos
        {
          i64 := i64 * 10 + DigitValue(Peek(text, pos));
          pos := pos + 1;
          expFrac := expFrac - 1;
          if i64 != 0 { digits := digits + 1; }
        }
        d := i64 as real;
      }
      while IsDigit(Peek(text, pos))
        invariant Valid() && !error && TakeFraction(text, pos, d, digits, expFrac) == whole
        decreases |text| - pos
      {
        if digits < 17 {
          d := d * 10.0 + DigitValue(Peek(text, pos)) as real;
          expFrac := expFrac - 1;
          if d > 0.0 { digits := digits + 1; }
        }
        pos := pos + 1;
      }
      n := Number(pos, true, true, 0, d, digits, expFrac);
    }

    /** The digits of a negative exponent; the accumulator stays a non-negative 32-bit integer. */
    method TakeNegative(exp0: nat) returns (exp: nat)
      requires Valid() && exp0 < 10
      modifies this`pos
      ensures Valid() && TakeNegativeExponent(text, old(pos), exp0) == (pos, exp) && exp < 0x8000_0000
    {
      exp := exp0;
      while IsDigit(Peek(text, pos))
        invariant Valid() && exp < 0x8000_0000
        invariant exp < 214748364 ==> TakeNegativeExponent(text, pos, exp) == TakeNegativeExponent(text, old(pos), exp0)
        invariant exp >= 214748364 ==> !IsDigit(Peek(text, pos)) && (pos, exp) == TakeNegativeExponent(text, old(pos), exp0)
        decreases |text| - pos
      {
        exp := exp * 10 + DigitValue(Peek(text, pos));
        pos := pos + 1;
        if exp >= 214748364 {
          ghost var start := pos;
          while IsDigit(Peek(text, pos))
            invariant Valid() && SkipDigits(text, pos) == SkipDigits(text, start)
            decreases |text| - pos
          {
            pos := pos + 1;
          }
        }
      }
    }

    method TakePositive(exp0: nat, maxExp: int) returns (exp: nat)
      requires Valid() && !error
      modifies this`pos, this`error
      ensures Valid()
      ensures
        var r := TakeExponent(text, old(pos), exp0, maxExp);
        error == r.None? && (r.Some? ==> r.value == (pos, exp))
    {
      exp := exp0;
      while IsDigit(Peek(text, pos))
        invariant Valid() && !error && TakeExponent(text, pos, exp, maxExp) == TakeExponent(text, old(pos), exp0, maxExp)
        decreases |text| - pos
      {
        exp := exp * 10 + DigitValue(Peek(text, pos));
        pos := pos + 1;
        if exp > maxExp {
          error := true;
          return;
        }
      }
    }

    /** The sign and digits behind the letter of an exponent. */
    method TakeExponentDigits(fraction: int) returns (exp: int)
      requires Valid() && !error
      modifies this`pos, this`error
      ensures Valid()
      ensures
        var r := ExponentDigits(text, old(pos), fraction);
        error == r.None? && (r.Some? ==> r.value == (pos, exp))
    {
      hide TakeNegativeExponent, TakeExponent;
      exp := 0;
      var expMinus := false;
      var plus := Consume('+');
      if !plus { expMinus := Consume('-'); }
      if !IsDigit(Peek(text, pos)) {
        error := true;
        return;
      }
      var first := DigitValue(Peek(text, pos));
      pos := pos + 1;
      if expMinus {
        exp := TakeNegative(first);
        exp := -exp;
      } else {
        exp := TakePositive(first, 308 - fraction);
      }
    }

    /** An optional exponent, then the event for the whole number. */
    method ParseExponent(minus: bool, n0: Number)
      requires Valid() && !error && pos == n0.pos
      requires !n0.isDouble ==> InRange(minus, n0.integer) && (!n0.wide ==> InRange32(minus, n0.integer))
      modifies this`pos, this`events, this`error
      ensures Did(FromScalar(JsonScalars.ParseExponent(text, minus, n0)), old(events))
    {
      hide ExponentDigits;
      var n, exp: int := n0, 0;
      var e := Consume('e');
      if !e { e := Consume('E'); }
      if e {
        n := AsDouble(n0);
        exp := TakeExponentDigits(n0.fraction);
        if error { return; }
      }
      Emit(minus, n, exp);
    }

    /** The handler call for a number; negative integers come from two's complement. */
    method Emit(minus: bool, n: Number, exp: int)
      requires !n.isDouble ==> InRange(minus, n.integer) && (!n.wide ==> InRange32(minus, n.integer))
      modifies this`events
      ensures events == old(events) + [JsonScalars.Finish(minus, n, 0, exp).event]
    {
      var event;
      if n.isDouble {
        event := Double(minus, n.significand, exp + n.fraction);
      } else if n.wide {
        event := if minus then Int64(Signed(Negated(n.integer, 0x1_0000_0000_0000_0000), 0x1_0000_0000_0000_0000))
                 else Uint64(n.integer);
      } else {
        event := if minus then Int(Signed(Negated(n.integer, WORD32), WORD32)) else Uint(n.integer);
      }
      events := events + [event];
    }

    method ParseNumber()
      requires Valid() && !error
      modifies this`pos, this`events, this`error
      ensures Did(FromScalar(JsonScalars.ParseNumber(text, old(pos))), old(events))
    {
      hide JsonScalars.ParseInteger, JsonScalars.ParseFraction, JsonScalars.ParseExponent;
      var minus := Consume('-');
      var n := ParseInteger(minus);
      if error { return; }
      var f := ParseFraction(n);
      if error { return; }
      ParseExponent(minus, f);
    }

    method ParseValue()
      requires Valid() && !error
      modifies this`pos, this`events, this`error
      ensures Did(JsonReader.ParseValue(text, old(pos)), old(events))
      decreases |text| - pos, 1
    {
      hide JsonScalars.ParseLiteral, JsonScalars.ParseString, JsonScalars.ParseNumber;
      match Peek(text, pos)
      case 'n' => ParseLiteral("null", Null);
      case 't' => ParseLiteral("true", Bool(true));
      case 'f' => ParseLiteral("false", Bool(false));
      case '"' => ParseString(false);
      case '{' => ParseObject();
      case '[' => ParseArray();
      case _ => ParseNumber();
    }

    /**
     One turn of the array loop: an element and what follows it.  With a comma there is more,
     and `done` is what was reported so far.
     */
    method ParseElement(count: nat) returns (more: bool, ghost done: seq<Event>)
      requires Valid() && !error
      modifies this`pos, this`events, this`error
      ensures
        var r := ParseElements(text, old(pos), count);
        if more then
          && Valid() && !error && pos > old(pos) && events == old(events) + done
          && r == Prepend(done, ParseElements(text, pos, Inc(count)))
        else Did(r, old(events))
      decreases |text| - pos, 2
    {
      hide JsonReader.ParseValue;
      more, done := false, [];
      ghost var v := JsonReader.ParseValue(text, pos);
      ParseValue();
      if error {
        return;
      }
      SkipWhitespace();
      done := v.events;
      var comma := Consume(',');
      if comma {
        SkipWhitespace();
        more := true;
      } else {
        var end := Consume(']');
        if end {
          Associate(old(events), done, [EndArray(Inc(count))]);
          events := events + [EndArray(Inc(count))];
        } else {
          assert done + [] == done;
          error := true;
        }
      }
    }

    method ParseArray()
      requires Valid() && !error && Peek(text, pos) == '['
      modifies this`pos, this`events, this`error
      ensures Did(JsonReader.ParseArray(text, old(pos)), old(events))
      decreases |text| - pos, 0
    {
      hide ParseElements;
      ghost var whole := JsonReader.ParseArray(text, pos);
      ghost var start := pos;
      pos := pos + 1;
      events := events + [StartArray];
      SkipWhitespace();
      var empty := Consume(']');
      if empty {
        events := events + [EndArray(0)];
        return;
      }
      var elementCount, more := 0, true;
      ghost var done := [StartArray];
      while more
        invariant more ==> Valid() && !error && pos > start && events == old(events) + done
        invariant more ==> whole == Prepend(done, ParseElements(text, pos, elementCount))
        invariant !more ==> Did(whole, old(events))
        decreases more, |text| - pos
      {
        ghost var r := ParseElements(text, pos, elementCount);
        ghost var item;
        more, item := ParseElement(elementCount);
        elementCount := Inc(elementCount);
        if more {
          AfterItem(done, item, ParseElements(text, pos, elementCount));
          Associate(old(events), done, item);
          done := done + item;
        } else {
          Associate(old(events), done, r.events);
        }
      }
    }

    /** A member's name, the colon, and white space up to the value. */
    method ParseName()
      requires Valid() && !error
      modifies this`pos, this`events, this`error
      ensures Did(JsonReader.ParseName(text, old(pos)), old(events))
    {
      hide JsonScalars.ParseString;
      if Peek(text, pos) != '"' {
        error := true;
        return;
      }
      ParseString(true);
      if error {
        return;
      }
      SkipWhitespace();
      var colon := Consume(':');
      if !colon {
        error := true;
        return;
      }
      SkipWhitespace();
    }

    /** One turn of the object loop: a member and what follows it. */
    method ParseMember(count: nat) returns (more: bool, ghost done: seq<Event>)
      requires Valid() && !error
      modifies this`pos, this`events, this`error
      ensures
        var r := ParseMembers(text, old(pos), count);
        if more then
          && Valid() && !error && pos > old(pos) && events == old(events) + done
          && r == Prepend(done, ParseMembers(text, pos, Inc(count)))
        else Did(r, old(events))
      decreases |text| - pos, 2
    {
      hide JsonReader.ParseName, ParseMemberValue;
      more, done := false, [];
      ghost var k := JsonReader.ParseName(text, pos);
      ParseName();
      if error {
        return;
      }
      ghost var r := ParseMemberValue(text, pos, count);
      ghost var item;
      more, item := ParseMemberRest(count);
      if more {
        AfterItem(k.events, item, ParseMembers(text, pos, Inc(count)));
        Associate(old(events), k.events, item);
      } else {
        Associate(old(events), k.events, r.events);
      }
      done := k.events + item;
    }

    method ParseMemberRest(count: nat) returns (more: bool, ghost done: seq<Event>)
      requires Valid() && !error
      modifies this`pos, this`events, this`error
      ensures
        var r := ParseMemberValue(text, old(pos), count);
        if more then
          && Valid() && !error && pos > old(pos) && events == old(events) + done
          && r == Prepend(done, ParseMembers(text, pos, Inc(count)))
        else Did(r, old(events))
      decreases |text| - pos, 2
    {
      hide JsonReader.ParseValue, ParseMembers;
      more, done := false, [];
      ghost var v := JsonReader.ParseValue(text, pos);
      ParseValue();
      if error {
        return;
      }
      SkipWhitespace();
      done := v.events;
      var comma := Consume(',');
      if comma {
        SkipWhitespace();
        more := true;
      } else {
        var end := Consume('}');
        if end {
          Associate(old(events), done, [EndObject(Inc(count))]);
          events := events + [EndObject(Inc(count))];
        } else {
          assert done + [] == done;
          error := true;
        }
      }
    }

    method ParseObject()
      requires Valid() && !error && Peek(text, pos) == '{'
      modifies this`pos, this`events, this`error
      ensures Did(JsonReader.ParseObject(text, old(pos)), old(events))
      decreases |text| - pos, 0
    {
      hide ParseMembers;
      ghost var whole := JsonReader.ParseObject(text, pos);
      ghost var start := pos;
      pos := pos + 1;
      events := events + [StartObject];
      SkipWhitespace();
      var empty := Consume('}');
      if empty {
        events := events + [EndObject(0)];
        return;
      }
      var memberCount, more := 0, true;
      ghost var done := [StartObject];
      while more
        invariant more ==> Valid() && !error && pos > start && events == old(events) + done
        invariant more ==> whole == Prepend(done, ParseMembers(text, pos, memberCount))
        invariant !more ==> Did(whole, old(events))
        decreases more, |text| - pos
      {
        ghost var r := ParseMembers(text, pos, memberCount);
        ghost var item;
        more, item := ParseMember(memberCount);
        memberCount := Inc(memberCount);
        if more {
          AfterItem(done, item, ParseMembers(text, pos, memberCount));
          Associate(old(events), done, item);
          done := done + item;
        } else {
          Associate(old(events), done, r.events);
        }
      }
    }

    method Parse() returns (ok: bool)
      requires pos == 0 && !error && events == []
      modifies this`pos, this`events, this`error
      ensures JsonReader.Parse(text) == Outcome(ok, events)
    {
      hide JsonReader.ParseValue;
      SkipWhitespace();
      if Peek(text, pos) == NUL {
        error := true;
        return false;
      }
      ParseValue();
      if error {
        return false;
      }
      SkipWhitespace();
      if Peek(text, pos) != NUL {
        error := true;
      }
      return !error;
    }

    /** Pushes a frame for an object or array and goes inside. */
    method Open(src: State, event: Event)
      requires pos < |text|
      modifies this`pos, this`events, this`stack
      ensures pos == old(pos) + 1 && events == old(events) + [event]
      ensures stack == old(stack) + [Frame(Resume(src), 0)]
    {
      stack := stack + [Frame(Resume(src), 0)];
      events := events + [event];
      pos := pos + 1;
    }

    /** Counts one more item in the top frame. */
    method CountItem(dst: State)
      requires pos < |text| && Nested(stack)
      modifies this`pos, this`stack
      ensures Valid() && Move(dst, pos, stack, []) == JsonReader.Count(old(pos), dst, old(stack))
    {
      pos := pos + 1;
      var top := |stack| - 1;
      stack := stack[top := stack[top].(count := Inc(stack[top].count))];
    }

    /** Pops the top frame and reports the end of the object or array with its number of items. */
    method Close(isObject: bool, more: bool) returns (state: State)
      requires pos < |text| && Nested(stack)
      modifies this`pos, this`events, this`stack
      ensures Valid()
      ensures
        var c := Total(old(stack), more);
        var event := if isObject then EndObject(c) else EndArray(c);
        Move(state, pos, stack, [event]) == JsonReader.Close(old(pos), old(stack), event) && events == old(events) + [event]
    {
      var c := stack[|stack| - 1].count;
      if more { c := Inc(c); }
      state := Reopen(stack[|stack| - 1].state);
      stack := stack[..|stack| - 1];
      events := events + [if isObject then EndObject(c) else EndArray(c)];
      pos := pos + 1;
    }

    /** Advances the stream and the state; the stack gains, changes or loses its top frame. */
    method Transit(src: State, dst: State) returns (state: State)
      requires pos < |text| && !error && Coherent(src, stack) && dst == Predict(src, Tokenize(text[pos]))
      modifies this`pos, this`events, this`error, this`stack
      ensures Valid()
      ensures
        var m := JsonReader.Transit(text, old(pos), src, dst, old(stack));
        && state == m.state && events == old(events) + m.events
        && (state != Error ==> pos == m.pos && stack == m.stack && !error)
    {
      hide JsonScalars.ParseString, ParseScalar, JsonReader.ParseValue, Nested, JsonReader.Close, JsonReader.Count, Total;
      state := dst;
      match dst
      case Error =>
      case ObjectInitial => Open(src, StartObject);
      case ArrayInitial => Open(src, StartArray);
      case MemberKey =>
        ParseString(true);
        if error { state := Error; }
      case KeyValueDelimiter =>
        pos := pos + 1;
      case MemberValue | Element =>
        ParseValue();
        ScalarValue(text, old(pos));
        if error { state := Error; }
      case MemberDelimiter | ElementDelimiter => CountItem(dst);
      case ObjectFinish =>
        if src == MemberDelimiter {
          error, state := true, Error;
        } else {
          state := Close(true, src == MemberValue);
        }
      case ArrayFinish =>
        if src == ElementDelimiter {
          error, state := true, Error;
        } else {
          state := Close(false, src == Element);
        }
      case SingleValue =>
        ParseValue();
        ScalarValue(text, old(pos));
        state := if error then Error else Finish;
      case Start | Finish =>
        assert false;
    }

    method IterativeParse() returns (ok: bool)
      requires pos == 0 && !error && events == [] && stack == []
      modifies this`pos, this`events, this`error, this`stack
      ensures JsonReader.IterativeParse(text) == Outcome(ok, events)
    {
      hide JsonReader.Transit, Predict, Coherent;
      var state := Start;
      SkipWhitespace();
      StartIsCoherent();
      ghost var whole := Drive(text, pos, Start, []);
      while Peek(text, pos) != NUL
        invariant Valid() && !error && Coherent(state, stack)
        invariant
          var rest := Drive(text, pos, state, stack);
          whole == Outcome(rest.ok, events + rest.events)
        decreases |text| - pos
      {
        ghost var before := events;
        ghost var m := JsonReader.Transit(text, pos, state, Predict(state, Tokenize(text[pos])), stack);
        var d := Transit(state, Predict(state, Tokenize(text[pos])));
        if d == Error {
          error := true;
          return false;
        }
        state := d;
        SkipWhitespace();
        Associate(before, m.events, Drive(text, pos, state, stack).events);
      }
      assert events + [] == events;
      error := state != Finish;
      return !error;
    }
  }

  lemma StartIsCoherent()
    ensures Coherent(Start, [])
  {
  }

  /** A scalar token starts a scalar value. */
  lemma ScalarValue(t: string, i: nat)
    requires i < |t| && IsScalarToken(Tokenize(t[i]))
    ensures JsonReader.ParseValue(t, i) == FromScalar(ParseScalar(t, i))
  {
    hide ParseScalar;
  }

  lemma AfterItem(a: seq<Event>, b: seq<Event>, r: Parsed)
    ensures Prepend(a, Prepend(b, r)) == Prepend(a + b, r)
  {
    Associate(a, b, r.events);
  }

  lemma SmallMod(x: nat, width: nat)
    requires x < width
    ensures x % width == x
  {
  }

  /** ~i + 1 in unsigned arithmetic of the given width. */
  function Negated(i: nat, width: nat): nat
    requires i <= width && width > 0
  {
    (width - i) % width
  }

  /** Reading an unsigned word as a signed one. */
  function Signed(u: nat, width: nat): int {
    if 2 * u >= width then u - width else u
  }

  class Writer {
    var os: string
    var levels: seq<W.Level>
    var hasRoot: bool

    function View(): W.State
      reads this
    {
      W.State(os, levels, hasRoot)
    }

    constructor ()
      ensures View() == W.EMPTY
    {
      os, levels, hasRoot := "", [], false;
    }

    /** The separator in front of a value, and one value more on its level. */
    method Prefix(isString: bool)
      requires W.Ready(View(), isString)
      modifies this
      ensures View() == W.Prefix(old(View()))
    {
      if levels != [] {
        var k := |levels| - 1;
        var level := levels[k];
        if level.valueCount > 0 {
          if level.inArray {
            os := os + ",";
          } else {
            os := os + (if level.valueCount % 2 == 0 then "," else ":");
          }
        }
        levels := levels[k := level.(valueCount := level.valueCount + 1)];
      } else {
        hasRoot := true;
      }
    }

    method PutChar(c: char)
      modifies this`os
      ensures os == old(os) + W.EscapeChar(c)
    {
      var e := W.EscapeLetter(c);
      if e == NUL {
        os := os + [c];
      } else {
        os := os + ['\\', e];
        if e == 'u' {
          os := os + ['0', '0', W.HexChar(c as int / 16), W.HexChar(c as int % 16)];
        }
      }
    }

    /** A string in quotes, character by character, escaping what must be escaped. */
    method WriteString(s: string)
      modifies this`os
      ensures os == old(os) + W.Quote(s)
    {
      hide W.EscapeChar;
      os := os + "\"";
      var i := 0;
      ghost var start := os;
      while i < |s|
        invariant 0 <= i <= |s| && os + W.Escape(s[i..]) == start + W.Escape(s)
      {
        assert s[i..][1..] == s[i + 1..];
        W.Join(os, W.EscapeChar(s[i]), W.Escape(s[i + 1..]));
        PutChar(s[i]);
        i := i + 1;
      }
      assert s[|s|..] == "" && os + "" == os;
      W.Join(old(os), "\"", W.Escape(s));
      W.Join(old(os), "\"" + W.Escape(s), "\"");
      os := os + "\"";
    }

    method Null()
      requires W.Accepts(View(), JsonScalars.Null)
      modifies this
      ensures View() == W.Write(old(View()), JsonScalars.Null)
    {
      Prefix(false);
      os := os + "null";
    }

    method Bool(b: bool)
      requires W.Accepts(View(), JsonScalars.Bool(b))
      modifies this
      ensures View() == W.Write(old(View()), JsonScalars.Bool(b))
    {
      Prefix(false);
      os := os + (if b then "true" else "false");
    }

    /** Int, Uint, Int64 and Uint64: the decimal digits of the number. */
    method Integer(n: int)
      requires W.Accepts(View(), Int64(n))
      modifies this
      ensures View() == W.Write(old(View()), Int64(n))
    {
      Prefix(false);
      os := os + W.Decimal(n);
    }

    /** Strings and names are written alike. */
    method String(s: string)
      requires W.Accepts(View(), JsonScalars.String(s))
      modifies this
      ensures View() == W.Write(old(View()), JsonScalars.String(s)) == W.Write(old(View()), Key(s))
    {
      hide W.Quote;
      Prefix(true);
      WriteString(s);
    }

    method StartArray()
      requires W.Accepts(View(), JsonScalars.StartArray)
      modifies this
      ensures View() == W.Write(old(View()), JsonScalars.StartArray)
    {
      Prefix(false);
      levels := levels + [W.Level(0, true)];
      os := os + "[";
    }

    method EndArray(count: nat)
      requires W.Accepts(View(), JsonScalars.EndArray(count))
      modifies this
      ensures View() == W.Write(old(View()), JsonScalars.EndArray(count))
    {
      levels := levels[..|levels| - 1];
      os := os + "]";
    }

    method StartObject()
      requires W.Accepts(View(), JsonScalars.StartObject)
      modifies this
      ensures View() == W.Write(old(View()), JsonScalars.StartObject)
    {
      Prefix(false);
      levels := levels + [W.Level(0, false)];
      os := os + "{";
    }

    method EndObject(count: nat)
      requires W.Accepts(View(), JsonScalars.EndObject(count))
      modifies this
      ensures View() == W.Write(old(View()), JsonScalars.EndObject(count))
    {
      levels := levels[..|levels| - 1];
      os := os + "}";
    }
  }
}
