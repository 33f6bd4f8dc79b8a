/** The pointer as an object: tokens whose names lie in one buffer, filled by a walk over the text. */
module PointerObject {
  import opened Bytes
  import opened Options
  import opened Utf8
  import opened Utf8Streams
  import opened Pointer

  /** A token: where its name lies in the buffer, and its index. */
  datatype Slot = Slot(start: nat, length: nat, index: nat)

  ghost predicate Within(slots: seq<Slot>, end: nat) {
    forall k | 0 <= k < |slots| :: slots[k].start + slots[k].length <= end
  }

  function Cut(slot: Slot, names: seq<Byte>): seq<Byte>
    requires slot.start + slot.length <= |names|
  {
    names[slot.start..slot.start + slot.length]
  }

  function View(slots: seq<Slot>, names: seq<Byte>): (r: seq<Token>)
    requires Within(slots, |names|)
    ensures |r| == |slots|
    ensures forall k | 0 <= k < |slots| :: r[k] == Token(Cut(slots[k], names), slots[k].index)
  {
    seq(|slots|, k requires 0 <= k < |slots| && Within(slots, |names|) => Token(Cut(slots[k], names), slots[k].index))
  }

  lemma CutIsStable(slot: Slot, names: seq<Byte>, more: seq<Byte>)
    requires slot.start + slot.length <= |names|
    ensures Cut(slot, names + more) == Cut(slot, names)
  {
  }

  lemma ViewIsStable(slots: seq<Slot>, names: seq<Byte>, more: seq<Byte>)
    requires Within(slots, |names|)
    ensures View(slots, names + more) == View(slots, names)
  {
    hide View, Cut;
    forall k | 0 <= k < |slots| ensures View(slots, names + more)[k] == View(slots, names)[k] {
      CutIsStable(slots[k], names, more);
    }
  }

  method DecodeRun(source: seq<Byte>, i: nat) returns (run: seq<Byte>)
    ensures run == Run(source, i)
  {
    run := [];
    var p := i;
    while Triplet(source, p).Some?
      invariant run + Run(source, p) == Run(source, i)
      decreases |source| - p
    {
      run := run + [Triplet(source, p).value];
      p := p + 3;
    }
  }

  /** A name's bytes so far, then the rest of it. */
  function Prefixed(bytes: seq<Byte>, digits: bool, rest: Named): Named {
    if rest.BadName? then rest else Name(bytes + rest.bytes, digits && rest.digits, rest.next)
  }

  /** One turn of the inner loop: the bytes that go into the buffer. */
  method ReadPiece(source: seq<Byte>, i: nat, uri: bool) returns (r: Piece)
    requires i < |source|
    ensures r == TakePiece(source, i, uri)
  {
    hide Validate, Run;
    var c, next := source[i], i + 1;
    if uri {
      if c == PERCENT {
        var run := DecodeRun(source, i);
        var input := new Input(run);
        var out := new Output<Byte>();
        var ok := input.Validate(out);
        assert input.src[0..] == run && out.put[0..] == out.put;
        if run == [] || !ok {
          return Bad(InvalidPercentEncoding, i);
        }
        ValidateIsDecode(run);
        if |out.put| != 1 {
          return Piece(out.put, false, i + 3 * |out.put|);
        }
        c, next := out.put[0], i + 3;
      } else if NeedPercentEncode(c) {
        return Bad(CharacterMustPercentEncode, i);
      }
    }
    if c == TILDE {
      if next < |source| {
        if source[next] == ZERO {
          return Piece([TILDE], false, next + 1);
        } else if source[next] == ONE {
          return Piece([SLASH], false, next + 1);
        }
      }
      return Bad(InvalidEscape, next);
    }
    r := Piece([c], Digit(c), next);
  }

  /** Writes one name into the buffer from `at` on. */
  method ReadName(source: seq<Byte>, i: nat, uri: bool, names: array<Byte>, at: nat)
    returns (failed: Option<Error>, number: bool, next: nat, end: nat)
    requires at <= i <= |source| == names.Length
    modifies names
    ensures at <= end <= next <= |source| || failed.Some?
    ensures names[..at] == old(names[..at])
    ensures failed.Some? ==> TakeName(source, i, uri) == BadName(failed.value, next)
    ensures failed.None? ==> TakeName(source, i, uri) == Name(names[at..end], number, next)
  {
    hide TakePiece, TakeName;
    number, next, end := true, i, at;
    ghost var before, text := names[..at], [];
    NoBytesYet(source, i, uri);
    while next < |source| && source[next] != SLASH
      invariant at <= end <= next <= |source| && end == at + |text|
      invariant names[..end] == before + text
      invariant TakeName(source, i, uri) == Prefixed(text, number, TakeName(source, next, uri))
      decreases |source| - next
    {
      var piece := ReadPiece(source, next, uri);
      OnePiece(source, next, uri, text, number);
      match piece
      case Bad(error, offset) =>
        return Some(error), number, offset, end;
      case Piece(bytes, digit, after) =>
        Write(names, end, bytes);
        text := text + bytes;
        end, next, number := end + |bytes|, after, number && digit;
    }
    NameStops(source, next, uri);
    assert names[at..end] == text && names[..end][..at] == names[..at];
    failed := None;
  }

  method Write(names: array<Byte>, at: nat, bytes: seq<Byte>)
    requires at + |bytes| <= names.Length
    modifies names
    ensures names[..at + |bytes|] == old(names[..at]) + bytes
  {
    forall k | 0 <= k < |bytes| {
      names[at + k] := bytes[k];
    }
  }

  lemma NoBytesYet(source: seq<Byte>, i: nat, uri: bool)
    ensures TakeName(source, i, uri) == Prefixed([], true, TakeName(source, i, uri))
  {
    hide TakeName;
    var r := TakeName(source, i, uri);
    if r.Name? { assert [] + r.bytes == r.bytes; }
  }

  lemma NameStops(source: seq<Byte>, i: nat, uri: bool)
    requires i >= |source| || source[i] == SLASH
    ensures TakeName(source, i, uri) == Name([], true, i)
  {
  }

  lemma OnePiece(source: seq<Byte>, i: nat, uri: bool, text: seq<Byte>, number: bool)
    requires i < |source| && source[i] != SLASH
    ensures var piece := TakePiece(source, i, uri);
            Prefixed(text, number, TakeName(source, i, uri)) ==
            if piece.Bad? then BadName(piece.error, piece.offset)
            else Prefixed(text + piece.bytes, number && piece.digit, TakeName(source, piece.next, uri))
  {
    hide TakePiece;
    var piece := TakePiece(source, i, uri);
    if piece.Piece? && TakeName(source, piece.next, uri).Name? {
      var rest := TakeName(source, piece.next, uri).bytes;
      assert text + (piece.bytes + rest) == text + piece.bytes + rest;
    }
  }

  method ReadIndex(name: seq<Byte>, digits: bool) returns (index: nat)
    ensures index == Index(name, digits)
  {
    var number := digits && name != [];
    if number && |name| > 1 && name[0] == ZERO {
      number := false;
    }
    var n, j := 0, 0;
    if number {
      while j < |name|
        invariant 0 <= j <= |name| && n >= 0 && ToIndex(name[j..], n) == ToIndex(name, 0)
      {
        var c: int := name[j];
        var m := (n * 10 + (c - 0x30) % WORD32) % WORD32;
        assert name[j..][1..] == name[j + 1..];
        if m < n {
          number := false;
          break;
        }
        n, j := m, j + 1;
      }
    }
    index := if number then n else INVALID_INDEX;
  }

  function Joined(done: seq<Token>, rest: Parsed): Parsed {
    if rest.Failed? then rest else Tokens(done + rest.tokens)
  }

  method CountSlashes(source: seq<Byte>) returns (n: nat)
    ensures n == Slashes(source, 0)
  {
    n := 0;
    var i := 0;
    while i < |source|
      invariant 0 <= i <= |source| && n + Slashes(source, i) == Slashes(source, 0)
    {
      if source[i] == SLASH {
        n := n + 1;
      }
      i := i + 1;
    }
  }

  class GenericPointer {
    var slots: array<Slot>
    var names: array<Byte>
    var failure: Option<Error>
    var errorOffset: nat

    ghost predicate Valid()
      reads this, slots, names
    {
      Within(slots[..], names.Length)
    }

    ghost function Contents(): Parsed
      requires Valid()
      reads this, slots, names
    {
      if failure.Some? then Failed(failure.value, errorOffset) else Tokens(View(slots[..], names[..]))
    }

    constructor (source: seq<Byte>)
      ensures Valid() && Contents() == Pointer.Parse(source)
    {
      slots, names, failure, errorOffset := new Slot[0], new Byte[0], None, 0;
      new;
      Parse(source);
    }

    method Parse(source: seq<Byte>)
      modifies this
      ensures Valid() && Contents() == Pointer.Parse(source)
    {
      hide TakeTokens;
      var count := CountSlashes(source);
      var tokens, buffer := new Slot[count](_ => Slot(0, 0, 0)), new Byte[|source|];
      var i, uri := 0, false;
      if |source| > 0 && source[0] == HASH {
        i, uri := 1, true;
      }
      failure, errorOffset := None, 0;
      if i != |source| && source[i] != SLASH {
        failure, errorOffset := Some(TokenMustBeginWithSolidus), i;
      } else {
        failure, errorOffset := ParseTokens(source, i, uri, tokens, buffer);
      }
      if failure.Some? {
        slots, names := new Slot[0], new Byte[0];
      } else {
        slots, names := tokens, buffer;
      }
    }

    /** Prints the pointer; `ok` is false when a name has no fragment form. */
    method Stringify(uri: bool, out: Output<Byte>) returns (ok: bool)
      requires Valid() && failure.None?
      modifies out
      ensures var names := NamesOf(slots[..], names[..]);
              && ok == Pointer.Stringify(names, uri).Some?
              && (ok ==> out.put == old(out.put) + Pointer.Stringify(names, uri).value)
    {
      hide PrintNames, NamesOf;
      if uri {
        out.Put(HASH);
      }
      ok := PutNames(slots[..], names[..], uri, out);
    }
  }

  function NamesOf(slots: seq<Slot>, names: seq<Byte>): (r: seq<seq<Byte>>)
    requires Within(slots, |names|)
    ensures |r| == |slots| && forall k | 0 <= k < |slots| :: r[k] == Cut(slots[k], names)
  {
    seq(|slots|, k requires 0 <= k < |slots| && Within(slots, |names|) => Cut(slots[k], names))
  }

  method PutNames(slots: seq<Slot>, names: seq<Byte>, uri: bool, out: Output<Byte>) returns (ok: bool)
    requires Within(slots, |names|)
    modifies out
    ensures ok == PrintNames(NamesOf(slots, names), uri).Some?
    ensures ok ==> out.put == old(out.put) + PrintNames(NamesOf(slots, names), uri).value
  {
    hide PrintName, NamesOf, Cut;
    ghost var text, all := [], NamesOf(slots, names);
    assert all[0..] == all;
    GluedNothing(PrintNames(all, uri));
    var t := 0;
    while t < |slots|
      invariant 0 <= t <= |slots| && out.put == old(out.put) + text
      invariant PrintNames(all, uri) == Glued(text, PrintNames(all[t..], uri))
    {
      out.Put(SLASH);
      var name := Cut(slots[t], names);
      assert all[t..][0] == name && all[t..][1..] == all[t + 1..];
      ok := PutName(name, uri, out);
      if !ok {
        return;
      }
      ghost var printed := [SLASH] + PrintName(name, uri).value;
      GluedTwice(text, printed, PrintNames(all[t + 1..], uri));
      text := text + printed;
      t := t + 1;
    }
    ok := true;
  }

  /** Writes one name with its terminator from `at` on, and its slot. */
  method ReadToken(source: seq<Byte>, i: nat, uri: bool, slots: array<Slot>, t: nat, names: array<Byte>, at: nat)
    returns (failed: Option<Error>, next: nat, end: nat)
    requires at < i <= |source| == names.Length && t < slots.Length
    modifies slots, names
    ensures failed.Some? ==> TakeName(source, i, uri) == BadName(failed.value, next)
    ensures failed.None? ==>
              var name := TakeName(source, i, uri);
              && name.Name? && name.next == next && end == at + |name.bytes| + 1 <= next <= |source|
              && names[..end] == old(names[..at]) + (name.bytes + [0])
              && slots[..t + 1] == old(slots[..t]) + [Slot(at, |name.bytes|, Index(name.bytes, name.digits))]
  {
    hide TakeName, Index;
    var number;
    failed, number, next, end := ReadName(source, i, uri, names, at);
    if failed.Some? {
      return;
    }
    ghost var name := names[at..end];
    var index := ReadIndex(names[at..end], number);
    names[end] := 0;
    slots[t] := Slot(at, end - at, index);
    end := end + 1;
    assert names[..end] == old(names[..at]) + (name + [0]);
  }

  method ParseTokens(source: seq<Byte>, from: nat, uri: bool, slots: array<Slot>, names: array<Byte>)
    returns (failed: Option<Error>, offset: nat)
    requires from <= |source| == names.Length && slots.Length == Slashes(source, from)
    requires from < |source| ==> source[from] == SLASH
    modifies slots, names
    ensures failed.Some? ==> TakeTokens(source, from, uri) == Failed(failed.value, offset)
    ensures failed.None? ==>
              && Within(slots[..], names.Length)
              && TakeTokens(source, from, uri) == Tokens(View(slots[..], names[..]))
  {
    hide TakeName, TakeTokens, Index, View, Slashes;
    var i, t, at := from, 0, 0;
    ghost var done := [];
    NothingYet(source, from, uri);
    while i < |source|
      invariant 0 <= at <= i <= |source| && 0 <= t <= slots.Length && t + Slashes(source, i) == slots.Length
      invariant i < |source| ==> source[i] == SLASH
      invariant Within(slots[..t], at) && View(slots[..t], names[..at]) == done
      invariant TakeTokens(source, from, uri) == Joined(done, TakeTokens(source, i, uri))
      decreases |source| - i
    {
      OneToken(source, i, uri, done);
      AddSlotAlways(slots[..t], names[..at], TakeName(source, i + 1, uri));
      var next, end;
      failed, next, end := ReadToken(source, i + 1, uri, slots, t, names, at);
      if failed.Some? {
        return failed, next;
      }
      ghost var name := TakeName(source, i + 1, uri);
      done := done + [Token(name.bytes, Index(name.bytes, name.digits))];
      at, t, i := end, t + 1, next;
    }
    ViewIsStable(slots[..t], names[..at], names[at..]);
    NoMore(source, i, uri);
    assert slots[..t] == slots[..] && names[..at] + names[at..] == names[..] && done + [] == done;
    failed, offset := None, 0;
  }

  lemma AddSlot(slots: seq<Slot>, slot: Slot, names: seq<Byte>, more: seq<Byte>)
    requires Within(slots, |names|) && slot.start == |names| && slot.length <= |more|
    ensures Within(slots + [slot], |names + more|)
    ensures View(slots + [slot], names + more) == View(slots, names) + [Token(more[..slot.length], slot.index)]
  {
    hide View;
    ViewIsStable(slots, names, more);
    assert Cut(slot, names + more) == more[..slot.length];
  }

  lemma AddSlotAlways(slots: seq<Slot>, names: seq<Byte>, name: Named)
    requires Within(slots, |names|)
    ensures name.Name? ==>
              var more := name.bytes + [0];
              var index := Index(name.bytes, name.digits);
              var slot := Slot(|names|, |name.bytes|, index);
              && Within(slots + [slot], |names + more|)
              && View(slots + [slot], names + more) == View(slots, names) + [Token(name.bytes, index)]
  {
    hide View, Index;
    if name.Name? {
      AddSlot(slots, Slot(|names|, |name.bytes|, Index(name.bytes, name.digits)), names, name.bytes + [0]);
      assert (name.bytes + [0])[..|name.bytes|] == name.bytes;
    }
  }

  lemma NothingYet(source: seq<Byte>, i: nat, uri: bool)
    ensures View([], []) == [] && Joined([], TakeTokens(source, i, uri)) == TakeTokens(source, i, uri)
  {
    hide TakeTokens;
    var r := TakeTokens(source, i, uri);
    if r.Tokens? { assert [] + r.tokens == r.tokens; }
  }

  lemma NoMore(source: seq<Byte>, i: nat, uri: bool)
    requires i == |source|
    ensures TakeTokens(source, i, uri) == Tokens([]) && Slashes(source, i) == 0
  {
  }

  lemma OneToken(source: seq<Byte>, i: nat, uri: bool, done: seq<Token>)
    requires i < |source| && source[i] == SLASH
    ensures Slashes(source, i) > 0
    ensures var name := TakeName(source, i + 1, uri);
            Joined(done, TakeTokens(source, i, uri)) ==
            if name.BadName? then Failed(name.error, name.offset)
            else Joined(done + [Token(name.bytes, Index(name.bytes, name.digits))], TakeTokens(source, name.next, uri))
    ensures var name := TakeName(source, i + 1, uri);
            name.Name? ==> && Slashes(source, i) == 1 + Slashes(source, name.next)
                           && (name.next < |source| ==> source[name.next] == SLASH)
  {
    hide TakeName, Index;
    var name := TakeName(source, i + 1, uri);
    if name.Name? {
      NameIsFree(source, i + 1, uri);
      FreeOfSlashes(source, i + 1, name.next);
      var rest := TakeTokens(source, name.next, uri);
      if rest.Tokens? {
        var token := [Token(name.bytes, Index(name.bytes, name.digits))];
        assert done + (token + rest.tokens) == done + token + rest.tokens;
      }
    }
  }

  function Glued(before: seq<Byte>, rest: Option<seq<Byte>>): Option<seq<Byte>> {
    if rest.None? then None else Some(before + rest.value)
  }

  lemma GluedNothing(rest: Option<seq<Byte>>)
    ensures Glued([], rest) == rest
  {
    if rest.Some? { assert [] + rest.value == rest.value; }
  }

  lemma GluedTwice(a: seq<Byte>, b: seq<Byte>, rest: Option<seq<Byte>>)
    ensures Glued(a, Glued(b, rest)) == Glued(a + b, rest)
  {
    if rest.Some? { assert a + (b + rest.value) == a + b + rest.value; }
  }

  method PutName(name: seq<Byte>, uri: bool, out: Output<Byte>) returns (ok: bool)
    modifies out
    ensures ok == PrintName(name, uri).Some?
    ensures ok ==> out.put == old(out.put) + PrintName(name, uri).value
  {
    hide PrintFront;
    var j := 0;
    ghost var text := [];
    assert name[0..] == name;
    GluedNothing(PrintName(name, uri));
    while j < |name|
      invariant 0 <= j <= |name| && out.put == old(out.put) + text
      invariant PrintName(name, uri) == Glued(text, PrintName(name[j..], uri))
    {
      var front := PutFront(name[j..], uri, out);
      if front == 0 {
        return false;
      }
      ghost var printed := PrintFront(name[j..], uri);
      assert name[j..][front..] == name[j + front..];
      GluedTwice(text, printed.text, PrintName(name[j + front..], uri));
      text := text + printed.text;
      j := j + front;
    }
    ok := true;
  }

  /** Prints the first character and says how many bytes of the name it took, or zero. */
  method PutFront(name: seq<Byte>, uri: bool, out: Output<Byte>) returns (used: nat)
    requires name != []
    modifies out
    ensures used == 0 <==> PrintFront(name, uri).Unprintable?
    ensures used > 0 ==> used == PrintFront(name, uri).used && out.put == old(out.put) + PrintFront(name, uri).text
  {
    hide Validate, Percent;
    var c := name[0];
    if c == TILDE {
      out.Put(TILDE);
      out.Put(ZERO);
      used := 1;
    } else if c == SLASH {
      out.Put(TILDE);
      out.Put(ONE);
      used := 1;
    } else if uri && NeedPercentEncode(c) {
      var input := new Input(name);
      var bytes := new Output<Byte>();
      var ok := input.Validate(bytes);
      assert input.src[0..] == name && bytes.put[0..] == bytes.put;
      if !ok {
        return 0;
      }
      ValidateIsDecode(name);
      PutPercent(bytes.put, out);
      used := input.at;
    } else {
      out.Put(c);
      used := 1;
    }
  }

  method PutByte(b: Byte, out: Output<Byte>)
    modifies out
    ensures out.put == old(out.put) + Percent([b])
  {
    out.Put(PERCENT);
    out.Put(HexDigit(b / 16));
    out.Put(HexDigit(b % 16));
  }

  lemma PercentFirst(bytes: seq<Byte>)
    requires bytes != []
    ensures Percent(bytes) == Percent([bytes[0]]) + Percent(bytes[1..])
  {
    assert [bytes[0]][1..] == [];
  }

  method PutPercent(bytes: seq<Byte>, out: Output<Byte>)
    modifies out
    ensures out.put == old(out.put) + Percent(bytes)
  {
    hide Percent;
    ghost var text := [];
    assert bytes[0..] == bytes;
    for i := 0 to |bytes|
      invariant out.put == old(out.put) + text && text + Percent(bytes[i..]) == Percent(bytes)
    {
      PutByte(bytes[i], out);
      PercentFirst(bytes[i..]);
      assert bytes[i..][1..] == bytes[i + 1..];
      text := text + Percent([bytes[i]]);
    }
  }
}
