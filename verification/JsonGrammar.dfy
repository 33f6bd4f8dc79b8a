/**
 The grammar of RFC 8259 as trees with a text and a meaning.  The JSON reader accepts exactly
 the texts of the grammar, white space and all, whose numbers are in range, and reports what
 they mean; it reads a text up to its first NUL.
 */
module JsonGrammar {
  import opened Bytes
  import opened Options
  import opened JsonScalars
  import opened JsonNumber
  import opened JsonReader
  import opened JsonLexis

  // ---------------------------------------------------------------------------------------
  // Values (sections 3 to 5)
  // ---------------------------------------------------------------------------------------

  /** A value as it is written; an empty array or object may hold white space. */
  datatype Tree =
    | NullTree | TrueTree | FalseTree
    | Quoted(pieces: seq<Piece>)
    | NumberTree(parts: Parts)
    | Array(blank: string, items: Items)
    | Object(blank: string, members: Members)

  datatype Items = NoItems | Items(before: string, value: Tree, after: string, rest: Items)

  datatype Members =
    | NoMembers
    | Members(before: string, name: seq<Piece>, middle: string, behind: string, value: Tree, after: string, rest: Members)

  ghost predicate Valid(v: Tree) {
    match v
    case NullTree | TrueTree | FalseTree => true
    case Quoted(ps) => forall p | p in ps :: ValidPiece(p)
    case NumberTree(p) => ValidParts(p) && Meaning(p).Some?
    case Array(blank, items) => Blank(blank) && ValidItems(items)
    case Object(blank, members) => Blank(blank) && ValidMembers(members)
  }

  ghost predicate ValidItems(items: Items) {
    items.NoItems? || (Blank(items.before) && Valid(items.value) && Blank(items.after) && ValidItems(items.rest))
  }

  ghost predicate ValidMembers(ms: Members) {
    || ms.NoMembers?
    || (&& Blank(ms.before) && (forall p | p in ms.name :: ValidPiece(p)) && Blank(ms.middle) && Blank(ms.behind)
        && Valid(ms.value) && Blank(ms.after) && ValidMembers(ms.rest))
  }

  function Spelling(v: Tree): string
    decreases v, 0
  {
    match v
    case NullTree => "null"
    case TrueTree => "true"
    case FalseTree => "false"
    case Quoted(ps) => "\"" + WrittenAll(ps)
    case NumberTree(p) => NumberText(p)
    case Array(blank, items) => "[" + (if items.NoItems? then blank + "]" else ItemsText(items))
    case Object(blank, members) => "{" + (if members.NoMembers? then blank + "}" else MembersText(members))
  }

  /** Items from white space before the first up to the closing bracket. */
  function ItemsText(items: Items): string
    decreases items, 0
  {
    if items.NoItems? then "" else items.before + (Spelling(items.value) + (items.after + ItemsTail(items.rest)))
  }

  function ItemsTail(items: Items): string
    decreases items, 1
  {
    if items.NoItems? then "]" else "," + ItemsText(items)
  }

  function MembersText(ms: Members): string
    decreases ms, 0
  {
    if ms.NoMembers? then ""
    else
      ms.before + ("\"" + (WrittenAll(ms.name) + (ms.middle + (":" + (ms.behind +
      (Spelling(ms.value) + (ms.after + MembersTail(ms.rest))))))))
  }

  function MembersTail(ms: Members): string
    decreases ms, 1
  {
    if ms.NoMembers? then "}" else "," + MembersText(ms)
  }

  /** What a value means: its events, with counts of 32 bits. */
  ghost function Heard(v: Tree): seq<Event>
    requires Valid(v)
  {
    match v
    case NullTree => [Null]
    case TrueTree => [Bool(true)]
    case FalseTree => [Bool(false)]
    case Quoted(ps) => [String(MeantAll(ps))]
    case NumberTree(p) => [Meaning(p).value]
    case Array(_, items) => [StartArray] + HeardItems(items, 0)
    case Object(_, members) => [StartObject] + HeardMembers(members, 0)
  }

  ghost function HeardItems(items: Items, count: nat): seq<Event>
    requires ValidItems(items)
  {
    if items.NoItems? then [EndArray(count % WORD32)]
    else Heard(items.value) + HeardItems(items.rest, count + 1)
  }

  ghost function HeardMembers(ms: Members, count: nat): seq<Event>
    requires ValidMembers(ms)
  {
    if ms.NoMembers? then [EndObject(count % WORD32)]
    else [Key(MeantAll(ms.name))] + (Heard(ms.value) + HeardMembers(ms.rest, count + 1))
  }

  // ---------------------------------------------------------------------------------------
  // Every text of the grammar is read
  // ---------------------------------------------------------------------------------------

  lemma Counts(count: nat)
    ensures Inc(count % WORD32) == (count + 1) % WORD32
  {
    ModAdds(count, 1);
  }

  predicate IsScalar(v: Tree) { !v.Array? && !v.Object? }

  lemma ReadsWord(t: string, i: nat, word: string, event: Event)
    requires Stands(t, i, word) && word != ""
    ensures ParseLiteral(t, i, word, event) == Good(i + |word|, event) && Peek(t, i) == word[0]
  {
    First(t, i, word);
  }

  lemma NumberStarts(p: Parts)
    requires ValidParts(p)
    ensures NumberText(p) != "" && (NumberText(p)[0] == '-' || IsDigit(NumberText(p)[0]))
  {
  }

  lemma ReadsScalar(t: string, i: nat, v: Tree)
    requires IsScalar(v) && Valid(v) && Stands(t, i, Spelling(v)) && Ends(Peek(t, i + |Spelling(v)|))
    ensures i <= |t| && ParseValue(t, i) == Parsed(true, i + |Spelling(v)|, Heard(v))
  {
    hide Stands, ParseNumber, NumberText, Meaning, ParseChars, ParseLiteral, ValidParts, ValidPiece, WrittenAll, MeantAll;
    Inside(t, i, Spelling(v));
    match v
    case NullTree => ReadsWord(t, i, "null", Null);
    case TrueTree => ReadsWord(t, i, "true", Bool(true));
    case FalseTree => ReadsWord(t, i, "false", Bool(false));
    case Quoted(ps) =>
      Apart(t, i, "\"", WrittenAll(ps));
      First(t, i, "\"");
      ReadsPieces(t, i + 1, ps);
    case NumberTree(p) =>
      NumberStarts(p);
      First(t, i, NumberText(p));
      ReadsNumber(t, i, p);
  }

  /** A value starts with none of the characters that are skipped or end something. */
  lemma StartsValue(v: Tree)
    requires Valid(v)
    ensures Spelling(v) != "" && var c := Spelling(v)[0]; !IsBlank(c) && c != ']' && c != '}' && c != NUL
  {
    hide NumberText, WrittenAll, ItemsText, MembersText, ValidParts;
    if v.NumberTree? { NumberStarts(v.parts); }
  }

  lemma {:induction false} ReadsValue(t: string, i: nat, v: Tree)
    requires Valid(v) && Stands(t, i, Spelling(v)) && Ends(Peek(t, i + |Spelling(v)|))
    ensures i <= |t| && ParseValue(t, i) == Parsed(true, i + |Spelling(v)|, Heard(v))
    decreases v
  {
    hide Stands, Spelling, Heard, ParseValue, Valid;
    if IsScalar(v) { ReadsScalar(t, i, v); }
    else if v.Array? { ReadsArray(t, i, v); }
    else { ReadsObject(t, i, v); }
  }

  lemma {:induction false} ReadsArray(t: string, i: nat, v: Tree)
    requires v.Array? && Valid(v) && Stands(t, i, Spelling(v))
    ensures i <= |t| && ParseValue(t, i) == Parsed(true, i + |Spelling(v)|, Heard(v))
    decreases v, 0
  {
    hide Stands, ItemsText, HeardItems, ValidItems, ParseElements, ParseScalar, Skip;
    var items := v.items;
    var rest := if items.NoItems? then v.blank + "]" else ItemsText(items);
    Inside(t, i, Spelling(v));
    Apart(t, i, "[", rest);
    First(t, i, "[");
    if items.NoItems? {
      Apart(t, i + 1, v.blank, "]");
      First(t, i + 1 + |v.blank|, "]");
      SkipsBlank(t, i + 1, v.blank);
      assert HeardItems(NoItems, 0) == [EndArray(0)] by { NoItemsHeard(0); }
    } else {
      ReadsItems(t, i + 1, items, 0);
    }
  }

  lemma NoItemsHeard(count: nat)
    ensures ValidItems(NoItems) && HeardItems(NoItems, count) == [EndArray(count % WORD32)]
    ensures ValidMembers(NoMembers) && HeardMembers(NoMembers, count) == [EndObject(count % WORD32)]
  {
  }

  lemma {:induction false} ReadsItems(t: string, i: nat, items: Items, count: nat)
    requires items.Items? && ValidItems(items) && Stands(t, i, ItemsText(items))
    ensures i + |items.before| <= |t| && Skip(t, i) == i + |items.before| && Peek(t, Skip(t, i)) != ']'
    ensures ParseElements(t, Skip(t, i), count % WORD32) == Parsed(true, i + |ItemsText(items)|, HeardItems(items, count))
    decreases items, 1
  {
    hide Stands, Spelling, Heard, ParseValue, Valid, AfterElement, ItemsTail;
    var Items(before, value, after, rest) := items;
    var at := i + |before|;
    var end := at + |Spelling(value)|;
    Apart(t, i, before, Spelling(value) + (after + ItemsTail(rest)));
    Apart(t, at, Spelling(value), after + ItemsTail(rest));
    Apart(t, end, after, ItemsTail(rest));
    StartsValue(value);
    First(t, at, Spelling(value));
    SkipsBlank(t, i, before);
    ReadsItemsTail(t, end + |after|, rest, count);
    SkipsBlank(t, end, after);
    BlankEnds(t, end, after);
    ReadsValue(t, at, value);
  }

  /** White space, or what stands behind it, ends a value. */
  lemma BlankEnds(t: string, i: nat, s: string)
    requires Stands(t, i, s) && Blank(s) && Ends(Peek(t, i + |s|))
    ensures Ends(Peek(t, i))
  {
    if s != "" { First(t, i, s); }
  }

  lemma {:induction false} ReadsItemsTail(t: string, i: nat, rest: Items, count: nat)
    requires ValidItems(rest) && Stands(t, i, ItemsTail(rest))
    ensures i <= |t| && Ends(Peek(t, i)) && !IsBlank(Peek(t, i))
    ensures AfterElement(t, i, count % WORD32) == Parsed(true, i + |ItemsTail(rest)|, HeardItems(rest, count + 1))
    decreases rest, 2
  {
    hide Stands, ItemsText, ParseElements, ValidItems;
    Counts(count);
    Inside(t, i, ItemsTail(rest));
    if rest.NoItems? {
      First(t, i, "]");
    } else {
      hide HeardItems;
      Apart(t, i, ",", ItemsText(rest));
      First(t, i, ",");
      ReadsItems(t, i + 1, rest, count + 1);
    }
  }

  lemma {:induction false} ReadsObject(t: string, i: nat, v: Tree)
    requires v.Object? && Valid(v) && Stands(t, i, Spelling(v))
    ensures i <= |t| && ParseValue(t, i) == Parsed(true, i + |Spelling(v)|, Heard(v))
    decreases v, 0
  {
    hide Stands, MembersText, HeardMembers, ValidMembers, ParseMembers, ParseScalar, Skip;
    var members := v.members;
    var rest := if members.NoMembers? then v.blank + "}" else MembersText(members);
    Inside(t, i, Spelling(v));
    Apart(t, i, "{", rest);
    First(t, i, "{");
    if members.NoMembers? {
      Apart(t, i + 1, v.blank, "}");
      First(t, i + 1 + |v.blank|, "}");
      SkipsBlank(t, i + 1, v.blank);
      assert HeardMembers(NoMembers, 0) == [EndObject(0)] by { NoItemsHeard(0); }
    } else {
      ReadsMembers(t, i + 1, members, 0);
    }
  }

  /** A name with its colon and the white space around it. */
  function NameText(ms: Members, rest: string): string
    requires ms.Members?
  {
    "\"" + (WrittenAll(ms.name) + (ms.middle + (":" + (ms.behind + rest))))
  }

  function NameLength(ms: Members): nat
    requires ms.Members?
  {
    1 + |WrittenAll(ms.name)| + |ms.middle| + 1 + |ms.behind|
  }

  lemma ReadsName(t: string, i: nat, ms: Members, rest: string)
    requires ms.Members? && (forall p | p in ms.name :: ValidPiece(p)) && Blank(ms.middle) && Blank(ms.behind)
    requires Stands(t, i, NameText(ms, rest)) && rest != "" && !IsBlank(rest[0])
    ensures i + NameLength(ms) <= |t| && Stands(t, i + NameLength(ms), rest) && Peek(t, i) == '"'
    ensures ParseName(t, i) == Parsed(true, i + NameLength(ms), [Key(MeantAll(ms.name))])
  {
    hide Stands, ParseChars, WrittenAll, MeantAll, Skip, ValidPiece;
    var at := i + 1 + |WrittenAll(ms.name)|;
    Apart(t, i, "\"", WrittenAll(ms.name) + (ms.middle + (":" + (ms.behind + rest))));
    First(t, i, "\"");
    Apart(t, i + 1, WrittenAll(ms.name), ms.middle + (":" + (ms.behind + rest)));
    ReadsPieces(t, i + 1, ms.name);
    Apart(t, at, ms.middle, ":" + (ms.behind + rest));
    Apart(t, at + |ms.middle|, ":", ms.behind + rest);
    First(t, at + |ms.middle|, ":");
    SkipsBlank(t, at, ms.middle);
    Apart(t, at + |ms.middle| + 1, ms.behind, rest);
    First(t, at + |ms.middle| + 1 + |ms.behind|, rest);
    SkipsBlank(t, at + |ms.middle| + 1, ms.behind);
    Inside(t, i + NameLength(ms), rest);
  }

  /** What stands from the value of a member on. */
  function ValueText(ms: Members): string
    requires ms.Members?
  {
    Spelling(ms.value) + (ms.after + MembersTail(ms.rest))
  }

  lemma ValueStarts(ms: Members)
    requires ms.Members? && Valid(ms.value)
    ensures ValueText(ms) != "" && !IsBlank(ValueText(ms)[0])
  {
    hide Spelling, MembersTail;
    StartsValue(ms.value);
  }

  lemma {:induction false} ReadsMembers(t: string, i: nat, ms: Members, count: nat)
    requires ms.Members? && ValidMembers(ms) && Stands(t, i, MembersText(ms))
    ensures i + |ms.before| <= |t| && Skip(t, i) == i + |ms.before| && Peek(t, Skip(t, i)) == '"'
    ensures ParseMembers(t, Skip(t, i), count % WORD32) == Parsed(true, i + |MembersText(ms)|, HeardMembers(ms, count))
    decreases ms, 2
  {
    hide Stands, Spelling, Heard, ParseName, ParseMemberValue, Valid, ValueText, MembersTail, WrittenAll, MeantAll, ValidPiece;
    var at := i + |ms.before|;
    assert MembersText(ms) == ms.before + NameText(ms, ValueText(ms)) by { MembersByName(ms); }
    Apart(t, i, ms.before, NameText(ms, ValueText(ms)));
    ValueStarts(ms);
    ReadsName(t, at, ms, ValueText(ms));
    SkipsBlank(t, i, ms.before);
    ReadsMemberValue(t, at + NameLength(ms), ms, count);
    NameThenValue(ms);
  }

  lemma MembersByName(ms: Members)
    requires ms.Members?
    ensures MembersText(ms) == ms.before + NameText(ms, ValueText(ms))
  {
    hide Spelling, WrittenAll, MembersTail;
  }

  lemma NameThenValue(ms: Members)
    requires ms.Members?
    ensures |MembersText(ms)| == |ms.before| + NameLength(ms) + |ValueText(ms)|
  {
    hide Spelling, WrittenAll, MembersTail;
  }

  lemma {:induction false} ReadsMemberValue(t: string, i: nat, ms: Members, count: nat)
    requires ms.Members? && ValidMembers(ms) && Stands(t, i, ValueText(ms))
    ensures i <= |t|
    ensures ParseMemberValue(t, i, count % WORD32) ==
            Parsed(true, i + |ValueText(ms)|, Heard(ms.value) + HeardMembers(ms.rest, count + 1))
    decreases ms, 1
  {
    hide Stands, Spelling, Heard, ParseValue, Valid, AfterMember, MembersTail, HeardMembers;
    var end := i + |Spelling(ms.value)|;
    Apart(t, i, Spelling(ms.value), ms.after + MembersTail(ms.rest));
    Apart(t, end, ms.after, MembersTail(ms.rest));
    ReadsMembersTail(t, end + |ms.after|, ms.rest, count);
    SkipsBlank(t, end, ms.after);
    BlankEnds(t, end, ms.after);
    ReadsValue(t, i, ms.value);
  }

  lemma {:induction false} ReadsMembersTail(t: string, i: nat, rest: Members, count: nat)
    requires ValidMembers(rest) && Stands(t, i, MembersTail(rest))
    ensures i <= |t| && Ends(Peek(t, i)) && !IsBlank(Peek(t, i))
    ensures AfterMember(t, i, count % WORD32) == Parsed(true, i + |MembersTail(rest)|, HeardMembers(rest, count + 1))
    decreases rest, 3
  {
    hide Stands, MembersText, ParseMembers, ValidMembers;
    Counts(count);
    Inside(t, i, MembersTail(rest));
    if rest.NoMembers? {
      First(t, i, "}");
    } else {
      hide HeardMembers;
      Apart(t, i, ",", MembersText(rest));
      First(t, i, ",");
      ReadsMembers(t, i + 1, rest, count + 1);
    }
  }

  // ---------------------------------------------------------------------------------------
  // Nothing else is read
  // ---------------------------------------------------------------------------------------

  lemma FindsWord(t: string, i: nat, word: string, event: Event)
    requires i <= |t| && word != "" && ParseLiteral(t, i, word, event).Good?
    ensures Stands(t, i, word) && ParseLiteral(t, i, word, event) == Good(i + |word|, event)
  {
  }

  lemma FindsScalar(t: string, i: nat) returns (v: Tree)
    requires i <= |t| && Peek(t, i) != '[' && Peek(t, i) != '{' && ParseValue(t, i).ok
    ensures Valid(v) && Stands(t, i, Spelling(v)) && ParseValue(t, i) == Parsed(true, i + |Spelling(v)|, Heard(v))
  {
    hide Stands, ParseNumber, NumberText, Meaning, ParseChars, ParseLiteral, ValidParts, ValidPiece, WrittenAll, MeantAll;
    var c := Peek(t, i);
    if c == 'n' {
      FindsWord(t, i, "null", Null);
      v := NullTree;
    } else if c == 't' {
      FindsWord(t, i, "true", Bool(true));
      v := TrueTree;
    } else if c == 'f' {
      FindsWord(t, i, "false", Bool(false));
      v := FalseTree;
    } else if c == '"' {
      var ps := FindsPieces(t, i + 1);
      CharStands(t, i, '"');
      Apart(t, i, "\"", WrittenAll(ps));
      v := Quoted(ps);
    } else {
      var p := FindsNumber(t, i);
      v := NumberTree(p);
    }
  }

  lemma {:induction false} FindsValue(t: string, i: nat) returns (v: Tree)
    requires i <= |t| && ParseValue(t, i).ok
    ensures Valid(v) && Stands(t, i, Spelling(v)) && ParseValue(t, i) == Parsed(true, i + |Spelling(v)|, Heard(v))
    decreases |t| - i, 1
  {
    hide Stands, Spelling, Heard, ParseValue, Valid;
    if Peek(t, i) == '[' { v := FindsArray(t, i); }
    else if Peek(t, i) == '{' { v := FindsObject(t, i); }
    else { v := FindsScalar(t, i); }
  }

  /** Arrays and objects have their own functions. */
  lemma Dispatches(t: string, i: nat)
    requires i <= |t|
    ensures Peek(t, i) == '[' ==> i < |t| && ParseValue(t, i) == ParseArray(t, i)
    ensures Peek(t, i) == '{' ==> i < |t| && ParseValue(t, i) == ParseObject(t, i)
  {
    hide ParseArray, ParseObject, ParseScalar;
  }

  lemma EmptyStands(t: string, i: nat, open: char, blank: string, close: char)
    requires Stands(t, i, [open]) && Stands(t, i + 1, blank) && Stands(t, i + 1 + |blank|, [close])
    ensures Stands(t, i, [open] + (blank + [close]))
  {
    hide Stands;
    Apart(t, i + 1, blank, [close]);
    Apart(t, i, [open], blank + [close]);
  }

  lemma {:induction false} FindsArray(t: string, i: nat) returns (v: Tree)
    requires i <= |t| && Peek(t, i) == '[' && ParseValue(t, i).ok
    ensures Valid(v) && Stands(t, i, Spelling(v)) && ParseValue(t, i) == Parsed(true, i + |Spelling(v)|, Heard(v))
    decreases |t| - i, 0
  {
    hide Stands, ParseValue, ParseElements, ItemsText, ValidItems, HeardItems, Skip, Blank;
    Dispatches(t, i);
    CharStands(t, i, '[');
    FindsBlank(t, i + 1);
    var j := Skip(t, i + 1);
    var blank := t[i + 1..j];
    if Peek(t, j) == ']' {
      CharStands(t, j, ']');
      v := Array(blank, NoItems);
      NoItemsHeard(0);
      EmptyStands(t, i, '[', blank, ']');
    } else {
      var items := FindsItems(t, j, 0);
      AddBlank(t, i + 1, blank, items);
      BlankOfNothing();
      v := Array("", items.(before := blank));
      Apart(t, i, "[", ItemsText(items.(before := blank)));
    }
  }

  lemma BlankOfNothing()
    ensures Blank("")
  {
  }

  /** White space in front of the first item. */
  lemma AddBlank(t: string, i: nat, blank: string, items: Items)
    requires items.Items? && items.before == "" && ValidItems(items) && Blank(blank) && Stands(t, i, blank)
    requires Stands(t, i + |blank|, ItemsText(items))
    ensures
      var n := items.(before := blank);
      && ValidItems(n) && Stands(t, i, ItemsText(n)) && |ItemsText(n)| == |blank| + |ItemsText(items)|
      && forall count: nat :: HeardItems(n, count) == HeardItems(items, count)
  {
    hide Stands, Spelling, Valid, Heard, ItemsTail;
    var n := items.(before := blank);
    assert ItemsText(n) == blank + ItemsText(items);
    Apart(t, i, blank, ItemsText(items));
  }

  lemma {:induction false} FindsItems(t: string, i: nat, count: nat) returns (items: Items)
    requires i <= |t| && ParseElements(t, i, count % WORD32).ok
    ensures items.Items? && items.before == "" && ValidItems(items) && Stands(t, i, ItemsText(items))
    ensures ParseElements(t, i, count % WORD32) == Parsed(true, i + |ItemsText(items)|, HeardItems(items, count))
    decreases |t| - i, 3
  {
    hide Stands, Spelling, Heard, ParseValue, Valid, AfterElement, ItemsTail;
    var value := FindsValue(t, i);
    var end := i + |Spelling(value)|;
    FindsBlank(t, end);
    var j := Skip(t, end);
    var after := t[end..j];
    var rest := FindsItemsTail(t, j, count);
    items := Items("", value, after, rest);
    Apart(t, end, after, ItemsTail(rest));
    Apart(t, i, Spelling(value), after + ItemsTail(rest));
    assert "" + (Spelling(value) + (after + ItemsTail(rest))) == Spelling(value) + (after + ItemsTail(rest));
  }

  lemma {:induction false} FindsItemsTail(t: string, i: nat, count: nat) returns (rest: Items)
    requires i <= |t| && AfterElement(t, i, count % WORD32).ok
    ensures ValidItems(rest) && Stands(t, i, ItemsTail(rest))
    ensures AfterElement(t, i, count % WORD32) == Parsed(true, i + |ItemsTail(rest)|, HeardItems(rest, count + 1))
    decreases |t| - i, 2
  {
    hide Stands, ParseElements, ItemsText, ValidItems;
    Counts(count);
    if Peek(t, i) == ']' {
      CharStands(t, i, ']');
      rest := NoItems;
      NoItemsHeard(count + 1);
    } else {
      hide HeardItems;
      CharStands(t, i, ',');
      FindsBlank(t, i + 1);
      var j := Skip(t, i + 1);
      var items := FindsItems(t, j, count + 1);
      AddBlank(t, i + 1, t[i + 1..j], items);
      rest := items.(before := t[i + 1..j]);
      Apart(t, i, ",", ItemsText(rest));
    }
  }

  lemma {:induction false} FindsObject(t: string, i: nat) returns (v: Tree)
    requires i <= |t| && Peek(t, i) == '{' && ParseValue(t, i).ok
    ensures Valid(v) && Stands(t, i, Spelling(v)) && ParseValue(t, i) == Parsed(true, i + |Spelling(v)|, Heard(v))
    decreases |t| - i, 0
  {
    hide Stands, ParseValue, ParseMembers, MembersText, ValidMembers, HeardMembers, Skip, Blank;
    Dispatches(t, i);
    CharStands(t, i, '{');
    FindsBlank(t, i + 1);
    var j := Skip(t, i + 1);
    var blank := t[i + 1..j];
    if Peek(t, j) == '}' {
      CharStands(t, j, '}');
      v := Object(blank, NoMembers);
      NoItemsHeard(0);
      EmptyStands(t, i, '{', blank, '}');
    } else {
      var ms := FindsMembers(t, j, 0);
      AddBlankBefore(t, i + 1, blank, ms);
      BlankOfNothing();
      v := Object("", ms.(before := blank));
      Apart(t, i, "{", MembersText(ms.(before := blank)));
    }
  }

  lemma AddBlankBefore(t: string, i: nat, blank: string, ms: Members)
    requires ms.Members? && ms.before == "" && ValidMembers(ms) && Blank(blank) && Stands(t, i, blank)
    requires Stands(t, i + |blank|, MembersText(ms))
    ensures
      var n := ms.(before := blank);
      && ValidMembers(n) && Stands(t, i, MembersText(n)) && |MembersText(n)| == |blank| + |MembersText(ms)|
      && forall count: nat :: HeardMembers(n, count) == HeardMembers(ms, count)
  {
    hide Stands, Spelling, Valid, Heard, MembersTail, WrittenAll, MeantAll, ValidPiece;
    var n := ms.(before := blank);
    assert MembersText(n) == blank + MembersText(ms);
    Apart(t, i, blank, MembersText(ms));
  }

  /** A name, its colon and the white space around it, found where they are read. */
  lemma FindsName(t: string, i: nat) returns (name: seq<Piece>, middle: string, behind: string)
    requires i <= |t| && ParseName(t, i).ok
    ensures (forall p | p in name :: ValidPiece(p)) && Blank(middle) && Blank(behind)
    ensures
      var n := 1 + |WrittenAll(name)| + |middle| + 1 + |behind|;
      && ParseName(t, i) == Parsed(true, i + n, [Key(MeantAll(name))])
      && Stands(t, i, "\"") && Stands(t, i + 1, WrittenAll(name)) && Stands(t, i + 1 + |WrittenAll(name)|, middle)
      && Stands(t, i + n - |behind| - 1, ":") && Stands(t, i + n - |behind|, behind)
  {
    hide Stands, ParseChars, WrittenAll, MeantAll, ValidPiece, Skip;
    CharStands(t, i, '"');
    name := FindsPieces(t, i + 1);
    var k := i + 1 + |WrittenAll(name)|;
    FindsBlank(t, k);
    middle := t[k..Skip(t, k)];
    var colon := Skip(t, k);
    CharStands(t, colon, ':');
    FindsBlank(t, colon + 1);
    behind := t[colon + 1..Skip(t, colon + 1)];
  }

  lemma {:induction false} FindsMembers(t: string, i: nat, count: nat) returns (ms: Members)
    requires i <= |t| && ParseMembers(t, i, count % WORD32).ok
    ensures ms.Members? && ms.before == "" && ValidMembers(ms) && Stands(t, i, MembersText(ms))
    ensures ParseMembers(t, i, count % WORD32) == Parsed(true, i + |MembersText(ms)|, HeardMembers(ms, count))
    decreases |t| - i, 4
  {
    hide Stands, Spelling, Heard, ParseName, ParseMemberValue, Valid, MembersTail, WrittenAll, MeantAll, ValidPiece;
    var name, middle, behind := FindsName(t, i);
    var at := i + 1 + |WrittenAll(name)|;
    var start := at + |middle| + 1 + |behind|;
    var value, after, rest := FindsMemberValue(t, start, count);
    ms := Members("", name, middle, behind, value, after, rest);
    var tail := Spelling(value) + (after + MembersTail(rest));
    Apart(t, at + |middle| + 1, behind, tail);
    Apart(t, at + |middle|, ":", behind + tail);
    Apart(t, at, middle, ":" + (behind + tail));
    Apart(t, i + 1, WrittenAll(name), middle + (":" + (behind + tail)));
    var text := "\"" + (WrittenAll(name) + (middle + (":" + (behind + tail))));
    Apart(t, i, "\"", WrittenAll(name) + (middle + (":" + (behind + tail))));
    assert MembersText(ms) == "" + text == text;
  }

  lemma {:induction false} FindsMemberValue(t: string, i: nat, count: nat)
    returns (value: Tree, after: string, rest: Members)
    requires i <= |t| && ParseMemberValue(t, i, count % WORD32).ok
    ensures Valid(value) && Blank(after) && ValidMembers(rest)
    ensures
      var tail := Spelling(value) + (after + MembersTail(rest));
      && Stands(t, i, tail)
      && ParseMemberValue(t, i, count % WORD32) ==
         Parsed(true, i + |tail|, Heard(value) + HeardMembers(rest, count + 1))
    decreases |t| - i, 3
  {
    hide Stands, Spelling, Heard, ParseValue, Valid, AfterMember, MembersTail, HeardMembers, ValidMembers;
    value := FindsValue(t, i);
    var end := i + |Spelling(value)|;
    FindsBlank(t, end);
    var j := Skip(t, end);
    after := t[end..j];
    rest := FindsMembersTail(t, j, count);
    Apart(t, end, after, MembersTail(rest));
    Apart(t, i, Spelling(value), after + MembersTail(rest));
  }

  lemma {:induction false} FindsMembersTail(t: string, i: nat, count: nat) returns (rest: Members)
    requires i <= |t| && AfterMember(t, i, count % WORD32).ok
    ensures ValidMembers(rest) && Stands(t, i, MembersTail(rest))
    ensures AfterMember(t, i, count % WORD32) == Parsed(true, i + |MembersTail(rest)|, HeardMembers(rest, count + 1))
    decreases |t| - i, 2
  {
    hide Stands, ParseMembers, MembersText, ValidMembers;
    Counts(count);
    if Peek(t, i) == '}' {
      CharStands(t, i, '}');
      rest := NoMembers;
      NoItemsHeard(count + 1);
    } else {
      hide HeardMembers;
      CharStands(t, i, ',');
      FindsBlank(t, i + 1);
      var j := Skip(t, i + 1);
      var ms := FindsMembers(t, j, count + 1);
      AddBlankBefore(t, i + 1, t[i + 1..j], ms);
      rest := ms.(before := t[i + 1..j]);
      Apart(t, i, ",", MembersText(rest));
    }
  }

  // ---------------------------------------------------------------------------------------
  // Whole texts
  // ---------------------------------------------------------------------------------------

  /** The text is the value with white space around it, up to the end or the first NUL. */
  ghost predicate Spells(t: string, before: string, v: Tree, after: string) {
    && Blank(before) && Valid(v) && Blank(after)
    && Stands(t, 0, before + (Spelling(v) + after))
    && Peek(t, |before| + |Spelling(v)| + |after|) == NUL
  }

  /** A text of the grammar is accepted, for what it means. */
  lemma TextsAreRead(t: string, before: string, v: Tree, after: string)
    requires Spells(t, before, v, after)
    ensures Parse(t) == Outcome(true, Heard(v))
  {
    hide Stands, Spelling, Valid, Heard, ParseValue;
    var i, j := |before|, |before| + |Spelling(v)|;
    Apart(t, 0, before, Spelling(v) + after);
    Apart(t, i, Spelling(v), after);
    StartsValue(v);
    First(t, i, Spelling(v));
    SkipsBlank(t, 0, before);
    BlankEnds(t, j, after);
    ReadsValue(t, i, v);
    SkipsBlank(t, j, after);
  }

  /** What is accepted is a text of the grammar. */
  lemma OnlyTextsAreRead(t: string) returns (before: string, v: Tree, after: string)
    requires Parse(t).ok
    ensures Spells(t, before, v, after) && Parse(t).events == Heard(v)
  {
    hide Stands, Spelling, Valid, Heard, ParseValue;
    FindsBlank(t, 0);
    var i := Skip(t, 0);
    before := t[0..i];
    v := FindsValue(t, i);
    var j := i + |Spelling(v)|;
    FindsBlank(t, j);
    after := t[j..Skip(t, j)];
    Apart(t, i, Spelling(v), after);
    Apart(t, 0, before, Spelling(v) + after);
  }

  /**
   Main result: the reader accepts a text if and only if it is a text of the grammar with
   numbers in range, and then reports the meaning of every tree that spells it.
   */
  lemma AcceptsTheGrammar(t: string)
    ensures Parse(t).ok <==> exists before, v, after :: Spells(t, before, v, after)
    ensures forall before, v, after | Spells(t, before, v, after) :: Parse(t) == Outcome(true, Heard(v))
    ensures IterativeParse(t) == Parse(t)
  {
    hide Stands, Spelling, Valid, Heard, Parse, IterativeParse;
    ReadersAgree(t);
    if Parse(t).ok { var before, v, after := OnlyTextsAreRead(t); }
    forall before, v, after | Spells(t, before, v, after) ensures Parse(t) == Outcome(true, Heard(v)) {
      TextsAreRead(t, before, v, after);
    }
  }
}
