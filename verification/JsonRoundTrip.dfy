/** Parsing a dumped value: exactly which values come back as they were (cpp/src/json.cpp:54-339). */
module JsonRoundTrip {
  import opened Json
  import opened JsonNumbers
  import opened JsonGrammar

  // --- what comes back ------------------------------------------------------------------------------

  /** The value nests no deeper than the parser follows, starting at this depth. */
  ghost predicate Within(v: Json, depth: nat, limit: nat) {
    depth <= limit &&
    match v
    case Arr(items) => forall i :: 0 <= i < |items| ==> Within(items[i], depth + 1, limit)
    case Obj(members) => forall i :: 0 <= i < |members| ==> Within(members[i].value, depth + 1, limit)
    case _ => true
  }

  /** The value as a parser reads it: a number is an integer exactly when its lexeme is one, and a name met again keeps
      its place and takes the last value. */
  function Reread(v: Json): Json {
    match v
    case Num(lexeme, _) => Num(lexeme, IntegerLexeme(lexeme))
    case Arr(items) => Arr(RereadItems(items))
    case Obj(members) => Obj(RereadMembers([], members))
    case _ => v
  }

  function RereadItems(items: seq<Json>): (r: seq<Json>)
    ensures |r| == |items|
  {
    if items == [] then [] else [Reread(items[0])] + RereadItems(items[1..])
  }

  function RereadMembers(done: seq<Member>, members: seq<Member>): seq<Member>
    decreases members
  {
    if members == [] then done
    else RereadMembers(SetMember(done, members[0].name, Reread(members[0].value)), members[1..])
  }

  ghost predicate AllWithin(items: seq<Json>, depth: nat, limit: nat) {
    forall i :: 0 <= i < |items| ==> Within(items[i], depth, limit)
  }

  ghost predicate MembersWithin(members: seq<Member>, depth: nat, limit: nat) {
    forall i :: 0 <= i < |members| ==> Within(members[i].value, depth, limit)
  }

  // --- the printer's derivations: strings -----------------------------------------------------------

  /** How the printer spells a character. */
  function PlainPiece(c: char): Piece {
    if c == '"' || c == '\\' then Short(c)
    else if c as int == 8 then Short('b')
    else if c as int == 9 then Short('t')
    else if c as int == 10 then Short('n')
    else if c as int == 12 then Short('f')
    else if c as int == 13 then Short('r')
    else if c as int < 32 then Unit("00" + [HexDigit(c as int / 16), HexDigit(c as int % 16)])
    else Raw(c)
  }

  lemma ControlUnit(n: int)
    requires 0 <= n < 32
    ensures var digits := "00" + [HexDigit(n / 16), HexDigit(n % 16)];
            IsPiece(Unit(digits)) && UnitValue(digits) == n
  {
    var digits := "00" + [HexDigit(n / 16), HexDigit(n % 16)];
    assert digits[0] == '0' && digits[1] == '0' && digits[2] == HexDigit(n / 16) && digits[3] == HexDigit(n % 16);
  }

  lemma PlainPieceSpells(c: char, rest: string)
    ensures IsPiece(PlainPiece(c)) && !IsHigh(PlainPiece(c)) && Point(PlainPiece(c)) == c as int
    ensures PieceOn(PlainPiece(c), rest) == EscapeChar(c) + rest
  {
    var p := PlainPiece(c);
    if p.Unit? {
      ControlSpells(c as int, p.digits, rest);
    } else if p.Short? {
      ShortLetter(p.letter);
    }
  }

  lemma ControlSpells(n: int, digits: string, rest: string)
    requires 0 <= n < 32 && digits == "00" + [HexDigit(n / 16), HexDigit(n % 16)]
    ensures IsPiece(Unit(digits)) && !IsHigh(Unit(digits)) && UnitValue(digits) == n
    ensures PieceOn(Unit(digits), rest) == "\\u00" + [HexDigit(n / 16), HexDigit(n % 16)] + rest
  {
    ControlUnit(n);
    assert "\\u" + digits == "\\u00" + [HexDigit(n / 16), HexDigit(n % 16)];
    assert "\\u" + (digits + rest) == ("\\u" + digits) + rest;
  }

  function PlainPieces(s: string): (ps: seq<Piece>)
    ensures |ps| == |s|
  {
    if s == [] then [] else [PlainPiece(s[0])] + PlainPieces(s[1..])
  }

  lemma PointsCons(s: string)
    requires s != []
    ensures Points(s) == [s[0] as int] + Points(s[1..])
  {
  }

  lemma {:induction false} PlainSpells(s: string, rest: string)
    ensures ArePieces(PlainPieces(s)) && TextOf(PlainPieces(s)) == Points(s)
    ensures PiecesOn(PlainPieces(s), rest) == EscapeAll(s) + rest
  {
    if s == [] {
      assert EscapeAll(s) + rest == rest;
    } else {
      PlainSpells(s[1..], rest);
      PlainPieceSpells(s[0], EscapeAll(s[1..]) + rest);
      OneMorePiece(PlainPiece(s[0]), PlainPieces(s[1..]), EscapeChar(s[0]), EscapeAll(s[1..]), rest);
      PointsCons(s);
    }
  }

  lemma {:induction false} OneMorePiece(p: Piece, ps: seq<Piece>, spelt: string, body: string, rest: string)
    requires IsPiece(p) && !IsHigh(p) && ArePieces(ps)
    requires PieceOn(p, body + rest) == spelt + (body + rest) && PiecesOn(ps, rest) == body + rest
    ensures ArePieces([p] + ps) && TextOf([p] + ps) == [Point(p)] + TextOf(ps)
    ensures PiecesOn([p] + ps, rest) == (spelt + body) + rest
  {
    PiecesCons(p, ps, rest);
    assert (spelt + body) + rest == spelt + (body + rest);
  }

  /** Escaped text and its quote parse back to the text. */
  lemma {:induction false} EscapedText(s: string, rest: string, done: Text)
    ensures ParseChars(EscapeAll(s) + ("\"" + rest), done) == Got(done + Points(s), rest)
  {
    PlainSpells(s, "\"" + rest);
    ParsePieces(PlainPieces(s), rest, done);
  }

  lemma {:induction false} PlainString(text: Text, rest: string)
    requires AllScalar(text)
    ensures ArePieces(PlainPieces(Chars(text))) && TextOf(PlainPieces(Chars(text))) == text
    ensures StringOn(PlainPieces(Chars(text)), rest) == Quoted(Chars(text)) + rest
  {
    PlainSpells(Chars(text), "\"" + rest);
    PointsChars(text);
    Requote(EscapeAll(Chars(text)), rest);
  }

  lemma Requote(body: string, rest: string)
    ensures ("\"" + body + "\"") + rest == "\"" + (body + ("\"" + rest))
  {
  }

  // --- the printer's derivations: values ------------------------------------------------------------

  ghost predicate AllWritable(items: seq<Json>) { forall i :: 0 <= i < |items| ==> Writable(items[i]) }

  ghost predicate MembersWritable(members: seq<Member>) {
    forall i :: 0 <= i < |members| ==> AllScalar(members[i].name) && Writable(members[i].value)
  }

  /** The derivation of a value's text, with no white space at all. */
  function Plain(v: Json): Node
    requires Writable(v)
  {
    match v
    case Null => NullNode
    case Bool(truth) => BoolNode(truth)
    case Num(lexeme, _) => NumberNode(lexeme)
    case Str(text) => StringNode(PlainPieces(Chars(text)))
    case Arr(items) => ArrayNode([], PlainItems(items))
    case Obj(members) => ObjectNode([], PlainFields(members))
  }

  function PlainItems(items: seq<Json>): (r: seq<Item>)
    requires forall i :: 0 <= i < |items| ==> Writable(items[i])
    ensures |r| == |items|
  {
    if items == [] then [] else [Item([], Plain(items[0]), [])] + PlainItems(items[1..])
  }

  function PlainFields(members: seq<Member>): (r: seq<Field>)
    requires forall i :: 0 <= i < |members| ==> AllScalar(members[i].name) && Writable(members[i].value)
    ensures |r| == |members|
  {
    if members == [] then []
    else
      [Field([], PlainPieces(Chars(members[0].name)), [], [], Plain(members[0].value), [])] + PlainFields(members[1..])
  }

  /** The text of a value is this derivation's, which denotes the value as it is reread and nests as the value does. */
  lemma {:induction false} PlainIsDump(v: Json, rest: string, depth: nat, limit: nat)
    requires Writable(v)
    ensures IsNode(Plain(v)) && ValueOf(Plain(v)) == Reread(v) && NodeOn(Plain(v), rest) == Dump(v) + rest
    ensures Shallow(Plain(v), depth, limit) <==> Within(v, depth, limit)
    decreases v, 1
  {
    match v
    case Num(lexeme, _) => ScanIsGrammar(lexeme);
    case Str(text) => PlainString(text, rest);
    case Arr(items) => PlainArray(items, rest, depth, limit);
    case Obj(members) => PlainObject(members, rest, depth, limit);
    case _ =>
  }

  lemma Bracketed(open: string, body: string, close: string, rest: string)
    ensures (open + body + close) + rest == open + (body + (close + rest))
    ensures body == [] ==> open + (close + rest) == open + (body + (close + rest))
  {
    assert body == [] ==> body + (close + rest) == close + rest;
  }

  lemma {:induction false} PlainArray(items: seq<Json>, rest: string, depth: nat, limit: nat)
    requires AllWritable(items)
    ensures AreItems(PlainItems(items)) && ItemValues(PlainItems(items)) == RereadItems(items)
    ensures NodeOn(ArrayNode([], PlainItems(items)), rest) == Dump(Arr(items)) + rest
    ensures ItemsShallow(PlainItems(items), depth + 1, limit) <==> AllWithin(items, depth + 1, limit)
    decreases items, 2
  {
    Bracketed("[", DumpItems(items), "]", rest);
    if items == [] {
      assert [] + ("]" + rest) == "]" + rest;
    } else {
      PlainItemsText(items, rest, depth + 1, limit);
    }
  }

  lemma {:induction false} PlainItemsText(items: seq<Json>, rest: string, depth: nat, limit: nat)
    requires AllWritable(items) && items != []
    ensures AreItems(PlainItems(items)) && ItemValues(PlainItems(items)) == RereadItems(items)
    ensures ItemsOn(PlainItems(items), rest) == DumpItems(items) + ("]" + rest)
    ensures ItemsShallow(PlainItems(items), depth, limit) <==> AllWithin(items, depth, limit)
    decreases items, 0
  {
    var item, more := Item([], Plain(items[0]), []), PlainItems(items[1..]);
    var tail := if |items| == 1 then "]" + rest else "," + (DumpItems(items[1..]) + ("]" + rest));
    PlainIsDump(items[0], tail, depth, limit);
    if |items| > 1 {
      PlainItemsText(items[1..], rest, depth, limit);
      Comma(Dump(items[0]), DumpItems(items[1..]), "]" + rest);
    }
    ItemsCons(item, more, rest);
    assert [] + tail == tail;
    assert [] + NodeOn(item.node, tail) == NodeOn(item.node, tail);
    ItemsDepth(items, item, more, depth, limit);
  }

  lemma Comma(a: string, b: string, c: string)
    ensures (a + "," + b) + c == a + ("," + (b + c))
  {
  }

  lemma {:induction false} ItemsDepth(items: seq<Json>, item: Item, more: seq<Item>, depth: nat, limit: nat)
    requires items != [] && |more| == |items| - 1
    requires Shallow(item.node, depth, limit) <==> Within(items[0], depth, limit)
    requires ItemsShallow(more, depth, limit) <==> AllWithin(items[1..], depth, limit)
    ensures ItemsShallow([item] + more, depth, limit) <==> AllWithin(items, depth, limit)
  {
    assert items == [items[0]] + items[1..];
    if ItemsShallow([item] + more, depth, limit) {
      assert ([item] + more)[0] == item && forall i :: 0 <= i < |more| ==> more[i] == ([item] + more)[i + 1];
    }
    if AllWithin(items, depth, limit) {
      assert forall i :: 0 <= i < |items[1..]| ==> items[1..][i] == items[i + 1];
    }
  }

  lemma {:induction false} PlainObject(members: seq<Member>, rest: string, depth: nat, limit: nat)
    requires MembersWritable(members)
    ensures AreFields(PlainFields(members)) && FieldValues([], PlainFields(members)) == RereadMembers([], members)
    ensures NodeOn(ObjectNode([], PlainFields(members)), rest) == Dump(Obj(members)) + rest
    ensures FieldsShallow(PlainFields(members), depth + 1, limit) <==> MembersWithin(members, depth + 1, limit)
    decreases members, 2
  {
    Bracketed("{", DumpMembers(members), "}", rest);
    if members == [] {
      assert [] + ("}" + rest) == "}" + rest;
    } else {
      PlainFieldsText(members, rest, depth + 1, limit, []);
    }
  }

  lemma {:induction false} PlainFieldsText(members: seq<Member>, rest: string, depth: nat, limit: nat,
                                           done: seq<Member>)
    requires MembersWritable(members) && members != []
    ensures AreFields(PlainFields(members)) && FieldValues(done, PlainFields(members)) == RereadMembers(done, members)
    ensures FieldsOn(PlainFields(members), rest) == DumpMembers(members) + ("}" + rest)
    ensures FieldsShallow(PlainFields(members), depth, limit) <==> MembersWithin(members, depth, limit)
    decreases members, 0
  {
    var m := members[0];
    var f, more := Field([], PlainPieces(Chars(m.name)), [], [], Plain(m.value), []), PlainFields(members[1..]);
    var tail := if |members| == 1 then "}" + rest else "," + (DumpMembers(members[1..]) + ("}" + rest));
    PlainIsDump(m.value, tail, depth, limit);
    PlainString(m.name, ":" + (Dump(m.value) + tail));
    if |members| > 1 {
      PlainFieldsText(members[1..], rest, depth, limit, SetMember(done, m.name, Reread(m.value)));
      Comma(DumpMember(m), DumpMembers(members[1..]), "}" + rest);
    }
    FieldsCons(f, more, rest, done);
    MemberJoins(Quoted(Chars(m.name)), Dump(m.value), tail);
    NoSpace(f, NodeOn(f.node, tail), tail);
    FieldsDepth(members, f, more, depth, limit);
  }

  lemma MemberJoins(name: string, value: string, tail: string)
    ensures (name + ":" + value) + tail == name + (":" + (value + tail))
  {
  }

  lemma NoSpace(f: Field, value: string, tail: string)
    requires f.before == [] && f.mid == [] && f.gap == [] && f.after == []
    ensures f.after + tail == tail
    ensures f.before + StringOn(f.name, f.mid + (":" + (f.gap + value))) == StringOn(f.name, ":" + value)
  {
    assert f.gap + value == value;
    assert f.mid + (":" + value) == ":" + value;
  }

  lemma {:induction false} FieldsDepth(members: seq<Member>, f: Field, more: seq<Field>, depth: nat, limit: nat)
    requires members != [] && |more| == |members| - 1
    requires Shallow(f.node, depth, limit) <==> Within(members[0].value, depth, limit)
    requires FieldsShallow(more, depth, limit) <==> MembersWithin(members[1..], depth, limit)
    ensures FieldsShallow([f] + more, depth, limit) <==> MembersWithin(members, depth, limit)
  {
    assert members == [members[0]] + members[1..];
    if FieldsShallow([f] + more, depth, limit) {
      assert ([f] + more)[0] == f && forall i :: 0 <= i < |more| ==> more[i] == ([f] + more)[i + 1];
    }
    if MembersWithin(members, depth, limit) {
      assert forall i :: 0 <= i < |members[1..]| ==> members[1..][i] == members[i + 1];
    }
  }

  /** Parsing the text of any value that has one: the value as it is reread, or a refusal of its depth. */
  lemma {:induction false} ParseDumped(v: Json, rest: string, depth: nat, limit: nat)
    requires Writable(v) && Ends(rest)
    ensures ParseValue(Dump(v) + rest, depth, limit) == if Within(v, depth, limit) then Got(Reread(v), rest) else Bad
  {
    PlainIsDump(v, rest, depth, limit);
    ParseNode(Plain(v), rest, depth, limit);
  }

  /** parse_json(dump_json(v)) for every value that has a text. */
  lemma {:induction false} ParseDumpedDocument(v: Json, limit: nat)
    requires Writable(v)
    ensures ParseDocument(Dump(v), limit) == if Within(v, 0, limit) then Got(Reread(v), []) else Bad
  {
    PlainIsDump(v, [], 0, limit);
    assert Dump(v) + [] == Dump(v);
    ParseNode(Plain(v), [], 0, limit);
    NodeBegins(Plain(v), []);
    NoMark([], Plain(v), []);
    Skips([], Dump(v));
    assert [] + Dump(v) == Dump(v);
  }

  // --- which values come back -----------------------------------------------------------------------

  predicate DistinctNames(members: seq<Member>) {
    forall i, j {:trigger Differ(members, i, j)} :: 0 <= i < j < |members| ==> Differ(members, i, j)
  }

  predicate Differ(members: seq<Member>, i: nat, j: nat)
    requires i < |members| && j < |members|
  {
    members[i].name != members[j].name
  }

  predicate HasName(members: seq<Member>, name: Text) {
    exists i :: 0 <= i < |members| && members[i].name == name
  }

  /** A number says of itself whether it is an integer, and no object has a name twice. */
  predicate Tidy(v: Json) {
    match v
    case Num(lexeme, integer) => integer == IntegerLexeme(lexeme)
    case Arr(items) => forall i :: 0 <= i < |items| ==> Tidy(items[i])
    case Obj(members) => DistinctNames(members) && forall i :: 0 <= i < |members| ==> Tidy(members[i].value)
    case _ => true
  }

  lemma {:induction false} SetNew(members: seq<Member>, name: Text, value: Json)
    requires !HasName(members, name)
    ensures SetMember(members, name, value) == members + [Member(name, value)]
  {
    if members != [] {
      assert members[0].name != name;
      forall i | 0 <= i < |members[1..]|
        ensures members[1..][i].name != name
      {
        assert members[1..][i] == members[i + 1];
      }
      SetNew(members[1..], name, value);
    }
  }

  lemma {:induction false} SetOld(members: seq<Member>, name: Text, value: Json)
    requires HasName(members, name)
    ensures |SetMember(members, name, value)| == |members|
    ensures forall i :: 0 <= i < |members| ==> SetMember(members, name, value)[i].name == members[i].name
  {
    if members[0].name != name {
      assert HasName(members[1..], name) by {
        var i :| 0 <= i < |members| && members[i].name == name;
        assert members[1..][i - 1].name == name;
      }
      SetOld(members[1..], name, value);
    }
  }

  /** However often names are met again, each stands once. */
  lemma SetKeepsDistinct(members: seq<Member>, name: Text, value: Json)
    requires DistinctNames(members)
    ensures DistinctNames(SetMember(members, name, value))
  {
    var after := SetMember(members, name, value);
    if HasName(members, name) {
      SetOld(members, name, value);
      SameNames(members, after);
    } else {
      SetNew(members, name, value);
      forall i, j | 0 <= i < j < |after|
        ensures Differ(after, i, j)
      {
        assert j < |members| ==> Differ(members, i, j);
      }
    }
  }

  lemma {:induction false} RereadKeepsDistinct(done: seq<Member>, members: seq<Member>)
    requires DistinctNames(done)
    ensures DistinctNames(RereadMembers(done, members))
    decreases members
  {
    if members != [] {
      SetKeepsDistinct(done, members[0].name, Reread(members[0].value));
      RereadKeepsDistinct(SetMember(done, members[0].name, Reread(members[0].value)), members[1..]);
    }
  }

  function RereadEach(members: seq<Member>): (r: seq<Member>)
    ensures |r| == |members|
    ensures forall i :: 0 <= i < |r| ==> r[i] == Member(members[i].name, Reread(members[i].value))
  {
    if members == [] then [] else [Member(members[0].name, Reread(members[0].value))] + RereadEach(members[1..])
  }

  /** Members whose names are new are appended. */
  lemma {:induction false} RereadFresh(done: seq<Member>, members: seq<Member>)
    requires DistinctNames(done + members)
    ensures RereadMembers(done, members) == done + RereadEach(members)
    decreases members
  {
    if members != [] {
      var m := Member(members[0].name, Reread(members[0].value));
      FirstIsNew(done, members);
      SetNew(done, m.name, m.value);
      StillFresh(done, members, m);
      RereadFresh(done + [m], members[1..]);
      Reassociate(done, m, RereadEach(members[1..]));
    }
  }

  lemma Reassociate(done: seq<Member>, m: Member, rest: seq<Member>)
    ensures (done + [m]) + rest == done + ([m] + rest)
  {
  }

  lemma StillFresh(done: seq<Member>, members: seq<Member>, m: Member)
    requires DistinctNames(done + members) && members != [] && m.name == members[0].name
    ensures DistinctNames((done + [m]) + members[1..])
  {
    SameNames(done + members, (done + [m]) + members[1..]);
  }

  lemma FirstIsNew(done: seq<Member>, members: seq<Member>)
    requires DistinctNames(done + members) && members != []
    ensures !HasName(done, members[0].name)
  {
    var all := done + members;
    forall i | 0 <= i < |done|
      ensures done[i].name != members[0].name
    {
      assert Differ(all, i, |done|);
    }
  }

  lemma SameNames(a: seq<Member>, b: seq<Member>)
    requires DistinctNames(a) && |a| == |b| && forall i :: 0 <= i < |a| ==> a[i].name == b[i].name
    ensures DistinctNames(b)
  {
    forall i, j | 0 <= i < j < |b|
      ensures Differ(b, i, j)
    {
      assert Differ(a, i, j);
    }
  }

  lemma {:induction false} RereadItemsAt(items: seq<Json>, i: nat)
    requires i < |items|
    ensures RereadItems(items)[i] == Reread(items[i])
  {
    if i > 0 {
      RereadItemsAt(items[1..], i - 1);
    }
  }

  /** Rereading changes nothing exactly when the value is tidy. */
  lemma {:induction false} RereadSame(v: Json)
    ensures Reread(v) == v <==> Tidy(v)
    decreases v
  {
    match v
    case Arr(items) =>
      forall i | 0 <= i < |items|
        ensures RereadItems(items)[i] == items[i] <==> Tidy(items[i])
      {
        RereadItemsAt(items, i);
        RereadSame(items[i]);
      }
      assert RereadItems(items) == items <==> forall i :: 0 <= i < |items| ==> RereadItems(items)[i] == items[i];
    case Obj(members) =>
      RereadKeepsDistinct([], members);
      forall i | 0 <= i < |members|
        ensures Reread(members[i].value) == members[i].value <==> Tidy(members[i].value)
      {
        RereadSame(members[i].value);
      }
      if DistinctNames(members) {
        assert [] + members == members;
        RereadFresh([], members);
        assert RereadMembers([], members) == RereadEach(members);
        assert RereadEach(members) == members <==>
               forall i :: 0 <= i < |members| ==> RereadEach(members)[i] == members[i];
      }
    case _ =>
  }

  /** A value comes back from its text as it was exactly when it nests at most as deeply as the parser follows, its
      numbers say of themselves whether they are integers, and no object has a name twice. */
  lemma RoundTripIff(v: Json)
    requires Writable(v)
    ensures ParseDocument(Dump(v), 512) == Got(v, []) <==> Within(v, 0, 512) && Tidy(v)
  {
    ParseDumpedDocument(v, 512);
    RereadSame(v);
  }

  /** A double built from 2.0 is the lexeme 2 without being an integer, and comes back as one. */
  lemma WholeDoubleComesBackAsInteger()
    ensures Writable(Num("2", false))
    ensures ParseDocument(Dump(Num("2", false)), 512) == Got(Num("2", true), [])
  {
    assert "2"[1..] == [];
    assert IsJsonNumber("2");
    ParseDumpedDocument(Num("2", false), 512);
  }

  // --- what a parser can yield ----------------------------------------------------------------------

  /** Everything a parser yields: numbers are JSON numbers. */
  predicate NumbersAreJson(v: Json) {
    match v
    case Num(lexeme, _) => IsJsonNumber(lexeme)
    case Arr(items) => forall i :: 0 <= i < |items| ==> NumbersAreJson(items[i])
    case Obj(members) => forall i :: 0 <= i < |members| ==> NumbersAreJson(members[i].value)
    case _ => true
  }

  ghost predicate Clean(v: Json, depth: nat, limit: nat) { Tidy(v) && NumbersAreJson(v) && Within(v, depth, limit) }

  ghost predicate ItemsClean(items: seq<Json>, depth: nat, limit: nat) {
    forall i :: 0 <= i < |items| ==> Clean(items[i], depth, limit)
  }

  ghost predicate MembersClean(members: seq<Member>, depth: nat, limit: nat) {
    DistinctNames(members) && forall i :: 0 <= i < |members| ==> Clean(members[i].value, depth, limit)
  }

  lemma {:induction false} SetKeepsClean(members: seq<Member>, name: Text, value: Json, depth: nat, limit: nat)
    requires forall i :: 0 <= i < |members| ==> Clean(members[i].value, depth, limit)
    requires Clean(value, depth, limit)
    ensures forall i :: 0 <= i < |SetMember(members, name, value)| ==>
              Clean(SetMember(members, name, value)[i].value, depth, limit)
  {
    if members != [] && members[0].name != name {
      SetKeepsClean(members[1..], name, value, depth, limit);
    }
  }

  /** Whatever the text, a parsed value is tidy, its numbers are JSON numbers, and it nests within the limit. */
  lemma {:induction false} ParsedIsClean(t: string, depth: nat, limit: nat)
    ensures var r := ParseValue(t, depth, limit); r.Got? ==> Clean(r.value, depth, limit)
    decreases |t|, 0
  {
    if depth <= limit && t != [] {
      if t[0] == '{' {
        ParsedMembersClean(t[1..], depth, limit, []);
      } else if t[0] == '[' {
        ParsedItemsClean(t[1..], depth, limit, []);
      }
    }
  }

  lemma {:induction false} ParsedItemsClean(t: string, depth: nat, limit: nat, done: seq<Json>)
    requires ItemsClean(done, depth + 1, limit) && depth <= limit
    ensures var r := ParseItems(t, depth, limit, done); r.Got? ==> Clean(r.value, depth, limit)
    decreases |t|, 1
  {
    ParsedIsClean(SkipSpace(t), depth + 1, limit);
    var first := ParseItem(t, depth, limit);
    if first.Got? && first.rest[0] == ',' {
      ParsedItemsClean(first.rest[1..], depth, limit, done + [first.value]);
    }
  }

  lemma {:induction false} ParsedMembersClean(t: string, depth: nat, limit: nat, done: seq<Member>)
    requires MembersClean(done, depth + 1, limit) && depth <= limit
    ensures var r := ParseMembers(t, depth, limit, done); r.Got? ==> Clean(r.value, depth, limit)
    decreases |t|, 1
  {
    var first := ParseMember(t, depth, limit);
    if first.Got? {
      var m := first.value;
      ParsedIsClean(ParseName(t).rest, depth + 1, limit);
      SetKeepsDistinct(done, m.name, m.value);
      SetKeepsClean(done, m.name, m.value, depth + 1, limit);
      if first.rest[0] == ',' {
        ParsedMembersClean(first.rest[1..], depth, limit, SetMember(done, m.name, m.value));
      }
    }
  }

  lemma ParsedDocumentIsClean(t: string)
    ensures var r := ParseDocument(t, 512); r.Got? ==> Clean(r.value, 0, 512)
  {
    ParsedIsClean(SkipSpace(t), 0, 512);
  }

  /** Two values that have texts and are tidy have the same text only if they are the same value. */
  lemma DumpInjective(v: Json, w: Json, limit: nat)
    requires Writable(v) && Writable(w) && Tidy(v) && Tidy(w) && Dump(v) == Dump(w)
    requires Within(v, 0, limit) && Within(w, 0, limit)
    ensures v == w
  {
    ParseDumpedDocument(v, limit);
    ParseDumpedDocument(w, limit);
    RereadSame(v);
    RereadSame(w);
  }
}
