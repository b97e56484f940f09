/** The texts of RFC 8259 as derivations, with any white space and any spelling of escapes, and that the parser takes
    exactly those within its depth, with the values they denote (cpp/src/json.cpp:58-271). A derivation is written in
    front of the text that follows it. */
module JsonGrammar {
  import opened Collections
  import opened DecimalText
  import opened Json
  import opened JsonNumbers

  // --- strings (section 7) --------------------------------------------------------------------------

  /** One unescaped character, one two-character escape, or one \u escape with its four digits. */
  datatype Piece = Raw(c: char) | Short(letter: char) | Unit(digits: string)

  predicate IsPiece(p: Piece) {
    match p
    case Raw(c) => c as int >= 32 && c != '"' && c != '\\'
    case Short(letter) => letter in "\"\\/bfnrt"
    case Unit(digits) => |digits| == 4 && forall i :: 0 <= i < 4 ==> HexValue(digits[i]) >= 0
  }

  predicate ArePieces(ps: seq<Piece>) { forall i :: 0 <= i < |ps| ==> IsPiece(ps[i]) }

  function PieceOn(p: Piece, rest: string): string {
    match p
    case Raw(c) => [c] + rest
    case Short(letter) => ['\\', letter] + rest
    case Unit(digits) => "\\u" + (digits + rest)
  }

  function PiecesOn(ps: seq<Piece>, rest: string): string {
    if ps == [] then rest else PieceOn(ps[0], PiecesOn(ps[1..], rest))
  }

  function StringOn(ps: seq<Piece>, rest: string): string { "\"" + PiecesOn(ps, "\"" + rest) }

  /** What a two-character escape stands for. */
  function ShortPoint(letter: char): int {
    match letter
    case '"' => 0x22
    case '\\' => 0x5C
    case '/' => 0x2F
    case 'b' => 0x08
    case 'f' => 0x0C
    case 'n' => 0x0A
    case 'r' => 0x0D
    case _ => 0x09
  }

  /** The 16-bit unit four hexadecimal digits spell. */
  function UnitValue(digits: string): int
    requires |digits| == 4
  {
    HexValue(digits[0]) * 4096 + HexValue(digits[1]) * 256 + HexValue(digits[2]) * 16 + HexValue(digits[3])
  }

  predicate IsHigh(p: Piece) { p.Unit? && |p.digits| == 4 && 0xD800 <= UnitValue(p.digits) <= 0xDBFF }

  predicate IsLow(p: Piece) { p.Unit? && |p.digits| == 4 && 0xDC00 <= UnitValue(p.digits) <= 0xDFFF }

  function Point(p: Piece): int
    requires IsPiece(p)
  {
    match p
    case Raw(c) => c as int
    case Short(letter) => ShortPoint(letter)
    case Unit(digits) => UnitValue(digits)
  }

  /** The code point of a surrogate pair: ten bits from each half. */
  function PairPoint(high: Piece, low: Piece): int
    requires IsHigh(high) && IsLow(low)
  {
    0x1_0000 + (UnitValue(high.digits) - 0xD800) * 1024 + (UnitValue(low.digits) - 0xDC00)
  }

  /** The text a string denotes: a high and a low surrogate next to each other are one code point. */
  function TextOf(ps: seq<Piece>): Text
    requires ArePieces(ps)
  {
    if ps == [] then []
    else if |ps| >= 2 && IsHigh(ps[0]) && IsLow(ps[1]) then [PairPoint(ps[0], ps[1])] + TextOf(ps[2..])
    else [Point(ps[0])] + TextOf(ps[1..])
  }

  // --- values (sections 2 to 5) ---------------------------------------------------------------------

  datatype Node =
    | NullNode
    | BoolNode(truth: bool)
    | NumberNode(lexeme: string)
    | StringNode(pieces: seq<Piece>)
    | ArrayNode(space: string, items: seq<Item>)
    | ObjectNode(space: string, fields: seq<Field>)

  /** An item of an array with the white space around it. */
  datatype Item = Item(before: string, node: Node, after: string)

  /** A member of an object with the white space around its name, its colon and its value. */
  datatype Field = Field(before: string, name: seq<Piece>, mid: string, gap: string, node: Node, after: string)

  predicate Blank(s: string) { forall i :: 0 <= i < |s| ==> IsSpace(s[i]) }

  ghost predicate IsNode(n: Node) {
    match n
    case NullNode => true
    case BoolNode(_) => true
    case NumberNode(lexeme) => IsNumber(lexeme)
    case StringNode(pieces) => ArePieces(pieces)
    case ArrayNode(space, items) =>
      Blank(space) && forall i :: 0 <= i < |items| ==> IsNode(items[i].node) && SpacedItem(items[i])
    case ObjectNode(space, fields) =>
      Blank(space) && forall i :: 0 <= i < |fields| ==> IsNode(fields[i].node) && SpacedField(fields[i])
  }

  predicate SpacedItem(item: Item) { Blank(item.before) && Blank(item.after) }

  predicate SpacedField(f: Field) {
    Blank(f.before) && ArePieces(f.name) && Blank(f.mid) && Blank(f.gap) && Blank(f.after)
  }

  ghost predicate AreItems(items: seq<Item>) {
    forall i :: 0 <= i < |items| ==> IsNode(items[i].node) && SpacedItem(items[i])
  }

  ghost predicate AreFields(fields: seq<Field>) {
    forall i :: 0 <= i < |fields| ==> IsNode(fields[i].node) && SpacedField(fields[i])
  }

  function NodeOn(n: Node, rest: string): string {
    match n
    case NullNode => "null" + rest
    case BoolNode(truth) => (if truth then "true" else "false") + rest
    case NumberNode(lexeme) => lexeme + rest
    case StringNode(pieces) => StringOn(pieces, rest)
    case ArrayNode(space, items) => "[" + if items == [] then space + ("]" + rest) else ItemsOn(items, rest)
    case ObjectNode(space, fields) => "{" + if fields == [] then space + ("}" + rest) else FieldsOn(fields, rest)
  }

  /** The items, separated by commas, and the closing bracket. */
  function ItemsOn(items: seq<Item>, rest: string): string
    requires items != []
    decreases items, 1
  {
    items[0].before + NodeOn(items[0].node, items[0].after + AfterItem(items, rest))
  }

  function AfterItem(items: seq<Item>, rest: string): string
    requires items != []
    decreases items, 0
  {
    if |items| == 1 then "]" + rest else "," + ItemsOn(items[1..], rest)
  }

  /** The members, separated by commas, and the closing brace. */
  function FieldsOn(fields: seq<Field>, rest: string): string
    requires fields != []
    decreases fields, 1
  {
    var f := fields[0];
    f.before + StringOn(f.name, f.mid + (":" + (f.gap + NodeOn(f.node, f.after + AfterField(fields, rest)))))
  }

  function AfterField(fields: seq<Field>, rest: string): string
    requires fields != []
    decreases fields, 0
  {
    if |fields| == 1 then "}" + rest else "," + FieldsOn(fields[1..], rest)
  }

  /** The value a text denotes; of members of one name the last counts, in the place of the first. */
  ghost function ValueOf(n: Node): Json
    requires IsNode(n)
  {
    match n
    case NullNode => Null
    case BoolNode(truth) => Bool(truth)
    case NumberNode(lexeme) => Num(lexeme, IntegerLexeme(lexeme))
    case StringNode(pieces) => Str(TextOf(pieces))
    case ArrayNode(_, items) => Arr(ItemValues(items))
    case ObjectNode(_, fields) => Obj(FieldValues([], fields))
  }

  ghost function ItemValues(items: seq<Item>): seq<Json>
    requires AreItems(items)
  {
    if items == [] then [] else [ValueOf(items[0].node)] + ItemValues(items[1..])
  }

  ghost function FieldValues(done: seq<Member>, fields: seq<Field>): seq<Member>
    requires AreFields(fields)
    decreases fields
  {
    if fields == [] then done
    else FieldValues(SetMember(done, TextOf(fields[0].name), ValueOf(fields[0].node)), fields[1..])
  }

  /** The text nests no deeper than the limit, starting at this depth. */
  ghost predicate Shallow(n: Node, depth: nat, limit: nat) {
    depth <= limit &&
    match n
    case ArrayNode(_, items) => forall i :: 0 <= i < |items| ==> Shallow(items[i].node, depth + 1, limit)
    case ObjectNode(_, fields) => forall i :: 0 <= i < |fields| ==> Shallow(fields[i].node, depth + 1, limit)
    case _ => true
  }

  /** JSON-text = ws value ws: the text denotes this value, within the limit. */
  ghost predicate IsText(t: string, v: Json, limit: nat) {
    exists before, n, after :: IsTextBy(t, v, limit, before, n, after)
  }

  ghost predicate IsTextBy(t: string, v: Json, limit: nat, before: string, n: Node, after: string) {
    Blank(before) && IsNode(n) && Blank(after) && t == before + NodeOn(n, after) && Shallow(n, 0, limit) &&
    v == ValueOf(n)
  }

  // --- the parser takes every derivation: strings ---------------------------------------------------

  lemma ShortLetter(letter: char)
    ensures ShortEscape(letter) >= 0 <==> letter in "\"\\/bfnrt"
    ensures letter in "\"\\/bfnrt" ==> ShortEscape(letter) == ShortPoint(letter) && letter != 'u'
  {
  }

  lemma UnitDigits(digits: string, rest: string)
    requires IsPiece(Unit(digits))
    ensures Hex4(digits + rest) == UnitValue(digits) >= 0 && (digits + rest)[4..] == rest
  {
    FourDigits(digits, HexValue(digits[0]), HexValue(digits[1]), HexValue(digits[2]), HexValue(digits[3]), rest);
  }

  /** A piece that is no high surrogate with a low one after it is read by itself. */
  lemma {:induction false} ParsePiece(p: Piece, rest: string, done: Text)
    requires IsPiece(p) && !IsHigh(p)
    ensures ParseChars(PieceOn(p, rest), done) == ParseChars(rest, done + [Point(p)])
  {
    match p
    case Raw(c) => assert ([c] + rest)[1..] == rest;
    case Short(letter) =>
      ShortLetter(letter);
      assert (['\\', letter] + rest)[2..] == rest;
    case Unit(digits) =>
      UnitDigits(digits, rest);
      UnitEscape(digits, UnitValue(digits), rest, done);
  }

  /** What follows a high surrogate that stays alone: no low surrogate, and no broken escape. */
  ghost predicate NoLowAhead(t: string) {
    |t| >= 6 && t[0] == '\\' && t[1] == 'u' ==> Hex4(t[2..]) >= 0 && !(0xDC00 <= Hex4(t[2..]) <= 0xDFFF)
  }

  lemma {:induction false} ParseHigh(digits: string, rest: string, done: Text)
    requires IsPiece(Unit(digits)) && IsHigh(Unit(digits)) && NoLowAhead(rest)
    ensures ParseChars(PieceOn(Unit(digits), rest), done) == ParseChars(rest, done + [UnitValue(digits)])
  {
    UnitDigits(digits, rest);
    var t := digits + rest;
    assert ("\\u" + t)[2..] == t;
    if |t| >= 10 {
      assert t[4] == rest[0] && t[5] == rest[1] && t[6..] == rest[2..];
    }
  }

  lemma {:induction false} ParsePair(high: string, low: string, rest: string, done: Text)
    requires IsPiece(Unit(high)) && IsPiece(Unit(low)) && IsHigh(Unit(high)) && IsLow(Unit(low))
    ensures ParseChars(PieceOn(Unit(high), PieceOn(Unit(low), rest)), done) ==
            ParseChars(rest, done + [PairPoint(Unit(high), Unit(low))])
  {
    var x, y := UnitValue(high) - 0xD800, UnitValue(low) - 0xDC00;
    UnitDigits(high, "\\u" + (low + rest));
    UnitDigits(low, rest);
    assert PairPoint(Unit(high), Unit(low)) == 0x1_0000 + x * 1024 + y;
    PairEscape(high, low, x, y, rest, done);
  }

  lemma NextIsNoLow(ps: seq<Piece>, rest: string)
    requires ArePieces(ps) && (ps == [] || !IsLow(ps[0]))
    ensures NoLowAhead(PiecesOn(ps, "\"" + rest))
  {
    if ps != [] {
      var more := PiecesOn(ps[1..], "\"" + rest);
      match ps[0]
      case Raw(c) =>
      case Short(letter) => ShortLetter(letter);
      case Unit(digits) =>
        UnitDigits(digits, more);
        assert PieceOn(ps[0], more)[2..] == digits + more;
    }
  }

  lemma {:induction false} ParsePieces(ps: seq<Piece>, rest: string, done: Text)
    requires ArePieces(ps)
    ensures ParseChars(PiecesOn(ps, "\"" + rest), done) == Got(done + TextOf(ps), rest)
    decreases |ps|
  {
    if ps == [] {
      assert ("\"" + rest)[1..] == rest;
      assert done + [] == done;
    } else if |ps| >= 2 && IsHigh(ps[0]) && IsLow(ps[1]) {
      assert ps[1..][1..] == ps[2..];
      var p := PairPoint(ps[0], ps[1]);
      ParsePair(ps[0].digits, ps[1].digits, PiecesOn(ps[2..], "\"" + rest), done);
      ParsePieces(ps[2..], rest, done + [p]);
      assert done + [p] + TextOf(ps[2..]) == done + ([p] + TextOf(ps[2..]));
    } else {
      var p, more := Point(ps[0]), PiecesOn(ps[1..], "\"" + rest);
      if IsHigh(ps[0]) {
        NextIsNoLow(ps[1..], rest);
        ParseHigh(ps[0].digits, more, done);
      } else {
        ParsePiece(ps[0], more, done);
      }
      ParsePieces(ps[1..], rest, done + [p]);
      assert done + [p] + TextOf(ps[1..]) == done + ([p] + TextOf(ps[1..]));
    }
  }

  lemma {:induction false} ParseString(ps: seq<Piece>, rest: string)
    requires ArePieces(ps)
    ensures StringOn(ps, rest) != [] && StringOn(ps, rest)[0] == '"'
    ensures ParseChars(StringOn(ps, rest)[1..], []) == Got(TextOf(ps), rest)
  {
    ParsePieces(ps, rest, []);
    assert StringOn(ps, rest)[1..] == PiecesOn(ps, "\"" + rest);
    assert [] + TextOf(ps) == TextOf(ps);
  }

  // --- the parser takes every derivation: values ----------------------------------------------------

  /** What may follow a value. */
  predicate Ends(rest: string) { rest == [] || !NumberChar(rest[0]) }

  /** How the text of a value begins: with nothing that is skipped, and nothing that ends a list. */
  predicate Begins(t: string) { t != [] && !IsSpace(t[0]) && t[0] != ']' && t[0] != '}' }

  lemma {:induction false} NodeBegins(n: Node, rest: string)
    requires IsNode(n)
    ensures Begins(NodeOn(n, rest))
  {
    if n.NumberNode? {
      NumberBegins(n.lexeme, rest);
    }
  }

  lemma NumberBegins(lexeme: string, rest: string)
    requires IsNumber(lexeme)
    ensures Begins(lexeme + rest)
  {
    ScanIsGrammar(lexeme);
    NumberIsNumberChars(lexeme);
    assert (lexeme + rest)[0] == lexeme[0];
  }

  lemma {:induction false} Skips(space: string, t: string)
    requires Blank(space) && (t == [] || !IsSpace(t[0]))
    ensures SkipSpace(space + t) == t
  {
    if space == [] {
      assert space + t == t;
    } else {
      assert (space + t)[1..] == space[1..] + t;
      Skips(space[1..], t);
    }
  }

  lemma BlankEnds(space: string, rest: string)
    requires Blank(space) && rest != [] && !NumberChar(rest[0])
    ensures Ends(space + rest)
  {
    assert space != [] ==> (space + rest)[0] == space[0];
  }

  lemma {:induction false} ParseNumberNode(lexeme: string, rest: string, depth: nat, limit: nat)
    requires IsNumber(lexeme) && Ends(rest) && depth <= limit
    ensures ParseValue(lexeme + rest, depth, limit) == Got(Num(lexeme, IntegerLexeme(lexeme)), rest)
  {
    ScanIsGrammar(lexeme);
    NumberIsNumberChars(lexeme);
    NumberText(lexeme, rest);
    NumberAhead(lexeme + rest, depth, limit);
  }

  lemma {:induction false} NumberAhead(t: string, depth: nat, limit: nat)
    requires t != [] && (t[0] == '-' || IsDigit(t[0])) && depth <= limit
    ensures ParseValue(t, depth, limit) == ParseNumber(t)
  {
    NumberScalar(t);
  }

  lemma {:induction false} NumberScalar(t: string)
    requires t != [] && (t[0] == '-' || IsDigit(t[0]))
    ensures ParseScalar(t) == ParseNumber(t)
  {
  }

  lemma {:induction false} NumberText(lexeme: string, rest: string)
    requires IsJsonNumber(lexeme) && lexeme != [] && AllNumberChars(lexeme) && Ends(rest)
    ensures ParseNumber(lexeme + rest) == Got(Num(lexeme, IntegerLexeme(lexeme)), rest)
  {
    RunOfNumber(lexeme, rest);
    CutConcat(lexeme, rest);
  }

  lemma ParseWord(word: string, rest: string, value: Json)
    requires word != []
    ensures ParseLiteral(word + rest, word, value) == Got(value, rest)
  {
    CutConcat(word, rest);
  }

  lemma {:induction false} ParseScalarNode(n: Node, rest: string, depth: nat, limit: nat)
    requires IsNode(n) && Ends(rest) && depth <= limit && !n.ArrayNode? && !n.ObjectNode?
    ensures ParseValue(NodeOn(n, rest), depth, limit) == Got(ValueOf(n), rest)
  {
    match n
    case NullNode => ParseWord("null", rest, Null);
    case BoolNode(truth) => ParseWord(if truth then "true" else "false", rest, Bool(truth));
    case NumberNode(lexeme) => ParseNumberNode(lexeme, rest, depth, limit);
    case StringNode(pieces) => ParseString(pieces, rest);
  }

  ghost predicate ItemsShallow(items: seq<Item>, depth: nat, limit: nat) {
    forall i :: 0 <= i < |items| ==> Shallow(items[i].node, depth, limit)
  }

  ghost predicate FieldsShallow(fields: seq<Field>, depth: nat, limit: nat) {
    forall i :: 0 <= i < |fields| ==> Shallow(fields[i].node, depth, limit)
  }

  /** Whatever the derivation, the parser reads it and stops where it ends, or refuses its depth. */
  lemma {:induction false} ParseNode(n: Node, rest: string, depth: nat, limit: nat)
    requires IsNode(n) && Ends(rest)
    ensures ParseValue(NodeOn(n, rest), depth, limit) ==
            if Shallow(n, depth, limit) then Got(ValueOf(n), rest) else Bad
    decreases n, 1
  {
    if depth > limit {
    } else if n.ArrayNode? {
      ParseArrayNode(n.space, n.items, rest, depth, limit);
    } else if n.ObjectNode? {
      ParseObjectNode(n.space, n.fields, rest, depth, limit);
    } else {
      ParseScalarNode(n, rest, depth, limit);
    }
  }

  lemma {:induction false} ParseArrayNode(space: string, items: seq<Item>, rest: string, depth: nat, limit: nat)
    requires Blank(space) && AreItems(items) && depth <= limit
    ensures ParseValue(NodeOn(ArrayNode(space, items), rest), depth, limit) ==
            if ItemsShallow(items, depth + 1, limit) then Got(Arr(ItemValues(items)), rest) else Bad
    decreases items, 2
  {
    if items == [] {
      EmptyArray(space, rest, depth, limit);
    } else {
      ItemsBegin(items, rest);
      ArrayAhead(ItemsOn(items, rest), depth, limit);
      ParseItemNodes(items, rest, depth, limit, []);
      assert [] + ItemValues(items) == ItemValues(items);
    }
  }

  lemma {:induction false} EmptyArray(space: string, rest: string, depth: nat, limit: nat)
    requires depth <= limit && Blank(space)
    ensures ParseValue("[" + (space + ("]" + rest)), depth, limit) == Got(Arr([]), rest)
  {
    var u := space + ("]" + rest);
    Skips(space, "]" + rest);
    assert ("[" + u)[1..] == u && ("]" + rest)[1..] == rest;
  }

  lemma {:induction false} ArrayAhead(u: string, depth: nat, limit: nat)
    requires depth <= limit && Begins(SkipSpace(u))
    ensures ParseValue("[" + u, depth, limit) == ParseItems(u, depth, limit, [])
  {
    assert ("[" + u)[1..] == u;
  }

  lemma {:induction false} ItemsBegin(items: seq<Item>, rest: string)
    requires AreItems(items) && items != []
    ensures SkipSpace(ItemsOn(items, rest)) == NodeOn(items[0].node, items[0].after + AfterItem(items, rest))
    ensures Begins(SkipSpace(ItemsOn(items, rest)))
  {
    var t := NodeOn(items[0].node, items[0].after + AfterItem(items, rest));
    NodeBegins(items[0].node, items[0].after + AfterItem(items, rest));
    assert SpacedItem(items[0]);
    Skips(items[0].before, t);
  }

  lemma {:induction false} ItemEnds(items: seq<Item>, rest: string)
    requires AreItems(items) && items != []
    ensures Ends(items[0].after + AfterItem(items, rest))
    ensures SkipSpace(items[0].after + AfterItem(items, rest)) == AfterItem(items, rest)
  {
    assert SpacedItem(items[0]);
    BlankEnds(items[0].after, AfterItem(items, rest));
    Skips(items[0].after, AfterItem(items, rest));
  }

  lemma {:induction false} ParseItemNode(items: seq<Item>, rest: string, depth: nat, limit: nat)
    requires AreItems(items) && items != []
    ensures ParseItem(ItemsOn(items, rest), depth, limit) ==
            if Shallow(items[0].node, depth + 1, limit) then Got(ValueOf(items[0].node), AfterItem(items, rest))
            else Bad
    decreases items, 0
  {
    ItemsBegin(items, rest);
    ItemEnds(items, rest);
    ParseNode(items[0].node, items[0].after + AfterItem(items, rest), depth + 1, limit);
  }

  lemma {:induction false} ParseItemNodes(items: seq<Item>, rest: string, depth: nat, limit: nat, done: seq<Json>)
    requires AreItems(items) && items != []
    ensures ParseItems(ItemsOn(items, rest), depth, limit, done) ==
            if ItemsShallow(items, depth + 1, limit) then Got(Arr(done + ItemValues(items)), rest) else Bad
    decreases items, 1
  {
    var after := AfterItem(items, rest);
    ParseItemNode(items, rest, depth, limit);
    if Shallow(items[0].node, depth + 1, limit) {
      var item := ValueOf(items[0].node);
      ShallowTail(items, depth + 1, limit);
      if |items| == 1 {
        assert after[1..] == rest;
        assert ItemValues(items) == [item];
      } else {
        ParseItemNodes(items[1..], rest, depth, limit, done + [item]);
        assert after[1..] == ItemsOn(items[1..], rest);
        assert (done + [item]) + ItemValues(items[1..]) == done + ItemValues(items);
      }
    }
  }

  lemma ShallowTail(items: seq<Item>, depth: nat, limit: nat)
    requires items != [] && Shallow(items[0].node, depth, limit)
    ensures ItemsShallow(items, depth, limit) <==> ItemsShallow(items[1..], depth, limit)
  {
    if ItemsShallow(items[1..], depth, limit) {
      forall i | 0 <= i < |items|
        ensures Shallow(items[i].node, depth, limit)
      {
        assert i > 0 ==> items[i] == items[1..][i - 1];
      }
    }
  }

  lemma {:induction false} ParseObjectNode(space: string, fields: seq<Field>, rest: string, depth: nat, limit: nat)
    requires Blank(space) && AreFields(fields) && depth <= limit
    ensures ParseValue(NodeOn(ObjectNode(space, fields), rest), depth, limit) ==
            if FieldsShallow(fields, depth + 1, limit) then Got(Obj(FieldValues([], fields)), rest) else Bad
    decreases fields, 2
  {
    if fields == [] {
      EmptyObject(space, rest, depth, limit);
    } else {
      FieldsBegin(fields, rest);
      ObjectAhead(FieldsOn(fields, rest), depth, limit);
      ParseFieldNodes(fields, rest, depth, limit, []);
    }
  }

  lemma {:induction false} EmptyObject(space: string, rest: string, depth: nat, limit: nat)
    requires depth <= limit && Blank(space)
    ensures ParseValue("{" + (space + ("}" + rest)), depth, limit) == Got(Obj([]), rest)
  {
    var u := space + ("}" + rest);
    Skips(space, "}" + rest);
    assert ("{" + u)[1..] == u && ("}" + rest)[1..] == rest;
  }

  lemma {:induction false} ObjectAhead(u: string, depth: nat, limit: nat)
    requires depth <= limit && Begins(SkipSpace(u))
    ensures ParseValue("{" + u, depth, limit) == ParseMembers(u, depth, limit, [])
  {
    assert ("{" + u)[1..] == u;
  }

  /** Everything after the name of the first member. */
  function AfterName(fields: seq<Field>, rest: string): string
    requires fields != []
  {
    var f := fields[0];
    f.mid + (":" + (f.gap + NodeOn(f.node, f.after + AfterField(fields, rest))))
  }

  lemma {:induction false} FieldsBegin(fields: seq<Field>, rest: string)
    requires AreFields(fields) && fields != []
    ensures SkipSpace(FieldsOn(fields, rest)) == StringOn(fields[0].name, AfterName(fields, rest))
    ensures Begins(SkipSpace(FieldsOn(fields, rest)))
  {
    assert SpacedField(fields[0]);
    ParseString(fields[0].name, AfterName(fields, rest));
    Skips(fields[0].before, StringOn(fields[0].name, AfterName(fields, rest)));
  }

  lemma {:induction false} ParseFieldName(fields: seq<Field>, rest: string)
    requires AreFields(fields) && fields != []
    ensures ParseName(FieldsOn(fields, rest)) ==
            Got(TextOf(fields[0].name), NodeOn(fields[0].node, fields[0].after + AfterField(fields, rest)))
  {
    var f := fields[0];
    var value := NodeOn(f.node, f.after + AfterField(fields, rest));
    var colon := ":" + (f.gap + value);
    assert SpacedField(f);
    FieldsBegin(fields, rest);
    ParseString(f.name, f.mid + colon);
    Skips(f.mid, colon);
    assert colon[1..] == f.gap + value;
    NodeBegins(f.node, f.after + AfterField(fields, rest));
    Skips(f.gap, value);
  }

  lemma {:induction false} FieldEnds(fields: seq<Field>, rest: string)
    requires AreFields(fields) && fields != []
    ensures Ends(fields[0].after + AfterField(fields, rest))
    ensures SkipSpace(fields[0].after + AfterField(fields, rest)) == AfterField(fields, rest)
  {
    assert SpacedField(fields[0]);
    BlankEnds(fields[0].after, AfterField(fields, rest));
    Skips(fields[0].after, AfterField(fields, rest));
  }

  lemma {:induction false} ParseFieldNode(fields: seq<Field>, rest: string, depth: nat, limit: nat)
    requires AreFields(fields) && fields != []
    ensures ParseMember(FieldsOn(fields, rest), depth, limit) ==
            if Shallow(fields[0].node, depth + 1, limit)
            then Got(Member(TextOf(fields[0].name), ValueOf(fields[0].node)), AfterField(fields, rest)) else Bad
    decreases fields, 0
  {
    ParseFieldName(fields, rest);
    FieldEnds(fields, rest);
    ParseNode(fields[0].node, fields[0].after + AfterField(fields, rest), depth + 1, limit);
  }

  lemma {:induction false} ParseFieldNodes(fields: seq<Field>, rest: string, depth: nat, limit: nat, done: seq<Member>)
    requires AreFields(fields) && fields != []
    ensures ParseMembers(FieldsOn(fields, rest), depth, limit, done) ==
            if FieldsShallow(fields, depth + 1, limit) then Got(Obj(FieldValues(done, fields)), rest) else Bad
    decreases fields, 1
  {
    var after := AfterField(fields, rest);
    ParseFieldNode(fields, rest, depth, limit);
    if Shallow(fields[0].node, depth + 1, limit) {
      var more := SetMember(done, TextOf(fields[0].name), ValueOf(fields[0].node));
      FieldsShallowTail(fields, depth + 1, limit);
      if |fields| == 1 {
        assert after[1..] == rest;
        assert FieldValues(done, fields) == FieldValues(more, fields[1..]) == more;
      } else {
        ParseFieldNodes(fields[1..], rest, depth, limit, more);
        assert after[1..] == FieldsOn(fields[1..], rest);
      }
    }
  }

  lemma FieldsShallowTail(fields: seq<Field>, depth: nat, limit: nat)
    requires fields != [] && Shallow(fields[0].node, depth, limit)
    ensures FieldsShallow(fields, depth, limit) <==> FieldsShallow(fields[1..], depth, limit)
  {
    if FieldsShallow(fields[1..], depth, limit) {
      forall i | 0 <= i < |fields|
        ensures Shallow(fields[i].node, depth, limit)
      {
        assert i > 0 ==> fields[i] == fields[1..][i - 1];
      }
    }
  }

  // --- and nothing else: strings --------------------------------------------------------------------

  lemma {:induction false} SkipBack(t: string) returns (space: string)
    ensures Blank(space) && t == space + SkipSpace(t)
  {
    space := [];
    if t != [] && IsSpace(t[0]) {
      var more := SkipBack(t[1..]);
      space := [t[0]] + more;
    }
  }

  lemma UnitBack(t: string)
    requires Hex4(t) >= 0
    ensures |t| >= 4 && IsPiece(Unit(t[..4])) && UnitValue(t[..4]) == Hex4(t) && t == t[..4] + t[4..]
  {
    var d := t[..4];
    assert d[0] == t[0] && d[1] == t[1] && d[2] == t[2] && d[3] == t[3];
  }

  lemma {:induction false} NoLowFirst(ps: seq<Piece>, rest: string)
    requires ArePieces(ps) && NoLowAhead(PiecesOn(ps, "\"" + rest))
    ensures ps != [] ==> !IsLow(ps[0])
  {
    if ps != [] && ps[0].Unit? {
      var more := PiecesOn(ps[1..], "\"" + rest);
      UnitDigits(ps[0].digits, more);
      assert PieceOn(ps[0], more)[2..] == ps[0].digits + more;
    }
  }

  lemma PiecesCons(p: Piece, ps: seq<Piece>, rest: string)
    requires IsPiece(p) && ArePieces(ps)
    ensures ArePieces([p] + ps) && PiecesOn([p] + ps, rest) == PieceOn(p, PiecesOn(ps, rest))
    ensures !(IsHigh(p) && ps != [] && IsLow(ps[0])) ==> TextOf([p] + ps) == [Point(p)] + TextOf(ps)
  {
    assert ([p] + ps)[1..] == ps;
  }

  lemma PairCons(high: Piece, low: Piece, ps: seq<Piece>, rest: string)
    requires IsPiece(high) && IsPiece(low) && IsHigh(high) && IsLow(low) && ArePieces(ps)
    ensures ArePieces([high, low] + ps)
    ensures PiecesOn([high, low] + ps, rest) == PieceOn(high, PieceOn(low, PiecesOn(ps, rest)))
    ensures TextOf([high, low] + ps) == [PairPoint(high, low)] + TextOf(ps)
  {
    PiecesCons(low, ps, rest);
    PiecesCons(high, [low] + ps, rest);
    assert [high, low] + ps == [high] + ([low] + ps);
    assert ([high, low] + ps)[2..] == ps;
  }

  /** Whatever string the parser reads is a derivation. */
  lemma {:induction false} CharsBack(t: string, done: Text) returns (ps: seq<Piece>)
    requires ParseChars(t, done).Got?
    ensures ArePieces(ps) && t == PiecesOn(ps, "\"" + ParseChars(t, done).rest)
    ensures ParseChars(t, done).value == done + TextOf(ps)
    decreases |t|, 1
  {
    var r := ParseChars(t, done);
    if t[0] == '"' {
      ps := [];
      assert t == "\"" + t[1..];
      assert done + [] == done;
    } else if t[0] != '\\' {
      ps := PieceBack(Raw(t[0]), t[1..], t, done);
      assert t == [t[0]] + t[1..];
    } else if ShortEscape(t[1]) >= 0 {
      ShortLetter(t[1]);
      assert t == ['\\', t[1]] + t[2..];
      ps := PieceBack(Short(t[1]), t[2..], t, done);
    } else {
      ps := UnicodeBack(t, done);
    }
  }

  /** One piece, and then whatever the rest is. */
  lemma {:induction false} PieceBack(p: Piece, ahead: string, t: string, done: Text) returns (ps: seq<Piece>)
    requires IsPiece(p) && (IsHigh(p) ==> NoLowAhead(ahead)) && t == PieceOn(p, ahead) && |ahead| < |t|
    requires ParseChars(t, done) == ParseChars(ahead, done + [Point(p)]) && ParseChars(t, done).Got?
    ensures ArePieces(ps) && t == PiecesOn(ps, "\"" + ParseChars(t, done).rest)
    ensures ParseChars(t, done).value == done + TextOf(ps)
    decreases |ahead|, 2
  {
    var more := CharsBack(ahead, done + [Point(p)]);
    if IsHigh(p) {
      NoLowFirst(more, ParseChars(t, done).rest);
    }
    PiecesCons(p, more, "\"" + ParseChars(t, done).rest);
    ps := [p] + more;
    assert done + [Point(p)] + TextOf(more) == done + ([Point(p)] + TextOf(more));
  }

  lemma {:induction false} UnicodeBack(t: string, done: Text) returns (ps: seq<Piece>)
    requires |t| >= 2 && t[0] == '\\' && t[1] == 'u' && ParseUnicode(t[2..]).Got? && ParseChars(t, done).Got?
    ensures ArePieces(ps) && t == PiecesOn(ps, "\"" + ParseChars(t, done).rest)
    ensures ParseChars(t, done).value == done + TextOf(ps)
    decreases |t|, 0
  {
    var u := t[2..];
    UnitBack(u);
    UnicodeStep(t, done);
    var first := Unit(u[..4]);
    if IsHigh(first) && !NoLowAhead(u[4..]) {
      var second := PairBack(u);
      ps := TwoBack(first, second, ParseUnicode(u).rest, t, done);
    } else {
      UnitAlone(u);
      ps := PieceBack(first, u[4..], t, done);
    }
  }

  lemma {:induction false} UnicodeStep(t: string, done: Text)
    requires |t| >= 2 && t[0] == '\\' && t[1] == 'u' && ParseUnicode(t[2..]).Got?
    ensures t == "\\u" + t[2..]
    ensures ParseChars(t, done) == ParseChars(ParseUnicode(t[2..]).rest, done + [ParseUnicode(t[2..]).value])
  {
    ShortLetter('u');
  }

  lemma {:induction false} TwoBack(high: Piece, low: Piece, ahead: string, t: string, done: Text)
    returns (ps: seq<Piece>)
    requires IsPiece(high) && IsPiece(low) && IsHigh(high) && IsLow(low)
    requires t == PieceOn(high, PieceOn(low, ahead)) && |ahead| < |t|
    requires ParseChars(t, done) == ParseChars(ahead, done + [PairPoint(high, low)]) && ParseChars(t, done).Got?
    ensures ArePieces(ps) && t == PiecesOn(ps, "\"" + ParseChars(t, done).rest)
    ensures ParseChars(t, done).value == done + TextOf(ps)
    decreases |ahead|, 2
  {
    var more := CharsBack(ahead, done + [PairPoint(high, low)]);
    TwoJoin(high, low, more, "\"" + ParseChars(t, done).rest, done);
    ps := [high, low] + more;
  }

  lemma TwoJoin(high: Piece, low: Piece, more: seq<Piece>, rest: string, done: Text)
    requires IsPiece(high) && IsPiece(low) && IsHigh(high) && IsLow(low) && ArePieces(more)
    ensures ArePieces([high, low] + more)
    ensures PiecesOn([high, low] + more, rest) == PieceOn(high, PieceOn(low, PiecesOn(more, rest)))
    ensures done + TextOf([high, low] + more) == (done + [PairPoint(high, low)]) + TextOf(more)
  {
    PairCons(high, low, more, rest);
    assert done + [PairPoint(high, low)] + TextOf(more) == done + ([PairPoint(high, low)] + TextOf(more));
  }

  lemma UnitAlone(u: string)
    requires Hex4(u) >= 0 && |u| >= 4 && (0xD800 <= Hex4(u) <= 0xDBFF ==> NoLowAhead(u[4..]))
    ensures ParseUnicode(u) == Got(Hex4(u), u[4..])
  {
    if |u| >= 10 {
      assert u[4..][2..] == u[6..] && u[4..][0] == u[4] && u[4..][1] == u[5];
    }
  }

  lemma PairBack(u: string) returns (second: Piece)
    requires Hex4(u) >= 0 && 0xD800 <= Hex4(u) <= 0xDBFF && |u| >= 4 && !NoLowAhead(u[4..]) && ParseUnicode(u).Got?
    ensures IsPiece(second) && IsLow(second) && IsPiece(Unit(u[..4])) && IsHigh(Unit(u[..4]))
    ensures u == u[..4] + PieceOn(second, ParseUnicode(u).rest)
    ensures ParseUnicode(u).value == PairPoint(Unit(u[..4]), second)
  {
    UnitBack(u);
    assert u[4..][2..] == u[6..] && u[4..][0] == u[4] && u[4..][1] == u[5];
    var low := u[6..];
    UnitBack(low);
    second := Unit(low[..4]);
    assert low[4..] == u[10..];
    assert u[4..] == "\\u" + low;
  }

  // --- and nothing else: values ---------------------------------------------------------------------

  lemma {:induction false} StringBack(t: string) returns (ps: seq<Piece>)
    requires t != [] && t[0] == '"' && ParseChars(t[1..], []).Got?
    ensures ArePieces(ps) && t == StringOn(ps, ParseChars(t[1..], []).rest)
    ensures ParseChars(t[1..], []).value == TextOf(ps)
  {
    ps := CharsBack(t[1..], []);
    assert t == "\"" + t[1..];
    assert [] + TextOf(ps) == TextOf(ps);
  }

  lemma {:induction false} NumberBack(t: string)
    requires ParseNumber(t).Got?
    ensures var lexeme := t[..NumberRun(t)];
            IsNumber(lexeme) && t == lexeme + ParseNumber(t).rest && Ends(ParseNumber(t).rest) &&
            ParseNumber(t).value == Num(lexeme, IntegerLexeme(lexeme))
  {
    var n := NumberRun(t);
    ScanIsGrammar(t[..n]);
    assert t == t[..n] + t[n..];
    assert t[n..] != [] ==> t[n..][0] == t[n];
  }

  lemma {:induction false} WordBack(t: string, word: string, value: Json)
    requires word != [] && ParseLiteral(t, word, value).Got?
    ensures t == word + ParseLiteral(t, word, value).rest && ParseLiteral(t, word, value).value == value
  {
  }

  lemma {:induction false} ScalarBack(t: string) returns (n: Node)
    requires t != [] && ParseScalar(t).Got?
    ensures !n.ArrayNode? && !n.ObjectNode? && IsNode(n) && t == NodeOn(n, ParseScalar(t).rest)
    ensures ParseScalar(t).value == ValueOf(n) && (n.NumberNode? ==> Ends(ParseScalar(t).rest))
  {
    if t[0] == '"' {
      var ps := StringBack(t);
      n := StringNode(ps);
    } else if t[0] == 't' {
      WordBack(t, "true", Bool(true));
      n := BoolNode(true);
    } else if t[0] == 'f' {
      WordBack(t, "false", Bool(false));
      n := BoolNode(false);
    } else if t[0] == 'n' {
      WordBack(t, "null", Null);
      n := NullNode;
    } else {
      NumberBack(t);
      n := NumberNode(t[..NumberRun(t)]);
    }
  }

  /** Whatever value the parser reads is a derivation within its depth, and it stops where that ends. */
  lemma {:induction false} NodeBack(t: string, depth: nat, limit: nat) returns (n: Node)
    requires ParseValue(t, depth, limit).Got?
    ensures IsNode(n) && Shallow(n, depth, limit) && t == NodeOn(n, ParseValue(t, depth, limit).rest)
    ensures ParseValue(t, depth, limit).value == ValueOf(n)
    ensures n.NumberNode? ==> Ends(ParseValue(t, depth, limit).rest)
    decreases |t|, 0
  {
    assert t == [t[0]] + t[1..];
    if t[0] == '{' {
      n := ObjectBack(t[1..], depth, limit);
    } else if t[0] == '[' {
      n := ArrayBack(t[1..], depth, limit);
    } else {
      n := ScalarBack(t);
    }
  }

  lemma {:induction false} ArrayBack(t: string, depth: nat, limit: nat) returns (n: Node)
    requires ParseArray(t, depth, limit).Got? && depth <= limit
    ensures n.ArrayNode? && IsNode(n) && Shallow(n, depth, limit)
    ensures "[" + t == NodeOn(n, ParseArray(t, depth, limit).rest) && ParseArray(t, depth, limit).value == ValueOf(n)
    decreases |t|, 3
  {
    var v := SkipSpace(t);
    if v != [] && v[0] == ']' {
      var space := SkipBack(t);
      n := ArrayNode(space, []);
      assert v == "]" + v[1..];
    } else {
      var items := ItemsBack(t, depth, limit, []);
      n := ArrayNode([], items);
      assert [] + ItemValues(items) == ItemValues(items);
    }
  }

  lemma ItemsCons(item: Item, items: seq<Item>, rest: string)
    requires IsNode(item.node) && SpacedItem(item) && AreItems(items)
    ensures AreItems([item] + items) && ItemValues([item] + items) == [ValueOf(item.node)] + ItemValues(items)
    ensures ItemsOn([item] + items, rest) ==
            item.before + NodeOn(item.node, item.after + if items == [] then "]" + rest else "," + ItemsOn(items, rest))
  {
    assert ([item] + items)[1..] == items;
  }

  lemma ItemsJoin(t: string, item: Item, more: seq<Item>, u: string, rest: string, done: seq<Json>)
    requires IsNode(item.node) && SpacedItem(item) && AreItems(more)
    requires t == item.before + NodeOn(item.node, item.after + u) && u != []
    requires if more == [] then u[0] == ']' && u[1..] == rest else u[0] == ',' && u[1..] == ItemsOn(more, rest)
    ensures AreItems([item] + more) && t == ItemsOn([item] + more, rest)
    ensures done + ItemValues([item] + more) == (done + [ValueOf(item.node)]) + ItemValues(more)
  {
    ItemsCons(item, more, rest);
    assert u == [u[0]] + u[1..];
    assert (done + [ValueOf(item.node)]) + ItemValues(more) == done + ([ValueOf(item.node)] + ItemValues(more));
  }

  lemma ItemsShallowCons(item: Item, items: seq<Item>, depth: nat, limit: nat)
    requires Shallow(item.node, depth, limit) && ItemsShallow(items, depth, limit)
    ensures ItemsShallow([item] + items, depth, limit)
  {
  }

  lemma {:induction false} ItemBack(t: string, depth: nat, limit: nat) returns (item: Item)
    requires ParseItem(t, depth, limit).Got?
    ensures IsNode(item.node) && SpacedItem(item) && Shallow(item.node, depth + 1, limit)
    ensures t == item.before + NodeOn(item.node, item.after + ParseItem(t, depth, limit).rest)
    ensures ParseItem(t, depth, limit).value == ValueOf(item.node)
    decreases |t|, 1
  {
    var before := SkipBack(t);
    var first := ParseValue(SkipSpace(t), depth + 1, limit);
    var node := NodeBack(SkipSpace(t), depth + 1, limit);
    var after := SkipBack(first.rest);
    item := Item(before, node, after);
  }

  lemma {:induction false} ItemsBack(t: string, depth: nat, limit: nat, done: seq<Json>) returns (items: seq<Item>)
    requires ParseItems(t, depth, limit, done).Got?
    ensures items != [] && AreItems(items) && ItemsShallow(items, depth + 1, limit)
    ensures t == ItemsOn(items, ParseItems(t, depth, limit, done).rest)
    ensures ParseItems(t, depth, limit, done).value == Arr(done + ItemValues(items))
    decreases |t|, 2
  {
    var item := ItemBack(t, depth, limit);
    var first := ParseItem(t, depth, limit);
    var u := first.rest;
    var more: seq<Item> := [];
    if u[0] == ',' {
      more := ItemsBack(u[1..], depth, limit, done + [first.value]);
    }
    ItemsJoin(t, item, more, u, ParseItems(t, depth, limit, done).rest, done);
    ItemsShallowCons(item, more, depth + 1, limit);
    items := [item] + more;
  }

  lemma {:induction false} ObjectBack(t: string, depth: nat, limit: nat) returns (n: Node)
    requires ParseObject(t, depth, limit).Got? && depth <= limit
    ensures n.ObjectNode? && IsNode(n) && Shallow(n, depth, limit)
    ensures "{" + t == NodeOn(n, ParseObject(t, depth, limit).rest) && ParseObject(t, depth, limit).value == ValueOf(n)
    decreases |t|, 3
  {
    var v := SkipSpace(t);
    if v != [] && v[0] == '}' {
      var space := SkipBack(t);
      n := ObjectNode(space, []);
      assert v == "}" + v[1..];
    } else {
      var fields := FieldsBack(t, depth, limit, []);
      n := ObjectNode([], fields);
    }
  }

  lemma FieldsCons(f: Field, fields: seq<Field>, rest: string, done: seq<Member>)
    requires IsNode(f.node) && SpacedField(f) && AreFields(fields)
    ensures AreFields([f] + fields)
    ensures FieldValues(done, [f] + fields) == FieldValues(SetMember(done, TextOf(f.name), ValueOf(f.node)), fields)
    ensures FieldsOn([f] + fields, rest) ==
            f.before + StringOn(f.name, f.mid + (":" + (f.gap + NodeOn(f.node, f.after +
              if fields == [] then "}" + rest else "," + FieldsOn(fields, rest)))))
  {
    assert ([f] + fields)[1..] == fields;
  }

  lemma FieldsJoin(t: string, f: Field, more: seq<Field>, u: string, rest: string, done: seq<Member>)
    requires IsNode(f.node) && SpacedField(f) && AreFields(more)
    requires t == f.before + StringOn(f.name, f.mid + (":" + (f.gap + NodeOn(f.node, f.after + u)))) && u != []
    requires if more == [] then u[0] == '}' && u[1..] == rest else u[0] == ',' && u[1..] == FieldsOn(more, rest)
    ensures AreFields([f] + more) && t == FieldsOn([f] + more, rest)
    ensures FieldValues(done, [f] + more) == FieldValues(SetMember(done, TextOf(f.name), ValueOf(f.node)), more)
  {
    FieldsCons(f, more, rest, done);
    assert u == [u[0]] + u[1..];
  }

  lemma FieldsShallowCons(f: Field, fields: seq<Field>, depth: nat, limit: nat)
    requires Shallow(f.node, depth, limit) && FieldsShallow(fields, depth, limit)
    ensures FieldsShallow([f] + fields, depth, limit)
  {
  }

  /** The name and colon that the parser reads. */
  lemma {:induction false} NameBack(t: string)
    returns (before: string, name: seq<Piece>, mid: string, gap: string)
    requires ParseName(t).Got?
    ensures Blank(before) && ArePieces(name) && Blank(mid) && Blank(gap) && ParseName(t).value == TextOf(name)
    ensures t == before + StringOn(name, mid + (":" + (gap + ParseName(t).rest)))
  {
    before := SkipBack(t);
    var u := SkipSpace(t);
    name := StringBack(u);
    var r := ParseChars(u[1..], []);
    mid := SkipBack(r.rest);
    var v := SkipSpace(r.rest);
    gap := SkipBack(v[1..]);
    assert v == ":" + v[1..];
  }

  lemma {:induction false} FieldBack(t: string, depth: nat, limit: nat) returns (f: Field)
    requires ParseMember(t, depth, limit).Got?
    ensures IsNode(f.node) && SpacedField(f) && Shallow(f.node, depth + 1, limit)
    ensures var r := ParseMember(t, depth, limit);
            t == f.before + StringOn(f.name, f.mid + (":" + (f.gap + NodeOn(f.node, f.after + r.rest)))) &&
            r.value == Member(TextOf(f.name), ValueOf(f.node))
    decreases |t|, 1
  {
    var before, name, mid, gap := NameBack(t);
    var ahead := ParseName(t).rest;
    var first := ParseValue(ahead, depth + 1, limit);
    var node := NodeBack(ahead, depth + 1, limit);
    var after := SkipBack(first.rest);
    f := Field(before, name, mid, gap, node, after);
  }

  lemma {:induction false} FieldsBack(t: string, depth: nat, limit: nat, done: seq<Member>) returns (fields: seq<Field>)
    requires ParseMembers(t, depth, limit, done).Got?
    ensures fields != [] && AreFields(fields) && FieldsShallow(fields, depth + 1, limit)
    ensures t == FieldsOn(fields, ParseMembers(t, depth, limit, done).rest)
    ensures ParseMembers(t, depth, limit, done).value == Obj(FieldValues(done, fields))
    decreases |t|, 2
  {
    var f := FieldBack(t, depth, limit);
    var first := ParseMember(t, depth, limit);
    var u := first.rest;
    var more: seq<Field> := [];
    if u[0] == ',' {
      more := FieldsBack(u[1..], depth, limit, SetMember(done, first.value.name, first.value.value));
    }
    FieldsJoin(t, f, more, u, ParseMembers(t, depth, limit, done).rest, done);
    FieldsShallowCons(f, more, depth + 1, limit);
    fields := [f] + more;
  }

  // --- documents ------------------------------------------------------------------------------------

  lemma BlankIsSkipped(space: string)
    requires Blank(space)
    ensures SkipSpace(space) == [] && Ends(space)
  {
    Skips(space, []);
    assert space + [] == space;
  }

  lemma {:induction false} TextIsParsed(t: string, v: Json, limit: nat)
    requires IsText(t, v, limit)
    ensures ParseDocument(t, limit) == Got(v, [])
  {
    var before, n, after :| IsTextBy(t, v, limit, before, n, after);
    NodeBegins(n, after);
    Skips(before, NodeOn(n, after));
    BlankIsSkipped(after);
    ParseNode(n, after, 0, limit);
    NoMark(before, n, after);
  }

  lemma {:induction false} NoMark(before: string, n: Node, after: string)
    requires Blank(before) && IsNode(n)
    ensures var t := before + NodeOn(n, after); t != [] && t[0] as int != 0xFEFF
  {
    NodeBegins(n, after);
    if before == [] {
      if n.NumberNode? {
        ScanIsGrammar(n.lexeme);
        NumberIsNumberChars(n.lexeme);
        assert NodeOn(n, after)[0] == n.lexeme[0];
      }
    } else {
      assert IsSpace((before + NodeOn(n, after))[0]);
    }
  }

  lemma {:induction false} ParsedIsText(t: string, limit: nat)
    requires ParseDocument(t, limit).Got?
    ensures IsText(t, ParseDocument(t, limit).value, limit)
  {
    var before := SkipBack(t);
    var r := ParseValue(SkipSpace(t), 0, limit);
    var n := NodeBack(SkipSpace(t), 0, limit);
    var after := SkipBack(r.rest);
    assert after == r.rest;
    assert IsTextBy(t, r.value, limit, before, n, after);
  }

  /** The parser takes exactly the texts of the grammar that nest within its limit, with the value they denote. */
  lemma ParserIsGrammar(t: string, v: Json)
    ensures ParseDocument(t, 512) == Got(v, []) <==> IsText(t, v, 512)
  {
    if ParseDocument(t, 512) == Got(v, []) {
      ParsedIsText(t, 512);
    }
    if IsText(t, v, 512) {
      TextIsParsed(t, v, 512);
    }
  }

  /** So a text denotes one value at most. */
  lemma OneMeaning(t: string, v: Json, w: Json, limit: nat)
    requires IsText(t, v, limit) && IsText(t, w, limit)
    ensures v == w
  {
    TextIsParsed(t, v, limit);
    TextIsParsed(t, w, limit);
  }
}
