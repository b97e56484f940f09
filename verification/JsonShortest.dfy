/** What the printer writes, without reading the printer: of all the texts of a value, with any white space and any
    spelling of escapes, it is the shortest, and of the shortest the one whose hexadecimal digits are lower-case
    (cpp/src/json.cpp:273-339, cpp/src/canonical.cpp:19-47). */
module JsonShortest {
  import opened Json
  import opened JsonGrammar
  import opened JsonRoundTrip

  // --- the letters of the grammar -------------------------------------------------------------------

  /** The hexadecimal digits, of either case. */
  lemma HexDigits(c: char, v: nat)
    requires v < 16
    ensures HexValue(c) == v <==> c == "0123456789abcdef"[v] || c == "0123456789ABCDEF"[v]
  {
    if v < 10 {
      assert "0123456789"[v] as int == '0' as int + v;
    } else {
      assert "abcdef"[v - 10] as int == 'a' as int + (v - 10);
      assert "ABCDEF"[v - 10] as int == 'A' as int + (v - 10);
    }
  }

  /** The two-character escapes, and what each stands for. */
  lemma ShortEscapes(c: char)
    ensures ShortEscape(c) >= 0 <==> c in "\"\\/bfnrt"
    ensures forall i :: 0 <= i < 8 && c == "\"\\/bfnrt"[i] ==> ShortEscape(c) == [34, 92, 47, 8, 12, 10, 13, 9][i]
  {
  }

  /** A character stands for itself in a string unless it is a quote, a backslash or below the space; below the space
      it is refused. */
  lemma Unescaped(c: char, rest: string, done: Text)
    ensures c as int < 0x20 ==> ParseChars([c] + rest, done) == Bad
    ensures c as int >= 0x20 && c != '"' && c != '\\' ==>
            ParseChars([c] + rest, done) == ParseChars(rest, done + [c as int])
    ensures ParseChars("\"" + rest, done) == Got(done, rest)
  {
    assert ([c] + rest)[1..] == rest && ("\"" + rest)[1..] == rest;
  }

  /** The three words. */
  lemma Words(rest: string)
    ensures ParseScalar("null" + rest) == Got(Null, rest)
    ensures ParseScalar("true" + rest) == Got(Bool(true), rest)
    ensures ParseScalar("false" + rest) == Got(Bool(false), rest)
  {
    ParseWord("null", rest, Null);
    ParseWord("true", rest, Bool(true));
    ParseWord("false", rest, Bool(false));
  }

  // --- strings --------------------------------------------------------------------------------------

  predicate LowerPiece(p: Piece) {
    p.Unit? ==> forall i :: 0 <= i < |p.digits| ==> p.digits[i] in "0123456789abcdef"
  }

  predicate LowerPieces(ps: seq<Piece>) { forall i :: 0 <= i < |ps| ==> LowerPiece(ps[i]) }

  /** A spelling of the text. */
  predicate Spells(ps: seq<Piece>, text: Text) { ArePieces(ps) && TextOf(ps) == text }

  /** The shortest string of a text, with lower-case digits. */
  ghost predicate IsShortestString(t: string, text: Text) {
    (exists ps :: Spells(ps, text) && LowerPieces(ps) && t == StringOn(ps, "")) &&
    forall ps :: Spells(ps, text) ==> |t| <= |StringOn(ps, "")|
  }

  /** The least number of characters that spell a code point. */
  function PointCost(p: int): nat {
    if p == 0x22 || p == 0x5C || p == 0x08 || p == 0x09 || p == 0x0A || p == 0x0C || p == 0x0D then 2
    else if 0 <= p < 0x20 || 0xD800 <= p <= 0xDFFF then 6
    else 1
  }

  function TextCost(t: Text): nat { if t == [] then 0 else PointCost(t[0]) + TextCost(t[1..]) }

  lemma PieceCost(p: Piece, rest: string)
    requires IsPiece(p)
    ensures |PieceOn(p, rest)| >= PointCost(Point(p)) + |rest|
  {
    if p.Short? {
      ShortEscapes(p.letter);
    }
  }

  lemma {:induction false} PiecesCost(ps: seq<Piece>, rest: string)
    requires ArePieces(ps)
    ensures |PiecesOn(ps, rest)| >= TextCost(TextOf(ps)) + |rest|
    decreases |ps|
  {
    if ps != [] {
      if |ps| >= 2 && IsHigh(ps[0]) && IsLow(ps[1]) {
        assert ps[1..][1..] == ps[2..];
        PiecesCost(ps[2..], rest);
        PairCost(ps[0], ps[1], PiecesOn(ps[2..], rest));
        CostCons(PairPoint(ps[0], ps[1]), TextOf(ps[2..]));
      } else {
        PiecesCost(ps[1..], rest);
        PieceCost(ps[0], PiecesOn(ps[1..], rest));
        CostCons(Point(ps[0]), TextOf(ps[1..]));
      }
    }
  }

  lemma CostCons(p: int, t: Text)
    ensures TextCost([p] + t) == PointCost(p) + TextCost(t)
  {
    assert ([p] + t)[1..] == t;
  }

  lemma PairCost(high: Piece, low: Piece, rest: string)
    requires IsHigh(high) && IsLow(low)
    ensures |PieceOn(high, PieceOn(low, rest))| > PointCost(PairPoint(high, low)) + |rest|
  {
  }

  lemma {:induction false} EscapeCost(s: string)
    ensures |EscapeAll(s)| == TextCost(Points(s))
  {
    if s != [] {
      EscapeCost(s[1..]);
      PointsCons(s);
      CostCons(s[0] as int, Points(s[1..]));
    }
  }

  lemma LowerDigit(c: char)
    requires c in "0123456789abcdef"
    ensures 0 <= HexValue(c) < 16 && HexDigit(HexValue(c)) == c
  {
  }

  lemma LowerUnit(digits: string, n: int)
    requires IsPiece(Unit(digits)) && LowerPiece(Unit(digits)) && UnitValue(digits) == n < 32
    ensures digits == "00" + [HexDigit(n / 16), HexDigit(n % 16)]
  {
    var a, b, c, d := HexValue(digits[0]), HexValue(digits[1]), HexValue(digits[2]), HexValue(digits[3]);
    LowerDigit(digits[0]);
    LowerDigit(digits[1]);
    LowerDigit(digits[2]);
    LowerDigit(digits[3]);
    Nibbles(a, b, c, d, n);
    FourOf(digits, HexDigit(n / 16), HexDigit(n % 16));
  }

  lemma FourOf(digits: string, x: char, y: char)
    requires |digits| == 4 && digits[0] == digits[1] == '0' && digits[2] == x && digits[3] == y
    ensures digits == "00" + [x, y]
  {
  }

  lemma Nibbles(a: int, b: int, c: int, d: int, n: int)
    requires 0 <= a < 16 && 0 <= b < 16 && 0 <= c < 16 && 0 <= d < 16
    requires a * 4096 + b * 256 + c * 16 + d == n < 32
    ensures a == 0 && b == 0 && c == n / 16 && d == n % 16
  {
  }

  /** A piece that spells a character as shortly as can be, in lower case, spells it as the printer does. */
  lemma ExactPiece(p: Piece, c: char, rest: string)
    requires IsPiece(p) && LowerPiece(p) && Point(p) == c as int
    requires |PieceOn(p, rest)| <= PointCost(c as int) + |rest|
    ensures PieceOn(p, rest) == EscapeChar(c) + rest
  {
    match p
    case Raw(_) => assert EscapeChar(c) == [c];
    case Short(letter) => ExactShort(letter, c);
    case Unit(digits) =>
      assert 0 <= c as int < 32;
      LowerUnit(digits, c as int);
      ExactUnit(digits, c, rest);
  }

  lemma ExactShort(letter: char, c: char)
    requires IsPiece(Short(letter)) && ShortPoint(letter) == c as int && PointCost(c as int) >= 2
    ensures EscapeChar(c) == ['\\', letter]
  {
  }

  lemma ExactUnit(digits: string, c: char, rest: string)
    requires 0 <= c as int < 32 && PointCost(c as int) == 6
    requires digits == "00" + [HexDigit(c as int / 16), HexDigit(c as int % 16)]
    ensures PieceOn(Unit(digits), rest) == EscapeChar(c) + rest
  {
    ControlSpells(c as int, digits, rest);
  }

  lemma {:induction false} ExactPieces(ps: seq<Piece>, s: string, rest: string)
    requires ArePieces(ps) && LowerPieces(ps) && TextOf(ps) == Points(s)
    requires |PiecesOn(ps, rest)| <= TextCost(Points(s)) + |rest|
    ensures PiecesOn(ps, rest) == EscapeAll(s) + rest
    decreases |ps|
  {
    if ps == [] {
      assert EscapeAll(s) + rest == rest;
    } else if |ps| >= 2 && IsHigh(ps[0]) && IsLow(ps[1]) {
      NoPairAtLeast(ps, rest);
    } else {
      var more := PiecesOn(ps[1..], rest);
      PointsCons(s);
      HeadTail(Point(ps[0]), TextOf(ps[1..]), s[0] as int, Points(s[1..]));
      CostCons(s[0] as int, Points(s[1..]));
      PieceCost(ps[0], more);
      PiecesCost(ps[1..], rest);
      ExactPieces(ps[1..], s[1..], rest);
      ExactStep(ps[0], s, more, rest);
    }
  }

  lemma {:induction false} ExactStep(p: Piece, s: string, more: string, rest: string)
    requires s != [] && IsPiece(p) && LowerPiece(p) && Point(p) == s[0] as int
    requires |PieceOn(p, more)| <= PointCost(s[0] as int) + |more| && more == EscapeAll(s[1..]) + rest
    ensures PieceOn(p, more) == EscapeAll(s) + rest
  {
    ExactPiece(p, s[0], more);
    Joins(EscapeChar(s[0]), EscapeAll(s[1..]), rest);
  }

  lemma Joins(a: string, b: string, c: string)
    ensures a + (b + c) == (a + b) + c
  {
  }

  lemma HeadTail(p: int, a: Text, q: int, b: Text)
    requires [p] + a == [q] + b
    ensures p == q && a == b
  {
    assert ([p] + a)[0] == p && ([q] + b)[0] == q;
    assert ([p] + a)[1..] == a && ([q] + b)[1..] == b;
  }

  /** A pair of escapes is longer than the character it stands for. */
  lemma NoPairAtLeast(ps: seq<Piece>, rest: string)
    requires ArePieces(ps) && |ps| >= 2 && IsHigh(ps[0]) && IsLow(ps[1])
    ensures |PiecesOn(ps, rest)| > TextCost(TextOf(ps)) + |rest|
  {
    assert ps[1..][1..] == ps[2..];
    PiecesCost(ps[2..], rest);
    PairCost(ps[0], ps[1], PiecesOn(ps[2..], rest));
    CostCons(PairPoint(ps[0], ps[1]), TextOf(ps[2..]));
  }

  lemma {:induction false} PlainLower(s: string)
    ensures LowerPieces(PlainPieces(s))
  {
    if s != [] {
      PlainLower(s[1..]);
      LowerPlain(s[0]);
    }
  }

  lemma LowerPlain(c: char)
    ensures LowerPiece(PlainPiece(c))
  {
    var p := PlainPiece(c);
    if p.Unit? {
      var d := "0123456789abcdef";
      var n := c as int;
      assert p.digits == [d[0], d[0], d[n / 16], d[n % 16]];
    }
  }

  lemma StringLength(ps: seq<Piece>, s: string, rest: string)
    requires ArePieces(ps) && TextOf(ps) == Points(s)
    ensures |StringOn(ps, rest)| >= |Quoted(s)| + |rest|
    ensures LowerPieces(ps) && |StringOn(ps, rest)| == |Quoted(s)| + |rest| ==> StringOn(ps, rest) == Quoted(s) + rest
  {
    PiecesCost(ps, "\"" + rest);
    EscapeCost(s);
    if LowerPieces(ps) && |StringOn(ps, rest)| == |Quoted(s)| + |rest| {
      ExactPieces(ps, s, "\"" + rest);
      Requote(EscapeAll(s), rest);
    }
  }

  /** A quoted text is the one shortest string of the text whose digits are lower-case. */
  lemma QuotedIsShortest(s: string, t: string)
    ensures t == Quoted(s) <==> IsShortestString(t, Points(s))
  {
    var plain := PlainPieces(s);
    PlainSpells(s, "\"");
    PlainLower(s);
    assert StringOn(plain, "") == Quoted(s) by {
      assert "\"" + "" == "\"";
    }
    assert Spells(plain, Points(s));
    forall ps | Spells(ps, Points(s))
      ensures |Quoted(s)| <= |StringOn(ps, "")|
    {
      StringLength(ps, s, "");
    }
    if IsShortestString(t, Points(s)) {
      var ps :| Spells(ps, Points(s)) && LowerPieces(ps) && t == StringOn(ps, "");
      StringLength(ps, s, "");
      assert Quoted(s) + "" == Quoted(s);
    }
  }

  // --- values ---------------------------------------------------------------------------------------

  /** Every hexadecimal digit of the derivation is lower-case. */
  ghost predicate LowerNode(n: Node) {
    match n
    case StringNode(pieces) => LowerPieces(pieces)
    case ArrayNode(_, items) => forall i :: 0 <= i < |items| ==> LowerNode(items[i].node)
    case ObjectNode(_, fields) =>
      forall i :: 0 <= i < |fields| ==> LowerNode(fields[i].node) && LowerPieces(fields[i].name)
    case _ => true
  }

  /** A derivation, with white space around it, of a text of the value. */
  ghost predicate Says(before: string, n: Node, after: string, v: Json) {
    Blank(before) && IsNode(n) && Blank(after) && ValueOf(n) == v
  }

  /** The shortest text of a value, with lower-case digits. */
  ghost predicate IsShortestText(t: string, v: Json) {
    (exists n :: Says("", n, "", v) && LowerNode(n) && t == NodeOn(n, "")) &&
    forall before, n, after :: Says(before, n, after, v) ==> |t| <= |before + NodeOn(n, after)|
  }

  /** The least number of characters that spell a value; each item or member has a comma or the bracket after it. */
  function Cost(v: Json): nat {
    match v
    case Null => 4
    case Bool(truth) => if truth then 4 else 5
    case Num(lexeme, _) => |lexeme|
    case Str(text) => 2 + TextCost(text)
    case Arr(items) => if items == [] then 2 else 1 + ItemsCost(items)
    case Obj(members) => if members == [] then 2 else 1 + MembersCost(members)
  }

  function ItemsCost(items: seq<Json>): nat {
    if items == [] then 0 else Cost(items[0]) + 1 + ItemsCost(items[1..])
  }

  function MemberCost(m: Member): nat { 3 + TextCost(m.name) + Cost(m.value) }

  function MembersCost(members: seq<Member>): nat {
    if members == [] then 0 else MemberCost(members[0]) + 1 + MembersCost(members[1..])
  }

  lemma {:induction false} QuotedCost(text: Text)
    requires AllScalar(text)
    ensures |Quoted(Chars(text))| == 2 + TextCost(text)
  {
    EscapeCost(Chars(text));
    PointsChars(text);
  }

  lemma {:induction false} DumpCost(v: Json)
    requires Writable(v)
    ensures |Dump(v)| == Cost(v)
    decreases v, 1
  {
    match v
    case Str(text) => QuotedCost(text);
    case Arr(items) => DumpItemsCost(items);
    case Obj(members) => DumpMembersCost(members);
    case _ =>
  }

  lemma {:induction false} DumpItemsCost(items: seq<Json>)
    requires AllWritable(items)
    ensures items != [] ==> |DumpItems(items)| + 1 == ItemsCost(items)
    ensures items == [] ==> |DumpItems(items)| == 0
    decreases items, 0
  {
    if items != [] {
      DumpCost(items[0]);
      DumpItemsCost(items[1..]);
    }
  }

  lemma {:induction false} DumpMembersCost(members: seq<Member>)
    requires MembersWritable(members)
    ensures members != [] ==> |DumpMembers(members)| + 1 == MembersCost(members)
    ensures members == [] ==> |DumpMembers(members)| == 0
    decreases members, 0
  {
    if members != [] {
      QuotedCost(members[0].name);
      DumpCost(members[0].value);
      DumpMembersCost(members[1..]);
    }
  }

  // --- no text is shorter ---------------------------------------------------------------------------

  lemma {:induction false} StringNodeLength(ps: seq<Piece>, rest: string)
    requires ArePieces(ps)
    ensures |StringOn(ps, rest)| >= 2 + TextCost(TextOf(ps)) + |rest|
    ensures AllScalar(TextOf(ps)) && LowerPieces(ps) && |StringOn(ps, rest)| == 2 + TextCost(TextOf(ps)) + |rest| ==>
            StringOn(ps, rest) == Quoted(Chars(TextOf(ps))) + rest
  {
    PiecesCost(ps, "\"" + rest);
    if AllScalar(TextOf(ps)) {
      PointsChars(TextOf(ps));
      QuotedCost(TextOf(ps));
      StringLength(ps, Chars(TextOf(ps)), rest);
    }
  }

  /** The text of a derivation is no shorter than its value needs; in lower case, and no longer, it is the printer's. */
  lemma {:induction false} NodeLength(n: Node, rest: string)
    requires IsNode(n)
    ensures |NodeOn(n, rest)| >= Cost(ValueOf(n)) + |rest|
    ensures LowerNode(n) && Writable(ValueOf(n)) && |NodeOn(n, rest)| == Cost(ValueOf(n)) + |rest| ==>
            NodeOn(n, rest) == Dump(ValueOf(n)) + rest
    decreases n, 2
  {
    match n
    case StringNode(pieces) => StringNodeLength(pieces, rest);
    case ArrayNode(space, items) => ArrayLength(space, items, rest);
    case ObjectNode(space, fields) => ObjectLength(space, fields, rest);
    case _ =>
  }

  lemma {:induction false} ArrayLength(space: string, items: seq<Item>, rest: string)
    requires Blank(space) && AreItems(items)
    ensures var n := ArrayNode(space, items);
            |NodeOn(n, rest)| >= Cost(ValueOf(n)) + |rest| &&
            (LowerNode(n) && Writable(ValueOf(n)) && |NodeOn(n, rest)| == Cost(ValueOf(n)) + |rest| ==>
             NodeOn(n, rest) == Dump(ValueOf(n)) + rest)
    decreases items, 2
  {
    Bracketed("[", if AllWritable(ItemValues(items)) then DumpItems(ItemValues(items)) else [], "]", rest);
    if items != [] {
      ItemsLength(items, rest);
    }
  }

  lemma {:induction false} ItemsLength(items: seq<Item>, rest: string)
    requires AreItems(items) && items != []
    ensures |ItemsOn(items, rest)| >= ItemsCost(ItemValues(items)) + |rest|
    ensures LowerItems(items) && AllWritable(ItemValues(items)) &&
            |ItemsOn(items, rest)| == ItemsCost(ItemValues(items)) + |rest| ==>
            ItemsOn(items, rest) == DumpItems(ItemValues(items)) + ("]" + rest)
    decreases items, 1
  {
    var item := items[0];
    var tail := AfterItem(items, rest);
    NodeLength(item.node, item.after + tail);
    if |items| > 1 {
      ItemsLength(items[1..], rest);
    }
    ItemsCostCons(items);
    if LowerItems(items) && AllWritable(ItemValues(items)) &&
       |ItemsOn(items, rest)| == ItemsCost(ItemValues(items)) + |rest| {
      assert item.before == [] && item.after == [];
      assert item.after + tail == tail && item.before + NodeOn(item.node, tail) == NodeOn(item.node, tail);
      ItemsJoined(ItemValues(items), tail, rest);
    }
  }

  ghost predicate LowerItems(items: seq<Item>) { forall i :: 0 <= i < |items| ==> LowerNode(items[i].node) }

  ghost predicate LowerFields(fields: seq<Field>) {
    forall i :: 0 <= i < |fields| ==> LowerNode(fields[i].node) && LowerPieces(fields[i].name)
  }

  lemma ItemsCostCons(items: seq<Item>)
    requires AreItems(items) && items != []
    ensures ItemsCost(ItemValues(items)) == Cost(ValueOf(items[0].node)) + 1 + ItemsCost(ItemValues(items[1..]))
    ensures ItemValues(items)[1..] == ItemValues(items[1..])
  {
  }

  lemma {:induction false} ItemsJoined(values: seq<Json>, after: string, rest: string)
    requires AllWritable(values) && values != []
    requires after == if |values| == 1 then "]" + rest else "," + (DumpItems(values[1..]) + ("]" + rest))
    ensures Dump(values[0]) + after == DumpItems(values) + ("]" + rest)
  {
    if |values| > 1 {
      Comma(Dump(values[0]), DumpItems(values[1..]), "]" + rest);
    }
  }

  lemma {:induction false} MembersJoined(members: seq<Member>, after: string, rest: string)
    requires MembersWritable(members) && members != []
    requires after == if |members| == 1 then "}" + rest else "," + (DumpMembers(members[1..]) + ("}" + rest))
    ensures DumpMember(members[0]) + after == DumpMembers(members) + ("}" + rest)
  {
    if |members| > 1 {
      Comma(DumpMember(members[0]), DumpMembers(members[1..]), "}" + rest);
    }
  }

  lemma {:induction false} ObjectLength(space: string, fields: seq<Field>, rest: string)
    requires Blank(space) && AreFields(fields)
    ensures var n := ObjectNode(space, fields);
            |NodeOn(n, rest)| >= Cost(ValueOf(n)) + |rest| &&
            (LowerNode(n) && Writable(ValueOf(n)) && |NodeOn(n, rest)| == Cost(ValueOf(n)) + |rest| ==>
             NodeOn(n, rest) == Dump(ValueOf(n)) + rest)
    decreases fields, 2
  {
    var members := FieldValues([], fields);
    Bracketed("{", if MembersWritable(members) then DumpMembers(members) else [], "}", rest);
    if fields != [] {
      FieldsLength([], fields, rest);
      SomeMember([], fields);
      assert [] + Fresh(fields) == Fresh(fields);
    }
  }

  lemma {:induction false} SomeMember(done: seq<Member>, fields: seq<Field>)
    requires AreFields(fields) && (done != [] || fields != [])
    ensures FieldValues(done, fields) != []
    decreases fields
  {
    if fields != [] {
      SomeMember(SetMember(done, TextOf(fields[0].name), ValueOf(fields[0].node)), fields[1..]);
    }
  }

  /** The members of the fields, when no name is met again. */
  ghost function Fresh(fields: seq<Field>): (r: seq<Member>)
    requires AreFields(fields)
    ensures |r| == |fields|
  {
    if fields == [] then [] else [Member(TextOf(fields[0].name), ValueOf(fields[0].node))] + Fresh(fields[1..])
  }

  lemma {:induction false} MembersCostConcat(a: seq<Member>, b: seq<Member>)
    ensures MembersCost(a + b) == MembersCost(a) + MembersCost(b)
  {
    if a == [] {
      assert a + b == b;
    } else {
      assert (a + b)[1..] == a[1..] + b;
      MembersCostConcat(a[1..], b);
    }
  }

  /** A member costs what it adds, and less when it takes the place of another. */
  lemma {:induction false} SetCost(done: seq<Member>, name: Text, value: Json)
    ensures MembersCost(SetMember(done, name, value)) <= MembersCost(done) + MemberCost(Member(name, value)) + 1
    ensures MembersCost(SetMember(done, name, value)) == MembersCost(done) + MemberCost(Member(name, value)) + 1 ==>
            SetMember(done, name, value) == done + [Member(name, value)]
  {
    var m := Member(name, value);
    if done == [] {
      assert [m][1..] == [] && done + [m] == [m];
    } else if done[0].name == name {
      assert ([m] + done[1..])[1..] == done[1..];
    } else {
      SetCost(done[1..], name, value);
      assert ([done[0]] + SetMember(done[1..], name, value))[1..] == SetMember(done[1..], name, value);
      assert done + [m] == [done[0]] + (done[1..] + [m]);
    }
  }

  /** The text of a member, up to what follows it. */
  function FieldOn(f: Field, tail: string): string {
    f.before + StringOn(f.name, f.mid + (":" + (f.gap + NodeOn(f.node, f.after + tail))))
  }

  lemma {:induction false} FieldLength(f: Field, m: Member, tail: string)
    requires IsNode(f.node) && SpacedField(f) && m == Member(TextOf(f.name), ValueOf(f.node))
    ensures |FieldOn(f, tail)| >= MemberCost(m) + |tail|
    ensures LowerNode(f.node) && LowerPieces(f.name) && AllScalar(m.name) && Writable(m.value) &&
            |FieldOn(f, tail)| == MemberCost(m) + |tail| ==>
            FieldOn(f, tail) == DumpMember(m) + tail
    decreases f.node, 3
  {
    var value := NodeOn(f.node, f.after + tail);
    NodeLength(f.node, f.after + tail);
    StringNodeLength(f.name, f.mid + (":" + (f.gap + value)));
    if LowerNode(f.node) && LowerPieces(f.name) && AllScalar(m.name) && Writable(m.value) &&
       |FieldOn(f, tail)| == MemberCost(m) + |tail| {
      assert f.before == [] && f.mid == [] && f.gap == [] && f.after == [];
      NoSpace(f, value, tail);
      StringNodeLength(f.name, ":" + value);
      MemberJoins(Quoted(Chars(m.name)), Dump(m.value), tail);
    }
  }

  /** Members and their spellings, one after another: a name met again only makes the text longer. */
  lemma {:induction false} FieldsLength(done: seq<Member>, fields: seq<Field>, rest: string)
    requires AreFields(fields) && fields != []
    ensures |FieldsOn(fields, rest)| + MembersCost(done) >= MembersCost(FieldValues(done, fields)) + |rest|
    ensures LowerFields(fields) && MembersWritable(FieldValues(done, fields)) &&
            |FieldsOn(fields, rest)| + MembersCost(done) == MembersCost(FieldValues(done, fields)) + |rest| ==>
            FieldValues(done, fields) == done + Fresh(fields) && MembersWritable(Fresh(fields)) &&
            FieldsOn(fields, rest) == DumpMembers(Fresh(fields)) + ("}" + rest)
    decreases fields, 1
  {
    var m := Member(TextOf(fields[0].name), ValueOf(fields[0].node));
    var tail := AfterField(fields, rest);
    FieldLength(fields[0], m, tail);
    SetCost(done, m.name, m.value);
    var more := SetMember(done, m.name, m.value);
    var all := FieldValues(more, fields[1..]);
    if |fields| > 1 {
      FieldsLength(more, fields[1..], rest);
    } else {
      assert all == more;
    }
    assert FieldsOn(fields, rest) == FieldOn(fields[0], tail) && FieldValues(done, fields) == all;
    assert |tail| + MembersCost(more) >= MembersCost(all) + 1 + |rest|;
    if LowerFields(fields) && MembersWritable(FieldValues(done, fields)) &&
       |FieldsOn(fields, rest)| + MembersCost(done) == MembersCost(FieldValues(done, fields)) + |rest| {
      assert more == done + [m];
      FieldsExact(done, fields, m, rest);
    }
  }

  lemma {:induction false} FieldsExact(done: seq<Member>, fields: seq<Field>, m: Member, rest: string)
    requires AreFields(fields) && fields != [] && m == Member(TextOf(fields[0].name), ValueOf(fields[0].node))
    requires SetMember(done, m.name, m.value) == done + [m] && MembersWritable(FieldValues(done, fields))
    requires |fields| > 1 ==>
      FieldValues(done + [m], fields[1..]) == (done + [m]) + Fresh(fields[1..]) &&
      MembersWritable(Fresh(fields[1..])) &&
      FieldsOn(fields[1..], rest) == DumpMembers(Fresh(fields[1..])) + ("}" + rest)
    requires AllScalar(m.name) && Writable(m.value) ==>
      FieldOn(fields[0], AfterField(fields, rest)) == DumpMember(m) + AfterField(fields, rest)
    ensures FieldValues(done, fields) == done + Fresh(fields) && MembersWritable(Fresh(fields))
    ensures FieldsOn(fields, rest) == DumpMembers(Fresh(fields)) + ("}" + rest)
  {
    assert |fields| == 1 ==> (done + [m]) + Fresh(fields[1..]) == done + [m];
    NextIsFresh(done, fields, m);
    MembersJoined(Fresh(fields), AfterField(fields, rest), rest);
  }

  lemma {:induction false} NextIsFresh(done: seq<Member>, fields: seq<Field>, m: Member)
    requires AreFields(fields) && fields != [] && m == Member(TextOf(fields[0].name), ValueOf(fields[0].node))
    requires SetMember(done, m.name, m.value) == done + [m] && MembersWritable(FieldValues(done, fields))
    requires FieldValues(done + [m], fields[1..]) == (done + [m]) + Fresh(fields[1..])
    ensures FieldValues(done, fields) == done + Fresh(fields)
    ensures MembersWritable(Fresh(fields)) && MembersWritable(Fresh(fields[1..]))
    ensures Fresh(fields)[0] == m && Fresh(fields)[1..] == Fresh(fields[1..])
  {
    var all, rest := Fresh(fields), Fresh(fields[1..]);
    assert all == [m] + rest;
    AppendOne(done, m, rest);
    WritableFrom(done, all);
    WritableFrom([m], rest);
  }

  lemma AppendOne(done: seq<Member>, m: Member, rest: seq<Member>)
    ensures (done + [m]) + rest == done + ([m] + rest) && ([m] + rest)[1..] == rest
  {
  }

  lemma {:induction false} WritableFrom(a: seq<Member>, b: seq<Member>)
    requires MembersWritable(a + b)
    ensures MembersWritable(b)
  {
    forall i | 0 <= i < |b|
      ensures AllScalar(b[i].name) && Writable(b[i].value)
    {
      assert (a + b)[|a| + i] == b[i];
    }
  }

  lemma {:induction false} PlainIsLower(v: Json)
    requires Writable(v)
    ensures LowerNode(Plain(v))
    decreases v, 1
  {
    match v
    case Str(text) => PlainLower(Chars(text));
    case Arr(items) => PlainItemsLower(items);
    case Obj(members) => PlainFieldsLower(members);
    case _ =>
  }

  lemma {:induction false} PlainItemsLower(items: seq<Json>)
    requires AllWritable(items)
    ensures LowerItems(PlainItems(items))
    decreases items, 0
  {
    if items != [] {
      PlainIsLower(items[0]);
      PlainItemsLower(items[1..]);
    }
  }

  lemma {:induction false} PlainFieldsLower(members: seq<Member>)
    requires MembersWritable(members)
    ensures LowerFields(PlainFields(members))
    decreases members, 0
  {
    if members != [] {
      PlainLower(Chars(members[0].name));
      PlainIsLower(members[0].value);
      PlainFieldsLower(members[1..]);
    }
  }

  // --- numbers that do not say they are integers ----------------------------------------------------

  /** No object has a name twice. */
  predicate NamesOnce(v: Json) {
    match v
    case Arr(items) => forall i :: 0 <= i < |items| ==> NamesOnce(items[i])
    case Obj(members) => DistinctNames(members) && forall i :: 0 <= i < |members| ==> NamesOnce(members[i].value)
    case _ => true
  }

  lemma {:induction false} TidyNamesOnce(v: Json)
    requires Tidy(v)
    ensures NamesOnce(v)
    decreases v
  {
    match v
    case Arr(items) =>
      forall i | 0 <= i < |items|
        ensures NamesOnce(items[i])
      {
        TidyNamesOnce(items[i]);
      }
    case Obj(members) =>
      forall i | 0 <= i < |members|
        ensures NamesOnce(members[i].value)
      {
        TidyNamesOnce(members[i].value);
      }
    case _ =>
  }

  /** Rereading costs nothing and gains nothing. */
  lemma {:induction false} RereadCost(v: Json)
    requires Writable(v) && NamesOnce(v)
    ensures Writable(Reread(v)) && Cost(Reread(v)) == Cost(v)
    decreases v, 1
  {
    match v
    case Arr(items) => RereadItemsCost(items);
    case Obj(members) =>
      RereadMembersCost(members);
      assert [] + members == members;
      RereadFresh([], members);
      assert [] + RereadEach(members) == RereadEach(members);
    case _ =>
  }

  lemma {:induction false} RereadItemsCost(items: seq<Json>)
    requires AllWritable(items) && forall i :: 0 <= i < |items| ==> NamesOnce(items[i])
    ensures AllWritable(RereadItems(items)) && ItemsCost(RereadItems(items)) == ItemsCost(items)
    decreases items, 0
  {
    if items != [] {
      RereadCost(items[0]);
      RereadItemsCost(items[1..]);
      assert RereadItems(items)[1..] == RereadItems(items[1..]);
    }
  }

  lemma {:induction false} RereadMembersCost(members: seq<Member>)
    requires MembersWritable(members) && forall i :: 0 <= i < |members| ==> NamesOnce(members[i].value)
    ensures MembersWritable(RereadEach(members)) && MembersCost(RereadEach(members)) == MembersCost(members)
    decreases members, 0
  {
    if members != [] {
      RereadCost(members[0].value);
      RereadMembersCost(members[1..]);
      assert RereadEach(members)[1..] == RereadEach(members[1..]);
    }
  }

  /** The text of a value is the one shortest text of the value as it is reread whose hexadecimal digits are
      lower-case: no white space, no escape that is not needed, and no longer escape than is needed. */
  lemma DumpIsShortest(v: Json, t: string)
    requires Writable(v) && NamesOnce(v)
    ensures t == Dump(v) <==> IsShortestText(t, Reread(v))
  {
    var w := Reread(v);
    PlainIsDump(v, "", 0, 0);
    PlainIsLower(v);
    RereadCost(v);
    DumpCost(v);
    assert Dump(v) + "" == Dump(v) && Dump(w) + "" == Dump(w);
    assert Says("", Plain(v), "", w);
    NodeLength(Plain(v), "");
    forall before, n, after | Says(before, n, after, w)
      ensures |Dump(v)| <= |before + NodeOn(n, after)|
    {
      NodeLength(n, after);
    }
    if IsShortestText(t, w) {
      var n :| Says("", n, "", w) && LowerNode(n) && t == NodeOn(n, "");
      NodeLength(n, "");
      assert "" + NodeOn(Plain(v), "") == Dump(v);
    }
  }
}
