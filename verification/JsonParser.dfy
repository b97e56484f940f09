/** The parser as it runs: one position that moves over the text, and lists that fill in loops
    (cpp/src/json.cpp:26-271). Every method agrees with the function of the text ahead that Json gives for it. */
module JsonParser {
  import opened Outcomes
  import opened DecimalText
  import opened Json
  import opened JsonGrammar

  /** What a method answers and leaves ahead is what the function says. */
  predicate Agrees<T(==)>(spec: Parsed<T>, r: Outcome<T>, ahead: string) {
    match spec
    case Got(value, rest) => r == Accepted(value) && ahead == rest
    case Bad => r.Refused?
  }

  /** is_json_number */
  method ScanNumber(text: string) returns (ok: bool)
    ensures ok <==> IsJsonNumber(text)
  {
    var i := 0;
    assert text[0..] == text;
    if i < |text| && text[i] == '-' {
      i := i + 1;
    }
    ok := ScanUnsigned(text, i);
  }

  method ScanUnsigned(text: string, start: nat) returns (ok: bool)
    requires start <= |text|
    ensures ok <==> IsUnsigned(text[start..])
  {
    var i, n := start, |text|;
    if i >= n {
      return false;
    }
    if text[i] == '0' {
      i := i + 1;
      assert text[start..][1..] == text[i..];
    } else if '1' <= text[i] <= '9' {
      i := SkipDigits(text, i);
      assert text[start..][Digits(text[start..])..] == text[i..];
    } else {
      return false;
    }
    ok := ScanTail(text, i);
  }

  method ScanTail(text: string, start: nat) returns (ok: bool)
    requires start <= |text|
    ensures ok <==> IsTail(text[start..])
  {
    var i, n := start, |text|;
    if i < n && text[i] == '.' {
      i := i + 1;
      var digits := i;
      assert text[start..][1..] == text[digits..];
      i := SkipDigits(text, i);
      assert text[digits..][i - digits..] == text[i..];
      if i == digits {
        return false;
      }
    }
    assert IsTail(text[start..]) <==> IsExponent(text[i..]);
    ok := ScanExponent(text, i);
  }

  method ScanExponent(text: string, start: nat) returns (ok: bool)
    requires start <= |text|
    ensures ok <==> IsExponent(text[start..])
  {
    var i, n := start, |text|;
    if i < n && (text[i] == 'e' || text[i] == 'E') {
      i := i + 1;
      assert text[start..][1..] == text[i..];
      if i < n && (text[i] == '+' || text[i] == '-') {
        i := i + 1;
        assert text[i - 1..][1..] == text[i..];
      }
      var digits := i;
      i := SkipDigits(text, i);
      if i == digits {
        return false;
      }
    }
    return i == n;
  }

  class Parser {
    const text: string
    var pos: nat

    ghost predicate Valid()
      reads this
    {
      pos <= |text|
    }

    function Ahead(): string
      requires Valid()
      reads this
    {
      text[pos..]
    }

    constructor (text: string)
      ensures Valid() && this.text == text && Ahead() == text
    {
      this.text := text;
      pos := 0;
    }

    method SkipWhitespace()
      requires Valid()
      modifies this
      ensures Valid() && pos >= old(pos) && Ahead() == SkipSpace(old(Ahead()))
    {
      while pos < |text| && IsSpace(text[pos])
        invariant Valid() && pos >= old(pos) && SkipSpace(Ahead()) == SkipSpace(old(Ahead()))
        decreases |text| - pos
      {
        assert text[pos..][1..] == text[pos + 1..];
        pos := pos + 1;
      }
    }

    /** expect_literal */
    method Literal(literal: string, value: Json) returns (r: Outcome<Json>)
      requires Valid() && literal != []
      modifies this
      ensures Valid() && pos >= old(pos)
      ensures Agrees(ParseLiteral(old(Ahead()), literal, value), r, Ahead())
    {
      if pos + |literal| > |text| || text[pos..pos + |literal|] != literal {
        assert pos + |literal| <= |text| ==> Ahead()[..|literal|] == text[pos..pos + |literal|];
        return Refused;
      }
      assert Ahead()[..|literal|] == text[pos..pos + |literal|];
      assert Ahead()[|literal|..] == text[pos + |literal|..];
      pos := pos + |literal|;
      return Accepted(value);
    }

    /** hex4 */
    method FourHex() returns (value: int)
      requires Valid()
      modifies this
      ensures Valid() && pos >= old(pos) && value == Hex4(old(Ahead()))
      ensures value >= 0 ==> pos == old(pos) + 4
    {
      if pos + 4 > |text| {
        return -1;
      }
      var a, b, c, d := HexValue(text[pos]), HexValue(text[pos + 1]), HexValue(text[pos + 2]), HexValue(text[pos + 3]);
      if a < 0 || b < 0 || c < 0 || d < 0 {
        return -1;
      }
      value := ((a * 16 + b) * 16 + c) * 16 + d;
      pos := pos + 4;
    }

    method Unicode() returns (r: Outcome<int>)
      requires Valid()
      modifies this
      ensures Valid() && pos >= old(pos) && Agrees(ParseUnicode(old(Ahead())), r, Ahead())
    {
      ghost var t := Ahead();
      var start := pos;
      var code := FourHex();
      if code < 0 {
        return Refused;
      }
      assert t[4..] == text[start + 4..];
      if 0xD800 <= code <= 0xDBFF && pos + 6 <= |text| && text[pos] == '\\' && text[pos + 1] == 'u' {
        var restore := pos;
        pos := pos + 2;
        assert t[6..] == text[start + 6..];
        var low := FourHex();
        if low < 0 {
          return Refused;
        }
        if 0xDC00 <= low <= 0xDFFF {
          code := 0x1_0000 + (code - 0xD800) * 1024 + (low - 0xDC00);
          assert t[10..] == text[start + 10..];
        } else {
          pos := restore;
        }
      }
      return Accepted(code);
    }

    /** parse_string */
    method String() returns (r: Outcome<Text>)
      requires Valid() && Ahead() != []
      modifies this
      ensures Valid() && pos >= old(pos) && Agrees(ParseChars(old(Ahead())[1..], []), r, Ahead())
    {
      assert Ahead()[1..] == text[pos + 1..];
      pos := pos + 1;
      var out: Text := [];
      ghost var spec := ParseChars(Ahead(), []);
      while pos < |text| && text[pos] != '"'
        invariant Valid() && pos >= old(pos) && ParseChars(Ahead(), out) == spec
        decreases |text| - pos
      {
        var code := Character();
        if code.Refused? {
          return Refused;
        }
        out := out + [code.value];
      }
      if pos >= |text| {
        return Refused;
      }
      assert Ahead()[1..] == text[pos + 1..];
      pos := pos + 1;
      return Accepted(out);
    }

    /** The character or escape ahead, as one step of ParseChars. */
    method Character() returns (r: Outcome<int>)
      requires Valid() && Ahead() != [] && Ahead()[0] != '"'
      modifies this
      ensures Valid() && pos >= old(pos) && (r.Accepted? ==> pos > old(pos))
      ensures forall done {:trigger ParseChars(old(Ahead()), done)} ::
        ParseChars(old(Ahead()), done) == if r.Accepted? then ParseChars(Ahead(), done + [r.value]) else Bad
    {
      if text[pos] as int < 32 {
        return Refused;
      }
      if text[pos] == '\\' {
        r := Escape();
        return;
      }
      assert Ahead()[1..] == text[pos + 1..];
      pos := pos + 1;
      return Accepted(text[pos - 1] as int);
    }

    /** The escape ahead, as one step of ParseChars. */
    method Escape() returns (r: Outcome<int>)
      requires Valid() && Ahead() != [] && Ahead()[0] == '\\'
      modifies this
      ensures Valid() && pos >= old(pos) && (r.Accepted? ==> pos > old(pos))
      ensures forall done {:trigger ParseChars(old(Ahead()), done)} ::
        ParseChars(old(Ahead()), done) == if r.Accepted? then ParseChars(Ahead(), done + [r.value]) else Bad
    {
      ghost var t := Ahead();
      var start := pos;
      pos := pos + 1;
      if pos >= |text| {
        return Refused;
      }
      var escape := text[pos];
      assert t[1] == escape && t[2..] == text[start + 2..];
      pos := pos + 1;
      if ShortEscape(escape) >= 0 {
        return Accepted(ShortEscape(escape));
      }
      if escape != 'u' {
        return Refused;
      }
      r := Unicode();
    }

    /** parse_number */
    method Number() returns (r: Outcome<Json>)
      requires Valid()
      modifies this
      ensures Valid() && pos >= old(pos) && Agrees(ParseNumber(old(Ahead())), r, Ahead())
    {
      var start := pos;
      ghost var t := Ahead();
      while pos < |text| && NumberChar(text[pos])
        invariant start <= pos <= |text| && NumberRun(t) == pos - start + NumberRun(Ahead())
        decreases |text| - pos
      {
        assert Ahead()[1..] == text[pos + 1..];
        pos := pos + 1;
      }
      var lexeme := text[start..pos];
      assert lexeme == t[..NumberRun(t)] && Ahead() == t[|lexeme|..];
      if lexeme == [] {
        return Refused;
      }
      var ok := ScanNumber(lexeme);
      if !ok {
        return Refused;
      }
      return Accepted(Num(lexeme, IntegerLexeme(lexeme)));
    }

    /** parse_value, of anything but an object or an array. */
    method Scalar() returns (r: Outcome<Json>)
      requires Valid() && Ahead() != []
      modifies this
      ensures Valid() && pos >= old(pos) && Agrees(ParseScalar(old(Ahead())), r, Ahead())
    {
      var c := text[pos];
      if c == '"' {
        var s := String();
        r := if s.Accepted? then Accepted(Str(s.value)) else Refused;
      } else if c == 't' {
        r := Literal("true", Bool(true));
      } else if c == 'f' {
        r := Literal("false", Bool(false));
      } else if c == 'n' {
        r := Literal("null", Null);
      } else {
        r := Number();
      }
    }

    /** parse_value */
    method ParseAt(depth: nat, limit: nat) returns (r: Outcome<Json>)
      requires Valid()
      modifies this
      ensures Valid() && pos >= old(pos) && Agrees(ParseValue(old(Ahead()), depth, limit), r, Ahead())
      decreases |text| - pos, 1, 0
    {
      if depth > limit || pos >= |text| {
        return Refused;
      }
      if text[pos] == '{' {
        r := Object(depth, limit);
      } else if text[pos] == '[' {
        r := Array(depth, limit);
      } else {
        r := Scalar();
      }
    }

    /** parse_array */
    method Array(depth: nat, limit: nat) returns (r: Outcome<Json>)
      requires Valid() && Ahead() != [] && Ahead()[0] == '[' && depth <= limit
      modifies this
      ensures Valid() && pos >= old(pos) && Agrees(ParseValue(old(Ahead()), depth, limit), r, Ahead())
      decreases |text| - pos, 0
    {
      ghost var spec := ParseValue(Ahead(), depth, limit);
      assert Ahead()[1..] == text[pos + 1..];
      pos := pos + 1;
      ghost var inside := Ahead();
      assert spec == ParseArray(inside, depth, limit);
      SkipWhitespace();
      if pos < |text| && text[pos] == ']' {
        assert Ahead()[1..] == text[pos + 1..];
        pos := pos + 1;
        return Accepted(Arr([]));
      }
      SameItemsAhead(inside, depth, limit);
      r := Items(depth, limit);
    }

    method Items(depth: nat, limit: nat) returns (r: Outcome<Json>)
      requires Valid()
      modifies this
      ensures Valid() && pos >= old(pos) && Agrees(ParseItems(old(Ahead()), depth, limit, []), r, Ahead())
      decreases |text| - pos, 3
    {
      ghost var spec := ParseItems(Ahead(), depth, limit, []);
      var items: seq<Json> := [];
      while true
        invariant Valid() && pos >= old(pos) && ParseItems(Ahead(), depth, limit, items) == spec
        decreases |text| - pos
      {
        var ok: bool;
        items, ok := NextItem(depth, limit, items);
        if !ok {
          return Refused;
        }
        assert Ahead()[1..] == text[pos + 1..];
        if text[pos] == ',' {
          pos := pos + 1;
        } else if text[pos] == ']' {
          pos := pos + 1;
          return Accepted(Arr(items));
        } else {
          return Refused;
        }
      }
    }

    method NextItem(depth: nat, limit: nat, items: seq<Json>) returns (more: seq<Json>, ok: bool)
      requires Valid()
      modifies this
      ensures Valid() && pos >= old(pos) && (ok ==> old(pos) < pos < |text|)
      ensures ParseItems(old(Ahead()), depth, limit, items) ==
        if ok then ItemsAfter(Ahead(), depth, limit, more) else Bad
      decreases |text| - pos, 2
    {
      var item := Item(depth, limit);
      if item.Refused? {
        return items, false;
      }
      return items + [item.value], true;
    }

    method Item(depth: nat, limit: nat) returns (r: Outcome<Json>)
      requires Valid()
      modifies this
      ensures Valid() && pos >= old(pos) && Agrees(ParseItem(old(Ahead()), depth, limit), r, Ahead())
      ensures r.Accepted? ==> pos > old(pos)
      decreases |text| - pos, 1, 1
    {
      SkipWhitespace();
      r := ParseAt(depth + 1, limit);
      if r.Refused? {
        return;
      }
      SkipWhitespace();
      if pos >= |text| {
        return Refused;
      }
    }

    /** parse_object */
    method Object(depth: nat, limit: nat) returns (r: Outcome<Json>)
      requires Valid() && Ahead() != [] && Ahead()[0] == '{' && depth <= limit
      modifies this
      ensures Valid() && pos >= old(pos) && Agrees(ParseValue(old(Ahead()), depth, limit), r, Ahead())
      decreases |text| - pos, 0
    {
      ghost var spec := ParseValue(Ahead(), depth, limit);
      assert Ahead()[1..] == text[pos + 1..];
      pos := pos + 1;
      ghost var inside := Ahead();
      assert spec == ParseObject(inside, depth, limit);
      SkipWhitespace();
      if pos < |text| && text[pos] == '}' {
        assert Ahead()[1..] == text[pos + 1..];
        pos := pos + 1;
        return Accepted(Obj([]));
      }
      SameMembersAhead(inside, depth, limit);
      r := Members(depth, limit);
    }

    method Members(depth: nat, limit: nat) returns (r: Outcome<Json>)
      requires Valid()
      modifies this
      ensures Valid() && pos >= old(pos) && Agrees(ParseMembers(old(Ahead()), depth, limit, []), r, Ahead())
      decreases |text| - pos, 3
    {
      ghost var spec := ParseMembers(Ahead(), depth, limit, []);
      var members: seq<Member> := [];
      while true
        invariant Valid() && pos >= old(pos) && ParseMembers(Ahead(), depth, limit, members) == spec
        decreases |text| - pos
      {
        var ok: bool;
        members, ok := NextMember(depth, limit, members);
        if !ok {
          return Refused;
        }
        assert Ahead()[1..] == text[pos + 1..];
        if text[pos] == ',' {
          pos := pos + 1;
        } else if text[pos] == '}' {
          pos := pos + 1;
          return Accepted(Obj(members));
        } else {
          return Refused;
        }
      }
    }

    method NextMember(depth: nat, limit: nat, members: seq<Member>) returns (more: seq<Member>, ok: bool)
      requires Valid()
      modifies this
      ensures Valid() && pos >= old(pos) && (ok ==> old(pos) < pos < |text|)
      ensures ParseMembers(old(Ahead()), depth, limit, members) ==
        if ok then MembersAfter(Ahead(), depth, limit, more) else Bad
      decreases |text| - pos, 2
    {
      var m := OneMember(depth, limit);
      if m.Refused? {
        return members, false;
      }
      more := Put(members, m.value);
      return more, true;
    }

    method OneMember(depth: nat, limit: nat) returns (r: Outcome<Member>)
      requires Valid()
      modifies this
      ensures Valid() && pos >= old(pos) && Agrees(ParseMember(old(Ahead()), depth, limit), r, Ahead())
      ensures r.Accepted? ==> pos > old(pos)
      decreases |text| - pos, 1, 1
    {
      var name := NameAndColon();
      if name.Refused? {
        return Refused;
      }
      var value := ParseAt(depth + 1, limit);
      if value.Refused? {
        return Refused;
      }
      SkipWhitespace();
      if pos >= |text| {
        return Refused;
      }
      return Accepted(Member(name.value, value.value));
    }

    method NameAndColon() returns (r: Outcome<Text>)
      requires Valid()
      modifies this
      ensures Valid() && pos >= old(pos) && Agrees(ParseName(old(Ahead())), r, Ahead())
      ensures r.Accepted? ==> pos > old(pos)
    {
      SkipWhitespace();
      if pos >= |text| || text[pos] != '"' {
        return Refused;
      }
      r := String();
      if r.Refused? {
        return;
      }
      SkipWhitespace();
      if pos >= |text| || text[pos] != ':' {
        return Refused;
      }
      assert Ahead()[1..] == text[pos + 1..];
      pos := pos + 1;
      SkipWhitespace();
    }

    /** document */
    method Document() returns (r: Outcome<Json>)
      requires Valid() && pos == 0
      modifies this
      ensures Valid() && Agrees(ParseDocument(text, MAX_DEPTH), r, [])
      ensures forall v :: r == Accepted(v) <==> IsText(text, v, 512)
    {
      r := WholeText();
      AnswerIsGrammar(text, r);
    }

    method WholeText() returns (r: Outcome<Json>)
      requires Valid() && pos == 0
      modifies this
      ensures Valid() && Agrees(ParseDocument(text, MAX_DEPTH), r, [])
    {
      assert Ahead() == text;
      if |text| >= 1 && text[0] as int == 0xFEFF {
        return Refused;
      }
      SkipWhitespace();
      r := ParseAt(0, MAX_DEPTH);
      if r.Refused? {
        return;
      }
      SkipWhitespace();
      if pos != |text| {
        return Refused;
      }
    }
  }

  lemma AnswerIsGrammar(text: string, r: Outcome<Json>)
    requires Agrees(ParseDocument(text, 512), r, [])
    ensures forall v :: r == Accepted(v) <==> IsText(text, v, 512)
  {
    forall v
      ensures r == Accepted(v) <==> IsText(text, v, 512)
    {
      ParserIsGrammar(text, v);
    }
  }

  /** std::find_if over the members, then replace or append. */
  method Put(members: seq<Member>, m: Member) returns (after: seq<Member>)
    ensures after == SetMember(members, m.name, m.value)
    ensures (forall i :: 0 <= i < |members| ==> members[i].name != m.name) ==> after == members + [m]
    ensures forall i ::
      0 <= i < |members| && members[i].name == m.name && (forall j :: 0 <= j < i ==> members[j].name != m.name) ==>
      after == members[i := m]
  {
    var i := 0;
    while i < |members| && members[i].name != m.name
      invariant i <= |members| && forall j :: 0 <= j < i ==> members[j].name != m.name
      invariant SetMember(members, m.name, m.value) == members[..i] + SetMember(members[i..], m.name, m.value)
    {
      SetPast(members, i, m);
      i := i + 1;
    }
    if i < |members| {
      SetHere(members, i, m);
      after := members[i := m];
    } else {
      after := members + [m];
    }
  }

  lemma {:induction false} SetPast(members: seq<Member>, i: nat, m: Member)
    requires i < |members| && members[i].name != m.name
    ensures members[..i] + SetMember(members[i..], m.name, m.value) ==
            members[..i + 1] + SetMember(members[i + 1..], m.name, m.value)
  {
    assert members[i..][1..] == members[i + 1..];
    assert members[..i] + [members[i]] == members[..i + 1];
  }

  lemma {:induction false} SetHere(members: seq<Member>, i: nat, m: Member)
    requires i < |members| && members[i].name == m.name
    ensures members[..i] + SetMember(members[i..], m.name, m.value) == members[i := m]
  {
    assert members[i..][1..] == members[i + 1..];
  }

  lemma {:induction false} SkipSpaceTwice(t: string)
    ensures SkipSpace(SkipSpace(t)) == SkipSpace(t)
  {
  }

  lemma {:induction false} SameItemsAhead(t: string, depth: nat, limit: nat)
    ensures ParseItems(SkipSpace(t), depth, limit, []) == ParseItems(t, depth, limit, [])
  {
    SkipSpaceTwice(t);
    assert ParseItem(SkipSpace(t), depth, limit) == ParseItem(t, depth, limit);
  }

  lemma {:induction false} SameMembersAhead(t: string, depth: nat, limit: nat)
    ensures ParseMembers(SkipSpace(t), depth, limit, []) == ParseMembers(t, depth, limit, [])
  {
    SkipSpaceTwice(t);
    assert ParseName(SkipSpace(t)) == ParseName(t);
    assert ParseMember(SkipSpace(t), depth, limit) == ParseMember(t, depth, limit);
  }
}
