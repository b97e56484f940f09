/** JSON values, their compact text, and what the parser makes of a text (cpp/src/json.cpp; RFC 8259). A document is a
    sequence of Unicode scalar values; the text of a string may also hold lone surrogates, which only escapes can
    write, so it is a sequence of code points. */
module Json {
  import opened DecimalText

  type Text = seq<int>

  datatype Json =
    | Null
    | Bool(truth: bool)
    | Num(lexeme: string, integer: bool)
    | Str(text: Text)
    | Arr(items: seq<Json>)
    | Obj(members: seq<Member>)

  datatype Member = Member(name: Text, value: Json)

  /** What a parser makes of the text ahead: a value and the text after it, or nothing. */
  datatype Parsed<T> = Got(value: T, rest: string) | Bad

  // --- code points ----------------------------------------------------------------------------------

  predicate IsScalar(p: int) { 0 <= p < 0xD800 || 0xE000 <= p < 0x11_0000 }

  predicate AllScalar(t: Text) { forall i :: 0 <= i < |t| ==> IsScalar(t[i]) }

  function Points(s: string): (t: Text)
    ensures |t| == |s| && forall i :: 0 <= i < |s| ==> t[i] == s[i] as int
  {
    seq(|s|, i requires 0 <= i < |s| => s[i] as int)
  }

  function Chars(t: Text): (s: string)
    requires AllScalar(t)
    ensures |s| == |t| && forall i :: 0 <= i < |s| ==> s[i] as int == t[i]
  {
    seq(|t|, i requires 0 <= i < |t| => t[i] as char)
  }

  lemma PointsChars(t: Text)
    requires AllScalar(t)
    ensures Points(Chars(t)) == t
  {
  }

  lemma CharsPoints(s: string)
    ensures AllScalar(Points(s)) && Chars(Points(s)) == s
  {
    forall i | 0 <= i < |s|
      ensures IsScalar(Points(s)[i])
    {
      var c := s[i];
      assert IsScalar(c as int);
    }
  }

  // --- escapes --------------------------------------------------------------------------------------

  function HexDigit(d: int): char
    requires 0 <= d < 16
  {
    if d < 10 then ('0' as int + d) as char else ('a' as int + (d - 10)) as char
  }

  function EscapeChar(c: char): string {
    if c == '"' then "\\\""
    else if c == '\\' then "\\\\"
    else if c as int == 8 then "\\b"
    else if c as int == 9 then "\\t"
    else if c as int == 10 then "\\n"
    else if c as int == 12 then "\\f"
    else if c as int == 13 then "\\r"
    else if c as int < 32 then "\\u00" + [HexDigit(c as int / 16), HexDigit(c as int % 16)]
    else [c]
  }

  function EscapeAll(s: string): string {
    if s == [] then [] else EscapeChar(s[0]) + EscapeAll(s[1..])
  }

  /** escape_into */
  function Quoted(s: string): string { "\"" + EscapeAll(s) + "\"" }

  /** The value of a hexadecimal digit, or -1. */
  function HexValue(c: char): (v: int)
    ensures -1 <= v < 16
  {
    if '0' <= c <= '9' then c as int - '0' as int
    else if 'a' <= c <= 'f' then c as int - 'a' as int + 10
    else if 'A' <= c <= 'F' then c as int - 'A' as int + 10
    else -1
  }

  /** hex4: four hexadecimal digits, or -1. */
  function Hex4(t: string): (v: int)
    ensures -1 <= v < 0x1_0000
  {
    if |t| < 4 || HexValue(t[0]) < 0 || HexValue(t[1]) < 0 || HexValue(t[2]) < 0 || HexValue(t[3]) < 0 then -1
    else ((HexValue(t[0]) * 16 + HexValue(t[1])) * 16 + HexValue(t[2])) * 16 + HexValue(t[3])
  }

  /** The code point of a one-letter escape, or -1. */
  function ShortEscape(c: char): int {
    if c == '"' then 34
    else if c == '\\' then 92
    else if c == '/' then 47
    else if c == 'b' then 8
    else if c == 'f' then 12
    else if c == 'n' then 10
    else if c == 'r' then 13
    else if c == 't' then 9
    else -1
  }

  /** What \u begins: a code point, or a high and a low surrogate that make one; a surrogate alone stays itself. */
  function ParseUnicode(t: string): (r: Parsed<int>)
    ensures r.Got? ==> |r.rest| < |t|
  {
    var code := Hex4(t);
    if code < 0 then Bad
    else if 0xD800 <= code <= 0xDBFF && |t| >= 10 && t[4] == '\\' && t[5] == 'u' then
      var low := Hex4(t[6..]);
      if low < 0 then Bad
      else if 0xDC00 <= low <= 0xDFFF then Got(0x1_0000 + (code - 0xD800) * 1024 + (low - 0xDC00), t[10..])
      else Got(code, t[4..])
    else Got(code, t[4..])
  }

  /** parse_string, after the opening quote. */
  function ParseChars(t: string, done: Text): (r: Parsed<Text>)
    ensures r.Got? ==> |r.rest| < |t|
    decreases |t|
  {
    if t == [] then Bad
    else if t[0] == '"' then Got(done, t[1..])
    else if t[0] as int < 32 then Bad
    else if t[0] != '\\' then ParseChars(t[1..], done + [t[0] as int])
    else if |t| < 2 then Bad
    else if ShortEscape(t[1]) >= 0 then ParseChars(t[2..], done + [ShortEscape(t[1])])
    else if t[1] != 'u' then Bad
    else
      match ParseUnicode(t[2..])
      case Bad => Bad
      case Got(code, rest) => ParseChars(rest, done + [code])
  }

  /** Four hexadecimal digits are one 16-bit unit, whatever the case of their letters. */
  lemma FourDigits(t: string, a: int, b: int, c: int, d: int, rest: string)
    requires |t| == 4 && HexValue(t[0]) == a >= 0 && HexValue(t[1]) == b >= 0
    requires HexValue(t[2]) == c >= 0 && HexValue(t[3]) == d >= 0
    ensures Hex4(t + rest) == a * 4096 + b * 256 + c * 16 + d && (t + rest)[4..] == rest
  {
  }

  /** A unit that is no high surrogate stands for itself. */
  lemma UnitEscape(t: string, unit: int, rest: string, done: Text)
    requires |t| == 4 && Hex4(t + rest) == unit && 0 <= unit && !(0xD800 <= unit <= 0xDBFF)
    ensures ParseChars("\\u" + (t + rest), done) == ParseChars(rest, done + [unit])
  {
    assert ("\\u" + (t + rest))[2..] == t + rest && (t + rest)[4..] == rest;
  }

  /** A high and a low surrogate stand for one code point past 0xFFFF: x and y are its upper and lower ten bits. */
  lemma PairEscape(high: string, low: string, x: int, y: int, rest: string, done: Text)
    requires |high| == |low| == 4 && 0 <= x < 1024 && 0 <= y < 1024
    requires Hex4(high + ("\\u" + (low + rest))) == 0xD800 + x && Hex4(low + rest) == 0xDC00 + y
    ensures ParseChars("\\u" + (high + ("\\u" + (low + rest))), done) ==
            ParseChars(rest, done + [0x1_0000 + x * 1024 + y])
  {
    var t := high + ("\\u" + (low + rest));
    assert ("\\u" + t)[2..] == t;
    assert t[4] == '\\' && t[5] == 'u' && t[6..] == low + rest && t[10..] == rest;
  }

  // --- numbers --------------------------------------------------------------------------------------

  predicate NumberChar(c: char) { IsDigit(c) || c == '-' || c == '+' || c == '.' || c == 'e' || c == 'E' }

  /** is_json_number, by what is left to read. */
  predicate IsJsonNumber(t: string) {
    if t != [] && t[0] == '-' then IsUnsigned(t[1..]) else IsUnsigned(t)
  }

  predicate IsUnsigned(t: string) {
    t != [] && IsDigit(t[0]) && if t[0] == '0' then IsTail(t[1..]) else IsTail(t[Digits(t)..])
  }

  predicate IsTail(t: string) {
    if t != [] && t[0] == '.' then Digits(t[1..]) > 0 && IsExponent(t[1..][Digits(t[1..])..]) else IsExponent(t)
  }

  predicate IsExponent(t: string) {
    t == [] || ((t[0] == 'e' || t[0] == 'E') && AllDigitsAfterSign(t[1..]))
  }

  predicate AllDigitsAfterSign(t: string) {
    if t != [] && (t[0] == '+' || t[0] == '-') then 0 < Digits(t[1..]) == |t| - 1 else 0 < Digits(t) == |t|
  }

  predicate AllNumberChars(t: string) { forall i :: 0 <= i < |t| ==> NumberChar(t[i]) }

  lemma AllFrom(t: string, n: nat)
    requires n <= |t| && AllNumberChars(t[..n]) && AllNumberChars(t[n..])
    ensures AllNumberChars(t)
  {
    forall i | 0 <= i < |t|
      ensures NumberChar(t[i])
    {
      assert i < n ==> t[i] == t[..n][i];
      assert i >= n ==> t[i] == t[n..][i - n];
    }
  }

  lemma NumberIsNumberChars(t: string)
    requires IsJsonNumber(t)
    ensures t != [] && AllNumberChars(t) && (t[0] == '-' || IsDigit(t[0]))
  {
    if t[0] == '-' {
      UnsignedChars(t[1..]);
      AllFrom(t, 1);
    } else {
      UnsignedChars(t);
    }
  }

  lemma UnsignedChars(t: string)
    requires IsUnsigned(t)
    ensures AllNumberChars(t)
  {
    var n := if t[0] == '0' then 1 else Digits(t);
    TailChars(t[n..]);
    AllFrom(t, n);
  }

  lemma TailChars(t: string)
    requires IsTail(t)
    ensures AllNumberChars(t)
  {
    if t != [] && t[0] == '.' {
      var u := t[1..];
      ExponentChars(u[Digits(u)..]);
      AllFrom(u, Digits(u));
      AllFrom(t, 1);
    } else {
      ExponentChars(t);
    }
  }

  lemma ExponentChars(t: string)
    requires IsExponent(t)
    ensures AllNumberChars(t)
  {
    if t != [] {
      var u := t[1..];
      if u[0] == '+' || u[0] == '-' {
        AllFrom(u, 1);
      }
      AllFrom(t, 1);
    }
  }

  /** from_lexeme: an integer has no fraction and no exponent. */
  predicate IntegerLexeme(t: string) { forall i :: 0 <= i < |t| ==> t[i] != '.' && t[i] != 'e' && t[i] != 'E' }

  function NumberRun(t: string): (n: nat)
    ensures n <= |t| && AllNumberChars(t[..n]) && (n < |t| ==> !NumberChar(t[n]))
  {
    if t != [] && NumberChar(t[0]) then
      var n := NumberRun(t[1..]);
      assert t[..n + 1] == [t[0]] + t[1..][..n];
      n + 1
    else 0
  }

  lemma {:induction false} RunOfNumber(l: string, rest: string)
    requires AllNumberChars(l) && (rest == [] || !NumberChar(rest[0]))
    ensures NumberRun(l + rest) == |l|
  {
    if l == [] {
      assert l + rest == rest;
    } else {
      assert (l + rest)[1..] == l[1..] + rest;
      RunOfNumber(l[1..], rest);
    }
  }

  // --- values ---------------------------------------------------------------------------------------

  predicate IsSpace(c: char) { c == ' ' || c == '\t' || c == '\n' || c == '\r' }

  function SkipSpace(t: string): (r: string)
    ensures |r| <= |t| && (r != [] ==> !IsSpace(r[0]))
  {
    if t != [] && IsSpace(t[0]) then SkipSpace(t[1..]) else t
  }

  /** Space, tab, line feed and carriage return are skipped, and nothing else. */
  lemma {:induction false} SkipsSpaces(spaces: string, t: string)
    requires forall i :: 0 <= i < |spaces| ==> spaces[i] in " \t\n\r"
    requires t == [] || t[0] !in " \t\n\r"
    ensures SkipSpace(spaces + t) == t
  {
    if spaces == [] {
      assert spaces + t == t;
    } else {
      assert (spaces + t)[1..] == spaces[1..] + t;
      SkipsSpaces(spaces[1..], t);
    }
  }

  const MAX_DEPTH: nat := 512

  function ParseLiteral(t: string, literal: string, value: Json): (r: Parsed<Json>)
    requires literal != []
    ensures r.Got? ==> |r.rest| < |t|
  {
    if |literal| <= |t| && t[..|literal|] == literal then Got(value, t[|literal|..]) else Bad
  }

  function ParseNumber(t: string): (r: Parsed<Json>)
    ensures r.Got? ==> |r.rest| < |t|
  {
    var lexeme := t[..NumberRun(t)];
    if lexeme == [] || !IsJsonNumber(lexeme) then Bad else Got(Num(lexeme, IntegerLexeme(lexeme)), t[|lexeme|..])
  }

  /** parse_value, of anything but an object or an array. */
  function ParseScalar(t: string): (r: Parsed<Json>)
    requires t != []
    ensures r.Got? ==> |r.rest| < |t|
  {
    if t[0] == '"' then
      match ParseChars(t[1..], [])
      case Bad => Bad
      case Got(text, rest) => Got(Str(text), rest)
    else if t[0] == 't' then ParseLiteral(t, "true", Bool(true))
    else if t[0] == 'f' then ParseLiteral(t, "false", Bool(false))
    else if t[0] == 'n' then ParseLiteral(t, "null", Null)
    else ParseNumber(t)
  }

  /** parse_value, for a parser that follows nesting to this depth. */
  function ParseValue(t: string, depth: nat, limit: nat): (r: Parsed<Json>)
    ensures r.Got? ==> |r.rest| < |t|
    decreases |t|, 0
  {
    if depth > limit || t == [] then Bad
    else if t[0] == '{' then ParseObject(t[1..], depth, limit)
    else if t[0] == '[' then ParseArray(t[1..], depth, limit)
    else ParseScalar(t)
  }

  /** parse_array, after the bracket. */
  function ParseArray(t: string, depth: nat, limit: nat): (r: Parsed<Json>)
    ensures r.Got? ==> |r.rest| < |t|
    decreases |t|, 3
  {
    var u := SkipSpace(t);
    if u != [] && u[0] == ']' then Got(Arr([]), u[1..]) else ParseItems(t, depth, limit, [])
  }

  /** parse_object, after the brace. */
  function ParseObject(t: string, depth: nat, limit: nat): (r: Parsed<Json>)
    ensures r.Got? ==> |r.rest| < |t|
    decreases |t|, 3
  {
    var u := SkipSpace(t);
    if u != [] && u[0] == '}' then Got(Obj([]), u[1..]) else ParseMembers(t, depth, limit, [])
  }

  /** One item of an array, and what follows it. */
  function ParseItem(t: string, depth: nat, limit: nat): (r: Parsed<Json>)
    ensures r.Got? ==> |r.rest| < |t| && r.rest != []
    decreases |t|, 1
  {
    match ParseValue(SkipSpace(t), depth + 1, limit)
    case Bad => Bad
    case Got(item, rest) => if SkipSpace(rest) == [] then Bad else Got(item, SkipSpace(rest))
  }

  /** The items of an array, after its bracket or a comma. */
  function ParseItems(t: string, depth: nat, limit: nat, done: seq<Json>): (r: Parsed<Json>)
    ensures r.Got? ==> |r.rest| < |t|
    decreases |t|, 2
  {
    match ParseItem(t, depth, limit)
    case Bad => Bad
    case Got(item, rest) => ItemsAfter(rest, depth, limit, done + [item])
  }

  /** After an item: the next, or the end of the array. */
  function ItemsAfter(t: string, depth: nat, limit: nat, done: seq<Json>): (r: Parsed<Json>)
    requires t != []
    ensures r.Got? ==> |r.rest| < |t|
    decreases |t|
  {
    if t[0] == ',' then ParseItems(t[1..], depth, limit, done)
    else if t[0] == ']' then Got(Arr(done), t[1..])
    else Bad
  }

  /** The name and colon that begin a member. */
  function ParseName(t: string): (r: Parsed<Text>)
    ensures r.Got? ==> |r.rest| < |t|
  {
    var u := SkipSpace(t);
    if u == [] || u[0] != '"' then Bad
    else
      match ParseChars(u[1..], [])
      case Bad => Bad
      case Got(name, rest) =>
        var v := SkipSpace(rest);
        if v == [] || v[0] != ':' then Bad else Got(name, SkipSpace(v[1..]))
  }

  /** One member of an object, and what follows it. */
  function ParseMember(t: string, depth: nat, limit: nat): (r: Parsed<Member>)
    ensures r.Got? ==> |r.rest| < |t| && r.rest != []
    decreases |t|, 1
  {
    match ParseName(t)
    case Bad => Bad
    case Got(name, ahead) =>
      match ParseValue(ahead, depth + 1, limit)
      case Bad => Bad
      case Got(value, rest) => if SkipSpace(rest) == [] then Bad else Got(Member(name, value), SkipSpace(rest))
  }

  /** The members of an object, after its brace or a comma. */
  function ParseMembers(t: string, depth: nat, limit: nat, done: seq<Member>): (r: Parsed<Json>)
    ensures r.Got? ==> |r.rest| < |t|
    decreases |t|, 2
  {
    match ParseMember(t, depth, limit)
    case Bad => Bad
    case Got(m, rest) => MembersAfter(rest, depth, limit, SetMember(done, m.name, m.value))
  }

  /** After a member: the next, or the end of the object. */
  function MembersAfter(t: string, depth: nat, limit: nat, done: seq<Member>): (r: Parsed<Json>)
    requires t != []
    ensures r.Got? ==> |r.rest| < |t|
    decreases |t|
  {
    if t[0] == ',' then ParseMembers(t[1..], depth, limit, done)
    else if t[0] == '}' then Got(Obj(done), t[1..])
    else Bad
  }

  /** A name met again keeps its place and takes the last value. */
  function SetMember(members: seq<Member>, name: Text, value: Json): seq<Member> {
    if members == [] then [Member(name, value)]
    else if members[0].name == name then [Member(name, value)] + members[1..]
    else [members[0]] + SetMember(members[1..], name, value)
  }

  /** parse_json */
  function ParseDocument(t: string, limit: nat): Parsed<Json> {
    if t != [] && t[0] as int == 0xFEFF then Bad
    else
      match ParseValue(SkipSpace(t), 0, limit)
      case Bad => Bad
      case Got(value, rest) => if SkipSpace(rest) == [] then Got(value, []) else Bad
  }

  // --- dump_json ------------------------------------------------------------------------------------

  /** Values that have a text: numbers are JSON numbers, and strings and names hold scalar values. */
  predicate Writable(v: Json) {
    match v
    case Null => true
    case Bool(_) => true
    case Num(lexeme, _) => IsJsonNumber(lexeme)
    case Str(text) => AllScalar(text)
    case Arr(items) => forall i :: 0 <= i < |items| ==> Writable(items[i])
    case Obj(members) => forall i :: 0 <= i < |members| ==> AllScalar(members[i].name) && Writable(members[i].value)
  }

  function Dump(v: Json): string
    requires Writable(v)
  {
    match v
    case Null => "null"
    case Bool(truth) => if truth then "true" else "false"
    case Num(lexeme, _) => lexeme
    case Str(text) => Quoted(Chars(text))
    case Arr(items) => "[" + DumpItems(items) + "]"
    case Obj(members) => "{" + DumpMembers(members) + "}"
  }

  function DumpItems(items: seq<Json>): string
    requires forall i :: 0 <= i < |items| ==> Writable(items[i])
  {
    if items == [] then []
    else if |items| == 1 then Dump(items[0])
    else Dump(items[0]) + "," + DumpItems(items[1..])
  }

  function DumpMember(m: Member): string
    requires AllScalar(m.name) && Writable(m.value)
  {
    Quoted(Chars(m.name)) + ":" + Dump(m.value)
  }

  function DumpMembers(members: seq<Member>): string
    requires forall i :: 0 <= i < |members| ==> AllScalar(members[i].name) && Writable(members[i].value)
  {
    if members == [] then []
    else if |members| == 1 then DumpMember(members[0])
    else DumpMember(members[0]) + "," + DumpMembers(members[1..])
  }
}
