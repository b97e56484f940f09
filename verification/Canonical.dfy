/** The canonical encoding (cpp/src/canonical.cpp:17-131). NFC is a function of the model's caller: nothing is used of
    it but what a lemma says it needs. */
module Canonical {
  import opened Collections
  import opened Outcomes
  import opened DecimalText
  import opened Names
  import opened Json
  import opened JsonRoundTrip

  type Normaliser = string -> string

  // --- what a value means ---------------------------------------------------------------------------

  /** A value up to what the encoding ignores: integers by value, texts after NFC, and an object as a map. */
  datatype Value =
    | VNull
    | VBool(truth: bool)
    | VInt(n: int)
    | VStr(text: string)
    | VArr(items: seq<Value>)
    | VObj(members: map<string, Value>)

  // --- integers -------------------------------------------------------------------------------------

  /** An optional minus and digits: what std::from_chars reads to its end. */
  predicate IsIntText(s: string) {
    if s != [] && s[0] == '-' then s[1..] != [] && AllDigits(s[1..]) else s != [] && AllDigits(s)
  }

  function IntOf(s: string): int
    requires IsIntText(s)
  {
    if s[0] == '-' then 0 - DecVal(s[1..]) else DecVal(s)
  }

  predicate InInt64(n: int) { -0x8000_0000_0000_0000 <= n < 0x8000_0000_0000_0000 }

  /** std::to_string of a 64-bit integer. */
  function IntText(n: int): string { if n < 0 then "-" + ToDec(0 - n) else ToDec(n) }

  lemma IntTextReads(n: int)
    ensures IsIntText(IntText(n)) && IntOf(IntText(n)) == n
    ensures IsJsonNumber(IntText(n)) && IntegerLexeme(IntText(n))
  {
    var d := ToDec(if n < 0 then 0 - n else n);
    DecValToDec(if n < 0 then 0 - n else n);
    ToDecCanonical(if n < 0 then 0 - n else n);
    assert IntText(n) == if n < 0 then "-" + d else d;
    assert n < 0 ==> IntText(n)[1..] == d;
    NumeralIsUnsigned(d);
    assert forall i :: 0 <= i < |d| ==> IsDigit(d[i]);
  }

  lemma NumeralIsUnsigned(d: string)
    requires DecimalText.Canonical(d)
    ensures IsUnsigned(d) && d[0] != '-'
  {
    AllDigitsIff(d);
    assert d[|d|..] == [];
    assert d[0] == '0' ==> d[1..] == [];
  }

  // --- meaning --------------------------------------------------------------------------------------

  predicate NamesScalar(members: seq<Member>) { forall i :: 0 <= i < |members| ==> AllScalar(members[i].name) }

  function NormalName(nfc: Normaliser, m: Member): string
    requires AllScalar(m.name)
  {
    nfc(Chars(m.name))
  }

  /** No two names are the same after NFC. */
  predicate NoRepeat(nfc: Normaliser, members: seq<Member>)
    requires NamesScalar(members)
  {
    forall i, j {:trigger Apart(nfc, members, i, j)} :: 0 <= i < j < |members| ==> Apart(nfc, members, i, j)
  }

  predicate Apart(nfc: Normaliser, members: seq<Member>, i: nat, j: nat)
    requires NamesScalar(members) && i < |members| && j < |members|
  {
    NormalName(nfc, members[i]) != NormalName(nfc, members[j])
  }

  /** What the encoder takes. */
  predicate Encodable(nfc: Normaliser, v: Json) {
    match v
    case Null => true
    case Bool(_) => true
    case Num(lexeme, integer) => integer && IsIntText(lexeme) && InInt64(IntOf(lexeme))
    case Str(text) => AllScalar(text)
    case Arr(items) => forall i :: 0 <= i < |items| ==> Encodable(nfc, items[i])
    case Obj(members) =>
      NamesScalar(members) && NoRepeat(nfc, members) &&
      forall i :: 0 <= i < |members| ==> Encodable(nfc, members[i].value)
  }

  function NormalNames(nfc: Normaliser, members: seq<Member>): (names: set<string>)
    requires NamesScalar(members)
  {
    set i | 0 <= i < |members| :: NormalName(nfc, members[i])
  }

  /** Where a name stands. */
  function At(nfc: Normaliser, members: seq<Member>, name: string): (i: nat)
    requires NamesScalar(members) && name in NormalNames(nfc, members)
    ensures i < |members| && NormalName(nfc, members[i]) == name
  {
    if NormalName(nfc, members[0]) == name then 0
    else
      assert name in NormalNames(nfc, members[1..]) by {
        var i :| 0 <= i < |members| && NormalName(nfc, members[i]) == name;
        assert members[1..][i - 1] == members[i];
      }
      1 + At(nfc, members[1..], name)
  }

  function Meaning(nfc: Normaliser, v: Json): Value
    requires Encodable(nfc, v)
  {
    match v
    case Null => VNull
    case Bool(truth) => VBool(truth)
    case Num(lexeme, _) => VInt(IntOf(lexeme))
    case Str(text) => VStr(nfc(Chars(text)))
    case Arr(items) => VArr(MeaningItems(nfc, items))
    case Obj(members) => VObj(MeaningMembers(nfc, members))
  }

  function MeaningItems(nfc: Normaliser, items: seq<Json>): (r: seq<Value>)
    requires forall i :: 0 <= i < |items| ==> Encodable(nfc, items[i])
    ensures |r| == |items| && forall i :: 0 <= i < |r| ==> r[i] == Meaning(nfc, items[i])
  {
    if items == [] then [] else [Meaning(nfc, items[0])] + MeaningItems(nfc, items[1..])
  }

  function MeaningMembers(nfc: Normaliser, members: seq<Member>): (r: map<string, Value>)
    requires NamesScalar(members) && forall i :: 0 <= i < |members| ==> Encodable(nfc, members[i].value)
    ensures r.Keys == NormalNames(nfc, members)
    ensures forall name :: name in r ==> r[name] == Meaning(nfc, members[At(nfc, members, name)].value)
  {
    map name | name in NormalNames(nfc, members) :: Meaning(nfc, members[At(nfc, members, name)].value)
  }

  // --- the tree of a meaning ------------------------------------------------------------------------

  /** The value written down: integers in their shortest form, members in the order of their names. */
  function Tree(m: Value): (v: Json)
    ensures Writable(v)
    decreases m, 1, 0
  {
    match m
    case VNull => Null
    case VBool(truth) => Bool(truth)
    case VInt(n) =>
      IntTextReads(n);
      Num(IntText(n), true)
    case VStr(text) =>
      CharsPoints(text);
      Str(Points(text))
    case VArr(items) => Arr(TreeItems(items))
    case VObj(members) => Obj(TreeMembers(members, Sorted(members.Keys)))
  }

  function TreeItems(items: seq<Value>): (r: seq<Json>)
    ensures |r| == |items| && forall i :: 0 <= i < |r| ==> Writable(r[i]) && r[i] == Tree(items[i])
    decreases items, 0, 0
  {
    if items == [] then [] else [Tree(items[0])] + TreeItems(items[1..])
  }

  predicate Listed(members: map<string, Value>, order: seq<string>) {
    forall i :: 0 <= i < |order| ==> order[i] in members
  }

  function TreeMembers(members: map<string, Value>, order: seq<string>): (r: seq<Member>)
    requires Listed(members, order)
    ensures |r| == |order| && NamesScalar(r)
    ensures forall i :: 0 <= i < |r| ==> Writable(r[i].value)
    ensures forall i :: 0 <= i < |r| ==> r[i].name == Points(order[i]) && r[i].value == Tree(members[order[i]])
    decreases VObj(members), 0, |order|
  {
    if order == [] then []
    else
      CharsPoints(order[0]);
      [Member(Points(order[0]), Tree(members[order[0]]))] + TreeMembers(members, order[1..])
  }

  lemma PointsInjective(a: string, b: string)
    requires Points(a) == Points(b)
    ensures a == b
  {
    CharsPoints(a);
    CharsPoints(b);
  }

  lemma {:induction false} TreeTidy(m: Value)
    ensures Tidy(Tree(m))
    decreases m
  {
    match m
    case VInt(n) => IntTextReads(n);
    case VArr(items) =>
      forall i | 0 <= i < |items|
        ensures Tidy(Tree(items[i]))
      {
        TreeTidy(items[i]);
      }
    case VObj(members) =>
      var order := Sorted(members.Keys);
      var r := TreeMembers(members, order);
      SortedAscending(members.Keys);
      TreeNamesDistinct(members, order);
      forall i | 0 <= i < |r|
        ensures Tidy(r[i].value)
      {
        TreeTidy(members[order[i]]);
      }
    case _ =>
  }

  lemma TreeNamesDistinct(members: map<string, Value>, order: seq<string>)
    requires Ascending(order) && Listed(members, order)
    ensures DistinctNames(TreeMembers(members, order))
  {
    var r := TreeMembers(members, order);
    forall i, j | 0 <= i < j < |r|
      ensures Differ(r, i, j)
    {
      LessAsymmetric(order[i], order[j]);
      if Points(order[i]) == Points(order[j]) {
        PointsInjective(order[i], order[j]);
      }
    }
  }

  /** Different meanings are written differently. */
  lemma {:induction false} TreeInjective(a: Value, b: Value)
    requires Tree(a) == Tree(b)
    ensures a == b
    decreases a
  {
    match a
    case VInt(n) =>
      IntTextReads(n);
      IntTextReads(b.n);
    case VStr(text) => PointsInjective(text, b.text);
    case VArr(items) =>
      assert |items| == |b.items|;
      forall i | 0 <= i < |items|
        ensures items[i] == b.items[i]
      {
        assert Tree(a).items[i] == Tree(b).items[i];
        TreeInjective(items[i], b.items[i]);
      }
    case VObj(members) => TreeMembersInjective(members, Sorted(members.Keys), b.members, Sorted(b.members.Keys));
    case _ =>
  }

  lemma {:induction false} TreeMembersInjective(a: map<string, Value>, p: seq<string>, b: map<string, Value>,
                                                q: seq<string>)
    requires AsSet(p) == a.Keys && AsSet(q) == b.Keys && Listed(a, p) && Listed(b, q)
    requires TreeMembers(a, p) == TreeMembers(b, q)
    ensures a == b
    decreases VObj(a), 0
  {
    SameOrder(a, p, b, q);
    forall k | k in a
      ensures a[k] == b[k]
    {
      assert k in AsSet(p);
      var i :| 0 <= i < |p| && p[i] == k;
      assert TreeMembers(a, p)[i] == TreeMembers(b, p)[i];
      TreeInjective(a[k], b[k]);
    }
  }

  lemma SameOrder(a: map<string, Value>, p: seq<string>, b: map<string, Value>, q: seq<string>)
    requires Listed(a, p) && Listed(b, q) && TreeMembers(a, p) == TreeMembers(b, q)
    ensures p == q
  {
    var r, s := TreeMembers(a, p), TreeMembers(b, q);
    assert |p| == |r| == |s| == |q|;
    forall i | 0 <= i < |p|
      ensures p[i] == q[i]
    {
      assert r[i] == s[i];
      PointsInjective(p[i], q[i]);
    }
  }

  // --- the encoder ----------------------------------------------------------------------------------

  function Then(a: Outcome<string>, b: Outcome<string>): Outcome<string> {
    if a.Accepted? && b.Accepted? then Accepted(a.value + "," + b.value) else Refused
  }

  function Between(open: string, r: Outcome<string>, close: string): Outcome<string> {
    if r.Accepted? then Accepted(open + r.value + close) else Refused
  }

  /** canonical_bytes: encode, refusing floats, integers past 64 bits, text that is not scalar, and names that NFC makes
      the same. */
  function Encode(nfc: Normaliser, v: Json): Outcome<string>
    decreases v, 1, 0
  {
    match v
    case Null => Accepted("null")
    case Bool(truth) => Accepted(if truth then "true" else "false")
    case Num(lexeme, integer) =>
      if !integer then Refused
      else if !(IsIntText(lexeme) && InInt64(IntOf(lexeme))) then Refused
      else Accepted(IntText(IntOf(lexeme)))
    case Str(text) => if AllScalar(text) then Accepted(Quoted(nfc(Chars(text)))) else Refused
    case Arr(items) => Between("[", EncodeItems(nfc, items), "]")
    case Obj(members) => EncodeObject(nfc, members)
  }

  function EncodeObject(nfc: Normaliser, members: seq<Member>): Outcome<string>
    decreases members, 1, 0
  {
    if !NamesScalar(members) || !NoRepeat(nfc, members) then Refused
    else Between("{", EncodeMembers(nfc, members, Sorted(NormalNames(nfc, members))), "}")
  }

  function EncodeItems(nfc: Normaliser, items: seq<Json>): Outcome<string>
    decreases items, 0, 0
  {
    if items == [] then Accepted([])
    else if |items| == 1 then Encode(nfc, items[0])
    else Then(Encode(nfc, items[0]), EncodeItems(nfc, items[1..]))
  }

  /** The members in this order of their names. */
  function EncodeMembers(nfc: Normaliser, members: seq<Member>, order: seq<string>): Outcome<string>
    requires NamesScalar(members) && forall i :: 0 <= i < |order| ==> order[i] in NormalNames(nfc, members)
    decreases members, 0, |order|
  {
    if order == [] then Accepted([])
    else
      var first := EncodeMember(nfc, members, order[0]);
      if |order| == 1 then first else Then(first, EncodeMembers(nfc, members, order[1..]))
  }

  function EncodeMember(nfc: Normaliser, members: seq<Member>, name: string): Outcome<string>
    requires NamesScalar(members) && name in NormalNames(nfc, members)
    decreases members, 0, 0
  {
    match Encode(nfc, members[At(nfc, members, name)].value)
    case Refused => Refused
    case Accepted(value) => Accepted(Quoted(name) + ":" + value)
  }

  // --- the encoding writes the meaning --------------------------------------------------------------

  /** The encoder takes exactly the encodable values, and writes the text of what a value means. */
  lemma {:induction false} EncodeWritesMeaning(nfc: Normaliser, v: Json)
    ensures Encode(nfc, v) == if Encodable(nfc, v) then Accepted(Dump(Tree(Meaning(nfc, v)))) else Refused
    decreases v, 1, 0
  {
    match v
    case Str(text) =>
      if AllScalar(text) {
        CharsPoints(nfc(Chars(text)));
      }
    case Arr(items) => EncodeItemsWrites(nfc, items);
    case Obj(members) =>
      if NamesScalar(members) && NoRepeat(nfc, members) {
        EncodeObjectWrites(nfc, members);
      }
    case _ =>
  }

  lemma {:induction false} EncodeItemsWrites(nfc: Normaliser, items: seq<Json>)
    ensures EncodeItems(nfc, items) ==
            if forall i :: 0 <= i < |items| ==> Encodable(nfc, items[i])
            then Accepted(DumpItems(TreeItems(MeaningItems(nfc, items)))) else Refused
    decreases items, 0, 0
  {
    if items != [] {
      EncodeWritesMeaning(nfc, items[0]);
      EncodeItemsWrites(nfc, items[1..]);
      AllEncodableTail(nfc, items);
      if forall i :: 0 <= i < |items| ==> Encodable(nfc, items[i]) {
        var ms := MeaningItems(nfc, items);
        assert ms[1..] == MeaningItems(nfc, items[1..]);
        assert TreeItems(ms)[1..] == TreeItems(ms[1..]);
      }
    }
  }

  lemma AllEncodableTail(nfc: Normaliser, items: seq<Json>)
    requires items != []
    ensures (forall i :: 0 <= i < |items| ==> Encodable(nfc, items[i])) <==>
            Encodable(nfc, items[0]) && forall i :: 0 <= i < |items[1..]| ==> Encodable(nfc, items[1..][i])
  {
    if Encodable(nfc, items[0]) && forall i :: 0 <= i < |items[1..]| ==> Encodable(nfc, items[1..][i]) {
      forall i | 0 <= i < |items|
        ensures Encodable(nfc, items[i])
      {
        assert i > 0 ==> items[i] == items[1..][i - 1];
      }
    }
  }

  ghost predicate ValuesEncodable(nfc: Normaliser, members: seq<Member>) {
    forall i :: 0 <= i < |members| ==> Encodable(nfc, members[i].value)
  }

  lemma {:induction false} EncodeObjectWrites(nfc: Normaliser, members: seq<Member>)
    requires NamesScalar(members) && NoRepeat(nfc, members)
    ensures EncodeObject(nfc, members) ==
            if ValuesEncodable(nfc, members) then Accepted(Dump(Tree(Meaning(nfc, Obj(members))))) else Refused
    decreases members, 0, 2
  {
    var order := Sorted(NormalNames(nfc, members));
    if ValuesEncodable(nfc, members) {
      EncodeMembersWrites(nfc, members, order);
      ObjectTree(nfc, members, order);
    } else {
      SomeMemberRefuses(nfc, members, order);
    }
  }

  lemma {:induction false} ObjectTree(nfc: Normaliser, members: seq<Member>, order: seq<string>)
    requires NamesScalar(members) && NoRepeat(nfc, members) && order == Sorted(NormalNames(nfc, members))
    requires ValuesEncodable(nfc, members)
    ensures Tree(Meaning(nfc, Obj(members))) == Obj(TreeMembers(MeaningMembers(nfc, members), order))
  {
    assert Meaning(nfc, Obj(members)) == VObj(MeaningMembers(nfc, members));
    TreeOfMap(MeaningMembers(nfc, members), order);
  }

  lemma {:induction false} TreeOfMap(members: map<string, Value>, order: seq<string>)
    requires order == Sorted(members.Keys)
    ensures Tree(VObj(members)) == Obj(TreeMembers(members, order))
  {
  }

  lemma {:induction false} SomeMemberRefuses(nfc: Normaliser, members: seq<Member>, order: seq<string>)
    requires NamesScalar(members) && NoRepeat(nfc, members) && !ValuesEncodable(nfc, members)
    requires forall i :: 0 <= i < |order| ==> order[i] in NormalNames(nfc, members)
    requires AsSet(order) == NormalNames(nfc, members)
    ensures EncodeMembers(nfc, members, order) == Refused
    decreases members, 0, 1
  {
    var i :| 0 <= i < |members| && !Encodable(nfc, members[i].value);
    NameStands(nfc, members, i);
    var name := NormalName(nfc, members[i]);
    assert name in AsSet(order);
    var k :| 0 <= k < |order| && order[k] == name;
    EncodeMembersRefuses(nfc, members, order, k);
  }

  /** With no name repeated, a member stands where its name is found. */
  lemma NameStands(nfc: Normaliser, members: seq<Member>, i: nat)
    requires NamesScalar(members) && NoRepeat(nfc, members) && i < |members|
    ensures NormalName(nfc, members[i]) in NormalNames(nfc, members)
    ensures At(nfc, members, NormalName(nfc, members[i])) == i
  {
    var j := At(nfc, members, NormalName(nfc, members[i]));
    assert j < i ==> Apart(nfc, members, j, i);
    assert i < j ==> Apart(nfc, members, i, j);
  }

  lemma {:induction false} EncodeMembersWrites(nfc: Normaliser, members: seq<Member>, order: seq<string>)
    requires NamesScalar(members) && ValuesEncodable(nfc, members)
    requires forall i :: 0 <= i < |order| ==> order[i] in NormalNames(nfc, members)
    ensures EncodeMembers(nfc, members, order) ==
            Accepted(DumpMembers(TreeMembers(MeaningMembers(nfc, members), order)))
    decreases members, 0, 0, |order|
  {
    if order != [] {
      var ms := MeaningMembers(nfc, members);
      var value := members[At(nfc, members, order[0])].value;
      EncodeWritesMeaning(nfc, value);
      CharsPoints(order[0]);
      assert ms[order[0]] == Meaning(nfc, value);
      EncodeMembersWrites(nfc, members, order[1..]);
      assert TreeMembers(ms, order)[1..] == TreeMembers(ms, order[1..]);
    }
  }

  lemma {:induction false} EncodeMembersRefuses(nfc: Normaliser, members: seq<Member>, order: seq<string>, k: nat)
    requires NamesScalar(members) && forall i :: 0 <= i < |order| ==> order[i] in NormalNames(nfc, members)
    requires k < |order| && !Encodable(nfc, members[At(nfc, members, order[k])].value)
    ensures EncodeMembers(nfc, members, order) == Refused
    decreases members, 0, 0, |order|
  {
    if k == 0 {
      EncodeWritesMeaning(nfc, members[At(nfc, members, order[0])].value);
    } else {
      EncodeMembersRefuses(nfc, members, order[1..], k - 1);
    }
  }

  // --- equal bytes, equal meanings ------------------------------------------------------------------

  lemma {:induction false} WithinMore(v: Json, depth: nat, low: nat, high: nat)
    requires Within(v, depth, low) && low <= high
    ensures Within(v, depth, high)
    decreases v
  {
    match v
    case Arr(items) =>
      forall i | 0 <= i < |items|
        ensures Within(items[i], depth + 1, high)
      {
        WithinMore(items[i], depth + 1, low, high);
      }
    case Obj(members) =>
      forall i | 0 <= i < |members|
        ensures Within(members[i].value, depth + 1, high)
      {
        WithinMore(members[i].value, depth + 1, low, high);
      }
    case _ =>
  }

  /** Every value nests within some limit. */
  lemma {:induction false} SomeLimit(v: Json, depth: nat) returns (limit: nat)
    ensures limit >= depth && Within(v, depth, limit)
    decreases v, 1
  {
    match v
    case Arr(items) => limit := ItemsLimit(items, depth + 1);
    case Obj(members) => limit := MembersLimit(members, depth + 1);
    case _ => limit := depth;
  }

  lemma {:induction false} ItemsLimit(items: seq<Json>, depth: nat) returns (limit: nat)
    ensures limit >= depth && AllWithin(items, depth, limit)
    decreases items, 0
  {
    limit := depth;
    if items != [] {
      var first := SomeLimit(items[0], depth);
      var rest := ItemsLimit(items[1..], depth);
      limit := if first < rest then rest else first;
      WithinMore(items[0], depth, first, limit);
      forall i | 0 <= i < |items|
        ensures Within(items[i], depth, limit)
      {
        if i > 0 {
          assert items[i] == items[1..][i - 1];
          WithinMore(items[i], depth, rest, limit);
        }
      }
    }
  }

  lemma {:induction false} MembersLimit(members: seq<Member>, depth: nat) returns (limit: nat)
    ensures limit >= depth && MembersWithin(members, depth, limit)
    decreases members, 0
  {
    limit := depth;
    if members != [] {
      var first := SomeLimit(members[0].value, depth);
      var rest := MembersLimit(members[1..], depth);
      limit := if first < rest then rest else first;
      WithinMore(members[0].value, depth, first, limit);
      forall i | 0 <= i < |members|
        ensures Within(members[i].value, depth, limit)
      {
        if i > 0 {
          assert members[i] == members[1..][i - 1];
          WithinMore(members[i].value, depth, rest, limit);
        }
      }
    }
  }

  lemma SameTextSameMeaning(a: Value, b: Value)
    requires Dump(Tree(a)) == Dump(Tree(b))
    ensures a == b
  {
    var x := SomeLimit(Tree(a), 0);
    var y := SomeLimit(Tree(b), 0);
    var limit := if x < y then y else x;
    WithinMore(Tree(a), 0, x, limit);
    WithinMore(Tree(b), 0, y, limit);
    TreeTidy(a);
    TreeTidy(b);
    DumpInjective(Tree(a), Tree(b), limit);
    TreeInjective(a, b);
  }

  /** Two encodable values have the same bytes exactly when they mean the same. */
  lemma SameBytesIff(nfc: Normaliser, v: Json, w: Json)
    requires Encodable(nfc, v) && Encodable(nfc, w)
    ensures Encode(nfc, v) == Encode(nfc, w) <==> Meaning(nfc, v) == Meaning(nfc, w)
  {
    EncodeWritesMeaning(nfc, v);
    EncodeWritesMeaning(nfc, w);
    if Encode(nfc, v) == Encode(nfc, w) {
      SameTextSameMeaning(Meaning(nfc, v), Meaning(nfc, w));
    }
  }

  // --- parsing the bytes and encoding again ---------------------------------------------------------

  ghost predicate Idempotent(nfc: Normaliser) { forall s :: nfc(nfc(s)) == nfc(s) }

  /** Every text of the value is normalised, and every integer has 64 bits. */
  ghost predicate Normal(nfc: Normaliser, m: Value) {
    match m
    case VInt(n) => InInt64(n)
    case VStr(text) => nfc(text) == text
    case VArr(items) => forall i :: 0 <= i < |items| ==> Normal(nfc, items[i])
    case VObj(members) => forall k :: k in members ==> nfc(k) == k && Normal(nfc, members[k])
    case _ => true
  }

  lemma {:induction false} MeaningIsNormal(nfc: Normaliser, v: Json)
    requires Idempotent(nfc) && Encodable(nfc, v)
    ensures Normal(nfc, Meaning(nfc, v))
    decreases v
  {
    match v
    case Arr(items) =>
      forall i | 0 <= i < |items|
        ensures Normal(nfc, Meaning(nfc, items[i]))
      {
        MeaningIsNormal(nfc, items[i]);
      }
    case Obj(members) =>
      forall k | k in NormalNames(nfc, members)
        ensures nfc(k) == k && Normal(nfc, MeaningMembers(nfc, members)[k])
      {
        MeaningIsNormal(nfc, members[At(nfc, members, k)].value);
      }
    case _ =>
  }

  /** A normalised value, written down, means itself. */
  lemma {:induction false} TreeMeans(nfc: Normaliser, m: Value)
    requires Normal(nfc, m)
    ensures Encodable(nfc, Tree(m)) && Meaning(nfc, Tree(m)) == m
    decreases m
  {
    match m
    case VInt(n) => IntTextReads(n);
    case VStr(text) => CharsPoints(text);
    case VArr(items) =>
      forall i | 0 <= i < |items|
        ensures Encodable(nfc, Tree(items[i])) && Meaning(nfc, Tree(items[i])) == items[i]
      {
        TreeMeans(nfc, items[i]);
      }
      assert MeaningItems(nfc, TreeItems(items)) == items;
    case VObj(members) =>
      SortedAscending(members.Keys);
      TreeObjectMeans(nfc, members, Sorted(members.Keys));
    case _ =>
  }

  lemma {:induction false} TreeObjectMeans(nfc: Normaliser, members: map<string, Value>, order: seq<string>)
    requires Normal(nfc, VObj(members)) && Ascending(order) && AsSet(order) == members.Keys && Listed(members, order)
    ensures Encodable(nfc, Obj(TreeMembers(members, order)))
    ensures Meaning(nfc, Obj(TreeMembers(members, order))) == VObj(members)
    decreases VObj(members), 0
  {
    var r := TreeMembers(members, order);
    forall i | 0 <= i < |r|
      ensures NormalName(nfc, r[i]) == order[i]
      ensures Encodable(nfc, r[i].value) && Meaning(nfc, r[i].value) == members[order[i]]
    {
      CharsPoints(order[i]);
      assert order[i] in members;
      TreeMeans(nfc, members[order[i]]);
    }
    MembersMean(nfc, r, members, order);
  }

  lemma {:induction false} MembersMean(nfc: Normaliser, r: seq<Member>, members: map<string, Value>, order: seq<string>)
    requires |r| == |order| && NamesScalar(r) && Ascending(order) && AsSet(order) == members.Keys
    requires forall i :: 0 <= i < |r| ==> NormalName(nfc, r[i]) == order[i] && order[i] in members
    requires forall i :: 0 <= i < |r| ==> Encodable(nfc, r[i].value) && Meaning(nfc, r[i].value) == members[order[i]]
    ensures Encodable(nfc, Obj(r)) && Meaning(nfc, Obj(r)) == VObj(members)
  {
    TreeNamesApart(nfc, r, order);
    SameNameSet(nfc, r, order);
    forall k | k in members
      ensures MeaningMembers(nfc, r)[k] == members[k]
    {
      var i := At(nfc, r, k);
      assert order[i] == k;
    }
    assert MeaningMembers(nfc, r) == members;
  }

  lemma TreeNamesApart(nfc: Normaliser, r: seq<Member>, order: seq<string>)
    requires Ascending(order) && |r| == |order| && NamesScalar(r)
    requires forall i :: 0 <= i < |r| ==> NormalName(nfc, r[i]) == order[i]
    ensures NoRepeat(nfc, r)
  {
    forall i, j | 0 <= i < j < |r|
      ensures Apart(nfc, r, i, j)
    {
      LessAsymmetric(order[i], order[j]);
    }
  }

  lemma SameNameSet(nfc: Normaliser, r: seq<Member>, order: seq<string>)
    requires |r| == |order| && NamesScalar(r)
    requires forall i :: 0 <= i < |r| ==> NormalName(nfc, r[i]) == order[i]
    ensures NormalNames(nfc, r) == AsSet(order)
  {
    forall k | k in AsSet(order)
      ensures k in NormalNames(nfc, r)
    {
      var i :| 0 <= i < |order| && order[i] == k;
      assert NormalName(nfc, r[i]) == k;
    }
  }

  /** A value nests as deeply as what it means. */
  lemma {:induction false} MeaningKeepsDepth(nfc: Normaliser, v: Json, depth: nat, limit: nat)
    requires Encodable(nfc, v)
    ensures Within(Tree(Meaning(nfc, v)), depth, limit) <==> Within(v, depth, limit)
    decreases v
  {
    match v
    case Arr(items) => ArrayKeepsDepth(nfc, items, depth, limit);
    case Obj(members) => ObjectKeepsDepth(nfc, members, depth, limit);
    case _ => ScalarTree(nfc, v);
  }

  lemma {:induction false} ScalarTree(nfc: Normaliser, v: Json)
    requires Encodable(nfc, v) && !v.Arr? && !v.Obj?
    ensures var w := Tree(Meaning(nfc, v)); !w.Arr? && !w.Obj?
  {
  }

  lemma {:induction false} ArrayKeepsDepth(nfc: Normaliser, items: seq<Json>, depth: nat, limit: nat)
    requires Encodable(nfc, Arr(items))
    ensures Within(Tree(Meaning(nfc, Arr(items))), depth, limit) <==> Within(Arr(items), depth, limit)
    decreases items, 1
  {
    ItemsKeepDepth(nfc, items, depth + 1, limit);
    assert Tree(Meaning(nfc, Arr(items))) == Arr(TreeItems(MeaningItems(nfc, items)));
    ArrayDepth(TreeItems(MeaningItems(nfc, items)), depth, limit);
    ArrayDepth(items, depth, limit);
  }

  lemma {:induction false} ArrayDepth(items: seq<Json>, depth: nat, limit: nat)
    ensures Within(Arr(items), depth, limit) <==> depth <= limit && AllWithin(items, depth + 1, limit)
  {
  }

  lemma {:induction false} ObjectKeepsDepth(nfc: Normaliser, members: seq<Member>, depth: nat, limit: nat)
    requires Encodable(nfc, Obj(members))
    ensures Within(Tree(Meaning(nfc, Obj(members))), depth, limit) <==> Within(Obj(members), depth, limit)
    decreases members, 1
  {
    var order := Sorted(NormalNames(nfc, members));
    MembersKeepDepth(nfc, members, order, depth + 1, limit);
    ObjectTree(nfc, members, order);
    ObjectDepth(TreeMembers(MeaningMembers(nfc, members), order), depth, limit);
    ObjectDepth(members, depth, limit);
  }

  lemma {:induction false} ObjectDepth(members: seq<Member>, depth: nat, limit: nat)
    ensures Within(Obj(members), depth, limit) <==> depth <= limit && MembersWithin(members, depth + 1, limit)
  {
  }

  lemma {:induction false} ItemsKeepDepth(nfc: Normaliser, items: seq<Json>, depth: nat, limit: nat)
    requires forall i :: 0 <= i < |items| ==> Encodable(nfc, items[i])
    ensures AllWithin(TreeItems(MeaningItems(nfc, items)), depth, limit) <==> AllWithin(items, depth, limit)
    decreases items, 0
  {
    var r := TreeItems(MeaningItems(nfc, items));
    forall i | 0 <= i < |items|
      ensures Within(r[i], depth, limit) <==> Within(items[i], depth, limit)
    {
      MeaningKeepsDepth(nfc, items[i], depth, limit);
    }
    assert |r| == |items|;
  }

  lemma {:induction false} MembersKeepDepth(nfc: Normaliser, members: seq<Member>, order: seq<string>, depth: nat,
                                            limit: nat)
    requires NamesScalar(members) && NoRepeat(nfc, members) && ValuesEncodable(nfc, members)
    requires AsSet(order) == NormalNames(nfc, members) && forall i :: 0 <= i < |order| ==> order[i] in AsSet(order)
    ensures Listed(MeaningMembers(nfc, members), order)
    ensures MembersWithin(TreeMembers(MeaningMembers(nfc, members), order), depth, limit) <==>
            MembersWithin(members, depth, limit)
    decreases members, 0
  {
    var ms := MeaningMembers(nfc, members);
    var r := TreeMembers(ms, order);
    forall i | 0 <= i < |order|
      ensures Within(r[i].value, depth, limit) <==>
              Within(members[At(nfc, members, order[i])].value, depth, limit)
    {
      MeaningKeepsDepth(nfc, members[At(nfc, members, order[i])].value, depth, limit);
    }
    if MembersWithin(r, depth, limit) {
      forall j | 0 <= j < |members|
        ensures Within(members[j].value, depth, limit)
      {
        NameStands(nfc, members, j);
        assert NormalName(nfc, members[j]) in AsSet(order);
        var i :| 0 <= i < |order| && order[i] == NormalName(nfc, members[j]);
        assert Within(r[i].value, depth, limit);
      }
    }
  }

  /** The bytes of an encodable value can be parsed exactly when the value nests within the parser's limit; encoded
      again, what was parsed has the same bytes. */
  lemma EncodeParseEncode(nfc: Normaliser, v: Json)
    requires Idempotent(nfc) && Encodable(nfc, v)
    ensures Encode(nfc, v).Accepted?
    ensures ParseDocument(Encode(nfc, v).value, 512).Got? <==> Within(v, 0, 512)
    ensures Within(v, 0, 512) ==>
            Encode(nfc, ParseDocument(Encode(nfc, v).value, 512).value) == Encode(nfc, v)
  {
    var m := Meaning(nfc, v);
    EncodeWritesMeaning(nfc, v);
    MeaningKeepsDepth(nfc, v, 0, 512);
    ParseDumpedDocument(Tree(m), 512);
    TreeTidy(m);
    RereadSame(Tree(m));
    MeaningIsNormal(nfc, v);
    TreeMeans(nfc, m);
    EncodeWritesMeaning(nfc, Tree(m));
  }
}
