/** What the canonical bytes are, without reading the encoder: which values have them, what the bytes say, and that they
    are the shortest text that says it (cpp/src/canonical.cpp:50-123). */
module CanonicalText {
  import opened DecimalText
  import opened Collections
  import opened Names
  import opened Json
  import opened JsonRoundTrip
  import opened JsonShortest
  import opened Canonical

  // --- which values have canonical bytes ------------------------------------------------------------

  /** Text of Unicode scalar values: no surrogate stands in it. */
  predicate ScalarText(t: Text) { forall i :: 0 <= i < |t| ==> 0 <= t[i] < 0xD800 || 0xE000 <= t[i] <= 0x10FFFF }

  predicate IsNumeral(s: string) { s != [] && forall i :: 0 <= i < |s| ==> s[i] in "0123456789" }

  lemma NumeralIff(s: string)
    ensures IsNumeral(s) <==> s != [] && AllDigits(s)
  {
    if s != [] && AllDigits(s) {
      forall i | 0 <= i < |s|
        ensures s[i] in "0123456789"
      {
        assert s[i] == "0123456789"[s[i] as int - '0' as int];
      }
    }
  }

  /** An integer is written as digits, with a minus or without, and is the number the digits denote. */
  lemma IntegerText(s: string)
    ensures IsIntText(s) <==> IsNumeral(s) || (s != [] && s[0] == '-' && IsNumeral(s[1..]))
    ensures IsNumeral(s) ==> IsIntText(s) && IntOf(s) == DecVal(s)
    ensures s != [] && s[0] == '-' && IsNumeral(s[1..]) ==> AllDigits(s[1..]) && IntOf(s) + DecVal(s[1..]) == 0
  {
    NumeralIff(s);
    if s != [] {
      NumeralIff(s[1..]);
    }
  }

  /** Which values have canonical bytes, kind by kind. */
  lemma {:induction false} EncodesIff(nfc: Normaliser, v: Json)
    ensures v.Num? ==>
      (Encode(nfc, v).Accepted? <==>
       v.integer && IsIntText(v.lexeme) && -9223372036854775808 <= IntOf(v.lexeme) <= 9223372036854775807)
    ensures v.Str? ==> (Encode(nfc, v).Accepted? <==> ScalarText(v.text))
    ensures v.Arr? ==>
      (Encode(nfc, v).Accepted? <==> forall i :: 0 <= i < |v.items| ==> Encode(nfc, v.items[i]).Accepted?)
    ensures v.Obj? ==>
      (Encode(nfc, v).Accepted? <==>
       (forall i :: 0 <= i < |v.members| ==>
          ScalarText(v.members[i].name) && Encode(nfc, v.members[i].value).Accepted?) &&
       forall i, j :: 0 <= i < j < |v.members| ==>
         nfc(Chars(v.members[i].name)) != nfc(Chars(v.members[j].name)))
    ensures v.Null? || v.Bool? ==> Encode(nfc, v).Accepted?
  {
    match v
    case Arr(items) => ArrayEncodesIff(nfc, items);
    case Obj(members) => ObjectEncodesIff(nfc, members);
    case _ =>
  }

  lemma {:induction false} ArrayEncodesIff(nfc: Normaliser, items: seq<Json>)
    ensures Encode(nfc, Arr(items)).Accepted? <==> forall i :: 0 <= i < |items| ==> Encode(nfc, items[i]).Accepted?
  {
    EncodeWritesMeaning(nfc, Arr(items));
    forall i | 0 <= i < |items|
      ensures Encode(nfc, items[i]).Accepted? <==> Encodable(nfc, items[i])
    {
      EncodeWritesMeaning(nfc, items[i]);
    }
  }

  lemma {:induction false} ObjectEncodesIff(nfc: Normaliser, members: seq<Member>)
    ensures Encode(nfc, Obj(members)).Accepted? <==>
            (forall i :: 0 <= i < |members| ==>
               ScalarText(members[i].name) && Encode(nfc, members[i].value).Accepted?) &&
            forall i, j :: 0 <= i < j < |members| ==>
              nfc(Chars(members[i].name)) != nfc(Chars(members[j].name))
  {
    EncodeWritesMeaning(nfc, Obj(members));
    forall i | 0 <= i < |members|
      ensures MemberEncodes(nfc, members[i]) <==> AllScalar(members[i].name) && Encodable(nfc, members[i].value)
    {
      EncodeWritesMeaning(nfc, members[i].value);
    }
    assert (forall i :: 0 <= i < |members| ==> MemberEncodes(nfc, members[i])) <==>
           NamesScalar(members) && ValuesEncodable(nfc, members);
    if NamesScalar(members) {
      ApartIff(nfc, members);
    }
  }

  predicate MemberEncodes(nfc: Normaliser, m: Member) {
    ScalarText(m.name) && Encode(nfc, m.value).Accepted?
  }

  lemma ApartIff(nfc: Normaliser, members: seq<Member>)
    requires NamesScalar(members)
    ensures NoRepeat(nfc, members) <==>
            forall i, j :: 0 <= i < j < |members| ==> nfc(Chars(members[i].name)) != nfc(Chars(members[j].name))
  {
    forall i, j | 0 <= i < j < |members|
      ensures Apart(nfc, members, i, j) <==> nfc(Chars(members[i].name)) != nfc(Chars(members[j].name))
    {
    }
  }

  // --- what the bytes say ---------------------------------------------------------------------------

  /** The one text is less than the other at the first code point where they differ, or because it ends there. */
  ghost predicate LessText(a: Text, b: Text) { exists n: nat :: LessAt(a, b, n) }

  ghost predicate LessAt(a: Text, b: Text, n: nat) {
    n <= |a| && n < |b| && a[..n] == b[..n] && (n == |a| || a[n] < b[n])
  }

  /** What the canonical bytes of a value say: integers in their shortest form, texts and names after NFC, and the
      members of an object in the order of their names. */
  ghost predicate Normalised(nfc: Normaliser, v: Json, w: Json)
    decreases v
  {
    match v
    case Null => w == Null
    case Bool(truth) => w == Bool(truth)
    case Num(lexeme, _) => w.Num? && w.integer && IsIntText(lexeme) && IsShortestInt(w.lexeme, IntOf(lexeme))
    case Str(text) => AllScalar(text) && w == Str(Points(nfc(Chars(text))))
    case Arr(items) =>
      w.Arr? && |w.items| == |items| && forall i :: 0 <= i < |items| ==> Normalised(nfc, items[i], w.items[i])
    case Obj(members) =>
      w.Obj? && |w.members| == |members| &&
      InNameOrder(w.members) && forall i :: 0 <= i < |members| ==> StandsIn(nfc, members[i], w.members)
  }

  /** A member stands among the others under its name after NFC, with its value normalised. */
  ghost predicate StandsIn(nfc: Normaliser, m: Member, r: seq<Member>)
    decreases m
  {
    exists j :: 0 <= j < |r| && Renamed(nfc, m.name, r[j].name) && Normalised(nfc, m.value, r[j].value)
  }

  ghost predicate InNameOrder(r: seq<Member>) {
    forall i, j :: 0 <= i < j < |r| ==> LessText(r[i].name, r[j].name)
  }

  ghost predicate Renamed(nfc: Normaliser, name: Text, to: Text) {
    AllScalar(name) && to == Points(nfc(Chars(name)))
  }

  /** No plus, no leading zero, and no minus before a zero. */
  ghost predicate IsShortestInt(s: string, n: int) {
    IsIntText(s) && IntOf(s) == n && forall t :: IsIntText(t) && IntOf(t) == n ==> |s| <= |t|
  }

  lemma IntTextIsShortest(n: int)
    ensures IsShortestInt(IntText(n), n)
  {
    IntTextReads(n);
    forall t | IsIntText(t) && IntOf(t) == n
      ensures |IntText(n)| <= |t|
    {
      ToDecOfDigits(if t[0] == '-' then t[1..] else t);
    }
  }

  lemma {:induction false} NormalisedTree(nfc: Normaliser, v: Json)
    requires Encodable(nfc, v)
    ensures Normalised(nfc, v, Tree(Meaning(nfc, v)))
    decreases v, 1
  {
    match v
    case Num(lexeme, _) => IntTextIsShortest(IntOf(lexeme));
    case Arr(items) =>
      forall i | 0 <= i < |items|
        ensures Normalised(nfc, items[i], Tree(Meaning(nfc, items[i])))
      {
        NormalisedTree(nfc, items[i]);
      }
    case Obj(members) => NormalisedObject(nfc, members);
    case _ =>
  }

  lemma PointsLess(a: string, b: string)
    requires Less(a, b)
    ensures LessText(Points(a), Points(b))
  {
    LessIff(a, b);
    var n: nat :| DiffersAt(a, b, n);
    assert forall i :: 0 <= i < n ==> a[i] == a[..n][i] && b[i] == b[..n][i];
    assert LessAt(Points(a), Points(b), n);
  }

  lemma {:induction false} NamesCount(nfc: Normaliser, members: seq<Member>)
    requires NamesScalar(members) && NoRepeat(nfc, members)
    ensures |NormalNames(nfc, members)| == |members|
  {
    if members != [] {
      var n := |members| - 1;
      NamesSnoc(nfc, members, n);
      NamesCount(nfc, members[..n]);
    }
  }

  lemma {:induction false} NamesSnoc(nfc: Normaliser, members: seq<Member>, n: nat)
    requires NamesScalar(members) && NoRepeat(nfc, members) && |members| == n + 1
    ensures NoRepeat(nfc, members[..n])
    ensures NormalNames(nfc, members) == NormalNames(nfc, members[..n]) + {NormalName(nfc, members[n])}
    ensures NormalName(nfc, members[n]) !in NormalNames(nfc, members[..n])
  {
    forall i, j | 0 <= i < j < n
      ensures Apart(nfc, members[..n], i, j)
    {
      assert Apart(nfc, members, i, j);
    }
    forall i | 0 <= i < n
      ensures NormalName(nfc, members[..n][i]) != NormalName(nfc, members[n])
      ensures NormalName(nfc, members[..n][i]) == NormalName(nfc, members[i])
    {
      assert Apart(nfc, members, i, n);
    }
  }

  /** The members of an object as the bytes have them: each under its name after NFC, in order. */
  lemma {:induction false} NormalisedObject(nfc: Normaliser, members: seq<Member>)
    requires Encodable(nfc, Obj(members))
    ensures Normalised(nfc, Obj(members), Tree(Meaning(nfc, Obj(members))))
    decreases members, 0
  {
    var order := Sorted(NormalNames(nfc, members));
    var r := TreeMembers(MeaningMembers(nfc, members), order);
    ObjectTree(nfc, members, order);
    NamesCount(nfc, members);
    TreeInNameOrder(MeaningMembers(nfc, members), order);
    forall i | 0 <= i < |members|
      ensures StandsIn(nfc, members[i], r)
    {
      NormalisedTree(nfc, members[i].value);
      MemberStands(nfc, members, order, i);
    }
  }

  lemma TreeInNameOrder(members: map<string, Value>, order: seq<string>)
    requires order == Sorted(members.Keys)
    ensures InNameOrder(TreeMembers(members, order))
  {
    SortedAscending(members.Keys);
    OrderOfNames(order, TreeMembers(members, order));
  }

  lemma OrderOfNames(order: seq<string>, r: seq<Member>)
    requires Ascending(order) && |r| == |order| && forall i :: 0 <= i < |r| ==> r[i].name == Points(order[i])
    ensures InNameOrder(r)
  {
    forall i, j | 0 <= i < j < |r|
      ensures LessText(r[i].name, r[j].name)
    {
      PointsLess(order[i], order[j]);
    }
  }

  lemma {:induction false} MemberStands(nfc: Normaliser, members: seq<Member>, order: seq<string>, i: nat)
    requires NamesScalar(members) && NoRepeat(nfc, members) && ValuesEncodable(nfc, members) && i < |members|
    requires order == Sorted(NormalNames(nfc, members))
    requires Normalised(nfc, members[i].value, Tree(Meaning(nfc, members[i].value)))
    ensures Listed(MeaningMembers(nfc, members), order)
    ensures StandsIn(nfc, members[i], TreeMembers(MeaningMembers(nfc, members), order))
  {
    var r := TreeMembers(MeaningMembers(nfc, members), order);
    NameStands(nfc, members, i);
    assert NormalName(nfc, members[i]) in AsSet(order);
    var j :| 0 <= j < |order| && order[j] == NormalName(nfc, members[i]);
    assert Renamed(nfc, members[i].name, r[j].name) && Normalised(nfc, members[i].value, r[j].value);
  }

  /** The canonical bytes are the shortest text of the value normalised. */
  lemma {:induction false} BytesSay(nfc: Normaliser, v: Json) returns (w: Json)
    requires Encode(nfc, v).Accepted?
    ensures Normalised(nfc, v, w) && IsShortestText(Encode(nfc, v).value, w)
  {
    EncodeWritesMeaning(nfc, v);
    w := Tree(Meaning(nfc, v));
    NormalisedTree(nfc, v);
    TreeTidy(Meaning(nfc, v));
    TidyNamesOnce(w);
    RereadSame(w);
    DumpIsShortest(w, Dump(w));
  }
}
