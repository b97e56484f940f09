/** Reading a model's document by the names of its members (cpp/src/model.cpp:358-393), and that the document, and the
    bytes it is encoded to, read back as the declaration they were made of. */
module ModelReader {
  import opened Names
  import opened Collections
  import opened Outcomes
  import opened Sorting
  import opened Json
  import opened JsonRoundTrip
  import opened Canonical
  import opened ModelIdentity

  // --- the reader -----------------------------------------------------------------------------------

  /** The value of the first member of a name. */
  function Find(members: seq<Member>, name: string): Option<Json> {
    if members == [] then None
    else if members[0].name == Points(name) then Some(members[0].value)
    else Find(members[1..], name)
  }

  /** The value of a member of an object that has so many members. */
  function MemberOf(v: Json, size: nat, name: string): Option<Json> {
    if v.Obj? && |v.members| == size then Find(v.members, name) else None
  }

  function ReadText(v: Option<Json>): Option<string> {
    if v.Some? && v.value.Str? && AllScalar(v.value.text) then Some(Chars(v.value.text)) else None
  }

  function ReadAll<T>(read: Json -> Option<T>, items: seq<Json>): Option<seq<T>> {
    if items == [] then Some([])
    else
      var first, rest := read(items[0]), ReadAll(read, items[1..]);
      if first.Some? && rest.Some? then Some([first.value] + rest.value) else None
  }

  function ReadList<T>(read: Json -> Option<T>, v: Option<Json>): Option<seq<T>> {
    if v.Some? && v.value.Arr? then ReadAll(read, v.value.items) else None
  }

  function ReadString(v: Json): Option<string> { ReadText(Some(v)) }

  function ReadField(v: Json): Option<Field> {
    var name, kind := ReadText(MemberOf(v, 3, "name")), ReadText(MemberOf(v, 3, "type"));
    var nullable := MemberOf(v, 3, "nullable");
    if name.Some? && kind.Some? && nullable.Some? && nullable.value.Bool?
    then Some(Field(name.value, kind.value, nullable.value.truth)) else None
  }

  /** A part of a key, when its position is this one. */
  function ReadPart(v: Json, position: nat): Option<string> {
    var at := MemberOf(v, 2, "position");
    if at.Some? && at.value.Num? && IsIntText(at.value.lexeme) && IntOf(at.value.lexeme) == position
    then ReadText(MemberOf(v, 2, "field")) else None
  }

  /** The parts of a key from this position on. */
  function ReadParts(items: seq<Json>, position: nat): Option<seq<string>>
    decreases |items|
  {
    if items == [] then Some([])
    else
      var first, rest := ReadPart(items[0], position), ReadParts(items[1..], position + 1);
      if first.Some? && rest.Some? then Some([first.value] + rest.value) else None
  }

  function ReadKey(v: Option<Json>): Option<seq<string>> {
    if v.Some? && v.value.Arr? then ReadParts(v.value.items, 0) else None
  }

  /** Nothing there is null. */
  function ReadResidency(v: Option<Json>): Option<Option<string>> {
    if v.None? then None
    else if v.value.Null? then Some(None)
    else
      var text := ReadText(v);
      if text.Some? then Some(text) else None
  }

  function ReadEntity(v: Json): Option<Entity> {
    var name, fields := ReadText(MemberOf(v, 5, "name")), ReadList(ReadField, MemberOf(v, 5, "fields"));
    var key, pii := ReadKey(MemberOf(v, 5, "key")), ReadList(ReadString, MemberOf(v, 5, "pii"));
    var residency := ReadResidency(MemberOf(v, 5, "residency"));
    if name.Some? && fields.Some? && key.Some? && pii.Some? && residency.Some?
    then Some(Entity(name.value, fields.value, key.value, pii.value, residency.value)) else None
  }

  function ReadRelation(v: Json): Option<Relation> {
    var name, from := ReadText(MemberOf(v, 3, "name")), ReadText(MemberOf(v, 3, "from"));
    var to := ReadText(MemberOf(v, 3, "to"));
    if name.Some? && from.Some? && to.Some? then Some(Relation(name.value, from.value, to.value)) else None
  }

  function ReadGroup(v: Json): Option<seq<string>> { ReadList(ReadString, Some(v)) }

  /** What a document says: the contract it follows, the declaration, and its cost ceiling as it stands there. */
  datatype Reading = Reading(
    contract: int, entities: seq<Entity>, relations: seq<Relation>, atomic: seq<seq<string>>, ceiling: Json)

  function Read(v: Json): Option<Reading> {
    var contract, ceiling := MemberOf(v, 5, "contract"), MemberOf(v, 5, "cost_ceiling");
    var entities := ReadList(ReadEntity, MemberOf(v, 5, "entities"));
    var relations := ReadList(ReadRelation, MemberOf(v, 5, "relations"));
    var atomic := ReadList(ReadGroup, MemberOf(v, 5, "atomic"));
    if contract.Some? && contract.value.Num? && IsIntText(contract.value.lexeme) && entities.Some? &&
       relations.Some? && atomic.Some? && ceiling.Some?
    then Some(Reading(IntOf(contract.value.lexeme), entities.value, relations.value, atomic.value, ceiling.value))
    else None
  }

  // --- records and lists ----------------------------------------------------------------------------

  /** An object with these members, each name once. */
  ghost predicate Has(v: Json, names: seq<string>, values: seq<Json>) {
    |names| == |values| &&
    forall i :: 0 <= i < |names| ==> MemberOf(v, |names|, names[i]) == Some(values[i])
  }

  lemma {:induction false} FindAt(members: seq<Member>, name: string, i: nat)
    requires i < |members| && members[i].name == Points(name)
    requires forall j :: 0 <= j < i ==> members[j].name != Points(name)
    ensures Find(members, name) == Some(members[i].value)
  {
    if i > 0 {
      FindAt(members[1..], name, i - 1);
    }
  }

  lemma PointsApart(a: string, b: string)
    requires a != b
    ensures Points(a) != Points(b)
  {
    if Points(a) == Points(b) {
      PointsInjective(a, b);
    }
  }

  lemma RecordHas(names: seq<string>, values: seq<Json>)
    requires |names| == |values| && AllApart(names)
    ensures Has(Record(names, values), names, values)
  {
    var members := Record(names, values).members;
    forall i | 0 <= i < |names|
      ensures MemberOf(Record(names, values), |names|, names[i]) == Some(values[i])
    {
      forall j | 0 <= j < i
        ensures members[j].name != Points(names[i])
      {
        PointsApart(names[j], names[i]);
      }
      FindAt(members, names[i], i);
    }
  }

  lemma {:induction false} AllRead<T>(read: Json -> Option<T>, items: seq<Json>, xs: seq<T>)
    requires |items| == |xs| && forall i :: 0 <= i < |xs| ==> read(items[i]) == Some(xs[i])
    ensures ReadAll(read, items) == Some(xs)
  {
    if items != [] {
      AllRead(read, items[1..], xs[1..]);
      assert xs == [xs[0]] + xs[1..];
    }
  }

  lemma {:induction false} AllPartsRead(items: seq<Json>, position: nat, key: seq<string>)
    requires |items| == |key|
    requires forall i :: 0 <= i < |key| ==> ReadPart(items[i], position + i) == Some(key[i])
    ensures ReadParts(items, position) == Some(key)
    decreases |items|
  {
    if items != [] {
      assert ReadPart(items[0], position + 0) == Some(key[0]);
      forall i | 0 <= i < |key| - 1
        ensures ReadPart(items[1..][i], position + 1 + i) == Some(key[1..][i])
      {
        assert ReadPart(items[i + 1], position + (i + 1)) == Some(key[i + 1]);
      }
      AllPartsRead(items[1..], position + 1, key[1..]);
      assert key == [key[0]] + key[1..];
    }
  }

  // --- a document as it is written, or as its bytes read --------------------------------------------

  /** One of two ways to look at a value: itself, or what its encoded bytes are parsed to. */
  ghost function Seen(nfc: Normaliser, parsed: bool, v: Json): Json
    requires parsed ==> Encodable(nfc, v)
  {
    if parsed then Tree(Meaning(nfc, v)) else v
  }

  lemma SeenText(nfc: Normaliser, parsed: bool, s: string)
    requires Fixed(nfc, s)
    ensures Encodable(nfc, TextIr(s)) && Seen(nfc, parsed, TextIr(s)) == TextIr(s) && ReadString(TextIr(s)) == Some(s)
  {
    CharsPoints(s);
  }

  lemma SeenInt(nfc: Normaliser, parsed: bool, n: int)
    requires InInt64(n)
    ensures var v := Num(IntText(n), true);
            Encodable(nfc, v) && Seen(nfc, parsed, v) == v && IsIntText(v.lexeme) && IntOf(v.lexeme) == n
  {
    IntTextReads(n);
  }

  ghost function SeenEach(nfc: Normaliser, parsed: bool, values: seq<Json>): (seen: seq<Json>)
    requires ValuesOk(nfc, values)
    ensures |seen| == |values| && forall i :: 0 <= i < |values| ==> seen[i] == Seen(nfc, parsed, values[i])
  {
    seq(|values|, i requires 0 <= i < |values| => Seen(nfc, parsed, values[i]))
  }

  lemma {:induction false} SeenRecord(nfc: Normaliser, parsed: bool, names: seq<string>, values: seq<Json>)
    requires |names| == |values| && AllApart(names) && Kept(nfc, names) && ValuesOk(nfc, values)
    ensures Encodable(nfc, Record(names, values))
    ensures Has(Seen(nfc, parsed, Record(names, values)), names, SeenEach(nfc, parsed, values))
  {
    var m := RecordMeans(nfc, names, values);
    if parsed {
      TreeHas(names, m);
      var seen := TreeEach(names, m);
      SameHas(Tree(VObj(m)), names, seen, SeenEach(nfc, parsed, values));
    } else {
      RecordHas(names, values);
      SameHas(Record(names, values), names, values, SeenEach(nfc, parsed, values));
    }
  }

  lemma SameHas(v: Json, names: seq<string>, a: seq<Json>, b: seq<Json>)
    requires Has(v, names, a) && |a| == |b| && forall i :: 0 <= i < |a| ==> a[i] == b[i]
    ensures Has(v, names, b)
  {
  }

  ghost function TreeEach(names: seq<string>, m: map<string, Value>): (r: seq<Json>)
    requires forall i :: 0 <= i < |names| ==> names[i] in m
    ensures |r| == |names| && forall i :: 0 <= i < |names| ==> r[i] == Tree(m[names[i]])
  {
    seq(|names|, i requires 0 <= i < |names| => Tree(m[names[i]]))
  }

  /** A map written down has its members, in whatever order. */
  lemma {:induction false} TreeHas(names: seq<string>, m: map<string, Value>)
    requires AllApart(names) && m.Keys == AsSet(names) && forall i :: 0 <= i < |names| ==> names[i] in m
    ensures Has(Tree(VObj(m)), names, TreeEach(names, m))
  {
    var order := Sorted(m.Keys);
    SortedAscending(m.Keys);
    ApartCount(names);
    TreeOfMap(m, order);
    FindsHave(names, TreeMembers(m, order), m, order);
  }

  lemma {:induction false} FindsHave(names: seq<string>, members: seq<Member>, m: map<string, Value>,
                                     order: seq<string>)
    requires Ascending(order) && Listed(m, order) && members == TreeMembers(m, order) && |members| == |names|
    requires forall i :: 0 <= i < |names| ==> names[i] in m && names[i] in AsSet(order)
    ensures Has(Obj(members), names, TreeEach(names, m))
  {
    forall i | 0 <= i < |names|
      ensures MemberOf(Obj(members), |names|, names[i]) == Some(TreeEach(names, m)[i])
    {
      assert names[i] in AsSet(order);
      TreeFind(m, order, names[i]);
    }
  }

  lemma {:induction false} TreeFind(m: map<string, Value>, order: seq<string>, name: string)
    requires Ascending(order) && Listed(m, order) && name in order
    ensures name in m && Find(TreeMembers(m, order), name) == Some(Tree(m[name]))
  {
    var members := TreeMembers(m, order);
    var k :| 0 <= k < |order| && order[k] == name;
    forall j | 0 <= j < k
      ensures members[j].name != Points(name)
    {
      LessAsymmetric(order[j], order[k]);
      PointsApart(order[j], order[k]);
    }
    FindAt(members, name, k);
  }

  lemma {:induction false} ApartCount(names: seq<string>)
    requires AllApart(names)
    ensures |AsSet(names)| == |names|
  {
    if names != [] {
      var front, last := names[..|names| - 1], names[|names| - 1];
      ApartCount(front);
      AsSetSnoc(front, last);
      assert names == front + [last];
      assert last !in AsSet(front);
    }
  }

  /** Items that are read one by one as these are read as a list of them. */
  lemma {:induction false} SeenList<T(!new)>(nfc: Normaliser, parsed: bool, ir: T -> Json, read: Json -> Option<T>,
                                             xs: seq<T>)
    requires forall i :: 0 <= i < |xs| ==>
               Encodable(nfc, ir(xs[i])) && read(Seen(nfc, parsed, ir(xs[i]))) == Some(xs[i])
    ensures Encodable(nfc, List(ir, xs)) && ReadList(read, Some(Seen(nfc, parsed, List(ir, xs)))) == Some(xs)
  {
    var items := SeenItems(nfc, parsed, Mapped(ir, xs));
    AllRead(read, items, xs);
  }

  lemma {:induction false} SeenItems(nfc: Normaliser, parsed: bool, items: seq<Json>) returns (seen: seq<Json>)
    requires forall i :: 0 <= i < |items| ==> Encodable(nfc, items[i])
    ensures Encodable(nfc, Arr(items)) && Seen(nfc, parsed, Arr(items)) == Arr(seen) && |seen| == |items|
    ensures forall i :: 0 <= i < |items| ==> seen[i] == Seen(nfc, parsed, items[i])
  {
    seen := if parsed then TreeItems(MeaningItems(nfc, items)) else items;
    if parsed {
      assert Meaning(nfc, Arr(items)) == VArr(MeaningItems(nfc, items));
    }
  }

  // --- the parts ------------------------------------------------------------------------------------

  lemma SeenField(nfc: Normaliser, parsed: bool, f: Field)
    requires KeepsNames(nfc) && FieldFixed(nfc, f)
    ensures Encodable(nfc, FieldIr(f)) && ReadField(Seen(nfc, parsed, FieldIr(f))) == Some(f)
  {
    SeenText(nfc, parsed, f.name);
    SeenText(nfc, parsed, f.kind);
    NamesKept(nfc, FIELD_NAMES);
    FieldNamesApart();
    SeenRecord(nfc, parsed, FIELD_NAMES, [TextIr(f.name), TextIr(f.kind), Bool(f.nullable)]);
    var v := Seen(nfc, parsed, FieldIr(f));
    assert MemberOf(v, 3, FIELD_NAMES[0]) == Some(TextIr(f.name));
    assert MemberOf(v, 3, FIELD_NAMES[1]) == Some(TextIr(f.kind));
    assert MemberOf(v, 3, FIELD_NAMES[2]) == Some(Bool(f.nullable));
  }

  lemma SeenPart(nfc: Normaliser, parsed: bool, p: Part)
    requires KeepsNames(nfc) && PartFixed(nfc, p)
    ensures Encodable(nfc, PartIr(p)) && ReadPart(Seen(nfc, parsed, PartIr(p)), p.position) == Some(p.field)
  {
    SeenText(nfc, parsed, p.field);
    SeenInt(nfc, parsed, p.position);
    NamesKept(nfc, PART_NAMES);
    PartNamesApart();
    SeenRecord(nfc, parsed, PART_NAMES, [TextIr(p.field), Num(IntText(p.position), true)]);
    var v := Seen(nfc, parsed, PartIr(p));
    assert MemberOf(v, 2, PART_NAMES[0]) == Some(TextIr(p.field));
    assert MemberOf(v, 2, PART_NAMES[1]) == Some(Num(IntText(p.position), true));
  }

  lemma SeenKey(nfc: Normaliser, parsed: bool, key: seq<string>)
    requires KeepsNames(nfc) && KeyFixed(nfc, key)
    ensures var v := List(PartIr, Numbered(key));
            Encodable(nfc, v) && ReadKey(Some(Seen(nfc, parsed, v))) == Some(key)
  {
    var parts := Numbered(key);
    forall i | 0 <= i < |parts|
      ensures Encodable(nfc, PartIr(parts[i])) && ReadPart(Seen(nfc, parsed, PartIr(parts[i])), 0 + i) == Some(key[i])
    {
      SeenPart(nfc, parsed, parts[i]);
    }
    var items := SeenItems(nfc, parsed, Mapped(PartIr, parts));
    AllPartsRead(items, 0, key);
  }

  lemma SeenNames(nfc: Normaliser, parsed: bool, names: seq<string>)
    requires AllFixed(nfc, names)
    ensures Encodable(nfc, List(TextIr, names))
    ensures ReadList(ReadString, Some(Seen(nfc, parsed, List(TextIr, names)))) == Some(names)
  {
    forall i | 0 <= i < |names|
      ensures Encodable(nfc, TextIr(names[i])) && ReadString(Seen(nfc, parsed, TextIr(names[i]))) == Some(names[i])
    {
      SeenText(nfc, parsed, names[i]);
    }
    SeenList(nfc, parsed, TextIr, ReadString, names);
  }

  lemma SeenFields(nfc: Normaliser, parsed: bool, fields: seq<Field>)
    requires KeepsNames(nfc) && FieldsFixed(nfc, fields)
    ensures Encodable(nfc, List(FieldIr, fields))
    ensures ReadList(ReadField, Some(Seen(nfc, parsed, List(FieldIr, fields)))) == Some(fields)
  {
    forall i | 0 <= i < |fields|
      ensures Encodable(nfc, FieldIr(fields[i])) && ReadField(Seen(nfc, parsed, FieldIr(fields[i]))) == Some(fields[i])
    {
      SeenField(nfc, parsed, fields[i]);
    }
    SeenList(nfc, parsed, FieldIr, ReadField, fields);
  }

  lemma SeenResidency(nfc: Normaliser, parsed: bool, r: Option<string>)
    requires r.Some? ==> Fixed(nfc, r.value)
    ensures Encodable(nfc, ResidencyIr(r)) && ReadResidency(Some(Seen(nfc, parsed, ResidencyIr(r)))) == Some(r)
  {
    if r.Some? {
      SeenText(nfc, parsed, r.value);
    }
  }

  lemma SeenEntity(nfc: Normaliser, parsed: bool, e: Entity)
    requires KeepsNames(nfc) && EntityFixed(nfc, e)
    ensures Encodable(nfc, EntityIr(e)) && ReadEntity(Seen(nfc, parsed, EntityIr(e))) == Some(e)
  {
    NamesKept(nfc, ENTITY_NAMES);
    EntityNamesApart();
    EntityPartsSeen(nfc, parsed, e);
    SeenRecord(nfc, parsed, ENTITY_NAMES, EntityValues(e));
    EntityRead(Seen(nfc, parsed, EntityIr(e)), SeenEach(nfc, parsed, EntityValues(e)), e);
  }

  lemma EntityPartsSeen(nfc: Normaliser, parsed: bool, e: Entity)
    requires KeepsNames(nfc) && EntityFixed(nfc, e)
    ensures ValuesOk(nfc, EntityValues(e))
    ensures var seen := SeenEach(nfc, parsed, EntityValues(e));
            ReadString(seen[0]) == Some(e.name) && ReadList(ReadField, Some(seen[1])) == Some(e.fields) &&
            ReadKey(Some(seen[2])) == Some(e.key) && ReadList(ReadString, Some(seen[3])) == Some(e.pii) &&
            ReadResidency(Some(seen[4])) == Some(e.residency)
  {
    EntityValuesOk(nfc, e);
    EntityFirstSeen(nfc, parsed, e);
    EntityLastSeen(nfc, parsed, e);
  }

  lemma EntityValuesOk(nfc: Normaliser, e: Entity)
    requires KeepsNames(nfc) && EntityFixed(nfc, e)
    ensures ValuesOk(nfc, EntityValues(e))
  {
    forall i | 0 <= i < 5
      ensures Encodable(nfc, EntityValues(e)[i])
    {
      EntityValueSame(nfc, e, e, i);
    }
  }

  lemma EntityFirstSeen(nfc: Normaliser, parsed: bool, e: Entity)
    requires KeepsNames(nfc) && EntityFixed(nfc, e) && ValuesOk(nfc, EntityValues(e))
    ensures var seen := SeenEach(nfc, parsed, EntityValues(e));
            ReadString(seen[0]) == Some(e.name) && ReadList(ReadField, Some(seen[1])) == Some(e.fields) &&
            ReadKey(Some(seen[2])) == Some(e.key)
  {
    SeenText(nfc, parsed, e.name);
    SeenFields(nfc, parsed, e.fields);
    SeenKey(nfc, parsed, e.key);
  }

  lemma EntityLastSeen(nfc: Normaliser, parsed: bool, e: Entity)
    requires KeepsNames(nfc) && EntityFixed(nfc, e) && ValuesOk(nfc, EntityValues(e))
    ensures var seen := SeenEach(nfc, parsed, EntityValues(e));
            ReadList(ReadString, Some(seen[3])) == Some(e.pii) && ReadResidency(Some(seen[4])) == Some(e.residency)
  {
    SeenNames(nfc, parsed, e.pii);
    SeenResidency(nfc, parsed, e.residency);
  }

  lemma EntityRead(v: Json, seen: seq<Json>, e: Entity)
    requires Has(v, ENTITY_NAMES, seen) && ReadString(seen[0]) == Some(e.name)
    requires ReadList(ReadField, Some(seen[1])) == Some(e.fields) && ReadKey(Some(seen[2])) == Some(e.key)
    requires ReadList(ReadString, Some(seen[3])) == Some(e.pii) && ReadResidency(Some(seen[4])) == Some(e.residency)
    ensures ReadEntity(v) == Some(e)
  {
    assert MemberOf(v, 5, ENTITY_NAMES[0]) == Some(seen[0]) && MemberOf(v, 5, ENTITY_NAMES[1]) == Some(seen[1]);
    assert MemberOf(v, 5, ENTITY_NAMES[2]) == Some(seen[2]) && MemberOf(v, 5, ENTITY_NAMES[3]) == Some(seen[3]);
    assert MemberOf(v, 5, ENTITY_NAMES[4]) == Some(seen[4]);
  }

  lemma SeenRelation(nfc: Normaliser, parsed: bool, r: Relation)
    requires KeepsNames(nfc) && RelationFixed(nfc, r)
    ensures Encodable(nfc, RelationIr(r)) && ReadRelation(Seen(nfc, parsed, RelationIr(r))) == Some(r)
  {
    SeenText(nfc, parsed, r.name);
    SeenText(nfc, parsed, r.from);
    SeenText(nfc, parsed, r.to);
    NamesKept(nfc, RELATION_NAMES);
    RelationNamesApart();
    SeenRecord(nfc, parsed, RELATION_NAMES, [TextIr(r.name), TextIr(r.from), TextIr(r.to)]);
    var v := Seen(nfc, parsed, RelationIr(r));
    assert MemberOf(v, 3, RELATION_NAMES[0]) == Some(TextIr(r.name));
    assert MemberOf(v, 3, RELATION_NAMES[1]) == Some(TextIr(r.from));
    assert MemberOf(v, 3, RELATION_NAMES[2]) == Some(TextIr(r.to));
  }

  lemma SeenEntities(nfc: Normaliser, parsed: bool, es: seq<Entity>)
    requires KeepsNames(nfc) && EntitiesFixed(nfc, es)
    ensures Encodable(nfc, List(EntityIr, es))
    ensures ReadList(ReadEntity, Some(Seen(nfc, parsed, List(EntityIr, es)))) == Some(es)
  {
    forall i | 0 <= i < |es|
      ensures Encodable(nfc, EntityIr(es[i])) && ReadEntity(Seen(nfc, parsed, EntityIr(es[i]))) == Some(es[i])
    {
      SeenEntity(nfc, parsed, es[i]);
    }
    SeenList(nfc, parsed, EntityIr, ReadEntity, es);
  }

  lemma SeenRelations(nfc: Normaliser, parsed: bool, rs: seq<Relation>)
    requires KeepsNames(nfc) && RelationsFixed(nfc, rs)
    ensures Encodable(nfc, List(RelationIr, rs))
    ensures ReadList(ReadRelation, Some(Seen(nfc, parsed, List(RelationIr, rs)))) == Some(rs)
  {
    forall i | 0 <= i < |rs|
      ensures Encodable(nfc, RelationIr(rs[i])) && ReadRelation(Seen(nfc, parsed, RelationIr(rs[i]))) == Some(rs[i])
    {
      SeenRelation(nfc, parsed, rs[i]);
    }
    SeenList(nfc, parsed, RelationIr, ReadRelation, rs);
  }

  lemma SeenGroups(nfc: Normaliser, parsed: bool, gs: seq<seq<string>>)
    requires GroupsFixed(nfc, gs)
    ensures Encodable(nfc, List(GroupIr, gs))
    ensures ReadList(ReadGroup, Some(Seen(nfc, parsed, List(GroupIr, gs)))) == Some(gs)
  {
    forall i | 0 <= i < |gs|
      ensures Encodable(nfc, GroupIr(gs[i])) && ReadGroup(Seen(nfc, parsed, GroupIr(gs[i]))) == Some(gs[i])
    {
      SeenNames(nfc, parsed, gs[i]);
    }
    SeenList(nfc, parsed, GroupIr, ReadGroup, gs);
  }

  // --- the document ---------------------------------------------------------------------------------

  lemma SeenIr(nfc: Normaliser, parsed: bool, d: Declaration)
    requires KeepsNames(nfc) && DeclarationFixed(nfc, d)
    ensures Encodable(nfc, Ir(d))
    ensures Read(Seen(nfc, parsed, Ir(d))) ==
            Some(Reading(1, d.entities, d.relations, d.atomic, Seen(nfc, parsed, CeilingIr(d.ceiling))))
  {
    NamesKept(nfc, IR_NAMES);
    IrNamesApart();
    IrPartsSeen(nfc, parsed, d);
    SeenRecord(nfc, parsed, IR_NAMES, IrValues(d));
    IrRead(Seen(nfc, parsed, Ir(d)), SeenEach(nfc, parsed, IrValues(d)), d);
  }

  lemma IrPartsSeen(nfc: Normaliser, parsed: bool, d: Declaration)
    requires KeepsNames(nfc) && DeclarationFixed(nfc, d)
    ensures ValuesOk(nfc, IrValues(d))
    ensures var seen := SeenEach(nfc, parsed, IrValues(d));
            seen[0].Num? && IsIntText(seen[0].lexeme) && IntOf(seen[0].lexeme) == 1 &&
            ReadList(ReadEntity, Some(seen[1])) == Some(d.entities) &&
            ReadList(ReadRelation, Some(seen[2])) == Some(d.relations) &&
            ReadList(ReadGroup, Some(seen[3])) == Some(d.atomic) && seen[4] == Seen(nfc, parsed, CeilingIr(d.ceiling))
  {
    IrValuesOk(nfc, d);
    IrFirstSeen(nfc, parsed, d);
    IrLastSeen(nfc, parsed, d);
  }

  lemma IrValuesOk(nfc: Normaliser, d: Declaration)
    requires KeepsNames(nfc) && DeclarationFixed(nfc, d)
    ensures ValuesOk(nfc, IrValues(d))
  {
    forall i | 0 <= i < 5
      ensures Encodable(nfc, IrValues(d)[i])
    {
      IrValueSame(nfc, d, d, i);
    }
  }

  lemma IrFirstSeen(nfc: Normaliser, parsed: bool, d: Declaration)
    requires KeepsNames(nfc) && DeclarationFixed(nfc, d) && ValuesOk(nfc, IrValues(d))
    ensures var seen := SeenEach(nfc, parsed, IrValues(d));
            seen[0].Num? && IsIntText(seen[0].lexeme) && IntOf(seen[0].lexeme) == 1 &&
            ReadList(ReadEntity, Some(seen[1])) == Some(d.entities)
  {
    SeenInt(nfc, parsed, IR_CONTRACT);
    SeenEntities(nfc, parsed, d.entities);
  }

  lemma IrLastSeen(nfc: Normaliser, parsed: bool, d: Declaration)
    requires KeepsNames(nfc) && DeclarationFixed(nfc, d) && ValuesOk(nfc, IrValues(d))
    ensures var seen := SeenEach(nfc, parsed, IrValues(d));
            ReadList(ReadRelation, Some(seen[2])) == Some(d.relations) &&
            ReadList(ReadGroup, Some(seen[3])) == Some(d.atomic) && seen[4] == Seen(nfc, parsed, CeilingIr(d.ceiling))
  {
    SeenRelations(nfc, parsed, d.relations);
    SeenGroups(nfc, parsed, d.atomic);
  }

  lemma IrRead(v: Json, seen: seq<Json>, d: Declaration)
    requires Has(v, IR_NAMES, seen)
    requires seen[0].Num? && IsIntText(seen[0].lexeme) && IntOf(seen[0].lexeme) == 1
    requires ReadList(ReadEntity, Some(seen[1])) == Some(d.entities)
    requires ReadList(ReadRelation, Some(seen[2])) == Some(d.relations)
    requires ReadList(ReadGroup, Some(seen[3])) == Some(d.atomic)
    ensures Read(v) == Some(Reading(1, d.entities, d.relations, d.atomic, seen[4]))
  {
    assert MemberOf(v, 5, IR_NAMES[0]) == Some(seen[0]) && MemberOf(v, 5, IR_NAMES[1]) == Some(seen[1]);
    assert MemberOf(v, 5, IR_NAMES[2]) == Some(seen[2]) && MemberOf(v, 5, IR_NAMES[3]) == Some(seen[3]);
    assert MemberOf(v, 5, IR_NAMES[4]) == Some(seen[4]);
  }

  ghost predicate KeysShort(d: Declaration) {
    forall i :: 0 <= i < |d.entities| ==> |d.entities[i].key| < 0x8000_0000_0000_0000
  }

  function Unchanged(): Normaliser { s => s }

  lemma ShortFixed(d: Declaration)
    requires KeysShort(d)
    ensures var a := Assembled(d);
            KeepsNames(Unchanged()) && EntitiesFixed(Unchanged(), a.entities) &&
            RelationsFixed(Unchanged(), a.relations) && GroupsFixed(Unchanged(), a.atomic)
  {
    AssembledFixed(Unchanged(), d.(ceiling := None));
  }

  /** The document of a declaration, read by the names of its members, is the declaration in order, of contract 1, and
      its ceiling or null. */
  lemma DocumentReadsBack(d: Declaration)
    requires KeysShort(d)
    ensures var a := Assembled(d);
            Read(Ir(a)) == Some(Reading(1, a.entities, a.relations, a.atomic,
                                        if d.ceiling.Some? then d.ceiling.value else Null))
  {
    ShortFixed(d);
    IrReadsBack(Unchanged(), Assembled(d));
  }

  lemma {:induction false} IrReadsBack(nfc: Normaliser, d: Declaration)
    requires KeepsNames(nfc) && EntitiesFixed(nfc, d.entities)
    requires RelationsFixed(nfc, d.relations) && GroupsFixed(nfc, d.atomic)
    ensures Read(Ir(d)) == Some(Reading(1, d.entities, d.relations, d.atomic, CeilingIr(d.ceiling)))
  {
    IrNamesApart();
    RecordHas(IR_NAMES, IrValues(d));
    IrListsRead(nfc, d);
    IrRead(Ir(d), IrValues(d), d);
  }

  lemma {:induction false} IrListsRead(nfc: Normaliser, d: Declaration)
    requires KeepsNames(nfc) && EntitiesFixed(nfc, d.entities)
    requires RelationsFixed(nfc, d.relations) && GroupsFixed(nfc, d.atomic)
    ensures var values := IrValues(d);
            values[0].Num? && IsIntText(values[0].lexeme) && IntOf(values[0].lexeme) == 1 &&
            ReadList(ReadEntity, Some(values[1])) == Some(d.entities) &&
            ReadList(ReadRelation, Some(values[2])) == Some(d.relations) &&
            ReadList(ReadGroup, Some(values[3])) == Some(d.atomic)
  {
    IntTextReads(IR_CONTRACT);
    EntitiesRead(nfc, d.entities);
    RelationsRead(nfc, d.relations);
    GroupsRead(nfc, d.atomic);
  }

  lemma {:induction false} EntitiesRead(nfc: Normaliser, es: seq<Entity>)
    requires KeepsNames(nfc) && EntitiesFixed(nfc, es)
    ensures ReadList(ReadEntity, Some(List(EntityIr, es))) == Some(es)
  {
    SeenEntities(nfc, false, es);
  }

  lemma {:induction false} RelationsRead(nfc: Normaliser, rs: seq<Relation>)
    requires KeepsNames(nfc) && RelationsFixed(nfc, rs)
    ensures ReadList(ReadRelation, Some(List(RelationIr, rs))) == Some(rs)
  {
    SeenRelations(nfc, false, rs);
  }

  lemma {:induction false} GroupsRead(nfc: Normaliser, gs: seq<seq<string>>)
    requires GroupsFixed(nfc, gs)
    ensures ReadList(ReadGroup, Some(List(GroupIr, gs))) == Some(gs)
  {
    SeenGroups(nfc, false, gs);
  }

  /** So are its bytes, parsed: whatever a declaration says can be read from the bytes its version is computed from. */
  lemma BytesReadBack(nfc: Normaliser, d: Declaration)
    requires KeepsNames(nfc) && DeclarationFixed(nfc, d) && Within(Ir(Assembled(d)), 0, 512)
    ensures var a, bytes := Assembled(d), Encode(nfc, Ir(Assembled(d)));
            && bytes.Accepted? && ParseDocument(bytes.value, 512).Got?
            && var read := Read(ParseDocument(bytes.value, 512).value);
               read.Some? && read.value.contract == 1 && read.value.entities == a.entities &&
               read.value.relations == a.relations && read.value.atomic == a.atomic &&
               (d.ceiling.None? ==> read.value.ceiling == Null)
  {
    var ir := Ir(Assembled(d));
    AssembledFixed(nfc, d);
    SeenIr(nfc, true, Assembled(d));
    EncodeWritesMeaning(nfc, ir);
    MeaningKeepsDepth(nfc, ir, 0, 512);
    TreeTidy(Meaning(nfc, ir));
    RereadSame(Tree(Meaning(nfc, ir)));
    ParseDumpedDocument(Tree(Meaning(nfc, ir)), 512);
  }
}
