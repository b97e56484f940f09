/** What the bytes of a model's canonical form depend on (cpp/src/model.cpp:336-411). */
module ModelIdentity {
  import opened Collections
  import opened Names
  import opened Outcomes
  import opened Sorting
  import opened Json
  import opened Canonical

  datatype Field = Field(name: string, kind: string, nullable: bool)

  datatype Entity =
    Entity(name: string, fields: seq<Field>, key: seq<string>, pii: seq<string>, residency: Option<string>)

  datatype Relation = Relation(name: string, from: string, to: string)

  datatype Declaration = Declaration(
    entities: seq<Entity>, relations: seq<Relation>, atomic: seq<seq<string>>, ceiling: Option<Json>)

  // --- what is sorted -------------------------------------------------------------------------------

  function NameKey(s: string): Key { [s] }
  function FieldKey(f: Field): Key { [f.name] }
  function EntityKey(e: Entity): Key { [e.name] }
  function RelationKey(r: Relation): Key { [r.from, r.name, r.to] }
  function GroupKey(g: seq<string>): Key { g }

  function SortedGroup(g: seq<string>): seq<string> { Sort(g, NameKey) }

  function SortedEntity(e: Entity): Entity {
    e.(fields := Sort(e.fields, FieldKey), pii := Sort(e.pii, NameKey))
  }

  /** The declaration in the order its bytes have. */
  function Assembled(d: Declaration): Declaration {
    Declaration(Sort(Mapped(SortedEntity, d.entities), EntityKey), Sort(d.relations, RelationKey),
                Sort(Mapped(SortedGroup, d.atomic), GroupKey), d.ceiling)
  }

  // --- what it is up to order -----------------------------------------------------------------------

  datatype EntityClass = EntityClass(
    name: string, fields: multiset<Field>, key: seq<string>, pii: multiset<string>, residency: Option<string>)

  function ClassOf(e: Entity): EntityClass {
    EntityClass(e.name, multiset(e.fields), e.key, multiset(e.pii), e.residency)
  }

  function MembersOf(g: seq<string>): multiset<string> { multiset(g) }

  /** The same up to the order of entities, fields, pii, relations, atomic groups and their members; the order of a key
      counts. */
  ghost predicate SameUpToOrder(d: Declaration, e: Declaration) {
    multiset(Mapped(ClassOf, d.entities)) == multiset(Mapped(ClassOf, e.entities)) &&
    multiset(d.relations) == multiset(e.relations) &&
    multiset(Mapped(MembersOf, d.atomic)) == multiset(Mapped(MembersOf, e.atomic))
  }

  /** Of the refusals of a declaration, those the order of its parts rests on: entities have distinct names, and so have
      the fields of each. */
  ghost predicate NamesApart(d: Declaration) {
    KeysApart(d.entities, EntityKey) && forall e :: e in d.entities ==> KeysApart(e.fields, FieldKey)
  }

  lemma SameFields(a: Entity, b: Entity)
    requires KeysApart(a.fields, FieldKey)
    ensures SortedEntity(a) == SortedEntity(b) <==> ClassOf(a) == ClassOf(b)
  {
    ApartTells(a.fields, FieldKey);
    SortSameIff(a.fields, b.fields, FieldKey);
    assert Tells(NameKey, multiset(a.pii));
    SortSameIff(a.pii, b.pii, NameKey);
  }

  lemma EntitiesTold(d: Declaration)
    requires NamesApart(d)
    ensures Tells(EntityKey, multiset(Mapped(SortedEntity, d.entities)))
  {
    var s := Mapped(SortedEntity, d.entities);
    SameKeysApart(d.entities, EntityKey, s, EntityKey);
    ApartTells(s, EntityKey);
  }

  lemma EntitiesAlike(d: Declaration, e: Declaration)
    requires NamesApart(d)
    ensures Alike(SortedEntity, ClassOf, d.entities, e.entities)
    ensures Alike(ClassOf, SortedEntity, d.entities, e.entities)
  {
    forall x, y | x in d.entities && y in e.entities
      ensures SameUnder(SortedEntity, ClassOf, x, y) && SameUnder(ClassOf, SortedEntity, x, y)
    {
      SameFields(x, y);
    }
  }

  lemma SameEntities(d: Declaration, e: Declaration)
    requires NamesApart(d)
    ensures Assembled(d).entities == Assembled(e).entities <==>
            multiset(Mapped(ClassOf, d.entities)) == multiset(Mapped(ClassOf, e.entities))
  {
    var s, t := Mapped(SortedEntity, d.entities), Mapped(SortedEntity, e.entities);
    EntitiesTold(d);
    SortSameIff(s, t, EntityKey);
    EntitiesAlike(d, e);
    if multiset(s) == multiset(t) {
      MappedAlike(SortedEntity, ClassOf, d.entities, e.entities);
    }
    if multiset(Mapped(ClassOf, d.entities)) == multiset(Mapped(ClassOf, e.entities)) {
      MappedAlike(ClassOf, SortedEntity, d.entities, e.entities);
    }
  }

  lemma SameGroups(a: seq<seq<string>>, b: seq<seq<string>>)
    ensures Sort(Mapped(SortedGroup, a), GroupKey) == Sort(Mapped(SortedGroup, b), GroupKey) <==>
            multiset(Mapped(MembersOf, a)) == multiset(Mapped(MembersOf, b))
  {
    var s, t := Mapped(SortedGroup, a), Mapped(SortedGroup, b);
    assert Tells(GroupKey, multiset(s));
    SortSameIff(s, t, GroupKey);
    forall x, y
      ensures SameUnder(SortedGroup, MembersOf, x, y) && SameUnder(MembersOf, SortedGroup, x, y)
    {
      assert Tells(NameKey, multiset(x));
      SortSameIff(x, y, NameKey);
    }
    if multiset(s) == multiset(t) {
      MappedAlike(SortedGroup, MembersOf, a, b);
    }
    if multiset(Mapped(MembersOf, a)) == multiset(Mapped(MembersOf, b)) {
      MappedAlike(MembersOf, SortedGroup, a, b);
    }
  }

  /** Putting a declaration in order forgets the order of its parts and nothing else. */
  lemma AssembledSameIff(d: Declaration, e: Declaration)
    requires NamesApart(d)
    ensures Assembled(d).(ceiling := None) == Assembled(e).(ceiling := None) <==> SameUpToOrder(d, e)
  {
    SameEntities(d, e);
    assert Tells(RelationKey, multiset(d.relations)) by {
      forall x, y
        ensures Told(RelationKey, x, y)
      {
        if RelationKey(x) == RelationKey(y) {
          assert RelationKey(x)[0] == RelationKey(y)[0] && RelationKey(x)[1] == RelationKey(y)[1];
          assert RelationKey(x)[2] == RelationKey(y)[2];
        }
      }
    }
    SortSameIff(d.relations, e.relations, RelationKey);
    SameGroups(d.atomic, e.atomic);
  }

  // --- in which order the parts come ----------------------------------------------------------------

  /** No text before a smaller one. */
  ghost predicate TextsInOrder(s: seq<string>) { forall i, j :: 0 <= i < j < |s| ==> !Less(s[j], s[i]) }

  /** Relations by origin, then name, then target. */
  ghost predicate RelationsInOrder(s: seq<Relation>) {
    forall i, j :: 0 <= i < j < |s| ==>
      Less(s[i].from, s[j].from) ||
      (s[i].from == s[j].from &&
       (Less(s[i].name, s[j].name) || (s[i].name == s[j].name && !Less(s[j].to, s[i].to))))
  }

  ghost predicate EntityInOrder(e: Entity) {
    TextsInOrder(e.pii) && forall i, j :: 0 <= i < j < |e.fields| ==> !Less(e.fields[j].name, e.fields[i].name)
  }

  ghost predicate EntitiesInOrder(es: seq<Entity>) {
    forall i, j :: 0 <= i < j < |es| ==> !Less(es[j].name, es[i].name)
  }

  /** Entities, fields and pii by name, relations as above, the members of a group by name, and groups in dictionary
      order. */
  ghost predicate PartsInOrder(d: Declaration) {
    && EntitiesInOrder(d.entities)
    && (forall e :: e in d.entities ==> EntityInOrder(e))
    && RelationsInOrder(d.relations)
    && (forall g :: g in d.atomic ==> TextsInOrder(g))
    && (forall i, j :: 0 <= i < j < |d.atomic| ==> AtMost(d.atomic[i], d.atomic[j]))
  }

  lemma AtMostOne(a: string, b: string)
    ensures AtMost([a], [b]) <==> !Less(b, a)
  {
    LessTotal(a, b);
    if Less(a, b) {
      LessAsymmetric(a, b);
    }
    LessIrreflexive(a);
  }

  lemma NamesSorted(s: seq<string>)
    ensures TextsInOrder(SortedGroup(s))
  {
    SortedPairs(s, NameKey);
    var r := SortedGroup(s);
    forall i, j | 0 <= i < j < |r|
      ensures !Less(r[j], r[i])
    {
      AtMostOne(r[i], r[j]);
    }
  }

  lemma EntitySorted(e: Entity)
    ensures EntityInOrder(SortedEntity(e))
  {
    NamesSorted(e.pii);
    SortedPairs(e.fields, FieldKey);
    var r := Sort(e.fields, FieldKey);
    forall i, j | 0 <= i < j < |r|
      ensures !Less(r[j].name, r[i].name)
    {
      AtMostOne(r[i].name, r[j].name);
    }
  }

  lemma RelationsSorted(s: seq<Relation>)
    ensures RelationsInOrder(Sort(s, RelationKey))
  {
    SortedPairs(s, RelationKey);
    var r := Sort(s, RelationKey);
    forall i, j | 0 <= i < j < |r|
      ensures Less(r[i].from, r[j].from) ||
              (r[i].from == r[j].from &&
               (Less(r[i].name, r[j].name) || (r[i].name == r[j].name && !Less(r[j].to, r[i].to))))
    {
      KeysAtMost(r[i], r[j]);
    }
  }

  lemma KeysAtMost(a: Relation, b: Relation)
    requires AtMost(RelationKey(a), RelationKey(b))
    ensures Less(a.from, b.from) ||
            (a.from == b.from && (Less(a.name, b.name) || (a.name == b.name && !Less(b.to, a.to))))
  {
    var x, y := RelationKey(a), RelationKey(b);
    assert x[1..] == [a.name, a.to] && y[1..] == [b.name, b.to];
    assert x[1..][1..] == [a.to] && y[1..][1..] == [b.to];
    AtMostOne(a.to, b.to);
  }

  /** Putting a declaration in order puts all its parts in order, and leaves everything else alone. */
  lemma AssembledInOrder(d: Declaration)
    ensures PartsInOrder(Assembled(d)) && SameUpToOrder(Assembled(d), d) && Assembled(d).ceiling == d.ceiling
  {
    EntitiesSorted(d);
    RelationsSorted(d.relations);
    GroupsInOrder(d);
    AssembledSame(d);
  }

  lemma {:induction false} EntitiesSorted(d: Declaration)
    ensures var es := Assembled(d).entities;
            EntitiesInOrder(es) && forall e :: e in es ==> EntityInOrder(e)
  {
    EntityNamesSorted(Mapped(SortedEntity, d.entities));
    forall e | e in Assembled(d).entities
      ensures EntityInOrder(e)
    {
      OneEntitySorted(d.entities, e);
    }
  }

  lemma {:induction false} OneEntitySorted(es: seq<Entity>, e: Entity)
    requires e in Sort(Mapped(SortedEntity, es), EntityKey)
    ensures EntityInOrder(e)
  {
    var s := Mapped(SortedEntity, es);
    SortedHas(s, EntityKey, e);
    var i :| 0 <= i < |s| && s[i] == e;
    EntitySorted(es[i]);
  }

  lemma {:induction false} EntityNamesSorted(s: seq<Entity>)
    ensures EntitiesInOrder(Sort(s, EntityKey))
  {
    var es := Sort(s, EntityKey);
    SortedPairs(s, EntityKey);
    forall i, j | 0 <= i < j < |es|
      ensures !Less(es[j].name, es[i].name)
    {
      AtMostOne(es[i].name, es[j].name);
    }
  }

  lemma GroupsInOrder(d: Declaration)
    ensures var gs := Assembled(d).atomic;
            (forall g :: g in gs ==> TextsInOrder(g)) &&
            forall i, j :: 0 <= i < j < |gs| ==> AtMost(gs[i], gs[j])
  {
    var s := Mapped(SortedGroup, d.atomic);
    var gs := Sort(s, GroupKey);
    SortedPairs(s, GroupKey);
    forall i, j | 0 <= i < j < |gs|
      ensures AtMost(gs[i], gs[j])
    {
      assert AtMost(GroupKey(gs[i]), GroupKey(gs[j]));
    }
    forall g | g in gs
      ensures TextsInOrder(g)
    {
      SortedHas(s, GroupKey, g);
      var i :| 0 <= i < |s| && s[i] == g;
      NamesSorted(d.atomic[i]);
    }
  }

  lemma {:induction false} AssembledSame(d: Declaration)
    ensures SameUpToOrder(Assembled(d), d)
  {
    SameClasses(d.entities);
    SameMembersOf(d.atomic);
  }

  lemma {:induction false} SameClasses(es: seq<Entity>)
    ensures multiset(Mapped(ClassOf, Sort(Mapped(SortedEntity, es), EntityKey))) == multiset(Mapped(ClassOf, es))
  {
    var s := Mapped(SortedEntity, es);
    SameImagesUp(Sort(s, EntityKey), s, ClassOf);
    SameEach(SortedEntity, ClassOf, es);
  }

  lemma {:induction false} SameMembersOf(gs: seq<seq<string>>)
    ensures multiset(Mapped(MembersOf, Sort(Mapped(SortedGroup, gs), GroupKey))) == multiset(Mapped(MembersOf, gs))
  {
    var s := Mapped(SortedGroup, gs);
    SameImagesUp(Sort(s, GroupKey), s, MembersOf);
    SameEach(SortedGroup, MembersOf, gs);
  }

  lemma {:induction false} SameEach<T(!new), U>(f: T -> T, g: T -> U, s: seq<T>)
    requires forall x :: g(f(x)) == g(x)
    ensures Mapped(g, Mapped(f, s)) == Mapped(g, s)
  {
  }

  /** Two lists with the same elements, as often, have the same images, as often. */
  lemma SameImagesUp<T(!new), U>(a: seq<T>, b: seq<T>, f: T -> U)
    requires multiset(a) == multiset(b)
    ensures multiset(Mapped(f, a)) == multiset(Mapped(f, b))
  {
    var same := (x: T) => x;
    assert Mapped(same, a) == a && Mapped(same, b) == b;
    assert Alike(same, f, a, b) by {
      forall x, y | x in a && y in b
        ensures SameUnder(same, f, x, y)
      {
      }
    }
    MappedAlike(same, f, a, b);
  }

  // --- the document ---------------------------------------------------------------------------------

  function TextIr(s: string): Json { Str(Points(s)) }

  function Record(names: seq<string>, values: seq<Json>): Json
    requires |names| == |values|
  {
    Obj(seq(|names|, i requires 0 <= i < |names| => Member(Points(names[i]), values[i])))
  }

  const FIELD_NAMES := ["name", "type", "nullable"]
  const PART_NAMES := ["field", "position"]
  const ENTITY_NAMES := ["name", "fields", "key", "pii", "residency"]
  const RELATION_NAMES := ["name", "from", "to"]
  const IR_NAMES := ["contract", "entities", "relations", "atomic", "cost_ceiling"]

  const IR_CONTRACT: int := 1

  /** A part of a key, with its position. */
  datatype Part = Part(field: string, position: nat)

  function Numbered(key: seq<string>): (parts: seq<Part>)
    ensures |parts| == |key| && forall i :: 0 <= i < |key| ==> parts[i] == Part(key[i], i)
  {
    seq(|key|, i requires 0 <= i < |key| => Part(key[i], i))
  }

  function List<T>(ir: T -> Json, s: seq<T>): Json { Arr(Mapped(ir, s)) }

  function FieldIr(f: Field): Json { Record(FIELD_NAMES, [TextIr(f.name), TextIr(f.kind), Bool(f.nullable)]) }

  function PartIr(p: Part): Json { Record(PART_NAMES, [TextIr(p.field), Num(IntText(p.position), true)]) }

  function ResidencyIr(r: Option<string>): Json { if r.Some? then TextIr(r.value) else Null }

  function EntityValues(e: Entity): (values: seq<Json>)
    ensures |values| == 5
  {
    [TextIr(e.name), List(FieldIr, e.fields), List(PartIr, Numbered(e.key)), List(TextIr, e.pii),
     ResidencyIr(e.residency)]
  }

  function EntityIr(e: Entity): Json { Record(ENTITY_NAMES, EntityValues(e)) }

  function RelationIr(r: Relation): Json { Record(RELATION_NAMES, [TextIr(r.name), TextIr(r.from), TextIr(r.to)]) }

  function GroupIr(g: seq<string>): Json { List(TextIr, g) }

  function CeilingIr(c: Option<Json>): Json { if c.Some? then c.value else Null }

  /** The document of a declaration already in order. */
  function Ir(d: Declaration): Json { Record(IR_NAMES, IrValues(d)) }

  function IrValues(d: Declaration): (values: seq<Json>)
    ensures |values| == 5
  {
    [Contract(), List(EntityIr, d.entities), List(RelationIr, d.relations), List(GroupIr, d.atomic),
     CeilingIr(d.ceiling)]
  }

  // --- what the document tells apart ----------------------------------------------------------------

  /** NFC leaves the names of the document's own members alone. */
  ghost predicate KeepsNames(nfc: Normaliser) {
    forall n :: n in FIELD_NAMES + PART_NAMES + ENTITY_NAMES + RELATION_NAMES + IR_NAMES ==> nfc(n) == n
  }

  /** Two values have bytes, and the same bytes exactly when they are the same. */
  ghost predicate Faithful(nfc: Normaliser, v: Json, w: Json, same: bool) {
    Encodable(nfc, v) && Encodable(nfc, w) && (Meaning(nfc, v) == Meaning(nfc, w) <==> same)
  }

  predicate AllApart(names: seq<string>) { forall i, j :: 0 <= i < j < |names| ==> names[i] != names[j] }

  /** The map that has these values at these names. */
  ghost predicate Pairs(names: seq<string>, m: map<string, Value>, a: seq<Value>) {
    |names| == |a| && m.Keys == AsSet(names) &&
    forall i :: 0 <= i < |names| ==> names[i] in m && m[names[i]] == a[i]
  }

  ghost predicate Kept(nfc: Normaliser, names: seq<string>) {
    forall i :: 0 <= i < |names| ==> nfc(names[i]) == names[i]
  }

  ghost predicate ValuesOk(nfc: Normaliser, values: seq<Json>) {
    forall i :: 0 <= i < |values| ==> Encodable(nfc, values[i])
  }

  lemma RecordNames(nfc: Normaliser, names: seq<string>, values: seq<Json>)
    requires |names| == |values| && AllApart(names) && Kept(nfc, names)
    ensures var r := Record(names, values).members;
            NamesScalar(r) && NoRepeat(nfc, r) && NormalNames(nfc, r) == AsSet(names) &&
            forall i :: 0 <= i < |r| ==> NormalName(nfc, r[i]) == names[i]
  {
    var r := Record(names, values).members;
    forall i | 0 <= i < |r|
      ensures AllScalar(r[i].name) && NormalName(nfc, r[i]) == names[i]
    {
      CharsPoints(names[i]);
    }
    forall i, j | 0 <= i < j < |r|
      ensures Apart(nfc, r, i, j)
    {
      assert names[i] != names[j];
    }
    SameNameSet(nfc, r, names);
  }

  lemma RecordMeans(nfc: Normaliser, names: seq<string>, values: seq<Json>) returns (m: map<string, Value>)
    requires |names| == |values| && AllApart(names) && Kept(nfc, names) && ValuesOk(nfc, values)
    ensures Encodable(nfc, Record(names, values)) && Meaning(nfc, Record(names, values)) == VObj(m)
    ensures Pairs(names, m, MeaningItems(nfc, values))
  {
    var r := Record(names, values).members;
    RecordNames(nfc, names, values);
    m := MeaningMembers(nfc, r);
    forall i | 0 <= i < |names|
      ensures names[i] in m && m[names[i]] == MeaningItems(nfc, values)[i]
    {
      assert names[i] in AsSet(names);
      NameStands(nfc, r, i);
    }
  }

  lemma {:induction false} RecordsSame(nfc: Normaliser, names: seq<string>, vs: seq<Json>, ws: seq<Json>,
                                       same: seq<bool>)
    requires |names| == |vs| && AllApart(names) && Kept(nfc, names) && EachFaithful(nfc, vs, ws, same)
    ensures Faithful(nfc, Record(names, vs), Record(names, ws), forall i :: 0 <= i < |same| ==> same[i])
  {
    AllOfThem(nfc, vs, ws, same);
    var v := RecordMeans(nfc, names, vs);
    var w := RecordMeans(nfc, names, ws);
    MapsSame(names, v, w, MeaningItems(nfc, vs), MeaningItems(nfc, ws));
    ObjectsSame(nfc, Record(names, vs), Record(names, ws), v, w, forall i :: 0 <= i < |same| ==> same[i]);
  }

  lemma {:induction false} ObjectsSame(nfc: Normaliser, v: Json, w: Json, a: map<string, Value>, b: map<string, Value>,
                                       same: bool)
    requires Encodable(nfc, v) && Encodable(nfc, w) && Meaning(nfc, v) == VObj(a) && Meaning(nfc, w) == VObj(b)
    requires a == b <==> same
    ensures Faithful(nfc, v, w, same)
  {
  }

  ghost predicate EachFaithful(nfc: Normaliser, vs: seq<Json>, ws: seq<Json>, same: seq<bool>) {
    |vs| == |ws| == |same| && forall i :: 0 <= i < |vs| ==> Faithful(nfc, vs[i], ws[i], same[i])
  }

  lemma AllOfThem(nfc: Normaliser, vs: seq<Json>, ws: seq<Json>, same: seq<bool>)
    requires EachFaithful(nfc, vs, ws, same)
    ensures ValuesOk(nfc, vs) && ValuesOk(nfc, ws)
    ensures MeaningItems(nfc, vs) == MeaningItems(nfc, ws) <==> forall i :: 0 <= i < |same| ==> same[i]
  {
    forall i | 0 <= i < |vs|
      ensures Encodable(nfc, vs[i]) && Encodable(nfc, ws[i])
    {
      assert Faithful(nfc, vs[i], ws[i], same[i]);
    }
    var a, b := MeaningItems(nfc, vs), MeaningItems(nfc, ws);
    forall i | 0 <= i < |vs|
      ensures a[i] == b[i] <==> same[i]
    {
      assert Faithful(nfc, vs[i], ws[i], same[i]);
    }
    assert a == b <==> forall i :: 0 <= i < |a| ==> a[i] == b[i];
  }

  lemma MapsSame(names: seq<string>, v: map<string, Value>, w: map<string, Value>, a: seq<Value>, b: seq<Value>)
    requires Pairs(names, v, a) && Pairs(names, w, b)
    ensures v == w <==> a == b
  {
    if a == b {
      forall k | k in v
        ensures v[k] == w[k]
      {
        assert k in AsSet(names);
        var i :| 0 <= i < |names| && names[i] == k;
      }
    }
  }

  ghost predicate AllEncodable<T(!new)>(nfc: Normaliser, ir: T -> Json, s: seq<T>) {
    forall i :: 0 <= i < |s| ==> Encodable(nfc, ir(s[i]))
  }

  ghost predicate AllFaithful<T(!new)>(nfc: Normaliser, ir: T -> Json, a: seq<T>, b: seq<T>) {
    forall i :: 0 <= i < |a| && i < |b| ==> Faithful(nfc, ir(a[i]), ir(b[i]), a[i] == b[i])
  }

  lemma ListsSame<T(!new)>(nfc: Normaliser, ir: T -> Json, a: seq<T>, b: seq<T>)
    requires AllEncodable(nfc, ir, a) && AllEncodable(nfc, ir, b) && AllFaithful(nfc, ir, a, b)
    ensures Faithful(nfc, List(ir, a), List(ir, b), a == b)
  {
    var x, y := Mapped(ir, a), Mapped(ir, b);
    var m, n := MeaningItems(nfc, x), MeaningItems(nfc, y);
    if m == n {
      assert |a| == |m| == |n| == |b|;
      forall i | 0 <= i < |a|
        ensures a[i] == b[i]
      {
        assert m[i] == n[i];
        assert Faithful(nfc, ir(a[i]), ir(b[i]), a[i] == b[i]);
      }
    }
  }

  // --- each part ------------------------------------------------------------------------------------

  predicate Fixed(nfc: Normaliser, s: string) { nfc(s) == s }

  predicate AllFixed(nfc: Normaliser, s: seq<string>) { forall i :: 0 <= i < |s| ==> Fixed(nfc, s[i]) }

  lemma TextSame(nfc: Normaliser, a: string, b: string)
    requires Fixed(nfc, a) && Fixed(nfc, b)
    ensures Faithful(nfc, TextIr(a), TextIr(b), a == b)
  {
    CharsPoints(a);
    CharsPoints(b);
  }

  lemma NamesSame(nfc: Normaliser, a: seq<string>, b: seq<string>)
    requires AllFixed(nfc, a) && AllFixed(nfc, b)
    ensures Faithful(nfc, List(TextIr, a), List(TextIr, b), a == b)
  {
    forall i | 0 <= i < |a|
      ensures Encodable(nfc, TextIr(a[i]))
    {
      TextSame(nfc, a[i], a[i]);
    }
    forall i | 0 <= i < |b|
      ensures Encodable(nfc, TextIr(b[i]))
    {
      TextSame(nfc, b[i], b[i]);
    }
    forall i | 0 <= i < |a| && i < |b|
      ensures Faithful(nfc, TextIr(a[i]), TextIr(b[i]), a[i] == b[i])
    {
      TextSame(nfc, a[i], b[i]);
    }
    ListsSame(nfc, TextIr, a, b);
  }

  predicate FieldFixed(nfc: Normaliser, f: Field) { Fixed(nfc, f.name) && Fixed(nfc, f.kind) }

  lemma Record2Same(nfc: Normaliser, names: seq<string>, v0: Json, v1: Json, w0: Json, w1: Json, s0: bool, s1: bool)
    requires |names| == 2 && AllApart(names) && Kept(nfc, names)
    requires Faithful(nfc, v0, w0, s0) && Faithful(nfc, v1, w1, s1)
    ensures Faithful(nfc, Record(names, [v0, v1]), Record(names, [w0, w1]), s0 && s1)
  {
    var same := [s0, s1];
    RecordsSame(nfc, names, [v0, v1], [w0, w1], same);
    assert (forall i :: 0 <= i < |same| ==> same[i]) <==> same[0] && same[1];
  }

  lemma Record3Same(nfc: Normaliser, names: seq<string>, vs: seq<Json>, ws: seq<Json>, s0: bool, s1: bool, s2: bool)
    requires |names| == |vs| == |ws| == 3 && AllApart(names) && Kept(nfc, names)
    requires Faithful(nfc, vs[0], ws[0], s0) && Faithful(nfc, vs[1], ws[1], s1) && Faithful(nfc, vs[2], ws[2], s2)
    ensures Faithful(nfc, Record(names, vs), Record(names, ws), s0 && s1 && s2)
  {
    var same := [s0, s1, s2];
    RecordsSame(nfc, names, vs, ws, same);
    assert (forall i :: 0 <= i < |same| ==> same[i]) <==> same[0] && same[1] && same[2];
  }

  lemma AllFive(same: seq<bool>)
    requires |same| == 5
    ensures (forall i :: 0 <= i < |same| ==> same[i]) <==> same[0] && same[1] && same[2] && same[3] && same[4]
  {
  }

  lemma FiveSame(nfc: Normaliser, names: seq<string>, vs: seq<Json>, ws: seq<Json>, same: seq<bool>)
    requires |names| == |vs| == 5 && AllApart(names) && Kept(nfc, names) && EachFaithful(nfc, vs, ws, same)
    ensures Faithful(nfc, Record(names, vs), Record(names, ws), same[0] && same[1] && same[2] && same[3] && same[4])
  {
    RecordsSame(nfc, names, vs, ws, same);
    AllFive(same);
  }

  // The member names of each record differ in length or in a letter.
  lemma FieldNamesApart()
    ensures AllApart(FIELD_NAMES)
  {
    assert "name"[0] != "type"[0];
  }

  lemma PartNamesApart()
    ensures AllApart(PART_NAMES)
  {
    assert |"field"| != |"position"|;
  }

  lemma RelationNamesApart()
    ensures AllApart(RELATION_NAMES)
  {
    assert "name"[0] != "from"[0];
  }

  lemma EntityNamesApart()
    ensures AllApart(ENTITY_NAMES)
  {
    assert "key"[0] != "pii"[0];
  }

  lemma IrNamesApart()
    ensures AllApart(IR_NAMES)
  {
    assert "contract"[0] != "entities"[0];
  }

  lemma NamesKept(nfc: Normaliser, names: seq<string>)
    requires KeepsNames(nfc)
    requires names in [FIELD_NAMES, PART_NAMES, ENTITY_NAMES, RELATION_NAMES, IR_NAMES]
    ensures Kept(nfc, names)
  {
    forall i | 0 <= i < |names|
      ensures nfc(names[i]) == names[i]
    {
      assert names[i] in names;
    }
  }

  lemma FieldSame(nfc: Normaliser, f: Field, g: Field)
    requires KeepsNames(nfc) && FieldFixed(nfc, f) && FieldFixed(nfc, g)
    ensures Faithful(nfc, FieldIr(f), FieldIr(g), f == g)
  {
    TextSame(nfc, f.name, g.name);
    TextSame(nfc, f.kind, g.kind);
    NamesKept(nfc, FIELD_NAMES);
    FieldNamesApart();
    Record3Same(nfc, FIELD_NAMES, [TextIr(f.name), TextIr(f.kind), Bool(f.nullable)],
                [TextIr(g.name), TextIr(g.kind), Bool(g.nullable)], f.name == g.name, f.kind == g.kind,
                f.nullable == g.nullable);
  }

  predicate FieldsFixed(nfc: Normaliser, fields: seq<Field>) {
    forall i :: 0 <= i < |fields| ==> FieldFixed(nfc, fields[i])
  }

  lemma FieldsSame(nfc: Normaliser, a: seq<Field>, b: seq<Field>)
    requires KeepsNames(nfc) && FieldsFixed(nfc, a) && FieldsFixed(nfc, b)
    ensures Faithful(nfc, List(FieldIr, a), List(FieldIr, b), a == b)
  {
    forall i | 0 <= i < |a|
      ensures Encodable(nfc, FieldIr(a[i]))
    {
      FieldSame(nfc, a[i], a[i]);
    }
    forall i | 0 <= i < |b|
      ensures Encodable(nfc, FieldIr(b[i]))
    {
      FieldSame(nfc, b[i], b[i]);
    }
    forall i | 0 <= i < |a| && i < |b|
      ensures Faithful(nfc, FieldIr(a[i]), FieldIr(b[i]), a[i] == b[i])
    {
      FieldSame(nfc, a[i], b[i]);
    }
    ListsSame(nfc, FieldIr, a, b);
  }

  predicate PartFixed(nfc: Normaliser, p: Part) { Fixed(nfc, p.field) && InInt64(p.position) }

  lemma PartSame(nfc: Normaliser, p: Part, q: Part)
    requires KeepsNames(nfc) && PartFixed(nfc, p) && PartFixed(nfc, q)
    ensures Faithful(nfc, PartIr(p), PartIr(q), p == q)
  {
    TextSame(nfc, p.field, q.field);
    IntTextReads(p.position);
    IntTextReads(q.position);
    NamesKept(nfc, PART_NAMES);
    PartNamesApart();
    Record2Same(nfc, PART_NAMES, TextIr(p.field), Num(IntText(p.position), true), TextIr(q.field),
                Num(IntText(q.position), true), p.field == q.field, p.position == q.position);
  }

  predicate KeyFixed(nfc: Normaliser, key: seq<string>) { AllFixed(nfc, key) && |key| < 0x8000_0000_0000_0000 }

  lemma KeysSame(nfc: Normaliser, a: seq<string>, b: seq<string>)
    requires KeepsNames(nfc) && KeyFixed(nfc, a) && KeyFixed(nfc, b)
    ensures Faithful(nfc, List(PartIr, Numbered(a)), List(PartIr, Numbered(b)), a == b)
  {
    var p, q := Numbered(a), Numbered(b);
    forall i | 0 <= i < |p|
      ensures Encodable(nfc, PartIr(p[i]))
    {
      PartSame(nfc, p[i], p[i]);
    }
    forall i | 0 <= i < |q|
      ensures Encodable(nfc, PartIr(q[i]))
    {
      PartSame(nfc, q[i], q[i]);
    }
    forall i | 0 <= i < |p| && i < |q|
      ensures Faithful(nfc, PartIr(p[i]), PartIr(q[i]), p[i] == q[i])
    {
      PartSame(nfc, p[i], q[i]);
    }
    ListsSame(nfc, PartIr, p, q);
    NumberedSame(a, b);
  }

  lemma NumberedSame(a: seq<string>, b: seq<string>)
    ensures Numbered(a) == Numbered(b) <==> a == b
  {
    if Numbered(a) == Numbered(b) {
      assert |a| == |Numbered(a)| == |Numbered(b)| == |b|;
      forall i | 0 <= i < |a|
        ensures a[i] == b[i]
      {
        assert Numbered(a)[i] == Numbered(b)[i];
      }
    }
  }

  predicate EntityFixed(nfc: Normaliser, e: Entity) {
    Fixed(nfc, e.name) && FieldsFixed(nfc, e.fields) && KeyFixed(nfc, e.key) && AllFixed(nfc, e.pii) &&
    (e.residency.Some? ==> Fixed(nfc, e.residency.value))
  }

  lemma ResidencySame(nfc: Normaliser, r: Option<string>, s: Option<string>)
    requires r.Some? ==> Fixed(nfc, r.value)
    requires s.Some? ==> Fixed(nfc, s.value)
    ensures Faithful(nfc, ResidencyIr(r), ResidencyIr(s), r == s)
  {
    if r.Some? && s.Some? {
      TextSame(nfc, r.value, s.value);
    } else if r.Some? {
      TextSame(nfc, r.value, r.value);
    } else if s.Some? {
      TextSame(nfc, s.value, s.value);
    }
  }

  function EntitySameness(d: Entity, e: Entity): (same: seq<bool>)
    ensures |same| == 5
  {
    [d.name == e.name, d.fields == e.fields, d.key == e.key, d.pii == e.pii, d.residency == e.residency]
  }

  lemma EntityValueSame(nfc: Normaliser, d: Entity, e: Entity, i: nat)
    requires KeepsNames(nfc) && EntityFixed(nfc, d) && EntityFixed(nfc, e) && i < 5
    ensures Faithful(nfc, EntityValues(d)[i], EntityValues(e)[i], EntitySameness(d, e)[i])
  {
    if i < 2 {
      EntityFirstSame(nfc, d, e, i);
    } else {
      EntityLastSame(nfc, d, e, i);
    }
  }

  lemma EntityFirstSame(nfc: Normaliser, d: Entity, e: Entity, i: nat)
    requires KeepsNames(nfc) && EntityFixed(nfc, d) && EntityFixed(nfc, e) && i < 2
    ensures Faithful(nfc, EntityValues(d)[i], EntityValues(e)[i], EntitySameness(d, e)[i])
  {
    if i == 0 {
      TextSame(nfc, d.name, e.name);
    } else {
      FieldsSame(nfc, d.fields, e.fields);
    }
  }

  lemma EntityLastSame(nfc: Normaliser, d: Entity, e: Entity, i: nat)
    requires KeepsNames(nfc) && EntityFixed(nfc, d) && EntityFixed(nfc, e) && 2 <= i < 5
    ensures Faithful(nfc, EntityValues(d)[i], EntityValues(e)[i], EntitySameness(d, e)[i])
  {
    if i == 2 {
      KeysSame(nfc, d.key, e.key);
    } else if i == 3 {
      NamesSame(nfc, d.pii, e.pii);
    } else {
      ResidencySame(nfc, d.residency, e.residency);
    }
  }

  lemma EntitySame(nfc: Normaliser, d: Entity, e: Entity)
    requires KeepsNames(nfc) && EntityFixed(nfc, d) && EntityFixed(nfc, e)
    ensures Faithful(nfc, EntityIr(d), EntityIr(e), d == e)
  {
    forall i | 0 <= i < 5
      ensures Faithful(nfc, EntityValues(d)[i], EntityValues(e)[i], EntitySameness(d, e)[i])
    {
      EntityValueSame(nfc, d, e, i);
    }
    NamesKept(nfc, ENTITY_NAMES);
    EntityNamesApart();
    FiveSame(nfc, ENTITY_NAMES, EntityValues(d), EntityValues(e), EntitySameness(d, e));
  }

  predicate RelationFixed(nfc: Normaliser, r: Relation) {
    Fixed(nfc, r.name) && Fixed(nfc, r.from) && Fixed(nfc, r.to)
  }

  lemma RelationSame(nfc: Normaliser, r: Relation, s: Relation)
    requires KeepsNames(nfc) && RelationFixed(nfc, r) && RelationFixed(nfc, s)
    ensures Faithful(nfc, RelationIr(r), RelationIr(s), r == s)
  {
    TextSame(nfc, r.name, s.name);
    TextSame(nfc, r.from, s.from);
    TextSame(nfc, r.to, s.to);
    NamesKept(nfc, RELATION_NAMES);
    RelationNamesApart();
    Record3Same(nfc, RELATION_NAMES, [TextIr(r.name), TextIr(r.from), TextIr(r.to)],
                [TextIr(s.name), TextIr(s.from), TextIr(s.to)],
                r.name == s.name, r.from == s.from, r.to == s.to);
  }

  // --- the model ------------------------------------------------------------------------------------

  predicate EntitiesFixed(nfc: Normaliser, s: seq<Entity>) { forall i :: 0 <= i < |s| ==> EntityFixed(nfc, s[i]) }

  predicate RelationsFixed(nfc: Normaliser, s: seq<Relation>) { forall i :: 0 <= i < |s| ==> RelationFixed(nfc, s[i]) }

  predicate GroupsFixed(nfc: Normaliser, s: seq<seq<string>>) { forall i :: 0 <= i < |s| ==> AllFixed(nfc, s[i]) }

  /** Every text of the declaration is normalised, and its cost ceiling, if any, has bytes. */
  predicate DeclarationFixed(nfc: Normaliser, d: Declaration) {
    EntitiesFixed(nfc, d.entities) && RelationsFixed(nfc, d.relations) && GroupsFixed(nfc, d.atomic) &&
    Encodable(nfc, CeilingIr(d.ceiling))
  }

  lemma EntityListsSame(nfc: Normaliser, a: seq<Entity>, b: seq<Entity>)
    requires KeepsNames(nfc) && EntitiesFixed(nfc, a) && EntitiesFixed(nfc, b)
    ensures Faithful(nfc, List(EntityIr, a), List(EntityIr, b), a == b)
  {
    forall i | 0 <= i < |a|
      ensures Encodable(nfc, EntityIr(a[i]))
    {
      EntitySame(nfc, a[i], a[i]);
    }
    forall i | 0 <= i < |b|
      ensures Encodable(nfc, EntityIr(b[i]))
    {
      EntitySame(nfc, b[i], b[i]);
    }
    forall i | 0 <= i < |a| && i < |b|
      ensures Faithful(nfc, EntityIr(a[i]), EntityIr(b[i]), a[i] == b[i])
    {
      EntitySame(nfc, a[i], b[i]);
    }
    ListsSame(nfc, EntityIr, a, b);
  }

  lemma RelationListsSame(nfc: Normaliser, a: seq<Relation>, b: seq<Relation>)
    requires KeepsNames(nfc) && RelationsFixed(nfc, a) && RelationsFixed(nfc, b)
    ensures Faithful(nfc, List(RelationIr, a), List(RelationIr, b), a == b)
  {
    forall i | 0 <= i < |a|
      ensures Encodable(nfc, RelationIr(a[i]))
    {
      RelationSame(nfc, a[i], a[i]);
    }
    forall i | 0 <= i < |b|
      ensures Encodable(nfc, RelationIr(b[i]))
    {
      RelationSame(nfc, b[i], b[i]);
    }
    forall i | 0 <= i < |a| && i < |b|
      ensures Faithful(nfc, RelationIr(a[i]), RelationIr(b[i]), a[i] == b[i])
    {
      RelationSame(nfc, a[i], b[i]);
    }
    ListsSame(nfc, RelationIr, a, b);
  }

  lemma GroupListsSame(nfc: Normaliser, a: seq<seq<string>>, b: seq<seq<string>>)
    requires GroupsFixed(nfc, a) && GroupsFixed(nfc, b)
    ensures Faithful(nfc, List(GroupIr, a), List(GroupIr, b), a == b)
  {
    forall i | 0 <= i < |a|
      ensures Encodable(nfc, GroupIr(a[i]))
    {
      NamesSame(nfc, a[i], a[i]);
    }
    forall i | 0 <= i < |b|
      ensures Encodable(nfc, GroupIr(b[i]))
    {
      NamesSame(nfc, b[i], b[i]);
    }
    forall i | 0 <= i < |a| && i < |b|
      ensures Faithful(nfc, GroupIr(a[i]), GroupIr(b[i]), a[i] == b[i])
    {
      NamesSame(nfc, a[i], b[i]);
    }
    ListsSame(nfc, GroupIr, a, b);
  }

  ghost predicate SameCeiling(nfc: Normaliser, d: Declaration, e: Declaration)
    requires Encodable(nfc, CeilingIr(d.ceiling)) && Encodable(nfc, CeilingIr(e.ceiling))
  {
    Meaning(nfc, CeilingIr(d.ceiling)) == Meaning(nfc, CeilingIr(e.ceiling))
  }

  function IrSameness(nfc: Normaliser, d: Declaration, e: Declaration): (same: seq<bool>)
    requires Encodable(nfc, CeilingIr(d.ceiling)) && Encodable(nfc, CeilingIr(e.ceiling))
    ensures |same| == 5
  {
    [true, d.entities == e.entities, d.relations == e.relations, d.atomic == e.atomic,
     Meaning(nfc, CeilingIr(d.ceiling)) == Meaning(nfc, CeilingIr(e.ceiling))]
  }

  lemma IrEntitiesSame(nfc: Normaliser, d: Declaration, e: Declaration)
    requires KeepsNames(nfc) && DeclarationFixed(nfc, d) && DeclarationFixed(nfc, e)
    ensures Faithful(nfc, IrValues(d)[1], IrValues(e)[1], d.entities == e.entities)
  {
    EntityListsSame(nfc, d.entities, e.entities);
    IsFaithful(nfc, List(EntityIr, d.entities), List(EntityIr, e.entities), IrValues(d)[1], IrValues(e)[1],
               d.entities == e.entities);
  }

  lemma IrRelationsSame(nfc: Normaliser, d: Declaration, e: Declaration)
    requires KeepsNames(nfc) && DeclarationFixed(nfc, d) && DeclarationFixed(nfc, e)
    ensures Faithful(nfc, IrValues(d)[2], IrValues(e)[2], d.relations == e.relations)
  {
    RelationListsSame(nfc, d.relations, e.relations);
    IsFaithful(nfc, List(RelationIr, d.relations), List(RelationIr, e.relations), IrValues(d)[2], IrValues(e)[2],
               d.relations == e.relations);
  }

  lemma IrGroupsSame(nfc: Normaliser, d: Declaration, e: Declaration)
    requires DeclarationFixed(nfc, d) && DeclarationFixed(nfc, e)
    ensures Faithful(nfc, IrValues(d)[3], IrValues(e)[3], d.atomic == e.atomic)
  {
    GroupListsSame(nfc, d.atomic, e.atomic);
    IsFaithful(nfc, List(GroupIr, d.atomic), List(GroupIr, e.atomic), IrValues(d)[3], IrValues(e)[3],
               d.atomic == e.atomic);
  }

  lemma IrValueSame(nfc: Normaliser, d: Declaration, e: Declaration, i: nat)
    requires KeepsNames(nfc) && DeclarationFixed(nfc, d) && DeclarationFixed(nfc, e) && i < 5
    ensures Faithful(nfc, IrValues(d)[i], IrValues(e)[i], IrSameness(nfc, d, e)[i])
  {
    if i < 2 {
      IrFirstSame(nfc, d, e, i);
    } else if i == 2 {
      IrRelationsSame(nfc, d, e);
    } else {
      IrLastSame(nfc, d, e, i);
    }
  }

  lemma IrFirstSame(nfc: Normaliser, d: Declaration, e: Declaration, i: nat)
    requires KeepsNames(nfc) && DeclarationFixed(nfc, d) && DeclarationFixed(nfc, e) && i < 2
    ensures Faithful(nfc, IrValues(d)[i], IrValues(e)[i], IrSameness(nfc, d, e)[i])
  {
    if i == 0 {
      ContractSame(nfc);
    } else {
      IrEntitiesSame(nfc, d, e);
    }
  }

  lemma IrLastSame(nfc: Normaliser, d: Declaration, e: Declaration, i: nat)
    requires DeclarationFixed(nfc, d) && DeclarationFixed(nfc, e) && 3 <= i < 5
    ensures Faithful(nfc, IrValues(d)[i], IrValues(e)[i], IrSameness(nfc, d, e)[i])
  {
    if i == 3 {
      IrGroupsSame(nfc, d, e);
    }
  }

  function Contract(): Json { Num(IntText(IR_CONTRACT), true) }

  lemma ContractSame(nfc: Normaliser)
    ensures Faithful(nfc, Contract(), Contract(), true)
  {
    IntTextReads(IR_CONTRACT);
  }

  lemma IsFaithful(nfc: Normaliser, v: Json, w: Json, v': Json, w': Json, same: bool)
    requires Faithful(nfc, v, w, same) && v == v' && w == w'
    ensures Faithful(nfc, v', w', same)
  {
  }

  lemma IrSame(nfc: Normaliser, d: Declaration, e: Declaration)
    requires KeepsNames(nfc) && DeclarationFixed(nfc, d) && DeclarationFixed(nfc, e)
    ensures Faithful(nfc, Ir(d), Ir(e),
                     d.entities == e.entities && d.relations == e.relations && d.atomic == e.atomic &&
                     SameCeiling(nfc, d, e))
  {
    forall i | 0 <= i < 5
      ensures Faithful(nfc, IrValues(d)[i], IrValues(e)[i], IrSameness(nfc, d, e)[i])
    {
      IrValueSame(nfc, d, e, i);
    }
    NamesKept(nfc, IR_NAMES);
    IrNamesApart();
    FiveSame(nfc, IR_NAMES, IrValues(d), IrValues(e), IrSameness(nfc, d, e));
  }

  lemma SortKeeps<T>(s: seq<T>, key: T -> Key, i: nat) returns (j: nat)
    requires i < |Sort(s, key)|
    ensures j < |s| && s[j] == Sort(s, key)[i]
  {
    assert Sort(s, key)[i] in multiset(Sort(s, key));
    assert Sort(s, key)[i] in multiset(s);
    j :| 0 <= j < |s| && s[j] == Sort(s, key)[i];
  }

  lemma SortedNamesFixed(nfc: Normaliser, s: seq<string>)
    requires AllFixed(nfc, s)
    ensures AllFixed(nfc, Sort(s, NameKey))
  {
    forall i | 0 <= i < |Sort(s, NameKey)|
      ensures Fixed(nfc, Sort(s, NameKey)[i])
    {
      var j := SortKeeps(s, NameKey, i);
    }
  }

  lemma SortedEntityFixed(nfc: Normaliser, e: Entity)
    requires EntityFixed(nfc, e)
    ensures EntityFixed(nfc, SortedEntity(e))
  {
    SortedNamesFixed(nfc, e.pii);
    forall i | 0 <= i < |Sort(e.fields, FieldKey)|
      ensures FieldFixed(nfc, Sort(e.fields, FieldKey)[i])
    {
      var j := SortKeeps(e.fields, FieldKey, i);
    }
  }

  lemma AssembledFixed(nfc: Normaliser, d: Declaration)
    requires DeclarationFixed(nfc, d)
    ensures DeclarationFixed(nfc, Assembled(d))
  {
    var a := Assembled(d);
    forall i | 0 <= i < |a.entities|
      ensures EntityFixed(nfc, a.entities[i])
    {
      var j := SortKeeps(Mapped(SortedEntity, d.entities), EntityKey, i);
      SortedEntityFixed(nfc, d.entities[j]);
    }
    forall i | 0 <= i < |a.relations|
      ensures RelationFixed(nfc, a.relations[i])
    {
      var j := SortKeeps(d.relations, RelationKey, i);
    }
    forall i | 0 <= i < |a.atomic|
      ensures AllFixed(nfc, a.atomic[i])
    {
      var j := SortKeeps(Mapped(SortedGroup, d.atomic), GroupKey, i);
      SortedNamesFixed(nfc, d.atomic[j]);
    }
  }

  /** Two declarations have the same bytes exactly when they are the same up to the order of their parts, and have the
      same cost ceiling. */
  lemma SameIdentityIff(nfc: Normaliser, d: Declaration, e: Declaration)
    requires KeepsNames(nfc) && DeclarationFixed(nfc, d) && DeclarationFixed(nfc, e) && NamesApart(d)
    ensures Encode(nfc, Ir(Assembled(d))).Accepted? && Encode(nfc, Ir(Assembled(e))).Accepted?
    ensures Encode(nfc, Ir(Assembled(d))) == Encode(nfc, Ir(Assembled(e))) <==>
            SameUpToOrder(d, e) && SameCeiling(nfc, d, e)
  {
    AssembledFixed(nfc, d);
    AssembledFixed(nfc, e);
    IrSame(nfc, Assembled(d), Assembled(e));
    AssembledSameIff(d, e);
    SameBytesIff(nfc, Ir(Assembled(d)), Ir(Assembled(e)));
    EncodeWritesMeaning(nfc, Ir(Assembled(d)));
    EncodeWritesMeaning(nfc, Ir(Assembled(e)));
  }
}
