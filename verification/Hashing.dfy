/** hash_identifiers: a model with digests for names (cpp/src/hashing.cpp:66-130). The keyed digest is a function of the
    caller; nothing is known of it, so that two names may have one digest. */
module Hashing {
  import opened Collections
  import opened Outcomes
  import opened Sorting
  import opened Colocation
  import opened ModelIdentity

  /** hashed_name: a prefix and the parts of a name. */
  type Digest = (string, seq<string>) -> string

  function EntityDigest(h: Digest, e: string): string { h("e_", [e]) }

  function FieldDigest(h: Digest, e: string, f: string): string { h("f_", [e, f]) }

  function RelationDigest(h: Digest, e: string, r: string): string { h("r_", [e, r]) }

  function EntityDigests(h: Digest): (f: string -> string)
    ensures forall n :: f(n) == EntityDigest(h, n)
  {
    n => EntityDigest(h, n)
  }

  function FieldDigests(h: Digest, e: string): (f: string -> string)
    ensures forall n :: f(n) == FieldDigest(h, e, n)
  {
    n => FieldDigest(h, e, n)
  }

  // --- the hashed declaration -----------------------------------------------------------------------

  function HashedFields(h: Digest, e: string, fields: seq<Field>): (r: seq<Field>)
    ensures |r| == |fields|
    ensures forall i :: 0 <= i < |r| ==>
              r[i] == Field(FieldDigest(h, e, fields[i].name), fields[i].kind, fields[i].nullable)
  {
    seq(|fields|, i requires 0 <= i < |fields| =>
      Field(FieldDigest(h, e, fields[i].name), fields[i].kind, fields[i].nullable))
  }

  function HashedNames(h: Digest, e: string, names: seq<string>): (r: seq<string>)
    ensures |r| == |names| && forall i :: 0 <= i < |r| ==> r[i] == FieldDigest(h, e, names[i])
  {
    seq(|names|, i requires 0 <= i < |names| => FieldDigest(h, e, names[i]))
  }

  function HashedEntity(h: Digest, e: Entity): Entity {
    Entity(EntityDigest(h, e.name), HashedFields(h, e.name, e.fields), HashedNames(h, e.name, e.key),
           HashedNames(h, e.name, e.pii), e.residency)
  }

  function HashedRelation(h: Digest, r: Relation): Relation {
    Relation(RelationDigest(h, r.from, r.name), EntityDigest(h, r.from), EntityDigest(h, r.to))
  }

  function HashedGroup(h: Digest, g: seq<string>): (r: seq<string>)
    ensures |r| == |g| && forall i :: 0 <= i < |r| ==> r[i] == EntityDigest(h, g[i])
  {
    seq(|g|, i requires 0 <= i < |g| => EntityDigest(h, g[i]))
  }

  function Hashed(h: Digest, d: Declaration): Declaration {
    Declaration(Mapped((e: Entity) => HashedEntity(h, e), d.entities),
                Mapped((r: Relation) => HashedRelation(h, r), d.relations),
                Mapped((g: seq<string>) => HashedGroup(h, g), d.atomic), d.ceiling)
  }

  // --- what is refused ------------------------------------------------------------------------------

  /** No two of these names have one digest. */
  ghost predicate DigestsApart(digest: string -> string, names: seq<string>) {
    forall i, j {:trigger DigestsDiffer(digest, names, i, j)} ::
      0 <= i < j < |names| ==> DigestsDiffer(digest, names, i, j)
  }

  ghost predicate DigestsDiffer(digest: string -> string, names: seq<string>, i: nat, j: nat)
    requires i < |names| && j < |names|
  {
    digest(names[i]) != digest(names[j])
  }

  function EntityNamesOf(entities: seq<Entity>): (names: seq<string>)
    ensures |names| == |entities| && forall i :: 0 <= i < |names| ==> names[i] == entities[i].name
  {
    seq(|entities|, i requires 0 <= i < |entities| => entities[i].name)
  }

  function FieldNamesOf(fields: seq<Field>): (names: seq<string>)
    ensures |names| == |fields| && forall i :: 0 <= i < |names| ==> names[i] == fields[i].name
  {
    seq(|fields|, i requires 0 <= i < |fields| => fields[i].name)
  }

  ghost predicate EntitiesApart(h: Digest, entities: seq<Entity>) {
    DigestsApart(EntityDigests(h), EntityNamesOf(entities))
  }

  ghost predicate FieldsApart(h: Digest, e: Entity) {
    DigestsApart(FieldDigests(h, e.name), FieldNamesOf(e.fields))
  }

  ghost predicate AllFieldsApart(h: Digest, entities: seq<Entity>) {
    forall i :: 0 <= i < |entities| ==> FieldsApart(h, entities[i])
  }

  /** No two relations of one entity have one digest: the assembled model would have a relation twice. */
  ghost predicate RelationsApart(h: Digest, relations: seq<Relation>) {
    forall i, j {:trigger RelationsDiffer(h, relations, i, j)} ::
      0 <= i < j < |relations| ==> RelationsDiffer(h, relations, i, j)
  }

  ghost predicate RelationsDiffer(h: Digest, relations: seq<Relation>, i: nat, j: nat)
    requires i < |relations| && j < |relations|
  {
    var r, s := HashedRelation(h, relations[i]), HashedRelation(h, relations[j]);
    r.from != s.from || r.name != s.name
  }

  /** What is hashed: a salt of 16 bytes, and no collision that would merge two things into one. */
  ghost predicate Hashable(h: Digest, salt: nat, d: Declaration) {
    salt >= 16 && EntitiesApart(h, d.entities) && AllFieldsApart(h, d.entities) &&
    RelationsApart(h, d.relations)
  }

  lemma DigestsInjective(digest: string -> string, names: seq<string>, i: nat, j: nat)
    requires DigestsApart(digest, names) && i < |names| && j < |names| && digest(names[i]) == digest(names[j])
    ensures i == j
  {
    assert i < j ==> DigestsDiffer(digest, names, i, j);
    assert j < i ==> DigestsDiffer(digest, names, j, i);
  }

  // --- the loops ------------------------------------------------------------------------------------

  lemma ApartMore(digest: string -> string, names: seq<string>, i: nat, taken: set<string>)
    requires i < |names| && DigestsApart(digest, names[..i])
    requires taken == set j | 0 <= j < i :: digest(names[j])
    ensures DigestsApart(digest, names[..i + 1]) <==> digest(names[i]) !in taken
    ensures digest(names[i]) in taken ==> !DigestsApart(digest, names)
  {
    var more := names[..i + 1];
    if digest(names[i]) in taken {
      var j :| 0 <= j < i && digest(names[j]) == digest(names[i]);
      assert !DigestsDiffer(digest, more, j, i) && !DigestsDiffer(digest, names, j, i);
    } else {
      forall j, k | 0 <= j < k < |more|
        ensures DigestsDiffer(digest, more, j, k)
      {
        assert k < i ==> DigestsDiffer(digest, names[..i], j, k);
        assert digest(names[j]) in taken;
      }
    }
  }

  /** The digests of some names, refused when one is taken. */
  method HashNames(digest: string -> string, names: seq<string>) returns (r: Outcome<map<string, string>>)
    ensures r.Accepted? <==> DigestsApart(digest, names)
    ensures r.Accepted? ==> r.value == map n | n in names :: digest(n)
  {
    var hashed: map<string, string> := map[];
    var taken: set<string> := {};
    for i := 0 to |names|
      invariant DigestsApart(digest, names[..i])
      invariant taken == set j | 0 <= j < i :: digest(names[j])
      invariant hashed == map n | n in names[..i] :: digest(n)
    {
      ApartMore(digest, names, i, taken);
      if digest(names[i]) in taken {
        return Refused;
      }
      taken := taken + {digest(names[i])};
      hashed := hashed[names[i] := digest(names[i])];
      assert names[..i + 1] == names[..i] + [names[i]];
    }
    assert names[..|names|] == names;
    return Accepted(hashed);
  }

  // --- the colocation groups ------------------------------------------------------------------------

  function Image(links: set<Link>, f: string -> string): set<Link> { set l | l in links :: (f(l.0), f(l.1)) }

  ghost predicate Injective(f: string -> string, s: set<string>) {
    forall x, y {:trigger f(x), f(y)} :: x in s && y in s && f(x) == f(y) ==> x == y
  }

  ghost predicate LinksAmong(links: set<Link>, s: set<string>) { forall l :: l in links ==> l.0 in s && l.1 in s }

  lemma ImagePath(links: set<Link>, f: string -> string, p: seq<string>, a: string, b: string)
    requires Path(links, p, a, b)
    ensures Connected(Image(links, f), f(a), f(b))
  {
    var q := seq(|p|, i requires 0 <= i < |p| => f(p[i]));
    forall i | 0 <= i < |q| - 1
      ensures Adjacent(Image(links, f), q[i], q[i + 1])
    {
      assert Adjacent(links, p[i], p[i + 1]);
      if (p[i], p[i + 1]) in links {
        assert (f(p[i]), f(p[i + 1])) in Image(links, f);
      } else {
        assert (f(p[i + 1]), f(p[i])) in Image(links, f);
      }
    }
    assert Path(Image(links, f), q, f(a), f(b));
  }

  /** Every path among the images is the image of a path. */
  lemma {:induction false} PathBack(links: set<Link>, f: string -> string, s: set<string>, p: seq<string>, a: string,
                                    z: string) returns (c: string)
    requires LinksAmong(links, s) && Injective(f, s) && a in s && Path(Image(links, f), p, f(a), z)
    ensures c in s && z == f(c) && Connected(links, a, c)
    decreases |p|
  {
    if |p| == 1 {
      ConnectedSelf(links, a);
      return a;
    }
    assert Adjacent(Image(links, f), p[0], p[0 + 1]);
    var y := StepBack(links, f, s, a, p[1]);
    PathTail(Image(links, f), p, f(a), z);
    c := PathBack(links, f, s, p[1..], y, z);
    ConnectedLink(links, a, y);
    ConnectedTransitive(links, a, y, c);
  }

  lemma StepBack(links: set<Link>, f: string -> string, s: set<string>, a: string, z: string) returns (y: string)
    requires LinksAmong(links, s) && Injective(f, s) && a in s && Adjacent(Image(links, f), f(a), z)
    ensures y in s && z == f(y) && Adjacent(links, a, y)
  {
    if (f(a), z) in Image(links, f) {
      var l :| l in links && (f(l.0), f(l.1)) == (f(a), z);
      assert f(l.0) == f(a) && l.0 == a;
      y := l.1;
    } else {
      var l :| l in links && (f(l.0), f(l.1)) == (z, f(a));
      assert f(l.1) == f(a) && l.1 == a;
      y := l.0;
    }
  }

  /** An injective renaming keeps what is connected, both ways. */
  lemma ConnectedImageIff(links: set<Link>, f: string -> string, s: set<string>, a: string, b: string)
    requires LinksAmong(links, s) && Injective(f, s) && a in s && b in s
    ensures Connected(Image(links, f), f(a), f(b)) <==> Connected(links, a, b)
  {
    if Connected(links, a, b) {
      var p :| Path(links, p, a, b);
      ImagePath(links, f, p, a, b);
    }
    if Connected(Image(links, f), f(a), f(b)) {
      var p :| Path(Image(links, f), p, f(a), f(b));
      var c := PathBack(links, f, s, p, a, f(b));
      assert f(c) == f(b);
    }
  }

  /** So the components of the renamed model are the images of the components of the model. */
  lemma ComponentImage(links: set<Link>, f: string -> string, s: set<string>, a: string)
    requires LinksAmong(links, s) && Injective(f, s) && a in s
    ensures Component(set x | x in s :: f(x), Image(links, f), f(a)) == set x | x in Component(s, links, a) :: f(x)
  {
    forall b | b in s
      ensures Connected(Image(links, f), f(a), f(b)) <==> Connected(links, a, b)
    {
      ConnectedImageIff(links, f, s, a, b);
    }
  }

  // --- a declaration's links ------------------------------------------------------------------------

  function LinkOf(r: Relation): Link { (r.from, r.to) }

  function LinksOf(d: Declaration): set<Link> { Links(Mapped(LinkOf, d.relations), d.atomic) }

  ghost function EntitySet(d: Declaration): set<string> { AsSet(EntityNamesOf(d.entities)) }

  /** What an accepted declaration says: keys and pii name fields, relations and atomic groups name entities. */
  ghost predicate Closed(d: Declaration) {
    (forall i :: 0 <= i < |d.entities| ==> ClosedEntity(d.entities[i])) &&
    (forall i :: 0 <= i < |d.relations| ==> ClosedRelation(d, d.relations[i])) &&
    forall i :: 0 <= i < |d.atomic| ==> ClosedGroup(d, d.atomic[i])
  }

  ghost predicate ClosedEntity(e: Entity) {
    (forall i :: 0 <= i < |e.key| ==> e.key[i] in FieldNamesOf(e.fields)) &&
    forall i :: 0 <= i < |e.pii| ==> e.pii[i] in FieldNamesOf(e.fields)
  }

  ghost predicate ClosedRelation(d: Declaration, r: Relation) { r.from in EntitySet(d) && r.to in EntitySet(d) }

  ghost predicate ClosedGroup(d: Declaration, g: seq<string>) { forall i :: 0 <= i < |g| ==> g[i] in EntitySet(d) }

  lemma ClosedLinks(d: Declaration)
    requires Closed(d)
    ensures LinksAmong(LinksOf(d), EntitySet(d))
  {
    forall l | l in LinksOf(d)
      ensures l.0 in EntitySet(d) && l.1 in EntitySet(d)
    {
      if l in AsSet(Mapped(LinkOf, d.relations)) {
        var i :| 0 <= i < |d.relations| && Mapped(LinkOf, d.relations)[i] == l;
        assert ClosedRelation(d, d.relations[i]);
      } else {
        var g :| g in d.atomic && |g| >= 2 && l.0 in g && l.1 in g;
        var i :| 0 <= i < |d.atomic| && d.atomic[i] == g;
        assert ClosedGroup(d, g);
      }
    }
  }

  lemma RelationLinks(h: Digest, relations: seq<Relation>)
    ensures AsSet(Mapped(LinkOf, Mapped((r: Relation) => HashedRelation(h, r), relations))) ==
            Image(AsSet(Mapped(LinkOf, relations)), EntityDigests(h))
  {
    var f := EntityDigests(h);
    var hashed := Mapped((r: Relation) => HashedRelation(h, r), relations);
    LinkImages(Mapped(LinkOf, hashed), Mapped(LinkOf, relations), f);
  }

  lemma LinkImages(a: seq<Link>, b: seq<Link>, f: string -> string)
    requires |a| == |b| && forall i :: 0 <= i < |a| ==> a[i] == (f(b[i].0), f(b[i].1))
    ensures AsSet(a) == Image(AsSet(b), f)
  {
    forall l | l in Image(AsSet(b), f)
      ensures l in AsSet(a)
    {
      var m :| m in AsSet(b) && l == (f(m.0), f(m.1));
      var i :| 0 <= i < |b| && b[i] == m;
      assert a[i] == l;
    }
    forall l | l in AsSet(a)
      ensures l in Image(AsSet(b), f)
    {
      var i :| 0 <= i < |a| && a[i] == l;
      assert b[i] in AsSet(b);
    }
  }

  lemma AtomicLinks(h: Digest, atomic: seq<seq<string>>)
    ensures GroupLinks(Mapped((g: seq<string>) => HashedGroup(h, g), atomic)) ==
            Image(GroupLinks(atomic), EntityDigests(h))
  {
    var f := EntityDigests(h);
    var hashed := Mapped((g: seq<string>) => HashedGroup(h, g), atomic);
    forall l | l in GroupLinks(hashed)
      ensures l in Image(GroupLinks(atomic), f)
    {
      var g :| g in hashed && |g| >= 2 && l.0 in g && l.1 in g;
      var k :| 0 <= k < |hashed| && hashed[k] == g;
      var i :| 0 <= i < |g| && g[i] == l.0;
      var j :| 0 <= j < |g| && g[j] == l.1;
      assert (atomic[k][i], atomic[k][j]) in GroupLinks(atomic) by {
        assert atomic[k] in atomic && atomic[k][i] in atomic[k] && atomic[k][j] in atomic[k];
      }
    }
    forall l | l in Image(GroupLinks(atomic), f)
      ensures l in GroupLinks(hashed)
    {
      var m :| m in GroupLinks(atomic) && l == (f(m.0), f(m.1));
      var g :| g in atomic && |g| >= 2 && m.0 in g && m.1 in g;
      var k :| 0 <= k < |atomic| && atomic[k] == g;
      var i :| 0 <= i < |g| && g[i] == m.0;
      var j :| 0 <= j < |g| && g[j] == m.1;
      assert hashed[k] in hashed && hashed[k][i] in hashed[k] && hashed[k][j] in hashed[k];
    }
  }

  lemma HashedLinks(h: Digest, d: Declaration)
    ensures LinksOf(Hashed(h, d)) == Image(LinksOf(d), EntityDigests(h))
  {
    RelationLinks(h, d.relations);
    AtomicLinks(h, d.atomic);
    var f := EntityDigests(h);
    assert LinksOf(d) == AsSet(Mapped(LinkOf, d.relations)) + GroupLinks(d.atomic);
    assert LinksOf(Hashed(h, d)) == AsSet(Mapped(LinkOf, Hashed(h, d).relations)) + GroupLinks(Hashed(h, d).atomic);
    ImageOfBoth(AsSet(Mapped(LinkOf, d.relations)), GroupLinks(d.atomic), f);
  }

  lemma ImageOfBoth(a: set<Link>, b: set<Link>, f: string -> string)
    ensures Image(a + b, f) == Image(a, f) + Image(b, f)
  {
  }

  lemma EntityDigestsInjective(h: Digest, d: Declaration)
    requires EntitiesApart(h, d.entities)
    ensures Injective(EntityDigests(h), EntitySet(d))
  {
    var f, names := EntityDigests(h), EntityNamesOf(d.entities);
    forall x, y | x in EntitySet(d) && y in EntitySet(d) && f(x) == f(y)
      ensures x == y
    {
      var i :| 0 <= i < |names| && names[i] == x;
      var j :| 0 <= j < |names| && names[j] == y;
      DigestsInjective(f, names, i, j);
    }
  }

  lemma HashedEntitySet(h: Digest, d: Declaration)
    ensures EntitySet(Hashed(h, d)) == set x | x in EntitySet(d) :: EntityDigest(h, x)
  {
    var a, b := EntityNamesOf(Hashed(h, d).entities), EntityNamesOf(d.entities);
    assert forall i :: 0 <= i < |a| ==> a[i] == EntityDigest(h, b[i]);
    forall x | x in EntitySet(d)
      ensures EntityDigest(h, x) in EntitySet(Hashed(h, d))
    {
      var i :| 0 <= i < |b| && b[i] == x;
      assert a[i] in a;
    }
    forall y | y in EntitySet(Hashed(h, d))
      ensures exists x :: x in EntitySet(d) && y == EntityDigest(h, x)
    {
      var i :| 0 <= i < |a| && a[i] == y;
      assert b[i] in EntitySet(d);
    }
  }

  // --- what the order of the assembled model leaves alone -------------------------------------------

  /** The images of two lists that hold the same. */
  lemma {:induction false} SameImages<T(!new), U>(s: seq<T>, t: seq<T>, f: T -> U)
    requires forall x :: x in s <==> x in t
    ensures AsSet(Mapped(f, s)) == AsSet(Mapped(f, t))
  {
    SomeImages(s, t, f);
    SomeImages(t, s, f);
  }

  lemma {:induction false} SomeImages<T(!new), U>(s: seq<T>, t: seq<T>, f: T -> U)
    requires forall x :: x in s ==> x in t
    ensures AsSet(Mapped(f, s)) <= AsSet(Mapped(f, t))
  {
    forall y | y in AsSet(Mapped(f, s))
      ensures y in AsSet(Mapped(f, t))
    {
      var i :| 0 <= i < |s| && Mapped(f, s)[i] == y;
      assert s[i] in t;
      var j :| 0 <= j < |t| && t[j] == s[i];
      assert Mapped(f, t)[j] == y;
    }
  }

  lemma {:induction false} SortedImages<T(!new), U>(s: seq<T>, key: T -> Key, f: T -> U)
    ensures AsSet(Mapped(f, Sort(s, key))) == AsSet(Mapped(f, s))
  {
    forall x
      ensures x in Sort(s, key) <==> x in s
    {
      SortedHas(s, key, x);
    }
    SameImages(Sort(s, key), s, f);
  }

  lemma {:induction false} AssembledGroups(atomic: seq<seq<string>>)
    ensures GroupLinks(Sort(Mapped(SortedGroup, atomic), GroupKey)) == GroupLinks(atomic)
  {
    var sorted := Mapped(SortedGroup, atomic);
    forall g
      ensures g in Sort(sorted, GroupKey) <==> g in sorted
    {
      SortedHas(sorted, GroupKey, g);
    }
    forall i | 0 <= i < |atomic|
      ensures AsSet(sorted[i]) == AsSet(atomic[i]) && |sorted[i]| == |atomic[i]|
    {
      SameMembers(atomic[i]);
    }
    AlikeGroups(atomic, sorted, Sort(sorted, GroupKey));
  }

  lemma AlikeGroups(atomic: seq<seq<string>>, sorted: seq<seq<string>>, r: seq<seq<string>>)
    requires |sorted| == |atomic| && forall g :: g in r <==> g in sorted
    requires forall i :: 0 <= i < |atomic| ==> AsSet(sorted[i]) == AsSet(atomic[i]) && |sorted[i]| == |atomic[i]|
    ensures GroupLinks(r) == GroupLinks(atomic)
  {
    forall g | g in r
      ensures IsGroupOf(g, atomic)
    {
      var i :| 0 <= i < |sorted| && sorted[i] == g;
      assert atomic[i] in atomic;
    }
    forall g | g in atomic
      ensures IsGroupOf(g, r)
    {
      var i :| 0 <= i < |atomic| && atomic[i] == g;
      assert sorted[i] in r;
    }
    LinksOrderFree([], [], r, atomic);
    assert Links([], r) == GroupLinks(r) && Links([], atomic) == GroupLinks(atomic);
  }

  lemma SameMembers(g: seq<string>)
    ensures AsSet(SortedGroup(g)) == AsSet(g) && |SortedGroup(g)| == |g|
  {
    assert multiset(SortedGroup(g)) == multiset(g);
    assert |SortedGroup(g)| == |multiset(SortedGroup(g))| && |g| == |multiset(g)|;
    forall x
      ensures x in SortedGroup(g) <==> x in g
    {
      assert x in SortedGroup(g) <==> x in multiset(SortedGroup(g));
    }
  }

  /** Putting a declaration in order changes neither its entities nor its links. */
  lemma {:induction false} AssembledKeeps(d: Declaration)
    ensures EntitySet(Assembled(d)) == EntitySet(d) && LinksOf(Assembled(d)) == LinksOf(d)
  {
    SortedImages(d.relations, RelationKey, LinkOf);
    AssembledGroups(d.atomic);
    AssembledNames(d.entities);
  }

  lemma {:induction false} AssembledNames(entities: seq<Entity>)
    ensures AsSet(EntityNamesOf(Sort(Mapped(SortedEntity, entities), EntityKey))) == AsSet(EntityNamesOf(entities))
  {
    var sorted := Mapped(SortedEntity, entities);
    SortedImages(sorted, EntityKey, NameOf);
    NamesAreImages(sorted);
    NamesAreImages(Sort(sorted, EntityKey));
    assert EntityNamesOf(sorted) == EntityNamesOf(entities);
  }

  lemma {:induction false} NamesAreImages(entities: seq<Entity>)
    ensures Mapped(NameOf, entities) == EntityNamesOf(entities)
  {
  }

  function NameOf(e: Entity): string { e.name }

  /** The colocation group of a hashed entity is the image of the group of the entity. */
  lemma HashedColocation(h: Digest, d: Declaration, a: string)
    requires Closed(d) && EntitiesApart(h, d.entities) && a in EntitySet(d)
    ensures var hashed := Assembled(Hashed(h, d));
            Component(EntitySet(hashed), LinksOf(hashed), EntityDigest(h, a)) ==
            set x | x in Component(EntitySet(d), LinksOf(d), a) :: EntityDigest(h, x)
  {
    var f := EntityDigests(h);
    AssembledKeeps(Hashed(h, d));
    ClosedLinks(d);
    HashedLinks(h, d);
    HashedEntitySet(h, d);
    EntityDigestsInjective(h, d);
    ComponentImage(LinksOf(d), f, EntitySet(d), a);
    DigestsOf(h, EntitySet(d));
    DigestsOf(h, Component(EntitySet(d), LinksOf(d), a));
  }

  lemma DigestsOf(h: Digest, names: set<string>)
    ensures (set x | x in names :: EntityDigests(h)(x)) == set x | x in names :: EntityDigest(h, x)
  {
  }

  /** The hashed key and pii point at the hashed fields exactly as the key and pii point at the fields. */
  lemma HashedKeyPoints(h: Digest, e: Entity, i: nat, j: nat)
    requires FieldsApart(h, e) && ClosedEntity(e) && i < |e.fields|
    ensures j < |e.key| ==> (HashedEntity(h, e).fields[i].name == HashedEntity(h, e).key[j] <==>
                             e.fields[i].name == e.key[j])
    ensures j < |e.pii| ==> (HashedEntity(h, e).fields[i].name == HashedEntity(h, e).pii[j] <==>
                             e.fields[i].name == e.pii[j])
  {
    var f, names := FieldDigests(h, e.name), FieldNamesOf(e.fields);
    if j < |e.key| && f(names[i]) == f(e.key[j]) {
      var k :| 0 <= k < |names| && names[k] == e.key[j];
      DigestsInjective(f, names, i, k);
    }
    if j < |e.pii| && f(names[i]) == f(e.pii[j]) {
      var k :| 0 <= k < |names| && names[k] == e.pii[j];
      DigestsInjective(f, names, i, k);
    }
  }

  // --- what a hashed declaration holds ----------------------------------------------------------------

  /** f is e with digests for its name and for the names of its fields: the same residency, the same key position by
      position, and for each field, and each name of the pii, one that differs in nothing but the name. */
  ghost predicate IsEntityHash(h: Digest, e: Entity, f: Entity) {
    && f.name == h("e_", [e.name]) && f.residency == e.residency
    && |f.key| == |e.key| && (forall i :: 0 <= i < |e.key| ==> f.key[i] == h("f_", [e.name, e.key[i]]))
    && multiset(f.pii) == multiset(Mapped((x: string) => h("f_", [e.name, x]), e.pii))
    && multiset(f.fields) ==
       multiset(Mapped((x: Field) => Field(h("f_", [e.name, x.name]), x.kind, x.nullable), e.fields))
  }

  /** r is d with digests for its names: an entity for each entity, no two of one name, a relation for each relation,
      a group for each group, the same ceiling, and its parts in the order of their new names. */
  ghost predicate IsHash(h: Digest, d: Declaration, r: Declaration) {
    && |r.entities| == |d.entities| && KeysApart(r.entities, EntityKey)
    && (forall e :: e in d.entities ==> HasHash(h, e, r.entities))
    && multiset(r.relations) ==
       multiset(Mapped((x: Relation) => Relation(h("r_", [x.from, x.name]), h("e_", [x.from]), h("e_", [x.to])),
                       d.relations))
    && multiset(Mapped(MembersOf, r.atomic)) ==
       multiset(Mapped((g: seq<string>) => multiset(Mapped((x: string) => h("e_", [x]), g)), d.atomic))
    && r.ceiling == d.ceiling && PartsInOrder(r)
  }

  ghost predicate HasHash(h: Digest, e: Entity, fs: seq<Entity>) { exists f :: f in fs && IsEntityHash(h, e, f) }

  lemma {:induction false} SameMapped<T, U>(f: T -> U, s: seq<T>, r: seq<U>)
    requires |r| == |s| && forall i :: 0 <= i < |s| ==> r[i] == f(s[i])
    ensures r == Mapped(f, s)
  {
  }

  lemma {:induction false} SortedEntityHash(h: Digest, e: Entity)
    ensures IsEntityHash(h, e, SortedEntity(HashedEntity(h, e)))
  {
    var hashed := HashedEntity(h, e);
    SameMapped((x: string) => h("f_", [e.name, x]), e.pii, hashed.pii);
    SameMapped((x: Field) => Field(h("f_", [e.name, x.name]), x.kind, x.nullable), e.fields, hashed.fields);
  }

  lemma {:induction false} EntitiesHashed(h: Digest, d: Declaration)
    requires EntitiesApart(h, d.entities)
    ensures var es := Assembled(Hashed(h, d)).entities;
            |es| == |d.entities| && KeysApart(es, EntityKey) && forall e :: e in d.entities ==> HasHash(h, e, es)
  {
    var s := Mapped(SortedEntity, Hashed(h, d).entities);
    var es := Sort(s, EntityKey);
    SortedPairs(s, EntityKey);
    forall i, j | 0 <= i < j < |s|
      ensures KeyDiffers(s, EntityKey, i, j)
    {
      assert DigestsDiffer(EntityDigests(h), EntityNamesOf(d.entities), i, j);
      assert EntityKey(s[i])[0] != EntityKey(s[j])[0];
    }
    SortKeepsApart(s, EntityKey);
    forall e | e in d.entities
      ensures HasHash(h, e, es)
    {
      var i :| 0 <= i < |d.entities| && d.entities[i] == e;
      SortedEntityHash(h, e);
      SortedHas(s, EntityKey, s[i]);
      assert s[i] == SortedEntity(HashedEntity(h, e));
    }
  }

  /** A list put in order still has each key once. */
  lemma {:induction false} SortKeepsApart<T(!new)>(s: seq<T>, key: T -> Key)
    requires KeysApart(s, key)
    ensures KeysApart(Sort(s, key), key)
  {
    var r := Sort(s, key);
    ApartTells(s, key);
    forall i, j | 0 <= i < j < |r|
      ensures KeyDiffers(r, key, i, j)
    {
      if key(r[i]) == key(r[j]) {
        TwiceIn(r, i, j);
        SortedHas(s, key, r[i]);
        assert r[j] in multiset(r) && r[i] in multiset(r);
        assert Told(key, r[i], r[j]);
        OnceIn(s, key, r[i]);
        assert false;
      }
    }
  }

  lemma TwiceIn<T>(r: seq<T>, i: nat, j: nat)
    requires i < j < |r|
    ensures r[i] == r[j] ==> multiset(r)[r[i]] >= 2
  {
    assert r == r[..j] + [r[j]] + r[j + 1..];
    assert r[i] in r[..j];
    assert r[i] in multiset(r[..j]);
  }

  lemma {:induction false} OnceIn<T>(s: seq<T>, key: T -> Key, x: T)
    requires KeysApart(s, key) && x in s
    ensures multiset(s)[x] == 1
  {
    var i :| 0 <= i < |s| && s[i] == x;
    assert s == s[..i] + [x] + s[i + 1..];
    forall j | 0 <= j < |s| && j != i
      ensures s[j] != x
    {
      ApartAt(s, key, i, j);
    }
    assert x !in s[..i] && x !in s[i + 1..];
    assert x !in multiset(s[..i]) && x !in multiset(s[i + 1..]);
  }

  lemma ApartAt<T>(s: seq<T>, key: T -> Key, i: nat, j: nat)
    requires KeysApart(s, key) && i < |s| && j < |s| && i != j
    ensures key(s[i]) != key(s[j])
  {
    assert i < j ==> KeyDiffers(s, key, i, j);
    assert j < i ==> KeyDiffers(s, key, j, i);
  }

  lemma {:induction false} RelationsHashed(h: Digest, d: Declaration)
    ensures multiset(Assembled(Hashed(h, d)).relations) ==
            multiset(Mapped((x: Relation) => Relation(h("r_", [x.from, x.name]), h("e_", [x.from]), h("e_", [x.to])),
                            d.relations))
  {
    SameMapped((x: Relation) => Relation(h("r_", [x.from, x.name]), h("e_", [x.from]), h("e_", [x.to])), d.relations,
               Hashed(h, d).relations);
  }

  lemma {:induction false} GroupsHashed(h: Digest, d: Declaration)
    ensures multiset(Mapped(MembersOf, Assembled(Hashed(h, d)).atomic)) ==
            multiset(Mapped((g: seq<string>) => multiset(Mapped((x: string) => h("e_", [x]), g)), d.atomic))
  {
    var f := (g: seq<string>) => multiset(Mapped((x: string) => h("e_", [x]), g));
    var hashed := Hashed(h, d).atomic;
    SameMembersOf(hashed);
    forall i | 0 <= i < |d.atomic|
      ensures Mapped(MembersOf, hashed)[i] == f(d.atomic[i])
    {
      SameMapped((x: string) => h("e_", [x]), d.atomic[i], hashed[i]);
    }
    SameMapped(f, d.atomic, Mapped(MembersOf, hashed));
  }

  /** The hashed declaration put in order is the declaration with digests for its names. */
  lemma {:induction false} AssembledIsHash(h: Digest, d: Declaration, r: Declaration)
    requires EntitiesApart(h, d.entities) && r == Assembled(Hashed(h, d))
    ensures IsHash(h, d, r)
  {
    EntitiesHashed(h, d);
    RelationsHashed(h, d);
    GroupsHashed(h, d);
    AssembledInOrder(Hashed(h, d));
  }

  // --- hash_identifiers -----------------------------------------------------------------------------

  method HashEntity(h: Digest, e: Entity, names: map<string, string>) returns (r: Outcome<Entity>)
    requires ClosedEntity(e) && e.name in names && names[e.name] == EntityDigest(h, e.name)
    ensures r.Accepted? <==> FieldsApart(h, e)
    ensures r.Accepted? ==> r.value == HashedEntity(h, e)
  {
    var f := FieldDigests(h, e.name);
    var mapping := HashNames(f, FieldNamesOf(e.fields));
    if mapping.Refused? {
      return Refused;
    }
    var fields := HashedFields(h, e.name, e.fields);
    var key := Lookup(mapping.value, e.key);
    var pii := Lookup(mapping.value, e.pii);
    assert key == HashedNames(h, e.name, e.key) && pii == HashedNames(h, e.name, e.pii);
    return Accepted(Entity(names[e.name], fields, key, pii, e.residency));
  }

  method Lookup(mapping: map<string, string>, names: seq<string>) returns (r: seq<string>)
    requires forall i :: 0 <= i < |names| ==> names[i] in mapping
    ensures |r| == |names| && forall i :: 0 <= i < |names| ==> r[i] == mapping[names[i]]
  {
    r := [];
    for i := 0 to |names|
      invariant |r| == i && forall j :: 0 <= j < i ==> r[j] == mapping[names[j]]
    {
      r := r + [mapping[names[i]]];
    }
  }

  /** Every entity's name with its digest. */
  ghost predicate NamesHashed(h: Digest, d: Declaration, names: map<string, string>) {
    names == map n | n in EntityNamesOf(d.entities) :: EntityDigest(h, n)
  }

  lemma AreHashed(h: Digest, d: Declaration, names: map<string, string>)
    requires names == map n | n in EntityNamesOf(d.entities) :: EntityDigests(h)(n)
    ensures NamesHashed(h, d, names)
  {
  }

  lemma EntityHashed(h: Digest, d: Declaration, names: map<string, string>, i: nat)
    requires NamesHashed(h, d, names) && i < |d.entities|
    ensures d.entities[i].name in names && names[d.entities[i].name] == EntityDigest(h, d.entities[i].name)
  {
    assert EntityNamesOf(d.entities)[i] in EntityNamesOf(d.entities);
  }

  ghost predicate HashedSoFar(h: Digest, entities: seq<Entity>, out: seq<Entity>) {
    |out| <= |entities| &&
    forall j :: 0 <= j < |out| ==> FieldsApart(h, entities[j]) && out[j] == HashedEntity(h, entities[j])
  }

  lemma HashedOneMore(h: Digest, entities: seq<Entity>, out: seq<Entity>, e: Entity)
    requires HashedSoFar(h, entities, out) && |out| < |entities|
    requires FieldsApart(h, entities[|out|]) && e == HashedEntity(h, entities[|out|])
    ensures HashedSoFar(h, entities, out + [e])
  {
  }

  method HashEntities(h: Digest, d: Declaration, names: map<string, string>) returns (r: Outcome<seq<Entity>>)
    requires Closed(d) && NamesHashed(h, d, names)
    ensures r.Accepted? <==> AllFieldsApart(h, d.entities)
    ensures r.Accepted? ==> r.value == Hashed(h, d).entities
  {
    var out: seq<Entity> := [];
    for i := 0 to |d.entities|
      invariant |out| == i && HashedSoFar(h, d.entities, out)
    {
      assert ClosedEntity(d.entities[i]);
      EntityHashed(h, d, names, i);
      var e := HashEntity(h, d.entities[i], names);
      if e.Refused? {
        return Refused;
      }
      HashedOneMore(h, d.entities, out, e.value);
      out := out + [e.value];
    }
    assert out == Hashed(h, d).entities;
    return Accepted(out);
  }

  method HashRelations(h: Digest, d: Declaration, names: map<string, string>) returns (r: seq<Relation>)
    requires Closed(d) && NamesHashed(h, d, names)
    ensures r == Hashed(h, d).relations
  {
    r := [];
    for i := 0 to |d.relations|
      invariant |r| == i && forall j :: 0 <= j < i ==> r[j] == HashedRelation(h, d.relations[j])
    {
      var relation := d.relations[i];
      assert ClosedRelation(d, relation);
      r := r + [Relation(RelationDigest(h, relation.from, relation.name), names[relation.from], names[relation.to])];
    }
  }

  method HashAtomic(h: Digest, d: Declaration, names: map<string, string>) returns (r: seq<seq<string>>)
    requires Closed(d) && NamesHashed(h, d, names)
    ensures r == Hashed(h, d).atomic
  {
    r := [];
    for i := 0 to |d.atomic|
      invariant |r| == i && forall j :: 0 <= j < i ==> r[j] == HashedGroup(h, d.atomic[j])
    {
      assert ClosedGroup(d, d.atomic[i]);
      var members := Lookup(names, d.atomic[i]);
      assert members == HashedGroup(h, d.atomic[i]);
      r := r + [members];
    }
  }

  ghost predicate RelationDistinct(relations: seq<Relation>, i: nat, j: nat)
    requires i < |relations| && j < |relations|
  {
    relations[i].from != relations[j].from || relations[i].name != relations[j].name
  }

  ghost predicate RelationsDistinct(relations: seq<Relation>) {
    forall i, j {:trigger RelationDistinct(relations, i, j)} ::
      0 <= i < j < |relations| ==> RelationDistinct(relations, i, j)
  }

  /** The refusal of a relation declared twice (cpp/src/model.cpp:88-101). */
  method NoRelationTwice(relations: seq<Relation>) returns (ok: bool)
    ensures ok <==> RelationsDistinct(relations)
  {
    var seen: set<(string, string)> := {};
    for i := 0 to |relations|
      invariant seen == set j | 0 <= j < i :: (relations[j].from, relations[j].name)
      invariant forall j, k {:trigger RelationDistinct(relations, j, k)} ::
        0 <= j < k < i ==> RelationDistinct(relations, j, k)
    {
      var pair := (relations[i].from, relations[i].name);
      if pair in seen {
        var j :| 0 <= j < i && (relations[j].from, relations[j].name) == pair;
        assert !RelationDistinct(relations, j, i);
        return false;
      }
      forall j | 0 <= j < i
        ensures RelationDistinct(relations, j, i)
      {
        assert (relations[j].from, relations[j].name) in seen;
      }
      seen := seen + {pair};
    }
    return true;
  }

  lemma RelationsApartIff(h: Digest, d: Declaration)
    ensures RelationsApart(h, d.relations) <==> RelationsDistinct(Hashed(h, d).relations)
  {
    var r := Hashed(h, d).relations;
    assert forall i :: 0 <= i < |r| ==> r[i] == HashedRelation(h, d.relations[i]);
    if RelationsApart(h, d.relations) {
      forall i, j | 0 <= i < j < |r|
        ensures RelationDistinct(r, i, j)
      {
        assert RelationsDiffer(h, d.relations, i, j);
      }
    }
    if RelationsDistinct(r) {
      forall i, j | 0 <= i < j < |d.relations|
        ensures RelationsDiffer(h, d.relations, i, j)
      {
        assert RelationDistinct(r, i, j);
      }
    }
  }

  /** No digest would merge two entities, two fields of one entity, or two relations of one entity. */
  ghost predicate NoCollision(h: Digest, d: Declaration) {
    && (forall i, j :: 0 <= i < j < |d.entities| ==> h("e_", [d.entities[i].name]) != h("e_", [d.entities[j].name]))
    && (forall e :: e in d.entities ==> NoFieldCollision(h, e))
    && (forall i, j :: 0 <= i < j < |d.relations| ==>
          var r, s := d.relations[i], d.relations[j];
          h("e_", [r.from]) != h("e_", [s.from]) || h("r_", [r.from, r.name]) != h("r_", [s.from, s.name]))
  }

  ghost predicate NoFieldCollision(h: Digest, e: Entity) {
    forall i, j :: 0 <= i < j < |e.fields| ==>
      h("f_", [e.name, e.fields[i].name]) != h("f_", [e.name, e.fields[j].name])
  }

  lemma EntitiesApartIff(h: Digest, d: Declaration)
    ensures EntitiesApart(h, d.entities) <==>
            forall i, j :: 0 <= i < j < |d.entities| ==> h("e_", [d.entities[i].name]) != h("e_", [d.entities[j].name])
  {
    var names := EntityNamesOf(d.entities);
    if EntitiesApart(h, d.entities) {
      forall i, j | 0 <= i < j < |d.entities|
        ensures h("e_", [d.entities[i].name]) != h("e_", [d.entities[j].name])
      {
        assert DigestsDiffer(EntityDigests(h), names, i, j);
      }
    }
  }

  lemma FieldsApartIff(h: Digest, e: Entity)
    ensures FieldsApart(h, e) <==> NoFieldCollision(h, e)
  {
    var names := FieldNamesOf(e.fields);
    if FieldsApart(h, e) {
      forall i, j | 0 <= i < j < |e.fields|
        ensures h("f_", [e.name, e.fields[i].name]) != h("f_", [e.name, e.fields[j].name])
      {
        assert DigestsDiffer(FieldDigests(h, e.name), names, i, j);
      }
    }
  }

  lemma AllFieldsApartIff(h: Digest, d: Declaration)
    ensures AllFieldsApart(h, d.entities) <==> forall e :: e in d.entities ==> NoFieldCollision(h, e)
  {
    forall i | 0 <= i < |d.entities|
      ensures FieldsApart(h, d.entities[i]) <==> NoFieldCollision(h, d.entities[i])
    {
      FieldsApartIff(h, d.entities[i]);
    }
    if AllFieldsApart(h, d.entities) {
      forall e | e in d.entities
        ensures NoFieldCollision(h, e)
      {
        var i :| 0 <= i < |d.entities| && d.entities[i] == e;
      }
    }
  }

  lemma RelationsCollide(h: Digest, d: Declaration)
    ensures RelationsApart(h, d.relations) <==>
            forall i, j :: 0 <= i < j < |d.relations| ==>
              var r, s := d.relations[i], d.relations[j];
              h("e_", [r.from]) != h("e_", [s.from]) || h("r_", [r.from, r.name]) != h("r_", [s.from, s.name])
  {
    if RelationsApart(h, d.relations) {
      forall i, j | 0 <= i < j < |d.relations|
        ensures var r, s := d.relations[i], d.relations[j];
                h("e_", [r.from]) != h("e_", [s.from]) || h("r_", [r.from, r.name]) != h("r_", [s.from, s.name])
      {
        assert RelationsDiffer(h, d.relations, i, j);
      }
    }
  }

  lemma HashableIff(h: Digest, salt: nat, d: Declaration)
    ensures Hashable(h, salt, d) <==> salt >= 16 && NoCollision(h, d)
  {
    EntitiesApartIff(h, d);
    AllFieldsApartIff(h, d);
    RelationsCollide(h, d);
  }

  /** hash_identifiers: refused for a short salt or a collision that would merge two entities, two fields of one entity
      or two relations of one entity; otherwise every name is replaced by its digest, nothing else changes, and the
      result is put in the order of the new names. */
  method HashIdentifiers(h: Digest, salt: nat, d: Declaration) returns (r: Outcome<Declaration>)
    requires Closed(d)
    ensures r.Accepted? <==> salt >= 16 && NoCollision(h, d)
    ensures r.Accepted? ==> r.value == Assembled(Hashed(h, d)) && IsHash(h, d, r.value)
  {
    r := HashNamesThenParts(h, salt, d);
    HashableIff(h, salt, d);
    if r.Accepted? {
      AssembledIsHash(h, d, r.value);
    }
  }

  method HashNamesThenParts(h: Digest, salt: nat, d: Declaration) returns (r: Outcome<Declaration>)
    requires Closed(d)
    ensures r.Accepted? <==> Hashable(h, salt, d)
    ensures r.Accepted? ==> r.value == Assembled(Hashed(h, d))
  {
    if salt < 16 {
      return Refused;
    }
    var names := HashNames(EntityDigests(h), EntityNamesOf(d.entities));
    if names.Refused? {
      return Refused;
    }
    AreHashed(h, d, names.value);
    var hashed := HashParts(h, d, names.value);
    if hashed.Refused? {
      return Refused;
    }
    return Accepted(Assembled(hashed.value));
  }

  /** Every part of a declaration, once the entities' names have their digests. */
  method HashParts(h: Digest, d: Declaration, names: map<string, string>) returns (r: Outcome<Declaration>)
    requires Closed(d) && NamesHashed(h, d, names)
    ensures r.Accepted? <==> AllFieldsApart(h, d.entities) && RelationsApart(h, d.relations)
    ensures r.Accepted? ==> r.value == Hashed(h, d)
  {
    var entities := HashEntities(h, d, names);
    if entities.Refused? {
      return Refused;
    }
    var relations := HashRelations(h, d, names);
    var atomic := HashAtomic(h, d, names);
    RelationsApartIff(h, d);
    var ok := NoRelationTwice(relations);
    if !ok {
      return Refused;
    }
    return Accepted(Declaration(entities.value, relations, atomic, d.ceiling));
  }
}
