/** colocation_groups: union-find with path halving over entity names, attaching to the smaller root
    (cpp/src/model.cpp:156-189). */
module Colocation {
  import opened Collections
  import opened Names

  type Forest = map<Name, Name>

  type Link = (Name, Name)

  // --- the forest -----------------------------------------------------------------------------------

  /** Every name's parent is a name of the forest, itself or a smaller one. */
  ghost predicate Valid(parent: Forest) {
    forall n {:trigger Sits(parent, n)} :: n in parent ==> Sits(parent, n)
  }

  ghost predicate Sits(parent: Forest, n: Name)
    requires n in parent
  {
    parent[n] in parent && (parent[n] == n || Less(parent[n], n))
  }

  function Below(keys: set<Name>, n: Name): set<Name> { set k | k in keys && Less(k, n) }

  lemma BelowShrinks(keys: set<Name>, m: Name, n: Name)
    requires m in keys && Less(m, n)
    ensures |Below(keys, m)| < |Below(keys, n)|
  {
    forall k | k in Below(keys, m)
      ensures k in Below(keys, n)
    {
      LessTransitive(k, m, n);
    }
    LessIrreflexive(m);
    assert m in Below(keys, n) && m !in Below(keys, m);
    SubsetSize(Below(keys, m), Below(keys, n));
  }

  ghost function Root(parent: Forest, n: Name): (r: Name)
    requires Valid(parent) && n in parent
    ensures r in parent && parent[r] == r && (r == n || Less(r, n))
    decreases |Below(parent.Keys, n)|
  {
    assert Sits(parent, n);
    if parent[n] == n then n
    else
      BelowShrinks(parent.Keys, parent[n], n);
      var r := Root(parent, parent[n]);
      assert r != parent[n] ==> Less(r, n) by {
        if r != parent[n] {
          LessTransitive(r, parent[n], n);
        }
      }
      r
  }

  lemma RootOfParent(parent: Forest, n: Name)
    requires Valid(parent) && n in parent
    ensures parent[n] in parent && Root(parent, parent[n]) == Root(parent, n)
  {
    assert Sits(parent, n);
  }

  /** Two forests with the same roots. */
  ghost predicate SameRoots(p: Forest, q: Forest)
    requires Valid(p) && Valid(q)
  {
    p.Keys == q.Keys && forall n {:trigger Root(q, n)} {:trigger Root(p, n)} :: n in p ==> Root(q, n) == Root(p, n)
  }

  lemma HalveValid(parent: Forest, n: Name)
    requires Valid(parent) && n in parent && parent[n] in parent
    ensures Valid(parent[n := parent[parent[n]]])
  {
    assert Sits(parent, n) && Sits(parent, parent[n]);
    var after := parent[n := parent[parent[n]]];
    forall m | m in after
      ensures Sits(after, m)
    {
      assert Sits(parent, m);
      if m == n && parent[n] != n && parent[parent[n]] != parent[n] {
        LessTransitive(parent[parent[n]], parent[n], n);
      }
    }
  }

  /** Path halving changes no root. */
  lemma {:induction false} HalveKeepsRoot(parent: Forest, n: Name, m: Name)
    requires Valid(parent) && n in parent && parent[n] in parent && m in parent
    requires Valid(parent[n := parent[parent[n]]])
    ensures Root(parent[n := parent[parent[n]]], m) == Root(parent, m)
    decreases |Below(parent.Keys, m)|
  {
    var after := parent[n := parent[parent[n]]];
    RootOfParent(parent, m);
    if after[m] != m {
      assert Sits(after, m);
      BelowShrinks(parent.Keys, after[m], m);
      HalveKeepsRoot(parent, n, after[m]);
      if m == n {
        RootOfParent(parent, parent[n]);
      }
    } else if m == n {
      HalvedToItself(parent, n);
    }
  }

  /** A name whose grandparent is itself is a root. */
  lemma HalvedToItself(parent: Forest, n: Name)
    requires Valid(parent) && n in parent && parent[n] in parent && parent[parent[n]] == n
    ensures parent[n] == n
  {
    assert Sits(parent, n) && Sits(parent, parent[n]);
    if Less(parent[n], n) && Less(n, parent[n]) {
      LessAsymmetric(n, parent[n]);
    }
  }

  lemma HalveSameRoots(parent: Forest, n: Name)
    requires Valid(parent) && n in parent && parent[n] in parent
    ensures Valid(parent[n := parent[parent[n]]]) && SameRoots(parent, parent[n := parent[parent[n]]])
  {
    HalveValid(parent, n);
    forall m | m in parent
      ensures Root(parent[n := parent[parent[n]]], m) == Root(parent, m)
    {
      HalveKeepsRoot(parent, n, m);
    }
  }

  // --- a lookup that inserts ------------------------------------------------------------------------

  /** parent[name] of a std::map: a name that is not there is put there, with the empty text for its parent. */
  function Looked(parent: Forest, n: Name): (r: Forest)
    ensures n in r
  {
    if n in parent then parent else parent[n := ""]
  }

  /** The forest once a name has been looked up, and its parent. */
  function Touched(parent: Forest, n: Name): (r: Forest)
    ensures n in r
  {
    if n in parent then parent else Looked(parent, "")[n := ""]
  }

  lemma EmptyIsLeast(n: Name)
    requires n != ""
    ensures Less("", n) && !Less(n, "")
  {
  }

  lemma EmptyIsRoot(parent: Forest)
    requires Valid(parent) && "" in parent
    ensures parent[""] == ""
  {
    assert Sits(parent, "");
  }

  lemma TouchedValid(parent: Forest, n: Name)
    requires Valid(parent)
    ensures Valid(Touched(parent, n))
  {
    var after := Touched(parent, n);
    forall m | m in after
      ensures Sits(after, m)
    {
      if m in parent {
        assert Sits(parent, m);
      } else if m != "" {
        EmptyIsLeast(m);
      }
    }
  }

  /** Where the loop of find is: at a name not looked up yet, or at one of the forest, with every root as it was. */
  ghost predicate Finding(forest: Forest, start: Name, parent: Forest, name: Name)
    requires Valid(forest) && Valid(Touched(forest, start))
  {
    if name in parent then
      Valid(parent) && SameRoots(Touched(forest, start), parent) &&
      Root(parent, name) == Root(Touched(forest, start), start)
    else parent == forest && name == start
  }

  /** find: the root, with the path to it halved; a name that was not there gets the empty text for its root. */
  method Find(forest: Forest, start: Name) returns (parent: Forest, root: Name)
    requires Valid(forest)
    ensures Valid(Touched(forest, start)) && Valid(parent) && SameRoots(Touched(forest, start), parent)
    ensures root == Root(Touched(forest, start), start)
  {
    TouchedValid(forest, start);
    parent := forest;
    var name := start;
    while Looked(parent, name)[name] != name
      invariant Finding(forest, start, parent, name)
      decreases if name in parent then 0 else 1, |Below(parent.Keys, name)|
    {
      ghost var before := parent;
      parent := Looked(parent, name);
      parent := Looked(parent, parent[name]);
      TurnStarts(forest, start, before, name);
      HalveSameRoots(parent, name);
      HalvedSmaller(parent, name);
      parent := parent[name := parent[parent[name]]];
      RootOfParent(parent, name);
      name := parent[name];
    }
    parent := Looked(parent, name);
    TurnEnds(forest, start, parent, name);
    root := name;
  }

  lemma TurnStarts(forest: Forest, start: Name, parent: Forest, name: Name)
    requires Valid(forest) && Valid(Touched(forest, start)) && Finding(forest, start, parent, name)
    requires Looked(parent, name)[name] != name
    ensures var touched := Looked(Looked(parent, name), Looked(parent, name)[name]);
            touched[name] in touched && Finding(forest, start, touched, name) &&
            (name in parent ==> touched == parent)
  {
    if name in parent {
      assert Sits(parent, name);
    } else {
      assert Looked(Looked(parent, name), "") == Touched(forest, start);
    }
  }

  lemma TurnEnds(forest: Forest, start: Name, parent: Forest, name: Name)
    requires Valid(forest) && Valid(Touched(forest, start))
    requires name in parent && parent[name] == name
    requires || Finding(forest, start, parent, name)
             || (start !in forest && name == start && parent == forest[start := ""])
    ensures Valid(parent) && SameRoots(Touched(forest, start), parent)
    ensures name == Root(Touched(forest, start), start)
  {
    if !Finding(forest, start, parent, name) {
      assert name == "" && parent == Touched(forest, start);
    }
  }

  lemma HalvedSmaller(parent: Forest, n: Name)
    requires Valid(parent) && n in parent && parent[n] in parent && parent[n] != n
    ensures parent[parent[n]] in parent && |Below(parent.Keys, parent[parent[n]])| < |Below(parent.Keys, n)|
  {
    assert Sits(parent, n) && Sits(parent, parent[n]);
    if parent[parent[n]] != parent[n] {
      LessTransitive(parent[parent[n]], parent[n], n);
    }
    BelowShrinks(parent.Keys, parent[parent[n]], n);
  }

  // --- connection -----------------------------------------------------------------------------------

  predicate Adjacent(links: set<Link>, a: Name, b: Name) { (a, b) in links || (b, a) in links }

  /** A path from a to b, step by step along links. */
  ghost predicate Path(links: set<Link>, path: seq<Name>, a: Name, b: Name) {
    path != [] && path[0] == a && path[|path| - 1] == b &&
    forall i :: 0 <= i < |path| - 1 ==> Adjacent(links, path[i], path[i + 1])
  }

  ghost predicate Connected(links: set<Link>, a: Name, b: Name) {
    exists path :: Path(links, path, a, b)
  }

  lemma ConnectedSelf(links: set<Link>, a: Name)
    ensures Connected(links, a, a)
  {
    assert Path(links, [a], a, a);
  }

  lemma ConnectedLink(links: set<Link>, a: Name, b: Name)
    requires Adjacent(links, a, b)
    ensures Connected(links, a, b)
  {
    assert Path(links, [a, b], a, b);
  }

  lemma ConnectedTransitive(links: set<Link>, a: Name, b: Name, c: Name)
    requires Connected(links, a, b) && Connected(links, b, c)
    ensures Connected(links, a, c)
  {
    var p :| Path(links, p, a, b);
    var q :| Path(links, q, b, c);
    PathJoin(links, p, q, a, b, c);
  }

  lemma PathJoin(links: set<Link>, p: seq<Name>, q: seq<Name>, a: Name, b: Name, c: Name)
    requires Path(links, p, a, b) && Path(links, q, b, c)
    ensures Path(links, p + q[1..], a, c)
  {
    var r := p + q[1..];
    forall i | 0 <= i < |r| - 1
      ensures Adjacent(links, r[i], r[i + 1])
    {
      if i < |p| - 1 {
        assert r[i] == p[i] && r[i + 1] == p[i + 1];
      } else {
        var k := i - (|p| - 1);
        assert r[i] == q[k] && r[i + 1] == q[k + 1];
      }
    }
  }

  lemma ConnectedSymmetric(links: set<Link>, a: Name, b: Name)
    requires Connected(links, a, b)
    ensures Connected(links, b, a)
  {
    var p :| Path(links, p, a, b);
    var n := |p|;
    var r := seq(n, i requires 0 <= i < n => p[n - 1 - i]);
    forall i | 0 <= i < n - 1
      ensures Adjacent(links, r[i], r[i + 1])
    {
      assert Adjacent(links, p[n - 2 - i], p[n - 2 - i + 1]);
    }
    assert Path(links, r, b, a);
  }

  lemma ConnectedMore(links: set<Link>, more: set<Link>, a: Name, b: Name)
    requires links <= more && Connected(links, a, b)
    ensures Connected(more, a, b)
  {
    var p :| Path(links, p, a, b);
    assert Path(more, p, a, b);
  }

  // --- the forest says what the links say -----------------------------------------------------------

  /** Every parent is justified by the links. */
  ghost predicate Sound(parent: Forest, links: set<Link>)
    requires Valid(parent)
  {
    forall n {:trigger Root(parent, n)} :: n in parent ==> Connected(links, n, Root(parent, n))
  }

  /** Every link joins names of one root. */
  ghost predicate Complete(parent: Forest, links: set<Link>)
    requires Valid(parent)
  {
    forall a, b :: (a, b) in links ==> a in parent && b in parent && Root(parent, a) == Root(parent, b)
  }

  ghost predicate Represents(parent: Forest, links: set<Link>)
    requires Valid(parent)
  {
    Sound(parent, links) && Complete(parent, links)
  }

  lemma {:induction false} PathKeepsRoot(parent: Forest, links: set<Link>, path: seq<Name>, a: Name, b: Name)
    requires Valid(parent) && Complete(parent, links) && Path(links, path, a, b) && a in parent
    ensures b in parent && Root(parent, a) == Root(parent, b)
  {
    if |path| > 1 {
      assert Adjacent(links, path[0], path[1]);
      var rest := path[1..];
      forall i | 0 <= i < |rest| - 1
        ensures Adjacent(links, rest[i], rest[i + 1])
      {
        assert Adjacent(links, path[i + 1], path[i + 1 + 1]);
      }
      PathKeepsRoot(parent, links, rest, path[1], b);
    }
  }

  /** Same root, same component. */
  lemma SameRootIff(parent: Forest, links: set<Link>, a: Name, b: Name)
    requires Valid(parent) && Represents(parent, links) && a in parent && b in parent
    ensures Root(parent, a) == Root(parent, b) <==> Connected(links, a, b)
  {
    if Root(parent, a) == Root(parent, b) {
      ConnectedSymmetric(links, b, Root(parent, b));
      ConnectedTransitive(links, a, Root(parent, a), b);
    }
    if Connected(links, a, b) {
      var p :| Path(links, p, a, b);
      PathKeepsRoot(parent, links, p, a, b);
    }
  }

  // --- unite ----------------------------------------------------------------------------------------

  lemma AttachValid(parent: Forest, small: Name, large: Name)
    requires Valid(parent) && small in parent && large in parent && Less(small, large)
    ensures Valid(parent[large := small])
  {
    var after := parent[large := small];
    forall m | m in after
      ensures Sits(after, m)
    {
      assert Sits(parent, m);
    }
  }

  lemma {:induction false} AttachRoot(parent: Forest, small: Name, large: Name, m: Name)
    requires Valid(parent) && small in parent && large in parent && Less(small, large) && m in parent
    requires parent[small] == small && parent[large] == large && Valid(parent[large := small])
    ensures Root(parent[large := small], m) == if Root(parent, m) == large then small else Root(parent, m)
    decreases |Below(parent.Keys, m)|
  {
    var after := parent[large := small];
    LessIrreflexive(small);
    if m == large {
      assert after[small] == small;
    } else if parent[m] != m {
      assert Sits(parent, m);
      BelowShrinks(parent.Keys, parent[m], m);
      AttachRoot(parent, small, large, parent[m]);
    }
  }

  lemma AttachSound(parent: Forest, links: set<Link>, more: set<Link>, small: Name, large: Name)
    requires Valid(parent) && small in parent && large in parent && Less(small, large)
    requires parent[small] == small && parent[large] == large && Valid(parent[large := small])
    requires Sound(parent, links) && links <= more && Connected(more, large, small)
    ensures Sound(parent[large := small], more)
  {
    var after := parent[large := small];
    forall n | n in after
      ensures Connected(more, n, Root(after, n))
    {
      AttachRoot(parent, small, large, n);
      ConnectedMore(links, more, n, Root(parent, n));
      if Root(parent, n) == large {
        ConnectedTransitive(more, n, large, small);
      }
    }
  }

  lemma AttachComplete(parent: Forest, links: set<Link>, small: Name, large: Name, a: Name, b: Name)
    requires Valid(parent) && small in parent && large in parent && Less(small, large)
    requires parent[small] == small && parent[large] == large && Valid(parent[large := small])
    requires Complete(parent, links) && a in parent && b in parent
    requires {Root(parent, a), Root(parent, b)} == {small, large}
    ensures Complete(parent[large := small], links + {(a, b)})
  {
    var after := parent[large := small];
    forall x, y | (x, y) in links + {(a, b)}
      ensures x in after && y in after && Root(after, x) == Root(after, y)
    {
      AttachRoot(parent, small, large, x);
      AttachRoot(parent, small, large, y);
    }
  }

  /** The roots of two names that a link joins are joined by the links. */
  lemma RootsJoined(parent: Forest, links: set<Link>, a: Name, b: Name)
    requires Valid(parent) && Sound(parent, links) && a in parent && b in parent
    ensures Connected(links + {(a, b)}, Root(parent, a), Root(parent, b))
    ensures Connected(links + {(a, b)}, Root(parent, b), Root(parent, a))
  {
    var more := links + {(a, b)};
    ConnectedMore(links, more, a, Root(parent, a));
    ConnectedMore(links, more, b, Root(parent, b));
    ConnectedLink(more, a, b);
    ConnectedSymmetric(more, a, Root(parent, a));
    ConnectedTransitive(more, Root(parent, a), a, b);
    ConnectedTransitive(more, Root(parent, a), b, Root(parent, b));
    ConnectedSymmetric(more, Root(parent, a), Root(parent, b));
  }

  lemma SameRootsRepresent(p: Forest, q: Forest, links: set<Link>)
    requires Valid(p) && Valid(q) && SameRoots(p, q) && Represents(p, links)
    ensures Represents(q, links)
  {
  }

  lemma AlreadyJoined(parent: Forest, links: set<Link>, a: Name, b: Name)
    requires Valid(parent) && Represents(parent, links) && a in parent && b in parent
    requires Root(parent, a) == Root(parent, b)
    ensures Represents(parent, links + {(a, b)})
  {
    forall n | n in parent
      ensures Connected(links + {(a, b)}, n, Root(parent, n))
    {
      ConnectedMore(links, links + {(a, b)}, n, Root(parent, n));
    }
  }

  // --- names that nothing declares ------------------------------------------------------------------

  /** The names the forest knows beside the entities, once these undeclared names have been looked up. */
  function Known(seen: set<Name>): set<Name> { if seen == {} then {} else seen + {""} }

  /** How undeclared names hang together: each on the empty text. */
  function Strays(seen: set<Name>): set<Link> { set u | u in seen && u != "" :: (u, "") }

  /** The forest of some entities after these links have been united and these undeclared names looked up. */
  ghost predicate Grown(parent: Forest, entities: set<Name>, links: set<Link>, seen: set<Name>) {
    Valid(parent) && parent.Keys == entities + Known(seen) && Represents(parent, links + Strays(seen))
  }

  lemma TouchedGrown(parent: Forest, entities: set<Name>, links: set<Link>, seen: set<Name>, n: Name)
    requires Grown(parent, entities, links, seen)
    ensures Grown(Touched(parent, n), entities, links, seen + ({n} - entities))
  {
    TouchedValid(parent, n);
    var more := seen + ({n} - entities);
    if n in parent {
      assert parent.Keys == entities + Known(more);
      assert Strays(more) == Strays(seen);
    } else {
      StrayJoins(parent, links + Strays(seen), n);
      StrayNames(entities, links, seen, n);
    }
  }

  lemma StrayNames(entities: set<Name>, links: set<Link>, seen: set<Name>, n: Name)
    requires n !in entities
    ensures var more := seen + ({n} - entities);
            entities + Known(seen) + {n, ""} == entities + Known(more) &&
            links + Strays(more) == links + Strays(seen) + (if n == "" then {} else {(n, "")})
  {
  }

  lemma TouchedRoot(parent: Forest, n: Name, m: Name)
    requires Valid(parent) && Valid(Touched(parent, n)) && m in parent
    ensures Root(Touched(parent, n), m) == Root(parent, m)
    decreases |Below(parent.Keys, m)|
  {
    assert Sits(parent, m);
    if parent[m] != m {
      BelowShrinks(parent.Keys, parent[m], m);
      TouchedRoot(parent, n, parent[m]);
    }
  }

  lemma StrayJoins(parent: Forest, links: set<Link>, n: Name)
    requires Valid(parent) && Represents(parent, links) && n !in parent && Valid(Touched(parent, n))
    ensures Represents(Touched(parent, n), links + if n == "" then {} else {(n, "")})
  {
    var after := Touched(parent, n);
    var more := links + if n == "" then {} else {(n, "")};
    EmptyIsRoot(after);
    assert Root(after, "") == "" && Root(after, n) == "";
    forall m | m in after
      ensures Connected(more, m, Root(after, m))
    {
      if m in parent {
        TouchedRoot(parent, n, m);
        ConnectedMore(links, more, m, Root(parent, m));
      } else if m == "" {
        ConnectedSelf(more, "");
      } else {
        ConnectedLink(more, n, "");
      }
    }
    forall x, y | (x, y) in more
      ensures x in after && y in after && Root(after, x) == Root(after, y)
    {
      if (x, y) in links {
        TouchedRoot(parent, n, x);
        TouchedRoot(parent, n, y);
      }
    }
  }

  /** unite: the forest then holds one link more, and whichever of its ends nothing declares. */
  method Unite(forest: Forest, a: Name, b: Name, ghost entities: set<Name>, ghost links: set<Link>,
               ghost seen: set<Name>)
    returns (parent: Forest)
    requires Grown(forest, entities, links, seen)
    ensures Grown(parent, entities, links + {(a, b)}, seen + ({a, b} - entities))
  {
    var rootA: Name, rootB: Name;
    ghost var one, two := seen + ({a} - entities), seen + ({a, b} - entities);
    parent, rootA := Find(forest, a);
    FoundGrown(forest, parent, entities, links, seen, a);
    ghost var before := parent;
    parent, rootB := Find(parent, b);
    FoundGrown(before, parent, entities, links, one, b);
    OneByOne(seen, entities, a, b);
    RootsKept(forest, before, parent, a, b, rootA, rootB);
    if rootA == rootB {
      JoinedGrown(parent, entities, links, two, a, b);
    } else {
      LessTotal(rootA, rootB);
      var small, large := if Less(rootA, rootB) then rootA else rootB, if Less(rootA, rootB) then rootB else rootA;
      AttachedGrown(parent, entities, links, two, small, large, a, b);
      parent := parent[large := small];
    }
  }

  lemma OneByOne(seen: set<Name>, entities: set<Name>, a: Name, b: Name)
    ensures (seen + ({a} - entities)) + ({b} - entities) == seen + ({a, b} - entities)
  {
  }

  lemma FoundGrown(forest: Forest, parent: Forest, entities: set<Name>, links: set<Link>, seen: set<Name>, n: Name)
    requires Grown(forest, entities, links, seen) && Valid(parent) && Valid(Touched(forest, n))
    requires SameRoots(Touched(forest, n), parent)
    ensures Grown(parent, entities, links, seen + ({n} - entities))
  {
    TouchedGrown(forest, entities, links, seen, n);
    SameRootsRepresent(Touched(forest, n), parent, links + Strays(seen + ({n} - entities)));
  }

  lemma JoinedGrown(parent: Forest, entities: set<Name>, links: set<Link>, seen: set<Name>, a: Name, b: Name)
    requires Grown(parent, entities, links, seen) && a in parent && b in parent
    requires Root(parent, a) == Root(parent, b)
    ensures Grown(parent, entities, links + {(a, b)}, seen)
  {
    AlreadyJoined(parent, links + Strays(seen), a, b);
    assert links + {(a, b)} + Strays(seen) == links + Strays(seen) + {(a, b)};
  }

  lemma AttachedGrown(parent: Forest, entities: set<Name>, links: set<Link>, seen: set<Name>, small: Name, large: Name,
                      a: Name, b: Name)
    requires Grown(parent, entities, links, seen) && a in parent && b in parent && Less(small, large)
    requires {Root(parent, a), Root(parent, b)} == {small, large}
    ensures Grown(parent[large := small], entities, links + {(a, b)}, seen)
  {
    AttachRepresents(parent, links + Strays(seen), small, large, a, b);
    assert links + {(a, b)} + Strays(seen) == links + Strays(seen) + {(a, b)};
  }

  /** What the first find found is still so after the second. */
  lemma RootsKept(forest: Forest, before: Forest, parent: Forest, a: Name, b: Name, rootA: Name, rootB: Name)
    requires Valid(forest) && Valid(Touched(forest, a)) && Valid(before) && SameRoots(Touched(forest, a), before)
    requires Valid(Touched(before, b)) && Valid(parent) && SameRoots(Touched(before, b), parent)
    requires rootA == Root(Touched(forest, a), a) && rootB == Root(Touched(before, b), b)
    ensures a in parent && b in parent && Root(parent, a) == rootA && Root(parent, b) == rootB
  {
    assert a in before;
    TouchedRoot(before, b, a);
    assert Root(Touched(before, b), a) == Root(before, a);
  }

  lemma AttachRepresents(parent: Forest, links: set<Link>, small: Name, large: Name, a: Name, b: Name)
    requires Valid(parent) && Represents(parent, links) && a in parent && b in parent && Less(small, large)
    requires {Root(parent, a), Root(parent, b)} == {small, large}
    ensures Valid(parent[large := small]) && Represents(parent[large := small], links + {(a, b)})
    ensures parent[large := small].Keys == parent.Keys
  {
    RootsJoined(parent, links, a, b);
    AttachValid(parent, small, large);
    AttachSound(parent, links, links + {(a, b)}, small, large);
    AttachComplete(parent, links, small, large, a, b);
  }

  // --- the groups -----------------------------------------------------------------------------------

  datatype Group = Group(name: Name, members: seq<Name>)

  /** The links of a declaration: its relations, and any two members of one atomic group. */
  function Links(relations: seq<Link>, atomic: seq<seq<Name>>): set<Link> { AsSet(relations) + GroupLinks(atomic) }

  function GroupLinks(atomic: seq<seq<Name>>): set<Link> {
    set g, a, b | g in atomic && |g| >= 2 && a in g && b in g :: (a, b)
  }

  ghost function Component(entities: set<Name>, links: set<Link>, n: Name): set<Name> {
    set m | m in entities && Connected(links, n, m)
  }

  /** The least names of their components. */
  ghost function Heads(entities: set<Name>, links: set<Link>): set<Name> {
    set n | n in entities && IsLeast(Component(entities, links, n), n)
  }

  /** The connected components, each in order and named by its least member, in the order of their names. */
  ghost function Grouping(entities: set<Name>, links: set<Link>): (groups: seq<Group>)
    ensures |groups| == |Heads(entities, links)|
    ensures forall i :: 0 <= i < |groups| ==>
              groups[i] == Group(Sorted(Heads(entities, links))[i],
                                 Sorted(Component(entities, links, Sorted(Heads(entities, links))[i])))
  {
    var heads := Sorted(Heads(entities, links));
    seq(|heads|, i requires 0 <= i < |heads| => Group(heads[i], Sorted(Component(entities, links, heads[i]))))
  }

  lemma SameComponent(entities: set<Name>, links: set<Link>, a: Name, b: Name)
    requires Connected(links, a, b)
    ensures Component(entities, links, a) == Component(entities, links, b)
  {
    ConnectedSymmetric(links, a, b);
    forall m | m in entities
      ensures Connected(links, a, m) <==> Connected(links, b, m)
    {
      if Connected(links, a, m) {
        ConnectedTransitive(links, b, a, m);
      }
      if Connected(links, b, m) {
        ConnectedTransitive(links, a, b, m);
      }
    }
  }

  /** Every entity has a head: the least name of its component. */
  lemma HeadOf(entities: set<Name>, links: set<Link>, n: Name) returns (head: Name)
    requires n in entities
    ensures head in Heads(entities, links) && Connected(links, head, n)
  {
    ConnectedSelf(links, n);
    var cell := Component(entities, links, n);
    assert n in cell;
    head := Least(cell);
    SameComponent(entities, links, n, head);
    ConnectedSymmetric(links, n, head);
  }

  lemma OneHead(entities: set<Name>, links: set<Link>, a: Name, b: Name)
    requires a in Heads(entities, links) && b in Heads(entities, links) && Connected(links, a, b)
    ensures a == b
  {
    SameComponent(entities, links, a, b);
    LeastUnique(Component(entities, links, a), a, b);
  }

  /** The groups are a partition of the entities into their connected components. */
  lemma GroupingPartitions(entities: set<Name>, links: set<Link>, n: Name) returns (i: nat)
    requires n in entities
    ensures i < |Grouping(entities, links)| && n in Grouping(entities, links)[i].members
    ensures forall j :: 0 <= j < |Grouping(entities, links)| && n in Grouping(entities, links)[j].members ==> j == i
    ensures forall m :: m in Grouping(entities, links)[i].members <==> m in entities && Connected(links, n, m)
  {
    var groups := Grouping(entities, links);
    var heads := Sorted(Heads(entities, links));
    var head := HeadOf(entities, links, n);
    assert head in AsSet(heads);
    i :| 0 <= i < |heads| && heads[i] == head;
    SameComponent(entities, links, head, n);
    assert AsSet(groups[i].members) == Component(entities, links, n);
    assert forall m :: m in groups[i].members <==> m in AsSet(groups[i].members);
    ConnectedSelf(links, n);
    forall j | 0 <= j < |groups| && n in groups[j].members
      ensures j == i
    {
      assert n in AsSet(groups[j].members);
      ConnectedSymmetric(links, heads[j], n);
      ConnectedSymmetric(links, n, heads[j]);
      ConnectedSymmetric(links, head, n);
      ConnectedTransitive(links, heads[j], n, head);
      OneHead(entities, links, heads[j], head);
      SortedAscending(Heads(entities, links));
      AscendingDistinct(heads, i, j);
    }
  }

  lemma AscendingDistinct(s: seq<Name>, i: nat, j: nat)
    requires Ascending(s) && i < |s| && j < |s| && s[i] == s[j]
    ensures i == j
  {
    LessIrreflexive(s[i]);
  }

  /** The groups come in the order of their names, and each is in order and named by its least member. */
  lemma GroupingSorted(entities: set<Name>, links: set<Link>, i: nat)
    requires i < |Grouping(entities, links)|
    ensures Ascending(Grouping(entities, links)[i].members)
    ensures IsLeast(AsSet(Grouping(entities, links)[i].members), Grouping(entities, links)[i].name)
    ensures Grouping(entities, links)[i].members != []
    ensures Grouping(entities, links)[i].name == Grouping(entities, links)[i].members[0]
    ensures i + 1 < |Grouping(entities, links)| ==>
              Less(Grouping(entities, links)[i].name, Grouping(entities, links)[i + 1].name)
  {
    var heads := Sorted(Heads(entities, links));
    var cell := Component(entities, links, heads[i]);
    SortedAscending(cell);
    assert heads[i] in Heads(entities, links);
    SortedAscending(Heads(entities, links));
    SortedFirst(cell, heads[i]);
  }

  lemma SortedFirst(keys: set<Name>, least: Name)
    requires IsLeast(keys, least)
    ensures Sorted(keys) != [] && Sorted(keys)[0] == least
  {
    assert keys != {};
    LeastUnique(keys, least, Least(keys));
  }

  /** One of the groups has these members. */
  ghost predicate IsGroupOf(g: seq<Name>, atomic: seq<seq<Name>>) {
    exists h :: h in atomic && AsSet(h) == AsSet(g) && (|h| >= 2 <==> |g| >= 2)
  }

  /** The order and repetition of relations, of atomic groups and of their members make no difference. */
  lemma LinksOrderFree(r1: seq<Link>, r2: seq<Link>, a1: seq<seq<Name>>, a2: seq<seq<Name>>)
    requires AsSet(r1) == AsSet(r2)
    requires (forall g {:trigger IsGroupOf(g, a2)} :: g in a1 ==> IsGroupOf(g, a2)) &&
             (forall g {:trigger IsGroupOf(g, a1)} :: g in a2 ==> IsGroupOf(g, a1))
    ensures Links(r1, a1) == Links(r2, a2)
  {
    SomeLinks(r1, r2, a1, a2);
    SomeLinks(r2, r1, a2, a1);
  }

  lemma SomeLinks(r1: seq<Link>, r2: seq<Link>, a1: seq<seq<Name>>, a2: seq<seq<Name>>)
    requires AsSet(r1) == AsSet(r2)
    requires forall g {:trigger IsGroupOf(g, a2)} :: g in a1 ==> IsGroupOf(g, a2)
    ensures Links(r1, a1) <= Links(r2, a2)
  {
    forall l | l in Links(r1, a1)
      ensures l in Links(r2, a2)
    {
      if l !in AsSet(r1) {
        var g :| g in a1 && |g| >= 2 && l.0 in g && l.1 in g;
        assert IsGroupOf(g, a2);
        var h :| h in a2 && AsSet(h) == AsSet(g) && |h| >= 2;
        assert l.0 in AsSet(h) && l.1 in AsSet(h);
      }
    }
  }

  // --- colocation_groups ----------------------------------------------------------------------------

  /** The members of atomic groups of two or more that are no entities: what the lookups put into the forest. */
  ghost function Undeclared(entities: set<Name>, atomic: seq<seq<Name>>): set<Name> {
    set g, n | g in atomic && |g| >= 2 && n in g && n !in entities :: n
  }

  lemma SingletonsRepresent(parent: Forest)
    requires forall n :: n in parent ==> parent[n] == n
    ensures Valid(parent) && Represents(parent, {})
  {
    forall n | n in parent
      ensures Sits(parent, n)
    {
    }
    forall n | n in parent
      ensures Connected({}, n, Root(parent, n))
    {
      ConnectedSelf({}, n);
    }
  }

  method UniteRelations(forest: Forest, relations: seq<Link>, ghost entities: set<Name>) returns (parent: Forest)
    requires Grown(forest, entities, {}, {})
    requires forall i :: 0 <= i < |relations| ==> relations[i].0 in entities && relations[i].1 in entities
    ensures Grown(parent, entities, AsSet(relations), {})
  {
    parent := forest;
    ghost var links: set<Link> := {};
    for i := 0 to |relations|
      invariant links == AsSet(relations[..i]) && Grown(parent, entities, links, {})
    {
      var r := relations[i];
      assert {} + ({r.0, r.1} - entities) == {};
      parent := Unite(parent, r.0, r.1, entities, links, {});
      links := links + {(r.0, r.1)};
      AsSetSnoc(relations[..i], r);
      assert relations[..i + 1] == relations[..i] + [r];
    }
    assert relations[..|relations|] == relations;
  }

  /** What an atomic group is united by: its first member with each of the others. */
  function Star(group: seq<Name>): set<Link> { StarTo(group, |group|) }

  function StarTo(group: seq<Name>, k: nat): set<Link>
    requires k <= |group|
  {
    set i | 1 <= i < k :: (group[0], group[i])
  }

  lemma StarSnoc(group: seq<Name>, k: nat)
    requires 1 <= k < |group|
    ensures StarTo(group, k + 1) == StarTo(group, k) + {(group[0], group[k])}
  {
  }

  /** The undeclared names among the first k of a group of two or more. */
  function StraysTo(group: seq<Name>, k: nat, entities: set<Name>): set<Name>
    requires k <= |group|
  {
    if k < 2 then {} else AsSet(group[..k]) - entities
  }

  lemma StraysSnoc(group: seq<Name>, k: nat, entities: set<Name>)
    requires 1 <= k < |group|
    ensures StraysTo(group, k + 1, entities) == StraysTo(group, k, entities) + ({group[0], group[k]} - entities)
  {
    AsSetSnoc(group[..k], group[k]);
    assert group[..k + 1] == group[..k] + [group[k]];
    assert group[..k][0] == group[0];
    if k == 1 {
      assert group[..1] == [group[0]];
    }
  }

  method UniteStar(forest: Forest, group: seq<Name>, ghost entities: set<Name>, ghost links: set<Link>,
                   ghost seen: set<Name>)
    returns (parent: Forest)
    requires Grown(forest, entities, links, seen)
    ensures Grown(parent, entities, links + Star(group), seen + StraysTo(group, |group|, entities))
  {
    parent := forest;
    if group == [] {
      assert links + Star(group) == links && seen + StraysTo(group, 0, entities) == seen;
      return;
    }
    assert links + StarTo(group, 1) == links && seen + StraysTo(group, 1, entities) == seen;
    for i := 1 to |group|
      invariant Grown(parent, entities, links + StarTo(group, i), seen + StraysTo(group, i, entities))
    {
      StarSnoc(group, i);
      StraysSnoc(group, i, entities);
      parent := Unite(parent, group[0], group[i], entities, links + StarTo(group, i),
                      seen + StraysTo(group, i, entities));
      OneMoreOf(links, StarTo(group, i), {(group[0], group[i])});
      OneMoreOf(seen, StraysTo(group, i, entities), {group[0], group[i]} - entities);
    }
  }

  lemma OneMoreOf<T>(a: set<T>, b: set<T>, c: set<T>)
    ensures a + b + c == a + (b + c)
  {
  }

  function Stars(atomic: seq<seq<Name>>): set<Link> {
    if atomic == [] then {} else Stars(atomic[..|atomic| - 1]) + Star(atomic[|atomic| - 1])
  }

  method UniteAtomic(forest: Forest, atomic: seq<seq<Name>>, ghost entities: set<Name>, ghost links: set<Link>)
    returns (parent: Forest)
    requires Grown(forest, entities, links, {})
    ensures Grown(parent, entities, links + Stars(atomic), Undeclared(entities, atomic))
  {
    parent := forest;
    assert links + {} == links;
    ghost var more, seen := links, {};
    for i := 0 to |atomic|
      invariant more == links + Stars(atomic[..i]) && seen == Undeclared(entities, atomic[..i])
      invariant Grown(parent, entities, more, seen)
    {
      parent := UniteStar(parent, atomic[i], entities, more, seen);
      StarsSnoc(links, atomic, i);
      UndeclaredSnoc(entities, atomic, i);
      more, seen := more + Star(atomic[i]), seen + StraysTo(atomic[i], |atomic[i]|, entities);
    }
    assert atomic[..|atomic|] == atomic;
  }

  lemma StarsSnoc(links: set<Link>, atomic: seq<seq<Name>>, i: nat)
    requires i < |atomic|
    ensures links + Stars(atomic[..i + 1]) == links + Stars(atomic[..i]) + Star(atomic[i])
  {
    assert atomic[..i + 1][..i] == atomic[..i];
    OneMoreOf(links, Stars(atomic[..i]), Star(atomic[i]));
  }

  lemma UndeclaredSnoc(entities: set<Name>, atomic: seq<seq<Name>>, i: nat)
    requires i < |atomic|
    ensures Undeclared(entities, atomic[..i + 1]) ==
            Undeclared(entities, atomic[..i]) + StraysTo(atomic[i], |atomic[i]|, entities)
  {
    var g := atomic[i];
    assert atomic[..i + 1] == atomic[..i] + [g];
    assert g[..|g|] == g;
    assert g in atomic[..i + 1];
  }

  lemma {:induction false} StarsHold(atomic: seq<seq<Name>>, g: seq<Name>)
    requires g in atomic
    ensures Star(g) <= Stars(atomic)
  {
    var n := |atomic| - 1;
    if g != atomic[n] {
      assert atomic == atomic[..n] + [atomic[n]];
      StarsHold(atomic[..n], g);
    }
  }

  lemma {:induction false} StarsAreLinks(atomic: seq<seq<Name>>)
    ensures Stars(atomic) <= GroupLinks(atomic)
  {
    if atomic != [] {
      var n := |atomic| - 1;
      StarsAreLinks(atomic[..n]);
      assert atomic == atomic[..n] + [atomic[n]];
      forall l | l in Star(atomic[n])
        ensures l in GroupLinks(atomic)
      {
        var i :| 1 <= i < |atomic[n]| && l == (atomic[n][0], atomic[n][i]);
        assert atomic[n] in atomic && |atomic[n]| >= 2 && l.0 in atomic[n] && l.1 in atomic[n];
      }
    }
  }

  /** Uniting each atomic group around its first member joins all of its members. */
  lemma StarsRepresentLinks(parent: Forest, relations: set<Link>, atomic: seq<seq<Name>>, strays: set<Link>)
    requires Valid(parent) && Represents(parent, relations + Stars(atomic) + strays)
    ensures Represents(parent, relations + GroupLinks(atomic) + strays)
  {
    var links, seen := relations + GroupLinks(atomic) + strays, relations + Stars(atomic) + strays;
    StarsAreLinks(atomic);
    forall n | n in parent
      ensures Connected(links, n, Root(parent, n))
    {
      ConnectedMore(seen, links, n, Root(parent, n));
    }
    forall a, b | (a, b) in links
      ensures a in parent && b in parent && Root(parent, a) == Root(parent, b)
    {
      if (a, b) in GroupLinks(atomic) {
        var g :| g in atomic && |g| >= 2 && a in g && b in g;
        StarsHold(atomic, g);
        MemberOfStar(parent, seen, g, a);
        MemberOfStar(parent, seen, g, b);
      } else {
        assert (a, b) in seen;
      }
    }
  }

  lemma MemberOfStar(parent: Forest, seen: set<Link>, g: seq<Name>, a: Name)
    requires Valid(parent) && Complete(parent, seen) && Star(g) <= seen && |g| >= 2 && a in g
    ensures g[0] in parent && a in parent && Root(parent, a) == Root(parent, g[0])
  {
    assert (g[0], g[1]) in Star(g);
    var i :| 0 <= i < |g| && g[i] == a;
    if i > 0 {
      assert (g[0], g[i]) in Star(g);
    }
  }

  // --- buckets --------------------------------------------------------------------------------------

  type Buckets = map<Name, seq<Name>>

  /** The names seen so far, by root, in order. */
  ghost predicate Bucketed(parent: Forest, seen: seq<Name>, buckets: Buckets)
    requires Valid(parent)
  {
    (forall n {:trigger Root(parent, n)} :: n in seen && n in parent ==> Root(parent, n) in buckets) &&
    forall r {:trigger InOrder(parent, seen, buckets, r)} :: r in buckets ==> InOrder(parent, seen, buckets, r)
  }

  ghost predicate InOrder(parent: Forest, seen: seq<Name>, buckets: Buckets, r: Name)
    requires Valid(parent) && r in buckets
  {
    Ascending(buckets[r]) && buckets[r] != [] && Holds(parent, seen, buckets[r], r)
  }

  ghost predicate Holds(parent: Forest, seen: seq<Name>, members: seq<Name>, r: Name)
    requires Valid(parent)
  {
    forall m {:trigger m in members} {:trigger Root(parent, m)} ::
      m in members <==> m in seen && m in parent && Root(parent, m) == r
  }

  function Bucket(buckets: Buckets, r: Name): seq<Name> { if r in buckets then buckets[r] else [] }

  lemma BucketMore(parent: Forest, seen: seq<Name>, buckets: Buckets, n: Name)
    requires Valid(parent) && Bucketed(parent, seen, buckets) && n in parent
    requires forall j :: 0 <= j < |seen| ==> Less(seen[j], n)
    ensures var r := Root(parent, n);
            Bucketed(parent, seen + [n], buckets[r := Bucket(buckets, r) + [n]])
  {
    var r := Root(parent, n);
    var members := Bucket(buckets, r);
    var after := buckets[r := members + [n]];
    assert r in buckets ==> InOrder(parent, seen, buckets, r);
    forall j | 0 <= j < |members|
      ensures Less(members[j], n)
    {
      assert members[j] in members;
      assert members[j] in seen;
    }
    AscendingSnoc(members, n);
    forall q | q in after
      ensures InOrder(parent, seen + [n], after, q)
    {
      assert q in buckets ==> InOrder(parent, seen, buckets, q);
    }
  }

  lemma BucketNext(parent: Forest, names: seq<Name>, i: nat, buckets: Buckets)
    requires Valid(parent) && Ascending(names) && i < |names| && names[i] in parent
    requires Bucketed(parent, names[..i], buckets)
    ensures var r := Root(parent, names[i]);
            Bucketed(parent, names[..i + 1], buckets[r := Bucket(buckets, r) + [names[i]]])
  {
    assert names[..i + 1] == names[..i] + [names[i]];
    forall j | 0 <= j < |names[..i]|
      ensures Less(names[..i][j], names[i])
    {
      assert names[..i][j] == names[j];
    }
    BucketMore(parent, names[..i], buckets, names[i]);
  }

  method Bucketing(forest: Forest, names: seq<Name>) returns (buckets: Buckets)
    requires Valid(forest) && Ascending(names) && forall i :: 0 <= i < |names| ==> names[i] in forest
    ensures Bucketed(forest, names, buckets)
  {
    var parent := forest;
    buckets := map[];
    for i := 0 to |names|
      invariant Valid(parent) && SameRoots(forest, parent) && Bucketed(forest, names[..i], buckets)
    {
      BucketNext(forest, names, i, buckets);
      ghost var was := parent;
      var root: Name;
      parent, root := Find(parent, names[i]);
      assert Touched(was, names[i]) == was;
      SameRootsTransitive(forest, was, parent, names[i]);
      buckets := buckets[root := Bucket(buckets, root) + [names[i]]];
    }
    assert names[..|names|] == names;
  }

  lemma SameRootsTransitive(p: Forest, q: Forest, r: Forest, n: Name)
    requires Valid(p) && Valid(q) && Valid(r) && SameRoots(p, q) && SameRoots(q, r) && n in p
    ensures SameRoots(p, r) && Root(p, n) == Root(q, n)
  {
  }

  lemma BucketsAreComponents(forest: Forest, links: set<Link>, buckets: Buckets)
    requires Valid(forest) && Represents(forest, links) && Bucketed(forest, Sorted(forest.Keys), buckets)
    ensures Cells(forest.Keys, links, buckets)
  {
    var keys := forest.Keys;
    forall r | r in buckets
      ensures r in Heads(keys, links)
      ensures IsCell(keys, links, buckets, r)
    {
      BucketIsComponent(forest, links, buckets, r);
    }
    forall n | n in Heads(keys, links)
      ensures n in buckets
    {
      HeadIsRoot(forest, links, n);
      assert n in Sorted(keys) by {
        assert n in AsSet(Sorted(keys));
      }
    }
  }

  lemma RootOfRoot(forest: Forest, r: Name)
    requires Valid(forest) && r in forest && forest[r] == r
    ensures Root(forest, r) == r
  {
  }

  lemma HeadIsRoot(forest: Forest, links: set<Link>, n: Name)
    requires Valid(forest) && Represents(forest, links) && n in Heads(forest.Keys, links)
    ensures Root(forest, n) == n
  {
    var r := Root(forest, n);
    assert Connected(links, n, r);
    assert r in Component(forest.Keys, links, n);
    if r != n {
      LessAsymmetric(r, n);
    }
  }

  lemma RootIsLeast(forest: Forest, links: set<Link>, r: Name)
    requires Valid(forest) && Represents(forest, links) && r in forest && forest[r] == r
    ensures IsLeast(Component(forest.Keys, links, r), r)
  {
    RootOfRoot(forest, r);
    ConnectedSelf(links, r);
    forall k | k in Component(forest.Keys, links, r)
      ensures k == r || Less(r, k)
    {
      SameRootIff(forest, links, r, k);
    }
  }

  lemma BucketIsComponent(forest: Forest, links: set<Link>, buckets: Buckets, r: Name)
    requires Valid(forest) && Represents(forest, links) && Bucketed(forest, Sorted(forest.Keys), buckets)
    requires r in buckets
    ensures r in Heads(forest.Keys, links)
    ensures IsCell(forest.Keys, links, buckets, r)
  {
    var keys, members := forest.Keys, buckets[r];
    assert InOrder(forest, Sorted(keys), buckets, r);
    assert members[0] in members;
    assert Root(forest, members[0]) == r;
    RootIsLeast(forest, links, r);
    RootOfRoot(forest, r);
    var cell := Component(keys, links, r);
    forall m
      ensures m in members <==> m in cell
    {
      assert m in Sorted(keys) <==> m in AsSet(Sorted(keys));
      if m in forest {
        SameRootIff(forest, links, r, m);
      }
    }
    assert AsSet(members) == cell;
    AscendingIsSorted(members);
    SortedFirst(cell, r);
  }

  /** The names that end up in groups: the entities and, if there are undeclared names, those and the empty text. */
  ghost function Grouped(entities: set<Name>, atomic: seq<seq<Name>>): set<Name> {
    entities + Known(Undeclared(entities, atomic))
  }

  /** What joins them: the links of the declaration, and every undeclared name hung on the empty text. */
  ghost function Joins(entities: set<Name>, relations: seq<Link>, atomic: seq<seq<Name>>): set<Link> {
    Links(relations, atomic) + Strays(Undeclared(entities, atomic))
  }

  /** A member of an atomic group of two or more that nothing declares. */
  predicate IsUndeclared(entities: set<Name>, atomic: seq<seq<Name>>, n: Name) {
    n !in entities && exists g :: g in atomic && |g| >= 2 && n in g
  }

  /** Two names are joined by a relation, either way round, by an atomic group of two or more that has both, or because
      one is undeclared and the other is the empty text; what is grouped is the entities, the undeclared names, and,
      if there are any, the empty text. */
  lemma JoinsIff(entities: set<Name>, relations: seq<Link>, atomic: seq<seq<Name>>, a: Name, b: Name)
    ensures Adjacent(Joins(entities, relations, atomic), a, b) <==>
            (a, b) in relations || (b, a) in relations ||
            (exists g :: g in atomic && |g| >= 2 && a in g && b in g) ||
            (a != "" && b == "" && IsUndeclared(entities, atomic, a)) ||
            (a == "" && b != "" && IsUndeclared(entities, atomic, b))
    ensures a in Grouped(entities, atomic) <==>
            a in entities || IsUndeclared(entities, atomic, a) ||
            (a == "" && exists n :: IsUndeclared(entities, atomic, n))
  {
    forall n
      ensures n in Undeclared(entities, atomic) <==> IsUndeclared(entities, atomic, n)
    {
    }
    if n :| IsUndeclared(entities, atomic, n) {
      assert n in Undeclared(entities, atomic);
    }
    if n :| n in Undeclared(entities, atomic) {
      assert IsUndeclared(entities, atomic, n);
    }
  }

  /** colocation_groups. Relations name declared entities, which assemble_model refuses otherwise; nothing is asked of
      the atomic groups. */
  method ColocationGroups(entities: seq<Name>, relations: seq<Link>, atomic: seq<seq<Name>>)
    returns (groups: seq<Group>)
    requires forall i :: 0 <= i < |relations| ==> relations[i].0 in entities && relations[i].1 in entities
    ensures groups == Grouping(Grouped(AsSet(entities), atomic), Joins(AsSet(entities), relations, atomic))
  {
    var parent := map n | n in entities :: n;
    ghost var declared := AsSet(entities);
    assert parent.Keys == declared && declared + Known({}) == declared;
    SingletonsRepresent(parent);
    assert {} + Strays({}) == {};
    parent := UniteRelations(parent, relations, declared);
    parent := UniteAtomic(parent, atomic, declared, AsSet(relations));
    ghost var links := Joins(declared, relations, atomic);
    StarsRepresentLinks(parent, AsSet(relations), atomic, Strays(Undeclared(declared, atomic)));
    SortedAscending(parent.Keys);
    var buckets := Bucketing(parent, Sorted(parent.Keys));
    BucketsAreComponents(parent, links, buckets);
    groups := GroupsOf(buckets, parent.Keys, links);
  }

  // --- what undeclared names do ---------------------------------------------------------------------

  lemma DeclaredGroups(entities: set<Name>, relations: seq<Link>, atomic: seq<seq<Name>>)
    requires Undeclared(entities, atomic) == {}
    ensures Grouped(entities, atomic) == entities && Joins(entities, relations, atomic) == Links(relations, atomic)
  {
    assert Strays({}) == {};
  }

  /** The groups hold entities and nothing else exactly when every member of every atomic group of two or more is an
      entity; then they are the components of the declaration's own links. */
  lemma GroupsOfEntitiesIff(entities: set<Name>, relations: seq<Link>, atomic: seq<seq<Name>>)
    ensures var groups := Grouping(Grouped(entities, atomic), Joins(entities, relations, atomic));
            (forall i :: 0 <= i < |groups| ==> AsSet(groups[i].members) <= entities) <==>
            Undeclared(entities, atomic) == {}
    ensures Undeclared(entities, atomic) == {} ==>
              Grouping(Grouped(entities, atomic), Joins(entities, relations, atomic)) ==
              Grouping(entities, Links(relations, atomic))
  {
    var names, links := Grouped(entities, atomic), Joins(entities, relations, atomic);
    var groups := Grouping(names, links);
    if Undeclared(entities, atomic) == {} {
      DeclaredGroups(entities, relations, atomic);
      forall i | 0 <= i < |groups|
        ensures AsSet(groups[i].members) <= entities
      {
        var head := Sorted(Heads(names, links))[i];
        assert AsSet(groups[i].members) == Component(names, links, head);
      }
    } else {
      var u := SomeOf(Undeclared(entities, atomic));
      var i := GroupingPartitions(names, links, u);
      assert u in AsSet(groups[i].members) && u !in entities;
    }
  }

  /** All atomic groups with an undeclared member are one: each hangs on the empty text. */
  lemma UndeclaredJoins(entities: set<Name>, relations: seq<Link>, atomic: seq<seq<Name>>, g: seq<Name>, u: Name,
                        a: Name)
    requires g in atomic && |g| >= 2 && u in g && u !in entities && a in g
    ensures "" in Grouped(entities, atomic) && Connected(Joins(entities, relations, atomic), a, "")
  {
    var links := Joins(entities, relations, atomic);
    assert u in Undeclared(entities, atomic);
    assert (a, u) in GroupLinks(atomic);
    ConnectedLink(links, a, u);
    if u != "" {
      assert (u, "") in Strays(Undeclared(entities, atomic));
      ConnectedLink(links, u, "");
      ConnectedTransitive(links, a, u, "");
    }
  }

  /** Names on two sides of a set that no link leaves are not connected. */
  lemma {:induction false} NotConnected(links: set<Link>, side: set<Name>, path: seq<Name>, a: Name, b: Name)
    requires forall l :: l in links ==> (l.0 in side <==> l.1 in side)
    requires Path(links, path, a, b) && a in side
    ensures b in side
    decreases |path|
  {
    if |path| > 1 {
      assert Adjacent(links, path[0], path[0 + 1]);
      PathTail(links, path, a, b);
      NotConnected(links, side, path[1..], path[1], b);
    }
  }

  lemma PathTail(links: set<Link>, path: seq<Name>, a: Name, b: Name)
    requires Path(links, path, a, b) && |path| > 1
    ensures Path(links, path[1..], path[1], b)
  {
    forall i | 0 <= i < |path[1..]| - 1
      ensures Adjacent(links, path[1..][i], path[1..][i + 1])
    {
      assert Adjacent(links, path[i + 1], path[i + 1 + 1]);
    }
  }

  /** A declaration of two entities and two atomic groups that each name one of them and something undeclared: nothing
      the declaration says connects the entities, and they share a group all the same. */
  lemma UndeclaredMergesGroups()
    ensures var entities, atomic := {"A", "B"}, [["A", "x"], ["B", "y"]];
            !Connected(Links([], atomic), "A", "B") && Connected(Joins(entities, [], atomic), "A", "B")
  {
    var entities, atomic := {"A", "B"}, [["A", "x"], ["B", "y"]];
    assert atomic[0] == ["A", "x"] && atomic[1] == ["B", "y"];
    assert atomic[0][1] == "x" && atomic[1][1] == "y";
    UndeclaredJoins(entities, [], atomic, atomic[0], "x", "A");
    UndeclaredJoins(entities, [], atomic, atomic[1], "y", "B");
    var links := Joins(entities, [], atomic);
    ConnectedSymmetric(links, "B", "");
    ConnectedTransitive(links, "A", "", "B");
    if p :| Path(Links([], atomic), p, "A", "B") {
      NotConnected(Links([], atomic), {"A", "x"}, p, "A", "B");
    }
  }

  /** The buckets are the components, each under its least member. */
  ghost predicate Cells(entities: set<Name>, links: set<Link>, buckets: Buckets) {
    buckets.Keys == Heads(entities, links) &&
    forall r {:trigger IsCell(entities, links, buckets, r)} :: r in buckets ==> IsCell(entities, links, buckets, r)
  }

  ghost predicate IsCell(entities: set<Name>, links: set<Link>, buckets: Buckets, r: Name)
    requires r in buckets
  {
    buckets[r] != [] && buckets[r] == Sorted(Component(entities, links, r)) && buckets[r][0] == r
  }

  /** In the order of the roots, which are the least members, so that sorting by name moves nothing. */
  method GroupsOf(buckets: Buckets, ghost entities: set<Name>, ghost links: set<Link>) returns (groups: seq<Group>)
    requires Cells(entities, links, buckets)
    ensures groups == Grouping(entities, links)
  {
    var roots := Sorted(buckets.Keys);
    forall i | 0 <= i < |roots|
      ensures roots[i] in buckets && buckets[roots[i]] != []
    {
      assert IsCell(entities, links, buckets, roots[i]);
    }
    groups := Listed(buckets, roots);
    ghost var all := Grouping(entities, links);
    forall i | 0 <= i < |groups|
      ensures groups[i] == all[i]
    {
      GroupAt(entities, links, buckets, i);
    }
  }

  method Listed(buckets: Buckets, roots: seq<Name>) returns (groups: seq<Group>)
    requires forall i :: 0 <= i < |roots| ==> roots[i] in buckets && buckets[roots[i]] != []
    ensures |groups| == |roots|
    ensures forall i :: 0 <= i < |roots| ==> groups[i] == Group(buckets[roots[i]][0], buckets[roots[i]])
  {
    groups := [];
    for i := 0 to |roots|
      invariant |groups| == i
      invariant forall j :: 0 <= j < i ==> groups[j] == Group(buckets[roots[j]][0], buckets[roots[j]])
    {
      var members := buckets[roots[i]];
      groups := groups + [Group(members[0], members)];
    }
  }

  lemma GroupAt(entities: set<Name>, links: set<Link>, buckets: Buckets, i: nat)
    requires Cells(entities, links, buckets) && i < |Sorted(buckets.Keys)|
    ensures var r := Sorted(buckets.Keys)[i];
            buckets[r] != [] && Grouping(entities, links)[i] == Group(buckets[r][0], buckets[r])
  {
    assert IsCell(entities, links, buckets, Sorted(buckets.Keys)[i]);
  }
}
