/** Sorting by a list of texts, as std::sort does with a key; and that a sorted list depends only on what is in it. */
module Sorting {
  import opened Names

  type Key = seq<Name>

  /** Lists of texts in dictionary order. */
  predicate AtMost(a: Key, b: Key) {
    a == [] || (b != [] && (Less(a[0], b[0]) || (a[0] == b[0] && AtMost(a[1..], b[1..]))))
  }

  /** Two lists are in dictionary order by the first place where they differ, or because the first one ends there. */
  ghost predicate OrderedAt(a: Key, b: Key, n: nat) {
    n <= |a| && n <= |b| && a[..n] == b[..n] && (n == |a| || (n < |b| && Less(a[n], b[n])))
  }

  lemma {:induction false} AtMostIff(a: Key, b: Key)
    ensures AtMost(a, b) <==> exists n: nat :: OrderedAt(a, b, n)
  {
    if b != [] && a != [] && a[0] == b[0] {
      LessIrreflexive(a[0]);
      AtMostIff(a[1..], b[1..]);
      if n: nat :| OrderedAt(a[1..], b[1..], n) {
        assert a[..n + 1] == [a[0]] + a[1..][..n] && b[..n + 1] == [b[0]] + b[1..][..n];
        assert OrderedAt(a, b, n + 1);
      }
      if n: nat :| OrderedAt(a, b, n) {
        assert a[1..][..n - 1] == a[..n][1..] && b[1..][..n - 1] == b[..n][1..];
        assert OrderedAt(a[1..], b[1..], n - 1);
      }
    } else {
      if AtMost(a, b) {
        assert OrderedAt(a, b, 0);
      }
      if n: nat :| OrderedAt(a, b, n) {
        SamePrefix(a, b, n);
      }
    }
  }

  lemma {:induction false} AtMostTotal(a: Key, b: Key)
    ensures AtMost(a, b) || AtMost(b, a)
  {
    if a != [] && b != [] {
      LessTotal(a[0], b[0]);
      AtMostTotal(a[1..], b[1..]);
    }
  }

  lemma {:induction false} AtMostTransitive(a: Key, b: Key, c: Key)
    requires AtMost(a, b) && AtMost(b, c)
    ensures AtMost(a, c)
  {
    if a != [] {
      if Less(a[0], b[0]) && Less(b[0], c[0]) {
        LessTransitive(a[0], b[0], c[0]);
      } else if a[0] == b[0] == c[0] && !Less(a[0], a[0]) {
        AtMostTransitive(a[1..], b[1..], c[1..]);
      } else {
        LessIrreflexive(a[0]);
      }
    }
  }

  lemma {:induction false} AtMostAntisymmetric(a: Key, b: Key)
    requires AtMost(a, b) && AtMost(b, a)
    ensures a == b
  {
    if a != [] {
      if Less(a[0], b[0]) {
        LessAsymmetric(a[0], b[0]);
      } else {
        AtMostAntisymmetric(a[1..], b[1..]);
        assert a == [a[0]] + a[1..] && b == [b[0]] + b[1..];
      }
    }
  }

  // --- sorting --------------------------------------------------------------------------------------

  function Insert<T>(x: T, s: seq<T>, key: T -> Key): (r: seq<T>)
    ensures multiset(r) == multiset(s) + multiset{x}
  {
    if s == [] then [x]
    else if AtMost(key(x), key(s[0])) then [x] + s
    else
      assert s == [s[0]] + s[1..];
      [s[0]] + Insert(x, s[1..], key)
  }

  function Sort<T>(s: seq<T>, key: T -> Key): (r: seq<T>)
    ensures multiset(r) == multiset(s)
  {
    if s == [] then []
    else
      assert s == [s[0]] + s[1..];
      Insert(s[0], Sort(s[1..], key), key)
  }

  ghost predicate InOrder<T>(s: seq<T>, key: T -> Key) {
    s != [] ==> (forall i :: 0 <= i < |s| ==> AtMost(key(s[0]), key(s[i]))) && InOrder(s[1..], key)
  }

  lemma {:induction false} InsertInOrder<T>(x: T, s: seq<T>, key: T -> Key)
    requires InOrder(s, key)
    ensures InOrder(Insert(x, s, key), key)
  {
    AtMostTotal(key(x), key(x));
    if s == [] {
    } else if AtMost(key(x), key(s[0])) {
      var r := [x] + s;
      assert r[1..] == s;
      forall i | 0 <= i < |r|
        ensures AtMost(key(r[0]), key(r[i]))
      {
        if i > 0 {
          AtMostTransitive(key(x), key(s[0]), key(s[i - 1]));
        }
      }
    } else {
      AtMostTotal(key(x), key(s[0]));
      InsertInOrder(x, s[1..], key);
      var rest := Insert(x, s[1..], key);
      var r := [s[0]] + rest;
      assert r[1..] == rest;
      AtMostTotal(key(s[0]), key(s[0]));
      forall i | 0 <= i < |r|
        ensures AtMost(key(r[0]), key(r[i]))
      {
        if i > 0 {
          assert rest[i - 1] in multiset(rest);
          assert rest[i - 1] == x || rest[i - 1] in multiset(s[1..]);
          if rest[i - 1] != x {
            var j :| 0 <= j < |s[1..]| && s[1..][j] == rest[i - 1];
            assert s[j + 1] == rest[i - 1];
          }
        }
      }
    }
  }

  lemma {:induction false} SortInOrder<T>(s: seq<T>, key: T -> Key)
    ensures InOrder(Sort(s, key), key)
  {
    if s != [] {
      SortInOrder(s[1..], key);
      InsertInOrder(s[0], Sort(s[1..], key), key);
    }
  }

  /** A list put in order has the same elements. */
  lemma {:induction false} SortedHas<T(!new)>(s: seq<T>, key: T -> Key, x: T)
    ensures x in Sort(s, key) <==> x in s
  {
    assert x in Sort(s, key) <==> x in multiset(Sort(s, key));
    assert x in s <==> x in multiset(s);
  }

  lemma {:induction false} InOrderPairs<T>(s: seq<T>, key: T -> Key, i: nat, j: nat)
    requires InOrder(s, key) && i <= j < |s|
    ensures AtMost(key(s[i]), key(s[j]))
  {
    if i > 0 {
      InOrderPairs(s[1..], key, i - 1, j - 1);
    }
  }

  /** A sorted list: no later element has a smaller key. */
  lemma SortedPairs<T>(s: seq<T>, key: T -> Key)
    ensures var r := Sort(s, key);
            |r| == |s| && forall i, j :: 0 <= i <= j < |r| ==> AtMost(key(r[i]), key(r[j]))
  {
    var r := Sort(s, key);
    SortInOrder(s, key);
    assert |r| == |multiset(r)| && |s| == |multiset(s)|;
    forall i, j | 0 <= i <= j < |r|
      ensures AtMost(key(r[i]), key(r[j]))
    {
      InOrderPairs(r, key, i, j);
    }
  }

  /** The key tells the elements apart. */
  ghost predicate Tells<T(!new)>(key: T -> Key, s: multiset<T>) {
    forall x, y {:trigger Told(key, x, y)} :: x in s && y in s ==> Told(key, x, y)
  }

  ghost predicate Told<T(!new)>(key: T -> Key, x: T, y: T) { key(x) == key(y) ==> x == y }

  /** No two elements have the same key. */
  ghost predicate KeysApart<T>(s: seq<T>, key: T -> Key) {
    forall i, j {:trigger KeyDiffers(s, key, i, j)} :: 0 <= i < j < |s| ==> KeyDiffers(s, key, i, j)
  }

  ghost predicate KeyDiffers<T>(s: seq<T>, key: T -> Key, i: nat, j: nat)
    requires i < |s| && j < |s|
  {
    key(s[i]) != key(s[j])
  }

  lemma ApartTells<T(!new)>(s: seq<T>, key: T -> Key)
    requires KeysApart(s, key)
    ensures Tells(key, multiset(s))
  {
    forall x, y | x in multiset(s) && y in multiset(s)
      ensures Told(key, x, y)
    {
      var i :| 0 <= i < |s| && s[i] == x;
      var j :| 0 <= j < |s| && s[j] == y;
      assert i < j ==> KeyDiffers(s, key, i, j);
      assert j < i ==> KeyDiffers(s, key, j, i);
    }
  }

  lemma SameKeysApart<T, U>(s: seq<T>, k: T -> Key, t: seq<U>, l: U -> Key)
    requires KeysApart(s, k) && |s| == |t| && forall i :: 0 <= i < |s| ==> l(t[i]) == k(s[i])
    ensures KeysApart(t, l)
  {
    forall i, j | 0 <= i < j < |t|
      ensures KeyDiffers(t, l, i, j)
    {
      assert KeyDiffers(s, k, i, j);
    }
  }

  lemma {:induction false} OneOrder<T(!new)>(a: seq<T>, b: seq<T>, key: T -> Key)
    requires InOrder(a, key) && InOrder(b, key) && multiset(a) == multiset(b) && Tells(key, multiset(a))
    ensures a == b
  {
    if a == [] {
      NothingInIt(b);
    } else {
      assert a[0] in multiset(a);
      assert b != [];
      FirstAtMost(a, b, key);
      FirstAtMost(b, a, key);
      AtMostAntisymmetric(key(a[0]), key(b[0]));
      assert b[0] in multiset(b);
      assert Told(key, a[0], b[0]);
      TailOf(a);
      TailOf(b);
      OneOrder(a[1..], b[1..], key);
    }
  }

  lemma NothingInIt<T>(b: seq<T>)
    requires multiset(b) == multiset{}
    ensures b == []
  {
    assert |b| == |multiset(b)|;
  }

  lemma TailOf<T>(a: seq<T>)
    requires a != []
    ensures a == [a[0]] + a[1..] && multiset(a[1..]) == multiset(a) - multiset{a[0]}
  {
    assert a == [a[0]] + a[1..];
  }

  lemma FirstAtMost<T>(a: seq<T>, b: seq<T>, key: T -> Key)
    requires InOrder(a, key) && a != [] && b != [] && multiset(a) == multiset(b)
    ensures AtMost(key(a[0]), key(b[0]))
  {
    assert b[0] in multiset(b);
    assert b[0] in multiset(a);
    var i :| 0 <= i < |a| && a[i] == b[0];
  }

  /** Sorting forgets the order and nothing else. */
  lemma SortSameIff<T(!new)>(a: seq<T>, b: seq<T>, key: T -> Key)
    requires Tells(key, multiset(a))
    ensures Sort(a, key) == Sort(b, key) <==> multiset(a) == multiset(b)
  {
    if multiset(a) == multiset(b) {
      SortInOrder(a, key);
      SortInOrder(b, key);
      OneOrder(Sort(a, key), Sort(b, key), key);
    }
    assert multiset(Sort(a, key)) == multiset(a) && multiset(Sort(b, key)) == multiset(b);
  }

  // --- lists of images ------------------------------------------------------------------------------

  function Mapped<T, U>(f: T -> U, s: seq<T>): (r: seq<U>)
    ensures |r| == |s| && forall i :: 0 <= i < |s| ==> r[i] == f(s[i])
  {
    if s == [] then [] else [f(s[0])] + Mapped(f, s[1..])
  }

  /** Elements that look the same one way look the same the other way. */
  ghost predicate Alike<T(!new), U, V>(f: T -> U, g: T -> V, s: seq<T>, t: seq<T>) {
    forall x, y {:trigger SameUnder(f, g, x, y)} :: x in s && y in t ==> SameUnder(f, g, x, y)
  }

  ghost predicate SameUnder<T(!new), U, V>(f: T -> U, g: T -> V, x: T, y: T) { f(x) == f(y) ==> g(x) == g(y) }

  lemma {:induction false} MappedAlike<T(!new), U, V>(f: T -> U, g: T -> V, s: seq<T>, t: seq<T>)
    requires Alike(f, g, s, t) && multiset(Mapped(f, s)) == multiset(Mapped(f, t))
    ensures multiset(Mapped(g, s)) == multiset(Mapped(g, t))
  {
    if s == [] {
      NothingInIt(Mapped(f, t));
    } else {
      var j := FindMapped(f, s, t);
      var u := t[..j] + t[j + 1..];
      assert SameUnder(f, g, s[0], t[j]);
      MappedStep(f, s, t, j);
      FewerAlike(f, g, s, t, j);
      MappedAlike(f, g, s[1..], u);
      MappedStep(g, s, t, j);
    }
  }

  lemma FewerAlike<T(!new), U, V>(f: T -> U, g: T -> V, s: seq<T>, t: seq<T>, j: nat)
    requires Alike(f, g, s, t) && s != [] && j < |t|
    ensures Alike(f, g, s[1..], t[..j] + t[j + 1..])
  {
    forall x, y | x in s[1..] && y in t[..j] + t[j + 1..]
      ensures SameUnder(f, g, x, y)
    {
      assert x in s && y in t;
    }
  }

  lemma MappedStep<T, U>(f: T -> U, s: seq<T>, t: seq<T>, j: nat)
    requires s != [] && j < |t| && f(s[0]) == f(t[j])
    ensures multiset(Mapped(f, s)) == multiset(Mapped(f, t)) <==>
            multiset(Mapped(f, s[1..])) == multiset(Mapped(f, t[..j] + t[j + 1..]))
  {
    var u := t[..j] + t[j + 1..];
    RemoveMapped(f, t, j);
    RemoveMapped(f, s, 0);
    assert s[..0] + s[1..] == s[1..];
    OneMore(multiset(Mapped(f, s)), multiset(Mapped(f, t)), multiset(Mapped(f, s[1..])), multiset(Mapped(f, u)),
            f(s[0]));
  }

  lemma OneMore<U>(a: multiset<U>, b: multiset<U>, p: multiset<U>, q: multiset<U>, x: U)
    requires a == p + multiset{x} && b == q + multiset{x}
    ensures a == b <==> p == q
  {
    assert p == a - multiset{x} && q == b - multiset{x};
  }

  lemma FindMapped<T, U>(f: T -> U, s: seq<T>, t: seq<T>) returns (j: nat)
    requires s != [] && multiset(Mapped(f, s)) == multiset(Mapped(f, t))
    ensures j < |t| && f(t[j]) == f(s[0])
  {
    assert Mapped(f, s)[0] in multiset(Mapped(f, s));
    assert f(s[0]) in multiset(Mapped(f, t));
    j :| 0 <= j < |t| && Mapped(f, t)[j] == f(s[0]);
  }

  lemma {:induction false} RemoveMapped<T, U>(f: T -> U, s: seq<T>, j: nat)
    requires j < |s|
    ensures multiset(Mapped(f, s)) == multiset(Mapped(f, s[..j] + s[j + 1..])) + multiset{f(s[j])}
  {
    var m := Mapped(f, s);
    assert Mapped(f, s[..j] + s[j + 1..]) == m[..j] + m[j + 1..];
    RemoveOne(m, j);
  }

  lemma RemoveOne<T>(m: seq<T>, j: nat)
    requires j < |m|
    ensures multiset(m) == multiset(m[..j] + m[j + 1..]) + multiset{m[j]}
  {
    assert m == m[..j] + [m[j]] + m[j + 1..];
  }
}
