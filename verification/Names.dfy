/** Texts in the order the library sorts them by: code point by code point, which is the byte order of their UTF-8. */
module Names {
  import opened Collections

  type Name = string

  predicate Less(a: Name, b: Name) {
    b != [] && (a == [] || a[0] < b[0] || (a[0] == b[0] && Less(a[1..], b[1..])))
  }

  /** One text is less than another at the first place where they differ, or because it ends there. */
  ghost predicate DiffersAt(a: Name, b: Name, n: nat) {
    n <= |a| && n < |b| && a[..n] == b[..n] && (n == |a| || a[n] < b[n])
  }

  lemma SamePrefix<T>(a: seq<T>, b: seq<T>, n: nat)
    requires n <= |a| && n <= |b| && a[..n] == b[..n]
    ensures n > 0 ==> a[0] == b[0]
  {
    if n > 0 {
      assert a[..n][0] == b[..n][0];
    }
  }

  lemma {:induction false} LessIff(a: Name, b: Name)
    ensures Less(a, b) <==> exists n: nat :: DiffersAt(a, b, n)
  {
    if b != [] && a != [] && a[0] == b[0] {
      LessIff(a[1..], b[1..]);
      if n: nat :| DiffersAt(a[1..], b[1..], n) {
        assert a[..n + 1] == [a[0]] + a[1..][..n] && b[..n + 1] == [b[0]] + b[1..][..n];
        assert DiffersAt(a, b, n + 1);
      }
      if n: nat :| DiffersAt(a, b, n) {
        assert a[1..][..n - 1] == a[..n][1..] && b[1..][..n - 1] == b[..n][1..];
        assert DiffersAt(a[1..], b[1..], n - 1);
      }
    } else {
      if Less(a, b) {
        assert DiffersAt(a, b, 0);
      }
      if n: nat :| DiffersAt(a, b, n) {
        SamePrefix(a, b, n);
      }
    }
  }

  lemma LessIrreflexive(a: Name)
    ensures !Less(a, a)
  {
  }

  lemma LessTransitive(a: Name, b: Name, c: Name)
    requires Less(a, b) && Less(b, c)
    ensures Less(a, c)
  {
  }

  lemma {:induction false} LessTotal(a: Name, b: Name)
    ensures a == b || Less(a, b) || Less(b, a)
  {
    if a != [] && b != [] && a[0] == b[0] {
      LessTotal(a[1..], b[1..]);
      assert a == [a[0]] + a[1..] && b == [b[0]] + b[1..];
    }
  }

  lemma LessAsymmetric(a: Name, b: Name)
    requires Less(a, b)
    ensures !Less(b, a) && a != b
  {
    LessIrreflexive(a);
    if Less(b, a) {
      LessTransitive(a, b, a);
    }
  }

  // --- sorting --------------------------------------------------------------------------------------

  predicate IsLeast(keys: set<Name>, least: Name) {
    least in keys && forall k :: k in keys ==> k == least || Less(least, k)
  }

  lemma {:induction false} LeastExists(keys: set<Name>) returns (least: Name)
    requires keys != {}
    ensures IsLeast(keys, least)
  {
    var x := SomeOf(keys);
    var rest := keys - {x};
    if rest == {} {
      assert forall k :: k in keys ==> k == x || k in rest;
      return x;
    }
    var other := LeastExists(rest);
    LessTotal(x, other);
    least := if Less(x, other) then x else other;
    forall k | k in keys
      ensures k == least || Less(least, k)
    {
      if k in rest && Less(other, k) && Less(x, other) {
        LessTransitive(x, other, k);
      } else {
        assert k == x || k in rest;
      }
    }
  }

  function Least(keys: set<Name>): (least: Name)
    requires keys != {}
    ensures IsLeast(keys, least)
  {
    assert exists l :: IsLeast(keys, l) by {
      var l := LeastExists(keys);
    }
    assert forall a, b :: IsLeast(keys, a) && IsLeast(keys, b) ==> a == b by {
      forall a, b | IsLeast(keys, a) && IsLeast(keys, b)
        ensures a == b
      {
        LeastUnique(keys, a, b);
      }
    }
    var least :| least in keys && IsLeast(keys, least);
    least
  }

  lemma LeastUnique(keys: set<Name>, a: Name, b: Name)
    requires IsLeast(keys, a) && IsLeast(keys, b)
    ensures a == b
  {
    if Less(a, b) && Less(b, a) {
      LessAsymmetric(a, b);
    }
  }

  /** Ascending, each text once. */
  ghost predicate Ascending(s: seq<Name>) {
    forall i, j {:trigger s[i], s[j]} :: 0 <= i < j < |s| ==> Less(s[i], s[j])
  }

  /** The texts of a set in order. */
  function Sorted(keys: set<Name>): (s: seq<Name>)
    ensures |s| == |keys| && AsSet(s) == keys
    ensures forall i :: 0 <= i < |s| ==> s[i] in keys
    decreases keys
  {
    if keys == {} then []
    else
      var least := Least(keys);
      var rest := Sorted(keys - {least});
      AsSetCons(least, rest);
      assert keys == {least} + (keys - {least});
      [least] + rest
  }

  lemma {:induction false} SortedAscending(keys: set<Name>)
    ensures Ascending(Sorted(keys))
    decreases keys
  {
    if keys != {} {
      var least := Least(keys);
      var rest := Sorted(keys - {least});
      SortedAscending(keys - {least});
      forall j | 0 <= j < |rest|
        ensures Less(least, rest[j])
      {
        assert rest[j] in keys && rest[j] != least;
      }
      AscendingCons(least, rest);
    }
  }

  lemma AscendingCons(x: Name, rest: seq<Name>)
    requires Ascending(rest) && forall j :: 0 <= j < |rest| ==> Less(x, rest[j])
    ensures Ascending([x] + rest)
  {
  }

  lemma AscendingSnoc(s: seq<Name>, x: Name)
    requires Ascending(s) && forall j :: 0 <= j < |s| ==> Less(s[j], x)
    ensures Ascending(s + [x])
  {
  }

  /** There is one way to put a set in order. */
  lemma {:induction false} AscendingIsSorted(s: seq<Name>)
    requires Ascending(s)
    ensures s == Sorted(AsSet(s))
  {
    if s != [] {
      LeastIsHead(s, AsSet(s));
      AscendingTail(s);
      AscendingIsSorted(s[1..]);
      assert s == [s[0]] + s[1..];
    }
  }

  lemma {:induction false} LeastIsHead(s: seq<Name>, keys: set<Name>)
    requires Ascending(s) && s != [] && keys == AsSet(s)
    ensures keys != {} && Least(keys) == s[0]
  {
    assert s[0] in keys;
    forall k | k in keys
      ensures k == s[0] || Less(s[0], k)
    {
      var j :| 0 <= j < |s| && s[j] == k;
    }
    LeastUnique(keys, s[0], Least(keys));
  }

  lemma AscendingTail(s: seq<Name>)
    requires Ascending(s) && s != []
    ensures Ascending(s[1..]) && AsSet(s[1..]) == AsSet(s) - {s[0]}
  {
    LessIrreflexive(s[0]);
    assert s == [s[0]] + s[1..];
    forall j | 1 <= j < |s|
      ensures s[j] != s[0]
    {
      assert Less(s[0], s[j]);
    }
  }
}
