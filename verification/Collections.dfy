/** Facts about sets and sequences that several parts share. */
module Collections {

  lemma SomeOf<T>(s: set<T>) returns (x: T)
    requires s != {}
    ensures x in s
  {
    x :| x in s;
  }

  lemma SubsetSize<T>(a: set<T>, b: set<T>)
    requires a <= b
    ensures |a| <= |b| && (a != b ==> |a| < |b|)
  {
    assert b == a + (b - a);
    if a != b {
      assert b - a != {};
    }
  }

  function AsSet<T>(s: seq<T>): set<T> { set x | x in s }

  lemma AsSetCons<T>(x: T, s: seq<T>)
    ensures AsSet([x] + s) == {x} + AsSet(s)
  {
  }

  lemma AsSetSnoc<T>(s: seq<T>, x: T)
    ensures AsSet(s + [x]) == AsSet(s) + {x}
  {
  }

  lemma CutConcat<T>(a: seq<T>, b: seq<T>)
    ensures (a + b)[..|a|] == a && (a + b)[|a|..] == b
  {
  }
}
