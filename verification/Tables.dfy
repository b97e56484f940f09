/** Tables as the migration sees them: rows in key order, the keyset scan and the point read. */
module Tables {
  import opened Outcomes

  /** A stored value; a double is a number, a zero of either sign, or NaN. */
  datatype Value = Null | Text(text: string) | Number(number: int) | Zero(negative: bool) | NaN

  /** The language's ==, under which NaN differs from itself and the zeros are equal. */
  predicate Equals(a: Value, b: Value) {
    if a.NaN? || b.NaN? then false else if a.Zero? && b.Zero? then true else a == b
  }

  /** same_value */
  predicate SameValue(source: Value, target: Value) {
    (source.NaN? && target.NaN?) || Equals(source, target)
  }

  /** Beside equal values only the two zeros are the same; a NaN is the same as a NaN. */
  lemma SameValueIff(a: Value, b: Value)
    ensures SameValue(a, b) <==> a == b || (a.Zero? && b.Zero?)
  {
  }

  type Row = map<string, Value>

  const EPOCH_COLUMN := "__sde_write_epoch"

  datatype Entry = Entry(key: int, row: Row)

  /** The rows of a table in key order. */
  type Table = seq<Entry>

  predicate KeyLess(t: Table, i: int, j: int)
    requires 0 <= i < |t| && 0 <= j < |t|
  {
    t[i].key < t[j].key
  }

  predicate Sorted(t: Table) {
    forall i, j {:trigger KeyLess(t, i, j)} :: 0 <= i < j < |t| ==> KeyLess(t, i, j)
  }

  lemma SortedRest(t: Table)
    requires Sorted(t) && t != []
    ensures Sorted(t[1..]) && Sorted(t[..|t| - 1])
  {
    var tail, front := t[1..], t[..|t| - 1];
    forall i, j | 0 <= i < j < |tail|
      ensures KeyLess(tail, i, j)
    {
      assert KeyLess(t, i + 1, j + 1);
    }
    forall i, j | 0 <= i < j < |front|
      ensures KeyLess(front, i, j)
    {
      assert KeyLess(t, i, j);
    }
  }

  predicate Above(key: int, low: Option<int>) { low.Some? ==> low.value < key }

  predicate AtMost(key: int, high: Option<int>) { high.Some? ==> key <= high.value }

  /** Every row with a key above low and at most high, in key order. */
  function Window(t: Table, low: Option<int>, high: Option<int>): (r: Table)
    ensures forall e :: e in r <==> e in t && Above(e.key, low) && AtMost(e.key, high)
  {
    if t == [] then []
    else if Above(t[0].key, low) && AtMost(t[0].key, high) then [t[0]] + Window(t[1..], low, high)
    else Window(t[1..], low, high)
  }

  /** key_range: a window, cut to a number of rows. */
  function KeyRange(t: Table, low: Option<int>, high: Option<int>, limit: Option<nat>): Table {
    var all := Window(t, low, high);
    if limit.Some? && limit.value < |all| then all[..limit.value] else all
  }

  /** get: the row with a key. */
  function Get(t: Table, key: int): (r: Option<Row>)
    ensures r.Some? ==> Entry(key, r.value) in t
    ensures r.None? ==> forall e :: e in t ==> e.key != key
  {
    if t == [] then None else if t[0].key == key then Some(t[0].row) else Get(t[1..], key)
  }

  /** nth_key: the key of the n-th row in key order, counted from 1. */
  function NthKey(t: Table, n: nat): Option<int>
    requires n > 0
  {
    if n <= |t| then Some(t[n - 1].key) else None
  }

  /** The key of the last of the first n rows; nothing before the first. */
  function KeyBefore(t: Table, n: nat): Option<int>
    requires n <= |t|
  {
    if n == 0 then None else Some(t[n - 1].key)
  }

  /** After the first n rows of a sorted table the scan gives the others. */
  lemma {:induction false} WindowAfter(t: Table, n: nat)
    requires Sorted(t) && n <= |t|
    ensures Window(t, KeyBefore(t, n), None) == t[n..]
  {
    if n == 0 {
      WholeWindow(t, None);
    } else if n == 1 {
      assert !Above(t[0].key, KeyBefore(t, n));
      forall i | 0 <= i < |t[1..]|
        ensures Above(t[1..][i].key, KeyBefore(t, n))
      {
        assert KeyLess(t, 0, i + 1);
      }
      WholeWindow(t[1..], KeyBefore(t, n));
    } else {
      var s := t[1..];
      SortedRest(t);
      WindowAfter(s, n - 1);
      assert KeyBefore(s, n - 1) == KeyBefore(t, n);
      assert KeyLess(t, 0, n - 1);
      assert s[n - 1..] == t[n..];
    }
  }

  lemma {:induction false} WholeWindow(t: Table, low: Option<int>)
    requires forall i :: 0 <= i < |t| ==> Above(t[i].key, low)
    ensures Window(t, low, None) == t
  {
    if t != [] {
      WholeWindow(t[1..], low);
      assert t == [t[0]] + t[1..];
    }
  }

  function Min(a: int, b: int): int { if a < b then a else b }

  /** A scan of `want` rows after the first `seen` gives the next rows of the table. */
  lemma RowsWanted(t: Table, seen: nat, want: nat)
    requires Sorted(t) && seen <= |t|
    ensures KeyRange(t, KeyBefore(t, seen), None, Some(want)) == t[seen..Min(seen + want, |t|)]
  {
    WindowAfter(t, seen);
  }

  /** Keys are unique in a sorted table. */
  lemma UniqueKey(t: Table, e: Entry, f: Entry)
    requires Sorted(t) && e in t && f in t && e.key == f.key
    ensures e == f
  {
    var i :| 0 <= i < |t| && t[i] == e;
    var j :| 0 <= j < |t| && t[j] == f;
    assert i < j ==> KeyLess(t, i, j);
    assert j < i ==> KeyLess(t, j, i);
  }

  function Keys(t: Table): set<int> {
    set e | e in t :: e.key
  }

  /** A sorted table has as many keys as rows. */
  lemma {:induction false} KeyCount(t: Table)
    requires Sorted(t)
    ensures |Keys(t)| == |t|
  {
    if t == [] {
      assert Keys(t) == {};
    } else {
      var n := |t| - 1;
      SortedRest(t);
      KeyCount(t[..n]);
      LastKeyIsNew(t);
      KeysSnoc(t);
    }
  }

  lemma LastKeyIsNew(t: Table)
    requires Sorted(t) && t != []
    ensures t[|t| - 1].key !in Keys(t[..|t| - 1])
  {
    var s := t[..|t| - 1];
    forall e | e in s
      ensures e.key != t[|t| - 1].key
    {
      var i :| 0 <= i < |s| && s[i] == e;
      assert KeyLess(t, i, |t| - 1);
    }
  }

  lemma KeysSnoc(t: Table)
    requires t != []
    ensures Keys(t) == Keys(t[..|t| - 1]) + {t[|t| - 1].key}
  {
    var s, last := t[..|t| - 1], t[|t| - 1];
    assert t == s + [last];
    assert forall e :: e in t <==> e in s || e == last;
  }

  // --- comparing rows -----------------------------------------------------------------------------

  /** The row holds every column of `source` with the same value; it may hold others. */
  predicate Covers(source: Row, target: Row) {
    forall c :: c in source ==> c in target && SameValue(source[c], target[c])
  }

  /** Row by row, column by column: every column of the source row, but the write-epoch column of a stamped copy, is in
      the target row and holds the same there, a zero of either sign being a zero. */
  predicate SameColumns(source: Row, target: Row, stamped: bool) {
    forall c :: c in source && !(stamped && c == "__sde_write_epoch") ==>
      c in target && (source[c] == target[c] || (source[c].Zero? && target[c].Zero?))
  }

  lemma CoversIff(source: Row, target: Row, stamped: bool)
    ensures Covers(Logical(source, stamped), Logical(target, stamped)) <==> SameColumns(source, target, stamped)
  {
    if Covers(Logical(source, stamped), Logical(target, stamped)) {
      forall c | c in source && !(stamped && c == "__sde_write_epoch")
        ensures c in target && (source[c] == target[c] || (source[c].Zero? && target[c].Zero?))
      {
        assert c in Logical(source, stamped);
      }
    }
  }

  /** A read of a table gives its rows in key order. */
  ghost predicate Lists(t: Table, rows: map<int, Row>) {
    && Sorted(t)
    && (forall e :: e in t ==> e.key in rows && rows[e.key] == e.row)
    && (forall k :: k in rows ==> Entry(k, rows[k]) in t)
  }

  /** logical_copy_row: without the write-epoch column when the copy is stamped with one. */
  function Logical(row: Row, stamped: bool): Row {
    if stamped then row - {EPOCH_COLUMN} else row
  }
}
