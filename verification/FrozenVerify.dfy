/** The comparison under named barriers (still_frozen and verify_frozen of cpp/src/migration.cpp): the runs of the
    write fences of all its tables, seen on one clock, and what a returned report says about them. */
module FrozenVerify {
  import opened Outcomes
  import opened Tables
  import WF = WriteFence
  import V = Verify

  /** One table of the comparison: its fence's run and the moments of the comparison's own calls on it. The freeze by
      executor `exec` adds the hold in step `add` and drains in step `drain`; the check of what the freeze returned
      reads state `frozen`, and the check after the comparison state `check`. */
  datatype Fenced = Fenced(
    run: seq<WF.Table>,
    labels: seq<WF.Label>,
    exec: nat,
    add: nat,
    drain: nat,
    frozen: nat,
    check: nat,
    epoch: int)

  /** still_frozen: complete, at the expected generation, and under the named hold. */
  ghost predicate StillFrozen(t: WF.Table, epoch: int, hold: string) {
    WF.Complete(t) && WF.Epoch(t, epoch) && WF.Hold(hold) in t.fence
  }

  /** verify_frozen got through this table: frozen, drained and found so before the comparison read anything (from
      moment lo to moment hi), and still frozen at the check after it; and no release of the hold's id made its drop in
      between, which SerialisedPassed and UnretiredPassed reduce to what the checks and the fence's contract give. */
  ghost predicate Passed(f: Fenced, hold: string, lo: nat, hi: nat) {
    Checked(f, hold, lo, hi) && WF.NotReleased(f.run, f.labels, hold, f.add, f.check)
  }

  /** What verify_frozen itself sees of this table. */
  ghost predicate Checked(f: Fenced, hold: string, lo: nat, hi: nat) {
    && WF.IsRun(f.run, f.labels) && |f.run| > f.check
    && WF.Froze(f.run, f.labels, f.exec, hold, f.add, f.drain)
    && f.drain < f.frozen <= lo <= hi <= f.check
    && StillFrozen(f.run[f.frozen], f.epoch, hold)
    && StillFrozen(f.run[f.check], f.epoch, hold)
  }

  /** With the commands of the table serialised, what verify_frozen sees is enough. */
  lemma SerialisedPassed(f: Fenced, hold: string, lo: nat, hi: nat)
    requires Checked(f, hold, lo, hi) && forall j :: 0 <= j < |f.run| ==> WF.Serialised(f.run[j])
    ensures Passed(f, hold, lo, hi)
  {
    WF.SerialisedNotReleased(f.run, f.labels, f.exec, hold, f.add, f.drain, f.check);
  }

  /** So it is when the final check also finds that the id is not retired, whatever runs at once. */
  lemma UnretiredPassed(f: Fenced, hold: string, lo: nat, hi: nat)
    requires Checked(f, hold, lo, hi) && WF.Retired(hold) !in f.run[f.check].fence
    ensures Passed(f, hold, lo, hi)
  {
    WF.UnretiredNotReleased(f.run, f.labels, f.exec, hold, f.add, f.drain, f.check);
  }

  /** And a table that verify_frozen let through passed exactly when its hold was in force all along. */
  lemma PassedIffHeld(f: Fenced, hold: string, lo: nat, hi: nat)
    requires Checked(f, hold, lo, hi)
    ensures Passed(f, hold, lo, hi) <==> forall j :: f.add < j <= f.check ==> WF.Hold(hold) in f.run[j].fence
  {
    WF.HeldIffNotReleased(f.run, f.labels, f.exec, hold, f.add, f.drain, f.check);
  }

  /** A table that passed was under the hold, unchanged and at its one generation for the whole comparison. */
  lemma PassedMeansStill(f: Fenced, hold: string, lo: nat, hi: nat, j: nat)
    requires Passed(f, hold, lo, hi) && lo <= j <= hi
    ensures WF.Hold(hold) in f.run[j].fence
    ensures f.run[j].rows == f.run[lo].rows
    ensures WF.Lower(f.run[j].fence, f.epoch)
  {
    WF.NotReleasedIsASnapshot(f.run, f.labels, f.exec, hold, f.add, f.drain, f.check);
    LowerStays(f, hold, lo, hi, j);
  }

  lemma LowerStays(f: Fenced, hold: string, lo: nat, hi: nat, j: nat)
    requires Passed(f, hold, lo, hi) && lo <= j <= hi
    ensures WF.Lower(f.run[j].fence, f.epoch)
  {
    var e, fence := f.epoch, f.run[j].fence;
    assert WF.Min(e) in f.run[f.frozen].fence;
    WF.RunAtLeast(f.run, f.labels, f.frozen, j, e);
    forall m | WF.Min(m) in fence
      ensures m <= e
    {
      WF.RunAtLeast(f.run, f.labels, j, f.check, m);
    }
  }

  lemma {:induction false} ListingUnique(a: Table, b: Table, rows: WF.Rows)
    requires Lists(a, rows) && Lists(b, rows)
    ensures a == b
  {
    EmptyListing(a, rows);
    EmptyListing(b, rows);
    if a != [] {
      FirstEntry(a, b, rows);
      var rest := rows - {a[0].key};
      ListsRest(a, rows);
      ListsRest(b, rows);
      ListingUnique(a[1..], b[1..], rest);
      assert a == [a[0]] + a[1..] && b == [b[0]] + b[1..];
    }
  }

  lemma EmptyListing(a: Table, rows: WF.Rows)
    requires Lists(a, rows)
    ensures a == [] <==> rows == map[]
  {
    ListedKeys(a, rows);
    if a != [] {
      assert a[0] in a;
    } else {
      assert rows.Keys == {};
    }
  }

  lemma FirstEntry(a: Table, b: Table, rows: WF.Rows)
    requires Lists(a, rows) && Lists(b, rows) && a != [] && b != []
    ensures a[0] == b[0]
  {
    assert a[0] in a && b[0] in b;
    var i :| 0 <= i < |b| && b[i] == a[0];
    var j :| 0 <= j < |a| && a[j] == b[0];
    assert i > 0 ==> KeyLess(b, 0, i);
    assert j > 0 ==> KeyLess(a, 0, j);
  }

  lemma ListsRest(a: Table, rows: WF.Rows)
    requires Lists(a, rows) && a != []
    ensures Lists(a[1..], rows - {a[0].key})
  {
    SortedRest(a);
    forall e | e in a[1..]
      ensures e.key != a[0].key && e in a
    {
      var i :| 0 <= i < |a| - 1 && a[1..][i] == e;
      assert KeyLess(a, 0, i + 1);
    }
    forall k | k in rows && k != a[0].key
      ensures Entry(k, rows[k]) in a[1..]
    {
      assert Entry(k, rows[k]) in a;
    }
  }

  /** Whenever during the comparison a table is read, the read gives the same rows. */
  lemma EveryReadIsOneSnapshot(f: Fenced, hold: string, lo: nat, hi: nat, i: nat, j: nat, a: Table, b: Table)
    requires Passed(f, hold, lo, hi) && lo <= i <= hi && lo <= j <= hi
    requires Lists(a, f.run[i].rows) && Lists(b, f.run[j].rows)
    ensures a == b
  {
    PassedMeansStill(f, hold, lo, hi, i);
    PassedMeansStill(f, hold, lo, hi, j);
    ListingUnique(a, b, f.run[lo].rows);
  }

  /** One copy of the comparison: which tables it reads, and what it read. */
  datatype Compared = Compared(source: Fenced, target: Fenced, copy: V.Copy)

  ghost predicate ReadDuring(c: Compared, hold: string, lo: nat, hi: nat) {
    && Passed(c.source, hold, lo, hi) && Passed(c.target, hold, lo, hi)
    && (exists i :: lo <= i <= hi && Lists(c.copy.source, c.source.run[i].rows))
    && (exists i :: lo <= i <= hi && Lists(c.copy.target, c.target.run[i].rows))
  }

  /** The copy holds the source's keys and, on the source's columns, its values. */
  ghost predicate SameRows(source: WF.Rows, target: WF.Rows, stamped: bool) {
    && source.Keys == target.Keys
    && forall k :: k in source ==> SameColumns(source[k], target[k], stamped)
  }

  ghost predicate SameAt(c: Compared, j: nat) {
    && j < |c.source.run| && j < |c.target.run|
    && SameRows(c.source.run[j].rows, c.target.run[j].rows, c.copy.stamped)
  }

  /** If verify_frozen returns a report that matches, then at every moment of the comparison every copy was its
      source, row for row; and if it returns one that does not, then at every moment some copy was not. */
  lemma FrozenReportIsExact(compared: seq<Compared>, hold: string, lo: nat, hi: nat, chunk: nat, j: nat)
    requires chunk > 0 && lo <= j <= hi
    requires forall i :: 0 <= i < |compared| ==> ReadDuring(compared[i], hold, lo, hi)
    ensures var copies := seq(|compared|, i requires 0 <= i < |compared| => compared[i].copy);
            V.Cut(V.TotalReport(copies, chunk)).FrozenMatched() <==>
            forall i :: 0 <= i < |compared| ==> SameAt(compared[i], j)
  {
    var copies := seq(|compared|, i requires 0 <= i < |compared| => compared[i].copy);
    forall i | 0 <= i < |compared|
      ensures V.KeyUnique(copies[i])
      ensures V.SameTables(copies[i]) <==> SameAt(compared[i], j)
    {
      ComparedExact(compared[i], hold, lo, hi, j);
    }
    V.FrozenMatchedIff(copies, chunk);
  }

  lemma ComparedExact(c: Compared, hold: string, lo: nat, hi: nat, j: nat)
    requires lo <= j <= hi && ReadDuring(c, hold, lo, hi)
    ensures V.KeyUnique(c.copy)
    ensures V.SameTables(c.copy) <==> SameAt(c, j)
  {
    var a :| lo <= a <= hi && Lists(c.copy.source, c.source.run[a].rows);
    var b :| lo <= b <= hi && Lists(c.copy.target, c.target.run[b].rows);
    PassedMeansStill(c.source, hold, lo, hi, a);
    PassedMeansStill(c.source, hold, lo, hi, j);
    PassedMeansStill(c.target, hold, lo, hi, b);
    PassedMeansStill(c.target, hold, lo, hi, j);
    TablesExact(c.copy, c.source.run[j].rows, c.target.run[j].rows);
  }

  lemma ListedKeys(t: Table, rows: WF.Rows)
    requires Lists(t, rows)
    ensures Keys(t) == rows.Keys
  {
    forall k | k in rows
      ensures k in Keys(t)
    {
      assert Entry(k, rows[k]) in t;
    }
  }

  lemma ListedGet(t: Table, rows: WF.Rows, k: int)
    requires Lists(t, rows)
    ensures Get(t, k) == if k in rows then Some(rows[k]) else None
  {
    var there := Get(t, k);
    if k in rows {
      assert Entry(k, rows[k]) in t;
    }
  }

  lemma TablesExact(copy: V.Copy, source: WF.Rows, target: WF.Rows)
    requires Lists(copy.source, source) && Lists(copy.target, target)
    ensures V.SameTables(copy) <==> SameRows(source, target, copy.stamped)
  {
    ListedKeys(copy.source, source);
    ListedKeys(copy.target, target);
    forall i | 0 <= i < |copy.source|
      ensures var e := copy.source[i];
              V.Matches(copy, e) <==>
              e.key in target && SameColumns(source[e.key], target[e.key], copy.stamped)
    {
      assert copy.source[i] in copy.source;
      ListedGet(copy.target, target, copy.source[i].key);
    }
    if V.SameTables(copy) {
      forall k | k in source
        ensures SameColumns(source[k], target[k], copy.stamped)
      {
        assert Entry(k, source[k]) in copy.source;
        var i :| 0 <= i < |copy.source| && copy.source[i] == Entry(k, source[k]);
        assert V.Matches(copy, copy.source[i]);
      }
    }
  }
}
