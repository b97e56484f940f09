/** Comparing a source with its copies (missing_in_target, verify and matched of cpp/src/migration.cpp) on tables
    that do not change meanwhile. */
module Verify {
  import opened Collections
  import opened Tables
  import opened Outcomes

  /** One entity, from its source to one fan-out target. */
  datatype Copy = Copy(source: Table, target: Table, marker: int, stamped: bool)

  predicate KeyUnique(copy: Copy) { Sorted(copy.source) && Sorted(copy.target) }

  /** One source row the copy lacks, or holds with other values in the columns named. */
  datatype Difference = Difference(key: int, columns: set<string>)

  // --- the reference: what each source row should find --------------------------------------------

  /** The copy holds this source row, on the source's columns. */
  predicate Matches(copy: Copy, e: Entry) {
    var there := Get(copy.target, e.key);
    there.Some? && SameColumns(e.row, there.value, copy.stamped)
  }

  /** Where two rows differ, seen from the source. */
  function DifferingColumns(source: Row, target: Row): set<string> {
    set c | c in source && !(c in target && SameValue(source[c], target[c]))
  }

  lemma NoColumnDiffers(source: Row, target: Row)
    ensures DifferingColumns(source, target) == {} <==> Covers(source, target)
  {
    var r := DifferingColumns(source, target);
    if !Covers(source, target) {
      var c :| c in source && !(c in target && SameValue(source[c], target[c]));
      assert c in r;
    } else {
      assert forall c :: c !in r;
    }
  }

  /** The columns a difference names: those of the source row, the write epoch of a stamped copy aside, that the target
      row lacks or holds with another value. */
  ghost predicate NamesColumns(source: Row, target: Row, stamped: bool, columns: set<string>) {
    forall c :: c in columns <==>
      c in source && !(stamped && c == "__sde_write_epoch") &&
      !(c in target && (source[c] == target[c] || (source[c].Zero? && target[c].Zero?)))
  }

  lemma DifferingNamed(source: Row, target: Row, stamped: bool)
    ensures NamesColumns(source, target, stamped,
                         DifferingColumns(Logical(source, stamped), Logical(target, stamped)))
  {
  }

  function DifferenceOf(copy: Copy, e: Entry): Difference {
    var there := Get(copy.target, e.key);
    Difference(e.key,
               if there.Some? then DifferingColumns(Logical(e.row, copy.stamped), Logical(there.value, copy.stamped))
               else {})
  }

  /** The differences of some source rows, in their order. */
  function Missing(copy: Copy, rows: Table): seq<Difference> {
    if rows == [] then []
    else if Matches(copy, rows[0]) then Missing(copy, rows[1..])
    else [DifferenceOf(copy, rows[0])] + Missing(copy, rows[1..])
  }

  lemma {:induction false} MissingConcat(copy: Copy, a: Table, b: Table)
    ensures Missing(copy, a + b) == Missing(copy, a) + Missing(copy, b)
  {
    if a == [] {
      assert a + b == b;
    } else {
      MissingConcat(copy, a[1..], b);
      assert (a + b)[1..] == a[1..] + b;
    }
  }

  lemma {:induction false} MissingEmpty(copy: Copy, rows: Table)
    ensures Missing(copy, rows) == [] <==> forall i :: 0 <= i < |rows| ==> Matches(copy, rows[i])
  {
    if rows != [] {
      MissingEmpty(copy, rows[1..]);
      if forall i :: 0 <= i < |rows| ==> Matches(copy, rows[i]) {
        assert forall i :: 0 <= i < |rows[1..]| ==> Matches(copy, rows[1..][i]);
      } else if Matches(copy, rows[0]) {
        var i :| 0 <= i < |rows| && !Matches(copy, rows[i]);
        assert !Matches(copy, rows[1..][i - 1]);
      }
    }
  }

  /** What a difference says of a source row: a row that is there is named with the columns that differ, one that is not
      with none. */
  ghost predicate Describes(copy: Copy, e: Entry, d: Difference) {
    d.key == e.key &&
    match Get(copy.target, e.key)
    case None => d.columns == {}
    case Some(row) => NamesColumns(e.row, row, copy.stamped, d.columns)
  }

  /** It describes some of these rows, and that row is not matched. */
  ghost predicate DescribesOne(copy: Copy, rows: Table, d: Difference) {
    exists e :: e in rows && !Matches(copy, e) && Describes(copy, e, d)
  }

  ghost predicate DescribedIn(copy: Copy, e: Entry, out: seq<Difference>) {
    exists i :: 0 <= i < |out| && Describes(copy, e, out[i])
  }

  ghost predicate InKeyOrder(out: seq<Difference>) { forall i, j :: 0 <= i < j < |out| ==> out[i].key < out[j].key }

  ghost predicate OnlyUnmatched(copy: Copy, rows: Table, out: seq<Difference>) {
    forall i :: 0 <= i < |out| ==> DescribesOne(copy, rows, out[i])
  }

  ghost predicate EveryUnmatched(copy: Copy, rows: Table, out: seq<Difference>) {
    forall e :: e in rows && !Matches(copy, e) ==> DescribedIn(copy, e, out)
  }

  /** The differences describe the rows that are not matched, all of them and no other, each once and in key order. */
  lemma {:induction false} MissingExact(copy: Copy, rows: Table)
    requires Sorted(rows)
    ensures var out := Missing(copy, rows);
            InKeyOrder(out) && OnlyUnmatched(copy, rows, out) && EveryUnmatched(copy, rows, out)
  {
    if rows != [] {
      var rest := Missing(copy, rows[1..]);
      SortedRest(rows);
      MissingExact(copy, rows[1..]);
      FirstDescribed(copy, rows[0]);
      assert rows == [rows[0]] + rows[1..];
      FirstKeyLess(rows);
      OnlyCons(copy, rows[0], rows[1..], rest, DifferenceOf(copy, rows[0]));
      EveryCons(copy, rows[0], rows[1..], rest, DifferenceOf(copy, rows[0]));
    }
  }

  lemma FirstKeyLess(rows: Table)
    requires Sorted(rows) && rows != []
    ensures forall e :: e in rows[1..] ==> rows[0].key < e.key
  {
    forall e | e in rows[1..]
      ensures rows[0].key < e.key
    {
      var j :| 0 <= j < |rows| - 1 && rows[1..][j] == e;
      assert KeyLess(rows, 0, j + 1);
    }
  }

  lemma OnlyCons(copy: Copy, e: Entry, rows: Table, out: seq<Difference>, d: Difference)
    requires InKeyOrder(out) && OnlyUnmatched(copy, rows, out) && forall f :: f in rows ==> e.key < f.key
    requires Describes(copy, e, d)
    ensures InKeyOrder([d] + out) && OnlyUnmatched(copy, [e] + rows, out)
    ensures !Matches(copy, e) ==> OnlyUnmatched(copy, [e] + rows, [d] + out)
  {
    forall i | 0 <= i < |out|
      ensures DescribesOne(copy, [e] + rows, out[i]) && d.key < out[i].key
    {
      assert DescribesOne(copy, rows, out[i]);
      var f :| f in rows && !Matches(copy, f) && Describes(copy, f, out[i]);
      assert f in [e] + rows;
    }
    if !Matches(copy, e) {
      assert e in [e] + rows;
      assert DescribesOne(copy, [e] + rows, d);
    }
  }

  lemma EveryCons(copy: Copy, e: Entry, rows: Table, out: seq<Difference>, d: Difference)
    requires EveryUnmatched(copy, rows, out) && Describes(copy, e, d)
    ensures EveryUnmatched(copy, [e] + rows, if Matches(copy, e) then out else [d] + out)
  {
    var more := [d] + out;
    assert more[0] == d;
    assert DescribedIn(copy, e, more);
    forall f | f in rows && DescribedIn(copy, f, out)
      ensures DescribedIn(copy, f, more)
    {
      var i :| 0 <= i < |out| && Describes(copy, f, out[i]);
      assert more[i + 1] == out[i];
    }
  }

  lemma FirstDescribed(copy: Copy, e: Entry)
    ensures Describes(copy, e, DifferenceOf(copy, e))
  {
    var there := Get(copy.target, e.key);
    if there.Some? {
      DifferingNamed(e.row, there.value, copy.stamped);
    }
  }

  // --- missing_in_target --------------------------------------------------------------------------

  /** The target's window indexed by key; the first row of a key stays. */
  method IndexByKey(mirror: Table, stamped: bool) returns (index: map<int, Row>)
    requires Sorted(mirror)
    ensures forall e :: e in mirror ==> e.key in index && index[e.key] == Logical(e.row, stamped)
    ensures forall k :: k in index ==> exists e :: e in mirror && e.key == k
  {
    index := map[];
    for i := 0 to |mirror|
      invariant forall j :: 0 <= j < i ==>
        mirror[j].key in index && index[mirror[j].key] == Logical(mirror[j].row, stamped)
      invariant forall k :: k in index ==> exists j :: 0 <= j < i && mirror[j].key == k
    {
      forall j | 0 <= j < i
        ensures mirror[j].key != mirror[i].key
      {
        assert KeyLess(mirror, j, i);
      }
      if mirror[i].key !in index {
        index := index[mirror[i].key := Logical(mirror[i].row, stamped)];
      }
    }
  }

  /** Rows are looked up in one range of the target; those not found there are read again key by key. */
  method MissingInTarget(copy: Copy, rows: Table, low: Option<int>, high: int) returns (out: seq<Difference>)
    requires KeyUnique(copy)
    requires forall i :: 0 <= i < |rows| ==> Above(rows[i].key, low) && rows[i].key <= high
    ensures out == Missing(copy, rows)
  {
    var mirror := KeyRange(copy.target, low, Some(high), None);
    WindowSorted(copy.target, low, Some(high));
    var index := IndexByKey(mirror, copy.stamped);
    out := [];
    for i := 0 to |rows|
      invariant out == Missing(copy, rows[..i])
    {
      MissingConcat(copy, rows[..i], [rows[i]]);
      assert rows[..i + 1] == rows[..i] + [rows[i]];
      assert [rows[i]][1..] == [];
      var row := Logical(rows[i].row, copy.stamped);
      if rows[i].key in index && DifferingColumns(row, index[rows[i].key]) == {} {
        NoColumnDiffers(row, index[rows[i].key]);
        IndexIsRight(copy, mirror, index, low, high, rows[i]);
        CoversIff(rows[i].row, Get(copy.target, rows[i].key).value, copy.stamped);
      } else {
        var again := Get(copy.target, rows[i].key);
        if again.Some? {
          var differs := DifferingColumns(row, Logical(again.value, copy.stamped));
          NoColumnDiffers(row, Logical(again.value, copy.stamped));
          CoversIff(rows[i].row, again.value, copy.stamped);
          if differs != {} {
            out := out + [Difference(rows[i].key, differs)];
          }
        } else {
          out := out + [Difference(rows[i].key, {})];
        }
      }
    }
    assert rows[..|rows|] == rows;
  }

  lemma {:induction false} WindowSorted(t: Table, low: Option<int>, high: Option<int>)
    requires Sorted(t)
    ensures Sorted(Window(t, low, high))
  {
    if t != [] {
      SortedRest(t);
      var w := Window(t[1..], low, high);
      WindowSorted(t[1..], low, high);
      forall i | 0 <= i < |w|
        ensures t[0].key < w[i].key
      {
        assert w[i] in t[1..];
        var j :| 0 <= j < |t| - 1 && t[1..][j] == w[i];
        assert KeyLess(t, 0, j + 1);
      }
      PrependSorted(t[0], w);
    }
  }

  lemma PrependSorted(e: Entry, w: Table)
    requires Sorted(w) && forall i :: 0 <= i < |w| ==> e.key < w[i].key
    ensures Sorted([e] + w)
  {
    var t := [e] + w;
    forall i, j | 0 <= i < j < |t|
      ensures KeyLess(t, i, j)
    {
      if i > 0 {
        assert KeyLess(w, i - 1, j - 1);
      }
    }
  }

  /** What the window's index says about a key is what the point read says. */
  lemma IndexIsRight(copy: Copy, mirror: Table, index: map<int, Row>, low: Option<int>, high: int, e: Entry)
    requires KeyUnique(copy) && mirror == Window(copy.target, low, Some(high))
    requires forall f :: f in mirror ==> f.key in index && index[f.key] == Logical(f.row, copy.stamped)
    requires forall k :: k in index ==> exists f :: f in mirror && f.key == k
    requires e.key in index
    ensures var there := Get(copy.target, e.key);
            there.Some? && Logical(there.value, copy.stamped) == index[e.key]
  {
    var f :| f in mirror && f.key == e.key;
    assert f in copy.target;
    var there := Get(copy.target, e.key);
    UniqueKey(copy.target, f, Entry(e.key, there.value));
  }

  // --- verify -------------------------------------------------------------------------------------

  const DIFFERENCES_KEPT: nat := 20

  datatype VerifyReport = VerifyReport(
    chunksCompared: nat,
    chunksMismatched: nat,
    tailRowsRead: nat,
    tailRowsMissing: nat,
    rowsSource: nat,
    rowsTarget: nat,
    differences: seq<Difference>,
    suppressed: nat)
  {
    /** matched(): everything the source holds is in the copies. */
    predicate Matched() { chunksMismatched == 0 && tailRowsMissing == 0 }

    /** matched() of a frozen comparison: nothing moves under the barriers, so the counts are compared too. */
    predicate FrozenMatched() { Matched() && rowsSource == rowsTarget }
  }

  /** The rows below the marker: min(marker, n), none for a marker that is not positive. */
  function Below(copy: Copy): (b: nat)
    ensures b <= |copy.source|
  {
    if copy.marker <= 0 then 0 else Min(copy.marker, |copy.source|)
  }

  /** How many chunks n rows make: n / chunk rounded up. */
  function Chunks(n: nat, chunk: nat): nat
    requires chunk > 0
  {
    if n == 0 then 0 else 1 + Chunks(if n < chunk then 0 else n - chunk, chunk)
  }

  lemma {:induction false} ChunksIsCeiling(n: nat, chunk: nat)
    requires chunk > 0
    ensures n <= chunk * Chunks(n, chunk) < n + chunk
  {
    if n > 0 {
      var rest := if n < chunk then 0 else n - chunk;
      ChunksIsCeiling(rest, chunk);
      assert chunk * (1 + Chunks(rest, chunk)) == chunk + chunk * Chunks(rest, chunk);
    }
  }

  /** How many of the chunks of source[lo..b] hold a row the copy does not match. */
  function Mismatched(copy: Copy, chunk: nat, lo: nat, b: nat): nat
    requires chunk > 0 && lo <= b <= |copy.source|
    decreases b - lo
  {
    if lo == b then 0
    else
      var hi := Min(lo + chunk, b);
      (if Missing(copy, copy.source[lo..hi]) != [] then 1 else 0) + Mismatched(copy, chunk, hi, b)
  }

  lemma {:induction false} NoneMismatched(copy: Copy, chunk: nat, lo: nat, b: nat)
    requires chunk > 0 && lo <= b <= |copy.source|
    ensures Mismatched(copy, chunk, lo, b) == 0 <==> Missing(copy, copy.source[lo..b]) == []
    decreases b - lo
  {
    if lo < b {
      var hi := Min(lo + chunk, b);
      NoneMismatched(copy, chunk, hi, b);
      MissingBetween(copy, lo, hi, b);
    }
  }

  lemma MissingBetween(copy: Copy, lo: nat, mid: nat, hi: nat)
    requires lo <= mid <= hi <= |copy.source|
    ensures Missing(copy, copy.source[lo..hi]) ==
            Missing(copy, copy.source[lo..mid]) + Missing(copy, copy.source[mid..hi])
  {
    MissingConcat(copy, copy.source[lo..mid], copy.source[mid..hi]);
    assert copy.source[lo..hi] == copy.source[lo..mid] + copy.source[mid..hi];
  }

  /** The report of one copy, before its differences are cut. */
  function CopyReport(copy: Copy, chunk: nat): VerifyReport
    requires chunk > 0
  {
    var b, n := Below(copy), |copy.source|;
    VerifyReport(Chunks(b, chunk), Mismatched(copy, chunk, 0, b), n - b, |Missing(copy, copy.source[b..])|,
                 n, |copy.target|, Missing(copy, copy.source), 0)
  }

  function Plus(r: VerifyReport, s: VerifyReport): VerifyReport {
    VerifyReport(r.chunksCompared + s.chunksCompared, r.chunksMismatched + s.chunksMismatched,
                 r.tailRowsRead + s.tailRowsRead, r.tailRowsMissing + s.tailRowsMissing,
                 r.rowsSource + s.rowsSource, r.rowsTarget + s.rowsTarget, r.differences + s.differences, 0)
  }

  /** The reports of all copies added up, every difference listed. */
  function TotalReport(copies: seq<Copy>, chunk: nat): VerifyReport
    requires chunk > 0
  {
    if copies == [] then VerifyReport(0, 0, 0, 0, 0, 0, [], 0)
    else Plus(TotalReport(copies[..|copies| - 1], chunk), CopyReport(copies[|copies| - 1], chunk))
  }

  /** Only the first twenty differences are kept; the others are counted. */
  function Cut(r: VerifyReport): VerifyReport {
    var kept := Min(|r.differences|, DIFFERENCES_KEPT);
    r.(differences := r.differences[..kept], suppressed := |r.differences| - kept)
  }

  /** Adds differences to a report: kept while there is room, counted after. */
  function Keep(report: VerifyReport, missing: seq<Difference>): VerifyReport {
    var room := if |report.differences| < DIFFERENCES_KEPT then DIFFERENCES_KEPT - |report.differences| else 0;
    var kept := Min(room, |missing|);
    report.(differences := report.differences + missing[..kept],
            suppressed := report.suppressed + (|missing| - kept))
  }

  method KeepDifferences(report: VerifyReport, missing: seq<Difference>) returns (r: VerifyReport)
    ensures r == Keep(report, missing)
  {
    r := report;
    for i := 0 to |missing|
      invariant r == Keep(report, missing[..i])
    {
      assert missing[..i + 1] == missing[..i] + [missing[i]];
      if |r.differences| < DIFFERENCES_KEPT {
        r := r.(differences := r.differences + [missing[i]]);
      } else {
        r := r.(suppressed := r.suppressed + 1);
      }
    }
    assert missing[..|missing|] == missing;
  }

  /** Where the window that starts after `seen` rows ends: at the chunk's end, the marker or the table's end. */
  function WindowEnd(copy: Copy, chunk: nat, seen: nat): (hi: nat)
    requires chunk > 0 && seen <= |copy.source|
    ensures seen <= hi <= |copy.source| && (hi == seen <==> seen == |copy.source|)
  {
    Min(seen + chunk, if seen < Below(copy) then Below(copy) else |copy.source|)
  }

  /** The report with one more window counted. */
  function Count(report: VerifyReport, below: bool, rows: nat, missing: seq<Difference>): VerifyReport {
    var r := if below
      then report.(chunksCompared := report.chunksCompared + 1,
                   chunksMismatched := report.chunksMismatched + (if missing != [] then 1 else 0))
      else report.(tailRowsRead := report.tailRowsRead + rows,
                   tailRowsMissing := report.tailRowsMissing + |missing|);
    Keep(r, missing)
  }

  /** The report with the window after the first `seen` rows counted. */
  function CountNext(report: VerifyReport, copy: Copy, chunk: nat, seen: nat): VerifyReport
    requires chunk > 0 && seen <= |copy.source|
  {
    var hi := WindowEnd(copy, chunk, seen);
    Count(report, seen < Below(copy), hi - seen, Missing(copy, copy.source[seen..hi]))
  }

  /** The report once the rows after the first `seen` have been scanned too. */
  ghost function Finish(report: VerifyReport, copy: Copy, chunk: nat, seen: nat): VerifyReport
    requires chunk > 0 && seen <= |copy.source|
    decreases |copy.source| - seen
  {
    var hi := WindowEnd(copy, chunk, seen);
    if hi == seen then report else Finish(CountNext(report, copy, chunk, seen), copy, chunk, hi)
  }

  /** The scan's next window: it does not straddle the marker, and is empty only at the end of the table. */
  ghost predicate IsWindow(copy: Copy, chunk: nat, seen: nat, rows: Table)
    requires chunk > 0 && seen <= |copy.source|
  {
    && seen + |rows| == WindowEnd(copy, chunk, seen)
    && rows == copy.source[seen..seen + |rows|]
    && (rows != [] ==> (seen < copy.marker <==> seen < Below(copy)))
  }

  method ReadWindow(copy: Copy, chunk: nat, after: Option<int>, seen: nat) returns (rows: Table)
    requires Sorted(copy.source) && chunk > 0 && seen <= |copy.source| && after == KeyBefore(copy.source, seen)
    ensures IsWindow(copy, chunk, seen, rows)
  {
    var want := if seen < copy.marker then Min(chunk, copy.marker - seen) else chunk;
    rows := KeyRange(copy.source, after, None, Some(want));
    RowsWanted(copy.source, seen, want);
  }

  /** The scan of the rows after the first `seen` still leads to this report. */
  ghost predicate LeadsTo(report: VerifyReport, copy: Copy, chunk: nat, seen: nat, goal: VerifyReport)
    requires chunk > 0
  {
    seen <= |copy.source| && Finish(report, copy, chunk, seen) == goal
  }

  lemma {:induction false} LeadsOn(report: VerifyReport, copy: Copy, chunk: nat, seen: nat, goal: VerifyReport)
    requires chunk > 0 && LeadsTo(report, copy, chunk, seen, goal)
    ensures if WindowEnd(copy, chunk, seen) == seen then report == goal
            else LeadsTo(CountNext(report, copy, chunk, seen), copy, chunk, WindowEnd(copy, chunk, seen), goal)
  {
  }

  lemma NextCounted(report: VerifyReport, copy: Copy, chunk: nat, seen: nat, rows: Table)
    requires chunk > 0 && seen <= |copy.source| && IsWindow(copy, chunk, seen, rows) && rows != []
    ensures CountNext(report, copy, chunk, seen) == Count(report, seen < copy.marker, |rows|, Missing(copy, rows))
  {
  }

  /** One window of verify: compared and counted. */
  method VerifyWindow(copy: Copy, chunk: nat, report: VerifyReport, seen: nat, rows: Table) returns (r: VerifyReport)
    requires KeyUnique(copy) && chunk > 0 && seen <= |copy.source| && rows != []
    requires IsWindow(copy, chunk, seen, rows)
    ensures r == CountNext(report, copy, chunk, seen)
  {
    NextCounted(report, copy, chunk, seen, rows);
    WindowKeys(copy, chunk, seen, rows);
    var missing := MissingInTarget(copy, rows, KeyBefore(copy.source, seen), rows[|rows| - 1].key);
    if seen < copy.marker {
      r := report.(chunksCompared := report.chunksCompared + 1,
                   chunksMismatched := report.chunksMismatched + (if missing != [] then 1 else 0));
    } else {
      r := report.(tailRowsRead := report.tailRowsRead + |rows|,
                   tailRowsMissing := report.tailRowsMissing + |missing|);
    }
    r := KeepDifferences(r, missing);
  }

  lemma WindowKeys(copy: Copy, chunk: nat, seen: nat, rows: Table)
    requires Sorted(copy.source) && chunk > 0 && seen <= |copy.source| && rows != []
    requires IsWindow(copy, chunk, seen, rows)
    ensures forall i :: 0 <= i < |rows| ==>
              Above(rows[i].key, KeyBefore(copy.source, seen)) && rows[i].key <= rows[|rows| - 1].key
    ensures Some(rows[|rows| - 1].key) == KeyBefore(copy.source, seen + |rows|)
  {
    forall i | 0 <= i < |rows|
      ensures Above(rows[i].key, KeyBefore(copy.source, seen)) && rows[i].key <= rows[|rows| - 1].key
    {
      assert rows[i] == copy.source[seen + i] && rows[|rows| - 1] == copy.source[seen + |rows| - 1];
      assert seen > 0 ==> KeyLess(copy.source, seen - 1, seen + i);
      assert i < |rows| - 1 ==> KeyLess(copy.source, seen + i, seen + |rows| - 1);
    }
    assert rows[|rows| - 1] == copy.source[seen + |rows| - 1];
  }

  /** One turn of the window loop: the next window, compared and counted unless it is empty. */
  method NextWindow(copy: Copy, chunk: nat, report: VerifyReport, after: Option<int>, seen: nat,
                    ghost goal: VerifyReport)
    returns (r: VerifyReport, after': Option<int>, read: nat)
    requires KeyUnique(copy) && chunk > 0 && seen <= |copy.source| && after == KeyBefore(copy.source, seen)
    requires LeadsTo(report, copy, chunk, seen, goal)
    ensures seen + read <= |copy.source| && after' == KeyBefore(copy.source, seen + read)
    ensures if read == 0 then r == goal else LeadsTo(r, copy, chunk, seen + read, goal)
  {
    LeadsOn(report, copy, chunk, seen, goal);
    var rows := ReadWindow(copy, chunk, after, seen);
    if rows == [] {
      return report, after, 0;
    }
    r := VerifyWindow(copy, chunk, report, seen, rows);
    WindowKeys(copy, chunk, seen, rows);
    after', read := Some(rows[|rows| - 1].key), |rows|;
  }

  /** The window loop of verify over one copy. */
  method ScanCopy(copy: Copy, chunk: nat, before: VerifyReport) returns (report: VerifyReport)
    requires KeyUnique(copy) && chunk > 0
    ensures report == Finish(before, copy, chunk, 0)
    ensures Counted(report, before, copy, chunk, |copy.source|)
  {
    report := before;
    var after: Option<int>, seen := None, 0;
    ghost var goal := Finish(before, copy, chunk, 0);
    while true
      invariant 0 <= seen <= |copy.source|
      invariant after == KeyBefore(copy.source, seen)
      invariant LeadsTo(report, copy, chunk, seen, goal)
      decreases |copy.source| - seen
    {
      var read;
      report, after, read := NextWindow(copy, chunk, report, after, seen, goal);
      if read == 0 {
        break;
      }
      seen := seen + read;
    }
    ScanCounts(before, copy, chunk);
  }

  // --- the counts in closed form -------------------------------------------------------------------

  /** The counts so far within one copy: `total` is of the copies before it, `seen` rows of this one are done. */
  ghost predicate Counted(report: VerifyReport, total: VerifyReport, copy: Copy, chunk: nat, seen: nat)
    requires chunk > 0
  {
    var b, n := Below(copy), |copy.source|;
    seen <= n &&
    var done := if seen < b then seen else b;
    && report.chunksCompared + Chunks(b - done, chunk) == total.chunksCompared + Chunks(b, chunk)
    && report.chunksMismatched + Mismatched(copy, chunk, done, b) ==
       total.chunksMismatched + Mismatched(copy, chunk, 0, b)
    && report.tailRowsRead == total.tailRowsRead + (seen - done)
    && report.tailRowsMissing == total.tailRowsMissing + |Missing(copy, copy.source[done..seen])|
    && report.rowsSource == total.rowsSource && report.rowsTarget == total.rowsTarget
  }

  ghost predicate DifferencesOf(report: VerifyReport, all: seq<Difference>) {
    var kept := Min(|all|, DIFFERENCES_KEPT);
    report.differences == all[..kept] && report.suppressed == |all| - kept
  }

  lemma KeepDifferencesOf(report: VerifyReport, all: seq<Difference>, missing: seq<Difference>)
    requires DifferencesOf(report, all)
    ensures DifferencesOf(Keep(report, missing), all + missing)
  {
  }

  lemma BelowCounts(copy: Copy, chunk: nat, seen: nat)
    requires chunk > 0 && seen < Below(copy)
    ensures var b, hi := Below(copy), WindowEnd(copy, chunk, seen);
            && hi <= b && Chunks(b - seen, chunk) == 1 + Chunks(b - hi, chunk)
            && Mismatched(copy, chunk, seen, b) ==
               (if Missing(copy, copy.source[seen..hi]) != [] then 1 else 0) + Mismatched(copy, chunk, hi, b)
  {
  }

  lemma CountBelow(report: VerifyReport, total: VerifyReport, copy: Copy, chunk: nat, seen: nat)
    requires chunk > 0 && seen < Below(copy) && Counted(report, total, copy, chunk, seen)
    ensures var hi := WindowEnd(copy, chunk, seen);
            Counted(CountNext(report, copy, chunk, seen), total, copy, chunk, hi)
  {
    var hi := WindowEnd(copy, chunk, seen);
    BelowCounts(copy, chunk, seen);
    assert copy.source[seen..seen] == [] && copy.source[hi..hi] == [];
  }

  lemma CountAbove(report: VerifyReport, total: VerifyReport, copy: Copy, chunk: nat, seen: nat)
    requires chunk > 0 && Below(copy) <= seen < |copy.source| && Counted(report, total, copy, chunk, seen)
    ensures var hi := WindowEnd(copy, chunk, seen);
            Counted(CountNext(report, copy, chunk, seen), total, copy, chunk, hi)
  {
    var b, hi := Below(copy), WindowEnd(copy, chunk, seen);
    MissingBetween(copy, b, seen, hi);
  }

  lemma {:induction false} FinishCounts(report: VerifyReport, total: VerifyReport, copy: Copy, chunk: nat, seen: nat)
    requires chunk > 0 && seen <= |copy.source| && Counted(report, total, copy, chunk, seen)
    ensures Counted(Finish(report, copy, chunk, seen), total, copy, chunk, |copy.source|)
    decreases |copy.source| - seen
  {
    var hi := WindowEnd(copy, chunk, seen);
    if hi != seen {
      if seen < Below(copy) {
        CountBelow(report, total, copy, chunk, seen);
      } else {
        CountAbove(report, total, copy, chunk, seen);
      }
      FinishCounts(CountNext(report, copy, chunk, seen), total, copy, chunk, hi);
    }
  }

  lemma {:induction false} ScanCounts(before: VerifyReport, copy: Copy, chunk: nat)
    requires chunk > 0
    ensures Counted(Finish(before, copy, chunk, 0), before, copy, chunk, |copy.source|)
  {
    FinishCounts(before, before, copy, chunk, 0);
  }

  lemma {:induction false} FinishDifferences(report: VerifyReport, all: seq<Difference>, copy: Copy, chunk: nat,
                                             seen: nat)
    requires chunk > 0 && seen <= |copy.source| && DifferencesOf(report, all)
    ensures DifferencesOf(Finish(report, copy, chunk, seen), all + Missing(copy, copy.source[seen..]))
    decreases |copy.source| - seen
  {
    var hi := WindowEnd(copy, chunk, seen);
    if hi == seen {
      assert copy.source[seen..] == [] && all + [] == all;
    } else {
      var missing := Missing(copy, copy.source[seen..hi]);
      NextDifferences(report, all, copy, chunk, seen);
      FinishDifferences(CountNext(report, copy, chunk, seen), all + missing, copy, chunk, hi);
      MissingOnward(copy, all, seen, hi);
    }
  }

  lemma MissingOnward(copy: Copy, all: seq<Difference>, seen: nat, hi: nat)
    requires seen <= hi <= |copy.source|
    ensures all + Missing(copy, copy.source[seen..]) ==
            (all + Missing(copy, copy.source[seen..hi])) + Missing(copy, copy.source[hi..])
  {
    MissingConcat(copy, copy.source[seen..hi], copy.source[hi..]);
    assert copy.source[seen..] == copy.source[seen..hi] + copy.source[hi..];
  }

  lemma NextDifferences(report: VerifyReport, all: seq<Difference>, copy: Copy, chunk: nat, seen: nat)
    requires chunk > 0 && seen <= |copy.source| && DifferencesOf(report, all)
    ensures DifferencesOf(CountNext(report, copy, chunk, seen),
                          all + Missing(copy, copy.source[seen..WindowEnd(copy, chunk, seen)]))
  {
    KeepDifferencesOf(report, all, Missing(copy, copy.source[seen..WindowEnd(copy, chunk, seen)]));
  }

  /** verify of one copy, added to the report of the copies before it. */
  method VerifyCopy(copy: Copy, chunk: nat, before: VerifyReport, ghost total: VerifyReport)
    returns (report: VerifyReport)
    requires KeyUnique(copy) && chunk > 0 && before == Cut(total)
    ensures report == Cut(Plus(total, CopyReport(copy, chunk)))
  {
    report := before.(rowsSource := before.rowsSource + |copy.source|, rowsTarget := before.rowsTarget + |copy.target|);
    ghost var start := report;
    report := ScanCopy(copy, chunk, report);
    ScanTotals(start, report, total, copy, chunk);
  }

  lemma ScanTotals(start: VerifyReport, report: VerifyReport, total: VerifyReport, copy: Copy, chunk: nat)
    requires chunk > 0 && report == Finish(start, copy, chunk, 0)
    requires var before := Cut(total);
             start == before.(rowsSource := before.rowsSource + |copy.source|,
                              rowsTarget := before.rowsTarget + |copy.target|)
    ensures report == Cut(Plus(total, CopyReport(copy, chunk)))
  {
    var n := |copy.source|;
    assert Missing(copy, copy.source[0..0]) == [];
    FinishCounts(start, start, copy, chunk, 0);
    FinishDifferences(start, total.differences, copy, chunk, 0);
    assert copy.source[0..] == copy.source;
    assert copy.source[Below(copy)..n] == copy.source[Below(copy)..];
  }

  /** verify: refuses a chunk of no rows; otherwise the counts of every copy, added up. */
  method VerifyCopies(copies: seq<Copy>, chunkRows: int) returns (r: Outcome<VerifyReport>)
    requires forall i :: 0 <= i < |copies| ==> KeyUnique(copies[i])
    ensures r.Accepted? <==> chunkRows >= 1
    ensures r.Accepted? ==> r.value == Cut(TotalReport(copies, chunkRows))
    ensures r.Accepted? ==>
      var all, kept := TotalReport(copies, chunkRows).differences, r.value.differences;
      kept <= all && |kept| + r.value.suppressed == |all| && |kept| == (if |all| < 20 then |all| else 20)
  {
    if chunkRows < 1 {
      return Refused;
    }
    var report := VerifyReport(0, 0, 0, 0, 0, 0, [], 0);
    for i := 0 to |copies|
      invariant report == Cut(TotalReport(copies[..i], chunkRows))
    {
      assert copies[..i + 1][..i] == copies[..i];
      report := VerifyCopy(copies[i], chunkRows, report, TotalReport(copies[..i], chunkRows));
    }
    assert copies[..|copies|] == copies;
    r := Accepted(report);
  }

  // --- what a matching report means ----------------------------------------------------------------

  /** Every source row is in the copy, on the source's columns. */
  ghost predicate Included(copy: Copy) {
    forall i :: 0 <= i < |copy.source| ==> Matches(copy, copy.source[i])
  }

  /** The copy is the source: the same keys, and each row the same on the source's columns. */
  ghost predicate SameTables(copy: Copy) {
    Included(copy) && Keys(copy.source) == Keys(copy.target)
  }

  lemma CopyMatched(copy: Copy, chunk: nat)
    requires chunk > 0
    ensures CopyReport(copy, chunk).Matched() <==> Included(copy)
  {
    var b := Below(copy);
    NoneMismatched(copy, chunk, 0, b);
    MissingConcat(copy, copy.source[0..b], copy.source[b..]);
    assert copy.source == copy.source[0..b] + copy.source[b..];
    MissingEmpty(copy, copy.source);
  }

  // --- what the report of one copy counts ----------------------------------------------------------------

  /** The rows from lo to hi that are not matched. */
  ghost function Unmatched(copy: Copy, lo: nat, hi: nat): set<nat>
    requires lo <= hi <= |copy.source|
  {
    set j: nat | lo <= j < hi && !Matches(copy, copy.source[j])
  }

  lemma {:induction false} MissingCount(copy: Copy, lo: nat, hi: nat)
    requires lo <= hi <= |copy.source|
    ensures |Missing(copy, copy.source[lo..hi])| == |Unmatched(copy, lo, hi)|
    decreases hi - lo
  {
    if lo == hi {
      assert copy.source[lo..hi] == [] && Unmatched(copy, lo, hi) == {};
    } else {
      var n := hi - 1;
      MissingCount(copy, lo, n);
      MissingBetween(copy, lo, n, hi);
      LastMissing(copy, n);
      UnmatchedSnoc(copy, lo, n);
    }
  }

  lemma UnmatchedSnoc(copy: Copy, lo: nat, n: nat)
    requires lo <= n < |copy.source|
    ensures var bad := Unmatched(copy, lo, n);
            n !in bad && Unmatched(copy, lo, n + 1) == if Matches(copy, copy.source[n]) then bad else bad + {n}
  {
  }

  lemma LastMissing(copy: Copy, n: nat)
    requires n < |copy.source|
    ensures |Missing(copy, copy.source[n..n + 1])| == if Matches(copy, copy.source[n]) then 0 else 1
  {
    assert copy.source[n..n + 1] == [copy.source[n]];
    assert [copy.source[n]][1..] == [];
  }

  /** Where the chunks of the rows from lo to b begin that hold a row that is not matched. */
  ghost function BadChunks(copy: Copy, chunk: nat, lo: nat, b: nat): set<nat>
    requires chunk > 0 && lo <= b <= |copy.source|
  {
    set s: nat | lo <= s < b && IsBadChunk(copy, chunk, lo, b, s)
  }

  ghost predicate IsBadChunk(copy: Copy, chunk: nat, lo: nat, b: nat, s: nat)
    requires chunk > 0 && lo <= s < b <= |copy.source|
  {
    WholeChunks(s - lo, chunk) && Unmatched(copy, s, Min(s + chunk, b)) != {}
  }

  /** So many rows are whole chunks. */
  ghost predicate WholeChunks(rows: nat, chunk: nat)
    requires chunk > 0
  {
    rows == 0 || (rows >= chunk && WholeChunks(rows - chunk, chunk))
  }

  lemma {:induction false} MismatchedCount(copy: Copy, chunk: nat, lo: nat, b: nat)
    requires chunk > 0 && lo <= b <= |copy.source|
    ensures Mismatched(copy, chunk, lo, b) == |BadChunks(copy, chunk, lo, b)|
    decreases b - lo
  {
    if lo == b {
      assert BadChunks(copy, chunk, lo, b) == {};
    } else {
      var hi := Min(lo + chunk, b);
      MismatchedCount(copy, chunk, hi, b);
      MissingCount(copy, lo, hi);
      FirstChunk(copy, chunk, lo, b);
    }
  }

  lemma FirstChunk(copy: Copy, chunk: nat, lo: nat, b: nat)
    requires chunk > 0 && lo < b <= |copy.source|
    ensures var hi := Min(lo + chunk, b);
            var rest := BadChunks(copy, chunk, hi, b);
            lo !in rest &&
            BadChunks(copy, chunk, lo, b) == if Unmatched(copy, lo, hi) != {} then {lo} + rest else rest
  {
    var hi := Min(lo + chunk, b);
    var rest := BadChunks(copy, chunk, hi, b);
    forall s | s in BadChunks(copy, chunk, lo, b) && s != lo
      ensures s in rest
    {
      assert IsBadChunk(copy, chunk, lo, b, s) && s - lo >= chunk && hi == lo + chunk;
      assert IsBadChunk(copy, chunk, hi, b, s);
    }
    forall s | s in rest
      ensures s in BadChunks(copy, chunk, lo, b)
    {
      assert IsBadChunk(copy, chunk, hi, b, s) && hi == lo + chunk && s - hi == s - lo - chunk;
      assert IsBadChunk(copy, chunk, lo, b, s);
    }
    assert WholeChunks(0, chunk) && (Unmatched(copy, lo, hi) != {} <==> IsBadChunk(copy, chunk, lo, b, lo));
  }

  /** The report of one copy, field by field: the chunks below the marker and how many of them hold a row that is not
      matched, the rows from the marker on and how many of them are not matched, both row counts, and every
      difference. */
  lemma CopyReportMeans(copy: Copy, chunk: nat)
    requires chunk > 0 && KeyUnique(copy)
    ensures var r, n := CopyReport(copy, chunk), |copy.source|;
            var b := if copy.marker <= 0 then 0 else if copy.marker < n then copy.marker else n;
            && b <= chunk * r.chunksCompared < b + chunk
            && r.chunksMismatched == |BadChunks(copy, chunk, 0, b)|
            && r.tailRowsRead == n - b && r.tailRowsMissing == |Unmatched(copy, b, n)|
            && r.rowsSource == n && r.rowsTarget == |copy.target|
            && OnlyUnmatched(copy, copy.source, r.differences) && EveryUnmatched(copy, copy.source, r.differences)
            && InKeyOrder(r.differences)
  {
    var b, n := Below(copy), |copy.source|;
    ChunksIsCeiling(b, chunk);
    MismatchedCount(copy, chunk, 0, b);
    MissingCount(copy, b, n);
    assert copy.source[b..] == copy.source[b..n];
    MissingExact(copy, copy.source);
  }

  /** One more copy adds its counts, each to the same count, and its differences after the others. */
  lemma ReportsAdd(copies: seq<Copy>, c: Copy, chunk: nat)
    requires chunk > 0
    ensures var all, r, s := TotalReport(copies + [c], chunk), TotalReport(copies, chunk), CopyReport(c, chunk);
            && all.chunksCompared == r.chunksCompared + s.chunksCompared
            && all.chunksMismatched == r.chunksMismatched + s.chunksMismatched
            && all.tailRowsRead == r.tailRowsRead + s.tailRowsRead
            && all.tailRowsMissing == r.tailRowsMissing + s.tailRowsMissing
            && all.rowsSource == r.rowsSource + s.rowsSource && all.rowsTarget == r.rowsTarget + s.rowsTarget
            && all.differences == r.differences + s.differences
  {
    assert (copies + [c])[..|copies|] == copies;
  }

  /** verify says matched exactly when every source row of every copy is matched, for any chunk size. */
  lemma {:induction false} MatchedIff(copies: seq<Copy>, chunk: nat)
    requires chunk > 0
    ensures Cut(TotalReport(copies, chunk)).Matched() <==> forall i :: 0 <= i < |copies| ==> Included(copies[i])
  {
    if copies != [] {
      var n := |copies| - 1;
      MatchedIff(copies[..n], chunk);
      CopyMatched(copies[n], chunk);
      PlusMatched(TotalReport(copies[..n], chunk), CopyReport(copies[n], chunk));
      assert forall i :: 0 <= i < n ==> copies[..n][i] == copies[i];
    }
  }

  lemma PlusMatched(r: VerifyReport, s: VerifyReport)
    ensures Cut(Plus(r, s)).Matched() <==> Cut(r).Matched() && s.Matched()
  {
  }

  /** A copy that holds every source row holds at least as many rows; as many exactly when it holds no other key. */
  lemma IncludedCounts(copy: Copy)
    requires KeyUnique(copy) && Included(copy)
    ensures |copy.source| <= |copy.target|
    ensures |copy.source| == |copy.target| <==> Keys(copy.source) == Keys(copy.target)
  {
    KeyCount(copy.source);
    KeyCount(copy.target);
    forall k | k in Keys(copy.source)
      ensures k in Keys(copy.target)
    {
      var e :| e in copy.source && e.key == k;
      var i :| 0 <= i < |copy.source| && copy.source[i] == e;
      assert Matches(copy, copy.source[i]);
      assert Entry(k, Get(copy.target, k).value) in copy.target;
    }
    SubsetSize(Keys(copy.source), Keys(copy.target));
  }

  lemma {:induction false} CountsAddUp(copies: seq<Copy>, chunk: nat)
    requires chunk > 0
    requires forall i :: 0 <= i < |copies| ==> KeyUnique(copies[i]) && Included(copies[i])
    ensures var r := TotalReport(copies, chunk);
            && r.rowsSource <= r.rowsTarget
            && (r.rowsSource == r.rowsTarget <==> forall i :: 0 <= i < |copies| ==> SameTables(copies[i]))
  {
    if copies != [] {
      var n := |copies| - 1;
      CountsAddUp(copies[..n], chunk);
      IncludedCounts(copies[n]);
      CopyCounts(copies[n], chunk);
      AllButLast(copies);
    }
  }

  lemma CopyCounts(copy: Copy, chunk: nat)
    requires chunk > 0
    ensures CopyReport(copy, chunk).rowsSource == |copy.source| && CopyReport(copy, chunk).rowsTarget == |copy.target|
  {
  }

  lemma AllButLast(copies: seq<Copy>)
    requires copies != []
    ensures var n := |copies| - 1;
            (forall i :: 0 <= i < |copies| ==> SameTables(copies[i])) <==>
            (forall i :: 0 <= i < n ==> SameTables(copies[..n][i])) && SameTables(copies[n])
  {
    var n := |copies| - 1;
    assert forall i :: 0 <= i < n ==> copies[..n][i] == copies[i];
  }

  /** On fixed, key-unique tables the frozen report matches exactly when every copy is its source: although only the
      sums of the counts are compared, no single table can hold an extra row. */
  lemma FrozenMatchedIff(copies: seq<Copy>, chunk: nat)
    requires chunk > 0 && forall i :: 0 <= i < |copies| ==> KeyUnique(copies[i])
    ensures Cut(TotalReport(copies, chunk)).FrozenMatched() <==> forall i :: 0 <= i < |copies| ==> SameTables(copies[i])
  {
    MatchedIff(copies, chunk);
    if forall i :: 0 <= i < |copies| ==> Included(copies[i]) {
      CountsAddUp(copies, chunk);
    } else {
      var i :| 0 <= i < |copies| && !Included(copies[i]);
      assert !SameTables(copies[i]);
    }
  }
}
