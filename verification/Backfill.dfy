/** The backfill of one entity into one target (resume_point and backfill_one of cpp/src/migration.cpp) as a
    transition system: any number of runs, each making one engine call per step, any of which may stop for good
    between two calls, while the application goes on inserting and updating rows in source and target. */
module Backfill {
  import opened Collections
  import opened Tables
  import opened Outcomes
  import V = Verify

  type Store = map<int, Row>

  /** Where a run is. `reached` is a history variable: how far the copy had got when the marker was recorded. */
  datatype Proc =
    | Off
    | Reading(chunk: nat)
    | Resuming(chunk: nat, marker: nat, reached: Option<int>)
    | Scanning(chunk: nat, marker: nat, after: Option<int>)
    | Copying(chunk: nat, marker: nat, after: Option<int>, rows: seq<Entry>, done: nat)
    | Finished(complete: bool)

  /** `origin` is the source when the first run began; `touched` the keys written by the application since. */
  datatype State = State(
    source: Store,
    target: Store,
    marker: nat,
    reached: Option<int>,
    procs: map<nat, Proc>,
    origin: Store,
    touched: set<int>,
    epoch: Option<int>)

  datatype Label =
    | WriteSource(key: int, row: Row)
    | WriteTarget(key: int, row: Row)
    | Start(proc: nat, chunk: nat)
    | ReadMarker(proc: nat)
    | Resume(proc: nat, position: Option<int>)
    | Scan(proc: nat, found: seq<Entry>)
    | CopyRow(proc: nat)
    | Record(proc: nat, more: bool)
    | Stop(proc: nat)

  // --- the engines' calls -------------------------------------------------------------------------

  /** The keys at most high. */
  function UpTo(keys: set<int>, high: int): set<int> {
    set k | k in keys && k <= high
  }

  function CountUpTo(keys: set<int>, high: Option<int>): nat {
    if high.None? then 0 else |UpTo(keys, high.value)|
  }

  /** nth_key(n): the key with exactly n keys at or below it, or nothing when there are fewer than n. */
  ghost predicate IsNthKey(keys: set<int>, n: nat, position: Option<int>) {
    match position
    case None => |keys| < n
    case Some(k) => k in keys && |UpTo(keys, k)| == n
  }

  predicate Increasing(rows: seq<Entry>) {
    forall i, j :: 0 <= i < j < |rows| ==> rows[i].key < rows[j].key
  }

  /** key_range(after, none, limit): the first rows above `after`, at most `limit` of them. */
  ghost predicate IsScan(source: Store, after: Option<int>, limit: nat, rows: seq<Entry>) {
    && |rows| <= limit && Increasing(rows)
    && (forall i :: 0 <= i < |rows| ==>
          rows[i].key in source && rows[i].row == source[rows[i].key] && Above(rows[i].key, after))
    && (forall k :: k in source && Above(k, after) ==>
          || (exists i :: 0 <= i < |rows| && rows[i].key == k)
          || (|rows| == limit && rows != [] && rows[|rows| - 1].key < k))
  }

  /** The row as the copy writes it: under the copy's write epoch, when it has one. */
  function Stamp(row: Row, epoch: Option<int>): Row {
    if epoch.None? then row else (row - {EPOCH_COLUMN})[EPOCH_COLUMN := Number(epoch.value)]
  }

  /** What a copied row holds, column by column: without an epoch what the row holds; with one, the epoch in its own
      column and in every other column what the row holds there. */
  ghost predicate IsCopy(row: Row, copy: Row, epoch: Option<int>) {
    match epoch
    case None => copy == row
    case Some(number) =>
      && "__sde_write_epoch" in copy && copy["__sde_write_epoch"] == Number(number)
      && (forall c :: c != "__sde_write_epoch" ==> (c in copy <==> c in row))
      && (forall c :: c != "__sde_write_epoch" && c in row ==> copy[c] == row[c])
  }

  lemma StampIsCopy(row: Row, epoch: Option<int>)
    ensures IsCopy(row, Stamp(row, epoch), epoch)
  {
  }

  // --- steps --------------------------------------------------------------------------------------

  function Move(s: State, p: nat, pc: Proc): State { s.(procs := s.procs[p := pc]) }

  /** Rows are inserted and updated, never deleted. */
  ghost predicate Next(s: State, l: Label, s': State) {
    match l
    case WriteSource(k, row) => s' == s.(source := s.source[k := row], touched := s.touched + {k})
    case WriteTarget(k, row) => s' == s.(target := s.target[k := row], touched := s.touched + {k})
    case Start(p, chunk) =>
      chunk >= 1 && (p in s.procs ==> s.procs[p].Off? || s.procs[p].Finished?) && s' == Move(s, p, Reading(chunk))
    case ReadMarker(p) =>
      p in s.procs && s.procs[p].Reading? && s' == Move(s, p, Resuming(s.procs[p].chunk, s.marker, s.reached))
    case Resume(p, position) =>
      p in s.procs && s.procs[p].Resuming? &&
      var pc := s.procs[p];
      if pc.marker == 0 then
        s' == Move(s, p, Scanning(pc.chunk, 0, None))
      else
        && IsNthKey(s.source.Keys, pc.marker, position)
        && s' == Move(s, p, if position.None? then Off else Scanning(pc.chunk, pc.marker, position))
    case Scan(p, found) =>
      p in s.procs && s.procs[p].Scanning? &&
      var pc := s.procs[p];
      && IsScan(s.source, pc.after, pc.chunk, found)
      && s' == Move(s, p, if found == [] then Finished(true) else Copying(pc.chunk, pc.marker, pc.after, found, 0))
    case CopyRow(p) =>
      p in s.procs && s.procs[p].Copying? &&
      var pc := s.procs[p];
      pc.done < |pc.rows| &&
      var e := pc.rows[pc.done];
      s' == Move(s.(target := s.target[e.key := Stamp(e.row, s.epoch)]), p, pc.(done := pc.done + 1))
    case Record(p, more) =>
      p in s.procs && s.procs[p].Copying? &&
      var pc := s.procs[p];
      pc.done == |pc.rows| && pc.rows != [] &&
      var m, high := pc.marker + |pc.rows|, Some(pc.rows[|pc.rows| - 1].key);
      s' == Move(s.(marker := m, reached := high), p,
                 if |pc.rows| < pc.chunk then Finished(true)
                 else if more then Scanning(pc.chunk, m, high) else Finished(false))
    case Stop(p) => p in s.procs && s' == Move(s, p, Off)
  }

  ghost predicate Init(s: State) {
    s.marker == 0 && s.reached == None && s.procs == map[] && s.origin == s.source && s.touched == {}
  }

  ghost predicate IsRun(run: seq<State>, labels: seq<Label>) {
    && |run| == |labels| + 1 && Init(run[0])
    && forall i :: 0 <= i < |labels| ==> Next(run[i], labels[i], run[i + 1])
  }

  // --- what every step keeps ----------------------------------------------------------------------

  /** The target holds this original row, as it was unless the application has written the key since. */
  ghost predicate Held(s: State, k: int)
    requires k in s.origin
  {
    k in s.target && (k !in s.touched ==> s.target[k] == Stamp(s.origin[k], s.epoch))
  }

  ghost predicate HeldUpTo(s: State, high: Option<int>) {
    forall k :: k in s.origin && high.Some? && k <= high.value ==> Held(s, k)
  }

  /** The marker counts no more rows than the source holds at or below a key up to which all is copied. */
  ghost predicate Covered(s: State, marker: nat, high: Option<int>) {
    marker <= CountUpTo(s.source.Keys, high) && HeldUpTo(s, high)
  }

  /** A chunk read by a scan, whatever the application has written since. */
  ghost predicate ChunkInv(s: State, after: Option<int>, chunk: nat, rows: seq<Entry>, done: nat) {
    && rows != [] && done <= |rows| && Increasing(rows)
    && (forall i :: 0 <= i < |rows| ==> rows[i].key in s.source && Above(rows[i].key, after))
    && (forall i :: 0 <= i < |rows| && rows[i].key in s.origin && rows[i].key !in s.touched ==>
          rows[i].row == s.origin[rows[i].key])
    && (forall i :: 0 <= i < done && rows[i].key in s.origin ==> Held(s, rows[i].key))
    && (forall k :: k in s.origin && Above(k, after) && (k <= rows[|rows| - 1].key || |rows| < chunk) ==>
          exists i :: 0 <= i < |rows| && rows[i].key == k)
  }

  ghost predicate ProcInv(s: State, pc: Proc) {
    match pc
    case Resuming(chunk, m, reached) => Covered(s, m, reached)
    case Scanning(chunk, m, after) => Covered(s, m, after)
    case Copying(chunk, m, after, rows, done) => Covered(s, m, after) && ChunkInv(s, after, chunk, rows, done)
    case Finished(complete) => complete ==> forall k :: k in s.origin ==> Held(s, k)
    case _ => true
  }

  ghost predicate Inv(s: State) {
    && (forall k :: k in s.origin ==> k in s.source && (k !in s.touched ==> s.source[k] == s.origin[k]))
    && Covered(s, s.marker, s.reached)
    && (forall p :: p in s.procs ==> ProcInv(s, s.procs[p]))
  }

  /** What no step takes away. */
  ghost predicate Grows(s: State, s': State) {
    && s'.origin == s.origin && s'.epoch == s.epoch
    && s.source.Keys <= s'.source.Keys
    && s.touched <= s'.touched
    && (forall k :: k in s.origin && Held(s, k) ==> Held(s', k))
  }

  lemma CountGrows(keys: set<int>, keys': set<int>, high: Option<int>)
    requires keys <= keys'
    ensures CountUpTo(keys, high) <= CountUpTo(keys', high)
  {
    if high.Some? {
      SubsetSize(UpTo(keys, high.value), UpTo(keys', high.value));
    }
  }

  lemma ProcStable(s: State, s': State, pc: Proc)
    requires Grows(s, s') && ProcInv(s, pc)
    ensures ProcInv(s', pc)
  {
    if pc.Resuming? {
      CountGrows(s.source.Keys, s'.source.Keys, pc.reached);
    } else if pc.Scanning? || pc.Copying? {
      CountGrows(s.source.Keys, s'.source.Keys, pc.after);
    }
  }

  /** The n-th key lies at or below any key with at least n keys up to it. */
  lemma NthKeyBelow(keys: set<int>, n: nat, k: int, high: int)
    requires IsNthKey(keys, n, Some(k)) && n <= |UpTo(keys, high)|
    ensures k <= high
  {
    if high < k {
      assert k in UpTo(keys, k) && k !in UpTo(keys, high);
      SubsetSize(UpTo(keys, high), UpTo(keys, k));
    }
  }

  /** resume_point never passes the key that was reached, however many rows were inserted below it since; and it
      never refuses while no row has left the source. */
  lemma ResumeNeverSkips(s: State, p: nat, position: Option<int>)
    requires Inv(s) && p in s.procs && s.procs[p].Resuming? && s.procs[p].marker > 0
    requires IsNthKey(s.source.Keys, s.procs[p].marker, position)
    ensures position.Some? && s.procs[p].reached.Some? && position.value <= s.procs[p].reached.value
  {
    var pc := s.procs[p];
    assert ProcInv(s, pc);
    SubsetSize(UpTo(s.source.Keys, pc.reached.value), s.source.Keys);
    NthKeyBelow(s.source.Keys, pc.marker, position.value, pc.reached.value);
  }

  lemma ScanGivesChunk(s: State, after: Option<int>, chunk: nat, rows: seq<Entry>)
    requires Inv(s) && IsScan(s.source, after, chunk, rows) && rows != []
    ensures ChunkInv(s, after, chunk, rows, 0)
  {
    forall k | k in s.origin && Above(k, after) && (k <= rows[|rows| - 1].key || |rows| < chunk)
      ensures exists i :: 0 <= i < |rows| && rows[i].key == k
    {
      assert k in s.source;
    }
  }

  lemma EmptyScanIsTheEnd(s: State, after: Option<int>, chunk: nat)
    requires Inv(s) && HeldUpTo(s, after) && IsScan(s.source, after, chunk, [])
    ensures forall k :: k in s.origin ==> Held(s, k)
  {
    forall k | k in s.origin
      ensures Held(s, k)
    {
      assert k in s.source;
      assert !Above(k, after);
    }
  }

  lemma {:induction false} KeysOf(rows: seq<Entry>)
    requires Increasing(rows)
    ensures |set e | e in rows :: e.key| == |rows|
  {
    if rows == [] {
      assert (set e | e in rows :: e.key) == {};
    } else {
      var n := |rows| - 1;
      var front := rows[..n];
      KeysOf(front);
      assert rows == front + [rows[n]];
      assert (set e | e in rows :: e.key) == (set e | e in front :: e.key) + {rows[n].key};
      assert rows[n].key !in (set e | e in front :: e.key);
    }
  }

  /** A copied chunk moves the marker and the key reached together. */
  lemma ChunkCovers(s: State, m: nat, after: Option<int>, chunk: nat, rows: seq<Entry>)
    requires Covered(s, m, after) && ChunkInv(s, after, chunk, rows, |rows|)
    ensures Covered(s, m + |rows|, Some(rows[|rows| - 1].key))
    ensures |rows| < chunk ==> forall k :: k in s.origin ==> Held(s, k)
  {
    var high := rows[|rows| - 1].key;
    ChunkCounts(s.source.Keys, after, rows);
    forall k | k in s.origin && (k <= high || |rows| < chunk)
      ensures Held(s, k)
    {
      if Above(k, after) {
        var i :| 0 <= i < |rows| && rows[i].key == k;
      }
    }
  }

  lemma ChunkCounts(keys: set<int>, after: Option<int>, rows: seq<Entry>)
    requires rows != [] && Increasing(rows)
    requires forall i :: 0 <= i < |rows| ==> rows[i].key in keys && Above(rows[i].key, after)
    ensures CountUpTo(keys, after) + |rows| <= CountUpTo(keys, Some(rows[|rows| - 1].key))
  {
    var high := rows[|rows| - 1].key;
    var low := if after.Some? then UpTo(keys, after.value) else {};
    var added := set e | e in rows :: e.key;
    KeysOf(rows);
    forall k | k in added
      ensures k in UpTo(keys, high) && k !in low
    {
      var e :| e in rows && e.key == k;
      var i :| 0 <= i < |rows| && rows[i] == e;
    }
    assert |low + added| == |low| + |added|;
    forall k | k in low
      ensures k in UpTo(keys, high)
    {
      assert Above(rows[0].key, after) && rows[0].key in added;
    }
    SubsetSize(low + added, UpTo(keys, high));
  }

  lemma OthersStable(s: State, s': State, p: nat)
    requires Grows(s, s') && forall q :: q in s.procs ==> ProcInv(s, s.procs[q])
    requires forall q :: q in s'.procs && q != p ==> q in s.procs && s'.procs[q] == s.procs[q]
    requires p in s'.procs ==> ProcInv(s', s'.procs[p])
    ensures forall q :: q in s'.procs ==> ProcInv(s', s'.procs[q])
  {
    forall q | q in s'.procs
      ensures ProcInv(s', s'.procs[q])
    {
      if q != p {
        ProcStable(s, s', s.procs[q]);
      }
    }
  }

  lemma WriteKeepsInv(s: State, l: Label, s': State)
    requires Inv(s) && Next(s, l, s') && (l.WriteSource? || l.WriteTarget?)
    ensures Inv(s') && Grows(s, s')
  {
    CountGrows(s.source.Keys, s'.source.Keys, s.reached);
    forall q | q in s'.procs
      ensures ProcInv(s', s'.procs[q])
    {
      ProcStable(s, s', s.procs[q]);
    }
  }

  lemma CopyKeepsInv(s: State, p: nat, s': State)
    requires Inv(s) && Next(s, CopyRow(p), s')
    ensures Inv(s') && Grows(s, s')
  {
    var pc := s.procs[p];
    CopyGrows(s, p, s');
    assert ProcInv(s, pc);
    ProcStable(s, s', pc);
    assert Covered(s', s'.marker, s'.reached);
    OthersStable(s, s', p);
  }

  lemma CopyGrows(s: State, p: nat, s': State)
    requires Inv(s) && Next(s, CopyRow(p), s')
    ensures Grows(s, s')
  {
    assert ProcInv(s, s.procs[p]);
  }

  lemma RecordKeepsInv(s: State, p: nat, more: bool, s': State)
    requires Inv(s) && Next(s, Record(p, more), s')
    ensures Inv(s') && Grows(s, s')
  {
    var pc := s.procs[p];
    assert ProcInv(s, pc);
    ChunkCovers(s, pc.marker, pc.after, pc.chunk, pc.rows);
    assert Covered(s', s'.marker, s'.reached);
    OthersStable(s, s', p);
  }

  lemma ResumeKeepsInv(s: State, p: nat, position: Option<int>, s': State)
    requires Inv(s) && Next(s, Resume(p, position), s')
    ensures Inv(s') && Grows(s, s')
  {
    var pc := s.procs[p];
    assert ProcInv(s, pc);
    if pc.marker > 0 {
      ResumeNeverSkips(s, p, position);
    }
    OthersStable(s, s', p);
  }

  lemma ScanKeepsInv(s: State, p: nat, found: seq<Entry>, s': State)
    requires Inv(s) && Next(s, Scan(p, found), s')
    ensures Inv(s') && Grows(s, s')
  {
    var pc := s.procs[p];
    assert ProcInv(s, pc);
    if found == [] {
      EmptyScanIsTheEnd(s, pc.after, pc.chunk);
    } else {
      ScanGivesChunk(s, pc.after, pc.chunk, found);
    }
    OthersStable(s, s', p);
  }

  lemma NextKeepsInv(s: State, l: Label, s': State)
    requires Inv(s) && Next(s, l, s')
    ensures Inv(s') && Grows(s, s')
  {
    match l
    case WriteSource(_, _) => WriteKeepsInv(s, l, s');
    case WriteTarget(_, _) => WriteKeepsInv(s, l, s');
    case CopyRow(p) => CopyKeepsInv(s, p, s');
    case Record(p, more) => RecordKeepsInv(s, p, more, s');
    case Resume(p, position) => ResumeKeepsInv(s, p, position, s');
    case Scan(p, found) => ScanKeepsInv(s, p, found, s');
    case Start(p, _) => OthersStable(s, s', p);
    case ReadMarker(p) => OthersStable(s, s', p);
    case Stop(p) => OthersStable(s, s', p);
  }

  lemma {:induction false} RunInv(run: seq<State>, labels: seq<Label>, i: nat)
    requires IsRun(run, labels) && i < |run|
    ensures Inv(run[i])
  {
    if i > 0 {
      RunInv(run, labels, i - 1);
      NextKeepsInv(run[i - 1], labels[i - 1], run[i]);
    }
  }

  lemma {:induction false} OriginStays(run: seq<State>, labels: seq<Label>, i: nat)
    requires IsRun(run, labels) && i < |run|
    ensures run[i].origin == run[0].source && run[i].epoch == run[0].epoch
  {
    if i > 0 {
      OriginStays(run, labels, i - 1);
      RunInv(run, labels, i - 1);
      NextKeepsInv(run[i - 1], labels[i - 1], run[i]);
    }
  }

  /** When any run says complete, every row of the source at the start of the first run is in the target; and with
      every column it had, under the copy's epoch, unless the application has written that key itself. */
  lemma CompleteMeansCopied(run: seq<State>, labels: seq<Label>, i: nat, p: nat)
    requires IsRun(run, labels) && i < |run|
    requires p in run[i].procs && run[i].procs[p] == Finished(true)
    ensures forall k :: k in run[0].source ==>
              && k in run[i].target
              && (k !in run[i].touched ==> IsCopy(run[0].source[k], run[i].target[k], run[0].epoch))
  {
    RunInv(run, labels, i);
    OriginStays(run, labels, i);
    assert ProcInv(run[i], run[i].procs[p]);
    forall k | k in run[0].source
      ensures k in run[i].target && (k !in run[i].touched ==> IsCopy(run[0].source[k], run[i].target[k], run[0].epoch))
    {
      assert Held(run[i], k);
      StampIsCopy(run[0].source[k], run[0].epoch);
    }
  }

  /** At every moment of every run the recorded marker counts no more rows than the source holds at or below a key up
      to which every original row is in the target; so the resumed scan starts at or before it. */
  lemma MarkerNeverOverstates(run: seq<State>, labels: seq<Label>, i: nat, position: Option<int>)
    requires IsRun(run, labels) && i < |run| && run[i].marker > 0
    requires IsNthKey(run[i].source.Keys, run[i].marker, position)
    ensures position.Some?
    ensures forall k :: k in run[0].source && k <= position.value ==> k in run[i].target
  {
    RunInv(run, labels, i);
    OriginStays(run, labels, i);
    var s := run[i];
    SubsetSize(UpTo(s.source.Keys, s.reached.value), s.source.Keys);
    NthKeyBelow(s.source.Keys, s.marker, position.value, s.reached.value);
    assert forall k :: k in s.origin && k <= position.value ==> Held(s, k);
  }

  // --- one run on a source that does not change ------------------------------------------------------

  /** The engine copied into: its rows and the marker it keeps. */
  class Engine {
    var rows: Store
    var marker: nat

    constructor (rows: Store, marker: nat)
      ensures this.rows == rows && this.marker == marker
    {
      this.rows, this.marker := rows, marker;
    }

    /** copy_in: rows of known keys are replaced. */
    method CopyIn(payload: seq<Entry>)
      modifies this`rows
      ensures rows == old(rows) + Written(payload)
    {
      ghost var was := rows;
      for i := 0 to |payload|
        invariant rows == was + Written(payload[..i])
      {
        assert payload[..i + 1][..i] == payload[..i];
        rows := rows[payload[i].key := payload[i].row];
      }
      assert payload[..|payload|] == payload;
    }
  }

  /** The rows as a store; the last of a key counts. */
  function Written(payload: seq<Entry>): Store {
    if payload == [] then map[]
    else Written(payload[..|payload| - 1])[payload[|payload| - 1].key := payload[|payload| - 1].row]
  }

  lemma {:induction false} WrittenConcat(a: seq<Entry>, b: seq<Entry>)
    ensures Written(a + b) == Written(a) + Written(b)
  {
    if b == [] {
      assert a + b == a;
    } else {
      var m := |b| - 1;
      WrittenConcat(a, b[..m]);
      assert (a + b)[..|a + b| - 1] == a + b[..m];
      PutLast(Written(a), Written(b[..m]), b[m].key, b[m].row);
    }
  }

  lemma PutLast(a: Store, b: Store, k: int, row: Row)
    ensures (a + b)[k := row] == a + b[k := row]
  {
  }

  function Payload(rows: seq<Entry>, epoch: Option<int>): (r: seq<Entry>)
    ensures |r| == |rows|
    ensures forall i :: 0 <= i < |rows| ==> r[i] == Entry(rows[i].key, Stamp(rows[i].row, epoch))
  {
    seq(|rows|, i requires 0 <= i < |rows| => Entry(rows[i].key, Stamp(rows[i].row, epoch)))
  }

  datatype Progress = Progress(rowsCopied: nat, rowsThisRun: nat, chunks: nat, complete: bool)

  /** The rows from..to of the source, as the copy writes them. */
  function CopyOf(source: Table, from: nat, to: nat, epoch: Option<int>): Store
    requires from <= to <= |source|
  {
    Written(Payload(source[from..to], epoch))
  }

  /** One chunk: read after the marker, copied, and only then counted. */
  method CopyChunk(source: Table, target: Engine, after: Option<int>, chunkRows: nat, epoch: Option<int>,
                   ghost start: nat, ghost was: Store)
    returns (after': Option<int>, read: nat)
    requires Sorted(source) && chunkRows >= 1 && start <= target.marker <= |source|
    requires after == KeyBefore(source, target.marker)
    requires target.rows == was + CopyOf(source, start, target.marker, epoch)
    modifies target
    ensures read <= chunkRows && target.marker == old(target.marker) + read <= |source|
    ensures read < chunkRows ==> target.marker == |source|
    ensures after' == KeyBefore(source, target.marker)
    ensures target.rows == was + CopyOf(source, start, target.marker, epoch)
  {
    var marker := target.marker;
    var rows := KeyRange(source, after, None, Some(chunkRows));
    ChunkRead(source, marker, chunkRows, rows);
    if rows == [] {
      return after, 0;
    }
    target.CopyIn(Payload(rows, epoch));
    ChunkWritten(source, start, marker, rows, epoch, was);
    target.marker := marker + |rows|;
    after', read := Some(rows[|rows| - 1].key), |rows|;
  }

  lemma ChunkRead(source: Table, marker: nat, chunk: nat, rows: Table)
    requires Sorted(source) && marker <= |source|
    requires rows == KeyRange(source, KeyBefore(source, marker), None, Some(chunk))
    ensures |rows| <= chunk && marker + |rows| <= |source| && rows == source[marker..marker + |rows|]
    ensures |rows| < chunk ==> marker + |rows| == |source|
    ensures rows != [] ==> Some(rows[|rows| - 1].key) == KeyBefore(source, marker + |rows|)
  {
    RowsWanted(source, marker, chunk);
  }

  /** backfill_one: refuses a marker past the end of the source; otherwise copies the rows after it, in whole chunks
      but the last, until the end or the chunk limit, and leaves the marker behind the last row copied. */
  method BackfillOne(source: Table, target: Engine, chunkRows: nat, stopAfter: Option<nat>, epoch: Option<int>)
    returns (r: Outcome<Progress>)
    requires Sorted(source) && chunkRows >= 1
    modifies target
    ensures r.Refused? <==> old(target.marker) > |source|
    ensures r.Refused? ==> target.rows == old(target.rows) && target.marker == old(target.marker)
    ensures r.Accepted? ==>
              && target.marker == r.value.rowsCopied == old(target.marker) + r.value.rowsThisRun <= |source|
              && target.rows == old(target.rows) + CopyOf(source, old(target.marker), target.marker, epoch)
    ensures r.Accepted? && r.value.complete ==> target.marker == |source|
    ensures r.Accepted? && !r.value.complete ==> stopAfter == Some(r.value.chunks)
    ensures r.Accepted? ==> Copied(source, old(target.marker), target.marker, epoch, old(target.rows), target.rows)
    ensures r.Accepted? ==>
      var rest := |source| - old(target.marker);
      && (r.value.complete <==> stopAfter.None? || rest < stopAfter.value * chunkRows)
      && r.value.rowsThisRun == (if r.value.complete then rest else stopAfter.value * chunkRows)
      && IsCeiling(r.value.chunks, r.value.rowsThisRun, chunkRows)
    ensures r.Accepted? && r.value.complete && old(target.marker) == 0 && old(target.rows) == map[] ==>
      forall t, marker :: Lists(t, target.rows) ==> V.SameTables(V.Copy(source, t, marker, epoch.Some?))
  {
    if target.marker > 0 && NthKey(source, target.marker).None? {
      return Refused;
    }
    ghost var start, was := target.marker, target.rows;
    var progress := CopyRest(source, target, chunkRows, stopAfter, epoch);
    CopiedSo(source, start, target.marker, epoch, was, target.rows);
    if start == 0 && was == map[] && target.marker == |source| {
      CopiedIsSame(source, target.rows, epoch);
    }
    return Accepted(progress);
  }

  /** The chunk loop of backfill_one. */
  method CopyRest(source: Table, target: Engine, chunkRows: nat, stopAfter: Option<nat>, epoch: Option<int>)
    returns (r: Progress)
    requires Sorted(source) && chunkRows >= 1 && target.marker <= |source|
    modifies target
    ensures target.marker == r.rowsCopied == old(target.marker) + r.rowsThisRun <= |source|
    ensures target.rows == old(target.rows) + CopyOf(source, old(target.marker), target.marker, epoch)
    ensures Counted(|source| - old(target.marker), chunkRows, stopAfter, r.rowsThisRun, r.chunks, r.complete)
    ensures !r.complete ==> stopAfter == Some(r.chunks)
  {
    var after := KeyBefore(source, target.marker);
    var rowsThisRun: nat, chunks: nat, complete := 0, 0, false;
    ghost var start, was := target.marker, target.rows;
    assert CopyOf(source, start, start, epoch) == map[];
    while !complete && (stopAfter.None? || chunks < stopAfter.value)
      invariant start + rowsThisRun == target.marker <= |source|
      invariant after == KeyBefore(source, target.marker)
      invariant target.rows == was + CopyOf(source, start, target.marker, epoch)
      invariant Counted(|source| - start, chunkRows, stopAfter, rowsThisRun, chunks, complete)
      decreases !complete, |source| - target.marker
    {
      var read;
      after, read := CopyChunk(source, target, after, chunkRows, epoch, start, was);
      CountMore(|source| - start, chunkRows, stopAfter, rowsThisRun, chunks, read);
      rowsThisRun := rowsThisRun + read;
      if read > 0 {
        chunks := chunks + 1;
      }
      complete := read < chunkRows;
    }
    return Progress(target.marker, rowsThisRun, chunks, complete);
  }

  /** The least number of chunks that hold so many rows. */
  ghost predicate IsCeiling(chunks: nat, rows: nat, chunk: nat) { rows <= chunks * chunk < rows + chunk }

  /** How far a run over `rest` rows has come: whole chunks until the last, and within the limit. */
  ghost predicate Counted(rest: nat, chunk: nat, limit: Option<nat>, rows: nat, chunks: nat, complete: bool) {
    && (limit.Some? ==> chunks <= limit.value)
    && rows <= rest && IsCeiling(chunks, rows, chunk)
    && if complete then rows == rest && (limit.Some? ==> rest < limit.value * chunk) else rows == chunks * chunk
  }

  lemma CountMore(rest: nat, chunk: nat, limit: Option<nat>, rows: nat, chunks: nat, read: nat)
    requires chunk >= 1 && Counted(rest, chunk, limit, rows, chunks, false)
    requires read <= chunk && rows + read <= rest && (read < chunk ==> rows + read == rest)
    requires limit.Some? ==> chunks < limit.value
    ensures Counted(rest, chunk, limit, rows + read, if read > 0 then chunks + 1 else chunks, read < chunk)
  {
    OneChunkMore(chunks, chunk);
    if limit.Some? {
      ChunksOrder(chunks + 1, limit.value, chunk);
    }
  }

  lemma OneChunkMore(chunks: nat, chunk: nat)
    ensures (chunks + 1) * chunk == chunks * chunk + chunk
  {
  }

  lemma ChunksOrder(a: nat, b: nat, chunk: nat)
    requires a <= b
    ensures a * chunk <= b * chunk
  {
  }

  /** The rows from..to of the source are in the store, column by column, and every other key is as it was. */
  ghost predicate Copied(source: Table, from: nat, to: nat, epoch: Option<int>, was: Store, now: Store)
    requires from <= to <= |source|
  {
    && (forall i :: from <= i < to ==> source[i].key in now && IsCopy(source[i].row, now[source[i].key], epoch))
    && (forall k :: (forall i :: from <= i < to ==> source[i].key != k) ==>
          (k in now <==> k in was) && (k in was ==> now[k] == was[k]))
  }

  lemma {:induction false} CopyOfHolds(source: Table, from: nat, to: nat, epoch: Option<int>)
    requires Sorted(source) && from <= to <= |source|
    ensures var copy := CopyOf(source, from, to, epoch);
            && (forall i :: from <= i < to ==>
                  source[i].key in copy && copy[source[i].key] == Stamp(source[i].row, epoch))
            && (forall k :: k in copy ==> exists i :: from <= i < to && source[i].key == k)
  {
    if from < to {
      var n := to - 1;
      CopyOfHolds(source, from, n, epoch);
      CopyOfSnoc(source, from, n, epoch);
      forall i | from <= i < n
        ensures source[i].key != source[n].key
      {
        assert KeyLess(source, i, n);
      }
      forall k | k in CopyOf(source, from, to, epoch)
        ensures exists i :: from <= i < to && source[i].key == k
      {
        assert k != source[n].key ==> k in CopyOf(source, from, n, epoch);
      }
    }
  }

  lemma {:induction false} CopyOfSnoc(source: Table, from: nat, n: nat, epoch: Option<int>)
    requires from <= n < |source|
    ensures CopyOf(source, from, n + 1, epoch) ==
            CopyOf(source, from, n, epoch)[source[n].key := Stamp(source[n].row, epoch)]
  {
    var p := Payload(source[from..n + 1], epoch);
    assert p[..n - from] == Payload(source[from..n], epoch);
    assert p[n - from] == Entry(source[n].key, Stamp(source[n].row, epoch));
  }

  lemma CopiedSo(source: Table, from: nat, to: nat, epoch: Option<int>, was: Store, now: Store)
    requires Sorted(source) && from <= to <= |source| && now == was + CopyOf(source, from, to, epoch)
    ensures Copied(source, from, to, epoch, was, now)
  {
    CopyOfHolds(source, from, to, epoch);
    forall i | from <= i < to
      ensures source[i].key in now && IsCopy(source[i].row, now[source[i].key], epoch)
    {
      StampIsCopy(source[i].row, epoch);
    }
  }

  /** A copy that a whole backfill made into an empty target is the source, as the comparison sees it. */
  lemma CopiedIsSame(source: Table, rows: Store, epoch: Option<int>)
    requires Sorted(source) && Copied(source, 0, |source|, epoch, map[], rows)
    ensures forall t, marker :: Lists(t, rows) ==> V.SameTables(V.Copy(source, t, marker, epoch.Some?))
  {
    forall t, marker | Lists(t, rows)
      ensures V.SameTables(V.Copy(source, t, marker, epoch.Some?))
    {
      CopyIsSame(source, rows, epoch, t, marker);
    }
  }

  lemma CopyIsSame(source: Table, rows: Store, epoch: Option<int>, t: Table, marker: int)
    requires Sorted(source) && Copied(source, 0, |source|, epoch, map[], rows) && Lists(t, rows)
    ensures V.SameTables(V.Copy(source, t, marker, epoch.Some?))
  {
    var copy := V.Copy(source, t, marker, epoch.Some?);
    forall i | 0 <= i < |source|
      ensures V.Matches(copy, source[i]) && source[i].key in Keys(t)
    {
      var k := source[i].key;
      assert Entry(k, rows[k]) in t;
      var there := Get(t, k);
      assert Entry(k, there.value) in t;
      assert SameColumns(source[i].row, rows[k], epoch.Some?);
    }
    forall e | e in t
      ensures e.key in Keys(source)
    {
      assert e.key in rows;
      var i :| 0 <= i < |source| && source[i].key == e.key;
      assert source[i] in source;
    }
    forall k | k in Keys(source)
      ensures k in Keys(t)
    {
      var e :| e in source && e.key == k;
      var i :| 0 <= i < |source| && source[i] == e;
    }
  }

  lemma ChunkWritten(source: Table, start: nat, marker: nat, rows: Table, epoch: Option<int>, was: Store)
    requires start <= marker && marker + |rows| <= |source| && rows == source[marker..marker + |rows|]
    ensures was + CopyOf(source, start, marker, epoch) + Written(Payload(rows, epoch)) ==
            was + CopyOf(source, start, marker + |rows|, epoch)
  {
    var a, b := Payload(source[start..marker], epoch), Payload(rows, epoch);
    WrittenConcat(a, b);
    assert a + b == Payload(source[start..marker + |rows|], epoch);
    Merge(was, Written(a), Written(b));
  }

  lemma Merge(a: Store, b: Store, c: Store)
    ensures a + b + c == a + (b + c)
  {
  }
}
