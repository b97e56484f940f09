/** The write fence of one table (cpp/src/write_fence.cpp) as a transition system: executors issue one backend
    call per step, any of them may crash between calls, and writers are admitted by the table's own constraints. */
module WriteFence {
  import opened Collections
  import Tables

  /** A constraint in the reserved namespace, by what its name says. */
  datatype Constraint =
    | Owner
    | Retired(id: string)
    | Setup
    | Hold(id: string)
    | Min(epoch: int)
    | Max(epoch: int)

  type Fence = set<Constraint>

  predicate Blocks(c: Constraint) { c.Hold? || c.Setup? }

  // --- what a reader of the fence sees (FenceState) -----------------------------------------------

  ghost predicate HasMin(f: Fence) { exists m :: Min(m) in f }

  ghost predicate HasMax(f: Fence) { exists x :: Max(x) in f }

  /** lower_epoch() == e: the largest minimum. */
  ghost predicate Lower(f: Fence, e: int) {
    Min(e) in f && forall m :: Min(m) in f ==> m <= e
  }

  /** upper_epoch() == e: the smallest maximum. */
  ghost predicate Upper(f: Fence, e: int) {
    Max(e) in f && forall x :: Max(x) in f ==> e <= x
  }

  /** complete(): nothing that prepare puts up is missing. */
  ghost predicate Complete(t: Table) {
    Owner in t.fence && t.column && HasMin(t.fence) && HasMax(t.fence)
  }

  /** epoch() == e: a complete fence whose bounds agree. */
  ghost predicate Epoch(t: Table, e: int) {
    Complete(t) && Lower(t.fence, e) && Upper(t.fence, e)
  }

  ghost predicate Held(f: Fence) { exists c :: c in f && Blocks(c) }

  /** What the engine's CHECK constraints let through: no hold, and every bound satisfied. */
  ghost predicate Admits(f: Fence, e: int) { !Held(f) && WithinBounds(f, e) }

  ghost predicate WithinBounds(f: Fence, e: int) {
    (forall m :: Min(m) in f ==> m <= e) && (forall x :: Max(x) in f ==> e <= x)
  }

  // --- state --------------------------------------------------------------------------------------

  datatype Caller = ForPrepare | ForAdvance

  /** Where an executor is in its command: the next backend call it will make. */
  datatype Pc =
    | Idle
    | PrepareOwner(epoch: int, owned: bool)
    | PrepareSetup(epoch: int)
    | PrepareColumn(epoch: int)
    | BoundsMin(who: Caller, epoch: int)
    | BoundsMax(who: Caller, epoch: int)
    | BoundsRead(who: Caller, epoch: int)
    | BoundsDrop(who: Caller, epoch: int, maxs: seq<int>, mins: seq<int>)
    | PrepareDrain(epoch: int)
    | PrepareRelease(epoch: int)
    | FreezeAdd(id: string)
    | FreezeDrain(id: string)
    | ReleaseRetire(id: string)
    | ReleaseDrop(id: string)

  type Writer = nat
  type Rows = map<int, Tables.Row>

  /** One table. `before` is, for each hold in force, the inserts admitted before it took effect; `dropped` is a
      history variable, the holds that have ever been dropped. */
  datatype Table = Table(
    column: bool,
    fence: Fence,
    rows: Rows,
    inflight: map<Writer, Rows>,
    before: map<Constraint, set<Writer>>,
    execs: map<nat, Pc>,
    dropped: set<string>)

  datatype Label =
    | Stutter
    | Begin(exec: nat, pc: Pc)
    | Call(exec: nat, next: Pc)
    | Crash(exec: nat)
    | Admit(writer: Writer, epoch: int, write: Rows)
    | Commit(writer: Writer)
    | Abort(writer: Writer)

  // --- the backend's calls ------------------------------------------------------------------------

  function AddConstraint(t: Table, c: Constraint): Table {
    if c in t.fence then t
    else t.(fence := t.fence + {c},
            before := if Blocks(c) then t.before[c := t.inflight.Keys] else t.before)
  }

  function DropConstraint(t: Table, c: Constraint): Table {
    t.(fence := t.fence - {c},
       dropped := if c.Hold? && c in t.fence then t.dropped + {c.id} else t.dropped)
  }

  /** What drain waits for: of the inserts running when the constraint was added, none is left. */
  predicate Drained(t: Table, c: Constraint) {
    c in t.before ==> t.before[c] * t.inflight.Keys == {}
  }

  // --- the commands, one call at a time -----------------------------------------------------------

  const MAX_EPOCH: int := 0x1F_FFFF_FFFF_FFFF

  /** The checks each command makes before its first call; a refused command makes none. */
  ghost predicate MayBegin(t: Table, pc: Pc) {
    match pc
    case PrepareOwner(e, owned) =>
      && 1 <= e <= MAX_EPOCH
      && !(Complete(t) && Setup !in t.fence)
      && (owned <==> Owner in t.fence)
      && (!owned ==> !t.column)
      && (forall m :: Min(m) in t.fence ==> m <= e)
    case BoundsMin(who, e) =>
      && who == ForAdvance && 1 <= e <= MAX_EPOCH && Complete(t) && Held(t.fence)
      && (forall m :: Min(m) in t.fence ==> m <= e)
    case FreezeAdd(id) =>
      Complete(t) && Retired(id) !in t.fence
    case ReleaseRetire(id) =>
      Complete(t) && (exists e :: Epoch(t, e)) && Hold(id) in t.fence
    case _ => false
  }

  /** When each command is taken, by the constraints that stand: an advance only while a hold or a setup keeps every
      writer out, and no bound ever moves down. */
  lemma CommandsBegin(t: Table, e: int, id: string)
    ensures MayBegin(t, BoundsMin(ForAdvance, e)) <==>
            1 <= e < 0x20_0000_0000_0000 && Owner in t.fence && t.column &&
            (exists m :: Min(m) in t.fence) && (exists x :: Max(x) in t.fence) &&
            (Setup in t.fence || exists h :: Hold(h) in t.fence) && forall m :: Min(m) in t.fence ==> m <= e
    ensures MayBegin(t, BoundsMin(ForAdvance, e)) ==> forall g :: !Admits(t.fence, g)
    ensures (exists owned :: MayBegin(t, PrepareOwner(e, owned))) <==>
            1 <= e < 0x20_0000_0000_0000 && (Owner in t.fence || !t.column) &&
            (forall m :: Min(m) in t.fence ==> m <= e) &&
            !(Owner in t.fence && t.column && (exists m :: Min(m) in t.fence) && (exists x :: Max(x) in t.fence) &&
              Setup !in t.fence)
    ensures MayBegin(t, FreezeAdd(id)) <==>
            Owner in t.fence && t.column && (exists m :: Min(m) in t.fence) && (exists x :: Max(x) in t.fence) &&
            Retired(id) !in t.fence
    ensures MayBegin(t, ReleaseRetire(id)) <==>
            Owner in t.fence && t.column && Hold(id) in t.fence &&
            exists g :: Min(g) in t.fence && Max(g) in t.fence &&
              (forall m :: Min(m) in t.fence ==> m <= g) && forall x :: Max(x) in t.fence ==> g <= x
  {
    if MayBegin(t, BoundsMin(ForAdvance, e)) {
      var c :| c in t.fence && Blocks(c);
      assert c.Hold? ==> Hold(c.id) in t.fence;
    }
    if Setup in t.fence {
      assert Blocks(Setup);
    }
    if h :| Hold(h) in t.fence {
      assert Blocks(Hold(h));
    }
    assert MayBegin(t, PrepareOwner(e, Owner in t.fence)) <==> exists owned :: MayBegin(t, PrepareOwner(e, owned));
    if g :| Min(g) in t.fence && Max(g) in t.fence && Lower(t.fence, g) && Upper(t.fence, g) {
      assert Owner in t.fence && t.column ==> Epoch(t, g);
    }
  }

  /** A list of exactly the numbers that satisfy p, smallest first. */
  ghost predicate Lists(xs: seq<int>, p: int -> bool) {
    && (forall i, j :: 0 <= i < j < |xs| ==> xs[i] < xs[j])
    && (forall i :: 0 <= i < |xs| ==> p(xs[i]))
    && (forall x :: p(x) ==> x in xs)
  }

  function Advance(t: Table, exec: nat, pc: Pc): Table {
    t.(execs := t.execs[exec := pc])
  }

  /** A call that changes the table. Reads and drains change nothing. */
  datatype Change = Nothing | Add(c: Constraint) | Drop(c: Constraint) | AddColumn

  /** The backend call at each position. */
  function ChangeAt(pc: Pc): Change {
    match pc
    case PrepareOwner(e, owned) => if owned then Nothing else Add(Owner)
    case PrepareSetup(e) => Add(Setup)
    case PrepareColumn(e) => AddColumn
    case BoundsMin(who, e) => Add(Min(e))
    case BoundsMax(who, e) => Add(Max(e))
    case BoundsDrop(who, e, maxs, mins) =>
      if maxs != [] then Drop(Max(maxs[0])) else if mins != [] then Drop(Min(mins[0])) else Nothing
    case PrepareRelease(e) => Drop(Setup)
    case FreezeAdd(id) => Add(Hold(id))
    case ReleaseRetire(id) => Add(Retired(id))
    case ReleaseDrop(id) => Drop(Hold(id))
    case _ => Nothing
  }

  function Apply(t: Table, change: Change): Table {
    match change
    case Nothing => t
    case Add(c) => AddConstraint(t, c)
    case Drop(c) => DropConstraint(t, c)
    case AddColumn => t.(column := true)
  }

  function Effect(t: Table, pc: Pc): Table {
    Apply(t, ChangeAt(pc))
  }

  /** Only a release retires or drops a hold, only a freeze adds one, and nothing drops a retirement. */
  lemma ChangeShape(pc: Pc)
    ensures var change := ChangeAt(pc);
            && (change.Drop? ==> !change.c.Retired? && (change.c.Hold? ==> pc == ReleaseDrop(change.c.id)))
            && (change.Add? && change.c.Retired? ==> pc == ReleaseRetire(change.c.id))
            && (change.Add? && change.c.Hold? ==> pc == FreezeAdd(change.c.id))
  {
  }

  /** When the call at a position returns, and the position after it. A drain returns only once it is drained;
      reading bounds above one's own ends the command in a refusal. */
  ghost predicate Follows(t: Table, pc: Pc, next: Pc) {
    match pc
    case Idle => false
    case PrepareOwner(e, owned) => next == PrepareSetup(e)
    case PrepareSetup(e) => next == PrepareColumn(e)
    case PrepareColumn(e) => next == BoundsMin(ForPrepare, e)
    case BoundsMin(who, e) => next == BoundsMax(who, e)
    case BoundsMax(who, e) => next == BoundsRead(who, e)
    case BoundsRead(who, e) =>
      if exists m :: Min(m) in t.fence && m > e then
        next == Idle
      else
        && next.BoundsDrop? && next.who == who && next.epoch == e
        && Lists(next.maxs, x => Max(x) in t.fence && x < e)
        && Lists(next.mins, m => Min(m) in t.fence && m < e)
    case BoundsDrop(who, e, maxs, mins) =>
      if maxs != [] then next == BoundsDrop(who, e, maxs[1..], mins)
      else if mins != [] then next == BoundsDrop(who, e, maxs, mins[1..])
      else next == (if who == ForPrepare then PrepareDrain(e) else Idle)
    case PrepareDrain(e) => Drained(t, Setup) && next == PrepareRelease(e)
    case PrepareRelease(e) => next == Idle
    case FreezeAdd(id) => next == FreezeDrain(id)
    case FreezeDrain(id) => Drained(t, Hold(id)) && next == Idle
    case ReleaseRetire(id) => next == ReleaseDrop(id)
    case ReleaseDrop(id) => next == Idle
  }

  /** Every step of the system. An insert is admitted against the constraints of its moment and may commit later,
      whatever constraints have been added since. */
  ghost predicate Next(t: Table, l: Label, t': Table) {
    match l
    case Stutter => t' == t
    case Begin(x, pc) =>
      (x in t.execs ==> t.execs[x] == Idle) && MayBegin(t, pc) && t' == Advance(t, x, pc)
    case Call(x, next) =>
      x in t.execs && Follows(t, t.execs[x], next) && t' == Advance(Effect(t, t.execs[x]), x, next)
    case Crash(x) => x in t.execs && t' == Advance(t, x, Idle)
    case Admit(w, e, write) =>
      w !in t.inflight && Admits(t.fence, e) && t' == t.(inflight := t.inflight[w := write])
    case Commit(w) =>
      w in t.inflight && t' == t.(rows := t.rows + t.inflight[w], inflight := t.inflight - {w})
    case Abort(w) =>
      w in t.inflight && t' == t.(inflight := t.inflight - {w})
  }

  /** A table before any fence. */
  ghost predicate Init(t: Table) {
    t.fence == {} && !t.column && t.execs == map[] && t.before == map[] && t.dropped == {}
  }

  ghost predicate IsRun(run: seq<Table>, labels: seq<Label>) {
    && |run| == |labels| + 1
    && Init(run[0])
    && forall i :: 0 <= i < |labels| ==> Next(run[i], labels[i], run[i + 1])
  }

  // --- generations --------------------------------------------------------------------------------

  /** Some minimum is e or more: a write of a generation below e is refused. */
  ghost predicate AtLeast(f: Fence, e: int) { exists m :: Min(m) in f && m >= e }

  ghost predicate MaxAtLeast(f: Fence, e: int) { exists x :: Max(x) in f && x >= e }

  /** What an executor's position says about the fence, whatever the other executors do meanwhile. */
  ghost predicate PcInv(t: Table, pc: Pc) {
    match pc
    case PrepareSetup(e) => Owner in t.fence
    case PrepareColumn(e) => Owner in t.fence && (Setup in t.fence || HasMax(t.fence))
    case BoundsMin(who, e) => Owner in t.fence && t.column && (Setup in t.fence || HasMax(t.fence))
    case BoundsMax(who, e) => AtLeast(t.fence, e)
    case BoundsRead(who, e) => AtLeast(t.fence, e) && MaxAtLeast(t.fence, e)
    case BoundsDrop(who, e, maxs, mins) =>
      && AtLeast(t.fence, e) && MaxAtLeast(t.fence, e)
      && (forall i :: 0 <= i < |maxs| ==> maxs[i] < e)
      && (forall i :: 0 <= i < |mins| ==> mins[i] < e)
    case PrepareDrain(e) => MaxAtLeast(t.fence, e)
    case PrepareRelease(e) => MaxAtLeast(t.fence, e)
    case PrepareOwner(e, owned) => owned ==> Owner in t.fence
    case _ => true
  }

  ghost predicate Inv(t: Table) {
    Shell(t) && forall x :: x in t.execs ==> PcInv(t, t.execs[x])
  }

  /** What no step takes away. */
  ghost predicate Grows(t: Table, t': Table) {
    && (forall e :: AtLeast(t.fence, e) ==> AtLeast(t'.fence, e))
    && (forall e :: MaxAtLeast(t.fence, e) ==> MaxAtLeast(t'.fence, e))
    && (Owner in t.fence ==> Owner in t'.fence)
    && (t.column ==> t'.column)
    && (Setup in t.fence || HasMax(t.fence) ==> Setup in t'.fence || HasMax(t'.fence))
  }

  lemma AddGrows(t: Table, c: Constraint)
    ensures Grows(t, AddConstraint(t, c))
  {
  }

  lemma DropMaxGrows(t: Table, x: int, e: int)
    requires MaxAtLeast(t.fence, e) && x < e
    ensures Grows(t, DropConstraint(t, Max(x)))
    ensures forall y :: Max(y) in DropConstraint(t, Max(x)).fence ==> Max(y) in t.fence
  {
    var t' := DropConstraint(t, Max(x));
    var top :| Max(top) in t.fence && top >= e;
    assert Max(top) in t'.fence;
    forall d | MaxAtLeast(t.fence, d)
      ensures MaxAtLeast(t'.fence, d)
    {
      var y :| Max(y) in t.fence && y >= d;
      assert Max(if y == x then top else y) in t'.fence;
    }
  }

  lemma DropMinGrows(t: Table, m: int, e: int)
    requires AtLeast(t.fence, e) && m < e
    ensures Grows(t, DropConstraint(t, Min(m)))
  {
    var t' := DropConstraint(t, Min(m));
    var top :| Min(top) in t.fence && top >= e;
    assert Min(top) in t'.fence;
    forall d | AtLeast(t.fence, d)
      ensures AtLeast(t'.fence, d)
    {
      var y :| Min(y) in t.fence && y >= d;
      assert Min(if y == m then top else y) in t'.fence;
    }
    if HasMax(t.fence) {
      var x :| Max(x) in t.fence;
      assert Max(x) in t'.fence;
    }
  }

  lemma EffectGrows(t: Table, pc: Pc)
    requires PcInv(t, pc)
    ensures Grows(t, Effect(t, pc))
  {
    match pc
    case PrepareOwner(_, _) => AddGrows(t, Owner);
    case PrepareSetup(_) => AddGrows(t, Setup);
    case BoundsMin(_, e) => AddGrows(t, Min(e));
    case BoundsMax(_, e) => AddGrows(t, Max(e));
    case BoundsDrop(_, e, maxs, mins) =>
      if maxs != [] {
        DropMaxGrows(t, maxs[0], e);
      } else if mins != [] {
        DropMinGrows(t, mins[0], e);
      }
    case PrepareRelease(e) => DropBlockGrows(t, Setup, e);
    case FreezeAdd(id) => AddGrows(t, Hold(id));
    case ReleaseRetire(id) => AddGrows(t, Retired(id));
    case ReleaseDrop(id) => DropHoldGrows(t, id);
    case _ =>
  }

  lemma ApplyExecs(t: Table, change: Change)
    ensures var t' := Apply(t, change);
            t'.execs == t.execs && t'.rows == t.rows && t'.inflight == t.inflight
  {
  }

  lemma DropBlockGrows(t: Table, c: Constraint, e: int)
    requires c == Setup && MaxAtLeast(t.fence, e)
    ensures Grows(t, DropConstraint(t, c))
  {
    DropKeepsBounds(t, c);
  }

  lemma DropHoldGrows(t: Table, id: string)
    ensures Grows(t, DropConstraint(t, Hold(id)))
  {
    DropKeepsBounds(t, Hold(id));
  }

  lemma DropKeepsBounds(t: Table, c: Constraint)
    requires Blocks(c)
    ensures var t' := DropConstraint(t, c);
            && (forall m :: Min(m) in t.fence <==> Min(m) in t'.fence)
            && (forall x :: Max(x) in t.fence <==> Max(x) in t'.fence)
            && (forall e :: AtLeast(t.fence, e) ==> AtLeast(t'.fence, e))
            && (forall e :: MaxAtLeast(t.fence, e) ==> MaxAtLeast(t'.fence, e))
            && (HasMax(t.fence) ==> HasMax(t'.fence))
  {
  }

  lemma PcStable(t: Table, t': Table, pc: Pc)
    requires Grows(t, t') && PcInv(t, pc)
    ensures PcInv(t', pc)
  {
  }

  /** The bounds and the fence's shell stay in order at every call. */
  ghost predicate Shell(t: Table) {
    && (forall x :: Max(x) in t.fence ==> AtLeast(t.fence, x))
    && (HasMin(t.fence) ==> (Setup in t.fence || HasMax(t.fence)) && Owner in t.fence && t.column)
  }

  lemma EffectShell(t: Table, pc: Pc)
    requires Shell(t) && PcInv(t, pc)
    ensures Shell(Effect(t, pc))
  {
    EffectGrows(t, pc);
    var t' := Effect(t, pc);
    forall x | Max(x) in t'.fence
      ensures AtLeast(t'.fence, x)
    {
      if Max(x) in t.fence {
        assert AtLeast(t.fence, x);
      }
    }
    if HasMin(t'.fence) && !HasMin(t.fence) {
      assert pc.BoundsMin?;
    }
  }

  lemma EffectNewPc(t: Table, pc: Pc, next: Pc)
    requires PcInv(t, pc) && Follows(t, pc, next)
    ensures PcInv(Effect(t, pc), next)
  {
    EffectGrows(t, pc);
    var t' := Effect(t, pc);
    if pc.BoundsMin? {
      assert Min(pc.epoch) in t'.fence;
    } else if pc.BoundsMax? {
      assert Max(pc.epoch) in t'.fence;
      assert AtLeast(t.fence, pc.epoch);
    } else {
      PcStable(t, t', pc);
    }
  }

  lemma OthersStable(t: Table, t': Table, x: nat)
    requires Grows(t, t') && forall y :: y in t.execs ==> PcInv(t, t.execs[y])
    requires forall y :: y in t'.execs && y != x ==> y in t.execs && t'.execs[y] == t.execs[y]
    requires x in t'.execs ==> PcInv(t', t'.execs[x])
    ensures forall y :: y in t'.execs ==> PcInv(t', t'.execs[y])
  {
    forall y | y in t'.execs
      ensures PcInv(t', t'.execs[y])
    {
      if y != x {
        PcStable(t, t', t.execs[y]);
      }
    }
  }

  lemma CallKeepsInv(t: Table, x: nat, next: Pc, t': Table)
    requires Inv(t) && Next(t, Call(x, next), t')
    ensures Inv(t') && Grows(t, t')
  {
    var pc := t.execs[x];
    var u := Effect(t, pc);
    assert PcInv(t, pc);
    EffectGrows(t, pc);
    EffectShell(t, pc);
    EffectNewPc(t, pc, next);
    ApplyExecs(t, ChangeAt(pc));
    SameFence(u, t', next);
    OthersStable(t, t', x);
  }

  /** Only the fence and the column matter. */
  lemma SameFence(t: Table, t': Table, pc: Pc)
    requires t'.fence == t.fence && t'.column == t.column
    ensures PcInv(t, pc) ==> PcInv(t', pc)
    ensures Shell(t) ==> Shell(t')
  {
  }

  /** Every step of every executor and writer keeps the invariant, crashes included. */
  lemma NextKeepsInv(t: Table, l: Label, t': Table)
    requires Inv(t) && Next(t, l, t')
    ensures Inv(t') && Grows(t, t')
  {
    match l
    case Call(x, next) => CallKeepsInv(t, x, next, t');
    case Begin(x, pc) => OthersStable(t, t', x);
    case Crash(x) => OthersStable(t, t', x);
    case Stutter =>
    case Admit(_, _, _) =>
      forall y | y in t'.execs ensures PcInv(t', t'.execs[y]) { PcStable(t, t', t.execs[y]); }
    case Commit(_) =>
      forall y | y in t'.execs ensures PcInv(t', t'.execs[y]) { PcStable(t, t', t.execs[y]); }
    case Abort(_) =>
      forall y | y in t'.execs ensures PcInv(t', t'.execs[y]) { PcStable(t, t', t.execs[y]); }
  }

  lemma {:induction false} RunInv(run: seq<Table>, labels: seq<Label>, i: nat)
    requires IsRun(run, labels) && i < |run|
    ensures Inv(run[i])
  {
    if i > 0 {
      RunInv(run, labels, i - 1);
      NextKeepsInv(run[i - 1], labels[i - 1], run[i]);
    }
  }

  /** In every reachable state the bounds alone, holds aside, let through at most one generation, and then they agree
      on it: at every call of an advance, and wherever it crashed, that is the old generation, none or the new one. */
  lemma BoundsAgree(run: seq<Table>, labels: seq<Label>, i: nat, e: int)
    requires IsRun(run, labels) && i < |run|
    requires HasMax(run[i].fence) && WithinBounds(run[i].fence, e)
    ensures Lower(run[i].fence, e) && Upper(run[i].fence, e)
  {
    RunInv(run, labels, i);
    var f := run[i].fence;
    var x :| Max(x) in f;
    var m :| Min(m) in f && m >= x;
    assert e == x == m;
  }

  /** In every reachable state of a fenced table, whatever the interleaving and whoever crashed, the engine lets
      through at most one generation, and then the epoch change is whole: epoch() is that generation. */
  lemma OnlyAWholeEpochIsOpen(run: seq<Table>, labels: seq<Label>, i: nat, e: int)
    requires IsRun(run, labels) && i < |run|
    requires HasMin(run[i].fence) && Admits(run[i].fence, e)
    ensures Epoch(run[i], e)
  {
    RunInv(run, labels, i);
    assert !Blocks(Setup) || Setup !in run[i].fence;
    BoundsAgree(run, labels, i, e);
  }

  lemma RunGrows(run: seq<Table>, labels: seq<Label>, i: nat)
    requires IsRun(run, labels) && i + 1 < |run|
    ensures Grows(run[i], run[i + 1])
  {
    RunInv(run, labels, i);
    NextKeepsInv(run[i], labels[i], run[i + 1]);
  }

  lemma {:induction false} RunAtLeast(run: seq<Table>, labels: seq<Label>, i: nat, j: nat, e: int)
    requires IsRun(run, labels) && i <= j < |run|
    requires AtLeast(run[i].fence, e)
    ensures AtLeast(run[j].fence, e)
  {
    if i < j {
      RunAtLeast(run, labels, i, j - 1, e);
      NextAtLeast(run, labels, j - 1, e);
    }
  }

  lemma {:induction false} NextAtLeast(run: seq<Table>, labels: seq<Label>, i: nat, e: int)
    requires IsRun(run, labels) && i + 1 < |run| && AtLeast(run[i].fence, e)
    ensures AtLeast(run[i + 1].fence, e)
  {
    RunGrows(run, labels, i);
  }

  /** A generation that a later one has replaced never becomes writable again; the call that adds the new minimum
      is the one that closes the old generation, before any of its own bounds are dropped. */
  lemma OldGenerationStaysClosed(run: seq<Table>, labels: seq<Label>, i: nat, j: nat, e: int, e': int)
    requires IsRun(run, labels) && i <= j < |run|
    requires Min(e) in run[i].fence
    requires Admits(run[j].fence, e')
    ensures e <= e'
  {
    assert AtLeast(run[i].fence, e);
    RunAtLeast(run, labels, i, j, e);
    var m :| Min(m) in run[j].fence && m >= e;
  }

  // --- holds --------------------------------------------------------------------------------------

  /** A dropped hold is retired first, and a hold in force lets no new insert in: kept under any interleaving. */
  ghost predicate HoldInv(t: Table) {
    && (forall id :: id in t.dropped ==> Retired(id) in t.fence)
    && (forall x :: x in t.execs && t.execs[x].ReleaseDrop? ==> Retired(t.execs[x].id) in t.fence)
    && (forall c :: c in t.fence && Blocks(c) ==> c in t.before && t.inflight.Keys <= t.before[c])
  }

  lemma ApplyHolds(t: Table, change: Change)
    requires HoldInv(t)
    requires change.Drop? ==> !change.c.Retired? && (change.c.Hold? ==> Retired(change.c.id) in t.fence)
    ensures var t' := Apply(t, change);
            && (forall id :: Retired(id) in t.fence ==> Retired(id) in t'.fence)
            && (forall id :: id in t'.dropped ==> Retired(id) in t'.fence)
            && (forall c :: c in t'.fence && Blocks(c) ==> c in t'.before && t'.inflight.Keys <= t'.before[c])
  {
  }

  lemma CallKeepsHoldInv(t: Table, x: nat, next: Pc, t': Table)
    requires HoldInv(t) && Next(t, Call(x, next), t')
    ensures HoldInv(t')
  {
    var pc := t.execs[x];
    ChangeShape(pc);
    ApplyHolds(t, ChangeAt(pc));
    ApplyExecs(t, ChangeAt(pc));
    forall y | y in t'.execs && t'.execs[y].ReleaseDrop?
      ensures Retired(t'.execs[y].id) in t'.fence
    {
      if y == x {
        assert pc.ReleaseRetire?;
      }
    }
  }

  lemma NextKeepsHoldInv(t: Table, l: Label, t': Table)
    requires HoldInv(t) && Next(t, l, t')
    ensures HoldInv(t')
  {
    if l.Call? {
      CallKeepsHoldInv(t, l.exec, l.next, t');
    } else if l.Admit? {
      assert forall c :: c in t.fence ==> !Blocks(c);
    }
  }

  lemma {:induction false} RunHoldInv(run: seq<Table>, labels: seq<Label>, i: nat)
    requires IsRun(run, labels) && i < |run|
    ensures HoldInv(run[i])
  {
    if i > 0 {
      RunHoldInv(run, labels, i - 1);
      NextKeepsHoldInv(run[i - 1], labels[i - 1], run[i]);
    }
  }

  /** A hold leaves the fence only by being recorded as dropped, and that record is never lost. */
  lemma NextDrops(t: Table, l: Label, t': Table, id: string)
    requires Next(t, l, t')
    ensures id in t.dropped ==> id in t'.dropped
    ensures Hold(id) in t.fence && Hold(id) !in t'.fence ==> id in t'.dropped
  {
    if l.Call? {
      ApplyDrops(t, ChangeAt(t.execs[l.exec]), id);
    }
  }

  lemma ApplyDrops(t: Table, change: Change, id: string)
    ensures var t' := Apply(t, change);
            && (id in t.dropped ==> id in t'.dropped)
            && (Hold(id) in t.fence && Hold(id) !in t'.fence ==> id in t'.dropped)
  {
  }

  lemma {:induction false} DroppedStays(run: seq<Table>, labels: seq<Label>, i: nat, j: nat, id: string)
    requires IsRun(run, labels) && i <= j < |run|
    ensures id in run[i].dropped ==> id in run[j].dropped
  {
    if i < j {
      DroppedStays(run, labels, i, j - 1, id);
      NextDrops(run[j - 1], labels[j - 1], run[j], id);
    }
  }

  /** A hold that was never dropped has been in force without a gap. */
  lemma {:induction false} NoGap(run: seq<Table>, labels: seq<Label>, a: nat, j: nat, k: nat, id: string)
    requires IsRun(run, labels) && a <= j <= k < |run|
    requires Hold(id) in run[a].fence && id !in run[k].dropped
    ensures Hold(id) in run[j].fence
  {
    if a < j {
      NoGap(run, labels, a, j - 1, k, id);
      NextDrops(run[j - 1], labels[j - 1], run[j], id);
      DroppedStays(run, labels, j, k, id);
    }
  }

  /** The commands of the executors are serialised, as the fence's contract asks: one is in progress at a time. */
  ghost predicate Serialised(t: Table) {
    forall x, y :: x in t.execs && y in t.execs && t.execs[x] != Idle && t.execs[y] != Idle ==> x == y
  }

  /** With serialised commands a released id is never held again. */
  ghost predicate ReleasedForGood(t: Table) {
    && (forall id :: id in t.dropped ==> Hold(id) !in t.fence)
    && (forall x :: x in t.execs && t.execs[x].FreezeAdd? ==> Retired(t.execs[x].id) !in t.fence)
  }

  lemma CallReleasedForGood(t: Table, x: nat, next: Pc, t': Table)
    requires HoldInv(t) && Serialised(t) && ReleasedForGood(t) && Next(t, Call(x, next), t')
    ensures ReleasedForGood(t')
  {
    var pc := t.execs[x];
    ChangeShape(pc);
    ApplyExecs(t, ChangeAt(pc));
    assert forall y :: y in t'.execs && y != x ==> t.execs[y] == Idle;
    assert !next.FreezeAdd?;
    ApplyReleased(t, pc);
  }

  lemma ApplyReleased(t: Table, pc: Pc)
    requires HoldInv(t) && (forall id :: id in t.dropped ==> Hold(id) !in t.fence)
    requires pc.FreezeAdd? ==> Retired(pc.id) !in t.fence
    ensures var t' := Effect(t, pc);
            forall id :: id in t'.dropped ==> Hold(id) !in t'.fence
  {
    ChangeShape(pc);
  }

  lemma NextReleasedForGood(t: Table, l: Label, t': Table)
    requires HoldInv(t) && Serialised(t) && ReleasedForGood(t) && Next(t, l, t')
    ensures ReleasedForGood(t')
  {
    if l.Call? {
      CallReleasedForGood(t, l.exec, l.next, t');
    }
  }

  lemma {:induction false} RunReleasedForGood(run: seq<Table>, labels: seq<Label>, i: nat)
    requires IsRun(run, labels) && i < |run|
    requires forall j :: 0 <= j < |run| ==> Serialised(run[j])
    ensures ReleasedForGood(run[i])
  {
    if i > 0 {
      RunReleasedForGood(run, labels, i - 1);
      RunHoldInv(run, labels, i - 1);
      NextReleasedForGood(run[i - 1], labels[i - 1], run[i]);
    }
  }

  /** While a hold is in force and nothing is in flight, nothing is admitted and nothing can be committed. */
  lemma {:induction false} QuietUnderHold(run: seq<Table>, labels: seq<Label>, d: nat, j: nat, id: string)
    requires IsRun(run, labels) && d <= j < |run|
    requires forall i :: d <= i <= j ==> Hold(id) in run[i].fence
    requires run[d].inflight == map[]
    ensures run[j].inflight == map[] && run[j].rows == run[d].rows
  {
    if d < j {
      QuietUnderHold(run, labels, d, j - 1, id);
      QuietStep(run[j - 1], labels[j - 1], run[j], id);
    }
  }

  lemma QuietStep(t: Table, l: Label, t': Table, id: string)
    requires Next(t, l, t') && Hold(id) in t.fence && t.inflight == map[]
    ensures t'.inflight == map[] && t'.rows == t.rows
  {
    assert Blocks(Hold(id));
    if l.Call? {
      ApplyExecs(t, ChangeAt(t.execs[l.exec]));
    }
  }

  /** Executor x froze the table under `id`: its add is step a and its drain step d. */
  ghost predicate Froze(run: seq<Table>, labels: seq<Label>, x: nat, id: string, a: nat, d: nat) {
    && a < d < |labels| < |run|
    && labels[a].Call? && labels[a].exec == x && x in run[a].execs && run[a].execs[x] == FreezeAdd(id)
    && labels[d].Call? && labels[d].exec == x && x in run[d].execs && run[d].execs[x] == FreezeDrain(id)
  }

  /** Step i is the call of a release that drops the hold. */
  ghost predicate ReleasesAt(run: seq<Table>, labels: seq<Label>, id: string, i: nat)
    requires i < |labels| && i < |run|
  {
    labels[i].Call? && labels[i].exec in run[i].execs && run[i].execs[labels[i].exec] == ReleaseDrop(id)
  }

  /** No release drops the hold in a step between a and k. */
  ghost predicate NotReleased(run: seq<Table>, labels: seq<Label>, id: string, a: nat, k: nat)
    requires k <= |labels| < |run|
  {
    forall i {:trigger ReleasesAt(run, labels, id, i)} :: a < i < k ==> !ReleasesAt(run, labels, id, i)
  }

  /** The one step that takes a hold away is the release's drop, and it always does. */
  lemma HoldStep(t: Table, l: Label, t': Table, id: string)
    requires Next(t, l, t') && Hold(id) in t.fence
    ensures Hold(id) in t'.fence <==> !(l.Call? && t.execs[l.exec] == ReleaseDrop(id))
  {
    if l.Call? {
      ChangeShape(t.execs[l.exec]);
      ApplyHold(t, ChangeAt(t.execs[l.exec]), id);
    }
  }

  lemma ApplyHold(t: Table, change: Change, id: string)
    requires Hold(id) in t.fence
    ensures Hold(id) in Apply(t, change).fence <==> change != Drop(Hold(id))
  {
  }

  lemma {:induction false} HeldUntil(run: seq<Table>, labels: seq<Label>, id: string, a: nat, j: nat, k: nat)
    requires IsRun(run, labels) && a < j <= k < |run| && Hold(id) in run[a + 1].fence
    requires NotReleased(run, labels, id, a, k)
    ensures Hold(id) in run[j].fence
  {
    if a + 1 < j {
      HeldUntil(run, labels, id, a, j - 1, k);
      assert !ReleasesAt(run, labels, id, j - 1);
      assert Next(run[j - 1], labels[j - 1], run[j]);
      HoldStep(run[j - 1], labels[j - 1], run[j], id);
    }
  }

  /** Exactly when a freeze's hold is in force without a gap up to moment k: no release of the id makes its drop in
      between, whatever else the executors do. */
  lemma HeldIffNotReleased(run: seq<Table>, labels: seq<Label>, x: nat, id: string, a: nat, d: nat, k: nat)
    requires IsRun(run, labels) && Froze(run, labels, x, id, a, d) && d < k < |run|
    ensures (forall j :: a < j <= k ==> Hold(id) in run[j].fence) <==> NotReleased(run, labels, id, a, k)
  {
    assert Next(run[a], labels[a], run[a + 1]);
    if NotReleased(run, labels, id, a, k) {
      forall j | a < j <= k
        ensures Hold(id) in run[j].fence
      {
        HeldUntil(run, labels, id, a, j, k);
      }
    }
    if forall j :: a < j <= k ==> Hold(id) in run[j].fence {
      forall i | a < i < k
        ensures !ReleasesAt(run, labels, id, i)
      {
        assert Hold(id) in run[i].fence && Hold(id) in run[i + 1].fence;
        assert Next(run[i], labels[i], run[i + 1]);
        HoldStep(run[i], labels[i], run[i + 1], id);
      }
    }
  }

  /** As long as the id is not released, the freeze gives a snapshot: the hold is in force without a gap, and from the
      drain on the table's rows never change. */
  lemma NotReleasedIsASnapshot(run: seq<Table>, labels: seq<Label>, x: nat, id: string, a: nat, d: nat, k: nat)
    requires IsRun(run, labels) && Froze(run, labels, x, id, a, d) && d < k < |run|
    requires NotReleased(run, labels, id, a, k)
    ensures forall j :: a < j <= k ==> Hold(id) in run[j].fence
    ensures forall j :: d <= j <= k ==> run[j].inflight == map[] && run[j].rows == run[d].rows
  {
    HeldIffNotReleased(run, labels, x, id, a, d, k);
    RunHoldInv(run, labels, d);
    assert Next(run[d], labels[d], run[d + 1]);
    DrainedUnderHold(run[d], id);
    forall j | d <= j <= k
      ensures run[j].inflight == map[] && run[j].rows == run[d].rows
    {
      QuietUnderHold(run, labels, d, j, id);
    }
  }

  lemma NotDroppedNotReleased(run: seq<Table>, labels: seq<Label>, x: nat, id: string, a: nat, d: nat, k: nat)
    requires IsRun(run, labels) && Froze(run, labels, x, id, a, d) && d < k < |run|
    requires id !in run[k].dropped
    ensures NotReleased(run, labels, id, a, k)
  {
    assert Next(run[a], labels[a], run[a + 1]);
    forall j | a < j <= k
      ensures Hold(id) in run[j].fence
    {
      NoGap(run, labels, a + 1, j, k, id);
    }
    HeldIffNotReleased(run, labels, x, id, a, d, k);
  }

  lemma DrainedUnderHold(t: Table, id: string)
    requires HoldInv(t) && Hold(id) in t.fence && Drained(t, Hold(id))
    ensures t.inflight == map[]
  {
    var c := Hold(id);
    assert c in t.fence && Blocks(c);
    assert t.inflight.Keys == t.before[c] * t.inflight.Keys;
  }

  /** With serialised commands the final check is enough: if it still finds the hold, the id was not released. */
  lemma SerialisedNotReleased(run: seq<Table>, labels: seq<Label>, x: nat, id: string, a: nat, d: nat, k: nat)
    requires IsRun(run, labels) && Froze(run, labels, x, id, a, d) && d < k < |run|
    requires forall j :: 0 <= j < |run| ==> Serialised(run[j])
    requires Hold(id) in run[k].fence
    ensures NotReleased(run, labels, id, a, k)
  {
    RunReleasedForGood(run, labels, k);
    NotDroppedNotReleased(run, labels, x, id, a, d, k);
  }

  /** Without serialisation an id that has not been retired by the final check was not released: a retired id is the
      trace every release leaves, and still_frozen does not look at it. */
  lemma UnretiredNotReleased(run: seq<Table>, labels: seq<Label>, x: nat, id: string, a: nat, d: nat, k: nat)
    requires IsRun(run, labels) && Froze(run, labels, x, id, a, d) && d < k < |run|
    requires Retired(id) !in run[k].fence
    ensures NotReleased(run, labels, id, a, k)
  {
    RunHoldInv(run, labels, k);
    NotDroppedNotReleased(run, labels, x, id, a, d, k);
  }

  /** So with serialised commands, if the final check still finds the hold, it was in force without a gap since the
      freeze, and from the drain on the table's rows never changed. */
  lemma FrozenTableIsASnapshot(run: seq<Table>, labels: seq<Label>, x: nat, id: string, a: nat, d: nat, k: nat)
    requires IsRun(run, labels) && Froze(run, labels, x, id, a, d) && d < k < |run|
    requires forall j :: 0 <= j < |run| ==> Serialised(run[j])
    requires Hold(id) in run[k].fence
    ensures forall j :: a < j <= k ==> Hold(id) in run[j].fence
    ensures forall j :: d <= j <= k ==> run[j].inflight == map[] && run[j].rows == run[d].rows
  {
    SerialisedNotReleased(run, labels, x, id, a, d, k);
    NotReleasedIsASnapshot(run, labels, x, id, a, d, k);
  }

  /** And so it is without serialisation if the id is not retired at the final check. */
  lemma UnretiredHoldIsASnapshot(run: seq<Table>, labels: seq<Label>, x: nat, id: string, a: nat, d: nat, k: nat)
    requires IsRun(run, labels) && Froze(run, labels, x, id, a, d) && d < k < |run|
    requires Retired(id) !in run[k].fence
    ensures forall j :: a < j <= k ==> Hold(id) in run[j].fence
    ensures forall j :: d <= j <= k ==> run[j].inflight == map[] && run[j].rows == run[d].rows
  {
    UnretiredNotReleased(run, labels, x, id, a, d, k);
    NotReleasedIsASnapshot(run, labels, x, id, a, d, k);
  }

  // --- crash recovery -----------------------------------------------------------------------------

  function Last(run: seq<Table>): Table
    requires run != []
  {
    run[|run| - 1]
  }

  lemma ExtendRun(run: seq<Table>, labels: seq<Label>, l: Label, t': Table)
    requires IsRun(run, labels) && Next(Last(run), l, t')
    ensures IsRun(run + [t'], labels + [l])
  {
    var run', labels' := run + [t'], labels + [l];
    forall i | 0 <= i < |labels'|
      ensures Next(run'[i], labels'[i], run'[i + 1])
    {
      if i < |labels| {
        assert Next(run[i], labels[i], run[i + 1]);
      }
    }
  }

  /** Executor x starts a command that its checks accept. */
  lemma BeginCommand(run: seq<Table>, labels: seq<Label>, x: nat, pc: Pc)
    returns (run': seq<Table>, labels': seq<Label>)
    requires IsRun(run, labels) && (x in Last(run).execs ==> Last(run).execs[x] == Idle) && MayBegin(Last(run), pc)
    ensures IsRun(run', labels') && run <= run' && |run'| == |run| + 1
    ensures labels' == labels + [Begin(x, pc)]
    ensures Last(run') == Advance(Last(run), x, pc)
  {
    var t' := Advance(Last(run), x, pc);
    ExtendRun(run, labels, Begin(x, pc), t');
    run', labels' := run + [t'], labels + [Begin(x, pc)];
  }

  /** Executor x makes its next call. */
  lemma MakeCall(run: seq<Table>, labels: seq<Label>, x: nat, next: Pc) returns (run': seq<Table>, labels': seq<Label>)
    requires IsRun(run, labels) && x in Last(run).execs && Follows(Last(run), Last(run).execs[x], next)
    ensures IsRun(run', labels') && run <= run' && |run'| == |run| + 1
    ensures labels' == labels + [Call(x, next)]
    ensures var t := Last(run);
            Last(run') == Advance(Effect(t, t.execs[x]), x, next)
  {
    var t := Last(run);
    var t' := Advance(Effect(t, t.execs[x]), x, next);
    ExtendRun(run, labels, Call(x, next), t');
    run', labels' := run + [t'], labels + [Call(x, next)];
  }

  /** Every finite set of numbers has its list. */
  lemma {:induction false} ListOf(s: set<int>) returns (xs: seq<int>)
    ensures forall i, j :: 0 <= i < j < |xs| ==> xs[i] < xs[j]
    ensures forall x :: x in xs <==> x in s
  {
    if s == {} {
      xs := [];
    } else {
      var top := Greatest(s);
      var rest := ListOf(s - {top});
      forall i | 0 <= i < |rest| ensures rest[i] < top {
        assert rest[i] in rest;
      }
      xs := rest + [top];
    }
  }

  lemma {:induction false} Greatest(s: set<int>) returns (top: int)
    requires s != {}
    ensures top in s && forall x :: x in s ==> x <= top
  {
    var some := SomeOf(s);
    top := some;
    var others := s - {some};
    assert forall x :: x in s ==> x == some || x in others;
    if others != {} {
      var rest := Greatest(others);
      top := if rest > some then rest else some;
    }
  }

  ghost function Maxs(xs: seq<int>): set<Constraint> { set x | x in xs :: Max(x) }

  ghost function Mins(xs: seq<int>): set<Constraint> { set x | x in xs :: Min(x) }

  /** One executor's calls took it to `pc` and left this fence; no insert moved meanwhile. */
  ghost predicate Stepped(t: Table, t': Table, x: nat, pc: Pc, fence: Fence) {
    && t'.fence == fence && t'.execs == t.execs[x := pc] && (t.column ==> t'.column)
    && t'.inflight == t.inflight && t'.rows == t.rows
  }

  lemma SteppedTwice(t: Table, t1: Table, t2: Table, x: nat, pc1: Pc, pc2: Pc, f1: Fence, f2: Fence)
    requires Stepped(t, t1, x, pc1, f1) && Stepped(t1, t2, x, pc2, f2)
    ensures Stepped(t, t2, x, pc2, f2)
  {
    assert t.execs[x := pc1][x := pc2] == t.execs[x := pc2];
  }

  function AfterBounds(who: Caller, e: int): Pc { if who == ForPrepare then PrepareDrain(e) else Idle }

  lemma {:induction false} DropBounds(run: seq<Table>, labels: seq<Label>, x: nat, who: Caller, e: int, maxs: seq<int>,
                                      mins: seq<int>)
    returns (run': seq<Table>, labels': seq<Label>)
    requires IsRun(run, labels) && x in Last(run).execs
    requires Last(run).execs[x] == BoundsDrop(who, e, maxs, mins)
    ensures IsRun(run', labels') && run <= run'
    ensures Stepped(Last(run), Last(run'), x, AfterBounds(who, e), Last(run).fence - Maxs(maxs) - Mins(mins))
    decreases |maxs| + |mins|
  {
    var t := Last(run);
    if maxs == [] && mins == [] {
      run', labels' := MakeCall(run, labels, x, AfterBounds(who, e));
      assert t.fence == t.fence - Maxs(maxs) - Mins(mins);
    } else {
      var run1, labels1, maxs1, mins1 := DropOneBound(run, labels, x, who, e, maxs, mins);
      var t1 := Last(run1);
      run', labels' := DropBounds(run1, labels1, x, who, e, maxs1, mins1);
      SteppedTwice(t, t1, Last(run'), x, BoundsDrop(who, e, maxs1, mins1), AfterBounds(who, e), t1.fence,
                   Last(run').fence);
    }
  }

  lemma DropOneBound(run: seq<Table>, labels: seq<Label>, x: nat, who: Caller, e: int, maxs: seq<int>, mins: seq<int>)
    returns (run': seq<Table>, labels': seq<Label>, maxs': seq<int>, mins': seq<int>)
    requires IsRun(run, labels) && x in Last(run).execs
    requires Last(run).execs[x] == BoundsDrop(who, e, maxs, mins) && (maxs != [] || mins != [])
    ensures IsRun(run', labels') && run <= run' && |maxs'| + |mins'| < |maxs| + |mins|
    ensures Stepped(Last(run), Last(run'), x, BoundsDrop(who, e, maxs', mins'), Last(run').fence)
    ensures Last(run').fence - Maxs(maxs') - Mins(mins') == Last(run).fence - Maxs(maxs) - Mins(mins)
  {
    maxs', mins' := if maxs != [] then maxs[1..] else maxs, if maxs != [] then mins else mins[1..];
    run', labels' := MakeCall(run, labels, x, BoundsDrop(who, e, maxs', mins'));
    OneBoundLess(Last(run).fence, maxs, mins);
  }

  lemma OneBoundLess(f: Fence, maxs: seq<int>, mins: seq<int>)
    ensures maxs != [] ==> f - {Max(maxs[0])} - Maxs(maxs[1..]) - Mins(mins) == f - Maxs(maxs) - Mins(mins)
    ensures mins != [] ==> f - {Min(mins[0])} - Maxs(maxs) - Mins(mins[1..]) == f - Maxs(maxs) - Mins(mins)
  {
    if maxs != [] {
      assert Maxs(maxs) == {Max(maxs[0])} + Maxs(maxs[1..]);
    }
    if mins != [] {
      assert Mins(mins) == {Min(mins[0])} + Mins(mins[1..]);
    }
  }

  /** The fence with its bounds replaced by those of one generation. */
  ghost function Rebounded(f: Fence, e: int): Fence {
    (set c | c in f && !c.Min? && !c.Max?) + {Min(e), Max(e)}
  }

  /** Whatever partial change a crash left, an accepted advance to e that runs to its end leaves epoch() == e, with
      every hold still in place and no other bound. */
  lemma AdvanceCompletes(run: seq<Table>, labels: seq<Label>, x: nat, e: int)
    returns (run': seq<Table>, labels': seq<Label>)
    requires IsRun(run, labels)
    requires x in Last(run).execs ==> Last(run).execs[x] == Idle
    requires MayBegin(Last(run), BoundsMin(ForAdvance, e))
    ensures IsRun(run', labels') && run <= run'
    ensures Epoch(Last(run'), e)
    ensures Last(run').fence == Rebounded(Last(run).fence, e)
  {
    run', labels' := BeginCommand(run, labels, x, BoundsMin(ForAdvance, e));
    run', labels' := BoundsRun(run', labels', x, ForAdvance, e);
    WholeEpoch(Last(run'), e);
  }

  /** The calls of `bounds`, from the first to the last: the fence then has the bounds of one generation. */
  lemma BoundsRun(run: seq<Table>, labels: seq<Label>, x: nat, who: Caller, e: int)
    returns (run': seq<Table>, labels': seq<Label>)
    requires IsRun(run, labels) && x in Last(run).execs && Last(run).execs[x] == BoundsMin(who, e)
    requires forall m :: Min(m) in Last(run).fence ==> m <= e
    ensures IsRun(run', labels') && run <= run'
    ensures Stepped(Last(run), Last(run'), x, AfterBounds(who, e), Rebounded(Last(run).fence, e))
  {
    var t := Last(run);
    run', labels' := AddBounds(run, labels, x, who, e);
    var t1 := Last(run');
    var maxs, mins;
    run', labels', maxs, mins := ReadBounds(run', labels', x, who, e);
    var t2 := Last(run');
    RunInv(run', labels', |run'| - 1);
    run', labels' := DropBounds(run', labels', x, who, e, maxs, mins);
    BoundsLeft(t.fence, e, maxs, mins);
    SteppedTwice(t, t1, t2, x, t1.execs[x], t2.execs[x], t1.fence, t2.fence);
    SteppedTwice(t, t2, Last(run'), x, t2.execs[x], AfterBounds(who, e), t2.fence, Last(run').fence);
  }

  lemma AddBounds(run: seq<Table>, labels: seq<Label>, x: nat, who: Caller, e: int)
    returns (run': seq<Table>, labels': seq<Label>)
    requires IsRun(run, labels) && x in Last(run).execs && Last(run).execs[x] == BoundsMin(who, e)
    ensures IsRun(run', labels') && run <= run'
    ensures Stepped(Last(run), Last(run'), x, BoundsRead(who, e), Last(run).fence + {Min(e), Max(e)})
  {
    var t := Last(run);
    AddEffect(t, Min(e));
    run', labels' := MakeCall(run, labels, x, BoundsMax(who, e));
    var t1 := Last(run');
    AddEffect(t1, Max(e));
    run', labels' := MakeCall(run', labels', x, BoundsRead(who, e));
    SteppedTwice(t, t1, Last(run'), x, BoundsMax(who, e), BoundsRead(who, e), t1.fence, Last(run').fence);
  }

  lemma AddEffect(t: Table, c: Constraint)
    ensures var t' := AddConstraint(t, c);
            && t'.fence == t.fence + {c} && t'.column == t.column && t'.execs == t.execs
            && t'.inflight == t.inflight && t'.rows == t.rows
  {
  }

  lemma ReadBounds(run: seq<Table>, labels: seq<Label>, x: nat, who: Caller, e: int)
    returns (run': seq<Table>, labels': seq<Label>, maxs: seq<int>, mins: seq<int>)
    requires IsRun(run, labels) && x in Last(run).execs && Last(run).execs[x] == BoundsRead(who, e)
    requires forall m :: Min(m) in Last(run).fence ==> m <= e
    ensures IsRun(run', labels') && run <= run'
    ensures Stepped(Last(run), Last(run'), x, BoundsDrop(who, e, maxs, mins), Last(run).fence)
    ensures forall x :: x in maxs <==> Max(x) in Last(run).fence && x < e
    ensures forall m :: m in mins <==> Min(m) in Last(run).fence && m < e
  {
    var f := Last(run).fence;
    maxs := ListOf(set c | c in f && c.Max? && c.epoch < e :: c.epoch);
    mins := ListOf(set c | c in f && c.Min? && c.epoch < e :: c.epoch);
    ListsBounds(f, e, maxs, mins);
    run', labels' := MakeCall(run, labels, x, BoundsDrop(who, e, maxs, mins));
  }

  lemma ListsBounds(f: Fence, e: int, maxs: seq<int>, mins: seq<int>)
    requires forall i, j :: 0 <= i < j < |maxs| ==> maxs[i] < maxs[j]
    requires forall i, j :: 0 <= i < j < |mins| ==> mins[i] < mins[j]
    requires forall x :: x in maxs <==> x in (set c | c in f && c.Max? && c.epoch < e :: c.epoch)
    requires forall x :: x in mins <==> x in (set c | c in f && c.Min? && c.epoch < e :: c.epoch)
    ensures Lists(maxs, x => Max(x) in f && x < e)
    ensures Lists(mins, m => Min(m) in f && m < e)
    ensures forall x :: x in maxs <==> Max(x) in f && x < e
    ensures forall m :: m in mins <==> Min(m) in f && m < e
  {
    assert forall x :: x in maxs <==> Max(x) in f && x < e;
    assert forall m :: m in mins <==> Min(m) in f && m < e;
  }

  /** Dropping the older bounds leaves those of the new generation: no maximum is above every minimum. */
  lemma BoundsLeft(f: Fence, e: int, maxs: seq<int>, mins: seq<int>)
    requires forall m :: Min(m) in f ==> m <= e
    requires var g := f + {Min(e), Max(e)};
             && (forall x :: Max(x) in g ==> AtLeast(g, x))
             && (forall x :: x in maxs <==> Max(x) in g && x < e)
             && (forall m :: m in mins <==> Min(m) in g && m < e)
    ensures f + {Min(e), Max(e)} - Maxs(maxs) - Mins(mins) == Rebounded(f, e)
  {
    var g := f + {Min(e), Max(e)};
    forall x | Max(x) in g
      ensures x <= e
    {
      assert AtLeast(g, x);
      var m :| Min(m) in g && m >= x;
    }
    forall c | c in g
      ensures c in g - Maxs(maxs) - Mins(mins) <==> c in Rebounded(f, e)
    {
      assert c.Max? ==> c == Max(c.epoch);
      assert c.Min? ==> c == Min(c.epoch);
    }
  }

  lemma WholeEpoch(t: Table, e: int)
    requires Owner in t.fence && t.column && Min(e) in t.fence && Max(e) in t.fence
    requires forall c :: c in t.fence ==> (c.Min? ==> c == Min(e)) && (c.Max? ==> c == Max(e))
    ensures Epoch(t, e)
  {
  }

  // --- prepare ------------------------------------------------------------------------------------

  /** An accepted prepare of e that runs to its end, from an unfenced table or wherever an earlier prepare crashed, once
      the inserts in flight are done: epoch() == e, no setup hold, and every other hold still in place. */
  lemma PrepareCompletes(run: seq<Table>, labels: seq<Label>, x: nat, e: int, owned: bool)
    returns (run': seq<Table>, labels': seq<Label>)
    requires IsRun(run, labels)
    requires x in Last(run).execs ==> Last(run).execs[x] == Idle
    requires MayBegin(Last(run), PrepareOwner(e, owned))
    ensures IsRun(run', labels') && run <= run'
    ensures Epoch(Last(run'), e) && Last(run').inflight == map[]
    ensures Last(run').fence == Rebounded(Last(run).fence + {Owner}, e) - {Setup}
    ensures Last(run').execs == Last(run).execs[x := Idle]
    ensures Last(run).inflight == map[] ==> Last(run').rows == Last(run).rows
  {
    var t := Last(run);
    run', labels' := PrepareOpens(run, labels, x, e, owned);
    var t1 := Last(run');
    run', labels' := BoundsRun(run', labels', x, ForPrepare, e);
    var t2 := Last(run');
    SteppedTwice(t, t1, t2, x, BoundsMin(ForPrepare, e), PrepareDrain(e), t1.fence, t2.fence);
    run', labels' := PrepareEnds(run', labels', x, e);
    assert t.execs[x := PrepareDrain(e)][x := Idle] == t.execs[x := Idle];
    OpenedFence(t.fence, e);
    WholeEpoch(Last(run'), e);
  }

  /** The calls of prepare up to the bounds: owner, setup hold and column are there. */
  lemma PrepareOpens(run: seq<Table>, labels: seq<Label>, x: nat, e: int, owned: bool)
    returns (run': seq<Table>, labels': seq<Label>)
    requires IsRun(run, labels)
    requires x in Last(run).execs ==> Last(run).execs[x] == Idle
    requires MayBegin(Last(run), PrepareOwner(e, owned))
    ensures IsRun(run', labels') && run <= run'
    ensures Stepped(Last(run), Last(run'), x, BoundsMin(ForPrepare, e), Last(run).fence + {Owner, Setup})
    ensures Last(run').column
  {
    var t := Last(run);
    run', labels' := BeginCommand(run, labels, x, PrepareOwner(e, owned));
    var t1 := Last(run');
    AddEffect(t1, Owner);
    run', labels' := MakeCall(run', labels', x, PrepareSetup(e));
    var t2 := Last(run');
    assert t2.fence == t.fence + {Owner};
    AddEffect(t2, Setup);
    run', labels' := MakeCall(run', labels', x, PrepareColumn(e));
    var t3 := Last(run');
    run', labels' := MakeCall(run', labels', x, BoundsMin(ForPrepare, e));
    SteppedTwice(t, t1, t2, x, PrepareOwner(e, owned), PrepareSetup(e), t1.fence, t2.fence);
    SteppedTwice(t, t2, t3, x, PrepareSetup(e), PrepareColumn(e), t2.fence, t3.fence);
    SteppedTwice(t, t3, Last(run'), x, PrepareColumn(e), BoundsMin(ForPrepare, e), t3.fence, t3.fence);
    assert t3.fence == t.fence + {Owner, Setup};
  }

  /** The drain and the drop of the setup hold, once every insert in flight has committed. */
  lemma PrepareEnds(run: seq<Table>, labels: seq<Label>, x: nat, e: int)
    returns (run': seq<Table>, labels': seq<Label>)
    requires IsRun(run, labels) && x in Last(run).execs && Last(run).execs[x] == PrepareDrain(e)
    ensures IsRun(run', labels') && run <= run'
    ensures var t, t' := Last(run), Last(run');
            && t'.fence == t.fence - {Setup} && t'.execs == t.execs[x := Idle] && t'.column == t.column
            && t'.inflight == map[] && (t.inflight == map[] ==> t'.rows == t.rows)
  {
    var t := Last(run);
    run', labels' := InsertsCommit(run, labels);
    run', labels' := MakeCall(run', labels', x, PrepareRelease(e));
    run', labels' := MakeCall(run', labels', x, Idle);
    assert t.execs[x := PrepareRelease(e)][x := Idle] == t.execs[x := Idle];
  }

  lemma {:induction false} InsertsCommit(run: seq<Table>, labels: seq<Label>)
    returns (run': seq<Table>, labels': seq<Label>)
    requires IsRun(run, labels)
    ensures IsRun(run', labels') && run <= run'
    ensures var t, t' := Last(run), Last(run');
            && t'.fence == t.fence && t'.execs == t.execs && t'.column == t.column && t'.inflight == map[]
            && (t.inflight == map[] ==> t'.rows == t.rows)
    decreases |Last(run).inflight|
  {
    var t := Last(run);
    run', labels' := run, labels;
    if t.inflight.Keys != {} {
      var w := SomeOf(t.inflight.Keys);
      var t' := t.(rows := t.rows + t.inflight[w], inflight := t.inflight - {w});
      ExtendRun(run, labels, Commit(w), t');
      FewerInFlight(t.inflight, w);
      run', labels' := InsertsCommit(run + [t'], labels + [Commit(w)]);
    }
  }

  lemma FewerInFlight(inflight: map<Writer, Rows>, w: Writer)
    requires w in inflight
    ensures |inflight - {w}| < |inflight|
  {
    SubsetSize((inflight - {w}).Keys, inflight.Keys);
    assert w !in (inflight - {w}).Keys;
  }

  lemma OpenedFence(f: Fence, e: int)
    ensures Rebounded(f + {Owner, Setup}, e) - {Setup} == Rebounded(f + {Owner}, e) - {Setup}
  {
  }

  // --- why the commands must be serialised ----------------------------------------------------------

  /** Executor 0 freezes under `id`; a second freeze of the same id stops between its check and its call; a release
      retires and drops the hold; a write goes through; and the stopped freeze adds the hold again. The final check
      finds the epoch and the hold, and the rows are not those of the drain. */
  lemma StaleFreezeHidesAGap(t: Table, id: string, row: Rows)
    returns (run: seq<Table>, labels: seq<Label>, a: nat, d: nat)
    requires Init(t) && t.inflight == map[] && t.rows + row != t.rows
    ensures IsRun(run, labels) && Froze(run, labels, 0, id, a, d) && d < |run| - 1
    ensures Epoch(Last(run), 1) && Hold(id) in Last(run).fence
    ensures Last(run).rows != run[d].rows
  {
    var frozen: seq<Table>, before: seq<Label>;
    frozen, before, a, d := FreezeRuns(t, id);
    run, labels := ReleasedBetween(frozen, before, id, row);
    assert forall i :: 0 <= i < |frozen| ==> run[i] == frozen[i];
    assert forall i :: 0 <= i < |before| ==> labels[i] == before[i];
  }

  /** prepare and freeze, to the end, on an unfenced table. */
  lemma FreezeRuns(t: Table, id: string) returns (run: seq<Table>, labels: seq<Label>, a: nat, d: nat)
    requires Init(t) && t.inflight == map[]
    ensures IsRun(run, labels) && Froze(run, labels, 0, id, a, d) && d == |run| - 2
    ensures Last(run).execs == map[0 := Idle] && Last(run).column && Last(run).inflight == map[]
    ensures Last(run).fence == {Owner, Min(1), Max(1), Hold(id)}
    ensures Last(run).rows == run[d].rows == t.rows
  {
    run, labels := PrepareCompletes([t], [], 0, 1, false);
    assert Last(run).fence == {Owner, Min(1), Max(1)};
    assert map[0 := Idle][0 := Idle] == map[0 := Idle];
    run, labels, a, d := FreezeCompletes(run, labels, 0, id);
    assert Last(run).fence == {Owner, Min(1), Max(1), Hold(id)};
  }

  /** An accepted freeze, with no insert running and no other call in between, ends with its hold. */
  lemma FreezeCompletes(run: seq<Table>, labels: seq<Label>, x: nat, id: string)
    returns (run': seq<Table>, labels': seq<Label>, a: nat, d: nat)
    requires IsRun(run, labels) && (x in Last(run).execs ==> Last(run).execs[x] == Idle)
    requires MayBegin(Last(run), FreezeAdd(id)) && Last(run).inflight == map[]
    ensures IsRun(run', labels') && Froze(run', labels', x, id, a, d) && d == |run'| - 2
    ensures Last(run').execs == Last(run).execs[x := Idle] && Last(run').column == Last(run).column
    ensures Last(run').inflight == map[] && Last(run').fence == Last(run).fence + {Hold(id)}
    ensures Last(run').rows == run'[d].rows == Last(run).rows
  {
    var run1, labels1 := FreezeHolds(run, labels, x, id);
    run', labels' := MakeCall(run1, labels1, x, Idle);
    a, d := |labels| + 1, |labels1|;
    SteppedTwice(Last(run), Last(run1), Last(run'), x, FreezeDrain(id), Idle, Last(run1).fence, Last(run').fence);
  }

  lemma FreezeHolds(run: seq<Table>, labels: seq<Label>, x: nat, id: string)
    returns (run': seq<Table>, labels': seq<Label>)
    requires IsRun(run, labels) && (x in Last(run).execs ==> Last(run).execs[x] == Idle)
    requires MayBegin(Last(run), FreezeAdd(id))
    ensures IsRun(run', labels') && |labels'| == |labels| + 2 && labels'[|labels| + 1] == Call(x, FreezeDrain(id))
    ensures x in run'[|labels| + 1].execs && run'[|labels| + 1].execs[x] == FreezeAdd(id)
    ensures Stepped(Last(run), Last(run'), x, FreezeDrain(id), Last(run).fence + {Hold(id)})
    ensures Last(run').column == Last(run).column
  {
    var run1, labels1 := BeginCommand(run, labels, x, FreezeAdd(id));
    run', labels' := MakeCall(run1, labels1, x, FreezeDrain(id));
    assert run'[|labels| + 1] == Last(run1);
  }

  lemma ReleasedBetween(run: seq<Table>, labels: seq<Label>, id: string, row: Rows)
    returns (run': seq<Table>, labels': seq<Label>)
    requires IsRun(run, labels) && Last(run).execs == map[0 := Idle] && Last(run).column
    requires Last(run).fence == {Owner, Min(1), Max(1), Hold(id)} && Last(run).inflight == map[]
    ensures IsRun(run', labels') && run < run' && labels <= labels'
    ensures Epoch(Last(run'), 1) && Hold(id) in Last(run').fence
    ensures Last(run').rows == Last(run).rows + row
  {
    run', labels' := CheckedThenReleased(run, labels, id);
    run', labels' := WriteRow(run', labels', row);
    run', labels' := MakeCall(run', labels', 1, FreezeDrain(id));
    assert Min(1) in Last(run').fence && Max(1) in Last(run').fence;
  }

  lemma CheckedThenReleased(run: seq<Table>, labels: seq<Label>, id: string)
    returns (run': seq<Table>, labels': seq<Label>)
    requires IsRun(run, labels) && Last(run).execs == map[0 := Idle] && Last(run).column
    requires Last(run).fence == {Owner, Min(1), Max(1), Hold(id)} && Last(run).inflight == map[]
    ensures IsRun(run', labels') && run < run' && labels <= labels'
    ensures Last(run').fence == {Owner, Min(1), Max(1), Retired(id)} && Last(run').column
    ensures Last(run').inflight == map[] && Last(run').rows == Last(run).rows
    ensures 1 in Last(run').execs && Last(run').execs[1] == FreezeAdd(id)
  {
    assert Min(1) in Last(run).fence && Max(1) in Last(run).fence;
    run', labels' := BeginCommand(run, labels, 1, FreezeAdd(id));
    assert Epoch(Last(run'), 1);
    run', labels' := BeginCommand(run', labels', 2, ReleaseRetire(id));
    run', labels' := ReleaseRuns(run', labels', 2, id);
  }

  lemma ReleaseRuns(run: seq<Table>, labels: seq<Label>, x: nat, id: string)
    returns (run': seq<Table>, labels': seq<Label>)
    requires IsRun(run, labels) && x in Last(run).execs && Last(run).execs[x] == ReleaseRetire(id)
    ensures IsRun(run', labels') && run < run' && labels <= labels'
    ensures var t, t' := Last(run), Last(run');
            && t'.fence == t.fence + {Retired(id)} - {Hold(id)} && t'.column == t.column
            && t'.inflight == t.inflight && t'.rows == t.rows && t'.execs == t.execs[x := Idle]
  {
    run', labels' := MakeCall(run, labels, x, ReleaseDrop(id));
    run', labels' := MakeCall(run', labels', x, Idle);
  }

  lemma WriteRow(run: seq<Table>, labels: seq<Label>, row: Rows) returns (run': seq<Table>, labels': seq<Label>)
    requires IsRun(run, labels) && Last(run).inflight == map[] && Admits(Last(run).fence, 1)
    ensures IsRun(run', labels') && run <= run' && labels <= labels'
    ensures Last(run') == Last(run).(rows := Last(run).rows + row, inflight := map[])
  {
    var t := Last(run);
    var t1 := t.(inflight := t.inflight[0 := row]);
    ExtendRun(run, labels, Admit(0, 1, row), t1);
    var t2 := t1.(rows := t1.rows + row, inflight := t1.inflight - {0});
    ExtendRun(run + [t1], labels + [Admit(0, 1, row)], Commit(0), t2);
    run', labels' := run + [t1] + [t2], labels + [Admit(0, 1, row)] + [Commit(0)];
  }
}
