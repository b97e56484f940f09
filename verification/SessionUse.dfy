/** Session::Use: a session has one owner at a time, who may enter again (cpp/src/session_use.hpp:15-36). Threads
    interleave at single accesses to the shared words: the atomic owner, and the plain counter, whose increment and
    decrement are a read and a write apart. */
module SessionUse {
  type Thread = nat

  datatype Owner = Nobody | Thread(id: Thread)

  /** Where a thread is: outside both operations, or about to make its next access to a shared word. */
  datatype Pc =
    | Outside
    | Load                 // constructor: read the owner
    | ReadToAdd            // constructor, owner already: read the depth
    | WriteAdd(seen: int)  // ... and write it one higher
    | Exchange             // constructor, not the owner: compare-and-swap nobody for me
    | WriteOne             // ... taken: write depth 1
    | ReadToDrop           // destructor: read the depth
    | WriteDrop(seen: int) // ... and write it one lower
    | Release              // ... to 0: store nobody

  /** A thread: where it is, and how many guards it holds open. A guard is open from the end of its constructor until
      its destructor writes the depth. */
  datatype Local = Local(pc: Pc, open: nat)

  datatype State = State(owner: Owner, depth: int, locals: map<Thread, Local>)

  function At(s: State, t: Thread): Local { if t in s.locals then s.locals[t] else Local(Outside, 0) }

  function Put(s: State, t: Thread, l: Local): State { s.(locals := s.locals[t := l]) }

  datatype Step = Enter | Advance | Leave

  /** A destructor runs only for an open guard of its own thread. */
  predicate Enabled(s: State, t: Thread, step: Step) {
    match step
    case Enter => At(s, t).pc.Outside?
    case Leave => At(s, t).pc.Outside? && At(s, t).open > 0
    case Advance => !At(s, t).pc.Outside?
  }

  /** One step of one thread, and whether it was refused. */
  function Next(s: State, t: Thread, step: Step): (State, bool)
    requires Enabled(s, t, step)
  {
    var l := At(s, t);
    match step
    case Enter => (Put(s, t, l.(pc := Load)), false)
    case Leave => (Put(s, t, l.(pc := ReadToDrop)), false)
    case Advance =>
      match l.pc
      case Load => (Put(s, t, l.(pc := if s.owner == Thread(t) then ReadToAdd else Exchange)), false)
      case ReadToAdd => (Put(s, t, l.(pc := WriteAdd(s.depth))), false)
      case WriteAdd(seen) => (Put(s.(depth := seen + 1), t, Local(Outside, l.open + 1)), false)
      case Exchange =>
        if s.owner.Nobody? then (Put(s.(owner := Thread(t)), t, l.(pc := WriteOne)), false)
        else (Put(s, t, l.(pc := Outside)), true)
      case WriteOne => (Put(s.(depth := 1), t, Local(Outside, l.open + 1)), false)
      case ReadToDrop => (Put(s, t, l.(pc := WriteDrop(s.depth))), false)
      case WriteDrop(seen) =>
        (Put(s.(depth := seen - 1), t,
             Local(if seen - 1 == 0 then Release else Outside, if l.open > 0 then l.open - 1 else 0)), false)
      case Release => (Put(s.(owner := Nobody), t, l.(pc := Outside)), false)
  }

  const START := State(Nobody, 0, map[])

  // --- the invariant --------------------------------------------------------------------------------

  /** A thread that holds the session, with the depth its own count of open guards. */
  predicate Holder(l: Local, depth: int) {
    match l.pc
    case Outside => l.open > 0 && depth == l.open
    case Load => l.open > 0 && depth == l.open
    case ReadToAdd => l.open > 0 && depth == l.open
    case WriteAdd(seen) => l.open > 0 && depth == l.open && seen == depth
    case Exchange => false
    case WriteOne => l.open == 0 && depth == 0
    case ReadToDrop => l.open > 0 && depth == l.open
    case WriteDrop(seen) => l.open > 0 && depth == l.open && seen == depth
    case Release => l.open == 0 && depth == 0
  }

  /** A thread that does not: it has nothing open and is at most trying to take the owner. */
  predicate Stranger(l: Local) {
    l.open == 0 && (l.pc.Outside? || l.pc.Load? || l.pc.Exchange?)
  }

  ghost predicate Inv(s: State) {
    (forall t :: if s.owner == Thread(t) then Holder(At(s, t), s.depth) else Stranger(At(s, t))) &&
    (s.owner.Nobody? ==> s.depth == 0)
  }

  lemma StartInv()
    ensures Inv(START)
  {
  }

  /** Every step of every thread keeps the invariant. */
  lemma NextKeepsInv(s: State, t: Thread, step: Step)
    requires Inv(s) && Enabled(s, t, step)
    ensures Inv(Next(s, t, step).0)
  {
    var after := Next(s, t, step).0;
    var l := At(s, t);
    assert if s.owner == Thread(t) then Holder(l, s.depth) else Stranger(l);
    forall u: Thread | u != t
      ensures At(after, u) == At(s, u)
    {
    }
  }

  // --- runs -----------------------------------------------------------------------------------------

  datatype Move = Move(thread: Thread, step: Step)

  ghost predicate IsRun(moves: seq<Move>, states: seq<State>) {
    |states| == |moves| + 1 && states[0] == START &&
    forall i :: 0 <= i < |moves| ==> IsMove(states[i], moves[i], states[i + 1])
  }

  ghost predicate IsMove(s: State, m: Move, after: State) {
    Enabled(s, m.thread, m.step) && after == Next(s, m.thread, m.step).0
  }

  lemma {:induction false} RunInv(moves: seq<Move>, states: seq<State>, i: nat)
    requires IsRun(moves, states) && i < |states|
    ensures Inv(states[i])
  {
    if i == 0 {
      StartInv();
    } else {
      RunInv(moves, states, i - 1);
      assert IsMove(states[i - 1], moves[i - 1], states[i - 1 + 1]);
      NextKeepsInv(states[i - 1], moves[i - 1].thread, moves[i - 1].step);
    }
  }

  /** At every moment of every run at most one thread is inside the session. */
  lemma OneThreadInside(moves: seq<Move>, states: seq<State>, i: nat, t: Thread, u: Thread)
    requires IsRun(moves, states) && i < |states|
    requires At(states[i], t).open > 0 && At(states[i], u).open > 0
    ensures t == u && states[i].owner == Thread(t)
  {
    DepthCountsGuards(moves, states, i, t);
    DepthCountsGuards(moves, states, i, u);
  }

  predicate TouchesDepth(pc: Pc) {
    pc.ReadToAdd? || pc.WriteAdd? || pc.WriteOne? || pc.ReadToDrop? || pc.WriteDrop?
  }

  /** Only the owner reads or writes the depth, so two threads are never at it together; and what the owner reads is
      its own number of open guards. */
  lemma OnlyTheOwnerTouchesDepth(moves: seq<Move>, states: seq<State>, i: nat, t: Thread)
    requires IsRun(moves, states) && i < |states| && TouchesDepth(At(states[i], t).pc)
    ensures states[i].owner == Thread(t) && states[i].depth == At(states[i], t).open
    ensures forall u :: u != t ==> !TouchesDepth(At(states[i], u).pc)
  {
    RunInv(moves, states, i);
    var s := states[i];
    assert if s.owner == Thread(t) then Holder(At(s, t), s.depth) else Stranger(At(s, t));
    forall u | u != t
      ensures !TouchesDepth(At(s, u).pc)
    {
      assert s.owner != Thread(u) ==> Stranger(At(s, u));
    }
  }

  /** While nobody owns the session the depth is 0 and no guard is open; while a thread owns it, the depth is the number
      of guards it has open. */
  lemma DepthCountsGuards(moves: seq<Move>, states: seq<State>, i: nat, t: Thread)
    requires IsRun(moves, states) && i < |states|
    ensures states[i].owner.Nobody? ==> states[i].depth == 0 && At(states[i], t).open == 0
    ensures states[i].owner == Thread(t) ==> states[i].depth == At(states[i], t).open
    ensures At(states[i], t).open > 0 ==> states[i].owner == Thread(t)
  {
    RunInv(moves, states, i);
    var s := states[i];
    assert if s.owner == Thread(t) then Holder(At(s, t), s.depth) else Stranger(At(s, t));
  }

  /** A thread is refused exactly when its exchange finds another thread the owner; the refusal changes neither shared
      word, and the refused thread has nothing open, before or after. */
  lemma RefusedIff(moves: seq<Move>, states: seq<State>, i: nat)
    requires IsRun(moves, states) && i < |moves| && IsMove(states[i], moves[i], states[i + 1])
    ensures var (s, t) := (states[i], moves[i].thread);
            Next(s, t, moves[i].step).1 <==>
            moves[i].step.Advance? && At(s, t).pc.Exchange? && exists u: Thread :: u != t && s.owner == Thread(u)
    ensures Next(states[i], moves[i].thread, moves[i].step).1 ==>
              states[i + 1].owner == states[i].owner && states[i + 1].depth == states[i].depth &&
              At(states[i], moves[i].thread).open == 0 && At(states[i + 1], moves[i].thread) == Local(Outside, 0)
  {
    RunInv(moves, states, i);
    var s, t := states[i], moves[i].thread;
    assert if s.owner == Thread(t) then Holder(At(s, t), s.depth) else Stranger(At(s, t));
    if At(s, t).pc.Exchange? && s.owner.Thread? {
      assert s.owner.id != t && s.owner == Thread(s.owner.id);
    }
  }

  /** A thread that is inside enters again without being refused: its load finds itself the owner. */
  lemma InsideReenters(moves: seq<Move>, states: seq<State>, i: nat)
    requires IsRun(moves, states) && i < |moves| && IsMove(states[i], moves[i], states[i + 1])
    requires moves[i].step.Advance?
    requires At(states[i], moves[i].thread).pc.Load? && At(states[i], moves[i].thread).open > 0
    ensures At(states[i + 1], moves[i].thread).pc.ReadToAdd?
  {
    DepthCountsGuards(moves, states, i, moves[i].thread);
  }

  /** Only the owner gives the session back, and only with its last guard: from the first guard to the last nobody else
      can become the owner. */
  lemma OwnerChanges(moves: seq<Move>, states: seq<State>, i: nat)
    requires IsRun(moves, states) && i < |moves| && IsMove(states[i], moves[i], states[i + 1])
    requires states[i + 1].owner != states[i].owner
    ensures (states[i].owner.Nobody? && states[i + 1].owner == Thread(moves[i].thread)) ||
            (states[i].owner == Thread(moves[i].thread) && states[i + 1].owner.Nobody? &&
             At(states[i], moves[i].thread) == Local(Release, 0))
  {
    RunInv(moves, states, i);
    var s, t := states[i], moves[i].thread;
    assert if s.owner == Thread(t) then Holder(At(s, t), s.depth) else Stranger(At(s, t));
  }

  // --- a thread that is left alone ------------------------------------------------------------------

  /** A thread outside that no other thread keeps out, alone for four steps, is inside with one more guard. */
  lemma EntersAlone(s: State, t: Thread)
    returns (load: State, swap: State, write: State, inside: State)
    requires Inv(s) && At(s, t).pc.Outside? && (s.owner.Nobody? || s.owner == Thread(t))
    ensures IsMove(s, Move(t, Enter), load) && IsMove(load, Move(t, Advance), swap)
    ensures IsMove(swap, Move(t, Advance), write) && IsMove(write, Move(t, Advance), inside)
    ensures inside.owner == Thread(t) && inside.depth == s.depth + 1
    ensures At(inside, t) == Local(Outside, At(s, t).open + 1)
    ensures forall u :: u != t ==> At(inside, u) == At(s, u)
  {
    assert if s.owner == Thread(t) then Holder(At(s, t), s.depth) else Stranger(At(s, t));
    load := Next(s, t, Enter).0;
    swap := Next(load, t, Advance).0;
    write := Next(swap, t, Advance).0;
    inside := Next(write, t, Advance).0;
  }

  /** A thread with guards open gives one back in three steps, and with its last the session, in one more. */
  lemma LeavesAlone(s: State, t: Thread) returns (read: State, write: State, left: State, free: State)
    requires Inv(s) && At(s, t).pc.Outside? && At(s, t).open > 0
    ensures IsMove(s, Move(t, Leave), read) && IsMove(read, Move(t, Advance), write)
    ensures IsMove(write, Move(t, Advance), left) && left.depth == s.depth - 1
    ensures At(s, t).open > 1 ==> left == free && left.owner == Thread(t)
    ensures At(s, t).open == 1 ==> IsMove(left, Move(t, Advance), free) && free.owner.Nobody? && free.depth == 0
    ensures At(free, t) == Local(Outside, At(s, t).open - 1) && forall u :: u != t ==> At(free, u) == At(s, u)
  {
    assert if s.owner == Thread(t) then Holder(At(s, t), s.depth) else Stranger(At(s, t));
    read := Next(s, t, Leave).0;
    write := Next(read, t, Advance).0;
    left := Next(write, t, Advance).0;
    free := if At(s, t).open == 1 then Next(left, t, Advance).0 else left;
  }
}
