/** The book stream itself: its state, and the calls that change it, each shown to log only what the protocol of
    BookLog permits (cpp/src/books.cpp). Clocks and the sink are inputs of each call. */
module BookStreams {
  import opened Outcomes
  import opened BookSides
  import opened BookLog

  datatype SideState = SideState(
    book: SideBook, sentWhole: bool, unsure: bool, sinceWhole: int, wholeAt: real, lastNs: int)

  const OPENED := SideState(map[], false, false, 0, 0.0, -1)

  /** Something for each side. */
  datatype Pair<T> = Pair(bid: T, ask: T) {
    function Of(side: Side): T { if side == Bid then bid else ask }
    function Set(side: Side, x: T): Pair<T> { if side == Bid then this.(bid := x) else this.(ask := x) }
  }

  /** What the world answers during a send: the wall clock, the policy clock before and after, and the sink. */
  datatype World = World(wallNs: int, clock: real, clockAfter: real, sent: Sent)

  datatype Result = Done | Refusal | SinkFailed

  function Opposite(side: Side): Side { if side == Bid then Ask else Bid }

  function Max(a: int, b: int): int { if a >= b then a else b }

  // --- stamp and due --------------------------------------------------------------------------------

  datatype Time = Given(ns: int) | Now

  /** A given time is refused when it is negative or before the last one. */
  predicate TimeRefused(last: int, t: Time) { t.Given? && (t.ns < 0 || t.ns < last) }

  function Stamp(last: int, t: Time, wallNs: int): (at: int)
    requires !TimeRefused(last, t)
    ensures at >= last
  {
    if t.Given? then t.ns else Max(wallNs, last)
  }

  predicate Due(policy: Policy, s: SideState, clock: real) {
    !s.sentWhole || s.unsure || (policy.updates != 0 && s.sinceWhole >= policy.updates) ||
    (policy.seconds != 0.0 && clock - s.wholeAt >= policy.seconds)
  }

  // --- the state is what the log says ---------------------------------------------------------------

  /** The state of a side, given all it has logged. */
  ghost predicate Agrees(side: Side, policy: Policy, s: SideState, log: Log) {
    Disciplined(side, policy, log) && Positive(s.book) && if log == [] then s == OPENED else Follows(s, log)
  }

  /** The state that the last event leaves. */
  ghost predicate Follows(s: SideState, log: Log)
    requires log != []
  {
    var e := Last(log);
    s.book == e.book && s.lastNs == e.at && s.unsure == !Good(e) &&
    (!s.unsure ==> s.sentWhole && s.sinceWhole == SinceWhole(log) && s.wholeAt == WholeAt(log))
  }

  function AfterWhole(s: SideState, now: SideBook, at: int, w: World): SideState {
    if w.sent.Taken? then s.(book := now, lastNs := at, unsure := false, sentWhole := true, sinceWhole := 0,
                             wholeAt := w.clockAfter)
    else s.(book := now, lastNs := at, unsure := true)
  }

  function AfterChanges(s: SideState, now: SideBook, none: bool, at: int, w: World): SideState {
    s.(book := now, lastNs := at, sinceWhole := s.sinceWhole + 1, unsure := s.unsure || (!none && w.sent.Failed?))
  }

  lemma FollowsWhole(s: SideState, log: Log, e: Event, w: World)
    requires e.Whole? && e.sent == w.sent && e.clock == w.clockAfter
    ensures Follows(AfterWhole(s, e.book, e.at, w), log + [e])
  {
  }

  lemma FollowsChanges(s: SideState, log: Log, levels: seq<Level>, now: SideBook, at: int, w: World)
    requires s.sentWhole && !s.unsure && s.sinceWhole == SinceWhole(log) && s.wholeAt == WholeAt(log)
    ensures Follows(AfterChanges(s, now, levels == [], at, w), log + [ChangeEvent(levels, now, at, w)])
  {
    assert Front(log + [ChangeEvent(levels, now, at, w)]) == log;
  }

  lemma WholeAgrees(side: Side, policy: Policy, s: SideState, log: Log, now: SideBook, at: int, w: World)
    requires Agrees(side, policy, s, log) && Positive(now) && at >= s.lastNs
    ensures Agrees(side, policy, AfterWhole(s, now, at, w),
                   log + [Whole(Top(side, policy, now), now, at, w.sent, w.clockAfter)])
  {
    var e := Whole(Top(side, policy, now), now, at, w.sent, w.clockAfter);
    DisciplinedSnoc(side, policy, log, e);
    FollowsWhole(s, log, e, w);
  }

  /** What the side logs when it does not go out whole. */
  function ChangeEvent(levels: seq<Level>, now: SideBook, at: int, w: World): Event {
    if levels == [] then Unchanged(now, at, w.clock) else Changes(levels, now, at, w.sent, w.clock)
  }

  lemma ChangesAgree(side: Side, policy: Policy, s: SideState, log: Log, levels: seq<Level>, now: SideBook, at: int,
                     w: World)
    requires Agrees(side, policy, s, log) && Positive(now) && at >= s.lastNs
    requires !policy.full && !Due(policy, s, w.clock)
    requires |levels| <= policy.maxLevels && |levels| <= |now|
    requires RemovalsFirst(levels) && now == ApplyAll(s.book, levels)
    ensures Agrees(side, policy, AfterChanges(s, now, levels == [], at, w),
                   log + [ChangeEvent(levels, now, at, w)])
  {
    var e := ChangeEvent(levels, now, at, w);
    DisciplinedSnoc(side, policy, log, e);
    FollowsChanges(s, log, levels, now, at, w);
  }

  function Logged(logs: Pair<Log>, side: Side, e: Event): Pair<Log> { logs.Set(side, logs.Of(side) + [e]) }

  /** The whole state of a stream, given all that both sides have logged. */
  ghost predicate Consistent(policy: Policy, sides: Pair<SideState>, logs: Pair<Log>) {
    Agrees(Bid, policy, sides.bid, logs.bid) && Agrees(Ask, policy, sides.ask, logs.ask)
  }

  lemma Stepped(policy: Policy, sides: Pair<SideState>, logs: Pair<Log>, side: Side, s: SideState, e: Event)
    requires Consistent(policy, sides, logs) && Agrees(side, policy, s, logs.Of(side) + [e])
    ensures Consistent(policy, sides.Set(side, s), Logged(logs, side, e))
  {
  }

  /** What the side logs when it goes out whole. */
  function WholeEvent(side: Side, policy: Policy, now: SideBook, at: int, w: World): Event {
    Whole(Top(side, policy, now), now, at, w.sent, w.clockAfter)
  }

  lemma ChangesPositive(book: SideBook, levels: seq<Level>)
    requires Positive(book) && forall i :: 0 <= i < |levels| ==> levels[i].quantity >= 0
    ensures Positive(ApplyAll(book, levels))
  {
    if levels != [] {
      ChangesPositive(book, levels[..|levels| - 1]);
    }
  }

  lemma WholeStep(policy: Policy, sides: Pair<SideState>, logs: Pair<Log>, side: Side, now: SideBook, at: int, w: World)
    requires Consistent(policy, sides, logs) && Positive(now) && at >= sides.Of(side).lastNs
    ensures Consistent(policy, sides.Set(side, AfterWhole(sides.Of(side), now, at, w)),
                       Logged(logs, side, WholeEvent(side, policy, now, at, w)))
  {
    var s := sides.Of(side);
    WholeAgrees(side, policy, s, logs.Of(side), now, at, w);
    Stepped(policy, sides, logs, side, AfterWhole(s, now, at, w), WholeEvent(side, policy, now, at, w));
  }

  lemma ChangesStep(policy: Policy, sides: Pair<SideState>, logs: Pair<Log>, side: Side,
                    levels: seq<Level>, now: SideBook, at: int, w: World)
    requires Consistent(policy, sides, logs) && Positive(now) && at >= sides.Of(side).lastNs
    requires !policy.full && !Due(policy, sides.Of(side), w.clock)
    requires |levels| <= policy.maxLevels && |levels| <= |now|
    requires RemovalsFirst(levels) && now == ApplyAll(sides.Of(side).book, levels)
    ensures Consistent(policy, sides.Set(side, AfterChanges(sides.Of(side), now, levels == [], at, w)),
                       Logged(logs, side, ChangeEvent(levels, now, at, w)))
  {
    var s := sides.Of(side);
    ChangesAgree(side, policy, s, logs.Of(side), levels, now, at, w);
    Stepped(policy, sides, logs, side, AfterChanges(s, now, levels == [], at, w),
            ChangeEvent(levels, now, at, w));
  }

  lemma AgreeingFits(side: Side, policy: Policy, s: SideState, log: Log)
    requires Agrees(side, policy, s, log) && Fits(policy, log)
    ensures |s.book| <= policy.maxLevels
  {
  }

  /** Whenever a side has been sent whole and is not unsure, the sink holds the stream's side without the prices that
      the last whole message left out and no change has named since; all of it, if that message was not cut. */
  lemma SinkHoldsTheSide(side: Side, policy: Policy, s: SideState, log: Log, held: SideBook)
    requires Agrees(side, policy, s, log) && s.sentWhole && !s.unsure
    ensures Replay(held, log) == s.book - Lacking(log)
    ensures Replay(held, log) == s.book <==> Lacking(log) == {}
    ensures !Cut(log) ==> Replay(held, log) == s.book
    ensures Fits(policy, log) ==> Replay(held, log) == s.book
  {
    ReplayMatches(side, policy, held, log);
    SameBookIff(side, policy, held, log);
    if Fits(policy, log) {
      FittingIsUncut(side, policy, log);
    }
    if !Cut(log) {
      ReplayIsTheBook(side, policy, held, log);
    }
  }

  lemma FitsSnoc(policy: Policy, logs: Pair<Log>, side: Side, e: Event)
    ensures |e.book| <= policy.maxLevels && Fits(policy, logs.bid) && Fits(policy, logs.ask) ==>
            Fits(policy, Logged(logs, side, e).bid) && Fits(policy, Logged(logs, side, e).ask)
  {
  }

  /** What changes that name each price once make of a book: each price they name is set or taken out, and every other
      price is as it was. */
  ghost predicate ChangedTo(book: SideBook, changes: seq<Level>, now: SideBook) {
    (forall i :: 0 <= i < |changes| ==>
       (changes[i].price in now <==> changes[i].quantity != 0) &&
       (changes[i].quantity != 0 ==>
          now[changes[i].price] == Amount(changes[i].quantity, changes[i].orderCount))) &&
    forall p :: p !in Named(changes) ==> (p in now <==> p in book) && (p in book ==> now[p] == book[p])
  }

  lemma EachChanges(book: SideBook, changes: seq<Level>)
    requires CleanChanges(changes)
    ensures ChangedTo(book, changes, ApplyAll(book, changes))
  {
    forall i | 0 <= i < |changes|
      ensures
        var l, now := changes[i], ApplyAll(book, changes);
        (l.price in now <==> l.quantity != 0) && (l.quantity != 0 ==> now[l.price] == Amount(l.quantity, l.orderCount))
    {
      LastDecides(book, changes, i);
    }
    forall p | p !in Named(changes)
      ensures
        var now := ApplyAll(book, changes);
        (p in now <==> p in book) && (p in book ==> now[p] == book[p])
    {
      forall i | 0 <= i < |changes|
        ensures changes[i].price != p
      {
        assert changes[i].price in Named(changes);
      }
      UnnamedKeeps(book, changes, p);
    }
  }

  /** The fields of a side that goes out whole; what the sink answers decides the last of them. */
  method SentWhole(before: SideState, now: SideBook, at: int, w: World) returns (s: SideState, r: Result)
    ensures s == AfterWhole(before, now, at, w) && r == if w.sent.Taken? then Done else SinkFailed
  {
    s := before.(book := now, lastNs := at);
    if w.sent.Failed? {
      return s.(unsure := true), SinkFailed;
    }
    return s.(unsure := false, sentWhole := true, sinceWhole := 0, wholeAt := w.clockAfter), Done;
  }

  method SentChanges(before: SideState, now: SideBook, none: bool, at: int, w: World)
    returns (s: SideState, r: Result)
    ensures s == AfterChanges(before, now, none, at, w) && r == if none || w.sent.Taken? then Done else SinkFailed
  {
    s := before.(book := now, lastNs := at, sinceWhole := before.sinceWhole + 1);
    if none {
      return s, Done;
    }
    if w.sent.Failed? {
      return s.(unsure := true), SinkFailed;
    }
    return s, Done;
  }

  // --- the stream -----------------------------------------------------------------------------------

  class BookStream {
    const policy: Policy
    var sides: Pair<SideState>
    ghost var logs: Pair<Log>

    ghost predicate Valid()
      reads this
    {
      Consistent(policy, sides, logs)
    }

    /** No side the stream held was deeper than the engine: so it is until an apply makes a side deeper. */
    ghost predicate FitSoFar()
      reads this
    {
      Fits(policy, logs.bid) && Fits(policy, logs.ask)
    }

    constructor (policy: Policy)
      ensures Valid() && FitSoFar() && this.policy == policy
      ensures sides.bid == sides.ask == SideState(map[], false, false, 0, 0.0, -1) && logs == Pair([], [])
    {
      this.policy := policy;
      sides, logs := Pair(OPENED, OPENED), Pair([], []);
    }

    /** send_whole */
    method SendWhole(side: Side, now: SideBook, at: int, w: World) returns (r: Result)
      requires Valid() && Positive(now) && at >= sides.Of(side).lastNs
      modifies this
      ensures Valid()
      ensures
        var s := if w.sent.Taken? then SideState(now, true, false, 0, w.clockAfter, at)
                 else old(sides).Of(side).(book := now, lastNs := at, unsure := true);
        sides == old(sides).Set(side, s)
      ensures
        var e := Whole(Top(side, policy, now), now, at, w.sent, w.clockAfter);
        logs == old(logs).Set(side, old(logs).Of(side) + [e])
      ensures r == if w.sent.Taken? then Done else SinkFailed
    {
      WholeStep(policy, sides, logs, side, now, at, w);
      var levels := TopLevels(side, policy, now);
      var s;
      s, r := SentWhole(sides.Of(side), now, at, w);
      sides, logs := sides.Set(side, s), Logged(logs, side, WholeEvent(side, policy, now, at, w));
    }

    /** send_changes */
    method SendChanges(side: Side, now: SideBook, levels: seq<Level>, at: int, w: World) returns (r: Result)
      requires Valid() && Positive(now) && at >= sides.Of(side).lastNs
      requires !policy.full && !Due(policy, sides.Of(side), w.clock)
      requires |levels| <= policy.maxLevels && |levels| <= |now|
      requires RemovalsFirst(levels) && now == ApplyAll(sides.Of(side).book, levels)
      modifies this
      ensures Valid()
      ensures
        var was := old(sides).Of(side);
        sides == old(sides).Set(side, was.(book := now, lastNs := at, sinceWhole := was.sinceWhole + 1,
                                           unsure := levels != [] && w.sent.Failed?))
      ensures
        var e := if levels == [] then Unchanged(now, at, w.clock) else Changes(levels, now, at, w.sent, w.clock);
        logs == old(logs).Set(side, old(logs).Of(side) + [e])
      ensures r == if levels == [] || w.sent.Taken? then Done else SinkFailed
    {
      ChangesStep(policy, sides, logs, side, levels, now, at, w);
      var s;
      s, r := SentChanges(sides.Of(side), now, levels == [], at, w);
      sides, logs := sides.Set(side, s), Logged(logs, side, ChangeEvent(levels, now, at, w));
    }

    /** A side goes out whole, or else as these levels. */
    method Send(side: Side, whole: bool, now: SideBook, levels: seq<Level>, at: int, w: World) returns (r: Result)
      requires Valid() && Positive(now) && at >= sides.Of(side).lastNs
      requires !whole ==>
        !policy.full && !Due(policy, sides.Of(side), w.clock) && |levels| <= policy.maxLevels && |levels| <= |now| &&
        RemovalsFirst(levels) && now == ApplyAll(sides.Of(side).book, levels)
      modifies this
      ensures Valid()
      ensures sides.Of(side).book == now && sides.Of(side).lastNs == at
      ensures !whole && levels == [] ==>
        var was, s := old(sides).Of(side), sides.Of(side);
        r == Done && s == was.(book := s.book, lastNs := s.lastNs, sinceWhole := was.sinceWhole + 1) &&
        logs.Of(side) == old(logs).Of(side) + [Unchanged(s.book, s.lastNs, w.clock)]
      ensures !whole && levels != [] ==>
        var was, s := old(sides).Of(side), sides.Of(side);
        r == (if w.sent.Taken? then Done else SinkFailed) &&
        s == was.(book := s.book, lastNs := s.lastNs, sinceWhole := was.sinceWhole + 1, unsure := w.sent.Failed?) &&
        logs.Of(side) == old(logs).Of(side) + [Changes(levels, s.book, s.lastNs, w.sent, w.clock)]
      ensures whole ==>
        var was, s := old(sides).Of(side), sides.Of(side);
        r == (if w.sent.Taken? then Done else SinkFailed) &&
        s == (if w.sent.Taken? then SideState(s.book, true, false, 0, w.clockAfter, s.lastNs)
              else was.(book := s.book, lastNs := s.lastNs, unsure := true)) &&
        logs.Of(side) ==
        old(logs).Of(side) + [Whole(Top(side, policy, s.book), s.book, s.lastNs, w.sent, w.clockAfter)]
      ensures sides.Of(Opposite(side)) == old(sides).Of(Opposite(side))
      ensures logs.Of(Opposite(side)) == old(logs).Of(Opposite(side))
      ensures |now| <= policy.maxLevels ==> old(FitSoFar()) ==> FitSoFar()
    {
      FitsSnoc(policy, logs, side,
               if whole then WholeEvent(side, policy, now, at, w) else ChangeEvent(levels, now, at, w));
      if whole {
        r := SendWhole(side, now, at, w);
      } else {
        r := SendChanges(side, now, levels, at, w);
      }
    }

    /** update: the side is refused, and nothing is sent, or it becomes the stream's side. It may wait if the stream is
        not full, the sink is known to hold the side before, neither resync bound is reached, and the difference is no
        longer than the side: then the difference goes out, if there is any; otherwise the side goes out whole. Updates
        alone keep every side within the engine's depth. */
    method Update(side: Side, levels: seq<Level>, t: Time, w: World)
      returns (r: Result, ghost d: seq<Level>, ghost waits: bool)
      requires Valid()
      modifies this
      ensures Valid()
      ensures r != Refusal <==>
        (forall i :: 0 <= i < |levels| ==> levels[i].quantity > 0 && levels[i].orderCount >= 0) &&
        (forall i, j :: 0 <= i < j < |levels| ==> levels[i].price != levels[j].price) &&
        |levels| <= policy.maxLevels && (t.Given? ==> t.ns >= 0 && t.ns >= old(sides).Of(side).lastNs)
      ensures r == Refusal ==> sides == old(sides) && logs == old(logs)
      ensures r != Refusal ==>
        var was, s := old(sides).Of(side), sides.Of(side);
        s.book == ApplyAll(map[], levels) && Indexes(s.book, levels) && |s.book| == |levels| &&
        s.lastNs == match t case Given(ns) => ns case Now => if w.wallNs >= was.lastNs then w.wallNs else was.lastNs
      ensures r != Refusal ==> d == Difference(side, old(sides).Of(side).book, sides.Of(side).book)
      ensures r != Refusal ==>
        (waits <==>
         var was := old(sides).Of(side);
         !policy.full && was.sentWhole && !was.unsure && (policy.updates == 0 || was.sinceWhole < policy.updates) &&
         (policy.seconds == 0.0 || w.clock - was.wholeAt < policy.seconds) && |d| <= |sides.Of(side).book|)
      ensures r != Refusal && waits && d == [] ==>
        var was, s := old(sides).Of(side), sides.Of(side);
        r == Done && s == was.(book := s.book, lastNs := s.lastNs, sinceWhole := was.sinceWhole + 1) &&
        logs.Of(side) == old(logs).Of(side) + [Unchanged(s.book, s.lastNs, w.clock)]
      ensures r != Refusal && waits && d != [] ==>
        var was, s := old(sides).Of(side), sides.Of(side);
        r == (if w.sent.Taken? then Done else SinkFailed) &&
        s == was.(book := s.book, lastNs := s.lastNs, sinceWhole := was.sinceWhole + 1, unsure := w.sent.Failed?) &&
        logs.Of(side) == old(logs).Of(side) + [Changes(d, s.book, s.lastNs, w.sent, w.clock)]
      ensures r != Refusal && !waits ==>
        var was, s := old(sides).Of(side), sides.Of(side);
        r == (if w.sent.Taken? then Done else SinkFailed) &&
        s == (if w.sent.Taken? then SideState(s.book, true, false, 0, w.clockAfter, s.lastNs)
              else was.(book := s.book, lastNs := s.lastNs, unsure := true)) &&
        logs.Of(side) ==
        old(logs).Of(side) + [Whole(Top(side, policy, s.book), s.book, s.lastNs, w.sent, w.clockAfter)]
      ensures sides.Of(Opposite(side)) == old(sides).Of(Opposite(side))
      ensures logs.Of(Opposite(side)) == old(logs).Of(Opposite(side))
      ensures old(FitSoFar()) ==> FitSoFar()
    {
      d, waits := [], false;
      var taken, at := TakenSide(sides.Of(side).lastNs, policy, levels, t, w.wallNs);
      if taken.Refused? {
        r := Refusal;
        return;
      }
      r, d, waits := UpdateTo(side, taken.value, at, w);
    }

    method UpdateTo(side: Side, now: SideBook, at: int, w: World)
      returns (r: Result, ghost d: seq<Level>, ghost waits: bool)
      requires Valid() && Positive(now) && |now| <= policy.maxLevels && at >= sides.Of(side).lastNs
      modifies this
      ensures Valid() && r != Refusal
      ensures sides.Of(side).book == now && sides.Of(side).lastNs == at
      ensures d == Difference(side, old(sides).Of(side).book, now)
      ensures waits <==>
        var was := old(sides).Of(side);
        !policy.full && was.sentWhole && !was.unsure && (policy.updates == 0 || was.sinceWhole < policy.updates) &&
        (policy.seconds == 0.0 || w.clock - was.wholeAt < policy.seconds) && |d| <= |sides.Of(side).book|
      ensures waits && d == [] ==>
        var was, s := old(sides).Of(side), sides.Of(side);
        r == Done && s == was.(book := s.book, lastNs := s.lastNs, sinceWhole := was.sinceWhole + 1) &&
        logs.Of(side) == old(logs).Of(side) + [Unchanged(s.book, s.lastNs, w.clock)]
      ensures waits && d != [] ==>
        var was, s := old(sides).Of(side), sides.Of(side);
        r == (if w.sent.Taken? then Done else SinkFailed) &&
        s == was.(book := s.book, lastNs := s.lastNs, sinceWhole := was.sinceWhole + 1, unsure := w.sent.Failed?) &&
        logs.Of(side) == old(logs).Of(side) + [Changes(d, s.book, s.lastNs, w.sent, w.clock)]
      ensures !waits ==>
        var was, s := old(sides).Of(side), sides.Of(side);
        r == (if w.sent.Taken? then Done else SinkFailed) &&
        s == (if w.sent.Taken? then SideState(s.book, true, false, 0, w.clockAfter, s.lastNs)
              else was.(book := s.book, lastNs := s.lastNs, unsure := true)) &&
        logs.Of(side) ==
        old(logs).Of(side) + [Whole(Top(side, policy, s.book), s.book, s.lastNs, w.sent, w.clockAfter)]
      ensures sides.Of(Opposite(side)) == old(sides).Of(Opposite(side))
      ensures logs.Of(Opposite(side)) == old(logs).Of(Opposite(side))
      ensures old(FitSoFar()) ==> FitSoFar()
    {
      var was := sides.Of(side).book;
      var whole := policy.full || Due(policy, sides.Of(side), w.clock);
      var changes := TwoPasses(side, was, now);
      whole := whole || |changes| > |now|;
      DifferenceApplies(side, was, now);
      DifferenceRemovesFirst(side, was, now);
      r := Send(side, whole, now, changes, at, w);
      d, waits := changes, !whole;
    }

    /** apply: the changes are refused, or they change the stream's side, price by price. They go out as they are,
        removals first, if the sink is known to hold the side before, neither resync bound is reached, and they are no
        more than the side and than a message holds; otherwise the side goes out whole. */
    method Apply(side: Side, changes: seq<Level>, t: Time, w: World)
      returns (r: Result, ghost ordered: seq<Level>, ghost waits: bool)
      requires Valid()
      modifies this
      ensures Valid()
      ensures r != Refusal <==>
        !policy.full &&
        (forall i :: 0 <= i < |changes| ==> changes[i].quantity >= 0 && changes[i].orderCount >= 0) &&
        (forall i, j :: 0 <= i < j < |changes| ==> changes[i].price != changes[j].price) &&
        (t.Given? ==> t.ns >= 0 && t.ns >= old(sides).Of(side).lastNs)
      ensures r == Refusal ==> sides == old(sides) && logs == old(logs)
      ensures r != Refusal ==> Reordered(side, changes, ordered) && Named(ordered) == Named(changes)
      ensures r != Refusal ==>
        var was, s := old(sides).Of(side), sides.Of(side);
        s.book == ApplyAll(was.book, changes) == ApplyAll(was.book, ordered) &&
        ChangedTo(was.book, changes, s.book) &&
        s.lastNs == match t case Given(ns) => ns case Now => if w.wallNs >= was.lastNs then w.wallNs else was.lastNs
      ensures r != Refusal ==>
        (waits <==>
         var was := old(sides).Of(side);
         was.sentWhole && !was.unsure && (policy.updates == 0 || was.sinceWhole < policy.updates) &&
         (policy.seconds == 0.0 || w.clock - was.wholeAt < policy.seconds) && |ordered| <= |sides.Of(side).book| &&
         |ordered| <= policy.maxLevels)
      ensures r != Refusal && waits && ordered == [] ==>
        var was, s := old(sides).Of(side), sides.Of(side);
        r == Done && s == was.(book := s.book, lastNs := s.lastNs, sinceWhole := was.sinceWhole + 1) &&
        logs.Of(side) == old(logs).Of(side) + [Unchanged(s.book, s.lastNs, w.clock)]
      ensures r != Refusal && waits && ordered != [] ==>
        var was, s := old(sides).Of(side), sides.Of(side);
        r == (if w.sent.Taken? then Done else SinkFailed) &&
        s == was.(book := s.book, lastNs := s.lastNs, sinceWhole := was.sinceWhole + 1, unsure := w.sent.Failed?) &&
        logs.Of(side) == old(logs).Of(side) + [Changes(ordered, s.book, s.lastNs, w.sent, w.clock)]
      ensures r != Refusal && !waits ==>
        var was, s := old(sides).Of(side), sides.Of(side);
        r == (if w.sent.Taken? then Done else SinkFailed) &&
        s == (if w.sent.Taken? then SideState(s.book, true, false, 0, w.clockAfter, s.lastNs)
              else was.(book := s.book, lastNs := s.lastNs, unsure := true)) &&
        logs.Of(side) ==
        old(logs).Of(side) + [Whole(Top(side, policy, s.book), s.book, s.lastNs, w.sent, w.clockAfter)]
      ensures sides.Of(Opposite(side)) == old(sides).Of(Opposite(side))
      ensures logs.Of(Opposite(side)) == old(logs).Of(Opposite(side))
    {
      ordered, waits := [], false;
      var taken, at := TakenChanges(sides.Of(side), side, policy, changes, t, w.wallNs);
      if taken.Refused? {
        r := Refusal;
        return;
      }
      ordered := taken.value;
      r, waits := ApplyOrdered(side, taken.value, at, w);
    }

    method ApplyOrdered(side: Side, ordered: seq<Level>, at: int, w: World) returns (r: Result, ghost waits: bool)
      requires Valid() && !policy.full && RemovalsFirst(ordered) && at >= sides.Of(side).lastNs
      requires Positive(ApplyAll(sides.Of(side).book, ordered))
      modifies this
      ensures Valid() && r != Refusal
      ensures sides.Of(side).book == ApplyAll(old(sides).Of(side).book, ordered) && sides.Of(side).lastNs == at
      ensures waits <==>
        var was := old(sides).Of(side);
        was.sentWhole && !was.unsure && (policy.updates == 0 || was.sinceWhole < policy.updates) &&
        (policy.seconds == 0.0 || w.clock - was.wholeAt < policy.seconds) && |ordered| <= |sides.Of(side).book| &&
        |ordered| <= policy.maxLevels
      ensures waits && ordered == [] ==>
        var was, s := old(sides).Of(side), sides.Of(side);
        r == Done && s == was.(book := s.book, lastNs := s.lastNs, sinceWhole := was.sinceWhole + 1) &&
        logs.Of(side) == old(logs).Of(side) + [Unchanged(s.book, s.lastNs, w.clock)]
      ensures waits && ordered != [] ==>
        var was, s := old(sides).Of(side), sides.Of(side);
        r == (if w.sent.Taken? then Done else SinkFailed) &&
        s == was.(book := s.book, lastNs := s.lastNs, sinceWhole := was.sinceWhole + 1, unsure := w.sent.Failed?) &&
        logs.Of(side) == old(logs).Of(side) + [Changes(ordered, s.book, s.lastNs, w.sent, w.clock)]
      ensures !waits ==>
        var was, s := old(sides).Of(side), sides.Of(side);
        r == (if w.sent.Taken? then Done else SinkFailed) &&
        s == (if w.sent.Taken? then SideState(s.book, true, false, 0, w.clockAfter, s.lastNs)
              else was.(book := s.book, lastNs := s.lastNs, unsure := true)) &&
        logs.Of(side) ==
        old(logs).Of(side) + [Whole(Top(side, policy, s.book), s.book, s.lastNs, w.sent, w.clockAfter)]
      ensures sides.Of(Opposite(side)) == old(sides).Of(Opposite(side))
      ensures logs.Of(Opposite(side)) == old(logs).Of(Opposite(side))
    {
      var now := AppliedTo(sides.Of(side).book, ordered);
      var whole := Due(policy, sides.Of(side), w.clock) || |ordered| > |now| || |ordered| > policy.maxLevels;
      r := Send(side, whole, now, ordered, at, w);
      waits := !whole;
    }

    /** The time of a resync: the last time of the side unless one is given or there is none. */
    function ResyncTime(side: Side, t: Time, wallNs: int): (at: int)
      requires !ResyncRefused(side, t)
      reads this
    {
      var s := sides.Of(side);
      if t.Now? && s.lastNs >= 0 then s.lastNs else Stamp(s.lastNs, t, wallNs)
    }

    predicate ResyncRefused(side: Side, t: Time)
      reads this
    {
      !(t.Now? && sides.Of(side).lastNs >= 0) && TimeRefused(sides.Of(side).lastNs, t)
    }

    /** A side goes out whole as the stream holds it. */
    method ResendSide(side: Side, at: int, w: World) returns (r: Result)
      requires Valid() && at >= sides.Of(side).lastNs
      modifies this
      ensures Valid()
      ensures
        var was := old(sides).Of(side);
        var s := if w.sent.Taken? then SideState(was.book, true, false, 0, w.clockAfter, at)
                 else was.(lastNs := at, unsure := true);
        sides == old(sides).Set(side, s)
      ensures
        var now := old(sides).Of(side).book;
        var e := Whole(Top(side, policy, now), now, at, w.sent, w.clockAfter);
        logs == old(logs).Set(side, old(logs).Of(side) + [e])
      ensures r == if w.sent.Taken? then Done else SinkFailed
      ensures old(FitSoFar()) ==> FitSoFar()
    {
      if FitSoFar() {
        AgreeingFits(side, policy, sides.Of(side), logs.Of(side));
      }
      r := SendWhole(side, sides.Of(side).book, at, w);
    }

    /** resync of one side: it goes out whole as the stream holds it, at the time given, or at the last time of the side
        when none is, or by the wall clock when there is no last time either. */
    method ResyncSide(side: Side, t: Time, w: World) returns (r: Result, ghost at: int)
      requires Valid()
      modifies this
      ensures Valid()
      ensures r != Refusal <==> t.Given? ==> t.ns >= 0 && t.ns >= old(sides).Of(side).lastNs
      ensures r == Refusal ==> sides == old(sides) && logs == old(logs)
      ensures r != Refusal ==>
        var last := old(sides).Of(side).lastNs;
        at == match t case Given(ns) => ns case Now => if last >= 0 || last >= w.wallNs then last else w.wallNs
      ensures r != Refusal ==>
        var was := old(sides).Of(side);
        r == (if w.sent.Taken? then Done else SinkFailed) &&
        sides.Of(side) == if w.sent.Taken? then SideState(was.book, true, false, 0, w.clockAfter, at)
                          else was.(lastNs := at, unsure := true)
      ensures r != Refusal ==>
        var now := old(sides).Of(side).book;
        logs.Of(side) == old(logs).Of(side) + [Whole(Top(side, policy, now), now, at, w.sent, w.clockAfter)]
      ensures sides.Of(Opposite(side)) == old(sides).Of(Opposite(side))
      ensures logs.Of(Opposite(side)) == old(logs).Of(Opposite(side))
      ensures r != Refusal ==> old(FitSoFar()) ==> FitSoFar()
    {
      at := 0;
      if ResyncRefused(side, t) {
        r := Refusal;
        return;
      }
      var stamp := ResyncTime(side, t, w.wallNs);
      at := stamp;
      r := ResendSide(side, Max(sides.Of(side).lastNs, stamp), w);
    }

    /** resync of both sides: a refusal for either sends nothing for both; the asks stay as they are when the sink fails
        for the bids. */
    method ResyncBoth(t: Time, wb: World, wa: World) returns (r: Result, ghost bidAt: int, ghost askAt: int)
      requires Valid()
      modifies this
      ensures Valid()
      ensures r != Refusal <==>
        t.Given? ==> t.ns >= 0 && t.ns >= old(sides).bid.lastNs && t.ns >= old(sides).ask.lastNs
      ensures r == Refusal ==> sides == old(sides) && logs == old(logs)
      ensures r != Refusal ==>
        var last := old(sides).bid.lastNs;
        bidAt == match t case Given(ns) => ns case Now => if last >= 0 || last >= wb.wallNs then last else wb.wallNs
      ensures r != Refusal ==>
        var last := old(sides).ask.lastNs;
        askAt == match t case Given(ns) => ns case Now => if last >= 0 || last >= wa.wallNs then last else wa.wallNs
      ensures r != Refusal ==>
        var bid := old(sides).bid;
        sides.bid == (if wb.sent.Taken? then SideState(bid.book, true, false, 0, wb.clockAfter, bidAt)
                      else bid.(lastNs := bidAt, unsure := true)) &&
        logs.bid ==
        old(logs).bid + [Whole(Top(Bid, policy, bid.book), bid.book, bidAt, wb.sent, wb.clockAfter)]
      ensures r != Refusal && wb.sent.Failed? ==>
        r == SinkFailed && sides.ask == old(sides).ask && logs.ask == old(logs).ask
      ensures r != Refusal && wb.sent.Taken? ==>
        var ask := old(sides).ask;
        r == (if wa.sent.Taken? then Done else SinkFailed) &&
        sides.ask == (if wa.sent.Taken? then SideState(ask.book, true, false, 0, wa.clockAfter, askAt)
                      else ask.(lastNs := askAt, unsure := true)) &&
        logs.ask ==
        old(logs).ask + [Whole(Top(Ask, policy, ask.book), ask.book, askAt, wa.sent, wa.clockAfter)]
      ensures r != Refusal ==> old(FitSoFar()) ==> FitSoFar()
    {
      bidAt, askAt := 0, 0;
      if ResyncRefused(Bid, t) || ResyncRefused(Ask, t) {
        r := Refusal;
        return;
      }
      var bidStamp, askStamp := ResyncTime(Bid, t, wb.wallNs), ResyncTime(Ask, t, wa.wallNs);
      bidAt, askAt := bidStamp, askStamp;
      r := ResendSide(Bid, Max(sides.bid.lastNs, bidStamp), wb);
      if r == SinkFailed {
        return;
      }
      r := ResendSide(Ask, Max(sides.ask.lastNs, askStamp), wa);
    }
  }

  /** The side of an update and its time, or the refusal. */
  method TakenSide(last: int, policy: Policy, levels: seq<Level>, t: Time, wallNs: int)
    returns (taken: Outcome<SideBook>, at: int)
    ensures taken.Accepted? <==>
      (forall i :: 0 <= i < |levels| ==> levels[i].quantity > 0 && levels[i].orderCount >= 0) &&
      (forall i, j :: 0 <= i < j < |levels| ==> levels[i].price != levels[j].price) &&
      |levels| <= policy.maxLevels && (t.Given? ==> t.ns >= 0 && t.ns >= last)
    ensures taken.Accepted? ==>
      taken.value == ApplyAll(map[], levels) && Indexes(taken.value, levels) && |taken.value| == |levels| &&
      Positive(taken.value) &&
      at == match t case Given(ns) => ns case Now => if wallNs >= last then wallNs else last
  {
    at := last;
    taken := WholeSide(levels);
    if taken.Accepted? && (|taken.value| > policy.maxLevels || TimeRefused(last, t)) {
      taken := Refused;
    }
    if taken.Accepted? {
      at := Stamp(last, t, wallNs);
    }
  }

  /** The changes of an apply in order and their time, or the refusal. */
  method TakenChanges(was: SideState, side: Side, policy: Policy, changes: seq<Level>, t: Time, wallNs: int)
    returns (taken: Outcome<seq<Level>>, at: int)
    requires Positive(was.book)
    ensures taken.Accepted? <==>
      !policy.full &&
      (forall i :: 0 <= i < |changes| ==> changes[i].quantity >= 0 && changes[i].orderCount >= 0) &&
      (forall i, j :: 0 <= i < j < |changes| ==> changes[i].price != changes[j].price) &&
      (t.Given? ==> t.ns >= 0 && t.ns >= was.lastNs)
    ensures taken.Accepted? ==>
      Reordered(side, changes, taken.value) && Named(taken.value) == Named(changes) && RemovalsFirst(taken.value) &&
      ApplyAll(was.book, taken.value) == ApplyAll(was.book, changes) && Positive(ApplyAll(was.book, changes)) &&
      ChangedTo(was.book, changes, ApplyAll(was.book, changes)) &&
      at == match t case Given(ns) => ns case Now => if wallNs >= was.lastNs then wallNs else was.lastNs
  {
    at, taken := was.lastNs, Refused;
    if !policy.full {
      taken := OrderedFor(side, was.book, changes);
    }
    if taken.Accepted? && TimeRefused(was.lastNs, t) {
      taken := Refused;
    }
    if taken.Accepted? {
      at := Stamp(was.lastNs, t, wallNs);
    }
  }

  method OrderedFor(side: Side, book: SideBook, changes: seq<Level>) returns (r: Outcome<seq<Level>>)
    requires Positive(book)
    ensures r.Accepted? <==>
      (forall i :: 0 <= i < |changes| ==> changes[i].quantity >= 0 && changes[i].orderCount >= 0) &&
      forall i, j :: 0 <= i < j < |changes| ==> changes[i].price != changes[j].price
    ensures r.Accepted? ==>
      Reordered(side, changes, r.value) && Named(r.value) == Named(changes) && RemovalsFirst(r.value) &&
      ApplyAll(book, r.value) == ApplyAll(book, changes) && Positive(ApplyAll(book, changes)) &&
      ChangedTo(book, changes, ApplyAll(book, changes))
  {
    var put, seen := OrderedChanges(side, changes);
    if put.Accepted? {
      OrderedApplies(side, book, changes, seen);
      ChangesPositive(book, changes);
      EachChanges(book, changes);
    }
    return put;
  }

  /** The message of a whole side: no more levels than the engine keeps. */
  method TopLevels(side: Side, policy: Policy, now: SideBook) returns (levels: seq<Level>)
    ensures levels == Top(side, policy, now)
  {
    levels := LevelsOf(side, now);
    if |levels| > policy.maxLevels {
      levels := levels[..policy.maxLevels];
    }
  }

  /** The changes made to the stream's own side, in order. */
  method AppliedTo(book: SideBook, levels: seq<Level>) returns (now: SideBook)
    ensures now == ApplyAll(book, levels)
  {
    now := book;
    for i := 0 to |levels|
      invariant now == ApplyAll(book, levels[..i])
    {
      assert levels[..i + 1][..i] == levels[..i];
      if levels[i].quantity == 0 {
        now := now - {levels[i].price};
      } else {
        now := now[levels[i].price := Amount(levels[i].quantity, levels[i].orderCount)];
      }
    }
    assert levels[..|levels|] == levels;
  }
}
