/** What one side of a book stream sends, as a log, and what every such log promises (cpp/src/books.cpp). The sink's
    book is arbitrary to begin with, and arbitrary again after a send that failed. */
module BookLog {
  import opened Collections
  import opened BookSides

  /** How a send ended: taken by the sink, or failed, leaving the sink with any book at all. */
  datatype Sent = Taken | Failed(left: SideBook)

  /** What a call does to one side, with the side as the stream holds it from then on. The clock is the policy's: after
      the send for a whole side, and otherwise as it was when the call found that the side may wait. */
  datatype Event =
    | Whole(levels: seq<Level>, book: SideBook, at: int, sent: Sent, clock: real)
    | Changes(levels: seq<Level>, book: SideBook, at: int, sent: Sent, clock: real)
    | Unchanged(book: SideBook, at: int, clock: real)

  type Log = seq<Event>

  datatype Policy = Policy(full: bool, updates: nat, seconds: real, maxLevels: nat)

  predicate Good(e: Event) { e.Unchanged? || e.sent.Taken? }

  function Last(log: Log): Event
    requires log != []
  {
    log[|log| - 1]
  }

  function Front(log: Log): Log
    requires log != []
  {
    log[..|log| - 1]
  }

  // --- the protocol ---------------------------------------------------------------------------------

  /** The updates since the side last went out whole. */
  function SinceWhole(log: Log): nat {
    if log == [] || Last(log).Whole? then 0 else SinceWhole(Front(log)) + 1
  }

  /** The policy's clock when the side last went out whole. */
  function WholeAt(log: Log): real {
    if log == [] then 0.0 else if Last(log).Whole? then Last(log).clock else WholeAt(Front(log))
  }

  /** The best levels of a side that an engine of this depth keeps. */
  function Top(side: Side, policy: Policy, book: SideBook): seq<Level> {
    var levels := LevelsOf(side, book);
    if |levels| > policy.maxLevels then levels[..policy.maxLevels] else levels
  }

  /** The side may stay as it is or go out as changes: the sink is known to hold what was sent before, and the
      policy still allows it. */
  ghost predicate MayWait(policy: Policy, log: Log, clock: real) {
    !policy.full && log != [] && Good(Last(log)) && (policy.updates != 0 ==> SinceWhole(log) < policy.updates) &&
    (policy.seconds != 0.0 ==> clock - WholeAt(log) < policy.seconds)
  }

  /** What the stream may log next. */
  ghost predicate Permitted(side: Side, policy: Policy, log: Log, e: Event) {
    Positive(e.book) && (log != [] ==> Last(log).at <= e.at) &&
    match e
    case Whole(levels, book, _, _, _) => levels == Top(side, policy, book)
    case Changes(levels, book, _, _, clock) =>
      MayWait(policy, log, clock) && levels != [] && |levels| <= policy.maxLevels && |levels| <= |book| &&
      RemovalsFirst(levels) && book == ApplyAll(Last(log).book, levels)
    case Unchanged(book, _, clock) => MayWait(policy, log, clock) && book == Last(log).book
  }

  ghost predicate Disciplined(side: Side, policy: Policy, log: Log) {
    log != [] ==> Disciplined(side, policy, Front(log)) && Permitted(side, policy, Front(log), Last(log))
  }

  lemma DisciplinedSnoc(side: Side, policy: Policy, log: Log, e: Event)
    requires Disciplined(side, policy, log) && Permitted(side, policy, log, e)
    ensures Disciplined(side, policy, log + [e])
  {
    assert Front(log + [e]) == log;
  }

  lemma {:induction false} DisciplinedPrefix(side: Side, policy: Policy, log: Log, i: nat)
    requires Disciplined(side, policy, log) && i <= |log|
    ensures Disciplined(side, policy, log[..i])
    ensures i < |log| ==> Permitted(side, policy, log[..i], log[i])
  {
    if i == |log| {
      assert log[..i] == log;
    } else if i < |log| - 1 {
      DisciplinedPrefix(side, policy, Front(log), i);
      assert Front(log)[..i] == log[..i];
    }
  }

  // --- the sink -------------------------------------------------------------------------------------

  function Receive(engine: SideBook, e: Event): SideBook {
    match e
    case Whole(levels, _, _, Taken, _) => ApplyAll(map[], levels)
    case Changes(levels, _, _, Taken, _) => ApplyAll(engine, levels)
    case Whole(_, _, _, Failed(left), _) => left
    case Changes(_, _, _, Failed(left), _) => left
    case Unchanged(_, _, _) => engine
  }

  /** The sink's book after the log, from whatever it held at first. */
  function Replay(held: SideBook, log: Log): SideBook {
    if log == [] then held else Receive(Replay(held, Front(log)), Last(log))
  }

  /** The prices that the last whole message left out and no change has named since. */
  function Lacking(log: Log): set<int> {
    if log == [] then {}
    else match Last(log)
      case Whole(levels, book, _, _, _) => book.Keys - Named(levels)
      case Changes(levels, _, _, _, _) => Lacking(Front(log)) - Named(levels)
      case Unchanged(_, _, _) => Lacking(Front(log))
  }

  /** Whether the last whole message was cut to the depth of the engine. */
  function Cut(log: Log): bool {
    if log == [] then false
    else match Last(log)
      case Whole(levels, book, _, _, _) => |levels| < |book|
      case _ => Cut(Front(log))
  }

  /** The levels of a book that fit: they stand in the book, in the side's order, and every price left out is worse. */
  ghost predicate IsTop(side: Side, most: nat, book: SideBook, levels: seq<Level>) {
    |levels| == (if |book| <= most then |book| else most) &&
    (forall i :: 0 <= i < |levels| ==>
       levels[i].price in book && book[levels[i].price] == Amount(levels[i].quantity, levels[i].orderCount)) &&
    (forall i, j :: 0 <= i < j < |levels| ==>
       (side == Bid ==> levels[i].price > levels[j].price) && (side == Ask ==> levels[i].price < levels[j].price)) &&
    forall p, i :: p in book && p !in Named(levels) && 0 <= i < |levels| ==>
      (side == Bid ==> p < levels[i].price) && (side == Ask ==> p > levels[i].price)
  }

  lemma CutIsWorse(side: Side, ps: seq<int>, n: nat, p: int, i: nat)
    requires InOrder(side, ps) && i < n <= |ps| && p in ps && p !in ps[..n]
    ensures (side == Bid ==> p < ps[i]) && (side == Ask ==> p > ps[i])
  {
    var j :| 0 <= j < |ps| && ps[j] == p;
    if j < n {
      assert false;
    }
  }

  lemma ListedIsTop(side: Side, most: nat, book: SideBook, ps: seq<int>, n: nat)
    requires InOrder(side, ps) && Held(ps, book) && AsSet(ps) == book.Keys && |ps| == |book|
    requires n == if |book| <= most then |book| else most
    ensures Held(ps[..n], book) && IsTop(side, most, book, Listed(ps[..n], book))
  {
    var sent := ps[..n];
    var levels := Listed(sent, book);
    NamedListed(sent, book);
    forall p, i | p in book && p !in Named(levels) && 0 <= i < |levels|
      ensures (side == Bid ==> p < levels[i].price) && (side == Ask ==> p > levels[i].price)
    {
      assert p in AsSet(ps) && p !in AsSet(sent);
      CutIsWorse(side, ps, n, p, i);
    }
  }

  lemma PrefixOfListed(ps: seq<int>, book: SideBook, n: nat)
    requires Held(ps, book) && n <= |ps|
    ensures Held(ps[..n], book) && Listed(ps, book)[..n] == Listed(ps[..n], book)
  {
  }

  /** A whole message, replayed, is the side without the prices left out. */
  lemma TopReplays(side: Side, policy: Policy, book: SideBook)
    requires Positive(book)
    ensures ApplyAll(map[], Top(side, policy, book)) == book - (book.Keys - Named(Top(side, policy, book)))
    ensures |Top(side, policy, book)| == |book| ==> book.Keys == Named(Top(side, policy, book))
  {
    var sent := TopPrices(side, policy, book);
    PositiveSets(sent, book);
    ApplyListed(map[], sent, book);
    NamedListed(sent, book);
    PartWithout(book, AsSet(sent));
  }

  lemma TopListed(side: Side, policy: Policy, book: SideBook, n: nat)
    requires n == if |book| <= policy.maxLevels then |book| else policy.maxLevels
    ensures Held(Prices(side, book.Keys)[..n], book)
    ensures Top(side, policy, book) == Listed(Prices(side, book.Keys)[..n], book)
    ensures |Prices(side, book.Keys)| == |book|
  {
    var ps := Prices(side, book.Keys);
    assert |ps| == |book.Keys| == |book|;
    PrefixOfListed(ps, book, n);
    if n == |ps| {
      assert ps[..n] == ps;
    }
  }

  /** A whole message is the best levels of the side, as many as fit. */
  lemma TopIsTop(side: Side, policy: Policy, book: SideBook)
    ensures IsTop(side, policy.maxLevels, book, Top(side, policy, book))
  {
    var n := if |book| <= policy.maxLevels then |book| else policy.maxLevels;
    TopListed(side, policy, book, n);
    PricesBestFirst(side, book.Keys);
    ListedIsTop(side, policy.maxLevels, book, Prices(side, book.Keys), n);
  }

  lemma TopPrices(side: Side, policy: Policy, book: SideBook) returns (sent: seq<int>)
    ensures Held(sent, book) && Top(side, policy, book) == Listed(sent, book)
    ensures |sent| == |book| ==> AsSet(sent) == book.Keys
  {
    var n := if |book| <= policy.maxLevels then |book| else policy.maxLevels;
    TopListed(side, policy, book, n);
    sent := Prices(side, book.Keys)[..n];
    if n == |book| {
      assert sent == Prices(side, book.Keys);
    }
  }

  lemma NamedListed(ps: seq<int>, book: SideBook)
    requires Held(ps, book)
    ensures Named(Listed(ps, book)) == AsSet(ps)
  {
    NamedOrdered([], ps, book);
    assert Removals([]) + Listed(ps, book) == Listed(ps, book);
    var none: seq<int> := [];
    assert AsSet(none) == {};
  }

  lemma PartWithout(book: SideBook, keep: set<int>)
    ensures map[] + Part(book, keep) == book - (book.Keys - keep)
  {
  }

  /** Whenever the sink is known to have taken the last message, replaying everything gives the stream's own side
      without the prices the last whole message left out and no change has named since. */
  lemma {:induction false} ReplayMatches(side: Side, policy: Policy, held: SideBook, log: Log)
    requires Disciplined(side, policy, log) && log != [] && Good(Last(log))
    ensures Replay(held, log) == Last(log).book - Lacking(log)
    ensures Lacking(log) <= Last(log).book.Keys
  {
    var front := Front(log);
    match Last(log)
    case Whole(levels, book, _, _, _) =>
      TopReplays(side, policy, book);
    case Changes(levels, book, _, _, _) =>
      ReplayMatches(side, policy, held, front);
      ApplyToLess(Last(front).book, Lacking(front), levels);
      UnnamedStay(Last(front).book, levels);
    case Unchanged(_, _, _) =>
      ReplayMatches(side, policy, held, front);
  }

  lemma {:induction false} UnnamedStay(book: SideBook, levels: seq<Level>)
    ensures book.Keys - Named(levels) <= ApplyAll(book, levels).Keys
  {
    if levels != [] {
      var n := |levels| - 1;
      UnnamedStay(book, levels[..n]);
      NamedSnoc(levels[..n], levels[n]);
      assert levels == levels[..n] + [levels[n]];
    }
  }

  /** So the sink's book is the stream's exactly when nothing is lacking. */
  lemma SameBookIff(side: Side, policy: Policy, held: SideBook, log: Log)
    requires Disciplined(side, policy, log) && log != [] && Good(Last(log))
    ensures Replay(held, log) == Last(log).book <==> Lacking(log) == {}
  {
    ReplayMatches(side, policy, held, log);
    var book := Last(log).book;
    WithoutIff(book, Lacking(log));
  }

  lemma WithoutIff(book: SideBook, lacking: set<int>)
    requires lacking <= book.Keys
    ensures book - lacking == book <==> lacking == {}
  {
    if lacking != {} {
      var p := SomeOf(lacking);
      assert p in book && p !in book - lacking;
    }
  }

  lemma {:induction false} UncutLacksNothing(side: Side, policy: Policy, log: Log)
    requires Disciplined(side, policy, log) && !Cut(log)
    ensures Lacking(log) == {}
  {
    if log != [] {
      match Last(log)
      case Whole(levels, book, _, _, _) =>
        TopReplays(side, policy, book);
      case _ =>
        UncutLacksNothing(side, policy, Front(log));
    }
  }

  /** If the last whole message was not cut, the sink holds the stream's side. */
  lemma ReplayIsTheBook(side: Side, policy: Policy, held: SideBook, log: Log)
    requires Disciplined(side, policy, log) && log != [] && Good(Last(log)) && !Cut(log)
    ensures Replay(held, log) == Last(log).book
  {
    UncutLacksNothing(side, policy, log);
    SameBookIff(side, policy, held, log);
  }

  // --- depth ----------------------------------------------------------------------------------------

  /** No side the stream held was deeper than the engine. */
  ghost predicate Fits(policy: Policy, log: Log) {
    forall i :: 0 <= i < |log| ==> |log[i].book| <= policy.maxLevels
  }

  /** A log whose sides fit is never cut: this is every log of a stream that only takes whole sides. */
  lemma {:induction false} FittingIsUncut(side: Side, policy: Policy, log: Log)
    requires Disciplined(side, policy, log) && Fits(policy, log)
    ensures !Cut(log)
  {
    if log != [] {
      FittingIsUncut(side, policy, Front(log));
    }
  }

  /** No message is longer than the engine is deep. */
  lemma MessagesFit(side: Side, policy: Policy, log: Log, i: nat)
    requires Disciplined(side, policy, log) && i < |log| && !log[i].Unchanged?
    ensures |log[i].levels| <= policy.maxLevels
  {
    DisciplinedPrefix(side, policy, log, i);
  }

  /** Where the sink starts with the i-th message: a whole side starts over, changes start from what it holds. */
  function Start(held: SideBook, log: Log, i: nat): SideBook
    requires i < |log|
  {
    if log[i].Whole? then map[] else Replay(held, log[..i])
  }

  /** While the stream's sides fit, an engine that applies each message one level at a time never holds more prices
      than it keeps. */
  lemma NeverOverflows(side: Side, policy: Policy, held: SideBook, log: Log, i: nat, k: nat)
    requires Disciplined(side, policy, log) && Fits(policy, log)
    requires i < |log| && !log[i].Unchanged? && k <= |log[i].levels|
    ensures |ApplyAll(Start(held, log, i), log[i].levels[..k])| <= policy.maxLevels
  {
    DisciplinedPrefix(side, policy, log, i);
    var before, levels := log[..i], log[i].levels;
    if log[i].Whole? {
      AtMostAsManyPrices(levels[..k]);
    } else {
      FittingIsUncut(side, policy, before);
      ReplayIsTheBook(side, policy, held, before);
      assert Last(before) == log[i - 1];
      assert |log[i - 1].book| <= policy.maxLevels && |log[i].book| <= policy.maxLevels;
      RemovalsFirstNeverOverflows(Last(before).book, levels, k);
    }
  }

  // --- times, whole messages, the resync policy ------------------------------------------------------

  /** The times of a side never go back. */
  lemma {:induction false} TimesNeverDecrease(side: Side, policy: Policy, log: Log, i: nat, j: nat)
    requires Disciplined(side, policy, log) && i <= j < |log|
    ensures log[i].at <= log[j].at
  {
    if i < j {
      DisciplinedPrefix(side, policy, log, j);
      assert Last(log[..j]) == log[j - 1];
      TimesNeverDecrease(side, policy, log, i, j - 1);
    }
  }

  /** Between w and i nothing was sent whole, and everything from w on was taken. */
  ghost predicate Unbroken(log: Log, w: nat, i: nat) {
    w < i <= |log| && log[w].Whole? &&
    (forall j :: w <= j < i ==> Good(log[j])) && (forall j :: w < j < i ==> !log[j].Whole?)
  }

  lemma RestsOnAGood(side: Side, policy: Policy, log: Log, i: nat)
    requires Disciplined(side, policy, log) && i < |log| && !log[i].Whole?
    ensures i > 0 && Good(log[i - 1])
  {
    DisciplinedPrefix(side, policy, log, i);
    assert Last(log[..i]) == log[i - 1];
  }

  /** Anything but a whole message rests on a whole message that was taken, with no failure since: so the first
      message is whole, and so is the first after any failure. */
  lemma {:induction false} RestsOnAWhole(side: Side, policy: Policy, log: Log, i: nat) returns (w: nat)
    requires Disciplined(side, policy, log) && i < |log| && !log[i].Whole?
    ensures Unbroken(log, w, i)
  {
    RestsOnAGood(side, policy, log, i);
    if log[i - 1].Whole? {
      w := i - 1;
    } else {
      w := RestsOnAWhole(side, policy, log, i - 1);
    }
  }

  /** The updates, the clock and the cut are those of the last whole message. */
  lemma {:induction false} SinceLastWhole(log: Log, w: nat)
    requires w < |log| && log[w].Whole? && forall j :: w < j < |log| ==> !log[j].Whole?
    ensures SinceWhole(log) == |log| - 1 - w && WholeAt(log) == log[w].clock
    ensures Cut(log) <==> |log[w].levels| < |log[w].book|
  {
    if w < |log| - 1 {
      SinceLastWhole(Front(log), w);
    }
  }

  /** With a bound on seconds, anything but a whole message was found allowable less than the bound after the whole
      message it rests on was taken; and a full stream sends nothing else. */
  lemma WholeWithinSeconds(side: Side, policy: Policy, log: Log, i: nat) returns (w: nat)
    requires Disciplined(side, policy, log) && i < |log| && !log[i].Whole?
    ensures Unbroken(log, w, i) && !policy.full
    ensures policy.seconds != 0.0 ==> log[i].clock - log[w].clock < policy.seconds
  {
    w := RestsOnAWhole(side, policy, log, i);
    DisciplinedPrefix(side, policy, log, i);
    SinceLastWhole(log[..i], w);
  }

  lemma {:induction false} SinceWholeBound(side: Side, policy: Policy, log: Log)
    requires Disciplined(side, policy, log) && policy.updates != 0
    ensures SinceWhole(log) <= policy.updates
  {
  }

  lemma {:induction false} NoWholeInWindow(log: Log, n: nat)
    requires n <= |log| && forall j :: |log| - n <= j < |log| ==> !log[j].Whole?
    ensures SinceWhole(log) >= n
  {
    if n > 0 {
      NoWholeInWindow(Front(log), n - 1);
    }
  }

  /** With a bound on updates, any run of one more event than the bound holds a whole message. */
  lemma WholeWithinBound(side: Side, policy: Policy, log: Log, i: nat) returns (w: nat)
    requires Disciplined(side, policy, log) && policy.updates != 0 && i + policy.updates < |log|
    ensures i <= w <= i + policy.updates && log[w].Whole?
  {
    if w0 :| i <= w0 <= i + policy.updates && log[w0].Whole? {
      w := w0;
    } else {
      var n := policy.updates + 1;
      var prefix := log[..i + n];
      DisciplinedPrefix(side, policy, log, i + n);
      SinceWholeBound(side, policy, prefix);
      assert forall j :: |prefix| - n <= j < |prefix| ==> prefix[j] == log[j];
      NoWholeInWindow(prefix, n);
      assert false;
    }
  }
}
