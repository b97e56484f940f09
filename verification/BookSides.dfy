/** One side of an order book: its levels best first, the difference of two sides, and changes put in order
    (cpp/src/books.cpp). */
module BookSides {
  import opened Collections
  import opened Outcomes

  datatype Side = Bid | Ask

  datatype Level = Level(price: int, quantity: int, orderCount: int)

  datatype Amount = Amount(quantity: int, orderCount: int)

  /** The prices of one side, each with what stands there. */
  type SideBook = map<int, Amount>

  /** A higher bid is better, and a lower ask. */
  predicate Better(side: Side, p: int, q: int) { if side == Bid then p > q else p < q }

  predicate IsBest(side: Side, keys: set<int>, best: int) {
    best in keys && forall q :: q in keys ==> !Better(side, q, best)
  }

  lemma {:induction false} BestExists(side: Side, keys: set<int>)
    requires keys != {}
    ensures exists best :: IsBest(side, keys, best)
  {
    var best := SomeOf(keys);
    var rest := keys - {best};
    assert forall q :: q in keys ==> q == best || q in rest;
    if rest != {} {
      BestExists(side, rest);
      var other :| IsBest(side, rest, other);
      if Better(side, other, best) {
        best := other;
      }
    }
    assert IsBest(side, keys, best);
  }

  function Best(side: Side, keys: set<int>): (best: int)
    requires keys != {}
    ensures IsBest(side, keys, best)
  {
    BestExists(side, keys);
    var best :| best in keys && IsBest(side, keys, best);
    best
  }

  /** best_first: the better of two prices comes earlier. */
  function Prices(side: Side, keys: set<int>): (ps: seq<int>)
    ensures |ps| == |keys|
    ensures AsSet(ps) == keys
    ensures forall i :: 0 <= i < |ps| ==> ps[i] in keys
    decreases keys
  {
    if keys == {} then []
    else
      var best := Best(side, keys);
      var rest := Prices(side, keys - {best});
      AsSetCons(best, rest);
      assert keys == {best} + (keys - {best});
      [best] + rest
  }

  lemma SetOfAll(ps: seq<int>, n: nat)
    requires |ps| == n + 1
    ensures AsSet(ps) == AsSet(ps[..n]) + {ps[n]}
  {
    AsSetSnoc(ps[..n], ps[n]);
    assert ps == ps[..n] + [ps[n]];
  }

  /** The part of a book at some prices. */
  function Part(book: SideBook, prices: set<int>): SideBook { map p | p in book && p in prices :: book[p] }

  lemma PartMore(before: SideBook, book: SideBook, prices: set<int>, p: int)
    requires p in book
    ensures (before + Part(book, prices))[p := book[p]] == before + Part(book, prices + {p})
  {
  }

  /** Each price once, best first. */
  predicate BestFirst(side: Side, ps: seq<int>) {
    forall i, j :: 0 <= i < j < |ps| ==> Better(side, ps[i], ps[j])
  }

  /** Bids from the highest price down, asks from the lowest up. */
  predicate InOrder(side: Side, ps: seq<int>) {
    forall i, j :: 0 <= i < j < |ps| ==> (side == Bid ==> ps[i] > ps[j]) && (side == Ask ==> ps[i] < ps[j])
  }

  lemma {:induction false} PricesBestFirst(side: Side, keys: set<int>)
    ensures BestFirst(side, Prices(side, keys))
    ensures InOrder(side, Prices(side, keys))
    decreases keys
  {
    if keys != {} {
      var best := Best(side, keys);
      PricesBestFirst(side, keys - {best});
      var rest := Prices(side, keys - {best});
      forall j | 0 <= j < |rest|
        ensures Better(side, best, rest[j])
      {
        assert rest[j] in keys - {best};
      }
      BestFirstCons(side, best, rest);
    }
  }

  lemma BestFirstCons(side: Side, best: int, rest: seq<int>)
    requires BestFirst(side, rest) && forall j :: 0 <= j < |rest| ==> Better(side, best, rest[j])
    ensures BestFirst(side, [best] + rest)
  {
  }

  /** best_first over a std::map that skips some prices: the same as best_first over the prices it keeps. */
  lemma {:induction false} SameOrder(side: Side, ps: seq<int>, keys: set<int>)
    requires BestFirst(side, ps) && AsSet(ps) == keys
    ensures ps == Prices(side, keys)
  {
    if ps != [] {
      BestIsHead(side, ps, keys);
      TailPrices(side, ps);
      SameOrder(side, ps[1..], keys - {ps[0]});
      PricesStart(side, keys, ps[0]);
      assert ps == [ps[0]] + ps[1..];
    }
  }

  lemma {:induction false} PricesStart(side: Side, keys: set<int>, best: int)
    requires keys != {} && best == Best(side, keys)
    ensures Prices(side, keys) == [best] + Prices(side, keys - {best})
  {
  }

  lemma {:induction false} BestIsHead(side: Side, ps: seq<int>, keys: set<int>)
    requires BestFirst(side, ps) && AsSet(ps) == keys && ps != []
    ensures keys != {} && Best(side, keys) == ps[0]
  {
    assert ps[0] in keys;
    HeadIsBest(side, ps, Best(side, keys));
  }

  lemma HeadIsBest(side: Side, ps: seq<int>, best: int)
    requires BestFirst(side, ps) && best in ps && !Better(side, ps[0], best)
    ensures ps[0] == best
  {
  }

  lemma TailPrices(side: Side, ps: seq<int>)
    requires BestFirst(side, ps) && ps != []
    ensures AsSet(ps[1..]) == AsSet(ps) - {ps[0]}
  {
    assert ps == [ps[0]] + ps[1..];
    assert forall j :: 1 <= j < |ps| ==> Better(side, ps[0], ps[j]);
  }

  /** levels_of */
  function LevelsOf(side: Side, book: SideBook): (levels: seq<Level>)
    ensures |levels| == |book|
  {
    Listed(Prices(side, book.Keys), book)
  }

  predicate Held(ps: seq<int>, book: SideBook) { forall i :: 0 <= i < |ps| ==> ps[i] in book }

  /** The levels of some prices of a book. */
  function Listed(ps: seq<int>, book: SideBook): (levels: seq<Level>)
    requires Held(ps, book)
    ensures |levels| == |ps|
    ensures forall i :: 0 <= i < |ps| ==> levels[i] == Level(ps[i], book[ps[i]].quantity, book[ps[i]].orderCount)
  {
    seq(|ps|, i requires 0 <= i < |ps| => Level(ps[i], book[ps[i]].quantity, book[ps[i]].orderCount))
  }

  // --- what an engine does with a message -----------------------------------------------------------

  /** A level replaces what is held at its price, or with nothing left there takes the price out. */
  function ApplyLevel(book: SideBook, level: Level): SideBook {
    if level.quantity == 0 then book - {level.price}
    else book[level.price := Amount(level.quantity, level.orderCount)]
  }

  function ApplyAll(book: SideBook, levels: seq<Level>): SideBook {
    if levels == [] then book else ApplyLevel(ApplyAll(book, levels[..|levels| - 1]), levels[|levels| - 1])
  }

  /** What a book has at a price no level names is what it had. */
  lemma {:induction false} UnnamedKeeps(book: SideBook, levels: seq<Level>, p: int)
    requires forall i :: 0 <= i < |levels| ==> levels[i].price != p
    ensures p in ApplyAll(book, levels) <==> p in book
    ensures p in book ==> ApplyAll(book, levels)[p] == book[p]
  {
    if levels != [] {
      UnnamedKeeps(book, levels[..|levels| - 1], p);
    }
  }

  /** The last level that names a price decides what the book has there. */
  lemma {:induction false} LastDecides(book: SideBook, levels: seq<Level>, i: nat)
    requires i < |levels| && forall j :: i < j < |levels| ==> levels[j].price != levels[i].price
    ensures levels[i].price in ApplyAll(book, levels) <==> levels[i].quantity != 0
    ensures levels[i].quantity != 0 ==>
            ApplyAll(book, levels)[levels[i].price] == Amount(levels[i].quantity, levels[i].orderCount)
  {
    if i < |levels| - 1 {
      LastDecides(book, levels[..|levels| - 1], i);
    }
  }

  lemma {:induction false} ApplyConcat(book: SideBook, a: seq<Level>, b: seq<Level>)
    ensures ApplyAll(book, a + b) == ApplyAll(ApplyAll(book, a), b)
  {
    if b == [] {
      assert a + b == a;
    } else {
      ApplyConcat(book, a, b[..|b| - 1]);
      assert (a + b)[..|a + b| - 1] == a + b[..|b| - 1];
    }
  }

  /** No price of the book has a quantity of 0, so that its levels set it rather than remove from it. */
  ghost predicate Positive(book: SideBook) {
    forall p :: p in book ==> book[p].quantity > 0
  }

  /** The levels of these prices set them. */
  ghost predicate Sets(ps: seq<int>, book: SideBook)
    requires Held(ps, book)
  {
    forall i :: 0 <= i < |ps| ==> book[ps[i]].quantity != 0
  }

  lemma PositiveSets(ps: seq<int>, book: SideBook)
    requires Held(ps, book) && Positive(book)
    ensures Sets(ps, book)
  {
    forall i | 0 <= i < |ps|
      ensures book[ps[i]].quantity != 0
    {
      var p := ps[i];
      assert p in book && book[p].quantity > 0;
    }
  }

  /** Sending the levels of some prices sets those prices and no other. */
  lemma {:induction false} ApplyListed(before: SideBook, ps: seq<int>, book: SideBook)
    requires Held(ps, book) && Sets(ps, book)
    ensures ApplyAll(before, Listed(ps, book)) == before + Part(book, AsSet(ps))
  {
    if ps == [] {
      assert Part(book, AsSet(ps)) == map[];
    } else {
      var n := |ps| - 1;
      ApplyListed(before, ps[..n], book);
      assert Listed(ps, book)[..n] == Listed(ps[..n], book);
      SetOfAll(ps, n);
      PartMore(before, book, AsSet(ps[..n]), ps[n]);
      assert Listed(ps, book)[n] == Level(ps[n], book[ps[n]].quantity, book[ps[n]].orderCount);
    }
  }

  /** A whole side, replayed, is the side. */
  lemma WholeRoundTrip(side: Side, book: SideBook)
    requires Positive(book)
    ensures ApplyAll(map[], LevelsOf(side, book)) == book
  {
    PositiveSets(Prices(side, book.Keys), book);
    ApplyListed(map[], Prices(side, book.Keys), book);
  }

  /** Removals of some prices. */
  function Removals(ps: seq<int>): (levels: seq<Level>)
    ensures |levels| == |ps| && forall i :: 0 <= i < |ps| ==> levels[i] == Level(ps[i], 0, 0)
  {
    seq(|ps|, i requires 0 <= i < |ps| => Level(ps[i], 0, 0))
  }

  lemma {:induction false} ApplyRemovals(before: SideBook, ps: seq<int>)
    ensures ApplyAll(before, Removals(ps)) == before - AsSet(ps)
  {
    if ps != [] {
      var n := |ps| - 1;
      ApplyRemovals(before, ps[..n]);
      assert Removals(ps)[..n] == Removals(ps[..n]);
      SetOfAll(ps, n);
    }
  }

  // --- difference -----------------------------------------------------------------------------------

  /** The prices that are lost. */
  function Gone(before: SideBook, after: SideBook): set<int> { before.Keys - after.Keys }

  /** The prices that are new, or whose quantity or count is. */
  function Changed(before: SideBook, after: SideBook): set<int> {
    set p | p in after && !(p in before && before[p] == after[p])
  }

  /** difference: first what has to go, then what has to be set, both in the side's order. */
  function Difference(side: Side, before: SideBook, after: SideBook): seq<Level> {
    Removals(Prices(side, Gone(before, after))) + Listed(Prices(side, Changed(before, after)), after)
  }

  lemma DifferenceFits(before: SideBook, after: SideBook)
    ensures (before - Gone(before, after)) + Part(after, Changed(before, after)) == after
  {
  }

  /** Applying the difference to the old side gives the new one. */
  lemma DifferenceApplies(side: Side, before: SideBook, after: SideBook)
    requires Positive(after)
    ensures ApplyAll(before, Difference(side, before, after)) == after
  {
    var gone, changed := Prices(side, Gone(before, after)), Prices(side, Changed(before, after));
    ApplyConcat(before, Removals(gone), Listed(changed, after));
    ApplyRemovals(before, gone);
    PositiveSets(changed, after);
    ApplyListed(before - Gone(before, after), changed, after);
    DifferenceFits(before, after);
  }

  /** An empty difference means the sides are the same. */
  lemma NoDifference(side: Side, before: SideBook, after: SideBook)
    requires Positive(after) && Difference(side, before, after) == []
    ensures before == after
  {
    DifferenceApplies(side, before, after);
  }

  /** Removals in front, the rest behind them, and each part in the side's order. */
  ghost predicate TwoParts(side: Side, levels: seq<Level>, k: nat) {
    k <= |levels| && (forall i :: 0 <= i < |levels| ==> (levels[i].quantity == 0 <==> i < k)) &&
    forall i, j :: 0 <= i < j < |levels| && (j < k || k <= i) ==>
      (side == Bid ==> levels[i].price > levels[j].price) && (side == Ask ==> levels[i].price < levels[j].price)
  }

  lemma PartsOf(side: Side, ps: seq<int>, qs: seq<int>, book: SideBook)
    requires Held(qs, book) && Sets(qs, book) && InOrder(side, ps) && InOrder(side, qs)
    ensures TwoParts(side, Removals(ps) + Listed(qs, book), |ps|)
  {
  }

  lemma InRemovals(ps: seq<int>, l: Level)
    ensures l in Removals(ps) <==> l.price in ps && l.quantity == 0 && l.orderCount == 0
  {
    if l.price in ps && l.quantity == 0 && l.orderCount == 0 {
      var i :| 0 <= i < |ps| && ps[i] == l.price;
      assert Removals(ps)[i] == l;
    }
  }

  lemma InListed(ps: seq<int>, book: SideBook, l: Level)
    requires Held(ps, book)
    ensures l in Listed(ps, book) <==> l.price in ps && book[l.price] == Amount(l.quantity, l.orderCount)
  {
    if l.price in ps && book[l.price] == Amount(l.quantity, l.orderCount) {
      var i :| 0 <= i < |ps| && ps[i] == l.price;
      assert Listed(ps, book)[i] == l;
    }
  }

  /** What the difference says of one level: a price that is lost is removed, a price that is new or not as it was is
      set, and nothing else is named. */
  lemma DifferenceSays(side: Side, before: SideBook, after: SideBook, l: Level)
    ensures l in Difference(side, before, after) <==>
            if l.price in after
            then after[l.price] == Amount(l.quantity, l.orderCount) &&
                 (l.price in before ==> before[l.price] != after[l.price])
            else l.price in before && l.quantity == 0 && l.orderCount == 0
  {
    var gone, changed := Prices(side, Gone(before, after)), Prices(side, Changed(before, after));
    InRemovals(gone, l);
    InListed(changed, after, l);
    assert l.price in gone <==> l.price in AsSet(gone);
    assert l.price in changed <==> l.price in AsSet(changed);
  }

  /** The difference lists its removals first and each part in the side's order. */
  lemma DifferenceInOrder(side: Side, before: SideBook, after: SideBook) returns (k: nat)
    requires Positive(after)
    ensures TwoParts(side, Difference(side, before, after), k)
  {
    var gone, changed := Prices(side, Gone(before, after)), Prices(side, Changed(before, after));
    PricesBestFirst(side, Gone(before, after));
    PricesBestFirst(side, Changed(before, after));
    PositiveSets(changed, after);
    PartsOf(side, gone, changed, after);
    k := |gone|;
  }

  lemma {:induction false} NamedAtMost(levels: seq<Level>)
    ensures |Named(levels)| <= |levels|
  {
    if levels != [] {
      var n := |levels| - 1;
      NamedAtMost(levels[..n]);
      NamedSnoc(levels[..n], levels[n]);
      assert levels == levels[..n] + [levels[n]];
    }
  }

  lemma MustName(before: SideBook, after: SideBook, levels: seq<Level>, p: int)
    requires ApplyAll(before, levels) == after && p in Gone(before, after) + Changed(before, after)
    ensures p in Named(levels)
  {
    if p !in Named(levels) {
      forall i | 0 <= i < |levels|
        ensures levels[i].price != p
      {
        assert levels[i].price in Named(levels);
      }
      UnnamedKeeps(before, levels, p);
      assert false;
    }
  }

  /** No levels that take the one side to the other are fewer than the difference. */
  lemma NothingShorter(side: Side, before: SideBook, after: SideBook, levels: seq<Level>)
    requires ApplyAll(before, levels) == after
    ensures |Difference(side, before, after)| <= |levels|
  {
    var gone, changed := Gone(before, after), Changed(before, after);
    forall p | p in gone + changed
      ensures p in Named(levels)
    {
      MustName(before, after, levels, p);
    }
    SubsetSize(gone + changed, Named(levels));
    NamedAtMost(levels);
    assert gone * changed == {};
    assert |gone + changed| == |gone| + |changed|;
  }

  lemma SizeLe<K, X>(a: map<K, X>, b: map<K, X>)
    requires a.Keys <= b.Keys
    ensures |a| <= |b|
  {
    SubsetSize(a.Keys, b.Keys);
    assert |a| == |a.Keys| && |b| == |b.Keys|;
  }

  // --- removals first -------------------------------------------------------------------------------

  /** No removal comes after a level that sets a price. */
  ghost predicate RemovalsFirst(levels: seq<Level>) {
    exists k: nat :: SplitAt(levels, k)
  }

  /** Removals up to k, and none from there on. */
  ghost predicate SplitAt(levels: seq<Level>, k: nat) {
    k <= |levels| && forall i :: 0 <= i < |levels| ==> (levels[i].quantity == 0 <==> i < k)
  }

  lemma {:induction false} RemovingShrinks(book: SideBook, levels: seq<Level>)
    requires forall i :: 0 <= i < |levels| ==> levels[i].quantity == 0
    ensures |ApplyAll(book, levels)| <= |book|
  {
    if levels != [] {
      var n := |levels| - 1;
      var head := ApplyAll(book, levels[..n]);
      RemovingShrinks(book, levels[..n]);
      SizeLe(head - {levels[n].price}, head);
    }
  }

  lemma {:induction false} SettingGrows(book: SideBook, levels: seq<Level>)
    requires forall i :: 0 <= i < |levels| ==> levels[i].quantity != 0
    ensures |book| <= |ApplyAll(book, levels)|
  {
    if levels != [] {
      var n := |levels| - 1;
      var head := ApplyAll(book, levels[..n]);
      SettingGrows(book, levels[..n]);
      SizeLe(head, ApplyAll(book, levels));
    }
  }

  /** However far an engine has got with a message, one level at a time, it holds no more prices than before the
      message or than after it, because the removals come first. */
  lemma RemovalsFirstNeverOverflows(before: SideBook, levels: seq<Level>, i: nat)
    requires RemovalsFirst(levels) && i <= |levels|
    ensures |ApplyAll(before, levels[..i])| <= |before| ||
            |ApplyAll(before, levels[..i])| <= |ApplyAll(before, levels)|
  {
    var k: nat :| SplitAt(levels, k);
    if i <= k {
      RemovingShrinks(before, levels[..i]);
    } else {
      assert levels == levels[..i] + levels[i..];
      ApplyConcat(before, levels[..i], levels[i..]);
      SettingGrows(ApplyAll(before, levels[..i]), levels[i..]);
    }
  }

  /** A message of n levels, replayed into an empty engine one level at a time, never holds more than n. */
  lemma {:induction false} AtMostAsManyPrices(levels: seq<Level>)
    ensures |ApplyAll(map[], levels)| <= |levels|
  {
    if levels != [] {
      var n := |levels| - 1;
      var head := ApplyAll(map[], levels[..n]);
      AtMostAsManyPrices(levels[..n]);
      var after := ApplyLevel(head, levels[n]);
      SubsetSize(after.Keys, head.Keys + {levels[n].price});
    }
  }

  lemma ListIsSplit(ps: seq<int>, qs: seq<int>, book: SideBook)
    requires Held(qs, book) && Sets(qs, book)
    ensures RemovalsFirst(Removals(ps) + Listed(qs, book))
  {
    assert SplitAt(Removals(ps) + Listed(qs, book), |ps|);
  }

  lemma DifferenceRemovesFirst(side: Side, before: SideBook, after: SideBook)
    requires Positive(after)
    ensures RemovalsFirst(Difference(side, before, after))
  {
    var gone, changed := Prices(side, Gone(before, after)), Prices(side, Changed(before, after));
    PositiveSets(changed, after);
    ListIsSplit(gone, changed, after);
  }

  // --- an engine that holds less --------------------------------------------------------------------

  /** The prices that a message names. */
  function Named(levels: seq<Level>): set<int> { set i | 0 <= i < |levels| :: levels[i].price }

  /** Changes repair every price they name: an engine that lacks some prices of the side goes on lacking only those
      the changes do not name. */
  lemma {:induction false} ApplyToLess(book: SideBook, lacking: set<int>, levels: seq<Level>)
    ensures ApplyAll(book - lacking, levels) == ApplyAll(book, levels) - (lacking - Named(levels))
  {
    if levels != [] {
      var n := |levels| - 1;
      ApplyToLess(book, lacking, levels[..n]);
      assert Named(levels) == Named(levels[..n]) + {levels[n].price};
    }
  }

  // --- whole_side -----------------------------------------------------------------------------------

  /** A whole side the stream takes: nothing negative, no quantity of 0, no price twice. */
  predicate CleanSide(levels: seq<Level>) {
    CleanChanges(levels) && NoRemoval(levels)
  }

  predicate NoRemoval(levels: seq<Level>) { forall i :: 0 <= i < |levels| ==> levels[i].quantity != 0 }

  /** Changes the stream takes: nothing negative, no price twice. */
  predicate CleanChanges(levels: seq<Level>) {
    (forall i :: 0 <= i < |levels| ==> levels[i].quantity >= 0 && levels[i].orderCount >= 0) &&
    forall i, j :: 0 <= i < j < |levels| ==> levels[i].price != levels[j].price
  }

  /** The levels by price. */
  ghost predicate Indexes(seen: SideBook, levels: seq<Level>) {
    seen.Keys == Named(levels) &&
    forall i :: 0 <= i < |levels| ==>
      levels[i].price in seen && seen[levels[i].price] == Amount(levels[i].quantity, levels[i].orderCount)
  }

  lemma NamedSnoc(levels: seq<Level>, l: Level)
    ensures Named(levels + [l]) == Named(levels) + {l.price}
  {
    var more := levels + [l];
    assert forall i :: 0 <= i < |levels| ==> more[i] == levels[i];
    assert more[|levels|] == l;
    forall p | p in Named(levels)
      ensures p in Named(more)
    {
      var i :| 0 <= i < |levels| && levels[i].price == p;
      assert more[i].price == p;
    }
  }

  lemma IndexMore(seen: SideBook, levels: seq<Level>, i: nat)
    requires i < |levels| && Indexes(seen, levels[..i]) && levels[i].price !in seen
    ensures Indexes(seen[levels[i].price := Amount(levels[i].quantity, levels[i].orderCount)], levels[..i + 1])
  {
    var l := levels[i];
    var more := seen[l.price := Amount(l.quantity, l.orderCount)];
    NamedSnoc(levels[..i], l);
    assert levels[..i + 1] == levels[..i] + [l];
  }

  lemma CleanMore(levels: seq<Level>, i: nat, seen: SideBook)
    requires i < |levels| && CleanChanges(levels[..i]) && Indexes(seen, levels[..i])
    ensures CleanChanges(levels[..i + 1]) <==>
            levels[i].quantity >= 0 && levels[i].orderCount >= 0 && levels[i].price !in seen
  {
    var more := levels[..i + 1];
    assert more[i] == levels[i];
    assert forall j :: 0 <= j < i ==> more[j] == levels[..i][j];
    if levels[i].price in seen {
      var j :| 0 <= j < i && levels[..i][j].price == levels[i].price;
      assert more[j].price == more[i].price;
    } else {
      assert forall j :: 0 <= j < i ==> more[j].price in seen;
    }
  }

  lemma CleanPrefix(levels: seq<Level>, i: nat)
    requires i <= |levels|
    ensures CleanChanges(levels) ==> CleanChanges(levels[..i])
  {
  }

  /** The first i levels are clean and spell this side. */
  ghost predicate Spells(levels: seq<Level>, i: nat, book: SideBook) {
    i <= |levels| && CleanSide(levels[..i]) && Indexes(book, levels[..i]) && Positive(book) && |book| == i &&
    book == ApplyAll(map[], levels[..i])
  }

  lemma NoRemovalMore(levels: seq<Level>, i: nat)
    requires i < |levels| && NoRemoval(levels[..i]) && levels[i].quantity != 0
    ensures NoRemoval(levels[..i + 1])
  {
    assert levels[..i + 1] == levels[..i] + [levels[i]];
  }

  lemma SpellsMore(levels: seq<Level>, i: nat, book: SideBook)
    requires i < |levels| && Spells(levels, i, book)
    requires levels[i].quantity > 0 && levels[i].orderCount >= 0 && levels[i].price !in book
    ensures Spells(levels, i + 1, book[levels[i].price := Amount(levels[i].quantity, levels[i].orderCount)])
  {
    CleanMore(levels, i, book);
    IndexMore(book, levels, i);
    NoRemovalMore(levels, i);
    ApplyMore(levels, i);
  }

  lemma {:induction false} ApplyMore(levels: seq<Level>, i: nat)
    requires i < |levels|
    ensures ApplyAll(map[], levels[..i + 1]) == ApplyLevel(ApplyAll(map[], levels[..i]), levels[i])
  {
    assert levels[..i + 1][..i] == levels[..i];
  }

  lemma SpellsNoMore(levels: seq<Level>, i: nat, book: SideBook)
    requires i < |levels| && Spells(levels, i, book)
    requires !(levels[i].quantity > 0 && levels[i].orderCount >= 0 && levels[i].price !in book)
    ensures !CleanSide(levels)
  {
    CleanMore(levels, i, book);
    CleanPrefix(levels, i + 1);
  }

  lemma CleanSideIs(levels: seq<Level>)
    ensures CleanSide(levels) <==>
      (forall i :: 0 <= i < |levels| ==> levels[i].quantity > 0 && levels[i].orderCount >= 0) &&
      forall i, j :: 0 <= i < j < |levels| ==> levels[i].price != levels[j].price
  {
  }

  /** whole_side: refused exactly when the side is not clean; otherwise the side the levels spell. */
  method WholeSide(levels: seq<Level>) returns (r: Outcome<SideBook>)
    ensures r.Accepted? <==> CleanSide(levels)
    ensures r.Accepted? <==>
      (forall i :: 0 <= i < |levels| ==> levels[i].quantity > 0 && levels[i].orderCount >= 0) &&
      forall i, j :: 0 <= i < j < |levels| ==> levels[i].price != levels[j].price
    ensures r.Accepted? ==> forall i :: 0 <= i < |levels| ==>
      levels[i].price in r.value && r.value[levels[i].price] == Amount(levels[i].quantity, levels[i].orderCount)
    ensures r.Accepted? ==>
      Indexes(r.value, levels) && Positive(r.value) && r.value == ApplyAll(map[], levels) &&
      |r.value| == |levels|
  {
    CleanSideIs(levels);
    var book: SideBook := map[];
    var i := 0;
    while i < |levels|
      invariant Spells(levels, i, book)
    {
      var level := levels[i];
      if level.quantity < 0 || level.orderCount < 0 || level.quantity == 0 || level.price in book {
        SpellsNoMore(levels, i, book);
        return Refused;
      }
      SpellsMore(levels, i, book);
      book := book[level.price := Amount(level.quantity, level.orderCount)];
      i := i + 1;
    }
    assert levels[..i] == levels;
    return Accepted(book);
  }

  // --- ordered_changes ------------------------------------------------------------------------------

  function Zeroes(seen: SideBook): set<int> { set p | p in seen && seen[p].quantity == 0 }

  /** The changes by price, removals first, each part best first. */
  function Ordered(side: Side, seen: SideBook): seq<Level> {
    Removals(Prices(side, Zeroes(seen))) + Listed(Prices(side, seen.Keys - Zeroes(seen)), seen)
  }

  lemma IndexLess(seen: SideBook, levels: seq<Level>, n: nat)
    requires |levels| == n + 1 && CleanChanges(levels) && Indexes(seen, levels)
    ensures Indexes(seen - {levels[n].price}, levels[..n])
  {
    NamedSnoc(levels[..n], levels[n]);
    assert levels == levels[..n] + [levels[n]];
    assert forall j :: 0 <= j < n ==> levels[..n][j] == levels[j];
    assert forall j :: 0 <= j < n ==> levels[j].price != levels[n].price;
  }

  lemma SeenMore(before: SideBook, seen: SideBook, l: Level)
    requires l.price in seen && seen[l.price] == Amount(l.quantity, l.orderCount)
    ensures var less := seen - {l.price};
            ApplyLevel((before - Zeroes(less)) + Part(less, less.Keys - Zeroes(less)), l) ==
            (before - Zeroes(seen)) + Part(seen, seen.Keys - Zeroes(seen))
  {
  }

  lemma {:induction false} ApplyIndexed(before: SideBook, levels: seq<Level>, seen: SideBook)
    requires CleanChanges(levels) && Indexes(seen, levels)
    ensures ApplyAll(before, levels) ==
            (before - Zeroes(seen)) + Part(seen, seen.Keys - Zeroes(seen))
  {
    if levels == [] {
      assert seen == map[];
    } else {
      var n := |levels| - 1;
      var l := levels[n];
      CleanPrefix(levels, n);
      IndexLess(seen, levels, n);
      ApplyIndexed(before, levels[..n], seen - {l.price});
      SeenMore(before, seen, l);
    }
  }

  /** Putting the changes in order changes nothing about what they do, and puts the removals first. */
  lemma {:induction false} OrderedApplies(side: Side, before: SideBook, levels: seq<Level>, seen: SideBook)
    requires CleanChanges(levels) && Indexes(seen, levels)
    ensures ApplyAll(before, Ordered(side, seen)) == ApplyAll(before, levels)
    ensures RemovalsFirst(Ordered(side, seen)) && Named(Ordered(side, seen)) == Named(levels)
  {
    ApplyIndexed(before, levels, seen);
    OrderedEffect(side, before, seen);
    OrderedShape(side, seen);
  }

  /** The one list has the same levels as the other, a removal without its count, and lists them in two parts. */
  ghost predicate Reordered(side: Side, changes: seq<Level>, out: seq<Level>) {
    |out| == |changes| && (exists k: nat :: TwoParts(side, out, k)) &&
    (forall l :: l in changes ==> (if l.quantity == 0 then Level(l.price, 0, 0) else l) in out) &&
    forall l :: l in out ==> l in changes || (l.quantity == 0 && l.orderCount == 0 && RemovedBy(changes, l.price))
  }

  predicate RemovedBy(changes: seq<Level>, p: int) {
    exists i :: 0 <= i < |changes| && changes[i].price == p && changes[i].quantity == 0
  }

  lemma InOrdered(side: Side, seen: SideBook, l: Level)
    ensures l in Ordered(side, seen) <==>
            l.price in seen &&
            if l.quantity == 0 then seen[l.price].quantity == 0 && l.orderCount == 0
            else seen[l.price] == Amount(l.quantity, l.orderCount)
  {
    var zero, rest := Prices(side, Zeroes(seen)), Prices(side, seen.Keys - Zeroes(seen));
    InRemovals(zero, l);
    InListed(rest, seen, l);
    assert l.price in zero <==> l.price in AsSet(zero);
    assert l.price in rest <==> l.price in AsSet(rest);
  }

  lemma {:induction false} IndexedSize(levels: seq<Level>, seen: SideBook)
    requires CleanChanges(levels) && Indexes(seen, levels)
    ensures |seen| == |levels|
  {
    if levels == [] {
      assert seen == map[];
    } else {
      var n := |levels| - 1;
      CleanPrefix(levels, n);
      IndexLess(seen, levels, n);
      IndexedSize(levels[..n], seen - {levels[n].price});
      assert seen.Keys == (seen - {levels[n].price}).Keys + {levels[n].price};
      assert |seen| == |seen.Keys|;
    }
  }

  lemma OrderedParts(side: Side, seen: SideBook)
    ensures exists k: nat :: TwoParts(side, Ordered(side, seen), k)
  {
    var zero, rest := Prices(side, Zeroes(seen)), Prices(side, seen.Keys - Zeroes(seen));
    PricesBestFirst(side, Zeroes(seen));
    PricesBestFirst(side, seen.Keys - Zeroes(seen));
    PartsOf(side, zero, rest, seen);
    assert TwoParts(side, Ordered(side, seen), |zero|);
  }

  lemma OrderedSize(side: Side, seen: SideBook)
    ensures |Ordered(side, seen)| == |seen|
  {
    var zero := Zeroes(seen);
    assert zero <= seen.Keys;
    assert |seen.Keys - zero| == |seen.Keys| - |zero|;
    assert |seen| == |seen.Keys|;
  }

  lemma OrderedIsReordered(side: Side, changes: seq<Level>, seen: SideBook)
    requires CleanChanges(changes) && Indexes(seen, changes)
    ensures Reordered(side, changes, Ordered(side, seen))
  {
    var out := Ordered(side, seen);
    OrderedParts(side, seen);
    OrderedSize(side, seen);
    IndexedSize(changes, seen);
    forall l | l in changes
      ensures (if l.quantity == 0 then Level(l.price, 0, 0) else l) in out
    {
      var i :| 0 <= i < |changes| && changes[i] == l;
      assert changes[i].price in seen && seen[changes[i].price] == Amount(l.quantity, l.orderCount);
      InOrdered(side, seen, if l.quantity == 0 then Level(l.price, 0, 0) else l);
    }
    forall l | l in out
      ensures l in changes || (l.quantity == 0 && l.orderCount == 0 && RemovedBy(changes, l.price))
    {
      InOrdered(side, seen, l);
      assert l.price in Named(changes);
      var i :| 0 <= i < |changes| && changes[i].price == l.price;
      assert seen[changes[i].price] == Amount(changes[i].quantity, changes[i].orderCount);
      if l.quantity != 0 {
        assert changes[i] == l;
      }
    }
  }

  lemma {:induction false} OrderedEffect(side: Side, before: SideBook, seen: SideBook)
    ensures ApplyAll(before, Ordered(side, seen)) == (before - Zeroes(seen)) + Part(seen, seen.Keys - Zeroes(seen))
  {
    ApplyInTwo(before, Prices(side, Zeroes(seen)), Prices(side, seen.Keys - Zeroes(seen)), seen);
  }

  lemma {:induction false} OrderedShape(side: Side, seen: SideBook)
    ensures RemovalsFirst(Ordered(side, seen)) && Named(Ordered(side, seen)) == seen.Keys
  {
    var zero, rest := Prices(side, Zeroes(seen)), Prices(side, seen.Keys - Zeroes(seen));
    ListIsSplit(zero, rest, seen);
    NamedOrdered(zero, rest, seen);
    assert Zeroes(seen) + (seen.Keys - Zeroes(seen)) == seen.Keys;
  }

  lemma {:induction false} ApplyInTwo(before: SideBook, zero: seq<int>, rest: seq<int>, seen: SideBook)
    requires Held(rest, seen) && Sets(rest, seen)
    ensures ApplyAll(before, Removals(zero) + Listed(rest, seen)) == (before - AsSet(zero)) + Part(seen, AsSet(rest))
  {
    ApplyConcat(before, Removals(zero), Listed(rest, seen));
    ApplyRemovals(before, zero);
    ApplyListed(before - AsSet(zero), rest, seen);
  }

  lemma NamedOrdered(zero: seq<int>, rest: seq<int>, seen: SideBook)
    requires Held(rest, seen)
    ensures Named(Removals(zero) + Listed(rest, seen)) == AsSet(zero) + AsSet(rest)
  {
    var all := Removals(zero) + Listed(rest, seen);
    forall p | p in zero
      ensures p in Named(all)
    {
      var i :| 0 <= i < |zero| && zero[i] == p;
      assert all[i].price == p;
    }
    forall p | p in rest
      ensures p in Named(all)
    {
      var i :| 0 <= i < |rest| && rest[i] == p;
      assert all[|zero| + i].price == p;
    }
  }

  /** best_first over a std::map, keeping some prices: the prices kept so far, best first. */
  ghost predicate Kept(side: Side, all: seq<int>, i: nat, keep: set<int>, ps: seq<int>) {
    i <= |all| && BestFirst(side, ps) && AsSet(ps) == AsSet(all[..i]) * keep
  }

  lemma KeptNone(side: Side, all: seq<int>, keep: set<int>)
    ensures Kept(side, all, 0, keep, [])
  {
  }

  lemma RemovalsSnoc(ps: seq<int>, p: int)
    ensures Removals(ps + [p]) == Removals(ps) + [Level(p, 0, 0)]
  {
  }

  lemma ListedSnoc(ps: seq<int>, p: int, book: SideBook)
    requires Held(ps, book) && p in book
    ensures Held(ps + [p], book)
    ensures Listed(ps + [p], book) == Listed(ps, book) + [Level(p, book[p].quantity, book[p].orderCount)]
  {
  }

  lemma KeptMore(side: Side, all: seq<int>, i: nat, keep: set<int>, ps: seq<int>)
    requires i < |all| && BestFirst(side, all) && Kept(side, all, i, keep, ps)
    ensures all[i] in keep ==> Kept(side, all, i + 1, keep, ps + [all[i]])
    ensures all[i] !in keep ==> Kept(side, all, i + 1, keep, ps)
  {
    var p := all[i];
    assert all[..i + 1][..i] == all[..i];
    SetOfAll(all[..i + 1], i);
    AsSetSnoc(ps, p);
    forall j | 0 <= j < |ps|
      ensures Better(side, ps[j], p)
    {
      assert ps[j] in AsSet(ps);
      assert ps[j] in all[..i];
      var k :| 0 <= k < i && all[..i][k] == ps[j];
      assert Better(side, all[k], all[i]);
    }
  }

  /** ordered_changes: refused exactly when some change is negative or changes a price again. */
  method OrderedChanges(side: Side, changes: seq<Level>) returns (r: Outcome<seq<Level>>, ghost seen: SideBook)
    ensures r.Accepted? <==> CleanChanges(changes)
    ensures r.Accepted? <==>
      (forall i :: 0 <= i < |changes| ==> changes[i].quantity >= 0 && changes[i].orderCount >= 0) &&
      forall i, j :: 0 <= i < j < |changes| ==> changes[i].price != changes[j].price
    ensures r.Accepted? ==> Indexes(seen, changes) && r.value == Ordered(side, seen)
    ensures r.Accepted? ==> Reordered(side, changes, r.value)
  {
    CleanChangesAre(changes);
    var byPrice := IndexChanges(changes);
    if byPrice.Refused? {
      return Refused, map[];
    }
    OrderedIsReordered(side, changes, byPrice.value);
    var out := SortedOut(side, byPrice.value);
    return Accepted(out), byPrice.value;
  }

  lemma CleanChangesAre(changes: seq<Level>)
    ensures CleanChanges(changes) <==>
      (forall i :: 0 <= i < |changes| ==> changes[i].quantity >= 0 && changes[i].orderCount >= 0) &&
      forall i, j :: 0 <= i < j < |changes| ==> changes[i].price != changes[j].price
  {
  }

  method SortedOut(side: Side, book: SideBook) returns (out: seq<Level>)
    ensures out == Ordered(side, book)
  {
    var prices := Prices(side, book.Keys);
    PricesBestFirst(side, book.Keys);
    var removals, rest := [], [];
    ghost var zero, others: seq<int> := [], [];
    KeptNone(side, prices, Zeroes(book));
    KeptNone(side, prices, book.Keys - Zeroes(book));
    for i := 0 to |prices|
      invariant Kept(side, prices, i, Zeroes(book), zero) && removals == Removals(zero)
      invariant Kept(side, prices, i, book.Keys - Zeroes(book), others)
      invariant Held(others, book) && rest == Listed(others, book)
    {
      var p := prices[i];
      KeptMore(side, prices, i, Zeroes(book), zero);
      KeptMore(side, prices, i, book.Keys - Zeroes(book), others);
      if book[p].quantity == 0 {
        removals := removals + [Level(p, 0, 0)];
        RemovalsSnoc(zero, p);
        zero := zero + [p];
      } else {
        ListedSnoc(others, p, book);
        rest := rest + [Level(p, book[p].quantity, book[p].orderCount)];
        others := others + [p];
      }
    }
    KeptAll(side, prices, book.Keys, Zeroes(book), zero);
    KeptAll(side, prices, book.Keys, book.Keys - Zeroes(book), others);
    return removals + rest;
  }

  lemma KeptAll(side: Side, all: seq<int>, keys: set<int>, keep: set<int>, ps: seq<int>)
    requires keep <= keys && AsSet(all) == keys && Kept(side, all, |all|, keep, ps)
    ensures ps == Prices(side, keep)
  {
    assert all[..|all|] == all;
    assert AsSet(ps) == keep;
    SameOrder(side, ps, keep);
  }

  method IndexChanges(changes: seq<Level>) returns (r: Outcome<SideBook>)
    ensures r.Accepted? <==> CleanChanges(changes)
    ensures r.Accepted? ==> Indexes(r.value, changes)
  {
    var seen: SideBook := map[];
    var i := 0;
    while i < |changes|
      invariant i <= |changes| && CleanChanges(changes[..i]) && Indexes(seen, changes[..i])
    {
      var level := changes[i];
      CleanMore(changes, i, seen);
      CleanPrefix(changes, i + 1);
      if level.quantity < 0 || level.orderCount < 0 || level.price in seen {
        return Refused;
      }
      IndexMore(seen, changes, i);
      seen := seen[level.price := Amount(level.quantity, level.orderCount)];
      i := i + 1;
    }
    assert changes[..i] == changes;
    return Accepted(seen);
  }

  /** difference, as the two passes of the source compute it. */
  method DifferenceOf(side: Side, before: SideBook, after: SideBook) returns (out: seq<Level>)
    ensures out == Difference(side, before, after)
    ensures forall l :: l in out <==>
      if l.price in after
      then after[l.price] == Amount(l.quantity, l.orderCount) &&
           (l.price in before ==> before[l.price] != after[l.price])
      else l.price in before && l.quantity == 0 && l.orderCount == 0
    ensures Positive(after) ==> exists k: nat :: TwoParts(side, out, k)
  {
    forall l {
      DifferenceSays(side, before, after, l);
    }
    if Positive(after) {
      var k := DifferenceInOrder(side, before, after);
    }
    out := TwoPasses(side, before, after);
  }

  method TwoPasses(side: Side, before: SideBook, after: SideBook) returns (out: seq<Level>)
    ensures out == Difference(side, before, after)
  {
    var removals := GoneLevels(side, before, after);
    var rest := ChangedLevels(side, before, after);
    out := removals + rest;
  }

  lemma GoneMore(side: Side, prices: seq<int>, i: nat, before: SideBook, after: SideBook, gone: seq<int>)
    requires i < |prices| && prices[i] in before && BestFirst(side, prices)
    requires Kept(side, prices, i, Gone(before, after), gone)
    ensures prices[i] !in after ==>
              Kept(side, prices, i + 1, Gone(before, after), gone + [prices[i]]) &&
              Removals(gone + [prices[i]]) == Removals(gone) + [Level(prices[i], 0, 0)]
    ensures prices[i] in after ==> Kept(side, prices, i + 1, Gone(before, after), gone)
  {
    KeptMore(side, prices, i, Gone(before, after), gone);
    RemovalsSnoc(gone, prices[i]);
  }

  method GoneLevels(side: Side, before: SideBook, after: SideBook) returns (out: seq<Level>)
    ensures out == Removals(Prices(side, Gone(before, after)))
  {
    var prices := Prices(side, before.Keys);
    PricesBestFirst(side, before.Keys);
    out := [];
    ghost var gone: seq<int> := [];
    KeptNone(side, prices, Gone(before, after));
    for i := 0 to |prices|
      invariant Kept(side, prices, i, Gone(before, after), gone) && out == Removals(gone)
    {
      GoneMore(side, prices, i, before, after, gone);
      if prices[i] !in after {
        out := out + [Level(prices[i], 0, 0)];
        gone := gone + [prices[i]];
      }
    }
    KeptAll(side, prices, before.Keys, Gone(before, after), gone);
  }

  method ChangedLevels(side: Side, before: SideBook, after: SideBook) returns (out: seq<Level>)
    ensures out == Listed(Prices(side, Changed(before, after)), after)
  {
    var prices := Prices(side, after.Keys);
    PricesBestFirst(side, after.Keys);
    out := [];
    ghost var changed: seq<int> := [];
    KeptNone(side, prices, Changed(before, after));
    for i := 0 to |prices|
      invariant Kept(side, prices, i, Changed(before, after), changed)
      invariant Held(changed, after) && out == Listed(changed, after)
    {
      var p := prices[i];
      KeptMore(side, prices, i, Changed(before, after), changed);
      if p !in before || before[p] != after[p] {
        ListedSnoc(changed, p, after);
        out := out + [Level(p, after[p].quantity, after[p].orderCount)];
        changed := changed + [p];
      }
    }
    KeptAll(side, prices, after.Keys, Changed(before, after), changed);
  }
}
