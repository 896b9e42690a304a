// Observation sets, touch states and the four fill models
// (research/run85_trackb_primary.py, lines 107-132, 192-288 and 298-305).
module FillModels {
  import opened Wrappers
  import opened Rounding

  datatype Level = Level(price: real, qty: real)

  /** One market's book as read at an instant, in seconds. */
  datatype Row = Row(at: real, bids: seq<Level>, asks: seq<Level>)

  function Best(levels: seq<Level>, highest: bool): Option<real> {
    if levels == [] then None
    else
      var p := levels[0].price;
      match Best(levels[1..], highest)
      case None => Some(p)
      case Some(q) => Some(if highest then (if p >= q then p else q) else (if p <= q then p else q))
  }

  function BestBid(row: Row): Option<real> {
    Best(row.bids, true)
  }

  function BestAsk(row: Row): Option<real> {
    Best(row.asks, false)
  }

  lemma {:induction false} BestIsExtreme(levels: seq<Level>, highest: bool)
    ensures Best(levels, highest) == None <==> levels == []
    ensures levels != [] ==> exists k :: 0 <= k < |levels| && levels[k].price == Best(levels, highest).value
    ensures forall k :: 0 <= k < |levels| ==>
      if highest then levels[k].price <= Best(levels, highest).value else levels[k].price >= Best(levels, highest).value
  {
    if levels != [] {
      var rest := levels[1..];
      BestIsExtreme(rest, highest);
      assert forall k :: 1 <= k < |levels| ==> levels[k] == rest[k - 1];
      if rest == [] {
        assert levels[0].price == Best(levels, highest).value;
      } else {
        var j :| 0 <= j < |rest| && rest[j].price == Best(rest, highest).value;
        assert levels[j + 1].price == Best(rest, highest).value;
        assert levels[if Best(levels, highest).value == levels[0].price then 0 else j + 1].price
            == Best(levels, highest).value;
      }
    }
  }

  /** qty_at: everything displayed at exactly that price. */
  function QtyAt(levels: seq<Level>, price: real): real {
    if levels == [] then 0.0
    else (if levels[0].price == price then levels[0].qty else 0.0) + QtyAt(levels[1..], price)
  }

  lemma {:induction false} NothingBeyondTheTouch(levels: seq<Level>, price: real)
    requires forall k :: 0 <= k < |levels| ==> levels[k].price != price
    ensures QtyAt(levels, price) == 0.0
  {
    if levels != [] {
      NothingBeyondTheTouch(levels[1..], price);
    }
  }

  // ---- one horizon --------------------------------------------------------

  datatype Touch = NotTouched | Touched | Crossed

  /** The two resting orders: a buy at the first book's bid, a sell at its ask. */
  datatype Quote = Quote(bid: real, ask: real, bidQty: real, askQty: real)

  datatype Horizon =
    | Unavailable
    | Seen(longTouch: Touch, shortTouch: Touch, longMarkout: Option<real>, shortMarkout: Option<real>,
           longGone: bool, longReduced: bool, shortGone: bool, shortReduced: bool)

  function QuoteOf(row: Row): Option<Quote> {
    match (BestBid(row), BestAsk(row))
    case (Some(b), Some(a)) => Some(Quote(b, a, QtyAt(row.bids, b), QtyAt(row.asks, a)))
    case _ => None
  }

  function LongTouch(ask: Option<real>, bid: real): Touch {
    if ask.Some? && ask.value < bid then Crossed else if ask.Some? && ask.value <= bid then Touched else NotTouched
  }

  function ShortTouch(bid: Option<real>, ask: real): Touch {
    if bid.Some? && bid.value > ask then Crossed else if bid.Some? && bid.value >= ask then Touched else NotTouched
  }

  function Mid(row: Row): Option<real> {
    match (BestBid(row), BestAsk(row))
    case (Some(hb), Some(ha)) => Some((hb + ha) / 2.0)
    case _ => None
  }

  /** What the book read at a horizon says about the two orders. */
  function Observe(q: Quote, row: Row): Horizon {
    var hb, ha, mid := BestBid(row), BestAsk(row), Mid(row);
    if hb == None && ha == None then Unavailable
    else
      Seen(LongTouch(ha, q.bid), ShortTouch(hb, q.ask),
           if mid.Some? then Some(mid.value - q.bid) else None,
           if mid.Some? then Some(q.ask - mid.value) else None,
           QtyAt(row.bids, q.bid) == 0.0, QtyAt(row.bids, q.bid) < q.bidQty,
           QtyAt(row.asks, q.ask) == 0.0, QtyAt(row.asks, q.ask) < q.askQty)
  }

  // ---- the fill models ----------------------------------------------------

  datatype Model = F0 | F1 | F2 | F3

  datatype Fill = Fill(long: bool, short: bool)

  function Fills(hz: Horizon, model: Model): Fill {
    if hz.Unavailable? then Fill(false, false)
    else
      match model
      case F3 => Fill(hz.longTouch != NotTouched, hz.shortTouch != NotTouched)
      case F2 => Fill(hz.longTouch != NotTouched && (hz.longGone || hz.longReduced),
                      hz.shortTouch != NotTouched && (hz.shortGone || hz.shortReduced))
      case F1 => Fill(hz.longTouch == Crossed, hz.shortTouch == Crossed)
      case F0 => Fill(hz.longTouch == Crossed && hz.longGone, hz.shortTouch == Crossed && hz.shortGone)
  }

  datatype PairState = CompletedPair | LongOnlyFill | ShortOnlyFill | NoFill

  function StateOf(f: Fill): PairState {
    if f.long && f.short then CompletedPair
    else if f.long then LongOnlyFill
    else if f.short then ShortOnlyFill
    else NoFill
  }

  predicate Implies(f: Fill, g: Fill) {
    (f.long ==> g.long) && (f.short ==> g.short)
  }

  /** F3 bounds every model above and F0 below, leg by leg. */
  lemma ModelsOrdered(hz: Horizon, model: Model)
    ensures Implies(Fills(hz, F0), Fills(hz, model)) && Implies(Fills(hz, model), Fills(hz, F3))
  {
  }

  /** The horizon book's bid is above its ask, or at it. */
  predicate BidAbove(row: Row) {
    BestBid(row).Some? && BestAsk(row).Some? && BestBid(row).value > BestAsk(row).value
  }

  predicate BidAtOrAbove(row: Row) {
    BestBid(row).Some? && BestAsk(row).Some? && BestBid(row).value >= BestAsk(row).value
  }

  /** A bid at our price under an ask below it means the book is crossed. */
  lemma LevelUnderTouch(q: Quote, row: Row)
    requires BestAsk(row).Some? && BestAsk(row).value <= q.bid && QtyAt(row.bids, q.bid) != 0.0
    ensures BidAtOrAbove(row) && (BestAsk(row).value < q.bid ==> BidAbove(row))
  {
    BestIsExtreme(row.bids, true);
    if forall k :: 0 <= k < |row.bids| ==> row.bids[k].price != q.bid {
      NothingBeyondTheTouch(row.bids, q.bid);
    }
  }

  lemma LevelOverTouch(q: Quote, row: Row)
    requires BestBid(row).Some? && BestBid(row).value >= q.ask && QtyAt(row.asks, q.ask) != 0.0
    ensures BidAtOrAbove(row) && (BestBid(row).value > q.ask ==> BidAbove(row))
  {
    BestIsExtreme(row.asks, false);
    if forall k :: 0 <= k < |row.asks| ==> row.asks[k].price != q.ask {
      NothingBeyondTheTouch(row.asks, q.ask);
    }
  }

  /** Unless the horizon book is crossed, the vanished level adds nothing to the
      crossing: F0 is F1. Unless it is locked either, F2 is F3. */
  lemma ModelsCollapse(q: Quote, row: Row)
    ensures !BidAbove(row) ==> Fills(Observe(q, row), F0) == Fills(Observe(q, row), F1)
    ensures !BidAtOrAbove(row) ==> Fills(Observe(q, row), F2) == Fills(Observe(q, row), F3)
  {
    if BestAsk(row).Some? && BestAsk(row).value <= q.bid && QtyAt(row.bids, q.bid) != 0.0 {
      LevelUnderTouch(q, row);
    }
    if BestBid(row).Some? && BestBid(row).value >= q.ask && QtyAt(row.asks, q.ask) != 0.0 {
      LevelOverTouch(q, row);
    }
  }

  /** Unless the horizon book is crossed, what F1 fills F2 fills too. */
  lemma UncrossedModelsOrdered(q: Quote, row: Row)
    requires !BidAbove(row)
    ensures Implies(Fills(Observe(q, row), F1), Fills(Observe(q, row), F2))
  {
    ModelsCollapse(q, row);
  }

  /** F1 fills a leg that F2 does not exactly when the far side has gone beyond our
      price and yet something, and no less than at first, is shown there. */
  lemma CrossedNotReducedIff(q: Quote, row: Row)
    ensures var hz, now := Observe(q, row), QtyAt(row.bids, q.bid);
      Fills(hz, F1).long && !Fills(hz, F2).long <==> (AnyBelow(row.asks, q.bid) && now != 0.0 && now >= q.bidQty)
    ensures var hz, now := Observe(q, row), QtyAt(row.asks, q.ask);
      Fills(hz, F1).short && !Fills(hz, F2).short <==> (AnyAbove(row.bids, q.ask) && now != 0.0 && now >= q.askQty)
  {
    FillsMeaning(q, row);
  }

  /** Off such books F1 and F2 are not ordered: from one first book, a crossed book
      fills a leg under F1 alone, and a book touched where our level has gone under
      F2 alone. */
  lemma CrossedAndReducedDiffer()
    ensures exists q, first, crossed, gone :: QuoteOf(first) == Some(q)
                && Fills(Observe(q, crossed), F1).long && !Fills(Observe(q, crossed), F2).long
                && Fills(Observe(q, gone), F2).long && !Fills(Observe(q, gone), F1).long
  {
    var first := Row(0.0, [Level(0.4, 10.0)], [Level(0.6, 10.0)]);
    var q := Quote(0.4, 0.6, 10.0, 10.0);
    OneLevel(first);
    assert QuoteOf(first) == Some(q);
    var crossed := Row(5.0, [Level(0.4, 10.0)], [Level(0.3, 10.0)]);
    OneLevel(crossed);
    assert Fills(Observe(q, crossed), F1).long && !Fills(Observe(q, crossed), F2).long;
    var gone := Row(5.0, [Level(0.3, 10.0)], [Level(0.4, 10.0)]);
    OneLevel(gone);
    assert Fills(Observe(q, gone), F2).long && !Fills(Observe(q, gone), F1).long;
  }

  lemma OneLevel(row: Row)
    requires |row.bids| == 1 && |row.asks| == 1
    ensures BestBid(row) == Some(row.bids[0].price) && BestAsk(row) == Some(row.asks[0].price)
    ensures forall p :: QtyAt(row.bids, p) == if row.bids[0].price == p then row.bids[0].qty else 0.0
    ensures forall p :: QtyAt(row.asks, p) == if row.asks[0].price == p then row.asks[0].qty else 0.0
  {
    assert row.bids[1..] == [] && row.asks[1..] == [];
    assert Best(row.bids[1..], true) == None && Best(row.asks[1..], false) == None;
    forall p
      ensures QtyAt(row.bids, p) == if row.bids[0].price == p then row.bids[0].qty else 0.0
      ensures QtyAt(row.asks, p) == if row.asks[0].price == p then row.asks[0].qty else 0.0
    {
      assert QtyAt(row.bids[1..], p) == 0.0 && QtyAt(row.asks[1..], p) == 0.0;
    }
  }

  /** On a locked book the last two do come apart. */
  lemma LockedBookSeparates()
    ensures exists q, row :: !BidAbove(row) && Fills(Observe(q, row), F2) != Fills(Observe(q, row), F3)
  {
    var row := Row(5.0, [Level(0.4, 10.0)], [Level(0.4, 10.0)]);
    var q := Quote(0.4, 0.6, 10.0, 10.0);
    assert Best(row.bids, true) == Some(0.4) && Best(row.asks, false) == Some(0.4);
    assert QtyAt(row.bids, 0.4) == 10.0;
    assert !BidAbove(row) && Fills(Observe(q, row), F2) != Fills(Observe(q, row), F3);
  }

  ghost predicate AnyAtMost(levels: seq<Level>, p: real) {
    exists k :: 0 <= k < |levels| && levels[k].price <= p
  }

  ghost predicate AnyBelow(levels: seq<Level>, p: real) {
    exists k :: 0 <= k < |levels| && levels[k].price < p
  }

  ghost predicate AnyAtLeast(levels: seq<Level>, p: real) {
    exists k :: 0 <= k < |levels| && levels[k].price >= p
  }

  ghost predicate AnyAbove(levels: seq<Level>, p: real) {
    exists k :: 0 <= k < |levels| && levels[k].price > p
  }

  lemma AskReaches(row: Row, p: real)
    ensures BestAsk(row).Some? && BestAsk(row).value <= p <==> AnyAtMost(row.asks, p)
    ensures BestAsk(row).Some? && BestAsk(row).value < p <==> AnyBelow(row.asks, p)
  {
    BestIsExtreme(row.asks, false);
  }

  lemma BidReaches(row: Row, p: real)
    ensures BestBid(row).Some? && BestBid(row).value >= p <==> AnyAtLeast(row.bids, p)
    ensures BestBid(row).Some? && BestBid(row).value > p <==> AnyAbove(row.bids, p)
  {
    BestIsExtreme(row.bids, true);
  }

  /** Nothing is shown at the price any more, or less than at first. */
  predicate FellAway(levels: seq<Level>, price: real, first: real) {
    QtyAt(levels, price) == 0.0 || QtyAt(levels, price) < first
  }

  /** What the models ask of the ladders themselves, leg by leg: F3 that some level of
      the far side has come to our price, F1 that one has gone beyond it. */
  lemma FillsMeaning(q: Quote, row: Row)
    ensures var hz := Observe(q, row);
      && (Fills(hz, F3).long <==> AnyAtMost(row.asks, q.bid)) && (Fills(hz, F3).short <==> AnyAtLeast(row.bids, q.ask))
      && (Fills(hz, F1).long <==> AnyBelow(row.asks, q.bid)) && (Fills(hz, F1).short <==> AnyAbove(row.bids, q.ask))
      && (Fills(hz, F0).long <==> Fills(hz, F1).long && QtyAt(row.bids, q.bid) == 0.0)
      && (Fills(hz, F0).short <==> Fills(hz, F1).short && QtyAt(row.asks, q.ask) == 0.0)
      && (Fills(hz, F2).long <==> Fills(hz, F3).long && FellAway(row.bids, q.bid, q.bidQty))
      && (Fills(hz, F2).short <==> Fills(hz, F3).short && FellAway(row.asks, q.ask, q.askQty))
  {
    AskReaches(row, q.bid);
    BidReaches(row, q.ask);
  }

  ghost predicate IsHighest(levels: seq<Level>, p: real) {
    && (exists k :: 0 <= k < |levels| && levels[k].price == p)
    && forall k :: 0 <= k < |levels| ==> levels[k].price <= p
  }

  ghost predicate IsLowest(levels: seq<Level>, p: real) {
    && (exists k :: 0 <= k < |levels| && levels[k].price == p)
    && forall k :: 0 <= k < |levels| ==> levels[k].price >= p
  }

  lemma TouchIs(row: Row)
    ensures forall p :: BestBid(row) == Some(p) <==> IsHighest(row.bids, p)
    ensures forall p :: BestAsk(row) == Some(p) <==> IsLowest(row.asks, p)
  {
    BestIsExtreme(row.bids, true);
    BestIsExtreme(row.asks, false);
  }

  /** What is shown at a price adds up along a ladder. */
  lemma {:induction false} QtyAtAdds(a: seq<Level>, b: seq<Level>, price: real)
    ensures QtyAt(a + b, price) == QtyAt(a, price) + QtyAt(b, price)
  {
    if a == [] {
      assert a + b == b;
    } else {
      assert (a + b)[1..] == a[1..] + b;
      QtyAtAdds(a[1..], b, price);
    }
  }

  lemma QtyAtOne(lv: Level, price: real)
    ensures QtyAt([lv], price) == if lv.price == price then lv.qty else 0.0
  {
    assert QtyAt([lv][1..], price) == 0.0;
  }

  /** The orders rest at the first book's two touches. */
  lemma QuoteMeaning(row: Row)
    ensures QuoteOf(row).Some? <==> row.bids != [] && row.asks != []
    ensures QuoteOf(row).Some? ==> var q := QuoteOf(row).value;
      && IsHighest(row.bids, q.bid) && IsLowest(row.asks, q.ask)
      && q.bidQty == QtyAt(row.bids, q.bid) && q.askQty == QtyAt(row.asks, q.ask)
  {
    TouchIs(row);
    BestIsExtreme(row.bids, true);
    BestIsExtreme(row.asks, false);
  }

  /** What a horizon records of the ladders read there: how far each far side has come,
      and what is left at our prices. */
  ghost predicate RecordsTouches(hz: Horizon, q: Quote, row: Row)
    requires hz.Seen?
  {
    && (hz.longTouch == Crossed <==> AnyBelow(row.asks, q.bid))
    && (hz.longTouch == Touched <==> AnyAtMost(row.asks, q.bid) && !AnyBelow(row.asks, q.bid))
    && (hz.shortTouch == Crossed <==> AnyAbove(row.bids, q.ask))
    && (hz.shortTouch == Touched <==> AnyAtLeast(row.bids, q.ask) && !AnyAbove(row.bids, q.ask))
    && (hz.longGone <==> QtyAt(row.bids, q.bid) == 0.0) && (hz.longReduced <==> QtyAt(row.bids, q.bid) < q.bidQty)
    && (hz.shortGone <==> QtyAt(row.asks, q.ask) == 0.0) && (hz.shortReduced <==> QtyAt(row.asks, q.ask) < q.askQty)
  }

  /** The middle of the two touches against our prices; nothing without two sides. */
  ghost predicate RecordsMarkouts(hz: Horizon, q: Quote, row: Row)
    requires hz.Seen?
  {
    if row.bids == [] || row.asks == [] then hz.longMarkout == None == hz.shortMarkout
    else
      exists b, a :: IsHighest(row.bids, b) && IsLowest(row.asks, a)
        && hz.longMarkout == Some((b + a) / 2.0 - q.bid) && hz.shortMarkout == Some(q.ask - (b + a) / 2.0)
  }

  lemma TouchesRecorded(q: Quote, row: Row)
    requires Observe(q, row).Seen?
    ensures RecordsTouches(Observe(q, row), q, row)
  {
    AskReaches(row, q.bid);
    BidReaches(row, q.ask);
  }

  lemma MarkoutsRecorded(q: Quote, row: Row)
    requires Observe(q, row).Seen?
    ensures RecordsMarkouts(Observe(q, row), q, row)
  {
    BestIsExtreme(row.bids, true);
    BestIsExtreme(row.asks, false);
    if row.bids != [] && row.asks != [] {
      var b, a := BestBid(row).value, BestAsk(row).value;
      assert IsHighest(row.bids, b) && IsLowest(row.asks, a);
    }
  }

  lemma ObserveMeaning(q: Quote, row: Row)
    ensures Observe(q, row).Unavailable? <==> row.bids == [] && row.asks == []
    ensures Observe(q, row).Seen? ==>
      RecordsTouches(Observe(q, row), q, row) && RecordsMarkouts(Observe(q, row), q, row)
  {
    BestIsExtreme(row.bids, true);
    BestIsExtreme(row.asks, false);
    if Observe(q, row).Seen? {
      TouchesRecorded(q, row);
      MarkoutsRecorded(q, row);
    }
  }

  /** Which legs each state has. */
  lemma StateMeaning(f: Fill)
    ensures StateOf(f) == CompletedPair <==> f.long && f.short
    ensures StateOf(f) == LongOnlyFill <==> f.long && !f.short
    ensures StateOf(f) == ShortOnlyFill <==> !f.long && f.short
    ensures StateOf(f) == NoFill <==> !f.long && !f.short
  {
  }

  predicate Positive(levels: seq<Level>) {
    forall k :: 0 <= k < |levels| ==> levels[k].qty > 0.0
  }

  lemma {:induction false} SomethingAtTheTouch(levels: seq<Level>, price: real, k: nat)
    requires Positive(levels) && k < |levels|
    ensures QtyAt(levels, price) >= 0.0 && (levels[k].price == price ==> QtyAt(levels, price) > 0.0)
  {
    var rest := levels[1..];
    if k > 0 {
      SomethingAtTheTouch(rest, price, k - 1);
    } else if rest != [] {
      SomethingAtTheTouch(rest, price, 0);
    }
  }

  /** Where the first book shows real quantities, gone is a case of reduced, and F2
      is: touched, and less shown at our price than at first. */
  lemma GoneIsReduced(first: Row, q: Quote, row: Row)
    requires QuoteOf(first) == Some(q) && Positive(first.bids) && Positive(first.asks)
    ensures var hz := Observe(q, row);
      && (Fills(hz, F2).long <==> Fills(hz, F3).long && QtyAt(row.bids, q.bid) < QtyAt(first.bids, q.bid))
      && (Fills(hz, F2).short <==> Fills(hz, F3).short && QtyAt(row.asks, q.ask) < QtyAt(first.asks, q.ask))
  {
    BestIsExtreme(first.bids, true);
    BestIsExtreme(first.asks, false);
    var k :| 0 <= k < |first.bids| && first.bids[k].price == q.bid;
    var j :| 0 <= j < |first.asks| && first.asks[j].price == q.ask;
    SomethingAtTheTouch(first.bids, q.bid, k);
    SomethingAtTheTouch(first.asks, q.ask, j);
  }

  /** A pair completes under F3 exactly when some ask has come down to our bid and
      some bid has come up to our ask. */
  lemma CompletedIff(q: Quote, row: Row)
    ensures StateOf(Fills(Observe(q, row), F3)) == CompletedPair
       <==> AnyAtMost(row.asks, q.bid) && AnyAtLeast(row.bids, q.ask)
  {
    FillsMeaning(q, row);
  }

  /** So from an uncrossed first book no model completes a pair unless that one
      horizon's book is crossed by at least the first book's spread. */
  lemma CompletionNeedsACrossedBook(q: Quote, row: Row, model: Model)
    requires q.bid < q.ask && StateOf(Fills(Observe(q, row), model)) == CompletedPair
    ensures BidAbove(row) && BestBid(row).value - BestAsk(row).value >= q.ask - q.bid
  {
    ModelsOrdered(Observe(q, row), model);
    CompletedIff(q, row);
    AskReaches(row, q.bid);
    BidReaches(row, q.ask);
  }

  // ---- markouts -----------------------------------------------------------

  /** Wherever the book went, the two markouts add to the spread. */
  lemma MarkoutsAddToSpread(q: Quote, row: Row)
    requires Observe(q, row).Seen? && Observe(q, row).longMarkout.Some?
    ensures var hz := Observe(q, row);
      hz.shortMarkout.Some? && hz.longMarkout.value + hz.shortMarkout.value == q.ask - q.bid
  {
  }

  /** A leg any model fills shows no gain at that horizon, unless its book is crossed:
      every residual leg reported from uncrossed books is a loss. */
  lemma FilledLegLoses(q: Quote, row: Row, model: Model)
    requires !BidAtOrAbove(row)
    ensures var hz := Observe(q, row);
      (Fills(hz, model).long && hz.longMarkout.Some? ==> hz.longMarkout.value < 0.0)
      && (Fills(hz, model).short && hz.shortMarkout.Some? ==> hz.shortMarkout.value < 0.0)
  {
    ModelsOrdered(Observe(q, row), model);
  }

  /** A book that did not move marks each leg out by half the spread, which is
      zero only where bid and ask coincide. */
  lemma UnmovedBookMarksHalfTheSpread(q: Quote, row: Row)
    requires QuoteOf(row) == Some(q)
    ensures Observe(q, row).longMarkout == Some((q.ask - q.bid) / 2.0) == Observe(q, row).shortMarkout
    ensures Observe(q, row).longMarkout == Some(0.0) <==> q.bid == q.ask
  {
  }

  // ---- observation sets ---------------------------------------------------

  const SET_GAP_S: real := 90.0

  function Flatten(sets: seq<seq<Row>>): seq<Row> {
    if sets == [] then [] else Flatten(sets[..|sets| - 1]) + sets[|sets| - 1]
  }

  predicate SameSet(earlier: Row, later: Row) {
    later.at - earlier.at <= SET_GAP_S
  }

  /** No gap over SET_GAP_S inside a set. */
  ghost predicate Unbroken(group: seq<Row>) {
    && group != []
    && (|group| > 1 ==> SameSet(group[|group| - 2], group[|group| - 1]) && Unbroken(group[..|group| - 1]))
  }

  /** The rows cut, in order and without loss, at exactly the gaps: the last set is
      an unbroken end of the rows with a gap before it, and so on for the rest. */
  ghost predicate IsGrouping(sets: seq<seq<Row>>, rows: seq<Row>) {
    if sets == [] then rows == []
    else
      var last := sets[|sets| - 1];
      && |last| <= |rows| && rows[|rows| - |last|..] == last && Unbroken(last)
      && IsGapAt(rows, |rows| - |last|) && IsGrouping(sets[..|sets| - 1], rows[..|rows| - |last|])
  }

  predicate IsGapAt(rows: seq<Row>, m: nat)
    requires m <= |rows|
  {
    0 < m < |rows| ==> !SameSet(rows[m - 1], rows[m])
  }

  lemma {:induction false} GroupingIsLossless(sets: seq<seq<Row>>, rows: seq<Row>)
    requires IsGrouping(sets, rows)
    ensures Flatten(sets) == rows
  {
    if sets != [] {
      GroupingIsLossless(sets[..|sets| - 1], rows[..|rows| - |sets[|sets| - 1]|]);
    }
  }

  lemma {:induction false} UnbrokenAt(group: seq<Row>, k: nat)
    requires Unbroken(group) && 0 < k < |group|
    ensures SameSet(group[k - 1], group[k])
  {
    if k < |group| - 1 {
      UnbrokenAt(group[..|group| - 1], k);
    }
  }

  /** Of two unbroken ends of the rows, one with a gap before it is no shorter. */
  lemma NotShorter(rows: seq<Row>, s: seq<Row>, o: seq<Row>)
    requires s != [] && |s| <= |rows| && |o| <= |rows| && rows[|rows| - |o|..] == o
    requires IsGapAt(rows, |rows| - |s|) && Unbroken(o)
    ensures |s| >= |o|
  {
    if |s| < |o| {
      UnbrokenAt(o, |o| - |s|);
    }
  }

  /** There is only one such grouping. */
  lemma {:induction false} GroupingUnique(sets: seq<seq<Row>>, others: seq<seq<Row>>, rows: seq<Row>)
    requires IsGrouping(sets, rows) && IsGrouping(others, rows)
    ensures sets == others
    decreases |rows|
  {
    if rows == [] {
      NoRowsNoSets(sets);
      NoRowsNoSets(others);
    } else {
      var front, s := LastSet(sets, rows);
      var others', o := LastSet(others, rows);
      NotShorter(rows, s, o);
      NotShorter(rows, o, s);
      GroupingUnique(front, others', rows[..|rows| - |s|]);
    }
  }

  lemma LastSet(sets: seq<seq<Row>>, rows: seq<Row>) returns (front: seq<seq<Row>>, last: seq<Row>)
    requires IsGrouping(sets, rows) && rows != []
    ensures sets == front + [last] && Unbroken(last) && last != []
    ensures |last| <= |rows| && rows[|rows| - |last|..] == last && IsGapAt(rows, |rows| - |last|)
    ensures IsGrouping(front, rows[..|rows| - |last|])
  {
    front, last := sets[..|sets| - 1], sets[|sets| - 1];
  }

  lemma NoRowsNoSets(sets: seq<seq<Row>>)
    requires IsGrouping(sets, [])
    ensures sets == []
  {
  }

  /** The row continues the open set. */
  lemma RowJoins(sets: seq<seq<Row>>, group: seq<Row>, rows: seq<Row>, r: Row)
    requires group != [] && IsGrouping(sets + [group], rows) && SameSet(group[|group| - 1], r)
    ensures IsGrouping(sets + [group + [r]], rows + [r])
  {
    var longer, all := group + [r], rows + [r];
    var m := |rows| - |group|;
    assert (sets + [group])[..|sets|] == sets && (sets + [longer])[..|sets|] == sets;
    assert longer[..|group|] == group;
    assert all[m..] == rows[m..] + [r] && all[..m] == rows[..m];
    assert 0 < m ==> all[m - 1] == rows[m - 1] && all[m] == rows[m];
  }

  /** The row starts a set. */
  lemma RowOpens(sets: seq<seq<Row>>, rows: seq<Row>, r: Row)
    requires IsGrouping(sets, rows) && (rows != [] ==> !SameSet(rows[|rows| - 1], r))
    ensures IsGrouping(sets + [[r]], rows + [r])
  {
    var all := rows + [r];
    assert (sets + [[r]])[..|sets|] == sets;
    assert all[|rows|..] == [r] && all[..|rows|] == rows;
  }

  /** The sets closed so far and the open one, for the rows seen so far. */
  ghost predicate Building(sets: seq<seq<Row>>, group: seq<Row>, rows: seq<Row>) {
    if group == [] then sets == [] && rows == []
    else IsGrouping(sets + [group], rows) && rows != [] && group[|group| - 1] == rows[|rows| - 1]
  }

  predicate StartsSet(group: seq<Row>, r: Row) {
    group != [] && r.at - group[|group| - 1].at > SET_GAP_S
  }

  lemma RowTaken(sets: seq<seq<Row>>, group: seq<Row>, rows: seq<Row>, r: Row)
    requires Building(sets, group, rows)
    ensures if StartsSet(group, r) then Building(sets + [group], [r], rows + [r])
            else Building(sets, group + [r], rows + [r])
  {
    if group == [] {
      RowOpens([], [], r);
    } else if StartsSet(group, r) {
      RowOpens(sets + [group], rows, r);
    } else {
      RowJoins(sets, group, rows, r);
    }
  }

  /** One row: it closes the open set when it comes more than the gap after it. */
  method TakeRow(sets0: seq<seq<Row>>, group0: seq<Row>, r: Row, ghost seen: seq<Row>)
    returns (sets: seq<seq<Row>>, group: seq<Row>)
    requires Building(sets0, group0, seen)
    ensures Building(sets, group, seen + [r]) && group != []
  {
    RowTaken(sets0, group0, seen, r);
    sets, group := sets0, group0;
    if group != [] && r.at - group[|group| - 1].at > SET_GAP_S {
      sets := sets + [group];
      group := [];
    }
    group := group + [r];
  }

  /** build_sets, for one market's rows in time order. */
  method BuildSets(rows: seq<Row>) returns (sets: seq<seq<Row>>)
    ensures IsGrouping(sets, rows)
  {
    sets := [];
    var group: seq<Row> := [];
    ghost var seen: seq<Row> := [];
    for i := 0 to |rows|
      invariant seen == rows[..i] && Building(sets, group, seen)
    {
      sets, group := TakeRow(sets, group, rows[i], seen);
      seen := seen + [rows[i]];
    }
    assert seen == rows;
    if group != [] {
      sets := sets + [group];
    }
  }

  // ---- one set ------------------------------------------------------------

  const HORIZONS: set<int> := {5, 10, 30, 60}

  /** The row's time since the first, to the nearest second. */
  function ElapsedOf(group: seq<Row>, j: nat): int
    requires 0 < j < |group|
  {
    RoundHalfEven(group[j].at - group[0].at)
  }

  /** h is the nearest whole second, and the even one of two. */
  lemma ElapsedMeaning(group: seq<Row>, j: nat, h: int)
    requires 0 < j < |group|
    ensures ElapsedOf(group, j) == h
       <==> var t := group[j].at - group[0].at;
            -0.5 <= h as real - t <= 0.5 && (h as real - t == 0.5 || h as real - t == -0.5 ==> h % 2 == 0)
  {
    RoundedIff(h, group[j].at - group[0].at);
  }

  /** Row j is the latest one of the first n at that horizon. */
  ghost predicate IsLatest(group: seq<Row>, n: nat, h: int, j: nat)
    requires n <= |group|
  {
    0 < j < n && ElapsedOf(group, j) == h && forall k :: j < k < n ==> ElapsedOf(group, k) != h
  }

  ghost predicate HasRow(group: seq<Row>, n: nat, h: int)
    requires n <= |group|
  {
    exists j: nat :: IsLatest(group, n, h, j)
  }

  ghost predicate HorizonsOf(horizons: map<int, Horizon>, group: seq<Row>, n: nat, q: Quote)
    requires n <= |group|
  {
    && (forall h :: h in horizons <==> h in HORIZONS && HasRow(group, n, h))
    && (forall h: int, j: nat :: h in horizons && IsLatest(group, n, h, j) ==>
        j < |group| && horizons[h] == Observe(q, group[j]))
  }

  datatype Analysed = Analysed(quote: Quote, horizons: map<int, Horizon>)

  lemma OtherHorizonsKeep(group: seq<Row>, n: nat, next: nat, h: int)
    requires 0 < n < |group| && next == n + 1 && h != ElapsedOf(group, n)
    ensures forall j: nat :: IsLatest(group, next, h, j) <==> IsLatest(group, n, h, j)
    ensures HasRow(group, next, h) <==> HasRow(group, n, h)
  {
    forall j: nat
      ensures IsLatest(group, next, h, j) <==> IsLatest(group, n, h, j)
    {
    }
    if HasRow(group, n, h) {
      var j: nat :| IsLatest(group, n, h, j);
      assert IsLatest(group, next, h, j);
    }
  }

  lemma NewestIsLatest(group: seq<Row>, n: nat, next: nat, h: int)
    requires 0 < n < |group| && next == n + 1 && h == ElapsedOf(group, n)
    ensures HasRow(group, next, h)
    ensures forall j: nat :: IsLatest(group, next, h, j) ==> j == n
  {
    assert IsLatest(group, next, h, n);
  }

  lemma RowAdds(horizons: map<int, Horizon>, group: seq<Row>, n: nat, next: nat, q: Quote)
    requires 0 < n < |group| && next == n + 1 && HorizonsOf(horizons, group, n, q)
    ensures var h := ElapsedOf(group, n);
      HorizonsOf(if h in HORIZONS then horizons[h := Observe(q, group[n])] else horizons, group, next, q)
  {
    var e := ElapsedOf(group, n);
    NewestIsLatest(group, n, next, e);
    forall h | h != e
      ensures HasRow(group, next, h) <==> HasRow(group, n, h)
      ensures forall j: nat :: IsLatest(group, next, h, j) <==> IsLatest(group, n, h, j)
    {
      OtherHorizonsKeep(group, n, next, h);
    }
  }

  /** analyse_set: postable only with two books or more and a two-sided first one;
      each horizon holds the latest book that rounds to it. */
  method AnalyseSet(group: seq<Row>) returns (rec: Option<Analysed>)
    ensures rec.Some? <==> |group| >= 2 && QuoteOf(group[0]).Some?
    ensures rec.Some? ==> Some(rec.value.quote) == QuoteOf(group[0])
    ensures rec.Some? ==> HorizonsOf(rec.value.horizons, group, |group|, rec.value.quote)
  {
    if |group| < 2 {
      return None;
    }
    var quote := QuoteOf(group[0]);
    if quote == None {
      return None;
    }
    var horizons: map<int, Horizon> := map[];
    for i := 1 to |group|
      invariant HorizonsOf(horizons, group, i, quote.value)
    {
      RowAdds(horizons, group, i, i + 1, quote.value);
      var h := ElapsedOf(group, i);
      if h !in HORIZONS {
        continue;
      }
      horizons := horizons[h := Observe(quote.value, group[i])];
    }
    return Some(Analysed(quote.value, horizons));
  }
}
