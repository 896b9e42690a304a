// The two venues' book records (research/run85_phasex_kalshi.py, lines 495-586):
// one venue's resting NO bids are mirrored through one dollar into YES asks, the
// other's offers are taken as quoted; both are sorted and renumbered, which is
// where the depth walk's ordering premise comes from.
module BookRecord {
  import opened Rounding
  import opened Wrappers
  import opened Counting
  import opened DepthWalk

  /** One entry of a payload: a pair of numbers, or something that is not one. */
  datatype Raw = Malformed | Pair(price: real, quantity: real)

  datatype Quote = Quote(price: real, quantity: real)

  /** _levels: malformed entries are dropped, cents become dollars. */
  method Levels(pairs: seq<Raw>, scaleCents: bool) returns (out: seq<Quote>)
    ensures out == Parsed(pairs, scaleCents)
  {
    out := [];
    assert pairs[..|pairs|] == pairs;
    for i := 0 to |pairs|
      invariant out == Parsed(pairs[..i], scaleCents)
    {
      assert pairs[..i + 1][..i] == pairs[..i];
      match pairs[i]
      case Malformed =>
      case Pair(p, q) => out := out + [Quote(if scaleCents then p / 100.0 else p, q)];
    }
  }

  function Parsed(pairs: seq<Raw>, scaleCents: bool): seq<Quote> {
    if pairs == [] then []
    else
      var init, last := Parsed(pairs[..|pairs| - 1], scaleCents), pairs[|pairs| - 1];
      match last
      case Malformed => init
      case Pair(p, q) => init + [Quote(if scaleCents then p / 100.0 else p, q)]
  }

  // ---- the stable sort ----------------------------------------------------

  function InsertAfterEqual(s: seq<Quote>, x: Quote, key: Quote -> real): seq<Quote> {
    if s == [] then [x]
    else if key(s[|s| - 1]) <= key(x) then s + [x]
    else InsertAfterEqual(s[..|s| - 1], x, key) + [s[|s| - 1]]
  }

  /** sorted(s, key): ascending in the key, equal keys kept in their order. */
  function Sorted(s: seq<Quote>, key: Quote -> real): seq<Quote> {
    if s == [] then [] else InsertAfterEqual(Sorted(s[..|s| - 1], key), s[|s| - 1], key)
  }

  ghost predicate IsAscending(s: seq<Quote>, key: Quote -> real) {
    forall i, j :: 0 <= i < j < |s| ==> key(s[i]) <= key(s[j])
  }

  lemma {:induction false} InsertKeepsOrder(s: seq<Quote>, x: Quote, key: Quote -> real)
    requires IsAscending(s, key)
    ensures IsAscending(InsertAfterEqual(s, x, key), key)
    ensures var t := InsertAfterEqual(s, x, key);
      |t| == |s| + 1 && forall i :: 0 <= i < |t| ==> key(t[i]) <= key(x) || (s != [] && key(t[i]) <= key(s[|s| - 1]))
  {
    if s != [] && key(s[|s| - 1]) > key(x) {
      InsertKeepsOrder(s[..|s| - 1], x, key);
    }
  }

  lemma {:induction false} InsertKeepsElements(s: seq<Quote>, x: Quote, key: Quote -> real)
    ensures multiset(InsertAfterEqual(s, x, key)) == multiset(s) + multiset{x}
  {
    if s != [] && key(s[|s| - 1]) > key(x) {
      InsertKeepsElements(s[..|s| - 1], x, key);
      assert s == s[..|s| - 1] + [s[|s| - 1]];
    }
  }

  lemma {:induction false} InsertThenMirror(s: seq<Quote>, x: Quote, key: Quote -> real)
    ensures multiset(MirrorAll(InsertAfterEqual(s, x, key))) == multiset(MirrorAll(s)) + multiset{Mirror(x)}
  {
    if s == [] || key(s[|s| - 1]) <= key(x) {
      MirrorAppend(s, x);
    } else {
      var init, last := s[..|s| - 1], s[|s| - 1];
      InsertThenMirror(init, x, key);
      MirrorAppend(init, last);
      MirrorAppend(InsertAfterEqual(init, x, key), last);
      assert s == init + [last];
    }
  }

  lemma MirrorAppend(s: seq<Quote>, x: Quote)
    ensures MirrorAll(s + [x]) == MirrorAll(s) + [Mirror(x)]
  {
  }

  lemma {:induction false} SortedIsSorted(s: seq<Quote>, key: Quote -> real)
    ensures IsAscending(Sorted(s, key), key)
    ensures multiset(Sorted(s, key)) == multiset(s)
    ensures multiset(MirrorAll(Sorted(s, key))) == multiset(MirrorAll(s))
  {
    if s != [] {
      var init, last := s[..|s| - 1], s[|s| - 1];
      SortedIsSorted(init, key);
      InsertKeepsOrder(Sorted(init, key), last, key);
      InsertKeepsElements(Sorted(init, key), last, key);
      InsertThenMirror(Sorted(init, key), last, key);
      MirrorAppend(init, last);
      assert s == init + [last];
    }
  }

  lemma {:induction false} SortingSortedChangesNothing(s: seq<Quote>, key: Quote -> real)
    requires IsAscending(s, key)
    ensures Sorted(s, key) == s
  {
    if s != [] {
      var init, last := s[..|s| - 1], s[|s| - 1];
      SortingSortedChangesNothing(init, key);
      assert s == init + [last];
      if init != [] {
        assert key(init[|init| - 1]) == key(s[|s| - 2]) <= key(last);
      }
    }
  }

  // ---- executable asks ----------------------------------------------------

  function Round6(x: real): real {
    RoundHalfEven(x * 1000000.0) as real / 1000000.0
  }

  lemma Round6Monotone(x: real, y: real)
    requires x <= y
    ensures Round6(x) <= Round6(y)
  {
    RoundMonotone(x * 1000000.0, y * 1000000.0);
  }

  function Mirror(bid: Quote): Quote {
    Quote(Round6(1.0 - bid.price), bid.quantity)
  }

  /** A price of at most six decimal places. */
  predicate SixPlaces(p: real) {
    IsWhole(p * 1000000.0)
  }

  lemma Round6Exact(x: real)
    ensures -0.0000005 <= Round6(x) - x <= 0.0000005
    ensures Round6(x) == x <==> SixPlaces(x)
  {
    RoundedIff(RoundHalfEven(x * 1000000.0), x * 1000000.0);
    RoundsToItselfIff(x * 1000000.0);
  }

  lemma Round6IsSixPlaces(x: real)
    ensures SixPlaces(Round6(x))
  {
    WholeWhen(Round6(x) * 1000000.0, RoundHalfEven(x * 1000000.0));
  }

  lemma SixPlacesMirrored(p: real)
    ensures SixPlaces(1.0 - p) <==> SixPlaces(p)
  {
    var y, z := p * 1000000.0, (1.0 - p) * 1000000.0;
    assert y + z == 1000000 as real;
    if IsWhole(y) {
      WholeComplement(y, z, 1000000);
    }
    if IsWhole(z) {
      WholeComplement(z, y, 1000000);
    }
  }

  /** An ask is within half a millionth of one less the No bid, and is exactly that
      when the bid has six places, as shipped prices do. */
  lemma MirrorIsNearest(bid: Quote)
    ensures Mirror(bid).quantity == bid.quantity
    ensures -0.0000005 <= Mirror(bid).price - (1.0 - bid.price) <= 0.0000005
    ensures Mirror(bid).price == 1.0 - bid.price <==> SixPlaces(bid.price)
  {
    Round6Exact(1.0 - bid.price);
    SixPlacesMirrored(bid.price);
  }

  /** Mirroring twice gives the quote back exactly when its price has six places. */
  lemma MirrorTwiceIff(bid: Quote)
    ensures Mirror(Mirror(bid)) == bid <==> SixPlaces(bid.price)
  {
    var ask := Mirror(bid);
    MirrorIsNearest(bid);
    MirrorIsNearest(ask);
    Round6IsSixPlaces(1.0 - bid.price);
    SixPlacesMirrored(ask.price);
    Round6IsSixPlaces(1.0 - ask.price);
  }

  function MirrorAll(bids: seq<Quote>): (asks: seq<Quote>)
    ensures |asks| == |bids|
    ensures forall i :: 0 <= i < |bids| ==> asks[i] == Mirror(bids[i])
  {
    seq(|bids|, i requires 0 <= i < |bids| => Mirror(bids[i]))
  }

  const BY_PRICE: Quote -> real := (q: Quote) => q.price
  const BY_PRICE_DESCENDING: Quote -> real := (q: Quote) => -q.price

  ghost predicate IsNumbering(levels: seq<Level>, quotes: seq<Quote>) {
    && |levels| == |quotes|
    && forall i :: 0 <= i < |levels| ==> levels[i] == Level(Some(i + 1), quotes[i].price, quotes[i].quantity)
  }

  method Renumber(quotes: seq<Quote>) returns (levels: seq<Level>)
    ensures IsNumbering(levels, quotes)
  {
    levels := [];
    for i := 0 to |quotes|
      invariant |levels| == i
      invariant forall k :: 0 <= k < i ==> levels[k] == Level(Some(k + 1), quotes[k].price, quotes[k].quantity)
    {
      levels := levels + [Level(Some(i + 1), quotes[i].price, quotes[i].quantity)];
    }
  }

  /** The ask ladder a record holds for the payload it was read from. */
  ghost predicate IsKalshiAsks(asks: seq<Level>, noRaw: seq<Raw>, scaleNo: bool) {
    IsNumbering(asks, MirrorAll(Sorted(Parsed(noRaw, scaleNo), BY_PRICE_DESCENDING)))
  }

  ghost predicate IsPmusAsks(asks: seq<Level>, offers: seq<Raw>) {
    IsNumbering(asks, Sorted(Parsed(offers, false), BY_PRICE))
  }

  /** Both sides of the record. The asks are mirrored in descending bid order and
      then sorted in place; that second sort has nothing left to do. */
  method KalshiBook(yesRaw: seq<Raw>, noRaw: seq<Raw>, scaleYes: bool, scaleNo: bool)
    returns (bids: seq<Level>, asks: seq<Level>)
    ensures IsNumbering(bids, Sorted(Parsed(yesRaw, scaleYes), BY_PRICE_DESCENDING))
    ensures IsKalshiAsks(asks, noRaw, scaleNo) && Ascending(asks)
  {
    var yes := Levels(yesRaw, scaleYes);
    var no := Levels(noRaw, scaleNo);
    bids := Renumber(Sorted(yes, BY_PRICE_DESCENDING));
    var mirrored := MirrorAll(Sorted(no, BY_PRICE_DESCENDING));
    MirroredBidsAscend(no);
    SortingSortedChangesNothing(mirrored, BY_PRICE);
    mirrored := Sorted(mirrored, BY_PRICE);
    asks := Renumber(mirrored);
    KalshiAsksAscend(asks, noRaw, scaleNo);
  }

  /** The other venue quotes both sides natively, in dollars. */
  method PmusBook(bidRows: seq<Raw>, offers: seq<Raw>) returns (bids: seq<Level>, asks: seq<Level>)
    ensures IsNumbering(bids, Sorted(Parsed(bidRows, false), BY_PRICE_DESCENDING))
    ensures IsPmusAsks(asks, offers) && Ascending(asks)
  {
    var buy := Levels(bidRows, false);
    var sell := Levels(offers, false);
    bids := Renumber(Sorted(buy, BY_PRICE_DESCENDING));
    asks := Renumber(Sorted(sell, BY_PRICE));
    PmusAsksAscend(asks, offers);
  }

  lemma NumberingAscends(levels: seq<Level>, quotes: seq<Quote>)
    requires IsNumbering(levels, quotes) && IsAscending(quotes, BY_PRICE)
    ensures Ascending(levels)
  {
    assert forall i :: 0 <= i < |levels| ==> levels[i].price == BY_PRICE(quotes[i]);
  }

  /** Whatever the payloads, both records hand the depth walk a ladder in order. */
  lemma KalshiAsksAscend(asks: seq<Level>, noRaw: seq<Raw>, scaleNo: bool)
    requires IsKalshiAsks(asks, noRaw, scaleNo)
    ensures Ascending(asks)
  {
    MirroredBidsAscend(Parsed(noRaw, scaleNo));
    NumberingAscends(asks, MirrorAll(Sorted(Parsed(noRaw, scaleNo), BY_PRICE_DESCENDING)));
  }

  lemma PmusAsksAscend(asks: seq<Level>, offers: seq<Raw>)
    requires IsPmusAsks(asks, offers)
    ensures Ascending(asks)
  {
    SortedIsSorted(Parsed(offers, false), BY_PRICE);
    NumberingAscends(asks, Sorted(Parsed(offers, false), BY_PRICE));
  }

  // ---- prices between zero and one ----------------------------------------

  ghost predicate UnitQuotes(quotes: seq<Quote>) {
    forall q :: q in quotes ==> 0.0 <= q.price <= 1.0
  }

  lemma UnitNumbering(levels: seq<Level>, quotes: seq<Quote>)
    requires IsNumbering(levels, quotes) && UnitQuotes(quotes)
    ensures UnitPrices(levels)
  {
    forall lv | lv in levels
      ensures 0.0 <= lv.price <= 1.0
    {
      var i :| 0 <= i < |levels| && levels[i] == lv;
      assert quotes[i] in quotes;
    }
  }

  lemma SortedKeepsUnit(quotes: seq<Quote>, key: Quote -> real)
    requires UnitQuotes(quotes)
    ensures UnitQuotes(Sorted(quotes, key))
  {
    SortedIsSorted(quotes, key);
    forall q | q in Sorted(quotes, key)
      ensures q in quotes
    {
      assert q in multiset(Sorted(quotes, key));
    }
  }

  lemma MirrorKeepsUnit(quotes: seq<Quote>)
    requires UnitQuotes(quotes)
    ensures UnitQuotes(MirrorAll(quotes))
  {
    forall q | q in MirrorAll(quotes)
      ensures 0.0 <= q.price <= 1.0
    {
      var i :| 0 <= i < |quotes| && q == Mirror(quotes[i]);
      assert quotes[i] in quotes;
      Round6Monotone(0.0, 1.0 - quotes[i].price);
      Round6Monotone(1.0 - quotes[i].price, 1.0);
      RoundInteger(0);
      RoundInteger(1000000);
    }
  }

  lemma KalshiAsksAreUnit(asks: seq<Level>, noRaw: seq<Raw>, scaleNo: bool)
    requires IsKalshiAsks(asks, noRaw, scaleNo) && UnitQuotes(Parsed(noRaw, scaleNo))
    ensures UnitPrices(asks)
  {
    SortedKeepsUnit(Parsed(noRaw, scaleNo), BY_PRICE_DESCENDING);
    MirrorKeepsUnit(Sorted(Parsed(noRaw, scaleNo), BY_PRICE_DESCENDING));
    UnitNumbering(asks, MirrorAll(Sorted(Parsed(noRaw, scaleNo), BY_PRICE_DESCENDING)));
  }

  lemma PmusAsksAreUnit(asks: seq<Level>, offers: seq<Raw>)
    requires IsPmusAsks(asks, offers) && UnitQuotes(Parsed(offers, false))
    ensures UnitPrices(asks)
  {
    SortedKeepsUnit(Parsed(offers, false), BY_PRICE);
    UnitNumbering(asks, Sorted(Parsed(offers, false), BY_PRICE));
  }

  lemma MirroredBidsAscend(no: seq<Quote>)
    ensures IsAscending(MirrorAll(Sorted(no, BY_PRICE_DESCENDING)), BY_PRICE)
  {
    SortedIsSorted(no, BY_PRICE_DESCENDING);
    MirrorReverses(Sorted(no, BY_PRICE_DESCENDING));
  }

  lemma MirrorReverses(bids: seq<Quote>)
    requires IsAscending(bids, BY_PRICE_DESCENDING)
    ensures IsAscending(MirrorAll(bids), BY_PRICE)
  {
    var asks := MirrorAll(bids);
    forall i, j | 0 <= i < j < |asks|
      ensures BY_PRICE(asks[i]) <= BY_PRICE(asks[j])
    {
      assert BY_PRICE_DESCENDING(bids[i]) <= BY_PRICE_DESCENDING(bids[j]);
      Round6Monotone(1.0 - bids[i].price, 1.0 - bids[j].price);
    }
  }

  /** The second sort of the asks never moves anything, ties included, and no
      quote is lost or invented on the way from the payload. */
  lemma SecondSortIsIdentity(no: seq<Quote>)
    ensures var mirrored := MirrorAll(Sorted(no, BY_PRICE_DESCENDING));
      && Sorted(mirrored, BY_PRICE) == mirrored
      && multiset(mirrored) == multiset(MirrorAll(no))
  {
    MirroredBidsAscend(no);
    SortingSortedChangesNothing(MirrorAll(Sorted(no, BY_PRICE_DESCENDING)), BY_PRICE);
    SortedIsSorted(no, BY_PRICE_DESCENDING);
  }

  // ---- what is read, and the order of equals ------------------------------

  /** A pair read as a quote: its price, in dollars, and its quantity. */
  ghost predicate IsQuoteOf(q: Quote, r: Raw, scaleCents: bool) {
    && r.Pair? && q.quantity == r.quantity
    && (if scaleCents then 100.0 * q.price == r.price else q.price == r.price)
  }

  ghost predicate AreQuotesOf(out: seq<Quote>, raw: seq<Raw>, scaleCents: bool, idx: seq<nat>) {
    && |out| == |idx|
    && forall k :: 0 <= k < |idx| ==> idx[k] < |raw| && IsQuoteOf(out[k], raw[idx[k]], scaleCents)
  }

  ghost function PairAt(raw: seq<Raw>): nat -> bool {
    (i: nat) => i < |raw| && raw[i].Pair?
  }

  /** What is parsed is, in order, the quotes of exactly the payload's pairs. */
  lemma ParsedReads(raw: seq<Raw>, scaleCents: bool) returns (idx: seq<nat>)
    ensures Lists(idx, PairAt(raw), |raw|)
    ensures AreQuotesOf(Parsed(raw, scaleCents), raw, scaleCents, idx)
  {
    idx := PrefixReads(raw, scaleCents, |raw|);
    assert raw[..|raw|] == raw;
  }

  lemma {:induction false} PrefixReads(raw: seq<Raw>, scaleCents: bool, n: nat) returns (idx: seq<nat>)
    requires n <= |raw|
    ensures Lists(idx, PairAt(raw), n)
    ensures AreQuotesOf(Parsed(raw[..n], scaleCents), raw, scaleCents, idx)
  {
    if n == 0 {
      ListsNone(PairAt(raw));
      idx := [];
    } else {
      var before := PrefixReads(raw, scaleCents, n - 1);
      ListsOneMore(before, PairAt(raw), n - 1);
      ReadOneMore(raw, scaleCents, before, n - 1);
      idx := if raw[n - 1].Pair? then before + [n - 1] else before;
    }
  }

  lemma ReadOneMore(raw: seq<Raw>, scaleCents: bool, idx: seq<nat>, n: nat)
    requires n < |raw| && AreQuotesOf(Parsed(raw[..n], scaleCents), raw, scaleCents, idx)
    ensures AreQuotesOf(Parsed(raw[..n + 1], scaleCents), raw, scaleCents, if raw[n].Pair? then idx + [n] else idx)
  {
    assert raw[..n + 1][..n] == raw[..n];
  }

  /** The quotes of one key, in order. */
  function OfKey(s: seq<Quote>, key: Quote -> real, v: real): seq<Quote> {
    if s == [] then []
    else OfKey(s[..|s| - 1], key, v) + if key(s[|s| - 1]) == v then [s[|s| - 1]] else []
  }

  lemma OfKeyAppend(s: seq<Quote>, x: Quote, key: Quote -> real, v: real)
    ensures OfKey(s + [x], key, v) == OfKey(s, key, v) + if key(x) == v then [x] else []
  {
    assert (s + [x])[..|s|] == s;
  }

  lemma {:induction false} InsertIsStable(s: seq<Quote>, x: Quote, key: Quote -> real, v: real)
    requires IsAscending(s, key)
    ensures OfKey(InsertAfterEqual(s, x, key), key, v) == OfKey(s, key, v) + if key(x) == v then [x] else []
  {
    if s == [] || key(s[|s| - 1]) <= key(x) {
      OfKeyAppend(s, x, key, v);
    } else {
      var init, last := s[..|s| - 1], s[|s| - 1];
      InsertIsStable(init, x, key, v);
      OfKeyAppend(InsertAfterEqual(init, x, key), last, key, v);
    }
  }

  /** Equal keys keep their order, for every sort key. */
  lemma {:induction false} SortIsStable(s: seq<Quote>, key: Quote -> real, v: real)
    ensures OfKey(Sorted(s, key), key, v) == OfKey(s, key, v)
  {
    if s != [] {
      var init, last := s[..|s| - 1], s[|s| - 1];
      SortIsStable(init, key, v);
      SortedIsSorted(init, key);
      InsertIsStable(Sorted(init, key), last, key, v);
    }
  }
}
