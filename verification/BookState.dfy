// The replayed order book (research/run836a_clob_reconstruct.py, lines 74-147):
// price key to size on each side, changed in place by the two update rules.
module BookState {
  import opened Wrappers
  import opened PriceKeys

  datatype Side = Buy | Sell

  datatype Change = Change(asset: nat, side: Side, price: Dec, size: real)

  datatype QuoteLevel = QuoteLevel(price: Dec, size: real)

  datatype Snapshot = Snapshot(bids: seq<QuoteLevel>, asks: seq<QuoteLevel>)

  type Levels = map<string, real>

  /** The value of a book: what its two dictionaries hold. */
  datatype BookValue = BookValue(bids: Levels, asks: Levels)

  function SideOf(b: BookValue, s: Side): Levels {
    if s.Buy? then b.bids else b.asks
  }

  function WithSide(b: BookValue, s: Side, m: Levels): BookValue {
    if s.Buy? then b.(bids := m) else b.(asks := m)
  }

  /** The size a level is read at: zero when it is absent. */
  function SizeAt(m: Levels, p: string): real {
    if p in m then m[p] else 0.0
  }

  // ---- the two update rules -----------------------------------------------

  function SetAbsolute(m: Levels, p: string, s: real): Levels {
    if s == 0.0 then m - {p} else m[p := s]
  }

  function AddDelta(m: Levels, p: string, s: real): Levels {
    var new' := SizeAt(m, p) + s;
    if new' <= 0.0 then m - {p} else m[p := new']
  }

  datatype Model = AbsoluteModel | DeltaModel

  function Apply(model: Model, b: BookValue, ch: Change): BookValue {
    var m, p := SideOf(b, ch.side), Norm(ch.price);
    WithSide(b, ch.side, if model.AbsoluteModel? then SetAbsolute(m, p, ch.size) else AddDelta(m, p, ch.size))
  }

  /** A snapshot's side: zero-size levels are skipped, later prices overwrite earlier ones. */
  function SnapshotSide(levels: seq<QuoteLevel>): Levels {
    if levels == [] then map[]
    else
      var m, lv := SnapshotSide(levels[..|levels| - 1]), levels[|levels| - 1];
      if lv.size != 0.0 then m[Norm(lv.price) := lv.size] else m
  }

  /** The i-th level is the last with a size for the price whose key is k. */
  ghost predicate IsLastLevel(levels: seq<QuoteLevel>, i: nat, k: string) {
    && i < |levels| && Norm(levels[i].price) == k && levels[i].size != 0.0
    && forall j :: i < j < |levels| && Norm(levels[j].price) == k ==> levels[j].size == 0.0
  }

  ghost predicate GivesSize(levels: seq<QuoteLevel>, k: string) {
    exists i: nat :: IsLastLevel(levels, i, k)
  }

  /** A side holds, for each price a snapshot's levels give a size to, the last size
      they give it, and nothing else. */
  ghost predicate Shows(m: Levels, levels: seq<QuoteLevel>) {
    && (forall k :: k in m <==> GivesSize(levels, k))
    && (forall i: nat, k :: IsLastLevel(levels, i, k) ==> k in m && m[k] == levels[i].size)
  }

  lemma {:induction false} SnapshotShows(levels: seq<QuoteLevel>)
    ensures Shows(SnapshotSide(levels), levels)
  {
    if levels != [] {
      var n := |levels| - 1;
      SnapshotShows(levels[..n]);
      OneLevelMore(SnapshotSide(levels[..n]), levels[..n], levels[n]);
      assert levels == levels[..n] + [levels[n]];
    }
  }

  lemma LastLevelOfMore(init: seq<QuoteLevel>, lv: QuoteLevel, key: string, i: nat, k: string)
    requires key == Norm(lv.price)
    ensures IsLastLevel(init + [lv], i, k)
       <==> if lv.size != 0.0 && k == key then i == |init| else IsLastLevel(init, i, k)
  {
    var all := init + [lv];
    assert all[|init|] == lv && forall j :: 0 <= j < |init| ==> all[j] == init[j];
  }

  lemma GivesSizeOfMore(init: seq<QuoteLevel>, lv: QuoteLevel, key: string, k: string)
    requires key == Norm(lv.price)
    ensures GivesSize(init + [lv], k) <==> (lv.size != 0.0 && k == key) || GivesSize(init, k)
  {
    if lv.size != 0.0 && k == key {
      LastLevelOfMore(init, lv, key, |init|, k);
    } else {
      forall i: nat
        ensures IsLastLevel(init + [lv], i, k) <==> IsLastLevel(init, i, k)
      {
        LastLevelOfMore(init, lv, key, i, k);
      }
      if i: nat :| IsLastLevel(init, i, k) {
        assert IsLastLevel(init + [lv], i, k);
      }
    }
  }

  lemma OneLevelMore(m: Levels, init: seq<QuoteLevel>, lv: QuoteLevel)
    requires Shows(m, init)
    ensures Shows(if lv.size != 0.0 then m[Norm(lv.price) := lv.size] else m, init + [lv])
  {
    var all, key := init + [lv], Norm(lv.price);
    var after := if lv.size != 0.0 then m[key := lv.size] else m;
    forall k
      ensures k in after <==> GivesSize(all, k)
    {
      GivesSizeOfMore(init, lv, key, k);
    }
    forall i: nat, k | IsLastLevel(all, i, k)
      ensures k in after && after[k] == all[i].size
    {
      LastLevelOfMore(init, lv, key, i, k);
    }
  }

  function FromSnapshotValue(s: Snapshot): BookValue {
    BookValue(SnapshotSide(s.bids), SnapshotSide(s.asks))
  }

  // ---- the best key -------------------------------------------------------

  /** The greatest key of a bid side, the least of an ask side, as strings. */
  ghost predicate IsBestKey(m: Levels, s: Side, best: Option<string>) {
    match best
    case None => m == map[]
    case Some(k) => k in m && forall j :: j in m ==> if s.Buy? then !Less(k, j) else !Less(j, k)
  }

  lemma BestKeyUnique(m: Levels, s: Side, a: Option<string>, b: Option<string>)
    requires IsBestKey(m, s, a) && IsBestKey(m, s, b)
    ensures a == b
  {
    if a.Some? && b.Some? {
      LessIsTotal(a.value, b.value);
    }
  }

  // ---- the mutable book ---------------------------------------------------

  class Book {
    var bids: Levels
    var asks: Levels

    constructor (bids: Levels, asks: Levels)
      ensures this.bids == bids && this.asks == asks
    {
      this.bids, this.asks := bids, asks;
    }

    function Contents(): BookValue
      reads this
    {
      BookValue(bids, asks)
    }

    static method FromSnapshot(s: Snapshot) returns (b: Book)
      ensures fresh(b) && b.Contents() == FromSnapshotValue(s)
      ensures Shows(b.bids, s.bids) && Shows(b.asks, s.asks)
    {
      SnapshotShows(s.bids);
      SnapshotShows(s.asks);
      var bids := ReadSide(s.bids);
      var asks := ReadSide(s.asks);
      b := new Book(bids, asks);
    }

    static method ReadSide(levels: seq<QuoteLevel>) returns (m: Levels)
      ensures m == SnapshotSide(levels)
    {
      m := map[];
      assert levels[..|levels|] == levels;
      for i := 0 to |levels|
        invariant m == SnapshotSide(levels[..i])
      {
        assert levels[..i + 1][..i] == levels[..i];
        if levels[i].size != 0.0 {
          m := m[Norm(levels[i].price) := levels[i].size];
        }
      }
    }

    method Copy() returns (b: Book)
      ensures fresh(b) && b.Contents() == Contents()
    {
      b := new Book(bids, asks);
    }

    method Update(model: Model, ch: Change)
      modifies this
      ensures Contents() == Apply(model, old(Contents()), ch)
    {
      match model {
        case AbsoluteModel => ApplyAbsolute(ch);
        case DeltaModel => ApplyDelta(ch);
      }
    }

    method ApplyAbsolute(ch: Change)
      modifies this
      ensures Contents() == Apply(AbsoluteModel, old(Contents()), ch)
    {
      var p, s := Norm(ch.price), ch.size;
      var d := if ch.side.Buy? then bids else asks;
      if s == 0.0 {
        d := d - {p};
      } else {
        d := d[p := s];
      }
      if ch.side.Buy? { bids := d; } else { asks := d; }
    }

    method ApplyDelta(ch: Change)
      modifies this
      ensures Contents() == Apply(DeltaModel, old(Contents()), ch)
    {
      var p := Norm(ch.price);
      var d := if ch.side.Buy? then bids else asks;
      var after := (if p in d then d[p] else 0.0) + ch.size;
      if after <= 0.0 {
        d := d - {p};
      } else {
        d := d[p := after];
      }
      if ch.side.Buy? { bids := d; } else { asks := d; }
    }

    /** max(self.bids), the greatest key as a string. */
    method BestBid() returns (best: Option<string>)
      ensures IsBestKey(bids, Buy, best)
    {
      best := None;
      var todo := bids.Keys;
      while todo != {}
        invariant todo <= bids.Keys
        invariant best.None? <==> todo == bids.Keys
        invariant best.Some? ==> best.value in bids && forall k :: k in bids && k !in todo ==> !Less(best.value, k)
        decreases todo
      {
        var k :| k in todo;
        todo := todo - {k};
        if best.None? || Less(best.value, k) {
          ghost var was := best;
          best := Some(k);
          LessIsTotal(k, k);
          forall j | j in bids && j !in todo
            ensures !Less(k, j)
          {
            if was.Some? && Less(k, j) {
              LessIsTransitive(was.value, k, j);
            }
          }
        }
      }
    }

    /** min(self.asks), the least key as a string. */
    method BestAsk() returns (best: Option<string>)
      ensures IsBestKey(asks, Sell, best)
    {
      best := None;
      var todo := asks.Keys;
      while todo != {}
        invariant todo <= asks.Keys
        invariant best.None? <==> todo == asks.Keys
        invariant best.Some? ==> best.value in asks && forall k :: k in asks && k !in todo ==> !Less(k, best.value)
        decreases todo
      {
        var k :| k in todo;
        todo := todo - {k};
        if best.None? || Less(k, best.value) {
          ghost var was := best;
          best := Some(k);
          LessIsTotal(k, k);
          forall j | j in asks && j !in todo
            ensures !Less(j, k)
          {
            if was.Some? && Less(j, k) {
              LessIsTransitive(j, k, was.value);
            }
          }
        }
      }
    }
  }

  lemma {:induction false} LessIsTransitive(s: string, t: string, u: string)
    requires Less(s, t) && Less(t, u)
    ensures Less(s, u)
  {
    if s != "" && s[0] == t[0] == u[0] {
      LessIsTransitive(s[1..], t[1..], u[1..]);
    }
  }

  // ---- string-best is price-best ------------------------------------------

  /** k is the key of a price below ten, namely p. */
  ghost predicate IsKeyOf(k: string, p: Dec) {
    Value(p) < 10.0 && Norm(p) == k
  }

  ghost predicate KeysInRange(m: Levels) {
    forall k :: k in m ==> exists p: Dec :: IsKeyOf(k, p)
  }

  ghost predicate InRange(b: BookValue) {
    KeysInRange(b.bids) && KeysInRange(b.asks)
  }

  /** A book built from prices below ten stays one under both update rules. */
  lemma UpdateKeepsRange(model: Model, b: BookValue, ch: Change)
    requires InRange(b) && Value(ch.price) < 10.0
    ensures InRange(Apply(model, b, ch))
  {
    assert IsKeyOf(Norm(ch.price), ch.price);
  }

  lemma {:induction false} SnapshotInRange(levels: seq<QuoteLevel>)
    requires forall lv :: lv in levels ==> Value(lv.price) < 10.0
    ensures KeysInRange(SnapshotSide(levels))
  {
    if levels != [] {
      SnapshotInRange(levels[..|levels| - 1]);
      assert levels[|levels| - 1] in levels;
      assert IsKeyOf(Norm(levels[|levels| - 1].price), levels[|levels| - 1].price);
    }
  }

  /** p is the best price among those the keys of a side stand for. */
  ghost predicate IsBestPrice(m: Levels, s: Side, p: Dec) {
    forall k, q: Dec :: k in m && IsKeyOf(k, q) ==> if s.Buy? then Value(q) <= Value(p) else Value(p) <= Value(q)
  }

  /** On such a book the best key is the key of the best price. */
  lemma BestKeyIsBestPrice(m: Levels, s: Side, best: string, p: Dec)
    requires IsBestKey(m, s, Some(best)) && IsKeyOf(best, p)
    ensures IsBestPrice(m, s, p)
  {
    forall k, q: Dec | k in m && IsKeyOf(k, q)
      ensures if s.Buy? then Value(q) <= Value(p) else Value(p) <= Value(q)
    {
      KeyOrderIsPriceOrder(p, q);
      KeyOrderIsPriceOrder(q, p);
    }
  }
}
