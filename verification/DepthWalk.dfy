// Walking displayed depth: by quantity (vwap, research/run85_phasex_economics.py,
// lines 379-411) and by notional (walk_ask_ladder, research/run84_native_pair.py,
// lines 78-106). Prices and quantities are exact reals.
module DepthWalk {
  import opened Arithmetic
  import opened Wrappers

  /** One level of a ladder, with the number its record gave it, if it gave one. */
  datatype Level = Level(level: Option<nat>, price: real, quantity: real)

  function Min(x: real, y: real): real { if x <= y then x else y }

  function Positive(x: real): real { if x > 0.0 then x else 0.0 }

  /** Everything a buyer could take: levels of non-positive quantity show nothing. */
  function Depth(levels: seq<Level>): real {
    if levels == [] then 0.0 else Positive(levels[0].quantity) + Depth(levels[1..])
  }

  /** The sum the record calls DISPLAYED_QTY. */
  function Displayed(levels: seq<Level>): real {
    if levels == [] then 0.0 else levels[0].quantity + Displayed(levels[1..])
  }

  /** The outcome of buying: shares obtained and dollars spent. */
  datatype Walk = Walk(fill: real, cost: real)

  function AddLevel(lv: Level, amount: real, rest: Walk): Walk {
    Walk(amount + rest.fill, amount * lv.price + rest.cost)
  }

  /** The quantity taken from one level when `room` is still wanted. */
  function Take(lv: Level, room: real): real {
    Positive(Min(lv.quantity, room))
  }

  /** Buying up to `want` shares, first level first. */
  function ByQuantity(levels: seq<Level>, want: real): Walk {
    if levels == [] then Walk(0.0, 0.0)
    else AddLevel(levels[0], Take(levels[0], want), ByQuantity(levels[1..], want - Take(levels[0], want)))
  }

  /** The walk fills exactly what was asked or what is shown, whichever is less. */
  lemma {:induction false} FillIsMin(levels: seq<Level>, want: real)
    ensures Depth(levels) >= 0.0
    ensures ByQuantity(levels, want).fill == Min(Positive(want), Depth(levels))
  {
    if levels != [] {
      FillIsMin(levels[1..], want - Take(levels[0], want));
    }
  }

  lemma {:induction false} DepthIsDisplayed(levels: seq<Level>)
    requires forall lv :: lv in levels ==> lv.quantity >= 0.0
    ensures Depth(levels) == Displayed(levels)
  {
    if levels != [] {
      DepthIsDisplayed(levels[1..]);
    }
  }

  // ---- the loop of vwap ---------------------------------------------------

  datatype Walked = Walked(level: Option<nat>, price: real, taken: real)

  /** The non-empty takes, as LEVELS_WALKED lists them. */
  function WalkedLevels(levels: seq<Level>, want: real): seq<Walked> {
    if levels == [] then []
    else
      var take := Take(levels[0], want);
      (if take > 0.0 then [Walked(levels[0].level, levels[0].price, take)] else [])
      + WalkedLevels(levels[1..], want - take)
  }

  datatype Leg = Leg(requested: real, filled: real, exhausted: bool, displayed: real, vwap: Option<real>,
                     notional: real, walked: seq<Walked>)

  const TOLERANCE := 0.000000000001

  ghost predicate IsVwapLeg(leg: Leg, levels: seq<Level>, want: real) {
    && leg.requested == want
    && Walk(leg.filled, leg.notional) == ByQuantity(levels, want)
    && leg.displayed == Displayed(levels)
    && (leg.exhausted <==> Min(Positive(want), Depth(levels)) < want - TOLERANCE)
    && (leg.vwap == if leg.filled > 0.0 then Some(leg.notional / leg.filled) else None)
    && leg.walked == WalkedLevels(levels, want)
  }

  /** The loop's three variables after `i` levels, no level being ever revisited. */
  datatype Sweep = Sweep(filled: real, cost: real, walked: seq<Walked>)

  function SweepLevel(s: Sweep, lv: Level, want: real): Sweep {
    var take := Min(lv.quantity, want - s.filled);
    if take > 0.0 then
      Sweep(s.filled + take, s.cost + take * lv.price, s.walked + [Walked(lv.level, lv.price, take)])
    else s
  }

  function SweepTo(levels: seq<Level>, want: real, i: nat): Sweep
    requires i <= |levels|
  {
    if i == 0 then Sweep(0.0, 0.0, []) else SweepLevel(SweepTo(levels, want, i - 1), levels[i - 1], want)
  }

  ghost predicate Completes(s: Sweep, levels: seq<Level>, want: real, i: nat)
    requires i <= |levels|
  {
    && Adds(Walk(s.filled, s.cost), ByQuantity(levels[i..], want - s.filled), ByQuantity(levels, want))
    && s.walked + WalkedLevels(levels[i..], want - s.filled) == WalkedLevels(levels, want)
  }

  lemma {:induction false} SweepCompletes(levels: seq<Level>, want: real, i: nat)
    requires i <= |levels|
    ensures Completes(SweepTo(levels, want, i), levels, want, i)
  {
    if i == 0 {
      assert levels[0..] == levels;
    } else {
      SweepCompletes(levels, want, i - 1);
      SweepLevelCompletes(SweepTo(levels, want, i - 1), levels, want, i - 1);
    }
  }

  lemma SweepLevelCompletes(s: Sweep, levels: seq<Level>, want: real, i: nat)
    requires i < |levels| && Completes(s, levels, want, i)
    ensures Completes(SweepLevel(s, levels[i], want), levels, want, i + 1)
  {
    var lv, take := levels[i], Take(levels[i], want - s.filled);
    assert levels[i..][1..] == levels[i + 1..];
    AddsStep(lv, take, Walk(s.filled, s.cost), ByQuantity(levels[i + 1..], want - s.filled - take),
        ByQuantity(levels, want));
    assert want - (s.filled + take) == want - s.filled - take;
  }

  /** The early exit loses nothing, and the whole sweep is the walk. */
  lemma SweepIsWalk(levels: seq<Level>, want: real, i: nat)
    requires i <= |levels|
    requires i == |levels| || SweepTo(levels, want, i).filled >= want
    ensures var s := SweepTo(levels, want, i);
      Walk(s.filled, s.cost) == ByQuantity(levels, want) && s.walked == WalkedLevels(levels, want)
  {
    var s := SweepTo(levels, want, i);
    SweepCompletes(levels, want, i);
    if i < |levels| {
      NothingWanted(levels[i..], want - s.filled);
    }
  }

  /** The record made of the swept variables is the walk's. */
  lemma SweepGivesLeg(levels: seq<Level>, want: real, i: nat)
    requires i <= |levels|
    requires i == |levels| || SweepTo(levels, want, i).filled >= want
    ensures var s := SweepTo(levels, want, i);
      IsVwapLeg(Leg(want, s.filled, s.filled < want - TOLERANCE, Displayed(levels),
                    if s.filled > 0.0 then Some(s.cost / s.filled) else None, s.cost, s.walked), levels, want)
  {
    SweepIsWalk(levels, want, i);
    FillIsMin(levels, want);
  }

  method Vwap(levels: seq<Level>, want: real) returns (leg: Leg)
    ensures IsVwapLeg(leg, levels, want)
  {
    var filled, cost, walked := 0.0, 0.0, [];
    var i := 0;
    while i < |levels|
      invariant 0 <= i <= |levels| && Sweep(filled, cost, walked) == SweepTo(levels, want, i)
    {
      if filled >= want {
        break;
      }
      var take := Min(levels[i].quantity, want - filled);
      if take > 0.0 {
        cost := cost + take * levels[i].price;
        filled := filled + take;
        walked := walked + [Walked(levels[i].level, levels[i].price, take)];
      }
      i := i + 1;
    }
    var displayed := SumDisplayed(levels);
    SweepGivesLeg(levels, want, i);
    leg := Leg(want, filled, filled < want - TOLERANCE, displayed,
               if filled > 0.0 then Some(cost / filled) else None, cost, walked);
  }

  ghost predicate Adds(a: Walk, b: Walk, whole: Walk) {
    a.fill + b.fill == whole.fill && a.cost + b.cost == whole.cost
  }

  lemma AddsStep(lv: Level, t: real, a: Walk, b: Walk, whole: Walk)
    requires Adds(a, AddLevel(lv, t, b), whole)
    ensures Adds(Walk(a.fill + t, a.cost + t * lv.price), b, whole)
    ensures t == 0.0 ==> Adds(a, b, whole)
  {
  }

  method SumDisplayed(levels: seq<Level>) returns (displayed: real)
    ensures displayed == Displayed(levels)
  {
    displayed := 0.0;
    assert levels[0..] == levels;
    for j := 0 to |levels|
      invariant displayed + Displayed(levels[j..]) == Displayed(levels)
    {
      displayed := displayed + levels[j].quantity;
      assert levels[j..][1..] == levels[j + 1..];
    }
  }

  /** After the early exit nothing more would have been taken. */
  lemma {:induction false} NothingWanted(levels: seq<Level>, want: real)
    requires want <= 0.0
    ensures ByQuantity(levels, want) == Walk(0.0, 0.0)
    ensures WalkedLevels(levels, want) == []
  {
    if levels != [] {
      NothingWanted(levels[1..], want);
    }
  }

  /** Asking for exactly what a walk filled repeats that walk. */
  lemma {:induction false} AskForFill(levels: seq<Level>, want: real)
    ensures ByQuantity(levels, want) == ByQuantity(levels, ByQuantity(levels, want).fill)
  {
    if levels != [] {
      var rest, take := levels[1..], Take(levels[0], want);
      FillIsMin(rest, want - take);
      AskForFill(rest, want - take);
      assert Take(levels[0], ByQuantity(levels, want).fill) == take;
    }
  }

  // ---- the walk is the cheapest way to its fill ---------------------------

  /** Shown levels come in non-decreasing price. */
  ghost predicate Ascending(levels: seq<Level>) {
    forall i, j :: 0 <= i < j < |levels| && levels[i].quantity > 0.0 && levels[j].quantity > 0.0
      ==> levels[i].price <= levels[j].price
  }

  ghost predicate UnitPrices(levels: seq<Level>) {
    forall lv :: lv in levels ==> 0.0 <= lv.price <= 1.0
  }

  ghost predicate AllAtLeast(levels: seq<Level>, lo: real) {
    forall lv :: lv in levels && lv.quantity > 0.0 ==> lv.price >= lo
  }

  /** An allocation across the levels that the shown book would support. */
  ghost predicate Feasible(levels: seq<Level>, x: seq<real>) {
    && |x| == |levels|
    && forall i :: 0 <= i < |x| ==> 0.0 <= x[i] <= Positive(levels[i].quantity)
  }

  function Allot(levels: seq<Level>, x: seq<real>): Walk
    requires |x| == |levels|
  {
    if x == [] then Walk(0.0, 0.0) else AddLevel(levels[0], x[0], Allot(levels[1..], x[1..]))
  }

  /** From walk a to walk b every extra share costs at least lo. */
  ghost predicate Margin(lo: real, a: Walk, b: Walk) {
    a.fill <= b.fill && b.cost - a.cost >= lo * (b.fill - a.fill)
  }

  ghost predicate NoDearer(a: Walk, b: Walk) {
    a.fill == b.fill && a.cost <= b.cost
  }

  lemma MarginStep(lo: real, lv: Level, s: real, t: real, a: Walk, b: Walk)
    requires s == t || (s < t && lv.price >= lo)
    requires Margin(lo, a, b)
    ensures Margin(lo, AddLevel(lv, s, a), AddLevel(lv, t, b))
  {
    MulMonotone(lo, if s == t then lo else lv.price, t - s);
    assert t * lv.price - s * lv.price == lv.price * (t - s);
    assert lo * ((t + b.fill) - (s + a.fill)) == lo * (t - s) + lo * (b.fill - a.fill);
  }

  lemma {:induction false} MarginAtLeast(levels: seq<Level>, v: real, w: real, lo: real)
    requires v <= w && AllAtLeast(levels, lo)
    ensures Margin(lo, ByQuantity(levels, v), ByQuantity(levels, w))
  {
    if levels != [] {
      var rest, s, t := levels[1..], Take(levels[0], v), Take(levels[0], w);
      assert levels[0] in levels;
      MarginAtLeast(rest, v - s, w - t, lo);
      MarginStep(lo, levels[0], s, t, ByQuantity(rest, v - s), ByQuantity(rest, w - t));
    }
  }

  lemma {:induction false} AllotWithinDepth(levels: seq<Level>, x: seq<real>)
    requires Feasible(levels, x)
    ensures 0.0 <= Allot(levels, x).fill <= Depth(levels)
  {
    if x != [] {
      AllotWithinDepth(levels[1..], x[1..]);
    }
  }

  /** Exchange argument: whatever an allocation leaves at the first level it must
      buy further up, at no lower a price. */
  lemma {:induction false} WalkIsCheapest(levels: seq<Level>, want: real, x: seq<real>)
    requires Ascending(levels) && Feasible(levels, x)
    requires Allot(levels, x).fill == ByQuantity(levels, want).fill
    ensures NoDearer(ByQuantity(levels, want), Allot(levels, x))
  {
    if levels != [] {
      var lv, rest, take := levels[0], levels[1..], Take(levels[0], want);
      var y := Allot(rest, x[1..]);
      AllotWithinDepth(rest, x[1..]);
      FillIsMin(rest, y.fill);
      WalkIsCheapest(rest, y.fill, x[1..]);
      TakenFirst(levels, want, x[0], y.fill);
      Exchange(lv, take, x[0], ByQuantity(rest, want - take), ByQuantity(rest, y.fill), y);
    }
  }

  /** Against any other split of one total, the walk takes more at the first level
      and what it leaves there costs at least that level's price further up. */
  lemma TakenFirst(levels: seq<Level>, want: real, first: real, more: real)
    requires Ascending(levels) && levels != [] && 0.0 <= first <= Positive(levels[0].quantity)
    requires 0.0 <= more <= Depth(levels[1..])
    requires first + more == ByQuantity(levels, want).fill
    ensures var take, rest := Take(levels[0], want), levels[1..];
      var few, many := ByQuantity(rest, want - take), ByQuantity(rest, more);
      Margin(levels[0].price, few, many) || (take == first && few == many)
  {
    var lv, rest, take := levels[0], levels[1..], Take(levels[0], want);
    var few := ByQuantity(rest, want - take);
    FillIsMin(rest, want - take);
    AskForFill(rest, want - take);
    if lv.quantity > 0.0 {
      assert AllAtLeast(rest, lv.price);
      MarginAtLeast(rest, few.fill, more, lv.price);
    }
  }

  lemma Exchange(lv: Level, take: real, first: real, few: Walk, many: Walk, y: Walk)
    requires NoDearer(many, y) && take + few.fill == first + y.fill
    requires Margin(lv.price, few, many) || (take == first && few == many)
    ensures NoDearer(AddLevel(lv, take, few), AddLevel(lv, first, y))
  {
    assert many.fill - few.fill == take - first;
    assert lv.price * (take - first) == take * lv.price - first * lv.price;
  }

  /** The least cost is attained: the takes themselves are a feasible allocation. */
  function Takes(levels: seq<Level>, want: real): (x: seq<real>)
    ensures |x| == |levels|
  {
    if levels == [] then [] else [Take(levels[0], want)] + Takes(levels[1..], want - Take(levels[0], want))
  }

  lemma {:induction false} TakesAttainTheWalk(levels: seq<Level>, want: real)
    ensures Feasible(levels, Takes(levels, want))
    ensures Allot(levels, Takes(levels, want)) == ByQuantity(levels, want)
  {
    if levels != [] {
      var rest, take := levels[1..], Take(levels[0], want);
      TakesAttainTheWalk(rest, want - take);
      FirstTaken(levels, take, Takes(rest, want - take), ByQuantity(rest, want - take));
      assert Takes(levels, want) == [take] + Takes(rest, want - take);
    }
  }

  lemma FirstTaken(levels: seq<Level>, t: real, y: seq<real>, a: Walk)
    requires levels != [] && 0.0 <= t <= Positive(levels[0].quantity)
    requires Feasible(levels[1..], y) && Allot(levels[1..], y) == a
    ensures Feasible(levels, [t] + y) && Allot(levels, [t] + y) == AddLevel(levels[0], t, a)
  {
    assert ([t] + y)[1..] == y;
  }

  ghost predicate WalkIsOptimal(levels: seq<Level>) {
    forall want, x :: Feasible(levels, x) && Allot(levels, x).fill == ByQuantity(levels, want).fill
      ==> NoDearer(ByQuantity(levels, want), Allot(levels, x))
  }

  /** The ordering premise is exactly what the guarantee needs. */
  lemma OptimalIffAscending(levels: seq<Level>)
    ensures WalkIsOptimal(levels) <==> Ascending(levels)
  {
    if Ascending(levels) {
      forall want, x | Feasible(levels, x) && Allot(levels, x).fill == ByQuantity(levels, want).fill
        ensures NoDearer(ByQuantity(levels, want), Allot(levels, x))
      {
        WalkIsCheapest(levels, want, x);
      }
    } else {
      var i, j :| 0 <= i < j < |levels| && levels[i].quantity > 0.0 && levels[j].quantity > 0.0
                  && levels[i].price > levels[j].price;
      var want, x := InversionIsBeaten(levels, i, j);
    }
  }

  function Only(n: nat, j: nat, d: real): (x: seq<real>)
    ensures |x| == n
  {
    seq(n, k => if k == j then d else 0.0)
  }

  lemma {:induction false} AllotOnly(levels: seq<Level>, j: nat, d: real)
    ensures Allot(levels, Only(|levels|, j, d)) == if j < |levels| then Walk(d, d * levels[j].price) else Walk(0.0, 0.0)
  {
    if levels != [] {
      var rest := Only(|levels|, j, d)[1..];
      if j == 0 {
        assert rest == Only(|levels| - 1, |levels|, d);
        AllotOnly(levels[1..], |levels|, d);
      } else {
        assert rest == Only(|levels| - 1, j - 1, d);
        AllotOnly(levels[1..], j - 1, d);
      }
    }
  }

  lemma {:induction false} InversionIsBeaten(levels: seq<Level>, i: nat, j: nat) returns (want: real, x: seq<real>)
    requires i < j < |levels| && levels[i].quantity > 0.0 && levels[j].quantity > 0.0
    requires levels[i].price > levels[j].price
    ensures Feasible(levels, x) && want >= 0.0
    ensures Allot(levels, x).fill == ByQuantity(levels, want).fill
    ensures !NoDearer(ByQuantity(levels, want), Allot(levels, x))
  {
    if i == 0 {
      want, x := FirstIsBeaten(levels, j);
    } else {
      var more, y := InversionIsBeaten(levels[1..], i - 1, j - 1);
      var first := Positive(levels[0].quantity);
      want, x := first + more, [first] + y;
      assert x[1..] == y;
      assert Take(levels[0], want) == first;
      StillDearer(levels[0], first, Allot(levels[1..], y), ByQuantity(levels[1..], more));
    }
  }

  lemma FirstIsBeaten(levels: seq<Level>, j: nat) returns (want: real, x: seq<real>)
    requires 0 < j < |levels| && levels[0].quantity > 0.0 && levels[j].quantity > 0.0
    requires levels[0].price > levels[j].price
    ensures Feasible(levels, x) && want >= 0.0
    ensures Allot(levels, x).fill == ByQuantity(levels, want).fill
    ensures !NoDearer(ByQuantity(levels, want), Allot(levels, x))
  {
    want := Min(levels[0].quantity, levels[j].quantity);
    x := Only(|levels|, j, want);
    AllotOnly(levels, j, want);
    NothingWanted(levels[1..], 0.0);
    FirstIsDearer(levels[0], want, levels[j].price);
  }

  lemma FirstIsDearer(lv: Level, t: real, q: real)
    requires t > 0.0 && lv.price > q
    ensures AddLevel(lv, t, Walk(0.0, 0.0)).fill == t && !NoDearer(AddLevel(lv, t, Walk(0.0, 0.0)), Walk(t, t * q))
  {
    MulStrictly(q, lv.price, t);
  }

  lemma StillDearer(lv: Level, t: real, a: Walk, b: Walk)
    requires a.fill == b.fill && !NoDearer(b, a)
    ensures AddLevel(lv, t, a).fill == AddLevel(lv, t, b).fill && !NoDearer(AddLevel(lv, t, b), AddLevel(lv, t, a))
  {
  }

  // ---- average price never falls with size --------------------------------

  /** p is at least the average price of a and at most the price of every share
      from a to b. */
  ghost predicate Between(p: real, a: Walk, b: Walk) {
    && 0.0 <= a.fill <= b.fill
    && a.cost <= p * a.fill
    && Margin(p, a, b)
  }

  lemma BetweenStep(p: real, lv: Level, t: real, a: Walk, b: Walk)
    requires Between(p, a, b) && t >= 0.0 && (t > 0.0 ==> p >= lv.price)
    ensures Between(p, AddLevel(lv, t, a), AddLevel(lv, t, b))
  {
    MulMonotone(if t > 0.0 then lv.price else p, p, t);
    assert p * (t + a.fill) == p * t + p * a.fill;
  }

  lemma OneLevel(lv: Level, t: real, b: Walk)
    requires t >= 0.0 && Margin(lv.price, AddLevel(lv, t, Walk(0.0, 0.0)), b)
    ensures Between(lv.price, AddLevel(lv, t, Walk(0.0, 0.0)), b)
  {
  }

  /** Where the first level alone serves v, its price splits v from w. */
  lemma FirstPriceSplits(levels: seq<Level>, v: real, w: real)
    requires levels != [] && 0.0 < v <= levels[0].quantity && v <= w
    requires AllAtLeast(levels, levels[0].price)
    ensures Between(levels[0].price, ByQuantity(levels, v), ByQuantity(levels, w))
  {
    MarginAtLeast(levels, v, w, levels[0].price);
    NothingWanted(levels[1..], 0.0);
    OneLevel(levels[0], v, ByQuantity(levels, w));
  }

  lemma {:induction false} SplittingPrice(levels: seq<Level>, v: real, w: real, lo: real) returns (p: real)
    requires Ascending(levels) && AllAtLeast(levels, lo) && v <= w
    ensures p >= lo && Between(p, ByQuantity(levels, v), ByQuantity(levels, w))
  {
    if levels == [] || v <= 0.0 {
      p := lo;
      FillIsMin(levels, w);
      MarginAtLeast(levels, v, w, lo);
      NothingWanted(levels, if levels == [] then 0.0 else v);
    } else {
      var lv, rest := levels[0], levels[1..];
      if 0.0 < lv.quantity {
        assert lv in levels;
        assert AllAtLeast(rest, lv.price) && AllAtLeast(levels, lv.price);
      }
      if v <= lv.quantity {
        p := lv.price;
        FirstPriceSplits(levels, v, w);
      } else {
        var take := Take(lv, v);
        p := SplittingPrice(rest, v - take, w - take, if 0.0 < lv.quantity then lv.price else lo);
        BetweenStep(p, lv, take, ByQuantity(rest, v - take), ByQuantity(rest, w - take));
      }
    }
  }

  lemma AverageOrdered(p: real, a: Walk, b: Walk)
    requires Between(p, a, b) && a.fill > 0.0
    ensures a.cost / a.fill <= b.cost / b.fill
  {
    var x, y := a.cost / a.fill, b.cost / b.fill;
    Quotient(a.cost, a.fill);
    Quotient(b.cost, b.fill);
    CancelFactor(a.fill, x, p);
    MulMonotone(x, p, b.fill - a.fill);
    assert x * a.fill + x * (b.fill - a.fill) == x * b.fill;
    CancelFactor(b.fill, x, y);
  }

  /** VWAP is nondecreasing in the requested size. */
  lemma VwapMonotone(levels: seq<Level>, v: real, w: real)
    requires Ascending(levels) && v <= w
    requires ByQuantity(levels, v).fill > 0.0
    ensures ByQuantity(levels, w).fill > 0.0
    ensures var a, b := ByQuantity(levels, v), ByQuantity(levels, w); a.cost / a.fill <= b.cost / b.fill
  {
    var lo := LowestPrice(levels);
    var p := SplittingPrice(levels, v, w, lo);
    AverageOrdered(p, ByQuantity(levels, v), ByQuantity(levels, w));
  }

  lemma {:induction false} LowestPrice(levels: seq<Level>) returns (lo: real)
    ensures AllAtLeast(levels, lo)
  {
    if levels == [] {
      lo := 0.0;
    } else {
      lo := LowestPrice(levels[1..]);
      lo := Min(lo, levels[0].price);
    }
  }

  // ---- walking by notional (walk_ask_ladder) ------------------------------

  predicate Usable(lv: Level) {
    lv.price > 0.0 && lv.quantity > 0.0
  }

  /** What the whole level costs. */
  function Worth(lv: Level): real {
    lv.quantity * lv.price
  }

  /** Buying for up to `room` dollars, first level first; unusable levels are skipped. */
  function ByNotional(levels: seq<Level>, room: real): Walk {
    if levels == [] then Walk(0.0, 0.0)
    else if !Usable(levels[0]) then ByNotional(levels[1..], room)
    else if room <= 0.0 then Walk(0.0, 0.0)
    else if Worth(levels[0]) <= room then
      AddLevel(levels[0], levels[0].quantity, ByNotional(levels[1..], room - Worth(levels[0])))
    else Walk(room / levels[0].price, room)
  }

  function BuyLevel(a: Walk, lv: Level, notional: real): Walk {
    var room := notional - a.cost;
    if !Usable(lv) || room <= 0.0 then a
    else if Worth(lv) <= room then Walk(a.fill + lv.quantity, a.cost + Worth(lv))
    else Walk(a.fill + room / lv.price, a.cost + room)
  }

  function BuyTo(levels: seq<Level>, notional: real, i: nat): Walk
    requires i <= |levels|
  {
    if i == 0 then Walk(0.0, 0.0) else BuyLevel(BuyTo(levels, notional, i - 1), levels[i - 1], notional)
  }

  lemma {:induction false} NoRoomLeft(levels: seq<Level>, room: real)
    requires room <= 0.0
    ensures ByNotional(levels, room) == Walk(0.0, 0.0)
  {
    if levels != [] {
      NoRoomLeft(levels[1..], room);
    }
  }

  lemma {:induction false} BuyToCompletes(levels: seq<Level>, notional: real, i: nat)
    requires i <= |levels|
    ensures Adds(BuyTo(levels, notional, i), ByNotional(levels[i..], notional - BuyTo(levels, notional, i).cost),
        ByNotional(levels, notional))
  {
    if i == 0 {
      assert levels[0..] == levels;
    } else {
      BuyToCompletes(levels, notional, i - 1);
      assert levels[i - 1..][1..] == levels[i..];
      BuyLevelCompletes(BuyTo(levels, notional, i - 1), levels[i - 1..], notional, ByNotional(levels, notional));
    }
  }

  lemma BuyLevelCompletes(a: Walk, levels: seq<Level>, notional: real, whole: Walk)
    requires levels != [] && Adds(a, ByNotional(levels, notional - a.cost), whole)
    ensures var b := BuyLevel(a, levels[0], notional);
      Adds(b, ByNotional(levels[1..], notional - b.cost), whole)
  {
    var room := notional - a.cost;
    if room <= 0.0 {
      NoRoomLeft(levels, room);
      NoRoomLeft(levels[1..], room);
    } else if Usable(levels[0]) {
      var worth := Worth(levels[0]);
      if worth <= room {
        assert notional - (a.cost + worth) == room - worth;
      } else {
        NoRoomLeft(levels[1..], notional - (a.cost + room));
      }
    }
  }

  lemma BuyToIsWalk(levels: seq<Level>, notional: real, i: nat)
    requires i <= |levels|
    requires i == |levels| || BuyTo(levels, notional, i).cost >= notional
    ensures BuyTo(levels, notional, i) == ByNotional(levels, notional)
  {
    BuyToCompletes(levels, notional, i);
    if i < |levels| {
      NoRoomLeft(levels[i..], notional - BuyTo(levels, notional, i).cost);
    }
  }

  /** (cost per share, dollars spent, whether the ladder ran out) */
  method WalkAskLadder(depth: seq<Level>, notional: real) returns (vwap: Option<real>, spent: real, exhausted: bool)
    ensures spent == ByNotional(depth, notional).cost
    ensures var shares := ByNotional(depth, notional).fill;
      vwap == if shares == 0.0 then None else Some(spent / shares)
    ensures exhausted <==> notional <= 0.0 || spent < notional
  {
    if depth == [] {
      return None, 0.0, true;
    }
    spent := 0.0;
    var shares := 0.0;
    var i := 0;
    while i < |depth|
      invariant 0 <= i <= |depth| && Walk(shares, spent) == BuyTo(depth, notional, i)
    {
      var px, sz := depth[i].price, depth[i].quantity;
      i := i + 1;
      if px <= 0.0 || sz <= 0.0 {
        continue;
      }
      var room := notional - spent;
      if room <= 0.0 {
        break;
      }
      var levelNotional := Worth(depth[i - 1]);
      if levelNotional <= room {
        spent := spent + levelNotional;
        shares := shares + sz;
      } else {
        var take := room / px;
        spent := spent + room;
        shares := shares + take;
        break;
      }
    }
    BuyToIsWalk(depth, notional, i);
    SharesZeroIffUnspent(depth, notional);
    if shares == 0.0 {
      return None, 0.0, true;
    }
    return Some(spent / shares), spent, spent < notional;
  }

  function NotionalDepth(levels: seq<Level>): real {
    if levels == [] then 0.0
    else if Usable(levels[0]) then Worth(levels[0]) + NotionalDepth(levels[1..])
    else NotionalDepth(levels[1..])
  }

  /** The walk spends exactly what was offered or what the usable levels are worth,
      whichever is less. */
  lemma {:induction false} SpentIsMin(levels: seq<Level>, notional: real)
    ensures NotionalDepth(levels) >= 0.0
    ensures ByNotional(levels, notional).cost == Min(Positive(notional), NotionalDepth(levels))
  {
    if levels != [] {
      var lv, rest := levels[0], levels[1..];
      if Usable(lv) {
        MulPositive(lv.quantity, lv.price);
        SpentIsMin(rest, notional - Worth(lv));
      } else {
        SpentIsMin(rest, notional);
      }
    }
  }

  lemma {:induction false} SharesZeroIffUnspent(levels: seq<Level>, notional: real)
    ensures var a := ByNotional(levels, notional); a.fill >= 0.0 && a.cost >= 0.0 && (a.fill == 0.0 <==> a.cost == 0.0)
    ensures notional <= 0.0 ==> ByNotional(levels, notional).cost == 0.0
  {
    SpentIsMin(levels, notional);
    if levels != [] {
      var lv, rest := levels[0], levels[1..];
      if !Usable(lv) {
        SharesZeroIffUnspent(rest, notional);
      } else if notional > 0.0 {
        if Worth(lv) <= notional {
          SharesZeroIffUnspent(rest, notional - Worth(lv));
          MulPositive(lv.quantity, lv.price);
        } else {
          QuotientPositive(notional, lv.price);
        }
      }
    }
  }

  /** Every shown level costs something. */
  ghost predicate PositivePrices(levels: seq<Level>) {
    forall lv :: lv in levels && lv.quantity > 0.0 ==> lv.price > 0.0
  }

  /** Duality: asking by quantity for the shares a notional walk obtained spends
      exactly what that walk spent. */
  lemma {:induction false} QuantityWalkOfNotionalWalk(levels: seq<Level>, notional: real)
    requires PositivePrices(levels)
    ensures ByQuantity(levels, ByNotional(levels, notional).fill) == ByNotional(levels, notional)
  {
    if levels != [] {
      var lv, rest := levels[0], levels[1..];
      assert lv in levels;
      if !Usable(lv) {
        QuantityWalkOfNotionalWalk(rest, notional);
        Untouched(lv, ByNotional(rest, notional));
      } else if notional <= 0.0 {
        NothingWanted(levels, 0.0);
      } else if Worth(lv) <= notional {
        var left := notional - Worth(lv);
        QuantityWalkOfNotionalWalk(rest, left);
        SharesZeroIffUnspent(rest, left);
        var more := ByNotional(rest, left).fill;
        assert Take(lv, lv.quantity + more) == lv.quantity && lv.quantity + more - lv.quantity == more;
      } else {
        NothingWanted(rest, 0.0);
        PartLevel(lv, notional);
      }
    }
  }

  lemma Untouched(lv: Level, a: Walk)
    ensures AddLevel(lv, 0.0, a) == a
  {
  }

  lemma PartLevel(lv: Level, notional: real)
    requires Usable(lv) && 0.0 < notional < Worth(lv)
    ensures var t := notional / lv.price;
      Take(lv, t) == t && AddLevel(lv, t, Walk(0.0, 0.0)) == Walk(t, notional)
  {
    var t := notional / lv.price;
    Quotient(notional, lv.price);
    assert t * lv.price == notional;
    QuotientPositive(notional, lv.price);
    if t > lv.quantity {
      MulStrictly(lv.quantity, t, lv.price);
    }
  }

  /** No feasible allocation of the same money obtains more shares. */
  lemma NotionalWalkGetsMostShares(levels: seq<Level>, notional: real, x: seq<real>)
    requires Ascending(levels) && PositivePrices(levels) && Feasible(levels, x)
    requires Allot(levels, x).cost <= ByNotional(levels, notional).cost
    ensures Allot(levels, x).fill <= ByNotional(levels, notional).fill
  {
    var a, y := ByNotional(levels, notional), Allot(levels, x);
    if y.fill > a.fill {
      QuantityWalkOfNotionalWalk(levels, notional);
      AllotWithinDepth(levels, x);
      FillIsMin(levels, y.fill);
      WalkIsCheapest(levels, y.fill, x);
      var lo := LowestPositivePrice(levels);
      MarginAtLeast(levels, a.fill, y.fill, lo);
      MarginIsStrict(lo, a, ByQuantity(levels, y.fill));
    }
  }

  lemma MarginIsStrict(lo: real, a: Walk, b: Walk)
    requires lo > 0.0 && Margin(lo, a, b) && a.fill < b.fill
    ensures a.cost < b.cost
  {
    var gap := b.fill - a.fill;
    MulPositive(lo, gap);
    assert b.cost - a.cost >= lo * gap;
  }

  lemma {:induction false} LowestPositivePrice(levels: seq<Level>) returns (lo: real)
    requires PositivePrices(levels)
    ensures lo > 0.0 && AllAtLeast(levels, lo)
  {
    if levels == [] {
      lo := 1.0;
    } else {
      assert levels[0] in levels;
      lo := LowestPositivePrice(levels[1..]);
      if levels[0].quantity > 0.0 {
        lo := Min(lo, levels[0].price);
      }
    }
  }
}
