// What a walk of displayed depth takes, level by level
// (research/run85_phasex_economics.py, lines 379-411).
module DepthMeaning {
  import opened Arithmetic
  import opened Counting
  import opened Wrappers
  import opened DepthWalk

  /** A level is touched only once every level before it has been taken whole. */
  ghost predicate InOrder(levels: seq<Level>, x: seq<real>)
    requires |x| == |levels|
  {
    forall i, j :: 0 <= i < j < |x| && x[j] > 0.0 ==> x[i] == Positive(levels[i].quantity)
  }

  function Total(x: seq<real>): real {
    if x == [] then 0.0 else x[0] + Total(x[1..])
  }

  lemma {:induction false} AllotIsTotal(levels: seq<Level>, x: seq<real>)
    requires |x| == |levels|
    ensures Allot(levels, x).fill == Total(x)
  {
    if x != [] {
      AllotIsTotal(levels[1..], x[1..]);
    }
  }

  /** The takes are an in-order part of what is shown, add up to the fill, never exceed
      the request, and leave nothing shown behind unless it is met. */
  ghost predicate IsWalkOf(levels: seq<Level>, want: real, x: seq<real>) {
    && Feasible(levels, x) && InOrder(levels, x)
    && Total(x) <= Positive(want)
    && (Total(x) < want ==> forall i :: 0 <= i < |x| ==> x[i] == Positive(levels[i].quantity))
  }

  lemma {:induction false} TakesInOrder(levels: seq<Level>, want: real)
    ensures IsWalkOf(levels, want, Takes(levels, want))
  {
    TakesAddUp(levels, want);
    if levels != [] {
      var take, rest := Take(levels[0], want), levels[1..];
      TakesInOrder(rest, want - take);
      FirstInOrder(levels, want, take, Takes(rest, want - take));
      FirstIsWalk(levels, want, take, Takes(rest, want - take));
    }
  }

  lemma FirstIsWalk(levels: seq<Level>, want: real, take: real, y: seq<real>)
    requires levels != [] && take == Take(levels[0], want) && IsWalkOf(levels[1..], want - take, y)
    requires Feasible(levels, [take] + y) && InOrder(levels, [take] + y)
    requires Total([take] + y) <= Positive(want)
    requires take + Total(y) < want ==> take == Positive(levels[0].quantity)
    requires take + Total(y) < want ==> forall i :: 0 <= i < |y| ==> y[i] == Positive(levels[i + 1].quantity)
    ensures IsWalkOf(levels, want, [take] + y)
  {
    var x := [take] + y;
    assert x[1..] == y;
    if Total(x) < want {
      forall i | 0 <= i < |x|
        ensures x[i] == Positive(levels[i].quantity)
      {
        assert i > 0 ==> x[i] == y[i - 1];
      }
    }
  }

  lemma TakesAddUp(levels: seq<Level>, want: real)
    ensures Feasible(levels, Takes(levels, want))
    ensures Total(Takes(levels, want)) == ByQuantity(levels, want).fill <= Positive(want)
  {
    TakesAttainTheWalk(levels, want);
    AllotIsTotal(levels, Takes(levels, want));
    FillIsMin(levels, want);
  }

  lemma TakesAreWalk(levels: seq<Level>, want: real)
    ensures IsWalkOf(levels, want, Takes(levels, want))
    ensures Total(Takes(levels, want)) == ByQuantity(levels, want).fill
  {
    TakesInOrder(levels, want);
    TakesAddUp(levels, want);
  }

  lemma FirstInOrder(levels: seq<Level>, want: real, take: real, y: seq<real>)
    requires levels != [] && take == Take(levels[0], want) && IsWalkOf(levels[1..], want - take, y)
    ensures InOrder(levels, [take] + y)
    ensures take + Total(y) < want ==> take == Positive(levels[0].quantity)
    ensures take + Total(y) < want ==> forall i :: 0 <= i < |y| ==> y[i] == Positive(levels[i + 1].quantity)
  {
    var x := [take] + y;
    forall i, j | 0 <= i < j < |x| && x[j] > 0.0
      ensures x[i] == Positive(levels[i].quantity)
    {
      TermAtMostTotal(levels[1..], y, j - 1);
      if i > 0 {
        assert y[j - 1] > 0.0 && y[i - 1] == Positive(levels[1..][i - 1].quantity);
      }
    }
    TotalNonnegative(levels[1..], y);
    assert forall i :: 0 <= i < |y| ==> levels[1..][i] == levels[i + 1];
  }

  lemma {:induction false} TotalNonnegative(levels: seq<Level>, y: seq<real>)
    requires Feasible(levels, y)
    ensures Total(y) >= 0.0
  {
    if y != [] {
      TotalNonnegative(levels[1..], y[1..]);
    }
  }

  lemma {:induction false} TermAtMostTotal(levels: seq<Level>, y: seq<real>, j: nat)
    requires Feasible(levels, y) && j < |y|
    ensures y[j] <= Total(y)
  {
    TotalNonnegative(levels[1..], y[1..]);
    if j > 0 {
      TermAtMostTotal(levels[1..], y[1..], j - 1);
    }
  }

  /** Nothing else is: so the fill and the cost are determined. */
  lemma {:induction false} OnlyWalk(levels: seq<Level>, want: real, x: seq<real>, y: seq<real>)
    requires IsWalkOf(levels, want, x) && IsWalkOf(levels, want, y)
    ensures x == y
  {
    if levels != [] {
      FirstAgrees(levels, want, x, y);
      RestIsWalk(levels, want, x);
      RestIsWalk(levels, want, y);
      OnlyWalk(levels[1..], want - x[0], x[1..], y[1..]);
      assert x == [x[0]] + x[1..] && y == [y[0]] + y[1..];
    }
  }

  lemma FirstIsTake(levels: seq<Level>, want: real, x: seq<real>)
    requires levels != [] && IsWalkOf(levels, want, x)
    ensures x[0] == Take(levels[0], want)
  {
    TotalNonnegative(levels[1..], x[1..]);
    if x[0] < Positive(levels[0].quantity) {
      NothingAfter(levels, x);
    }
  }

  lemma NothingAfter(levels: seq<Level>, x: seq<real>)
    requires levels != [] && Feasible(levels, x) && InOrder(levels, x) && x[0] < Positive(levels[0].quantity)
    ensures Total(x[1..]) == 0.0
  {
    forall j | 0 <= j < |x[1..]|
      ensures x[1..][j] == 0.0
    {
      assert x[1..][j] == x[j + 1];
    }
    TotalOfNothing(x[1..]);
  }

  lemma {:induction false} TotalOfNothing(y: seq<real>)
    requires forall j :: 0 <= j < |y| ==> y[j] == 0.0
    ensures Total(y) == 0.0
  {
    if y != [] {
      TotalOfNothing(y[1..]);
    }
  }

  lemma FirstAgrees(levels: seq<Level>, want: real, x: seq<real>, y: seq<real>)
    requires levels != [] && IsWalkOf(levels, want, x) && IsWalkOf(levels, want, y)
    ensures x[0] == y[0]
  {
    FirstIsTake(levels, want, x);
    FirstIsTake(levels, want, y);
  }

  lemma RestIsWalk(levels: seq<Level>, want: real, x: seq<real>)
    requires levels != [] && IsWalkOf(levels, want, x)
    ensures IsWalkOf(levels[1..], want - x[0], x[1..])
  {
    FirstIsTake(levels, want, x);
    TotalNonnegative(levels[1..], x[1..]);
    assert Total(x) == x[0] + Total(x[1..]);
    if want - x[0] < 0.0 {
      assert x[0] == 0.0;
    }
    var rest, y := levels[1..], x[1..];
    forall i, j | 0 <= i < j < |y| && y[j] > 0.0
      ensures y[i] == Positive(rest[i].quantity)
    {
      assert x[j + 1] > 0.0 && x[i + 1] == Positive(levels[i + 1].quantity);
    }
  }

  // ---- the levels listed --------------------------------------------------

  /** `idx` lists, in order, the places where something was taken. */
  ghost predicate PlacesOf(idx: seq<nat>, x: seq<real>) {
    Rising(idx) && forall i: nat :: i in idx <==> i < |x| && x[i] > 0.0
  }

  /** What was taken at the k-th of them, under the level's own number and price. */
  ghost predicate ListedAt(walked: seq<Walked>, levels: seq<Level>, x: seq<real>, idx: seq<nat>, k: nat)
    requires |x| == |levels| && k < |idx| == |walked|
  {
    idx[k] < |levels| && walked[k] == Walked(levels[idx[k]].level, levels[idx[k]].price, x[idx[k]])
  }

  ghost predicate ListsTakes(walked: seq<Walked>, levels: seq<Level>, x: seq<real>, idx: seq<nat>)
    requires |x| == |levels|
  {
    PlacesOf(idx, x) && |walked| == |idx| && forall k :: 0 <= k < |idx| ==> ListedAt(walked, levels, x, idx, k)
  }

  function Next(idx: seq<nat>): (r: seq<nat>)
    ensures |r| == |idx| && forall k :: 0 <= k < |idx| ==> r[k] == idx[k] + 1
  {
    seq(|idx|, k requires 0 <= k < |idx| => idx[k] + 1)
  }

  lemma NextMembers(idx: seq<nat>, i: nat)
    ensures i in Next(idx) <==> i > 0 && i - 1 in idx
  {
    if i > 0 && i - 1 in idx {
      var k :| 0 <= k < |idx| && idx[k] == i - 1;
      assert Next(idx)[k] == i;
    }
  }

  lemma {:induction false} WalkedListsTakes(levels: seq<Level>, want: real) returns (idx: seq<nat>)
    ensures ListsTakes(WalkedLevels(levels, want), levels, Takes(levels, want), idx)
  {
    if levels == [] {
      idx := [];
    } else {
      var take := Take(levels[0], want);
      var rest := WalkedListsTakes(levels[1..], want - take);
      idx := ListsMore(levels, take, Takes(levels[1..], want - take), WalkedLevels(levels[1..], want - take), rest,
                       Takes(levels, want), WalkedLevels(levels, want));
    }
  }

  lemma ListsMore(levels: seq<Level>, take: real, y: seq<real>, walked: seq<Walked>, rest: seq<nat>, x: seq<real>,
                  all: seq<Walked>)
    returns (idx: seq<nat>)
    requires levels != [] && |y| == |levels| - 1 && ListsTakes(walked, levels[1..], y, rest) && x == [take] + y
    requires all == (if take > 0.0 then [Walked(levels[0].level, levels[0].price, take)] else []) + walked
    ensures ListsTakes(all, levels, x, idx)
  {
    idx := (if take > 0.0 then [0] else []) + Next(rest);
    ListsFirst(levels, take, y, walked, rest);
  }

  lemma ListsFirst(levels: seq<Level>, take: real, y: seq<real>, walked: seq<Walked>, rest: seq<nat>)
    requires levels != [] && |y| == |levels| - 1 && ListsTakes(walked, levels[1..], y, rest)
    ensures var lv, first := levels[0], if take > 0.0 then [0] else [];
      ListsTakes((if take > 0.0 then [Walked(lv.level, lv.price, take)] else []) + walked, levels, [take] + y,
                 first + Next(rest))
  {
    var first: seq<nat> := if take > 0.0 then [0] else [];
    var one := if take > 0.0 then [Walked(levels[0].level, levels[0].price, take)] else [];
    var idx, all := first + Next(rest), one + walked;
    PlacesFirst(take, y, rest);
    forall k | 0 <= k < |idx|
      ensures ListedAt(all, levels, [take] + y, idx, k)
    {
      if k >= |first| {
        assert ListedAt(walked, levels[1..], y, rest, k - |first|);
        assert idx[k] == rest[k - |first|] + 1 && all[k] == walked[k - |first|];
      }
    }
  }

  lemma PlacesFirst(take: real, y: seq<real>, rest: seq<nat>)
    requires PlacesOf(rest, y)
    ensures PlacesOf((if take > 0.0 then [0] else []) + Next(rest), [take] + y)
  {
    var first: seq<nat> := if take > 0.0 then [0] else [];
    var x, idx := [take] + y, first + Next(rest);
    forall i: nat
      ensures i in idx <==> i < |x| && x[i] > 0.0
    {
      FirstMembers(first, rest, i);
      assert 0 < i < |x| ==> x[i] == y[i - 1];
    }
  }

  lemma FirstMembers(first: seq<nat>, rest: seq<nat>, i: nat)
    requires first == [] || first == [0]
    ensures i in first + Next(rest) <==> if i == 0 then first == [0] else i - 1 in rest
  {
    NextMembers(rest, i);
    assert i in first + Next(rest) <==> i in first || i in Next(rest);
  }

  /** What is displayed adds up along a ladder. */
  lemma {:induction false} DisplayedAdds(a: seq<Level>, b: seq<Level>)
    ensures Displayed(a + b) == Displayed(a) + Displayed(b)
    ensures forall lv :: Displayed([lv]) == lv.quantity
  {
    forall lv: Level
      ensures Displayed([lv]) == lv.quantity
    {
      assert Displayed([lv][1..]) == 0.0;
    }
    if a == [] {
      assert a + b == b;
    } else {
      assert (a + b)[1..] == a[1..] + b;
      DisplayedAdds(a[1..], b);
    }
  }

  /** The only walk of a request, and the levels it lists. */
  lemma WalkIs(levels: seq<Level>, want: real) returns (x: seq<real>, idx: seq<nat>)
    ensures IsWalkOf(levels, want, x) && forall y :: IsWalkOf(levels, want, y) ==> y == x
    ensures ByQuantity(levels, want) == Walk(Total(x), Allot(levels, x).cost)
    ensures ListsTakes(WalkedLevels(levels, want), levels, x, idx)
  {
    x := Takes(levels, want);
    TakesAreWalk(levels, want);
    TakesAttainTheWalk(levels, want);
    AllotIsTotal(levels, x);
    forall y | IsWalkOf(levels, want, y)
      ensures y == x
    {
      OnlyWalk(levels, want, x, y);
    }
    idx := WalkedListsTakes(levels, want);
  }

  /** A vwap record, off the only walk of its request. */
  lemma LegMeaning(levels: seq<Level>, want: real, leg: Leg) returns (x: seq<real>, idx: seq<nat>)
    requires IsVwapLeg(leg, levels, want)
    ensures IsWalkOf(levels, want, x) && forall y :: IsWalkOf(levels, want, y) ==> y == x
    ensures leg.requested == want && leg.filled == Total(x) && leg.notional == Allot(levels, x).cost
    ensures leg.displayed == Displayed(levels) && ListsTakes(leg.walked, levels, x, idx)
    ensures leg.exhausted <==> leg.filled < want - 0.000000000001
    ensures leg.vwap.Some? <==> leg.filled > 0.0
    ensures leg.vwap.Some? ==> leg.vwap.value * leg.filled == leg.notional
  {
    x, idx := WalkIs(levels, want);
    LegFields(levels, want, leg);
  }

  lemma LegFields(levels: seq<Level>, want: real, leg: Leg)
    requires IsVwapLeg(leg, levels, want)
    ensures leg.exhausted <==> leg.filled < want - 0.000000000001
    ensures leg.vwap.Some? ==> leg.vwap.value * leg.filled == leg.notional
  {
    FillIsMin(levels, want);
    if leg.filled > 0.0 {
      Quotient(leg.notional, leg.filled);
    }
  }
}
