// The slot grid of the capture (research/run85_phase2_capture.py, lines 146-163
// and 187-214).
module CaptureGrid {
  import opened Wrappers

  datatype Route = Book | Bbo

  /** One leg of an observation set: slot offset, route, target horizon in seconds. */
  datatype Leg = Leg(offset: nat, route: Route, horizon: nat)

  const LEGS: seq<Leg> := [
    Leg(0, Book, 0), Leg(1, Bbo, 0), Leg(2, Book, 5), Leg(3, Bbo, 5), Leg(4, Book, 10), Leg(5, Bbo, 10),
    Leg(12, Book, 30), Leg(13, Bbo, 30), Leg(24, Book, 60), Leg(25, Bbo, 60)]

  const SET_PERIOD_SLOTS: nat := 14
  const SET_SPAN_SLOTS: nat := 26
  const SPACING_S: real := 2.5

  /** The leg whose offset is `off`, if any. */
  function LegAt(off: int): Option<Leg> {
    if 0 <= off <= 1 then Some(LEGS[off])
    else if 2 <= off <= 5 then Some(LEGS[off])
    else if off == 12 || off == 13 then Some(LEGS[off - 6])
    else if off == 24 || off == 25 then Some(LEGS[off - 16])
    else None
  }

  lemma LegAtFindsLeg(k: nat)
    requires k < |LEGS|
    ensures LegAt(LEGS[k].offset) == Some(LEGS[k])
  {
  }

  /** Each book leg's horizon is its offset on the 2.5 s grid. */
  lemma HorizonsOnGrid(k: nat)
    requires k < |LEGS|
    ensures LEGS[k].route == Book ==> LEGS[k].offset as real * SPACING_S == LEGS[k].horizon as real
    ensures LEGS[k].route == Bbo ==> LEGS[k].offset as real * SPACING_S == LEGS[k].horizon as real + SPACING_S
  {
  }

  /** Two sets started `gap` slots apart want a common slot. */
  ghost predicate Collide(gap: int) {
    exists j, k :: 0 <= j < |LEGS| && 0 <= k < |LEGS| && LEGS[j].offset == gap + LEGS[k].offset
  }

  /** The distances at which a second set can start after a first. */
  lemma CollideIff(gap: int)
    requires gap > 0
    ensures Collide(gap) <==> gap <= 5 || 7 <= gap <= 13 || 19 <= gap <= 25
  {
    var w := WitnessLegs(gap);
    if w.0 < |LEGS| && w.1 < |LEGS| && LEGS[w.0].offset == gap + LEGS[w.1].offset {
      assert Collide(gap);
    }
  }

  /** A pair of legs `gap` slots apart, where there is one. */
  function WitnessLegs(gap: int): (nat, nat) {
    if 1 <= gap <= 5 then (gap, 0)
    else if 7 <= gap <= 12 then (6, 12 - gap)
    else if gap == 13 then (7, 0)
    else if 19 <= gap <= 24 then (8, 24 - gap)
    else if gap == 25 then (9, 0)
    else (10, 10)
  }

  // ---- the plan -----------------------------------------------------------

  datatype Entry = Entry(set_: nat, leg: Leg)

  datatype Plan = Planned(grid: map<nat, Entry>) | GridCollision(slot: nat, first: nat, second: nat)

  function SlotOf(e: Entry, period: nat): nat {
    e.set_ * period + e.leg.offset
  }

  /** The entry is one of the legs of the first n sets. */
  ghost predicate InPlan(e: Entry, n: nat) {
    e.set_ < n && e.leg in LEGS
  }

  ghost predicate CollisionFree(n: nat, period: nat) {
    forall e, f :: InPlan(e, n) && InPlan(f, n) && SlotOf(e, period) == SlotOf(f, period) ==> e == f
  }

  /** The grid holds the entries of the plan, each at its slot, and nothing else. */
  ghost predicate Holds(grid: map<nat, Entry>, n: nat, period: nat) {
    && (forall slot :: slot in grid ==> InPlan(grid[slot], n) && slot == SlotOf(grid[slot], period))
    && (forall e :: InPlan(e, n) ==> SlotOf(e, period) in grid && grid[SlotOf(e, period)] == e)
  }

  /** The grid once the first k legs of set i have been placed as well. */
  ghost predicate Placed(grid: map<nat, Entry>, i: nat, k: nat, period: nat)
    requires k <= |LEGS|
  {
    && (forall slot :: slot in grid ==>
          slot == SlotOf(grid[slot], period)
              && (InPlan(grid[slot], i) || (grid[slot].set_ == i && grid[slot].leg in LEGS[..k])))
    && (forall e :: InPlan(e, i) || (e.set_ == i && e.leg in LEGS[..k]) ==>
        SlotOf(e, period) in grid && grid[SlotOf(e, period)] == e)
  }

  ghost predicate Wants(i: nat, slot: nat, period: nat) {
    exists leg :: leg in LEGS && SlotOf(Entry(i, leg), period) == slot
  }

  /** Both sets want the slot, and the sets before the second had none in dispute. */
  ghost predicate IsFirstClash(slot: nat, first: nat, second: nat, n: nat, period: nat) {
    first < second < n && Wants(first, slot, period) && Wants(second, slot, period) && CollisionFree(second, period)
  }

  /** plan_grid, for any period: the slot check refuses exactly the plans in which
      two sets want one slot. */
  method PlanGrid(n: nat, period: nat) returns (plan: Plan)
    ensures plan.Planned? <==> CollisionFree(n, period)
    ensures plan.Planned? ==> |plan.grid| == 10 * n && Holds(plan.grid, n, period)
    ensures plan.GridCollision? ==> IsFirstClash(plan.slot, plan.first, plan.second, n, period)
  {
    var grid: map<nat, Entry> := map[];
    for i := 0 to n
      invariant |grid| == 10 * i
      invariant Placed(grid, i, 0, period)
    {
      for k := 0 to |LEGS|
        invariant |grid| == 10 * i + k
        invariant Placed(grid, i, k, period)
      {
        var e := Entry(i, LEGS[k]);
        var slot := SlotOf(e, period);
        if slot in grid {
          Clash(grid, i, k, n, period);
          return GridCollision(slot, grid[slot].set_, i);
        }
        PlaceLeg(grid, i, k, period);
        grid := grid[slot := e];
      }
      NextSet(grid, i, period);
    }
    plan := Planned(grid);
    PlanIsFree(grid, n, period);
  }

  lemma PlaceLeg(grid: map<nat, Entry>, i: nat, k: nat, period: nat)
    requires k < |LEGS| && Placed(grid, i, k, period)
    requires SlotOf(Entry(i, LEGS[k]), period) !in grid
    ensures Placed(grid[SlotOf(Entry(i, LEGS[k]), period) := Entry(i, LEGS[k])], i, k + 1, period)
  {
    assert LEGS[..k + 1] == LEGS[..k] + [LEGS[k]];
  }

  lemma NextSet(grid: map<nat, Entry>, i: nat, period: nat)
    requires Placed(grid, i, |LEGS|, period)
    ensures Placed(grid, i + 1, 0, period)
  {
    assert LEGS[..|LEGS|] == LEGS;
    forall e
      ensures InPlan(e, i + 1) <==> InPlan(e, i) || (e.set_ == i && e.leg in LEGS)
    {
    }
  }

  lemma Clash(grid: map<nat, Entry>, i: nat, k: nat, n: nat, period: nat)
    requires i < n && k < |LEGS| && Placed(grid, i, k, period)
    requires SlotOf(Entry(i, LEGS[k]), period) in grid
    ensures !CollisionFree(n, period)
    ensures var slot := SlotOf(Entry(i, LEGS[k]), period); IsFirstClash(slot, grid[slot].set_, i, n, period)
  {
    LegsDistinct(k);
    var e := Entry(i, LEGS[k]);
    var f := grid[SlotOf(e, period)];
    assert InPlan(e, n) && InPlan(f, n) && e != f;
    if f.set_ == i {
      SameSetSameSlot(e, f, period);
    }
    assert e == Entry(i, e.leg) && f == Entry(f.set_, f.leg);
  }

  lemma SameSetSameSlot(e: Entry, f: Entry, period: nat)
    requires e.leg in LEGS && f.leg in LEGS && e.set_ == f.set_ && SlotOf(e, period) == SlotOf(f, period)
    ensures e == f
  {
    var j := LegIndex(e.leg);
    var k := LegIndex(f.leg);
  }

  lemma PlanIsFree(grid: map<nat, Entry>, n: nat, period: nat)
    requires Placed(grid, n, 0, period)
    ensures Holds(grid, n, period) && CollisionFree(n, period)
  {
  }

  lemma LegsDistinct(k: nat)
    requires k < |LEGS|
    ensures LEGS[k] !in LEGS[..k]
  {
  }

  lemma LegIndex(leg: Leg) returns (k: nat)
    requires leg in LEGS
    ensures k < |LEGS| && LEGS[k] == leg && LegAt(leg.offset) == Some(leg)
  {
    k :| 0 <= k < |LEGS| && LEGS[k] == leg;
    LegAtFindsLeg(k);
  }

  lemma Distribute(i: nat, j: nat, p: nat)
    ensures j * p == i * p + (j - i) * p
  {
  }

  lemma CollideWitness(j: nat, k: nat, gap: int)
    requires j < |LEGS| && k < |LEGS| && LEGS[j].offset == gap + LEGS[k].offset
    ensures Collide(gap)
  {
  }

  /** Sharing a slot is colliding at the distance between the two sets' starts. */
  lemma SharedSlotCollides(e: Entry, f: Entry, n: nat, period: nat)
    requires InPlan(e, n) && InPlan(f, n) && e.set_ < f.set_ && SlotOf(e, period) == SlotOf(f, period)
    ensures Collide((f.set_ - e.set_) * period)
  {
    var j := LegIndex(e.leg);
    var k := LegIndex(f.leg);
    Distribute(e.set_, f.set_, period);
    CollideWitness(j, k, (f.set_ - e.set_) * period);
  }

  lemma MultiplesOfFourteenAreFree(i: nat)
    requires i > 0
    ensures !Collide(i * SET_PERIOD_SLOTS)
  {
    CollideIff(i * SET_PERIOD_SLOTS);
  }

  /** The frozen period never collides, for any number of sets. */
  lemma PeriodFourteenIsFree(n: nat)
    ensures CollisionFree(n, SET_PERIOD_SLOTS)
  {
    forall e, f | InPlan(e, n) && InPlan(f, n) && SlotOf(e, SET_PERIOD_SLOTS) == SlotOf(f, SET_PERIOD_SLOTS)
      ensures e == f
    {
      if e.set_ == f.set_ {
        var j := LegIndex(e.leg);
        var k := LegIndex(f.leg);
      } else if e.set_ < f.set_ {
        SharedSlotCollides(e, f, n, SET_PERIOD_SLOTS);
        MultiplesOfFourteenAreFree(f.set_ - e.set_);
      } else {
        SharedSlotCollides(f, e, n, SET_PERIOD_SLOTS);
        MultiplesOfFourteenAreFree(e.set_ - f.set_);
      }
    }
  }

  lemma CollisionFound(gap: nat, i: nat, n: nat, period: nat)
    requires i < n && gap == i * period && (Collide(gap) || gap == 0) && i > 0
    ensures !CollisionFree(n, period)
  {
    var j, k := 0, 0;
    if gap > 0 {
      j, k :| 0 <= j < |LEGS| && 0 <= k < |LEGS| && LEGS[j].offset == gap + LEGS[k].offset;
    }
    var e, f := Entry(0, LEGS[j]), Entry(i, LEGS[k]);
    assert InPlan(e, n) && InPlan(f, n) && SlotOf(e, period) == SlotOf(f, period) && e != f;
  }

  /** No shorter period works: it collides as soon as there are two sets, or three
      for a period of six. */
  lemma ShorterPeriodsCollide(n: nat, period: nat)
    requires period < SET_PERIOD_SLOTS
    ensures CollisionFree(n, period) <==> n <= 1 || (period == 6 && n == 2)
  {
    if n <= 1 || (period == 6 && n == 2) {
      forall e, f | InPlan(e, n) && InPlan(f, n) && SlotOf(e, period) == SlotOf(f, period)
        ensures e == f
      {
        var j := LegIndex(e.leg);
        var k := LegIndex(f.leg);
        if e.set_ < f.set_ {
          SharedSlotCollides(e, f, n, period);
          CollideIff(6);
        } else if f.set_ < e.set_ {
          SharedSlotCollides(f, e, n, period);
          CollideIff(6);
        }
      }
    } else if period == 6 {
      CollideIff(12);
      CollisionFound(12, 2, n, period);
    } else {
      if period > 0 {
        CollideIff(period);
      }
      CollisionFound(period, 1, n, period);
    }
  }

  // ---- no schedule is denser ----------------------------------------------

  /** Start slots in increasing order, of which no two sets collide. */
  ghost predicate IsSchedule(starts: seq<int>) {
    forall i, j :: 0 <= i < j < |starts| ==> starts[i] < starts[j] && !Collide(starts[j] - starts[i])
  }

  predicate ClearGap(gap: int) {
    gap == 6 || 14 <= gap <= 18 || gap >= 26
  }

  lemma {:induction false} ClearGapsSpan(starts: seq<int>)
    requires starts != [] && forall i, j :: 0 <= i < j < |starts| ==> ClearGap(starts[j] - starts[i])
    ensures starts[|starts| - 1] - starts[0] >= SET_PERIOD_SLOTS * (|starts| - 1) - 8
  {
    var m := |starts| - 1;
    if m >= 1 {
      assert ClearGap(starts[m] - starts[m - 1]);
      if starts[m] - starts[m - 1] >= 14 {
        ClearGapsSpan(starts[..m]);
      } else if m >= 2 {
        assert ClearGap(starts[m - 1] - starts[m - 2]) && ClearGap(starts[m] - starts[m - 2]);
        ClearGapsSpan(starts[..m - 1]);
      }
    }
  }

  /** However the sets are spaced, evenly or not, m + 1 of them span at least
      14 m - 8 slots: one set per 14 slots is the greatest density there is. */
  lemma NoDenserSchedule(starts: seq<int>)
    requires IsSchedule(starts) && starts != []
    ensures starts[|starts| - 1] - starts[0] >= SET_PERIOD_SLOTS * (|starts| - 1) - 8
  {
    forall i, j | 0 <= i < j < |starts|
      ensures ClearGap(starts[j] - starts[i])
    {
      CollideIff(starts[j] - starts[i]);
    }
    ClearGapsSpan(starts);
  }

  // ---- the window ---------------------------------------------------------

  /** sets_in_window: // rounds towards minus infinity. */
  function SetsInWindow(duration: real): nat {
    var slots := (duration / SPACING_S).Floor;
    if slots < SET_SPAN_SLOTS then 0 else (slots - SET_SPAN_SLOTS) / SET_PERIOD_SLOTS + 1
  }

  /** When a slot's grid time comes, after the segment's start. */
  function GridTime(slot: nat): real {
    slot as real * SPACING_S
  }

  /** The number planned is the largest whose last leg's slot lies wholly inside the window. */
  lemma WindowIsMaximal(duration: real, n: nat)
    requires duration >= 0.0
    ensures n <= SetsInWindow(duration)
       <==> n == 0 || GridTime((n - 1) * SET_PERIOD_SLOTS + SET_SPAN_SLOTS) <= duration
  {
    var slots := (duration / SPACING_S).Floor;
    if n > 0 {
      var last := (n - 1) * SET_PERIOD_SLOTS + SET_SPAN_SLOTS;
      assert GridTime(last) <= duration <==> last as real <= duration / SPACING_S;
      assert last as real <= duration / SPACING_S <==> last <= slots;
    }
  }

  /** So no planned slot is ever past the deadline: the SEGMENT_DEADLINE stop is never reached. */
  lemma DeadlineUnreachable(duration: real, slot: nat, e: Entry)
    requires InPlan(e, SetsInWindow(duration)) && slot == SlotOf(e, SET_PERIOD_SLOTS)
    ensures GridTime(slot) + SPACING_S <= duration
  {
    var k := LegIndex(e.leg);
    var slots := (duration / SPACING_S).Floor;
    assert slot + 1 <= slots;
    assert (slot + 1) as real <= duration / SPACING_S;
  }
}
