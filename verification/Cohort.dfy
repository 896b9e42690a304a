// The cohort selector (select_cohort, research/run85_phase2gr.py, lines 90-128).
// A pool is one sport's strata in key order, each a list of event ids ascending;
// the pools come in order of sport name.
module Cohort {
  import opened Counting
  import opened Wrappers
  import opened Balance

  type Pool = seq<seq<int>>

  function Ids(pool: Pool): set<int> {
    set k: int, id | 0 <= k < |pool| && id in pool[k] :: id
  }

  function Lengths(pool: Pool): seq<nat> {
    seq(|pool|, k requires 0 <= k < |pool| => |pool[k]|)
  }

  // ---- longest first ------------------------------------------------------

  /** sorted(..., key=(-length, position)). */
  function LongestFirst(lens: seq<nat>): seq<nat> {
    if lens == [] then []
    else
      var last := |lens| - 1;
      var before := LongestFirst(lens[..last]);
      var p := Place(before, lens, lens[last]);
      before[..p] + [last] + before[p..]
  }

  /** The first position of the order whose length is below x. */
  function Place(order: seq<nat>, lens: seq<nat>, x: nat): (p: nat)
    ensures p <= |order|
  {
    if order == [] || order[0] >= |lens| || lens[order[0]] < x then 0 else 1 + Place(order[1..], lens, x)
  }

  ghost predicate IsOrder(order: seq<nat>, lens: seq<nat>) {
    && |order| == |lens|
    && (forall k :: 0 <= k < |order| ==> order[k] < |lens|)
    && (forall j, k :: 0 <= j < k < |order| ==> Precedes(order[j], order[k], lens))
    && (forall s :: 0 <= s < |lens| ==> s in order)
  }

  /** Longer first, then earlier. */
  predicate Precedes(a: nat, b: nat, lens: seq<nat>) {
    a < |lens| && b < |lens| && (lens[a] > lens[b] || (lens[a] == lens[b] && a < b))
  }

  lemma {:induction false} PlaceSplits(order: seq<nat>, lens: seq<nat>, x: nat)
    requires forall k :: 0 <= k < |order| ==> order[k] < |lens|
    requires forall j, k :: 0 <= j < k < |order| ==> lens[order[j]] >= lens[order[k]]
    ensures var p := Place(order, lens, x);
      (forall k :: 0 <= k < p ==> lens[order[k]] >= x) && (forall k :: p <= k < |order| ==> lens[order[k]] < x)
  {
    if order != [] && lens[order[0]] >= x {
      PlaceSplits(order[1..], lens, x);
      assert forall k :: 1 <= k < |order| ==> order[k] == order[1..][k - 1];
    }
  }

  lemma {:induction false} LongestFirstIsOrder(lens: seq<nat>)
    ensures IsOrder(LongestFirst(lens), lens)
  {
    if lens != [] {
      var last := |lens| - 1;
      var shorter := lens[..last];
      LongestFirstIsOrder(shorter);
      var before := LongestFirst(shorter);
      assert forall k :: 0 <= k < |before| ==> shorter[before[k]] == lens[before[k]];
      assert forall j, k :: 0 <= j < k < |before| ==> Precedes(before[j], before[k], shorter);
      PlaceSplits(before, lens, lens[last]);
      InsertKeepsOrder(before, lens, Place(before, lens, lens[last]));
    }
  }

  lemma InsertKeepsOrder(before: seq<nat>, lens: seq<nat>, p: nat)
    requires lens != [] && p <= |before| && IsOrder(before, lens[..|lens| - 1])
    requires forall k :: 0 <= k < p ==> before[k] < |lens| - 1 && lens[before[k]] >= lens[|lens| - 1]
    requires forall k :: p <= k < |before| ==> before[k] < |lens| - 1 && lens[before[k]] < lens[|lens| - 1]
    ensures IsOrder(before[..p] + [|lens| - 1] + before[p..], lens)
  {
    var last := |lens| - 1;
    var shorter := lens[..last];
    var order := before[..p] + [last] + before[p..];
    forall j, k | 0 <= j < k < |order|
      ensures Precedes(order[j], order[k], lens)
    {
      var jj := if j < p then j else j - 1;
      var kk := if k < p then k else k - 1;
      if j != p && k != p {
        assert Precedes(before[jj], before[kk], shorter);
      }
    }
    forall s | 0 <= s < |lens|
      ensures s in order
    {
      if s < last {
        assert s in before;
        var k :| 0 <= k < |before| && before[k] == s;
        assert order[if k < p then k else k + 1] == s;
      } else {
        assert order[p] == last;
      }
    }
  }

  // ---- one draw from one sport --------------------------------------------

  /** The first event of the first of the longest strata has been taken. */
  ghost predicate TakenFromLongest(pool: Pool, rest: Pool, id: int) {
    exists k :: TakenFrom(pool, rest, id, k)
  }

  ghost predicate TakenFrom(pool: Pool, rest: Pool, id: int, k: nat) {
    LongestStratum(pool, k) && pool[k] != [] && pool[k][0] == id && rest == pool[k := pool[k][1..]]
  }

  /** Stratum k is the first of the longest. */
  ghost predicate LongestStratum(pool: Pool, k: nat) {
    k < |pool| && forall j :: 0 <= j < |pool| && j != k ==> |pool[k]| > |pool[j]| || (|pool[k]| == |pool[j]| && k < j)
  }

  /** Which strata have been worked through: those before i in the order are empty
      and held only used events, the others after i are as they were. */
  ghost predicate Worked(pool: Pool, rest: Pool, order: seq<nat>, i: nat, used: set<int>) {
    && |rest| == |pool| && i <= |order|
    && (forall j :: 0 <= j < i && order[j] < |pool| ==> rest[order[j]] == [] && Used(pool[order[j]], used))
    && (forall j :: i <= j < |order| && order[j] < |pool| ==> rest[order[j]] == pool[order[j]])
  }

  ghost predicate Used(ids: seq<int>, used: set<int>) {
    forall x :: 0 <= x < |ids| ==> ids[x] in used
  }

  /** The state inside stratum k: p used events popped from it. */
  ghost predicate Popping(pool: Pool, rest: Pool, order: seq<nat>, i: nat, p: nat, used: set<int>) {
    && i < |order| && order[i] < |pool| && |rest| == |pool| && p <= |pool[order[i]]|
    && rest[order[i]] == pool[order[i]][p..] && Used(pool[order[i]][..p], used)
    && Worked(pool, rest[order[i] := pool[order[i]]], order, i, used)
  }

  lemma InEarlierOrLater(pool: Pool, order: seq<nat>, k: nat) returns (j: nat)
    requires IsOrder(order, Lengths(pool)) && k < |pool|
    ensures j < |order| && order[j] == k
  {
    assert k in order;
    j :| 0 <= j < |order| && order[j] == k;
  }

  lemma PrefixUsed(ids: seq<int>, p: nat, used: set<int>)
    requires p <= |ids| && Used(ids[..p], used)
    ensures forall x :: 0 <= x < p ==> ids[x] in used
  {
    assert forall x :: 0 <= x < p ==> ids[x] == ids[..p][x];
  }

  lemma InIds(pool: Pool, k: nat, x: nat)
    requires k < |pool| && x < |pool[k]|
    ensures pool[k][x] in Ids(pool)
  {
    var id := pool[k][x];
    assert 0 <= k < |pool| && id in pool[k];
  }

  lemma RestIsSubset(pool: Pool, rest: Pool, order: seq<nat>, i: nat, p: nat, used: set<int>)
    requires IsOrder(order, Lengths(pool)) && Popping(pool, rest, order, i, p, used)
    ensures Ids(rest) <= Ids(pool) && Ids(pool) - used <= Ids(rest)
  {
    forall id | id in Ids(rest)
      ensures id in Ids(pool)
    {
      var k :| 0 <= k < |rest| && id in rest[k];
      var j := InEarlierOrLater(pool, order, k);
      assert id in pool[k];
    }
    forall id | id in Ids(pool) && id !in used
      ensures id in Ids(rest)
    {
      var k :| 0 <= k < |pool| && id in pool[k];
      var x :| 0 <= x < |pool[k]| && pool[k][x] == id;
      var j := InEarlierOrLater(pool, order, k);
      if j == i {
        PrefixUsed(pool[k], p, used);
        assert rest[k][x - p] == id;
      }
      assert id in rest[k];
    }
  }

  /** With nothing used, only empty strata lie before the first event found. */
  lemma NextIsLongest(pool: Pool, rest: Pool, order: seq<nat>, i: nat, used: set<int>)
    requires IsOrder(order, Lengths(pool)) && Popping(pool, rest, order, i, 0, used)
    requires pool[order[i]] != [] && Ids(pool) !! used
    ensures LongestStratum(pool, order[i]) && rest == pool
  {
    var k := order[i];
    forall j | 0 <= j < |pool| && j != k
      ensures rest[j] == pool[j] && (|pool[k]| > |pool[j]| || (|pool[k]| == |pool[j]| && k < j))
    {
      var at := InEarlierOrLater(pool, order, j);
      if at < i {
        assert Precedes(order[at], order[i], Lengths(pool));
        assert |pool[j]| > 0 ==> pool[j][0] in used;
        if |pool[j]| > 0 {
          InIds(pool, j, 0);
        }
      } else {
        assert Precedes(order[i], order[at], Lengths(pool));
      }
    }
  }

  lemma NothingPopped(pool: Pool, rest: Pool, order: seq<nat>, i: nat, p: nat, used: set<int>)
    requires Popping(pool, rest, order, i, p, used) && p < |pool[order[i]]| && pool[order[i]][p] !in used
    requires Ids(pool) !! used
    ensures p == 0
  {
    if p > 0 {
      PrefixUsed(pool[order[i]], p, used);
      InIds(pool, order[i], 0);
    }
  }

  lemma PopKeeps(pool: Pool, rest: Pool, order: seq<nat>, i: nat, p: nat, used: set<int>)
    requires Popping(pool, rest, order, i, p, used) && p < |pool[order[i]]| && pool[order[i]][p] in used
    ensures Popping(pool, rest[order[i] := rest[order[i]][1..]], order, i, p + 1, used)
  {
    var k := order[i];
    var after := rest[k := rest[k][1..]];
    assert pool[k][..p + 1] == pool[k][..p] + [pool[k][p]];
    assert after[k := pool[k]] == rest[k := pool[k]];
  }

  /** What taking the next unused event does to a pool. */
  lemma Taking(pool: Pool, rest: Pool, order: seq<nat>, i: nat, p: nat, used: set<int>)
    requires IsOrder(order, Lengths(pool)) && Popping(pool, rest, order, i, p, used)
    requires p < |pool[order[i]]| && pool[order[i]][p] !in used
    ensures var id := pool[order[i]][p]; var after := rest[order[i] := rest[order[i]][1..]];
      id in Ids(pool) - used && Ids(after) <= Ids(pool) && Ids(pool) - used - {id} <= Ids(after)
    ensures Ids(pool) !! used ==> TakenFromLongest(pool, rest[order[i] := rest[order[i]][1..]], pool[order[i]][p])
  {
    var k := order[i];
    var id := pool[k][p];
    var after := rest[k := rest[k][1..]];
    RestIsSubset(pool, rest, order, i, p, used);
    InIds(pool, k, p);
    assert rest[k] == [id] + after[k];
    forall x | x in Ids(rest)
      ensures x == id || x in Ids(after)
    {
      var j :| 0 <= j < |rest| && x in rest[j];
      assert j != k ==> after[j] == rest[j];
    }
    forall x | x in Ids(after)
      ensures x in Ids(rest)
    {
      var j :| 0 <= j < |after| && x in after[j];
      assert x in rest[j];
    }
    if Ids(pool) !! used {
      NothingPopped(pool, rest, order, i, p, used);
      NextIsLongest(pool, rest, order, i, used);
      assert TakenFrom(pool, after, id, k);
    }
  }

  lemma NothingLeft(pool: Pool, rest: Pool, order: seq<nat>, used: set<int>)
    requires IsOrder(order, Lengths(pool)) && Worked(pool, rest, order, |order|, used)
    ensures Ids(pool) <= used && Ids(rest) == {}
  {
    forall k, id | 0 <= k < |pool| && id in pool[k]
      ensures id in used
    {
      var j := InEarlierOrLater(pool, order, k);
      assert Used(pool[order[j]], used);
    }
    forall k | 0 <= k < |rest|
      ensures rest[k] == []
    {
      var j := InEarlierOrLater(pool, order, k);
    }
  }

  lemma StratumDone(pool: Pool, rest: Pool, order: seq<nat>, i: nat, p: nat, used: set<int>)
    requires IsOrder(order, Lengths(pool)) && Popping(pool, rest, order, i, p, used) && rest[order[i]] == []
    ensures Worked(pool, rest, order, i + 1, used)
  {
    var k := order[i];
    assert pool[k][..p] == pool[k];
    forall j | 0 <= j < |order| && j != i
      ensures order[j] != k
    {
      assert if j < i then Precedes(order[j], order[i], Lengths(pool)) else Precedes(order[i], order[j], Lengths(pool));
    }
  }

  lemma StratumBegins(pool: Pool, rest: Pool, order: seq<nat>, i: nat, used: set<int>)
    requires IsOrder(order, Lengths(pool)) && i < |order| && Worked(pool, rest, order, i, used)
    ensures Popping(pool, rest, order, i, 0, used)
  {
    assert rest[order[i] := pool[order[i]]] == rest;
  }

  /** One sport's turn: its strata longest first, each popped until an unused event. */
  method TakeOne(pool: Pool, used: set<int>) returns (rest: Pool, taken: Option<int>)
    ensures taken == None ==> Ids(pool) <= used && Ids(rest) == {} && |rest| == |pool|
    ensures taken.Some? ==> taken.value in Ids(pool) - used && Ids(rest) <= Ids(pool)
    ensures taken.Some? ==> Ids(pool) - used - {taken.value} <= Ids(rest)
    ensures taken.Some? && Ids(pool) !! used ==> TakenFromLongest(pool, rest, taken.value)
  {
    rest := pool;
    var order := LongestFirst(Lengths(pool));
    LongestFirstIsOrder(Lengths(pool));
    for i := 0 to |order|
      invariant Worked(pool, rest, order, i, used)
    {
      var k := order[i];
      ghost var p := 0;
      StratumBegins(pool, rest, order, i, used);
      while rest[k] != []
        invariant Popping(pool, rest, order, i, p, used)
        decreases |rest[k]|
      {
        var id := rest[k][0];
        if id !in used {
          Taking(pool, rest, order, i, p, used);
        } else {
          PopKeeps(pool, rest, order, i, p, used);
        }
        rest := rest[k := rest[k][1..]];
        if id !in used {
          return rest, Some(id);
        }
        p := p + 1;
      }
      StratumDone(pool, rest, order, i, p, used);
    }
    NothingLeft(pool, rest, order, used);
    return rest, None;
  }

  // ---- the selector -------------------------------------------------------

  datatype Pick = Pick(sport: nat, id: int)

  function Picked(picks: seq<Pick>): set<int> {
    set k | 0 <= k < |picks| :: picks[k].id
  }

  /** Within every sport each stratum has been drawn from its front, and none drawn
      from has been left two or more shorter than another. */
  ghost predicate FrontsTaken(start: seq<Pool>, left: seq<Pool>, used: set<int>) {
    |left| == |start| && forall p :: 0 <= p < |start| ==> InOrder(start[p], left[p], used)
  }

  lemma FrontsKept(start: seq<Pool>, pools: seq<Pool>, used: set<int>, i: nat, id: int, rest: Pool)
    requires Separate(start) && FrontsTaken(start, pools, used) && i < |start| && id in Ids(start[i])
    requires Ids(pools[i]) !! used ==> TakenFromLongest(pools[i], rest, id)
    ensures FrontsTaken(start, pools[i := rest], used + {id})
  {
    forall p | 0 <= p < |start|
      ensures InOrder(start[p], pools[i := rest][p], used + {id})
    {
      if p == i {
        LeftIsUnused(start[i], pools[i], used);
        TakingKeepsOrder(start[i], pools[i], used, id, rest);
      } else {
        assert if p < i then Ids(start[p]) !! Ids(start[i]) else Ids(start[i]) !! Ids(start[p]);
        OtherKeepsOrder(start[p], pools[p], used, id);
      }
    }
  }

  lemma FrontsEmptied(start: seq<Pool>, pools: seq<Pool>, used: set<int>, i: nat, rest: Pool)
    requires FrontsTaken(start, pools, used) && i < |start|
    requires Ids(pools[i]) <= used && Ids(rest) == {} && |rest| == |pools[i]|
    ensures FrontsTaken(start, pools[i := rest], used)
  {
    EmptiedKeepsOrder(start[i], pools[i], used, rest);
  }

  /** How many of the picks are of a sport. */
  function CountOf(picks: seq<Pick>, sport: nat): nat {
    if picks == [] then 0
    else CountOf(picks[..|picks| - 1], sport) + if picks[|picks| - 1].sport == sport then 1 else 0
  }

  /** The picks counted by sport, in drawing order. */
  function Counts(picks: seq<Pick>, sports: seq<nat>): seq<nat> {
    seq(|sports|, p requires 0 <= p < |sports| => CountOf(picks, sports[p]))
  }

  function Sizes(pools: seq<Pool>): seq<nat> {
    seq(|pools|, p requires 0 <= p < |pools| => |Ids(pools[p])|)
  }

  /** The frame holds each event once, so its events fall in one sport each. */
  ghost predicate Separate(pools: seq<Pool>) {
    && (forall p, q :: 0 <= p < q < |pools| ==> Ids(pools[p]) !! Ids(pools[q]))
    && (forall p :: 0 <= p < |pools| ==> OnceEach(pools[p]))
  }

  ghost predicate IsPickOf(pick: Pick, start: seq<Pool>, sports: seq<nat>)
    requires |sports| == |start|
  {
    exists p :: 0 <= p < |start| && pick.sport == sports[p] && pick.id in Ids(start[p])
  }

  /** Each pick is an event of its sport, and none is picked twice. */
  ghost predicate ProperPicks(picks: seq<Pick>, start: seq<Pool>, sports: seq<nat>)
    requires |sports| == |start|
  {
    && (forall k :: 0 <= k < |picks| ==> IsPickOf(picks[k], start, sports))
    && (forall j, k :: 0 <= j < k < |picks| ==> picks[j].id != picks[k].id)
  }

  /** What has been drawn from each pool, and what is left in it. */
  ghost predicate Drawn(start: seq<Pool>, pools: seq<Pool>, used: set<int>, c: seq<nat>) {
    && |start| == |pools| == |c| && Separate(start)
    && (forall p :: 0 <= p < |start| ==> LeftIn(start[p], pools[p], used, c[p]))
  }

  ghost predicate LeftIn(start: Pool, pool: Pool, used: set<int>, drawn: nat) {
    && Ids(start) - used <= Ids(pool) <= Ids(start)
    && |Ids(start) - used| + drawn == |Ids(start)|
  }

  /** Each stratum has been drawn from its front, and none drawn from has been left
      two or more shorter than another. */
  ghost predicate InOrder(start: Pool, pool: Pool, used: set<int>) {
    && |pool| == |start|
    && (forall k :: 0 <= k < |start| ==> FrontTaken(start[k], pool[k], used))
    && (forall k, j :: 0 <= k < |start| && 0 <= j < |start| && |pool[k]| < |start[k]| ==> |pool[k]| + 1 >= |pool[j]|)
  }

  /** What is left of a list once exactly its used events have been taken off the front. */
  ghost predicate FrontTaken(all: seq<int>, left: seq<int>, used: set<int>) {
    && |left| <= |all| && left == all[|all| - |left|..]
    && (forall x :: 0 <= x < |all| ==> (all[x] in used <==> x < |all| - |left|))
  }

  /** No event is listed twice. */
  ghost predicate OnceEach(pool: Pool) {
    forall k, x, l, y :: 0 <= k < |pool| && 0 <= x < |pool[k]| && 0 <= l < |pool| && 0 <= y < |pool[l]|
        && (k != l || x != y)
      ==> pool[k][x] != pool[l][y]
  }

  lemma NothingTakenYet(start: Pool)
    ensures InOrder(start, start, {})
  {
  }

  /** What is left is unused. */
  lemma LeftIsUnused(start: Pool, pool: Pool, used: set<int>)
    requires InOrder(start, pool, used)
    ensures Ids(pool) !! used
  {
    forall k, id | 0 <= k < |pool| && id in pool[k]
      ensures id !in used
    {
      var x :| 0 <= x < |pool[k]| && pool[k][x] == id;
      assert FrontTaken(start[k], pool[k], used);
      assert start[k][|start[k]| - |pool[k]| + x] == id;
    }
  }

  lemma FrontTakenOne(all: seq<int>, left: seq<int>, used: set<int>)
    requires FrontTaken(all, left, used) && left != []
    requires forall x, y :: 0 <= x < y < |all| ==> all[x] != all[y]
    ensures FrontTaken(all, left[1..], used + {left[0]})
  {
    assert left[0] == all[|all| - |left|];
  }

  lemma FrontUntouched(all: seq<int>, left: seq<int>, used: set<int>, id: int)
    requires FrontTaken(all, left, used) && id !in all
    ensures FrontTaken(all, left, used + {id})
  {
  }

  lemma TakingKeepsOrder(start: Pool, pool: Pool, used: set<int>, id: int, rest: Pool)
    requires OnceEach(start) && InOrder(start, pool, used) && TakenFromLongest(pool, rest, id)
    ensures InOrder(start, rest, used + {id})
  {
    var k: nat :| TakenFrom(pool, rest, id, k);
    assert k < |pool| && FrontTaken(start[k], pool[k], used);
    assert start[k][|start[k]| - |pool[k]|] == id;
    forall j | 0 <= j < |start|
      ensures FrontTaken(start[j], rest[j], used + {id})
    {
      assert FrontTaken(start[j], pool[j], used);
      if j == k {
        FrontTakenOne(start[k], pool[k], used);
      } else {
        FrontUntouched(start[j], pool[j], used, id);
      }
    }
  }

  lemma OtherKeepsOrder(start: Pool, pool: Pool, used: set<int>, id: int)
    requires InOrder(start, pool, used) && id !in Ids(start)
    ensures InOrder(start, pool, used + {id})
  {
    forall j | 0 <= j < |start|
      ensures FrontTaken(start[j], pool[j], used + {id})
    {
      assert FrontTaken(start[j], pool[j], used);
      assert id !in start[j];
      FrontUntouched(start[j], pool[j], used, id);
    }
  }

  lemma EmptiedKeepsOrder(start: Pool, pool: Pool, used: set<int>, rest: Pool)
    requires InOrder(start, pool, used) && Ids(pool) <= used && Ids(rest) == {} && |rest| == |pool|
    ensures InOrder(start, rest, used)
  {
    LeftIsUnused(start, pool, used);
    forall k | 0 <= k < |pool|
      ensures pool[k] == [] == rest[k]
    {
      if pool[k] != [] {
        InIds(pool, k, 0);
      }
      if rest[k] != [] {
        InIds(rest, k, 0);
      }
    }
    assert rest == pool;
  }

  ghost predicate Recorded(picks: seq<Pick>, used: set<int>, start: seq<Pool>, sports: seq<nat>, c: seq<nat>) {
    && |sports| == |start| && c == Counts(picks, sports) && Sum(c) == |picks|
    && ProperPicks(picks, start, sports)
    && used == Picked(picks)
  }

  lemma DrawFromOne(start: Pool, pool: Pool, used: set<int>, drawn: nat, id: int, rest: Pool)
    requires LeftIn(start, pool, used, drawn) && id in Ids(pool) - used
    requires Ids(rest) <= Ids(pool) && Ids(pool) - used - {id} <= Ids(rest)
    ensures LeftIn(start, rest, used + {id}, drawn + 1)
  {
    assert Ids(start) - (used + {id}) == (Ids(start) - used) - {id};
  }

  lemma OtherUntouched(start: Pool, pool: Pool, used: set<int>, drawn: nat, id: int)
    requires LeftIn(start, pool, used, drawn) && id !in Ids(start)
    ensures LeftIn(start, pool, used + {id}, drawn)
  {
    assert Ids(start) - (used + {id}) == Ids(start) - used;
  }

  lemma DrawKeeps(start: seq<Pool>, pools: seq<Pool>, used: set<int>, c: seq<nat>, p: nat, id: int, rest: Pool)
    requires Drawn(start, pools, used, c) && p < |pools| && id in Ids(pools[p]) - used
    requires Ids(rest) <= Ids(pools[p]) && Ids(pools[p]) - used - {id} <= Ids(rest)
    ensures Drawn(start, pools[p := rest], used + {id}, c[p := c[p] + 1])
  {
    forall q | 0 <= q < |start|
      ensures LeftIn(start[q], pools[p := rest][q], used + {id}, c[p := c[p] + 1][q])
    {
      assert LeftIn(start[q], pools[q], used, c[q]);
      if q == p {
        DrawFromOne(start[p], pools[p], used, c[p], id, rest);
      } else {
        assert LeftIn(start[p], pools[p], used, c[p]);
        assert id in Ids(start[p])
            && (if q < p then Ids(start[q]) !! Ids(start[p]) else Ids(start[p]) !! Ids(start[q]));
        OtherUntouched(start[q], pools[q], used, c[q], id);
      }
    }
  }

  lemma RecordKeeps(picks: seq<Pick>, used: set<int>, start: seq<Pool>, sports: seq<nat>, c: seq<nat>, p: nat, id: int)
    requires Recorded(picks, used, start, sports, c) && p < |sports| && id in Ids(start[p]) && id !in used
    requires AllDifferent(sports)
    ensures Recorded(picks + [Pick(sports[p], id)], used + {id}, start, sports, c[p := c[p] + 1])
  {
    var pick := Pick(sports[p], id);
    var after := picks + [pick];
    assert after[..|picks|] == picks;
    assert after[|picks|] == pick && forall k :: 0 <= k < |picks| ==> after[k] == picks[k];
    assert Picked(after) == Picked(picks) + {id};
    forall q | 0 <= q < |sports|
      ensures c[p := c[p] + 1][q] == CountOf(after, sports[q])
    {
    }
    assert c[p := c[p] + 1] == Counts(after, sports);
    SumUpdate(c, p, c[p] + 1);
    assert IsPickOf(pick, start, sports);
  }

  /** A sport's turn moves the level on, whether or not it had an event left. */
  lemma TurnMovesOn(n: seq<nat>, c: seq<nat>, rounds: nat, i: nat)
    requires Level(n, c, rounds, i) && i < |n|
    ensures c[i] < n[i] ==> Level(n, c[i := c[i] + 1], rounds, i + 1)
    ensures c[i] == n[i] ==> Level(n, c, rounds, i + 1)
  {
  }

  lemma NothingDrawn(start: seq<Pool>, sports: seq<nat>)
    requires Separate(start) && |sports| == |start|
    ensures Drawing(start, start, {}, [], sports, 0, 0)
  {
    SumIsZeroIff(Counts([], sports));
    AllStillThere(start, Counts([], sports));
    NoFrontsTaken(start);
  }

  lemma AllStillThere(start: seq<Pool>, c: seq<nat>)
    requires Separate(start) && |c| == |start| && forall p :: 0 <= p < |c| ==> c[p] == 0
    ensures Drawn(start, start, {}, c)
  {
    forall p | 0 <= p < |start|
      ensures LeftIn(start[p], start[p], {}, 0)
    {
      assert Ids(start[p]) - {} == Ids(start[p]);
    }
  }

  lemma NoFrontsTaken(start: seq<Pool>)
    ensures FrontsTaken(start, start, {})
  {
    forall p | 0 <= p < |start|
      ensures InOrder(start[p], start[p], {})
    {
      NothingTakenYet(start[p]);
    }
  }

  /** The state between two turns. */
  ghost predicate Drawing(start: seq<Pool>, pools: seq<Pool>, used: set<int>, picks: seq<Pick>, sports: seq<nat>,
                          rounds: nat, i: nat) {
    && |sports| == |start| && i <= |start|
    && Drawn(start, pools, used, Counts(picks, sports)) && Recorded(picks, used, start, sports, Counts(picks, sports))
    && Level(Sizes(start), Counts(picks, sports), rounds, i)
    && FrontsTaken(start, pools, used)
  }

  ghost predicate DrainedTo(start: seq<Pool>, picks: seq<Pick>, sports: seq<nat>, i: nat) {
    |sports| == |start| && forall s :: 0 <= s < i && s < |start| ==> Counts(picks, sports)[s] == Sizes(start)[s]
  }

  lemma TurnTakes(start: seq<Pool>, pools: seq<Pool>, used: set<int>, picks: seq<Pick>, sports: seq<nat>, rounds: nat,
                  i: nat, id: int, rest: Pool)
    requires Drawing(start, pools, used, picks, sports, rounds, i) && i < |start| && id in Ids(pools[i]) - used
    requires Ids(rest) <= Ids(pools[i]) && Ids(pools[i]) - used - {id} <= Ids(rest)
    requires Ids(pools[i]) !! used ==> TakenFromLongest(pools[i], rest, id)
    requires AllDifferent(sports)
    ensures Drawing(start, pools[i := rest], used + {id}, picks + [Pick(sports[i], id)], sports, rounds, i + 1)
  {
    var c := Counts(picks, sports);
    assert LeftIn(start[i], pools[i], used, c[i]);
    assert id in Ids(start[i]) - used;
    DrawKeeps(start, pools, used, c, i, id, rest);
    FrontsKept(start, pools, used, i, id, rest);
    RecordKeeps(picks, used, start, sports, c, i, id);
    TurnMovesOn(Sizes(start), c, rounds, i);
  }

  lemma TurnPasses(start: seq<Pool>, pools: seq<Pool>, used: set<int>, picks: seq<Pick>, sports: seq<nat>, rounds: nat,
                   i: nat, rest: Pool)
    requires Drawing(start, pools, used, picks, sports, rounds, i) && i < |start| && Ids(pools[i]) <= used
    requires Ids(rest) == {} && |rest| == |pools[i]|
    ensures Drawing(start, pools[i := rest], used, picks, sports, rounds, i + 1)
    ensures Counts(picks, sports)[i] == Sizes(start)[i]
  {
    var c := Counts(picks, sports);
    assert LeftIn(start[i], pools[i], used, c[i]);
    assert Ids(start[i]) - used == {};
    FrontsEmptied(start, pools, used, i, rest);
    TurnMovesOn(Sizes(start), c, rounds, i);
    forall p | 0 <= p < |start|
      ensures LeftIn(start[p], pools[i := rest][p], used, c[p])
    {
      assert LeftIn(start[p], pools[p], used, c[p]);
    }
  }

  lemma RoundEnds(start: seq<Pool>, pools: seq<Pool>, used: set<int>, picks: seq<Pick>, sports: seq<nat>, rounds: nat)
    requires Drawing(start, pools, used, picks, sports, rounds, |start|)
    ensures Drawing(start, pools, used, picks, sports, rounds + 1, 0)
  {
  }

  lemma Finished(start: seq<Pool>, picks: seq<Pick>, sports: seq<nat>, rounds: nat, i: nat, cap: nat)
    requires |sports| == |start| && Level(Sizes(start), Counts(picks, sports), rounds, i)
    requires Sum(Counts(picks, sports)) == |picks| <= cap
    requires |picks| == cap || DrainedTo(start, picks, sports, |start|)
    ensures RoundRobin(Sizes(start), Counts(picks, sports)) && |picks| == Min(cap, Sum(Sizes(start)))
  {
    var n, c := Sizes(start), Counts(picks, sports);
    SumMonotone(c, n);
    if DrainedTo(start, picks, sports, |start|) {
      assert c == n;
    }
  }

  function Reordered(bySport: seq<Pool>, order: seq<nat>): seq<Pool>
    requires forall k :: 0 <= k < |order| ==> order[k] < |bySport|
  {
    seq(|order|, k requires 0 <= k < |order| => bySport[order[k]])
  }

  lemma ReorderedIsSeparate(bySport: seq<Pool>, order: seq<nat>)
    requires Separate(bySport) && IsOrder(order, Sizes(bySport))
    ensures Separate(Reordered(bySport, order)) && LargestFirst(Sizes(Reordered(bySport, order)))
    ensures AllDifferent(order)
  {
    var lens := Sizes(bySport);
    forall q, r | 0 <= q < r < |order|
      ensures order[q] != order[r] && lens[order[q]] >= lens[order[r]]
      ensures Ids(bySport[order[q]]) !! Ids(bySport[order[r]])
    {
      assert Precedes(order[q], order[r], lens);
      assert order[q] < order[r] || order[r] < order[q];
    }
  }

  /** The picks are a round-robin draw, taken off the fronts of the strata. */
  ghost predicate IsDrawn(start: seq<Pool>, picks: seq<Pick>, sports: seq<nat>) {
    && RoundRobin(Sizes(start), Counts(picks, sports))
    && exists left :: FrontsTaken(start, left, Picked(picks))
  }

  /** So are the first k of them, for every k: they come in the order of the turns. */
  ghost predicate DrawnInTurn(start: seq<Pool>, picks: seq<Pick>, sports: seq<nat>) {
    forall k :: 0 <= k <= |picks| ==> IsDrawn(start, picks[..k], sports)
  }

  lemma DrawingIsDrawn(start: seq<Pool>, pools: seq<Pool>, used: set<int>, picks: seq<Pick>, sports: seq<nat>,
                       rounds: nat, i: nat)
    requires Drawing(start, pools, used, picks, sports, rounds, i)
    ensures IsDrawn(start, picks, sports)
  {
    assert FrontsTaken(start, pools, Picked(picks));
    assert Level(Sizes(start), Counts(picks, sports), rounds, i);
  }

  lemma DrawnFurther(start: seq<Pool>, picks: seq<Pick>, pick: Pick, sports: seq<nat>)
    requires DrawnInTurn(start, picks, sports) && IsDrawn(start, picks + [pick], sports)
    ensures DrawnInTurn(start, picks + [pick], sports)
  {
    var all := picks + [pick];
    assert all[..|all|] == all;
    forall k | 0 <= k <= |all|
      ensures IsDrawn(start, all[..k], sports)
    {
      assert k <= |picks| ==> all[..k] == picks[..k];
    }
  }

  lemma TakenInTurn(start: seq<Pool>, pools: seq<Pool>, used: set<int>, picks: seq<Pick>, sports: seq<nat>, rounds: nat,
                    i: nat, id: int, rest: Pool)
    requires Drawing(start, pools, used, picks, sports, rounds, i) && i < |start| && id in Ids(pools[i]) - used
    requires Ids(rest) <= Ids(pools[i]) && Ids(pools[i]) - used - {id} <= Ids(rest)
    requires Ids(pools[i]) !! used ==> TakenFromLongest(pools[i], rest, id)
    requires AllDifferent(sports) && DrawnInTurn(start, picks, sports)
    ensures Drawing(start, pools[i := rest], used + {id}, picks + [Pick(sports[i], id)], sports, rounds, i + 1)
    ensures DrawnInTurn(start, picks + [Pick(sports[i], id)], sports)
  {
    TurnTakes(start, pools, used, picks, sports, rounds, i, id, rest);
    DrawingIsDrawn(start, pools[i := rest], used + {id}, picks + [Pick(sports[i], id)], sports, rounds, i + 1);
    DrawnFurther(start, picks, Pick(sports[i], id), sports);
  }

  /** One sport's turn, as the round sees it. */
  method Turn(ghost start: seq<Pool>, pools: seq<Pool>, used: set<int>, picks: seq<Pick>, sports: seq<nat>, at: nat,
              ghost rounds: nat)
    returns (pools': seq<Pool>, used': set<int>, picks': seq<Pick>, taken: bool)
    requires Drawing(start, pools, used, picks, sports, rounds, at) && AllDifferent(sports) && at < |start|
    requires DrawnInTurn(start, picks, sports)
    ensures Drawing(start, pools', used', picks', sports, rounds, at + 1) && DrawnInTurn(start, picks', sports)
    ensures if taken then |picks'| == |picks| + 1
            else picks' == picks && Counts(picks, sports)[at] == Sizes(start)[at]
  {
    pools', used', picks', taken := pools, used, picks, false;
    var rest, found := TakeOne(pools[at], used);
    match found {
      case Some(id) =>
        TakenInTurn(start, pools, used, picks, sports, rounds, at, id, rest);
        picks' := picks + [Pick(sports[at], id)];
        used' := used + {id};
        taken := true;
      case None =>
        TurnPasses(start, pools, used, picks, sports, rounds, at, rest);
    }
    pools' := pools[at := rest];
  }

  /** One round: a turn for each sport in order, until the cap is reached. */
  method Round(ghost start: seq<Pool>, pools: seq<Pool>, used: set<int>, picks: seq<Pick>, sports: seq<nat>, cap: nat,
               ghost rounds: nat)
    returns (pools': seq<Pool>, used': set<int>, picks': seq<Pick>, progress: bool, ghost i: nat)
    requires Drawing(start, pools, used, picks, sports, rounds, 0) && AllDifferent(sports) && |picks| < cap
    requires DrawnInTurn(start, picks, sports)
    ensures Drawing(start, pools', used', picks', sports, rounds, i) && |picks'| <= cap
    ensures DrawnInTurn(start, picks', sports)
    ensures |picks'| < cap ==> i == |start|
    ensures if progress then |picks'| > |picks| else picks' == picks && DrainedTo(start, picks', sports, |start|)
  {
    pools', used', picks', progress := pools, used, picks, false;
    i := 0;
    for at := 0 to |sports|
      invariant i == at && Drawing(start, pools', used', picks', sports, rounds, at) && |picks'| <= cap
      invariant if progress then |picks'| > |picks| else picks' == picks && DrainedTo(start, picks', sports, at)
      invariant DrawnInTurn(start, picks', sports)
    {
      if |picks'| >= cap {
        break;
      }
      var taken;
      pools', used', picks', taken := Turn(start, pools', used', picks', sports, at, rounds);
      progress := progress || taken;
      i := at + 1;
    }
  }

  /** Round robin over the sports, largest pool first: the picks are distinct
      events of their sports, as many as the cap and the pools allow, spread as
      RoundRobin says. */
  method SelectCohort(bySport: seq<Pool>, cap: nat) returns (picks: seq<Pick>, sports: seq<nat>, ghost left: seq<Pool>)
    requires Separate(bySport)
    ensures IsOrder(sports, Sizes(bySport)) && LargestFirst(Sizes(Reordered(bySport, sports)))
    ensures ProperPicks(picks, Reordered(bySport, sports), sports)
    ensures |picks| == Sum(Counts(picks, sports)) == Min(cap, Sum(Sizes(Reordered(bySport, sports))))
    ensures RoundRobin(Sizes(Reordered(bySport, sports)), Counts(picks, sports))
    ensures FrontsTaken(Reordered(bySport, sports), left, Picked(picks))
    ensures DrawnInTurn(Reordered(bySport, sports), picks, sports)
  {
    LongestFirstIsOrder(Sizes(bySport));
    sports := LongestFirst(Sizes(bySport));
    ReorderedIsSeparate(bySport, sports);
    picks, left := DrawRounds(Reordered(bySport, sports), sports, cap);
  }

  method DrawRounds(start: seq<Pool>, sports: seq<nat>, cap: nat) returns (picks: seq<Pick>, ghost left: seq<Pool>)
    requires Separate(start) && |sports| == |start| && AllDifferent(sports)
    ensures ProperPicks(picks, start, sports)
    ensures |picks| == Sum(Counts(picks, sports)) == Min(cap, Sum(Sizes(start)))
    ensures RoundRobin(Sizes(start), Counts(picks, sports))
    ensures FrontsTaken(start, left, Picked(picks)) && DrawnInTurn(start, picks, sports)
  {
    var pools := start;
    var used: set<int> := {};
    picks := [];
    NothingDrawn(start, sports);
    DrawingIsDrawn(start, start, {}, [], sports, 0, 0);
    ghost var rounds, at := 0, 0;
    var progress := true;
    while progress && |picks| < cap
      invariant Drawing(start, pools, used, picks, sports, rounds, at) && |picks| <= cap
      invariant |picks| < cap ==> at == 0
      invariant progress || DrainedTo(start, picks, sports, |start|)
      invariant DrawnInTurn(start, picks, sports)
      decreases cap - |picks|, progress
    {
      pools, used, picks, progress, at := Round(start, pools, used, picks, sports, cap, rounds);
      if at == |start| {
        RoundEnds(start, pools, used, picks, sports, rounds);
        rounds, at := rounds + 1, 0;
      }
    }
    Finished(start, picks, sports, rounds, at, cap);
    left := pools;
  }
}
