// Nearest-in-time pairing of the two outcomes' probes of one condition
// (research/run84_native_pair.py, lines 181-203).
//
// Probe instants and the window are integers in one unit (microseconds in the
// source's datetimes); a probe is known by its index in its outcome's list.
module NearestPairing {
  import opened Wrappers

  datatype Pair = Pair(left: nat, right: nat)

  function Gap(s: int, t: int): nat {
    if s <= t then t - s else s - t
  }

  ghost predicate InWindow(p: Pair, a: seq<int>, b: seq<int>, w: int) {
    p.left < |a| && p.right < |b| && Gap(a[p.left], b[p.right]) <= w
  }

  /** What the inner loop looks for: the unused right-leg probe nearest to `t`,
      the earliest on ties, among the first `n`; None if none is in the window. */
  ghost predicate IsNearest(best: Option<nat>, t: int, b: seq<int>, n: nat, w: int, used: set<nat>)
    requires n <= |b|
  {
    match best
    case None => forall k :: 0 <= k < n && k !in used ==> Gap(t, b[k]) > w
    case Some(j) =>
      && j < n && j !in used && Gap(t, b[j]) <= w
      && forall k :: 0 <= k < n && k !in used ==>
          Gap(t, b[k]) > Gap(t, b[j]) || (Gap(t, b[k]) == Gap(t, b[j]) && j <= k)
  }

  function Nearest(t: int, b: seq<int>, n: nat, w: int, used: set<nat>): (best: Option<nat>)
    requires n <= |b|
    ensures IsNearest(best, t, b, n, w, used)
  {
    if n == 0 then None
    else
      var best := Nearest(t, b, n - 1, w, used);
      var g := Gap(t, b[n - 1]);
      if n - 1 !in used && g <= w && (best.None? || g < Gap(t, b[best.value])) then Some(n - 1) else best
  }

  function Rights(ps: seq<Pair>): set<nat> {
    set p | p in ps :: p.right
  }

  function Lefts(ps: seq<Pair>): set<nat> {
    set p | p in ps :: p.left
  }

  /** The pairs formed once the first `n` left-leg probes have been served. */
  function Greedy(a: seq<int>, b: seq<int>, w: int, n: nat): (ps: seq<Pair>)
    requires n <= |a|
  {
    if n == 0 then []
    else
      var ps := Greedy(a, b, w, n - 1);
      match Nearest(a[n - 1], b, |b|, w, Rights(ps))
      case None => ps
      case Some(j) => ps + [Pair(n - 1, j)]
  }

  lemma RightsAppend(ps: seq<Pair>, p: Pair)
    ensures Rights(ps + [p]) == Rights(ps) + {p.right}
  {
    assert forall q :: q in ps + [p] <==> q in ps || q == p;
  }

  /** The inner loop: the best gap so far and where it is. */
  method NearestProbe(t: int, b: seq<int>, w: int, usedB: set<nat>) returns (best: Option<nat>)
    ensures best == Nearest(t, b, |b|, w, usedB)
  {
    best := None;
    var least := 0;
    for j := 0 to |b|
      invariant best == Nearest(t, b, j, w, usedB)
      invariant best.Some? ==> best.value < j && least == Gap(t, b[best.value])
    {
      if j !in usedB {
        var gap := Gap(t, b[j]);
        if gap <= w && (best.None? || gap < least) {
          best, least := Some(j), gap;
        }
      }
    }
  }

  /** The pairing loop, with the set of used right-leg probes grown in place. */
  method PairNearest(a: seq<int>, b: seq<int>, w: int) returns (pairs: seq<Pair>)
    ensures pairs == Greedy(a, b, w, |a|)
    ensures forall p :: p in pairs ==> InWindow(p, a, b, w)
    ensures forall i, j :: 0 <= i < j < |pairs| ==> pairs[i].left < pairs[j].left && pairs[i].right != pairs[j].right
    ensures forall i, j :: 0 <= i < |a| && 0 <= j < |b| && i !in Lefts(pairs) && j !in Rights(pairs) ==>
        Gap(a[i], b[j]) > w
    ensures forall i :: 0 <= i < |a| ==> ServedNearest(pairs, a, b, w, i)
  {
    var usedB: set<nat> := {};
    pairs := [];
    for i := 0 to |a|
      invariant pairs == Greedy(a, b, w, i)
      invariant usedB == Rights(pairs)
    {
      var best := NearestProbe(a[i], b, w, usedB);
      if best.Some? {
        RightsAppend(pairs, Pair(i, best.value));
        usedB := usedB + {best.value};
        pairs := pairs + [Pair(i, best.value)];
      }
    }
    GreedyIsMatching(a, b, w, |a|);
    NothingLeftToPair(a, b, w);
    GreedyServes(a, b, w, |a|);
  }

  /** The right-leg probes paired with left-leg ones before the i-th. */
  ghost function RightsBefore(ps: seq<Pair>, i: nat): set<nat> {
    set p | p in ps && p.left < i :: p.right
  }

  /** Probe i of the left leg was paired with the nearest right-leg probe no earlier one
      had taken, the first of two equally near; and with none if none was in the window. */
  ghost predicate ServedNearest(ps: seq<Pair>, a: seq<int>, b: seq<int>, w: int, i: nat)
    requires i < |a|
  {
    && (forall p :: p in ps && p.left == i ==> IsNearest(Some(p.right), a[i], b, |b|, w, RightsBefore(ps, i)))
    && ((forall p :: p in ps ==> p.left != i) ==> IsNearest(None, a[i], b, |b|, w, RightsBefore(ps, i)))
  }

  lemma {:induction false} LeftsAreEarlier(a: seq<int>, b: seq<int>, w: int, n: nat)
    requires n <= |a|
    ensures forall p :: p in Greedy(a, b, w, n) ==> p.left < n
  {
    if n > 0 {
      LeftsAreEarlier(a, b, w, n - 1);
    }
  }

  /** Later pairs change nothing for an earlier probe. */
  lemma ServedStays(ps: seq<Pair>, p: Pair, a: seq<int>, b: seq<int>, w: int, i: nat)
    requires i < |a| && i < p.left && ServedNearest(ps, a, b, w, i)
    ensures ServedNearest(ps + [p], a, b, w, i)
  {
    assert forall q :: q in ps + [p] <==> q in ps || q == p;
    assert RightsBefore(ps + [p], i) == RightsBefore(ps, i);
  }

  lemma ServedNow(ps: seq<Pair>, a: seq<int>, b: seq<int>, w: int, i: nat, best: Option<nat>)
    requires i < |a| && (forall p :: p in ps ==> p.left < i) && IsNearest(best, a[i], b, |b|, w, Rights(ps))
    ensures ServedNearest(if best.Some? then ps + [Pair(i, best.value)] else ps, a, b, w, i)
  {
    var after := if best.Some? then ps + [Pair(i, best.value)] else ps;
    assert forall q :: q in after <==> q in ps || (best.Some? && q == Pair(i, best.value));
    assert RightsBefore(after, i) == Rights(ps);
  }

  lemma {:induction false} GreedyServes(a: seq<int>, b: seq<int>, w: int, n: nat)
    requires n <= |a|
    ensures forall i :: 0 <= i < n ==> ServedNearest(Greedy(a, b, w, n), a, b, w, i)
  {
    if n > 0 {
      var m := n - 1;
      var ps := Greedy(a, b, w, m);
      var best := Nearest(a[m], b, |b|, w, Rights(ps));
      GreedyServes(a, b, w, m);
      LeftsAreEarlier(a, b, w, m);
      ServedNow(ps, a, b, w, m, best);
      forall i | 0 <= i < m
        ensures ServedNearest(Greedy(a, b, w, n), a, b, w, i)
      {
        if best.Some? {
          ServedStays(ps, Pair(m, best.value), a, b, w, i);
        }
      }
    }
  }

  lemma NothingLeftToPair(a: seq<int>, b: seq<int>, w: int)
    ensures var ps := Greedy(a, b, w, |a|);
      forall i, j :: 0 <= i < |a| && 0 <= j < |b| && i !in Lefts(ps) && j !in Rights(ps) ==> Gap(a[i], b[j]) > w
  {
    var ps := Greedy(a, b, w, |a|);
    forall i, j | 0 <= i < |a| && 0 <= j < |b| && i !in Lefts(ps) && j !in Rights(ps)
      ensures Gap(a[i], b[j]) > w
    {
      GreedyIsMaximal(a, b, w, |a|, i, j);
    }
  }

  /** Injective on both legs (in serving order) and inside the window. */
  lemma {:induction false} GreedyIsMatching(a: seq<int>, b: seq<int>, w: int, n: nat)
    requires n <= |a|
    ensures var ps := Greedy(a, b, w, n);
      && (forall p :: p in ps ==> InWindow(p, a, b, w) && p.left < n)
      && (forall i, j :: 0 <= i < j < |ps| ==> ps[i].left < ps[j].left && ps[i].right != ps[j].right)
  {
    if n > 0 {
      GreedyIsMatching(a, b, w, n - 1);
      var prev := Greedy(a, b, w, n - 1);
      forall i | 0 <= i < |prev|
        ensures prev[i].right in Rights(prev) && prev[i].left < n - 1
      {
        assert prev[i] in prev;
      }
    }
  }

  /** No two probes left over could still be paired with each other. */
  lemma GreedyIsMaximal(a: seq<int>, b: seq<int>, w: int, n: nat, i: nat, j: nat)
    requires i < n <= |a| && j < |b|
    requires i !in Lefts(Greedy(a, b, w, n)) && j !in Rights(Greedy(a, b, w, n))
    ensures Gap(a[i], b[j]) > w
  {
    var ps := Greedy(a, b, w, n);
    GreedyServes(a, b, w, n);
    assert forall p :: p in ps ==> p.left != i;
    assert j !in RightsBefore(ps, i);
  }

  // ---- at least half of the best possible pairing -------------------------

  ghost predicate IsMatching(m: set<Pair>, a: seq<int>, b: seq<int>, w: int) {
    && (forall p :: p in m ==> InWindow(p, a, b, w))
    && (forall p, q :: p in m && q in m && (p.left == q.left || p.right == q.right) ==> p == q)
  }

  /** Charging argument: every edge of a matching is charged to a distinct
      left vertex of `ls` or right vertex of `rs`. */
  lemma {:induction false} CoveredMatchingIsSmall(m: set<Pair>, ls: set<nat>, rs: set<nat>)
    requires forall p, q :: p in m && q in m && (p.left == q.left || p.right == q.right) ==> p == q
    requires forall p :: p in m ==> p.left in ls || p.right in rs
    ensures |m| <= |ls| + |rs|
    decreases m
  {
    if m != {} {
      var p :| p in m;
      if p.left in ls {
        CoveredMatchingIsSmall(m - {p}, ls - {p.left}, rs);
      } else {
        CoveredMatchingIsSmall(m - {p}, ls, rs - {p.right});
      }
    }
  }

  lemma {:induction false} EndpointsBounded(ps: seq<Pair>)
    ensures |Lefts(ps)| <= |ps| && |Rights(ps)| <= |ps|
  {
    if ps != [] {
      var init, p := ps[..|ps| - 1], ps[|ps| - 1];
      EndpointsBounded(init);
      assert ps == init + [p];
      assert Lefts(ps) == Lefts(init) + {p.left};
      assert Rights(ps) == Rights(init) + {p.right};
    }
  }

  lemma HalfOfAnyPairing(a: seq<int>, b: seq<int>, w: int, m: set<Pair>)
    requires IsMatching(m, a, b, w)
    ensures |m| <= 2 * |Greedy(a, b, w, |a|)|
  {
    var ps := Greedy(a, b, w, |a|);
    forall p | p in m
      ensures p.left in Lefts(ps) || p.right in Rights(ps)
    {
      assert InWindow(p, a, b, w);
      if p.left !in Lefts(ps) && p.right !in Rights(ps) {
        GreedyIsMaximal(a, b, w, |a|, p.left, p.right);
      }
    }
    CoveredMatchingIsSmall(m, Lefts(ps), Rights(ps));
    EndpointsBounded(ps);
  }

  /** One half is the exact ratio: sorted inputs on which twice as many pairs exist. */
  lemma HalfIsTight()
    ensures var a, b, m := [0, 11], [-10, 1], {Pair(0, 0), Pair(1, 1)};
      IsMatching(m, a, b, 10) && |m| == 2 * |Greedy(a, b, 10, |a|)|
  {
    var a, b := [0, 11], [-10, 1];
    NearerIsTaken(b);
    assert Greedy(a, b, 10, 0) == [];
    assert Rights([]) == {};
    var one := Greedy(a, b, 10, 1);
    assert one == [Pair(0, 1)];
    assert Rights(one) == {1} by { assert one[0] in one; }
    OtherIsTooFar(b);
    assert Greedy(a, b, 10, 2) == one;
  }

  lemma NearerIsTaken(b: seq<int>)
    requires b == [-10, 1]
    ensures Nearest(0, b, |b|, 10, {}) == Some(1)
  {
    assert IsNearest(Nearest(0, b, 2, 10, {}), 0, b, 2, 10, {}) && b[1] == 1 && Gap(0, b[1]) == 1 && Gap(0, b[0]) == 10;
  }

  lemma OtherIsTooFar(b: seq<int>)
    requires b == [-10, 1]
    ensures Nearest(11, b, |b|, 10, {1}) == None
  {
    assert IsNearest(Nearest(11, b, 2, 10, {1}), 11, b, 2, 10, {1});
    assert Gap(11, b[0]) == 21;
  }

  // ---- a wider window never loses a pair ----------------------------------

  function Picked(pick: Option<nat>): set<nat> {
    if pick.Some? then {pick.value} else {}
  }

  lemma RightsGrow(a: seq<int>, b: seq<int>, w: int, n: nat)
    requires 0 < n <= |a|
    ensures var prev := Greedy(a, b, w, n - 1);
      Rights(Greedy(a, b, w, n)) == Rights(prev) + Picked(Nearest(a[n - 1], b, |b|, w, Rights(prev)))
  {
    var prev := Greedy(a, b, w, n - 1);
    match Nearest(a[n - 1], b, |b|, w, Rights(prev)) {
      case None =>
      case Some(j) => RightsAppend(prev, Pair(n - 1, j));
    }
  }

  /** The right-leg probes used after so many left-leg ones. */
  function RightsAfter(a: seq<int>, b: seq<int>, w: int): nat -> set<nat> {
    (n: nat) => if n <= |a| then Rights(Greedy(a, b, w, n)) else {}
  }

  lemma RightsAfterGrow(a: seq<int>, b: seq<int>, w: int, n: nat)
    requires n < |a|
    ensures var used := RightsAfter(a, b, w); used(n + 1) == used(n) + Picked(Nearest(a[n], b, |b|, w, used(n)))
  {
    RightsGrow(a, b, w, n + 1);
  }

  lemma StaysIncluded(f: nat -> set<nat>, g: nat -> set<nat>, n: nat)
    requires f(0) <= g(0) && forall k: nat :: k < n && f(k) <= g(k) ==> f(k + 1) <= g(k + 1)
    ensures f(n) <= g(n)
  {
    for k := 0 to n
      invariant f(k) <= g(k)
    {
    }
  }

  lemma PickKeepsInclusion(t: int, b: seq<int>, v: int, w: int, used: set<nat>, used': set<nat>)
    requires v <= w && used <= used'
    ensures used + Picked(Nearest(t, b, |b|, v, used)) <= used' + Picked(Nearest(t, b, |b|, w, used'))
  {
    NearestAgree(t, b, v, w, used, used');
  }

  /** Every right-leg probe used under a window is still used under a wider one,
      although the probe it is paired with may change. */
  lemma WiderWindowUsesMore(a: seq<int>, b: seq<int>, v: int, w: int, n: nat)
    requires v <= w && n <= |a|
    ensures Rights(Greedy(a, b, v, n)) <= Rights(Greedy(a, b, w, n))
  {
    var f, g := RightsAfter(a, b, v), RightsAfter(a, b, w);
    forall k: nat | k < n && f(k) <= g(k)
      ensures f(k + 1) <= g(k + 1)
    {
      RightsAfterGrow(a, b, v, k);
      RightsAfterGrow(a, b, w, k);
      PickKeepsInclusion(a[k], b, v, w, f(k), g(k));
    }
    StaysIncluded(f, g, n);
  }

  /** With more probes used and a wider window, a still-free nearest probe stays nearest. */
  lemma NearestAgree(t: int, b: seq<int>, v: int, w: int, used: set<nat>, used': set<nat>)
    requires v <= w && used <= used'
    ensures var j := Nearest(t, b, |b|, v, used);
      j.Some? && j.value !in used' ==> Nearest(t, b, |b|, w, used') == j
  {
    var j, k := Nearest(t, b, |b|, v, used), Nearest(t, b, |b|, w, used');
    if j.Some? && j.value !in used' {
      assert k.Some?;
      assert k.value !in used;
    }
  }

  lemma {:induction false} RightsDistinct(ps: seq<Pair>)
    requires forall i, j :: 0 <= i < j < |ps| ==> ps[i].right != ps[j].right
    ensures |Rights(ps)| == |ps|
  {
    if ps != [] {
      var init, p := ps[..|ps| - 1], ps[|ps| - 1];
      RightsDistinct(init);
      assert ps == init + [p];
      assert Rights(ps) == Rights(init) + {p.right};
      assert p.right !in Rights(init);
    }
  }

  lemma PairCountMonotoneInWindow(a: seq<int>, b: seq<int>, v: int, w: int)
    requires v <= w
    ensures |Greedy(a, b, v, |a|)| <= |Greedy(a, b, w, |a|)|
  {
    WiderWindowUsesMore(a, b, v, w, |a|);
    GreedyIsMatching(a, b, v, |a|);
    GreedyIsMatching(a, b, w, |a|);
    RightsDistinct(Greedy(a, b, v, |a|));
    RightsDistinct(Greedy(a, b, w, |a|));
    SubsetNoLarger(Rights(Greedy(a, b, v, |a|)), Rights(Greedy(a, b, w, |a|)));
  }
}
