// How concentrated a round-robin draw is, in counts alone
// (research/run85_phase2gr.py, lines 78-84, 130-133 and 149-165). `n` is the
// pool sizes in drawing order and `c` the numbers drawn.
module Balance {
  import opened Arithmetic

  function Sum(n: seq<nat>): nat {
    if n == [] then 0 else n[0] + Sum(n[1..])
  }

  function Min(x: int, y: int): int {
    if x <= y then x else y
  }

  /** Sum of min(k, n_s). */
  function SumUpTo(k: nat, n: seq<nat>): nat {
    if n == [] then 0 else Min(k, n[0]) + SumUpTo(k, n[1..])
  }

  predicate NoSportAboveHalf(c: seq<nat>) {
    forall s :: 0 <= s < |c| ==> 2 * c[s] <= Sum(c)
  }

  lemma {:induction false} SumMonotone(c: seq<nat>, d: seq<nat>)
    requires |c| == |d| && forall s :: 0 <= s < |c| ==> c[s] <= d[s]
    ensures Sum(c) <= Sum(d)
  {
    if c != [] {
      SumMonotone(c[1..], d[1..]);
    }
  }

  lemma {:induction false} SumAtLeast(c: seq<nat>, k: nat, n: seq<nat>)
    requires |c| == |n| && forall s :: 0 <= s < |c| ==> c[s] >= Min(k, n[s])
    ensures Sum(c) >= SumUpTo(k, n)
  {
    if c != [] {
      SumAtLeast(c[1..], k, n[1..]);
    }
  }

  lemma {:induction false} SumAtMost(c: seq<nat>, k: nat, n: seq<nat>)
    requires |c| == |n| && forall s :: 0 <= s < |c| ==> c[s] <= Min(k, n[s])
    ensures Sum(c) <= SumUpTo(k, n)
  {
    if c != [] {
      SumAtMost(c[1..], k, n[1..]);
    }
  }

  lemma {:induction false} SumUpdate(c: seq<nat>, s: nat, x: nat)
    requires s < |c|
    ensures Sum(c[s := x]) == Sum(c) - c[s] + x
  {
    if s > 0 {
      assert c[s := x][1..] == c[1..][s - 1 := x];
      SumUpdate(c[1..], s - 1, x);
    } else {
      assert c[s := x][1..] == c[1..];
    }
  }

  lemma {:induction false} TermAtMostSum(c: seq<nat>, s: nat)
    requires s < |c|
    ensures c[s] <= Sum(c)
  {
    if s > 0 {
      TermAtMostSum(c[1..], s - 1);
    }
  }

  // ---- the largest balanced draw ------------------------------------------

  /** Where the (first) largest count is. */
  function Largest(n: seq<nat>): (s: nat)
    requires n != []
    ensures s < |n| && forall t :: 0 <= t < |n| ==> n[t] <= n[s]
  {
    if |n| == 1 then 0
    else
      var t := Largest(n[1..]);
      assert forall i :: 1 <= i < |n| ==> n[i] == n[1..][i - 1];
      if n[0] >= n[t + 1] then 0 else t + 1
  }

  /** max_balanced_size. */
  function MaxBalancedSize(counts: seq<nat>): nat {
    if counts == [] then 0
    else
      var top := counts[Largest(counts)];
      TermAtMostSum(counts, Largest(counts));
      if top * 2 <= Sum(counts) then Sum(counts) else 2 * (Sum(counts) - top)
  }

  predicate IsDraw(d: seq<nat>, counts: seq<nat>) {
    |d| == |counts| && forall s :: 0 <= s < |d| ==> d[s] <= counts[s]
  }

  /** A balanced draw of exactly that size. */
  function BalancedDraw(counts: seq<nat>): seq<nat> {
    if counts == [] then []
    else
      var s := Largest(counts);
      TermAtMostSum(counts, s);
      if counts[s] * 2 <= Sum(counts) then counts else counts[s := Sum(counts) - counts[s]]
  }

  /** max_balanced_size is attained... */
  lemma BalancedDrawAttains(counts: seq<nat>)
    ensures IsDraw(BalancedDraw(counts), counts) && NoSportAboveHalf(BalancedDraw(counts))
    ensures Sum(BalancedDraw(counts)) == MaxBalancedSize(counts)
  {
    if counts != [] {
      var s := Largest(counts);
      TermAtMostSum(counts, s);
      SumUpdate(counts, s, Sum(counts) - counts[s]);
      forall t | 0 <= t < |counts| && t != s
        ensures counts[t] + counts[s] <= Sum(counts)
      {
        SumUpdate(counts, s, 0);
        TermAtMostSum(counts[s := 0], t);
      }
    }
  }

  /** ...and nothing larger can be drawn without one sport above half. */
  lemma NoLargerBalancedDraw(counts: seq<nat>, d: seq<nat>)
    requires IsDraw(d, counts) && NoSportAboveHalf(d)
    ensures Sum(d) <= MaxBalancedSize(counts)
  {
    SumMonotone(d, counts);
    if counts != [] {
      var s := Largest(counts);
      SumUpdate(d, s, 0);
      SumUpdate(counts, s, 0);
      SumMonotone(d[s := 0], counts[s := 0]);
    }
  }

  // ---- the round robin ----------------------------------------------------

  /** What is drawn after `rounds` whole rounds and the first i sports of the next:
      one from each sport each round, while it has any. */
  ghost predicate Level(n: seq<nat>, c: seq<nat>, rounds: nat, i: nat) {
    |c| == |n| && forall s :: 0 <= s < |n| ==> c[s] == Min(n[s], if s < i then rounds + 1 else rounds)
  }

  ghost predicate RoundRobin(n: seq<nat>, c: seq<nat>) {
    exists rounds, i :: Level(n, c, rounds, i)
  }

  predicate LargestFirst(n: seq<nat>) {
    forall s, t :: 0 <= s < t < |n| ==> n[s] >= n[t]
  }

  /** A sport two or more behind another has nothing left. */
  lemma TrailingIsDrained(n: seq<nat>, c: seq<nat>, s: nat, t: nat)
    requires RoundRobin(n, c) && s < |n| && t < |n| && c[s] >= c[t] + 2
    ensures c[t] == n[t]
  {
    var rounds, i :| Level(n, c, rounds, i);
  }

  /** Whatever the pools, the top sport ends above half exactly when it can supply
      one more than half and the k rounds before that pick leave room for it. */
  lemma TopAboveHalfIff(n: seq<nat>, c: seq<nat>)
    requires RoundRobin(n, c) && n != []
    ensures var k := Sum(c) / 2;
      2 * c[0] > Sum(c) <==> n[0] >= k + 1 && k + 1 + SumUpTo(k, n[1..]) <= Sum(c)
  {
    var rounds, i :| Level(n, c, rounds, i);
    var k := Sum(c) / 2;
    if c[0] >= k + 1 {
      SumAtLeast(c[1..], k, n[1..]);
    } else if n[0] >= k + 1 {
      SumAtMost(c[1..], k, n[1..]);
    }
  }

  /** Only the first sport can be above half when the largest pools go first. */
  lemma TopLeads(n: seq<nat>, c: seq<nat>)
    requires RoundRobin(n, c) && LargestFirst(n) && n != []
    ensures forall s :: 0 <= s < |c| ==> c[s] <= c[0]
    ensures NoSportAboveHalf(c) <==> 2 * c[0] <= Sum(c)
  {
    var rounds, i :| Level(n, c, rounds, i);
  }

  lemma {:induction false} SumUpToBounds(k: nat, n: seq<nat>)
    ensures Min(k, Sum(n)) <= SumUpTo(k, n) <= Sum(n)
    ensures k == 0 ==> SumUpTo(k, n) == 0
  {
    if n != [] {
      SumUpToBounds(k, n[1..]);
    }
  }

  lemma {:induction false} SumUpToAll(k: nat, n: seq<nat>)
    requires forall s :: 0 <= s < |n| ==> n[s] <= k
    ensures SumUpTo(k, n) == Sum(n)
  {
    if n != [] {
      SumUpToAll(k, n[1..]);
    }
  }

  lemma {:induction false} SumIsZeroIff(n: seq<nat>)
    ensures Sum(n) == 0 <==> forall s :: 0 <= s < |n| ==> n[s] == 0
  {
    if n != [] {
      SumIsZeroIff(n[1..]);
      assert forall s :: 1 <= s < |n| ==> n[s] == n[1..][s - 1];
    }
  }

  /** The counts of BalancedPoolsIff: `upTo` is what the sports after the second
      supply in k rounds, out of `rest` in all. */
  lemma BalancedArithmetic(n0: nat, n1: nat, rest: nat, upTo: nat, k: nat, m: nat, cap: nat)
    requires n0 >= n1 && n0 <= n1 + rest && Min(k, rest) <= upTo <= rest && (k == 0 ==> upTo == 0)
    requires n1 <= k ==> upTo == rest
    requires m == Min(cap, n0 + n1 + rest) && k == m / 2
    ensures n0 >= k + 1 && k + 1 + Min(k, n1) + upTo <= m
       <==> cap % 2 == 1 && cap < n0 + n1 + rest && (cap == 1 || rest == 0)
  {
  }

  /** From pools of which none holds more than half the events, the draw is above
      half exactly when an odd cap cuts it short and either is 1 or meets just two
      sports. An even cap never is. */
  lemma BalancedPoolsIff(n: seq<nat>, c: seq<nat>, cap: nat)
    requires RoundRobin(n, c) && LargestFirst(n) && NoSportAboveHalf(n)
    requires Sum(c) == Min(cap, Sum(n))
    ensures NoSportAboveHalf(c) <==>
      !(cap % 2 == 1 && cap < Sum(n) && (cap == 1 || forall s :: 2 <= s < |n| ==> n[s] == 0))
  {
    if |n| == 1 {
      TopLeads(n, c);
      assert n[1..] == [];
    } else if n != [] {
      TopLeads(n, c);
      TopAboveHalfIff(n, c);
      SplitTwo(n, Sum(c) / 2);
      BalancedArithmetic(n[0], n[1], Sum(n[2..]), SumUpTo(Sum(c) / 2, n[2..]), Sum(c) / 2, Sum(c), cap);
    }
  }

  lemma SplitTwo(n: seq<nat>, k: nat)
    requires |n| >= 2 && LargestFirst(n)
    ensures Sum(n) == n[0] + n[1] + Sum(n[2..])
    ensures SumUpTo(k, n[1..]) == Min(k, n[1]) + SumUpTo(k, n[2..])
    ensures Min(k, Sum(n[2..])) <= SumUpTo(k, n[2..]) <= Sum(n[2..])
    ensures k == 0 ==> SumUpTo(k, n[2..]) == 0
    ensures n[1] <= k ==> SumUpTo(k, n[2..]) == Sum(n[2..])
    ensures Sum(n[2..]) == 0 <==> forall s :: 2 <= s < |n| ==> n[s] == 0
  {
    var rest := n[2..];
    assert n[1..][1..] == rest;
    SumUpToBounds(k, rest);
    SumIsZeroIff(rest);
    assert forall s :: 2 <= s < |n| ==> n[s] == rest[s - 2];
    if n[1] <= k {
      SumUpToAll(k, rest);
    }
  }

  // ---- the sport-concentration gate ---------------------------------------

  const COHORT_CAP: nat := 12
  const MIN_GATE_SIZE: nat := 4
  const MAX_SHARE: real := 0.5

  datatype Verdict = Pass | WaivedByUniverseConcentration | Fail

  /** The share of the largest count; an empty cohort has none. */
  function TopShare(c: seq<nat>): real {
    if Sum(c) == 0 then 0.0
    else
      assert c != [];
      c[Largest(c)] as real / Sum(c) as real
  }

  /** The sport_concentration entry of score_cohort: c counts the cohort by sport,
      n the universe it was drawn from. */
  function SportConcentration(c: seq<nat>, n: seq<nat>): Verdict {
    if Sum(c) < MIN_GATE_SIZE then Fail
    else if TopShare(c) <= MAX_SHARE + 0.000000001 then Pass
    else if MaxBalancedSize(n) < MIN_GATE_SIZE then WaivedByUniverseConcentration
    else Fail
  }

  /** At these sizes the tolerance lets nothing above half through. */
  lemma ToleranceIsHalf(top: nat, size: nat)
    requires 0 < size <= COHORT_CAP
    ensures top as real / size as real <= MAX_SHARE + 0.000000001 <==> 2 * top <= size
  {
    QuotientAtMost(top as real, size as real, MAX_SHARE + 0.000000001);
    if 2 * top > size {
      assert 2.0 * top as real >= size as real + 1.0;
    }
  }

  lemma ShareAboveHalf(c: seq<nat>)
    requires 0 < Sum(c) <= COHORT_CAP
    ensures TopShare(c) <= MAX_SHARE + 0.000000001 <==> NoSportAboveHalf(c)
  {
    ToleranceIsHalf(c[Largest(c)], Sum(c));
  }

  lemma AboveHalfAtCap(n0: nat, others: nat, upTo: nat, m: nat, k: nat)
    requires m == Min(COHORT_CAP, n0 + others) && k == m / 2
    requires Min(k, others) <= upTo <= others
    ensures n0 >= k + 1 && k + 1 + upTo <= m <==> others < Min(n0, 6)
  {
  }

  /** The gate, read off the pools: with r events outside the largest sport's n0, the
      round robin passes when r reaches n0 or six. Short of that it is waived only
      for r of at most one, and for r of two to five it fails although 2 r events
      could have been drawn in balance. */
  lemma GateVerdict(n: seq<nat>, c: seq<nat>)
    requires RoundRobin(n, c) && LargestFirst(n) && n != [] && Sum(c) == Min(COHORT_CAP, Sum(n))
    ensures var r := Sum(n) - n[0];
      SportConcentration(c, n) ==
        if Sum(n) < MIN_GATE_SIZE then Fail
        else if r >= Min(n[0], 6) then Pass
        else if r <= 1 then WaivedByUniverseConcentration
        else Fail
    ensures var r := Sum(n) - n[0]; r < n[0] ==> MaxBalancedSize(n) == 2 * r
  {
    assert n[Largest(n)] == n[0];
    if Sum(n) >= MIN_GATE_SIZE {
      var k := Sum(c) / 2;
      TopLeads(n, c);
      TopAboveHalfIff(n, c);
      ShareAboveHalf(c);
      SumUpToBounds(k, n[1..]);
      AboveHalfAtCap(n[0], Sum(n[1..]), SumUpTo(k, n[1..]), Sum(c), k);
    }
  }

  /** The entry for any cohort of at most the cap, whatever drew it: it passes with four
      events or more and no sport above half, and is waived when the universe holds no
      such draw of four. */
  lemma ConcentrationMeaning(c: seq<nat>, n: seq<nat>)
    requires Sum(c) <= COHORT_CAP
    ensures SportConcentration(c, n) == Pass <==> Sum(c) >= 4 && forall s :: 0 <= s < |c| ==> 2 * c[s] <= Sum(c)
    ensures SportConcentration(c, n) == WaivedByUniverseConcentration
       <==> Sum(c) >= 4 && (exists s :: 0 <= s < |c| && 2 * c[s] > Sum(c))
            && forall d :: IsDraw(d, n) && Sum(d) >= 4 ==> exists s :: 0 <= s < |d| && 2 * d[s] > Sum(d)
  {
    if Sum(c) >= 4 {
      ShareAboveHalf(c);
      BalancedDrawAttains(n);
      forall d | IsDraw(d, n) && Sum(d) >= 4 && MaxBalancedSize(n) < 4
        ensures exists s :: 0 <= s < |d| && 2 * d[s] > Sum(d)
      {
        if NoSportAboveHalf(d) {
          NoLargerBalancedDraw(n, d);
        }
      }
    }
  }
}
