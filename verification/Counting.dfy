// Which of the first numbers, or of the first pairs of numbers, meet a condition,
// and how many.
module Counting {

  ghost predicate Rising(idx: seq<nat>) {
    forall a, b :: 0 <= a < b < |idx| ==> idx[a] < idx[b]
  }

  /** In order, exactly the numbers below n that meet the condition. */
  ghost predicate Lists(idx: seq<nat>, ok: nat -> bool, n: nat) {
    Rising(idx) && forall i: nat :: i in idx <==> i < n && ok(i)
  }

  lemma ListsNone(ok: nat -> bool)
    ensures Lists([], ok, 0)
  {
  }

  lemma ListsOneMore(idx: seq<nat>, ok: nat -> bool, n: nat)
    requires Lists(idx, ok, n)
    ensures Lists(if ok(n) then idx + [n] else idx, ok, n + 1)
  {
    assert forall k :: 0 <= k < |idx| ==> idx[k] in idx;
  }

  ghost function Having(ok: nat -> bool, n: nat): set<nat> {
    set j: nat | j < n && ok(j)
  }

  ghost function PairsHaving(ok: (nat, nat) -> bool, n: nat, m: nat): set<(nat, nat)> {
    set i: nat, j: nat | i < n && j < m && ok(i, j) :: (i, j)
  }

  lemma OneMore(ok: nat -> bool, n: nat)
    ensures Having(ok, n + 1) == if ok(n) then Having(ok, n) + {n} else Having(ok, n)
    ensures |Having(ok, n + 1)| == |Having(ok, n)| + if ok(n) then 1 else 0
  {
    assert Having(ok, n + 1) == if ok(n) then Having(ok, n) + {n} else Having(ok, n);
  }

  ghost function Column(i: nat, js: set<nat>): set<(nat, nat)> {
    set j | j in js :: (i, j)
  }

  lemma {:induction false} ColumnSize(i: nat, js: set<nat>)
    ensures |Column(i, js)| == |js|
  {
    if js != {} {
      var j :| j in js;
      ColumnSize(i, js - {j});
      assert Column(i, js) == Column(i, js - {j}) + {(i, j)};
    }
  }

  lemma OneMoreRow(ok: (nat, nat) -> bool, row: nat -> bool, n: nat, m: nat)
    requires forall j: nat :: j < m ==> (row(j) <==> ok(n, j))
    ensures |PairsHaving(ok, n + 1, m)| == |PairsHaving(ok, n, m)| + |Having(row, m)|
  {
    var before, here := PairsHaving(ok, n, m), Column(n, Having(row, m));
    ColumnSize(n, Having(row, m));
    assert PairsHaving(ok, n + 1, m) == before + here;
    assert before !! here;
  }

  /** The hits among the first n numbers with no reset after them. */
  ghost function Unreset(hit: nat -> bool, reset: nat -> bool, n: nat): set<nat> {
    set x: nat | x < n && hit(x) && forall y: nat :: x < y < n ==> !reset(y)
  }

  lemma NothingUnreset(hit: nat -> bool, reset: nat -> bool)
    ensures Unreset(hit, reset, 0) == {}
  {
  }

  lemma OneMoreUnreset(hit: nat -> bool, reset: nat -> bool, n: nat)
    requires !(hit(n) && reset(n))
    ensures |Unreset(hit, reset, n + 1)|
         == if hit(n) then |Unreset(hit, reset, n)| + 1 else if reset(n) then 0 else |Unreset(hit, reset, n)|
  {
    var before, after := Unreset(hit, reset, n), Unreset(hit, reset, n + 1);
    if hit(n) {
      assert after == before + {n};
    } else if reset(n) {
      assert after == {};
    } else {
      assert after == before;
    }
  }

  ghost predicate AllDifferent<T>(xs: seq<T>) {
    forall u, v :: 0 <= u < v < |xs| ==> xs[u] != xs[v]
  }

  ghost function Tally<T>(xs: seq<T>, ok: T -> bool): nat {
    if xs == [] then 0 else Tally(xs[..|xs| - 1], ok) + if ok(xs[|xs| - 1]) then 1 else 0
  }

  /** Exactly the members that meet the condition. */
  ghost predicate Selects<T(!new)>(some: set<T>, xs: seq<T>, ok: T -> bool) {
    forall x :: x in some <==> x in xs && ok(x)
  }

  /** Counting along a list without repetitions is counting the set. */
  lemma {:induction false} TallyIsSet<T(!new)>(xs: seq<T>, ok: T -> bool, some: set<T>)
    requires AllDifferent(xs) && Selects(some, xs, ok)
    ensures Tally(xs, ok) == |some|
  {
    if xs == [] {
      SelectsNone(some, ok);
    } else {
      var init, last := xs[..|xs| - 1], xs[|xs| - 1];
      assert xs == init + [last];
      SelectsRest(some, init, last, ok);
      TallyIsSet(init, ok, some - {last});
    }
  }

  lemma SelectsNone<T(!new)>(some: set<T>, ok: T -> bool)
    requires Selects(some, [], ok)
    ensures some == {}
  {
  }

  lemma SelectsRest<T(!new)>(some: set<T>, init: seq<T>, last: T, ok: T -> bool)
    requires AllDifferent(init + [last]) && Selects(some, init + [last], ok)
    ensures AllDifferent(init) && Selects(some - {last}, init, ok)
    ensures |some| == |some - {last}| + if ok(last) then 1 else 0
  {
    var xs, n := init + [last], |init|;
    assert xs[n] == last;
    forall u, v | 0 <= u < v < n
      ensures init[u] != init[v]
    {
      assert xs[u] == init[u] && xs[v] == init[v];
    }
    forall x
      ensures x in init <==> x in xs && x != last
    {
      if x in init {
        var u :| 0 <= u < n && init[u] == x;
        assert xs[u] == x;
      }
    }
    assert last in some <==> ok(last);
  }
}
