// What the report does with one pair, and what the all-by-all loop counts
// (research/run85_phasex_run.py, lines 347-391).
module PairOutcomes {
  import opened EquivalenceGate
  import opened Counting

  /** A not-identified pair is kept under its unresolved dimensions when the
      participants match, and dropped uncounted otherwise. */
  datatype Outcome = Verified | Rejected | Kept(unresolved: seq<Dim>) | Dropped

  function OutcomeOf(py: Runtime, p: Contract, k: Contract): Outcome {
    var g := Equivalence(py, p, k);
    match g.status
    case EquivalenceVerified => Verified
    case EquivalenceRejected => Rejected
    case EquivalenceNotIdentified => if Result(py, p, k, Participants) == Match then Kept(g.unresolved) else Dropped
  }

  /** The outcomes of one PMUS contract against every Kalshi contract. */
  type Row = seq<Outcome>

  function RowOf(py: Runtime, p: Contract, ks: seq<Contract>): (row: Row)
    ensures |row| == |ks| && forall j :: 0 <= j < |ks| ==> row[j] == OutcomeOf(py, p, ks[j])
  {
    seq(|ks|, j requires 0 <= j < |ks| => OutcomeOf(py, p, ks[j]))
  }

  /** What a counter of the report counts. */
  datatype Query = AnyVerified | AnyRejected | AnyKept | KeptUnder(key: seq<Dim>)

  predicate Meets(o: Outcome, q: Query) {
    match q
    case AnyVerified => o.Verified?
    case AnyRejected => o.Rejected?
    case AnyKept => o.Kept?
    case KeptUnder(key) => o == Kept(key)
  }

  function One(o: Outcome, q: Query): nat {
    if Meets(o, q) then 1 else 0
  }

  /** The reference counter: the first `n` columns of a row, each put to the gate. */
  function FullCount(row: Row, n: nat, q: Query): nat
    requires n <= |row|
  {
    if n == 0 then 0 else FullCount(row, n - 1, q) + One(row[n - 1], q)
  }

  /** The reference counter over the first `n` rows: the all-by-all loop. */
  function AllByAll(py: Runtime, ps: seq<Contract>, ks: seq<Contract>, n: nat, q: Query): nat
    requires n <= |ps|
  {
    if n == 0 then 0 else AllByAll(py, ps, ks, n - 1, q) + FullCount(RowOf(py, ps[n - 1], ks), |ks|, q)
  }

  // ---- what is counted ----------------------------------------------------

  ghost predicate SomeMismatch(py: Runtime, p: Contract, k: Contract) {
    exists d :: CompareDimension(py, p.half(d), k.half(d)) == Mismatch
  }

  ghost predicate SomeUnresolved(py: Runtime, p: Contract, k: Contract) {
    exists d :: CompareDimension(py, p.half(d), k.half(d)) == Unresolved
  }

  ghost predicate AllMatch(py: Runtime, p: Contract, k: Contract) {
    forall d :: CompareDimension(py, p.half(d), k.half(d)) == Match
  }

  /** Nothing disagrees, the participants agree, and something is still open: a
      dimension or a payoff direction. */
  ghost predicate IsKept(py: Runtime, p: Contract, k: Contract) {
    && !SomeMismatch(py, p, k)
    && CompareDimension(py, p.half(Participants), k.half(Participants)) == Match
    && (SomeUnresolved(py, p, k) || !p.directionVerified || !k.directionVerified)
  }

  /** Which pairs a counter of the report is there to count. */
  ghost predicate IsCounted(py: Runtime, p: Contract, k: Contract, q: Query) {
    match q
    case AnyVerified => p.directionVerified && k.directionVerified && AllMatch(py, p, k)
    case AnyRejected => SomeMismatch(py, p, k)
    case AnyKept => IsKept(py, p, k)
    case KeptUnder(key) => IsKept(py, p, k) && ListsDimensions(key, py, p, k, Unresolved)
  }

  lemma OutcomeMeaning(py: Runtime, p: Contract, k: Contract, q: Query)
    ensures Meets(OutcomeOf(py, p, k), q) <==> IsCounted(py, p, k, q)
  {
    NotIdentifiedMeaning(py, p, k);
    if q.KeptUnder? {
      KeptUnderMeaning(py, p, k, q.key);
    }
  }

  lemma KeptUnderMeaning(py: Runtime, p: Contract, k: Contract, key: seq<Dim>)
    ensures Equivalence(py, p, k).unresolved == key <==> ListsDimensions(key, py, p, k, Unresolved)
  {
    GateLists(py, p, k);
    if ListsDimensions(key, py, p, k, Unresolved) {
      ListedOnce(key, Equivalence(py, p, k).unresolved);
    }
  }

  lemma NotIdentifiedMeaning(py: Runtime, p: Contract, k: Contract)
    ensures Equivalence(py, p, k).status == EquivalenceNotIdentified
       <==> !SomeMismatch(py, p, k) && (SomeUnresolved(py, p, k) || !p.directionVerified || !k.directionVerified)
    ensures Equivalence(py, p, k).status == EquivalenceRejected <==> SomeMismatch(py, p, k)
    ensures Equivalence(py, p, k).status == EquivalenceVerified
       <==> p.directionVerified && k.directionVerified && AllMatch(py, p, k)
  {
    GateMeaning(py, p, k);
    forall d: Dim
      ensures Result(py, p, k, d) == CompareDimension(py, p.half(d), k.half(d))
    {
    }
    if SomeMismatch(py, p, k) {
      var d :| CompareDimension(py, p.half(d), k.half(d)) == Mismatch;
      assert Result(py, p, k, d) == Mismatch;
    }
    if SomeUnresolved(py, p, k) {
      var d :| CompareDimension(py, p.half(d), k.half(d)) == Unresolved;
      assert Result(py, p, k, d) != Match;
    }
    if !SomeMismatch(py, p, k) && !SomeUnresolved(py, p, k) {
      forall d: Dim
        ensures Result(py, p, k, d) == Match
      {
        assert CompareDimension(py, p.half(d), k.half(d)) != Mismatch;
        assert CompareDimension(py, p.half(d), k.half(d)) != Unresolved;
      }
    }
  }

  /** Whether the pair (i, j) of the product is one of them. */
  ghost function Counter(py: Runtime, ps: seq<Contract>, ks: seq<Contract>, q: Query): (nat, nat) -> bool {
    (i: nat, j: nat) => i < |ps| && j < |ks| && IsCounted(py, ps[i], ks[j], q)
  }

  /** The pairs of the product a counter is there to count. */
  ghost function PairsCounted(py: Runtime, ps: seq<Contract>, ks: seq<Contract>, q: Query): set<(nat, nat)> {
    PairsHaving(Counter(py, ps, ks, q), |ps|, |ks|)
  }

  lemma {:induction false} FullCountIs(row: Row, n: nat, q: Query, ok: nat -> bool)
    requires n <= |row| && forall j: nat :: j < n ==> (ok(j) <==> Meets(row[j], q))
    ensures FullCount(row, n, q) == |Having(ok, n)|
  {
    if n > 0 {
      FullCountIs(row, n - 1, q, ok);
      OneMore(ok, n - 1);
    }
  }

  lemma RowCounts(py: Runtime, p: Contract, ks: seq<Contract>, q: Query, ok: nat -> bool)
    requires forall j: nat :: j < |ks| ==> (ok(j) <==> IsCounted(py, p, ks[j], q))
    ensures FullCount(RowOf(py, p, ks), |ks|, q) == |Having(ok, |ks|)|
  {
    var row := RowOf(py, p, ks);
    forall j: nat | j < |ks|
      ensures ok(j) <==> Meets(row[j], q)
    {
      OutcomeMeaning(py, p, ks[j], q);
    }
    FullCountIs(row, |ks|, q, ok);
  }

  ghost predicate CountsTo(py: Runtime, ps: seq<Contract>, ks: seq<Contract>, n: nat, q: Query, ok: (nat, nat) -> bool)
    requires n <= |ps|
  {
    AllByAll(py, ps, ks, n, q) == |PairsHaving(ok, n, |ks|)|
  }

  lemma {:induction false} RowsCount(py: Runtime, ps: seq<Contract>, ks: seq<Contract>, n: nat, q: Query,
                                     ok: (nat, nat) -> bool)
    requires n <= |ps| && forall i: nat :: i < n ==> RowIs(py, ps[i], ks, q, ok, i)
    ensures CountsTo(py, ps, ks, n, q, ok)
  {
    if n > 0 {
      RowsCount(py, ps, ks, n - 1, q, ok);
      assert RowIs(py, ps[n - 1], ks, q, ok, n - 1);
      CountsFurther(py, ps, ks, n - 1, q, ok);
    }
  }

  lemma CountsFurther(py: Runtime, ps: seq<Contract>, ks: seq<Contract>, n: nat, q: Query, ok: (nat, nat) -> bool)
    requires n < |ps| && CountsTo(py, ps, ks, n, q, ok) && RowIs(py, ps[n], ks, q, ok, n)
    ensures CountsTo(py, ps, ks, n + 1, q, ok)
  {
    OneMoreRowIs(py, ps[n], ks, q, ok, n);
  }

  ghost predicate RowIs(py: Runtime, p: Contract, ks: seq<Contract>, q: Query, ok: (nat, nat) -> bool, i: nat) {
    forall j: nat :: j < |ks| ==> (ok(i, j) <==> IsCounted(py, p, ks[j], q))
  }

  lemma OneMoreRowIs(py: Runtime, p: Contract, ks: seq<Contract>, q: Query, ok: (nat, nat) -> bool, n: nat)
    requires RowIs(py, p, ks, q, ok, n)
    ensures |PairsHaving(ok, n + 1, |ks|)|
         == |PairsHaving(ok, n, |ks|)| + FullCount(RowOf(py, p, ks), |ks|, q)
  {
    var row := (j: nat) => ok(n, j);
    RowCounts(py, p, ks, q, row);
    OneMoreRow(ok, row, n, |ks|);
  }

  /** The reference loop counts exactly those pairs. */
  lemma AllByAllCounts(py: Runtime, ps: seq<Contract>, ks: seq<Contract>, q: Query)
    ensures AllByAll(py, ps, ks, |ps|, q) == |PairsCounted(py, ps, ks, q)|
  {
    RowsCount(py, ps, ks, |ps|, q, Counter(py, ps, ks, q));
  }
}
