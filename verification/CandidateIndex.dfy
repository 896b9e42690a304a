// The lossless candidate index over the contract product
// (research/run85_phasex_run.py, lines 262-393).
module CandidateIndex {
  import opened Wrappers
  import opened PyText
  import opened EquivalenceGate
  import opened Counting
  import opened PairOutcomes

  function EventKey(py: Runtime, v: Value): Option<string> {
    match v
    case Str(s) => if Strip(s) != "" then Some(Lower(py.low, Strip(s))) else None
    case _ => None
  }

  function EventOf(py: Runtime, c: Contract): Option<string> {
    EventKey(py, c.half(UnderlyingEvent))
  }

  predicate IndexEliminates(py: Runtime, a: Value, b: Value) {
    var x, y := EventKey(py, a), EventKey(py, b);
    x.Some? && y.Some? && x != y
  }

  ghost predicate HasInk(s: string) {
    exists i :: 0 <= i < |s| && !IsSpace(s[i])
  }

  /** Two texts, neither blank, that differ once stripped and folded. */
  ghost predicate TitlesDiffer(py: Runtime, a: Value, b: Value) {
    && a.Str? && b.Str? && HasInk(a.text) && HasInk(b.text)
    && !SameText(py, Strip(a.text), Strip(b.text))
  }

  lemma InkIsKept(s: string)
    ensures HasInk(s) <==> Strip(s) != ""
  {
    var i, j := StripIsSlice(s);
    if HasInk(s) {
      var k :| 0 <= k < |s| && !IsSpace(s[k]);
      assert i <= k < j;
    }
    if Strip(s) != "" {
      assert Strip(s)[0] == s[i];
    }
  }

  /** A value carries a key exactly when it is a text with something in it, and two
      keys are equal exactly when the texts are. */
  lemma KeyMeaning(py: Runtime, a: Value, b: Value)
    ensures EventKey(py, a).Some? <==> a.Str? && HasInk(a.text)
    ensures EventKey(py, a).Some? && EventKey(py, b).Some? ==>
      (EventKey(py, a) == EventKey(py, b) <==> SameText(py, Strip(a.text), Strip(b.text)))
  {
    if a.Str? {
      InkIsKept(a.text);
    }
    if a.Str? && b.Str? {
      SameTextFolds(py, Strip(a.text), Strip(b.text));
    }
  }

  lemma EliminationMeaning(py: Runtime, a: Value, b: Value)
    ensures IndexEliminates(py, a, b) <==> TitlesDiffer(py, a, b)
  {
    KeyMeaning(py, a, b);
    KeyMeaning(py, b, a);
  }

  /** Elimination predicts the comparison exactly where it applies, and a pair it
      drops is one the gate rejects. A blank title is present to the comparison
      but carries no key, so it is never dropped. */
  lemma EliminatedIsRejected(py: Runtime, p: Contract, k: Contract)
    requires IndexEliminates(py, p.half(UnderlyingEvent), k.half(UnderlyingEvent))
    ensures Equivalence(py, p, k).status == EquivalenceRejected
  {
    assert Result(py, p, k, UnderlyingEvent) == Mismatch;
    GateMeaning(py, p, k);
  }

  lemma EliminatesExactlyKeyedMismatches(py: Runtime, a: Value, b: Value)
    ensures IndexEliminates(py, a, b)
       <==> EventKey(py, a).Some? && EventKey(py, b).Some? && CompareDimension(py, a, b) == Mismatch
    ensures a.Str? && a.text != "" && Strip(a.text) == "" && b.Str? && Strip(b.text) != ""
       ==> !IndexEliminates(py, a, b) && CompareDimension(py, a, b) == Mismatch
  {
    StripOfEmpty();
  }

  lemma StripOfEmpty()
    ensures Strip("") == ""
  {
  }

  ghost predicate Columns(js: seq<nat>, n: nat) {
    forall t :: 0 <= t < |js| ==> js[t] < n
  }

  function RowCount(row: Row, js: seq<nat>, t: nat, q: Query): nat
    requires t <= |js| && Columns(js, |row|)
  {
    if t == 0 then 0 else RowCount(row, js, t - 1, q) + One(row[js[t - 1]], q)
  }

  // ---- the index ----------------------------------------------------------

  type Keys = seq<Option<string>>

  function KeysOf(py: Runtime, ks: seq<Contract>): (keys: Keys)
    ensures |keys| == |ks| && forall j :: 0 <= j < |ks| ==> keys[j] == EventOf(py, ks[j])
  {
    seq(|ks|, j requires 0 <= j < |ks| => EventOf(py, ks[j]))
  }

  function Range(n: nat): (js: seq<nat>)
    ensures |js| == n && forall t :: 0 <= t < n ==> js[t] == t
  {
    if n == 0 then [] else Range(n - 1) + [n - 1]
  }

  /** The first `n` columns whose event key is `key`, in order. */
  function Keyed(keys: Keys, n: nat, key: Option<string>): (js: seq<nat>)
    requires n <= |keys|
    ensures |js| <= n && Columns(js, n)
  {
    if n == 0 then []
    else if keys[n - 1] == key then Keyed(keys, n - 1, key) + [n - 1]
    else Keyed(keys, n - 1, key)
  }

  function Candidates(pk: Option<string>, keys: Keys): (js: seq<nat>)
    ensures Columns(js, |keys|)
  {
    if pk.None? then Range(|keys|) else Keyed(keys, |keys|, pk) + Keyed(keys, |keys|, None)
  }

  lemma {:induction false} KeyedMembers(keys: Keys, n: nat, key: Option<string>)
    requires n <= |keys|
    ensures var js := Keyed(keys, n, key);
      && (forall j :: j in js <==> 0 <= j < n && keys[j] == key)
      && (forall s, t :: 0 <= s < t < |js| ==> js[s] < js[t])
  {
    if n > 0 {
      KeyedMembers(keys, n - 1, key);
    }
  }

  /** Every column is tried at most once, and all but the eliminated ones are. */
  lemma CandidateMembers(pk: Option<string>, keys: Keys)
    ensures var js := Candidates(pk, keys);
      && (forall j :: j in js <==> 0 <= j < |keys| && !(pk.Some? && keys[j].Some? && keys[j] != pk))
      && (forall s, t :: 0 <= s < t < |js| ==> js[s] != js[t])
  {
    if pk.Some? {
      var same, unkeyed := Keyed(keys, |keys|, pk), Keyed(keys, |keys|, None);
      KeyedMembers(keys, |keys|, pk);
      KeyedMembers(keys, |keys|, None);
      forall s, t | 0 <= s < |same| && 0 <= t < |unkeyed|
        ensures same[s] != unkeyed[t]
      {
        assert same[s] in same && unkeyed[t] in unkeyed;
      }
    } else {
      var js := Range(|keys|);
      forall j | 0 <= j < |keys|
        ensures j in js
      {
        assert js[j] == j;
      }
    }
  }

  /** Pairs the index drops are rejections. */
  ghost predicate DropsOnlyRejected(row: Row, pk: Option<string>, keys: Keys)
    requires |row| == |keys|
  {
    forall j :: 0 <= j < |keys| && keys[j].Some? && keys[j] != pk ==> row[j] == Rejected
  }

  lemma IndexDropsOnlyRejected(py: Runtime, p: Contract, ks: seq<Contract>)
    requires EventOf(py, p).Some?
    ensures DropsOnlyRejected(RowOf(py, p, ks), EventOf(py, p), KeysOf(py, ks))
  {
    forall j | 0 <= j < |ks| && EventOf(py, ks[j]).Some? && EventOf(py, ks[j]) != EventOf(py, p)
      ensures OutcomeOf(py, p, ks[j]) == Rejected
    {
      EliminatedIsRejected(py, p, ks[j]);
    }
  }

  lemma {:induction false} RowCountConcat(row: Row, xs: seq<nat>, ys: seq<nat>, t: nat, q: Query)
    requires Columns(xs, |row|) && Columns(ys, |row|) && t <= |ys|
    ensures Columns(xs + ys, |row|)
    ensures RowCount(row, xs + ys, |xs| + t, q) == RowCount(row, xs, |xs|, q) + RowCount(row, ys, t, q)
  {
    if t > 0 {
      RowCountConcat(row, xs, ys, t - 1, q);
    } else {
      RowCountPrefix(row, xs, ys, |xs|, q);
    }
  }

  lemma {:induction false} RowCountPrefix(row: Row, xs: seq<nat>, ys: seq<nat>, t: nat, q: Query)
    requires Columns(xs, |row|) && Columns(ys, |row|) && t <= |xs|
    ensures Columns(xs + ys, |row|)
    ensures RowCount(row, xs + ys, t, q) == RowCount(row, xs, t, q)
  {
    if t > 0 {
      RowCountPrefix(row, xs, ys, t - 1, q);
    }
  }

  lemma {:induction false} RangeCount(row: Row, n: nat, t: nat, q: Query)
    requires t <= n <= |row|
    ensures RowCount(row, Range(n), t, q) == FullCount(row, t, q)
  {
    if t > 0 {
      RangeCount(row, n, t - 1, q);
    }
  }

  /** The columns of one key grow by a column when it has that key. */
  lemma KeyedCount(row: Row, keys: Keys, n: nat, key: Option<string>, q: Query)
    requires 0 < n <= |keys| == |row|
    ensures var js, before, here := Keyed(keys, n, key), Keyed(keys, n - 1, key), keys[n - 1] == key;
      && |js| == |before| + (if here then 1 else 0)
      && RowCount(row, js, |js|, q) == RowCount(row, before, |before|, q) + (if here then One(row[n - 1], q) else 0)
  {
    if keys[n - 1] == key {
      RowCountAppend(row, Keyed(keys, n - 1, key), n - 1, q);
    }
  }

  /** For a keyed row, equal keys, missing keys and eliminated columns make up the
      whole row, and every eliminated column is one rejection and nothing else. */
  lemma {:induction false} IndexSplitsRow(row: Row, pk: Option<string>, keys: Keys, n: nat, q: Query)
    requires n <= |keys| == |row| && pk.Some? && DropsOnlyRejected(row, pk, keys)
    ensures var same, unkeyed := Keyed(keys, n, pk), Keyed(keys, n, None);
      && |same| + |unkeyed| <= n
      && FullCount(row, n, q) == RowCount(row, same, |same|, q) + RowCount(row, unkeyed, |unkeyed|, q)
                                 + (if q.AnyRejected? then n - |same| - |unkeyed| else 0)
  {
    if n > 0 {
      IndexSplitsRow(row, pk, keys, n - 1, q);
      KeyedCount(row, keys, n, pk, q);
      KeyedCount(row, keys, n, None, q);
    }
  }

  lemma RowCountAppend(row: Row, js: seq<nat>, j: nat, q: Query)
    requires Columns(js, |row|) && j < |row|
    ensures Columns(js + [j], |row|)
    ensures RowCount(row, js + [j], |js| + 1, q) == RowCount(row, js, |js|, q) + One(row[j], q)
  {
    RowCountPrefix(row, js, [j], |js|, q);
  }

  /** One row through the index counts as one row of the reference. */
  lemma IndexedRowIsFullRow(row: Row, pk: Option<string>, keys: Keys, q: Query)
    requires |row| == |keys| && (pk.Some? ==> DropsOnlyRejected(row, pk, keys))
    ensures var cand := Candidates(pk, keys);
      && |cand| <= |keys|
      && FullCount(row, |keys|, q) == RowCount(row, cand, |cand|, q) + (if q.AnyRejected? then |keys| - |cand| else 0)
  {
    if pk.Some? {
      IndexSplitsRow(row, pk, keys, |keys|, q);
      TwoPartsCount(row, Keyed(keys, |keys|, pk), Keyed(keys, |keys|, None), q);
    } else {
      RangeCount(row, |keys|, |keys|, q);
    }
  }

  lemma TwoPartsCount(row: Row, xs: seq<nat>, ys: seq<nat>, q: Query)
    requires Columns(xs, |row|) && Columns(ys, |row|)
    ensures Columns(xs + ys, |row|)
    ensures RowCount(row, xs + ys, |xs + ys|, q) == RowCount(row, xs, |xs|, q) + RowCount(row, ys, |ys|, q)
  {
    RowCountConcat(row, xs, ys, |ys|, q);
  }

  // ---- the verified list --------------------------------------------------

  function RowVerified(row: Row, i: nat, js: seq<nat>, t: nat): seq<(nat, nat)>
    requires t <= |js| && Columns(js, |row|)
  {
    if t == 0 then []
    else if row[js[t - 1]].Verified? then RowVerified(row, i, js, t - 1) + [(i, js[t - 1])]
    else RowVerified(row, i, js, t - 1)
  }

  /** One row's verified pairs in the order the index tries them. */
  function RowList(py: Runtime, p: Contract, ks: seq<Contract>, i: nat): seq<(nat, nat)> {
    var cand := Candidates(EventOf(py, p), KeysOf(py, ks));
    RowVerified(RowOf(py, p, ks), i, cand, |cand|)
  }

  function IndexedRows(py: Runtime, ps: seq<Contract>, ks: seq<Contract>): nat -> seq<(nat, nat)> {
    (i: nat) => if i < |ps| then RowList(py, ps[i], ks, i) else []
  }

  /** The verified pairs of the first n rows in that order. */
  function IndexedList(py: Runtime, ps: seq<Contract>, ks: seq<Contract>, n: nat): seq<(nat, nat)> {
    Concat(IndexedRows(py, ps, ks), n)
  }

  lemma {:induction false} RowVerifiedMembers(row: Row, i: nat, js: seq<nat>, t: nat)
    requires t <= |js| && Columns(js, |row|)
    requires forall s, u :: 0 <= s < u < |js| ==> js[s] != js[u]
    ensures var v := RowVerified(row, i, js, t);
      && (forall x :: x in v <==> x.0 == i && x.1 in js[..t] && row[x.1].Verified?)
      && (forall s, u :: 0 <= s < u < |v| ==> v[s] != v[u])
  {
    if t > 0 {
      RowVerifiedMembers(row, i, js, t - 1);
      assert js[..t] == js[..t - 1] + [js[t - 1]];
      assert js[t - 1] !in js[..t - 1];
      var before := RowVerified(row, i, js, t - 1);
      forall s | 0 <= s < |before|
        ensures before[s] != (i, js[t - 1])
      {
        assert before[s] in before;
      }
    }
  }

  predicate IsVerifiedPair(x: (nat, nat), py: Runtime, ps: seq<Contract>, ks: seq<Contract>, n: nat)
    requires n <= |ps|
  {
    x.0 < n && x.1 < |ks| && Equivalence(py, ps[x.0], ks[x.1]).status == EquivalenceVerified
  }

  /** Each verified pair of the product listed once, and nothing else. */
  ghost predicate ListsVerified(verified: seq<(nat, nat)>, py: Runtime, ps: seq<Contract>, ks: seq<Contract>, n: nat)
    requires n <= |ps|
  {
    && (forall x :: x in verified <==> IsVerifiedPair(x, py, ps, ks, n))
    && (forall s, u :: 0 <= s < u < |verified| ==> verified[s] != verified[u])
  }

  lemma RowExtendsVerified(verified: seq<(nat, nat)>, py: Runtime, ps: seq<Contract>, ks: seq<Contract>, i: nat)
    requires i < |ps| && ListsVerified(verified, py, ps, ks, i)
    ensures var cand := Candidates(EventOf(py, ps[i]), KeysOf(py, ks));
      ListsVerified(verified + RowVerified(RowOf(py, ps[i], ks), i, cand, |cand|), py, ps, ks, i + 1)
  {
    var row, pk, keys := RowOf(py, ps[i], ks), EventOf(py, ps[i]), KeysOf(py, ks);
    var cand := Candidates(pk, keys);
    var more := RowVerified(row, i, cand, |cand|);
    CandidateMembers(pk, keys);
    RowVerifiedMembers(row, i, cand, |cand|);
    assert cand[..|cand|] == cand;
    forall j | 0 <= j < |ks| && row[j].Verified?
      ensures j in cand
    {
      if pk.Some? && keys[j].Some? && keys[j] != pk {
        EliminatedIsRejected(py, ps[i], ks[j]);
      }
    }
    var all := verified + more;
    forall s, u | 0 <= s < u < |all|
      ensures all[s] != all[u]
    {
      if s < |verified| <= u {
        assert all[s] in verified && all[u] in more;
      }
    }
    forall x
      ensures x in all <==> x in verified || x in more
    {
    }
  }

  // ---- the pairs put to the gate ------------------------------------------

  function PairsOf(i: nat, js: seq<nat>, t: nat): seq<(nat, nat)>
    requires t <= |js|
  {
    if t == 0 then [] else PairsOf(i, js, t - 1) + [(i, js[t - 1])]
  }

  function RowPairs(py: Runtime, p: Contract, ks: seq<Contract>, i: nat): seq<(nat, nat)> {
    var cand := Candidates(EventOf(py, p), KeysOf(py, ks));
    PairsOf(i, cand, |cand|)
  }

  function EvaluatedRows(py: Runtime, ps: seq<Contract>, ks: seq<Contract>): nat -> seq<(nat, nat)> {
    (i: nat) => if i < |ps| then RowPairs(py, ps[i], ks, i) else []
  }

  /** The evaluated pairs of the first n rows. */
  function EvaluatedPairs(py: Runtime, ps: seq<Contract>, ks: seq<Contract>, n: nat): seq<(nat, nat)> {
    Concat(EvaluatedRows(py, ps, ks), n)
  }

  lemma {:induction false} PairsOfLength(i: nat, js: seq<nat>, t: nat)
    requires t <= |js|
    ensures |PairsOf(i, js, t)| == t
  {
    if t > 0 {
      PairsOfLength(i, js, t - 1);
    }
  }

  lemma {:induction false} PairsOfMembers(i: nat, js: seq<nat>, t: nat)
    requires t <= |js| && forall u, v :: 0 <= u < v < |js| ==> js[u] != js[v]
    ensures |PairsOf(i, js, t)| == t
    ensures forall u :: 0 <= u < t ==> PairsOf(i, js, t)[u] == (i, js[u])
  {
    if t > 0 {
      PairsOfMembers(i, js, t - 1);
    }
  }

  /** Exactly the pairs the index does not drop, each once. */
  ghost predicate ListsNotEliminated(pairs: seq<(nat, nat)>, py: Runtime, ps: seq<Contract>, ks: seq<Contract>) {
    AllDifferent(pairs) && forall x :: x in pairs <==> IsNotEliminated(x, py, ps, ks)
  }

  ghost predicate IsNotEliminated(x: (nat, nat), py: Runtime, ps: seq<Contract>, ks: seq<Contract>) {
    && x.0 < |ps| && x.1 < |ks|
    && !TitlesDiffer(py, ps[x.0].half(UnderlyingEvent), ks[x.1].half(UnderlyingEvent))
  }

  predicate IsTried(x: (nat, nat), py: Runtime, ps: seq<Contract>, ks: seq<Contract>) {
    && x.0 < |ps| && x.1 < |ks|
    && !IndexEliminates(py, ps[x.0].half(UnderlyingEvent), ks[x.1].half(UnderlyingEvent))
  }

  lemma RowNotEliminated(py: Runtime, ps: seq<Contract>, ks: seq<Contract>, i: nat)
    requires i < |ps|
    ensures var pairs := RowPairs(py, ps[i], ks, i);
      AllDifferent(pairs) && forall x :: x in pairs <==> x.0 == i && IsTried(x, py, ps, ks)
  {
    var pk, keys := EventOf(py, ps[i]), KeysOf(py, ks);
    var cand := Candidates(pk, keys);
    CandidateMembers(pk, keys);
    PairsOfMembers(i, cand, |cand|);
    var pairs := PairsOf(i, cand, |cand|);
    forall x
      ensures x in pairs <==> x.0 == i && IsTried(x, py, ps, ks)
    {
      if x.0 == i && IsTried(x, py, ps, ks) {
        assert x.1 in cand;
        var t :| 0 <= t < |cand| && cand[t] == x.1;
        assert pairs[t] == x;
      }
      if x in pairs {
        var u :| 0 <= u < |pairs| && pairs[u] == x;
        assert cand[u] in cand;
      }
    }
  }

  /** Rows that list the pairs of their own row meeting a condition, each once, list
      together all the pairs that meet it. */
  lemma {:induction false} ConcatLists(rows: nat -> seq<(nat, nat)>, n: nat, ok: ((nat, nat)) -> bool)
    requires forall i: nat :: i < n ==> AllDifferent(rows(i)) && forall x :: x in rows(i) <==> x.0 == i && ok(x)
    ensures AllDifferent(Concat(rows, n)) && forall x :: x in Concat(rows, n) <==> x.0 < n && ok(x)
  {
    if n > 0 {
      ConcatLists(rows, n - 1, ok);
      var xs, ys := Concat(rows, n - 1), rows(n - 1);
      var all := xs + ys;
      forall u, v | 0 <= u < v < |all|
        ensures all[u] != all[v]
      {
        if u < |xs| <= v {
          assert all[u] in xs && all[v] in ys;
        }
      }
      assert forall x :: x in all <==> x in xs || x in ys;
    }
  }

  lemma EvaluatedExactly(py: Runtime, ps: seq<Contract>, ks: seq<Contract>)
    ensures ListsNotEliminated(EvaluatedPairs(py, ps, ks, |ps|), py, ps, ks)
  {
    var rows := EvaluatedRows(py, ps, ks);
    var ok := (x: (nat, nat)) => IsTried(x, py, ps, ks);
    forall i: nat | i < |ps|
      ensures AllDifferent(rows(i)) && forall x :: x in rows(i) <==> x.0 == i && ok(x)
    {
      RowNotEliminated(py, ps, ks, i);
    }
    ConcatLists(rows, |ps|, ok);
    forall x: (nat, nat)
      ensures IsTried(x, py, ps, ks) <==> IsNotEliminated(x, py, ps, ks)
    {
      if x.0 < |ps| && x.1 < |ks| {
        EliminationMeaning(py, ps[x.0].half(UnderlyingEvent), ks[x.1].half(UnderlyingEvent));
      }
    }
  }

  // ---- counters kept in dictionaries --------------------------------------

  method BuildIndex(keys: Keys) returns (byEvent: map<Option<string>, seq<nat>>)
    ensures forall key :: Keyed(keys, |keys|, key) == if key in byEvent then byEvent[key] else []
  {
    byEvent := map[];
    for j := 0 to |keys|
      invariant forall key :: Keyed(keys, j, key) == if key in byEvent then byEvent[key] else []
    {
      var key := keys[j];
      byEvent := byEvent[key := (if key in byEvent then byEvent[key] else []) + [j]];
    }
  }

  /** Dimension verdicts over the first `n` evaluated pairs. */
  function Census(py: Runtime, ps: seq<Contract>, ks: seq<Contract>, pairs: seq<(nat, nat)>, n: nat, d: Dim,
                  v: Verdict): nat
    requires n <= |pairs| && forall t :: 0 <= t < |pairs| ==> pairs[t].0 < |ps| && pairs[t].1 < |ks|
  {
    if n == 0 then 0
    else
      var here := Result(py, ps[pairs[n - 1].0], ks[pairs[n - 1].1], d);
      Census(py, ps, ks, pairs, n - 1, d, v) + (if here == v then 1 else 0)
  }

  lemma {:induction false} CensusSums(py: Runtime, ps: seq<Contract>, ks: seq<Contract>, pairs: seq<(nat, nat)>,
                                      n: nat, d: Dim)
    requires n <= |pairs| && forall t :: 0 <= t < |pairs| ==> pairs[t].0 < |ps| && pairs[t].1 < |ks|
    ensures Census(py, ps, ks, pairs, n, d, Match) + Census(py, ps, ks, pairs, n, d, Mismatch)
            + Census(py, ps, ks, pairs, n, d, Unresolved) == n
  {
    if n > 0 {
      CensusSums(py, ps, ks, pairs, n - 1, d);
    }
  }

  /** The not eliminated pairs that compare as `v` in dimension d. */
  ghost function CensusCounter(py: Runtime, ps: seq<Contract>, ks: seq<Contract>, d: Dim, v: Verdict):
    (nat, nat) -> bool
  {
    (i: nat, j: nat) => IsNotEliminated((i, j), py, ps, ks)
      && CompareDimension(py, ps[i].half(d), ks[j].half(d)) == v
  }

  ghost predicate Compares(py: Runtime, ps: seq<Contract>, ks: seq<Contract>, pairs: seq<(nat, nat)>, t: nat, d: Dim,
                           v: Verdict, ok: ((nat, nat)) -> bool)
    requires t < |pairs| && ValidPairs(pairs, ps, ks)
  {
    ok(pairs[t]) <==> Result(py, ps[pairs[t].0], ks[pairs[t].1], d) == v
  }

  lemma {:induction false} CensusIsTally(py: Runtime, ps: seq<Contract>, ks: seq<Contract>, pairs: seq<(nat, nat)>,
                                         n: nat, d: Dim, v: Verdict, ok: ((nat, nat)) -> bool)
    requires n <= |pairs| && ValidPairs(pairs, ps, ks)
    requires forall t: nat :: t < n ==> Compares(py, ps, ks, pairs, t, d, v, ok)
    ensures Census(py, ps, ks, pairs, n, d, v) == Tally(pairs[..n], ok)
  {
    if n > 0 {
      CensusIsTally(py, ps, ks, pairs, n - 1, d, v, ok);
      assert pairs[..n][..n - 1] == pairs[..n - 1];
      assert Compares(py, ps, ks, pairs, n - 1, d, v, ok);
    }
  }

  lemma {:induction false} CensusCounts(py: Runtime, ps: seq<Contract>, ks: seq<Contract>, pairs: seq<(nat, nat)>,
                                        d: Dim, v: Verdict)
    requires ValidPairs(pairs, ps, ks) && ListsNotEliminated(pairs, py, ps, ks)
    ensures Census(py, ps, ks, pairs, |pairs|, d, v) == |PairsHaving(CensusCounter(py, ps, ks, d, v), |ps|, |ks|)|
  {
    var counter := CensusCounter(py, ps, ks, d, v);
    var some, ok := PairsHaving(counter, |ps|, |ks|), (x: (nat, nat)) => counter(x.0, x.1);
    forall x: (nat, nat)
      ensures x in some <==> x in pairs && ok(x)
    {
      assert x in pairs <==> IsNotEliminated(x, py, ps, ks);
    }
    forall t: nat | t < |pairs|
      ensures Compares(py, ps, ks, pairs, t, d, v, ok)
    {
      assert pairs[t] in pairs;
    }
    CensusIsTally(py, ps, ks, pairs, |pairs|, d, v, ok);
    assert pairs[..|pairs|] == pairs;
    TallyIsSet(pairs, ok, some);
  }

  datatype Counts = Counts(
    pmus: nat, kalshi: nat, allByAll: nat, candidates: nat, eliminated: nat, evaluations: nat,
    potential: nat, verified: nat, rejected: nat, notIdentified: nat)

  ghost predicate BlockersCount(blockers: map<seq<Dim>, nat>, kept: seq<seq<Dim>>) {
    forall key :: multiset(kept)[key] == if key in blockers then blockers[key] else 0
  }

  function Bump(m: map<seq<Dim>, nat>, key: seq<Dim>): map<seq<Dim>, nat> {
    m[key := (if key in m then m[key] else 0) + 1]
  }

  ghost predicate ValidPairs(pairs: seq<(nat, nat)>, ps: seq<Contract>, ks: seq<Contract>) {
    forall t :: 0 <= t < |pairs| ==> pairs[t].0 < |ps| && pairs[t].1 < |ks|
  }

  /** The census holds, for every dimension and verdict, the number of evaluated pairs. */
  ghost predicate CensusOf(census: map<(Dim, Verdict), nat>, py: Runtime, ps: seq<Contract>, ks: seq<Contract>,
                           pairs: seq<(nat, nat)>)
    requires ValidPairs(pairs, ps, ks)
  {
    forall d: Dim, v: Verdict :: (d, v) in census && census[(d, v)] == Census(py, ps, ks, pairs, |pairs|, d, v)
  }

  /** The census loop of one evaluated pair. */
  method RecordPair(census: map<(Dim, Verdict), nat>, py: Runtime, p: Contract, k: Contract)
    returns (after: map<(Dim, Verdict), nat>)
    requires forall d: Dim, v: Verdict :: (d, v) in census
    ensures forall d: Dim, v: Verdict ::
        (d, v) in after && after[(d, v)] == census[(d, v)] + (if Result(py, p, k, d) == v then 1 else 0)
  {
    after := census;
    for t := 0 to |MATERIAL_DIMENSIONS|
      invariant forall d: Dim, v: Verdict ::
          (d, v) in after && after[(d, v)]
              == census[(d, v)] + (if d in MATERIAL_DIMENSIONS[..t] && Result(py, p, k, d) == v then 1 else 0)
    {
      var d := MATERIAL_DIMENSIONS[t];
      DimensionsDistinct(t);
      after := after[(d, Result(py, p, k, d)) := after[(d, Result(py, p, k, d))] + 1];
      assert MATERIAL_DIMENSIONS[..t + 1] == MATERIAL_DIMENSIONS[..t] + [d];
    }
    assert MATERIAL_DIMENSIONS[..|MATERIAL_DIMENSIONS|] == MATERIAL_DIMENSIONS;
    forall d: Dim
      ensures d in MATERIAL_DIMENSIONS
    {
      EveryDimensionIsMaterial(d);
    }
  }

  lemma DimensionsDistinct(t: nat)
    requires t < |MATERIAL_DIMENSIONS|
    ensures MATERIAL_DIMENSIONS[t] !in MATERIAL_DIMENSIONS[..t]
  {
  }

  lemma {:induction false} CensusPrefix(py: Runtime, ps: seq<Contract>, ks: seq<Contract>, pairs: seq<(nat, nat)>,
                                        more: seq<(nat, nat)>, n: nat, d: Dim, v: Verdict)
    requires n <= |pairs| && ValidPairs(pairs, ps, ks) && ValidPairs(pairs + more, ps, ks)
    ensures Census(py, ps, ks, pairs + more, n, d, v) == Census(py, ps, ks, pairs, n, d, v)
  {
    if n > 0 {
      CensusPrefix(py, ps, ks, pairs, more, n - 1, d, v);
      assert (pairs + more)[n - 1] == pairs[n - 1];
    }
  }

  /** The counter that answers a query. */
  ghost function Observed(nVerified: nat, nRejected: nat, kept: seq<seq<Dim>>, q: Query): nat {
    match q
    case AnyVerified => nVerified
    case AnyRejected => nRejected
    case AnyKept => |kept|
    case KeptUnder(key) => multiset(kept)[key]
  }

  /** What the counters of the report hold once `i` rows are done and the next has
      been followed through `t` candidates; `skipped` eliminated pairs of that row
      are already counted as rejected. */
  ghost predicate Counted(py: Runtime, ps: seq<Contract>, ks: seq<Contract>, i: nat, row: Row, cand: seq<nat>, t: nat,
                          skipped: nat,
                          nVerified: nat, nRejected: nat, kept: seq<seq<Dim>>)
    requires i <= |ps| && t <= |cand| && Columns(cand, |row|)
  {
    forall q :: Observed(nVerified, nRejected, kept, q)
             == AllByAll(py, ps, ks, i, q) + RowCount(row, cand, t, q) + (if q.AnyRejected? then skipped else 0)
  }

  /** Each outcome moves exactly the counters of the queries it meets. */
  lemma ObservedStep(nVerified: nat, nRejected: nat, kept: seq<seq<Dim>>, o: Outcome, q: Query)
    ensures Observed(nVerified + One(o, AnyVerified), nRejected + One(o, AnyRejected), KeptWith(kept, o), q)
         == Observed(nVerified, nRejected, kept, q) + One(o, q)
  {
  }

  function KeptWith(kept: seq<seq<Dim>>, o: Outcome): seq<seq<Dim>> {
    if o.Kept? then kept + [o.unresolved] else kept
  }

  lemma CountStep(py: Runtime, ps: seq<Contract>, ks: seq<Contract>, i: nat, row: Row, cand: seq<nat>, t: nat,
                  next: nat, skipped: nat,
                  nVerified: nat, nRejected: nat, kept: seq<seq<Dim>>)
    requires i <= |ps| && next == t + 1 && t < |cand| && Columns(cand, |row|)
    requires Counted(py, ps, ks, i, row, cand, t, skipped, nVerified, nRejected, kept)
    ensures var o := row[cand[t]];
      Counted(py, ps, ks, i, row, cand, next, skipped,
              nVerified + One(o, AnyVerified), nRejected + One(o, AnyRejected), KeptWith(kept, o))
  {
    var o := row[cand[t]];
    forall q
      ensures Observed(nVerified + One(o, AnyVerified), nRejected + One(o, AnyRejected), KeptWith(kept, o), q)
           == AllByAll(py, ps, ks, i, q) + RowCount(row, cand, next, q) + (if q.AnyRejected? then skipped else 0)
    {
      ObservedStep(nVerified, nRejected, kept, o, q);
    }
  }

  lemma CountRowFor(py: Runtime, ps: seq<Contract>, ks: seq<Contract>, i: nat, q: Query)
    requires i < |ps|
    ensures var row, cand := RowOf(py, ps[i], ks), Candidates(EventOf(py, ps[i]), KeysOf(py, ks));
      |cand| <= |ks| && AllByAll(py, ps, ks, i + 1, q)
        == AllByAll(py, ps, ks, i, q) + RowCount(row, cand, |cand|, q) + (if q.AnyRejected? then |ks| - |cand| else 0)
  {
    if EventOf(py, ps[i]).Some? {
      IndexDropsOnlyRejected(py, ps[i], ks);
    }
    IndexedRowIsFullRow(RowOf(py, ps[i], ks), EventOf(py, ps[i]), KeysOf(py, ks), q);
  }

  lemma CountRow(py: Runtime, ps: seq<Contract>, ks: seq<Contract>, i: nat, nVerified: nat, nRejected: nat,
                 kept: seq<seq<Dim>>)
    requires i < |ps|
    requires var cand := Candidates(EventOf(py, ps[i]), KeysOf(py, ks));
      && |cand| <= |ks|
      && Counted(py, ps, ks, i, RowOf(py, ps[i], ks), cand, |cand|, |ks| - |cand|, nVerified, nRejected, kept)
    ensures Counted(py, ps, ks, i + 1, [], [], 0, 0, nVerified, nRejected, kept)
  {
    forall q
      ensures Observed(nVerified, nRejected, kept, q) == AllByAll(py, ps, ks, i + 1, q)
    {
      CountRowFor(py, ps, ks, i, q);
    }
  }

  /** The loops' growing results; the two lists at the end are ghosts of what the
      dictionaries count. */
  datatype Report = Report(verified: seq<(nat, nat)>, nVerified: nat, nRejected: nat, nUnknown: nat,
                           blockers: map<seq<Dim>, nat>)

  function Advance(r: Report, i: nat, j: nat, o: Outcome): Report {
    match o
    case Verified => r.(nVerified := r.nVerified + 1, verified := r.verified + [(i, j)])
    case Rejected => r.(nRejected := r.nRejected + 1)
    case Kept(key) => r.(nUnknown := r.nUnknown + 1, blockers := Bump(r.blockers, key))
    case Dropped => r
  }

  ghost predicate Consistent(r: Report, kept: seq<seq<Dim>>) {
    r.nUnknown == |kept| && BlockersCount(r.blockers, kept)
  }

  /** One row followed through `t` candidates, from the report `r0`. */
  ghost predicate RowProgress(py: Runtime, ps: seq<Contract>, ks: seq<Contract>, i: nat, row: Row, cand: seq<nat>,
                              t: nat,
                              r0: Report, r: Report, kept: seq<seq<Dim>>)
    requires i <= |ps| && t <= |cand| && Columns(cand, |row|) && |cand| <= |row|
  {
    && r.verified == r0.verified + RowVerified(row, i, cand, t)
    && Counted(py, ps, ks, i, row, cand, t, |row| - |cand|, r.nVerified, r.nRejected, kept)
    && Consistent(r, kept)
  }

  lemma RowAdvances(py: Runtime, ps: seq<Contract>, ks: seq<Contract>, i: nat, row: Row, cand: seq<nat>, t: nat,
                    next: nat,
                    r0: Report, r: Report, kept: seq<seq<Dim>>)
    requires i <= |ps| && next == t + 1 && t < |cand| && Columns(cand, |row|) && |cand| <= |row|
    requires RowProgress(py, ps, ks, i, row, cand, t, r0, r, kept)
    ensures var o := row[cand[t]];
      RowProgress(py, ps, ks, i, row, cand, next, r0, Advance(r, i, cand[t], o), KeptWith(kept, o))
  {
    var o := row[cand[t]];
    CountStep(py, ps, ks, i, row, cand, t, next, |row| - |cand|, r.nVerified, r.nRejected, kept);
    StaysConsistent(r, i, cand[t], o, kept);
    AdvanceCounts(r, i, cand[t], o);
    VerifiedNext(r0.verified, row, i, cand, t, next);
  }

  lemma VerifiedNext(before: seq<(nat, nat)>, row: Row, i: nat, cand: seq<nat>, t: nat, next: nat)
    requires next == t + 1 && t < |cand| && Columns(cand, |row|)
    ensures before + RowVerified(row, i, cand, next)
         == before + RowVerified(row, i, cand, t) + (if row[cand[t]].Verified? then [(i, cand[t])] else [])
  {
  }

  lemma AdvanceCounts(r: Report, i: nat, j: nat, o: Outcome)
    ensures var q := Advance(r, i, j, o);
      && q.nVerified == r.nVerified + One(o, AnyVerified) && q.nRejected == r.nRejected + One(o, AnyRejected)
      && q.verified == r.verified + (if o.Verified? then [(i, j)] else [])
  {
  }

  lemma StaysConsistent(r: Report, i: nat, j: nat, o: Outcome, kept: seq<seq<Dim>>)
    requires Consistent(r, kept)
    ensures Consistent(Advance(r, i, j, o), KeptWith(kept, o))
  {
  }

  /** The inner loop: one row's candidates put to the gate. */
  method EvaluateRow(py: Runtime, ps: seq<Contract>, ks: seq<Contract>, i: nat, cand: seq<nat>, r0: Report,
                     census0: map<(Dim, Verdict), nat>, ghost kept0: seq<seq<Dim>>, ghost evaluated0: seq<(nat, nat)>)
    returns (r: Report, census: map<(Dim, Verdict), nat>, ghost kept: seq<seq<Dim>>, ghost evaluated: seq<(nat, nat)>)
    requires i < |ps| && Columns(cand, |ks|) && |cand| <= |ks|
    requires RowProgress(py, ps, ks, i, RowOf(py, ps[i], ks), cand, 0, r0, r0, kept0)
    requires ValidPairs(evaluated0, ps, ks) && CensusOf(census0, py, ps, ks, evaluated0)
    ensures RowProgress(py, ps, ks, i, RowOf(py, ps[i], ks), cand, |cand|, r0, r, kept)
    ensures ValidPairs(evaluated, ps, ks) && CensusOf(census, py, ps, ks, evaluated)
    ensures evaluated == evaluated0 + PairsOf(i, cand, |cand|)
  {
    ghost var row := RowOf(py, ps[i], ks);
    r, census, kept, evaluated := r0, census0, kept0, evaluated0;
    for t := 0 to |cand|
      invariant RowProgress(py, ps, ks, i, row, cand, t, r0, r, kept)
      invariant ValidPairs(evaluated, ps, ks) && CensusOf(census, py, ps, ks, evaluated)
      invariant evaluated == evaluated0 + PairsOf(i, cand, t)
    {
      var j := cand[t];
      census := CountPair(census, py, ps, ks, evaluated, i, j);
      evaluated := evaluated + [(i, j)];
      RowAdvances(py, ps, ks, i, row, cand, t, t + 1, r0, r, kept);
      r := Advance(r, i, j, OutcomeOf(py, ps[i], ks[j]));
      kept := KeptWith(kept, row[j]);
    }
  }

  /** `i` rows done. */
  ghost predicate RowsDone(py: Runtime, ps: seq<Contract>, ks: seq<Contract>, i: nat, r: Report, kept: seq<seq<Dim>>)
    requires i <= |ps|
  {
    && r.verified == IndexedList(py, ps, ks, i) && ListsVerified(r.verified, py, ps, ks, i)
    && Counted(py, ps, ks, i, [], [], 0, 0, r.nVerified, r.nRejected, kept)
    && Consistent(r, kept)
  }

  lemma RowStarts(py: Runtime, ps: seq<Contract>, ks: seq<Contract>, i: nat, cand: seq<nat>, r: Report,
                  kept: seq<seq<Dim>>)
    requires i < |ps| && RowsDone(py, ps, ks, i, r, kept)
    requires Columns(cand, |ks|) && |cand| <= |ks|
    ensures var r0 := r.(nRejected := r.nRejected + |ks| - |cand|);
      RowProgress(py, ps, ks, i, RowOf(py, ps[i], ks), cand, 0, r0, r0, kept)
  {
    assert r.verified + [] == r.verified;
  }

  lemma RowEnds(py: Runtime, ps: seq<Contract>, ks: seq<Contract>, i: nat, r0: Report, r: Report, kept: seq<seq<Dim>>)
    requires i < |ps| && r0.verified == IndexedList(py, ps, ks, i) && ListsVerified(r0.verified, py, ps, ks, i)
    requires var cand := Candidates(EventOf(py, ps[i]), KeysOf(py, ks));
      |cand| <= |ks| && RowProgress(py, ps, ks, i, RowOf(py, ps[i], ks), cand, |cand|, r0, r, kept)
    ensures RowsDone(py, ps, ks, i + 1, r, kept)
  {
    CountRow(py, ps, ks, i, r.nVerified, r.nRejected, kept);
    RowExtendsVerified(r0.verified, py, ps, ks, i);
  }

  /** One turn of the outer loop, from the row's candidates on. */
  method ClassifyRow(py: Runtime, ps: seq<Contract>, ks: seq<Contract>, i: nat, cand: seq<nat>, r0: Report,
                     census0: map<(Dim, Verdict), nat>, ghost kept0: seq<seq<Dim>>, ghost evaluated0: seq<(nat, nat)>)
    returns (r: Report, census: map<(Dim, Verdict), nat>, ghost kept: seq<seq<Dim>>, ghost evaluated: seq<(nat, nat)>)
    requires i < |ps| && cand == Candidates(EventOf(py, ps[i]), KeysOf(py, ks)) && |cand| <= |ks|
    requires RowsDone(py, ps, ks, i, r0, kept0)
    requires ValidPairs(evaluated0, ps, ks) && CensusOf(census0, py, ps, ks, evaluated0)
    ensures RowsDone(py, ps, ks, i + 1, r, kept)
    ensures ValidPairs(evaluated, ps, ks) && CensusOf(census, py, ps, ks, evaluated)
    ensures evaluated == evaluated0 + PairsOf(i, cand, |cand|)
  {
    RowStarts(py, ps, ks, i, cand, r0, kept0);
    var r1 := r0.(nRejected := r0.nRejected + |ks| - |cand|);
    r, census, kept, evaluated := EvaluateRow(py, ps, ks, i, cand, r1, census0, kept0, evaluated0);
    RowEnds(py, ps, ks, i, r1, r, kept);
  }

  /** The outer loop over the index. */
  method ClassifyRows(py: Runtime, ps: seq<Contract>, ks: seq<Contract>)
    returns (r: Report, census: map<(Dim, Verdict), nat>, candidates: nat, eliminated: nat, evaluations: nat,
             ghost kept: seq<seq<Dim>>, ghost evaluated: seq<(nat, nat)>)
    ensures RowsDone(py, ps, ks, |ps|, r, kept)
    ensures evaluations + eliminated == |ps| * |ks| && candidates == evaluations == |evaluated|
    ensures evaluated == EvaluatedPairs(py, ps, ks, |ps|)
    ensures ValidPairs(evaluated, ps, ks) && CensusOf(census, py, ps, ks, evaluated)
  {
    var keys := KeysOf(py, ks);
    var byEvent := BuildIndex(keys);
    r, census := Report([], 0, 0, 0, map[]), map d: Dim, v: Verdict | true :: (d, v) := 0;
    kept, evaluated := [], [];
    candidates, eliminated, evaluations := 0, 0, 0;
    for i := 0 to |ps|
      invariant RowsDone(py, ps, ks, i, r, kept)
      invariant evaluations + eliminated == i * |ks| && candidates == evaluations == |evaluated|
      invariant evaluated == EvaluatedPairs(py, ps, ks, i)
      invariant ValidPairs(evaluated, ps, ks) && CensusOf(census, py, ps, ks, evaluated)
    {
      var cand := LookUp(byEvent, keys, EventOf(py, ps[i]));
      candidates := candidates + |cand|;
      eliminated := eliminated + (|ks| - |cand|);
      r, census, kept, evaluated := ClassifyRow(py, ps, ks, i, cand, r, census, kept, evaluated);
      evaluations := evaluations + |cand|;
      PairsOfLength(i, cand, |cand|);
      assert (i + 1) * |ks| == i * |ks| + |ks|;
    }
  }

  method LookUp(byEvent: map<Option<string>, seq<nat>>, keys: Keys, pk: Option<string>) returns (cand: seq<nat>)
    requires forall key :: Keyed(keys, |keys|, key) == if key in byEvent then byEvent[key] else []
    ensures cand == Candidates(pk, keys) && |cand| <= |keys|
  {
    var unkeyed := if None in byEvent then byEvent[None] else [];
    cand := if pk.None? then Range(|keys|) else (if pk in byEvent then byEvent[pk] else []) + unkeyed;
    CandidatesFit(pk, keys);
  }

  /** What the counters hold after the last row. */
  lemma CountersCount(py: Runtime, ps: seq<Contract>, ks: seq<Contract>, r: Report, kept: seq<seq<Dim>>)
    requires RowsDone(py, ps, ks, |ps|, r, kept)
    ensures r.nVerified == AllByAll(py, ps, ks, |ps|, AnyVerified)
    ensures r.nRejected == AllByAll(py, ps, ks, |ps|, AnyRejected)
    ensures r.nUnknown == AllByAll(py, ps, ks, |ps|, AnyKept)
    ensures forall key ::
      AllByAll(py, ps, ks, |ps|, KeptUnder(key)) == if key in r.blockers then r.blockers[key] else 0
  {
    CounterIs(py, ps, ks, r, kept, AnyVerified);
    CounterIs(py, ps, ks, r, kept, AnyRejected);
    CounterIs(py, ps, ks, r, kept, AnyKept);
    forall key
      ensures AllByAll(py, ps, ks, |ps|, KeptUnder(key)) == if key in r.blockers then r.blockers[key] else 0
    {
      CounterOfKey(py, ps, ks, r, kept, key);
    }
  }

  lemma CounterOfKey(py: Runtime, ps: seq<Contract>, ks: seq<Contract>, r: Report, kept: seq<seq<Dim>>, key: seq<Dim>)
    requires Counted(py, ps, ks, |ps|, [], [], 0, 0, r.nVerified, r.nRejected, kept) && BlockersCount(r.blockers, kept)
    ensures AllByAll(py, ps, ks, |ps|, KeptUnder(key)) == if key in r.blockers then r.blockers[key] else 0
  {
    CounterIs(py, ps, ks, r, kept, KeptUnder(key));
    assert multiset(kept)[key] == if key in r.blockers then r.blockers[key] else 0;
  }

  lemma CounterIs(py: Runtime, ps: seq<Contract>, ks: seq<Contract>, r: Report, kept: seq<seq<Dim>>, q: Query)
    requires Counted(py, ps, ks, |ps|, [], [], 0, 0, r.nVerified, r.nRejected, kept)
    ensures Observed(r.nVerified, r.nRejected, kept, q) == AllByAll(py, ps, ks, |ps|, q)
  {
  }

  /** Everything the report counts is what the all-by-all reference counts,
      although only the candidates are put to the gate. */
  method ClassifyPairs(py: Runtime, ps: seq<Contract>, ks: seq<Contract>)
    returns (verified: seq<(nat, nat)>, counts: Counts, blockers: map<seq<Dim>, nat>, census: map<(Dim, Verdict), nat>,
             ghost kept: seq<seq<Dim>>, ghost evaluated: seq<(nat, nat)>)
    ensures verified == IndexedList(py, ps, ks, |ps|) && ListsVerified(verified, py, ps, ks, |ps|)
    ensures counts.verified == AllByAll(py, ps, ks, |ps|, AnyVerified)
    ensures counts.rejected == AllByAll(py, ps, ks, |ps|, AnyRejected)
    ensures counts.notIdentified == AllByAll(py, ps, ks, |ps|, AnyKept)
    ensures counts.verified == |PairsCounted(py, ps, ks, AnyVerified)|
    ensures counts.rejected == |PairsCounted(py, ps, ks, AnyRejected)|
    ensures counts.notIdentified == |PairsCounted(py, ps, ks, AnyKept)|
    ensures forall key :: |PairsCounted(py, ps, ks, KeptUnder(key))| == if key in blockers then blockers[key] else 0
    ensures counts.potential == counts.verified + counts.rejected + counts.notIdentified
    ensures forall key :: AllByAll(py, ps, ks, |ps|, KeptUnder(key)) == if key in blockers then blockers[key] else 0
    ensures BlockersCount(blockers, kept) && |kept| == counts.notIdentified
    ensures counts.pmus == |ps| && counts.kalshi == |ks| && counts.allByAll == |ps| * |ks|
    ensures counts.evaluations + counts.eliminated == |ps| * |ks| && counts.candidates == counts.evaluations
    ensures ValidPairs(evaluated, ps, ks) && |evaluated| == counts.evaluations
    ensures CensusOf(census, py, ps, ks, evaluated)
    ensures ListsNotEliminated(evaluated, py, ps, ks)
    ensures forall d: Dim, v: Verdict ::
        (d, v) in census && census[(d, v)] == |PairsHaving(CensusCounter(py, ps, ks, d, v), |ps|, |ks|)|
    ensures forall d: Dim :: CensusTotal(census, d) == counts.evaluations
  {
    var r: Report, candidates: nat, eliminated: nat, evaluations: nat;
    r, census, candidates, eliminated, evaluations, kept, evaluated := ClassifyRows(py, ps, ks);
    verified, blockers := r.verified, r.blockers;
    EvaluatedExactly(py, ps, ks);
    CountersCount(py, ps, ks, r, kept);
    forall q
      ensures AllByAll(py, ps, ks, |ps|, q) == |PairsCounted(py, ps, ks, q)|
    {
      AllByAllCounts(py, ps, ks, q);
    }
    counts := Counts(|ps|, |ks|, |ps| * |ks|, candidates, eliminated, evaluations,
                     r.nVerified + r.nRejected + r.nUnknown, r.nVerified, r.nRejected, r.nUnknown);
    forall d: Dim, v: Verdict
      ensures census[(d, v)] == |PairsHaving(CensusCounter(py, ps, ks, d, v), |ps|, |ks|)|
    {
      CensusCounts(py, ps, ks, evaluated, d, v);
    }
    forall d: Dim
      ensures CensusTotal(census, d) == counts.evaluations
    {
      CensusSums(py, ps, ks, evaluated, |evaluated|, d);
    }
  }

  lemma CandidatesFit(pk: Option<string>, keys: Keys)
    ensures |Candidates(pk, keys)| <= |keys|
  {
    var none := seq(|keys|, _ => Rejected);
    IndexedRowIsFullRow(none, pk, keys, AnyKept);
  }

  function CensusTotal(census: map<(Dim, Verdict), nat>, d: Dim): int {
    if (d, Match) in census && (d, Mismatch) in census && (d, Unresolved) in census then
      census[(d, Match)] + census[(d, Mismatch)] + census[(d, Unresolved)]
    else -1
  }

  method CountPair(census: map<(Dim, Verdict), nat>, py: Runtime, ps: seq<Contract>, ks: seq<Contract>,
                   ghost pairs: seq<(nat, nat)>, i: nat, j: nat)
    returns (after: map<(Dim, Verdict), nat>)
    requires i < |ps| && j < |ks| && ValidPairs(pairs, ps, ks) && CensusOf(census, py, ps, ks, pairs)
    ensures ValidPairs(pairs + [(i, j)], ps, ks) && CensusOf(after, py, ps, ks, pairs + [(i, j)])
  {
    after := RecordPair(census, py, ps[i], ks[j]);
    forall d: Dim, v: Verdict
      ensures (d, v) in after && after[(d, v)] == Census(py, ps, ks, pairs + [(i, j)], |pairs| + 1, d, v)
    {
      CensusPrefix(py, ps, ks, pairs, [(i, j)], |pairs|, d, v);
    }
  }
}
