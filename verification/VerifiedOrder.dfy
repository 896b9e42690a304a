// In which order the index lists the verified pairs, against the order of the
// all-by-all loop (research/run85_phasex_run.py, lines 300-393).
module VerifiedOrder {
  import opened Wrappers
  import opened PyText
  import opened EquivalenceGate
  import opened PairOutcomes
  import opened CandidateIndex

  function FullRowList(py: Runtime, p: Contract, ks: seq<Contract>, i: nat): seq<(nat, nat)> {
    RowVerified(RowOf(py, p, ks), i, Range(|ks|), |ks|)
  }

  function AllByAllRows(py: Runtime, ps: seq<Contract>, ks: seq<Contract>): nat -> seq<(nat, nat)> {
    (i: nat) => if i < |ps| then FullRowList(py, ps[i], ks, i) else []
  }

  /** The verified pairs of the first n rows in the order of the all-by-all loop. */
  function AllByAllList(py: Runtime, ps: seq<Contract>, ks: seq<Contract>, n: nat): seq<(nat, nat)> {
    Concat(AllByAllRows(py, ps, ks), n)
  }

  // ---- one row ------------------------------------------------------------

  /** A verified column without a key stands before a verified one of the row's own key. */
  ghost predicate Inverts(row: Row, pk: Option<string>, keys: Keys, u: nat, j: nat) {
    && u < j < |keys| && |row| == |keys| && keys[u] == None && keys[j] == pk
    && row[u].Verified? && row[j].Verified?
  }

  ghost predicate RowInverted(row: Row, pk: Option<string>, keys: Keys) {
    pk.Some? && exists u, j :: Inverts(row, pk, keys, u, j)
  }

  lemma RowVerifiedAppend(row: Row, i: nat, js: seq<nat>, j: nat)
    requires Columns(js, |row|) && j < |row|
    ensures Columns(js + [j], |row|)
    ensures RowVerified(row, i, js + [j], |js| + 1)
        == RowVerified(row, i, js, |js|) + (if row[j].Verified? then [(i, j)] else [])
  {
    RowVerifiedPrefix(row, i, js, [j], |js|);
  }

  lemma {:induction false} RowVerifiedPrefix(row: Row, i: nat, xs: seq<nat>, ys: seq<nat>, t: nat)
    requires Columns(xs, |row|) && Columns(ys, |row|) && t <= |xs|
    ensures Columns(xs + ys, |row|)
    ensures RowVerified(row, i, xs + ys, t) == RowVerified(row, i, xs, t)
  {
    if t > 0 {
      RowVerifiedPrefix(row, i, xs, ys, t - 1);
    }
  }

  lemma {:induction false} RowVerifiedConcat(row: Row, i: nat, xs: seq<nat>, ys: seq<nat>, t: nat)
    requires Columns(xs, |row|) && Columns(ys, |row|) && t <= |ys|
    ensures Columns(xs + ys, |row|)
    ensures RowVerified(row, i, xs + ys, |xs| + t) == RowVerified(row, i, xs, |xs|) + RowVerified(row, i, ys, t)
  {
    if t > 0 {
      RowVerifiedConcat(row, i, xs, ys, t - 1);
      assert (xs + ys)[|xs| + t - 1] == ys[t - 1];
    } else {
      RowVerifiedPrefix(row, i, xs, ys, |xs|);
    }
  }

  /** The verified columns of one key among the first n. */
  function OfKey(row: Row, i: nat, keys: Keys, n: nat, key: Option<string>): seq<(nat, nat)>
    requires n <= |keys| == |row|
  {
    var js := Keyed(keys, n, key);
    RowVerified(row, i, js, |js|)
  }

  lemma OfKeyGrows(row: Row, i: nat, keys: Keys, n: nat, next: nat, key: Option<string>)
    requires next == n + 1 && next <= |keys| == |row|
    ensures OfKey(row, i, keys, next, key)
         == OfKey(row, i, keys, n, key) + (if keys[n] == key && row[n].Verified? then [(i, n)] else [])
  {
    if keys[n] == key {
      RowVerifiedAppend(row, i, Keyed(keys, n, key), n);
    }
  }

  lemma KeyInRow(row: Row, i: nat, keys: Keys, n: nat, key: Option<string>, j: nat)
    requires n <= |keys| == |row| && j < n && keys[j] == key && row[j].Verified?
    ensures (i, j) in OfKey(row, i, keys, n, key)
  {
    var js := Keyed(keys, n, key);
    KeyedMembers(keys, n, key);
    RowVerifiedMembers(row, i, js, |js|);
    assert js[..|js|] == js;
  }

  lemma FromRow(row: Row, i: nat, keys: Keys, n: nat, key: Option<string>, x: (nat, nat))
    requires n <= |keys| == |row| && x in OfKey(row, i, keys, n, key)
    ensures x.0 == i && x.1 < n && keys[x.1] == key && row[x.1].Verified?
  {
    var js := Keyed(keys, n, key);
    KeyedMembers(keys, n, key);
    RowVerifiedMembers(row, i, js, |js|);
    assert js[..|js|] == js;
  }

  /** Without an inversion, key by key is left to right. */
  lemma {:induction false} UninvertedInOrder(row: Row, i: nat, pk: Option<string>, keys: Keys, n: nat)
    requires n <= |keys| == |row| && pk.Some? && DropsOnlyRejected(row, pk, keys) && !RowInverted(row, pk, keys)
    ensures OfKey(row, i, keys, n, pk) + OfKey(row, i, keys, n, None) == RowVerified(row, i, Range(|keys|), n)
  {
    if n > 0 {
      var m := n - 1;
      UninvertedInOrder(row, i, pk, keys, m);
      OfKeyGrows(row, i, keys, m, n, pk);
      OfKeyGrows(row, i, keys, m, n, None);
      if keys[m] == pk && row[m].Verified? {
        NoneBefore(row, i, pk, keys, m);
      }
    }
  }

  lemma NoneBefore(row: Row, i: nat, pk: Option<string>, keys: Keys, m: nat)
    requires m < |keys| == |row| && pk.Some? && keys[m] == pk && row[m].Verified? && !RowInverted(row, pk, keys)
    ensures OfKey(row, i, keys, m, None) == []
  {
    if OfKey(row, i, keys, m, None) != [] {
      var x := OfKey(row, i, keys, m, None)[0];
      FromRow(row, i, keys, m, None, x);
      assert Inverts(row, pk, keys, x.1, m);
    }
  }

  ghost predicate Rising(v: seq<(nat, nat)>, n: nat) {
    && (forall s :: 0 <= s < |v| ==> v[s].1 < n)
    && (forall s, t :: 0 <= s < t < |v| ==> v[s].1 < v[t].1)
  }

  lemma RisesFurther(v: seq<(nat, nat)>, n: nat, next: nat, x: (nat, nat))
    requires Rising(v, n) && next == n + 1 && x.1 == n
    ensures Rising(v + [x], next) && Rising(v, next)
  {
  }

  /** Left to right, columns only rise. */
  lemma {:induction false} RangeAscends(row: Row, i: nat, n: nat)
    requires n <= |row|
    ensures Rising(RowVerified(row, i, Range(|row|), n), n)
  {
    if n > 0 {
      var m := n - 1;
      RangeAscends(row, i, m);
      RisesFurther(RowVerified(row, i, Range(|row|), m), m, n, (i, m));
    }
  }

  lemma InvertedOutOfOrder(row: Row, i: nat, pk: Option<string>, keys: Keys)
    requires |keys| == |row| && RowInverted(row, pk, keys)
    ensures OfKey(row, i, keys, |keys|, pk) + OfKey(row, i, keys, |keys|, None)
        != RowVerified(row, i, Range(|keys|), |keys|)
  {
    var u: nat, j: nat :| Inverts(row, pk, keys, u, j);
    var same, unkeyed := OfKey(row, i, keys, |keys|, pk), OfKey(row, i, keys, |keys|, None);
    KeyInRow(row, i, keys, |keys|, pk, j);
    KeyInRow(row, i, keys, |keys|, None, u);
    var s :| 0 <= s < |same| && same[s] == (i, j);
    var t :| 0 <= t < |unkeyed| && unkeyed[t] == (i, u);
    var all := same + unkeyed;
    assert all[s] == (i, j) && all[|same| + t] == (i, u);
    RangeAscends(row, i, |keys|);
  }

  /** A row's list keeps the reference's order exactly when it has no inversion. */
  lemma RowOrderKeptIff(row: Row, i: nat, pk: Option<string>, keys: Keys)
    requires |keys| == |row| && (pk.Some? ==> DropsOnlyRejected(row, pk, keys))
    ensures var cand := Candidates(pk, keys);
      RowVerified(row, i, cand, |cand|) == RowVerified(row, i, Range(|keys|), |keys|) <==> !RowInverted(row, pk, keys)
  {
    if pk.Some? {
      var same, unkeyed := Keyed(keys, |keys|, pk), Keyed(keys, |keys|, None);
      RowVerifiedConcat(row, i, same, unkeyed, |unkeyed|);
      if RowInverted(row, pk, keys) {
        InvertedOutOfOrder(row, i, pk, keys);
      } else {
        UninvertedInOrder(row, i, pk, keys, |keys|);
      }
    }
  }

  // ---- the whole list -----------------------------------------------------

  lemma {:induction false} RowVerifiedCount(row: Row, i: nat, js: seq<nat>, t: nat)
    requires t <= |js| && Columns(js, |row|)
    ensures |RowVerified(row, i, js, t)| == RowCount(row, js, t, AnyVerified)
  {
    if t > 0 {
      RowVerifiedCount(row, i, js, t - 1);
    }
  }

  lemma RowListsEquallyLong(py: Runtime, p: Contract, ks: seq<Contract>, i: nat)
    ensures |RowList(py, p, ks, i)| == |FullRowList(py, p, ks, i)|
  {
    var pk, keys, row := EventOf(py, p), KeysOf(py, ks), RowOf(py, p, ks);
    var cand := Candidates(pk, keys);
    if pk.Some? {
      IndexDropsOnlyRejected(py, p, ks);
    }
    IndexedRowIsFullRow(row, pk, keys, AnyVerified);
    RowVerifiedCount(row, i, cand, |cand|);
    RowVerifiedCount(row, i, Range(|ks|), |ks|);
    RangeCount(row, |ks|, |ks|, AnyVerified);
  }

  lemma SplitEqual(xs: seq<(nat, nat)>, a: seq<(nat, nat)>, ys: seq<(nat, nat)>, b: seq<(nat, nat)>)
    requires |a| == |b|
    ensures xs + a == ys + b <==> xs == ys && a == b
  {
    if xs + a == ys + b {
      assert |xs| == |ys|;
      assert (xs + a)[..|xs|] == xs && (ys + b)[..|xs|] == ys;
      assert (xs + a)[|xs|..] == a && (ys + b)[|xs|..] == b;
    }
  }

  /** Equally long rows: the wholes are equal exactly when all rows are. */
  lemma {:induction false} ConcatAgreesIff(f: nat -> seq<(nat, nat)>, g: nat -> seq<(nat, nat)>, n: nat)
    requires forall i: nat :: i < n ==> |f(i)| == |g(i)|
    ensures Concat(f, n) == Concat(g, n) <==> forall i: nat :: i < n ==> f(i) == g(i)
  {
    if n > 0 {
      ConcatAgreesIff(f, g, n - 1);
      SplitEqual(Concat(f, n - 1), f(n - 1), Concat(g, n - 1), g(n - 1));
    }
  }

  lemma {:induction false} ConcatOfNothing(f: nat -> seq<(nat, nat)>, n: nat)
    requires forall i: nat :: i < n ==> f(i) == []
    ensures Concat(f, n) == []
  {
    if n > 0 {
      ConcatOfNothing(f, n - 1);
    }
  }

  /** For contract p an unkeyed Kalshi contract it is verified against precedes an
      equally titled one it is verified against. */
  ghost predicate Inverted(py: Runtime, p: Contract, ks: seq<Contract>) {
    RowInverted(RowOf(py, p, ks), EventOf(py, p), KeysOf(py, ks))
  }

  /** The list classify_pairs returns is the all-by-all loop's, order included,
      exactly when no PMUS contract has such an inversion. */
  lemma ListsAgreeIff(py: Runtime, ps: seq<Contract>, ks: seq<Contract>)
    ensures IndexedList(py, ps, ks, |ps|) == AllByAllList(py, ps, ks, |ps|)
       <==> forall i :: 0 <= i < |ps| ==> !Inverted(py, ps[i], ks)
  {
    var f, g := IndexedRows(py, ps, ks), AllByAllRows(py, ps, ks);
    forall i: nat | i < |ps|
      ensures |f(i)| == |g(i)| && (f(i) == g(i) <==> !Inverted(py, ps[i], ks))
    {
      RowAgreesIff(py, ps[i], ks, i);
      RowListsEquallyLong(py, ps[i], ks, i);
    }
    ConcatAgreesIff(f, g, |ps|);
  }

  lemma RowAgreesIff(py: Runtime, p: Contract, ks: seq<Contract>, i: nat)
    ensures RowList(py, p, ks, i) == FullRowList(py, p, ks, i) <==> !Inverted(py, p, ks)
  {
    if EventOf(py, p).Some? {
      IndexDropsOnlyRejected(py, p, ks);
    }
    RowOrderKeptIff(RowOf(py, p, ks), i, EventOf(py, p), KeysOf(py, ks));
  }

  /** With no numeric Kalshi title there is no inversion, so the order is kept. */
  lemma OrderKeptWithoutNumericTitles(py: Runtime, ps: seq<Contract>, ks: seq<Contract>)
    requires forall j :: 0 <= j < |ks| ==> !ks[j].half(UnderlyingEvent).Num?
    ensures IndexedList(py, ps, ks, |ps|) == AllByAllList(py, ps, ks, |ps|)
  {
    forall i | 0 <= i < |ps|
      ensures !Inverted(py, ps[i], ks)
    {
      if Inverted(py, ps[i], ks) {
        NumericTitlesInvert(py, ps[i], ks);
      }
    }
    ListsAgreeIff(py, ps, ks);
  }

  lemma NumericTitlesInvert(py: Runtime, p: Contract, ks: seq<Contract>)
    requires Inverted(py, p, ks)
    ensures exists u :: 0 <= u < |ks| && ks[u].half(UnderlyingEvent).Num?
  {
    var row, pk, keys := RowOf(py, p, ks), EventOf(py, p), KeysOf(py, ks);
    var u: nat, j: nat :| Inverts(row, pk, keys, u, j);
    if !ks[u].half(UnderlyingEvent).Num? {
      UnkeyedStringNeverVerified(py, p, ks[u]);
    }
  }

  lemma UnkeyedStringNeverVerified(py: Runtime, p: Contract, k: Contract)
    requires EventOf(py, p).Some? && EventOf(py, k).None? && !k.half(UnderlyingEvent).Num?
    ensures !OutcomeOf(py, p, k).Verified?
  {
    GateMeaning(py, p, k);
    assert Result(py, p, k, UnderlyingEvent) != Match;
  }

  /** The shipped halves publish no proposition on either side, so no pair is ever
      verified and both lists are empty. */
  lemma ShippedListsAreEmpty(py: Runtime, ps: seq<Contract>, ks: seq<Contract>)
    requires forall i :: 0 <= i < |ps| ==> ps[i].half(Proposition) == Missing
    requires forall j :: 0 <= j < |ks| ==> ks[j].half(Proposition) == Missing
    ensures forall i, j :: 0 <= i < |ps| && 0 <= j < |ks| ==> !OutcomeOf(py, ps[i], ks[j]).Verified?
    ensures IndexedList(py, ps, ks, |ps|) == [] == AllByAllList(py, ps, ks, |ps|)
  {
    forall i, j | 0 <= i < |ps| && 0 <= j < |ks|
      ensures !OutcomeOf(py, ps[i], ks[j]).Verified?
    {
      UnresolvedIffSilent(py, ps[i].half(Proposition), ks[j].half(Proposition));
      assert Result(py, ps[i], ks[j], Proposition) != Match;
      GateMeaning(py, ps[i], ks[j]);
    }
    var f, g := IndexedRows(py, ps, ks), AllByAllRows(py, ps, ks);
    forall i: nat | i < |ps|
      ensures f(i) == [] == g(i)
    {
      NothingInRow(py, ps[i], ks, i);
    }
    ConcatOfNothing(f, |ps|);
    ConcatOfNothing(g, |ps|);
  }

  lemma NothingInRow(py: Runtime, p: Contract, ks: seq<Contract>, i: nat)
    requires forall j :: 0 <= j < |ks| ==> !OutcomeOf(py, p, ks[j]).Verified?
    ensures RowList(py, p, ks, i) == [] == FullRowList(py, p, ks, i)
  {
    var row, cand := RowOf(py, p, ks), Candidates(EventOf(py, p), KeysOf(py, ks));
    NoneVerified(row, i, cand, |cand|);
    NoneVerified(row, i, Range(|ks|), |ks|);
  }

  lemma {:induction false} NoneVerified(row: Row, i: nat, js: seq<nat>, t: nat)
    requires t <= |js| && Columns(js, |row|) && forall j :: 0 <= j < |row| ==> !row[j].Verified?
    ensures RowVerified(row, i, js, t) == []
  {
    if t > 0 {
      NoneVerified(row, i, js, t - 1);
    }
  }

  // ---- an inversion -------------------------------------------------------

  const FIVE_PARSES := Runtime(c => c, s => if s == "5" then Some(Finite(5.0)) else None)
  const TITLED_FIVE := Contract(true, d => Str("5"))
  const NUMBERED_FIVE := Contract(true, d => if d == UnderlyingEvent then Num(Finite(5.0)) else Str("5"))

  lemma FiveVerifies(k: Contract)
    requires k == TITLED_FIVE || k == NUMBERED_FIVE
    ensures OutcomeOf(FIVE_PARSES, TITLED_FIVE, k) == Verified
  {
    forall d: Dim
      ensures Result(FIVE_PARSES, TITLED_FIVE, k, d) == Match
    {
      FiveMatches(k.half(d));
    }
    GateMeaning(FIVE_PARSES, TITLED_FIVE, k);
  }

  lemma FiveMatches(v: Value)
    requires v == Str("5") || v == Num(Finite(5.0))
    ensures CompareDimension(FIVE_PARSES, Str("5"), v) == Match
  {
    assert FIVE_PARSES.parse("5") == Some(Finite(5.0));
  }

  lemma FiveKeys()
    ensures EventOf(FIVE_PARSES, TITLED_FIVE) == Some("5") && EventOf(FIVE_PARSES, NUMBERED_FIVE) == None
  {
    TrimmedStrips("5");
    assert TITLED_FIVE.half(UnderlyingEvent) == Str("5");
    assert Lower(FIVE_PARSES.low, "5") == "5";
  }

  /** Where halves do publish a proposition, a numeric Kalshi title ahead of an equal
      string title is an inversion, and the two lists differ. */
  lemma OrderCanDiffer()
    ensures var ps, ks := [TITLED_FIVE], [NUMBERED_FIVE, TITLED_FIVE];
      IndexedList(FIVE_PARSES, ps, ks, 1) != AllByAllList(FIVE_PARSES, ps, ks, 1)
  {
    var ps, ks := [TITLED_FIVE], [NUMBERED_FIVE, TITLED_FIVE];
    FiveInverts(ks);
    ListsAgreeIff(FIVE_PARSES, ps, ks);
    assert Inverted(FIVE_PARSES, ps[0], ks);
  }

  lemma FiveInverts(ks: seq<Contract>)
    requires ks == [NUMBERED_FIVE, TITLED_FIVE]
    ensures Inverted(FIVE_PARSES, TITLED_FIVE, ks)
  {
    FiveKeys();
    FiveVerifies(ks[0]);
    FiveVerifies(ks[1]);
    assert Inverts(RowOf(FIVE_PARSES, TITLED_FIVE, ks), Some("5"), KeysOf(FIVE_PARSES, ks), 0, 1);
  }
}
