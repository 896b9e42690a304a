// What the replays of one stream must agree on.
module ReplayAgreement {
  import opened Wrappers
  import opened PriceKeys
  import opened BookState
  import opened BookReplay
  import opened LastWriter

  // ---- scoring and attribution count the same disagreements ---------------

  /** Every differing level of a side is wrong in the attribution, touched or not. */
  lemma SideWrongIsDiff(s: Side, r: Levels, t: Levels, touched: set<Slot>)
    ensures var a := SideAttribution(s, r, t, touched); a.updatedWrong + a.notUpdatedWrong == |DiffKeys(r, t)|
  {
    var hit, miss := LevelsWhere(s, r, t, touched, true, false), LevelsWhere(s, r, t, touched, false, false);
    assert DiffKeys(r, t) == hit + miss && hit !! miss;
  }

  function TotalDiff(cs: seq<Checkpoint>): nat {
    if cs == [] then 0
    else TotalDiff(cs[..|cs| - 1]) + cs[|cs| - 1].score.bidDiff + cs[|cs| - 1].score.askDiff
  }

  function WrongIn(a: Attribution): nat {
    a.updatedWrong + a.notUpdatedWrong
  }

  /** How many levels a book differs at from the state it is compared with. */
  function DiffHere(state: Option<BookValue>, it: Item, key: Key): nat {
    if IsBook(it, key) && state.Some? then DiffFrom(state.value, FromSnapshotValue(it.event.book)) else 0
  }

  function DiffFrom(recon: BookValue, truth: BookValue): nat {
    |DiffKeys(recon.bids, truth.bids)| + |DiffKeys(recon.asks, truth.asks)|
  }

  lemma WrongIsDiffHere(w: Window, it: Item, key: Key)
    ensures WrongIn(Attributed(w, it, key)) == DiffHere(w.state, it, key)
  {
    if IsBook(it, key) && w.state.Some? {
      CheckpointWrongIsDiff(w.state.value, FromSnapshotValue(it.event.book), w.touched, w.zeroed);
    }
  }

  lemma ScoredIsDiffHere(stream: seq<Item>, n: nat, key: Key)
    requires n < |stream|
    ensures TotalDiff(ScoredAt(AbsoluteModel, stream, n, key))
         == DiffHere(Replay(AbsoluteModel, stream, n, key), stream[n], key)
  {
    var here := ScoredAt(AbsoluteModel, stream, n, key);
    if here != [] {
      assert here[..0] == [];
    }
  }

  /** How many levels differ at each item. */
  function DiffPerItem(stream: seq<Item>, key: Key): nat -> nat {
    (i: nat) => if i < |stream| then DiffHere(Replay(AbsoluteModel, stream, i, key), stream[i], key) else 0
  }

  function Sum(ds: nat -> nat, n: nat): nat {
    if n == 0 then 0 else Sum(ds, n - 1) + ds(n - 1)
  }

  lemma {:induction false} TotalWrong(per: nat -> Attribution, ds: nat -> nat, n: nat)
    requires forall i: nat :: i < n ==> WrongIn(per(i)) == ds(i)
    ensures WrongIn(Totals(per, n)) == Sum(ds, n)
  {
    if n > 0 {
      TotalWrong(per, ds, n - 1);
    }
  }

  lemma {:induction false} DiffsOfRows(rows: nat -> seq<Checkpoint>, ds: nat -> nat, n: nat)
    requires forall i: nat :: i < n ==> TotalDiff(rows(i)) == ds(i)
    ensures TotalDiff(Concat(rows, n)) == Sum(ds, n)
  {
    if n > 0 {
      DiffsOfRows(rows, ds, n - 1);
      TotalDiffConcat(Concat(rows, n - 1), rows(n - 1));
    }
  }

  lemma ItemAgrees(stream: seq<Item>, i: nat, key: Key)
    requires i < |stream|
    ensures WrongIn(PerItem(stream, key)(i)) == DiffPerItem(stream, key)(i)
    ensures TotalDiff(Scored(AbsoluteModel, stream, key)(i)) == DiffPerItem(stream, key)(i)
  {
    WrongIsDiffHere(WindowAt(stream, i, key), stream[i], key);
    WindowFollowsReplay(stream, i, key);
    ScoredIsDiffHere(stream, i, key);
  }

  /** Wrong levels over a whole replay are the differing levels over its checkpoints. */
  lemma WrongIsTotalDiff(stream: seq<Item>, n: nat, key: Key)
    requires n <= |stream|
    ensures WrongIn(Attributions(stream, n, key)) == TotalDiff(Checkpoints(AbsoluteModel, stream, n, key))
  {
    var per, rows, ds := PerItem(stream, key), Scored(AbsoluteModel, stream, key), DiffPerItem(stream, key);
    forall i: nat | i < n
      ensures WrongIn(per(i)) == ds(i) && TotalDiff(rows(i)) == ds(i)
    {
      ItemAgrees(stream, i, key);
    }
    TotalWrong(per, ds, n);
    DiffsOfRows(rows, ds, n);
  }

  lemma {:induction false} TotalDiffConcat(cs: seq<Checkpoint>, ds: seq<Checkpoint>)
    ensures TotalDiff(cs + ds) == TotalDiff(cs) + TotalDiff(ds)
  {
    if ds == [] {
      assert cs + ds == cs;
    } else {
      assert (cs + ds)[..|cs + ds| - 1] == cs + ds[..|ds| - 1];
      TotalDiffConcat(cs, ds[..|ds| - 1]);
    }
  }

  lemma CheckpointWrongIsDiff(recon: BookValue, truth: BookValue, touched: set<Slot>, zeroed: set<Slot>)
    ensures WrongIn(CheckpointAttribution(recon, truth, touched, zeroed)) == DiffFrom(recon, truth)
  {
    SideWrongIsDiff(Buy, recon.bids, truth.bids, touched);
    SideWrongIsDiff(Sell, recon.asks, truth.asks, touched);
  }

  /** The wrong levels the attribution counts over sessions and tokens. */
  function WrongOver(stream: seq<Item>, keys: seq<Key>): nat {
    if keys == [] then 0
    else WrongOver(stream, keys[..|keys| - 1]) + WrongIn(Attributions(stream, |stream|, keys[|keys| - 1]))
  }

  /** The same over every session and token, against the checkpoints ScoreModel lists. */
  lemma {:induction false} ReplaysAgree(stream: seq<Item>, keys: seq<Key>)
    ensures WrongOver(stream, keys) == TotalDiff(AllCheckpoints(AbsoluteModel, stream, keys))
  {
    if keys != [] {
      var init, last := keys[..|keys| - 1], keys[|keys| - 1];
      ReplaysAgree(stream, init);
      WrongIsTotalDiff(stream, |stream|, last);
      TotalDiffConcat(AllCheckpoints(AbsoluteModel, stream, init), Checkpoints(AbsoluteModel, stream, |stream|, last));
    }
  }

  // ---- no zero is stored --------------------------------------------------

  ghost predicate NoZeros(m: Levels) {
    forall p :: p in m ==> m[p] != 0.0
  }

  ghost predicate StoresNoZero(b: BookValue) {
    NoZeros(b.bids) && NoZeros(b.asks)
  }

  lemma {:induction false} SnapshotStoresNoZero(levels: seq<QuoteLevel>)
    ensures NoZeros(SnapshotSide(levels))
  {
    if levels != [] {
      SnapshotStoresNoZero(levels[..|levels| - 1]);
    }
  }

  lemma {:induction false} ChangesStoreNoZero(model: Model, b: BookValue, changes: seq<Change>, token: nat)
    requires StoresNoZero(b)
    ensures StoresNoZero(ApplyAll(model, b, changes, token))
  {
    if changes != [] {
      ChangesStoreNoZero(model, b, changes[..|changes| - 1], token);
    }
  }

  /** No reachable book stores a zero, under either rule. */
  lemma {:induction false} ReplayStoresNoZero(model: Model, stream: seq<Item>, n: nat, key: Key)
    requires n <= |stream|
    ensures var st := Replay(model, stream, n, key); st.Some? ==> StoresNoZero(st.value)
  {
    if n > 0 {
      ReplayStoresNoZero(model, stream, n - 1, key);
      var before, it := Replay(model, stream, n - 1, key), stream[n - 1];
      if IsBook(it, key) {
        SnapshotStoresNoZero(it.event.book.bids);
        SnapshotStoresNoZero(it.event.book.asks);
      } else if IsChange(it, key) && before.Some? {
        ChangesStoreNoZero(model, before.value, it.event.changes, key.token);
      }
    }
  }

  // ---- what the attribution categories mean -------------------------------

  /** The window's sets describe its changes: an untouched level is still the
      snapshot's, an outstanding zero is touched and absent from the state. */
  ghost predicate Describes(w: Window) {
    && (w.base.Some? <==> w.state.Some?)
    && (w.state.Some? ==>
        && StoresNoZero(w.state.value)
        && (forall z: Slot :: z !in w.touched ==>
            SizeAt(SideOf(w.state.value, z.0), z.1) == SizeAt(SideOf(w.base.value, z.0), z.1))
        && (forall z :: z in w.zeroed ==> z in w.touched && z.1 !in SideOf(w.state.value, z.0)))
  }

  lemma {:induction false} ZeroedMeaning(changes: seq<Change>, token: nat, zeroed: set<Slot>, z: Slot)
    ensures z in ZeroedBy(changes, token, zeroed)
       <==> match LastWritten(changes, token, z) case Some(size) => size == 0.0 case None => z in zeroed
  {
    if changes != [] {
      ZeroedMeaning(changes[..|changes| - 1], token, zeroed, z);
    }
  }

  lemma {:induction false} WindowDescribes(stream: seq<Item>, n: nat, key: Key)
    requires n <= |stream|
    ensures Describes(WindowAt(stream, n, key))
  {
    if n > 0 {
      WindowDescribes(stream, n - 1, key);
      var w, it := WindowAt(stream, n - 1, key), stream[n - 1];
      if IsBook(it, key) {
        SnapshotStoresNoZero(it.event.book.bids);
        SnapshotStoresNoZero(it.event.book.asks);
      } else if IsChange(it, key) && w.state.Some? {
        ChangesDescribed(w, it.event.changes, key.token);
        ChangesStoreNoZero(AbsoluteModel, w.state.value, it.event.changes, key.token);
      }
    }
  }

  lemma ChangesDescribed(w: Window, changes: seq<Change>, token: nat)
    requires Describes(w) && w.state.Some?
    ensures var st := ApplyAll(AbsoluteModel, w.state.value, changes, token);
      && (forall z: Slot :: z !in w.touched + TouchedBy(changes, token) ==>
            SizeAt(SideOf(st, z.0), z.1) == SizeAt(SideOf(w.base.value, z.0), z.1))
      && (forall z :: z in ZeroedBy(changes, token, w.zeroed) ==>
          z in w.touched + TouchedBy(changes, token) && z.1 !in SideOf(st, z.0))
  {
    forall z: Slot
      ensures var st := ApplyAll(AbsoluteModel, w.state.value, changes, token);
        && (z !in w.touched + TouchedBy(changes, token) ==>
            SizeAt(SideOf(st, z.0), z.1) == SizeAt(SideOf(w.base.value, z.0), z.1))
        && (z in ZeroedBy(changes, token, w.zeroed) ==>
            z in w.touched + TouchedBy(changes, token) && z.1 !in SideOf(st, z.0))
    {
      LastChangeWins(w.state.value, changes, token, z);
      WrittenIffTouched(changes, token, z);
      ZeroedMeaning(changes, token, w.zeroed, z);
    }
  }

  /** A not-updated wrong level is exactly one that no change touched since the
      last book and at which the two consecutive snapshots differ. */
  lemma NotUpdatedWrongMeaning(stream: seq<Item>, n: nat, key: Key, truth: BookValue, z: Slot)
    requires n <= |stream| && WindowAt(stream, n, key).state.Some?
    ensures var w := WindowAt(stream, n, key);
      && w.base.Some?
      && (z.1 in LevelsWhere(z.0, SideOf(w.state.value, z.0), SideOf(truth, z.0), w.touched, false, false)
          <==> z !in w.touched && SizeAt(SideOf(w.base.value, z.0), z.1) != SizeAt(SideOf(truth, z.0), z.1))
  {
    WindowDescribes(stream, n, key);
  }

  /** A level left at zero and present again in the next book is one of the updated
      wrong ones; a level left at zero and absent is in neither book. */
  lemma ZeroedMeansUpdatedWrong(stream: seq<Item>, n: nat, key: Key, truth: BookValue, z: Slot)
    requires n <= |stream| && WindowAt(stream, n, key).state.Some? && StoresNoZero(truth)
    requires z in WindowAt(stream, n, key).zeroed
    ensures var w := WindowAt(stream, n, key);
      if z in PresentAgain(truth, w.zeroed) then
        z.1 in LevelsWhere(z.0, SideOf(w.state.value, z.0), SideOf(truth, z.0), w.touched, true, false)
      else z.1 !in SideOf(w.state.value, z.0).Keys + SideOf(truth, z.0).Keys
  {
    WindowDescribes(stream, n, key);
  }

  function OnSide(s: Side, zs: set<Slot>): set<string> {
    set z | z in zs && z.0 == s :: z.1
  }

  lemma {:induction false} SlotsBySide(zs: set<Slot>)
    ensures |zs| == |OnSide(Buy, zs)| + |OnSide(Sell, zs)|
  {
    if zs != {} {
      var z :| z in zs;
      var rest := zs - {z};
      SlotsBySide(rest);
      forall s: Side
        ensures |OnSide(s, zs)| == |OnSide(s, rest)| + (if z.0 == s then 1 else 0)
      {
        if z.0 == s {
          assert OnSide(s, zs) == OnSide(s, rest) + {z.1};
        } else {
          assert OnSide(s, zs) == OnSide(s, rest);
        }
      }
      assert |zs| == |rest| + 1;
    }
  }

  lemma CheckpointPresentAgain(stream: seq<Item>, n: nat, key: Key, truth: BookValue)
    requires n <= |stream| && WindowAt(stream, n, key).state.Some? && StoresNoZero(truth)
    ensures var w := WindowAt(stream, n, key);
      var a := CheckpointAttribution(w.state.value, truth, w.touched, w.zeroed);
      a.presentAgain <= a.updatedWrong
  {
    var w := WindowAt(stream, n, key);
    var again := PresentAgain(truth, w.zeroed);
    SlotsBySide(again);
    SideAgainAtMostWrong(stream, n, key, truth, Buy);
    SideAgainAtMostWrong(stream, n, key, truth, Sell);
  }

  lemma SideAgainAtMostWrong(stream: seq<Item>, n: nat, key: Key, truth: BookValue, s: Side)
    requires n <= |stream| && WindowAt(stream, n, key).state.Some? && StoresNoZero(truth)
    ensures var w := WindowAt(stream, n, key);
      |OnSide(s, PresentAgain(truth, w.zeroed))|
        <= |LevelsWhere(s, SideOf(w.state.value, s), SideOf(truth, s), w.touched, true, false)|
  {
    var w := WindowAt(stream, n, key);
    var again := OnSide(s, PresentAgain(truth, w.zeroed));
    var wrong := LevelsWhere(s, SideOf(w.state.value, s), SideOf(truth, s), w.touched, true, false);
    forall p | p in again
      ensures p in wrong
    {
      assert (s, p) in PresentAgain(truth, w.zeroed);
      ZeroedMeansUpdatedWrong(stream, n, key, truth, (s, p));
    }
    SubsetNoLarger(again, wrong);
  }

  ghost predicate AgainAtMostWrong(a: Attribution) {
    a.presentAgain <= a.updatedWrong
  }

  lemma {:induction false} TotalAgainAtMostWrong(per: nat -> Attribution, n: nat)
    requires forall i: nat :: i < n ==> AgainAtMostWrong(per(i))
    ensures AgainAtMostWrong(Totals(per, n))
  {
    if n > 0 {
      TotalAgainAtMostWrong(per, n - 1);
    }
  }

  /** Over a whole replay, no more levels are present again than are updated wrong. */
  lemma PresentAgainAtMostWrong(stream: seq<Item>, n: nat, key: Key)
    requires n <= |stream|
    ensures Attributions(stream, n, key).presentAgain <= Attributions(stream, n, key).updatedWrong
  {
    var per := PerItem(stream, key);
    forall i: nat | i < n
      ensures AgainAtMostWrong(per(i))
    {
      PresentAgainHere(stream, i, key);
    }
    TotalAgainAtMostWrong(per, n);
  }

  lemma PresentAgainHere(stream: seq<Item>, n: nat, key: Key)
    requires n < |stream|
    ensures AgainAtMostWrong(PerItem(stream, key)(n))
  {
    var it := stream[n];
    if IsBook(it, key) && WindowAt(stream, n, key).state.Some? {
      SnapshotStoresNoZero(it.event.book.bids);
      SnapshotStoresNoZero(it.event.book.asks);
      CheckpointPresentAgain(stream, n, key, FromSnapshotValue(it.event.book));
    }
  }

  // ---- every reachable book keeps canonical keys --------------------------

  ghost predicate PricesBelowTen(it: Item) {
    match it.event
    case BookEvent(_, book) => (forall lv :: lv in book.bids ==> Value(lv.price) < 10.0)
        && (forall lv :: lv in book.asks ==> Value(lv.price) < 10.0)
    case PriceChange(changes) => forall ch :: ch in changes ==> Value(ch.price) < 10.0
    case OtherEvent => true
  }

  lemma {:induction false} ChangesKeepRange(model: Model, b: BookValue, changes: seq<Change>, token: nat)
    requires InRange(b) && forall ch :: ch in changes ==> Value(ch.price) < 10.0
    ensures InRange(ApplyAll(model, b, changes, token))
  {
    if changes != [] {
      var init, ch := changes[..|changes| - 1], changes[|changes| - 1];
      ChangesKeepRange(model, b, init, token);
      assert ch in changes;
      UpdateKeepsRange(model, ApplyAll(model, b, init, token), ch);
    }
  }

  /** On a stream of prices below ten, every book either model reaches has keys of
      such prices only, so that its best keys are its best prices. */
  lemma {:induction false} ReplayInRange(model: Model, stream: seq<Item>, n: nat, key: Key)
    requires n <= |stream| && forall it :: it in stream ==> PricesBelowTen(it)
    ensures var st := Replay(model, stream, n, key); st.Some? ==> InRange(st.value)
  {
    if n > 0 {
      ReplayInRange(model, stream, n - 1, key);
      var before, it := Replay(model, stream, n - 1, key), stream[n - 1];
      assert it in stream;
      if IsBook(it, key) {
        SnapshotInRange(it.event.book.bids);
        SnapshotInRange(it.event.book.asks);
      } else if IsChange(it, key) && before.Some? {
        ChangesKeepRange(model, before.value, it.event.changes, key.token);
      }
    }
  }

  /** What best_bid and best_ask return of any reachable book is the key of its
      best price, and None exactly of an empty side. */
  lemma ReachableBestIsBestPrice(model: Model, stream: seq<Item>, n: nat, key: Key, s: Side, best: Option<string>)
    requires n <= |stream| && forall it :: it in stream ==> PricesBelowTen(it)
    requires Replay(model, stream, n, key).Some?
    requires IsBestKey(SideOf(Replay(model, stream, n, key).value, s), s, best)
    ensures var m := SideOf(Replay(model, stream, n, key).value, s);
      && (best == None <==> m == map[])
      && (forall k :: k in m ==> exists q: Dec :: IsKeyOf(k, q))
      && (best.Some? ==> exists p: Dec :: IsKeyOf(best.value, p) && IsBestPrice(m, s, p))
  {
    ReplayInRange(model, stream, n, key);
    var m := SideOf(Replay(model, stream, n, key).value, s);
    assert KeysInRange(m);
    if best.Some? {
      var p: Dec :| IsKeyOf(best.value, p);
      BestKeyIsBestPrice(m, s, best.value, p);
    }
  }

  // ---- an equal book has equal touches ------------------------------------

  lemma SameLevels(m: Levels, t: Levels)
    requires NoZeros(m) && NoZeros(t) && DiffKeys(m, t) == {}
    ensures m == t
  {
    forall p
      ensures p in m <==> p in t
      ensures p in m ==> m[p] == t[p]
    {
      assert p !in DiffKeys(m, t);
    }
  }

  ghost predicate FullMeansBest(sc: Score) {
    FullBookEqual(sc) ==> sc.bestBidEqual && sc.bestAskEqual
  }

  ghost predicate AllFullMeanBest(cs: seq<Checkpoint>) {
    forall c :: c in cs ==> FullMeansBest(c.score)
  }

  lemma {:induction false} RowsFullMeanBest(rows: nat -> seq<Checkpoint>, n: nat)
    requires forall i: nat :: i < n ==> AllFullMeanBest(rows(i))
    ensures AllFullMeanBest(Concat(rows, n))
  {
    if n > 0 {
      RowsFullMeanBest(rows, n - 1);
    }
  }

  /** Every checkpoint counted as equal in full is counted as equal at both touches. */
  lemma FullyEqualIsBestEqual(model: Model, stream: seq<Item>, n: nat, key: Key)
    requires n <= |stream|
    ensures forall c :: c in Checkpoints(model, stream, n, key) ==> FullMeansBest(c.score)
  {
    var rows := Scored(model, stream, key);
    forall i: nat | i < n
      ensures AllFullMeanBest(rows(i))
    {
      ScoredIsFair(model, stream, i, key);
    }
    RowsFullMeanBest(rows, n);
  }

  lemma ScoredIsFair(model: Model, stream: seq<Item>, n: nat, key: Key)
    requires n < |stream|
    ensures AllFullMeanBest(ScoredAt(model, stream, n, key))
  {
    var state, it := Replay(model, stream, n, key), stream[n];
    if IsBook(it, key) && state.Some? {
      ReplayStoresNoZero(model, stream, n, key);
      SnapshotStoresNoZero(it.event.book.bids);
      SnapshotStoresNoZero(it.event.book.asks);
      EqualBooksScore(state.value, FromSnapshotValue(it.event.book));
    }
  }

  lemma EqualBooksScore(recon: BookValue, truth: BookValue)
    requires StoresNoZero(recon) && StoresNoZero(truth)
    ensures FullMeansBest(Compare(recon, truth))
  {
    if FullBookEqual(Compare(recon, truth)) {
      SameLevels(recon.bids, truth.bids);
      SameLevels(recon.asks, truth.asks);
      SameTouch(recon.bids, Buy);
      SameTouch(recon.asks, Sell);
    }
  }

  lemma SameTouch(m: Levels, s: Side)
    ensures BestEqual(m, m, s)
  {
    forall a, b | IsBestKey(m, s, a) && IsBestKey(m, s, b)
      ensures a == b
    {
      BestKeyUnique(m, s, a, b);
    }
  }
}
