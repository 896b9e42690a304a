// What the rows and the tallies of a scored replay count
// (research/run836a_clob_reconstruct.py, lines 133-147, 418-457 and 482-525).
module CheckpointMeaning {
  import opened Wrappers
  import opened Counting
  import opened PriceKeys
  import opened BookState
  import opened BookReplay
  import opened LastWriter
  import opened StreamState
  import opened ReplayAgreement

  // ---- one comparison -----------------------------------------------------

  /** Every finite side has a best key, or is empty. */
  lemma {:induction false} HasBest(m: Levels, s: Side) returns (best: Option<string>)
    ensures IsBestKey(m, s, best)
    decreases |m|
  {
    if m == map[] {
      best := None;
    } else {
      var k :| k in m;
      var rest := m - {k};
      assert k !in rest && |rest.Keys| < |m.Keys| by {
        assert rest.Keys == m.Keys - {k};
      }
      var other := HasBest(rest, s);
      best := BetterOf(m, s, k, rest, other);
    }
  }

  lemma BetterOf(m: Levels, s: Side, k: string, rest: Levels, other: Option<string>) returns (best: Option<string>)
    requires k in m && rest == m - {k} && IsBestKey(rest, s, other)
    ensures IsBestKey(m, s, best)
  {
    LessIsTotal(k, k);
    if other == None {
      best := Some(k);
      assert forall j :: j in m ==> j == k || j in rest;
    } else {
      var o := other.value;
      LessIsTotal(k, o);
      best := if (if s.Buy? then Less(o, k) else Less(k, o)) then Some(k) else other;
      forall j | j in m
        ensures if s.Buy? then !Less(best.value, j) else !Less(j, best.value)
      {
        if j != k {
          assert j in rest;
          if best == Some(k) {
            if s.Buy? && Less(k, j) {
              LessIsTransitive(o, k, j);
            } else if s.Sell? && Less(j, k) {
              LessIsTransitive(j, k, o);
            }
          }
        }
      }
    }
  }

  /** Both sides are empty, or one key is best of both. */
  ghost predicate SameBest(r: Levels, t: Levels, s: Side) {
    (r == map[] && t == map[]) || exists k :: IsBestKey(r, s, Some(k)) && IsBestKey(t, s, Some(k))
  }

  lemma BestEqualIff(r: Levels, t: Levels, s: Side)
    ensures BestEqual(r, t, s) <==> SameBest(r, t, s)
  {
    var a := HasBest(r, s);
    var b := HasBest(t, s);
    BestEqualIs(r, t, s, a, b);
    if k :| IsBestKey(r, s, Some(k)) && IsBestKey(t, s, Some(k)) {
      BestKeyUnique(r, s, a, Some(k));
      BestKeyUnique(t, s, b, Some(k));
    }
  }

  ghost predicate NoRepeats(ks: seq<string>) {
    forall u, v :: 0 <= u < v < |ks| ==> ks[u] != ks[v]
  }

  function Distance(x: real, y: real): real {
    if x <= y then y - x else x - y
  }

  function TotalDistance(r: Levels, t: Levels, ks: seq<string>): real {
    if ks == [] then 0.0
    else TotalDistance(r, t, ks[1..]) + Distance(SizeAt(r, ks[0]), SizeAt(t, ks[0]))
  }

  /** The size error is the distance at every key of either side, added up in any order. */
  lemma {:induction false} ErrorIsTotal(r: Levels, t: Levels, keys: set<string>, ks: seq<string>)
    requires NoRepeats(ks) && forall k :: k in keys <==> k in ks
    ensures ErrorOver(r, t, keys) == TotalDistance(r, t, ks)
  {
    if ks == [] {
      assert keys == {};
    } else {
      var rest := ks[1..];
      forall k
        ensures k in keys - {ks[0]} <==> k in rest
      {
        assert k in ks <==> k == ks[0] || k in rest;
        if k in rest {
          var u :| 0 <= u < |rest| && rest[u] == k;
          assert ks[u + 1] == k;
        }
      }
      ErrorWithout(r, t, keys, ks[0]);
      ErrorIsTotal(r, t, keys - {ks[0]}, rest);
    }
  }

  /** What a row reports of two books, field by field. */
  lemma ScoreIs(recon: BookValue, truth: BookValue, bidKeys: seq<string>, askKeys: seq<string>)
    requires NoRepeats(bidKeys) && forall k :: k in bidKeys <==> k in recon.bids || k in truth.bids
    requires NoRepeats(askKeys) && forall k :: k in askKeys <==> k in recon.asks || k in truth.asks
    ensures var sc := Compare(recon, truth);
      && sc.bidDiff == |set k | k in bidKeys && SizeAt(recon.bids, k) != SizeAt(truth.bids, k)|
      && sc.askDiff == |set k | k in askKeys && SizeAt(recon.asks, k) != SizeAt(truth.asks, k)|
      && sc.sizeError == TotalDistance(recon.bids, truth.bids, bidKeys)
                         + TotalDistance(recon.asks, truth.asks, askKeys)
      && (sc.bestBidEqual <==> SameBest(recon.bids, truth.bids, Buy))
      && (sc.bestAskEqual <==> SameBest(recon.asks, truth.asks, Sell))
  {
    ErrorIsTotal(recon.bids, truth.bids, recon.bids.Keys + truth.bids.Keys, bidKeys);
    ErrorIsTotal(recon.asks, truth.asks, recon.asks.Keys + truth.asks.Keys, askKeys);
    BestEqualIff(recon.bids, truth.bids, Buy);
    BestEqualIff(recon.asks, truth.asks, Sell);
    assert DiffKeys(recon.bids, truth.bids)
        == set k | k in bidKeys && SizeAt(recon.bids, k) != SizeAt(truth.bids, k);
    assert DiffKeys(recon.asks, truth.asks)
        == set k | k in askKeys && SizeAt(recon.asks, k) != SizeAt(truth.asks, k);
  }

  // ---- one attribution ----------------------------------------------------

  /** The levels shown by either book. */
  function SlotsOf(recon: BookValue, truth: BookValue): set<Slot> {
    (set k | k in recon.bids.Keys + truth.bids.Keys :: (Buy, k))
    + (set k | k in recon.asks.Keys + truth.asks.Keys :: (Sell, k))
  }

  predicate Agrees(recon: BookValue, truth: BookValue, z: Slot) {
    SizeAt(SideOf(recon, z.0), z.1) == SizeAt(SideOf(truth, z.0), z.1)
  }

  /** Of those, the ones touched or not at which the two agree or not. */
  function SlotsWhere(recon: BookValue, truth: BookValue, touched: set<Slot>, hit: bool, ok: bool): set<Slot> {
    set z | z in SlotsOf(recon, truth) && Agrees(recon, truth, z) == ok && (z in touched) == hit
  }

  lemma SlotsWhereBySide(recon: BookValue, truth: BookValue, touched: set<Slot>, hit: bool, ok: bool)
    ensures |SlotsWhere(recon, truth, touched, hit, ok)|
         == |LevelsWhere(Buy, recon.bids, truth.bids, touched, hit, ok)|
            + |LevelsWhere(Sell, recon.asks, truth.asks, touched, hit, ok)|
  {
    var zs := SlotsWhere(recon, truth, touched, hit, ok);
    SlotsBySide(zs);
    OnSideIs(recon, truth, touched, hit, ok, Buy);
    OnSideIs(recon, truth, touched, hit, ok, Sell);
  }

  lemma OnSideIs(recon: BookValue, truth: BookValue, touched: set<Slot>, hit: bool, ok: bool, s: Side)
    ensures OnSide(s, SlotsWhere(recon, truth, touched, hit, ok))
         == LevelsWhere(s, SideOf(recon, s), SideOf(truth, s), touched, hit, ok)
  {
    forall k
      ensures k in OnSide(s, SlotsWhere(recon, truth, touched, hit, ok))
         <==> k in LevelsWhere(s, SideOf(recon, s), SideOf(truth, s), touched, hit, ok)
    {
      assert (s, k) in SlotsWhere(recon, truth, touched, hit, ok)
        <==> k in LevelsWhere(s, SideOf(recon, s), SideOf(truth, s), touched, hit, ok);
    }
  }

  /** The outstanding zero levels the next book does, or does not, show. */
  function ZerosShown(truth: BookValue, zeroed: set<Slot>, shown: bool): set<Slot> {
    set z | z in zeroed && (z.1 in SideOf(truth, z.0)) == shown
  }

  lemma ZerosCount(truth: BookValue, zeroed: set<Slot>)
    ensures zeroed - PresentAgain(truth, zeroed) == ZerosShown(truth, zeroed, false)
    ensures PresentAgain(truth, zeroed) == ZerosShown(truth, zeroed, true)
  {
  }

  /** Every tally of one checkpoint, as a number of levels. */
  ghost predicate Tallies(a: Attribution, recon: BookValue, truth: BookValue, touched: set<Slot>, zeroed: set<Slot>) {
    && a.updatedCorrect == |SlotsWhere(recon, truth, touched, true, true)|
    && a.updatedWrong == |SlotsWhere(recon, truth, touched, true, false)|
    && a.notUpdatedCorrect == |SlotsWhere(recon, truth, touched, false, true)|
    && a.notUpdatedWrong == |SlotsWhere(recon, truth, touched, false, false)|
    && a.absent == |ZerosShown(truth, zeroed, false)|
    && a.presentAgain == |ZerosShown(truth, zeroed, true)|
  }

  lemma AttributionCounts(recon: BookValue, truth: BookValue, touched: set<Slot>, zeroed: set<Slot>)
    ensures Tallies(CheckpointAttribution(recon, truth, touched, zeroed), recon, truth, touched, zeroed)
  {
    SlotsWhereBySide(recon, truth, touched, true, true);
    SlotsWhereBySide(recon, truth, touched, true, false);
    SlotsWhereBySide(recon, truth, touched, false, true);
    SlotsWhereBySide(recon, truth, touched, false, false);
    ZerosCount(truth, zeroed);
    var b, k := SideAttribution(Buy, recon.bids, truth.bids, touched),
        SideAttribution(Sell, recon.asks, truth.asks, touched);
    SumsOfSides(b, k, ZeroOutcome(truth, zeroed), Plus(Plus(b, k), ZeroOutcome(truth, zeroed)));
  }

  lemma SumsOfSides(b: Attribution, k: Attribution, z: Attribution, a: Attribution)
    requires a == Plus(Plus(b, k), z) && b.absent == b.presentAgain == k.absent == k.presentAgain == 0
    requires z.updatedCorrect == z.updatedWrong == z.notUpdatedCorrect == z.notUpdatedWrong == 0
    ensures a.updatedCorrect == b.updatedCorrect + k.updatedCorrect && a.updatedWrong == b.updatedWrong + k.updatedWrong
    ensures a.notUpdatedCorrect == b.notUpdatedCorrect + k.notUpdatedCorrect
    ensures a.notUpdatedWrong == b.notUpdatedWrong + k.notUpdatedWrong
    ensures a.absent == z.absent && a.presentAgain == z.presentAgain
  {
  }

  // ---- which items are checkpoints ----------------------------------------

  /** The i-th item is a book, and not the first. */
  ghost predicate CheckpointAt(stream: seq<Item>, i: nat, key: Key) {
    BookAt(stream, i, key) && exists j: nat :: j < i && BookAt(stream, j, key)
  }

  lemma {:induction false} StateOnceBooked(model: Model, stream: seq<Item>, n: nat, key: Key)
    requires n <= |stream|
    ensures Replay(model, stream, n, key).Some? <==> exists j: nat :: j < n && BookAt(stream, j, key)
  {
    if n > 0 {
      StateOnceBooked(model, stream, n - 1, key);
      if BookAt(stream, n - 1, key) {
        assert n - 1 < n;
      } else if j: nat :| j < n - 1 && BookAt(stream, j, key) {
        assert j < n;
      }
    }
  }

  /** Exactly those items are scored: the state before the item against the item's own
      snapshot. */
  lemma ScoredExactly(model: Model, stream: seq<Item>, i: nat, key: Key)
    requires i < |stream|
    ensures CheckpointAt(stream, i, key) ==> Replay(model, stream, i, key).Some?
    ensures ScoredAt(model, stream, i, key)
         == if CheckpointAt(stream, i, key) then
              [Checkpoint(key, stream[i].frame, Updates(model, stream, i, key),
                          Compare(Replay(model, stream, i, key).value, FromSnapshotValue(stream[i].event.book)))]
            else []
  {
    StateOnceBooked(model, stream, i, key);
  }

  /** The item adds nothing, or the tallies of its snapshot against the state. */
  ghost predicate IsTallied(a: Attribution, checkpoint: bool, w: Window, it: Item) {
    if checkpoint then
      && it.event.BookEvent? && w.state.Some?
      && Tallies(a, w.state.value, FromSnapshotValue(it.event.book), w.touched, w.zeroed)
    else a == NOTHING
  }

  lemma AttributedIs(w: Window, it: Item, key: Key)
    ensures IsTallied(Attributed(w, it, key), IsBook(it, key) && w.state.Some?, w, it)
  {
    if IsBook(it, key) && w.state.Some? {
      AttributionCounts(w.state.value, FromSnapshotValue(it.event.book), w.touched, w.zeroed);
    }
  }

  /** Exactly the same items are attributed. */
  lemma AttributedExactly(stream: seq<Item>, i: nat, key: Key)
    requires i < |stream|
    ensures IsTallied(PerItem(stream, key)(i), CheckpointAt(stream, i, key), WindowAt(stream, i, key), stream[i])
  {
    StateOnceBooked(AbsoluteModel, stream, i, key);
    WindowFollowsReplay(stream, i, key);
    AttributedIs(WindowAt(stream, i, key), stream[i], key);
  }

  // ---- how many updates ---------------------------------------------------

  function ChangeFor(stream: seq<Item>, j: nat, key: Key): nat -> bool {
    (l: nat) => ChangeAt(stream, j, l, key)
  }

  /** How many changes of the j-th item are for the token followed. */
  ghost function ChangesAt(stream: seq<Item>, j: nat, key: Key): nat
    requires j < |stream|
  {
    if stream[j].event.PriceChange? then |Having(ChangeFor(stream, j, key), |stream[j].event.changes|)| else 0
  }

  ghost function ChangesBetween(stream: seq<Item>, i: nat, n: nat, key: Key): nat
    requires i < n <= |stream|
  {
    if n == i + 1 then 0 else ChangesBetween(stream, i, n - 1, key) + ChangesAt(stream, n - 1, key)
  }

  lemma {:induction false} CountForIs(changes: seq<Change>, token: nat, n: nat, ok: nat -> bool)
    requires n <= |changes| && forall l: nat :: l < n ==> (ok(l) <==> changes[l].asset == token)
    ensures CountFor(changes[..n], token) == |Having(ok, n)|
  {
    if n > 0 {
      CountForIs(changes, token, n - 1, ok);
      OneMore(ok, n - 1);
      assert changes[..n][..n - 1] == changes[..n - 1];
    } else {
      assert Having(ok, 0) == {};
    }
  }

  lemma ChangesAtCounts(stream: seq<Item>, j: nat, key: Key)
    requires j < |stream|
    ensures ChangesAt(stream, j, key)
         == if IsChange(stream[j], key) then CountFor(stream[j].event.changes, key.token) else 0
  {
    if stream[j].event.PriceChange? {
      var changes := stream[j].event.changes;
      if IsChange(stream[j], key) {
        CountForIs(changes, key.token, |changes|, ChangeFor(stream, j, key));
        assert changes[..|changes|] == changes;
      } else {
        assert Having(ChangeFor(stream, j, key), |changes|) == {};
      }
    }
  }

  /** updates_since_prior_book is the number of changes for the token since the last book. */
  lemma {:induction false} UpdatesAre(model: Model, stream: seq<Item>, n: nat, key: Key, i: nat)
    requires n <= |stream| && LastBookAt(stream, n, i, key)
    ensures Updates(model, stream, n, key) == ChangesBetween(stream, i, n, key)
  {
    var m := n - 1;
    if i < m {
      assert !BookAt(stream, m, key);
      UpdatesAre(model, stream, m, key, i);
      ChangesAtCounts(stream, m, key);
      StateOnceBooked(model, stream, m, key);
    }
  }
}
