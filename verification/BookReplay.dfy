// Replaying one stream of book events: the scoring replay, the attribution replay
// and what they must agree on (research/run836a_clob_reconstruct.py, lines
// 133-147, 411-457 and 474-525).
module BookReplay {
  import opened Wrappers
  import opened BookState
  import opened PriceKeys

  datatype Event = BookEvent(asset: nat, book: Snapshot) | PriceChange(changes: seq<Change>) | OtherEvent

  datatype Item = Item(session: nat, frame: nat, mono: int, event: Event)

  /** The (session, token) pair one replay follows. */
  datatype Key = Key(session: nat, token: nat)

  predicate IsBook(it: Item, key: Key) {
    it.session == key.session && it.event.BookEvent? && it.event.asset == key.token
  }

  predicate IsChange(it: Item, key: Key) {
    it.session == key.session && it.event.PriceChange?
  }

  // ---- the replayed state -------------------------------------------------

  function ApplyAll(model: Model, b: BookValue, changes: seq<Change>, token: nat): BookValue {
    if changes == [] then b
    else
      var before, ch := ApplyAll(model, b, changes[..|changes| - 1], token), changes[|changes| - 1];
      if ch.asset == token then Apply(model, before, ch) else before
  }

  /** The state after the first `n` items; None before the first book. */
  function Replay(model: Model, stream: seq<Item>, n: nat, key: Key): Option<BookValue>
    requires n <= |stream|
  {
    if n == 0 then None
    else
      var before, it := Replay(model, stream, n - 1, key), stream[n - 1];
      if IsBook(it, key) then Some(FromSnapshotValue(it.event.book))
      else if IsChange(it, key) && before.Some? then Some(ApplyAll(model, before.value, it.event.changes, key.token))
      else before
  }

  // ---- scoring ------------------------------------------------------------

  function DiffKeys(r: Levels, t: Levels): set<string> {
    set p | p in r.Keys + t.Keys && SizeAt(r, p) != SizeAt(t, p)
  }

  function Gap(r: Levels, t: Levels, p: string): real {
    var d := SizeAt(r, p) - SizeAt(t, p);
    if d >= 0.0 then d else -d
  }

  ghost function ErrorOver(r: Levels, t: Levels, keys: set<string>): real {
    if keys == {} then 0.0
    else
      var k :| k in keys;
      Gap(r, t, k) + ErrorOver(r, t, keys - {k})
  }

  /** The sum does not depend on the order in which the set is walked. */
  lemma {:induction false} ErrorWithout(r: Levels, t: Levels, keys: set<string>, k: string)
    requires k in keys
    ensures ErrorOver(r, t, keys) == Gap(r, t, k) + ErrorOver(r, t, keys - {k})
  {
    var j :| j in keys && ErrorOver(r, t, keys) == Gap(r, t, j) + ErrorOver(r, t, keys - {j});
    if j != k {
      ErrorWithout(r, t, keys - {j}, k);
      ErrorWithout(r, t, keys - {k}, j);
      assert keys - {j} - {k} == keys - {k} - {j};
    }
  }

  method CompareSide(r: Levels, t: Levels) returns (diff: nat, e: real)
    ensures diff == |DiffKeys(r, t)| && e == ErrorOver(r, t, r.Keys + t.Keys)
  {
    diff, e := |DiffKeys(r, t)|, 0.0;
    var todo := r.Keys + t.Keys;
    while todo != {}
      invariant e + ErrorOver(r, t, todo) == ErrorOver(r, t, r.Keys + t.Keys)
      decreases todo
    {
      var k :| k in todo;
      ErrorWithout(r, t, todo, k);
      e := e + Gap(r, t, k);
      todo := todo - {k};
    }
  }

  lemma {:induction false} NoErrorIff(r: Levels, t: Levels, keys: set<string>)
    ensures ErrorOver(r, t, keys) >= 0.0
    ensures ErrorOver(r, t, keys) == 0.0 <==> forall p :: p in keys ==> SizeAt(r, p) == SizeAt(t, p)
  {
    if keys != {} {
      var k :| k in keys;
      ErrorWithout(r, t, keys, k);
      NoErrorIff(r, t, keys - {k});
    }
  }

  /** What compare reports of two books. */
  datatype Score = Score(bidDiff: nat, askDiff: nat, sizeError: real, bestBidEqual: bool, bestAskEqual: bool)

  /** One row of the checkpoints: where, after how many updates, and how it scored. */
  datatype Checkpoint = Checkpoint(key: Key, frame: nat, updates: nat, score: Score)

  /** The two sides have the same best key, or both none. */
  ghost predicate BestEqual(r: Levels, t: Levels, s: Side) {
    forall a, b :: IsBestKey(r, s, a) && IsBestKey(t, s, b) ==> a == b
  }

  ghost function Compare(recon: BookValue, truth: BookValue): Score {
    Score(|DiffKeys(recon.bids, truth.bids)|, |DiffKeys(recon.asks, truth.asks)|,
          ErrorOver(recon.bids, truth.bids, recon.bids.Keys + truth.bids.Keys)
          + ErrorOver(recon.asks, truth.asks, recon.asks.Keys + truth.asks.Keys),
          BestEqual(recon.bids, truth.bids, Buy), BestEqual(recon.asks, truth.asks, Sell))
  }

  predicate FullBookEqual(sc: Score) {
    sc.bidDiff == 0 && sc.askDiff == 0
  }

  /** A checkpoint is equal in full exactly when its sizes are off by nothing in all. */
  lemma FullIffNoError(recon: BookValue, truth: BookValue)
    ensures FullBookEqual(Compare(recon, truth)) <==> Compare(recon, truth).sizeError == 0.0
  {
    SideEqualIffNoError(recon.bids, truth.bids);
    SideEqualIffNoError(recon.asks, truth.asks);
  }

  lemma SideEqualIffNoError(r: Levels, t: Levels)
    ensures ErrorOver(r, t, r.Keys + t.Keys) >= 0.0
    ensures |DiffKeys(r, t)| == 0 <==> ErrorOver(r, t, r.Keys + t.Keys) == 0.0
  {
    NoErrorIff(r, t, r.Keys + t.Keys);
    if DiffKeys(r, t) != {} {
      var p :| p in DiffKeys(r, t);
    } else {
      assert forall p :: p in r.Keys + t.Keys ==> p !in DiffKeys(r, t);
    }
  }

  lemma BestEqualIs(r: Levels, t: Levels, s: Side, a: Option<string>, b: Option<string>)
    requires IsBestKey(r, s, a) && IsBestKey(t, s, b)
    ensures BestEqual(r, t, s) <==> a == b
  {
    forall x, y | IsBestKey(r, s, x) && IsBestKey(t, s, y)
      ensures x == a && y == b
    {
      BestKeyUnique(r, s, x, a);
      BestKeyUnique(t, s, y, b);
    }
  }

  method CompareBooks(recon: Book, truth: Book) returns (sc: Score)
    ensures sc == Compare(recon.Contents(), truth.Contents())
  {
    var bid := recon.BestBid();
    var trueBid := truth.BestBid();
    var ask := recon.BestAsk();
    var trueAsk := truth.BestAsk();
    BestEqualIs(recon.bids, truth.bids, Buy, bid, trueBid);
    BestEqualIs(recon.asks, truth.asks, Sell, ask, trueAsk);
    var bidDiff, bidError := CompareSide(recon.bids, truth.bids);
    var askDiff, askError := CompareSide(recon.asks, truth.asks);
    sc := Score(bidDiff, askDiff, bidError + askError, bid == trueBid, ask == trueAsk);
  }

  function CountFor(changes: seq<Change>, token: nat): nat {
    if changes == [] then 0
    else CountFor(changes[..|changes| - 1], token) + (if changes[|changes| - 1].asset == token then 1 else 0)
  }

  /** How many updates reached the state since it was last adopted from a book. */
  function Updates(model: Model, stream: seq<Item>, n: nat, key: Key): nat
    requires n <= |stream|
  {
    if n == 0 || IsBook(stream[n - 1], key) then 0
    else
      Updates(model, stream, n - 1, key)
      + if IsChange(stream[n - 1], key) && Replay(model, stream, n - 1, key).Some? then
          CountFor(stream[n - 1].event.changes, key.token)
        else 0
  }

  /** The checkpoint each item makes, if it makes one. */
  ghost function Scored(model: Model, stream: seq<Item>, key: Key): nat -> seq<Checkpoint> {
    (n: nat) => if n < |stream| then ScoredAt(model, stream, n, key) else []
  }

  ghost function ScoredAt(model: Model, stream: seq<Item>, n: nat, key: Key): seq<Checkpoint>
    requires n < |stream|
  {
    var before, it := Replay(model, stream, n, key), stream[n];
    if IsBook(it, key) && before.Some? then
      [Checkpoint(key, it.frame, Updates(model, stream, n, key),
                  Compare(before.value, FromSnapshotValue(it.event.book)))]
    else []
  }

  ghost function Checkpoints(model: Model, stream: seq<Item>, n: nat, key: Key): seq<Checkpoint> {
    Concat(Scored(model, stream, key), n)
  }

  /** The earliest checkpoint that is not equal in full; None if every one is. */
  ghost predicate IsFirstDivergence(checkpoints: seq<Checkpoint>, first: Option<Checkpoint>) {
    match first
    case None => forall k :: 0 <= k < |checkpoints| ==> FullBookEqual(checkpoints[k].score)
    case Some(c) => exists k :: IsDivergence(checkpoints, k, c)
  }

  ghost predicate IsDivergence(checkpoints: seq<Checkpoint>, k: nat, c: Checkpoint) {
    && k < |checkpoints| && checkpoints[k] == c && !FullBookEqual(c.score)
    && forall j :: 0 <= j < k ==> FullBookEqual(checkpoints[j].score)
  }

  lemma FirstOfMore(before: seq<Checkpoint>, first: Option<Checkpoint>, more: seq<Checkpoint>, next: Option<Checkpoint>)
    requires IsFirstDivergence(before, first) && IsFirstDivergence(more, next)
    ensures IsFirstDivergence(before + more, if first == None then next else first)
  {
    if first.Some? {
      var k: nat :| IsDivergence(before, k, first.value);
      assert IsDivergence(before + more, k, first.value);
    } else if next.Some? {
      var k: nat :| IsDivergence(more, k, next.value);
      assert IsDivergence(before + more, |before| + k, next.value);
    }
  }

  lemma FirstOfScored(before: seq<Checkpoint>, first: Option<Checkpoint>, here: seq<Checkpoint>)
    requires IsFirstDivergence(before, first) && |here| <= 1
    ensures IsFirstDivergence(before + here, if first == None && Diverges(here) then Some(here[0]) else first)
  {
    if Diverges(here) {
      assert IsDivergence(here, 0, here[0]);
    }
    FirstOfMore(before, first, here, if Diverges(here) then Some(here[0]) else None);
  }

  predicate Diverges(here: seq<Checkpoint>) {
    here != [] && !FullBookEqual(here[0].score)
  }

  ghost predicate StateIs(state: Book?, v: Option<BookValue>)
    reads state
  {
    v == (if state == null then None else Some(state.Contents()))
  }

  /** The variables of the replay after n items. */
  ghost predicate Stands(model: Model, stream: seq<Item>, n: nat, key: Key, state: Book?, updates: nat)
    requires n <= |stream|
    reads state
  {
    StateIs(state, Replay(model, stream, n, key)) && updates == Updates(model, stream, n, key)
  }

  ghost predicate Reports(model: Model, stream: seq<Item>, n: nat, key: Key, checkpoints: seq<Checkpoint>,
                          first: Option<Checkpoint>)
    requires n <= |stream|
  {
    checkpoints == Checkpoints(model, stream, n, key) && IsFirstDivergence(checkpoints, first)
  }

  lemma ReportsMore(model: Model, stream: seq<Item>, n: nat, key: Key, checkpoints: seq<Checkpoint>,
                    first: Option<Checkpoint>, here: seq<Checkpoint>)
    requires n < |stream| && here == ScoredAt(model, stream, n, key)
    requires Reports(model, stream, n, key, checkpoints, first)
    ensures Reports(model, stream, n + 1, key, checkpoints + here,
                    if first == None && Diverges(here) then Some(here[0]) else first)
  {
    FirstOfScored(checkpoints, first, here);
    assert here == Scored(model, stream, key)(n);
  }

  /** The replay that scores before it adopts. */
  method ScoreReplay(model: Model, stream: seq<Item>, key: Key)
    returns (checkpoints: seq<Checkpoint>, first: Option<Checkpoint>)
    ensures checkpoints == Checkpoints(model, stream, |stream|, key)
    ensures IsFirstDivergence(checkpoints, first)
  {
    checkpoints, first := [], None;
    var state: Book?, updates := null, 0;
    for n := 0 to |stream|
      invariant state != null ==> fresh(state)
      invariant Stands(model, stream, n, key, state, updates)
      invariant Reports(model, stream, n, key, checkpoints, first)
    {
      var here;
      state, updates, here := ScoreItem(model, stream, n, key, state, updates);
      ReportsMore(model, stream, n, key, checkpoints, first, here);
      if first == None && Diverges(here) {
        first := Some(here[0]);
      }
      checkpoints := checkpoints + here;
    }
  }

  /** One item of the replay. */
  method ScoreItem(model: Model, stream: seq<Item>, n: nat, key: Key, state0: Book?, updates0: nat)
    returns (state: Book?, updates: nat, here: seq<Checkpoint>)
    requires n < |stream| && Stands(model, stream, n, key, state0, updates0)
    modifies state0
    ensures state == state0 || fresh(state)
    ensures Stands(model, stream, n + 1, key, state, updates)
    ensures here == ScoredAt(model, stream, n, key)
  {
    state, updates, here := state0, updates0, [];
    var it := stream[n];
    if IsBook(it, key) {
      var truth := Book.FromSnapshot(it.event.book);
      if state != null {
        var score := CompareBooks(state, truth);
        here := [Checkpoint(key, it.frame, updates, score)];
      }
      state, updates := truth, 0;
    } else if IsChange(it, key) && state != null {
      var reached := ApplyChanges(state, model, it.event.changes, key.token);
      updates := updates + reached;
    }
  }

  method ApplyChanges(b: Book, model: Model, changes: seq<Change>, token: nat) returns (updates: nat)
    modifies b
    ensures b.Contents() == ApplyAll(model, old(b.Contents()), changes, token)
    ensures updates == CountFor(changes, token)
  {
    updates := 0;
    assert changes[..|changes|] == changes;
    for i := 0 to |changes|
      invariant b.Contents() == ApplyAll(model, old(b.Contents()), changes[..i], token)
      invariant updates == CountFor(changes[..i], token)
    {
      assert changes[..i + 1][..i] == changes[..i];
      if changes[i].asset == token {
        b.Update(model, changes[i]);
        updates := updates + 1;
      }
    }
  }

  ghost function AllCheckpoints(model: Model, stream: seq<Item>, keys: seq<Key>): seq<Checkpoint> {
    if keys == [] then []
    else
      AllCheckpoints(model, stream, keys[..|keys| - 1])
      + Checkpoints(model, stream, |stream|, keys[|keys| - 1])
  }

  /** Every session and token in turn, under one rule. */
  method ScoreModel(model: Model, stream: seq<Item>, keys: seq<Key>)
    returns (checkpoints: seq<Checkpoint>, first: Option<Checkpoint>)
    ensures checkpoints == AllCheckpoints(model, stream, keys)
    ensures IsFirstDivergence(checkpoints, first)
  {
    checkpoints, first := [], None;
    assert keys[..|keys|] == keys;
    for i := 0 to |keys|
      invariant checkpoints == AllCheckpoints(model, stream, keys[..i])
      invariant IsFirstDivergence(checkpoints, first)
    {
      assert keys[..i + 1][..i] == keys[..i];
      var more, next := ScoreReplay(model, stream, keys[i]);
      FirstOfMore(checkpoints, first, more, next);
      checkpoints := checkpoints + more;
      first := if first == None then next else first;
    }
  }

  // ---- attribution --------------------------------------------------------

  type Slot = (Side, string)

  function SlotOf(ch: Change): Slot {
    (ch.side, Norm(ch.price))
  }

  function TouchedBy(changes: seq<Change>, token: nat): set<Slot> {
    set ch | ch in changes && ch.asset == token :: SlotOf(ch)
  }

  /** Zero-size levels outstanding after the changes, given those before. */
  function ZeroedBy(changes: seq<Change>, token: nat, zeroed: set<Slot>): set<Slot> {
    if changes == [] then zeroed
    else
      var before, ch := ZeroedBy(changes[..|changes| - 1], token, zeroed), changes[|changes| - 1];
      if ch.asset != token then before
      else if ch.size == 0.0 then before + {SlotOf(ch)}
      else before - {SlotOf(ch)}
  }

  /** The window since the last book: its snapshot, the state, and the levels
      touched and left at zero since. */
  datatype Window = Window(base: Option<BookValue>, state: Option<BookValue>, touched: set<Slot>, zeroed: set<Slot>)

  function Advance(w: Window, it: Item, key: Key): Window {
    if IsBook(it, key) then
      var truth := FromSnapshotValue(it.event.book);
      Window(Some(truth), Some(truth), {}, {})
    else if IsChange(it, key) && w.state.Some? then
      Window(w.base, Some(ApplyAll(AbsoluteModel, w.state.value, it.event.changes, key.token)),
             w.touched + TouchedBy(it.event.changes, key.token), ZeroedBy(it.event.changes, key.token, w.zeroed))
    else w
  }

  function WindowAt(stream: seq<Item>, n: nat, key: Key): Window
    requires n <= |stream|
  {
    if n == 0 then Window(None, None, {}, {}) else Advance(WindowAt(stream, n - 1, key), stream[n - 1], key)
  }

  /** The two replays hold the same book after every item. */
  lemma {:induction false} WindowFollowsReplay(stream: seq<Item>, n: nat, key: Key)
    requires n <= |stream|
    ensures WindowAt(stream, n, key).state == Replay(AbsoluteModel, stream, n, key)
  {
    if n > 0 {
      WindowFollowsReplay(stream, n - 1, key);
    }
  }

  datatype Attribution = Attribution(updatedCorrect: nat, updatedWrong: nat, notUpdatedCorrect: nat,
                                     notUpdatedWrong: nat,
                                     absent: nat, presentAgain: nat)

  const NOTHING := Attribution(0, 0, 0, 0, 0, 0)

  function Plus(a: Attribution, b: Attribution): Attribution {
    Attribution(a.updatedCorrect + b.updatedCorrect, a.updatedWrong + b.updatedWrong,
                a.notUpdatedCorrect + b.notUpdatedCorrect, a.notUpdatedWrong + b.notUpdatedWrong,
                a.absent + b.absent, a.presentAgain + b.presentAgain)
  }

  /** The levels of one side, sorted by whether they agree and whether they were touched. */
  function LevelsWhere(s: Side, r: Levels, t: Levels, touched: set<Slot>, hit: bool, ok: bool): set<string> {
    set p | p in r.Keys + t.Keys && (SizeAt(r, p) == SizeAt(t, p)) == ok && ((s, p) in touched) == hit
  }

  function SideAttribution(s: Side, r: Levels, t: Levels, touched: set<Slot>): Attribution {
    Attribution(|LevelsWhere(s, r, t, touched, true, true)|, |LevelsWhere(s, r, t, touched, true, false)|,
                |LevelsWhere(s, r, t, touched, false, true)|, |LevelsWhere(s, r, t, touched, false, false)|, 0, 0)
  }

  function PresentAgain(truth: BookValue, zeroed: set<Slot>): set<Slot> {
    set z | z in zeroed && z.1 in SideOf(truth, z.0)
  }

  function ZeroOutcome(truth: BookValue, zeroed: set<Slot>): Attribution {
    Attribution(0, 0, 0, 0, |zeroed - PresentAgain(truth, zeroed)|, |PresentAgain(truth, zeroed)|)
  }

  function CheckpointAttribution(recon: BookValue, truth: BookValue, touched: set<Slot>,
                                 zeroed: set<Slot>): Attribution {
    Plus(Plus(SideAttribution(Buy, recon.bids, truth.bids, touched),
              SideAttribution(Sell, recon.asks, truth.asks, touched)),
         ZeroOutcome(truth, zeroed))
  }

  /** What one item adds to the counters. */
  function Attributed(w: Window, it: Item, key: Key): Attribution {
    if IsBook(it, key) && w.state.Some? then
      CheckpointAttribution(w.state.value, FromSnapshotValue(it.event.book), w.touched, w.zeroed)
    else NOTHING
  }

  function Totals(per: nat -> Attribution, n: nat): Attribution {
    if n == 0 then NOTHING else Plus(Totals(per, n - 1), per(n - 1))
  }

  /** What each item adds. */
  function PerItem(stream: seq<Item>, key: Key): nat -> Attribution {
    (i: nat) => if i < |stream| then Attributed(WindowAt(stream, i, key), stream[i], key) else NOTHING
  }

  function Attributions(stream: seq<Item>, n: nat, key: Key): Attribution {
    Totals(PerItem(stream, key), n)
  }

  /** The variables of the replay stand for the window `w`. */
  ghost predicate Holds(w: Window, state: Book?, touched: set<Slot>, zeroed: set<Slot>)
    reads state
  {
    touched == w.touched && zeroed == w.zeroed && StateIs(state, w.state)
  }

  /** The attribution replay: one book changed in place, and the two sets beside it. */
  method AttributionReplay(stream: seq<Item>, key: Key) returns (attrib: Attribution)
    ensures attrib == Attributions(stream, |stream|, key)
  {
    attrib := NOTHING;
    var state: Book? := null;
    var touched: set<Slot>, zeroed: set<Slot> := {}, {};
    ghost var w := WindowAt(stream, 0, key);
    for n := 0 to |stream|
      invariant w == WindowAt(stream, n, key) && attrib == Attributions(stream, n, key)
      invariant state != null ==> fresh(state)
      invariant Holds(w, state, touched, zeroed)
    {
      var here;
      state, touched, zeroed, here := AttributeItem(stream[n], key, state, touched, zeroed, w);
      assert here == PerItem(stream, key)(n);
      attrib := Plus(attrib, here);
      w := Advance(w, stream[n], key);
    }
  }

  /** One item of the replay. */
  method AttributeItem(it: Item, key: Key, state0: Book?, touched0: set<Slot>, zeroed0: set<Slot>, ghost w: Window)
    returns (state: Book?, touched: set<Slot>, zeroed: set<Slot>, here: Attribution)
    requires Holds(w, state0, touched0, zeroed0)
    modifies state0
    ensures state == state0 || fresh(state)
    ensures Holds(Advance(w, it, key), state, touched, zeroed)
    ensures here == Attributed(w, it, key)
  {
    state, touched, zeroed, here := state0, touched0, zeroed0, NOTHING;
    if IsBook(it, key) {
      var truth := Book.FromSnapshot(it.event.book);
      if state != null {
        here := AttributeCheckpoint(state.Contents(), truth.Contents(), touched, zeroed);
      }
      state := truth;
      touched, zeroed := {}, {};
    } else if IsChange(it, key) && state != null {
      touched, zeroed := FollowChanges(state, it.event.changes, key.token, touched, zeroed);
    }
  }

  method AttributeCheckpoint(recon: BookValue, truth: BookValue, touched: set<Slot>, zeroed: set<Slot>)
    returns (a: Attribution)
    ensures a == CheckpointAttribution(recon, truth, touched, zeroed)
  {
    var bids := AttributeSide(Buy, recon.bids, truth.bids, touched);
    var asks := AttributeSide(Sell, recon.asks, truth.asks, touched);
    var zeros := AttributeZeros(truth, zeroed);
    a := Plus(Plus(bids, asks), zeros);
  }

  method FollowChanges(b: Book, changes: seq<Change>, token: nat, touched0: set<Slot>, zeroed0: set<Slot>)
    returns (touched: set<Slot>, zeroed: set<Slot>)
    modifies b
    ensures b.Contents() == ApplyAll(AbsoluteModel, old(b.Contents()), changes, token)
    ensures touched == touched0 + TouchedBy(changes, token) && zeroed == ZeroedBy(changes, token, zeroed0)
  {
    touched, zeroed := touched0, zeroed0;
    assert changes[..|changes|] == changes;
    for i := 0 to |changes|
      invariant b.Contents() == ApplyAll(AbsoluteModel, old(b.Contents()), changes[..i], token)
      invariant touched == touched0 + TouchedBy(changes[..i], token)
      invariant zeroed == ZeroedBy(changes[..i], token, zeroed0)
    {
      assert changes[..i + 1][..i] == changes[..i];
      TouchedByAppend(changes, i, token);
      var ch := changes[i];
      if ch.asset == token {
        touched := touched + {SlotOf(ch)};
        if ch.size == 0.0 {
          zeroed := zeroed + {SlotOf(ch)};
        } else {
          zeroed := zeroed - {SlotOf(ch)};
        }
        b.ApplyAbsolute(ch);
      }
    }
  }

  lemma TouchedByAppend(changes: seq<Change>, i: nat, token: nat)
    requires i < |changes|
    ensures TouchedBy(changes[..i + 1], token)
         == TouchedBy(changes[..i], token) + (if changes[i].asset == token then {SlotOf(changes[i])} else {})
  {
    assert changes[..i + 1] == changes[..i] + [changes[i]];
    assert forall ch :: ch in changes[..i + 1] <==> ch in changes[..i] || ch == changes[i];
    forall s
      ensures s in TouchedBy(changes[..i + 1], token)
         <==> s in TouchedBy(changes[..i], token) || (changes[i].asset == token && s == SlotOf(changes[i]))
    {
    }
  }

  /** The loop over the levels of one side. */
  method AttributeSide(s: Side, r: Levels, t: Levels, touched: set<Slot>) returns (a: Attribution)
    ensures a == SideAttribution(s, r, t, touched)
  {
    var all := r.Keys + t.Keys;
    var todo := all;
    a := NOTHING;
    NoneSeen(s, r, t, touched, all - todo);
    while todo != {}
      invariant todo <= all && a == SeenAttribution(s, r, t, touched, all - todo)
      decreases todo
    {
      var p :| p in todo;
      AttributedOne(s, r, t, touched, all, todo, p);
      todo := todo - {p};
      a := Tally(a, (s, p) in touched, SizeAt(r, p) == SizeAt(t, p));
    }
    SeenAll(s, r, t, touched, all - todo);
  }

  function SeenWhere(s: Side, r: Levels, t: Levels, touched: set<Slot>, seen: set<string>, hit: bool,
                     ok: bool): set<string> {
    set p | p in seen && (SizeAt(r, p) == SizeAt(t, p)) == ok && ((s, p) in touched) == hit
  }

  function SeenAttribution(s: Side, r: Levels, t: Levels, touched: set<Slot>, seen: set<string>): Attribution {
    Attribution(|SeenWhere(s, r, t, touched, seen, true, true)|, |SeenWhere(s, r, t, touched, seen, true, false)|,
                |SeenWhere(s, r, t, touched, seen, false, true)|,
                |SeenWhere(s, r, t, touched, seen, false, false)|, 0, 0)
  }

  lemma SeenGrows(s: Side, r: Levels, t: Levels, touched: set<Slot>, seen: set<string>, p: string)
    requires p !in seen
    ensures forall hit, ok ::
      |SeenWhere(s, r, t, touched, seen + {p}, hit, ok)| == |SeenWhere(s, r, t, touched, seen, hit, ok)|
         + (if (SizeAt(r, p) == SizeAt(t, p)) == ok && ((s, p) in touched) == hit then 1 else 0)
  {
    forall hit, ok
      ensures |SeenWhere(s, r, t, touched, seen + {p}, hit, ok)|
        == |SeenWhere(s, r, t, touched, seen, hit, ok)|
           + (if (SizeAt(r, p) == SizeAt(t, p)) == ok && ((s, p) in touched) == hit then 1 else 0)
    {
      var before, after := SeenWhere(s, r, t, touched, seen, hit, ok), SeenWhere(s, r, t, touched, seen + {p}, hit, ok);
      if (SizeAt(r, p) == SizeAt(t, p)) == ok && ((s, p) in touched) == hit {
        assert after == before + {p};
      } else {
        assert after == before;
      }
    }
  }

  /** What one level adds, by whether it was touched and whether it agrees. */
  function LevelAttribution(hit: bool, ok: bool): Attribution {
    Attribution(if hit && ok then 1 else 0, if hit && !ok then 1 else 0,
                if !hit && ok then 1 else 0, if !hit && !ok then 1 else 0, 0, 0)
  }

  /** The counter a level falls under goes up by one. */
  method Tally(a: Attribution, hit: bool, ok: bool) returns (after: Attribution)
    ensures after == Plus(a, LevelAttribution(hit, ok))
  {
    if hit && ok {
      after := a.(updatedCorrect := a.updatedCorrect + 1);
    } else if hit {
      after := a.(updatedWrong := a.updatedWrong + 1);
    } else if ok {
      after := a.(notUpdatedCorrect := a.notUpdatedCorrect + 1);
    } else {
      after := a.(notUpdatedWrong := a.notUpdatedWrong + 1);
    }
  }

  lemma NoneSeen(s: Side, r: Levels, t: Levels, touched: set<Slot>, seen: set<string>)
    requires seen == {}
    ensures SeenAttribution(s, r, t, touched, seen) == NOTHING
  {
    forall hit, ok
      ensures SeenWhere(s, r, t, touched, seen, hit, ok) == {}
    {
    }
  }

  lemma AttributedOne(s: Side, r: Levels, t: Levels, touched: set<Slot>, all: set<string>, todo: set<string>, p: string)
    requires p in todo && todo <= all
    ensures SeenAttribution(s, r, t, touched, all - (todo - {p}))
         == Plus(SeenAttribution(s, r, t, touched, all - todo),
             LevelAttribution((s, p) in touched, SizeAt(r, p) == SizeAt(t, p)))
  {
    assert all - (todo - {p}) == (all - todo) + {p};
    SeenGrows(s, r, t, touched, all - todo, p);
  }

  lemma SeenAll(s: Side, r: Levels, t: Levels, touched: set<Slot>, seen: set<string>)
    requires seen == r.Keys + t.Keys
    ensures SeenAttribution(s, r, t, touched, seen) == SideAttribution(s, r, t, touched)
  {
    forall hit, ok
      ensures SeenWhere(s, r, t, touched, seen, hit, ok) == LevelsWhere(s, r, t, touched, hit, ok)
    {
    }
  }

  /** The loop over the zero-size levels still outstanding. */
  method AttributeZeros(truth: BookValue, zeroed: set<Slot>) returns (a: Attribution)
    ensures a == ZeroOutcome(truth, zeroed)
  {
    a := NOTHING;
    var todo := zeroed;
    ghost var again := PresentAgain(truth, zeroed);
    assert Split(zeroed - todo, again) == NOTHING;
    while todo != {}
      invariant todo <= zeroed && a == Split(zeroed - todo, again)
      decreases todo
    {
      var z :| z in todo;
      SplitMoves(zeroed, todo, again, z);
      todo := todo - {z};
      if z.1 !in SideOf(truth, z.0) {
        a := a.(absent := a.absent + 1);
      } else {
        a := a.(presentAgain := a.presentAgain + 1);
      }
    }
    SplitAll(truth, zeroed, zeroed - todo);
  }

  lemma SplitMoves(zeroed: set<Slot>, todo: set<Slot>, again: set<Slot>, z: Slot)
    requires z in todo && todo <= zeroed
    ensures var a := Split(zeroed - todo, again);
      Split(zeroed - (todo - {z}), again)
          == if z in again then a.(presentAgain := a.presentAgain + 1) else a.(absent := a.absent + 1)
  {
    assert zeroed - (todo - {z}) == (zeroed - todo) + {z};
    SplitStep(zeroed - todo, again, z);
  }

  lemma SplitAll(truth: BookValue, zeroed: set<Slot>, done: set<Slot>)
    requires done == zeroed
    ensures Split(done, PresentAgain(truth, zeroed)) == ZeroOutcome(truth, zeroed)
  {
    assert zeroed * PresentAgain(truth, zeroed) == PresentAgain(truth, zeroed);
  }

  ghost function Split(done: set<Slot>, again: set<Slot>): Attribution {
    Attribution(0, 0, 0, 0, |done - again|, |done * again|)
  }

  lemma SplitStep(done: set<Slot>, again: set<Slot>, z: Slot)
    requires z !in done
    ensures var a := Split(done, again);
      Split(done + {z}, again)
          == if z in again then a.(presentAgain := a.presentAgain + 1) else a.(absent := a.absent + 1)
  {
    if z in again {
      assert (done + {z}) - again == done - again && (done + {z}) * again == (done * again) + {z};
    } else {
      assert (done + {z}) - again == (done - again) + {z} && (done + {z}) * again == done * again;
    }
  }
}
