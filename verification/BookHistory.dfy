// The timeline of reconstructed books that REST reads are compared with
// (research/run836a_clob_reconstruct.py, lines 579-602 and 631-637).
module BookHistory {
  import opened Wrappers
  import opened BookState
  import opened BookReplay
  import opened Counting
  import opened StreamState

  predicate Touches(it: Item, key: Key) {
    IsChange(it, key) && exists i :: 0 <= i < |it.event.changes| && it.event.changes[i].asset == key.token
  }

  // ---- the timeline -------------------------------------------------------

  datatype Kind = FromBook | FromPriceChange

  datatype Entry = Entry(mono: int, book: Book, kind: Kind)

  /** An entry as a value. */
  datatype Moment = Moment(mono: int, book: BookValue, kind: Kind)

  /** The timeline as values: one entry per book and per change that touched the token. */
  function Timeline(stream: seq<Item>, n: nat, key: Key): seq<Moment>
    requires n <= |stream|
  {
    if n == 0 then []
    else
      var it, before, after := stream[n - 1], Timeline(stream, n - 1, key), Replay(AbsoluteModel, stream, n, key);
      if after.None? then before
      else if IsBook(it, key) then before + [Moment(it.mono, after.value, FromBook)]
      else if Touches(it, key) then before + [Moment(it.mono, after.value, FromPriceChange)]
      else before
  }

  function MomentOf(e: Entry): Moment
    reads e.book
  {
    Moment(e.mono, e.book.Contents(), e.kind)
  }

  /** The entries hold exactly the timeline, each in a book of its own. */
  ghost predicate Records(history: seq<Entry>, timeline: seq<Moment>)
    reads set e | e in history :: e.book
  {
    && |history| == |timeline|
    && (forall k :: 0 <= k < |history| ==> MomentOf(history[k]) == timeline[k])
    && (forall j, k :: 0 <= j < k < |history| ==> history[j].book != history[k].book)
  }

  lemma RecordsOneMore(history: seq<Entry>, timeline: seq<Moment>, e: Entry)
    requires Records(history, timeline) && forall k :: 0 <= k < |history| ==> history[k].book != e.book
    ensures Records(history + [e], timeline + [MomentOf(e)])
  {
  }

  /** One book is updated in place while copies of it are appended; no later update
      reaches an earlier entry. */
  method BuildHistory(stream: seq<Item>, key: Key) returns (history: seq<Entry>)
    ensures Records(history, Timeline(stream, |stream|, key))
    ensures forall e :: e in history ==> fresh(e.book)
  {
    history := [];
    var state: Book? := null;
    ghost var timeline := Timeline(stream, 0, key);
    for n := 0 to |stream|
      invariant timeline == Timeline(stream, n, key) && Records(history, timeline)
      invariant forall e :: e in history ==> fresh(e.book) && e.book != state
      invariant state != null ==> fresh(state)
      invariant StateIs(state, Replay(AbsoluteModel, stream, n, key))
    {
      var added;
      state, added := RecordItem(stream, n, key, state);
      assert Records(history, timeline);
      if added != [] {
        var e := added[0];
        RecordsOneMore(history, timeline, e);
        timeline := timeline + [MomentOf(e)];
        history := history + [e];
      }
    }
  }

  /** One item of the stream: at most one entry, in a book of its own. */
  method RecordItem(stream: seq<Item>, n: nat, key: Key, state0: Book?) returns (state: Book?, added: seq<Entry>)
    requires n < |stream| && StateIs(state0, Replay(AbsoluteModel, stream, n, key))
    modifies state0
    ensures state == state0 || fresh(state)
    ensures StateIs(state, Replay(AbsoluteModel, stream, n + 1, key))
    ensures |added| <= 1 && (added != [] ==> fresh(added[0].book) && added[0].book != state)
    ensures Timeline(stream, n + 1, key)
         == if added == [] then Timeline(stream, n, key)
            else Timeline(stream, n, key) + [MomentOf(added[0])]
  {
    state, added := state0, [];
    var it := stream[n];
    if IsBook(it, key) {
      state := Book.FromSnapshot(it.event.book);
      var copy := state.Copy();
      added := [Entry(it.mono, copy, FromBook)];
    } else if IsChange(it, key) && state != null {
      var touched := ApplyAndNote(state, it.event.changes, key.token);
      if touched {
        var copy := state.Copy();
        added := [Entry(it.mono, copy, FromPriceChange)];
      }
    }
  }

  method ApplyAndNote(b: Book, changes: seq<Change>, token: nat) returns (touched: bool)
    modifies b
    ensures b.Contents() == ApplyAll(AbsoluteModel, old(b.Contents()), changes, token)
    ensures touched <==> exists i :: 0 <= i < |changes| && changes[i].asset == token
  {
    touched := false;
    assert changes[..|changes|] == changes;
    for i := 0 to |changes|
      invariant b.Contents() == ApplyAll(AbsoluteModel, old(b.Contents()), changes[..i], token)
      invariant touched <==> exists k :: 0 <= k < i && changes[k].asset == token
    {
      assert changes[..i + 1][..i] == changes[..i];
      if changes[i].asset == token {
        b.ApplyAbsolute(changes[i]);
        touched := true;
      }
    }
  }

  // ---- when there is an entry ---------------------------------------------

  ghost predicate BookSeen(stream: seq<Item>, n: nat, key: Key) {
    exists i: nat :: i < n && BookAt(stream, i, key)
  }

  ghost predicate Touched(stream: seq<Item>, i: nat, key: Key) {
    exists l: nat :: ChangeAt(stream, i, l, key)
  }

  /** An item with an entry: a book of the token, or changes to it once there is a book. */
  ghost predicate Recorded(stream: seq<Item>, i: nat, key: Key) {
    BookAt(stream, i, key) || (BookSeen(stream, i, key) && Touched(stream, i, key))
  }

  ghost function RecordedIn(stream: seq<Item>, key: Key): nat -> bool {
    (i: nat) => Recorded(stream, i, key)
  }

  /** The entry of the i-th item: its time, its kind, and the state once it is applied. */
  ghost predicate IsMomentAt(m: Moment, stream: seq<Item>, i: nat, key: Key) {
    && i < |stream| && m.mono == stream[i].mono
    && Replay(AbsoluteModel, stream, i + 1, key) == Some(m.book)
    && (m.kind == FromBook <==> BookAt(stream, i, key))
  }

  ghost predicate AreMomentsAt(timeline: seq<Moment>, stream: seq<Item>, idx: seq<nat>, key: Key) {
    |timeline| == |idx| && forall k :: 0 <= k < |idx| ==> IsMomentAt(timeline[k], stream, idx[k], key)
  }

  lemma {:induction false} StateIffBook(stream: seq<Item>, n: nat, key: Key)
    requires n <= |stream|
    ensures Replay(AbsoluteModel, stream, n, key).Some? <==> BookSeen(stream, n, key)
  {
    if n > 0 {
      StateIffBook(stream, n - 1, key);
      assert IsBook(stream[n - 1], key) <==> BookAt(stream, n - 1, key);
      if BookSeen(stream, n - 1, key) {
        assert BookSeen(stream, n, key);
      }
    }
  }

  lemma RecordsItem(stream: seq<Item>, n: nat, key: Key)
    requires n < |stream|
    ensures var before, after := Timeline(stream, n, key), Timeline(stream, n + 1, key);
      if Recorded(stream, n, key)
      then after != [] && after[..|after| - 1] == before && IsMomentAt(after[|after| - 1], stream, n, key)
      else after == before
  {
    StateIffBook(stream, n, key);
    assert IsBook(stream[n], key) <==> BookAt(stream, n, key);
    if IsChange(stream[n], key) {
      var changes := stream[n].event.changes;
      assert forall l: nat :: ChangeAt(stream, n, l, key) <==> l < |changes| && changes[l].asset == key.token;
    }
    assert Touches(stream[n], key) <==> Touched(stream, n, key);
  }

  /** The entries of the first n items are those of exactly the recorded ones, in order. */
  ghost predicate TellsOf(stream: seq<Item>, n: nat, key: Key, idx: seq<nat>)
    requires n <= |stream|
  {
    Lists(idx, RecordedIn(stream, key), n) && AreMomentsAt(Timeline(stream, n, key), stream, idx, key)
  }

  lemma {:induction false} TimelineMeaning(stream: seq<Item>, n: nat, key: Key) returns (idx: seq<nat>)
    requires n <= |stream|
    ensures TellsOf(stream, n, key, idx)
  {
    if n == 0 {
      ListsNone(RecordedIn(stream, key));
      idx := [];
    } else {
      idx := TimelineMeaning(stream, n - 1, key);
      idx := TellsOneMore(stream, n - 1, key, idx);
    }
  }

  lemma TellsOneMore(stream: seq<Item>, n: nat, key: Key, before: seq<nat>) returns (idx: seq<nat>)
    requires n < |stream| && TellsOf(stream, n, key, before)
    ensures TellsOf(stream, n + 1, key, idx)
  {
    ListsOneMore(before, RecordedIn(stream, key), n);
    RecordsItem(stream, n, key);
    idx := if RecordedIn(stream, key)(n) then before + [n] else before;
    MomentsOneMore(Timeline(stream, n, key), Timeline(stream, n + 1, key), stream, before, n, key);
  }

  lemma MomentsOneMore(before: seq<Moment>, after: seq<Moment>, stream: seq<Item>, idx: seq<nat>, n: nat, key: Key)
    requires AreMomentsAt(before, stream, idx, key)
    requires if Recorded(stream, n, key)
             then after != [] && after[..|after| - 1] == before && IsMomentAt(after[|after| - 1], stream, n, key)
             else after == before
    ensures AreMomentsAt(after, stream, if RecordedIn(stream, key)(n) then idx + [n] else idx, key)
  {
    if Recorded(stream, n, key) {
      assert after == before + [after[|after| - 1]];
    }
  }

  // ---- the lookup ---------------------------------------------------------

  /** prior[-1], with prior the entries at or before the instant. */
  function LastAtOrBefore(timeline: seq<Moment>, t: int): Option<Moment> {
    if timeline == [] then None
    else if timeline[|timeline| - 1].mono <= t then Some(timeline[|timeline| - 1])
    else LastAtOrBefore(timeline[..|timeline| - 1], t)
  }

  /** The k-th entry is the last that is not after the instant. */
  ghost predicate IsLastBy(timeline: seq<Moment>, t: int, k: nat) {
    && k < |timeline| && timeline[k].mono <= t
    && forall j :: k < j < |timeline| ==> timeline[j].mono > t
  }

  lemma {:induction false} LastAtOrBeforeIs(timeline: seq<Moment>, t: int)
    ensures LastAtOrBefore(timeline, t).None? <==> forall k :: 0 <= k < |timeline| ==> timeline[k].mono > t
    ensures forall k: nat :: IsLastBy(timeline, t, k) ==> LastAtOrBefore(timeline, t) == Some(timeline[k])
  {
    if timeline != [] && timeline[|timeline| - 1].mono > t {
      var before := timeline[..|timeline| - 1];
      LastAtOrBeforeIs(before, t);
      forall k: nat | IsLastBy(timeline, t, k)
        ensures LastAtOrBefore(timeline, t) == Some(timeline[k])
      {
        assert IsLastBy(before, t, k);
      }
    }
  }

  method LookUp(history: seq<Entry>, t: int, ghost timeline: seq<Moment>) returns (found: Option<Entry>)
    requires Records(history, timeline)
    ensures found.None? <==> LastAtOrBefore(timeline, t).None?
    ensures found.Some? ==> found.value in history && LastAtOrBefore(timeline, t) == Some(MomentOf(found.value))
  {
    var prior: seq<Entry> := [];
    assert timeline[..|timeline|] == timeline;
    for k := 0 to |history|
      invariant prior == [] <==> LastAtOrBefore(timeline[..k], t).None?
      invariant prior != [] ==> prior[|prior| - 1] in history[..k]
      invariant prior != [] ==> Some(MomentOf(prior[|prior| - 1])) == LastAtOrBefore(timeline[..k], t)
    {
      assert timeline[..k + 1][..k] == timeline[..k];
      if history[k].mono <= t {
        prior := prior + [history[k]];
      }
    }
    found := if prior == [] then None else Some(prior[|prior| - 1]);
  }

  // ---- the lookup is a replay from scratch --------------------------------

  /** What the session had delivered by the instant. */
  function Delivered(stream: seq<Item>, n: nat, key: Key, t: int): seq<Item>
    requires n <= |stream|
  {
    if n == 0 then []
    else
      var before := Delivered(stream, n - 1, key, t);
      if stream[n - 1].session == key.session && stream[n - 1].mono <= t then before + [stream[n - 1]] else before
  }

  /** The session's own clock never runs backwards along the stream. */
  ghost predicate Chronological(stream: seq<Item>, session: nat) {
    forall i, j :: 0 <= i < j < |stream| && stream[i].session == session && stream[j].session == session
      ==> stream[i].mono <= stream[j].mono
  }

  /** An untouched state: no entry is added and nothing changes. */
  lemma {:induction false} UntouchedUnchanged(b: BookValue, changes: seq<Change>, token: nat)
    requires forall i :: 0 <= i < |changes| ==> changes[i].asset != token
    ensures ApplyAll(AbsoluteModel, b, changes, token) == b
  {
    if changes != [] {
      UntouchedUnchanged(b, changes[..|changes| - 1], token);
    }
  }

  lemma {:induction false} ReplayPrefix(stream: seq<Item>, more: seq<Item>, n: nat, key: Key)
    requires n <= |stream|
    ensures Replay(AbsoluteModel, stream + more, n, key) == Replay(AbsoluteModel, stream, n, key)
  {
    if n > 0 {
      ReplayPrefix(stream, more, n - 1, key);
      assert (stream + more)[n - 1] == stream[n - 1];
    }
  }

  function BookOf(m: Option<Moment>): Option<BookValue> {
    if m.None? then None else Some(m.value.book)
  }

  /** Replaying what was delivered by t gives the entry the lookup finds. */
  lemma {:induction false} LookupIsReplay(stream: seq<Item>, n: nat, key: Key, t: int)
    requires n <= |stream| && Chronological(stream, key.session)
    ensures var d := Delivered(stream, n, key, t);
      BookOf(LastAtOrBefore(Timeline(stream, n, key), t)) == Replay(AbsoluteModel, d, |d|, key)
    ensures (forall i :: 0 <= i < n && stream[i].session == key.session ==> stream[i].mono <= t)
      ==> var d := Delivered(stream, n, key, t);
          Replay(AbsoluteModel, stream, n, key) == Replay(AbsoluteModel, d, |d|, key)
  {
    if n > 0 {
      LookupIsReplay(stream, n - 1, key, t);
      var it, before := stream[n - 1], Delivered(stream, n - 1, key, t);
      var timeline := Timeline(stream, n - 1, key);
      if it.session == key.session {
        if it.mono <= t {
          forall i | 0 <= i < n && stream[i].session == key.session
            ensures stream[i].mono <= t
          {
          }
          ReplayPrefix(before, [it], |before|, key);
          var here := Replay(AbsoluteModel, stream, n - 1, key);
          assert here == Replay(AbsoluteModel, before, |before|, key);
          if IsChange(it, key) && here.Some? && !Touches(it, key) {
            UntouchedUnchanged(here.value, it.event.changes, key.token);
          }
        } else {
          TimelineStep(stream, n, key);
        }
      }
    }
  }

  lemma TimelineStep(stream: seq<Item>, n: nat, key: Key)
    requires 0 < n <= |stream|
    ensures var before, here := Timeline(stream, n - 1, key), Timeline(stream, n, key);
      || here == before
      || (here[..|here| - 1] == before && |here| == |before| + 1 && here[|here| - 1].mono == stream[n - 1].mono)
  {
  }
}
