// Under the absolute rule a replayed level is what was last written to it, and
// the book the replay started from matters only where nothing was written
// (research/run836a_clob_reconstruct.py, lines 109-116 and 411-457).
module LastWriter {
  import opened Wrappers
  import opened PriceKeys
  import opened BookState
  import opened BookReplay

  // ---- one run of changes -------------------------------------------------

  /** The size the changes last wrote to a level, if they wrote to it. */
  function LastWritten(changes: seq<Change>, token: nat, z: Slot): Option<real> {
    if changes == [] then None
    else
      var ch := changes[|changes| - 1];
      if Writes(ch, token, z) then Some(ch.size) else LastWritten(changes[..|changes| - 1], token, z)
  }

  predicate Writes(ch: Change, token: nat, z: Slot) {
    ch.asset == token && ch.side == z.0 && Norm(ch.price) == z.1
  }

  /** The i-th change writes to the level and no later one does. */
  ghost predicate IsLastWrite(changes: seq<Change>, i: nat, token: nat, z: Slot) {
    && i < |changes| && Writes(changes[i], token, z)
    && forall j :: i < j < |changes| ==> !Writes(changes[j], token, z)
  }

  lemma {:induction false} LastWrittenIs(changes: seq<Change>, i: nat, token: nat, z: Slot)
    requires IsLastWrite(changes, i, token, z)
    ensures LastWritten(changes, token, z) == Some(changes[i].size)
  {
    var n := |changes| - 1;
    if i < n {
      LastWrittenIs(changes[..n], i, token, z);
    }
  }

  lemma {:induction false} WrittenHasLast(changes: seq<Change>, token: nat, z: Slot) returns (i: nat)
    requires LastWritten(changes, token, z).Some?
    ensures IsLastWrite(changes, i, token, z)
  {
    var n := |changes| - 1;
    if Writes(changes[n], token, z) {
      i := n;
    } else {
      i := WrittenHasLast(changes[..n], token, z);
      StillLast(changes[..n], changes[n], i, token, z);
      assert changes == changes[..n] + [changes[n]];
    }
  }

  lemma StillLast(init: seq<Change>, ch: Change, i: nat, token: nat, z: Slot)
    requires IsLastWrite(init, i, token, z) && !Writes(ch, token, z)
    ensures IsLastWrite(init + [ch], i, token, z)
  {
  }

  lemma {:induction false} WrittenIffTouched(changes: seq<Change>, token: nat, z: Slot)
    ensures LastWritten(changes, token, z).Some? <==> z in TouchedBy(changes, token)
  {
    if changes != [] {
      var n := |changes|;
      WrittenIffTouched(changes[..n - 1], token, z);
      TouchedByAppend(changes, n - 1, token);
      assert changes[..n] == changes;
    }
  }

  /** At a written level the state is the last size written, absent when that is
      zero; elsewhere it is what it was. */
  ghost predicate IsAsWritten(after: BookValue, before: BookValue, last: Option<real>, z: Slot) {
    match last
    case Some(size) => if size == 0.0 then z.1 !in SideOf(after, z.0) else IsAt(after, z, size)
    case None => AgreeAt(after, before, z)
  }

  ghost predicate IsAt(b: BookValue, z: Slot, size: real) {
    z.1 in SideOf(b, z.0) && SideOf(b, z.0)[z.1] == size
  }

  /** Two books show the same at a level, absence included. */
  ghost predicate AgreeAt(b: BookValue, c: BookValue, z: Slot) {
    && (z.1 in SideOf(b, z.0) <==> z.1 in SideOf(c, z.0))
    && SizeAt(SideOf(b, z.0), z.1) == SizeAt(SideOf(c, z.0), z.1)
  }

  lemma {:induction false} LastChangeWins(b: BookValue, changes: seq<Change>, token: nat, z: Slot)
    ensures IsAsWritten(ApplyAll(AbsoluteModel, b, changes, token), b, LastWritten(changes, token, z), z)
  {
    if changes != [] {
      LastChangeWins(b, changes[..|changes| - 1], token, z);
    }
  }

  // ---- a whole stream -----------------------------------------------------

  /** All the changes of the session since the last book, event after event. */
  function Since(stream: seq<Item>, n: nat, key: Key): seq<Change>
    requires n <= |stream|
  {
    if n == 0 || IsBook(stream[n - 1], key) then []
    else Since(stream, n - 1, key) + (if IsChange(stream[n - 1], key) then stream[n - 1].event.changes else [])
  }

  function LastBook(stream: seq<Item>, n: nat, key: Key): Option<BookValue>
    requires n <= |stream|
  {
    if n == 0 then None
    else if IsBook(stream[n - 1], key) then Some(FromSnapshotValue(stream[n - 1].event.book))
    else LastBook(stream, n - 1, key)
  }

  lemma {:induction false} ApplyConcat(model: Model, b: BookValue, c: seq<Change>, d: seq<Change>, token: nat)
    ensures ApplyAll(model, b, c + d, token) == ApplyAll(model, ApplyAll(model, b, c, token), d, token)
  {
    if d == [] {
      assert c + d == c;
    } else {
      assert (c + d)[..|c + d| - 1] == c + d[..|d| - 1];
      ApplyConcat(model, b, c, d[..|d| - 1], token);
    }
  }

  lemma TouchedByConcat(c: seq<Change>, d: seq<Change>, token: nat)
    ensures TouchedBy(c + d, token) == TouchedBy(c, token) + TouchedBy(d, token)
  {
    assert forall ch :: ch in c + d <==> ch in c || ch in d;
    forall z
      ensures z in TouchedBy(c + d, token) <==> z in TouchedBy(c, token) || z in TouchedBy(d, token)
    {
    }
  }

  /** Under either rule the replayed state is the last book with every change since
      applied to it in order, however they were spread over events. */
  lemma {:induction false} ReplayIsSince(model: Model, stream: seq<Item>, n: nat, key: Key)
    requires n <= |stream|
    ensures Replay(model, stream, n, key)
         == match LastBook(stream, n, key)
            case None => None
            case Some(b) => Some(ApplyAll(model, b, Since(stream, n, key), key.token))
  {
    if n > 0 && !IsBook(stream[n - 1], key) {
      ReplayIsSince(model, stream, n - 1, key);
      var base, before, it := LastBook(stream, n - 1, key), Since(stream, n - 1, key), stream[n - 1];
      if IsChange(it, key) && base.Some? {
        ApplyConcat(model, base.value, before, it.event.changes, key.token);
      } else if !IsChange(it, key) {
        assert before + [] == before;
      }
    }
  }

  lemma {:induction false} CountForConcat(c: seq<Change>, d: seq<Change>, token: nat)
    ensures CountFor(c + d, token) == CountFor(c, token) + CountFor(d, token)
  {
    if d == [] {
      assert c + d == c;
    } else {
      assert (c + d)[..|c + d| - 1] == c + d[..|d| - 1];
      CountForConcat(c, d[..|d| - 1], token);
    }
  }

  /** A checkpoint's updates_since_prior_book counts those of them for its token. */
  lemma {:induction false} UpdatesSince(model: Model, stream: seq<Item>, n: nat, key: Key)
    requires n <= |stream|
    ensures Updates(model, stream, n, key)
         == if LastBook(stream, n, key).Some? then CountFor(Since(stream, n, key), key.token) else 0
  {
    if n > 0 && !IsBook(stream[n - 1], key) {
      UpdatesSince(model, stream, n - 1, key);
      StateIffBook(model, stream, n - 1, key);
      if IsChange(stream[n - 1], key) {
        CountForConcat(Since(stream, n - 1, key), stream[n - 1].event.changes, key.token);
      } else {
        assert Since(stream, n - 1, key) + [] == Since(stream, n - 1, key);
      }
    }
  }

  lemma StateIffBook(model: Model, stream: seq<Item>, n: nat, key: Key)
    requires n <= |stream|
    ensures Replay(model, stream, n, key).Some? <==> LastBook(stream, n, key).Some?
  {
    ReplayIsSince(model, stream, n, key);
  }

  lemma {:induction false} NoneForToken(model: Model, b: BookValue, changes: seq<Change>, token: nat)
    requires CountFor(changes, token) == 0
    ensures ApplyAll(model, b, changes, token) == b
  {
    if changes != [] {
      NoneForToken(model, b, changes[..|changes| - 1], token);
    }
  }

  /** After no updates the scored book is the last book, under either rule, so that
      such a divergence is one between two consecutive snapshots. */
  lemma NoUpdatesNoChange(model: Model, stream: seq<Item>, n: nat, key: Key)
    requires n <= |stream| && Updates(model, stream, n, key) == 0
    ensures Replay(model, stream, n, key) == LastBook(stream, n, key)
  {
    UpdatesSince(model, stream, n, key);
    ReplayIsSince(model, stream, n, key);
    if LastBook(stream, n, key).Some? {
      NoneForToken(model, LastBook(stream, n, key).value, Since(stream, n, key), key.token);
    }
  }

  /** The attribution replay touches exactly the levels those changes write to. */
  lemma {:induction false} WindowSince(stream: seq<Item>, n: nat, key: Key)
    requires n <= |stream|
    ensures var w := WindowAt(stream, n, key);
      && w.base == LastBook(stream, n, key) && (w.state.Some? <==> w.base.Some?)
      && w.touched == if w.base.Some? then TouchedBy(Since(stream, n, key), key.token) else {}
  {
    if n > 0 && !IsBook(stream[n - 1], key) {
      WindowSince(stream, n - 1, key);
      var before, it := Since(stream, n - 1, key), stream[n - 1];
      if IsChange(it, key) {
        TouchedByConcat(before, it.event.changes, key.token);
      } else {
        assert before + [] == before;
      }
    }
  }

  /** In every reachable state a level is what was last written to it since the last
      book, by whichever event, and what that book showed if nothing was. */
  lemma LastWriterWins(stream: seq<Item>, n: nat, key: Key, z: Slot)
    requires n <= |stream| && LastBook(stream, n, key).Some?
    ensures Replay(AbsoluteModel, stream, n, key).Some?
    ensures IsAsWritten(Replay(AbsoluteModel, stream, n, key).value, LastBook(stream, n, key).value,
                        LastWritten(Since(stream, n, key), key.token, z), z)
  {
    ReplayIsSince(AbsoluteModel, stream, n, key);
    LastChangeWins(LastBook(stream, n, key).value, Since(stream, n, key), key.token, z);
  }

  // ---- streams that differ in their books ---------------------------------

  /** The same item, but for what a book shows. */
  predicate SameButBook(a: Item, b: Item) {
    && a.session == b.session
    && if a.event.BookEvent? then b.event.BookEvent? && a.event.asset == b.event.asset else a.event == b.event
  }

  ghost predicate SameButBooks(s: seq<Item>, t: seq<Item>) {
    |s| == |t| && forall i :: 0 <= i < |s| ==> SameButBook(s[i], t[i])
  }

  lemma {:induction false} SameSince(s: seq<Item>, t: seq<Item>, n: nat, key: Key)
    requires SameButBooks(s, t) && n <= |s|
    ensures Since(s, n, key) == Since(t, n, key)
    ensures LastBook(s, n, key).Some? <==> LastBook(t, n, key).Some?
  {
    if n > 0 {
      SameSince(s, t, n - 1, key);
      assert SameButBook(s[n - 1], t[n - 1]);
    }
  }

  /** Two windows agree at a level exactly where it has been touched since the last
      book or the books themselves agree. */
  ghost predicate AgreeIffTouched(v: Window, w: Window, z: Slot)
    requires v.base.Some? && v.state.Some? && w.base.Some? && w.state.Some?
  {
    AgreeAt(v.state.value, w.state.value, z) <==> z in v.touched || AgreeAt(v.base.value, w.base.value, z)
  }

  /** Change the contents of every book of a stream: the same levels are touched, and
      at every moment the two replays agree at each of them, and elsewhere only as
      far as the last books do. */
  lemma BootstrapDoesNotMatter(s: seq<Item>, t: seq<Item>, n: nat, key: Key, z: Slot)
    requires SameButBooks(s, t) && n <= |s|
    ensures var v, w := WindowAt(s, n, key), WindowAt(t, n, key);
      && v.touched == w.touched
      && v.state.Some? == w.state.Some? == v.base.Some? == w.base.Some?
      && (v.state.Some? ==> AgreeIffTouched(v, w, z))
  {
    SameSince(s, t, n, key);
    WindowSince(s, n, key);
    WindowSince(t, n, key);
    if LastBook(s, n, key).Some? {
      WindowFollowsReplay(s, n, key);
      WindowFollowsReplay(t, n, key);
      WrittenIffTouched(Since(s, n, key), key.token, z);
      LastWriterWins(s, n, key, z);
      LastWriterWins(t, n, key, z);
    }
  }
}
