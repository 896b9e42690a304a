// What a replayed book shows, said of the positions of the stream alone: which
// item is the last book, and which change the last to write to a level
// (research/run836a_clob_reconstruct.py, lines 74-147, 411-457 and 482-525).
module StreamState {
  import opened Wrappers
  import opened Counting
  import opened PriceKeys
  import opened BookState
  import opened BookReplay
  import opened LastWriter

  /** The i-th item is a book of the session and token followed. */
  predicate BookAt(stream: seq<Item>, i: nat, key: Key) {
    && i < |stream| && stream[i].session == key.session
    && match stream[i].event
       case BookEvent(asset, _) => asset == key.token
       case PriceChange(_) => false
       case OtherEvent => false
  }

  /** The l-th change of the j-th item is of the session and token followed. */
  predicate ChangeAt(stream: seq<Item>, j: nat, l: nat, key: Key) {
    && j < |stream| && stream[j].session == key.session
    && match stream[j].event
       case BookEvent(_, _) => false
       case PriceChange(changes) => l < |changes| && changes[l].asset == key.token
       case OtherEvent => false
  }

  /** It writes to a level: the level's side, and a price with the level's key. */
  predicate WriteAt(stream: seq<Item>, j: nat, l: nat, key: Key, z: Slot) {
    && ChangeAt(stream, j, l, key)
    && stream[j].event.changes[l].side == z.0 && Norm(stream[j].event.changes[l].price) == z.1
  }

  function SizeWritten(stream: seq<Item>, j: nat, l: nat, key: Key): real
    requires ChangeAt(stream, j, l, key)
  {
    stream[j].event.changes[l].size
  }

  /** Among the first n items the i-th is the last book. */
  ghost predicate LastBookAt(stream: seq<Item>, n: nat, i: nat, key: Key) {
    i < n && BookAt(stream, i, key) && forall j: nat :: i < j < n ==> !BookAt(stream, j, key)
  }

  /** Change l of item j comes after item i, among the first n items. */
  ghost predicate WriteBetween(stream: seq<Item>, i: nat, n: nat, j: nat, l: nat, key: Key, z: Slot) {
    i < j < n && WriteAt(stream, j, l, key, z)
  }

  /** It is the last of those to write to the level. */
  ghost predicate LastWriteAt(stream: seq<Item>, i: nat, n: nat, j: nat, l: nat, key: Key, z: Slot) {
    && WriteBetween(stream, i, n, j, l, key, z)
    && forall j': nat, l': nat :: WriteBetween(stream, i, n, j', l', key, z) ==> j' < j || (j' == j && l' <= l)
  }

  /** The level shows this size, or nothing for a zero. */
  ghost predicate ShowsAt(b: BookValue, z: Slot, size: real) {
    if size == 0.0 then z.1 !in SideOf(b, z.0) else IsAt(b, z, size)
  }

  function LevelsOn(s: Snapshot, side: Side): seq<QuoteLevel> {
    match side
    case Buy => s.bids
    case Sell => s.asks
  }

  /** The level is as a snapshot gives it: its last size for that key, if it has one. */
  ghost predicate AsSnapshot(b: BookValue, z: Slot, s: Snapshot) {
    && (forall x: nat :: IsLastLevel(LevelsOn(s, z.0), x, z.1) ==> IsAt(b, z, LevelsOn(s, z.0)[x].size))
    && (z.1 in SideOf(b, z.0) <==> GivesSize(LevelsOn(s, z.0), z.1))
  }

  // ---- the last book ------------------------------------------------------

  lemma {:induction false} LastBookIs(stream: seq<Item>, n: nat, i: nat, key: Key)
    requires n <= |stream| && LastBookAt(stream, n, i, key)
    ensures LastBook(stream, n, key) == Some(FromSnapshotValue(stream[i].event.book))
  {
    if i < n - 1 {
      assert !BookAt(stream, n - 1, key);
      LastBookIs(stream, n - 1, i, key);
    }
  }

  lemma {:induction false} NoBookYet(stream: seq<Item>, n: nat, key: Key)
    requires n <= |stream| && forall i: nat :: i < n ==> !BookAt(stream, i, key)
    ensures LastBook(stream, n, key) == None
  {
    if n > 0 {
      assert !BookAt(stream, n - 1, key);
      NoBookYet(stream, n - 1, key);
    }
  }

  // ---- the changes since --------------------------------------------------

  lemma {:induction false} LastWrittenConcat(c: seq<Change>, d: seq<Change>, token: nat, z: Slot)
    ensures LastWritten(c + d, token, z)
         == if LastWritten(d, token, z).Some? then LastWritten(d, token, z) else LastWritten(c, token, z)
  {
    if d == [] {
      assert c + d == c;
    } else {
      assert (c + d)[..|c + d| - 1] == c + d[..|d| - 1];
      LastWrittenConcat(c, d[..|d| - 1], token, z);
    }
  }

  lemma ItemWrites(stream: seq<Item>, j: nat, key: Key, z: Slot)
    requires j < |stream| && IsChange(stream[j], key)
    ensures LastWritten(stream[j].event.changes, key.token, z).Some? <==> exists l: nat :: WriteAt(stream, j, l, key, z)
  {
    var changes := stream[j].event.changes;
    if LastWritten(changes, key.token, z).Some? {
      var l := WrittenHasLast(changes, key.token, z);
      assert WriteAt(stream, j, l, key, z);
    }
    if l: nat :| WriteAt(stream, j, l, key, z) {
      WrittenIffTouched(changes, key.token, z);
      assert changes[l] in changes;
    }
  }

  lemma ItemWritesLast(stream: seq<Item>, i: nat, n: nat, j: nat, l: nat, key: Key, z: Slot)
    requires LastWriteAt(stream, i, n, j, l, key, z)
    ensures IsChange(stream[j], key)
    ensures LastWritten(stream[j].event.changes, key.token, z) == Some(SizeWritten(stream, j, l, key))
  {
    var changes := stream[j].event.changes;
    forall x: nat | l < x < |changes|
      ensures !Writes(changes[x], key.token, z)
    {
      assert !WriteBetween(stream, i, n, j, x, key, z);
    }
    LastWrittenIs(changes, l, key.token, z);
  }

  /** The last write since the last book is what Since last wrote. */
  lemma {:induction false} SinceWrites(stream: seq<Item>, i: nat, n: nat, j: nat, l: nat, key: Key, z: Slot)
    requires n <= |stream| && LastBookAt(stream, n, i, key) && LastWriteAt(stream, i, n, j, l, key, z)
    ensures LastWritten(Since(stream, n, key), key.token, z) == Some(SizeWritten(stream, j, l, key))
  {
    var m := n - 1;
    if j == m {
      ItemWritesLast(stream, i, n, j, l, key, z);
      LastWrittenConcat(Since(stream, m, key), stream[m].event.changes, key.token, z);
    } else {
      StillLastWrite(stream, i, n, m, j, l, key, z);
      SinceWrites(stream, i, m, j, l, key, z);
      SinceUnwritten(stream, i, n, m, j, l, key, z);
    }
  }

  lemma StillLastWrite(stream: seq<Item>, i: nat, n: nat, m: nat, j: nat, l: nat, key: Key, z: Slot)
    requires n == m + 1 && j != m && LastBookAt(stream, n, i, key) && LastWriteAt(stream, i, n, j, l, key, z)
    ensures LastBookAt(stream, m, i, key) && LastWriteAt(stream, i, m, j, l, key, z)
  {
    forall j': nat, l': nat | WriteBetween(stream, i, m, j', l', key, z)
      ensures j' < j || (j' == j && l' <= l)
    {
      assert WriteBetween(stream, i, n, j', l', key, z);
    }
  }

  /** The item after the last write leaves what Since last wrote as it was. */
  lemma SinceUnwritten(stream: seq<Item>, i: nat, n: nat, m: nat, j: nat, l: nat, key: Key, z: Slot)
    requires n == m + 1 && n <= |stream| && j < m && LastBookAt(stream, n, i, key)
    requires LastWriteAt(stream, i, n, j, l, key, z)
    ensures LastWritten(Since(stream, n, key), key.token, z) == LastWritten(Since(stream, m, key), key.token, z)
  {
    assert !BookAt(stream, m, key);
    if IsChange(stream[m], key) {
      forall x: nat
        ensures !WriteAt(stream, m, x, key, z)
      {
        assert !WriteBetween(stream, i, n, m, x, key, z);
      }
      ItemWrites(stream, m, key, z);
      LastWrittenConcat(Since(stream, m, key), stream[m].event.changes, key.token, z);
    } else {
      assert Since(stream, m, key) + [] == Since(stream, m, key);
    }
  }

  lemma {:induction false} NothingWritten(stream: seq<Item>, i: nat, n: nat, key: Key, z: Slot)
    requires n <= |stream| && LastBookAt(stream, n, i, key)
    requires forall j: nat, l: nat :: !WriteBetween(stream, i, n, j, l, key, z)
    ensures LastWritten(Since(stream, n, key), key.token, z) == None
  {
    var m := n - 1;
    if i < m {
      NothingBefore(stream, i, n, m, key, z);
      NothingWritten(stream, i, m, key, z);
      assert !BookAt(stream, m, key);
      if IsChange(stream[m], key) {
        forall x: nat
          ensures !WriteAt(stream, m, x, key, z)
        {
          assert !WriteBetween(stream, i, n, m, x, key, z);
        }
        ItemWrites(stream, m, key, z);
        LastWrittenConcat(Since(stream, m, key), stream[m].event.changes, key.token, z);
      } else {
        assert Since(stream, m, key) + [] == Since(stream, m, key);
      }
    }
  }

  lemma NothingBefore(stream: seq<Item>, i: nat, n: nat, m: nat, key: Key, z: Slot)
    requires n == m + 1 && i < m && LastBookAt(stream, n, i, key)
    requires forall j: nat, l: nat :: !WriteBetween(stream, i, n, j, l, key, z)
    ensures LastBookAt(stream, m, i, key) && forall j: nat, l: nat :: !WriteBetween(stream, i, m, j, l, key, z)
  {
    forall j: nat, l: nat
      ensures !WriteBetween(stream, i, m, j, l, key, z)
    {
      assert !WriteBetween(stream, i, n, j, l, key, z);
    }
  }

  // ---- what the state shows -----------------------------------------------

  lemma SnapshotIs(s: Snapshot, z: Slot)
    ensures AsSnapshot(FromSnapshotValue(s), z, s)
  {
    SnapshotShows(s.bids);
    SnapshotShows(s.asks);
  }

  /** In every state the absolute rule reaches, a level shows the size of the last
      change to write to it since the last book, and is as that book's snapshot gives
      it if none did. Before the first book there is no state. */
  lemma StateShows(stream: seq<Item>, n: nat, key: Key, i: nat, z: Slot)
    requires n <= |stream| && LastBookAt(stream, n, i, key)
    ensures var st := Replay(AbsoluteModel, stream, n, key);
      && st.Some?
      && (forall j: nat, l: nat :: LastWriteAt(stream, i, n, j, l, key, z) ==>
            ShowsAt(st.value, z, SizeWritten(stream, j, l, key)))
      && ((forall j: nat, l: nat :: !WriteBetween(stream, i, n, j, l, key, z)) ==>
            AsSnapshot(st.value, z, stream[i].event.book))
  {
    LastBookIs(stream, n, i, key);
    LastWriterWins(stream, n, key, z);
    var after := Replay(AbsoluteModel, stream, n, key).value;
    forall j: nat, l: nat | LastWriteAt(stream, i, n, j, l, key, z)
      ensures ShowsAt(after, z, SizeWritten(stream, j, l, key))
    {
      SinceWrites(stream, i, n, j, l, key, z);
    }
    if forall j: nat, l: nat :: !WriteBetween(stream, i, n, j, l, key, z) {
      NothingWritten(stream, i, n, key, z);
      SnapshotIs(stream[i].event.book, z);
    }
  }

  lemma NoStateYet(model: Model, stream: seq<Item>, n: nat, key: Key)
    requires n <= |stream| && forall i: nat :: i < n ==> !BookAt(stream, i, key)
    ensures Replay(model, stream, n, key) == None
  {
    NoBookYet(stream, n, key);
    ReplayIsSince(model, stream, n, key);
  }

  /** The touched levels are those some change has written to since the last book;
      the outstanding zeros those whose last write had size zero. */
  lemma WindowShows(stream: seq<Item>, n: nat, key: Key, i: nat, z: Slot)
    requires n <= |stream| && LastBookAt(stream, n, i, key)
    ensures z in WindowAt(stream, n, key).touched <==> exists j: nat, l: nat :: WriteBetween(stream, i, n, j, l, key, z)
    ensures forall j: nat, l: nat :: LastWriteAt(stream, i, n, j, l, key, z) ==>
      (z in WindowAt(stream, n, key).zeroed <==> SizeWritten(stream, j, l, key) == 0.0)
    ensures z in WindowAt(stream, n, key).zeroed ==> z in WindowAt(stream, n, key).touched
  {
    LastBookIs(stream, n, i, key);
    WindowSince(stream, n, key);
    WrittenIffTouched(Since(stream, n, key), key.token, z);
    ZeroedSince(stream, n, key, z);
    if j: nat, l: nat :| WriteBetween(stream, i, n, j, l, key, z) {
      var jl := LatestWrite(stream, i, n, j, l, key, z);
      SinceWrites(stream, i, n, jl.0, jl.1, key, z);
    } else {
      NothingWritten(stream, i, n, key, z);
    }
    forall j: nat, l: nat | LastWriteAt(stream, i, n, j, l, key, z)
      ensures LastWritten(Since(stream, n, key), key.token, z) == Some(SizeWritten(stream, j, l, key))
    {
      SinceWrites(stream, i, n, j, l, key, z);
    }
  }

  /** Where there is a write there is a last one. */
  lemma LatestWrite(stream: seq<Item>, i: nat, n: nat, j0: nat, l0: nat, key: Key, z: Slot) returns (jl: (nat, nat))
    requires n <= |stream| && WriteBetween(stream, i, n, j0, l0, key, z)
    ensures LastWriteAt(stream, i, n, jl.0, jl.1, key, z)
    decreases n - j0, |stream[j0].event.changes| - l0
  {
    if LastWriteAt(stream, i, n, j0, l0, key, z) {
      jl := (j0, l0);
    } else {
      var j: nat, l: nat :| WriteBetween(stream, i, n, j, l, key, z) && !(j < j0 || (j == j0 && l <= l0));
      jl := LatestWrite(stream, i, n, j, l, key, z);
    }
  }

  lemma {:induction false} ZeroedConcat(c: seq<Change>, d: seq<Change>, token: nat, zeroed: set<Slot>)
    ensures ZeroedBy(c + d, token, zeroed) == ZeroedBy(d, token, ZeroedBy(c, token, zeroed))
  {
    if d == [] {
      assert c + d == c;
    } else {
      assert (c + d)[..|c + d| - 1] == c + d[..|d| - 1];
      ZeroedConcat(c, d[..|d| - 1], token, zeroed);
    }
  }

  lemma {:induction false} ZeroedIsLast(changes: seq<Change>, token: nat, z: Slot)
    ensures z in ZeroedBy(changes, token, {}) <==> LastWritten(changes, token, z) == Some(0.0)
  {
    if changes != [] {
      ZeroedIsLast(changes[..|changes| - 1], token, z);
    }
  }

  lemma {:induction false} WindowZeroed(stream: seq<Item>, n: nat, key: Key)
    requires n <= |stream|
    ensures WindowAt(stream, n, key).zeroed
         == if LastBook(stream, n, key).Some? then ZeroedBy(Since(stream, n, key), key.token, {}) else {}
  {
    if n > 0 && !IsBook(stream[n - 1], key) {
      WindowZeroed(stream, n - 1, key);
      WindowSince(stream, n - 1, key);
      ZeroedHere(WindowAt(stream, n - 1, key), stream[n - 1], key, Since(stream, n - 1, key));
    }
  }

  lemma ZeroedHere(w: Window, it: Item, key: Key, before: seq<Change>)
    requires !IsBook(it, key) && w.zeroed == if w.state.Some? then ZeroedBy(before, key.token, {}) else {}
    ensures var since := before + (if IsChange(it, key) then it.event.changes else []);
      Advance(w, it, key).zeroed == if w.state.Some? then ZeroedBy(since, key.token, {}) else {}
  {
    if IsChange(it, key) {
      ZeroedConcat(before, it.event.changes, key.token, {});
    } else {
      assert before + [] == before;
    }
  }

  lemma ZeroedSince(stream: seq<Item>, n: nat, key: Key, z: Slot)
    requires n <= |stream| && LastBook(stream, n, key).Some?
    ensures z in WindowAt(stream, n, key).zeroed <==> LastWritten(Since(stream, n, key), key.token, z) == Some(0.0)
  {
    WindowZeroed(stream, n, key);
    ZeroedIsLast(Since(stream, n, key), key.token, z);
  }
}
