// Under the delta rule a level is a queue's content: every change adds its size, and
// what would fall to zero or below is dropped
// (research/run836a_clob_reconstruct.py, lines 119-127 and 411-457).
module DeltaReplay {
  import opened Wrappers
  import opened BookState
  import opened BookReplay
  import opened LastWriter

  /** The sizes the changes write to a level, in order. */
  function SizesTo(changes: seq<Change>, token: nat, z: Slot): seq<real> {
    if changes == [] then []
    else
      var before, ch := SizesTo(changes[..|changes| - 1], token, z), changes[|changes| - 1];
      if Writes(ch, token, z) then before + [ch.size] else before
  }

  function Sum(ds: seq<real>): real {
    if ds == [] then 0.0 else Sum(ds[..|ds| - 1]) + ds[|ds| - 1]
  }

  /** What is left at a level that held `base`, after sizes are added: the largest of
      all of them on top of the base and of each run of the latest, the empty run
      included; so never less than nothing. */
  ghost predicate IsLeft(left: real, base: real, ds: seq<real>) {
    && left >= base + Sum(ds)
    && (forall k :: 0 < k <= |ds| ==> left >= Sum(ds[k..]))
    && (left == base + Sum(ds) || exists k :: 0 < k <= |ds| && left == Sum(ds[k..]))
  }

  lemma SumAppend(ds: seq<real>, d: real)
    ensures Sum(ds + [d]) == Sum(ds) + d
  {
    assert (ds + [d])[..|ds|] == ds;
  }

  lemma SumGrows(ds: seq<real>, d: real, k: nat)
    requires k <= |ds|
    ensures Sum((ds + [d])[k..]) == Sum(ds[k..]) + d
  {
    SumAppend(ds[k..], d);
    assert (ds + [d])[k..] == ds[k..] + [d];
  }

  lemma LeftGrows(left: real, base: real, ds: seq<real>, d: real)
    requires ds == [] ==> left == base
    requires ds != [] ==> IsLeft(left, base, ds)
    ensures IsLeft(if left + d <= 0.0 then 0.0 else left + d, base, ds + [d])
  {
    SumAppend(ds, d);
    var all, after := ds + [d], if left + d <= 0.0 then 0.0 else left + d;
    assert all[|all|..] == [];
    forall k | 0 < k <= |all|
      ensures after >= Sum(all[k..])
    {
      if k <= |ds| {
        SumGrows(ds, d, k);
      }
    }
    if left + d <= 0.0 {
      assert after == Sum(all[|all|..]);
    } else if ds != [] && left != base + Sum(ds) {
      var k :| 0 < k <= |ds| && left == Sum(ds[k..]);
      SumGrows(ds, d, k);
      assert after == Sum(all[k..]);
    }
  }

  /** A level after a run of changes: what is left of the sizes written to it, shown
      only while it is more than nothing; untouched levels stay. */
  ghost predicate IsAsAdded(after: BookValue, before: BookValue, ds: seq<real>, z: Slot) {
    if ds == [] then AgreeAt(after, before, z)
    else
      && IsLeft(SizeAt(SideOf(after, z.0), z.1), SizeAt(SideOf(before, z.0), z.1), ds)
      && (z.1 in SideOf(after, z.0) <==> SizeAt(SideOf(after, z.0), z.1) > 0.0)
  }

  lemma {:induction false} ChangesAdd(b: BookValue, changes: seq<Change>, token: nat, z: Slot)
    ensures IsAsAdded(ApplyAll(DeltaModel, b, changes, token), b, SizesTo(changes, token, z), z)
  {
    if changes != [] {
      var init, ch := changes[..|changes| - 1], changes[|changes| - 1];
      ChangesAdd(b, init, token, z);
      if Writes(ch, token, z) {
        var mid, ds := ApplyAll(DeltaModel, b, init, token), SizesTo(init, token, z);
        OneMoreDelta(mid, b, ds, ch, z);
      }
    }
  }

  lemma OneMoreDelta(mid: BookValue, b: BookValue, ds: seq<real>, ch: Change, z: Slot)
    requires IsAsAdded(mid, b, ds, z) && SlotOf(ch) == z
    ensures IsAsAdded(Apply(DeltaModel, mid, ch), b, ds + [ch.size], z)
  {
    LeftGrows(SizeAt(SideOf(mid, z.0), z.1), SizeAt(SideOf(b, z.0), z.1), ds, ch.size);
  }

  /** In every state the delta rule reaches. */
  lemma DeltaReplayAdds(stream: seq<Item>, n: nat, key: Key, z: Slot)
    requires n <= |stream| && LastBook(stream, n, key).Some?
    ensures Replay(DeltaModel, stream, n, key).Some?
    ensures IsAsAdded(Replay(DeltaModel, stream, n, key).value, LastBook(stream, n, key).value,
                      SizesTo(Since(stream, n, key), key.token, z), z)
  {
    ReplayIsSince(DeltaModel, stream, n, key);
    ChangesAdd(LastBook(stream, n, key).value, Since(stream, n, key), key.token, z);
  }
}
