// Definitions the other modules share.
module Wrappers {
  /** A value that may be absent. */
  datatype Option<+T> = None | Some(value: T)

  lemma SubsetNoLarger<T>(s: set<T>, t: set<T>)
    requires s <= t
    ensures |s| <= |t|
  {
    assert t == s + (t - s);
  }

  /** The first n rows, one after another. */
  function Concat<T>(rows: nat -> seq<T>, n: nat): seq<T> {
    if n == 0 then [] else Concat(rows, n - 1) + rows(n - 1)
  }
}
