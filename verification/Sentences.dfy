// The verbatim sentence splitter (research/run85_phasex_kalshi.py, lines 76-114).
// A piece is an interval of the text. What opens a sentence besides a quote or a
// bracket (an upper-case letter or a digit, in the source) and the list of
// abbreviations that do not end one are parameters.
module Sentences {
  import opened PyText

  predicate IsStop(c: char) {
    c == '.' || c == '!' || c == '?'
  }

  predicate IsLetter(c: char) {
    'A' <= c <= 'Z' || 'a' <= c <= 'z'
  }

  /** [A-Za-z0-9.] */
  predicate IsWordChar(c: char) {
    IsLetter(c) || '0' <= c <= '9' || c == '.'
  }

  datatype Grammar = Grammar(upperOrDigit: char -> bool, abbreviations: set<string>)

  predicate Opens(g: Grammar, c: char) {
    g.upperOrDigit(c) || c == '\"' || c == '\'' || c == '('
  }

  const NON_TERMINAL_ABBREVIATIONS: set<string> :=
    {"vs", "v", "no", "nos", "st", "mr", "mrs", "ms", "dr", "prof", "jr", "sr", "inc", "ltd", "co", "corp", "etc",
     "approx", "est", "al", "fig", "ca", "cf", "eg", "ie", "am", "pm", "u.s", "u.k"}

  function AsciiLower(c: char): char {
    if 'A' <= c <= 'Z' then c + 'a' - 'A' else c
  }

  function DropDots(s: string): string {
    if s != [] && s[|s| - 1] == '.' then DropDots(s[..|s| - 1]) else s
  }

  /** Where the run of word characters ending at `e` begins, not before `start`. */
  function WordStart(t: string, start: nat, e: nat): (p: nat)
    requires start <= e <= |t|
    ensures start <= p <= e
  {
    if start < e && IsWordChar(t[e - 1]) then WordStart(t, start, e - 1) else e
  }

  /** The text before the stop at i-1 ends in a known abbreviation or a bare initial. */
  predicate IsAbbreviation(g: Grammar, word: string) {
    var token := Lower(AsciiLower, DropDots(word));
    token in g.abbreviations || (|token| == 1 && IsLetter(token[0]))
  }

  predicate Abbreviates(g: Grammar, t: string, start: nat, i: nat)
    requires start < i <= |t|
  {
    t[i - 1] == '.' && IsAbbreviation(g, t[WordStart(t, start, i - 1)..i - 1])
  }

  /** White space begins here, right after a stop: (?<=[.!?])\s+ */
  predicate MatchAt(t: string, i: nat) {
    0 < i < |t| && IsStop(t[i - 1]) && IsSpace(t[i])
  }

  function RunEnd(t: string, i: nat): (j: nat)
    requires i <= |t|
    ensures i <= j <= |t|
    ensures forall k :: i <= k < j ==> IsSpace(t[k])
    ensures j < |t| ==> !IsSpace(t[j])
    decreases |t| - i
  {
    if i < |t| && IsSpace(t[i]) then RunEnd(t, i + 1) else i
  }

  /** The splitter cuts at i, when the piece being collected began at `start`. */
  predicate CutAt(g: Grammar, t: string, start: nat, i: nat) {
    && start < i && MatchAt(t, i)
    && (RunEnd(t, i) < |t| ==> Opens(g, t[RunEnd(t, i)]))
    && !Abbreviates(g, t, start, i)
  }

  datatype Span = Span(lo: nat, hi: nat)

  function TrimLeft(t: string, lo: nat, hi: nat): (p: nat)
    requires lo <= hi <= |t|
    ensures lo <= p <= hi && (p < hi ==> !IsSpace(t[p])) && forall k :: lo <= k < p ==> IsSpace(t[k])
    decreases hi - lo
  {
    if lo < hi && IsSpace(t[lo]) then TrimLeft(t, lo + 1, hi) else lo
  }

  function TrimRight(t: string, lo: nat, hi: nat): (p: nat)
    requires lo <= hi <= |t|
    ensures lo <= p <= hi && (lo < p ==> !IsSpace(t[p - 1])) && forall k :: p <= k < hi ==> IsSpace(t[k])
  {
    if lo < hi && IsSpace(t[hi - 1]) then TrimRight(t, lo, hi - 1) else hi
  }

  /** t[lo..hi].strip(), as a list of no or one non-empty interval. */
  function Piece(t: string, lo: nat, hi: nat): seq<Span>
    requires lo <= hi <= |t|
  {
    var a := TrimLeft(t, lo, hi);
    if a < hi then [Span(a, TrimRight(t, a, hi))] else []
  }

  function Cuts(g: Grammar, t: string, start: nat, i: nat): seq<Span>
    requires start <= i <= |t|
    decreases |t| - i
  {
    if i == |t| then Piece(t, start, i)
    else if CutAt(g, t, start, i) then
      Piece(t, start, i) + Cuts(g, t, RunEnd(t, i), RunEnd(t, i))
    else Cuts(g, t, start, i + 1)
  }

  function Sentences(g: Grammar, t: string): seq<string> {
    Texts(t, Cuts(g, t, 0, 0))
  }

  function Slice(t: string, s: Span): string {
    if s.lo <= s.hi <= |t| then t[s.lo..s.hi] else []
  }

  function Texts(t: string, spans: seq<Span>): (ps: seq<string>)
    ensures |ps| == |spans| && forall k :: 0 <= k < |spans| ==> ps[k] == Slice(t, spans[k])
  {
    seq(|spans|, k requires 0 <= k < |spans| => Slice(t, spans[k]))
  }

  // ---- the loop -----------------------------------------------------------

  /** The loop over the matches, with `start` moved past each cut. */
  method Split(g: Grammar, t: string) returns (pieces: seq<string>)
    ensures pieces == Sentences(g, t)
  {
    if t == [] {
      assert Cuts(g, t, 0, 0) == [];
      return [];
    }
    var out: seq<Span>, start: nat, i: nat := [], 0, 0;
    while i < |t|
      invariant start <= i <= |t|
      invariant start == 0 || start == |t| || !IsSpace(t[start])
      invariant out + Cuts(g, t, start, i) == Cuts(g, t, 0, 0)
      decreases |t| - i
    {
      if !MatchAt(t, i) {
        i := i + 1;
        continue;
      }
      var e := RunEnd(t, i);
      RestOfRunIsQuiet(g, t, start, i, i + 1);
      if e < |t| && !Opens(g, t[e]) {
        i := e;
        continue;
      }
      if Abbreviates(g, t, start, i) {
        i := e;
        continue;
      }
      out := out + Piece(t, start, i);
      start := e;
      i := e;
    }
    out := out + Piece(t, start, |t|);
    pieces := Texts(t, out);
  }

  /** Inside a run of white space there is no further match. */
  lemma {:induction false} RestOfRunIsQuiet(g: Grammar, t: string, start: nat, i: nat, j: nat)
    requires MatchAt(t, i) && start <= i < j <= RunEnd(t, i)
    ensures Cuts(g, t, start, j) == Cuts(g, t, start, RunEnd(t, i))
    decreases RunEnd(t, i) - j
  {
    if j < RunEnd(t, i) {
      RestOfRunIsQuiet(g, t, start, i, j + 1);
    }
  }

  // ---- lossless -----------------------------------------------------------

  ghost predicate Ordered(spans: seq<Span>, from: nat, n: nat) {
    && (forall k :: 0 <= k < |spans| ==> from <= spans[k].lo < spans[k].hi <= n)
    && (forall k, l :: 0 <= k < l < |spans| ==> spans[k].hi <= spans[l].lo)
  }

  ghost predicate Covered(spans: seq<Span>, x: nat) {
    exists k :: 0 <= k < |spans| && spans[k].lo <= x < spans[k].hi
  }

  lemma {:induction false} CutsLossless(g: Grammar, t: string, start: nat, i: nat)
    requires start <= i <= |t|
    ensures Ordered(Cuts(g, t, start, i), start, |t|)
    ensures forall x :: start <= x < |t| && !IsSpace(t[x]) ==> Covered(Cuts(g, t, start, i), x)
    decreases |t| - i
  {
    if i == |t| {
      PieceCovers(t, start, i);
    } else if CutAt(g, t, start, i) {
      var e := RunEnd(t, i);
      CutsLossless(g, t, e, e);
      PieceCovers(t, start, i);
      var first, rest := Piece(t, start, i), Cuts(g, t, e, e);
      OrderedConcat(first, rest, start, i, e, |t|);
      forall x | start <= x < |t| && !IsSpace(t[x])
        ensures Covered(first + rest, x)
      {
        CoveredConcat(first, rest, x);
      }
    } else {
      CutsLossless(g, t, start, i + 1);
    }
  }

  lemma OrderedConcat(first: seq<Span>, rest: seq<Span>, from: nat, hi: nat, lo: nat, n: nat)
    requires Ordered(first, from, hi) && Ordered(rest, lo, n) && from <= lo && hi <= lo && hi <= n
    ensures Ordered(first + rest, from, n)
  {
  }

  lemma CoveredConcat(first: seq<Span>, rest: seq<Span>, x: nat)
    requires Covered(first, x) || Covered(rest, x)
    ensures Covered(first + rest, x)
  {
    if Covered(first, x) {
      var k :| 0 <= k < |first| && first[k].lo <= x < first[k].hi;
      assert (first + rest)[k] == first[k];
    } else {
      var k :| 0 <= k < |rest| && rest[k].lo <= x < rest[k].hi;
      assert (first + rest)[|first| + k] == rest[k];
    }
  }

  lemma PieceCovers(t: string, lo: nat, hi: nat)
    requires lo <= hi <= |t|
    ensures var p := Piece(t, lo, hi);
      && Ordered(p, lo, hi)
      && forall x :: lo <= x < hi && !IsSpace(t[x]) ==> Covered(p, x)
  {
    forall x | lo <= x < hi && !IsSpace(t[x])
      ensures Covered(Piece(t, lo, hi), x)
    {
      assert Piece(t, lo, hi)[0].lo <= x < Piece(t, lo, hi)[0].hi;
    }
  }

  /** The pieces are ordered, disjoint, non-empty slices, and whatever lies outside
      them is white space. */
  lemma SplitIsLossless(g: Grammar, t: string)
    ensures var spans := Cuts(g, t, 0, 0);
      && Sentences(g, t) == Texts(t, spans) && Ordered(spans, 0, |t|)
      && forall x :: 0 <= x < |t| ==> IsSpace(t[x]) || Covered(spans, x)
  {
    CutsLossless(g, t, 0, 0);
  }

  /** Only one interval both ends on something and leaves nothing outside. */
  lemma EndsAgree(blank: seq<bool>, a: nat, b: nat, c: nat, d: nat)
    requires a <= b <= |blank| && c < d <= |blank|
    requires (forall k :: 0 <= k < a || b <= k < |blank| ==> blank[k]) && (a < b ==> !blank[a] && !blank[b - 1])
    requires (forall k :: 0 <= k < c || d <= k < |blank| ==> blank[k]) && !blank[c] && !blank[d - 1]
    ensures a == c && b == d
  {
  }

  function Blanks(s: string): (r: seq<bool>)
    ensures |r| == |s|
  {
    seq(|s|, k requires 0 <= k < |s| => IsSpace(s[k]))
  }

  lemma StripFound(s: string, c: nat, d: nat)
    requires c < d <= |s| && !IsSpace(s[c]) && !IsSpace(s[d - 1])
    requires forall k :: 0 <= k < c || d <= k < |s| ==> IsSpace(s[k])
    ensures Strip(s) == s[c..d]
  {
    var a, b := StripIsSlice(s);
    assert a < b ==> Strip(s)[0] == s[a] && Strip(s)[b - a - 1] == s[b - 1];
    EndsAgree(Blanks(s), a, b, c, d);
  }

  lemma {:induction false} NothingToStrip(s: string)
    requires forall k :: 0 <= k < |s| ==> IsSpace(s[k])
    ensures StripLeft(s) == "" == Strip(s)
  {
    if s != [] {
      NothingToStrip(s[1..]);
    }
  }

  /** What each piece is: the stripped slice the source appends. */
  lemma PieceIsStrip(t: string, lo: nat, hi: nat)
    requires lo <= hi <= |t|
    ensures Texts(t, Piece(t, lo, hi)) == if Strip(t[lo..hi]) == "" then [] else [Strip(t[lo..hi])]
  {
    var p := TrimLeft(t, lo, hi);
    if p < hi {
      var q := TrimRight(t, p, hi);
      SliceStrips(t, lo, hi, p, q);
    } else {
      BlankSliceStrips(t, lo, hi);
    }
  }

  lemma SliceStrips(t: string, lo: nat, hi: nat, p: nat, q: nat)
    requires lo <= p < q <= hi <= |t| && !IsSpace(t[p]) && !IsSpace(t[q - 1])
    requires forall k :: lo <= k < p || q <= k < hi ==> IsSpace(t[k])
    ensures Strip(t[lo..hi]) == t[p..q]
  {
    var s := t[lo..hi];
    assert forall k :: 0 <= k < |s| ==> s[k] == t[lo + k];
    StripFound(s, p - lo, q - lo);
    SliceOfSlice(t, lo, hi, p - lo, q - lo);
  }

  lemma BlankSliceStrips(t: string, lo: nat, hi: nat)
    requires lo <= hi <= |t| && forall k :: lo <= k < hi ==> IsSpace(t[k])
    ensures Strip(t[lo..hi]) == ""
  {
    var s := t[lo..hi];
    assert forall k :: 0 <= k < |s| ==> s[k] == t[lo + k];
    NothingToStrip(s);
  }

  // ---- stable -------------------------------------------------------------

  /** A piece the splitter leaves whole. */
  ghost predicate Atomic(g: Grammar, p: string) {
    && p != [] && !IsSpace(p[0]) && !IsSpace(p[|p| - 1])
    && forall m :: 0 < m < |p| ==> !CutAt(g, p, 0, m)
  }

  /** Between p and q, separated by white space, the splitter cuts. */
  ghost predicate Parted(g: Grammar, p: string, q: string) {
    p != [] && q != [] && IsStop(p[|p| - 1]) && Opens(g, q[0]) && !Abbreviates(g, p, 0, |p|)
  }

  ghost predicate Settled(g: Grammar, ps: seq<string>) {
    && (forall k :: 0 <= k < |ps| ==> Atomic(g, ps[k]))
    && (forall k :: 0 <= k < |ps| - 1 ==> Parted(g, ps[k], ps[k + 1]))
  }

  lemma {:induction false} WordStartLocal(t: string, start: nat, lo: nat, hi: nat, e: nat)
    requires start <= lo <= e <= hi <= |t| && forall k :: start <= k < lo ==> IsSpace(t[k])
    ensures WordStart(t, start, e) >= lo
    ensures WordStart(t[lo..hi], 0, e - lo) == WordStart(t, start, e) - lo
    decreases e
  {
    if lo < e && IsWordChar(t[e - 1]) {
      WordStartLocal(t, start, lo, hi, e - 1);
    }
  }

  lemma {:induction false} RunEndLocal(t: string, lo: nat, hi: nat, i: nat)
    requires lo <= i < hi <= |t| && !IsSpace(t[hi - 1])
    ensures RunEnd(t, i) < hi && RunEnd(t[lo..hi], i - lo) == RunEnd(t, i) - lo
    decreases hi - i
  {
    if IsSpace(t[i]) {
      RunEndLocal(t, lo, hi, i + 1);
    }
  }

  lemma AbbreviatesLocal(g: Grammar, t: string, start: nat, lo: nat, hi: nat, i: nat)
    requires start <= lo < i <= hi <= |t| && forall k :: start <= k < lo ==> IsSpace(t[k])
    ensures Abbreviates(g, t[lo..hi], 0, i - lo) == Abbreviates(g, t, start, i)
  {
    WordStartLocal(t, start, lo, hi, i - 1);
    var p, e, u := WordStart(t, start, i - 1), i - 1, t[lo..hi];
    SliceOfSlice(t, lo, hi, p - lo, e - lo);
    assert u[e - lo] == t[e];
    SameWordSameEnd(g, u, p - lo, e - lo, t, p, e);
    AbbreviationAt(g, u, 0, i - lo, p - lo);
    AbbreviationAt(g, t, start, i, p);
  }

  lemma AbbreviationAt(g: Grammar, t: string, start: nat, i: nat, p: nat)
    requires start < i <= |t| && p == WordStart(t, start, i - 1)
    ensures Abbreviates(g, t, start, i) <==> t[i - 1] == '.' && IsAbbreviation(g, t[p..i - 1])
  {
  }

  /** The same word before the same stop is the same abbreviation or none. */
  lemma SameWordSameEnd(g: Grammar, u: string, a: nat, b: nat, t: string, p: nat, e: nat)
    requires a <= b < |u| && p <= e < |t| && u[b] == t[e] && u[a..b] == t[p..e]
    ensures u[b] == '.' && IsAbbreviation(g, u[a..b]) <==> t[e] == '.' && IsAbbreviation(g, t[p..e])
  {
  }

  lemma SliceOfSlice(t: string, lo: nat, hi: nat, a: nat, b: nat)
    requires lo <= hi <= |t| && a <= b <= hi - lo
    ensures t[lo..hi][a..b] == t[lo + a..lo + b]
  {
    var u, v := t[lo..hi][a..b], t[lo + a..lo + b];
    forall k | 0 <= k < b - a
      ensures u[k] == v[k]
    {
      assert u[k] == t[lo..hi][a + k] == t[lo + a + k];
    }
  }

  /** Whether the splitter cuts inside a trimmed slice depends on that slice alone. */
  lemma CutAtLocal(g: Grammar, t: string, start: nat, lo: nat, hi: nat, i: nat)
    requires start <= lo < i < hi <= |t| && !IsSpace(t[hi - 1])
    requires forall k :: start <= k < lo ==> IsSpace(t[k])
    ensures CutAt(g, t[lo..hi], 0, i - lo) == CutAt(g, t, start, i)
  {
    var p := t[lo..hi];
    assert p[i - lo - 1] == t[i - 1] && p[i - lo] == t[i];
    RunEndLocal(t, lo, hi, i);
    AbbreviatesLocal(g, t, start, lo, hi, i);
  }

  ghost predicate Quiet(g: Grammar, t: string, start: nat, i: nat) {
    forall m :: start < m < i ==> !CutAt(g, t, start, m)
  }

  /** The slice between two cuts is left whole when split on its own. */
  lemma PieceIsAtomic(g: Grammar, t: string, start: nat, i: nat)
    requires start <= i <= |t| && Quiet(g, t, start, i)
    ensures forall s :: s in Piece(t, start, i) ==> s.lo <= s.hi <= |t| && Atomic(g, t[s.lo..s.hi])
  {
    var ps := Piece(t, start, i);
    if ps != [] {
      var s := ps[0];
      forall m | 0 < m < s.hi - s.lo
        ensures !CutAt(g, t[s.lo..s.hi], 0, m)
      {
        CutAtLocal(g, t, start, s.lo, s.hi, s.lo + m);
      }
    }
  }

  /** A cut puts a settled piece in front of what the rest settled into. */
  lemma CutSettles(g: Grammar, t: string, start: nat, i: nat, rest: seq<Span>)
    requires start <= i < |t| && Quiet(g, t, start, i) && CutAt(g, t, start, i)
    requires start == 0 || !IsSpace(t[start])
    requires Settled(g, Texts(t, rest))
    requires if RunEnd(t, i) < |t| then rest != [] && rest[0].lo == RunEnd(t, i) else rest == []
    ensures Settled(g, Texts(t, Piece(t, start, i) + rest))
    ensures 0 < start ==> (Piece(t, start, i) + rest)[0].lo == start
  {
    PieceIsAtomic(g, t, start, i);
    PieceStart(t, start, i);
    var first := Piece(t, start, i)[0];
    assert Piece(t, start, i) == [first] && first in Piece(t, start, i) && first.hi == i;
    if rest != [] {
      assert Texts(t, rest)[0] == Slice(t, rest[0]) && Atomic(g, Texts(t, rest)[0]);
      CutParts(g, t, start, i, first.lo, rest[0]);
    }
    SettledCons(g, t[first.lo..i], Texts(t, rest));
    TextsCons(t, first, rest);
  }

  lemma LastSettles(g: Grammar, t: string, start: nat)
    requires start <= |t| && Quiet(g, t, start, |t|) && (start == 0 || start == |t| || !IsSpace(t[start]))
    ensures var last := Piece(t, start, |t|);
      Settled(g, Texts(t, last)) && (0 < start < |t| ==> last != [] && last[0].lo == start)
  {
    PieceIsAtomic(g, t, start, |t|);
    PieceStart(t, start, |t|);
  }

  /** What the splitter finds from `start` on, looking from i: settled pieces, the
      first of them right at the start where text begins there. */
  ghost predicate SettledFrom(g: Grammar, t: string, start: nat, i: nat)
    requires start <= i <= |t|
  {
    && Settled(g, Texts(t, Cuts(g, t, start, i)))
    && (0 < start < |t| ==> Cuts(g, t, start, i) != [] && Cuts(g, t, start, i)[0].lo == start)
  }

  lemma SettledAtCut(g: Grammar, t: string, start: nat, i: nat, e: nat)
    requires start <= i < |t| && Quiet(g, t, start, i) && CutAt(g, t, start, i) && e == RunEnd(t, i)
    requires (start == 0 || !IsSpace(t[start])) && SettledFrom(g, t, e, e)
    ensures SettledFrom(g, t, start, i)
  {
    PieceStart(t, start, i);
    CutSettles(g, t, start, i, Cuts(g, t, e, e));
  }

  lemma SettledAtEnd(g: Grammar, t: string, start: nat, i: nat)
    requires start <= i == |t| && Quiet(g, t, start, i) && (start == 0 || start == |t| || !IsSpace(t[start]))
    ensures SettledFrom(g, t, start, i)
  {
    LastSettles(g, t, start);
  }

  lemma SettledPast(g: Grammar, t: string, start: nat, i: nat, next: nat)
    requires start <= i < |t| && next == i + 1 && !CutAt(g, t, start, i) && SettledFrom(g, t, start, next)
    ensures SettledFrom(g, t, start, i)
  {
    assert Cuts(g, t, start, i) == Cuts(g, t, start, next);
  }

  lemma QuietFurther(g: Grammar, t: string, start: nat, i: nat, next: nat)
    requires Quiet(g, t, start, i) && next == i + 1 && !CutAt(g, t, start, i)
    ensures Quiet(g, t, start, next)
  {
  }

  lemma {:induction false} PiecesAreSettled(g: Grammar, t: string, start: nat, i: nat)
    requires start <= i <= |t| && Quiet(g, t, start, i)
    requires start == 0 || start == |t| || !IsSpace(t[start])
    ensures SettledFrom(g, t, start, i)
    decreases |t| - i
  {
    if i == |t| {
      SettledAtEnd(g, t, start, i);
    } else if CutAt(g, t, start, i) {
      var e := RunEnd(t, i);
      PiecesAreSettled(g, t, e, e);
      SettledAtCut(g, t, start, i, e);
    } else {
      var next := i + 1;
      QuietFurther(g, t, start, i, next);
      PiecesAreSettled(g, t, start, next);
      SettledPast(g, t, start, i, next);
    }
  }

  lemma TextsCons(t: string, s: Span, rest: seq<Span>)
    ensures Texts(t, [s] + rest) == [Slice(t, s)] + Texts(t, rest)
  {
  }

  lemma CutParts(g: Grammar, t: string, start: nat, i: nat, lo: nat, next: Span)
    requires start <= lo < i <= |t| && CutAt(g, t, start, i)
    requires forall k :: start <= k < lo ==> IsSpace(t[k])
    requires next.lo == RunEnd(t, i) < next.hi <= |t|
    ensures Parted(g, t[lo..i], Slice(t, next))
  {
    AbbreviatesLocal(g, t, start, lo, i, i);
  }

  lemma PieceStart(t: string, start: nat, i: nat)
    requires start <= i <= |t|
    ensures start < i && !IsSpace(t[start]) ==> Piece(t, start, i) != [] && Piece(t, start, i)[0].lo == start
    ensures start < i && !IsSpace(t[i - 1]) ==> |Piece(t, start, i)| == 1 && Piece(t, start, i)[0].hi == i
  {
  }

  lemma SettledCons(g: Grammar, p: string, ps: seq<string>)
    requires Atomic(g, p) && Settled(g, ps) && (ps != [] ==> Parted(g, p, ps[0]))
    ensures Settled(g, [p] + ps)
  {
    var all := [p] + ps;
    forall k | 0 <= k < |all| - 1
      ensures Parted(g, all[k], all[k + 1])
    {
      if k > 0 {
        assert all[k] == ps[k - 1] && all[k + 1] == ps[k];
      }
    }
  }

  function Join(ps: seq<string>): string {
    if ps == [] then "" else if |ps| == 1 then ps[0] else ps[0] + " " + Join(ps[1..])
  }

  lemma {:induction false} QuietSkips(g: Grammar, t: string, start: nat, i: nat, j: nat)
    requires start <= i <= j <= |t| && forall m :: i <= m < j ==> !CutAt(g, t, start, m)
    ensures Cuts(g, t, start, i) == Cuts(g, t, start, j)
    decreases j - i
  {
    if i < j {
      QuietSkips(g, t, start, i + 1, j);
    }
  }

  lemma WholeSlice(g: Grammar, t: string, b: nat, hi: nat)
    requires b < hi <= |t| && Atomic(g, t[b..hi])
    ensures Cuts(g, t, b, b) == Cuts(g, t, b, hi) && Piece(t, b, hi) == [Span(b, hi)]
  {
    assert t[b..hi][0] == t[b] && t[b..hi][hi - b - 1] == t[hi - 1];
    forall m | b <= m < hi
      ensures !CutAt(g, t, b, m)
    {
      if b < m {
        CutAtLocal(g, t, b, b, hi, m);
      }
    }
    QuietSkips(g, t, b, b, hi);
    PieceStart(t, b, hi);
  }

  /** How the text reads where a joined list begins. */
  lemma JoinReads(t: string, b: nat, ps: seq<string>)
    requires b <= |t| && ps != [] && t[b..] == Join(ps) && forall k :: 0 <= k < |ps| ==> ps[k] != []
    ensures var hi := b + |ps[0]|;
      && hi <= |t| && t[b..hi] == ps[0] && (|ps| == 1 ==> hi == |t|)
      && (|ps| > 1 ==> hi + 1 < |t| && t[hi] == ' ' && t[hi + 1] == ps[1][0] && t[hi + 1..] == Join(ps[1..]))
  {
    var j, p := Join(ps), ps[0];
    assert j[..|p|] == p && t[b..b + |p|] == t[b..][..|p|];
    if |ps| > 1 {
      assert j[|p|] == ' ' && j[|p| + 1..] == Join(ps[1..]);
      JoinHead(ps[1..]);
      assert t[b..][|p| + 1..] == t[b + |p| + 1..];
    }
  }

  lemma CutAfterFirst(g: Grammar, t: string, b: nat, p: string, q: string)
    requires b < b + |p| && b + |p| + 1 < |t| && t[b..b + |p|] == p && t[b + |p|] == ' ' && q != []
    requires t[b + |p| + 1] == q[0]
    requires Atomic(g, p) && Atomic(g, q) && Parted(g, p, q)
    ensures Cuts(g, t, b, b) == [Span(b, b + |p|)] + Cuts(g, t, b + |p| + 1, b + |p| + 1)
  {
    WholeSlice(g, t, b, b + |p|);
    PartedCuts(g, t, b, b + |p|, q);
  }

  lemma OneJoined(g: Grammar, t: string, b: nat, p: string)
    requires b <= |t| && t[b..] == p && Atomic(g, p)
    ensures Texts(t, Cuts(g, t, b, b)) == [p]
  {
    assert t[b..|t|] == p;
    WholeSlice(g, t, b, |t|);
    assert Cuts(g, t, b, |t|) == [Span(b, |t|)] + [];
    TextsCons(t, Span(b, |t|), []);
  }

  lemma SettledOne(g: Grammar, ps: seq<string>)
    requires Settled(g, ps) && |ps| == 1
    ensures Atomic(g, ps[0]) && Join(ps) == ps[0] && ps == [ps[0]]
  {
  }

  /** From any point where a settled list begins, the splitter finds that list. */
  lemma {:induction false} JoinedSplits(g: Grammar, t: string, b: nat, ps: seq<string>)
    requires b <= |t| && t[b..] == Join(ps) && Settled(g, ps) && ps != []
    ensures Texts(t, Cuts(g, t, b, b)) == ps
    decreases |ps|
  {
    if |ps| == 1 {
      SettledOne(g, ps);
      OneJoined(g, t, b, ps[0]);
    } else {
      SettledPieces(g, ps);
      JoinReads(t, b, ps);
      SettledTail(g, ps);
      var next := b + |ps[0]| + 1;
      JoinedSplits(g, t, next, ps[1..]);
      MoreJoined(g, t, b, ps, next);
    }
  }

  lemma MoreJoined(g: Grammar, t: string, b: nat, ps: seq<string>, next: nat)
    requires |ps| > 1 && Atomic(g, ps[0]) && Atomic(g, ps[1]) && Parted(g, ps[0], ps[1])
    requires next == b + |ps[0]| + 1 < |t| && t[b..next - 1] == ps[0] && t[next - 1] == ' ' && t[next] == ps[1][0]
    requires Texts(t, Cuts(g, t, next, next)) == ps[1..]
    ensures Texts(t, Cuts(g, t, b, b)) == ps
  {
    CutAfterFirst(g, t, b, ps[0], ps[1]);
    FirstAndRest(t, b, ps, Cuts(g, t, next, next));
  }

  lemma SettledPieces(g: Grammar, ps: seq<string>)
    requires Settled(g, ps) && ps != []
    ensures (forall k :: 0 <= k < |ps| ==> ps[k] != []) && Atomic(g, ps[0])
    ensures |ps| > 1 ==> Atomic(g, ps[1]) && Parted(g, ps[0], ps[1])
  {
  }

  lemma FirstAndRest(t: string, b: nat, ps: seq<string>, rest: seq<Span>)
    requires ps != [] && b + |ps[0]| <= |t| && t[b..b + |ps[0]|] == ps[0] && Texts(t, rest) == ps[1..]
    ensures Texts(t, [Span(b, b + |ps[0]|)] + rest) == ps
  {
    TextsCons(t, Span(b, b + |ps[0]|), rest);
  }

  lemma PartedCuts(g: Grammar, t: string, b: nat, hi: nat, q: string)
    requires b < hi && hi + 1 < |t| && t[hi] == ' ' && q != [] && t[hi + 1] == q[0] && !IsSpace(q[0])
    requires Parted(g, t[b..hi], q)
    ensures CutAt(g, t, b, hi) && RunEnd(t, hi) == hi + 1
  {
    AbbreviatesLocal(g, t, b, b, hi, hi);
    assert RunEnd(t, hi + 1) == hi + 1;
  }

  lemma JoinHead(ps: seq<string>)
    requires ps != [] && ps[0] != []
    ensures Join(ps) != [] && Join(ps)[0] == ps[0][0]
  {
  }

  lemma SettledTail(g: Grammar, ps: seq<string>)
    requires Settled(g, ps) && |ps| > 1
    ensures Settled(g, ps[1..])
  {
    forall k | 0 <= k < |ps[1..]| - 1
      ensures Parted(g, ps[1..][k], ps[1..][k + 1])
    {
      assert Parted(g, ps[k + 1], ps[k + 1 + 1]);
    }
  }

  /** Splitting the space-joined pieces gives the same pieces. */
  lemma SplitJoinRoundTrip(g: Grammar, t: string)
    ensures Sentences(g, Join(Sentences(g, t))) == Sentences(g, t)
  {
    var ps := Sentences(g, t);
    PiecesAreSettled(g, t, 0, 0);
    if ps == [] {
      assert Cuts(g, "", 0, 0) == [];
    } else {
      var j := Join(ps);
      assert j[0..] == j;
      JoinedSplits(g, j, 0, ps);
    }
  }

  /** Splitting any piece again gives that piece alone. */
  lemma ResplitIsIdentity(g: Grammar, t: string, p: string)
    requires p in Sentences(g, t)
    ensures Sentences(g, p) == [p]
  {
    PiecesAreSettled(g, t, 0, 0);
    assert Join([p]) == p == p[0..];
    JoinedSplits(g, p, 0, [p]);
  }
}
