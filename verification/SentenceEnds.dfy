// Where the splitter cuts and where it does not, said of the characters of the text
// (research/run85_phasex_kalshi.py, lines 70-114).
module SentenceEnds {
  import opened PyText
  import opened S = Sentences

  // ---- the words that do not end a sentence -------------------------------

  predicate WordChar(c: char) {
    'A' <= c <= 'Z' || 'a' <= c <= 'z' || '0' <= c <= '9' || c == '.'
  }

  /** b is the small letter of a, or a itself when it is no capital. */
  predicate Lowered(a: char, b: char) {
    if 'A' <= a <= 'Z' then b as int == a as int + 32 else b == a
  }

  ghost predicate IsListed(g: Grammar, word: string) {
    exists v :: v in g.abbreviations && |v| == |word| && forall k :: 0 <= k < |v| ==> Lowered(word[k], v[k])
  }

  predicate IsInitial(word: string) {
    |word| == 1 && ('A' <= word[0] <= 'Z' || 'a' <= word[0] <= 'z')
  }

  /** s ends in a stop before which a..e is the longest run of word characters, and
      b..e the dots that run ends with. */
  ghost predicate LastWord(s: string, a: nat, b: nat, e: nat) {
    && a <= b <= e < |s| && e == |s| - 1 && s[e] == '.'
    && (forall k :: a <= k < e ==> WordChar(s[k])) && (a == 0 || !WordChar(s[a - 1]))
    && (forall k :: b <= k < e ==> s[k] == '.') && (a < b ==> s[b - 1] != '.')
  }

  /** s ends in an abbreviation's full stop, or an initial's. */
  ghost predicate EndsInAbbreviation(g: Grammar, s: string) {
    exists a: nat, b: nat, e: nat :: LastWord(s, a, b, e) && (IsListed(g, s[a..b]) || IsInitial(s[a..b]))
  }

  lemma {:induction false} WordStartIs(s: string, e: nat)
    requires e <= |s|
    ensures var a := WordStart(s, 0, e);
      (forall k :: a <= k < e ==> WordChar(s[k])) && (a == 0 || !WordChar(s[a - 1]))
  {
    if 0 < e && IsWordChar(s[e - 1]) {
      WordStartIs(s, e - 1);
    }
  }

  lemma {:induction false} DropDotsIs(w: string) returns (n: nat)
    ensures n <= |w| && DropDots(w) == w[..n] && forall k :: n <= k < |w| ==> w[k] == '.'
    ensures n > 0 ==> w[n - 1] != '.'
  {
    if w != [] && w[|w| - 1] == '.' {
      n := DropDotsIs(w[..|w| - 1]);
    } else {
      n := |w|;
    }
  }

  lemma LoweredIs(w: string, v: string)
    ensures Lower(AsciiLower, w) == v <==> |v| == |w| && forall k :: 0 <= k < |v| ==> Lowered(w[k], v[k])
  {
    var l := Lower(AsciiLower, w);
    forall k | 0 <= k < |w|
      ensures Lowered(w[k], l[k])
      ensures forall c :: Lowered(w[k], c) ==> c == l[k]
    {
    }
    if |v| == |w| && forall k :: 0 <= k < |v| ==> Lowered(w[k], v[k]) {
      assert forall k :: 0 <= k < |v| ==> v[k] == l[k];
    }
  }

  lemma ListedIs(g: Grammar, w: string)
    ensures Lower(AsciiLower, w) in g.abbreviations <==> IsListed(g, w)
    ensures (|w| == 1 && IsLetter(Lower(AsciiLower, w)[0])) <==> IsInitial(w)
  {
    LoweredIs(w, Lower(AsciiLower, w));
    if v :| v in g.abbreviations && |v| == |w| && forall k :: 0 <= k < |v| ==> Lowered(w[k], v[k]) {
      LoweredIs(w, v);
    }
  }

  /** There is only one way to read the last word. */
  lemma LastWordUnique(s: string, a: nat, b: nat, e: nat, a': nat, b': nat, e': nat)
    requires LastWord(s, a, b, e) && LastWord(s, a', b', e')
    ensures a == a' && b == b' && e == e'
  {
  }

  /** The last word of a text that ends in a full stop, as the splitter reads it. */
  lemma FoundWord(s: string) returns (a: nat, b: nat)
    requires s != [] && s[|s| - 1] == '.'
    ensures a == WordStart(s, 0, |s| - 1) && LastWord(s, a, b, |s| - 1) && DropDots(s[a..|s| - 1]) == s[a..b]
  {
    var e := |s| - 1;
    a := WordStart(s, 0, e);
    WordStartIs(s, e);
    var w := s[a..e];
    var n := DropDotsIs(w);
    b := a + n;
    assert w[..n] == s[a..b];
    forall k | b <= k < e
      ensures s[k] == '.'
    {
      assert w[k - a] == s[k];
    }
    assert n > 0 ==> w[n - 1] == s[b - 1];
  }

  lemma AbbreviatesMeans(g: Grammar, s: string)
    requires s != []
    ensures Abbreviates(g, s, 0, |s|) <==> EndsInAbbreviation(g, s)
  {
    var e := |s| - 1;
    if s[e] == '.' {
      var a, b := FoundWord(s);
      ListedIs(g, s[a..b]);
      if EndsInAbbreviation(g, s) {
        var a': nat, b': nat, e': nat :|
          LastWord(s, a', b', e') && (IsListed(g, s[a'..b']) || IsInitial(s[a'..b']));
        LastWordUnique(s, a, b, e, a', b', e');
      }
    }
  }

  // ---- where the splitter cuts --------------------------------------------

  predicate StopChar(c: char) {
    c == '.' || c == '!' || c == '?'
  }

  /** A capital, a digit, a quotation mark or an opening bracket. */
  predicate OpensSentence(g: Grammar, c: char) {
    g.upperOrDigit(c) || c == '\'' || c == '\"' || c == '('
  }

  /** In p, a stop is followed at m by white space, and that by what could open a
      sentence. */
  ghost predicate CouldEnd(g: Grammar, p: string, m: nat) {
    && 0 < m < |p| && StopChar(p[m - 1]) && IsSpace(p[m])
    && exists j: nat :: NextText(p, m, j) && OpensSentence(g, p[j])
  }

  predicate NextText(p: string, m: nat, j: nat) {
    m < j < |p| && !IsSpace(p[j]) && forall k :: m <= k < j ==> IsSpace(p[k])
  }

  lemma RunEndIsNext(p: string, m: nat)
    requires m < |p| && IsSpace(p[m]) && !IsSpace(p[|p| - 1])
    ensures NextText(p, m, RunEnd(p, m)) && forall j: nat :: NextText(p, m, j) ==> j == RunEnd(p, m)
  {
    var e := RunEnd(p, m);
    assert e < |p|;
  }

  lemma CutMeans(g: Grammar, p: string, m: nat)
    requires 0 < m < |p| && !IsSpace(p[|p| - 1])
    ensures CutAt(g, p, 0, m) <==> CouldEnd(g, p, m) && !EndsInAbbreviation(g, p[..m])
  {
    AbbreviatesMeans(g, p[..m]);
    AbbreviatesLocal(g, p, 0, 0, m, m);
    assert p[0..m] == p[..m];
    if IsSpace(p[m]) {
      RunEndIsNext(p, m);
    }
  }

  /** No stop inside p ends a sentence: those that could belong to a word that does not. */
  ghost predicate OneSentence(g: Grammar, p: string) {
    p != [] && forall m: nat :: CouldEnd(g, p, m) ==> EndsInAbbreviation(g, p[..m])
  }

  /** p ends in a stop that no abbreviation or initial accounts for, and q opens like a
      sentence. */
  ghost predicate TwoSentences(g: Grammar, p: string, q: string) {
    p != [] && q != [] && StopChar(p[|p| - 1]) && OpensSentence(g, q[0]) && !EndsInAbbreviation(g, p)
  }

  lemma AtomicIsOne(g: Grammar, p: string)
    requires Atomic(g, p)
    ensures OneSentence(g, p)
  {
    forall m: nat | CouldEnd(g, p, m)
      ensures EndsInAbbreviation(g, p[..m])
    {
      CutMeans(g, p, m);
    }
  }

  lemma PartedAreTwo(g: Grammar, p: string, q: string)
    requires Parted(g, p, q)
    ensures TwoSentences(g, p, q)
  {
    AbbreviatesMeans(g, p);
  }

  /** Two pieces stand in the text with white space, and nothing else, between them. */
  ghost predicate Apart(t: string, a: Span, b: Span) {
    a.hi < b.lo <= |t| && forall x :: a.hi <= x < b.lo ==> IsSpace(t[x])
  }

  ghost predicate AllApart(t: string, spans: seq<Span>) {
    forall k :: 0 <= k < |spans| - 1 ==> Apart(t, spans[k], spans[k + 1])
  }

  lemma {:induction false} CutsApart(g: Grammar, t: string, start: nat, i: nat)
    requires start <= i <= |t|
    ensures AllApart(t, Cuts(g, t, start, i))
    decreases |t| - i
  {
    if i == |t| {
    } else if CutAt(g, t, start, i) {
      var e := RunEnd(t, i);
      CutsApart(g, t, e, e);
      CutsLossless(g, t, e, e);
      ApartAtCut(g, t, start, i, e, Cuts(g, t, e, e));
    } else {
      CutsApart(g, t, start, i + 1);
    }
  }

  lemma ApartAtCut(g: Grammar, t: string, start: nat, i: nat, e: nat, rest: seq<Span>)
    requires start <= i < |t| && CutAt(g, t, start, i) && e == RunEnd(t, i)
    requires AllApart(t, rest) && Ordered(rest, e, |t|)
    requires forall x :: e <= x < |t| && !IsSpace(t[x]) ==> Covered(rest, x)
    ensures AllApart(t, Piece(t, start, i) + rest)
  {
    PieceStart(t, start, i);
    var first := Piece(t, start, i)[0];
    if rest != [] {
      BlankBefore(t, rest, e);
      assert Apart(t, first, rest[0]);
    }
    var all := [first] + rest;
    forall k | 0 <= k < |all| - 1
      ensures Apart(t, all[k], all[k + 1])
    {
      assert k > 0 ==> Apart(t, rest[k - 1], rest[k]);
    }
  }

  lemma BlankBefore(t: string, rest: seq<Span>, e: nat)
    requires rest != [] && e <= |t| && Ordered(rest, e, |t|)
    requires forall x :: e <= x < |t| && !IsSpace(t[x]) ==> Covered(rest, x)
    ensures forall x :: e <= x < rest[0].lo ==> IsSpace(t[x])
  {
  }

  /** The pieces stand apart in the text; each is one sentence, and any two that follow
      one another are two. */
  lemma WhereItCuts(g: Grammar, t: string)
    ensures AllApart(t, Cuts(g, t, 0, 0))
    ensures forall p :: p in S.Sentences(g, t) ==> OneSentence(g, p)
    ensures forall k :: 0 <= k < |S.Sentences(g, t)| - 1 ==>
      TwoSentences(g, S.Sentences(g, t)[k], S.Sentences(g, t)[k + 1])
  {
    CutsApart(g, t, 0, 0);
    PiecesAreSettled(g, t, 0, 0);
    SettledMeans(g, S.Sentences(g, t));
  }

  lemma SettledMeans(g: Grammar, ps: seq<string>)
    requires Settled(g, ps)
    ensures forall p :: p in ps ==> OneSentence(g, p)
    ensures forall k :: 0 <= k < |ps| - 1 ==> TwoSentences(g, ps[k], ps[k + 1])
  {
    forall p | p in ps
      ensures OneSentence(g, p)
    {
      AtomicIsOne(g, p);
    }
    forall k | 0 <= k < |ps| - 1
      ensures TwoSentences(g, ps[k], ps[k + 1])
    {
      PartedAreTwo(g, ps[k], ps[k + 1]);
    }
  }
}
