// What pays_1_if decides, said of the claim's own fields and of the sentences of its
// prose (research/run85_phasex_economics.py, lines 72-102 and 112-295).
module PayoffMeaning {
  import opened Wrappers
  import opened PyText
  import opened Counting
  import S = Sentences
  import opened Payoff

  // ---- the settlement sentences -------------------------------------------

  /** The folded sentence contains one of the settlement markers. */
  ghost predicate HasMarker(lex: Lexicon, sentence: string) {
    exists k :: 0 <= k < |lex.markers| && Contains(Lower(lex.low, sentence), lex.markers[k])
  }

  /** The sentences of one field. */
  function FieldSentences(lex: Lexicon, prose: seq<(string, string)>): nat -> seq<string> {
    (k: nat) => if k < |prose| then S.Sentences(lex.grammar, prose[k].1) else []
  }

  /** The sentences of every field, field after field. */
  function AllSentences(lex: Lexicon, prose: seq<(string, string)>): seq<string> {
    Concat(FieldSentences(lex, prose), |prose|)
  }

  /** `idx` lists, in order, the places of `all` whose sentence has a marker, and
      `picked` the sentences there. */
  ghost predicate PickedAt(lex: Lexicon, picked: seq<string>, all: seq<string>, idx: seq<nat>) {
    && Rising(idx) && |picked| == |idx|
    && (forall k :: 0 <= k < |idx| ==> idx[k] < |all| && picked[k] == all[idx[k]])
    && (forall i :: 0 <= i < |all| ==> (i in idx <==> HasMarker(lex, all[i])))
  }

  lemma MarkerFound(lex: Lexicon, sentence: string)
    ensures IsAffirmative(lex, sentence) <==> HasMarker(lex, sentence)
  {
    var low := Lower(lex.low, sentence);
    forall k | 0 <= k < |lex.markers|
      ensures Find(low, lex.markers[k], 0).Some? <==> Contains(low, lex.markers[k])
    {
      FindIsLeast(low, lex.markers[k], 0);
      if Contains(low, lex.markers[k]) {
        var i: nat :| OccursAt(low, lex.markers[k], i);
      }
    }
  }

  function Shifted(idx: seq<nat>, off: nat): (r: seq<nat>)
    ensures |r| == |idx| && forall k :: 0 <= k < |idx| ==> r[k] == idx[k] + off
  {
    seq(|idx|, k requires 0 <= k < |idx| => idx[k] + off)
  }

  lemma ShiftedMembers(idx: seq<nat>, off: nat, i: nat)
    ensures i in Shifted(idx, off) <==> i >= off && i - off in idx
  {
    if i >= off && i - off in idx {
      var k :| 0 <= k < |idx| && idx[k] == i - off;
      assert Shifted(idx, off)[k] == i;
    }
  }

  lemma RisingConcat(x: seq<nat>, y: seq<nat>, off: nat)
    requires Rising(x) && Rising(y) && forall k :: 0 <= k < |x| ==> x[k] < off
    ensures Rising(x + Shifted(y, off))
  {
  }

  lemma PicksMembers(lex: Lexicon, p: seq<string>, a: seq<string>, x: seq<nat>,
                     q: seq<string>, b: seq<string>, y: seq<nat>, i: nat)
    requires PickedAt(lex, p, a, x) && PickedAt(lex, q, b, y) && i < |a| + |b|
    ensures i in x + Shifted(y, |a|) <==> HasMarker(lex, (a + b)[i])
  {
    ShiftedMembers(y, |a|, i);
    if i in x {
      var k :| 0 <= k < |x| && x[k] == i;
    }
  }

  lemma PicksAre(p: seq<string>, a: seq<string>, x: seq<nat>, q: seq<string>, b: seq<string>, y: seq<nat>, k: nat)
    requires |p| == |x| && |q| == |y| && k < |p| + |q|
    requires k < |p| ==> x[k] < |a| && p[k] == a[x[k]]
    requires k >= |p| ==> y[k - |p|] < |b| && q[k - |p|] == b[y[k - |p|]]
    ensures var i := (x + Shifted(y, |a|))[k]; i < |a + b| && (p + q)[k] == (a + b)[i]
  {
  }

  lemma PicksConcat(lex: Lexicon, p: seq<string>, a: seq<string>, x: seq<nat>,
                    q: seq<string>, b: seq<string>, y: seq<nat>)
    requires PickedAt(lex, p, a, x) && PickedAt(lex, q, b, y)
    ensures PickedAt(lex, p + q, a + b, x + Shifted(y, |a|))
  {
    var idx := x + Shifted(y, |a|);
    RisingConcat(x, y, |a|);
    forall i | 0 <= i < |a + b|
      ensures i in idx <==> HasMarker(lex, (a + b)[i])
    {
      PicksMembers(lex, p, a, x, q, b, y, i);
    }
    forall k | 0 <= k < |idx|
      ensures idx[k] < |a + b| && (p + q)[k] == (a + b)[idx[k]]
    {
      PicksAre(p, a, x, q, b, y, k);
    }
  }

  lemma {:induction false} FieldPicks(lex: Lexicon, sentences: seq<string>) returns (idx: seq<nat>)
    ensures PickedAt(lex, AffirmativeOf(lex, sentences), sentences, idx)
  {
    if sentences == [] {
      idx := [];
    } else {
      var rest := FieldPicks(lex, sentences[1..]);
      MarkerFound(lex, sentences[0]);
      var one: seq<nat> := if HasMarker(lex, sentences[0]) then [0] else [];
      var p := if HasMarker(lex, sentences[0]) then [sentences[0]] else [];
      PicksConcat(lex, p, [sentences[0]], one, AffirmativeOf(lex, sentences[1..]), sentences[1..], rest);
      idx := one + Shifted(rest, 1);
      assert sentences == [sentences[0]] + sentences[1..];
    }
  }

  lemma AffirmativeFirst(lex: Lexicon, field: (string, string), rest: seq<(string, string)>)
    ensures Affirmative(lex, [field] + rest)
         == AffirmativeOf(lex, S.Sentences(lex.grammar, field.1)) + Affirmative(lex, rest)
  {
    assert ([field] + rest)[1..] == rest;
  }

  lemma {:induction false} AffirmativeConcat(lex: Lexicon, a: seq<(string, string)>, b: seq<(string, string)>)
    ensures Affirmative(lex, a + b) == Affirmative(lex, a) + Affirmative(lex, b)
  {
    if a == [] {
      assert a + b == b;
    } else {
      AffirmativeConcat(lex, a[1..], b);
      AffirmativeStep(lex, a, b);
    }
  }

  lemma AffirmativeStep(lex: Lexicon, a: seq<(string, string)>, b: seq<(string, string)>)
    requires a != [] && Affirmative(lex, a[1..] + b) == Affirmative(lex, a[1..]) + Affirmative(lex, b)
    ensures Affirmative(lex, a + b) == Affirmative(lex, a) + Affirmative(lex, b)
  {
    var field, rest := a[0], a[1..];
    AffirmativeFirst(lex, field, rest);
    AffirmativeFirst(lex, field, rest + b);
    FirstOf(a, b);
    Reassociate(AffirmativeOf(lex, S.Sentences(lex.grammar, field.1)), Affirmative(lex, rest), Affirmative(lex, b));
  }

  lemma FirstOf<T>(a: seq<T>, b: seq<T>)
    requires a != []
    ensures a == [a[0]] + a[1..] && a + b == [a[0]] + (a[1..] + b)
  {
  }

  lemma Reassociate<T>(x: seq<T>, y: seq<T>, z: seq<T>)
    ensures x + (y + z) == (x + y) + z
  {
  }

  lemma {:induction false} PrefixPicks(lex: Lexicon, prose: seq<(string, string)>, n: nat) returns (idx: seq<nat>)
    requires n <= |prose|
    ensures PickedAt(lex, Affirmative(lex, prose[..n]), Concat(FieldSentences(lex, prose), n), idx)
  {
    if n == 0 {
      idx := [];
    } else {
      var before := PrefixPicks(lex, prose, n - 1);
      var ss := S.Sentences(lex.grammar, prose[n - 1].1);
      var here := FieldPicks(lex, ss);
      var all := Concat(FieldSentences(lex, prose), n - 1);
      LastField(lex, prose, n);
      PicksConcat(lex, Affirmative(lex, prose[..n - 1]), all, before, AffirmativeOf(lex, ss), ss, here);
      idx := before + Shifted(here, |all|);
    }
  }

  lemma LastField(lex: Lexicon, prose: seq<(string, string)>, n: nat)
    requires 0 < n <= |prose|
    ensures Affirmative(lex, prose[..n])
         == Affirmative(lex, prose[..n - 1]) + AffirmativeOf(lex, S.Sentences(lex.grammar, prose[n - 1].1))
  {
    var last := [prose[n - 1]];
    AffirmativeConcat(lex, prose[..n - 1], last);
    assert prose[..n] == prose[..n - 1] + last;
    assert last[1..] == [] && Affirmative(lex, []) == [];
  }

  /** The settlement sentences are those of every field, in order, that carry a marker. */
  lemma SettlementSentences(lex: Lexicon, prose: seq<(string, string)>) returns (idx: seq<nat>)
    ensures PickedAt(lex, Affirmative(lex, prose), AllSentences(lex, prose), idx)
  {
    idx := PrefixPicks(lex, prose, |prose|);
    assert prose[..|prose|] == prose;
  }

  /** A text is among them exactly when it is a sentence of some field and carries one. */
  lemma SettlementMembers(lex: Lexicon, prose: seq<(string, string)>, sentence: string)
    ensures sentence in Affirmative(lex, prose)
       <==> HasMarker(lex, sentence)
            && exists k :: 0 <= k < |prose| && sentence in S.Sentences(lex.grammar, prose[k].1)
  {
    var idx := SettlementSentences(lex, prose);
    var picked, all := Affirmative(lex, prose), AllSentences(lex, prose);
    InSomeField(lex, prose, |prose|, sentence);
    if sentence in picked {
      var k :| 0 <= k < |picked| && picked[k] == sentence;
      assert idx[k] in idx;
      assert all[idx[k]] in all;
    }
    if HasMarker(lex, sentence) && sentence in all {
      var i :| 0 <= i < |all| && all[i] == sentence;
      assert i in idx;
      var k :| 0 <= k < |idx| && idx[k] == i;
      assert picked[k] in picked;
    }
  }

  lemma InSomeField(lex: Lexicon, prose: seq<(string, string)>, n: nat, sentence: string)
    requires n <= |prose|
    ensures sentence in Concat(FieldSentences(lex, prose), n)
       <==> exists k :: 0 <= k < n && sentence in S.Sentences(lex.grammar, prose[k].1)
  {
    var rows := FieldSentences(lex, prose);
    InSomeRow(rows, n, sentence);
    if k: nat :| k < n && sentence in rows(k) {
      assert sentence in S.Sentences(lex.grammar, prose[k].1);
    }
    if k :| 0 <= k < n && sentence in S.Sentences(lex.grammar, prose[k].1) {
      assert sentence in rows(k);
    }
  }

  lemma {:induction false} InSomeRow(rows: nat -> seq<string>, n: nat, x: string)
    ensures x in Concat(rows, n) <==> exists k: nat :: k < n && x in rows(k)
  {
    if n > 0 {
      InSomeRow(rows, n - 1, x);
    }
  }

  // ---- the text they make -------------------------------------------------

  /** Where each piece begins when the pieces are put one space apart. */
  function Offset(ps: seq<string>, k: nat): nat
    requires k <= |ps|
  {
    if k == 0 then 0 else Offset(ps, k - 1) + |ps[k - 1]| + 1
  }

  lemma {:induction false} OffsetTail(ps: seq<string>, k: nat)
    requires 0 < k <= |ps|
    ensures Offset(ps, k) == |ps[0]| + 1 + Offset(ps[1..], k - 1)
  {
    if k > 1 {
      OffsetTail(ps, k - 1);
    }
  }

  ghost predicate SpacedAt(t: string, ps: seq<string>, k: nat)
    requires k < |ps|
  {
    && OccursAt(t, ps[k], Offset(ps, k))
    && (k + 1 < |ps| ==> Offset(ps, k + 1) <= |t| && t[Offset(ps, k + 1) - 1] == ' ')
  }

  /** The joined text is the pieces in order, one space apart, and nothing more. */
  lemma {:induction false} JoinIsSpaced(ps: seq<string>)
    requires ps != []
    ensures |S.Join(ps)| == Offset(ps, |ps|) - 1
    ensures forall k: nat :: k < |ps| ==> SpacedAt(S.Join(ps), ps, k)
  {
    var t := S.Join(ps);
    if |ps| > 1 {
      var rest := ps[1..];
      JoinIsSpaced(rest);
      OffsetTail(ps, |ps|);
      forall k: nat | k < |ps|
        ensures SpacedAt(t, ps, k)
      {
        if k == 0 {
          assert OccursAt(t, ps[0], 0);
        } else {
          SpacedTail(ps, rest, k);
        }
      }
    }
  }

  lemma PrefixedOccurs(t: string, head: string, rest: string, p: string, at: nat)
    requires t == head + rest && OccursAt(rest, p, at)
    ensures OccursAt(t, p, |head| + at)
  {
    assert t[|head| + at..|head| + at + |p|] == rest[at..at + |p|];
  }

  lemma JoinFirst(ps: seq<string>)
    requires |ps| > 1
    ensures S.Join(ps) == (ps[0] + " ") + S.Join(ps[1..])
  {
  }

  lemma PrefixedChar(head: string, rest: string, i: nat)
    requires i < |rest|
    ensures (head + rest)[|head| + i] == rest[i]
  {
  }

  lemma SpacedTail(ps: seq<string>, rest: seq<string>, k: nat)
    requires |ps| > 1 && rest == ps[1..] && 0 < k < |ps| && SpacedAt(S.Join(rest), rest, k - 1)
    ensures SpacedAt(S.Join(ps), ps, k)
  {
    var head, tail := ps[0] + " ", S.Join(rest);
    JoinFirst(ps);
    OffsetTail(ps, k);
    PrefixedOccurs(head + tail, head, tail, ps[k], Offset(rest, k - 1));
    if k + 1 < |ps| {
      OffsetTail(ps, k + 1);
      PrefixedChar(head, tail, Offset(rest, k) - 1);
    }
  }

  // ---- the decision -------------------------------------------------------

  predicate Labelled(tag: Option<string>) {
    tag.Some? && tag.value != ""
  }

  /** w is the folded name some field binds the side to: a declared field, or the
      side's label when no field is declared. */
  ghost predicate Bound(lex: Lexicon, c: Claim, w: string) {
    || (exists b :: b in c.bindings && Labelled(b.1) && w == Lower(lex.low, Strip(b.1.value)))
    || (c.bindings == [] && Labelled(c.side) && w == Lower(lex.low, Strip(c.side.value)))
  }

  ghost predicate SomeBound(lex: Lexicon, c: Claim) {
    exists w :: Bound(lex, c, w)
  }

  ghost predicate BoundDisagree(lex: Lexicon, c: Claim) {
    exists v, w :: Bound(lex, c, v) && Bound(lex, c, w) && v != w
  }

  ghost predicate HasSettlement(lex: Lexicon, c: Claim) {
    exists k, sentence :: 0 <= k < |c.prose| && sentence in S.Sentences(lex.grammar, c.prose[k].1)
      && HasMarker(lex, sentence)
  }

  /** Orientation is read off the sentences: one bound name, sentences, and an event. */
  ghost predicate Readable(lex: Lexicon, c: Claim) {
    SomeBound(lex, c) && !BoundDisagree(lex, c) && HasSettlement(lex, c) && c.eventPresent
  }

  /** Position k lies in "x <connector> y" or "y <connector> x", x and y the two labels. */
  ghost predicate InContest(lex: Lexicon, c: Claim, k: nat) {
    && Labelled(c.side) && Labelled(c.sibling)
    && exists phrase, lo: nat :: IsPhrase(lex, phrase, c.side.value, c.sibling.value)
         && OccursAt(Settlement(lex, c), phrase, lo) && lo <= k < lo + |phrase|
  }

  ghost predicate IsPhrase(lex: Lexicon, phrase: string, x: string, y: string) {
    exists conn :: conn in lex.connectors
      && (phrase == Lower(lex.low, x) + conn + Lower(lex.low, y)
          || phrase == Lower(lex.low, y) + conn + Lower(lex.low, x))
  }

  /** The name occurs at k in the settlement sentences and not as part of a contest. */
  ghost predicate SubjectAt(lex: Lexicon, c: Claim, name: string, k: nat) {
    OccursAt(Settlement(lex, c), Lower(lex.low, name), k) && !InContest(lex, c, k)
  }

  ghost predicate FirstSubjectAt(lex: Lexicon, c: Claim, name: string, k: nat) {
    SubjectAt(lex, c, name, k) && forall j: nat :: j < k ==> !SubjectAt(lex, c, name, j)
  }

  ghost predicate SideIsSubject(lex: Lexicon, c: Claim) {
    exists w, k: nat :: Bound(lex, c, w) && SubjectAt(lex, c, w, k)
  }

  ghost predicate SiblingIsSubject(lex: Lexicon, c: Claim) {
    Labelled(c.sibling) && exists k: nat :: SubjectAt(lex, c, c.sibling.value, k)
  }

  /** Both are, and the side first. */
  ghost predicate SideIsFirst(lex: Lexicon, c: Claim) {
    && Labelled(c.sibling)
    && exists w, i: nat, j: nat :: Bound(lex, c, w) && FirstSubjectAt(lex, c, w, i)
         && FirstSubjectAt(lex, c, c.sibling.value, j) && i < j
  }

  /** Some label is in the text; an absent sibling's empty label always is. */
  ghost predicate Mentioned(lex: Lexicon, c: Claim) {
    || (exists w :: Bound(lex, c, w) && Contains(Settlement(lex, c), w))
    || !Labelled(c.sibling) || Contains(Settlement(lex, c), Lower(lex.low, c.sibling.value))
  }

  ghost predicate Oriented(lex: Lexicon, c: Claim) {
    Readable(lex, c) && !SiblingIsSubject(lex, c) && (SideIsSubject(lex, c) || Mentioned(lex, c))
  }

  ghost predicate SiblingPays(lex: Lexicon, c: Claim) {
    Readable(lex, c) && SiblingIsSubject(lex, c) && !SideIsFirst(lex, c)
  }

  ghost predicate Unmentioned(lex: Lexicon, c: Claim) {
    Readable(lex, c) && !SiblingIsSubject(lex, c) && !SideIsSubject(lex, c) && !Mentioned(lex, c)
  }

  /** When each status is the answer. */
  ghost predicate Answers(lex: Lexicon, c: Claim, status: Status) {
    match status
    case Verified => Oriented(lex, c) && (Labelled(c.side) || Labelled(c.sibling))
    case Absent => Oriented(lex, c) && !Labelled(c.side) && !Labelled(c.sibling)
    case SideBinding => !SomeBound(lex, c) || Unmentioned(lex, c)
    case Contradiction => BoundDisagree(lex, c) || SiblingPays(lex, c)
    case SettlementCondition => SomeBound(lex, c) && !BoundDisagree(lex, c) && !HasSettlement(lex, c)
    case AmbiguousSubject => Readable(lex, c) && SiblingIsSubject(lex, c) && SideIsFirst(lex, c)
    case NoEvent => SomeBound(lex, c) && !BoundDisagree(lex, c) && HasSettlement(lex, c) && !c.eventPresent
  }

  lemma BoundIsNamed(lex: Lexicon, c: Claim, w: string)
    ensures Bound(lex, c, w) <==> w in Named(lex, c)
  {
    if c.bindings == [] && Labelled(c.side) {
      assert Bindings(c) == [("venue side label", c.side)];
      assert Bindings(c)[0] in Bindings(c);
    } else {
      assert Bindings(c) == c.bindings;
    }
  }

  lemma BoundNames(lex: Lexicon, c: Claim)
    ensures forall w :: Bound(lex, c, w) <==> w in Named(lex, c)
  {
    forall w
      ensures Bound(lex, c, w) <==> w in Named(lex, c)
    {
      BoundIsNamed(lex, c, w);
    }
  }

  lemma SomeTwo(named: set<string>)
    ensures |named| > 1 <==> exists v, w :: v in named && w in named && v != w
  {
    if w :| w in named {
      var rest := named - {w};
      assert named == rest + {w};
      if v :| v in rest {
        assert v in named && w in named && v != w;
      }
    }
  }

  lemma NamedMeans(lex: Lexicon, c: Claim)
    ensures Named(lex, c) != {} <==> SomeBound(lex, c)
    ensures |Named(lex, c)| > 1 <==> BoundDisagree(lex, c)
  {
    BoundNames(lex, c);
    SomeTwo(Named(lex, c));
  }

  lemma FirstBoundIs(lex: Lexicon, c: Claim)
    requires SomeBound(lex, c)
    ensures Bound(lex, c, FirstBound(lex, Bindings(c)))
  {
    NamedMeans(lex, c);
    var w :| w in Named(lex, c);
    FirstBoundIsBound(lex, Bindings(c));
    BoundIsNamed(lex, c, FirstBound(lex, Bindings(c)));
  }

  lemma SettlementMeans(lex: Lexicon, c: Claim)
    ensures Affirmative(lex, c.prose) != [] <==> HasSettlement(lex, c)
  {
    var ss := Affirmative(lex, c.prose);
    if ss != [] {
      SettlementMembers(lex, c.prose, ss[0]);
    }
    if k, sentence :| 0 <= k < |c.prose| && HasMarker(lex, sentence)
                      && sentence in S.Sentences(lex.grammar, c.prose[k].1) {
      SettlementMembers(lex, c.prose, sentence);
    }
  }

  lemma InsideIsContest(lex: Lexicon, c: Claim, k: nat)
    requires Labelled(c.side) && Labelled(c.sibling) && Inside(SpansOfClaim(lex, c), k)
    ensures InContest(lex, c, k)
  {
    var t, a, b := Settlement(lex, c), c.side.value, c.sibling.value;
    var probes, spans := AllProbes(lex, a, b), SpansOfClaim(lex, c);
    SpansExact(t, probes);
    var n :| 0 <= n < |spans| && spans[n].lo <= k < spans[n].hi;
    assert spans[n] in spans;
    var m :| 0 <= m < |probes| && IsSpanOf(spans[n], t, probes[m]);
    ProbeIsPhrase(lex, a, b, m);
    var phrase, lo := probes[m], spans[n].lo;
    assert OccursAt(t, phrase, lo) && lo <= k < lo + |phrase|;
  }

  lemma ContestIsInside(lex: Lexicon, c: Claim, k: nat)
    requires InContest(lex, c, k)
    ensures Inside(SpansOfClaim(lex, c), k)
  {
    var t, a, b := Settlement(lex, c), c.side.value, c.sibling.value;
    var probes, spans := AllProbes(lex, a, b), SpansOfClaim(lex, c);
    var phrase, lo: nat :| IsPhrase(lex, phrase, a, b) && OccursAt(t, phrase, lo) && lo <= k < lo + |phrase|;
    var m := PhraseIsProbe(lex, phrase, a, b);
    var s := Span(lo, lo + |phrase|);
    assert IsSpanOf(s, t, probes[m]);
    SpansExact(t, probes);
    assert s in spans;
  }

  lemma ContestMeans(lex: Lexicon, c: Claim, k: nat)
    ensures Inside(SpansOfClaim(lex, c), k) <==> InContest(lex, c, k)
  {
    if InContest(lex, c, k) {
      ContestIsInside(lex, c, k);
    } else if Labelled(c.side) && Labelled(c.sibling) && Inside(SpansOfClaim(lex, c), k) {
      InsideIsContest(lex, c, k);
    }
  }

  lemma ProbeIsPhrase(lex: Lexicon, a: string, b: string, m: nat)
    requires m < |AllProbes(lex, a, b)|
    ensures IsPhrase(lex, AllProbes(lex, a, b)[m], a, b)
  {
    var n := |lex.connectors|;
    var conn := lex.connectors[if m < n then m else m - n];
    assert conn in lex.connectors;
  }

  lemma PhraseIsProbe(lex: Lexicon, phrase: string, a: string, b: string) returns (m: nat)
    requires IsPhrase(lex, phrase, a, b)
    ensures m < |AllProbes(lex, a, b)| && AllProbes(lex, a, b)[m] == phrase
  {
    var conn :| conn in lex.connectors
      && (phrase == Lower(lex.low, a) + conn + Lower(lex.low, b)
          || phrase == Lower(lex.low, b) + conn + Lower(lex.low, a));
    var k :| 0 <= k < |lex.connectors| && lex.connectors[k] == conn;
    m := if phrase == Lower(lex.low, a) + conn + Lower(lex.low, b) then k else k + |lex.connectors|;
  }

  /** The scan for a name finds its first place as a subject, if it has one. */
  lemma ScanMeans(lex: Lexicon, c: Claim, name: string)
    ensures var r := FirstOutside(Settlement(lex, c), Lower(lex.low, name), SpansOfClaim(lex, c), 0);
      && (r.Some? ==> FirstSubjectAt(lex, c, name, r.value))
      && (r.None? ==> forall k: nat :: !SubjectAt(lex, c, name, k))
  {
    var t, needle, spans := Settlement(lex, c), Lower(lex.low, name), SpansOfClaim(lex, c);
    var r := FirstOutside(t, needle, spans, 0);
    FirstOutsideIsLeast(t, needle, spans, 0);
    forall k: nat
      ensures SubjectAt(lex, c, name, k) <==> OccursAt(t, needle, k) && !Inside(spans, k)
    {
      ContestMeans(lex, c, k);
    }
  }

  lemma ContainsMeans(t: string, needle: string)
    ensures Find(t, needle, 0).Some? <==> Contains(t, needle)
    ensures needle == "" ==> Contains(t, needle)
  {
    FindIsLeast(t, needle, 0);
    assert needle == "" ==> OccursAt(t, needle, 0);
    if i: nat :| OccursAt(t, needle, i) {
      assert Find(t, needle, 0).Some?;
    }
  }

  lemma FirstSubjectUnique(lex: Lexicon, c: Claim, name: string, i: nat, j: nat)
    requires FirstSubjectAt(lex, c, name, i) && FirstSubjectAt(lex, c, name, j)
    ensures i == j
  {
  }

  /** The reading, in those terms, when one name w is bound. */
  lemma ReadMeans(lex: Lexicon, c: Claim, w: string)
    requires Bound(lex, c, w) && !BoundDisagree(lex, c)
    ensures var r := Read(lex, c, w);
      && (r.mine.Some? <==> SideIsSubject(lex, c)) && (r.theirs.Some? <==> SiblingIsSubject(lex, c))
      && (r.mine.Some? && r.theirs.Some? ==> (r.mine.value < r.theirs.value <==> SideIsFirst(lex, c)))
      && (r.inText <==> Mentioned(lex, c))
      && (SideIsFirst(lex, c) ==> r.mine.Some?)
  {
    var r := Read(lex, c, w);
    ScanMeans(lex, c, w);
    if Labelled(c.sibling) {
      ScanMeans(lex, c, c.sibling.value);
    }
    OnlyName(lex, c, w);
    FirstMeans(lex, c, w, r.mine, r.theirs);
    ContainsMeans(Settlement(lex, c), w);
    ContainsMeans(Settlement(lex, c), Lower(lex.low, Text(c.sibling)));
  }

  lemma OnlyName(lex: Lexicon, c: Claim, w: string)
    requires Bound(lex, c, w) && !BoundDisagree(lex, c)
    ensures forall v :: Bound(lex, c, v) <==> v == w
  {
  }

  lemma FirstMeans(lex: Lexicon, c: Claim, w: string, mine: Option<nat>, theirs: Option<nat>)
    requires forall v :: Bound(lex, c, v) <==> v == w
    requires mine.Some? ==> FirstSubjectAt(lex, c, w, mine.value)
    requires mine.None? ==> forall k: nat :: !SubjectAt(lex, c, w, k)
    requires theirs.Some? ==> Labelled(c.sibling) && FirstSubjectAt(lex, c, c.sibling.value, theirs.value)
    ensures mine.Some? && theirs.Some? ==> (mine.value < theirs.value <==> SideIsFirst(lex, c))
    ensures SideIsFirst(lex, c) ==> mine.Some?
  {
    if SideIsFirst(lex, c) {
      var v, i: nat, j: nat :| Bound(lex, c, v) && FirstSubjectAt(lex, c, v, i)
        && FirstSubjectAt(lex, c, c.sibling.value, j) && i < j;
      if mine.Some? && theirs.Some? {
        FirstSubjectUnique(lex, c, w, i, mine.value);
        FirstSubjectUnique(lex, c, c.sibling.value, j, theirs.value);
      }
    }
  }

  lemma ResolveMeans(lex: Lexicon, c: Claim, w: string)
    requires Bound(lex, c, w) && Readable(lex, c)
    ensures var (status, blockers) := Resolve(Read(lex, c, w));
      && (status == Verified <==> Oriented(lex, c))
      && (status == SideBinding <==> Unmentioned(lex, c)) && (blockers == [SideLabelAbsent] <==> Unmentioned(lex, c))
      && (status == Contradiction <==> SiblingPays(lex, c)) && (blockers == [SubjectIsSibling] <==> SiblingPays(lex, c))
      && (status == AmbiguousSubject <==> SiblingIsSubject(lex, c) && SideIsFirst(lex, c))
      && (blockers == [BothActAsSubjects] <==> SiblingIsSubject(lex, c) && SideIsFirst(lex, c))
      && status in {Verified, SideBinding, Contradiction, AmbiguousSubject}
      && blockers in {[], [SideLabelAbsent], [SubjectIsSibling], [BothActAsSubjects]}
  {
    ReadMeans(lex, c, w);
  }

  /** The status pays_1_if answers with, in every case. */
  lemma StatusMeaning(lex: Lexicon, c: Claim, status: Status)
    ensures PayoffStatus(lex, c) == status <==> Answers(lex, c, status)
  {
    OrientMeans(lex, c);
    if Orient(lex, c).0 == Verified {
      WithdrawnIffUnlabelled(lex, c);
    }
    OneAnswer(lex, c);
  }

  /** The statuses exclude one another. */
  lemma OneAnswer(lex: Lexicon, c: Claim)
    ensures Oriented(lex, c) ==> Readable(lex, c) && !Unmentioned(lex, c) && !SiblingPays(lex, c)
    ensures BoundDisagree(lex, c) ==> SomeBound(lex, c)
  {
  }

  ghost predicate OrientedAs(lex: Lexicon, c: Claim, status: Status) {
    match status
    case Verified => Oriented(lex, c)
    case Absent => false
    case SideBinding => Answers(lex, c, status)
    case Contradiction => Answers(lex, c, status)
    case SettlementCondition => Answers(lex, c, status)
    case AmbiguousSubject => Answers(lex, c, status)
    case NoEvent => Answers(lex, c, status)
  }

  lemma OrientMeans(lex: Lexicon, c: Claim)
    ensures OrientedAs(lex, c, Orient(lex, c).0)
  {
    NamedMeans(lex, c);
    SettlementMeans(lex, c);
    if Readable(lex, c) {
      FirstBoundIs(lex, c);
      ResolveMeans(lex, c, FirstBound(lex, Bindings(c)));
    }
  }

  /** What each blocker is there for. */
  ghost predicate Blocks(lex: Lexicon, c: Claim, b: Blocker) {
    match b
    case NoSideBindingField => !SomeBound(lex, c)
    case NoRulesProse => c.prose == []
    case NoAffirmativeSentence => c.prose != [] && !HasSettlement(lex, c)
    case BindingsDisagree => BoundDisagree(lex, c)
    case NoUnderlyingEvent => Answers(lex, c, NoEvent)
    case SideLabelAbsent => Unmentioned(lex, c)
    case SubjectIsSibling => SiblingPays(lex, c)
    case BothActAsSubjects => Answers(lex, c, AmbiguousSubject)
    case ComponentsMissing => Answers(lex, c, Absent)
  }

  predicate FromReading(b: Blocker) {
    b.BindingsDisagree? || b.NoUnderlyingEvent? || b.SideLabelAbsent? || b.SubjectIsSibling? || b.BothActAsSubjects?
  }

  lemma BlockersMeaning(lex: Lexicon, c: Claim, b: Blocker)
    ensures b in Blockers(lex, c) <==> Blocks(lex, c, b)
  {
    var early, late := EarlyBlockers(lex, c), Orient(lex, c).1;
    EarlyBlocks(lex, c, b);
    OrientBlocks(lex, c, b);
    StatusMeaning(lex, c, Absent);
    OrientMeans(lex, c);
    if PayoffStatus(lex, c) == Absent {
      assert Blockers(lex, c) == early + late + [ComponentsMissing];
    } else {
      assert Blockers(lex, c) == early + late + [];
    }
  }

  lemma EarlyBlocks(lex: Lexicon, c: Claim, b: Blocker)
    ensures b in EarlyBlockers(lex, c) <==> !FromReading(b) && b != ComponentsMissing && Blocks(lex, c, b)
  {
    NamedMeans(lex, c);
    SettlementMeans(lex, c);
  }

  lemma OrientBlocks(lex: Lexicon, c: Claim, b: Blocker)
    ensures b in Orient(lex, c).1 <==> FromReading(b) && Blocks(lex, c, b)
  {
    NamedMeans(lex, c);
    SettlementMeans(lex, c);
    if Readable(lex, c) {
      ReadingBlocks(lex, c, b);
    } else {
      UnreadBlocks(lex, c, b);
    }
  }

  lemma ReadOrient(lex: Lexicon, c: Claim)
    requires Readable(lex, c)
    ensures Orient(lex, c) == Resolve(Read(lex, c, FirstBound(lex, Bindings(c))))
  {
    NamedMeans(lex, c);
    SettlementMeans(lex, c);
  }

  lemma ReadingBlocks(lex: Lexicon, c: Claim, b: Blocker)
    requires Readable(lex, c)
    ensures b in Orient(lex, c).1 <==> FromReading(b) && Blocks(lex, c, b)
  {
    ReadOrient(lex, c);
    FirstBoundIs(lex, c);
    ResolveMeans(lex, c, FirstBound(lex, Bindings(c)));
    assert !Blocks(lex, c, BindingsDisagree) && !Blocks(lex, c, NoUnderlyingEvent);
  }

  lemma UnreadAnswers(lex: Lexicon, c: Claim, b: Blocker)
    requires !Readable(lex, c) && FromReading(b)
    ensures Blocks(lex, c, b)
       <==> (b == BindingsDisagree && BoundDisagree(lex, c)) || (b == NoUnderlyingEvent && Answers(lex, c, NoEvent))
  {
  }

  lemma UnreadOrient(lex: Lexicon, c: Claim)
    requires !Readable(lex, c)
    ensures Orient(lex, c).1 == if BoundDisagree(lex, c) then [BindingsDisagree]
                                else if Answers(lex, c, NoEvent) then [NoUnderlyingEvent] else []
  {
    NamedMeans(lex, c);
    SettlementMeans(lex, c);
  }

  lemma UnreadBlocks(lex: Lexicon, c: Claim, b: Blocker)
    requires !Readable(lex, c)
    ensures b in Orient(lex, c).1 <==> FromReading(b) && Blocks(lex, c, b)
  {
    UnreadOrient(lex, c);
    if FromReading(b) {
      UnreadAnswers(lex, c, b);
    }
  }

  // ---- the proof chain ----------------------------------------------------

  /** What the k-th link of the chain is about, and when it holds. */
  ghost predicate IsLink(lex: Lexicon, c: Claim, k: nat, link: Link) {
    var others, bound, told := 3 + |c.others|, if c.bindings == [] && Labelled(c.side) then 1 else |c.bindings|,
                               |Affirmative(lex, c.prose)|;
    if k == 0 then link == Link(UnderlyingEvent, c.eventPresent)
    else if k == 1 then link == Link(OutcomeParticipantBinding, Labelled(c.side))
    else if k == 2 then link == Link(OutcomeParticipantBinding, Labelled(c.sibling))
    else if k < others then link == Link(MaterialSpecialRules, c.others[k - 3])
    else if k < others + bound then
      link == Link(SideToPayoutBinding, if c.bindings == [] then true else Labelled(c.bindings[k - others].1))
    else if k < others + bound + told then link == Link(SettlementProse, true)
    else k == others + bound + told && link == Link(MaterialSpecialRules, c.prose != [])
  }

  lemma ChainMeaning(lex: Lexicon, c: Claim)
    ensures |Chain(lex, c)| == 4 + |c.others| + (if c.bindings == [] && Labelled(c.side) then 1 else |c.bindings|)
                               + |Affirmative(lex, c.prose)|
    ensures forall k: nat :: k < |Chain(lex, c)| ==> IsLink(lex, c, k, Chain(lex, c)[k])
  {
  }
}
