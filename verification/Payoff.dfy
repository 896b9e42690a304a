// The settlement proposition of one side of one contract (pays_1_if and its two
// text scans, research/run85_phasex_economics.py, lines 43-102 and 112-295).
module Payoff {
  import opened Wrappers
  import opened PyText
  import S = Sentences

  /** Everything the scans read besides the claim: how text folds and splits, the
      settlement markers, and the connectors that join two names into a contest. */
  datatype Lexicon = Lexicon(grammar: S.Grammar, low: char -> char, markers: seq<string>, connectors: seq<string>)

  const AFFIRMATIVE_MARKERS: seq<string> := [
    "resolves to yes", "resolve to yes", "settles to yes", "settle to yes", "settle to the winner",
    "settles to the winner", "pays out", "will settle to $1", "resolves yes", "market will settle to the winner",
    "win the game", "wins the game", "win the match", "wins the match", "settle according to", "settles according to"]

  const MATCHUP_CONNECTORS: seq<string> := [" vs. ", " vs ", " v. ", " v ", " versus ", " at ", " against "]

  // ---- scanning -----------------------------------------------------------

  predicate OccursAt(t: string, needle: string, i: nat) {
    i + |needle| <= |t| && t[i..i + |needle|] == needle
  }

  ghost predicate Contains(t: string, needle: string) {
    exists i :: OccursAt(t, needle, i)
  }

  /** t.find(needle, i) */
  function Find(t: string, needle: string, i: nat): (r: Option<nat>)
    ensures r.Some? ==> i <= r.value <= |t|
    decreases |t| - i
  {
    if i + |needle| > |t| then None else if OccursAt(t, needle, i) then Some(i) else Find(t, needle, i + 1)
  }

  lemma {:induction false} FindIsLeast(t: string, needle: string, i: nat)
    ensures var r := Find(t, needle, i);
      && (r.Some? ==> OccursAt(t, needle, r.value))
      && forall k :: i <= k && OccursAt(t, needle, k) ==> r.Some? && r.value <= k
    decreases |t| - i
  {
    if i + |needle| <= |t| && !OccursAt(t, needle, i) {
      FindIsLeast(t, needle, i + 1);
    }
  }

  datatype Span = Span(lo: nat, hi: nat)

  ghost predicate IsSpanOf(s: Span, t: string, probe: string) {
    OccursAt(t, probe, s.lo) && s.hi == s.lo + |probe|
  }

  predicate Inside(spans: seq<Span>, i: nat) {
    exists k :: 0 <= k < |spans| && spans[k].lo <= i < spans[k].hi
  }

  function Probes(lex: Lexicon, x: string, y: string): (ps: seq<string>)
    ensures |ps| == |lex.connectors|
    ensures forall k :: 0 <= k < |ps| ==> ps[k] == Lower(lex.low, x) + lex.connectors[k] + Lower(lex.low, y)
  {
    var a, b := Lower(lex.low, x), Lower(lex.low, y);
    seq(|lex.connectors|, k requires 0 <= k < |lex.connectors| => a + lex.connectors[k] + b)
  }

  function AllProbes(lex: Lexicon, a: string, b: string): seq<string> {
    Probes(lex, a, b) + Probes(lex, b, a)
  }

  function Occurrences(t: string, probe: string, i: nat): seq<Span>
    decreases |t| + 1 - i
  {
    match Find(t, probe, i)
    case None => []
    case Some(k) => [Span(k, k + |probe|)] + Occurrences(t, probe, k + 1)
  }

  function SpansOf(t: string, probes: seq<string>): seq<Span> {
    if probes == [] then [] else Occurrences(t, probes[0], 0) + SpansOf(t, probes[1..])
  }

  lemma NextProbe(t: string, probes: seq<string>, k: nat)
    requires k < |probes|
    ensures SpansOf(t, probes[k..]) == Occurrences(t, probes[k], 0) + SpansOf(t, probes[k + 1..])
  {
    assert probes[k..][0] == probes[k] && probes[k..][1..] == probes[k + 1..];
  }

  lemma Associates(a: seq<Span>, b: seq<Span>, c: seq<Span>)
    ensures a + b + c == a + (b + c)
  {
  }

  /** _matchup_spans, for a text that is already folded. */
  method MatchupSpans(lex: Lexicon, t: string, a: string, b: string) returns (spans: seq<Span>)
    ensures spans == SpansOf(t, AllProbes(lex, a, b))
  {
    var probes := AllProbes(lex, a, b);
    spans := [];
    assert probes[0..] == probes;
    for k := 0 to |probes|
      invariant spans + SpansOf(t, probes[k..]) == SpansOf(t, probes)
    {
      NextProbe(t, probes, k);
      var found := FindAll(t, probes[k]);
      Associates(spans, found, SpansOf(t, probes[k + 1..]));
      spans := spans + found;
    }
  }

  function OccurrencesFrom(t: string, probe: string): nat -> seq<Span> {
    (i: nat) => Occurrences(t, probe, i)
  }

  /** low.find(probe, .) */
  function Finder(t: string, probe: string): nat -> Option<nat> {
    (i: nat) => Find(t, probe, i)
  }

  /** `all` lists the spans a finder's successive answers give. */
  ghost predicate Chains(find: nat -> Option<nat>, width: nat, limit: nat, all: nat -> seq<Span>) {
    forall i: nat :: LinkHolds(find, width, limit, all, i)
  }

  ghost predicate LinkHolds(find: nat -> Option<nat>, width: nat, limit: nat, all: nat -> seq<Span>, i: nat) {
    match find(i)
    case None => all(i) == []
    case Some(k) => i <= k <= limit && all(i) == [Span(k, k + width)] + all(k + 1)
  }

  /** The while loop over a finder's successive answers. */
  method CollectAll(find: nat -> Option<nat>, width: nat, ghost limit: nat, ghost all: nat -> seq<Span>)
    returns (spans: seq<Span>)
    requires Chains(find, width, limit, all)
    ensures spans == all(0)
  {
    spans := [];
    var start := find(0);
    ghost var i: nat := 0;
    assert LinkHolds(find, width, limit, all, 0);
    while start.Some?
      invariant start == find(i) && spans + all(i) == all(0) && LinkHolds(find, width, limit, all, i)
      decreases limit + 1 - i
    {
      var span := Span(start.value, start.value + width);
      i := start.value + 1;
      Associates(spans, [span], all(i));
      spans := spans + [span];
      start := find(start.value + 1);
      assert LinkHolds(find, width, limit, all, i);
    }
  }

  lemma FinderChains(t: string, probe: string)
    ensures Chains(Finder(t, probe), |probe|, |t|, OccurrencesFrom(t, probe))
  {
    forall i: nat
      ensures LinkHolds(Finder(t, probe), |probe|, |t|, OccurrencesFrom(t, probe), i)
    {
      OneLink(t, probe, i, Finder(t, probe), OccurrencesFrom(t, probe));
    }
  }

  lemma OneLink(t: string, probe: string, i: nat, find: nat -> Option<nat>, all: nat -> seq<Span>)
    requires find == Finder(t, probe) && all == OccurrencesFrom(t, probe)
    ensures LinkHolds(find, |probe|, |t|, all, i)
  {
    var k := Find(t, probe, i);
    assert find(i) == k && all(i) == Occurrences(t, probe, i);
    if k.Some? {
      assert all(k.value + 1) == Occurrences(t, probe, k.value + 1);
    }
  }

  method FindAll(t: string, probe: string) returns (spans: seq<Span>)
    ensures spans == Occurrences(t, probe, 0)
  {
    FinderChains(t, probe);
    spans := CollectAll(Finder(t, probe), |probe|, |t|, OccurrencesFrom(t, probe));
  }

  /** The scan finds every occurrence of the phrase, overlapping ones included, and
      nothing else. */
  lemma {:induction false} OccurrencesExact(t: string, probe: string, i: nat)
    ensures forall s :: s in Occurrences(t, probe, i) <==> s.lo >= i && IsSpanOf(s, t, probe)
    decreases |t| + 1 - i
  {
    var k := Find(t, probe, i);
    FindIsLeast(t, probe, i);
    if k.Some? {
      OccurrencesExact(t, probe, k.value + 1);
      var rest := Occurrences(t, probe, k.value + 1);
      forall s
        ensures s in Occurrences(t, probe, i) <==> s.lo >= i && IsSpanOf(s, t, probe)
      {
        assert s in Occurrences(t, probe, i) <==> s == Span(k.value, k.value + |probe|) || s in rest;
      }
    }
  }

  lemma {:induction false} SpansExact(t: string, probes: seq<string>)
    ensures forall s :: s in SpansOf(t, probes) <==> exists k :: 0 <= k < |probes| && IsSpanOf(s, t, probes[k])
  {
    if probes != [] {
      OccurrencesExact(t, probes[0], 0);
      SpansExact(t, probes[1..]);
      forall s
        ensures s in SpansOf(t, probes) <==> exists k :: 0 <= k < |probes| && IsSpanOf(s, t, probes[k])
      {
        if k :| 0 <= k < |probes| && IsSpanOf(s, t, probes[k]) {
          if k > 0 {
            assert probes[1..][k - 1] == probes[k];
          }
        }
        if s in SpansOf(t, probes[1..]) {
          var m :| 0 <= m < |probes[1..]| && IsSpanOf(s, t, probes[1..][m]);
          assert probes[m + 1] == probes[1..][m];
        }
      }
    }
  }

  /** _outside_matchup, from position i on, for folded text and needle. */
  function FirstOutside(t: string, needle: string, spans: seq<Span>, i: nat): Option<nat>
    decreases |t| + 1 - i
  {
    match Find(t, needle, i)
    case None => None
    case Some(k) => if !Inside(spans, k) then Some(k) else FirstOutside(t, needle, spans, k + 1)
  }

  method OutsideMatchup(t: string, needle: string, spans: seq<Span>) returns (r: Option<nat>)
    ensures r == FirstOutside(t, needle, spans, 0)
  {
    r := Find(t, needle, 0);
    ghost var i := 0;
    while r.Some? && Inside(spans, r.value)
      invariant r == Find(t, needle, i)
      invariant FirstOutside(t, needle, spans, i) == FirstOutside(t, needle, spans, 0)
      decreases |t| + 1 - i
    {
      i := r.value + 1;
      r := Find(t, needle, r.value + 1);
    }
  }

  /** The least place where the needle begins outside every span, if there is one. */
  lemma {:induction false} FirstOutsideIsLeast(t: string, needle: string, spans: seq<Span>, i: nat)
    ensures var r := FirstOutside(t, needle, spans, i);
      && (r.Some? ==> r.value >= i && OccursAt(t, needle, r.value) && !Inside(spans, r.value))
      && forall k :: i <= k && OccursAt(t, needle, k) && (r.Some? ==> k < r.value) ==> Inside(spans, k)
    decreases |t| + 1 - i
  {
    var k := Find(t, needle, i);
    FindIsLeast(t, needle, i);
    if k.Some? && Inside(spans, k.value) {
      FirstOutsideIsLeast(t, needle, spans, k.value + 1);
    }
  }

  // ---- the claim ----------------------------------------------------------

  /** The inputs of pays_1_if; `others` says which of subject, line, period and
      settlement source are present. */
  datatype Claim = Claim(side: Option<string>, sibling: Option<string>, prose: seq<(string, string)>,
                         eventPresent: bool,
                         bindings: seq<(string, Option<string>)>, others: seq<bool>)

  predicate Truthy(tag: Option<string>) {
    tag.Some? && tag.value != ""
  }

  function Text(tag: Option<string>): string {
    if tag.Some? then tag.value else ""
  }

  /** The declared bindings, or the side label when none is declared. */
  function Bindings(c: Claim): seq<(string, Option<string>)> {
    if c.bindings == [] && Truthy(c.side) then [("venue side label", c.side)] else c.bindings
  }

  function Named(lex: Lexicon, c: Claim): set<string> {
    set b | b in Bindings(c) && Truthy(b.1) :: Lower(lex.low, Strip(b.1.value))
  }

  predicate IsAffirmative(lex: Lexicon, sentence: string) {
    exists k :: 0 <= k < |lex.markers| && Find(Lower(lex.low, sentence), lex.markers[k], 0).Some?
  }

  function AffirmativeOf(lex: Lexicon, sentences: seq<string>): seq<string> {
    if sentences == [] then []
    else (if IsAffirmative(lex, sentences[0]) then [sentences[0]] else []) + AffirmativeOf(lex, sentences[1..])
  }

  function Affirmative(lex: Lexicon, prose: seq<(string, string)>): seq<string> {
    if prose == [] then []
    else AffirmativeOf(lex, S.Sentences(lex.grammar, prose[0].1)) + Affirmative(lex, prose[1..])
  }

  datatype Status =
    | Verified | Absent | SideBinding | Contradiction | SettlementCondition | AmbiguousSubject | NoEvent

  datatype Component =
    | UnderlyingEvent | OutcomeParticipantBinding | SideToPayoutBinding | SettlementProse | MaterialSpecialRules

  const PROOF_COMPONENTS := [UnderlyingEvent, OutcomeParticipantBinding, SideToPayoutBinding, SettlementProse,
      MaterialSpecialRules]

  /** One link of the proof chain; `holds` when its status is verified or quoted. */
  datatype Link = Link(component: Component, holds: bool)

  datatype Blocker =
    | NoSideBindingField | NoRulesProse | NoAffirmativeSentence | BindingsDisagree | NoUnderlyingEvent
    | SideLabelAbsent | SubjectIsSibling | BothActAsSubjects | ComponentsMissing

  /** The settlement sentences as one folded text. */
  function Settlement(lex: Lexicon, c: Claim): string {
    Lower(lex.low, S.Join(Affirmative(lex, c.prose)))
  }

  function SpansOfClaim(lex: Lexicon, c: Claim): seq<Span> {
    if Truthy(c.side) && Truthy(c.sibling) then
      SpansOf(Settlement(lex, c), AllProbes(lex, c.side.value, c.sibling.value))
    else []
  }

  /** What the text says about orientation. */
  datatype Reading = Reading(mine: Option<nat>, theirs: Option<nat>, inText: bool)

  function Read(lex: Lexicon, c: Claim, bound: string): Reading {
    var t, spans := Settlement(lex, c), SpansOfClaim(lex, c);
    Reading(FirstOutside(t, Lower(lex.low, bound), spans, 0),
            if Truthy(c.sibling) then FirstOutside(t, Lower(lex.low, c.sibling.value), spans, 0) else None,
            Find(t, bound, 0).Some? || Find(t, Lower(lex.low, Text(c.sibling)), 0).Some?)
  }

  function Resolve(r: Reading): (Status, seq<Blocker>) {
    match (r.mine, r.theirs)
    case (None, None) => if r.inText then (Verified, []) else (SideBinding, [SideLabelAbsent])
    case (Some(_), None) => (Verified, [])
    case (None, Some(_)) => (Contradiction, [SubjectIsSibling])
    case (Some(m), Some(t)) =>
      if m < t then (AmbiguousSubject, [BothActAsSubjects]) else (Contradiction, [SubjectIsSibling])
  }

  /** The folded, stripped text of the first binding that has one. */
  function FirstBound(lex: Lexicon, bindings: seq<(string, Option<string>)>): string {
    if bindings == [] then ""
    else if Truthy(bindings[0].1) then Lower(lex.low, Strip(bindings[0].1.value))
    else FirstBound(lex, bindings[1..])
  }

  function Orient(lex: Lexicon, c: Claim): (Status, seq<Blocker>) {
    var named := Named(lex, c);
    if |named| > 1 then (Contradiction, [BindingsDisagree])
    else if named == {} then (SideBinding, [])
    else if Affirmative(lex, c.prose) == [] then (SettlementCondition, [])
    else if !c.eventPresent then (NoEvent, [NoUnderlyingEvent])
    else Resolve(Read(lex, c, FirstBound(lex, Bindings(c))))
  }

  function OtherLinks(c: Claim): seq<Link> {
    seq(|c.others|, k requires 0 <= k < |c.others| => Link(MaterialSpecialRules, c.others[k]))
  }

  function BindingLinks(bindings: seq<(string, Option<string>)>): seq<Link> {
    seq(|bindings|, k requires 0 <= k < |bindings| => Link(SideToPayoutBinding, Truthy(bindings[k].1)))
  }

  function ProseLinks(n: nat): seq<Link> {
    seq(n, _ => Link(SettlementProse, true))
  }

  /** The chain before its last link, which restates the orientation itself. */
  function Chain(lex: Lexicon, c: Claim): seq<Link> {
    [Link(UnderlyingEvent, c.eventPresent), Link(OutcomeParticipantBinding, Truthy(c.side)),
     Link(OutcomeParticipantBinding, Truthy(c.sibling))]
    + OtherLinks(c) + BindingLinks(Bindings(c)) + ProseLinks(|Affirmative(lex, c.prose)|)
    + [Link(MaterialSpecialRules, c.prose != [])]
  }

  predicate Holds(chain: seq<Link>, component: Component) {
    Link(component, true) in chain
  }

  function Missing(chain: seq<Link>, components: seq<Component>): seq<Component> {
    if components == [] then []
    else (if Holds(chain, components[0]) then [] else [components[0]]) + Missing(chain, components[1..])
  }

  /** PAYOFF_STATUS */
  function PayoffStatus(lex: Lexicon, c: Claim): Status {
    var oriented := Orient(lex, c).0;
    var chain := Chain(lex, c) + [Link(SideToPayoutBinding, oriented == Verified)];
    if Missing(chain, PROOF_COMPONENTS) != [] && oriented == Verified then Absent else oriented
  }

  /** Blockers found before the sentences are read. */
  function EarlyBlockers(lex: Lexicon, c: Claim): seq<Blocker> {
    (if Named(lex, c) == {} then [NoSideBindingField] else [])
    + (if c.prose == [] then [NoRulesProse]
       else if Affirmative(lex, c.prose) == [] then [NoAffirmativeSentence]
       else [])
  }

  function Blockers(lex: Lexicon, c: Claim): seq<Blocker> {
    var chain := Chain(lex, c) + [Link(SideToPayoutBinding, Orient(lex, c).0 == Verified)];
    EarlyBlockers(lex, c) + Orient(lex, c).1
    + (if Missing(chain, PROOF_COMPONENTS) != [] && Orient(lex, c).0 == Verified then [ComponentsMissing] else [])
  }

  method BlockedEarly(lex: Lexicon, c: Claim, affirm: seq<string>) returns (blockers: seq<Blocker>)
    requires affirm == Affirmative(lex, c.prose)
    ensures blockers == EarlyBlockers(lex, c)
  {
    blockers := [];
    if Named(lex, c) == {} {
      blockers := blockers + [NoSideBindingField];
    }
    if c.prose == [] {
      blockers := blockers + [NoRulesProse];
    } else if affirm == [] {
      blockers := blockers + [NoAffirmativeSentence];
    }
  }

  /** The proof chain and the blockers, appended to step by step. */
  method PaysOneIf(lex: Lexicon, c: Claim)
    returns (status: Status, blockers: seq<Blocker>, missing: seq<Component>, proof: seq<Link>)
    ensures status == PayoffStatus(lex, c)
    ensures proof == Chain(lex, c) + [Link(SideToPayoutBinding, Orient(lex, c).0 == Verified)]
    ensures missing == Missing(proof, PROOF_COMPONENTS)
    ensures blockers == Blockers(lex, c)
    ensures status == Verified <==> blockers == []
  {
    BlockedIffUnverified(lex, c);
    proof := [];
    proof := proof + [Link(UnderlyingEvent, c.eventPresent)];
    proof := proof + [Link(OutcomeParticipantBinding, Truthy(c.side))];
    proof := proof + [Link(OutcomeParticipantBinding, Truthy(c.sibling))];
    assert proof == [Link(UnderlyingEvent, c.eventPresent), Link(OutcomeParticipantBinding, Truthy(c.side)),
                     Link(OutcomeParticipantBinding, Truthy(c.sibling))];
    proof := proof + OtherLinks(c);
    proof := proof + BindingLinks(Bindings(c));
    var affirm := Affirmative(lex, c.prose);
    blockers := BlockedEarly(lex, c, affirm);
    proof := proof + ProseLinks(|affirm|);
    proof := proof + [Link(MaterialSpecialRules, c.prose != [])];
    var more;
    status, more := ResolveOrientation(lex, c, affirm);
    blockers := blockers + more;
    proof := proof + [Link(SideToPayoutBinding, status == Verified)];
    missing := Missing(proof, PROOF_COMPONENTS);
    if missing != [] && status == Verified {
      status := Absent;
      blockers := blockers + [ComponentsMissing];
    }
  }

  lemma ResolvedIffUnblocked(r: Reading)
    ensures Resolve(r).0 == Verified <==> Resolve(r).1 == []
  {
  }

  lemma NothingEarlyIff(lex: Lexicon, c: Claim)
    ensures EarlyBlockers(lex, c) == [] <==> Named(lex, c) != {} && Affirmative(lex, c.prose) != []
  {
    assert c.prose == [] ==> Affirmative(lex, c.prose) == [];
  }

  /** An orientation is verified exactly when nothing has been held against it. */
  lemma BlockedIffUnverified(lex: Lexicon, c: Claim)
    ensures Orient(lex, c).0 == Verified <==> EarlyBlockers(lex, c) + Orient(lex, c).1 == []
  {
    NothingEarlyIff(lex, c);
    ResolvedIffUnblocked(Read(lex, c, FirstBound(lex, Bindings(c))));
  }

  /** The branches that settle orientation against the settlement condition. */
  method ResolveOrientation(lex: Lexicon, c: Claim, affirm: seq<string>)
    returns (status: Status, blockers: seq<Blocker>)
    requires affirm == Affirmative(lex, c.prose)
    ensures (status, blockers) == Orient(lex, c)
  {
    var named := Named(lex, c);
    if |named| > 1 {
      return Contradiction, [BindingsDisagree];
    } else if named == {} {
      return SideBinding, [];
    } else if affirm == [] {
      return SettlementCondition, [];
    } else if !c.eventPresent {
      return NoEvent, [NoUnderlyingEvent];
    }
    var reading := ReadText(lex, c, FirstBound(lex, Bindings(c)));
    return Resolve(reading).0, Resolve(reading).1;
  }

  /** The scans of the settlement text. */
  method ReadText(lex: Lexicon, c: Claim, bound: string) returns (r: Reading)
    ensures r == Read(lex, c, bound)
  {
    var t := Settlement(lex, c);
    var spans := [];
    if Truthy(c.side) && Truthy(c.sibling) {
      spans := MatchupSpans(lex, t, c.side.value, c.sibling.value);
    }
    var mine := OutsideMatchup(t, Lower(lex.low, bound), spans);
    var theirs := None;
    if Truthy(c.sibling) {
      theirs := OutsideMatchup(t, Lower(lex.low, c.sibling.value), spans);
    }
    r := Reading(mine, theirs, Find(t, bound, 0).Some? || Find(t, Lower(lex.low, Text(c.sibling)), 0).Some?);
  }

  // ---- when the chain is complete -----------------------------------------

  lemma {:induction false} MissingMembers(chain: seq<Link>, components: seq<Component>)
    ensures Missing(chain, components) == [] <==> forall x :: x in components ==> Holds(chain, x)
  {
    if components != [] {
      MissingMembers(chain, components[1..]);
      assert forall x :: x in components <==> x == components[0] || x in components[1..];
    }
  }

  lemma BindingLinkHolds(lex: Lexicon, c: Claim)
    requires Named(lex, c) != {}
    ensures Link(SideToPayoutBinding, true) in BindingLinks(Bindings(c))
  {
    var n :| n in Named(lex, c);
    var b :| b in Bindings(c) && Truthy(b.1) && n == Lower(lex.low, Strip(b.1.value));
    var k :| 0 <= k < |Bindings(c)| && Bindings(c)[k] == b;
    assert BindingLinks(Bindings(c))[k] == Link(SideToPayoutBinding, true);
  }

  lemma InConcat(a: seq<Link>, b: seq<Link>, c: seq<Link>, d: seq<Link>, e: seq<Link>, l: Link)
    ensures l in a + b + c + d + e <==> l in a || l in b || l in c || l in d || l in e
  {
  }

  lemma ChainLinks(lex: Lexicon, c: Claim)
    requires Orient(lex, c).0 == Verified
    ensures forall x ::
      (Holds(Chain(lex, c), x) <==> x != OutcomeParticipantBinding || Truthy(c.side) || Truthy(c.sibling))
  {
    var head := [Link(UnderlyingEvent, c.eventPresent), Link(OutcomeParticipantBinding, Truthy(c.side)),
                 Link(OutcomeParticipantBinding, Truthy(c.sibling))];
    var n := |Affirmative(lex, c.prose)|;
    var last := [Link(MaterialSpecialRules, c.prose != [])];
    BindingLinkHolds(lex, c);
    assert n > 0 && ProseLinks(n)[0] == Link(SettlementProse, true);
    assert last[0] == Link(MaterialSpecialRules, true) && head[0] == Link(UnderlyingEvent, true);
    assert head[1] == Link(OutcomeParticipantBinding, Truthy(c.side));
    assert head[2] == Link(OutcomeParticipantBinding, Truthy(c.sibling));
    forall x
      ensures Holds(Chain(lex, c), x) <==> x != OutcomeParticipantBinding || Truthy(c.side) || Truthy(c.sibling)
    {
      InConcat(head, OtherLinks(c), BindingLinks(Bindings(c)), ProseLinks(n), last, Link(x, true));
    }
  }

  /** A verified orientation is withdrawn for an incomplete chain in one case only:
      neither side carries a label. */
  lemma WithdrawnIffUnlabelled(lex: Lexicon, c: Claim)
    requires Orient(lex, c).0 == Verified
    ensures PayoffStatus(lex, c) == (if Truthy(c.side) || Truthy(c.sibling) then Verified else Absent)
  {
    var base := Chain(lex, c);
    var chain := base + [Link(SideToPayoutBinding, true)];
    ChainLinks(lex, c);
    MissingMembers(chain, PROOF_COMPONENTS);
    forall x
      ensures Holds(chain, x) <==> Holds(base, x)
    {
      assert Holds(base, SideToPayoutBinding);
    }
    assert PROOF_COMPONENTS[1] == OutcomeParticipantBinding;
  }

  // ---- the two orientations of one contest --------------------------------

  ghost predicate Idempotent(low: char -> char) {
    forall x :: low(low(x)) == low(x)
  }

  lemma FoldTwice(lex: Lexicon, s: string)
    requires Idempotent(lex.low)
    ensures Lower(lex.low, Lower(lex.low, s)) == Lower(lex.low, s)
  {
  }

  lemma SameProbesSameCover(lex: Lexicon, t: string, a: string, b: string, i: nat)
    ensures Inside(SpansOf(t, AllProbes(lex, a, b)), i) ==> Inside(SpansOf(t, AllProbes(lex, b, a)), i)
  {
    var ab, ba := AllProbes(lex, a, b), AllProbes(lex, b, a);
    SpansExact(t, ab);
    SpansExact(t, ba);
    if Inside(SpansOf(t, ab), i) {
      var n :| 0 <= n < |SpansOf(t, ab)| && SpansOf(t, ab)[n].lo <= i < SpansOf(t, ab)[n].hi;
      var s := SpansOf(t, ab)[n];
      assert s in SpansOf(t, ab);
      var k :| 0 <= k < |ab| && IsSpanOf(s, t, ab[k]);
      var m := |lex.connectors|;
      assert ab[k] == ba[if k < m then k + m else k - m];
      assert s in SpansOf(t, ba);
    }
  }

  lemma {:induction false} FirstOutsideSwapped(lex: Lexicon, t: string, needle: string, a: string, b: string, i: nat)
    ensures FirstOutside(t, needle, SpansOf(t, AllProbes(lex, a, b)), i)
        == FirstOutside(t, needle, SpansOf(t, AllProbes(lex, b, a)), i)
    decreases |t| + 1 - i
  {
    var k := Find(t, needle, i);
    if k.Some? {
      SameProbesSameCover(lex, t, a, b, k.value);
      SameProbesSameCover(lex, t, b, a, k.value);
      FirstOutsideSwapped(lex, t, needle, a, b, k.value + 1);
    }
  }

  ghost predicate SettlementKnown(lex: Lexicon, c: Claim) {
    Affirmative(lex, c.prose) != [] && c.eventPresent
  }

  /** A label occurs outside every matchup phrase of the settlement sentences. */
  ghost predicate ActsAsSubject(lex: Lexicon, name: string, c: Claim)
    requires Truthy(c.side) && Truthy(c.sibling)
  {
    FirstOutside(Settlement(lex, c), Lower(lex.low, name), SpansOfClaim(lex, c), 0).Some?
  }

  ghost predicate IsMentioned(lex: Lexicon, name: string, c: Claim) {
    Find(Settlement(lex, c), Lower(lex.low, name), 0).Some?
  }

  /** Whatever fields declare the side, they all name its own label. */
  ghost predicate NamesItsSide(lex: Lexicon, c: Claim) {
    Truthy(c.side) && Named(lex, c) == {Lower(lex.low, Strip(c.side.value))}
  }

  lemma {:induction false} FirstBoundIsBound(lex: Lexicon, bs: seq<(string, Option<string>)>)
    requires exists b :: b in bs && Truthy(b.1)
    ensures exists b :: b in bs && Truthy(b.1) && FirstBound(lex, bs) == Lower(lex.low, Strip(b.1.value))
  {
    if Truthy(bs[0].1) {
      assert bs[0] in bs;
    } else {
      var b :| b in bs && Truthy(b.1);
      assert b in bs[1..];
      FirstBoundIsBound(lex, bs[1..]);
      var k :| k in bs[1..] && Truthy(k.1) && FirstBound(lex, bs[1..]) == Lower(lex.low, Strip(k.1.value));
      assert k in bs;
    }
  }

  lemma BoundIsOwnName(lex: Lexicon, c: Claim)
    requires NamesItsSide(lex, c)
    ensures FirstBound(lex, Bindings(c)) == Lower(lex.low, Strip(c.side.value)) && |Named(lex, c)| == 1
  {
    var name := Lower(lex.low, Strip(c.side.value));
    assert name in Named(lex, c);
    var b :| b in Bindings(c) && Truthy(b.1);
    FirstBoundIsBound(lex, Bindings(c));
    var k :| k in Bindings(c) && Truthy(k.1) && FirstBound(lex, Bindings(c)) == Lower(lex.low, Strip(k.1.value));
    assert FirstBound(lex, Bindings(c)) in Named(lex, c);
  }

  /** The default binding, and any declared one that repeats the label. */
  lemma DefaultNamesItsSide(lex: Lexicon, c: Claim)
    requires c.bindings == [] && Truthy(c.side)
    ensures NamesItsSide(lex, c)
  {
    assert Bindings(c)[0] in Bindings(c);
  }

  lemma ResolvedVerifiedIff(r: Reading)
    ensures Resolve(r).0 == Verified <==> r.theirs == None && (r.mine.Some? || r.inText)
  {
  }

  lemma OrientedIff(lex: Lexicon, c: Claim)
    requires NamesItsSide(lex, c)
    ensures var r := Read(lex, c, Lower(lex.low, Strip(c.side.value)));
      Orient(lex, c).0 == Verified <==> SettlementKnown(lex, c) && r.theirs == None && (r.mine.Some? || r.inText)
  {
    BoundIsOwnName(lex, c);
    ResolvedVerifiedIff(Read(lex, c, Lower(lex.low, Strip(c.side.value))));
  }

  lemma StatusIsOrientation(lex: Lexicon, c: Claim)
    requires Truthy(c.side)
    ensures PayoffStatus(lex, c) == Verified <==> Orient(lex, c).0 == Verified
  {
    if Orient(lex, c).0 == Verified {
      WithdrawnIffUnlabelled(lex, c);
    }
  }

  /** A subject occurs, so it is mentioned. */
  lemma SubjectIsMentioned(lex: Lexicon, c: Claim, name: string)
    requires Truthy(c.side) && Truthy(c.sibling) && ActsAsSubject(lex, name, c)
    ensures IsMentioned(lex, name, c)
  {
    FirstOutsideIsLeast(Settlement(lex, c), Lower(lex.low, name), SpansOfClaim(lex, c), 0);
    FindIsLeast(Settlement(lex, c), Lower(lex.low, name), 0);
  }

  /** What it takes for one orientation to be verified, whatever fields bind it. */
  lemma VerifiedIff(lex: Lexicon, c: Claim)
    requires Idempotent(lex.low) && NamesItsSide(lex, c) && Truthy(c.sibling) && Trimmed(c.side.value)
    ensures PayoffStatus(lex, c) == Verified
       <==> SettlementKnown(lex, c) && !ActsAsSubject(lex, c.sibling.value, c)
            && (IsMentioned(lex, c.side.value, c) || IsMentioned(lex, c.sibling.value, c))
  {
    TrimmedStrips(c.side.value);
    FoldTwice(lex, c.side.value);
    StatusIsOrientation(lex, c);
    OrientedIff(lex, c);
    if ActsAsSubject(lex, c.side.value, c) {
      SubjectIsMentioned(lex, c, c.side.value);
    }
  }

  /** d is the other side of the contest c is one side of. */
  ghost predicate Opposite(c: Claim, d: Claim) {
    && Truthy(c.side) && Truthy(c.sibling) && d.side == c.sibling && d.sibling == c.side
    && d.prose == c.prose && d.eventPresent == c.eventPresent
  }

  lemma SubjectSwapped(lex: Lexicon, c: Claim, d: Claim, name: string)
    requires Opposite(c, d)
    ensures ActsAsSubject(lex, name, c) <==> ActsAsSubject(lex, name, d)
  {
    FirstOutsideSwapped(lex, Settlement(lex, c), Lower(lex.low, name), c.side.value, c.sibling.value, 0);
  }

  lemma ResolvedNeedsSilentSibling(r: Reading)
    requires Resolve(r).0 == Verified
    ensures r.theirs == None
  {
  }

  lemma OrientedIsRead(lex: Lexicon, c: Claim)
    requires Orient(lex, c).0 == Verified
    ensures Resolve(Read(lex, c, FirstBound(lex, Bindings(c)))).0 == Verified
  {
  }

  lemma VerifiedNeedsSilentSibling(lex: Lexicon, c: Claim)
    requires Truthy(c.side) && Truthy(c.sibling) && PayoffStatus(lex, c) == Verified
    ensures !ActsAsSubject(lex, c.sibling.value, c)
  {
    OrientedIsRead(lex, c);
    ResolvedNeedsSilentSibling(Read(lex, c, FirstBound(lex, Bindings(c))));
  }

  /** As soon as either label acts as a subject, at most one orientation is verified,
      whatever fields bind either side. */
  lemma AtMostOneVerified(lex: Lexicon, c: Claim, d: Claim)
    requires Opposite(c, d)
    requires ActsAsSubject(lex, c.side.value, c) || ActsAsSubject(lex, c.sibling.value, c)
    ensures !(PayoffStatus(lex, c) == Verified && PayoffStatus(lex, d) == Verified)
  {
    SubjectSwapped(lex, c, d, c.side.value);
    if PayoffStatus(lex, c) == Verified {
      VerifiedNeedsSilentSibling(lex, c);
    }
    if PayoffStatus(lex, d) == Verified {
      VerifiedNeedsSilentSibling(lex, d);
    }
  }

  /** Where both sides are bound by their own names, both are verified exactly when
      the sentences name the contest and neither label stands outside it. */
  lemma BothVerifiedIffContest(lex: Lexicon, c: Claim, d: Claim)
    requires Idempotent(lex.low) && Opposite(c, d) && NamesItsSide(lex, c) && NamesItsSide(lex, d)
    requires Trimmed(c.side.value) && Trimmed(c.sibling.value)
    ensures PayoffStatus(lex, c) == Verified && PayoffStatus(lex, d) == Verified
       <==> SettlementKnown(lex, c)
            && !ActsAsSubject(lex, c.side.value, c) && !ActsAsSubject(lex, c.sibling.value, c)
            && (IsMentioned(lex, c.side.value, c) || IsMentioned(lex, c.sibling.value, c))
  {
    VerifiedIff(lex, c);
    VerifiedIff(lex, d);
    SubjectSwapped(lex, c, d, c.side.value);
  }

  // ---- a missing sibling --------------------------------------------------

  /** A side bound by its own name is verified although the settlement sentences
      never mention it exactly when it has no sibling label: an absent sibling
      counts as found in any text. */
  lemma VerifiedUnmentionedIff(lex: Lexicon, c: Claim)
    requires NamesItsSide(lex, c) && Idempotent(lex.low)
    ensures var unmentioned := Find(Settlement(lex, c), Lower(lex.low, Strip(c.side.value)), 0).None?;
      PayoffStatus(lex, c) == Verified && unmentioned <==> SettlementKnown(lex, c) && !Truthy(c.sibling) && unmentioned
  {
    var t, bound, spans := Settlement(lex, c), Lower(lex.low, Strip(c.side.value)), SpansOfClaim(lex, c);
    BoundIsOwnName(lex, c);
    FoldTwice(lex, Strip(c.side.value));
    if Orient(lex, c).0 == Verified {
      WithdrawnIffUnlabelled(lex, c);
    }
    FirstOutsideIsLeast(t, bound, spans, 0);
    FindIsLeast(t, bound, 0);
    if Find(t, bound, 0).None? {
      if Truthy(c.sibling) {
        var theirs := Lower(lex.low, c.sibling.value);
        FirstOutsideIsLeast(t, theirs, spans, 0);
        FindIsLeast(t, theirs, 0);
        if spans != [] {
          SpanMentionsSide(lex, c, spans[0]);
        }
      } else {
        assert OccursAt(t, "", 0);
        assert Lower(lex.low, Text(c.sibling)) == "";
      }
    }
  }

  lemma ProbeMentions(lex: Lexicon, a: string, b: string, k: nat) returns (at: nat)
    requires k < |AllProbes(lex, a, b)|
    ensures OccursAt(AllProbes(lex, a, b)[k], Lower(lex.low, a), at)
  {
    var fa, fb, m := Lower(lex.low, a), Lower(lex.low, b), |lex.connectors|;
    if k < m {
      OccursInConcat("", fa, lex.connectors[k] + fb);
      assert fa + lex.connectors[k] + fb == "" + fa + (lex.connectors[k] + fb);
      at := 0;
    } else {
      var before := fb + lex.connectors[k - m];
      OccursInConcat(before, fa, "");
      assert before + fa + "" == before + fa;
      at := |before|;
    }
  }

  lemma FoldedStripOccurs(low: char -> char, a: string) returns (at: nat)
    ensures OccursAt(Lower(low, a), Lower(low, Strip(a)), at)
  {
    var i, j := StripIsSlice(a);
    assert Lower(low, a)[i..j] == Lower(low, a[i..j]);
    at := i;
  }

  /** A matchup phrase contains the side's own label. */
  lemma SpanMentionsSide(lex: Lexicon, c: Claim, s: Span)
    requires Truthy(c.side) && Truthy(c.sibling) && s in SpansOfClaim(lex, c)
    ensures Find(Settlement(lex, c), Lower(lex.low, Strip(c.side.value)), 0).Some?
  {
    var t, a, b := Settlement(lex, c), c.side.value, c.sibling.value;
    var probes := AllProbes(lex, a, b);
    SpansExact(t, probes);
    var k :| 0 <= k < |probes| && IsSpanOf(s, t, probes[k]);
    MentionFound(lex, t, a, b, k, s.lo);
  }

  lemma MentionFound(lex: Lexicon, t: string, a: string, b: string, k: nat, lo: nat)
    requires k < |AllProbes(lex, a, b)| && OccursAt(t, AllProbes(lex, a, b)[k], lo)
    ensures Find(t, Lower(lex.low, Strip(a)), 0).Some?
  {
    var at := ProbeMentions(lex, a, b, k);
    OccursWithin(t, AllProbes(lex, a, b)[k], Lower(lex.low, a), lo, at);
    var i := FoldedStripOccurs(lex.low, a);
    OccursWithin(t, Lower(lex.low, a), Lower(lex.low, Strip(a)), lo + at, i);
    FindIsLeast(t, Lower(lex.low, Strip(a)), 0);
  }

  lemma OccursInConcat(x: string, y: string, z: string)
    ensures OccursAt(x + y + z, y, |x|)
  {
    assert (x + y + z)[|x|..|x| + |y|] == y;
  }

  lemma OccursWithin(t: string, outer: string, inner: string, i: nat, at: nat)
    requires OccursAt(t, outer, i) && OccursAt(outer, inner, at)
    ensures OccursAt(t, inner, i + at)
  {
    S.SliceOfSlice(t, i, i + |outer|, at, at + |inner|);
  }

  const PLAIN := Lexicon(S.Grammar(c => 'A' <= c <= 'Z' || '0' <= c <= '9', S.NON_TERMINAL_ABBREVIATIONS),
                         c => S.AsciiLower(c), AFFIRMATIVE_MARKERS, MATCHUP_CONNECTORS)

  lemma PaysOutIsAffirmative()
    ensures Affirmative(PLAIN, [("rules", "pays out")]) == ["pays out"]
    ensures Lower(PLAIN.low, "pays out") == "pays out"
  {
    var t := "pays out";
    assert Lower(PLAIN.low, t) == t;
    QuietTextStaysWhole(PLAIN.grammar, t);
    assert PLAIN.markers[6] == t && OccursAt(t, t, 0);
    FindIsLeast(t, PLAIN.markers[6], 0);
    assert IsAffirmative(PLAIN, t);
    assert AffirmativeOf(PLAIN, [t]) == [t];
    assert Affirmative(PLAIN, []) == [];
  }

  lemma NoSuchLetter(t: string, needle: string)
    requires needle != "" && needle[0] !in t
    ensures !Contains(t, needle) && Find(t, needle, 0).None?
  {
    assert forall i: nat :: !OccursAt(t, needle, i);
    FindIsLeast(t, needle, 0);
  }

  lemma PlainFoldsOnce()
    ensures Idempotent(PLAIN.low)
  {
  }

  /** A one-sided contract whose only settlement sentence is "pays out" is verified
      for a side that sentence does not name. */
  lemma UnmentionedSideVerified()
    ensures PayoffStatus(PLAIN, Claim(Some("Lakers"), None, [("rules", "pays out")], true, [], [])) == Verified
    ensures !Contains("pays out", "lakers")
  {
    PaysOutIsAffirmative();
    PlainFoldsOnce();
    NoSuchLetter("pays out", "lakers");
    LoneSideVerified(PLAIN, "Lakers", [("rules", "pays out")], "pays out");
  }

  lemma LoneSideVerified(lex: Lexicon, side: string, prose: seq<(string, string)>, t: string)
    requires Idempotent(lex.low) && side != "" && Trimmed(side)
    requires Affirmative(lex, prose) == [t] && Lower(lex.low, t) == t && lex.low(side[0]) !in t
    ensures PayoffStatus(lex, Claim(Some(side), None, prose, true, [], [])) == Verified
  {
    var c := Claim(Some(side), None, prose, true, [], []);
    TrimmedStrips(side);
    DefaultNamesItsSide(lex, c);
    SettlementIs(lex, c, t);
    NoSuchLetter(t, Lower(lex.low, side));
    VerifiedUnmentionedIff(lex, c);
  }

  lemma SettlementIs(lex: Lexicon, c: Claim, t: string)
    requires Affirmative(lex, c.prose) == [t] && Lower(lex.low, t) == t && c.eventPresent
    ensures Settlement(lex, c) == t && SettlementKnown(lex, c)
  {
    assert S.Join([t]) == t;
  }

  lemma QuietTextStaysWhole(g: S.Grammar, t: string)
    requires t != "" && !IsSpace(t[0]) && !IsSpace(t[|t| - 1])
    requires forall i :: 0 <= i < |t| ==> !S.IsStop(t[i])
    ensures S.Sentences(g, t) == [t]
  {
    assert S.Join([t]) == t == t[0..];
    S.JoinedSplits(g, t, 0, [t]);
  }
}
