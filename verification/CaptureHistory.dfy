// What each market has been told, read off the request log alone
// (research/run85_phase2_capture.py, lines 508-545).
module CaptureHistory {
  import opened Wrappers
  import opened CaptureGrid
  import opened Capture
  import CS = CaptureSubject

  predicate Misidentified(response: Response) {
    response.identityOk == Some(false)
  }

  function Throttled(log: seq<Shot>): nat {
    if log == [] then 0 else Throttled(log[..|log| - 1]) + if Throttles(log[|log| - 1].response) then 1 else 0
  }

  /** What a set tells its market: the state and the two-sidedness of its first book. */
  function NoteOf(legs: map<Leg, Response>): CS.Note {
    if FIRST_LEG in legs then CS.Note(legs[FIRST_LEG].state, legs[FIRST_LEG].twoSided)
    else CS.Note(CS.OtherState, false)
  }

  /** The same, from the log. */
  function SetNote(log: seq<Shot>, i: nat): CS.Note {
    match LegRead(log, i, FIRST_LEG)
    case Some(response) => CS.Note(response.state, response.twoSided)
    case None => CS.Note(CS.OtherState, false)
  }

  lemma NoteIsSetNote(log: seq<Shot>, i: nat, legs: map<Leg, Response>)
    requires LegsAsRead(log, i, legs)
    ensures NoteOf(legs) == SetNote(log, i)
  {
    assert LegRead(log, i, FIRST_LEG) == if FIRST_LEG in legs then Some(legs[FIRST_LEG]) else None;
  }

  /** The last request closes its set: it is for the set's last leg and does not
      stop the run as the fifth 429. */
  predicate Closes(log: seq<Shot>) {
    && log != [] && log[|log| - 1].entry.leg == LAST_LEG
    && !(Throttles(log[|log| - 1].response) && Throttled(log) >= MAX_429_BEFORE_STOP)
  }

  /** What the last request tells its market. A misidentified answer stops the run
      before its status is looked at. */
  function Told(log: seq<Shot>): seq<CS.Event>
    requires log != []
  {
    var last := log[|log| - 1];
    if Misidentified(last.response) then []
    else if Closes(log) then [CS.Answered(last.response.status), CS.Noted(SetNote(log, last.entry.set_))]
    else [CS.Answered(last.response.status)]
  }

  /** Everything market s has been told, in order. */
  function HistoryOf(log: seq<Shot>, s: nat): seq<CS.Event> {
    if log == [] then []
    else HistoryOf(log[..|log| - 1], s) + if log[|log| - 1].subject == s then Told(log) else []
  }

  lemma HistoryExtends(log: seq<Shot>, shot: Shot, s: nat)
    ensures HistoryOf(log + [shot], s) == HistoryOf(log, s) + if shot.subject == s then Told(log + [shot]) else []
    ensures Throttled(log + [shot]) == Throttled(log) + if Throttles(shot.response) then 1 else 0
  {
    assert (log + [shot])[..|log|] == log;
  }

  /** The rule as it stands for market s after the first k requests. */
  function RuleAfter(log: seq<Shot>, s: nat, k: nat): Option<CS.Reason> {
    if k <= |log| then CS.Rule(HistoryOf(log[..k], s)) else None
  }

  /** The k-th request is the one that retired market s. */
  ghost predicate RetiredAt(log: seq<Shot>, s: nat, k: int) {
    0 < k <= |log| && RuleAfter(log, s, k - 1) == None && RuleAfter(log, s, k).Some?
  }

  lemma RuleAfterPrefix(log: seq<Shot>, shot: Shot, s: nat, k: nat)
    requires k <= |log|
    ensures RuleAfter(log + [shot], s, k) == RuleAfter(log, s, k)
  {
    assert (log + [shot])[..k] == log[..k];
  }

  lemma RetiredAtExtends(log: seq<Shot>, shot: Shot, s: nat, k: int)
    requires RetiredAt(log, s, k)
    ensures RetiredAt(log + [shot], s, k)
  {
    RuleAfterPrefix(log, shot, s, k - 1);
    RuleAfterPrefix(log, shot, s, k);
  }

  lemma RetiredByLast(log: seq<Shot>, shot: Shot, s: nat)
    requires CS.Rule(HistoryOf(log, s)) == None && CS.Rule(HistoryOf(log + [shot], s)).Some?
    ensures RetiredAt(log + [shot], s, |log| + 1)
  {
    var q := log + [shot];
    assert q[..|log|] == log && q[..|log| + 1] == q;
  }

  /** What one more request adds to a market's history. */
  lemma HistoryStep(log: seq<Shot>, s: nat, j: nat, k: nat) returns (told: seq<CS.Event>)
    requires k == j + 1 && k <= |log|
    ensures |told| <= 2 && HistoryOf(log[..k], s) == HistoryOf(log[..j], s) + told
  {
    assert log[..k][..j] == log[..j];
    told := if log[j].subject == s then Told(log[..k]) else [];
  }

  /** Once retired, a market stays retired for the same reason. */
  lemma {:induction false} RuleAfterSticks(log: seq<Shot>, s: nat, j: nat, k: nat)
    requires j <= k <= |log| && RuleAfter(log, s, j).Some?
    ensures RuleAfter(log, s, k) == RuleAfter(log, s, j)
  {
    if j < k {
      var last := k - 1;
      RuleAfterSticks(log, s, j, last);
      var told := HistoryStep(log, s, last, k);
      CS.RuleSticks(HistoryOf(log[..last], s), told);
    }
  }

  /** A run's table of retirements is what the answers say: a market is in it exactly
      when the rule has retired it, with the request that did. */
  ghost predicate RetiredAsTold(log: seq<Shot>, retired: map<int, int>, m: nat) {
    forall s: nat :: s < m ==> RowAsTold(log, retired, s)
  }

  ghost predicate RowAsTold(log: seq<Shot>, retired: map<int, int>, s: nat) {
    && (s in retired <==> CS.Rule(HistoryOf(log, s)).Some?)
    && (s in retired ==> RetiredAt(log, s, retired[s]))
  }

  /** So a market is requested only while the answers so far leave it unretired. */
  lemma OnlyLiveMarketsRequested(log: seq<Shot>, retired: map<int, int>, m: nat, k: nat)
    requires RetiredAsTold(log, retired, m) && RetiredSilent(log, retired)
    requires k < |log| && log[k].subject < m
    ensures RuleAfter(log, log[k].subject, k) == None
  {
    var s := log[k].subject;
    if RuleAfter(log, s, k).Some? {
      RuleAfterSticks(log, s, k, |log|);
      assert log[..|log|] == log;
      assert RowAsTold(log, retired, s);
      StickyBefore(log, s, k, retired[s]);
    }
  }

  lemma StickyBefore(log: seq<Shot>, s: nat, k: nat, at: int)
    requires RuleAfter(log, s, k).Some? && RetiredAt(log, s, at)
    ensures at <= k
  {
    if k < at {
      RuleAfterSticks(log, s, k, at - 1);
    }
  }

  /** Nor is any other request left out: a planned leg whose slot has passed was
      requested, or the answers before that slot had retired its market. */
  lemma OnlyDeadMarketsSkipped(r: Run, c: nat, n: nat, m: nat, e: Entry)
    requires m > 0 && Answers(r, c, n, m) && RetiredAsTold(r.log, r.retired, m) && InPlan(e, n)
    requires SlotOf(e, SET_PERIOD_SLOTS) < c && LegRead(r.log, e.set_, e.leg) == None
    ensures exists k :: RetiredAt(r.log, e.set_ % m, k) && r.log[k - 1].slot < SlotOf(e, SET_PERIOD_SLOTS)
  {
    var s := e.set_ % m;
    assert RowAsTold(r.log, r.retired, s);
    assert RetiredEarlier(r.log, r.retired, s, SlotOf(e, SET_PERIOD_SLOTS));
    assert RetiredAt(r.log, s, r.retired[s]);
  }

  /** The retiring event: the market's history up to where the rule fired. */
  ghost predicate IsRetiringHistory(h: seq<CS.Event>, log: seq<Shot>, s: nat, k: nat)
    requires 0 < k <= |log|
  {
    && h <= HistoryOf(log[..k], s) && |HistoryOf(log[..k - 1], s)| < |h|
    && CS.Rule(h[..|h| - 1]) == None && CS.Rule(h) == RuleAfter(log, s, k)
  }

  lemma RetiringEvent(log: seq<Shot>, s: nat, k: int) returns (h: seq<CS.Event>)
    requires RetiredAt(log, s, k)
    ensures IsRetiringHistory(h, log, s, k)
  {
    var before, all := HistoryOf(log[..k - 1], s), HistoryOf(log[..k], s);
    var told := HistoryStep(log, s, k - 1, k);
    RuleUpToBefore(before, told);
    assert all[..|all|] == all;
    var n := CS.TurningPoint(all, |before|, |all|);
    CS.TurningPrefix(all, n);
    h := all[..n];
  }

  /** At run level: the request that retires a market finds its streak at exactly
      the limit. */
  lemma RetirementIsExact(log: seq<Shot>, s: nat, k: int) returns (h: seq<CS.Event>)
    requires RetiredAt(log, s, k)
    ensures IsRetiringHistory(h, log, s, k)
    ensures match RuleAfter(log, s, k).value
      case MarketNotFound => CS.NotFoundCount(CS.StatusesIn(h)) == CS.NOT_FOUND_STREAK
      case VenueTerminalState => h[|h| - 1].Noted? && h[|h| - 1].note.state.Terminal?
      case SustainedNonOpenState => CS.NonOpenRun(CS.NotesIn(h)) == CS.NON_OPEN_STREAK
      case SustainedNoTwoSidedBook => CS.NoBookRun(CS.NotesIn(h)) == CS.NO_BOOK_STREAK
  {
    h := RetiringEvent(log, s, k);
    CS.StreaksFireExactly(h);
  }

  /** A market retired as not found was not retired on three 404s in a row exactly
      when an earlier one was still counted. */
  lemma NotFoundRetirement(log: seq<Shot>, s: nat, k: int) returns (h: seq<CS.Event>)
    requires RetiredAt(log, s, k) && RuleAfter(log, s, k) == Some(CS.MarketNotFound)
    ensures IsRetiringHistory(h, log, s, k)
    ensures var statuses := CS.StatusesIn(h);
      CS.ConsecutiveNotFound(statuses) < CS.NOT_FOUND_STREAK <==> exists i: nat :: CS.StaleNotFound(statuses, i)
  {
    h := RetiringEvent(log, s, k);
    CS.RetiredOnStaleIff(h);
  }

  lemma RuleUpToBefore(before: seq<CS.Event>, told: seq<CS.Event>)
    ensures CS.RuleUpTo(before + told, |before|) == CS.Rule(before)
  {
    assert (before + told)[..|before|] == before;
  }
}
