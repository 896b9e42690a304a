// When a run retires a market, said of the request log alone: which requests a
// market has heard, which of them close one of its sets, and what the first books
// of those sets showed (research/run85_phase2_capture.py, lines 316, 353-360,
// 430-448 and 508-546).
module RetirementLog {
  import opened Wrappers
  import opened Counting
  import opened CaptureGrid
  import opened Capture
  import opened CaptureHistory
  import opened CaptureRun
  import CS = CaptureSubject

  /** The k-th request reached market s: it was for it, and its answer did not name
      another market. */
  predicate Reaches(log: seq<Shot>, k: nat, s: nat) {
    k < |log| && log[k].subject == s && log[k].response.identityOk != Some(false)
  }

  predicate StatusAt(log: seq<Shot>, k: nat, status: int) {
    k < |log| && log[k].response.status == Some(status)
  }

  ghost function With429(log: seq<Shot>): nat -> bool {
    (k: nat) => StatusAt(log, k, 429)
  }

  /** The k-th request ends the run as its fifth 429. */
  ghost predicate FifthThrottle(log: seq<Shot>, k: nat) {
    StatusAt(log, k, 429) && |Having(With429(log), k + 1)| >= 5
  }

  /** The k-th request closes a set of market s: it is for the set's last leg. */
  ghost predicate ClosesSet(log: seq<Shot>, k: nat, s: nat) {
    Reaches(log, k, s) && log[k].entry.leg == Leg(25, Bbo, 60) && !FifthThrottle(log, k)
  }

  /** The j-th request, made before the k-th, read the first book of the same set. */
  predicate IsFirstBook(log: seq<Shot>, j: nat, k: nat) {
    j < k < |log| && log[j].entry == Entry(log[k].entry.set_, Leg(0, Book, 0))
  }

  ghost predicate FirstBookIs(log: seq<Shot>, k: nat, state: CS.VenueState) {
    exists j: nat :: IsFirstBook(log, j, k) && log[j].response.state == state
  }

  ghost predicate FirstBookTwoSided(log: seq<Shot>, k: nat) {
    exists j: nat :: IsFirstBook(log, j, k) && log[j].response.twoSided
  }

  // ---- what the log adds to a history -------------------------------------

  /** No leg of a set is requested twice. */
  ghost predicate AskedOnce(log: seq<Shot>) {
    forall j, k :: 0 <= j < k < |log| ==> log[j].entry != log[k].entry
  }

  lemma PlanAsksOnce(log: seq<Shot>, c: nat, n: nat, m: nat)
    requires m > 0 && OnPlan(log, c, n, m)
    ensures AskedOnce(log)
  {
    forall j, k | 0 <= j < k < |log|
      ensures log[j].entry != log[k].entry
    {
      assert Capture.Planned(log[j], c, n, m) && Capture.Planned(log[k], c, n, m);
    }
  }

  /** What a request for a leg came back with is what the log holds for it. */
  lemma {:induction false} LegReadIs(log: seq<Shot>, j: nat, n: nat)
    requires AskedOnce(log) && j < n <= |log|
    ensures LegRead(log[..n], log[j].entry.set_, log[j].entry.leg) == Some(log[j].response)
  {
    assert log[..n][..n - 1] == log[..n - 1];
    if j < n - 1 {
      LegReadIs(log, j, n - 1);
    }
  }

  lemma {:induction false} LegUnread(log: seq<Shot>, i: nat, leg: Leg, n: nat)
    requires n <= |log| && forall j :: 0 <= j < n ==> log[j].entry != Entry(i, leg)
    ensures LegRead(log[..n], i, leg) == None
  {
    if n > 0 {
      assert log[..n][..n - 1] == log[..n - 1];
      LegUnread(log, i, leg, n - 1);
    }
  }

  lemma {:induction false} ThrottledIs(log: seq<Shot>, n: nat)
    requires n <= |log|
    ensures Throttled(log[..n]) == |Having(With429(log), n)|
  {
    if n > 0 {
      ThrottledIs(log, n - 1);
      OneMore(With429(log), n - 1);
      assert log[..n][..n - 1] == log[..n - 1];
    } else {
      assert Having(With429(log), 0) == {};
    }
  }

  /** The note of the set that the k-th request closes is its first book's. */
  ghost predicate NotesFirstBook(note: CS.Note, log: seq<Shot>, k: nat) {
    && (note.state.Open? <==> FirstBookIs(log, k, CS.Open))
    && (note.state.Terminal? <==> FirstBookIs(log, k, CS.Terminal))
    && (note.postable <==> FirstBookTwoSided(log, k))
    && (forall j: nat :: IsFirstBook(log, j, k) ==> note == CS.Note(log[j].response.state, log[j].response.twoSided))
  }

  lemma SetNoteIs(log: seq<Shot>, k: nat)
    requires AskedOnce(log) && k < |log| && log[k].entry.leg == Leg(25, Bbo, 60)
    ensures NotesFirstBook(SetNote(log[..k + 1], log[k].entry.set_), log, k)
  {
    var i := log[k].entry.set_;
    if j: nat :| IsFirstBook(log, j, k) {
      LegReadIs(log, j, k + 1);
    } else {
      forall j | 0 <= j < k + 1
        ensures log[j].entry != Entry(i, FIRST_LEG)
      {
        assert j < k ==> !IsFirstBook(log, j, k);
      }
      LegUnread(log, i, FIRST_LEG, k + 1);
    }
  }

  /** What the k-th request adds to the history of market s, as seen on the log. */
  ghost predicate AddsToHistory(log: seq<Shot>, k: nat, s: nat, told: seq<CS.Event>)
    requires k < |log|
  {
    if !Reaches(log, k, s) then told == []
    else if !ClosesSet(log, k, s) then told == [CS.Answered(log[k].response.status)]
    else |told| == 2 && told[0] == CS.Answered(log[k].response.status) && told[1].Noted?
         && NotesFirstBook(told[1].note, log, k)
  }

  lemma HistoryGrows(log: seq<Shot>, k: nat, next: nat, s: nat) returns (told: seq<CS.Event>)
    requires next == k + 1 && next <= |log| && AskedOnce(log)
    ensures HistoryOf(log[..next], s) == HistoryOf(log[..k], s) + told && AddsToHistory(log, k, s, told)
  {
    assert log[..next][..k] == log[..k] && log[..next][k] == log[k];
    ThrottledIs(log, next);
    if log[k].entry.leg == Leg(25, Bbo, 60) {
      SetNoteIs(log, k);
    }
    told := if log[k].subject == s then Told(log[..next]) else [];
  }

  /** In a run every set that closes had its first book read. */
  lemma FirstBookWasRead(r: Run, t0: real, c: nat, n: nat, m: nat, k: nat) returns (j: nat)
    requires m > 0 && Inv(r, t0, c, n, m) && k < |r.log| && r.log[k].entry.leg == Leg(25, Bbo, 60)
    ensures IsFirstBook(r.log, j, k)
  {
    FirstBookAsked(r, c, n, m, k);
    j := WhoRead(r.log, r.log[k].entry.set_, FIRST_LEG);
    InOrder(r.log, c, n, m, j, k);
  }

  lemma FirstBookAsked(r: Run, c: nat, n: nat, m: nat, k: nat)
    requires m > 0 && OnPlan(r.log, c, n, m) && RetiredSilent(r.log, r.retired)
    requires OnlyRetiredSkipped(r.log, r.retired, c, n, m)
    requires k < |r.log| && r.log[k].entry.leg == Leg(25, Bbo, 60)
    ensures LegRead(r.log, r.log[k].entry.set_, FIRST_LEG).Some?
  {
    var e := Entry(r.log[k].entry.set_, FIRST_LEG);
    assert Capture.Planned(r.log[k], c, n, m);
    assert LEGS[0] == FIRST_LEG;
    assert InPlan(e, n) && SlotOf(e, SET_PERIOD_SLOTS) < r.log[k].slot;
    NotRetiredBefore(r, c, n, m, k, SlotOf(e, SET_PERIOD_SLOTS));
  }

  /** A first book's slot is before that of the closing request of its set. */
  lemma InOrder(log: seq<Shot>, c: nat, n: nat, m: nat, j: nat, k: nat)
    requires m > 0 && OnPlan(log, c, n, m) && j < |log| && k < |log|
    requires log[k].entry.leg == Leg(25, Bbo, 60) && log[j].entry == Entry(log[k].entry.set_, FIRST_LEG)
    ensures IsFirstBook(log, j, k)
  {
    assert Capture.Planned(log[j], c, n, m) && Capture.Planned(log[k], c, n, m);
    assert log[j].slot < log[k].slot;
  }

  /** A market that is requested was not retired by a request of an earlier slot. */
  lemma NotRetiredBefore(r: Run, c: nat, n: nat, m: nat, k: nat, slot: nat)
    requires m > 0 && OnPlan(r.log, c, n, m) && RetiredSilent(r.log, r.retired) && k < |r.log|
    requires slot < r.log[k].slot
    ensures !RetiredEarlier(r.log, r.retired, r.log[k].subject, slot)
  {
    var s := r.log[k].subject;
    if RetiredEarlier(r.log, r.retired, s, slot) {
      SilentAfter(r.log, r.retired, s, k);
    }
  }

  lemma SilentAfter(log: seq<Shot>, retired: map<int, int>, s: nat, k: nat)
    requires RetiredSilent(log, retired) && s in retired && k < |log| && log[k].subject == s
    ensures k < retired[s]
  {
  }

  lemma {:induction false} WhoRead(log: seq<Shot>, i: nat, leg: Leg) returns (j: nat)
    requires LegRead(log, i, leg).Some?
    ensures j < |log| && log[j].entry == Entry(i, leg)
  {
    j := |log| - 1;
    if log[j].entry != Entry(i, leg) {
      j := WhoRead(log[..j], i, leg);
    }
  }

  // ---- the streaks, on the log --------------------------------------------

  ghost function Heard404(log: seq<Shot>, s: nat): nat -> bool {
    (k: nat) => Reaches(log, k, s) && StatusAt(log, k, 404)
  }

  ghost function Heard200(log: seq<Shot>, s: nat): nat -> bool {
    (k: nat) => Reaches(log, k, s) && StatusAt(log, k, 200)
  }

  ghost function ClosesOpen(log: seq<Shot>, s: nat, open: bool): nat -> bool {
    (k: nat) => ClosesSet(log, k, s) && FirstBookIs(log, k, CS.Open) == open
  }

  ghost function ClosesTwoSided(log: seq<Shot>, s: nat, two: bool): nat -> bool {
    (k: nat) => ClosesSet(log, k, s) && FirstBookTwoSided(log, k) == two
  }

  /** The 404s market s has heard in the first n requests and no 200 since. */
  ghost function Uncleared404s(log: seq<Shot>, n: nat, s: nat): set<nat> {
    Unreset(Heard404(log, s), Heard200(log, s), n)
  }

  /** The sets of market s closed, none open at its first book, since the last that was. */
  ghost function NotOpenSets(log: seq<Shot>, n: nat, s: nat): set<nat> {
    Unreset(ClosesOpen(log, s, false), ClosesOpen(log, s, true), n)
  }

  /** The same of sets whose first book had not two sides. */
  ghost function OneSidedSets(log: seq<Shot>, n: nat, s: nat): set<nat> {
    Unreset(ClosesTwoSided(log, s, false), ClosesTwoSided(log, s, true), n)
  }

  /** The three counts of the first n requests. */
  ghost predicate Streaks(log: seq<Shot>, n: nat, s: nat, h: seq<CS.Event>) {
    && CS.NotFoundCount(CS.StatusesIn(h)) == |Uncleared404s(log, n, s)|
    && CS.NonOpenRun(CS.NotesIn(h)) == |NotOpenSets(log, n, s)|
    && CS.NoBookRun(CS.NotesIn(h)) == |OneSidedSets(log, n, s)|
  }

  lemma StatusAdds(log: seq<Shot>, k: nat, next: nat, s: nat)
    requires next == k + 1 && next <= |log|
    ensures |Uncleared404s(log, next, s)|
         == if !Reaches(log, k, s) then |Uncleared404s(log, k, s)|
            else if StatusAt(log, k, 404) then |Uncleared404s(log, k, s)| + 1
            else if StatusAt(log, k, 200) then 0
            else |Uncleared404s(log, k, s)|
  {
    OneMoreUnreset(Heard404(log, s), Heard200(log, s), k);
  }

  lemma NotOpenAdds(log: seq<Shot>, k: nat, next: nat, s: nat)
    requires next == k + 1 && next <= |log|
    ensures |NotOpenSets(log, next, s)|
         == if !ClosesSet(log, k, s) then |NotOpenSets(log, k, s)|
            else if FirstBookIs(log, k, CS.Open) then 0
            else |NotOpenSets(log, k, s)| + 1
  {
    OneMoreUnreset(ClosesOpen(log, s, false), ClosesOpen(log, s, true), k);
  }

  lemma OneSidedAdds(log: seq<Shot>, k: nat, next: nat, s: nat)
    requires next == k + 1 && next <= |log|
    ensures |OneSidedSets(log, next, s)|
         == if !ClosesSet(log, k, s) then |OneSidedSets(log, k, s)|
            else if FirstBookTwoSided(log, k) then 0
            else |OneSidedSets(log, k, s)| + 1
  {
    OneMoreUnreset(ClosesTwoSided(log, s, false), ClosesTwoSided(log, s, true), k);
  }

  /** One event more, as the streaks see it. */
  lemma EventAdds(h: seq<CS.Event>, e: CS.Event)
    ensures CS.StatusesIn(h + [e]) == CS.StatusesIn(h) + if e.Answered? then [e.status] else []
    ensures CS.NotesIn(h + [e]) == CS.NotesIn(h) + if e.Noted? then [e.note] else []
  {
    assert (h + [e])[..|h|] == h;
  }

  lemma StatusCounts(statuses: seq<CS.Status>, status: CS.Status)
    ensures CS.NotFoundCount(statuses + [status])
         == if status == Some(404) then CS.NotFoundCount(statuses) + 1
            else if status == Some(200) then 0
            else CS.NotFoundCount(statuses)
  {
    assert (statuses + [status])[..|statuses|] == statuses;
  }

  lemma NoteCounts(notes: seq<CS.Note>, note: CS.Note)
    ensures CS.NonOpenRun(notes + [note]) == if note.state.Open? then 0 else CS.NonOpenRun(notes) + 1
    ensures CS.NoBookRun(notes + [note]) == if note.postable then 0 else CS.NoBookRun(notes) + 1
  {
    assert (notes + [note])[..|notes|] == notes;
  }

  /** After one more status of a request that closed nothing. */
  lemma AnswerStreaks(log: seq<Shot>, k: nat, next: nat, s: nat, h: seq<CS.Event>, e: CS.Event)
    requires next == k + 1 && next <= |log| && Streaks(log, k, s, h) && Reaches(log, k, s)
    requires e == CS.Answered(log[k].response.status)
    ensures CS.NotFoundCount(CS.StatusesIn(h + [e])) == |Uncleared404s(log, next, s)|
    ensures CS.NotesIn(h + [e]) == CS.NotesIn(h)
  {
    EventAdds(h, e);
    StatusCounts(CS.StatusesIn(h), e.status);
    StatusAdds(log, k, next, s);
  }

  lemma StreaksGrow(log: seq<Shot>, k: nat, next: nat, s: nat, h: seq<CS.Event>, told: seq<CS.Event>)
    requires next == k + 1 && next <= |log| && Streaks(log, k, s, h) && AddsToHistory(log, k, s, told)
    ensures Streaks(log, next, s, h + told)
  {
    StatusAdds(log, k, next, s);
    NotOpenAdds(log, k, next, s);
    OneSidedAdds(log, k, next, s);
    if told == [] {
      assert h + told == h;
    } else {
      AnswerStreaks(log, k, next, s, h, told[0]);
      var one := h + [told[0]];
      if |told| == 2 {
        assert h + told == one + [told[1]];
        EventAdds(one, told[1]);
        NoteCounts(CS.NotesIn(one), told[1].note);
      } else {
        assert h + told == one;
      }
    }
  }

  lemma {:induction false} StreaksAre(log: seq<Shot>, n: nat, s: nat)
    requires AskedOnce(log) && n <= |log|
    ensures Streaks(log, n, s, HistoryOf(log[..n], s))
  {
    if n == 0 {
      NothingUnreset(Heard404(log, s), Heard200(log, s));
      NothingUnreset(ClosesOpen(log, s, false), ClosesOpen(log, s, true));
      NothingUnreset(ClosesTwoSided(log, s, false), ClosesTwoSided(log, s, true));
    } else {
      StreaksAre(log, n - 1, s);
      var told := HistoryGrows(log, n - 1, n, s);
      StreaksGrow(log, n - 1, n, s, HistoryOf(log[..n - 1], s), told);
    }
  }

  // ---- the rule, on the log -----------------------------------------------

  /** The reason the k-th request gives to retire market s, if it gives one: its third
      uncleared 404; or it closes a set whose first book was terminal; or the
      fortieth set in a row not open, or the fortieth in a row without two sides. */
  ghost function Gives(log: seq<Shot>, k: nat, s: nat): Option<CS.Reason> {
    if !Reaches(log, k, s) then None
    else if |Uncleared404s(log, k + 1, s)| >= 3 then Some(CS.MarketNotFound)
    else if !ClosesSet(log, k, s) then None
    else if FirstBookIs(log, k, CS.Terminal) then Some(CS.VenueTerminalState)
    else if |NotOpenSets(log, k + 1, s)| >= 40 then Some(CS.SustainedNonOpenState)
    else if |OneSidedSets(log, k + 1, s)| >= 40 then Some(CS.SustainedNoTwoSidedBook)
    else None
  }

  lemma OneEventMore(h: seq<CS.Event>, e: CS.Event)
    ensures CS.Rule(h + [e]) == if CS.Rule(h).Some? then CS.Rule(h) else CS.Says(h + [e])
  {
    assert (h + [e])[..|h|] == h;
  }

  lemma SecondEvent(h: seq<CS.Event>, e: CS.Event)
    requires e.Noted?
    ensures var notes := CS.NotesIn(h + [e]);
      CS.Rule(h + [e]) == if CS.Rule(h).Some? then CS.Rule(h)
                          else if e.note.state.Terminal? then Some(CS.VenueTerminalState)
                          else if CS.NonOpenRun(notes) >= 40 then Some(CS.SustainedNonOpenState)
                          else if CS.NoBookRun(notes) >= 40 then Some(CS.SustainedNoTwoSidedBook)
                          else None
  {
    OneEventMore(h, e);
    EventAdds(h, e);
  }

  /** A market still being read is retired by the k-th request exactly when, and
      exactly for the reason that, the request gives. */
  lemma RuleGives(log: seq<Shot>, k: nat, next: nat, s: nat)
    requires next == k + 1 && next <= |log| && AskedOnce(log) && RuleAfter(log, s, k) == None
    ensures RuleAfter(log, s, next) == Gives(log, k, s)
  {
    var h := HistoryOf(log[..k], s);
    var told := HistoryGrows(log, k, next, s);
    StreaksAre(log, k, s);
    StreaksAre(log, next, s);
    ToldGives(log, k, next, s, h, told);
  }

  lemma ToldGives(log: seq<Shot>, k: nat, next: nat, s: nat, h: seq<CS.Event>, told: seq<CS.Event>)
    requires next == k + 1 && next <= |log| && AddsToHistory(log, k, s, told) && CS.Rule(h) == None
    requires Streaks(log, k, s, h) && Streaks(log, next, s, h + told)
    ensures CS.Rule(h + told) == Gives(log, k, s)
  {
    if !Reaches(log, k, s) {
      assert h + told == h;
    } else {
      var e := CS.Answered(log[k].response.status);
      AnswerGives(log, k, next, s, h, e);
      if ClosesSet(log, k, s) {
        ClosingGives(log, k, next, s, h, told);
      } else {
        OnlyAnswerGives(log, k, next, s, CS.Rule(h + [e]));
      }
    }
  }

  lemma ClosingGives(log: seq<Shot>, k: nat, next: nat, s: nat, h: seq<CS.Event>, told: seq<CS.Event>)
    requires next == k + 1 && next <= |log| && ClosesSet(log, k, s) && |told| == 2
    requires told[1].Noted? && NotesFirstBook(told[1].note, log, k)
    requires CS.Rule(h + [told[0]]) == if |Uncleared404s(log, next, s)| >= 3 then Some(CS.MarketNotFound) else None
    requires Streaks(log, next, s, h + told)
    ensures CS.Rule(h + told) == Gives(log, k, s)
  {
    assert h + told == h + [told[0]] + [told[1]];
    NoteGives(log, k, next, s, h + [told[0]], told[1]);
  }

  lemma OnlyAnswerGives(log: seq<Shot>, k: nat, next: nat, s: nat, rule: Option<CS.Reason>)
    requires next == k + 1 && Reaches(log, k, s) && !ClosesSet(log, k, s)
    requires rule == if |Uncleared404s(log, next, s)| >= 3 then Some(CS.MarketNotFound) else None
    ensures rule == Gives(log, k, s)
  {
  }

  lemma NoteGives(log: seq<Shot>, k: nat, next: nat, s: nat, one: seq<CS.Event>, e: CS.Event)
    requires next == k + 1 && next <= |log| && ClosesSet(log, k, s) && e.Noted? && NotesFirstBook(e.note, log, k)
    requires CS.Rule(one) == if |Uncleared404s(log, next, s)| >= 3 then Some(CS.MarketNotFound) else None
    requires Streaks(log, next, s, one + [e])
    ensures CS.Rule(one + [e]) == Gives(log, k, s)
  {
    SecondEvent(one, e);
  }

  lemma AnswerGives(log: seq<Shot>, k: nat, next: nat, s: nat, h: seq<CS.Event>, e: CS.Event)
    requires next == k + 1 && next <= |log| && Streaks(log, k, s, h) && Reaches(log, k, s) && CS.Rule(h) == None
    requires e == CS.Answered(log[k].response.status)
    ensures CS.Rule(h + [e]) == if |Uncleared404s(log, next, s)| >= 3 then Some(CS.MarketNotFound) else None
  {
    AnswerStreaks(log, k, next, s, h, e);
    OneEventMore(h, e);
  }

  /** The first request that gives market s a reason, and that reason. */
  ghost predicate FirstReason(log: seq<Shot>, s: nat, k: nat, why: CS.Reason) {
    k < |log| && Gives(log, k, s) == Some(why) && forall j: nat :: j < k ==> Gives(log, j, s) == None
  }

  lemma {:induction false} NoReasonYet(log: seq<Shot>, s: nat, n: nat)
    requires AskedOnce(log) && n <= |log| && forall j: nat :: j < n ==> Gives(log, j, s) == None
    ensures RuleAfter(log, s, n) == None
  {
    if n > 0 {
      NoReasonYet(log, s, n - 1);
      RuleGives(log, n - 1, n, s);
    }
  }

  lemma {:induction false} SomeReason(log: seq<Shot>, s: nat, n: nat) returns (k: nat, why: CS.Reason)
    requires AskedOnce(log) && n <= |log| && RuleAfter(log, s, n).Some?
    ensures k < n && FirstReason(log, s, k, why)
  {
    if RuleAfter(log, s, n - 1).Some? {
      k, why := SomeReason(log, s, n - 1);
    } else {
      k := n - 1;
      RuleGives(log, k, n, s);
      why := RuleAfter(log, s, n).value;
      forall j: nat | j < k
        ensures Gives(log, j, s) == None
      {
        if RuleAfter(log, s, j + 1).Some? {
          RuleAfterSticks(log, s, j + 1, k);
        }
        if RuleAfter(log, s, j).Some? {
          RuleAfterSticks(log, s, j, k);
        }
        RuleGives(log, j, j + 1, s);
      }
    }
  }

  /** A run's retirements, off its log: a market is retired exactly when some request
      gives a reason, at the first one that does, for that reason. */
  lemma RetiredAtFirstReason(r: Run, s: nat, c: nat, n: nat, m: nat)
    requires m > 0 && OnPlan(r.log, c, n, m) && RowAsTold(r.log, r.retired, s)
    ensures s !in r.retired <==> forall k: nat :: k < |r.log| ==> Gives(r.log, k, s) == None
    ensures forall k: nat, why :: FirstReason(r.log, s, k, why) ==>
      s in r.retired && r.retired[s] == k + 1 && CS.Rule(HistoryOf(r.log, s)) == Some(why)
  {
    PlanAsksOnce(r.log, c, n, m);
    RetiredIffReason(r, s);
    forall k: nat, why | FirstReason(r.log, s, k, why)
      ensures s in r.retired && r.retired[s] == k + 1 && CS.Rule(HistoryOf(r.log, s)) == Some(why)
    {
      FirstReasonRetires(r, s, k, why);
    }
  }

  lemma RetiredIffReason(r: Run, s: nat)
    requires AskedOnce(r.log) && RowAsTold(r.log, r.retired, s)
    ensures s !in r.retired <==> forall k: nat :: k < |r.log| ==> Gives(r.log, k, s) == None
  {
    assert r.log[..|r.log|] == r.log;
    if s in r.retired {
      var k, why := SomeReason(r.log, s, |r.log|);
    } else {
      forall k: nat | k < |r.log|
        ensures Gives(r.log, k, s) == None
      {
        NoneWhileUnretired(r.log, s, k);
      }
    }
  }

  lemma FirstReasonRetires(r: Run, s: nat, k: nat, why: CS.Reason)
    requires AskedOnce(r.log) && RowAsTold(r.log, r.retired, s) && FirstReason(r.log, s, k, why)
    ensures s in r.retired && r.retired[s] == k + 1 && CS.Rule(HistoryOf(r.log, s)) == Some(why)
  {
    assert r.log[..|r.log|] == r.log;
    NoReasonYet(r.log, s, k);
    RuleGives(r.log, k, k + 1, s);
    RuleAfterSticks(r.log, s, k + 1, |r.log|);
    RetiredThen(r.log, s, k, k + 1, r.retired[s]);
  }

  lemma RetiredThen(log: seq<Shot>, s: nat, k: nat, next: nat, at: int)
    requires next == k + 1 && next <= |log| && RetiredAt(log, s, at)
    requires RuleAfter(log, s, k) == None && RuleAfter(log, s, next).Some?
    ensures at == next
  {
    StickyBefore(log, s, next, at);
    if at < next {
      RuleAfterSticks(log, s, at, k);
    }
  }

  lemma NoneWhileUnretired(log: seq<Shot>, s: nat, k: nat)
    requires AskedOnce(log) && k < |log| && CS.Rule(HistoryOf(log, s)) == None
    ensures Gives(log, k, s) == None
  {
    assert log[..|log|] == log;
    if RuleAfter(log, s, k).Some? {
      RuleAfterSticks(log, s, k, |log|);
    }
    RuleGives(log, k, k + 1, s);
    if RuleAfter(log, s, k + 1).Some? {
      RuleAfterSticks(log, s, k + 1, |log|);
    }
  }

  /** Which markets any run of run_segment has retired, at which request and why. */
  lemma RunRetires(subjects: seq<Subject>, r: Run, stop: Stop, t0: real, visited: nat, n: nat,
                   world: nat -> Response, s: nat)
    requires s < |subjects| && Ended(subjects, r, stop, t0, visited, n, world)
    ensures subjects[s].retired == None <==> forall k: nat :: k < |r.log| ==> Gives(r.log, k, s) == None
    ensures forall k: nat, why :: FirstReason(r.log, s, k, why) ==>
      subjects[s].retired == Some(why) && s in r.retired && r.retired[s] == k + 1
  {
    KnownRetires(subjects, r, visited, n, |subjects|, s);
  }

  lemma KnownRetires(subjects: seq<Subject>, r: Run, c: nat, n: nat, m: nat, s: nat)
    requires s < |subjects| && m > 0 && OnPlan(r.log, c, n, m) && AllKnow(subjects, r)
    ensures subjects[s].retired == None <==> forall k: nat :: k < |r.log| ==> Gives(r.log, k, s) == None
    ensures forall k: nat, why :: FirstReason(r.log, s, k, why) ==>
      subjects[s].retired == Some(why) && s in r.retired && r.retired[s] == k + 1
  {
    KnownIsTold(subjects, r);
    assert RowAsTold(r.log, r.retired, s);
    RetiredAtFirstReason(r, s, c, n, m);
  }

  /** What stopped it. */
  lemma RunStops(subjects: seq<Subject>, r: Run, stop: Stop, t0: real, visited: nat, n: nat, world: nat -> Response)
    requires Ended(subjects, r, stop, t0, visited, n, world)
    ensures stop == IdentityFailure <==> r.log != [] && r.log[|r.log| - 1].response.identityOk == Some(false)
    ensures stop == RateLimit <==> |Having(With429(r.log), |r.log|)| == 5
    ensures forall k: nat :: k < |r.log| ==> r.log[k].response == world(k)
  {
    StopsOf(r, world, stop == IdentityFailure, stop == RateLimit);
  }

  lemma StopsOf(r: Run, world: nat -> Response, misidentified: bool, limited: bool)
    requires Answered(r, world)
    requires (misidentified <==> LastMisidentified(r)) && (limited <==> r.n429 == MAX_429_BEFORE_STOP)
    ensures misidentified <==> r.log != [] && r.log[|r.log| - 1].response.identityOk == Some(false)
    ensures limited <==> |Having(With429(r.log), |r.log|)| == 5
    ensures forall k: nat :: k < |r.log| ==> r.log[k].response == world(k)
  {
    assert r.log[..|r.log|] == r.log;
    ThrottledIs(r.log, |r.log|);
  }
}
