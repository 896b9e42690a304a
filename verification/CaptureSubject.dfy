// One market of the capture and its retirement rules
// (research/run85_phase2_capture.py, lines 165-172, 419-448 and 519-526).
module CaptureSubject {
  import opened Wrappers

  datatype VenueState = Open | Terminal | OtherState

  datatype Reason = VenueTerminalState | SustainedNonOpenState | SustainedNoTwoSidedBook | MarketNotFound

  const NOT_FOUND_STREAK: nat := 3
  const NON_OPEN_STREAK: nat := 40
  const NO_BOOK_STREAK: nat := 40

  /** What one completed set tells the subject. */
  datatype Note = Note(state: VenueState, postable: bool)

  /** How many of the latest notes in a row were not open. */
  function NonOpenRun(notes: seq<Note>): nat {
    if notes == [] || notes[|notes| - 1].state.Open? then 0 else 1 + NonOpenRun(notes[..|notes| - 1])
  }

  /** How many of the latest notes in a row had no two-sided book. */
  function NoBookRun(notes: seq<Note>): nat {
    if notes == [] || notes[|notes| - 1].postable then 0 else 1 + NoBookRun(notes[..|notes| - 1])
  }

  lemma {:induction false} NonOpenRunMeaning(notes: seq<Note>, k: nat)
    ensures NonOpenRun(notes) >= k <==> k <= |notes| && forall i :: |notes| - k <= i < |notes| ==> !notes[i].state.Open?
  {
    if k > 0 && notes != [] && !notes[|notes| - 1].state.Open? {
      NonOpenRunMeaning(notes[..|notes| - 1], k - 1);
    }
  }

  lemma {:induction false} NoBookRunMeaning(notes: seq<Note>, k: nat)
    ensures NoBookRun(notes) >= k <==> k <= |notes| && forall i :: |notes| - k <= i < |notes| ==> !notes[i].postable
  {
    if k > 0 && notes != [] && !notes[|notes| - 1].postable {
      NoBookRunMeaning(notes[..|notes| - 1], k - 1);
    }
  }

  /** The frozen rule, read off the notes: a terminal state at once, otherwise forty
      sets in a row not open, otherwise forty in a row without a two-sided book. */
  function Verdict(notes: seq<Note>): Option<Reason>
    requires notes != []
  {
    if notes[|notes| - 1].state.Terminal? then Some(VenueTerminalState)
    else if NonOpenRun(notes) >= NON_OPEN_STREAK then Some(SustainedNonOpenState)
    else if NoBookRun(notes) >= NO_BOOK_STREAK then Some(SustainedNoTwoSidedBook)
    else None
  }

  /** No earlier note retired the subject. */
  ghost predicate StillNoting(notes: seq<Note>) {
    forall i :: 0 < i <= |notes| ==> Verdict(notes[..i]).None?
  }

  type Status = Option<int>

  /** 404s since the last 200: other statuses in between neither count nor reset. */
  function NotFoundCount(statuses: seq<Status>): nat {
    if statuses == [] then 0
    else
      var last, before := statuses[|statuses| - 1], statuses[..|statuses| - 1];
      if last == Some(404) then NotFoundCount(before) + 1
      else if last == Some(200) then 0
      else NotFoundCount(before)
  }

  /** Only a 404 raises the count. */
  lemma CountGrowsAt404(statuses: seq<Status>, status: Status)
    ensures NotFoundCount(statuses + [status]) > NotFoundCount(statuses) <==> status == Some(404)
  {
    assert (statuses + [status])[..|statuses|] == statuses;
  }

  /** 404s in a row, as the retirement table words it. */
  function ConsecutiveNotFound(statuses: seq<Status>): nat {
    if statuses == [] || statuses[|statuses| - 1] != Some(404) then 0
    else 1 + ConsecutiveNotFound(statuses[..|statuses| - 1])
  }

  /** A 404 before the trailing run that no 200 has cleared since. */
  ghost predicate StaleNotFound(statuses: seq<Status>, i: nat) {
    var end := |statuses| - ConsecutiveNotFound(statuses);
    i < end <= |statuses| && statuses[i] == Some(404) && forall j :: i < j < end ==> statuses[j] != Some(200)
  }

  /** The count is the run of 404s exactly when every 404 before the run has been
      cleared by a 200 since. */
  lemma CountIsRunIff(statuses: seq<Status>)
    ensures ConsecutiveNotFound(statuses) <= NotFoundCount(statuses)
    ensures NotFoundCount(statuses) == ConsecutiveNotFound(statuses) <==> forall i: nat :: !StaleNotFound(statuses, i)
  {
    RunIsBounded(statuses);
    var end := |statuses| - ConsecutiveNotFound(statuses);
    var before := statuses[..end];
    CountIsRunPlusEarlier(statuses);
    CountIsZeroIff(before);
    forall i: nat
      ensures StaleNotFound(statuses, i) <==> Uncleared(before, i)
    {
    }
    if i: nat :| StaleNotFound(statuses, i) {
      assert Uncleared(before, i);
    }
  }

  ghost predicate Uncleared(statuses: seq<Status>, i: nat) {
    i < |statuses| && statuses[i] == Some(404) && forall j :: i < j < |statuses| ==> statuses[j] != Some(200)
  }

  /** Nothing is counted exactly when every 404 has been cleared. */
  lemma {:induction false} CountIsZeroIff(statuses: seq<Status>)
    ensures NotFoundCount(statuses) == 0 <==> forall i: nat :: !Uncleared(statuses, i)
  {
    if statuses != [] {
      var n := |statuses| - 1;
      var last, before := statuses[n], statuses[..n];
      if last == Some(404) {
        assert Uncleared(statuses, n);
      } else if last != Some(200) {
        CountIsZeroIff(before);
        forall i: nat
          ensures Uncleared(statuses, i) <==> Uncleared(before, i)
        {
        }
        if i: nat :| Uncleared(before, i) {
          assert Uncleared(statuses, i);
        }
      }
    }
  }

  lemma {:induction false} RunIsBounded(statuses: seq<Status>)
    ensures ConsecutiveNotFound(statuses) <= |statuses|
  {
    if statuses != [] {
      RunIsBounded(statuses[..|statuses| - 1]);
    }
  }

  lemma {:induction false} CountIsRunPlusEarlier(statuses: seq<Status>)
    ensures ConsecutiveNotFound(statuses) <= |statuses|
    ensures NotFoundCount(statuses)
         == ConsecutiveNotFound(statuses) + NotFoundCount(statuses[..|statuses| - ConsecutiveNotFound(statuses)])
  {
    var n := |statuses|;
    if n > 0 && statuses[n - 1] == Some(404) {
      var before := statuses[..n - 1];
      CountIsRunPlusEarlier(before);
      var c := ConsecutiveNotFound(before);
      assert before[..n - 1 - c] == statuses[..n - 1 - c];
    } else {
      assert statuses[..n] == statuses;
    }
  }

  /** Three 404s that never follow one another count as three. */
  lemma NotFoundNeedNotBeConsecutive()
    ensures var s := [Some(404), Some(500), Some(404), None, Some(404)];
      NotFoundCount(s) == NOT_FOUND_STREAK && ConsecutiveNotFound(s) == 1
  {
    var s: seq<Status> := [Some(404), Some(500), Some(404), None, Some(404)];
    assert s[..4] == [Some(404), Some(500), Some(404), None];
    assert s[..4][..3] == [Some(404), Some(500), Some(404)];
    assert s[..4][..3][..2] == [Some(404), Some(500)];
    assert s[..4][..3][..2][..1] == [Some(404)];
    assert [Some(404)][..0] == [];
    assert NotFoundCount(s[..4][..3][..2][..1]) == 1;
    assert NotFoundCount(s[..4][..3]) == 2;
    assert NotFoundCount(s[..4]) == 2;
  }

  // ---- the rule over a market's whole history -----------------------------

  /** What can happen to a market: a request is answered, or a set of it completes. */
  datatype Event = Answered(status: Status) | Noted(note: Note)

  function StatusesIn(h: seq<Event>): seq<Status> {
    if h == [] then []
    else
      var before, last := StatusesIn(h[..|h| - 1]), h[|h| - 1];
      if last.Answered? then before + [last.status] else before
  }

  function NotesIn(h: seq<Event>): (notes: seq<Note>)
    ensures h != [] && h[|h| - 1].Noted? ==> notes != []
  {
    if h == [] then []
    else
      var before, last := NotesIn(h[..|h| - 1]), h[|h| - 1];
      if last.Noted? then before + [last.note] else before
  }

  /** What the last event of a history says, were the market not retired before it. */
  function Says(h: seq<Event>): Option<Reason>
    requires h != []
  {
    match h[|h| - 1]
    case Answered(_) => if NotFoundCount(StatusesIn(h)) >= NOT_FOUND_STREAK then Some(MarketNotFound) else None
    case Noted(_) => Verdict(NotesIn(h))
  }

  /** The retirement rule: the first event that says so retires the market, for good. */
  function Rule(h: seq<Event>): Option<Reason> {
    if h == [] then None
    else if Rule(h[..|h| - 1]).Some? then Rule(h[..|h| - 1])
    else Says(h)
  }

  /** What the k-th event says. */
  function SaysAt(h: seq<Event>, k: nat): Option<Reason> {
    if 0 < k <= |h| then Says(h[..k]) else None
  }

  ghost predicate SilentBefore(h: seq<Event>, k: nat) {
    forall j: nat :: j < k ==> SaysAt(h, j) == None
  }

  lemma SilencePrefix(h: seq<Event>, n: nat, k: nat)
    requires k <= n <= |h|
    ensures SaysAt(h[..n], k) == SaysAt(h, k)
  {
    assert h[..n][..k] == h[..k];
  }

  /** Until the rule retires a market no event says so. */
  lemma {:induction false} SilentWhileUnretired(h: seq<Event>)
    requires Rule(h) == None
    ensures SilentBefore(h, |h| + 1)
  {
    if h != [] {
      var n := |h| - 1;
      SilentWhileUnretired(h[..n]);
      forall j: nat | j < |h| + 1
        ensures SaysAt(h, j) == None
      {
        if j <= n {
          SilencePrefix(h, n, j);
        } else {
          assert h[..|h|] == h;
        }
      }
    }
  }

  /** The rule retires a market at the first event that says so and for that event's
      reason: it has retired none exactly when no event has said so. */
  lemma {:induction false} RuleIsFirstSaying(h: seq<Event>) returns (k: nat)
    requires Rule(h).Some?
    ensures 0 < k <= |h| && SaysAt(h, k) == Rule(h) && SilentBefore(h, k)
  {
    var n := |h| - 1;
    if Rule(h[..n]).Some? {
      k := RuleIsFirstSaying(h[..n]);
      forall j: nat | j <= k
        ensures SaysAt(h, j) == SaysAt(h[..n], j)
      {
        SilencePrefix(h, n, j);
      }
    } else {
      k := |h|;
      SilentWhileUnretired(h[..n]);
      assert h[..|h|] == h;
      forall j: nat | j < k
        ensures SaysAt(h, j) == SaysAt(h[..n], j)
      {
        SilencePrefix(h, n, j);
      }
    }
  }

  /** A market the rule has not retired is below every limit. */
  lemma {:induction false} UnretiredIsBelow(h: seq<Event>)
    requires Rule(h) == None
    ensures NotFoundCount(StatusesIn(h)) < NOT_FOUND_STREAK && StillNoting(NotesIn(h))
  {
    if h != [] {
      var n := |h| - 1;
      UnretiredIsBelow(h[..n]);
      if h[n].Noted? {
        NotingGoesOn(NotesIn(h[..n]), h[n].note);
      }
    }
  }

  /** The event that retires a market finds each streak at exactly its limit. */
  lemma StreaksFireExactly(h: seq<Event>)
    requires h != [] && Rule(h[..|h| - 1]) == None && Rule(h).Some?
    ensures match Rule(h).value
      case MarketNotFound =>
        NotFoundCount(StatusesIn(h)) == NOT_FOUND_STREAK && h[|h| - 1] == Answered(Some(404))
      case VenueTerminalState => h[|h| - 1].Noted? && h[|h| - 1].note.state.Terminal?
      case SustainedNonOpenState => h[|h| - 1].Noted? && NonOpenRun(NotesIn(h)) == NON_OPEN_STREAK
      case SustainedNoTwoSidedBook => h[|h| - 1].Noted? && NoBookRun(NotesIn(h)) == NO_BOOK_STREAK
  {
    var before := h[..|h| - 1];
    UnretiredIsBelow(before);
    match h[|h| - 1]
    case Answered(status) => NextStatus(StatusesIn(before), status);
    case Noted(note) => NextNote(NotesIn(before), note);
  }

  lemma NextStatus(before: seq<Status>, status: Status)
    requires NotFoundCount(before) < NOT_FOUND_STREAK <= NotFoundCount(before + [status])
    ensures NotFoundCount(before + [status]) == NOT_FOUND_STREAK && status == Some(404)
  {
    assert (before + [status])[..|before|] == before;
  }

  lemma NextNote(before: seq<Note>, note: Note)
    requires StillNoting(before)
    ensures match Verdict(before + [note])
      case Some(VenueTerminalState) => note.state.Terminal?
      case Some(SustainedNonOpenState) => NonOpenRun(before + [note]) == NON_OPEN_STREAK
      case Some(SustainedNoTwoSidedBook) => NoBookRun(before + [note]) == NO_BOOK_STREAK
      case Some(MarketNotFound) => false
      case None => true
  {
    assert (before + [note])[..|before|] == before;
    SilentNotesAreShort(before);
  }

  lemma SilentNotesAreShort(notes: seq<Note>)
    requires StillNoting(notes)
    ensures NonOpenRun(notes) < NON_OPEN_STREAK && NoBookRun(notes) < NO_BOOK_STREAK
  {
    assert notes[..|notes|] == notes;
    if notes != [] {
      assert Verdict(notes[..|notes|]) == None;
    }
  }

  /** A market retired as not found was retired on three 404s in a row exactly when
      no earlier 404 was still counted. */
  lemma RetiredOnStaleIff(h: seq<Event>)
    requires h != [] && Rule(h[..|h| - 1]) == None && Rule(h) == Some(MarketNotFound)
    ensures var statuses := StatusesIn(h);
      ConsecutiveNotFound(statuses) < NOT_FOUND_STREAK <==> exists i: nat :: StaleNotFound(statuses, i)
  {
    StreaksFireExactly(h);
    CountIsRunIff(StatusesIn(h));
  }

  lemma {:induction false} RuleSticks(h: seq<Event>, more: seq<Event>)
    requires Rule(h).Some?
    ensures Rule(h + more) == Rule(h)
  {
    if more == [] {
      assert h + more == h;
    } else {
      RuleSticks(h, more[..|more| - 1]);
      assert (h + more)[..|h + more| - 1] == h + more[..|more| - 1];
    }
  }

  /** The rule over the first k events. */
  function RuleUpTo(h: seq<Event>, k: nat): Option<Reason> {
    if k <= |h| then Rule(h[..k]) else None
  }

  lemma RuleUpToSticks(h: seq<Event>, j: nat, k: nat)
    requires k == j + 1 && k <= |h| && RuleUpTo(h, j).Some?
    ensures RuleUpTo(h, k) == RuleUpTo(h, j)
  {
    assert h[..k][..j] == h[..j];
  }

  /** Something that sticks once it happens happens at one step. */
  lemma FirstTurn(f: nat -> Option<Reason>, lo: nat, hi: nat) returns (n: nat)
    requires lo <= hi && f(lo) == None && f(hi).Some?
    requires forall j :: lo <= j < hi && f(j).Some? ==> f(j + 1) == f(j)
    ensures lo < n <= hi && f(n - 1) == None && f(n) == f(hi)
  {
    n := hi;
    while f(n - 1).Some?
      invariant lo < n <= hi && f(n) == f(hi)
      decreases n
    {
      n := n - 1;
    }
  }

  /** The event at which the rule fires. */
  lemma TurningPoint(h: seq<Event>, lo: nat, hi: nat) returns (n: nat)
    requires lo <= hi <= |h| && RuleUpTo(h, lo) == None && RuleUpTo(h, hi).Some?
    ensures lo < n <= hi && RuleUpTo(h, n - 1) == None && RuleUpTo(h, n) == RuleUpTo(h, hi)
  {
    var f := (k: nat) => RuleUpTo(h, k);
    forall j | lo <= j < hi && f(j).Some?
      ensures f(j + 1) == f(j)
    {
      RuleUpToSticks(h, j, j + 1);
    }
    n := FirstTurn(f, lo, hi);
  }

  lemma TurningPrefix(h: seq<Event>, n: nat)
    requires 0 < n <= |h| && RuleUpTo(h, n - 1) == None
    ensures Rule(h[..n][..n - 1]) == None && Rule(h[..n]) == RuleUpTo(h, n)
  {
    assert h[..n][..n - 1] == h[..n - 1];
  }

  class Subject {
    var retired: Option<Reason>
    var notFound: nat
    var nonOpen: nat
    var noBook: nat
    var sets: nat
    ghost var history: seq<Event>

    constructor ()
      ensures Valid() && retired == None && history == []
    {
      retired, notFound, nonOpen, noBook, sets := None, 0, 0, 0, 0;
      history := [];
    }

    /** The streak fields are what the history says. */
    ghost predicate Valid()
      reads this
    {
      var notes := NotesIn(history);
      && sets == |notes| && notFound == NotFoundCount(StatusesIn(history))
      && (StillNoting(notes) ==> nonOpen == NonOpenRun(notes) && noBook == NoBookRun(notes))
    }

    method NoteSet(state: VenueState, postable: bool) returns (why: Option<Reason>)
      requires Valid()
      modifies this
      ensures Valid() && retired == old(retired)
      ensures history == old(history) + [Noted(Note(state, postable))]
      ensures StillNoting(NotesIn(old(history))) ==> why == Says(history)
    {
      ghost var before := NotesIn(history);
      history := history + [Noted(Note(state, postable))];
      assert history[..|history| - 1] == old(history);
      ghost var notes := NotesIn(history);
      assert notes[..|before|] == before;
      NotingGoesOn(before, Note(state, postable));
      sets := sets + 1;
      if state.Terminal? {
        return Some(VenueTerminalState);
      }
      if state.Open? {
        nonOpen := 0;
      } else {
        nonOpen := nonOpen + 1;
        if nonOpen >= NON_OPEN_STREAK {
          return Some(SustainedNonOpenState);
        }
      }
      if postable {
        noBook := 0;
      } else {
        noBook := noBook + 1;
        if noBook >= NO_BOOK_STREAK {
          return Some(SustainedNoTwoSidedBook);
        }
      }
      return None;
    }

    /** The status branches of the run loop; true when the market is now not found. */
    method SeeStatus(status: Status) returns (gone: bool)
      requires Valid()
      modifies this
      ensures Valid() && retired == old(retired)
      ensures history == old(history) + [Answered(status)]
      ensures gone <==> status == Some(404) && NotFoundCount(StatusesIn(history)) >= NOT_FOUND_STREAK
    {
      history := history + [Answered(status)];
      assert history[..|history| - 1] == old(history);
      ghost var statuses := StatusesIn(history);
      assert statuses[..|statuses| - 1] == StatusesIn(old(history));
      if status == Some(404) {
        notFound := notFound + 1;
        return notFound >= NOT_FOUND_STREAK;
      } else if status == Some(200) {
        notFound := 0;
      }
      return false;
    }

    method Retire(why: Reason)
      requires Valid() && retired == None
      modifies this`retired
      ensures Valid() && retired == Some(why)
    {
      retired := Some(why);
    }
  }

  lemma NotingGoesOn(before: seq<Note>, note: Note)
    ensures StillNoting(before + [note]) <==> StillNoting(before) && Verdict(before + [note]).None?
  {
    var after := before + [note];
    assert after[..|after|] == after;
    assert forall i :: 0 <= i <= |before| ==> after[..i] == before[..i];
  }
}
