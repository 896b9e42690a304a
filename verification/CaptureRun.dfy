// The loop of run_segment over the planned slots
// (research/run85_phase2_capture.py, lines 451-554). The venue is an arbitrary
// stream of responses: the k-th request of the run receives world(k).
module CaptureRun {
  import opened Wrappers
  import opened CaptureGrid
  import opened Capture
  import opened CaptureHistory
  import CS = CaptureSubject

  datatype Stop = PlanExhausted | SegmentDeadline | IdentityFailure | RateLimit | AllSubjectsRetired

  /** The market knows its own history, and is retired exactly as the rule has it. */
  ghost predicate Knows(subj: Subject, s: nat, r: Run)
    reads subj
  {
    && subj.Valid() && subj.history == HistoryOf(r.log, s) && subj.retired == CS.Rule(subj.history)
    && RowAsTold(r.log, r.retired, s)
  }

  // ---- one request --------------------------------------------------------

  lemma LegNames(leg: Leg)
    requires leg in LEGS
    ensures leg.horizon == 0 && leg.route == Book <==> leg == FIRST_LEG
    ensures leg.horizon == 60 && leg.route == Bbo <==> leg == LAST_LEG
  {
    var k := LegIndex(leg);
  }

  /** Sleep until the slot has come and the rate floor is past. */
  method AwaitSlot(clock: real, lastStart: Option<real>, t0: real, slot: nat) returns (start: real)
    ensures forall r: Run :: r.clock == clock && r.lastStart == lastStart ==> start == FireAt(r, t0, slot)
  {
    var floor := if lastStart.Some? then lastStart.value + SPACING_S else clock;
    var fireAt := Max(t0 + GridTime(slot), floor);
    start := if fireAt > clock then fireAt else clock;
  }

  /** What the answer leaves in the log, the anchors and the set's legs. */
  method NoteAnswer(r: Run, t0: real, slot: nat, e: Entry, subject: nat, response: Response, start: real)
    returns (shot: Shot, anchors: map<int, real>, legs: map<Leg, Response>)
    requires e.leg in LEGS && start == FireAt(r, t0, slot)
    ensures shot == ShotOf(r, t0, slot, e, subject, response)
    ensures anchors == AnchorsWith(r.anchors, e, start) && legs == Observed(r.open, e, response)
  {
    anchors := r.anchors;
    LegNames(e.leg);
    if e.leg.horizon == 0 && e.leg.route == Book {
      anchors := anchors[e.set_ := start];
    }
    var horizon := if e.set_ in anchors then Some(start - anchors[e.set_]) else None;
    shot := Shot(slot, e, subject, start, horizon, response);
    legs := (if e.set_ in r.open then r.open[e.set_] else map[])[e.leg := response];
  }

  /** Read, record, and sit out a 429. */
  method Request(r: Run, t0: real, slot: nat, e: Entry, subject: nat, response: Response) returns (q: Run)
    requires e.leg in LEGS
    ensures q == Shoot(r, t0, slot, e, subject, response)
  {
    var start := AwaitSlot(r.clock, r.lastStart, t0, slot);
    var shot, anchors, legs := NoteAnswer(r, t0, slot, e, subject, response, start);
    var clock, lastStart, n429 := start + response.latency, start, r.n429;
    if response.status == Some(429) {
      n429 := n429 + 1;
      clock := clock + response.retryAfter;
      lastStart := clock;
    }
    q := Run(clock, Some(lastStart), r.log + [shot], r.open[e.set_ := legs], anchors, r.done, n429, r.retired);
  }

  ghost predicate RetiredNow(subj: Subject, q: Run, s: nat)
    reads subj
  {
    if subj.retired == None then s !in q.retired else s in q.retired && q.retired[s] == |q.log|
  }

  ghost predicate MaybeRetired(r: Run, q: Run, s: nat) {
    q == r || (s !in r.retired && q == RetireSubject(r, s))
  }

  /** The last status reaches the market: enough 404s retire it. */
  method TellStatus(subj: Subject, r: Run, s: nat) returns (q: Run)
    requires r.log != [] && s !in r.retired && subj.Valid() && subj.retired == None == CS.Rule(subj.history)
    modifies subj
    ensures subj.Valid() && subj.history == old(subj.history) + [CS.Answered(r.log[|r.log| - 1].response.status)]
    ensures subj.retired == CS.Rule(subj.history) && (subj.retired == None || subj.retired == Some(CS.MarketNotFound))
    ensures MaybeRetired(r, q, s) && RetiredNow(subj, q, s)
    ensures q.log == r.log && q.n429 == r.n429 && q.open == r.open
  {
    q := r;
    CS.UnretiredIsBelow(subj.history);
    ghost var before := subj.history;
    var status := r.log[|r.log| - 1].response.status;
    var gone := subj.SeeStatus(status);
    assert subj.history[..|before|] == before;
    CS.CountGrowsAt404(CS.StatusesIn(before), status);
    if gone {
      subj.Retire(CS.MarketNotFound);
      q := RetireSubject(q, s);
    }
  }

  /** A set closes: the market notes it, and is retired where the rule says so. */
  method CloseSet(subj: Subject, r: Run, i: nat, s: nat) returns (q: Run)
    requires i in r.open && subj.Valid() && subj.retired == CS.Rule(subj.history) && RetiredNow(subj, r, s)
    modifies subj
    ensures subj.Valid() && subj.history == old(subj.history) + [CS.Noted(NoteOf(r.open[i]))]
    ensures subj.retired == CS.Rule(subj.history)
    ensures MaybeRetired(Close(r, i, s), q, s) && RetiredNow(subj, q, s)
    ensures q.log == r.log && q.n429 == r.n429
  {
    ghost var before := subj.history;
    if CS.Rule(before) == None {
      CS.UnretiredIsBelow(before);
    }
    var note := NoteOf(r.open[i]);
    q := Close(r, i, s);
    var why := subj.NoteSet(note.state, note.postable);
    assert subj.history[..|before|] == before;
    if why.Some? && subj.retired == None {
      subj.Retire(why.value);
      q := RetireSubject(q, s);
    }
  }

  // ---- the run ------------------------------------------------------------

  /** Slots the run visits: up to the last leg of the last set. */
  function Slots(n: nat): nat {
    if n == 0 then 0 else (n - 1) * SET_PERIOD_SLOTS + SET_SPAN_SLOTS
  }

  ghost predicate AllKnow(subjects: seq<Subject>, r: Run)
    reads subjects
  {
    forall s :: 0 <= s < |subjects| ==> Knows(subjects[s], s, r)
  }

  ghost predicate MaybeClosed(r: Run, q: Run, e: Entry, s: nat) {
    q == r || (e.leg == LAST_LEG && e.set_ in r.open && MaybeRetired(Close(r, e.set_, s), q, s))
  }

  /** What a request and its consequences make of the run: the shot, perhaps the
      market's retirement, perhaps the set's closing, perhaps retirement after that. */
  ghost predicate Served(r: Run, told: Run, q: Run, t0: real, slot: nat, e: Entry, s: nat, response: Response) {
    MaybeRetired(Shoot(r, t0, slot, e, s, response), told, s) && MaybeClosed(told, q, e, s)
  }

  lemma MaybeClosedKeeps(r: Run, q: Run, t0: real, c: nat, next: nat, n: nat, m: nat, e: Entry, s: nat)
    requires next == c + 1 && SlotOf(e, SET_PERIOD_SLOTS) == c
    requires m > 0 && Inv(r, t0, next, n, m) && MaybeClosed(r, q, e, s) && r.log != [] && s == e.set_ % m
    requires e.leg == LAST_LEG ==> e.set_ in r.open && Complete(Record(e.set_, s, r.open[e.set_]))
    ensures Inv(q, t0, next, n, m)
  {
    if q != r {
      CloseKeeps(r, t0, c, next, n, m, e.set_, s);
      ClosedKeeps(Close(r, e.set_, s), q, t0, next, n, m, s);
    }
  }

  lemma ClosedKeeps(closed: Run, q: Run, t0: real, next: nat, n: nat, m: nat, s: nat)
    requires m > 0 && Inv(closed, t0, next, n, m) && MaybeRetired(closed, q, s) && closed.log != []
    ensures Inv(q, t0, next, n, m)
  {
    MaybeRetiredKeeps(closed, q, t0, next, n, m, s);
  }

  lemma TellingKeeps(r: Run, told: Run, t0: real, c: nat, next: nat, n: nat, m: nat, e: Entry, s: nat,
                     response: Response)
    requires next == c + 1 && m > 0 && s == e.set_ % m && Inv(r, t0, c, n, m)
    requires InPlan(e, n) && SlotOf(e, SET_PERIOD_SLOTS) == c && s !in r.retired
    requires MaybeRetired(Shoot(r, t0, c, e, s, response), told, s)
    ensures Inv(told, t0, next, n, m)
  {
    ShootKeeps(r, t0, c, next, n, m, e, s, response);
    MaybeRetiredKeeps(Shoot(r, t0, c, e, s, response), told, t0, next, n, m, s);
  }

  lemma MaybeRetiredKeeps(r: Run, q: Run, t0: real, c: nat, n: nat, m: nat, s: nat)
    requires m > 0 && Inv(r, t0, c, n, m) && MaybeRetired(r, q, s) && r.log != []
    ensures Inv(q, t0, c, n, m)
  {
    if s !in r.retired {
      RetireKeeps(r, t0, c, n, m, s);
    }
  }

  lemma ServedKeeps(r: Run, told: Run, q: Run, t0: real, c: nat, next: nat, n: nat, m: nat, e: Entry, s: nat,
                    response: Response)
    requires next == c + 1 && m > 0 && s == e.set_ % m && Inv(r, t0, c, n, m)
    requires InPlan(e, n) && SlotOf(e, SET_PERIOD_SLOTS) == c && s !in r.retired
    requires Served(r, told, q, t0, c, e, s, response)
    ensures Inv(q, t0, next, n, m)
  {
    TellingKeeps(r, told, t0, c, next, n, m, e, s, response);
    ToldSeesAll(r, told, t0, c, n, m, e, s, response);
    MaybeClosedKeeps(told, q, t0, c, next, n, m, e, s);
  }

  lemma ToldSeesAll(r: Run, told: Run, t0: real, c: nat, n: nat, m: nat, e: Entry, s: nat, response: Response)
    requires m > 0 && s == e.set_ % m && SetsInv(r.log, r.open, r.done, r.retired, c, n, m)
    requires InPlan(e, n) && SlotOf(e, SET_PERIOD_SLOTS) == c && s !in r.retired
    requires MaybeRetired(Shoot(r, t0, c, e, s, response), told, s)
    ensures told.log != []
    ensures e.leg == LAST_LEG ==> e.set_ in told.open && Complete(Record(e.set_, s, told.open[e.set_]))
  {
    if e.leg == LAST_LEG {
      AllSeenAtLast(r, Shoot(r, t0, c, e, s, response), t0, c, n, m, e, s, response);
    }
  }

  lemma AllSeenAtLast(r: Run, asked: Run, t0: real, c: nat, n: nat, m: nat, e: Entry, s: nat, response: Response)
    requires m > 0 && s == e.set_ % m && SetsInv(r.log, r.open, r.done, r.retired, c, n, m)
    requires asked == Shoot(r, t0, c, e, s, response)
    requires InPlan(e, n) && SlotOf(e, SET_PERIOD_SLOTS) == c && s !in r.retired && e.leg == LAST_LEG
    ensures e.set_ in asked.open && Complete(Record(e.set_, s, asked.open[e.set_]))
  {
    ShootSets(r, t0, c, c + 1, n, m, e, s, response);
    NotDoneYet(r.done, c, e, n);
    LastLegMeansAll(asked, c, n, m, e.set_);
  }

  // ---- what a served slot tells -------------------------------------------

  ghost predicate OnlySChanges(r: Run, q: Run, s: nat) {
    forall j :: j != s ==> (j in q.retired <==> j in r.retired) && (j in r.retired ==> q.retired[j] == r.retired[j])
  }

  /** Nothing a market is told concerns another. */
  lemma OtherKnows(r: Run, q: Run, shot: Shot, s: nat, j: nat)
    requires j != s && shot.subject == s && q.log == r.log + [shot] && RowAsTold(r.log, r.retired, j)
    requires OnlySChanges(r, q, s)
    ensures HistoryOf(q.log, j) == HistoryOf(r.log, j) && RowAsTold(q.log, q.retired, j)
  {
    HistoryExtends(r.log, shot, j);
    assert j in q.retired <==> j in r.retired;
    if j in r.retired {
      RetiredAtExtends(r.log, shot, j, r.retired[j]);
    }
  }

  lemma ServedChangesOne(r: Run, told: Run, q: Run, t0: real, slot: nat, e: Entry, s: nat, response: Response)
    requires Served(r, told, q, t0, slot, e, s, response)
    ensures q.log == r.log + [ShotOf(r, t0, slot, e, s, response)] && OnlySChanges(r, q, s)
  {
  }

  /** The market served knows what it was told; so do the others, who were told nothing. */
  lemma AllStillKnow(subjects: seq<Subject>, r: Run, told: Run, q: Run, t0: real, slot: nat, e: Entry, s: nat,
                     response: Response)
    requires s < |subjects| && Knows(subjects[s], s, q)
    requires forall j :: 0 <= j < |subjects| && j != s ==> Knows(subjects[j], j, r)
    requires Served(r, told, q, t0, slot, e, s, response)
    ensures AllKnow(subjects, q)
  {
    ServedChangesOne(r, told, q, t0, slot, e, s, response);
    forall j | 0 <= j < |subjects|
      ensures Knows(subjects[j], j, q)
    {
      if j != s {
        assert Knows(subjects[j], j, r);
        OtherKnows(r, q, ShotOf(r, t0, slot, e, s, response), s, j);
      }
    }
  }

  /** The market served: its history is what the log now says, and if the rule has
      just fired the table says so with this request. */
  lemma ServedKnows(subj: Subject, r: Run, q: Run, shot: Shot, s: nat)
    requires subj.Valid() && shot.subject == s && q.log == r.log + [shot]
    requires CS.Rule(HistoryOf(r.log, s)) == None && s !in r.retired
    requires subj.history == HistoryOf(r.log, s) + Told(q.log) && subj.retired == CS.Rule(subj.history)
    requires RetiredNow(subj, q, s)
    ensures Knows(subj, s, q)
  {
    HistoryExtends(r.log, shot, s);
    if subj.retired.Some? {
      RetiredByLast(r.log, shot, s);
    }
  }

  predicate Distinct(subjects: seq<Subject>) {
    forall i, j :: 0 <= i < j < |subjects| ==> subjects[i] != subjects[j]
  }

  predicate AllRetired(subjects: seq<Subject>)
    reads subjects
  {
    forall s :: 0 <= s < |subjects| ==> subjects[s].retired.Some?
  }

  /** What an answer tells its market, seen from the run it has just been recorded in. */
  function Heard(asked: Run, e: Entry, response: Response): seq<CS.Event>
    requires e.set_ in asked.open
  {
    if Misidentified(response) then []
    else if e.leg == LAST_LEG && !(Throttles(response) && asked.n429 >= MAX_429_BEFORE_STOP) then
      [CS.Answered(response.status), CS.Noted(NoteOf(asked.open[e.set_]))]
    else [CS.Answered(response.status)]
  }

  lemma HeardIsTold(asked: Run, e: Entry, response: Response)
    requires asked.log != [] && asked.n429 == Throttled(asked.log) && e.set_ in asked.open
    requires asked.log[|asked.log| - 1].entry == e && asked.log[|asked.log| - 1].response == response
    requires LegsAsRead(asked.log, e.set_, asked.open[e.set_])
    ensures Told(asked.log) == Heard(asked, e, response)
  {
    NoteIsSetNote(asked.log, e.set_, asked.open[e.set_]);
  }

  /** The answer reaches its market: status, then the set it may complete. */
  method Hear(subj: Subject, asked: Run, e: Entry, s: nat, response: Response)
    returns (q: Run, stop: Option<Stop>, ghost told: Run)
    requires asked.log != [] && asked.log[|asked.log| - 1].response == response
    requires e.leg in LEGS && e.set_ in asked.open && s !in asked.retired
    requires subj.Valid() && subj.retired == None == CS.Rule(subj.history)
    modifies subj
    ensures MaybeRetired(asked, told, s) && MaybeClosed(told, q, e, s) && q.log == asked.log && q.n429 == asked.n429
    ensures subj.Valid() && subj.history == old(subj.history) + Heard(asked, e, response)
    ensures subj.retired == CS.Rule(subj.history) && RetiredNow(subj, q, s)
    ensures stop == if Misidentified(response) then Some(IdentityFailure)
                    else if Throttles(response) && q.n429 >= MAX_429_BEFORE_STOP then Some(RateLimit) else None
  {
    q, told, stop := asked, asked, None;
    if Misidentified(response) {
      return q, Some(IdentityFailure), told;
    }
    q := TellStatus(subj, q, s);
    told := q;
    if Throttles(response) && q.n429 >= MAX_429_BEFORE_STOP {
      return q, Some(RateLimit), told;
    }
    LegNames(e.leg);
    if e.leg.horizon == 60 && e.leg.route == Bbo {
      q := CloseSet(subj, q, e.set_, s);
    }
  }

  /** One planned slot, as far as its own market goes. */
  method ServeOne(subj: Subject, r: Run, slot: nat, e: Entry, s: nat, response: Response, t0: real)
    returns (q: Run, stop: Option<Stop>, ghost told: Run)
    requires Knows(subj, s, r) && subj.retired == None && r.n429 == Throttled(r.log) && e.leg in LEGS
    requires var asked := Shoot(r, t0, slot, e, s, response); LegsAsRead(asked.log, e.set_, asked.open[e.set_])
    modifies subj
    ensures Served(r, told, q, t0, slot, e, s, response) && Knows(subj, s, q)
    ensures stop == if Misidentified(response) then Some(IdentityFailure)
                    else if Throttles(response) && q.n429 >= MAX_429_BEFORE_STOP then Some(RateLimit) else None
  {
    ghost var shot := ShotOf(r, t0, slot, e, s, response);
    HistoryExtends(r.log, shot, s);
    var asked := Request(r, t0, slot, e, s, response);
    HeardIsTold(asked, e, response);
    q, stop, told := Hear(subj, asked, e, s, response);
    ServedKnows(subj, r, q, shot, s);
  }

  /** One planned slot of a market still being read. */
  method Serve(subjects: seq<Subject>, r: Run, slot: nat, e: Entry, response: Response, t0: real)
    returns (q: Run, stop: Option<Stop>, ghost told: Run)
    requires subjects != [] && Distinct(subjects) && AllKnow(subjects, r) && r.n429 == Throttled(r.log)
    requires e.leg in LEGS && subjects[e.set_ % |subjects|].retired == None
    requires var asked := Shoot(r, t0, slot, e, e.set_ % |subjects|, response);
      LegsAsRead(asked.log, e.set_, asked.open[e.set_])
    modifies subjects[e.set_ % |subjects|]
    ensures Served(r, told, q, t0, slot, e, e.set_ % |subjects|, response) && AllKnow(subjects, q)
    ensures stop == Some(IdentityFailure) <==> Misidentified(response)
    ensures stop == Some(RateLimit) <==> Throttles(response) && q.n429 >= MAX_429_BEFORE_STOP
    ensures stop != Some(IdentityFailure) && stop != Some(RateLimit) ==>
      (stop == Some(AllSubjectsRetired) <==> AllRetired(subjects))
    ensures stop != Some(PlanExhausted) && stop != Some(SegmentDeadline)
  {
    var s := e.set_ % |subjects|;
    assert Knows(subjects[s], s, r);
    q, stop, told := ServeOne(subjects[s], r, slot, e, s, response, t0);
    AllStillKnow(subjects, r, told, q, t0, slot, e, s, response);
    if stop == None && forall k :: 0 <= k < |subjects| ==> subjects[k].retired.Some? {
      stop := Some(AllSubjectsRetired);
    }
  }

  // ---- the loop -----------------------------------------------------------

  /** The run has asked the venue exactly what the world answered, in order, and
      counted its 429s; no answer but the last named another market. */
  ghost predicate Answered(r: Run, world: nat -> Response) {
    && (forall k :: 0 <= k < |r.log| ==> r.log[k].response == world(k))
    && r.n429 == Throttled(r.log)
    && (forall k :: 0 <= k < |r.log| - 1 ==> !Misidentified(r.log[k].response))
  }

  ghost predicate LastMisidentified(r: Run) {
    r.log != [] && Misidentified(r.log[|r.log| - 1].response)
  }

  lemma ServedAnswers(r: Run, told: Run, q: Run, t0: real, slot: nat, e: Entry, s: nat, response: Response,
                      world: nat -> Response)
    requires Answered(r, world) && !LastMisidentified(r) && response == world(|r.log|)
    requires Served(r, told, q, t0, slot, e, s, response)
    ensures Answered(q, world) && (LastMisidentified(q) <==> Misidentified(response))
    ensures q.n429 == r.n429 + if Throttles(response) then 1 else 0
  {
    var shot := ShotOf(r, t0, slot, e, s, response);
    HistoryExtends(r.log, shot, s);
    assert q.log == r.log + [shot];
  }

  /** max(grid) + 1, or 0 for an empty grid. */
  ghost predicate IsEnd(grid: map<nat, Entry>, end: nat) {
    (forall slot :: slot in grid ==> slot < end) && (end > 0 ==> end - 1 in grid)
  }

  /** The run visits every slot up to the plan's last. */
  lemma GridEnds(grid: map<nat, Entry>, n: nat)
    requires Holds(grid, n, SET_PERIOD_SLOTS)
    ensures IsEnd(grid, Slots(n))
  {
    forall slot | slot in grid
      ensures slot < Slots(n)
    {
      var k := LegIndex(grid[slot].leg);
    }
    if n > 0 {
      assert LEGS[9] == LAST_LEG;
      assert InPlan(Entry(n - 1, LAST_LEG), n);
    }
  }

  lemma SlotHolds(grid: map<nat, Entry>, n: nat, slot: nat, r: Run, m: nat)
    requires m > 0 && Holds(grid, n, SET_PERIOD_SLOTS)
    requires slot in grid ==> grid[slot].set_ % m in r.retired
    ensures forall e :: InPlan(e, n) && SlotOf(e, SET_PERIOD_SLOTS) == slot ==> e.set_ % m in r.retired
  {
  }

  /** Between slots: everything recorded is right and nothing has stopped the run. */
  ghost predicate Running(subjects: seq<Subject>, r: Run, t0: real, c: nat, n: nat, world: nat -> Response)
    reads subjects
  {
    && subjects != [] && Inv(r, t0, c, n, |subjects|) && Answered(r, world) && AllKnow(subjects, r)
    && !LastMisidentified(r) && r.n429 < MAX_429_BEFORE_STOP && !AllRetired(subjects)
  }

  /** How a run can end, and what is then known. The deadline is not among the ways. */
  ghost predicate Ended(subjects: seq<Subject>, r: Run, stop: Stop, t0: real, visited: nat, n: nat,
                        world: nat -> Response)
    reads subjects
  {
    && subjects != [] && Inv(r, t0, visited, n, |subjects|) && Answered(r, world)
    && (stop == IdentityFailure <==> LastMisidentified(r))
    && (stop == RateLimit <==> r.n429 == MAX_429_BEFORE_STOP)
    && r.n429 <= MAX_429_BEFORE_STOP
    && (stop != IdentityFailure && stop != RateLimit ==> (stop == AllSubjectsRetired <==> AllRetired(subjects)))
    && (stop == PlanExhausted ==> visited == Slots(n))
    && stop != SegmentDeadline && AllKnow(subjects, r)
  }

  /** The table of retirements of a run is what its answers say: see the theorems of
      CaptureHistory. */
  lemma KnownIsTold(subjects: seq<Subject>, r: Run)
    requires AllKnow(subjects, r)
    ensures RetiredAsTold(r.log, r.retired, |subjects|)
    ensures forall s :: 0 <= s < |subjects| ==> subjects[s].retired == CS.Rule(HistoryOf(r.log, s))
  {
    forall s: nat | s < |subjects|
      ensures RowAsTold(r.log, r.retired, s)
    {
      assert Knows(subjects[s], s, r);
    }
  }

  lemma NothingYet(subjects: seq<Subject>, t0: real, n: nat, world: nat -> Response)
    requires subjects != []
    requires forall s :: 0 <= s < |subjects| ==> subjects[s].Valid() && subjects[s].retired == None
    requires forall s :: 0 <= s < |subjects| ==> subjects[s].history == []
    ensures Running(subjects, Run(t0, None, [], map[], map[], [], 0, map[]), t0, 0, n, world)
  {
    assert subjects[0].retired == None;
  }

  method Turn(subjects: seq<Subject>, r: Run, t0: real, slot: nat, ghost next: nat, e: Entry, world: nat -> Response,
              ghost n: nat)
    returns (q: Run, halted: Option<Stop>)
    requires Running(subjects, r, t0, slot, n, world) && Distinct(subjects)
    requires next == slot + 1 && InPlan(e, n) && SlotOf(e, SET_PERIOD_SLOTS) == slot
    requires subjects[e.set_ % |subjects|].retired == None
    modifies subjects[e.set_ % |subjects|]
    ensures halted == None ==> Running(subjects, q, t0, next, n, world)
    ensures halted.Some? ==> Ended(subjects, q, halted.value, t0, next, n, world)
  {
    var s := e.set_ % |subjects|;
    var response := world(|r.log|);
    assert Knows(subjects[s], s, r);
    ShootKeeps(r, t0, slot, next, n, |subjects|, e, s, response);
    ghost var told;
    q, halted, told := Serve(subjects, r, slot, e, response, t0);
    ServedKeeps(r, told, q, t0, slot, next, n, |subjects|, e, s, response);
    ServedAnswers(r, told, q, t0, slot, e, s, response, world);
  }

  /** A slot no market is read in: idle by plan, or its market has retired. */
  lemma SlotPasses(subjects: seq<Subject>, r: Run, t0: real, slot: nat, n: nat, world: nat -> Response, grid: map<nat,
                   Entry>)
    requires Running(subjects, r, t0, slot, n, world) && Holds(grid, n, SET_PERIOD_SLOTS)
    requires slot in grid ==> subjects[grid[slot].set_ % |subjects|].retired.Some?
    ensures Running(subjects, r, t0, slot + 1, n, world)
  {
    if slot in grid {
      assert Knows(subjects[grid[slot].set_ % |subjects|], grid[slot].set_ % |subjects|, r);
    }
    SlotHolds(grid, n, slot, r, |subjects|);
    IdleSlotKeeps(r, t0, slot, n, |subjects|);
  }

  lemma PlanDone(subjects: seq<Subject>, r: Run, t0: real, n: nat, world: nat -> Response)
    requires Running(subjects, r, t0, Slots(n), n, world)
    ensures Ended(subjects, r, PlanExhausted, t0, Slots(n), n, world)
  {
  }

  predicate PastDeadline(t0: real, slot: nat, duration: real) {
    t0 + GridTime(slot) > t0 + duration
  }

  lemma NeverPastDeadline(t0: real, slot: nat, duration: real, e: Entry)
    requires InPlan(e, SetsInWindow(duration)) && SlotOf(e, SET_PERIOD_SLOTS) == slot
    ensures !PastDeadline(t0, slot, duration)
  {
    DeadlineUnreachable(duration, slot, e);
  }

  /** One slot: idle, past the deadline, or read. */
  method Visit(subjects: seq<Subject>, r: Run, t0: real, slot: nat, ghost next: nat, grid: map<nat, Entry>,
               duration: real, world: nat -> Response, ghost n: nat)
    returns (q: Run, halted: Option<Stop>)
    requires Running(subjects, r, t0, slot, n, world) && Distinct(subjects)
    requires next == slot + 1 && n == SetsInWindow(duration) && Holds(grid, n, SET_PERIOD_SLOTS)
    modifies subjects
    ensures halted == None ==> Running(subjects, q, t0, next, n, world)
    ensures halted.Some? ==> Ended(subjects, q, halted.value, t0, next, n, world)
  {
    if slot !in grid || subjects[grid[slot].set_ % |subjects|].retired.Some? {
      SlotPasses(subjects, r, t0, slot, n, world, grid);
      return r, None;
    }
    var e := grid[slot];
    NeverPastDeadline(t0, slot, duration, e);
    if PastDeadline(t0, slot, duration) {
      return r, Some(SegmentDeadline);
    }
    q, halted := Turn(subjects, r, t0, slot, next, e, world, n);
  }

  /** The plan, and one past its last slot. */
  method Plan(n: nat) returns (grid: map<nat, Entry>, end: nat)
    ensures Holds(grid, n, SET_PERIOD_SLOTS) && |grid| == 10 * n
    ensures IsEnd(grid, end) && end == Slots(n)
  {
    PeriodFourteenIsFree(n);
    var plan := PlanGrid(n, SET_PERIOD_SLOTS);
    grid, end := plan.grid, Slots(n);
    GridEnds(grid, n);
  }

  /** run_segment: whatever the venue answers and however slowly, the run's records
      satisfy Inv and it ends in one of the ways above. */
  method RunSegment(subjects: seq<Subject>, duration: real, t0: real, world: nat -> Response)
    returns (r: Run, stop: Stop, ghost visited: nat)
    requires subjects != [] && Distinct(subjects)
    requires forall s :: 0 <= s < |subjects| ==> subjects[s].Valid() && subjects[s].retired == None
    requires forall s :: 0 <= s < |subjects| ==> subjects[s].history == []
    modifies subjects
    ensures Ended(subjects, r, stop, t0, visited, SetsInWindow(duration), world)
  {
    var n := SetsInWindow(duration);
    var grid, end := Plan(n);
    r := Run(t0, None, [], map[], map[], [], 0, map[]);
    NothingYet(subjects, t0, n, world);
    var slot := 0;
    while slot < end
      invariant slot <= end && Running(subjects, r, t0, slot, n, world)
    {
      var next := slot + 1;
      var halted;
      r, halted := Visit(subjects, r, t0, slot, next, grid, duration, world, n);
      if halted.Some? {
        return r, halted.value, next;
      }
      slot := next;
    }
    PlanDone(subjects, r, t0, n, world);
    return r, PlanExhausted, slot;
  }
}
