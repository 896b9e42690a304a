// One segment of the exact-horizon capture (run_segment,
// research/run85_phase2_capture.py, lines 451-554). Time is an exact real that
// advances only while the runner sleeps or waits for a response.
module Capture {
  import opened Wrappers
  import opened CaptureGrid
  import CS = CaptureSubject

  type Subject = CS.Subject

  /** Everything a GET can come back with. Only a 200 carries a body, hence an identity. */
  datatype RawResponse = RawResponse(latency: real, status: CS.Status, identityOk: Option<bool>, retryAfter: real,
                                     state: CS.VenueState, twoSided: bool)

  type Response = r: RawResponse | r.latency >= 0.0 && r.retryAfter >= 0.0
      && (r.identityOk == Some(false) ==> r.status == Some(200))
    witness RawResponse(0.0, Some(200), None, 0.0, CS.Open, true)

  predicate Throttles(r: Response) {
    r.status == Some(429)
  }

  /** One request as the log and the derived observation record it. */
  datatype Shot = Shot(slot: nat, entry: Entry, subject: nat, start: real, horizon: Option<real>, response: Response)

  function Max(x: real, y: real): real {
    if x >= y then x else y
  }

  /** When the response has been dealt with: a 429's Retry-After is slept out first. */
  function After(s: Shot): real {
    s.start + s.response.latency + (if Throttles(s.response) then s.response.retryAfter else 0.0)
  }

  /** The instant the rate floor counts from: the start, or the end of a 429's wait. */
  function Anchor(s: Shot): real {
    if Throttles(s.response) then After(s) else s.start
  }

  datatype Record = Record(set_: nat, subject: nat, legs: map<Leg, Response>)

  /** The runner's local variables. `retired` maps a subject to the number of
      requests made when it was retired. */
  datatype Run = Run(clock: real, lastStart: Option<real>, log: seq<Shot>, open: map<int, map<Leg, Response>>,
                     anchors: map<int, real>, done: seq<Record>, n429: nat, retired: map<int, int>)

  const FIRST_LEG: Leg := Leg(0, Book, 0)
  const LAST_LEG: Leg := Leg(25, Bbo, 60)
  const MAX_429_BEFORE_STOP: nat := 5

  /** When the request of a slot fires, seen from the state before it. */
  function FireAt(r: Run, t0: real, slot: nat): real {
    var floor := match r.lastStart case Some(last) => last + SPACING_S case None => r.clock;
    Max(r.clock, Max(t0 + GridTime(slot), floor))
  }

  function AnchorsWith(anchors: map<int, real>, e: Entry, start: real): map<int, real> {
    if e.leg == FIRST_LEG then anchors[e.set_ := start] else anchors
  }

  /** The observation's actual horizon: the time since its set's first book read. */
  function HorizonOf(anchors: map<int, real>, e: Entry, start: real): Option<real> {
    var after := AnchorsWith(anchors, e, start);
    if e.set_ in after then Some(start - after[e.set_]) else None
  }

  /** The set's observations with one more. */
  function Observed(open: map<int, map<Leg, Response>>, e: Entry, response: Response): map<Leg, Response> {
    (if e.set_ in open then open[e.set_] else map[])[e.leg := response]
  }

  function ShotOf(r: Run, t0: real, slot: nat, e: Entry, subject: nat, response: Response): Shot {
    var start := FireAt(r, t0, slot);
    Shot(slot, e, subject, start, HorizonOf(r.anchors, e, start), response)
  }

  /** The request, its observation, and the wait a 429 imposes. */
  function Shoot(r: Run, t0: real, slot: nat, e: Entry, subject: nat, response: Response): Run {
    var shot := ShotOf(r, t0, slot, e, subject, response);
    Run(After(shot), Some(Anchor(shot)), r.log + [shot], r.open[e.set_ := Observed(r.open, e, response)],
        AnchorsWith(r.anchors, e, shot.start), r.done, r.n429 + (if Throttles(response) then 1 else 0), r.retired)
  }

  /** The set is handed to derive_set. */
  function Close(r: Run, i: nat, subject: nat): Run
    requires i in r.open
  {
    r.(done := r.done + [Record(i, subject, r.open[i])], open := r.open - {i}, anchors := r.anchors - {i})
  }

  function RetireSubject(r: Run, subject: nat): Run {
    r.(retired := r.retired[subject := |r.log|])
  }

  // ---- what every run keeps -----------------------------------------------

  /** Each request starts as early as its grid time, the rate floor and the clock allow. */
  ghost predicate Timed(log: seq<Shot>, t0: real) {
    forall k :: 0 <= k < |log| ==> OnTime(log, k, t0)
  }

  ghost predicate OnTime(log: seq<Shot>, k: nat, t0: real)
    requires k < |log|
  {
    var grid := t0 + GridTime(log[k].slot);
    if k == 0 then log[k].start == Max(t0, grid)
    else log[k].start == Max(After(log[k - 1]), Max(grid, Anchor(log[k - 1]) + SPACING_S))
  }

  /** The clock and the floor are what the last request left. */
  ghost predicate ClockOf(log: seq<Shot>, clock: real, lastStart: Option<real>, t0: real) {
    if log == [] then clock == t0 && lastStart == None
    else var last := log[|log| - 1]; clock == After(last) && lastStart == Some(Anchor(last))
  }

  /** Requests are made in slot order, each for the leg planned there. */
  ghost predicate OnPlan(log: seq<Shot>, c: nat, n: nat, m: nat)
    requires m > 0
  {
    && (forall k :: 0 <= k < |log| ==> Planned(log[k], c, n, m))
    && (forall j, k :: 0 <= j < k < |log| ==> log[j].slot < log[k].slot)
  }

  predicate Planned(s: Shot, c: nat, n: nat, m: nat)
    requires m > 0
  {
    s.slot < c && s.entry.set_ < n && s.entry.leg in LEGS && s.slot == SlotOf(s.entry, SET_PERIOD_SLOTS)
    && s.subject == s.entry.set_ % m
  }

  ghost predicate IsDone(done: seq<Record>, i: int) {
    exists k :: 0 <= k < |done| && done[k].set_ == i
  }

  /** A leg whose slot has passed was observed, unless its subject has retired. */
  ghost predicate NothingMissed(open: map<int, map<Leg, Response>>, done: seq<Record>, retired: map<int, int>, c: nat,
                                n: nat, m: nat)
    requires m > 0
  {
    forall e {:trigger InPlan(e, n)} :: InPlan(e, n) && SlotOf(e, SET_PERIOD_SLOTS) < c && e.set_ % m !in retired ==>
      IsDone(done, e.set_) || (e.set_ in open && e.leg in open[e.set_])
  }

  /** Completed sets carry all ten legs and close once, in increasing order. */
  ghost predicate DoneComplete(done: seq<Record>, c: nat) {
    && (forall k :: 0 <= k < |done| ==> Complete(done[k]) && done[k].set_ * SET_PERIOD_SLOTS + LAST_LEG.offset < c)
    && (forall j, k :: 0 <= j < k < |done| ==> done[j].set_ < done[k].set_)
  }

  ghost predicate Complete(rec: Record) {
    forall leg {:trigger leg in rec.legs} :: leg in LEGS <==> leg in rec.legs
  }

  ghost predicate HasRequest(log: seq<Shot>, i: int) {
    exists k :: 0 <= k < |log| && log[k].entry.set_ == i
  }

  /** Every set with a request is open or done, never both, and no other set is. */
  ghost predicate StartedSets(log: seq<Shot>, open: map<int, map<Leg, Response>>, done: seq<Record>) {
    && (forall i :: HasRequest(log, i) <==> i in open || IsDone(done, i))
    && (forall i :: i in open ==> !IsDone(done, i))
    && (forall i, leg :: i in open && leg in open[i] ==> leg in LEGS)
  }

  /** No request follows a subject's retirement. */
  ghost predicate RetiredSilent(log: seq<Shot>, retired: map<int, int>) {
    forall s :: s in retired ==> 0 < retired[s] <= |log| && forall k :: retired[s] <= k < |log| ==> log[k].subject != s
  }

  /** The first book read of set i started at t. */
  ghost predicate BeganAt(log: seq<Shot>, i: int, t: real) {
    exists j :: 0 <= j < |log| && log[j].entry.set_ == i && log[j].entry.leg == FIRST_LEG && log[j].start == t
  }

  /** Every observation's horizon is measured from its own set's first book read. */
  ghost predicate Anchored(log: seq<Shot>, open: map<int, map<Leg, Response>>, anchors: map<int, real>) {
    && HorizonsMeasured(log)
    && open.Keys == anchors.Keys
    && AnchorsBegan(log, anchors)
  }

  ghost predicate AnchorsBegan(log: seq<Shot>, anchors: map<int, real>) {
    forall i :: i in anchors ==> BeganAt(log, i, anchors[i])
  }

  ghost predicate HorizonsMeasured(log: seq<Shot>) {
    forall k :: 0 <= k < |log| ==> HorizonFromOrigin(log, log[k])
  }

  ghost predicate HorizonFromOrigin(log: seq<Shot>, s: Shot) {
    s.horizon.Some? && BeganAt(log, s.entry.set_, s.start - s.horizon.value)
  }

  /** The requests made so far, and the clock they left. */
  ghost predicate LogInv(log: seq<Shot>, clock: real, lastStart: Option<real>, retired: map<int, int>, t0: real,
                         c: nat, n: nat, m: nat)
    requires m > 0
  {
    Timed(log, t0) && ClockOf(log, clock, lastStart, t0) && OnPlan(log, c, n, m) && RetiredSilent(log, retired)
  }

  /** The sets those requests opened and closed. */
  ghost predicate SetsInv(log: seq<Shot>, open: map<int, map<Leg, Response>>, done: seq<Record>, retired: map<int,
                          int>, c: nat, n: nat, m: nat)
    requires m > 0
  {
    NothingMissed(open, done, retired, c, n, m) && DoneComplete(done, c) && StartedSets(log, open, done)
  }

  /** What the request for a leg of set i came back with, if it was made. */
  function LegRead(log: seq<Shot>, i: int, leg: Leg): Option<Response> {
    if log == [] then None
    else
      var last := log[|log| - 1];
      if last.entry.set_ == i && last.entry.leg == leg then Some(last.response) else LegRead(log[..|log| - 1], i, leg)
  }

  /** The observations of set i are the answers its requests came back with, all of them. */
  ghost predicate LegsAsRead(log: seq<Shot>, i: int, legs: map<Leg, Response>) {
    forall leg {:trigger LegRead(log, i, leg)} :: LegRead(log, i, leg) == if leg in legs then Some(legs[leg]) else None
  }

  ghost predicate OpenAsRead(log: seq<Shot>, open: map<int, map<Leg, Response>>) {
    forall i :: i in open ==> LegsAsRead(log, i, open[i])
  }

  ghost predicate DoneAsRead(log: seq<Shot>, done: seq<Record>, m: nat)
    requires m > 0
  {
    forall k :: 0 <= k < |done| ==> LegsAsRead(log, done[k].set_, done[k].legs) && done[k].subject == done[k].set_ % m
  }

  /** A leg whose slot has passed was requested, unless an earlier request had
      already retired its subject. */
  ghost predicate OnlyRetiredSkipped(log: seq<Shot>, retired: map<int, int>, c: nat, n: nat, m: nat)
    requires m > 0
  {
    forall e {:trigger InPlan(e, n)} :: InPlan(e, n) && SlotOf(e, SET_PERIOD_SLOTS) < c ==>
      LegRead(log, e.set_, e.leg).Some? || RetiredEarlier(log, retired, e.set_ % m, SlotOf(e, SET_PERIOD_SLOTS))
  }

  ghost predicate RetiredEarlier(log: seq<Shot>, retired: map<int, int>, s: nat, slot: nat) {
    s in retired && 0 < retired[s] <= |log| && log[retired[s] - 1].slot < slot
  }

  ghost predicate Answers(r: Run, c: nat, n: nat, m: nat)
    requires m > 0
  {
    && OpenAsRead(r.log, r.open) && DoneAsRead(r.log, r.done, m)
    && OnlyRetiredSkipped(r.log, r.retired, c, n, m)
  }

  ghost predicate Inv(r: Run, t0: real, c: nat, n: nat, m: nat)
    requires m > 0
  {
    && LogInv(r.log, r.clock, r.lastStart, r.retired, t0, c, n, m)
    && SetsInv(r.log, r.open, r.done, r.retired, c, n, m)
    && Anchored(r.log, r.open, r.anchors) && Answers(r, c, n, m)
  }

  // ---- steps --------------------------------------------------------------

  lemma IdleSlotKeeps(r: Run, t0: real, c: nat, n: nat, m: nat)
    requires m > 0 && Inv(r, t0, c, n, m)
    requires forall e :: InPlan(e, n) && SlotOf(e, SET_PERIOD_SLOTS) == c ==> e.set_ % m in r.retired
    ensures Inv(r, t0, c + 1, n, m)
  {
    LaterSlot(r.log, c, n, m);
    IdleSkips(r.log, r.retired, c, c + 1, n, m);
  }

  lemma IdleSkips(log: seq<Shot>, retired: map<int, int>, c: nat, next: nat, n: nat, m: nat)
    requires m > 0 && next == c + 1 && OnPlan(log, c, n, m) && OnlyRetiredSkipped(log, retired, c, n, m)
    requires forall e :: InPlan(e, n) && SlotOf(e, SET_PERIOD_SLOTS) == c ==> e.set_ % m in retired
    requires RetiredSilent(log, retired)
    ensures OnlyRetiredSkipped(log, retired, next, n, m)
  {
    forall e | InPlan(e, n) && SlotOf(e, SET_PERIOD_SLOTS) < next
      ensures LegRead(log, e.set_, e.leg).Some? || RetiredEarlier(log, retired, e.set_ % m, SlotOf(e, SET_PERIOD_SLOTS))
    {
      if SlotOf(e, SET_PERIOD_SLOTS) == c {
        assert Planned(log[retired[e.set_ % m] - 1], c, n, m);
      }
    }
  }

  lemma LaterSlot(log: seq<Shot>, c: nat, n: nat, m: nat)
    requires m > 0 && OnPlan(log, c, n, m)
    ensures OnPlan(log, c + 1, n, m)
  {
  }

  lemma TimedExtends(log: seq<Shot>, s: Shot, t0: real)
    requires Timed(log, t0) && OnTime(log + [s], |log|, t0)
    ensures Timed(log + [s], t0)
  {
    var q := log + [s];
    forall k | 0 <= k < |q|
      ensures OnTime(q, k, t0)
    {
      if k < |log| {
        assert OnTime(log, k, t0);
      }
    }
  }

  lemma OnPlanExtends(log: seq<Shot>, s: Shot, c: nat, n: nat, m: nat)
    requires m > 0 && OnPlan(log, c, n, m) && s.slot == c && Planned(s, c + 1, n, m)
    ensures OnPlan(log + [s], c + 1, n, m)
  {
    LaterSlot(log, c, n, m);
  }

  lemma BeganExtends(log: seq<Shot>, s: Shot, i: int, t: real)
    requires BeganAt(log, i, t)
    ensures BeganAt(log + [s], i, t)
  {
    var j :| 0 <= j < |log| && log[j].entry.set_ == i && log[j].entry.leg == FIRST_LEG && log[j].start == t;
    assert (log + [s])[j] == log[j];
  }

  lemma BeganNow(log: seq<Shot>, s: Shot)
    requires s.entry.leg == FIRST_LEG
    ensures BeganAt(log + [s], s.entry.set_, s.start)
  {
    assert (log + [s])[|log|] == s;
  }

  lemma HasRequestExtends(log: seq<Shot>, s: Shot, i: int)
    ensures HasRequest(log + [s], i) <==> HasRequest(log, i) || i == s.entry.set_
  {
    var q := log + [s];
    assert q[|log|] == s;
    if HasRequest(log, i) {
      var k :| 0 <= k < |log| && log[k].entry.set_ == i;
      assert q[k] == log[k];
    }
  }

  lemma SilentExtends(log: seq<Shot>, s: Shot, retired: map<int, int>)
    requires RetiredSilent(log, retired) && s.subject !in retired
    ensures RetiredSilent(log + [s], retired)
  {
  }

  /** A set whose leg's slot is still to come has not been closed. */
  lemma NotDoneYet(done: seq<Record>, c: nat, e: Entry, n: nat)
    requires DoneComplete(done, c) && InPlan(e, n) && SlotOf(e, SET_PERIOD_SLOTS) >= c
    ensures !IsDone(done, e.set_)
  {
    var k := LegIndex(e.leg);
  }

  lemma ObservedExtends(open: map<int, map<Leg, Response>>, done: seq<Record>, retired: map<int, int>, c: nat, n: nat,
                        m: nat,
                        e: Entry, response: Response)
    requires m > 0 && NothingMissed(open, done, retired, c, n, m)
    requires InPlan(e, n) && SlotOf(e, SET_PERIOD_SLOTS) == c
    ensures NothingMissed(open[e.set_ := Observed(open, e, response)], done, retired, c + 1, n, m)
  {
    forall f | InPlan(f, n) && SlotOf(f, SET_PERIOD_SLOTS) < c + 1 && f.set_ % m !in retired
      ensures IsDone(done, f.set_)
          || (f.set_ in open[e.set_ := Observed(open, e, response)]
              && f.leg in open[e.set_ := Observed(open, e, response)][f.set_])
    {
      if SlotOf(f, SET_PERIOD_SLOTS) == c {
        PeriodFourteenIsFree(n);
        assert f == e;
      }
    }
  }

  lemma StartedExtends(log: seq<Shot>, open: map<int, map<Leg, Response>>, done: seq<Record>, s: Shot)
    requires StartedSets(log, open, done) && !IsDone(done, s.entry.set_) && s.entry.leg in LEGS
    ensures StartedSets(log + [s], open[s.entry.set_ := Observed(open, s.entry, s.response)], done)
  {
    var q := open[s.entry.set_ := Observed(open, s.entry, s.response)];
    forall i
      ensures HasRequest(log + [s], i) <==> i in q || IsDone(done, i)
    {
      HasRequestExtends(log, s, i);
    }
  }

  /** The anchors after a request are where their sets began. */
  lemma AnchorsExtend(log: seq<Shot>, anchors: map<int, real>, s: Shot)
    requires AnchorsBegan(log, anchors)
    ensures AnchorsBegan(log + [s], AnchorsWith(anchors, s.entry, s.start))
  {
    var after := AnchorsWith(anchors, s.entry, s.start);
    forall i | i in after
      ensures BeganAt(log + [s], i, after[i])
    {
      if i == s.entry.set_ && s.entry.leg == FIRST_LEG {
        BeganNow(log, s);
      } else {
        BeganExtends(log, s, i, anchors[i]);
      }
    }
  }

  lemma HorizonsExtend(log: seq<Shot>, s: Shot)
    requires HorizonsMeasured(log) && HorizonFromOrigin(log + [s], s)
    ensures HorizonsMeasured(log + [s])
  {
    forall k | 0 <= k < |log|
      ensures HorizonFromOrigin(log + [s], log[k])
    {
      assert HorizonFromOrigin(log, log[k]);
      BeganExtends(log, s, log[k].entry.set_, log[k].start - log[k].horizon.value);
    }
  }

  lemma KeysExtend(open: map<int, map<Leg, Response>>, anchors: map<int, real>, s: Shot)
    requires open.Keys == anchors.Keys
    requires s.entry.leg == FIRST_LEG || s.entry.set_ in open
    ensures s.entry.set_ in AnchorsWith(anchors, s.entry, s.start)
    ensures open[s.entry.set_ := Observed(open, s.entry, s.response)].Keys
        == AnchorsWith(anchors, s.entry, s.start).Keys
  {
  }

  lemma HorizonHolds(log: seq<Shot>, anchors: map<int, real>, s: Shot)
    requires AnchorsBegan(log + [s], AnchorsWith(anchors, s.entry, s.start))
    requires s.entry.set_ in AnchorsWith(anchors, s.entry, s.start)
    requires s.horizon == HorizonOf(anchors, s.entry, s.start)
    ensures HorizonFromOrigin(log + [s], s)
  {
    var at := AnchorsWith(anchors, s.entry, s.start)[s.entry.set_];
    assert s.start - s.horizon.value == at;
  }

  lemma AnchoredExtends(log: seq<Shot>, open: map<int, map<Leg, Response>>, anchors: map<int, real>, s: Shot)
    requires Anchored(log, open, anchors)
    requires s.entry.leg == FIRST_LEG || s.entry.set_ in open
    requires s.horizon == HorizonOf(anchors, s.entry, s.start)
    ensures var after := open[s.entry.set_ := Observed(open, s.entry, s.response)];
      Anchored(log + [s], after, AnchorsWith(anchors, s.entry, s.start))
  {
    KeysExtend(open, anchors, s);
    AnchorsExtend(log, anchors, s);
    HorizonHolds(log, anchors, s);
    HorizonsExtend(log, s);
  }

  lemma ShootTimed(r: Run, t0: real, c: nat, e: Entry, subject: nat, response: Response)
    requires Timed(r.log, t0) && ClockOf(r.log, r.clock, r.lastStart, t0)
    ensures var q := Shoot(r, t0, c, e, subject, response);
      Timed(q.log, t0) && ClockOf(q.log, q.clock, q.lastStart, t0)
  {
    var s := ShotOf(r, t0, c, e, subject, response);
    assert OnTime(r.log + [s], |r.log|, t0);
    TimedExtends(r.log, s, t0);
  }

  lemma ShootLog(r: Run, t0: real, c: nat, next: nat, n: nat, m: nat, e: Entry, s: nat, response: Response)
    requires m > 0 && next == c + 1 && s == e.set_ % m && LogInv(r.log, r.clock, r.lastStart, r.retired, t0, c, n, m)
    requires InPlan(e, n) && SlotOf(e, SET_PERIOD_SLOTS) == c && s !in r.retired
    ensures var q := Shoot(r, t0, c, e, s, response);
      LogInv(q.log, q.clock, q.lastStart, q.retired, t0, next, n, m)
  {
    var shot := ShotOf(r, t0, c, e, s, response);
    ShootTimed(r, t0, c, e, s, response);
    assert Planned(shot, next, n, m);
    OnPlanExtends(r.log, shot, c, n, m);
    SilentExtends(r.log, shot, r.retired);
  }

  lemma ShootSets(r: Run, t0: real, c: nat, next: nat, n: nat, m: nat, e: Entry, s: nat, response: Response)
    requires m > 0 && next == c + 1 && s == e.set_ % m
    requires SetsInv(r.log, r.open, r.done, r.retired, c, n, m)
    requires InPlan(e, n) && SlotOf(e, SET_PERIOD_SLOTS) == c
    ensures var q := Shoot(r, t0, c, e, s, response);
      SetsInv(q.log, q.open, q.done, q.retired, next, n, m)
  {
    NotDoneYet(r.done, c, e, n);
    ObservedExtends(r.open, r.done, r.retired, c, n, m, e, response);
    StartedExtends(r.log, r.open, r.done, ShotOf(r, t0, c, e, s, response));
  }

  lemma LegReadExtends(log: seq<Shot>, s: Shot, i: int, leg: Leg)
    ensures LegRead(log + [s], i, leg)
         == if s.entry.set_ == i && s.entry.leg == leg then Some(s.response) else LegRead(log, i, leg)
  {
    assert (log + [s])[..|log|] == log;
  }

  lemma {:induction false} UnrequestedIsUnread(log: seq<Shot>, i: int, leg: Leg)
    requires !HasRequest(log, i)
    ensures LegRead(log, i, leg) == None
  {
    if log != [] {
      var n := |log| - 1;
      assert log[n].entry.set_ != i;
      assert forall k :: 0 <= k < n ==> log[..n][k] == log[k];
      UnrequestedIsUnread(log[..n], i, leg);
    }
  }

  lemma OthersAsRead(log: seq<Shot>, s: Shot, i: int, legs: map<Leg, Response>)
    requires LegsAsRead(log, i, legs) && i != s.entry.set_
    ensures LegsAsRead(log + [s], i, legs)
  {
    forall leg
      ensures LegRead(log + [s], i, leg) == if leg in legs then Some(legs[leg]) else None
    {
      LegReadExtends(log, s, i, leg);
      assert LegRead(log, i, leg) == if leg in legs then Some(legs[leg]) else None;
    }
  }

  lemma OneMoreAsRead(log: seq<Shot>, s: Shot, legs: map<Leg, Response>)
    requires LegsAsRead(log, s.entry.set_, legs)
    ensures LegsAsRead(log + [s], s.entry.set_, legs[s.entry.leg := s.response])
  {
    var i, after := s.entry.set_, legs[s.entry.leg := s.response];
    forall leg
      ensures LegRead(log + [s], i, leg) == if leg in after then Some(after[leg]) else None
    {
      LegReadExtends(log, s, i, leg);
      assert LegRead(log, i, leg) == if leg in legs then Some(legs[leg]) else None;
    }
  }

  lemma NothingAsRead(log: seq<Shot>, i: int)
    requires !HasRequest(log, i)
    ensures LegsAsRead(log, i, map[])
  {
    forall leg
      ensures LegRead(log, i, leg) == None
    {
      UnrequestedIsUnread(log, i, leg);
    }
  }

  lemma OpenAsReadExtends(log: seq<Shot>, open: map<int, map<Leg, Response>>, done: seq<Record>, s: Shot)
    requires OpenAsRead(log, open) && StartedSets(log, open, done) && !IsDone(done, s.entry.set_)
    ensures OpenAsRead(log + [s], open[s.entry.set_ := Observed(open, s.entry, s.response)])
  {
    var i0 := s.entry.set_;
    var q := open[i0 := Observed(open, s.entry, s.response)];
    if i0 !in open {
      NothingAsRead(log, i0);
    }
    OneMoreAsRead(log, s, if i0 in open then open[i0] else map[]);
    forall i | i in q && i != i0
      ensures LegsAsRead(log + [s], i, q[i])
    {
      OthersAsRead(log, s, i, open[i]);
    }
  }

  lemma DoneAsReadExtends(log: seq<Shot>, done: seq<Record>, s: Shot, m: nat)
    requires m > 0 && DoneAsRead(log, done, m) && !IsDone(done, s.entry.set_)
    ensures DoneAsRead(log + [s], done, m)
  {
    forall k | 0 <= k < |done|
      ensures LegsAsRead(log + [s], done[k].set_, done[k].legs)
    {
      OthersAsRead(log, s, done[k].set_, done[k].legs);
    }
  }

  lemma SkippedExtends(log: seq<Shot>, retired: map<int, int>, c: nat, next: nat, n: nat, m: nat, s: Shot)
    requires m > 0 && next == c + 1 && OnlyRetiredSkipped(log, retired, c, n, m)
    requires InPlan(s.entry, n) && SlotOf(s.entry, SET_PERIOD_SLOTS) == c
    ensures OnlyRetiredSkipped(log + [s], retired, next, n, m)
  {
    forall e | InPlan(e, n) && SlotOf(e, SET_PERIOD_SLOTS) < next
      ensures LegRead(log + [s], e.set_, e.leg).Some?
          || RetiredEarlier(log + [s], retired, e.set_ % m, SlotOf(e, SET_PERIOD_SLOTS))
    {
      LegReadExtends(log, s, e.set_, e.leg);
      if SlotOf(e, SET_PERIOD_SLOTS) == c {
        PeriodFourteenIsFree(n);
        assert e == s.entry;
      }
    }
  }

  lemma ShootAnswers(r: Run, t0: real, c: nat, next: nat, n: nat, m: nat, e: Entry, s: nat, response: Response)
    requires m > 0 && next == c + 1 && Answers(r, c, n, m) && StartedSets(r.log, r.open, r.done)
    requires DoneComplete(r.done, c)
    requires InPlan(e, n) && SlotOf(e, SET_PERIOD_SLOTS) == c
    ensures Answers(Shoot(r, t0, c, e, s, response), next, n, m)
  {
    var shot := ShotOf(r, t0, c, e, s, response);
    NotDoneYet(r.done, c, e, n);
    OpenAsReadExtends(r.log, r.open, r.done, shot);
    DoneAsReadExtends(r.log, r.done, shot, m);
    SkippedExtends(r.log, r.retired, c, next, n, m, shot);
  }

  lemma CloseAnswers(r: Run, c: nat, n: nat, m: nat, i: nat, subject: nat)
    requires m > 0 && Answers(r, c, n, m) && i in r.open && subject == i % m
    ensures Answers(Close(r, i, subject), c, n, m)
  {
    assert LegsAsRead(r.log, i, r.open[i]);
  }

  lemma RetireAnswers(r: Run, c: nat, n: nat, m: nat, s: nat)
    requires m > 0 && Answers(r, c, n, m) && s !in r.retired
    ensures Answers(RetireSubject(r, s), c, n, m)
  {
  }

  lemma ShootKeeps(r: Run, t0: real, c: nat, next: nat, n: nat, m: nat, e: Entry, s: nat, response: Response)
    requires m > 0 && next == c + 1 && s == e.set_ % m && Inv(r, t0, c, n, m)
    requires InPlan(e, n) && SlotOf(e, SET_PERIOD_SLOTS) == c && s !in r.retired
    ensures Inv(Shoot(r, t0, c, e, s, response), t0, next, n, m)
  {
    ShootLog(r, t0, c, next, n, m, e, s, response);
    ShootSets(r, t0, c, next, n, m, e, s, response);
    FirstLegCameFirst(r, c, n, m, e);
    ShootAnswers(r, t0, c, next, n, m, e, s, response);
    AnchoredExtends(r.log, r.open, r.anchors, ShotOf(r, t0, c, e, s, response));
  }

  /** Any other leg of a set in progress was preceded by its first book read. */
  lemma FirstLegCameFirst(r: Run, c: nat, n: nat, m: nat, e: Entry)
    requires m > 0 && SetsInv(r.log, r.open, r.done, r.retired, c, n, m)
    requires InPlan(e, n) && SlotOf(e, SET_PERIOD_SLOTS) == c && e.set_ % m !in r.retired
    ensures e.leg == FIRST_LEG || e.set_ in r.open
  {
    if e.leg != FIRST_LEG {
      var first := Entry(e.set_, FIRST_LEG);
      assert LEGS[0] == FIRST_LEG;
      var k := LegIndex(e.leg);
      NotDoneYet(r.done, c, e, n);
      assert InPlan(first, n) && SlotOf(first, SET_PERIOD_SLOTS) < c;
    }
  }

  lemma LegSeen(r: Run, c: nat, n: nat, m: nat, i: nat, leg: Leg)
    requires m > 0 && i < n && c == i * SET_PERIOD_SLOTS + LAST_LEG.offset && i % m !in r.retired
    requires NothingMissed(r.open, r.done, r.retired, c + 1, n, m) && !IsDone(r.done, i)
    requires leg in LEGS
    ensures i in r.open && leg in r.open[i]
  {
    var k := LegIndex(leg);
    var e := Entry(i, leg);
    assert InPlan(e, n) && SlotOf(e, SET_PERIOD_SLOTS) < c + 1;
  }

  /** When the last leg of a set has been observed, all ten have. */
  lemma LastLegMeansAll(r: Run, c: nat, n: nat, m: nat, i: nat)
    requires m > 0 && i < n && c == i * SET_PERIOD_SLOTS + LAST_LEG.offset && i % m !in r.retired
    requires NothingMissed(r.open, r.done, r.retired, c + 1, n, m) && !IsDone(r.done, i) && i in r.open
    requires forall leg :: leg in r.open[i] ==> leg in LEGS
    ensures Complete(Record(i, i % m, r.open[i]))
  {
    forall leg
      ensures leg in LEGS <==> leg in r.open[i]
    {
      if leg in LEGS {
        LegSeen(r, c, n, m, i, leg);
      }
    }
  }

  lemma IsDoneExtends(done: seq<Record>, rec: Record, j: int)
    ensures IsDone(done + [rec], j) <==> IsDone(done, j) || j == rec.set_
  {
    var q := done + [rec];
    assert q[|done|] == rec;
    if IsDone(done, j) {
      var k :| 0 <= k < |done| && done[k].set_ == j;
      assert q[k] == done[k];
    }
  }

  lemma DoneExtends(done: seq<Record>, rec: Record, c: nat)
    requires DoneComplete(done, c) && Complete(rec) && !IsDone(done, rec.set_)
    requires c == rec.set_ * SET_PERIOD_SLOTS + LAST_LEG.offset + 1
    ensures DoneComplete(done + [rec], c)
  {
    forall k | 0 <= k < |done|
      ensures done[k].set_ < rec.set_
    {
      assert done[k].set_ != rec.set_;
    }
  }

  lemma CloseKeeps(r: Run, t0: real, c: nat, next: nat, n: nat, m: nat, i: nat, subject: nat)
    requires m > 0 && c == i * SET_PERIOD_SLOTS + LAST_LEG.offset && next == c + 1
    requires Inv(r, t0, next, n, m) && i in r.open && Complete(Record(i, subject, r.open[i])) && subject == i % m
    ensures Inv(Close(r, i, subject), t0, next, n, m)
  {
    CloseAnswers(r, next, n, m, i, subject);
    CloseSets(r, c, next, n, m, i, subject);
    CloseAnchored(r, i, subject);
  }

  lemma CloseSets(r: Run, c: nat, next: nat, n: nat, m: nat, i: nat, subject: nat)
    requires m > 0 && next == c + 1 && c == i * SET_PERIOD_SLOTS + LAST_LEG.offset && i in r.open
    requires Complete(Record(i, subject, r.open[i]))
    requires SetsInv(r.log, r.open, r.done, r.retired, next, n, m)
    ensures var q := Close(r, i, subject); SetsInv(q.log, q.open, q.done, q.retired, next, n, m)
  {
    var rec := Record(i, subject, r.open[i]);
    DoneExtends(r.done, rec, next);
    CloseStarted(r.log, r.open, r.done, rec);
    CloseMissed(r.open, r.done, r.retired, next, n, m, rec);
  }

  lemma CloseAnchored(r: Run, i: nat, subject: nat)
    requires Anchored(r.log, r.open, r.anchors) && i in r.open
    ensures var q := Close(r, i, subject); Anchored(q.log, q.open, q.anchors)
  {
    var q := Close(r, i, subject);
    assert q.open.Keys == r.open.Keys - {i};
    assert q.anchors.Keys == r.anchors.Keys - {i};
  }

  lemma CloseStarted(log: seq<Shot>, open: map<int, map<Leg, Response>>, done: seq<Record>, rec: Record)
    requires StartedSets(log, open, done) && rec.set_ in open
    ensures StartedSets(log, open - {rec.set_}, done + [rec])
  {
    forall j: int
      ensures IsDone(done + [rec], j) <==> IsDone(done, j) || j == rec.set_
    {
      IsDoneExtends(done, rec, j);
    }
  }

  lemma CloseMissed(open: map<int, map<Leg, Response>>, done: seq<Record>, retired: map<int, int>, c: nat, n: nat,
                    m: nat, rec: Record)
    requires m > 0 && NothingMissed(open, done, retired, c, n, m)
    ensures NothingMissed(open - {rec.set_}, done + [rec], retired, c, n, m)
  {
    forall j: int
      ensures IsDone(done + [rec], j) <==> IsDone(done, j) || j == rec.set_
    {
      IsDoneExtends(done, rec, j);
    }
  }

  lemma RetireKeeps(r: Run, t0: real, c: nat, n: nat, m: nat, s: nat)
    requires m > 0 && Inv(r, t0, c, n, m) && s !in r.retired && r.log != []
    ensures Inv(RetireSubject(r, s), t0, c, n, m)
  {
    RetireAnswers(r, c, n, m, s);
  }

  // ---- what the log says about time ---------------------------------------

  /** How long after its grid time the k-th request started. */
  function Late(log: seq<Shot>, k: nat, t0: real): real
    requires k < |log|
  {
    log[k].start - (t0 + GridTime(log[k].slot))
  }

  /** How long a request keeps the next one waiting: the rate floor or its latency,
      and after a 429 the whole wait plus a fresh floor. */
  function Busy(s: Shot): real {
    if Throttles(s.response) then s.response.latency + s.response.retryAfter + SPACING_S
    else Max(s.response.latency, SPACING_S)
  }

  /** No request precedes its grid time, and any two starts are a spacing apart for
      each request from the one to the other. */
  lemma {:induction false} StartsSpaced(log: seq<Shot>, t0: real, j: nat, k: nat)
    requires Timed(log, t0) && j <= k < |log|
    ensures log[k].start >= t0 + GridTime(log[k].slot)
    ensures log[k].start - log[j].start >= (k - j) as real * SPACING_S
  {
    assert OnTime(log, k, t0);
    if j < k {
      StartsSpaced(log, t0, j, k - 1);
    }
  }

  /** Lateness follows a queue's recursion: what is left of the last request's
      lateness and occupation once the slots between have gone by. */
  lemma LatenessRecursion(log: seq<Shot>, t0: real, k: nat)
    requires Timed(log, t0) && 0 < k < |log|
    ensures Late(log, 0, t0) == 0.0
    ensures Late(log, k, t0)
        == Max(0.0, Late(log, k - 1, t0) + Busy(log[k - 1]) - SPACING_S * (log[k].slot - log[k - 1].slot) as real)
  {
    assert OnTime(log, 0, t0) && OnTime(log, k, t0);
  }

  /** Where the last answer came inside its slot, each idle slot wins a spacing back. */
  lemma IdleSlotsAbsorb(log: seq<Shot>, t0: real, k: nat)
    requires Timed(log, t0) && 0 < k < |log|
    requires !Throttles(log[k - 1].response) && log[k - 1].response.latency <= SPACING_S
    ensures Late(log, k, t0) == Max(0.0, Late(log, k - 1, t0) - (log[k].slot - log[k - 1].slot - 1) as real * SPACING_S)
  {
    LatenessRecursion(log, t0, k);
  }

  /** The request was over, with its floor, before the next one's slot came. */
  ghost predicate InItsSlots(log: seq<Shot>, k: nat)
    requires 0 < k < |log|
  {
    Busy(log[k - 1]) <= SPACING_S * (log[k].slot - log[k - 1].slot) as real
  }

  ghost predicate OnGrid(log: seq<Shot>, t0: real) {
    forall k :: 0 <= k < |log| ==> Late(log, k, t0) == 0.0
  }

  lemma {:induction false} PrefixOnGrid(log: seq<Shot>, t0: real, k: nat)
    requires Timed(log, t0) && k < |log|
    requires forall j :: 0 < j <= k ==> InItsSlots(log, j)
    ensures Late(log, k, t0) == 0.0
  {
    assert OnTime(log, 0, t0);
    if k > 0 {
      PrefixOnGrid(log, t0, k - 1);
      assert InItsSlots(log, k);
      LatenessRecursion(log, t0, k);
    }
  }

  /** Every request starts exactly at its grid time precisely when each one is over
      by the next one's slot. */
  lemma OnGridIff(log: seq<Shot>, t0: real)
    requires Timed(log, t0)
    ensures OnGrid(log, t0) <==> forall k :: 0 < k < |log| ==> InItsSlots(log, k)
  {
    if OnGrid(log, t0) {
      forall k | 0 < k < |log|
        ensures InItsSlots(log, k)
      {
        assert Late(log, k, t0) == 0.0 && Late(log, k - 1, t0) == 0.0;
        LatenessRecursion(log, t0, k);
      }
    } else {
      var k :| 0 <= k < |log| && Late(log, k, t0) != 0.0;
      if forall j :: 0 < j <= k ==> InItsSlots(log, j) {
        PrefixOnGrid(log, t0, k);
      }
    }
  }

  /** What a leg's horizon is on the grid: a bbo is read one spacing after its book. */
  function GridHorizon(leg: Leg): real {
    leg.horizon as real + if leg.route == Book then 0.0 else SPACING_S
  }

  /** In a run that kept to the grid, every book is read exactly 0, 5, 10, 30 or 60
      seconds after its set's first, and every bbo one spacing after its book. */
  lemma ExactHorizons(log: seq<Shot>, t0: real, c: nat, n: nat, m: nat, k: nat)
    requires m > 0 && OnPlan(log, c, n, m) && HorizonsMeasured(log) && OnGrid(log, t0) && k < |log|
    ensures log[k].horizon == Some(GridHorizon(log[k].entry.leg))
  {
    var s := log[k];
    assert HorizonFromOrigin(log, s);
    ExactHorizon(log, t0, c, n, m, s);
  }

  lemma ExactHorizon(log: seq<Shot>, t0: real, c: nat, n: nat, m: nat, s: Shot)
    requires m > 0 && OnPlan(log, c, n, m) && OnGrid(log, t0) && s in log && HorizonFromOrigin(log, s)
    ensures s.horizon == Some(GridHorizon(s.entry.leg))
  {
    var k :| 0 <= k < |log| && log[k] == s;
    var j := OriginOf(log, s);
    AtGridTime(log, t0, c, n, m, k);
    AtGridTime(log, t0, c, n, m, j);
    DistanceIsHorizon(s, log[j], t0);
  }

  predicate ReadOnGrid(s: Shot, t0: real) {
    s.entry.leg in LEGS && s.slot == SlotOf(s.entry, SET_PERIOD_SLOTS) && s.start == t0 + GridTime(s.slot)
  }

  lemma AtGridTime(log: seq<Shot>, t0: real, c: nat, n: nat, m: nat, k: nat)
    requires m > 0 && OnPlan(log, c, n, m) && OnGrid(log, t0) && k < |log|
    ensures ReadOnGrid(log[k], t0)
  {
    assert Late(log, k, t0) == 0.0 && Planned(log[k], c, n, m);
  }

  lemma OriginOf(log: seq<Shot>, s: Shot) returns (j: nat)
    requires HorizonFromOrigin(log, s)
    ensures j < |log| && log[j].entry == Entry(s.entry.set_, FIRST_LEG) && s.horizon == Some(s.start - log[j].start)
  {
    j :| 0 <= j < |log| && log[j].entry == Entry(s.entry.set_, FIRST_LEG) && log[j].start == s.start - s.horizon.value;
  }

  lemma DistanceIsHorizon(s: Shot, first: Shot, t0: real)
    requires ReadOnGrid(s, t0) && ReadOnGrid(first, t0) && first.entry == Entry(s.entry.set_, FIRST_LEG)
    ensures s.start - first.start == GridHorizon(s.entry.leg)
  {
    SlotDistance(s.entry, first.entry);
    var at := LegIndex(s.entry.leg);
    HorizonsOnGrid(at);
  }

  lemma SlotDistance(e: Entry, first: Entry)
    requires first == Entry(e.set_, FIRST_LEG)
    ensures GridTime(SlotOf(e, SET_PERIOD_SLOTS)) - GridTime(SlotOf(first, SET_PERIOD_SLOTS))
        == e.leg.offset as real * SPACING_S
  {
    assert SlotOf(e, SET_PERIOD_SLOTS) == SlotOf(first, SET_PERIOD_SLOTS) + e.leg.offset;
  }

  // ---- what the counts say ------------------------------------------------

  /** sets_started, as the runner reports it. */
  function SetsStarted(r: Run): nat {
    |r.done| + |r.open|
  }

  function DoneSets(done: seq<Record>): set<nat> {
    set k | 0 <= k < |done| :: done[k].set_
  }

  lemma {:induction false} DoneSetsCount(done: seq<Record>)
    requires forall j, k :: 0 <= j < k < |done| ==> done[j].set_ < done[k].set_
    ensures |DoneSets(done)| == |done|
  {
    if done != [] {
      var n := |done| - 1;
      DoneSetsCount(done[..n]);
      assert DoneSets(done) == DoneSets(done[..n]) + {done[n].set_};
    }
  }

  function RequestedSets(log: seq<Shot>): set<nat> {
    set k | 0 <= k < |log| :: log[k].entry.set_
  }

  /** sets_started is the number of sets for which any request was made. */
  lemma StartedIsRequested(r: Run, t0: real, c: nat, n: nat, m: nat)
    requires m > 0 && Inv(r, t0, c, n, m)
    ensures SetsStarted(r) == |RequestedSets(r.log)|
  {
    CountsAdd(r.log, r.open, r.done);
  }

  lemma CountsAdd(log: seq<Shot>, open: map<int, map<Leg, Response>>, done: seq<Record>)
    requires StartedSets(log, open, done)
    requires forall j, k :: 0 <= j < k < |done| ==> done[j].set_ < done[k].set_
    ensures |done| + |open| == |RequestedSets(log)|
  {
    DoneSetsCount(done);
    StartedSplit(log, open, done);
    assert |open.Keys| == |open|;
  }

  lemma StartedSplit(log: seq<Shot>, open: map<int, map<Leg, Response>>, done: seq<Record>)
    requires StartedSets(log, open, done)
    ensures RequestedSets(log) == DoneSets(done) + open.Keys && DoneSets(done) !! open.Keys
  {
    forall i: int
      ensures i in RequestedSets(log) <==> i in DoneSets(done) + open.Keys
      ensures i in open ==> i !in DoneSets(done)
    {
      assert HasRequest(log, i) <==> i in open || IsDone(done, i);
      assert i in RequestedSets(log) <==> HasRequest(log, i);
      assert i in DoneSets(done) <==> IsDone(done, i);
    }
  }
}
