/**
 * The sequential backfill coordinator: one plan at a time, in list order, past failures, and one
 * completion report. Code between awaits is one step; polls, settled stops, `stop` and aborts interleave.
 */
module Backfill {
  import opened Collections

  // ---- Completion of the active plan -------------------------------------------------------------------

  const PENDING_RECHECK_INTERVAL_MS := 30_000

  datatype JobStatus = JobRunning | JobCompleted | JobCancelled | JobFailed

  /** The job row; `endedAt` is `finished_at`, or `updated_at` when that is missing. */
  datatype Job = Job(status: JobStatus, endedAt: int)

  /** What the tracker remembers of the active plan. */
  datatype Clock = Clock(startedAt: int, lastPendingCheckAt: int)

  /** One poll of the active plan: its job row, the time, and what its pending predicate would say. */
  datatype Reading = Reading(job: Option<Job>, now: int, isPending: bool)

  datatype Poll = Failed | Finished | Busy

  /** A terminal row of this run; an older one belongs to an earlier run of the same job. */
  predicate Ended(c: Clock, r: Reading) {
    r.job.Some? && r.job.value.status in {JobCompleted, JobCancelled} && r.job.value.endedAt >= c.startedAt
  }

  /** Whether the poll asks the pending predicate. */
  predicate Asks(c: Clock, r: Reading) {
    && !(r.job.Some? && r.job.value.status == JobFailed)
    && !Ended(c, r) && r.now - c.lastPendingCheckAt >= PENDING_RECHECK_INTERVAL_MS
  }

  function PollOf(c: Clock, r: Reading): Poll {
    if r.job.Some? && r.job.value.status == JobFailed then Failed
    else if Ended(c, r) || (Asks(c, r) && !r.isPending) then Finished
    else Busy
  }

  function ClockAfter(c: Clock, readings: seq<Reading>): Clock
    decreases |readings|
  {
    if readings == [] then c
    else
      var before := ClockAfter(c, readings[..|readings| - 1]);
      var last := readings[|readings| - 1];
      if Asks(before, last) then before.(lastPendingCheckAt := last.now) else before
  }

  /** The time of the last question never goes back. */
  lemma {:induction false} ClockAdvances(c: Clock, readings: seq<Reading>, more: seq<Reading>)
    ensures var before, after := ClockAfter(c, readings), ClockAfter(c, readings + more);
            after.lastPendingCheckAt >= before.lastPendingCheckAt
    decreases |more|
  {
    if more == [] {
      assert readings + more == readings;
    } else {
      var front := more[..|more| - 1];
      assert (readings + more)[..|readings + more| - 1] == readings + front;
      ClockAdvances(c, readings, front);
    }
  }

  /** However often a plan is polled, its predicate is asked at most once in thirty seconds. */
  lemma QuestionsAreFarApart(c: Clock, readings: seq<Reading>, i: nat, j: nat)
    requires i < j < |readings|
    requires Asks(ClockAfter(c, readings[..i]), readings[i]) && Asks(ClockAfter(c, readings[..j]), readings[j])
    ensures readings[j].now - readings[i].now >= 30_000
  {
    var asked := readings[..i + 1];
    assert asked[..|asked| - 1] == readings[..i];
    assert asked + readings[i + 1..j] == readings[..j];
    ClockAdvances(c, asked, readings[i + 1..j]);
  }

  lemma {:induction false} NothingAskedYet(start: int, readings: seq<Reading>)
    requires forall i :: 0 <= i < |readings| ==> readings[i].now - start < PENDING_RECHECK_INTERVAL_MS
    ensures ClockAfter(Clock(start, start), readings) == Clock(start, start)
  {
    if readings != [] {
      NothingAskedYet(start, readings[..|readings| - 1]);
    }
  }

  /**
   * A plan that has just begun is not ended by what an earlier run left behind: for thirty seconds only a
   * terminal row of this run, or a failed one, ends it, whatever the predicate would say.
   */
  lemma BegunPlanWaits(start: int, readings: seq<Reading>, i: nat)
    requires i < |readings|
    requires forall k :: 0 <= k <= i ==> readings[k].now - start < 30_000
    ensures var poll := PollOf(ClockAfter(Clock(start, start), readings[..i]), readings[i]);
            poll == Finished ==> readings[i].job.Some? && readings[i].job.value.endedAt >= start
  {
    NothingAskedYet(start, readings[..i]);
  }

  /** The row of a run begun at `start` that has come to an end. */
  ghost predicate EndedSince(start: int, r: Reading) {
    r.job.Some? && r.job.value.status in {JobCompleted, JobCancelled} && start <= r.job.value.endedAt
  }

  ghost predicate RowFailed(r: Reading) { r.job.Some? && r.job.value.status == JobFailed }

  /**
   * The k-th poll asks the predicate: no row decides it, and thirty seconds have passed since the beginning and since
   * every earlier question.
   */
  ghost predicate Questions(start: int, readings: seq<Reading>, k: nat)
    requires k < |readings|
    decreases k
  {
    && !RowFailed(readings[k]) && !EndedSince(start, readings[k]) && readings[k].now - start >= 30_000
    && forall j :: 0 <= j < k && Questions(start, readings, j) ==> readings[k].now - readings[j].now >= 30_000
  }

  /** The one remembered time stands for the whole history of questions. */
  lemma {:induction false} ClockRemembers(start: int, readings: seq<Reading>, n: nat)
    requires n <= |readings|
    ensures var c := ClockAfter(Clock(start, start), readings[..n]);
            && c.startedAt == start <= c.lastPendingCheckAt
            && (forall j :: 0 <= j < n && Questions(start, readings, j) ==> readings[j].now <= c.lastPendingCheckAt)
            && (c.lastPendingCheckAt == start ||
                exists j :: 0 <= j < n && Questions(start, readings, j) && readings[j].now == c.lastPendingCheckAt)
    decreases n
  {
    if n > 0 {
      assert readings[..n][..n - 1] == readings[..n - 1];
      ClockRemembers(start, readings, n - 1);
      AsksWhenDue(start, readings, n - 1);
    }
  }

  lemma AsksWhenDue(start: int, readings: seq<Reading>, i: nat)
    requires i < |readings|
    requires var c := ClockAfter(Clock(start, start), readings[..i]);
             && c.startedAt == start <= c.lastPendingCheckAt
             && (forall j :: 0 <= j < i && Questions(start, readings, j) ==> readings[j].now <= c.lastPendingCheckAt)
             && (c.lastPendingCheckAt == start ||
                 exists j :: 0 <= j < i && Questions(start, readings, j) && readings[j].now == c.lastPendingCheckAt)
    ensures Asks(ClockAfter(Clock(start, start), readings[..i]), readings[i]) <==> Questions(start, readings, i)
  {
    hide ClockAfter;
  }

  /**
   * Over any polls of a plan begun at `start`, a poll ends it if and only if its row has not failed and came to an end
   * in this run, or the poll asks the predicate and the answer is no.
   */
  lemma PlanEndsIff(start: int, readings: seq<Reading>, i: nat)
    requires i < |readings|
    ensures var poll := PollOf(ClockAfter(Clock(start, start), readings[..i]), readings[i]);
            && (poll == Failed <==> RowFailed(readings[i]))
            && (poll == Finished <==>
                  EndedSince(start, readings[i]) || (Questions(start, readings, i) && !readings[i].isPending))
  {
    ClockRemembers(start, readings, i);
    AsksWhenDue(start, readings, i);
    hide ClockAfter;
  }

  class CompletionTracker {
    var startedAt: int
    var lastPendingCheckAt: int

    constructor ()
      ensures Current() == Clock(0, 0)
    {
      startedAt, lastPendingCheckAt := 0, 0;
    }

    function Current(): Clock
      reads this
    {
      Clock(startedAt, lastPendingCheckAt)
    }

    method Begin(now: int)
      modifies this
      ensures Current() == Clock(now, now)
    {
      startedAt, lastPendingCheckAt := now, now;
    }

    /** `finished`, for a job that has not failed. */
    method Finished(r: Reading) returns (done: bool)
      requires PollOf(Current(), r) != Failed
      modifies this`lastPendingCheckAt
      ensures done <==> PollOf(old(Current()), r) == Poll.Finished
      ensures Current() == ClockAfter(old(Current()), [r])
    {
      ghost var before := Current();
      assert [r][..0] == [] && ClockAfter(before, []) == before;
      if r.job.Some? && (r.job.value.status == JobCompleted || r.job.value.status == JobCancelled) {
        if r.job.value.endedAt >= startedAt {
          return true;
        }
      }
      if r.now - lastPendingCheckAt < PENDING_RECHECK_INTERVAL_MS {
        return false;
      }
      lastPendingCheckAt := r.now;
      return !r.isPending;
    }
  }

  // ---- The coordinator as a transition system -------------------------------------------------------------

  /**
   * `active` is the plan whose runner is active; `timer` a scheduled poll. The last five fields record
   * the run: which plans were started, whose runner has not settled, which runners' stops are awaited (true
   * when the next plan follows), how often completion was reported, and which runner's stop each call of
   * the coordinator's own `stop` awaits, if any.
   */
  datatype State = State(
    next: nat, active: Option<nat>, timer: bool, startedAny: bool, stopped: bool, aborted: bool,
    started: seq<nat>, live: set<nat>, closing: map<nat, bool>, reports: nat, stops: seq<Option<nat>>)

  /** What can happen between two awaits. `pending` answers the predicates at that moment, plan by plan. */
  datatype Event =
    | Start(pending: seq<bool>)
    | PollFires(poll: Poll)
    | StopSettles(plan: nat, pending: seq<bool>)
    | Stop
    | Abort

  const INITIAL := State(0, None, false, false, false, false, [], {}, map[], 0, [])

  /** The first pending plan from `from` on, or the number of plans. */
  function FirstPending(pending: seq<bool>, from: nat): (r: nat)
    requires from <= |pending|
    ensures from <= r <= |pending|
    ensures r < |pending| ==> pending[r]
    ensures forall k :: from <= k < r ==> !pending[k]
    decreases |pending| - from
  {
    if from == |pending| || pending[from] then from else FirstPending(pending, from + 1)
  }

  predicate Halted(s: State) { s.stopped || s.aborted }

  /** `startNextJob`. */
  function StartNext(s: State, pending: seq<bool>): State {
    var quiet := s.(timer := false);
    if Halted(s) || s.next > |pending| then quiet
    else
      var plan := FirstPending(pending, s.next);
      if plan < |pending| then
        quiet.(next := plan + 1, active := Some(plan), timer := true, startedAny := true,
               started := s.started + [plan], live := s.live + {plan})
      else
        quiet.(next := plan, reports := s.reports + (if s.startedAny then 1 else 0))
  }

  function StepOn(s: State, e: Event): State {
    match e
    case Start(pending) => StartNext(s, pending)
    case PollFires(poll) =>
      if !s.timer then s
      else
        var fired := s.(timer := false);
        if Halted(s) || s.active.None? then fired
        else if poll == Busy then s
        else fired.(active := None, closing := s.closing[s.active.value := true])
    case StopSettles(plan, pending) =>
      if plan !in s.closing then s
      else
        var settled := s.(live := s.live - {plan}, closing := s.closing - {plan});
        if s.closing[plan] && !Halted(s) then StartNext(settled, pending) else settled
    case Stop =>
      var halted := s.(stopped := true, timer := false, active := None, stops := s.stops + [s.active]);
      if s.active.None? then halted else halted.(closing := s.closing[s.active.value := false])
    case Abort => s.(aborted := true)
  }

  function Run(events: seq<Event>): State {
    if events == [] then INITIAL else StepOn(Run(events[..|events| - 1]), events[|events| - 1])
  }

  // ---- One start, or several -----------------------------------------------------------------------------------

  /** The plan list is fixed; `start` may be called any number of times. */
  ghost predicate Listed(events: seq<Event>, plans: nat) {
    forall e :: e in events && (e.Start? || e.StopSettles?) ==> |e.pending| == plans
  }

  ghost predicate Increasing(s: seq<nat>) {
    forall i, j :: 0 <= i < j < |s| ==> s[i] < s[j]
  }

  /** The state after the first n events. */
  function After(events: seq<Event>, n: nat): State
    requires n <= |events|
  {
    Run(events[..n])
  }

  /** What the coordinator promises of a step: one runner at most, one report, and that with none left. */
  ghost predicate Kept(s: State, t: State) {
    |t.live| <= 1 && t.reports <= 1 && (t.reports > s.reports ==> t.live == {})
  }

  /** A start here starts nothing that overlaps: it has no effect, or nothing lives and nothing was reported. */
  predicate Welcome(s: State) { Halted(s) || (s.live == {} && s.reports == 0) }

  /** The inductive invariant of a run whose starts were all welcome. */
  ghost predicate Inv(s: State, plans: nat) {
    && s.next <= plans
    && Increasing(s.started) && (forall p :: p in s.started ==> p < s.next)
    && (s.startedAny <==> s.started != [])
    // What lives is the active runner or the one being stopped, never both.
    && s.live == s.closing.Keys + (if s.active.Some? then {s.active.value} else {})
    && (s.active.Some? ==> s.closing == map[] && s.active.value in s.started)
    && (forall p :: p in s.closing ==> s.closing.Keys == {p} && p in s.started)
    && (s.timer ==> s.active.Some?)
    // Completion was reported once everything was examined and settled, or not yet.
    && s.reports <= 1
    && (s.reports == 1 ==> s.next == plans && s.live == {} && s.startedAny)
    && (s.stopped ==> s.active.None?)
  }

  lemma StepKeeps(s: State, e: Event, plans: nat)
    requires Inv(s, plans)
    requires e.Start? || e.StopSettles? ==> |e.pending| == plans
    requires e.Start? ==> Welcome(s)
    ensures Inv(StepOn(s, e), plans) && Kept(s, StepOn(s, e))
  {
    match e
    case Start(pending) =>
      if Halted(s) {
        InvHolds(s, plans);
      } else {
        StartNextKeeps(s, pending);
      }
    case StopSettles(plan, pending) =>
      if plan in s.closing {
        var settled := s.(live := s.live - {plan}, closing := s.closing - {plan});
        assert settled.closing == map[] && settled.live == {};
        if s.closing[plan] && !Halted(s) {
          StartNextKeeps(settled, pending);
        }
      } else {
        InvHolds(s, plans);
      }
    case PollFires(poll) => PollKeeps(s, poll, plans);
    case Stop => StopKeeps(s, plans);
    case Abort => InvHolds(s, plans);
  }

  lemma PollKeeps(s: State, poll: Poll, plans: nat)
    requires Inv(s, plans)
    ensures Inv(StepOn(s, PollFires(poll)), plans) && Kept(s, StepOn(s, PollFires(poll)))
  {
    InvHolds(s, plans);
    hide Increasing;
    var t := StepOn(s, PollFires(poll));
    assert t.live == s.live;
    if t.closing != s.closing {
      assert t.closing == map[s.active.value := true];
    }
  }

  lemma StopKeeps(s: State, plans: nat)
    requires Inv(s, plans)
    ensures Inv(StepOn(s, Stop), plans) && Kept(s, StepOn(s, Stop))
  {
    InvHolds(s, plans);
    hide Increasing;
    var t := StepOn(s, Stop);
    if s.active.Some? {
      assert t.closing == map[s.active.value := false];
    }
  }

  /** The invariant leaves room for one runner and one report. */
  lemma InvHolds(s: State, plans: nat)
    requires Inv(s, plans)
    ensures |s.live| <= 1 && s.reports <= 1
  {
    hide Increasing;
    if s.active.Some? {
      assert s.live == {s.active.value};
    } else if s.closing != map[] {
      var p :| p in s.closing;
      assert s.live == {p};
    } else {
      assert s.live == {};
    }
  }

  /** Starting the next plan is safe once nothing lives and nothing was reported. */
  lemma StartNextKeeps(s: State, pending: seq<bool>)
    requires Inv(s, |pending|) && s.live == {} && s.reports == 0
    ensures Inv(StartNext(s, pending), |pending|) && Kept(s, StartNext(s, pending))
  {
    var t := StartNext(s, pending);
    assert s.active.None? && s.closing.Keys == {};
    assert s.closing == map[];
    if t.started != s.started {
      var plan := t.active.value;
      assert t.started == s.started + [plan] && t.live == {plan};
      assert forall i :: 0 <= i < |s.started| ==> s.started[i] in s.started;
    }
  }

  /**
   * What a start does while a runner lives, exactly: it adds a second runner if and only if it is not
   * halted and some plan is still pending; otherwise, unless halted, it reports completion too early.
   */
  lemma StartOverlapsIff(s: State, pending: seq<bool>)
    requires |s.live| <= 1 && s.next <= |pending|
    requires (forall p :: p in s.live ==> p < s.next) && (s.live != {} ==> s.startedAny)
    ensures var t := StepOn(s, Start(pending));
            && (|t.live| <= 1 <==> Halted(s) || s.live == {} || FirstPending(pending, s.next) == |pending|)
            && (t.reports > s.reports && t.live != {} <==>
                  !Halted(s) && s.live != {} && FirstPending(pending, s.next) == |pending|)
  {
    var t := StepOn(s, Start(pending));
    var plan := FirstPending(pending, s.next);
    if s.live != {} {
      var p :| p in s.live;
      assert s.live == {p} by {
        assert |s.live - {p}| == 0;
      }
      if !Halted(s) && plan < |pending| {
        assert t.live == {p, plan} && p != plan;
      }
    }
  }

  /** A start that is not welcome breaks the promise. */
  lemma UnwelcomeBreaks(s: State, pending: seq<bool>)
    requires Inv(s, |pending|) && !Welcome(s)
    ensures !Kept(s, StepOn(s, Start(pending)))
  {
    InvHolds(s, |pending|);
    if s.live != {} {
      forall p | p in s.live ensures p < s.next && s.startedAny {
        assert p in s.started;
      }
      StartOverlapsIff(s, pending);
    } else {
      assert s.reports == 1 && s.next == |pending| && s.startedAny;
    }
  }

  lemma AfterStep(events: seq<Event>, n: nat)
    requires n < |events|
    ensures After(events, n + 1) == StepOn(After(events, n), events[n])
  {
    var front := events[..n + 1];
    assert front[..|front| - 1] == events[..n] && front[n] == events[n];
    hide StepOn;
  }

  /** Every start among the first n events was welcome when it came. */
  ghost predicate WelcomeSoFar(events: seq<Event>, n: nat)
    requires n <= |events|
  {
    forall i :: 0 <= i < n && events[i].Start? ==> Welcome(After(events, i))
  }

  /** The promise was kept by each of the first n events. */
  ghost predicate KeptSoFar(events: seq<Event>, n: nat)
    requires n <= |events|
  {
    forall i :: 0 <= i < n ==> Kept(After(events, i), After(events, i + 1))
  }

  lemma {:induction false} RunKeeps(events: seq<Event>, plans: nat, n: nat)
    requires Listed(events, plans) && n <= |events| && WelcomeSoFar(events, n)
    ensures Inv(After(events, n), plans) && KeptSoFar(events, n)
  {
    if n == 0 {
      assert events[..0] == [];
    } else {
      RunKeeps(events, plans, n - 1);
      hide Inv; hide StepOn; hide Kept; hide Welcome; hide Run;
      AfterStep(events, n - 1);
      assert events[n - 1] in events;
      StepKeeps(After(events, n - 1), events[n - 1], plans);
    }
  }

  lemma {:induction false} KeptMeansWelcome(events: seq<Event>, plans: nat, n: nat)
    requires Listed(events, plans) && n <= |events| && KeptSoFar(events, n)
    ensures WelcomeSoFar(events, n)
  {
    if n > 0 {
      KeptMeansWelcome(events, plans, n - 1);
      RunKeeps(events, plans, n - 1);
      hide Inv; hide StepOn; hide Kept; hide Welcome; hide Run;
      AfterStep(events, n - 1);
      var s, e := After(events, n - 1), events[n - 1];
      assert e in events;
      if e.Start? && !Welcome(s) {
        UnwelcomeBreaks(s, e.pending);
      }
    }
  }

  /**
   * For runs with any number of starts, exactly when the promise holds: never two runners that are started
   * and not yet settled, completion reported at most once, and only with every started runner settled, if
   * and only if every call of `start` came after a halt, or with no runner alive and nothing reported yet.
   */
  lemma PromiseIff(events: seq<Event>, plans: nat)
    requires Listed(events, plans)
    ensures KeptSoFar(events, |events|) <==> WelcomeSoFar(events, |events|)
  {
    if WelcomeSoFar(events, |events|) {
      RunKeeps(events, plans, |events|);
    }
    if KeptSoFar(events, |events|) {
      KeptMeansWelcome(events, plans, |events|);
    }
  }

  /** `start` is called at most once. */
  ghost predicate OneStart(events: seq<Event>) {
    forall i, j :: 0 <= i < j < |events| ==> !(events[i].Start? && events[j].Start?)
  }

  /** Before the first start nothing lives and nothing is reported. */
  lemma {:induction false} NothingBeforeStart(events: seq<Event>, n: nat)
    requires n <= |events| && forall i :: 0 <= i < n ==> !events[i].Start?
    ensures var s := After(events, n);
            s.live == {} && s.reports == 0 && s.active.None? && s.closing == map[] && !s.timer
  {
    if n == 0 {
      assert events[..0] == [];
    } else {
      NothingBeforeStart(events, n - 1);
      AfterStep(events, n - 1);
      hide Run;
    }
  }

  /** A single start is always welcome. */
  lemma OneStartIsWelcome(events: seq<Event>)
    requires OneStart(events)
    ensures WelcomeSoFar(events, |events|)
  {
    forall n | 0 <= n < |events| && events[n].Start? ensures Welcome(After(events, n)) {
      NothingBeforeStart(events, n);
    }
  }

  /**
   * Over every interleaving with one `start`: at most one runner is started and not yet settled; plans
   * start at most once and in list order; completion is reported at most once, after every plan has been
   * examined and every started runner has settled.
   */
  lemma NeverTwoRunners(events: seq<Event>, plans: nat)
    requires Listed(events, plans) && OneStart(events)
    ensures var s := Run(events);
            && |s.live| <= 1
            && Increasing(s.started) && (forall p :: p in s.started ==> p < s.next <= plans)
            && s.reports <= 1 && (s.reports == 1 ==> s.next == plans && s.live == {})
    ensures KeptSoFar(events, |events|)
  {
    OneStartIsWelcome(events);
    RunKeeps(events, plans, |events|);
    assert events[..|events|] == events;
    InvHolds(Run(events), plans);
  }

  // ---- When `stop` resolves ------------------------------------------------------------------------------------

  /** The await in the k-th stop may continue: it found no active runner, or that runner's stop has settled. */
  predicate CanResolve(s: State, k: nat) {
    k < |s.stops| && (s.stops[k].None? || s.stops[k].value !in s.closing)
  }

  function RunFrom(s: State, events: seq<Event>): State {
    if events == [] then s else StepOn(RunFrom(s, events[..|events| - 1]), events[|events| - 1])
  }

  /** What lives is being stopped, and nothing else. */
  ghost predicate WindingDown(s: State) { s.stopped && s.active.None? && s.live == s.closing.Keys }

  lemma WindsDown(s: State, e: Event)
    requires WindingDown(s)
    ensures var t := StepOn(s, e); WindingDown(t) && t.closing.Keys <= s.closing.Keys && s.stops <= t.stops
  {
  }

  lemma {:induction false} WindsDownOver(s: State, more: seq<Event>)
    requires WindingDown(s)
    ensures var t := RunFrom(s, more); WindingDown(t) && t.closing.Keys <= s.closing.Keys && s.stops <= t.stops
  {
    if more != [] {
      WindsDownOver(s, more[..|more| - 1]);
      hide WindingDown; hide StepOn;
      WindsDown(RunFrom(s, more[..|more| - 1]), more[|more| - 1]);
    }
  }

  lemma StopWindsDown(s: State, plans: nat)
    requires Inv(s, plans)
    ensures var t := StepOn(s, Stop);
            && WindingDown(t) && t.stops == s.stops + [s.active]
            && t.closing.Keys == s.closing.Keys + (if s.active.Some? then {s.active.value} else {})
  {
    hide Increasing;
  }

  /**
   * `stop` awaits the active runner only. Whenever this call of it resolves, whatever happens in between,
   * nothing lives any more, if and only if no runner was already being stopped when it was called, by a
   * poll that had cleared the active runner or by an earlier call.
   */
  lemma CleanStopIff(events: seq<Event>, plans: nat)
    requires Listed(events, plans) && WelcomeSoFar(events, |events|)
    ensures var s := Run(events);
            (forall more :: CanResolve(RunFrom(StepOn(s, Stop), more), |s.stops|) ==>
               RunFrom(StepOn(s, Stop), more).live == {})
            <==> s.closing == map[]
  {
    RunKeeps(events, plans, |events|);
    assert events[..|events|] == events;
    var s := Run(events);
    StopWindsDown(s, plans);
    if s.closing == map[] {
      forall more | CanResolve(RunFrom(StepOn(s, Stop), more), |s.stops|)
        ensures RunFrom(StepOn(s, Stop), more).live == {}
      {
        ResolvesClean(s, more);
      }
    } else {
      ResolvesAtOnce(s, plans);
    }
  }

  lemma ResolvesClean(s: State, more: seq<Event>)
    requires s.closing == map[] && WindingDown(StepOn(s, Stop))
    requires CanResolve(RunFrom(StepOn(s, Stop), more), |s.stops|)
    ensures RunFrom(StepOn(s, Stop), more).live == {}
  {
    var t := StepOn(s, Stop);
    assert t.closing.Keys == if s.active.Some? then {s.active.value} else {};
    WindsDownOver(t, more);
    assert RunFrom(t, more).stops[|s.stops|] == s.active;
    hide StepOn; hide RunFrom;
  }

  /** With a runner already being stopped there is none to await. */
  lemma ResolvesAtOnce(s: State, plans: nat)
    requires Inv(s, plans) && s.closing != map[]
    ensures var t := RunFrom(StepOn(s, Stop), []); CanResolve(t, |s.stops|) && t.live != {}
  {
    hide Increasing;
    assert s.active.None?;
    var p :| p in s.closing;
    assert p in s.live;
  }

  /** The input: a poll finds the job failed, and `stop` comes before that runner has settled. */
  lemma StopLeavesRunner(pending: seq<bool>)
    requires pending == [true]
    ensures var t := StepOn(StepOn(StepOn(INITIAL, Start(pending)), PollFires(Failed)), Stop);
            t.stopped && CanResolve(t, 0) && t.live == {0}
  {
    assert FirstPending(pending, 0) == 0;
  }

  /** After `stop` or an abort nothing is started and nothing is reported, whatever still settles. */
  lemma NothingAfterHalt(s: State, e: Event)
    requires Halted(s)
    ensures Halted(StepOn(s, e))
    ensures StepOn(s, e).started == s.started && StepOn(s, e).reports == s.reports && StepOn(s, e).live <= s.live
  {
  }

  /** The plans left never grow, and every start of a runner uses one up: their number is a termination measure. */
  lemma RemainingPlansMeasure(s: State, e: Event, plans: nat)
    requires s.next <= plans && (e.Start? || e.StopSettles? ==> |e.pending| == plans)
    ensures var t := StepOn(s, e);
            && s.next <= t.next <= plans
            && (t.started != s.started ==> plans - t.next < plans - s.next)
            && (t.reports > s.reports ==> t.next == plans)
  {
  }

  /**
   * A failed plan is passed over: once its runner has settled, exactly the next pending plan after it is
   * started, or completion is reported when none is left.
   */
  lemma FailureMovesOn(s: State, pending: seq<bool>)
    requires Inv(s, |pending|) && s.active.Some? && s.timer && !Halted(s)
    ensures var failed := StepOn(s, PollFires(Failed));
            var t := StepOn(failed, StopSettles(s.active.value, pending));
            var plan := FirstPending(pending, s.next);
            && failed.started == s.started && failed.active.None?
            && plan > s.active.value
            && (plan < |pending| ==> t.started == s.started + [plan] && t.active == Some(plan) && t.live == {plan})
            && (plan == |pending| ==> t.started == s.started && t.reports == s.reports + 1 && t.live == {})
  {
    var failed := StepOn(s, PollFires(Failed));
    assert failed.closing == map[s.active.value := true];
    assert failed.closing - {s.active.value} == map[];
    assert s.live - {s.active.value} == {};
  }

  lemma TwoStarts(pending: seq<bool>)
    ensures Run([Start(pending), Start(pending)]) == StepOn(StepOn(INITIAL, Start(pending)), Start(pending))
  {
    var two := [Start(pending), Start(pending)];
    var one := two[..1];
    assert one == [Start(pending)] && one[..0] == [];
    assert Run(one[..0]) == INITIAL;
    hide StepOn;
    assert Run(one) == StepOn(INITIAL, Start(pending));
  }

  /** With a plan left, a second start adds a runner to the one that lives. */
  lemma SecondStartOverlaps(pending: seq<bool>)
    requires |pending| >= 2 && pending[0] && pending[1]
    ensures |Run([Start(pending), Start(pending)]).live| == 2
  {
    TwoStarts(pending);
    hide Run;
    assert FirstPending(pending, 0) == 0 && FirstPending(pending, 1) == 1;
    assert StepOn(INITIAL, Start(pending)).live == {0};
    assert StepOn(StepOn(INITIAL, Start(pending)), Start(pending)).live == {0, 1};
  }

  /**
   * With none left, it reports completion while that runner lives, and takes its poll timer away: nothing
   * polls the runner any more.
   */
  lemma SecondStartReportsEarly(pending: seq<bool>)
    requires pending == [true]
    ensures var s := Run([Start(pending), Start(pending)]);
            s.reports == 1 && s.live == {0} && s.active == Some(0) && !s.timer
  {
    TwoStarts(pending);
    hide Run;
    assert FirstPending(pending, 0) == 0 && FirstPending(pending, 1) == 1;
  }

  // ---- The closures ---------------------------------------------------------------------------------------------

  /** The coordinator's variables, with the history of the run beside them. */
  class BackfillCoordinator {
    const plans: nat
    const completion: CompletionTracker
    var nextJobIndex: nat
    var activePlan: Option<nat>
    var pollTimer: bool
    var startedAny: bool
    var stopped: bool
    var aborted: bool
    var started: seq<nat>
    var live: set<nat>
    var closing: map<nat, bool>
    var reports: nat
    var stops: seq<Option<nat>>

    constructor (plans: nat)
      ensures this.plans == plans && Current() == INITIAL && fresh(completion)
    {
      this.plans := plans;
      completion := new CompletionTracker();
      nextJobIndex, activePlan, pollTimer, startedAny, stopped, aborted := 0, None, false, false, false, false;
      started, live, closing, reports, stops := [], {}, map[], 0, [];
    }

    function Current(): State
      reads this
    {
      State(nextJobIndex, activePlan, pollTimer, startedAny, stopped, aborted, started, live, closing, reports,
            stops)
    }

    /** What `startNextJob` does for the first pending plan. */
    method BeginPlan(plan: nat, now: int)
      modifies this`activePlan, this`startedAny, this`started, this`live, this`pollTimer, completion
      ensures Current() == old(Current()).(active := Some(plan), startedAny := true, started := old(started) + [plan],
                                           live := old(live) + {plan}, timer := true)
      ensures completion.Current() == Clock(now, now)
    {
      activePlan := Some(plan);
      completion.Begin(now);
      startedAny := true;
      started := started + [plan];
      live := live + {plan};
      pollTimer := true;
    }

    /** `startNextJob`; a plan that starts also restarts the completion tracker. */
    method StartNextJob(pending: seq<bool>, now: int)
      requires |pending| == plans && nextJobIndex <= plans
      modifies this, completion
      ensures Current() == StartNext(old(Current()), pending)
      ensures completion.Current() == if started != old(started) then Clock(now, now) else old(completion.Current())
    {
      pollTimer := false;
      if stopped || aborted {
        return;
      }
      while nextJobIndex < plans
        invariant old(nextJobIndex) <= nextJobIndex <= plans
        invariant FirstPending(pending, nextJobIndex) == FirstPending(pending, old(nextJobIndex))
        invariant Current() == old(Current()).(next := nextJobIndex, timer := false)
        invariant completion.Current() == old(completion.Current())
      {
        var plan := nextJobIndex;
        nextJobIndex := nextJobIndex + 1;
        if pending[plan] {
          BeginPlan(plan, now);
          return;
        }
      }
      if startedAny {
        reports := reports + 1;
      }
    }

    /** One poll; the verdict is read off the job row and the tracker. */
    method WaitForCurrentJob(r: Reading)
      requires pollTimer
      modifies this, completion
      ensures Current() == StepOn(old(Current()), PollFires(PollOf(old(completion.Current()), r)))
      ensures completion.Current() ==
                if !Halted(old(Current())) && old(activePlan).Some? then ClockAfter(old(completion.Current()), [r])
                else old(completion.Current())
    {
      ghost var before := completion.Current();
      assert [r][..0] == [] && ClockAfter(before, []) == before;
      pollTimer := false;
      if stopped || aborted || activePlan.None? {
        return;
      }
      if r.job.Some? && r.job.value.status == JobFailed {
        closing := closing[activePlan.value := true];
        activePlan := None;
        return;
      }
      var done := completion.Finished(r);
      if done {
        closing := closing[activePlan.value := true];
        activePlan := None;
        return;
      }
      pollTimer := true;
    }

    /** A runner's `stop` settles; `finally` goes on to the next plan unless the run was halted. */
    method RunnerSettled(plan: nat, pending: seq<bool>, now: int)
      requires plan in closing && |pending| == plans && nextJobIndex <= plans
      modifies this, completion
      ensures Current() == StepOn(old(Current()), StopSettles(plan, pending))
    {
      var follow := closing[plan];
      live := live - {plan};
      closing := closing - {plan};
      if follow && !stopped && !aborted {
        StartNextJob(pending, now);
      }
    }

    /** `stop` up to its await; `k` numbers the call. Nothing follows the await. */
    method StopAll() returns (k: nat)
      modifies this
      ensures Current() == StepOn(old(Current()), Stop)
      ensures k == old(|stops|) && stops[k] == old(activePlan)
    {
      stopped := true;
      pollTimer := false;
      k := |stops|;
      stops := stops + [activePlan];
      if activePlan.Some? {
        closing := closing[activePlan.value := false];
      }
      activePlan := None;
    }
  }
}
