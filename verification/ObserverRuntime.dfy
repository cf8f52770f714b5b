/**
 * The observer runtime controller: requests to apply saved settings, workers that follow the latest
 * revision, and stops that wait for the work they found. Code between awaits is one step.
 */
module ObserverRuntime {
  import opened Collections

  datatype Published = Active | Applying | FailedToApply

  /**
   * Where one call of `applyLatest` is: waiting for the sweeper to drain, or about to see the sweeper's
   * answer (refused, made an observer, threw), each with the revision it read; or returned, with the
   * `finally` callback of its promise still to come. Only a returned call is no longer in flight.
   */
  datatype Phase =
    | Draining(revision: nat) | Refused(revision: nat) | Made(revision: nat) | Threw(revision: nat)
    | Returned

  /**
   * `work` is the promise in the field of that name and `observer` the revision whose settings the live
   * observer was created from. The rest records the run: the promises that have not settled with their
   * calls, the number of the next promise, the promise each `stop` awaits, and the stops that resolved.
   */
  datatype State = State(
    revision: nat, work: Option<nat>, stopped: bool, published: Published, observer: nat,
    workers: map<nat, Phase>, next: nat, stops: seq<Option<nat>>, resolved: set<nat>)

  const INITIAL := State(0, None, false, Active, 0, map[], 0, [], {})

  datatype Event =
    | RequestApply
    // The sweeper has drained, asks whether to resume and, if so, creates an observer or throws.
    | Drained(id: nat, creates: bool)
    | DrainThrows(id: nat)
    // The await of a call continues.
    | Resume(id: nat)
    // The `finally` callback of a promise runs, and the promise settles.
    | Finally(id: nat)
    | Stop
    // The await of the k-th stop continues.
    | StopResolves(k: nat)

  /** The head of the loop of `applyLatest`. */
  function Loop(s: State, id: nat): State {
    s.(workers := s.workers[id := if s.stopped then Returned else Draining(s.revision)])
  }

  function StartWork(s: State): State {
    if s.work.Some? then s else Loop(s.(work := Some(s.next), next := s.next + 1), s.next)
  }

  /** The callback that the controller hands to the sweeper. */
  predicate ShouldResume(s: State, revision: nat) { !s.stopped && s.revision == revision }

  predicate Settled(s: State, id: nat) { id < s.next && id !in s.workers }

  /** The await in the k-th stop may continue: it found no promise, or one that has settled. */
  predicate CanResolve(s: State, k: nat) {
    k < |s.stops| && (s.stops[k].None? || Settled(s, s.stops[k].value))
  }

  function Answered(s: State, id: nat, creates: bool): Phase
    requires id in s.workers && s.workers[id].Draining?
  {
    var revision := s.workers[id].revision;
    if !ShouldResume(s, revision) then Refused(revision) else if creates then Made(revision) else Threw(revision)
  }

  /** `applyLatest` after its await. */
  function Continued(s: State, id: nat): State
    requires id in s.workers
  {
    match s.workers[id]
    case Refused(_) => Loop(s, id)
    case Made(revision) => s.(observer := revision, published := Active, workers := s.workers[id := Returned])
    case Threw(revision) =>
      if revision != s.revision then Loop(s, id)
      else s.(published := FailedToApply, workers := s.workers[id := Returned])
    case _ => s
  }

  /** The `finally` callback. */
  function Finished(s: State, id: nat): State {
    var settled := s.(work := None, workers := s.workers - {id});
    if !s.stopped && s.published == Applying then StartWork(settled) else settled
  }

  function StepOn(s: State, e: Event): State {
    match e
    case RequestApply =>
      if s.stopped then s else StartWork(s.(revision := s.revision + 1, published := Applying))
    case Drained(id, creates) =>
      if id in s.workers && s.workers[id].Draining? then s.(workers := s.workers[id := Answered(s, id, creates)]) else s
    case DrainThrows(id) =>
      if id in s.workers && s.workers[id].Draining? then s.(workers := s.workers[id := Threw(s.workers[id].revision)])
      else s
    case Resume(id) => if id in s.workers then Continued(s, id) else s
    case Finally(id) => if id in s.workers && s.workers[id] == Returned then Finished(s, id) else s
    case Stop => s.(stopped := true, revision := s.revision + 1, stops := s.stops + [s.work])
    case StopResolves(k) => if CanResolve(s, k) then s.(resolved := s.resolved + {k}) else s
  }

  function Run(s: State, events: seq<Event>): State
    decreases |events|
  {
    if events == [] then s else Run(StepOn(s, events[0]), events[1..])
  }

  // ---- What every run keeps ---------------------------------------------------------------------------------

  /** The calls of `applyLatest` in flight. */
  function InFlight(s: State): set<nat> { set id | id in s.workers && s.workers[id] != Returned }

  ghost predicate PhaseOk(s: State, phase: Phase) {
    phase != Returned ==> phase.revision <= s.revision && (!s.stopped ==> s.published == Applying)
  }

  ghost predicate Inv(s: State) {
    // The unsettled promise is the one in the field, and there is no other.
    && s.workers.Keys == (if s.work.Some? then {s.work.value} else {})
    && (forall id :: id in s.workers ==> id < s.next && PhaseOk(s, s.workers[id]))
    && (!s.stopped && s.published == Applying ==> s.work.Some?)
    && s.observer <= s.revision
    // A stop found the promise that is in the field, unless that one has settled since.
    && (s.stopped <==> s.stops != [])
    && (forall k :: 0 <= k < |s.stops| && s.work.Some? ==> s.stops[k] == s.work)
    && (forall k :: 0 <= k < |s.stops| && s.stops[k].Some? ==> s.stops[k].value < s.next)
    && (forall k :: k in s.resolved ==> k < |s.stops| && s.work.None?)
  }

  lemma RequestKeeps(s: State)
    requires Inv(s)
    ensures Inv(StepOn(s, RequestApply))
  {
  }

  /** A call that goes on, changing its own phase only. */
  lemma PhaseKeeps(s: State, id: nat, phase: Phase)
    requires Inv(s) && id in s.workers && PhaseOk(s, phase)
    ensures Inv(s.(workers := s.workers[id := phase]))
  {
    assert s.workers[id := phase].Keys == s.workers.Keys;
  }

  lemma ResumeKeeps(s: State, id: nat)
    requires Inv(s) && id in s.workers
    ensures Inv(Continued(s, id))
  {
    var phase := s.workers[id];
    if phase.Refused? || (phase.Threw? && phase.revision != s.revision) {
      PhaseKeeps(s, id, if s.stopped then Returned else Draining(s.revision));
    } else if phase.Made? || phase.Threw? {
      assert s.workers[id := Returned].Keys == s.workers.Keys;
      OnlyWorker(s, id);
    }
  }

  lemma OnlyWorker(s: State, id: nat)
    requires Inv(s) && id in s.workers
    ensures s.work == Some(id) && s.workers == map[id := s.workers[id]] && s.workers - {id} == map[]
  {
    assert s.workers.Keys == {s.work.value};
  }

  lemma FinallyKeeps(s: State, id: nat)
    requires Inv(s) && id in s.workers && s.workers[id] == Returned
    ensures Inv(Finished(s, id))
  {
    OnlyWorker(s, id);
  }

  lemma StopKeeps(s: State)
    requires Inv(s)
    ensures Inv(StepOn(s, Stop))
  {
  }

  lemma StopResolvesKeeps(s: State, k: nat)
    requires Inv(s)
    ensures Inv(StepOn(s, StopResolves(k)))
  {
    assert s.work.None? || s.work.value in s.workers.Keys;
  }

  lemma StepKeeps(s: State, e: Event)
    requires Inv(s)
    ensures Inv(StepOn(s, e))
  {
    hide Inv; hide Continued; hide Finished; hide StartWork; hide CanResolve; hide PhaseOk;
    match e
    case RequestApply => RequestKeeps(s);
    case Drained(id, creates) =>
      if id in s.workers && s.workers[id].Draining? {
        AnswerKeeps(s, id, Answered(s, id, creates));
      }
    case DrainThrows(id) =>
      if id in s.workers && s.workers[id].Draining? {
        AnswerKeeps(s, id, Threw(s.workers[id].revision));
      }
    case Resume(id) =>
      if id in s.workers {
        ResumeKeeps(s, id);
      }
    case Finally(id) =>
      if id in s.workers && s.workers[id] == Returned {
        FinallyKeeps(s, id);
      }
    case Stop => StopKeeps(s);
    case StopResolves(k) => StopResolvesKeeps(s, k);
  }

  lemma AnswerKeeps(s: State, id: nat, answer: Phase)
    requires Inv(s) && id in s.workers && s.workers[id].Draining?
    requires answer != Returned && answer.revision == s.workers[id].revision
    ensures Inv(s.(workers := s.workers[id := answer]))
  {
    assert PhaseOk(s, s.workers[id]);
    PhaseKeeps(s, id, answer);
  }

  lemma {:induction false} RunKeeps(s: State, events: seq<Event>)
    requires Inv(s)
    ensures Inv(Run(s, events))
    decreases |events|
  {
    hide Inv; hide StepOn;
    if events != [] {
      StepKeeps(s, events[0]);
      RunKeeps(StepOn(s, events[0]), events[1..]);
    }
  }

  // ---- In flight ------------------------------------------------------------------------------------------------

  /**
   * In every run at most one call is in flight. While the controller is not stopped and publishes
   * "applying" there is exactly one, unless the last one has just returned: then its `finally` callback
   * is still to come and starts the next one, at the latest revision.
   */
  lemma ApplyingHasAWorker(events: seq<Event>)
    ensures var s := Run(INITIAL, events);
            && |InFlight(s)| <= 1
            && (!s.stopped && s.published == Applying ==>
                  s.work.Some? && (InFlight(s) == {s.work.value} || AboutToRestart(s, s.work.value)))
  {
    RunKeeps(INITIAL, events);
    var s := Run(INITIAL, events);
    hide Run;
    if s.work.Some? {
      var id := s.work.value;
      assert id in s.workers.Keys;
      OnlyWorker(s, id);
      assert InFlight(s) == if s.workers[id] == Returned then {} else {id};
      if s.workers[id] == Returned && !s.stopped && s.published == Applying {
        RestartsAtLatest(s, id);
      }
    } else {
      assert InFlight(s) == {};
    }
  }

  /** The call has returned, and its callback leaves exactly one new call, which reads the latest revision. */
  ghost predicate AboutToRestart(s: State, id: nat) {
    && s.workers == map[id := Returned]
    && InFlight(s) == {}
    && StepOn(s, Finally(id)).workers == map[s.next := Draining(s.revision)]
    && InFlight(StepOn(s, Finally(id))) == {s.next}
  }

  lemma RestartsAtLatest(s: State, id: nat)
    requires s.workers == map[id := Returned] && !s.stopped && s.published == Applying
    ensures AboutToRestart(s, id)
  {
    var t := StepOn(s, Finally(id));
    assert s.workers - {id} == map[];
    assert t.workers == map[s.next := Draining(s.revision)];
    assert InFlight(t) == {s.next};
  }

  /** That window is real: a request may come between the return of a call and its callback. */
  lemma RequestBeforeCallback(events: seq<Event>)
    requires events == [RequestApply, Drained(0, true), Resume(0), RequestApply]
    ensures var s := Run(INITIAL, events);
            !s.stopped && s.published == Applying && InFlight(s) == {} && s.workers == map[0 := Returned]
  {
    var s1 := StepOn(INITIAL, RequestApply);
    var s2 := StepOn(s1, Drained(0, true));
    var s3 := StepOn(s2, Resume(0));
    var s4 := StepOn(s3, RequestApply);
    assert s1.workers == map[0 := Draining(1)] && s2.workers == map[0 := Made(1)] && s3.workers == map[0 := Returned];
    FourSteps(INITIAL, events);
  }

  lemma FourSteps(s: State, events: seq<Event>)
    requires |events| == 4
    ensures Run(s, events) == StepOn(StepOn(StepOn(StepOn(s, events[0]), events[1]), events[2]), events[3])
  {
    hide StepOn;
    var s1 := StepOn(s, events[0]);
    var s2 := StepOn(s1, events[1]);
    var s3 := StepOn(s2, events[2]);
    assert Run(s, events) == Run(s1, events[1..]);
    assert Run(s1, events[1..]) == Run(s2, events[1..][1..]);
    assert Run(s2, events[1..][1..]) == Run(s3, events[1..][1..][1..]);
    assert Run(s3, events[1..][1..][1..]) == StepOn(s3, events[3]);
  }

  /** "failed" is newly published only by a call that threw for the revision that is then the latest. */
  lemma FailureIsLatest(s: State, e: Event)
    requires Inv(s) && StepOn(s, e).published == FailedToApply && s.published != FailedToApply
    ensures e.Resume? && e.id in s.workers && s.workers[e.id] == Threw(s.revision)
    ensures StepOn(s, e).revision == s.revision
  {
  }

  // ---- Stopping -----------------------------------------------------------------------------------------------

  /** How many more steps of its own the unsettled promise needs at most, once stopped. */
  function Remaining(s: State): nat {
    if s.work.None? || s.work.value !in s.workers then 0
    else
      match s.workers[s.work.value]
      case Returned => 1
      case Draining(_) => 3
      case _ => 2
  }

  predicate WorkerStep(s: State, e: Event) {
    || (e.Drained? && e.id in s.workers && s.workers[e.id].Draining?)
    || (e.DrainThrows? && e.id in s.workers && s.workers[e.id].Draining?)
    || (e.Resume? && e.id in s.workers && !s.workers[e.id].Draining? && s.workers[e.id] != Returned)
    || (e.Finally? && e.id in s.workers && s.workers[e.id] == Returned)
  }

  /** Once stopped, every step of the work brings it nearer its end, and no event sets it back. */
  lemma StoppedWorkEnds(s: State, e: Event)
    requires s.stopped && Inv(s)
    ensures var t := StepOn(s, e);
            t.stopped && Remaining(t) <= Remaining(s) && (WorkerStep(s, e) ==> Remaining(t) < Remaining(s))
  {
    if (e.Drained? || e.DrainThrows? || e.Resume? || e.Finally?) && e.id in s.workers {
      OnlyWorker(s, e.id);
    }
  }

  /** Some step is always possible while there is work, so a stop does resolve if its work keeps going. */
  lemma WorkCanStep(s: State)
    requires Inv(s) && s.work.Some?
    ensures exists e :: WorkerStep(s, e)
  {
    var id := s.work.value;
    assert id in s.workers.Keys;
    match s.workers[id]
    case Draining(_) => assert WorkerStep(s, DrainThrows(id));
    case Returned => assert WorkerStep(s, Finally(id));
    case _ => assert WorkerStep(s, Resume(id));
  }

  /** Nothing is left to do: no promise, no call, and the controller is stopped. */
  ghost predicate Quiet(s: State) { s.stopped && s.work.None? && s.workers == map[] }

  lemma {:induction false} StaysQuiet(s: State, more: seq<Event>)
    requires Quiet(s)
    ensures var t := Run(s, more); Quiet(t) && t.observer == s.observer && t.published == s.published
    decreases |more|
  {
    if more != [] {
      StaysQuiet(StepOn(s, more[0]), more[1..]);
    }
  }

  /**
   * In every run, at the moment a stop can resolve, the promise it found, if any, having settled, no call
   * is in flight and no promise is left; and from then on none ever starts again, whatever happens: the
   * live observer and what is published stay.
   */
  lemma StoppedForGood(events: seq<Event>, k: nat, more: seq<Event>)
    requires CanResolve(Run(INITIAL, events), k)
    ensures var s := Run(INITIAL, events);
            var t := Run(StepOn(s, StopResolves(k)), more);
            && Quiet(s) && InFlight(s) == {} && k in StepOn(s, StopResolves(k)).resolved
            && Quiet(t) && InFlight(t) == {} && t.observer == s.observer && t.published == s.published
  {
    RunKeeps(INITIAL, events);
    var s := Run(INITIAL, events);
    assert s.work.None? by {
      if s.work.Some? {
        assert s.stops[k] == s.work && s.work.value in s.workers.Keys;
      }
    }
    assert s.workers.Keys == {};
    var resolved := StepOn(s, StopResolves(k));
    StaysQuiet(resolved, more);
  }

  /** The same read off the history: as soon as any stop has resolved, the controller is quiet. */
  lemma ResolvedMeansQuiet(events: seq<Event>)
    requires Run(INITIAL, events).resolved != {}
    ensures Quiet(Run(INITIAL, events))
  {
    RunKeeps(INITIAL, events);
    var s := Run(INITIAL, events);
    hide Run;
    var k :| k in s.resolved;
    assert s.workers.Keys == {};
  }

  // ---- Publishing "active" -----------------------------------------------------------------------------------

  /** The gap: the sweeper has made an observer and the call has not yet taken it up. */
  predicate InGap(s: State) { s.work.Some? && s.work.value in s.workers && s.workers[s.work.value].Made? }

  predicate AskedAfter(s: State, asked: bool, e: Event) {
    if !InGap(s) && InGap(StepOn(s, e)) then false else asked || (e == RequestApply && InGap(s))
  }

  /** Whether a request fell into the last gap so far; each new observer opens a new gap. */
  predicate GapAsked(s: State, asked: bool, events: seq<Event>)
    decreases |events|
  {
    if events == [] then asked
    else
      GapAsked(StepOn(s, events[0]), AskedAfter(s, asked, events[0]), events[1..])
  }

  /** What the answer to that question says about a state. */
  ghost predicate Tells(s: State, asked: bool) {
    !s.stopped ==>
      && (s.published == Active ==> (s.observer == s.revision <==> !asked))
      && (InGap(s) ==> (s.workers[s.work.value].revision == s.revision <==> !asked))
  }

  lemma {:induction false} GapTells(s: State, asked: bool, events: seq<Event>)
    requires Inv(s) && Tells(s, asked)
    ensures Tells(Run(s, events), GapAsked(s, asked, events))
    decreases |events|
  {
    if events != [] {
      var e := events[0];
      StepKeeps(s, e);
      StepTells(s, asked, e);
      hide *;
      GapStep(s, asked, events);
      GapTells(StepOn(s, e), AskedAfter(s, asked, e), events[1..]);
    }
  }

  lemma GapStep(s: State, asked: bool, events: seq<Event>)
    requires events != []
    ensures GapAsked(s, asked, events) == GapAsked(StepOn(s, events[0]), AskedAfter(s, asked, events[0]), events[1..])
    ensures Run(s, events) == Run(StepOn(s, events[0]), events[1..])
  {
    hide StepOn; hide AskedAfter;
  }

  lemma StepTells(s: State, asked: bool, e: Event)
    requires Inv(s) && Tells(s, asked)
    ensures Tells(StepOn(s, e), AskedAfter(s, asked, e))
  {
    if (e.Drained? || e.DrainThrows? || e.Resume? || e.Finally?) && e.id in s.workers {
      OnlyWorker(s, e.id);
    }
    if s.work.Some? {
      assert s.work.value in s.workers.Keys;
    }
  }

  /**
   * The call publishes "active" without looking at the revision again. In every run, at every published
   * "active" before a stop, the live observer has the latest settings if and only if no request fell into
   * the gap in which that observer, the last one made, waited to be taken up.
   */
  lemma ActiveIsCurrentIff(events: seq<Event>)
    requires !Run(INITIAL, events).stopped && Run(INITIAL, events).published == Active
    ensures var s := Run(INITIAL, events);
            s.observer == s.revision <==> !GapAsked(INITIAL, false, events)
  {
    GapTells(INITIAL, false, events);
  }

  /** The request that falls into the gap is lost: "active" with an old observer and no work left. */
  lemma LostRequest(events: seq<Event>)
    requires events == [RequestApply, Drained(0, true), RequestApply, Resume(0)]
    ensures var s := StepOn(Run(INITIAL, events), Finally(0));
            && !s.stopped && s.published == Active && s.observer == 1 && s.revision == 2
            && s.work.None? && s.workers == map[]
  {
    var s1 := StepOn(INITIAL, RequestApply);
    var s2 := StepOn(s1, Drained(0, true));
    var s3 := StepOn(s2, RequestApply);
    var s4 := StepOn(s3, Resume(0));
    assert s1.workers == map[0 := Draining(1)] && s2.workers == s3.workers == map[0 := Made(1)];
    assert s4.workers == map[0 := Returned];
    FourSteps(INITIAL, events);
    assert s4.workers - {0} == map[];
  }

  // ---- The controller object ------------------------------------------------------------------------------------

  /** The controller's fields, and beside them the history of its promises and stops. */
  class ObserverRuntimeController {
    var revision: nat
    var work: Option<nat>
    var stopped: bool
    var published: Published
    var activeObserver: nat
    var workers: map<nat, Phase>
    var next: nat
    var stops: seq<Option<nat>>
    var resolved: set<nat>

    constructor ()
      ensures Abstract() == INITIAL
    {
      revision, work, stopped, published, activeObserver := 0, None, false, Active, 0;
      workers, next, stops, resolved := map[], 0, [], {};
    }

    function Abstract(): State
      reads this
    {
      State(revision, work, stopped, published, activeObserver, workers, next, stops, resolved)
    }

    method RequestApply() returns (accepted: bool)
      modifies this
      ensures Abstract() == StepOn(old(Abstract()), Event.RequestApply)
      ensures accepted == !old(stopped)
    {
      if stopped {
        return false;
      }
      revision := revision + 1;
      published := Applying;
      BeginWork();
      accepted := true;
    }

    method BeginWork()
      modifies this`work, this`workers, this`next
      ensures Abstract() == StartWork(old(Abstract()))
    {
      if work.Some? {
        return;
      }
      var id := next;
      next := next + 1;
      work := Some(id);
      NextTurn(id);
    }

    method NextTurn(id: nat)
      modifies this`workers
      ensures Abstract() == Loop(old(Abstract()), id)
    {
      workers := workers[id := if stopped then Returned else Draining(revision)];
    }

    /** The sweeper's answer, with the controller's callback asked in the middle. */
    method SweeperAnswers(id: nat, creates: bool)
      requires id in workers && workers[id].Draining?
      modifies this`workers
      ensures Abstract() == StepOn(old(Abstract()), Drained(id, creates))
    {
      var observed := workers[id].revision;
      if stopped || revision != observed {
        workers := workers[id := Refused(observed)];
      } else if creates {
        workers := workers[id := Made(observed)];
      } else {
        workers := workers[id := Threw(observed)];
      }
    }

    /** The part of `applyLatest` after its await. */
    method ContinueWork(id: nat)
      requires id in workers && !workers[id].Draining? && workers[id] != Returned
      modifies this
      ensures Abstract() == StepOn(old(Abstract()), Resume(id))
    {
      match workers[id]
      case Refused(_) =>
        NextTurn(id);
      case Made(observed) =>
        activeObserver := observed;
        published := Active;
        workers := workers[id := Returned];
      case Threw(observed) =>
        if observed != revision {
          NextTurn(id);
        } else {
          published := FailedToApply;
          workers := workers[id := Returned];
        }
    }

    method WorkSettled(id: nat)
      requires id in workers && workers[id] == Returned
      modifies this
      ensures Abstract() == StepOn(old(Abstract()), Finally(id))
    {
      workers := workers - {id};
      work := None;
      if !stopped && published == Applying {
        BeginWork();
      }
    }

    /** `stop` up to its await; `k` numbers the call. */
    method StopRequested() returns (k: nat)
      modifies this
      ensures Abstract() == StepOn(old(Abstract()), Stop)
      ensures k == old(|stops|) && stops[k] == old(work)
    {
      stopped := true;
      revision := revision + 1;
      k := |stops|;
      stops := stops + [work];
    }

    /** `stop` after its await, which continues only when the promise it found has settled. */
    method StopContinues(k: nat)
      requires CanResolve(Abstract(), k)
      modifies this`resolved
      ensures Abstract() == StepOn(old(Abstract()), StopResolves(k))
    {
      resolved := resolved + {k};
    }
  }
}
