/**
 * The configured coordinator worker: three writers share one binding pin, one worker is built across an
 * await and cached, and requests interleave at every await. Code between awaits is one step.
 */
module BindingPin {
  import opened Collections

  const MAX_CONFIG_LENGTH := 8192

  /** A binding of the environment. Databases are compared by identity, texts by value. */
  datatype Value = Absent | Database(identity: nat) | Text(text: string)

  /** The four bindings that the pin compares. */
  datatype Env = Env(db: Value, config: Value, clientSecret: Value, csrfKey: Value)

  datatype Settings = Disabled | Invalid | Enabled(ownerEnrollment: bool)

  /** Reads a configuration text of acceptable length with its two secrets. */
  type Reader = (string, Value, Value) -> Settings

  function ConfiguredBindings(env: Env): seq<Value> { [env.db, env.config, env.clientSecret, env.csrfKey] }

  predicate SameBindings(first: seq<Value>, second: seq<Value>) {
    |first| == |second| && forall i :: 0 <= i < |first| ==> first[i] == second[i]
  }

  lemma SameBindingsMeansSameEnv(env: Env, other: Env)
    ensures SameBindings(ConfiguredBindings(env), ConfiguredBindings(other)) <==> env == other
  {
    var first, second := ConfiguredBindings(env), ConfiguredBindings(other);
    if SameBindings(first, second) {
      assert first[0] == second[0] && first[1] == second[1] && first[2] == second[2] && first[3] == second[3];
    }
  }

  function Capture(read: Reader, env: Env): Settings {
    match env.config
    case Absent => Disabled
    case Text(raw) => if |raw| > MAX_CONFIG_LENGTH then Invalid else read(raw, env.clientSecret, env.csrfKey)
    case Database(_) => Invalid
  }

  /** No configuration is a disabled one; one that is no text of at most 8192 characters is invalid, whoever reads. */
  lemma CaptureMeans(read: Reader, env: Env)
    ensures env.config == Absent ==> Capture(read, env) == Disabled
    ensures env.config != Absent && (env.config.Text? ==> |env.config.text| >= 8193) ==> Capture(read, env) == Invalid
    ensures env.config.Text? && |env.config.text| < 8193 ==>
              Capture(read, env) == read(env.config.text, env.clientSecret, env.csrfKey)
  {
  }

  // ---- The transition system -------------------------------------------------------------------------------

  datatype Route = Qualification | Revocation | Browser | Admission | Scheduled

  /** Who answers a request: a cached worker with the environment it was built from, or one of the others. */
  datatype Handler =
    | Cached(builtFrom: Env)
    | DisabledWorker
    | Unavailable
    | AdmissionOff
    | QualificationReady
    | QualificationClosed
    | RevocationReady
    | RevocationClosed

  datatype Answer = Answer(env: Env, handler: Handler)

  /**
   * `completed` is the environment of the cached worker and `inner` the database that worker pinned for
   * itself; `building` are the requests awaiting a worker of their own; `answers` records the run.
   */
  datatype State = State(
    pin: Option<seq<Value>>, completed: Option<Env>, inner: Option<Value>, building: seq<Env>, answers: seq<Answer>)

  const INITIAL := State(None, None, None, [], [])

  datatype Event =
    | Arrives(route: Route, env: Env)
    // The k-th awaited build resolves with a worker, or throws.
    | Built(k: nat, ok: bool)
    // The k-th answer, by the cached worker, reaches that worker's own database pin.
    | Binds(k: nat)

  predicate Admits(pin: Option<seq<Value>>, env: Env) {
    pin.None? || SameBindings(pin.value, ConfiguredBindings(env))
  }

  function Pinned(pin: Option<seq<Value>>, env: Env): Option<seq<Value>> {
    if pin.Some? then pin else Some(ConfiguredBindings(env))
  }

  function Replied(s: State, env: Env, handler: Handler): State {
    s.(answers := s.answers + [Answer(env, handler)])
  }

  predicate QualificationOpen(read: Reader, s: State, env: Env) {
    env.db.Database? && Capture(read, env).Enabled? && Capture(read, env).ownerEnrollment && Admits(s.pin, env)
  }

  predicate RevocationOpen(read: Reader, s: State, env: Env) {
    env.db.Database? && Capture(read, env).Enabled? && Admits(s.pin, env)
  }

  /** `configured` up to its await. */
  function Configure(read: Reader, s: State, env: Env): State {
    if !Admits(s.pin, env) then Replied(s, env, Unavailable)
    else if Capture(read, env).Disabled? then Replied(s, env, DisabledWorker)
    else if Capture(read, env).Invalid? then Replied(s, env, Unavailable)
    else if s.completed.Some? then Replied(s, env, Cached(s.completed.value))
    else if !env.db.Database? then Replied(s, env, Unavailable)
    else s.(building := s.building + [env])
  }

  /** `configured` after its await. */
  function Continue(s: State, env: Env, ok: bool): State {
    if !ok || !Admits(s.pin, env) then Replied(s, env, Unavailable)
    else
      var worker := if s.completed.Some? then s.completed.value else env;
      Replied(s.(pin := Pinned(s.pin, env), completed := Some(worker)), env, Cached(worker))
  }

  function StepOn(read: Reader, s: State, e: Event): State {
    match e
    case Arrives(Qualification, env) =>
      if QualificationOpen(read, s, env) then Replied(s.(pin := Pinned(s.pin, env)), env, QualificationReady)
      else Replied(s, env, QualificationClosed)
    case Arrives(Revocation, env) =>
      if RevocationOpen(read, s, env) then Replied(s.(pin := Pinned(s.pin, env)), env, RevocationReady)
      else Replied(s, env, RevocationClosed)
    case Arrives(Browser, env) => Configure(read, s, env)
    case Arrives(Admission, env) =>
      var settings := Capture(read, env);
      if settings.Disabled? || (settings.Enabled? && !settings.ownerEnrollment) then Replied(s, env, AdmissionOff)
      else Configure(read, s, env)
    case Arrives(Scheduled, env) =>
      if Capture(read, env).Disabled? then Replied(s, env, DisabledWorker) else Configure(read, s, env)
    case Built(k, ok) =>
      if k >= |s.building| then s
      else Continue(s.(building := s.building[..k] + s.building[k + 1..]), s.building[k], ok)
    case Binds(k) =>
      if k >= |s.answers| || !s.answers[k].handler.Cached? then s
      else s.(inner := if s.inner.None? then InnerBinding(s.inner, s.answers[k].env) else s.inner)
  }

  /** The cached worker's own check: the database it works on, or nothing when it refuses this one. */
  function InnerBinding(inner: Option<Value>, env: Env): Option<Value> {
    if !env.db.Database? || (inner.Some? && inner.value != env.db) then None else Some(env.db)
  }

  function Run(read: Reader, s: State, events: seq<Event>): State
    decreases |events|
  {
    if events == [] then s else Run(read, StepOn(read, s, events[0]), events[1..])
  }

  // ---- What every run keeps --------------------------------------------------------------------------------

  /** An answer given with configured authority. */
  predicate Configured(handler: Handler) {
    handler.Cached? || handler == QualificationReady || handler == RevocationReady
  }

  /** A usable configuration: a database and enabled settings. */
  predicate Usable(read: Reader, env: Env) { env.db.Database? && Capture(read, env).Enabled? }

  /** What the state must hold for an answer already given. */
  ghost predicate Backed(s: State, a: Answer) {
    && (Configured(a.handler) ==> s.pin == Some(ConfiguredBindings(a.env)))
    && (a.handler.Cached? ==> s.completed == Some(a.handler.builtFrom))
  }

  ghost predicate Inv(read: Reader, s: State) {
    && (s.pin.Some? ==> exists env :: Usable(read, env) && s.pin.value == ConfiguredBindings(env))
    && (s.completed.Some? ==> s.pin == Some(ConfiguredBindings(s.completed.value)))
    && (s.inner.Some? ==> s.completed.Some? && s.inner.value == s.completed.value.db)
    && (forall i :: 0 <= i < |s.building| ==> Usable(read, s.building[i]))
    && (forall i :: 0 <= i < |s.answers| ==> Backed(s, s.answers[i]))
  }

  /** A pinned state keeps its pin and its worker; answers are only added. */
  ghost predicate Extends(s: State, t: State) {
    && (s.pin.Some? ==> t.pin == s.pin)
    && (s.completed.Some? ==> t.completed == s.completed)
    && s.answers <= t.answers
  }

  lemma SamePin(pin: Option<seq<Value>>, env: Env)
    requires pin.Some? && Admits(pin, env)
    ensures pin.value == ConfiguredBindings(env)
  {
  }

  lemma ConfigureKeeps(read: Reader, s: State, env: Env)
    requires Inv(read, s)
    ensures Inv(read, Configure(read, s, env)) && Extends(s, Configure(read, s, env))
  {
    if s.pin.Some? && Admits(s.pin, env) {
      SamePin(s.pin, env);
    }
  }

  lemma ContinueKeeps(read: Reader, s: State, env: Env, ok: bool)
    requires Inv(read, s) && Usable(read, env)
    ensures Inv(read, Continue(s, env, ok)) && Extends(s, Continue(s, env, ok))
  {
    if s.pin.Some? && Admits(s.pin, env) {
      SamePin(s.pin, env);
    }
  }

  lemma AuthorityKeeps(read: Reader, s: State, env: Env, handler: Handler)
    requires Inv(read, s) && Usable(read, env) && Admits(s.pin, env)
    requires handler == QualificationReady || handler == RevocationReady
    ensures var t := Replied(s.(pin := Pinned(s.pin, env)), env, handler); Inv(read, t) && Extends(s, t)
  {
    if s.pin.Some? {
      SamePin(s.pin, env);
    }
  }

  lemma BindsKeeps(read: Reader, s: State, k: nat)
    requires Inv(read, s)
    ensures Inv(read, StepOn(read, s, Binds(k))) && Extends(s, StepOn(read, s, Binds(k)))
  {
    if k < |s.answers| && s.answers[k].handler.Cached? {
      assert Backed(s, s.answers[k]);
      SameBindingsMeansSameEnv(s.answers[k].env, s.completed.value);
    }
  }

  /** An answer without configured authority needs no backing. */
  lemma ReplyKeeps(read: Reader, s: State, env: Env, handler: Handler)
    requires Inv(read, s) && !Configured(handler)
    ensures Inv(read, Replied(s, env, handler)) && Extends(s, Replied(s, env, handler))
  {
  }

  lemma BuiltKeeps(read: Reader, s: State, k: nat, ok: bool)
    requires Inv(read, s) && k < |s.building|
    ensures Inv(read, StepOn(read, s, Built(k, ok))) && Extends(s, StepOn(read, s, Built(k, ok)))
  {
    hide Continue;
    var resumed := s.(building := s.building[..k] + s.building[k + 1..]);
    assert Inv(read, resumed) by {
      forall i | 0 <= i < |s.answers| ensures Backed(resumed, s.answers[i]) {
        assert Backed(s, s.answers[i]);
      }
    }
    ContinueKeeps(read, resumed, s.building[k], ok);
  }

  lemma StepKeeps(read: Reader, s: State, e: Event)
    requires Inv(read, s)
    ensures Inv(read, StepOn(read, s, e)) && Extends(s, StepOn(read, s, e))
  {
    match e
    case Binds(k) => BindsKeeps(read, s, k);
    case Built(k, ok) =>
      if k < |s.building| {
        BuiltKeeps(read, s, k, ok);
      }
    case Arrives(route, env) => ArrivalKeeps(read, s, route, env);
  }

  lemma ArrivalKeeps(read: Reader, s: State, route: Route, env: Env)
    requires Inv(read, s)
    ensures var t := StepOn(read, s, Arrives(route, env)); Inv(read, t) && Extends(s, t)
  {
    hide Inv; hide Extends; hide Configure; hide Replied; hide Pinned; hide Admits;
    match route
    case Qualification =>
      if QualificationOpen(read, s, env) {
        AuthorityKeeps(read, s, env, QualificationReady);
      } else {
        ReplyKeeps(read, s, env, QualificationClosed);
      }
    case Revocation =>
      if RevocationOpen(read, s, env) {
        AuthorityKeeps(read, s, env, RevocationReady);
      } else {
        ReplyKeeps(read, s, env, RevocationClosed);
      }
    case _ =>
      ConfigureKeeps(read, s, env);
      ReplyKeeps(read, s, env, AdmissionOff);
      ReplyKeeps(read, s, env, DisabledWorker);
  }

  /** Under every interleaving the pin is written at most once, and so is the cached worker. */
  lemma {:induction false} PinIsWriteOnce(read: Reader, s: State, events: seq<Event>)
    requires Inv(read, s)
    ensures Inv(read, Run(read, s, events)) && Extends(s, Run(read, s, events))
    decreases |events|
  {
    hide Inv; hide StepOn;
    if events != [] {
      StepKeeps(read, s, events[0]);
      PinIsWriteOnce(read, StepOn(read, s, events[0]), events[1..]);
    }
  }

  /**
   * Every request that the cached worker answers carries exactly the bindings that worker was built from,
   * and these are the pinned ones.
   */
  lemma CachedWorkerServesItsOwn(read: Reader, events: seq<Event>, i: nat)
    requires i < |Run(read, INITIAL, events).answers| && Run(read, INITIAL, events).answers[i].handler.Cached?
    ensures var s := Run(read, INITIAL, events);
            && s.answers[i].env == s.answers[i].handler.builtFrom
            && s.pin == Some(ConfiguredBindings(s.answers[i].env))
  {
    PinIsWriteOnce(read, INITIAL, events);
    var s := Run(read, INITIAL, events);
    assert Backed(s, s.answers[i]);
    SameBindingsMeansSameEnv(s.answers[i].env, s.answers[i].handler.builtFrom);
  }

  /**
   * Whatever the route, all requests of a run that were answered with configured authority carry one and
   * the same environment, which has a database and enabled settings.
   */
  lemma ConfiguredAnswersAgree(read: Reader, events: seq<Event>, i: nat, j: nat)
    requires i < |Run(read, INITIAL, events).answers| && j < |Run(read, INITIAL, events).answers|
    requires Configured(Run(read, INITIAL, events).answers[i].handler)
    requires Configured(Run(read, INITIAL, events).answers[j].handler)
    ensures var s := Run(read, INITIAL, events);
            s.answers[i].env == s.answers[j].env && Usable(read, s.answers[i].env)
  {
    PinIsWriteOnce(read, INITIAL, events);
    var s := Run(read, INITIAL, events);
    assert Backed(s, s.answers[i]) && Backed(s, s.answers[j]);
    var env :| Usable(read, env) && s.pin.value == ConfiguredBindings(env);
    SameBindingsMeansSameEnv(s.answers[i].env, s.answers[j].env);
    SameBindingsMeansSameEnv(s.answers[i].env, env);
  }

  /** The cached worker's own database pin can never refuse a request that reached it. */
  lemma InnerPinNeverRefuses(read: Reader, events: seq<Event>, i: nat)
    requires i < |Run(read, INITIAL, events).answers| && Run(read, INITIAL, events).answers[i].handler.Cached?
    ensures var s := Run(read, INITIAL, events);
            InnerBinding(s.inner, s.answers[i].env) == Some(s.answers[i].handler.builtFrom.db)
  {
    CachedWorkerServesItsOwn(read, events, i);
    ConfiguredAnswersAgree(read, events, i, i);
    PinIsWriteOnce(read, INITIAL, events);
    var s := Run(read, INITIAL, events);
    assert Backed(s, s.answers[i]);
  }

  // ---- Drift ------------------------------------------------------------------------------------------------

  /**
   * Once pinned, no route gives other bindings anything, neither a disabled or invalid configuration nor
   * another usable one, on arrival or when an awaited build resolves; the one exception is a disabled
   * configuration on the scheduled route.
   */
  lemma DriftIsRefused(read: Reader, s: State, e: Event, env: Env)
    requires s.pin.Some? && s.pin.value != ConfiguredBindings(env)
    requires || (e.Arrives? && e.env == env && (e.route != Scheduled || !Capture(read, env).Disabled?))
             || (e.Built? && e.k < |s.building| && s.building[e.k] == env)
    ensures var t := StepOn(read, s, e);
            && t.pin == s.pin && t.completed == s.completed
            && t.answers == s.answers + [Answer(env, t.answers[|s.answers|].handler)]
            && t.answers[|s.answers|].handler in {Unavailable, AdmissionOff, QualificationClosed, RevocationClosed}
  {
    if Admits(s.pin, env) {
      SamePin(s.pin, env);
    }
  }

  /**
   * Once a worker is cached, a browser request is served by it exactly when it carries the pinned
   * bindings; nothing is built any more.
   */
  lemma ServedIffPinned(read: Reader, s: State, env: Env)
    requires Inv(read, s) && s.completed.Some?
    ensures var t := StepOn(read, s, Arrives(Browser, env));
            && t.building == s.building && |t.answers| == |s.answers| + 1
            && (t.answers[|s.answers|].handler == Cached(s.completed.value) <==> env == s.completed.value)
            && (t.answers[|s.answers|].handler == Unavailable <==> env != s.completed.value)
  {
    SameBindingsMeansSameEnv(s.completed.value, env);
    var pinned :| Usable(read, pinned) && s.pin.value == ConfiguredBindings(pinned);
    SameBindingsMeansSameEnv(s.completed.value, pinned);
  }

  /**
   * Builds race: of two requests that both awaited a worker with the same bindings, whichever resolves
   * first gives its worker to both, whatever happens in between.
   */
  lemma FirstBuildWins(read: Reader, s: State, env: Env, events: seq<Event>)
    requires Inv(read, s) && Usable(read, env) && Admits(s.pin, env)
    ensures var first := Continue(s, env, true);
            var between := Run(read, first, events);
            var second := Continue(between, env, true);
            && first.completed == Some(env) && second.completed == Some(env)
            && second.answers[|second.answers| - 1] == Answer(env, Cached(env))
  {
    ContinueKeeps(read, s, env, true);
    var first := Continue(s, env, true);
    if s.completed.Some? {
      SamePin(s.pin, env);
      SameBindingsMeansSameEnv(s.completed.value, env);
    }
    assert first.pin == Some(ConfiguredBindings(env)) by {
      if s.pin.Some? {
        SamePin(s.pin, env);
      }
    }
    PinIsWriteOnce(read, first, events);
  }

  /** The scheduled route looks at the settings before the pin: a disabled configuration is served, pinned or not. */
  lemma ScheduledBypassesThePin(read: Reader, s: State, env: Env)
    requires Capture(read, env) == Disabled
    ensures StepOn(read, s, Arrives(Scheduled, env)) == s.(answers := s.answers + [Answer(env, DisabledWorker)])
    ensures StepOn(read, s, Arrives(Browser, env)) == StepOn(read, s, Arrives(Scheduled, env)) <==> Admits(s.pin, env)
  {
    assert Answer(env, DisabledWorker) != Answer(env, Unavailable);
    var n := |s.answers|;
    assert (s.answers + [Answer(env, DisabledWorker)])[n] != (s.answers + [Answer(env, Unavailable)])[n];
  }

  // ---- The closures -------------------------------------------------------------------------------------------

  /** The variables that the closures share. `building` holds the continuations of awaited builds. */
  class ConfiguredWorker {
    const read: Reader
    var pin: Option<seq<Value>>
    var completed: Option<Env>
    var pinnedDb: Option<Value>
    var building: seq<Env>
    var answers: seq<Answer>

    constructor (read: Reader)
      ensures this.read == read && Current() == INITIAL
    {
      this.read := read;
      pin, completed, pinnedDb, building, answers := None, None, None, [], [];
    }

    function Current(): State
      reads this
    {
      State(pin, completed, pinnedDb, building, answers)
    }

    method Reply(env: Env, handler: Handler)
      modifies this`answers
      ensures answers == old(answers) + [Answer(env, handler)]
    {
      answers := answers + [Answer(env, handler)];
    }

    method FetchOwnerQualification(env: Env)
      modifies this`pin, this`answers
      ensures Current() == StepOn(read, old(Current()), Arrives(Qualification, env))
    {
      var bindings := ConfiguredBindings(env);
      var settings := Capture(read, env);
      var available := env.db.Database? && settings.Enabled? && settings.ownerEnrollment;
      if available && pin.Some? {
        available := SameBindings(pin.value, bindings);
      }
      if !available {
        Reply(env, QualificationClosed);
        return;
      }
      if pin.None? {
        pin := Some(bindings);
      }
      Reply(env, QualificationReady);
    }

    method ConfiguredRevocation(env: Env)
      modifies this`pin, this`answers
      ensures Current() == StepOn(read, old(Current()), Arrives(Revocation, env))
    {
      var bindings := ConfiguredBindings(env);
      var ready := Capture(read, env).Enabled? && env.db.Database?;
      if ready && pin.Some? {
        ready := SameBindings(pin.value, bindings);
      }
      if ready && pin.None? {
        pin := Some(bindings);
      }
      Reply(env, if ready then RevocationReady else RevocationClosed);
    }

    /** `configured` up to its await. */
    method BeginConfigured(env: Env)
      modifies this`building, this`answers
      ensures Current() == Configure(read, old(Current()), env)
    {
      var bindings := ConfiguredBindings(env);
      if pin.Some? && !SameBindings(pin.value, bindings) {
        Reply(env, Unavailable);
        return;
      }
      match Capture(read, env)
      case Disabled => Reply(env, DisabledWorker);
      case Invalid => Reply(env, Unavailable);
      case Enabled(_) =>
        if completed.Some? {
          Reply(env, Cached(completed.value));
        } else if !env.db.Database? {
          Reply(env, Unavailable);
        } else {
          building := building + [env];
        }
    }

    /** `fetchConfiguredWorker`; the admission route looks at the settings first. */
    method FetchConfiguredWorker(env: Env, admission: bool)
      modifies this`building, this`answers
      ensures Current() == StepOn(read, old(Current()), Arrives(if admission then Admission else Browser, env))
    {
      if admission {
        var settings := Capture(read, env);
        if settings.Disabled? || (settings.Enabled? && !settings.ownerEnrollment) {
          Reply(env, AdmissionOff);
          return;
        }
      }
      BeginConfigured(env);
    }

    method RunScheduled(env: Env)
      modifies this`building, this`answers
      ensures Current() == StepOn(read, old(Current()), Arrives(Scheduled, env))
    {
      if Capture(read, env).Disabled? {
        Reply(env, DisabledWorker);
        return;
      }
      BeginConfigured(env);
    }

    /** `configured` after its await: the k-th build resolved, or threw. */
    method ResumeConfigured(k: nat, ok: bool)
      requires k < |building|
      modifies this
      ensures Current() == StepOn(read, old(Current()), Built(k, ok))
    {
      var env := building[k];
      building := building[..k] + building[k + 1..];
      var bindings := ConfiguredBindings(env);
      if !ok {
        Reply(env, Unavailable);
        return;
      }
      if pin.Some? && !SameBindings(pin.value, bindings) {
        Reply(env, Unavailable);
        return;
      }
      if pin.None? {
        pin := Some(bindings);
      }
      if completed.None? {
        completed := Some(env);
      }
      Reply(env, Cached(completed.value));
    }

    /** The cached worker's `pinBinding`, when the k-th answer, one of its own, reaches it. */
    method PinBinding(k: nat) returns (db: Option<Value>)
      requires k < |answers| && answers[k].handler.Cached?
      modifies this`pinnedDb
      ensures Current() == StepOn(read, old(Current()), Binds(k))
      ensures db == InnerBinding(old(pinnedDb), answers[k].env)
    {
      var env := answers[k].env;
      if !env.db.Database? || (pinnedDb.Some? && pinnedDb.value != env.db) {
        return None;
      }
      if pinnedDb.None? {
        pinnedDb := Some(env.db);
      }
      db := pinnedDb;
    }
  }
}
