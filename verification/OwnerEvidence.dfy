/**
 * Create-only owner evidence: concurrent publishers and readers of one generation share a file
 * system in which a file, once created, is never replaced. Every file access is one step.
 */
module OwnerEvidence {
  import opened Collections

  /** The eight pinned fields, `databaseFile` being device and inode. */
  datatype Pins = Pins(
    databaseFile: string, deviceId: string, keyId: string, fingerprint: string,
    actorId: string, coordinatorUrl: string, coordinatorId: string, groupId: string)

  datatype Association = Association(pins: Pins, ownerIdentityId: string, attestationId: string, reviewDigest: string)

  /** A file the reader accepts, or one it must refuse: malformed, unsafe or owned by somebody else. */
  datatype File = Sound(record: Association) | Unsafe

  datatype Directory = Missing | Private | UnsafeDirectory

  datatype FileSystem = FileSystem(files: map<string, File>, directory: Directory)

  /**
   * A captured generation. The older paths depend on how the database was named; the current path is
   * a function of the pins alone.
   */
  datatype Generation = Generation(pins: Pins, legacyPath: string, previousPaths: seq<string>, path: string)

  datatype Found = Found(record: Association, path: string)

  // ---- readGeneration, one file at a time ----------------------------------------------------------

  datatype Verdict = Continue(found: Option<Found>) | Invalid

  /** One turn of the loop over the older and current paths. */
  function Consider(files: map<string, File>, pins: Pins, path: string, found: Option<Found>): Verdict {
    if path !in files then Continue(found)
    else
      match files[path]
      case Unsafe => Invalid
      case Sound(record) =>
        if record.pins != pins || (found.Some? && found.value.record != record) then Invalid
        else Continue(Some(Found(record, path)))
  }

  /** What the read answers once every path has been considered. */
  function Answer(g: Generation, legacy: Option<Association>, found: Option<Found>): Option<Found> {
    if found.Some? then found
    else if legacy.Some? && legacy.value.pins == g.pins then Some(Found(legacy.value, g.legacyPath))
    else None
  }

  /** The files at these paths are sound, carry these pins and agree with each other. */
  ghost predicate Agreeing(files: map<string, File>, pins: Pins, paths: seq<string>) {
    && (forall path :: path in paths && path in files ==> files[path].Sound? && files[path].record.pins == pins)
    && (forall p, q :: p in paths && q in paths && p in files && q in files ==> files[p] == files[q])
  }

  /** What the loop knows after these paths: they agree, and the last one that exists is found. */
  ghost predicate Considered(files: map<string, File>, pins: Pins, paths: seq<string>, found: Option<Found>) {
    && Agreeing(files, pins, paths)
    && (found.None? <==> forall path :: path in paths ==> path !in files)
    && (found.Some? ==> found.value.path in paths && found.value.path in files
                        && files[found.value.path] == Sound(found.value.record))
    && (paths != [] && paths[|paths| - 1] in files ==> found.Some? && found.value.path == paths[|paths| - 1])
  }

  /** One more path: it is refused exactly when it spoils the agreement. */
  lemma ConsiderOne(files: map<string, File>, pins: Pins, paths: seq<string>, path: string, found: Option<Found>)
    requires Considered(files, pins, paths, found)
    ensures match Consider(files, pins, path, found)
            case Invalid => !Agreeing(files, pins, paths + [path])
            case Continue(more) => Considered(files, pins, paths + [path], more)
  {
    var after := paths + [path];
    assert path in after && forall p :: p in after <==> p in paths || p == path;
  }

  lemma PrefixAgrees(files: map<string, File>, pins: Pins, paths: seq<string>, i: nat)
    requires i <= |paths| && Agreeing(files, pins, paths)
    ensures Agreeing(files, pins, paths[..i])
  {
    assert forall p :: p in paths[..i] ==> p in paths;
  }

  function PathsToRead(fs: FileSystem, g: Generation): seq<string> {
    g.previousPaths + (if fs.directory == Private then [g.path] else [])
  }

  /** The legacy file is readable and carries these pins. */
  predicate OwnLegacy(fs: FileSystem, g: Generation) {
    g.legacyPath in fs.files && fs.files[g.legacyPath].Sound? && fs.files[g.legacyPath].record.pins == g.pins
  }

  /** The answer is held by every file that exists, and the current path has the last word. */
  ghost predicate Answers(fs: FileSystem, g: Generation, answer: Option<Found>) {
    var paths := PathsToRead(fs, g);
    if exists path :: path in paths && path in fs.files then
      && answer.Some? && answer.value.path in paths && answer.value.path in fs.files
      && (forall path :: path in paths && path in fs.files ==> fs.files[path] == Sound(answer.value.record))
      && (g.path in fs.files && fs.directory == Private ==> answer.value.path == g.path)
    else
      answer == if OwnLegacy(fs, g) then Some(Found(fs.files[g.legacyPath].record, g.legacyPath)) else None
  }

  lemma ConsideredAnswers(fs: FileSystem, g: Generation, legacy: Option<Association>, found: Option<Found>)
    requires Considered(fs.files, g.pins, PathsToRead(fs, g), found)
    requires legacy.Some? <==> g.legacyPath in fs.files
    requires legacy.Some? ==> fs.files[g.legacyPath] == Sound(legacy.value)
    ensures Answers(fs, g, Answer(g, legacy, found))
  {
    var paths := PathsToRead(fs, g);
    assert fs.directory == Private ==> paths[|paths| - 1] == g.path;
  }

  /**
   * `readGeneration` when nothing else happens meanwhile. It fails exactly when some file is refused,
   * belongs to other pins or contradicts another; otherwise the last path that exists answers, and
   * only when none does may the legacy file.
   */
  method ReadGeneration(fs: FileSystem, g: Generation) returns (answer: Result<Option<Found>, ()>)
    ensures answer.Ok? <==>
              && (g.legacyPath in fs.files ==> fs.files[g.legacyPath].Sound?)
              && fs.directory != UnsafeDirectory && Agreeing(fs.files, g.pins, PathsToRead(fs, g))
    ensures answer.Ok? ==> Answers(fs, g, answer.value)
  {
    hide Considered; hide Agreeing; hide Answers; hide Consider;
    var legacy := None;
    if g.legacyPath in fs.files {
      if fs.files[g.legacyPath].Unsafe? {
        return Err(());
      }
      legacy := Some(fs.files[g.legacyPath].record);
    }
    if fs.directory == UnsafeDirectory {
      return Err(());
    }
    var paths := PathsToRead(fs, g);
    var found: Option<Found> := None;
    NothingConsidered(fs.files, g.pins);
    for i := 0 to |paths|
      invariant Considered(fs.files, g.pins, paths[..i], found)
      invariant Agreeing(fs.files, g.pins, paths[..i])
    {
      assert paths[..i + 1] == paths[..i] + [paths[i]];
      ConsiderOne(fs.files, g.pins, paths[..i], paths[i], found);
      var verdict := Consider(fs.files, g.pins, paths[i], found);
      if verdict.Invalid? {
        if Agreeing(fs.files, g.pins, paths) {
          PrefixAgrees(fs.files, g.pins, paths, i + 1);
        }
        return Err(());
      }
      found := verdict.found;
      ConsideredAgrees(fs.files, g.pins, paths[..i + 1], found);
    }
    assert paths[..|paths|] == paths;
    ConsideredAnswers(fs, g, legacy, found);
    answer := Ok(Answer(g, legacy, found));
  }

  lemma NothingConsidered(files: map<string, File>, pins: Pins)
    ensures Considered(files, pins, [], None) && Agreeing(files, pins, [])
  {
  }

  lemma ConsideredAgrees(files: map<string, File>, pins: Pins, paths: seq<string>, found: Option<Found>)
    requires Considered(files, pins, paths, found)
    ensures Agreeing(files, pins, paths)
  {
  }

  // ---- Processes --------------------------------------------------------------------------------------

  datatype Phase =
    | ReadLegacy | CheckDirectory | ReadPath | Decide
    | MakeDirectory | Publish
    | Done(result: Option<Association>) | Failed

  /**
   * A retain of `goal`, or a plain read when there is none. `second` tells the read after publication
   * from the first; `begun` records the files when the current read began.
   */
  datatype Process = Process(
    goal: Option<Association>, g: Generation, phase: Phase, second: bool,
    legacy: Option<Association>, current: bool, index: nat, found: Option<Found>, existing: Option<Found>,
    begun: map<string, File>)

  function Start(goal: Option<Association>, g: Generation): Process {
    Process(goal, g, ReadLegacy, false, None, false, 0, None, None, map[])
  }

  function PathsOf(p: Process): seq<string> {
    p.g.previousPaths + (if p.current then [p.g.path] else [])
  }

  /** The next step of a process that does not fail on its own account. */
  function Advance(fs: FileSystem, p: Process): (FileSystem, Process) {
    match p.phase
    case ReadLegacy =>
      var q := p.(begun := fs.files, current := false, index := 0, found := None);
      if p.g.legacyPath in fs.files then
        match fs.files[p.g.legacyPath]
        case Unsafe => (fs, q.(phase := Failed))
        case Sound(record) => (fs, q.(legacy := Some(record), phase := CheckDirectory))
      else (fs, q.(legacy := None, phase := CheckDirectory))
    case CheckDirectory =>
      (match fs.directory
       case UnsafeDirectory => (fs, p.(phase := Failed))
       case Missing => (fs, p.(current := false, phase := ReadPath))
       case Private => (fs, p.(current := true, phase := ReadPath)))
    case ReadPath =>
      if p.index >= |PathsOf(p)| then (fs, p.(phase := Decide))
      else
        (match Consider(fs.files, p.g.pins, PathsOf(p)[p.index], p.found)
         case Invalid => (fs, p.(phase := Failed))
         case Continue(found) => (fs, p.(found := found, index := p.index + 1)))
    case Decide =>
      var answer := Answer(p.g, p.legacy, p.found);
      if p.goal.None? then
        (fs, p.(phase := Done(if answer.Some? then Some(answer.value.record) else None)))
      else if p.second then
        if answer.None? || answer.value.record != p.goal.value then (fs, p.(phase := Failed))
        else (fs, p.(phase := Done(Some(answer.value.record))))
      else if answer.Some? && answer.value.record != p.goal.value then (fs, p.(phase := Failed))
      else (fs, p.(existing := answer, phase := MakeDirectory))
    case MakeDirectory =>
      var made := if fs.directory == Missing then fs.(directory := Private) else fs;
      if made.directory != Private then (made, p.(phase := Failed))
      else if p.existing.Some? && p.existing.value.path == p.g.path then
        (made, p.(phase := Done(Some(p.existing.value.record))))
      else (made, p.(phase := Publish))
    case Publish =>
      if p.goal.None? || fs.directory == Missing then (fs, p.(phase := Failed))
      else (PublishFile(fs, p), p.(second := true, phase := ReadLegacy))
    case Done(_) => (fs, p)
    case Failed => (fs, p)
  }

  /** `retainOwnerState`: an atomic link that creates the file, or EEXIST and nothing. */
  function PublishFile(fs: FileSystem, p: Process): FileSystem
    requires p.goal.Some?
  {
    if p.g.path in fs.files then fs
    else fs.(files := fs.files[p.g.path := Sound(p.goal.value)])
  }

  // ---- The system ---------------------------------------------------------------------------------------

  datatype System = System(fs: FileSystem, processes: map<nat, Process>)

  datatype Action =
    | Spawn(id: nat, goal: Option<Association>, g: Generation)
    | Step(id: nat)
    // Any access, sync or currency check of a running process may fail.
    | Fail(id: nat)
    // The link is visible, then its directory sync or verification fails.
    | FailAfterPublish(id: nat)
    // Somebody else creates a file, readable or not, or changes the directory's mode.
    | Create(path: string, file: File)
    | Chmod(directory: Directory)

  predicate Running(p: Process) { !p.phase.Done? && !p.phase.Failed? }

  /** What `captureGeneration` guarantees, and `captureStoredAssociation` of the record to publish. */
  predicate Captured(goal: Option<Association>, g: Generation, location: Pins -> string) {
    g.path == location(g.pins) && (goal.Some? ==> goal.value.pins == g.pins)
  }

  ghost function Apply(s: System, a: Action, location: Pins -> string): System {
    match a
    case Spawn(id, goal, g) =>
      if id !in s.processes && Captured(goal, g, location)
      then s.(processes := s.processes[id := Start(goal, g)]) else s
    case Step(id) =>
      if id !in s.processes then s
      else
        var (fs, p) := Advance(s.fs, s.processes[id]);
        System(fs, s.processes[id := p])
    case Fail(id) =>
      if id !in s.processes || !Running(s.processes[id]) then s
      else s.(processes := s.processes[id := s.processes[id].(phase := Failed)])
    case FailAfterPublish(id) =>
      if id !in s.processes || s.processes[id].phase != Publish || s.processes[id].goal.None? ||
         s.fs.directory == Missing then s
      else System(PublishFile(s.fs, s.processes[id]), s.processes[id := s.processes[id].(phase := Failed)])
    case Create(path, file) =>
      // Nothing can be created inside a directory that does not exist.
      if path in s.fs.files || (s.fs.directory == Missing && exists pins :: location(pins) == path) then s
      else s.(fs := s.fs.(files := s.fs.files[path := file]))
    case Chmod(directory) =>
      // A directory that exists is never removed.
      if directory == Missing then s else s.(fs := s.fs.(directory := directory))
  }

  ghost function Run(s: System, actions: seq<Action>, location: Pins -> string): System
    decreases |actions|
  {
    if actions == [] then s else Run(Apply(s, actions[0], location), actions[1..], location)
  }

  /** Files survive unchanged. */
  ghost predicate Grows(a: map<string, File>, b: map<string, File>) {
    forall path :: path in a ==> path in b && b[path] == a[path]
  }

  // ---- The inductive invariant -----------------------------------------------------------------------------

  /** A path the read has passed: what was there when it began was sound, pinned and agreed with. */
  ghost predicate Passed(p: Process, path: string) {
    path in p.begun ==>
      p.begun[path].Sound? && p.begun[path].record.pins == p.g.pins &&
      p.found.Some? && p.found.value.record == p.begun[path].record
  }

  predicate Reading(p: Process) { p.phase == CheckDirectory || p.phase == ReadPath || p.phase == Decide }

  ghost predicate ReadSoFar(p: Process, files: map<string, File>) {
    && Grows(p.begun, files)
    && (p.legacy.Some? ==> p.g.legacyPath in files && files[p.g.legacyPath] == Sound(p.legacy.value))
    && (p.g.legacyPath in p.begun ==> p.begun[p.g.legacyPath].Sound?)
    && (p.found.Some? ==> p.found.value.path in files && files[p.found.value.path] == Sound(p.found.value.record))
    && (p.found.Some? ==> p.found.value.record.pins == p.g.pins)
    && (p.phase == CheckDirectory ==> p.index == 0)
    && p.index <= |PathsOf(p)|
    && (forall i :: 0 <= i < p.index ==> Passed(p, PathsOf(p)[i]))
    && (p.phase == Decide ==> p.index == |PathsOf(p)|)
    && (p.phase != CheckDirectory && p.g.path in p.begun ==> p.current)
  }

  /** What a finished process knows. */
  ghost predicate Concluded(p: Process, files: map<string, File>) {
    && p.phase.Done?
    && Grows(p.begun, files)
    && (p.g.legacyPath in p.begun ==> p.begun[p.g.legacyPath].Sound?)
    && (forall path :: path in p.g.previousPaths && path in p.begun ==> p.begun[path].Sound?)
    && (p.phase.result.Some? ==> p.phase.result.value.pins == p.g.pins)
    && (p.goal.Some? ==> p.phase.result == p.goal && p.g.path in files && files[p.g.path] == Sound(p.goal.value))
    && (p.goal.None? && p.g.path in p.begun ==>
          p.begun[p.g.path].Sound? && p.phase.result == Some(p.begun[p.g.path].record))
  }

  ghost predicate ProcessOk(p: Process, fs: FileSystem, location: Pins -> string) {
    && Captured(p.goal, p.g, location)
    && (Reading(p) ==> ReadSoFar(p, fs.files))
    && (p.second && Running(p) ==> p.g.path in fs.files)
    && (p.second && Reading(p) ==> p.g.path in p.begun)
    && (p.phase == MakeDirectory || p.phase == Publish ==> BetweenReads(p, fs.files))
    && (p.phase.Done? ==> Concluded(p, fs.files))
  }

  ghost predicate BetweenReads(p: Process, files: map<string, File>) {
    && p.goal.Some?
    && Grows(p.begun, files)
    && (p.g.legacyPath in p.begun ==> p.begun[p.g.legacyPath].Sound?)
    && (forall path :: path in p.g.previousPaths && path in p.begun ==> p.begun[path].Sound?)
    && (p.existing.Some? ==> p.existing.value.record == p.goal.value && p.existing.value.path in files
                             && files[p.existing.value.path] == Sound(p.goal.value))
  }

  ghost predicate Inv(s: System, location: Pins -> string) {
    && (s.fs.directory == Missing ==> forall pins :: location(pins) !in s.fs.files)
    && forall id :: id in s.processes ==> ProcessOk(s.processes[id], s.fs, location)
  }

  // ---- Preservation ------------------------------------------------------------------------------------------

  /** Another actor's step: the files grow and the process itself stays. */
  lemma OthersKeep(p: Process, before: FileSystem, after: FileSystem, location: Pins -> string)
    requires ProcessOk(p, before, location) && Grows(before.files, after.files)
    ensures ProcessOk(p, after, location)
  {
  }

  lemma AdvanceGrows(fs: FileSystem, p: Process)
    ensures Grows(fs.files, Advance(fs, p).0.files)
  {
  }

  lemma AdvanceKeeps(fs: FileSystem, p: Process, location: Pins -> string)
    requires fs.directory == Missing ==> forall pins :: location(pins) !in fs.files
    requires ProcessOk(p, fs, location)
    ensures ProcessOk(Advance(fs, p).1, Advance(fs, p).0, location)
  {
    hide ProcessOk; hide Advance;
    match p.phase
    case CheckDirectory => AdvanceCheckDirectory(fs, p, location);
    case ReadPath => AdvanceReadPath(fs, p, location);
    case Decide => AdvanceDecide(fs, p, location);
    case ReadLegacy => AdvanceReadLegacy(fs, p, location);
    case _ => AdvanceOutsideRead(fs, p, location);
  }

  lemma AdvanceReadLegacy(fs: FileSystem, p: Process, location: Pins -> string)
    requires ProcessOk(p, fs, location) && p.phase == ReadLegacy
    ensures ProcessOk(Advance(fs, p).1, Advance(fs, p).0, location)
  {
    hide Passed; hide PathsOf;
  }

  lemma AdvanceOutsideRead(fs: FileSystem, p: Process, location: Pins -> string)
    requires ProcessOk(p, fs, location)
    requires !Reading(p) && p.phase != ReadLegacy
    ensures ProcessOk(Advance(fs, p).1, Advance(fs, p).0, location)
  {
    hide ReadSoFar; hide Advance;
    match p.phase
    case MakeDirectory => AdvanceMakeDirectory(fs, p, location);
    case Publish => AdvancePublish(fs, p, location);
    case _ => AdvanceOver(fs, p, location);
  }

  lemma AdvanceMakeDirectory(fs: FileSystem, p: Process, location: Pins -> string)
    requires ProcessOk(p, fs, location) && p.phase == MakeDirectory
    ensures ProcessOk(Advance(fs, p).1, Advance(fs, p).0, location)
  {
    hide ReadSoFar;
  }

  lemma AdvancePublish(fs: FileSystem, p: Process, location: Pins -> string)
    requires ProcessOk(p, fs, location) && p.phase == Publish
    ensures ProcessOk(Advance(fs, p).1, Advance(fs, p).0, location)
  {
    hide ReadSoFar; hide Concluded;
  }

  lemma AdvanceOver(fs: FileSystem, p: Process, location: Pins -> string)
    requires ProcessOk(p, fs, location) && (p.phase.Done? || p.phase.Failed?)
    ensures ProcessOk(Advance(fs, p).1, Advance(fs, p).0, location)
  {
    hide ReadSoFar; hide Concluded; hide BetweenReads;
  }

  lemma AdvanceCheckDirectory(fs: FileSystem, p: Process, location: Pins -> string)
    requires fs.directory == Missing ==> forall pins :: location(pins) !in fs.files
    requires ProcessOk(p, fs, location) && p.phase == CheckDirectory
    ensures ProcessOk(Advance(fs, p).1, Advance(fs, p).0, location)
  {
    var q := Advance(fs, p).1;
    assert p.g.path in p.begun ==> location(p.g.pins) in fs.files;
  }

  lemma AdvanceReadPath(fs: FileSystem, p: Process, location: Pins -> string)
    requires ProcessOk(p, fs, location) && p.phase == ReadPath
    ensures ProcessOk(Advance(fs, p).1, Advance(fs, p).0, location)
  {
    hide Concluded; hide BetweenReads;
    var q := Advance(fs, p).1;
    ReadPathKeeps(fs, p);
    hide ReadSoFar;
  }

  lemma ReadPathKeeps(fs: FileSystem, p: Process)
    requires ReadSoFar(p, fs.files) && p.phase == ReadPath
    ensures var q := Advance(fs, p).1; Reading(q) ==> ReadSoFar(q, fs.files)
  {
    var q := Advance(fs, p).1;
    if q.phase == ReadPath {
      forall i | 0 <= i < q.index ensures Passed(q, PathsOf(q)[i]) {
        StillPassed(fs, p, q, i);
      }
    }
    hide Passed;
  }

  /** The path just read is passed, and those before it stay so. */
  lemma StillPassed(fs: FileSystem, p: Process, q: Process, i: nat)
    requires p.phase == ReadPath && q == Advance(fs, p).1 && q.phase == ReadPath && i < q.index
    requires p.index <= |PathsOf(p)| && Grows(p.begun, fs.files)
    requires forall k :: 0 <= k < p.index ==> Passed(p, PathsOf(p)[k])
    requires p.found.Some? ==> p.found.value.record.pins == p.g.pins
    ensures i < |PathsOf(q)| && Passed(q, PathsOf(q)[i])
  {
    assert PathsOf(q) == PathsOf(p);
    assert i < p.index ==> Passed(p, PathsOf(p)[i]);
  }

  /** Once every path was considered, all older files were sound, and the current one agrees with what was found. */
  lemma AllConsidered(p: Process, files: map<string, File>)
    requires p.phase == Decide && ReadSoFar(p, files)
    ensures forall path :: path in p.g.previousPaths && path in p.begun ==> p.begun[path].Sound?
    ensures p.g.path in p.begun ==>
              p.begun[p.g.path].Sound? && p.found.Some? && p.found.value.record == p.begun[p.g.path].record
  {
    forall path | path in p.g.previousPaths && path in p.begun ensures p.begun[path].Sound? {
      var i :| 0 <= i < |p.g.previousPaths| && p.g.previousPaths[i] == path;
      assert PathsOf(p)[i] == path;
      assert Passed(p, PathsOf(p)[i]);
    }
    if p.g.path in p.begun {
      var last := |PathsOf(p)| - 1;
      assert PathsOf(p)[last] == p.g.path;
      assert Passed(p, PathsOf(p)[last]);
    }
  }

  lemma AdvanceDecide(fs: FileSystem, p: Process, location: Pins -> string)
    requires ProcessOk(p, fs, location) && p.phase == Decide
    ensures ProcessOk(Advance(fs, p).1, Advance(fs, p).0, location)
  {
    AllConsidered(p, fs.files);
    hide Passed; hide PathsOf;
  }

  lemma ApplyKeeps(s: System, a: Action, location: Pins -> string)
    requires Inv(s, location)
    ensures Inv(Apply(s, a, location), location)
    ensures Grows(s.fs.files, Apply(s, a, location).fs.files)
  {
    var t := Apply(s, a, location);
    hide ProcessOk;
    if a.Step? && a.id in s.processes {
      AdvanceGrows(s.fs, s.processes[a.id]);
      AdvanceKeeps(s.fs, s.processes[a.id], location);
      AdvanceDirectory(s.fs, s.processes[a.id], location);
    }
    forall id | id in t.processes ensures ProcessOk(t.processes[id], t.fs, location) {
      if id in s.processes && t.processes[id] == s.processes[id] {
        OthersKeep(s.processes[id], s.fs, t.fs, location);
      } else if a.Spawn? {
        StartIsOk(a.goal, a.g, t.fs, location);
      } else if a.Fail? || a.FailAfterPublish? {
        FailedIsOk(s.processes[id], s.fs, t.fs, location);
      }
    }
  }

  lemma StartIsOk(goal: Option<Association>, g: Generation, fs: FileSystem, location: Pins -> string)
    requires Captured(goal, g, location)
    ensures ProcessOk(Start(goal, g), fs, location)
  {
  }

  lemma FailedIsOk(p: Process, before: FileSystem, after: FileSystem, location: Pins -> string)
    requires ProcessOk(p, before, location)
    ensures ProcessOk(p.(phase := Failed), after, location)
  {
  }

  lemma AdvanceDirectory(fs: FileSystem, p: Process, location: Pins -> string)
    requires fs.directory == Missing ==> forall pins :: location(pins) !in fs.files
    ensures var after := Advance(fs, p).0;
            after.directory == Missing ==> forall pins :: location(pins) !in after.files
  {
  }

  lemma {:induction false} RunKeeps(s: System, actions: seq<Action>, location: Pins -> string)
    requires Inv(s, location)
    ensures Inv(Run(s, actions, location), location)
    ensures Grows(s.fs.files, Run(s, actions, location).fs.files)
    decreases |actions|
  {
    hide Inv;
    if actions != [] {
      ApplyKeeps(s, actions[0], location);
      RunKeeps(Apply(s, actions[0], location), actions[1..], location);
    }
  }

  /** Any file system, with no process yet; nothing lies in a directory that does not exist. */
  ghost predicate Initial(s: System, location: Pins -> string) {
    s.processes == map[] && (s.fs.directory == Missing ==> forall pins :: location(pins) !in s.fs.files)
  }

  // ---- Theorems ------------------------------------------------------------------------------------------------

  /**
   * Under any interleaving with each other, with readers and with outsiders creating files, all retains
   * that return for equal pins return the same record, through whatever names of the database: it is
   * the published file, and it carries exactly those pins even if two generations shared a location.
   */
  lemma RetainsAgree(s: System, actions: seq<Action>, location: Pins -> string, i: nat, j: nat)
    requires Initial(s, location)
    requires var t := Run(s, actions, location);
             && i in t.processes && j in t.processes
             && t.processes[i].goal.Some? && t.processes[i].phase.Done?
             && t.processes[j].goal.Some? && t.processes[j].phase.Done?
             && t.processes[i].g.pins == t.processes[j].g.pins
    ensures var t := Run(s, actions, location);
            && t.processes[i].phase == t.processes[j].phase
            && t.processes[i].phase.result.Some?
            && t.processes[i].phase.result.value.pins == t.processes[i].g.pins
            && t.processes[i].g.path in t.fs.files
            && t.fs.files[t.processes[i].g.path] == Sound(t.processes[i].phase.result.value)
  {
    RunKeeps(s, actions, location);
    var t := Run(s, actions, location);
    assert ProcessOk(t.processes[i], t.fs, location) && ProcessOk(t.processes[j], t.fs, location);
    hide Run;
  }

  /** A published record never changes, whoever runs afterwards. */
  lemma PublishedForGood(s: System, actions: seq<Action>, more: seq<Action>, location: Pins -> string, path: string)
    requires Initial(s, location) && path in Run(s, actions, location).fs.files
    ensures path in Run(Run(s, actions, location), more, location).fs.files
    ensures Run(Run(s, actions, location), more, location).fs.files[path] == Run(s, actions, location).fs.files[path]
  {
    hide Run; hide Inv;
    assert Inv(s, location) by { InitialIsOk(s, location); }
    RunKeeps(s, actions, location);
    RunKeeps(Run(s, actions, location), more, location);
  }

  lemma InitialIsOk(s: System, location: Pins -> string)
    requires Initial(s, location)
    ensures Inv(s, location)
  {
  }

  /**
   * A finished read that began after publication answered with the published record; and no read or
   * retain finishes if a legacy or older file was malformed or unsafe when it began.
   */
  lemma ReadsAgreeOrFail(s: System, actions: seq<Action>, location: Pins -> string, i: nat)
    requires Initial(s, location)
    requires i in Run(s, actions, location).processes && Run(s, actions, location).processes[i].phase.Done?
    ensures var t := Run(s, actions, location);
            var p := t.processes[i];
            && (p.g.path in p.begun && p.goal.None? ==>
                  p.begun[p.g.path].Sound? && p.g.path in t.fs.files && t.fs.files[p.g.path] == p.begun[p.g.path] &&
                  p.phase.result == Some(p.begun[p.g.path].record))
            && (p.g.legacyPath in p.begun ==> p.begun[p.g.legacyPath] != Unsafe)
            && (forall path :: path in p.g.previousPaths && path in p.begun ==> p.begun[path] != Unsafe)
  {
    RunKeeps(s, actions, location);
    var t := Run(s, actions, location);
    assert ProcessOk(t.processes[i], t.fs, location);
    hide Run;
  }

  // ---- An undisturbed retain ------------------------------------------------------------------------------------

  /** n steps of one process, with nothing else happening. */
  function Alone(fs: FileSystem, p: Process, n: nat): (FileSystem, Process)
    decreases n
  {
    if n == 0 then (fs, p) else Alone(Advance(fs, p).0, Advance(fs, p).1, n - 1)
  }

  lemma AloneFirst(fs: FileSystem, p: Process, n: nat)
    ensures Alone(fs, p, 1 + n) == Alone(Advance(fs, p).0, Advance(fs, p).1, n)
  {
    hide Advance;
  }

  lemma {:induction false} AloneSplits(fs: FileSystem, p: Process, m: nat, n: nat)
    ensures Alone(fs, p, m + n) == Alone(Alone(fs, p, m).0, Alone(fs, p, m).1, n)
    decreases m
  {
    hide Advance;
    if m > 0 {
      AloneSplits(Advance(fs, p).0, Advance(fs, p).1, m - 1, n);
    }
  }

  /** A process that is over stays as it is. */
  lemma {:induction false} OverStays(fs: FileSystem, p: Process, n: nat)
    requires !Running(p)
    ensures Alone(fs, p, n) == (fs, p)
    decreases n
  {
    if n > 0 {
      OverStays(fs, p, n - 1);
    }
  }

  /** What a read needs of the files to succeed. */
  ghost predicate Readable(fs: FileSystem, g: Generation) {
    && (g.legacyPath in fs.files ==> fs.files[g.legacyPath].Sound?)
    && fs.directory != UnsafeDirectory && Agreeing(fs.files, g.pins, PathsToRead(fs, g))
  }

  /** One path more, or the decision once all are read. */
  lemma ReadPathStep(fs: FileSystem, p: Process)
    requires p.phase == ReadPath && p.index <= |PathsOf(p)|
    ensures Advance(fs, p) ==
            (fs, if p.index == |PathsOf(p)| then p.(phase := Decide)
                 else match Consider(fs.files, p.g.pins, PathsOf(p)[p.index], p.found)
                      case Invalid => p.(phase := Failed)
                      case Continue(found) => p.(found := found, index := p.index + 1))
  {
    hide Consider;
  }

  /** From some path on, the reading loop ends in a decision on all of them, or fails with their agreement. */
  lemma {:induction false} LoopEnds(fs: FileSystem, p: Process) returns (n: nat)
    requires p.phase == ReadPath && p.index <= |PathsOf(p)|
    requires Considered(fs.files, p.g.pins, PathsOf(p)[..p.index], p.found)
    ensures Alone(fs, p, n).0 == fs
    ensures Agreeing(fs.files, p.g.pins, PathsOf(p)) ==>
              var q := Alone(fs, p, n).1;
              q == p.(phase := Decide, index := |PathsOf(p)|, found := q.found)
              && Considered(fs.files, p.g.pins, PathsOf(p), q.found)
    ensures !Agreeing(fs.files, p.g.pins, PathsOf(p)) ==> Alone(fs, p, n).1.phase == Failed
    decreases |PathsOf(p)| - p.index
  {
    hide Considered; hide Agreeing; hide Consider; hide Advance;
    var paths := PathsOf(p);
    ReadPathStep(fs, p);
    if p.index == |paths| {
      assert paths[..p.index] == paths;
      ConsideredAgrees(fs.files, p.g.pins, paths, p.found);
      n := 1;
      AloneFirst(fs, p, 0);
    } else {
      var path := paths[p.index];
      assert paths[..p.index + 1] == paths[..p.index] + [path];
      ConsiderOne(fs.files, p.g.pins, paths[..p.index], path, p.found);
      var verdict := Consider(fs.files, p.g.pins, path, p.found);
      if verdict.Invalid? {
        if Agreeing(fs.files, p.g.pins, paths) {
          PrefixAgrees(fs.files, p.g.pins, paths, p.index + 1);
        }
        n := 1;
        AloneFirst(fs, p, 0);
      } else {
        var q := p.(found := verdict.found, index := p.index + 1);
        var more := LoopEnds(fs, q);
        AloneFirst(fs, p, more);
        n := 1 + more;
      }
    }
  }

  /** The two steps before the loop: the legacy file, and the directory. */
  lemma ReadOpens(fs: FileSystem, p: Process) returns (q: Process)
    requires p.phase == ReadLegacy
    ensures Alone(fs, p, 2) == (fs, q)
    ensures (p.g.legacyPath in fs.files && fs.files[p.g.legacyPath].Unsafe?) || fs.directory == UnsafeDirectory ==>
              q.phase == Failed
    ensures !((p.g.legacyPath in fs.files && fs.files[p.g.legacyPath].Unsafe?) || fs.directory == UnsafeDirectory) ==>
              && q == p.(phase := ReadPath, begun := fs.files, current := fs.directory == Private, index := 0,
                         found := None, legacy := q.legacy)
              && (q.legacy.Some? <==> p.g.legacyPath in fs.files)
              && (q.legacy.Some? ==> fs.files[p.g.legacyPath] == Sound(q.legacy.value))
  {
    var first := Advance(fs, p).1;
    AloneFirst(fs, p, 1);
    AloneFirst(fs, first, 0);
    q := Advance(fs, first).1;
  }

  /** An undisturbed read decides with the answer that the files hold, or fails if they are not readable. */
  lemma ReadEnds(fs: FileSystem, p: Process) returns (n: nat)
    requires p.phase == ReadLegacy
    ensures Alone(fs, p, n).0 == fs
    ensures Readable(fs, p.g) ==>
              var q := Alone(fs, p, n).1;
              && q.phase == Decide && q.goal == p.goal && q.g == p.g && q.second == p.second
              && Answers(fs, p.g, Answer(p.g, q.legacy, q.found))
    ensures !Readable(fs, p.g) ==> Alone(fs, p, n).1.phase == Failed
  {
    var q := ReadOpens(fs, p);
    hide Advance; hide Alone; hide Agreeing; hide Considered; hide Answers; hide Answer;
    if q.phase == Failed {
      n := 2;
    } else {
      NothingConsidered(fs.files, p.g.pins);
      assert PathsOf(q) == PathsToRead(fs, p.g) && PathsOf(q)[..0] == [];
      var more := LoopEnds(fs, q);
      AloneSplits(fs, p, 2, more);
      n := 2 + more;
      if Readable(fs, p.g) {
        ConsideredAnswers(fs, p.g, q.legacy, Alone(fs, q, more).1.found);
      }
    }
  }

  /** The record that an answer gives to whoever reads. */
  function RecordOf(answer: Option<Found>): Option<Association> {
    if answer.Some? then Some(answer.value.record) else None
  }

  lemma PlainDecideStep(fs: FileSystem, p: Process)
    requires p.phase == Decide && p.goal.None?
    ensures Advance(fs, p) == (fs, p.(phase := Done(RecordOf(Answer(p.g, p.legacy, p.found)))))
  {
    hide Answer;
  }

  /** A plain read that nothing disturbs changes nothing and ends: with the files' answer, or failed if unreadable. */
  lemma PlainReadEnds(fs: FileSystem, g: Generation) returns (n: nat, answer: Option<Found>)
    ensures var (after, p) := Alone(fs, Start(None, g), n);
            && after == fs
            && if Readable(fs, g) then p.phase == Done(RecordOf(answer)) && Answers(fs, g, answer)
               else p.phase == Failed
  {
    var p := Start(None, g);
    hide Advance; hide Alone; hide Answers; hide Readable; hide Answer; hide RecordOf;
    n := ReadEnds(fs, p);
    var decided := Alone(fs, p, n).1;
    answer := None;
    if Readable(fs, g) {
      PlainDecideStep(fs, decided);
      AloneSplits(fs, p, n, 1);
      AloneFirst(fs, decided, 0);
      NoSteps(fs, Advance(fs, decided).1);
      answer := Answer(g, decided.legacy, decided.found);
      n := n + 1;
    }
  }

  /** So it finishes if and only if the files are readable, and only ever with the record they answer. */
  lemma PlainReadReturnsIff(fs: FileSystem, g: Generation)
    ensures (exists n :: Alone(fs, Start(None, g), n).1.phase.Done?) <==> Readable(fs, g)
    ensures forall n: nat, answer :: Alone(fs, Start(None, g), n).1.phase.Done? && Answers(fs, g, answer) ==>
              Alone(fs, Start(None, g), n).1.phase == Done(RecordOf(answer))
  {
    hide Advance; hide Alone; hide Answers; hide Readable; hide Start;
    var p := Start(None, g);
    var n, found := PlainReadEnds(fs, g);
    forall m: nat | Alone(fs, p, m).1.phase.Done?
      ensures Readable(fs, g)
      ensures Alone(fs, p, m).1.phase == Done(RecordOf(found))
    {
      if m <= n {
        AloneSplits(fs, p, m, n - m);
        OverStays(Alone(fs, p, m).0, Alone(fs, p, m).1, n - m);
      } else {
        AloneSplits(fs, p, n, m - n);
        OverStays(Alone(fs, p, n).0, Alone(fs, p, n).1, m - n);
      }
    }
    forall answer | Readable(fs, g) && Answers(fs, g, answer) ensures RecordOf(answer) == RecordOf(found) {
      AnswersIsRecord(fs, g, answer, found);
    }
  }

  /** What the first decision of a retain needs: no answer yet, or the very record to be retained. */
  ghost predicate Retainable(fs: FileSystem, g: Generation, goal: Association) {
    Readable(fs, g) && forall answer :: Answers(fs, g, answer) && answer.Some? ==> answer.value.record == goal
  }

  lemma AnswersIsRecord(fs: FileSystem, g: Generation, a: Option<Found>, b: Option<Found>)
    requires Answers(fs, g, a) && Answers(fs, g, b)
    ensures a.Some? <==> b.Some?
    ensures a.Some? ==> a.value.record == b.value.record
  {
  }

  /** Publishing the record keeps the files readable, and from then on they answer with it. */
  lemma PublishedAnswers(fs: FileSystem, g: Generation, goal: Association, answer: Option<Found>)
    requires Retainable(fs, g, goal) && goal.pins == g.pins && fs.directory == Private && g.path !in fs.files
    requires Answers(fs, g, answer)
    ensures var after := fs.(files := fs.files[g.path := Sound(goal)]);
            && Readable(after, g)
            && forall more :: Answers(after, g, more) ==> more.Some? && more.value.record == goal
  {
    var after := fs.(files := fs.files[g.path := Sound(goal)]);
    var paths := PathsToRead(fs, g);
    assert g.path in paths by {
      assert paths[|paths| - 1] == g.path;
    }
    forall path | path in paths && path in after.files ensures after.files[path] == Sound(goal) {
      if path != g.path {
        assert path in fs.files;
      }
    }
  }

  /** Making the missing directory changes nothing that a read sees. */
  lemma MadeDirectory(fs: FileSystem, g: Generation, goal: Association)
    requires fs.directory == Missing && g.path !in fs.files
    ensures var made := fs.(directory := Private);
            && (Retainable(fs, g, goal) ==> Retainable(made, g, goal))
            && forall answer :: Answers(made, g, answer) <==> Answers(fs, g, answer)
  {
    var made := fs.(directory := Private);
    forall answer ensures Answers(made, g, answer) <==> Answers(fs, g, answer) {
      if Answers(fs, g, answer) {
        SamePathsSameAnswers(fs, made, g, answer);
      }
      if Answers(made, g, answer) {
        SamePathsSameAnswers(made, fs, g, answer);
      }
    }
  }

  lemma SamePathsSameAnswers(fs: FileSystem, other: FileSystem, g: Generation, answer: Option<Found>)
    requires fs.files == other.files && g.path !in fs.files && Answers(fs, g, answer)
    requires forall path :: path != g.path ==> (path in PathsToRead(fs, g) <==> path in PathsToRead(other, g))
    ensures Answers(other, g, answer)
  {
    forall path | path in fs.files ensures path in PathsToRead(fs, g) <==> path in PathsToRead(other, g) {
    }
  }

  /** A decision, at the first read or the second. */
  lemma DecideStep(fs: FileSystem, p: Process)
    requires p.phase == Decide && p.goal.Some?
    ensures var answer := Answer(p.g, p.legacy, p.found);
            Advance(fs, p) ==
            (fs, if p.second then
                   if answer.None? || answer.value.record != p.goal.value then p.(phase := Failed)
                   else p.(phase := Done(Some(answer.value.record)))
                 else if answer.Some? && answer.value.record != p.goal.value then p.(phase := Failed)
                 else p.(existing := answer, phase := MakeDirectory))
  {
    hide Answer;
  }

  /** Where the record is already published, the retain is done once the directory is there. */
  lemma AlreadyPublished(fs: FileSystem, p: Process)
    requires p.phase == MakeDirectory && p.goal.Some? && Retainable(fs, p.g, p.goal.value)
    requires Answers(fs, p.g, p.existing) && fs.directory == Private && p.g.path in fs.files
    ensures Advance(fs, p) == (fs, p.(phase := Done(p.goal)))
    ensures fs.files[p.g.path] == Sound(p.goal.value)
  {
    var paths := PathsToRead(fs, p.g);
    assert paths[|paths| - 1] == p.g.path;
  }

  /** Otherwise the file is created, in the directory that is there by then. */
  lemma Publishes(fs: FileSystem, p: Process)
    requires p.phase == MakeDirectory && p.goal.Some? && p.g.path !in fs.files && fs.directory != UnsafeDirectory
    requires Answers(fs, p.g, p.existing)
    ensures var after := FileSystem(fs.files[p.g.path := Sound(p.goal.value)], Private);
            Alone(fs, p, 2) == (after, p.(second := true, phase := ReadLegacy))
  {
    assert p.existing.Some? ==> p.existing.value.path in fs.files;
    var made := fs.(directory := Private);
    assert Advance(fs, p) == (made, p.(phase := Publish));
    AloneFirst(fs, p, 1);
    AloneFirst(made, p.(phase := Publish), 0);
  }

  /** The part of a retain behind its first decision. */
  lemma RestOfRetain(fs: FileSystem, p: Process) returns (n: nat)
    requires p.phase == MakeDirectory && p.goal.Some? && p.goal.value.pins == p.g.pins && !p.second
    requires Retainable(fs, p.g, p.goal.value) && Answers(fs, p.g, p.existing)
    requires fs.directory == Missing ==> p.g.path !in fs.files
    ensures Alone(fs, p, n).1.phase == Done(p.goal)
    ensures p.g.path in Alone(fs, p, n).0.files && Alone(fs, p, n).0.files[p.g.path] == Sound(p.goal.value)
  {
    if p.g.path in fs.files {
      AlreadyPublished(fs, p);
      AloneFirst(fs, p, 0);
      n := 1;
    } else {
      Publishes(fs, p);
      var made := fs.(directory := Private);
      if fs.directory == Missing {
        MadeDirectory(fs, p.g, p.goal.value);
      }
      assert Retainable(made, p.g, p.goal.value) && Answers(made, p.g, p.existing);
      hide Advance; hide Alone; hide Answers; hide Readable; hide Retainable; hide Answer;
      PublishedAnswers(made, p.g, p.goal.value, p.existing);
      var after := made.(files := fs.files[p.g.path := Sound(p.goal.value)]);
      var second := p.(second := true, phase := ReadLegacy);
      var more := ReadEnds(after, second);
      var decided := Alone(after, second, more).1;
      DecideStep(after, decided);
      AloneSplits(after, second, more, 1);
      AloneFirst(after, decided, 0);
      NoSteps(after, Advance(after, decided).1);
      AloneSplits(fs, p, 2, more + 1);
      n := 2 + (more + 1);
    }
  }

  lemma NoSteps(fs: FileSystem, p: Process)
    ensures Alone(fs, p, 0) == (fs, p)
  {
  }

  /**
   * A retain that nothing disturbs comes to an end: it returns the record, which is then published, if the
   * files are readable and hold no other record, and fails otherwise.
   */
  lemma RetainEnds(fs: FileSystem, goal: Association, g: Generation) returns (n: nat)
    requires goal.pins == g.pins && (fs.directory == Missing ==> g.path !in fs.files)
    ensures var (after, p) := Alone(fs, Start(Some(goal), g), n);
            if Retainable(fs, g, goal) then
              p.phase == Done(Some(goal)) && g.path in after.files && after.files[g.path] == Sound(goal)
            else p.phase == Failed
  {
    var p := Start(Some(goal), g);
    hide Advance; hide Alone; hide Answers; hide Readable; hide Answer;
    var first := ReadEnds(fs, p);
    var decided := Alone(fs, p, first).1;
    if !Readable(fs, g) {
      return first;
    }
    DecideStep(fs, decided);
    AloneSplits(fs, p, first, 1);
    AloneFirst(fs, decided, 0);
    var next := Advance(fs, decided).1;
    NoSteps(fs, next);
    RecordDecides(fs, g, goal, Answer(g, decided.legacy, decided.found));
    if next.phase == Failed {
      return first + 1;
    }
    var rest := RestOfRetain(fs, next);
    AloneSplits(fs, p, first + 1, rest);
    n := first + 1 + rest;
  }

  /** One answer stands for all. */
  lemma RecordDecides(fs: FileSystem, g: Generation, goal: Association, answer: Option<Found>)
    requires Readable(fs, g) && Answers(fs, g, answer)
    ensures Retainable(fs, g, goal) <==> answer.None? || answer.value.record == goal
  {
    hide Answers; hide Readable;
    forall other | Answers(fs, g, other)
      ensures (other.Some? <==> answer.Some?) && (other.Some? ==> other.value.record == answer.value.record)
    {
      AnswersIsRecord(fs, g, other, answer);
    }
  }

  /** So an undisturbed retain ever returns if and only if the files are readable and hold no other record. */
  lemma RetainReturnsIff(fs: FileSystem, goal: Association, g: Generation)
    requires goal.pins == g.pins && (fs.directory == Missing ==> g.path !in fs.files)
    ensures (exists n :: Alone(fs, Start(Some(goal), g), n).1.phase.Done?) <==> Retainable(fs, g, goal)
  {
    hide Advance; hide Alone; hide Retainable;
    var p := Start(Some(goal), g);
    var n := RetainEnds(fs, goal, g);
    forall m | Alone(fs, p, m).1.phase.Done? ensures Retainable(fs, g, goal) {
      if m <= n {
        AloneSplits(fs, p, m, n - m);
        OverStays(Alone(fs, p, m).0, Alone(fs, p, m).1, n - m);
      } else {
        AloneSplits(fs, p, n, m - n);
        OverStays(Alone(fs, p, n).0, Alone(fs, p, n).1, m - n);
      }
    }
  }

  /** An empty private directory, or none yet, is such a place, so some retain does return. */
  lemma EmptyIsRetainable(fs: FileSystem, goal: Association, g: Generation)
    requires fs.files == map[] && fs.directory != UnsafeDirectory
    ensures Retainable(fs, g, goal)
  {
  }
}
