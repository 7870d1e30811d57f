/**
 * One server between its launches, exits, crash restarts, stops and restores. Code between two awaits is
 * one step. A launch is in flight from its lock check until its process is spawned; what it does after the
 * spawn touches nothing modelled here.
 */
module ServerLifecycle {
  import opened JsText
  import opened ServerLocks

  datatype Status = Stopped | Starting | Running | Stopping | Crashed

  /** A launch past its lock check: still preparing, or with its runtime assigned and about to spawn. */
  datatype Phase = Preparing | Armed(runtime: nat)

  datatype Launch = Launch(phase: Phase, afterCrash: bool)

  /** The stop callers may join: none, open before or after the kill, or settled with its promise not cleared yet. */
  datatype StopPhase = NoStop | OpenStop(escalated: bool) | SettledStop

  /** `restartOnError`; no attempts, or 0, mean 3. */
  datatype RestartSetting = RestartSetting(enabled: bool, attempts: Option<nat>)

  datatype Instance = Instance(
    status: Option<Status>,       // stored status, None when the server has no row
    runtime: Option<nat>,         // the runtime last assigned
    alive: set<nat>,              // runtimes with a live process
    launches: map<nat, Launch>,   // launches in flight
    timers: nat,                  // crash restarts waiting out their delay
    attempts: nat,                // crash restarts in a row
    exitRequested: bool,
    shuttingDown: bool,
    disposed: bool,
    stop: StopPhase,              // the pending stop
    nextId: nat)

  datatype World = World(instance: Instance, locks: Locks)

  datatype Event =
    | ManualStart
    | CrashTimer
    | Arm(launch: nat)
    | Spawn(launch: nat)
    | LaunchFails(launch: nat)
    | Exit(runtime: nat, code: Option<int>, lastLine: Option<Status>)
    | Output(detected: Status)
    | Stop
    | StopEscalates
    | StopGivenUp
    | StopCleared
    | Kill
    | Shutdown
    | Dispose
    | BeginRestore
    | BeginBackup
    | RunRelease(token: nat)

  /** Server id, restart setting: what stays fixed in a run. */
  datatype Config = Config(server: Id, restartOnError: RestartSetting)

  predicate IsRunning(s: Instance) {
    s.runtime.Some? && s.runtime.value in s.alive
  }

  /** `updateStatus`: being up resets the restart attempts, a missing row stays missing. */
  function WithStatus(s: Instance, status: Status): Instance {
    var t := if status == Running then s.(attempts := 0) else s;
    if s.status.None? then t else t.(status := Some(status))
  }

  function Limit(setting: RestartSetting): nat {
    if setting.attempts.None? || setting.attempts.value == 0 then 3 else setting.attempts.value
  }

  datatype CrashVerdict = Restart | Exhausted | Off

  function OnCrash(setting: RestartSetting, attempts: nat, suppressed: bool): CrashVerdict {
    if !setting.enabled || suppressed then Off
    else if attempts >= Limit(setting) then Exhausted
    else Restart
  }

  predicate IsCrash(code: Option<int>) {
    code.Some? && code.value > 1 && code.value != 127
  }

  /** An output line that means a status; no pattern means stopped or crashed. */
  function Detected(s: Instance, detected: Status): Instance {
    if detected == Stopped || detected == Crashed then s else WithStatus(s, detected)
  }

  function StopSettles(s: Instance): Instance {
    if s.stop.OpenStop? then s.(stop := SettledStop) else s
  }

  /** The verdict on a crash: another restart waits out its delay, or none. */
  function Judged(s: Instance, setting: RestartSetting, code: Option<int>): Instance {
    if IsCrash(code) && OnCrash(setting, s.attempts, s.shuttingDown || s.exitRequested) == Restart
    then s.(attempts := s.attempts + 1, timers := s.timers + 1)
    else s
  }

  /** `onClose` of a process that exits: an unfinished last line is flushed first, a pending stop settles last. */
  function Closed(s: Instance, setting: RestartSetting, code: Option<int>, lastLine: Option<Status>): Instance {
    var flushed := if lastLine.Some? then Detected(s, lastLine.value) else s;
    StopSettles(Judged(WithStatus(flushed, if IsCrash(code) then Crashed else Stopped), setting, code))
  }

  /** `stop` up to its first await: a second stop joins the first. */
  function StopInstance(s: Instance): Instance {
    if !IsRunning(s) || s.stop != NoStop then s
    else WithStatus(s.(exitRequested := true, stop := OpenStop(false)), Stopping)
  }

  /** `launch` up to its first await. It throws while a restore holds the lock. */
  function BeginLaunch(s: Instance, holder: Option<LockKind>, afterCrash: bool): Instance {
    if IsRunning(s) then s
    else if holder == Some(RestoreLock) then if afterCrash then WithStatus(s, Crashed) else s
    else
      var t := WithStatus(s.(exitRequested := false), Starting);
      t.(launches := t.launches[t.nextId := Launch(Preparing, afterCrash)], nextId := t.nextId + 1)
  }

  function Start(s: Instance, holder: Option<LockKind>): Instance {
    if IsRunning(s) then s else BeginLaunch(s.(attempts := 0), holder, false)
  }

  /** A crash restart after its delay: only if nobody touched the server meanwhile. */
  function RestartAfterCrash(s: Instance, holder: Option<LockKind>): Instance {
    if s.disposed || s.shuttingDown || IsRunning(s) then s
    else if s.status != Some(Crashed) then s
    else BeginLaunch(s, holder, true)
  }

  function ArmLaunch(s: Instance, id: nat): Instance
    requires id in s.launches
  {
    var armed := s.launches[id].(phase := Armed(s.nextId));
    s.(runtime := Some(s.nextId), launches := s.launches[id := armed], nextId := s.nextId + 1)
  }

  function SpawnLaunch(s: Instance, id: nat): Instance
    requires id in s.launches && s.launches[id].phase.Armed?
  {
    s.(alive := s.alive + {s.launches[id].phase.runtime}, launches := s.launches - {id})
  }

  /** A launch rejects before the spawn; a crash restart catches that and says CRASHED again. */
  function FailLaunch(s: Instance, id: nat): Instance
    requires id in s.launches
  {
    var t := s.(launches := s.launches - {id});
    if s.launches[id].afterCrash && !IsRunning(t) then WithStatus(t, Crashed) else t
  }

  predicate Restorable(status: Option<Status>) {
    status == Some(Stopped) || status == Some(Crashed)
  }

  /** Steps that are not enabled change nothing. */
  function NextInstance(config: Config, s: Instance, holder: Option<LockKind>, event: Event): Instance {
    match event
    case ManualStart => Start(s, holder)
    case CrashTimer => if s.timers == 0 then s else RestartAfterCrash(s.(timers := s.timers - 1), holder)
    case Arm(id) => if id in s.launches && s.launches[id].phase.Preparing? then ArmLaunch(s, id) else s
    case Spawn(id) => if id in s.launches && s.launches[id].phase.Armed? then SpawnLaunch(s, id) else s
    case LaunchFails(id) => if id in s.launches then FailLaunch(s, id) else s
    case Exit(r, code, last) =>
      if r in s.alive then Closed(s.(alive := s.alive - {r}), config.restartOnError, code, last) else s
    case Output(detected) => Detected(s, detected)
    case Stop => StopInstance(s)
    case StopEscalates => if s.stop == OpenStop(false) then s.(stop := OpenStop(true)) else s
    case StopGivenUp => if s.stop == OpenStop(true) then StopSettles(s) else s
    case StopCleared => if s.stop == SettledStop then s.(stop := NoStop) else s
    case Kill => if IsRunning(s) then s.(exitRequested := true) else s
    case Shutdown => s.(shuttingDown := true)
    case Dispose => s.(disposed := true)
    case _ => s
  }

  function NextLocks(config: Config, w: World, event: Event): Locks {
    match event
    case BeginRestore =>
      if Restorable(w.instance.status) then Acquired(w.locks, config.server, RestoreLock) else w.locks
    case BeginBackup => Acquired(w.locks, config.server, BackupLock)
    case RunRelease(i) => if i < |w.locks.tokens| then Released(w.locks, i) else w.locks
    case _ => w.locks
  }

  function Next(config: Config, w: World, event: Event): World {
    World(NextInstance(config, w.instance, Holder(w.locks, config.server), event), NextLocks(config, w, event))
  }

  function Run(config: Config, w: World, events: seq<Event>): World {
    if events == [] then w else Next(config, Run(config, w, events[..|events| - 1]), events[|events| - 1])
  }

  const IDLE: Instance := Instance(Some(Stopped), None, {}, map[], 0, 0, false, false, false, NoStop, 0)

  /** A server nobody has started yet, with no lock handed out. */
  const IDLE_WORLD: World := World(IDLE, Locks(map[], []))

  // ----- restore exclusion

  /** No live process and no launch past its lock check while a restore holds the lock. */
  predicate Safe(config: Config, w: World) {
    Holder(w.locks, config.server) == Some(RestoreLock) ==> w.instance.alive == {} && w.instance.launches == map[]
  }

  /** What a caller can check before a manual start: no launch is in flight. */
  predicate Disciplined(w: World, event: Event) {
    event.ManualStart? ==> w.instance.launches == map[]
  }

  predicate DisciplinedRun(config: Config, w: World, events: seq<Event>) {
    events == [] ||
    (DisciplinedRun(config, w, events[..|events| - 1])
     && Disciplined(Run(config, w, events[..|events| - 1]), events[|events| - 1]))
  }

  ghost predicate Inv(config: Config, w: World) {
    var s := w.instance;
    && Consistent(w.locks)
    && Safe(config, w)
    && (Restorable(s.status) ==> s.alive == {} && s.launches == map[])
    && (forall a, b :: a in s.launches && b in s.launches ==> a == b)
    && (s.launches != map[] ==> s.alive == {})
    && (forall id :: id in s.launches ==> id < s.nextId)
    && (forall r :: r in s.alive ==> s.runtime == Some(r))
    && (forall id :: id in s.launches && s.launches[id].phase.Armed? ==>
          s.runtime == Some(s.launches[id].phase.runtime))
  }

  lemma LockEventKeepsInv(config: Config, w: World, event: Event)
    requires Inv(config, w)
    requires event.BeginRestore? || event.BeginBackup? || event.RunRelease?
    ensures Inv(config, Next(config, w, event))
  {
    match event
    case BeginRestore => AcquireKeepsConsistent(w.locks, config.server, RestoreLock);
    case BeginBackup => AcquireKeepsConsistent(w.locks, config.server, BackupLock);
    case RunRelease(i) =>
      if i < |w.locks.tokens| {
        ReleaseKeepsConsistent(w.locks, i);
        ReleaseFreesOwnOnly(w.locks, i, config.server);
      }
  }

  lemma LaunchEventKeepsInv(config: Config, w: World, event: Event)
    requires Inv(config, w) && Disciplined(w, event)
    requires event.ManualStart? || event.CrashTimer? || event.Arm? || event.Spawn? || event.LaunchFails?
    ensures Inv(config, Next(config, w, event))
  {
    hide Next, Inv, Disciplined;
    if event.ManualStart? || event.CrashTimer? {
      StartEventKeepsInv(config, w, event);
    } else {
      SpawnEventKeepsInv(config, w, event);
    }
  }

  lemma StartEventKeepsInv(config: Config, w: World, event: Event)
    requires Inv(config, w) && Disciplined(w, event) && (event.ManualStart? || event.CrashTimer?)
    ensures Inv(config, Next(config, w, event))
  {
    hide Consistent, Limit;
    AliveIsRunning(w.instance);
  }

  lemma SpawnEventKeepsInv(config: Config, w: World, event: Event)
    requires Inv(config, w) && (event.Arm? || event.Spawn? || event.LaunchFails?)
    ensures Inv(config, Next(config, w, event))
  {
    hide Consistent, Limit;
    var s := w.instance;
    AliveIsRunning(s);
    match event
    case Spawn(id) =>
      if id in s.launches { assert s.launches - {id} == map[]; }
    case LaunchFails(id) =>
      if id in s.launches { assert s.launches - {id} == map[]; }
    case Arm(id) =>
  }

  lemma AliveIsRunning(s: Instance)
    requires forall r :: r in s.alive ==> s.runtime == Some(r)
    ensures s.alive != {} <==> IsRunning(s)
  {
    if s.alive != {} {
      var r :| r in s.alive;
      assert s.runtime == Some(r);
    }
  }

  /** Same processes, launches and runtime. */
  predicate SameProcesses(s: Instance, t: Instance) {
    t.alive == s.alive && t.launches == s.launches && t.runtime == s.runtime && t.nextId == s.nextId
  }

  lemma WithStatusKeeps(s: Instance, status: Status)
    ensures SameProcesses(s, WithStatus(s, status))
  {
  }

  /** What an exit handler leaves alone. */
  lemma ClosedKeeps(s: Instance, setting: RestartSetting, code: Option<int>, lastLine: Option<Status>)
    ensures SameProcesses(s, Closed(s, setting, code, lastLine))
  {
    hide WithStatus, OnCrash;
    var flushed := if lastLine.Some? then Detected(s, lastLine.value) else s;
    if lastLine.Some? { WithStatusKeeps(s, lastLine.value); }
    WithStatusKeeps(flushed, if IsCrash(code) then Crashed else Stopped);
  }

  lemma ExitKeepsInv(config: Config, w: World, event: Event)
    requires Inv(config, w) && event.Exit?
    ensures Inv(config, Next(config, w, event))
  {
    var s := w.instance;
    if event.runtime in s.alive {
      var left := s.alive - {event.runtime};
      assert left == {};
      assert s.launches == map[];
      ClosedKeeps(s.(alive := left), config.restartOnError, event.code, event.lastLine);
    }
  }

  lemma StatusEventKeepsInv(config: Config, w: World, event: Event)
    requires Inv(config, w) && (event.Output? || event.Stop?)
    ensures Inv(config, Next(config, w, event))
  {
    hide Consistent, Limit;
  }

  predicate IsFlagEvent(event: Event) {
    event.StopEscalates? || event.StopGivenUp? || event.StopCleared? || event.Kill? || event.Shutdown? || event.Dispose?
  }

  lemma FlagEventKeepsInv(config: Config, w: World, event: Event)
    requires Inv(config, w) && IsFlagEvent(event)
    ensures Inv(config, Next(config, w, event))
  {
  }

  lemma StepKeepsInv(config: Config, w: World, event: Event)
    requires Inv(config, w) && Disciplined(w, event)
    ensures Inv(config, Next(config, w, event))
  {
    if event.BeginRestore? || event.BeginBackup? || event.RunRelease? {
      LockEventKeepsInv(config, w, event);
    } else if event.Exit? {
      ExitKeepsInv(config, w, event);
    } else if event.Output? || event.Stop? {
      StatusEventKeepsInv(config, w, event);
    } else if IsFlagEvent(event) {
      FlagEventKeepsInv(config, w, event);
    } else {
      LaunchEventKeepsInv(config, w, event);
    }
  }

  lemma {:induction false} RunKeepsInv(config: Config, w: World, events: seq<Event>)
    requires Inv(config, w) && DisciplinedRun(config, w, events)
    ensures Inv(config, Run(config, w, events))
  {
    if events != [] {
      hide Next, Inv, Disciplined;
      RunKeepsInv(config, w, events[..|events| - 1]);
      StepKeepsInv(config, Run(config, w, events[..|events| - 1]), events[|events| - 1]);
    }
  }

  /**
   * Restore exclusion: however starts, crash restarts, exits, stops, backups and releases interleave, a
   * restore never shares the folder with a process, as long as no manual start comes while a launch is in
   * flight. Crash restarts need no such care.
   */
  lemma RestoreIsExclusive(config: Config, events: seq<Event>)
    requires DisciplinedRun(config, IDLE_WORLD, events)
    ensures Safe(config, Run(config, IDLE_WORLD, events))
  {
    RunKeepsInv(config, IDLE_WORLD, events);
  }

  // ----- runs one after the other

  lemma RunOne(config: Config, w: World, event: Event)
    ensures Run(config, w, [event]) == Next(config, w, event)
  {
    assert [event][..0] == [];
  }

  lemma RunSnoc(config: Config, w: World, events: seq<Event>, event: Event)
    ensures Run(config, w, events + [event]) == Next(config, Run(config, w, events), event)
  {
    assert (events + [event])[..|events|] == events;
  }

  lemma {:induction false} RunConcat(config: Config, w: World, a: seq<Event>, b: seq<Event>)
    ensures Run(config, w, a + b) == Run(config, Run(config, w, a), b)
  {
    hide Next;
    if b == [] {
      assert a + b == a;
    } else {
      var init, last := b[..|b| - 1], b[|b| - 1];
      assert a + b == (a + init) + [last];
      RunConcat(config, w, a, init);
      RunSnoc(config, w, a + init, last);
    }
  }

  predicate NoManualStart(events: seq<Event>) {
    forall i :: 0 <= i < |events| ==> !events[i].ManualStart?
  }

  // ----- releases, whatever callers do

  /** A lock that is held can be released, by the release it was taken with. */
  lemma HolderReleases(config: Config, w: World) returns (i: nat)
    requires Consistent(w.locks) && Holder(w.locks, config.server).Some?
    ensures Holder(Next(config, w, RunRelease(i)).locks, config.server) == None
    ensures Next(config, w, RunRelease(i)).instance == w.instance
  {
    i :| 0 <= i < |w.locks.tokens| && Owns(w.locks, i, config.server);
    ReleaseFreesOwnOnly(w.locks, i, config.server);
  }

  lemma {:induction false} RunKeepsLocks(config: Config, w: World, events: seq<Event>)
    requires Consistent(w.locks)
    ensures Consistent(Run(config, w, events).locks)
  {
    if events != [] {
      var before := Run(config, w, events[..|events| - 1]);
      RunKeepsLocks(config, w, events[..|events| - 1]);
      match events[|events| - 1]
      case BeginRestore => AcquireKeepsConsistent(before.locks, config.server, RestoreLock);
      case BeginBackup => AcquireKeepsConsistent(before.locks, config.server, BackupLock);
      case RunRelease(i) => if i < |before.locks.tokens| { ReleaseKeepsConsistent(before.locks, i); }
      case _ =>
    }
  }

  /**
   * In every run a release frees the lock just when it is the holder's own and has not run: stale ones are
   * harmless.
   */
  lemma StaleReleaseIsHarmless(config: Config, events: seq<Event>, i: nat)
    requires i < |Run(config, IDLE_WORLD, events).locks.tokens|
    ensures var w := Run(config, IDLE_WORLD, events);
            Holder(Next(config, w, RunRelease(i)).locks, config.server) != Holder(w.locks, config.server)
            <==> Owns(w.locks, i, config.server)
  {
    RunKeepsLocks(config, IDLE_WORLD, events);
    ReleaseFreesOwnOnly(Run(config, IDLE_WORLD, events).locks, i, config.server);
  }
}
