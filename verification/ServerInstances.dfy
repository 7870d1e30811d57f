/** The objects of the life cycle; each method is one stretch of code between two awaits. */
module ServerInstances {
  import opened JsText
  import opened ServerLocks
  import opened ServerLifecycle
  import PendingStops

  /** Crash restarts in a row, reset when the server is up or started by hand. */
  class CrashRestartPolicy {
    var attempts: nat

    constructor ()
      ensures attempts == 0
    {
      attempts := 0;
    }

    method Reset()
      modifies this
      ensures attempts == 0
    {
      attempts := 0;
    }

    /** Counts the attempt when the verdict is a restart. */
    method Crash(setting: RestartSetting, suppressed: bool) returns (verdict: CrashVerdict)
      modifies this
      ensures verdict == OnCrash(setting, old(attempts), suppressed)
      ensures attempts == if verdict == Restart then old(attempts) + 1 else old(attempts)
    {
      if !setting.enabled || suppressed { return Off; }
      var limit := if setting.attempts.Some? && setting.attempts.value != 0 then setting.attempts.value else 3;
      if attempts >= limit { return Exhausted; }
      attempts := attempts + 1;
      return Restart;
    }
  }

  class ServerInstance {
    const restartOnError: RestartSetting
    const crashRestarts: CrashRestartPolicy
    const pendingStop: PendingStops.PendingStop
    var status: Option<Status>      // the server's row
    var serverRuntime: Option<nat>
    var exitRequested: bool
    var shuttingDown: bool
    var disposed: bool
    // What the event loop and the operating system hold for this server
    var alive: set<nat>
    var launches: map<nat, Launch>
    var timers: nat
    var nextId: nat

    ghost predicate Valid()
      reads pendingStop
    {
      pendingStop.Valid()
    }

    function Phase(): StopPhase
      reads pendingStop
    {
      if pendingStop.promise.None? then NoStop
      else if pendingStop.settle then OpenStop(pendingStop.timer.GiveUp?)
      else SettledStop
    }

    function State(): Instance
      reads this, crashRestarts, pendingStop
    {
      Instance(status, serverRuntime, alive, launches, timers, crashRestarts.attempts,
               exitRequested, shuttingDown, disposed, Phase(), nextId)
    }

    constructor (restartOnError: RestartSetting, stopTimeout: PendingStops.RawTimeout)
      ensures Valid() && State() == IDLE && this.restartOnError == restartOnError
      ensures fresh(crashRestarts) && fresh(pendingStop)
    {
      this.restartOnError := restartOnError;
      crashRestarts := new CrashRestartPolicy();
      pendingStop := new PendingStops.PendingStop(stopTimeout);
      status, serverRuntime, alive, launches := Some(Stopped), None, {}, map[];
      exitRequested, shuttingDown, disposed, timers, nextId := false, false, false, 0, 0;
    }

    predicate Up()
      reads this
    {
      serverRuntime.Some? && serverRuntime.value in alive
    }

    method UpdateStatus(newStatus: Status)
      modifies this`status, crashRestarts
      ensures State() == WithStatus(old(State()), newStatus)
    {
      if newStatus == Running { crashRestarts.Reset(); }
      if status.None? || status.value == newStatus { return; }
      status := Some(newStatus);
    }

    /** A finished output line that means a status. */
    method OnLine(detected: Status)
      modifies this`status, crashRestarts
      ensures State() == Detected(old(State()), detected)
    {
      if detected != Stopped && detected != Crashed {
        UpdateStatus(detected);
      }
    }

    /** A process exits and its exit handler runs; `lastLine` is what an unfinished last line means. */
    method OnClose(runtime: nat, exitCode: Option<int>, lastLine: Option<Status>, now: nat)
      requires Valid() && runtime in alive
      modifies this, crashRestarts, pendingStop
      ensures Valid()
      ensures State() == Closed(old(State()).(alive := old(alive) - {runtime}), restartOnError, exitCode, lastLine)
    {
      hide WithStatus, Judged, Detected;
      alive := alive - {runtime};
      if lastLine.Some? { OnLine(lastLine.value); }
      var crashed := exitCode.Some? && exitCode.value > 1 && exitCode.value != 127;
      UpdateStatus(if crashed then Crashed else Stopped);
      JudgeCrash(crashed, exitCode);
      SettleStop(now);
    }

    method JudgeCrash(crashed: bool, ghost exitCode: Option<int>)
      requires crashed == IsCrash(exitCode)
      modifies this`timers, crashRestarts
      ensures State() == Judged(old(State()), restartOnError, exitCode)
    {
      if crashed {
        var verdict := crashRestarts.Crash(restartOnError, shuttingDown || exitRequested);
        if verdict == Restart { timers := timers + 1; }
      }
    }

    method SettleStop(now: nat)
      requires Valid()
      modifies pendingStop
      ensures Valid() && State() == StopSettles(old(State()))
    {
      pendingStop.Exit(now);
    }

    /** The start of a launch; `thrown` when a restore holds the lock. */
    method LaunchUntilAwait(holder: Option<LockKind>, afterCrash: bool) returns (thrown: bool)
      modifies this, crashRestarts
      ensures thrown <==> !IsRunning(old(State())) && holder == Some(RestoreLock)
      ensures State() == if thrown then old(State()) else BeginLaunch(old(State()), holder, afterCrash)
    {
      if Up() { return false; }
      if holder == Some(RestoreLock) { return true; }
      exitRequested := false;
      UpdateStatus(Starting);
      launches := launches[nextId := Launch(Preparing, afterCrash)];
      nextId := nextId + 1;
      return false;
    }

    /** Manual start: also resets the restart attempts. */
    method StartUntilAwait(holder: Option<LockKind>) returns (thrown: bool)
      modifies this, crashRestarts
      ensures State() == Start(old(State()), holder)
    {
      if Up() { return false; }
      crashRestarts.Reset();
      thrown := LaunchUntilAwait(holder, false);
    }

    /** A crash restart once its delay is over. */
    method RestartDelayOver(holder: Option<LockKind>)
      requires timers > 0
      modifies this, crashRestarts
      ensures State() == RestartAfterCrash(old(State()).(timers := old(timers) - 1), holder)
    {
      timers := timers - 1;
      if disposed || shuttingDown || Up() { return; }
      if status != Some(Crashed) { return; }
      var thrown := LaunchUntilAwait(holder, true);
      if thrown {
        if !Up() { UpdateStatus(Crashed); }
      }
    }

    method AssignRuntime(launch: nat)
      requires launch in launches
      modifies this
      ensures State() == ArmLaunch(old(State()), launch)
    {
      serverRuntime := Some(nextId);
      launches := launches[launch := launches[launch].(phase := Armed(nextId))];
      nextId := nextId + 1;
    }

    method ProcessSpawned(launch: nat)
      requires launch in launches && launches[launch].phase.Armed?
      modifies this
      ensures State() == SpawnLaunch(old(State()), launch)
    {
      alive := alive + {launches[launch].phase.runtime};
      launches := launches - {launch};
    }

    method LaunchRejected(launch: nat)
      requires launch in launches
      modifies this, crashRestarts
      ensures State() == FailLaunch(old(State()), launch)
    {
      var afterCrash := launches[launch].afterCrash;
      launches := launches - {launch};
      if afterCrash {
        if !Up() { UpdateStatus(Crashed); }
      }
    }

    /** A stop up to its first await; a second one joins the first. */
    method StopUntilAwait(now: nat)
      requires Valid()
      modifies this, crashRestarts, pendingStop
      ensures Valid() && State() == StopInstance(old(State()))
    {
      if !Up() { return; }
      if pendingStop.promise.Some? { return; }
      exitRequested := true;
      UpdateStatus(Stopping);
      var _ := pendingStop.BeginStop(now);
    }

    method KillUntilAwait() returns (sent: bool)
      modifies this
      ensures State() == (if IsRunning(old(State())) then old(State()).(exitRequested := true) else old(State()))
      ensures sent == IsRunning(old(State()))
    {
      if !Up() { return false; }
      exitRequested := true;
      return true;
    }
  }

  /** The restore side: a stopped server's lock while the restore works. */
  class BackupsService {
    const locks: ServerLocksService

    constructor (locks: ServerLocksService)
      ensures this.locks == locks
    {
      this.locks := locks;
    }

    /** Up to the start of the background work; None when the server is up or busy. */
    method BeginRestore(server: Id, status: Option<Status>) returns (release: Option<Release>)
      requires locks.Valid()
      modifies locks
      ensures locks.Valid()
      ensures locks.View() == if Restorable(status) then Acquired(old(locks.View()), server, RestoreLock)
                              else old(locks.View())
      ensures release.Some? <==> Restorable(status) && server !in old(locks.held)
      ensures release.Some? ==> fresh(release.value) && locks.issued == old(locks.issued) + [release.value]
      ensures release.None? ==> locks.issued == old(locks.issued)
    {
      if status.None? || status.value !in {Stopped, Crashed} {
        return None;
      }
      release := locks.Acquire(server, RestoreLock);
    }

    /** However the work ends, its release runs. */
    method EndRestore(release: Release, ghost i: nat)
      requires locks.Valid() && i < |locks.issued| && locks.issued[i] == release
      modifies locks, release
      ensures locks.Valid() && locks.View() == Released(old(locks.View()), i)
    {
      locks.Run(release, i);
    }
  }

  /** One server with its locks: every event of the protocol reaches the objects here. */
  class ManagedServer {
    const id: Id
    const instance: ServerInstance
    const locks: ServerLocksService
    const backups: BackupsService
    // The release functions callers were handed
    var releases: seq<Release>

    ghost predicate Valid()
      reads this, instance.pendingStop, locks
    {
      instance.Valid() && locks.Valid() && locks.issued == releases && backups.locks == locks
    }

    ghost function Configuration(): Config {
      Config(id, instance.restartOnError)
    }

    ghost function View(): World
      reads instance, instance.crashRestarts, instance.pendingStop, locks, locks.issued
    {
      World(instance.State(), locks.View())
    }

    constructor (id: Id, restartOnError: RestartSetting, stopTimeout: PendingStops.RawTimeout)
      ensures Valid() && Configuration() == Config(id, restartOnError) && View() == IDLE_WORLD
      ensures fresh(instance) && fresh(instance.crashRestarts) && fresh(instance.pendingStop) && fresh(locks)
      ensures releases == []
    {
      this.id := id;
      var inner := new ServerInstance(restartOnError, stopTimeout);
      var lockService := new ServerLocksService();
      instance, locks := inner, lockService;
      backups := new BackupsService(lockService);
      releases := [];
    }

    method HandleLaunch(event: Event)
      requires Valid()
      requires event.ManualStart? || event.CrashTimer? || event.Arm? || event.Spawn? || event.LaunchFails?
      modifies instance, instance.crashRestarts
      ensures Valid() && View() == Next(Configuration(), old(View()), event)
    {
      var holder := locks.HolderOf(id);
      match event
      case ManualStart => var _ := instance.StartUntilAwait(holder);
      case CrashTimer => if instance.timers > 0 { instance.RestartDelayOver(holder); }
      case Arm(launch) =>
        if launch in instance.launches && instance.launches[launch].phase.Preparing? { instance.AssignRuntime(launch); }
      case Spawn(launch) =>
        if launch in instance.launches && instance.launches[launch].phase.Armed? { instance.ProcessSpawned(launch); }
      case LaunchFails(launch) =>
        if launch in instance.launches { instance.LaunchRejected(launch); }
    }

    method HandleExit(event: Event, now: nat)
      requires Valid() && (event.Exit? || event.Output? || event.Kill? || event.Shutdown? || event.Dispose?)
      modifies instance, instance.crashRestarts, instance.pendingStop
      ensures Valid() && View() == Next(Configuration(), old(View()), event)
    {
      match event
      case Exit(runtime, code, last) => if runtime in instance.alive { instance.OnClose(runtime, code, last, now); }
      case Output(detected) => instance.OnLine(detected);
      case Kill => var _ := instance.KillUntilAwait();
      case Shutdown => instance.shuttingDown := true;
      case Dispose => instance.disposed := true;
    }

    method HandleStop(event: Event, now: nat)
      requires Valid() && (event.Stop? || event.StopEscalates? || event.StopGivenUp? || event.StopCleared?)
      modifies instance, instance.crashRestarts, instance.pendingStop
      ensures Valid() && View() == Next(Configuration(), old(View()), event)
    {
      var stop := instance.pendingStop;
      match event
      case Stop => instance.StopUntilAwait(now);
      case StopEscalates => if stop.settle && stop.timer.Escalate? { stop.TimerFires(now); }
      case StopGivenUp => if stop.settle && stop.timer.GiveUp? { stop.TimerFires(now); }
      case StopCleared => if !stop.settle { stop.ClearPromise(); }
    }

    method HandleLock(event: Event)
      requires Valid() && (event.BeginRestore? || event.BeginBackup? || event.RunRelease?)
      modifies this, locks, releases
      ensures Valid() && View() == Next(Configuration(), old(View()), event)
      ensures old(releases) <= releases && forall i :: |old(releases)| <= i < |releases| ==> fresh(releases[i])
    {
      match event
      case BeginRestore =>
        var release := backups.BeginRestore(id, instance.status);
        if release.Some? { releases := releases + [release.value]; }
      case BeginBackup =>
        var release := locks.Acquire(id, BackupLock);
        if release.Some? { releases := releases + [release.value]; }
      case RunRelease(i) =>
        if i < |releases| { locks.Run(releases[i], i); }
    }

    /** One step of the protocol on the real objects. */
    method Handle(event: Event, now: nat)
      requires Valid()
      modifies this, instance, instance.crashRestarts, instance.pendingStop, locks, releases
      ensures Valid() && View() == Next(Configuration(), old(View()), event)
      ensures old(releases) <= releases && forall i :: |old(releases)| <= i < |releases| ==> fresh(releases[i])
    {
      if event.BeginRestore? || event.BeginBackup? || event.RunRelease? {
        HandleLock(event);
      } else if event.Stop? || event.StopEscalates? || event.StopGivenUp? || event.StopCleared? {
        HandleStop(event, now);
      } else if event.Exit? || event.Output? || event.Kill? || event.Shutdown? || event.Dispose? {
        HandleExit(event, now);
      } else {
        HandleLaunch(event);
      }
    }

    /** Any sequence of events on the objects is a run of the protocol. */
    method HandleAll(events: seq<Event>, times: seq<nat>)
      requires Valid() && |times| == |events|
      modifies this, instance, instance.crashRestarts, instance.pendingStop, locks, releases
      ensures Valid() && View() == Run(Configuration(), old(View()), events)
    {
      hide Next;
      ghost var start, config := View(), Configuration();
      var i := 0;
      assert events[..0] == [];
      while i < |events|
        invariant 0 <= i <= |events|
        invariant Valid() && View() == Run(config, start, events[..i])
        invariant old(releases) <= releases && forall k :: |old(releases)| <= k < |releases| ==> fresh(releases[k])
      {
        assert events[..i + 1][..i] == events[..i];
        Handle(events[i], times[i]);
        i := i + 1;
      }
      assert events[..i] == events;
    }
  }

  /** So a server that was handled with discipline never shares its folder with a restore. */
  method ServeWithDiscipline(id: Id, setting: RestartSetting, raw: PendingStops.RawTimeout,
                             events: seq<Event>, times: seq<nat>)
    returns (server: ManagedServer)
    requires |times| == |events|
    requires DisciplinedRun(Config(id, setting), IDLE_WORLD, events)
    ensures server.Valid() && server.View() == Run(Config(id, setting), IDLE_WORLD, events)
    ensures server.id in server.locks.held && server.locks.held[server.id] == RestoreLock ==>
              server.instance.alive == {} && server.instance.launches == map[]
  {
    server := new ManagedServer(id, setting, raw);
    server.HandleAll(events, times);
    RestoreIsExclusive(Config(id, setting), events);
  }
}
