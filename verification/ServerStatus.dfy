/** What each event does to the status of a server, its restarts and its lock, step by step. */
module ServerStatus {
  import opened JsText
  import opened ServerLocks
  import opened ServerLifecycle

  /** Exit codes that are no crash: none at all, everything up to 1, and 127, the shell's "not found". */
  predicate EndsWell(code: Option<int>) {
    code == None || code.value <= 1 || code.value == 127
  }

  /** Stored only for a server with a row. */
  function Stored(s: Instance, status: Status): Option<Status> {
    if s.status == None then None else Some(status)
  }

  /** Restart attempts when the exit is judged: a last line that says it is up resets them. */
  function AttemptsAtExit(s: Instance, lastLine: Option<Status>): nat {
    if lastLine == Some(Running) then 0 else s.attempts
  }

  /** A crash nobody asked for, with restarts on and fewer than `attempts` (or 3) behind it. */
  predicate IsPlanned(s: Instance, setting: RestartSetting, code: Option<int>, lastLine: Option<Status>) {
    && !EndsWell(code) && setting.enabled && !s.shuttingDown && !s.exitRequested
    && AttemptsAtExit(s, lastLine)
       < if setting.attempts == None || setting.attempts == Some(0) then 3 else setting.attempts.value
  }

  /**
   * The verdict on an exit. The status becomes stopped or crashed by the code alone. One more restart is planned,
   * and one attempt counted, just for a crash nobody asked for, with restarts on and attempts left.
   */
  lemma ExitIsJudged(config: Config, w: World, r: nat, code: Option<int>, lastLine: Option<Status>)
    requires r in w.instance.alive
    ensures var s, t, setting := w.instance, Next(config, w, Exit(r, code, lastLine)).instance, config.restartOnError;
            var attempts, planned := AttemptsAtExit(s, lastLine), IsPlanned(s, setting, code, lastLine);
            && t.status == Stored(s, if EndsWell(code) then Stopped else Crashed)
            && t.timers == s.timers + (if planned then 1 else 0)
            && t.attempts == attempts + (if planned then 1 else 0)
            && t.alive == s.alive - {r} && t.launches == s.launches
            && (s.stop.OpenStop? ==> t.stop == SettledStop)
  {
    var s := w.instance.(alive := w.instance.alive - {r});
    ClosedKeeps(s, config.restartOnError, code, lastLine);
    Judgement(s, config.restartOnError, code, lastLine);
    hide Closed, WithStatus, Judged;
  }

  lemma Flushed(s: Instance, lastLine: Option<Status>)
    ensures var t := if lastLine.Some? then Detected(s, lastLine.value) else s;
            && t.attempts == AttemptsAtExit(s, lastLine) && t.timers == s.timers
            && (t.status == None <==> s.status == None)
            && t.shuttingDown == s.shuttingDown && t.exitRequested == s.exitRequested && t.stop == s.stop
  {
  }

  lemma Ended(s: Instance, status: Status)
    requires status == Stopped || status == Crashed
    ensures WithStatus(s, status) == s.(status := Stored(s, status))
  {
  }

  lemma Judgement(s: Instance, setting: RestartSetting, code: Option<int>, lastLine: Option<Status>)
    ensures var attempts, planned := AttemptsAtExit(s, lastLine), IsPlanned(s, setting, code, lastLine);
            var t := Closed(s, setting, code, lastLine);
            && t.status == Stored(s, if EndsWell(code) then Stopped else Crashed)
            && t.timers == s.timers + (if planned then 1 else 0)
            && t.attempts == attempts + (if planned then 1 else 0)
            && (s.stop.OpenStop? ==> t.stop == SettledStop)
  {
    var flushed := if lastLine.Some? then Detected(s, lastLine.value) else s;
    Flushed(s, lastLine);
    Ended(flushed, if IsCrash(code) then Crashed else Stopped);
    hide WithStatus, Detected, AttemptsAtExit;
  }

  /** What the other events make of the status. */
  lemma StatusFollows(config: Config, w: World, event: Event)
    requires !event.Exit?
    ensures var s, t, up := w.instance, Next(config, w, event).instance, IsRunning(w.instance);
            var restoring := Holder(w.locks, config.server) == Some(RestoreLock);
            t.status ==
              match event
              case ManualStart => if !up && !restoring then Stored(s, Starting) else s.status
              case CrashTimer =>
                if s.timers > 0 && !up && !s.disposed && !s.shuttingDown && s.status == Some(Crashed) && !restoring
                then Some(Starting) else s.status
              case LaunchFails(id) =>
                if id in s.launches && s.launches[id].afterCrash && !up then Stored(s, Crashed) else s.status
              case Output(line) => if line == Stopped || line == Crashed then s.status else Stored(s, line)
              case Stop => if up && s.stop == NoStop then Stored(s, Stopping) else s.status
              case _ => s.status
  {
  }

  /** A kill and the first stop of a running server ask for the exit; a launch takes that back. */
  lemma ExitIsAskedFor(config: Config, w: World, event: Event)
    ensures var s, t, up := w.instance, Next(config, w, event).instance, IsRunning(w.instance);
            && (event.Kill? ==> t.exitRequested == (up || s.exitRequested))
            && (event.Stop? ==> t.exitRequested == ((up && s.stop == NoStop) || s.exitRequested))
            && (event.Stop? && up && s.stop == NoStop ==> t.stop == OpenStop(false))
            && (t.nextId > s.nextId && (event.ManualStart? || event.CrashTimer?) ==> !t.exitRequested)
  {
  }

  /** A stop is open, then killed, settled by the exit or given up after the kill, then cleared, by nothing else. */
  lemma StopGoesOn(config: Config, w: World, event: Event)
    ensures var s, t := w.instance, Next(config, w, event).instance;
            t.stop ==
              match s.stop
              case NoStop => if event.Stop? && IsRunning(s) then OpenStop(false) else NoStop
              case OpenStop(killed) =>
                if event.Exit? && event.runtime in s.alive then SettledStop
                else if event.StopEscalates? then OpenStop(true)
                else if event.StopGivenUp? && killed then SettledStop
                else s.stop
              case SettledStop => if event.StopCleared? then NoStop else SettledStop
  {
    if event.Exit? && event.runtime in w.instance.alive {
      var gone := w.instance.(alive := w.instance.alive - {event.runtime});
      ClosedStops(gone, config.restartOnError, event.code, event.lastLine);
    }
    hide Closed;
  }

  lemma ClosedStops(s: Instance, setting: RestartSetting, code: Option<int>, lastLine: Option<Status>)
    ensures Closed(s, setting, code, lastLine).stop == if s.stop.OpenStop? then SettledStop else s.stop
  {
    hide WithStatus, OnCrash;
    if lastLine.Some? { StatusKeepsStop(s, lastLine.value); }
    var flushed := if lastLine.Some? then Detected(s, lastLine.value) else s;
    StatusKeepsStop(flushed, if IsCrash(code) then Crashed else Stopped);
  }

  lemma StatusKeepsStop(s: Instance, status: Status)
    ensures WithStatus(s, status).stop == s.stop
  {
  }

  /** A restore takes the lock exactly of a stopped or crashed server that is free, a backup of any that is free. */
  lemma LocksAreTaken(config: Config, w: World)
    ensures var before := Holder(w.locks, config.server);
            && Holder(Next(config, w, BeginRestore).locks, config.server)
               == (if before == None && (w.instance.status == Some(Stopped) || w.instance.status == Some(Crashed))
                   then Some(RestoreLock) else before)
            && Holder(Next(config, w, BeginBackup).locks, config.server)
               == (if before == None then Some(BackupLock) else before)
  {
  }
}
