/** When a server that is down comes back by itself, and what a kill or a stop changes about that. */
module RequestedExits {
  import opened JsText
  import opened ServerLocks
  import opened ServerLifecycle

  /** A kill of a running server, or the first stop of it. */
  predicate AsksToExit(s: Instance, event: Event) {
    IsRunning(s) && (event.Kill? || (event.Stop? && s.stop == NoStop))
  }

  predicate NoExitOf(events: seq<Event>, r: nat) {
    forall i :: 0 <= i < |events| ==> !(events[i].Exit? && events[i].runtime == r)
  }

  /** The process runs and its exit was asked for. */
  ghost predicate Leaving(config: Config, w: World, r: nat) {
    Inv(config, w) && r in w.instance.alive && w.instance.exitRequested
  }

  lemma RequestMeansLeaving(config: Config, w: World, request: Event)
    requires Inv(config, w) && AsksToExit(w.instance, request)
    ensures Leaving(config, Next(config, w, request), w.instance.runtime.value)
  {
    StepKeepsInv(config, w, request);
  }

  /** Nothing but a launch takes the request back, and none begins while the process runs. */
  lemma StepKeepsLeaving(config: Config, w: World, event: Event, r: nat)
    requires Leaving(config, w, r) && !(event.Exit? && event.runtime == r)
    ensures Leaving(config, Next(config, w, event), r)
  {
    assert w.instance.alive == {r} && w.instance.launches == map[];
    StepKeepsInv(config, w, event);
    hide Inv, Next, NextLocks, Safe;
    StillAsked(config, w.instance, Holder(w.locks, config.server), event, r);
    NextIsNextInstance(config, w, event);
  }

  lemma NextIsNextInstance(config: Config, w: World, event: Event)
    ensures Next(config, w, event).instance == NextInstance(config, w.instance, Holder(w.locks, config.server), event)
  {
  }

  lemma StillAsked(config: Config, s: Instance, holder: Option<LockKind>, event: Event, r: nat)
    requires s.alive == {r} && s.runtime == Some(r) && s.launches == map[] && s.exitRequested
    requires !(event.Exit? && event.runtime == r)
    ensures var t := NextInstance(config, s, holder, event); r in t.alive && t.exitRequested
  {
  }

  lemma {:induction false} RunKeepsLeaving(config: Config, w: World, events: seq<Event>, r: nat)
    requires Leaving(config, w, r) && NoExitOf(events, r)
    ensures Leaving(config, Run(config, w, events), r)
  {
    if events != [] {
      hide Leaving, Next;
      RunKeepsLeaving(config, w, events[..|events| - 1], r);
      StepKeepsLeaving(config, Run(config, w, events[..|events| - 1]), events[|events| - 1], r);
    }
  }

  predicate Down(s: Instance) {
    s.alive == {} && s.launches == map[]
  }

  /** Only the status and the attempts differ, and no attempt was added. */
  ghost predicate OnlyStatus(s: Instance, t: Instance) {
    && t.timers == s.timers && t.attempts <= s.attempts && (t.status.Some? <==> s.status.Some?)
    && t.exitRequested == s.exitRequested && t.disposed == s.disposed && t.shuttingDown == s.shuttingDown
  }

  lemma StatusOnly(s: Instance, status: Status)
    ensures OnlyStatus(s, WithStatus(s, status))
    ensures s.status.Some? ==> WithStatus(s, status).status == Some(status)
  {
  }

  lemma NoVerdict(s: Instance, setting: RestartSetting, code: Option<int>)
    requires s.exitRequested
    ensures Judged(s, setting, code) == s
  {
  }

  /** The exit handler when the exit was asked for. */
  lemma RequestedClose(s: Instance, setting: RestartSetting, code: Option<int>, lastLine: Option<Status>)
    requires s.exitRequested
    ensures var t := Closed(s, setting, code, lastLine);
            OnlyStatus(s, t) && (t.status == Some(Crashed) <==> s.status.Some? && IsCrash(code))
  {
    hide WithStatus, Judged;
    var flushed := if lastLine.Some? then Detected(s, lastLine.value) else s;
    var status := if IsCrash(code) then Crashed else Stopped;
    if lastLine.Some? { StatusOnly(s, lastLine.value); }
    StatusOnly(flushed, status);
    NoVerdict(WithStatus(flushed, status), setting, code);
  }

  lemma LeavingExit(config: Config, before: World, r: nat, code: Option<int>, lastLine: Option<Status>)
    requires Leaving(config, before, r)
    ensures var s, t := before.instance, Next(config, before, Exit(r, code, lastLine)).instance;
            && Down(t) && OnlyStatus(s, t)
            && (t.status == Some(Crashed) <==> s.status.Some? && IsCrash(code))
  {
    var s := before.instance;
    var gone := s.(alive := s.alive - {r});
    assert gone.alive == {} && s.launches == map[];
    hide Closed, Inv, Safe;
    RequestedClose(gone, config.restartOnError, code, lastLine);
    ClosedKeeps(gone, config.restartOnError, code, lastLine);
  }

  /**
   * Whatever happens between a kill or stop and the exit it leads to, and however the process ends, that exit
   * counts no attempt and plans no restart.
   */
  lemma RequestedExitIsNoCrash(config: Config, w: World, request: Event, events: seq<Event>,
                               code: Option<int>, lastLine: Option<Status>)
    requires Inv(config, w) && AsksToExit(w.instance, request)
    requires NoExitOf(events, w.instance.runtime.value)
    ensures var r, before := w.instance.runtime.value, Run(config, Next(config, w, request), events);
            var after := Next(config, before, Exit(r, code, lastLine));
            && r in before.instance.alive && after.instance.alive == {}
            && after.instance.timers == before.instance.timers && after.instance.attempts <= before.instance.attempts
  {
    hide Next, Run, NoExitOf;
    var r := w.instance.runtime.value;
    RequestMeansLeaving(config, w, request);
    RunKeepsLeaving(config, Next(config, w, request), events, r);
    LeavingExit(config, Run(config, Next(config, w, request), events), r, code, lastLine);
  }

  // ----- coming back by itself

  /** A launch can follow without any manual start. */
  ghost predicate CanReturn(config: Config, w: World) {
    exists events :: NoManualStart(events) && Run(config, w, events).instance.launches != map[]
  }

  /** A crash restart waits, and nothing of what it checks after its delay is against it. */
  predicate MayReturn(s: Instance) {
    s.timers > 0 && s.status == Some(Crashed) && !s.disposed && !s.shuttingDown
  }

  lemma StaysDown(config: Config, w: World, event: Event)
    requires Down(w.instance) && !MayReturn(w.instance) && !event.ManualStart?
    ensures var s := Next(config, w, event).instance; Down(s) && !MayReturn(s)
  {
  }

  lemma {:induction false} RunStaysDown(config: Config, w: World, events: seq<Event>)
    requires Down(w.instance) && !MayReturn(w.instance) && NoManualStart(events)
    ensures var s := Run(config, w, events).instance; Down(s) && !MayReturn(s)
  {
    if events != [] {
      hide Next, Down, MayReturn;
      RunStaysDown(config, w, events[..|events| - 1]);
      StaysDown(config, Run(config, w, events[..|events| - 1]), events[|events| - 1]);
    }
  }

  lemma ReturnsNow(config: Config, w: World, event: Event)
    requires !event.ManualStart? && Next(config, w, event).instance.launches != map[]
    ensures CanReturn(config, w)
  {
    RunOne(config, w, event);
    assert NoManualStart([event]);
  }

  lemma TimerReturns(config: Config, w: World)
    requires Down(w.instance) && MayReturn(w.instance) && Holder(w.locks, config.server) != Some(RestoreLock)
    ensures CanReturn(config, w)
  {
    assert w.instance.nextId in Next(config, w, CrashTimer).instance.launches;
    hide Next, CanReturn;
    ReturnsNow(config, w, CrashTimer);
  }

  lemma ReturnsLater(config: Config, w: World, event: Event)
    requires !event.ManualStart? && CanReturn(config, Next(config, w, event))
    ensures CanReturn(config, w)
  {
    hide Next;
    var events :| NoManualStart(events) && Run(config, Next(config, w, event), events).instance.launches != map[];
    RunConcat(config, w, [event], events);
    RunOne(config, w, event);
    assert NoManualStart([event] + events);
  }

  /** A server that is down comes back by itself exactly when a crash restart waits and its checks can pass. */
  lemma ReturnsExactly(config: Config, w: World)
    requires Consistent(w.locks) && Down(w.instance)
    ensures CanReturn(config, w) <==> MayReturn(w.instance)
  {
    hide Next, Consistent, Holder, MayReturn;
    if !MayReturn(w.instance) {
      hide Run;
      forall events | NoManualStart(events)
        ensures Run(config, w, events).instance.launches == map[]
      {
        RunStaysDown(config, w, events);
      }
    } else if Holder(w.locks, config.server).Some? {
      hide Run, CanReturn;
      var i := HolderReleases(config, w);
      TimerReturns(config, Next(config, w, RunRelease(i)));
      ReturnsLater(config, w, RunRelease(i));
    } else {
      hide Run, CanReturn;
      TimerReturns(config, w);
    }
  }

  /**
   * So a killed or stopped server stays down, with one exception: its exit counts as a crash and a restart
   * from an earlier crash is still waiting.
   */
  lemma KilledReturnsExactly(config: Config, w: World, request: Event, events: seq<Event>,
                             code: Option<int>, lastLine: Option<Status>)
    requires Inv(config, w) && AsksToExit(w.instance, request)
    requires NoExitOf(events, w.instance.runtime.value)
    ensures var before := Run(config, Next(config, w, request), events);
            var s := before.instance;
            CanReturn(config, Next(config, before, Exit(w.instance.runtime.value, code, lastLine))) <==>
            s.timers > 0 && IsCrash(code) && s.status.Some? && !s.disposed && !s.shuttingDown
  {
    hide Next, Run, NoExitOf;
    var r := w.instance.runtime.value;
    var before := Run(config, Next(config, w, request), events);
    RequestMeansLeaving(config, w, request);
    RunKeepsLeaving(config, Next(config, w, request), events, r);
    LeavingExit(config, before, r, code, lastLine);
    StepKeepsInv(config, before, Exit(r, code, lastLine));
    ReturnsExactly(config, Next(config, before, Exit(r, code, lastLine)));
  }
}
