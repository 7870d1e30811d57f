/** When a manual start endangers a restore: exactly while a launch is in flight. */
module EarlyStarts {
  import opened JsText
  import opened ServerLocks
  import opened ServerLifecycle

  /** A violation can follow without any further manual start. */
  ghost predicate CanBreak(config: Config, w: World) {
    exists events :: NoManualStart(events) && !Safe(config, Run(config, w, events))
  }

  lemma BreaksLater(config: Config, w: World, event: Event)
    requires !event.ManualStart? && CanBreak(config, Next(config, w, event))
    ensures CanBreak(config, w)
  {
    var events :| NoManualStart(events) && !Safe(config, Run(config, Next(config, w, event), events));
    RunConcat(config, w, [event], events);
    RunOne(config, w, event);
    assert NoManualStart([event] + events);
  }

  lemma BreaksNow(config: Config, w: World)
    requires !Safe(config, w)
    ensures CanBreak(config, w)
  {
    assert Run(config, w, []) == w && NoManualStart([]);
  }

  /** A second manual start has joined a launch. */
  ghost predicate Joined(w: World, first: nat, second: nat) {
    var s := w.instance;
    && s.status == Some(Starting) && s.alive == {} && first != second
    && first in s.launches
    && second in s.launches && s.launches[second].phase.Preparing?
  }

  /** With the lock free the first process comes and goes, a restore begins, and the second starts under it. */
  lemma ArmedBreaks(config: Config, w: World, first: nat, second: nat)
    requires Joined(w, first, second) && w.instance.launches[first].phase.Armed?
    requires Holder(w.locks, config.server) == None
    ensures CanBreak(config, w)
  {
    var r := w.instance.launches[first].phase.runtime;
    var w1 := Next(config, w, Spawn(first));
    assert w1.instance.alive == {r};
    var w2 := Next(config, w1, Exit(r, Some(0), None));
    assert w2.instance.status == Some(Stopped);
    var w3 := Next(config, w2, BeginRestore);
    assert Holder(w3.locks, config.server) == Some(RestoreLock);
    assert second in w3.instance.launches;
    BreaksNow(config, w3);
    BreaksLater(config, w2, BeginRestore);
    BreaksLater(config, w1, Exit(r, Some(0), None));
    BreaksLater(config, w, Spawn(first));
  }

  /** A launch still preparing gets its runtime first. */
  lemma JoinedBreaks(config: Config, w: World, first: nat, second: nat)
    requires Joined(w, first, second) && Holder(w.locks, config.server) == None
    ensures CanBreak(config, w)
  {
    if w.instance.launches[first].phase.Preparing? {
      ArmedBreaks(config, Next(config, w, Arm(first)), first, second);
      BreaksLater(config, w, Arm(first));
    } else {
      ArmedBreaks(config, w, first, second);
    }
  }

  lemma SecondStartJoins(config: Config, w: World, first: nat)
    requires Inv(config, w) && first in w.instance.launches && w.instance.status.Some?
    ensures var joined := Next(config, w, ManualStart);
            && Joined(joined, first, w.instance.nextId)
            && Consistent(joined.locks) && Holder(joined.locks, config.server) != Some(RestoreLock)
  {
    AliveIsRunning(w.instance);
  }

  /** A start during a launch is too early: a violation can follow, the lock free or held by a backup. */
  lemma SecondStartBreaksExclusion(config: Config, w: World, first: nat)
    requires Inv(config, w) && first in w.instance.launches && w.instance.status.Some?
    ensures CanBreak(config, Next(config, w, ManualStart))
  {
    hide Next, Safe, CanBreak, Joined;
    var joined := Next(config, w, ManualStart);
    SecondStartJoins(config, w, first);
    if Holder(joined.locks, config.server).None? {
      JoinedBreaks(config, joined, first, w.instance.nextId);
    } else {
      var i := HolderReleases(config, joined);
      StillJoined(joined, Next(config, joined, RunRelease(i)), first, w.instance.nextId);
      JoinedBreaks(config, Next(config, joined, RunRelease(i)), first, w.instance.nextId);
      BreaksLater(config, joined, RunRelease(i));
    }
  }

  lemma StillJoined(w: World, after: World, first: nat, second: nat)
    requires Joined(w, first, second) && after.instance == w.instance
    ensures Joined(after, first, second)
  {
  }

  // ----- and no other start does

  lemma {:induction false} NoStartIsDisciplined(config: Config, w: World, events: seq<Event>)
    requires NoManualStart(events)
    ensures DisciplinedRun(config, w, events)
  {
    if events != [] {
      NoStartIsDisciplined(config, w, events[..|events| - 1]);
    }
  }

  lemma DisciplinedCannotBreak(config: Config, w: World)
    requires Inv(config, w)
    ensures !CanBreak(config, w)
  {
    forall events | NoManualStart(events)
      ensures Safe(config, Run(config, w, events))
    {
      NoStartIsDisciplined(config, w, events);
      RunKeepsInv(config, w, events);
    }
  }

  /** The server has no row, and no restore holds the lock. */
  predicate Rowless(config: Config, w: World) {
    w.instance.status.None? && Holder(w.locks, config.server) != Some(RestoreLock)
  }

  /** Without a row no restore can begin, and a missing row stays missing. */
  lemma NoRowNoRestore(config: Config, w: World, event: Event)
    requires Rowless(config, w)
    ensures Rowless(config, Next(config, w, event))
  {
    match event
    case Exit(r, code, last) =>
    case _ =>
  }

  lemma {:induction false} RowlessCannotBreak(config: Config, w: World, events: seq<Event>)
    requires Rowless(config, w)
    ensures Rowless(config, Run(config, w, events)) && Safe(config, Run(config, w, events))
  {
    if events != [] {
      hide Next;
      RowlessCannotBreak(config, w, events[..|events| - 1]);
      NoRowNoRestore(config, Run(config, w, events[..|events| - 1]), events[|events| - 1]);
    }
  }

  /**
   * The exact condition at the moment of a manual start: without any further start a violation can follow
   * just when a launch is in flight and the server has a row.
   */
  lemma StartBreaksExactly(config: Config, w: World)
    requires Inv(config, w)
    ensures CanBreak(config, Next(config, w, ManualStart)) <==> w.instance.launches != map[] && w.instance.status.Some?
  {
    hide Next, Run, Inv, Rowless;
    var after := Next(config, w, ManualStart);
    if w.instance.launches == map[] {
      StepKeepsInv(config, w, ManualStart);
      DisciplinedCannotBreak(config, after);
    } else if w.instance.status.None? {
      LaunchingIsRowless(config, w);
      NoRowNoRestore(config, w, ManualStart);
      forall events | NoManualStart(events)
        ensures Safe(config, Run(config, after, events))
      {
        RowlessCannotBreak(config, after, events);
      }
    } else {
      var first :| first in w.instance.launches;
      SecondStartBreaksExclusion(config, w, first);
    }
  }

  lemma LaunchingIsRowless(config: Config, w: World)
    requires Inv(config, w) && w.instance.launches != map[] && w.instance.status.None?
    ensures Rowless(config, w)
  {
  }

  // ----- a server from its first start on

  lemma RowStays(config: Config, w: World, event: Event)
    requires w.instance.status.Some?
    ensures Next(config, w, event).instance.status.Some?
  {
    match event
    case Exit(r, code, last) =>
    case _ =>
  }

  lemma {:induction false} RunKeepsRow(config: Config, w: World, events: seq<Event>)
    requires w.instance.status.Some?
    ensures Run(config, w, events).instance.status.Some?
  {
    if events != [] {
      hide Next;
      RunKeepsRow(config, w, events[..|events| - 1]);
      RowStays(config, Run(config, w, events[..|events| - 1]), events[|events| - 1]);
    }
  }

  /**
   * After every disciplined run of a server with a row, the next manual start makes a violation possible if
   * and only if a launch is in flight: the discipline asks for nothing that is not needed.
   */
  lemma DisciplineIsExact(config: Config, events: seq<Event>)
    requires DisciplinedRun(config, IDLE_WORLD, events)
    ensures var w := Run(config, IDLE_WORLD, events);
            CanBreak(config, Next(config, w, ManualStart)) <==> !Disciplined(w, ManualStart)
  {
    hide Next, CanBreak;
    RunKeepsInv(config, IDLE_WORLD, events);
    RunKeepsRow(config, IDLE_WORLD, events);
    StartBreaksExactly(config, Run(config, IDLE_WORLD, events));
  }
}
