/** How often a server comes back by itself between two resets of its restart attempts. */
module CrashBudget {
  import opened JsText
  import opened ServerLocks
  import opened ServerLifecycle

  predicate Resets(w: World, event: Event) {
    || (event.ManualStart? && !IsRunning(w.instance))
    || event == Output(Running)
    || (event.Exit? && event.runtime in w.instance.alive && event.lastLine == Some(Running))
  }

  /** The step is a crash restart that passes its checks and begins a launch. */
  predicate Relaunches(config: Config, w: World, event: Event) {
    event.CrashTimer? && Next(config, w, event).instance.nextId > w.instance.nextId
  }

  predicate NoResets(config: Config, w: World, events: seq<Event>) {
    events == [] ||
    (var init := events[..|events| - 1];
     NoResets(config, w, init) && !Resets(Run(config, w, init), events[|events| - 1]))
  }

  function CrashRelaunches(config: Config, w: World, events: seq<Event>): nat {
    if events == [] then 0
    else
      var init := events[..|events| - 1];
      CrashRelaunches(config, w, init) + if Relaunches(config, Run(config, w, init), events[|events| - 1]) then 1 else 0
  }

  function AttemptsLeft(config: Config, s: Instance): nat {
    if s.attempts >= Limit(config.restartOnError) then 0 else Limit(config.restartOnError) - s.attempts
  }

  /** Every reset gives the whole limit back. */
  lemma ResetRefills(config: Config, w: World, event: Event)
    requires Resets(w, event) && !event.Exit?
    ensures AttemptsLeft(config, Next(config, w, event).instance) == Limit(config.restartOnError)
  {
  }

  function Budget(config: Config, s: Instance): nat {
    s.timers + AttemptsLeft(config, s)
  }

  lemma ClosedIsBudgeted(config: Config, s: Instance, code: Option<int>, lastLine: Option<Status>)
    requires lastLine != Some(Running)
    ensures Budget(config, Closed(s, config.restartOnError, code, lastLine)) == Budget(config, s)
  {
  }

  lemma TimerIsBudgeted(config: Config, w: World)
    ensures (if Relaunches(config, w, CrashTimer) then 1 else 0) + Budget(config, Next(config, w, CrashTimer).instance)
            <= Budget(config, w.instance)
  {
  }

  lemma RelaunchesAreBudgeted(config: Config, w: World, event: Event)
    requires !Resets(w, event)
    ensures (if Relaunches(config, w, event) then 1 else 0) + Budget(config, Next(config, w, event).instance)
            <= Budget(config, w.instance)
  {
    var s := w.instance;
    match event
    case CrashTimer => TimerIsBudgeted(config, w);
    case Exit(r, code, last) =>
      if r in s.alive { ClosedIsBudgeted(config, s.(alive := s.alive - {r}), code, last); }
    case _ =>
  }

  lemma {:induction false} RunIsBudgeted(config: Config, w: World, events: seq<Event>)
    requires NoResets(config, w, events)
    ensures CrashRelaunches(config, w, events) + Budget(config, Run(config, w, events).instance)
            <= Budget(config, w.instance)
  {
    if events != [] {
      hide Next, Resets, Relaunches, Budget;
      RunIsBudgeted(config, w, events[..|events| - 1]);
      RelaunchesAreBudgeted(config, Run(config, w, events[..|events| - 1]), events[|events| - 1]);
    }
  }

  /**
   * Between two resets a server comes back at most `attempts` (or 3) times, plus the restarts still waiting at
   * the first.
   */
  lemma CrashRelaunchesAreBounded(config: Config, w: World, events: seq<Event>)
    requires NoResets(config, w, events)
    ensures CrashRelaunches(config, w, events) <= Limit(config.restartOnError) + w.instance.timers
  {
    RunIsBudgeted(config, w, events);
  }

  // ----- the budget is used up

  /** From w some run without a reset leads to `after`, with n relaunches on the way. */
  ghost predicate Comes(config: Config, w: World, n: nat, after: World) {
    exists events :: IsWay(config, w, events, n, after)
  }

  ghost predicate IsWay(config: Config, w: World, events: seq<Event>, n: nat, after: World) {
    NoResets(config, w, events) && CrashRelaunches(config, w, events) == n && Run(config, w, events) == after
  }

  lemma ComesNowhere(config: Config, w: World)
    ensures Comes(config, w, 0, w)
  {
    assert IsWay(config, w, [], 0, w);
  }

  lemma OneStep(config: Config, w: World, event: Event)
    requires !Resets(w, event)
    ensures Comes(config, w, if Relaunches(config, w, event) then 1 else 0, Next(config, w, event))
  {
    assert [event][..0] == [];
    assert Run(config, w, []) == w && CrashRelaunches(config, w, []) == 0 && NoResets(config, w, []);
    assert IsWay(config, w, [event], if Relaunches(config, w, event) then 1 else 0, Next(config, w, event));
  }

  lemma {:induction false} WayConcat(config: Config, w: World, a: seq<Event>, b: seq<Event>)
    requires NoResets(config, w, a) && NoResets(config, Run(config, w, a), b)
    ensures NoResets(config, w, a + b)
    ensures CrashRelaunches(config, w, a + b)
         == CrashRelaunches(config, w, a) + CrashRelaunches(config, Run(config, w, a), b)
  {
    hide Next, Resets, Relaunches;
    if b == [] {
      assert a + b == a;
    } else {
      var init := b[..|b| - 1];
      WayConcat(config, w, a, init);
      RunConcat(config, w, a, init);
      assert (a + b)[..|a + b| - 1] == a + init;
    }
  }

  lemma ComesFurther(config: Config, w: World, m: nat, mid: World, n: nat, after: World)
    requires Comes(config, w, m, mid) && Comes(config, mid, n, after)
    ensures Comes(config, w, m + n, after)
  {
    var a :| IsWay(config, w, a, m, mid);
    var b :| IsWay(config, mid, b, n, after);
    WayConcat(config, w, a, b);
    RunConcat(config, w, a, b);
    assert IsWay(config, w, a + b, m + n, after);
  }

  /** One launch is being prepared, nothing runs, nothing suppresses a crash restart and no restore holds the lock. */
  ghost predicate Launching(config: Config, w: World, id: nat) {
    var s := w.instance;
    && config.restartOnError.enabled
    && id in s.launches && s.launches == map[id := s.launches[id]] && s.launches[id].phase.Preparing?
    && s.alive == {} && s.status.Some?
    && !s.exitRequested && !s.shuttingDown && !s.disposed
    && Holder(w.locks, config.server) != Some(RestoreLock)
  }

  /** The process of that launch comes up and crashes. */
  function Crashing(config: Config, s: Instance): Instance {
    var t := s.(status := Some(Crashed), runtime := Some(s.nextId), launches := map[], nextId := s.nextId + 1,
                stop := StopSettles(s).stop);
    if s.attempts < Limit(config.restartOnError) then t.(attempts := s.attempts + 1, timers := s.timers + 1) else t
  }

  /** The world of that launch with its process up. */
  function Launched(w: World): World {
    var r := w.instance.nextId;
    w.(instance := w.instance.(runtime := Some(r), alive := {r}, launches := map[], nextId := r + 1))
  }

  lemma LaunchComesUp(config: Config, w: World, id: nat)
    requires Launching(config, w, id)
    ensures Comes(config, w, 0, Launched(w))
  {
    var s := w.instance;
    var w1 := Next(config, w, Arm(id));
    assert w1.instance.launches - {id} == map[];
    assert {} + {s.nextId} == {s.nextId};
    assert Next(config, w1, Spawn(id)) == Launched(w);
    OneStep(config, w, Arm(id));
    OneStep(config, w1, Spawn(id));
    ComesFurther(config, w, 0, w1, 0, Launched(w));
  }

  lemma CrashStep(config: Config, w: World, id: nat)
    requires Launching(config, w, id)
    ensures Next(config, Launched(w), Exit(w.instance.nextId, Some(2), None))
         == World(Crashing(config, w.instance), w.locks)
  {
    var r := w.instance.nextId;
    assert {r} - {r} == {};
  }

  /** The same world after the crash. */
  function Down(config: Config, w: World): World {
    World(Crashing(config, w.instance), w.locks)
  }

  lemma LaunchCrashes(config: Config, w: World, id: nat)
    requires Launching(config, w, id)
    ensures Comes(config, w, 0, Down(config, w))
  {
    hide Next, Run, NoResets, CrashRelaunches, IsWay, Crashing;
    LaunchComesUp(config, w, id);
    CrashStep(config, w, id);
    CrashIsNoReset(config, w, id);
    ComesFurther(config, w, 0, Launched(w), 0, Down(config, w));
  }

  lemma CrashIsNoReset(config: Config, w: World, id: nat)
    requires Launching(config, w, id)
    requires Next(config, Launched(w), Exit(w.instance.nextId, Some(2), None)) == Down(config, w)
    ensures Comes(config, Launched(w), 0, Down(config, w))
  {
    OneStep(config, Launched(w), Exit(w.instance.nextId, Some(2), None));
  }

  /** A crash moves one attempt left to the restarts waiting. */
  lemma CrashingBudget(config: Config, w: World, id: nat)
    requires Launching(config, w, id)
    ensures var s := Crashing(config, w.instance);
            && Budget(config, s) == Budget(config, w.instance)
            && (Budget(config, s) > 0 ==> s.timers > 0)
            && s.alive == {} && s.launches == map[] && s.status == Some(Crashed) && s.nextId == w.instance.nextId + 1
            && !s.exitRequested && !s.shuttingDown && !s.disposed
  {
  }

  /** A server down after a crash, with a restart waiting: the delay ends and it launches again. */
  lemma WaitingRelaunches(config: Config, down: World)
    requires config.restartOnError.enabled && Holder(down.locks, config.server) != Some(RestoreLock)
    requires var s := down.instance;
             && s.alive == {} && s.launches == map[] && s.status == Some(Crashed) && s.timers > 0
             && !s.exitRequested && !s.shuttingDown && !s.disposed
    ensures var after := Next(config, down, CrashTimer);
            && Relaunches(config, down, CrashTimer)
            && Launching(config, after, down.instance.nextId)
            && Budget(config, after.instance) == Budget(config, down.instance) - 1
  {
  }

  lemma TimerComes(config: Config, w: World, down: World)
    requires Comes(config, w, 0, down) && Relaunches(config, down, CrashTimer)
    ensures Comes(config, w, 1, Next(config, down, CrashTimer))
  {
    hide Next, Run, NoResets, CrashRelaunches, IsWay;
    OneStep(config, down, CrashTimer);
    ComesFurther(config, w, 0, down, 1, Next(config, down, CrashTimer));
  }

  /** A waiting crash restart then launches the server again. */
  lemma CrashComesBack(config: Config, w: World, id: nat)
    requires Launching(config, w, id) && Budget(config, w.instance) > 0
    ensures var after := Next(config, Down(config, w), CrashTimer);
            && Comes(config, w, 1, after)
            && Launching(config, after, w.instance.nextId + 1)
            && Budget(config, after.instance) == Budget(config, w.instance) - 1
  {
    hide Next, Run, NoResets, CrashRelaunches, IsWay, Comes;
    LaunchCrashes(config, w, id);
    CrashingBudget(config, w, id);
    WaitingRelaunches(config, Down(config, w));
    TimerComes(config, w, Down(config, w));
  }

  /** The budget is sharp: from every such world some run without a reset relaunches as often as the budget allows. */
  lemma {:induction false} BudgetIsUsedUp(config: Config, w: World, id: nat)
    requires Launching(config, w, id)
    ensures exists after :: Comes(config, w, Budget(config, w.instance), after)
    decreases Budget(config, w.instance)
  {
    hide *;
    if Budget(config, w.instance) == 0 {
      ComesNowhere(config, w);
    } else {
      CrashComesBack(config, w, id);
      var next := Next(config, Down(config, w), CrashTimer);
      BudgetIsUsedUp(config, next, w.instance.nextId + 1);
      var after :| Comes(config, next, Budget(config, next.instance), after);
      ComesFurther(config, w, 1, next, Budget(config, next.instance), after);
    }
  }

  /** The limit alone bounds every continuation up to the next reset. */
  ghost predicate WithinLimit(config: Config, w: World) {
    forall events :: NoResets(config, w, events) ==> CrashRelaunches(config, w, events) <= Limit(config.restartOnError)
  }

  lemma LimitHoldsFrom(config: Config, w: World, id: nat)
    requires Launching(config, w, id) && w.instance.attempts == 0
    ensures WithinLimit(config, w) <==> w.instance.timers == 0
  {
    if w.instance.timers == 0 {
      forall events | NoResets(config, w, events)
        ensures CrashRelaunches(config, w, events) <= Limit(config.restartOnError)
      {
        CrashRelaunchesAreBounded(config, w, events);
      }
    } else {
      BudgetIsUsedUp(config, w, id);
      var after :| Comes(config, w, Budget(config, w.instance), after);
      var events :| IsWay(config, w, events, Budget(config, w.instance), after);
    }
  }

  /** A server that is down, with nothing in flight. */
  predicate Startable(config: Config, w: World) {
    var s := w.instance;
    && s.alive == {} && s.launches == map[] && s.status.Some?
    && !s.shuttingDown && !s.disposed && Holder(w.locks, config.server) != Some(RestoreLock)
  }

  /**
   * For every setting with crash restarts on: after a manual start the server comes back at most `attempts`
   * (or 3) times up to the next reset if and only if no crash restart was still waiting at that start.
   */
  lemma LimitHoldsExactly(config: Config, w: World)
    requires config.restartOnError.enabled && Startable(config, w)
    ensures WithinLimit(config, Next(config, w, ManualStart)) <==> w.instance.timers == 0
  {
    LimitHoldsFrom(config, Next(config, w, ManualStart), w.instance.nextId);
  }

  /** The most relaunches a run without a reset can have: never more, and some run has as many. */
  ghost predicate MostRelaunches(config: Config, w: World, most: nat) {
    && (forall events :: NoResets(config, w, events) ==> CrashRelaunches(config, w, events) <= most)
    && (exists events :: NoResets(config, w, events) && CrashRelaunches(config, w, events) == most)
  }

  /**
   * After such a start with no restart waiting the server comes back at most, and in some run just, as often as
   * `attempts` says, three times when it says nothing or 0, and never when crash restarts are off.
   */
  lemma MostRelaunchesExactly(config: Config, w: World)
    requires Startable(config, w) && w.instance.timers == 0
    ensures var setting := config.restartOnError;
            MostRelaunches(config, Next(config, w, ManualStart),
              if !setting.enabled then 0
              else if setting.attempts == None || setting.attempts == Some(0) then 3
              else setting.attempts.value)
  {
    var started := Next(config, w, ManualStart);
    if config.restartOnError.enabled {
      BudgetIsUsedUp(config, started, w.instance.nextId);
      var after :| Comes(config, started, Budget(config, started.instance), after);
      var events :| IsWay(config, started, events, Budget(config, started.instance), after);
      forall others | NoResets(config, started, others)
        ensures CrashRelaunches(config, started, others) <= Budget(config, started.instance)
      {
        RunIsBudgeted(config, started, others);
      }
    } else {
      forall events
        ensures CrashRelaunches(config, started, events) == 0
      {
        OffNeverRelaunches(config, started, events);
      }
      assert NoResets(config, started, []) && CrashRelaunches(config, started, []) == 0;
    }
  }

  /** With crash restarts off none is ever planned. */
  lemma {:induction false} OffNeverRelaunches(config: Config, w: World, events: seq<Event>)
    requires !config.restartOnError.enabled && w.instance.timers == 0
    ensures CrashRelaunches(config, w, events) == 0 && Run(config, w, events).instance.timers == 0
  {
    if events != [] {
      hide Next, Relaunches;
      var before := Run(config, w, events[..|events| - 1]);
      OffNeverRelaunches(config, w, events[..|events| - 1]);
      OffPlansNone(config, before, events[|events| - 1]);
    }
  }

  lemma OffPlansNone(config: Config, w: World, event: Event)
    requires !config.restartOnError.enabled && w.instance.timers == 0
    ensures Next(config, w, event).instance.timers == 0 && !Relaunches(config, w, event)
  {
    match event
    case Exit(r, code, last) =>
    case _ =>
  }

  /** Such a start happens under every setting: a first manual start, one crash, and the next start comes early. */
  lemma WaitingStartHappens(config: Config)
    requires config.restartOnError.enabled
    ensures exists events :: var w := Run(config, IDLE_WORLD, events);
              Startable(config, w) && w.instance.timers == 1 && !WithinLimit(config, Next(config, w, ManualStart))
  {
    var started := Next(config, IDLE_WORLD, ManualStart);
    LaunchCrashes(config, started, 0);
    var down := Down(config, started);
    var events :| IsWay(config, started, events, 0, down);
    RunConcat(config, IDLE_WORLD, [ManualStart], events);
    RunOne(config, IDLE_WORLD, ManualStart);
    assert Run(config, IDLE_WORLD, [ManualStart] + events) == down;
    LimitHoldsExactly(config, down);
  }
}
