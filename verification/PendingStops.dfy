/** A stop in flight: settled when the process exits, or given up three seconds after the kill. */
module PendingStops {
  import opened JsText

  // ----- how long a stop may take

  /** `Number(raw)` of the environment variable; blank text counts as missing. */
  datatype RawTimeout = Missing | NotFinite | Finite(value: real)

  const DEFAULT_STOP_TIMEOUT_SEC: nat := 60
  const GIVE_UP_MS: nat := 3000

  /** `Math.round` */
  function Round(x: real): int {
    (x + 0.5).Floor
  }

  function StopTimeoutSec(raw: RawTimeout): int {
    if !raw.Finite? || raw.value < 1.0 then DEFAULT_STOP_TIMEOUT_SEC
    else if Round(raw.value) <= 3600 then Round(raw.value) else 3600
  }

  /** 60 s without a usable setting, else the nearest whole number of seconds, halves up, at most an hour. */
  lemma TimeoutInRange(raw: RawTimeout)
    ensures 1 <= StopTimeoutSec(raw) <= 3600
    ensures !raw.Finite? || raw.value < 1.0 ==> StopTimeoutSec(raw) == 60
    ensures raw.Finite? && raw.value >= 3600.0 ==> StopTimeoutSec(raw) == 3600
    ensures raw.Finite? && 1.0 <= raw.value <= 3600.0 ==>
              StopTimeoutSec(raw) as real - 0.5 <= raw.value < StopTimeoutSec(raw) as real + 0.5
  {
  }

  // ----- the protocol

  datatype Timer = NoTimer | Escalate(at: nat) | GiveUp(at: nat)

  /** What happened, in order. */
  datatype Entry =
    | Begun(id: nat, at: nat)
    | Exited(at: nat)
    | Escalated(id: nat, at: nat)
    | Settled(id: nat, ok: bool, at: nat)

  datatype Stop = Stop(
    settle: bool,            // the promise can still be settled
    timer: Timer,
    promise: Option<nat>,    // the stop callers join
    begun: seq<nat>,         // log position at which each stop began
    log: seq<Entry>)

  const NO_STOP: Stop := Stop(false, NoTimer, None, [], [])

  /** `begin` */
  function Begin(s: Stop, now: nat, timeoutMs: nat): Stop {
    Stop(true, Escalate(now + timeoutMs), Some(|s.begun|), s.begun + [|s.log|], s.log + [Begun(|s.begun|, now)])
  }

  /** `finish`: settles at most once. */
  function Finish(s: Stop, ok: bool, now: nat): Stop {
    if s.settle && s.promise.Some? then s.(settle := false, log := s.log + [Settled(s.promise.value, ok, now)]) else s
  }

  /** The process exits: `exited`. */
  function ExitedNow(s: Stop, now: nat): Stop {
    var t := s.(log := s.log + [Exited(now)]);
    if s.settle then Finish(t.(timer := NoTimer), true, now) else t
  }

  /** The armed timer fires. */
  function Fired(s: Stop, now: nat): Stop {
    match s.timer
    case NoTimer => s
    case Escalate(_) =>
      if s.settle && s.promise.Some?
      then s.(timer := GiveUp(now + GIVE_UP_MS), log := s.log + [Escalated(s.promise.value, now)])
      else s.(timer := NoTimer)
    case GiveUp(_) => Finish(s.(timer := NoTimer), false, now)
  }

  datatype Event =
    | Request                 // stop() of a running server
    | ProcessExit
    | TimerFires
    | PromiseCleared          // the promise's own cleanup, after it settled
    | Tick(to: nat)

  datatype Timed = Timed(clock: nat, stop: Stop)

  /** Timers fire when they are due: time does not run past an armed one. */
  function Next(w: Timed, timeoutMs: nat, event: Event): Timed {
    var s := w.stop;
    match event
    case Request => if s.promise.Some? then w else w.(stop := Begin(s, w.clock, timeoutMs))
    case ProcessExit => w.(stop := ExitedNow(s, w.clock))
    case TimerFires => if s.timer.NoTimer? || s.timer.at != w.clock then w else w.(stop := Fired(s, w.clock))
    case PromiseCleared => if s.settle then w else w.(stop := s.(promise := None))
    case Tick(to) => if to < w.clock || (!s.timer.NoTimer? && to > s.timer.at) then w else w.(clock := to)
  }

  function Run(timeoutMs: nat, events: seq<Event>): Timed {
    if events == [] then Timed(0, NO_STOP)
    else Next(Run(timeoutMs, events[..|events| - 1]), timeoutMs, events[|events| - 1])
  }

  // ----- what holds in every run

  function BeginTime(s: Stop, id: nat): nat
    requires id < |s.begun| && s.begun[id] < |s.log| && s.log[s.begun[id]].Begun?
  {
    s.log[s.begun[id]].at
  }

  predicate WellIndexed(s: Stop) {
    forall id :: 0 <= id < |s.begun| ==>
      s.begun[id] < |s.log| && s.log[s.begun[id]].Begun? && s.log[s.begun[id]].id == id
  }

  predicate ExitBetween(s: Stop, i: int, j: int) {
    exists k :: 0 <= k < |s.log| && i < k < j && s.log[k].Exited?
  }

  /** Position j settles a stop: its outcome, its time and what came before. */
  predicate SettledRight(s: Stop, timeoutMs: nat, j: nat)
    requires WellIndexed(s) && j < |s.log| && s.log[j].Settled?
  {
    var e := s.log[j];
    && e.id < |s.begun|
    && s.begun[e.id] < j
    && (e.ok <==> ExitBetween(s, s.begun[e.id], j))
    && (if e.ok then e.at <= BeginTime(s, e.id) + timeoutMs + GIVE_UP_MS
        else e.at == BeginTime(s, e.id) + timeoutMs + GIVE_UP_MS)
  }

  predicate Pending(s: Stop, id: int) {
    s.settle && s.promise == Some(id)
  }

  predicate SettledAt(s: Stop, id: int, j: int) {
    0 <= j < |s.log| && s.log[j].Settled? && s.log[j].id == id
  }

  predicate EscalatedAt(s: Stop, id: int, j: int) {
    0 <= j < |s.log| && s.log[j].Escalated? && s.log[j].id == id
  }

  /** The stop in flight: its timer is the right one, and nothing has exited since it began. */
  ghost predicate PendingRight(w: Timed, timeoutMs: nat)
    requires WellIndexed(w.stop)
  {
    var s := w.stop;
    s.settle ==>
      && s.promise.Some? && s.promise.value + 1 == |s.begun|
      && !ExitBetween(s, s.begun[s.promise.value], |s.log|)
      && (forall j :: !SettledAt(s, s.promise.value, j))
      && s.timer != NoTimer
      && w.clock <= s.timer.at
      && (s.timer.Escalate? ==>
            s.timer.at == BeginTime(s, s.promise.value) + timeoutMs && forall j :: !EscalatedAt(s, s.promise.value, j))
      && (s.timer.GiveUp? ==> s.timer.at == BeginTime(s, s.promise.value) + timeoutMs + GIVE_UP_MS)
  }

  ghost predicate Inv(w: Timed, timeoutMs: nat) {
    var s := w.stop;
    && WellIndexed(s)
    && PendingRight(w, timeoutMs)
    && (!s.settle ==> s.timer == NoTimer)
    && (s.promise.Some? ==> s.promise.value < |s.begun|)
    && (forall j :: 0 <= j < |s.log| && s.log[j].Settled? ==> SettledRight(s, timeoutMs, j))
    && (forall id :: 0 <= id < |s.begun| && !Pending(s, id) ==> exists j :: SettledAt(s, id, j))
    && (forall id, i, j :: SettledAt(s, id, i) && SettledAt(s, id, j) ==> i == j)
    && (forall id, i, j :: EscalatedAt(s, id, i) && EscalatedAt(s, id, j) ==> i == j)
    && (forall j :: 0 <= j < |s.log| && s.log[j].Escalated? ==>
          s.log[j].id < |s.begun| && s.log[j].at == BeginTime(s, s.log[j].id) + timeoutMs)
  }

  /** What was logged stays as it was. */
  predicate Extends(s: Stop, t: Stop) {
    s.log <= t.log && s.begun <= t.begun
  }

  lemma OldEntriesStay(s: Stop, t: Stop, timeoutMs: nat)
    requires WellIndexed(s) && WellIndexed(t) && Extends(s, t)
    ensures forall i, j :: j <= |s.log| ==> (ExitBetween(t, i, j) <==> ExitBetween(s, i, j))
    ensures forall id :: 0 <= id < |s.begun| ==> BeginTime(t, id) == BeginTime(s, id)
    ensures forall j :: 0 <= j < |s.log| && s.log[j].Settled? ==>
              (SettledRight(s, timeoutMs, j) ==> SettledRight(t, timeoutMs, j))
    ensures forall id, j :: j < |s.log| ==> (SettledAt(t, id, j) <==> SettledAt(s, id, j))
    ensures forall id, j :: j < |s.log| ==> (EscalatedAt(t, id, j) <==> EscalatedAt(s, id, j))
  {
    forall i, j | j <= |s.log|
      ensures ExitBetween(t, i, j) <==> ExitBetween(s, i, j)
    {
      if k :| 0 <= k < |s.log| && i < k < j && s.log[k].Exited? { assert t.log[k].Exited?; }
      if k :| 0 <= k < |t.log| && i < k < j && t.log[k].Exited? { assert s.log[k].Exited?; }
    }
    forall j | 0 <= j < |s.log| && s.log[j].Settled? && SettledRight(s, timeoutMs, j)
      ensures SettledRight(t, timeoutMs, j)
    {
      assert t.log[j] == s.log[j];
      assert ExitBetween(t, t.begun[s.log[j].id], j) <==> ExitBetween(s, s.begun[s.log[j].id], j);
    }
  }

  lemma BeginKeepsInv(w: Timed, timeoutMs: nat)
    requires Inv(w, timeoutMs) && w.stop.promise.None?
    ensures Inv(w.(stop := Begin(w.stop, w.clock, timeoutMs)), timeoutMs)
  {
    var s, t := w.stop, Begin(w.stop, w.clock, timeoutMs);
    OldEntriesStay(s, t, timeoutMs);
    NewStopIsUnknown(w, timeoutMs);
    assert PendingRight(w.(stop := t), timeoutMs);
    hide PendingRight, SettledRight, BeginTime, ExitBetween;
    forall id | 0 <= id < |t.begun| && !Pending(t, id)
      ensures exists j :: SettledAt(t, id, j)
    {
      assert !Pending(s, id);
      var j :| SettledAt(s, id, j);
      assert SettledAt(t, id, j);
    }
    forall id, i, j | EscalatedAt(t, id, i) && EscalatedAt(t, id, j)
      ensures i == j
    {
      assert EscalatedAt(s, id, i) && EscalatedAt(s, id, j);
    }
    forall id, i, j | SettledAt(t, id, i) && SettledAt(t, id, j)
      ensures i == j
    {
      assert SettledAt(s, id, i) && SettledAt(s, id, j);
    }
  }

  lemma NewStopIsUnknown(w: Timed, timeoutMs: nat)
    requires Inv(w, timeoutMs)
    ensures var s, t := w.stop, Begin(w.stop, w.clock, timeoutMs);
            WellIndexed(t) && forall j :: !SettledAt(t, |s.begun|, j) && !EscalatedAt(t, |s.begun|, j)
  {
    var s, t := w.stop, Begin(w.stop, w.clock, timeoutMs);
    forall j
      ensures !SettledAt(t, |s.begun|, j) && !EscalatedAt(t, |s.begun|, j)
    {
      if 0 <= j < |s.log| && s.log[j].Settled? { assert SettledRight(s, timeoutMs, j); }
    }
  }

  /** A stop settles: the entry is the first for it, and tells the truth about the exit. */
  lemma SettleKeepsInv(w: Timed, timeoutMs: nat, t: Stop, ok: bool)
    requires Inv(w, timeoutMs) && w.stop.settle
    requires var s := w.stop;
             var entries := (if ok then [Exited(w.clock)] else []) + [Settled(s.promise.value, ok, w.clock)];
             t == Stop(false, NoTimer, s.promise, s.begun, s.log + entries)
    requires !ok ==> w.stop.timer == GiveUp(w.clock)
    ensures Inv(w.(stop := t), timeoutMs)
  {
    var s, id, last := w.stop, w.stop.promise.value, |t.log| - 1;
    assert WellIndexed(t);
    OldEntriesStay(s, t, timeoutMs);
    assert t.log[last] == Settled(id, ok, w.clock);
    assert SettledAt(t, id, last);
    if ok {
      assert t.log[last - 1] == Exited(w.clock);
      assert ExitBetween(t, t.begun[id], last);
    } else {
      assert last == |s.log|;
    }
    assert SettledRight(t, timeoutMs, last);
    hide SettledRight, BeginTime, ExitBetween;
    forall other | 0 <= other < |t.begun| && !Pending(t, other)
      ensures exists j :: SettledAt(t, other, j)
    {
      if other != id {
        assert !Pending(s, other);
        var j :| SettledAt(s, other, j);
        assert SettledAt(t, other, j);
      }
    }
    forall other, i, j | SettledAt(t, other, i) && SettledAt(t, other, j)
      ensures i == j
    {
      if i < |s.log| { assert SettledAt(s, other, i); }
      if j < |s.log| { assert SettledAt(s, other, j); }
    }
    forall other, i, j | EscalatedAt(t, other, i) && EscalatedAt(t, other, j)
      ensures i == j
    {
      assert EscalatedAt(s, other, i) && EscalatedAt(s, other, j);
    }
  }

  lemma IdleExitKeepsInv(w: Timed, timeoutMs: nat)
    requires Inv(w, timeoutMs) && !w.stop.settle
    ensures Inv(w.(stop := ExitedNow(w.stop, w.clock)), timeoutMs)
  {
    var s, t := w.stop, ExitedNow(w.stop, w.clock);
    OldEntriesStay(s, t, timeoutMs);
    forall id | 0 <= id < |t.begun| && !Pending(t, id)
      ensures exists j :: SettledAt(t, id, j)
    {
      assert !Pending(s, id);
      var j :| SettledAt(s, id, j);
      assert SettledAt(t, id, j);
    }
  }

  lemma EscalateKeepsInv(w: Timed, timeoutMs: nat)
    requires Inv(w, timeoutMs) && w.stop.settle && w.stop.timer == Escalate(w.clock)
    ensures Inv(w.(stop := Fired(w.stop, w.clock)), timeoutMs)
  {
    var s, t := w.stop, Fired(w.stop, w.clock);
    var id := s.promise.value;
    OldEntriesStay(s, t, timeoutMs);
    assert forall k :: s.begun[id] < k < |s.log| ==> !s.log[k].Exited?;
    assert !ExitBetween(t, t.begun[id], |t.log|);
    forall other | 0 <= other < |t.begun| && !Pending(t, other)
      ensures exists j :: SettledAt(t, other, j)
    {
      assert !Pending(s, other);
      var j :| SettledAt(s, other, j);
      assert SettledAt(t, other, j);
    }
    forall other, i, j | EscalatedAt(t, other, i) && EscalatedAt(t, other, j)
      ensures i == j
    {
      if i < |s.log| { assert EscalatedAt(s, other, i); }
      if j < |s.log| { assert EscalatedAt(s, other, j); }
    }
    forall j
      ensures !SettledAt(t, id, j)
    {
      if j < |s.log| { assert !SettledAt(s, id, j); }
    }
  }

  lemma StepKeepsInv(w: Timed, timeoutMs: nat, event: Event)
    requires Inv(w, timeoutMs)
    ensures Inv(Next(w, timeoutMs, event), timeoutMs)
  {
    var s := w.stop;
    match event
    case Request =>
      if s.promise.None? { BeginKeepsInv(w, timeoutMs); }
    case ProcessExit =>
      if s.settle {
        var t := ExitedNow(s, w.clock);
        assert t.log == s.log + ([Exited(w.clock)] + [Settled(s.promise.value, true, w.clock)]);
        SettleKeepsInv(w, timeoutMs, t, true);
      } else {
        IdleExitKeepsInv(w, timeoutMs);
      }
    case TimerFires =>
      if !s.timer.NoTimer? && s.timer.at == w.clock {
        if s.timer.Escalate? {
          EscalateKeepsInv(w, timeoutMs);
        } else {
          var t := Fired(s, w.clock);
          assert t.log == s.log + ([] + [Settled(s.promise.value, false, w.clock)]);
          SettleKeepsInv(w, timeoutMs, t, false);
        }
      }
    case PromiseCleared =>
      if !s.settle { ClearKeepsInv(w, timeoutMs); }
    case Tick(to) =>
      TickKeepsInv(w, timeoutMs, to);
  }

  lemma ClearKeepsInv(w: Timed, timeoutMs: nat)
    requires Inv(w, timeoutMs) && !w.stop.settle
    ensures Inv(w.(stop := w.stop.(promise := None)), timeoutMs)
  {
    var s, t := w.stop, w.stop.(promise := None);
    OldEntriesStay(s, t, timeoutMs);
    forall id | 0 <= id < |t.begun| && !Pending(t, id)
      ensures exists j :: SettledAt(t, id, j)
    {
      assert !Pending(s, id);
      var j :| SettledAt(s, id, j);
      assert SettledAt(t, id, j);
    }
  }

  lemma TickKeepsInv(w: Timed, timeoutMs: nat, to: nat)
    requires Inv(w, timeoutMs)
    ensures Inv(Next(w, timeoutMs, Tick(to)), timeoutMs)
  {
  }

  lemma {:induction false} RunKeepsInv(timeoutMs: nat, events: seq<Event>)
    ensures Inv(Run(timeoutMs, events), timeoutMs)
  {
    if events != [] {
      RunKeepsInv(timeoutMs, events[..|events| - 1]);
      StepKeepsInv(Run(timeoutMs, events[..|events| - 1]), timeoutMs, events[|events| - 1]);
    }
  }

  // ----- the promises of the protocol

  /** Every stop that is not in flight has settled, exactly once. */
  lemma SettlesExactlyOnce(timeoutMs: nat, events: seq<Event>, id: nat)
    requires id < |Run(timeoutMs, events).stop.begun|
    ensures var s := Run(timeoutMs, events).stop;
            (Pending(s, id) <==> forall j :: !SettledAt(s, id, j))
            && forall i, j :: SettledAt(s, id, i) && SettledAt(s, id, j) ==> i == j
  {
    RunKeepsInv(timeoutMs, events);
  }

  /** It settles within the timeout and three seconds, true just when the process exited first. */
  lemma SettlesInTime(raw: RawTimeout, events: seq<Event>, j: nat)
    requires var s := Run(StopTimeoutSec(raw) * 1000, events).stop; j < |s.log| && s.log[j].Settled?
    ensures var s := Run(StopTimeoutSec(raw) * 1000, events).stop;
            WellIndexed(s) && s.log[j].id < |s.begun|
            && (s.log[j].ok <==> ExitBetween(s, s.begun[s.log[j].id], j))
            && s.log[j].at <= BeginTime(s, s.log[j].id) + StopTimeoutSec(raw) * 1000 + 3000
                           <= BeginTime(s, s.log[j].id) + 3603 * 1000
  {
    RunKeepsInv(StopTimeoutSec(raw) * 1000, events);
    TimeoutInRange(raw);
    assert SettledRight(Run(StopTimeoutSec(raw) * 1000, events).stop, StopTimeoutSec(raw) * 1000, j);
  }

  /** A stop still in flight has not used up its time. */
  lemma PendingIsInTime(timeoutMs: nat, events: seq<Event>, id: nat)
    requires Pending(Run(timeoutMs, events).stop, id)
    ensures var w := Run(timeoutMs, events);
            WellIndexed(w.stop) && id < |w.stop.begun|
            && w.clock <= BeginTime(w.stop, id) + timeoutMs + GIVE_UP_MS
            && !w.stop.timer.NoTimer?
  {
    RunKeepsInv(timeoutMs, events);
  }

  /** A stop escalates at most once, and only after the full timeout. */
  lemma EscalatesOnceAfterTimeout(timeoutMs: nat, events: seq<Event>, i: nat, j: nat)
    requires var s := Run(timeoutMs, events).stop;
             i < |s.log| && s.log[i].Escalated? && EscalatedAt(s, s.log[i].id, j)
    ensures var s := Run(timeoutMs, events).stop;
            i == j && WellIndexed(s) && s.log[i].id < |s.begun| && s.log[i].at == BeginTime(s, s.log[i].id) + timeoutMs
  {
    RunKeepsInv(timeoutMs, events);
    assert EscalatedAt(Run(timeoutMs, events).stop, Run(timeoutMs, events).stop.log[i].id, i);
  }

  lemma RunSnoc(timeoutMs: nat, events: seq<Event>, event: Event)
    ensures Run(timeoutMs, events + [event]) == Next(Run(timeoutMs, events), timeoutMs, event)
  {
    assert (events + [event])[..|events|] == events;
  }

  /** Time runs up to the armed timer, which then fires. */
  function ComesDue(w: Timed): seq<Event>
    requires !w.stop.timer.NoTimer?
  {
    [Tick(w.stop.timer.at), TimerFires]
  }

  lemma DueTimerFires(timeoutMs: nat, events: seq<Event>)
    requires !Run(timeoutMs, events).stop.timer.NoTimer?
    requires Run(timeoutMs, events).clock <= Run(timeoutMs, events).stop.timer.at
    ensures var w := Run(timeoutMs, events);
            Run(timeoutMs, events + ComesDue(w)) == Timed(w.stop.timer.at, Fired(w.stop, w.stop.timer.at))
  {
    var w := Run(timeoutMs, events);
    assert events + ComesDue(w) == events + [Tick(w.stop.timer.at)] + [TimerFires];
    RunSnoc(timeoutMs, events, Tick(w.stop.timer.at));
    RunSnoc(timeoutMs, events + [Tick(w.stop.timer.at)], TimerFires);
  }

  /** The stop began then, and is the one still in flight. */
  ghost predicate BeganAt(s: Stop, id: nat, at: nat) {
    Pending(s, id) && id < |s.begun| && s.begun[id] < |s.log| && s.log[s.begun[id]] == Begun(id, at)
  }

  ghost predicate GivenUpAt(w: Timed, id: nat, at: nat) {
    !w.stop.settle && w.stop.log != [] && w.stop.log[|w.stop.log| - 1] == Settled(id, false, at)
  }

  lemma BeginningOf(timeoutMs: nat, events: seq<Event>, id: nat)
    requires Pending(Run(timeoutMs, events).stop, id)
    ensures var w := Run(timeoutMs, events);
            && WellIndexed(w.stop) && id < |w.stop.begun| && BeganAt(w.stop, id, BeginTime(w.stop, id))
            && !w.stop.timer.NoTimer? && w.clock <= w.stop.timer.at
            && w.stop.timer.at == BeginTime(w.stop, id) + timeoutMs + if w.stop.timer.Escalate? then 0 else GIVE_UP_MS
  {
    RunKeepsInv(timeoutMs, events);
  }

  lemma KilledIsGivenUp(timeoutMs: nat, events: seq<Event>, id: nat)
    requires Pending(Run(timeoutMs, events).stop, id) && Run(timeoutMs, events).stop.timer.GiveUp?
    ensures var w := Run(timeoutMs, events); GivenUpAt(Run(timeoutMs, events + ComesDue(w)), id, w.stop.timer.at)
  {
    BeginningOf(timeoutMs, events, id);
    DueTimerFires(timeoutMs, events);
    hide Run;
  }

  lemma EscalationKeeps(s: Stop, id: nat, at: nat)
    requires BeganAt(s, id, at) && s.timer.Escalate?
    ensures var t := Fired(s, s.timer.at); BeganAt(t, id, at) && t.timer == GiveUp(s.timer.at + GIVE_UP_MS)
  {
  }

  /**
   * And a stop whose process never exits is given up: let time pass and its timers fire, and it settles with
   * false just three seconds after the full timeout.
   */
  lemma HungStopIsGivenUp(timeoutMs: nat, events: seq<Event>, id: nat) returns (more: seq<Event>)
    requires Pending(Run(timeoutMs, events).stop, id)
    ensures ProcessExit !in more
    ensures var s := Run(timeoutMs, events).stop;
            && WellIndexed(s) && id < |s.begun|
            && GivenUpAt(Run(timeoutMs, events + more), id, BeginTime(s, id) + timeoutMs + 3000)
  {
    var w := Run(timeoutMs, events);
    BeginningOf(timeoutMs, events, id);
    more := ComesDue(w);
    if w.stop.timer.Escalate? {
      DueTimerFires(timeoutMs, events);
      EscalationKeeps(w.stop, id, BeginTime(w.stop, id));
      hide Run, Fired;
      KilledIsGivenUp(timeoutMs, events + more, id);
      var rest := ComesDue(Run(timeoutMs, events + more));
      assert events + more + rest == events + (more + rest);
      more := more + rest;
    } else {
      KilledIsGivenUp(timeoutMs, events, id);
    }
  }

  /** A second stop joins the one in flight: it begins nothing and arms nothing. */
  lemma SecondStopJoins(timeoutMs: nat, events: seq<Event>, id: nat)
    requires Pending(Run(timeoutMs, events).stop, id)
    ensures Run(timeoutMs, events + [Request]) == Run(timeoutMs, events)
  {
    assert (events + [Request])[..|events|] == events;
  }

  // ----- the object

  class PendingStop {
    var settle: bool
    var timer: Timer
    var promise: Option<nat>
    ghost var begun: seq<nat>
    var stops: nat
    ghost var log: seq<Entry>
    const timeoutSec: nat

    ghost predicate Valid()
      reads this
    {
      stops == |begun| && (settle ==> promise.Some? && !timer.NoTimer?)
    }

    ghost function View(): Stop
      reads this
    {
      Stop(settle, timer, promise, begun, log)
    }

    constructor (raw: RawTimeout)
      ensures Valid() && View() == NO_STOP && timeoutSec == StopTimeoutSec(raw)
    {
      TimeoutInRange(raw);
      settle, timer, promise, begun, stops, log := false, NoTimer, None, [], 0, [];
      timeoutSec := StopTimeoutSec(raw);
    }

    method BeginStop(now: nat) returns (id: nat)
      requires Valid()
      modifies this
      ensures Valid() && View() == Begin(old(View()), now, timeoutSec * 1000) && promise == Some(id)
    {
      id := stops;
      promise := Some(id);
      settle := true;
      timer := Escalate(now + timeoutSec * 1000);
      stops := stops + 1;
      begun, log := begun + [|log|], log + [Begun(id, now)];
    }

    method FinishStop(ok: bool, now: nat)
      requires stops == |begun| && (settle ==> promise.Some?)
      modifies this
      ensures Valid() && View() == Finish(old(View()), ok, now)
    {
      if !settle { return; }
      settle := false;
      log := log + [Settled(promise.value, ok, now)];
    }

    method Exit(now: nat)
      requires Valid()
      modifies this
      ensures Valid() && View() == ExitedNow(old(View()), now)
    {
      log := log + [Exited(now)];
      if !settle { return; }
      timer := NoTimer;
      FinishStop(true, now);
    }

    /** The promise's own cleanup, once it has settled. */
    method ClearPromise()
      requires Valid() && !settle
      modifies this
      ensures Valid() && View() == old(View()).(promise := None)
    {
      promise := None;
    }

    method TimerFires(now: nat)
      requires Valid()
      modifies this
      ensures Valid() && View() == Fired(old(View()), now)
    {
      if timer.Escalate? {
        if !settle {
          timer := NoTimer;
          return;
        }
        timer := GiveUp(now + 3000);
        log := log + [Escalated(promise.value, now)];
      } else if timer.GiveUp? {
        timer := NoTimer;
        FinishStop(false, now);
      }
    }
  }
}
