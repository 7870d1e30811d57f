/** Slots for calls to Mojang: four at a time, a bounded queue, and hand-over of a freed slot. */
module LookupSlots {
  import opened JsText
  import opened Collections

  const MAX_PARALLEL: nat := 4
  const MAX_QUEUED: nat := 32

  type Call = nat

  datatype Slots = Slots(active: nat, queue: seq<Call>)

  datatype Acquire = Granted | Queued | Rejected

  function AcquireAnswer(s: Slots): Acquire {
    if s.active < MAX_PARALLEL then Granted
    else if |s.queue| >= MAX_QUEUED then Rejected
    else Queued
  }

  function AfterAcquire(s: Slots, call: Call): Slots {
    match AcquireAnswer(s)
    case Granted => s.(active := s.active + 1)
    case Queued => s.(queue := s.queue + [call])
    case Rejected => s
  }

  /** A freed slot goes to the oldest waiter; only without waiters does the count go down. */
  function AfterRelease(s: Slots): Slots
    requires s.active > 0
  {
    if s.queue != [] then s.(queue := s.queue[1..]) else s.(active := s.active - 1)
  }

  class SlotQueue {
    var active: nat
    var queue: seq<Call>

    function View(): Slots
      reads this
    {
      Slots(active, queue)
    }

    constructor ()
      ensures View() == Slots(0, [])
    {
      active, queue := 0, [];
    }

    method Acquire(call: Call) returns (answer: Acquire)
      modifies this
      ensures answer == AcquireAnswer(old(View())) && View() == AfterAcquire(old(View()), call)
    {
      if active < MAX_PARALLEL {
        active := active + 1;
        return Granted;
      }
      if |queue| >= MAX_QUEUED { return Rejected; }
      queue := queue + [call];
      return Queued;
    }

    method Release() returns (woken: Option<Call>)
      requires active > 0
      modifies this
      ensures View() == AfterRelease(old(View()))
      ensures woken == if old(queue) != [] then Some(old(queue)[0]) else None
    {
      if queue != [] {
        woken := Some(queue[0]);
        queue := queue[1..];
      } else {
        woken := None;
        active := active - 1;
      }
    }
  }

  // ----- runs

  /** A call asks for a slot, or a call that holds one is done. */
  datatype Event = Ask(call: Call) | Done(call: Call)

  /**
   * The system with its calls: who holds a slot, and the history of calls taken in (granted or queued) and of
   * calls given a slot, both in order.
   */
  datatype System = System(slots: Slots, holders: set<Call>, taken: seq<Call>, served: seq<Call>)

  const FRESH: System := System(Slots(0, []), {}, [], [])

  /** Each call asks once and is done only while it holds a slot. */
  predicate Enabled(s: System, event: Event) {
    match event
    case Ask(call) => call !in s.taken
    case Done(call) => call in s.holders && s.slots.active > 0
  }

  function Next(s: System, event: Event): System
    requires Enabled(s, event)
  {
    match event
    case Ask(call) =>
      var answer, slots := AcquireAnswer(s.slots), AfterAcquire(s.slots, call);
      System(slots,
             if answer.Granted? then s.holders + {call} else s.holders,
             if answer.Rejected? then s.taken else s.taken + [call],
             if answer.Granted? then s.served + [call] else s.served)
    case Done(call) =>
      var queue := s.slots.queue;
      System(AfterRelease(s.slots),
             s.holders - {call} + (if queue != [] then {queue[0]} else {}),
             s.taken,
             if queue != [] then s.served + [queue[0]] else s.served)
  }

  predicate Runs(events: seq<Event>)
    decreases |events|, 0
  {
    events == [] || (Runs(events[..|events| - 1]) && Enabled(Run(events[..|events| - 1]), events[|events| - 1]))
  }

  function Run(events: seq<Event>): System
    requires Runs(events)
    decreases |events|, 1
  {
    if events == [] then FRESH else Next(Run(events[..|events| - 1]), events[|events| - 1])
  }

  /**
   * The count is the number of holders, waiters exist only when every slot is taken, nobody who waits holds a
   * slot, and slots are given out in the order calls were taken in: who was served, then who still waits.
   */
  ghost predicate Inv(s: System) {
    && s.slots.active == |s.holders| <= MAX_PARALLEL
    && |s.slots.queue| <= MAX_QUEUED
    && (s.slots.queue != [] ==> s.slots.active == MAX_PARALLEL)
    && s.taken == s.served + s.slots.queue
    && NoRepeats(s.taken)
    && (forall call :: call in s.holders ==> call in s.served)
  }

  lemma AskKeepsInv(s: System, call: Call)
    requires Inv(s) && call !in s.taken
    ensures Inv(Next(s, Ask(call)))
  {
    var t := Next(s, Ask(call));
    if AcquireAnswer(s.slots).Granted? {
      assert s.slots.queue == [];
      assert call !in s.holders by {
        assert forall i :: 0 <= i < |s.served| ==> s.served[i] == s.taken[i];
      }
    }
  }

  lemma DoneKeepsInv(s: System, call: Call)
    requires Inv(s) && Enabled(s, Done(call))
    ensures Inv(Next(s, Done(call)))
  {
    var queue := s.slots.queue;
    if queue != [] {
      assert s.taken[|s.served|] == queue[0];
      assert queue[0] !in s.holders by {
        assert forall i :: 0 <= i < |s.served| ==> s.served[i] == s.taken[i] != queue[0];
      }
      assert [queue[0]] + queue[1..] == queue;
    }
  }

  lemma {:induction false} RunKeepsInv(events: seq<Event>)
    requires Runs(events)
    ensures Inv(Run(events))
  {
    if events != [] {
      RunKeepsInv(events[..|events| - 1]);
      match events[|events| - 1]
      case Ask(call) => AskKeepsInv(Run(events[..|events| - 1]), call);
      case Done(call) => DoneKeepsInv(Run(events[..|events| - 1]), call);
    }
  }

  /** In every run: at most four hold and 32 wait, and calls are served first come, first served. */
  lemma BoundedAndFair(events: seq<Event>)
    requires Runs(events)
    ensures var s := Run(events);
            && |s.holders| == s.slots.active <= 4
            && |s.slots.queue| <= 32
            && (s.slots.queue != [] ==> |s.holders| == 4)
            && s.served <= s.taken
            && s.taken[|s.served|..] == s.slots.queue
  {
    RunKeepsInv(events);
  }

  /** A release wakes exactly the oldest waiter or frees exactly one slot; nothing is lost or made up. */
  lemma ReleaseHandsOver(events: seq<Event>, call: Call)
    requires Runs(events) && Enabled(Run(events), Done(call))
    ensures var s := Run(events);
            var t := Next(s, Done(call));
            if s.slots.queue != [] then
              && t.slots.active == s.slots.active == 4
              && t.holders == s.holders - {call} + {s.slots.queue[0]} && |t.holders| == 4
              && t.served == s.served + [s.slots.queue[0]]
            else t.slots.active == s.slots.active - 1 && t.holders == s.holders - {call} && t.served == s.served
  {
    RunKeepsInv(events);
    DoneKeepsInv(Run(events), call);
  }

  /** A rejected call leaves no trace. */
  lemma RejectedLeavesNoTrace(events: seq<Event>, call: Call)
    requires Runs(events) && Enabled(Run(events), Ask(call))
    ensures var s := Run(events);
            (AcquireAnswer(s.slots) == Rejected <==> |s.holders| == 4 && |s.slots.queue| == 32)
            && (AcquireAnswer(s.slots) == Rejected ==> Next(s, Ask(call)) == s)
  {
    RunKeepsInv(events);
  }
}
