/** A pool of lanes that works through a list of items, under every order of completions. */
module RunPool {
  import opened JsText

  type Error = string

  /** Where a lane is: about to look for an item, waiting for the worker, or finished. */
  datatype Lane = Ready | Busy(item: nat) | Finished

  datatype Pool = Pool(
    n: nat,                       // number of items
    next: nat,
    failure: Option<Error>,
    lanes: seq<Lane>,
    started: seq<nat>,            // items handed to the worker, in order
    done: seq<(nat, Option<Error>)>) // completions in order, with their errors

  function LaneCount(limit: int, n: nat): nat {
    var m := if limit <= n then limit else n;
    if m <= 1 then 1 else m
  }

  function Begin(limit: int, n: nat): Pool {
    Pool(n, 0, None, seq(LaneCount(limit, n), _ => Ready), [], [])
  }

  datatype Event = Look(lane: nat) | Completes(lane: nat, error: Option<Error>)

  predicate Enabled(p: Pool, event: Event) {
    match event
    case Look(lane) => lane < |p.lanes| && p.lanes[lane].Ready?
    case Completes(lane, _) => lane < |p.lanes| && p.lanes[lane].Busy?
  }

  /** One turn of a lane's loop up to its await, or the worker's answer after it. */
  function Next(p: Pool, event: Event): Pool
    requires Enabled(p, event)
  {
    match event
    case Look(lane) =>
      if p.failure.None? && p.next < p.n then
        p.(next := p.next + 1, lanes := p.lanes[lane := Busy(p.next)], started := p.started + [p.next])
      else p.(lanes := p.lanes[lane := Finished])
    case Completes(lane, error) =>
      p.(failure := if p.failure.None? then error else p.failure,
         lanes := p.lanes[lane := Ready],
         done := p.done + [(p.lanes[lane].item, error)])
  }

  predicate Runs(limit: int, n: nat, events: seq<Event>)
    decreases |events|, 0
  {
    events == [] ||
    (Runs(limit, n, events[..|events| - 1]) && Enabled(Run(limit, n, events[..|events| - 1]), events[|events| - 1]))
  }

  function Run(limit: int, n: nat, events: seq<Event>): Pool
    requires Runs(limit, n, events)
    decreases |events|, 1
  {
    if events == [] then Begin(limit, n) else Next(Run(limit, n, events[..|events| - 1]), events[|events| - 1])
  }

  /** The shared variables of the pool and one turn of a lane, as the source's closures see them. */
  class PoolState {
    const n: nat
    var next: nat
    var failure: Option<Error>
    var lanes: seq<Lane>
    ghost var started: seq<nat>
    ghost var done: seq<(nat, Option<Error>)>

    ghost function View(): Pool
      reads this
    {
      Pool(n, next, failure, lanes, started, done)
    }

    constructor (limit: int, n: nat)
      ensures View() == Begin(limit, n)
    {
      this.n, next, failure, started, done := n, 0, None, [], [];
      lanes := seq(LaneCount(limit, n), _ => Ready);
    }

    method Turn(lane: nat)
      requires Enabled(View(), Look(lane))
      modifies this
      ensures View() == Next(old(View()), Look(lane))
    {
      if failure.None? && next < n {
        lanes := lanes[lane := Busy(next)];
        started := started + [next];
        next := next + 1;
      } else {
        lanes := lanes[lane := Finished];
      }
    }

    method WorkerAnswers(lane: nat, error: Option<Error>)
      requires Enabled(View(), Completes(lane, error))
      modifies this
      ensures View() == Next(old(View()), Completes(lane, error))
    {
      if error.Some? && failure.None? {
        failure := error;
      }
      done := done + [(lanes[lane].item, error)];
      lanes := lanes[lane := Ready];
    }
  }

  // ----- what every run keeps

  predicate Flying(p: Pool, item: nat) {
    exists k :: 0 <= k < |p.lanes| && p.lanes[k] == Busy(item)
  }

  predicate Completed(p: Pool, item: nat) {
    exists i :: 0 <= i < |p.done| && p.done[i].0 == item
  }

  /** Started items are 0, 1, 2, ...; each is in exactly one lane or has exactly one completion. */
  ghost predicate Inv(p: Pool) {
    && p.next <= p.n
    && |p.started| == p.next && (forall i :: 0 <= i < p.next ==> p.started[i] == i)
    && (forall item :: 0 <= item < p.next ==> Flying(p, item) || Completed(p, item))
    && (forall k :: 0 <= k < |p.lanes| && p.lanes[k].Busy? ==>
          p.lanes[k].item < p.next && !Completed(p, p.lanes[k].item))
    && (forall i :: 0 <= i < |p.done| ==> p.done[i].0 < p.next)
    && (forall j, k :: 0 <= j < k < |p.lanes| && p.lanes[j].Busy? && p.lanes[k].Busy? ==>
          p.lanes[j].item != p.lanes[k].item)
    && (forall i, j :: 0 <= i < j < |p.done| ==> p.done[i].0 != p.done[j].0)
    && FirstFailure(p)
    && (forall k :: 0 <= k < |p.lanes| && p.lanes[k].Finished? ==> p.failure.Some? || p.next == p.n)
  }

  /** The kept failure is that of the first completion with an error. */
  predicate FirstFailure(p: Pool) {
    if p.failure.None? then forall i :: 0 <= i < |p.done| ==> p.done[i].1.None?
    else exists i :: 0 <= i < |p.done| && p.done[i].1 == p.failure && forall j :: 0 <= j < i ==> p.done[j].1.None?
  }

  lemma LookKeepsInv(p: Pool, lane: nat)
    requires Inv(p) && Enabled(p, Look(lane))
    ensures Inv(Next(p, Look(lane)))
  {
    var q := Next(p, Look(lane));
    assert q.lanes[lane] != p.lanes[lane];
    assert FirstFailure(q);
    hide FirstFailure;
    forall item | 0 <= item < q.next
      ensures Flying(q, item) || Completed(q, item)
    {
      if item == p.next {
        assert q.lanes[lane] == Busy(item);
      } else if Flying(p, item) {
        StillFlying(p, q, lane, item);
      }
    }
    assert q.done == p.done && forall item :: Completed(q, item) <==> Completed(p, item);
    assert forall k :: 0 <= k < |q.lanes| && k != lane ==> q.lanes[k] == p.lanes[k];
  }

  lemma StillFlying(p: Pool, q: Pool, lane: nat, item: nat)
    requires Flying(p, item) && |q.lanes| == |p.lanes| && lane < |p.lanes| && p.lanes[lane].Ready?
    requires forall k :: 0 <= k < |p.lanes| && k != lane ==> q.lanes[k] == p.lanes[k]
    ensures Flying(q, item)
  {
    var k :| 0 <= k < |p.lanes| && p.lanes[k] == Busy(item);
    assert q.lanes[k] == Busy(item);
  }

  lemma CompletesKeepsInv(p: Pool, lane: nat, error: Option<Error>)
    requires Inv(p) && Enabled(p, Completes(lane, error))
    ensures Inv(Next(p, Completes(lane, error)))
  {
    var q := Next(p, Completes(lane, error));
    var item, last := p.lanes[lane].item, |p.done|;
    assert q.done[last] == (item, error);
    assert !Completed(p, item);
    forall other | 0 <= other < q.next
      ensures Flying(q, other) || Completed(q, other)
    {
      if other == item {
        assert q.done[last].0 == other;
      } else if Completed(p, other) {
        var i :| 0 <= i < |p.done| && p.done[i].0 == other;
        assert q.done[i].0 == other;
      } else {
        var k :| 0 <= k < |p.lanes| && p.lanes[k] == Busy(other);
        assert q.lanes[k] == Busy(other);
      }
    }
    forall k | 0 <= k < |q.lanes| && q.lanes[k].Busy?
      ensures !Completed(q, q.lanes[k].item)
    {
      assert k != lane && !Completed(p, p.lanes[k].item) && p.lanes[k].item != item;
    }
    CompletionKeepsFirst(p, q, item, error);
  }

  lemma CompletionKeepsFirst(p: Pool, q: Pool, item: nat, error: Option<Error>)
    requires FirstFailure(p) && q.done == p.done + [(item, error)]
    requires q.failure == if p.failure.None? then error else p.failure
    ensures FirstFailure(q)
  {
    if p.failure.Some? {
      var i :| 0 <= i < |p.done| && p.done[i].1 == p.failure && forall j :: 0 <= j < i ==> p.done[j].1.None?;
      assert q.done[i].1 == q.failure;
    } else if error.Some? {
      assert q.done[|p.done|].1 == q.failure;
    }
  }

  lemma {:induction false} RunKeepsInv(limit: int, n: nat, events: seq<Event>)
    requires Runs(limit, n, events)
    ensures Inv(Run(limit, n, events))
    ensures Run(limit, n, events).n == n && |Run(limit, n, events).lanes| == LaneCount(limit, n)
  {
    if events != [] {
      var p := Run(limit, n, events[..|events| - 1]);
      RunKeepsInv(limit, n, events[..|events| - 1]);
      match events[|events| - 1]
      case Look(lane) => LookKeepsInv(p, lane);
      case Completes(lane, error) => CompletesKeepsInv(p, lane, error);
    }
  }

  // ----- what callers get

  function FlyingItems(lanes: seq<Lane>): set<nat> {
    set k | 0 <= k < |lanes| && lanes[k].Busy? :: lanes[k].item
  }

  lemma {:induction false} FlyingCount(lanes: seq<Lane>)
    ensures |FlyingItems(lanes)| <= |lanes|
  {
    if lanes != [] {
      var init, last := lanes[..|lanes| - 1], lanes[|lanes| - 1];
      FlyingCount(init);
      assert FlyingItems(lanes) == FlyingItems(init) + if last.Busy? then {last.item} else {};
    }
  }

  /** Items start at most once, in index order, and at most max(1, min(limit, n)) are in flight. */
  lemma StartsInOrder(limit: int, n: nat, events: seq<Event>)
    requires Runs(limit, n, events)
    ensures var p := Run(limit, n, events);
            && (forall i :: 0 <= i < |p.started| ==> p.started[i] == i)
            && |p.started| <= n
            && |FlyingItems(p.lanes)| <= LaneCount(limit, n)
  {
    RunKeepsInv(limit, n, events);
    FlyingCount(Run(limit, n, events).lanes);
  }

  /** However workers answer, at most `limit` items (but one at least) are in flight, and no more than there are. */
  lemma LimitHolds(limit: int, n: nat, events: seq<Event>)
    requires Runs(limit, n, events)
    ensures var flying := |FlyingItems(Run(limit, n, events).lanes)|;
            flying <= (if limit <= 1 then 1 else limit) && flying <= (if n == 0 then 1 else n)
  {
    StartsInOrder(limit, n, events);
  }

  function Looks(k: nat): (events: seq<Event>)
    ensures |events| == k && forall i :: 0 <= i < k ==> events[i] == Look(i)
  {
    seq(k, i requires 0 <= i < k => Look(i))
  }

  lemma {:induction false} LooksStart(limit: int, n: nat, k: nat)
    requires k <= n && k <= LaneCount(limit, n)
    ensures Runs(limit, n, Looks(k))
    ensures var p := Run(limit, n, Looks(k));
            && p.n == n && p.next == k && p.failure == None && |p.lanes| == LaneCount(limit, n)
            && (forall i :: 0 <= i < k ==> p.lanes[i] == Busy(i))
            && (forall i :: k <= i < |p.lanes| ==> p.lanes[i] == Ready)
  {
    if k > 0 {
      LooksStart(limit, n, k - 1);
      assert Looks(k)[..k - 1] == Looks(k - 1);
    }
  }

  lemma {:induction false} BusyCount(lanes: seq<Lane>, k: nat)
    requires k <= |lanes| && forall i :: 0 <= i < k ==> lanes[i] == Busy(i)
    requires forall i :: k <= i < |lanes| ==> lanes[i] == Ready
    ensures |FlyingItems(lanes)| == k && forall item :: item in FlyingItems(lanes) ==> item < k
  {
    if lanes != [] {
      var init, last := lanes[..|lanes| - 1], lanes[|lanes| - 1];
      BusyCount(init, if last.Busy? then k - 1 else k);
      assert FlyingItems(lanes) == FlyingItems(init) + if last.Busy? then {last.item} else {};
    }
  }

  /** And so many really are: some run has as many items in flight as the limit and the items allow. */
  lemma LimitIsReached(limit: int, n: nat)
    requires n >= 1
    ensures exists events :: Runs(limit, n, events)
              && |FlyingItems(Run(limit, n, events).lanes)| == if limit <= 1 then 1 else if limit >= n then n else limit
  {
    var k := LaneCount(limit, n);
    LooksStart(limit, n, k);
    BusyCount(Run(limit, n, Looks(k)).lanes, k);
    assert k == if limit <= 1 then 1 else if limit >= n then n else limit;
  }

  /** Once something failed nothing starts any more, and the failure stays the first one. */
  lemma NothingStartsAfterFailure(limit: int, n: nat, events: seq<Event>, event: Event)
    requires Runs(limit, n, events + [event]) && Runs(limit, n, events)
    requires Run(limit, n, events).failure.Some?
    ensures Run(limit, n, events + [event]).started == Run(limit, n, events).started
    ensures Run(limit, n, events + [event]).failure == Run(limit, n, events).failure
  {
    assert (events + [event])[..|events|] == events;
  }

  /** `Promise.all` over the lanes is settled. */
  predicate AllFinished(p: Pool) {
    forall k :: 0 <= k < |p.lanes| ==> p.lanes[k].Finished?
  }

  /**
   * When the pool returns nothing is in flight. Without a failure every item was processed exactly once;
   * otherwise the first failure is what it rethrows, and every started item has still completed.
   */
  lemma ReturnsComplete(limit: int, n: nat, events: seq<Event>)
    requires Runs(limit, n, events) && AllFinished(Run(limit, n, events))
    ensures var p := Run(limit, n, events);
            && FlyingItems(p.lanes) == {}
            && (forall item :: 0 <= item < |p.started| ==> Completed(p, item))
            && (forall i, j :: 0 <= i < j < |p.done| ==> p.done[i].0 != p.done[j].0)
            && (p.failure.None? ==> |p.started| == n && forall i :: 0 <= i < |p.done| ==> p.done[i].1.None?)
            && FirstFailure(p)
  {
    RunKeepsInv(limit, n, events);
    var p := Run(limit, n, events);
    assert p.lanes[0].Finished?;
    forall item | 0 <= item < |p.started|
      ensures Completed(p, item)
    {
      assert !Flying(p, item);
    }
  }

  // ----- it always gets there

  function LaneWork(lane: Lane): nat {
    match lane
    case Ready => 1
    case Busy(_) => 2
    case Finished => 0
  }

  function LanesWork(lanes: seq<Lane>): nat {
    if lanes == [] then 0 else LanesWork(lanes[..|lanes| - 1]) + LaneWork(lanes[|lanes| - 1])
  }

  lemma {:induction false} LaneUpdate(lanes: seq<Lane>, k: nat, lane: Lane)
    requires k < |lanes|
    ensures LanesWork(lanes[k := lane]) == LanesWork(lanes) - LaneWork(lanes[k]) + LaneWork(lane)
  {
    var init := lanes[..|lanes| - 1];
    if k < |lanes| - 1 {
      LaneUpdate(init, k, lane);
      assert lanes[k := lane][..|lanes| - 1] == init[k := lane];
    } else {
      assert lanes[k := lane][..|lanes| - 1] == init;
    }
  }

  /** Steps left: two for each item not started, and what each lane still has to do. */
  function WorkLeft(p: Pool): nat
    requires p.next <= p.n
  {
    2 * (p.n - p.next) + LanesWork(p.lanes)
  }

  lemma {:induction false} ReadyWork(m: nat)
    ensures LanesWork(seq(m, _ => Ready)) == m
  {
    if m > 0 {
      ReadyWork(m - 1);
      assert seq(m, _ => Ready)[..m - 1] == seq(m - 1, _ => Ready);
    }
  }

  /** Every step uses work up, so a run has at most 2 n + lanes steps. */
  lemma {:induction false} RunsEnd(limit: int, n: nat, events: seq<Event>)
    requires Runs(limit, n, events)
    ensures Run(limit, n, events).next <= n == Run(limit, n, events).n
    ensures |events| + WorkLeft(Run(limit, n, events)) <= 2 * n + LaneCount(limit, n)
  {
    RunKeepsInv(limit, n, events);
    if events == [] {
      ReadyWork(LaneCount(limit, n));
    } else {
      var init, event := events[..|events| - 1], events[|events| - 1];
      var p := Run(limit, n, init);
      RunsEnd(limit, n, init);
      LaneUpdate(p.lanes, event.lane, Next(p, event).lanes[event.lane]);
    }
  }

  /** Nor does it stop early: until every lane has finished some lane can go on or its worker can answer. */
  lemma NoDeadlock(limit: int, n: nat, events: seq<Event>)
    requires Runs(limit, n, events) && !AllFinished(Run(limit, n, events))
    ensures exists event :: Enabled(Run(limit, n, events), event)
  {
    var p := Run(limit, n, events);
    var k :| 0 <= k < |p.lanes| && !p.lanes[k].Finished?;
    assert Enabled(p, if p.lanes[k].Ready? then Look(k) else Completes(k, None));
  }
}
