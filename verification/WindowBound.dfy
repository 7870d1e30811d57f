/** How many attempts a fixed-window policy admits in any stretch of time. */
module WindowBound {
  import opened JsText
  import opened AttemptLimiter

  /** The time lies in the half-open interval of one window length from `lo`. */
  predicate Inside(policy: Policy, now: nat, lo: nat)
    requires policy.Window?
  {
    lo <= now < lo + policy.windowMs
  }

  /** A reset of the key inside the interval. */
  predicate ResetsInside(policy: Policy, op: Op, key: Key, lo: nat)
    requires policy.Window?
  {
    op.Reset? && op.key == key && Inside(policy, op.now, lo)
  }

  /** How often a run resets the key inside the interval. */
  function ResetsIn(policy: Policy, ops: seq<Op>, key: Key, lo: nat): nat
    requires policy.Window?
  {
    if ops == [] then 0
    else (if ResetsInside(policy, ops[0], key, lo) then 1 else 0) + ResetsIn(policy, ops[1..], key, lo)
  }

  /** The attempt is on the key, inside the interval, and is not told to wait. */
  predicate Counts(policy: Policy, keys: Keys, op: Op, key: Key, lo: nat)
    requires policy.Window?
  {
    op.Hit? && op.key == key && Inside(policy, op.now, lo) && Step(policy, keys, op).1 == WaitMs(0)
  }

  /** Admitted attempts of a key inside the interval. */
  function Admitted(policy: Policy, keys: Keys, ops: seq<Op>, key: Key, lo: nat): nat
    requires policy.Window?
    decreases |ops|
  {
    if ops == [] then 0
    else
      (if Counts(policy, keys, ops[0], key, lo) then 1 else 0)
      + Admitted(policy, Step(policy, keys, ops[0]).0, ops[1..], key, lo)
  }

  /** What every stored state of a window policy is like. */
  predicate Sound(policy: Policy, keys: Keys)
    requires policy.Window?
  {
    forall key :: key in keys ==>
      && keys[key].count >= 1
      && keys[key].lockedUntil == if keys[key].count > policy.limit then keys[key].since + policy.windowMs else 0
  }

  function Left(limit: nat, used: nat): nat {
    if used >= limit then 0 else limit - used
  }

  /** Two windows the interval can touch: the first one, opened before the interval, loses its opener. */
  function Both(limit: nat): nat {
    if limit == 0 then 0 else 2 * limit - 1
  }

  /** How many more attempts the interval from `lo` can admit, given the open window of the key. */
  function Budget(policy: Policy, view: Option<KeyState>, now: nat, lo: nat): nat
    requires policy.Window?
  {
    var limit, hi := policy.limit, lo + policy.windowMs;
    match view
    case None => if now >= hi then 0 else if now >= lo then limit else Both(limit)
    case Some(state) =>
      if state.since >= hi then 0
      else if state.since >= lo then Left(limit, state.count)
      else if state.since + policy.windowMs <= lo then Both(limit)
      else Left(limit, state.count) + limit
  }

  lemma StepIsSound(policy: Policy, keys: Keys, op: Op)
    requires policy.Window? && Sound(policy, keys)
    ensures Sound(policy, Step(policy, keys, op).0)
  {
  }

  /** Before the interval anything may still happen to the key, from its start on the open window counts. */
  function Room(policy: Policy, keys: Keys, key: Key, now: nat, lo: nat): nat
    requires policy.Window?
  {
    if now < lo then Both(policy.limit) else Budget(policy, View(policy, keys, key, now), now, lo)
  }

  lemma RoomShrinks(policy: Policy, keys: Keys, key: Key, now: nat, later: nat, lo: nat)
    requires policy.Window? && Sound(policy, keys) && now <= later
    requires key in keys ==> keys[key].since <= now
    ensures Room(policy, keys, key, later, lo) <= Room(policy, keys, key, now, lo)
  {
  }

  /** An admitted attempt costs one of the room; only a reset of the key inside the interval gives some back. */
  lemma StepPays(policy: Policy, keys: Keys, op: Op, key: Key, lo: nat)
    requires policy.Window? && Sound(policy, keys)
    requires key in keys ==> keys[key].since <= op.now
    ensures var after := Step(policy, keys, op).0;
            && (key in after ==> after[key].since <= op.now)
            && Room(policy, after, key, op.now, lo) + (if Counts(policy, keys, op, key, lo) then 1 else 0)
               <= Room(policy, keys, key, op.now, lo) + if ResetsInside(policy, op, key, lo) then policy.limit else 0
  {
    var after := Step(policy, keys, op).0;
    if op.Hit? && op.key == key {
      var before := Opened(policy, keys, key, op.now);
      assert after[key] == AfterHit(policy, before);
      assert after[key].since == before.since && after[key].count == before.count + 1;
      assert Counts(policy, keys, op, key, lo) ==> before.count + 1 <= policy.limit;
    } else if !(op.Reset? && op.key == key) {
      assert View(policy, after, key, op.now) == View(policy, keys, key, op.now);
    }
  }

  lemma OneMoreReset(limit: nat, n: nat)
    ensures limit + limit * n == limit * (1 + n)
  {
  }

  lemma {:induction false} RunWithinRoom(policy: Policy, keys: Keys, ops: seq<Op>, key: Key, now: nat, lo: nat)
    requires policy.Window? && Sound(policy, keys) && Timed(ops, now)
    requires key in keys ==> keys[key].since <= now
    ensures Admitted(policy, keys, ops, key, lo)
         <= Room(policy, keys, key, now, lo) + policy.limit * ResetsIn(policy, ops, key, lo)
    decreases |ops|
  {
    if ops != [] {
      hide Sound, Room, Step;
      StepIsSound(policy, keys, ops[0]);
      RoomShrinks(policy, keys, key, now, ops[0].now, lo);
      StepPays(policy, keys, ops[0], key, lo);
      RunWithinRoom(policy, Step(policy, keys, ops[0]).0, ops[1..], key, ops[0].now, lo);
      OneMoreReset(policy.limit, ResetsIn(policy, ops[1..], key, lo));
    }
  }

  /**
   * In every run, wherever the interval starts, one window length admits at most 2 * limit - 1 attempts of a
   * key, and `limit` more for every reset of it inside the interval: the window that reaches into the interval
   * opened before it with an attempt of its own. Resets at any other time cost nothing.
   */
  lemma AnyIntervalIsBounded(policy: Policy, ops: seq<Op>, key: Key, lo: nat)
    requires policy.Window? && Timed(ops, 0)
    ensures Admitted(policy, map[], ops, key, lo) <= Both(policy.limit) + policy.limit * ResetsIn(policy, ops, key, lo)
  {
    RunWithinRoom(policy, map[], ops, key, 0, lo);
  }

  /** An interval in which the key is not reset admits less than twice the limit, whatever was reset before. */
  lemma WithoutResetTwiceIsEnough(policy: Policy, ops: seq<Op>, key: Key, lo: nat)
    requires policy.Window? && Timed(ops, 0) && ResetsIn(policy, ops, key, lo) == 0
    ensures Admitted(policy, map[], ops, key, lo) <= Both(policy.limit) <= 2 * policy.limit
  {
    AnyIntervalIsBounded(policy, ops, key, lo);
  }

  /** One window from its opening on admits at most `limit`, and `limit` more for every reset before its end. */
  lemma OneWindowIsBounded(policy: Policy, keys: Keys, ops: seq<Op>, key: Key, opens: nat)
    requires policy.Window? && Sound(policy, keys) && View(policy, keys, key, opens).None?
    requires key in keys ==> keys[key].since <= opens
    requires Timed(ops, opens)
    ensures Admitted(policy, keys, ops, key, opens) <= policy.limit * (1 + ResetsIn(policy, ops, key, opens))
  {
    RunWithinRoom(policy, keys, ops, key, opens, opens);
    OneMoreReset(policy.limit, ResetsIn(policy, ops, key, opens));
  }

  // ----- waits are exact

  lemma {:induction false} RunIsSound(policy: Policy, ops: seq<Op>)
    requires policy.Window?
    ensures Sound(policy, RunKeys(policy, map[], ops))
  {
    if ops != [] {
      hide Sound, Step;
      RunIsSound(policy, ops[..|ops| - 1]);
      StepIsSound(policy, RunKeys(policy, map[], ops[..|ops| - 1]), ops[|ops| - 1]);
    } else {
      assert RunKeys(policy, map[], ops) == map[];
    }
  }

  /** In every run an attempt told to wait is refused until that time, and admitted from then on. */
  lemma WindowWaitIsExact(policy: Policy, ops: seq<Op>, key: Key, now: nat, later: nat)
    requires policy.Window? && policy.limit >= 1 && now <= later
    requires Step(policy, RunKeys(policy, map[], ops), Hit(key, now)).1.ms > 0
    ensures var (after, answer) := Step(policy, RunKeys(policy, map[], ops), Hit(key, now));
            Step(policy, after, Hit(key, later)).1
            == WaitMs(if later < now + answer.ms then now + answer.ms - later else 0)
  {
    RunIsSound(policy, ops);
    var keys := RunKeys(policy, map[], ops);
    hide RunKeys;
    var state := AfterHit(policy, Opened(policy, keys, key, now));
    var after := Step(policy, keys, Hit(key, now)).0;
    assert after[key] == state && state.lockedUntil == state.since + policy.windowMs && state.count > policy.limit;
    if later < state.since + policy.windowMs {
      assert Opened(policy, after, key, later) == state;
    } else {
      assert Opened(policy, after, key, later) == KeyState(0, later, 0);
    }
  }

  // ----- the bound is reached

  function Hits(key: Key, now: nat, n: nat): (ops: seq<Op>)
    ensures |ops| == n && forall i :: 0 <= i < n ==> ops[i] == Hit(key, now)
  {
    seq(n, i => Hit(key, now))
  }

  /** The map with n more attempts counted on the key. */
  function Counted(keys: Keys, key: Key, n: nat): Keys
    requires key in keys
  {
    keys[key := keys[key].(count := keys[key].count + n)]
  }

  lemma CountedTwice(keys: Keys, key: Key, n: nat)
    requires key in keys
    ensures Counted(keys, key, 0) == keys
    ensures Counted(Counted(keys, key, 1), key, n) == Counted(keys, key, n + 1)
  {
  }

  lemma HitsUnfold(key: Key, now: nat, n: nat, more: seq<Op>)
    ensures n == 0 ==> Hits(key, now, n) + more == more
    ensures n > 0 ==> Hits(key, now, n) + more == [Hit(key, now)] + (Hits(key, now, n - 1) + more)
  {
  }

  /** With room left, n attempts at one time inside the window are all admitted. */
  lemma {:induction false} HitsAdmitted(policy: Policy, keys: Keys, key: Key, now: nat, n: nat, more: seq<Op>, lo: nat)
    requires policy.Window? && key in keys && View(policy, keys, key, now).Some? && keys[key].lockedUntil == 0
    requires keys[key].count + n <= policy.limit && Inside(policy, now, lo)
    ensures Admitted(policy, keys, Hits(key, now, n) + more, key, lo)
         == n + Admitted(policy, Counted(keys, key, n), more, key, lo)
    decreases n
  {
    HitsUnfold(key, now, n, more);
    CountedTwice(keys, key, if n == 0 then 0 else n - 1);
    hide Admitted, Hits, View;
    if n > 0 {
      HitAdmitted(policy, keys, key, now, Hits(key, now, n - 1) + more, lo);
      HitsAdmitted(policy, Counted(keys, key, 1), key, now, n - 1, more, lo);
    }
  }

  lemma HitAdmitted(policy: Policy, keys: Keys, key: Key, now: nat, more: seq<Op>, lo: nat)
    requires policy.Window? && key in keys && View(policy, keys, key, now).Some? && keys[key].lockedUntil == 0
    requires keys[key].count < policy.limit && Inside(policy, now, lo)
    ensures View(policy, Counted(keys, key, 1), key, now).Some?
    ensures Admitted(policy, keys, [Hit(key, now)] + more, key, lo)
         == 1 + Admitted(policy, Counted(keys, key, 1), more, key, lo)
  {
    assert Step(policy, keys, Hit(key, now)) == (Counted(keys, key, 1), WaitMs(0));
    assert ([Hit(key, now)] + more)[1..] == more;
  }

  /** n attempts that find no state open a window and are all admitted. */
  lemma FreshHitsAdmitted(policy: Policy, keys: Keys, key: Key, now: nat, n: nat, more: seq<Op>, lo: nat)
    returns (after: Keys)
    requires policy.Window? && key !in keys && 1 <= n <= policy.limit && Inside(policy, now, lo)
    ensures Admitted(policy, keys, Hits(key, now, n) + more, key, lo) == n + Admitted(policy, after, more, key, lo)
    ensures key in after && after[key].since == now
  {
    var ops := Hits(key, now, n) + more;
    var started := keys[key := KeyState(1, now, 0)];
    assert Step(policy, keys, ops[0]).0 == started;
    assert ops[1..] == Hits(key, now, n - 1) + more;
    HitsAdmitted(policy, started, key, now, n - 1, more, lo);
    after := Counted(started, key, n - 1);
  }

  /** Resets, each followed by a whole window of attempts at once. */
  function Rounds(policy: Policy, key: Key, at: nat, n: nat): seq<Op>
    requires policy.Window?
  {
    if n == 0 then [] else [Reset(key, at)] + (Hits(key, at, policy.limit) + Rounds(policy, key, at, n - 1))
  }

  lemma {:induction false} RoundsAdmitted(policy: Policy, keys: Keys, key: Key, at: nat, n: nat, lo: nat)
    requires policy.Window? && policy.limit >= 1 && Inside(policy, at, lo)
    ensures Admitted(policy, keys, Rounds(policy, key, at, n), key, lo) == policy.limit * n
    decreases n
  {
    if n > 0 {
      var rest := Rounds(policy, key, at, n - 1);
      var round := Hits(key, at, policy.limit) + rest;
      var ops := [Reset(key, at)] + round;
      assert ops[1..] == round && Step(policy, keys, ops[0]).0 == keys - {key};
      var after := FreshHitsAdmitted(policy, keys - {key}, key, at, policy.limit, rest, lo);
      RoundsAdmitted(policy, after, key, at, n - 1, lo);
      OneMoreReset(policy.limit, n - 1);
    }
  }

  lemma {:induction false} RoundsCounted(policy: Policy, key: Key, at: nat, n: nat, lo: nat)
    requires policy.Window? && Inside(policy, at, lo)
    ensures ResetsIn(policy, Rounds(policy, key, at, n), key, lo) == n && Timed(Rounds(policy, key, at, n), at)
    decreases n
  {
    if n > 0 {
      var rest := Rounds(policy, key, at, n - 1);
      var round := Hits(key, at, policy.limit) + rest;
      RoundsCounted(policy, key, at, n - 1, lo);
      TimedHits(key, at, policy.limit, rest, at);
      HitsReset(policy, key, at, policy.limit, rest, lo);
      assert ([Reset(key, at)] + round)[1..] == round;
    }
  }

  lemma {:induction false} HitsReset(policy: Policy, key: Key, at: nat, n: nat, more: seq<Op>, lo: nat)
    requires policy.Window?
    ensures ResetsIn(policy, Hits(key, at, n) + more, key, lo) == ResetsIn(policy, more, key, lo)
    decreases n
  {
    var ops := Hits(key, at, n) + more;
    if n == 0 {
      assert ops == more;
    } else {
      assert ops[1..] == Hits(key, at, n - 1) + more;
      HitsReset(policy, key, at, n - 1, more, lo);
    }
  }

  /** One attempt opens a window, the rest of it comes at its end, a whole window right after, then the rounds. */
  function Burst(policy: Policy, key: Key, resets: nat): seq<Op>
    requires policy.Window? && policy.limit >= 1 && policy.windowMs >= 1
  {
    [Hit(key, 0)] + (Hits(key, policy.windowMs - 1, policy.limit - 1)
                     + (Hits(key, policy.windowMs, policy.limit) + Rounds(policy, key, policy.windowMs, resets)))
  }

  /** For every limit, window of at least 2 ms and number of resets inside the interval some run reaches the bound. */
  lemma BoundIsReached(policy: Policy, key: Key, resets: nat)
    requires policy.Window? && policy.limit >= 1 && policy.windowMs >= 2
    ensures Timed(Burst(policy, key, resets), 0)
    ensures ResetsIn(policy, Burst(policy, key, resets), key, policy.windowMs - 1) == resets
    ensures Admitted(policy, map[], Burst(policy, key, resets), key, policy.windowMs - 1)
         == Both(policy.limit) + policy.limit * resets
  {
    BurstAdmitted(policy, key, resets);
    BurstCounted(policy, key, resets);
  }

  lemma BurstAdmitted(policy: Policy, key: Key, resets: nat)
    requires policy.Window? && policy.limit >= 1 && policy.windowMs >= 2
    ensures Admitted(policy, map[], Burst(policy, key, resets), key, policy.windowMs - 1)
         == Both(policy.limit) + policy.limit * resets
  {
    var last, early := BurstParts(policy, key, resets);
    hide *;
    OpenerIsOutside(policy, key, early, map[key := KeyState(1, 0, 0)]);
    RestOfFirstWindow(policy, key, last);
    WindowAndRounds(policy, key, resets);
    BothOf(policy.limit);
  }

  lemma BothOf(limit: nat)
    requires limit >= 1
    ensures Both(limit) == limit - 1 + limit
  {
  }

  lemma BurstParts(policy: Policy, key: Key, resets: nat) returns (last: seq<Op>, early: seq<Op>)
    requires policy.Window? && policy.limit >= 1 && policy.windowMs >= 2
    ensures last == Hits(key, policy.windowMs, policy.limit) + Rounds(policy, key, policy.windowMs, resets)
    ensures early == Hits(key, policy.windowMs - 1, policy.limit - 1) + last
    ensures Burst(policy, key, resets) == [Hit(key, 0)] + early
  {
    last := Hits(key, policy.windowMs, policy.limit) + Rounds(policy, key, policy.windowMs, resets);
    early := Hits(key, policy.windowMs - 1, policy.limit - 1) + last;
  }

  /** The rest of the first window comes just before its end, inside the interval. */
  lemma RestOfFirstWindow(policy: Policy, key: Key, last: seq<Op>)
    requires policy.Window? && policy.limit >= 1 && policy.windowMs >= 2
    ensures Admitted(policy, map[key := KeyState(1, 0, 0)], Hits(key, policy.windowMs - 1, policy.limit - 1) + last,
                     key, policy.windowMs - 1)
         == policy.limit - 1
            + Admitted(policy, map[key := KeyState(policy.limit, 0, 0)], last, key, policy.windowMs - 1)
  {
    var started: Keys := map[key := KeyState(1, 0, 0)];
    HitsAdmitted(policy, started, key, policy.windowMs - 1, policy.limit - 1, last, policy.windowMs - 1);
    hide Admitted, Hits;
    assert started[key := started[key].(count := started[key].count + (policy.limit - 1))]
        == map[key := KeyState(policy.limit, 0, 0)];
  }

  /** Then the next window and the rounds. */
  lemma WindowAndRounds(policy: Policy, key: Key, resets: nat)
    requires policy.Window? && policy.limit >= 1 && policy.windowMs >= 2
    ensures Admitted(policy, map[key := KeyState(policy.limit, 0, 0)],
                     Hits(key, policy.windowMs, policy.limit) + Rounds(policy, key, policy.windowMs, resets),
                     key, policy.windowMs - 1)
         == policy.limit + policy.limit * resets
  {
    var limit, width, lo := policy.limit, policy.windowMs, policy.windowMs - 1;
    var full: Keys := map[key := KeyState(limit, 0, 0)];
    var rounds := Rounds(policy, key, width, resets);
    var last := Hits(key, width, limit) + rounds;
    ExpiredIsAbsent(policy, full, key, width, last, lo);
    hide Admitted, Rounds, Hits;
    var after := FreshHitsAdmitted(policy, full - {key}, key, width, limit, rounds, lo);
    RoundsAdmitted(policy, after, key, width, resets, lo);
  }

  /** The attempt at 0 opens the first window and lies before the interval. */
  lemma OpenerIsOutside(policy: Policy, key: Key, more: seq<Op>, started: Keys)
    requires policy.Window? && policy.limit >= 1 && policy.windowMs >= 2 && started == map[key := KeyState(1, 0, 0)]
    ensures Admitted(policy, map[], [Hit(key, 0)] + more, key, policy.windowMs - 1)
         == Admitted(policy, started, more, key, policy.windowMs - 1)
  {
    assert ([Hit(key, 0)] + more)[1..] == more;
    assert Step(policy, map[], Hit(key, 0)).0 == started;
  }

  /** A run that starts with an attempt on an expired key goes on as if the key were absent. */
  lemma ExpiredIsAbsent(policy: Policy, keys: Keys, key: Key, now: nat, ops: seq<Op>, lo: nat)
    requires policy.Window? && ops != [] && ops[0] == Hit(key, now) && View(policy, keys, key, now).None?
    ensures Admitted(policy, keys, ops, key, lo) == Admitted(policy, keys - {key}, ops, key, lo)
  {
    var state := AfterHit(policy, KeyState(0, now, 0));
    assert keys[key := state] == (keys - {key})[key := state];
    assert Step(policy, keys, ops[0]) == Step(policy, keys - {key}, ops[0]);
  }

  lemma BurstCounted(policy: Policy, key: Key, resets: nat)
    requires policy.Window? && policy.limit >= 1 && policy.windowMs >= 2
    ensures Timed(Burst(policy, key, resets), 0)
    ensures ResetsIn(policy, Burst(policy, key, resets), key, policy.windowMs - 1) == resets
  {
    var limit, width := policy.limit, policy.windowMs;
    var rounds := Rounds(policy, key, width, resets);
    var last := Hits(key, width, limit) + rounds;
    var early := Hits(key, width - 1, limit - 1) + last;
    RoundsCounted(policy, key, width, resets, width - 1);
    TimedHits(key, width, limit, rounds, width);
    TimedHits(key, width - 1, limit - 1, last, 0);
    HitsReset(policy, key, width, limit, rounds, width - 1);
    HitsReset(policy, key, width - 1, limit - 1, last, width - 1);
    assert ([Hit(key, 0)] + early)[1..] == early;
  }

  lemma {:induction false} TimedHits(key: Key, at: nat, n: nat, more: seq<Op>, now: nat)
    requires now <= at && Timed(more, at)
    ensures Timed(Hits(key, at, n) + more, now)
    decreases n
  {
    var ops := Hits(key, at, n) + more;
    if n == 0 {
      assert ops == more;
    } else {
      assert ops[1..] == Hits(key, at, n - 1) + more;
      TimedHits(key, at, n - 1, more, at);
    }
  }
}
