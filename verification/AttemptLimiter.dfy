/** The attempt limiter: per-key counters with fixed windows or growing locks, forgotten lazily. */
module AttemptLimiter {
  import opened JsText
  import opened Numerals

  type Key = string

  datatype Policy =
    /** Locks a key after repeated failures, every further failure doubles the lock. */
    | Backoff(freeFailures: nat, baseLockMs: nat, maxLockMs: nat, forgetAfterMs: nat)
    /** Caps attempts per fixed window. */
    | Window(limit: nat, windowMs: nat)

  /** `since` is the window start for window policies, the last failure for backoff ones. */
  datatype KeyState = KeyState(count: nat, since: nat, lockedUntil: nat)

  type Keys = map<Key, KeyState>

  function Max(a: int, b: int): int {
    if a >= b then a else b
  }

  function Min(a: int, b: int): int {
    if a <= b then a else b
  }

  function ExpiresAt(policy: Policy, state: KeyState): nat {
    match policy
    case Window(_, windowMs) => state.since + windowMs
    case Backoff(_, _, _, forgetAfterMs) => Max(state.lockedUntil, state.since + forgetAfterMs)
  }

  /** The state of a key at a time, None when it is absent or past its expiry. */
  function View(policy: Policy, keys: Keys, key: Key, now: nat): Option<KeyState> {
    if key in keys && now < ExpiresAt(policy, keys[key]) then Some(keys[key]) else None
  }

  /** The map after `current` has looked at a key. */
  function Forget(policy: Policy, keys: Keys, key: Key, now: nat): Keys {
    if View(policy, keys, key, now).Some? then keys else keys - {key}
  }

  /** The live state of a key, or a fresh one opened now. */
  function Opened(policy: Policy, keys: Keys, key: Key, now: nat): KeyState {
    var view := View(policy, keys, key, now);
    if view.Some? then view.value else KeyState(0, now, 0)
  }

  function Wait(state: KeyState, now: nat): nat {
    Max(0, state.lockedUntil - now)
  }

  function AfterHit(policy: Policy, state: KeyState): KeyState
    requires policy.Window?
  {
    var counted := state.(count := state.count + 1);
    if counted.count > policy.limit then counted.(lockedUntil := state.since + policy.windowMs) else counted
  }

  /** Length of the lock the k-th failure of a life sets. */
  function LockFor(policy: Policy, k: nat): nat
    requires policy.Backoff?
  {
    if k <= policy.freeFailures then 0 else Min(policy.baseLockMs * Pow2(k - policy.freeFailures - 1), policy.maxLockMs)
  }

  function AfterFail(policy: Policy, state: KeyState, now: nat): KeyState
    requires policy.Backoff?
  {
    var count := state.count + 1;
    if count <= policy.freeFailures then KeyState(count, now, state.lockedUntil)
    else KeyState(count, now, now + LockFor(policy, count))
  }

  datatype Op =
    | RetryAfter(key: Key, now: nat)
    | Hit(key: Key, now: nat)
    | Fail(key: Key, now: nat)
    | Reset(key: Key, now: nat)
    | Prune(now: nat)

  datatype Answer = WaitMs(ms: nat) | Failure(lockMs: nat, justLocked: bool) | Nothing | WrongPolicy

  function Step(policy: Policy, keys: Keys, op: Op): (Keys, Answer) {
    match op
    case RetryAfter(key, now) =>
      var view := View(policy, keys, key, now);
      (Forget(policy, keys, key, now), WaitMs(if view.Some? then Wait(view.value, now) else 0))
    case Hit(key, now) =>
      if !policy.Window? then (keys, WrongPolicy)
      else
        var state := AfterHit(policy, Opened(policy, keys, key, now));
        (keys[key := state], WaitMs(Wait(state, now)))
    case Fail(key, now) =>
      if !policy.Backoff? then (keys, WrongPolicy)
      else
        var before := Opened(policy, keys, key, now);
        var state := AfterFail(policy, before, now);
        (keys[key := state], Failure(LockFor(policy, state.count),
                                     !(before.lockedUntil > now) && state.count == policy.freeFailures + 1))
    case Reset(key, _) => (keys - {key}, Nothing)
    case Prune(now) => (map key | key in keys && View(policy, keys, key, now).Some? :: keys[key], Nothing)
  }

  class Limiter {
    const policy: Policy
    var keys: Keys

    constructor (policy: Policy)
      ensures this.policy == policy && keys == map[]
    {
      this.policy, this.keys := policy, map[];
    }

    method Current(key: Key, now: nat) returns (state: Option<KeyState>)
      modifies this
      ensures state == View(policy, old(keys), key, now) && keys == Forget(policy, old(keys), key, now)
    {
      if key !in keys {
        assert keys - {key} == keys;
        return None;
      }
      var expiresAt := if policy.Window? then keys[key].since + policy.windowMs
                       else Max(keys[key].lockedUntil, keys[key].since + policy.forgetAfterMs);
      if now >= expiresAt {
        keys := keys - {key};
        return None;
      }
      return Some(keys[key]);
    }

    /** Milliseconds until the key may try again, 0 when allowed. */
    method RetryAfterMs(key: Key, now: nat) returns (ms: nat)
      modifies this
      ensures (keys, WaitMs(ms)) == Step(policy, old(keys), RetryAfter(key, now))
    {
      var state := Current(key, now);
      ms := if state.Some? then Max(0, state.value.lockedUntil - now) else 0;
    }

    /** The live state of the key, opened when there is none. */
    method CurrentOrOpen(key: Key, now: nat) returns (state: KeyState)
      modifies this
      ensures state == Opened(policy, old(keys), key, now) && keys == old(keys)[key := state]
    {
      var found := Current(key, now);
      if found.Some? {
        state := found.value;
        assert keys == old(keys)[key := state];
      } else {
        state := KeyState(0, now, 0);
        keys := keys[key := state];
        assert keys == old(keys)[key := state];
      }
    }

    /** Counts an attempt against a window policy, None when the limiter has another policy. */
    method HitKey(key: Key, now: nat) returns (ms: Option<nat>)
      modifies this
      ensures (keys, if ms.Some? then WaitMs(ms.value) else WrongPolicy) == Step(policy, old(keys), Hit(key, now))
    {
      if !policy.Window? { return None; }
      var state := CurrentOrOpen(key, now);
      state := state.(count := state.count + 1);
      if state.count > policy.limit {
        state := state.(lockedUntil := state.since + policy.windowMs);
      }
      keys := keys[key := state];
      assert keys == old(keys)[key := state];
      ms := Some(Max(0, state.lockedUntil - now));
    }

    method FailKey(key: Key, now: nat) returns (result: Option<(nat, bool)>)
      modifies this
      ensures (keys, if result.Some? then Failure(result.value.0, result.value.1) else WrongPolicy)
           == Step(policy, old(keys), Fail(key, now))
    {
      if !policy.Backoff? { return None; }
      var state := CurrentOrOpen(key, now);
      var wasLocked := state.lockedUntil > now;
      state := state.(count := state.count + 1, since := now);
      keys := keys[key := state];
      assert keys == old(keys)[key := state];
      var over := state.count - policy.freeFailures;
      if over <= 0 { return Some((0, false)); }
      var lockMs := Min(policy.baseLockMs * Pow2(over - 1), policy.maxLockMs);
      state := state.(lockedUntil := now + lockMs);
      keys := keys[key := state];
      assert keys == old(keys)[key := state];
      return Some((lockMs, !wasLocked && over == 1));
    }

    method ResetKey(key: Key, now: nat)
      modifies this
      ensures (keys, Nothing) == Step(policy, old(keys), Reset(key, now))
    {
      keys := keys - {key};
    }

    method PruneKeys(now: nat)
      modifies this
      ensures (keys, Nothing) == Step(policy, old(keys), Prune(now))
    {
      var rest := keys.Keys;
      while rest != {}
        invariant rest <= old(keys).Keys
        invariant keys == map key | key in old(keys) && (key in rest || View(policy, old(keys), key, now).Some?)
                              :: old(keys)[key]
        decreases |rest|
      {
        var key :| key in rest;
        rest := rest - {key};
        var _ := Current(key, now);
      }
      assert keys == Step(policy, old(keys), Prune(now)).0;
    }
  }

  // ----- runs

  /** Times never go back, and start no earlier than `now`. */
  predicate Timed(ops: seq<Op>, now: nat) {
    ops == [] || (now <= ops[0].now && Timed(ops[1..], ops[0].now))
  }

  /** What callers see of a run: the answers to everything but `prune`. */
  function Answers(policy: Policy, keys: Keys, ops: seq<Op>): seq<Answer>
    decreases |ops|
  {
    if ops == [] then []
    else
      var (after, answer) := Step(policy, keys, ops[0]);
      (if ops[0].Prune? then [] else [answer]) + Answers(policy, after, ops[1..])
  }

  function WithoutPrunes(ops: seq<Op>): seq<Op> {
    if ops == [] then [] else (if ops[0].Prune? then [] else [ops[0]]) + WithoutPrunes(ops[1..])
  }

  /** Two maps no question asked from `now` on can tell apart. */
  ghost predicate Alike(policy: Policy, a: Keys, b: Keys, now: nat) {
    forall key :: View(policy, a, key, now) == View(policy, b, key, now)
  }

  lemma AlikeLater(policy: Policy, a: Keys, b: Keys, now: nat, later: nat)
    requires Alike(policy, a, b, now) && now <= later
    ensures Alike(policy, a, b, later)
  {
    forall key
      ensures View(policy, a, key, later) == View(policy, b, key, later)
    {
      assert View(policy, a, key, now) == View(policy, b, key, now);
    }
  }

  lemma PruneKeepsView(policy: Policy, keys: Keys, now: nat)
    ensures Alike(policy, Step(policy, keys, Prune(now)).0, keys, now)
  {
  }

  lemma StepKeepsAlike(policy: Policy, a: Keys, b: Keys, op: Op)
    requires Alike(policy, a, b, op.now) && !op.Prune?
    ensures Step(policy, a, op).1 == Step(policy, b, op).1
    ensures Alike(policy, Step(policy, a, op).0, Step(policy, b, op).0, op.now)
  {
    SameViewSameAnswer(policy, a, b, op);
    hide Step, View;
    forall key
      ensures View(policy, Step(policy, a, op).0, key, op.now) == View(policy, Step(policy, b, op).0, key, op.now)
    {
      SameViewStays(policy, a, b, op, key);
    }
  }

  lemma SameViewSameAnswer(policy: Policy, a: Keys, b: Keys, op: Op)
    requires !op.Prune? && View(policy, a, op.key, op.now) == View(policy, b, op.key, op.now)
    ensures Step(policy, a, op).1 == Step(policy, b, op).1
  {
    hide View;
  }

  lemma SameViewStays(policy: Policy, a: Keys, b: Keys, op: Op, key: Key)
    requires !op.Prune? && View(policy, a, op.key, op.now) == View(policy, b, op.key, op.now)
    requires View(policy, a, key, op.now) == View(policy, b, key, op.now)
    ensures View(policy, Step(policy, a, op).0, key, op.now) == View(policy, Step(policy, b, op).0, key, op.now)
  {
  }

  /** Taking every `prune` out of a run, or putting more in, changes no answer. */
  lemma {:induction false} PruneIsInvisible(policy: Policy, a: Keys, b: Keys, ops: seq<Op>, now: nat)
    requires Timed(ops, now) && Alike(policy, a, b, now)
    ensures Answers(policy, a, ops) == Answers(policy, b, WithoutPrunes(ops))
    decreases |ops|
  {
    if ops != [] {
      var op, more := ops[0], ops[1..];
      var after := Step(policy, a, op).0;
      AlikeLater(policy, a, b, now, op.now);
      if op.Prune? {
        PruneKeepsView(policy, a, op.now);
        assert Alike(policy, after, b, op.now);
        PruneIsInvisible(policy, after, b, more, op.now);
        assert WithoutPrunes(ops) == WithoutPrunes(more);
      } else {
        StepKeepsAlike(policy, a, b, op);
        PruneIsInvisible(policy, after, Step(policy, b, op).0, more, op.now);
        assert WithoutPrunes(ops)[1..] == WithoutPrunes(more);
      }
    }
  }

  /** Two runs that differ only in where they prune answer alike. */
  lemma PrunesDoNotMatter(policy: Policy, keys: Keys, ops: seq<Op>, others: seq<Op>)
    requires Timed(ops, 0) && Timed(others, 0) && WithoutPrunes(ops) == WithoutPrunes(others)
    ensures Answers(policy, keys, ops) == Answers(policy, keys, others)
  {
    PruneIsInvisible(policy, keys, keys, ops, 0);
    PruneIsInvisible(policy, keys, keys, others, 0);
  }

  predicate IsAbout(op: Op, key: Key) {
    op.Prune? || op.key == key
  }

  /** `reset` forgives completely: whatever is asked about the key afterwards is answered as by a fresh limiter. */
  lemma ResetForgives(policy: Policy, keys: Keys, key: Key, at: nat, ops: seq<Op>)
    requires forall i :: 0 <= i < |ops| ==> IsAbout(ops[i], key)
    ensures Answers(policy, Step(policy, keys, Reset(key, at)).0, ops) == Answers(policy, map[], ops)
  {
    SameKeySameAnswers(policy, keys - {key}, map[], key, ops);
  }

  lemma {:induction false} SameKeySameAnswers(policy: Policy, a: Keys, b: Keys, key: Key, ops: seq<Op>)
    requires forall i :: 0 <= i < |ops| ==> IsAbout(ops[i], key)
    requires key in a <==> key in b
    requires key in a ==> a[key] == b[key]
    ensures Answers(policy, a, ops) == Answers(policy, b, ops)
    decreases |ops|
  {
    if ops != [] {
      assert IsAbout(ops[0], key);
      SameKeySameStep(policy, a, b, key, ops[0]);
      SameKeySameAnswers(policy, Step(policy, a, ops[0]).0, Step(policy, b, ops[0]).0, key, ops[1..]);
    }
  }

  lemma SameKeySameStep(policy: Policy, a: Keys, b: Keys, key: Key, op: Op)
    requires IsAbout(op, key) && (key in a <==> key in b) && (key in a ==> a[key] == b[key])
    ensures Step(policy, a, op).1 == Step(policy, b, op).1
    ensures var x, y := Step(policy, a, op).0, Step(policy, b, op).0;
            (key in x <==> key in y) && (key in x ==> x[key] == y[key])
  {
    assert View(policy, a, key, op.now) == View(policy, b, key, op.now);
  }

  function RunKeys(policy: Policy, keys: Keys, ops: seq<Op>): Keys {
    if ops == [] then keys else Step(policy, RunKeys(policy, keys, ops[..|ops| - 1]), ops[|ops| - 1]).0
  }

  /** A lock never outlives the state that carries it. */
  predicate LocksCovered(policy: Policy, keys: Keys) {
    forall key :: key in keys ==> keys[key].lockedUntil <= ExpiresAt(policy, keys[key])
  }

  lemma {:induction false} RunCoversLocks(policy: Policy, ops: seq<Op>)
    ensures LocksCovered(policy, RunKeys(policy, map[], ops))
  {
    if ops != [] {
      RunCoversLocks(policy, ops[..|ops| - 1]);
    }
  }

  /** Expiry never shortens a lock: the wait is what the stored lock says, forgotten or not. */
  lemma ForgettingKeepsWaits(policy: Policy, ops: seq<Op>, key: Key, now: nat)
    ensures var keys := RunKeys(policy, map[], ops);
            Step(policy, keys, RetryAfter(key, now)).1 == WaitMs(if key in keys then Wait(keys[key], now) else 0)
  {
    RunCoversLocks(policy, ops);
  }
}
