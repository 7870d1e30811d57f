/** The locks one life of a key sees, from its first failure until it is forgotten or reset. */
module BackoffLaw {
  import opened Numerals
  import opened AttemptLimiter

  /** A failure with the answer it got. */
  datatype Failed = Failed(time: nat, lockMs: nat, justLocked: bool)

  /** The failures of the key's current life after a run, none when the key is forgotten. */
  function Life(policy: Policy, ops: seq<Op>, key: Key): seq<Failed>
    requires policy.Backoff?
  {
    if ops == [] then []
    else
      var init, op := ops[..|ops| - 1], ops[|ops| - 1];
      var keys, before := RunKeys(policy, map[], init), Life(policy, init, key);
      var (after, answer) := Step(policy, keys, op);
      if op.Fail? && op.key == key then
        (if View(policy, keys, key, op.now).Some? then before else [])
        + [Failed(op.now, answer.lockMs, answer.justLocked)]
      else if key in after then before
      else []
  }

  /** The time of the last operation. */
  function Clock(ops: seq<Op>): nat {
    if ops == [] then 0 else ops[|ops| - 1].now
  }

  predicate Ordered(ops: seq<Op>) {
    forall i, j :: 0 <= i < j < |ops| ==> ops[i].now <= ops[j].now
  }

  /** Failures of the key happen only while it may try. */
  predicate Polite(policy: Policy, ops: seq<Op>, key: Key) {
    ops == [] ||
    (var init, op := ops[..|ops| - 1], ops[|ops| - 1];
     && Polite(policy, init, key)
     && (op.Fail? && op.key == key ==>
           Step(policy, RunKeys(policy, map[], init), RetryAfter(key, op.now)).1 == WaitMs(0)))
  }

  /** The k-th failure of a life locks for LockFor(k) and reports a fresh lock exactly at the first over-limit one. */
  predicate Lawful(policy: Policy, life: seq<Failed>)
    requires policy.Backoff?
  {
    forall i :: 0 <= i < |life| ==>
      life[i].lockMs == LockFor(policy, i + 1) && (life[i].justLocked <==> i == policy.freeFailures)
  }

  /** The stored state is the summary of the life. */
  predicate Summarises(policy: Policy, keys: Keys, key: Key, life: seq<Failed>)
    requires policy.Backoff?
  {
    && (key in keys <==> life != [])
    && (key in keys ==>
          && keys[key].count == |life|
          && keys[key].since == life[|life| - 1].time
          && keys[key].lockedUntil == if |life| <= policy.freeFailures then 0
                                      else life[|life| - 1].time + life[|life| - 1].lockMs)
  }

  lemma {:induction false} BackoffHolds(policy: Policy, ops: seq<Op>, key: Key)
    requires policy.Backoff?
    ensures Lawful(policy, Life(policy, ops, key))
    ensures Summarises(policy, RunKeys(policy, map[], ops), key, Life(policy, ops, key))
  {
    if ops != [] {
      var init, op := ops[..|ops| - 1], ops[|ops| - 1];
      BackoffHolds(policy, init, key);
    }
  }

  /** In one life the key turns from open to locked at most once, at failure freeFailures + 1. */
  lemma JustLockedOnce(policy: Policy, ops: seq<Op>, key: Key)
    requires policy.Backoff?
    ensures var life := Life(policy, ops, key);
            |(set i | 0 <= i < |life| && life[i].justLocked)| == if |life| > policy.freeFailures then 1 else 0
  {
    BackoffHolds(policy, ops, key);
    var life := Life(policy, ops, key);
    var locked := set i | 0 <= i < |life| && life[i].justLocked;
    if |life| > policy.freeFailures {
      assert locked == {policy.freeFailures};
    } else {
      assert locked == {};
    }
  }

  /** Sum of the first n locks of a life, counted from the first over-limit failure. */
  function LockSum(policy: Policy, n: nat): nat
    requires policy.Backoff?
  {
    if n == 0 then 0 else LockSum(policy, n - 1) + LockFor(policy, policy.freeFailures + n)
  }

  predicate Spaced(life: seq<Failed>) {
    forall i :: 0 < i < |life| ==> life[i - 1].time + life[i - 1].lockMs <= life[i].time
  }

  lemma {:induction false} LifeBeforeClock(policy: Policy, ops: seq<Op>, key: Key)
    requires policy.Backoff? && Ordered(ops)
    ensures var life := Life(policy, ops, key); life != [] ==> life[|life| - 1].time <= Clock(ops)
  {
    if ops != [] {
      LifeBeforeClock(policy, ops[..|ops| - 1], key);
      assert Clock(ops[..|ops| - 1]) <= Clock(ops);
    }
  }

  lemma {:induction false} PoliteLifeIsSpaced(policy: Policy, ops: seq<Op>, key: Key)
    requires policy.Backoff? && Ordered(ops) && Polite(policy, ops, key)
    ensures Spaced(Life(policy, ops, key))
  {
    if ops != [] {
      var init, op := ops[..|ops| - 1], ops[|ops| - 1];
      PoliteLifeIsSpaced(policy, init, key);
      LifeBeforeClock(policy, init, key);
      assert Clock(init) <= op.now;
      if op.Fail? && op.key == key {
        PoliteFailureWaited(policy, init, key, op.now);
      }
    }
  }

  /** A failure while no lock holds comes after the lock of the failure before it. */
  lemma PoliteFailureWaited(policy: Policy, init: seq<Op>, key: Key, now: nat)
    requires policy.Backoff? && Step(policy, RunKeys(policy, map[], init), RetryAfter(key, now)).1 == WaitMs(0)
    requires var life := Life(policy, init, key); life != [] ==> life[|life| - 1].time <= now
    ensures var life := Life(policy, init, key);
            View(policy, RunKeys(policy, map[], init), key, now).Some? && life != [] ==>
            life[|life| - 1].time + life[|life| - 1].lockMs <= now
  {
    BackoffHolds(policy, init, key);
  }

  lemma {:induction false} SpacedTakesLocks(policy: Policy, life: seq<Failed>, n: nat)
    requires policy.Backoff? && Lawful(policy, life) && Spaced(life) && policy.freeFailures + n < |life|
    ensures life[policy.freeFailures + n].time >= life[policy.freeFailures].time + LockSum(policy, n)
  {
    if n > 0 {
      SpacedTakesLocks(policy, life, n - 1);
      assert life[policy.freeFailures + n - 1].lockMs == LockFor(policy, policy.freeFailures + n);
    }
  }

  /** Polite attackers pay: n + 1 over-limit failures in one life take at least the first n locks. */
  lemma GuessingTakesTime(policy: Policy, ops: seq<Op>, key: Key, n: nat)
    requires policy.Backoff? && Ordered(ops) && Polite(policy, ops, key)
    requires policy.freeFailures + n < |Life(policy, ops, key)|
    ensures var life := Life(policy, ops, key);
            life[policy.freeFailures + n].time - life[policy.freeFailures].time >= LockSum(policy, n)
  {
    BackoffHolds(policy, ops, key);
    PoliteLifeIsSpaced(policy, ops, key);
    SpacedTakesLocks(policy, Life(policy, ops, key), n);
  }

  /** While locks still double, their sum is geometric. */
  lemma {:induction false} DoublingLocks(policy: Policy, n: nat)
    requires policy.Backoff? && (n == 0 || policy.baseLockMs * Pow2(n - 1) <= policy.maxLockMs)
    ensures LockSum(policy, n) == policy.baseLockMs * (Pow2(n) - 1)
  {
    if n > 0 {
      if n > 1 { Halve(policy.baseLockMs, Pow2(n - 2)); }
      DoublingLocks(policy, n - 1);
      Distribute(policy.baseLockMs, Pow2(n - 1));
    }
  }

  lemma Halve(b: nat, p: nat)
    ensures b * p <= b * (2 * p)
  {
  }

  lemma Distribute(b: int, p: int)
    ensures b * (2 * p - 1) == b * (p - 1) + b * p
  {
  }

  /** Once the cap is reached every later lock is the cap. */
  lemma {:induction false} CappedLocks(policy: Policy, n: nat, k: nat)
    requires policy.Backoff? && n <= k && policy.baseLockMs * Pow2(n) >= policy.maxLockMs
    ensures LockFor(policy, policy.freeFailures + k + 1) == policy.maxLockMs
  {
    if n < k {
      CappedLocks(policy, n, k - 1);
      assert policy.baseLockMs * Pow2(k) == 2 * (policy.baseLockMs * Pow2(k - 1));
    }
  }
}
