/** How long a key is remembered, and that the waits the limiter answers are exact. */
module LimiterLives {
  import opened JsText
  import opened Numerals
  import opened AttemptLimiter
  import opened BackoffLaw

  predicate IsFailOf(op: Op, key: Key) {
    op.Fail? && op.key == key
  }

  predicate IsResetOf(op: Op, key: Key) {
    op.Reset? && op.key == key
  }

  predicate NoFailOf(ops: seq<Op>, key: Key) {
    forall i :: 0 <= i < |ops| ==> !IsFailOf(ops[i], key)
  }

  predicate NoResetOf(ops: seq<Op>, key: Key) {
    forall i :: 0 <= i < |ops| ==> !IsResetOf(ops[i], key)
  }

  predicate Until(ops: seq<Op>, now: nat) {
    forall i :: 0 <= i < |ops| ==> ops[i].now <= now
  }

  lemma {:induction false} RunKeysConcat(policy: Policy, keys: Keys, a: seq<Op>, b: seq<Op>)
    ensures RunKeys(policy, keys, a + b) == RunKeys(policy, RunKeys(policy, keys, a), b)
  {
    hide Step;
    if b == [] {
      assert a + b == a;
    } else {
      assert (a + b)[..|a + b| - 1] == a + b[..|b| - 1];
      RunKeysConcat(policy, keys, a, b[..|b| - 1]);
    }
  }

  // ----- how long a life lasts

  /** Between two failures nothing but a reset ends a life before its time. */
  lemma {:induction false} ViewStays(policy: Policy, keys: Keys, ops: seq<Op>, key: Key, now: nat)
    requires policy.Backoff? && NoFailOf(ops, key) && Until(ops, now)
    ensures View(policy, RunKeys(policy, keys, ops), key, now)
         == if NoResetOf(ops, key) then View(policy, keys, key, now) else None
  {
    if ops != [] {
      var init, op := ops[..|ops| - 1], ops[|ops| - 1];
      ViewStays(policy, keys, init, key, now);
      assert NoResetOf(ops, key) <==> NoResetOf(init, key) && !IsResetOf(op, key);
      QuietStep(policy, RunKeys(policy, keys, init), op, key, now);
    }
  }

  lemma QuietStep(policy: Policy, keys: Keys, op: Op, key: Key, now: nat)
    requires policy.Backoff? && !IsFailOf(op, key) && op.now <= now
    ensures View(policy, Step(policy, keys, op).0, key, now)
         == if IsResetOf(op, key) then None else View(policy, keys, key, now)
  {
  }

  /** A life that is not over after more operations is the same life. */
  lemma {:induction false} LifeStays(policy: Policy, a: seq<Op>, b: seq<Op>, key: Key)
    requires policy.Backoff? && NoFailOf(b, key)
    ensures key in RunKeys(policy, map[], a + b) ==> Life(policy, a + b, key) == Life(policy, a, key)
  {
    if b == [] {
      assert a + b == a;
    } else {
      var init, op := b[..|b| - 1], b[|b| - 1];
      assert (a + b)[..|a + b| - 1] == a + init;
      LifeStays(policy, a, init, key);
      assert !IsFailOf(op, key);
      assert key in Step(policy, RunKeys(policy, map[], a + init), op).0 ==> key in RunKeys(policy, map[], a + init);
    }
  }

  /** What a failure is answered when it is the n-th of its life. */
  predicate IsNthAnswer(policy: Policy, answer: Answer, n: nat)
    requires policy.Backoff?
  {
    answer == Failure(LockFor(policy, n), n == policy.freeFailures + 1)
  }

  /** The failures of a life are answered by their number in it. */
  lemma AnsweredByNumber(policy: Policy, ops: seq<Op>, key: Key, now: nat)
    requires policy.Backoff?
    ensures var life := Life(policy, ops + [Fail(key, now)], key);
            life != [] && IsNthAnswer(policy, Step(policy, RunKeys(policy, map[], ops), Fail(key, now)).1, |life|)
  {
    var all := ops + [Fail(key, now)];
    assert all[..|all| - 1] == ops;
    BackoffHolds(policy, all, key);
    BackoffHolds(policy, ops, key);
  }

  /** The lock the failure at position i was answered. */
  function LockAnswered(policy: Policy, ops: seq<Op>, i: nat): nat
    requires policy.Backoff? && i < |ops| && ops[i].Fail?
  {
    Step(policy, RunKeys(policy, map[], ops[..i]), ops[i]).1.lockMs
  }

  /** The key's last failure at position i is still remembered at `now`. */
  predicate Remembered(policy: Policy, ops: seq<Op>, key: Key, i: nat, now: nat)
    requires policy.Backoff? && i < |ops| && IsFailOf(ops[i], key)
  {
    && NoResetOf(ops[i + 1..], key)
    && (now < ops[i].now + policy.forgetAfterMs || now < ops[i].now + LockAnswered(policy, ops, i))
  }

  lemma ViewAfterFail(policy: Policy, ops: seq<Op>, key: Key, t: nat, now: nat)
    requires policy.Backoff?
    ensures var keys := RunKeys(policy, map[], ops);
            View(policy, Step(policy, keys, Fail(key, t)).0, key, now).Some?
            <==> now < t + policy.forgetAfterMs || now < t + Step(policy, keys, Fail(key, t)).1.lockMs
  {
    var all := ops + [Fail(key, t)];
    assert all[..|all| - 1] == ops;
    BackoffHolds(policy, all, key);
    BackoffHolds(policy, ops, key);
  }

  /**
   * How long a life lasts, from times alone. A failure goes on with the key's life if and only if the key was
   * not reset since its last failure, and that failure is less than `forgetAfterMs` ago or its lock still holds.
   */
  lemma LifeGoesOnExactly(policy: Policy, ops: seq<Op>, key: Key, i: nat, now: nat)
    requires policy.Backoff? && i < |ops| && IsFailOf(ops[i], key) && NoFailOf(ops[i + 1..], key)
    requires Until(ops, now)
    ensures var before, after := Life(policy, ops[..i + 1], key), Life(policy, ops + [Fail(key, now)], key);
            after != [] && after[..|after| - 1] == if Remembered(policy, ops, key, i, now) then before else []
  {
    var a, b := ops[..i + 1], ops[i + 1..];
    assert ops == a + b;
    RememberedIsViewed(policy, ops, key, i, now);
    LifeStays(policy, a, b, key);
    LifeAfterFail(policy, ops, key, now);
  }

  lemma RememberedIsViewed(policy: Policy, ops: seq<Op>, key: Key, i: nat, now: nat)
    requires policy.Backoff? && i < |ops| && IsFailOf(ops[i], key) && NoFailOf(ops[i + 1..], key)
    requires Until(ops, now)
    ensures View(policy, RunKeys(policy, map[], ops), key, now).Some? <==> Remembered(policy, ops, key, i, now)
  {
    var a, b := ops[..i + 1], ops[i + 1..];
    assert ops == a + b && a[..i] == ops[..i] && a == ops[..i] + [Fail(key, ops[i].now)];
    var keys := RunKeys(policy, map[], a);
    assert keys == Step(policy, RunKeys(policy, map[], ops[..i]), ops[i]).0;
    ViewAfterFail(policy, ops[..i], key, ops[i].now, now);
    RunKeysConcat(policy, map[], a, b);
    ViewStays(policy, keys, b, key, now);
  }

  lemma LifeAfterFail(policy: Policy, ops: seq<Op>, key: Key, now: nat)
    requires policy.Backoff?
    ensures var after := Life(policy, ops + [Fail(key, now)], key);
            && after != []
            && after[..|after| - 1] == (if View(policy, RunKeys(policy, map[], ops), key, now).Some?
                                        then Life(policy, ops, key) else [])
  {
    var all := ops + [Fail(key, now)];
    assert all[..|all| - 1] == ops;
  }

  /** The first failure of a key ever begins a life. */
  lemma {:induction false} FirstFailureBegins(policy: Policy, ops: seq<Op>, key: Key)
    requires policy.Backoff? && NoFailOf(ops, key)
    ensures key !in RunKeys(policy, map[], ops)
  {
    if ops != [] {
      FirstFailureBegins(policy, ops[..|ops| - 1], key);
      assert !IsFailOf(ops[|ops| - 1], key);
    }
  }

  /** Pruning keeps just the keys whose last failure is still remembered. */
  lemma PruneKeepsRemembered(policy: Policy, ops: seq<Op>, key: Key, i: nat, now: nat)
    requires policy.Backoff? && i < |ops| && IsFailOf(ops[i], key) && NoFailOf(ops[i + 1..], key)
    requires Until(ops, now)
    ensures key in RunKeys(policy, map[], ops + [Prune(now)]) <==> Remembered(policy, ops, key, i, now)
  {
    RememberedIsViewed(policy, ops, key, i, now);
    var all := ops + [Prune(now)];
    assert all[..|all| - 1] == ops;
  }

  // ----- failures in quick succession

  function FailCount(ops: seq<Op>, key: Key): nat {
    if ops == [] then 0
    else FailCount(ops[..|ops| - 1], key) + if IsFailOf(ops[|ops| - 1], key) then 1 else 0
  }

  /** Every failure of the key comes less than `forgetAfterMs` after the one before. */
  predicate Quick(policy: Policy, ops: seq<Op>, key: Key)
    requires policy.Backoff?
  {
    forall i, j :: 0 <= i < j < |ops| && IsFailOf(ops[i], key) && IsFailOf(ops[j], key) && NoFailOf(ops[i + 1..j], key)
      ==> ops[j].now < ops[i].now + policy.forgetAfterMs
  }

  /** Position of the last failure of the key. */
  lemma {:induction false} LastFail(ops: seq<Op>, key: Key) returns (i: nat)
    requires FailCount(ops, key) > 0
    ensures i < |ops| && IsFailOf(ops[i], key) && NoFailOf(ops[i + 1..], key)
    ensures FailCount(ops[..i + 1], key) == FailCount(ops, key)
  {
    if IsFailOf(ops[|ops| - 1], key) {
      i := |ops| - 1;
      assert ops[..i + 1] == ops;
    } else {
      var init := ops[..|ops| - 1];
      i := LastFail(init, key);
      assert init[..i + 1] == ops[..i + 1];
      assert ops[i + 1..] == init[i + 1..] + [ops[|ops| - 1]];
    }
  }

  lemma {:induction false} NoCountNoFail(ops: seq<Op>, key: Key)
    requires FailCount(ops, key) == 0
    ensures NoFailOf(ops, key)
  {
    if ops != [] {
      NoCountNoFail(ops[..|ops| - 1], key);
    }
  }

  lemma QuickPrefix(policy: Policy, ops: seq<Op>, key: Key, n: nat)
    requires policy.Backoff? && Quick(policy, ops, key) && n <= |ops|
    ensures Quick(policy, ops[..n], key)
  {
    var init := ops[..n];
    forall i, j | 0 <= i < j < n && IsFailOf(init[i], key) && IsFailOf(init[j], key) && NoFailOf(init[i + 1..j], key)
      ensures init[j].now < init[i].now + policy.forgetAfterMs
    {
      assert init[i + 1..j] == ops[i + 1..j];
    }
  }

  lemma QuickIsRemembered(policy: Policy, ops: seq<Op>, key: Key, i: nat, now: nat)
    requires policy.Backoff? && Quick(policy, ops + [Fail(key, now)], key) && NoResetOf(ops, key)
    requires i < |ops| && IsFailOf(ops[i], key) && NoFailOf(ops[i + 1..], key)
    ensures Remembered(policy, ops, key, i, now)
  {
    hide LockAnswered, NoFailOf;
    var all := ops + [Fail(key, now)];
    assert all[i + 1..|ops|] == ops[i + 1..];
    assert IsFailOf(all[i], key) && IsFailOf(all[|ops|], key) && NoFailOf(all[i + 1..|ops|], key);
  }

  /** The run up to the last failure is of the same kind. */
  lemma UpToLast(policy: Policy, ops: seq<Op>, key: Key, i: nat, now: nat)
    requires policy.Backoff? && Ordered(ops + [Fail(key, now)]) && Quick(policy, ops + [Fail(key, now)], key)
    requires NoResetOf(ops, key) && i < |ops| && IsFailOf(ops[i], key)
    ensures var before := ops[..i] + [Fail(key, ops[i].now)];
            && before == ops[..i + 1] && NoResetOf(ops[..i], key) && Ordered(before) && Quick(policy, before, key)
            && FailCount(before, key) == FailCount(ops[..i], key) + 1
    ensures Until(ops, now)
  {
    hide NoFailOf;
    var all := ops + [Fail(key, now)];
    var before := ops[..i] + [Fail(key, ops[i].now)];
    assert before == ops[..i + 1] == all[..i + 1] && before[..i] == ops[..i];
    QuickPrefix(policy, all, key, i + 1);
    forall j | 0 <= j < |ops|
      ensures ops[j].now <= now
    {
      assert all[j].now <= all[|ops|].now;
    }
  }

  /** Then all of them are one life. */
  lemma {:induction false} QuickIsOneLife(policy: Policy, ops: seq<Op>, key: Key, now: nat)
    requires policy.Backoff? && Ordered(ops + [Fail(key, now)]) && Quick(policy, ops + [Fail(key, now)], key)
    requires NoResetOf(ops, key)
    ensures |Life(policy, ops + [Fail(key, now)], key)| == FailCount(ops, key) + 1
    decreases |ops|
  {
    hide Life, Quick, Ordered, NoResetOf, Remembered, FailCount, NoFailOf, Step, RunKeys;
    if FailCount(ops, key) == 0 {
      NoCountNoFail(ops, key);
      FirstFailureBegins(policy, ops, key);
      LifeAfterFail(policy, ops, key, now);
    } else {
      var i := LastFail(ops, key);
      UpToLast(policy, ops, key, i, now);
      QuickIsRemembered(policy, ops, key, i, now);
      LifeGoesOnExactly(policy, ops, key, i, now);
      QuickIsOneLife(policy, ops[..i], key, ops[i].now);
    }
  }

  /**
   * So n failures of a key in quick succession, with no reset, are answered as the first to the n-th: free at
   * first, then one fresh lock, then longer ones.
   */
  lemma QuickFailuresLock(policy: Policy, ops: seq<Op>, key: Key, now: nat)
    requires policy.Backoff? && Ordered(ops + [Fail(key, now)]) && Quick(policy, ops + [Fail(key, now)], key)
    requires NoResetOf(ops, key)
    ensures IsNthAnswer(policy, Step(policy, RunKeys(policy, map[], ops), Fail(key, now)).1, FailCount(ops, key) + 1)
  {
    QuickIsOneLife(policy, ops, key, now);
    AnsweredByNumber(policy, ops, key, now);
  }

  /** The locks by number: none while failures are free, then the base, then twice the one before, up to the cap. */
  lemma LocksByNumber(policy: Policy, n: nat)
    requires policy.Backoff?
    ensures n <= policy.freeFailures ==> LockFor(policy, n) == 0
    ensures LockFor(policy, policy.freeFailures + 1) == Min(policy.baseLockMs, policy.maxLockMs)
    ensures n > policy.freeFailures ==> LockFor(policy, n + 1) == Min(2 * LockFor(policy, n), policy.maxLockMs)
  {
    if n > policy.freeFailures {
      var k := n - policy.freeFailures - 1;
      assert policy.baseLockMs * Pow2(k + 1) == 2 * (policy.baseLockMs * Pow2(k));
    } else {
      assert policy.baseLockMs * Pow2(0) == policy.baseLockMs;
    }
  }

  // ----- waits are exact

  /** A key that is told to wait may try exactly when that time is over, and is told so in between. */
  lemma WaitIsExact(policy: Policy, ops: seq<Op>, key: Key, now: nat, later: nat)
    requires now <= later
    ensures var keys := RunKeys(policy, map[], ops);
            var (after, answer) := Step(policy, keys, RetryAfter(key, now));
            Step(policy, after, RetryAfter(key, later)).1
            == WaitMs(if later < now + answer.ms then now + answer.ms - later else 0)
  {
    RunCoversLocks(policy, ops);
  }

  /** A failure locks the key for just as long as it answers. */
  lemma LockIsServed(policy: Policy, ops: seq<Op>, key: Key, now: nat, later: nat)
    requires policy.Backoff? && now <= later
    ensures var (after, answer) := Step(policy, RunKeys(policy, map[], ops), Fail(key, now));
            Step(policy, after, RetryAfter(key, later)).1
            == WaitMs(if later < now + answer.lockMs then now + answer.lockMs - later else 0)
  {
    var all := ops + [Fail(key, now)];
    assert all[..|all| - 1] == ops;
    BackoffHolds(policy, all, key);
    BackoffHolds(policy, ops, key);
    RunCoversLocks(policy, all);
  }
}
