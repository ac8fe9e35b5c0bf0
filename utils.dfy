/** Bounded retry with exponential backoff (package utils).
    The operation being retried is an oracle `fn`: `fn(k)` is true when the
    k-th call (counted from 1) succeeds. Sleeping is not performed; every
    sleep is recorded, in order, as its duration. */
module Utils {

  datatype Option<T> = None | Some(value: T)

  /** What Retry returns: nil, or the error "max retry attempts exceeded". */
  datatype Status = Nil | MaxRetriesExceeded

  /** One run of Retry: its return value, how many times it called the
      operation, and the durations it slept, in order. */
  datatype Run = Run(status: Status, calls: nat, sleeps: seq<nat>)

  function Pow2(n: nat): (r: nat)
    ensures r >= 1
  {
    if n == 0 then 1 else 2 * Pow2(n - 1)
  }

  /** The first n backoff delays starting from `initialDelay`, each double the one before. */
  function Schedule(initialDelay: nat, n: nat): (r: seq<nat>)
    ensures |r| == n
  {
    if n == 0 then [] else Schedule(initialDelay, n - 1) + [initialDelay * Pow2(n - 1)]
  }

  /** The first attempt number in `from..maxAttempts` whose call succeeds, if any. */
  function FirstSuccess(fn: nat -> bool, from: nat, maxAttempts: int): (r: Option<nat>)
    ensures r.Some? ==> from <= r.value <= maxAttempts && fn(r.value)
    decreases maxAttempts - from
  {
    if from > maxAttempts then None
    else if fn(from) then Some(from)
    else FirstSuccess(fn, from + 1, maxAttempts)
  }

  /** Reference behaviour of Retry: stop at the first successful attempt,
      after sleeping once per failed attempt before it; otherwise every one
      of the `maxAttempts` attempts fails and each is followed by a sleep. */
  function RetryRun(maxAttempts: int, initialDelay: nat, fn: nat -> bool): Run
  {
    match FirstSuccess(fn, 1, maxAttempts)
    case Some(k) => Run(Nil, k, Schedule(initialDelay, k - 1))
    case None =>
      var n := if maxAttempts < 0 then 0 else maxAttempts;
      Run(MaxRetriesExceeded, n, Schedule(initialDelay, n))
  }

  /** The retry loop: call `fn` for attempt = 1, 2, ... up to maxAttempts;
      return nil on the first success; after each failure sleep for `delay`
      and double it; after the last attempt report the error. */
  method Retry(maxAttempts: int, initialDelay: nat, fn: nat -> bool)
    returns (status: Status, calls: nat, sleeps: seq<nat>)
    ensures Run(status, calls, sleeps) == RetryRun(maxAttempts, initialDelay, fn)
  {
    var delay := initialDelay;
    var attempt := 1;
    calls, sleeps := 0, [];
    while attempt <= maxAttempts
      invariant 1 <= attempt
      invariant attempt - 1 <= maxAttempts || attempt == 1
      invariant calls == attempt - 1
      invariant FirstSuccess(fn, 1, maxAttempts) == FirstSuccess(fn, attempt, maxAttempts)
      invariant sleeps == Schedule(initialDelay, attempt - 1)
      invariant delay == initialDelay * Pow2(attempt - 1)
    {
      calls := calls + 1;
      if fn(attempt) {
        return Nil, calls, sleeps;
      }
      sleeps := sleeps + [delay];
      DoubleDelay(initialDelay, attempt - 1);
      delay := delay * 2;
      attempt := attempt + 1;
    }
    status := MaxRetriesExceeded;
  }

  lemma DoubleDelay(d: nat, n: nat)
    ensures d * Pow2(n) * 2 == d * Pow2(n + 1)
  {
  }

  /** The schedule has one entry per sleep, and the i-th sleep (from 0)
      lasts initialDelay * 2^i. */
  lemma {:induction false} ScheduleAt(d: nat, n: nat, i: nat)
    requires i < n
    ensures Schedule(d, n)[i] == d * Pow2(i)
  {
    if i < n - 1 {
      ScheduleAt(d, n - 1, i);
    }
  }

  /** Every sleep after the first lasts twice as long as the one before it. */
  lemma ScheduleDoubles(d: nat, n: nat, i: nat)
    requires i + 1 < n
    ensures Schedule(d, n)[i + 1] == 2 * Schedule(d, n)[i]
  {
  }

  /** FirstSuccess finds exactly the least successful attempt in range. */
  lemma {:induction false} FirstSuccessIsLeast(fn: nat -> bool, from: nat, maxAttempts: int, k: nat)
    ensures FirstSuccess(fn, from, maxAttempts) == Some(k) <==>
      from <= k <= maxAttempts && fn(k) && forall j :: from <= j < k ==> !fn(j)
    decreases maxAttempts - from
  {
    if from <= maxAttempts && !fn(from) {
      FirstSuccessIsLeast(fn, from + 1, maxAttempts, k);
    }
  }

  /** FirstSuccess finds nothing exactly when every attempt in range fails. */
  lemma {:induction false} FirstSuccessNone(fn: nat -> bool, from: nat, maxAttempts: int)
    ensures FirstSuccess(fn, from, maxAttempts) == None <==>
      forall j :: from <= j <= maxAttempts ==> !fn(j)
    decreases maxAttempts - from
  {
    if from <= maxAttempts && !fn(from) {
      FirstSuccessNone(fn, from + 1, maxAttempts);
    }
  }

  /** `fn` is never called more than maxAttempts times, and not at all when
      maxAttempts is not positive. */
  lemma RetryCallsBounded(maxAttempts: int, d: nat, fn: nat -> bool)
    ensures RetryRun(maxAttempts, d, fn).calls <= if maxAttempts < 0 then 0 else maxAttempts
  {
  }

  /** If the k-th call is the first to succeed, Retry returns nil after
      exactly k calls and k - 1 sleeps, the i-th of which lasts d * 2^i. */
  lemma RetrySucceedsAtFirstSuccess(maxAttempts: int, d: nat, fn: nat -> bool, k: nat)
    requires 1 <= k <= maxAttempts && fn(k)
    requires forall j :: 1 <= j < k ==> !fn(j)
    ensures var run := RetryRun(maxAttempts, d, fn);
      && run.status == Nil
      && run.calls == k
      && |run.sleeps| == k - 1
      && forall i :: 0 <= i < k - 1 ==> run.sleeps[i] == d * Pow2(i)
  {
    FirstSuccessIsLeast(fn, 1, maxAttempts, k);
    forall i | 0 <= i < k - 1
      ensures Schedule(d, k - 1)[i] == d * Pow2(i)
    {
      ScheduleAt(d, k - 1, i);
    }
  }

  /** When every attempt fails, Retry reports the error after exactly
      maxAttempts calls and maxAttempts sleeps: the last failure is followed
      by a sleep too. */
  lemma RetryExhausted(maxAttempts: int, d: nat, fn: nat -> bool)
    requires forall j :: 1 <= j <= maxAttempts ==> !fn(j)
    ensures var run := RetryRun(maxAttempts, d, fn);
      && run.status == MaxRetriesExceeded
      && run.calls == (if maxAttempts < 0 then 0 else maxAttempts)
      && |run.sleeps| == run.calls
      && forall i :: 0 <= i < run.calls ==> run.sleeps[i] == d * Pow2(i)
  {
    FirstSuccessNone(fn, 1, maxAttempts);
    var n := if maxAttempts < 0 then 0 else maxAttempts;
    forall i | 0 <= i < n
      ensures Schedule(d, n)[i] == d * Pow2(i)
    {
      ScheduleAt(d, n, i);
    }
  }

  /** Retry returns nil exactly when some attempt in 1..maxAttempts succeeds. */
  lemma RetryNilIffSomeSuccess(maxAttempts: int, d: nat, fn: nat -> bool)
    ensures RetryRun(maxAttempts, d, fn).status == Nil <==>
      exists k :: 1 <= k <= maxAttempts && fn(k)
  {
    FirstSuccessNone(fn, 1, maxAttempts);
  }

  /** With a non-positive attempt limit the operation is never called. */
  lemma RetryNoAttempts(maxAttempts: int, d: nat, fn: nat -> bool)
    requires maxAttempts <= 0
    ensures RetryRun(maxAttempts, d, fn) == Run(MaxRetriesExceeded, 0, [])
  {
  }

  /** Three attempts, initial delay 4: failing twice then succeeding sleeps 4 then 8. */
  lemma RetryFailTwiceThenSucceed()
    ensures RetryRun(3, 4, k => k >= 3) == Run(Nil, 3, [4, 8])
  {
    var fn: nat -> bool := k => k >= 3;
    assert FirstSuccess(fn, 3, 3) == Some(3);
    assert FirstSuccess(fn, 1, 3) == Some(3);
    assert Schedule(4, 2) == [4, 8];
  }

  /** Three attempts, initial delay 4, always failing: sleeps 4, 8 and 16 and reports the error. */
  lemma RetryAlwaysFails()
    ensures RetryRun(3, 4, k => false) == Run(MaxRetriesExceeded, 3, [4, 8, 16])
  {
    var fn: nat -> bool := k => false;
    assert FirstSuccess(fn, 4, 3) == None;
    assert FirstSuccess(fn, 1, 3) == None;
    assert Schedule(4, 3) == [4, 8, 16];
  }
}
