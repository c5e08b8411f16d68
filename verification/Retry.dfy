/** The retry window: capped exponential backoff, clipped to the time left, against any clock that
    never runs backwards. Durations are nanoseconds. */
module Retry {
  import opened Wrappers

  const SECOND: int := 1_000_000_000
  const MAX_BACKOFF: int := 60 * SECOND

  function Pow2(e: nat): int {
    if e == 0 then 1 else 2 * Pow2(e - 1)
  }

  // backoffSeconds
  function Backoff(attempt: int): int {
    if attempt >= 7 then MAX_BACKOFF
    else if attempt < 1 then SECOND
    else Pow2(attempt - 1) * SECOND
  }

  // RetryPolicy.NextDelay
  function NextDelay(window: int, attempt: int, elapsed: int): Option<int> {
    var remaining := window - elapsed;
    if remaining <= 0 then None
    else
      var backoff := Backoff(attempt);
      Some(if backoff > remaining then remaining else backoff)
  }

  datatype Attempt<+R> = Response(value: R) | Failed(retryable: bool, exitCode: int)

  datatype Outcome<+R> = Answer(value: R) | Rejected(exitCode: int) | Unreachable

  // What happens at the k-th attempt, how long it takes, and how much longer than asked the sleep
  // after it lasts: any server, any clock that never runs backwards.
  datatype World<!R> = World(attempt: nat -> Attempt<R>, takes: nat -> nat, oversleeps: nat -> nat)

  datatype Run<+R> = Run(outcome: Outcome<R>, attempts: nat, sleeps: seq<int>)

  lemma {:induction false} BackoffIsPositive(attempt: int)
    ensures SECOND <= Backoff(attempt) <= MAX_BACKOFF
  {
    if 1 <= attempt < 7 {
      assert Pow2(0) == 1 && Pow2(1) == 2 && Pow2(2) == 4;
      assert Pow2(3) == 8 && Pow2(4) == 16 && Pow2(5) == 32;
    }
  }

  function Least(a: int, b: int): int {
    if a <= b then a else b
  }

  lemma {:induction false} Pow2IsLarge(e: nat)
    requires e >= 6
    ensures Pow2(e) >= 64
  {
    if e == 6 {
      assert Pow2(0) == 1 && Pow2(1) == 2 && Pow2(2) == 4;
      assert Pow2(3) == 8 && Pow2(4) == 16 && Pow2(5) == 32;
    } else {
      Pow2IsLarge(e - 1);
    }
  }

  /** The wait after attempt i + 1 is 2^i seconds, but never more than 60. */
  lemma BackoffDoubles(i: nat)
    ensures Backoff(i + 1) == Least(Pow2(i) * SECOND, 60 * SECOND)
  {
    if i >= 6 {
      Pow2IsLarge(i);
    } else {
      assert Pow2(0) == 1 && Pow2(1) == 2 && Pow2(2) == 4;
      assert Pow2(3) == 8 && Pow2(4) == 16 && Pow2(5) == 32;
    }
  }

  // RunWithRetry from the k-th attempt on, with this much time gone.
  function RetryFrom<R>(window: int, world: World<R>, k: nat, elapsed: int): Run<R>
    decreases window - elapsed
  {
    var now := elapsed + world.takes(k);
    match world.attempt(k)
    case Response(value) => Run(Answer(value), k, [])
    case Failed(false, code) => Run(Rejected(code), k, [])
    case Failed(true, _) =>
      var delay := NextDelay(window, k, now);
      if delay.None? then Run(Unreachable, k, [])
      else
        BackoffIsPositive(k);
        var rest := RetryFrom(window, world, k + 1, now + delay.value + world.oversleeps(k));
        rest.(sleeps := [delay.value] + rest.sleeps)
  }

  function Sum(s: seq<int>): int {
    if s == [] then 0 else s[0] + Sum(s[1..])
  }

  lemma SumCons(x: int, s: seq<int>)
    ensures Sum([x] + s) == x + Sum(s)
  {
    assert ([x] + s)[1..] == s;
  }

  // A run that slept this much before.
  function After<R>(sleeps: seq<int>, run: Run<R>): Run<R> {
    run.(sleeps := sleeps + run.sleeps)
  }

  // The whole run, seen after some waits: the k-th attempt is next.
  ghost predicate Continues<R>(
      whole: Run<R>, window: int, world: World<R>, k: nat, elapsed: int, sleeps: seq<int>)
  {
    whole == After(sleeps, RetryFrom(window, world, k, elapsed))
  }

  lemma RetryTurn<R>(
      whole: Run<R>, window: int, world: World<R>, k: nat, elapsed: int, sleeps: seq<int>, delay: int)
    requires Continues(whole, window, world, k, elapsed, sleeps)
    requires world.attempt(k).Failed? && world.attempt(k).retryable
    requires NextDelay(window, k, elapsed + world.takes(k)) == Some(delay)
    ensures var later := elapsed + world.takes(k) + delay + world.oversleeps(k);
            Continues(whole, window, world, k + 1, later, sleeps + [delay])
  {
    var rest := RetryFrom(window, world, k + 1, elapsed + world.takes(k) + delay + world.oversleeps(k));
    assert sleeps + ([delay] + rest.sleeps) == sleeps + [delay] + rest.sleeps;
  }

  // The attempt that ends a run.
  lemma RetryEnd<R>(
      whole: Run<R>, window: int, world: World<R>, k: nat, elapsed: int, sleeps: seq<int>, outcome: Outcome<R>)
    requires Continues(whole, window, world, k, elapsed, sleeps)
    requires match world.attempt(k)
             case Response(value) => outcome == Answer(value)
             case Failed(false, code) => outcome == Rejected(code)
             case Failed(true, _) => outcome == Unreachable && NextDelay(window, k, elapsed + world.takes(k)).None?
    ensures whole == Run(outcome, k, sleeps)
  {
    assert sleeps + [] == sleeps;
  }

  lemma RetryStart<R>(window: int, world: World<R>)
    ensures Continues(RetryFrom(window, world, 1, 0), window, world, 1, 0, [])
  {
    var whole := RetryFrom(window, world, 1, 0);
    assert [] + whole.sleeps == whole.sleeps;
  }

  // The attempt loop.
  method RunWithRetry<R>(window: int, world: World<R>) returns (run: Run<R>)
    ensures run == RetryFrom(window, world, 1, 0)
  {
    hide RetryFrom, Continues, Backoff;
    var elapsed, attemptNumber := 0, 1;
    var sleeps: seq<int> := [];
    ghost var whole := RetryFrom(window, world, 1, 0);
    RetryStart(window, world);
    while true
      invariant Continues(whole, window, world, attemptNumber, elapsed, sleeps)
      decreases window - elapsed
    {
      var response := world.attempt(attemptNumber);
      var now := elapsed + world.takes(attemptNumber);
      if response.Response? {
        RetryEnd(whole, window, world, attemptNumber, elapsed, sleeps, Answer(response.value));
        return Run(Answer(response.value), attemptNumber, sleeps);
      }
      if !response.retryable {
        RetryEnd(whole, window, world, attemptNumber, elapsed, sleeps, Rejected(response.exitCode));
        return Run(Rejected(response.exitCode), attemptNumber, sleeps);
      }
      var delay := NextDelay(window, attemptNumber, now);
      if delay.None? {
        RetryEnd(whole, window, world, attemptNumber, elapsed, sleeps, Unreachable);
        return Run(Unreachable, attemptNumber, sleeps);
      }
      BackoffIsPositive(attemptNumber);
      RetryTurn(whole, window, world, attemptNumber, elapsed, sleeps, delay.value);
      elapsed := now + delay.value + world.oversleeps(attemptNumber);
      sleeps := sleeps + [delay.value];
      attemptNumber := attemptNumber + 1;
    }
  }

  // --- what holds on every clock

  /** The attempts that came before the last all failed retryably; the outcome is that of the last;
      the call is given up as unreachable only for a retryable failure. */
  lemma {:induction false} OutcomeIsTheLastAttempt<R>(window: int, world: World<R>, k: nat, elapsed: int)
    ensures var run := RetryFrom(window, world, k, elapsed);
            && run.attempts >= k && |run.sleeps| == run.attempts - k
            && (forall i | k <= i < run.attempts :: world.attempt(i).Failed? && world.attempt(i).retryable)
            && match world.attempt(run.attempts)
               case Response(value) => run.outcome == Answer(value)
               case Failed(retryable, code) => run.outcome == if retryable then Unreachable else Rejected(code)
    decreases window - elapsed
  {
    var now := elapsed + world.takes(k);
    var delay := NextDelay(window, k, now);
    if world.attempt(k).Failed? && world.attempt(k).retryable && delay.Some? {
      BackoffIsPositive(k);
      OutcomeIsTheLastAttempt(window, world, k + 1, now + delay.value + world.oversleeps(k));
    }
  }

  /** Waits that are positive, at most a minute each, and together fit what is left. */
  ghost predicate FitIn(sleeps: seq<int>, left: int) {
    && (forall i | 0 <= i < |sleeps| :: 0 < sleeps[i] <= MAX_BACKOFF)
    && Sum(sleeps) <= if left > 0 then left else 0
  }

  lemma FitCons(delay: int, sleeps: seq<int>, left: int, later: int)
    requires 0 < delay <= MAX_BACKOFF && delay <= left && later <= left - delay
    requires FitIn(sleeps, later)
    ensures FitIn([delay] + sleeps, left)
  {
    SumCons(delay, sleeps);
  }

  /** The waits are positive, at most a minute each, and never add up to more than the window. */
  lemma {:induction false} SleepsFitTheWindow<R>(window: int, world: World<R>, k: nat, elapsed: int)
    ensures FitIn(RetryFrom(window, world, k, elapsed).sleeps, window - elapsed)
    decreases window - elapsed
  {
    hide FitIn, Backoff;
    NoWaitFits(window - elapsed);
    var now := elapsed + world.takes(k);
    var delay := NextDelay(window, k, now);
    if world.attempt(k).Failed? && world.attempt(k).retryable && delay.Some? {
      BackoffIsPositive(k);
      var later := now + delay.value + world.oversleeps(k);
      SleepsFitTheWindow(window, world, k + 1, later);
      FitCons(delay.value, RetryFrom(window, world, k + 1, later).sleeps, window - elapsed, window - later);
    }
  }

  lemma NoWaitFits(left: int)
    ensures FitIn([], left)
  {
  }

  // The time at which the i-th attempt from the k-th on has failed, if these were the waits so far.
  ghost function FailedAt<R>(world: World<R>, k: nat, elapsed: int, sleeps: seq<int>, i: nat): int
    requires i <= |sleeps|
  {
    if i == 0 then elapsed + world.takes(k)
    else FailedAt(world, k, elapsed, sleeps, i - 1) + sleeps[i - 1] + world.oversleeps(k + i - 1) + world.takes(k + i)
  }

  lemma {:induction false} FailedLater<R>(
      world: World<R>, k: nat, elapsed: int, delay: int, later: int, sleeps: seq<int>, i: nat)
    requires i <= |sleeps| && later == elapsed + world.takes(k) + delay + world.oversleeps(k)
    ensures FailedAt(world, k, elapsed, [delay] + sleeps, i + 1) == FailedAt(world, k + 1, later, sleeps, i)
  {
    if i > 0 {
      FailedLater(world, k, elapsed, delay, later, sleeps, i - 1);
    } else {
      assert FailedAt(world, k, elapsed, [delay] + sleeps, 0) == elapsed + world.takes(k);
    }
  }

  // The wait after the i-th attempt from the k-th on.
  ghost predicate WaitIs<R>(window: int, world: World<R>, k: nat, elapsed: int, sleeps: seq<int>, i: nat)
    requires k >= 1 && i < |sleeps|
  {
    var left := window - FailedAt(world, k, elapsed, sleeps, i);
    left > 0 && sleeps[i] == Least(Least(Pow2(k - 1 + i) * SECOND, 60 * SECOND), left)
  }

  ghost predicate WaitsAre<R>(window: int, world: World<R>, k: nat, elapsed: int, sleeps: seq<int>)
    requires k >= 1
  {
    forall i: nat | i < |sleeps| :: WaitIs(window, world, k, elapsed, sleeps, i)
  }

  lemma WaitsCons<R>(
      window: int, world: World<R>, k: nat, elapsed: int, delay: int, later: int, rest: seq<int>)
    requires k >= 1 && NextDelay(window, k, elapsed + world.takes(k)) == Some(delay)
    requires later == elapsed + world.takes(k) + delay + world.oversleeps(k)
    requires WaitsAre(window, world, k + 1, later, rest)
    ensures WaitsAre(window, world, k, elapsed, [delay] + rest)
  {
    hide Backoff, Pow2;
    BackoffDoubles(k - 1);
    var sleeps := [delay] + rest;
    forall i: nat | i < |sleeps| ensures WaitIs(window, world, k, elapsed, sleeps, i) {
      if i > 0 {
        FailedLater(world, k, elapsed, delay, later, rest, i - 1);
        assert WaitIs(window, world, k + 1, later, rest, i - 1);
      }
    }
  }

  lemma {:induction false} WaitsFrom<R>(window: int, world: World<R>, k: nat, elapsed: int)
    requires k >= 1
    ensures WaitsAre(window, world, k, elapsed, RetryFrom(window, world, k, elapsed).sleeps)
    decreases window - elapsed
  {
    hide Backoff;
    var now := elapsed + world.takes(k);
    var delay := NextDelay(window, k, now);
    if world.attempt(k).Failed? && world.attempt(k).retryable && delay.Some? {
      BackoffIsPositive(k);
      var later := now + delay.value + world.oversleeps(k);
      WaitsFrom(window, world, k + 1, later);
      WaitsCons(window, world, k, elapsed, delay.value, later, RetryFrom(window, world, k + 1, later).sleeps);
    }
  }

  /** In every run, after attempt i + 1 the call waits for the least of 2^i seconds, 60 seconds, and
      what is left of the window when that attempt has failed. */
  lemma WaitsDouble<R>(window: int, world: World<R>)
    ensures var sleeps := RetryFrom(window, world, 1, 0).sleeps;
            forall i: nat | i < |sleeps| ::
              var left := window - FailedAt(world, 1, 0, sleeps, i);
              left > 0 && sleeps[i] == Least(Least(Pow2(i) * SECOND, 60 * SECOND), left)
  {
    hide RetryFrom, FailedAt, Least, Pow2;
    WaitsFrom(window, world, 1, 0);
    var sleeps := RetryFrom(window, world, 1, 0).sleeps;
    forall i: nat | i < |sleeps|
      ensures var left := window - FailedAt(world, 1, 0, sleeps, i);
              left > 0 && sleeps[i] == Least(Least(Pow2(i) * SECOND, 60 * SECOND), left)
    {
      assert WaitIs(window, world, 1, 0, sleeps, i);
    }
  }

  /** A call gives up only when the window is really over. */
  lemma {:induction false} UnreachableOnlyAfterTheWindow<R>(window: int, world: World<R>, k: nat, elapsed: int)
    requires RetryFrom(window, world, k, elapsed).outcome.Unreachable?
    ensures elapsed + Clock(world, RetryFrom(window, world, k, elapsed), k) >= window
    decreases window - elapsed
  {
    var now := elapsed + world.takes(k);
    var delay := NextDelay(window, k, now);
    if delay.Some? {
      BackoffIsPositive(k);
      var later := now + delay.value + world.oversleeps(k);
      UnreachableOnlyAfterTheWindow(window, world, k + 1, later);
      var rest := RetryFrom(window, world, k + 1, later);
      assert ([delay.value] + rest.sleeps)[1..] == rest.sleeps;
    }
  }

  // The time from the start of attempt k to the end of the last attempt of a run.
  function Clock<R>(world: World<R>, run: Run<R>, k: nat): int
    decreases |run.sleeps|
  {
    if run.sleeps == [] then world.takes(k)
    else
      world.takes(k) + run.sleeps[0] + world.oversleeps(k)
      + Clock(world, run.(sleeps := run.sleeps[1..]), k + 1)
  }

  // --- when only the sleeps take time and every attempt fails retryably

  ghost predicate Hopeless<R>(world: World<R>) {
    forall k: nat ::
      world.attempt(k).Failed? && world.attempt(k).retryable && world.takes(k) == 0 && world.oversleeps(k) == 0
  }

  // The first n waits of an unlimited window: 1, 2, 4, ... seconds, but never more than 60.
  function Spent(n: nat): int {
    if n == 0 then 0 else Spent(n - 1) + Least(Pow2(n - 1) * SECOND, 60 * SECOND)
  }

  lemma SpentOneMore(n: nat)
    requires n >= 1
    ensures Spent(n) == Spent(n - 1) + Backoff(n)
  {
    BackoffDoubles(n - 1);
  }

  /** n waits are the first that use up the window. */
  ghost predicate UsesUp(window: int, n: nat) {
    Spent(n) >= window && forall m: nat | m < n :: Spent(m) < window
  }

  lemma {:induction false} SpentGrows(m: nat, n: nat)
    requires m <= n
    ensures Spent(m) <= Spent(n)
  {
    if m < n {
      SpentGrows(m, n - 1);
      SpentOneMore(n);
      BackoffIsPositive(n);
    }
  }

  // One hopeless attempt: a full wait, or the last of the window and then the end.
  lemma HopelessTurn<R>(window: int, world: World<R>, k: nat)
    requires Hopeless(world) && k >= 1 && Spent(k - 1) < window
    ensures var run := RetryFrom(window, world, k, Spent(k - 1));
            if Spent(k) < window then
              var rest := RetryFrom(window, world, k + 1, Spent(k));
              run == rest.(sleeps := [Backoff(k)] + rest.sleeps)
            else run == Run(Unreachable, k + 1, [window - Spent(k - 1)])
  {
    SpentOneMore(k);
    assert world.attempt(k).retryable && world.attempt(k + 1).retryable;
    assert world.takes(k) == 0 && world.takes(k + 1) == 0 && world.oversleeps(k) == 0;
    if Spent(k) >= window {
      assert RetryFrom(window, world, k + 1, window) == Run(Unreachable, k + 1, []);
    }
  }

  lemma {:induction false} HopelessFrom<R>(window: int, world: World<R>, k: nat) returns (n: nat)
    requires Hopeless(world) && k >= 1 && Spent(k - 1) < window
    ensures UsesUp(window, n) && n >= k
    ensures var run := RetryFrom(window, world, k, Spent(k - 1));
            run.outcome == Unreachable && run.attempts == n + 1 && Sum(run.sleeps) == window - Spent(k - 1)
    decreases window - Spent(k - 1)
  {
    BackoffIsPositive(k);
    SpentOneMore(k);
    HopelessTurn(window, world, k);
    if Spent(k) < window {
      n := HopelessFrom(window, world, k + 1);
      SumCons(Backoff(k), RetryFrom(window, world, k + 1, Spent(k)).sleeps);
    } else {
      n := k;
      forall m: nat | m < k ensures Spent(m) < window { SpentGrows(m, k - 1); }
      SumCons(window - Spent(k - 1), []);
    }
  }

  /** A hopeless call spends exactly its window: the waits add up to it, and there is one attempt
      more than the least number of waits that use it up. */
  lemma HopelessSpendsTheWindow<R>(window: int, world: World<R>) returns (n: nat)
    requires Hopeless(world)
    ensures UsesUp(window, n)
    ensures var run := RetryFrom(window, world, 1, 0);
            && run.outcome == Unreachable && run.attempts == n + 1
            && Sum(run.sleeps) == if window > 0 then window else 0
  {
    if window > 0 {
      n := HopelessFrom(window, world, 1);
    } else {
      n := 0;
      assert world.attempt(1).retryable && world.takes(1) == 0;
    }
  }

  lemma {:induction false} SpentAfterTheRamp(n: nat)
    requires n >= 6
    ensures Spent(n) == (63 + 60 * (n - 6)) * SECOND
  {
    if n == 6 {
      assert Pow2(0) == 1 && Pow2(1) == 2 && Pow2(2) == 4;
      assert Pow2(3) == 8 && Pow2(4) == 16 && Pow2(5) == 32;
      assert Spent(1) == SECOND && Spent(2) == 3 * SECOND && Spent(3) == 7 * SECOND;
      assert Spent(4) == 15 * SECOND && Spent(5) == 31 * SECOND;
    } else {
      SpentAfterTheRamp(n - 1);
      Pow2IsLarge(n - 1);
    }
  }

  /** From 63 seconds on: seven attempts, and one more for every started minute beyond. */
  lemma AttemptsOfAHopelessCall<R>(window: int, world: World<R>)
    requires Hopeless(world) && window >= 63 * SECOND
    ensures RetryFrom(window, world, 1, 0).attempts ==
            7 + (window - 63 * SECOND + MAX_BACKOFF - 1) / MAX_BACKOFF
  {
    var n := HopelessSpendsTheWindow(window, world);
    SpentAfterTheRamp(6);
    if n < 6 {
      SpentGrows(n, 5);
      SpentOneMore(6);
      BackoffIsPositive(6);
    }
    assert n >= 6;
    SpentAfterTheRamp(n);
    if n > 6 {
      SpentAfterTheRamp(n - 1);
      assert Spent(n - 1) < window;
    }
    CeilingOf(window - 63 * SECOND, n - 6);
  }

  lemma CeilingOf(x: int, m: nat)
    requires x >= 0 && m * MAX_BACKOFF >= x && (m == 0 || (m - 1) * MAX_BACKOFF < x)
    ensures (x + MAX_BACKOFF - 1) / MAX_BACKOFF == m
  {
  }

  // --- which commands may retry at all

  // readOnlyCommand
  predicate ReadOnly(name: string) {
    name == "ping" || name == "coroutine" || name == "server-status" || "query " <= name
  }

  // callWith: a command that is not read-only gets a copy of the policy with a zero window.
  method CallWith<R>(name: string, window: int, world: World<R>) returns (run: Run<R>)
    ensures run == RetryFrom(if ReadOnly(name) then window else 0, world, 1, 0)
  {
    var policyWindow := window;
    if !ReadOnly(name) { policyWindow := 0; }
    run := RunWithRetry(policyWindow, world);
  }

  // The commands whose calls may be repeated: the queries and three more.
  ghost predicate MayRetry(name: string) {
    name in {"ping", "coroutine", "server-status"} || (|name| >= 6 && name[..6] == "query ")
  }

  /** A call is attempted more than once exactly when the command may be repeated, the first attempt
      failed retryably, and that failure came before the window was over. A mutation is therefore
      attempted exactly once, whatever the policy, the server and the clock. */
  lemma RetriedExactlyWhen<R>(name: string, window: int, world: World<R>)
    ensures ReadOnly(name) <==> MayRetry(name)
    ensures RetryFrom(if ReadOnly(name) then window else 0, world, 1, 0).attempts >= 1
    ensures RetryFrom(if ReadOnly(name) then window else 0, world, 1, 0).attempts > 1 <==>
            MayRetry(name) && world.attempt(1).Failed? && world.attempt(1).retryable && world.takes(1) < window
  {
    var given := if ReadOnly(name) then window else 0;
    var delay := NextDelay(given, 1, world.takes(1));
    if world.attempt(1).Failed? && world.attempt(1).retryable && delay.Some? {
      BackoffIsPositive(1);
      OutcomeIsTheLastAttempt(given, world, 2, world.takes(1) + delay.value + world.oversleeps(1));
    }
  }
}
