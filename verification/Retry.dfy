/** Backoff arithmetic in 64 bits, and the retry budget of one connection over any trace of outcomes. */
module Retry {
  import EdgePool

  // ----- backoff -----

  const TWO63: int := 0x8000_0000_0000_0000

  /** Two's-complement wrap-around of `time.Duration` arithmetic. */
  function Wrap64(x: int): (r: int)
    ensures -TWO63 <= r < TWO63
    ensures -TWO63 <= x < TWO63 ==> r == x
  {
    (x + TWO63) % (2 * TWO63) - TWO63
  }

  function Pow2(n: nat): (p: int)
    ensures p >= 1
  {
    if n == 0 then 1 else 2 * Pow2(n - 1)
  }

  function Min(a: int, b: int): int {
    if a <= b then a else b
  }

  /** The delay after `left` more doublings, each checked against the cap only after doubling. */
  function DoubleUp(delay: int, cap: int, left: nat): int
    decreases left
  {
    if left == 0 then (if cap > 0 && delay > cap then cap else delay)
    else
      var doubled := Wrap64(delay * 2);
      if cap > 0 && doubled >= cap then cap else DoubleUp(doubled, cap, left - 1)
  }

  function Backoff(base: int, cap: int, attempt: int): int {
    if base <= 0 then 0 else DoubleUp(base, cap, if attempt < 1 then 0 else attempt - 1)
  }

  /** `backoffDuration`. */
  method BackoffDuration(base: int, cap: int, attempt: int) returns (delay: int)
    requires base < TWO63 && cap < TWO63
    ensures delay == Backoff(base, cap, attempt)
  {
    var attempt := if attempt < 1 then 1 else attempt;
    if base <= 0 {
      return 0;
    }
    delay := base;
    for i := 1 to attempt
      invariant Backoff(base, cap, attempt) == DoubleUp(delay, cap, attempt - i)
    {
      delay := Wrap64(delay * 2);
      if cap > 0 && delay >= cap {
        return cap;
      }
    }
    if cap > 0 && delay > cap {
      return cap;
    }
  }

  /** The intended delay: exponential from the base, at most the cap. */
  function Intended(base: int, cap: int, attempt: int): int
    requires base > 0 && cap > 0
  {
    Min(base * Pow2(if attempt < 1 then 0 else attempt - 1), cap)
  }

  /** Some doubling of the base lands between the cap and the end of the 64-bit range. */
  ghost predicate CapReachable(base: int, cap: int) {
    exists k: nat :: k >= 1 && Lands(base, cap, k)
  }

  predicate Lands(base: int, cap: int, k: nat) {
    cap <= base * Pow2(k) < TWO63
  }

  lemma Pow2Step(base: int, k: nat)
    requires k >= 1
    ensures base * Pow2(k) == (2 * base) * Pow2(k - 1)
  {
  }

  lemma {:induction false} ReachableIsExact(delay: int, cap: int, left: nat, k: nat)
    requires delay > 0 && cap > 0 && k >= 1 && Lands(delay, cap, k)
    ensures DoubleUp(delay, cap, left) == Min(delay * Pow2(left), cap)
    decreases left
  {
    if left > 0 {
      Pow2Step(delay, k);
      Pow2Step(delay, left);
      MulAtLeast(2 * delay, Pow2(k - 1));
      MulAtLeast(2 * delay, Pow2(left - 1));
      if 2 * delay < cap {
        assert k >= 2;
        ReachableIsExact(2 * delay, cap, left - 1, k - 1);
      }
    }
  }

  lemma MulAtLeast(a: int, p: int)
    requires a >= 0 && p >= 1
    ensures a * p >= a
  {
  }

  /** The first doubling that leaves the 64-bit range. */
  lemma FirstOverflow(base: int) returns (k: nat)
    requires 0 < base < TWO63
    ensures k >= 1 && base * Pow2(k - 1) < TWO63 <= base * Pow2(k)
  {
    k := 1;
    while base * Pow2(k) < TWO63
      invariant k >= 1 && base * Pow2(k - 1) < TWO63 && base * Pow2(k - 1) >= k - 1
      decreases TWO63 - k
    {
      Pow2Step(base, k);
      assert base * Pow2(k) == 2 * (base * Pow2(k - 1));
      k := k + 1;
    }
  }

  /** If no doubling lands in range, the loop runs past every one of them and wraps to a negative delay. */
  lemma {:induction false} OverflowIsNegative(delay: int, cap: int, k: nat)
    requires delay > 0 && cap > 0 && k >= 1
    requires delay * Pow2(k - 1) < TWO63 <= delay * Pow2(k)
    requires forall j: nat :: 1 <= j < k ==> !Lands(delay, cap, j)
    ensures DoubleUp(delay, cap, k) < 0
    decreases k
  {
    Pow2Step(delay, k);
    MulAtLeast(delay, Pow2(k - 1));
    if k == 1 {
      assert Wrap64(2 * delay) == 2 * delay - 2 * TWO63;
    } else {
      Pow2Step(delay, k - 1);
      MulAtLeast(2 * delay, Pow2(k - 2));
      assert Pow2(1) == 2;
      assert !Lands(delay, cap, 1);
      forall j: nat | 1 <= j < k - 1 ensures !Lands(2 * delay, cap, j) {
        Pow2Step(delay, j + 1);
        assert !Lands(delay, cap, j + 1);
      }
      OverflowIsNegative(2 * delay, cap, k - 1);
    }
  }

  /** For every attempt the code computes the intended delay exactly when some doubling of the base reaches the cap
      without leaving 64 bits. */
  lemma BackoffExactIff(base: int, cap: int)
    requires 0 < base < TWO63 && 0 < cap < TWO63
    ensures CapReachable(base, cap)
            <==> forall attempt: int :: Backoff(base, cap, attempt) == Intended(base, cap, attempt)
  {
    if k: nat :| k >= 1 && Lands(base, cap, k) {
      forall attempt: int ensures Backoff(base, cap, attempt) == Intended(base, cap, attempt) {
        ReachableIsExact(base, cap, if attempt < 1 then 0 else attempt - 1, k);
      }
    } else {
      var k := FirstOverflow(base);
      forall j: nat | 1 <= j < k ensures !Lands(base, cap, j) {
      }
      OverflowIsNegative(base, cap, k);
      MulAtLeast(base, Pow2(k));
      assert Backoff(base, cap, k + 1) < 0 < Intended(base, cap, k + 1);
    }
  }

  /** Bases and caps up to 2^62 (the last base excluded) never overflow; the defaults are far below. */
  lemma SmallValuesReachable(base: int, cap: int)
    requires 0 < base < TWO63 / 2 && 0 < cap <= TWO63 / 2
    ensures CapReachable(base, cap)
  {
    var k := 1;
    assert Pow2(1) == 2;
    while base * Pow2(k) < cap
      invariant k >= 1 && base * Pow2(k) < TWO63 && base * Pow2(k) >= k
      decreases cap - base * Pow2(k)
    {
      Pow2Step(base, k + 1);
      assert base * Pow2(k + 1) == 2 * (base * Pow2(k));
      k := k + 1;
    }
    assert Lands(base, cap, k);
  }

  /** Just past that range the second delay is negative, which the caller treats as no wait at all. */
  lemma LargeCapOverflows()
    ensures Backoff(TWO63 / 2, TWO63 / 2 + 1, 2) < 0
  {
    assert DoubleUp(TWO63 / 2, TWO63 / 2 + 1, 1) == DoubleUp(Wrap64(TWO63), TWO63 / 2 + 1, 0);
  }

  lemma {:induction false} Pow2Monotone(a: nat, b: nat)
    requires a <= b
    ensures Pow2(a) <= Pow2(b)
    decreases b
  {
    if a < b {
      Pow2Monotone(a, b - 1);
    }
  }

  /** The first delay is the base, each further one doubles it, all of them at most the cap. */
  lemma BackoffDoubles(base: int, cap: int, attempt: int)
    requires 0 < base < TWO63 && 0 < cap < TWO63 && CapReachable(base, cap)
    ensures Backoff(base, cap, attempt) <= cap
    ensures attempt <= 1 ==> Backoff(base, cap, attempt) == if base < cap then base else cap
    ensures attempt >= 1 ==>
              Backoff(base, cap, attempt + 1)
              == if 2 * Backoff(base, cap, attempt) < cap then 2 * Backoff(base, cap, attempt) else cap
  {
    hide Backoff;
    BackoffExactIff(base, cap);
    assert Backoff(base, cap, attempt) == Intended(base, cap, attempt);
    assert Backoff(base, cap, attempt + 1) == Intended(base, cap, attempt + 1);
    if attempt >= 1 {
      var p := Pow2(attempt - 1);
      assert Pow2(attempt) == 2 * p;
      assert base * (2 * p) == 2 * (base * p);
    }
  }

  /** Without a base there is no delay, and without a cap nothing stops the doubling but the 64 bits. */
  lemma BackoffUnset(base: int, cap: int, attempt: int)
    requires base < TWO63 && cap <= 0
    ensures base <= 0 ==> Backoff(base, cap, attempt) == 0
    ensures base > 0 && attempt <= 1 ==> Backoff(base, cap, attempt) == base
    ensures base > 0 && attempt >= 1 ==>
              Backoff(base, cap, attempt + 1) == Wrap64(2 * Backoff(base, cap, attempt))
  {
    hide Wrap64;
    if base > 0 && attempt >= 1 {
      UncappedStep(base, cap, attempt - 1);
    }
  }

  lemma {:induction false} UncappedStep(delay: int, cap: int, left: nat)
    requires cap <= 0
    ensures DoubleUp(delay, cap, left + 1) == Wrap64(2 * DoubleUp(delay, cap, left))
    decreases left
  {
    hide Wrap64;
    if left > 0 {
      UncappedStep(Wrap64(delay * 2), cap, left - 1);
    }
  }

  /** Delays never shrink from one attempt to a later one. */
  lemma BackoffMonotone(base: int, cap: int, a: int, b: int)
    requires 0 < base < TWO63 && 0 < cap < TWO63 && CapReachable(base, cap) && a <= b
    ensures 0 < Backoff(base, cap, a) <= Backoff(base, cap, b) <= cap
  {
    BackoffExactIff(base, cap);
    var p, q := Pow2(if a < 1 then 0 else a - 1), Pow2(if b < 1 then 0 else b - 1);
    Pow2Monotone(if a < 1 then 0 else a - 1, if b < 1 then 0 else b - 1);
    MulAtLeast(base, p);
    MulMonotone(base, p, q);
  }

  lemma MulMonotone(a: int, p: int, q: int)
    requires a > 0 && p <= q
    ensures a * p <= a * q
  {
  }

  // ----- the retry loop -----

  datatype RunResult = Finished | NonRetryable(err: string) | Retryable(err: string)

  /** One pass of the loop as the environment decides it: how the run ended, whether it had connected, and whether the
      context was cancelled by then or during the backoff that may follow. */
  datatype Attempt = Attempt(result: RunResult, connected: bool, cancelledInRun: bool, cancelledInWait: bool)

  datatype Outcome = Cancelled | Clean | Fatal(err: string) | Exhausted(err: string) | StillRetrying

  /** Failures among the first `n` runs since the last one that connected, that run included. */
  function FailuresSince(trace: seq<Attempt>, n: nat): nat
    requires n <= |trace|
  {
    if n == 0 then 0
    else if trace[n - 1].connected then 1
    else FailuresSince(trace, n - 1) + 1
  }

  /** Run `m` fails in a way the loop survives. */
  predicate Survives(trace: seq<Attempt>, m: nat, maxRetries: int)
    requires m < |trace|
  {
    && trace[m].result.Retryable? && !trace[m].cancelledInRun && !trace[m].cancelledInWait
    && FailuresSince(trace, m + 1) <= maxRetries
  }

  /** How the loop ends at a run it does not survive. */
  function EndsAs(trace: seq<Attempt>, m: nat, maxRetries: int): Outcome
    requires m < |trace| && !Survives(trace, m, maxRetries)
  {
    var a := trace[m];
    if a.cancelledInRun then Cancelled
    else
      match a.result
      case Finished => Clean
      case NonRetryable(err) => Fatal(err)
      case Retryable(err) => if FailuresSince(trace, m + 1) > maxRetries then Exhausted(err) else Cancelled
  }

  /** At run m the failures are counted from run k: the last one that connected, run m included, or the first of all. */
  predicate CountsFrom(trace: seq<Attempt>, m: nat, k: nat)
    requires m < |trace|
  {
    k <= m && (k == 0 || trace[k].connected) && forall j :: k < j <= m ==> !trace[j].connected
  }

  /** The budget in closed form: the run counted from and every later one. */
  lemma {:induction false} FailuresAre(trace: seq<Attempt>, m: nat, k: nat)
    requires m < |trace| && CountsFrom(trace, m, k)
    ensures FailuresSince(trace, m + 1) == m + 1 - k
    decreases m
  {
    if m > 0 && !trace[m].connected {
      FailuresAre(trace, m - 1, k);
    }
  }

  /** The loop goes on after this run: it failed in a way that may be retried, and nothing was cancelled. */
  predicate GoesOn(a: Attempt) {
    a.result.Retryable? && !a.cancelledInRun && !a.cancelledInWait
  }

  /** How a run that counts as failure number `count` ends the loop, if it does: the context's end comes first,
      then what the run returned, then the budget, then the context's end during the backoff. */
  predicate EndsLoop(a: Attempt, count: int, maxRetries: int, outcome: Outcome) {
    if a.cancelledInRun then outcome == Cancelled
    else if a.result.Finished? then outcome == Clean
    else if a.result.NonRetryable? then outcome == Fatal(a.result.err)
    else if count > maxRetries then outcome == Exhausted(a.result.err)
    else a.cancelledInWait && outcome == Cancelled
  }

  /** What one connection asks of the edge pool, alternately: an address for a run, and a rotation after it failed. */
  function PoolOps(i: EdgePool.ConnIndex, n: nat): (ops: seq<EdgePool.Op>)
    ensures |ops| == n
  {
    seq(n, k => if k % 2 == 0 then EdgePool.AddrFor(i) else EdgePool.Rotate(i))
  }

  /** `runConnectionWithRetry`. It stops at the first run it does not survive; before each further run it rotates
      once and waits the backoff of the failures counted since the last run that connected. */
  method RunConnectionWithRetry(connIndex: EdgePool.ConnIndex, trace: seq<Attempt>, maxRetries: int, base: int,
                                cap: int)
    returns (outcome: Outcome, runs: nat, rotations: nat, waits: seq<int>, ops: seq<EdgePool.Op>)
    requires base < TWO63 && cap < TWO63
    ensures runs <= |trace|
    ensures outcome.StillRetrying? ==> runs == |trace| && forall m: nat :: m < runs ==> Survives(trace, m, maxRetries)
    ensures !outcome.StillRetrying? ==>
              && runs > 0 && (forall m: nat :: m < runs - 1 ==> Survives(trace, m, maxRetries))
              && !Survives(trace, runs - 1, maxRetries) && outcome == EndsAs(trace, runs - 1, maxRetries)
    ensures |waits| == rotations && runs - 1 <= rotations <= runs && ops == PoolOps(connIndex, runs + rotations)
    ensures forall m: nat :: m < rotations ==> waits[m] == Backoff(base, cap, FailuresSince(trace, m + 1))
    ensures forall m: nat, k: nat :: m < rotations && CountsFrom(trace, m, k) ==>
                waits[m] == Backoff(base, cap, m + 1 - k)
    ensures forall m: nat, k: nat :: m < runs && CountsFrom(trace, m, k) ==>
              if outcome.StillRetrying? || m < runs - 1 then GoesOn(trace[m]) && m + 1 - k <= maxRetries
              else EndsLoop(trace[m], m + 1 - k, maxRetries, outcome)
  {
    forall m: nat, k: nat | m < |trace| && CountsFrom(trace, m, k)
      ensures FailuresSince(trace, m + 1) == m + 1 - k
    {
      FailuresAre(trace, m, k);
    }
    hide CountsFrom;
    var attempts := 0;
    runs, rotations, waits, ops := 0, 0, [], [];
    while runs < |trace|
      invariant runs <= |trace| && attempts == FailuresSince(trace, runs)
      invariant forall m: nat :: m < runs ==> Survives(trace, m, maxRetries)
      invariant forall m: nat, k: nat :: m < runs && CountsFrom(trace, m, k) ==>
                  GoesOn(trace[m]) && m + 1 - k <= maxRetries
      invariant |waits| == rotations == runs && ops == PoolOps(connIndex, 2 * runs)
      invariant forall m: nat :: m < rotations ==> waits[m] == Backoff(base, cap, FailuresSince(trace, m + 1))
    {
      var run := trace[runs];
      runs := runs + 1;
      ops := ops + [EdgePool.AddrFor(connIndex)];
      if run.cancelledInRun {
        return Cancelled, runs, rotations, waits, ops;
      }
      match run.result {
        case Finished => return Clean, runs, rotations, waits, ops;
        case NonRetryable(err) => return Fatal(err), runs, rotations, waits, ops;
        case Retryable(err) =>
          if run.connected {
            attempts := 0;
          }
          attempts := attempts + 1;
          if attempts > maxRetries {
            return Exhausted(err), runs, rotations, waits, ops;
          }
          rotations := rotations + 1;
          ops := ops + [EdgePool.Rotate(connIndex)];
          var delay := BackoffDuration(base, cap, attempts);
          waits := waits + [delay];
          if run.cancelledInWait {
            return Cancelled, runs, rotations, waits, ops;
          }
      }
    }
    return StillRetrying, runs, rotations, waits, ops;
  }

  /** Runs among the first `n` that connected and then dropped. */
  function Reconnects(trace: seq<Attempt>, n: nat): nat
    requires n <= |trace|
  {
    if n == 0 then 0
    else Reconnects(trace, n - 1) + (if trace[n - 1].connected && trace[n - 1].result.Retryable? then 1 else 0)
  }

  lemma {:induction false} SurvivedBound(trace: seq<Attempt>, n: nat, maxRetries: nat)
    requires n <= |trace| && forall m: nat :: m < n ==> Survives(trace, m, maxRetries)
    ensures n <= maxRetries * Reconnects(trace, n) + FailuresSince(trace, n)
    ensures n > 0 ==> FailuresSince(trace, n) <= maxRetries
  {
    if n > 0 {
      SurvivedBound(trace, n - 1, maxRetries);
      assert Survives(trace, n - 1, maxRetries);
      var c := Reconnects(trace, n - 1);
      assert maxRetries * (c + 1) == maxRetries * c + maxRetries;
    }
  }

  /** Over every trace: if the loop survives its first `runs - 1` runs, then runs <= maxRetries * (c + 1) + 1, where c
      counts the runs that connected and then dropped. */
  lemma RunBound(trace: seq<Attempt>, runs: nat, maxRetries: nat)
    requires 0 < runs <= |trace| && forall m: nat :: m < runs - 1 ==> Survives(trace, m, maxRetries)
    ensures runs <= maxRetries * (Reconnects(trace, runs) + 1) + 1
  {
    SurvivedBound(trace, runs - 1, maxRetries);
    var c, d := Reconnects(trace, runs - 1), Reconnects(trace, runs);
    assert maxRetries * (c + 1) == maxRetries * c + maxRetries;
    assert maxRetries * (c + 1) <= maxRetries * (d + 1);
  }

  /** The bound is met: a peer that never connects is tried exactly maxRetries + 1 times, then reported exhausted. */
  lemma NeverConnecting(trace: seq<Attempt>, maxRetries: nat)
    requires |trace| == maxRetries + 1
    requires forall m :: 0 <= m < |trace| ==>
               trace[m].result.Retryable? && !trace[m].connected
               && !trace[m].cancelledInRun && !trace[m].cancelledInWait
    ensures forall m: nat :: m < maxRetries ==> Survives(trace, m, maxRetries)
    ensures !Survives(trace, maxRetries, maxRetries)
    ensures EndsAs(trace, maxRetries, maxRetries) == Exhausted(trace[maxRetries].result.err)
    ensures forall m: nat :: m <= maxRetries + 1 ==> FailuresSince(trace, m) == m
  {
    forall m: nat | m <= maxRetries + 1 ensures FailuresSince(trace, m) == m {
      UnconnectedCount(trace, m);
    }
  }

  lemma {:induction false} UnconnectedCount(trace: seq<Attempt>, m: nat)
    requires m <= |trace| && forall i :: 0 <= i < m ==> !trace[i].connected
    ensures FailuresSince(trace, m) == m
  {
    if m > 0 {
      UnconnectedCount(trace, m - 1);
    }
  }

  function TotalWait(base: int, cap: int, n: nat): int {
    if n == 0 then 0 else TotalWait(base, cap, n - 1) + Backoff(base, cap, n)
  }

  function Sum(xs: seq<int>): int {
    if xs == [] then 0 else Sum(xs[..|xs| - 1]) + xs[|xs| - 1]
  }

  /** What such a peer costs in waiting before exhaustion: the backoffs of attempts 1..maxRetries, at most
      maxRetries caps. */
  lemma {:induction false} WaitBeforeExhaustion(trace: seq<Attempt>, waits: seq<int>, base: int, cap: int)
    requires 0 < base < TWO63 && 0 < cap < TWO63 && CapReachable(base, cap)
    requires |waits| <= |trace| && forall i :: 0 <= i < |trace| ==> !trace[i].connected
    requires forall m: nat :: m < |waits| ==> waits[m] == Backoff(base, cap, FailuresSince(trace, m + 1))
    ensures Sum(waits) == TotalWait(base, cap, |waits|) <= |waits| * cap
    decreases |waits|
  {
    hide Backoff, CapReachable;
    if waits != [] {
      var n := |waits| - 1;
      var shorter := waits[..n];
      assert |waits| * cap == n * cap + cap;
      WaitBeforeExhaustion(trace, shorter, base, cap);
      UnconnectedCount(trace, n + 1);
      assert waits[n] == Backoff(base, cap, n + 1);
      BackoffMonotone(base, cap, n + 1, n + 1);
    }
  }
}
