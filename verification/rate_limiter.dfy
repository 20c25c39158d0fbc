/** `createRateLimiter` (src/utils/rateLimiter.ts): spacing mode, token-bucket
    mode or no limiting, as pure step functions of the limiter state and the
    clock. The concurrency cap (`pLimit`) and the timers are left to the
    caller: a step returns how long the task must wait before it runs. */
module RateLimiter {

  /** Milliseconds per minute: the refill rate is `rpm` tokens per minute. */
  const MsPerMinute: real := 60000.0

  datatype Mode = Spacing(minWait: int) | TokenBucket(rpm: int) | Unlimited

  /** Lines 4, 24 and 59: a positive minimum wait selects spacing mode even
      when a rate is also given. */
  function SelectMode(requestsPerMinute: int, minWaitBetweenBatches: int): (r: Mode)
    ensures r.Spacing? <==> minWaitBetweenBatches > 0
    ensures r.TokenBucket? <==> minWaitBetweenBatches <= 0 && requestsPerMinute > 0
    ensures r.Spacing? ==> r.minWait == minWaitBetweenBatches
    ensures r.TokenBucket? ==> r.rpm == requestsPerMinute
  {
    if minWaitBetweenBatches > 0 then Spacing(minWaitBetweenBatches)
    else if requestsPerMinute > 0 then TokenBucket(requestsPerMinute)
    else Unlimited
  }

  // ---------------------------------------------------------------- spacing

  /** Lines 11-17: the wait before a task, measured from the completion of
      the previous one. */
  function SpacingWait(lastCompletion: int, now: int, minWait: int): (r: int)
    ensures r >= 0
    ensures now + r >= lastCompletion + minWait
    ensures r > 0 ==> now + r == lastCompletion + minWait
  {
    var sinceLast := now - lastCompletion;
    if sinceLast < minWait then minWait - sinceLast else 0
  }

  function Sum(xs: seq<nat>): nat {
    if |xs| == 0 then 0 else xs[0] + Sum(xs[1..])
  }

  /** Completion time of tasks that a sequential caller submits one after the
      other (each as soon as the previous one has finished), the first one at
      `now`, with the given durations. */
  function SpacingFinish(lastCompletion: int, now: int, minWait: int, durations: seq<nat>): (r: int)
    ensures |durations| == 0 ==> r == now
    ensures r >= now + Sum(durations)
    decreases |durations|
  {
    if |durations| == 0 then now
    else
      var start := now + SpacingWait(lastCompletion, now, minWait);
      var done := start + durations[0];
      SpacingFinish(done, done, minWait, durations[1..])
  }

  /** In spacing mode, n tasks take at least n-1 gaps plus their own
      durations after the first one starts: with a 2000 ms gap, five
      instantaneous tasks take at least 8000 ms. */
  lemma {:induction false} SpacingRunLowerBound(lastCompletion: int, now: int, minWait: int,
                                                durations: seq<nat>)
    requires minWait > 0 && |durations| > 0
    ensures SpacingFinish(lastCompletion, now, minWait, durations)
            >= now + SpacingWait(lastCompletion, now, minWait) + (|durations| - 1) * minWait + Sum(durations)
    decreases |durations|
  {
    var start := now + SpacingWait(lastCompletion, now, minWait);
    var done := start + durations[0];
    if |durations| > 1 {
      SpacingRunLowerBound(done, done, minWait, durations[1..]);
      assert SpacingWait(done, done, minWait) == minWait;
    }
  }

  // ----------------------------------------------------------- token bucket

  /** The bucket: fractional tokens and the time of the last refill. */
  datatype Bucket = Bucket(tokens: real, lastRefill: real)

  function Capacity(rpm: nat): real {
    rpm as real
  }

  /** Tokens per millisecond (line 26). */
  function RefillRate(rpm: nat): (r: real)
    ensures r >= 0.0 && (r > 0.0 <==> rpm > 0)
  {
    rpm as real / MsPerMinute
  }

  /** Lines 25-28: the bucket starts full. */
  function InitBucket(rpm: nat, now: int): (r: Bucket)
    ensures r.tokens == Capacity(rpm) && r.lastRefill == now as real
  {
    Bucket(rpm as real, now as real)
  }

  /** Line 37: tokens after refilling for the time since the last refill,
      capped at the capacity. */
  function Refilled(b: Bucket, rpm: nat, now: int): (r: real)
    ensures r <= Capacity(rpm)
    ensures r <= b.tokens + (now as real - b.lastRefill) * RefillRate(rpm)
    ensures r == Capacity(rpm) || r == b.tokens + (now as real - b.lastRefill) * RefillRate(rpm)
    ensures b.tokens >= 0.0 && now as real >= b.lastRefill ==> r >= 0.0
  {
    var elapsed := now as real - b.lastRefill;
    var rate := RefillRate(rpm);
    ProductNonNegative(elapsed, rate);
    var t := b.tokens + elapsed * rate;
    if Capacity(rpm) < t then Capacity(rpm) else t
  }

  lemma ProductNonNegative(x: real, y: real)
    ensures x >= 0.0 && y >= 0.0 ==> x * y >= 0.0
  {
  }

  /** `acquireToken` as written (lines 32-51): returns the new bucket and the
      wait in ms. On the waiting path the refill time stays at `now`, so the
      tokens that accrue while the caller waits are credited again to the
      next caller. */
  function AcquireAsWritten(b: Bucket, rpm: nat, now: int): (r: (Bucket, real))
    requires rpm > 0
    ensures r.1 >= 0.0
    ensures r.0.lastRefill == now as real
    ensures r.1 > 0.0 <==> Refilled(b, rpm, now) < 1.0
    ensures r.1 == 0.0 ==> r.0.tokens + 1.0 == Refilled(b, rpm, now)
    ensures r.1 > 0.0 ==> r.0.tokens == 0.0 && r.1 * RefillRate(rpm) + Refilled(b, rpm, now) == 1.0
  {
    var tokens := Refilled(b, rpm, now);
    if tokens >= 1.0 then (Bucket(tokens - 1.0, now as real), 0.0)
    else
      var wait := (1.0 - tokens) / RefillRate(rpm);
      assert wait * RefillRate(rpm) == 1.0 - tokens;
      (Bucket(0.0, now as real), wait)
  }

  /** Three back-to-back acquisitions at one request a minute: the second
      waits a full minute, and the third, made the moment the second wakes,
      gets a token at once. Three tasks start within one minute although one
      token was in the bucket and one more was refilled. */
  lemma AsWrittenAdmitsTwoPerRefill()
    ensures var b0 := InitBucket(1, 0);
            var (b1, w1) := AcquireAsWritten(b0, 1, 0);
            var (b2, w2) := AcquireAsWritten(b1, 1, 0);
            var (b3, w3) := AcquireAsWritten(b2, 1, 60000);
            && w1 == 0.0 && w2 == 60000.0 && w3 == 0.0
            && 3.0 > b0.tokens + (60000.0 - b0.lastRefill) * RefillRate(1)
  {
  }

  /** The corrected `acquireToken`: a waiting caller spends the tokens that
      accrue during its wait, so the refill clock moves to its wake-up time. */
  function Acquire(b: Bucket, rpm: nat, now: int): (r: (Bucket, real))
    requires rpm > 0
    ensures r.1 >= 0.0
    ensures r.0.lastRefill == now as real + r.1
    ensures r.1 > 0.0 <==> Refilled(b, rpm, now) < 1.0
    ensures r.0.tokens >= 0.0
    ensures r.0.tokens + 1.0 <= b.tokens + (r.0.lastRefill - b.lastRefill) * RefillRate(rpm)
  {
    var tokens := Refilled(b, rpm, now);
    if tokens >= 1.0 then (Bucket(tokens - 1.0, now as real), 0.0)
    else
      var wait := (1.0 - tokens) / RefillRate(rpm);
      assert wait * RefillRate(rpm) == 1.0 - tokens;
      (Bucket(0.0, now as real + wait), wait)
  }

  /** The same three acquisitions with the corrected bucket: the third
      caller waits for a token of its own. */
  lemma CorrectedDelaysThird()
    ensures var b0 := InitBucket(1, 0);
            var (b1, w1) := Acquire(b0, 1, 0);
            var (b2, w2) := Acquire(b1, 1, 0);
            var (b3, w3) := Acquire(b2, 1, 60000);
            && w1 == 0.0 && w2 == 60000.0 && w3 == 60000.0
  {
  }

  /** The waiting path of both versions never waits longer than one refill
      interval when the bucket holds no debt and the clock has not gone
      back. */
  lemma WaitAtMostOneInterval(b: Bucket, rpm: nat, now: int)
    requires rpm > 0 && b.tokens >= 0.0 && now as real >= b.lastRefill
    ensures AcquireAsWritten(b, rpm, now).1 <= MsPerMinute / rpm as real
    ensures Acquire(b, rpm, now).1 <= MsPerMinute / rpm as real
    ensures Acquire(b, rpm, now).1 == AcquireAsWritten(b, rpm, now).1
  {
    var tokens := Refilled(b, rpm, now);
    if tokens < 1.0 {
      var rate := RefillRate(rpm);
      var wait := (1.0 - tokens) / rate;
      assert 0.0 <= tokens;
      DivideMonotone(1.0 - tokens, 1.0, rate);
      assert 1.0 / rate == MsPerMinute / rpm as real;
    }
  }

  lemma DivideMonotone(a: real, b: real, d: real)
    requires d > 0.0 && a <= b
    ensures a / d <= b / d
  {
  }

  /** The bucket never holds more than its capacity nor a negative amount,
      for the version as written, when the clock does not go back. */
  lemma AsWrittenTokensStayInRange(b: Bucket, rpm: nat, now: int)
    requires rpm > 0 && 0.0 <= b.tokens <= Capacity(rpm) && now as real >= b.lastRefill
    ensures 0.0 <= AcquireAsWritten(b, rpm, now).0.tokens <= Capacity(rpm)
  {
  }

  /** Start times of successive acquisitions requested at `times`, with the
      corrected bucket. */
  function BucketRun(b: Bucket, rpm: nat, times: seq<int>): (r: Bucket)
    requires rpm > 0
    ensures r.tokens >= 0.0 || (|times| == 0 && r == b)
    decreases |times|
  {
    if |times| == 0 then b
    else BucketRun(Acquire(b, rpm, times[0]).0, rpm, times[1..])
  }

  /** n acquisitions took the bucket from `b0` to `b1`: n plus what is left
      is at most what `b0` held plus the refill credit between the two
      refill times. */
  predicate Conserved(b0: Bucket, b1: Bucket, n: real, k: real) {
    n + b1.tokens <= b0.tokens + (b1.lastRefill - b0.lastRefill) * k
  }

  /** Token-bucket conformance of the corrected limiter: however the n
      acquisitions are timed, n plus the tokens left never exceeds the tokens
      the bucket started with plus those refilled up to the last start. */
  lemma {:induction false} BucketConformance(b: Bucket, rpm: nat, times: seq<int>)
    requires rpm > 0
    ensures Conserved(b, BucketRun(b, rpm, times), |times| as real, RefillRate(rpm))
    decreases |times|
  {
    if |times| > 0 {
      var b1 := Acquire(b, rpm, times[0]).0;
      BucketConformance(b1, rpm, times[1..]);
      var end := BucketRun(b1, rpm, times[1..]);
      assert end == BucketRun(b, rpm, times);
      assert Conserved(b1, end, |times[1..]| as real, RefillRate(rpm));
      AcquireConserves(b, rpm, times[0]);
      ConservedCompose(b, b1, end, 1.0, |times[1..]| as real, RefillRate(rpm));
      assert |times| as real == 1.0 + |times[1..]| as real;
    }
  }

  /** One acquisition takes one token out of what the bucket held plus the
      credit up to its new refill time. */
  lemma AcquireConserves(b: Bucket, rpm: nat, now: int)
    requires rpm > 0
    ensures Conserved(b, Acquire(b, rpm, now).0, 1.0, RefillRate(rpm))
  {
    var b1 := Acquire(b, rpm, now).0;
    var k := RefillRate(rpm);
    assert b1.tokens + 1.0 <= b.tokens + (b1.lastRefill - b.lastRefill) * k;
  }

  /** Conservation composes: the refill credits of consecutive legs add up. */
  lemma ConservedCompose(b0: Bucket, b1: Bucket, b2: Bucket, m: real, n: real, k: real)
    requires Conserved(b0, b1, m, k) && Conserved(b1, b2, n, k)
    ensures Conserved(b0, b2, m + n, k)
  {
    Telescope(b0.lastRefill, b1.lastRefill, b2.lastRefill, k);
  }

  lemma Telescope(a: real, m: real, c: real, k: real)
    ensures (c - m) * k + (m - a) * k == (c - a) * k
  {
  }

  // ---------------------------------------------------------------- limiter

  /** The state a limiter closes over (lines 7, 27-28). */
  datatype Limiter =
    | SpacingLimiter(minWait: int, lastCompletion: int)
    | BucketLimiter(rpm: nat, bucket: Bucket)
    | UnlimitedLimiter

  function CreateRateLimiter(requestsPerMinute: int, minWaitBetweenBatches: int, now: int): (r: Limiter)
    ensures r.SpacingLimiter? <==> SelectMode(requestsPerMinute, minWaitBetweenBatches).Spacing?
    ensures r.BucketLimiter? <==> SelectMode(requestsPerMinute, minWaitBetweenBatches).TokenBucket?
    ensures r.BucketLimiter? ==> r.rpm == requestsPerMinute > 0 && r.bucket == InitBucket(r.rpm, now)
    ensures r.SpacingLimiter? ==> r.minWait == minWaitBetweenBatches && r.lastCompletion == 0
  {
    match SelectMode(requestsPerMinute, minWaitBetweenBatches)
    case Spacing(w) => SpacingLimiter(w, 0)
    case TokenBucket(rpm) => BucketLimiter(rpm, InitBucket(rpm, now))
    case Unlimited => UnlimitedLimiter
  }

  /** Admission of a task at `now` by the function `createRateLimiter`
      returns: the new state and the wait before the task runs. A task is
      never refused, only delayed, and without a configured mode it is never
      delayed. Bucket mode runs `acquireToken` as written. */
  function Admit(l: Limiter, now: int): (r: (Limiter, real))
    requires l.BucketLimiter? ==> l.rpm > 0
    ensures r.1 >= 0.0
    ensures l.UnlimitedLimiter? ==> r == (l, 0.0)
    ensures l.SpacingLimiter? ==> r.0 == l && now as real + r.1 >= (l.lastCompletion + l.minWait) as real
    ensures l.SpacingLimiter? && now >= l.lastCompletion + l.minWait ==> r.1 == 0.0
    ensures l.BucketLimiter? ==>
              && r.0 == l.(bucket := AcquireAsWritten(l.bucket, l.rpm, now).0)
              && r.1 == AcquireAsWritten(l.bucket, l.rpm, now).1
  {
    match l
    case SpacingLimiter(w, last) => (l, SpacingWait(last, now, w) as real)
    case BucketLimiter(rpm, b) =>
      var acquired := AcquireAsWritten(b, rpm, now);
      (BucketLimiter(rpm, acquired.0), acquired.1)
    case UnlimitedLimiter => (l, 0.0)
  }

  /** Line 20: spacing mode records the task's completion time; the other
      modes keep no completion state. */
  function Completed(l: Limiter, doneAt: int): (r: Limiter)
    ensures l.SpacingLimiter? ==> r == l.(lastCompletion := doneAt)
    ensures !l.SpacingLimiter? ==> r == l
  {
    if l.SpacingLimiter? then l.(lastCompletion := doneAt) else l
  }

  /** The finding reaches callers: a limiter created for one request a
      minute admits acquisitions at 0, 0 and 60000 ms with waits 0, 60000
      and 0, three starts within one minute. */
  lemma WrapperAdmitsThreeInOneMinute()
    ensures var l0 := CreateRateLimiter(1, 0, 0);
            var a1 := Admit(l0, 0);
            var a2 := Admit(a1.0, 0);
            var a3 := Admit(a2.0, 60000);
            && a1.1 == 0.0 && a2.1 == 60000.0 && a3.1 == 0.0
  {
    AsWrittenAdmitsTwoPerRefill();
  }

  /** A sequential caller driving a spacing limiter through its wrapper:
      each task is admitted the moment the previous one finished (the first
      at `now`), waits, runs for its duration and is reported complete.
      Returns the time the last task finished. */
  function SpacedRun(l: Limiter, now: int, durations: seq<nat>): (r: int)
    requires l.SpacingLimiter?
    ensures |durations| == 0 ==> r == now
    ensures r >= now + Sum(durations)
    decreases |durations|
  {
    if |durations| == 0 then now
    else
      var admitted := Admit(l, now);
      var done := now + admitted.1.Floor + durations[0];
      SpacedRun(Completed(admitted.0, done), done, durations[1..])
  }

  /** The wrapper runs the spacing rule: a run through `Admit` and
      `Completed` finishes exactly when the spacing schedule does. */
  lemma {:induction false} SpacedRunIsSpacingFinish(l: Limiter, now: int, durations: seq<nat>)
    requires l.SpacingLimiter?
    ensures SpacedRun(l, now, durations) == SpacingFinish(l.lastCompletion, now, l.minWait, durations)
    decreases |durations|
  {
    if |durations| > 0 {
      var wait := SpacingWait(l.lastCompletion, now, l.minWait);
      assert Admit(l, now).1.Floor == wait;
      var done := now + wait + durations[0];
      SpacedRunIsSpacingFinish(l.(lastCompletion := done), done, durations[1..]);
    }
  }

  /** A limiter created with a positive minimum wait spaces a sequential
      caller's tasks: n tasks finish no earlier than n-1 gaps plus their
      durations after the first is admitted, whatever rate is also given. */
  lemma LimiterSpacesSequentialTasks(requestsPerMinute: int, minWait: int, created: int,
                                     now: int, durations: seq<nat>)
    requires minWait > 0 && |durations| > 0
    ensures var l := CreateRateLimiter(requestsPerMinute, minWait, created);
            SpacedRun(l, now, durations)
            >= now + (|durations| - 1) * minWait + Sum(durations)
  {
    var l := CreateRateLimiter(requestsPerMinute, minWait, created);
    SpacedRunIsSpacingFinish(l, now, durations);
    SpacingRunLowerBound(0, now, minWait, durations);
  }
}
