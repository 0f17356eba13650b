/**
 * The two limit algorithms. Each evaluation is a pure calculation over the
 * limit, the stored state of its key and the request, yielding the limit's
 * result and the state write (`apply`) to run if the whole decision commits.
 */
module Limiters {
  import opened Wrappers
  import opened Errors
  import opened Models
  import opened Keys
  import Dict

  /** A deferred state write: `bucketStates.set` or `windowStates.set`. */
  datatype Commit =
    | PutBucket(key: StateKey, bucket: BucketState)
    | PutWindow(key: StateKey, window: WindowCounterState)

  /** `LimitEvaluation`: the result, and the write to run on commit (`null` when none). */
  datatype LimitEvaluation = LimitEvaluation(result: LimitResult, apply: Option<Commit>)

  function MinReal(a: real, b: real): real { if a <= b then a else b }
  function MaxReal(a: real, b: real): real { if a >= b then a else b }
  function MaxInt(a: int, b: int): int { if a >= b then a else b }

  /** `Math.ceil`. */
  function Ceil(x: real): (r: int)
    ensures x <= r as real < x + 1.0
  {
    -((-x).Floor)
  }

  /** `Math.floor(a / b)` for a non-zero divisor of either sign. */
  function FloorDiv(a: int, b: int): (q: int)
    requires b != 0
    ensures b > 0 ==> q * b <= a < q * b + b
    ensures b < 0 ==> q * b >= a > q * b + b
  {
    if b > 0 then a / b else (-a) / (-b)
  }

  // ---------------------------------------------------------------------
  // Token bucket

  /** The stored state, or for a key never written a full-or-initial bucket refilled now. */
  function BaseBucket(limit: Limit, existing: Option<BucketState>, nowMs: int): BucketState
    requires limit.TokenBucket?
  {
    match existing
    case Some(state) => state
    case None =>
      var initialTokens := limit.initialTokens.GetOr(limit.capacity);
      BucketState(initialTokens, nowMs, nowMs)
  }

  /** The refill time `max(now, last_refill_at_ms)`: a clock that went back refills nothing. */
  function RefillTime(base: BucketState, nowMs: int): int {
    MaxInt(nowMs, base.lastRefillAtMs)
  }

  /** The tokens after refilling at `refill_tokens_per_sec` since the last refill, capped at capacity. */
  function Refilled(limit: Limit, base: BucketState, nowMs: int): real
    requires limit.TokenBucket?
  {
    var elapsedSeconds := (RefillTime(base, nowMs) - base.lastRefillAtMs) as real / 1000.0;
    MinReal(limit.capacity, base.tokens + elapsedSeconds * limit.refillTokensPerSec)
  }

  /** The wait until a denied cost is refilled. A zero rate gives an infinite wait, reported as none. */
  function BucketRetryAfter(limit: Limit, refilled: real, cost: real): Option<int>
    requires limit.TokenBucket?
  {
    if limit.refillTokensPerSec == 0.0 then None
    else Some(MaxInt(0, Ceil((cost - refilled) / limit.refillTokensPerSec * 1000.0)))
  }

  /** `evaluateTokenBucket`. */
  function EvaluateTokenBucket(limit: Limit, key: StateKey, existing: Option<BucketState>,
                               cost: real, nowMs: int, dryRun: bool): Result<LimitEvaluation, EngineError>
    requires limit.TokenBucket?
  {
    if limit.maxCost.Some? && cost > limit.maxCost.value then
      Failure(ValidationError("cost exceeds max_cost for TOKEN_BUCKET"))
    else
      var base := BaseBucket(limit, existing, nowMs);
      var effectiveNowMs := RefillTime(base, nowMs);
      var refilled := Refilled(limit, base, nowMs);
      var allowed := refilled >= cost;
      var nextTokens := if allowed then refilled - cost else refilled;
      var safeTokens := MaxReal(0.0, MinReal(limit.capacity, nextTokens));
      var retryAfterMs := if allowed then None else BucketRetryAfter(limit, refilled, cost);
      var apply := if allowed && !dryRun
        then Some(PutBucket(key, BucketState(safeTokens, effectiveNowMs, effectiveNowMs)))
        else None;
      Success(LimitEvaluation(LimitResult(TokenBucketKind, allowed, Some(safeTokens), retryAfterMs, None), apply))
  }

  /** `max_cost` is checked first: it alone decides the error, whatever the key's state. */
  lemma MaxCostCheckedFirst(limit: Limit, key: StateKey, existing: Option<BucketState>,
                            cost: real, nowMs: int, dryRun: bool)
    requires limit.TokenBucket?
    ensures EvaluateTokenBucket(limit, key, existing, cost, nowMs, dryRun).Failure? <==>
      limit.maxCost.Some? && cost > limit.maxCost.value
    ensures EvaluateTokenBucket(limit, key, existing, cost, nowMs, dryRun).Failure? ==>
      EvaluateTokenBucket(limit, key, existing, cost, nowMs, dryRun) ==
      EvaluateTokenBucket(limit, key, None, cost, nowMs, dryRun)
  {
  }

  /**
   * Refilled tokens never exceed capacity; reported and stored tokens lie in
   * [0, capacity]; a commit refills at `max(now, last_refill)`, so it never
   * moves the refill time back.
   */
  lemma TokenBucketBounds(limit: Limit, key: StateKey, existing: Option<BucketState>,
                          cost: real, nowMs: int, dryRun: bool)
    requires limit.TokenBucket? && limit.capacity >= 0.0
    requires EvaluateTokenBucket(limit, key, existing, cost, nowMs, dryRun).Success?
    ensures var base := BaseBucket(limit, existing, nowMs);
      var e := EvaluateTokenBucket(limit, key, existing, cost, nowMs, dryRun).value;
      && Refilled(limit, base, nowMs) <= limit.capacity
      && e.result.remaining.Some? && 0.0 <= e.result.remaining.value <= limit.capacity
      && (e.apply.Some? ==>
            && e.apply.value.PutBucket? && e.apply.value.key == key
            && 0.0 <= e.apply.value.bucket.tokens <= limit.capacity
            && e.apply.value.bucket.tokens == e.result.remaining.value
            && e.apply.value.bucket.lastRefillAtMs >= base.lastRefillAtMs
            && e.apply.value.bucket.lastRefillAtMs >= nowMs)
  {
  }

  /**
   * A request is allowed exactly when the refilled tokens cover its cost; a
   * write is produced exactly when it is allowed and not a dry run; a deny
   * carries a retry wait and no reset time, and reports the refilled tokens
   * as remaining; an allow reports the tokens left after paying the cost.
   */
  lemma TokenBucketDecision(limit: Limit, key: StateKey, existing: Option<BucketState>,
                            cost: real, nowMs: int, dryRun: bool)
    requires limit.TokenBucket? && limit.capacity >= 0.0 && limit.refillTokensPerSec > 0.0 && cost > 0.0
    requires EvaluateTokenBucket(limit, key, existing, cost, nowMs, dryRun).Success?
    ensures var refilled := Refilled(limit, BaseBucket(limit, existing, nowMs), nowMs);
      var e := EvaluateTokenBucket(limit, key, existing, cost, nowMs, dryRun).value;
      && e.result.kind == TokenBucketKind
      && (e.result.allowed <==> refilled >= cost)
      && (e.apply.Some? <==> e.result.allowed && !dryRun)
      && e.result.resetAt.None?
      && (e.result.allowed ==> e.result.retryAfterMs.None? && e.result.remaining == Some(MaxReal(0.0, refilled - cost)))
      && (!e.result.allowed ==> e.result.retryAfterMs.Some? && e.result.retryAfterMs.value >= 1
                                && e.result.remaining == Some(MaxReal(0.0, refilled)))
  {
    var refilled := Refilled(limit, BaseBucket(limit, existing, nowMs), nowMs);
    var e := EvaluateTokenBucket(limit, key, existing, cost, nowMs, dryRun).value;
    if !e.result.allowed {
      var x := (cost - refilled) / limit.refillTokensPerSec * 1000.0;
      assert (cost - refilled) / limit.refillTokensPerSec > 0.0;
      assert x > 0.0;
    }
  }

  /** A key never written starts with `initial_tokens` (capacity by default), last refilled now. */
  lemma FreshBucket(limit: Limit, nowMs: int)
    requires limit.TokenBucket?
    ensures BaseBucket(limit, None, nowMs) == BucketState(limit.initialTokens.GetOr(limit.capacity), nowMs, nowMs)
    ensures Refilled(limit, BaseBucket(limit, None, nowMs), nowMs) ==
      MinReal(limit.capacity, limit.initialTokens.GetOr(limit.capacity))
  {
  }

  /** A clock at or before the last refill refills nothing. */
  lemma BackwardsClockRefillsNothing(limit: Limit, state: BucketState, nowMs: int)
    requires limit.TokenBucket?
    requires nowMs <= state.lastRefillAtMs
    ensures RefillTime(state, nowMs) == state.lastRefillAtMs
    ensures Refilled(limit, state, nowMs) == MinReal(limit.capacity, state.tokens)
  {
  }

  /** Refilling is monotone in the clock. */
  lemma RefillMonotone(limit: Limit, state: BucketState, t1: int, t2: int)
    requires limit.TokenBucket? && limit.refillTokensPerSec >= 0.0
    requires t1 <= t2
    ensures Refilled(limit, state, t1) <= Refilled(limit, state, t2)
  {
    var e1 := (RefillTime(state, t1) - state.lastRefillAtMs) as real / 1000.0;
    var e2 := (RefillTime(state, t2) - state.lastRefillAtMs) as real / 1000.0;
    assert e1 <= e2;
    assert e1 * limit.refillTokensPerSec <= e2 * limit.refillTokensPerSec;
  }

  /** Refilling at a positive rate for at least the missing tokens' time covers a cost within capacity. */
  lemma LongRefillSuffices(tokens: real, capacity: real, rate: real, elapsed: real, later: real, cost: real)
    requires rate > 0.0 && cost <= capacity
    requires MinReal(capacity, tokens + elapsed * rate) < cost
    requires later >= elapsed + (cost - MinReal(capacity, tokens + elapsed * rate)) / rate
    ensures MinReal(capacity, tokens + later * rate) >= cost
  {
    var reached := tokens + elapsed * rate;
    assert MinReal(capacity, reached) == reached;
    var q := (cost - reached) / rate;
    assert q * rate == cost - reached;
    assert later >= elapsed + q;
    assert later * rate >= (elapsed + q) * rate;
    assert (elapsed + q) * rate == elapsed * rate + q * rate;
    assert tokens + later * rate >= cost;
  }

  /** Refilling for less than the missing tokens' time leaves the cost uncovered. */
  lemma ShortRefillFallsShort(tokens: real, capacity: real, rate: real, elapsed: real, later: real, cost: real)
    requires rate > 0.0
    requires MinReal(capacity, tokens + elapsed * rate) < cost
    requires later < elapsed + (cost - MinReal(capacity, tokens + elapsed * rate)) / rate
    ensures MinReal(capacity, tokens + later * rate) < cost
  {
    if tokens + elapsed * rate <= capacity {
      var q := (cost - (tokens + elapsed * rate)) / rate;
      assert q * rate == cost - (tokens + elapsed * rate);
      assert later * rate < (elapsed + q) * rate;
    }
  }

  /** A clock at least the retry wait past the refill time has refilled for at least `wait` seconds more. */
  lemma LongWaitElapsed(last: int, nowMs: int, laterMs: int, retry: int, wait: real)
    requires retry == MaxInt(0, Ceil(wait * 1000.0))
    requires laterMs >= MaxInt(nowMs, last) + retry
    ensures (MaxInt(laterMs, last) - last) as real / 1000.0 >= (MaxInt(nowMs, last) - last) as real / 1000.0 + wait
  {
    assert retry as real >= wait * 1000.0;
  }

  /** A clock short of the retry wait past the refill time has refilled for less than `wait` seconds more. */
  lemma ShortWaitElapsed(last: int, nowMs: int, laterMs: int, retry: int, wait: real)
    requires wait > 0.0 && retry == MaxInt(0, Ceil(wait * 1000.0))
    requires laterMs < MaxInt(nowMs, last) + retry
    ensures (MaxInt(laterMs, last) - last) as real / 1000.0 < (MaxInt(nowMs, last) - last) as real / 1000.0 + wait
  {
    assert (retry - 1) as real < wait * 1000.0;
  }

  /** The decision and the retry wait of an evaluation that passed the `max_cost` check. */
  lemma TokenBucketOutcome(limit: Limit, key: StateKey, state: BucketState, cost: real, nowMs: int, dryRun: bool)
    requires limit.TokenBucket?
    requires EvaluateTokenBucket(limit, key, Some(state), cost, nowMs, dryRun).Success?
    ensures var e := EvaluateTokenBucket(limit, key, Some(state), cost, nowMs, dryRun).value;
      && (e.result.allowed <==> Refilled(limit, state, nowMs) >= cost)
      && (!e.result.allowed ==> e.apply.None?)
      && (!e.result.allowed ==> e.result.retryAfterMs == BucketRetryAfter(limit, Refilled(limit, state, nowMs), cost))
  {
  }

  /**
   * A deny writes nothing, so the stored state stays as it was. Waiting out
   * the reported retry, measured from the refill time, then allows the same
   * cost, provided it fits the capacity.
   */
  lemma RetryAfterSuffices(limit: Limit, key: StateKey, state: BucketState,
                           cost: real, nowMs: int, dryRun: bool, laterMs: int)
    requires limit.TokenBucket? && limit.refillTokensPerSec > 0.0 && cost <= limit.capacity
    requires var r := EvaluateTokenBucket(limit, key, Some(state), cost, nowMs, dryRun);
      r.Success? && !r.value.result.allowed
    requires laterMs >= RefillTime(state, nowMs) + EvaluateTokenBucket(limit, key, Some(state), cost, nowMs, dryRun).value.result.retryAfterMs.GetOr(0)
    ensures EvaluateTokenBucket(limit, key, Some(state), cost, nowMs, dryRun).value.apply.None?
    ensures var r := EvaluateTokenBucket(limit, key, Some(state), cost, laterMs, dryRun);
      r.Success? && r.value.result.allowed
  {
    var rate := limit.refillTokensPerSec;
    var refilled := Refilled(limit, state, nowMs);
    TokenBucketOutcome(limit, key, state, cost, nowMs, dryRun);
    var retry := BucketRetryAfter(limit, refilled, cost).value;
    var e := (RefillTime(state, nowMs) - state.lastRefillAtMs) as real / 1000.0;
    var e' := (RefillTime(state, laterMs) - state.lastRefillAtMs) as real / 1000.0;
    LongWaitElapsed(state.lastRefillAtMs, nowMs, laterMs, retry, (cost - refilled) / rate);
    LongRefillSuffices(state.tokens, limit.capacity, rate, e, e', cost);
  }

  /** Any earlier clock is still denied: the reported retry is the shortest wait that works. */
  lemma RetryAfterIsShortest(limit: Limit, key: StateKey, state: BucketState,
                             cost: real, nowMs: int, dryRun: bool, laterMs: int)
    requires limit.TokenBucket? && limit.refillTokensPerSec > 0.0
    requires var r := EvaluateTokenBucket(limit, key, Some(state), cost, nowMs, dryRun);
      r.Success? && !r.value.result.allowed
    requires laterMs < RefillTime(state, nowMs) + EvaluateTokenBucket(limit, key, Some(state), cost, nowMs, dryRun).value.result.retryAfterMs.GetOr(0)
    ensures var r := EvaluateTokenBucket(limit, key, Some(state), cost, laterMs, dryRun);
      r.Success? && !r.value.result.allowed
  {
    var rate := limit.refillTokensPerSec;
    var refilled := Refilled(limit, state, nowMs);
    TokenBucketOutcome(limit, key, state, cost, nowMs, dryRun);
    var retry := BucketRetryAfter(limit, refilled, cost).value;
    var e := (RefillTime(state, nowMs) - state.lastRefillAtMs) as real / 1000.0;
    var e' := (RefillTime(state, laterMs) - state.lastRefillAtMs) as real / 1000.0;
    assert (cost - refilled) / rate > 0.0;
    ShortWaitElapsed(state.lastRefillAtMs, nowMs, laterMs, retry, (cost - refilled) / rate);
    ShortRefillFallsShort(state.tokens, limit.capacity, rate, e, e', cost);
  }

  /**
   * A key whose first request is denied is not written by it, so while it
   * stays unwritten every later request starts it afresh from
   * `initial_tokens`: the same cost is denied again at any later time,
   * whatever retry wait the first deny reported.
   */
  lemma FreshDenialRepeats(limit: Limit, key: StateKey, cost: real, nowMs: int, dryRun: bool, laterMs: int)
    requires limit.TokenBucket?
    requires var r := EvaluateTokenBucket(limit, key, None, cost, nowMs, dryRun);
      r.Success? && !r.value.result.allowed
    ensures EvaluateTokenBucket(limit, key, None, cost, nowMs, dryRun).value.apply.None?
    ensures var r := EvaluateTokenBucket(limit, key, None, cost, laterMs, dryRun);
      r.Success? && !r.value.result.allowed
  {
    FreshBucket(limit, nowMs);
    FreshBucket(limit, laterMs);
    assert EvaluateTokenBucket(limit, key, None, cost, nowMs, dryRun).value.result.allowed ==
      (Refilled(limit, BaseBucket(limit, None, nowMs), nowMs) >= cost);
    assert EvaluateTokenBucket(limit, key, None, cost, laterMs, dryRun).value.result.allowed ==
      (Refilled(limit, BaseBucket(limit, None, laterMs), laterMs) >= cost);
  }

  /** The tokens a bucket's key can spend at `nowMs`: its stored (or fresh) tokens refilled to then. */
  function Available(limit: Limit, existing: Option<BucketState>, nowMs: int): real
    requires limit.TokenBucket?
  {
    Refilled(limit, BaseBucket(limit, existing, nowMs), nowMs)
  }

  /**
   * An allowed real request pays exactly its cost: the state it writes,
   * stamped at the refill time, has exactly the cost fewer tokens to spend
   * at the same instant, and the cost was within capacity.
   */
  lemma AllowedSpendsCost(limit: Limit, key: StateKey, existing: Option<BucketState>, cost: real, nowMs: int)
    requires limit.TokenBucket? && cost > 0.0
    requires var r := EvaluateTokenBucket(limit, key, existing, cost, nowMs, false);
      r.Success? && r.value.result.allowed
    ensures var e := EvaluateTokenBucket(limit, key, existing, cost, nowMs, false).value;
      && cost <= Available(limit, existing, nowMs) <= limit.capacity
      && e.apply.Some? && e.apply.value == PutBucket(key, e.apply.value.bucket)
      && e.apply.value.bucket.tokens == Available(limit, existing, nowMs) - cost
      && Available(limit, Some(e.apply.value.bucket), nowMs) == Available(limit, existing, nowMs) - cost
  {
    var base := BaseBucket(limit, existing, nowMs);
    var refilled := Refilled(limit, base, nowMs);
    var next := BucketState(refilled - cost, RefillTime(base, nowMs), RefillTime(base, nowMs));
    assert EvaluateTokenBucket(limit, key, existing, cost, nowMs, false).value.apply == Some(PutBucket(key, next));
    assert RefillTime(next, nowMs) == next.lastRefillAtMs;
    assert Refilled(limit, next, nowMs) == MinReal(limit.capacity, refilled - cost);
  }

  // ---------------------------------------------------------------------
  // Fixed window

  /** `Math.floor(now / windowMs) * windowMs`: the start of the epoch-aligned window holding `now`. */
  function WindowStart(nowMs: int, windowMs: int): int
    requires windowMs != 0
  {
    FloorDiv(nowMs, windowMs) * windowMs
  }

  /** The stored count, when it was recorded in this window; otherwise nothing has been used. */
  function BaseUsed(existing: Option<WindowCounterState>, windowStartMs: int): real {
    if existing.Some? && existing.value.windowStartMs == windowStartMs then existing.value.used else 0.0
  }

  /**
   * `evaluateFixedWindow`. A zero-length window makes the reset time an
   * invalid date, whose conversion to text raises a `RangeError`.
   */
  function EvaluateFixedWindow(limit: Limit, key: StateKey, existing: Option<WindowCounterState>,
                               cost: real, nowMs: int, dryRun: bool): Result<LimitEvaluation, EngineError>
    requires limit.FixedWindow?
  {
    var windowMs := limit.windowSeconds * 1000;
    if windowMs == 0 then Failure(RangeError("Invalid time value"))
    else
      var windowStartMs := WindowStart(nowMs, windowMs);
      var baseUsed := BaseUsed(existing, windowStartMs);
      var candidateUsed := baseUsed + cost;
      var allowed := candidateUsed <= limit.limit;
      var usedAfterDecision := if allowed then candidateUsed else baseUsed;
      var resetAtMs := windowStartMs + windowMs;
      var apply := if allowed && !dryRun
        then Some(PutWindow(key, WindowCounterState(windowStartMs, usedAfterDecision, nowMs)))
        else None;
      Success(LimitEvaluation(
        LimitResult(FixedWindowKind, allowed, Some(MaxReal(0.0, limit.limit - usedAfterDecision)),
                    if allowed then None else Some(MaxInt(0, resetAtMs - nowMs)), Some(resetAtMs)),
        apply))
  }

  /** The window holding `now` starts on a multiple of its length at or before `now` and ends after it. */
  lemma WindowAlignment(nowMs: int, windowMs: int)
    requires windowMs > 0
    ensures WindowStart(nowMs, windowMs) <= nowMs < WindowStart(nowMs, windowMs) + windowMs
    ensures WindowStart(nowMs, windowMs) == FloorDiv(nowMs, windowMs) * windowMs
  {
  }

  /** Scaling by a positive length keeps whole steps apart. */
  lemma ScaledGap(a: int, b: int, w: int)
    requires w > 0
    ensures a < b ==> a * w + w <= b * w
  {
    if a < b {
      NonNegativeProduct(b - a - 1, w);
      assert b * w - a * w - w == (b - a - 1) * w;
    }
  }

  lemma {:induction false} NonNegativeProduct(x: nat, w: nat)
    ensures x * w >= 0
  {
    if x > 0 {
      NonNegativeProduct(x - 1, w);
      assert x * w == (x - 1) * w + w;
    }
  }

  /** Two clocks share a window exactly when they fall in the same aligned interval. */
  lemma SameWindow(t1: int, t2: int, windowMs: int, k: int)
    requires windowMs > 0
    requires k * windowMs <= t1 < k * windowMs + windowMs
    ensures WindowStart(t1, windowMs) == k * windowMs
    ensures WindowStart(t2, windowMs) == k * windowMs <==> k * windowMs <= t2 < k * windowMs + windowMs
  {
    var q1 := FloorDiv(t1, windowMs);
    var q2 := FloorDiv(t2, windowMs);
    ScaledGap(q1, k, windowMs);
    ScaledGap(k, q1, windowMs);
    ScaledGap(q2, k, windowMs);
    ScaledGap(k, q2, windowMs);
  }

  /**
   * The stored count counts only within its own window (a new window starts
   * from zero); a request is allowed exactly when that count plus its cost
   * stays within the limit; a write is produced exactly when it is allowed
   * and not a dry run, and records this window and the new count; the reset
   * time is the window's end, and a deny must wait until then.
   */
  lemma FixedWindowDecision(limit: Limit, key: StateKey, existing: Option<WindowCounterState>,
                            cost: real, nowMs: int, dryRun: bool)
    requires limit.FixedWindow? && limit.windowSeconds > 0
    ensures var r := EvaluateFixedWindow(limit, key, existing, cost, nowMs, dryRun);
      var windowMs := limit.windowSeconds * 1000;
      var start := WindowStart(nowMs, windowMs);
      var baseUsed := BaseUsed(existing, start);
      && r.Success?
      && r.value.result.kind == FixedWindowKind
      && (r.value.result.allowed <==> baseUsed + cost <= limit.limit)
      && r.value.result.resetAt == Some(start + windowMs)
      && r.value.result.remaining ==
           Some(MaxReal(0.0, limit.limit - (if r.value.result.allowed then baseUsed + cost else baseUsed)))
      && (r.value.apply.Some? <==> r.value.result.allowed && !dryRun)
      && (r.value.apply.Some? ==>
            r.value.apply.value == PutWindow(key, WindowCounterState(start, baseUsed + cost, nowMs)))
      && (r.value.result.allowed ==> r.value.result.retryAfterMs.None?)
      && (!r.value.result.allowed ==>
            && r.value.result.retryAfterMs == Some(start + windowMs - nowMs)
            && 1 <= start + windowMs - nowMs <= windowMs)
  {
    WindowAlignment(nowMs, limit.windowSeconds * 1000);
  }

  /**
   * With a non-negative stored count and a positive cost, the remaining
   * allowance lies in [0, limit], and a commit never lowers the count of
   * its window.
   */
  lemma FixedWindowBounds(limit: Limit, key: StateKey, existing: Option<WindowCounterState>,
                          cost: real, nowMs: int, dryRun: bool)
    requires limit.FixedWindow? && limit.windowSeconds > 0 && limit.limit >= 0.0
    requires existing.Some? ==> existing.value.used >= 0.0
    requires cost > 0.0
    ensures var r := EvaluateFixedWindow(limit, key, existing, cost, nowMs, dryRun);
      var start := WindowStart(nowMs, limit.windowSeconds * 1000);
      && r.Success?
      && r.value.result.remaining.Some?
      && 0.0 <= r.value.result.remaining.value <= limit.limit
      && (r.value.apply.Some? ==> r.value.apply.value.window.used > BaseUsed(existing, start))
  {
  }

  /** What a window's key still admits at `nowMs`: the limit less the count of the window holding `nowMs`. */
  function Allowance(limit: Limit, existing: Option<WindowCounterState>, nowMs: int): real
    requires limit.FixedWindow? && limit.windowSeconds != 0
  {
    limit.limit - BaseUsed(existing, WindowStart(nowMs, limit.windowSeconds * 1000))
  }

  /**
   * An allowed real request uses exactly its cost of the window's
   * allowance, and the count it commits never exceeds the limit.
   */
  lemma AllowedUsesCost(limit: Limit, key: StateKey, existing: Option<WindowCounterState>, cost: real, nowMs: int)
    requires limit.FixedWindow?
    requires var r := EvaluateFixedWindow(limit, key, existing, cost, nowMs, false);
      r.Success? && r.value.result.allowed
    ensures limit.windowSeconds != 0
    ensures var e := EvaluateFixedWindow(limit, key, existing, cost, nowMs, false).value;
      && cost <= Allowance(limit, existing, nowMs)
      && e.apply.Some? && e.apply.value == PutWindow(key, e.apply.value.window)
      && e.apply.value.window.used <= limit.limit
      && Allowance(limit, Some(e.apply.value.window), nowMs) == Allowance(limit, existing, nowMs) - cost
  {
  }

  /** A zero-length window fails the evaluation with a `RangeError`. */
  lemma ZeroWindowFails(limit: Limit, key: StateKey, existing: Option<WindowCounterState>,
                        cost: real, nowMs: int, dryRun: bool)
    requires limit.FixedWindow? && limit.windowSeconds == 0
    ensures EvaluateFixedWindow(limit, key, existing, cost, nowMs, dryRun) == Failure(RangeError("Invalid time value"))
  {
  }

  // ---------------------------------------------------------------------
  // One limit of a policy

  /** The `forEach` body: dispatch on the limit's kind, keyed by the policy, the request and the index. */
  function EvaluateLimit(limit: Limit, policy: Policy, request: ConsumeRequest, index: nat,
                         cost: real, nowMs: int, dryRun: bool,
                         buckets: seq<(StateKey, BucketState)>, windows: seq<(StateKey, WindowCounterState)>)
    : (r: Result<LimitEvaluation, EngineError>)
    ensures r.Success? ==> r.value.result.kind == limit.Kind()
    ensures r.Success? ==> (r.value.apply.Some? <==> r.value.result.allowed && !dryRun)
    ensures r.Success? && r.value.apply.Some? ==>
      && r.value.apply.value.key == StateKeyOf(policy, request, index, limit.Kind())
      && (r.value.apply.value.PutBucket? <==> limit.TokenBucket?)
  {
    match limit
    case TokenBucket(_, _, _, _) =>
      var key := StateKeyOf(policy, request, index, TokenBucketKind);
      EvaluateTokenBucket(limit, key, Dict.Get(buckets, key), cost, nowMs, dryRun)
    case FixedWindow(_, _) =>
      var key := StateKeyOf(policy, request, index, FixedWindowKind);
      EvaluateFixedWindow(limit, key, Dict.Get(windows, key), cost, nowMs, dryRun)
  }
}
