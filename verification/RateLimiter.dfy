/** The token bucket in front of outgoing broadcasts (internal/discovery/ratelimit.go). */
module RateLimiter {
  import opened Common

  const DEFAULT_RATE := 10
  const DEFAULT_MAX_BURST := 10

  /** Limits as the constructor leaves them. */
  datatype Limits = Limits(rate: int, maxBurst: int)

  predicate Positive(l: Limits) {
    l.rate > 0 && l.maxBurst > 0
  }

  datatype Bucket = Bucket(tokens: int, lastTime: int)

  /** `int(elapsed.Seconds())`: whole seconds, truncated toward zero. */
  function WholeSeconds(elapsed: int): int {
    if elapsed >= 0 then elapsed / SECOND else -((-elapsed) / SECOND)
  }

  function Min(a: int, b: int): int {
    if a < b then a else b
  }

  /** Tokens on hand when a call at `now` decides. */
  function Available(l: Limits, b: Bucket, now: int): int {
    Min(b.tokens + WholeSeconds(now - b.lastTime) * l.rate, l.maxBurst)
  }

  function AllowStep(l: Limits, b: Bucket, now: int): (Bucket, bool) {
    var t := Available(l, b, now);
    if t > 0 then (Bucket(t - 1, now), true) else (Bucket(t, now), false)
  }

  class Limiter {
    const limits: Limits
    var tokens: int
    var lastTime: int

    function Abs(): Bucket
      reads this
    {
      Bucket(tokens, lastTime)
    }

    constructor (rate: int, maxBurst: int, now: int)
      ensures Positive(limits)
      ensures limits.rate == if rate > 0 then rate else 10
      ensures limits.maxBurst == if maxBurst > 0 then maxBurst else 10
      ensures Abs() == Bucket(limits.maxBurst, now)
    {
      var r := if rate <= 0 then DEFAULT_RATE else rate;
      var m := if maxBurst <= 0 then DEFAULT_MAX_BURST else maxBurst;
      limits := Limits(r, m);
      tokens := m;
      lastTime := now;
    }

    method Allow(now: int) returns (ok: bool)
      modifies this
      ensures (Abs(), ok) == AllowStep(limits, old(Abs()), now)
    {
      var elapsed := now - lastTime;
      lastTime := now;
      tokens := tokens + WholeSeconds(elapsed) * limits.rate;
      if tokens > limits.maxBurst {
        tokens := limits.maxBurst;
      }
      if tokens > 0 {
        tokens := tokens - 1;
        return true;
      }
      return false;
    }
  }

  // ----- sequences of calls -----

  predicate NonDecreasing(b: Bucket, times: seq<int>) {
    && (forall i :: 0 <= i < |times| ==> b.lastTime <= times[i])
    && (forall i, j :: 0 <= i < j < |times| ==> times[i] <= times[j])
  }

  /** The bucket after the calls at `times`. */
  function After(l: Limits, b: Bucket, times: seq<int>): Bucket {
    if times == [] then b
    else AllowStep(l, After(l, b, times[..|times| - 1]), times[|times| - 1]).0
  }

  /** The answer of call `k`. */
  function Answer(l: Limits, b: Bucket, times: seq<int>, k: nat): bool
    requires k < |times|
  {
    AllowStep(l, After(l, b, times[..k]), times[k]).1
  }

  /** How many of the calls `i`, ..., `j - 1` were allowed. */
  function Allowed(l: Limits, b: Bucket, times: seq<int>, i: nat, j: nat): nat
    requires i <= j <= |times|
    decreases j
  {
    if i == j then 0
    else Allowed(l, b, times, i, j - 1) + if Answer(l, b, times, j - 1) then 1 else 0
  }

  lemma AfterSnoc(l: Limits, b: Bucket, times: seq<int>, k: nat)
    requires k < |times|
    ensures After(l, b, times[..k + 1]) == AllowStep(l, After(l, b, times[..k]), times[k]).0
  {
    assert times[..k + 1][..k] == times[..k];
  }

  /** Whole seconds of a split interval never exceed those of the whole. */
  lemma WholeSecondsSplit(x: int, y: int)
    requires x >= 0 && y >= 0
    ensures WholeSeconds(x) + WholeSeconds(y) <= WholeSeconds(x + y)
  {
  }

  /** Tokens earned in `n` whole seconds. */
  function Earned(rate: int, n: nat): int {
    if n == 0 then 0 else Earned(rate, n - 1) + rate
  }

  lemma {:induction false} EarnedIsProduct(rate: int, n: nat)
    ensures Earned(rate, n) == rate * n
  {
    if n > 0 {
      EarnedIsProduct(rate, n - 1);
    }
  }

  lemma EarnedSplit(rate: int, x: int, y: int)
    requires rate > 0 && x >= 0 && y >= 0
    ensures Earned(rate, WholeSeconds(x)) + Earned(rate, WholeSeconds(y)) <= Earned(rate, WholeSeconds(x + y))
  {
    WholeSecondsSplit(x, y);
    EarnedIsProduct(rate, WholeSeconds(x));
    EarnedIsProduct(rate, WholeSeconds(y));
    EarnedIsProduct(rate, WholeSeconds(x + y));
    assert rate * (WholeSeconds(x) + WholeSeconds(y)) <= rate * WholeSeconds(x + y);
  }

  /** What one call spends comes out of what it finds. */
  lemma StepSpends(l: Limits, b: Bucket, now: int)
    requires b.lastTime <= now
    ensures var (b', ok) := AllowStep(l, b, now);
            && (if ok then 1 else 0) + b'.tokens <= l.maxBurst
            && (if ok then 1 else 0) + b'.tokens <= b.tokens + Earned(l.rate, WholeSeconds(now - b.lastTime))
            && b'.lastTime == now
  {
    EarnedIsProduct(l.rate, WholeSeconds(now - b.lastTime));
  }

  /** The bound with its potential: allowed calls plus tokens left. */
  lemma {:induction false} CapWithTokens(l: Limits, b: Bucket, times: seq<int>, i: nat, j: nat)
    requires Positive(l) && NonDecreasing(b, times)
    requires i < j <= |times|
    ensures After(l, b, times[..j]).lastTime == times[j - 1]
    ensures Allowed(l, b, times, i, j) + After(l, b, times[..j]).tokens
            <= l.maxBurst + Earned(l.rate, WholeSeconds(times[j - 1] - times[i]))
    decreases j
  {
    if j == i + 1 {
      CapFirst(l, b, times, i);
    } else {
      CapWithTokens(l, b, times, i, j - 1);
      CapNext(l, b, times, i, j);
    }
  }

  lemma CapFirst(l: Limits, b: Bucket, times: seq<int>, i: nat)
    requires NonDecreasing(b, times) && i < |times|
    ensures After(l, b, times[..i + 1]).lastTime == times[i]
    ensures Allowed(l, b, times, i, i + 1) + After(l, b, times[..i + 1]).tokens <= l.maxBurst
  {
    CallSpends(l, b, times, i);
    assert Allowed(l, b, times, i, i) == 0;
  }

  /** One more call keeps the bound. */
  lemma CapNext(l: Limits, b: Bucket, times: seq<int>, i: nat, j: nat)
    requires Positive(l) && NonDecreasing(b, times) && i + 1 < j <= |times|
    requires After(l, b, times[..j - 1]).lastTime == times[j - 2]
    requires Allowed(l, b, times, i, j - 1) + After(l, b, times[..j - 1]).tokens
             <= l.maxBurst + Earned(l.rate, WholeSeconds(times[j - 2] - times[i]))
    ensures After(l, b, times[..j]).lastTime == times[j - 1]
    ensures Allowed(l, b, times, i, j) + After(l, b, times[..j]).tokens
            <= l.maxBurst + Earned(l.rate, WholeSeconds(times[j - 1] - times[i]))
  {
    CallSpends(l, b, times, j - 1);
    EarnedSplit(l.rate, times[j - 2] - times[i], times[j - 1] - times[j - 2]);
  }

  /** Call `k` hands out and keeps no more than the burst, and no more than was there and was earned. */
  lemma CallSpends(l: Limits, b: Bucket, times: seq<int>, k: nat)
    requires NonDecreasing(b, times) && k < |times|
    ensures var prev, next := After(l, b, times[..k]), After(l, b, times[..k + 1]);
            var spent := if Answer(l, b, times, k) then 1 else 0;
            && next.lastTime == times[k]
            && spent + next.tokens <= l.maxBurst
            && prev.lastTime <= times[k]
            && spent + next.tokens <= prev.tokens + Earned(l.rate, WholeSeconds(times[k] - prev.lastTime))
  {
    AfterSnoc(l, b, times, k);
    LastTime(l, b, times, k);
    StepSpends(l, After(l, b, times[..k]), times[k]);
  }

  lemma LastTime(l: Limits, b: Bucket, times: seq<int>, k: nat)
    requires NonDecreasing(b, times) && k < |times|
    ensures After(l, b, times[..k]).lastTime <= times[k]
  {
    if k > 0 {
      AfterSnoc(l, b, times, k - 1);
    }
  }

  lemma {:induction false} TokensStayInRange(l: Limits, b: Bucket, times: seq<int>)
    requires Positive(l) && NonDecreasing(b, times) && 0 <= b.tokens <= l.maxBurst
    ensures 0 <= After(l, b, times).tokens <= l.maxBurst
    ensures After(l, b, times).lastTime == if times == [] then b.lastTime else times[|times| - 1]
  {
    if times != [] {
      var front := times[..|times| - 1];
      TokensStayInRange(l, b, front);
      var prev := After(l, b, front);
      assert prev.lastTime <= times[|times| - 1];
      assert WholeSeconds(times[|times| - 1] - prev.lastTime) * l.rate >= 0;
    }
  }

  /** Cap: between any call and any later one, at most `maxBurst` plus `rate` per elapsed second are
      allowed. */
  lemma TokenBucketCap(l: Limits, b: Bucket, times: seq<int>, i: nat, j: nat)
    requires Positive(l) && NonDecreasing(b, times) && 0 <= b.tokens <= l.maxBurst
    requires i < j <= |times|
    ensures Allowed(l, b, times, i, j) <= l.maxBurst + l.rate * WholeSeconds(times[j - 1] - times[i])
  {
    CapWithTokens(l, b, times, i, j);
    EarnedIsProduct(l.rate, WholeSeconds(times[j - 1] - times[i]));
    TokensStayInRange(l, b, times[..j]);
  }

  lemma AtLeastOne(s: int, rate: int)
    requires s >= 0 && rate > 0
    ensures s * rate >= s
  {
    assert s * rate == s + s * (rate - 1);
    assert s * (rate - 1) >= 0;
  }

  /** A call at least a second after the previous one is always allowed. */
  lemma SpacedCallAllowed(l: Limits, b: Bucket, times: seq<int>, k: nat)
    requires Positive(l) && NonDecreasing(b, times) && 0 <= b.tokens <= l.maxBurst
    requires k < |times|
    requires if k == 0 then b.tokens > 0 else times[k] - times[k - 1] >= SECOND
    ensures Answer(l, b, times, k)
  {
    TokensStayInRange(l, b, times[..k]);
    var prev := After(l, b, times[..k]);
    assert prev.lastTime == if k == 0 then b.lastTime else times[k - 1];
    AtLeastOne(WholeSeconds(times[k] - prev.lastTime), l.rate);
  }

  /** The instant before call `k` that the limiter remembers. */
  function PreviousTime(b: Bucket, times: seq<int>, k: nat): int
    requires k < |times|
  {
    if k == 0 then b.lastTime else times[k - 1]
  }

  /** Call `k` is allowed if and only if a token is left or a full second has passed since the previous
      call, whatever came before. */
  lemma AllowedExactly(l: Limits, b: Bucket, times: seq<int>, k: nat)
    requires Positive(l) && NonDecreasing(b, times) && 0 <= b.tokens <= l.maxBurst
    requires k < |times|
    ensures Answer(l, b, times, k) <==>
            After(l, b, times[..k]).tokens > 0 || times[k] - PreviousTime(b, times, k) >= SECOND
  {
    TokensStayInRange(l, b, times[..k]);
    var prev := After(l, b, times[..k]);
    assert prev.lastTime == PreviousTime(b, times, k);
    AtLeastOne(WholeSeconds(times[k] - prev.lastTime), l.rate);
  }

  /** A call that is refused leaves an empty bucket, so from then on calls are refused until one comes a
      full second or more after the one before it. */
  lemma {:induction false} RefusedUntilASecondPasses(l: Limits, b: Bucket, times: seq<int>, i: nat, k: nat)
    requires Positive(l) && NonDecreasing(b, times) && 0 <= b.tokens <= l.maxBurst
    requires i < k < |times| && !Answer(l, b, times, i)
    requires forall j :: i < j < k ==> times[j] - times[j - 1] < SECOND
    ensures Answer(l, b, times, k) <==> times[k] - times[k - 1] >= SECOND
    ensures After(l, b, times[..k]).tokens == 0
    decreases k
  {
    if k - 1 > i {
      RefusedUntilASecondPasses(l, b, times, i, k - 1);
    }
    RefusedLeavesNone(l, b, times, k - 1);
    AllowedExactly(l, b, times, k);
  }

  lemma RefusedLeavesNone(l: Limits, b: Bucket, times: seq<int>, k: nat)
    requires Positive(l) && NonDecreasing(b, times) && 0 <= b.tokens <= l.maxBurst
    requires k < |times| && !Answer(l, b, times, k)
    ensures After(l, b, times[..k + 1]).tokens == 0
  {
    AfterSnoc(l, b, times, k);
    TokensStayInRange(l, b, times[..k + 1]);
  }

  // ----- scheduled broadcasts -----

  const MIN_INTERVAL: int := 5 * SECOND

  /** The announcer's loop: it receives a tick, calls the limiter some time later, and may take any time
      before it receives again.  `ticks` are the numbers of the ticks it received. */
  datatype Loop = Loop(ticks: seq<nat>, received: seq<int>, calls: seq<int>)

  /** When tick `n` fires; the first is one interval after the start. */
  function Fires(start: int, interval: int, n: nat): int {
    if n == 0 then start else Fires(start, interval, n - 1) + interval
  }

  /** Tick `k` of the loop is received when it has fired, and the limiter is called later. */
  predicate Receives(start: int, interval: int, r: Loop, k: nat) {
    && k < |r.ticks| == |r.received| == |r.calls|
    && Fires(start, interval, r.ticks[k]) <= r.received[k] <= r.calls[k]
  }

  /** The ticker holds one tick at most: a tick that fires while one is waiting is dropped, and the next
      tick received is the first that fires once the slot is free. */
  predicate Follows(start: int, interval: int, r: Loop, k: nat) {
    && 0 < k < |r.ticks| == |r.received| == |r.calls|
    && r.calls[k - 1] <= r.received[k]
    && r.ticks[k - 1] < r.ticks[k]
    && r.received[k - 1] <= Fires(start, interval, r.ticks[k])
    && (r.ticks[k] - 1 == r.ticks[k - 1] || Fires(start, interval, r.ticks[k] - 1) <= r.received[k - 1])
  }

  predicate TickerRun(start: int, interval: int, r: Loop) {
    && |r.ticks| == |r.received| == |r.calls|
    && (|r.ticks| > 0 ==> r.ticks[0] == 1)
    && (forall k :: 0 <= k < |r.ticks| ==> Receives(start, interval, r, k))
    && (forall k :: 0 < k < |r.ticks| ==> Follows(start, interval, r, k))
  }

  lemma {:induction false} FiresLater(start: int, interval: int, i: nat, j: nat)
    requires i < j && interval >= 0
    ensures Fires(start, interval, j) >= Fires(start, interval, i) + interval
    decreases j
  {
    if i + 1 < j {
      FiresLater(start, interval, i, j - 1);
    }
  }

  lemma {:induction false} CallsInOrder(start: int, interval: int, r: Loop, i: nat, j: nat)
    requires TickerRun(start, interval, r) && i <= j < |r.calls|
    ensures r.calls[i] <= r.calls[j]
    decreases j
  {
    if i < j {
      CallsInOrder(start, interval, r, i, j - 1);
      assert Follows(start, interval, r, j) && Receives(start, interval, r, j);
    }
  }

  lemma CallsAfterStart(start: int, interval: int, r: Loop)
    requires interval >= 0 && TickerRun(start, interval, r)
    ensures NonDecreasing(Bucket(0, start), r.calls)
  {
    forall i, j | 0 <= i < j < |r.calls|
      ensures r.calls[i] <= r.calls[j]
    {
      CallsInOrder(start, interval, r, i, j);
    }
    forall i | 0 <= i < |r.calls|
      ensures start <= r.calls[i]
    {
      assert Receives(start, interval, r, 0);
      FiresLater(start, interval, 0, 1);
      CallsInOrder(start, interval, r, 0, i);
    }
  }

  /** However slow the loop is, any three calls in a row take the interval or more from the call before
      them. */
  lemma ThreeCallsSpaced(start: int, interval: int, r: Loop, k: nat)
    requires interval >= 0 && TickerRun(start, interval, r) && k + 3 < |r.calls|
    ensures r.calls[k + 3] - r.calls[k] >= interval
  {
    assert Follows(start, interval, r, k + 1) && Follows(start, interval, r, k + 2);
    assert Follows(start, interval, r, k + 3) && Receives(start, interval, r, k + 3);
    FiresLater(start, interval, r.ticks[k + 2], r.ticks[k + 3]);
  }

  /** Whole seconds between call `k` and the one before. */
  function Gap(times: seq<int>, k: nat): int
    requires 0 < k < |times|
  {
    WholeSeconds(times[k] - times[k - 1])
  }

  lemma ThreeGaps(times: seq<int>, k: nat)
    requires 3 <= k < |times| && times[k] - times[k - 3] >= MIN_INTERVAL
    requires times[k - 3] <= times[k - 2] <= times[k - 1] <= times[k]
    ensures Gap(times, k) + Gap(times, k - 1) + Gap(times, k - 2) >= 3
  {
  }

  /** How far the bucket can be below full after call `k`: the worst of no, one or two short gaps. */
  function Shortfall(times: seq<int>, k: nat): int
    requires k < |times|
  {
    if k == 0 then 0
    else
      var one := Min(0, Gap(times, k) - 1);
      if k == 1 then one else Min(one, Gap(times, k) + Gap(times, k - 1) - 2)
  }

  predicate Spaced(b: Bucket, times: seq<int>) {
    && NonDecreasing(b, times)
    && forall k :: 3 <= k < |times| ==> times[k] - times[k - 3] >= MIN_INTERVAL
  }

  lemma ShortfallStep(b: Bucket, times: seq<int>, k: nat)
    requires Spaced(b, times) && 0 < k < |times|
    ensures Gap(times, k) >= 0
    ensures -2 <= Shortfall(times, k) <= Min(0, Shortfall(times, k - 1) + Gap(times, k) - 1)
  {
    if k >= 3 {
      ThreeGaps(times, k);
    }
  }

  lemma StepKeepsEnough(l: Limits, b: Bucket, now: int, short: int)
    requires Positive(l) && b.lastTime <= now && b.tokens >= l.maxBurst - 1 + short
    requires l.maxBurst - 1 + short + WholeSeconds(now - b.lastTime) > 0
    ensures var (b', ok) := AllowStep(l, b, now);
            ok && b'.tokens >= l.maxBurst - 1 + Min(0, short + WholeSeconds(now - b.lastTime) - 1)
  {
    AtLeastOne(WholeSeconds(now - b.lastTime), l.rate);
  }

  lemma {:induction false} SpacedCallsAllowed(l: Limits, b: Bucket, times: seq<int>, k: nat)
    requires Positive(l) && l.maxBurst >= 3 && b.tokens == l.maxBurst
    requires Spaced(b, times) && k < |times|
    ensures Answer(l, b, times, k)
    ensures var next := After(l, b, times[..k + 1]);
            next.lastTime == times[k] && next.tokens >= l.maxBurst - 1 + Shortfall(times, k)
  {
    AfterSnoc(l, b, times, k);
    if k == 0 {
      FullStep(l, b, times[0]);
      assert times[..0] == [];
    } else {
      SpacedCallsAllowed(l, b, times, k - 1);
      ShortfallStep(b, times, k);
      StepKeepsEnough(l, After(l, b, times[..k]), times[k], Shortfall(times, k - 1));
    }
  }

  lemma FullStep(l: Limits, b: Bucket, now: int)
    requires Positive(l) && b.tokens == l.maxBurst && b.lastTime <= now
    ensures AllowStep(l, b, now) == (Bucket(l.maxBurst - 1, now), true)
  {
    AtLeastOne(WholeSeconds(now - b.lastTime), l.rate);
  }

  lemma TickerSpaces(start: int, interval: int, r: Loop, b: Bucket)
    requires interval >= MIN_INTERVAL && TickerRun(start, interval, r) && b.lastTime <= start
    ensures Spaced(b, r.calls)
  {
    CallsAfterStart(start, interval, r);
    forall j | 3 <= j < |r.calls|
      ensures r.calls[j] - r.calls[j - 3] >= MIN_INTERVAL
    {
      ThreeCallsSpaced(start, interval, r, j - 3);
    }
  }

  /** With the validated interval of at least five seconds and room for three tokens, no scheduled
      broadcast is refused, however long broadcasts take and wherever the loop is held up. */
  lemma ScheduledBroadcastsAllowed(l: Limits, created: int, start: int, interval: int, r: Loop, k: nat)
    requires Positive(l) && l.maxBurst >= 3 && interval >= MIN_INTERVAL && TickerRun(start, interval, r)
    requires created <= start && k < |r.calls|
    ensures Answer(l, Bucket(l.maxBurst, created), r.calls, k)
  {
    TickerSpaces(start, interval, r, Bucket(l.maxBurst, created));
    SpacedCallsAllowed(l, Bucket(l.maxBurst, created), r.calls, k);
  }

  /** The loop is held up between its first tick and its first call until just before the third tick:
      three calls within a nanosecond. */
  function HeldUp(start: int, interval: int): Loop {
    var late := Fires(start, interval, 3);
    Loop([1, 2, 3], [Fires(start, interval, 1), late - 1, late], [late - 1, late - 1, late])
  }

  lemma HeldUpIsARun(start: int, interval: int)
    requires interval >= MIN_INTERVAL
    ensures TickerRun(start, interval, HeldUp(start, interval))
  {
    var r := HeldUp(start, interval);
    assert Fires(start, interval, 1) == start + interval;
    assert Fires(start, interval, 2) == start + interval + interval;
    assert Fires(start, interval, 3) == start + interval + interval + interval;
    assert Follows(start, interval, r, 1) && Follows(start, interval, r, 2);
  }

  /** Two calls at one instant and a third a nanosecond later empty a bucket of two. */
  lemma ThirdCallRefused(l: Limits, b: Bucket, t: int)
    requires Positive(l) && l.maxBurst < 3 && b.tokens == l.maxBurst && b.lastTime <= t
    ensures !Answer(l, b, [t, t, t + 1], 2)
  {
    var times := [t, t, t + 1];
    AfterSnoc(l, b, times, 0);
    AfterSnoc(l, b, times, 1);
    assert times[..0] == [];
    AtLeastOne(WholeSeconds(t - b.lastTime), l.rate);
    assert After(l, b, times[..1]) == Bucket(l.maxBurst - 1, t);
  }

  lemma HeldUpRefused(l: Limits, created: int, start: int, interval: int)
    requires Positive(l) && l.maxBurst < 3 && interval >= MIN_INTERVAL && created <= start
    ensures TickerRun(start, interval, HeldUp(start, interval))
    ensures !Answer(l, Bucket(l.maxBurst, created), HeldUp(start, interval).calls, 2)
  {
    HeldUpIsARun(start, interval);
    FiresLater(start, interval, 0, 3);
    var late := Fires(start, interval, 3);
    ThirdCallRefused(l, Bucket(l.maxBurst, created), late - 1);
    assert HeldUp(start, interval).calls == [late - 1, late - 1, late];
  }

  /** Every scheduled broadcast of every run is let through if and only if the bucket holds at least three
      tokens; the limiter may be created long before the ticker.  The announcer's holds ten. */
  lemma ScheduleAllowedExactly(l: Limits, created: int, start: int, interval: int)
    requires Positive(l) && interval >= MIN_INTERVAL && created <= start
    ensures l.maxBurst >= 3 <==>
            forall r, k: nat :: TickerRun(start, interval, r) && k < |r.calls| ==>
              Answer(l, Bucket(l.maxBurst, created), r.calls, k)
  {
    if l.maxBurst < 3 {
      HeldUpRefused(l, created, start, interval);
    } else {
      forall r, k: nat | TickerRun(start, interval, r) && k < |r.calls|
        ensures Answer(l, Bucket(l.maxBurst, created), r.calls, k)
      {
        ScheduledBroadcastsAllowed(l, created, start, interval, r, k);
      }
    }
  }

  // ----- hurried calls -----

  /** The tokens for a series of calls that starts at `start`: what was left and the rate for every whole
      second since the last call, up to the burst. */
  function Grant(l: Limits, b: Bucket, start: int): int {
    var earned := b.tokens + l.rate * ((start - b.lastTime) / 1_000_000_000);
    if earned > l.maxBurst then l.maxBurst else earned
  }

  /** After a pause of any length, a series of calls less than a second apart is allowed exactly as many times
      as the grant says, from the first call on. */
  lemma {:induction false} BurstExactly(l: Limits, b: Bucket, times: seq<int>, k: nat)
    requires Positive(l) && NonDecreasing(b, times) && 0 <= b.tokens <= l.maxBurst && k < |times|
    requires forall j :: 0 < j < |times| ==> times[j] - times[j - 1] < SECOND
    ensures Answer(l, b, times, k) <==> k < Grant(l, b, times[0])
    ensures After(l, b, times[..k + 1]) ==
            Bucket(if k < Grant(l, b, times[0]) then Grant(l, b, times[0]) - k - 1 else 0, times[k])
  {
    AfterSnoc(l, b, times, k);
    if k == 0 {
      assert times[..0] == [];
      FirstGrant(l, b, times[0]);
    } else {
      BurstExactly(l, b, times, k - 1);
      NoRefill(l, After(l, b, times[..k]), times[k]);
    }
  }

  lemma FirstGrant(l: Limits, b: Bucket, now: int)
    requires Positive(l) && 0 <= b.tokens && b.lastTime <= now
    ensures Available(l, b, now) == Grant(l, b, now) >= 0
  {
    AtLeastOne(WholeSeconds(now - b.lastTime), l.rate);
  }

  lemma NoRefill(l: Limits, b: Bucket, now: int)
    requires b.tokens <= l.maxBurst && 0 <= now - b.lastTime < SECOND
    ensures Available(l, b, now) == b.tokens
  {
  }

  predicate Hurried(b: Bucket, times: seq<int>) {
    && NonDecreasing(b, times)
    && (times != [] ==> times[0] - b.lastTime < SECOND)
    && (forall k :: 0 < k < |times| ==> times[k] - times[k - 1] < SECOND)
  }

  /** Fractions of a second are thrown away on every call: calls less than a second apart never refill
      the bucket, so over the whole run, however long, only the initial tokens are handed out. */
  lemma {:induction false} HurriedCallsNeverRefill(l: Limits, b: Bucket, times: seq<int>, k: nat)
    requires Positive(l) && Hurried(b, times) && 0 <= b.tokens <= l.maxBurst
    requires k < |times|
    ensures Answer(l, b, times, k) <==> k < b.tokens
    ensures After(l, b, times[..k + 1]) == Bucket(if k < b.tokens then b.tokens - k - 1 else 0, times[k])
  {
    AfterSnoc(l, b, times, k);
    if k > 0 {
      HurriedCallsNeverRefill(l, b, times, k - 1);
    } else {
      assert times[..0] == [];
    }
    var prev := After(l, b, times[..k]);
    assert WholeSeconds(times[k] - prev.lastTime) == 0;
  }
}
