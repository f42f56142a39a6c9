/** The token bucket of one client: refill by elapsed time, cap, consume, and
    the number of whole seconds a refused client is told to wait.
    Instants and token counts are exact reals. */
module RateLimit {
  import opened BucketRuns

  datatype Config = Config(capacity: nat, periodSecs: nat) {
    /** The limiter is meaningful only when it admits something in a nonzero period. */
    predicate Valid() {
      capacity >= 1 && periodSecs >= 1
    }

    /** Tokens regained per second: a full bucket in exactly one period. */
    function RefillRate(): (rate: real)
      requires Valid()
      ensures rate > 0.0
      ensures periodSecs as real * rate == capacity as real
    {
      capacity as real / periodSecs as real
    }

    /** What a single call reads from the configuration. */
    function ToLimits(): (lim: Limits)
      requires Valid()
      ensures lim.Valid()
    {
      Limits(capacity as real, RefillRate())
    }
  }

  datatype Limits = Limits(capacity: real, rate: real) {
    predicate Valid() {
      capacity >= 1.0 && rate > 0.0
    }
  }

  datatype Bucket = Bucket(tokens: real, lastUpdate: real)

  datatype Verdict = Verdict(allowed: bool, bucket: Bucket, retryAfter: nat)

  predicate InRange(b: Bucket, lim: Limits) {
    0.0 <= b.tokens <= lim.capacity
  }

  function NewFull(lim: Limits, createdAt: real): Bucket {
    Bucket(lim.capacity, createdAt)
  }

  /** Tokens regained between two instants; `Instant::duration_since` is zero
      when the clock reads earlier than the last update. */
  function Refill(since: real, now: real, rate: real): real {
    if now >= since then (now - since) * rate else 0.0
  }

  function Ceil(x: real): int {
    -((-x).Floor)
  }

  /** Tokens available at `now`, before anything is consumed. */
  function Level(b: Bucket, lim: Limits, now: real): real
    requires lim.Valid()
  {
    Min(b.tokens + Refill(b.lastUpdate, now, lim.rate), lim.capacity)
  }

  /** Whole seconds until one token is back, rounded up, and never zero. */
  function RetryAfter(shortage: real, lim: Limits): (wait: int)
    requires lim.Valid() && shortage > 0.0
    ensures wait >= 1
  {
    CeilPositive(shortage, lim);
    var wait := Ceil(shortage / lim.rate);
    if wait == 0 && shortage > 0.0 then 1 else wait
  }

  function TryConsume(b: Bucket, lim: Limits, now: real): Verdict
    requires lim.Valid()
  {
    var level := Level(b, lim, now);
    if level >= 1.0 then
      Verdict(true, Bucket(level - 1.0, now), 0)
    else
      Verdict(false, Bucket(level, now), RetryAfter(1.0 - level, lim))
  }

  // ----- arithmetic -----

  lemma Scale(rate: real, x: real, y: real)
    requires rate > 0.0 && x <= y
    ensures x * rate <= y * rate
    ensures x < y ==> x * rate < y * rate
  {
    if x < y {
      assert (y - x) * rate > 0.0;
    }
  }

  lemma RefillNonNegative(since: real, now: real, rate: real)
    requires rate > 0.0
    ensures Refill(since, now, rate) >= 0.0
  {
    if now >= since {
      Scale(rate, since, now);
    }
  }

  lemma RefillAdds(since: real, mid: real, now: real, rate: real)
    requires rate > 0.0 && since <= mid <= now
    ensures Refill(since, now, rate) == Refill(since, mid, rate) + Refill(mid, now, rate)
    ensures Refill(since, mid, rate) >= 0.0 && Refill(mid, now, rate) >= 0.0
  {
    RefillNonNegative(since, mid, rate);
    RefillNonNegative(mid, now, rate);
  }

  /** A whole number of seconds covers the shortage exactly when it is at
      least the rounded-up quotient. */
  lemma CeilIsLeastCover(shortage: real, rate: real, wait: int)
    requires rate > 0.0
    ensures wait >= Ceil(shortage / rate) <==> wait as real * rate >= shortage
  {
    var quotient := shortage / rate;
    assert quotient * rate == shortage;
    assert wait >= Ceil(quotient) <==> wait as real >= quotient;
    if wait as real >= quotient {
      Scale(rate, quotient, wait as real);
    } else {
      Scale(rate, wait as real, quotient);
    }
  }

  lemma CeilPositive(shortage: real, lim: Limits)
    requires lim.Valid() && shortage > 0.0
    ensures Ceil(shortage / lim.rate) >= 1
  {
    CeilIsLeastCover(shortage, lim.rate, 0);
  }

  // ----- one bucket -----

  /** Under any clock, even one running backwards, no call takes the token
      count out of [0, capacity]. */
  lemma TokensStayInRange(b: Bucket, lim: Limits, now: real)
    requires lim.Valid() && InRange(b, lim)
    ensures InRange(TryConsume(b, lim, now).bucket, lim)
    ensures b.tokens <= Level(b, lim, now)
  {
    RefillNonNegative(b.lastUpdate, now, lim.rate);
  }

  /** Idle time worth a whole bucket leaves the bucket full. */
  lemma FullAfterLongIdle(b: Bucket, lim: Limits, now: real, idle: real)
    requires lim.Valid() && InRange(b, lim)
    requires idle * lim.rate >= lim.capacity
    requires now - b.lastUpdate >= idle
    ensures Level(b, lim, now) == lim.capacity
  {
    Scale(lim.rate, idle, now - b.lastUpdate);
    RefillNonNegative(b.lastUpdate, now, lim.rate);
  }

  /** The idle times worth a whole bucket are exactly those of a period or more. */
  lemma PeriodFillsBucket(cfg: Config, idle: real)
    requires cfg.Valid()
    ensures idle * cfg.ToLimits().rate >= cfg.ToLimits().capacity <==> idle >= cfg.periodSecs as real
  {
    if idle >= cfg.periodSecs as real {
      Scale(cfg.RefillRate(), cfg.periodSecs as real, idle);
    } else {
      Scale(cfg.RefillRate(), idle, cfg.periodSecs as real);
    }
  }

  /** Refilling in two instalments gives what one refill would. */
  lemma RefillComposes(b: Bucket, lim: Limits, mid: real, now: real)
    requires lim.Valid()
    requires b.lastUpdate <= mid <= now
    ensures Level(Bucket(Level(b, lim, mid), mid), lim, now) == Level(b, lim, now)
  {
    RefillAdds(b.lastUpdate, mid, now, lim.rate);
  }

  /** A wait is announced exactly when the attempt is refused; either way the
      bucket has been brought up to date. */
  lemma WaitIffRefused(b: Bucket, lim: Limits, now: real)
    requires lim.Valid()
    ensures TryConsume(b, lim, now).retryAfter == 0 <==> TryConsume(b, lim, now).allowed
    ensures TryConsume(b, lim, now).bucket.lastUpdate == now
  {
  }

  /** A refused attempt is invisible to every later attempt. */
  lemma RefusalIsTransparent(b: Bucket, lim: Limits, mid: real, now: real)
    requires lim.Valid()
    requires b.lastUpdate <= mid <= now
    ensures !TryConsume(b, lim, mid).allowed ==>
      TryConsume(TryConsume(b, lim, mid).bucket, lim, now) == TryConsume(b, lim, now)
  {
    RefillComposes(b, lim, mid, now);
  }

  /** Retry-After is sufficient and tight: among whole-second waits, exactly
      those of at least the announced length are admitted. */
  lemma RetryAfterExact(b: Bucket, lim: Limits, now: real, wait: nat)
    requires lim.Valid()
    requires !TryConsume(b, lim, now).allowed
    ensures
      var refused := TryConsume(b, lim, now);
      && refused.retryAfter >= 1
      && (TryConsume(refused.bucket, lim, now + wait as real).allowed <==> wait >= refused.retryAfter)
  {
    var level := Level(b, lim, now);
    CeilPositive(1.0 - level, lim);
    CeilIsLeastCover(1.0 - level, lim.rate, wait);
  }

  // ----- impatient clients -----

  /** The instant at which a bucket short of a token has one again. */
  function ReadyAt(b: Bucket, lim: Limits): real
    requires lim.Valid()
  {
    b.lastUpdate + (1.0 - b.tokens) / lim.rate
  }

  /** The seconds a refused client is told to wait are the whole ones that
      reach that instant. */
  lemma ReadyInWholeSeconds(b: Bucket, lim: Limits, now: real, wait: nat)
    requires lim.Valid()
    requires !TryConsume(b, lim, now).allowed
    ensures
      var refused := TryConsume(b, lim, now);
      && refused.bucket.tokens < 1.0 && refused.bucket.lastUpdate == now
      && (now + wait as real >= ReadyAt(refused.bucket, lim) <==> wait >= refused.retryAfter)
  {
    var delay := (1.0 - Level(b, lim, now)) / lim.rate;
    CeilPositive(1.0 - Level(b, lim, now), lim);
    assert wait >= Ceil(delay) <==> wait as real >= delay;
  }

  /** A bucket short of a token admits from that very instant on. */
  lemma AdmittedFromReady(b: Bucket, lim: Limits, later: real)
    requires lim.Valid() && b.tokens < 1.0 && b.lastUpdate <= later
    ensures TryConsume(b, lim, later).allowed <==> later >= ReadyAt(b, lim)
  {
    var shortage := 1.0 - b.tokens;
    var delay := shortage / lim.rate;
    assert delay * lim.rate == shortage;
    if later >= b.lastUpdate + delay {
      Scale(lim.rate, delay, later - b.lastUpdate);
    } else {
      Scale(lim.rate, later - b.lastUpdate, delay);
    }
  }

  /** The bucket after attempts at the first k of the given instants. */
  function AfterPolls(b: Bucket, lim: Limits, polls: seq<real>, k: nat): Bucket
    requires lim.Valid() && k <= |polls|
  {
    if k == 0 then b else TryConsume(AfterPolls(b, lim, polls, k - 1), lim, polls[k - 1]).bucket
  }

  /** Instants from `since` on, in order. */
  ghost predicate Ordered(polls: seq<real>, since: real) {
    && (forall i :: 0 <= i < |polls| ==> since <= polls[i])
    && (forall i, j :: 0 <= i < j < |polls| ==> polls[i] <= polls[j])
  }

  ghost predicate AllBefore(polls: seq<real>, k: nat, instant: real)
    requires k <= |polls|
  {
    forall i :: 0 <= i < k ==> polls[i] < instant
  }

  /** Polls the bucket by itself would refuse leave every later verdict as it was. */
  lemma {:induction false} PollsAreTransparent(b: Bucket, lim: Limits, polls: seq<real>, k: nat, later: real)
    requires lim.Valid() && k <= |polls| && Ordered(polls, b.lastUpdate)
    requires forall i :: 0 <= i < k ==> !TryConsume(b, lim, polls[i]).allowed
    requires later >= b.lastUpdate && (k == 0 || later >= polls[k - 1])
    ensures TryConsume(AfterPolls(b, lim, polls, k), lim, later) == TryConsume(b, lim, later)
  {
    if k > 0 {
      PollsAreTransparent(b, lim, polls, k - 1, polls[k - 1]);
      RefusalIsTransparent(b, lim, polls[k - 1], later);
    }
  }

  /** A client without a token that keeps asking, at whatever instants before it
      has one again, is refused each time, and none of that moves the instant of
      its admission, nor so the wait of ReadyInWholeSeconds. */
  lemma PollingDoesNotPostpone(b: Bucket, lim: Limits, polls: seq<real>, k: nat, later: real)
    requires lim.Valid() && b.tokens < 1.0 && k <= |polls| && Ordered(polls, b.lastUpdate)
    requires AllBefore(polls, k, ReadyAt(b, lim))
    requires later >= b.lastUpdate && (k == 0 || later >= polls[k - 1])
    ensures forall i :: 0 <= i < k ==> !TryConsume(AfterPolls(b, lim, polls, i), lim, polls[i]).allowed
    ensures TryConsume(AfterPolls(b, lim, polls, k), lim, later) == TryConsume(b, lim, later)
    ensures TryConsume(b, lim, later).allowed <==> later >= ReadyAt(b, lim)
  {
    forall i | 0 <= i < k
      ensures !TryConsume(b, lim, polls[i]).allowed
    {
      AdmittedFromReady(b, lim, polls[i]);
    }
    forall i | 0 <= i < k
      ensures !TryConsume(AfterPolls(b, lim, polls, i), lim, polls[i]).allowed
    {
      PollsAreTransparent(b, lim, polls, i, polls[i]);
    }
    PollsAreTransparent(b, lim, polls, k, later);
    AdmittedFromReady(b, lim, later);
  }
}
