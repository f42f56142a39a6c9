/** That eviction can be seen, by nothing but whole calls, whenever the ttl is
    shorter than it has to be for it never to be seen. */
module EvictionVisibility {
  import opened RateLimit
  import opened RateLimitStore
  import opened BucketRuns
  import opened Admission

  const EVERYONE: set<string> := {"client", "other"}

  /** Two bursts of n calls of one client, at instants 0 and gap; between them a
      call of another client, which has read the clock `skew` later than the
      second burst. */
  function TwoBursts(n: nat, gap: real, skew: real): (qs: seq<Request>)
    ensures |qs| == 2 * n + 1 && AllIn(qs, EVERYONE)
  {
    seq(2 * n + 1, j =>
      if j < n then Request("client", 0.0, 0.0)
      else if j == n then Request("other", gap + skew, gap + skew)
      else Request("client", gap, gap))
  }

  function Steps(n: nat, gap: real, skew: real): (steps: seq<Step>)
    ensures |steps| == 4 * n + 2
  {
    Calls(TwoBursts(n, gap, skew), EVERYONE)
  }

  /** The client's bucket when call j begins: absent, or with these tokens. */
  ghost predicate BurstState(m: Buckets, n: nat, gap: real, j: nat) {
    if j == 0 || j == n + 1 then "client" !in m
    else if j <= n then "client" in m && m["client"] == Bucket((n - j) as real, 0.0)
    else "client" in m && m["client"] == Bucket((2 * n + 1 - j) as real, gap)
  }

  /** A call of the client that meets no stale bucket of it. */
  lemma BurstCall(lim: Limits, ttl: real, m: Buckets, now: real, level: int)
    requires lim.Valid() && ttl >= 0.0 && 1 <= level && level as real <= lim.capacity
    requires
      if "client" in m then m["client"] == Bucket(level as real, now) else level as real == lim.capacity
    ensures
      var swept, q := StepTaken(lim, ttl, m, Sweep(now, EVERYONE)), Request("client", now, now);
      && Answer(swept, lim, q).allowed
      && Served(swept, lim, q)["client"] == Bucket((level - 1) as real, now)
  {
    NewLevel(lim, Request("client", now, now));
  }

  /** When the other client's sweep finds the bucket stale, the second burst
      starts from a fresh one. */
  lemma {:induction false} BurstsRun(lim: Limits, ttl: real, n: nat, gap: real, skew: real, j: nat)
    requires lim.Valid() && n as real == lim.capacity && 0.0 <= ttl < gap + skew && j <= 2 * n + 1
    ensures BurstState(Evicting(lim, ttl, Steps(n, gap, skew), 2 * j), n, gap, j)
  {
    if j > 0 {
      BurstsRun(lim, ttl, n, gap, skew, j - 1);
      BurstGranted(lim, ttl, n, gap, skew, j - 1);
      assert 2 * (j - 1) + 2 == 2 * j;
    }
  }

  lemma BurstGranted(lim: Limits, ttl: real, n: nat, gap: real, skew: real, j: nat)
    requires lim.Valid() && n as real == lim.capacity && 0.0 <= ttl < gap + skew && j <= 2 * n
    requires BurstState(Evicting(lim, ttl, Steps(n, gap, skew), 2 * j), n, gap, j)
    ensures BurstState(Evicting(lim, ttl, Steps(n, gap, skew), 2 * j + 2), n, gap, j + 1)
    ensures j != n ==> EvictingAnswer(lim, ttl, Steps(n, gap, skew), 2 * j + 1).allowed
  {
    var m := Evicting(lim, ttl, Steps(n, gap, skew), 2 * j);
    CallsAreWhole(lim, ttl, TwoBursts(n, gap, skew), EVERYONE, j);
    if j != n {
      BurstCall(lim, ttl, m, if j < n then 0.0 else gap, if j < n then n - j else 2 * n + 1 - j);
    }
  }

  /** The client's requests among the first k steps. */
  lemma {:induction false} BurstRequests(n: nat, gap: real, skew: real, k: nat)
    requires 1 <= k <= 4 * n + 2
    ensures
      Count(Requests(Steps(n, gap, skew), "client"), 1, k) == if k <= 2 * n + 1 then k / 2 else k / 2 - 1
  {
    if k > 1 {
      BurstRequests(n, gap, skew, k - 1);
    }
  }

  lemma BurstsInOrder(n: nat, gap: real, skew: real)
    requires n >= 1 && 0.0 <= gap && 0.0 <= skew
    ensures WithinSkew(Steps(n, gap, skew), skew)
    ensures InOrder(Steps(n, gap, skew), "client", 1, 4 * n + 1)
  {
  }

  lemma BurstAllowance(lim: Limits, clock: seq<real>, i: nat, k: nat, gap: real)
    requires lim.Valid() && i <= k < |clock| && clock[i] == 0.0 && clock[k] == gap >= 0.0
    requires gap * lim.rate < lim.capacity
    ensures Allowance(lim, clock, i, k) < 2.0 * lim.capacity
  {
  }

  lemma BurstReadings(lim: Limits, n: nat, gap: real, skew: real)
    requires n >= 1 && 0.0 <= gap && 0.0 <= skew && lim.Valid()
    ensures
      var steps := Steps(n, gap, skew);
      && Readings(steps)[1] == 0.0 && Readings(steps)[4 * n + 1] == gap
      && Allowance(lim, ForwardClock(steps, "client"), 1, 4 * n + 1) == Allowance(lim, Readings(steps), 1, 4 * n + 1)
  {
    var steps, last := Steps(n, gap, skew), 4 * n + 1;
    BurstsInOrder(n, gap, skew);
    assert From(steps[1], "client") && From(steps[last], "client");
    AllowanceInRealTime(lim, steps, "client", 1, last);
  }

  lemma BurstsOverfill(lim: Limits, n: nat, gap: real, skew: real)
    requires lim.Valid() && n as real == lim.capacity && 0.0 <= skew
    requires 0.0 <= gap && gap * lim.rate < lim.capacity
    ensures
      var steps := Steps(n, gap, skew);
      Count(Requests(steps, "client"), 1, 4 * n + 2) as real
      > Allowance(lim, ForwardClock(steps, "client"), 1, 4 * n + 1)
  {
    BurstRequests(n, gap, skew, 4 * n + 2);
    BurstReadings(lim, n, gap, skew);
    BurstAllowance(lim, Readings(Steps(n, gap, skew)), 1, 4 * n + 1, gap);
  }

  lemma BurstIndex(n: nat, gap: real, skew: real, k: nat)
    requires k < 4 * n + 2 && From(Steps(n, gap, skew)[k], "client")
    ensures k == 2 * (k / 2) + 1 && k / 2 <= 2 * n && k / 2 != n
  {
  }

  /** When a ttl is too short, calls one after another get a request granted
      that a store that keeps every client refuses. */
  lemma EvictionVisible(lim: Limits, ttl: real, skew: real, n: nat, gap: real)
    returns (qs: seq<Request>, everyone: set<string>, k: nat)
    requires lim.Valid() && n as real == lim.capacity && 0.0 <= skew
    requires 0.0 <= ttl < gap + skew && 0.0 <= gap && gap * lim.rate < lim.capacity
    ensures AllIn(qs, everyone) && WithinSkew(Calls(qs, everyone), skew)
    ensures k < 2 * |qs| && Calls(qs, everyone)[k].Consume?
    ensures EvictingAnswer(lim, ttl, Calls(qs, everyone), k).allowed
    ensures !KeepingAnswer(lim, Calls(qs, everyone), k).allowed
  {
    qs, everyone := TwoBursts(n, gap, skew), EVERYONE;
    BurstsOverfill(lim, n, gap, skew);
    k := OverfullRefused(lim, Steps(n, gap, skew), "client", 1, 4 * n + 1);
    BurstIndex(n, gap, skew, k);
    BurstAnswered(lim, ttl, n, gap, skew, k / 2);
    BurstsInOrder(n, gap, skew);
  }

  lemma BurstAnswered(lim: Limits, ttl: real, n: nat, gap: real, skew: real, j: nat)
    requires lim.Valid() && n as real == lim.capacity && 0.0 <= ttl < gap + skew && j <= 2 * n && j != n
    ensures Steps(n, gap, skew)[2 * j + 1].Consume?
    ensures EvictingAnswer(lim, ttl, Steps(n, gap, skew), 2 * j + 1).allowed
  {
    BurstsRun(lim, ttl, n, gap, skew, j);
    BurstGranted(lim, ttl, n, gap, skew, j);
  }

  /** The run gets the same answers from the evicting store as from one that
      never evicts. */
  ghost predicate SameAnswers(lim: Limits, ttl: real, steps: seq<Step>)
    requires lim.Valid()
  {
    forall k :: 0 <= k < |steps| && steps[k].Consume? ==>
      EvictingAnswer(lim, ttl, steps, k) == KeepingAnswer(lim, steps, k)
  }

  ghost predicate NoRunSees(lim: Limits, ttl: real, skew: real)
    requires lim.Valid()
  {
    forall steps: seq<Step> :: WithinSkew(steps, skew) ==> SameAnswers(lim, ttl, steps)
  }

  ghost predicate NoCallsSee(lim: Limits, ttl: real, skew: real)
    requires lim.Valid()
  {
    forall qs: seq<Request>, everyone: set<string> ::
      AllIn(qs, everyone) && WithinSkew(Calls(qs, everyone), skew) ==> SameAnswers(lim, ttl, Calls(qs, everyone))
  }

  /** No interleaving of steps, with clock readings within `skew` of the sweeps
      before them, can tell the evicting store from one that never evicts, if
      and only if ttl >= period + skew; and with a shorter ttl, whole calls one
      after another can. */
  lemma EvictionInvisibleIff(cfg: RateLimit.Config, ttl: real, skew: real)
    requires cfg.Valid() && ttl >= 0.0 && skew >= 0.0
    ensures ttl >= cfg.periodSecs as real + skew <==> NoRunSees(cfg.ToLimits(), ttl, skew)
    ensures ttl >= cfg.periodSecs as real + skew <==> NoCallsSee(cfg.ToLimits(), ttl, skew)
  {
    var lim, period := cfg.ToLimits(), cfg.periodSecs as real;
    if ttl >= period + skew {
      PeriodFillsBucket(cfg, ttl - skew);
      LongTtlUnseen(lim, ttl, skew);
    } else {
      var gap := if ttl < skew then period / 2.0 else (ttl - skew + period) / 2.0;
      PeriodFillsBucket(cfg, gap);
      var qs, everyone, k := EvictionVisible(lim, ttl, skew, cfg.capacity, gap);
      assert !SameAnswers(lim, ttl, Calls(qs, everyone));
    }
  }

  lemma LongTtlUnseen(lim: Limits, ttl: real, skew: real)
    requires lim.Valid() && (ttl - skew) * lim.rate >= lim.capacity
    ensures NoRunSees(lim, ttl, skew) && NoCallsSee(lim, ttl, skew)
  {
    forall steps: seq<Step> | WithinSkew(steps, skew)
      ensures SameAnswers(lim, ttl, steps)
    {
      forall k | 0 <= k < |steps| && steps[k].Consume?
        ensures EvictingAnswer(lim, ttl, steps, k) == KeepingAnswer(lim, steps, k)
      {
        EvictionInvisible(lim, ttl, skew, steps, k);
      }
    }
  }
}
