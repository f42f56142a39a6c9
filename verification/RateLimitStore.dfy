/** The per-client bucket map with lazy eviction, and when whole runs of it
    cannot tell that it forgets clients. One call sweeps stale buckets out and then consumes from its
    client's; between the two, and between the shards of a sweep, steps of
    other calls may come. A run is the sequence of these steps. */
module RateLimitStore {
  import opened RateLimit
  import BucketRuns

  type Buckets = map<string, Bucket>

  /** `created` is the second clock reading, taken only when a bucket is made. */
  datatype Request = Request(client: string, now: real, created: real)

  datatype Step = Sweep(now: real, clients: set<string>) | Consume(q: Request) {
    function At(): real {
      if Sweep? then now else q.now
    }
  }

  // ----- one call -----

  /** Of the given clients, those untouched since before the threshold go. */
  function Swept(m: Buckets, clients: set<string>, threshold: real): Buckets {
    map c | c in m && (c in clients ==> m[c].lastUpdate >= threshold) :: m[c]
  }

  function Lookup(m: Buckets, lim: Limits, q: Request): Bucket {
    if q.client in m then m[q.client] else NewFull(lim, q.created)
  }

  function Answer(m: Buckets, lim: Limits, q: Request): Verdict
    requires lim.Valid()
  {
    TryConsume(Lookup(m, lim, q), lim, q.now)
  }

  function Served(m: Buckets, lim: Limits, q: Request): Buckets
    requires lim.Valid()
  {
    m[q.client := Answer(m, lim, q).bucket]
  }

  class RateLimitStorage {
    var inner: Buckets
    const config: Config
    const ttl: real

    constructor (config: Config, ttl: real)
      ensures this.config == config && this.ttl == ttl && inner == map[]
    {
      this.config := config;
      this.ttl := ttl;
      inner := map[];
    }

    method CleanupStale(now: real)
      modifies this
      ensures inner == Swept(old(inner), old(inner).Keys, now - ttl)
    {
      var threshold := now - ttl;
      inner := map c | c in inner && inner[c].lastUpdate >= threshold :: inner[c];
    }

    /** Answers from the stored bucket or a full one, and stores what remains. */
    method ConsumeEntry(q: Request) returns (allowed: bool, retryAfter: nat)
      requires config.Valid()
      modifies this
      ensures inner == Served(old(inner), config.ToLimits(), q)
      ensures allowed == Answer(old(inner), config.ToLimits(), q).allowed
      ensures retryAfter == Answer(old(inner), config.ToLimits(), q).retryAfter
    {
      if q.client !in inner {
        inner := inner[q.client := NewFull(config.ToLimits(), q.created)];
      }
      var entry := inner[q.client];
      var verdict := TryConsume(entry, config.ToLimits(), q.now);
      if verdict.allowed || verdict.retryAfter > 0 {
        inner := inner[q.client := verdict.bucket];
      }
      return verdict.allowed, verdict.retryAfter;
    }

    /** With nothing in between, a call is a sweep of every client and a consume. */
    method CheckAndConsume(clientId: string, now: real, created: real)
      returns (allowed: bool, retryAfter: nat)
      requires config.Valid()
      modifies this
      ensures
        var lim, q := config.ToLimits(), Request(clientId, now, created);
        var steps := [Sweep(now, old(inner).Keys), Consume(q)];
        && inner == StepTaken(lim, ttl, StepTaken(lim, ttl, old(inner), steps[0]), steps[1])
        && allowed == Answer(StepTaken(lim, ttl, old(inner), steps[0]), lim, q).allowed
        && retryAfter == Answer(StepTaken(lim, ttl, old(inner), steps[0]), lim, q).retryAfter
    {
      CleanupStale(now);
      allowed, retryAfter := ConsumeEntry(Request(clientId, now, created));
    }
  }

  // ----- runs -----

  function StepTaken(lim: Limits, ttl: real, m: Buckets, step: Step): Buckets
    requires lim.Valid()
  {
    match step
    case Sweep(now, clients) => Swept(m, clients, now - ttl)
    case Consume(q) => Served(m, lim, q)
  }

  /** The store after the first k steps. */
  function Evicting(lim: Limits, ttl: real, steps: seq<Step>, k: nat): Buckets
    requires lim.Valid() && k <= |steps|
  {
    if k == 0 then map[] else StepTaken(lim, ttl, Evicting(lim, ttl, steps, k - 1), steps[k - 1])
  }

  function StepKept(lim: Limits, m: Buckets, step: Step): Buckets
    requires lim.Valid()
  {
    match step
    case Sweep(_, _) => m
    case Consume(q) => Served(m, lim, q)
  }

  /** The same for a store that never forgets a client. */
  function Keeping(lim: Limits, steps: seq<Step>, k: nat): Buckets
    requires lim.Valid() && k <= |steps|
  {
    if k == 0 then map[] else StepKept(lim, Keeping(lim, steps, k - 1), steps[k - 1])
  }

  function EvictingAnswer(lim: Limits, ttl: real, steps: seq<Step>, k: nat): Verdict
    requires lim.Valid() && k < |steps| && steps[k].Consume?
  {
    Answer(Evicting(lim, ttl, steps, k), lim, steps[k].q)
  }

  function KeepingAnswer(lim: Limits, steps: seq<Step>, k: nat): Verdict
    requires lim.Valid() && k < |steps| && steps[k].Consume?
  {
    Answer(Keeping(lim, steps, k), lim, steps[k].q)
  }

  ghost predicate AllInRange(m: Buckets, lim: Limits) {
    forall c :: c in m ==> InRange(m[c], lim)
  }

  lemma ServedInRange(m: Buckets, lim: Limits, q: Request)
    requires lim.Valid() && AllInRange(m, lim)
    ensures AllInRange(Served(m, lim, q), lim)
  {
    TokensStayInRange(Lookup(m, lim, q), lim, q.now);
  }

  /** Whatever the ttl, the interleaving and the clocks, the store only ever
      holds token counts within [0, capacity]. */
  lemma {:induction false} TokensInRange(lim: Limits, ttl: real, steps: seq<Step>, k: nat)
    requires lim.Valid() && k <= |steps|
    ensures AllInRange(Evicting(lim, ttl, steps, k), lim) && AllInRange(Keeping(lim, steps, k), lim)
  {
    if k > 0 {
      TokensInRange(lim, ttl, steps, k - 1);
      if steps[k - 1].Consume? {
        ServedInRange(Evicting(lim, ttl, steps, k - 1), lim, steps[k - 1].q);
        ServedInRange(Keeping(lim, steps, k - 1), lim, steps[k - 1].q);
      }
    }
  }

  // ----- eviction is invisible exactly when ttl >= period + skew -----

  predicate ReadsWithin(sweep: Step, consume: Step, skew: real) {
    sweep.Sweep? && consume.Consume? ==> consume.At() >= sweep.At() - skew
  }

  /** No request is consumed with a clock reading more than `skew` older than
      that of a sweep before it. Clocks are otherwise arbitrary. */
  ghost predicate WithinSkew(steps: seq<Step>, skew: real) {
    forall p, k :: 0 <= p < k < |steps| ==> ReadsWithin(steps[p], steps[k], skew)
  }

  predicate FindsStale(step: Step, ttl: real, b: Bucket) {
    step.Sweep? && b.lastUpdate < step.At() - ttl
  }

  /** Some sweep before step k found the bucket stale. */
  ghost predicate StaleSince(b: Bucket, ttl: real, steps: seq<Step>, k: nat)
    requires k <= |steps|
  {
    exists p :: 0 <= p < k && FindsStale(steps[p], ttl, b)
  }

  /** The evicting store agrees with the keeping one, except for clients that a
      sweep has found stale. */
  ghost predicate Forgets(small: Buckets, big: Buckets, ttl: real, steps: seq<Step>, k: nat)
    requires k <= |steps|
  {
    && (forall c :: c in small ==> c in big && small[c] == big[c])
    && (forall c :: c in big && c !in small ==> StaleSince(big[c], ttl, steps, k))
  }

  /** A bucket idle for a full refill and a fresh one give the same verdict,
      whatever instant the fresh one was made at. */
  lemma SameAnswer(small: Buckets, big: Buckets, lim: Limits, idle: real, q: Request)
    requires lim.Valid() && AllInRange(big, lim) && idle * lim.rate >= lim.capacity
    requires q.client in small ==> q.client in big && small[q.client] == big[q.client]
    requires q.client in big && q.client !in small ==> q.now - big[q.client].lastUpdate >= idle
    ensures Answer(small, lim, q) == Answer(big, lim, q)
  {
    if q.client !in small {
      TokensStayInRange(NewFull(lim, q.created), lim, q.now);
      if q.client in big {
        FullAfterLongIdle(big[q.client], lim, q.now, idle);
      }
    }
  }

  lemma StaleLater(b: Bucket, ttl: real, steps: seq<Step>, k: nat)
    requires k < |steps| && StaleSince(b, ttl, steps, k)
    ensures StaleSince(b, ttl, steps, k + 1)
  {
  }

  lemma SweepForgets(small: Buckets, big: Buckets, ttl: real, steps: seq<Step>, k: nat)
    requires k < |steps| && steps[k].Sweep? && Forgets(small, big, ttl, steps, k)
    ensures Forgets(Swept(small, steps[k].clients, steps[k].now - ttl), big, ttl, steps, k + 1)
  {
    forall c | c in big && c !in Swept(small, steps[k].clients, steps[k].now - ttl)
      ensures StaleSince(big[c], ttl, steps, k + 1)
    {
      if c in small {
        assert FindsStale(steps[k], ttl, big[c]);
      } else {
        StaleLater(big[c], ttl, steps, k);
      }
    }
  }

  lemma ConsumeForgets(small: Buckets, big: Buckets, lim: Limits, ttl: real, skew: real, steps: seq<Step>, k: nat)
    requires lim.Valid() && k < |steps| && steps[k].Consume? && WithinSkew(steps, skew)
    requires (ttl - skew) * lim.rate >= lim.capacity
    requires AllInRange(big, lim) && Forgets(small, big, ttl, steps, k)
    ensures Answer(small, lim, steps[k].q) == Answer(big, lim, steps[k].q)
    ensures Forgets(Served(small, lim, steps[k].q), Served(big, lim, steps[k].q), ttl, steps, k + 1)
  {
    var q := steps[k].q;
    if q.client in big && q.client !in small {
      var p :| 0 <= p < k && FindsStale(steps[p], ttl, big[q.client]);
      assert ReadsWithin(steps[p], steps[k], skew);
    }
    SameAnswer(small, big, lim, ttl - skew, q);
    forall c | c in big && c !in small
      ensures StaleSince(big[c], ttl, steps, k + 1)
    {
      StaleLater(big[c], ttl, steps, k);
    }
  }

  lemma StepForgets(small: Buckets, big: Buckets, lim: Limits, ttl: real, skew: real, steps: seq<Step>, k: nat)
    requires lim.Valid() && k < |steps| && WithinSkew(steps, skew)
    requires (ttl - skew) * lim.rate >= lim.capacity
    requires AllInRange(big, lim) && Forgets(small, big, ttl, steps, k)
    ensures Forgets(StepTaken(lim, ttl, small, steps[k]), StepKept(lim, big, steps[k]), ttl, steps, k + 1)
  {
    if steps[k].Sweep? {
      SweepForgets(small, big, ttl, steps, k);
    } else {
      ConsumeForgets(small, big, lim, ttl, skew, steps, k);
    }
  }

  lemma {:induction false} EvictingForgets(lim: Limits, ttl: real, skew: real, steps: seq<Step>, k: nat)
    requires lim.Valid() && WithinSkew(steps, skew) && k <= |steps|
    requires (ttl - skew) * lim.rate >= lim.capacity
    ensures Forgets(Evicting(lim, ttl, steps, k), Keeping(lim, steps, k), ttl, steps, k)
  {
    if k > 0 {
      EvictingForgets(lim, ttl, skew, steps, k - 1);
      TokensInRange(lim, ttl, steps, k - 1);
      StepForgets(Evicting(lim, ttl, steps, k - 1), Keeping(lim, steps, k - 1), lim, ttl, skew, steps, k - 1);
    }
  }

  /** When the ttl outlasts the skew by a full refill, no interleaving of calls,
      clients and sweeps can tell the store from one that never evicts. */
  lemma EvictionInvisible(lim: Limits, ttl: real, skew: real, steps: seq<Step>, k: nat)
    requires lim.Valid() && WithinSkew(steps, skew) && k < |steps| && steps[k].Consume?
    requires (ttl - skew) * lim.rate >= lim.capacity
    ensures EvictingAnswer(lim, ttl, steps, k) == KeepingAnswer(lim, steps, k)
  {
    EvictingForgets(lim, ttl, skew, steps, k);
    TokensInRange(lim, ttl, steps, k);
    ConsumeForgets(Evicting(lim, ttl, steps, k), Keeping(lim, steps, k), lim, ttl, skew, steps, k);
  }

  // ----- runs of whole calls -----

  /** Calls one after another, each sweeping `everyone` before it consumes. The
      clock is read before a call begins, so readings need not be in order. */
  function Calls(qs: seq<Request>, everyone: set<string>): (steps: seq<Step>)
    ensures |steps| == 2 * |qs|
  {
    seq(2 * |qs|, k requires 0 <= k < 2 * |qs| =>
      if k % 2 == 0 then Sweep(qs[k / 2].now, everyone) else Consume(qs[k / 2]))
  }

  predicate AllIn(qs: seq<Request>, everyone: set<string>) {
    forall j :: 0 <= j < |qs| ==> qs[j].client in everyone
  }

  lemma {:induction false} OnlyKnown(lim: Limits, ttl: real, qs: seq<Request>, everyone: set<string>, k: nat)
    requires lim.Valid() && AllIn(qs, everyone) && k <= 2 * |qs|
    ensures Evicting(lim, ttl, Calls(qs, everyone), k).Keys <= everyone
  {
    if k > 0 {
      OnlyKnown(lim, ttl, qs, everyone, k - 1);
    }
  }

  lemma SweepOfAll(m: Buckets, everyone: set<string>, threshold: real)
    requires m.Keys <= everyone
    ensures Swept(m, everyone, threshold) == Swept(m, m.Keys, threshold)
  {
  }

  /** Each of these calls does what CheckAndConsume does. */
  lemma CallsAreWhole(lim: Limits, ttl: real, qs: seq<Request>, everyone: set<string>, j: nat)
    requires lim.Valid() && AllIn(qs, everyone) && j < |qs|
    ensures
      var steps, q := Calls(qs, everyone), qs[j];
      var before := Evicting(lim, ttl, steps, 2 * j);
      && steps[2 * j + 1] == Consume(q)
      && Evicting(lim, ttl, steps, 2 * j + 1) == StepTaken(lim, ttl, before, Sweep(q.now, before.Keys))
      && Evicting(lim, ttl, steps, 2 * j + 2) == StepTaken(lim, ttl, Evicting(lim, ttl, steps, 2 * j + 1), Consume(q))
  {
    var steps, q := Calls(qs, everyone), qs[j];
    assert steps[2 * j] == Sweep(q.now, everyone) && steps[2 * j + 1] == Consume(q);
    OnlyKnown(lim, ttl, qs, everyone, 2 * j);
    SweepOfAll(Evicting(lim, ttl, steps, 2 * j), everyone, q.now - ttl);
  }
}
