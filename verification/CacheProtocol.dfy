/** The cache-aside protocol of the link handlers as interleaved atomic steps:
    cache read, repository read, cache fill, repository write, invalidation.
    Each request may stop at any point, and must have stopped once the request
    timeout is over. A cache write that its request has given up on may still
    land up to `lag` later, or never. Entries are keyed by code; see Cache.LinkKeyInjective. */
module CacheProtocol {
  import opened Domain
  import opened Cache

  datatype Config = Config(cache: CacheConfig, timeout: nat, lag: nat, checksVersion: bool) {
    /** How old an answer can be, in nanoseconds. */
    function MaxAge(): int {
      timeout + lag + MaxTtl(cache) * NANOS_PER_SEC
    }
  }

  datatype LinkResponse = LinkResponse(
    code: string, targetUrl: string, createdAtUnix: nat, expiresAtUnix: Option<nat>, hits: nat, version: int)

  function ToResponse(stats: LinkStats): LinkResponse {
    var link := stats.link;
    LinkResponse(link.code, link.targetUrl, UnixSecs(link.createdAt),
                 if link.expiresAt.Some? then Some(UnixSecs(link.expiresAt.value)) else None,
                 stats.hits, link.version)
  }

  /** Where a request stands. `Wrote` is a writer between its repository write
      and its invalidation. `Replied` keeps the answer and the instant at which
      it was taken from the cache or from the repository. */
  datatype Stage =
    | GetStarted
    | GetMissed
    | GetRead(response: LinkResponse, readAt: Timestamp)
    | Replied(answer: Option<LinkResponse>, takenAt: Timestamp)
    | UpdateStarted(targetUrl: string, expected: int)
    | DeleteStarted
    | RedirectStarted
    | RedirectChecked
    | Wrote

  datatype Request = Request(code: string, start: Timestamp, stage: Stage)

  /** A time to live as SETEX takes it: at least one second. */
  type Ttl = t: int | t >= 1 witness 1

  /** A cache write its request no longer waits for. */
  datatype LateWrite = LateWrite(code: string, response: LinkResponse, ttl: Ttl, until: Timestamp)

  datatype State = State(
    clock: Timestamp,
    repo: map<string, LinkStats>,
    cache: map<string, Entry<LinkResponse>>,
    reqs: map<nat, Request>,
    late: multiset<LateWrite>)

  datatype Event =
    | Tick(now: Timestamp)
    | Begin(id: nat, code: string, stage: Stage)
    | CacheHit(id: nat)
    | CacheMiss(id: nat)
    | RepoRead(id: nat)
    | Fill(id: nat, ttl: Ttl)
    | FillLost(id: nat, ttl: Ttl)
    | LateFill(write: LateWrite)
    | Evict(code: string)
    | UpdateRepo(id: nat)
    | DeleteRepo(id: nat)
    | CheckExpiry(id: nat)
    | RecordHit(id: nat)
    | Invalidate(id: nat)
    | InvalidateLost(id: nat)
    | Drop(id: nat)
    | Insert(link: ShortLink)
    | Purge

  /** What the repository answers for a code right now. */
  function View(s: State, code: string): Option<LinkResponse> {
    if code in s.repo then Some(ToResponse(s.repo[code])) else None
  }

  function Cached(s: State, code: string): Option<LinkResponse> {
    Lookup(s.cache, code, s.clock)
  }

  predicate At(s: State, id: nat, p: Stage -> bool) {
    id in s.reqs && p(s.reqs[id].stage)
  }

  predicate Legal(cfg: Config, s: State, e: Event) {
    match e
    case Tick(now) => s.clock <= now && forall id :: id in s.reqs ==> now <= s.reqs[id].start + cfg.timeout
    case Begin(id, _, stage) =>
      id !in s.reqs && (stage.GetStarted? || stage.UpdateStarted? || stage.DeleteStarted? || stage.RedirectStarted?)
    case CacheHit(id) => At(s, id, (g: Stage) => g.GetStarted?) && Cached(s, s.reqs[id].code).Some?
    case CacheMiss(id) => At(s, id, (g: Stage) => g.GetStarted?)
    case RepoRead(id) => At(s, id, (g: Stage) => g.GetMissed?)
    case Fill(id, ttl) => At(s, id, (g: Stage) => g.GetRead?) && ttl <= MaxTtl(cfg.cache)
    case FillLost(id, ttl) => At(s, id, (g: Stage) => g.GetRead?) && ttl <= MaxTtl(cfg.cache)
    case LateFill(write) => write in s.late && s.clock <= write.until
    case Evict(code) => true
    case UpdateRepo(id) => At(s, id, (g: Stage) => g.UpdateStarted?)
    case DeleteRepo(id) => At(s, id, (g: Stage) => g.DeleteStarted?)
    case CheckExpiry(id) => At(s, id, (g: Stage) => g.RedirectStarted?)
    case RecordHit(id) => At(s, id, (g: Stage) => g.RedirectChecked?)
    case Invalidate(id) => At(s, id, (g: Stage) => g.Wrote?)
    case InvalidateLost(id) => At(s, id, (g: Stage) => g.Wrote?)
    case Drop(id) => id in s.reqs
    case Insert(link) => true
    case Purge => true
  }

  function Moved(s: State, id: nat, stage: Stage): State
    requires id in s.reqs
  {
    s.(reqs := s.reqs[id := s.reqs[id].(stage := stage)])
  }

  function Ended(s: State, id: nat): State {
    s.(reqs := s.reqs - {id})
  }

  function Updated(stats: LinkStats, targetUrl: string, now: Timestamp): LinkStats {
    stats.(link := stats.link.(targetUrl := targetUrl, updatedAt := now, version := stats.link.version + 1))
  }

  function Next(cfg: Config, s: State, e: Event): State
    requires Legal(cfg, s, e)
  {
    match e
    case Tick(now) => s.(clock := now)
    case Begin(id, code, stage) => s.(reqs := s.reqs[id := Request(code, s.clock, stage)])
    case CacheHit(id) => Moved(s, id, Replied(Cached(s, s.reqs[id].code), s.clock))
    case CacheMiss(id) => Moved(s, id, GetMissed)
    case RepoRead(id) =>
      (match View(s, s.reqs[id].code)
       case Some(response) => Moved(s, id, GetRead(response, s.clock))
       case None => Moved(s, id, Replied(None, s.clock)))
    case Fill(id, ttl) =>
      var response := s.reqs[id].stage.response;
      Moved(s, id, Replied(Some(response), s.reqs[id].stage.readAt))
        .(cache := Stored(s.cache, s.reqs[id].code, response, ttl, s.clock))
    case FillLost(id, ttl) =>
      var response := s.reqs[id].stage.response;
      Moved(s, id, Replied(Some(response), s.reqs[id].stage.readAt))
        .(late := s.late + multiset{LateWrite(s.reqs[id].code, response, ttl, s.clock + cfg.lag)})
    case LateFill(write) =>
      s.(cache := Stored(s.cache, write.code, write.response, write.ttl, s.clock), late := s.late - multiset{write})
    case Evict(code) => s.(cache := s.cache - {code})
    case UpdateRepo(id) =>
      var code, stage := s.reqs[id].code, s.reqs[id].stage;
      if code in s.repo && (!cfg.checksVersion || s.repo[code].link.version == stage.expected) then
        Moved(s, id, Wrote).(repo := s.repo[code := Updated(s.repo[code], stage.targetUrl, s.clock)])
      else Ended(s, id)
    case DeleteRepo(id) =>
      var code := s.reqs[id].code;
      if code in s.repo then Moved(s, id, Wrote).(repo := s.repo - {code}) else Ended(s, id)
    case CheckExpiry(id) =>
      var code := s.reqs[id].code;
      if code in s.repo && !s.repo[code].link.IsExpired(s.clock) then Moved(s, id, RedirectChecked)
      else Ended(s, id)
    case RecordHit(id) =>
      var code := s.reqs[id].code;
      if code in s.repo then
        Moved(s, id, Wrote).(repo := s.repo[code := s.repo[code].(hits := s.repo[code].hits + 1)])
      else Ended(s, id)
    case Invalidate(id) => Ended(s, id).(cache := s.cache - {s.reqs[id].code})
    case InvalidateLost(id) => Ended(s, id)
    case Drop(id) => Ended(s, id)
    case Insert(link) =>
      if link.code in s.repo then s else s.(repo := s.repo[link.code := LinkStats(link, 0)])
    case Purge => s.(repo := map c | c in s.repo && !s.repo[c].link.IsExpired(s.clock) :: s.repo[c])
  }

  ghost predicate StepAt(cfg: Config, states: seq<State>, events: seq<Event>, i: nat)
    requires i < |events| && |states| == |events| + 1
  {
    Legal(cfg, states[i], events[i]) && states[i + 1] == Next(cfg, states[i], events[i])
  }

  /** A run from any repository contents, an empty cache and nothing under way. */
  ghost predicate IsRun(cfg: Config, states: seq<State>, events: seq<Event>) {
    && |states| == |events| + 1
    && states[0].cache == map[] && states[0].reqs == map[] && states[0].late == multiset{}
    && (forall i :: 0 <= i < |events| ==> StepAt(cfg, states, events, i))
  }

  // ----- bounded staleness -----

  /** At some instant up to state i, no earlier than `since`, the repository
      gave this answer for this code. */
  ghost predicate Seen(states: seq<State>, i: nat, code: string, answer: Option<LinkResponse>, since: Timestamp)
    requires i < |states|
  {
    exists j :: 0 <= j <= i && states[j].clock >= since && View(states[j], code) == answer
  }

  ghost predicate CacheTraced(cfg: Config, states: seq<State>, i: nat)
    requires i < |states|
  {
    forall c :: c in states[i].cache ==>
      Seen(states, i, c, Some(states[i].cache[c].value), states[i].cache[c].expires - cfg.MaxAge())
  }

  ghost predicate StageTraced(cfg: Config, states: seq<State>, i: nat, r: Request)
    requires i < |states|
  {
    match r.stage
    case GetRead(response, readAt) =>
      r.start <= readAt <= states[i].clock && Seen(states, i, r.code, Some(response), readAt)
    case Replied(answer, takenAt) =>
      r.start <= takenAt <= states[i].clock && Seen(states, i, r.code, answer, takenAt - cfg.MaxAge())
    case _ => true
  }

  ghost predicate RequestsTraced(cfg: Config, states: seq<State>, i: nat)
    requires i < |states|
  {
    forall id :: id in states[i].reqs ==>
      && states[i].reqs[id].start <= states[i].clock <= states[i].reqs[id].start + cfg.timeout
      && StageTraced(cfg, states, i, states[i].reqs[id])
  }

  ghost predicate LateTraced(cfg: Config, states: seq<State>, i: nat)
    requires i < |states|
  {
    forall w :: w in states[i].late ==>
      && w.ttl <= MaxTtl(cfg.cache)
      && Seen(states, i, w.code, Some(w.response), w.until - cfg.lag - cfg.timeout)
  }

  lemma LateStep(cfg: Config, states: seq<State>, i: nat, e: Event)
    requires i + 1 < |states| && Legal(cfg, states[i], e) && states[i + 1] == Next(cfg, states[i], e)
    requires LateTraced(cfg, states, i) && RequestsTraced(cfg, states, i)
    ensures LateTraced(cfg, states, i + 1)
  {
  }

  /** How one step can leave a cache entry: as it was, or just written. */
  ghost predicate EntryEffect(cfg: Config, s: State, e: Event, c: string, entry: Entry<LinkResponse>) {
    || (c in s.cache && entry == s.cache[c])
    || (&& e.LateFill? && e.write in s.late && s.clock <= e.write.until && c == e.write.code
        && entry == Entry(e.write.response, s.clock + e.write.ttl * NANOS_PER_SEC))
    || (&& e.Fill? && e.id in s.reqs && s.reqs[e.id].stage.GetRead? && c == s.reqs[e.id].code
        && e.ttl <= MaxTtl(cfg.cache)
        && entry == Entry(s.reqs[e.id].stage.response, s.clock + e.ttl * NANOS_PER_SEC))
  }

  lemma StepEntry(cfg: Config, s: State, e: Event, c: string)
    requires Legal(cfg, s, e) && c in Next(cfg, s, e).cache
    ensures EntryEffect(cfg, s, e, c, Next(cfg, s, e).cache[c])
  {
  }

  lemma EntryStep(cfg: Config, states: seq<State>, i: nat, e: Event, c: string, entry: Entry<LinkResponse>)
    requires i + 1 < |states| && EntryEffect(cfg, states[i], e, c, entry)
    requires CacheTraced(cfg, states, i) && LateTraced(cfg, states, i) && RequestsTraced(cfg, states, i)
    ensures Seen(states, i + 1, c, Some(entry.value), entry.expires - cfg.MaxAge())
  {
  }

  lemma CacheStep(cfg: Config, states: seq<State>, i: nat, e: Event)
    requires i + 1 < |states| && Legal(cfg, states[i], e) && states[i + 1] == Next(cfg, states[i], e)
    requires CacheTraced(cfg, states, i) && LateTraced(cfg, states, i) && RequestsTraced(cfg, states, i)
    ensures CacheTraced(cfg, states, i + 1)
  {
    var after := states[i + 1].cache;
    forall c | c in after
      ensures Seen(states, i + 1, c, Some(after[c].value), after[c].expires - cfg.MaxAge())
    {
      StepEntry(cfg, states[i], e, c);
      EntryStep(cfg, states, i, e, c, after[c]);
    }
  }

  /** How one step can leave a request: as it was, without an answer, or by
      taking one. */
  ghost predicate StageEffect(s: State, e: Event, id: nat, r: Request) {
    || (id in s.reqs && r == s.reqs[id])
    || !(r.stage.GetRead? || r.stage.Replied?)
    || (&& id in s.reqs && r.code == s.reqs[id].code && r.start == s.reqs[id].start
        && match e
           case CacheHit(_) =>
             r.stage == Replied(Cached(s, r.code), s.clock) && Cached(s, r.code).Some?
           case RepoRead(_) =>
             || r.stage == Replied(View(s, r.code), s.clock)
             || (View(s, r.code).Some? && r.stage == GetRead(View(s, r.code).value, s.clock))
           case Fill(_, _) =>
             s.reqs[id].stage.GetRead?
             && r.stage == Replied(Some(s.reqs[id].stage.response), s.reqs[id].stage.readAt)
           case FillLost(_, _) =>
             s.reqs[id].stage.GetRead?
             && r.stage == Replied(Some(s.reqs[id].stage.response), s.reqs[id].stage.readAt)
           case _ => false)
  }

  lemma StepEffect(cfg: Config, s: State, e: Event, id: nat)
    requires Legal(cfg, s, e) && id in Next(cfg, s, e).reqs
    ensures StageEffect(s, e, id, Next(cfg, s, e).reqs[id])
  {
  }

  lemma DeadlinesStep(cfg: Config, s: State, e: Event, id: nat)
    requires Legal(cfg, s, e)
    requires id in Next(cfg, s, e).reqs
    requires forall id :: id in s.reqs ==> s.reqs[id].start <= s.clock <= s.reqs[id].start + cfg.timeout
    ensures
      var t := Next(cfg, s, e);
      s.clock <= t.clock && t.reqs[id].start <= t.clock <= t.reqs[id].start + cfg.timeout
  {
  }

  lemma StageStep(cfg: Config, states: seq<State>, i: nat, e: Event, id: nat, r: Request)
    requires i + 1 < |states| && states[i].clock <= states[i + 1].clock
    requires StageEffect(states[i], e, id, r)
    requires id in states[i].reqs ==> StageTraced(cfg, states, i, states[i].reqs[id])
    requires id in states[i].reqs ==> states[i].reqs[id].start <= states[i].clock
    requires CacheTraced(cfg, states, i)
    ensures StageTraced(cfg, states, i + 1, r)
  {
  }

  lemma RequestsStep(cfg: Config, states: seq<State>, i: nat, e: Event)
    requires i + 1 < |states| && Legal(cfg, states[i], e) && states[i + 1] == Next(cfg, states[i], e)
    requires CacheTraced(cfg, states, i) && RequestsTraced(cfg, states, i)
    ensures RequestsTraced(cfg, states, i + 1)
  {
    var t := states[i + 1];
    forall id | id in t.reqs
      ensures t.reqs[id].start <= t.clock <= t.reqs[id].start + cfg.timeout
      ensures StageTraced(cfg, states, i + 1, t.reqs[id])
    {
      StepEffect(cfg, states[i], e, id);
      DeadlinesStep(cfg, states[i], e, id);
      StageStep(cfg, states, i, e, id, t.reqs[id]);
    }
  }

  lemma {:induction false} RunTraced(cfg: Config, states: seq<State>, events: seq<Event>, i: nat)
    requires IsRun(cfg, states, events) && i < |states|
    ensures CacheTraced(cfg, states, i) && LateTraced(cfg, states, i) && RequestsTraced(cfg, states, i)
  {
    if i > 0 {
      RunTraced(cfg, states, events, i - 1);
      assert StepAt(cfg, states, events, i - 1);
      CacheStep(cfg, states, i - 1, events[i - 1]);
      LateStep(cfg, states, i - 1, events[i - 1]);
      RequestsStep(cfg, states, i - 1, events[i - 1]);
    }
  }

  /** Bounded staleness, over all interleavings: every answer of `get_link`,
      a not-found included, is what the repository answered for that code at
      some instant at most timeout + lag + max(1, ttl + jitter) before the answer
      was taken; and it was taken within the request. */
  lemma BoundedStaleness(cfg: Config, states: seq<State>, events: seq<Event>, i: nat, id: nat)
    requires IsRun(cfg, states, events) && i < |states|
    requires id in states[i].reqs && states[i].reqs[id].stage.Replied?
    ensures
      var r := states[i].reqs[id];
      && r.start <= r.stage.takenAt <= states[i].clock <= r.start + cfg.timeout
      && Seen(states, i, r.code, r.stage.answer, r.stage.takenAt - cfg.MaxAge())
  {
    RunTraced(cfg, states, events, i);
    assert StageTraced(cfg, states, i, states[i].reqs[id]);
  }

  lemma ClockStep(cfg: Config, s: State, e: Event)
    requires Legal(cfg, s, e)
    ensures s.clock <= Next(cfg, s, e).clock
  {
  }

  lemma {:induction false} ClockMonotone(states: seq<State>, i: nat, j: nat)
    requires forall k :: 0 <= k < |states| - 1 ==> states[k].clock <= states[k + 1].clock
    requires i <= j < |states|
    ensures states[i].clock <= states[j].clock
  {
    if i < j {
      ClockMonotone(states, i, j - 1);
    }
  }

  /** Once a code has been left alone for longer than that, answers taken for
      it are current, however the fills and invalidations before were lost or
      reordered. */
  lemma QuietCodeIsCurrent(cfg: Config, states: seq<State>, events: seq<Event>, quiet: nat, i: nat, id: nat)
    requires IsRun(cfg, states, events) && quiet <= i < |states|
    requires id in states[i].reqs && states[i].reqs[id].stage.Replied?
    requires
      forall j :: quiet <= j <= i ==>
        View(states[j], states[i].reqs[id].code) == View(states[i], states[i].reqs[id].code)
    requires states[i].reqs[id].stage.takenAt - cfg.MaxAge() > states[quiet].clock
    ensures states[i].reqs[id].stage.answer == View(states[i], states[i].reqs[id].code)
  {
    var r := states[i].reqs[id];
    BoundedStaleness(cfg, states, events, i, id);
    var j :| 0 <= j <= i && states[j].clock >= r.stage.takenAt - cfg.MaxAge()
          && View(states[j], r.code) == r.stage.answer;
    if j < quiet {
      forall k | 0 <= k < |events|
        ensures states[k].clock <= states[k + 1].clock
      {
        assert StepAt(cfg, states, events, k);
        ClockStep(cfg, states[k], events[k]);
      }
      ClockMonotone(states, j, quiet);
    }
  }
}
