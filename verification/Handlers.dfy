/** The HTTP handlers one at a time: what each does to the repository and the
    cache when nothing runs beside it, and the generation of fresh codes. */
module Handlers {
  import opened Domain
  import opened Cache
  import opened CacheProtocol
  import Memory = InMemoryRepo

  function Answer(r: Memory.Repo, code: string): Option<LinkResponse> {
    if code in r.links then Some(ToResponse(LinkStats(r.links[code].link, r.links[code].hits))) else None
  }

  /** The response gives the link, in whole seconds where it gives times. */
  predicate Describes(response: LinkResponse, link: ShortLink, hits: nat) {
    && response.code == link.code && response.targetUrl == link.targetUrl
    && response.version == link.version && response.hits == hits
    && response.createdAtUnix == UnixSecs(link.createdAt)
    && (response.expiresAtUnix.Some? <==> link.expiresAt.Some?)
    && (link.expiresAt.Some? ==> response.expiresAtUnix.value == UnixSecs(link.expiresAt.value))
  }

  /** Whatever the cache still serves is what the repository would answer. */
  ghost predicate InSync(r: Memory.Repo, entries: map<string, Entry<LinkResponse>>, now: Timestamp) {
    forall code :: Lookup(entries, LinkKey(code), now).Some? ==> Lookup(entries, LinkKey(code), now) == Answer(r, code)
  }

  /** A cache without a connection has never stored anything. */
  ghost predicate Sound(cache: CacheClient<LinkResponse>)
    reads cache
  {
    cache.connected || cache.entries == map[]
  }

  lemma StoredInSync(r: Memory.Repo, entries: map<string, Entry<LinkResponse>>, code: string,
                     value: LinkResponse, ttl: nat, now: Timestamp)
    requires InSync(r, entries, now) && Answer(r, code) == Some(value)
    ensures InSync(r, Stored(entries, LinkKey(code), value, ttl, now), now)
  {
    forall c | LinkKey(c) == LinkKey(code)
      ensures c == code
    {
      LinkKeyInjective(c, code);
    }
  }

  /** A change to one code, followed by the invalidation of its key. */
  lemma InvalidatedInSync(r: Memory.Repo, r': Memory.Repo, entries: map<string, Entry<LinkResponse>>,
                          code: string, now: Timestamp)
    requires InSync(r, entries, now)
    requires forall c :: c != code ==> Answer(r', c) == Answer(r, c)
    ensures InSync(r', entries - {LinkKey(code)}, now)
  {
  }

  /** From a cache in sync, the answer is the repository's, cached or not, and
      the cache stays in sync whether or not its operations get through. */
  method GetLink(repo: Memory.InMemoryRepo, cache: CacheClient<LinkResponse>, code: string,
                 now: Timestamp, getOk: bool, setOk: bool, offset: int)
    returns (r: Result<LinkResponse, RepoError>)
    requires InSync(repo.Value(), cache.entries, now) && Sound(cache)
    requires -(cache.config.jitterSecs as int) <= offset <= cache.config.jitterSecs
    modifies cache
    ensures InSync(repo.Value(), cache.entries, now) && Sound(cache)
    ensures r == match Answer(repo.Value(), code) case Some(a) => Ok(a) case None => Err(NotFound(code))
    ensures r.Ok? ==> code in repo.inner && Describes(r.value, repo.inner[code].link, repo.inner[code].hits)
  {
    var key := LinkKey(code);
    var cached := cache.Get(key, now, getOk);
    if cached.Some? {
      return Ok(cached.value);
    }
    var stats := repo.Stats(code);
    if stats.Err? {
      return Err(stats.error);
    }
    var response := ToResponse(stats.value);
    StoredInSync(repo.Value(), cache.entries, code, response, JitteredTtl(cache.config, offset), now);
    cache.Set(key, response, now, offset, setOk);
    return Ok(response);
  }

  /** The response to an update gives the link as it now is, but with no hits
      whatever it has. */
  method UpdateLink(repo: Memory.InMemoryRepo, cache: CacheClient<LinkResponse>, code: string,
                    targetUrl: string, now: Timestamp, ok: bool)
    returns (r: Result<LinkResponse, RepoError>)
    requires repo.Value().Valid() && InSync(repo.Value(), cache.entries, now) && Sound(cache)
    modifies repo, cache
    ensures repo.Value().Valid() && Sound(cache)
    ensures repo.Value() == Memory.Updated(old(repo.Value()), code, targetUrl, now)
    ensures code !in old(repo.inner) ==> r == Err(NotFound(code)) && repo.Value() == old(repo.Value())
    ensures code in old(repo.inner) ==>
      && code in repo.inner && r.Ok? && Describes(r.value, repo.inner[code].link, 0)
      && r.value.targetUrl == targetUrl && r.value.version == old(repo.inner)[code].link.version + 1
      && repo.inner[code].hits == old(repo.inner)[code].hits
    ensures ok ==> InSync(repo.Value(), cache.entries, now)
  {
    ghost var before := repo.Value();
    InvalidatedInSync(before, Memory.Updated(before, code, targetUrl, now), cache.entries, code, now);
    var link := repo.Update(code, targetUrl, now);
    if link.Err? {
      return Err(link.error);
    }
    cache.Invalidate(LinkKey(code), ok);
    return Ok(ToResponse(LinkStats(link.value, 0)));
  }

  method DeleteLink(repo: Memory.InMemoryRepo, cache: CacheClient<LinkResponse>, code: string,
                    now: Timestamp, ok: bool)
    returns (r: Result<(), RepoError>)
    requires repo.Value().Valid() && InSync(repo.Value(), cache.entries, now) && Sound(cache)
    modifies repo, cache
    ensures repo.Value().Valid() && Sound(cache)
    ensures repo.Value() == Memory.Removed(old(repo.Value()), code)
    ensures code !in repo.inner && forall c :: c != code ==> (c in repo.inner <==> c in old(repo.inner))
    ensures r == if code in old(repo.inner) then Ok(()) else Err(NotFound(code))
    ensures ok ==> InSync(repo.Value(), cache.entries, now)
  {
    ghost var before := repo.Value();
    InvalidatedInSync(before, Memory.Removed(before, code), cache.entries, code, now);
    r := repo.Remove(code);
    if r.Err? {
      assert before.links == before.links - {code};
      return;
    }
    cache.Invalidate(LinkKey(code), ok);
  }

  /** Leads to the target of a stored link that has not expired, and counts the
      hit only then. */
  method Redirect(repo: Memory.InMemoryRepo, cache: CacheClient<LinkResponse>, code: string,
                  now: Timestamp, ok: bool)
    returns (r: Result<string, RepoError>)
    requires repo.Value().Valid() && InSync(repo.Value(), cache.entries, now) && Sound(cache)
    modifies repo, cache
    ensures repo.Value().Valid() && Sound(cache)
    ensures
      var leads := code in old(repo.inner) && !old(repo.inner)[code].link.IsExpired(now);
      && r == (if leads then Ok(old(repo.inner)[code].link.targetUrl) else Err(NotFound(code)))
      && repo.Value() == if leads then Memory.HitRecorded(old(repo.Value()), code, now) else old(repo.Value())
    ensures ok ==> InSync(repo.Value(), cache.entries, now)
  {
    ghost var before := repo.Value();
    var link := repo.Get(code);
    if link.Err? {
      return Err(link.error);
    }
    if link.value.IsExpired(now) {
      return Err(NotFound(code));
    }
    InvalidatedInSync(before, Memory.HitRecorded(before, code, now), cache.entries, code, now);
    var hits := repo.RecordHit(code, now);
    cache.Invalidate(LinkKey(code), ok);
    return Ok(link.value.targetUrl);
  }

  // ----- fresh codes -----

  method TryInsertLink(repo: Memory.InMemoryRepo, code: string, targetUrl: string,
                       expiresAt: Option<Timestamp>, now: Timestamp)
    returns (r: Result<(), RepoError>)
    requires repo.Value().Valid()
    modifies repo
    ensures repo.Value().Valid()
    ensures repo.Value() == Memory.Inserted(old(repo.Value()), ShortLink.New(code, targetUrl, expiresAt, now))
    ensures r == if code in old(repo.inner) then Err(CodeTaken(code)) else Ok(())
  {
    r := repo.Insert(ShortLink.New(code, targetUrl, expiresAt, now));
  }

  /** All or nothing. `candidates` are the codes the generator would yield, in
      order, and `clock` the times of the attempts. Either the first candidate
      that is free is stored, as version 1 with no hits, and nothing else
      changes; or all the candidates allowed were taken, and nothing changes. */
  method GenerateCode(repo: Memory.InMemoryRepo, candidates: seq<string>, clock: seq<Timestamp>,
                      maxAttempts: nat, targetUrl: string, expiresAt: Option<Timestamp>)
    returns (code: Option<string>, inserts: nat)
    requires repo.Value().Valid() && |candidates| >= maxAttempts && |clock| >= maxAttempts
    modifies repo
    ensures repo.Value().Valid() && inserts <= maxAttempts
    ensures code.Some? ==>
      && inserts > 0 && code.value == candidates[inserts - 1]
      && candidates[inserts - 1] !in old(repo.inner)
      && (forall k :: 0 <= k < inserts - 1 ==> candidates[k] in old(repo.inner))
      && repo.stats == old(repo.stats)
      && repo.inner == old(repo.inner)[code.value :=
           Memory.Entry(ShortLink(code.value, targetUrl, clock[inserts - 1], clock[inserts - 1], expiresAt, 1), 0)]
    ensures code.None? ==>
      && inserts == maxAttempts && repo.Value() == old(repo.Value())
      && (forall k :: 0 <= k < maxAttempts ==> candidates[k] in old(repo.inner))
  {
    inserts := 0;
    while inserts < maxAttempts
      invariant inserts <= maxAttempts
      invariant repo.Value().Valid() && repo.Value() == old(repo.Value())
      invariant forall k :: 0 <= k < inserts ==> candidates[k] in old(repo.inner)
    {
      var candidate := candidates[inserts];
      var r := TryInsertLink(repo, candidate, targetUrl, expiresAt, clock[inserts]);
      inserts := inserts + 1;
      if r.Ok? {
        return Some(candidate), inserts;
      }
    }
    return None, inserts;
  }
}
