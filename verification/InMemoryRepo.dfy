/** The in-memory link repository: links with their hit counters, and the
    statistics kept beside them, which outlive a removed link. */
module InMemoryRepo {
  import opened Domain
  import opened SlidingWindow
  import Pagination

  datatype Entry = Entry(link: ShortLink, hits: nat)

  /** The abstract value of a repository. */
  datatype Repo = Repo(links: map<string, Entry>, stats: map<string, Window>) {
    /** Entries are stored under their own code, and statistics are sound. */
    predicate Valid() {
      && (forall c :: c in links ==> links[c].link.code == c)
      && (forall c :: c in stats ==> stats[c].Valid())
    }
  }

  const EMPTY_REPO: Repo := Repo(map[], map[])

  predicate ExpiredIn(r: Repo, code: string, now: Timestamp) {
    code in r.links && r.links[code].link.IsExpired(now)
  }

  function Inserted(r: Repo, link: ShortLink): Repo {
    if link.code in r.links then r else r.(links := r.links[link.code := Entry(link, 0)])
  }

  function Removed(r: Repo, code: string): Repo {
    r.(links := r.links - {code})
  }

  function Updated(r: Repo, code: string, targetUrl: string, now: Timestamp): Repo {
    if code !in r.links then r
    else
      var e := r.links[code];
      var link := e.link.(targetUrl := targetUrl, updatedAt := now, version := e.link.version + 1);
      r.(links := r.links[code := e.(link := link)])
  }

  function StatsOf(r: Repo, code: string): (w: Window)
    requires r.Valid()
    ensures w.Valid()
  {
    SumZeros(EmptyWindow().slots);
    if code in r.stats then r.stats[code] else EmptyWindow()
  }

  function HitRecorded(r: Repo, code: string, now: Timestamp): Repo
    requires r.Valid()
  {
    if code !in r.links then r
    else
      r.(links := r.links[code := r.links[code].(hits := r.links[code].hits + 1)],
         stats := r.stats[code := Recorded(StatsOf(r, code), UnixSecs(now))])
  }

  function ExpiredCodes(r: Repo, now: Timestamp): set<string> {
    set c | c in r.links && ExpiredIn(r, c, now)
  }

  /** Exactly the expired links go, and their statistics with them. */
  function Purged(r: Repo, now: Timestamp): Repo {
    Repo(r.links - ExpiredCodes(r, now), r.stats - ExpiredCodes(r, now))
  }

  lemma HitRecordedValid(r: Repo, code: string, now: Timestamp)
    requires r.Valid()
    ensures HitRecorded(r, code, now).Valid()
  {
    RecordedValid(StatsOf(r, code), UnixSecs(now));
  }

  lemma MinusSize<V>(m: map<string, V>, gone: set<string>)
    requires gone <= m.Keys
    ensures |m - gone| == |m| - |gone|
  {
  }

  lemma MinusStep<V>(m: map<string, V>, gone: set<string>, c: string)
    ensures m - gone - {c} == m - (gone + {c})
  {
  }

  class InMemoryRepo {
    var inner: map<string, Entry>
    var stats: map<string, Window>

    ghost function Value(): Repo
      reads this
    {
      Repo(inner, stats)
    }

    constructor ()
      ensures Value() == EMPTY_REPO && Value().Valid()
    {
      inner, stats := map[], map[];
    }

    method Insert(link: ShortLink) returns (r: Result<(), RepoError>)
      requires Value().Valid()
      modifies this
      ensures Value().Valid() && Value() == Inserted(old(Value()), link)
      ensures r == if link.code in old(inner) then Err(CodeTaken(link.code)) else Ok(())
      ensures r.Ok? ==> inner == old(inner)[link.code := Entry(link, 0)] && stats == old(stats)
      ensures r.Err? ==> inner == old(inner) && stats == old(stats)
    {
      if link.code in inner {
        return Err(CodeTaken(link.code));
      }
      inner := inner[link.code := Entry(link, 0)];
      return Ok(());
    }

    method Get(code: string) returns (r: Result<ShortLink, RepoError>)
      ensures r == if code in inner then Ok(inner[code].link) else Err(NotFound(code))
    {
      if code !in inner {
        return Err(NotFound(code));
      }
      return Ok(inner[code].link);
    }

    method Remove(code: string) returns (r: Result<(), RepoError>)
      requires Value().Valid()
      modifies this
      ensures Value().Valid() && Value() == Removed(old(Value()), code)
      ensures r == if code in old(inner) then Ok(()) else Err(NotFound(code))
      ensures code !in inner && stats == old(stats)
      ensures forall c :: c != code ==> (c in inner <==> c in old(inner))
      ensures forall c :: c in inner ==> inner[c] == old(inner)[c]
    {
      if code !in inner {
        assert inner == inner - {code};
        return Err(NotFound(code));
      }
      inner := inner - {code};
      return Ok(());
    }

    method RecordHit(code: string, now: Timestamp) returns (r: Result<nat, RepoError>)
      requires Value().Valid()
      modifies this
      ensures Value().Valid() && Value() == HitRecorded(old(Value()), code, now)
      ensures r == if code in old(inner) then Ok(old(inner)[code].hits + 1) else Err(NotFound(code))
      ensures inner.Keys == old(inner).Keys
      ensures forall c :: c in inner ==> inner[c].link == old(inner)[c].link
      ensures forall c :: c in inner ==> inner[c].hits == old(inner)[c].hits + if c == code then 1 else 0
    {
      if code !in inner {
        return Err(NotFound(code));
      }
      var entry := inner[code];
      var newHits := entry.hits + 1;
      var window := StatsOf(Repo(inner, stats), code);
      HitRecordedValid(Value(), code, now);
      inner := inner[code := entry.(hits := newHits)];
      stats := stats[code := Recorded(window, UnixSecs(now))];
      return Ok(newHits);
    }

    /** The caller's version plays no part. */
    method Update(code: string, targetUrl: string, now: Timestamp) returns (r: Result<ShortLink, RepoError>)
      requires Value().Valid()
      modifies this
      ensures Value().Valid() && Value() == Updated(old(Value()), code, targetUrl, now)
      ensures r == if code in old(inner) then Ok(inner[code].link) else Err(NotFound(code))
      ensures inner.Keys == old(inner).Keys && stats == old(stats)
      ensures forall c :: c in inner && c != code ==> inner[c] == old(inner)[c]
      ensures r.Ok? ==>
        var before := old(inner)[code].link;
        && r.value.targetUrl == targetUrl && r.value.updatedAt == now && r.value.version == before.version + 1
        && r.value.code == code && r.value.createdAt == before.createdAt && r.value.expiresAt == before.expiresAt
        && inner[code].hits == old(inner)[code].hits
    {
      if code !in inner {
        return Err(NotFound(code));
      }
      var entry := inner[code];
      var link := entry.link.(targetUrl := targetUrl, updatedAt := now, version := entry.link.version + 1);
      inner := inner[code := entry.(link := link)];
      return Ok(link);
    }

    method Stats(code: string) returns (r: Result<LinkStats, RepoError>)
      ensures r == if code in inner then Ok(LinkStats(inner[code].link, inner[code].hits)) else Err(NotFound(code))
    {
      if code !in inner {
        return Err(NotFound(code));
      }
      return Ok(LinkStats(inner[code].link, inner[code].hits));
    }

    method List(limit: nat, cursor: Pagination.Cursor)
      returns (page: seq<ShortLink>, next: Pagination.Cursor)
      requires Value().Valid()
      ensures
        var t := map c | c in inner :: inner[c].link;
        && (exists s :: Pagination.IsListing(s, t))
        && (forall s :: Pagination.IsListing(s, t) ==> page == Pagination.ListPage(s, limit, cursor))
      ensures next == Pagination.NextCursor(page)
    {
      page, next := Pagination.ListSync(map c | c in inner :: inner[c].link, limit, cursor);
    }

    /** Removes the given codes from both maps, one at a time. */
    method RemoveCodes(codes: set<string>)
      modifies this
      ensures inner == old(inner) - codes && stats == old(stats) - codes
    {
      var rest := codes;
      ghost var gone: set<string> := {};
      while rest != {}
        invariant gone + rest == codes
        invariant inner == old(inner) - gone && stats == old(stats) - gone
        decreases rest
      {
        var code :| code in rest;
        MinusStep(old(inner), gone, code);
        MinusStep(old(stats), gone, code);
        inner := inner - {code};
        stats := stats - {code};
        rest := rest - {code};
        gone := gone + {code};
      }
      assert gone == codes;
    }

    /** Purges what has expired and returns how many links that were. */
    method PurgeExpired(now: Timestamp) returns (removed: nat)
      requires Value().Valid()
      modifies this
      ensures Value().Valid() && Value() == Purged(old(Value()), now)
      ensures removed == |ExpiredCodes(old(Value()), now)|
    {
      var before := |inner|;
      var expired := ExpiredCodes(Repo(inner, stats), now);
      MinusSize(inner, expired);
      RemoveCodes(expired);
      removed := before - |inner|;
    }
  }
}
