/** Links, their repository errors, and wall-clock time. A timestamp is a
    number of nanoseconds since the Unix epoch, negative before it. */
module Domain {

  datatype Option<+T> = None | Some(value: T)

  datatype Result<+T, +E> = Ok(value: T) | Err(error: E)

  type Timestamp = int

  const NANOS_PER_SEC: int := 1_000_000_000

  /** Whole seconds since the epoch; zero for anything earlier. */
  function UnixSecs(t: Timestamp): (secs: nat)
    ensures t >= 0 ==> secs * 1_000_000_000 <= t < (secs + 1) * 1_000_000_000
    ensures t < 0 ==> secs == 0
  {
    if t < 0 then 0 else t / NANOS_PER_SEC
  }

  /** An expiry that has come. */
  predicate Due(expiresAt: Option<Timestamp>, now: Timestamp) {
    expiresAt.Some? && expiresAt.value <= now
  }

  datatype ShortLink = ShortLink(
    code: string,
    targetUrl: string,
    createdAt: Timestamp,
    updatedAt: Timestamp,
    expiresAt: Option<Timestamp>,
    version: int)
  {
    predicate IsExpired(now: Timestamp) {
      Due(expiresAt, now)
    }

    static function New(code: string, targetUrl: string, expiresAt: Option<Timestamp>, now: Timestamp): ShortLink {
      ShortLink(code, targetUrl, now, now, expiresAt, 1)
    }
  }

  datatype LinkStats = LinkStats(link: ShortLink, hits: nat)

  datatype RepoError = CodeTaken(code: string) | NotFound(missing: string) | VersionConflict
}
