/** The link cache: a map with expiry behind an unreliable connection. */
module Cache {
  import opened Domain

  datatype CacheConfig = CacheConfig(ttlSecs: nat, jitterSecs: nat)

  datatype Entry<+V> = Entry(value: V, expires: Timestamp)

  function Max(x: int, y: int): int {
    if x >= y then x else y
  }

  /** Longest time to live an entry can be given, in seconds. */
  function MaxTtl(cfg: CacheConfig): nat {
    Max(1, cfg.ttlSecs + cfg.jitterSecs)
  }

  function JitteredTtl(cfg: CacheConfig, offset: int): nat {
    Max(cfg.ttlSecs + offset, 1)
  }

  /** The jitter reaches every whole second of its range and none outside. */
  lemma JitterRange(cfg: CacheConfig, ttl: nat)
    ensures (exists offset :: -(cfg.jitterSecs as int) <= offset <= cfg.jitterSecs && JitteredTtl(cfg, offset) == ttl)
       <==> Max(cfg.ttlSecs - cfg.jitterSecs, 1) <= ttl <= MaxTtl(cfg)
  {
    if Max(cfg.ttlSecs - cfg.jitterSecs, 1) <= ttl <= MaxTtl(cfg) {
      var offset := Max(ttl - cfg.ttlSecs, -(cfg.jitterSecs as int));
      if cfg.ttlSecs + cfg.jitterSecs < 1 {
        assert JitteredTtl(cfg, 0) == ttl;
      } else {
        assert JitteredTtl(cfg, offset) == ttl;
      }
    }
  }

  const KEY_PREFIX: string := "shorty:v1:link:"

  function LinkKey(code: string): string {
    KEY_PREFIX + code
  }

  /** Different codes never share a cache key. */
  lemma LinkKeyInjective(a: string, b: string)
    requires LinkKey(a) == LinkKey(b)
    ensures a == b
  {
    assert a == LinkKey(a)[|KEY_PREFIX|..];
    assert b == LinkKey(b)[|KEY_PREFIX|..];
  }

  function Lookup<V>(entries: map<string, Entry<V>>, key: string, now: Timestamp): Option<V> {
    if key in entries && now < entries[key].expires then Some(entries[key].value) else None
  }

  function Stored<V>(entries: map<string, Entry<V>>, key: string, value: V, ttl: nat, now: Timestamp)
    : map<string, Entry<V>>
  {
    entries[key := Entry(value, now + ttl * NANOS_PER_SEC)]
  }

  /** A stored value is served for its time to live and no longer, and nothing
      changes for other keys. */
  lemma ServedForTtl<V>(entries: map<string, Entry<V>>, key: string, value: V, ttl: nat,
                        now: Timestamp, other: string, later: Timestamp)
    ensures
      Lookup(Stored(entries, key, value, ttl, now), other, later)
      == if other != key then Lookup(entries, other, later)
         else if later - now < ttl * 1_000_000_000 then Some(value) else None
  {
  }

  /** A cache client. `ok` tells whether the server answered within the
      operation timeout; a failed operation is one that had no effect. */
  class CacheClient<V> {
    const connected: bool
    const config: CacheConfig
    var entries: map<string, Entry<V>>
    var hits: nat
    var misses: nat

    constructor (connected: bool, config: CacheConfig)
      ensures this.connected == connected && this.config == config
      ensures entries == map[] && hits == misses == 0
    {
      this.connected, this.config := connected, config;
      entries, hits, misses := map[], 0, 0;
    }

    /** Every call counts as exactly one hit or one miss. */
    method Get(key: string, now: Timestamp, ok: bool) returns (r: Option<V>)
      modifies this`hits, this`misses
      ensures r == if connected && ok then Lookup(entries, key, now) else None
      ensures hits == old(hits) + (if r.Some? then 1 else 0)
      ensures misses == old(misses) + (if r.None? then 1 else 0)
    {
      if !connected {
        misses := misses + 1;
        return None;
      }
      r := if ok then Lookup(entries, key, now) else None;
      if r.Some? {
        hits := hits + 1;
      } else {
        misses := misses + 1;
      }
    }

    method Set(key: string, value: V, now: Timestamp, offset: int, ok: bool)
      requires -(config.jitterSecs as int) <= offset <= config.jitterSecs
      modifies this`entries
      ensures connected && ok ==>
        entries == Stored(old(entries), key, value, JitteredTtl(config, offset), now)
      ensures !(connected && ok) ==> entries == old(entries)
    {
      if !connected {
        return;
      }
      var ttl := JitteredTtl(config, offset);
      if ok {
        entries := Stored(entries, key, value, ttl, now);
      }
    }

    method Invalidate(key: string, ok: bool)
      modifies this`entries
      ensures entries == if connected && ok then old(entries) - {key} else old(entries)
    {
      if connected && ok {
        entries := entries - {key};
      }
    }
  }
}
