/** Runs worked out step by step: each clause of the discipline is needed for
    coherence, and the bound on staleness cannot be lowered. */
module CacheScenarios {
  import opened Domain
  import opened Cache
  import opened CacheProtocol
  import opened CacheCoherence

  // ----- the discipline is needed -----

  const LINK: LinkStats := LinkStats(ShortLink("code", "https://old", 0, 0, Some(1), 1), 0)

  function Start(): State {
    State(0, map["code" := LINK], map[], map[], multiset{})
  }

  lemma Extend(cfg: Config, states: seq<State>, events: seq<Event>, e: Event)
    returns (states': seq<State>, events': seq<Event>, s: State)
    requires IsRun(cfg, states, events) && Legal(cfg, states[|events|], e)
    ensures IsRun(cfg, states', events') && events' == events + [e]
    ensures s == states'[|events'|] == Next(cfg, states[|events|], e)
    ensures states <= states'
  {
    s := Next(cfg, states[|events|], e);
    states', events' := states + [s], events + [e];
    forall i | 0 <= i < |events'|
      ensures StepAt(cfg, states', events', i)
    {
      if i < |events| {
        assert StepAt(cfg, states, events, i);
      }
    }
  }

  /** The run breaks the discipline only in its last step. */
  ghost predicate DisciplinedButLast(states: seq<State>, events: seq<Event>) {
    && 0 < |events| < |states|
    && forall i :: 0 <= i < |events| - 1 ==> Disciplined(states, i, events[i])
  }

  const IN_FLIGHT: Request := Request("code", 0, GetRead(ToResponse(LINK), 0))

  /** A reader has read the repository but not filled the cache yet. */
  lemma ReaderInFlight(cfg: Config) returns (states: seq<State>, events: seq<Event>)
    ensures IsRun(cfg, states, events)
    ensures states[|events|] == Start().(reqs := map[1 := IN_FLIGHT])
    ensures events == [Begin(1, "code", GetStarted), CacheMiss(1), RepoRead(1)]
    ensures Undisturbed(states, 3, 1)
  {
    states, events := [Start()], [];
    var s;
    states, events, s := Extend(cfg, states, events, Begin(1, "code", GetStarted));
    states, events, s := Extend(cfg, states, events, CacheMiss(1));
    states, events, s := Extend(cfg, states, events, RepoRead(1));
    assert s.reqs == map[1 := IN_FLIGHT];
  }

  /** The same reader, once it has filled the cache. */
  lemma ReaderDone(cfg: Config, ttl: Ttl) returns (states: seq<State>, events: seq<Event>)
    requires ttl <= MaxTtl(cfg.cache)
    ensures IsRun(cfg, states, events)
    ensures states[|events|] == Start()
      .(cache := map["code" := Entry(ToResponse(LINK), ttl * NANOS_PER_SEC)],
        reqs := map[1 := Request("code", 0, Replied(Some(ToResponse(LINK)), 0))])
    ensures |events| == 4 && forall i :: 0 <= i < 4 ==> Disciplined(states, i, events[i])
  {
    var before;
    before, events := ReaderInFlight(cfg);
    var s;
    states, events, s := Extend(cfg, before, events, Fill(1, ttl));
    assert Undisturbed(states, 3, 1);
    assert s.cache == map["code" := Entry(ToResponse(LINK), ttl * NANOS_PER_SEC)];
    assert s.reqs == map[1 := Request("code", 0, Replied(Some(ToResponse(LINK)), 0))];
  }

  lemma ServesStale(s: State)
    requires "code" in s.cache && Cached(s, "code").Some? && Cached(s, "code") != View(s, "code")
    requires forall id :: id in s.reqs ==> !s.reqs[id].stage.Wrote?
    ensures !Coherent(s)
  {
  }

  /** A writer comes and goes while the reader is in flight. */
  lemma WriterOvertakes(cfg: Config) returns (states: seq<State>, events: seq<Event>)
    ensures IsRun(cfg, states, events)
    ensures forall i :: 0 <= i < |events| ==> Disciplined(states, i, events[i])
    ensures
      var s := states[|events|];
      && s.reqs == map[1 := IN_FLIGHT] && s.clock == 0 && s.late == multiset{}
      && "code" in s.repo && s.repo["code"].link.version == 2
  {
    states, events := ReaderInFlight(cfg);
    var s;
    states, events, s := Extend(cfg, states, events, Begin(2, "code", UpdateStarted("https://new", 1)));
    states, events, s := Extend(cfg, states, events, UpdateRepo(2));
    assert s.repo["code"].link.version == 2;
    states, events, s := Extend(cfg, states, events, Invalidate(2));
    assert s.reqs == map[1 := IN_FLIGHT];
  }

  /** The stale-fill race: a reader reads, a writer writes and invalidates, the
      reader fills. Only the fill breaks the discipline. */
  lemma StaleFillRace(cfg: Config) returns (states: seq<State>, events: seq<Event>)
    ensures IsRun(cfg, states, events) && DisciplinedButLast(states, events)
    ensures events[|events| - 1].Fill? && !Coherent(states[|events|])
  {
    var before, earlier := WriterOvertakes(cfg);
    var s;
    states, events, s := Extend(cfg, before, earlier, Fill(1, 1));
    DisciplinedPrefix(before, states, earlier);
    assert Cached(s, "code").value.version == 1;
    ServesStale(s);
  }

  /** A purge is enough on its own: the expired link is served after it is gone. */
  lemma PurgedButServed(cfg: Config) returns (states: seq<State>, events: seq<Event>)
    ensures IsRun(cfg, states, events) && DisciplinedButLast(states, events)
    ensures events[|events| - 1].Purge? && !Coherent(states[|events|])
  {
    var before, earlier := ReaderDone(cfg, 1);
    var s;
    states, events, s := Extend(cfg, before, earlier, Drop(1));
    assert s.reqs == map[];
    states, events, s := Extend(cfg, states, events, Tick(1));
    states, events, s := Extend(cfg, states, events, Purge);
    DisciplinedPrefix(before, states, earlier);
    assert View(s, "code").None?;
    ServesStale(s);
  }

  lemma {:induction false} UndisturbedPrefix(before: seq<State>, states: seq<State>, i: nat, id: nat)
    requires before <= states && i < |before| && Undisturbed(before, i, id)
    ensures Undisturbed(states, i, id)
  {
    if i > 0 && id in states[i - 1].reqs && states[i - 1].reqs[id].stage.GetRead? {
      UndisturbedPrefix(before, states, i - 1, id);
    }
  }

  lemma DisciplinedPrefix(before: seq<State>, states: seq<State>, events: seq<Event>)
    requires before <= states && |events| < |before|
    requires forall i :: 0 <= i < |events| ==> Disciplined(before, i, events[i])
    ensures forall i :: 0 <= i < |events| ==> Disciplined(states, i, events[i])
  {
    forall i | 0 <= i < |events|
      ensures Disciplined(states, i, events[i])
    {
      assert Disciplined(before, i, events[i]);
      if events[i].Fill? {
        UndisturbedPrefix(before, states, i, events[i].id);
      }
    }
  }

  /** So is one lost invalidation. */
  lemma LostInvalidation(cfg: Config) returns (states: seq<State>, events: seq<Event>)
    ensures IsRun(cfg, states, events) && DisciplinedButLast(states, events)
    ensures events[|events| - 1].InvalidateLost? && !Coherent(states[|events|])
  {
    var before, earlier := ReaderDone(cfg, 1);
    var s;
    states, events, s := Extend(cfg, before, earlier, Begin(2, "code", UpdateStarted("https://new", 1)));
    states, events, s := Extend(cfg, states, events, UpdateRepo(2));
    assert s.repo["code"].link.version == 2;
    states, events, s := Extend(cfg, states, events, InvalidateLost(2));
    DisciplinedPrefix(before, states, earlier);
    assert s.reqs.Keys == {1};
    assert Cached(s, "code").value.version == 1;
    ServesStale(s);
  }

  /** And so is one cache write that lands after its request gave up on it. */
  lemma LateWriteLands(cfg: Config) returns (states: seq<State>, events: seq<Event>)
    ensures IsRun(cfg, states, events) && DisciplinedButLast(states, events)
    ensures events[|events| - 1].LateFill? && !Coherent(states[|events|])
  {
    var before, earlier := WriterOvertakes(cfg);
    var s;
    states, events, s := Extend(cfg, before, earlier, FillLost(1, 1));
    var write := LateWrite("code", ToResponse(LINK), 1, cfg.lag);
    states, events, s := Extend(cfg, states, events, LateFill(write));
    DisciplinedPrefix(before, states, earlier);
    assert Cached(s, "code").value.version == 1;
    ServesStale(s);
  }

  // ----- the staleness bound is tight -----

  lemma {:induction false} EarlyInstants(cfg: Config, states: seq<State>, events: seq<Event>, j: nat)
    requires IsRun(cfg, states, events) && j <= |events|
    ensures states[j].clock <= states[|events|].clock
  {
    forall k | 0 <= k < |events|
      ensures states[k].clock <= states[k + 1].clock
    {
      assert StepAt(cfg, states, events, k);
      ClockStep(cfg, states[k], events[k]);
    }
    ClockMonotone(states, j, |events|);
  }

  /** The old answer was last true at instant 0. */
  ghost predicate OldOnlyAtStart(states: seq<State>) {
    forall j :: 0 <= j < |states| && View(states[j], "code") == Some(ToResponse(LINK)) ==> states[j].clock <= 0
  }

  /** The overtaken reader gives up on its fill at its very deadline. */
  lemma GivenUp(cfg: Config) returns (states: seq<State>, events: seq<Event>)
    ensures IsRun(cfg, states, events) && OldOnlyAtStart(states)
    ensures
      var s := states[|events|];
      && s.reqs == map[] && s.clock == cfg.timeout
      && "code" in s.repo && s.repo["code"].link.version == 2
      && s.late == multiset{LateWrite("code", ToResponse(LINK), MaxTtl(cfg.cache), cfg.timeout + cfg.lag)}
  {
    var before, earlier := WriterOvertakes(cfg);
    forall j | 0 <= j <= |earlier|
      ensures before[j].clock <= 0
    {
      EarlyInstants(cfg, before, earlier, j);
    }
    var s;
    states, events, s := Extend(cfg, before, earlier, Tick(cfg.timeout));
    states, events, s := Extend(cfg, states, events, FillLost(1, MaxTtl(cfg.cache)));
    states, events, s := Extend(cfg, states, events, Drop(1));
    assert s.reqs == map[];
  }

  /** The write lands as late as it can, with the longest time to live. */
  lemma LatestFill(cfg: Config) returns (states: seq<State>, events: seq<Event>)
    ensures IsRun(cfg, states, events) && OldOnlyAtStart(states)
    ensures
      var s := states[|events|];
      && s.reqs == map[] && s.clock == cfg.timeout + cfg.lag
      && "code" in s.repo && s.repo["code"].link.version == 2
      && "code" in s.cache && s.cache["code"] == Entry(ToResponse(LINK), cfg.MaxAge())
  {
    states, events := GivenUp(cfg);
    var s;
    states, events, s := Extend(cfg, states, events, Tick(cfg.timeout + cfg.lag));
    var write := LateWrite("code", ToResponse(LINK), MaxTtl(cfg.cache), cfg.timeout + cfg.lag);
    states, events, s := Extend(cfg, states, events, LateFill(write));
  }

  /** A run whose last answer was true only an instant less than the bound ago:
      every instant at which the repository gave it is at least MaxAge - 1
      nanoseconds back. */
  lemma StalenessIsTight(cfg: Config) returns (states: seq<State>, events: seq<Event>)
    ensures IsRun(cfg, states, events)
    ensures
      var s := states[|events|];
      && 3 in s.reqs && s.reqs[3].code == "code" && s.reqs[3].stage.Replied?
      && s.reqs[3].stage.takenAt == s.clock
      && (forall j :: 0 <= j <= |events| && View(states[j], "code") == s.reqs[3].stage.answer ==>
            states[j].clock <= s.clock - (cfg.MaxAge() - 1))
  {
    states, events := LatestFill(cfg);
    var s;
    states, events, s := Extend(cfg, states, events, Tick(cfg.MaxAge() - 1));
    states, events, s := Extend(cfg, states, events, Begin(3, "code", GetStarted));
    assert Cached(s, "code") == Some(ToResponse(LINK));
    states, events, s := Extend(cfg, states, events, CacheHit(3));
  }
}
