/** When cached answers agree with the repository: exactly which steps of the
    protocol keep agreement, and which discipline is enough for whole runs. */
module CacheCoherence {
  import opened Domain
  import opened CacheProtocol

  /** A writer of this code, other than `except`, is between its repository
      write and its invalidation. */
  ghost predicate PendingBut(s: State, code: string, except: Option<nat>) {
    exists id :: id in s.reqs && Some(id) != except && s.reqs[id].code == code && s.reqs[id].stage.Wrote?
  }

  ghost predicate Pending(s: State, code: string) {
    PendingBut(s, code, None)
  }

  ghost predicate Current(s: State, code: string) {
    Cached(s, code).Some? ==> Cached(s, code) == View(s, code)
  }

  /** A cached answer differs from the repository only while some writer still
      has to invalidate it. */
  ghost predicate Coherent(s: State) {
    forall c :: c in s.cache ==> Current(s, c) || Pending(s, c)
  }

  /** The steps that can hurt, and when they do not. */
  ghost predicate Harmless(s: State, e: Event) {
    match e
    case Fill(id, _) =>
      id in s.reqs && s.reqs[id].stage.GetRead? ==>
        View(s, s.reqs[id].code) == Some(s.reqs[id].stage.response) || Pending(s, s.reqs[id].code)
    case LateFill(write) => View(s, write.code) == Some(write.response) || Pending(s, write.code)
    case Purge =>
      forall c :: c in s.repo && s.repo[c].link.IsExpired(s.clock) && Cached(s, c).Some? ==> Pending(s, c)
    case InvalidateLost(id) => NothingOwed(s, id)
    case Drop(id) => NothingOwed(s, id)
    case _ => true
  }

  /** The request is not a writer with an invalidation to make, or its code's
      entry needs none, or another writer will make it. */
  ghost predicate NothingOwed(s: State, id: nat) {
    id in s.reqs && s.reqs[id].stage.Wrote? ==>
      Current(s, s.reqs[id].code) || PendingBut(s, s.reqs[id].code, Some(id))
  }

  lemma PendingStays(cfg: Config, s: State, e: Event, code: string)
    requires Legal(cfg, s, e) && Pending(s, code)
    requires !e.Invalidate? && !e.InvalidateLost? && !e.Drop?
    ensures Pending(Next(cfg, s, e), code)
  {
  }

  /** Writes announce themselves: a repository write changes the view only of
      a code whose writer is then pending. */
  lemma WritesArePending(cfg: Config, s: State, e: Event, code: string)
    requires Legal(cfg, s, e)
    requires e.UpdateRepo? || e.DeleteRepo? || e.RecordHit?
    ensures View(Next(cfg, s, e), code) == View(s, code) || Pending(Next(cfg, s, e), code)
  {
    var t := Next(cfg, s, e);
    if View(t, code) != View(s, code) {
      assert e.id in t.reqs && t.reqs[e.id].code == code && t.reqs[e.id].stage.Wrote?;
    }
  }

  lemma EndStep(s: State, t: State, id: nat)
    requires Coherent(s) && id in s.reqs
    requires t == Ended(s, id)
    ensures Coherent(t) <==> NothingOwed(s, id)
  {
  }

  lemma InvalidateStep(cfg: Config, s: State, id: nat)
    requires Legal(cfg, s, Invalidate(id)) && Coherent(s)
    ensures Coherent(Next(cfg, s, Invalidate(id)))
  {
  }

  lemma FillStep(cfg: Config, s: State, e: Event)
    requires Legal(cfg, s, e) && Coherent(s) && e.Fill?
    ensures Coherent(Next(cfg, s, e)) <==> Harmless(s, e)
  {
    var t := Next(cfg, s, e);
    var code := s.reqs[e.id].code;
    forall c
      ensures Pending(t, c) <==> Pending(s, c)
    {
      if Pending(s, c) {
        PendingStays(cfg, s, e, c);
      }
      if w :| w in t.reqs && t.reqs[w].code == c && t.reqs[w].stage.Wrote? {
        assert w in s.reqs;
      }
    }
    assert code in t.cache && Cached(t, code) == Some(s.reqs[e.id].stage.response);
  }

  lemma LateFillStep(cfg: Config, s: State, write: LateWrite)
    requires Legal(cfg, s, LateFill(write)) && Coherent(s)
    ensures Coherent(Next(cfg, s, LateFill(write))) <==> Harmless(s, LateFill(write))
  {
    var t := Next(cfg, s, LateFill(write));
    forall c
      ensures Pending(t, c) <==> Pending(s, c)
    {
      if Pending(s, c) {
        PendingStays(cfg, s, LateFill(write), c);
      }
      if w :| w in t.reqs && t.reqs[w].code == c && t.reqs[w].stage.Wrote? {
        assert w in s.reqs;
      }
    }
    assert write.code in t.cache && Cached(t, write.code) == Some(write.response);
  }

  lemma PurgeStep(cfg: Config, s: State)
    requires Coherent(s)
    ensures Coherent(Next(cfg, s, Purge)) <==> Harmless(s, Purge)
  {
  }

  lemma OtherStep(cfg: Config, s: State, e: Event)
    requires Legal(cfg, s, e) && Coherent(s)
    requires !e.Fill? && !e.LateFill? && !e.Purge? && !e.Invalidate? && !e.InvalidateLost? && !e.Drop?
    ensures Coherent(Next(cfg, s, e))
  {
    var t := Next(cfg, s, e);
    forall c | c in t.cache
      ensures Current(t, c) || Pending(t, c)
    {
      assert c in s.cache && t.cache[c] == s.cache[c];
      if Pending(s, c) {
        PendingStays(cfg, s, e, c);
      } else if e.UpdateRepo? || e.DeleteRepo? || e.RecordHit? {
        WritesArePending(cfg, s, e, c);
      }
    }
  }

  /** From a coherent state, a step leads to a coherent state if and only if it
      is harmless. */
  lemma CoherenceStep(cfg: Config, s: State, e: Event)
    requires Legal(cfg, s, e) && Coherent(s)
    ensures Coherent(Next(cfg, s, e)) <==> Harmless(s, e)
  {
    match e
    case Fill(_, _) => FillStep(cfg, s, e);
    case LateFill(write) => LateFillStep(cfg, s, write);
    case Purge => PurgeStep(cfg, s);
    case Invalidate(id) => InvalidateStep(cfg, s, id);
    case InvalidateLost(id) => EndStep(s, Next(cfg, s, e), id);
    case Drop(id) => EndStep(s, Next(cfg, s, e), id);
    case _ => OtherStep(cfg, s, e);
  }

  ghost predicate CoherentThrough(states: seq<State>, n: nat)
    requires n <= |states|
  {
    forall i :: 0 <= i < n ==> Coherent(states[i])
  }

  ghost predicate HarmlessThrough(states: seq<State>, events: seq<Event>, n: nat)
    requires n <= |events| < |states|
  {
    forall i :: 0 <= i < n ==> Harmless(states[i], events[i])
  }

  /** A run is coherent throughout if and only if each of its steps is
      harmless. */
  lemma {:induction false} CoherentRunIff(cfg: Config, states: seq<State>, events: seq<Event>, n: nat)
    requires IsRun(cfg, states, events) && n <= |events|
    ensures CoherentThrough(states, n + 1) <==> HarmlessThrough(states, events, n)
  {
    if n == 0 {
      assert Coherent(states[0]);
    } else {
      CoherentRunIff(cfg, states, events, n - 1);
      assert StepAt(cfg, states, events, n - 1);
      if CoherentThrough(states, n) {
        assert Coherent(states[n - 1]);
        CoherenceStep(cfg, states[n - 1], events[n - 1]);
        assert CoherentThrough(states, n + 1) <==> Coherent(states[n]);
      }
    }
  }

  // ----- a discipline that suffices -----

  /** Since the repository read of this request, no write has changed the
      repository's answer for its code. */
  ghost predicate Undisturbed(states: seq<State>, i: nat, id: nat)
    requires i < |states|
  {
    && id in states[i].reqs
    && (i > 0 && id in states[i - 1].reqs && states[i - 1].reqs[id].stage.GetRead? ==>
          && View(states[i - 1], states[i].reqs[id].code) == View(states[i], states[i].reqs[id].code)
          && Undisturbed(states, i - 1, id))
  }

  /** No fill straddles a repository write to its code or lands after its
      request, no purge removes a cached code, and every writer gets its
      invalidation through. */
  ghost predicate Disciplined(states: seq<State>, i: nat, e: Event)
    requires i < |states|
  {
    match e
    case Fill(id, _) => Undisturbed(states, i, id)
    case Purge =>
      forall c :: c in states[i].repo && states[i].repo[c].link.IsExpired(states[i].clock) ==>
        Cached(states[i], c).None?
    case LateFill(_) => false
    case InvalidateLost(_) => false
    case Drop(id) => !(id in states[i].reqs && states[i].reqs[id].stage.Wrote?)
    case _ => true
  }

  lemma ReadStep(cfg: Config, s: State, e: Event, id: nat)
    requires Legal(cfg, s, e)
    requires id in Next(cfg, s, e).reqs && Next(cfg, s, e).reqs[id].stage.GetRead?
    ensures id in s.reqs
    ensures !s.reqs[id].stage.GetRead? ==>
      View(Next(cfg, s, e), s.reqs[id].code) == Some(Next(cfg, s, e).reqs[id].stage.response)
    ensures Next(cfg, s, e).reqs[id].code == s.reqs[id].code
    ensures s.reqs[id].stage.GetRead? ==> Next(cfg, s, e).reqs[id] == s.reqs[id]
  {
  }

  lemma {:induction false} UndisturbedIsCurrent(cfg: Config, states: seq<State>, events: seq<Event>, i: nat, id: nat)
    requires IsRun(cfg, states, events) && i < |states|
    requires Undisturbed(states, i, id) && states[i].reqs[id].stage.GetRead?
    ensures View(states[i], states[i].reqs[id].code) == Some(states[i].reqs[id].stage.response)
  {
    if i > 0 {
      assert StepAt(cfg, states, events, i - 1);
      ReadStep(cfg, states[i - 1], events[i - 1], id);
      if states[i - 1].reqs[id].stage.GetRead? {
        UndisturbedIsCurrent(cfg, states, events, i - 1, id);
      }
    }
  }

  /** Conditional coherence, over all interleavings: in a disciplined run,
      whatever the cache serves differs from the repository only while some
      writer is between its repository write and its invalidation. */
  lemma ConditionalCoherence(cfg: Config, states: seq<State>, events: seq<Event>)
    requires IsRun(cfg, states, events)
    requires forall i :: 0 <= i < |events| ==> Disciplined(states, i, events[i])
    ensures CoherentThrough(states, |states|)
  {
    forall i | 0 <= i < |events|
      ensures Harmless(states[i], events[i])
    {
      assert StepAt(cfg, states, events, i) && Disciplined(states, i, events[i]);
      if events[i].Fill? {
        UndisturbedIsCurrent(cfg, states, events, i, events[i].id);
      }
    }
    CoherentRunIff(cfg, states, events, |events|);
  }

  /** What that means for a cached answer. */
  lemma DisciplinedHitIsCurrent(cfg: Config, states: seq<State>, events: seq<Event>, i: nat, id: nat)
    requires IsRun(cfg, states, events)
    requires forall i :: 0 <= i < |events| ==> Disciplined(states, i, events[i])
    requires i < |events| && events[i] == CacheHit(id)
    ensures id in states[i].reqs && id in states[i + 1].reqs && states[i + 1].reqs[id].stage.Replied?
    ensures
      var code := states[i].reqs[id].code;
      states[i + 1].reqs[id].stage.answer == View(states[i], code) || Pending(states[i], code)
  {
    ConditionalCoherence(cfg, states, events);
    assert StepAt(cfg, states, events, i) && Coherent(states[i]);
  }
}
