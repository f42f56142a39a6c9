/** What the writers of the cache protocol make of the repository's answers, and
    from when on every answer shows it. */
module CacheWrites {
  import opened Domain
  import opened CacheProtocol

  // ----- one step -----

  /** The code whose answer the event may change, if it is one of a request. */
  predicate WritesCode(s: State, e: Event, code: string) {
    match e
    case UpdateRepo(id) => id in s.reqs && s.reqs[id].code == code
    case DeleteRepo(id) => id in s.reqs && s.reqs[id].code == code
    case RecordHit(id) => id in s.reqs && s.reqs[id].code == code
    case Insert(link) => link.code == code
    case Purge => code in s.repo && Due(s.repo[code].link.expiresAt, s.clock)
    case _ => false
  }

  lemma OthersKept(cfg: Config, s: State, e: Event, code: string)
    requires Legal(cfg, s, e) && !WritesCode(s, e, code)
    ensures code in Next(cfg, s, e).repo <==> code in s.repo
    ensures code in s.repo ==> Next(cfg, s, e).repo[code] == s.repo[code]
  {
  }

  /** An update goes through if and only if the code is stored, and has the
      expected version where versions are checked; then it owes an invalidation
      and the repository answers with its target and the next version. */
  lemma UpdateEffect(cfg: Config, s: State, id: nat)
    requires Legal(cfg, s, UpdateRepo(id))
    ensures
      var t, r := Next(cfg, s, UpdateRepo(id)), s.reqs[id];
      if r.code in s.repo && (cfg.checksVersion ==> s.repo[r.code].link.version == r.stage.expected) then
        var before, after := View(s, r.code).value, View(t, r.code);
        && id in t.reqs && t.reqs[id].stage.Wrote? && after.Some?
        && after.value.targetUrl == r.stage.targetUrl && after.value.version == before.version + 1
        && after.value.code == before.code && after.value.hits == before.hits
        && after.value.createdAtUnix == before.createdAtUnix && after.value.expiresAtUnix == before.expiresAtUnix
      else id !in t.reqs && t.repo == s.repo
  {
  }

  /** A deletion goes through if and only if the code is stored; either way the
      repository then has no answer for it. */
  lemma DeleteEffect(cfg: Config, s: State, id: nat)
    requires Legal(cfg, s, DeleteRepo(id))
    ensures
      var t, code := Next(cfg, s, DeleteRepo(id)), s.reqs[id].code;
      && View(t, code) == None
      && (id in t.reqs <==> code in s.repo) && (id in t.reqs ==> t.reqs[id].stage.Wrote?)
  {
  }

  /** A redirect passes its check if and only if the link is stored and its
      expiry has not come. */
  lemma CheckEffect(cfg: Config, s: State, id: nat)
    requires Legal(cfg, s, CheckExpiry(id))
    ensures
      var t, code := Next(cfg, s, CheckExpiry(id)), s.reqs[id].code;
      && (id in t.reqs <==> code in s.repo && !Due(s.repo[code].link.expiresAt, s.clock))
      && (id in t.reqs ==> t.reqs[id].stage.RedirectChecked?) && t.repo == s.repo
  {
  }

  /** It then counts one hit if and only if the link is still stored. */
  lemma HitEffect(cfg: Config, s: State, id: nat)
    requires Legal(cfg, s, RecordHit(id))
    ensures
      var t, code := Next(cfg, s, RecordHit(id)), s.reqs[id].code;
      if code in s.repo then
        && id in t.reqs && t.reqs[id].stage.Wrote?
        && View(t, code) == Some(View(s, code).value.(hits := View(s, code).value.hits + 1))
      else id !in t.reqs && t.repo == s.repo
  {
  }

  /** An insert stores its link, without hits, if and only if the code is free. */
  lemma InsertEffect(cfg: Config, s: State, link: ShortLink)
    ensures
      var after := View(Next(cfg, s, Insert(link)), link.code);
      if View(s, link.code).Some? then after == View(s, link.code)
      else
        && after.Some? && after.value.code == link.code && after.value.targetUrl == link.targetUrl
        && after.value.version == link.version && after.value.hits == 0
        && after.value.createdAtUnix == UnixSecs(link.createdAt)
  {
  }

  /** A purge takes exactly the links whose expiry has come. */
  lemma PurgeEffect(cfg: Config, s: State, code: string)
    ensures
      View(Next(cfg, s, Purge), code) ==
        if code in s.repo && Due(s.repo[code].link.expiresAt, s.clock) then None else View(s, code)
  {
  }

  // ----- whole runs -----

  /** A redirect that is about to count its hit has found its link stored and
      not expired. */
  lemma {:induction false} CheckedWasLive(cfg: Config, states: seq<State>, events: seq<Event>, j: nat, id: nat)
    returns (i: nat)
    requires IsRun(cfg, states, events) && j < |states|
    requires id in states[j].reqs && states[j].reqs[id].stage.RedirectChecked?
    ensures i < j && events[i] == CheckExpiry(id)
    ensures
      var code := states[j].reqs[id].code;
      code in states[i].repo && !Due(states[i].repo[code].link.expiresAt, states[i].clock)
  {
    i := j - 1;
    assert StepAt(cfg, states, events, i);
    if id in states[i].reqs && states[i].reqs[id].stage.RedirectChecked? {
      assert states[i].reqs[id].code == states[j].reqs[id].code;
      i := CheckedWasLive(cfg, states, events, i, id);
    } else {
      CheckOnly(cfg, states[i], events[i], id);
      CheckEffect(cfg, states[i], id);
    }
  }

  lemma CheckOnly(cfg: Config, s: State, e: Event, id: nat)
    requires Legal(cfg, s, e) && id in Next(cfg, s, e).reqs && Next(cfg, s, e).reqs[id].stage.RedirectChecked?
    requires !(id in s.reqs && s.reqs[id].stage.RedirectChecked?)
    ensures e == CheckExpiry(id) && s.reqs[id].code == Next(cfg, s, e).reqs[id].code
  {
  }

  ghost predicate NoInsertOf(events: seq<Event>, i: nat, j: nat, code: string)
    requires j <= |events|
  {
    forall k :: i <= k < j && events[k].Insert? ==> events[k].link.code != code
  }

  lemma GoneStep(cfg: Config, s: State, e: Event, code: string)
    requires Legal(cfg, s, e) && code !in s.repo && !(e.Insert? && e.link.code == code)
    ensures code !in Next(cfg, s, e).repo
  {
  }

  /** From a deletion on the repository has no answer for the code, until it is
      inserted again. */
  lemma {:induction false} GoneUntilInserted(
      cfg: Config, states: seq<State>, events: seq<Event>, i: nat, j: nat, code: string)
    requires IsRun(cfg, states, events) && i < j < |states|
    requires events[i].DeleteRepo? && WritesCode(states[i], events[i], code)
    requires NoInsertOf(events, i, j, code)
    ensures View(states[j], code) == None
  {
    assert StepAt(cfg, states, events, j - 1);
    if i == j - 1 {
      DeleteEffect(cfg, states[i], events[i].id);
    } else {
      GoneUntilInserted(cfg, states, events, i, j - 1, code);
      GoneStep(cfg, states[j - 1], events[j - 1], code);
    }
  }

  /** No event of i..j-1 but a hit changes what the code leads to. */
  ghost predicate OnlyHits(states: seq<State>, events: seq<Event>, i: nat, j: nat, code: string)
    requires j <= |events| < |states|
  {
    forall k :: i <= k < j && WritesCode(states[k], events[k], code) ==> events[k].RecordHit? || events[k].Insert?
  }

  predicate LeadsTo(s: State, code: string, targetUrl: string) {
    View(s, code).Some? && View(s, code).value.targetUrl == targetUrl
  }

  lemma LeadsStep(cfg: Config, s: State, e: Event, code: string, targetUrl: string)
    requires Legal(cfg, s, e) && LeadsTo(s, code, targetUrl)
    requires WritesCode(s, e, code) ==> e.RecordHit? || e.Insert?
    ensures LeadsTo(Next(cfg, s, e), code, targetUrl)
  {
  }

  /** From an update on the repository answers with its target, until another
      writer changes the code. */
  lemma {:induction false} LeadsUntilWritten(
      cfg: Config, states: seq<State>, events: seq<Event>, i: nat, j: nat, id: nat)
    requires IsRun(cfg, states, events) && i < j < |states|
    requires events[i] == UpdateRepo(id) && id in states[i].reqs && states[i].reqs[id].stage.UpdateStarted?
    requires id in states[i + 1].reqs
    requires OnlyHits(states, events, i + 1, j, states[i].reqs[id].code)
    ensures LeadsTo(states[j], states[i].reqs[id].code, states[i].reqs[id].stage.targetUrl)
  {
    assert StepAt(cfg, states, events, j - 1);
    if i == j - 1 {
      UpdateEffect(cfg, states[i], id);
    } else {
      LeadsUntilWritten(cfg, states, events, i, j - 1, id);
      LeadsStep(cfg, states[j - 1], events[j - 1], states[i].reqs[id].code, states[i].reqs[id].stage.targetUrl);
    }
  }

  /** Whatever the repository has answered for a code ever since state i, an
      answer taken more than MaxAge later is one of those. */
  lemma AnswerSince(cfg: Config, states: seq<State>, events: seq<Event>, i: nat, j: nat, id: nat) returns (k: nat)
    requires IsRun(cfg, states, events) && i <= j < |states|
    requires id in states[j].reqs && states[j].reqs[id].stage.Replied?
    requires states[j].reqs[id].stage.takenAt - cfg.MaxAge() > states[i].clock
    ensures i < k <= j && View(states[k], states[j].reqs[id].code) == states[j].reqs[id].stage.answer
  {
    var r := states[j].reqs[id];
    BoundedStaleness(cfg, states, events, j, id);
    k :| 0 <= k <= j && states[k].clock >= r.stage.takenAt - cfg.MaxAge() && View(states[k], r.code) == r.stage.answer;
    if k <= i {
      forall m | 0 <= m < |events|
        ensures states[m].clock <= states[m + 1].clock
      {
        assert StepAt(cfg, states, events, m);
        ClockStep(cfg, states[m], events[m]);
      }
      ClockMonotone(states, k, i);
    }
  }

  /** Answers taken more than MaxAge after a deletion are not-found, until the
      code is inserted again. */
  lemma DeletionReaches(
      cfg: Config, states: seq<State>, events: seq<Event>, i: nat, j: nat, id: nat)
    requires IsRun(cfg, states, events) && i < j < |states|
    requires id in states[j].reqs && states[j].reqs[id].stage.Replied?
    requires events[i].DeleteRepo? && WritesCode(states[i], events[i], states[j].reqs[id].code)
    requires NoInsertOf(events, i, j, states[j].reqs[id].code)
    requires states[j].reqs[id].stage.takenAt - cfg.MaxAge() > states[i].clock
    ensures states[j].reqs[id].stage.answer == None
  {
    var k := AnswerSince(cfg, states, events, i, j, id);
    GoneUntilInserted(cfg, states, events, i, k, states[j].reqs[id].code);
  }

  /** And those taken more than MaxAge after an update lead to its target, until
      another writer changes the code. */
  lemma UpdateReaches(
      cfg: Config, states: seq<State>, events: seq<Event>, i: nat, j: nat, writer: nat, id: nat)
    requires IsRun(cfg, states, events) && i < j < |states|
    requires events[i] == UpdateRepo(writer) && writer in states[i].reqs && writer in states[i + 1].reqs
    requires states[i].reqs[writer].stage.UpdateStarted?
    requires id in states[j].reqs && states[j].reqs[id].stage.Replied?
    requires states[j].reqs[id].code == states[i].reqs[writer].code
    requires OnlyHits(states, events, i + 1, j, states[j].reqs[id].code)
    requires states[j].reqs[id].stage.takenAt - cfg.MaxAge() > states[i].clock
    ensures
      var answer := states[j].reqs[id].stage.answer;
      answer.Some? && answer.value.targetUrl == states[i].reqs[writer].stage.targetUrl
  {
    var k := AnswerSince(cfg, states, events, i, j, id);
    LeadsUntilWritten(cfg, states, events, i, k, writer);
  }

  // ----- what the network does -----

  function Lost(events: seq<Event>, n: nat): nat
    requires n <= |events|
  {
    if n == 0 then 0 else Lost(events, n - 1) + if events[n - 1].FillLost? then 1 else 0
  }

  function Landed(events: seq<Event>, n: nat): nat
    requires n <= |events|
  {
    if n == 0 then 0 else Landed(events, n - 1) + if events[n - 1].LateFill? then 1 else 0
  }

  /** Each write given up on lands at most once. */
  lemma {:induction false} LandsAtMostOnce(cfg: Config, states: seq<State>, events: seq<Event>, n: nat)
    requires IsRun(cfg, states, events) && n <= |events|
    ensures Lost(events, n) == Landed(events, n) + |states[n].late|
  {
    if n > 0 {
      LandsAtMostOnce(cfg, states, events, n - 1);
      assert StepAt(cfg, states, events, n - 1);
    }
  }

  /** An eviction takes one entry and nothing else. */
  lemma EvictEffect(cfg: Config, s: State, code: string, c: string)
    ensures
      var t := Next(cfg, s, Evict(code));
      Cached(t, c) == (if c == code then None else Cached(s, c)) && View(t, c) == View(s, c)
  {
  }
}
