/** Whole runs of the in-memory repository: where its hits go, and why purging
    expired links cannot be noticed through redirects. */
module RepoRuns {
  import opened Domain
  import opened InMemoryRepo

  /** One repository call, with the clock it reads. */
  datatype Call =
    | Insert(link: ShortLink, now: Timestamp)
    | Remove(code: string, now: Timestamp)
    | Update(code: string, targetUrl: string, now: Timestamp)
    | Hit(code: string, now: Timestamp)
    | Redirect(code: string, now: Timestamp)
    | Purge(now: Timestamp)

  /** Where a redirect leads: expired links count as missing. */
  function Location(r: Repo, code: string, now: Timestamp): Option<string> {
    if code in r.links && !ExpiredIn(r, code, now) then Some(r.links[code].link.targetUrl) else None
  }

  function Apply(r: Repo, call: Call): Repo
    requires r.Valid()
  {
    match call
    case Insert(link, _) => Inserted(r, link)
    case Remove(code, _) => Removed(r, code)
    case Update(code, targetUrl, now) => Updated(r, code, targetUrl, now)
    case Hit(code, now) => HitRecorded(r, code, now)
    case Redirect(code, now) => if Location(r, code, now).Some? then HitRecorded(r, code, now) else r
    case Purge(now) => Purged(r, now)
  }

  lemma ApplyValid(r: Repo, call: Call)
    requires r.Valid()
    ensures Apply(r, call).Valid()
  {
    match call
    case Hit(code, now) => HitRecordedValid(r, code, now);
    case Redirect(code, now) => HitRecordedValid(r, code, now);
    case _ =>
  }

  /** One call, or none if it is a purge and `purging` is off. */
  function Step(r: Repo, call: Call, purging: bool): (t: Repo)
    requires r.Valid()
    ensures t.Valid()
  {
    ApplyValid(r, call);
    if call.Purge? && !purging then r else Apply(r, call)
  }

  /** The repository after the first n calls, with its purges or without them. */
  function After(calls: seq<Call>, n: nat, purging: bool): (r: Repo)
    requires n <= |calls|
    ensures r.Valid()
  {
    if n == 0 then EMPTY_REPO else Step(After(calls, n - 1, purging), calls[n - 1], purging)
  }

  // ----- conservation of hits -----

  function HitsOf(r: Repo, code: string): nat {
    if code in r.links then r.links[code].hits else 0
  }

  function TotalOf(r: Repo, code: string): nat {
    if code in r.stats then r.stats[code].total else 0
  }

  /** The call counts a hit for this code. */
  predicate Counts(r: Repo, call: Call, code: string) {
    match call
    case Hit(c, _) => c == code && c in r.links
    case Redirect(c, now) => c == code && Location(r, c, now).Some?
    case _ => false
  }

  /** Hits that a removed incarnation of the code left in the statistics and no
      purge has taken since. */
  function Carried(calls: seq<Call>, n: nat, code: string): nat
    requires n <= |calls|
  {
    if n == 0 then 0
    else
      var r := After(calls, n - 1, true);
      match calls[n - 1]
      case Remove(c, _) => Carried(calls, n - 1, code) + if c == code then HitsOf(r, code) else 0
      case Purge(now) => if ExpiredIn(r, code, now) then 0 else Carried(calls, n - 1, code)
      case _ => Carried(calls, n - 1, code)
  }

  /** Hits counted for the code since a purge last took it. */
  function CountedSincePurge(calls: seq<Call>, n: nat, code: string): nat
    requires n <= |calls|
  {
    if n == 0 then 0
    else
      var r := After(calls, n - 1, true);
      if calls[n - 1].Purge? && ExpiredIn(r, code, calls[n - 1].now) then 0
      else CountedSincePurge(calls, n - 1, code) + if Counts(r, calls[n - 1], code) then 1 else 0
  }

  lemma StepConserves(r: Repo, call: Call, code: string)
    requires r.Valid()
    ensures
      var t := Apply(r, call);
      match call
      case Remove(c, _) =>
        TotalOf(t, code) == TotalOf(r, code) && HitsOf(t, code) == if c == code then 0 else HitsOf(r, code)
      case Purge(now) =>
        if ExpiredIn(r, code, now) then TotalOf(t, code) == HitsOf(t, code) == 0
        else TotalOf(t, code) == TotalOf(r, code) && HitsOf(t, code) == HitsOf(r, code)
      case _ =>
        var more := if Counts(r, call, code) then 1 else 0;
        TotalOf(t, code) == TotalOf(r, code) + more && HitsOf(t, code) == HitsOf(r, code) + more
  {
  }

  /** In every reachable state and for every code, the statistics total is the
      entry's hits plus what earlier incarnations left, and it is the number of
      hits counted since a purge last took the code. */
  lemma {:induction false} HitConservation(calls: seq<Call>, n: nat, code: string)
    requires n <= |calls|
    ensures
      var r := After(calls, n, true);
      && TotalOf(r, code) == HitsOf(r, code) + Carried(calls, n, code)
      && TotalOf(r, code) == CountedSincePurge(calls, n, code)
  {
    if n > 0 {
      HitConservation(calls, n - 1, code);
      StepConserves(After(calls, n - 1, true), calls[n - 1], code);
    }
  }

  // ----- purging is invisible to redirects -----

  /** The purged repository lacks only links that have expired. */
  ghost predicate LacksExpired(purged: Repo, full: Repo, now: Timestamp) {
    && (forall c :: c in purged.links ==> c in full.links && purged.links[c] == full.links[c])
    && (forall c :: c in full.links && c !in purged.links ==> ExpiredIn(full, c, now))
  }

  ghost predicate ClockRuns(calls: seq<Call>) {
    forall i, j :: 0 <= i <= j < |calls| ==> calls[i].now <= calls[j].now
  }

  lemma HitKeepsLack(purged: Repo, full: Repo, code: string, now: Timestamp)
    requires purged.Valid() && full.Valid() && LacksExpired(purged, full, now)
    ensures LacksExpired(HitRecorded(purged, code, now), HitRecorded(full, code, now), now)
  {
  }

  lemma PurgeKeepsLack(purged: Repo, full: Repo, now: Timestamp)
    requires LacksExpired(purged, full, now)
    ensures LacksExpired(Purged(purged, now), full, now)
  {
  }

  /** A call other than an insert keeps the two repositories so related. */
  lemma StepKeepsLack(purged: Repo, full: Repo, call: Call)
    requires purged.Valid() && full.Valid() && LacksExpired(purged, full, call.now)
    requires !call.Insert?
    ensures LacksExpired(Step(purged, call, true), Step(full, call, false), call.now)
  {
    match call
    case Hit(code, now) => HitKeepsLack(purged, full, code, now);
    case Redirect(code, now) => HitKeepsLack(purged, full, code, now);
    case Purge(now) => PurgeKeepsLack(purged, full, now);
    case _ =>
  }

  lemma SameLocation(purged: Repo, full: Repo, code: string, now: Timestamp)
    requires LacksExpired(purged, full, now)
    ensures Location(purged, code, now) == Location(full, code, now)
  {
  }

  /** An insert of a live link keeps them so if and only if its code has not
      been freed by a purge alone; if it has, the next redirect tells. */
  lemma InsertKeepsLackIff(purged: Repo, full: Repo, link: ShortLink, now: Timestamp)
    requires LacksExpired(purged, full, now) && !link.IsExpired(now)
    ensures
      LacksExpired(Inserted(purged, link), Inserted(full, link), now)
      <==> (link.code in full.links ==> link.code in purged.links)
    ensures
      link.code in full.links && link.code !in purged.links ==>
        Location(Inserted(purged, link), link.code, now) == Some(link.targetUrl)
        && Location(Inserted(full, link), link.code, now) == None
  {
  }

  lemma InsertKeepsLack(purged: Repo, full: Repo, link: ShortLink, now: Timestamp)
    requires LacksExpired(purged, full, now) && !ExpiredIn(full, link.code, now)
    ensures LacksExpired(Inserted(purged, link), Inserted(full, link), now)
  {
  }

  lemma LackLasts(purged: Repo, full: Repo, now: Timestamp, later: Timestamp)
    requires LacksExpired(purged, full, now) && now <= later
    ensures LacksExpired(purged, full, later)
  {
  }

  /** Call i is not an insert that meets an expired link of its code, which
      only a purge would have taken away. */
  ghost predicate NoReuseAt(calls: seq<Call>, i: nat)
    requires i < |calls|
  {
    calls[i].Insert? ==> !ExpiredIn(After(calls, i, false), calls[i].link.code, calls[i].now)
  }

  ghost predicate NoReuse(calls: seq<Call>) {
    forall i :: 0 <= i < |calls| ==> NoReuseAt(calls, i)
  }

  lemma LackStep(purged: Repo, full: Repo, call: Call, later: Timestamp)
    requires purged.Valid() && full.Valid() && LacksExpired(purged, full, call.now)
    requires call.Insert? ==> !ExpiredIn(full, call.link.code, call.now)
    requires call.now <= later
    ensures LacksExpired(Step(purged, call, true), Step(full, call, false), later)
  {
    if call.Insert? {
      InsertKeepsLack(purged, full, call.link, call.now);
    } else {
      StepKeepsLack(purged, full, call);
    }
    LackLasts(Step(purged, call, true), Step(full, call, false), call.now, later);
  }

  lemma {:induction false} PurgesOnlyLack(calls: seq<Call>, n: nat)
    requires ClockRuns(calls) && NoReuse(calls) && n < |calls|
    ensures LacksExpired(After(calls, n, true), After(calls, n, false), calls[n].now)
  {
    if n > 0 {
      PurgesOnlyLack(calls, n - 1);
      assert NoReuseAt(calls, n - 1);
      LackStep(After(calls, n - 1, true), After(calls, n - 1, false), calls[n - 1], calls[n].now);
    }
  }

  /** Purges put anywhere into a run leave every redirect's result unchanged. */
  lemma PurgeInvisible(calls: seq<Call>, n: nat)
    requires ClockRuns(calls) && NoReuse(calls)
    requires n < |calls| && calls[n].Redirect?
    ensures
      Location(After(calls, n, true), calls[n].code, calls[n].now)
      == Location(After(calls, n, false), calls[n].code, calls[n].now)
  {
    PurgesOnlyLack(calls, n);
    SameLocation(After(calls, n, true), After(calls, n, false), calls[n].code, calls[n].now);
  }

  lemma {:induction false} SamePrefix(calls: seq<Call>, others: seq<Call>, n: nat, purging: bool)
    requires n <= |calls| && n <= |others| && calls[..n] == others[..n]
    ensures After(calls, n, purging) == After(others, n, purging)
  {
    if n > 0 {
      assert calls[n - 1] == calls[..n][n - 1] == others[..n][n - 1] == others[n - 1];
      assert calls[..n - 1] == calls[..n][..n - 1] == others[..n][..n - 1] == others[..n - 1];
      SamePrefix(calls, others, n - 1, purging);
    }
  }

  lemma {:induction false} NoPurgesNoDifference(calls: seq<Call>, n: nat)
    requires n <= |calls| && forall j :: 0 <= j < n ==> !calls[j].Purge?
    ensures After(calls, n, true) == After(calls, n, false)
  {
    if n > 0 {
      NoPurgesNoDifference(calls, n - 1);
    }
  }

  /** The condition is needed: in any run without purges, wherever an insert of
      a live link does meet an expired link of its code, one purge put before it
      makes the insert succeed, and the redirects that follow lead to the new
      link instead of failing. */
  lemma ReuseIsVisible(calls: seq<Call>, i: nat) returns (purged: seq<Call>)
    requires i < |calls| && !NoReuseAt(calls, i)
    requires forall j :: 0 <= j < i ==> !calls[j].Purge?
    requires !calls[i].link.IsExpired(calls[i].now)
    ensures purged == calls[..i] + [Purge(calls[i].now)] + calls[i..]
    ensures Location(After(purged, i + 2, true), calls[i].link.code, calls[i].now) == Some(calls[i].link.targetUrl)
    ensures Location(After(purged, i + 2, false), calls[i].link.code, calls[i].now) == None
  {
    var call := calls[i];
    purged := calls[..i] + [Purge(call.now)] + calls[i..];
    assert purged[..i] == calls[..i] && purged[i] == Purge(call.now) && purged[i + 1] == call;
    SamePrefix(purged, calls, i, true);
    SamePrefix(purged, calls, i, false);
    NoPurgesNoDifference(calls, i);
    var r := After(calls, i, false);
    assert After(purged, i + 1, false) == r;
    assert After(purged, i + 1, true) == Purged(r, call.now);
    assert call.link.code !in Purged(r, call.now).links;
  }

  // ----- exactly when purging cannot be seen -----

  /** The first n calls without their purges. */
  function Unpurged(calls: seq<Call>, n: nat): (rest: seq<Call>)
    requires n <= |calls|
  {
    if n == 0 then [] else Unpurged(calls, n - 1) + if calls[n - 1].Purge? then [] else [calls[n - 1]]
  }

  /** `calls` is the run `base` with purges put anywhere into it. */
  ghost predicate WithPurges(calls: seq<Call>, base: seq<Call>) {
    ClockRuns(calls) && Unpurged(calls, |calls|) == base
  }

  lemma {:induction false} UnpurgedPrefix(calls: seq<Call>, m: nat, n: nat)
    requires m <= n <= |calls|
    ensures Unpurged(calls, m) <= Unpurged(calls, n)
  {
    if m < n {
      UnpurgedPrefix(calls, m, n - 1);
    }
  }

  lemma AfterOneMore(calls: seq<Call>, call: Call)
    ensures After(calls + [call], |calls| + 1, false) == Step(After(calls, |calls|, false), call, false)
  {
    SamePrefix(calls, calls + [call], |calls|, false);
  }

  lemma {:induction false} UnpurgedAfter(calls: seq<Call>, n: nat)
    requires n <= |calls|
    ensures After(calls, n, false) == After(Unpurged(calls, n), |Unpurged(calls, n)|, false)
  {
    if n > 0 {
      UnpurgedAfter(calls, n - 1);
      if calls[n - 1].Purge? {
        assert Unpurged(calls, n) == Unpurged(calls, n - 1);
      } else {
        AfterOneMore(Unpurged(calls, n - 1), calls[n - 1]);
      }
    }
  }

  ghost predicate RedirectAlike(purged: Repo, full: Repo, now: Timestamp) {
    forall code :: Location(purged, code, now) == Location(full, code, now)
  }

  /** Right after call n a redirect to any code would lead to the same place
      with the purges and without them. */
  ghost predicate UnnoticedAt(calls: seq<Call>, n: nat)
    requires n < |calls|
  {
    RedirectAlike(After(calls, n + 1, true), After(calls, n + 1, false), calls[n].now)
  }

  ghost predicate Unnoticed(calls: seq<Call>) {
    forall n :: 0 <= n < |calls| ==> UnnoticedAt(calls, n)
  }

  lemma NoReuseWithPurges(calls: seq<Call>, base: seq<Call>, i: nat)
    requires WithPurges(calls, base) && NoReuse(base) && i < |calls|
    ensures NoReuseAt(calls, i)
  {
    if calls[i].Insert? {
      var rest := Unpurged(calls, i);
      var j := |rest|;
      UnpurgedPrefix(calls, i + 1, |calls|);
      assert rest + [calls[i]] <= base;
      assert base[j] == calls[i] && base[..j] == rest;
      UnpurgedAfter(calls, i);
      SamePrefix(rest, base, j, false);
      assert NoReuseAt(base, j);
    }
  }

  lemma AllAlike(purged: Repo, full: Repo, now: Timestamp)
    requires LacksExpired(purged, full, now)
    ensures RedirectAlike(purged, full, now)
  {
    forall code
      ensures Location(purged, code, now) == Location(full, code, now)
    {
      SameLocation(purged, full, code, now);
    }
  }

  lemma NoReuseUnnoticed(calls: seq<Call>, base: seq<Call>)
    requires WithPurges(calls, base) && NoReuse(base)
    ensures Unnoticed(calls)
  {
    forall i | 0 <= i < |calls|
      ensures NoReuseAt(calls, i)
    {
      NoReuseWithPurges(calls, base, i);
    }
    forall n | 0 <= n < |calls|
      ensures UnnoticedAt(calls, n)
    {
      PurgesOnlyLack(calls, n);
      assert NoReuseAt(calls, n);
      LackStep(After(calls, n, true), After(calls, n, false), calls[n], calls[n].now);
      AllAlike(After(calls, n + 1, true), After(calls, n + 1, false), calls[n].now);
    }
  }

  /** One purge put into a run without purges. */
  lemma {:induction false} UnpurgedOfOne(base: seq<Call>, purged: seq<Call>, i: nat, n: nat)
    requires i <= |base| && n <= |purged|
    requires forall j :: 0 <= j < |base| ==> !base[j].Purge?
    requires |purged| == |base| + 1 && purged[i].Purge?
    requires forall j :: 0 <= j < |base| ==> purged[if j < i then j else j + 1] == base[j]
    ensures Unpurged(purged, n) == base[..if n <= i then n else n - 1]
  {
    if n > 0 {
      UnpurgedOfOne(base, purged, i, n - 1);
      if n <= i {
        assert purged[n - 1] == base[n - 1];
      } else if n > i + 1 {
        assert purged[n - 1] == base[n - 2];
      }
    }
  }

  lemma ClockStillRuns(base: seq<Call>, purged: seq<Call>, i: nat)
    requires ClockRuns(base) && i < |base|
    requires purged == base[..i] + [Purge(base[i].now)] + base[i..]
    ensures ClockRuns(purged)
  {
    forall j | 0 <= j < |purged|
      ensures purged[j].now == base[if j <= i then j else j - 1].now
    {
    }
  }

  lemma OnePurge(base: seq<Call>, purged: seq<Call>, i: nat)
    requires ClockRuns(base) && i < |base|
    requires forall j :: 0 <= j < |base| ==> !base[j].Purge?
    requires purged == base[..i] + [Purge(base[i].now)] + base[i..]
    ensures WithPurges(purged, base)
  {
    ClockStillRuns(base, purged, i);
    UnpurgedOfOne(base, purged, i, |purged|);
    assert base[..|base|] == base;
  }

  lemma NoticedAt(calls: seq<Call>, n: nat, code: string)
    requires n < |calls|
    requires Location(After(calls, n + 1, true), code, calls[n].now)
          != Location(After(calls, n + 1, false), code, calls[n].now)
    ensures !Unnoticed(calls)
  {
    assert !UnnoticedAt(calls, n);
  }

  /** Where a live insert does meet an expired link, a purge is noticed. */
  lemma ReuseNoticed(base: seq<Call>, i: nat) returns (purged: seq<Call>)
    requires ClockRuns(base) && i < |base| && !NoReuseAt(base, i)
    requires forall j :: 0 <= j < |base| ==> !base[j].Purge?
    requires !base[i].link.IsExpired(base[i].now)
    ensures WithPurges(purged, base) && !Unnoticed(purged)
  {
    purged := ReuseIsVisible(base, i);
    OnePurge(base, purged, i);
    assert purged[i + 1] == base[i];
    NoticedAt(purged, i + 1, base[i].link.code);
  }

  /** For a run of live inserts and other calls: purges, wherever they are put,
      go unnoticed if and only if no insert meets an expired link of its code. */
  lemma PurgesUnnoticedIff(base: seq<Call>)
    requires ClockRuns(base)
    requires forall i :: 0 <= i < |base| ==> !base[i].Purge?
    requires forall i :: 0 <= i < |base| && base[i].Insert? ==> !base[i].link.IsExpired(base[i].now)
    ensures NoReuse(base) <==> forall calls :: WithPurges(calls, base) ==> Unnoticed(calls)
  {
    if NoReuse(base) {
      forall calls | WithPurges(calls, base)
        ensures Unnoticed(calls)
      {
        NoReuseUnnoticed(calls, base);
      }
    } else {
      var i :| 0 <= i < |base| && !NoReuseAt(base, i);
      var purged := ReuseNoticed(base, i);
    }
  }
}
