/** What the in-memory repository holds after any run, told from the calls
    alone: which links are stored, where they lead, and what was counted. */
module RepoHistory {
  import opened Domain
  import opened SlidingWindow
  import opened InMemoryRepo
  import opened RepoRuns

  // ----- which insert a link goes back to -----

  /** The insert to which the code owes its link after n calls: one that met the
      code free and was not followed by a removal, or by a purge after the expiry
      it gave. */
  function InsertedAt(calls: seq<Call>, n: nat, code: string): (i: Option<nat>)
    requires n <= |calls|
    ensures i.Some? ==> i.value < n && calls[i.value].Insert? && calls[i.value].link.code == code
  {
    if n == 0 then None
    else
      var i := InsertedAt(calls, n - 1, code);
      match calls[n - 1]
      case Insert(link, _) => if i.None? && link.code == code then Some(n - 1) else i
      case Remove(c, _) => if c == code then None else i
      case Purge(now) => if i.Some? && Due(calls[i.value].link.expiresAt, now) then None else i
      case _ => i
  }

  /** Call j takes away the link that call i inserted under the code. */
  predicate Takes(calls: seq<Call>, i: nat, j: nat, code: string)
    requires i < |calls| && j < |calls| && calls[i].Insert?
  {
    match calls[j]
    case Remove(c, _) => c == code
    case Purge(now) => Due(calls[i].link.expiresAt, now)
    case _ => false
  }

  /** The same without recursion over what followed the insert. */
  lemma {:induction false} InsertedAtIff(calls: seq<Call>, i: nat, n: nat, code: string)
    requires i < n <= |calls|
    ensures
      InsertedAt(calls, n, code) == Some(i)
      <==> (&& calls[i].Insert? && calls[i].link.code == code && InsertedAt(calls, i, code) == None
            && forall j :: i < j < n ==> !Takes(calls, i, j, code))
  {
    if i < n - 1 {
      InsertedAtIff(calls, i, n - 1, code);
      var ours := calls[i].Insert? && InsertedAt(calls, n - 1, code) == Some(i);
      assert InsertedAt(calls, n, code) == Some(i) <==> ours && !Takes(calls, i, n - 1, code);
    }
  }

  // ----- what has happened to the link since -----

  predicate IsUpdate(call: Call, code: string) {
    call.Update? && call.code == code
  }

  /** How many of the calls i..n-1 update the code. */
  function UpdatesIn(calls: seq<Call>, i: nat, n: nat, code: string): nat
    requires i <= n <= |calls|
  {
    if i == n then 0 else UpdatesIn(calls, i, n - 1, code) + if IsUpdate(calls[n - 1], code) then 1 else 0
  }

  /** The last of them. */
  function LastUpdate(calls: seq<Call>, i: nat, n: nat, code: string): (k: Option<nat>)
    requires i <= n <= |calls|
    ensures k.Some? ==>
      && i <= k.value < n && IsUpdate(calls[k.value], code)
      && forall j :: k.value < j < n ==> !IsUpdate(calls[j], code)
    ensures k.None? ==> forall j :: i <= j < n ==> !IsUpdate(calls[j], code)
  {
    if i == n then None
    else if IsUpdate(calls[n - 1], code) then Some(n - 1)
    else LastUpdate(calls, i, n - 1, code)
  }

  /** A hit on a stored link of this expiry, recorded as such or by a redirect
      that leads somewhere. */
  predicate IsHit(call: Call, code: string, expiresAt: Option<Timestamp>) {
    match call
    case Hit(c, _) => c == code
    case Redirect(c, now) => c == code && !Due(expiresAt, now)
    case _ => false
  }

  function HitsBetween(calls: seq<Call>, i: nat, n: nat, code: string, expiresAt: Option<Timestamp>): nat
    requires i <= n <= |calls|
  {
    if i == n then 0
    else HitsBetween(calls, i, n - 1, code, expiresAt) + if IsHit(calls[n - 1], code, expiresAt) then 1 else 0
  }

  /** The entry is what the insert at i and the calls after it make of it. */
  ghost predicate Accounts(calls: seq<Call>, i: nat, n: nat, code: string, e: Entry)
    requires i < n <= |calls| && calls[i].Insert?
  {
    var first, last := calls[i].link, LastUpdate(calls, i + 1, n, code);
    && e.link.code == code && e.link.createdAt == first.createdAt && e.link.expiresAt == first.expiresAt
    && e.link.targetUrl == (if last.Some? then calls[last.value].targetUrl else first.targetUrl)
    && e.link.updatedAt == (if last.Some? then calls[last.value].now else first.updatedAt)
    && e.link.version == first.version + UpdatesIn(calls, i + 1, n, code)
    && e.hits == HitsBetween(calls, i + 1, n, code, first.expiresAt)
  }

  /** The history explains what is stored under the code after n calls. */
  ghost predicate Told(calls: seq<Call>, n: nat, code: string, r: Repo)
    requires n <= |calls|
  {
    var i := InsertedAt(calls, n, code);
    && (code in r.links <==> i.Some?)
    && (i.Some? && code in r.links ==> Accounts(calls, i.value, n, code, r.links[code]))
  }

  lemma ToldStep(calls: seq<Call>, n: nat, code: string, r: Repo)
    requires n < |calls| && r.Valid() && Told(calls, n, code, r)
    ensures Told(calls, n + 1, code, Apply(r, calls[n]))
  {
  }

  /** In every reachable state: a code is stored if and only if an insert that
      met it free has not been followed by a removal or by a purge after its
      expiry; the link has the target of the last update since, or else of the
      insert, a version raised by the number of updates, and the hits since. */
  lemma {:induction false} StoredIsTold(calls: seq<Call>, n: nat, code: string)
    requires n <= |calls|
    ensures Told(calls, n, code, After(calls, n, true))
  {
    if n > 0 {
      StoredIsTold(calls, n - 1, code);
      ToldStep(calls, n - 1, code, After(calls, n - 1, true));
    }
  }

  /** A redirect leads, until the expiry the insert gave, to the target last
      given by the insert or an update. */
  lemma RedirectsAsTold(calls: seq<Call>, n: nat, code: string, now: Timestamp)
    requires n <= |calls|
    ensures
      var i := InsertedAt(calls, n, code);
      Location(After(calls, n, true), code, now) ==
        if i.None? then None
        else if calls[i.value].link.expiresAt.Some? && now >= calls[i.value].link.expiresAt.value then None
        else
          var last := LastUpdate(calls, i.value + 1, n, code);
          Some(if last.Some? then calls[last.value].targetUrl else calls[i.value].link.targetUrl)
  {
    StoredIsTold(calls, n, code);
  }

  // ----- the statistics -----

  /** The seconds of the code's counted hits since a purge last took it. */
  function HitSeconds(calls: seq<Call>, n: nat, code: string): seq<nat>
    requires n <= |calls|
  {
    if n == 0 then []
    else
      var i, earlier := InsertedAt(calls, n - 1, code), HitSeconds(calls, n - 1, code);
      if i.None? then earlier
      else
        var expiresAt := calls[i.value].link.expiresAt;
        if calls[n - 1].Purge? && Due(expiresAt, calls[n - 1].now) then []
        else if IsHit(calls[n - 1], code, expiresAt) then earlier + [UnixSecs(calls[n - 1].now)]
        else earlier
  }

  lemma ReplayOneMore(hits: seq<nat>, hit: nat)
    ensures Replay(hits).Valid() && Replay(hits + [hit]) == Recorded(Replay(hits), hit)
  {
    assert (hits + [hit])[..|hits|] == hits;
  }

  lemma CountedStep(calls: seq<Call>, n: nat, code: string, r: Repo)
    requires n < |calls| && r.Valid() && Told(calls, n, code, r) && (calls[n].Hit? || calls[n].Redirect?)
    requires StatsOf(r, code) == Replay(HitSeconds(calls, n, code))
    ensures
      var i := InsertedAt(calls, n, code);
      var counts := i.Some? && IsHit(calls[n], code, calls[i.value].link.expiresAt);
      && Apply(r, calls[n]).Valid()
      && StatsOf(Apply(r, calls[n]), code)
         == if counts then Recorded(StatsOf(r, code), UnixSecs(calls[n].now)) else StatsOf(r, code)
  {
    ApplyValid(r, calls[n]);
  }

  lemma StatsStep(calls: seq<Call>, n: nat, code: string, r: Repo)
    requires n < |calls| && r.Valid() && Told(calls, n, code, r)
    requires StatsOf(r, code) == Replay(HitSeconds(calls, n, code))
    ensures Apply(r, calls[n]).Valid()
    ensures StatsOf(Apply(r, calls[n]), code) == Replay(HitSeconds(calls, n + 1, code))
  {
    ApplyValid(r, calls[n]);
    if calls[n].Hit? || calls[n].Redirect? {
      CountedStep(calls, n, code, r);
      ReplayOneMore(HitSeconds(calls, n, code), UnixSecs(calls[n].now));
    }
  }

  /** In every reachable state a code's window is the replay of its counted
      hits, with the seconds they were recorded at. */
  lemma {:induction false} StatsAreReplay(calls: seq<Call>, n: nat, code: string)
    requires n <= |calls|
    ensures StatsOf(After(calls, n, true), code) == Replay(HitSeconds(calls, n, code))
  {
    if n > 0 {
      StoredIsTold(calls, n - 1, code);
      StatsAreReplay(calls, n - 1, code);
      StatsStep(calls, n - 1, code, After(calls, n - 1, true));
    }
  }
}
