/** What the Postgres repository holds after any run, told from its events:
    which rows are stored and what every column of a row goes back to. */
module PostgresHistory {
  import opened Domain
  import opened PostgresUpdates

  /** The insert to which the code owes its row after n events: one that met the
      code free and was not followed by a delete, or by a purge after the expiry
      it gave. */
  function InsertedAt(events: seq<Event>, n: nat, c: string): (i: Option<nat>)
    requires n <= |events|
    ensures i.Some? ==> i.value < n && events[i.value].Insert? && events[i.value].code == c
    ensures i.Some? ==> 4 <= |c| <= 32 && |events[i.value].targetUrl| > 0
  {
    if n == 0 then None
    else
      var i := InsertedAt(events, n - 1, c);
      match events[n - 1]
      case Insert(code, targetUrl, _) =>
        if i.None? && code == c && 4 <= |code| <= 32 && |targetUrl| > 0 then Some(n - 1) else i
      case Delete(code) => if code == c then None else i
      case Purge(now) => if i.Some? && Due(events[i.value].expiresAt, now) then None else i
      case _ => i
  }

  /** Event k is an update of the code that succeeds: the call is at its UPDATE,
      expects the version of the row and has a target to give. */
  predicate Succeeds(events: seq<Event>, k: nat, c: string)
    requires k < |events|
  {
    var s := After(events, k);
    && events[k].UpdateStatement? && events[k].client in s.clients
    && s.clients[events[k].client].stage.Started? && s.clients[events[k].client].code == c
    && c in s.rows && s.rows[c].version == s.clients[events[k].client].expected
    && |s.clients[events[k].client].targetUrl| > 0
  }

  /** The last such event from i on. */
  function LastSuccess(events: seq<Event>, i: nat, n: nat, c: string): (k: Option<nat>)
    requires i <= n <= |events|
    ensures k.Some? ==>
      && i <= k.value < n && Succeeds(events, k.value, c)
      && forall j :: k.value < j < n ==> !Succeeds(events, j, c)
    ensures k.None? ==> forall j :: i <= j < n ==> !Succeeds(events, j, c)
  {
    if i == n then None
    else if Succeeds(events, n - 1, c) then Some(n - 1)
    else LastSuccess(events, i, n - 1, c)
  }

  function SuccessesIn(events: seq<Event>, i: nat, n: nat, c: string): nat
    requires i <= n <= |events|
  {
    if i == n then 0 else SuccessesIn(events, i, n - 1, c) + if Succeeds(events, n - 1, c) then 1 else 0
  }

  function HitsIn(events: seq<Event>, i: nat, n: nat, c: string): nat
    requires i <= n <= |events|
  {
    if i == n then 0 else HitsIn(events, i, n - 1, c) + if events[n - 1] == Hit(c) then 1 else 0
  }

  function TargetGiven(events: seq<Event>, k: nat): string
    requires k < |events| && events[k].UpdateStatement? && events[k].client in After(events, k).clients
  {
    After(events, k).clients[events[k].client].targetUrl
  }

  ghost predicate Accounts(events: seq<Event>, i: nat, n: nat, c: string, row: Row)
    requires i < n <= |events| && events[i].Insert?
  {
    var last := LastSuccess(events, i + 1, n, c);
    && row.expiresAt == events[i].expiresAt
    && row.targetUrl == (if last.Some? then TargetGiven(events, last.value) else events[i].targetUrl)
    && row.version == 1 + SuccessesIn(events, i + 1, n, c)
    && row.hits == HitsIn(events, i + 1, n, c)
  }

  /** The history explains what is stored under the code after n events. */
  ghost predicate Told(events: seq<Event>, n: nat, c: string)
    requires n <= |events|
  {
    var i, rows := InsertedAt(events, n, c), After(events, n).rows;
    && (c in rows <==> i.Some?)
    && (i.Some? && c in rows ==> Accounts(events, i.value, n, c, rows[c]))
  }

  /** In every reachable state: a code has a row if and only if an insert that met
      it free has not been followed by a delete or by a purge after its expiry;
      the row keeps that expiry, has the target of the last update that succeeded
      since, or else of the insert, and counts the updates and the hits since. */
  lemma {:induction false} StoredIsTold(events: seq<Event>, n: nat, c: string)
    requires n <= |events|
    ensures Told(events, n, c)
  {
    if n > 0 {
      StoredIsTold(events, n - 1, c);
      ToldStep(events, n - 1, c);
    }
  }

  lemma ToldStep(events: seq<Event>, n: nat, c: string)
    requires n < |events| && Told(events, n, c)
    ensures Told(events, n + 1, c)
  {
    if Succeeds(events, n, c) {
      SuccessToldStep(events, n, c);
    }
  }

  lemma SuccessToldStep(events: seq<Event>, n: nat, c: string)
    requires n < |events| && Told(events, n, c) && Succeeds(events, n, c)
    ensures Told(events, n + 1, c)
  {
    assert After(events, n + 1) == Next(After(events, n), events[n]);
  }

  /** The constraints of the table hold of every row. */
  lemma ConstraintsHold(events: seq<Event>, n: nat, c: string)
    requires n <= |events| && c in After(events, n).rows
    ensures 4 <= |c| <= 32 && |After(events, n).rows[c].targetUrl| > 0
  {
    StoredIsTold(events, n, c);
    assert InsertedAt(events, n, c).Some?;
  }

  /** A purge leaves no row that has expired at its instant and takes no other. */
  lemma PurgeTakesExpired(s: State, now: Timestamp, c: string)
    ensures
      var rows := Next(s, Purge(now)).rows;
      && (c in rows <==> c in s.rows && (s.rows[c].expiresAt.Some? ==> now < s.rows[c].expiresAt.value))
      && (c in rows ==> rows[c] == s.rows[c])
  {
  }

  lemma ExpiryStep(s: State, e: Event, c: string)
    requires c in s.rows && c in Next(s, e).rows
    ensures Next(s, e).rows[c].expiresAt == s.rows[c].expiresAt
  {
  }

  /** Within one lifetime of a link its expiry stays. */
  lemma ExpiryStays(events: seq<Event>, i: nat, j: nat, c: string)
    requires i <= j <= |events| && c in After(events, i).rows && c in After(events, j).rows
    requires After(events, i).rows[c].id == After(events, j).rows[c].id
    ensures After(events, i).rows[c].expiresAt == After(events, j).rows[c].expiresAt
    decreases j
  {
    if i < j {
      SameRowBefore(events, i, j, c);
      ExpiryStays(events, i, j - 1, c);
      ExpiryStep(After(events, j - 1), events[j - 1], c);
    }
  }

  // ----- the calls -----

  /** A call under way is the one its client began: nothing of it changes. */
  lemma {:induction false} CallAsBegun(events: seq<Event>, n: nat, client: nat) returns (k: nat)
    requires n <= |events| && client in After(events, n).clients
    ensures k < n
    ensures
      var call := After(events, n).clients[client];
      events[k] == Begin(client, call.code, call.targetUrl, call.expected)
    ensures client !in After(events, k).clients
  {
    k := n - 1;
    if client in After(events, n - 1).clients {
      k := CallAsBegun(events, n - 1, client);
    }
  }
}
