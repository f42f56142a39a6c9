/** Optimistic updates in the Postgres repository: an UPDATE that compares the
    version, and when it matches no row a second query that finds out why. Each
    statement is atomic; statements of different clients interleave freely. */
module PostgresUpdates {
  import opened Domain

  /** A row; `id` is its primary key, never used twice. */
  datatype Row = Row(id: nat, targetUrl: string, expiresAt: Option<Timestamp>, version: int, hits: nat)

  datatype Outcome = Updated(row: Row) | Conflict | Missing | Rejected

  datatype Stage = Started | NoMatch | Finished(outcome: Outcome)

  datatype Client = Client(code: string, targetUrl: string, expected: int, stage: Stage)

  /** The links table by its unique code, and the update calls under way. */
  datatype State = State(rows: map<string, Row>, nextId: nat, clients: map<nat, Client>)

  datatype Event =
    | Insert(code: string, targetUrl: string, expiresAt: Option<Timestamp>)
    | Delete(code: string)
    | Hit(code: string)
    | Purge(now: Timestamp)
    | Begin(client: nat, code: string, targetUrl: string, expected: int)
    | UpdateStatement(client: nat)
    | SelectStatement(client: nat)

  const INIT: State := State(map[], 0, map[])

  /** The row an UPDATE statement would hit: same code, expected version. */
  predicate Matches(s: State, c: Client) {
    c.code in s.rows && s.rows[c.code].version == c.expected
  }

  predicate Updates(s: State, e: Event, id: nat) {
    && e.UpdateStatement? && e.client in s.clients
    && s.clients[e.client].stage.Started? && Matches(s, s.clients[e.client])
    && Targetable(s.clients[e.client].targetUrl)
    && s.rows[s.clients[e.client].code].id == id
  }

  /** The CHECK constraints of the table, which an INSERT has to meet and an
      UPDATE too, if it hits a row. */
  predicate Insertable(code: string, targetUrl: string) {
    4 <= |code| <= 32 && Targetable(targetUrl)
  }

  predicate Targetable(targetUrl: string) {
    |targetUrl| > 0
  }

  function Next(s: State, e: Event): State {
    match e
    case Insert(code, targetUrl, expiresAt) =>
      if code in s.rows || !Insertable(code, targetUrl) then s
      else s.(rows := s.rows[code := Row(s.nextId, targetUrl, expiresAt, 1, 0)], nextId := s.nextId + 1)
    case Delete(code) => s.(rows := s.rows - {code})
    case Hit(code) =>
      if code !in s.rows then s
      else s.(rows := s.rows[code := s.rows[code].(hits := s.rows[code].hits + 1)])
    case Purge(now) =>
      s.(rows := map c | c in s.rows && !Due(s.rows[c].expiresAt, now) :: s.rows[c])
    case Begin(client, code, targetUrl, expected) =>
      if client in s.clients then s
      else s.(clients := s.clients[client := Client(code, targetUrl, expected, Started)])
    case UpdateStatement(client) =>
      if client !in s.clients || !s.clients[client].stage.Started? then s
      else
        var c := s.clients[client];
        if Matches(s, c) && !Targetable(c.targetUrl) then
          s.(clients := s.clients[client := c.(stage := Finished(Rejected))])
        else if Matches(s, c) then
          var row := s.rows[c.code].(targetUrl := c.targetUrl, version := c.expected + 1);
          s.(rows := s.rows[c.code := row], clients := s.clients[client := c.(stage := Finished(Updated(row)))])
        else s.(clients := s.clients[client := c.(stage := NoMatch)])
    case SelectStatement(client) =>
      if client !in s.clients || !s.clients[client].stage.NoMatch? then s
      else
        var c := s.clients[client];
        var outcome := if c.code in s.rows then Conflict else Missing;
        s.(clients := s.clients[client := c.(stage := Finished(outcome))])
  }

  function After(events: seq<Event>, n: nat): State
    requires n <= |events|
  {
    if n == 0 then INIT else Next(After(events, n - 1), events[n - 1])
  }

  /** How many of the first n events updated the row with this id. */
  function UpdatesOf(events: seq<Event>, n: nat, id: nat): nat
    requires n <= |events|
  {
    if n == 0 then 0
    else UpdatesOf(events, n - 1, id) + if Updates(After(events, n - 1), events[n - 1], id) then 1 else 0
  }

  ghost predicate IdsUsed(s: State) {
    && (forall c :: c in s.rows ==> s.rows[c].id < s.nextId)
    && (forall c, d :: c in s.rows && d in s.rows && s.rows[c].id == s.rows[d].id ==> c == d)
  }

  /** What one event does to a row that it does not remove. */
  lemma RowStep(s: State, e: Event, c: string)
    requires IdsUsed(s) && c in Next(s, e).rows
    ensures
      var row := Next(s, e).rows[c];
      || (row.id == s.nextId && row.version == 1 && c !in s.rows && e.Insert? && e.code == c)
      || (&& c in s.rows && row.id == s.rows[c].id
          && row.version == s.rows[c].version + (if Updates(s, e, row.id) then 1 else 0)
          && (!Updates(s, e, row.id) ==> row.targetUrl == s.rows[c].targetUrl))
  {
  }

  lemma IdsStep(s: State, e: Event)
    requires IdsUsed(s)
    ensures IdsUsed(Next(s, e))
    ensures s.nextId <= Next(s, e).nextId
  {
  }

  lemma {:induction false} IdsRun(events: seq<Event>, n: nat)
    requires n <= |events|
    ensures IdsUsed(After(events, n))
    ensures forall id :: id >= After(events, n).nextId ==> UpdatesOf(events, n, id) == 0
  {
    if n > 0 {
      IdsRun(events, n - 1);
      IdsStep(After(events, n - 1), events[n - 1]);
    }
  }

  /** Within one lifetime of a link, the version is one plus the number of
      updates that succeeded on it. */
  lemma {:induction false} VersionCountsUpdates(events: seq<Event>, n: nat, c: string)
    requires n <= |events| && c in After(events, n).rows
    ensures
      var row := After(events, n).rows[c];
      row.version == 1 + UpdatesOf(events, n, row.id)
  {
    if n > 0 {
      var s, e := After(events, n - 1), events[n - 1];
      IdsRun(events, n - 1);
      RowStep(s, e, c);
      if c in s.rows {
        VersionCountsUpdates(events, n - 1, c);
      }
    }
  }

  lemma {:induction false} UpdatesMonotone(events: seq<Event>, i: nat, j: nat, id: nat)
    requires i <= j <= |events|
    ensures UpdatesOf(events, i, id) <= UpdatesOf(events, j, id)
  {
    if i < j {
      UpdatesMonotone(events, i, j - 1, id);
    }
  }

  /** At most one update of a link succeeds per expected version. */
  lemma OnePerVersion(events: seq<Event>, i: nat, j: nat, id: nat)
    requires i < j < |events|
    requires Updates(After(events, i), events[i], id) && Updates(After(events, j), events[j], id)
    ensures After(events, i).clients[events[i].client].expected < After(events, j).clients[events[j].client].expected
  {
    VersionCountsUpdates(events, i, After(events, i).clients[events[i].client].code);
    VersionCountsUpdates(events, j, After(events, j).clients[events[j].client].code);
    assert UpdatesOf(events, i + 1, id) == UpdatesOf(events, i, id) + 1;
    UpdatesMonotone(events, i + 1, j, id);
  }

  /** While no update succeeds on a link, its target stays. */
  lemma {:induction false} TargetStays(events: seq<Event>, i: nat, j: nat, c: string)
    requires i <= j <= |events|
    requires c in After(events, i).rows && c in After(events, j).rows
    requires After(events, i).rows[c].id == After(events, j).rows[c].id
    requires UpdatesOf(events, i, After(events, i).rows[c].id) == UpdatesOf(events, j, After(events, i).rows[c].id)
    ensures After(events, i).rows[c].targetUrl == After(events, j).rows[c].targetUrl
  {
    if i < j {
      var id := After(events, i).rows[c].id;
      IdsRun(events, j - 1);
      RowStep(After(events, j - 1), events[j - 1], c);
      IdsRun(events, i);
      NextIdMonotone(events, i, j - 1);
      UpdatesMonotone(events, i, j - 1, id);
      UpdatesMonotone(events, j - 1, j, id);
      TargetStays(events, i, j - 1, c);
    }
  }

  lemma {:induction false} NextIdMonotone(events: seq<Event>, i: nat, j: nat)
    requires i <= j <= |events|
    ensures After(events, i).nextId <= After(events, j).nextId
  {
    if i < j {
      NextIdMonotone(events, i, j - 1);
      IdsRun(events, j - 1);
      IdsStep(After(events, j - 1), events[j - 1]);
    }
  }

  /** No lost updates: an update succeeds only on the very target its caller saw
      with the version it expects, whatever ran in between. */
  lemma NoLostUpdate(events: seq<Event>, i: nat, j: nat, id: nat)
    requires i <= j < |events| && Updates(After(events, j), events[j], id)
    requires
      var call := After(events, j).clients[events[j].client];
      && call.code in After(events, i).rows
      && After(events, i).rows[call.code].id == id
      && After(events, i).rows[call.code].version == call.expected
    ensures
      var code := After(events, j).clients[events[j].client].code;
      After(events, j).rows[code].targetUrl == After(events, i).rows[code].targetUrl
  {
    var code := After(events, j).clients[events[j].client].code;
    VersionCountsUpdates(events, i, code);
    VersionCountsUpdates(events, j, code);
    TargetStays(events, i, j, code);
  }

  /** Event i was this call's UPDATE; it found no row to change and changed none. */
  ghost predicate Refused(events: seq<Event>, i: nat, client: nat, c: Client)
    requires i < |events|
  {
    && events[i] == UpdateStatement(client)
    && client in After(events, i).clients && After(events, i).clients[client] == c.(stage := Started)
    && !Matches(After(events, i), c)
    && After(events, i + 1).rows == After(events, i).rows
  }

  /** Event j was this call's follow-up SELECT; it only looked. */
  ghost predicate Looked(events: seq<Event>, j: nat, client: nat, c: Client, found: bool)
    requires j < |events|
  {
    && events[j] == SelectStatement(client)
    && client in After(events, j).clients && After(events, j).clients[client] == c.(stage := NoMatch)
    && (c.code in After(events, j).rows <==> found)
    && After(events, j + 1).rows == After(events, j).rows
  }

  /** Event i was this call's UPDATE; it hit a row but would have emptied its
      target, and changed none. */
  ghost predicate Rejects(events: seq<Event>, i: nat, client: nat, c: Client)
    requires i < |events|
  {
    && events[i] == UpdateStatement(client)
    && client in After(events, i).clients && After(events, i).clients[client] == c.(stage := Started)
    && Matches(After(events, i), c)
    && After(events, i + 1).rows == After(events, i).rows
  }

  /** An UPDATE sets the target and the version, and no other column. */
  predicate Untouched(before: Row, after: Row) {
    after.id == before.id && after.expiresAt == before.expiresAt && after.hits == before.hits
  }

  /** What must have happened for a call to be where it is. */
  ghost predicate Explained(events: seq<Event>, n: nat, client: nat, c: Client)
    requires n <= |events|
  {
    match c.stage
    case Started => true
    case NoMatch => exists i: nat :: i < n && Refused(events, i, client, c)
    case Finished(Updated(row)) =>
      exists i: nat :: i < n && events[i] == UpdateStatement(client)
        && client in After(events, i).clients && After(events, i).clients[client] == c.(stage := Started)
        && Matches(After(events, i), c)
        && After(events, i + 1).rows == After(events, i).rows[c.code := row]
        && row.targetUrl == c.targetUrl != "" && row.version == c.expected + 1
        && Untouched(After(events, i).rows[c.code], row)
    case Finished(Rejected) =>
      c.targetUrl == "" && exists i: nat :: i < n && Rejects(events, i, client, c)
    case Finished(Conflict) =>
      exists i: nat, j: nat :: i < j < n && Refused(events, i, client, c) && Looked(events, j, client, c, true)
    case Finished(Missing) =>
      exists i: nat, j: nat :: i < j < n && Refused(events, i, client, c) && Looked(events, j, client, c, false)
  }

  lemma ExplainedLater(events: seq<Event>, n: nat, client: nat, c: Client)
    requires n < |events| && Explained(events, n, client, c)
    ensures Explained(events, n + 1, client, c)
  {
  }

  lemma RefusedSame(events: seq<Event>, i: nat, client: nat, c: Client, d: Client)
    requires i < |events| && Refused(events, i, client, c)
    requires d.(stage := c.stage) == c
    ensures Refused(events, i, client, d)
  {
  }

  /** Every outcome is true, at some instant: a success replaced the row it
      reports, a conflict or a missing link was refused by an UPDATE that found
      no such version and explained by a later SELECT that did or did not find
      the code. A failed call has changed no row in either statement. */
  lemma {:induction false} OutcomesExplained(events: seq<Event>, n: nat, client: nat)
    requires n <= |events| && client in After(events, n).clients
    ensures Explained(events, n, client, After(events, n).clients[client])
  {
    if n > 0 {
      var s, e := After(events, n - 1), events[n - 1];
      var d := After(events, n).clients[client];
      if client in s.clients {
        var c := s.clients[client];
        OutcomesExplained(events, n - 1, client);
        if d == c {
          ExplainedLater(events, n - 1, client, c);
        } else if e.UpdateStatement? {
          if Matches(s, c) && c.targetUrl == "" {
            assert Rejects(events, n - 1, client, d);
          } else if Matches(s, c) {
            assert After(events, n - 1 + 1).rows == s.rows[c.code := d.stage.outcome.row];
          } else {
            assert Refused(events, n - 1, client, d);
          }
        } else {
          var i: nat :| i < n - 1 && Refused(events, i, client, c);
          RefusedSame(events, i, client, c, d);
          assert Looked(events, n - 1, client, d, c.code in s.rows);
        }
      }
    }
  }

  // ----- which link an update hits -----

  /** The code has a row in every table from i to j. */
  ghost predicate Present(events: seq<Event>, i: nat, j: nat, c: string)
    requires j <= |events|
  {
    forall k: nat :: i <= k <= j ==> c in After(events, k).rows
  }

  /** Ids are never used again: a row seen at i and at j > i was there at j - 1. */
  lemma SameRowBefore(events: seq<Event>, i: nat, j: nat, c: string)
    requires i < j <= |events|
    requires c in After(events, i).rows && c in After(events, j).rows
    requires After(events, i).rows[c].id == After(events, j).rows[c].id
    ensures c in After(events, j - 1).rows
    ensures After(events, j - 1).rows[c].id == After(events, j).rows[c].id
  {
    IdsRun(events, i);
    IdsRun(events, j - 1);
    NextIdMonotone(events, i, j - 1);
    RowStep(After(events, j - 1), events[j - 1], c);
  }

  lemma {:induction false} SameRowThroughout(events: seq<Event>, i: nat, j: nat, c: string)
    requires i <= j <= |events|
    requires c in After(events, i).rows && c in After(events, j).rows
    requires After(events, i).rows[c].id == After(events, j).rows[c].id
    ensures Present(events, i, j, c)
  {
    if i < j {
      SameRowBefore(events, i, j, c);
      SameRowThroughout(events, i, j - 1, c);
    }
  }

  lemma {:induction false} ThroughoutSameRow(events: seq<Event>, i: nat, j: nat, c: string)
    requires i <= j <= |events| && Present(events, i, j, c)
    ensures After(events, i).rows[c].id == After(events, j).rows[c].id
  {
    if i < j {
      ThroughoutSameRow(events, i, j - 1, c);
      assert c in After(events, j - 1).rows && c in After(events, j).rows;
      IdsRun(events, j - 1);
      RowStep(After(events, j - 1), events[j - 1], c);
    }
  }

  /** Two instants see the same link under a code if and only if the code had a
      row at every instant between them. */
  lemma LifetimeIff(events: seq<Event>, i: nat, j: nat, c: string)
    requires i <= j <= |events|
    requires c in After(events, i).rows && c in After(events, j).rows
    ensures After(events, i).rows[c].id == After(events, j).rows[c].id <==> Present(events, i, j, c)
  {
    if Present(events, i, j, c) {
      ThroughoutSameRow(events, i, j, c);
    } else if After(events, i).rows[c].id == After(events, j).rows[c].id {
      SameRowThroughout(events, i, j, c);
    }
  }

  /** An update that succeeds on the version its caller saw replaces the very
      link, with the very target, that the caller saw, if and only if nothing
      removed the code in between; otherwise it replaces another link. */
  lemma UpdateHitsSeenIff(events: seq<Event>, i: nat, j: nat, c: string)
    requires i <= j < |events| && c in After(events, i).rows && c in After(events, j).rows
    requires Updates(After(events, j), events[j], After(events, j).rows[c].id)
    requires After(events, j).clients[events[j].client].expected == After(events, i).rows[c].version
    ensures
      var seen, hit := After(events, i).rows[c], After(events, j).rows[c];
      && (Updates(After(events, j), events[j], seen.id) <==> Present(events, i, j, c))
      && (Present(events, i, j, c) ==> hit.targetUrl == seen.targetUrl && hit.version == seen.version)
  {
    IdsRun(events, j);
    assert After(events, j).clients[events[j].client].code == c;
    LifetimeIff(events, i, j, c);
    if Present(events, i, j, c) {
      NoLostUpdate(events, i, j, After(events, j).rows[c].id);
    }
  }

  /** A witness of the other case: after a delete and a new insert, an update
      that expects version 1 of the old link replaces the target of the new one. */
  lemma VersionDoesNotSpanLifetimes()
    ensures
      var events := [
        Insert("code", "https://a", None), Delete("code"), Insert("code", "https://b", None),
        Begin(1, "code", "https://a2", 1), UpdateStatement(1)];
      && After(events, 1).rows["code"].version == 1
      && Updates(After(events, 4), events[4], 1)
      && After(events, 1).rows["code"].id == 0
  {
  }
}
