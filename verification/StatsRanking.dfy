/** The links with the most recorded hits. */
module StatsRanking {
  import opened SlidingWindow

  type Ranked = (string, nat)

  ghost predicate Ranking(s: seq<Ranked>) {
    forall i, j :: 0 <= i < j < |s| ==> s[i].1 >= s[j].1 && s[i].0 != s[j].0
  }

  predicate Reports(stats: map<string, Window>, r: Ranked) {
    r.0 in stats && stats[r.0].total == r.1
  }

  method InsertRanked(s: seq<Ranked>, r: Ranked) returns (t: seq<Ranked>)
    requires Ranking(s) && forall i :: 0 <= i < |s| ==> s[i].0 != r.0
    ensures Ranking(t) && |t| == |s| + 1
    ensures forall x :: x in t <==> x in s || x == r
  {
    var i := 0;
    while i < |s| && s[i].1 >= r.1
      invariant 0 <= i <= |s|
      invariant forall j :: 0 <= j < i ==> s[j].1 >= r.1
    {
      i := i + 1;
    }
    t := s[..i] + [r] + s[i..];
    PlacedRanking(s, i, r);
    PlacedMembers(s, i, r);
  }

  lemma PlacedRanking(s: seq<Ranked>, i: nat, r: Ranked)
    requires Ranking(s) && i <= |s| && forall j :: 0 <= j < |s| ==> s[j].0 != r.0
    requires forall j :: 0 <= j < i ==> s[j].1 >= r.1
    requires i < |s| ==> s[i].1 < r.1
    ensures Ranking(s[..i] + [r] + s[i..])
  {
  }

  lemma PlacedMembers(s: seq<Ranked>, i: nat, r: Ranked)
    requires i <= |s|
    ensures forall x :: x in s[..i] + [r] + s[i..] <==> x in s || x == r
  {
  }

  method RankAll(stats: map<string, Window>) returns (entries: seq<Ranked>)
    ensures Ranking(entries) && |entries| == |stats|
    ensures forall x :: x in entries <==> Reports(stats, x)
  {
    entries := [];
    var rest := stats.Keys;
    while rest != {}
      invariant rest <= stats.Keys && |entries| + |rest| == |stats|
      invariant Ranking(entries)
      invariant forall x :: x in entries <==> Reports(stats, x) && x.0 !in rest
      decreases rest
    {
      var c :| c in rest;
      entries := InsertRanked(entries, (c, stats[c].total));
      rest := rest - {c};
    }
  }

  /** The reported links are the `limit` best: their totals are right and in
      order, and no link left out has more hits than one that is reported. */
  method GetTop(stats: map<string, Window>, limit: nat) returns (top: seq<Ranked>)
    ensures Ranking(top) && |top| == if limit <= |stats| then limit else |stats|
    ensures forall i :: 0 <= i < |top| ==> Reports(stats, top[i])
    ensures forall c :: c in stats && (c, stats[c].total) !in top ==>
      |top| == limit && forall i :: 0 <= i < |top| ==> stats[c].total <= top[i].1
  {
    var entries := RankAll(stats);
    top := if limit <= |entries| then entries[..limit] else entries;
    forall k | 0 <= k < |top|
      ensures entries[k] in top
    {
      assert top[k] == entries[k];
    }
    forall c | c in stats && (c, stats[c].total) !in top
      ensures |top| == limit && forall i :: 0 <= i < |top| ==> stats[c].total <= top[i].1
    {
      assert Reports(stats, (c, stats[c].total));
      var k :| 0 <= k < |entries| && entries[k] == (c, stats[c].total);
      assert k >= |top|;
    }
  }
}
