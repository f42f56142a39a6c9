/** Listing links newest first, page by page: by position in memory, by key in
    SQL. `Below` is the WHERE clause of the keyset query. */
module Pagination {
  import opened Domain

  // ----- the listing order -----

  datatype Key = Key(createdAt: Timestamp, code: string)

  function KeyOf(link: ShortLink): Key {
    Key(link.createdAt, link.code)
  }

  /** Lexicographic order of codes. */
  predicate Less(a: string, b: string) {
    if b == "" then false
    else if a == "" then true
    else a[0] < b[0] || (a[0] == b[0] && Less(a[1..], b[1..]))
  }

  predicate Below(a: Key, b: Key) {
    a.createdAt < b.createdAt || (a.createdAt == b.createdAt && Less(a.code, b.code))
  }

  lemma {:induction false} LessTotal(a: string, b: string)
    ensures Less(a, b) || a == b || Less(b, a)
    ensures !(Less(a, b) && Less(b, a))
    ensures a == b ==> !Less(a, b)
  {
    if a != "" && b != "" && a[0] == b[0] {
      LessTotal(a[1..], b[1..]);
      assert a == [a[0]] + a[1..] && b == [b[0]] + b[1..];
    }
  }

  lemma {:induction false} LessTransitive(a: string, b: string, c: string)
    requires Less(a, b) && Less(b, c)
    ensures Less(a, c)
  {
    if a != "" && a[0] == b[0] == c[0] {
      LessTransitive(a[1..], b[1..], c[1..]);
    }
  }

  /** The codes agree up to i, where a ends or has the smaller character. */
  predicate DiffersAt(a: string, b: string, i: nat) {
    i <= |a| && i < |b| && a[..i] == b[..i] && (i == |a| || a[i] < b[i])
  }

  lemma SameStart(a: string, b: string, i: nat)
    requires DiffersAt(a, b, i) && i > 0
    ensures a[0] == b[0]
  {
    assert a[0] == a[..i][0] && b[0] == b[..i][0];
  }

  /** Codes are ordered by their first difference. */
  lemma {:induction false} LessIsFirstDifference(a: string, b: string)
    ensures Less(a, b) <==> exists i: nat :: DiffersAt(a, b, i)
  {
    if a == "" || b == "" || a[0] != b[0] {
      if Less(a, b) {
        assert DiffersAt(a, b, 0);
      }
      forall i: nat | DiffersAt(a, b, i)
        ensures i == 0
      {
        if i > 0 {
          SameStart(a, b, i);
        }
      }
    } else {
      LessIsFirstDifference(a[1..], b[1..]);
      if Less(a, b) {
        var i: nat :| DiffersAt(a[1..], b[1..], i);
        assert a[..i + 1] == [a[0]] + a[1..][..i] && b[..i + 1] == [b[0]] + b[1..][..i];
        assert DiffersAt(a, b, i + 1);
      }
      forall i: nat | DiffersAt(a, b, i)
        ensures Less(a, b)
      {
        assert i > 0 && a[1..][..i - 1] == a[..i][1..] && b[1..][..i - 1] == b[..i][1..];
        assert DiffersAt(a[1..], b[1..], i - 1);
      }
    }
  }

  lemma BelowTotal(a: Key, b: Key)
    ensures Below(a, b) || a == b || Below(b, a)
    ensures !(Below(a, b) && Below(b, a))
    ensures a == b ==> !Below(a, b)
  {
    LessTotal(a.code, b.code);
  }

  lemma BelowTransitive(a: Key, b: Key, c: Key)
    requires Below(a, b) && Below(b, c)
    ensures Below(a, c)
  {
    if a.createdAt == b.createdAt == c.createdAt {
      LessTransitive(a.code, b.code, c.code);
    }
  }

  ghost predicate Descending(s: seq<ShortLink>) {
    forall i, j :: 0 <= i < j < |s| ==> Below(KeyOf(s[j]), KeyOf(s[i]))
  }

  // ----- the sorted listing of a store -----

  /** Links by code. */
  type Table = map<string, ShortLink>

  predicate Keyed(t: Table) {
    forall c :: c in t ==> t[c].code == c
  }

  predicate Row(t: Table, link: ShortLink) {
    link.code in t && t[link.code] == link
  }

  ghost predicate IsListing(s: seq<ShortLink>, t: Table) {
    && Descending(s)
    && (forall i :: 0 <= i < |s| ==> Row(t, s[i]))
    && (forall c :: c in t ==> t[c] in s)
  }

  /** A listing has the newest first, and of links created at one instant the one
      with the greater code. */
  lemma NewestFirst(s: seq<ShortLink>, t: Table, i: nat, j: nat)
    requires IsListing(s, t) && i < j < |s|
    ensures s[i].createdAt >= s[j].createdAt
    ensures s[i].createdAt == s[j].createdAt ==> exists k: nat :: DiffersAt(s[j].code, s[i].code, k)
  {
    assert Below(KeyOf(s[j]), KeyOf(s[i]));
    LessIsFirstDifference(s[j].code, s[i].code);
  }

  /** Puts a link at its place in a sorted list. */
  method InsertSorted(s: seq<ShortLink>, link: ShortLink) returns (r: seq<ShortLink>)
    requires Descending(s)
    requires forall i :: 0 <= i < |s| ==> s[i].code != link.code
    ensures Descending(r) && |r| == |s| + 1
    ensures forall l :: l in r <==> l in s || l == link
  {
    var i := 0;
    while i < |s| && Below(KeyOf(link), KeyOf(s[i]))
      invariant 0 <= i <= |s|
      invariant forall j :: 0 <= j < i ==> Below(KeyOf(link), KeyOf(s[j]))
    {
      i := i + 1;
    }
    r := s[..i] + [link] + s[i..];
    forall j | i <= j < |s|
      ensures Below(KeyOf(s[j]), KeyOf(link))
    {
      BelowTotal(KeyOf(s[i]), KeyOf(link));
      if i < j {
        BelowTransitive(KeyOf(s[j]), KeyOf(s[i]), KeyOf(link));
      }
    }
    forall l
      ensures l in r <==> l in s || l == link
    {
      assert s == s[..i] + s[i..];
    }
  }

  /** Collects the values of a map, in whatever order it yields them, and sorts
      them by (created_at, code) descending. */
  method SortedLinks(t: Table) returns (s: seq<ShortLink>)
    requires Keyed(t)
    ensures IsListing(s, t)
  {
    s := [];
    var rest := t.Keys;
    while rest != {}
      invariant rest <= t.Keys
      invariant Descending(s)
      invariant forall l :: l in s <==> Row(t, l) && l.code !in rest
      decreases rest
    {
      var c :| c in rest;
      s := InsertSorted(s, t[c]);
      rest := rest - {c};
    }
    forall c | c in t
      ensures t[c] in s
    {
      assert Row(t, t[c]);
    }
  }

  /** A sorted list is determined by its elements. */
  lemma {:induction false} DescendingUnique(s: seq<ShortLink>, t: seq<ShortLink>)
    requires Descending(s) && Descending(t)
    requires forall l :: l in s <==> l in t
    ensures s == t
  {
    assert t == [] || t[0] in s;
    if s != [] {
      assert s[0] in t;
      var j :| 0 <= j < |t| && t[j] == s[0];
      var i :| 0 <= i < |s| && s[i] == t[0];
      BelowTotal(KeyOf(s[0]), KeyOf(t[0]));
      assert s[0] == t[0];
      forall l
        ensures l in s[1..] <==> l in t[1..]
      {
        TailMembers(s, l);
        TailMembers(t, l);
      }
      DescendingUnique(s[1..], t[1..]);
    }
  }

  lemma TailMembers(s: seq<ShortLink>, l: ShortLink)
    requires Descending(s) && s != []
    ensures l in s[1..] <==> l in s && l != s[0]
  {
    assert s == [s[0]] + s[1..];
    if k :| 0 <= k < |s[1..]| && s[1..][k] == l {
      BelowTotal(KeyOf(s[k + 1]), KeyOf(s[0]));
    }
  }

  lemma ListingUnique(s: seq<ShortLink>, s': seq<ShortLink>, t: Table)
    requires IsListing(s, t) && IsListing(s', t)
    ensures s == s'
  {
    DescendingUnique(s, s');
  }

  // ----- pages by position, as in memory -----

  /** A cursor carries whole seconds, in decimal, and a code. */
  type Cursor = Option<(string, string)>

  function Decimal(n: nat): (digits: string)
    ensures |digits| > 0 && forall i :: 0 <= i < |digits| ==> '0' <= digits[i] <= '9'
  {
    var last := ['0' + (n % 10) as char];
    if n < 10 then last else Decimal(n / 10) + last
  }

  function CursorOf(link: ShortLink): (string, string) {
    (Decimal(UnixSecs(link.createdAt)), link.code)
  }

  function MinNat(a: nat, b: nat): nat {
    if a <= b then a else b
  }

  /** Position of the first link the cursor names, if any. */
  function Position(s: seq<ShortLink>, cursor: (string, string)): (p: Option<nat>)
    ensures p.Some? ==> p.value < |s| && CursorOf(s[p.value]) == cursor
  {
    if s == [] then None
    else if CursorOf(s[0]) == cursor then Some(0)
    else match Position(s[1..], cursor) case Some(i) => Some(i + 1) case None => None
  }

  lemma {:induction false} PositionFinds(s: seq<ShortLink>, cursor: (string, string), k: nat)
    requires k < |s| && CursorOf(s[k]) == cursor
    ensures Position(s, cursor).Some?
  {
    if k > 0 {
      PositionFinds(s[1..], cursor, k - 1);
    }
  }

  function Start(s: seq<ShortLink>, cursor: Cursor): (start: nat)
    ensures start <= |s|
  {
    match cursor
    case None => 0
    case Some(c) => (match Position(s, c) case Some(i) => i + 1 case None => 0)
  }

  function NextCursor(page: seq<ShortLink>): Cursor {
    if page == [] then None else Some(CursorOf(page[|page| - 1]))
  }

  function ListPage(s: seq<ShortLink>, limit: nat, cursor: Cursor): seq<ShortLink> {
    var start := Start(s, cursor);
    s[start..MinNat(start + limit, |s|)]
  }

  method ListSync(t: Table, limit: nat, cursor: Cursor) returns (page: seq<ShortLink>, next: Cursor)
    requires Keyed(t)
    ensures exists s :: IsListing(s, t)
    ensures forall s :: IsListing(s, t) ==> page == ListPage(s, limit, cursor)
    ensures next == NextCursor(page)
  {
    var entries := SortedLinks(t);
    var start := Start(entries, cursor);
    var end := MinNat(start + limit, |entries|);
    page := entries[start..end];
    next := NextCursor(page);
    forall s | IsListing(s, t)
      ensures s == entries
    {
      ListingUnique(s, entries, t);
    }
  }

  ghost predicate DistinctCodes(s: seq<ShortLink>) {
    forall i, j :: 0 <= i < j < |s| ==> s[i].code != s[j].code
  }

  lemma ListingDistinct(s: seq<ShortLink>, t: Table)
    requires IsListing(s, t)
    ensures DistinctCodes(s)
  {
    forall i, j | 0 <= i < j < |s|
      ensures s[i].code != s[j].code
    {
      assert Row(t, s[i]) && Row(t, s[j]);
      BelowTotal(KeyOf(s[i]), KeyOf(s[j]));
    }
  }

  /** The cursor of a listed link leads to the link after it. */
  lemma StartAfter(s: seq<ShortLink>, k: nat)
    requires DistinctCodes(s) && k < |s|
    ensures Start(s, Some(CursorOf(s[k]))) == k + 1
  {
    PositionFinds(s, CursorOf(s[k]), k);
  }

  lemma PageAdvances(s: seq<ShortLink>, limit: nat, cursor: Cursor)
    requires DistinctCodes(s)
    ensures
      var page := ListPage(s, limit, cursor);
      && |page| == MinNat(limit, |s| - Start(s, cursor))
      && (page != [] ==> Start(s, NextCursor(page)) == Start(s, cursor) + |page|)
  {
    var page := ListPage(s, limit, cursor);
    if page != [] {
      StartAfter(s, Start(s, cursor) + |page| - 1);
    }
  }

  /** All pages a client gets by following next_cursor until there is none. */
  function Walk(s: seq<ShortLink>, limit: nat, cursor: Cursor): (pages: seq<seq<ShortLink>>)
    requires DistinctCodes(s) && limit >= 1
    ensures |pages| >= 1
    decreases |s| - Start(s, cursor)
  {
    var page := ListPage(s, limit, cursor);
    PageAdvances(s, limit, cursor);
    if page == [] then [page] else [page] + Walk(s, limit, NextCursor(page))
  }

  function Flatten(pages: seq<seq<ShortLink>>): seq<ShortLink> {
    if pages == [] then [] else pages[0] + Flatten(pages[1..])
  }

  /** Pages of `limit` needed for n links. */
  function PagesFor(n: nat, limit: nat): nat
    requires limit >= 1
  {
    if n == 0 then 0 else if n <= limit then 1 else 1 + PagesFor(n - limit, limit)
  }

  /** PagesFor is the quotient rounded up. */
  lemma {:induction false} PagesForRoundsUp(n: nat, limit: nat)
    requires limit >= 1
    ensures PagesFor(n, limit) * limit >= n
    ensures n > 0 ==> (PagesFor(n, limit) - 1) * limit < n
  {
    if n > limit {
      PagesForRoundsUp(n - limit, limit);
      var rest := PagesFor(n - limit, limit);
      assert (1 + rest) * limit == limit + rest * limit;
      assert rest * limit == (rest - 1) * limit + limit;
    }
  }

  /** The walk, by start index instead of by cursor. */
  function PagesFrom(s: seq<ShortLink>, limit: nat, start: nat): (pages: seq<seq<ShortLink>>)
    requires limit >= 1 && start <= |s|
    ensures |pages| >= 1
    decreases |s| - start
  {
    var end := MinNat(start + limit, |s|);
    if start == |s| then [[]] else [s[start..end]] + PagesFrom(s, limit, end)
  }

  lemma {:induction false} PagesFromShape(s: seq<ShortLink>, limit: nat, start: nat)
    requires limit >= 1 && start <= |s|
    ensures Flatten(PagesFrom(s, limit, start)) == s[start..]
    ensures |PagesFrom(s, limit, start)| == PagesFor(|s| - start, limit) + 1
    decreases |s| - start
  {
    if start == |s| {
      assert Flatten([[]]) == [] + Flatten([[]][1..]);
    } else {
      var end := MinNat(start + limit, |s|);
      var rest := PagesFrom(s, limit, end);
      PagesFromShape(s, limit, end);
      assert ([s[start..end]] + rest)[1..] == rest;
      assert s[start..end] + s[end..] == s[start..];
    }
  }

  lemma {:induction false} WalkIsPagesFrom(s: seq<ShortLink>, limit: nat, cursor: Cursor, start: nat)
    requires DistinctCodes(s) && limit >= 1
    requires start == Start(s, cursor)
    ensures Walk(s, limit, cursor) == PagesFrom(s, limit, start)
    decreases |s| - start
  {
    var page, end := ListPage(s, limit, cursor), MinNat(start + limit, |s|);
    PageAdvances(s, limit, cursor);
    assert page == s[start..end];
    if page != [] {
      WalkIsPagesFrom(s, limit, NextCursor(page), end);
      assert Walk(s, limit, cursor) == [page] + Walk(s, limit, NextCursor(page));
    }
  }

  /** On an unchanged store the in-memory walk lists every link exactly once,
      in listing order, in as many pages as the links need and an empty one. */
  lemma WalkComplete(t: Table, s: seq<ShortLink>, limit: nat)
    requires IsListing(s, t) && limit >= 1
    ensures DistinctCodes(s)
    ensures Flatten(Walk(s, limit, None)) == s
    ensures |Walk(s, limit, None)| == PagesFor(|s|, limit) + 1
  {
    ListingDistinct(s, t);
    WalkIsPagesFrom(s, limit, None, 0);
    PagesFromShape(s, limit, 0);
  }

  // ----- pages by key, as in SQL -----

  predicate After(cursor: Option<Key>, k: Key) {
    cursor.Some? ==> Below(k, cursor.value)
  }

  /** What the keyset query returns: of the rows past the cursor the first
      `limit`, in listing order. */
  ghost predicate IsPage(t: Table, limit: nat, cursor: Option<Key>, page: seq<ShortLink>) {
    && Descending(page) && |page| <= limit
    && (forall i :: 0 <= i < |page| ==> Row(t, page[i]) && After(cursor, KeyOf(page[i])))
    && (forall c :: c in t && After(cursor, KeyOf(t[c])) && t[c] !in page ==>
          |page| == limit && forall i :: 0 <= i < |page| ==> Below(KeyOf(t[c]), KeyOf(page[i])))
  }

  lemma FirstOfPage(t: Table, limit: nat, cursor: Option<Key>, p: seq<ShortLink>, q: seq<ShortLink>)
    requires Keyed(t) && IsPage(t, limit, cursor, p) && IsPage(t, limit, cursor, q)
    ensures p == [] <==> q == []
    ensures p != [] ==> p[0] == q[0]
  {
    assert p == [] || Row(t, p[0]);
    assert q == [] || Row(t, q[0]);
    if p != [] && q != [] {
      BelowTotal(KeyOf(p[0]), KeyOf(q[0]));
      NotBelowFirst(p, q[0]);
      NotBelowFirst(q, p[0]);
    }
  }

  lemma NotBelowFirst(p: seq<ShortLink>, l: ShortLink)
    requires Descending(p) && p != [] && l in p
    ensures l == p[0] || Below(KeyOf(l), KeyOf(p[0]))
  {
  }

  lemma PageTail(t: Table, limit: nat, cursor: Option<Key>, p: seq<ShortLink>)
    requires Keyed(t) && IsPage(t, limit, cursor, p) && p != []
    ensures IsPage(t, limit - 1, Some(KeyOf(p[0])), p[1..])
  {
    var first := KeyOf(p[0]);
    forall c | c in t && Below(KeyOf(t[c]), first) && t[c] !in p[1..]
      ensures |p| == limit && forall i :: 0 <= i < |p| ==> Below(KeyOf(t[c]), KeyOf(p[i]))
    {
      if cursor.Some? {
        BelowTransitive(KeyOf(t[c]), first, cursor.value);
      }
      BelowTotal(KeyOf(t[c]), first);
      assert p == [p[0]] + p[1..];
      assert t[c] !in p;
    }
  }

  /** The keyset query has one answer. */
  lemma {:induction false} IsPageUnique(t: Table, limit: nat, cursor: Option<Key>, p: seq<ShortLink>, q: seq<ShortLink>)
    requires Keyed(t) && IsPage(t, limit, cursor, p) && IsPage(t, limit, cursor, q)
    ensures p == q
  {
    FirstOfPage(t, limit, cursor, p, q);
    if p != [] {
      PageTail(t, limit, cursor, p);
      PageTail(t, limit, cursor, q);
      IsPageUnique(t, limit - 1, Some(KeyOf(p[0])), p[1..], q[1..]);
      assert p == [p[0]] + p[1..] && q == [q[0]] + q[1..];
    }
  }

  /** The slice of a listing that starts where the cursor ends is the page. */
  lemma SliceIsPage(t: Table, s: seq<ShortLink>, limit: nat, cursor: Option<Key>, start: nat)
    requires IsListing(s, t) && start <= |s|
    requires forall i :: 0 <= i < |s| ==> (After(cursor, KeyOf(s[i])) <==> start <= i)
    ensures IsPage(t, limit, cursor, s[start..MinNat(start + limit, |s|)])
  {
  }

  /** While the cursor's link is stored, a page by position is the page by key. */
  lemma PositionIsKeyset(t: Table, s: seq<ShortLink>, limit: nat, k: nat)
    requires IsListing(s, t) && k < |s|
    ensures IsPage(t, limit, Some(KeyOf(s[k])), ListPage(s, limit, Some(CursorOf(s[k]))))
  {
    var cursor := Some(KeyOf(s[k]));
    forall i | 0 <= i < |s|
      ensures After(cursor, KeyOf(s[i])) <==> k + 1 <= i
    {
      BelowTotal(KeyOf(s[i]), KeyOf(s[k]));
    }
    SliceIsPage(t, s, limit, cursor, k + 1);
    StartAfterListed(t, s, k);
  }

  lemma StartAfterListed(t: Table, s: seq<ShortLink>, k: nat)
    requires IsListing(s, t) && k < |s|
    ensures Start(s, Some(CursorOf(s[k]))) == k + 1
  {
    ListingDistinct(s, t);
    StartAfter(s, k);
  }

  /** The first pages agree too. */
  lemma FirstPageIsKeyset(t: Table, s: seq<ShortLink>, limit: nat)
    requires IsListing(s, t)
    ensures IsPage(t, limit, None, ListPage(s, limit, None))
  {
  }

  /** The keyset query, computed: sort, skip what is not past the cursor, take
      `limit` rows. */
  method KeysetList(t: Table, limit: nat, cursor: Option<Key>) returns (page: seq<ShortLink>)
    requires Keyed(t)
    ensures IsPage(t, limit, cursor, page)
  {
    var rows := SortedLinks(t);
    var start := 0;
    while start < |rows| && !After(cursor, KeyOf(rows[start]))
      invariant start <= |rows|
      invariant forall i :: 0 <= i < start ==> !After(cursor, KeyOf(rows[i]))
    {
      start := start + 1;
    }
    forall i | start <= i < |rows|
      ensures After(cursor, KeyOf(rows[i]))
    {
      if start < i && cursor.Some? {
        BelowTransitive(KeyOf(rows[i]), KeyOf(rows[start]), cursor.value);
      }
    }
    SliceIsPage(t, rows, limit, cursor, start);
    page := rows[start..MinNat(start + limit, |rows|)];
  }

  // ----- when a cursor is good in memory -----

  function Denoted(digits: string): int {
    if digits == "" then 0
    else Denoted(digits[..|digits| - 1]) * 10 + (digits[|digits| - 1] as int - '0' as int)
  }

  /** The decimal of a number denotes it, without leading zeros. */
  lemma {:induction false} DecimalDenotes(n: nat)
    ensures Denoted(Decimal(n)) == n
    ensures Decimal(n)[0] == '0' ==> n == 0
  {
    var last := ['0' + (n % 10) as char];
    if n >= 10 {
      DecimalDenotes(n / 10);
      assert Decimal(n) == Decimal(n / 10) + last;
      assert (Decimal(n / 10) + last)[..|Decimal(n / 10)|] == Decimal(n / 10);
    } else {
      assert Decimal(n) == last && last[..0] == "";
      assert Denoted(last) == Denoted("") * 10 + n;
    }
  }

  lemma DecimalInjective(m: nat, n: nat)
    requires Decimal(m) == Decimal(n)
    ensures m == n
  {
    DecimalDenotes(m);
    DecimalDenotes(n);
  }

  /** The cursor of `link` names a stored row: same code, created in the same
      second. It need not be the same link. */
  predicate Names(t: Table, link: ShortLink) {
    link.code in t && UnixSecs(t[link.code].createdAt) == UnixSecs(link.createdAt)
  }

  /** Row i is past the cursor just when it is not before `start`. */
  predicate SplitsAt(s: seq<ShortLink>, cursor: Option<Key>, start: nat, i: nat)
    requires i < |s|
  {
    After(cursor, KeyOf(s[i])) <==> start <= i
  }

  ghost predicate AllSplit(s: seq<ShortLink>, cursor: Option<Key>, start: nat) {
    forall i :: 0 <= i < |s| ==> SplitsAt(s, cursor, start, i)
  }

  /** A slice of a listing from `start` answers the keyset query for a cursor if
      and only if the rows past the cursor are exactly those from `start` on. */
  lemma SliceIsPageIff(t: Table, s: seq<ShortLink>, limit: nat, cursor: Option<Key>, start: nat)
    requires IsListing(s, t) && start <= |s| && limit >= 1
    ensures
      IsPage(t, limit, cursor, s[start..MinNat(start + limit, |s|)]) <==> AllSplit(s, cursor, start)
  {
    var page := s[start..MinNat(start + limit, |s|)];
    if IsPage(t, limit, cursor, page) {
      forall i | 0 <= i < |s|
        ensures SplitsAt(s, cursor, start, i)
      {
        PastIffFromStart(t, s, limit, cursor, start, i);
      }
    }
    if AllSplit(s, cursor, start) {
      forall i | 0 <= i < |s|
        ensures After(cursor, KeyOf(s[i])) <==> start <= i
      {
        assert SplitsAt(s, cursor, start, i);
      }
      SliceIsPage(t, s, limit, cursor, start);
    }
  }

  lemma PastIffFromStart(t: Table, s: seq<ShortLink>, limit: nat, cursor: Option<Key>, start: nat, i: nat)
    requires IsListing(s, t) && start <= |s| && limit >= 1 && i < |s|
    requires IsPage(t, limit, cursor, s[start..MinNat(start + limit, |s|)])
    ensures After(cursor, KeyOf(s[i])) <==> start <= i
  {
    var page := s[start..MinNat(start + limit, |s|)];
    assert Row(t, s[i]);
    if start <= i {
      assert page[0] == s[start] && After(cursor, KeyOf(page[0]));
      if start < i && cursor.Some? {
        BelowTransitive(KeyOf(s[i]), KeyOf(s[start]), cursor.value);
      }
    } else if After(cursor, KeyOf(s[i])) {
      EarlierNotInSlice(s, start, MinNat(start + limit, |s|), i);
      assert |page| == limit && Below(KeyOf(s[i]), KeyOf(page[0]));
      BelowTotal(KeyOf(s[i]), KeyOf(s[start]));
    }
  }

  lemma EarlierNotInSlice(s: seq<ShortLink>, start: nat, end: nat, i: nat)
    requires Descending(s) && i < start <= end <= |s|
    ensures s[i] !in s[start..end]
  {
    if s[i] in s[start..end] {
      var k :| 0 <= k < end - start && s[start..end][k] == s[i];
      BelowTotal(KeyOf(s[start + k]), KeyOf(s[i]));
    }
  }

  /** A cursor leads past exactly the rows up to the one it names, if any. */
  lemma CursorStart(t: Table, s: seq<ShortLink>, link: ShortLink, i: nat)
    requires IsListing(s, t) && Keyed(t) && i < |s|
    ensures Start(s, Some(CursorOf(link))) <= i <==> PastNamed(t, link, s[i])
  {
    match Position(s, CursorOf(link))
    case Some(p) =>
      assert Row(t, s[p]);
      DecimalInjective(UnixSecs(s[p].createdAt), UnixSecs(link.createdAt));
      BelowTotal(KeyOf(s[i]), KeyOf(s[p]));
    case None =>
      if Names(t, link) {
        assert t[link.code] in s;
        var k :| 0 <= k < |s| && s[k] == t[link.code];
        PositionFinds(s, CursorOf(link), k);
      }
  }

  /** The row comes after the one the cursor of `link` names, if there is one. */
  predicate PastNamed(t: Table, link: ShortLink, row: ShortLink) {
    Names(t, link) ==> Below(KeyOf(row), KeyOf(t[link.code]))
  }

  /** The cursor of `link` places the row as the key of `link` does. */
  predicate PlacedRight(t: Table, link: ShortLink, row: ShortLink) {
    Below(KeyOf(row), KeyOf(link)) <==> PastNamed(t, link, row)
  }

  ghost predicate AllPlaced(t: Table, s: seq<ShortLink>, link: ShortLink) {
    forall i :: 0 <= i < |s| ==> PlacedRight(t, link, s[i])
  }

  lemma SplitIffPlaced(t: Table, s: seq<ShortLink>, link: ShortLink)
    requires IsListing(s, t) && Keyed(t)
    ensures AllSplit(s, Some(KeyOf(link)), Start(s, Some(CursorOf(link)))) <==> AllPlaced(t, s, link)
  {
    var cursor, start := Some(KeyOf(link)), Start(s, Some(CursorOf(link)));
    forall i | 0 <= i < |s|
      ensures SplitsAt(s, cursor, start, i) <==> PlacedRight(t, link, s[i])
    {
      CursorStart(t, s, link, i);
    }
  }

  lemma PageIffSplit(t: Table, s: seq<ShortLink>, limit: nat, key: Option<Key>, cursor: Cursor)
    requires IsListing(s, t) && limit >= 1
    ensures IsPage(t, limit, key, ListPage(s, limit, cursor)) <==> AllSplit(s, key, Start(s, cursor))
  {
    var start := Start(s, cursor);
    var page := ListPage(s, limit, cursor);
    assert page == s[start..MinNat(start + limit, |s|)];
    SliceIsPageIff(t, s, limit, key, start);
  }

  lemma GoodIfPlacedRight(t: Table, s: seq<ShortLink>, limit: nat, link: ShortLink)
    requires IsListing(s, t) && Keyed(t) && limit >= 1
    ensures
      IsPage(t, limit, Some(KeyOf(link)), ListPage(s, limit, Some(CursorOf(link)))) <==> AllPlaced(t, s, link)
  {
    SplitIffPlaced(t, s, link);
    PageIffSplit(t, s, limit, Some(KeyOf(link)), Some(CursorOf(link)));
  }

  lemma ListedOrStored(t: Table, s: seq<ShortLink>, link: ShortLink)
    requires IsListing(s, t)
    ensures
      AllPlaced(t, s, link) <==> forall c :: c in t ==> PlacedRight(t, link, t[c])
  {
    if forall c :: c in t ==> PlacedRight(t, link, t[c]) {
      forall i | 0 <= i < |s|
        ensures PlacedRight(t, link, s[i])
      {
        assert Row(t, s[i]);
      }
    }
    if AllPlaced(t, s, link) {
      forall c | c in t
        ensures PlacedRight(t, link, t[c])
      {
        assert t[c] in s;
      }
    }
  }

  /** No row lies between `link` and the row its cursor names - or, if it names
      none and the listing starts over, every row comes after `link`. */
  ghost predicate CursorGood(t: Table, link: ShortLink) {
    if Names(t, link) then
      forall c :: c in t ==> (Below(KeyOf(t[c]), KeyOf(link)) <==> Below(KeyOf(t[c]), KeyOf(t[link.code])))
    else
      forall c :: c in t ==> Below(KeyOf(t[c]), KeyOf(link))
  }

  /** What a cursor made from `link` is worth on any later store, the link
      stored, deleted, or its code reused: this is when the page is the keyset
      page after the link. */
  lemma CursorGoodIff(t: Table, s: seq<ShortLink>, limit: nat, link: ShortLink)
    requires IsListing(s, t) && Keyed(t) && limit >= 1
    ensures IsPage(t, limit, Some(KeyOf(link)), ListPage(s, limit, Some(CursorOf(link)))) <==> CursorGood(t, link)
  {
    GoodIfPlacedRight(t, s, limit, link);
    ListedOrStored(t, s, link);
    assert (forall c :: c in t ==> PlacedRight(t, link, t[c])) <==> CursorGood(t, link);
  }

  /** A cursor that names no row gives the first page again. */
  lemma StaleCursorRestarts(t: Table, s: seq<ShortLink>, limit: nat, link: ShortLink)
    requires IsListing(s, t) && !Names(t, link)
    ensures ListPage(s, limit, Some(CursorOf(link))) == ListPage(s, limit, None)
  {
    match Position(s, CursorOf(link))
    case Some(p) =>
      assert Row(t, s[p]);
      DecimalInjective(UnixSecs(s[p].createdAt), UnixSecs(link.createdAt));
    case None =>
  }

  /** A witness: a client has listed "aaaa", of second 5, and then "bbbb", of
      second 3. With "bbbb" deleted, its cursor lists "aaaa" again, though no
      row is left after "bbbb". */
  lemma StaleCursorRepeats(a: ShortLink, b: ShortLink)
    requires a.code == "aaaa" && a.createdAt == 5 * NANOS_PER_SEC
    requires b.code == "bbbb" && b.createdAt == 3 * NANOS_PER_SEC
    ensures
      var t := map["aaaa" := a];
      && IsListing([a], t) && !CursorGood(t, b)
      && ListPage([a], 1, Some(CursorOf(b))) == [a]
      && IsPage(t, 1, Some(KeyOf(b)), [])
  {
    var t := map["aaaa" := a];
    assert t["aaaa"] in [a];
    assert !Below(KeyOf(t["aaaa"]), KeyOf(b));
    StaleCursorRestarts(t, [a], 1, b);
  }
}
