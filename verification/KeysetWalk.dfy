/** Following keyset pages while other links come and go: `tables[i]` is the
    table as it stands when page i is read. */
module KeysetWalk {
  import opened Domain
  import opened Pagination

  function LastKey(page: seq<ShortLink>): Key
    requires page != []
  {
    KeyOf(page[|page| - 1])
  }

  /** The cursor with which page i is asked for. */
  function CursorFor(pages: seq<seq<ShortLink>>, i: nat): Option<Key>
    requires i <= |pages|
  {
    if i == 0 || pages[i - 1] == [] then None else Some(LastKey(pages[i - 1]))
  }

  /** Page i answers its query; unless it is the last page of the walk it has
      rows, and so a cursor for the next one. */
  ghost predicate PageOk(tables: seq<Table>, limit: nat, pages: seq<seq<ShortLink>>, i: nat)
    requires i < |tables| == |pages|
  {
    && Keyed(tables[i])
    && IsPage(tables[i], limit, CursorFor(pages, i), pages[i])
    && (i < |pages| - 1 ==> pages[i] != [])
  }

  ghost predicate IsWalk(tables: seq<Table>, limit: nat, pages: seq<seq<ShortLink>>) {
    && |tables| == |pages| >= 1 && limit >= 1
    && (forall i :: 0 <= i < |pages| ==> PageOk(tables, limit, pages, i))
  }

  /** The client stops at the first page without a next cursor. */
  ghost predicate Finished(pages: seq<seq<ShortLink>>) {
    |pages| >= 1 && pages[|pages| - 1] == []
  }

  // ----- nothing is listed twice -----

  lemma PageOrder(t: Table, limit: nat, cursor: Option<Key>, page: seq<ShortLink>, x: nat, y: nat)
    requires IsPage(t, limit, cursor, page) && x < y < |page|
    ensures Below(KeyOf(page[y]), KeyOf(page[x]))
  {
  }

  lemma PageRow(t: Table, limit: nat, cursor: Option<Key>, page: seq<ShortLink>, x: nat)
    requires IsPage(t, limit, cursor, page) && x < |page|
    ensures Row(t, page[x]) && After(cursor, KeyOf(page[x]))
  {
  }

  lemma {:induction false} LaterPagesBelow(
      tables: seq<Table>, limit: nat, pages: seq<seq<ShortLink>>, i: nat, j: nat, y: nat)
    requires IsWalk(tables, limit, pages)
    requires i < j < |pages| && y < |pages[j]|
    ensures pages[i] != [] && Below(KeyOf(pages[j][y]), LastKey(pages[i]))
    decreases j
  {
    assert PageOk(tables, limit, pages, i) && PageOk(tables, limit, pages, j);
    assert PageOk(tables, limit, pages, j - 1);
    PageRow(tables[j], limit, CursorFor(pages, j), pages[j], y);
    if i < j - 1 {
      LaterPagesBelow(tables, limit, pages, i, j - 1, |pages[j - 1]| - 1);
      BelowTransitive(KeyOf(pages[j][y]), LastKey(pages[j - 1]), LastKey(pages[i]));
    }
  }

  /** Whatever happens to the table between pages, the listed keys strictly
      descend over the whole walk. */
  lemma KeysDescend(
      tables: seq<Table>, limit: nat, pages: seq<seq<ShortLink>>, i: nat, j: nat, x: nat, y: nat)
    requires IsWalk(tables, limit, pages)
    requires i <= j < |pages| && x < |pages[i]| && y < |pages[j]|
    requires i < j || x < y
    ensures Below(KeyOf(pages[j][y]), KeyOf(pages[i][x]))
  {
    assert PageOk(tables, limit, pages, i);
    if i < j {
      var last := |pages[i]| - 1;
      LaterPagesBelow(tables, limit, pages, i, j, y);
      if x < last {
        PageOrder(tables[i], limit, CursorFor(pages, i), pages[i], x, last);
        BelowTransitive(KeyOf(pages[j][y]), LastKey(pages[i]), KeyOf(pages[i][x]));
      }
    } else {
      PageOrder(tables[i], limit, CursorFor(pages, i), pages[i], x, y);
    }
  }

  // ----- nothing that stays is missed -----

  /** A row of this key is in every table the walk sees. */
  ghost predicate Throughout(tables: seq<Table>, k: Key) {
    forall i :: 0 <= i < |tables| ==> Has(tables[i], k)
  }

  predicate Has(t: Table, k: Key) {
    k.code in t && KeyOf(t[k.code]) == k
  }

  /** The row is listed at place x of page i. */
  predicate ListedAt(pages: seq<seq<ShortLink>>, k: Key, i: int, x: int) {
    0 <= i < |pages| && 0 <= x < |pages[i]| && KeyOf(pages[i][x]) == k
  }

  /** One page lists a row that is ahead of it or leaves it ahead. */
  lemma PageListsOrSkips(t: Table, limit: nat, cursor: Option<Key>, page: seq<ShortLink>, k: Key) returns (x: int)
    requires IsPage(t, limit, cursor, page) && limit >= 1
    requires Has(t, k) && After(cursor, k)
    ensures x >= 0 ==> x < |page| && KeyOf(page[x]) == k
    ensures x < 0 ==> page != [] && Below(k, LastKey(page))
  {
    var row := t[k.code];
    if row in page {
      x :| 0 <= x < |page| && page[x] == row;
    } else {
      x := -1;
    }
  }

  /** A row that stays is listed by a finished walk. */
  lemma {:induction false} Listed(
      tables: seq<Table>, limit: nat, pages: seq<seq<ShortLink>>, k: Key, i: nat) returns (j: int, x: int)
    requires IsWalk(tables, limit, pages) && Finished(pages) && Throughout(tables, k)
    requires i < |pages| && After(CursorFor(pages, i), k)
    ensures ListedAt(pages, k, j, x)
    decreases |pages| - i
  {
    assert PageOk(tables, limit, pages, i) && Has(tables[i], k);
    j := i;
    x := PageListsOrSkips(tables[i], limit, CursorFor(pages, i), pages[i], k);
    if x < 0 {
      j, x := Listed(tables, limit, pages, k, i + 1);
    }
  }

  /** A finished walk lists every link that was there throughout, at exactly one
      place, whatever was inserted, updated or deleted meanwhile. */
  lemma ListedExactlyOnce(tables: seq<Table>, limit: nat, pages: seq<seq<ShortLink>>, k: Key)
    returns (i: int, x: int)
    requires IsWalk(tables, limit, pages) && Finished(pages) && Throughout(tables, k)
    ensures ListedAt(pages, k, i, x)
    ensures forall j, y :: ListedAt(pages, k, j, y) ==> j == i && y == x
  {
    i, x := Listed(tables, limit, pages, k, 0);
    forall j, y | ListedAt(pages, k, j, y)
      ensures j == i && y == x
    {
      BelowTotal(k, k);
      if i < j || (i == j && x < y) {
        KeysDescend(tables, limit, pages, i, j, x, y);
      } else if j < i || (i == j && y < x) {
        KeysDescend(tables, limit, pages, j, i, y, x);
      }
    }
  }

  // ----- the walk ends -----

  /** Codes of the rows the cursor still has ahead of it. */
  function Ahead(t: Table, cursor: Option<Key>): set<string> {
    set c | c in t && After(cursor, KeyOf(t[c]))
  }

  /** Rows that appear while the walk is past their place do not matter, rows
      that appear ahead of it would: new links carry a newer created_at than
      anything listed, so they never do. */
  ghost predicate NewRowsBehind(before: Table, after: Table, cursor: Option<Key>) {
    forall c :: c in after && After(cursor, KeyOf(after[c])) ==> c in before && KeyOf(before[c]) == KeyOf(after[c])
  }

  ghost predicate OnlyNewer(tables: seq<Table>, pages: seq<seq<ShortLink>>)
    requires |tables| == |pages|
  {
    forall i :: 0 < i < |tables| ==> NewRowsBehind(tables[i - 1], tables[i], CursorFor(pages, i))
  }

  function Codes(page: seq<ShortLink>): set<string> {
    set l | l in page :: l.code
  }

  lemma {:induction false} CodesCount(page: seq<ShortLink>)
    requires DistinctCodes(page)
    ensures |Codes(page)| == |page|
  {
    if page != [] {
      var last := |page| - 1;
      CodesCount(page[..last]);
      assert Codes(page) == Codes(page[..last]) + {page[last].code} by {
        assert page == page[..last] + [page[last]];
      }
    }
  }

  lemma PageDistinct(t: Table, limit: nat, cursor: Option<Key>, page: seq<ShortLink>)
    requires IsPage(t, limit, cursor, page)
    ensures DistinctCodes(page)
  {
    forall i, j | 0 <= i < j < |page|
      ensures page[i].code != page[j].code
    {
      assert Row(t, page[i]) && Row(t, page[j]);
      BelowTotal(KeyOf(page[i]), KeyOf(page[j]));
    }
  }

  lemma ListedNotAhead(t: Table, limit: nat, cursor: Option<Key>, page: seq<ShortLink>, c: string)
    requires IsPage(t, limit, cursor, page) && page != []
    requires c in t && Below(KeyOf(t[c]), LastKey(page))
    ensures c !in Codes(page)
  {
    forall x | 0 <= x < |page|
      ensures page[x].code != c
    {
      PageRow(t, limit, cursor, page, x);
      BelowTotal(KeyOf(page[x]), LastKey(page));
      if x < |page| - 1 {
        PageOrder(t, limit, cursor, page, x, |page| - 1);
      }
    }
  }

  /** One page takes its rows out of what is ahead; what remains ahead and was
      there is not ahead twice. */
  lemma AheadShrinks(t: Table, t': Table, limit: nat, cursor: Option<Key>, page: seq<ShortLink>)
    requires IsPage(t, limit, cursor, page) && page != []
    requires NewRowsBehind(t, t', Some(LastKey(page)))
    ensures |Ahead(t', Some(LastKey(page)))| + |page| <= |Ahead(t, cursor)|
  {
    var rest := Ahead(t', Some(LastKey(page)));
    PageDistinct(t, limit, cursor, page);
    CodesCount(page);
    forall c | c in rest
      ensures c in Ahead(t, cursor) && c !in Codes(page)
    {
      if cursor.Some? {
        PageRow(t, limit, cursor, page, |page| - 1);
        BelowTransitive(KeyOf(t[c]), LastKey(page), cursor.value);
      }
      ListedNotAhead(t, limit, cursor, page, c);
    }
    forall c | c in Codes(page)
      ensures c in Ahead(t, cursor)
    {
      var l :| l in page && l.code == c;
      var x :| 0 <= x < |page| && page[x] == l;
      PageRow(t, limit, cursor, page, x);
    }
    assert rest !! Codes(page) && rest + Codes(page) <= Ahead(t, cursor);
    SubsetSize(rest + Codes(page), Ahead(t, cursor));
    assert |rest + Codes(page)| == |rest| + |Codes(page)|;
  }

  lemma {:induction false} SubsetSize(a: set<string>, b: set<string>)
    requires a <= b
    ensures |a| <= |b|
  {
    if c :| c in a {
      SubsetSize(a - {c}, b - {c});
    }
  }

  /** A page followed by another row is full. */
  lemma FullUnlessLast(t: Table, t': Table, limit: nat, cursor: Option<Key>, page: seq<ShortLink>)
    requires IsPage(t, limit, cursor, page) && page != []
    requires NewRowsBehind(t, t', Some(LastKey(page)))
    requires Ahead(t', Some(LastKey(page))) != {}
    ensures |page| == limit
  {
    var c :| c in Ahead(t', Some(LastKey(page)));
    if cursor.Some? {
      BelowTransitive(KeyOf(t[c]), LastKey(page), cursor.value);
    }
    if t[c] in page {
      var x :| 0 <= x < |page| && page[x] == t[c];
      BelowTotal(KeyOf(page[x]), LastKey(page));
    }
  }

  /** The walk ends: when rows only appear behind it, it has at most the pages
      the first table's links need and an empty one. */
  lemma {:induction false} WalkEnds(tables: seq<Table>, limit: nat, pages: seq<seq<ShortLink>>, i: nat)
    requires IsWalk(tables, limit, pages) && OnlyNewer(tables, pages) && i < |pages|
    ensures |pages| - i <= PagesFor(|Ahead(tables[i], CursorFor(pages, i))|, limit) + 1
    decreases |pages| - i
  {
    if i + 1 < |pages| {
      var cursor, next := CursorFor(pages, i), CursorFor(pages, i + 1);
      WalkEnds(tables, limit, pages, i + 1);
      assert PageOk(tables, limit, pages, i);
      assert NewRowsBehind(tables[i + 1 - 1], tables[i + 1], next);
      AheadShrinks(tables[i], tables[i + 1], limit, cursor, pages[i]);
      if Ahead(tables[i + 1], next) != {} {
        FullUnlessLast(tables[i], tables[i + 1], limit, cursor, pages[i]);
      }
      PagesForMonotone(|Ahead(tables[i + 1], next)| + |pages[i]|, |Ahead(tables[i], cursor)|, limit);
    }
  }

  lemma {:induction false} PagesForMonotone(m: nat, n: nat, limit: nat)
    requires limit >= 1 && m <= n
    ensures PagesFor(m, limit) <= PagesFor(n, limit)
  {
    if m > limit {
      PagesForMonotone(m - limit, n - limit, limit);
    }
  }

  // ----- the walk by position, as in memory -----

  /** The cursor page i is asked for with: what the page before returned. */
  function NextCursorBefore(pages: seq<seq<ShortLink>>, i: nat): Cursor
    requires i <= |pages|
  {
    if i == 0 then None else NextCursor(pages[i - 1])
  }

  ghost predicate ByPosition(t: Table, limit: nat, cursor: Cursor, page: seq<ShortLink>) {
    exists s :: IsListing(s, t) && page == ListPage(s, limit, cursor)
  }

  /** Page i is read by position from the listing of its table. */
  ghost predicate PositionPageOk(tables: seq<Table>, limit: nat, pages: seq<seq<ShortLink>>, i: nat)
    requires i < |tables| == |pages|
  {
    && Keyed(tables[i])
    && ByPosition(tables[i], limit, NextCursorBefore(pages, i), pages[i])
    && (i < |pages| - 1 ==> pages[i] != [])
  }

  ghost predicate IsPositionWalk(tables: seq<Table>, limit: nat, pages: seq<seq<ShortLink>>) {
    && |tables| == |pages| >= 1 && limit >= 1
    && (forall i :: 0 <= i < |pages| ==> PositionPageOk(tables, limit, pages, i))
  }

  /** The cursor that asked for page i is good on the table it met. */
  ghost predicate CursorGoodAt(tables: seq<Table>, pages: seq<seq<ShortLink>>, i: nat)
    requires 0 < i < |tables| == |pages|
  {
    pages[i - 1] != [] && CursorGood(tables[i], pages[i - 1][|pages[i - 1]| - 1])
  }

  lemma FirstPageByPosition(t: Table, limit: nat, page: seq<ShortLink>)
    requires ByPosition(t, limit, None, page)
    ensures IsPage(t, limit, None, page)
  {
    var s :| IsListing(s, t) && page == ListPage(s, limit, None);
    FirstPageIsKeyset(t, s, limit);
  }

  lemma NextPageIff(t: Table, limit: nat, before: seq<ShortLink>, page: seq<ShortLink>)
    requires Keyed(t) && limit >= 1 && before != [] && ByPosition(t, limit, NextCursor(before), page)
    ensures IsPage(t, limit, Some(LastKey(before)), page) <==> CursorGood(t, before[|before| - 1])
  {
    var s :| IsListing(s, t) && page == ListPage(s, limit, NextCursor(before));
    CursorGoodIff(t, s, limit, before[|before| - 1]);
  }

  lemma PositionPageIff(tables: seq<Table>, limit: nat, pages: seq<seq<ShortLink>>, i: nat)
    requires IsPositionWalk(tables, limit, pages) && i < |pages|
    ensures PageOk(tables, limit, pages, i) <==> i == 0 || CursorGoodAt(tables, pages, i)
  {
    assert PositionPageOk(tables, limit, pages, i);
    assert PageOk(tables, limit, pages, i) <==> IsPage(tables[i], limit, CursorFor(pages, i), pages[i]);
    if i == 0 {
      FirstPageByPosition(tables[0], limit, pages[0]);
    } else {
      assert PositionPageOk(tables, limit, pages, i - 1);
      var before := pages[i - 1];
      assert CursorFor(pages, i) == Some(LastKey(before));
      assert CursorGoodAt(tables, pages, i) <==> CursorGood(tables[i], before[|before| - 1]);
      NextPageIff(tables[i], limit, before, pages[i]);
    }
  }

  /** Following cursors by position over a changing store is the keyset walk,
      with all that holds of it, if and only if each cursor is good when used. */
  lemma PositionWalkIff(tables: seq<Table>, limit: nat, pages: seq<seq<ShortLink>>)
    requires IsPositionWalk(tables, limit, pages)
    ensures IsWalk(tables, limit, pages) <==> forall i :: 0 < i < |pages| ==> CursorGoodAt(tables, pages, i)
  {
    forall i | 0 <= i < |pages|
      ensures PageOk(tables, limit, pages, i) <==> i == 0 || CursorGoodAt(tables, pages, i)
    {
      PositionPageIff(tables, limit, pages, i);
    }
  }

  /** While the link of every cursor stays stored until the cursor is used, the
      walk by position lists each link that was there throughout at exactly one
      place. */
  lemma PositionListsExactlyOnce(tables: seq<Table>, limit: nat, pages: seq<seq<ShortLink>>, k: Key)
    returns (i: int, x: int)
    requires IsPositionWalk(tables, limit, pages) && Finished(pages) && Throughout(tables, k)
    requires forall j :: 0 < j < |pages| ==> pages[j - 1] != [] ==> Has(tables[j], LastKey(pages[j - 1]))
    ensures IsWalk(tables, limit, pages)
    ensures ListedAt(pages, k, i, x)
    ensures forall j, y :: ListedAt(pages, k, j, y) ==> j == i && y == x
  {
    forall j | 0 < j < |pages|
      ensures CursorGoodAt(tables, pages, j)
    {
      assert PositionPageOk(tables, limit, pages, j - 1);
    }
    PositionWalkIff(tables, limit, pages);
    i, x := ListedExactlyOnce(tables, limit, pages, k);
  }
}
