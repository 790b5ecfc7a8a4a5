/** Keyset pagination: one page per query, and the walk a client makes by following next cursors. */
module Pagination {
  import opened Common

  const DEFAULT_PER_PAGE := 15
  const MAX_PER_PAGE := 100

  /** A row, by its primary key, its creation time, and its value in the column the query sorts by. */
  datatype Item = Item(id: nat, createdAt: int, column: int)

  datatype Cursor = Cursor(value: int, id: nat)

  /** The cursor parameter of a request, decoded or not decodable. */
  datatype CursorParam = Absent | Garbled | Decoded(cursor: Cursor)

  datatype PageError = InvalidCursor | FetchFailed

  /** items are the rows of the page; next is present exactly when a next cursor was set. */
  datatype Page = Page(items: seq<Item>, perPage: nat, hasMore: bool, next: Option<Cursor>)

  function GetPerPage(requested: int): (n: nat)
    ensures 1 <= n <= MAX_PER_PAGE
    ensures 1 <= requested <= MAX_PER_PAGE ==> n == requested
    ensures n == if requested < 1 then 15 else if requested > 100 then 100 else requested
  {
    if requested < 1 then DEFAULT_PER_PAGE else if requested > MAX_PER_PAGE then MAX_PER_PAGE else requested
  }

  /**
    A sort keyword that the database accepts, and the direction it reads it as. SQL reads keywords in any case
    and with options such as NULLS LAST; the cursor condition compares the text with "desc" exactly.
   */
  datatype SortText = SortText(keyword: string, descending: bool)

  predicate ReadsPlainKeywords(o: SortText) {
    (o.keyword == "desc" ==> o.descending) && (o.keyword in {"", "asc"} ==> !o.descending)
  }

  type SortOrder = o: SortText | ReadsPlainKeywords(o) witness SortText("", false)

  /** The cursor condition runs in the direction of the sort. */
  predicate KeywordFits(order: SortOrder) {
    order.keyword == "desc" <==> order.descending
  }

  /** ORDER BY column, id in the given direction. */
  predicate Precedes(descending: bool, a: Item, b: Item) {
    if descending then b.column < a.column || (b.column == a.column && b.id < a.id)
    else a.column < b.column || (a.column == b.column && a.id < b.id)
  }

  /** The WHERE condition built from a cursor. */
  predicate PassesCursor(order: SortOrder, c: Cursor, x: Item) {
    if order.keyword == "desc" then x.column < c.value || (x.column == c.value && x.id < c.id)
    else x.column > c.value || (x.column == c.value && x.id > c.id)
  }

  function BuildCursor(item: Item): Cursor {
    Cursor(item.createdAt, item.id)
  }

  // ------------------------------------------------------------ when a cursor resumes where its page ended

  /** The condition that a sort column and a sort keyword must meet. */
  predicate Resumable(order: SortOrder, item: Item) {
    item.column == item.createdAt && KeywordFits(order)
  }

  /** The cursor of a row selects exactly the rows after it, for every possible row, exactly under that condition. */
  lemma CursorResumesExactlyAfter(order: SortOrder, item: Item)
    ensures (forall x: Item :: PassesCursor(order, BuildCursor(item), x) <==> Precedes(order.descending, item, x))
            <==> Resumable(order, item)
  {
    if forall x: Item :: PassesCursor(order, BuildCursor(item), x) <==> Precedes(order.descending, item, x) {
      var same := Item(item.id, item.createdAt, item.column);
      assert !Precedes(order.descending, item, same) && !PassesCursor(order, BuildCursor(item), same);
      var high, low := Item(item.id, 0, item.column + 1), Item(item.id, 0, item.column - 1);
      assert PassesCursor(order, BuildCursor(item), high) <==> Precedes(order.descending, item, high);
      assert PassesCursor(order, BuildCursor(item), low) <==> Precedes(order.descending, item, low);
      var far := Item(item.id, 0, if item.createdAt > item.column then item.createdAt + 1 else item.createdAt - 1);
      assert PassesCursor(order, BuildCursor(item), far) <==> Precedes(order.descending, item, far);
    }
  }

  // ------------------------------------------------------------ one query

  /** The primary key. */
  predicate DistinctIds(t: set<Item>) {
    forall a, b :: a in t && b in t && a.id == b.id ==> a == b
  }

  predicate StrictlySorted(descending: bool, s: seq<Item>) {
    forall i, j :: 0 <= i < j < |s| ==> Precedes(descending, s[i], s[j])
  }

  predicate Leads(descending: bool, t: set<Item>, m: Item) {
    m in t && forall x :: x in t && x != m ==> Precedes(descending, m, x)
  }

  lemma FirstRowExists(descending: bool, t: set<Item>)
    requires t != {} && DistinctIds(t)
    ensures exists m :: Leads(descending, t, m)
  {
    var x :| x in t;
    if t == {x} {
      assert Leads(descending, t, x);
    } else {
      var rest := t - {x};
      FirstRowExists(descending, rest);
      var m :| Leads(descending, rest, m);
      assert m.id != x.id;
      var best := if Precedes(descending, m, x) then m else x;
      forall y | y in t && y != best ensures Precedes(descending, best, y) {
        assert y == x || y in rest;
      }
      assert Leads(descending, t, best);
    }
  }

  function FirstRow(descending: bool, t: set<Item>): (m: Item)
    requires t != {} && DistinctIds(t)
    ensures Leads(descending, t, m)
  {
    FirstRowExists(descending, t);
    var m :| m in t && Leads(descending, t, m);
    m
  }

  /** The rows in query order. */
  function Sorted(descending: bool, t: set<Item>): (s: seq<Item>)
    requires DistinctIds(t)
    ensures StrictlySorted(descending, s) && (forall x :: x in s <==> x in t) && |s| == |t|
  {
    if t == {} then []
    else
      var m := FirstRow(descending, t);
      var rest := Sorted(descending, t - {m});
      assert forall i :: 0 <= i < |rest| ==> rest[i] in t - {m};
      [m] + rest
  }

  function Selected(t: set<Item>, order: SortOrder, from: Option<Cursor>): (rows: set<Item>)
    ensures rows <= t
  {
    if from.None? then t else set x | x in t && PassesCursor(order, from.value, x)
  }

  /** The page that one request gets from a table: the first rows in query order that pass the cursor. */
  function PageOf(t: set<Item>, order: SortOrder, from: Option<Cursor>, perPage: nat): Page
    requires DistinctIds(t) && perPage >= 1
  {
    Cut(Sorted(order.descending, Selected(t, order, from)), perPage)
  }

  function Cut(rows: seq<Item>, perPage: nat): Page
    requires perPage >= 1
  {
    if |rows| <= perPage then Page(rows, perPage, false, None)
    else Page(rows[..perPage], perPage, true, Some(BuildCursor(rows[perPage - 1])))
  }

  /** LIMIT n. */
  function Limited(rows: seq<Item>, n: nat): seq<Item> {
    if |rows| <= n then rows else rows[..n]
  }

  /** One row more than the page holds decides the page. */
  lemma OneMoreRowDecides(rows: seq<Item>, perPage: nat)
    requires perPage >= 1
    ensures Cut(Limited(rows, perPage + 1), perPage) == Cut(rows, perPage)
  {
    assert |rows| > perPage ==> Limited(rows, perPage + 1)[..perPage] == rows[..perPage];
  }

  lemma CutOf(rows: seq<Item>, perPage: nat)
    requires perPage >= 1
    ensures var page := Cut(rows, perPage);
      && page.perPage == perPage && page.items == rows[..|page.items|]
      && |page.items| == (if page.hasMore then perPage else |rows|) && (page.hasMore <==> |rows| > perPage)
      && page.next == (if page.hasMore then Some(Cursor(rows[perPage - 1].createdAt, rows[perPage - 1].id)) else None)
  {
  }

  /** A page is sorted by column and then id, both in the direction of the query. */
  lemma PageIsSorted(t: set<Item>, order: SortOrder, from: Option<Cursor>, perPage: nat)
    requires DistinctIds(t) && perPage >= 1
    ensures var items := PageOf(t, order, from, perPage).items;
      forall i, j :: 0 <= i < j < |items| ==>
        var a, b := items[i], items[j];
        if order.descending then b.column < a.column || (b.column == a.column && b.id < a.id)
        else a.column < b.column || (a.column == b.column && a.id < b.id)
  {
    hide Cut, Selected;
    CutOf(Sorted(order.descending, Selected(t, order, from)), perPage);
  }

  /** Exactly when more rows wait, the page is full and its next cursor is made of its last row. */
  lemma PageContinues(t: set<Item>, order: SortOrder, from: Option<Cursor>, perPage: nat)
    requires DistinctIds(t) && perPage >= 1
    ensures var page := PageOf(t, order, from, perPage);
      && page.perPage == perPage && |page.items| <= perPage
      && (page.hasMore ==> |page.items| == perPage)
      && page.next == (if page.hasMore then
                         Some(Cursor(page.items[perPage - 1].createdAt, page.items[perPage - 1].id))
                       else None)
      && (page.hasMore ==> exists x :: x in Selected(t, order, from) && x !in page.items)
  {
    hide Selected, BuildCursor, Cut, Precedes;
    var rows := Sorted(order.descending, Selected(t, order, from));
    CutOf(rows, perPage);
    if |rows| > perPage {
      assert rows[perPage] in rows;
      forall i | 0 <= i < perPage ensures rows[i] != rows[perPage] {
        assert Precedes(order.descending, rows[i], rows[perPage]);
        NothingPrecedesItself(order.descending, rows[i]);
      }
    }
  }

  /**
    Which rows it holds: rows of the table past the cursor in the direction of the keyword, and of those, none is
    left out but after a full page.
   */
  lemma PageHolds(t: set<Item>, order: SortOrder, from: Option<Cursor>, perPage: nat, x: Item)
    requires DistinctIds(t) && perPage >= 1
    ensures var page := PageOf(t, order, from, perPage);
      var past :=
        from.None?
        || (if order.keyword == "desc" then
              x.column < from.value.value || (x.column == from.value.value && x.id < from.value.id)
            else x.column > from.value.value || (x.column == from.value.value && x.id > from.value.id));
      && (x in page.items ==> x in t && past)
      && (x in t && past && x !in page.items ==>
            && page.hasMore && |page.items| == perPage
            && var last := page.items[perPage - 1];
            if order.descending then x.column < last.column || (x.column == last.column && x.id < last.id)
            else last.column < x.column || (last.column == x.column && last.id < x.id))
  {
    var rows := Sorted(order.descending, Selected(t, order, from));
    hide Sorted, Cut, StrictlySorted;
    CutOf(rows, perPage);
    assert x in Selected(t, order, from) <==> x in rows;
    if |rows| <= perPage {
      assert rows[..|rows|] == rows;
    } else if x in rows && x !in rows[..perPage] {
      PrefixIsFirst(order.descending, rows, perPage, x);
    }
  }

  class CursorPaginator {
    var items: seq<Item>
    var perPage: nat
    var hasMore: bool
    var nextCursor: Option<Cursor>

    constructor (items: seq<Item>, perPage: nat, hasMore: bool)
      ensures this.items == items && this.perPage == perPage && this.hasMore == hasMore && nextCursor == None
    {
      this.items, this.perPage, this.hasMore, nextCursor := items, perPage, hasMore, None;
    }

    method SetNextCursor(cursor: Cursor)
      modifies this`nextCursor
      ensures nextCursor == Some(cursor)
    {
      nextCursor := Some(cursor);
    }
  }

  /** Fetches one row more than the page holds, to learn whether there is a next page. */
  method CursorPaginate(t: set<Item>, param: CursorParam, requestedPerPage: int, keyword: string,
                        sql: string -> Option<bool>)
    returns (paginator: CursorPaginator?, err: Option<PageError>)
    requires DistinctIds(t) && sql("desc") == Some(true) && sql("asc") == Some(false) && sql("") == Some(false)
    ensures param.Garbled? ==> err == Some(InvalidCursor)
    ensures !param.Garbled? && sql(keyword).None? ==> err == Some(FetchFailed)
    ensures err.None? <==> !param.Garbled? && sql(keyword).Some?
    ensures err.None? ==>
      && paginator != null && fresh(paginator)
      && var from := if param.Decoded? then Some(param.cursor) else None;
      && Page(paginator.items, paginator.perPage, paginator.hasMore, paginator.nextCursor)
         == PageOf(t, SortText(keyword, sql(keyword).value), from, GetPerPage(requestedPerPage))
  {
    hide Sorted, Selected, PassesCursor, Precedes, StrictlySorted;
    paginator := null;
    var perPage := GetPerPage(requestedPerPage);
    var from: Option<Cursor> := None;
    if param.Garbled? {
      return null, Some(InvalidCursor);
    }
    if param.Decoded? {
      from := Some(param.cursor);
    }
    if sql(keyword).None? {
      return null, Some(FetchFailed);
    }
    var order: SortOrder := SortText(keyword, sql(keyword).value);
    var rows := Sorted(order.descending, Selected(t, order, from));
    var items := Limited(rows, perPage + 1);
    OneMoreRowDecides(rows, perPage);
    var hasMore := |items| > perPage;
    if hasMore {
      items := items[..perPage];
    }
    paginator := new CursorPaginator(items, perPage, hasMore);
    if hasMore && |items| > 0 {
      paginator.SetNextCursor(BuildCursor(items[|items| - 1]));
    }
    return paginator, None;
  }

  // ------------------------------------------------------------ the walk

  /** One request of a walk: the table as it is when the request arrives, and the page size it asks for. */
  datatype Request = Request(table: set<Item>, perPage: int)

  /** The rows returned by following next cursors, one request per page, until there is no next page. */
  function Walk(requests: seq<Request>, order: SortOrder, from: Option<Cursor>): seq<Item>
    requires forall r :: r in requests ==> DistinctIds(r.table)
  {
    if requests == [] then []
    else
      var page := PageOf(requests[0].table, order, from, GetPerPage(requests[0].perPage));
      page.items + (if page.hasMore then Walk(requests[1..], order, page.next) else [])
  }

  /** The walk reaches a page without a next cursor. */
  predicate Ends(requests: seq<Request>, order: SortOrder, from: Option<Cursor>)
    requires forall r :: r in requests ==> DistinctIds(r.table)
  {
    requests != [] &&
    var page := PageOf(requests[0].table, order, from, GetPerPage(requests[0].perPage));
    !page.hasMore || Ends(requests[1..], order, page.next)
  }

  predicate After(order: SortOrder, from: Option<Cursor>, x: Item) {
    from.None? || PassesCursor(order, from.value, x)
  }

  /** Sorting by creation time under a keyword that both readers understand alike. */
  predicate Coherent(requests: seq<Request>, order: SortOrder) {
    && KeywordFits(order)
    && forall r, x :: r in requests && x in r.table ==> x.column == x.createdAt
  }

  predicate TablesOk(requests: seq<Request>) {
    forall r :: r in requests ==> DistinctIds(r.table)
  }

  lemma PrefixIsFirst(descending: bool, rows: seq<Item>, n: nat, x: Item)
    requires StrictlySorted(descending, rows) && 1 <= n <= |rows| && x in rows && x !in rows[..n]
    ensures Precedes(descending, rows[n - 1], x)
  {
    var k :| 0 <= k < |rows| && rows[k] == x;
  }

  /** Among these rows, the cursor of one lets every other row after it through. */
  predicate Resumes(order: SortOrder, rows: set<Item>) {
    forall a, b :: a in rows && b in rows && a.id != b.id && Precedes(order.descending, a, b) ==>
      PassesCursor(order, BuildCursor(a), b)
  }

  /** What a page leaves for later requests, when cursors resume among its rows. */
  lemma PageMissesNothing(t: set<Item>, order: SortOrder, from: Option<Cursor>, perPage: nat, x: Item)
    requires DistinctIds(t) && perPage >= 1 && Resumes(order, t) && x in t && After(order, from, x)
    ensures var page := PageOf(t, order, from, perPage);
      x in page.items || (page.hasMore && PassesCursor(order, page.next.value, x))
  {
    var rows := Sorted(order.descending, Selected(t, order, from));
    assert x in Selected(t, order, from) && x in rows;
    if |rows| > perPage && x !in rows[..perPage] {
      var last := rows[perPage - 1];
      assert last in rows && last in t && last in rows[..perPage];
      PrefixIsFirst(order.descending, rows, perPage, x);
    }
  }

  lemma PageFacts(t: set<Item>, order: SortOrder, from: Option<Cursor>, perPage: nat)
    requires DistinctIds(t) && perPage >= 1 && (forall x :: x in t ==> Resumable(order, x))
    ensures var page := PageOf(t, order, from, perPage);
      && StrictlySorted(order.descending, page.items)
      && (forall x :: x in page.items ==> x in t && After(order, from, x))
      && (page.hasMore ==>
            && page.next.Some? && page.items != []
            && BuildCursor(page.items[|page.items| - 1]) == page.next.value)
  {
    hide Sorted, PassesCursor, Precedes, Resumable;
    var selected := Selected(t, order, from);
    assert forall x :: x in selected <==> x in t && After(order, from, x);
    var rows := Sorted(order.descending, selected);
    if |rows| > perPage {
      assert forall x :: x in rows[..perPage] ==> x in rows;
    }
  }

  /** Sorted rows past a cursor, followed by sorted rows past the cursor of the last of them. */
  lemma PageThenRest(order: SortOrder, from: Option<Cursor>, items: seq<Item>, rest: seq<Item>)
    requires KeywordFits(order)
    requires StrictlySorted(order.descending, items) && StrictlySorted(order.descending, rest) && items != []
    requires (forall x :: x in items ==> After(order, from, x)) && Resumable(order, items[|items| - 1])
    requires forall x :: x in rest ==> PassesCursor(order, BuildCursor(items[|items| - 1]), x)
    ensures StrictlySorted(order.descending, items + rest)
    ensures forall x :: x in rest ==> After(order, from, x)
  {
    var last := items[|items| - 1];
    assert last in items;
    CursorResumesExactlyAfter(order, last);
    SortedAppend(order.descending, items, rest);
    forall x | x in rest ensures After(order, from, x) {
      assert Precedes(order.descending, last, x);
    }
  }

  /** A walk returns rows in strict order, past its starting cursor. */
  lemma {:induction false} WalkIsStrictlySorted(requests: seq<Request>, order: SortOrder, from: Option<Cursor>)
    requires TablesOk(requests) && Coherent(requests, order)
    ensures StrictlySorted(order.descending, Walk(requests, order, from))
    ensures forall x :: x in Walk(requests, order, from) ==>
      After(order, from, x) && exists r :: r in requests && x in r.table
  {
    if requests != [] {
      var t, perPage := requests[0].table, GetPerPage(requests[0].perPage);
      assert requests[0] in requests;
      PageFacts(t, order, from, perPage);
      var page := PageOf(t, order, from, perPage);
      if page.hasMore {
        WalkIsStrictlySorted(requests[1..], order, page.next);
        PageThenRest(order, from, page.items, Walk(requests[1..], order, page.next));
      }
    }
  }

  lemma SortedAppend(descending: bool, a: seq<Item>, b: seq<Item>)
    requires StrictlySorted(descending, a) && StrictlySorted(descending, b)
    requires a != [] && forall x :: x in b ==> Precedes(descending, a[|a| - 1], x)
    ensures StrictlySorted(descending, a + b)
  {
    var s := a + b;
    forall i, j | 0 <= i < j < |s| ensures Precedes(descending, s[i], s[j]) {
      if i < |a| <= j {
        assert s[j] in b;
        assert i < |a| - 1 ==> Precedes(descending, a[i], a[|a| - 1]);
      }
    }
  }

  /** Every table of the walk consists of rows from one set. */
  predicate Within(requests: seq<Request>, rows: set<Item>) {
    forall r :: r in requests ==> r.table <= rows
  }

  /** A finished walk among rows whose cursors resume misses no row that was in the table at every request. */
  lemma {:induction false} WalkIsComplete(requests: seq<Request>, order: SortOrder, from: Option<Cursor>,
                                          rows: set<Item>, x: Item)
    requires TablesOk(requests) && Within(requests, rows) && Resumes(order, rows) && Ends(requests, order, from)
    requires After(order, from, x) && forall r :: r in requests ==> x in r.table
    ensures x in Walk(requests, order, from)
  {
    var t, perPage := requests[0].table, GetPerPage(requests[0].perPage);
    assert requests[0] in requests;
    PageMissesNothing(t, order, from, perPage, x);
    var page := PageOf(t, order, from, perPage);
    if x !in page.items {
      WalkIsComplete(requests[1..], order, page.next, rows, x);
    }
  }

  function AllRows(requests: seq<Request>): (rows: set<Item>)
    ensures Within(requests, rows)
    ensures forall x :: x in rows ==> exists r :: r in requests && x in r.table
  {
    set r, x | r in requests && x in r.table :: x
  }

  lemma CoherentResumes(requests: seq<Request>, order: SortOrder)
    requires Coherent(requests, order)
    ensures Resumes(order, AllRows(requests))
  {
    forall a, b | a in AllRows(requests) && b in AllRows(requests) && Precedes(order.descending, a, b)
      ensures PassesCursor(order, BuildCursor(a), b)
    {
      CursorResumesExactlyAfter(order, a);
    }
  }

  lemma StrictlySortedHasNoRepeats(descending: bool, s: seq<Item>, i: nat, j: nat)
    requires StrictlySorted(descending, s) && i < |s| && j < |s| && i != j
    ensures (s[i].column, s[i].id) != (s[j].column, s[j].id)
  {
    assert if i < j then Precedes(descending, s[i], s[j]) else Precedes(descending, s[j], s[i]);
  }

  /** Every row present throughout a finished walk is returned exactly once. */
  lemma StableRowsExactlyOnce(requests: seq<Request>, order: SortOrder, x: Item)
    requires TablesOk(requests) && Coherent(requests, order) && Ends(requests, order, None)
    requires forall r :: r in requests ==> x in r.table
    ensures var s := Walk(requests, order, None);
      exists i :: 0 <= i < |s| && s[i] == x
        && forall j :: 0 <= j < |s| && j != i ==> (s[j].column, s[j].id) != (x.column, x.id)
  {
    CoherentResumes(requests, order);
    WalkIsComplete(requests, order, None, AllRows(requests), x);
    WalkIsStrictlySorted(requests, order, None);
    var s := Walk(requests, order, None);
    var i :| 0 <= i < |s| && s[i] == x;
    forall j | 0 <= j < |s| && j != i ensures (s[j].column, s[j].id) != (x.column, x.id) {
      StrictlySortedHasNoRepeats(order.descending, s, i, j);
    }
  }

  /** While an id stands for one row, none is returned twice, not even that of a row inserted or deleted meanwhile. */
  lemma NoIdTwice(requests: seq<Request>, order: SortOrder, i: nat, j: nat)
    requires TablesOk(requests) && Coherent(requests, order)
    requires forall a, b :: a in AllRows(requests) && b in AllRows(requests) && a.id == b.id ==> a == b
    requires i < |Walk(requests, order, None)| && j < |Walk(requests, order, None)| && i != j
    ensures Walk(requests, order, None)[i].id != Walk(requests, order, None)[j].id
  {
    WalkIsStrictlySorted(requests, order, None);
    var s := Walk(requests, order, None);
    assert s[i] in s && s[j] in s;
    assert s[i] in AllRows(requests) && s[j] in AllRows(requests);
    StrictlySortedHasNoRepeats(order.descending, s, i, j);
  }

  // ------------------------------------------------------------ exactly when walks miss nothing

  /** A finished walk over tables of these rows, one of which (x) was present throughout. */
  predicate FinishedOver(requests: seq<Request>, order: SortOrder, rows: set<Item>, x: Item) {
    && TablesOk(requests) && Within(requests, rows) && Ends(requests, order, None)
    && forall r :: r in requests ==> x in r.table
  }

  lemma FirstOfTwo(order: SortOrder, a: Item, b: Item)
    requires a.id != b.id && Precedes(order.descending, a, b)
    ensures PageOf({a, b}, order, None, 1) == Page([a], 1, true, Some(BuildCursor(a)))
  {
    assert Selected({a, b}, order, None) == {a, b};
    SortedIsUnique(order.descending, Sorted(order.descending, {a, b}), [a, b]);
  }

  /** The page after it holds at most the first row again. */
  lemma SecondOfTwo(order: SortOrder, a: Item, b: Item)
    requires a.id != b.id && !PassesCursor(order, BuildCursor(a), b)
    ensures var page := PageOf({a, b}, order, Some(BuildCursor(a)), 1);
      !page.hasMore && b !in page.items
  {
    hide PassesCursor, Precedes;
    var left := Selected({a, b}, order, Some(BuildCursor(a)));
    assert b !in left && left <= {a};
    SubsetIsSmaller(left, {a});
    hide Selected;
    assert |Sorted(order.descending, left)| <= 1;
  }

  /** Two rows, asked for one at a time: the second is missed when the cursor of the first does not let it through. */
  lemma TwoRowWalkMisses(order: SortOrder, a: Item, b: Item) returns (requests: seq<Request>)
    requires a.id != b.id && Precedes(order.descending, a, b) && !PassesCursor(order, BuildCursor(a), b)
    ensures FinishedOver(requests, order, {a, b}, b) && b !in Walk(requests, order, None)
  {
    hide PageOf, PassesCursor, Precedes, Walk, Ends;
    var t := {a, b};
    requests := [Request(t, 1), Request(t, 1)];
    FirstOfTwo(order, a, b);
    SecondOfTwo(order, a, b);
    var first, last := PageOf(t, order, None, 1), PageOf(t, order, Some(BuildCursor(a)), 1);
    WalkOfTwoPages(requests[0], requests[1], order, first, last);
  }

  /** A walk of two pages. */
  lemma WalkOfTwoPages(r: Request, q: Request, order: SortOrder, first: Page, last: Page)
    requires DistinctIds(r.table) && first == PageOf(r.table, order, None, GetPerPage(r.perPage)) && first.hasMore
    requires DistinctIds(q.table) && last == PageOf(q.table, order, first.next, GetPerPage(q.perPage)) && !last.hasMore
    ensures TablesOk([r, q]) && Ends([r, q], order, None)
    ensures Walk([r, q], order, None) == first.items + last.items
  {
    hide PageOf, PassesCursor, Precedes, DistinctIds;
    assert [r, q][1..] == [q];
    assert Walk([q], order, first.next) == last.items + [];
  }

  /**
    Every finished walk over tables of these rows returns every row present throughout if and only if, for each
    two of them in query order, the cursor of the first lets the second through.
   */
  lemma WalksMissNothingExactly(order: SortOrder, rows: set<Item>)
    ensures (forall requests, x :: FinishedOver(requests, order, rows, x) ==> x in Walk(requests, order, None))
            <==> Resumes(order, rows)
  {
    if Resumes(order, rows) {
      forall requests, x | FinishedOver(requests, order, rows, x) ensures x in Walk(requests, order, None) {
        WalkIsComplete(requests, order, None, rows, x);
      }
    } else {
      var a, b :| a in rows && b in rows && a.id != b.id && Precedes(order.descending, a, b)
        && !PassesCursor(order, BuildCursor(a), b);
      var requests := TwoRowWalkMisses(order, a, b);
      assert FinishedOver(requests, order, rows, b);
    }
  }

  predicate ByCreation(rows: set<Item>) {
    forall x :: x in rows ==> x.column == x.createdAt
  }

  /** For rows sorted by creation time that condition is one on the keyword alone. */
  lemma KeywordDecides(order: SortOrder)
    ensures (forall rows :: ByCreation(rows) ==> Resumes(order, rows)) <==> KeywordFits(order)
  {
    if KeywordFits(order) {
      forall rows | ByCreation(rows) ensures Resumes(order, rows) {
        forall a, b | a in rows && b in rows && Precedes(order.descending, a, b)
          ensures PassesCursor(order, BuildCursor(a), b)
        {
          CursorResumesExactlyAfter(order, a);
        }
      }
    } else {
      var newer, older := Item(2, 2, 2), Item(1, 1, 1);
      assert ByCreation({newer, older}) && Precedes(order.descending, newer, older);
    }
  }

  /** Sorted by creation time, finished walks return every row present throughout if and only if the keyword fits. */
  lemma CreationWalksMissNothingExactly(order: SortOrder)
    ensures (forall requests, rows, x ::
               ByCreation(rows) && FinishedOver(requests, order, rows, x) ==> x in Walk(requests, order, None))
            <==> KeywordFits(order)
  {
    KeywordDecides(order);
    if KeywordFits(order) {
      forall requests, rows, x | ByCreation(rows) && FinishedOver(requests, order, rows, x)
        ensures x in Walk(requests, order, None)
      {
        WalksMissNothingExactly(order, rows);
      }
    } else {
      var rows :| ByCreation(rows) && !Resumes(order, rows);
      WalksMissNothingExactly(order, rows);
    }
  }

  /** The keyword DESC sorts like desc, but its cursors look the other way: the second page is empty. */
  lemma UpperCaseKeywordLosesRows() returns (requests: seq<Request>)
    ensures FinishedOver(requests, SortText("DESC", true), {Item(1, 1, 1), Item(2, 2, 2)}, Item(1, 1, 1))
    ensures Item(1, 1, 1) !in Walk(requests, SortText("DESC", true), None)
  {
    assert {Item(2, 2, 2), Item(1, 1, 1)} == {Item(1, 1, 1), Item(2, 2, 2)};
    requests := TwoRowWalkMisses(SortText("DESC", true), Item(2, 2, 2), Item(1, 1, 1));
  }

  /** So does sorting by another column, whose values the creation time in the cursor is compared with. */
  lemma OtherColumnLosesRows() returns (requests: seq<Request>)
    ensures FinishedOver(requests, SortText("asc", false), {Item(1, 9, 1), Item(2, 9, 2)}, Item(2, 9, 2))
    ensures Item(2, 9, 2) !in Walk(requests, SortText("asc", false), None)
  {
    requests := TwoRowWalkMisses(SortText("asc", false), Item(1, 9, 1), Item(2, 9, 2));
  }

  // ------------------------------------------------------------ exactly when walks repeat nothing

  /** Among these rows, the cursor of a row that others follow lets no row through that is not after it. */
  predicate NeverBack(order: SortOrder, rows: set<Item>) {
    forall a, x :: a in rows && x in rows && HasLater(order, rows, a)
                   && (x == a || Precedes(order.descending, x, a)) ==>
      !PassesCursor(order, BuildCursor(a), x)
  }

  predicate HasLater(order: SortOrder, rows: set<Item>, a: Item) {
    exists z :: z in rows && Precedes(order.descending, a, z)
  }

  predicate NoIdRepeats(s: seq<Item>) {
    forall i, j :: 0 <= i < j < |s| ==> s[i].id != s[j].id
  }

  predicate ReturnedOnce(s: seq<Item>, x: Item) {
    exists i :: 0 <= i < |s| && s[i] == x && forall j :: 0 <= j < |s| && j != i ==> s[j].id != x.id
  }

  function CursorOf(last: Option<Item>): Option<Cursor> {
    if last.None? then None else Some(BuildCursor(last.value))
  }

  lemma SelectedIsLater(t: set<Item>, order: SortOrder, last: Item, rows: set<Item>, x: Item)
    requires DistinctIds(rows) && t <= rows && NeverBack(order, rows)
    requires last in rows && HasLater(order, rows, last) && x in Selected(t, order, Some(BuildCursor(last)))
    ensures Precedes(order.descending, last, x)
  {
    hide HasLater;
    assert x == last || x.id != last.id;
  }

  /** The page of sorted rows ends with a row that others follow, if there is more. */
  lemma CutEnds(order: SortOrder, s: seq<Item>, perPage: nat, rows: set<Item>)
    requires StrictlySorted(order.descending, s) && (forall x :: x in s ==> x in rows) && perPage >= 1
    ensures var page := Cut(s, perPage);
      && StrictlySorted(order.descending, page.items) && (forall x :: x in page.items ==> x in s)
      && (page.hasMore ==>
            && page.items != [] && HasLater(order, rows, page.items[|page.items| - 1])
            && page.next == Some(BuildCursor(page.items[|page.items| - 1])))
  {
    hide Precedes;
    if |s| > perPage {
      assert s[perPage] in s && Precedes(order.descending, s[perPage - 1], s[perPage]);
    }
  }

  /** A page after the cursor of a row goes on behind that row, and a next cursor is that of a row others follow. */
  lemma PageGoesOn(t: set<Item>, order: SortOrder, last: Option<Item>, perPage: nat, rows: set<Item>)
    requires DistinctIds(rows) && t <= rows && DistinctIds(t) && NeverBack(order, rows) && perPage >= 1
    requires last.Some? ==> last.value in rows && HasLater(order, rows, last.value)
    ensures var page := PageOf(t, order, CursorOf(last), perPage);
      && StrictlySorted(order.descending, page.items)
      && (forall x :: x in page.items ==> x in rows && (last.Some? ==> Precedes(order.descending, last.value, x)))
      && (page.hasMore ==>
            && page.items != [] && HasLater(order, rows, page.items[|page.items| - 1])
            && page.next == Some(BuildCursor(page.items[|page.items| - 1])))
  {
    hide PassesCursor, StrictlySorted, Precedes, HasLater, NeverBack, Cut, Selected, Sorted;
    var selected := Selected(t, order, CursorOf(last));
    forall x | x in selected && last.Some? ensures Precedes(order.descending, last.value, x) {
      SelectedIsLater(t, order, last.value, rows, x);
    }
    CutEnds(order, Sorted(order.descending, selected), perPage, rows);
  }

  lemma {:induction false} WalkGoesOn(requests: seq<Request>, order: SortOrder, last: Option<Item>, rows: set<Item>)
    requires DistinctIds(rows) && TablesOk(requests) && Within(requests, rows) && NeverBack(order, rows)
    requires last.Some? ==> last.value in rows && HasLater(order, rows, last.value)
    ensures StrictlySorted(order.descending, Walk(requests, order, CursorOf(last)))
    ensures forall x :: x in Walk(requests, order, CursorOf(last)) ==>
      x in rows && (last.Some? ==> Precedes(order.descending, last.value, x))
  {
    hide PageOf, NeverBack, StrictlySorted, DistinctIds;
    if requests == [] {
      NothingIsSorted(order.descending);
    } else {
      var t, perPage := requests[0].table, GetPerPage(requests[0].perPage);
      assert requests[0] in requests;
      PageGoesOn(t, order, last, perPage, rows);
      var page := PageOf(t, order, CursorOf(last), perPage);
      if page.hasMore {
        var end := page.items[|page.items| - 1];
        assert end in page.items;
        WalkGoesOn(requests[1..], order, Some(end), rows);
        SortedAppend(order.descending, page.items, Walk(requests[1..], order, page.next));
        forall x | x in Walk(requests[1..], order, page.next) && last.Some?
          ensures Precedes(order.descending, last.value, x)
        {
          assert Precedes(order.descending, end, x);
        }
      } else {
        assert page.items + [] == page.items;
      }
    }
  }

  lemma NothingIsSorted(descending: bool)
    ensures StrictlySorted(descending, [])
  {
  }

  lemma SortedRepeatsNoId(descending: bool, s: seq<Item>, rows: set<Item>)
    requires StrictlySorted(descending, s) && DistinctIds(rows) && forall x :: x in s ==> x in rows
    ensures NoIdRepeats(s)
  {
    forall i, j | 0 <= i < j < |s| ensures s[i].id != s[j].id {
      assert s[i] in s && s[j] in s;
      assert Precedes(descending, s[i], s[j]);
    }
  }

  /** The page when the rows that the cursor lets through are known. */
  lemma PageIs(t: set<Item>, order: SortOrder, from: Option<Cursor>, perPage: nat, s: seq<Item>)
    requires DistinctIds(t) && perPage >= 1 && StrictlySorted(order.descending, s)
    requires forall x :: x in s <==> x in Selected(t, order, from)
    ensures PageOf(t, order, from, perPage) == Cut(s, perPage)
  {
    hide PassesCursor, StrictlySorted, Precedes, Selected, Cut;
    SortedIsUnique(order.descending, Sorted(order.descending, Selected(t, order, from)), s);
  }

  lemma AllButTheLast(t: set<Item>, order: SortOrder, items: seq<Item>, z: Item)
    requires DistinctIds(t) && items != [] && StrictlySorted(order.descending, items + [z])
    requires forall x :: x in items + [z] <==> x in t
    ensures PageOf(t, order, None, |items|)
         == Page(items, |items|, true, Some(BuildCursor(items[|items| - 1])))
  {
    hide PassesCursor, StrictlySorted, Precedes, DistinctIds, PageOf;
    PageIs(t, order, None, |items|, items + [z]);
    assert (items + [z])[..|items|] == items;
  }

  /** A page from a cursor that lets just one row of the table through. */
  lemma PageOfOne(t: set<Item>, order: SortOrder, c: Cursor, perPage: nat, x: Item)
    requires DistinctIds(t) && Selected(t, order, Some(c)) == {x} && perPage >= 1
    ensures PageOf(t, order, Some(c), perPage) == Page([x], perPage, false, None)
  {
    hide PassesCursor, Precedes, DistinctIds, PageOf, Selected;
    PageIs(t, order, Some(c), perPage, [x]);
  }

  lemma OnlyRowSelected(order: SortOrder, c: Cursor, x: Item)
    requires PassesCursor(order, c, x)
    ensures DistinctIds({x}) && Selected({x}, order, Some(c)) == {x}
  {
  }

  lemma ThreeInOrder(order: SortOrder, x: Item, a: Item, z: Item)
    requires (x == a || Precedes(order.descending, x, a)) && Precedes(order.descending, a, z)
    ensures StrictlySorted(order.descending, (if x == a then [a] else [x, a]) + [z])
  {
  }

  /** A page that ends with a, and after it a page of the one row x that the cursor of a lets through again. */
  lemma WalkComesBack(order: SortOrder, x: Item, a: Item, z: Item) returns (requests: seq<Request>)
    requires DistinctIds({x, a, z}) && (x == a || Precedes(order.descending, x, a)) && Precedes(order.descending, a, z)
    requires PassesCursor(order, BuildCursor(a), x)
    ensures FinishedOver(requests, order, {x, a, z}, x)
    ensures Walk(requests, order, None) == (if x == a then [a] else [x, a]) + [x]
  {
    hide PassesCursor, DistinctIds, PageOf, Selected, Walk, Ends, BuildCursor, Precedes, StrictlySorted, TablesOk;
    var t, items := {x, a, z}, if x == a then [a] else [x, a];
    var r, q := Request(t, |items|), Request({x}, 1);
    OnlyRowSelected(order, BuildCursor(a), x);
    ThreeInOrder(order, x, a, z);
    AllButTheLast(t, order, items, z);
    PageOfOne({x}, order, BuildCursor(a), 1, x);
    requests := [r, q];
    WalkOfTwoPages(r, q, order, PageOf(t, order, None, |items|), PageOf({x}, order, Some(BuildCursor(a)), 1));
  }

  /** A finished walk over tables of these rows. */
  predicate EndsWithin(requests: seq<Request>, order: SortOrder, rows: set<Item>) {
    TablesOk(requests) && Within(requests, rows) && Ends(requests, order, None)
  }

  /** A walk that brings a row again although it was in every table. */
  lemma GoingBackRepeats(order: SortOrder, rows: set<Item>) returns (requests: seq<Request>, x: Item)
    requires DistinctIds(rows) && !NeverBack(order, rows)
    ensures FinishedOver(requests, order, rows, x) && EndsWithin(requests, order, rows)
    ensures !ReturnedOnce(Walk(requests, order, None), x) && !NoIdRepeats(Walk(requests, order, None))
    ensures !StrictlySorted(order.descending, Walk(requests, order, None))
  {
    hide PassesCursor, DistinctIds, Walk, Ends, BuildCursor, Precedes;
    var a;
    a, x :| a in rows && x in rows && HasLater(order, rows, a) && (x == a || Precedes(order.descending, x, a))
      && PassesCursor(order, BuildCursor(a), x);
    var z :| z in rows && Precedes(order.descending, a, z);
    ThreeOfMany(rows, x, a, z);
    requests := WalkComesBack(order, x, a, z);
    var s := Walk(requests, order, None);
    assert s[0] == x && s[|s| - 1] == x;
    NothingPrecedesItself(order.descending, x);
  }

  lemma ThreeOfMany(rows: set<Item>, x: Item, a: Item, z: Item)
    requires DistinctIds(rows) && x in rows && a in rows && z in rows
    ensures DistinctIds({x, a, z})
  {
  }

  lemma NothingPrecedesItself(descending: bool, x: Item)
    ensures !Precedes(descending, x, x)
  {
  }

  lemma GoingOnIsSorted(order: SortOrder, rows: set<Item>, requests: seq<Request>)
    requires DistinctIds(rows) && NeverBack(order, rows) && EndsWithin(requests, order, rows)
    ensures StrictlySorted(order.descending, Walk(requests, order, None)) && NoIdRepeats(Walk(requests, order, None))
  {
    hide NeverBack, StrictlySorted, DistinctIds, Walk, Ends, NoIdRepeats;
    WalkGoesOn(requests, order, None, rows);
    SortedRepeatsNoId(order.descending, Walk(requests, order, None), rows);
  }

  /**
    Every finished walk over tables of these rows returns no id twice if and only if the cursor of each row that
    others follow lets no row through that is not after it; and then all rows come in strict order.
   */
  lemma WalksRepeatNothingExactly(order: SortOrder, rows: set<Item>)
    requires DistinctIds(rows)
    ensures (forall requests :: EndsWithin(requests, order, rows) ==> NoIdRepeats(Walk(requests, order, None)))
            <==> NeverBack(order, rows)
    ensures (forall requests :: EndsWithin(requests, order, rows) ==>
               StrictlySorted(order.descending, Walk(requests, order, None)))
            <==> NeverBack(order, rows)
  {
    hide NeverBack, StrictlySorted, DistinctIds, Walk, NoIdRepeats, Within, Ends;
    if NeverBack(order, rows) {
      forall requests | EndsWithin(requests, order, rows)
        ensures StrictlySorted(order.descending, Walk(requests, order, None))
        ensures NoIdRepeats(Walk(requests, order, None))
      {
        GoingOnIsSorted(order, rows, requests);
      }
    } else {
      var requests, x := GoingBackRepeats(order, rows);
    }
  }

  lemma ReturnedAndNotRepeated(s: seq<Item>, x: Item)
    requires x in s && NoIdRepeats(s)
    ensures ReturnedOnce(s, x)
  {
    var i :| 0 <= i < |s| && s[i] == x;
    forall j | 0 <= j < |s| && j != i ensures s[j].id != x.id {
      assert if i < j then s[i].id != s[j].id else s[j].id != s[i].id;
    }
  }

  /** Both conditions together: finished walks return each row present throughout exactly once. */
  lemma WalksReturnOnceExactly(order: SortOrder, rows: set<Item>)
    requires DistinctIds(rows)
    ensures (forall requests, x :: FinishedOver(requests, order, rows, x) ==>
               ReturnedOnce(Walk(requests, order, None), x))
            <==> Resumes(order, rows) && NeverBack(order, rows)
  {
    hide NeverBack, Resumes, StrictlySorted, DistinctIds, Walk, NoIdRepeats, Within, Ends;
    if !NeverBack(order, rows) {
      var requests, x := GoingBackRepeats(order, rows);
    } else if !Resumes(order, rows) {
      WalksMissNothingExactly(order, rows);
      var requests, x :| FinishedOver(requests, order, rows, x) && x !in Walk(requests, order, None);
      assert !ReturnedOnce(Walk(requests, order, None), x);
    } else {
      WalksMissNothingExactly(order, rows);
      forall requests, x | FinishedOver(requests, order, rows, x) ensures ReturnedOnce(Walk(requests, order, None), x) {
        GoingOnIsSorted(order, rows, requests);
        ReturnedAndNotRepeated(Walk(requests, order, None), x);
      }
    }
  }

  /** What the keyword means for three rows of growing creation times. */
  lemma KeywordGoesBack(order: SortOrder)
    requires !KeywordFits(order)
    ensures var rows := {Item(3, 3, 3), Item(2, 2, 2), Item(1, 1, 1)};
      DistinctIds(rows) && ByCreation(rows) && !NeverBack(order, rows)
  {
    var rows := {Item(3, 3, 3), Item(2, 2, 2), Item(1, 1, 1)};
    assert Item(1, 1, 1) in rows && Precedes(order.descending, Item(2, 2, 2), Item(1, 1, 1));
    assert HasLater(order, rows, Item(2, 2, 2)) && Precedes(order.descending, Item(3, 3, 3), Item(2, 2, 2));
    assert PassesCursor(order, BuildCursor(Item(2, 2, 2)), Item(3, 3, 3));
  }

  /** Sorted by creation time, that condition too is one on the keyword alone. */
  lemma CreationWalksRepeatNothingExactly(order: SortOrder)
    ensures (forall requests, rows :: DistinctIds(rows) && ByCreation(rows) && EndsWithin(requests, order, rows) ==>
               NoIdRepeats(Walk(requests, order, None)))
            <==> KeywordFits(order)
  {
    hide StrictlySorted, DistinctIds, Walk, NoIdRepeats, Within, Ends;
    if KeywordFits(order) {
      forall requests, rows | DistinctIds(rows) && ByCreation(rows) && EndsWithin(requests, order, rows)
        ensures NoIdRepeats(Walk(requests, order, None))
      {
        assert NeverBack(order, rows);
        GoingOnIsSorted(order, rows, requests);
      }
    } else {
      KeywordGoesBack(order);
      var rows := {Item(3, 3, 3), Item(2, 2, 2), Item(1, 1, 1)};
      var requests, x := GoingBackRepeats(order, rows);
    }
  }

  /** Even while the table does not change: under DESC the second page brings the newest row again. */
  lemma UpperCaseKeywordRepeatsRows()
    ensures var t := {Item(3, 3, 3), Item(2, 2, 2), Item(1, 1, 1)};
      var requests := [Request(t, 2), Request(t, 2)];
      && EndsWithin(requests, SortText("DESC", true), t)
      && Walk(requests, SortText("DESC", true), None) == [Item(3, 3, 3), Item(2, 2, 2), Item(3, 3, 3)]
  {
    hide PassesCursor, DistinctIds, PageOf, Selected, Walk, Ends, Precedes, StrictlySorted, TablesOk;
    var order: SortOrder := SortText("DESC", true);
    var x, a, z := Item(3, 3, 3), Item(2, 2, 2), Item(1, 1, 1);
    var t, r := {x, a, z}, Request({x, a, z}, 2);
    NewestFirst(order);
    AllButTheLast(t, order, [x, a], z);
    PageOfOne(t, order, BuildCursor(a), 2, x);
    assert [x, a] + [x] == [x, a, x];
    WalkOfTwoPages(r, r, order, PageOf(t, order, None, 2), PageOf(t, order, Some(BuildCursor(a)), 2));
  }

  lemma NewestFirst(order: SortOrder)
    requires order == SortText("DESC", true)
    ensures var x, a, z := Item(3, 3, 3), Item(2, 2, 2), Item(1, 1, 1);
      && DistinctIds({x, a, z}) && StrictlySorted(true, [x, a] + [z])
      && Selected({x, a, z}, order, Some(BuildCursor(a))) == {x}
  {
  }

  // ------------------------------------------------------------ a table that does not change

  predicate Static(requests: seq<Request>, t: set<Item>) {
    forall r :: r in requests ==> r.table == t
  }

  /** A page that is not the last leaves fewer rows than it found. */
  lemma PageMakesProgress(t: set<Item>, order: SortOrder, from: Option<Cursor>, perPage: nat)
    requires DistinctIds(t) && perPage >= 1 && KeywordFits(order) && ByCreation(t)
    ensures var page := PageOf(t, order, from, perPage);
      page.hasMore ==> |Selected(t, order, page.next)| < |Selected(t, order, from)|
  {
    PageFacts(t, order, from, perPage);
    var page := PageOf(t, order, from, perPage);
    if page.hasMore {
      hide PageOf;
      var last := page.items[|page.items| - 1];
      assert last in page.items;
      CursorResumesExactlyAfter(order, last);
      var before, after := Selected(t, order, from), Selected(t, order, page.next);
      forall x | x in after ensures x in before - {last} {
        assert Precedes(order.descending, last, x);
      }
      assert last in before;
      SubsetIsSmaller(after, before - {last});
    }
  }

  /** With more requests than rows left, a walk over an unchanged table ends: every page makes progress. */
  lemma {:induction false} StaticWalkEnds(requests: seq<Request>, order: SortOrder, from: Option<Cursor>, t: set<Item>)
    requires DistinctIds(t) && Static(requests, t) && Coherent(requests, order)
    requires |requests| > |Selected(t, order, from)|
    ensures Ends(requests, order, from)
  {
    hide PageOf, Selected, DistinctIds;
    assert requests[0] in requests;
    var perPage := GetPerPage(requests[0].perPage);
    PageMakesProgress(t, order, from, perPage);
    if PageOf(t, order, from, perPage).hasMore {
      StaticWalkEnds(requests[1..], order, PageOf(t, order, from, perPage).next, t);
    }
  }

  lemma SubsetIsSmaller(a: set<Item>, b: set<Item>)
    requires a <= b
    ensures |a| <= |b|
  {
    if a != {} {
      var x :| x in a;
      SubsetIsSmaller(a - {x}, b - {x});
    }
  }

  lemma {:induction false} SortedIsUnique(descending: bool, a: seq<Item>, b: seq<Item>)
    requires StrictlySorted(descending, a) && StrictlySorted(descending, b) && forall x :: x in a <==> x in b
    ensures a == b
  {
    assert b == [] || b[0] in b;
    if a != [] {
      assert a[0] in b && b != [] && b[0] in a;
      assert a[0] == b[0];
      forall x ensures x in a[1..] <==> x in b[1..] {
        if x in a[1..] {
          var k :| 1 <= k < |a| && a[k] == x;
          assert x in b && Precedes(descending, a[0], x);
        }
        if x in b[1..] {
          var k :| 1 <= k < |b| && b[k] == x;
          assert x in a && Precedes(descending, b[0], x);
        }
      }
      SortedIsUnique(descending, a[1..], b[1..]);
    }
  }

  /** On an unchanged table the concatenated pages are the sorted table, whatever page sizes are asked for. */
  lemma StaticWalkIsTheSortedTable(requests: seq<Request>, order: SortOrder, t: set<Item>)
    requires DistinctIds(t) && Static(requests, t) && |requests| > |t|
    requires KeywordFits(order) && forall x :: x in t ==> x.column == x.createdAt
    ensures Walk(requests, order, None) == Sorted(order.descending, t)
  {
    StaticWalkEnds(requests, order, None, t);
    WalkIsStrictlySorted(requests, order, None);
    CoherentResumes(requests, order);
    forall x | x in t ensures x in Walk(requests, order, None) {
      WalkIsComplete(requests, order, None, AllRows(requests), x);
    }
    SortedIsUnique(order.descending, Walk(requests, order, None), Sorted(order.descending, t));
  }

  /** n requests for one row each from two unchanged rows, which lie after the creation times in their cursors. */
  function AskedAgain(n: nat): (requests: seq<Request>)
    ensures TablesOk(requests) && |requests| == n
  {
    seq(n, _ => Request({Item(1, 0, 5), Item(2, 0, 6)}, 1))
  }

  lemma FirstOfTwoAgain(from: Option<Cursor>)
    requires from in {None, Some(Cursor(0, 1))}
    ensures PageOf({Item(1, 0, 5), Item(2, 0, 6)}, SortText("asc", false), from, 1)
         == Page([Item(1, 0, 5)], 1, true, Some(Cursor(0, 1)))
  {
    var a, b := Item(1, 0, 5), Item(2, 0, 6);
    assert Selected({a, b}, SortText("asc", false), from) == {a, b};
    PageIs({a, b}, SortText("asc", false), from, 1, [a, b]);
  }

  /** Sorted by another column, a walk over an unchanged table need not end: every page is the first page again. */
  lemma {:induction false} OtherColumnNeedNotEnd(n: nat, from: Option<Cursor>)
    requires from in {None, Some(Cursor(0, 1))}
    ensures !Ends(AskedAgain(n), SortText("asc", false), from)
    ensures Walk(AskedAgain(n), SortText("asc", false), from) == seq(n, _ => Item(1, 0, 5))
  {
    hide PageOf;
    if n > 0 {
      FirstOfTwoAgain(from);
      assert AskedAgain(n)[1..] == AskedAgain(n - 1);
      OtherColumnNeedNotEnd(n - 1, Some(Cursor(0, 1)));
    }
  }
}
