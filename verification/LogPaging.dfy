/** Walking the query log: following cursors over a changing table, and the export loop. */
module LogPaging {
  import opened Wrappers
  import opened QueryLog

  // ------------------------------------------- following cursors, table changing

  ghost predicate ValidTables(tables: seq<set<LogRow>>) {
    forall i :: 0 <= i < |tables| ==> ValidTable(tables[i])
  }

  /** The rows a client sees that follows `next_cursor`; the i-th page is answered from the rows that match then. */
  ghost function Walk(tables: seq<set<LogRow>>, sort: Sort, cursor: string, page: nat, pageSize: nat): seq<LogRow>
    requires ValidTables(tables)
  {
    if tables == [] then []
    else
      var answer := PageOf(tables[0], sort, Some(cursor), page, pageSize);
      if answer.Err? then []
      else if answer.value.nextCursor.None? then answer.value.records
      else answer.value.records + Walk(tables[1..], sort, answer.value.nextCursor.value, page + 1, pageSize)
  }

  /** Whether the walk reaches a page without a next cursor. */
  ghost predicate Finishes(tables: seq<set<LogRow>>, sort: Sort, cursor: string, page: nat, pageSize: nat)
    requires ValidTables(tables)
  {
    && tables != []
    && var answer := PageOf(tables[0], sort, Some(cursor), page, pageSize);
    && answer.Ok?
    && (answer.value.nextCursor.None? || Finishes(tables[1..], sort, answer.value.nextCursor.value, page + 1, pageSize))
  }

  // The same walk in terms of positions.

  ghost function WalkCuts(tables: seq<set<LogRow>>, sort: Sort, p: Option<Position>, size: nat): seq<LogRow>
    requires ValidTables(tables) && size > 0
  {
    if tables == [] then []
    else
      var cut := CutAt(tables[0], sort, p, size);
      if cut.next.None? then cut.records else cut.records + WalkCuts(tables[1..], sort, cut.next, size)
  }

  ghost predicate CutsFinish(tables: seq<set<LogRow>>, sort: Sort, p: Option<Position>, size: nat)
    requires ValidTables(tables) && size > 0
  {
    && tables != []
    && var cut := CutAt(tables[0], sort, p, size);
       cut.next.None? || CutsFinish(tables[1..], sort, cut.next, size)
  }

  lemma {:induction false} WalkFollowsCuts(tables: seq<set<LogRow>>, sort: Sort, cursor: string, p: Option<Position>,
                                           page: nat, pageSize: nat)
    requires ValidTables(tables) && CursorSort(sort) && ParseCursor(Some(cursor), sort) == Ok(p)
    ensures Walk(tables, sort, cursor, page, pageSize) == WalkCuts(tables, sort, p, ClampPageSize(pageSize))
    ensures Finishes(tables, sort, cursor, page, pageSize) <==> CutsFinish(tables, sort, p, ClampPageSize(pageSize))
    decreases |tables|
  {
    if tables != [] {
      CursorPage(tables[0], sort, cursor, p, page, pageSize);
      var next := PageOf(tables[0], sort, Some(cursor), page, pageSize).value.nextCursor;
      if next.Some? {
        WalkFollowsCuts(tables[1..], sort, next.value, CutAt(tables[0], sort, p, ClampPageSize(pageSize)).next,
                        page + 1, pageSize);
      }
    }
  }

  /** Strictly after the row at a position, if there is one. */
  predicate Past(sort: Sort, p: Option<Position>, r: LogRow) {
    p.None? || Beyond(sort, p.value, r)
  }

  lemma BeyondIsPrecedes(sort: Sort, a: LogRow, b: LogRow)
    requires CursorSort(sort)
    ensures Beyond(sort, PositionOf(a), b) <==> Precedes(sort, a, b)
  {
  }

  lemma PastTransitive(sort: Sort, p: Option<Position>, a: LogRow, b: LogRow)
    requires CursorSort(sort) && Past(sort, p, a) && Precedes(sort, a, b)
    ensures Past(sort, p, b)
  {
  }

  lemma InOrderAppend(o: Sort, a: seq<LogRow>, b: seq<LogRow>)
    requires a != [] && InOrder(o, a) && InOrder(o, b)
    requires forall r :: r in b ==> Precedes(o, a[|a| - 1], r)
    ensures InOrder(o, a + b)
  {
    forall i, j | 0 <= i < j < |a + b| ensures Precedes(o, (a + b)[i], (a + b)[j]) {
      if i < |a| <= j {
        assert (a + b)[j] == b[j - |a|] && b[j - |a|] in b;
        if i < |a| - 1 {
          Transitive(o, a[i], a[|a| - 1], b[j - |a|]);
        }
      }
    }
  }

  /** A page is in order and past its cursor. */
  lemma CutInOrder(matched: set<LogRow>, sort: Sort, p: Option<Position>, size: nat)
    requires ValidTable(matched) && size > 0
    ensures var records := CutAt(matched, sort, p, size).records;
            InOrder(sort, records) && forall r :: r in records ==> r in matched && Past(sort, p, r)
  {
    var rows := RowsFrom(matched, sort, p);
    RankedInOrder(sort, After(matched, sort, p));
    forall r | r in CutAt(matched, sort, p, size).records ensures r in matched && Past(sort, p, r) {
      assert r in rows;
    }
  }

  /** A matching row past the cursor is on the page, or past the position the page hands on. */
  lemma CutLeavesLater(matched: set<LogRow>, sort: Sort, p: Option<Position>, size: nat, row: LogRow)
    requires ValidTable(matched) && CursorSort(sort) && size > 0 && row in matched && Past(sort, p, row)
    ensures var cut := CutAt(matched, sort, p, size);
            row in cut.records || (cut.next.Some? && Past(sort, cut.next, row))
  {
    var rows := RowsFrom(matched, sort, p);
    RankedInOrder(sort, After(matched, sort, p));
    assert row in rows;
    var i :| 0 <= i < |rows| && rows[i] == row;
    if i < size {
      assert Take(rows, size)[i] == row;
    } else {
      BeyondIsPrecedes(sort, rows[size - 1], row);
    }
  }

  /** No next position exactly when the page holds everything that matched past the cursor. */
  lemma NextIffLeft(matched: set<LogRow>, sort: Sort, p: Option<Position>, size: nat)
    requires ValidTable(matched) && size > 0
    ensures var cut := CutAt(matched, sort, p, size);
            cut.next.None? <==> forall r :: r in matched && Past(sort, p, r) ==> r in cut.records
  {
    var rows, cut := RowsFrom(matched, sort, p), CutAt(matched, sort, p, size);
    RankedInOrder(sort, After(matched, sort, p));
    if cut.next.None? {
      assert cut.records == rows;
    } else {
      assert rows[size] in rows;
      forall r | r in cut.records ensures r != rows[size] {
        Asymmetric(sort, r, rows[size]);
      }
    }
  }

  lemma LaterPagesFollow(sort: Sort, p: Option<Position>, last: LogRow, later: seq<LogRow>)
    requires CursorSort(sort) && Past(sort, p, last) && forall r :: r in later ==> Past(sort, Some(PositionOf(last)), r)
    ensures forall r :: r in later ==> Precedes(sort, last, r) && Past(sort, p, r)
  {
    forall r | r in later ensures Precedes(sort, last, r) && Past(sort, p, r) {
      BeyondIsPrecedes(sort, last, r);
      PastTransitive(sort, p, last, r);
    }
  }

  lemma PagesJoin(sort: Sort, p: Option<Position>, records: seq<LogRow>, later: seq<LogRow>)
    requires CursorSort(sort) && records != [] && InOrder(sort, records) && InOrder(sort, later)
    requires forall r :: r in records ==> Past(sort, p, r)
    requires forall r :: r in later ==> Past(sort, Some(PositionOf(records[|records| - 1])), r)
    ensures InOrder(sort, records + later) && forall r :: r in records + later ==> Past(sort, p, r)
  {
    assert records[|records| - 1] in records;
    LaterPagesFollow(sort, p, records[|records| - 1], later);
    InOrderAppend(sort, records, later);
  }

  /** The position a page hands on is that of its last row. */
  lemma CutHandsOnLast(matched: set<LogRow>, sort: Sort, p: Option<Position>, size: nat)
    requires ValidTable(matched) && size > 0
    ensures var cut := CutAt(matched, sort, p, size);
            cut.next.Some? ==> cut.records != [] && cut.next == Some(PositionOf(cut.records[|cut.records| - 1]))
  {
  }

  lemma {:induction false} CutsInOrder(tables: seq<set<LogRow>>, sort: Sort, p: Option<Position>, size: nat)
    requires ValidTables(tables) && CursorSort(sort) && size > 0
    ensures InOrder(sort, WalkCuts(tables, sort, p, size))
    ensures forall r :: r in WalkCuts(tables, sort, p, size) ==> Past(sort, p, r)
    decreases |tables|
  {
    if tables != [] {
      CutInOrder(tables[0], sort, p, size);
      CutHandsOnLast(tables[0], sort, p, size);
      var cut := CutAt(tables[0], sort, p, size);
      if cut.next.Some? {
        var later := WalkCuts(tables[1..], sort, cut.next, size);
        CutsInOrder(tables[1..], sort, cut.next, size);
        PagesJoin(sort, p, cut.records, later);
        assert WalkCuts(tables, sort, p, size) == cut.records + later;
      }
    }
  }

  lemma {:induction false} CutsComplete(tables: seq<set<LogRow>>, sort: Sort, p: Option<Position>, size: nat,
                                        row: LogRow)
    requires ValidTables(tables) && CursorSort(sort) && size > 0 && CutsFinish(tables, sort, p, size)
    requires forall i :: 0 <= i < |tables| ==> row in tables[i]
    requires Past(sort, p, row)
    ensures row in WalkCuts(tables, sort, p, size)
    decreases |tables|
  {
    CutLeavesLater(tables[0], sort, p, size, row);
    var cut := CutAt(tables[0], sort, p, size);
    if row !in cut.records {
      CutsComplete(tables[1..], sort, cut.next, size, row);
    }
  }

  /** From the empty cursor, whatever is inserted or deleted between pages: the rows come strictly in order, none
      twice; and once a page hands out no cursor, every row that matched throughout has been returned. */
  lemma CursorsEnumerate(tables: seq<set<LogRow>>, sort: Sort, pageSize: nat)
    requires ValidTables(tables) && CursorSort(sort)
    ensures InOrder(sort, Walk(tables, sort, "", 1, pageSize))
    ensures Finishes(tables, sort, "", 1, pageSize) ==>
              forall row :: (forall i :: 0 <= i < |tables| ==> row in tables[i]) ==>
                row in Walk(tables, sort, "", 1, pageSize)
  {
    var size := ClampPageSize(pageSize);
    WalkFollowsCuts(tables, sort, "", None, 1, pageSize);
    CutsInOrder(tables, sort, None, size);
    if CutsFinish(tables, sort, None, size) {
      forall row | forall i :: 0 <= i < |tables| ==> row in tables[i]
        ensures row in WalkCuts(tables, sort, None, size)
      {
        CutsComplete(tables, sort, None, size, row);
      }
    }
  }

  /** A page's next cursor is absent exactly when nothing further matched. */
  lemma CursorAbsentIffDone(matched: set<LogRow>, sort: Sort, cursor: string, p: Option<Position>, page: nat,
                            pageSize: nat)
    requires ValidTable(matched) && CursorSort(sort) && ParseCursor(Some(cursor), sort) == Ok(p)
    ensures var answer := PageOf(matched, sort, Some(cursor), page, pageSize);
            answer.Ok? && (answer.value.nextCursor.None? <==>
                             forall r :: r in matched && Past(sort, p, r) ==> r in answer.value.records)
  {
    CursorPage(matched, sort, cursor, p, page, pageSize);
    NextIffLeft(matched, sort, p, ClampPageSize(pageSize));
  }

  // ------------------------------------------------------- an unchanging table

  lemma TailOfSorted(o: Sort, all: seq<LogRow>, k: nat, x: LogRow)
    requires InOrder(o, all) && 0 < k <= |all|
    ensures x in all[k..] <==> x in all && Precedes(o, all[k - 1], x)
  {
    forall j | k <= j < |all| ensures all[j] in all[k..] {
      assert all[k..][j - k] == all[j];
    }
    if x in all[k..] {
      var i :| k <= i < |all| && all[i] == x;
    } else if x in all {
      var i :| 0 <= i < |all| && all[i] == x;
      Asymmetric(o, all[k - 1], x);
    }
  }

  /** The position of the `k`-th row of the ranking, none before the first. */
  function PositionAt(all: seq<LogRow>, k: nat): Option<Position>
    requires k <= |all|
  {
    if k == 0 then None else Some(PositionOf(all[k - 1]))
  }

  /** Past the k-th row of the ranking lie exactly the rows after it. */
  lemma RankedPast(matched: set<LogRow>, sort: Sort, k: nat)
    requires ValidTable(matched) && CursorSort(sort) && k <= |matched|
    ensures RowsFrom(matched, sort, PositionAt(Ranked(sort, matched), k)) == Ranked(sort, matched)[k..]
  {
    var all := Ranked(sort, matched);
    if k > 0 {
      RankedInOrder(sort, matched);
      forall x ensures x in all[k..] <==> x in After(matched, sort, PositionAt(all, k)) {
        TailOfSorted(sort, all, k, x);
        BeyondIsPrecedes(sort, all[k - 1], x);
      }
      RankedUnique(sort, After(matched, sort, PositionAt(all, k)), all[k..]);
    }
  }

  /** The cursor that asks for the rows after the first `k`. */
  function CursorBefore(rows: seq<LogRow>, sort: Sort, k: nat): string {
    if 0 < k <= |rows| then EncodeCursor(sort, PositionOf(rows[k - 1])) else ""
  }

  lemma CursorBeforeParses(matched: set<LogRow>, sort: Sort, k: nat)
    requires ValidTable(matched) && CursorSort(sort) && k <= |matched|
    ensures ParseCursor(Some(CursorBefore(Ranked(sort, matched), sort, k)), sort)
         == Ok(PositionAt(Ranked(sort, matched), k))
  {
    var rows := Ranked(sort, matched);
    if k > 0 {
      assert rows[k - 1] in rows;
      CursorRoundTrip(sort, PositionOf(rows[k - 1]));
    }
  }

  /** On an unchanging table such a cursor is answered with the next rows of the ranking, and with the cursor behind
      them when there are more; the page number of the request is only echoed. */
  lemma AnswerAt(matched: set<LogRow>, sort: Sort, k: nat, page: nat, size: nat)
    requires ValidTable(matched) && CursorSort(sort) && k <= |matched| && page > 0 && 20 <= size <= 200
    ensures var rows := Ranked(sort, matched);
            PageOf(matched, sort, Some(CursorBefore(rows, sort, k)), page, size)
            == Ok(Page(Take(Drop(rows, k), size), |rows|, page, size,
                       if k + size < |rows| then Some(CursorBefore(rows, sort, k + size)) else None))
  {
    var rows := Ranked(sort, matched);
    CursorBeforeParses(matched, sort, k);
    RankedPast(matched, sort, k);
    PageFromTail(rows, sort, k, page, size);
  }

  lemma PageFromTail(rows: seq<LogRow>, sort: Sort, k: nat, page: nat, size: nat)
    requires k <= |rows| && page > 0 && size > 0
    ensures PageFrom(rows[k..], sort, true, |rows|, page, size)
         == Page(Take(Drop(rows, k), size), |rows|, page, size,
                 if k + size < |rows| then Some(CursorBefore(rows, sort, k + size)) else None)
  {
    assert Drop(rows[k..], 0) == rows[k..] == Drop(rows, k);
    if k + size < |rows| {
      assert Take(rows[k..], size)[size - 1] == rows[k + size - 1];
    }
  }

  /** In offset mode the rows of a page are cut out by its number. */
  lemma OffsetAnswer(matched: set<LogRow>, sort: Sort, page: nat, size: nat)
    requires ValidTable(matched) && page > 0 && 20 <= size <= 200
    ensures PageOf(matched, sort, None, page, size)
         == Ok(Page(Take(Drop(Ranked(sort, matched), (page - 1) * size), size), |matched|, page, size, None))
  {
  }

  // ------------------------------------------------------------------- the export

  const EXPORT_PAGE_SIZE := 200
  const EXPORT_RECORD_LIMIT := 50000

  datatype Export = Export(records: seq<LogRow>, exported: nat, total: nat, truncated: bool)

  predicate ExportSort(sort: Sort) {
    CursorSort(sort) || sort.Slowest?
  }

  type PageLoader = (nat, Option<string>) -> Page

  /** A loader that serves the rows `all`, 200 a page; `cursors` says what each page is asked with, nothing when the
      pages are reached by offset. */
  ghost predicate Serves(loadPage: PageLoader, all: seq<LogRow>, cursors: nat -> Option<string>) {
    forall page: nat :: page > 0 && (page == 1 || (page - 1) * 200 < |all|) ==>
      ServesPage(loadPage(page, cursors(page)), all, cursors, page)
  }

  ghost predicate ServesPage(result: Page, all: seq<LogRow>, cursors: nat -> Option<string>, page: nat)
    requires page > 0
  {
    && result.total == |all|
    && result.records == Take(Drop(all, (page - 1) * 200), 200)
    && (cursors(page).Some? ==> (result.nextCursor.Some? <==> page * 200 < |all|))
    && (page * 200 < |all| ==> cursors(page + 1) == if cursors(page).None? then None else result.nextCursor)
  }

  /** What the loop holds when it ends: the rows it kept, the total last reported, the number of pages it read, and the
      next cursor of the last one. */
  datatype Collected = Collected(records: seq<LogRow>, total: nat, pages: nat, next: Option<string>)

  /** The rows of a page there is room for. */
  function Kept(before: seq<LogRow>, result: Page): seq<LogRow>
    requires |before| <= EXPORT_RECORD_LIMIT
  {
    before + Take(result.records, EXPORT_RECORD_LIMIT - |before|)
  }

  /** Whether the loop takes a page for the last. */
  predicate Stops(result: Page, kept: nat, cursor: Option<string>) {
    |result.records| < EXPORT_PAGE_SIZE || kept >= result.total || (cursor.Some? && result.nextCursor.None?)
  }

  function NextRequest(result: Page, cursor: Option<string>): Option<string> {
    if cursor.None? then None else result.nextCursor
  }

  /** The loop from a page on, over any loader. */
  function CollectFrom(loadPage: PageLoader, before: seq<LogRow>, total: nat, cursor: Option<string>, page: nat):
      Collected
    requires |before| <= EXPORT_RECORD_LIMIT && page > 0
    decreases EXPORT_RECORD_LIMIT - |before|
  {
    if |before| >= EXPORT_RECORD_LIMIT then Collected(before, total, page - 1, cursor)
    else
      var result := loadPage(page, cursor);
      var records := Kept(before, result);
      if Stops(result, |records|, cursor) then Collected(records, result.total, page, result.nextCursor)
      else CollectFrom(loadPage, records, result.total, NextRequest(result, cursor), page + 1)
  }

  function FirstCursor(sort: Sort): Option<string> {
    if sort.Slowest? then None else Some("")
  }

  function Collection(sort: Sort, loadPage: PageLoader): Collected {
    CollectFrom(loadPage, [], 0, FirstCursor(sort), 1)
  }

  lemma NextSlice(all: seq<LogRow>, k: nat, room: nat)
    requires k <= |all| && room >= 200
    ensures Take(all, k) + Take(Take(Drop(all, k), 200), room) == Take(all, k + 200)
    ensures |Take(Drop(all, k), 200)| < 200 ==> |all| < k + 200
  {
    TakeAll(Take(Drop(all, k), 200), room);
  }

  lemma TakeAll(all: seq<LogRow>, n: nat)
    requires |all| <= n
    ensures Take(all, n) == all
  {
  }

  /** One turn of the loop over a loader that serves a list: it has the list's rows up to the page's end, and takes the
      page for the last exactly when it is. */
  lemma ServedTurn(loadPage: PageLoader, all: seq<LogRow>, cursors: nat -> Option<string>, page: nat)
    requires Serves(loadPage, all, cursors) && 0 < page <= 250 && (page == 1 || (page - 1) * 200 < |all|)
    ensures var result, before := loadPage(page, cursors(page)), Take(all, (page - 1) * 200);
            && |before| == (page - 1) * 200 && result.total == |all| && Kept(before, result) == Take(all, page * 200)
            && (Stops(result, |Kept(before, result)|, cursors(page)) <==> page * 200 >= |all|)
            && (page * 200 < |all| ==> NextRequest(result, cursors(page)) == cursors(page + 1))
  {
    assert ServesPage(loadPage(page, cursors(page)), all, cursors, page);
    NextSlice(all, (page - 1) * 200, EXPORT_RECORD_LIMIT - (page - 1) * 200);
  }

  lemma LastPage(all: seq<LogRow>, page: nat)
    requires page <= 250 && page * 200 >= |all|
    ensures Take(all, page * 200) == all && Take(all, EXPORT_RECORD_LIMIT) == all && |all| <= EXPORT_RECORD_LIMIT
  {
    TakeAll(all, page * 200);
    TakeAll(all, EXPORT_RECORD_LIMIT);
  }

  lemma {:induction false} ServedFrom(loadPage: PageLoader, all: seq<LogRow>, cursors: nat -> Option<string>, page: nat,
                                      total: nat)
    requires Serves(loadPage, all, cursors) && 0 < page <= 251
    requires page == 1 || ((page - 1) * 200 < |all| && total == |all|)
    ensures |Take(all, (page - 1) * 200)| == (page - 1) * 200 <= EXPORT_RECORD_LIMIT
    ensures var c := CollectFrom(loadPage, Take(all, (page - 1) * 200), total, cursors(page), page);
            c.records == Take(all, EXPORT_RECORD_LIMIT) && c.total == |all|
    decreases 251 - page
  {
    if page <= 250 {
      ServedTurn(loadPage, all, cursors, page);
      if page * 200 >= |all| {
        LastPage(all, page);
      } else {
        ServedFrom(loadPage, all, cursors, page + 1, |all|);
      }
    }
  }

  /** The pages of a loader, asked for the way this sort asks, are those of a list. */
  ghost predicate ServesList(loadPage: PageLoader, sort: Sort, all: seq<LogRow>, cursors: nat -> Option<string>) {
    Serves(loadPage, all, cursors) && cursors(1) == FirstCursor(sort)
  }

  /** The first rows of a list up to the limit, and whether rows were left out. */
  predicate ExportsList(collected: Export, all: seq<LogRow>) {
    && collected.records == Take(all, 50000) && collected.exported == |collected.records|
    && collected.total == |all| && (collected.truncated <==> |all| > 50000)
  }

  function ExportOf(c: Collected): Export {
    Export(c.records, |c.records|, c.total, |c.records| < c.total)
  }

  lemma ServedExport(loadPage: PageLoader, sort: Sort, all: seq<LogRow>, cursors: nat -> Option<string>)
    requires ServesList(loadPage, sort, all, cursors)
    ensures ExportsList(ExportOf(Collection(sort, loadPage)), all)
  {
    ServedFrom(loadPage, all, cursors, 1, 0);
    assert Take(all, 0) == [];
  }

  /** The loop, over any loader. Over one that serves a list it collects exactly the first rows, up to the limit, and
      reports truncation exactly when it left rows out. */
  method CollectQueryLogExportRecords(sort: Sort, loadPage: PageLoader) returns (collected: Export)
    ensures collected == ExportOf(Collection(sort, loadPage))
    ensures forall all, cursors :: ServesList(loadPage, sort, all, cursors) ==> ExportsList(collected, all)
  {
    var records, total := [], 0;
    var cursor, page := FirstCursor(sort), 1;
    while |records| < EXPORT_RECORD_LIMIT
      invariant |records| <= EXPORT_RECORD_LIMIT && page > 0
      invariant CollectFrom(loadPage, records, total, cursor, page) == Collection(sort, loadPage)
      decreases EXPORT_RECORD_LIMIT - |records|
    {
      var result := loadPage(page, cursor);
      total := result.total;
      records := records + Take(result.records, EXPORT_RECORD_LIMIT - |records|);
      if |result.records| < EXPORT_PAGE_SIZE || |records| >= total || (cursor.Some? && result.nextCursor.None?) {
        break;
      }
      cursor := if cursor.None? then None else result.nextCursor;
      page := page + 1;
    }
    assert records == Collection(sort, loadPage).records && total == Collection(sort, loadPage).total;
    collected := Export(records, |records|, total, |records| < total);
    forall all, cursors | ServesList(loadPage, sort, all, cursors) ensures ExportsList(collected, all) {
      ServedExport(loadPage, sort, all, cursors);
    }
  }

  /** What the loop asks a page with: offsets for "slowest", else the cursor of the row before the page. */
  function ExportCursor(all: seq<LogRow>, sort: Sort, page: nat): Option<string> {
    if sort.Slowest? || page == 0 then None else Some(CursorBefore(all, sort, (page - 1) * 200))
  }

  function ExportCursors(all: seq<LogRow>, sort: Sort): nat -> Option<string> {
    (page: nat) => ExportCursor(all, sort, page)
  }

  /** The page query over an unchanging table, as a loader. */
  function QueryLoader(matched: set<LogRow>, sort: Sort): PageLoader
    requires ValidTable(matched)
  {
    (page: nat, cursor: Option<string>) =>
      var answer := PageOf(matched, sort, cursor, page, EXPORT_PAGE_SIZE);
      if answer.Ok? then answer.value else Page([], 0, page, EXPORT_PAGE_SIZE, None)
  }

  lemma LoaderAnswers(matched: set<LogRow>, sort: Sort, page: nat, cursor: Option<string>, answer: Page)
    requires ValidTable(matched) && PageOf(matched, sort, cursor, page, EXPORT_PAGE_SIZE) == Ok(answer)
    ensures QueryLoader(matched, sort)(page, cursor) == answer
  {
  }

  lemma OffsetServesPage(matched: set<LogRow>, page: nat)
    requires ValidTable(matched) && page > 0
    ensures ServesPage(QueryLoader(matched, Slowest)(page, None), Ranked(Slowest, matched), (p: nat) => None, page)
  {
    OffsetAnswer(matched, Slowest, page, EXPORT_PAGE_SIZE);
  }

  /** The answer behind the first `(page - 1) * 200` rows. */
  function AnswerBehind(all: seq<LogRow>, sort: Sort, page: nat): Page
    requires page > 0
  {
    Page(Take(Drop(all, (page - 1) * 200), 200), |all|, page, 200,
         if page * 200 < |all| then Some(CursorBefore(all, sort, page * 200)) else None)
  }

  lemma AnswerBehindServes(all: seq<LogRow>, sort: Sort, page: nat)
    requires CursorSort(sort) && page > 0
    ensures ServesPage(AnswerBehind(all, sort, page), all, ExportCursors(all, sort), page)
  {
  }

  lemma CursorServesPage(matched: set<LogRow>, sort: Sort, page: nat)
    requires ValidTable(matched) && CursorSort(sort) && page > 0 && (page == 1 || (page - 1) * 200 < |matched|)
    ensures var all := Ranked(sort, matched);
            ServesPage(QueryLoader(matched, sort)(page, ExportCursor(all, sort, page)), all, ExportCursors(all, sort),
                       page)
  {
    var all := Ranked(sort, matched);
    AnswerAt(matched, sort, (page - 1) * 200, page, EXPORT_PAGE_SIZE);
    LoaderAnswers(matched, sort, page, ExportCursor(all, sort, page), AnswerBehind(all, sort, page));
    AnswerBehindServes(all, sort, page);
  }

  lemma QueryServesPage(matched: set<LogRow>, sort: Sort, page: nat)
    requires ValidTable(matched) && ExportSort(sort) && page > 0 && (page == 1 || (page - 1) * 200 < |matched|)
    ensures var all := Ranked(sort, matched);
            ServesPage(QueryLoader(matched, sort)(page, ExportCursor(all, sort, page)), all, ExportCursors(all, sort),
                       page)
  {
    if sort.Slowest? {
      OffsetServesPage(matched, page);
    } else {
      CursorServesPage(matched, sort, page);
    }
  }

  /** The page query serves the ranking of the matching rows. */
  lemma QueryServesList(matched: set<LogRow>, sort: Sort)
    requires ValidTable(matched) && ExportSort(sort)
    ensures ServesList(QueryLoader(matched, sort), sort, Ranked(sort, matched),
                       ExportCursors(Ranked(sort, matched), sort))
  {
    var all, cursors := Ranked(sort, matched), ExportCursors(Ranked(sort, matched), sort);
    forall page: nat | page > 0 && (page == 1 || (page - 1) * 200 < |all|)
      ensures ServesPage(QueryLoader(matched, sort)(page, cursors(page)), all, cursors, page)
    {
      QueryServesPage(matched, sort, page);
    }
  }

  lemma QueryExport(matched: set<LogRow>, sort: Sort)
    requires ValidTable(matched) && ExportSort(sort)
    ensures ExportsList(ExportOf(Collection(sort, QueryLoader(matched, sort))), Ranked(sort, matched))
  {
    QueryServesList(matched, sort);
    ServedExport(QueryLoader(matched, sort), sort, Ranked(sort, matched), ExportCursors(Ranked(sort, matched), sort));
  }

  /** On an unchanging table, in cursor mode and in offset mode, the export is the first 50000 rows in sort order. */
  method ExportTable(table: set<LogRow>, matches: LogRow -> bool, sort: Sort) returns (collected: Export)
    requires ValidTable(table) && ExportSort(sort)
    ensures var matched := Matching(table, matches);
            && collected.records == Take(Ranked(sort, matched), 50000)
            && collected.exported == |collected.records|
            && collected.total == |matched|
            && (collected.truncated <==> |matched| > 50000)
  {
    var matched := Matching(table, matches);
    collected := CollectQueryLogExportRecords(sort, QueryLoader(matched, sort));
    QueryExport(matched, sort);
  }
}
