/** The query log changing while it is read: an export page by page, and a view that goes from page to page. */
module LogChanges {
  import opened Wrappers
  import opened Text
  import opened QueryLog
  import opened LogPaging

  // ------------------------------------------------------- the export loop

  /** The rows that match when each page is read. */
  type Tables = nat -> set<LogRow>

  ghost predicate ValidThroughout(tables: Tables) {
    forall page :: ValidTable(tables(page))
  }

  /** The page query, each page answered from the rows that match then. */
  ghost function ChangingLoader(tables: Tables, sort: Sort): PageLoader
    requires ValidThroughout(tables)
  {
    (page: nat, cursor: Option<string>) => QueryLoader(tables(page), sort)(page, cursor)
  }

  /** What the export of this sort collects. */
  ghost function Exported(tables: Tables, sort: Sort): Collected
    requires ValidThroughout(tables)
  {
    Collection(sort, ChangingLoader(tables, sort))
  }

  /** The tables of the pages from `page` up to `last`. */
  ghost function Read(tables: Tables, page: nat, last: nat): (read: seq<set<LogRow>>)
    requires ValidThroughout(tables)
    ensures |read| == if page > last then 0 else last + 1 - page
    ensures forall i :: 0 <= i < |read| ==> read[i] == tables(page + i)
    ensures ValidTables(read)
  {
    seq(if page > last then 0 else last + 1 - page, (i: nat) => tables(page + i))
  }

  /** Some row of a table comes after all rows collected. */
  ghost predicate LeftBehind(matched: set<LogRow>, sort: Sort, records: seq<LogRow>) {
    records != [] && exists row :: row in matched && Precedes(sort, records[|records| - 1], row)
  }

  /** A page read behind a position: the rows of the cut, and whether rows are left. */
  ghost predicate ReadsCut(result: Page, matched: set<LogRow>, sort: Sort, p: Option<Position>)
    requires ValidTable(matched)
  {
    var cut := CutAt(matched, sort, p, 200);
    && result.total == |matched| && result.records == cut.records
    && (result.nextCursor.Some? <==> cut.next.Some?)
    && (result.nextCursor.Some? ==> ParseCursor(result.nextCursor, sort) == Ok(cut.next))
  }

  lemma AnswerReadsCut(matched: set<LogRow>, sort: Sort, page: nat, cursor: string, p: Option<Position>, answer: Page)
    requires ValidTable(matched) && CursorSort(sort) && ParseCursor(Some(cursor), sort) == Ok(p)
    requires PageOf(matched, sort, Some(cursor), page, EXPORT_PAGE_SIZE) == Ok(answer)
    ensures ReadsCut(answer, matched, sort, p)
  {
    CursorPage(matched, sort, cursor, p, page, EXPORT_PAGE_SIZE);
  }

  lemma PageReadsCut(tables: Tables, sort: Sort, page: nat, cursor: string, p: Option<Position>)
    requires ValidThroughout(tables) && CursorSort(sort) && page > 0 && ParseCursor(Some(cursor), sort) == Ok(p)
    ensures ReadsCut(ChangingLoader(tables, sort)(page, Some(cursor)), tables(page), sort, p)
  {
    var answer := PageOf(tables(page), sort, Some(cursor), page, EXPORT_PAGE_SIZE);
    assert answer.Ok?;
    AnswerReadsCut(tables(page), sort, page, cursor, p, answer.value);
    LoaderAnswers(tables(page), sort, page, Some(cursor), answer.value);
  }

  /** A loader that answers each page from the rows that match then. */
  ghost predicate LoadsTables(loadPage: PageLoader, tables: Tables, sort: Sort)
    requires ValidThroughout(tables)
  {
    forall page: nat, cursor: string :: LoadsPage(loadPage, tables, sort, page, cursor)
  }

  ghost predicate LoadsPage(loadPage: PageLoader, tables: Tables, sort: Sort, page: nat, cursor: string)
    requires ValidThroughout(tables)
  {
    page > 0 && ParseCursor(Some(cursor), sort).Ok? ==>
      ReadsCut(loadPage(page, Some(cursor)), tables(page), sort, ParseCursor(Some(cursor), sort).value)
  }

  lemma QueryLoadsTables(tables: Tables, sort: Sort)
    requires ValidThroughout(tables) && CursorSort(sort)
    ensures LoadsTables(ChangingLoader(tables, sort), tables, sort)
  {
    forall page: nat, cursor: string ensures LoadsPage(ChangingLoader(tables, sort), tables, sort, page, cursor) {
      if page > 0 && ParseCursor(Some(cursor), sort).Ok? {
        PageReadsCut(tables, sort, page, cursor, ParseCursor(Some(cursor), sort).value);
      }
    }
  }

  /** The position of the last row, none before the first. */
  function LastPosition(records: seq<LogRow>): Option<Position> {
    if records == [] then None else Some(PositionOf(records[|records| - 1]))
  }

  lemma LastAppended(before: seq<LogRow>, records: seq<LogRow>)
    requires records != []
    ensures (before + records)[|before + records| - 1] == records[|records| - 1]
  {
  }

  lemma NoneAfterLast(sort: Sort, records: seq<LogRow>, row: LogRow)
    requires InOrder(sort, records) && row in records
    ensures !Precedes(sort, records[|records| - 1], row)
  {
    var i :| 0 <= i < |records| && records[i] == row;
    if i < |records| - 1 {
      Asymmetric(sort, row, records[|records| - 1]);
    }
  }

  /** Behind a page without a next position no row comes later. */
  lemma NoneAfterCut(matched: set<LogRow>, sort: Sort, before: seq<LogRow>, row: LogRow)
    requires ValidTable(matched) && CursorSort(sort) && CutAt(matched, sort, LastPosition(before), 200).next.None?
    requires row in matched && before + CutAt(matched, sort, LastPosition(before), 200).records != []
    ensures var all := before + CutAt(matched, sort, LastPosition(before), 200).records;
            !Precedes(sort, all[|all| - 1], row)
  {
    var p := LastPosition(before);
    var records := CutAt(matched, sort, p, 200).records;
    NextIffLeft(matched, sort, p, 200);
    CutInOrder(matched, sort, p, 200);
    if records == [] {
      assert before + records == before;
      BeyondIsPrecedes(sort, before[|before| - 1], row);
    } else {
      var last := records[|records| - 1];
      LastAppended(before, records);
      assert last in records;
      if Precedes(sort, last, row) {
        PastTransitive(sort, p, last, row);
        NoneAfterLast(sort, records, row);
      }
    }
  }

  lemma LastCutLeavesNone(matched: set<LogRow>, sort: Sort, before: seq<LogRow>)
    requires ValidTable(matched) && CursorSort(sort) && CutAt(matched, sort, LastPosition(before), 200).next.None?
    ensures !LeftBehind(matched, sort, before + CutAt(matched, sort, LastPosition(before), 200).records)
  {
    var all := before + CutAt(matched, sort, LastPosition(before), 200).records;
    if all != [] {
      forall row | row in matched ensures !Precedes(sort, all[|all| - 1], row) {
        NoneAfterCut(matched, sort, before, row);
      }
    }
  }

  /** A page with one does. */
  lemma CutLeavesSome(matched: set<LogRow>, sort: Sort, before: seq<LogRow>)
    requires ValidTable(matched) && CursorSort(sort) && CutAt(matched, sort, LastPosition(before), 200).next.Some?
    ensures var cut := CutAt(matched, sort, LastPosition(before), 200);
            LeftBehind(matched, sort, before + cut.records) && cut.next == LastPosition(before + cut.records)
  {
    var p := LastPosition(before);
    var cut := CutAt(matched, sort, p, 200);
    CutHandsOnLast(matched, sort, p, 200);
    LastAppended(before, cut.records);
    NextIffLeft(matched, sort, p, 200);
    var row :| row in matched && Past(sort, p, row) && row !in cut.records;
    CutLeavesLater(matched, sort, p, 200, row);
    BeyondIsPrecedes(sort, cut.records[|cut.records| - 1], row);
  }

  /** One turn of the loop: it keeps the whole cut, and goes on only behind a full one with more to come. */
  lemma TurnReads(loadPage: PageLoader, tables: Tables, sort: Sort, before: seq<LogRow>, cursor: string,
                  p: Option<Position>, page: nat)
    requires ValidThroughout(tables) && CursorSort(sort) && LoadsTables(loadPage, tables, sort)
    requires page > 0 && ParseCursor(Some(cursor), sort) == Ok(p)
    requires |before| == (page - 1) * 200 < EXPORT_RECORD_LIMIT
    ensures var result := loadPage(page, Some(cursor));
            var cut := CutAt(tables(page), sort, p, 200);
            && ReadsCut(result, tables(page), sort, p) && |cut.records| <= 200
            && Kept(before, result) == before + cut.records
            && (!Stops(result, |Kept(before, result)|, Some(cursor)) ==> |cut.records| == 200 && cut.next.Some?)
  {
    assert LoadsPage(loadPage, tables, sort, page, cursor);
    TakeAll(CutAt(tables(page), sort, p, 200).records, EXPORT_RECORD_LIMIT - |before|);
  }

  lemma WalkOne(matched: set<LogRow>, rest: seq<set<LogRow>>, sort: Sort, p: Option<Position>)
    requires ValidTable(matched) && ValidTables(rest) && ValidTables([matched] + rest)
    ensures var cut := CutAt(matched, sort, p, 200);
            && WalkCuts([matched] + rest, sort, p, 200)
               == cut.records + (if cut.next.None? then [] else WalkCuts(rest, sort, cut.next, 200))
            && (CutsFinish([matched] + rest, sort, p, 200)
                <==> cut.next.None? || CutsFinish(rest, sort, cut.next, 200))
  {
    assert ([matched] + rest)[1..] == rest;
  }

  /** The cuts of some tables, in turn, behind the rows collected before, to their end when no cursor is left. */
  ghost predicate WalkedBy(read: seq<set<LogRow>>, sort: Sort, p: Option<Position>, before: seq<LogRow>, c: Collected)
    requires ValidTables(read)
  {
    && c.records == before + WalkCuts(read, sort, p, 200)
    && (c.next.None? ==> CutsFinish(read, sort, p, 200))
  }

  /** A cursor is left exactly when a row is, and the total is that of the last page. */
  ghost predicate EndsRight(tables: Tables, sort: Sort, c: Collected) {
    c.pages > 0 ==>
      (c.next.Some? <==> LeftBehind(tables(c.pages), sort, c.records)) && c.total == |tables(c.pages)|
  }

  /** What the loop holds in the end, from a page on. */
  ghost predicate Walked(tables: Tables, sort: Sort, before: seq<LogRow>, page: nat, c: Collected)
    requires ValidThroughout(tables)
  {
    && c.pages + 1 >= page && EndsRight(tables, sort, c)
    && WalkedBy(Read(tables, page, c.pages), sort, LastPosition(before), before, c)
  }

  lemma WalkedNothing(tables: Tables, sort: Sort, before: seq<LogRow>, total: nat, cursor: string, page: nat)
    requires ValidThroughout(tables) && page > 0
    requires page > 1 ==> LeftBehind(tables(page - 1), sort, before) && total == |tables(page - 1)|
    ensures Walked(tables, sort, before, page, Collected(before, total, page - 1, Some(cursor)))
  {
    assert Read(tables, page, page - 1) == [];
    assert before + [] == before;
  }

  lemma WalkedLast(tables: Tables, sort: Sort, before: seq<LogRow>, page: nat, result: Page)
    requires ValidThroughout(tables) && CursorSort(sort) && page > 0
    requires ReadsCut(result, tables(page), sort, LastPosition(before))
    ensures var cut := CutAt(tables(page), sort, LastPosition(before), 200);
            Walked(tables, sort, before, page, Collected(before + cut.records, result.total, page, result.nextCursor))
  {
    var cut := CutAt(tables(page), sort, LastPosition(before), 200);
    assert Read(tables, page, page) == [tables(page)] + [];
    WalkOne(tables(page), [], sort, LastPosition(before));
    assert cut.records + [] == cut.records;
    if cut.next.None? {
      LastCutLeavesNone(tables(page), sort, before);
    } else {
      CutLeavesSome(tables(page), sort, before);
    }
  }

  lemma Regrouped(a: seq<LogRow>, b: seq<LogRow>, c: seq<LogRow>)
    ensures a + (b + c) == a + b + c
  {
  }

  lemma WalkedByOneMore(matched: set<LogRow>, rest: seq<set<LogRow>>, sort: Sort, p: Option<Position>,
                        before: seq<LogRow>, c: Collected)
    requires ValidTable(matched) && ValidTables(rest) && ValidTables([matched] + rest)
    requires CutAt(matched, sort, p, 200).next.Some?
    requires WalkedBy(rest, sort, CutAt(matched, sort, p, 200).next, before + CutAt(matched, sort, p, 200).records, c)
    ensures WalkedBy([matched] + rest, sort, p, before, c)
  {
    var cut := CutAt(matched, sort, p, 200);
    WalkOne(matched, rest, sort, p);
    Regrouped(before, cut.records, WalkCuts(rest, sort, cut.next, 200));
  }

  lemma ReadOneMore(tables: Tables, page: nat, last: nat)
    requires ValidThroughout(tables) && page <= last
    ensures Read(tables, page, last) == [tables(page)] + Read(tables, page + 1, last)
  {
  }

  lemma WalkedOn(tables: Tables, sort: Sort, before: seq<LogRow>, page: nat, c: Collected)
    requires ValidThroughout(tables) && CursorSort(sort) && page > 0
    requires CutAt(tables(page), sort, LastPosition(before), 200).next.Some?
    requires Walked(tables, sort, before + CutAt(tables(page), sort, LastPosition(before), 200).records, page + 1, c)
    ensures Walked(tables, sort, before, page, c)
  {
    CutLeavesSome(tables(page), sort, before);
    ReadOneMore(tables, page, c.pages);
    WalkedByOneMore(tables(page), Read(tables, page + 1, c.pages), sort, LastPosition(before), before, c);
  }

  /** What the loop has when it goes on to the next page. */
  ghost predicate Ready(tables: Tables, sort: Sort, before: seq<LogRow>, total: nat, cursor: Option<string>,
                        page: nat)
  {
    && page > 0 && |before| == (page - 1) * 200 <= EXPORT_RECORD_LIMIT
    && cursor.Some? && ParseCursor(cursor, sort) == Ok(LastPosition(before))
    && (page > 1 ==> LeftBehind(tables(page - 1), sort, before) && total == |tables(page - 1)|)
  }

  lemma TurnGoesOn(loadPage: PageLoader, tables: Tables, sort: Sort, before: seq<LogRow>, total: nat,
                   cursor: Option<string>, page: nat)
    requires ValidThroughout(tables) && CursorSort(sort) && LoadsTables(loadPage, tables, sort)
    requires Ready(tables, sort, before, total, cursor, page)
    requires |before| < EXPORT_RECORD_LIMIT
    requires var result := loadPage(page, cursor);
             !Stops(result, |Kept(before, result)|, cursor)
    ensures var result := loadPage(page, cursor);
            var cut := CutAt(tables(page), sort, LastPosition(before), 200);
            && cut.next.Some? && Kept(before, result) == before + cut.records
            && Ready(tables, sort, before + cut.records, result.total, NextRequest(result, cursor), page + 1)
  {
    TurnReads(loadPage, tables, sort, before, cursor.value, LastPosition(before), page);
    CutLeavesSome(tables(page), sort, before);
  }

  lemma TurnStops(loadPage: PageLoader, tables: Tables, sort: Sort, before: seq<LogRow>, total: nat,
                   cursor: Option<string>, page: nat)
    requires ValidThroughout(tables) && CursorSort(sort) && LoadsTables(loadPage, tables, sort)
    requires Ready(tables, sort, before, total, cursor, page)
    requires |before| < EXPORT_RECORD_LIMIT
    ensures var result := loadPage(page, cursor);
            Walked(tables, sort, before, page, Collected(Kept(before, result), result.total, page, result.nextCursor))
  {
    TurnReads(loadPage, tables, sort, before, cursor.value, LastPosition(before), page);
    WalkedLast(tables, sort, before, page, loadPage(page, cursor));
  }

  /** The loop goes on behind this page. */
  predicate GoesOn(loadPage: PageLoader, before: seq<LogRow>, cursor: Option<string>, page: nat) {
    && |before| < EXPORT_RECORD_LIMIT
    && var result := loadPage(page, cursor); !Stops(result, |Kept(before, result)|, cursor)
  }

  /** What it then collects. */
  function Rest(loadPage: PageLoader, before: seq<LogRow>, cursor: Option<string>, page: nat): Collected
    requires GoesOn(loadPage, before, cursor, page)
  {
    var result := loadPage(page, cursor);
    CollectFrom(loadPage, Kept(before, result), result.total, NextRequest(result, cursor), page + 1)
  }

  lemma TurnWalks(loadPage: PageLoader, tables: Tables, sort: Sort, before: seq<LogRow>, total: nat,
                  cursor: Option<string>, page: nat)
    requires ValidThroughout(tables) && CursorSort(sort) && LoadsTables(loadPage, tables, sort)
    requires Ready(tables, sort, before, total, cursor, page)
    requires GoesOn(loadPage, before, cursor, page) ==>
               Walked(tables, sort, Kept(before, loadPage(page, cursor)), page + 1,
                      Rest(loadPage, before, cursor, page))
    ensures Walked(tables, sort, before, page, CollectFrom(loadPage, before, total, cursor, page))
  {
    if |before| == EXPORT_RECORD_LIMIT {
      WalkedNothing(tables, sort, before, total, cursor.value, page);
    } else if GoesOn(loadPage, before, cursor, page) {
      TurnGoesOn(loadPage, tables, sort, before, total, cursor, page);
      WalkedOn(tables, sort, before, page, Rest(loadPage, before, cursor, page));
    } else {
      TurnStops(loadPage, tables, sort, before, total, cursor, page);
    }
  }

  /** However the tables change, the loop walks their cuts. */
  lemma {:induction false} CollectsWalk(loadPage: PageLoader, tables: Tables, sort: Sort, before: seq<LogRow>,
                                        total: nat, cursor: Option<string>, page: nat)
    requires ValidThroughout(tables) && CursorSort(sort) && LoadsTables(loadPage, tables, sort)
    requires Ready(tables, sort, before, total, cursor, page)
    ensures Walked(tables, sort, before, page, CollectFrom(loadPage, before, total, cursor, page))
    decreases EXPORT_RECORD_LIMIT - |before|
  {
    if GoesOn(loadPage, before, cursor, page) {
      var result := loadPage(page, cursor);
      TurnGoesOn(loadPage, tables, sort, before, total, cursor, page);
      CollectsWalk(loadPage, tables, sort, Kept(before, result), result.total, NextRequest(result, cursor), page + 1);
    }
    TurnWalks(loadPage, tables, sort, before, total, cursor, page);
  }

  lemma {:induction false} PagesCounted(loadPage: PageLoader, before: seq<LogRow>, total: nat, cursor: Option<string>,
                                        page: nat)
    requires |before| <= EXPORT_RECORD_LIMIT && page > 0
    ensures CollectFrom(loadPage, before, total, cursor, page).pages + 1 >= page
    ensures |before| < EXPORT_RECORD_LIMIT ==> CollectFrom(loadPage, before, total, cursor, page).pages >= page
    decreases EXPORT_RECORD_LIMIT - |before|
  {
    if GoesOn(loadPage, before, cursor, page) {
      var result := loadPage(page, cursor);
      PagesCounted(loadPage, Kept(before, result), result.total, NextRequest(result, cursor), page + 1);
    }
  }

  lemma EmptyCursor(sort: Sort)
    ensures ParseCursor(Some(""), sort) == Ok(None)
  {
    assert Trim("", RustSpace) == "";
  }

  lemma ExportWalks(tables: Tables, sort: Sort)
    requires ValidThroughout(tables) && CursorSort(sort)
    ensures Walked(tables, sort, [], 1, Exported(tables, sort)) && Exported(tables, sort).pages > 0
  {
    QueryLoadsTables(tables, sort);
    EmptyCursor(sort);
    CollectsWalk(ChangingLoader(tables, sort), tables, sort, [], 0, Some(""), 1);
    PagesCounted(ChangingLoader(tables, sort), [], 0, Some(""), 1);
  }

  // ------------------------------------------------- what an export holds

  ghost predicate ReadAt(tables: Tables, page: nat, last: nat, row: LogRow) {
    exists k :: page <= k <= last && row in tables(k)
  }

  lemma {:induction false} WalkMatched(read: seq<set<LogRow>>, sort: Sort, p: Option<Position>, row: LogRow)
    requires ValidTables(read) && row in WalkCuts(read, sort, p, 200)
    ensures exists i :: 0 <= i < |read| && row in read[i]
    decreases |read|
  {
    CutInOrder(read[0], sort, p, 200);
    var cut := CutAt(read[0], sort, p, 200);
    if row in cut.records {
      assert row in read[0];
    } else {
      WalkMatched(read[1..], sort, cut.next, row);
      var i :| 0 <= i < |read| - 1 && row in read[1..][i];
      assert row in read[i + 1];
    }
  }

  /** Whatever is inserted or deleted between its pages: an export holds its rows strictly in order, none twice, each as
      it matched when a page was read. */
  lemma ExportInOrder(tables: Tables, sort: Sort)
    requires ValidThroughout(tables) && CursorSort(sort)
    ensures var c := Exported(tables, sort);
            InOrder(sort, c.records) && forall row :: row in c.records ==> ReadAt(tables, 1, c.pages, row)
  {
    var c := Exported(tables, sort);
    ExportWalks(tables, sort);
    var read := Read(tables, 1, c.pages);
    assert c.records == WalkCuts(read, sort, None, 200);
    CutsInOrder(read, sort, None, 200);
    forall row | row in c.records ensures ReadAt(tables, 1, c.pages, row) {
      WalkMatched(read, sort, None, row);
    }
  }

  /** Once a page hands out no cursor, it holds every row that matched throughout. */
  lemma ExportComplete(tables: Tables, sort: Sort, row: LogRow)
    requires ValidThroughout(tables) && CursorSort(sort) && Exported(tables, sort).next.None?
    requires forall k :: 1 <= k <= Exported(tables, sort).pages ==> row in tables(k)
    ensures row in Exported(tables, sort).records
  {
    var c := Exported(tables, sort);
    ExportWalks(tables, sort);
    CutsComplete(Read(tables, 1, c.pages), sort, None, 200, row);
  }

  /** The export says it is complete, though the last page left rows behind. */
  ghost predicate Silent(tables: Tables, sort: Sort)
    requires ValidThroughout(tables)
  {
    var c := Exported(tables, sort);
    !ExportOf(c).truncated && LeftBehind(tables(c.pages), sort, c.records)
  }

  /** It does exactly when the loop ended on the row count with a cursor still in hand. */
  lemma SilentExactly(tables: Tables, sort: Sort)
    requires ValidThroughout(tables) && CursorSort(sort)
    ensures var c := Exported(tables, sort);
            Silent(tables, sort) <==> c.next.Some? && |c.records| >= c.total
  {
    ExportWalks(tables, sort);
  }

  function RowsOf(records: seq<LogRow>): set<LogRow> {
    set r | r in records
  }

  lemma InOrderFront(sort: Sort, rows: seq<LogRow>, n: nat)
    requires InOrder(sort, rows) && n <= |rows|
    ensures InOrder(sort, rows[..n])
  {
  }

  lemma NotInFront(sort: Sort, all: seq<LogRow>, n: nat, i: nat)
    requires InOrder(sort, all) && n <= i < |all|
    ensures all[i] !in all[..n]
  {
    forall k | 0 <= k < n ensures all[k] != all[i] {
      Asymmetric(sort, all[k], all[i]);
    }
  }

  lemma RowsOfSnoc(front: seq<LogRow>, last: LogRow)
    requires last !in front
    ensures RowsOf(front + [last]) == RowsOf(front) + {last} && last !in RowsOf(front)
  {
  }

  lemma {:induction false} DistinctCount(records: seq<LogRow>)
    requires AllDistinct(records)
    ensures |RowsOf(records)| == |records|
  {
    if records != [] {
      var front, last := records[..|records| - 1], records[|records| - 1];
      DistinctCount(front);
      RowsOfSnoc(front, last);
      assert records == front + [last];
    }
  }

  lemma OrderedCount(sort: Sort, records: seq<LogRow>)
    requires InOrder(sort, records)
    ensures |RowsOf(records)| == |records|
  {
    OrderedDistinct(sort, records);
    DistinctCount(records);
  }

  lemma SubsetCount(a: set<LogRow>, b: set<LogRow>, row: LogRow)
    requires a <= b && row in b && row !in a
    ensures |a| < |b|
  {
    assert a <= b - {row};
    Within(a, b - {row});
  }

  lemma {:induction false} Within(a: set<LogRow>, b: set<LogRow>)
    requires a <= b
    ensures |a| <= |b|
    decreases a
  {
    if a != {} {
      var x :| x in a;
      Within(a - {x}, b - {x});
    }
  }

  lemma LeftIsMore(sort: Sort, records: seq<LogRow>, matched: set<LogRow>)
    requires InOrder(sort, records) && LeftBehind(matched, sort, records)
    requires forall row :: row in records ==> row in matched
    ensures |records| < |matched|
  {
    var row :| row in matched && Precedes(sort, records[|records| - 1], row);
    if row in records {
      NoneAfterLast(sort, records, row);
    }
    OrderedCount(sort, records);
    SubsetCount(RowsOf(records), matched, row);
  }

  /** That takes a deletion: some row of the export no longer matches when its last page is read. */
  lemma SilentNeedsDeletion(tables: Tables, sort: Sort)
    requires ValidThroughout(tables) && CursorSort(sort) && Silent(tables, sort)
    ensures var c := Exported(tables, sort); exists row :: row in c.records && row !in tables(c.pages)
  {
    var c := Exported(tables, sort);
    ExportWalks(tables, sort);
    ExportInOrder(tables, sort);
    if forall row :: row in c.records ==> row in tables(c.pages) {
      LeftIsMore(sort, c.records, tables(c.pages));
    }
  }

  // ------------------------------------------------ an export that is silent

  /** A table without its first 200 rows. */
  ghost function Pruned(rows: set<LogRow>, sort: Sort): (rest: set<LogRow>)
    requires ValidTable(rows) && |rows| > 400
    ensures ValidTable(rest)
  {
    rows - RowsOf(Ranked(sort, rows)[..200])
  }

  ghost function TableAt(rows: set<LogRow>, sort: Sort, page: nat): (table: set<LogRow>)
    requires ValidTable(rows) && |rows| > 400
    ensures ValidTable(table)
  {
    if page <= 1 then rows else Pruned(rows, sort)
  }

  /** All rows for the first page; later the first 200 of them are gone. */
  ghost function PrunedAfterOne(rows: set<LogRow>, sort: Sort): (tables: Tables)
    requires ValidTable(rows) && |rows| > 400
    ensures ValidThroughout(tables)
  {
    var tables: Tables := (page: nat) => TableAt(rows, sort, page);
    assert forall page: nat :: tables(page) == TableAt(rows, sort, page);
    tables
  }

  lemma RemovedCount(rows: set<LogRow>, gone: set<LogRow>)
    requires gone <= rows
    ensures |rows - gone| == |rows| - |gone|
  {
  }

  lemma PrunedCount(rows: set<LogRow>, sort: Sort, first: seq<LogRow>)
    requires InOrder(sort, first) && forall r :: r in first ==> r in rows
    ensures |rows - RowsOf(first)| == |rows| - |first|
  {
    OrderedCount(sort, first);
    RemovedCount(rows, RowsOf(first));
  }

  /** Behind the last of some first rows, the table is the same with and without them. */
  lemma PrunedAfter(rows: set<LogRow>, sort: Sort, first: seq<LogRow>)
    requires CursorSort(sort) && InOrder(sort, first) && first != []
    ensures After(rows - RowsOf(first), sort, LastPosition(first)) == After(rows, sort, LastPosition(first))
  {
    forall row | row in rows && Past(sort, LastPosition(first), row) ensures row !in first {
      BeyondIsPrecedes(sort, first[|first| - 1], row);
      if row in first {
        NoneAfterLast(sort, first, row);
      }
    }
  }

  lemma PrunedBehind(rows: set<LogRow>, sort: Sort)
    requires ValidTable(rows) && CursorSort(sort) && |rows| > 400
    ensures |Pruned(rows, sort)| == |rows| - 200
    ensures RowsFrom(Pruned(rows, sort), sort, LastPosition(Ranked(sort, rows)[..200])) == Ranked(sort, rows)[200..]
  {
    var first := Ranked(sort, rows)[..200];
    RankedInOrder(sort, rows);
    InOrderFront(sort, Ranked(sort, rows), 200);
    FrontMatches(Ranked(sort, rows), 200, rows);
    PrunedCount(rows, sort, first);
    PrunedAfter(rows, sort, first);
    RankedPast(rows, sort, 200);
    assert LastPosition(first) == PositionAt(Ranked(sort, rows), 200);
  }

  lemma FrontMatches(all: seq<LogRow>, n: nat, rows: set<LogRow>)
    requires n <= |all| && forall x :: x in all ==> x in rows
    ensures forall x :: x in all[..n] ==> x in rows
  {
  }

  lemma FirstCut(rows: set<LogRow>, sort: Sort)
    requires ValidTable(rows) && |rows| > 400
    ensures var cut := CutAt(rows, sort, None, 200); cut.records == Ranked(sort, rows)[..200] && cut.next.Some?
  {
  }

  lemma CutOf(matched: set<LogRow>, sort: Sort, p: Option<Position>, rest: seq<LogRow>)
    requires ValidTable(matched) && RowsFrom(matched, sort, p) == rest && |rest| > 200
    ensures CutAt(matched, sort, p, 200).records == rest[..200] && CutAt(matched, sort, p, 200).next.Some?
  {
  }

  lemma TwoSlices(all: seq<LogRow>)
    requires |all| > 400
    ensures all[..200] + all[200..][..200] == all[..400]
  {
  }

  lemma CollectStops(loadPage: PageLoader, before: seq<LogRow>, total: nat, cursor: Option<string>, page: nat)
    requires |before| < EXPORT_RECORD_LIMIT && page > 0 && !GoesOn(loadPage, before, cursor, page)
    ensures var result := loadPage(page, cursor);
            CollectFrom(loadPage, before, total, cursor, page)
            == Collected(Kept(before, result), result.total, page, result.nextCursor)
  {
  }

  lemma CollectGoesOn(loadPage: PageLoader, before: seq<LogRow>, total: nat, cursor: Option<string>, page: nat)
    requires |before| <= EXPORT_RECORD_LIMIT && page > 0 && GoesOn(loadPage, before, cursor, page)
    ensures CollectFrom(loadPage, before, total, cursor, page) == Rest(loadPage, before, cursor, page)
  {
  }

  lemma FirstReads(loadPage: PageLoader, rows: set<LogRow>, sort: Sort)
    requires ValidTable(rows) && |rows| > 400 && CursorSort(sort)
    requires LoadsTables(loadPage, PrunedAfterOne(rows, sort), sort)
    ensures GoesOn(loadPage, [], Some(""), 1) && Kept([], loadPage(1, Some(""))) == Ranked(sort, rows)[..200]
  {
    EmptyCursor(sort);
    TurnReads(loadPage, PrunedAfterOne(rows, sort), sort, [], "", None, 1);
    FirstCut(rows, sort);
    assert [] + Ranked(sort, rows)[..200] == Ranked(sort, rows)[..200];
  }

  /** The first page; what is collected behind it. */
  lemma FirstTurn(loadPage: PageLoader, rows: set<LogRow>, sort: Sort) returns (total: nat, cursor: Option<string>)
    requires ValidTable(rows) && |rows| > 400 && CursorSort(sort)
    requires LoadsTables(loadPage, PrunedAfterOne(rows, sort), sort)
    ensures Ready(PrunedAfterOne(rows, sort), sort, Ranked(sort, rows)[..200], total, cursor, 2)
    ensures CollectFrom(loadPage, [], 0, Some(""), 1)
         == CollectFrom(loadPage, Ranked(sort, rows)[..200], total, cursor, 2)
  {
    var result := loadPage(1, Some(""));
    total, cursor := result.total, NextRequest(result, Some(""));
    FirstReads(loadPage, rows, sort);
    EmptyCursor(sort);
    TurnGoesOn(loadPage, PrunedAfterOne(rows, sort), sort, [], 0, Some(""), 1);
    CollectGoesOn(loadPage, [], 0, Some(""), 1);
  }

  /** The second page, with as many rows collected as there are left. */
  lemma SecondPage(loadPage: PageLoader, tables: Tables, sort: Sort, all: seq<LogRow>, cursor: Option<string>,
                   total: nat)
    requires ValidThroughout(tables) && CursorSort(sort) && LoadsTables(loadPage, tables, sort) && |all| > 400
    requires Ready(tables, sort, all[..200], total, cursor, 2)
    requires RowsFrom(tables(2), sort, LastPosition(all[..200])) == all[200..] && |tables(2)| <= 400
    ensures var c := CollectFrom(loadPage, all[..200], total, cursor, 2);
            c.records == all[..400] && c.total == |tables(2)| && c.next.Some?
  {
    TurnReads(loadPage, tables, sort, all[..200], cursor.value, LastPosition(all[..200]), 2);
    CutOf(tables(2), sort, LastPosition(all[..200]), all[200..]);
    TwoSlices(all);
    CollectStops(loadPage, all[..200], total, cursor, 2);
  }

  lemma TwoPages(loadPage: PageLoader, rows: set<LogRow>, sort: Sort)
    requires ValidTable(rows) && 400 < |rows| <= 600 && CursorSort(sort)
    requires LoadsTables(loadPage, PrunedAfterOne(rows, sort), sort)
    ensures var c := CollectFrom(loadPage, [], 0, Some(""), 1);
            c.records == Ranked(sort, rows)[..400] && c.total == |rows| - 200 && c.next.Some?
  {
    var total, cursor := FirstTurn(loadPage, rows, sort);
    PrunedBehind(rows, sort);
    SecondPage(loadPage, PrunedAfterOne(rows, sort), sort, Ranked(sort, rows), cursor, total);
  }

  /** Up to 600 rows, of which the 200 on the first page are deleted before the second is read: the export ends after
      two pages without its last rows, which matched throughout, and reports nothing left out. */
  lemma PruneMakesExportSilent(rows: set<LogRow>, sort: Sort)
    requires ValidTable(rows) && 400 < |rows| <= 600 && CursorSort(sort)
    ensures var all, c := Ranked(sort, rows), Exported(PrunedAfterOne(rows, sort), sort);
            && c.records == all[..400] && c.total == |rows| - 200 && !ExportOf(c).truncated
            && Silent(PrunedAfterOne(rows, sort), sort)
  {
    QueryLoadsTables(PrunedAfterOne(rows, sort), sort);
    TwoPages(ChangingLoader(PrunedAfterOne(rows, sort), sort), rows, sort);
    SilentExactly(PrunedAfterOne(rows, sort), sort);
  }

  lemma RankedNotInFront(rows: set<LogRow>, sort: Sort, n: nat, i: nat)
    requires ValidTable(rows) && n <= i < |rows|
    ensures Ranked(sort, rows)[i] !in Ranked(sort, rows)[..n]
  {
    RankedInOrder(sort, rows);
    NotInFront(sort, Ranked(sort, rows), n, i);
  }

  /** The rows behind the first 400 match throughout, and are not exported. */
  lemma LastRowsMatchThroughout(rows: set<LogRow>, sort: Sort, i: nat, page: nat)
    requires ValidTable(rows) && 400 <= i < |rows|
    ensures Ranked(sort, rows)[i] in TableAt(rows, sort, page)
    ensures Ranked(sort, rows)[i] !in Ranked(sort, rows)[..400]
  {
    RankedNotInFront(rows, sort, 400, i);
    RankedNotInFront(rows, sort, 200, i);
    StaysIn(rows, Ranked(sort, rows), 200, i);
  }

  lemma StaysIn(rows: set<LogRow>, all: seq<LogRow>, n: nat, i: nat)
    requires n <= i < |all| && all[i] !in all[..n] && forall x :: x in all ==> x in rows
    ensures all[i] in rows && all[i] in rows - RowsOf(all[..n])
  {
    assert all[i] in all;
  }
}
