/** The query log table, its page query and the pagination cursor. */
module QueryLog {
  import opened Wrappers
  import opened Text

  /** A row; `content` stands for the columns that only the filters look at. */
  datatype LogRow = LogRow(id: nat, timestamp: nat, durationMs: Option<real>, content: string)

  /** Ids are the primary key, and both integers fit their columns. */
  ghost predicate ValidTable(rows: set<LogRow>) {
    && (forall a, b :: a in rows && b in rows && a.id == b.id ==> a == b)
    && (forall a :: a in rows ==> a.id < I64_LIMIT && a.timestamp < I64_LIMIT)
  }

  type OtherName = name: string | name != "newest" && name != "oldest" && name != "slowest" witness ""

  /** The sort names the query knows, and any other name, which sorts like newest first. */
  datatype Sort = Newest | Oldest | Slowest | Other(name: OtherName)

  function SortName(sort: Sort): string {
    match sort
    case Newest => "newest"
    case Oldest => "oldest"
    case Slowest => "slowest"
    case Other(name) => name
  }

  predicate Later(a: LogRow, b: LogRow) {
    a.timestamp > b.timestamp || (a.timestamp == b.timestamp && a.id > b.id)
  }

  /** NULL durations come last when the order is descending. */
  predicate Slower(a: Option<real>, b: Option<real>) {
    a.Some? && (b.None? || a.value > b.value)
  }

  predicate Precedes(o: Sort, a: LogRow, b: LogRow) {
    match o
    case Oldest => Later(b, a)
    case Slowest => Slower(a.durationMs, b.durationMs) || (a.durationMs == b.durationMs && Later(a, b))
    case _ => Later(a, b)
  }

  lemma Asymmetric(o: Sort, a: LogRow, b: LogRow)
    ensures !(Precedes(o, a, b) && Precedes(o, b, a))
  {
  }

  lemma Transitive(o: Sort, a: LogRow, b: LogRow, c: LogRow)
    requires Precedes(o, a, b) && Precedes(o, b, c)
    ensures Precedes(o, a, c)
  {
  }

  lemma Total(o: Sort, a: LogRow, b: LogRow)
    requires a.id != b.id
    ensures Precedes(o, a, b) || Precedes(o, b, a)
  {
  }

  predicate IsFirst(o: Sort, rows: set<LogRow>, m: LogRow) {
    m in rows && forall x :: x in rows && x != m ==> Precedes(o, m, x)
  }

  lemma {:induction false} HasFirst(o: Sort, rows: set<LogRow>)
    requires ValidTable(rows) && rows != {}
    ensures exists m :: IsFirst(o, rows, m)
    decreases rows
  {
    var x :| x in rows;
    if rows == {x} {
      assert IsFirst(o, rows, x);
    } else {
      HasFirst(o, rows - {x});
      var m :| IsFirst(o, rows - {x}, m);
      Total(o, m, x);
      if Precedes(o, m, x) {
        assert IsFirst(o, rows, m);
      } else {
        forall y | y in rows && y != x ensures Precedes(o, x, y) {
          if y != m {
            Transitive(o, x, m, y);
          }
        }
        assert IsFirst(o, rows, x);
      }
    }
  }

  lemma FirstUnique(o: Sort, rows: set<LogRow>)
    ensures forall m, n :: IsFirst(o, rows, m) && IsFirst(o, rows, n) ==> m == n
  {
    forall m, n | IsFirst(o, rows, m) && IsFirst(o, rows, n) ensures m == n {
      Asymmetric(o, m, n);
    }
  }

  /** The rows in sort order. */
  function Ranked(o: Sort, rows: set<LogRow>): (ranked: seq<LogRow>)
    requires ValidTable(rows)
    ensures |ranked| == |rows|
    ensures forall x :: x in ranked <==> x in rows
    decreases rows
  {
    if rows == {} then []
    else
      HasFirst(o, rows);
      FirstUnique(o, rows);
      var m :| IsFirst(o, rows, m);
      [m] + Ranked(o, rows - {m})
  }

  ghost predicate InOrder(o: Sort, rows: seq<LogRow>) {
    forall i, j :: 0 <= i < j < |rows| ==> Precedes(o, rows[i], rows[j])
  }

  predicate AllDistinct(rows: seq<LogRow>) {
    forall i, j :: 0 <= i < j < |rows| ==> rows[i] != rows[j]
  }

  lemma OrderedDistinct(o: Sort, rows: seq<LogRow>)
    requires InOrder(o, rows)
    ensures AllDistinct(rows)
  {
    forall i, j | 0 <= i < j < |rows| ensures rows[i] != rows[j] {
      Asymmetric(o, rows[i], rows[j]);
    }
  }

  lemma {:induction false} RankedInOrder(o: Sort, rows: set<LogRow>)
    requires ValidTable(rows)
    ensures InOrder(o, Ranked(o, rows))
    decreases rows
  {
    if rows != {} {
      var ranked := Ranked(o, rows);
      assert IsFirst(o, rows, ranked[0]);
      assert ranked[1..] == Ranked(o, rows - {ranked[0]});
      RankedInOrder(o, rows - {ranked[0]});
      forall i, j | 0 <= i < j < |ranked| ensures Precedes(o, ranked[i], ranked[j]) {
        assert ranked[j] == ranked[1..][j - 1] && ranked[j] in rows - {ranked[0]};
        if i > 0 {
          assert ranked[i] == ranked[1..][i - 1];
        }
      }
    }
  }

  /** There is only one way to put a set of rows in order. */
  lemma {:induction false} RankedUnique(o: Sort, rows: set<LogRow>, s: seq<LogRow>)
    requires ValidTable(rows) && InOrder(o, s) && forall x :: x in s <==> x in rows
    ensures s == Ranked(o, rows)
    decreases rows
  {
    if s == [] {
      assert rows == {};
    } else {
      assert s[0] in rows;
      FirstOfSorted(o, rows, s);
      RankedFirst(o, rows);
      FirstUnique(o, rows);
      assert s[0] == Ranked(o, rows)[0];
      RestUnique(o, rows, s);
      RankedUnique(o, rows - {s[0]}, s[1..]);
      assert s == [s[0]] + s[1..];
    }
  }

  lemma RankedFirst(o: Sort, rows: set<LogRow>)
    requires ValidTable(rows) && rows != {}
    ensures var ranked := Ranked(o, rows);
            IsFirst(o, rows, ranked[0]) && ranked == [ranked[0]] + Ranked(o, rows - {ranked[0]})
  {
  }

  lemma FirstOfSorted(o: Sort, rows: set<LogRow>, s: seq<LogRow>)
    requires s != [] && InOrder(o, s) && forall x :: x in s <==> x in rows
    ensures IsFirst(o, rows, s[0])
  {
    assert s[0] in s;
    forall y | y in rows && y != s[0] ensures Precedes(o, s[0], y) {
      assert y in s;
    }
  }

  lemma RestUnique(o: Sort, rows: set<LogRow>, s: seq<LogRow>)
    requires s != [] && InOrder(o, s) && forall x :: x in s <==> x in rows
    ensures InOrder(o, s[1..]) && forall y :: y in s[1..] <==> y in rows - {s[0]}
  {
    forall y ensures y in s[1..] <==> y in rows - {s[0]} {
      if y in s[1..] {
        Asymmetric(o, s[0], y);
      }
    }
  }

  // ------------------------------------------------- the order on the columns

  /** Later timestamps first, and on a tie larger ids. */
  predicate FallsTo(a: LogRow, b: LogRow) {
    a.timestamp >= b.timestamp && (a.timestamp == b.timestamp ==> a.id > b.id)
  }

  /** What a sort asks of two rows, one listed before the other: "newest" and any unknown sort fall, "oldest" rises;
      "slowest" lists longer durations first and rows without one last, and falls among equals. */
  predicate AsAsked(sort: Sort, a: LogRow, b: LogRow) {
    match sort
    case Newest => FallsTo(a, b)
    case Other(_) => FallsTo(a, b)
    case Oldest => a.timestamp <= b.timestamp && (a.timestamp == b.timestamp ==> a.id < b.id)
    case Slowest =>
      && (b.durationMs.Some? ==> a.durationMs.Some?)
      && (b.durationMs.Some? ==> a.durationMs.value >= b.durationMs.value)
      && (a.durationMs == b.durationMs ==> FallsTo(a, b))
  }

  ghost predicate ListedAsAsked(sort: Sort, rows: seq<LogRow>) {
    forall i, j :: 0 <= i < j < |rows| ==> AsAsked(sort, rows[i], rows[j])
  }

  lemma OrderedAsAsked(sort: Sort, rows: seq<LogRow>)
    requires InOrder(sort, rows)
    ensures ListedAsAsked(sort, rows)
  {
    forall i, j | 0 <= i < j < |rows| ensures AsAsked(sort, rows[i], rows[j]) {
      assert Precedes(sort, rows[i], rows[j]);
    }
  }

  /** The ranking is the rows as the sort asks for them, and the only list that is. */
  lemma RankedAsAsked(sort: Sort, rows: set<LogRow>, listed: seq<LogRow>)
    requires ValidTable(rows) && forall x :: x in listed <==> x in rows
    ensures ListedAsAsked(sort, listed) <==> listed == Ranked(sort, rows)
  {
    RankedInOrder(sort, rows);
    OrderedAsAsked(sort, Ranked(sort, rows));
    if ListedAsAsked(sort, listed) {
      AskedIsOrdered(sort, rows, listed);
      RankedUnique(sort, rows, listed);
    }
  }

  lemma AskedIsOrdered(sort: Sort, rows: set<LogRow>, listed: seq<LogRow>)
    requires ListedAsAsked(sort, listed)
    ensures InOrder(sort, listed)
  {
    forall i, j | 0 <= i < j < |listed| ensures Precedes(sort, listed[i], listed[j]) {
      assert AsAsked(sort, listed[i], listed[j]);
    }
  }

  // -------------------------------------------------------------------- cursor

  datatype Position = Position(timestamp: nat, id: nat)

  function PositionOf(r: LogRow): Position {
    Position(r.timestamp, r.id)
  }

  /** Rust's `str::parse::<i64>`. */
  function ParseI64(s: string): Option<int> {
    var negative := s != "" && s[0] == '-';
    var digits := if s != "" && (s[0] == '-' || s[0] == '+') then s[1..] else s;
    if digits == "" || !AllDigits(digits) then None
    else
      var n: int := if negative then 0 - Value(digits) else Value(digits);
      if n >= 0 - I64_LIMIT && n < I64_LIMIT then Some(n) else None
  }

  function EncodeCursor(sort: Sort, p: Position): string {
    "v1:" + SortName(sort) + ":" + Decimal(p.timestamp) + ":" + Decimal(p.id)
  }

  function NonNegative(n: Option<int>): Option<nat> {
    if n.Some? && n.value >= 0 then Some(n.value) else None
  }

  predicate CursorSort(sort: Sort) {
    sort.Newest? || sort.Oldest?
  }

  /** The two sorts that page by cursor, by their names. */
  lemma CursorSorts(sort: Sort)
    ensures CursorSort(sort) <==> SortName(sort) == "newest" || SortName(sort) == "oldest"
  {
  }

  function ParseParts(parts: seq<string>, sort: Sort): Result<Option<Position>, string> {
    if |parts| != 4 || parts[0] != "v1" || parts[1] != SortName(sort) then Err("查询日志分页游标无效或已过期")
    else
      var timestamp, id := NonNegative(ParseI64(parts[2])), NonNegative(ParseI64(parts[3]));
      if timestamp.None? then Err("查询日志分页游标时间戳无效")
      else if id.None? then Err("查询日志分页游标记录 ID 无效")
      else Ok(Some(Position(timestamp.value, id.value)))
  }

  function ParseCursor(cursor: Option<string>, sort: Sort): Result<Option<Position>, string> {
    if cursor.None? || Trim(cursor.value, RustSpace) == "" then Ok(None)
    else if !CursorSort(sort) then Err("当前排序方式不支持游标分页")
    else ParseParts(Split(Trim(cursor.value, RustSpace), ':'), sort)
  }

  lemma ParseDecimal(n: nat)
    requires n < I64_LIMIT
    ensures ParseI64(Decimal(n)) == Some(n)
  {
    ValueDecimal(n);
    assert IsDigit(Decimal(n)[0]);
  }

  lemma EncodedParts(sort: Sort, p: Position)
    requires ':' !in SortName(sort)
    ensures Split(EncodeCursor(sort, p), ':') == ["v1", SortName(sort), Decimal(p.timestamp), Decimal(p.id)]
  {
    var t, id := Decimal(p.timestamp), Decimal(p.id);
    assert ':' !in t && ':' !in id && ':' !in "v1";
    assert EncodeCursor(sort, p) == "v1" + [':'] + SortName(sort) + [':'] + t + [':'] + id;
    SplitFour("v1", SortName(sort), t, id, ':');
  }

  /** A cursor starts with a letter and ends with a digit. */
  lemma EncodedTight(sort: Sort, p: Position)
    ensures EncodeCursor(sort, p) != "" && Trim(EncodeCursor(sort, p), RustSpace) == EncodeCursor(sort, p)
  {
    var id := Decimal(p.id);
    var front := "v1:" + SortName(sort) + ":" + Decimal(p.timestamp) + ":";
    assert EncodeCursor(sort, p) == front + id && front[0] == 'v';
    assert (front + id)[|front + id| - 1] == id[|id| - 1] && IsDigit(id[|id| - 1]);
    TrimTight(front + id, RustSpace);
  }

  lemma SortHasNoColon(sort: Sort)
    requires CursorSort(sort)
    ensures ':' !in SortName(sort)
  {
  }

  lemma PartsRoundTrip(sort: Sort, p: Position)
    requires p.timestamp < I64_LIMIT && p.id < I64_LIMIT
    ensures ParseParts(["v1", SortName(sort), Decimal(p.timestamp), Decimal(p.id)], sort) == Ok(Some(p))
  {
    ParseDecimal(p.timestamp);
    ParseDecimal(p.id);
  }

  /** A cursor handed out for a row reads back as that row's position under the same sort. */
  lemma CursorRoundTrip(sort: Sort, p: Position)
    requires CursorSort(sort) && p.timestamp < I64_LIMIT && p.id < I64_LIMIT
    ensures ParseCursor(Some(EncodeCursor(sort, p)), sort) == Ok(Some(p))
  {
    EncodedTight(sort, p);
    SortHasNoColon(sort);
    EncodedParts(sort, p);
    PartsRoundTrip(sort, p);
  }

  /** A cursor of one sort is an error under any other. */
  lemma ForeignCursorRejected(sort: Sort, p: Position, other: Sort)
    requires CursorSort(sort) && SortName(other) != SortName(sort)
    ensures ParseCursor(Some(EncodeCursor(sort, p)), other).Err?
  {
    EncodedTight(sort, p);
    SortHasNoColon(sort);
    EncodedParts(sort, p);
  }

  // ---------------------------------------------------------------- the page query

  /** The cursor's `AND (timestamp ... OR (timestamp = ... AND id ...))`. */
  predicate Beyond(sort: Sort, p: Position, r: LogRow) {
    if sort.Oldest?
    then r.timestamp > p.timestamp || (r.timestamp == p.timestamp && r.id > p.id)
    else r.timestamp < p.timestamp || (r.timestamp == p.timestamp && r.id < p.id)
  }

  function After(matched: set<LogRow>, sort: Sort, p: Option<Position>): (rest: set<LogRow>)
    ensures rest <= matched
  {
    if p.None? then matched else set r | r in matched && Beyond(sort, p.value, r)
  }

  datatype Page = Page(records: seq<LogRow>, total: nat, page: nat, pageSize: nat, nextCursor: Option<string>)

  function ClampPageSize(n: nat): nat {
    if n < 20 then 20 else if n > 200 then 200 else n
  }

  function AtLeastOne(n: nat): nat {
    if n < 1 then 1 else n
  }

  function Take(s: seq<LogRow>, n: nat): seq<LogRow> {
    if n <= |s| then s[..n] else s
  }

  function Drop(s: seq<LogRow>, n: nat): seq<LogRow> {
    if n <= |s| then s[n..] else []
  }

  /** The rows the filters, the search and the time window let through, as one predicate. */
  function Matching(table: set<LogRow>, matches: LogRow -> bool): (matched: set<LogRow>)
    ensures matched <= table
  {
    set x | x in table && matches(x)
  }

  /** All rows from the cursor on, in sort order. */
  function RowsFrom(matched: set<LogRow>, sort: Sort, p: Option<Position>): seq<LogRow>
    requires ValidTable(matched)
  {
    Ranked(sort, After(matched, sort, p))
  }

  /** The part of `rows` a page shows, and whether the query saw one row more. */
  function PageFrom(rows: seq<LogRow>, sort: Sort, cursorMode: bool, total: nat, page: nat, size: nat): Page
    requires size > 0 && page > 0
  {
    var records := Take(Drop(rows, if cursorMode then 0 else (page - 1) * size), size);
    Page(records, total, page, size,
         if cursorMode && |rows| > size then Some(EncodeCursor(sort, PositionOf(records[size - 1]))) else None)
  }

  /** What the page query answers over the rows that match the filters. */
  function PageOf(matched: set<LogRow>, sort: Sort, cursor: Option<string>, page: nat, pageSize: nat):
      Result<Page, string>
    requires ValidTable(matched)
  {
    var position := ParseCursor(cursor, sort);
    if position.Err? then Err(position.error)
    else
      Ok(PageFrom(RowsFrom(matched, sort, position.value), sort, cursor.Some?, |matched|, AtLeastOne(page),
                  ClampPageSize(pageSize)))
  }

  lemma SliceListed(sort: Sort, all: seq<LogRow>, i: nat, n: nat)
    requires ListedAsAsked(sort, all)
    ensures ListedAsAsked(sort, Take(Drop(all, i), n)) && forall row :: row in Take(Drop(all, i), n) ==> row in all
  {
  }

  /** Any stretch of a ranking is listed as asked. */
  lemma SliceAsAsked(sort: Sort, rows: set<LogRow>, i: nat, n: nat)
    requires ValidTable(rows)
    ensures ListedAsAsked(sort, Take(Drop(Ranked(sort, rows), i), n))
    ensures forall row :: row in Take(Drop(Ranked(sort, rows), i), n) ==> row in rows
  {
    RankedInOrder(sort, rows);
    OrderedAsAsked(sort, Ranked(sort, rows));
    SliceListed(sort, Ranked(sort, rows), i, n);
  }

  /** What a page of a ranking holds. */
  predicate PageHolds(answer: Page, rows: set<LogRow>, total: nat, page: nat, size: nat) {
    && answer.total == total && answer.page == page && answer.pageSize == size && |answer.records| <= size
    && forall row :: row in answer.records ==> row in rows
  }

  lemma PageRecords(answer: Page, ranked: seq<LogRow>, sort: Sort, cursorMode: bool, total: nat, page: nat, size: nat)
    returns (i: nat)
    requires size > 0 && page > 0 && answer == PageFrom(ranked, sort, cursorMode, total, page, size)
    ensures answer.records == Take(Drop(ranked, i), size) && |answer.records| <= size
    ensures answer.total == total && answer.page == page && answer.pageSize == size
  {
    i := if cursorMode then 0 else (page - 1) * size;
  }

  lemma PageListed(answer: Page, sort: Sort, rows: set<LogRow>, cursorMode: bool, total: nat, page: nat, size: nat)
    requires ValidTable(rows) && size > 0 && page > 0
    requires answer == PageFrom(Ranked(sort, rows), sort, cursorMode, total, page, size)
    ensures ListedAsAsked(sort, answer.records) && PageHolds(answer, rows, total, page, size)
  {
    var i := PageRecords(answer, Ranked(sort, rows), sort, cursorMode, total, page, size);
    SliceAsAsked(sort, rows, i, size);
  }

  /** The query: one row more than a page is asked for in cursor mode, to see whether there are more. */
  method QueryLogsAdvanced(table: set<LogRow>, matches: LogRow -> bool, sort: Sort, cursor: Option<string>,
                           page: nat, pageSize: nat) returns (r: Result<Page, string>)
    requires ValidTable(table)
    ensures r == PageOf(Matching(table, matches), sort, cursor, page, pageSize)
    ensures r.Ok? ==> ListedAsAsked(sort, r.value.records)
    ensures r.Ok? ==> forall row :: row in r.value.records ==> row in table && matches(row)
    ensures r.Ok? ==> r.value.total == |Matching(table, matches)| && r.value.page == if page == 0 then 1 else page
    ensures r.Ok? ==> r.value.pageSize == if pageSize < 20 then 20 else if pageSize > 200 then 200 else pageSize
    ensures r.Ok? ==> |r.value.records| <= r.value.pageSize
  {
    var position := ParseCursor(cursor, sort);
    if position.Err? {
      return Err(position.error);
    }
    var matched := Matching(table, matches);
    var number, size := AtLeastOne(page), ClampPageSize(pageSize);
    var rows := RowsFrom(matched, sort, position.value);
    var answer := AnswerWith(rows, sort, cursor.Some?, |matched|, number, size);
    PageListed(answer, sort, After(matched, sort, position.value), cursor.Some?, |matched|, number, size);
    r := Ok(answer);
  }

  /** The rows of the page and the cursor of its last one, when there are more. */
  method AnswerWith(rows: seq<LogRow>, sort: Sort, cursorMode: bool, total: nat, page: nat, size: nat)
    returns (answer: Page)
    requires page > 0 && size > 0
    ensures answer == PageFrom(rows, sort, cursorMode, total, page, size)
  {
    var records, hasMore := FetchRows(rows, cursorMode, page, size);
    var nextCursor := if hasMore then Some(EncodeCursor(sort, PositionOf(records[|records| - 1]))) else None;
    answer := Page(records, total, page, size, nextCursor);
  }

  /** Reading the statement's rows one by one, and dropping the extra one. */
  method FetchRows(rows: seq<LogRow>, cursorMode: bool, page: nat, size: nat)
    returns (records: seq<LogRow>, hasMore: bool)
    requires page > 0 && size > 0
    ensures records == Take(Drop(rows, if cursorMode then 0 else (page - 1) * size), size)
    ensures hasMore <==> cursorMode && |rows| > size
  {
    var limit := if cursorMode then size + 1 else size;
    var offset := if cursorMode then 0 else (page - 1) * size;
    var source := Drop(rows, offset);
    records := [];
    while |records| < limit && |records| < |source|
      invariant |records| <= limit && |records| <= |source| && records == source[..|records|]
    {
      records := records + [source[|records|]];
    }
    hasMore := cursorMode && |records| > size;
    if hasMore {
      records := records[..|records| - 1];
    }
  }

  /** A page in terms of positions: its rows, and the position it hands on when rows are left. */
  datatype Cut = Cut(records: seq<LogRow>, next: Option<Position>)

  function CutAt(matched: set<LogRow>, sort: Sort, p: Option<Position>, size: nat): Cut
    requires ValidTable(matched) && size > 0
  {
    var rows := RowsFrom(matched, sort, p);
    Cut(Take(rows, size), if |rows| > size then Some(PositionOf(rows[size - 1])) else None)
  }

  lemma CursorAnswer(rows: seq<LogRow>, sort: Sort, total: nat, page: nat, size: nat)
    requires CursorSort(sort) && page > 0 && size > 0
    requires forall r :: r in rows ==> r.timestamp < I64_LIMIT && r.id < I64_LIMIT
    ensures var answer := PageFrom(rows, sort, true, total, page, size);
            && answer.records == Take(rows, size)
            && (answer.nextCursor.Some? <==> |rows| > size)
            && (answer.nextCursor.Some? ==>
                  ParseCursor(answer.nextCursor, sort) == Ok(Some(PositionOf(rows[size - 1]))))
  {
    assert Drop(rows, 0) == rows;
    if |rows| > size {
      assert Take(rows, size)[size - 1] == rows[size - 1] && rows[size - 1] in rows;
      CursorRoundTrip(sort, PositionOf(rows[size - 1]));
    }
  }

  /** In cursor mode the answer is the cut behind the cursor's position, its next cursor reading back as the cut's. */
  lemma CursorPage(matched: set<LogRow>, sort: Sort, cursor: string, p: Option<Position>, page: nat, pageSize: nat)
    requires ValidTable(matched) && CursorSort(sort) && ParseCursor(Some(cursor), sort) == Ok(p)
    ensures var answer := PageOf(matched, sort, Some(cursor), page, pageSize);
            var cut := CutAt(matched, sort, p, ClampPageSize(pageSize));
            && answer.Ok? && answer.value.records == cut.records && answer.value.total == |matched|
            && (answer.value.nextCursor.Some? <==> cut.next.Some?)
            && (answer.value.nextCursor.Some? ==> ParseCursor(answer.value.nextCursor, sort) == Ok(cut.next))
  {
    CursorAnswer(RowsFrom(matched, sort, p), sort, |matched|, AtLeastOne(page), ClampPageSize(pageSize));
  }
}
