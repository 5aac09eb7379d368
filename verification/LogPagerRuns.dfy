/** Sessions with the query log view: which rows it shows, and when its page stack stays in order. */
module LogPagerRuns {
  import opened Wrappers
  import opened QueryLog
  import opened LogPaging
  import opened LogPager

  // ----------------------------------------------------- runs over any server

  type Server = (Query, nat, Option<string>) -> Result<Page, string>

  /** The rows of each query in sort order, and the cursor each of its pages is asked with. */
  datatype Log = Log(rows: Query -> seq<LogRow>, cursors: (Query, nat) -> string)

  /** Rows of the page numbered `page`. */
  function Slice(rows: seq<LogRow>, page: nat): seq<LogRow>
    requires page > 0
  {
    Take(Drop(rows, (page - 1) * QUERY_LOG_PAGE_SIZE), QUERY_LOG_PAGE_SIZE)
  }

  predicate InRange(rows: seq<LogRow>, page: nat) {
    page == 1 || (page > 1 && (page - 1) * QUERY_LOG_PAGE_SIZE < |rows|)
  }

  function AskedWith(log: Log, q: Query, page: nat): Option<string>
    requires page > 0
  {
    if CursorSort(q.sort) then Some(log.cursors(q, page - 1)) else None
  }

  /** The answer for a page; with a cursor, the number `n` the request carries is only echoed. */
  predicate ServesPage(answer: Result<Page, string>, log: Log, q: Query, page: nat, n: nat)
    requires page > 0
  {
    && answer.Ok?
    && answer.value.page == n
    && answer.value.total == |log.rows(q)|
    && answer.value.records == Slice(log.rows(q), page)
    && (CursorSort(q.sort) ==>
          answer.value.nextCursor
          == if page * QUERY_LOG_PAGE_SIZE < |log.rows(q)| then Some(log.cursors(q, page)) else None)
  }

  ghost predicate Serves(server: Server, log: Log) {
    && (forall q: Query :: log.cursors(q, 0) == "")
    && forall q: Query, page: nat, n: nat ::
         InRange(log.rows(q), page) && n > 0 && (CursorSort(q.sort) || n == page) ==>
           ServesPage(server(q, n, AskedWith(log, q, page)), log, q, page, n)
  }

  datatype Event = NextPage | PreviousPage | QueryChange(query: Query) | RefreshNow | LoadOk | LoadFail

  /** The paging buttons are disabled while a request is in flight; an answer needs a request. */
  predicate Allowed(s: Pager, e: Event) {
    match e
    case NextPage => s.inFlight.None?
    case PreviousPage => s.inFlight.None?
    case LoadOk => s.inFlight.Some?
    case LoadFail => s.inFlight.Some?
    case _ => true
  }

  function Handle(server: Server, s: Pager, e: Event): Pager {
    match e
    case NextPage => PagedForward(s)
    case PreviousPage => PagedBack(s)
    case QueryChange(q) => Requeried(s, q)
    case RefreshNow => Refreshed(s)
    case LoadFail => Finished(s)
    case LoadOk =>
      if s.inFlight.None? then s
      else
        var r := s.inFlight.value;
        var answer := server(r.query, r.page, r.cursor);
        if answer.Ok? then Answered(s, answer.value) else Finished(s)
  }

  /** The page exists, and every cursor on the stack is that of its own page. */
  ghost predicate StackLeads(log: Log, s: Pager) {
    && InRange(log.rows(s.query), s.page)
    && (CursorSort(s.query.sort) ==>
          s.page <= |s.cursorStack| && forall i :: 0 <= i < |s.cursorStack| ==>
            s.cursorStack[i] == log.cursors(s.query, i) && InRange(log.rows(s.query), i + 1))
  }

  /** The view shows the rows of page `m`, and the next cursor is that of the page after it; nothing is said for 0. */
  ghost predicate ShowsPage(log: Log, s: Pager, m: nat) {
    var rows := log.rows(s.query);
    if m == 0 then s.nextCursor.None?
    else
      && InRange(rows, m) && s.shown == Slice(rows, m) && s.total == |rows|
      && (CursorSort(s.query.sort) ==>
            s.nextCursor == if m * QUERY_LOG_PAGE_SIZE < |rows| then Some(log.cursors(s.query, m)) else None)
  }

  /** Sending a request, or not, touches nothing else. */
  lemma FinishedStays(s: Pager)
    ensures Finished(s) == s.(inFlight := Finished(s).inFlight, refreshQueued := Finished(s).refreshQueued)
  {
  }

  lemma FreshAnswer(server: Server, s: Pager)
    requires s.inFlight.Some? && !Stale(s) && server(s.query, s.page, CursorFor(s)).Ok?
    ensures var answer := server(s.query, s.page, CursorFor(s)).value;
            Handle(server, s, LoadOk)
            == Finished(s.(page := answer.page, total := answer.total, nextCursor := answer.nextCursor,
                           shown := answer.records))
  {
  }

  /** An answer that is not stale settles the view. */
  lemma AnswerSettles(server: Server, log: Log, s: Pager)
    requires Serves(server, log) && StackLeads(log, s) && s.inFlight.Some? && !Stale(s)
    ensures var t := Handle(server, s, LoadOk);
            StackLeads(log, t) && ShowsPage(log, t, s.page) && t.page == s.page && t.query == s.query
  {
    var asked := AskedWith(log, s.query, s.page);
    assert CursorFor(s) == asked;
    assert ServesPage(server(s.query, s.page, asked), log, s.query, s.page, s.page);
    var answer := server(s.query, s.page, asked).value;
    FreshAnswer(server, s);
    FinishedStays(s.(page := answer.page, total := answer.total, nextCursor := answer.nextCursor,
                     shown := answer.records));
  }

  // What the two buttons bring, once the answer is in.

  /** The rows from one position up to another, or to the end. */
  function Between(rows: seq<LogRow>, from: nat, to: nat): seq<LogRow>
    requires from <= to && from <= |rows|
  {
    rows[from..if to < |rows| then to else |rows|]
  }

  lemma SliceIs(rows: seq<LogRow>, page: nat)
    requires page > 0 && (page - 1) * 50 <= |rows|
    ensures Slice(rows, page) == Between(rows, (page - 1) * 50, page * 50)
  {
  }

  /** Previous, and its answer: the view shows the fifty rows of the page before, and counts that page. */
  lemma PreviousTurns(server: Server, log: Log, s: Pager)
    requires Serves(server, log) && StackLeads(log, s) && s.page > 1 && s.inFlight.None? && !s.refreshQueued
    ensures var rows, t := log.rows(s.query), Handle(server, Handle(server, s, PreviousPage), LoadOk);
            && t.page == s.page - 1 && t.query == s.query && t.total == |rows|
            && (s.page - 2) * 50 <= |rows| && t.shown == Between(rows, (s.page - 2) * 50, (s.page - 1) * 50)
            && t.inFlight.None?
  {
    var back := s.(page := s.page - 1);
    BackLeads(log, s);
    var asked := Refreshed(back);
    SameLeads(log, back, asked);
    AnswerSettles(server, log, asked);
    SliceIs(log.rows(s.query), s.page - 1);
  }

  /** Next, from a page that is shown and not the last, and its answer: the view shows the fifty rows after it. */
  lemma NextTurns(server: Server, log: Log, s: Pager)
    requires Serves(server, log) && StackLeads(log, s) && ShowsPage(log, s, s.page)
    requires s.inFlight.None? && !s.refreshQueued && s.page * 50 < |log.rows(s.query)|
    ensures var rows, t := log.rows(s.query), Handle(server, Handle(server, s, NextPage), LoadOk);
            && t.page == s.page + 1 && t.query == s.query && t.total == |rows|
            && t.shown == Between(rows, s.page * 50, (s.page + 1) * 50)
            && t.inFlight.None?
  {
    var rows, asked := log.rows(s.query), PagedForward(s);
    TotalPagesLeast(s.total, s.page);
    if CursorSort(s.query.sort) {
      ForwardLeads(log, s);
    }
    assert StackLeads(log, asked);
    AnswerSettles(server, log, asked);
    SliceIs(rows, s.page + 1);
  }

  /** Next on the last page does nothing. */
  lemma NextStops(log: Log, s: Pager)
    requires StackLeads(log, s) && ShowsPage(log, s, s.page) && s.page * 50 >= |log.rows(s.query)|
    ensures PagedForward(s) == s
  {
    TotalPagesLeast(s.total, s.page);
  }

  /** A stale answer changes nothing on the page, and the current request goes out in its place. */
  lemma StaleIsRetried(server: Server, s: Pager)
    requires s.inFlight.Some? && Stale(s)
    requires server(s.inFlight.value.query, s.inFlight.value.page, s.inFlight.value.cursor).Ok?
    ensures Handle(server, s, LoadOk) == s.(inFlight := Some(CurrentRequest(s)), refreshQueued := false)
  {
  }

  /** Leading depends on query, page and stack only. */
  lemma SameLeads(log: Log, s: Pager, t: Pager)
    requires StackLeads(log, s) && t.query == s.query && t.page == s.page && t.cursorStack == s.cursorStack
    ensures StackLeads(log, t)
  {
  }

  // ------------------------------------------------- when Next may be pressed

  /** Different pages are asked for with different cursors. */
  ghost predicate DistinctCursors(log: Log) {
    forall q: Query, i: nat, j: nat :: CursorsApart(log, q, i, j)
  }

  predicate CursorsApart(log: Log, q: Query, i: nat, j: nat) {
    CursorSort(q.sort) && i < j && InRange(log.rows(q), i + 1) && InRange(log.rows(q), j + 1) ==>
      log.cursors(q, i) != log.cursors(q, j)
  }

  /** By what the view holds: with a cursor, the page last loaded is the one Next starts from; by offset, some page of
      this query was loaded, so that the total is this query's. Otherwise Next must do nothing. */
  predicate NextFits(s: Pager, m: nat) {
    if CursorSort(s.query.sort) then s.nextCursor.None? || m == s.page
    else m > 0 || s.page >= TotalPages(s.total)
  }

  /** By offset, the next page exists all the same. */
  predicate NextExists(log: Log, s: Pager) {
    !CursorSort(s.query.sort) && s.page * QUERY_LOG_PAGE_SIZE < |log.rows(s.query)|
  }

  lemma ForwardLeads(log: Log, s: Pager)
    requires StackLeads(log, s) && ShowsPage(log, s, s.page) && CursorSort(s.query.sort)
    ensures StackLeads(log, PagedForward(s))
  {
    if s.nextCursor.Some? {
      var stack := PushAt(s.cursorStack, s.page, s.nextCursor.value);
      forall i | 0 <= i < |stack| ensures stack[i] == log.cursors(s.query, i) && InRange(log.rows(s.query), i + 1) {
        if i < s.page {
          assert stack[i] == s.cursorStack[i];
        }
      }
    }
  }

  lemma ForeignCursorMisleads(log: Log, s: Pager, m: nat)
    requires DistinctCursors(log) && StackLeads(log, s) && ShowsPage(log, s, m) && CursorSort(s.query.sort)
    requires s.nextCursor.Some? && m != s.page
    ensures !StackLeads(log, PagedForward(s))
  {
    var stack, rows := PushAt(s.cursorStack, s.page, s.nextCursor.value), log.rows(s.query);
    assert stack[s.page] == log.cursors(s.query, m) && InRange(rows, m + 1);
    if InRange(rows, s.page + 1) {
      if s.page < m {
        assert CursorsApart(log, s.query, s.page, m);
      } else {
        assert CursorsApart(log, s.query, m, s.page);
      }
    }
  }

  /** On a given log, Next leads to a page that exists, with every cursor at its page, exactly when it fits or, by
      offset, the page exists all the same. */
  lemma NextLeadsExactly(log: Log, s: Pager, m: nat)
    requires DistinctCursors(log) && StackLeads(log, s) && ShowsPage(log, s, m)
    ensures StackLeads(log, PagedForward(s)) <==> NextFits(s, m) || NextExists(log, s)
  {
    if CursorSort(s.query.sort) {
      if m == s.page {
        ForwardLeads(log, s);
      } else if s.nextCursor.Some? {
        ForeignCursorMisleads(log, s, m);
      }
    }
  }

  ghost predicate NextLeads(log: Log, s: Pager, m: nat) {
    DistinctCursors(log) && StackLeads(log, s) && ShowsPage(log, s, m) ==> StackLeads(log, PagedForward(s))
  }

  /** Next leads on every log the view may stand for. */
  ghost predicate NextSafe(s: Pager, m: nat) {
    forall log: Log :: NextLeads(log, s, m)
  }

  /** The same log with the first `n` rows of each query only. */
  ghost function Shortened(log: Log, n: nat): Log {
    Log((q: Query) => Take(log.rows(q), n), log.cursors)
  }

  lemma ShortenedDistinct(log: Log, n: nat)
    requires DistinctCursors(log)
    ensures DistinctCursors(Shortened(log, n))
  {
    forall q: Query, i: nat, j: nat ensures CursorsApart(Shortened(log, n), q, i, j) {
      assert CursorsApart(log, q, i, j);
    }
  }

  lemma StaleTotalUnsafe(log: Log, s: Pager)
    requires DistinctCursors(log) && StackLeads(log, s) && ShowsPage(log, s, 0)
    requires !CursorSort(s.query.sort) && s.page < TotalPages(s.total)
    ensures !NextSafe(s, 0)
  {
    var short := Shortened(log, s.page * QUERY_LOG_PAGE_SIZE);
    ShortenedDistinct(log, s.page * QUERY_LOG_PAGE_SIZE);
    assert StackLeads(short, s) && ShowsPage(short, s, 0) && !StackLeads(short, PagedForward(s));
    assert !NextLeads(short, s, 0);
  }

  /** Whatever the log, Next leads exactly when it fits, which the view can check. */
  lemma NextSafeExactly(log: Log, s: Pager, m: nat)
    requires DistinctCursors(log) && StackLeads(log, s) && ShowsPage(log, s, m)
    ensures NextSafe(s, m) <==> NextFits(s, m)
  {
    if NextFits(s, m) {
      forall other: Log ensures NextLeads(other, s, m) {
        if DistinctCursors(other) && StackLeads(other, s) && ShowsPage(other, s, m) {
          NextLeadsExactly(other, s, m);
        }
      }
    } else if CursorSort(s.query.sort) {
      NextLeadsExactly(log, s, m);
      assert !NextLeads(log, s, m);
    } else {
      StaleTotalUnsafe(log, s);
    }
  }

  // ----------------------------------------------------------------- single steps

  lemma StaleStays(server: Server, s: Pager)
    requires s.inFlight.Some? && Stale(s)
    ensures var t := Handle(server, s, LoadOk);
            t == s.(inFlight := t.inFlight, refreshQueued := t.refreshQueued)
  {
    FinishedStays(s.(refreshQueued := true));
    FinishedStays(s);
  }

  lemma FirstPageLeads(server: Server, log: Log, s: Pager)
    requires Serves(server, log) && s.page == 1 && s.cursorStack == [""]
    ensures StackLeads(log, s)
  {
    assert log.cursors(s.query, 0) == "";
  }

  lemma BackLeads(log: Log, s: Pager)
    requires StackLeads(log, s) && s.page > 1
    ensures StackLeads(log, s.(page := s.page - 1))
  {
  }

  /** Every event but Next keeps the stack in order. */
  lemma OtherStepsLead(server: Server, log: Log, s: Pager, e: Event)
    requires Serves(server, log) && StackLeads(log, s) && Allowed(s, e) && !e.NextPage?
    ensures StackLeads(log, Handle(server, s, e))
  {
    var next := Handle(server, s, e);
    match e
    case LoadOk =>
      if Stale(s) {
        StaleStays(server, s);
        SameLeads(log, s, next);
      } else {
        AnswerSettles(server, log, s);
      }
    case LoadFail =>
      FinishedStays(s);
      SameLeads(log, s, next);
    case PreviousPage =>
      if s.page > 1 {
        BackLeads(log, s);
        SameLeads(log, s.(page := s.page - 1), next);
      }
    case QueryChange(q) =>
      var first := s.(query := q, page := 1, cursorStack := [""], nextCursor := None);
      FirstPageLeads(server, log, first);
      SameLeads(log, first, next);
    case RefreshNow => SameLeads(log, s, next);
  }

  lemma NextStepLeads(log: Log, s: Pager, m: nat)
    requires StackLeads(log, s) && ShowsPage(log, s, m) && (NextFits(s, m) || NextExists(log, s))
    ensures StackLeads(log, PagedForward(s))
  {
    if CursorSort(s.query.sort) && s.nextCursor.Some? {
      ForwardLeads(log, s);
    }
  }

  /** What is shown depends on these variables only. */
  lemma SameShows(log: Log, s: Pager, t: Pager, m: nat)
    requires ShowsPage(log, s, m) && t.query == s.query && t.shown == s.shown && t.total == s.total
    requires t.nextCursor == s.nextCursor
    ensures ShowsPage(log, t, m)
  {
  }

  // ------------------------------------------------------------------------ runs

  /** `lastLoaded`: the page of the last answer accepted for the current query, 0 before the first. */
  datatype Traced = Traced(view: Pager, lastLoaded: nat)

  predicate Accepts(s: Pager, e: Event) {
    e.LoadOk? && s.inFlight.Some? && !Stale(s)
  }

  function TraceNext(server: Server, t: Traced, e: Event): Traced {
    Traced(Handle(server, t.view, e),
           if Accepts(t.view, e) then t.view.page else if e.QueryChange? then 0 else t.lastLoaded)
  }

  function Trace(server: Server, query: Query, events: seq<Event>): Traced {
    if events == [] then Traced(Pager(query, 1, [""], None, 0, [], None, false), 0)
    else TraceNext(server, Trace(server, query, events[..|events| - 1]), events[|events| - 1])
  }

  predicate AllAllowed(server: Server, query: Query, events: seq<Event>) {
    events == []
    || (&& AllAllowed(server, query, events[..|events| - 1])
        && Allowed(Trace(server, query, events[..|events| - 1]).view, events[|events| - 1]))
  }

  /** Next is pressed only when it fits or, by offset, the page exists all the same. */
  predicate Orderly(server: Server, log: Log, query: Query, events: seq<Event>) {
    events == []
    || (&& Orderly(server, log, query, events[..|events| - 1])
        && var t := Trace(server, query, events[..|events| - 1]);
           events[|events| - 1].NextPage? ==> NextFits(t.view, t.lastLoaded) || NextExists(log, t.view))
  }

  /** Next is pressed only when it fits. */
  predicate Careful(server: Server, query: Query, events: seq<Event>) {
    events == []
    || (&& Careful(server, query, events[..|events| - 1])
        && var t := Trace(server, query, events[..|events| - 1]);
           events[|events| - 1].NextPage? ==> NextFits(t.view, t.lastLoaded))
  }

  lemma OtherShows(server: Server, log: Log, t: Traced, e: Event)
    requires ShowsPage(log, t.view, t.lastLoaded) && !Accepts(t.view, e) && Allowed(t.view, e)
    ensures ShowsPage(log, TraceNext(server, t, e).view, TraceNext(server, t, e).lastLoaded)
  {
    var s, next := t.view, Handle(server, t.view, e);
    match e
    case LoadOk =>
      StaleStays(server, s);
      SameShows(log, s, next, t.lastLoaded);
    case LoadFail =>
      FinishedStays(s);
      SameShows(log, s, next, t.lastLoaded);
    case QueryChange(q) =>
    case _ => SameShows(log, s, next, t.lastLoaded);
  }

  lemma StepShows(server: Server, log: Log, t: Traced, e: Event)
    requires Serves(server, log) && StackLeads(log, t.view) && ShowsPage(log, t.view, t.lastLoaded)
    requires Allowed(t.view, e)
    requires e.NextPage? ==> NextFits(t.view, t.lastLoaded) || NextExists(log, t.view)
    ensures StackLeads(log, TraceNext(server, t, e).view)
    ensures ShowsPage(log, TraceNext(server, t, e).view, TraceNext(server, t, e).lastLoaded)
  {
    if Accepts(t.view, e) {
      AnswerSettles(server, log, t.view);
    } else {
      OtherShows(server, log, t, e);
      if e.NextPage? {
        NextStepLeads(log, t.view, t.lastLoaded);
      } else {
        OtherStepsLead(server, log, t.view, e);
      }
    }
  }

  /** Over an unchanging log, after any orderly clicks, refreshes, query changes and failures: the view shows exactly
      the rows of the page last loaded, and every cursor on the stack is its page's. */
  lemma {:induction false} PagesShowTheirRows(server: Server, log: Log, query: Query, events: seq<Event>)
    requires Serves(server, log) && AllAllowed(server, query, events) && Orderly(server, log, query, events)
    ensures var t := Trace(server, query, events); StackLeads(log, t.view) && ShowsPage(log, t.view, t.lastLoaded)
  {
    if events == [] {
      FirstPageLeads(server, log, Trace(server, query, []).view);
    } else {
      var front := events[..|events| - 1];
      PagesShowTheirRows(server, log, query, front);
      StepShows(server, log, Trace(server, query, front), events[|events| - 1]);
    }
  }

  /** Every cursor is at its page, from the first event to the last. */
  ghost predicate AlwaysLeads(server: Server, log: Log, query: Query, events: seq<Event>) {
    && StackLeads(log, Trace(server, query, events).view)
    && (events != [] ==> AlwaysLeads(server, log, query, events[..|events| - 1]))
  }

  /** The condition is exact: the stack is in order all along if and only if Next was pressed only when it fits or the
      page exists all the same. */
  lemma {:induction false} OrderlyExactly(server: Server, log: Log, query: Query, events: seq<Event>)
    requires Serves(server, log) && DistinctCursors(log) && AllAllowed(server, query, events)
    ensures Orderly(server, log, query, events) <==> AlwaysLeads(server, log, query, events)
  {
    if events == [] {
      FirstPageLeads(server, log, Trace(server, query, []).view);
    } else {
      var front, e := events[..|events| - 1], events[|events| - 1];
      OrderlyExactly(server, log, query, front);
      if Orderly(server, log, query, front) {
        var t := Trace(server, query, front);
        PagesShowTheirRows(server, log, query, front);
        if e.NextPage? {
          NextLeadsExactly(log, t.view, t.lastLoaded);
        } else {
          OtherStepsLead(server, log, t.view, e);
        }
      }
    }
  }

  lemma {:induction false} CarefulIsOrderly(server: Server, log: Log, query: Query, events: seq<Event>)
    requires Careful(server, query, events)
    ensures Orderly(server, log, query, events)
  {
    if events != [] {
      CarefulIsOrderly(server, log, query, events[..|events| - 1]);
    }
  }

  /** Every Next of the session leads on whatever log the view stood for. */
  ghost predicate AlwaysSafe(server: Server, query: Query, events: seq<Event>) {
    events == []
    || (&& AlwaysSafe(server, query, events[..|events| - 1])
        && var t := Trace(server, query, events[..|events| - 1]);
           events[|events| - 1].NextPage? ==> NextSafe(t.view, t.lastLoaded))
  }

  /** A session is safe whatever the log exactly when Next was pressed only when it fits. */
  lemma {:induction false} CarefulExactly(server: Server, log: Log, query: Query, events: seq<Event>)
    requires Serves(server, log) && DistinctCursors(log) && AllAllowed(server, query, events)
    ensures Careful(server, query, events) <==> AlwaysSafe(server, query, events)
  {
    if events != [] {
      var front, e := events[..|events| - 1], events[|events| - 1];
      CarefulExactly(server, log, query, front);
      if Careful(server, query, front) && e.NextPage? {
        var t := Trace(server, query, front);
        CarefulIsOrderly(server, log, query, front);
        PagesShowTheirRows(server, log, query, front);
        NextSafeExactly(log, t.view, t.lastLoaded);
      }
    }
  }

  // ------------------------------------------------------- nothing is forgotten

  lemma StepKeepsDue(server: Server, log: Log, t: Traced, e: Event)
    requires Serves(server, log) && StackLeads(log, t.view) && Allowed(t.view, e) && !e.LoadFail?
    requires t.lastLoaded == t.view.page || LoadDue(t.view) || e.RefreshNow?
    ensures var next := TraceNext(server, t, e); next.lastLoaded == next.view.page || LoadDue(next.view)
  {
    if Accepts(t.view, e) {
      AnswerSettles(server, log, t.view);
    }
  }

  /** As long as no load fails, the page shown is the current one, or the current one is on its way. */
  lemma {:induction false} NothingForgotten(server: Server, log: Log, query: Query, events: seq<Event>)
    requires Serves(server, log) && AllAllowed(server, query, events) && Orderly(server, log, query, events)
    requires events != [] && events[0] == RefreshNow && forall i :: 0 <= i < |events| ==> events[i] != LoadFail
    ensures var t := Trace(server, query, events); t.lastLoaded == t.view.page || LoadDue(t.view)
  {
    var front := events[..|events| - 1];
    PagesShowTheirRows(server, log, query, front);
    if front != [] {
      NothingForgotten(server, log, query, front);
    }
    StepKeepsDue(server, log, Trace(server, query, front), events[|events| - 1]);
  }

  // ------------------------------------------------------------ where Next fails

  lemma SlicesDiffer(rows: seq<LogRow>, page: nat, other: nat)
    requires page > 0 && other > 0 && page != other && (page - 1) * QUERY_LOG_PAGE_SIZE < |rows|
    requires AllDistinct(rows)
    ensures Slice(rows, page) != Slice(rows, other)
  {
    var k, l := (page - 1) * QUERY_LOG_PAGE_SIZE, (other - 1) * QUERY_LOG_PAGE_SIZE;
    assert Slice(rows, page)[0] == rows[k];
    if l < |rows| {
      assert Slice(rows, other)[0] == rows[l];
    } else {
      assert Slice(rows, other) == [];
    }
  }

  lemma ForwardAsks(s: Pager)
    requires CursorSort(s.query.sort) && s.nextCursor.Some? && s.inFlight.None?
    ensures var next := PagedForward(s);
            && next.page == s.page + 1 && next.query == s.query && CursorFor(next) == s.nextCursor
            && next.inFlight.Some? && !Stale(next)
  {
  }

  /** Next shows the page behind the rows shown last, under the number behind the page counted last. */
  lemma NextShows(server: Server, log: Log, s: Pager, m: nat)
    requires Serves(server, log) && StackLeads(log, s) && ShowsPage(log, s, m) && CursorSort(s.query.sort)
    requires s.inFlight.None? && !s.refreshQueued && s.nextCursor.Some?
    ensures var t := Handle(server, Handle(server, s, NextPage), LoadOk);
            t.page == s.page + 1 && t.shown == Slice(log.rows(s.query), m + 1)
  {
    var q := s.query;
    var asked := AskedWith(log, q, m + 1);
    var next := PagedForward(s);
    ForwardAsks(s);
    assert ServesPage(server(q, s.page + 1, asked), log, q, m + 1, s.page + 1);
    var answer := server(q, s.page + 1, asked).value;
    FreshAnswer(server, next);
    FinishedStays(next.(page := answer.page, total := answer.total, nextCursor := answer.nextCursor,
                        shown := answer.records));
  }

  /** Pressed when it does not fit, with the cursor of another page's successor, Next counts one page and shows another:
      after a failed Next it shows the same rows again, after a failed Previous it skips a page. */
  lemma NextAfterFailureMiscounts(server: Server, log: Log, s: Pager, m: nat)
    requires Serves(server, log) && StackLeads(log, s) && ShowsPage(log, s, m) && CursorSort(s.query.sort)
    requires s.inFlight.None? && !s.refreshQueued && s.nextCursor.Some? && m != s.page
    requires AllDistinct(log.rows(s.query))
    ensures var t := Handle(server, Handle(server, s, NextPage), LoadOk);
            && t.page == s.page + 1 && t.shown == Slice(log.rows(s.query), m + 1)
            && t.shown != Slice(log.rows(s.query), t.page)
  {
    NextShows(server, log, s, m);
    SlicesDiffer(log.rows(s.query), m + 1, s.page + 1);
  }

  lemma TraceSnoc(server: Server, query: Query, front: seq<Event>, e: Event)
    ensures Trace(server, query, front + [e]) == TraceNext(server, Trace(server, query, front), e)
    ensures AllAllowed(server, query, front + [e])
       <==> AllAllowed(server, query, front) && Allowed(Trace(server, query, front).view, e)
  {
    assert (front + [e])[..|front|] == front;
  }

  /** The first page of a query, loaded. */
  function FirstPage(log: Log, q: Query): Pager {
    var rows := log.rows(q);
    Pager(q, 1, [""],
          if CursorSort(q.sort) && |rows| > QUERY_LOG_PAGE_SIZE then Some(log.cursors(q, 1)) else None,
          |rows|, Slice(rows, 1), None, false)
  }

  /** Up to the next cursor, which says nothing by offset. */
  ghost predicate LikeFirstPage(log: Log, q: Query, s: Pager) {
    s == FirstPage(log, q).(nextCursor := s.nextCursor)
    && (CursorSort(q.sort) ==> s == FirstPage(log, q))
  }

  lemma FirstLoad(server: Server, log: Log, q: Query)
    requires Serves(server, log)
    ensures AllAllowed(server, q, [RefreshNow, LoadOk])
    ensures var t := Trace(server, q, [RefreshNow, LoadOk]); t.lastLoaded == 1 && LikeFirstPage(log, q, t.view)
  {
    var start := Trace(server, q, []).view;
    TraceSnoc(server, q, [], RefreshNow);
    TraceSnoc(server, q, [RefreshNow], LoadOk);
    assert [] + [RefreshNow] == [RefreshNow] && [RefreshNow] + [LoadOk] == [RefreshNow, LoadOk];
    var asked := Refreshed(start);
    assert CursorFor(asked) == AskedWith(log, q, 1);
    assert ServesPage(server(q, 1, AskedWith(log, q, 1)), log, q, 1, 1);
    FreshAnswer(server, asked);
  }

  lemma FourEvents(server: Server, q: Query, a: Event, b: Event)
    ensures var first := Trace(server, q, [RefreshNow, LoadOk]);
            var t := Trace(server, q, [RefreshNow, LoadOk, a, b]);
            t == TraceNext(server, TraceNext(server, first, a), b)
            && (AllAllowed(server, q, [RefreshNow, LoadOk, a, b])
                <==> && AllAllowed(server, q, [RefreshNow, LoadOk]) && Allowed(first.view, a)
                     && Allowed(TraceNext(server, first, a).view, b))
  {
    TraceSnoc(server, q, [RefreshNow, LoadOk], a);
    TraceSnoc(server, q, [RefreshNow, LoadOk, a], b);
    assert [RefreshNow, LoadOk] + [a] == [RefreshNow, LoadOk, a];
    assert [RefreshNow, LoadOk, a] + [b] == [RefreshNow, LoadOk, a, b];
  }

  /** A failed Next leads to such a view, on every log with more than one page. */
  lemma FailedNextHappens(server: Server, log: Log, q: Query)
    requires Serves(server, log) && CursorSort(q.sort) && |log.rows(q)| > QUERY_LOG_PAGE_SIZE
    ensures var events := [RefreshNow, LoadOk, NextPage, LoadFail];
            var t := Trace(server, q, events);
            && AllAllowed(server, q, events) && Careful(server, q, events)
            && t.view.page == 2 && t.lastLoaded == 1 && t.view.nextCursor.Some?
            && t.view.inFlight.None? && !t.view.refreshQueued && !NextFits(t.view, t.lastLoaded)
  {
    FirstLoad(server, log, q);
    FourEvents(server, q, NextPage, LoadFail);
    CarefulFour(server, q, NextPage, LoadFail);
    var shown := FirstPage(log, q);
    ForwardAsks(shown);
    FinishedStays(PagedForward(shown));
  }

  lemma CarefulFour(server: Server, q: Query, a: Event, b: Event)
    requires !b.NextPage?
    requires var first := Trace(server, q, [RefreshNow, LoadOk]);
             a.NextPage? ==> NextFits(first.view, first.lastLoaded)
    ensures Careful(server, q, [RefreshNow, LoadOk, a, b])
  {
    assert [RefreshNow, LoadOk, a, b][..3] == [RefreshNow, LoadOk, a];
    assert [RefreshNow, LoadOk, a][..2] == [RefreshNow, LoadOk];
    assert [RefreshNow, LoadOk][..1] == [RefreshNow] && [RefreshNow][..0] == [];
    assert Careful(server, q, [RefreshNow]);
    assert Careful(server, q, [RefreshNow, LoadOk]);
    assert Careful(server, q, [RefreshNow, LoadOk, a]);
  }

  /** A changed query does not reset the total: when its first load fails, Next in an offset sort goes by the total of
      the query before, to a page that does not exist. */
  lemma StaleTotalHappens(server: Server, log: Log, q: Query, q2: Query)
    requires Serves(server, log) && !CursorSort(q2.sort)
    requires |log.rows(q2)| <= QUERY_LOG_PAGE_SIZE < |log.rows(q)|
    ensures var events := [RefreshNow, LoadOk, QueryChange(q2), LoadFail];
            var t := Trace(server, q, events);
            && AllAllowed(server, q, events) && Careful(server, q, events)
            && t.view.query == q2 && t.lastLoaded == 0 && t.view.inFlight.None? && !t.view.refreshQueued
            && t.view.page == 1 < TotalPages(t.view.total)
            && StackLeads(log, t.view) && !NextFits(t.view, t.lastLoaded)
            && PagedForward(t.view).page == 2 && !StackLeads(log, PagedForward(t.view))
  {
    FirstLoad(server, log, q);
    FourEvents(server, q, QueryChange(q2), LoadFail);
    CarefulFour(server, q, QueryChange(q2), LoadFail);
    var shown := Trace(server, q, [RefreshNow, LoadOk]).view;
    var changed := Requeried(shown, q2);
    assert changed == shown.(query := q2, page := 1, cursorStack := [""], nextCursor := None,
                             inFlight := Some(Request(q2, 1, None)));
    assert Finished(changed) == changed.(inFlight := None);
  }

  // ------------------------------------------------- the handlers run through it all

  method Dispatch(view: QueryLogView, server: Server, e: Event)
    modifies view
    ensures view.View() == Handle(server, old(view.View()), e)
  {
    match e {
      case NextPage => view.OnNext();
      case PreviousPage => view.OnPrevious();
      case QueryChange(q) => view.OnQueryChange(q);
      case RefreshNow => view.RefreshQueryLogs();
      case LoadFail => view.Finish();
      case LoadOk =>
        if view.inFlight.Some? {
          var request := view.inFlight.value;
          var answer := server(request.query, request.page, request.cursor);
          if answer.Ok? {
            view.OnAnswer(answer.value);
          } else {
            view.Finish();
          }
        }
    }
  }

  /** A session with the view: what its variables hold in the end. */
  method Session(server: Server, ghost log: Log, query: Query, events: seq<Event>)
    returns (view: QueryLogView, lastLoaded: nat)
    requires Serves(server, log) && AllAllowed(server, query, events) && Orderly(server, log, query, events)
    ensures view.query == Trace(server, query, events).view.query
    ensures lastLoaded > 0 ==> view.shown == Slice(log.rows(view.query), lastLoaded)
    ensures lastLoaded > 0 ==> view.total == |log.rows(view.query)|
    ensures CursorSort(view.query.sort) ==> forall i :: 0 <= i < |view.cursorStack| ==>
              view.cursorStack[i] == log.cursors(view.query, i)
  {
    view := new QueryLogView(query);
    lastLoaded := 0;
    assert events[..0] == [];
    for i := 0 to |events|
      invariant fresh(view) && Traced(view.View(), lastLoaded) == Trace(server, query, events[..i])
    {
      assert events[..i + 1][..i] == events[..i];
      lastLoaded :=
        if Accepts(Shown(view), events[i]) then view.page
        else if events[i].QueryChange? then 0
        else lastLoaded;
      Dispatch(view, server, events[i]);
    }
    assert events[..|events|] == events;
    PagesShowTheirRows(server, log, query, events);
  }

  function Shown(view: QueryLogView): Pager
    reads view
  {
    Pager(view.query, view.page, view.cursorStack, view.nextCursor, view.total, view.shown, view.inFlight,
          view.refreshQueued)
  }

  // ------------------------------------------------------- the page query serves

  type Store = Query -> set<LogRow>

  ghost predicate ValidStore(store: Store) {
    forall q :: ValidTable(store(q))
  }

  ghost function StoreServer(store: Store): Server
    requires ValidStore(store)
  {
    (q: Query, page: nat, cursor: Option<string>) => PageOf(store(q), q.sort, cursor, page, QUERY_LOG_PAGE_SIZE)
  }

  ghost function StoreLog(store: Store): Log
    requires ValidStore(store)
  {
    Log((q: Query) => Ranked(q.sort, store(q)),
        (q: Query, page: nat) => CursorBefore(Ranked(q.sort, store(q)), q.sort, page * QUERY_LOG_PAGE_SIZE))
  }

  lemma StoreCursor(store: Store, q: Query, page: nat)
    requires ValidStore(store)
    ensures StoreLog(store).rows(q) == Ranked(q.sort, store(q))
    ensures StoreLog(store).cursors(q, page)
         == CursorBefore(Ranked(q.sort, store(q)), q.sort, page * QUERY_LOG_PAGE_SIZE)
  {
  }

  /** What a server answers for a page, over these rows. */
  function PageAnswer(rows: seq<LogRow>, sort: Sort, page: nat, n: nat): Result<Page, string>
    requires page > 0
  {
    Ok(Page(Slice(rows, page), |rows|, n, QUERY_LOG_PAGE_SIZE,
            if CursorSort(sort) && page * QUERY_LOG_PAGE_SIZE < |rows|
            then Some(CursorBefore(rows, sort, page * QUERY_LOG_PAGE_SIZE)) else None))
  }

  lemma PageAnswerServes(store: Store, q: Query, page: nat, n: nat, answer: Result<Page, string>)
    requires ValidStore(store) && page > 0 && answer == PageAnswer(Ranked(q.sort, store(q)), q.sort, page, n)
    ensures ServesPage(answer, StoreLog(store), q, page, n)
  {
    StoreCursor(store, q, page);
  }

  lemma PageAnswerAt(rows: seq<LogRow>, sort: Sort, page: nat, n: nat, k: nat)
    requires page > 0 && CursorSort(sort) && k == (page - 1) * QUERY_LOG_PAGE_SIZE
    ensures Ok(Page(Take(Drop(rows, k), QUERY_LOG_PAGE_SIZE), |rows|, n, QUERY_LOG_PAGE_SIZE,
                    if k + QUERY_LOG_PAGE_SIZE < |rows| then Some(CursorBefore(rows, sort, k + QUERY_LOG_PAGE_SIZE))
                    else None))
         == PageAnswer(rows, sort, page, n)
  {
  }

  /** The cursor before a page of a table. */
  function AskedBefore(rows: seq<LogRow>, sort: Sort, page: nat): Option<string>
    requires page > 0
  {
    if CursorSort(sort) then Some(CursorBefore(rows, sort, (page - 1) * QUERY_LOG_PAGE_SIZE)) else None
  }

  /** The page query gives this answer by the cursor before the page. */
  lemma CursorAnswers(matched: set<LogRow>, sort: Sort, page: nat, n: nat)
    requires ValidTable(matched) && page > 0 && n > 0 && CursorSort(sort)
    requires (page - 1) * QUERY_LOG_PAGE_SIZE <= |matched|
    ensures PageOf(matched, sort, AskedBefore(Ranked(sort, matched), sort, page), n, QUERY_LOG_PAGE_SIZE)
         == PageAnswer(Ranked(sort, matched), sort, page, n)
  {
    var k := (page - 1) * QUERY_LOG_PAGE_SIZE;
    AnswerAt(matched, sort, k, n, QUERY_LOG_PAGE_SIZE);
    PageAnswerAt(Ranked(sort, matched), sort, page, n, k);
  }

  /** Or by the page's number. */
  lemma NumberAnswers(matched: set<LogRow>, sort: Sort, page: nat)
    requires ValidTable(matched) && page > 0 && !CursorSort(sort)
    ensures PageOf(matched, sort, AskedBefore(Ranked(sort, matched), sort, page), page, QUERY_LOG_PAGE_SIZE)
         == PageAnswer(Ranked(sort, matched), sort, page, page)
  {
    OffsetAnswer(matched, sort, page, QUERY_LOG_PAGE_SIZE);
  }

  lemma AnswersPage(matched: set<LogRow>, sort: Sort, page: nat, n: nat)
    requires ValidTable(matched) && page > 0 && n > 0 && (CursorSort(sort) || n == page)
    requires (page - 1) * QUERY_LOG_PAGE_SIZE <= |matched|
    ensures PageOf(matched, sort, AskedBefore(Ranked(sort, matched), sort, page), n, QUERY_LOG_PAGE_SIZE)
         == PageAnswer(Ranked(sort, matched), sort, page, n)
  {
    if CursorSort(sort) {
      CursorAnswers(matched, sort, page, n);
    } else {
      NumberAnswers(matched, sort, page);
    }
  }

  lemma StoreAsks(store: Store, q: Query, page: nat)
    requires ValidStore(store) && page > 0
    ensures AskedWith(StoreLog(store), q, page) == AskedBefore(Ranked(q.sort, store(q)), q.sort, page)
  {
    StoreCursor(store, q, page - 1);
  }

  lemma StoreServesPage(store: Store, q: Query, page: nat, n: nat)
    requires ValidStore(store) && page > 0 && n > 0 && (CursorSort(q.sort) || n == page)
    requires InRange(Ranked(q.sort, store(q)), page)
    ensures ServesPage(PageOf(store(q), q.sort, AskedWith(StoreLog(store), q, page), n, QUERY_LOG_PAGE_SIZE),
                       StoreLog(store), q, page, n)
  {
    AnswersPage(store(q), q.sort, page, n);
    StoreAsks(store, q, page);
    PageAnswerServes(store, q, page, n, PageAnswer(Ranked(q.sort, store(q)), q.sort, page, n));
  }

  /** The query of the database is such a server for the rankings of its matching rows. */
  lemma StoreServes(store: Store)
    requires ValidStore(store)
    ensures Serves(StoreServer(store), StoreLog(store))
  {
    var server, log := StoreServer(store), StoreLog(store);
    forall q: Query, page: nat, n: nat | InRange(log.rows(q), page) && n > 0 && (CursorSort(q.sort) || n == page)
      ensures ServesPage(server(q, n, AskedWith(log, q, page)), log, q, page, n)
    {
      StoreServesPage(store, q, page, n);
    }
    forall q: Query ensures log.cursors(q, 0) == "" {
    }
  }

  lemma EmptyAnswer(matched: set<LogRow>, sort: Sort)
    requires ValidTable(matched) && !CursorSort(sort) && |matched| <= QUERY_LOG_PAGE_SIZE
    ensures PageOf(matched, sort, None, 2, QUERY_LOG_PAGE_SIZE)
         == Ok(Page([], |matched|, 2, QUERY_LOG_PAGE_SIZE, None))
  {
    OffsetAnswer(matched, sort, 2, QUERY_LOG_PAGE_SIZE);
  }

  lemma OffsetForward(server: Server, s: Pager, answer: Page)
    requires !CursorSort(s.query.sort) && s.page < TotalPages(s.total) && s.inFlight.None? && !s.refreshQueued
    requires server(s.query, s.page + 1, None) == Ok(answer)
    ensures var t := Handle(server, PagedForward(s), LoadOk); t.page == answer.page && t.shown == answer.records
  {
    FreshAnswer(server, PagedForward(s));
    FinishedStays(PagedForward(s).(page := answer.page, total := answer.total, nextCursor := answer.nextCursor,
                                   shown := answer.records));
  }

  /** With a total left from another query, Next shows an empty second page. */
  lemma StaleTotalShowsNothing(store: Store, s: Pager)
    requires ValidStore(store) && !CursorSort(s.query.sort) && |store(s.query)| <= QUERY_LOG_PAGE_SIZE
    requires s.page == 1 < TotalPages(s.total) && s.inFlight.None? && !s.refreshQueued
    ensures var t := Handle(StoreServer(store), PagedForward(s), LoadOk); t.page == 2 && t.shown == []
  {
    EmptyAnswer(store(s.query), s.query.sort);
    OffsetForward(StoreServer(store), s, Page([], |store(s.query)|, 2, QUERY_LOG_PAGE_SIZE, None));
  }

  /** Over any list of a table's rows without repeats. */
  lemma RowsApart(matched: set<LogRow>, rows: seq<LogRow>, k: nat, l: nat)
    requires ValidTable(matched) && AllDistinct(rows) && k < l <= |rows| && (forall x :: x in rows ==> x in matched)
    ensures PositionAt(rows, k) != PositionAt(rows, l)
  {
    if k > 0 {
      assert rows[k - 1] in rows && rows[l - 1] in rows && rows[k - 1] != rows[l - 1];
    }
  }

  lemma PositionsDiffer(matched: set<LogRow>, sort: Sort, k: nat, l: nat)
    requires ValidTable(matched) && k < l <= |matched|
    ensures PositionAt(Ranked(sort, matched), k) != PositionAt(Ranked(sort, matched), l)
  {
    var rows := Ranked(sort, matched);
    RankedInOrder(sort, matched);
    OrderedDistinct(sort, rows);
    RowsApart(matched, rows, k, l);
  }

  /** Its cursors differ from page to page, as no two rows share a position. */
  lemma CursorsDiffer(matched: set<LogRow>, sort: Sort, k: nat, l: nat)
    requires ValidTable(matched) && CursorSort(sort) && k < l <= |matched|
    ensures CursorBefore(Ranked(sort, matched), sort, k) != CursorBefore(Ranked(sort, matched), sort, l)
  {
    CursorBeforeParses(matched, sort, k);
    CursorBeforeParses(matched, sort, l);
    PositionsDiffer(matched, sort, k, l);
  }

  lemma StoreCursorsApart(store: Store, q: Query, i: nat, j: nat)
    requires ValidStore(store)
    ensures CursorsApart(StoreLog(store), q, i, j)
  {
    StoreCursor(store, q, i);
    StoreCursor(store, q, j);
    if CursorSort(q.sort) && i < j && InRange(Ranked(q.sort, store(q)), j + 1) {
      CursorsDiffer(store(q), q.sort, i * QUERY_LOG_PAGE_SIZE, j * QUERY_LOG_PAGE_SIZE);
    }
  }

  lemma StoreCursorsDistinct(store: Store)
    requires ValidStore(store)
    ensures DistinctCursors(StoreLog(store))
  {
    forall q: Query, i: nat, j: nat ensures CursorsApart(StoreLog(store), q, i, j) {
      StoreCursorsApart(store, q, i, j);
    }
  }
}
