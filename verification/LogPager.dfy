/** The query log view's pagination: the page number, the stack of cursors and the one request in flight. */
module LogPager {
  import opened Wrappers
  import opened QueryLog

  const QUERY_LOG_PAGE_SIZE := 50

  datatype Query = Query(sort: Sort, filter: string)

  datatype Request = Request(query: Query, page: nat, cursor: Option<string>)

  /** The module-level variables of the view. */
  datatype Pager = Pager(query: Query, page: nat, cursorStack: seq<string>, nextCursor: Option<string>, total: nat,
                         shown: seq<LogRow>, inFlight: Option<Request>, refreshQueued: bool)

  function StackEntry(stack: seq<string>, i: int): string {
    if 0 <= i < |stack| then stack[i] else ""
  }

  function CursorFor(s: Pager): Option<string> {
    if CursorSort(s.query.sort) then Some(StackEntry(s.cursorStack, s.page - 1)) else None
  }

  function CurrentRequest(s: Pager): Request {
    Request(s.query, s.page, CursorFor(s))
  }

  /** `refreshQueryLogs` up to its request. */
  function Refreshed(s: Pager): Pager {
    if s.inFlight.Some? then s.(refreshQueued := true) else s.(inFlight := Some(CurrentRequest(s)))
  }

  /** Its `finally` block. */
  function Finished(s: Pager): Pager {
    var idle := s.(inFlight := None);
    if idle.refreshQueued then Refreshed(idle.(refreshQueued := false)) else idle
  }

  predicate Stale(s: Pager) {
    s.inFlight != Some(CurrentRequest(s))
  }

  /** The answer arrives: a stale one is dropped and asked for again. */
  function Answered(s: Pager, answer: Page): Pager {
    if Stale(s) then Finished(s.(refreshQueued := true))
    else
      Finished(s.(page := answer.page, total := answer.total, nextCursor := answer.nextCursor,
                  shown := answer.records))
  }

  function TotalPages(total: nat): nat {
    var pages := (total + QUERY_LOG_PAGE_SIZE - 1) / QUERY_LOG_PAGE_SIZE;
    if pages < 1 then 1 else pages
  }

  /** The least number of pages of 50 rows, at least one, that hold all rows. */
  lemma TotalPagesLeast(total: nat, pages: nat)
    ensures pages >= TotalPages(total) <==> pages >= 1 && pages * 50 >= total
  {
  }

  /** Assigning a JavaScript array element and cutting the array off behind it. */
  function PushAt(stack: seq<string>, i: nat, cursor: string): seq<string> {
    (if i <= |stack| then stack[..i] else stack + seq(i - |stack|, _ => "")) + [cursor]
  }

  function PagedForward(s: Pager): Pager {
    if CursorSort(s.query.sort) then
      if s.nextCursor.None? then s
      else Refreshed(s.(cursorStack := PushAt(s.cursorStack, s.page, s.nextCursor.value), page := s.page + 1))
    else if s.page >= TotalPages(s.total) then s
    else Refreshed(s.(page := s.page + 1))
  }

  function PagedBack(s: Pager): Pager {
    if s.page <= 1 then s else Refreshed(s.(page := s.page - 1))
  }

  function Requeried(s: Pager, query: Query): Pager {
    Refreshed(s.(query := query, page := 1, cursorStack := [""], nextCursor := None))
  }

  /** The current page is on its way: its request is in flight, or goes out after the one that is. */
  predicate LoadDue(s: Pager) {
    s.inFlight.Some? && (s.refreshQueued || !Stale(s))
  }

  /** The handlers, changing the variables in place. */
  class QueryLogView {
    var query: Query
    var page: nat
    var cursorStack: seq<string>
    var nextCursor: Option<string>
    var total: nat
    var shown: seq<LogRow>
    var inFlight: Option<Request>
    var refreshQueued: bool

    ghost function View(): Pager
      reads this
    {
      Pager(query, page, cursorStack, nextCursor, total, shown, inFlight, refreshQueued)
    }

    constructor (query: Query)
      ensures View() == Pager(query, 1, [""], None, 0, [], None, false)
    {
      this.query, page, cursorStack, nextCursor, total, shown := query, 1, [""], None, 0, [];
      inFlight, refreshQueued := None, false;
    }

    method RefreshQueryLogs()
      modifies this
      ensures View() == Refreshed(old(View())) && LoadDue(View())
      ensures old(inFlight).Some? ==> inFlight == old(inFlight)
    {
      if inFlight.Some? {
        refreshQueued := true;
        return;
      }
      var cursor := if CursorSort(query.sort) then Some(StackEntry(cursorStack, page - 1)) else None;
      inFlight := Some(Request(query, page, cursor));
    }

    method Finish()
      modifies this
      ensures View() == Finished(old(View())) && (old(refreshQueued) ==> LoadDue(View()))
    {
      inFlight := None;
      if refreshQueued {
        refreshQueued := false;
        RefreshQueryLogs();
      }
    }

    method OnAnswer(answer: Page)
      modifies this
      ensures View() == Answered(old(View()), answer)
      ensures old(Stale(View())) ==> LoadDue(View()) && shown == old(shown) && page == old(page)
    {
      var cursor := if CursorSort(query.sort) then Some(StackEntry(cursorStack, page - 1)) else None;
      if inFlight != Some(Request(query, page, cursor)) {
        refreshQueued := true;
      } else {
        page, total, nextCursor, shown := answer.page, answer.total, answer.nextCursor, answer.records;
      }
      Finish();
    }

    method OnNext()
      modifies this
      ensures View() == PagedForward(old(View()))
      ensures page != old(page) ==> LoadDue(View())
      ensures CursorSort(query.sort) && 0 < old(page) <= |old(cursorStack)| ==> old(cursorStack[..page]) <= cursorStack
    {
      if CursorSort(query.sort) {
        if nextCursor.None? {
          return;
        }
        cursorStack := PushAt(cursorStack, page, nextCursor.value);
      } else if page >= TotalPages(total) {
        return;
      }
      page := page + 1;
      RefreshQueryLogs();
    }

    method OnPrevious()
      modifies this
      ensures View() == PagedBack(old(View()))
      ensures page != old(page) ==> LoadDue(View()) && cursorStack == old(cursorStack)
    {
      if page <= 1 {
        return;
      }
      page := page - 1;
      RefreshQueryLogs();
    }

    method OnQueryChange(query: Query)
      modifies this
      ensures View() == Requeried(old(View()), query) && LoadDue(View())
    {
      this.query, page, cursorStack, nextCursor := query, 1, [""], None;
      RefreshQueryLogs();
    }
  }
}
