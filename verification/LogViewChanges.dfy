/** The log view over a log that changes: going from page to page never goes back. */
module LogViewChanges {
  import opened Wrappers
  import opened QueryLog
  import opened LogPaging
  import opened LogPager
  import opened LogPagerRuns

  /** An event, and the rows each query matches when it is handled. */
  datatype Moment = Moment(event: Event, store: Store)

  ghost predicate ValidMoments(moments: seq<Moment>) {
    forall i :: 0 <= i < |moments| ==> ValidStore(moments[i].store)
  }

  ghost function HandleAt(s: Pager, m: Moment): Pager
    requires ValidStore(m.store)
  {
    Handle(StoreServer(m.store), s, m.event)
  }

  ghost function View(query: Query, moments: seq<Moment>): Pager
    requires ValidMoments(moments)
  {
    if moments == [] then Pager(query, 1, [""], None, 0, [], None, false)
    else HandleAt(View(query, moments[..|moments| - 1]), moments[|moments| - 1])
  }

  /** In the cursor sorts a next cursor is that of the last row shown, and the rows shown are in order. */
  ghost predicate Onward(s: Pager) {
    CursorSort(s.query.sort) && s.nextCursor.Some? ==>
      && s.shown != [] && InOrder(s.query.sort, s.shown)
      && ParseCursor(s.nextCursor, s.query.sort) == Ok(Some(PositionOf(s.shown[|s.shown| - 1])))
  }

  /** Rows of an answer to a cursor: in order, behind its position, and its next cursor that of the last one. */
  lemma AnswerGoesOn(matched: set<LogRow>, sort: Sort, cursor: string, n: nat, answer: Page)
    requires ValidTable(matched) && CursorSort(sort)
    requires PageOf(matched, sort, Some(cursor), n, QUERY_LOG_PAGE_SIZE) == Ok(answer)
    ensures ParseCursor(Some(cursor), sort).Ok? && InOrder(sort, answer.records)
    ensures forall r :: r in answer.records ==> Past(sort, ParseCursor(Some(cursor), sort).value, r)
    ensures answer.nextCursor.Some? ==>
              && answer.records != []
              && ParseCursor(answer.nextCursor, sort)
                 == Ok(Some(PositionOf(answer.records[|answer.records| - 1])))
  {
    var p := ParseCursor(Some(cursor), sort).value;
    CursorPage(matched, sort, cursor, p, n, QUERY_LOG_PAGE_SIZE);
    CutInOrder(matched, sort, p, QUERY_LOG_PAGE_SIZE);
    CutHandsOnLast(matched, sort, p, QUERY_LOG_PAGE_SIZE);
  }

  /** The invariant depends on these variables only. */
  lemma SameOnward(s: Pager, t: Pager)
    requires Onward(s) && t.query == s.query && t.shown == s.shown && t.nextCursor == s.nextCursor
    ensures Onward(t)
  {
  }

  lemma AcceptedOnward(s: Pager, store: Store)
    requires ValidStore(store) && s.inFlight.Some? && !Stale(s)
    requires StoreServer(store)(s.query, s.page, CursorFor(s)).Ok?
    ensures Onward(Handle(StoreServer(store), s, LoadOk))
  {
    var answer := StoreServer(store)(s.query, s.page, CursorFor(s)).value;
    var filled := s.(page := answer.page, total := answer.total, nextCursor := answer.nextCursor,
                     shown := answer.records);
    FreshAnswer(StoreServer(store), s);
    FinishedStays(filled);
    if CursorSort(s.query.sort) {
      AnswerGoesOn(store(s.query), s.query.sort, CursorFor(s).value, s.page, answer);
    }
    SameOnward(filled, Finished(filled));
  }

  lemma MomentKeepsOnward(s: Pager, m: Moment)
    requires ValidStore(m.store) && Onward(s)
    ensures Onward(HandleAt(s, m))
  {
    var server, t := StoreServer(m.store), HandleAt(s, m);
    match m.event
    case LoadOk =>
      if s.inFlight.Some? && !Stale(s) && server(s.query, s.page, CursorFor(s)).Ok? {
        AcceptedOnward(s, m.store);
      } else {
        FinishedStays(s);
        FinishedStays(s.(refreshQueued := true));
        SameOnward(s, t);
      }
    case LoadFail =>
      FinishedStays(s);
      SameOnward(s, t);
    case QueryChange(_) =>
    case _ => SameOnward(s, t);
  }

  lemma {:induction false} ViewOnward(query: Query, moments: seq<Moment>)
    requires ValidMoments(moments)
    ensures Onward(View(query, moments))
  {
    if moments != [] {
      ViewOnward(query, moments[..|moments| - 1]);
      MomentKeepsOnward(View(query, moments[..|moments| - 1]), moments[|moments| - 1]);
    }
  }

  lemma EventKeepsQueue(server: Server, s: Pager, e: Event)
    requires s.refreshQueued ==> s.inFlight.Some?
    ensures Handle(server, s, e).refreshQueued ==> Handle(server, s, e).inFlight.Some?
  {
  }

  /** A refresh is queued only behind a request. */
  lemma {:induction false} QueuedBehind(query: Query, moments: seq<Moment>)
    requires ValidMoments(moments)
    ensures View(query, moments).refreshQueued ==> View(query, moments).inFlight.Some?
  {
    if moments != [] {
      var front, last := moments[..|moments| - 1], moments[|moments| - 1];
      QueuedBehind(query, front);
      EventKeepsQueue(StoreServer(last.store), View(query, front), last.event);
    }
  }

  lemma BehindLast(sort: Sort, shown: seq<LogRow>, a: LogRow, b: LogRow)
    requires CursorSort(sort) && InOrder(sort, shown) && a in shown
    requires Past(sort, Some(PositionOf(shown[|shown| - 1])), b)
    ensures Precedes(sort, a, b)
  {
    var i :| 0 <= i < |shown| && shown[i] == a;
    BeyondIsPrecedes(sort, shown[|shown| - 1], b);
    if i < |shown| - 1 {
      Transitive(sort, a, shown[|shown| - 1], b);
    }
  }

  lemma AnswerExists(matched: set<LogRow>, sort: Sort, cursor: string, n: nat) returns (answer: Page)
    requires ValidTable(matched) && CursorSort(sort) && ParseCursor(Some(cursor), sort).Ok?
    ensures PageOf(matched, sort, Some(cursor), n, QUERY_LOG_PAGE_SIZE) == Ok(answer)
  {
    answer := PageOf(matched, sort, Some(cursor), n, QUERY_LOG_PAGE_SIZE).value;
  }

  lemma AnswerBehind(matched: set<LogRow>, sort: Sort, shown: seq<LogRow>, cursor: string, n: nat, answer: Page,
                     a: LogRow, b: LogRow)
    requires ValidTable(matched) && CursorSort(sort) && InOrder(sort, shown) && a in shown && b in answer.records
    requires ParseCursor(Some(cursor), sort) == Ok(Some(PositionOf(shown[|shown| - 1])))
    requires PageOf(matched, sort, Some(cursor), n, QUERY_LOG_PAGE_SIZE) == Ok(answer)
    ensures Precedes(sort, a, b)
  {
    AnswerGoesOn(matched, sort, cursor, n, answer);
    BehindLast(sort, shown, a, b);
  }

  /** Next asks with the next cursor, and shows what it is answered. */
  lemma NextShown(server: Server, s: Pager, answer: Page)
    requires CursorSort(s.query.sort) && s.inFlight.None? && !s.refreshQueued && s.nextCursor.Some?
    requires server(s.query, s.page + 1, s.nextCursor) == Ok(answer)
    ensures Handle(server, PagedForward(s), LoadOk).shown == answer.records
  {
    var next := PagedForward(s);
    ForwardAsks(s);
    FreshAnswer(server, next);
    FinishedStays(next.(page := answer.page, total := answer.total, nextCursor := answer.nextCursor,
                        shown := answer.records));
  }

  lemma NextAnswered(s: Pager, store: Store) returns (answer: Page)
    requires ValidStore(store) && CursorSort(s.query.sort) && s.inFlight.None? && !s.refreshQueued
    requires s.nextCursor.Some? && ParseCursor(s.nextCursor, s.query.sort).Ok?
    ensures PageOf(store(s.query), s.query.sort, s.nextCursor, s.page + 1, QUERY_LOG_PAGE_SIZE) == Ok(answer)
    ensures Handle(StoreServer(store), PagedForward(s), LoadOk).shown == answer.records
  {
    answer := AnswerExists(store(s.query), s.query.sort, s.nextCursor.value, s.page + 1);
    NextShown(StoreServer(store), s, answer);
  }

  lemma NextFollows(s: Pager, store: Store, answer: Page, a: LogRow, b: LogRow)
    requires ValidStore(store) && Onward(s) && CursorSort(s.query.sort) && s.nextCursor.Some?
    requires PageOf(store(s.query), s.query.sort, s.nextCursor, s.page + 1, QUERY_LOG_PAGE_SIZE) == Ok(answer)
    requires a in s.shown && b in answer.records
    ensures Precedes(s.query.sort, a, b)
  {
    AnswerBehind(store(s.query), s.query.sort, s.shown, s.nextCursor.value, s.page + 1, answer, a, b);
  }

  /** Whatever is inserted or deleted between the events, and whatever failed before: in the cursor sorts, each row the
      page behind Next shows comes strictly after each row shown when it was pressed. */
  lemma NextGoesOn(query: Query, moments: seq<Moment>, store: Store, a: LogRow, b: LogRow)
    requires ValidMoments(moments) && ValidStore(store)
    requires var s := View(query, moments);
             && CursorSort(s.query.sort) && s.inFlight.None? && s.nextCursor.Some?
             && a in s.shown && b in Handle(StoreServer(store), PagedForward(s), LoadOk).shown
    ensures Precedes(View(query, moments).query.sort, a, b)
  {
    ViewOnward(query, moments);
    QueuedBehind(query, moments);
    var answer := NextAnswered(View(query, moments), store);
    NextFollows(View(query, moments), store, answer, a, b);
  }
}
