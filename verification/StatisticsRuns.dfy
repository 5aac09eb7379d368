/** What holds over whole runs of the statistics store. */
module StatisticsRuns {
  import opened Wrappers
  import opened Sums
  import opened Statistics
  import opened StatisticsStore

  // ------------------------------------------ the lifetime table is a ledger

  datatype Batch = Batch(entries: seq<QueryEvent>, now: nat)

  /** The hourly rows of the last switch to permanent statistics, and the batches written since. */
  datatype Ledger = Ledger(rebuiltFrom: Stats, batches: seq<Batch>)

  const NO_LEDGER := Ledger(map[], [])

  /** Whether a save makes a finite setting permanent. */
  predicate TurnsPermanent(s: State, step: Step)
    requires step.SaveConfig?
  {
    Saves(step) && step.retentionHours == 0 && Setting(s) != 0
  }

  /** What is written, cleared and switched, whatever the cached setting says. */
  ghost function LedgerNext(g: Ledger, s: State, step: Step): Ledger {
    match step
    case InsertQueryEvents(entries, now, _) =>
      if Inserts(s, step) then g.(batches := g.batches + [Batch(entries, now)]) else g
    case SaveConfig(_, now, _) =>
      if TurnsPermanent(s, step) then Ledger(Window(s.hourly, SinceHour(now, Setting(s))), []) else g
    case ClearStatistics(commits) => if commits then NO_LEDGER else g
    case PruneExpired(_, _, _) => g
    case LoadConfig => g
    case Reopen => g
  }

  ghost function RunLedger(g: Ledger, s: State, steps: seq<Step>): Ledger {
    if steps == [] then g
    else LedgerNext(RunLedger(g, s, steps[..|steps| - 1]), Run(s, steps[..|steps| - 1]), steps[|steps| - 1])
  }

  /** Plain sum of what one batch's events add to a counter. */
  ghost function BatchRecord(b: Batch, lk: LifetimeKey, c: Counter): nat {
    Tally(b.entries, lk.dimension, lk.value, c)
  }

  ghost function Recorded(batches: seq<Batch>, lk: LifetimeKey, c: Counter): nat {
    if batches == [] then 0
    else Recorded(batches[..|batches| - 1], lk, c) + BatchRecord(batches[|batches| - 1], lk, c)
  }

  /** The rebuild's group sum, which leaves bytes out, plus everything recorded since. */
  ghost function Expected(g: Ledger, lk: LifetimeKey, c: Counter): nat {
    (if c.IsBytes() then 0 else RowsSum(g.rebuiltFrom, lk, c)) + Recorded(g.batches, lk, c)
  }

  ghost predicate Refines(s: State, g: Ledger) {
    forall lk: LifetimeKey, c: Counter :: Count(LifetimeStats(s.lifetime, lk), c) == Expected(g, lk, c)
  }

  lemma FitsCount(k: HourlyStatKey, d: StatDelta, c: Counter)
    requires Fits(k, d)
    ensures Count(d, c) < I64_LIMIT
  {
  }

  /** A batch that was written was not saturated: its rows hold the plain sums. */
  lemma WrittenIsPlain(entries: seq<QueryEvent>, now: nat, k: HourlyStatKey, c: Counter)
    requires forall x :: x in Aggregate(entries, now) ==> Fits(x, Aggregate(entries, now)[x])
    ensures Count(Lookup(Aggregate(entries, now), k), c)
         == if k.hour == now / 3600 then Tally(entries, k.dimension, k.value, c) else 0
  {
    EventsTally(entries, now / 3600, k, c);
    AggregateIsClampedSum(entries, now, k, c);
    if k in Aggregate(entries, now) {
      FitsCount(k, Aggregate(entries, now)[k], c);
    }
  }

  lemma UpsertedStats(l: Lifetime, lk: LifetimeKey, d: StatDelta, at: nat)
    ensures UpsertedRow(l, lk, d, at).stats == PlainAdd(LifetimeStats(l, lk), d)
  {
    PlainAddZero(d);
  }

  lemma CommitLifetimeStats(l: Lifetime, stats: Stats, hour: nat, at: nat, lk: LifetimeKey)
    requires forall k :: k in stats ==> k.hour == hour
    ensures LifetimeStats(CommitLifetime(l, stats, hour, at), lk)
         == PlainAdd(LifetimeStats(l, lk), Lookup(stats, HourlyStatKey(hour, lk.dimension, lk.value)))
  {
    var k := HourlyStatKey(hour, lk.dimension, lk.value);
    var table := CommitLifetime(l, stats, hour, at);
    if k in stats {
      assert Name(k) == lk;
      assert lk in table && table[lk] == UpsertedRow(l, lk, stats[k], at);
      UpsertedStats(l, lk, stats[k], at);
    } else {
      assert lk !in Names(stats);
      assert LifetimeStats(table, lk) == LifetimeStats(l, lk);
      PlainAddZero(LifetimeStats(l, lk));
    }
  }

  /** What a written batch adds to a lifetime counter. */
  lemma CommitRecords(l: Lifetime, entries: seq<QueryEvent>, now: nat, lk: LifetimeKey, c: Counter)
    requires forall k :: k in Aggregate(entries, now) ==> Fits(k, Aggregate(entries, now)[k])
    ensures Count(LifetimeStats(CommitLifetime(l, Aggregate(entries, now), now / 3600, now), lk), c)
         == Count(LifetimeStats(l, lk), c) + BatchRecord(Batch(entries, now), lk, c)
  {
    var stats, k := Aggregate(entries, now), HourlyStatKey(now / 3600, lk.dimension, lk.value);
    BatchHour(entries, now);
    CommitLifetimeStats(l, stats, now / 3600, now, lk);
    CountPlainAdd(LifetimeStats(l, lk), Lookup(stats, k), c);
    WrittenIsPlain(entries, now, k, c);
  }

  lemma InsertSteps(s: State, g: Ledger, step: Step)
    requires step.InsertQueryEvents? && Inserts(s, step) && s.retention == 0
    ensures Next(s, step).lifetime
         == CommitLifetime(s.lifetime, Aggregate(step.entries, step.now), step.now / 3600, step.now)
    ensures LedgerNext(g, s, step) == g.(batches := g.batches + [Batch(step.entries, step.now)])
  {
  }

  lemma InsertRecords(s: State, g: Ledger, step: Step, lk: LifetimeKey, c: Counter)
    requires step.InsertQueryEvents? && Inserts(s, step) && s.retention == 0
    requires Count(LifetimeStats(s.lifetime, lk), c) == Expected(g, lk, c)
    ensures Count(LifetimeStats(Next(s, step).lifetime, lk), c) == Expected(LedgerNext(g, s, step), lk, c)
  {
    InsertSteps(s, g, step);
    CommitRecords(s.lifetime, step.entries, step.now, lk, c);
    ExpectedOneMore(g, Batch(step.entries, step.now), lk, c);
  }

  lemma ExpectedOneMore(g: Ledger, b: Batch, lk: LifetimeKey, c: Counter)
    ensures Expected(g.(batches := g.batches + [b]), lk, c) == Expected(g, lk, c) + BatchRecord(b, lk, c)
  {
    assert (g.batches + [b])[..|g.batches|] == g.batches;
  }

  lemma RebuiltCounts(rows: Stats, lk: LifetimeKey, c: Counter)
    ensures Count(LifetimeStats(Rebuilt(rows), lk), c) == if c.IsBytes() then 0 else RowsSum(rows, lk, c)
  {
    RebuiltRow(rows, lk);
    RebuiltNames(rows, lk);
  }

  lemma NothingSums(lk: LifetimeKey, c: Counter)
    ensures RowsSum(map[], lk, c) == 0
  {
    assert GroupRows(map[], lk) == {};
  }

  /** The cached setting is the stored one, or still 0 since the database was opened. */
  predicate Cached(s: State) {
    Loaded(s) || s.retention == 0
  }

  /** A switch to permanent statistics finds the setting loaded. */
  predicate LoadsBeforeSwitch(s: State, step: Step) {
    step.SaveConfig? && TurnsPermanent(s, step) ==> Loaded(s)
  }

  ghost predicate LoadsFirst(steps: seq<Step>) {
    steps == []
    || (LoadsFirst(steps[..|steps| - 1]) && LoadsBeforeSwitch(Run(INITIAL, steps[..|steps| - 1]), steps[|steps| - 1]))
  }

  /** While the setting is permanent, the lifetime table is the ledger. */
  ghost predicate Keeps(s: State, g: Ledger) {
    Cached(s) && (Setting(s) == 0 ==> Refines(s, g))
  }

  lemma SwitchRefines(s: State, step: Step)
    requires step.SaveConfig? && TurnsPermanent(s, step) && Loaded(s)
    ensures Refines(Next(s, step), Ledger(Window(s.hourly, SinceHour(step.now, Setting(s))), []))
  {
    var rows := Window(s.hourly, SinceHour(step.now, Setting(s)));
    assert Next(s, step).lifetime == Rebuilt(rows);
    forall lk: LifetimeKey, c: Counter
      ensures Count(LifetimeStats(Rebuilt(rows), lk), c) == Expected(Ledger(rows, []), lk, c)
    {
      RebuiltCounts(rows, lk, c);
    }
  }

  lemma NothingRefines(s: State)
    requires s.lifetime == map[]
    ensures Refines(s, NO_LEDGER)
  {
    forall lk: LifetimeKey, c: Counter ensures Count(LifetimeStats(s.lifetime, lk), c) == Expected(NO_LEDGER, lk, c) {
      NothingSums(lk, c);
    }
  }

  lemma InsertRefines(s: State, g: Ledger, step: Step)
    requires step.InsertQueryEvents? && Inserts(s, step) && s.retention == 0 && Refines(s, g)
    ensures Refines(Next(s, step), LedgerNext(g, s, step))
  {
    forall lk: LifetimeKey, c: Counter
      ensures Count(LifetimeStats(Next(s, step).lifetime, lk), c) == Expected(LedgerNext(g, s, step), lk, c)
    {
      assert Count(LifetimeStats(s.lifetime, lk), c) == Expected(g, lk, c);
      InsertRecords(s, g, step, lk, c);
    }
  }

  lemma SameLifetimeRefines(s: State, t: State, g: Ledger)
    requires Refines(s, g) && t.lifetime == s.lifetime
    ensures Refines(t, g)
  {
    forall lk: LifetimeKey, c: Counter ensures Count(LifetimeStats(t.lifetime, lk), c) == Expected(g, lk, c) {
      assert Count(LifetimeStats(s.lifetime, lk), c) == Expected(g, lk, c);
    }
  }

  lemma StepKeeps(s: State, g: Ledger, step: Step)
    requires Keeps(s, g) && LoadsBeforeSwitch(s, step)
    ensures Keeps(Next(s, step), LedgerNext(g, s, step))
  {
    if Setting(Next(s, step)) == 0 {
      if step.InsertQueryEvents? && Inserts(s, step) {
        InsertRefines(s, g, step);
      } else if step.SaveConfig? && TurnsPermanent(s, step) {
        SwitchRefines(s, step);
      } else if step.ClearStatistics? && step.commits {
        NothingRefines(Next(s, step));
      } else {
        SameLifetimeRefines(s, Next(s, step), g);
      }
    }
  }

  lemma {:induction false} RunKeeps(steps: seq<Step>)
    requires LoadsFirst(steps)
    ensures Keeps(Run(INITIAL, steps), RunLedger(NO_LEDGER, INITIAL, steps))
  {
    if steps == [] {
      NothingRefines(INITIAL);
    } else {
      var front := steps[..|steps| - 1];
      RunKeeps(front);
      StepKeeps(Run(INITIAL, front), RunLedger(NO_LEDGER, INITIAL, front), steps[|steps| - 1]);
    }
  }

  /** In every run that ends with permanent statistics, each lifetime counter is the plain sum of all batches written
      since the last clear or switch, on top of that switch's group sum, however many prunes, setting changes and
      restarts ran; a switch must find the setting loaded, an insert need not. */
  lemma LifetimeIsLedger(steps: seq<Step>)
    requires LoadsFirst(steps) && Setting(Run(INITIAL, steps)) == 0
    ensures Refines(Run(INITIAL, steps), RunLedger(NO_LEDGER, INITIAL, steps))
  {
    RunKeeps(steps);
  }

  // ------------------------------------------------ first and last seen

  /** When a batch names a row. */
  predicate Named(b: Batch, lk: LifetimeKey) {
    exists i :: 0 <= i < |b.entries| && CountsIn(b.entries[i], lk.dimension, lk.value)
  }

  /** The times of the batches that name a row. */
  ghost function BatchTimes(batches: seq<Batch>, lk: LifetimeKey): set<nat> {
    if batches == [] then {}
    else
      var b := batches[|batches| - 1];
      BatchTimes(batches[..|batches| - 1], lk) + if Named(b, lk) then {b.now} else {}
  }

  /** The beginnings of the hours of a group. */
  ghost function HourTimes(rows: Stats, lk: LifetimeKey): set<nat> {
    set k | k in rows && k.dimension == lk.dimension && k.value == lk.value :: k.hour * 3600
  }

  ghost function SeenTimes(g: Ledger, lk: LifetimeKey): set<nat> {
    HourTimes(g.rebuiltFrom, lk) + BatchTimes(g.batches, lk)
  }

  /** A row is there exactly when there is a time, and spans the times. */
  ghost predicate Spans(l: Lifetime, lk: LifetimeKey, seen: set<nat>) {
    && (lk in l <==> seen != {})
    && (lk in l ==> l[lk].firstSeen in seen && l[lk].lastSeen in seen)
    && (lk in l ==> forall t :: t in seen ==> l[lk].firstSeen <= t <= l[lk].lastSeen)
  }

  ghost predicate SpansAll(l: Lifetime, g: Ledger) {
    forall lk: LifetimeKey :: Spans(l, lk, SeenTimes(g, lk))
  }

  lemma NamedRows(entries: seq<QueryEvent>, now: nat, lk: LifetimeKey)
    ensures HourlyStatKey(now / 3600, lk.dimension, lk.value) in Aggregate(entries, now) <==>
            Named(Batch(entries, now), lk)
  {
    var k := HourlyStatKey(now / 3600, lk.dimension, lk.value);
    AggregateIsTally(entries, now, k, Queries);
  }

  lemma CommitRow(l: Lifetime, stats: Stats, hour: nat, at: nat, lk: LifetimeKey)
    requires forall k :: k in stats ==> k.hour == hour
    ensures var table, k := CommitLifetime(l, stats, hour, at), HourlyStatKey(hour, lk.dimension, lk.value);
            && (k in stats ==> lk in table && table[lk] == UpsertedRow(l, lk, stats[k], at))
            && (k !in stats ==> (lk in table <==> lk in l) && (lk in l ==> table[lk] == l[lk]))
  {
    var k := HourlyStatKey(hour, lk.dimension, lk.value);
    if k in stats {
      assert Name(k) == lk;
    } else {
      assert lk !in Names(stats);
    }
  }

  lemma UpsertSpans(before: Lifetime, after: Lifetime, lk: LifetimeKey, d: StatDelta, at: nat, seen: set<nat>)
    requires Spans(before, lk, seen) && lk in after && after[lk] == UpsertedRow(before, lk, d, at)
    ensures Spans(after, lk, seen + {at})
  {
    assert at in seen + {at};
  }

  lemma SeenOneMore(g: Ledger, b: Batch, lk: LifetimeKey)
    ensures SeenTimes(g.(batches := g.batches + [b]), lk) == SeenTimes(g, lk) + if Named(b, lk) then {b.now} else {}
  {
    assert (g.batches + [b])[..|g.batches|] == g.batches;
  }

  lemma InsertSpans(l: Lifetime, g: Ledger, entries: seq<QueryEvent>, now: nat, lk: LifetimeKey)
    requires Spans(l, lk, SeenTimes(g, lk))
    ensures Spans(CommitLifetime(l, Aggregate(entries, now), now / 3600, now), lk,
                  SeenTimes(g.(batches := g.batches + [Batch(entries, now)]), lk))
  {
    var stats, k := Aggregate(entries, now), HourlyStatKey(now / 3600, lk.dimension, lk.value);
    BatchHour(entries, now);
    CommitRow(l, stats, now / 3600, now, lk);
    NamedRows(entries, now, lk);
    SeenOneMore(g, Batch(entries, now), lk);
    if k in stats {
      UpsertSpans(l, CommitLifetime(l, stats, now / 3600, now), lk, stats[k], now, SeenTimes(g, lk));
    }
  }

  lemma HourTimesAre(rows: Stats, lk: LifetimeKey)
    ensures HourTimes(rows, lk) == set h | h in GroupHours(rows, lk) :: h * 3600
  {
    forall t | t in HourTimes(rows, lk) ensures exists h :: h in GroupHours(rows, lk) && t == h * 3600 {
      var k :| k in rows && k.dimension == lk.dimension && k.value == lk.value && t == k.hour * 3600;
      assert k in GroupRows(rows, lk) && k.hour in GroupHours(rows, lk);
    }
  }

  lemma RebuiltSpans(rows: Stats, lk: LifetimeKey)
    ensures Spans(Rebuilt(rows), lk, SeenTimes(Ledger(rows, []), lk))
  {
    RebuiltRow(rows, lk);
    RebuiltNames(rows, lk);
    HourTimesAre(rows, lk);
    var hours := GroupHours(rows, lk);
    if hours != {} {
      assert Earliest(hours) in hours && Latest(hours) in hours;
      assert Earliest(hours) * 3600 in HourTimes(rows, lk);
    }
  }

  lemma StepSpans(s: State, g: Ledger, step: Step)
    requires Cached(s) && LoadsBeforeSwitch(s, step)
    requires Setting(s) == 0 ==> SpansAll(s.lifetime, g)
    ensures Setting(Next(s, step)) == 0 ==> SpansAll(Next(s, step).lifetime, LedgerNext(g, s, step))
  {
    if Setting(Next(s, step)) == 0 {
      forall lk: LifetimeKey ensures Spans(Next(s, step).lifetime, lk, SeenTimes(LedgerNext(g, s, step), lk)) {
        if step.InsertQueryEvents? && Inserts(s, step) {
          InsertSpans(s.lifetime, g, step.entries, step.now, lk);
        } else if step.SaveConfig? && TurnsPermanent(s, step) {
          RebuiltSpans(Window(s.hourly, SinceHour(step.now, Setting(s))), lk);
        }
      }
    }
  }

  lemma {:induction false} RunSpans(steps: seq<Step>)
    requires LoadsFirst(steps)
    ensures Setting(Run(INITIAL, steps)) == 0 ==>
              SpansAll(Run(INITIAL, steps).lifetime, RunLedger(NO_LEDGER, INITIAL, steps))
  {
    if steps != [] {
      var front := steps[..|steps| - 1];
      RunSpans(front);
      RunStaysCached(front);
      StepSpans(Run(INITIAL, front), RunLedger(NO_LEDGER, INITIAL, front), steps[|steps| - 1]);
    }
  }

  /** In every such run a lifetime row is there exactly when an hour of the last switch or a batch since names it, and
      it was first and last seen at the earliest and latest of these times. */
  lemma SpanIsLedger(steps: seq<Step>, lk: LifetimeKey)
    requires LoadsFirst(steps) && Setting(Run(INITIAL, steps)) == 0
    ensures Spans(Run(INITIAL, steps).lifetime, lk, SeenTimes(RunLedger(NO_LEDGER, INITIAL, steps), lk))
  {
    RunSpans(steps);
  }

  // ------------------------------------------------------ restarts and loading

  /** Opening the database again and loading its configuration restores what a loaded store held. */
  lemma ReopenThenLoad(s: State)
    requires Cached(s)
    ensures Next(Next(s, Reopen), LoadConfig) == s.(retention := Setting(s))
  {
  }

  /** The program loads the configuration as soon as it has opened the database. */
  predicate LoadsAtOnce(steps: seq<Step>) {
    forall i :: 0 <= i < |steps| - 1 && steps[i].Reopen? ==> steps[i + 1].LoadConfig?
  }

  lemma StepKeepsLoaded(s: State, step: Step)
    requires (Loaded(s) && !step.Reopen?) || step.LoadConfig?
    requires Cached(s)
    ensures Loaded(Next(s, step))
  {
  }

  lemma {:induction false} RunStaysCached(steps: seq<Step>)
    ensures Cached(Run(INITIAL, steps))
  {
    if steps != [] {
      RunStaysCached(steps[..|steps| - 1]);
    }
  }

  lemma {:induction false} LoadedBetween(steps: seq<Step>)
    requires LoadsAtOnce(steps)
    ensures Loaded(Run(INITIAL, steps)) || (steps != [] && steps[|steps| - 1].Reopen?)
  {
    if steps != [] && !steps[|steps| - 1].Reopen? {
      var front := steps[..|steps| - 1];
      LoadedBetween(front);
      RunStaysCached(front);
      if front != [] && front[|front| - 1].Reopen? {
        assert steps[|front| - 1].Reopen?;
      }
      StepKeepsLoaded(Run(INITIAL, front), steps[|steps| - 1]);
    }
  }

  /** Then every switch finds it loaded. */
  lemma {:induction false} LoadsAtOnceLoadsFirst(steps: seq<Step>)
    requires LoadsAtOnce(steps)
    ensures LoadsFirst(steps)
  {
    if steps != [] {
      var front := steps[..|steps| - 1];
      LoadsAtOnceLoadsFirst(front);
      LoadedBetween(front);
      if front != [] && front[|front| - 1].Reopen? {
        assert steps[|front| - 1].Reopen?;
      }
    }
  }

  lemma {:induction false} RunAppend(s: State, a: seq<Step>, b: seq<Step>)
    ensures Run(s, a + b) == Run(Run(s, a), b)
  {
    if b == [] {
      assert a + b == a;
    } else {
      assert (a + b)[..|a + b| - 1] == a + b[..|b| - 1];
      RunAppend(s, a, b[..|b| - 1]);
    }
  }

  lemma RunTwo(s: State, first: Step, second: Step)
    ensures Run(s, [first, second]) == Next(Next(s, first), second)
  {
    assert [first, second][..1] == [first] && [first][..0] == [];
    assert Run(s, [first]) == Next(Run(s, []), first);
  }

  /** In such a program nothing that follows can tell whether it was restarted in between. */
  lemma RestartIsInvisible(steps: seq<Step>, more: seq<Step>)
    requires LoadsAtOnce(steps) && (steps != [] ==> !steps[|steps| - 1].Reopen?)
    ensures Run(INITIAL, steps + [Reopen, LoadConfig] + more) == Run(INITIAL, steps + more)
  {
    var s := Run(INITIAL, steps);
    LoadedBetween(steps);
    RunAppend(INITIAL, steps + [Reopen, LoadConfig], more);
    RunAppend(INITIAL, steps, more);
    RunAppend(INITIAL, steps, [Reopen, LoadConfig]);
    RunTwo(s, Reopen, LoadConfig);
    ReopenThenLoad(s);
  }

  /** A switch to permanent statistics leaves the window's sums in the lifetime table. */
  ghost predicate SwitchRebuilds(hourly: Stats, lifetime: Lifetime, hours: nat, retention: nat, now: nat) {
    Refines(Next(State(hourly, lifetime, Some(hours), retention), SaveConfig(0, now, true)),
            Ledger(Window(hourly, SinceHour(now, hours)), []))
  }

  /** It does so for all tables exactly when the setting was loaded: without it the old lifetime rows stay. */
  lemma SwitchRebuildsIffLoaded(hours: nat, retention: nat, now: nat)
    requires hours != 0 && (retention == hours || retention == 0)
    ensures (forall hourly, lifetime :: SwitchRebuilds(hourly, lifetime, hours, retention, now)) <==> retention == hours
  {
    if retention == hours {
      forall hourly, lifetime ensures SwitchRebuilds(hourly, lifetime, hours, retention, now) {
        SwitchRefines(State(hourly, lifetime, Some(hours), retention), SaveConfig(0, now, true));
      }
    } else {
      var stale := map[TOTAL_KEY := LifetimeRow(ZERO.(queries := 1), 0, 0)];
      var next := Next(State(map[], stale, Some(hours), retention), SaveConfig(0, now, true));
      var g := Ledger(Window(map[], SinceHour(now, hours)), []);
      assert next.lifetime == stale && Window(map[], SinceHour(now, hours)) == map[];
      NothingSums(TOTAL_KEY, Queries);
      assert Count(LifetimeStats(next.lifetime, TOTAL_KEY), Queries) == 1 != Expected(g, TOTAL_KEY, Queries);
      assert !SwitchRebuilds(map[], stale, hours, retention, now);
    }
  }

  /** The nine counters a totals query reads. */
  predicate Shown(c: Counter) {
    !(c.Requests? || c.LatencyTotal? || c.LatencySamples?)
  }

  function TotalsCount(t: DashboardTotals, c: Counter): nat {
    Count(StatDelta(t.queries, t.blocked, t.forwarded, t.failed, 0, 0, 0, t.traffic), c)
  }

  lemma ReadableCounts(d: StatDelta)
    ensures Readable(d) <==> forall c: Counter :: Shown(c) ==> Count(d, c) < I64_LIMIT
  {
    if forall c: Counter :: Shown(c) ==> Count(d, c) < I64_LIMIT {
      assert Count(d, Queries) < I64_LIMIT && Count(d, Blocked) < I64_LIMIT && Count(d, Forwarded) < I64_LIMIT;
      assert Count(d, Failed) < I64_LIMIT && Count(d, ClientBytesIn) < I64_LIMIT;
      assert Count(d, ClientBytesOut) < I64_LIMIT && Count(d, UpstreamBytesOut) < I64_LIMIT;
      assert Count(d, UpstreamBytesIn) < I64_LIMIT && Count(d, CacheSavedBytes) < I64_LIMIT;
    }
  }

  lemma ReadsCounts(d: StatDelta, startedAt: Option<nat>, endedAt: Option<nat>, c: Counter)
    requires Readable(d) && Shown(c)
    ensures TotalsCount(ReadTotals(d, startedAt, endedAt).value, c) == Count(d, c)
  {
  }

  lemma LifetimeShown(s: State, now: nat)
    ensures var d, shown := LifetimeStats(s.lifetime, TOTAL_KEY), LogTotals(s, 0, now);
            && (shown.Ok? <==> forall c: Counter :: Shown(c) ==> Count(d, c) < I64_LIMIT)
            && (shown.Ok? ==> forall c: Counter :: Shown(c) ==> TotalsCount(shown.value, c) == Count(d, c))
  {
    var d := LifetimeStats(s.lifetime, TOTAL_KEY);
    var startedAt := if TOTAL_KEY in s.lifetime then Some(s.lifetime[TOTAL_KEY].firstSeen) else None;
    var endedAt := if TOTAL_KEY in s.lifetime then Some(s.lifetime[TOTAL_KEY].lastSeen) else None;
    assert LogTotals(s, 0, now) == ReadTotals(d, startedAt, endedAt);
    ReadableCounts(d);
    if Readable(d) {
      forall c: Counter | Shown(c) ensures TotalsCount(LogTotals(s, 0, now).value, c) == Count(d, c) {
        ReadsCounts(d, startedAt, endedAt, c);
      }
    }
  }

  /** The first and the last of these times are shown, or nothing when there are none. */
  ghost predicate TimesShown(seen: set<nat>, startedAt: Option<nat>, endedAt: Option<nat>) {
    if seen == {} then startedAt == None && endedAt == None
    else
      && startedAt.Some? && startedAt.value in seen && endedAt.Some? && endedAt.value in seen
      && forall t :: t in seen ==> startedAt.value <= t <= endedAt.value
  }

  lemma LifetimeSpanShown(s: State, now: nat, seen: set<nat>)
    requires Spans(s.lifetime, TOTAL_KEY, seen)
    ensures var shown := LogTotals(s, 0, now);
            shown.Ok? ==> TimesShown(seen, shown.value.startedAt, shown.value.endedAt)
  {
  }

  /** After such a run, `log_stats(0)` shows the ledger's sums of the total row and its first and last times, and fails
      exactly when one of the nine sums has reached 2^63. */
  lemma LifetimeTotals(steps: seq<Step>, now: nat)
    requires LoadsFirst(steps) && Setting(Run(INITIAL, steps)) == 0
    ensures var g, shown := RunLedger(NO_LEDGER, INITIAL, steps), LogTotals(Run(INITIAL, steps), 0, now);
            && (shown.Ok? <==> forall c: Counter :: Shown(c) ==> Expected(g, TOTAL_KEY, c) < I64_LIMIT)
            && (shown.Ok? ==>
                  forall c: Counter :: Shown(c) ==> TotalsCount(shown.value, c) == Expected(g, TOTAL_KEY, c))
            && (shown.Ok? ==> TimesShown(SeenTimes(g, TOTAL_KEY), shown.value.startedAt, shown.value.endedAt))
  {
    var s, g := Run(INITIAL, steps), RunLedger(NO_LEDGER, INITIAL, steps);
    LifetimeIsLedger(steps);
    SpanIsLedger(steps, TOTAL_KEY);
    LifetimeShown(s, now);
    LifetimeSpanShown(s, now, SeenTimes(g, TOTAL_KEY));
    forall c: Counter ensures Count(LifetimeStats(s.lifetime, TOTAL_KEY), c) == Expected(g, TOTAL_KEY, c) {
    }
  }

  /** The total rows of the last `hours` hours. */
  ghost function WindowKeys(hourly: Stats, hours: nat, now: nat): set<HourlyStatKey> {
    set k | k in hourly && k.dimension == Total && k.value == "" && k.hour + hours >= now / 3600
  }

  ghost function WindowSum(hourly: Stats, hours: nat, now: nat, c: Counter): nat {
    Sum(WindowKeys(hourly, hours, now), (k: HourlyStatKey) => Count(Lookup(hourly, k), c))
  }

  lemma WindowSums(hourly: Stats, hours: nat, now: nat, c: Counter)
    ensures GroupRows(Window(hourly, SinceHour(now, hours)), TOTAL_KEY) == WindowKeys(hourly, hours, now)
    ensures RowsSum(Window(hourly, SinceHour(now, hours)), TOTAL_KEY, c) == WindowSum(hourly, hours, now, c)
  {
    var rows := Window(hourly, SinceHour(now, hours));
    forall k ensures k in GroupRows(rows, TOTAL_KEY) <==> k in WindowKeys(hourly, hours, now) {
      WindowIs(hourly, now, hours, k);
    }
    assert GroupRows(rows, TOTAL_KEY) == WindowKeys(hourly, hours, now);
    SumCongruent(GroupRows(rows, TOTAL_KEY), (k: HourlyStatKey) => Count(Lookup(rows, k), c),
                 (k: HourlyStatKey) => Count(Lookup(hourly, k), c));
  }

  lemma WindowShown(d: StatDelta, startedAt: Option<nat>, endedAt: Option<nat>)
    ensures var shown := ReadTotals(d, startedAt, endedAt);
            && (shown.Ok? <==> forall c: Counter :: Shown(c) ==> Count(d, c) < 0x8000_0000_0000_0000)
            && (shown.Ok? ==> forall c: Counter :: Shown(c) ==> TotalsCount(shown.value, c) == Count(d, c))
            && (shown.Ok? ==> shown.value.startedAt == startedAt && shown.value.endedAt == endedAt)
  {
    ReadableCounts(d);
    if Readable(d) {
      forall c: Counter | Shown(c) ensures TotalsCount(ReadTotals(d, startedAt, endedAt).value, c) == Count(d, c) {
        ReadsCounts(d, startedAt, endedAt, c);
      }
    }
  }

  /** The span shown is that of the window's rows. */
  ghost predicate SpanOf(keys: set<HourlyStatKey>, startedAt: Option<nat>, endedAt: Option<nat>) {
    && (keys == {} ==> startedAt == None && endedAt == None)
    && (keys != {} ==> startedAt.Some? && endedAt.Some?)
    && (keys != {} ==> exists k :: k in keys && startedAt == Some(k.hour * 3600))
    && (keys != {} ==> exists k :: k in keys && endedAt == Some(k.hour * 3600))
    && (forall k :: k in keys ==> startedAt.value <= k.hour * 3600 <= endedAt.value)
  }

  lemma SpanIsMinMax(rows: Stats)
    ensures SpanOf(GroupRows(rows, TOTAL_KEY), StartedAt(rows), EndedAt(rows))
  {
    var keys, hours := GroupRows(rows, TOTAL_KEY), GroupHours(rows, TOTAL_KEY);
    forall k | k in keys ensures k.hour in hours {
    }
    if keys != {} {
      var k :| k in keys;
      assert k.hour in hours;
      var first :| first in keys && first.hour == Earliest(hours);
      var last :| last in keys && last.hour == Latest(hours);
    }
  }

  /** A window that begins after hour 0 shows the sums of the total rows of its hours, and fails exactly when one of the
      nine has reached 2^63; its span is that of these rows. */
  lemma WindowTotals(s: State, hours: nat, now: nat)
    requires 0 < hours < now / 3600
    ensures var shown := LogTotals(s, hours, now);
            && (shown.Ok? <==>
                  forall c: Counter :: Shown(c) ==> WindowSum(s.hourly, hours, now, c) < 0x8000_0000_0000_0000)
            && (shown.Ok? ==>
                  forall c: Counter :: Shown(c) ==> TotalsCount(shown.value, c) == WindowSum(s.hourly, hours, now, c))
            && (shown.Ok? ==> SpanOf(WindowKeys(s.hourly, hours, now), shown.value.startedAt, shown.value.endedAt))
  {
    var rows := Window(s.hourly, SinceHour(now, hours));
    var d := SummedStats(rows, TOTAL_KEY);
    forall c: Counter ensures Count(d, c) == WindowSum(s.hourly, hours, now, c) {
      WindowSums(s.hourly, hours, now, c);
      CountSummed(rows, TOTAL_KEY, c);
    }
    WindowSums(s.hourly, hours, now, Queries);
    SpanIsMinMax(rows);
    WindowShown(d, StartedAt(rows), EndedAt(rows));
  }

  /** A window that reaches back to hour 0 shows the lifetime row, like 0 hours. */
  lemma LongWindow(s: State, hours: nat, now: nat)
    requires hours >= now / 3600
    ensures LogTotals(s, hours, now) == LogTotals(s, 0, now)
  {
  }

  // ------------------------------------------------ the methods run through it all

  method Dispatch(db: Database, step: Step) returns (next: Database)
    modifies db
    ensures next.View() == Next(old(db.View()), step) && (next == db || fresh(next))
  {
    next := db;
    match step {
      case InsertQueryEvents(entries, now, commits) =>
        var _ := db.InsertQueryEvents(entries, now, commits);
      case PruneExpired(now, retentionHours, commits) =>
        var _ := db.PruneExpired(now, retentionHours, commits);
      case SaveConfig(retentionHours, now, commits) =>
        var _ := db.SaveConfig(retentionHours, now, commits);
      case LoadConfig =>
        db.LoadConfig();
      case ClearStatistics(commits) =>
        var _ := db.ClearStatistics(commits);
      case Reopen =>
        next := new Database(db.hourly, db.lifetime, db.stored);
    }
  }

  /** A database used, closed and opened again in any order: in permanent mode its lifetime table is the ledger. */
  method Session(steps: seq<Step>) returns (db: Database)
    requires LoadsFirst(steps)
    ensures Setting(Run(INITIAL, steps)) == 0 ==> db.stored == None || db.stored == Some(0)
    ensures Setting(Run(INITIAL, steps)) == 0 ==> forall lk: LifetimeKey, c: Counter ::
              Count(LifetimeStats(db.lifetime, lk), c) == Expected(RunLedger(NO_LEDGER, INITIAL, steps), lk, c)
    ensures Setting(Run(INITIAL, steps)) == 0 ==>
              SpansAll(db.lifetime, RunLedger(NO_LEDGER, INITIAL, steps))
  {
    db := new Database(map[], map[], None);
    assert steps[..0] == [];
    for i := 0 to |steps|
      invariant fresh(db) && db.View() == Run(INITIAL, steps[..i])
    {
      assert steps[..i + 1][..i] == steps[..i];
      db := Dispatch(db, steps[i]);
    }
    assert steps[..|steps|] == steps;
    RunKeeps(steps);
    RunSpans(steps);
  }

  /** Number of client queries in a batch: the events that count, background refreshes left out. */
  ghost function ClientQueries(entries: seq<QueryEvent>): nat {
    if entries == [] then 0
    else
      var e := entries[|entries| - 1];
      ClientQueries(entries[..|entries| - 1]) + Flag(e.persistStatistics && !e.trafficOnly)
  }

  ghost function ClientQueriesOf(batches: seq<Batch>): nat {
    if batches == [] then 0
    else ClientQueriesOf(batches[..|batches| - 1]) + ClientQueries(batches[|batches| - 1].entries)
  }

  lemma {:induction false} BatchCountsQueries(entries: seq<QueryEvent>)
    ensures Tally(entries, Total, "", Queries) == ClientQueries(entries)
  {
    if entries != [] {
      BatchCountsQueries(entries[..|entries| - 1]);
    }
  }

  /** The recorded query total is the number of client queries recorded. */
  lemma {:induction false} RecordedCountsQueries(batches: seq<Batch>)
    ensures Recorded(batches, TOTAL_KEY, Queries) == ClientQueriesOf(batches)
  {
    if batches != [] {
      RecordedCountsQueries(batches[..|batches| - 1]);
      BatchCountsQueries(batches[|batches| - 1].entries);
    }
  }

  // ----------------------------------------------- a run that ends in the wrong

  /** Permanent statistics, a finite setting, a prune, a restart, and permanent again before the setting is loaded. */
  function UnloadedSwitch(entries: seq<QueryEvent>, now: nat, hours: nat, later: nat): seq<Step> {
    [InsertQueryEvents(entries, now, true), SaveConfig(hours, now, true), PruneExpired(later, hours, true), Reopen]
    + [SaveConfig(0, later, true)]
  }

  lemma RunFour(s: State, a: Step, b: Step, c: Step, d: Step)
    ensures Run(s, [a, b, c, d]) == Next(Next(Next(Next(s, a), b), c), d)
  {
    RunTwo(s, a, b);
    RunTwo(Next(Next(s, a), b), c, d);
    RunAppend(s, [a, b], [c, d]);
    assert [a, b] + [c, d] == [a, b, c, d];
  }

  lemma LastStep(s: State, g: Ledger, front: seq<Step>, last: Step)
    ensures Run(s, front + [last]) == Next(Run(s, front), last)
    ensures RunLedger(g, s, front + [last]) == LedgerNext(RunLedger(g, s, front), Run(s, front), last)
  {
    assert (front + [last])[..|front|] == front;
  }

  /** The store before that last save: the batch's lifetime row is left, its hourly rows are behind the window. */
  lemma BeforeSwitch(entries: seq<QueryEvent>, now: nat, hours: nat, later: nat)
    requires Inserts(INITIAL, InsertQueryEvents(entries, now, true)) && 0 < hours <= MAX_STATISTICS_RETENTION_HOURS
    requires now / 3600 < SinceHour(later, hours)
    ensures var s := Run(INITIAL, UnloadedSwitch(entries, now, hours, later)[..4]);
            && s.stored == Some(hours) && s.retention == 0
            && s.lifetime == CommitLifetime(map[], Aggregate(entries, now), now / 3600, now)
            && Window(s.hourly, SinceHour(later, hours)) == map[]
  {
    var stats := Aggregate(entries, now);
    var insert, save := InsertQueryEvents(entries, now, true), SaveConfig(hours, now, true);
    RunFour(INITIAL, insert, save, PruneExpired(later, hours, true), Reopen);
    assert UnloadedSwitch(entries, now, hours, later)[..4] == [insert, save, PruneExpired(later, hours, true), Reopen];
    BatchHour(entries, now);
    assert forall k :: k in Commit(map[], stats) ==> k.hour == now / 3600;
    assert Next(Next(INITIAL, insert), save).hourly == Commit(map[], stats);
  }

  /** It leaves the old lifetime rows, though the window of the switch is empty. */
  lemma UnloadedSwitchFails(entries: seq<QueryEvent>, now: nat, hours: nat, later: nat)
    requires Inserts(INITIAL, InsertQueryEvents(entries, now, true)) && ClientQueries(entries) > 0
    requires 0 < hours <= MAX_STATISTICS_RETENTION_HOURS && now / 3600 < SinceHour(later, hours)
    ensures var steps := UnloadedSwitch(entries, now, hours, later);
            Setting(Run(INITIAL, steps)) == 0 && !Refines(Run(INITIAL, steps), RunLedger(NO_LEDGER, INITIAL, steps))
  {
    var steps := UnloadedSwitch(entries, now, hours, later);
    var front, last := steps[..4], SaveConfig(0, later, true);
    assert steps == front + [last];
    LastStep(INITIAL, NO_LEDGER, front, last);
    BeforeSwitch(entries, now, hours, later);
    CommitRecords(map[], entries, now, TOTAL_KEY, Queries);
    BatchCountsQueries(entries);
    NothingSums(TOTAL_KEY, Queries);
    assert RunLedger(NO_LEDGER, INITIAL, steps) == Ledger(map[], []);
    assert Count(LifetimeStats(Run(INITIAL, steps).lifetime, TOTAL_KEY), Queries) == ClientQueries(entries);
    assert Expected(Ledger(map[], []), TOTAL_KEY, Queries) == 0;
  }

  /** A plain query without traffic. */
  function PlainQuery(domain: string): QueryEvent {
    QueryEvent(domain, None, false, false, false, None, None, None, NO_TRAFFIC, true, false)
  }

  lemma PlainPostings(domain: string, hour: nat)
    ensures AllPostings([PlainQuery(domain)], hour)
         == [Posting(HourlyStatKey(hour, Total, ""), ZERO.(queries := 1))]
            + [Posting(HourlyStatKey(hour, Domain, domain), ZERO.(queries := 1))]
  {
    assert [PlainQuery(domain)][..0] == [];
    assert AllPostings([PlainQuery(domain)], hour) == [] + Postings(PlainQuery(domain), hour);
  }

  lemma PlainAggregate(domain: string, now: nat)
    ensures var one := ZERO.(queries := 1);
            Aggregate([PlainQuery(domain)], now)
            == map[HourlyStatKey(now / 3600, Total, "") := one][HourlyStatKey(now / 3600, Domain, domain) := one]
  {
    var one, total, visits := ZERO.(queries := 1), HourlyStatKey(now / 3600, Total, ""),
                              HourlyStatKey(now / 3600, Domain, domain);
    PlainPostings(domain, now / 3600);
    PostAllAppend(map[], [Posting(total, one)], [Posting(visits, one)]);
    PostOne(map[], total, one);
    PostOne(map[total := one], visits, one);
    assert AddDelta(ZERO, one) == one;
  }

  lemma PlainQueryInserts(domain: string, now: nat)
    requires now < I64_LIMIT
    ensures Inserts(INITIAL, InsertQueryEvents([PlainQuery(domain)], now, true))
    ensures ClientQueries([PlainQuery(domain)]) == 1
  {
    PlainAggregate(domain, now);
    assert [PlainQuery(domain)][..0] == [] && ClientQueries([]) == 0;
  }

  /** One query and a month suffice. */
  lemma StaleSwitchHappens(domain: string)
    ensures var steps := UnloadedSwitch([PlainQuery(domain)], 0, 24, 30 * 24 * 3600);
            Setting(Run(INITIAL, steps)) == 0 && !Refines(Run(INITIAL, steps), RunLedger(NO_LEDGER, INITIAL, steps))
  {
    PlainQueryInserts(domain, 0);
    assert SinceHour(30 * 24 * 3600, 24) == 696;
    UnloadedSwitchFails([PlainQuery(domain)], 0, 24, 30 * 24 * 3600);
  }

  // ------------------------------------------- hourly rows are a ledger too

  ghost function BatchesNext(batches: seq<Batch>, s: State, step: Step): seq<Batch> {
    if step.InsertQueryEvents? && Inserts(s, step) then batches + [Batch(step.entries, step.now)]
    else if step.ClearStatistics? && step.commits then []
    else batches
  }

  /** The batches written since the last clear, in any retention mode. */
  ghost function RunBatches(s: State, steps: seq<Step>): seq<Batch> {
    if steps == [] then []
    else BatchesNext(RunBatches(s, steps[..|steps| - 1]), Run(s, steps[..|steps| - 1]), steps[|steps| - 1])
  }

  /** What a batch adds to an hourly row: the sum over its events, in its own hour. */
  ghost function BatchRow(b: Batch, k: HourlyStatKey, c: Counter): nat {
    if b.now / 3600 == k.hour then Tally(b.entries, k.dimension, k.value, c) else 0
  }

  ghost function RowRecord(batches: seq<Batch>, k: HourlyStatKey, c: Counter): nat {
    if batches == [] then 0
    else
      var b := batches[|batches| - 1];
      RowRecord(batches[..|batches| - 1], k, c) + BatchRow(b, k, c)
  }

  /** A prune leaves the row: it is recent enough for the retention, which for permanent statistics is 365 days. */
  predicate Spares(step: Step, k: HourlyStatKey)
    requires step.PruneExpired?
  {
    Recent(k, step.now / 3600, if step.retentionHours == 0 then 8760 else step.retentionHours)
  }

  lemma RowRecordOneMore(batches: seq<Batch>, b: Batch, k: HourlyStatKey, c: Counter)
    ensures RowRecord(batches + [b], k, c) == RowRecord(batches, k, c) + BatchRow(b, k, c)
  {
    assert (batches + [b])[..|batches|] == batches;
  }

  lemma CommitAdds(hourly: Stats, stats: Stats, k: HourlyStatKey, c: Counter)
    ensures Count(Lookup(Commit(hourly, stats), k), c) == Count(Lookup(hourly, k), c) + Count(Lookup(stats, k), c)
  {
    CommitLookup(hourly, stats, k);
    CountPlainAdd(Lookup(hourly, k), Lookup(stats, k), c);
  }

  lemma HourlyInsert(hourly: Stats, batches: seq<Batch>, entries: seq<QueryEvent>, now: nat, k: HourlyStatKey,
                     c: Counter)
    requires forall x :: x in Aggregate(entries, now) ==> Fits(x, Aggregate(entries, now)[x])
    requires Count(Lookup(hourly, k), c) == RowRecord(batches, k, c)
    ensures Count(Lookup(Commit(hourly, Aggregate(entries, now)), k), c)
         == RowRecord(batches + [Batch(entries, now)], k, c)
  {
    CommitAdds(hourly, Aggregate(entries, now), k, c);
    WrittenIsPlain(entries, now, k, c);
    RowRecordOneMore(batches, Batch(entries, now), k, c);
  }

  lemma HourlyPrune(hourly: Stats, now: nat, hours: nat, k: HourlyStatKey)
    requires Recent(k, now / 3600, if hours == 0 then 8760 else hours)
    ensures Lookup(Pruned(hourly, now, hours), k) == Lookup(hourly, k)
  {
    ExpiredIs(k, now, hours);
  }

  lemma HourlyStep(s: State, batches: seq<Batch>, step: Step, k: HourlyStatKey, c: Counter)
    requires step.PruneExpired? && step.commits ==> Spares(step, k)
    requires Count(Lookup(s.hourly, k), c) == RowRecord(batches, k, c)
    ensures Count(Lookup(Next(s, step).hourly, k), c) == RowRecord(BatchesNext(batches, s, step), k, c)
  {
    if step.PruneExpired? && step.commits {
      HourlyPrune(s.hourly, step.now, step.retentionHours, k);
    } else if step.InsertQueryEvents? && Inserts(s, step) {
      HourlyInsert(s.hourly, batches, step.entries, step.now, k, c);
    }
  }

  /** An hourly row that no prune of the run deletes holds the plain sum of the events written since the last clear. */
  lemma {:induction false} HourlyIsLedger(steps: seq<Step>, k: HourlyStatKey, c: Counter)
    requires forall i :: 0 <= i < |steps| && steps[i].PruneExpired? && steps[i].commits ==> Spares(steps[i], k)
    ensures Count(Lookup(Run(INITIAL, steps).hourly, k), c) == RowRecord(RunBatches(INITIAL, steps), k, c)
  {
    if steps != [] {
      var front := steps[..|steps| - 1];
      HourlyIsLedger(front, k, c);
      HourlyStep(Run(INITIAL, front), RunBatches(INITIAL, front), steps[|steps| - 1], k, c);
    }
  }

  // ------------------------------------------- finite retention to permanent

  /** The switch makes each non-byte lifetime counter its window's sum, and each byte counter 0. */
  lemma SwitchCopiesWindow(s: State, now: nat, lk: LifetimeKey, c: Counter)
    requires s.retention != 0
    ensures Count(LifetimeStats(Next(s, SaveConfig(0, now, true)).lifetime, lk), c)
         == if c.IsBytes() then 0 else RowsSum(Window(s.hourly, SinceHour(now, s.retention)), lk, c)
  {
    RebuiltCounts(Window(s.hourly, SinceHour(now, s.retention)), lk, c);
  }

  /** The dashboard shows the same totals and span after the switch as before it, without the bytes. */
  lemma SwitchKeepsTotals(s: State, now: nat)
    requires s.retention != 0 && SinceHour(now, s.retention) > 0
    ensures var before := LogTotals(s, s.retention, now);
            var after := LogTotals(Next(s, SaveConfig(0, now, true)), 0, now);
            before.Ok? ==> after == Ok(before.value.(traffic := NO_TRAFFIC))
  {
    var rows := Window(s.hourly, SinceHour(now, s.retention));
    RebuiltRow(rows, TOTAL_KEY);
    RebuiltNames(rows, TOTAL_KEY);
  }

  /** Hence the totals agree in full exactly when no bytes were counted in the window. */
  lemma SwitchAgreesIffNoBytes(s: State, now: nat)
    requires s.retention != 0 && SinceHour(now, s.retention) > 0
    requires LogTotals(s, s.retention, now).Ok?
    ensures LogTotals(Next(s, SaveConfig(0, now, true)), 0, now) == LogTotals(s, s.retention, now)
       <==> forall c: Counter :: c.IsBytes() ==>
              RowsSum(Window(s.hourly, SinceHour(now, s.retention)), TOTAL_KEY, c) == 0
  {
    SwitchKeepsTotals(s, now);
    var rows := Window(s.hourly, SinceHour(now, s.retention));
    var bytes := SummedStats(rows, TOTAL_KEY).traffic;
    assert LogTotals(s, s.retention, now).value.traffic == bytes;
    if forall c: Counter :: c.IsBytes() ==> RowsSum(rows, TOTAL_KEY, c) == 0 {
      assert RowsSum(rows, TOTAL_KEY, ClientBytesIn) == 0 && RowsSum(rows, TOTAL_KEY, ClientBytesOut) == 0;
      assert RowsSum(rows, TOTAL_KEY, UpstreamBytesOut) == 0 && RowsSum(rows, TOTAL_KEY, UpstreamBytesIn) == 0;
      assert RowsSum(rows, TOTAL_KEY, CacheSavedBytes) == 0;
    }
  }

  // ---------------------------------------------------- pruning is invisible

  /** Two stores alike but for rows a prune at `now` may delete. */
  ghost predicate AlikeBut(a: State, b: State, now: nat, retention: nat) {
    && a.stored == b.stored && a.retention == b.retention
    && forall k :: !Expired(k, now, retention) ==>
         (k in a.hourly <==> k in b.hourly) && Lookup(a.hourly, k) == Lookup(b.hourly, k)
  }

  lemma StepKeepsAlike(a: State, b: State, step: Step, now: nat, retention: nat)
    requires AlikeBut(a, b, now, retention)
    ensures AlikeBut(Next(a, step), Next(b, step), now, retention)
  {
    if step.InsertQueryEvents? && Inserts(a, step) {
      var stats := Aggregate(step.entries, step.now);
      forall k | !Expired(k, now, retention)
        ensures Lookup(Commit(a.hourly, stats), k) == Lookup(Commit(b.hourly, stats), k)
      {
        assert Lookup(a.hourly, k) == Lookup(b.hourly, k);
        CommitLookup(a.hourly, stats, k);
        CommitLookup(b.hourly, stats, k);
      }
    }
  }

  lemma {:induction false} RunKeepsAlike(a: State, b: State, steps: seq<Step>, now: nat, retention: nat)
    requires AlikeBut(a, b, now, retention)
    ensures AlikeBut(Run(a, steps), Run(b, steps), now, retention)
  {
    if steps != [] {
      var front := steps[..|steps| - 1];
      RunKeepsAlike(a, b, front, now, retention);
      StepKeepsAlike(Run(a, front), Run(b, front), steps[|steps| - 1], now, retention);
    }
  }

  /** A window the settings allow: no longer than what a prune keeps of the dimension. */
  predicate LegalWindow(d: Dimension, hours: nat, retention: nat) {
    hours <= (if retention == 0 then 8760 else retention) || (d == Total && hours <= 720)
  }

  lemma SinceHourMonotone(now: nat, later: nat, hours: nat, fewer: nat)
    requires now <= later && fewer <= hours
    ensures SinceHour(now, hours) <= SinceHour(later, fewer)
  {
    assert fewer * 3600 <= hours * 3600;
    var x := if now > hours * 3600 then now - hours * 3600 else 0;
    var y := if later > fewer * 3600 then later - fewer * 3600 else 0;
    assert x <= y;
  }

  lemma LegalRowsSurvive(k: HourlyStatKey, now: nat, retention: nat, later: nat, hours: nat)
    requires now <= later && LegalWindow(k.dimension, hours, retention)
    requires k.hour >= SinceHour(later, hours)
    ensures !Expired(k, now, retention)
  {
    if hours <= DetailHours(retention) {
      SinceHourMonotone(now, later, DetailHours(retention), hours);
    } else {
      SinceHourMonotone(now, later, TRAFFIC_RETENTION_HOURS, hours);
    }
  }

  /** Whatever runs afterwards, no legal window at a later time can tell whether the prune ran: every sum, every
      row's hours and hence every totals query are the same. */
  lemma PruneIsInvisible(s: State, now: nat, retention: nat, steps: seq<Step>, later: nat, hours: nat, lk: LifetimeKey)
    requires now <= later && LegalWindow(lk.dimension, hours, retention)
    ensures var with, without := Run(Next(s, PruneExpired(now, retention, true)), steps), Run(s, steps);
            var since := SinceHour(later, hours);
            && (forall c :: RowsSum(Window(with.hourly, since), lk, c) == RowsSum(Window(without.hourly, since), lk, c))
            && (lk == TOTAL_KEY && hours > 0 && since > 0 ==>
                  LogTotals(with, hours, later) == LogTotals(without, hours, later))
  {
    var pruned := Next(s, PruneExpired(now, retention, true));
    var with, without := Run(pruned, steps), Run(s, steps);
    assert AlikeBut(pruned, s, now, retention);
    RunKeepsAlike(pruned, s, steps, now, retention);
    var a, b := Window(with.hourly, SinceHour(later, hours)), Window(without.hourly, SinceHour(later, hours));
    forall k | Name(k) == lk ensures k in a <==> k in b
      ensures k in a ==> a[k] == b[k]
    {
      if k.hour >= SinceHour(later, hours) {
        LegalRowsSurvive(k, now, retention, later, hours);
        assert Lookup(with.hourly, k) == Lookup(without.hourly, k);
      }
    }
    assert GroupRows(a, lk) == GroupRows(b, lk);
    SameGroup(a, b, lk);
  }
}
