/** The statistics tables, the retention setting, and the operations on them, each one transaction. */
module StatisticsStore {
  import opened Wrappers
  import opened Sums
  import opened Statistics

  const MAX_STATISTICS_RETENTION_HOURS: nat := 24 * 365
  const TRAFFIC_RETENTION_HOURS: nat := 30 * 24

  datatype LifetimeKey = LifetimeKey(dimension: Dimension, value: string)

  datatype LifetimeRow = LifetimeRow(stats: StatDelta, firstSeen: nat, lastSeen: nat)

  type Lifetime = map<LifetimeKey, LifetimeRow>

  /** The hourly table, the lifetime table, the stored setting and its cached copy (0 means permanent). */
  datatype State = State(hourly: Stats, lifetime: Lifetime, stored: Option<nat>, retention: nat)

  const INITIAL := State(map[], map[], None, 0)

  /** The retention the configuration on disk asks for; without one, statistics are permanent. */
  function Setting(s: State): nat {
    if s.stored.Some? then s.stored.value else 0
  }

  /** The cached setting is the stored one. */
  predicate Loaded(s: State) {
    s.retention == Setting(s)
  }

  function Name(k: HourlyStatKey): LifetimeKey {
    LifetimeKey(k.dimension, k.value)
  }

  function LifetimeStats(l: Lifetime, lk: LifetimeKey): StatDelta {
    if lk in l then l[lk].stats else ZERO
  }

  function Min(a: nat, b: nat): nat { if a < b then a else b }

  function Max(a: nat, b: nat): nat { if a < b then b else a }

  /** `x = x + excluded.x` on every counter. */
  function PlainAdd(a: StatDelta, b: StatDelta): StatDelta {
    StatDelta(a.queries + b.queries, a.blocked + b.blocked, a.forwarded + b.forwarded, a.failed + b.failed,
              a.requests + b.requests, a.latencyTotalMs + b.latencyTotalMs, a.latencySamples + b.latencySamples,
              TrafficTotals(a.traffic.clientBytesIn + b.traffic.clientBytesIn,
                            a.traffic.clientBytesOut + b.traffic.clientBytesOut,
                            a.traffic.upstreamBytesOut + b.traffic.upstreamBytesOut,
                            a.traffic.upstreamBytesIn + b.traffic.upstreamBytesIn,
                            a.traffic.cacheSavedBytes + b.traffic.cacheSavedBytes))
  }

  function UpsertHourly(hourly: Stats, k: HourlyStatKey, d: StatDelta): Stats {
    hourly[k := PlainAdd(Lookup(hourly, k), d)]
  }

  function UpsertedRow(l: Lifetime, lk: LifetimeKey, d: StatDelta, at: nat): LifetimeRow {
    if lk in l
    then LifetimeRow(PlainAdd(l[lk].stats, d), Min(l[lk].firstSeen, at), Max(l[lk].lastSeen, at))
    else LifetimeRow(d, at, at)
  }

  /** Whether every parameter of the upsert fits an i64. */
  predicate Fits(k: HourlyStatKey, d: StatDelta) {
    && k.hour < I64_LIMIT
    && d.queries < I64_LIMIT && d.blocked < I64_LIMIT && d.forwarded < I64_LIMIT && d.failed < I64_LIMIT
    && d.requests < I64_LIMIT && d.latencyTotalMs < I64_LIMIT && d.latencySamples < I64_LIMIT
    && d.traffic.clientBytesIn < I64_LIMIT && d.traffic.clientBytesOut < I64_LIMIT
    && d.traffic.upstreamBytesOut < I64_LIMIT && d.traffic.upstreamBytesIn < I64_LIMIT
    && d.traffic.cacheSavedBytes < I64_LIMIT
  }

  /** First hour of a window of `hours` hours ending now. */
  function SinceHour(now: nat, hours: nat): nat {
    (if now > hours * 3600 then now - hours * 3600 else 0) / 3600
  }

  function DetailHours(retention: nat): nat {
    if retention == 0 then MAX_STATISTICS_RETENTION_HOURS else retention
  }

  /** Whether a prune at `now` deletes the row. */
  predicate Expired(k: HourlyStatKey, now: nat, retention: nat) {
    var since := SinceHour(now, DetailHours(retention));
    if k.dimension == Total then k.hour < Min(since, SinceHour(now, TRAFFIC_RETENTION_HOURS)) else k.hour < since
  }

  function Pruned(hourly: Stats, now: nat, retention: nat): Stats {
    map k | k in hourly && !Expired(k, now, retention) :: hourly[k]
  }

  /** A row of the last `hours` hours, or a total row of the last 30 days. */
  predicate Recent(k: HourlyStatKey, hour: nat, hours: nat) {
    k.hour + hours >= hour || (k.dimension == Total && k.hour + 720 >= hour)
  }

  /** Exactly these rows are left, as they were. */
  ghost predicate KeptRows(before: Stats, after: Stats, hour: nat, hours: nat) {
    && (forall k :: k in after <==> k in before && Recent(k, hour, hours))
    && forall k :: k in after ==> after[k] == before[k]
  }

  lemma SinceHourIs(now: nat, hours: nat, h: nat)
    ensures h >= SinceHour(now, hours) <==> h + hours >= now / 3600
  {
  }

  lemma ExpiredIs(k: HourlyStatKey, now: nat, retention: nat)
    ensures Expired(k, now, retention) <==> !Recent(k, now / 3600, if retention == 0 then 8760 else retention)
  {
    SinceHourIs(now, DetailHours(retention), k.hour);
    SinceHourIs(now, TRAFFIC_RETENTION_HOURS, k.hour);
  }

  lemma PrunedKeeps(hourly: Stats, now: nat, retention: nat)
    ensures KeptRows(hourly, Pruned(hourly, now, retention), now / 3600, if retention == 0 then 8760 else retention)
  {
    forall k | k in hourly
      ensures k in Pruned(hourly, now, retention) <==>
              Recent(k, now / 3600, if retention == 0 then 8760 else retention)
    {
      ExpiredIs(k, now, retention);
    }
  }

  function Window(hourly: Stats, since: nat): Stats {
    map k | k in hourly && k.hour >= since :: hourly[k]
  }

  /** The window of `hours` hours at `now`: the rows whose hour is at most `hours` hours back, as they are. */
  lemma WindowIs(hourly: Stats, now: nat, hours: nat, k: HourlyStatKey)
    ensures var rows := Window(hourly, SinceHour(now, hours));
            (k in rows <==> k in hourly && k.hour + hours >= now / 3600) && (k in rows ==> rows[k] == hourly[k])
  {
    SinceHourIs(now, hours, k.hour);
  }

  /** A parameter fits when it is below 2^63. */
  lemma FitsExactly(k: HourlyStatKey, d: StatDelta)
    ensures Fits(k, d) <==>
            k.hour < 0x8000_0000_0000_0000 && forall c: Counter :: Count(d, c) < 0x8000_0000_0000_0000
  {
    if k.hour < 0x8000_0000_0000_0000 && forall c: Counter :: Count(d, c) < 0x8000_0000_0000_0000 {
      assert Count(d, Queries) < I64_LIMIT && Count(d, Blocked) < I64_LIMIT && Count(d, Forwarded) < I64_LIMIT;
      assert Count(d, Failed) < I64_LIMIT && Count(d, Requests) < I64_LIMIT && Count(d, LatencyTotal) < I64_LIMIT;
      assert Count(d, LatencySamples) < I64_LIMIT && Count(d, ClientBytesIn) < I64_LIMIT;
      assert Count(d, ClientBytesOut) < I64_LIMIT && Count(d, UpstreamBytesOut) < I64_LIMIT;
      assert Count(d, UpstreamBytesIn) < I64_LIMIT && Count(d, CacheSavedBytes) < I64_LIMIT;
    }
  }

  // ------------------------------------------------- effects of the statements

  /** The hourly table after all rows of an aggregated batch are upserted. */
  ghost function Commit(hourly: Stats, stats: Stats): Stats {
    map k | k in hourly.Keys + stats.Keys :: PlainAdd(Lookup(hourly, k), Lookup(stats, k))
  }

  ghost function Names(rows: Stats): set<LifetimeKey> {
    set k | k in rows :: Name(k)
  }

  ghost function CommitLifetime(l: Lifetime, stats: Stats, hour: nat, at: nat): Lifetime {
    map lk | lk in l.Keys + Names(stats) ::
      var k := HourlyStatKey(hour, lk.dimension, lk.value);
      if k !in stats && lk in l then l[lk] else UpsertedRow(l, lk, Lookup(stats, k), at)
  }

  ghost function GroupRows(rows: Stats, lk: LifetimeKey): set<HourlyStatKey> {
    set k | k in rows && Name(k) == lk
  }

  /** `SUM(counter)` over the rows of one (dimension, value) group. */
  ghost function RowsSum(rows: Stats, lk: LifetimeKey, c: Counter): nat {
    Sum(GroupRows(rows, lk), (k: HourlyStatKey) => Count(Lookup(rows, k), c))
  }

  ghost function GroupHours(rows: Stats, lk: LifetimeKey): set<nat> {
    set k | k in GroupRows(rows, lk) :: k.hour
  }

  lemma {:induction false} HasBounds(s: set<nat>)
    requires s != {}
    ensures exists m :: m in s && forall n :: n in s ==> m <= n
    ensures exists m :: m in s && forall n :: n in s ==> n <= m
    decreases s
  {
    var x :| x in s;
    if s == {x} {
      assert forall n :: n in s ==> n == x;
    } else {
      HasBounds(s - {x});
      var lo :| lo in s - {x} && forall n :: n in s - {x} ==> lo <= n;
      var hi :| hi in s - {x} && forall n :: n in s - {x} ==> n <= hi;
      forall n | n in s ensures Min(lo, x) <= n <= Max(hi, x) {
        assert n == x || n in s - {x};
      }
      assert Min(lo, x) in s && Max(hi, x) in s;
    }
  }

  /** `MIN(hour)`. */
  ghost function Earliest(s: set<nat>): (m: nat)
    requires s != {}
    ensures m in s && forall n :: n in s ==> m <= n
  {
    HasBounds(s);
    var m :| m in s && forall n :: n in s ==> m <= n;
    m
  }

  /** `MAX(hour)`. */
  ghost function Latest(s: set<nat>): (m: nat)
    requires s != {}
    ensures m in s && forall n :: n in s ==> n <= m
  {
    HasBounds(s);
    var m :| m in s && forall n :: n in s ==> n <= m;
    m
  }

  /** The seven counters the rebuild copies; the byte columns keep their default of 0. */
  ghost function RebuiltStats(rows: Stats, lk: LifetimeKey): StatDelta {
    StatDelta(RowsSum(rows, lk, Queries), RowsSum(rows, lk, Blocked), RowsSum(rows, lk, Forwarded),
              RowsSum(rows, lk, Failed), RowsSum(rows, lk, Requests), RowsSum(rows, lk, LatencyTotal),
              RowsSum(rows, lk, LatencySamples), NO_TRAFFIC)
  }

  /** `INSERT ... SELECT ... GROUP BY dimension, value` into the emptied lifetime table. */
  ghost function Rebuilt(rows: Stats): Lifetime {
    map lk | lk in Names(rows) && GroupHours(rows, lk) != {} ::
      LifetimeRow(RebuiltStats(rows, lk),
                  Earliest(GroupHours(rows, lk)) * 3600, Latest(GroupHours(rows, lk)) * 3600)
  }

  // ------------------------------------------------------------- the steps

  /** One public call, with the clock it reads and whether its transaction commits. */
  datatype Step =
    | InsertQueryEvents(entries: seq<QueryEvent>, now: nat, commits: bool)
    | PruneExpired(now: nat, retentionHours: nat, commits: bool)
    | SaveConfig(retentionHours: nat, now: nat, commits: bool)
    | LoadConfig
    | ClearStatistics(commits: bool)
    | Reopen                                      // the process ends and the database is opened again

  /** Whether all parameters of a batch's upserts fit. */
  ghost predicate BatchFits(retention: nat, stats: Stats, now: nat) {
    && (forall k :: k in stats ==> Fits(k, stats[k]))
    && (retention == 0 && stats != map[] ==> now < I64_LIMIT)
  }

  /** Whether an insert writes its batch. */
  ghost predicate Inserts(s: State, step: Step)
    requires step.InsertQueryEvents?
  {
    step.entries != [] && step.commits && BatchFits(s.retention, Aggregate(step.entries, step.now), step.now)
  }

  predicate Saves(step: Step)
    requires step.SaveConfig?
  {
    step.commits && step.retentionHours <= MAX_STATISTICS_RETENTION_HOURS
  }

  /** Whether a save turns a finite retention into permanent statistics. */
  predicate Switches(s: State, step: Step)
    requires step.SaveConfig?
  {
    Saves(step) && step.retentionHours == 0 && s.retention != 0
  }

  ghost function Next(s: State, step: Step): State {
    match step
    case InsertQueryEvents(entries, now, _) =>
      if !Inserts(s, step) then s
      else
        var stats := Aggregate(entries, now);
        s.(hourly := Commit(s.hourly, stats),
        lifetime := if s.retention == 0 then CommitLifetime(s.lifetime, stats, now / 3600, now) else s.lifetime)
    case PruneExpired(now, hours, commits) =>
      if commits then s.(hourly := Pruned(s.hourly, now, hours)) else s
    case SaveConfig(hours, now, _) =>
      if !Saves(step) then s
      else
        State(s.hourly,
              if Switches(s, step) then Rebuilt(Window(s.hourly, SinceHour(now, s.retention))) else s.lifetime,
              Some(hours), hours)
    case LoadConfig => if s.stored.Some? then s.(retention := s.stored.value) else s
    case ClearStatistics(commits) => if commits then s.(hourly := map[], lifetime := map[]) else s
    case Reopen => s.(retention := 0)
  }

  ghost function Run(s: State, steps: seq<Step>): State {
    if steps == [] then s else Next(Run(s, steps[..|steps| - 1]), steps[|steps| - 1])
  }

  // --------------------------------------------------------- reading totals

  datatype DashboardTotals = DashboardTotals(queries: nat, blocked: nat, forwarded: nat, failed: nat,
                                             traffic: TrafficTotals, startedAt: Option<nat>, endedAt: Option<nat>)

  const TOTAL_KEY := LifetimeKey(Total, "")

  /** A stored sum that has outgrown an i64 is no longer an integer to the reader. */
  predicate Readable(d: StatDelta) {
    && d.queries < I64_LIMIT && d.blocked < I64_LIMIT && d.forwarded < I64_LIMIT && d.failed < I64_LIMIT
    && d.traffic.clientBytesIn < I64_LIMIT && d.traffic.clientBytesOut < I64_LIMIT
    && d.traffic.upstreamBytesOut < I64_LIMIT && d.traffic.upstreamBytesIn < I64_LIMIT
    && d.traffic.cacheSavedBytes < I64_LIMIT
  }

  function ReadTotals(d: StatDelta, startedAt: Option<nat>, endedAt: Option<nat>): Result<DashboardTotals, string> {
    if Readable(d)
    then Ok(DashboardTotals(d.queries, d.blocked, d.forwarded, d.failed, d.traffic, startedAt, endedAt))
    else Err("读取统计失败")
  }

  /** All twelve sums of a group. */
  ghost function SummedStats(rows: Stats, lk: LifetimeKey): StatDelta {
    RebuiltStats(rows, lk).(
      traffic := TrafficTotals(RowsSum(rows, lk, ClientBytesIn), RowsSum(rows, lk, ClientBytesOut),
                               RowsSum(rows, lk, UpstreamBytesOut), RowsSum(rows, lk, UpstreamBytesIn),
                               RowsSum(rows, lk, CacheSavedBytes)))
  }

  /** `MIN(hour) * 3600` of the total rows, NULL when there are none. */
  ghost function StartedAt(rows: Stats): Option<nat> {
    var seen := GroupHours(rows, TOTAL_KEY);
    if seen == {} then None else Some(Earliest(seen) * 3600)
  }

  ghost function EndedAt(rows: Stats): Option<nat> {
    var seen := GroupHours(rows, TOTAL_KEY);
    if seen == {} then None else Some(Latest(seen) * 3600)
  }

  /** The totals `log_stats` shows for a window of `hours` hours, 0 meaning the lifetime row. */
  ghost function LogTotals(s: State, hours: nat, now: nat): Result<DashboardTotals, string> {
    var since := if hours == 0 then 0 else SinceHour(now, hours);
    if since == 0 then
      if TOTAL_KEY in s.lifetime
      then ReadTotals(s.lifetime[TOTAL_KEY].stats, Some(s.lifetime[TOTAL_KEY].firstSeen),
                      Some(s.lifetime[TOTAL_KEY].lastSeen))
      else ReadTotals(ZERO, None, None)
    else
      var rows := Window(s.hourly, since);
      ReadTotals(SummedStats(rows, TOTAL_KEY), StartedAt(rows), EndedAt(rows))
  }

  /** Totals without a query, a byte or a span. */
  const NOTHING_SHOWN := DashboardTotals(0, 0, 0, 0, NO_TRAFFIC, None, None)

  ghost predicate ShowsNothing(s: State) {
    forall hours: nat, now: nat :: LogTotals(s, hours, now) == Ok(NOTHING_SHOWN)
  }

  lemma NoRows(rows: Stats)
    requires rows == map[]
    ensures SummedStats(rows, TOTAL_KEY) == ZERO && StartedAt(rows) == None && EndedAt(rows) == None
  {
    assert GroupRows(rows, TOTAL_KEY) == {};
    assert GroupHours(rows, TOTAL_KEY) == {};
  }

  lemma EmptyTotals(s: State, hours: nat, now: nat)
    requires s.hourly == map[] && s.lifetime == map[]
    ensures LogTotals(s, hours, now) == Ok(NOTHING_SHOWN)
  {
    var rows := Window(s.hourly, SinceHour(now, hours));
    assert rows == map[];
    NoRows(rows);
  }

  lemma EmptyShowsNothing(s: State)
    requires s.hourly == map[] && s.lifetime == map[]
    ensures ShowsNothing(s)
  {
    forall hours: nat, now: nat ensures LogTotals(s, hours, now) == Ok(NOTHING_SHOWN) {
      EmptyTotals(s, hours, now);
    }
  }

  // ---------------------------------------------- facts about single statements

  lemma CountPlainAdd(a: StatDelta, b: StatDelta, c: Counter)
    ensures Count(PlainAdd(a, b), c) == Count(a, c) + Count(b, c)
  {
  }

  lemma PlainAddZero(d: StatDelta)
    ensures PlainAdd(ZERO, d) == d && PlainAdd(d, ZERO) == d
  {
  }

  lemma CommitLookup(hourly: Stats, stats: Stats, k: HourlyStatKey)
    ensures Lookup(Commit(hourly, stats), k) == PlainAdd(Lookup(hourly, k), Lookup(stats, k))
  {
    var all := Commit(hourly, stats);
    if k in hourly.Keys + stats.Keys {
      assert all[k] == PlainAdd(Lookup(hourly, k), Lookup(stats, k));
    } else {
      assert k !in all;
      PlainAddZero(ZERO);
    }
  }

  lemma CommitElsewhere(hourly: Stats, before: Stats, k: HourlyStatKey, d: StatDelta, x: HourlyStatKey)
    requires x != k
    ensures Lookup(Commit(hourly, before[k := d]), x) == Lookup(Commit(hourly, before), x)
  {
    assert Lookup(before[k := d], x) == Lookup(before, x);
    CommitLookup(hourly, before, x);
    CommitLookup(hourly, before[k := d], x);
  }

  lemma CommitThere(hourly: Stats, before: Stats, k: HourlyStatKey, d: StatDelta)
    requires k !in before
    ensures Lookup(Commit(hourly, before[k := d]), k) == PlainAdd(Lookup(Commit(hourly, before), k), d)
  {
    CommitLookup(hourly, before, k);
    CommitLookup(hourly, before[k := d], k);
    PlainAddZero(Lookup(hourly, k));
  }

  lemma SameTables(a: Stats, b: Stats)
    requires forall k :: (k in a <==> k in b) && Lookup(a, k) == Lookup(b, k)
    ensures a == b
  {
    forall k | k in a ensures a[k] == b[k] {
      assert Lookup(a, k) == Lookup(b, k);
    }
  }

  /** Upserting one more row of a batch. */
  lemma CommitOneMore(hourly: Stats, before: Stats, k: HourlyStatKey, d: StatDelta)
    requires k !in before
    ensures Commit(hourly, before[k := d]) == UpsertHourly(Commit(hourly, before), k, d)
  {
    var lhs, rhs := Commit(hourly, before[k := d]), UpsertHourly(Commit(hourly, before), k, d);
    forall x ensures Lookup(lhs, x) == Lookup(rhs, x) {
      if x == k {
        CommitThere(hourly, before, k, d);
      } else {
        CommitElsewhere(hourly, before, k, d, x);
      }
    }
    SameTables(lhs, rhs);
  }

  lemma NamesExtended(rows: Stats, k: HourlyStatKey, d: StatDelta)
    ensures Names(rows[k := d]) == Names(rows) + {Name(k)}
  {
    var after := rows[k := d];
    forall lk | lk in Names(rows) ensures lk in Names(after) {
      var x :| x in rows && Name(x) == lk;
      assert x in after;
    }
    assert k in after;
  }

  lemma CommitLifetimeOneMore(l: Lifetime, before: Stats, k: HourlyStatKey, d: StatDelta, at: nat)
    requires k !in before && forall x :: x in before ==> x.hour == k.hour
    ensures var rest := CommitLifetime(l, before, k.hour, at);
            CommitLifetime(l, before[k := d], k.hour, at) == rest[Name(k) := UpsertedRow(rest, Name(k), d, at)]
  {
    NamesExtended(before, k, d);
    var lhs, rest := CommitLifetime(l, before[k := d], k.hour, at), CommitLifetime(l, before, k.hour, at);
    var rhs := rest[Name(k) := UpsertedRow(rest, Name(k), d, at)];
    assert lhs.Keys == rhs.Keys;
    forall lk | lk in lhs ensures lhs[lk] == rhs[lk] {
      if lk == Name(k) {
        assert HourlyStatKey(k.hour, lk.dimension, lk.value) == k;
        assert Name(k) in rest <==> Name(k) in l by {
          assert Name(k) !in Names(before);
        }
      }
    }
  }

  lemma RowsSumExtended(rows: Stats, k: HourlyStatKey, d: StatDelta, lk: LifetimeKey, c: Counter)
    requires k !in rows
    ensures RowsSum(rows[k := d], lk, c) == RowsSum(rows, lk, c) + if Name(k) == lk then Count(d, c) else 0
  {
    var f := (x: HourlyStatKey) => Count(Lookup(rows, x), c);
    var g := (x: HourlyStatKey) => Count(Lookup(rows[k := d], x), c);
    SumCongruent(GroupRows(rows, lk), f, g);
    if Name(k) == lk {
      SumPick(GroupRows(rows[k := d], lk), g, k);
      assert GroupRows(rows[k := d], lk) - {k} == GroupRows(rows, lk);
    } else {
      assert GroupRows(rows[k := d], lk) == GroupRows(rows, lk);
    }
  }

  function Accumulate(d: StatDelta, more: StatDelta): StatDelta {
    PlainAdd(d, more).(traffic := NO_TRAFFIC)
  }

  function AccumulatedRow(l: Lifetime, k: HourlyStatKey, d: StatDelta): LifetimeRow {
    if Name(k) in l
    then LifetimeRow(Accumulate(l[Name(k)].stats, d), Min(l[Name(k)].firstSeen, k.hour * 3600),
                     Max(l[Name(k)].lastSeen, k.hour * 3600))
    else LifetimeRow(Accumulate(ZERO, d), k.hour * 3600, k.hour * 3600)
  }

  lemma GroupHoursExtended(rows: Stats, k: HourlyStatKey, d: StatDelta, lk: LifetimeKey)
    requires k !in rows
    ensures GroupHours(rows[k := d], lk) == GroupHours(rows, lk) + if Name(k) == lk then {k.hour} else {}
  {
    assert GroupRows(rows[k := d], lk) == GroupRows(rows, lk) + if Name(k) == lk then {k} else {};
  }

  lemma RebuiltNames(rows: Stats, lk: LifetimeKey)
    ensures lk in Names(rows) <==> GroupHours(rows, lk) != {}
    ensures lk !in Names(rows) ==> forall c :: RowsSum(rows, lk, c) == 0
  {
    if lk in Names(rows) {
      var k :| k in rows && Name(k) == lk;
      assert k in GroupRows(rows, lk);
      assert k.hour in GroupHours(rows, lk);
    } else {
      assert GroupRows(rows, lk) == {};
    }
  }

  lemma BoundsExtended(s: set<nat>, h: nat)
    ensures Earliest(s + {h}) == if s == {} then h else Min(Earliest(s), h)
    ensures Latest(s + {h}) == if s == {} then h else Max(Latest(s), h)
  {
    assert h in s + {h};
  }

  lemma RebuiltRow(rows: Stats, lk: LifetimeKey)
    ensures lk in Rebuilt(rows) <==> lk in Names(rows)
    ensures lk in Rebuilt(rows) ==>
              && GroupHours(rows, lk) != {}
              && Rebuilt(rows)[lk] == LifetimeRow(RebuiltStats(rows, lk), Earliest(GroupHours(rows, lk)) * 3600,
                                                  Latest(GroupHours(rows, lk)) * 3600)
  {
    RebuiltNames(rows, lk);
  }

  lemma RebuiltRowExtended(rows: Stats, k: HourlyStatKey, d: StatDelta)
    requires k !in rows
    ensures Name(k) in Rebuilt(rows[k := d])
    ensures Rebuilt(rows[k := d])[Name(k)] == AccumulatedRow(Rebuilt(rows), k, d)
  {
    var lk, after := Name(k), rows[k := d];
    RebuiltRow(rows, lk);
    NamesExtended(rows, k, d);
    RebuiltRow(after, lk);
    RebuiltStatsExtended(rows, k, d, lk);
    GroupHoursExtended(rows, k, d, lk);
    BoundsExtended(GroupHours(rows, lk), k.hour);
    RebuiltNames(rows, lk);
  }

  /** A group's sums and hours depend on its own rows only. */
  lemma SameGroup(a: Stats, b: Stats, lk: LifetimeKey)
    requires GroupRows(a, lk) == GroupRows(b, lk)
    requires forall k :: k in GroupRows(a, lk) ==> a[k] == b[k]
    ensures RebuiltStats(a, lk) == RebuiltStats(b, lk) && SummedStats(a, lk) == SummedStats(b, lk)
    ensures GroupHours(a, lk) == GroupHours(b, lk)
    ensures forall c :: RowsSum(a, lk, c) == RowsSum(b, lk, c)
  {
    forall c: Counter ensures RowsSum(a, lk, c) == RowsSum(b, lk, c) {
      SumCongruent(GroupRows(a, lk), (k: HourlyStatKey) => Count(Lookup(a, k), c),
                   (k: HourlyStatKey) => Count(Lookup(b, k), c));
    }
    assert RowsSum(a, lk, Queries) == RowsSum(b, lk, Queries);
  }

  lemma RebuiltElsewhere(rows: Stats, k: HourlyStatKey, d: StatDelta, lk: LifetimeKey)
    requires k !in rows && lk != Name(k)
    ensures lk in Rebuilt(rows[k := d]) <==> lk in Rebuilt(rows)
    ensures lk in Rebuilt(rows) ==> Rebuilt(rows[k := d])[lk] == Rebuilt(rows)[lk]
  {
    assert GroupRows(rows[k := d], lk) == GroupRows(rows, lk);
    SameGroup(rows[k := d], rows, lk);
    NamesExtended(rows, k, d);
    RebuiltRow(rows, lk);
    RebuiltRow(rows[k := d], lk);
  }

  lemma SameLifetimes(a: Lifetime, b: Lifetime)
    requires forall lk :: (lk in a <==> lk in b) && (lk in a ==> a[lk] == b[lk])
    ensures a == b
  {
  }

  /** Grouping one more row. */
  lemma RebuiltOneMore(rows: Stats, k: HourlyStatKey, d: StatDelta)
    requires k !in rows
    ensures Rebuilt(rows[k := d]) == Rebuilt(rows)[Name(k) := AccumulatedRow(Rebuilt(rows), k, d)]
  {
    var lhs, rhs := Rebuilt(rows[k := d]), Rebuilt(rows)[Name(k) := AccumulatedRow(Rebuilt(rows), k, d)];
    forall lk ensures (lk in lhs <==> lk in rhs) && (lk in lhs ==> lhs[lk] == rhs[lk]) {
      if lk == Name(k) {
        RebuiltRowExtended(rows, k, d);
      } else {
        RebuiltElsewhere(rows, k, d, lk);
      }
    }
    SameLifetimes(lhs, rhs);
  }

  lemma RebuiltStatsExtended(rows: Stats, k: HourlyStatKey, d: StatDelta, lk: LifetimeKey)
    requires k !in rows
    ensures RebuiltStats(rows[k := d], lk)
         == if Name(k) == lk then Accumulate(RebuiltStats(rows, lk), d) else RebuiltStats(rows, lk)
    ensures lk !in Names(rows) ==> RebuiltStats(rows, lk) == ZERO
  {
    RowsSumExtended(rows, k, d, lk, Queries);
    RowsSumExtended(rows, k, d, lk, Blocked);
    RowsSumExtended(rows, k, d, lk, Forwarded);
    RowsSumExtended(rows, k, d, lk, Failed);
    RowsSumExtended(rows, k, d, lk, Requests);
    RowsSumExtended(rows, k, d, lk, LatencyTotal);
    RowsSumExtended(rows, k, d, lk, LatencySamples);
    RebuiltNames(rows, lk);
  }

  // --------------------------------------------------------- the database

  /** The database object: every method is one transaction under the connection mutex. */
  class Database {
    var hourly: Stats
    var lifetime: Lifetime
    var stored: Option<nat>
    var retention: nat

    ghost function View(): State
      reads this
    {
      State(hourly, lifetime, stored, retention)
    }

    /** Opens the tables on disk; the setting is cached later. */
    constructor (hourly: Stats, lifetime: Lifetime, stored: Option<nat>)
      ensures View() == State(hourly, lifetime, stored, 0)
    {
      this.hourly, this.lifetime, this.stored, retention := hourly, lifetime, stored, 0;
    }

    method InsertQueryEvents(entries: seq<QueryEvent>, now: nat, commits: bool) returns (r: Result<(), string>)
      modifies this
      ensures View() == Next(old(View()), Step.InsertQueryEvents(entries, now, commits))
      ensures r.Ok? <==> entries == [] || Inserts(old(View()), Step.InsertQueryEvents(entries, now, commits))
    {
      if entries == [] {
        return Ok(());
      }
      var stats := AggregateHourlyStats(entries, now);
      BatchHour(entries, now);
      var fits, txHourly, txLifetime := UpsertBatch(stats, now);
      if !fits {
        return Err("超出数据库 INTEGER 范围");
      }
      if !commits {
        return Err("提交查询数据批量写入失败");
      }
      hourly, lifetime := txHourly, txLifetime;
      r := Ok(());
    }

    /** The upserts of a batch, in the hash map's own order; one that does not fit abandons the transaction. */
    method UpsertBatch(stats: Stats, now: nat) returns (fits: bool, txHourly: Stats, txLifetime: Lifetime)
      requires forall k :: k in stats ==> k.hour == now / 3600
      ensures fits <==> BatchFits(retention, stats, now)
      ensures fits ==> txHourly == Commit(hourly, stats)
      ensures fits ==>
                txLifetime == if retention == 0 then CommitLifetime(lifetime, stats, now / 3600, now) else lifetime
    {
      var todo := stats.Keys;
      ghost var part: Stats := map[];
      fits, txHourly, txLifetime := true, hourly, lifetime;
      CommitNothing(hourly, lifetime, now / 3600, now);
      while todo != {}
        invariant fits && todo !! part.Keys && todo + part.Keys == stats.Keys
        invariant forall k :: k in part ==> part[k] == stats[k]
        invariant txHourly == Commit(hourly, part)
        invariant txLifetime == if retention == 0 then CommitLifetime(lifetime, part, now / 3600, now) else lifetime
        invariant BatchFits(retention, part, now)
        decreases todo
      {
        var k :| k in todo;
        if !Fits(k, stats[k]) || (retention == 0 && now >= I64_LIMIT) {
          fits := false;
          return;
        }
        CommitOneMore(hourly, part, k, stats[k]);
        CommitLifetimeOneMore(lifetime, part, k, stats[k], now);
        txHourly := UpsertHourly(txHourly, k, stats[k]);
        if retention == 0 {
          txLifetime := txLifetime[Name(k) := UpsertedRow(txLifetime, Name(k), stats[k], now)];
        }
        todo, part := todo - {k}, part[k := stats[k]];
      }
      assert part == stats;
    }

    method PruneExpired(now: nat, retentionHours: nat, commits: bool) returns (r: Result<(), string>)
      modifies this
      ensures View() == Next(old(View()), Step.PruneExpired(now, retentionHours, commits))
      ensures r.Ok? <==> commits
      ensures r.Ok? ==> KeptRows(old(hourly), hourly, now / 3600, if retentionHours == 0 then 8760 else retentionHours)
      ensures r.Ok? ==> lifetime == old(lifetime) && stored == old(stored) && retention == old(retention)
      ensures r.Err? ==> View() == old(View())
    {
      var statisticsSince := SinceHour(now, DetailHours(retentionHours));
      var totalSince := Min(statisticsSince, SinceHour(now, TRAFFIC_RETENTION_HOURS));
      var tx := map k | k in hourly && !(k.dimension != Total && k.hour < statisticsSince) :: hourly[k];
      tx := map k | k in tx && !(k.dimension == Total && k.hour < totalSince) :: tx[k];
      if !commits {
        return Err("提交查询数据清理失败");
      }
      PrunedKeeps(hourly, now, retentionHours);
      assert tx == Pruned(hourly, now, retentionHours);
      hourly := tx;
      r := Ok(());
    }

    method SaveConfig(retentionHours: nat, now: nat, commits: bool) returns (r: Result<(), string>)
      modifies this
      ensures View() == Next(old(View()), Step.SaveConfig(retentionHours, now, commits))
      ensures r.Ok? <==> commits && retentionHours <= 8760
      ensures r.Ok? ==> Loaded(View()) && Setting(View()) == retentionHours && hourly == old(hourly)
      ensures r.Err? ==> View() == old(View())
    {
      if retentionHours > MAX_STATISTICS_RETENTION_HOURS {
        return Err("统计数据保留时间必须为永久或 1 小时到 365 天");
      }
      var txLifetime := lifetime;
      if retentionHours == 0 && retention != 0 {
        txLifetime := RebuildLifetimeStatistics(SinceHour(now, retention));
      }
      if !commits {
        return Err("保存数据库配置失败");
      }
      lifetime, stored, retention := txLifetime, Some(retentionHours), retentionHours;
      r := Ok(());
    }

    /** The rows of the window, grouped by (dimension, value). */
    method RebuildLifetimeStatistics(since: nat) returns (table: Lifetime)
      ensures table == Rebuilt(Window(hourly, since))
    {
      table := map[];
      var rows := Window(hourly, since);
      var todo := rows.Keys;
      ghost var part: Stats := map[];
      RebuiltNothing();
      while todo != {}
        invariant todo !! part.Keys && todo + part.Keys == rows.Keys
        invariant forall k :: k in part ==> part[k] == rows[k]
        invariant table == Rebuilt(part)
        decreases todo
      {
        var k :| k in todo;
        RebuiltOneMore(part, k, rows[k]);
        table := table[Name(k) := AccumulatedRow(table, k, rows[k])];
        todo, part := todo - {k}, part[k := rows[k]];
      }
      assert part == rows;
    }

    method LoadConfig()
      modifies this
      ensures View() == Next(old(View()), Step.LoadConfig)
    {
      if stored.Some? {
        retention := stored.value;
      }
    }

    method ClearStatistics(commits: bool) returns (r: Result<(), string>)
      modifies this
      ensures View() == Next(old(View()), Step.ClearStatistics(commits))
      ensures r.Ok? <==> commits
      ensures r.Ok? ==> ShowsNothing(View()) && stored == old(stored) && retention == old(retention)
      ensures r.Err? ==> View() == old(View())
    {
      if !commits {
        return Err("提交统计数据清除失败");
      }
      hourly, lifetime := map[], map[];
      EmptyShowsNothing(View());
      r := Ok(());
    }

    method LogStats(retentionHours: nat, now: nat) returns (r: Result<DashboardTotals, string>)
      ensures r == LogTotals(View(), retentionHours, now)
    {
      var since := if retentionHours == 0 then 0 else SinceHour(now, retentionHours);
      if since == 0 {
        if TOTAL_KEY in lifetime {
          var row := lifetime[TOTAL_KEY];
          return ReadTotals(row.stats, Some(row.firstSeen), Some(row.lastSeen));
        }
        return ReadTotals(ZERO, None, None);
      }
      var rows := Window(hourly, since);
      var todo := set k | k in rows.Keys && Name(k) == TOTAL_KEY;
      var sums, startedAt, endedAt := ZERO, None, None;
      ghost var done: map<HourlyStatKey, StatDelta> := map[];
      while todo != {}
        invariant todo !! done.Keys && todo + done.Keys == GroupRows(rows, TOTAL_KEY)
        invariant forall k :: k in done ==> done[k] == rows[k]
        invariant sums == SummedStats(done, TOTAL_KEY)
        invariant startedAt == StartedAt(done) && endedAt == EndedAt(done)
        decreases todo
      {
        var k :| k in todo;
        SummedOneMore(done, k, rows[k]);
        SpanOneMore(done, k, rows[k]);
        sums := PlainAdd(sums, rows[k]);
        startedAt := Some(if startedAt.Some? then Min(startedAt.value, k.hour * 3600) else k.hour * 3600);
        endedAt := Some(if endedAt.Some? then Max(endedAt.value, k.hour * 3600) else k.hour * 3600);
        todo, done := todo - {k}, done[k := rows[k]];
      }
      SameGroup(done, rows, TOTAL_KEY);
      r := ReadTotals(sums, startedAt, endedAt);
    }
  }

  lemma {:induction false} BatchHourOf(ps: seq<Posting>, hour: nat)
    requires forall i :: 0 <= i < |ps| ==> ps[i].key.hour == hour
    ensures forall k :: k in PostAll(map[], ps) ==> k.hour == hour
  {
    if ps != [] {
      BatchHourOf(ps[..|ps| - 1], hour);
    }
  }

  lemma {:induction false} PostingsHour(entries: seq<QueryEvent>, hour: nat)
    ensures forall i :: 0 <= i < |AllPostings(entries, hour)| ==> AllPostings(entries, hour)[i].key.hour == hour
  {
    if entries != [] {
      PostingsHour(entries[..|entries| - 1], hour);
    }
  }

  /** All rows of a batch are of one hour. */
  lemma BatchHour(entries: seq<QueryEvent>, now: nat)
    ensures forall k :: k in Aggregate(entries, now) ==> k.hour == now / 3600
  {
    PostingsHour(entries, now / 3600);
    BatchHourOf(AllPostings(entries, now / 3600), now / 3600);
  }

  lemma CommitNothing(hourly: Stats, l: Lifetime, hour: nat, at: nat)
    ensures Commit(hourly, map[]) == hourly
    ensures CommitLifetime(l, map[], hour, at) == l
  {
    forall k ensures Lookup(Commit(hourly, map[]), k) == Lookup(hourly, k) {
      CommitLookup(hourly, map[], k);
      PlainAddZero(Lookup(hourly, k));
    }
    SameTables(Commit(hourly, map[]), hourly);
    assert Names(map[]) == {};
    SameLifetimes(CommitLifetime(l, map[], hour, at), l);
  }

  lemma RebuiltNothing()
    ensures Rebuilt(map[]) == map[]
  {
    assert Names(map[]) == {};
  }

  lemma SummedOneMore(rows: Stats, k: HourlyStatKey, d: StatDelta)
    requires k !in rows && Name(k) == TOTAL_KEY
    ensures SummedStats(rows[k := d], TOTAL_KEY) == PlainAdd(SummedStats(rows, TOTAL_KEY), d)
  {
    forall c: Counter
      ensures Count(SummedStats(rows[k := d], TOTAL_KEY), c) == Count(PlainAdd(SummedStats(rows, TOTAL_KEY), d), c)
    {
      RowsSumExtended(rows, k, d, TOTAL_KEY, c);
      CountPlainAdd(SummedStats(rows, TOTAL_KEY), d, c);
      CountSummed(rows, TOTAL_KEY, c);
      CountSummed(rows[k := d], TOTAL_KEY, c);
    }
    CountsDetermine(SummedStats(rows[k := d], TOTAL_KEY), PlainAdd(SummedStats(rows, TOTAL_KEY), d));
  }

  lemma SpanOneMore(rows: Stats, k: HourlyStatKey, d: StatDelta)
    requires k !in rows && Name(k) == TOTAL_KEY
    ensures StartedAt(rows[k := d])
         == Some(if StartedAt(rows).Some? then Min(StartedAt(rows).value, k.hour * 3600) else k.hour * 3600)
    ensures EndedAt(rows[k := d])
         == Some(if EndedAt(rows).Some? then Max(EndedAt(rows).value, k.hour * 3600) else k.hour * 3600)
  {
    GroupHoursExtended(rows, k, d, TOTAL_KEY);
    BoundsExtended(GroupHours(rows, TOTAL_KEY), k.hour);
  }

  lemma CountSummed(rows: Stats, lk: LifetimeKey, c: Counter)
    ensures Count(SummedStats(rows, lk), c) == RowsSum(rows, lk, c)
  {
  }
}
