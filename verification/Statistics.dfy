/** The in-memory folding of a batch of query events into hourly statistics deltas. */
module Statistics {
  import opened Wrappers
  import opened Sums

  const U64_MAX: nat := 0xFFFF_FFFF_FFFF_FFFF

  datatype Dimension = Total | Domain | Client | Upstream | Blocklist

  datatype HourlyStatKey = HourlyStatKey(hour: nat, dimension: Dimension, value: string)

  datatype TrafficTotals = TrafficTotals(clientBytesIn: nat, clientBytesOut: nat, upstreamBytesOut: nat,
                                         upstreamBytesIn: nat, cacheSavedBytes: nat)

  datatype StatDelta = StatDelta(queries: nat, blocked: nat, forwarded: nat, failed: nat, requests: nat,
                                 latencyTotalMs: nat, latencySamples: nat, traffic: TrafficTotals)

  const NO_TRAFFIC := TrafficTotals(0, 0, 0, 0, 0)
  const ZERO := StatDelta(0, 0, 0, 0, 0, 0, 0, NO_TRAFFIC)

  /** The twelve counters of a row, so that a law about all of them is stated once. */
  datatype Counter =
    | Queries | Blocked | Forwarded | Failed | Requests | LatencyTotal | LatencySamples
    | ClientBytesIn | ClientBytesOut | UpstreamBytesOut | UpstreamBytesIn | CacheSavedBytes
  {
    /** The five traffic counters. */
    predicate IsBytes() {
      ClientBytesIn? || ClientBytesOut? || UpstreamBytesOut? || UpstreamBytesIn? || CacheSavedBytes?
    }
  }

  function Count(d: StatDelta, c: Counter): nat {
    match c
    case Queries => d.queries
    case Blocked => d.blocked
    case Forwarded => d.forwarded
    case Failed => d.failed
    case Requests => d.requests
    case LatencyTotal => d.latencyTotalMs
    case LatencySamples => d.latencySamples
    case ClientBytesIn => d.traffic.clientBytesIn
    case ClientBytesOut => d.traffic.clientBytesOut
    case UpstreamBytesOut => d.traffic.upstreamBytesOut
    case UpstreamBytesIn => d.traffic.upstreamBytesIn
    case CacheSavedBytes => d.traffic.cacheSavedBytes
  }

  /** A row is determined by its counters. */
  lemma CountsDetermine(a: StatDelta, b: StatDelta)
    requires forall c: Counter :: Count(a, c) == Count(b, c)
    ensures a == b
  {
    assert Count(a, Queries) == Count(b, Queries) && Count(a, Blocked) == Count(b, Blocked);
    assert Count(a, Forwarded) == Count(b, Forwarded) && Count(a, Failed) == Count(b, Failed);
    assert Count(a, Requests) == Count(b, Requests) && Count(a, LatencyTotal) == Count(b, LatencyTotal);
    assert Count(a, LatencySamples) == Count(b, LatencySamples);
    assert Count(a, ClientBytesIn) == Count(b, ClientBytesIn) && Count(a, ClientBytesOut) == Count(b, ClientBytesOut);
    assert Count(a, UpstreamBytesOut) == Count(b, UpstreamBytesOut);
    assert Count(a, UpstreamBytesIn) == Count(b, UpstreamBytesIn);
    assert Count(a, CacheSavedBytes) == Count(b, CacheSavedBytes);
  }

  function Clamp(n: nat): nat {
    if n > U64_MAX then U64_MAX else n
  }

  /** `u64::saturating_add`. */
  function SaturatingAdd(a: nat, b: nat): nat {
    Clamp(a + b)
  }

  function AddTraffic(a: TrafficTotals, b: TrafficTotals): TrafficTotals {
    TrafficTotals(SaturatingAdd(a.clientBytesIn, b.clientBytesIn),
                  SaturatingAdd(a.clientBytesOut, b.clientBytesOut),
                  SaturatingAdd(a.upstreamBytesOut, b.upstreamBytesOut),
                  SaturatingAdd(a.upstreamBytesIn, b.upstreamBytesIn),
                  SaturatingAdd(a.cacheSavedBytes, b.cacheSavedBytes))
  }

  function AddDelta(a: StatDelta, b: StatDelta): StatDelta {
    StatDelta(SaturatingAdd(a.queries, b.queries),
              SaturatingAdd(a.blocked, b.blocked),
              SaturatingAdd(a.forwarded, b.forwarded),
              SaturatingAdd(a.failed, b.failed),
              SaturatingAdd(a.requests, b.requests),
              SaturatingAdd(a.latencyTotalMs, b.latencyTotalMs),
              SaturatingAdd(a.latencySamples, b.latencySamples),
              AddTraffic(a.traffic, b.traffic))
  }

  type Stats = map<HourlyStatKey, StatDelta>

  /** The entry of a hash map, or the default row. */
  function Lookup(stats: Stats, key: HourlyStatKey): StatDelta {
    if key in stats then stats[key] else ZERO
  }

  function AddStatDelta(stats: Stats, key: HourlyStatKey, delta: StatDelta): Stats {
    stats[key := AddDelta(Lookup(stats, key), delta)]
  }

  // ---------------------------------------------------------------- events

  /** A persisted query event. `clientIp` is the address as stored, already anonymised when that is asked for. */
  datatype QueryEvent = QueryEvent(
    domain: string, clientIp: Option<string>, blocked: bool, forwarded: bool, failed: bool,
    upstreamServer: Option<string>, upstreamDurationMs: Option<nat>, ruleSource: Option<string>,
    traffic: TrafficTotals, persistStatistics: bool, trafficOnly: bool)

  const UNKNOWN_SOURCE := "未知来源"

  function Flag(b: bool): nat {
    if b then 1 else 0
  }

  function TotalDelta(e: QueryEvent): StatDelta {
    StatDelta(Flag(!e.trafficOnly), Flag(e.blocked && !e.trafficOnly), Flag(e.forwarded && !e.trafficOnly),
              Flag(e.failed && !e.trafficOnly), 0, 0, 0, e.traffic)
  }

  /** The delta of a domain row, and of a client row. */
  function VisitDelta(e: QueryEvent): StatDelta {
    ZERO.(queries := 1, blocked := Flag(e.blocked), traffic := e.traffic)
  }

  function UpstreamDelta(e: QueryEvent): StatDelta {
    ZERO.(requests := 1,
    latencyTotalMs := if e.upstreamDurationMs.Some? then e.upstreamDurationMs.value else 0,
    latencySamples := Flag(e.upstreamDurationMs.Some?))
  }

  function BlockSource(e: QueryEvent): string {
    if e.ruleSource.Some? && e.ruleSource.value != "" then e.ruleSource.value else UNKNOWN_SOURCE
  }

  datatype Posting = Posting(key: HourlyStatKey, delta: StatDelta)

  /** The rows one event adds to, in the order they are added. */
  function Postings(e: QueryEvent, hour: nat): seq<Posting> {
    if !e.persistStatistics then []
    else if e.trafficOnly then [Posting(HourlyStatKey(hour, Total, ""), TotalDelta(e))]
    else
      [Posting(HourlyStatKey(hour, Total, ""), TotalDelta(e)),
       Posting(HourlyStatKey(hour, Domain, e.domain), VisitDelta(e))]
      + (if e.clientIp.Some? && e.clientIp.value != ""
         then [Posting(HourlyStatKey(hour, Client, e.clientIp.value), VisitDelta(e))] else [])
      + (if e.forwarded && e.upstreamServer.Some?
         then [Posting(HourlyStatKey(hour, Upstream, e.upstreamServer.value), UpstreamDelta(e))] else [])
      + (if e.blocked
         then [Posting(HourlyStatKey(hour, Blocklist, BlockSource(e)), ZERO.(blocked := 1))] else [])
  }

  function AllPostings(entries: seq<QueryEvent>, hour: nat): seq<Posting> {
    if entries == [] then []
    else AllPostings(entries[..|entries| - 1], hour) + Postings(entries[|entries| - 1], hour)
  }

  function PostAll(stats: Stats, ps: seq<Posting>): Stats {
    if ps == [] then stats
    else
      var last := ps[|ps| - 1];
      AddStatDelta(PostAll(stats, ps[..|ps| - 1]), last.key, last.delta)
  }

  /** What a batch observed at `timestamp` aggregates to. */
  function Aggregate(entries: seq<QueryEvent>, timestamp: nat): Stats {
    PostAll(map[], AllPostings(entries, timestamp / 3600))
  }

  lemma {:induction false} PostAllAppend(stats: Stats, a: seq<Posting>, b: seq<Posting>)
    ensures PostAll(stats, a + b) == PostAll(PostAll(stats, a), b)
  {
    if b == [] {
      assert a + b == a;
    } else {
      assert (a + b)[..|a + b| - 1] == a + b[..|b| - 1];
      PostAllAppend(stats, a, b[..|b| - 1]);
    }
  }

  lemma PostOne(stats: Stats, key: HourlyStatKey, delta: StatDelta)
    ensures PostAll(stats, [Posting(key, delta)]) == AddStatDelta(stats, key, delta)
  {
    assert [Posting(key, delta)][..0] == [];
  }

  /** The batch loop: every event's rows are added to the hash map in turn. */
  method AggregateHourlyStats(entries: seq<QueryEvent>, timestamp: nat) returns (stats: Stats)
    ensures stats == Aggregate(entries, timestamp)
  {
    var hour := timestamp / 3600;
    stats := map[];
    for i := 0 to |entries|
      invariant stats == PostAll(map[], AllPostings(entries[..i], hour))
    {
      var e := entries[i];
      ghost var before := AllPostings(entries[..i], hour);
      assert entries[..i + 1][..i] == entries[..i];
      PostAllAppend(map[], before, Postings(e, hour));
      if e.persistStatistics {
        stats := AddEvent(stats, e, hour);
      }
    }
    assert entries[..|entries|] == entries;
  }

  /** The body of the loop, for an event that counts. */
  method AddEvent(before: Stats, e: QueryEvent, hour: nat) returns (stats: Stats)
    requires e.persistStatistics
    ensures stats == PostAll(before, Postings(e, hour))
  {
    ghost var done := [Posting(HourlyStatKey(hour, Total, ""), TotalDelta(e))];
    stats := AddStatDelta(before, HourlyStatKey(hour, Total, ""), TotalDelta(e));
    PostOne(before, HourlyStatKey(hour, Total, ""), TotalDelta(e));
    if e.trafficOnly {
      return;
    }
    done := Extend(before, done, stats, HourlyStatKey(hour, Domain, e.domain), VisitDelta(e));
    stats := AddStatDelta(stats, HourlyStatKey(hour, Domain, e.domain), VisitDelta(e));
    if e.clientIp.Some? && e.clientIp.value != "" {
      done := Extend(before, done, stats, HourlyStatKey(hour, Client, e.clientIp.value), VisitDelta(e));
      stats := AddStatDelta(stats, HourlyStatKey(hour, Client, e.clientIp.value), VisitDelta(e));
    }
    if e.forwarded && e.upstreamServer.Some? {
      done := Extend(before, done, stats, HourlyStatKey(hour, Upstream, e.upstreamServer.value), UpstreamDelta(e));
      stats := AddStatDelta(stats, HourlyStatKey(hour, Upstream, e.upstreamServer.value), UpstreamDelta(e));
    }
    if e.blocked {
      done := Extend(before, done, stats, HourlyStatKey(hour, Blocklist, BlockSource(e)), ZERO.(blocked := 1));
      stats := AddStatDelta(stats, HourlyStatKey(hour, Blocklist, BlockSource(e)), ZERO.(blocked := 1));
    }
    assert done == Postings(e, hour);
  }

  lemma Extend(before: Stats, done: seq<Posting>, stats: Stats, key: HourlyStatKey, delta: StatDelta)
    returns (next: seq<Posting>)
    requires stats == PostAll(before, done)
    ensures next == done + [Posting(key, delta)]
    ensures AddStatDelta(stats, key, delta) == PostAll(before, next)
  {
    next := done + [Posting(key, delta)];
    PostAllAppend(before, done, [Posting(key, delta)]);
    PostOne(stats, key, delta);
  }

  // ------------------------------------------- the reference: plain sums

  /** Sum of a weight over a list of postings. */
  ghost function Weigh(ps: seq<Posting>, w: Posting -> nat): nat {
    if ps == [] then 0 else Weigh(ps[..|ps| - 1], w) + w(ps[|ps| - 1])
  }

  /** What a posting adds to counter `c` of row `key`. */
  ghost function AtKey(key: HourlyStatKey, c: Counter): Posting -> nat {
    (p: Posting) => if p.key == key then Count(p.delta, c) else 0
  }

  /** What a posting adds to counter `c` of all rows of a dimension. */
  ghost function InDimension(d: Dimension, c: Counter): Posting -> nat {
    (p: Posting) => if p.key.dimension == d then Count(p.delta, c) else 0
  }

  ghost function Touches(key: HourlyStatKey): Posting -> nat {
    (p: Posting) => if p.key == key then 1 else 0
  }

  lemma {:induction false} WeighAppend(a: seq<Posting>, b: seq<Posting>, w: Posting -> nat)
    ensures Weigh(a + b, w) == Weigh(a, w) + Weigh(b, w)
  {
    if b == [] {
      assert a + b == a;
    } else {
      assert (a + b)[..|a + b| - 1] == a + b[..|b| - 1];
      WeighAppend(a, b[..|b| - 1], w);
    }
  }

  /** Exactly the rows some posting names exist, and each counter is its unbounded sum cut off at 2^64 - 1. */
  lemma {:induction false} PostAllIsClampedSum(ps: seq<Posting>, key: HourlyStatKey, c: Counter)
    ensures Count(Lookup(PostAll(map[], ps), key), c) == Clamp(Weigh(ps, AtKey(key, c)))
    ensures key in PostAll(map[], ps) <==> Weigh(ps, Touches(key)) > 0
  {
    if ps != [] {
      PostAllIsClampedSum(ps[..|ps| - 1], key, c);
    }
  }

  /** Plain total, over whole events, of a weight on the rows they add to. */
  ghost function EventWeight(e: QueryEvent, hour: nat, w: Posting -> nat): nat {
    Weigh(Postings(e, hour), w)
  }

  ghost function EventsWeight(entries: seq<QueryEvent>, hour: nat, w: Posting -> nat): nat {
    Weigh(AllPostings(entries, hour), w)
  }

  lemma {:induction false} EventsWeightAppend(a: seq<QueryEvent>, b: seq<QueryEvent>, hour: nat, w: Posting -> nat)
    ensures EventsWeight(a + b, hour, w) == EventsWeight(a, hour, w) + EventsWeight(b, hour, w)
  {
    if b == [] {
      assert a + b == a;
    } else {
      assert (a + b)[..|a + b| - 1] == a + b[..|b| - 1];
      EventsWeightAppend(a, b[..|b| - 1], hour, w);
      WeighAppend(AllPostings(a + b[..|b| - 1], hour), Postings(b[|b| - 1], hour), w);
      WeighAppend(AllPostings(b[..|b| - 1], hour), Postings(b[|b| - 1], hour), w);
    }
  }

  /** Each counter of an aggregated batch is the plain sum over its events, cut off at 2^64 - 1. */
  lemma AggregateIsClampedSum(entries: seq<QueryEvent>, timestamp: nat, key: HourlyStatKey, c: Counter)
    ensures Count(Lookup(Aggregate(entries, timestamp), key), c)
         == Clamp(EventsWeight(entries, timestamp / 3600, AtKey(key, c)))
    ensures key in Aggregate(entries, timestamp) <==> EventsWeight(entries, timestamp / 3600, Touches(key)) > 0
  {
    PostAllIsClampedSum(AllPostings(entries, timestamp / 3600), key, c);
  }

  lemma {:induction false} PermutedWeight(a: seq<QueryEvent>, b: seq<QueryEvent>, hour: nat, w: Posting -> nat)
    requires multiset(a) == multiset(b)
    ensures EventsWeight(a, hour, w) == EventsWeight(b, hour, w)
  {
    if a == [] {
      assert |multiset(b)| == 0;
    } else {
      var n := |a| - 1;
      assert a[n] in multiset(b);
      var i :| 0 <= i < |b| && b[i] == a[n];
      var rest := b[..i] + b[i + 1..];
      assert a == a[..n] + [a[n]];
      assert b == b[..i] + ([b[i]] + b[i + 1..]);
      assert multiset(a[..n]) == multiset(a) - multiset{a[n]};
      assert multiset(rest) == multiset(b) - multiset{b[i]};
      PermutedWeight(a[..n], rest, hour, w);
      EventsWeightAppend(a[..n], [a[n]], hour, w);
      EventsWeightAppend(b[..i], [b[i]] + b[i + 1..], hour, w);
      EventsWeightAppend([b[i]], b[i + 1..], hour, w);
      EventsWeightAppend(b[..i], b[i + 1..], hour, w);
    }
  }

  lemma SameStats(a: Stats, b: Stats)
    requires forall k :: k in a <==> k in b
    requires forall k, c: Counter :: Count(Lookup(a, k), c) == Count(Lookup(b, k), c)
    ensures a == b
  {
    forall k | k in a ensures a[k] == b[k] {
      forall c: Counter ensures Count(a[k], c) == Count(b[k], c) {
        assert Count(Lookup(a, k), c) == Count(Lookup(b, k), c);
      }
      CountsDetermine(a[k], b[k]);
    }
  }

  lemma PermutedAt(a: seq<QueryEvent>, b: seq<QueryEvent>, timestamp: nat, k: HourlyStatKey, c: Counter)
    requires multiset(a) == multiset(b)
    ensures k in Aggregate(a, timestamp) <==> k in Aggregate(b, timestamp)
    ensures Count(Lookup(Aggregate(a, timestamp), k), c) == Count(Lookup(Aggregate(b, timestamp), k), c)
  {
    AggregateIsClampedSum(a, timestamp, k, c);
    AggregateIsClampedSum(b, timestamp, k, c);
    PermutedWeight(a, b, timestamp / 3600, AtKey(k, c));
    PermutedWeight(a, b, timestamp / 3600, Touches(k));
  }

  /** Aggregation depends only on the multiset of events, saturation included. */
  lemma AggregatePermuted(a: seq<QueryEvent>, b: seq<QueryEvent>, timestamp: nat)
    requires multiset(a) == multiset(b)
    ensures Aggregate(a, timestamp) == Aggregate(b, timestamp)
  {
    forall k ensures k in Aggregate(a, timestamp) <==> k in Aggregate(b, timestamp) {
      PermutedAt(a, b, timestamp, k, Queries);
    }
    forall k, c: Counter
      ensures Count(Lookup(Aggregate(a, timestamp), k), c) == Count(Lookup(Aggregate(b, timestamp), k), c)
    {
      PermutedAt(a, b, timestamp, k, c);
    }
    SameStats(Aggregate(a, timestamp), Aggregate(b, timestamp));
  }

  /** Pointwise saturating sum of two hash maps. */
  function MergeStats(a: Stats, b: Stats): Stats {
    map k | k in a.Keys + b.Keys :: AddDelta(Lookup(a, k), Lookup(b, k))
  }

  lemma MergeStatsCounts(a: Stats, b: Stats, k: HourlyStatKey, c: Counter)
    requires Count(Lookup(a, k), c) <= U64_MAX && Count(Lookup(b, k), c) <= U64_MAX
    ensures Count(Lookup(MergeStats(a, b), k), c) == SaturatingAdd(Count(Lookup(a, k), c), Count(Lookup(b, k), c))
    ensures k in MergeStats(a, b) <==> k in a || k in b
  {
  }

  lemma SplitAt(a: seq<QueryEvent>, b: seq<QueryEvent>, timestamp: nat, k: HourlyStatKey, c: Counter)
    ensures var whole := Aggregate(a + b, timestamp);
            var parts := MergeStats(Aggregate(a, timestamp), Aggregate(b, timestamp));
            (k in whole <==> k in parts) && Count(Lookup(whole, k), c) == Count(Lookup(parts, k), c)
  {
    var hour := timestamp / 3600;
    AggregateIsClampedSum(a, timestamp, k, c);
    AggregateIsClampedSum(b, timestamp, k, c);
    AggregateIsClampedSum(a + b, timestamp, k, c);
    EventsWeightAppend(a, b, hour, AtKey(k, c));
    EventsWeightAppend(a, b, hour, Touches(k));
    MergeStatsCounts(Aggregate(a, timestamp), Aggregate(b, timestamp), k, c);
  }

  /** Splitting a batch in two and adding the parts gives the map of the whole, saturation included. */
  lemma AggregateSplit(a: seq<QueryEvent>, b: seq<QueryEvent>, timestamp: nat)
    ensures Aggregate(a + b, timestamp) == MergeStats(Aggregate(a, timestamp), Aggregate(b, timestamp))
  {
    var whole := Aggregate(a + b, timestamp);
    var parts := MergeStats(Aggregate(a, timestamp), Aggregate(b, timestamp));
    forall k ensures k in whole <==> k in parts {
      SplitAt(a, b, timestamp, k, Queries);
    }
    forall k, c: Counter ensures Count(Lookup(whole, k), c) == Count(Lookup(parts, k), c) {
      SplitAt(a, b, timestamp, k, c);
    }
    SameStats(whole, parts);
  }

  // ------------------------------------------------------- conservation

  /** Sum of a counter over all rows of a dimension. */
  ghost function DimensionSum(stats: Stats, d: Dimension, c: Counter): nat {
    Sum(set k | k in stats && k.dimension == d, (k: HourlyStatKey) => Count(Lookup(stats, k), c))
  }

  /** No counter has reached the ceiling, so no addition was cut off. */
  ghost predicate Unsaturated(stats: Stats) {
    forall k, c: Counter :: k in stats ==> Count(stats[k], c) < U64_MAX
  }

  lemma {:induction false} DimensionTotal(ps: seq<Posting>, keys: set<HourlyStatKey>, d: Dimension, c: Counter)
    requires forall i :: 0 <= i < |ps| && ps[i].key.dimension == d ==> ps[i].key in keys
    requires forall k :: k in keys ==> k.dimension == d
    ensures Sum(keys, (k: HourlyStatKey) => Weigh(ps, AtKey(k, c))) == Weigh(ps, InDimension(d, c))
  {
    var all := (k: HourlyStatKey) => Weigh(ps, AtKey(k, c));
    if ps == [] {
      SumZero(keys, all);
    } else {
      var front, last := ps[..|ps| - 1], ps[|ps| - 1];
      DimensionTotal(front, keys, d, c);
      var before := (k: HourlyStatKey) => Weigh(front, AtKey(k, c));
      var added := (k: HourlyStatKey) => AtKey(k, c)(last);
      SumAdd(keys, before, added, all);
      SumSingle(keys, added, last.key);
    }
  }

  lemma {:induction false} TouchedKeysWeigh(ps: seq<Posting>, i: nat)
    requires i < |ps|
    ensures Weigh(ps, Touches(ps[i].key)) > 0
  {
    if i < |ps| - 1 {
      TouchedKeysWeigh(ps[..|ps| - 1], i);
      assert ps[..|ps| - 1][i] == ps[i];
    }
  }

  /** Without saturation, a dimension's rows sum to the plain total of what was posted to the dimension. */
  lemma DimensionSumIsPlain(ps: seq<Posting>, d: Dimension, c: Counter)
    requires Unsaturated(PostAll(map[], ps))
    ensures DimensionSum(PostAll(map[], ps), d, c) == Weigh(ps, InDimension(d, c))
  {
    var stats := PostAll(map[], ps);
    var keys := set k | k in stats && k.dimension == d;
    forall i | 0 <= i < |ps| && ps[i].key.dimension == d ensures ps[i].key in keys {
      TouchedKeysWeigh(ps, i);
      PostAllIsClampedSum(ps, ps[i].key, c);
    }
    DimensionTotal(ps, keys, d, c);
    var stored := (k: HourlyStatKey) => Count(Lookup(stats, k), c);
    var plain := (k: HourlyStatKey) => Weigh(ps, AtKey(k, c));
    forall k | k in keys ensures stored(k) == plain(k) {
      PostAllIsClampedSum(ps, k, c);
      assert Count(stats[k], c) < U64_MAX;
    }
    SumCongruent(keys, stored, plain);
  }

  /** Bytes of background cache refreshes, which have no client query behind them. */
  ghost function BackgroundBytes(entries: seq<QueryEvent>, c: Counter): nat {
    if entries == [] then 0
    else
      var e := entries[|entries| - 1];
      BackgroundBytes(entries[..|entries| - 1], c)
      + if e.persistStatistics && e.trafficOnly then Count(ZERO.(traffic := e.traffic), c) else 0
  }

  lemma WeighOne(p: Posting, w: Posting -> nat)
    ensures Weigh([p], w) == w(p) && Weigh([], w) == 0
  {
    assert [p][..0] == [];
  }

  lemma WeighParts(total: Posting, domain: Posting, a: seq<Posting>, b: seq<Posting>, c: seq<Posting>,
                   w: Posting -> nat)
    ensures Weigh([total, domain] + a + b + c, w) == w(total) + w(domain) + Weigh(a, w) + Weigh(b, w) + Weigh(c, w)
  {
    WeighAppend([total, domain] + a + b, c, w);
    WeighAppend([total, domain] + a, b, w);
    WeighAppend([total, domain], a, w);
    WeighAppend([total], [domain], w);
    WeighOne(total, w);
    WeighOne(domain, w);
    assert [total] + [domain] == [total, domain];
  }

  /** The weight of one event, row by row. */
  lemma EventWeights(e: QueryEvent, hour: nat, w: Posting -> nat)
    ensures EventWeight(e, hour, w) ==
            if !e.persistStatistics then 0
            else
              w(Posting(HourlyStatKey(hour, Total, ""), TotalDelta(e)))
              + if e.trafficOnly then 0
                else
                  w(Posting(HourlyStatKey(hour, Domain, e.domain), VisitDelta(e)))
                  + (if e.clientIp.Some? && e.clientIp.value != ""
                     then w(Posting(HourlyStatKey(hour, Client, e.clientIp.value), VisitDelta(e))) else 0)
                  + (if e.forwarded && e.upstreamServer.Some?
                     then w(Posting(HourlyStatKey(hour, Upstream, e.upstreamServer.value), UpstreamDelta(e))) else 0)
                  + (if e.blocked
                     then w(Posting(HourlyStatKey(hour, Blocklist, BlockSource(e)), ZERO.(blocked := 1))) else 0)
  {
    var total := Posting(HourlyStatKey(hour, Total, ""), TotalDelta(e));
    var client := if e.clientIp.Some? && e.clientIp.value != ""
                  then [Posting(HourlyStatKey(hour, Client, e.clientIp.value), VisitDelta(e))] else [];
    var upstream := if e.forwarded && e.upstreamServer.Some?
                    then [Posting(HourlyStatKey(hour, Upstream, e.upstreamServer.value), UpstreamDelta(e))] else [];
    var blocklist := if e.blocked
                     then [Posting(HourlyStatKey(hour, Blocklist, BlockSource(e)), ZERO.(blocked := 1))] else [];
    WeighOne(total, w);
    WeighParts(total, Posting(HourlyStatKey(hour, Domain, e.domain), VisitDelta(e)), client, upstream, blocklist, w);
    if client != [] {
      WeighOne(client[0], w);
    }
    if upstream != [] {
      WeighOne(upstream[0], w);
    }
    if blocklist != [] {
      WeighOne(blocklist[0], w);
    }
  }

  /** Plain total of what a list of postings adds to a dimension. */
  ghost function Posted(ps: seq<Posting>, d: Dimension, c: Counter): nat {
    Weigh(ps, InDimension(d, c))
  }

  ghost predicate Balanced(ps: seq<Posting>, background: Counter -> nat) {
    && Posted(ps, Total, Queries) == Posted(ps, Domain, Queries)
    && Posted(ps, Total, Blocked) == Posted(ps, Domain, Blocked) == Posted(ps, Blocklist, Blocked)
    && Posted(ps, Client, Queries) <= Posted(ps, Total, Queries)
    && Posted(ps, Client, Blocked) <= Posted(ps, Total, Blocked)
    && Posted(ps, Upstream, Requests) <= Posted(ps, Total, Forwarded)
    && forall c: Counter :: c.IsBytes() ==> Posted(ps, Total, c) == Posted(ps, Domain, c) + background(c)
  }

  ghost function EventBackground(e: QueryEvent): Counter -> nat {
    c => if e.persistStatistics && e.trafficOnly then Count(ZERO.(traffic := e.traffic), c) else 0
  }

  /** The books balance event by event. */
  lemma EventBalanced(e: QueryEvent, hour: nat)
    ensures Balanced(Postings(e, hour), EventBackground(e))
  {
    EventWeights(e, hour, InDimension(Total, Queries));
    EventWeights(e, hour, InDimension(Domain, Queries));
    EventWeights(e, hour, InDimension(Client, Queries));
    EventWeights(e, hour, InDimension(Total, Blocked));
    EventWeights(e, hour, InDimension(Domain, Blocked));
    EventWeights(e, hour, InDimension(Blocklist, Blocked));
    EventWeights(e, hour, InDimension(Client, Blocked));
    EventWeights(e, hour, InDimension(Total, Forwarded));
    EventWeights(e, hour, InDimension(Upstream, Requests));
    forall c: Counter | c.IsBytes()
      ensures Posted(Postings(e, hour), Total, c) == Posted(Postings(e, hour), Domain, c) + EventBackground(e)(c)
    {
      EventWeights(e, hour, InDimension(Total, c));
      EventWeights(e, hour, InDimension(Domain, c));
    }
  }

  lemma BalancedAppend(a: seq<Posting>, b: seq<Posting>, f: Counter -> nat, g: Counter -> nat, h: Counter -> nat)
    requires Balanced(a, f) && Balanced(b, g) && forall c: Counter :: h(c) == f(c) + g(c)
    ensures Balanced(a + b, h)
  {
    forall d: Dimension, c: Counter ensures Posted(a + b, d, c) == Posted(a, d, c) + Posted(b, d, c) {
      WeighAppend(a, b, InDimension(d, c));
    }
  }

  lemma {:induction false} BatchBalanced(entries: seq<QueryEvent>, hour: nat)
    ensures Balanced(AllPostings(entries, hour), c => BackgroundBytes(entries, c))
  {
    if entries != [] {
      var front, e := entries[..|entries| - 1], entries[|entries| - 1];
      BatchBalanced(front, hour);
      EventBalanced(e, hour);
      BalancedAppend(AllPostings(front, hour), Postings(e, hour),
                     c => BackgroundBytes(front, c), EventBackground(e), c => BackgroundBytes(entries, c));
    }
  }

  /** In an unsaturated batch the dimensions account for one another. */
  lemma BatchConserves(entries: seq<QueryEvent>, timestamp: nat)
    requires Unsaturated(Aggregate(entries, timestamp))
    ensures var stats := Aggregate(entries, timestamp);
            var total := Lookup(stats, HourlyStatKey(timestamp / 3600, Total, ""));
            && total.queries == DimensionSum(stats, Domain, Queries)
            && total.blocked == DimensionSum(stats, Domain, Blocked) == DimensionSum(stats, Blocklist, Blocked)
            && DimensionSum(stats, Client, Queries) <= total.queries
            && DimensionSum(stats, Client, Blocked) <= total.blocked
            && DimensionSum(stats, Upstream, Requests) <= total.forwarded
            && forall c: Counter :: c.IsBytes() ==>
                 Count(total, c) == DimensionSum(stats, Domain, c) + BackgroundBytes(entries, c)
  {
    var hour := timestamp / 3600;
    var ps := AllPostings(entries, hour);
    var key := HourlyStatKey(hour, Total, "");
    BatchBalanced(entries, hour);
    forall c: Counter, d: Dimension
      ensures DimensionSum(PostAll(map[], ps), d, c) == Posted(ps, d, c)
    {
      DimensionSumIsPlain(ps, d, c);
    }
    forall c: Counter ensures Count(Lookup(PostAll(map[], ps), key), c) == Posted(ps, Total, c) {
      OneTotalRow(entries, hour, c);
      PostAllIsClampedSum(ps, key, c);
    }
    assert Count(Lookup(PostAll(map[], ps), key), Queries) == Posted(ps, Total, Queries);
    assert Count(Lookup(PostAll(map[], ps), key), Blocked) == Posted(ps, Total, Blocked);
    assert Count(Lookup(PostAll(map[], ps), key), Forwarded) == Posted(ps, Total, Forwarded);
  }

  lemma EventTotalRow(e: QueryEvent, hour: nat, c: Counter)
    ensures EventWeight(e, hour, InDimension(Total, c))
         == EventWeight(e, hour, AtKey(HourlyStatKey(hour, Total, ""), c))
  {
    EventWeights(e, hour, InDimension(Total, c));
    EventWeights(e, hour, AtKey(HourlyStatKey(hour, Total, ""), c));
  }

  /** All of a batch's totals are in one row. */
  lemma {:induction false} OneTotalRow(entries: seq<QueryEvent>, hour: nat, c: Counter)
    ensures EventsWeight(entries, hour, InDimension(Total, c))
         == EventsWeight(entries, hour, AtKey(HourlyStatKey(hour, Total, ""), c))
  {
    if entries != [] {
      var front, e := entries[..|entries| - 1], entries[|entries| - 1];
      OneTotalRow(front, hour, c);
      WeighAppend(AllPostings(front, hour), Postings(e, hour), InDimension(Total, c));
      WeighAppend(AllPostings(front, hour), Postings(e, hour), AtKey(HourlyStatKey(hour, Total, ""), c));
      EventTotalRow(e, hour, c);
    }
  }

  // ------------------------------------------- which event counts where, as a table

  /** The rows an event counts in. */
  predicate CountsIn(e: QueryEvent, d: Dimension, value: string) {
    && e.persistStatistics
    && match d
       case Total => value == ""
       case Domain => !e.trafficOnly && value == e.domain
       case Client => !e.trafficOnly && value != "" && e.clientIp == Some(value)
       case Upstream => !e.trafficOnly && e.forwarded && e.upstreamServer == Some(value)
       case Blocklist =>
         && !e.trafficOnly && e.blocked
         && (value == if e.ruleSource == None || e.ruleSource == Some("") then "未知来源" else e.ruleSource.value)
  }

  /** What it adds to a counter of a row it counts in. */
  function Amount(e: QueryEvent, d: Dimension, c: Counter): nat {
    match c
    case Queries =>
      (match d
       case Total => if e.trafficOnly then 0 else 1
       case Domain => 1
       case Client => 1
       case _ => 0)
    case Blocked => if !e.blocked || e.trafficOnly || d == Upstream then 0 else 1
    case Forwarded => if e.forwarded && !e.trafficOnly && d == Total then 1 else 0
    case Failed => if e.failed && !e.trafficOnly && d == Total then 1 else 0
    case Requests => if d == Upstream then 1 else 0
    case LatencyTotal =>
      (match e.upstreamDurationMs
       case Some(ms) => if d == Upstream then ms else 0
       case None => 0)
    case LatencySamples => if d == Upstream && e.upstreamDurationMs != None then 1 else 0
    case ClientBytesIn => if d == Upstream || d == Blocklist then 0 else e.traffic.clientBytesIn
    case ClientBytesOut => if d == Upstream || d == Blocklist then 0 else e.traffic.clientBytesOut
    case UpstreamBytesOut => if d == Upstream || d == Blocklist then 0 else e.traffic.upstreamBytesOut
    case UpstreamBytesIn => if d == Upstream || d == Blocklist then 0 else e.traffic.upstreamBytesIn
    case CacheSavedBytes => if d == Upstream || d == Blocklist then 0 else e.traffic.cacheSavedBytes
  }

  /** Plain sum of a counter over the events that count in a row. */
  ghost function Tally(entries: seq<QueryEvent>, d: Dimension, value: string, c: Counter): nat {
    if entries == [] then 0
    else
      var e := entries[|entries| - 1];
      Tally(entries[..|entries| - 1], d, value, c) + if CountsIn(e, d, value) then Amount(e, d, c) else 0
  }

  ghost predicate SomeCounts(entries: seq<QueryEvent>, d: Dimension, value: string) {
    exists i :: 0 <= i < |entries| && CountsIn(entries[i], d, value)
  }

  lemma EventTally(e: QueryEvent, hour: nat, key: HourlyStatKey, c: Counter)
    ensures EventWeight(e, hour, AtKey(key, c))
         == if key.hour == hour && CountsIn(e, key.dimension, key.value) then Amount(e, key.dimension, c) else 0
  {
    EventWeights(e, hour, AtKey(key, c));
  }

  lemma EventTouches(e: QueryEvent, hour: nat, key: HourlyStatKey)
    ensures EventWeight(e, hour, Touches(key)) > 0 <==> key.hour == hour && CountsIn(e, key.dimension, key.value)
  {
    EventWeights(e, hour, Touches(key));
  }

  lemma {:induction false} EventsTally(entries: seq<QueryEvent>, hour: nat, key: HourlyStatKey, c: Counter)
    ensures EventsWeight(entries, hour, AtKey(key, c))
         == if key.hour == hour then Tally(entries, key.dimension, key.value, c) else 0
  {
    if entries != [] {
      var front, e := entries[..|entries| - 1], entries[|entries| - 1];
      EventsTally(front, hour, key, c);
      WeighAppend(AllPostings(front, hour), Postings(e, hour), AtKey(key, c));
      EventTally(e, hour, key, c);
    }
  }

  lemma {:induction false} EventsTouch(entries: seq<QueryEvent>, hour: nat, key: HourlyStatKey)
    ensures EventsWeight(entries, hour, Touches(key)) > 0 <==>
            key.hour == hour && SomeCounts(entries, key.dimension, key.value)
  {
    if entries != [] {
      var front, e := entries[..|entries| - 1], entries[|entries| - 1];
      EventsTouch(front, hour, key);
      WeighAppend(AllPostings(front, hour), Postings(e, hour), Touches(key));
      EventTouches(e, hour, key);
      assert SomeCounts(entries, key.dimension, key.value) <==>
             SomeCounts(front, key.dimension, key.value) || CountsIn(e, key.dimension, key.value) by {
        assert forall i :: 0 <= i < |front| ==> front[i] == entries[i];
      }
    }
  }

  /** A batch's map has a row exactly where some event counts in its hour, and each counter there is the sum of what the
      events add, cut off at 2^64 - 1. */
  lemma AggregateIsTally(entries: seq<QueryEvent>, timestamp: nat, key: HourlyStatKey, c: Counter)
    ensures key in Aggregate(entries, timestamp) <==>
            key.hour == timestamp / 3600 && SomeCounts(entries, key.dimension, key.value)
    ensures key in Aggregate(entries, timestamp) ==>
              var sum := Tally(entries, key.dimension, key.value, c);
              Count(Aggregate(entries, timestamp)[key], c)
              == if sum <= 0xFFFF_FFFF_FFFF_FFFF then sum else 0xFFFF_FFFF_FFFF_FFFF
  {
    AggregateIsClampedSum(entries, timestamp, key, c);
    EventsTally(entries, timestamp / 3600, key, c);
    EventsTouch(entries, timestamp / 3600, key);
  }
}
