/** The one-off migration that renames blocklist sources from filter names to filter tags. */
module SourceMigration {
  import opened Wrappers
  import opened Sums
  import opened Statistics
  import opened StatisticsStore

  /** A configured filter; its tag is `f:` and its id. */
  datatype Filter = Filter(id: string, name: string)

  function Tag(f: Filter): string {
    "f:" + f.id
  }

  /** A filter the loop skips: nothing was ever recorded under another name. */
  predicate Skipped(f: Filter) {
    f.name == "" || f.name == Tag(f)
  }

  /** The tables the migration rewrites; `logs` holds the rule source of each query log row. */
  datatype Tables = Tables(hourly: Stats, lifetime: Lifetime, logs: map<int, Option<string>>, migrated: bool)

  /** Adds the seven counters the statement names; the byte columns of the target stay. */
  function AddSeven(a: StatDelta, b: StatDelta): StatDelta {
    PlainAdd(a, b).(traffic := a.traffic)
  }

  predicate HourlySource(k: HourlyStatKey, name: string) {
    k.dimension == Blocklist && k.value == name
  }

  /** `INSERT ... SELECT ... ON CONFLICT DO UPDATE` into the tag's rows, then `DELETE` of the name's. */
  function RenameHourly(hourly: Stats, name: string, tag: string): Stats {
    map k | k in hourly.Keys + (set x | x in hourly && HourlySource(x, name) :: x.(value := tag))
            && !HourlySource(k, name) ::
      if HourlySource(k, tag) && k.(value := name) in hourly
      then AddSeven(Lookup(hourly, k), hourly[k.(value := name)])
      else Lookup(hourly, k)
  }

  function MergedRow(l: Lifetime, name: string, tag: string): LifetimeRow
    requires LifetimeKey(Blocklist, name) in l
  {
    var from := l[LifetimeKey(Blocklist, name)];
    if LifetimeKey(Blocklist, tag) in l then
      var to := l[LifetimeKey(Blocklist, tag)];
      LifetimeRow(AddSeven(to.stats, from.stats), Min(to.firstSeen, from.firstSeen), Max(to.lastSeen, from.lastSeen))
    else
      LifetimeRow(AddSeven(ZERO, from.stats), from.firstSeen, from.lastSeen)
  }

  function RenameLifetime(l: Lifetime, name: string, tag: string): Lifetime {
    if LifetimeKey(Blocklist, name) !in l then l
    else l[LifetimeKey(Blocklist, tag) := MergedRow(l, name, tag)] - {LifetimeKey(Blocklist, name)}
  }

  function RenameLogs(logs: map<int, Option<string>>, name: string, tag: string): map<int, Option<string>> {
    map id | id in logs :: if logs[id] == Some(name) then Some(tag) else logs[id]
  }

  function RenameOne(t: Tables, f: Filter): Tables {
    if Skipped(f) then t
    else t.(hourly := RenameHourly(t.hourly, f.name, Tag(f)), lifetime := RenameLifetime(t.lifetime, f.name, Tag(f)),
         logs := RenameLogs(t.logs, f.name, Tag(f)))
  }

  function RenameAll(t: Tables, filters: seq<Filter>): Tables {
    if filters == [] then t else RenameOne(RenameAll(t, filters[..|filters| - 1]), filters[|filters| - 1])
  }

  /** The open database during schema initialisation. */
  class Connection {
    var hourly: Stats
    var lifetime: Lifetime
    var logs: map<int, Option<string>>
    var migrated: bool

    ghost function View(): Tables
      reads this
    {
      Tables(hourly, lifetime, logs, migrated)
    }

    constructor (t: Tables)
      ensures View() == t
    {
      hourly, lifetime, logs, migrated := t.hourly, t.lifetime, t.logs, t.migrated;
    }

    /** `filters` is the stored configuration's list, absent when none is stored yet. */
    method MigrateBlocklistSourceToId(filters: Option<seq<Filter>>)
      modifies this
      ensures View() == if old(migrated) then old(View())
                        else RenameAll(old(View()), if filters.Some? then filters.value else []).(migrated := true)
    {
      if migrated {
        return;
      }
      if filters.Some? {
        var list := filters.value;
        for i := 0 to |list|
          invariant View() == RenameAll(old(View()), list[..i])
        {
          var name, tag := list[i].name, Tag(list[i]);
          assert list[..i + 1][..i] == list[..i];
          if name == "" || name == tag {
            continue;
          }
          hourly := RenameHourly(hourly, name, tag);
          lifetime := RenameLifetime(lifetime, name, tag);
          logs := RenameLogs(logs, name, tag);
        }
        assert list[..|list|] == list;
      }
      migrated := true;
    }
  }

  // ------------------------------------------------- what the loop amounts to

  /** Where the loop takes a source. */
  function Resolve(filters: seq<Filter>, source: string): string {
    if filters == [] then source
    else
      var f := filters[|filters| - 1];
      var before := Resolve(filters[..|filters| - 1], source);
      if !Skipped(f) && before == f.name then Tag(f) else before
  }

  /** One hour's blocklist rows, or the lifetime ones, by source. */
  type Column = map<string, StatDelta>

  function At(m: Column, source: string): StatDelta {
    if source in m then m[source] else ZERO
  }

  ghost function HourColumn(hourly: Stats, hour: nat): Column {
    map v | v in (set k | k in hourly && k.dimension == Blocklist && k.hour == hour :: k.value) ::
      Lookup(hourly, HourlyStatKey(hour, Blocklist, v))
  }

  ghost function LifetimeColumn(l: Lifetime): Column {
    map v | v in (set lk | lk in l && lk.dimension == Blocklist :: lk.value) ::
      LifetimeStats(l, LifetimeKey(Blocklist, v))
  }

  function RenameColumn(m: Column, name: string, tag: string): Column {
    if name !in m then m else m[tag := AddSeven(At(m, tag), m[name])] - {name}
  }

  function RenameColumnAll(m: Column, filters: seq<Filter>): Column {
    if filters == [] then m
    else
      var f := filters[|filters| - 1];
      var before := RenameColumnAll(m, filters[..|filters| - 1]);
      if Skipped(f) then before else RenameColumn(before, f.name, Tag(f))
  }

  lemma HourColumnAt(hourly: Stats, hour: nat, v: string)
    ensures v in HourColumn(hourly, hour) <==> HourlyStatKey(hour, Blocklist, v) in hourly
    ensures At(HourColumn(hourly, hour), v) == Lookup(hourly, HourlyStatKey(hour, Blocklist, v))
  {
    if HourlyStatKey(hour, Blocklist, v) in hourly {
      assert HourlyStatKey(hour, Blocklist, v).value == v;
    }
  }

  lemma SameColumns(a: Column, b: Column)
    requires forall v :: (v in a <==> v in b) && At(a, v) == At(b, v)
    ensures a == b
  {
    forall v | v in a ensures a[v] == b[v] {
      assert At(a, v) == At(b, v);
    }
  }

  lemma RenamedKey(hourly: Stats, name: string, tag: string, k: HourlyStatKey)
    requires name != tag
    ensures k in RenameHourly(hourly, name, tag) <==>
            !HourlySource(k, name) && (k in hourly || (HourlySource(k, tag) && k.(value := name) in hourly))
  {
    if HourlySource(k, tag) && k.(value := name) in hourly {
      var x := k.(value := name);
      assert x in hourly && HourlySource(x, name) && x.(value := tag) == k;
    }
  }

  lemma HourColumnRenamed(hourly: Stats, name: string, tag: string, hour: nat)
    requires name != tag
    ensures HourColumn(RenameHourly(hourly, name, tag), hour) == RenameColumn(HourColumn(hourly, hour), name, tag)
  {
    var after := RenameHourly(hourly, name, tag);
    var lhs, rhs := HourColumn(after, hour), RenameColumn(HourColumn(hourly, hour), name, tag);
    HourColumnAt(hourly, hour, name);
    HourColumnAt(hourly, hour, tag);
    forall v ensures (v in lhs <==> v in rhs) && At(lhs, v) == At(rhs, v) {
      var k := HourlyStatKey(hour, Blocklist, v);
      HourColumnAt(hourly, hour, v);
      HourColumnAt(after, hour, v);
      RenamedKey(hourly, name, tag, k);
    }
    SameColumns(lhs, rhs);
  }

  lemma LifetimeColumnAt(l: Lifetime, v: string)
    ensures v in LifetimeColumn(l) <==> LifetimeKey(Blocklist, v) in l
    ensures At(LifetimeColumn(l), v) == LifetimeStats(l, LifetimeKey(Blocklist, v))
  {
    if LifetimeKey(Blocklist, v) in l {
      assert LifetimeKey(Blocklist, v).value == v;
    }
  }

  lemma LifetimeColumnRenamed(l: Lifetime, name: string, tag: string)
    requires name != tag
    ensures LifetimeColumn(RenameLifetime(l, name, tag)) == RenameColumn(LifetimeColumn(l), name, tag)
  {
    var after := RenameLifetime(l, name, tag);
    var lhs, rhs := LifetimeColumn(after), RenameColumn(LifetimeColumn(l), name, tag);
    LifetimeColumnAt(l, name);
    LifetimeColumnAt(l, tag);
    forall v ensures (v in lhs <==> v in rhs) && At(lhs, v) == At(rhs, v) {
      LifetimeColumnAt(l, v);
      LifetimeColumnAt(after, v);
    }
    SameColumns(lhs, rhs);
  }

  /** Each hour's rows, and the lifetime rows, go through the same renaming of a column. */
  lemma {:induction false} ColumnsRenamed(t: Tables, filters: seq<Filter>, hour: nat)
    ensures HourColumn(RenameAll(t, filters).hourly, hour) == RenameColumnAll(HourColumn(t.hourly, hour), filters)
    ensures LifetimeColumn(RenameAll(t, filters).lifetime) == RenameColumnAll(LifetimeColumn(t.lifetime), filters)
  {
    if filters != [] {
      var front, f := filters[..|filters| - 1], filters[|filters| - 1];
      ColumnsRenamed(t, front, hour);
      if !Skipped(f) {
        HourColumnRenamed(RenameAll(t, front).hourly, f.name, Tag(f), hour);
        LifetimeColumnRenamed(RenameAll(t, front).lifetime, f.name, Tag(f));
      }
    }
  }

  ghost function Values(m: Column, c: Counter): string -> nat {
    v => Count(At(m, v), c)
  }

  ghost function ColumnSum(m: Column, c: Counter): nat {
    Sum(m.Keys, Values(m, c))
  }

  /** The sources of a column that end up under `v`. */
  ghost function Fibre(m: Column, filters: seq<Filter>, v: string): set<string> {
    set u | u in m && Resolve(filters, u) == v
  }

  lemma CountAddSeven(a: StatDelta, b: StatDelta, c: Counter)
    requires !c.IsBytes()
    ensures Count(AddSeven(a, b), c) == Count(a, c) + Count(b, c)
  {
  }

  lemma RenamedAt(m: Column, name: string, tag: string, v: string, c: Counter)
    requires name != tag && !c.IsBytes()
    ensures v in RenameColumn(m, name, tag) <==> v != name && (v in m || (v == tag && name in m))
    ensures Count(At(RenameColumn(m, name, tag), v), c)
         == if v == name then 0
            else if v == tag then Count(At(m, tag), c) + Count(At(m, name), c)
            else Count(At(m, v), c)
  {
    if name in m {
      CountAddSeven(At(m, tag), m[name], c);
    }
  }

  /** After the loop, a source's row sums exactly the old rows that resolve to it, and exists when one does. */
  lemma {:induction false} RenameGroups(m: Column, filters: seq<Filter>, v: string, c: Counter)
    requires !c.IsBytes()
    ensures Count(At(RenameColumnAll(m, filters), v), c) == Sum(Fibre(m, filters, v), Values(m, c))
    ensures v in RenameColumnAll(m, filters) <==> Fibre(m, filters, v) != {}
  {
    if filters == [] {
      assert Fibre(m, [], v) == if v in m then {v} else {};
      SumSingle(Fibre(m, [], v), Values(m, c), v);
    } else {
      var front, f := filters[..|filters| - 1], filters[|filters| - 1];
      var name, tag := f.name, Tag(f);
      RenameGroups(m, front, v, c);
      if Skipped(f) {
        assert Fibre(m, filters, v) == Fibre(m, front, v);
      } else {
        RenamedAt(RenameColumnAll(m, front), name, tag, v, c);
        RenameGroups(m, front, name, c);
        if v == tag {
          assert Fibre(m, filters, v) == Fibre(m, front, tag) + Fibre(m, front, name);
          SumUnion(Fibre(m, front, tag), Fibre(m, front, name), Values(m, c));
        } else if v == name {
          assert Fibre(m, filters, v) == {};
        } else {
          assert Fibre(m, filters, v) == Fibre(m, front, v);
        }
      }
    }
  }

  lemma RenameConserves(m: Column, name: string, tag: string, c: Counter)
    requires name != tag && !c.IsBytes()
    ensures ColumnSum(RenameColumn(m, name, tag), c) == ColumnSum(m, c)
  {
    if name in m {
      var after := RenameColumn(m, name, tag);
      var rest := m.Keys - {name} - {tag};
      var f, g := Values(m, c), Values(after, c);
      SumPick(m.Keys, f, name);
      SumPick(after.Keys, g, tag);
      assert after.Keys - {tag} == rest;
      if tag in m {
        SumPick(m.Keys - {name}, f, tag);
      } else {
        assert m.Keys - {name} == rest;
      }
      RenamedAt(m, name, tag, tag, c);
      SumCongruent(rest, f, g);
    }
  }

  lemma {:induction false} RenameAllConserves(m: Column, filters: seq<Filter>, c: Counter)
    requires !c.IsBytes()
    ensures ColumnSum(RenameColumnAll(m, filters), c) == ColumnSum(m, c)
  {
    if filters != [] {
      var front, f := filters[..|filters| - 1], filters[|filters| - 1];
      RenameAllConserves(m, front, c);
      if !Skipped(f) {
        RenameConserves(RenameColumnAll(m, front), f.name, Tag(f), c);
      }
    }
  }

  /** For any filter list: every hour's blocklist sum and the lifetime sum are kept, for each non-byte counter, and
      each row afterwards holds exactly what was recorded under the sources that resolve to it. */
  lemma MigrationConserves(t: Tables, filters: seq<Filter>, hour: nat, c: Counter, v: string)
    requires !c.IsBytes()
    ensures var after := RenameAll(t, filters);
            && ColumnSum(HourColumn(after.hourly, hour), c) == ColumnSum(HourColumn(t.hourly, hour), c)
            && ColumnSum(LifetimeColumn(after.lifetime), c) == ColumnSum(LifetimeColumn(t.lifetime), c)
            && Count(Lookup(after.hourly, HourlyStatKey(hour, Blocklist, v)), c)
            == Sum(Fibre(HourColumn(t.hourly, hour), filters, v), Values(HourColumn(t.hourly, hour), c))
            && Count(LifetimeStats(after.lifetime, LifetimeKey(Blocklist, v)), c)
            == Sum(Fibre(LifetimeColumn(t.lifetime), filters, v), Values(LifetimeColumn(t.lifetime), c))
  {
    var after := RenameAll(t, filters);
    ColumnsRenamed(t, filters, hour);
    RenameAllConserves(HourColumn(t.hourly, hour), filters, c);
    RenameAllConserves(LifetimeColumn(t.lifetime), filters, c);
    RenameGroups(HourColumn(t.hourly, hour), filters, v, c);
    RenameGroups(LifetimeColumn(t.lifetime), filters, v, c);
    HourColumnAt(after.hourly, hour, v);
    LifetimeColumnAt(after.lifetime, v);
  }

  /** Rows of other dimensions, and rows whose source is neither a filter name nor a tag, are left alone. */
  lemma {:induction false} OthersUntouched(t: Tables, filters: seq<Filter>, k: HourlyStatKey)
    requires k.dimension != Blocklist
          || forall i :: 0 <= i < |filters| && !Skipped(filters[i]) ==>
               k.value != filters[i].name && k.value != Tag(filters[i])
    ensures k in RenameAll(t, filters).hourly <==> k in t.hourly
    ensures Lookup(RenameAll(t, filters).hourly, k) == Lookup(t.hourly, k)
    ensures Name(k) in RenameAll(t, filters).lifetime <==> Name(k) in t.lifetime
    ensures Name(k) in t.lifetime ==> RenameAll(t, filters).lifetime[Name(k)] == t.lifetime[Name(k)]
  {
    if filters != [] {
      var front, f := filters[..|filters| - 1], filters[|filters| - 1];
      OthersUntouched(t, front, k);
      if !Skipped(f) {
        RenamedKey(RenameAll(t, front).hourly, f.name, Tag(f), k);
      }
    }
  }

  /** No filter's name is the tag of a filter processed after it. */
  predicate NoNameIsLaterTag(filters: seq<Filter>) {
    forall i, j :: 0 <= i < j < |filters| && !Skipped(filters[i]) && !Skipped(filters[j]) ==>
      filters[i].name != Tag(filters[j])
  }

  predicate OldName(filters: seq<Filter>, v: string) {
    exists i :: 0 <= i < |filters| && !Skipped(filters[i]) && filters[i].name == v
  }

  predicate DistinctNames(filters: seq<Filter>) {
    forall i, j :: 0 <= i < j < |filters| && !Skipped(filters[i]) && !Skipped(filters[j]) ==>
      filters[i].name != filters[j].name
  }

  lemma {:induction false} ResolveLeavesNames(filters: seq<Filter>, source: string)
    requires NoNameIsLaterTag(filters)
    ensures !OldName(filters, Resolve(filters, source))
  {
    if filters != [] {
      var front, n := filters[..|filters| - 1], |filters| - 1;
      forall i, j | 0 <= i < j < |front| && !Skipped(front[i]) && !Skipped(front[j])
        ensures front[i].name != Tag(front[j])
      {
        assert front[i] == filters[i] && front[j] == filters[j];
      }
      ResolveLeavesNames(front, source);
      forall i | 0 <= i < |filters| && !Skipped(filters[i]) ensures filters[i].name != Resolve(filters, source) {
        if i < n {
          assert front[i] == filters[i];
        }
      }
    }
  }

  /** A filter with a name that is not `f:` and its id already. */
  predicate Renamed(f: Filter) {
    f.name != "" && f.name != "f:" + f.id
  }

  /** A filter's name goes to its own tag when no earlier filter has that name and no later one the tag as its name. */
  lemma {:induction false} ResolvesToOwnTag(filters: seq<Filter>, j: nat)
    requires j < |filters| && Renamed(filters[j])
    requires forall i :: 0 <= i < j && Renamed(filters[i]) ==> filters[i].name != filters[j].name
    requires forall k :: j < k < |filters| && Renamed(filters[k]) ==> filters[k].name != "f:" + filters[j].id
    ensures Resolve(filters, filters[j].name) == "f:" + filters[j].id
    decreases |filters|
  {
    var front, n := filters[..|filters| - 1], |filters| - 1;
    if j < n {
      ResolvesToOwnTag(front, j);
    } else {
      UntouchedName(front, filters[j].name);
    }
  }

  lemma {:induction false} UntouchedName(filters: seq<Filter>, source: string)
    requires !OldName(filters, source)
    ensures Resolve(filters, source) == source
  {
    if filters != [] {
      var front, n := filters[..|filters| - 1], |filters| - 1;
      forall i | 0 <= i < |front| && !Skipped(front[i]) ensures front[i].name != source {
        assert front[i] == filters[i];
      }
      UntouchedName(front, source);
    }
  }

  /** No filter's name ends up at an old name; a check of the list alone. */
  predicate NamesGoToTags(filters: seq<Filter>) {
    forall i :: 0 <= i < |filters| && !Skipped(filters[i]) ==> !OldName(filters, Resolve(filters, filters[i].name))
  }

  /** Whatever the tables hold, the loop leaves no hourly row under an old name. */
  ghost predicate CleansHourly(filters: seq<Filter>) {
    forall t: Tables, hour: nat, v: string :: NoHourlyLeft(t, filters, hour, v)
  }

  ghost predicate NoHourlyLeft(t: Tables, filters: seq<Filter>, hour: nat, v: string) {
    OldName(filters, v) ==> HourlyStatKey(hour, Blocklist, v) !in RenameAll(t, filters).hourly
  }

  ghost predicate CleansLifetime(filters: seq<Filter>) {
    forall t: Tables, v: string :: NoLifetimeLeft(t, filters, v)
  }

  ghost predicate NoLifetimeLeft(t: Tables, filters: seq<Filter>, v: string) {
    OldName(filters, v) ==> LifetimeKey(Blocklist, v) !in RenameAll(t, filters).lifetime
  }

  /** Then no source at all ends up at an old name: what is no name stays, what is one goes where its filter's goes. */
  lemma SourcesGoToTags(filters: seq<Filter>, source: string)
    requires NamesGoToTags(filters)
    ensures !OldName(filters, Resolve(filters, source))
  {
    if OldName(filters, source) {
      var i :| 0 <= i < |filters| && !Skipped(filters[i]) && filters[i].name == source;
    } else {
      UntouchedName(filters, source);
    }
  }

  lemma TagsLeaveNothing(t: Tables, filters: seq<Filter>, hour: nat, v: string)
    requires NamesGoToTags(filters) && OldName(filters, v)
    ensures HourlyStatKey(hour, Blocklist, v) !in RenameAll(t, filters).hourly
    ensures LifetimeKey(Blocklist, v) !in RenameAll(t, filters).lifetime
  {
    ColumnsRenamed(t, filters, hour);
    RenameGroups(HourColumn(t.hourly, hour), filters, v, Blocked);
    RenameGroups(LifetimeColumn(t.lifetime), filters, v, Blocked);
    HourColumnAt(RenameAll(t, filters).hourly, hour, v);
    LifetimeColumnAt(RenameAll(t, filters).lifetime, v);
    forall u | Resolve(filters, u) == v ensures false {
      SourcesGoToTags(filters, u);
    }
  }

  /** One hourly and one lifetime row under one source. */
  function OneSource(source: string): Tables {
    Tables(map[HourlyStatKey(0, Blocklist, source) := ZERO],
           map[LifetimeKey(Blocklist, source) := LifetimeRow(ZERO, 0, 0)], map[], false)
  }

  /** These rows end up where the source resolves to. */
  lemma OneSourceResolves(filters: seq<Filter>, source: string)
    ensures var after := RenameAll(OneSource(source), filters);
            && HourlyStatKey(0, Blocklist, Resolve(filters, source)) in after.hourly
            && LifetimeKey(Blocklist, Resolve(filters, source)) in after.lifetime
  {
    var t, v := OneSource(source), Resolve(filters, source);
    ColumnsRenamed(t, filters, 0);
    HourColumnAt(t.hourly, 0, source);
    LifetimeColumnAt(t.lifetime, source);
    assert source in Fibre(HourColumn(t.hourly, 0), filters, v);
    assert source in Fibre(LifetimeColumn(t.lifetime), filters, v);
    RenameGroups(HourColumn(t.hourly, 0), filters, v, Blocked);
    RenameGroups(LifetimeColumn(t.lifetime), filters, v, Blocked);
    HourColumnAt(RenameAll(t, filters).hourly, 0, v);
    LifetimeColumnAt(RenameAll(t, filters).lifetime, v);
  }

  /** For any filter list, with repeated names or without: no row is ever left under an old name exactly when no
      filter's name ends up at one, in the hourly table and in the lifetime table alike. */
  lemma CleansExactly(filters: seq<Filter>)
    ensures CleansHourly(filters) <==> NamesGoToTags(filters)
    ensures CleansLifetime(filters) <==> NamesGoToTags(filters)
  {
    if NamesGoToTags(filters) {
      forall t: Tables, hour: nat, v: string
        ensures NoHourlyLeft(t, filters, hour, v) && NoLifetimeLeft(t, filters, v)
      {
        if OldName(filters, v) {
          TagsLeaveNothing(t, filters, hour, v);
        }
      }
      forall t: Tables, v: string ensures NoLifetimeLeft(t, filters, v) {
        assert NoHourlyLeft(t, filters, 0, v) && NoLifetimeLeft(t, filters, v);
      }
    } else {
      var i :| 0 <= i < |filters| && !Skipped(filters[i]) && OldName(filters, Resolve(filters, filters[i].name));
      OneSourceResolves(filters, filters[i].name);
      assert !NoHourlyLeft(OneSource(filters[i].name), filters, 0, Resolve(filters, filters[i].name));
      assert !NoLifetimeLeft(OneSource(filters[i].name), filters, Resolve(filters, filters[i].name));
    }
  }

  /** The simple case: no name is a later filter's tag. */
  lemma NoLaterTagSuffices(filters: seq<Filter>)
    requires NoNameIsLaterTag(filters)
    ensures NamesGoToTags(filters)
  {
    forall i | 0 <= i < |filters| && !Skipped(filters[i])
      ensures !OldName(filters, Resolve(filters, filters[i].name))
    {
      ResolveLeavesNames(filters, filters[i].name);
    }
  }

  /** When no name is a later filter's tag, no row is left under an old filter name, in either table. */
  lemma NoOldNamesLeft(t: Tables, filters: seq<Filter>, hour: nat, v: string)
    requires NoNameIsLaterTag(filters) && OldName(filters, v)
    ensures HourlyStatKey(hour, Blocklist, v) !in RenameAll(t, filters).hourly
    ensures LifetimeKey(Blocklist, v) !in RenameAll(t, filters).lifetime
  {
    NoLaterTagSuffices(filters);
    TagsLeaveNothing(t, filters, hour, v);
  }

  /** With distinct names the simple case is the only one. */
  lemma DistinctNamesExactly(filters: seq<Filter>)
    requires DistinctNames(filters)
    ensures NamesGoToTags(filters) <==> NoNameIsLaterTag(filters)
  {
    if NoNameIsLaterTag(filters) {
      NoLaterTagSuffices(filters);
    } else {
      var i, j :| 0 <= i < j < |filters| && !Skipped(filters[i]) && !Skipped(filters[j])
                  && filters[i].name == Tag(filters[j]);
      ResolvesToOwnTag(filters, j);
      assert OldName(filters, filters[i].name);
    }
  }

  /** A name that is a later filter's tag takes over that filter's row and keeps it. */
  lemma LaterTagLeavesRow(t: Tables, filters: seq<Filter>, i: nat, j: nat, hour: nat)
    requires DistinctNames(filters) && i < j < |filters| && !Skipped(filters[i]) && !Skipped(filters[j])
    requires filters[i].name == Tag(filters[j])
    requires HourlyStatKey(hour, Blocklist, filters[j].name) in t.hourly
    ensures OldName(filters, filters[i].name)
    ensures HourlyStatKey(hour, Blocklist, filters[i].name) in RenameAll(t, filters).hourly
  {
    ResolvesToOwnTag(filters, j);
    ColumnsRenamed(t, filters, hour);
    RenameGroups(HourColumn(t.hourly, hour), filters, filters[i].name, Blocked);
    HourColumnAt(t.hourly, hour, filters[j].name);
    HourColumnAt(RenameAll(t, filters).hourly, hour, filters[i].name);
    assert filters[j].name in Fibre(HourColumn(t.hourly, hour), filters, filters[i].name);
  }

  // ------------------------------------------------------ the byte columns

  lemma BytesRenamed(m: Column, name: string, tag: string, v: string, c: Counter)
    requires name != tag && v != name && c.IsBytes()
    ensures Count(At(RenameColumn(m, name, tag), v), c) == Count(At(m, v), c)
  {
  }

  lemma {:induction false} BytesOfColumn(m: Column, filters: seq<Filter>, v: string, c: Counter)
    requires !OldName(filters, v) && c.IsBytes()
    ensures Count(At(RenameColumnAll(m, filters), v), c) == Count(At(m, v), c)
  {
    if filters != [] {
      var front, n := filters[..|filters| - 1], |filters| - 1;
      forall i | 0 <= i < |front| && !Skipped(front[i]) ensures front[i].name != v {
        assert front[i] == filters[i];
      }
      BytesOfColumn(m, front, v, c);
      if !Skipped(filters[n]) {
        BytesRenamed(RenameColumnAll(m, front), filters[n].name, Tag(filters[n]), v, c);
      }
    }
  }

  /** A source that is no old name keeps the bytes it had, and gets none from the names renamed to it. */
  lemma BytesStay(t: Tables, filters: seq<Filter>, hour: nat, v: string, c: Counter)
    requires !OldName(filters, v) && c.IsBytes()
    ensures var after := RenameAll(t, filters);
            && Count(Lookup(after.hourly, HourlyStatKey(hour, Blocklist, v)), c)
            == Count(Lookup(t.hourly, HourlyStatKey(hour, Blocklist, v)), c)
            && Count(LifetimeStats(after.lifetime, LifetimeKey(Blocklist, v)), c)
            == Count(LifetimeStats(t.lifetime, LifetimeKey(Blocklist, v)), c)
  {
    var after := RenameAll(t, filters);
    ColumnsRenamed(t, filters, hour);
    BytesOfColumn(HourColumn(t.hourly, hour), filters, v, c);
    BytesOfColumn(LifetimeColumn(t.lifetime), filters, v, c);
    HourColumnAt(t.hourly, hour, v);
    HourColumnAt(after.hourly, hour, v);
    LifetimeColumnAt(t.lifetime, v);
    LifetimeColumnAt(after.lifetime, v);
  }

  // ------------------------------------------------ first and last seen

  /** A bound on every first-seen and last-seen time of the blocklist rows that resolve to `v`. */
  ghost predicate SeenWithin(l: Lifetime, filters: seq<Filter>, v: string, lo: int, hi: int) {
    forall u :: LifetimeKey(Blocklist, u) in l && Resolve(filters, u) == v ==>
      lo <= l[LifetimeKey(Blocklist, u)].firstSeen && l[LifetimeKey(Blocklist, u)].lastSeen <= hi
  }

  /** A row's span is the least one that covers the spans of the rows merged into it: minimum and maximum. */
  lemma {:induction false} SpanIsMinMax(t: Tables, filters: seq<Filter>, v: string, lo: int, hi: int)
    requires LifetimeKey(Blocklist, v) in RenameAll(t, filters).lifetime
    ensures var row := RenameAll(t, filters).lifetime[LifetimeKey(Blocklist, v)];
            lo <= row.firstSeen && row.lastSeen <= hi <==> SeenWithin(t.lifetime, filters, v, lo, hi)
  {
    if filters != [] {
      var front, f := filters[..|filters| - 1], filters[|filters| - 1];
      var before := RenameAll(t, front).lifetime;
      if Skipped(f) {
        SpanIsMinMax(t, front, v, lo, hi);
        SameWithin(t.lifetime, filters, front, v, lo, hi);
      } else {
        if v == Tag(f) && LifetimeKey(Blocklist, f.name) in before {
          SpanIsMinMax(t, front, f.name, lo, hi);
        } else if v == Tag(f) {
          NothingUnder(t, front, f.name);
        }
        if LifetimeKey(Blocklist, v) in before {
          SpanIsMinMax(t, front, v, lo, hi);
        } else {
          NothingUnder(t, front, v);
        }
      }
    }
  }

  lemma SameWithin(l: Lifetime, filters: seq<Filter>, front: seq<Filter>, v: string, lo: int, hi: int)
    requires forall u :: Resolve(filters, u) == Resolve(front, u)
    ensures SeenWithin(l, filters, v, lo, hi) <==> SeenWithin(l, front, v, lo, hi)
  {
  }

  lemma NothingUnder(t: Tables, filters: seq<Filter>, v: string)
    requires LifetimeKey(Blocklist, v) !in RenameAll(t, filters).lifetime
    ensures forall u :: LifetimeKey(Blocklist, u) in t.lifetime ==> Resolve(filters, u) != v
  {
    ColumnsRenamed(t, filters, 0);
    RenameGroups(LifetimeColumn(t.lifetime), filters, v, Blocked);
    LifetimeColumnAt(RenameAll(t, filters).lifetime, v);
    forall u | LifetimeKey(Blocklist, u) in t.lifetime ensures Resolve(filters, u) != v {
      LifetimeColumnAt(t.lifetime, u);
      assert u !in Fibre(LifetimeColumn(t.lifetime), filters, v);
    }
  }

  /** Log rows follow the same renaming as the statistics. */
  lemma {:induction false} LogsResolve(t: Tables, filters: seq<Filter>, id: int)
    requires id in t.logs
    ensures id in RenameAll(t, filters).logs
    ensures RenameAll(t, filters).logs[id]
         == if t.logs[id].Some? then Some(Resolve(filters, t.logs[id].value)) else None
  {
    if filters != [] {
      LogsResolve(t, filters[..|filters| - 1], id);
    }
  }
}
