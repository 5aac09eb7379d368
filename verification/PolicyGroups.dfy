/** Client policy groups: reading them, printing one, and upserting it in the configuration text. */
module PolicyGroups {
  import opened Wrappers
  import opened Text
  import opened LineEdits
  import opened ParsedLines
  import opened PolicyRules
  import opened PolicyUpserts

  datatype Mode = Filtering | Bypass

  datatype Group = Group(name: string, mode: Mode, safeSearch: bool, services: seq<string>)

  /** The known services, in sorted order. */
  const SERVICES: seq<string> :=
    ["discord", "epic", "facebook", "instagram", "reddit", "roblox", "steam", "tiktok", "twitch", "x", "youtube"]

  // ------------------------------------------------------------ options of a group

  predicate IsBlock(option: string) {
    |option| >= 6 && option[..6] == "block:"
  }

  /** Services an option blocks: the names between bars behind `block:`. */
  predicate Blocks(option: string, service: string) {
    IsBlock(option) && service in Split(option[6..], '|')
  }

  function LowTrimmed(raw: seq<string>): (options: seq<string>)
    ensures |options| == |raw|
    ensures forall i :: 0 <= i < |raw| ==> options[i] == Lower(Trim(raw[i], JsSpace))
  {
    if raw == [] then [] else [Lower(Trim(raw[0], JsSpace))] + LowTrimmed(raw[1..])
  }

  predicate SomeBlocks(options: seq<string>, service: string) {
    exists i :: 0 <= i < |options| && Blocks(options[i], service)
  }

  function BlockedBy(options: seq<string>): string -> bool {
    (service: string) => SomeBlocks(options, service)
  }

  /** What the options say, in whatever order and however often they are repeated; services come out sorted. */
  function GroupOf(name: string, options: seq<string>): Group {
    Group(name, if "bypass" in options then Bypass else Filtering, "safe_search" in options,
          Filter(SERVICES, BlockedBy(options)))
  }

  // What the options say, spelled out.

  predicate KnownService(service: string) {
    || service == "youtube" || service == "tiktok" || service == "instagram" || service == "facebook"
    || service == "x" || service == "reddit" || service == "twitch" || service == "discord"
    || service == "steam" || service == "epic" || service == "roblox"
  }

  lemma ServicesKnown(service: string)
    ensures service in SERVICES <==> KnownService(service)
  {
    if KnownService(service) {
      assert SERVICES[0] == "discord" && SERVICES[1] == "epic" && SERVICES[2] == "facebook";
      assert SERVICES[3] == "instagram" && SERVICES[4] == "reddit" && SERVICES[5] == "roblox";
      assert SERVICES[6] == "steam" && SERVICES[7] == "tiktok" && SERVICES[8] == "twitch";
      assert SERVICES[9] == "x" && SERVICES[10] == "youtube";
    }
  }

  /** An option that names a service between the bars behind `block:`. */
  ghost predicate NamesService(option: string, service: string) {
    exists names: seq<string> :: names != [] && service in names && (forall n :: n in names ==> '|' !in n)
                                 && option == "block:" + Join(names, '|')
  }

  lemma BlocksNamed(option: string, service: string)
    ensures Blocks(option, service) <==> NamesService(option, service)
  {
    if Blocks(option, service) {
      var names := Split(option[6..], '|');
      JoinSplit(option[6..], '|');
      SplitParts(option[6..], '|');
      assert option == "block:" + option[6..];
    }
    if NamesService(option, service) {
      var names: seq<string> :| names != [] && service in names && (forall n :: n in names ==> '|' !in n)
                                && option == "block:" + Join(names, '|');
      SplitJoin(names, '|');
      assert option[..6] == "block:" && option[6..] == Join(names, '|');
    }
  }

  /** A group bypasses or searches safely when an option says so, and blocks exactly the known services some option
      names. */
  lemma GroupSays(name: string, options: seq<string>, service: string)
    ensures var group := GroupOf(name, options);
            && group.name == name
            && (group.mode.Bypass? <==> exists i :: 0 <= i < |options| && options[i] == "bypass")
            && (group.safeSearch <==> exists i :: 0 <= i < |options| && options[i] == "safe_search")
            && (service in group.services <==>
                  KnownService(service) && exists i :: 0 <= i < |options| && NamesService(options[i], service))
  {
    ServicesKnown(service);
    FilterHolds(SERVICES, BlockedBy(options), service);
    forall i | 0 <= i < |options| ensures Blocks(options[i], service) <==> NamesService(options[i], service) {
      BlocksNamed(options[i], service);
    }
  }

  lemma FilterHolds<T>(s: seq<T>, keep: T -> bool, x: T)
    ensures x in Filter(s, keep) <==> x in s && keep(x)
  {
    var at := FilterPositions(s, keep);
    if x in s && keep(x) {
      var i: nat :| i < |s| && s[i] == x;
      assert i in at;
      var k :| 0 <= k < |at| && at[k] == i;
      assert Filter(s, keep)[k] == x;
    }
  }

  /** The set of services, sorted. */
  function Sorted(services: set<string>): seq<string> {
    Filter(SERVICES, (service: string) => service in services)
  }

  lemma {:induction false} FilterSame<T>(s: seq<T>, keep: T -> bool, also: T -> bool)
    requires forall x :: x in s ==> keep(x) == also(x)
    ensures Filter(s, keep) == Filter(s, also)
  {
    if s != [] {
      assert s[0] in s;
      FilterSame(s[1..], keep, also);
    }
  }

  lemma SortedIsFilter(services: set<string>, keep: string -> bool)
    requires forall s :: s in SERVICES ==> (s in services <==> keep(s))
    ensures Sorted(services) == Filter(SERVICES, keep)
  {
    FilterSame(SERVICES, (service: string) => service in services, keep);
  }

  /** The inner loop: adds the known services of one option. */
  method AddServices(names: seq<string>, services: set<string>) returns (all: set<string>)
    ensures forall s :: s in all <==> s in services || (s in SERVICES && s in names)
  {
    all := services;
    for i := 0 to |names|
      invariant forall s :: s in all <==> s in services || (s in SERVICES && s in names[..i])
    {
      assert names[..i + 1] == names[..i] + [names[i]];
      if names[i] in SERVICES {
        all := all + {names[i]};
      }
    }
    assert names[..|names|] == names;
  }

  lemma OneMoreOption(options: seq<string>, i: nat, service: string)
    requires i < |options|
    ensures SomeBlocks(options[..i + 1], service) <==> SomeBlocks(options[..i], service) || Blocks(options[i], service)
    ensures forall o :: o in options[..i + 1] <==> o in options[..i] || o == options[i]
  {
    var before, now := options[..i], options[..i + 1];
    assert now == before + [options[i]];
    if SomeBlocks(before, service) {
      var k :| 0 <= k < |before| && Blocks(before[k], service);
      assert now[k] == before[k];
    }
    if Blocks(options[i], service) {
      assert now[i] == options[i];
    }
    if SomeBlocks(now, service) && !Blocks(options[i], service) {
      var k :| 0 <= k < |now| && Blocks(now[k], service);
      assert k < i && before[k] == now[k];
    }
  }

  lemma OneMoreForAll(options: seq<string>, i: nat)
    requires i < |options|
    ensures forall s :: SomeBlocks(options[..i + 1], s) <==> SomeBlocks(options[..i], s) || Blocks(options[i], s)
    ensures forall o :: o in options[..i + 1] <==> o in options[..i] || o == options[i]
  {
    forall s: string
      ensures SomeBlocks(options[..i + 1], s) <==> SomeBlocks(options[..i], s) || Blocks(options[i], s)
    {
      OneMoreOption(options, i, s);
    }
    OneMoreOption(options, i, "");
  }

  /** The loop over the options of one line. */
  method ReadOptions(name: string, policy: string) returns (group: Group)
    ensures group == GroupOf(name, LowTrimmed(Split(policy, ',')))
  {
    var options := LowTrimmed(Split(policy, ','));
    var mode, safeSearch, services := Filtering, false, {};
    var i := 0;
    while i < |options|
      invariant 0 <= i <= |options|
      invariant mode == Bypass <==> "bypass" in options[..i]
      invariant safeSearch <==> "safe_search" in options[..i]
      invariant forall s :: s in SERVICES ==> (s in services <==> SomeBlocks(options[..i], s))
    {
      OneMoreForAll(options, i);
      mode, safeSearch, services := ReadOption(options[i], mode, safeSearch, services);
      i := i + 1;
    }
    assert options[..i] == options;
    SortedIsFilter(services, BlockedBy(options));
    group := Group(name, mode, safeSearch, Sorted(services));
  }

  method ReadOption(option: string, mode: Mode, safeSearch: bool, services: set<string>)
    returns (newMode: Mode, newSafeSearch: bool, newServices: set<string>)
    ensures newMode == if option == "bypass" then Bypass else mode
    ensures newSafeSearch == (safeSearch || option == "safe_search")
    ensures forall s :: s in SERVICES ==> (s in newServices <==> s in services || Blocks(option, s))
  {
    newMode, newSafeSearch, newServices := mode, safeSearch, services;
    if option == "bypass" {
      newMode := Bypass;
    } else if option == "safe_search" {
      newSafeSearch := true;
    } else if IsBlock(option) {
      newServices := AddServices(Split(option[6..], '|'), services);
    }
  }

  // ------------------------------------------------------------------ a group line

  function ParseGroupLine(line: string): Option<Group> {
    var trimmed := Trim(line, JsSpace);
    if IsComment(trimmed) then None
    else
      var pair := SplitPair(trimmed, '=', '>');
      if |pair| != 2 then None
      else
        var name := Lower(Trim(pair[0], JsSpace));
        if !ValidatePolicyName(name) then None else Some(GroupOf(name, LowTrimmed(Split(pair[1], ','))))
  }

  method ParseClientPolicyGroups(value: string) returns (groups: seq<Group>)
    ensures groups == Entries(value, ParseGroupLine)
  {
    groups := [];
    var lines := Split(value, '\n');
    for i := 0 to |lines|
      invariant groups == Parsed(lines[..i], ParseGroupLine)
    {
      assert lines[..i + 1] == lines[..i] + [lines[i]];
      ParsedSnoc(lines[..i], lines[i], ParseGroupLine);
      var group := ReadGroupLine(lines[i]);
      if group.Some? {
        groups := groups + [group.value];
      }
    }
    assert lines[..|lines|] == lines;
  }

  method ReadGroupLine(line: string) returns (group: Option<Group>)
    ensures group == ParseGroupLine(line)
  {
    var trimmed := Trim(line, JsSpace);
    if IsComment(trimmed) {
      return None;
    }
    var pair := SplitPair(trimmed, '=', '>');
    if |pair| != 2 {
      return None;
    }
    var name := Lower(Trim(pair[0], JsSpace));
    if !ValidatePolicyName(name) {
      return None;
    }
    var read := ReadOptions(name, pair[1]);
    return Some(read);
  }

  function GroupKey(group: Group): string {
    group.name
  }

  method FindClientPolicyGroup(value: string, name: string) returns (found: Option<Group>)
    ensures found == FindLast(Entries(value, ParseGroupLine), GroupKey, Lower(Trim(name, JsSpace)))
  {
    var groups := ParseClientPolicyGroups(value);
    found := FindFromEnd(groups, GroupKey, Lower(Trim(name, JsSpace)));
  }

  // ---------------------------------------------------------------- printing a group

  function ModeOption(mode: Mode): string {
    if mode == Bypass then "bypass" else "filter"
  }

  function KnownServices(group: Group): seq<string> {
    Filter(SERVICES, (service: string) => service in group.services)
  }

  function PrintedOptions(group: Group): seq<string> {
    [ModeOption(group.mode)]
    + (if group.safeSearch then ["safe_search"] else [])
    + (if KnownServices(group) == [] then [] else ["block:" + Join(KnownServices(group), '|')])
  }

  function JoinOptions(options: seq<string>): string
    requires options != []
  {
    if |options| == 1 then options[0] else options[0] + ", " + JoinOptions(options[1..])
  }

  function PrintGroup(group: Group): string {
    Lower(Trim(group.name, JsSpace)) + " => " + JoinOptions(PrintedOptions(group))
  }

  /** The group as it is meant to be stored: known services only, sorted, each once. */
  function NormalGroup(group: Group): Group {
    Group(Lower(Trim(group.name, JsSpace)), group.mode, group.safeSearch, KnownServices(group))
  }

  const RESERVED: seq<string> := ["filter", "bypass", "family"]

  predicate CheckGroup(group: Group) {
    var name := Lower(Trim(group.name, JsSpace));
    ValidatePolicyName(name) && name !in RESERVED
  }

  /** Names that stand for built-in policies are refused. */
  lemma ReservedNames(group: Group)
    ensures CheckGroup(group) <==>
            var name := Lower(Trim(group.name, JsSpace));
            ValidatePolicyName(name) && name != "filter" && name != "bypass" && name != "family"
  {
    assert RESERVED[0] == "filter" && RESERVED[1] == "bypass" && RESERVED[2] == "family";
  }

  /** The test the edit makes on a line: it neither trims the line nor looks for comments. */
  function NamesGroup(name: string): string -> bool {
    (line: string) =>
      var pair := SplitPair(line, '=', '>');
      |pair| == 2 && Lower(Trim(pair[0], JsSpace)) == name
  }

  method UpsertClientPolicyGroup(value: string, group: Group) returns (r: Result<string, UpsertError>)
    ensures r == if CheckGroup(group) then Ok(Upserted(value, PrintGroup(group), NamesGroup(NormalGroup(group).name)))
                 else Err(BadName)
  {
    if !CheckGroup(group) {
      return Err(BadName);
    }
    var text := UpsertLine(value, PrintGroup(group), NamesGroup(NormalGroup(group).name));
    return Ok(text);
  }
}
