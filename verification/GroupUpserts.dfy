/** A printed policy group reads back, and what an upsert of one leaves in the configuration text. */
module GroupUpserts {
  import opened Wrappers
  import opened Text
  import opened LineEdits
  import opened ParsedLines
  import opened PolicyRules
  import opened PolicyUpserts
  import opened PolicyGroups

  // ------------------------------------------------------- printed options read back

  /** An option as it is printed: lower case, tight, without commas. */
  predicate PlainOption(option: string) {
    option != "" && Tight(option, JsSpace) && Lower(option) == option && ',' !in option && '\n' !in option
    && '=' !in option
  }

  function Spaced(options: seq<string>): (s: seq<string>)
    ensures |s| == |options|
  {
    if options == [] then [] else [" " + options[0]] + Spaced(options[1..])
  }

  lemma SpacedGroups(first: string, rest: string)
    ensures " " + (first + ", " + rest) == (" " + first) + [','] + (" " + rest)
  {
  }

  lemma {:induction false} JoinedOptionsSplit(options: seq<string>)
    requires options != [] && forall i :: 0 <= i < |options| ==> ',' !in options[i]
    ensures Split(" " + JoinOptions(options), ',') == Spaced(options)
  {
    if |options| == 1 {
      SplitOne(" " + options[0], ',');
    } else {
      JoinedOptionsSplit(options[1..]);
      SpacedGroups(options[0], JoinOptions(options[1..]));
      SplitTwo(" " + options[0], " " + JoinOptions(options[1..]), ',');
    }
  }

  lemma SpacedOption(option: string)
    requires PlainOption(option)
    ensures Lower(Trim(" " + option, JsSpace)) == option
  {
    TrimPadded(" ", option, "", JsSpace);
    assert " " + option + "" == " " + option;
  }

  lemma {:induction false} SpacedReadBack(options: seq<string>)
    requires forall i :: 0 <= i < |options| ==> PlainOption(options[i])
    ensures LowTrimmed(Spaced(options)) == options
  {
    if options != [] {
      SpacedOption(options[0]);
      SpacedReadBack(options[1..]);
    }
  }

  // ------------------------------------------------------------- services in options

  predicate ServiceName(s: string) {
    s != "" && forall i :: 0 <= i < |s| ==> 'a' <= s[i] <= 'z'
  }

  lemma ServiceNames()
    ensures forall i :: 0 <= i < |SERVICES| ==> ServiceName(SERVICES[i])
  {
    assert ServiceName(SERVICES[0]) && ServiceName(SERVICES[1]) && ServiceName(SERVICES[2]);
    assert ServiceName(SERVICES[3]) && ServiceName(SERVICES[4]) && ServiceName(SERVICES[5]);
    assert ServiceName(SERVICES[6]) && ServiceName(SERVICES[7]) && ServiceName(SERVICES[8]);
    assert ServiceName(SERVICES[9]) && ServiceName(SERVICES[10]);
  }

  lemma {:induction false} FilterMembers(s: seq<string>, keep: string -> bool)
    ensures forall x :: x in Filter(s, keep) <==> x in s && keep(x)
  {
    if s != [] {
      FilterMembers(s[1..], keep);
    }
  }

  lemma KnownServiceNames(group: Group)
    ensures forall s :: s in KnownServices(group) <==> s in SERVICES && s in group.services
    ensures forall s :: s in KnownServices(group) ==> ServiceName(s)
  {
    FilterMembers(SERVICES, (service: string) => service in group.services);
    ServiceNames();
  }

  predicate BlockChar(c: char) {
    'a' <= c <= 'z' || c == '|' || c == ':'
  }

  lemma {:induction false} JoinedServices(services: seq<string>)
    requires services != [] && forall s :: s in services ==> ServiceName(s)
    ensures Join(services, '|') != "" && forall c :: c in Join(services, '|') ==> BlockChar(c)
  {
    assert services[0] in services;
    if |services| > 1 {
      JoinedServices(services[1..]);
    }
  }

  lemma BlockCharsPlain(option: string)
    requires option != "" && forall c :: c in option ==> BlockChar(c)
    ensures PlainOption(option)
  {
    assert option[0] in option && option[|option| - 1] in option;
    forall i | 0 <= i < |option| ensures LowerChar(option[i]) == option[i] {
      assert option[i] in option;
    }
  }

  /** The option printed for some services blocks exactly these. */
  lemma BlockOption(services: seq<string>)
    requires services != [] && forall s :: s in services ==> ServiceName(s)
    ensures var option := "block:" + Join(services, '|');
            PlainOption(option) && IsBlock(option) && forall s :: Blocks(option, s) <==> s in services
  {
    var option := "block:" + Join(services, '|');
    JoinedServices(services);
    BlockPrefix(Join(services, '|'));
    BlockCharsPlain(option);
    forall p | p in services ensures '|' !in p {
      assert ServiceName(p);
    }
    SplitJoin(services, '|');
  }

  lemma BlockPrefix(names: string)
    requires forall c :: c in names ==> BlockChar(c)
    ensures var option := "block:" + names;
            IsBlock(option) && option[6..] == names && forall c :: c in option ==> BlockChar(c)
  {
    var option := "block:" + names;
    assert option[..6] == "block:";
  }

  predicate FlagChars(option: string) {
    option != "" && forall i :: 0 <= i < |option| ==> 'a' <= option[i] <= 'z' || option[i] == '_'
  }

  lemma FlagIsPlain(option: string)
    requires FlagChars(option)
    ensures PlainOption(option)
  {
  }

  lemma FlagIsNoBlock(option: string)
    requires FlagChars(option)
    ensures !IsBlock(option)
  {
    assert |option| >= 6 ==> option[..6][5] == option[5];
  }

  lemma Flags()
    ensures FlagChars("filter") && FlagChars("bypass") && FlagChars("safe_search")
  {
  }

  // -------------------------------------------------------------- options of a group

  function ServicesOption(group: Group): string
    requires KnownServices(group) != []
  {
    "block:" + Join(KnownServices(group), '|')
  }

  lemma PrintedMembers(group: Group, option: string)
    ensures option in PrintedOptions(group) <==>
            option == ModeOption(group.mode) || (group.safeSearch && option == "safe_search")
            || (KnownServices(group) != [] && option == ServicesOption(group))
  {
    InParts([ModeOption(group.mode)], if group.safeSearch then ["safe_search"] else [],
            if KnownServices(group) == [] then [] else [ServicesOption(group)], option);
  }

  lemma InParts(a: seq<string>, b: seq<string>, c: seq<string>, x: string)
    ensures x in a + b + c <==> x in a || x in b || x in c
  {
  }

  lemma ServicesBlock(group: Group)
    requires KnownServices(group) != []
    ensures PlainOption(ServicesOption(group)) && IsBlock(ServicesOption(group))
    ensures forall s :: Blocks(ServicesOption(group), s) <==> s in KnownServices(group)
  {
    KnownServiceNames(group);
    BlockOption(KnownServices(group));
  }

  lemma OptionPlain(group: Group, option: string)
    requires option in PrintedOptions(group)
    ensures PlainOption(option) && (IsBlock(option) <==> KnownServices(group) != [] && option == ServicesOption(group))
  {
    PrintedMembers(group, option);
    Flags();
    if KnownServices(group) != [] && option == ServicesOption(group) {
      ServicesBlock(group);
    } else {
      FlagIsPlain(option);
      FlagIsNoBlock(option);
    }
  }

  lemma OptionsPlain(group: Group)
    ensures forall i :: 0 <= i < |PrintedOptions(group)| ==> PlainOption(PrintedOptions(group)[i])
  {
    forall i | 0 <= i < |PrintedOptions(group)| ensures PlainOption(PrintedOptions(group)[i]) {
      OptionPlain(group, PrintedOptions(group)[i]);
    }
  }

  lemma FlagReadsBack(group: Group, flag: string)
    requires FlagChars(flag)
    ensures flag in PrintedOptions(group) <==>
            flag == ModeOption(group.mode) || (group.safeSearch && flag == "safe_search")
  {
    PrintedMembers(group, flag);
    FlagIsNoBlock(flag);
    if KnownServices(group) != [] {
      ServicesBlock(group);
    }
  }

  lemma FlagsReadBack(group: Group)
    ensures "bypass" in PrintedOptions(group) <==> group.mode == Bypass
    ensures "safe_search" in PrintedOptions(group) <==> group.safeSearch
  {
    Flags();
    FlagReadsBack(group, "bypass");
    FlagReadsBack(group, "safe_search");
    assert "safe_search"[0] == 's' && "bypass"[0] == 'b' && "filter"[0] == 'f';
  }

  lemma ServicesReadBack(group: Group, service: string)
    ensures SomeBlocks(PrintedOptions(group), service) <==> service in KnownServices(group)
  {
    var options := PrintedOptions(group);
    if SomeBlocks(options, service) {
      var i :| 0 <= i < |options| && Blocks(options[i], service);
      OptionPlain(group, options[i]);
      ServicesBlock(group);
    }
    if service in KnownServices(group) {
      ServicesBlock(group);
      PrintedMembers(group, ServicesOption(group));
      var i :| 0 <= i < |options| && options[i] == ServicesOption(group);
      assert Blocks(options[i], service);
    }
  }

  /** The printed options say what the group says. */
  lemma OptionsReadBack(group: Group, name: string)
    ensures GroupOf(name, PrintedOptions(group)) == Group(name, group.mode, group.safeSearch, KnownServices(group))
  {
    var options := PrintedOptions(group);
    FlagsReadBack(group);
    KnownServiceNames(group);
    forall s | s in SERVICES ensures BlockedBy(options)(s) == (s in group.services) {
      ServicesReadBack(group, s);
    }
    FilterSame(SERVICES, BlockedBy(options), (service: string) => service in group.services);
  }

  lemma PrintedPolicyReadsBack(group: Group, name: string)
    ensures GroupOf(name, LowTrimmed(Split(" " + JoinOptions(PrintedOptions(group)), ',')))
         == Group(name, group.mode, group.safeSearch, KnownServices(group))
  {
    var options := PrintedOptions(group);
    OptionsPlain(group);
    JoinedOptionsSplit(options);
    SpacedReadBack(options);
    OptionsReadBack(group, name);
  }

  // ------------------------------------------------------------------ the whole line

  lemma {:induction false} JoinedOptionsText(options: seq<string>)
    requires options != [] && forall i :: 0 <= i < |options| ==> PlainOption(options[i])
    ensures var text := JoinOptions(options);
            text != "" && !JsSpace(text[|text| - 1]) && '\n' !in text && '=' !in text
  {
    assert PlainOption(options[0]);
    if |options| > 1 {
      JoinedOptionsText(options[1..]);
    }
  }

  lemma GroupLineOfParts(line: string, name: string, key: string, policy: string)
    requires Trim(line, JsSpace) == line && !IsComment(line) && SplitPair(line, '=', '>') == [key, policy]
    requires Trim(key, JsSpace) == name && LowName(name)
    ensures ParseGroupLine(line) == Some(GroupOf(name, LowTrimmed(Split(policy, ','))))
  {
    NamePlain(name);
    TrimTight(name, JsSpace);
  }

  lemma NameStart(name: string, rest: string)
    requires PlainName(name)
    ensures !IsComment(name + rest)
  {
    NamePlain(name);
    assert (name + rest)[0] == name[0] && name[0] in name;
  }

  lemma PrintedLineParts(name: string, text: string)
    requires LowName(name) && text != "" && !JsSpace(text[|text| - 1]) && '=' !in text
    ensures var line := name + " => " + text;
            SplitPair(line, '=', '>') == [name + " ", " " + text] && Trim(name + " ", JsSpace) == name
  {
    var policy := " " + text;
    NamePlain(name);
    LineGroups(name, text);
    KeyBeforeMark(name, policy);
    NoPairWithout(policy, '=', '>');
    SplitPairNone(policy, '=', '>');
  }

  lemma PrintedLineTight(name: string, text: string)
    requires LowName(name) && text != "" && !JsSpace(text[|text| - 1])
    ensures var line := name + " => " + text; Tight(line, JsSpace) && !IsComment(line) && line != ""
  {
    var line := name + " => " + text;
    NamePlain(name);
    NameStart(name, " => " + text);
    assert line == name + (" => " + text);
    assert line[0] == name[0] && line[|line| - 1] == text[|text| - 1];
  }

  /** A line made of a name, the mark and options parses to the group the options say. */
  lemma GroupLineReadsBack(name: string, text: string)
    requires LowName(name) && text != "" && !JsSpace(text[|text| - 1]) && '=' !in text
    ensures var line := name + " => " + text;
            ParseGroupLine(line) == Some(GroupOf(name, LowTrimmed(Split(" " + text, ','))))
  {
    var line := name + " => " + text;
    PrintedLineTight(name, text);
    PrintedLineParts(name, text);
    TrimTight(line, JsSpace);
    GroupLineOfParts(line, name, name + " ", " " + text);
  }

  lemma PrintedGroupIsLine(name: string, text: string)
    requires PlainName(name) && '\n' !in text
    ensures '\n' !in name + " => " + text
  {
    NamePlain(name);
  }

  lemma PrintedGroupParts(group: Group)
    requires CheckGroup(group)
    ensures var name, text := NormalGroup(group).name, JoinOptions(PrintedOptions(group));
            LowName(name) && text != "" && !JsSpace(text[|text| - 1]) && '\n' !in text && '=' !in text
            && PrintGroup(group) == name + " => " + text
  {
    CheckedName(group);
    OptionsPlain(group);
    JoinedOptionsText(PrintedOptions(group));
  }

  lemma PrintedGroupTight(group: Group)
    requires CheckGroup(group)
    ensures OneTightLine(PrintGroup(group))
  {
    var name, text := NormalGroup(group).name, JoinOptions(PrintedOptions(group));
    PrintedGroupParts(group);
    PrintedLineTight(name, text);
    PrintedGroupIsLine(name, text);
    TightIsOneLine(PrintGroup(group));
  }

  /** A checked group's line parses to the normalised group. */
  lemma GroupReadsBack(group: Group)
    requires CheckGroup(group)
    ensures ParseGroupLine(PrintGroup(group)) == Some(NormalGroup(group))
    ensures OneTightLine(PrintGroup(group))
  {
    var name, text := NormalGroup(group).name, JoinOptions(PrintedOptions(group));
    PrintedGroupParts(group);
    PrintedGroupTight(group);
    GroupLineReadsBack(name, text);
    PrintedPolicyReadsBack(group, name);
  }

  lemma CheckedName(group: Group)
    requires CheckGroup(group)
    ensures LowName(NormalGroup(group).name)
  {
    var trimmed := Trim(group.name, JsSpace);
    var name := Lower(trimmed);
    TrimSpec(group.name, JsSpace);
    LowerTight(trimmed);
    TrimTight(name, JsSpace);
    LowerIdempotent(trimmed);
  }

  lemma LowerTight(s: string)
    requires Tight(s, JsSpace)
    ensures Tight(Lower(s), JsSpace)
  {
  }

  // ------------------------------------ the edit's test of a line and the parser's

  lemma SpaceIsNoMark(s: string)
    requires AllSpace(s, JsSpace)
    ensures '=' !in s && '>' !in s
  {
  }

  /** Splitting a line and splitting the trimmed line differ only in white space around the parts. */
  lemma PairOfTrimmed(line: string)
    ensures var pair, trimmed := SplitPair(line, '=', '>'), SplitPair(Trim(line, JsSpace), '=', '>');
            |pair| == |trimmed| && (|pair| == 2 ==> Trim(pair[0], JsSpace) == Trim(trimmed[0], JsSpace))
  {
    var pre, post := TrimParts(line, JsSpace);
    var core := Trim(line, JsSpace);
    SpaceIsNoMark(pre);
    SpaceIsNoMark(post);
    SplitPairSuffix(core, post, '=', '>');
    SplitPairPrefix(pre, core + post, '=', '>');
    assert line == pre + (core + post);
    if |SplitPair(core, '=', '>')| == 2 {
      TrimBefore(pre, SplitPair(core, '=', '>')[0]);
    }
  }

  lemma TrimBefore(pre: string, s: string)
    requires AllSpace(pre, JsSpace)
    ensures Trim(pre + s, JsSpace) == Trim(s, JsSpace)
  {
    TrimStartDrops(pre, s, JsSpace);
  }

  lemma CommentIsNoName(trimmed: string, name: string)
    requires IsComment(trimmed) && Tight(trimmed, JsSpace) && LowName(name)
    ensures var pair := SplitPair(trimmed, '=', '>'); !(|pair| == 2 && Lower(Trim(pair[0], JsSpace)) == name)
  {
    var pair := SplitPair(trimmed, '=', '>');
    NamePlain(name);
    if |pair| == 2 && pair[0] != "" {
      assert pair[0][0] == trimmed[0];
      TrimKeepsFirst(pair[0]);
      var t := Trim(pair[0], JsSpace);
      assert Lower(t)[0] == t[0];
      assert Lower(t)[0] in Lower(t);
    }
  }

  lemma TrimKeepsFirst(s: string)
    requires s != "" && !JsSpace(s[0])
    ensures Trim(s, JsSpace) != "" && Trim(s, JsSpace)[0] == s[0]
  {
    TrimEndSpec(s, JsSpace);
    assert TrimStart(s, JsSpace) == s;
  }

  lemma ParsedName(line: string, name: string)
    requires LowName(name)
    ensures var trimmed := Trim(line, JsSpace);
            var pair := SplitPair(trimmed, '=', '>');
            ParseGroupLine(line).Some? && ParseGroupLine(line).value.name == name
            <==> !IsComment(trimmed) && |pair| == 2 && Lower(Trim(pair[0], JsSpace)) == name
  {
    NamePlain(name);
    TrimTight(name, JsSpace);
  }

  /** The edit replaces exactly the lines the parser reads as a group of that name. */
  lemma EditMatchesParser(line: string, name: string)
    requires LowName(name)
    ensures NamesGroup(name)(line) <==> ParseGroupLine(line).Some? && ParseGroupLine(line).value.name == name
  {
    var trimmed := Trim(line, JsSpace);
    ParsedName(line, name);
    PairOfTrimmed(line);
    TrimSpec(line, JsSpace);
    if IsComment(trimmed) {
      CommentIsNoName(trimmed, name);
    }
  }

  ghost predicate SameAt(m: string -> bool, n: string -> bool, line: string) {
    m(line) == n(line)
  }

  lemma {:induction false} FirstMatchSame(lines: seq<string>, m: string -> bool, n: string -> bool)
    requires forall line :: line in lines ==> SameAt(m, n, line)
    ensures FirstMatch(lines, m) == FirstMatch(lines, n)
  {
    if lines != [] {
      assert lines[0] in lines && SameAt(m, n, lines[0]);
      FirstMatchSame(lines[1..], m, n);
    }
  }

  lemma UpsertedSame(value: string, nextLine: string, m: string -> bool, n: string -> bool)
    requires forall line :: line in Split(value, '\n') ==> SameAt(m, n, line)
    ensures Upserted(value, nextLine, m) == Upserted(value, nextLine, n)
  {
    var lines := Split(value, '\n');
    FirstMatchSame(lines, m, n);
    var i := FirstMatch(lines, m);
    if i < |lines| {
      forall line | line in lines[i + 1..] ensures Not(m)(line) == Not(n)(line) {
        assert line in lines && SameAt(m, n, line);
      }
      FilterSame(lines[i + 1..], Not(m), Not(n));
    }
  }

  // ------------------------------------------------------------------ the theorems

  function AfterUpsert(value: string, group: Group): string {
    Upserted(value, PrintGroup(group), NamesGroup(NormalGroup(group).name))
  }

  lemma EditMatchesAt(line: string, name: string)
    requires LowName(name)
    ensures SameAt(NamesGroup(name), Has(ParseGroupLine, GroupKey, name), line)
  {
    EditMatchesParser(line, name);
    SameTest(line, NamesGroup(name), ParseGroupLine, GroupKey, name);
  }

  lemma SameTest<T>(line: string, test: string -> bool, parse: string -> Option<T>, key: T -> string, k: string)
    requires test(line) <==> parse(line).Some? && key(parse(line).value) == k
    ensures SameAt(test, Has(parse, key, k), line)
  {
  }

  lemma AfterUpsertByParser(value: string, group: Group)
    requires CheckGroup(group)
    ensures AfterUpsert(value, group)
         == Upserted(value, PrintGroup(group), Has(ParseGroupLine, GroupKey, NormalGroup(group).name))
  {
    var name := NormalGroup(group).name;
    CheckedName(group);
    forall line | line in Split(value, '\n')
      ensures SameAt(NamesGroup(name), Has(ParseGroupLine, GroupKey, name), line)
    {
      EditMatchesAt(line, name);
    }
    UpsertedSame(value, PrintGroup(group), NamesGroup(name), Has(ParseGroupLine, GroupKey, name));
  }

  lemma GroupLineReadsPast(line: string)
    ensures ParseGroupLine(TrimEnd(line, JsSpace)) == ParseGroupLine(line)
  {
    TrimOfTrimEnd(line, JsSpace);
  }

  lemma NoGroupInBlank()
    ensures ParseGroupLine("").None?
  {
    TrimTight("", JsSpace);
  }

  lemma GroupLinesReadPastEndSpace()
    ensures ReadsPastEndSpace(ParseGroupLine)
  {
    NoGroupInBlank();
    forall line: string ensures SameWithoutEnd(ParseGroupLine, line) {
      GroupLineReadsPast(line);
    }
  }

  /** Finding after upserting: the normalised group under its name, and what was there before under any other. */
  lemma FindAfterGroupUpsert(value: string, group: Group, name: string)
    requires CheckGroup(group)
    ensures FindLast(Entries(AfterUpsert(value, group), ParseGroupLine), GroupKey, name)
         == if name == NormalGroup(group).name then Some(NormalGroup(group))
            else FindLast(Entries(value, ParseGroupLine), GroupKey, name)
  {
    GroupLinesReadPastEndSpace();
    GroupReadsBack(group);
    AfterUpsertByParser(value, group);
    FindAfterUpsert(value, PrintGroup(group), ParseGroupLine, GroupKey, NormalGroup(group), name);
  }

  lemma UpsertFits(group: Group)
    requires CheckGroup(group)
    ensures var matches := Has(ParseGroupLine, GroupKey, NormalGroup(group).name);
            IgnoresEndSpace(matches) && matches(PrintGroup(group)) && OneTightLine(PrintGroup(group))
  {
    GroupLinesReadPastEndSpace();
    HasIgnoresEndSpace(ParseGroupLine, GroupKey, NormalGroup(group).name);
    GroupReadsBack(group);
    HasEntry(PrintGroup(group), ParseGroupLine, GroupKey, NormalGroup(group));
  }

  lemma HasEntry<T>(line: string, parse: string -> Option<T>, key: T -> string, entry: T)
    requires parse(line) == Some(entry)
    ensures Has(parse, key, key(entry))(line)
  {
  }

  /** One line for the name, and every other line in its place up to blanks at the end. */
  lemma GroupUpsertLines(value: string, group: Group)
    requires CheckGroup(group)
    ensures var matches := Has(ParseGroupLine, GroupKey, NormalGroup(group).name);
            MatchingLines(AfterUpsert(value, group), matches) == [PrintGroup(group)]
            && OtherLines(AfterUpsert(value, group), matches) == OtherLines(value, matches)
  {
    UpsertFits(group);
    AfterUpsertByParser(value, group);
    UpsertKeepsOthers(value, PrintGroup(group), Has(ParseGroupLine, GroupKey, NormalGroup(group).name));
  }

  /** Upserting a group again changes nothing. */
  lemma GroupUpsertIdempotent(value: string, group: Group)
    requires CheckGroup(group)
    ensures AfterUpsert(AfterUpsert(value, group), group) == AfterUpsert(value, group)
  {
    UpsertFits(group);
    AfterUpsertByParser(value, group);
    AfterUpsertByParser(AfterUpsert(value, group), group);
    UpsertIdempotent(value, PrintGroup(group), Has(ParseGroupLine, GroupKey, NormalGroup(group).name));
  }
}
