/** Upserting a client policy rule in the configuration text, and finding it again. */
module PolicyUpserts {
  import opened Wrappers
  import opened Text
  import opened Networks
  import opened Schedules
  import opened ScheduleTimes
  import opened LineEdits
  import opened ParsedLines
  import opened PolicyRules

  datatype UpsertError = BadNetwork | BadName | BadSchedule

  function CheckRule(rule: Rule): Option<UpsertError> {
    if !ValidateIpOrCidr(rule.network) then Some(BadNetwork)
    else if !ValidatePolicyName(rule.profile) then Some(BadName)
    else if rule.schedule.Some? && !ValidSchedule(rule.schedule.value) then Some(BadSchedule)
    else None
  }

  /** What the edit asks of a rule: a network, a name of 1 to 32 characters, and days and times it can read. */
  ghost predicate Acceptable(rule: Rule) {
    && (exists ip, prefix :: Names(Trim(rule.network, JsSpace), ip, prefix))
    && PlainName(Trim(rule.profile, JsSpace))
    && (rule.schedule.Some? ==>
          exists days, start, end :: NamesTimes(rule.schedule.value, days, start, end))
  }

  lemma ValidNamesTimes(schedule: Schedule)
    ensures ValidSchedule(schedule) <==> exists days, start, end :: NamesTimes(schedule, days, start, end)
  {
    if ValidSchedule(schedule) {
      var start, end := TimesOf(schedule);
      assert NamesTimes(schedule, Weekdays(schedule.days, JavaScript).value, start, end);
    }
    if exists days, start, end :: NamesTimes(schedule, days, start, end) {
      var days, start, end :| NamesTimes(schedule, days, start, end);
      ClockParses(start);
      ClockParses(end);
    }
  }

  lemma ValidNetworkText(value: string)
    ensures ValidateIpOrCidr(value) <==> exists ip, prefix :: Names(Trim(value, JsSpace), ip, prefix)
  {
    var text := Trim(value, JsSpace);
    if ParseNetwork(text).Some? {
      NetworkExact(text, ParseNetwork(text).value.ip, ParseNetwork(text).value.prefix);
    }
    if exists ip, prefix :: Names(text, ip, prefix) {
      var ip, prefix :| Names(text, ip, prefix);
      NetworkExact(text, ip, prefix);
    }
  }

  /** The edit takes exactly these rules. */
  lemma CheckExactly(rule: Rule)
    ensures CheckRule(rule).None? <==> Acceptable(rule)
  {
    ValidNetworkText(rule.network);
    if rule.schedule.Some? {
      ValidNamesTimes(rule.schedule.value);
    }
  }

  function PrintPolicy(rule: Rule): string {
    Lower(Trim(rule.profile, JsSpace))
    + match rule.schedule
      case None => ""
      case Some(schedule) => " @" + PrintSchedule(schedule)
  }

  function PrintRule(rule: Rule): string {
    Trim(rule.network, JsSpace) + " => " + PrintPolicy(rule)
  }

  /** The rule as it is meant to be stored. */
  function Normalised(rule: Rule): Rule {
    Rule(Trim(rule.network, JsSpace), Lower(Trim(rule.profile, JsSpace)),
         match rule.schedule
         case None => None
         case Some(s) => Some(Schedule(Lower(s.days), s.start, s.end)))
  }

  /** Stores the rule, replacing the line of the same network. */
  method UpsertClientPolicyRule(value: string, rule: Rule) returns (r: Result<string, UpsertError>)
    ensures match CheckRule(rule)
            case Some(error) => r == Err(error)
            case None =>
              r == Ok(Upserted(value, PrintRule(rule), Has(ParseRuleLine, NetworkKey, NetworkKey(Normalised(rule)))))
  {
    var error := CheckRule(rule);
    if error.Some? {
      return Err(error.value);
    }
    var text := UpsertLine(value, PrintRule(rule), Has(ParseRuleLine, NetworkKey, NetworkKey(Normalised(rule))));
    return Ok(text);
  }

  // ------------------------------------------------------ a printed rule reads back

  /** Days that survive being printed into a rule line. Days ticked in the form always do. */
  predicate SafeDays(days: string) {
    IsWord(days, JsSpace) && '@' !in days && SplitPair(days, '=', '>') == [days]
  }

  predicate SafeRule(rule: Rule) {
    rule.schedule.Some? ==> SafeDays(rule.schedule.value.days)
  }

  lemma PlainDaysSafe(days: string)
    requires Weekdays(days, JavaScript).Ok? && PlainDays(days)
    ensures SafeDays(days)
  {
    PlainDaysWord(days);
    NoPairWithout(days, '=', '>');
    SplitPairNone(days, '=', '>');
  }

  predicate LowName(name: string) {
    PlainName(name) && Lower(name) == name
  }

  lemma ProfileName(profile: string)
    requires ValidatePolicyName(profile)
    ensures LowName(Lower(Trim(profile, JsSpace)))
  {
    LowerIdempotent(Trim(profile, JsSpace));
  }

  lemma NamePlain(name: string)
    requires PlainName(name)
    ensures name != "" && Tight(name, JsSpace) && '@' !in name && '=' !in name && '\n' !in name && '#' !in name
            && '!' !in name && ',' !in name
  {
  }

  /** A name with white space around it is the name. */
  lemma NamePadded(pre: string, name: string, post: string)
    requires PlainName(name) && AllSpace(pre, JsSpace) && AllSpace(post, JsSpace)
    ensures Trim(pre + name + post, JsSpace) == name
  {
    NamePlain(name);
    TrimPadded(pre, name, post, JsSpace);
  }

  // The printed texts, regrouped.

  lemma LineGroups(network: string, policy: string)
    ensures network + " => " + policy == (network + " ") + ['=', '>'] + (" " + policy)
  {
  }

  lemma PolicyGroups(name: string, tail: string)
    ensures " " + name + " @" + tail == (" " + name + " ") + ['@'] + tail
    ensures " " + (name + " @" + tail) == " " + name + " @" + tail
  {
  }

  lemma SpacedGroups(head: string, days: string, time: string)
    ensures head + [' '] + (days + [' '] + time) == (head + " ") + days + (" " + time)
  {
  }

  lemma ScheduleGroups(name: string, days: string, start: string, end: string)
    ensures " " + (name + " @" + (" " + days + " " + start + "-" + end))
         == (" " + name + " @") + [' '] + (days + [' '] + (start + "-" + end))
  {
  }

  lemma PolicyOfParts(network: string, policy: string, name: string)
    requires ParseNetwork(network).Some? && LowName(name) && Trim(Split(policy, '@')[0], JsSpace) == name
    ensures var parts := Split(policy, '@');
            ParsePolicy(network, policy)
            == if |parts| > 2 then None
               else if |parts| == 1 then Some(Rule(network, name, None))
               else if ParseSchedule(parts[1]).None? then None
               else Some(Rule(network, name, ParseSchedule(parts[1])))
  {
    NetworkIsTight(network);
  }

  lemma NameAloneReadsBack(network: string, name: string)
    requires ParseNetwork(network).Some? && LowName(name)
    ensures ParsePolicy(network, " " + name) == Some(Rule(network, name, None))
  {
    NamePlain(name);
    assert " " + name + "" == " " + name;
    NamePadded(" ", name, "");
    SplitOne(" " + name, '@');
    PolicyOfParts(network, " " + name, name);
  }

  /** What stands behind the `=>` of a printed rule with a schedule. */
  lemma PolicyReadsBack(network: string, name: string, tail: string)
    requires ParseNetwork(network).Some? && LowName(name)
    ensures var policy := " " + name + " @" + tail;
            ParsePolicy(network, policy)
            == if |Split(tail, '@')| > 1 || ParseSchedule(tail).None? then None
               else Some(Rule(network, name, ParseSchedule(tail)))
  {
    var policy, head := " " + name + " @" + tail, " " + name + " ";
    NamePlain(name);
    NamePadded(" ", name, " ");
    SplitTwo(head, tail, '@');
    PolicyGroups(name, tail);
    PolicyOfParts(network, policy, name);
    SplitHolds(tail, '@');
    if |Split(tail, '@')| == 1 {
      SplitOne(tail, '@');
    }
  }

  lemma LineOfParts(line: string, network: string, key: string, rest: string)
    requires Trim(line, JsSpace) == line && !IsComment(line)
    requires SplitPair(line, '=', '>') == [key] + SplitPair(rest, '=', '>') && Trim(key, JsSpace) == network
    ensures ParseRuleLine(line)
         == if SplitPair(rest, '=', '>') == [rest] then ParsePolicy(network, rest) else None
  {
    SplitPairNone(rest, '=', '>');
  }

  /** A line with a network before its first `=>`. */
  lemma LineReadsBack(network: string, policy: string)
    requires ParseNetwork(network).Some? && policy != "" && !JsSpace(policy[|policy| - 1])
    ensures var line := network + " => " + policy;
            Tight(line, JsSpace)
            && ParseRuleLine(line)
               == if SplitPair(" " + policy, '=', '>') == [" " + policy] then ParsePolicy(network, " " + policy)
                  else None
  {
    var line, key, rest := network + " => " + policy, network + " ", " " + policy;
    NetworkIsTight(network);
    LineGroups(network, policy);
    assert line[0] == network[0] && line[|line| - 1] == policy[|policy| - 1];
    NetworkStart(network);
    TrimTight(line, JsSpace);
    KeyBeforeMark(network, rest);
    LineOfParts(line, network, key, rest);
  }

  lemma KeyBeforeMark(network: string, rest: string)
    requires '=' !in network && Tight(network, JsSpace)
    ensures var key := network + " ";
            SplitPair(key + ['=', '>'] + rest, '=', '>') == [key] + SplitPair(rest, '=', '>')
            && Trim(key, JsSpace) == network
  {
    var key := network + " ";
    NoPairWithout(key, '=', '>');
    SplitPairAt(key, rest, '=', '>');
    TrimPadded("", network, " ", JsSpace);
    assert "" + network + " " == key;
  }

  lemma NetworkStart(network: string)
    requires ParseNetwork(network).Some?
    ensures network != "" && !JsSpace(network[0]) && !JsSpace(network[|network| - 1]) && Tight(network, JsSpace)
  {
    NetworkTextChars(network);
    assert network[0] in network && network[|network| - 1] in network;
  }

  lemma NoPairAround(head: string, days: string, time: string)
    requires '=' !in head && '=' !in time
    ensures var text := head + [' '] + (days + [' '] + time);
            SplitPair(days, '=', '>') == [days] <==> SplitPair(text, '=', '>') == [text]
  {
    var text := head + [' '] + (days + [' '] + time);
    SplitPairNone(days, '=', '>');
    SplitPairNone(text, '=', '>');
    if HasPair(days, '=', '>') {
      PairInside(head + " ", days, " " + time, '=', '>');
      SpacedGroups(head, days, time);
    } else {
      NoPairWithout(time, '=', '>');
      NoPairWithout(head, '=', '>');
      NoPairAcross(days, ' ', time, '=', '>');
      NoPairAcross(head, ' ', days + [' '] + time, '=', '>');
    }
  }

  lemma PolicyNoPair(name: string, schedule: Schedule)
    requires LowName(name) && ValidSchedule(schedule)
    ensures SplitPair(schedule.days, '=', '>') == [schedule.days]
       <==> SplitPair(" " + (name + " @" + PrintSchedule(schedule)), '=', '>')
            == [" " + (name + " @" + PrintSchedule(schedule))]
  {
    var days, time := schedule.days, schedule.start + "-" + schedule.end;
    TimesAgree(schedule.start);
    TimesAgree(schedule.end);
    NamePlain(name);
    NoPairAround(" " + name + " @", days, time);
    ScheduleGroups(name, days, schedule.start, schedule.end);
  }

  lemma LowerKeepsSpace(s: string, t: string)
    requires Lower(s) == Lower(t) && IsWord(s, JsSpace)
    ensures IsWord(t, JsSpace)
  {
    forall i | 0 <= i < |t| ensures !JsSpace(t[i]) {
      assert Lower(s)[i] == LowerChar(s[i]) && Lower(t)[i] == LowerChar(t[i]);
      assert !JsSpace(s[i]);
    }
  }

  /** The schedule behind the `@` reads back exactly when the days hold no white space. */
  lemma ScheduleText(schedule: Schedule)
    requires ValidSchedule(schedule)
    ensures ParseSchedule(PrintSchedule(schedule)) == Some(Schedule(Lower(schedule.days), schedule.start, schedule.end))
       <==> IsWord(schedule.days, JsSpace)
  {
    if IsWord(schedule.days, JsSpace) {
      ScheduleReadsBack(schedule);
    }
    if ParseSchedule(PrintSchedule(schedule)) == Some(Schedule(Lower(schedule.days), schedule.start, schedule.end)) {
      var text := Trim(PrintSchedule(schedule), JsSpace);
      WordsAreWords(text, JsSpace);
      LowerKeepsSpace(Words(text, JsSpace)[0], schedule.days);
    }
  }

  lemma {:induction false} SplitHolds(s: string, c: char)
    ensures |Split(s, c)| == 1 <==> c !in s
  {
  }

  lemma NoAtInTimes(schedule: Schedule)
    requires ValidSchedule(schedule)
    ensures '@' !in schedule.start && '@' !in schedule.end
  {
    TimesAgree(schedule.start);
    TimesAgree(schedule.end);
  }

  lemma AtInParts(days: string, start: string, end: string)
    requires '@' !in start && '@' !in end
    ensures '@' in " " + days + " " + start + "-" + end <==> '@' in days
  {
  }

  lemma AtInSchedule(schedule: Schedule)
    requires ValidSchedule(schedule)
    ensures Split(PrintSchedule(schedule), '@') == [PrintSchedule(schedule)] <==> '@' !in schedule.days
    ensures '@' in schedule.days ==> |Split(PrintSchedule(schedule), '@')| > 1
  {
    NoAtInTimes(schedule);
    AtInParts(schedule.days, schedule.start, schedule.end);
    SplitHolds(PrintSchedule(schedule), '@');
    SplitAlone(PrintSchedule(schedule), '@');
  }

  lemma SplitAlone(s: string, c: char)
    ensures |Split(s, c)| == 1 ==> Split(s, c) == [s]
  {
  }

  lemma ScheduleEnds(schedule: Schedule)
    requires ValidSchedule(schedule)
    ensures var text := PrintSchedule(schedule); text != "" && !JsSpace(text[|text| - 1])
  {
    TimesAgree(schedule.end);
    var text := PrintSchedule(schedule);
    assert text[|text| - 1] == schedule.end[|schedule.end| - 1];
  }

  lemma ScheduledRuleReadsBack(network: string, name: string, schedule: Schedule)
    requires ParseNetwork(network).Some? && LowName(name) && ValidSchedule(schedule)
    ensures var line := network + " => " + (name + " @" + PrintSchedule(schedule));
            Tight(line, JsSpace)
            && (ParseRuleLine(line)
                  == Some(Rule(network, name, Some(Schedule(Lower(schedule.days), schedule.start, schedule.end))))
                <==> SafeDays(schedule.days))
  {
    var policy := name + " @" + PrintSchedule(schedule);
    ScheduleEnds(schedule);
    assert policy[|policy| - 1] == PrintSchedule(schedule)[|PrintSchedule(schedule)| - 1];
    LineReadsBack(network, policy);
    PolicyNoPair(name, schedule);
    PolicyReadsBack(network, name, PrintSchedule(schedule));
    PolicyGroups(name, PrintSchedule(schedule));
    AtInSchedule(schedule);
    ScheduleText(schedule);
  }

  lemma PlainRuleReadsBack(network: string, name: string)
    requires ParseNetwork(network).Some? && LowName(name)
    ensures var line := network + " => " + name;
            Tight(line, JsSpace) && ParseRuleLine(line) == Some(Rule(network, name, None))
  {
    NamePlain(name);
    LineReadsBack(network, name);
    NameAloneReadsBack(network, name);
    NoPairWithout(" " + name, '=', '>');
    SplitPairNone(" " + name, '=', '>');
  }

  lemma CheckedParts(rule: Rule)
    requires CheckRule(rule).None?
    ensures ParseNetwork(Trim(rule.network, JsSpace)).Some? && LowName(Lower(Trim(rule.profile, JsSpace)))
    ensures rule.schedule.Some? ==> ValidSchedule(rule.schedule.value)
  {
    ProfileName(rule.profile);
  }

  lemma PrintedForms(rule: Rule)
    ensures var network, name := Trim(rule.network, JsSpace), Lower(Trim(rule.profile, JsSpace));
            match rule.schedule
            case None => PrintRule(rule) == network + " => " + name && Normalised(rule) == Rule(network, name, None)
            case Some(s) =>
              PrintRule(rule) == network + " => " + (name + " @" + PrintSchedule(s))
              && Normalised(rule) == Rule(network, name, Some(Schedule(Lower(s.days), s.start, s.end)))
  {
    var name := Lower(Trim(rule.profile, JsSpace));
    assert name + "" == name;
    if rule.schedule.Some? {
      assert PrintPolicy(rule) == name + " @" + PrintSchedule(rule.schedule.value);
    }
  }

  /** A checked rule's line parses to the normalised rule exactly when its days are safe to print. */
  lemma RuleReadsBack(rule: Rule)
    requires CheckRule(rule).None?
    ensures ParseRuleLine(PrintRule(rule)) == Some(Normalised(rule)) <==> SafeRule(rule)
    ensures Tight(PrintRule(rule), JsSpace)
  {
    CheckedParts(rule);
    PrintedForms(rule);
    match rule.schedule
    case None => PlainRuleReadsBack(Trim(rule.network, JsSpace), Lower(Trim(rule.profile, JsSpace)));
    case Some(schedule) =>
      ScheduledRuleReadsBack(Trim(rule.network, JsSpace), Lower(Trim(rule.profile, JsSpace)), schedule);
  }

  lemma TightIsOneLine(line: string)
    requires Tight(line, JsSpace) && line != "" && '\n' !in line
    ensures OneTightLine(line)
  {
  }

  lemma ScheduleIsLine(schedule: Schedule)
    requires ValidSchedule(schedule) && SafeDays(schedule.days)
    ensures '\n' !in PrintSchedule(schedule)
  {
    TimesAgree(schedule.start);
    TimesAgree(schedule.end);
    WordIsLine(schedule.days);
  }

  lemma JoinedIsLine(a: string, b: string, c: string)
    requires '\n' !in a && '\n' !in b && '\n' !in c
    ensures '\n' !in a + b + c
  {
  }

  lemma PolicyIsLine(rule: Rule)
    requires CheckRule(rule).None? && SafeRule(rule)
    ensures '\n' !in PrintPolicy(rule)
  {
    CheckedParts(rule);
    NamePlain(Lower(Trim(rule.profile, JsSpace)));
    if rule.schedule.Some? {
      ScheduleIsLine(rule.schedule.value);
    }
  }

  lemma PrintedRuleIsLine(rule: Rule)
    requires CheckRule(rule).None? && SafeRule(rule)
    ensures OneTightLine(PrintRule(rule))
  {
    CheckedParts(rule);
    NetworkIsTight(Trim(rule.network, JsSpace));
    PolicyIsLine(rule);
    JoinedIsLine(Trim(rule.network, JsSpace), " => ", PrintPolicy(rule));
    RuleReadsBack(rule);
    TightIsOneLine(PrintRule(rule));
  }

  lemma WordIsLine(s: string)
    requires IsWord(s, JsSpace)
    ensures '\n' !in s
  {
  }

  lemma RuleLineReadsPast(line: string)
    ensures ParseRuleLine(TrimEnd(line, JsSpace)) == ParseRuleLine(line)
  {
    TrimOfTrimEnd(line, JsSpace);
  }

  lemma NoRuleInBlank()
    ensures ParseRuleLine("").None?
  {
    TrimTight("", JsSpace);
  }

  lemma RuleLinesReadPastEndSpace()
    ensures ReadsPastEndSpace(ParseRuleLine)
  {
    NoRuleInBlank();
    forall line: string ensures SameWithoutEnd(ParseRuleLine, line) {
      RuleLineReadsPast(line);
    }
  }

  // ------------------------------------------------------------------ the theorems

  /** The text after a successful upsert. */
  function AfterUpsert(value: string, rule: Rule): string {
    Upserted(value, PrintRule(rule), Has(ParseRuleLine, NetworkKey, NetworkKey(Normalised(rule))))
  }

  /** Finding after upserting: the normalised rule for its network, and what was there before for any other. */
  lemma FindAfterRuleUpsert(value: string, rule: Rule, network: string)
    requires CheckRule(rule).None? && SafeRule(rule)
    ensures FindLast(ParseClientPolicyRules(AfterUpsert(value, rule)), NetworkKey, network)
         == if network == NetworkKey(Normalised(rule)) then Some(Normalised(rule))
            else FindLast(ParseClientPolicyRules(value), NetworkKey, network)
  {
    RuleLinesReadPastEndSpace();
    RuleReadsBack(rule);
    PrintedRuleIsLine(rule);
    FindAfterUpsert(value, PrintRule(rule), ParseRuleLine, NetworkKey, Normalised(rule), network);
  }

  /** One line for the network, every other line in its place up to blanks at the end, and nothing more to do. */
  lemma RuleUpsertLines(value: string, rule: Rule)
    requires CheckRule(rule).None? && SafeRule(rule)
    ensures var matches := Has(ParseRuleLine, NetworkKey, NetworkKey(Normalised(rule)));
            var r := AfterUpsert(value, rule);
            MatchingLines(r, matches) == [PrintRule(rule)]
            && OtherLines(r, matches) == OtherLines(value, matches)
            && AfterUpsert(r, rule) == r
  {
    var matches := Has(ParseRuleLine, NetworkKey, NetworkKey(Normalised(rule)));
    RuleLinesReadPastEndSpace();
    HasIgnoresEndSpace(ParseRuleLine, NetworkKey, NetworkKey(Normalised(rule)));
    RuleReadsBack(rule);
    PrintedRuleIsLine(rule);
    UpsertKeepsOthers(value, PrintRule(rule), matches);
    UpsertIdempotent(value, PrintRule(rule), matches);
  }

  /** All other rules are the same, in the same order. */
  lemma RuleUpsertKeepsRules(value: string, rule: Rule)
    requires CheckRule(rule).None? && SafeRule(rule)
    ensures var k := NetworkKey(Normalised(rule));
            Filter(ParseClientPolicyRules(AfterUpsert(value, rule)), Unkeyed(NetworkKey, k))
            == Filter(ParseClientPolicyRules(value), Unkeyed(NetworkKey, k))
  {
    RuleLinesReadPastEndSpace();
    RuleReadsBack(rule);
    PrintedRuleIsLine(rule);
    UpsertEntries(value, PrintRule(rule), ParseRuleLine, NetworkKey, Normalised(rule));
  }

  /** Days ticked in the form are always safe to print. */
  lemma TickedDaysSafe(days: seq<string>)
    requires SelectedWeekdaysValue(days).Some?
    ensures SafeDays(SelectedWeekdaysValue(days).value)
  {
    SelectedDaysReadBack(days, JavaScript);
    PlainDaysSafe(SelectedWeekdaysValue(days).value);
  }

  lemma MarkedScheduleReadsAsNothing(network: string, name: string, schedule: Schedule)
    requires ParseNetwork(network).Some? && LowName(name) && ValidSchedule(schedule)
    requires '@' in schedule.days || HasPair(schedule.days, '=', '>')
    ensures ParseRuleLine(network + " => " + (name + " @" + PrintSchedule(schedule))).None?
  {
    var policy := name + " @" + PrintSchedule(schedule);
    ScheduleEnds(schedule);
    assert policy[|policy| - 1] == PrintSchedule(schedule)[|PrintSchedule(schedule)| - 1];
    LineReadsBack(network, policy);
    PolicyNoPair(name, schedule);
    SplitPairNone(schedule.days, '=', '>');
    PolicyReadsBack(network, name, PrintSchedule(schedule));
    PolicyGroups(name, PrintSchedule(schedule));
    AtInSchedule(schedule);
  }

  /** Days that hold one of the line's own marks pass the check, but the line reads as no rule at all. */
  lemma MarkInDaysReadsAsNothing(rule: Rule)
    requires CheckRule(rule).None? && rule.schedule.Some?
    requires '@' in rule.schedule.value.days || HasPair(rule.schedule.value.days, '=', '>')
    ensures ParseRuleLine(PrintRule(rule)).None?
  {
    CheckedParts(rule);
    PrintedForms(rule);
    MarkedScheduleReadsAsNothing(Trim(rule.network, JsSpace), Lower(Trim(rule.profile, JsSpace)), rule.schedule.value);
  }

  /** Such days exist, with every network, profile and time; no dialog of the program produces them. */
  lemma HandTypedDays(network: string, profile: string, start: string, end: string)
    requires ValidateIpOrCidr(network) && ValidatePolicyName(profile)
    requires ParseTime(start).Some? && ParseTime(end).Some?
    ensures var rule := Rule(network, profile, Some(Schedule("mon-tue-" + ['@'], start, end)));
            CheckRule(rule).None? && ParseRuleLine(PrintRule(rule)).None?
  {
    var days := "mon-tue-" + ['@'];
    var schedule := Schedule(days, start, end);
    var rule := Rule(network, profile, Some(schedule));
    SecondHyphen('@');
    assert days[8] == '@';
    assert ValidSchedule(schedule);
    assert CheckRule(rule).None?;
    MarkInDaysReadsAsNothing(rule);
  }
}
