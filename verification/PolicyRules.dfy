/** Client policy rules: reading them, resolving the policy of a client, and upserting a rule. */
module PolicyRules {
  import opened Wrappers
  import opened Text
  import opened Networks
  import opened ScheduleTimes
  import opened ParsedLines

  datatype Rule = Rule(network: string, profile: string, schedule: Option<Schedule>)

  // ------------------------------------------------------------------ a rule line

  predicate NameChar(c: char) {
    IsDigit(c) || 'a' <= c <= 'z' || 'A' <= c <= 'Z' || c == '_' || c == '-'
  }

  predicate PlainName(name: string) {
    1 <= |name| <= 32 && forall i :: 0 <= i < |name| ==> NameChar(name[i])
  }

  /** Digits, letters from A to Z in either case, underscore and hyphen. */
  lemma NameCodes(c: char)
    ensures NameChar(c) <==>
            48 <= c as int <= 57 || 65 <= c as int <= 90 || 97 <= c as int <= 122 || c as int == 95 || c as int == 45
  {
  }

  predicate ValidatePolicyName(value: string) {
    PlainName(Trim(value, JsSpace))
  }

  predicate ValidateIpOrCidr(value: string) {
    ParseNetwork(Trim(value, JsSpace)).Some?
  }

  predicate IsComment(line: string) {
    line == "" || line[0] == '#' || line[0] == '!'
  }

  /** The policy behind `=>`, with or without a schedule behind `@`. */
  function ParsePolicy(network: string, policy: string): Option<Rule> {
    var policySchedule := Split(policy, '@');
    if |policySchedule| > 2 || !ValidateIpOrCidr(network) || !ValidatePolicyName(policySchedule[0]) then None
    else
      var profile := Lower(Trim(policySchedule[0], JsSpace));
      if |policySchedule| == 1 then Some(Rule(network, profile, None))
      else if ParseSchedule(policySchedule[1]).None? then None
      else Some(Rule(network, profile, ParseSchedule(policySchedule[1])))
  }

  function ParseRuleLine(line: string): Option<Rule> {
    var trimmed := Trim(line, JsSpace);
    if IsComment(trimmed) then None
    else
      var pair := SplitPair(trimmed, '=', '>');
      if |pair| != 2 then None else ParsePolicy(Trim(pair[0], JsSpace), pair[1])
  }

  // Which lines are rules, spelled out.

  /** What stands behind the arrow: a name, and behind an `@` a schedule. */
  ghost predicate SaysPolicy(policy: string, profile: string, schedule: Option<Schedule>) {
    match schedule
    case None => '@' !in policy && PlainName(Trim(policy, JsSpace)) && profile == Lower(Trim(policy, JsSpace))
    case Some(times) => exists name, text :: SaysTimes(policy, name, text, profile, times)
  }

  predicate SaysTimes(policy: string, name: string, text: string, profile: string, times: Schedule) {
    && '@' !in name && '@' !in text && policy == name + "@" + text
    && PlainName(Trim(name, JsSpace)) && profile == Lower(Trim(name, JsSpace))
    && ParseSchedule(text) == Some(times)
  }

  lemma TwoAtParts(policy: string, name: string, text: string)
    ensures Split(policy, '@') == [name, text] <==> '@' !in name && '@' !in text && policy == name + "@" + text
  {
    if '@' !in name && '@' !in text && policy == name + "@" + text {
      SplitTwo(name, text, '@');
      SplitOne(text, '@');
    }
    if Split(policy, '@') == [name, text] {
      JoinSplit(policy, '@');
      SplitParts(policy, '@');
      assert [name, text][1..] == [text] && Join([text], '@') == text;
    }
  }

  lemma PolicyExactly(network: string, policy: string, profile: string, schedule: Option<Schedule>)
    requires Trim(network, JsSpace) == network
    ensures ParsePolicy(network, policy) == Some(Rule(network, profile, schedule)) <==>
            ParseNetwork(network).Some? && SaysPolicy(policy, profile, schedule)
  {
    var parts := Split(policy, '@');
    if |parts| == 1 {
      OneAtPart(policy);
    }
    if '@' !in policy {
      SplitOne(policy, '@');
    }
    if |parts| == 2 {
      TwoAtParts(policy, parts[0], parts[1]);
      assert parts == [parts[0], parts[1]];
    }
    if schedule.Some? && SaysPolicy(policy, profile, schedule) {
      var name, text :| SaysTimes(policy, name, text, profile, schedule.value);
      TwoAtParts(policy, name, text);
    }
    if |parts| == 2 && ParsePolicy(network, policy) == Some(Rule(network, profile, schedule)) {
      assert SaysTimes(policy, parts[0], parts[1], profile, schedule.value);
    }
  }

  lemma OneAtPart(policy: string)
    requires |Split(policy, '@')| == 1
    ensures '@' !in policy && Split(policy, '@') == [policy]
  {
    JoinSplit(policy, '@');
    SplitParts(policy, '@');
    assert Split(policy, '@')[0] in Split(policy, '@');
  }

  /** A line, white space around it aside: a network, the only arrow of the line, and a policy. */
  ghost predicate SaysRule(line: string, left: string, policy: string, rule: Rule) {
    && Trim(line, JsSpace) == left + "=>" + policy && !HasPair(left, '=', '>') && !HasPair(policy, '=', '>')
    && rule.network == Trim(left, JsSpace) && ParseNetwork(rule.network).Some?
    && SaysPolicy(policy, rule.profile, rule.schedule)
  }

  predicate StartsComment(line: string) {
    "#" <= line || "!" <= line
  }

  lemma PartsParse(line: string, left: string, policy: string, rule: Rule)
    requires !IsComment(Trim(line, JsSpace)) && SplitPair(Trim(line, JsSpace), '=', '>') == [left, policy]
    requires ParsePolicy(Trim(left, JsSpace), policy) == Some(rule)
    ensures ParseRuleLine(line) == Some(rule)
  {
  }

  lemma PolicySaid(left: string, policy: string, rule: Rule)
    requires rule.network == Trim(left, JsSpace) && ParseNetwork(rule.network).Some?
    requires SaysPolicy(policy, rule.profile, rule.schedule)
    ensures ParsePolicy(Trim(left, JsSpace), policy) == Some(rule)
  {
    TrimTwice(left);
    PolicyExactly(rule.network, policy, rule.profile, rule.schedule);
  }

  lemma SaidRuleParses(line: string, left: string, policy: string, rule: Rule)
    requires !StartsComment(Trim(line, JsSpace)) && SaysRule(line, left, policy, rule)
    ensures ParseRuleLine(line) == Some(rule)
  {
    SplitPairExactly(Trim(line, JsSpace), left, policy, '=', '>');
    PolicySaid(left, policy, rule);
    PartsParse(line, left, policy, rule);
  }

  lemma ParsedRuleSays(line: string) returns (left: string, policy: string)
    requires ParseRuleLine(line).Some?
    ensures !StartsComment(Trim(line, JsSpace)) && SaysRule(line, left, policy, ParseRuleLine(line).value)
  {
    var pair := SplitPair(Trim(line, JsSpace), '=', '>');
    left, policy := pair[0], pair[1];
    assert pair == [left, policy];
    SplitPairExactly(Trim(line, JsSpace), left, policy, '=', '>');
    TrimTwice(left);
    var rule := ParseRuleLine(line).value;
    PolicyExactly(rule.network, policy, rule.profile, rule.schedule);
  }

  /** Exactly such lines, when they do not start with `#` or `!`, are rules. */
  lemma RuleLineExactly(line: string, rule: Rule)
    ensures ParseRuleLine(line) == Some(rule) <==>
            !StartsComment(Trim(line, JsSpace)) && exists left, policy :: SaysRule(line, left, policy, rule)
  {
    if ParseRuleLine(line).Some? {
      var left, policy := ParsedRuleSays(line);
    }
    if !StartsComment(Trim(line, JsSpace)) && exists left, policy :: SaysRule(line, left, policy, rule) {
      var left, policy :| SaysRule(line, left, policy, rule);
      SaidRuleParses(line, left, policy, rule);
    }
  }

  function ParseClientPolicyRules(value: string): seq<Rule> {
    Entries(value, ParseRuleLine)
  }

  function NetworkKey(rule: Rule): string {
    Lower(rule.network)
  }

  method FindClientPolicyRule(value: string, network: string) returns (found: Option<Rule>)
    ensures found == FindLast(ParseClientPolicyRules(value), NetworkKey, Lower(Trim(network, JsSpace)))
  {
    found := FindFromEnd(ParseClientPolicyRules(value), NetworkKey, Lower(Trim(network, JsSpace)));
  }

  /** What every parsed rule keeps: its network and its schedule parse again. */
  predicate ParsedRule(rule: Rule) {
    && ParseNetwork(rule.network).Some?
    && Trim(rule.network, JsSpace) == rule.network
    && (rule.schedule.Some? ==> ValidSchedule(rule.schedule.value))
  }

  lemma NetworkIsTight(network: string)
    requires ParseNetwork(network).Some?
    ensures network != "" && Trim(network, JsSpace) == network && !IsComment(network)
    ensures '=' !in network && '\n' !in network && '@' !in network
  {
    NetworkTextChars(network);
    assert network[0] in network && network[|network| - 1] in network;
    TrimTight(network, JsSpace);
  }

  lemma ParsedRuleLine(line: string)
    requires ParseRuleLine(line).Some?
    ensures ParsedRule(ParseRuleLine(line).value)
  {
    var pair := SplitPair(Trim(line, JsSpace), '=', '>');
    TrimTwice(pair[0]);
  }

  lemma {:induction false} ParsedRules(lines: seq<string>, i: nat)
    requires i < |Parsed(lines, ParseRuleLine)|
    ensures ParsedRule(Parsed(lines, ParseRuleLine)[i])
  {
    if ParseRuleLine(lines[0]).Some? {
      ParsedRuleLine(lines[0]);
      if i > 0 {
        ParsedRules(lines[1..], i - 1);
      }
    } else {
      ParsedRules(lines[1..], i);
    }
  }

  // ------------------------------------------------------------------- resolution

  datatype EffectivePolicy = EffectivePolicy(profile: string, source: Option<string>, scheduled: bool)

  const DEFAULT_POLICY := EffectivePolicy("filter", None, false)

  function PrefixOf(rule: Rule): nat {
    match ParseNetwork(rule.network)
    case Some(network) => network.prefix
    case None => 0
  }

  /** The rule's network holds the address and its schedule, if any, is active. */
  predicate Applies(rule: Rule, address: Ip, weekday: nat, minute: nat)
    requires weekday < 7
  {
    && ParseNetwork(rule.network).Some?
    && Contains(ParseNetwork(rule.network).value, address)
    && (rule.schedule.Some? ==> ScheduleIsActive(rule.schedule.value, weekday, minute) == Ok(true))
  }

  /** The prefix length of each applying rule at an address and a time. */
  function Scores(address: Ip, weekday: nat, minute: nat): Rule -> Option<nat>
    requires weekday < 7
  {
    (rule: Rule) => if Applies(rule, address, weekday, minute) then Some(PrefixOf(rule)) else None
  }

  /** The last of the rules with the greatest score. */
  ghost predicate LastGreatest(rules: seq<Rule>, i: nat, score: Rule -> Option<nat>) {
    && i < |rules| && score(rules[i]).Some?
    && (forall j :: 0 <= j < |rules| && score(rules[j]).Some? ==>
          score(rules[j]).value <= score(rules[i]).value && (j > i ==> score(rules[j]).value < score(rules[i]).value))
  }

  ghost predicate NoScore(rules: seq<Rule>, score: Rule -> Option<nat>) {
    forall j :: 0 <= j < |rules| ==> score(rules[j]).None?
  }

  /** The loop over the rules; `best` is the index of the rule it settles on. */
  method BestRule(rules: seq<Rule>, score: Rule -> Option<nat>) returns (best: Option<nat>)
    ensures match best
            case None => NoScore(rules, score)
            case Some(i) => LastGreatest(rules, i, score)
  {
    best := None;
    var matchedPrefix := 0;
    var n := 0;
    while n < |rules|
      invariant 0 <= n <= |rules|
      invariant best.None? ==> NoScore(rules[..n], score)
      invariant best.Some? ==> LastGreatest(rules[..n], best.value, score)
      invariant best.Some? ==> score(rules[best.value]) == Some(matchedPrefix)
    {
      assert forall j :: 0 <= j < n ==> rules[..n + 1][j] == rules[..n][j];
      var prefix := score(rules[n]);
      if prefix.Some? {
        if best.None? || prefix.value >= matchedPrefix {
          best, matchedPrefix := Some(n), prefix.value;
        }
      }
      n := n + 1;
    }
    assert rules[..n] == rules;
  }

  function PolicyOf(rule: Rule): EffectivePolicy {
    EffectivePolicy(rule.profile, Some(rule.network), rule.schedule.Some?)
  }

  // What the rules say, read off their texts.

  /** An address lies in the block of the network a text names with a prefix. */
  ghost predicate InNamedBlock(network: string, address: Ip, prefix: nat) {
    exists ip :: Names(network, ip, prefix) && InBlock(ip, prefix, address)
  }

  /** A rule's text holds an address with a prefix at a minute of a weekday: the address lies in the block of the
      network, and the minute in a time of the schedule, if there is one. */
  ghost predicate HoldsAt(rule: Rule, address: Ip, weekday: nat, minute: nat, prefix: nat) {
    && InNamedBlock(rule.network, address, prefix)
    && (rule.schedule.Some? ==> ActiveAt(rule.schedule.value, weekday * 1440 + minute))
  }

  lemma InBlockExactly(network: string, address: Ip, prefix: nat)
    ensures InNamedBlock(network, address, prefix) <==>
            ParseNetwork(network).Some? && ParseNetwork(network).value.prefix == prefix
            && Contains(ParseNetwork(network).value, address)
  {
    if ParseNetwork(network).Some? {
      var named := ParseNetwork(network).value;
      NetworkExact(network, named.ip, named.prefix);
      ContainsSharesBlock(named, address);
    }
    if InNamedBlock(network, address, prefix) {
      var ip :| Names(network, ip, prefix) && InBlock(ip, prefix, address);
      NetworkExact(network, ip, prefix);
    }
  }

  /** A rule's score at an address and a time is the prefix it holds the address with then. */
  lemma ScoreExactly(rule: Rule, address: Ip, weekday: nat, minute: nat, prefix: nat)
    requires weekday < 7 && minute < 1440
    ensures Scores(address, weekday, minute)(rule) == Some(prefix) <==> HoldsAt(rule, address, weekday, minute, prefix)
  {
    InBlockExactly(rule.network, address, prefix);
    if rule.schedule.Some? {
      ScheduleActive(rule.schedule.value, weekday, minute);
    }
  }

  /** A rule with a bare network applies to the address it spells and to no other. */
  lemma BareRuleApplies(rule: Rule, address: Ip, weekday: nat, minute: nat)
    requires weekday < 7 && minute < 1440 && '/' !in rule.network && ParseNetwork(rule.network).Some?
    ensures Applies(rule, address, weekday, minute) <==>
            ParseIp(rule.network) == Some(address)
            && (rule.schedule.Some? ==> ActiveAt(rule.schedule.value, weekday * 1440 + minute))
  {
    BareNetwork(rule.network, address);
    if rule.schedule.Some? {
      ScheduleActive(rule.schedule.value, weekday, minute);
    }
  }

  /** No rule holds the address with a longer prefix, and none after `i` with the same. */
  ghost predicate LongestLast(rules: seq<Rule>, i: nat, address: Ip, weekday: nat, minute: nat, prefix: nat) {
    forall j: nat, p: nat :: j < |rules| && HoldsAt(rules[j], address, weekday, minute, p) ==>
      p <= prefix && (j > i ==> p < prefix)
  }

  /** The rule that decides: among those that hold the address then, the longest prefix, and the last of these. */
  ghost predicate Decides(rules: seq<Rule>, i: nat, address: Ip, weekday: nat, minute: nat) {
    i < |rules| && exists prefix: nat ::
      HoldsAt(rules[i], address, weekday, minute, prefix) && LongestLast(rules, i, address, weekday, minute, prefix)
  }

  ghost predicate NoneHolds(rules: seq<Rule>, address: Ip, weekday: nat, minute: nat) {
    forall j: nat, p: nat :: j < |rules| ==> !HoldsAt(rules[j], address, weekday, minute, p)
  }

  predicate StatesRule(effective: EffectivePolicy, rule: Rule) {
    && effective.profile == rule.profile
    && effective.source == Some(rule.network)
    && (effective.scheduled <==> rule.schedule.Some?)
  }

  ghost predicate DecidedAsWritten(effective: EffectivePolicy, rules: seq<Rule>, address: Ip, weekday: nat,
                                   minute: nat)
  {
    || (NoneHolds(rules, address, weekday, minute) && effective == EffectivePolicy("filter", None, false))
    || (exists i: nat :: Decides(rules, i, address, weekday, minute) && StatesRule(effective, rules[i]))
  }

  /** The policy of a client at a minute of a weekday. */
  ghost predicate ResolvesAsWritten(effective: EffectivePolicy, client: string, rules: seq<Rule>, weekday: nat,
                                    minute: nat)
  {
    match ParseIp(Trim(client, JsSpace))
    case None => effective == EffectivePolicy("filter", None, false)
    case Some(address) => DecidedAsWritten(effective, rules, address, weekday, minute)
  }

  /** Scores are the prefixes the rules hold the address with. */
  ghost predicate ScoresAre(score: Rule -> Option<nat>, address: Ip, weekday: nat, minute: nat) {
    forall rule, prefix: nat :: HoldsAt(rule, address, weekday, minute, prefix) <==> score(rule) == Some(prefix)
  }

  lemma AllScores(address: Ip, weekday: nat, minute: nat)
    requires weekday < 7 && minute < 1440
    ensures ScoresAre(Scores(address, weekday, minute), address, weekday, minute)
  {
    forall rule: Rule, prefix: nat {
      ScoreExactly(rule, address, weekday, minute, prefix);
    }
  }

  lemma GreatestDecides(rules: seq<Rule>, i: nat, score: Rule -> Option<nat>, address: Ip, weekday: nat, minute: nat)
    requires ScoresAre(score, address, weekday, minute) && LastGreatest(rules, i, score)
    ensures Decides(rules, i, address, weekday, minute)
  {
    var prefix := score(rules[i]).value;
    assert HoldsAt(rules[i], address, weekday, minute, prefix);
    assert LongestLast(rules, i, address, weekday, minute, prefix);
  }

  lemma NoScoreNoneHolds(rules: seq<Rule>, score: Rule -> Option<nat>, address: Ip, weekday: nat, minute: nat)
    requires ScoresAre(score, address, weekday, minute) && NoScore(rules, score)
    ensures NoneHolds(rules, address, weekday, minute)
  {
  }

  lemma ResolvedBy(effective: EffectivePolicy, rules: seq<Rule>, score: Rule -> Option<nat>, address: Ip,
                   weekday: nat, minute: nat)
    requires ScoresAre(score, address, weekday, minute) && ResolvesBy(effective, rules, score)
    ensures DecidedAsWritten(effective, rules, address, weekday, minute)
  {
    if NoScore(rules, score) {
      NoScoreNoneHolds(rules, score, address, weekday, minute);
    } else {
      var i: nat :| LastGreatest(rules, i, score) && effective == PolicyOf(rules[i]);
      GreatestDecides(rules, i, score, address, weekday, minute);
      assert StatesRule(effective, rules[i]);
    }
  }

  lemma ResolvedByScores(effective: EffectivePolicy, rules: seq<Rule>, address: Ip, weekday: nat, minute: nat)
    requires weekday < 7 && minute < 1440 && ResolvesBy(effective, rules, Scores(address, weekday, minute))
    ensures DecidedAsWritten(effective, rules, address, weekday, minute)
  {
    AllScores(address, weekday, minute);
    ResolvedBy(effective, rules, Scores(address, weekday, minute), address, weekday, minute);
  }

  /** Resolution by scores is resolution as the rules are written. */
  lemma ResolvedAsWritten(effective: EffectivePolicy, client: string, rules: seq<Rule>, weekday: nat, minute: nat)
    requires weekday < 7 && minute < 1440 && Resolves(effective, client, rules, weekday, minute)
    ensures ResolvesAsWritten(effective, client, rules, weekday, minute)
  {
    var ip := ParseIp(Trim(client, JsSpace));
    if ip.Some? {
      ResolvedByScores(effective, rules, ip.value, weekday, minute);
    }
  }

  /** The policy of the last rule with the greatest score, or the default. */
  ghost predicate ResolvesBy(effective: EffectivePolicy, rules: seq<Rule>, score: Rule -> Option<nat>) {
    || (NoScore(rules, score) && effective == DEFAULT_POLICY)
    || exists i: nat :: LastGreatest(rules, i, score) && effective == PolicyOf(rules[i])
  }

  /** What resolution comes to for a client: the last applying rule with the longest prefix decides. */
  ghost predicate Resolves(effective: EffectivePolicy, client: string, rules: seq<Rule>, weekday: nat, minute: nat)
    requires weekday < 7
  {
    match ParseIp(Trim(client, JsSpace))
    case None => effective == DEFAULT_POLICY
    case Some(address) => ResolvesBy(effective, rules, Scores(address, weekday, minute))
  }

  method ResolveEffectiveClientPolicy(client: string, rulesValue: string, weekday: nat, minute: nat)
    returns (effective: EffectivePolicy)
    requires weekday < 7 && minute < 1440
    ensures Resolves(effective, client, ParseClientPolicyRules(rulesValue), weekday, minute)
    ensures ResolvesAsWritten(effective, client, ParseClientPolicyRules(rulesValue), weekday, minute)
  {
    effective := DEFAULT_POLICY;
    var address := ParseIp(Trim(client, JsSpace));
    if address.Some? {
      effective := PolicyBy(ParseClientPolicyRules(rulesValue), Scores(address.value, weekday, minute));
    }
    ResolvedAsWritten(effective, client, ParseClientPolicyRules(rulesValue), weekday, minute);
  }

  method PolicyBy(rules: seq<Rule>, score: Rule -> Option<nat>) returns (effective: EffectivePolicy)
    ensures ResolvesBy(effective, rules, score)
  {
    var matched := BestRule(rules, score);
    effective := if matched.Some? then PolicyOf(rules[matched.value]) else DEFAULT_POLICY;
  }

  lemma GreatestIsUnique(rules: seq<Rule>, i: nat, j: nat, score: Rule -> Option<nat>)
    requires LastGreatest(rules, i, score) && LastGreatest(rules, j, score)
    ensures i == j
  {
  }

  /** The deciding rule's network lies inside every other network that applies. */
  lemma BestIsSmallest(rules: seq<Rule>, i: nat, j: nat, address: Ip, weekday: nat, minute: nat)
    requires weekday < 7 && LastGreatest(rules, i, Scores(address, weekday, minute))
    requires j < |rules| && Applies(rules[j], address, weekday, minute)
    ensures Within(ParseNetwork(rules[i].network).value, ParseNetwork(rules[j].network).value)
  {
    assert Scores(address, weekday, minute)(rules[j]).Some?;
    ParsedNetworkValid(rules[i].network);
    ParsedNetworkValid(rules[j].network);
    LongerPrefixIsWithin(ParseNetwork(rules[i].network).value, ParseNetwork(rules[j].network).value, address);
  }

  /** A parsed rule's schedule never makes resolution throw. */
  lemma ParsedScheduleDecides(rule: Rule, weekday: nat, minute: nat)
    requires ParsedRule(rule) && rule.schedule.Some? && weekday < 7
    ensures ScheduleIsActive(rule.schedule.value, weekday, minute).Ok?
  {
  }

  /** A later rule writes the same network, up to letter case. */
  ghost predicate WrittenAgain(rules: seq<Rule>, i: nat)
    requires i < |rules|
  {
    exists j :: i < j < |rules| && NetworkKey(rules[j]) == NetworkKey(rules[i])
  }

  /** None when no rule has a score, and otherwise the deciding one exactly when no later rule writes its network. */
  ghost predicate ShowsBy(found: Option<Rule>, rules: seq<Rule>, score: Rule -> Option<nat>) {
    && (NoScore(rules, score) ==> found == None)
    && (forall i: nat :: LastGreatest(rules, i, score) ==>
          found.Some? && (found == Some(rules[i]) <==> !WrittenAgain(rules, i)))
  }

  ghost predicate Shows(found: Option<Rule>, client: string, rules: seq<Rule>, weekday: nat, minute: nat)
    requires weekday < 7
  {
    match ParseIp(Trim(client, JsSpace))
    case None => found == None
    case Some(address) => ShowsBy(found, rules, Scores(address, weekday, minute))
  }

  /** The rule shown for a client: it is the one that decides exactly when no later rule writes the same network. */
  method FindEffectiveClientPolicyRule(value: string, client: string, weekday: nat, minute: nat)
    returns (found: Option<Rule>)
    requires weekday < 7 && minute < 1440
    ensures Shows(found, client, ParseClientPolicyRules(value), weekday, minute)
  {
    var effective := ResolveEffectiveClientPolicy(client, value, weekday, minute);
    found := None;
    if effective.source.Some? {
      found := FindClientPolicyRule(value, effective.source.value);
    }
    var address := ParseIp(Trim(client, JsSpace));
    if address.Some? {
      ResolvedIsShown(effective, found, Split(value, '\n'), Scores(address.value, weekday, minute));
    }
  }

  lemma ResolvedIsShown(effective: EffectivePolicy, found: Option<Rule>, lines: seq<string>, score: Rule -> Option<nat>)
    requires ResolvesBy(effective, Parsed(lines, ParseRuleLine), score)
    requires found == match effective.source
                      case None => None
                      case Some(network) =>
                        FindLast(Parsed(lines, ParseRuleLine), NetworkKey, Lower(Trim(network, JsSpace)))
    ensures ShowsBy(found, Parsed(lines, ParseRuleLine), score)
  {
    var rules := Parsed(lines, ParseRuleLine);
    forall i: nat | LastGreatest(rules, i, score)
      ensures found.Some? && (found == Some(rules[i]) <==> !WrittenAgain(rules, i))
    {
      OnlyGreatestResolves(effective, rules, i, score);
      ShownRule(rules, lines, i);
    }
  }

  lemma OnlyGreatestResolves(effective: EffectivePolicy, rules: seq<Rule>, i: nat, score: Rule -> Option<nat>)
    requires ResolvesBy(effective, rules, score) && LastGreatest(rules, i, score)
    ensures effective == PolicyOf(rules[i])
  {
    var j: nat :| LastGreatest(rules, j, score) && effective == PolicyOf(rules[j]);
    GreatestIsUnique(rules, i, j, score);
  }

  lemma ShownRule(rules: seq<Rule>, lines: seq<string>, i: nat)
    requires rules == Parsed(lines, ParseRuleLine) && i < |rules|
    requires forall j :: i < j < |rules| ==> rules[j] != rules[i]
    ensures var found := FindLast(rules, NetworkKey, Lower(Trim(rules[i].network, JsSpace)));
            found.Some? && (found == Some(rules[i]) <==> !WrittenAgain(rules, i))
  {
    ParsedRules(lines, i);
    LastOfNetwork(rules, i);
  }

  lemma LastOfNetwork(rules: seq<Rule>, i: nat)
    requires i < |rules| && forall j :: i < j < |rules| ==> rules[j] != rules[i]
    ensures var found := FindLast(rules, NetworkKey, NetworkKey(rules[i]));
            found.Some? && (found == Some(rules[i]) <==> !WrittenAgain(rules, i))
  {
    FindLastFinds(rules, NetworkKey, NetworkKey(rules[i]), i);
    var last := FindLastIs(rules, NetworkKey, NetworkKey(rules[i]));
  }
}
