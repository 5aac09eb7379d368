/** Merging a rule made from the query log into the texts being edited. */
module RuleMerge {
  import opened Wrappers
  import opened Text
  import opened LineEdits
  import opened ParsedLines

  datatype Action = Block | Allow | Rewrite

  /** The two texts a rule goes into: the server's answer or the draft. */
  datatype RuleTexts = RuleTexts(blacklist: string, rewrites: string)

  // -------------------------------------------------------------------- lines

  function StripReturn(line: string): string {
    if line != "" && line[|line| - 1] == '\r' then line[..|line| - 1] else line
  }

  function StripAllButLast(parts: seq<string>): seq<string> {
    if |parts| <= 1 then parts else [StripReturn(parts[0])] + StripAllButLast(parts[1..])
  }

  /** Lines end with a line feed, or a carriage return and a line feed. */
  function ConfigLines(value: string): seq<string> {
    StripAllButLast(Split(value, '\n'))
  }

  /** The text of a line that is not blank. */
  function ContentOf(line: string): Option<string> {
    var text := Trim(line, JsSpace);
    if text == "" then None else Some(text)
  }

  /** The lines of a text that are not blank, without the white space around them. */
  function Content(value: string): seq<string> {
    Entries(value, ContentOf)
  }

  lemma ReturnIsSpace(line: string)
    ensures Trim(StripReturn(line), JsSpace) == Trim(line, JsSpace)
  {
    if StripReturn(line) != line {
      var stripped := StripReturn(line);
      assert line == stripped + "\r";
      TrimEndDrops(stripped, "\r", JsSpace);
      TrimOfTrimEnd(line, JsSpace);
      TrimOfTrimEnd(stripped, JsSpace);
    }
  }

  lemma {:induction false} StrippedContent(parts: seq<string>)
    ensures Parsed(StripAllButLast(parts), ContentOf) == Parsed(parts, ContentOf)
  {
    if |parts| > 1 {
      ReturnIsSpace(parts[0]);
      StrippedContent(parts[1..]);
      ParsedCons(StripReturn(parts[0]), StripAllButLast(parts[1..]), ContentOf);
      ParsedCons(parts[0], parts[1..], ContentOf);
      assert parts == [parts[0]] + parts[1..];
    }
  }

  lemma {:induction false} StrippedSingle(parts: seq<string>)
    requires SingleLines(parts)
    ensures SingleLines(StripAllButLast(parts))
  {
    if |parts| > 1 {
      StrippedSingle(parts[1..]);
      assert '\n' !in StripReturn(parts[0]);
    }
  }

  // ------------------------------------------------------------- the server's rule

  function Last(lines: seq<string>): string {
    if lines == [] then "" else lines[|lines| - 1]
  }

  /** The search from the end for a line that is not blank. */
  method LastNotBlank(lines: seq<string>) returns (line: string)
    ensures line == Last(Parsed(lines, ContentOf))
  {
    var index := |lines| - 1;
    assert lines[..|lines|] == lines;
    while index >= 0
      invariant -1 <= index < |lines|
      invariant Parsed(lines, ContentOf) == Parsed(lines[..index + 1], ContentOf)
    {
      assert lines[..index + 1] == lines[..index] + [lines[index]];
      LastParsed(lines[..index], lines[index]);
      line := Trim(lines[index], JsSpace);
      if line != "" {
        return;
      }
      index := index - 1;
    }
    line := "";
  }

  lemma LastParsed(lines: seq<string>, line: string)
    ensures var text := Trim(line, JsSpace);
            if text == "" then Parsed(lines + [line], ContentOf) == Parsed(lines, ContentOf)
            else Last(Parsed(lines + [line], ContentOf)) == text
  {
    ParsedSnoc(lines, line, ContentOf);
  }

  method LastConfigLine(value: string) returns (line: string)
    ensures line == Last(Content(value))
  {
    StrippedContent(Split(value, '\n'));
    line := LastNotBlank(ConfigLines(value));
  }

  function Without(line: string, prefix: string): string {
    if prefix <= line then line[|prefix|..] else line
  }

  function WithoutCaret(line: string): string {
    if line != "" && line[|line| - 1] == '^' then line[..|line| - 1] else line
  }

  /** What stands before the first white space. */
  function FirstWord(line: string): string {
    line[..WordEnd(line, JsSpace)]
  }

  /** The domain a rule line is about; empty when there is none. */
  function RuleDomain(line: string, action: Action): string {
    if action.Rewrite? then FirstWord(line)
    else WithoutCaret(Without(Without(line, "@@"), "||"))
  }

  /** The line the server put last into the text the action is about. */
  function IntendedLine(authoritative: RuleTexts, action: Action): string {
    Last(Content(if action.Rewrite? then authoritative.rewrites else authoritative.blacklist))
  }

  // ---------------------------------------------------------------------- the merge

  /** The lines a merge takes out of a text, by their text in lower case or by their first word in lower case. */
  datatype Rules = Exact(block: string, allow: string) | Rewrites(domain: string)

  /** The lines that block or allow exactly this domain, in any letter case. */
  function ExactRules(domain: string): Rules {
    Exact(Lower("||" + domain + "^"), Lower("@@||" + domain + "^"))
  }

  /** The lines that rewrite this domain. */
  function DomainRewrites(domain: string): Rules {
    Rewrites(Lower(domain))
  }

  predicate IsRule(rules: Rules, line: string) {
    var text := Trim(line, JsSpace);
    match rules
    case Exact(block, allow) => Lower(text) == block || Lower(text) == allow
    case Rewrites(domain) => Lower(FirstWord(text)) == domain
  }

  /** The lines that are such rules, or those that are not. */
  function Select(lines: seq<string>, rules: Rules, those: bool): seq<string> {
    if lines == [] then []
    else (if IsRule(rules, lines[0]) == those then [lines[0]] else []) + Select(lines[1..], rules, those)
  }

  function JoinLines(lines: seq<string>): string {
    if lines == [] then "" else Join(lines, '\n')
  }

  function RemoveRules(value: string, rules: Rules): string {
    JoinLines(Select(ConfigLines(value), rules, false))
  }

  function AppendConfigLine(value: string, line: string): string {
    if value != "" && value[|value| - 1] != '\n' then value + "\n" + line else value + line
  }

  /** A text without the rules, and with the new line at its end if it belongs there. */
  function TextWith(value: string, rules: Rules, line: string, appends: bool): string {
    if appends then AppendConfigLine(RemoveRules(value, rules), line) else RemoveRules(value, rules)
  }

  function MergedWith(draft: RuleTexts, line: string, domain: string, action: Action): RuleTexts {
    RuleTexts(TextWith(draft.blacklist, ExactRules(domain), line, !action.Rewrite?),
              TextWith(draft.rewrites, DomainRewrites(domain), line, action.Rewrite?))
  }

  /** The draft after the merge, or nothing when the answer holds no rule. */
  function Merge(draft: RuleTexts, authoritative: RuleTexts, action: Action): Option<RuleTexts> {
    var line := IntendedLine(authoritative, action);
    var domain := RuleDomain(line, action);
    if domain == "" then None else Some(MergedWith(draft, line, domain, action))
  }

  // ------------------------------------------------------------- what it keeps

  /** A line of a text that is not blank, without the white space around it. */
  predicate TightText(line: string) {
    line != "" && '\n' !in line && Trim(line, JsSpace) == line
  }

  lemma JoinedContent(lines: seq<string>)
    requires SingleLines(lines)
    ensures Content(JoinLines(lines)) == Parsed(lines, ContentOf)
  {
    if lines == [] {
      SplitOne("", '\n');
      TrimTight("", JsSpace);
      ParsedCons("", [], ContentOf);
      assert [""] + [] == [""];
    } else {
      forall p | p in lines ensures '\n' !in p {
        var i :| 0 <= i < |lines| && lines[i] == p;
      }
      SplitJoin(lines, '\n');
    }
  }

  lemma TrimmedRule(rules: Rules, line: string)
    ensures IsRule(rules, Trim(line, JsSpace)) == IsRule(rules, line)
  {
    TrimTwice(line);
  }

  lemma SelectCons(line: string, rest: seq<string>, rules: Rules, those: bool)
    ensures Select([line] + rest, rules, those)
         == (if IsRule(rules, line) == those then [line] else []) + Select(rest, rules, those)
  {
    assert ([line] + rest)[1..] == rest;
  }

  lemma {:induction false} SelectAppend(a: seq<string>, b: seq<string>, rules: Rules, those: bool)
    ensures Select(a + b, rules, those) == Select(a, rules, those) + Select(b, rules, those)
  {
    if a == [] {
      assert a + b == b;
    } else {
      SelectAppend(a[1..], b, rules, those);
      SelectCons(a[0], a[1..] + b, rules, those);
      Associate([a[0]], a[1..], b);
      assert [a[0]] + a[1..] == a;
      Associate(if IsRule(rules, a[0]) == those then [a[0]] else [], Select(a[1..], rules, those),
                Select(b, rules, those));
    }
  }

  function Chosen(rules: Rules, those: bool): string -> bool {
    (line: string) => IsRule(rules, line) == those
  }

  lemma {:induction false} SelectIsFilter(lines: seq<string>, rules: Rules, those: bool)
    ensures Select(lines, rules, those) == Filter(lines, Chosen(rules, those))
  {
    if lines != [] {
      SelectIsFilter(lines[1..], rules, those);
    }
  }

  /** The lines selected are those at exactly the positions of rules, or of no rules, in order. */
  lemma SelectPositions(lines: seq<string>, rules: Rules, those: bool) returns (at: seq<nat>)
    ensures |at| == |Select(lines, rules, those)| && Increasing(at, |lines|)
    ensures forall k :: 0 <= k < |at| ==> Select(lines, rules, those)[k] == lines[at[k]]
    ensures forall i: nat :: i < |lines| ==> (i in at <==> IsRule(rules, lines[i]) == those)
  {
    SelectIsFilter(lines, rules, those);
    at := FilterPositions(lines, Chosen(rules, those));
    forall i: nat | i < |lines| ensures i in at <==> IsRule(rules, lines[i]) == those {
      assert i in at <==> Chosen(rules, those)(lines[i]);
    }
  }

  // Which lines are rules, letter by letter.

  /** The same character, or a letter from A to Z and its small one. */
  predicate SameLetter(a: char, b: char) {
    || a == b
    || (65 <= a as int <= 90 && b as int == a as int + 32)
    || (65 <= b as int <= 90 && a as int == b as int + 32)
  }

  /** The same text but for the case of letters from A to Z. */
  predicate SameText(s: string, t: string) {
    |s| == |t| && forall i :: 0 <= i < |s| ==> SameLetter(s[i], t[i])
  }

  lemma LowerLetters(a: char, b: char)
    ensures LowerChar(a) == LowerChar(b) <==> SameLetter(a, b)
  {
  }

  lemma LowerTexts(s: string, t: string)
    ensures Lower(s) == Lower(t) <==> SameText(s, t)
  {
    if |s| == |t| {
      forall i | 0 <= i < |s| ensures Lower(s)[i] == Lower(t)[i] <==> SameLetter(s[i], t[i]) {
        LowerLetters(s[i], t[i]);
      }
      if Lower(s) == Lower(t) {
        forall i | 0 <= i < |s| ensures SameLetter(s[i], t[i]) {
          assert Lower(s)[i] == Lower(t)[i];
        }
      }
    }
  }

  /** A merge takes out of the block list exactly the lines that, white space around them and letter case aside, are the
      block or the allow rule of the domain. */
  lemma ExactRuleIs(line: string, domain: string)
    ensures IsRule(ExactRules(domain), line) <==>
            SameText(Trim(line, JsSpace), "||" + domain + "^") || SameText(Trim(line, JsSpace), "@@||" + domain + "^")
  {
    LowerTexts(Trim(line, JsSpace), "||" + domain + "^");
    LowerTexts(Trim(line, JsSpace), "@@||" + domain + "^");
  }

  /** A word that stands first in a text. */
  predicate StartsWithWord(text: string, word: string) {
    && word <= text && (forall i :: 0 <= i < |word| ==> !JsSpace(word[i]))
    && (|word| < |text| ==> JsSpace(text[|word|]))
  }

  lemma FirstWordIs(text: string, word: string)
    ensures FirstWord(text) == word <==> StartsWithWord(text, word)
  {
    if StartsWithWord(text, word) {
      WordEndIs(text, JsSpace, |word|);
    }
  }

  /** And out of the rewrites exactly the lines whose first word is the domain, letter case aside. */
  lemma RewriteRuleIs(line: string, domain: string)
    ensures IsRule(DomainRewrites(domain), line) <==>
            exists word :: StartsWithWord(Trim(line, JsSpace), word) && SameText(word, domain)
  {
    var text := Trim(line, JsSpace);
    FirstWordIs(text, FirstWord(text));
    LowerTexts(FirstWord(text), domain);
    if exists word :: StartsWithWord(text, word) && SameText(word, domain) {
      var word :| StartsWithWord(text, word) && SameText(word, domain);
      FirstWordIs(text, word);
    }
  }

  lemma ContentCons(line: string, rest: seq<string>, kept: bool)
    ensures Parsed((if kept then [line] else []) + rest, ContentOf)
         == (if kept then ContentLine(line) else []) + Parsed(rest, ContentOf)
  {
    if kept {
      ParsedCons(line, rest, ContentOf);
    } else {
      assert [] + rest == rest && [] + Parsed(rest, ContentOf) == Parsed(rest, ContentOf);
    }
  }

  function ContentLine(line: string): seq<string> {
    var text := Trim(line, JsSpace);
    if text == "" then [] else [text]
  }

  lemma SelectedLine(line: string, parsed: seq<string>, rules: Rules)
    ensures Select(ContentLine(line) + parsed, rules, false)
         == (if IsRule(rules, line) then [] else ContentLine(line)) + Select(parsed, rules, false)
  {
    if Trim(line, JsSpace) == "" {
      assert [] + parsed == parsed && [] + Select(parsed, rules, false) == Select(parsed, rules, false);
    } else {
      TrimmedRule(rules, line);
      SelectCons(Trim(line, JsSpace), parsed, rules, false);
    }
  }

  lemma {:induction false} SelectedContent(lines: seq<string>, rules: Rules)
    ensures Parsed(Select(lines, rules, false), ContentOf) == Select(Parsed(lines, ContentOf), rules, false)
  {
    if lines != [] {
      SelectedContent(lines[1..], rules);
      SelectedLine(lines[0], Parsed(lines[1..], ContentOf), rules);
      ContentCons(lines[0], Select(lines[1..], rules, false), !IsRule(rules, lines[0]));
    }
  }

  lemma {:induction false} SelectedSingle(lines: seq<string>, rules: Rules)
    requires SingleLines(lines)
    ensures SingleLines(Select(lines, rules, false))
  {
    if lines != [] {
      SelectedSingle(lines[1..], rules);
    }
  }

  lemma RemovedContent(value: string, rules: Rules)
    ensures Content(RemoveRules(value, rules)) == Select(Content(value), rules, false)
  {
    var lines := ConfigLines(value);
    SplitSingle(value);
    StrippedSingle(Split(value, '\n'));
    SelectedSingle(lines, rules);
    JoinedContent(Select(lines, rules, false));
    SelectedContent(lines, rules);
    StrippedContent(Split(value, '\n'));
  }

  lemma SplitFound(s: string, i: nat)
    requires i < |s| && s[i] == '\n' && '\n' !in s[..i]
    ensures Split(s, '\n') == [s[..i]] + Split(s[i + 1..], '\n')
  {
    IndexOfFirst(s, '\n', i);
  }

  lemma Together(first: string, parts: seq<string>, last: string)
    ensures [first] + (parts + [last]) == [first] + parts + [last]
  {
  }

  lemma {:induction false} SplitLastLine(value: string, line: string)
    requires '\n' !in line
    ensures Split(value + "\n" + line, '\n') == Split(value, '\n') + [line]
    decreases |value|
  {
    var i := IndexOf(value, '\n');
    if i == |value| {
      SplitOne(line, '\n');
      SplitOne(value, '\n');
      SplitTwo(value, line, '\n');
    } else {
      var head, rest := value[..i], value[i + 1..];
      SplitLastLine(rest, line);
      SplitFound(value, i);
      SplitTwo(head, rest + "\n" + line, '\n');
      FirstLine(value, line, i);
      Together(head, Split(rest, '\n'), line);
    }
  }

  lemma FirstLine(value: string, line: string, i: nat)
    requires i < |value| && value[i] == '\n'
    ensures value + "\n" + line == value[..i] + ['\n'] + (value[i + 1..] + "\n" + line)
  {
  }

  lemma NewLineContent(value: string, line: string)
    requires '\n' !in line
    ensures Content(value + "\n" + line)
         == Content(value) + (if Trim(line, JsSpace) == "" then [] else [Trim(line, JsSpace)])
  {
    SplitLastLine(value, line);
    ParsedSnoc(Split(value, '\n'), line, ContentOf);
  }

  lemma LoneLine(line: string)
    requires TightText(line)
    ensures Content(line) == [line] && Content("") == []
  {
    SplitOne(line, '\n');
    SplitOne("", '\n');
    TrimTight("", JsSpace);
    ParsedCons(line, [], ContentOf);
    ParsedCons("", [], ContentOf);
    assert [line] + [] == [line] && [""] + [] == [""];
  }

  lemma FilledLine(front: string, line: string)
    requires TightText(line)
    ensures Content(front + "\n" + line) == Content(front + "\n") + [line]
  {
    NewLineContent(front, "");
    NewLineContent(front, line);
    TrimTight("", JsSpace);
    assert front + "\n" + "" == front + "\n" && Content(front) + [] == Content(front);
  }

  lemma AppendedContent(value: string, line: string)
    requires TightText(line)
    ensures Content(AppendConfigLine(value, line)) == Content(value) + [line]
  {
    if value == "" {
      LoneLine(line);
      assert value + line == line && [] + [line] == [line];
    } else if value[|value| - 1] == '\n' {
      FilledLine(value[..|value| - 1], line);
      assert value == value[..|value| - 1] + "\n";
    } else {
      NewLineContent(value, line);
    }
  }

  lemma {:induction false} ContentIsTight(lines: seq<string>)
    requires SingleLines(lines)
    ensures forall i :: 0 <= i < |Parsed(lines, ContentOf)| ==>
              var line := Parsed(lines, ContentOf)[i]; line != "" && '\n' !in line && Trim(line, JsSpace) == line
  {
    if lines != [] {
      ContentIsTight(lines[1..]);
      TrimSpec(lines[0], JsSpace);
      TrimTight(Trim(lines[0], JsSpace), JsSpace);
    }
  }

  lemma IntendedIsTight(authoritative: RuleTexts, action: Action)
    ensures IntendedLine(authoritative, action) != "" ==> TightText(IntendedLine(authoritative, action))
  {
    var value := if action.Rewrite? then authoritative.rewrites else authoritative.blacklist;
    SplitSingle(value);
    ContentIsTight(Split(value, '\n'));
  }

  lemma DomainNeedsLine(line: string, action: Action)
    requires RuleDomain(line, action) != ""
    ensures line != ""
  {
  }

  /** The lines that are no rules, in order, and the new line, if one is appended, last. */
  ghost predicate TextAfter(before: string, after: string, rules: Rules, line: string, appends: bool) {
    Content(after) == Select(Content(before), rules, false) + (if appends then [line] else [])
  }

  /** What a merge leaves of a draft: the lines that are not rules of the domain, in order, and the server's line last
      in the text the action is about. */
  ghost predicate MergedInto(draft: RuleTexts, next: RuleTexts, line: string, domain: string, action: Action) {
    && TextAfter(draft.blacklist, next.blacklist, ExactRules(domain), line, !action.Rewrite?)
    && TextAfter(draft.rewrites, next.rewrites, DomainRewrites(domain), line, action.Rewrite?)
  }

  lemma TextMerged(value: string, rules: Rules, line: string, appends: bool)
    requires TightText(line)
    ensures TextAfter(value, TextWith(value, rules, line, appends), rules, line, appends)
  {
    RemovedContent(value, rules);
    if appends {
      AppendedContent(RemoveRules(value, rules), line);
    } else {
      assert Select(Content(value), rules, false) + [] == Select(Content(value), rules, false);
    }
  }

  lemma LineMerged(draft: RuleTexts, line: string, domain: string, action: Action)
    requires TightText(line)
    ensures MergedInto(draft, MergedWith(draft, line, domain, action), line, domain, action)
  {
    TextMerged(draft.blacklist, ExactRules(domain), line, !action.Rewrite?);
    TextMerged(draft.rewrites, DomainRewrites(domain), line, action.Rewrite?);
  }

  /** A merge keeps every line of the draft that is not a rule of the domain, and the server's rule stands last. */
  lemma MergeKeepsOthers(draft: RuleTexts, authoritative: RuleTexts, action: Action)
    requires Merge(draft, authoritative, action).Some?
    ensures var line := IntendedLine(authoritative, action);
            && line != "" && RuleDomain(line, action) != ""
            && MergedInto(draft, Merge(draft, authoritative, action).value, line, RuleDomain(line, action), action)
  {
    var line := IntendedLine(authoritative, action);
    DomainNeedsLine(line, action);
    IntendedIsTight(authoritative, action);
    LineMerged(draft, line, RuleDomain(line, action), action);
  }

  // --------------------------------------------- the domain of the server's lines

  /** Characters of a host name the server makes rules for. */
  predicate DomainText(domain: string) {
    domain != "" && forall i :: 0 <= i < |domain| ==>
      IsDigit(domain[i]) || 'a' <= domain[i] <= 'z' || domain[i] == '-' || domain[i] == '.'
  }

  /** The line the server appends for an action. */
  function ServerLine(domain: string, action: Action, target: string): string {
    match action
    case Block => "||" + domain + "^"
    case Allow => "@@||" + domain + "^"
    case Rewrite => domain + " " + target
  }

  lemma PrefixCut(prefix: string, rest: string)
    ensures Without(prefix + rest, prefix) == rest
  {
  }

  lemma CaretCut(domain: string)
    ensures WithoutCaret(domain + "^") == domain
  {
  }

  /** The domain read off the server's line is the one the rule was made for. */
  lemma ServerLineNamesDomain(domain: string, action: Action, target: string)
    requires DomainText(domain)
    ensures RuleDomain(ServerLine(domain, action, target), action) == domain
  {
    var bar := domain + "^";
    match action
    case Rewrite =>
      WordEndIs(domain + " " + target, JsSpace, |domain|);
    case Allow =>
      assert ServerLine(domain, Allow, target) == "@@" + ("||" + bar);
      PrefixCut("@@", "||" + bar);
      PrefixCut("||", bar);
      CaretCut(domain);
    case Block =>
      assert ServerLine(domain, Block, target) == "||" + bar;
      assert ("||" + bar)[0] == '|' && "@@"[0] == '@';
      PrefixCut("||", bar);
      CaretCut(domain);
  }

  // ----------------------------------------------------------- one rule is left

  lemma {:induction false} NoneKept(lines: seq<string>, rules: Rules)
    ensures Select(Select(lines, rules, false), rules, true) == []
  {
    if lines != [] {
      NoneKept(lines[1..], rules);
      SelectAppend(if IsRule(rules, lines[0]) then [] else [lines[0]], Select(lines[1..], rules, false), rules, true);
    }
  }

  lemma LeftAfter(before: string, after: string, rules: Rules, line: string, appends: bool)
    requires TextAfter(before, after, rules, line, appends) && (appends ==> IsRule(rules, line))
    ensures Select(Content(after), rules, true) == if appends then [line] else []
  {
    NoneKept(Content(before), rules);
    SelectAppend(Select(Content(before), rules, false), if appends then [line] else [], rules, true);
  }

  lemma ServerLineIsRule(domain: string, action: Action, target: string)
    requires DomainText(domain) && TightText(ServerLine(domain, action, target))
    ensures !action.Rewrite? ==> IsRule(ExactRules(domain), ServerLine(domain, action, target))
    ensures action.Rewrite? ==> IsRule(DomainRewrites(domain), ServerLine(domain, action, target))
  {
    ServerLineNamesDomain(domain, action, target);
  }

  /** Nothing of the domain is left in either text but the rule, in the text the action is about. */
  ghost predicate OnlyRule(next: RuleTexts, rule: string, domain: string, action: Action) {
    && Select(Content(next.blacklist), ExactRules(domain), true) == (if !action.Rewrite? then [rule] else [])
    && Select(Content(next.rewrites), DomainRewrites(domain), true) == (if action.Rewrite? then [rule] else [])
  }

  lemma OnlyLineLeft(draft: RuleTexts, line: string, domain: string, action: Action)
    requires TightText(line)
    requires !action.Rewrite? ==> IsRule(ExactRules(domain), line)
    requires action.Rewrite? ==> IsRule(DomainRewrites(domain), line)
    ensures OnlyRule(MergedWith(draft, line, domain, action), line, domain, action)
  {
    var next := MergedWith(draft, line, domain, action);
    LineMerged(draft, line, domain, action);
    LeftAfter(draft.blacklist, next.blacklist, ExactRules(domain), line, !action.Rewrite?);
    LeftAfter(draft.rewrites, next.rewrites, DomainRewrites(domain), line, action.Rewrite?);
  }

  lemma ServerLineTight(answer: RuleTexts, domain: string, action: Action, target: string)
    requires DomainText(domain) && IntendedLine(answer, action) == ServerLine(domain, action, target)
    ensures TightText(ServerLine(domain, action, target))
  {
    ServerLineNamesDomain(domain, action, target);
    IntendedIsTight(answer, action);
  }

  lemma MergesLine(draft: RuleTexts, answer: RuleTexts, action: Action, line: string, domain: string)
    requires IntendedLine(answer, action) == line && RuleDomain(line, action) == domain && domain != ""
    ensures Merge(draft, answer, action) == Some(MergedWith(draft, line, domain, action))
  {
  }

  /** When the answer's last line is the rule the server made, the merged draft holds that rule and no other rule for
      the domain. */
  lemma OneRuleLeft(draft: RuleTexts, answer: RuleTexts, domain: string, action: Action, target: string)
    requires DomainText(domain) && IntendedLine(answer, action) == ServerLine(domain, action, target)
    ensures Merge(draft, answer, action).Some?
    ensures OnlyRule(Merge(draft, answer, action).value, ServerLine(domain, action, target), domain, action)
  {
    var line := ServerLine(domain, action, target);
    ServerLineTight(answer, domain, action, target);
    ServerLineIsRule(domain, action, target);
    OnlyLineLeft(draft, line, domain, action);
    ServerLineNamesDomain(domain, action, target);
    MergesLine(draft, answer, action, line, domain);
  }
}
