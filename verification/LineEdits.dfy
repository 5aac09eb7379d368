/** Replacing one line of a configuration text: the loop behind every policy edit, over any test of lines. */
module LineEdits {
  import opened Text

  function Filter<T>(s: seq<T>, keep: T -> bool): seq<T> {
    if s == [] then [] else (if keep(s[0]) then [s[0]] else []) + Filter(s[1..], keep)
  }

  lemma FilterCons<T>(first: T, rest: seq<T>, keep: T -> bool)
    ensures Filter([first] + rest, keep) == if keep(first) then [first] + Filter(rest, keep) else Filter(rest, keep)
  {
    assert ([first] + rest)[1..] == rest && [] + Filter(rest, keep) == Filter(rest, keep);
  }

  lemma Associate<T>(a: seq<T>, b: seq<T>, c: seq<T>)
    ensures a + (b + c) == (a + b) + c
  {
  }

  lemma {:induction false} FilterAppend<T>(a: seq<T>, b: seq<T>, keep: T -> bool)
    ensures Filter(a + b, keep) == Filter(a, keep) + Filter(b, keep)
  {
    if a == [] {
      assert a + b == b && Filter(a, keep) + Filter(b, keep) == Filter(b, keep);
    } else {
      FilterAppend(a[1..], b, keep);
      FilterCons(a[0], a[1..] + b, keep);
      Associate([a[0]], a[1..], b);
      assert [a[0]] + a[1..] == a;
      FilterCons(a[0], a[1..], keep);
      Associate([a[0]], Filter(a[1..], keep), Filter(b, keep));
    }
  }

  /** Positions in a list of a length, in order. */
  predicate Increasing(at: seq<nat>, length: nat) {
    && (forall k :: 0 <= k < |at| ==> at[k] < length)
    && (forall j, k :: 0 <= j < k < |at| ==> at[j] < at[k])
  }

  /** What is kept are the elements at exactly the positions that pass the test, in order. */
  lemma {:induction false} FilterPositions<T>(s: seq<T>, keep: T -> bool) returns (at: seq<nat>)
    ensures |at| == |Filter(s, keep)| && Increasing(at, |s|)
    ensures forall k :: 0 <= k < |at| ==> Filter(s, keep)[k] == s[at[k]]
    ensures forall i: nat :: i < |s| ==> (i in at <==> keep(s[i]))
  {
    if s == [] {
      at := [];
    } else {
      var front, last := s[..|s| - 1], s[|s| - 1];
      assert s == front + [last];
      FilterAppend(front, [last], keep);
      assert Filter([last], keep) == if keep(last) then [last] else [] by {
        assert [last][1..] == [];
      }
      at := FilterPositions(front, keep);
      if keep(last) {
        at := at + [|front|];
      }
    }
  }

  lemma {:induction false} FilterNone<T>(s: seq<T>, keep: T -> bool)
    requires forall i :: 0 <= i < |s| ==> !keep(s[i])
    ensures Filter(s, keep) == []
  {
    if s != [] {
      FilterNone(s[1..], keep);
    }
  }

  lemma {:induction false} FilterAll<T>(s: seq<T>, keep: T -> bool)
    requires forall i :: 0 <= i < |s| ==> keep(s[i])
    ensures Filter(s, keep) == s
  {
    if s != [] {
      FilterAll(s[1..], keep);
    }
  }

  lemma {:induction false} FilterTwice<T>(s: seq<T>, keep: T -> bool, also: T -> bool)
    requires forall x :: also(x) ==> keep(x)
    ensures Filter(Filter(s, keep), also) == Filter(s, also)
  {
    if s != [] {
      FilterTwice(s[1..], keep, also);
      if keep(s[0]) {
        assert ([s[0]] + Filter(s[1..], keep))[1..] == Filter(s[1..], keep);
      } else {
        assert [] + Filter(s[1..], keep) == Filter(s[1..], keep);
      }
    }
  }

  function Not(matches: string -> bool): string -> bool {
    (line: string) => !matches(line)
  }

  // -------------------------------------------------------------------- the edit

  /** The first matching line, or the number of lines. */
  function FirstMatch(lines: seq<string>, matches: string -> bool): (i: nat)
    ensures i <= |lines| && (forall k :: 0 <= k < i ==> !matches(lines[k])) && (i < |lines| ==> matches(lines[i]))
  {
    if lines == [] || matches(lines[0]) then 0 else 1 + FirstMatch(lines[1..], matches)
  }

  predicate Blank(line: string) {
    Trim(line, JsSpace) == ""
  }

  function DropBlankTail(lines: seq<string>): seq<string> {
    if lines != [] && Blank(lines[|lines| - 1]) then DropBlankTail(lines[..|lines| - 1]) else lines
  }

  /** The new line stands where the first match stood and the other matches go; without a match it is appended behind
      the last line that is not blank. */
  function EditedLines(lines: seq<string>, nextLine: string, matches: string -> bool): seq<string> {
    var i := FirstMatch(lines, matches);
    if i == |lines| then DropBlankTail(lines) + [nextLine]
    else lines[..i] + [nextLine] + Filter(lines[i + 1..], Not(matches))
  }

  function Upserted(value: string, nextLine: string, matches: string -> bool): string {
    TrimEnd(Join(EditedLines(Split(value, '\n'), nextLine, matches), '\n'), JsSpace)
  }

  /** What the loop has collected after some lines. */
  function Collected(lines: seq<string>, nextLine: string, matches: string -> bool): seq<string> {
    var i := FirstMatch(lines, matches);
    if i == |lines| then lines else lines[..i] + [nextLine] + Filter(lines[i + 1..], Not(matches))
  }

  lemma FirstMatchIs(lines: seq<string>, matches: string -> bool, i: nat)
    requires i <= |lines| && (forall k :: 0 <= k < i ==> !matches(lines[k])) && (i < |lines| ==> matches(lines[i]))
    ensures FirstMatch(lines, matches) == i
  {
  }

  lemma CollectAfterMatch(before: seq<string>, line: string, nextLine: string, matches: string -> bool)
    requires FirstMatch(before, matches) < |before|
    ensures FirstMatch(before + [line], matches) == FirstMatch(before, matches)
    ensures Collected(before + [line], nextLine, matches)
         == Collected(before, nextLine, matches) + (if matches(line) then [] else [line])
  {
    var i := FirstMatch(before, matches);
    FirstMatchIs(before + [line], matches, i);
    SnocParts(before, line, i);
    FilterAppend(before[i + 1..], [line], Not(matches));
    SingleFilter(line, Not(matches));
    Associate(before[..i] + [nextLine], Filter(before[i + 1..], Not(matches)), Filter([line], Not(matches)));
  }

  lemma SnocParts(before: seq<string>, line: string, i: nat)
    requires i < |before|
    ensures (before + [line])[..i] == before[..i] && (before + [line])[i + 1..] == before[i + 1..] + [line]
  {
  }

  lemma SingleFilter(line: string, keep: string -> bool)
    ensures Filter([line], keep) == if keep(line) then [line] else []
  {
    assert [line][1..] == [];
  }

  lemma CollectedAll(lines: seq<string>, nextLine: string, matches: string -> bool)
    requires FirstMatch(lines, matches) == |lines|
    ensures Collected(lines, nextLine, matches) == lines
  {
  }

  lemma CollectedLast(before: seq<string>, line: string, nextLine: string, matches: string -> bool)
    requires FirstMatch(before + [line], matches) == |before|
    ensures Collected(before + [line], nextLine, matches) == before + [nextLine]
  {
    SnocSplits(before, line);
    assert before + [nextLine] + [] == before + [nextLine];
  }

  lemma CollectUntilMatch(before: seq<string>, line: string, nextLine: string, matches: string -> bool)
    requires FirstMatch(before, matches) == |before|
    ensures FirstMatch(before + [line], matches) == if matches(line) then |before| else |before| + 1
    ensures Collected(before + [line], nextLine, matches)
         == Collected(before, nextLine, matches) + [if matches(line) then nextLine else line]
  {
    FirstMatchIs(before + [line], matches, if matches(line) then |before| else |before| + 1);
    CollectedAll(before, nextLine, matches);
    if matches(line) {
      CollectedLast(before, line, nextLine, matches);
    } else {
      CollectedAll(before + [line], nextLine, matches);
    }
  }

  lemma SnocSplits(before: seq<string>, line: string)
    ensures (before + [line])[..|before|] == before && (before + [line])[|before| + 1..] == []
  {
  }

  lemma CollectOneMore(before: seq<string>, line: string, nextLine: string, matches: string -> bool)
    ensures var now := before + [line];
            var replaced := FirstMatch(before, matches) < |before|;
            Collected(now, nextLine, matches) == Collected(before, nextLine, matches)
              + (if !matches(line) then [line] else if replaced then [] else [nextLine])
            && (FirstMatch(now, matches) < |now| <==> replaced || matches(line))
  {
    if FirstMatch(before, matches) < |before| {
      CollectAfterMatch(before, line, nextLine, matches);
    } else {
      CollectUntilMatch(before, line, nextLine, matches);
    }
  }

  method UpsertLine(value: string, nextLine: string, matches: string -> bool) returns (r: string)
    ensures r == Upserted(value, nextLine, matches)
  {
    var lines := Split(value, '\n');
    var result: seq<string> := [];
    var replaced := false;
    var n := 0;
    while n < |lines|
      invariant 0 <= n <= |lines|
      invariant replaced <==> FirstMatch(lines[..n], matches) < n
      invariant result == Collected(lines[..n], nextLine, matches)
    {
      CollectOneMore(lines[..n], lines[n], nextLine, matches);
      assert lines[..n + 1] == lines[..n] + [lines[n]];
      if !matches(lines[n]) {
        result := result + [lines[n]];
      } else if !replaced {
        result := result + [nextLine];
        replaced := true;
      }
      n := n + 1;
    }
    assert lines[..n] == lines;
    if !replaced {
      while |result| > 0 && Blank(result[|result| - 1])
        invariant DropBlankTail(result) == DropBlankTail(lines)
      {
        result := result[..|result| - 1];
      }
      result := result + [nextLine];
    }
    r := TrimEnd(Join(result, '\n'), JsSpace);
  }

  // --------------------------------------------- lines of a text trimmed at its end

  /** Lines without the blank ones at the end and without white space at the end of the last. */
  function TrimTail(lines: seq<string>): seq<string> {
    if lines == [] then []
    else
      var last := TrimEnd(lines[|lines| - 1], JsSpace);
      if last == "" then TrimTail(lines[..|lines| - 1]) else lines[..|lines| - 1] + [last]
  }

  lemma {:induction false} TrimEndIdempotent(s: string)
    ensures TrimEnd(TrimEnd(s, JsSpace), JsSpace) == TrimEnd(s, JsSpace)
  {
    if s != "" && JsSpace(s[|s| - 1]) {
      TrimEndIdempotent(s[..|s| - 1]);
    }
  }

  lemma {:induction false} TrimEndAppend(a: string, b: string)
    ensures TrimEnd(a + b, JsSpace)
         == if TrimEnd(b, JsSpace) == "" then TrimEnd(a, JsSpace) else a + TrimEnd(b, JsSpace)
    decreases |b|
  {
    if b == "" {
      assert a + b == a;
    } else {
      var s, last := a + b, b[|b| - 1];
      assert s[|s| - 1] == last;
      if JsSpace(last) {
        assert s[..|s| - 1] == a + b[..|b| - 1];
        TrimEndAppend(a, b[..|b| - 1]);
      }
    }
  }

  lemma {:induction false} JoinSnoc(lines: seq<string>, last: string)
    requires lines != []
    ensures Join(lines + [last], '\n') == Join(lines, '\n') + ("\n" + last)
  {
    if |lines| == 1 {
      assert (lines + [last])[1..] == [last];
    } else {
      JoinSnoc(lines[1..], last);
      assert (lines + [last])[1..] == lines[1..] + [last];
    }
  }

  /** Trimming the end of a text trims its tail of lines. */
  lemma {:induction false} TrimmedText(lines: seq<string>)
    requires lines != []
    ensures TrimEnd(Join(lines, '\n'), JsSpace) == if TrimTail(lines) == [] then "" else Join(TrimTail(lines), '\n')
  {
    var front, last := lines[..|lines| - 1], lines[|lines| - 1];
    assert lines == front + [last];
    if front != [] {
      JoinSnoc(front, last);
      TrimEndAppend("\n", last);
      TrimEndAppend(Join(front, '\n'), "\n" + last);
      if TrimEnd(last, JsSpace) == "" {
        assert TrimEnd("\n", JsSpace) == "";
        TrimmedText(front);
      } else {
        JoinSnoc(front, TrimEnd(last, JsSpace));
      }
    }
  }

  predicate SingleLines(lines: seq<string>) {
    forall i :: 0 <= i < |lines| ==> '\n' !in lines[i]
  }

  lemma {:induction false} TrimTailSingle(lines: seq<string>)
    requires SingleLines(lines)
    ensures SingleLines(TrimTail(lines))
  {
    if lines != [] {
      var front, last := lines[..|lines| - 1], lines[|lines| - 1];
      TrimEndSpec(last, JsSpace);
      TrimTailSingle(front);
    }
  }

  /** The lines of a text put together from lines and trimmed. */
  lemma LinesOfTrimmed(lines: seq<string>)
    requires SingleLines(lines) && TrimTail(lines) != []
    ensures Split(TrimEnd(Join(lines, '\n'), JsSpace), '\n') == TrimTail(lines)
  {
    TrimmedText(lines);
    TrimTailSingle(lines);
    forall p | p in TrimTail(lines) ensures '\n' !in p {
      var i :| 0 <= i < |TrimTail(lines)| && TrimTail(lines)[i] == p;
    }
    SplitJoin(TrimTail(lines), '\n');
  }

  // ------------------------------------------------------------ what an edit keeps

  ghost predicate SameWithoutEnd<T>(f: string -> T, line: string) {
    f(TrimEnd(line, JsSpace)) == f(line)
  }

  /** White space at the end of a line does not matter to the matching, and blank lines do not match. */
  ghost predicate IgnoresEndSpace(matches: string -> bool) {
    (forall line: string :: SameWithoutEnd(matches, line)) && !matches("")
  }

  lemma {:induction false} OthersOfTrimmed(lines: seq<string>, matches: string -> bool)
    requires IgnoresEndSpace(matches)
    ensures TrimTail(Filter(TrimTail(lines), Not(matches))) == TrimTail(Filter(lines, Not(matches)))
  {
    if lines != [] {
      var front, line := lines[..|lines| - 1], lines[|lines| - 1];
      var last := TrimEnd(line, JsSpace);
      var others := Filter(front, Not(matches));
      assert lines == front + [line];
      assert SameWithoutEnd(matches, line);
      FilterAppend(front, [line], Not(matches));
      SingleFilter(line, Not(matches));
      if last == "" {
        OthersOfTrimmed(front, matches);
        TrimTailSnoc(others, line);
      } else {
        FilterAppend(front, [last], Not(matches));
        SingleFilter(last, Not(matches));
        if !matches(line) {
          TrimEndIdempotent(line);
          TrimTailSnoc(others, line);
          TrimTailSnoc(others, last);
        }
      }
    }
  }

  lemma TrimTailSnoc(lines: seq<string>, line: string)
    ensures var last := TrimEnd(line, JsSpace);
            TrimTail(lines + [line]) == if last == "" then TrimTail(lines) else lines + [last]
  {
    assert (lines + [line])[..|lines|] == lines;
  }

  lemma {:induction false} MatchesOfTrimmed(lines: seq<string>, nextLine: string, matches: string -> bool)
    requires IgnoresEndSpace(matches) && TrimEnd(nextLine, JsSpace) == nextLine
    requires Filter(lines, matches) == [nextLine]
    ensures Filter(TrimTail(lines), matches) == [nextLine]
  {
    if lines != [] {
      var front, line := lines[..|lines| - 1], lines[|lines| - 1];
      var last := TrimEnd(line, JsSpace);
      assert lines == front + [line];
      assert SameWithoutEnd(matches, line);
      FilterAppend(front, [line], matches);
      SingleFilter(line, matches);
      if last == "" {
        MatchesOfTrimmed(front, nextLine, matches);
      } else {
        FilterAppend(front, [last], matches);
        SingleFilter(last, matches);
        if matches(line) {
          assert (Filter(front, matches) + [line])[|Filter(front, matches)|] == line;
          assert line == nextLine;
        }
      }
    }
  }

  lemma {:induction false} DropBlankTailTrims(lines: seq<string>)
    ensures TrimTail(DropBlankTail(lines)) == TrimTail(lines)
    ensures DropBlankTail(lines) <= lines
  {
    if lines != [] && Blank(lines[|lines| - 1]) {
      BlankTrims(lines[|lines| - 1]);
      DropBlankTailTrims(lines[..|lines| - 1]);
    }
  }

  lemma TrimEndOfSpace(s: string)
    ensures TrimEnd(s, JsSpace) == "" <==> AllSpace(s, JsSpace)
  {
    TrimEndSpec(s, JsSpace);
    var t := TrimEnd(s, JsSpace);
    assert t == "" || t[|t| - 1] == s[|t| - 1];
  }

  lemma BlankTrims(line: string)
    ensures Blank(line) <==> TrimEnd(line, JsSpace) == ""
  {
    var rest := TrimStart(line, JsSpace);
    TrimStartSpec(line, JsSpace);
    TrimEndOfSpace(line);
    TrimEndOfSpace(rest);
    assert rest == "" || rest[0] == line[|line| - |rest|];
    assert AllSpace(line, JsSpace) ==> rest == "";
  }

  lemma FilterParts(a: seq<string>, line: string, b: seq<string>, keep: string -> bool)
    ensures Filter(a + [line] + b, keep) == Filter(a, keep) + (if keep(line) then [line] else []) + Filter(b, keep)
  {
    FilterAppend(a + [line], b, keep);
    FilterAppend(a, [line], keep);
    SingleFilter(line, keep);
  }

  lemma NoMatchBefore(lines: seq<string>, matches: string -> bool)
    requires forall i :: 0 <= i < |lines| ==> !matches(lines[i])
    ensures Filter(lines, matches) == [] && Filter(lines, Not(matches)) == lines
  {
    FilterNone(lines, matches);
    FilterAll(lines, Not(matches));
  }

  lemma KeptDoNotMatch(lines: seq<string>, matches: string -> bool)
    requires forall k :: 0 <= k < |lines| ==> !matches(lines[k])
    ensures var kept := DropBlankTail(lines); Filter(kept, matches) == [] && Filter(kept, Not(matches)) == kept
  {
    var kept := DropBlankTail(lines);
    DropBlankTailTrims(lines);
    assert forall k :: 0 <= k < |kept| ==> kept[k] == lines[k];
    NoMatchBefore(kept, matches);
  }

  lemma AppendedHolds(lines: seq<string>, nextLine: string, matches: string -> bool)
    requires matches(nextLine) && forall k :: 0 <= k < |lines| ==> !matches(lines[k])
    ensures var edited := DropBlankTail(lines) + [nextLine];
            Filter(edited, matches) == [nextLine]
            && TrimTail(Filter(edited, Not(matches))) == TrimTail(Filter(lines, Not(matches)))
  {
    var kept := DropBlankTail(lines);
    KeptDoNotMatch(lines, matches);
    FilterAppend(kept, [nextLine], matches);
    FilterAppend(kept, [nextLine], Not(matches));
    SingleFilter(nextLine, matches);
    SingleFilter(nextLine, Not(matches));
    FilterAll(lines, Not(matches));
    DropBlankTailTrims(lines);
    assert kept + [] == kept && [] + [nextLine] == [nextLine];
  }

  lemma ReplacedHolds(before: seq<string>, line: string, after: seq<string>, nextLine: string, matches: string -> bool)
    requires matches(nextLine) && matches(line) && forall k :: 0 <= k < |before| ==> !matches(before[k])
    ensures var edited := before + [nextLine] + Filter(after, Not(matches));
            Filter(edited, matches) == [nextLine]
            && Filter(edited, Not(matches)) == Filter(before + [line] + after, Not(matches))
  {
    NoMatchBefore(before, matches);
    OthersDoNotMatch(after, matches);
    FilterParts(before, nextLine, Filter(after, Not(matches)), matches);
    FilterParts(before, nextLine, Filter(after, Not(matches)), Not(matches));
    FilterParts(before, line, after, Not(matches));
  }

  /** The edited lines hold the new line once, no other match, and the other lines as before up to blank ones at
      the end. */
  lemma EditedHolds(lines: seq<string>, nextLine: string, matches: string -> bool)
    requires matches(nextLine)
    ensures var edited := EditedLines(lines, nextLine, matches);
            Filter(edited, matches) == [nextLine]
            && TrimTail(Filter(edited, Not(matches))) == TrimTail(Filter(lines, Not(matches)))
  {
    var i := FirstMatch(lines, matches);
    if i == |lines| {
      AppendedHolds(lines, nextLine, matches);
    } else {
      ReplacedHolds(lines[..i], lines[i], lines[i + 1..], nextLine, matches);
      assert lines == lines[..i] + [lines[i]] + lines[i + 1..];
    }
  }

  lemma {:induction false} OthersDoNotMatch(lines: seq<string>, matches: string -> bool)
    ensures Filter(Filter(lines, Not(matches)), matches) == []
    ensures Filter(Filter(lines, Not(matches)), Not(matches)) == Filter(lines, Not(matches))
  {
    if lines != [] {
      OthersDoNotMatch(lines[1..], matches);
      var rest := Filter(lines[1..], Not(matches));
      if !matches(lines[0]) {
        assert ([lines[0]] + rest)[1..] == rest;
      } else {
        assert [] + rest == rest;
      }
    }
  }

  lemma {:induction false} FilterSingle(lines: seq<string>, keep: string -> bool)
    requires SingleLines(lines)
    ensures SingleLines(Filter(lines, keep))
  {
    if lines != [] {
      FilterSingle(lines[1..], keep);
    }
  }

  lemma EditedLinesSingle(lines: seq<string>, nextLine: string, matches: string -> bool)
    requires SingleLines(lines) && '\n' !in nextLine
    ensures SingleLines(EditedLines(lines, nextLine, matches))
  {
    var i := FirstMatch(lines, matches);
    if i < |lines| {
      assert SingleLines(lines[..i]) && SingleLines(lines[i + 1..]);
      FilterSingle(lines[i + 1..], Not(matches));
    } else {
      DropBlankTailTrims(lines);
      var kept := DropBlankTail(lines);
      assert forall k :: 0 <= k < |kept| ==> kept[k] == lines[k];
    }
  }

  lemma SplitSingle(value: string)
    ensures SingleLines(Split(value, '\n'))
  {
    SplitParts(value, '\n');
    var lines := Split(value, '\n');
    assert forall k :: 0 <= k < |lines| ==> lines[k] in lines;
  }

  lemma EditedSingle(value: string, nextLine: string, matches: string -> bool)
    requires '\n' !in nextLine
    ensures SingleLines(EditedLines(Split(value, '\n'), nextLine, matches))
  {
    SplitSingle(value);
    EditedLinesSingle(Split(value, '\n'), nextLine, matches);
  }

  /** Lines a text shows to readers who skip blank lines at its end. */
  function OtherLines(value: string, matches: string -> bool): seq<string> {
    TrimTail(Filter(Split(value, '\n'), Not(matches)))
  }

  function MatchingLines(value: string, matches: string -> bool): seq<string> {
    Filter(Split(value, '\n'), matches)
  }

  predicate OneTightLine(line: string) {
    line != "" && '\n' !in line && TrimEnd(line, JsSpace) == line
  }

  lemma UpsertedLines(value: string, nextLine: string, matches: string -> bool)
    requires IgnoresEndSpace(matches) && matches(nextLine) && OneTightLine(nextLine)
    ensures var edited := EditedLines(Split(value, '\n'), nextLine, matches);
            Split(Upserted(value, nextLine, matches), '\n') == TrimTail(edited)
            && Filter(TrimTail(edited), matches) == [nextLine]
  {
    var edited := EditedLines(Split(value, '\n'), nextLine, matches);
    EditedHolds(Split(value, '\n'), nextLine, matches);
    EditedSingle(value, nextLine, matches);
    MatchesOfTrimmed(edited, nextLine, matches);
    assert TrimTail(edited) != [];
    LinesOfTrimmed(edited);
  }

  /** After an edit exactly one line matches, the new one, and all other lines are as before up to blanks at the
      end. */
  lemma UpsertKeepsOthers(value: string, nextLine: string, matches: string -> bool)
    requires IgnoresEndSpace(matches) && matches(nextLine) && OneTightLine(nextLine)
    ensures var r := Upserted(value, nextLine, matches);
            MatchingLines(r, matches) == [nextLine] && OtherLines(r, matches) == OtherLines(value, matches)
  {
    var edited := EditedLines(Split(value, '\n'), nextLine, matches);
    UpsertedLines(value, nextLine, matches);
    EditedHolds(Split(value, '\n'), nextLine, matches);
    OthersOfTrimmed(edited, matches);
  }

  lemma OnlyMatch(before: seq<string>, line: string, after: seq<string>, nextLine: string, matches: string -> bool)
    requires Filter(before + [line] + after, matches) == [nextLine]
    requires matches(line) && forall k :: 0 <= k < |before| ==> !matches(before[k])
    ensures line == nextLine && Filter(after, matches) == []
  {
    NoMatchBefore(before, matches);
    FilterParts(before, line, after, matches);
    var rest := Filter(after, matches);
    assert [] + [line] + rest == [nextLine];
    assert ([line] + rest)[0] == line;
  }

  lemma OneMatchStays(lines: seq<string>, nextLine: string, matches: string -> bool)
    requires Filter(lines, matches) == [nextLine]
    ensures EditedLines(lines, nextLine, matches) == lines
  {
    var i := FirstMatch(lines, matches);
    if i == |lines| {
      FilterNone(lines, matches);
    } else {
      assert lines == lines[..i] + [lines[i]] + lines[i + 1..];
      OnlyMatch(lines[..i], lines[i], lines[i + 1..], nextLine, matches);
      NoneLeft(lines[i + 1..], matches);
    }
  }

  lemma {:induction false} NoneLeft(lines: seq<string>, matches: string -> bool)
    requires Filter(lines, matches) == []
    ensures Filter(lines, Not(matches)) == lines
  {
    if lines != [] {
      NoneLeft(lines[1..], matches);
    }
  }

  /** Editing twice is editing once. */
  lemma UpsertIdempotent(value: string, nextLine: string, matches: string -> bool)
    requires IgnoresEndSpace(matches) && matches(nextLine) && OneTightLine(nextLine)
    ensures var r := Upserted(value, nextLine, matches); Upserted(r, nextLine, matches) == r
  {
    var r := Upserted(value, nextLine, matches);
    UpsertedLines(value, nextLine, matches);
    OneMatchStays(Split(r, '\n'), nextLine, matches);
    JoinSplit(r, '\n');
    TrimEndIdempotent(Join(EditedLines(Split(value, '\n'), nextLine, matches), '\n'));
  }
}
