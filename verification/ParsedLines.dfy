/** Entries read line by line, and what an edit of one entry's line does to all of them. */
module ParsedLines {
  import opened Wrappers
  import opened Text
  import opened LineEdits

  /** The entries of the lines that hold one, in order. */
  function Parsed<T>(lines: seq<string>, parse: string -> Option<T>): seq<T> {
    if lines == [] then []
    else (if parse(lines[0]).Some? then [parse(lines[0]).value] else []) + Parsed(lines[1..], parse)
  }

  function Entries<T>(value: string, parse: string -> Option<T>): seq<T> {
    Parsed(Split(value, '\n'), parse)
  }

  /** The last entry with a key. */
  function FindLast<T>(entries: seq<T>, key: T -> string, k: string): Option<T> {
    if entries == [] then None
    else if key(entries[|entries| - 1]) == k then Some(entries[|entries| - 1])
    else FindLast(entries[..|entries| - 1], key, k)
  }

  /** The search from the end. */
  method FindFromEnd<T>(entries: seq<T>, key: T -> string, k: string) returns (found: Option<T>)
    ensures found == FindLast(entries, key, k)
  {
    var index := |entries| - 1;
    assert entries[..|entries|] == entries;
    while index >= 0
      invariant -1 <= index < |entries|
      invariant FindLast(entries, key, k) == FindLast(entries[..index + 1], key, k)
    {
      var upTo := entries[..index + 1];
      if key(entries[index]) == k {
        return Some(entries[index]);
      }
      assert upTo[..|upTo| - 1] == entries[..index];
      index := index - 1;
    }
    found := None;
  }

  lemma {:induction false} FindLastIs<T>(entries: seq<T>, key: T -> string, k: string) returns (i: nat)
    requires FindLast(entries, key, k).Some?
    ensures i < |entries| && FindLast(entries, key, k) == Some(entries[i]) && key(entries[i]) == k
    ensures forall j :: i < j < |entries| ==> key(entries[j]) != k
  {
    if key(entries[|entries| - 1]) == k {
      i := |entries| - 1;
    } else {
      i := FindLastIs(entries[..|entries| - 1], key, k);
      assert forall j :: 0 <= j < |entries| - 1 ==> entries[..|entries| - 1][j] == entries[j];
    }
  }

  lemma {:induction false} FindLastFinds<T>(entries: seq<T>, key: T -> string, k: string, i: nat)
    requires i < |entries| && key(entries[i]) == k
    ensures FindLast(entries, key, k).Some?
  {
    if i < |entries| - 1 {
      FindLastFinds(entries[..|entries| - 1], key, k, i);
    }
  }

  // --------------------------------------------- entries of filtered and trimmed lines

  /** White space at the end of a line does not matter to the entry, and a blank line holds none. */
  ghost predicate ReadsPastEndSpace<T(!new)>(parse: string -> Option<T>) {
    (forall line: string :: SameWithoutEnd(parse, line)) && parse("").None?
  }

  function Has<T>(parse: string -> Option<T>, key: T -> string, k: string): string -> bool {
    (line: string) => parse(line).Some? && key(parse(line).value) == k
  }

  function Keyed<T>(key: T -> string, k: string): T -> bool {
    (entry: T) => key(entry) == k
  }

  function Unkeyed<T>(key: T -> string, k: string): T -> bool {
    (entry: T) => key(entry) != k
  }

  lemma ParsedCons<T>(line: string, lines: seq<string>, parse: string -> Option<T>)
    ensures Parsed([line] + lines, parse)
         == if parse(line).Some? then [parse(line).value] + Parsed(lines, parse) else Parsed(lines, parse)
  {
    assert ([line] + lines)[1..] == lines && [] + Parsed(lines, parse) == Parsed(lines, parse);
  }

  /** Entries with a given property come from the lines that hold such an entry. */
  lemma {:induction false} EntriesOfLines<T>(lines: seq<string>, parse: string -> Option<T>, keep: T -> bool,
                                             keepLine: string -> bool)
    requires forall line :: line in lines && parse(line).Some? ==> keepLine(line) == keep(parse(line).value)
    ensures Filter(Parsed(lines, parse), keep) == Parsed(Filter(lines, keepLine), parse)
  {
    if lines != [] {
      var line, rest := lines[0], lines[1..];
      assert lines == [line] + rest && line in lines;
      EntriesOfLines(rest, parse, keep, keepLine);
      ParsedCons(line, rest, parse);
      FilterCons(line, rest, keepLine);
      ParsedCons(line, Filter(rest, keepLine), parse);
      if parse(line).Some? {
        FilterCons(parse(line).value, Parsed(rest, parse), keep);
      }
    }
  }

  lemma EntriesByKey<T>(lines: seq<string>, parse: string -> Option<T>, key: T -> string, k: string)
    ensures Filter(Parsed(lines, parse), Keyed(key, k)) == Parsed(Filter(lines, Has(parse, key, k)), parse)
    ensures Filter(Parsed(lines, parse), Unkeyed(key, k)) == Parsed(Filter(lines, Not(Has(parse, key, k))), parse)
  {
    EntriesOfLines(lines, parse, Keyed(key, k), Has(parse, key, k));
    EntriesOfLines(lines, parse, Unkeyed(key, k), Not(Has(parse, key, k)));
  }

  lemma {:induction false} ParsedSnoc<T>(lines: seq<string>, line: string, parse: string -> Option<T>)
    ensures Parsed(lines + [line], parse)
         == Parsed(lines, parse) + (if parse(line).Some? then [parse(line).value] else [])
  {
    if lines == [] {
      assert [] + [line] == [line] && [line][1..] == [];
    } else {
      ParsedSnoc(lines[1..], line, parse);
      assert (lines + [line])[1..] == lines[1..] + [line];
    }
  }

  /** The entries are what exactly the lines that hold one parse to, in order. */
  lemma {:induction false} ParsedPositions<T>(lines: seq<string>, parse: string -> Option<T>) returns (at: seq<nat>)
    ensures |at| == |Parsed(lines, parse)| && Increasing(at, |lines|)
    ensures forall k :: 0 <= k < |at| ==> parse(lines[at[k]]) == Some(Parsed(lines, parse)[k])
    ensures forall i: nat :: i < |lines| ==> (i in at <==> parse(lines[i]).Some?)
  {
    if lines == [] {
      at := [];
    } else {
      var front, last := lines[..|lines| - 1], lines[|lines| - 1];
      assert lines == front + [last];
      ParsedSnoc(front, last, parse);
      at := ParsedPositions(front, parse);
      if parse(last).Some? {
        at := at + [|front|];
      }
    }
  }

  lemma {:induction false} ParsedOfTrimmed<T(!new)>(lines: seq<string>, parse: string -> Option<T>)
    requires ReadsPastEndSpace(parse)
    ensures Parsed(TrimTail(lines), parse) == Parsed(lines, parse)
  {
    if lines != [] {
      var front, line := lines[..|lines| - 1], lines[|lines| - 1];
      assert lines == front + [line];
      ParsedSnoc(front, line, parse);
      var last := TrimEnd(line, JsSpace);
      assert SameWithoutEnd(parse, line);
      if last == "" {
        ParsedOfTrimmed(front, parse);
      } else {
        ParsedSnoc(front, last, parse);
      }
    }
  }

  lemma HasIgnoresEndSpace<T(!new)>(parse: string -> Option<T>, key: T -> string, k: string)
    requires ReadsPastEndSpace(parse)
    ensures IgnoresEndSpace(Has(parse, key, k))
  {
    forall line: string ensures SameWithoutEnd(Has(parse, key, k), line) {
      assert SameWithoutEnd(parse, line);
    }
  }

  /** Upserting an entry: it is then the only one with its key, and all others are the same, in the same order. */
  lemma UpsertEntries<T(!new)>(value: string, nextLine: string, parse: string -> Option<T>, key: T -> string, entry: T)
    requires ReadsPastEndSpace(parse) && OneTightLine(nextLine) && parse(nextLine) == Some(entry)
    ensures var k, r := key(entry), Upserted(value, nextLine, Has(parse, key, key(entry)));
            Filter(Entries(r, parse), Keyed(key, k)) == [entry]
            && Filter(Entries(r, parse), Unkeyed(key, k)) == Filter(Entries(value, parse), Unkeyed(key, k))
  {
    var k := key(entry);
    var matches := Has(parse, key, k);
    var r := Upserted(value, nextLine, matches);
    HasIgnoresEndSpace(parse, key, k);
    UpsertKeepsOthers(value, nextLine, matches);
    EntriesByKey(Split(r, '\n'), parse, key, k);
    EntriesByKey(Split(value, '\n'), parse, key, k);
    ParsedOfTrimmed(Filter(Split(r, '\n'), Not(matches)), parse);
    ParsedOfTrimmed(Filter(Split(value, '\n'), Not(matches)), parse);
    ParsedCons(nextLine, [], parse);
    assert [nextLine] + [] == [nextLine] && [entry] + [] == [entry];
  }

  lemma {:induction false} FindFiltered<T>(entries: seq<T>, keep: T -> bool, key: T -> string, k: string)
    requires forall x :: x in entries && key(x) == k ==> keep(x)
    ensures FindLast(Filter(entries, keep), key, k) == FindLast(entries, key, k)
  {
    if entries != [] {
      var front, last := entries[..|entries| - 1], entries[|entries| - 1];
      assert entries == front + [last];
      FilterAppend(front, [last], keep);
      assert [last][1..] == [];
      FindFiltered(front, keep, key, k);
      if keep(last) {
        assert (Filter(front, keep) + [last])[..|Filter(front, keep)|] == Filter(front, keep);
      } else {
        assert Filter(front, keep) + [] == Filter(front, keep);
      }
    }
  }

  /** Finding after upserting: the new entry under its key, and what was there before under any other. */
  lemma FindAfterUpsert<T(!new)>(value: string, nextLine: string, parse: string -> Option<T>, key: T -> string,
                                 entry: T, k: string)
    requires ReadsPastEndSpace(parse) && OneTightLine(nextLine) && parse(nextLine) == Some(entry)
    ensures var r := Upserted(value, nextLine, Has(parse, key, key(entry)));
            FindLast(Entries(r, parse), key, k)
            == if k == key(entry) then Some(entry) else FindLast(Entries(value, parse), key, k)
  {
    var r := Upserted(value, nextLine, Has(parse, key, key(entry)));
    UpsertEntries(value, nextLine, parse, key, entry);
    if k == key(entry) {
      FindFiltered(Entries(r, parse), Keyed(key, k), key, k);
    } else {
      FindFiltered(Entries(r, parse), Unkeyed(key, key(entry)), key, k);
      FindFiltered(Entries(value, parse), Unkeyed(key, key(entry)), key, k);
    }
  }
}
