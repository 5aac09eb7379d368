/** Weekly schedules: the weekday and time notations of the form and of the server, and when a schedule is active. */
module Schedules {
  import opened Wrappers
  import opened Sums
  import opened Text

  const DAYS: seq<string> := ["mon", "tue", "wed", "thu", "fri", "sat", "sun"]

  function FindDay(name: string, from: nat): (day: Option<nat>)
    requires from <= 7
    ensures day.Some? ==> from <= day.value < 7 && DAYS[day.value] == name
    ensures day.None? ==> name !in DAYS[from..]
    decreases 7 - from
  {
    if from == 7 then None else if DAYS[from] == name then Some(from) else FindDay(name, from + 1)
  }

  function DayIndex(name: string): (day: Option<nat>)
    ensures day.Some? ==> day.value < 7 && DAYS[day.value] == name
    ensures day.None? ==> name !in DAYS
  {
    assert DAYS[0..] == DAYS;
    FindDay(name, 0)
  }

  // -------------------------------------------------------------------- weekdays

  /** The two parsers of the same notation: the form's and the server's. */
  datatype Dialect = JavaScript | Rust

  /** First and last day named by one item. The form reads the first two of the pieces between hyphens; the server cuts
      at the first hyphen and trims. */
  function ItemEnds(item: string, dialect: Dialect): (string, string) {
    match dialect
    case JavaScript =>
      var pieces := Split(item, '-');
      (pieces[0], if |pieces| > 1 then pieces[1] else pieces[0])
    case Rust =>
      var i := IndexOf(item, '-');
      var (first, last) := if i == |item| then (item, item) else (item[..i], item[i + 1..]);
      (Trim(first, RustSpace), Trim(last, RustSpace))
  }

  function ItemRange(item: string, dialect: Dialect): (range: Option<(nat, nat)>)
    ensures range.Some? ==> range.value.0 < 7 && range.value.1 < 7
  {
    var (first, last) := ItemEnds(item, dialect);
    if DayIndex(first).None? || DayIndex(last).None? then None
    else Some((DayIndex(first).value, DayIndex(last).value))
  }

  /** Days from `start` on to `day`, going round the week. */
  function Ahead(start: nat, day: nat): (n: nat)
    requires start < 7 && day < 7
    ensures n < 7
  {
    if start <= day then day - start else day + 7 - start
  }

  /** The days met going forward from `start` until `end`. */
  predicate InRange(start: nat, end: nat, day: nat)
    requires start < 7 && end < 7 && day < 7
  {
    Ahead(start, day) <= Ahead(start, end)
  }

  function Range(start: nat, end: nat): set<nat>
    requires start < 7 && end < 7
  {
    set day: nat | day < 7 && InRange(start, end, day)
  }

  datatype WeekdayError = UnknownDay(item: string) | NoDay

  type Days = Result<set<nat>, WeekdayError>

  function With(marked: set<nat>, rest: Days): Days {
    match rest
    case Ok(days) => Ok(marked + days)
    case Err(_) => rest
  }

  /** The union of the items' ranges, or the first item that names no days. */
  function Selected(items: seq<string>, dialect: Dialect): Days {
    if items == [] then Ok({})
    else
      match ItemRange(items[0], dialect)
      case None => Err(UnknownDay(items[0]))
      case Some((start, end)) => With(Range(start, end), Selected(items[1..], dialect))
  }

  const EVERY_DAY: set<nat> := set day: nat | day < 7

  function Weekdays(value: string, dialect: Dialect): Days {
    if Lower(value) == "daily" then Ok(EVERY_DAY)
    else
      match Selected(Split(Lower(value), ','), dialect)
      case Err(error) => Err(error)
      case Ok(days) => if days == {} then Err(NoDay) else Ok(days)
  }

  function Marked(weekdays: seq<bool>): set<nat> {
    set day: nat | day < |weekdays| && weekdays[day]
  }

  /** The loop over one range of days: it ends, and marks exactly the circular range. */
  method MarkRange(weekdays: array<bool>, start: nat, end: nat)
    requires weekdays.Length == 7 && start < 7 && end < 7
    modifies weekdays
    ensures Marked(weekdays[..]) == old(Marked(weekdays[..])) + Range(start, end)
  {
    var current: nat := start;
    while true
      invariant current < 7 && Ahead(start, current) <= Ahead(start, end)
      invariant forall day: nat :: day < 7 ==>
        weekdays[day] == (old(weekdays[day]) || Ahead(start, day) < Ahead(start, current))
      decreases Ahead(start, end) - Ahead(start, current)
    {
      weekdays[current] := true;
      if current == end {
        break;
      }
      current := (current + 1) % 7;
    }
  }

  lemma NoneMarked(weekdays: seq<bool>)
    ensures Marked(weekdays) == {} <==> forall day: nat :: day < |weekdays| ==> !weekdays[day]
  {
    if forall day: nat :: day < |weekdays| ==> !weekdays[day] {
      NoMembers(Marked(weekdays));
    } else {
      var day: nat :| day < |weekdays| && weekdays[day];
      assert day in Marked(weekdays);
    }
  }

  lemma WithTwice(a: set<nat>, b: set<nat>, rest: Days)
    ensures With(a, With(b, rest)) == With(a + b, rest)
    ensures With({}, rest) == rest
  {
    if rest.Ok? {
      assert a + (b + rest.value) == a + b + rest.value && {} + rest.value == rest.value;
    }
  }

  lemma NextItem(items: seq<string>, i: nat, dialect: Dialect, marked: set<nat>)
    requires i < |items|
    ensures match ItemRange(items[i], dialect)
            case None => With(marked, Selected(items[i..], dialect)) == Err(UnknownDay(items[i]))
            case Some((start, end)) =>
              With(marked, Selected(items[i..], dialect))
              == With(marked + Range(start, end), Selected(items[i + 1..], dialect))
  {
    assert items[i..][0] == items[i] && items[i..][1..] == items[i + 1..];
    match ItemRange(items[i], dialect)
    case None =>
    case Some((start, end)) => WithTwice(marked, Range(start, end), Selected(items[i + 1..], dialect));
  }

  lemma ErrorPasses(marked: set<nat>, rest: Days, item: string)
    requires With(marked, rest) == Err(UnknownDay(item))
    ensures rest == Err(UnknownDay(item))
  {
  }

  /** Marks the days of one item, if it names any. */
  method MarkItem(item: string, dialect: Dialect, weekdays: array<bool>) returns (known: bool)
    requires weekdays.Length == 7
    modifies weekdays
    ensures match ItemRange(item, dialect)
            case None => !known && Marked(weekdays[..]) == old(Marked(weekdays[..]))
            case Some((start, end)) => known && Marked(weekdays[..]) == old(Marked(weekdays[..])) + Range(start, end)
  {
    var range := ItemRange(item, dialect);
    if range.None? {
      return false;
    }
    MarkRange(weekdays, range.value.0, range.value.1);
    known := true;
  }

  /** Marks the days of all items, or stops at the first that names none. */
  method MarkItems(items: seq<string>, dialect: Dialect, weekdays: array<bool>) returns (unknown: Option<string>)
    requires weekdays.Length == 7
    modifies weekdays
    ensures match unknown
            case None => With(old(Marked(weekdays[..])), Selected(items, dialect)) == Ok(Marked(weekdays[..]))
            case Some(item) => Selected(items, dialect) == Err(UnknownDay(item))
  {
    var i := 0;
    ghost var start, all := Marked(weekdays[..]), With(Marked(weekdays[..]), Selected(items, dialect));
    assert items[0..] == items;
    while i < |items|
      invariant 0 <= i <= |items|
      invariant all == With(Marked(weekdays[..]), Selected(items[i..], dialect))
    {
      NextItem(items, i, dialect, Marked(weekdays[..]));
      var known := MarkItem(items[i], dialect, weekdays);
      if !known {
        ErrorPasses(start, Selected(items, dialect), items[i]);
        return Some(items[i]);
      }
      i := i + 1;
    }
    NoItemsLeft(items[i..], dialect, Marked(weekdays[..]));
    return None;
  }

  lemma NoItemsLeft(items: seq<string>, dialect: Dialect, marked: set<nat>)
    requires items == []
    ensures With(marked, Selected(items, dialect)) == Ok(marked)
  {
    assert marked + {} == marked;
  }

  method ParseWeekdays(value: string, dialect: Dialect) returns (r: Result<seq<bool>, WeekdayError>)
    ensures match r
            case Ok(weekdays) => |weekdays| == 7 && Weekdays(value, dialect) == Ok(Marked(weekdays))
            case Err(error) => Weekdays(value, dialect) == Err(error)
  {
    if Lower(value) == "daily" {
      r := Ok([true, true, true, true, true, true, true]);
      assert Marked(r.value) == EVERY_DAY;
      return;
    }
    var weekdays := new bool[7](_ => false);
    NoneMarked(weekdays[..]);
    WithTwice({}, {}, Selected(Split(Lower(value), ','), dialect));
    var unknown := MarkItems(Split(Lower(value), ','), dialect, weekdays);
    if unknown.Some? {
      return Err(UnknownDay(unknown.value));
    }
    NoneMarked(weekdays[..]);
    if forall day: nat :: day < 7 ==> !weekdays[day] {
      return Err(NoDay);
    }
    return Ok(weekdays[..]);
  }

  lemma RangeHoldsStart(start: nat, end: nat)
    requires start < 7 && end < 7
    ensures start in Range(start, end) && end in Range(start, end)
  {
  }

  /** An accepted list of weekdays selects a day, so that check of the parsers never fails. */
  lemma SomeDaySelected(value: string, dialect: Dialect)
    ensures Weekdays(value, dialect) != Err(NoDay)
    ensures Weekdays(value, dialect).Ok? ==> Weekdays(value, dialect).value != {}
  {
    if Lower(value) == "daily" {
      assert 0 in EVERY_DAY;
    } else {
      ItemsSelectSome(Split(Lower(value), ','), dialect);
    }
  }

  lemma ItemsSelectSome(items: seq<string>, dialect: Dialect)
    requires items != []
    ensures Selected(items, dialect) != Err(NoDay) && Selected(items, dialect) != Ok({})
  {
    SelectedNotNoDay(items, dialect);
    match ItemRange(items[0], dialect)
    case None =>
    case Some((start, end)) =>
      RangeHoldsStart(start, end);
      WithHolds(Range(start, end), Selected(items[1..], dialect), start);
  }

  lemma WithHolds(marked: set<nat>, rest: Days, day: nat)
    requires day in marked
    ensures With(marked, rest) != Ok({})
  {
  }

  lemma {:induction false} SelectedNotNoDay(items: seq<string>, dialect: Dialect)
    ensures Selected(items, dialect) != Err(NoDay)
  {
    if items != [] {
      SelectedNotNoDay(items[1..], dialect);
    }
  }

  /** A day is selected exactly when some item's circular range holds it. */
  lemma {:induction false} SelectedIsUnion(items: seq<string>, dialect: Dialect, day: nat)
    requires Selected(items, dialect).Ok? && day < 7
    ensures day in Selected(items, dialect).value <==>
            exists i :: 0 <= i < |items| && ItemRange(items[i], dialect).Some?
                        && day in Range(ItemRange(items[i], dialect).value.0, ItemRange(items[i], dialect).value.1)
  {
    if items != [] {
      SelectedIsUnion(items[1..], dialect, day);
      if day in Selected(items[1..], dialect).value {
        var i :| 0 <= i < |items| - 1 && ItemRange(items[1..][i], dialect).Some?
                 && day in Range(ItemRange(items[1..][i], dialect).value.0, ItemRange(items[1..][i], dialect).value.1);
        assert items[i + 1] == items[1..][i];
      }
    }
  }

  // ---------------------------------------------------------- the notation, spelled out

  /** Monday is 0 and Sunday 6. */
  lemma DayTable()
    ensures DayIndex("mon") == Some(0) && DayIndex("tue") == Some(1) && DayIndex("wed") == Some(2)
    ensures DayIndex("thu") == Some(3) && DayIndex("fri") == Some(4) && DayIndex("sat") == Some(5)
    ensures DayIndex("sun") == Some(6)
  {
  }

  /** The days from one to another, on past Sunday when the first comes later in the week. */
  lemma RangeDays(start: nat, end: nat, day: nat)
    requires start < 7 && end < 7
    ensures day in Range(start, end) <==>
            day < 7 && (if start <= end then start <= day <= end else day >= start || day <= end)
  {
  }

  lemma AllSeven()
    ensures EVERY_DAY == {0, 1, 2, 3, 4, 5, 6}
  {
  }

  lemma AtFirstHyphen(first: string, last: string)
    requires '-' !in first
    ensures var item := first + "-" + last;
            IndexOf(item, '-') == |first| && item[..|first|] == first && item[|first| + 1..] == last
  {
    var item := first + "-" + last;
    assert item[..|first|] == first;
    IndexOfFirst(item, '-', |first|);
  }

  lemma TwoNames(first: string, last: string, dialect: Dialect)
    requires '-' !in first && '-' !in last && Trim(first, RustSpace) == first && Trim(last, RustSpace) == last
    ensures ItemEnds(first + "-" + last, dialect) == (first, last)
  {
    SplitTwo(first, last, '-');
    SplitOne(last, '-');
    AtFirstHyphen(first, last);
  }

  /** Two names with a hyphen are the days from the first on to the second, for the form and for the server. */
  lemma NamedRange(first: string, last: string, start: nat, end: nat, dialect: Dialect)
    requires DayIndex(first) == Some(start) && DayIndex(last) == Some(end)
    ensures ItemRange(first + "-" + last, dialect) == Some((start, end))
  {
    DayNamesPlain(first);
    DayNamesPlain(last);
    TwoNames(first, last, dialect);
  }

  // ------------------------------------------------- where the two parsers agree

  lemma TrimKeeps(s: string, space: char -> bool, c: char)
    requires c in s && !space(c)
    ensures c in Trim(s, space)
  {
    TrimStartSpec(s, space);
    var t := TrimStart(s, space);
    assert c in t by {
      var i :| 0 <= i < |s| && s[i] == c;
      assert t[i - (|s| - |t|)] == c;
    }
    TrimEndSpec(t, space);
    var i :| 0 <= i < |t| && t[i] == c;
  }

  predicate Letters(name: string) {
    forall i :: 0 <= i < |name| ==> 'a' <= name[i] <= 'z'
  }

  lemma DayNamesShort(name: string)
    requires DayIndex(name).Some?
    ensures |name| == 3 && Letters(name)
  {
  }

  lemma LettersPlain(name: string)
    requires |name| == 3 && Letters(name)
    ensures '-' !in name && ',' !in name && Trim(name, RustSpace) == name && Lower(name) == name
  {
    TrimTight(name, RustSpace);
  }

  lemma DayNamesPlain(name: string)
    requires DayIndex(name).Some?
    ensures |name| == 3 && '-' !in name && ',' !in name && Trim(name, RustSpace) == name && Lower(name) == name
    ensures Letters(name)
  {
    DayNamesShort(name);
    LettersPlain(name);
  }

  /** One item, read by the form: the server reads the same days unless it has a second hyphen. */
  lemma ItemsAgree(item: string)
    requires ItemRange(item, JavaScript).Some?
    ensures |Split(item, '-')| <= 2 ==> ItemRange(item, Rust) == ItemRange(item, JavaScript)
    ensures |Split(item, '-')| > 2 ==> ItemRange(item, Rust).None?
  {
    var i := IndexOf(item, '-');
    var pieces := Split(item, '-');
    DayNamesPlain(pieces[0]);
    if i < |item| {
      var rest := item[i + 1..];
      assert pieces == [item[..i]] + Split(rest, '-');
      if |pieces| == 2 {
        assert Split(rest, '-') == [rest];
        DayNamesPlain(rest);
      } else {
        assert rest[IndexOf(rest, '-')] == '-';
        TrimKeeps(rest, RustSpace, '-');
        if DayIndex(Trim(rest, RustSpace)).Some? {
          DayNamesPlain(Trim(rest, RustSpace));
        }
      }
    }
  }

  predicate SingleHyphens(items: seq<string>) {
    forall i :: 0 <= i < |items| ==> |Split(items[i], '-')| <= 2
  }

  lemma {:induction false} SelectionsAgree(items: seq<string>)
    requires Selected(items, JavaScript).Ok?
    ensures SingleHyphens(items) ==> Selected(items, Rust) == Selected(items, JavaScript)
    ensures !SingleHyphens(items) ==> Selected(items, Rust).Err?
  {
    if items != [] {
      ItemsAgree(items[0]);
      SelectionsAgree(items[1..]);
      assert SingleHyphens(items) <==> |Split(items[0], '-')| <= 2 && SingleHyphens(items[1..]) by {
        assert forall i :: 0 < i < |items| ==> items[i] == items[1..][i - 1];
      }
    }
  }

  predicate PlainDays(value: string) {
    Lower(value) == "daily" || SingleHyphens(Split(Lower(value), ','))
  }

  /** Weekdays the form accepts mean the same to the server exactly when no item has a second hyphen; the server rejects
      the others. */
  lemma WeekdaysAgree(value: string)
    requires Weekdays(value, JavaScript).Ok?
    ensures PlainDays(value) ==> Weekdays(value, Rust) == Weekdays(value, JavaScript)
    ensures !PlainDays(value) ==> Weekdays(value, Rust).Err?
  {
    if Lower(value) != "daily" {
      SelectionsAgree(Split(Lower(value), ','));
    }
  }

  lemma ThirdPieceIgnored(item: string, third: string)
    requires Split(item, '-') == ["mon", "tue", third]
    ensures ItemRange(item, JavaScript) == Some((0, 1)) && Range(0, 1) == {0, 1}
  {
  }

  lemma HyphensOf(item: string)
    ensures SingleHyphens([item]) <==> |Split(item, '-')| <= 2
  {
    assert [item][0] == item;
  }

  lemma OnlyItemValue(item: string, start: nat, end: nat)
    requires Lower(item) == item && ',' !in item && item != "daily" && |Split(item, '-')| > 2
    requires ItemRange(item, JavaScript) == Some((start, end))
    ensures Weekdays(item, JavaScript) == Ok(Range(start, end)) && Weekdays(item, Rust).Err?
  {
    OnlyItem(item, start, end);
    HyphensOf(item);
    SelectionsAgree([item]);
    RangeHoldsStart(start, end);
    OneItem(item, JavaScript);
    OneItem(item, Rust);
  }

  lemma OneItem(item: string, dialect: Dialect)
    requires Lower(item) == item && ',' !in item && item != "daily"
    ensures Selected([item], dialect).Err? ==> Weekdays(item, dialect).Err?
    ensures Selected([item], dialect).Ok? && Selected([item], dialect).value != {} ==>
              Weekdays(item, dialect) == Selected([item], dialect)
  {
    SplitOne(item, ',');
  }

  lemma MonTueThird(third: char)
    requires third != '-' && third != ',' && LowerChar(third) == third
    ensures var item := "mon-tue-" + [third];
            Split(item, '-') == ["mon", "tue", [third]] && Lower(item) == item && ',' !in item
  {
    SplitThree("mon", "tue", [third], '-');
    MonTueText(third);
    MonTuePlain(third);
  }

  lemma MonTueText(third: char)
    ensures "mon" + ['-'] + "tue" + ['-'] + [third] == "mon-tue-" + [third]
  {
  }

  lemma MonTuePlain(third: char)
    requires third != ',' && LowerChar(third) == third
    ensures var item := "mon-tue-" + [third]; Lower(item) == item && ',' !in item
  {
  }

  /** Days with a second hyphen that only the server minds. */
  lemma SecondHyphen(third: char)
    requires third != '-' && third != ',' && LowerChar(third) == third
    ensures var days := "mon-tue-" + [third]; Weekdays(days, JavaScript) == Ok({0, 1}) && Weekdays(days, Rust).Err?
  {
    var item := "mon-tue-" + [third];
    MonTueThird(third);
    ThirdPieceIgnored(item, [third]);
    OnlyItemValue(item, 0, 1);
  }

  lemma OnlyItem(item: string, start: nat, end: nat)
    requires ItemRange(item, JavaScript) == Some((start, end))
    ensures Selected([item], JavaScript) == Ok(Range(start, end))
  {
    SelectedCons(item, [], start, end, JavaScript);
    assert [item] + [] == [item] && Range(start, end) + {} == Range(start, end);
  }

  // ------------------------------------------------------ weekdays ticked in the form

  function Ticked(days: seq<string>, from: nat): seq<string>
    requires from <= 7
    decreases 7 - from
  {
    if from == 7 then []
    else (if DAYS[from] in days then [DAYS[from]] else []) + Ticked(days, from + 1)
  }

  /** The notation for a selection of days; selecting none is an error. */
  function SelectedWeekdaysValue(days: seq<string>): Option<string> {
    var selected := Ticked(days, 0);
    if |selected| == 7 then Some("daily") else if selected == [] then None else Some(Join(selected, ','))
  }

  function DaysIn(days: seq<string>, from: nat): set<nat> {
    set day: nat | from <= day < 7 && DAYS[day] in days
  }

  lemma DaysIndexed(day: nat)
    requires day < 7
    ensures DayIndex(DAYS[day]) == Some(day)
  {
  }

  lemma NameAlone(name: string, dialect: Dialect)
    requires |name| == 3 && '-' !in name && Trim(name, RustSpace) == name
    ensures ItemEnds(name, dialect) == (name, name)
  {
    SplitOne(name, '-');
    IndexOfFirst(name, '-', 3);
  }

  lemma DayAlone(day: nat, dialect: Dialect)
    requires day < 7
    ensures ItemRange(DAYS[day], dialect) == Some((day, day)) && Range(day, day) == {day}
  {
    DaysIndexed(day);
    DayNamesPlain(DAYS[day]);
    NameAlone(DAYS[day], dialect);
  }

  lemma {:induction false} TickedSelects(days: seq<string>, from: nat, dialect: Dialect)
    requires from <= 7
    ensures Selected(Ticked(days, from), dialect) == Ok(DaysIn(days, from))
    decreases 7 - from
  {
    if from == 7 {
      assert DaysIn(days, from) == {};
    } else {
      TickedSelects(days, from + 1, dialect);
      if DAYS[from] in days {
        DayAlone(from, dialect);
        OneMoreDay(days, from, dialect);
      } else {
        NoMoreDay(days, from);
      }
    }
  }

  lemma NoMoreDay(days: seq<string>, from: nat)
    requires from < 7 && DAYS[from] !in days
    ensures Ticked(days, from) == Ticked(days, from + 1) && DaysIn(days, from) == DaysIn(days, from + 1)
  {
    assert Ticked(days, from) == [] + Ticked(days, from + 1);
  }

  lemma SelectedCons(item: string, items: seq<string>, start: nat, end: nat, dialect: Dialect)
    requires ItemRange(item, dialect) == Some((start, end))
    ensures Selected([item] + items, dialect) == With(Range(start, end), Selected(items, dialect))
  {
    assert ([item] + items)[1..] == items;
  }

  lemma OneMoreDay(days: seq<string>, from: nat, dialect: Dialect)
    requires from < 7 && DAYS[from] in days && ItemRange(DAYS[from], dialect) == Some((from, from))
    requires Range(from, from) == {from} && Selected(Ticked(days, from + 1), dialect) == Ok(DaysIn(days, from + 1))
    ensures Selected(Ticked(days, from), dialect) == Ok(DaysIn(days, from))
  {
    SelectedCons(DAYS[from], Ticked(days, from + 1), from, from, dialect);
    TickedStep(days, from);
    DaysInStep(days, from);
  }

  lemma TickedStep(days: seq<string>, from: nat)
    requires from < 7 && DAYS[from] in days
    ensures Ticked(days, from) == [DAYS[from]] + Ticked(days, from + 1)
  {
  }

  lemma DaysInStep(days: seq<string>, from: nat)
    requires from < 7 && DAYS[from] in days
    ensures DaysIn(days, from) == {from} + DaysIn(days, from + 1)
  {
  }

  lemma {:induction false} TickedNames(days: seq<string>, from: nat)
    requires from <= 7
    ensures |Ticked(days, from)| <= 7 - from
    ensures forall i :: 0 <= i < |Ticked(days, from)| ==> Ticked(days, from)[i] in DAYS
    decreases 7 - from
  {
    if from < 7 {
      TickedNames(days, from + 1);
      assert DAYS[from] in DAYS;
    }
  }

  lemma {:induction false} AllTicked(days: seq<string>, from: nat)
    requires from <= 7 && |Ticked(days, from)| == 7 - from
    ensures forall day: nat :: from <= day < 7 ==> DAYS[day] in days
    decreases 7 - from
  {
    if from < 7 {
      TickedNames(days, from + 1);
      AllTicked(days, from + 1);
    }
  }

  /** The notation printed for ticked days selects exactly those days, for the form and for the server. */
  lemma SelectedDaysReadBack(days: seq<string>, dialect: Dialect)
    ensures match SelectedWeekdaysValue(days)
            case None => DaysIn(days, 0) == {}
            case Some(value) => Weekdays(value, dialect) == Ok(DaysIn(days, 0)) && PlainDays(value)
  {
    TickedSelects(days, 0, dialect);
    TickedNames(days, 0);
    if |Ticked(days, 0)| == 7 {
      EveryDayTicked(days);
      DailyIsEveryDay(dialect);
    } else if Ticked(days, 0) != [] {
      ListedDaysReadBack(Ticked(days, 0), dialect);
    }
  }

  lemma EveryDayTicked(days: seq<string>)
    requires |Ticked(days, 0)| == 7
    ensures DaysIn(days, 0) == EVERY_DAY
  {
    AllTicked(days, 0);
  }

  lemma DailyIsEveryDay(dialect: Dialect)
    ensures Weekdays("daily", dialect) == Ok(EVERY_DAY) && PlainDays("daily")
  {
    assert Lower("daily") == "daily";
  }

  lemma SelectedNotEmpty(items: seq<string>, dialect: Dialect)
    requires items != [] && Selected(items, dialect).Ok?
    ensures Selected(items, dialect).value != {}
  {
    var (start, end) := ItemRange(items[0], dialect).value;
    RangeHoldsStart(start, end);
    assert start in Selected(items, dialect).value;
  }

  lemma ListedDaysReadBack(selected: seq<string>, dialect: Dialect)
    requires selected != [] && forall i :: 0 <= i < |selected| ==> selected[i] in DAYS
    requires Selected(selected, dialect).Ok?
    ensures Weekdays(Join(selected, ','), dialect) == Selected(selected, dialect) && PlainDays(Join(selected, ','))
  {
    JoinedDays(selected);
    SelectedNotEmpty(selected, dialect);
  }

  lemma {:induction false} LowerJoin(parts: seq<string>)
    requires parts != [] && forall p :: p in parts ==> Lower(p) == p
    ensures Lower(Join(parts, ',')) == Join(parts, ',')
  {
    assert parts[0] in parts;
    if |parts| > 1 {
      LowerJoin(parts[1..]);
      var s, rest := Join(parts, ','), Join(parts[1..], ',');
      assert s == parts[0] + [','] + rest;
      forall i | 0 <= i < |s| ensures LowerChar(s[i]) == s[i] {
        if i < |parts[0]| {
          assert Lower(parts[0])[i] == s[i];
        } else if i > |parts[0]| {
          assert Lower(rest)[i - |parts[0]| - 1] == s[i];
        }
      }
      assert Lower(s) == s;
    }
  }

  lemma ListedNames(selected: seq<string>)
    requires forall i :: 0 <= i < |selected| ==> selected[i] in DAYS
    ensures forall p :: p in selected ==> |p| == 3 && Letters(p) && ',' !in p && Lower(p) == p
    ensures SingleHyphens(selected)
  {
    forall i | 0 <= i < |selected|
      ensures |selected[i]| == 3 && Letters(selected[i]) && ',' !in selected[i] && Lower(selected[i]) == selected[i]
      ensures |Split(selected[i], '-')| == 1
    {
      assert DayIndex(selected[i]).Some?;
      DayNamesPlain(selected[i]);
      SplitOne(selected[i], '-');
    }
  }

  lemma {:induction false} JoinLength(selected: seq<string>)
    requires selected != [] && forall p :: p in selected ==> |p| == 3
    ensures |Join(selected, ',')| == 4 * |selected| - 1
  {
    assert selected[0] in selected;
    if |selected| > 1 {
      JoinLength(selected[1..]);
    }
  }

  lemma JoinedDays(selected: seq<string>)
    requires selected != [] && forall i :: 0 <= i < |selected| ==> selected[i] in DAYS
    ensures var value := Join(selected, ',');
            Lower(value) == value && value != "daily" && Split(value, ',') == selected && SingleHyphens(selected)
  {
    ListedNames(selected);
    LowerJoin(selected);
    SplitJoin(selected, ',');
    JoinLength(selected);
  }
}
