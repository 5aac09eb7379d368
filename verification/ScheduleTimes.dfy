/** When a schedule is active, and how a printed schedule reads back in the form and in the server. */
module ScheduleTimes {
  import opened Wrappers
  import opened Text
  import opened Schedules

  // ----------------------------------------------------------------- times of day

  /** The form's times: two digits, a colon, two digits. */
  function ParseTime(value: string): (minute: Option<nat>)
    ensures minute.Some? ==> minute.value < 1440
  {
    if |value| == 5 && AllDigits(value[..2]) && value[2] == ':' && AllDigits(value[3..]) then
      var hour, minute := Value(value[..2]), Value(value[3..]);
      if hour <= 23 && minute <= 59 then Some(hour * 60 + minute) else None
    else None
  }

  /** A number below one hundred in two digits. */
  function TwoDigits(n: nat): string
    requires n < 100
  {
    [DigitChar(n / 10), DigitChar(n % 10)]
  }

  lemma ValueOfTwo(s: string)
    requires |s| == 2 && AllDigits(s)
    ensures Value(s) == 10 * DigitValue(s[0]) + DigitValue(s[1])
  {
    assert s[..1] == [s[0]] && s[..1][..0] == "";
    assert Value(s[..1]) == DigitValue(s[0]);
  }

  lemma TwoDigitsValue(n: nat)
    requires n < 100
    ensures AllDigits(TwoDigits(n)) && Value(TwoDigits(n)) == n
  {
    ValueOfTwo(TwoDigits(n));
  }

  lemma PlacesOf(tens: nat, ones: nat)
    requires tens < 10 && ones < 10
    ensures (10 * tens + ones) / 10 == tens && (10 * tens + ones) % 10 == ones
  {
  }

  lemma ValueTwoDigits(s: string)
    requires |s| == 2 && AllDigits(s)
    ensures Value(s) < 100 && TwoDigits(Value(s)) == s
  {
    var tens, ones := DigitValue(s[0]), DigitValue(s[1]);
    ValueOfTwo(s);
    PlacesOf(tens, ones);
    assert s == [DigitChar(tens), DigitChar(ones)];
  }

  /** The clock text of a minute of the day. */
  function ClockText(m: nat): (text: string)
    requires m < 1440
    ensures |text| == 5
  {
    TwoDigits(m / 60) + ":" + TwoDigits(m % 60)
  }

  lemma ClockSlices(m: nat)
    requires m < 1440
    ensures ClockText(m)[..2] == TwoDigits(m / 60) && ClockText(m)[2] == ':' && ClockText(m)[3..] == TwoDigits(m % 60)
  {
  }

  lemma FiveCharacters(value: string)
    requires |value| == 5 && value[2] == ':'
    ensures value == value[..2] + ":" + value[3..]
  {
  }

  lemma ClockParses(m: nat)
    requires m < 1440
    ensures ParseTime(ClockText(m)) == Some(m)
  {
    ClockSlices(m);
    TwoDigitsValue(m / 60);
    TwoDigitsValue(m % 60);
  }

  lemma HourAndMinute(hour: nat, minute: nat)
    requires hour <= 23 && minute <= 59
    ensures var m := hour * 60 + minute; m < 1440 && m / 60 == hour && m % 60 == minute
  {
  }

  lemma ClockOf(hour: nat, minute: nat, m: nat, value: string)
    requires hour <= 23 && minute <= 59 && m == hour * 60 + minute
    requires value == TwoDigits(hour) + ":" + TwoDigits(minute)
    ensures m < 1440 && value == ClockText(m)
  {
    HourAndMinute(hour, minute);
  }

  lemma TimeDigits(value: string) returns (a: string, b: string)
    requires ParseTime(value).Some?
    ensures |a| == 2 && |b| == 2 && AllDigits(a) && AllDigits(b) && value == a + ":" + b
    ensures Value(a) <= 23 && Value(b) <= 59 && ParseTime(value) == Some(Value(a) * 60 + Value(b))
  {
    a, b := value[..2], value[3..];
    FiveCharacters(value);
  }

  lemma TimeParts(value: string) returns (hour: nat, minute: nat)
    requires ParseTime(value).Some?
    ensures hour <= 23 && minute <= 59 && ParseTime(value) == Some(hour * 60 + minute)
    ensures value == TwoDigits(hour) + ":" + TwoDigits(minute)
  {
    var a, b := TimeDigits(value);
    ValueTwoDigits(a);
    ValueTwoDigits(b);
    hour, minute := Value(a), Value(b);
  }

  lemma ParsedIsClock(value: string) returns (m: nat)
    requires ParseTime(value).Some?
    ensures ParseTime(value) == Some(m) && m < 1440 && value == ClockText(m)
  {
    var hour, minute := TimeParts(value);
    m := hour * 60 + minute;
    ClockOf(hour, minute, m, value);
  }

  /** The form accepts exactly the clock texts from 00:00 to 23:59. */
  lemma TimeExact(value: string, m: nat)
    ensures ParseTime(value) == Some(m) <==> m < 1440 && value == ClockText(m)
  {
    if m < 1440 {
      ClockParses(m);
    }
    if ParseTime(value).Some? {
      var parsed := ParsedIsClock(value);
    }
  }

  /** Rust's reading of an unsigned 16-bit number. */
  function ParseU16(value: string): Option<nat> {
    var digits := if value != "" && value[0] == '+' then value[1..] else value;
    if digits != "" && AllDigits(digits) && Value(digits) <= 65535 then Some(Value(digits)) else None
  }

  /** The server's times. */
  function ParseScheduleTime(value: string): Option<nat> {
    var text := Trim(value, RustSpace);
    var i := IndexOf(text, ':');
    if i == |text| then None
    else
      match (ParseU16(text[..i]), ParseU16(text[i + 1..]))
      case (Some(hour), Some(minute)) => if hour > 23 || minute > 59 then None else Some(hour * 60 + minute)
      case _ => None
  }

  lemma DigitsAreU16(digits: string)
    requires |digits| == 2 && AllDigits(digits)
    ensures ParseU16(digits) == Some(Value(digits))
  {
    assert digits[..1][..0] == "" && digits[..1][0] == digits[0];
    assert Value(digits[..1]) == DigitValue(digits[0]);
  }

  /** A time the form accepts is the same minute of the day to the server. */
  lemma TimesAgree(value: string)
    requires ParseTime(value).Some?
    ensures ParseScheduleTime(value) == ParseTime(value)
    ensures '-' !in value && IsWord(value, JsSpace) && IsWord(value, RustSpace)
    ensures forall c :: c in value ==> IsDigit(c) || c == ':'
  {
    assert forall i :: 0 <= i < 5 ==> IsDigit(value[i]) || i == 2 by {
      assert value[..2][0] == value[0] && value[..2][1] == value[1];
      assert value[3..][0] == value[3] && value[3..][1] == value[4];
    }
    TrimTight(value, RustSpace);
    IndexOfFirst(value, ':', 2);
    DigitsAreU16(value[..2]);
    DigitsAreU16(value[3..]);
  }

  // --------------------------------------------------------------------- activity

  datatype Schedule = Schedule(days: string, start: string, end: string)

  /** The branches on start and end of an active time. */
  function ActiveOn(days: set<nat>, start: nat, end: nat, weekday: nat, minute: nat): bool
    requires weekday < 7
  {
    if start == end then weekday in days
    else if start < end then weekday in days && start <= minute < end
    else if minute >= start then weekday in days
    else minute < end && (weekday + 6) % 7 in days
  }

  function ScheduleIsActive(schedule: Schedule, weekday: nat, minute: nat): Result<bool, WeekdayError>
    requires weekday < 7
  {
    match Weekdays(schedule.days, JavaScript)
    case Err(error) => Err(error)
    case Ok(days) =>
      match (ParseTime(schedule.start), ParseTime(schedule.end))
      case (Some(start), Some(end)) => Ok(ActiveOn(days, start, end, weekday, minute))
      case _ => Ok(false)
  }

  /** First minute of the active time that begins on a day, counted from the start of that day's week. */
  function Begins(day: nat, start: nat, end: nat): nat {
    day * 1440 + if start == end then 0 else start
  }

  /** Length of an active time: until `end` the same day or the next, or the whole calendar day. */
  function Lasts(start: nat, end: nat): int {
    if start < end then end - start else end + 1440 - start
  }

  /** Minute `t`, counted from some Monday midnight, lies in the active time begun on `day` of week `week`. */
  predicate InTimeOf(t: int, day: nat, week: int, start: nat, end: nat) {
    week * 10080 + Begins(day, start, end) <= t < week * 10080 + Begins(day, start, end) + Lasts(start, end)
  }

  ghost predicate InSomeTime(days: set<nat>, start: nat, end: nat, t: int) {
    exists day: nat, week: int :: day in days && day < 7 && InTimeOf(t, day, week, start, end)
  }

  lemma ActiveHasTime(days: set<nat>, start: nat, end: nat, t: int)
    requires start < 1440 && end < 1440
    requires ActiveOn(days, start, end, t / 1440 % 7, t % 1440)
    ensures InSomeTime(days, start, end, t)
  {
    var date, minute := t / 1440, t % 1440;
    var weekday: nat := date % 7;
    var begun: nat := if start > end && minute < start then (weekday + 6) % 7 else weekday;
    var since := if start > end && minute < start then date - 1 else date;
    assert since == since / 7 * 7 + begun;
    assert InTimeOf(t, begun, since / 7, start, end);
  }

  lemma TimeIsActive(days: set<nat>, start: nat, end: nat, t: int, day: nat, week: int)
    requires start < 1440 && end < 1440 && day in days && day < 7 && InTimeOf(t, day, week, start, end)
    ensures ActiveOn(days, start, end, t / 1440 % 7, t % 1440)
  {
    var begun := 7 * week + day;
    assert begun * 1440 + (if start == end then 0 else start) <= t < begun * 1440 + 2880;
    if t < begun * 1440 + 1440 {
      assert t / 1440 == begun && t % 1440 == t - begun * 1440;
    } else {
      assert t / 1440 == begun + 1 && t % 1440 == t - begun * 1440 - 1440;
      assert (begun + 1) % 7 == (day + 1) % 7;
    }
  }

  /** A schedule is active exactly during the times begun on its days, round midnight and round the week. */
  lemma ActiveExactly(days: set<nat>, start: nat, end: nat, t: int)
    requires start < 1440 && end < 1440
    ensures ActiveOn(days, start, end, t / 1440 % 7, t % 1440) <==> InSomeTime(days, start, end, t)
  {
    if ActiveOn(days, start, end, t / 1440 % 7, t % 1440) {
      ActiveHasTime(days, start, end, t);
    }
    if InSomeTime(days, start, end, t) {
      var day: nat, week: int :| day in days && day < 7 && InTimeOf(t, day, week, start, end);
      TimeIsActive(days, start, end, t, day, week);
    }
  }

  /** Minute `t` lies in a time a schedule's text names: begun on one of its days, from its start to its end. */
  ghost predicate ActiveAt(schedule: Schedule, t: int) {
    exists days, start, end :: NamesTimes(schedule, days, start, end) && InSomeTime(days, start, end, t)
  }

  predicate NamesTimes(schedule: Schedule, days: set<nat>, start: nat, end: nat) {
    && Weekdays(schedule.days, JavaScript) == Ok(days)
    && start < 1440 && schedule.start == ClockText(start)
    && end < 1440 && schedule.end == ClockText(end)
  }

  lemma ActiveNow(days: set<nat>, start: nat, end: nat, weekday: nat, minute: nat)
    requires start < 1440 && end < 1440 && weekday < 7 && minute < 1440
    ensures ActiveOn(days, start, end, weekday, minute) <==> InSomeTime(days, start, end, weekday * 1440 + minute)
  {
    var t := weekday * 1440 + minute;
    assert t / 1440 == weekday && t % 1440 == minute;
    ActiveExactly(days, start, end, t);
  }

  lemma TimesOf(schedule: Schedule) returns (start: nat, end: nat)
    requires ParseTime(schedule.start).Some? && ParseTime(schedule.end).Some?
    ensures ParseTime(schedule.start) == Some(start) && ParseTime(schedule.end) == Some(end)
    ensures start < 1440 && schedule.start == ClockText(start) && end < 1440 && schedule.end == ClockText(end)
  {
    start, end := ParseTime(schedule.start).value, ParseTime(schedule.end).value;
    TimeExact(schedule.start, start);
    TimeExact(schedule.end, end);
  }

  lemma NamedTimes(schedule: Schedule, days: set<nat>, start: nat, end: nat, weekday: nat, minute: nat)
    requires NamesTimes(schedule, days, start, end) && weekday < 7
    ensures ScheduleIsActive(schedule, weekday, minute) == Ok(ActiveOn(days, start, end, weekday, minute))
  {
    ClockParses(start);
    ClockParses(end);
  }

  lemma ActiveIsNamed(schedule: Schedule, weekday: nat, minute: nat)
    requires weekday < 7 && minute < 1440 && ScheduleIsActive(schedule, weekday, minute) == Ok(true)
    ensures ActiveAt(schedule, weekday * 1440 + minute)
  {
    var start, end := TimesOf(schedule);
    var days := Weekdays(schedule.days, JavaScript).value;
    assert NamesTimes(schedule, days, start, end);
    NamedTimes(schedule, days, start, end, weekday, minute);
    ActiveNow(days, start, end, weekday, minute);
  }

  lemma NamedIsActive(schedule: Schedule, weekday: nat, minute: nat)
    requires weekday < 7 && minute < 1440 && ActiveAt(schedule, weekday * 1440 + minute)
    ensures ScheduleIsActive(schedule, weekday, minute) == Ok(true)
  {
    var days, start, end :|
      NamesTimes(schedule, days, start, end) && InSomeTime(days, start, end, weekday * 1440 + minute);
    NamedTimes(schedule, days, start, end, weekday, minute);
    ActiveNow(days, start, end, weekday, minute);
  }

  /** A schedule's text is active exactly during the times it names. */
  lemma ScheduleActive(schedule: Schedule, weekday: nat, minute: nat)
    requires weekday < 7 && minute < 1440
    ensures ScheduleIsActive(schedule, weekday, minute) == Ok(true) <==> ActiveAt(schedule, weekday * 1440 + minute)
  {
    if ScheduleIsActive(schedule, weekday, minute) == Ok(true) {
      ActiveIsNamed(schedule, weekday, minute);
    }
    if ActiveAt(schedule, weekday * 1440 + minute) {
      NamedIsActive(schedule, weekday, minute);
    }
  }

  // ------------------------------------------------------------ schedules as text

  /** What the form checks before it prints a schedule and after it parses one. */
  predicate ValidSchedule(schedule: Schedule) {
    && Weekdays(schedule.days, JavaScript).Ok?
    && ParseTime(schedule.start).Some?
    && ParseTime(schedule.end).Some?
  }

  function ParseSchedule(value: string): Option<Schedule> {
    var parts := Words(Trim(value, JsSpace), JsSpace);
    if |parts| != 2 then None
    else
      var time := Split(parts[1], '-');
      if |time| != 2 then None
      else
        var schedule := Schedule(Lower(parts[0]), time[0], time[1]);
        if ValidSchedule(schedule) then Some(schedule) else None
  }

  datatype ScheduleSpec = ScheduleSpec(weekdays: set<nat>, start: nat, end: nat)

  /** The server's reading of the text after the `@`. */
  function ParseClientSchedule(value: string): Option<ScheduleSpec> {
    var parts := Words(value, RustSpace);
    if |parts| != 2 || Weekdays(parts[0], Rust).Err? then None
    else
      var i := IndexOf(parts[1], '-');
      if i == |parts[1]| then None
      else
        match (ParseScheduleTime(parts[1][..i]), ParseScheduleTime(parts[1][i + 1..]))
        case (Some(start), Some(end)) => Some(ScheduleSpec(Weekdays(parts[0], Rust).value, start, end))
        case _ => None
  }

  function Meaning(schedule: Schedule): ScheduleSpec
    requires ValidSchedule(schedule)
  {
    ScheduleSpec(Weekdays(schedule.days, JavaScript).value, ParseTime(schedule.start).value,
                 ParseTime(schedule.end).value)
  }

  /** The schedule as it stands behind the `@` of a rule line. */
  function PrintSchedule(schedule: Schedule): string {
    " " + schedule.days + " " + schedule.start + "-" + schedule.end
  }

  lemma EmptyItem()
    ensures ItemRange("", JavaScript).None?
  {
    SplitOne("", '-');
    if DayIndex("").Some? {
      DayNamesShort("");
    }
  }

  lemma DaysNotEmpty(value: string)
    requires Weekdays(value, JavaScript).Ok?
    ensures value != ""
  {
    EmptyItem();
    SplitOne("", ',');
    assert Lower("") == "";
  }

  lemma TimeWord(start: string, end: string)
    requires ParseTime(start).Some? && ParseTime(end).Some?
    ensures var time := start + "-" + end;
            IsWord(time, JsSpace) && IsWord(time, RustSpace) && Split(time, '-') == [start, end]
            && IndexOf(time, '-') == |start| && time[|start| + 1..] == end && time[..|start|] == start
  {
    TimesAgree(start);
    TimesAgree(end);
    JoinedWord(start, '-', end);
    SplitOne(end, '-');
    SplitTwo(start, end, '-');
    AtHyphen(start, end);
  }

  lemma JoinedWord(a: string, c: char, b: string)
    requires IsWord(a, JsSpace) && IsWord(a, RustSpace) && IsWord(b, JsSpace) && IsWord(b, RustSpace)
    requires !JsSpace(c) && !RustSpace(c)
    ensures IsWord(a + [c] + b, JsSpace) && IsWord(a + [c] + b, RustSpace)
  {
  }

  lemma AtHyphen(start: string, end: string)
    requires '-' !in start
    ensures var time := start + "-" + end;
            IndexOf(time, '-') == |start| && time[|start| + 1..] == end && time[..|start|] == start
  {
    var time := start + "-" + end;
    assert time[..|start|] == start;
    IndexOfFirst(time, '-', |start|);
  }

  lemma LowerKeepsDays(value: string, dialect: Dialect)
    ensures Weekdays(Lower(value), dialect) == Weekdays(value, dialect)
  {
    LowerIdempotent(value);
  }

  lemma PrintedParts(value: string, days: string, time: string, start: string, end: string)
    requires Words(Trim(value, JsSpace), JsSpace) == [days, time] && Split(time, '-') == [start, end]
    requires ValidSchedule(Schedule(Lower(days), start, end))
    ensures ParseSchedule(value) == Some(Schedule(Lower(days), start, end))
  {
  }

  /** A valid schedule whose days hold no white space reads back as it was, in lower case. */
  lemma ScheduleReadsBack(schedule: Schedule)
    requires ValidSchedule(schedule) && IsWord(schedule.days, JsSpace)
    ensures ParseSchedule(PrintSchedule(schedule))
         == Some(Schedule(Lower(schedule.days), schedule.start, schedule.end))
  {
    var time := schedule.start + "-" + schedule.end;
    TimeWord(schedule.start, schedule.end);
    assert PrintSchedule(schedule) == " " + schedule.days + " " + time;
    TwoWordsTrimmed(schedule.days, time, JsSpace);
    LowerKeepsDays(schedule.days, JavaScript);
    PrintedParts(PrintSchedule(schedule), schedule.days, time, schedule.start, schedule.end);
  }

  /** The server's reading of a printed schedule: the form's meaning, exactly when no item of the days has a second
      hyphen; nothing at all otherwise. */
  lemma ServerReadsSchedule(schedule: Schedule)
    requires ValidSchedule(schedule) && IsWord(schedule.days, RustSpace)
    ensures ParseClientSchedule(Trim(PrintSchedule(schedule), RustSpace))
         == if PlainDays(schedule.days) then Some(Meaning(schedule)) else None
  {
    var time := schedule.start + "-" + schedule.end;
    TimeWord(schedule.start, schedule.end);
    assert PrintSchedule(schedule) == " " + schedule.days + " " + time;
    TwoWordsTrimmed(schedule.days, time, RustSpace);
    WeekdaysAgree(schedule.days);
    TimesAgree(schedule.start);
    TimesAgree(schedule.end);
  }

  // ------------------------------------------------- characters of plain weekdays

  predicate DaysChar(c: char) {
    'a' <= c <= 'z' || 'A' <= c <= 'Z' || c == ',' || c == '-'
  }

  lemma ItemChars(item: string, c: char)
    requires ItemRange(item, JavaScript).Some? && |Split(item, '-')| <= 2 && c in item
    ensures DaysChar(c)
  {
    var pieces := Split(item, '-');
    JoinSplit(item, '-');
    JoinChars(pieces, '-', c);
    if c != '-' {
      var i :| 0 <= i < |pieces| && c in pieces[i];
      DayNamesPlain(pieces[i]);
      var k :| 0 <= k < |pieces[i]| && pieces[i][k] == c;
    }
  }

  lemma SelectedHead(items: seq<string>)
    requires items != [] && Selected(items, JavaScript).Ok?
    ensures ItemRange(items[0], JavaScript).Some? && Selected(items[1..], JavaScript).Ok?
  {
  }

  lemma {:induction false} SelectedItem(items: seq<string>, i: nat)
    requires Selected(items, JavaScript).Ok? && i < |items|
    ensures ItemRange(items[i], JavaScript).Some?
  {
    SelectedHead(items);
    if i > 0 {
      SelectedItem(items[1..], i - 1);
      assert items[1..][i - 1] == items[i];
    }
  }

  lemma LoweredChar(value: string, c: char)
    requires c in value
    ensures LowerChar(c) in Lower(value)
  {
    var i :| 0 <= i < |value| && value[i] == c;
    assert Lower(value)[i] == LowerChar(c);
  }

  lemma DailyChars(c: char)
    requires c in "daily"
    ensures 'a' <= c <= 'z'
  {
  }

  /** Weekdays without a second hyphen are letters, commas and hyphens, so they print as one word. */
  lemma PlainDaysChars(value: string)
    requires Weekdays(value, JavaScript).Ok? && PlainDays(value)
    ensures forall c :: c in value ==> DaysChar(c)
  {
    forall c | c in value ensures DaysChar(c) {
      LoweredChar(value, c);
      var d := LowerChar(c);
      if Lower(value) == "daily" {
        DailyChars(d);
      } else {
        var items := Split(Lower(value), ',');
        JoinSplit(Lower(value), ',');
        JoinChars(items, ',', d);
        if d != ',' {
          var i :| 0 <= i < |items| && d in items[i];
          SelectedItem(items, i);
          ItemChars(items[i], d);
        }
      }
    }
  }

  lemma DaysCharPlain(c: char)
    requires DaysChar(c)
    ensures !JsSpace(c) && !RustSpace(c) && c != '@' && c != '>'
  {
  }

  lemma PlainDaysWord(value: string)
    requires Weekdays(value, JavaScript).Ok? && PlainDays(value)
    ensures IsWord(value, JsSpace) && IsWord(value, RustSpace) && '@' !in value && '>' !in value
  {
    DaysNotEmpty(value);
    PlainDaysChars(value);
    forall i | 0 <= i < |value|
      ensures !JsSpace(value[i]) && !RustSpace(value[i]) && value[i] != '@' && value[i] != '>'
    {
      DaysCharPlain(value[i]);
    }
  }

  /** Days ticked in the form are printed so that both sides read the days and times meant. */
  lemma TickedScheduleReadsBack(days: seq<string>, start: string, end: string)
    requires SelectedWeekdaysValue(days).Some? && ParseTime(start).Some? && ParseTime(end).Some?
    ensures var schedule := Schedule(SelectedWeekdaysValue(days).value, start, end);
            var meaning := ScheduleSpec(DaysIn(days, 0), ParseTime(start).value, ParseTime(end).value);
            && ValidSchedule(schedule)
            && Meaning(schedule) == meaning
            && ParseClientSchedule(Trim(PrintSchedule(schedule), RustSpace)) == Some(meaning)
            && ParseSchedule(PrintSchedule(schedule)).Some?
            && Meaning(ParseSchedule(PrintSchedule(schedule)).value) == meaning
  {
    SelectedDaysReadBack(days, JavaScript);
    var schedule := Schedule(SelectedWeekdaysValue(days).value, start, end);
    PlainDaysWord(schedule.days);
    ServerReadsSchedule(schedule);
    ScheduleReadsBack(schedule);
    LowerKeepsDays(schedule.days, JavaScript);
  }
}
