/**
 * The ExopiteDate class: a wall-clock instant (seconds, in the calendar of the Calendar
 * module) with a week-start day and a default display format, and the operations that
 * read and change it: the named constructors, the start and end of a day, week and month,
 * the add and minus family, the dynamic getters, setters and testers behind `__call`,
 * the range tests and the relative date.
 *
 * The current time, which the source reads from the clock, is a parameter `now`; the
 * platform's createFromFormat is a parameter `parse`.
 */
module Dates {
  import opened Wrappers
  import opened Calendar
  import Cascade
  import Accessors
  import FormatDetector
  import Differences

  /** What the source reports by throwing an exception. */
  datatype DateError =
    | InvalidInterval                 // DateInterval refuses the interval text
    | UnknownAttribute(name: string)  // no case of the attribute switch matches
    | UnhandledCall(name: string)     // `__call` with no get, set or is prefix
    | FormatNotRecognized             // no format given and no pattern matches
    | ParseFailed                     // createFromFormat gives false

  /** What a getter or tester returns: a formatted text, a number, a boolean, or a value of the time zone. */
  datatype Value = Text(s: string) | Count(n: int) | Flag(b: bool) | ZoneDependent

  /** What `__call` returns: a value, or the object itself after a setter. */
  datatype Answer = Returned(v: Value) | Chained

  /** A getter's or tester's outcome as the outcome of `__call`. */
  function Answered(r: Result<Value, DateError>): Result<Answer, DateError> {
    match r
    case Success(v) => Success(Returned(v))
    case Failure(e) => Failure(e)
  }

  const DefaultDateFormat: string := "jS F, Y \\a\\t g:ia"

  const DayNames: seq<string> := ["Sunday", "Monday", "Tuesday", "Wednesday", "Thursday", "Friday", "Saturday"]

  // ---------------------------------------------------------------- formatted fields

  /** A non-negative year with at least four digits. */
  function YearDigits(n: nat): (t: string)
    ensures FormatDetector.AllDigits(t) && FormatDetector.Number(t) == n
    ensures n < 10000 ==> |t| == 4
  {
    if n < 10000 then FormatDetector.FourDigits(n) else Differences.Decimal(n)
  }

  /** The `Y` token: at least four digits, after a minus sign for a year before year 0. */
  function YearText(y: int): (t: string)
    ensures y >= 0 ==> FormatDetector.AllDigits(t) && FormatDetector.Number(t) == y
    ensures y < 0 ==> |t| > 0 && t[0] == '-' && FormatDetector.AllDigits(t[1..]) && FormatDetector.Number(t[1..]) == -y
  {
    if y < 0 then "-" + YearDigits(-y) else YearDigits(y)
  }

  /** The `S` token: the English ordinal suffix of a day of the month. */
  function OrdinalSuffix(d: int): (s: string)
    ensures |s| == 2
    ensures 1 <= d <= 31 ==>
      (s == "st" <==> d % 10 == 1 && d != 11) && (s == "nd" <==> d % 10 == 2 && d != 12)
      && (s == "rd" <==> d % 10 == 3 && d != 13) && (s == "th" <==> d % 10 > 3 || d % 10 == 0 || 11 <= d <= 13)
  {
    if d == 1 || d == 21 || d == 31 then "st"
    else if d == 2 || d == 22 then "nd"
    else if d == 3 || d == 23 then "rd"
    else "th"
  }

  /** The value getDateAttribute returns for a known attribute of the instant t. */
  function AttributeValue(t: int, weekStart: Accessors.WeekStart, a: Accessors.GetAttribute): (v: Value)
    ensures v.ZoneDependent? <==> a == Accessors.GmtDifference || a == Accessors.SecondsSinceEpoch || a == Accessors.TimezoneName
    ensures v.Count? <==> a == Accessors.DayOfWeekAsNumeric
    ensures a == Accessors.Day ==>
      v.Text? && |v.s| == 2 && FormatDetector.AllDigits(v.s) && FormatDetector.Number(v.s) == FieldsOf(t).day
    ensures a == Accessors.Month ==>
      v.Text? && |v.s| == 2 && FormatDetector.AllDigits(v.s) && FormatDetector.Number(v.s) == FieldsOf(t).month
    ensures a == Accessors.Minute ==>
      v.Text? && |v.s| == 2 && FormatDetector.AllDigits(v.s) && FormatDetector.Number(v.s) == FieldsOf(t).minute
    ensures a == Accessors.Second ==>
      v.Text? && |v.s| == 2 && FormatDetector.AllDigits(v.s) && FormatDetector.Number(v.s) == FieldsOf(t).second
  {
    var f := FieldsOf(t);
    match a
    case Day => Text(FormatDetector.TwoDigits(f.day))
    case Month => Text(FormatDetector.TwoDigits(f.month))
    case Year => Text(YearText(f.year))
    case Hour => Text(Differences.Decimal(f.hour))
    case Minute => Text(FormatDetector.TwoDigits(f.minute))
    case Second => Text(FormatDetector.TwoDigits(f.second))
    case DayOfWeek => Text(DayNames[Weekday(DayNumber(t))])
    case DayOfWeekAsNumeric => Count(Accessors.DayOfWeekIndex(Weekday(DayNumber(t)), weekStart))
    case DaysInMonth => Text(Differences.Decimal(Calendar.DaysInMonth(f.year, f.month)))
    case DayOfYear => Text(Differences.Decimal(DaysBeforeMonth(f.year, f.month) + f.day - 1))
    case DaySuffix => Text(OrdinalSuffix(f.day))
    case GmtDifference => ZoneDependent
    case SecondsSinceEpoch => ZoneDependent
    case TimezoneName => ZoneDependent
  }

  /** The value isDateAttribute returns for a known attribute of the instant t. */
  function TestValue(t: int, a: Accessors.TestAttribute): (v: Value)
    ensures a == Accessors.LeapYear ==>
      v.Flag? && (v.b <==> DaysFromCivil(FieldsOf(t).year + 1, 1, 1) - DaysFromCivil(FieldsOf(t).year, 1, 1) == 366)
    ensures a == Accessors.AmOrPm ==>
      v.Text? && (v.s == "AM" || v.s == "PM") && (v.s == "AM" <==> SecondOfDay(t) < 43200)
    ensures a == Accessors.DaylightSavings ==> v == ZoneDependent
  {
    var f := FieldsOf(t);
    YearLength(f.year);
    match a
    case LeapYear => Flag(IsLeapYear(f.year))
    case AmOrPm => Text(if f.hour < 12 then "AM" else "PM")
    case DaylightSavings => ZoneDependent
  }

  /** The day of the year counts the days since 1 January of the instant's year. */
  lemma DayOfYearCounts(t: int, weekStart: Accessors.WeekStart)
    ensures var v := AttributeValue(t, weekStart, Accessors.DayOfYear);
      v.Text? && FormatDetector.AllDigits(v.s)
      && FormatDetector.Number(v.s) == DayNumber(t) - DaysFromCivil(FieldsOf(t).year, 1, 1)
  {
    var f := FieldsOf(t);
    DaysCivilRoundTrip(DayNumber(t));
    DaysSinceNewYear(f.year, f.month, f.day);
  }

  // ---------------------------------------------------------------- setting a field

  function FieldOf(f: DateTime, field: Accessors.Field): int {
    match field
    case FieldDay => f.day
    case FieldMonth => f.month
    case FieldYear => f.year
    case FieldHour => f.hour
    case FieldMinute => f.minute
    case FieldSecond => f.second
  }

  function WithField(f: DateTime, field: Accessors.Field, v: int): DateTime {
    match field
    case FieldDay => f.(day := v)
    case FieldMonth => f.(month := v)
    case FieldYear => f.(year := v)
    case FieldHour => f.(hour := v)
    case FieldMinute => f.(minute := v)
    case FieldSecond => f.(second := v)
  }

  /** The getter of a field. */
  function FieldAttribute(field: Accessors.Field): Accessors.GetAttribute {
    match field
    case FieldDay => Accessors.Day
    case FieldMonth => Accessors.Month
    case FieldYear => Accessors.Year
    case FieldHour => Accessors.Hour
    case FieldMinute => Accessors.Minute
    case FieldSecond => Accessors.Second
  }

  /** The new value leaves the date valid and the time in range. */
  predicate InRange(f: DateTime, field: Accessors.Field, v: int) {
    var g := WithField(f, field, v);
    ValidDate(g.year, g.month, g.day) && 0 <= g.hour < 24 && 0 <= g.minute < 60 && 0 <= g.second < 60
  }

  /**
   * setDateAttribute: setDate or setTime with the other fields passed through as they
   * are; a value out of range rolls over.
   */
  function SetField(t: int, field: Accessors.Field, v: int): int {
    var f := FieldsOf(t);
    match field
    case FieldDay => Calendar.SetDate(t, f.year, f.month, v)
    case FieldMonth => Calendar.SetDate(t, f.year, v, f.day)
    case FieldYear => Calendar.SetDate(t, v, f.month, f.day)
    case FieldHour => Calendar.SetTime(t, v, f.minute, f.second)
    case FieldMinute => Calendar.SetTime(t, f.hour, v, f.second)
    case FieldSecond => Calendar.SetTime(t, f.hour, f.minute, v)
  }

  /** Setting a field to a value in range changes that field to the value and nothing else. */
  lemma SetFieldChangesOnlyIt(t: int, field: Accessors.Field, v: int)
    requires InRange(FieldsOf(t), field, v)
    ensures FieldsOf(SetField(t, field, v)) == WithField(FieldsOf(t), field, v)
  {
    var f := FieldsOf(t);
    match field
    case FieldDay => SetDateFields(t, f.year, f.month, v);
    case FieldMonth => SetDateFields(t, f.year, v, f.day);
    case FieldYear => SetDateFields(t, v, f.month, f.day);
    case FieldHour => SetTimeFields(t, v, f.minute, f.second);
    case FieldMinute => SetTimeFields(t, f.hour, v, f.second);
    case FieldSecond => SetTimeFields(t, f.hour, f.minute, v);
  }

  /** A field's getter returns the digits of the field (for a year from 0 on). */
  lemma GetFieldReadsIt(t: int, weekStart: Accessors.WeekStart, field: Accessors.Field)
    requires FieldsOf(t).year >= 0
    ensures var v := AttributeValue(t, weekStart, FieldAttribute(field));
      v.Text? && FormatDetector.AllDigits(v.s) && FormatDetector.Number(v.s) == FieldOf(FieldsOf(t), field)
  {
  }

  /** A field set to a value in range reads back as that value. */
  lemma SetThenGet(t: int, weekStart: Accessors.WeekStart, field: Accessors.Field, v: int)
    requires InRange(FieldsOf(t), field, v)
    requires (if field == Accessors.FieldYear then v else FieldsOf(t).year) >= 0
    ensures var r := AttributeValue(SetField(t, field, v), weekStart, FieldAttribute(field));
      r.Text? && FormatDetector.AllDigits(r.s) && FormatDetector.Number(r.s) == v
  {
    SetFieldChangesOnlyIt(t, field, v);
    GetFieldReadsIt(SetField(t, field, v), weekStart, field);
  }

  /** Setting the 31st in February of a common year lands on 3 March. */
  lemma SetDayRollsOver(t: int)
    requires FieldsOf(t).month == 2 && !IsLeapYear(FieldsOf(t).year)
    ensures FieldsOf(SetField(t, Accessors.FieldDay, 31)) == FieldsOf(t).(month := 3, day := 3)
  {
    var f := FieldsOf(t);
    assert SetField(t, Accessors.FieldDay, 31) == Calendar.SetDate(t, f.year, 2, 31);
    February31(t, f.year);
    SetDateFields(t, f.year, 3, 3);
  }

  /** Setting the hour, then the minute, then the second, each in range, sets the time of day. */
  lemma SetTimeInSteps(t: int, h: int, i: int, s: int)
    requires 0 <= h < 24 && 0 <= i < 60 && 0 <= s < 60
    ensures SetField(SetField(SetField(t, Accessors.FieldHour, h), Accessors.FieldMinute, i), Accessors.FieldSecond, s)
      == Calendar.SetTime(t, h, i, s)
  {
    var f := FieldsOf(t);
    var t1 := Calendar.SetTime(t, h, f.minute, f.second);
    assert SetField(t, Accessors.FieldHour, h) == t1;
    SetTimeFields(t, h, f.minute, f.second);
    SetTimeSameDay(t, h, f.minute, f.second);
    var t2 := Calendar.SetTime(t1, h, i, f.second);
    assert SetField(t1, Accessors.FieldMinute, i) == t2;
    SetTimeFields(t1, h, i, f.second);
    SetTimeSameDay(t1, h, i, f.second);
    assert SetField(t2, Accessors.FieldSecond, s) == Calendar.SetTime(t2, h, i, s);
  }

  // ---------------------------------------------------------------- applying an interval

  /**
   * DateTime::add and DateTime::sub with one interval: years and months move the date
   * (a day past the end of the new month rolls over), the other units move the instant
   * by their length.
   */
  function ApplyInterval(t: int, iv: Cascade.Interval): int {
    var n := Cascade.SignedCount(iv);
    match iv.unit
    case Year => MoveYears(t, n)
    case Month => MoveMonths(t, n)
    case _ => MoveInstant(t, n, iv.unit)
  }

  /** The instant moved by n of a unit of fixed length. */
  function MoveInstant(t: int, n: int, unit: Cascade.Unit): int {
    t + n * Cascade.Scale(unit)
  }

  /** The date moved by whole years, the month, the day of the month and the time kept (setDate rolls 29 February over). */
  function MoveYears(t: int, n: int): int {
    var f := FieldsOf(t);
    Calendar.SetDate(t, f.year + n, f.month, f.day)
  }

  /** The date moved by whole months, the day of the month and the time kept (setDate rolls it over). */
  function MoveMonths(t: int, n: int): int {
    var f := FieldsOf(t);
    Calendar.SetDate(t, f.year, f.month + n, f.day)
  }

  /** An interval of no units leaves the instant where it is, whatever its unit. */
  lemma ApplyIntervalNothing(t: int, iv: Cascade.Interval)
    requires iv.count == 0
    ensures ApplyInterval(t, iv) == t
  {
    SetOwnDate(t);
  }

  /** Below a month, an interval moves the instant by exactly its length in seconds, forward or back. */
  lemma ApplyIntervalLength(t: int, iv: Cascade.Interval)
    requires Cascade.Depth(iv.unit) <= Cascade.Depth(Cascade.Week)
    ensures (ApplyInterval(t, iv) - t) as real == if iv.invert then -Cascade.IntervalSeconds(iv) else Cascade.IntervalSeconds(iv)
  {
  }

  /** Below a month, subtracting an interval undoes adding it. */
  lemma ApplyIntervalUndone(t: int, iv: Cascade.Interval)
    requires Cascade.Depth(iv.unit) <= Cascade.Depth(Cascade.Week)
    ensures ApplyInterval(ApplyInterval(t, iv), iv.(invert := !iv.invert)) == t
  {
  }

  lemma MoveMonthsSetsDate(t: int, n: int)
    ensures MoveMonths(t, n) == Calendar.SetDate(t, FieldsOf(t).year, FieldsOf(t).month + n, FieldsOf(t).day)
  {
  }

  /** A month interval moves the date by its signed count of months. */
  lemma MonthIntervalMovesDate(t: int, iv: Cascade.Interval)
    requires iv.unit == Cascade.Month
    ensures ApplyInterval(t, iv) == MoveMonths(t, Cascade.SignedCount(iv))
  {
  }

  /** Moving a day that every month has by n months changes the month, carrying into the year, and nothing else. */
  lemma MoveMonthsKeepsDay(t: int, n: int)
    requires FieldsOf(t).day <= 28
    ensures var f := FieldsOf(t);
      FieldsOf(MoveMonths(t, n)) == f.(year := NormalizeMonth(f.year, f.month + n).0, month := NormalizeMonth(f.year, f.month + n).1)
  {
    var f := FieldsOf(t);
    SetDateRolled(t, f.year, f.month + n, f.day);
  }

  /**
   * Adding or subtracting months on a day that every month has moves the month, carrying
   * into the year, and keeps the day and the time.
   */
  lemma AddMonthsKeepsDay(t: int, iv: Cascade.Interval)
    requires iv.unit == Cascade.Month && FieldsOf(t).day <= 28
    ensures var f, n := FieldsOf(t), Cascade.SignedCount(iv);
      FieldsOf(ApplyInterval(t, iv))
        == f.(year := NormalizeMonth(f.year, f.month + n).0, month := NormalizeMonth(f.year, f.month + n).1)
  {
    MonthIntervalMovesDate(t, iv);
    MoveMonthsKeepsDay(t, Cascade.SignedCount(iv));
  }

  /** From an instant whose date is t's moved by n months, moving back n months returns to t. */
  lemma MoveMonthsBack(t: int, t': int, n: int)
    requires var f := FieldsOf(t);
      FieldsOf(t') == f.(year := NormalizeMonth(f.year, f.month + n).0, month := NormalizeMonth(f.year, f.month + n).1)
    ensures MoveMonths(t', -n) == t
  {
    var f, g := FieldsOf(t), FieldsOf(t');
    assert g.day == f.day && (g.year, g.month) == NormalizeMonth(f.year, f.month + n);
    TimeOfDayFields(t);
    TimeOfDayFields(t');
    NormalizeMonthBack(f.year, f.month, n, g.year, g.month);
    NormalizeMonthInRange(f.year, f.month);
    SetDateSameDate(t', g.year, g.month + -n, t, f.year, f.month, f.day);
    MoveMonthsSetsDate(t', -n);
    SetOwnDate(t);
  }

  /** Two month intervals move the date by their signed counts, one after the other. */
  lemma MonthIntervalsCompose(t: int, iv: Cascade.Interval, iv2: Cascade.Interval)
    requires iv.unit == Cascade.Month && iv2.unit == Cascade.Month
    ensures ApplyInterval(ApplyInterval(t, iv), iv2)
      == MoveMonths(MoveMonths(t, Cascade.SignedCount(iv)), Cascade.SignedCount(iv2))
  {
    MonthIntervalMovesDate(t, iv);
    MonthIntervalMovesDate(ApplyInterval(t, iv), iv2);
  }

  /** Moving back the months moved forward restores a date whose day is at most 28. */
  lemma MoveMonthsUndone(t: int, n: int, m: int)
    requires FieldsOf(t).day <= 28 && m == -n
    ensures MoveMonths(MoveMonths(t, n), m) == t
  {
    MoveMonthsKeepsDay(t, n);
    MoveMonthsBack(t, MoveMonths(t, n), n);
  }

  /** Months added to (or subtracted from) a day that every month has are undone by the reverse interval. */
  lemma AddMonthsUndone(t: int, iv: Cascade.Interval)
    requires iv.unit == Cascade.Month && FieldsOf(t).day <= 28
    ensures ApplyInterval(ApplyInterval(t, iv), iv.(invert := !iv.invert)) == t
  {
    Cascade.SignedCountReversed(iv);
    MonthIntervalsCompose(t, iv, iv.(invert := !iv.invert));
    MoveMonthsUndone(t, Cascade.SignedCount(iv), Cascade.SignedCount(iv.(invert := !iv.invert)));
  }


  /** One month after 31 January of a common year is 3 March: the day rolls over. */
  lemma AddMonthRollsOver(t: int)
    requires FieldsOf(t).month == 1 && FieldsOf(t).day == 31 && !IsLeapYear(FieldsOf(t).year)
    ensures FieldsOf(ApplyInterval(t, Cascade.Interval(Cascade.Month, 1, false))) == FieldsOf(t).(month := 3, day := 3)
  {
    var f := FieldsOf(t);
    MonthIntervalMovesDate(t, Cascade.Interval(Cascade.Month, 1, false));
    MoveMonthsSetsDate(t, 1);
    assert ApplyInterval(t, Cascade.Interval(Cascade.Month, 1, false)) == Calendar.SetDate(t, f.year, 2, 31);
    February31(t, f.year);
    SetDateFields(t, f.year, 3, 3);
  }

  // ---------------------------------------------------------------- weeks

  /** PHP's remainder is congruent to the dividend. */
  lemma TruncModCongruent(a: int)
    ensures (Accessors.TruncMod(a, 7) - a) % 7 == 0
  {
    if a < 0 {
      var q, r := (-a) / 7, (-a) % 7;
      assert -a == 7 * q + r;
      assert Accessors.TruncMod(a, 7) - a == 7 * q;
    }
  }

  /** PHP's remainder of a multiple of 7 is 0. */
  lemma TruncModOfMultiple(a: int, j: int)
    requires a == 7 * j
    ensures Accessors.TruncMod(a, 7) == 0
  {
    if a >= 0 {
      DivModUnique(a, 7, j, 0);
    } else {
      DivModUnique(-a, 7, -j, 0);
    }
  }

  /** Midnight of the day holding t has t's date and the time 00:00:00. */
  lemma MidnightFields(t: int)
    ensures FieldsOf(DayNumber(t) * 86400) == FieldsOf(t).(hour := 0, minute := 0, second := 0)
  {
    SetTimeFields(t, 0, 0, 0);
  }

  /** The last second of the day holding t has t's date and the time 23:59:59. */
  lemma LastSecondFields(t: int)
    ensures FieldsOf(DayNumber(t) * 86400 + 86400 - 1) == FieldsOf(t).(hour := 23, minute := 59, second := 59)
  {
    SetTimeFields(t, 23, 59, 59);
  }

  /** A whole number of days is applied as that many days, and moves the day number by it. */
  lemma WholeDaysApplied(t: int, n: nat, invert: bool)
    ensures Cascade.Modification(Cascade.Day, n as real, invert) == Cascade.Apply(Cascade.Interval(Cascade.Day, n, invert))
    ensures DayNumber(ApplyInterval(t, Cascade.Interval(Cascade.Day, n, invert))) == DayNumber(t) + Cascade.SignedCount(Cascade.Interval(Cascade.Day, n, invert))
  {
    var m := Cascade.SignedCount(Cascade.Interval(Cascade.Day, n, invert));
    DivModUnique(t + m * 86400, 86400, DayNumber(t) + m, SecondOfDay(t));
  }

  /** Going back as many days as the day-of-week index lands on a day whose index is 0. */
  lemma BackToWeekStart(z: int, weekStart: Accessors.WeekStart)
    ensures var k := Accessors.DayOfWeekIndex(Weekday(z), weekStart);
      Accessors.DayOfWeekIndex(Weekday(z - k), weekStart) == 0
  {
    var w, v := Weekday(z), Accessors.WeekStartValue(weekStart);
    var k := Accessors.DayOfWeekIndex(Weekday(z), weekStart);
    TruncModCongruent(7 + w - v);
    var m := (k - (7 + w - v)) / 7;
    assert k == 7 + w - v + 7 * m;
    var w' := Weekday(z - k);
    var q, q' := (z + 4) / 7, (z - k + 4) / 7;
    assert z + 4 == 7 * q + w && z - k + 4 == 7 * q' + w';
    var a := 7 + w' - v;
    TruncModOfMultiple(a, q - q' - m);
  }

  /** For a week start from 0 to 7, going on 6 - index days lands on a day whose index is 6. */
  lemma OnToWeekEnd(z: int, weekStart: Accessors.WeekStart)
    requires 0 <= Accessors.WeekStartValue(weekStart) <= 7
    ensures var k := Accessors.DayOfWeekIndex(Weekday(z), weekStart);
      Accessors.DayOfWeekIndex(Weekday(z + 6 - k), weekStart) == 6
  {
    var w, v := Weekday(z), Accessors.WeekStartValue(weekStart);
    var k := Accessors.DayOfWeekIndex(Weekday(z), weekStart);
    Accessors.DayOfWeekIndexCounts(w, weekStart);
    var p := (v + k) / 7;
    assert v + k == 7 * p + w;
    var w' := Weekday(z + 6 - k);
    var q, q' := (z + 4) / 7, (z + 6 - k + 4) / 7;
    assert z + 4 == 7 * q + w && z + 6 - k + 4 == 7 * q' + w';
    assert 7 + w' - v == 6 + 7 * (q - q' - p + 1);
    assert (6 + 7 * (q - q' - p + 1)) % 7 == 6;
  }

  // ---------------------------------------------------------------- makeFromDateTime

  /** An argument of makeFromDateTime: null, a number, or a zero-padded digit string from format(). */
  datatype Arg = Null | Given(n: int) | Padded(n: int)

  /** PHP's `?:` tests for false: null and the number 0 are; a padded string never is. */
  predicate Falsy(a: Arg) {
    a.Null? || a == Given(0)
  }

  function Or(a: Arg, fallback: int): int {
    if Falsy(a) then fallback else a.n
  }

  /**
   * makeFromDateTime: the date from the arguments, missing parts from now; the hour from
   * its argument or now; the minute and second from their arguments, and otherwise from
   * now when no hour was passed at all and 0 when one was.
   */
  function MadeInstant(now: int, year: Arg, month: Arg, day: Arg, hour: Arg, minute: Arg, second: Arg): int {
    var f := FieldsOf(now);
    var dated := Calendar.SetDate(now, Or(year, f.year), Or(month, f.month), Or(day, f.day));
    var g := FieldsOf(dated);
    var minute' := if hour.Null? then Or(minute, g.minute) else Or(minute, 0);
    var second' := if hour.Null? then Or(second, g.second) else Or(second, 0);
    Calendar.SetTime(dated, Or(hour, g.hour), minute', second')
  }

  /** With no arguments, the current time. */
  lemma MadeFromNothingIsNow(now: int)
    ensures MadeInstant(now, Null, Null, Null, Null, Null, Null) == now
  {
    SetOwnDate(now);
    SetOwnTime(now);
  }

  /** The padded fields of a date and time (as makeFromString passes them) give that date and time. */
  lemma MadeFromFields(now: int, f: DateTime)
    requires ValidDate(f.year, f.month, f.day) && 0 <= f.hour < 24 && 0 <= f.minute < 60 && 0 <= f.second < 60
    ensures FieldsOf(MadeInstant(now, Padded(f.year), Padded(f.month), Padded(f.day), Padded(f.hour), Padded(f.minute), Padded(f.second))) == f
  {
    var dated := Calendar.SetDate(now, f.year, f.month, f.day);
    assert MadeInstant(now, Padded(f.year), Padded(f.month), Padded(f.day), Padded(f.hour), Padded(f.minute), Padded(f.second))
      == Calendar.SetTime(dated, f.hour, f.minute, f.second);
    SetDateFields(now, f.year, f.month, f.day);
    SetTimeFields(dated, f.hour, f.minute, f.second);
  }

  /** makeFromDate: the date set, the time of day of now kept; a year 0 stands for the current year. */
  lemma MadeFromDate(now: int, y: int, m: int, d: int)
    requires ValidDate(if y == 0 then FieldsOf(now).year else y, m, d)
    ensures FieldsOf(MadeInstant(now, Given(y), Given(m), Given(d), Null, Null, Null))
      == FieldsOf(now).(year := if y == 0 then FieldsOf(now).year else y, month := m, day := d)
  {
    var y' := if y == 0 then FieldsOf(now).year else y;
    var dated := Calendar.SetDate(now, y', m, d);
    var g := FieldsOf(dated);
    assert MadeInstant(now, Given(y), Given(m), Given(d), Null, Null, Null) == Calendar.SetTime(dated, g.hour, g.minute, g.second);
    SetOwnTime(dated);
    SetDateFields(now, y', m, d);
  }

  /** makeFromTime: the date of now kept, the time set; an hour 0 stands for the current hour. */
  lemma MadeFromTime(now: int, h: int, i: int, s: int)
    requires 0 <= h < 24 && 0 <= i < 60 && 0 <= s < 60
    ensures FieldsOf(MadeInstant(now, Null, Null, Null, Given(h), Given(i), Given(s)))
      == FieldsOf(now).(hour := if h == 0 then FieldsOf(now).hour else h, minute := i, second := s)
  {
    var h' := Or(Given(h), FieldsOf(now).hour);
    MadeWithoutDate(now, Given(h), Given(i), Given(s));
    assert Or(Given(i), 0) == i && Or(Given(s), 0) == s;
    SetTimeFields(now, h', i, s);
  }

  /** Without date arguments but with an hour, the date of now is kept and the time set, a missing minute or second being 0. */
  lemma MadeWithoutDate(now: int, hour: Arg, minute: Arg, second: Arg)
    requires !hour.Null?
    ensures MadeInstant(now, Null, Null, Null, hour, minute, second)
      == Calendar.SetTime(now, Or(hour, FieldsOf(now).hour), Or(minute, 0), Or(second, 0))
  {
    SetOwnDate(now);
  }

  // ---------------------------------------------------------------- makeFromString

  /**
   * The format makeFromString parses with: the one given, or else the name of the first
   * template of `table` that matches (the table as written is FormatDetector.Templates).
   */
  function ResolvedFormat(table: seq<FormatDetector.Template>, time: string, format: Option<string>): (r: Option<string>)
    ensures format.Some? ==> r == format
    ensures format.None? ==> (r.None? <==> forall j :: 0 <= j < |table| ==> !FormatDetector.Matches(table[j], time))
    ensures format.None? && r.Some? ==>
      exists k :: FormatDetector.WinsAt(table, time, k) && table[k].Name() == r.value
  {
    if format.Some? then format
    else
      FormatDetector.FirstMatchFromNone(table, time, 0);
      FormatDetector.FirstMatchFromSome(table, time, 0);
      FormatDetector.FirstMatchFrom(table, time, 0)
  }

  /** The instant makeFromString makes, given its format table, the current time and the platform parser. */
  function StringInstant(now: int, table: seq<FormatDetector.Template>, time: string, format: Option<string>,
                         parse: (string, string) -> Option<DateTime>): Result<int, DateError> {
    match ResolvedFormat(table, time, format)
    case None => Failure(FormatNotRecognized)
    case Some(fmt) =>
      match parse(fmt, time)
      case None => Failure(ParseFailed)
      case Some(p) =>
        Success(MadeInstant(now, Padded(p.year), Padded(p.month), Padded(p.day), Padded(p.hour), Padded(p.minute), Padded(p.second)))
  }

  /**
   * makeFromString fails for want of a format exactly when none is given and no pattern
   * matches; otherwise it makes the date and time the parser read.
   */
  lemma StringInstantOutcome(now: int, table: seq<FormatDetector.Template>, time: string, format: Option<string>,
                             parse: (string, string) -> Option<DateTime>)
    ensures StringInstant(now, table, time, format, parse) == Failure(FormatNotRecognized) <==>
      format.None? && forall j :: 0 <= j < |table| ==> !FormatDetector.Matches(table[j], time)
    ensures var fmt := ResolvedFormat(table, time, format);
      fmt.Some? && parse(fmt.value, time).Some? ==>
      var p := parse(fmt.value, time).value;
      ValidDate(p.year, p.month, p.day) && 0 <= p.hour < 24 && 0 <= p.minute < 60 && 0 <= p.second < 60 ==>
      StringInstant(now, table, time, format, parse).Success? && FieldsOf(StringInstant(now, table, time, format, parse).value) == p
  {
    var fmt := ResolvedFormat(table, time, format);
    if fmt.Some? && parse(fmt.value, time).Some? {
      var p := parse(fmt.value, time).value;
      if ValidDate(p.year, p.month, p.day) && 0 <= p.hour < 24 && 0 <= p.minute < 60 && 0 <= p.second < 60 {
        MadeFromFields(now, p);
      }
    }
  }

  /**
   * With the table as written, a date written with '-' or '/' separators, with or without a
   * time part, and read back with no format given comes back unchanged, when the parser
   * reads the format it is handed and the text is not a month-first date with a day up to
   * 12 (which reads day-first).
   */
  lemma StringRoundTrip(now: int, order: FormatDetector.Order, sep: char, withTime: bool, f: DateTime,
                        parse: (string, string) -> Option<DateTime>)
    requires FormatDetector.Renderable(f) && (sep == '-' || sep == '/')
    requires order != FormatDetector.MonthDayYear || f.day > 12
    requires parse(FormatDetector.FormatName(order, sep, withTime), FormatDetector.Render(order, sep, withTime, f)) == Some(f)
    ensures var r := StringInstant(now, FormatDetector.Templates, FormatDetector.Render(order, sep, withTime, f), None, parse);
      r.Success? && FieldsOf(r.value) == f
  {
    FormatDetector.DetectsRenderedWithoutDot(order, sep, withTime, f);
    MadeFromFields(now, f);
  }

  /**
   * As written, a year.month.day date with '.' separators and a common year is refused for
   * want of a format, and a day-first or month-first date with '.' separators and a common
   * year that also reads month-first is handed to the parser as `Y.m.d`.
   */
  lemma StringDotAsWritten(now: int, order: FormatDetector.Order, withTime: bool, f: DateTime,
                           parse: (string, string) -> Option<DateTime>)
    requires FormatDetector.Renderable(f) && !IsLeapYear(f.year)
    ensures order == FormatDetector.YearMonthDay ==>
      StringInstant(now, FormatDetector.Templates, FormatDetector.Render(order, '.', withTime, f), None, parse)
        == Failure(FormatNotRecognized)
    ensures order != FormatDetector.YearMonthDay && FormatDetector.ReadsAs(order, FormatDetector.MonthDayYear, f.day) ==>
      var s := FormatDetector.Render(order, '.', withTime, f);
      StringInstant(now, FormatDetector.Templates, s, None, parse) == StringInstant(now, FormatDetector.Templates, s, Some("Y.m.d"), parse)
  {
    if order == FormatDetector.YearMonthDay {
      FormatDetector.DotYmdCommonYearUndetected(withTime, f);
    } else if FormatDetector.ReadsAs(order, FormatDetector.MonthDayYear, f.day) {
      FormatDetector.DotDayFirstReadAsYmd(order, withTime, f);
    }
  }

  /**
   * With every pattern anchored as a whole, a date written in any of the eighteen formats
   * and read back with no format given comes back unchanged, under the same conditions.
   */
  lemma IntendedStringRoundTrip(now: int, order: FormatDetector.Order, sep: char, withTime: bool, f: DateTime,
                                parse: (string, string) -> Option<DateTime>)
    requires FormatDetector.Renderable(f) && FormatDetector.IsSeparator(sep)
    requires order != FormatDetector.MonthDayYear || f.day > 12
    requires parse(FormatDetector.FormatName(order, sep, withTime), FormatDetector.Render(order, sep, withTime, f)) == Some(f)
    ensures var r := StringInstant(now, FormatDetector.IntendedTemplates(), FormatDetector.Render(order, sep, withTime, f), None, parse);
      r.Success? && FieldsOf(r.value) == f
  {
    FormatDetector.IntendedDetectsRendered(order, sep, withTime, f);
    MadeFromFields(now, f);
  }

  // ---------------------------------------------------------------- the class

  class ExopiteDate {
    /** The wall-clock instant, in seconds. */
    var instant: int
    /** 0 is Sunday and 1 Monday; NotFound is the false setWeekStartDay stores for an unknown day name. */
    var weekStartDay: Accessors.WeekStart
    var defaultDateFormat: string

    /** make / new: the current time, the week starting on Sunday. */
    constructor(now: int)
      ensures instant == now && weekStartDay == Accessors.Index(0) && defaultDateFormat == DefaultDateFormat
    {
      instant := now;
      weekStartDay := Accessors.Index(0);
      defaultDateFormat := DefaultDateFormat;
    }

    function Fields(): (f: DateTime)
      reads this
      ensures ValidDate(f.year, f.month, f.day)
    {
      FieldsOf(instant)
    }

    /**
     * getDayOfWeekAsNumeric: the days since the week's first day; a week start past 7
     * can make it negative.
     */
    function DayOfWeekAsNumeric(): (i: int)
      reads this
      ensures -7 < i < 7
      ensures 0 <= Accessors.WeekStartValue(weekStartDay) <= 7 ==>
        0 <= i <= 6 && (Accessors.WeekStartValue(weekStartDay) + i) % 7 == Weekday(DayNumber(instant))
    {
      var i := Accessors.DayOfWeekIndex(Weekday(DayNumber(instant)), weekStartDay);
      if 0 <= Accessors.WeekStartValue(weekStartDay) <= 7 then
        Accessors.DayOfWeekIndexCounts(Weekday(DayNumber(instant)), weekStartDay);
        i
      else i
    }

    /** DateTime::setDate. */
    method SetDate(y: int, m: int, d: int)
      modifies this
      ensures instant == Calendar.SetDate(old(instant), y, m, d)
      ensures weekStartDay == old(weekStartDay) && defaultDateFormat == old(defaultDateFormat)
    {
      instant := Calendar.SetDate(instant, y, m, d);
    }

    /** DateTime::setTime. */
    method SetTime(h: int, i: int, s: int)
      modifies this
      ensures instant == Calendar.SetTime(old(instant), h, i, s)
      ensures weekStartDay == old(weekStartDay) && defaultDateFormat == old(defaultDateFormat)
    {
      instant := Calendar.SetTime(instant, h, i, s);
    }

    /** One case of setDateAttribute. */
    method SetAttribute(field: Accessors.Field, value: int)
      modifies this
      ensures instant == SetField(old(instant), field, value)
      ensures weekStartDay == old(weekStartDay) && defaultDateFormat == old(defaultDateFormat)
    {
      var f := Fields();
      match field {
        case FieldDay => SetDate(f.year, f.month, value);
        case FieldMonth => SetDate(f.year, value, f.day);
        case FieldYear => SetDate(value, f.month, f.day);
        case FieldHour => SetTime(value, f.minute, f.second);
        case FieldMinute => SetTime(f.hour, value, f.second);
        case FieldSecond => SetTime(f.hour, f.minute, value);
      }
    }

    /** setDateAttribute: an unknown attribute is an error and changes nothing. */
    method SetDateAttribute(name: string, value: int) returns (r: Result<(), DateError>)
      modifies this
      ensures Accessors.LookupField(name).None? ==> r == Failure(UnknownAttribute(name)) && instant == old(instant)
      ensures Accessors.LookupField(name).Some? ==>
        r.Success? && instant == SetField(old(instant), Accessors.LookupField(name).value, value)
      ensures weekStartDay == old(weekStartDay) && defaultDateFormat == old(defaultDateFormat)
    {
      match Accessors.LookupField(name) {
        case None =>
          r := Failure(UnknownAttribute(name));
        case Some(field) =>
          SetAttribute(field, value);
          r := Success(());
      }
    }

    /** getDateAttribute: an unknown attribute is an error. */
    function GetDateAttribute(name: string): (r: Result<Value, DateError>)
      reads this
      ensures r.Failure? <==> Accessors.LookupGetAttribute(name).None?
      ensures r.Failure? ==> r.error == UnknownAttribute(name)
      ensures name == "DayOfWeekAsNumeric" ==> r == Success(Count(DayOfWeekAsNumeric()))
    {
      match Accessors.LookupGetAttribute(name)
      case None => Failure(UnknownAttribute(name))
      case Some(a) => Success(AttributeValue(instant, weekStartDay, a))
    }

    /** isDateAttribute: an unknown attribute is an error. */
    function IsDateAttribute(name: string): (r: Result<Value, DateError>)
      reads this
      ensures r.Failure? <==> Accessors.LookupTestAttribute(name).None?
      ensures r.Failure? ==> r.error == UnknownAttribute(name)
      ensures name == "LeapYear" ==> r == Success(Flag(IsLeapYear(Fields().year)))
    {
      match Accessors.LookupTestAttribute(name)
      case None => Failure(UnknownAttribute(name))
      case Some(a) => Success(TestValue(instant, a))
    }

    /**
     * `__call`: getX reads attribute X, setX sets it to the first argument (null, counted
     * as 0, when there is none) and returns the object, isX tests it; any other name is an
     * error. Only a setter changes the object.
     */
    method Call(name: string, argument: Option<int>) returns (r: Result<Answer, DateError>)
      modifies this
      ensures Accessors.ParseCall(name).NotHandled? ==> r == Failure(UnhandledCall(name))
      ensures Accessors.ParseCall(name).Getter? ==> r == Answered(old(GetDateAttribute(Accessors.ParseCall(name).attribute)))
      ensures Accessors.ParseCall(name).Tester? ==> r == Answered(old(IsDateAttribute(Accessors.ParseCall(name).attribute)))
      ensures Accessors.ParseCall(name).Setter? && Accessors.LookupField(Accessors.ParseCall(name).attribute).Some? ==>
        r == Success(Chained)
        && instant == SetField(old(instant), Accessors.LookupField(Accessors.ParseCall(name).attribute).value,
                               if argument.Some? then argument.value else 0)
      ensures Accessors.ParseCall(name).Setter? && Accessors.LookupField(Accessors.ParseCall(name).attribute).None? ==>
        r == Failure(UnknownAttribute(Accessors.ParseCall(name).attribute))
      ensures !(Accessors.ParseCall(name).Setter? && Accessors.LookupField(Accessors.ParseCall(name).attribute).Some?) ==> instant == old(instant)
      ensures weekStartDay == old(weekStartDay) && defaultDateFormat == old(defaultDateFormat)
    {
      match Accessors.ParseCall(name) {
        case NotHandled =>
          r := Failure(UnhandledCall(name));
        case Tester(a) =>
          r := Answered(IsDateAttribute(a));
        case Setter(a) =>
          var outcome := SetDateAttribute(a, if argument.Some? then argument.value else 0);
          r := if outcome.Success? then Success(Chained) else Failure(outcome.error);
        case Getter(a) =>
          r := Answered(GetDateAttribute(a));
      }
    }

    /** startOfDay: midnight of the same day. */
    method StartOfDay()
      modifies this
      ensures instant == DayNumber(old(instant)) * 86400
      ensures weekStartDay == old(weekStartDay) && defaultDateFormat == old(defaultDateFormat)
    {
      SetAttribute(Accessors.FieldHour, 0);
      SetAttribute(Accessors.FieldMinute, 0);
      SetAttribute(Accessors.FieldSecond, 0);
      SetTimeInSteps(old(instant), 0, 0, 0);
    }

    /** endOfDay: the last second of the same day. */
    method EndOfDay()
      modifies this
      ensures instant == DayNumber(old(instant)) * 86400 + 86400 - 1
      ensures weekStartDay == old(weekStartDay) && defaultDateFormat == old(defaultDateFormat)
    {
      SetAttribute(Accessors.FieldHour, 23);
      SetAttribute(Accessors.FieldMinute, 59);
      SetAttribute(Accessors.FieldSecond, 59);
      SetTimeInSteps(old(instant), 23, 59, 59);
    }

    /** startOfMonth: midnight of the first of the month. */
    method StartOfMonth()
      modifies this
      ensures Fields() == old(Fields()).(day := 1, hour := 0, minute := 0, second := 0)
      ensures weekStartDay == old(weekStartDay) && defaultDateFormat == old(defaultDateFormat)
    {
      SetAttribute(Accessors.FieldDay, 1);
      SetFieldChangesOnlyIt(old(instant), Accessors.FieldDay, 1);
      MidnightFields(instant);
      StartOfDay();
    }

    /** endOfMonth: the last second of the last day of the month. */
    method EndOfMonth()
      modifies this
      ensures Fields() == old(Fields()).(day := Calendar.DaysInMonth(old(Fields()).year, old(Fields()).month),
                                         hour := 23, minute := 59, second := 59)
      ensures weekStartDay == old(weekStartDay) && defaultDateFormat == old(defaultDateFormat)
    {
      var f := Fields();
      SetAttribute(Accessors.FieldDay, Calendar.DaysInMonth(f.year, f.month));
      SetFieldChangesOnlyIt(old(instant), Accessors.FieldDay, Calendar.DaysInMonth(f.year, f.month));
      LastSecondFields(instant);
      EndOfDay();
    }

    /** modifyFromInterval: add the interval, or subtract it when inverted. */
    method ModifyFromInterval(iv: Cascade.Interval)
      modifies this
      ensures instant == ApplyInterval(old(instant), iv)
      ensures weekStartDay == old(weekStartDay) && defaultDateFormat == old(defaultDateFormat)
    {
      instant := ApplyInterval(instant, iv);
    }

    /**
     * modifyYears ... modifySeconds: a fractional amount cascades to a finer unit and the
     * whole amount is applied as one interval. A negative amount, or a fraction of a
     * second, makes an interval text DateInterval refuses: an error, and nothing changes.
     */
    method Modify(unit: Cascade.Unit, amount: real, invert: bool) returns (r: Result<(), DateError>)
      modifies this
      ensures r.Failure? <==> amount < 0.0 || Cascade.Modification(unit, amount, invert).Unsupported?
      ensures r.Failure? ==> r.error == InvalidInterval && instant == old(instant)
      ensures r.Success? ==> instant == ApplyInterval(old(instant), Cascade.Modification(unit, amount, invert).interval)
      ensures weekStartDay == old(weekStartDay) && defaultDateFormat == old(defaultDateFormat)
    {
      if amount < 0.0 {
        return Failure(InvalidInterval);
      }
      match Cascade.Modification(unit, amount, invert) {
        case Unsupported =>
          r := Failure(InvalidInterval);
        case Apply(iv) =>
          ModifyFromInterval(iv);
          r := Success(());
      }
    }

    /** addDays, addMonths, ..., addSeconds, and addOneDay ... addOneSecond with an amount of 1. */
    method Add(unit: Cascade.Unit, amount: real) returns (r: Result<(), DateError>)
      modifies this
      ensures r.Failure? <==> amount < 0.0 || Cascade.Modification(unit, amount, false).Unsupported?
      ensures r.Failure? ==> instant == old(instant)
      ensures r.Success? ==> instant == ApplyInterval(old(instant), Cascade.Modification(unit, amount, false).interval)
      ensures weekStartDay == old(weekStartDay) && defaultDateFormat == old(defaultDateFormat)
    {
      r := Modify(unit, amount, false);
    }

    /** minusDays, minusMonths, ..., minusSeconds, and minusOneDay ... minusOneSecond with an amount of 1. */
    method Minus(unit: Cascade.Unit, amount: real) returns (r: Result<(), DateError>)
      modifies this
      ensures r.Failure? <==> amount < 0.0 || Cascade.Modification(unit, amount, true).Unsupported?
      ensures r.Failure? ==> instant == old(instant)
      ensures r.Success? ==> instant == ApplyInterval(old(instant), Cascade.Modification(unit, amount, true).interval)
      ensures weekStartDay == old(weekStartDay) && defaultDateFormat == old(defaultDateFormat)
    {
      r := Modify(unit, amount, true);
    }

    /**
     * startOfWeek: back to midnight of the week's first day. A negative day-of-week index
     * (a week start past 7) makes an interval DateInterval refuses.
     */
    method StartOfWeek() returns (r: Result<(), DateError>)
      modifies this
      ensures r.Failure? <==> old(DayOfWeekAsNumeric()) < 0
      ensures r.Failure? ==> instant == old(instant)
      ensures r.Success? ==> instant == (DayNumber(old(instant)) - old(DayOfWeekAsNumeric())) * 86400
      ensures r.Success? ==> DayOfWeekAsNumeric() == 0
      ensures weekStartDay == old(weekStartDay) && defaultDateFormat == old(defaultDateFormat)
    {
      var k := DayOfWeekAsNumeric();
      ghost var z := DayNumber(instant);
      BackToWeekStart(z, weekStartDay);
      InstantOfDay(z - k, 0);
      if k >= 0 {
        WholeDaysApplied(instant, k, true);
      }
      r := Minus(Cascade.Day, k as real);
      if r.Success? {
        StartOfDay();
      }
    }

    /**
     * endOfWeek: on to the last second of the week's seventh day; for a week start from
     * 0 to 7 the day-of-week index is then 6.
     */
    method EndOfWeek()
      modifies this
      ensures instant == (DayNumber(old(instant)) + 6 - old(DayOfWeekAsNumeric())) * 86400 + 86400 - 1
      ensures 0 <= Accessors.WeekStartValue(weekStartDay) <= 7 ==> DayOfWeekAsNumeric() == 6
      ensures weekStartDay == old(weekStartDay) && defaultDateFormat == old(defaultDateFormat)
    {
      var k := DayOfWeekAsNumeric();
      ghost var z := DayNumber(instant);
      WholeDaysApplied(instant, 6 - k, false);
      InstantOfDay(z + 6 - k, 86400 - 1);
      if 0 <= Accessors.WeekStartValue(weekStartDay) <= 7 {
        OnToWeekEnd(z, weekStartDay);
      }
      var r := Add(Cascade.Day, (6 - k) as real);
      EndOfDay();
    }

    /** setWeekStartDay. */
    method SetWeekStartDay(day: Accessors.WeekStartArgument)
      modifies this
      ensures weekStartDay == Accessors.WeekStartOf(day)
      ensures instant == old(instant) && defaultDateFormat == old(defaultDateFormat)
    {
      weekStartDay := Accessors.WeekStartOf(day);
    }

    /** setDefaultDateFormat. */
    method SetDefaultDateFormat(format: string)
      modifies this
      ensures defaultDateFormat == format
      ensures instant == old(instant) && weekStartDay == old(weekStartDay)
    {
      defaultDateFormat := format;
    }

    /** between: strictly after the start and strictly before the end. */
    predicate Between(start: ExopiteDate, end: ExopiteDate): (b: bool)
      reads this, start, end
      ensures b ==> start.instant < end.instant
      ensures b ==> this != start && this != end
    {
      start.instant < instant && instant < end.instant
    }

    /** betweenEqualTo: between, or on one of the ends of a range that is not reversed. */
    predicate BetweenEqualTo(start: ExopiteDate, end: ExopiteDate): (b: bool)
      reads this, start, end
      ensures b <==> (Between(start, end)
                      || (start.instant <= end.instant && (instant == start.instant || instant == end.instant)))
    {
      start.instant <= instant && instant <= end.instant
    }

    /** getRelativeDate against another date. */
    method GetRelativeDate(compare: ExopiteDate) returns (text: string)
      ensures text == Differences.RelativeText(Differences.RelativeOf(instant, compare.instant))
    {
      text := Differences.RelativeDate(instant, compare.instant);
    }
  }

  /** makeFromDateTime: a new date at now, the date set, then the time. */
  method MakeFromDateTime(now: int, year: Arg, month: Arg, day: Arg, hour: Arg, minute: Arg, second: Arg)
    returns (date: ExopiteDate)
    ensures fresh(date)
    ensures date.instant == MadeInstant(now, year, month, day, hour, minute, second)
    ensures date.weekStartDay == Accessors.Index(0) && date.defaultDateFormat == DefaultDateFormat
  {
    date := new ExopiteDate(now);
    var f := date.Fields();
    date.SetDate(Or(year, f.year), Or(month, f.month), Or(day, f.day));
    var g := date.Fields();
    var minute', second' := minute, second;
    if hour.Null? {
      minute' := Given(Or(minute, g.minute));
      second' := Given(Or(second, g.second));
    } else {
      minute' := Given(Or(minute, 0));
      second' := Given(Or(second, 0));
    }
    date.SetTime(Or(hour, g.hour), minute'.n, second'.n);
  }

  /** makeFromDate: makeFromDateTime with no time. */
  method MakeFromDate(now: int, year: Arg, month: Arg, day: Arg) returns (date: ExopiteDate)
    ensures fresh(date)
    ensures date.instant == MadeInstant(now, year, month, day, Null, Null, Null)
    ensures date.weekStartDay == Accessors.Index(0) && date.defaultDateFormat == DefaultDateFormat
  {
    date := MakeFromDateTime(now, year, month, day, Null, Null, Null);
  }

  /** makeFromTime: makeFromDateTime with no date. */
  method MakeFromTime(now: int, hour: Arg, minute: Arg, second: Arg) returns (date: ExopiteDate)
    ensures fresh(date)
    ensures date.instant == MadeInstant(now, Null, Null, Null, hour, minute, second)
    ensures date.weekStartDay == Accessors.Index(0) && date.defaultDateFormat == DefaultDateFormat
  {
    date := MakeFromDateTime(now, Null, Null, Null, hour, minute, second);
  }

  /**
   * makeFromString: with no format, try the templates of `table` in order (the table as
   * written is FormatDetector.Templates); parse with the format; make
   * the date from the parsed fields.
   */
  method MakeFromString(now: int, table: seq<FormatDetector.Template>, time: string, format: Option<string>,
                        parse: (string, string) -> Option<DateTime>)
    returns (r: Result<ExopiteDate, DateError>)
    ensures r.Failure? <==> StringInstant(now, table, time, format, parse).Failure?
    ensures r.Failure? ==> r.error == StringInstant(now, table, time, format, parse).error
    ensures r.Success? ==> fresh(r.value) && r.value.instant == StringInstant(now, table, time, format, parse).value
  {
    var fmt := format;
    if fmt.None? {
      fmt := FormatDetector.Detect(table, time);
    }
    if fmt.None? {
      return Failure(FormatNotRecognized);
    }
    var parsed := parse(fmt.value, time);
    if parsed.None? {
      return Failure(ParseFailed);
    }
    var p := parsed.value;
    var date := MakeFromDateTime(now, Padded(p.year), Padded(p.month), Padded(p.day), Padded(p.hour), Padded(p.minute), Padded(p.second));
    r := Success(date);
  }
}
