/**
 * The proleptic Gregorian calendar that the date-time primitive uses: leap years, month
 * lengths, and the conversion between a civil date and a day number (days since
 * 1970-01-01), with both round trips proved.
 *
 * The day number is split as in a 400-year era that starts on 1 March, so that the leap
 * day is the last day of its year: an era has three centuries of 36524 days and a fourth
 * of 36525, and a century is made of four-year cycles of 1461 days (the last one shorter
 * by a day except in the era's fourth century).
 */
module Calendar {

  // A day has 86400 seconds and an era 146097 days; 1970-01-01 is day 719468 counted
  // from 0000-03-01, where the era scheme starts.

  /** The Gregorian rule: divisible by 4, and not by 100 unless also by 400. */
  predicate IsLeapYear(y: int) {
    y % 4 == 0 && (y % 100 != 0 || y % 400 == 0)
  }

  /** Days in month m (1 = January) of a year that is or is not a leap year. */
  function MonthLength(m: int, leap: bool): (n: int)
    requires 1 <= m <= 12
    ensures 28 <= n <= 31
  {
    if m == 2 then (if leap then 29 else 28)
    else if m == 4 || m == 6 || m == 9 || m == 11 then 30
    else 31
  }

  /** Thirty days hath September, April, June and November; February has 29 in a leap year. */
  lemma MonthLengths(m: int, leap: bool)
    requires 1 <= m <= 12
    ensures MonthLength(m, leap) == 31 <==> m == 1 || m == 3 || m == 5 || m == 7 || m == 8 || m == 10 || m == 12
    ensures MonthLength(m, leap) == 30 <==> m == 4 || m == 6 || m == 9 || m == 11
    ensures m == 2 ==> (MonthLength(m, leap) == 29 <==> leap)
  {
  }

  /** Days in month m of year y: the number the `t` format token renders. */
  function DaysInMonth(y: int, m: int): (n: int)
    requires 1 <= m <= 12
    ensures 28 <= n <= 31
    ensures n == 29 <==> m == 2 && IsLeapYear(y)
  {
    MonthLength(m, IsLeapYear(y))
  }

  predicate ValidDate(y: int, m: int, d: int) {
    1 <= m <= 12 && 1 <= d <= DaysInMonth(y, m)
  }

  datatype Date = Date(year: int, month: int, day: int)

  // ---------------------------------------------------------------- March-based years

  /** Month index counted from March (March = 0, ..., February = 11). */
  function MarchMonth(m: int): (mp: int)
    requires 1 <= m <= 12
    ensures 0 <= mp <= 11
  {
    if m > 2 then m - 3 else m + 9
  }

  /** Days of a March-based year before its month mp. */
  function DaysBeforeMarchMonth(mp: int): int {
    (153 * mp + 2) / 5
  }

  /** Whether March-based year yoe of an era holds a 29 February (civil year yoe + 1). */
  predicate EraYearIsLong(yoe: int) {
    (yoe + 1) % 4 == 0 && ((yoe + 1) % 100 != 0 || yoe == 399)
  }

  function EraYearLength(yoe: int): int {
    if EraYearIsLong(yoe) then 366 else 365
  }

  /** Days of the era before its March-based year yoe. */
  function DaysBeforeEraYear(yoe: int): int {
    365 * yoe + yoe / 4 - yoe / 100
  }

  /** Whole centuries of 36524 days before day doe of the era; the fourth century takes the era's last day. */
  function Centuries(doe: int): (c: int)
    ensures 0 <= doe < 146097 ==>
      0 <= c <= 3 && 0 <= doe - 36524 * c <= 36524 && (c < 3 ==> doe - 36524 * c < 36524)
  {
    if doe / 36524 < 3 then doe / 36524 else 3
  }

  /** Whole years of 365 days before day r of a four-year cycle; the fourth year takes the cycle's last day. */
  function CycleYears(r: int): (y: int)
    ensures 0 <= r < 1461 ==> 0 <= y <= 3 && 0 <= r - 365 * y <= 365 && (y < 3 ==> r - 365 * y < 365)
  {
    if r / 365 < 3 then r / 365 else 3
  }

  /** Splits a day of the era into the March-based year and the day within that year. */
  function SplitEra(doe: int): (int, int) {
    var c := Centuries(doe);
    var r := doe - 36524 * c;
    var y1 := CycleYears(r % 1461);
    (100 * c + 4 * (r / 1461) + y1, r % 1461 - 365 * y1)
  }

  /** Splits a day of a March-based year into the month (from March) and the day of month. */
  function SplitYear(doy: int): (int, int) {
    var mp := (5 * doy + 2) / 153;
    (mp, doy - DaysBeforeMarchMonth(mp) + 1)
  }

  // ---------------------------------------------------------------- the conversions

  /**
   * Days since 1970-01-01 of the date (y, m, d). A day outside the month is counted on
   * linearly, so the 32nd of January is the 1st of February.
   */
  function DaysFromCivil(y: int, m: int, d: int): int
    requires 1 <= m <= 12
  {
    var y' := if m <= 2 then y - 1 else y;
    DaysFromEraDate(y' / 400, y' % 400, MarchMonth(m), d)
  }

  /** Days since 1970-01-01 of day d of month mp (from March) of year yoe of an era. */
  function DaysFromEraDate(era: int, yoe: int, mp: int, d: int): int {
    era * 146097 + DaysBeforeEraYear(yoe) + DaysBeforeMarchMonth(mp) + d - 1 - 719468
  }

  /** The civil date of a day number. */
  function CivilFromDays(z: int): Date {
    var z' := z + 719468;
    DateInEra(z' / 146097, z' % 146097)
  }

  /** The civil date of day doe of an era. */
  function DateInEra(era: int, doe: int): Date {
    var (yoe, doy) := SplitEra(doe);
    DateInEraYear(era * 400 + yoe, doy)
  }

  /** The civil date of day doy of the March-based year that starts in civil year y. */
  function DateInEraYear(y: int, doy: int): Date {
    var (mp, d) := SplitYear(doy);
    var m := if mp < 10 then mp + 3 else mp - 9;
    Date(y + (if m <= 2 then 1 else 0), m, d)
  }

  /** Day of the week of a day number, 0 = Sunday: the `w` format token. 1970-01-01 was a Thursday. */
  function Weekday(z: int): (w: int)
    ensures 0 <= w < 7
  {
    (z + 4) % 7
  }

  // ---------------------------------------------------------------- the proofs

  /** A non-zero multiple of k is at least k away from zero. */
  lemma {:induction false} MultipleAwayFromZero(k: int, n: int)
    requires k > 0
    ensures n >= 1 ==> k * n >= k
    ensures n <= -1 ==> k * n <= -k
    decreases if n < 0 then -n else n
  {
    if n > 1 {
      MultipleAwayFromZero(k, n - 1);
      assert k * n == k * (n - 1) + k;
    } else if n < -1 {
      MultipleAwayFromZero(k, n + 1);
      assert k * n == k * (n + 1) - k;
    }
  }

  /** Quotient and remainder are determined by x == k * q + r with 0 <= r < k. */
  lemma DivModUnique(x: int, k: int, q: int, r: int)
    requires k > 0 && x == k * q + r && 0 <= r < k
    ensures x / k == q && x % k == r
  {
    var q', r' := x / k, x % k;
    assert k * q - k * q' == k * (q - q') == r' - r;
    MultipleAwayFromZero(k, q - q');
  }

  /**
   * A year of the era as centuries c, four-year cycles q and years y1: the days before it,
   * and when it is long.
   */
  lemma EraYearParts(yoe: int)
    requires 0 <= yoe < 400
    ensures var c, q, y1 := yoe / 100, yoe % 100 / 4, yoe % 100 % 4;
      yoe == 100 * c + 4 * q + y1 && 0 <= c < 4 && 0 <= q < 25 && 0 <= y1 < 4
      && DaysBeforeEraYear(yoe) == 36524 * c + 1461 * q + 365 * y1
      && (EraYearIsLong(yoe) <==> y1 == 3 && (q < 24 || c == 3))
  {
    var c, q, y1 := yoe / 100, yoe % 100 / 4, yoe % 100 % 4;
    assert yoe == 100 * c + 4 * q + y1;
    DivModUnique(yoe, 4, 25 * c + q, y1);
    if y1 < 3 {
      DivModUnique(yoe + 1, 4, 25 * c + q, y1 + 1);
    } else if q == 24 && c < 3 {
      DivModUnique(yoe + 1, 100, c + 1, 0);
    } else {
      DivModUnique(yoe + 1, 4, 25 * c + q + 1, 0);
      if c < 3 {
        DivModUnique(yoe + 1, 100, c, 4 * q + 4);
      }
    }
  }

  lemma CenturiesOf(doe: int, c: int, r: int)
    requires doe == 36524 * c + r
    requires 0 <= c <= 3 && 0 <= r && (r < 36524 || (c == 3 && r == 36524))
    ensures Centuries(doe) == c
  {
    if r < 36524 {
      DivModUnique(36524 * c + r, 36524, c, r);
    } else {
      DivModUnique(36524 * c + r, 36524, 4, 0);
    }
  }

  lemma CycleYearsOf(r: int, y: int, d: int)
    requires r == 365 * y + d
    requires 0 <= y <= 3 && 0 <= d && (d < 365 || (y == 3 && d == 365))
    ensures CycleYears(r) == y
  {
    if d < 365 {
      DivModUnique(365 * y + d, 365, y, d);
    } else {
      DivModUnique(365 * y + d, 365, 4, 0);
    }
  }

  lemma SplitEraOfYearStart(yoe: int, doy: int)
    requires 0 <= yoe < 400 && 0 <= doy < EraYearLength(yoe)
    ensures SplitEra(DaysBeforeEraYear(yoe) + doy) == (yoe, doy)
  {
    var doe := DaysBeforeEraYear(yoe) + doy;
    assert SplitEra(doe) == (yoe, doy) by {
      EraYearParts(yoe);
      var c, q, y1 := yoe / 100, yoe % 100 / 4, yoe % 100 % 4;
      var r := 1461 * q + 365 * y1 + doy;
      CenturiesOf(doe, c, r);
      DivModUnique(r, 1461, q, 365 * y1 + doy);
      CycleYearsOf(r % 1461, y1, doy);
      SplitEraOf(doe, yoe, doy, c, q, y1, r);
    }
  }

  /** SplitEra, once the centuries, the four-year cycles and the years are known. */
  lemma SplitEraOf(doe: int, yoe: int, doy: int, c: int, q: int, y1: int, r: int)
    requires Centuries(doe) == c && doe - 36524 * c == r && r / 1461 == q
    requires r % 1461 == 365 * y1 + doy && CycleYears(r % 1461) == y1
    requires yoe == 100 * c + 4 * q + y1
    ensures SplitEra(doe) == (yoe, doy)
  {
  }

  /** Centuries, four-year cycles and years put together as a year of the era, and taken apart again. */
  lemma EraYearOfParts(c: int, q: int, y1: int)
    requires 0 <= c <= 3 && 0 <= q <= 24 && 0 <= y1 <= 3
    ensures var yoe := 100 * c + 4 * q + y1;
      yoe / 100 == c && yoe % 100 / 4 == q && yoe % 100 % 4 == y1
  {
    DivModUnique(100 * c + 4 * q + y1, 100, c, 4 * q + y1);
    DivModUnique(4 * q + y1, 4, q, y1);
  }

  /** SplitEra assembled from its century, four-year cycle and year-in-cycle parts. */
  lemma SplitEraOfParts(doe: int, c: int, q: int, r2: int, y1: int)
    requires c == Centuries(doe) && q == (doe - 36524 * c) / 1461 && r2 == (doe - 36524 * c) % 1461
    requires y1 == CycleYears(r2)
    ensures SplitEra(doe) == (100 * c + 4 * q + y1, r2 - 365 * y1)
  {
  }

  /** The centuries, four-year cycles and years that SplitEra counts off a day of the era. */
  lemma SplitEraCounts(doe: int)
    requires 0 <= doe < 146097
    ensures var yoe, doy := SplitEra(doe).0, SplitEra(doe).1;
      0 <= yoe < 400 && 0 <= doy <= 365
      && doe == 36524 * (yoe / 100) + 1461 * (yoe % 100 / 4) + 365 * (yoe % 100 % 4) + doy
      && (doy == 365 ==> yoe % 100 % 4 == 3 && (yoe % 100 / 4 < 24 || yoe / 100 == 3))
  {
    var c := Centuries(doe);
    var r := doe - 36524 * c;
    var q, r2 := r / 1461, r % 1461;
    var y1 := CycleYears(r2);
    SplitEraOfParts(doe, c, q, r2, y1);
    assert r == 1461 * q + r2 && 0 <= r2 < 1461 && 0 <= q <= 24;
    EraYearOfParts(c, q, y1);
    if r2 - 365 * y1 == 365 {
      assert y1 == 3 && r2 == 1460;
      if c < 3 {
        assert 1461 * q < 1461 * 24;
      }
    }
  }


  lemma SplitEraBounds(doe: int)
    requires 0 <= doe < 146097
    ensures var (yoe, doy) := SplitEra(doe);
      0 <= yoe < 400 && 0 <= doy < EraYearLength(yoe) && DaysBeforeEraYear(yoe) + doy == doe
  {
    SplitEraCounts(doe);
    var (yoe, doy) := SplitEra(doe);
    EraYearParts(yoe);
  }

  /** Days of a March-based year before each of its months. */
  lemma MarchMonthStarts(mp: int)
    requires 0 <= mp <= 11
    ensures DaysBeforeMarchMonth(mp) == [0, 31, 61, 92, 122, 153, 184, 214, 245, 275, 306, 337][mp]
  {
    var b := [0, 31, 61, 92, 122, 153, 184, 214, 245, 275, 306, 337][mp];
    DivModUnique(153 * mp + 2, 5, b, 153 * mp + 2 - 5 * b);
  }

  lemma SplitYearOfMonthStart(mp: int, d: int, long: bool)
    requires 0 <= mp <= 11
    requires 1 <= d <= MonthLength(if mp < 10 then mp + 3 else mp - 9, long)
    ensures 0 <= DaysBeforeMarchMonth(mp) + d - 1 < (if long then 366 else 365)
    ensures SplitYear(DaysBeforeMarchMonth(mp) + d - 1) == (mp, d)
  {
    MarchMonthStarts(mp);
    var doy := DaysBeforeMarchMonth(mp) + d - 1;
    DivModUnique(5 * doy + 2, 153, mp, 5 * doy + 2 - 153 * mp);
  }

  lemma SplitYearBounds(doy: int, long: bool)
    requires 0 <= doy < (if long then 366 else 365)
    ensures var (mp, d) := SplitYear(doy);
      0 <= mp <= 11 && 1 <= d <= MonthLength(if mp < 10 then mp + 3 else mp - 9, long)
      && DaysBeforeMarchMonth(mp) + d - 1 == doy
  {
    var mp := (5 * doy + 2) / 153;
    assert 153 * mp <= 5 * doy + 2 < 153 * mp + 153;
    MarchMonthStarts(mp);
  }

  lemma EraYearLeap(era: int, yoe: int)
    requires 0 <= yoe < 400
    ensures EraYearIsLong(yoe) <==> IsLeapYear(era * 400 + yoe + 1)
  {
    var y, a := era * 400 + yoe + 1, yoe + 1;
    DivModUnique(y, 4, 100 * era + a / 4, a % 4);
    DivModUnique(y, 100, 4 * era + a / 100, a % 100);
    DivModUnique(y, 400, era + a / 400, a % 400);
  }

  lemma EraYearWithinEra(yoe: int)
    requires 0 <= yoe < 400
    ensures 0 <= DaysBeforeEraYear(yoe)
    ensures DaysBeforeEraYear(yoe) + EraYearLength(yoe) <= 146097
  {
    EraYearParts(yoe);
  }

  lemma DateInEraOfSplit(era: int, doe: int, yoe: int, doy: int)
    requires SplitEra(doe) == (yoe, doy)
    ensures DateInEra(era, doe) == DateInEraYear(era * 400 + yoe, doy)
  {
  }

  lemma DateInEraYearOfSplit(y: int, doy: int, mp: int, d: int)
    requires SplitYear(doy) == (mp, d)
    ensures var m := if mp < 10 then mp + 3 else mp - 9;
      DateInEraYear(y, doy) == Date(y + (if m <= 2 then 1 else 0), m, d)
  {
  }

  lemma CivilFromEraDay(z: int, era: int, doe: int)
    requires 0 <= doe < 146097 && z + 719468 == era * 146097 + doe
    ensures CivilFromDays(z) == DateInEra(era, doe)
  {
    assert (z + 719468) / 146097 == era && (z + 719468) % 146097 == doe;
  }

  /** Every day number names a valid civil date, and that date converts back to it. */
  lemma {:induction false} DaysCivilRoundTrip(z: int)
    ensures var dt := CivilFromDays(z);
      ValidDate(dt.year, dt.month, dt.day) && DaysFromCivil(dt.year, dt.month, dt.day) == z
  {
    var z' := z + 719468;
    var era := z' / 146097;
    var doe := z' % 146097;
    assert CivilFromDays(z) == DateInEra(era, doe);
    SplitEraBounds(doe);
    var (yoe, doy) := SplitEra(doe);
    assert DateInEra(era, doe) == DateInEraYear(era * 400 + yoe, doy);
    var long := EraYearIsLong(yoe);
    SplitYearBounds(doy, long);
    var (mp, d) := SplitYear(doy);
    var m := if mp < 10 then mp + 3 else mp - 9;
    var y := era * 400 + yoe + (if m <= 2 then 1 else 0);
    assert CivilFromDays(z) == Date(y, m, d);
    EraYearLeap(era, yoe);
    assert MonthLength(m, long) == DaysInMonth(y, m);
    var y' := if m <= 2 then y - 1 else y;
    assert y' / 400 == era && y' % 400 == yoe;
    assert MarchMonth(m) == mp;
    assert DaysFromCivil(y, m, d) == DaysFromEraDate(era, yoe, mp, d);
  }

  /** A valid civil date converts to a day number that converts back to the same date. */
  lemma CivilDaysRoundTrip(y: int, m: int, d: int)
    requires ValidDate(y, m, d)
    ensures CivilFromDays(DaysFromCivil(y, m, d)) == Date(y, m, d)
  {
    var y' := if m <= 2 then y - 1 else y;
    var era, yoe := y' / 400, y' % 400;
    var mp := MarchMonth(m);
    var long := EraYearIsLong(yoe);
    assert d <= MonthLength(m, long) by {
      if m == 2 {
        EraYearLeap(era, yoe);
        assert era * 400 + yoe + 1 == y;
      }
    }
    var doy := DaysBeforeMarchMonth(mp) + d - 1;
    SplitYearOfMonthStart(mp, d, long);
    var doe := DaysBeforeEraYear(yoe) + doy;
    assert 0 <= doe < 146097 by {
      EraYearWithinEra(yoe);
    }
    var z := DaysFromCivil(y, m, d);
    calc {
      CivilFromDays(z);
    == { CivilFromEraDay(z, era, doe); }
      DateInEra(era, doe);
    == { SplitEraOfYearStart(yoe, doy); DateInEraOfSplit(era, doe, yoe, doy); }
      DateInEraYear(era * 400 + yoe, doy);
    == { DateInEraYearOfSplit(era * 400 + yoe, doy, mp, d); }
      Date(y, m, d);
    }
  }

  // ---------------------------------------------------------------- date and time of an instant

  /** The fields of a wall-clock date and time. */
  datatype DateTime = DateTime(year: int, month: int, day: int, hour: int, minute: int, second: int)

  /** Days since 1970-01-01 of the day holding the wall-clock instant t (seconds). */
  function DayNumber(t: int): int {
    t / 86400
  }

  function SecondOfDay(t: int): (s: int)
    ensures 0 <= s < 86400
  {
    t % 86400
  }

  /** The date and time the primitive reports for the wall-clock instant t. */
  function FieldsOf(t: int): (f: DateTime)
    ensures ValidDate(f.year, f.month, f.day)
    ensures 0 <= f.hour < 24 && 0 <= f.minute < 60 && 0 <= f.second < 60
  {
    DaysCivilRoundTrip(DayNumber(t));
    At(CivilFromDays(DayNumber(t)), SecondOfDay(t))
  }

  /** The date dt at second sod of its day. */
  function At(dt: Date, sod: int): (f: DateTime)
    requires 0 <= sod < 86400
    ensures f.year == dt.year && f.month == dt.month && f.day == dt.day
    ensures 0 <= f.hour < 24 && 0 <= f.minute < 60 && 0 <= f.second < 60
    ensures sod == 3600 * f.hour + 60 * f.minute + f.second
  {
    DateTime(dt.year, dt.month, dt.day, sod / 3600, sod % 3600 / 60, sod % 60)
  }

  /** The year and month that a month number outside 1..12 rolls over to. */
  function NormalizeMonth(y: int, m: int): (r: (int, int))
    ensures 1 <= r.1 <= 12
    ensures 12 * r.0 + r.1 == 12 * y + m
  {
    (y + (m - 1) / 12, (m - 1) % 12 + 1)
  }

  /**
   * The instant with the date set to (y, m, d) and the time of day kept: a month outside
   * 1..12 rolls over into the year, a day outside the month rolls over into the next or
   * previous months.
   */
  function SetDate(t: int, y: int, m: int, d: int): int {
    var (y', m') := NormalizeMonth(y, m);
    DaysFromCivil(y', m', d) * 86400 + SecondOfDay(t)
  }

  /** The instant with the time of day set to h:i:s on the same day; values out of range roll over. */
  function SetTime(t: int, h: int, i: int, s: int): int {
    DayNumber(t) * 86400 + 3600 * h + 60 * i + s
  }

  /** A month in 1..12 does not roll over. */
  lemma NormalizeMonthInRange(y: int, m: int)
    requires 1 <= m <= 12
    ensures NormalizeMonth(y, m) == (y, m)
  {
    DivModUnique(m - 1, 12, 0, m - 1);
  }

  /** SetDate with a month in 1..12: the day number of the date, at the same second of the day. */
  lemma SetDateInRange(t: int, y: int, m: int, d: int)
    requires 1 <= m <= 12
    ensures SetDate(t, y, m, d) == DaysFromCivil(y, m, d) * 86400 + SecondOfDay(t)
  {
    NormalizeMonthInRange(y, m);
  }

  lemma InstantOfDay(z: int, sod: int)
    requires 0 <= sod < 86400
    ensures DayNumber(z * 86400 + sod) == z
    ensures SecondOfDay(z * 86400 + sod) == sod
  {
  }

  /** Setting a valid date keeps the time of day and reads back as that date. */
  lemma SetDateFields(t: int, y: int, m: int, d: int)
    requires ValidDate(y, m, d)
    ensures FieldsOf(SetDate(t, y, m, d))
      == FieldsOf(t).(year := y, month := m, day := d)
  {
    var z, sod := DaysFromCivil(y, m, d), SecondOfDay(t);
    SetDateInRange(t, y, m, d);
    calc {
      FieldsOf(SetDate(t, y, m, d));
    == { FieldsOfDay(SetDate(t, y, m, d), z, sod); }
      At(CivilFromDays(z), sod);
    == { CivilDaysRoundTrip(y, m, d); }
      At(Date(y, m, d), sod);
    == { FieldsOfDay(t, DayNumber(t), sod); }
      FieldsOf(t).(year := y, month := m, day := d);
    }
  }

  /** The fields of the instant at second sod of day z. */
  lemma FieldsOfDay(t: int, z: int, sod: int)
    requires 0 <= sod < 86400 && t == z * 86400 + sod
    ensures FieldsOf(t) == At(CivilFromDays(z), sod)
  {
    InstantOfDay(z, sod);
  }

  /** A time of day in range, counted in seconds, and read back as hours, minutes and seconds. */
  lemma TimeOfDayParts(h: int, i: int, s: int)
    requires 0 <= h < 24 && 0 <= i < 60 && 0 <= s < 60
    ensures var sod := 3600 * h + 60 * i + s;
      0 <= sod < 86400 && sod / 3600 == h && sod % 3600 / 60 == i && sod % 60 == s
  {
    var sod := 3600 * h + 60 * i + s;
    DivModUnique(sod, 3600, h, 60 * i + s);
    DivModUnique(60 * i + s, 60, i, s);
    DivModUnique(sod, 60, 60 * h + i, s);
  }

  /** Setting a time in range keeps the date and reads back as that time. */
  lemma SetTimeFields(t: int, h: int, i: int, s: int)
    requires 0 <= h < 24 && 0 <= i < 60 && 0 <= s < 60
    ensures FieldsOf(SetTime(t, h, i, s))
      == FieldsOf(t).(hour := h, minute := i, second := s)
  {
    var sod := 3600 * h + 60 * i + s;
    var z := DayNumber(t);
    TimeOfDayParts(h, i, s);
    assert FieldsOf(SetTime(t, h, i, s)) == At(CivilFromDays(z), sod) by {
      FieldsOfDay(SetTime(t, h, i, s), z, sod);
    }
    assert FieldsOf(t) == At(CivilFromDays(z), SecondOfDay(t)) by {
      FieldsOfDay(t, z, SecondOfDay(t));
    }
  }

  /** The fields of an instant, set back with SetDate and SetTime, give the instant itself. */
  lemma FieldsDetermineInstant(t: int)
    ensures var f := FieldsOf(t);
      SetTime(SetDate(t, f.year, f.month, f.day), f.hour, f.minute, f.second) == t
  {
    SetOwnDate(t);
    SetOwnTime(t);
  }

  // ---------------------------------------------------------------- day of the year

  /** Days of year y before the first of month m: the `z` format token counts from there. */
  function DaysBeforeMonth(y: int, m: int): (n: int)
    requires 1 <= m <= 12
    ensures n == [0, 31, 59, 90, 120, 151, 181, 212, 243, 273, 304, 334][m - 1]
      + (if m > 2 && IsLeapYear(y) then 1 else 0)
    ensures 0 <= n && n + DaysInMonth(y, m) <= (if IsLeapYear(y) then 366 else 365)
    ensures m == 12 ==> n + 31 == (if IsLeapYear(y) then 366 else 365)
  {
    if m == 1 then 0 else DaysBeforeMonth(y, m - 1) + DaysInMonth(y, m - 1)
  }

  /** Day number of 1 March of civil year y. */
  function MarchFirst(y: int): int {
    (y / 400) * 146097 + DaysBeforeEraYear(y % 400) - 719468
  }

  lemma DaysFromCivilByMarch(y: int, m: int, d: int)
    requires 1 <= m <= 12
    ensures DaysFromCivil(y, m, d)
      == MarchFirst(if m <= 2 then y - 1 else y) + DaysBeforeMarchMonth(MarchMonth(m)) + d - 1
  {
  }

  /** From one 1 March to the next there are 366 days exactly when the year of the second is a leap year. */
  lemma MarchFirstStep(y: int)
    ensures MarchFirst(y + 1) == MarchFirst(y) + (if IsLeapYear(y + 1) then 366 else 365)
  {
    var era, yoe := y / 400, y % 400;
    assert EraYearIsLong(yoe) <==> IsLeapYear(y + 1) by {
      EraYearLeap(era, yoe);
    }
    if yoe == 399 {
      DivModUnique(y + 1, 400, era + 1, 0);
      assert DaysBeforeEraYear(399) + 366 == 146097;
    } else {
      DivModUnique(y + 1, 400, era, yoe + 1);
      EraYearStep(yoe);
    }
  }

  /** A leap year has 366 days from its 1 January to the next, any other year 365. */
  lemma YearLength(y: int)
    ensures DaysFromCivil(y + 1, 1, 1) - DaysFromCivil(y, 1, 1) == if IsLeapYear(y) then 366 else 365
  {
    DaysFromCivilByMarch(y + 1, 1, 1);
    DaysFromCivilByMarch(y, 1, 1);
    MarchFirstStep(y - 1);
  }

  /** From one year of the era to the next there are as many days as the first year has. */
  lemma EraYearStep(yoe: int)
    requires 0 <= yoe < 399
    ensures DaysBeforeEraYear(yoe + 1) == DaysBeforeEraYear(yoe) + EraYearLength(yoe)
  {
    EraYearParts(yoe);
    var c, q, y1 := yoe / 100, yoe % 100 / 4, yoe % 100 % 4;
    if y1 < 3 {
      DivModUnique(yoe + 1, 4, 25 * c + q, y1 + 1);
      DivModUnique(yoe + 1, 100, c, 4 * q + y1 + 1);
    } else if q < 24 {
      DivModUnique(yoe + 1, 4, 25 * c + q + 1, 0);
      DivModUnique(yoe + 1, 100, c, 4 * q + 4);
    } else {
      DivModUnique(yoe + 1, 4, 25 * c + 25, 0);
      DivModUnique(yoe + 1, 100, c + 1, 0);
    }
  }

  /** The first of month m + 1 comes the length of month m after the first of month m. */
  lemma MonthStep(y: int, m: int)
    requires 1 <= m < 12
    ensures DaysFromCivil(y, m + 1, 1) == DaysFromCivil(y, m, 1) + DaysInMonth(y, m)
  {
    if m == 2 {
      DaysFromCivilByMarch(y, 2, 1);
      DaysFromCivilByMarch(y, 3, 1);
      MarchFirstStep(y - 1);
      MarchMonthStarts(11);
    } else {
      var mp := MarchMonth(m);
      assert MarchMonth(m + 1) == mp + 1;
      DaysFromCivilByMarch(y, m, 1);
      DaysFromCivilByMarch(y, m + 1, 1);
      MarchMonthStep(mp, IsLeapYear(y));
    }
  }

  /** Within a March-based year, month mp + 1 starts the length of month mp after month mp. */
  lemma MarchMonthStep(mp: int, leap: bool)
    requires 0 <= mp < 11
    ensures DaysBeforeMarchMonth(mp + 1) == DaysBeforeMarchMonth(mp) + MonthLength(if mp < 10 then mp + 3 else mp - 9, leap)
  {
    MarchMonthStarts(mp);
    MarchMonthStarts(mp + 1);
  }

  /** Day d of month m is DaysBeforeMonth(y, m) + d - 1 days after 1 January. */
  lemma {:induction false} DaysSinceNewYear(y: int, m: int, d: int)
    requires 1 <= m <= 12
    ensures DaysFromCivil(y, m, d) == DaysFromCivil(y, 1, 1) + DaysBeforeMonth(y, m) + d - 1
  {
    DaysFromCivilByMarch(y, m, d);
    DaysFromCivilByMarch(y, m, 1);
    if m > 1 {
      DaysSinceNewYear(y, m - 1, 1);
      MonthStep(y, m - 1);
    }
  }

  /** In a common year, 31 February is 3 March. */
  lemma February31(t: int, y: int)
    requires !IsLeapYear(y)
    ensures SetDate(t, y, 2, 31) == SetDate(t, y, 3, 3)
  {
    DaysSinceNewYear(y, 2, 31);
    DaysSinceNewYear(y, 3, 3);
  }

  /** Setting an instant's own date gives the instant back. */
  lemma SetOwnDate(t: int)
    ensures var f := FieldsOf(t);
      SetDate(t, f.year, f.month, f.day) == t
  {
    var f, z := FieldsOf(t), DayNumber(t);
    assert DaysFromCivil(f.year, f.month, f.day) == z by {
      DaysCivilRoundTrip(z);
    }
    SetDateInRange(t, f.year, f.month, f.day);
  }

  /** Setting an instant's own time of day gives the instant back. */
  lemma SetOwnTime(t: int)
    ensures var f := FieldsOf(t);
      SetTime(t, f.hour, f.minute, f.second) == t
  {
  }

  /** SetDate rolls the month over first. */
  lemma SetDateNormalized(t: int, y: int, m: int, d: int)
    ensures SetDate(t, y, m, d) == SetDate(t, NormalizeMonth(y, m).0, NormalizeMonth(y, m).1, d)
  {
    var (y', m') := NormalizeMonth(y, m);
    assert NormalizeMonth(y', m') == (y', m');
  }

  /** The second of the day is the time of day the fields report. */
  lemma TimeOfDayFields(t: int)
    ensures SecondOfDay(t) == 3600 * FieldsOf(t).hour + 60 * FieldsOf(t).minute + FieldsOf(t).second
  {
  }

  /** Setting a date depends only on the month it rolls over to and on the time of day. */
  lemma SetDateSameDate(t: int, y: int, m: int, t': int, y': int, m': int, d: int)
    requires SecondOfDay(t) == SecondOfDay(t') && NormalizeMonth(y, m) == NormalizeMonth(y', m')
    ensures SetDate(t, y, m, d) == SetDate(t', y', m', d)
  {
  }

  /** Setting a time in range keeps the day. */
  lemma SetTimeSameDay(t: int, h: int, i: int, s: int)
    requires 0 <= h < 24 && 0 <= i < 60 && 0 <= s < 60
    ensures DayNumber(SetTime(t, h, i, s)) == DayNumber(t)
  {
    InstantOfDay(DayNumber(t), 3600 * h + 60 * i + s);
  }

  /** Setting a date whose month rolls over to a valid date reads back as that rolled-over date. */
  lemma SetDateRolled(t: int, y: int, m: int, d: int)
    requires ValidDate(NormalizeMonth(y, m).0, NormalizeMonth(y, m).1, d)
    ensures FieldsOf(SetDate(t, y, m, d))
      == FieldsOf(t).(year := NormalizeMonth(y, m).0, month := NormalizeMonth(y, m).1, day := d)
  {
    var ym := NormalizeMonth(y, m);
    SetDateNormalized(t, y, m, d);
    SetDateFields(t, ym.0, ym.1, d);
  }

  /** Rolling a month forward by n and then back by n returns to it. */
  lemma NormalizeMonthBack(y: int, m: int, n: int, y': int, m': int)
    requires 1 <= m <= 12 && (y', m') == NormalizeMonth(y, m + n)
    ensures NormalizeMonth(y', m' + -n) == (y, m)
  {
    var b := NormalizeMonth(y', m' + -n);
    assert 12 * b.0 + b.1 == 12 * y + m;
  }
}
