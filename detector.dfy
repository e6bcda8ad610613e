/**
 * Format auto-detection of ExopiteDate::makeFromString: an ordered table of 18 date
 * templates, a validator per template, and a scan that takes the first template whose
 * validator accepts the text.
 *
 * Each validator is stated over characters, in the terms of the anchored pattern it
 * stands for: the separator, the order of the fields, a four-digit year 1001..2999 split
 * into the leap years and the common years exactly as the pattern spells them, a
 * two-digit month and a two-digit day that fits the month, and for the time variants one
 * space and a time `H:MM:SS` or `HH:MM:SS`. The `$` anchor of a pattern without the D
 * modifier also matches just before a final newline, and that is modelled too.
 *
 * The two `Y.m.d` patterns are kept as they are written: their alternation is not
 * enclosed by the anchors, and their non-leap half lists month, day and year.
 */
module FormatDetector {
  import opened Wrappers
  import opened Calendar

  // ---------------------------------------------------------------- characters and numbers

  predicate IsDigit(c: char) {
    '0' <= c <= '9'
  }

  predicate AllDigits(t: string) {
    forall i :: 0 <= i < |t| ==> IsDigit(t[i])
  }

  /** The decimal value of a string of digits. */
  function Number(t: string): (n: nat)
    requires AllDigits(t)
  {
    if t == [] then 0 else 10 * Number(t[..|t| - 1]) + (t[|t| - 1] as int - '0' as int)
  }

  function DigitChar(n: int): (c: char)
    requires 0 <= n < 10
    ensures IsDigit(c) && c as int - '0' as int == n
  {
    ('0' as int + n) as char
  }

  /** n written with two digits, with a leading zero: the `m`, `d`, `H`, `i` and `s` tokens. */
  function TwoDigits(n: int): (t: string)
    requires 0 <= n < 100
    ensures |t| == 2 && AllDigits(t) && Number(t) == n
  {
    var t := [DigitChar(n / 10), DigitChar(n % 10)];
    assert t[..1] == [t[0]] && t[..1][..0] == [];
    assert Number(t[..1]) == n / 10;
    t
  }

  /** n written with four digits, with leading zeros: the `Y` token for years 0..9999. */
  function FourDigits(n: int): (t: string)
    requires 0 <= n < 10000
    ensures |t| == 4 && AllDigits(t) && Number(t) == n
  {
    var t := TwoDigits(n / 100) + TwoDigits(n % 100);
    assert t[..3] == TwoDigits(n / 100) + [t[2]];
    assert t[..2] == TwoDigits(n / 100);
    t
  }

  // ---------------------------------------------------------------- the pieces of a pattern

  /** `((1[26]|2[048])00)|[12]\d([2468][048]|[13579][26]|0[48])`: a leap year. */
  predicate LeapYearText(t: string)
    requires |t| == 4
  {
    (((t[0] == '1' && t[1] in "26") || (t[0] == '2' && t[1] in "048")) && t[2] == '0' && t[3] == '0')
    || (t[0] in "12" && IsDigit(t[1])
        && ((t[2] in "2468" && t[3] in "048") || (t[2] in "13579" && t[3] in "26") || (t[2] == '0' && t[3] in "48")))
  }

  /** `([12]\d([02468][1235679]|[13579][01345789]))|((1[1345789]|2[1235679])00)`: a common year. */
  predicate CommonYearText(t: string)
    requires |t| == 4
  {
    (t[0] in "12" && IsDigit(t[1])
     && ((t[2] in "02468" && t[3] in "1235679") || (t[2] in "13579" && t[3] in "01345789")))
    || (((t[0] == '1' && t[1] in "1345789") || (t[0] == '2' && t[1] in "1235679")) && t[2] == '0' && t[3] == '0')
  }

  /**
   * A two-digit month and a two-digit day of that month. The patterns enumerate the months
   * in three groups, `0[13578]|1[02]` with days `0[1-9]|[12]\d|3[01]`, `0[469]|11` with days
   * `0[1-9]|[12]\d|30`, and `02` with days `0[1-9]|[12]\d` in a leap year and
   * `0[1-9]|1\d|2[0-8]` otherwise: that is, every month 01..12 with the days 01 up to its
   * length.
   */
  predicate MonthDayText(mt: string, dt: string, leap: bool) {
    |mt| == 2 && |dt| == 2 && AllDigits(mt) && AllDigits(dt)
    && 1 <= Number(mt) <= 12 && 1 <= Number(dt) <= MonthLength(Number(mt), leap)
  }

  /** `[0-5][0-9]`: minutes or seconds. */
  predicate SixtyText(t: string) {
    |t| == 2 && '0' <= t[0] <= '5' && IsDigit(t[1])
  }

  /** ` ([0-9]|0[0-9]|1[0-9]|2[0-3]):[0-5][0-9]:[0-5][0-9]`: the time part of the `H:i:s` variants. */
  predicate TimeText(u: string) {
    (|u| == 8 || |u| == 9) && u[0] == ' '
    && var h := u[1..|u| - 6];
    AllDigits(h) && Number(h) <= 23
    && u[|u| - 6] == ':' && SixtyText(u[|u| - 5..|u| - 3])
    && u[|u| - 3] == ':' && SixtyText(u[|u| - 2..])
  }

  function Digit(c: char): int {
    c as int - '0' as int
  }

  lemma NumberOfTwo(t: string)
    requires |t| == 2 && AllDigits(t)
    ensures Number(t) == 10 * Digit(t[0]) + Digit(t[1])
  {
    assert AllDigits(t[..1]) && t[..1][..0] == [];
    assert Number(t[..1]) == Digit(t[0]);
  }

  lemma NumberOfFour(t: string)
    requires |t| == 4 && AllDigits(t)
    ensures Number(t) == 100 * Number(t[..2]) + Number(t[2..])
  {
    assert t[..3][..2] == t[..2];
    assert Number(t) == 10 * Number(t[..3]) + Digit(t[3]);
    assert Number(t[..3]) == 10 * Number(t[..2]) + Digit(t[2]);
    NumberOfTwo(t[2..]);
  }

  /** The last two digits of a leap year as the pattern lists them: a non-zero multiple of 4. */
  lemma LeapTail(a: char, b: char)
    requires IsDigit(a) && IsDigit(b)
    ensures ((a in "2468" && b in "048") || (a in "13579" && b in "26") || (a == '0' && b in "48"))
      <==> (10 * Digit(a) + Digit(b)) % 4 == 0 && 10 * Digit(a) + Digit(b) != 0
  {
  }

  /** The last two digits of a common year as the pattern lists them: not a multiple of 4. */
  lemma CommonTail(a: char, b: char)
    requires IsDigit(a) && IsDigit(b)
    ensures ((a in "02468" && b in "1235679") || (a in "13579" && b in "01345789"))
      <==> (10 * Digit(a) + Digit(b)) % 4 != 0
  {
  }

  /** The centuries 1000..2900 whose years 00 are leap: those divisible by 400. */
  lemma LeapCentury(a: char, b: char)
    requires IsDigit(a) && IsDigit(b)
    ensures ((a == '1' && b in "26") || (a == '2' && b in "048"))
      <==> a in "12" && (10 * Digit(a) + Digit(b)) % 4 == 0
  {
  }

  /** The centuries 1100..2900 whose years 00 are common. */
  lemma CommonCentury(a: char, b: char)
    requires IsDigit(a) && IsDigit(b)
    ensures ((a == '1' && b in "1345789") || (a == '2' && b in "1235679"))
      <==> a in "12" && (10 * Digit(a) + Digit(b)) % 4 != 0 && !(a == '1' && b == '0')
  {
  }

  /** Gregorian leap years split by century c and year r within the century. */
  lemma LeapByCentury(c: int, r: int)
    requires 0 <= r < 100
    ensures IsLeapYear(100 * c + r) <==> (r % 4 == 0 && r != 0) || (r == 0 && c % 4 == 0)
  {
  }

  /** A four-digit text is a year 1001..2999 when it starts with 1 or 2 and is not 1000. */
  lemma YearRange(t: string)
    requires |t| == 4 && AllDigits(t)
    ensures 1001 <= Number(t) <= 2999 <==> t[0] in "12" && !(t[0] == '1' && t[1] == '0' && Number(t[2..]) == 0)
  {
    NumberOfFour(t);
    NumberOfTwo(t[..2]);
    NumberOfTwo(t[2..]);
  }

  lemma {:induction false} LeapYearTextIsGregorian(t: string)
    requires |t| == 4 && AllDigits(t)
    ensures LeapYearText(t) <==> 1001 <= Number(t) <= 2999 && IsLeapYear(Number(t))
  {
    var c, r := Number(t[..2]), Number(t[2..]);
    NumberOfFour(t);
    NumberOfTwo(t[..2]);
    NumberOfTwo(t[2..]);
    YearRange(t);
    LeapTail(t[2], t[3]);
    LeapCentury(t[0], t[1]);
    LeapByCentury(c, r);
    assert r == 0 <==> t[2] == '0' && t[3] == '0';
  }

  lemma {:induction false} CommonYearTextIsGregorian(t: string)
    requires |t| == 4 && AllDigits(t)
    ensures CommonYearText(t) <==> 1001 <= Number(t) <= 2999 && !IsLeapYear(Number(t))
  {
    var c, r := Number(t[..2]), Number(t[2..]);
    NumberOfFour(t);
    NumberOfTwo(t[..2]);
    NumberOfTwo(t[2..]);
    YearRange(t);
    CommonTail(t[2], t[3]);
    CommonCentury(t[0], t[1]);
    LeapByCentury(c, r);
    var o, x, z, p, q := t[0] in "12", t[0] == '1' && t[1] == '0', r == 0, r % 4 == 0, c % 4 == 0;
    assert z <==> t[2] == '0' && t[3] == '0';
    assert CommonYearText(t) <==> (o && !p) || (o && !q && !x && z);
    assert 1001 <= Number(t) <= 2999 <==> o && !(x && z);
    assert IsLeapYear(Number(t)) <==> (p && !z) || (z && q);
  }

  /**
   * The year halves of the patterns are the Gregorian leap and common years from 1001 to
   * 2999: 1000, the one four-digit year starting with 1 or 2 that neither half lists, is
   * left out.
   */
  lemma {:induction false} YearTextIsGregorian(t: string)
    requires |t| == 4
    ensures LeapYearText(t) <==> AllDigits(t) && 1001 <= Number(t) <= 2999 && IsLeapYear(Number(t))
    ensures CommonYearText(t) <==> AllDigits(t) && 1001 <= Number(t) <= 2999 && !IsLeapYear(Number(t))
  {
    if AllDigits(t) {
      LeapYearTextIsGregorian(t);
      CommonYearTextIsGregorian(t);
    } else {
      var i :| 0 <= i < 4 && !IsDigit(t[i]);
    }
  }

  // ---------------------------------------------------------------- templates

  /** The order of the date fields. */
  datatype Order = YearMonthDay | DayMonthYear | MonthDayYear

  /** Which of the two halves of a date pattern is present. */
  datatype Years = AnyYear | LeapYearsOnly | CommonYearsOnly

  /** The year, month and day texts of a ten-character date in the given order. */
  function DateFields(b: string, order: Order): (string, string, string)
    requires |b| == 10
  {
    match order
    case YearMonthDay => (b[0..4], b[5..7], b[8..10])
    case DayMonthYear => (b[6..10], b[3..5], b[0..2])
    case MonthDayYear => (b[6..10], b[0..2], b[3..5])
  }

  predicate SeparatorsAt(b: string, order: Order, sep: char)
    requires |b| == 10
  {
    if order == YearMonthDay then b[4] == sep && b[7] == sep else b[2] == sep && b[5] == sep
  }

  /**
   * A date pattern: `LEAP-YEAR sep MONTH sep LEAP-DAY | COMMON-YEAR sep MONTH sep COMMON-DAY`,
   * fields in the given order, restricted to one half when `years` says so.
   */
  predicate DateText(b: string, order: Order, sep: char, years: Years) {
    |b| == 10 && SeparatorsAt(b, order, sep)
    && var (yt, mt, dt) := DateFields(b, order);
    || (years != CommonYearsOnly && LeapYearText(yt) && MonthDayText(mt, dt, true))
    || (years != LeapYearsOnly && CommonYearText(yt) && MonthDayText(mt, dt, false))
  }

  /** A date pattern followed, for the `H:i:s` variants, by the time part; nothing else. */
  predicate DateTimeText(t: string, order: Order, sep: char, withTime: bool, years: Years) {
    |t| >= 10 && DateText(t[..10], order, sep, years)
    && if withTime then TimeText(t[10..]) else |t| == 10
  }

  /** `^...$`: the text matches, possibly followed by one newline. */
  predicate Anchored(s: string, order: Order, sep: char, withTime: bool) {
    || DateTimeText(s, order, sep, withTime, AnyYear)
    || (|s| > 0 && s[|s| - 1] == '\n' && DateTimeText(s[..|s| - 1], order, sep, withTime, AnyYear))
  }

  /** Some suffix of t matches. */
  predicate SuffixMatches(t: string, order: Order, sep: char, withTime: bool, years: Years) {
    exists b :: 0 <= b <= |t| && DateTimeText(t[b..], order, sep, withTime, years)
  }

  /** `...$`: some suffix matches, possibly followed by one newline. */
  predicate EndsWithMatch(s: string, order: Order, sep: char, withTime: bool, years: Years) {
    || SuffixMatches(s, order, sep, withTime, years)
    || (|s| > 0 && s[|s| - 1] == '\n' && SuffixMatches(s[..|s| - 1], order, sep, withTime, years))
  }

  /**
   * How a template's pattern is anchored: the whole text (`^(...)$`), or, as lines 186 and
   * 188 are written, `^(A)|(B)$` where A is a common-year month.day.year date at the start of
   * the text and B a leap-year year.month.day date (and time) at its end.
   */
  datatype Shape = WholeText | SplitYmd

  /** A template: the separator, the field order and the time flag of its format, and how its pattern is anchored. */
  datatype Template = Template(sep: char, order: Order, withTime: bool, shape: Shape)
  {
    /** The format string the template stands for, the key of its row in the table. */
    function Name(): string {
      FormatName(order, sep, withTime)
    }
  }

  /** The format string createFromFormat is given for a separator, an order and the time flag. */
  function FormatName(order: Order, sep: char, withTime: bool): string {
    (match order
     case YearMonthDay => ['Y', sep, 'm', sep, 'd']
     case DayMonthYear => ['d', sep, 'm', sep, 'Y']
     case MonthDayYear => ['m', sep, 'd', sep, 'Y'])
    + (if withTime then " H:i:s" else "")
  }

  /** Whether the template's pattern matches somewhere in s (preg_match). */
  predicate Matches(tp: Template, s: string) {
    match tp.shape
    case WholeText => Anchored(s, tp.order, tp.sep, tp.withTime)
    case SplitYmd =>
      || (|s| >= 10 && DateText(s[..10], MonthDayYear, tp.sep, CommonYearsOnly))
      || EndsWithMatch(s, YearMonthDay, tp.sep, tp.withTime, LeapYearsOnly)
  }

  /**
   * The 18 templates in the order they are tried, each standing for the format its Name()
   * spells: Y-m-d, Y.m.d and Y/m/d, then d.m.Y, d-m-Y and d/m/Y, then m.d.Y, m-d-Y and
   * m/d/Y, each without and with ` H:i:s`.
   */
  const Templates: seq<Template> := [
    Template('-', YearMonthDay, false, WholeText),
    Template('-', YearMonthDay, true, WholeText),
    Template('.', YearMonthDay, false, SplitYmd),
    Template('.', YearMonthDay, true, SplitYmd),
    Template('/', YearMonthDay, false, WholeText),
    Template('/', YearMonthDay, true, WholeText),
    Template('.', DayMonthYear, false, WholeText),
    Template('.', DayMonthYear, true, WholeText),
    Template('-', DayMonthYear, false, WholeText),
    Template('-', DayMonthYear, true, WholeText),
    Template('/', DayMonthYear, false, WholeText),
    Template('/', DayMonthYear, true, WholeText),
    Template('.', MonthDayYear, false, WholeText),
    Template('.', MonthDayYear, true, WholeText),
    Template('-', MonthDayYear, false, WholeText),
    Template('-', MonthDayYear, true, WholeText),
    Template('/', MonthDayYear, false, WholeText),
    Template('/', MonthDayYear, true, WholeText)
  ]

  /** The name of the first template of `table` from index k on that matches s. */
  function FirstMatchFrom(table: seq<Template>, s: string, k: nat): (r: Option<string>)
    requires k <= |table|
    decreases |table| - k
  {
    if k == |table| then None
    else if Matches(table[k], s) then Some(table[k].Name())
    else FirstMatchFrom(table, s, k + 1)
  }

  /** The format makeFromString settles on when it is given none. */
  function FirstMatch(s: string): (r: Option<string>)
    ensures r.None? <==> forall j :: 0 <= j < |Templates| ==> !Matches(Templates[j], s)
    ensures r.Some? ==> exists k :: WinsAt(Templates, s, k) && Templates[k].Name() == r.value
  {
    FirstMatchFromNone(Templates, s, 0);
    FirstMatchFromSome(Templates, s, 0);
    FirstMatchFrom(Templates, s, 0)
  }

  /** A template wins for s when it matches and no template before it does. */
  predicate WinsAt(table: seq<Template>, s: string, k: int) {
    0 <= k < |table| && Matches(table[k], s)
    && forall j :: 0 <= j < k ==> !Matches(table[j], s)
  }

  /**
   * The scan of makeFromString: try the templates in order and stop at the first that
   * matches; None when none does.
   */
  method Detect(table: seq<Template>, time: string) returns (format: Option<string>)
    ensures format.Some? <==> exists k :: 0 <= k < |table| && Matches(table[k], time)
    ensures format.Some? ==> exists k :: WinsAt(table, time, k) && table[k].Name() == format.value
    ensures format == FirstMatchFrom(table, time, 0)
  {
    format := None;
    var k := 0;
    while k < |table|
      invariant 0 <= k <= |table|
      invariant forall j :: 0 <= j < k ==> !Matches(table[j], time)
      invariant FirstMatchFrom(table, time, 0) == FirstMatchFrom(table, time, k)
    {
      if Matches(table[k], time) {
        format := Some(table[k].Name());
        assert WinsAt(table, time, k);
        return;
      }
      k := k + 1;
    }
  }

  /** The first match is the name of the one template that wins. */
  lemma {:induction false} FirstMatchFromWinner(table: seq<Template>, s: string, k: int, from: nat)
    requires WinsAt(table, s, k) && from <= k
    ensures FirstMatchFrom(table, s, from) == Some(table[k].Name())
    decreases k - from
  {
    if from < k {
      FirstMatchFromWinner(table, s, k, from + 1);
    }
  }

  /** No template matches exactly when the scan finds nothing. */
  lemma {:induction false} FirstMatchFromNone(table: seq<Template>, s: string, from: nat)
    requires from <= |table|
    ensures FirstMatchFrom(table, s, from) == None <==> forall j :: from <= j < |table| ==> !Matches(table[j], s)
    decreases |table| - from
  {
    if from < |table| {
      FirstMatchFromNone(table, s, from + 1);
    }
  }

  /** When the scan finds a format, it is the name of the template that wins. */
  lemma {:induction false} FirstMatchFromSome(table: seq<Template>, s: string, from: nat)
    requires from <= |table|
    requires forall j :: 0 <= j < from ==> !Matches(table[j], s)
    ensures FirstMatchFrom(table, s, from).Some? ==>
      exists k :: WinsAt(table, s, k) && table[k].Name() == FirstMatchFrom(table, s, from).value
    decreases |table| - from
  {
    if from < |table| {
      if Matches(table[from], s) {
        assert WinsAt(table, s, from);
      } else {
        FirstMatchFromSome(table, s, from + 1);
      }
    }
  }

  // ---------------------------------------------------------------- what the date patterns accept

  /** Which years a half-restricted date pattern lets through. */
  predicate Admits(years: Years, y: int) {
    match years
    case AnyYear => true
    case LeapYearsOnly => IsLeapYear(y)
    case CommonYearsOnly => !IsLeapYear(y)
  }

  /**
   * A date pattern accepts a ten-character text exactly when it has the separators in
   * place and its fields are the digits of a Gregorian date of a year 1001..2999.
   */
  lemma DateTextIsValidDate(b: string, order: Order, sep: char, years: Years)
    requires |b| == 10
    ensures DateText(b, order, sep, years) <==>
      SeparatorsAt(b, order, sep)
      && var (yt, mt, dt) := DateFields(b, order);
      AllDigits(yt) && AllDigits(mt) && AllDigits(dt)
      && 1001 <= Number(yt) <= 2999 && ValidDate(Number(yt), Number(mt), Number(dt))
      && Admits(years, Number(yt))
  {
    var (yt, mt, dt) := DateFields(b, order);
    YearTextIsGregorian(yt);
  }

  // ---------------------------------------------------------------- rendering a date

  /** The date part of DateTime::format for a template's date tokens. */
  function DateTextOf(order: Order, sep: char, y: int, m: int, d: int): (b: string)
    requires 0 <= y < 10000 && 0 <= m < 100 && 0 <= d < 100
    ensures |b| == 10 && SeparatorsAt(b, order, sep)
    ensures DateFields(b, order) == (FourDigits(y), TwoDigits(m), TwoDigits(d))
  {
    var b := match order
      case YearMonthDay => FourDigits(y) + [sep] + TwoDigits(m) + [sep] + TwoDigits(d)
      case DayMonthYear => TwoDigits(d) + [sep] + TwoDigits(m) + [sep] + FourDigits(y)
      case MonthDayYear => TwoDigits(m) + [sep] + TwoDigits(d) + [sep] + FourDigits(y);
    assert match order
      case YearMonthDay => b[0..4] == FourDigits(y) && b[5..7] == TwoDigits(m) && b[8..10] == TwoDigits(d)
      case DayMonthYear => b[6..10] == FourDigits(y) && b[3..5] == TwoDigits(m) && b[0..2] == TwoDigits(d)
      case MonthDayYear => b[6..10] == FourDigits(y) && b[0..2] == TwoDigits(m) && b[3..5] == TwoDigits(d);
    b
  }

  /** The ` H:i:s` part of DateTime::format. */
  function TimeTextOf(h: int, i: int, sec: int): (u: string)
    requires 0 <= h < 24 && 0 <= i < 60 && 0 <= sec < 60
    ensures TimeText(u)
  {
    var u := " " + TwoDigits(h) + ":" + TwoDigits(i) + ":" + TwoDigits(sec);
    assert u[1..3] == TwoDigits(h) && u[4..6] == TwoDigits(i) && u[7..] == TwoDigits(sec);
    u
  }

  /** A date and time written with a template's format. */
  predicate Renderable(f: DateTime) {
    1001 <= f.year <= 2999 && ValidDate(f.year, f.month, f.day)
    && 0 <= f.hour < 24 && 0 <= f.minute < 60 && 0 <= f.second < 60
  }

  function Render(order: Order, sep: char, withTime: bool, f: DateTime): (s: string)
    requires Renderable(f)
    ensures |s| == if withTime then 19 else 10
  {
    DateTextOf(order, sep, f.year, f.month, f.day)
    + if withTime then TimeTextOf(f.hour, f.minute, f.second) else ""
  }

  // ---------------------------------------------------------------- which patterns accept a rendered date

  function Rank(order: Order): int {
    match order
    case YearMonthDay => 0
    case DayMonthYear => 1
    case MonthDayYear => 2
  }

  /**
   * Whether a date written in `order` also reads as a date in `other`: always in its own
   * order, and between day.month and month.day exactly when the day is at most 12.
   */
  predicate ReadsAs(order: Order, other: Order, day: int) {
    other == order || (order != YearMonthDay && other != YearMonthDay && day <= 12)
  }

  lemma RenderedDateText(order: Order, sep: char, other: Order, sep2: char, f: DateTime)
    requires Renderable(f) && !IsDigit(sep) && !IsDigit(sep2)
    ensures DateText(DateTextOf(order, sep, f.year, f.month, f.day), other, sep2, AnyYear)
      <==> sep2 == sep && ReadsAs(order, other, f.day)
  {
    var b := DateTextOf(order, sep, f.year, f.month, f.day);
    DateTextIsValidDate(b, other, sep2, AnyYear);
    if other == order {
    } else if order == YearMonthDay {
      assert IsDigit(b[2]);
    } else if other == YearMonthDay {
      assert IsDigit(b[4]);
    } else {
      assert DateFields(b, other) == (FourDigits(f.year), TwoDigits(f.day), TwoDigits(f.month));
      if f.day <= 12 {
        assert ValidDate(f.year, f.day, f.month);
      }
    }
  }

  /**
   * A whole-text pattern accepts a rendered date exactly when it has the same separator and
   * time part and its field order reads the date as a date.
   */
  lemma RenderedAnchored(order: Order, sep: char, withTime: bool, other: Order, sep2: char, withTime2: bool, f: DateTime)
    requires Renderable(f) && !IsDigit(sep) && !IsDigit(sep2)
    ensures Anchored(Render(order, sep, withTime, f), other, sep2, withTime2)
      <==> sep2 == sep && withTime2 == withTime && ReadsAs(order, other, f.day)
  {
    var s := Render(order, sep, withTime, f);
    var b := DateTextOf(order, sep, f.year, f.month, f.day);
    assert s[..10] == b;
    assert IsDigit(s[|s| - 1]) by {
      if withTime {
        assert s[|s| - 1] == TwoDigits(f.second)[1];
      } else {
        assert s[|s| - 1] == b[9];
        assert b[9] in FourDigits(f.year) || b[9] in TwoDigits(f.day);
      }
    }
    RenderedDateText(order, sep, other, sep2, f);
    if withTime {
      assert s[10..] == TimeTextOf(f.hour, f.minute, f.second);
    }
  }

  // ---------------------------------------------------------------- the layout of the table

  /** Where a separator comes among the templates of one field order. */
  function SeparatorRank(order: Order, sep: char): int {
    if order == YearMonthDay then (if sep == '-' then 0 else if sep == '.' then 1 else 2)
    else (if sep == '.' then 0 else if sep == '-' then 1 else 2)
  }

  /** The index of the template for a field order, a separator and a time flag. */
  function Position(order: Order, sep: char, withTime: bool): (k: int)
    ensures 0 <= k < 18
  {
    6 * Rank(order) + 2 * SeparatorRank(order, sep) + if withTime then 1 else 0
  }

  predicate IsSeparator(c: char) {
    c == '-' || c == '.' || c == '/'
  }

  /**
   * The template at index k has one of the three separators, sits at the position of its
   * field order, separator and time flag, and is anchored as `^(A)|(B)$` exactly at
   * indices 2 and 3.
   */
  predicate LaidOut(k: int)
    requires 0 <= k < |Templates|
  {
    var tp := Templates[k];
    IsSeparator(tp.sep)
    && Position(tp.order, tp.sep, tp.withTime) == k
    && (tp.shape == SplitYmd <==> k == 2 || k == 3)
  }

  lemma YearFirstLaidOut()
    ensures LaidOut(0) && LaidOut(1) && LaidOut(2) && LaidOut(3) && LaidOut(4) && LaidOut(5)
  {
  }

  lemma DayFirstLaidOut()
    ensures LaidOut(6) && LaidOut(7) && LaidOut(8) && LaidOut(9) && LaidOut(10) && LaidOut(11)
  {
  }

  lemma MonthFirstLaidOut()
    ensures LaidOut(12) && LaidOut(13) && LaidOut(14) && LaidOut(15) && LaidOut(16) && LaidOut(17)
  {
  }

  /**
   * The table holds one template per field order, separator and time flag, grouped by
   * field order year-first, then day-first, then month-first.
   */
  lemma TemplatesLayout()
    ensures |Templates| == 18
    ensures forall k :: 0 <= k < 18 ==> LaidOut(k)
  {
    YearFirstLaidOut();
    DayFirstLaidOut();
    MonthFirstLaidOut();
    forall k | 0 <= k < 18
      ensures LaidOut(k)
    {
      assert k in {0, 1, 2, 3, 4, 5, 6, 7, 8, 9, 10, 11, 12, 13, 14, 15, 16, 17};
    }
  }

  /** The formats of the year-first templates without a time, in table order. */
  lemma YearFirstNames()
    ensures Templates[0].Name() == "Y-m-d" && Templates[2].Name() == "Y.m.d" && Templates[4].Name() == "Y/m/d"
  {
  }

  /** The formats of the year-first templates with a time, in table order. */
  lemma YearFirstTimedNames()
    ensures Templates[1].Name() == "Y-m-d H:i:s" && Templates[3].Name() == "Y.m.d H:i:s"
    ensures Templates[5].Name() == "Y/m/d H:i:s"
  {
  }

  /** The formats of the day-first templates without a time, in table order. */
  lemma DayFirstNames()
    ensures Templates[6].Name() == "d.m.Y" && Templates[8].Name() == "d-m-Y" && Templates[10].Name() == "d/m/Y"
  {
  }

  /** The formats of the day-first templates with a time, in table order. */
  lemma DayFirstTimedNames()
    ensures Templates[7].Name() == "d.m.Y H:i:s" && Templates[9].Name() == "d-m-Y H:i:s"
    ensures Templates[11].Name() == "d/m/Y H:i:s"
  {
  }

  /** The formats of the month-first templates without a time, in table order. */
  lemma MonthFirstNames()
    ensures Templates[12].Name() == "m.d.Y" && Templates[14].Name() == "m-d-Y" && Templates[16].Name() == "m/d/Y"
  {
  }

  /** The formats of the month-first templates with a time, in table order. */
  lemma MonthFirstTimedNames()
    ensures Templates[13].Name() == "m.d.Y H:i:s" && Templates[15].Name() == "m-d-Y H:i:s"
    ensures Templates[17].Name() == "m/d/Y H:i:s"
  {
  }

  /** Every field order, separator and time flag has its template, at its position. */
  lemma TemplateAt(order: Order, sep: char, withTime: bool)
    requires IsSeparator(sep)
    ensures var tp := Templates[Position(order, sep, withTime)];
      tp.order == order && tp.sep == sep && tp.withTime == withTime
  {
    TemplatesLayout();
    var k := Position(order, sep, withTime);
    var tp := Templates[k];
    assert SeparatorRank(tp.order, tp.sep) == SeparatorRank(order, sep) by {
      assert Position(tp.order, tp.sep, tp.withTime) == k;
    }
  }

  // ---------------------------------------------------------------- detecting a rendered date

  /** The order the first matching template reads a date written in `order` in. */
  function ReadOrder(order: Order, day: int): (r: Order)
    ensures ReadsAs(order, r, day)
    ensures forall other :: ReadsAs(order, other, day) ==> Rank(r) <= Rank(other)
  {
    if order == MonthDayYear && day <= 12 then DayMonthYear else order
  }

  lemma PositionByRank(o1: Order, o2: Order, sep: char, withTime: bool)
    requires Rank(o1) < Rank(o2)
    ensures Position(o1, sep, withTime) < Position(o2, sep, withTime)
  {
  }

  /** A whole-text pattern that accepts a rendered date sits no earlier than the one for the order it first reads as. */
  lemma NoEarlierReading(order: Order, sep: char, withTime: bool, f: DateTime, other: Order, sep2: char, withTime2: bool)
    requires Renderable(f) && IsSeparator(sep) && IsSeparator(sep2)
    requires Anchored(Render(order, sep, withTime, f), other, sep2, withTime2)
    ensures Position(ReadOrder(order, f.day), sep, withTime) <= Position(other, sep2, withTime2)
  {
    RenderedAnchored(order, sep, withTime, other, sep2, withTime2, f);
  }

  /**
   * Detection of a rendered date on a table laid out as Templates whose templates all
   * accept that text exactly when their whole-text pattern does: the template of the
   * date's own separator and time part wins, in the order the date first reads as.
   */
  lemma {:induction false} DetectRendered(table: seq<Template>, order: Order, sep: char, withTime: bool, f: DateTime)
    requires Renderable(f) && IsSeparator(sep)
    requires |table| == 18
    requires forall k :: 0 <= k < 18 ==>
      table[k].order == Templates[k].order
      && table[k].sep == Templates[k].sep && table[k].withTime == Templates[k].withTime
    requires forall k :: 0 <= k < 18 ==>
      (Matches(table[k], Render(order, sep, withTime, f)) <==> Anchored(Render(order, sep, withTime, f), table[k].order, table[k].sep, table[k].withTime))
    ensures FirstMatchFrom(table, Render(order, sep, withTime, f), 0)
      == Some(FormatName(ReadOrder(order, f.day), sep, withTime))
  {
    var s := Render(order, sep, withTime, f);
    var o := ReadOrder(order, f.day);
    var k := Position(o, sep, withTime);
    TemplatesLayout();
    TemplateAt(o, sep, withTime);
    RenderedAnchored(order, sep, withTime, o, sep, withTime, f);
    forall j | 0 <= j < k
      ensures !Matches(table[j], s)
    {
      assert LaidOut(j);
      if Matches(table[j], s) {
        NoEarlierReading(order, sep, withTime, f, table[j].order, table[j].sep, table[j].withTime);
        assert false;
      }
    }
    assert WinsAt(table, s, k);
    FirstMatchFromWinner(table, s, k, 0);
  }

  /** Every character of a rendered date is a digit, the separator, a space or a colon. */
  lemma RenderedCharacters(order: Order, sep: char, withTime: bool, f: DateTime)
    requires Renderable(f)
    ensures forall i :: 0 <= i < |Render(order, sep, withTime, f)| ==>
      var c := Render(order, sep, withTime, f)[i];
      IsDigit(c) || c == sep || c == ' ' || c == ':'
  {
    var s := Render(order, sep, withTime, f);
    var y, m, d := FourDigits(f.year), TwoDigits(f.month), TwoDigits(f.day);
    forall i | 0 <= i < |s|
      ensures IsDigit(s[i]) || s[i] == sep || s[i] == ' ' || s[i] == ':'
    {
      if i < 10 {
        var b := DateTextOf(order, sep, f.year, f.month, f.day);
        assert s[i] == b[i];
        match order
        case YearMonthDay => assert b == y + [sep] + m + [sep] + d;
        case DayMonthYear => assert b == d + [sep] + m + [sep] + y;
        case MonthDayYear => assert b == m + [sep] + d + [sep] + y;
      } else {
        var u := TimeTextOf(f.hour, f.minute, f.second);
        assert s[i] == u[i - 10];
        assert u == " " + TwoDigits(f.hour) + ":" + TwoDigits(f.minute) + ":" + TwoDigits(f.second);
      }
    }
  }

  /** A date (and time) text holds its separator. */
  lemma SeparatorOccurs(t: string, order: Order, sep: char, withTime: bool, years: Years)
    requires DateTimeText(t, order, sep, withTime, years)
    ensures exists i :: 0 <= i < |t| && t[i] == sep
  {
    assert t[..10][5] == t[5];
    assert t[..10][7] == t[7];
  }

  /** A text with a matching suffix holds the separator. */
  lemma SuffixMatchHoldsSeparator(t: string, order: Order, sep: char, withTime: bool, years: Years)
    ensures SuffixMatches(t, order, sep, withTime, years) ==> exists i :: 0 <= i < |t| && t[i] == sep
  {
    if SuffixMatches(t, order, sep, withTime, years) {
      var b :| 0 <= b <= |t| && DateTimeText(t[b..], order, sep, withTime, years);
      SeparatorOccurs(t[b..], order, sep, withTime, years);
      var i :| 0 <= i < |t[b..]| && t[b..][i] == sep;
      assert t[b + i] == sep;
    }
  }

  /** A text without a '.' matches neither half of the `Y.m.d` patterns as written. */
  lemma SplitYmdNeedsDot(tp: Template, s: string)
    requires tp.shape == SplitYmd && tp.sep == '.'
    requires forall i :: 0 <= i < |s| ==> s[i] != '.'
    ensures !Matches(tp, s)
  {
    if |s| >= 10 {
      assert s[..10][2] == s[2];
    }
    SuffixMatchHoldsSeparator(s, YearMonthDay, '.', tp.withTime, LeapYearsOnly);
    if |s| > 0 {
      SuffixMatchHoldsSeparator(s[..|s| - 1], YearMonthDay, '.', tp.withTime, LeapYearsOnly);
    }
  }

  /**
   * The table as written detects dates written with '-' or '/': the template of the
   * date's own separator and time part wins, in the order the date first reads as.
   */
  lemma {:induction false} DetectsRenderedWithoutDot(order: Order, sep: char, withTime: bool, f: DateTime)
    requires Renderable(f) && (sep == '-' || sep == '/')
    ensures FirstMatch(Render(order, sep, withTime, f)) == Some(FormatName(ReadOrder(order, f.day), sep, withTime))
  {
    var s := Render(order, sep, withTime, f);
    RenderedCharacters(order, sep, withTime, f);
    TemplatesLayout();
    forall k | 0 <= k < 18
      ensures Matches(Templates[k], s) <==> Anchored(s, Templates[k].order, Templates[k].sep, Templates[k].withTime)
    {
      if k == 2 || k == 3 {
        SplitYmdNeedsDot(Templates[k], s);
        RenderedAnchored(order, sep, withTime, Templates[k].order, Templates[k].sep, Templates[k].withTime, f);
      }
    }
    DetectRendered(Templates, order, sep, withTime, f);
  }

  /** The only suffix of a rendered year-first date that a year-first pattern can match is all of it. */
  lemma RenderedYmdSuffix(sep: char, withTime: bool, f: DateTime, b: int, withTime2: bool, years: Years)
    requires Renderable(f) && IsSeparator(sep) && 0 <= b <= |Render(YearMonthDay, sep, withTime, f)|
    requires DateTimeText(Render(YearMonthDay, sep, withTime, f)[b..], YearMonthDay, sep, withTime2, years)
    ensures b == 0 && withTime2 == withTime
  {
    var s := Render(YearMonthDay, sep, withTime, f);
    var t := s[b..];
    assert t[..10][4] == s[b + 4] && t[..10][7] == s[b + 7];
    var dt := DateTextOf(YearMonthDay, sep, f.year, f.month, f.day);
    assert s[..10] == dt;
    assert IsDigit(dt[5]) by {
      assert dt[5] == TwoDigits(f.month)[0];
    }
    if withTime {
      var u := TimeTextOf(f.hour, f.minute, f.second);
      assert s[10..] == u && u[3] == ':';
    }
  }

  /**
   * As written, a year.month.day date with '.' separators is not detected at all when its
   * year is a common year: the year-first half of the `Y.m.d` patterns lists leap years
   * only, and no other template accepts the text.
   */
  lemma {:induction false} DotYmdCommonYearUndetected(withTime: bool, f: DateTime)
    requires Renderable(f) && !IsLeapYear(f.year)
    ensures FirstMatch(Render(YearMonthDay, '.', withTime, f)) == None
  {
    var s := Render(YearMonthDay, '.', withTime, f);
    var dt := DateTextOf(YearMonthDay, '.', f.year, f.month, f.day);
    assert s[..10] == dt;
    TemplatesLayout();
    forall k | 0 <= k < 18
      ensures !Matches(Templates[k], s)
    {
      var tp := Templates[k];
      RenderedAnchored(YearMonthDay, '.', withTime, tp.order, tp.sep, tp.withTime, f);
      if k == 2 || k == 3 {
        assert IsDigit(dt[2]) by {
          assert dt[2] == FourDigits(f.year)[2];
        }
        assert IsDigit(s[|s| - 1]) by {
          RenderedCharacters(YearMonthDay, '.', withTime, f);
        }
        if SuffixMatches(s, YearMonthDay, '.', tp.withTime, LeapYearsOnly) {
          var b :| 0 <= b <= |s| && DateTimeText(s[b..], YearMonthDay, '.', tp.withTime, LeapYearsOnly);
          RenderedYmdSuffix('.', withTime, f, b, tp.withTime, LeapYearsOnly);
          assert s[b..][..10] == dt;
          DateTextIsValidDate(dt, YearMonthDay, '.', LeapYearsOnly);
        }
      }
    }
    FirstMatchFromNone(Templates, s, 0);
  }

  /** A day-first or month-first date with '.' and a common year that reads as month.day.year is a common-year month.day.year date. */
  lemma DotDateReadsAsCommonMdy(order: Order, f: DateTime)
    requires Renderable(f) && !IsLeapYear(f.year) && order != YearMonthDay
    requires ReadsAs(order, MonthDayYear, f.day)
    ensures DateText(DateTextOf(order, '.', f.year, f.month, f.day), MonthDayYear, '.', CommonYearsOnly)
  {
    var dt := DateTextOf(order, '.', f.year, f.month, f.day);
    RenderedDateText(order, '.', MonthDayYear, '.', f);
    DateTextIsValidDate(dt, MonthDayYear, '.', AnyYear);
    DateTextIsValidDate(dt, MonthDayYear, '.', CommonYearsOnly);
  }

  /** A day-first or month-first date with '.' that reads as month.day.year matches the `Y.m.d` pattern. */
  lemma DotMonthFirstMatchesYmd(order: Order, withTime: bool, f: DateTime)
    requires Renderable(f) && !IsLeapYear(f.year) && order != YearMonthDay
    requires ReadsAs(order, MonthDayYear, f.day)
    ensures Matches(Templates[2], Render(order, '.', withTime, f))
  {
    var s := Render(order, '.', withTime, f);
    var dt := DateTextOf(order, '.', f.year, f.month, f.day);
    assert s[..10] == dt;
    DotDateReadsAsCommonMdy(order, f);
    assert Templates[2] == Template('.', YearMonthDay, false, SplitYmd);
  }

  /** A text without a '-' matches neither `Y-m-d` template. */
  lemma DashYmdNeedsDash(s: string)
    requires forall i :: 0 <= i < |s| ==> s[i] != '-'
    ensures !Matches(Templates[0], s) && !Matches(Templates[1], s)
  {
    assert Templates[0] == Template('-', YearMonthDay, false, WholeText);
    assert Templates[1] == Template('-', YearMonthDay, true, WholeText);
    if |s| >= 10 {
      assert s[..10][4] == s[4];
    }
    if |s| >= 11 {
      assert s[..|s| - 1][..10][4] == s[4];
    }
  }

  /**
   * As written, a day.month.year or month.day.year date with '.' separators and a common
   * year is detected as `Y.m.d` whenever it also reads as month.day.year, with or without a
   * time part: the other half of the `Y.m.d` patterns is a month.day.year date that need
   * not end the text.
   */
  lemma DotDayFirstReadAsYmd(order: Order, withTime: bool, f: DateTime)
    requires Renderable(f) && !IsLeapYear(f.year) && order != YearMonthDay
    requires ReadsAs(order, MonthDayYear, f.day)
    ensures FirstMatch(Render(order, '.', withTime, f)) == Some("Y.m.d")
  {
    var s := Render(order, '.', withTime, f);
    DotMonthFirstMatchesYmd(order, withTime, f);
    RenderedCharacters(order, '.', withTime, f);
    DashYmdNeedsDash(s);
    assert WinsAt(Templates, s, 2);
    FirstMatchFromWinner(Templates, s, 2, 0);
    YearFirstNames();
  }

  lemma DigitsOfExample()
    ensures FourDigits(2023) == "2023" && TwoDigits(3) == "03" && TwoDigits(5) == "05"
    ensures TwoDigits(12) == "12" && TwoDigits(0) == "00"
  {
    assert TwoDigits(20) == "20" && TwoDigits(23) == "23";
  }

  /** 2023-03-05 written with '.' separators, as the table as written sees it. */
  lemma DotExamples()
    ensures FirstMatch("2023.03.05") == None
    ensures FirstMatch("05.03.2023") == Some("Y.m.d")
    ensures FirstMatch("05.03.2023 12:00:00") == Some("Y.m.d")
  {
    var f := DateTime(2023, 3, 5, 12, 0, 0);
    DotExampleTexts(f);
    DotYmdCommonYearUndetected(false, f);
    DotDayFirstReadAsYmd(DayMonthYear, false, f);
    DotDayFirstReadAsYmd(DayMonthYear, true, f);
  }

  lemma DotExampleTexts(f: DateTime)
    requires f == DateTime(2023, 3, 5, 12, 0, 0)
    ensures Render(YearMonthDay, '.', false, f) == "2023.03.05"
    ensures Render(DayMonthYear, '.', false, f) == "05.03.2023"
    ensures Render(DayMonthYear, '.', true, f) == "05.03.2023 12:00:00"
  {
    DigitsOfExample();
  }

  // ---------------------------------------------------------------- the table with Y.m.d anchored

  /** The templates with every pattern anchored as a whole, `Y.m.d` included. */
  function IntendedTemplates(): (table: seq<Template>)
    ensures |table| == |Templates|
    ensures forall k :: 0 <= k < |table| ==> table[k] == Templates[k].(shape := WholeText)
  {
    seq(|Templates|, k requires 0 <= k < |Templates| => Templates[k].(shape := WholeText))
  }

  function IntendedFirstMatch(s: string): Option<string> {
    FirstMatchFrom(IntendedTemplates(), s, 0)
  }

  /**
   * Render then detect: a date written with any of the 18 formats is detected as that
   * format, except that a month.day.year date whose day is at most 12 is detected as the
   * day.month.year format of the same separator and time part.
   */
  lemma {:induction false} IntendedDetectsRendered(order: Order, sep: char, withTime: bool, f: DateTime)
    requires Renderable(f) && IsSeparator(sep)
    ensures IntendedFirstMatch(Render(order, sep, withTime, f)) == Some(FormatName(ReadOrder(order, f.day), sep, withTime))
    ensures order != MonthDayYear || f.day > 12 ==> IntendedFirstMatch(Render(order, sep, withTime, f)) == Some(FormatName(order, sep, withTime))
  {
    DetectRendered(IntendedTemplates(), order, sep, withTime, f);
  }
}
