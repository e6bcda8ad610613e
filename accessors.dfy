/**
 * The pure pieces of ExopiteDate's accessors: the prefix dispatch of `__call`, the tables
 * of attribute names it dispatches to, the week-start setting and the weekday index
 * computed from it, and the format aliases of getDate and getDateTime.
 */
module Accessors {
  import opened Wrappers
  import FormatDetector

  // ---------------------------------------------------------------- __call

  /** What `__call` makes of a method name. */
  datatype CallKind = Getter(attribute: string) | Setter(attribute: string) | Tester(attribute: string) | NotHandled

  /**
   * `__call`: a name starting with "get" or "set" names an attribute to read or write
   * (checked first), one starting with "is" an attribute to test; the attribute is the rest
   * of the name. Any other name is not handled (InvalidArgumentException).
   */
  function ParseCall(name: string): (k: CallKind)
    ensures k.Getter? ==> name == "get" + k.attribute
    ensures k.Setter? ==> name == "set" + k.attribute
    ensures k.Tester? ==> name == "is" + k.attribute && !(|name| >= 3 && name[..3] in {"get", "set"})
  {
    if |name| >= 3 && name[..3] == "get" then Getter(name[3..])
    else if |name| >= 3 && name[..3] == "set" then Setter(name[3..])
    else if |name| >= 2 && name[..2] == "is" then Tester(name[2..])
    else NotHandled
  }

  /** The method name a dispatch result comes from. */
  function CallName(k: CallKind): string
    requires !k.NotHandled?
  {
    match k
    case Getter(a) => "get" + a
    case Setter(a) => "set" + a
    case Tester(a) => "is" + a
  }

  /** Every getter, setter and tester name is dispatched to its attribute. */
  lemma ParseCallName(k: CallKind)
    requires !k.NotHandled?
    ensures ParseCall(CallName(k)) == k
  {
    var name := CallName(k);
    match k
    case Getter(a) => assert name[..3] == "get" && name[3..] == a;
    case Setter(a) => assert name[..3] == "set" && name[3..] == a;
    case Tester(a) => assert name[0] == 'i' && name[..2] == "is" && name[2..] == a;
  }

  lemma PrefixIsHandled(name: string, a: string)
    ensures name == "get" + a || name == "set" + a || name == "is" + a ==> !ParseCall(name).NotHandled?
  {
    if name == "get" + a {
      assert name[..3] == "get";
    } else if name == "set" + a {
      assert name[..3] == "set";
    } else if name == "is" + a {
      assert name[..2] == "is";
    }
  }

  /** A name is not handled exactly when it has none of the three prefixes. */
  lemma ParseCallNotHandled(name: string)
    ensures ParseCall(name).NotHandled? <==>
      forall a :: name != "get" + a && name != "set" + a && name != "is" + a
  {
    if !ParseCall(name).NotHandled? {
      var k := ParseCall(name);
      assert name == CallName(k);
    } else {
      forall a
        ensures name != "get" + a && name != "set" + a && name != "is" + a
      {
        PrefixIsHandled(name, a);
      }
    }
  }

  // ---------------------------------------------------------------- attribute names

  /** The attributes getDateAttribute knows. */
  datatype GetAttribute =
    | Day | Month | Year | Hour | Minute | Second
    | DayOfWeek | DayOfWeekAsNumeric | DaysInMonth | DayOfYear | DaySuffix
    | GmtDifference | SecondsSinceEpoch | TimezoneName

  /** The attributes isDateAttribute knows. */
  datatype TestAttribute = LeapYear | AmOrPm | DaylightSavings

  /** The attributes setDateAttribute knows: the six calendar fields. */
  datatype Field = FieldDay | FieldMonth | FieldYear | FieldHour | FieldMinute | FieldSecond

  function GetAttributeName(a: GetAttribute): string {
    match a
    case Day => "Day"
    case Month => "Month"
    case Year => "Year"
    case Hour => "Hour"
    case Minute => "Minute"
    case Second => "Second"
    case DayOfWeek => "DayOfWeek"
    case DayOfWeekAsNumeric => "DayOfWeekAsNumeric"
    case DaysInMonth => "DaysInMonth"
    case DayOfYear => "DayOfYear"
    case DaySuffix => "DaySuffix"
    case GmtDifference => "GmtDifference"
    case SecondsSinceEpoch => "SecondsSinceEpoch"
    case TimezoneName => "TimezoneName"
  }

  /** The switch of getDateAttribute; None stands for InvalidArgumentException. */
  function LookupGetAttribute(name: string): (r: Option<GetAttribute>)
    ensures r.Some? ==> GetAttributeName(r.value) == name
  {
    match name
    case "Day" => Some(Day)
    case "Month" => Some(Month)
    case "Year" => Some(Year)
    case "Hour" => Some(Hour)
    case "Minute" => Some(Minute)
    case "Second" => Some(Second)
    case "DayOfWeek" => Some(DayOfWeek)
    case "DayOfWeekAsNumeric" => Some(DayOfWeekAsNumeric)
    case "DaysInMonth" => Some(DaysInMonth)
    case "DayOfYear" => Some(DayOfYear)
    case "DaySuffix" => Some(DaySuffix)
    case "GmtDifference" => Some(GmtDifference)
    case "SecondsSinceEpoch" => Some(SecondsSinceEpoch)
    case "TimezoneName" => Some(TimezoneName)
    case _ => None
  }

  lemma LookupGetAttributeName(a: GetAttribute)
    ensures LookupGetAttribute(GetAttributeName(a)) == Some(a)
  {
  }

  function TestAttributeName(a: TestAttribute): string {
    match a
    case LeapYear => "LeapYear"
    case AmOrPm => "AmOrPm"
    case DaylightSavings => "DaylightSavings"
  }

  /** The switch of isDateAttribute; None stands for InvalidArgumentException. */
  function LookupTestAttribute(name: string): (r: Option<TestAttribute>)
    ensures r.Some? ==> TestAttributeName(r.value) == name
  {
    match name
    case "LeapYear" => Some(LeapYear)
    case "AmOrPm" => Some(AmOrPm)
    case "DaylightSavings" => Some(DaylightSavings)
    case _ => None
  }

  lemma LookupTestAttributeName(a: TestAttribute)
    ensures LookupTestAttribute(TestAttributeName(a)) == Some(a)
  {
  }

  function FieldName(f: Field): string {
    match f
    case FieldDay => "Day"
    case FieldMonth => "Month"
    case FieldYear => "Year"
    case FieldHour => "Hour"
    case FieldMinute => "Minute"
    case FieldSecond => "Second"
  }

  /** The switch of setDateAttribute; None stands for InvalidArgumentException. */
  function LookupField(name: string): (r: Option<Field>)
    ensures r.Some? ==> FieldName(r.value) == name
  {
    match name
    case "Day" => Some(FieldDay)
    case "Month" => Some(FieldMonth)
    case "Year" => Some(FieldYear)
    case "Hour" => Some(FieldHour)
    case "Minute" => Some(FieldMinute)
    case "Second" => Some(FieldSecond)
    case _ => None
  }

  /** Every field that can be set can be read under the same name. */
  lemma FieldsAreReadable(f: Field)
    ensures LookupField(FieldName(f)) == Some(f)
    ensures LookupGetAttribute(FieldName(f)).Some?
  {
  }

  // ---------------------------------------------------------------- the week start

  /** The stored week start: a number, or false when a day name was not recognised. */
  datatype WeekStart = Index(n: int) | NotFound

  /** What setWeekStartDay is given: a number, or a text. */
  datatype WeekStartArgument = Numeric(n: int) | Text(s: string)

  /** strtolower on ASCII letters. */
  function Lower(s: string): (r: string)
    ensures |r| == |s|
    ensures forall i :: 0 <= i < |s| ==> r[i] == if 'A' <= s[i] <= 'Z' then (s[i] as int + 32) as char else s[i]
  {
    if s == [] then []
    else [if 'A' <= s[0] <= 'Z' then (s[0] as int + 32) as char else s[0]] + Lower(s[1..])
  }

  /** Lowering is idempotent. */
  lemma LowerIdempotent(s: string)
    ensures Lower(Lower(s)) == Lower(s)
  {
  }

  /**
   * setWeekStartDay: a number (or a text of decimal digits) is stored as it is; any other
   * text is looked up, in lower case, among "sunday" (0) and "monday" (1), and false is
   * stored when it is neither.
   */
  function WeekStartOf(arg: WeekStartArgument): (w: WeekStart)
    ensures arg.Numeric? ==> w == Index(arg.n)
    ensures arg.Text? && arg.s != [] && FormatDetector.AllDigits(arg.s) ==> w == Index(FormatDetector.Number(arg.s))
    ensures arg.Text? && !(arg.s != [] && FormatDetector.AllDigits(arg.s)) ==>
      (w == Index(0) <==> Lower(arg.s) == "sunday") && (w == Index(1) <==> Lower(arg.s) == "monday")
      && (w.NotFound? <==> Lower(arg.s) != "sunday" && Lower(arg.s) != "monday")
  {
    match arg
    case Numeric(n) => Index(n)
    case Text(s) =>
      if s != [] && FormatDetector.AllDigits(s) then Index(FormatDetector.Number(s))
      else if Lower(s) == "sunday" then Index(0)
      else if Lower(s) == "monday" then Index(1)
      else NotFound
  }

  /** The day names are recognised in any mix of cases. */
  lemma WeekStartIgnoresCase(s: string)
    requires !FormatDetector.AllDigits(s)
    ensures WeekStartOf(Text(s)) == WeekStartOf(Text(Lower(s)))
  {
    LowerIdempotent(s);
  }

  /** The number the week start counts as in arithmetic: false counts as 0. */
  function WeekStartValue(w: WeekStart): int {
    match w
    case Index(n) => n
    case NotFound => 0
  }

  /** PHP's `%`: the remainder takes the sign of the dividend. */
  function TruncMod(a: int, b: int): (r: int)
    requires b > 0
    ensures -b < r < b
    ensures a >= 0 ==> 0 <= r
    ensures a < 0 ==> r <= 0
  {
    if a >= 0 then a % b else -((-a) % b)
  }

  /**
   * getDayOfWeekAsNumeric: `(7 + w - weekStartDay) % 7` for the weekday w (0 = Sunday).
   */
  function DayOfWeekIndex(w: int, start: WeekStart): (i: int)
    requires 0 <= w <= 6
    ensures -7 < i < 7
  {
    TruncMod(7 + w - WeekStartValue(start), 7)
  }

  /**
   * For a week start from 0 to 7 the index is the number of days, 0..6, since the last
   * weekday the week starts on.
   */
  lemma DayOfWeekIndexCounts(w: int, start: WeekStart)
    requires 0 <= w <= 6 && 0 <= WeekStartValue(start) <= 7
    ensures 0 <= DayOfWeekIndex(w, start) <= 6
    ensures (WeekStartValue(start) + DayOfWeekIndex(w, start)) % 7 == w
  {
  }

  /**
   * Examples of setWeekStartDay and dayOfWeekAsNumeric: the numeric text "1" is stored as
   * the number 1, and a week start of 8 on a Sunday gives the index -1.
   */
  lemma AccessorExamples()
    ensures WeekStartOf(Text("1")) == Index(1)
    ensures DayOfWeekIndex(0, Index(8)) == -1
  {
    assert "1"[..0] == [];
  }

  // ---------------------------------------------------------------- getDate and getDateTime

  /** PHP's empty() on the format argument: null, "" and "0". */
  predicate IsEmptyFormat(format: Option<string>) {
    format.None? || format.value == "" || format.value == "0"
  }

  /** getDate: the format it hands to DateTime::format. */
  function DateFormatFor(format: Option<string>): (r: string)
    ensures IsEmptyFormat(format) ==> r == FormatDetector.FormatName(FormatDetector.YearMonthDay, '-', false)
  {
    if format == Some("en_US") || format == Some("us") then "m/d/Y"
    else if format == Some("de") || format == Some("de_DE") || format == Some("deutsch") then "d.m.Y"
    else if format == Some("hu") || format == Some("hu_HU") || format == Some("magyar") then "Y.m.d"
    else if IsEmptyFormat(format) then "Y-m-d"
    else format.value
  }

  /** getDateTime: the format it hands to DateTime::format. */
  function DateTimeFormatFor(format: Option<string>): (r: string)
    ensures IsEmptyFormat(format) ==> r == FormatDetector.FormatName(FormatDetector.YearMonthDay, '-', true)
  {
    if format == Some("en_US") || format == Some("us") then "m/d/Y H:i:s"
    else if format == Some("de") || format == Some("de_DE") || format == Some("deutsch") then "d.m.Y H:i:s"
    else if format == Some("hu") || format == Some("hu_HU") || format == Some("magyar") then "Y.m.d H:i:s"
    else if IsEmptyFormat(format) then "Y-m-d H:i:s"
    else format.value
  }

  predicate IsAlias(name: string) {
    name in {"en_US", "us", "de", "de_DE", "deutsch", "hu", "hu_HU", "magyar"}
  }

  /**
   * The aliases and the default name formats of the detection table, getDateTime's being
   * getDate's with the time part; any other format is passed on unchanged.
   */
  lemma FormatAliases(format: Option<string>)
    ensures IsEmptyFormat(format) || (format.Some? && IsAlias(format.value)) ==>
      exists order: FormatDetector.Order, sep: char :: FormatDetector.IsSeparator(sep)
        && DateFormatFor(format) == FormatDetector.FormatName(order, sep, false)
        && DateTimeFormatFor(format) == FormatDetector.FormatName(order, sep, true)
    ensures !IsEmptyFormat(format) && !IsAlias(format.value) ==>
      DateFormatFor(format) == format.value && DateTimeFormatFor(format) == format.value
  {
    if format == Some("en_US") || format == Some("us") {
      assert DateFormatFor(format) == FormatDetector.FormatName(FormatDetector.MonthDayYear, '/', false);
    } else if format == Some("de") || format == Some("de_DE") || format == Some("deutsch") {
      assert DateFormatFor(format) == FormatDetector.FormatName(FormatDetector.DayMonthYear, '.', false);
    } else if format == Some("hu") || format == Some("hu_HU") || format == Some("magyar") {
      assert DateFormatFor(format) == FormatDetector.FormatName(FormatDetector.YearMonthDay, '.', false);
    } else if IsEmptyFormat(format) {
      assert DateFormatFor(format) == FormatDetector.FormatName(FormatDetector.YearMonthDay, '-', false);
    }
  }
}
