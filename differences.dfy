/**
 * The differences between two dates: the getDifferenceIn* family, which composes its
 * answer from the parts of a DateInterval, and getRelativeDate, which scales the elapsed
 * seconds up through seconds, minutes, hours, days, weeks, months and years.
 *
 * The DateInterval that DateTime::diff produces is taken as given: its year and month
 * parts come from the platform calendar. Its day, hour, minute and second parts and its
 * sign are tied to the two instants by TimePartOf.
 */
module Differences {
  import FormatDetector

  /** PHP's integer division toward zero, for a positive divisor. */
  function TruncDiv(a: int, b: int): (q: int)
    requires b > 0
    ensures a >= 0 ==> q * b <= a < q * b + b
    ensures a < 0 ==> q * b - b < a <= q * b
  {
    if a >= 0 then a / b else -((-a) / b)
  }

  // ---------------------------------------------------------------- getDifferenceIn*

  /**
   * The parts of a DateInterval: whole years and months (`%y`, `%m`), the total number of
   * whole days (`%a`), the hours, minutes and seconds left over (`%h`, `%i`, `%s`), and
   * whether the interval runs backwards (`%r`).
   */
  datatype Diff = Diff(years: nat, months: nat, days: nat, hours: nat, minutes: nat, seconds: nat, invert: bool)

  predicate WellFormed(d: Diff) {
    d.months < 12 && d.hours < 24 && d.minutes < 60 && d.seconds < 60
  }

  /** The diff from `from` to `to` has these day and time parts and this sign. */
  predicate TimePartOf(d: Diff, from: int, to: int) {
    WellFormed(d) && d.invert == (to < from)
    && 86400 * d.days + 3600 * d.hours + 60 * d.minutes + d.seconds == if to < from then from - to else to - from
  }

  /** `%r1`: -1 for a backward interval, 1 otherwise. */
  function Sign(d: Diff): (s: int)
    ensures s == 1 || s == -1
  {
    if d.invert then -1 else 1
  }

  /** getDifferenceInYears: `%r%y`. */
  function DifferenceInYears(d: Diff): (r: int)
    ensures r == 0 <==> d.years == 0
    ensures r < 0 <==> d.invert && d.years > 0
  {
    Sign(d) * d.years
  }

  /** getDifferenceInMonths: (12 years + months), signed. */
  function DifferenceInMonths(d: Diff): (r: int)
    ensures r == 0 <==> d.years == 0 && d.months == 0
    ensures r < 0 <==> d.invert && r != 0
  {
    (12 * d.years + d.months) * Sign(d)
  }

  /** getDifferenceInDays: `%r%a`. */
  function DifferenceInDays(d: Diff): (r: int)
    ensures r == 0 <==> d.days == 0
    ensures r < 0 <==> d.invert && d.days > 0
  {
    Sign(d) * d.days
  }

  /** getDifferenceInSeconds: the seconds of the days, hours, minutes and seconds, signed. */
  function DifferenceInSeconds(d: Diff): (r: int)
    ensures r == 0 <==> d.days == 0 && d.hours == 0 && d.minutes == 0 && d.seconds == 0
    ensures r < 0 <==> d.invert && r != 0
  {
    (d.seconds + d.days * 24 * 60 * 60 + d.hours * 60 * 60 + d.minutes * 60) * Sign(d)
  }

  /** getDifferenceInMinutes: the seconds over 60. */
  function DifferenceInMinutes(d: Diff): (r: real)
    ensures r * 60.0 == DifferenceInSeconds(d) as real
  {
    DifferenceInSeconds(d) as real / 60.0
  }

  /** getDifferenceInHours: the minutes over 60. */
  function DifferenceInHours(d: Diff): (r: real)
    ensures r * 3600.0 == DifferenceInSeconds(d) as real
  {
    DifferenceInMinutes(d) / 60.0
  }

  /** The difference in seconds is the time elapsed from one instant to the other, signed. */
  lemma DifferenceInSecondsIsElapsed(d: Diff, from: int, to: int)
    requires TimePartOf(d, from, to)
    ensures DifferenceInSeconds(d) == to - from
    ensures DifferenceInMinutes(d) * 60.0 == (to - from) as real
    ensures DifferenceInHours(d) * 3600.0 == (to - from) as real
  {
  }

  /** The difference in days is the elapsed time in whole days, rounded toward zero. */
  lemma DifferenceInDaysTruncates(d: Diff, from: int, to: int)
    requires TimePartOf(d, from, to)
    ensures DifferenceInDays(d) == TruncDiv(to - from, 86400)
  {
    var rest := 3600 * d.hours + 60 * d.minutes + d.seconds;
    assert 0 <= rest < 86400;
    if to < from {
      assert from - to == 86400 * d.days + rest;
      assert (from - to) / 86400 == d.days;
    } else {
      assert (to - from) / 86400 == d.days;
    }
  }

  /** The difference in years is the difference in months in whole years, rounded toward zero. */
  lemma DifferenceInYearsFromMonths(d: Diff)
    requires WellFormed(d)
    ensures DifferenceInYears(d) == TruncDiv(DifferenceInMonths(d), 12)
  {
    var m := 12 * d.years + d.months;
    assert m / 12 == d.years;
    if d.invert {
      assert DifferenceInMonths(d) == -m;
    }
  }

  // ---------------------------------------------------------------- getRelativeDate

  /** The divisors of getRelativeDate, from seconds up to years (4.35 weeks in a month). */
  const Divisors: seq<real> := [60.0, 60.0, 24.0, 7.0, 4.35, 12.0]

  const UnitNames: seq<string> := ["second", "minute", "hour", "day", "week", "month", "year"]

  /** The length in seconds of the i-th unit of getRelativeDate. */
  function Span(i: nat): (r: real)
    requires i <= 6
    ensures r >= 1.0
  {
    if i == 0 then 1.0 else Span(i - 1) * Divisors[i - 1]
  }

  /** An amount of the i-th unit, in seconds. */
  function InSeconds(amount: real, i: nat): real
    requires i <= 6
  {
    amount * Span(i)
  }

  /** Dividing by the i-th divisor counts the same time in the next unit. */
  lemma InNextUnit(amount: real, i: nat)
    requires i < 6
    ensures InSeconds(amount / Divisors[i], i + 1) == InSeconds(amount, i)
  {
    var d, s := Divisors[i], Span(i);
    assert d > 0.0;
    assert Span(i + 1) == s * d;
    assert (amount / d) * (s * d) == amount * s;
  }

  /**
   * The scaling loop of getRelativeDate: divide by the next divisor while there is one and
   * the difference reaches it. The result is the difference and the index of its unit.
   */
  function Scaled(difference: real, i: nat): (r: (real, nat))
    requires i <= 6
    ensures i <= r.1 <= 6
    decreases 6 - i
  {
    if i < 6 && difference >= Divisors[i] then Scaled(difference / Divisors[i], i + 1)
    else (difference, i)
  }

  /**
   * The scaled difference is the elapsed seconds counted in its unit: at least one of it
   * (unless it is in seconds) and less than one of the next unit (unless it is in years).
   */
  lemma {:induction false} ScaledCounts(seconds: real, difference: real, i: nat)
    requires i <= 6 && InSeconds(difference, i) == seconds
    requires i > 0 ==> difference >= 1.0
    ensures var (n, j) := Scaled(difference, i);
      InSeconds(n, j) == seconds && (j > 0 ==> n >= 1.0) && (j < 6 ==> n < Divisors[j])
    decreases 6 - i
  {
    if i < 6 && difference >= Divisors[i] {
      var next := difference / Divisors[i];
      InNextUnit(difference, i);
      assert next >= 1.0;
      ScaledCounts(seconds, next, i + 1);
    }
  }

  /** A longer time is never told in a smaller unit. */
  lemma {:induction false} ScaledMonotonic(a: real, b: real, i: nat)
    requires i <= 6 && 0.0 <= a <= b
    ensures Scaled(a, i).1 <= Scaled(b, i).1
    decreases 6 - i
  {
    if i < 6 && a >= Divisors[i] {
      ScaledMonotonic(a / Divisors[i], b / Divisors[i], i + 1);
    }
  }

  /** PHP's round() on a non-negative number: halves go up. */
  function Round(x: real): (n: nat)
    requires x >= 0.0
    ensures n as real - 0.5 <= x < n as real + 0.5
  {
    (x + 0.5).Floor
  }

  /** n in decimal, as PHP prints a whole number. */
  function Decimal(n: nat): (t: string)
    ensures |t| > 0 && FormatDetector.AllDigits(t) && FormatDetector.Number(t) == n
    ensures n == 0 ==> t == "0"
    ensures n > 0 ==> t[0] != '0'
  {
    var last := [FormatDetector.DigitChar(n % 10)];
    if n < 10 then last else Decimal(n / 10) + last
  }

  /** What getRelativeDate says: an amount of a unit, and "ago" or "from now". */
  datatype Relative = Relative(amount: nat, unit: nat, future: bool)

  /** The relative date of `self` seen from `compare`. */
  function RelativeOf(self: int, compare: int): (r: Relative)
    ensures r.unit <= 6
    ensures r.future <==> compare < self
  {
    var elapsed := if compare < self then self - compare else compare - self;
    var (difference, i) := Scaled(elapsed as real, 0);
    Relative(Round(difference), i, compare < self)
  }

  /** The text of a relative date: the unit takes an "s" unless the amount is exactly 1. */
  function RelativeText(r: Relative): string
    requires r.unit <= 6
  {
    var unit := if r.amount != 1 then UnitNames[r.unit] + "s" else UnitNames[r.unit];
    Decimal(r.amount) + " " + unit + " " + (if r.future then "from now" else "ago")
  }

  /**
   * The text of a relative date starts with the amount in decimal and a space, and ends
   * with " from now" for a date in the future and with " ago" otherwise.
   */
  lemma RelativeTextShape(r: Relative)
    requires r.unit <= 6
    ensures var t, k := RelativeText(r), |Decimal(r.amount)|;
      |t| > k && FormatDetector.AllDigits(t[..k]) && FormatDetector.Number(t[..k]) == r.amount && t[k] == ' '
    ensures var t := RelativeText(r); r.future <==> |t| >= 9 && t[|t| - 9..] == " from now"
    ensures var t := RelativeText(r); !r.future <==> |t| >= 4 && t[|t| - 4..] == " ago"
  {
    var unit := if r.amount != 1 then UnitNames[r.unit] + "s" else UnitNames[r.unit];
    var number := Decimal(r.amount);
    PhraseStarts(number, unit, if r.future then "from now" else "ago");
    PhraseEnds(number + " " + unit, r.future);
  }

  lemma PhraseStarts(number: string, unit: string, tail: string)
    ensures var t := number + " " + unit + " " + tail;
      |t| > |number| && t[..|number|] == number && t[|number|] == ' '
  {
    var t := number + " " + unit + " " + tail;
    assert t == number + (" " + unit + " " + tail);
  }

  lemma PhraseEnds(head: string, future: bool)
    ensures var t := head + " " + (if future then "from now" else "ago");
      (future <==> |t| >= 9 && t[|t| - 9..] == " from now") && (!future <==> |t| >= 4 && t[|t| - 4..] == " ago")
  {
    var t := head + " " + (if future then "from now" else "ago");
    assert t[|t| - 1] == if future then 'w' else 'o';
    if future {
      assert t[|t| - 9..] == " from now";
    } else {
      assert t[|t| - 4..] == " ago";
    }
  }

  /**
   * The amount of a relative date is the elapsed time counted in its unit, rounded: at
   * least one unit unless in seconds, and under one of the next unit unless in years.
   */
  lemma RelativeAmount(self: int, compare: int)
    ensures var r := RelativeOf(self, compare);
      var elapsed := if compare < self then self - compare else compare - self;
      exists difference: real :: difference >= 0.0 && InSeconds(difference, r.unit) == elapsed as real
        && r.amount == Round(difference)
        && (r.unit > 0 ==> difference >= 1.0)
        && (r.unit < 6 ==> difference < Divisors[r.unit])
  {
    var elapsed := if compare < self then self - compare else compare - self;
    ScaledCounts(elapsed as real, elapsed as real, 0);
    var r := RelativeOf(self, compare);
    var p := Scaled(elapsed as real, 0);
    assert r.amount == Round(p.0) && r.unit == p.1;
    var n := p.0;
    assert n >= 0.0 && InSeconds(n, r.unit) == elapsed as real && r.amount == Round(n)
      && (r.unit > 0 ==> n >= 1.0) && (r.unit < 6 ==> n < Divisors[r.unit]);
  }

  /** Seen from either side, two dates are the same amount of the same unit apart. */
  lemma RelativeSymmetric(a: int, b: int)
    requires a != b
    ensures RelativeOf(a, b).amount == RelativeOf(b, a).amount
    ensures RelativeOf(a, b).unit == RelativeOf(b, a).unit
    ensures RelativeOf(a, b).future != RelativeOf(b, a).future
  {
  }

  /**
   * getRelativeDate: the loop that scales the elapsed seconds, then the rounding, the unit
   * name and the suffix.
   */
  method RelativeDate(self: int, compare: int) returns (text: string)
    ensures text == RelativeText(RelativeOf(self, compare))
  {
    var elapsed := if compare < self then self - compare else compare - self;
    var difference: real := elapsed as real;
    var i: nat := 0;
    while i < |Divisors| && difference >= Divisors[i]
      invariant i <= 6
      invariant Scaled(difference, i) == Scaled(elapsed as real, 0)
    {
      difference := difference / Divisors[i];
      i := i + 1;
    }
    var amount := Round(difference);
    assert RelativeOf(self, compare) == Relative(amount, i, compare < self);
    var suffix := if compare < self then "from now" else "ago";
    var unit := UnitNames[i];
    if amount != 1 {
      unit := unit + "s";
    }
    text := Decimal(amount) + " " + unit + " " + suffix;
  }

  lemma RelativeExamples()
    ensures RelativeOf(0, 90) == Relative(2, 1, false)
    ensures RelativeOf(90, 0) == Relative(2, 1, true)
    ensures RelativeOf(0, 1) == Relative(1, 0, false)
    ensures RelativeOf(0, 3 * 86400) == Relative(3, 3, false)
  {
    assert Scaled(90.0, 0) == (1.5, 1);
    assert Scaled(259200.0, 0) == (3.0, 3);
  }
}
