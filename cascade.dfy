/**
 * The unit cascade of the modify* family: an amount that is not a whole number is
 * re-expressed in the next finer unit (years as 12 months, months as 4 weeks, weeks as 7
 * days, days as 24 hours, hours as 60 minutes, minutes as 60 seconds) until it is whole,
 * and the whole amount becomes one interval in that unit. A fraction of a second cannot
 * be written as an interval and is reported as unsupported.
 *
 * Amounts are exact rationals here; the source computes them in floating point.
 */
module Cascade {

  datatype Unit = Year | Month | Week | Day | Hour | Minute | Second

  /** How many steps above seconds a unit stands. */
  function Depth(u: Unit): nat {
    match u
    case Year => 6
    case Month => 5
    case Week => 4
    case Day => 3
    case Hour => 2
    case Minute => 1
    case Second => 0
  }

  /** The unit a fractional amount is re-expressed in. */
  function Finer(u: Unit): (f: Unit)
    requires u != Second
    ensures Depth(f) + 1 == Depth(u)
  {
    match u
    case Year => Month
    case Month => Week
    case Week => Day
    case Day => Hour
    case Hour => Minute
    case Minute => Second
  }

  /** How many of the finer unit the cascade counts in one of u. */
  function Multiplier(u: Unit): (n: nat)
    requires u != Second
    ensures n > 0
  {
    match u
    case Year => 12
    case Month => 4
    case Week => 7
    case Day => 24
    case Hour => 60
    case Minute => 60
  }

  /** The length of a unit in seconds, as the cascade counts it (a month is 4 weeks). */
  function Scale(u: Unit): (n: nat)
    ensures n > 0
  {
    match u
    case Year => 29030400
    case Month => 2419200
    case Week => 604800
    case Day => 86400
    case Hour => 3600
    case Minute => 60
    case Second => 1
  }

  /** Each unit is its multiplier times the finer unit. */
  lemma ScaleOfFiner(u: Unit)
    requires u != Second
    ensures Scale(u) == Multiplier(u) * Scale(Finer(u))
  {
  }

  predicate IsWhole(r: real) {
    r.Floor as real == r
  }

  /** An integer as a real number. */
  function Real(n: int): real {
    n as real
  }

  /** isFloat: a float whose integer part differs from it; an integer or a whole float is not. */
  predicate IsFloat(amount: real) {
    !IsWhole(amount)
  }

  /** An amount is a float exactly when no integer equals it. */
  lemma IsFloatFractional(amount: real)
    ensures IsFloat(amount) <==> forall n :: Real(n) != amount
  {
    if IsWhole(amount) {
      assert Real(amount.Floor) == amount;
    }
  }

  /** An interval `P<n>Y`, `P<n>M`, `P<n>W`, `P<n>D`, `PT<n>H`, `PT<n>M` or `PT<n>S`, and whether it is subtracted. */
  datatype Interval = Interval(unit: Unit, count: nat, invert: bool)

  datatype Step = Apply(interval: Interval) | Unsupported

  /** The count of an interval, negative when it is subtracted. */
  function SignedCount(iv: Interval): int {
    if iv.invert then -(iv.count as int) else iv.count
  }

  /** Reversing an interval negates its signed count. */
  lemma SignedCountReversed(iv: Interval)
    ensures SignedCount(iv.(invert := !iv.invert)) == -SignedCount(iv)
  {
  }

  /** modifyYears ... modifySeconds: the interval an amount of a unit is applied as. */
  function Modification(u: Unit, amount: real, invert: bool): (r: Step)
    requires amount >= 0.0
    decreases Depth(u)
  {
    if u == Second then
      if IsFloat(amount) then Unsupported else Apply(Interval(Second, amount.Floor, invert))
    else if IsFloat(amount) then
      Modification(Finer(u), amount * Multiplier(u) as real, invert)
    else
      Apply(Interval(u, amount.Floor, invert))
  }

  /** The length of an interval in seconds, months counted as 4 weeks. */
  function IntervalSeconds(iv: Interval): real {
    iv.count as real * Scale(iv.unit) as real
  }

  /** The length of an amount of a unit in seconds, months counted as 4 weeks. */
  function AmountSeconds(u: Unit, amount: real): real {
    amount * Scale(u) as real
  }

  lemma WholeTimesWhole(amount: real, k: nat)
    requires IsWhole(amount)
    ensures IsWhole(amount * k as real)
  {
    var n := amount.Floor;
    assert amount * k as real == (n * k) as real;
  }

  /** Re-expressing an amount in the finer unit keeps its length. */
  lemma FinerLength(u: Unit, amount: real)
    requires u != Second
    ensures AmountSeconds(Finer(u), amount * Multiplier(u) as real) == AmountSeconds(u, amount)
  {
    var m, f := Multiplier(u) as real, Scale(Finer(u)) as real;
    ScaleOfFiner(u);
    assert Scale(u) as real == m * f;
    assert (amount * m) * f == amount * (m * f);
  }

  /** A whole amount, written as an interval of its own unit, keeps its length. */
  lemma WholeLength(u: Unit, amount: real, invert: bool)
    requires amount >= 0.0 && IsWhole(amount)
    ensures IntervalSeconds(Interval(u, amount.Floor, invert)) == AmountSeconds(u, amount)
  {
  }

  /** The interval the cascade settles on has the length of the amount asked for. */
  lemma {:induction false} ModificationPreservesLength(u: Unit, amount: real, invert: bool)
    requires amount >= 0.0
    ensures Modification(u, amount, invert).Apply? ==>
      IntervalSeconds(Modification(u, amount, invert).interval) == AmountSeconds(u, amount)
    decreases Depth(u)
  {
    if u != Second && IsFloat(amount) {
      ModificationPreservesLength(Finer(u), amount * Multiplier(u) as real, invert);
      FinerLength(u, amount);
    } else if !IsFloat(amount) {
      WholeLength(u, amount, invert);
    }
  }

  /**
   * The interval the cascade settles on keeps the direction, and is in the unit asked for
   * exactly when the amount is whole, and in a finer unit otherwise.
   */
  lemma {:induction false} ModificationUnit(u: Unit, amount: real, invert: bool)
    requires amount >= 0.0
    ensures Modification(u, amount, invert).Apply? ==>
      var iv := Modification(u, amount, invert).interval;
      iv.invert == invert
      && Depth(iv.unit) <= Depth(u)
      && (iv.unit == u <==> IsWhole(amount))
    decreases Depth(u)
  {
    var r := Modification(u, amount, invert);
    if u != Second && IsFloat(amount) {
      var a := amount * Multiplier(u) as real;
      assert r == Modification(Finer(u), a, invert);
      ModificationUnit(Finer(u), a, invert);
    }
  }

  /** A modification fails exactly when the amount is not a whole number of seconds. */
  lemma {:induction false} ModificationUnsupported(u: Unit, amount: real, invert: bool)
    requires amount >= 0.0
    ensures Modification(u, amount, invert).Unsupported? <==> !IsWhole(AmountSeconds(u, amount))
    decreases Depth(u)
  {
    var r := Modification(u, amount, invert);
    if u == Second {
      assert Scale(u) == 1;
      assert amount * 1 as real == amount;
    } else if IsFloat(amount) {
      var a := amount * Multiplier(u) as real;
      assert r == Modification(Finer(u), a, invert);
      ModificationUnsupported(Finer(u), a, invert);
      FinerLength(u, amount);
    } else {
      assert r.Apply?;
      WholeTimesWhole(amount, Scale(u));
    }
  }

  /** A step with its interval, if any, turned to the given direction. */
  function Directed(r: Step, invert: bool): Step {
    match r
    case Apply(iv) => Apply(iv.(invert := invert))
    case Unsupported => Unsupported
  }

  /** Adding and subtracting choose the same unit and count, or both fail; only the direction differs. */
  lemma {:induction false} ModificationDirection(u: Unit, amount: real, invert: bool)
    requires amount >= 0.0
    ensures Modification(u, amount, invert) == Directed(Modification(u, amount, false), invert)
    decreases Depth(u)
  {
    if u != Second && IsFloat(amount) {
      ModificationDirection(Finer(u), amount * Multiplier(u) as real, invert);
    }
  }

  /** Half a year, a month and a half, and a tenth of a day, as the cascade applies them. */
  lemma ModificationExamples()
    ensures Modification(Year, 0.5, false) == Apply(Interval(Month, 6, false))
    ensures Modification(Month, 1.5, false) == Apply(Interval(Week, 6, false))
    ensures Modification(Day, 0.1, true) == Apply(Interval(Minute, 144, true))
    ensures Modification(Day, 2.0, false) == Apply(Interval(Day, 2, false))
    ensures Modification(Minute, 0.01, false) == Unsupported
  {
    assert Modification(Year, 0.5, false) == Modification(Month, 6.0, false) by {
      assert (0.5).Floor == 0;
    }
    assert (6.0).Floor == 6;
    assert Modification(Month, 1.5, false) == Modification(Week, 6.0, false) by {
      assert (1.5).Floor == 1;
    }
    assert Modification(Day, 0.1, true) == Modification(Hour, 2.4, true) by {
      assert (0.1).Floor == 0;
    }
    assert Modification(Hour, 2.4, true) == Modification(Minute, 144.0, true) by {
      assert (2.4).Floor == 2;
    }
    assert (144.0).Floor == 144;
    assert (2.0).Floor == 2;
  }
}
