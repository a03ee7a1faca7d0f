/**
 Proleptic Gregorian calendar arithmetic at day precision.

 Every date here is a valid calendar day. The heatmap reads a date's year,
 month, day of month and weekday, advances it by one day or to the first of the
 next month, and builds the last day of a month; those operations are made
 explicit here (`NextDay`, `FirstOfNextMonth`, `LastDayOfMonth`).
 Months are numbered 1..12, while JavaScript's `getMonth()` is 0-based;
 `LastDayOfMonth` and `FirstOfNextMonth` take the 1-based month in place of the
 0-based one the source passes to the `Date` constructor and `setFullYear`.
 */
module Calendar {

  datatype Date = Date(year: int, month: int, day: int)

  /** Gregorian leap rule: divisible by 4, except centuries not divisible by 400. */
  predicate IsLeapYear(y: int) {
    y % 4 == 0 && (y % 100 != 0 || y % 400 == 0)
  }

  function DaysInMonth(y: int, m: int): (n: int)
    requires 1 <= m <= 12
    ensures 28 <= n <= 31
    ensures m == 2 ==> (n == 29 <==> IsLeapYear(y))
    ensures m != 2 ==> (n == 30 <==> m in {4, 6, 9, 11})
    ensures m == 2 && !IsLeapYear(y) ==> n == 28
    ensures m !in {2, 4, 6, 9, 11} ==> n == 31
  {
    if m == 2 then (if IsLeapYear(y) then 29 else 28)
    else if m == 4 || m == 6 || m == 9 || m == 11 then 30
    else 31
  }

  predicate ValidDate(d: Date) {
    1 <= d.month <= 12 && 1 <= d.day <= DaysInMonth(d.year, d.month)
  }

  predicate SameMonth(a: Date, b: Date) {
    a.year == b.year && a.month == b.month
  }

  /** Consecutive numbering of calendar months: one more for each month forward. */
  function MonthIndex(d: Date): int {
    d.year * 12 + d.month - 1
  }

  function DaysInYear(y: int): int {
    if IsLeapYear(y) then 366 else 365
  }

  /**
   Days strictly before January 1 of year y, counted from January 1 of year 1
   (negative for earlier years): each year adds its own length.
   */
  function DaysBeforeYear(y: int): int
    decreases if y >= 1 then y - 1 else 1 - y
  {
    if y == 1 then 0
    else if y > 1 then DaysBeforeYear(y - 1) + DaysInYear(y - 1)
    else DaysBeforeYear(y + 1) - DaysInYear(y)
  }

  /** The usual closed form of the year count, with Euclidean (flooring) division. */
  function DaysBeforeYearFormula(y: int): int {
    var p := y - 1;
    365 * p + p / 4 - p / 100 + p / 400
  }

  /** Days in year y strictly before the first of month m. */
  function DaysBeforeMonth(y: int, m: int): int
    requires 1 <= m <= 12
  {
    var common :=
      if m == 1 then 0 else if m == 2 then 31 else if m == 3 then 59
      else if m == 4 then 90 else if m == 5 then 120 else if m == 6 then 151
      else if m == 7 then 181 else if m == 8 then 212 else if m == 9 then 243
      else if m == 10 then 273 else if m == 11 then 304 else 334;
    common + (if m > 2 && IsLeapYear(y) then 1 else 0)
  }

  /** Rata Die day number: January 1 of year 1 is day 1 (a Monday). */
  function DayNumber(d: Date): int
    requires ValidDate(d)
  {
    DaysBeforeYear(d.year) + DaysBeforeMonth(d.year, d.month) + d.day
  }

  /** Weekday as JavaScript's `getDay()` reports it: 0 is Sunday, 6 is Saturday. */
  function DayOfWeek(d: Date): (w: int)
    requires ValidDate(d)
    ensures 0 <= w < 7
  {
    DayNumber(d) % 7
  }

  /**
   JavaScript compares two `Date`s by their time values. At day precision the
   time value is an increasing function of the day number, so `a > b` holds
   exactly when `a`'s day number is larger.
   */
  predicate After(a: Date, b: Date)
    requires ValidDate(a) && ValidDate(b)
  {
    DayNumber(a) > DayNumber(b)
  }

  predicate NotAfter(a: Date, b: Date)
    requires ValidDate(a) && ValidDate(b)
  {
    DayNumber(a) <= DayNumber(b)
  }

  /** `new Date(y, m + 1, 0)`: day 0 of the next month is the last day of this one. */
  function LastDayOfMonth(y: int, m: int): (d: Date)
    requires 1 <= m <= 12
    ensures ValidDate(d) && d.year == y && d.month == m
    ensures forall e :: ValidDate(e) && e.year == y && e.month == m ==> e.day <= d.day
  {
    Date(y, m, DaysInMonth(y, m))
  }

  /** `setFullYear(y, m + 1, 1)`: month 13 of year y is January of year y + 1. */
  function FirstOfNextMonth(d: Date): (r: Date)
    requires ValidDate(d)
    ensures ValidDate(r) && r.day == 1
    ensures MonthIndex(r) == MonthIndex(d) + 1
  {
    if d.month < 12 then Date(d.year, d.month + 1, 1) else Date(d.year + 1, 1, 1)
  }

  /** `setDate(getDate() + 1)`: the following calendar day. */
  function NextDay(d: Date): (r: Date)
    requires ValidDate(d)
    ensures ValidDate(r)
    ensures d.day < DaysInMonth(d.year, d.month) ==> SameMonth(r, d) && r.day == d.day + 1
    ensures d.day == DaysInMonth(d.year, d.month) ==> r == FirstOfNextMonth(d)
  {
    if d.day < DaysInMonth(d.year, d.month) then Date(d.year, d.month, d.day + 1)
    else FirstOfNextMonth(d)
  }

  // ---------------------------------------------------------------------------
  // Arithmetic facts
  // ---------------------------------------------------------------------------

  /** Euclidean division by a positive divisor is determined by quotient and remainder. */
  lemma DivModUnique(a: int, k: int, q: int, r: int)
    requires k > 0 && 0 <= r < k && a == q * k + r
    ensures a / k == q && a % k == r
  {
    var q' := a / k;
    var r' := a % k;
    assert a == q' * k + r';
    if q' < q {
      assert (q - q') * k >= k by { MulAtLeast(q - q', k); }
      assert false;
    } else if q' > q {
      assert (q' - q) * k >= k by { MulAtLeast(q' - q, k); }
      assert false;
    }
  }

  lemma MulAtLeast(x: int, k: int)
    requires x >= 1 && k > 0
    ensures x * k >= k
  {
  }

  /** Stepping over a multiple of k raises the quotient by exactly one. */
  lemma DivStep(p: int, k: int)
    requires k > 0
    ensures (p + 1) / k - p / k == (if (p + 1) % k == 0 then 1 else 0)
  {
    var q := p / k;
    var r := p % k;
    if r < k - 1 {
      DivModUnique(p + 1, k, q, r + 1);
    } else {
      DivModUnique(p + 1, k, q + 1, 0);
    }
  }

  lemma MultipleOfLarger(y: int, big: int, small: int)
    requires small > 0 && big > 0 && big % small == 0 && y % big == 0
    ensures y % small == 0
  {
    var t := y / big;
    var u := big / small;
    assert big == u * small;
    assert y == t * big;
    assert y == (t * u) * small;
    DivModUnique(y, small, t * u, 0);
  }

  /** A year has 365 days, 366 in a leap year. */
  lemma YearLength(y: int)
    ensures DaysBeforeYear(y + 1) - DaysBeforeYear(y) == DaysInYear(y)
  {
  }

  /** The closed form also grows by one year length per year. */
  lemma {:induction false} FormulaYearLength(y: int)
    ensures DaysBeforeYearFormula(y + 1) - DaysBeforeYearFormula(y) == DaysInYear(y)
  {
    var p := y - 1;
    DivStep(p, 4);
    DivStep(p, 100);
    DivStep(p, 400);
    if y % 400 == 0 {
      MultipleOfLarger(y, 400, 100);
      MultipleOfLarger(y, 400, 4);
    } else if y % 100 == 0 {
      MultipleOfLarger(y, 100, 4);
    }
  }

  /** The recursive year count agrees with the closed form for every year. */
  lemma {:induction false} DaysBeforeYearIsFormula(y: int)
    ensures DaysBeforeYear(y) == DaysBeforeYearFormula(y)
    decreases if y >= 1 then y - 1 else 1 - y
  {
    if y > 1 {
      DaysBeforeYearIsFormula(y - 1);
      FormulaYearLength(y - 1);
    } else if y < 1 {
      DaysBeforeYearIsFormula(y + 1);
      FormulaYearLength(y);
    }
  }

  /** Anchor for the weekday numbering: January 1, 1970 was a Thursday (4). */
  lemma EpochWeekday()
    ensures DayOfWeek(Date(1970, 1, 1)) == 4
  {
    DaysBeforeYearIsFormula(1970);
  }

  /** Within a year, the first of month m + 1 comes one month length after the first of month m. */
  lemma MonthLength(y: int, m: int)
    requires 1 <= m < 12
    ensures DaysBeforeMonth(y, m + 1) == DaysBeforeMonth(y, m) + DaysInMonth(y, m)
  {
    if m == 2 {
      if IsLeapYear(y) {
        assert DaysBeforeMonth(y, 3) == 60;
      } else {
        assert DaysBeforeMonth(y, 3) == 59;
      }
    }
  }

  /** Advancing to the next day advances the day number by exactly one. */
  lemma NextDayNumber(d: Date)
    requires ValidDate(d)
    ensures DayNumber(NextDay(d)) == DayNumber(d) + 1
  {
    if d.day == DaysInMonth(d.year, d.month) {
      if d.month == 12 {
        YearLength(d.year);
        assert NextDay(d) == Date(d.year + 1, 1, 1);
        assert DaysBeforeMonth(d.year, 12) + 31 == DaysInYear(d.year);
      } else {
        MonthLength(d.year, d.month);
        assert NextDay(d) == Date(d.year, d.month + 1, 1);
      }
    } else {
      assert NextDay(d) == Date(d.year, d.month, d.day + 1);
    }
  }

  /** Weekdays cycle: the day after a Saturday is a Sunday. */
  lemma NextDayOfWeek(d: Date)
    requires ValidDate(d)
    ensures DayOfWeek(NextDay(d)) == (DayOfWeek(d) + 1) % 7
  {
    NextDayNumber(d);
    ModStep(DayNumber(d), 7);
  }

  /** Adding one to a number adds one to its remainder, wrapping at k. */
  lemma ModStep(n: int, k: int)
    requires k > 0
    ensures (n + 1) % k == (n % k + 1) % k
  {
    var q := n / k;
    var r := n % k;
    if r < k - 1 {
      DivModUnique(n + 1, k, q, r + 1);
      DivModUnique(r + 1, k, 0, r + 1);
    } else {
      DivModUnique(n + 1, k, q + 1, 0);
      DivModUnique(r + 1, k, 1, 0);
    }
  }

  /** Remainders add: shifting by n shifts the remainder by n, modulo k. */
  lemma ModAdd(a: int, n: int, k: int)
    requires k > 0
    ensures (a + n) % k == (a % k + n) % k
  {
    var q := a / k;
    var r := a % k;
    var q2 := (r + n) / k;
    var r2 := (r + n) % k;
    assert a + n == (q + q2) * k + r2;
    DivModUnique(a + n, k, q + q2, r2);
  }

  /** Within one month the day number is the month's base plus the day of month. */
  lemma DayNumberInMonth(a: Date, b: Date)
    requires ValidDate(a) && ValidDate(b) && SameMonth(a, b)
    ensures DayNumber(b) - DayNumber(a) == b.day - a.day
  {
  }

  /** The first day of the next month follows this month's last day. */
  lemma FirstOfNextMonthNumber(d: Date)
    requires ValidDate(d)
    ensures DayNumber(FirstOfNextMonth(d)) == DayNumber(LastDayOfMonth(d.year, d.month)) + 1
    ensures DayNumber(d) < DayNumber(FirstOfNextMonth(d))
  {
    NextDayNumber(LastDayOfMonth(d.year, d.month));
  }

  /** Two dates with the same month index lie in the same calendar month. */
  lemma MonthIndexSame(a: Date, b: Date)
    requires ValidDate(a) && ValidDate(b) && MonthIndex(a) == MonthIndex(b)
    ensures SameMonth(a, b)
  {
    DivModUnique(MonthIndex(a), 12, a.year, a.month - 1);
    DivModUnique(MonthIndex(b), 12, b.year, b.month - 1);
  }

  /** Every day of an earlier calendar month comes before every day of a later one. */
  lemma {:induction false} MonthOrder(a: Date, b: Date)
    requires ValidDate(a) && ValidDate(b)
    requires MonthIndex(a) < MonthIndex(b)
    ensures DayNumber(a) < DayNumber(b)
    decreases MonthIndex(b) - MonthIndex(a)
  {
    var n := FirstOfNextMonth(a);
    FirstOfNextMonthNumber(a);
    if MonthIndex(n) == MonthIndex(b) {
      MonthIndexSame(n, b);
      DayNumberInMonth(n, b);
    } else {
      MonthOrder(n, b);
    }
  }

  /** Day order agrees with month order: a day not after another lies in the same or an earlier month. */
  lemma MonthIndexMonotone(a: Date, b: Date)
    requires ValidDate(a) && ValidDate(b) && NotAfter(a, b)
    ensures MonthIndex(a) <= MonthIndex(b)
  {
    if MonthIndex(a) > MonthIndex(b) {
      MonthOrder(b, a);
    }
  }

  /** Day-number order is the calendar's lexicographic (year, month, day) order. */
  lemma OrderIsLexicographic(a: Date, b: Date)
    requires ValidDate(a) && ValidDate(b)
    ensures After(a, b) <==> (a.year, a.month, a.day) != (b.year, b.month, b.day) &&
                             (a.year > b.year || (a.year == b.year && (a.month > b.month || (a.month == b.month && a.day > b.day))))
  {
    if MonthIndex(a) < MonthIndex(b) {
      MonthOrder(a, b);
    } else if MonthIndex(b) < MonthIndex(a) {
      MonthOrder(b, a);
    } else {
      assert SameMonth(a, b);
      DayNumberInMonth(a, b);
    }
  }

  /** Distinct valid dates have distinct day numbers. */
  lemma DayNumberInjective(a: Date, b: Date)
    requires ValidDate(a) && ValidDate(b) && DayNumber(a) == DayNumber(b)
    ensures a == b
  {
    OrderIsLexicographic(a, b);
    OrderIsLexicographic(b, a);
  }
}
