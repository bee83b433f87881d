/** Gregorian calendar dates as Python's `datetime.date` has them: years
    1..9999, comparison field by field, `toordinal()` day numbers and
    `replace(year=...)`. */
module Dates {
  import opened Results

  datatype Date = Date(year: int, month: int, day: int)

  /** Divisible by 4 and not by 100, unless divisible by 400. */
  predicate IsLeapYear(y: int) {
    y % 4 == 0 && (y % 100 != 0 || y % 400 == 0)
  }

  /** The last day of `month` in `year`: February has 29 days in a leap year
      and 28 otherwise, April, June, September and November have 30, the rest 31. */
  function MaxDay(month: int, year: int): (m: int)
    ensures 28 <= m <= 31
  {
    if month == 2 then (if IsLeapYear(year) then 29 else 28)
    else if month == 4 || month == 6 || month == 9 || month == 11 then 30
    else 31
  }

  /** Days in the months of `year` up to and including `month`, added up
      from the month lengths. */
  function DaysInMonths(year: int, month: nat): int
    decreases month
  {
    if month == 0 then 0 else DaysInMonths(year, month - 1) + MaxDay(month, year)
  }

  /** The month lengths agree with the day-count table: the days before a
      month are the lengths of the months before it, and the twelve months
      fill the year. */
  lemma {:induction false} MonthsFillYear(year: int, month: int)
    requires 1 <= month <= 12
    ensures DaysBeforeMonth(year, month) == DaysInMonths(year, month - 1)
    ensures DaysInMonths(year, 12) == DaysInYear(year)
    decreases month
  {
    if month > 1 {
      MonthsFillYear(year, month - 1);
      MonthStep(year, month - 1);
    }
    if month == 12 {
      MonthStep(year, 12 - 1);
      assert DaysInMonths(year, 12) == DaysBeforeMonth(year, 12) + 31;
    }
  }

  /** A date `datetime.date` can hold: MINYEAR..MAXYEAR and a day that exists. */
  predicate ValidDate(d: Date) {
    1 <= d.year <= 9999 && 1 <= d.month <= 12 && 1 <= d.day <= MaxDay(d.month, d.year)
  }

  /** `a < b` on dates: by year, then month, then day. */
  predicate Before(a: Date, b: Date) {
    || a.year < b.year
    || (a.year == b.year && a.month < b.month)
    || (a.year == b.year && a.month == b.month && a.day < b.day)
  }

  function DaysInYear(y: int): int {
    if IsLeapYear(y) then 366 else 365
  }

  function DaysBeforeYear(y: int): int
    requires y >= 1
  {
    var n := y - 1;
    365 * n + n / 4 - n / 100 + n / 400
  }

  /** Days in the months of `year` before `month`. */
  function DaysBeforeMonth(year: int, month: int): int
    requires 1 <= month <= 12
  {
    var table := [0, 31, 59, 90, 120, 151, 181, 212, 243, 273, 304, 334];
    table[month - 1] + (if month > 2 && IsLeapYear(year) then 1 else 0)
  }

  /** `d.toordinal()`: 0001-01-01 is day 1. */
  function Ordinal(d: Date): int
    requires ValidDate(d)
  {
    DaysBeforeYear(d.year) + DaysBeforeMonth(d.year, d.month) + d.day
  }

  lemma YearStep(y: int)
    requires y >= 1
    ensures DaysBeforeYear(y + 1) == DaysBeforeYear(y) + DaysInYear(y)
  {
    var a, b, c := y / 4 - (y - 1) / 4, y / 100 - (y - 1) / 100, y / 400 - (y - 1) / 400;
    DivStep(y, 4);
    DivStep(y, 100);
    DivStep(y, 400);
    assert DaysBeforeYear(y + 1) - DaysBeforeYear(y) == 365 + a - b + c;
    if y % 400 == 0 {
      assert y % 100 == 0 && y % 4 == 0;
    } else if y % 100 == 0 {
      assert y % 4 == 0;
    }
  }

  lemma DivStep(y: int, k: int)
    requires y >= 1 && k in {4, 100, 400}
    ensures y / k - (y - 1) / k == if y % k == 0 then 1 else 0
  {
    var q, r := (y - 1) / k, (y - 1) % k;
    assert y - 1 == k * q + r && 0 <= r < k;
    if r == k - 1 {
      assert y == k * (q + 1);
      assert y / k == q + 1 && y % k == 0;
    } else {
      assert y == k * q + (r + 1);
      assert y / k == q && y % k == r + 1;
    }
  }

  lemma MonthStep(y: int, m: int)
    requires 1 <= m < 12
    ensures DaysBeforeMonth(y, m + 1) == DaysBeforeMonth(y, m) + MaxDay(m, y)
  {
  }

  lemma {:induction false} MonthsAdvance(y: int, m1: int, m2: int)
    requires 1 <= m1 < m2 <= 12
    ensures DaysBeforeMonth(y, m1) + MaxDay(m1, y) <= DaysBeforeMonth(y, m2)
    decreases m2
  {
    if m2 == m1 + 1 {
      MonthStep(y, m1);
    } else {
      MonthsAdvance(y, m1, m2 - 1);
      MonthStep(y, m2 - 1);
    }
  }

  lemma {:induction false} YearsAdvance(y1: int, y2: int)
    requires 1 <= y1 < y2
    ensures DaysBeforeYear(y1) + DaysInYear(y1) <= DaysBeforeYear(y2)
    decreases y2
  {
    YearStep(y1);
    if y2 > y1 + 1 {
      YearsAdvance(y1, y2 - 1);
      YearStep(y2 - 1);
    }
  }

  /** Every date of year `y` has an ordinal in that year's block of days. */
  lemma OrdinalInYear(d: Date)
    requires ValidDate(d)
    ensures DaysBeforeYear(d.year) < Ordinal(d) <= DaysBeforeYear(d.year) + DaysInYear(d.year)
  {
    if d.month < 12 {
      MonthsAdvance(d.year, d.month, 12);
    }
  }

  lemma OrdinalAdvances(a: Date, b: Date)
    requires ValidDate(a) && ValidDate(b) && Before(a, b)
    ensures Ordinal(a) < Ordinal(b)
  {
    if a.year < b.year {
      OrdinalInYear(a);
      OrdinalInYear(b);
      YearsAdvance(a.year, b.year);
    } else if a.month < b.month {
      MonthsAdvance(a.year, a.month, b.month);
    }
  }

  /** Comparing dates and comparing their day numbers agree. */
  lemma OrdinalOrder(a: Date, b: Date)
    requires ValidDate(a) && ValidDate(b)
    ensures Before(a, b) <==> Ordinal(a) < Ordinal(b)
    ensures a == b <==> Ordinal(a) == Ordinal(b)
  {
    if Before(a, b) {
      OrdinalAdvances(a, b);
    } else if Before(b, a) {
      OrdinalAdvances(b, a);
    }
  }

  /** `d.replace(year=y)`: raises exactly when `y` leaves 1..9999 or `d` is
      29 February and `y` is not a leap year. */
  function ReplaceYear(d: Date, y: int): (r: Option<Date>)
    requires ValidDate(d)
    ensures r.Some? <==> 1 <= y <= 9999 && (d.month != 2 || d.day != 29 || IsLeapYear(y))
    ensures r.Some? ==> ValidDate(r.value) && r.value == Date(y, d.month, d.day)
  {
    if 1 <= y <= 9999 && d.day <= MaxDay(d.month, y) then Some(Date(y, d.month, d.day)) else None
  }
}
