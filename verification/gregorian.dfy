/** The proleptic Gregorian calendar as JavaScript's Date object computes
    it (section 21.4.1 of ECMA-262): the leap-year rule, month lengths,
    day numbers counted from 1 January 1970, and weekdays. */
module Gregorian {

  /** A calendar date as the Date getters report it: the full year, a
      zero-based month (0 = January) and the day of the month. */
  datatype CivilDate = CivilDate(year: int, month: int, day: int)

  /** A year and a zero-based month: the cursor a month view displays. */
  datatype YearMonth = YearMonth(year: int, month: int)

  /** Every fourth year is a leap year, except centuries that 400 does not divide. */
  predicate IsLeapYear(y: int)
  {
    y % 4 == 0 && (y % 100 != 0 || y % 400 == 0)
  }

  predicate ValidMonth(m: int)
  {
    0 <= m < 12
  }

  /** Months counted from January of year 0, so that consecutive months
      have consecutive indices. */
  function MonthIndex(ym: YearMonth): int
  {
    12 * ym.year + ym.month
  }

  function DaysInMonth(y: int, m: int): (n: int)
    requires ValidMonth(m)
    ensures 28 <= n <= 31
  {
    if m == 1 then (if IsLeapYear(y) then 29 else 28)
    else if m == 3 || m == 5 || m == 8 || m == 10 then 30
    else 31
  }

  predicate ValidDate(c: CivilDate)
  {
    ValidMonth(c.month) && 1 <= c.day <= DaysInMonth(c.year, c.month)
  }

  function YearLength(y: int): int
  {
    if IsLeapYear(y) then 366 else 365
  }

  /** The days of year y that lie before the first of month m. */
  function DaysBeforeMonth(y: int, m: int): (n: int)
    requires 0 <= m <= 12
    ensures 28 * m <= n <= 31 * m
  {
    if m == 0 then 0 else DaysBeforeMonth(y, m - 1) + DaysInMonth(y, m - 1)
  }

  /** ECMAScript's DayFromYear: the day number of 1 January of year y,
      with `/` the floor division it specifies. */
  function DayFromYear(y: int): int
  {
    365 * (y - 1970) + (y - 1969) / 4 - (y - 1901) / 100 + (y - 1601) / 400
  }

  /** The day number of a date: days since 1 January 1970. */
  function DayNumber(c: CivilDate): int
    requires ValidMonth(c.month)
  {
    DayFromYear(c.year) + DaysBeforeMonth(c.year, c.month) + c.day - 1
  }

  /** ECMAScript's WeekDay of a day number: 0 = Sunday; 1 January 1970 was a Thursday. */
  function WeekDay(n: int): (w: int)
    ensures 0 <= w < 7
  {
    (n + 4) % 7
  }

  function NextMonth(y: int, m: int): (r: YearMonth)
    requires ValidMonth(m)
    ensures ValidMonth(r.month)
    ensures MonthIndex(r) == MonthIndex(YearMonth(y, m)) + 1
  {
    if m == 11 then YearMonth(y + 1, 0) else YearMonth(y, m + 1)
  }

  function PrevMonth(y: int, m: int): (r: YearMonth)
    requires ValidMonth(m)
    ensures ValidMonth(r.month)
    ensures MonthIndex(r) == MonthIndex(YearMonth(y, m)) - 1
  {
    if m == 0 then YearMonth(y - 1, 11) else YearMonth(y, m - 1)
  }

  /** A month index names one year and month. */
  lemma MonthIndexInjective(a: YearMonth, b: YearMonth)
    requires ValidMonth(a.month) && ValidMonth(b.month)
    ensures MonthIndex(a) == MonthIndex(b) <==> a == b
  {
    if a.year < b.year {
      assert MonthIndex(a) < 12 * a.year + 12 <= MonthIndex(b);
    } else if b.year < a.year {
      assert MonthIndex(b) < 12 * b.year + 12 <= MonthIndex(a);
    }
  }

  /** The twelve month lengths add up to the length of the year. */
  lemma MonthsFillYear(y: int)
    ensures DaysBeforeMonth(y, 12) == YearLength(y)
  {
    var feb := DaysInMonth(y, 1);
    assert DaysBeforeMonth(y, 1) == 31;
    assert DaysBeforeMonth(y, 2) == 31 + feb;
    assert DaysBeforeMonth(y, 3) == 62 + feb;
    assert DaysBeforeMonth(y, 4) == 92 + feb;
    assert DaysBeforeMonth(y, 5) == 123 + feb;
    assert DaysBeforeMonth(y, 6) == 153 + feb;
    assert DaysBeforeMonth(y, 7) == 184 + feb;
    assert DaysBeforeMonth(y, 8) == 215 + feb;
    assert DaysBeforeMonth(y, 9) == 245 + feb;
    assert DaysBeforeMonth(y, 10) == 276 + feb;
    assert DaysBeforeMonth(y, 11) == 306 + feb;
  }

  /** Each floor-division term of DayFromYear grows by one from year y to
      year y + 1 exactly when its divisor divides y. */
  lemma FourYearTerm(y: int)
    ensures (y - 1968) / 4 - (y - 1969) / 4 == if y % 4 == 0 then 1 else 0
  {
  }

  lemma CenturyTerm(y: int)
    ensures (y - 1900) / 100 - (y - 1901) / 100 == if y % 100 == 0 then 1 else 0
  {
  }

  lemma FourCenturyTerm(y: int)
    ensures (y - 1600) / 400 - (y - 1601) / 400 == if y % 400 == 0 then 1 else 0
  {
  }

  lemma DivisorsNest(y: int)
    ensures y % 400 == 0 ==> y % 100 == 0
    ensures y % 100 == 0 ==> y % 4 == 0
  {
  }

  /** Consecutive years start YearLength days apart: the floor-division
      formula of DayFromYear counts exactly the Gregorian leap days. */
  lemma YearStep(y: int)
    ensures DayFromYear(y + 1) == DayFromYear(y) + YearLength(y)
  {
    FourYearTerm(y);
    CenturyTerm(y);
    FourCenturyTerm(y);
    DivisorsNest(y);
  }

  /** The first of the next month comes DaysInMonth days after the first
      of this month, across year ends too. */
  lemma MonthStep(y: int, m: int)
    requires ValidMonth(m)
    ensures var n := NextMonth(y, m);
            DayNumber(CivilDate(n.year, n.month, 1)) == DayNumber(CivilDate(y, m, 1)) + DaysInMonth(y, m)
  {
    if m == 11 {
      YearStep(y);
      MonthsFillYear(y);
    }
  }

  lemma {:induction false} DayFromYearMonotone(y1: int, y2: int)
    requires y1 <= y2
    ensures DayFromYear(y1) + 365 * (y2 - y1) <= DayFromYear(y2)
    decreases y2 - y1
  {
    if y1 < y2 {
      YearStep(y1);
      DayFromYearMonotone(y1 + 1, y2);
    }
  }

  lemma {:induction false} DaysBeforeMonthMonotone(y: int, m1: int, m2: int)
    requires 0 <= m1 < m2 <= 12
    ensures DaysBeforeMonth(y, m1) + DaysInMonth(y, m1) <= DaysBeforeMonth(y, m2)
    decreases m2 - m1
  {
    if m1 + 1 < m2 {
      DaysBeforeMonthMonotone(y, m1 + 1, m2);
    }
  }

  /** A valid date's day number lies inside its year. */
  lemma DayNumberWithinYear(c: CivilDate)
    requires ValidDate(c)
    ensures DayFromYear(c.year) <= DayNumber(c) < DayFromYear(c.year) + YearLength(c.year)
  {
    if c.month < 11 {
      DaysBeforeMonthMonotone(c.year, c.month, 12);
    }
    MonthsFillYear(c.year);
  }

  /** Day numbers follow calendar order: a date earlier in (year, month,
      day) order has a smaller day number. */
  lemma DayNumberOrdered(a: CivilDate, b: CivilDate)
    requires ValidDate(a) && ValidDate(b)
    requires a.year < b.year
          || (a.year == b.year && a.month < b.month)
          || (a.year == b.year && a.month == b.month && a.day < b.day)
    ensures DayNumber(a) < DayNumber(b)
  {
    if a.year < b.year {
      DayNumberWithinYear(a);
      DayNumberWithinYear(b);
      YearStep(a.year);
      DayFromYearMonotone(a.year + 1, b.year);
    } else if a.month < b.month {
      DaysBeforeMonthMonotone(a.year, a.month, b.month);
    }
  }

  /** Distinct valid dates have distinct day numbers. */
  lemma DayNumberInjective(a: CivilDate, b: CivilDate)
    requires ValidDate(a) && ValidDate(b)
    ensures DayNumber(a) == DayNumber(b) <==> a == b
  {
    if a.year < b.year || (a.year == b.year && a.month < b.month)
       || (a.year == b.year && a.month == b.month && a.day < b.day) {
      DayNumberOrdered(a, b);
    } else if b.year < a.year || (a.year == b.year && b.month < a.month)
       || (a.year == b.year && a.month == b.month && b.day < a.day) {
      DayNumberOrdered(b, a);
    }
  }

  /** The weekday of the first of the next month follows from this
      month's first weekday and its length. */
  lemma FirstWeekDayOfNextMonth(y: int, m: int)
    requires ValidMonth(m)
    ensures var n := NextMonth(y, m);
            WeekDay(DayNumber(CivilDate(n.year, n.month, 1)))
              == (WeekDay(DayNumber(CivilDate(y, m, 1))) + DaysInMonth(y, m)) % 7
  {
    MonthStep(y, m);
    WeekDayShift(DayNumber(CivilDate(y, m, 1)), DaysInMonth(y, m));
  }

  lemma WeekDayShift(a: int, d: int)
    ensures WeekDay(a + d) == (WeekDay(a) + d) % 7
  {
  }
}
