/** The parts of JavaScript's Date object the calendar relies on:
    ECMAScript's MakeDay normalisation of out-of-range months and days
    (section 21.4.1.28 of ECMA-262), the Date constructor's two-digit-year
    rule (section 21.4.2.1), and `setMonth` (section 21.4.4.25), which is
    what month navigation calls. */
module JsDate {
  import opened Gregorian

  /** The year and month MakeDay starts from: the month index is reduced
      modulo 12 and the year absorbs floor(month / 12). */
  function NormalizeMonth(y: int, m: int): (r: YearMonth)
    ensures ValidMonth(r.month)
    ensures MonthIndex(r) == 12 * y + m
  {
    YearMonth(y + m / 12, m % 12)
  }

  /** Rolls day d of month (y, m) into range, one month at a time: a day
      below 1 borrows the previous month, a day past the month's end moves
      on to the next one. */
  function RollDays(y: int, m: int, d: int): (c: CivilDate)
    requires ValidMonth(m)
    ensures ValidDate(c)
    decreases if d < 1 then 1 - d else 0, if d < 1 then 0 else d
  {
    if d < 1 then
      var p := PrevMonth(y, m);
      RollDays(p.year, p.month, d + DaysInMonth(p.year, p.month))
    else if d > DaysInMonth(y, m) then
      var n := NextMonth(y, m);
      RollDays(n.year, n.month, d - DaysInMonth(y, m))
    else
      CivilDate(y, m, d)
  }

  /** Rolling lands on the date d - 1 days after the first of (y, m). */
  lemma {:induction false} RollDaysDayNumber(y: int, m: int, d: int)
    requires ValidMonth(m)
    ensures DayNumber(RollDays(y, m, d)) == DayNumber(CivilDate(y, m, 1)) + d - 1
    decreases if d < 1 then 1 - d else 0, if d < 1 then 0 else d
  {
    if d < 1 {
      var p := PrevMonth(y, m);
      assert NextMonth(p.year, p.month) == YearMonth(y, m);
      MonthStep(p.year, p.month);
      RollDaysDayNumber(p.year, p.month, d + DaysInMonth(p.year, p.month));
    } else if d > DaysInMonth(y, m) {
      var n := NextMonth(y, m);
      MonthStep(y, m);
      RollDaysDayNumber(n.year, n.month, d - DaysInMonth(y, m));
    }
  }

  /** ECMAScript's MakeDay, read back as a calendar date: any integers
      year, month and day name a valid date. */
  function MakeDay(y: int, m: int, d: int): (c: CivilDate)
    ensures ValidDate(c)
  {
    var first := NormalizeMonth(y, m);
    RollDays(first.year, first.month, d)
  }

  /** MakeDay's date lies day - 1 days after the first of the normalised
      month, as ECMAScript's definition counts. */
  lemma MakeDayDayNumber(y: int, m: int, d: int)
    ensures var first := NormalizeMonth(y, m);
            DayNumber(MakeDay(y, m, d)) == DayNumber(CivilDate(first.year, first.month, 1)) + d - 1
  {
    var first := NormalizeMonth(y, m);
    RollDaysDayNumber(first.year, first.month, d);
  }

  /** MakeDay's result is the only valid date with its day number, so it
      is the date ECMAScript's definition describes. */
  lemma MakeDayUnique(y: int, m: int, d: int, c: CivilDate)
    requires ValidDate(c)
    requires var first := NormalizeMonth(y, m);
             DayNumber(c) == DayNumber(CivilDate(first.year, first.month, 1)) + d - 1
    ensures c == MakeDay(y, m, d)
  {
    MakeDayDayNumber(y, m, d);
    DayNumberInjective(c, MakeDay(y, m, d));
  }

  /** `new Date(y, m, d)` treats a year argument 0..99 as 1900 + y. */
  function ConstructorYear(y: int): int
  {
    if 0 <= y <= 99 then 1900 + y else y
  }

  /** The date `new Date(y, m, d)` stands for. */
  function NewDate(y: int, m: int, d: int): (c: CivilDate)
    ensures ValidDate(c)
  {
    MakeDay(ConstructorYear(y), m, d)
  }

  /** `new Date(y, m, d)` is the date d - 1 days after the first of month
      m, counted from the year argument read as 1900 + y when it is 0..99. */
  lemma NewDateDayNumber(y: int, m: int, d: int)
    ensures var t := NormalizeMonth(if 0 <= y <= 99 then 1900 + y else y, m);
            DayNumber(NewDate(y, m, d)) == DayNumber(CivilDate(t.year, t.month, 1)) + d - 1
  {
    MakeDayDayNumber(ConstructorYear(y), m, d);
  }

  /** Day 0 of month m + 1 is the last day of month m. */
  lemma DayZeroIsLastDay(y: int, m: int)
    requires ValidMonth(m)
    ensures MakeDay(y, m + 1, 0) == CivilDate(y, m, DaysInMonth(y, m))
  {
    var n := NextMonth(y, m);
    assert NormalizeMonth(y, m + 1) == n;
    assert PrevMonth(n.year, n.month) == YearMonth(y, m);
  }

  /** Month indices past December or before January roll the year: the
      same month number plus or minus twelve is the same month one year
      later or earlier. */
  lemma MonthOverflowRollsYear(y: int, m: int, d: int)
    ensures MakeDay(y, m + 12, d) == MakeDay(y + 1, m, d)
    ensures MakeDay(y, m - 12, d) == MakeDay(y - 1, m, d)
  {
    assert NormalizeMonth(y, m + 12) == NormalizeMonth(y + 1, m);
    assert NormalizeMonth(y, m - 12) == NormalizeMonth(y - 1, m);
  }

  /** `getDaysInMonth` as written: the date of day 0 of the next month,
      built with the Date constructor. */
  function GetDaysInMonthAsWritten(y: int, m: int): (n: int)
    requires ValidMonth(m)
    ensures n == DaysInMonth(ConstructorYear(y), m)
  {
    DayZeroIsLastDay(ConstructorYear(y), m);
    NewDate(y, m + 1, 0).day
  }

  /** `getFirstDayOfMonth` as written: the weekday of `new Date(y, m, 1)`. */
  function GetFirstDayOfMonthAsWritten(y: int, m: int): (w: int)
    requires ValidMonth(m)
    ensures 0 <= w < 7
    ensures w == WeekDay(DayNumber(CivilDate(ConstructorYear(y), m, 1)))
  {
    var cy := ConstructorYear(y);
    assert NormalizeMonth(cy, m) == YearMonth(cy, m);
    MakeDayUnique(cy, m, 1, CivilDate(cy, m, 1));
    WeekDay(DayNumber(NewDate(y, m, 1)))
  }

  /** `getDaysInMonth` for the displayed year itself: day 0 of the next
      month of year y. */
  function GetDaysInMonth(y: int, m: int): (n: int)
    requires ValidMonth(m)
    ensures n == DaysInMonth(y, m)
    ensures 28 <= n <= 31
    ensures n == 29 <==> m == 1 && IsLeapYear(y)
  {
    DayZeroIsLastDay(y, m);
    MakeDay(y, m + 1, 0).day
  }

  /** `getFirstDayOfMonth` for the displayed year itself: the weekday,
      0 = Sunday, of the first of month m of year y. */
  function GetFirstDayOfMonth(y: int, m: int): (w: int)
    requires ValidMonth(m)
    ensures 0 <= w < 7
    ensures w == WeekDay(DayNumber(CivilDate(y, m, 1)))
  {
    assert NormalizeMonth(y, m) == YearMonth(y, m);
    MakeDayUnique(y, m, 1, CivilDate(y, m, 1));
    WeekDay(DayNumber(MakeDay(y, m, 1)))
  }

  /** The as-written functions agree with the corrected ones for every
      year outside 0..99, and the month lengths differ only in February
      of year 0. */
  lemma AsWrittenAgreesOutsideTwoDigitYears(y: int, m: int)
    requires ValidMonth(m)
    ensures !(0 <= y <= 99) ==> GetDaysInMonthAsWritten(y, m) == GetDaysInMonth(y, m)
    ensures !(0 <= y <= 99) ==> GetFirstDayOfMonthAsWritten(y, m) == GetFirstDayOfMonth(y, m)
    ensures (y, m) != (0, 1) ==> GetDaysInMonthAsWritten(y, m) == GetDaysInMonth(y, m)
  {
    if 1 <= y <= 99 {
      LeapYearsAfter1900(y);
    }
  }

  /** For 1 <= y <= 99, year 1900 + y is a leap year exactly when y is. */
  lemma LeapYearsAfter1900(y: int)
    requires 1 <= y <= 99
    ensures IsLeapYear(1900 + y) == IsLeapYear(y)
  {
    assert (1900 + y) % 4 == y % 4;
    assert (1900 + y) % 100 != 0 && y % 100 != 0;
  }

  /** February of year 0 (a leap year) gets 1900's 28 days. */
  lemma DaysInMonthYearZeroCounterexample()
    ensures GetDaysInMonthAsWritten(0, 1) == 28
    ensures GetDaysInMonth(0, 1) == 29
  {
  }

  /** 1 January of year 1 was a Monday, but the grid for it starts on
      Tuesday, the weekday of 1 January 1901. */
  lemma FirstDayYearOneCounterexample()
    ensures GetFirstDayOfMonthAsWritten(1, 0) == 2
    ensures GetFirstDayOfMonth(1, 0) == 1
  {
    assert DayFromYear(1901) == -25202;
    assert DayNumber(CivilDate(1901, 0, 1)) == -25202;
    assert DayFromYear(1) == -719162;
    assert DayNumber(CivilDate(1, 0, 1)) == -719162;
  }

  /** `date.setMonth(m)`: keeps the year and the day of the month and lets
      MakeDay normalise; unlike the constructor it does not remap years
      0..99. */
  function SetMonth(c: CivilDate, m: int): (r: CivilDate)
    ensures ValidDate(r)
  {
    MakeDay(c.year, m, c.day)
  }

  /** setMonth on a date whose day is a day of some month (1..31): the
      day is kept when it exists in the target month, and otherwise the
      surplus days spill into the month after. */
  lemma SetMonthCases(c: CivilDate, m: int)
    requires 1 <= c.day <= 31
    ensures var t := NormalizeMonth(c.year, m);
            c.day <= DaysInMonth(t.year, t.month) ==> SetMonth(c, m) == CivilDate(t.year, t.month, c.day)
    ensures var t := NormalizeMonth(c.year, m);
            var n := NextMonth(t.year, t.month);
            (c.day > DaysInMonth(t.year, t.month) ==>
               SetMonth(c, m) == CivilDate(n.year, n.month, c.day - DaysInMonth(t.year, t.month)))
  {
    var t := NormalizeMonth(c.year, m);
    var n := NextMonth(t.year, t.month);
    assert c.day > DaysInMonth(t.year, t.month) ==> RollDays(n.year, n.month, c.day - DaysInMonth(t.year, t.month)) == CivilDate(n.year, n.month, c.day - DaysInMonth(t.year, t.month));
  }

  /** `navigateMonth(direction)`: setMonth(month + direction) on a copy of
      the current date. */
  function NavigateMonth(c: CivilDate, direction: int): (r: CivilDate)
    requires ValidDate(c)
    ensures ValidDate(r)
  {
    SetMonth(c, c.month + direction)
  }

  /** The target month is reached when the current day exists in it;
      otherwise the surplus days spill into the month after. */
  lemma NavigateMonthCases(c: CivilDate, direction: int)
    requires ValidDate(c)
    ensures var r := NavigateMonth(c, direction);
            var t := NormalizeMonth(c.year, c.month + direction);
            c.day <= DaysInMonth(t.year, t.month) ==> r == CivilDate(t.year, t.month, c.day)
    ensures var r := NavigateMonth(c, direction);
            var t := NormalizeMonth(c.year, c.month + direction);
            var n := NextMonth(t.year, t.month);
            c.day > DaysInMonth(t.year, t.month) ==> r == CivilDate(n.year, n.month, c.day - DaysInMonth(t.year, t.month))
  {
    SetMonthCases(c, c.month + direction);
  }

  /** The displayed month moves by exactly `direction` months when the day
      fits the target month, and by one month more when it does not; the
      day of the month is kept whenever it fits. */
  lemma NavigateMonthIndex(c: CivilDate, direction: int)
    requires ValidDate(c)
    ensures var r := NavigateMonth(c, direction);
            var t := NormalizeMonth(c.year, c.month + direction);
            MonthIndex(YearMonth(r.year, r.month)) == MonthIndex(YearMonth(c.year, c.month)) + direction
              + (if c.day <= DaysInMonth(t.year, t.month) then 0 else 1)
    ensures var r := NavigateMonth(c, direction);
            (r.day == c.day) <==> c.day <= DaysInMonth(NormalizeMonth(c.year, c.month + direction).year, NormalizeMonth(c.year, c.month + direction).month)
  {
    NavigateMonthCases(c, direction);
  }

  /** Stepping forward and back restores the date when the day of the
      month exists in the month stepped to, in particular for days 1..28. */
  lemma NavigateRoundTrip(c: CivilDate, direction: int)
    requires ValidDate(c)
    requires var t := NormalizeMonth(c.year, c.month + direction);
             c.day <= DaysInMonth(t.year, t.month)
    ensures NavigateMonth(NavigateMonth(c, direction), -direction) == c
  {
    var t := NormalizeMonth(c.year, c.month + direction);
    var r := CivilDate(t.year, t.month, c.day);
    NavigateLandsOn(c, direction, r);
    NormalizeMonthBack(c.year, c.month, direction);
    NavigateLandsOn(r, -direction, c);
  }

  /** Normalising month m + d and then going back d months returns to
      month m. */
  lemma NormalizeMonthBack(y: int, m: int, d: int)
    requires ValidMonth(m)
    ensures var t := NormalizeMonth(y, m + d);
            NormalizeMonth(t.year, t.month + -d) == YearMonth(y, m)
  {
    var t := NormalizeMonth(y, m + d);
    MonthIndexInjective(NormalizeMonth(t.year, t.month + -d), YearMonth(y, m));
  }

  /** On 31 March, "back" does not leave March: 31 February spills over
      into 3 March, or 2 March in a leap year. */
  lemma NavigateBackStaysInMarch()
    ensures NavigateMonth(CivilDate(2025, 2, 31), -1) == CivilDate(2025, 2, 3)
    ensures NavigateMonth(CivilDate(2024, 2, 31), -1) == CivilDate(2024, 2, 2)
  {
  }

  /** Navigation lands on a valid date of the target month with the same
      day of the month. */
  lemma NavigateLandsOn(c: CivilDate, direction: int, target: CivilDate)
    requires ValidDate(c) && ValidDate(target)
    requires NormalizeMonth(c.year, c.month + direction) == YearMonth(target.year, target.month)
    requires c.day == target.day
    ensures NavigateMonth(c, direction) == target
  {
    NavigateMonthCases(c, direction);
  }

  /** From 31 January, "next" shows March: February is skipped, and "back"
      then lands in February, not January. */
  lemma NavigateSkipsFebruary()
    ensures NavigateMonth(CivilDate(2025, 0, 31), 1) == CivilDate(2025, 2, 3)
    ensures NavigateMonth(CivilDate(2025, 2, 3), -1) == CivilDate(2025, 1, 3)
  {
  }
}
