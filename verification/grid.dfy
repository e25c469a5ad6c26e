/** The month grid (`renderCalendarDays`): blank cells up to the weekday
    of the first, then one cell per day carrying its key, whether it is
    today, at most three event previews and a "+k more" overflow count.

    The grid is described in two layers: the slots of a month (which
    positions are blank, which day each other position shows and whether
    it is today), which depend on the calendar only, and the cell each
    slot renders to once its key is formatted and the events are looked
    up. */
module Grid {
  import opened Gregorian
  import opened JsDate
  import opened DateKey
  import opened Events

  /** A position of the month grid before the events are looked up: a
      blank, or a day of the month and whether it is today. */
  datatype Slot =
    | BlankSlot(index: int)
    | DaySlot(day: int, isToday: bool)

  /** A rendered grid cell: a blank, or a day with its key, whether it is
      today, the event previews it shows and the "+k more" count, if any. */
  datatype Cell =
    | Blank(index: int)
    | Day(day: int, dateStr: string, isToday: bool, previews: seq<Event>, more: Option<nat>)

  /** How many event titles a day cell shows (`slice(0, 3)`). */
  const PreviewLimit: nat := 3

  /** `isToday(year, month, day)`, with the clock's date passed in. */
  predicate IsToday(today: CivilDate, y: int, m: int, d: int)
    ensures IsToday(today, y, m, d) <==> today == CivilDate(y, m, d)
  {
    today.year == y && today.month == m && today.day == d
  }

  /** The slots of a month whose first falls on weekday `firstDay` and
      that has `daysInMonth` days. */
  function SlotLayout(y: int, m: int, firstDay: nat, daysInMonth: nat, today: CivilDate): seq<Slot>
  {
    seq(firstDay, i => BlankSlot(i))
      + seq(daysInMonth, i => DaySlot(i + 1, IsToday(today, y, m, i + 1)))
  }

  /** A layout is `firstDay` blanks followed by the days 1 .. daysInMonth
      in ascending order, with no trailing blanks. */
  lemma SlotLayoutShape(y: int, m: int, firstDay: nat, daysInMonth: nat, today: CivilDate)
    ensures var slots := SlotLayout(y, m, firstDay, daysInMonth, today);
            && |slots| == firstDay + daysInMonth
            && (forall i :: 0 <= i < |slots| ==> (slots[i].BlankSlot? <==> i < firstDay))
            && (forall i :: 0 <= i < firstDay ==> slots[i].index == i)
            && (forall i :: firstDay <= i < |slots| ==> slots[i].day == i - firstDay + 1)
  {
  }

  /** With a valid today, exactly the slot of today's day carries the
      today mark, and only in today's month. */
  lemma SlotLayoutToday(y: int, m: int, firstDay: nat, daysInMonth: nat, today: CivilDate, i: int)
    requires 1 <= today.day
    requires 0 <= i < firstDay + daysInMonth
    ensures var slots := SlotLayout(y, m, firstDay, daysInMonth, today);
            (slots[i].DaySlot? && slots[i].isToday)
              <==> (today.year == y && today.month == m && i == firstDay + today.day - 1)
  {
    var slots := SlotLayout(y, m, firstDay, daysInMonth, today);
    if firstDay <= i {
      assert slots[i] == DaySlot(i - firstDay + 1, IsToday(today, y, m, i - firstDay + 1));
    } else {
      assert slots[i] == BlankSlot(i);
    }
  }

  /** The slots of month (y, m). */
  function MonthSlots(y: int, m: int, today: CivilDate): seq<Slot>
    requires ValidMonth(m)
  {
    SlotLayout(y, m, GetFirstDayOfMonth(y, m), GetDaysInMonth(y, m), today)
  }

  /** A month's grid is its first weekday's worth of blanks followed by
      every valid day of the month, in ascending order. */
  lemma MonthSlotsShape(y: int, m: int, today: CivilDate)
    requires ValidMonth(m)
    ensures var slots := MonthSlots(y, m, today);
            var first := GetFirstDayOfMonth(y, m);
            && |slots| == first + DaysInMonth(y, m)
            && (forall i :: 0 <= i < |slots| ==> (slots[i].BlankSlot? <==> i < first))
            && (forall i :: first <= i < |slots| ==>
                  slots[i].day == i - first + 1 && ValidDate(CivilDate(y, m, slots[i].day)))
  {
    SlotLayoutShape(y, m, GetFirstDayOfMonth(y, m), GetDaysInMonth(y, m), today);
  }

  /** Every day of the month has its slot, at index firstDay + day - 1,
      marked as today exactly when it is today's date. */
  lemma MonthSlotsCoverMonth(today: CivilDate, c: CivilDate)
    requires ValidDate(c)
    ensures var slots := MonthSlots(c.year, c.month, today);
            var i := GetFirstDayOfMonth(c.year, c.month) + c.day - 1;
            0 <= i < |slots| && slots[i] == DaySlot(c.day, today == c)
  {
    var first := GetFirstDayOfMonth(c.year, c.month);
    var slots := MonthSlots(c.year, c.month, today);
    SlotLayoutShape(c.year, c.month, first, GetDaysInMonth(c.year, c.month), today);
    assert slots[first + c.day - 1] == DaySlot(c.day, IsToday(today, c.year, c.month, c.day));
  }

  /** In seven columns every day sits under its own weekday: the leading
      blanks shift day d to column WeekDay of that date. */
  lemma GridColumnIsWeekDay(y: int, m: int, d: int)
    requires ValidDate(CivilDate(y, m, d))
    ensures (GetFirstDayOfMonth(y, m) + d - 1) % 7 == WeekDay(DayNumber(CivilDate(y, m, d)))
  {
    WeekDayShift(DayNumber(CivilDate(y, m, 1)), d - 1);
  }

  /** A month shows today's mark on exactly the slot of today's date when
      today lies in it, and on no slot otherwise. */
  lemma MonthSlotToday(y: int, m: int, today: CivilDate, i: int)
    requires ValidMonth(m) && ValidDate(today)
    requires 0 <= i < |MonthSlots(y, m, today)|
    ensures var slots := MonthSlots(y, m, today);
            (slots[i].DaySlot? && slots[i].isToday)
              <==> (today.year == y && today.month == m && i == GetFirstDayOfMonth(y, m) + today.day - 1)
  {
    SlotLayoutToday(y, m, GetFirstDayOfMonth(y, m), GetDaysInMonth(y, m), today, i);
  }

  /** What a slot of month (y, m) renders to: a day carries its key and
      shows the first PreviewLimit events under it, counting the rest. */
  function RenderSlot(y: int, m: int, s: Slot, events: seq<Event>): (c: Cell)
    ensures c.Blank? <==> s.BlankSlot?
    ensures c.Blank? ==> c.index == s.index
    ensures c.Day? ==> c.day == s.day && c.isToday == s.isToday && |c.previews| <= PreviewLimit
  {
    match s
    case BlankSlot(i) => Blank(i)
    case DaySlot(d, isToday) =>
      var key := FormatDate(y, m, d);
      var dayEvents := EventsForDate(events, key);
      Day(d, key, isToday,
          if |dayEvents| < PreviewLimit then dayEvents else dayEvents[..PreviewLimit],
          if |dayEvents| > PreviewLimit then Some(|dayEvents| - PreviewLimit) else None)
  }

  /** A day cell keeps its slot's day and today mark, carries the key of
      its date, shows the first min(3, n) of the n events under that key
      in list order, and a "+(n - 3) more" count exactly when n > 3;
      previews and count together account for every event of the day. */
  lemma DayCellContents(y: int, m: int, d: int, isToday: bool, events: seq<Event>)
    ensures var c := RenderSlot(y, m, DaySlot(d, isToday), events);
            var all := EventsForDate(events, FormatDate(y, m, d));
            && c.Day? && c.day == d && c.dateStr == KeyOf(CivilDate(y, m, d)) && c.isToday == isToday
            && |c.previews| == (if |all| < PreviewLimit then |all| else PreviewLimit)
            && c.previews == all[..|c.previews|]
            && (c.more.Some? <==> |all| > PreviewLimit)
            && (c.more.Some? ==> |c.previews| + c.more.value == |all|)
  {
  }

  /** Renders each slot of a month in place. */
  function RenderSlots(y: int, m: int, slots: seq<Slot>, events: seq<Event>): (cells: seq<Cell>)
    ensures |cells| == |slots|
    ensures forall i :: 0 <= i < |slots| ==> cells[i] == RenderSlot(y, m, slots[i], events)
  {
    seq(|slots|, i requires 0 <= i < |slots| => RenderSlot(y, m, slots[i], events))
  }

  /** The rendered grid of month (y, m). */
  function MonthGrid(y: int, m: int, today: CivilDate, events: seq<Event>): seq<Cell>
    requires ValidMonth(m)
  {
    RenderSlots(y, m, MonthSlots(y, m, today), events)
  }

  /** Every day of the month is rendered at index firstDay + day - 1 as
      the cell of its date: its key, its today mark and its events. */
  lemma MonthGridCoversMonth(today: CivilDate, events: seq<Event>, c: CivilDate)
    requires ValidDate(c)
    ensures var cells := MonthGrid(c.year, c.month, today, events);
            var i := GetFirstDayOfMonth(c.year, c.month) + c.day - 1;
            0 <= i < |cells| && cells[i] == RenderSlot(c.year, c.month, DaySlot(c.day, today == c), events)
  {
    MonthSlotsCoverMonth(today, c);
  }

  /** No two day cells of a month share a key, so each day shows its own
      events only. */
  lemma MonthGridKeysDistinct(y: int, m: int, today: CivilDate, events: seq<Event>, i: int, j: int)
    requires ValidMonth(m)
    requires var cells := MonthGrid(y, m, today, events);
             0 <= i < |cells| && 0 <= j < |cells| && cells[i].Day? && cells[j].Day?
    ensures var cells := MonthGrid(y, m, today, events);
            cells[i].dateStr == cells[j].dateStr <==> i == j
  {
    var slots := MonthSlots(y, m, today);
    var cells := MonthGrid(y, m, today, events);
    MonthSlotsShape(y, m, today);
    assert slots[i].DaySlot? && slots[j].DaySlot?;
    var a := CivilDate(y, m, slots[i].day);
    var b := CivilDate(y, m, slots[j].day);
    assert cells[i].dateStr == KeyOf(a);
    assert cells[j].dateStr == KeyOf(b);
    FormatDateInjective(a, b);
  }

  /** `renderCalendarDays` on the corrected month functions: it reads
      the month's length and first weekday, then fills the cells. */
  method RenderCalendarDays(y: int, m: int, today: CivilDate, events: seq<Event>) returns (cells: seq<Cell>)
    requires ValidMonth(m)
    ensures cells == MonthGrid(y, m, today, events)
  {
    var daysInMonth := GetDaysInMonth(y, m);
    var firstDay := GetFirstDayOfMonth(y, m);
    cells := PushCells(y, m, firstDay, daysInMonth, today, events);
    var grid := MonthGrid(y, m, today, events);
    assert forall i :: 0 <= i < |cells| ==> cells[i] == grid[i];
  }

  /** `renderCalendarDays` as written, reading the month through the Date
      constructor's year remapping: the cells of the as-written layout,
      days 1 to the as-written month length only (28 for February of
      year 0), and the same grid as MonthGrid for every year outside
      0..99. */
  method RenderCalendarDaysAsWritten(y: int, m: int, today: CivilDate, events: seq<Event>) returns (cells: seq<Cell>)
    requires ValidMonth(m)
    ensures var slots := SlotLayout(y, m, GetFirstDayOfMonthAsWritten(y, m), GetDaysInMonthAsWritten(y, m), today);
            |cells| == |slots| && forall i :: 0 <= i < |cells| ==> cells[i] == RenderSlot(y, m, slots[i], events)
    ensures |cells| == GetFirstDayOfMonthAsWritten(y, m) + GetDaysInMonthAsWritten(y, m)
    ensures !(0 <= y <= 99) ==> cells == MonthGrid(y, m, today, events)
    ensures forall i :: 0 <= i < |cells| && cells[i].Day? ==> 1 <= cells[i].day <= GetDaysInMonthAsWritten(y, m)
  {
    var daysInMonth := GetDaysInMonthAsWritten(y, m);
    var firstDay := GetFirstDayOfMonthAsWritten(y, m);
    cells := PushCells(y, m, firstDay, daysInMonth, today, events);
    if !(0 <= y <= 99) {
      AsWrittenAgreesOutsideTwoDigitYears(y, m);
      var grid := MonthGrid(y, m, today, events);
      assert forall i :: 0 <= i < |cells| ==> cells[i] == grid[i];
    }
    SlotLayoutShape(y, m, firstDay, daysInMonth, today);
  }

  /** The two loops of `renderCalendarDays`: one pushing the blanks, one
      over the days building each cell from its key, the event lookup and
      the today test. */
  method PushCells(y: int, m: int, firstDay: nat, daysInMonth: nat, today: CivilDate, events: seq<Event>)
    returns (cells: seq<Cell>)
    ensures var slots := SlotLayout(y, m, firstDay, daysInMonth, today);
            |cells| == |slots| && forall i :: 0 <= i < |cells| ==> cells[i] == RenderSlot(y, m, slots[i], events)
  {
    ghost var slots := SlotLayout(y, m, firstDay, daysInMonth, today);
    cells := [];
    var i := 0;
    while i < firstDay
      invariant 0 <= i <= firstDay
      invariant |cells| == i
      invariant forall j :: 0 <= j < i ==> cells[j] == RenderSlot(y, m, slots[j], events)
    {
      cells := cells + [Blank(i)];
      i := i + 1;
    }
    cells := PushDays(y, m, firstDay, daysInMonth, today, events, cells);
  }

  /** The day loop of `renderCalendarDays`, continuing after the blanks. */
  method PushDays(y: int, m: int, firstDay: nat, daysInMonth: nat, today: CivilDate, events: seq<Event>,
                  blanks: seq<Cell>)
    returns (cells: seq<Cell>)
    requires var slots := SlotLayout(y, m, firstDay, daysInMonth, today);
             |blanks| == firstDay && forall i :: 0 <= i < firstDay ==> blanks[i] == RenderSlot(y, m, slots[i], events)
    ensures var slots := SlotLayout(y, m, firstDay, daysInMonth, today);
            |cells| == |slots| && forall i :: 0 <= i < |cells| ==> cells[i] == RenderSlot(y, m, slots[i], events)
  {
    ghost var slots := SlotLayout(y, m, firstDay, daysInMonth, today);
    cells := blanks;
    var day := 1;
    while day <= daysInMonth
      invariant 1 <= day <= daysInMonth + 1
      invariant |cells| == firstDay + day - 1
      invariant forall j :: 0 <= j < |cells| ==> cells[j] == RenderSlot(y, m, slots[j], events)
    {
      assert slots[firstDay + day - 1] == DaySlot(day, IsToday(today, y, m, day));
      cells := PushDay(y, m, day, today, events, cells);
      day := day + 1;
    }
  }

  /** One push of the day loop: the built cell goes after those so far. */
  method PushDay(y: int, m: int, day: int, today: CivilDate, events: seq<Event>, cells: seq<Cell>)
    returns (grown: seq<Cell>)
    ensures grown == cells + [RenderSlot(y, m, DaySlot(day, IsToday(today, y, m, day)), events)]
  {
    var cell := BuildDayCell(y, m, day, today, events);
    grown := cells + [cell];
  }

  /** One iteration of the day loop: the key, the lookup, the today test,
      `slice(0, 3)` and the "+k more" count. */
  method BuildDayCell(y: int, m: int, day: int, today: CivilDate, events: seq<Event>) returns (cell: Cell)
    ensures cell == RenderSlot(y, m, DaySlot(day, IsToday(today, y, m, day)), events)
    ensures var all := EventsForDate(events, KeyOf(CivilDate(y, m, day)));
            && cell.Day? && cell.day == day && cell.dateStr == KeyOf(CivilDate(y, m, day))
            && cell.isToday == (today == CivilDate(y, m, day))
            && |cell.previews| == (if |all| < PreviewLimit then |all| else PreviewLimit)
            && cell.previews == all[..|cell.previews|]
            && (cell.more.Some? <==> |all| > PreviewLimit)
            && (cell.more.Some? ==> |cell.previews| + cell.more.value == |all|)
  {
    var dateStr := FormatDate(y, m, day);
    var dayEvents := CollectEventsForDate(events, dateStr);
    var isTodayDate := IsToday(today, y, m, day);
    var previews := if |dayEvents| < PreviewLimit then dayEvents else dayEvents[..PreviewLimit];
    var more := if |dayEvents| > PreviewLimit then Some(|dayEvents| - PreviewLimit) else None;
    cell := Day(day, dateStr, isTodayDate, previews, more);
  }
}
