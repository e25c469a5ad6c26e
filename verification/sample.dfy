/** The five sample events the calendar loads on mount, and the concrete
    facts they and June 2025 give: which events a day shows, the month's
    shape, and the keys the grid produces. */
module SampleData {
  import opened Text
  import opened Gregorian
  import opened JsDate
  import opened DateKey
  import opened Events
  import opened Grid
  import opened View

  const SampleEvents: seq<Event> := [
    Event(1, "Team Meeting", "2025-06-23", "10:00", 60, "#3B82F6", Some("Conference Room A")),
    Event(2, "Project Review", "2025-06-25", "14:00", 90, "#EF4444", Some("Office")),
    Event(3, "Client Presentation", "2025-06-27", "09:00", 120, "#10B981", Some("Zoom")),
    Event(4, "Design Workshop", "2025-06-23", "15:00", 180, "#F59E0B", Some("Design Studio")),
    Event(5, "Code Review", "2025-06-30", "11:00", 45, "#8B5CF6", Some("Dev Room"))
  ]

  /** The ids of a list of events, in order. */
  function Ids(events: seq<Event>): (ids: seq<int>)
    ensures |ids| == |events|
    ensures forall i :: 0 <= i < |events| ==> ids[i] == events[i].id
  {
    seq(|events|, i requires 0 <= i < |events| => events[i].id)
  }

  /** The sample ids are distinct, so the id-keyed list items are unique. */
  lemma SampleIdsDistinct()
    ensures forall i, j :: 0 <= i < j < |SampleEvents| ==> SampleEvents[i].id != SampleEvents[j].id
  {
  }

  /** The key `formatDate` produces for 23 June 2025 (month index 5). */
  lemma June23Key()
    ensures FormatDate(2025, 5, 23) == "2025-06-23"
    ensures FormatDate(2025, 5, 4) == "2025-06-04"
  {
    assert NatToString(2025) == "2025" by {
      assert NatToString(2) == "2";
      assert NatToString(20) == "20";
      assert NatToString(202) == "202";
    }
    assert NatToString(23) == "23" by {
      assert NatToString(2) == "2";
    }
    assert Pad2(6) == "06" by {
      OneDigitPad(6);
    }
    assert Pad2(4) == "04" by {
      OneDigitPad(4);
    }
    assert Pad2(23) == "23";
  }

  /** 23 June 2025 has the Team Meeting and then the Design Workshop, in
      list order; 24 June has nothing. */
  lemma SampleLookups()
    ensures Ids(EventsForDate(SampleEvents, "2025-06-23")) == [1, 4]
    ensures EventsForDate(SampleEvents, "2025-06-24") == []
  {
    var e := SampleEvents;
    assert e[1..][1..][1..][1..][1..] == [];
    assert EventsForDate(e, "2025-06-23") == [e[0], e[3]];
  }

  /** June 2025 starts on a Sunday and has 30 days. */
  lemma SampleJune()
    ensures GetFirstDayOfMonth(2025, 5) == 0
    ensures GetDaysInMonth(2025, 5) == 30
  {
    assert DayFromYear(2025) == 20089;
    assert DaysBeforeMonth(2025, 5) == 151;
  }

  /** February has 29 days in 2024 and 28 in 2025. */
  lemma SampleFebruaries()
    ensures GetDaysInMonth(2024, 1) == 29
    ensures GetDaysInMonth(2025, 1) == 28
  {
  }

  /** In June 2025 the 23rd sits at index 22 of the grid, right after no
      leading blanks, and renders as the cell of its date. */
  lemma SampleJune23Position(today: CivilDate)
    ensures MonthGrid(2025, 5, today, SampleEvents)[22]
              == RenderSlot(2025, 5, DaySlot(23, today == CivilDate(2025, 5, 23)), SampleEvents)
  {
    SampleJune();
    MonthGridCoversMonth(today, SampleEvents, CivilDate(2025, 5, 23));
  }

  /** The June 2025 grid shows both events of the 23rd in its cell, marks
      it as today when the clock reads that date, and counts two events
      for "Today's Events". */
  lemma SampleJune23Cell()
    ensures var today := CivilDate(2025, 5, 23);
            var cell := MonthGrid(2025, 5, today, SampleEvents)[22];
            && cell.Day? && cell.day == 23 && cell.dateStr == "2025-06-23" && cell.isToday
            && Ids(cell.previews) == [1, 4] && cell.more == None
            && TodaysEventCount(today, SampleEvents) == 2
  {
    var today := CivilDate(2025, 5, 23);
    SampleJune23Position(today);
    June23Key();
    SampleLookups();
    var cell := RenderSlot(2025, 5, DaySlot(23, true), SampleEvents);
    assert cell.previews == EventsForDate(SampleEvents, "2025-06-23");
  }
}
