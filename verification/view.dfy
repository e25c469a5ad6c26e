/** The calendar's view state and its transitions: the displayed date,
    the selected day's key and whether the day popup is open. Clicking a
    day selects it and opens the popup, closing hides the popup but keeps
    the selection, the arrows navigate by month and "Today" jumps back to
    the clock's date. */
module View {
  import opened Text
  import opened Gregorian
  import opened JsDate
  import opened DateKey
  import opened Events
  import opened Grid

  /** `currentDate`, `selectedDate` (None for `null`) and `showEventModal`. */
  datatype ViewState = ViewState(current: CivilDate, selected: Option<string>, modalOpen: bool)

  /** What the user can do. `GoToToday` carries the clock's reading at the
      moment of the click. */
  datatype Action =
    | SelectDay(key: string)
    | CloseModal
    | Navigate(direction: int)
    | GoToToday(now: CivilDate)

  /** The state after mounting: the clock's date, nothing selected, the
      popup closed. */
  function Initial(today: CivilDate): (s: ViewState)
    requires ValidDate(today)
    ensures s.current == today && s.selected.None? && !s.modalOpen
    ensures Inv(s) && !PopupVisible(s)
  {
    ViewState(today, None, false)
  }

  /** What every reachable state satisfies: a real date is displayed and
      an open popup always has a selection. */
  predicate Inv(s: ViewState)
  {
    ValidDate(s.current) && (s.modalOpen ==> s.selected.Some?)
  }

  /** Actions the program can produce: the clock always reads a real date. */
  predicate ValidAction(a: Action)
  {
    a.GoToToday? ==> ValidDate(a.now)
  }

  /** One user action. */
  function Step(s: ViewState, a: Action): (t: ViewState)
    requires ValidDate(s.current) && ValidAction(a)
    ensures ValidDate(t.current)
  {
    match a
    case SelectDay(key) => s.(selected := Some(key), modalOpen := true)
    case CloseModal => s.(modalOpen := false)
    case Navigate(direction) => s.(current := NavigateMonth(s.current, direction))
    case GoToToday(now) => s.(current := now)
  }

  /** A sequence of actions, first to last. */
  function Run(s: ViewState, actions: seq<Action>): (t: ViewState)
    requires ValidDate(s.current)
    requires forall i :: 0 <= i < |actions| ==> ValidAction(actions[i])
    ensures ValidDate(t.current)
    decreases |actions|
  {
    if |actions| == 0 then s else Run(Step(s, actions[0]), actions[1..])
  }

  /** `if (!showEventModal || !selectedDate) return null`: the popup
      shows when it is open and the selected key is neither null nor the
      empty string. */
  predicate PopupVisible(s: ViewState)
    ensures PopupVisible(s) <==> s.modalOpen && s.selected != None && s.selected != Some("")
  {
    s.modalOpen && s.selected.Some? && s.selected.value != ""
  }

  /** Selecting a day changes the selection and opens the popup; the
      displayed month is untouched. */
  lemma SelectDayEffect(s: ViewState, key: string)
    requires ValidDate(s.current)
    ensures var t := Step(s, SelectDay(key));
            t.selected == Some(key) && t.modalOpen && t.current == s.current
    ensures key != "" ==> PopupVisible(Step(s, SelectDay(key)))
  {
  }

  /** Closing hides the popup and keeps both the selection and the
      displayed month. */
  lemma CloseModalEffect(s: ViewState)
    requires ValidDate(s.current)
    ensures var t := Step(s, CloseModal);
            !t.modalOpen && !PopupVisible(t) && t.selected == s.selected && t.current == s.current
  {
  }

  /** Navigation and "Today" touch only the displayed date. */
  lemma MovesKeepSelection(s: ViewState, a: Action)
    requires ValidDate(s.current) && ValidAction(a)
    requires a.Navigate? || a.GoToToday?
    ensures var t := Step(s, a);
            t.selected == s.selected && t.modalOpen == s.modalOpen
            && PopupVisible(t) == PopupVisible(s)
    ensures a.Navigate? ==> Step(s, a).current == NavigateMonth(s.current, a.direction)
    ensures a.GoToToday? ==> Step(s, a).current == a.now
  {
  }

  /** Every action keeps the invariant. */
  lemma StepPreservesInv(s: ViewState, a: Action)
    requires Inv(s) && ValidAction(a)
    ensures Inv(Step(s, a))
  {
  }

  /** Every run of actions from a state satisfying the invariant ends in
      one that does too. */
  lemma {:induction false} RunPreservesInv(s: ViewState, actions: seq<Action>)
    requires Inv(s)
    requires forall i :: 0 <= i < |actions| ==> ValidAction(actions[i])
    ensures Inv(Run(s, actions))
    decreases |actions|
  {
    if |actions| > 0 {
      StepPreservesInv(s, actions[0]);
      RunPreservesInv(Step(s, actions[0]), actions[1..]);
    }
  }

  /** Once a day has been selected, no action returns the selection to
      null: closing keeps it and selecting replaces it. */
  lemma {:induction false} SelectionPersists(s: ViewState, actions: seq<Action>)
    requires ValidDate(s.current) && s.selected.Some?
    requires forall i :: 0 <= i < |actions| ==> ValidAction(actions[i])
    ensures Run(s, actions).selected.Some?
    decreases |actions|
  {
    if |actions| > 0 {
      SelectionPersists(Step(s, actions[0]), actions[1..]);
    }
  }

  /** The popup seen as a two-state machine: closed, or open on a key. */
  datatype Phase = Closed | Open(key: string)

  function PhaseOf(s: ViewState): Phase
  {
    if PopupVisible(s) then Open(s.selected.value) else Closed
  }

  /** The popup machine's own transitions: selecting a non-empty key opens
      it on that key, selecting "" leaves nothing to show, closing closes
      it, moving the month leaves it as it was. */
  function PhaseNext(p: Phase, a: Action): Phase
  {
    match a
    case SelectDay(key) => if key == "" then Closed else Open(key)
    case CloseModal => Closed
    case Navigate(_) => p
    case GoToToday(_) => p
  }

  /** The view state refines the popup machine: every action moves the
      popup exactly as PhaseNext says. */
  lemma PhaseStep(s: ViewState, a: Action)
    requires ValidDate(s.current) && ValidAction(a)
    ensures PhaseOf(Step(s, a)) == PhaseNext(PhaseOf(s), a)
  {
  }

  /** What the popup shows: the selected key, that day's events in list
      order, the "n event(s)" line and whether the "No events scheduled"
      placeholder replaces the list. */
  datatype PopupView = PopupView(key: string, dayEvents: seq<Event>, countLabel: string, empty: bool)

  /** `{n} event{n !== 1 ? 's' : ''}`. */
  function CountLabel(n: nat): (words: string)
    ensures |words| == |NatToString(n)| + (if n == 1 then 6 else 7)
    ensures words[|words| - 1] == (if n == 1 then 't' else 's')
  {
    NatToString(n) + " event" + (if n != 1 then "s" else "")
  }

  /** The label starts with the count written in decimal, which reads back
      as n, and ends in "s" exactly when n is not 1. */
  lemma CountLabelParts(n: nat)
    ensures var words := CountLabel(n);
            var digits := |NatToString(n)|;
            && |words| == digits + 6 + (if n != 1 then 1 else 0)
            && ParseNat(words[..digits]) == n
            && words[digits..digits + 6] == " event"
            && (words[|words| - 1] == 's' <==> n != 1)
  {
    var words := CountLabel(n);
    var digits := NatToString(n);
    NatToStringRoundTrip(n);
    assert words[..|digits|] == digits;
    assert words[|digits|..|digits| + 6] == " event";
  }

  /** The popup of a state, or None when `EventModal` renders null. */
  function Popup(s: ViewState, events: seq<Event>): (p: Option<PopupView>)
    ensures p.Some? <==> PopupVisible(s)
    ensures p.Some? ==> p.value.key == s.selected.value
                        && IsSubsequence(p.value.dayEvents, events)
                        && (forall e :: e in p.value.dayEvents <==> e in events && e.date == s.selected.value)
                        && (forall e :: multiset(p.value.dayEvents)[e]
                                         == if e.date == s.selected.value then multiset(events)[e] else 0)
                        && p.value.countLabel == CountLabel(|p.value.dayEvents|)
                        && (p.value.empty <==> forall e :: e in events ==> e.date != s.selected.value)
  {
    if !PopupVisible(s) then None
    else
      EventsForDateExact(events, s.selected.value);
      EventsForDateIsSubsequence(events, s.selected.value);
      var dayEvents := EventsForDate(events, s.selected.value);
      Some(PopupView(s.selected.value, dayEvents, CountLabel(|dayEvents|), |dayEvents| == 0))
  }

  /** Clicking a grid day opens the popup on exactly the events of that
      date, in list order and as often as listed, under the count line of
      their number, the placeholder showing exactly when there are none;
      closing it renders nothing. */
  lemma ClickedDayPopup(s: ViewState, events: seq<Event>, c: CivilDate)
    requires ValidDate(s.current)
    ensures var p := Popup(Step(s, SelectDay(KeyOf(c))), events);
            && p.Some?
            && p.value.key == KeyOf(c)
            && IsSubsequence(p.value.dayEvents, events)
            && (forall e :: e in p.value.dayEvents <==> e in events && e.date == KeyOf(c))
            && (forall e :: multiset(p.value.dayEvents)[e]
                             == if e.date == KeyOf(c) then multiset(events)[e] else 0)
            && p.value.countLabel == CountLabel(|p.value.dayEvents|)
            && (p.value.empty <==> forall e :: e in events ==> e.date != KeyOf(c))
    ensures Popup(Step(Step(s, SelectDay(KeyOf(c))), CloseModal), events) == None
  {
  }

  /** The popup and the grid cell of the same day agree: the previews are
      the first events the popup lists and the "+k more" count covers the
      rest. */
  lemma PopupMatchesCell(s: ViewState, events: seq<Event>, today: CivilDate, c: CivilDate)
    requires ValidDate(s.current) && ValidDate(c)
    ensures var p := Popup(Step(s, SelectDay(KeyOf(c))), events).value;
            var cells := MonthGrid(c.year, c.month, today, events);
            var cell := cells[GetFirstDayOfMonth(c.year, c.month) + c.day - 1];
            && cell.dateStr == p.key
            && cell.previews == p.dayEvents[..|cell.previews|]
            && |cell.previews| + (if cell.more.Some? then cell.more.value else 0) == |p.dayEvents|
  {
    FormatDateNonEmpty(c.year, c.month, c.day);
    MonthGridCoversMonth(today, events, c);
    DayCellContents(c.year, c.month, c.day, today == c, events);
  }

  /** Moving the month neither opens, closes nor changes the popup. */
  lemma NavigationKeepsPopup(s: ViewState, a: Action, events: seq<Event>)
    requires ValidDate(s.current) && ValidAction(a)
    requires a.Navigate? || a.GoToToday?
    ensures Popup(Step(s, a), events) == Popup(s, events)
  {
  }

  /** The "Today's Events" statistic: the number of events under today's key. */
  function TodaysEventCount(today: CivilDate, events: seq<Event>): (n: nat)
    ensures n <= |events|
    ensures n == 0 <==> forall e :: e in events ==> e.date != KeyOf(today)
  {
    EventsForDateExact(events, KeyOf(today));
    ghost var r := EventsForDate(events, KeyOf(today));
    assert |r| > 0 ==> r[0] in r;
    |EventsForDate(events, KeyOf(today))|
  }

  /** The statistic counts the same events as today's grid cell: its
      previews plus its "+k more" count. */
  lemma TodaysCountMatchesGrid(today: CivilDate, events: seq<Event>)
    requires ValidDate(today)
    ensures var cells := MonthGrid(today.year, today.month, today, events);
            var cell := cells[GetFirstDayOfMonth(today.year, today.month) + today.day - 1];
            && cell.isToday
            && |cell.previews| + (if cell.more.Some? then cell.more.value else 0) == TodaysEventCount(today, events)
  {
    MonthGridCoversMonth(today, events, today);
    DayCellContents(today.year, today.month, today.day, true, events);
  }
}
