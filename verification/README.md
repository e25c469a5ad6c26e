# Calendar core, modelled in Dafny

The application is a single React component, `Calendar`. It shows one month as a seven-column grid. Each day cell carries up to three event previews and a "+k more" count. Clicking a day opens a popup listing that day's events. This project models the pure logic under the markup, as immutable datatypes and total functions, and proves what the component promises about it:

- **The calendar arithmetic of JavaScript's Date** (`gregorian.dfy`, `jsdate.dfy`):
  - the Gregorian leap rule and month lengths;
  - ECMAScript's day numbering and weekdays (section 21.4.1 of ECMA-262);
  - MakeDay's normalisation of out-of-range months and days;
  - the Date constructor's two-digit-year rule (section 21.4.2.1);
  - `setMonth`, which `navigateMonth` relies on.
- **`getDaysInMonth` and `getFirstDayOfMonth`**, both as written and corrected (see Findings). The corrected pair are proved to equal the Gregorian month length and the weekday of the first.
- **`formatDate` keys** (`text.dfy`, `datekey.dfy`): `String(n)`, `padStart(2, '0')` and the `YYYY-MM-DD` key. The key is proved to read back into its date and to be injective on valid dates.
- **`getEventsForDate`** (`events.dfy`): an order-preserving exact-match filter. It is proved to return exactly the matching events, with multiplicities, as a subsequence. It is also proved idempotent and distributive over concatenation. A front-to-back loop, as `filter` runs it, is proved to compute the same list.
- **`renderCalendarDays`** (`grid.dfy`), in two layers:
  - *slots* say which positions are blank, which day each other position shows, and whether it is today;
  - *cells* add the key, the previews (`slice(0, 3)`) and the "+k more" count.

  The two loops of the source are modelled as a method and proved to build that grid.
- **The view state** (`view.dfy`): `currentDate`, `selectedDate` and `showEventModal`, with the click, close, arrow and "Today" transitions. Also the popup's visibility rule, its contents and count line, and the "Today's Events" statistic.
- **The sample events** (`sample.dfy`), with concrete facts about June 2025.

The clock (`new Date()`) is never read. Wherever the component uses it, "today" is a parameter: `View.Initial`, the `GoToToday(now)` action of `View.Action`, and the `today` argument of the grid. Dates are calendar dates (year, zero-based month, day). Time of day plays no part in any of the modelled logic.

Two plausible readings of the component do not match what the code does. The model follows the code:

- **Next then back does not always restore the month.** `navigateMonth` keeps the day of the month, so from 31 January 2025 "next" shows March (3 March, or 2 March in a leap year) and "back" then shows February. `JsDate.NavigateSkipsFebruary` shows this. `JsDate.NavigateRoundTrip` proves the restore only when the day exists in the target month. Likewise, "back" from 31 March stays in March: 31 February spills over into 3 March in 2025, and into 2 March in a leap year such as 2024 (`JsDate.NavigateBackStaysInMarch`).
- **The day of `currentDate` matters.** For the same reason, it decides where navigation lands.

The popup test `!selectedDate` also treats the empty string as "nothing selected". `View.PopupVisible` models that.

## Model

| member | source | states |
|---|---|---|
| Gregorian.DaysInMonth | src/App.js:74-76 | a month of the Gregorian calendar has between 28 and 31 days |
| Gregorian.MonthsFillYear | src/App.js:74-80 | the twelve month lengths add up to 365 or 366 days, by the leap rule |
| Gregorian.YearStep | src/App.js:78-80 | ECMAScript's floor-division DayFromYear advances by exactly the Gregorian year length from one year to the next |
| Gregorian.MonthStep | src/App.js:78-80 | the first of the next month is DaysInMonth days after the first of this month, across December too |
| Gregorian.DayFromYearMonotone | src/App.js:78-80 | a later year starts at least 365 days per year later |
| Gregorian.DaysBeforeMonthMonotone | src/App.js:78-80 | a later month of a year starts after an earlier month ends |
| Gregorian.DayNumberWithinYear | src/App.js:78-80 | a valid date's day number lies inside its year |
| Gregorian.DayNumberOrdered | src/App.js:78-80 | day numbers follow (year, month, day) order |
| Gregorian.DayNumberInjective | src/App.js:78-80 | two valid dates share a day number exactly when they are equal |
| Gregorian.MonthIndexInjective | src/App.js:82-86 | a month index (12 * year + month) identifies one year and month |
| Gregorian.FirstWeekDayOfNextMonth | src/App.js:78-80 | the weekday of the next month's first is this month's first weekday plus its length, mod 7 |
| Gregorian.NextMonth | src/App.js:82-86 | the month after (y, m) is a valid month with month index one higher |
| Gregorian.PrevMonth | src/App.js:82-86 | the month before (y, m) is a valid month with month index one lower |
| JsDate.NormalizeMonth | src/App.js:84 | any month index normalises to a valid month with the same month index, the year absorbing floor(m / 12) |
| JsDate.RollDaysDayNumber | src/App.js:75 | rolling day d through month ends lands d - 1 days after the first of the month, as MakeDay defines |
| JsDate.MakeDayDayNumber | src/App.js:75 | MakeDay's date is day - 1 days after the first of the normalised month |
| JsDate.MakeDayUnique | src/App.js:75 | MakeDay's date is the only valid date with that day number |
| JsDate.MakeDay | src/App.js:75 | MakeDay yields a valid calendar date for any integer year, month and day |
| JsDate.NewDate | src/App.js:75 | `new Date(y, m, d)` yields a valid calendar date for any integer arguments |
| JsDate.NewDateDayNumber | src/App.js:75 | `new Date(y, m, d)` is d - 1 days after the first of month m, counted from year 1900 + y when y is 0..99 and from y otherwise |
| JsDate.DayZeroIsLastDay | src/App.js:75 | day 0 of month m + 1 is the last day of month m |
| JsDate.MonthOverflowRollsYear | src/App.js:84 | a month index 12 higher or lower is the same month of the next or previous year |
| JsDate.GetDaysInMonthAsWritten | src/App.js:74-76 | as written, the length of month m of ConstructorYear(y): year 1900 + y for y in 0..99 |
| JsDate.GetFirstDayOfMonthAsWritten | src/App.js:78-80 | as written, a weekday 0..6: the weekday of the first of month m of ConstructorYear(y) |
| JsDate.GetDaysInMonth | src/App.js:74-76 | the month length of the year itself: DaysInMonth, in 28..31, and 29 exactly for February of a leap year |
| JsDate.GetFirstDayOfMonth | src/App.js:78-80 | a weekday 0..6, 0 = Sunday: ECMAScript's WeekDay of the first of the month |
| JsDate.AsWrittenAgreesOutsideTwoDigitYears | src/App.js:74-80 | the as-written and corrected functions agree for every year outside 0..99, and the lengths differ only for February of year 0 |
| JsDate.DaysInMonthYearZeroCounterexample | src/App.js:74-76 | as written, February of year 0 gets 28 days; it has 29 |
| JsDate.FirstDayYearOneCounterexample | src/App.js:78-80 | as written, January of year 1 starts on Tuesday; it starts on Monday |
| JsDate.SetMonth | src/App.js:84 | `setMonth` yields a valid date for any month index |
| JsDate.SetMonthCases | src/App.js:84 | `setMonth` keeps the year-adjusted target month and the day when the day exists in it, and otherwise spills the surplus days into the month after |
| JsDate.NavigateMonth | src/App.js:82-86 | navigation always displays a valid date |
| JsDate.NavigateMonthCases | src/App.js:82-86 | navigation reaches the target month with the same day when the day fits, and otherwise spills the surplus days into the month after |
| JsDate.NavigateMonthIndex | src/App.js:82-86 | the displayed month moves by exactly `direction`, or one more when the day overflows; the day is kept exactly when it fits |
| JsDate.NormalizeMonthBack | src/App.js:82-86 | normalising m + d and then going back d months returns to month m |
| JsDate.NavigateRoundTrip | src/App.js:82-86 | forward then back restores the date when the day exists in the month stepped to |
| JsDate.NavigateSkipsFebruary | src/App.js:82-86 | from 31 January 2025, next shows 3 March, and back then shows 3 February |
| JsDate.NavigateBackStaysInMarch | src/App.js:82-86 | from 31 March, back stays in March: 3 March in 2025, 2 March in the leap year 2024 |
| Text.IntToString | src/App.js:89 | `String(i)` is never empty and starts with a minus sign exactly for negative i |
| Text.NatToStringDigits | src/App.js:89 | `String(n)` of a natural number consists of decimal digits only |
| Text.NatToStringRoundTrip | src/App.js:89 | `String(n)` reads back as n |
| Text.IntToStringRoundTrip | src/App.js:89 | `String(i)` of any integer, sign included, reads back as i |
| Text.IntToStringInjective | src/App.js:89 | two integers have the same `String` exactly when they are equal |
| Text.NatToStringLength | src/App.js:89 | 1-, 2-, 3- and 4-digit numbers are written with 1, 2, 3 and 4 characters |
| Text.PadStart | src/App.js:89 | `padStart` leaves a string at least as wide as the width alone and otherwise lengthens it to exactly the width |
| Text.PadStartShape | src/App.js:89 | `padStart` reaches the width, keeps the string as its suffix and fills only at the front |
| DateKey.Pad2 | src/App.js:89 | `String(n).padStart(2, '0')` is at least two characters long |
| DateKey.Pad2Shape | src/App.js:89 | padding keeps `String(n)` as the suffix and puts only '0's before it, to a length of two unless the spelling is longer |
| DateKey.Pad2Digits | src/App.js:89 | numbers 0..99 pad to exactly two digits that read back as the number |
| DateKey.FormatDate | src/App.js:88-90 | a key starts with the year's `String` followed by a hyphen |
| DateKey.FormatDateLayout | src/App.js:88-90 | a key is the year's `String`, then "-MM-DD" with the hyphens six and three places from the end |
| DateKey.FormatDateRoundTrip | src/App.js:88-90 | parsing the key gives back year, zero-based month and day |
| DateKey.FormatDateInjective | src/App.js:88-90 | two valid dates have the same key exactly when they are the same date |
| DateKey.FormatDateLength | src/App.js:88-90 | a date in a four-digit year has a ten-character key |
| DateKey.FormatDateNonEmpty | src/App.js:88-90 | a key is never empty, so a clicked day always counts as selected |
| Events.EventsForDate | src/App.js:92-94 | the lookup returns no more events than the list holds |
| Events.EventsForDateExact | src/App.js:92-94 | the lookup holds exactly the events dated with the key, each as often as in the list |
| Events.EventsForDateAppend | src/App.js:92-94 | filtering a concatenation concatenates the filtered parts, so list order is kept |
| Events.EventsForDateIsSubsequence | src/App.js:92-94 | the lookup's result is a subsequence of the list |
| Events.EventsForDateIdempotent | src/App.js:92-94 | filtering the result again by the same key changes nothing |
| Events.EventsForDateFindsOwnKey | src/App.js:92-94 | each event is found under its own date and no other key |
| Events.CollectEventsForDate | src/App.js:92-94 | a front-to-back pass appending matches computes the lookup |
| Grid.IsToday | src/App.js:96-100 | a day is today exactly when year, month and day all equal today's |
| Grid.SlotLayoutShape | src/App.js:102-113 | a layout is `firstDay` blanks followed by days 1..daysInMonth in order, with no trailing blanks |
| Grid.SlotLayoutToday | src/App.js:96-100 | with a valid today, exactly the slot of today's day carries the today mark, and only in today's month |
| Grid.MonthSlotsShape | src/App.js:102-113 | a month's grid has firstDay + DaysInMonth positions: leading blanks, then the month's valid dates in order |
| Grid.MonthSlotsCoverMonth | src/App.js:113-116 | every date of the month sits at index firstDay + day - 1, marked today exactly when it is today |
| Grid.GridColumnIsWeekDay | src/App.js:102-113 | in seven columns every day sits under its own weekday |
| Grid.MonthSlotToday | src/App.js:96-100 | a month marks today on exactly the slot of today's date when today is in it, and nowhere otherwise |
| Grid.RenderSlot | src/App.js:108-155 | a blank slot renders as the blank of the same index and a day slot as a day cell with the same day and today mark and at most three previews |
| Grid.DayCellContents | src/App.js:141-155 | a day cell shows the first min(3, n) of its n events in order, and a "+(n - 3) more" count exactly when n > 3; together they cover all n |
| Grid.MonthGridCoversMonth | src/App.js:113-116 | each date of the month renders at index firstDay + day - 1 as the cell of its key, today mark and events |
| Grid.MonthGridKeysDistinct | src/App.js:114-115 | no two day cells of a month share a key |
| Grid.RenderCalendarDays | src/App.js:102-163 | the two loops of `renderCalendarDays` build exactly the month's grid |
| Grid.RenderCalendarDaysAsWritten | src/App.js:102-163 | with the as-written month functions the loops render the as-written layout cell by cell, show days 1 to the as-written month length only (so February of year 0 has no 29th), and build the month's grid for every year outside 0..99 |
| Grid.PushCells | src/App.js:108-160 | the blank loop and the day loop render each slot of the layout in place |
| Grid.PushDays | src/App.js:113-160 | after the blanks, the day loop renders each day slot of the layout in place |
| Grid.BuildDayCell | src/App.js:114-155 | one day-loop iteration builds a day cell keyed by the day's date, marked today exactly on today's date, showing the first min(3, n) of the n events under that key, with a "+(n - 3) more" count exactly when n > 3 |
| View.Initial | src/App.js:5-8 | the first state displays the clock's date, has nothing selected and the popup flag off, and satisfies the invariant |
| View.Step | src/App.js:82-86 | every action keeps a valid displayed date |
| View.Run | src/App.js:82-86 | every run of actions keeps a valid displayed date |
| View.SelectDayEffect | src/App.js:124-127 | a click sets the selection to the day's key and opens the popup, and leaves the month alone; a non-empty key makes the popup visible |
| View.PopupVisible | src/App.js:166 | the popup shows exactly when its flag is on and the selection is neither null nor the empty string |
| View.CloseModalEffect | src/App.js:190 | closing turns the popup flag off, hides the popup and keeps the selection and the month |
| View.MovesKeepSelection | src/App.js:82-86 | the arrows and "Today" change only the displayed date |
| View.StepPreservesInv | src/App.js:124-127 | every action keeps "an open popup has a selection" and a valid displayed date |
| View.RunPreservesInv | src/App.js:124-127 | every run of actions keeps the invariant |
| View.SelectionPersists | src/App.js:190 | once a day has been selected, no action resets the selection to null |
| View.PhaseStep | src/App.js:166 | the popup moves exactly like a closed/open-on-key machine: select opens on a non-empty key, close closes, moves leave it as it was |
| View.CountLabel | src/App.js:186 | the count line is the number's digits plus " event" or " events", ending in "s" exactly when the number is not 1 |
| View.CountLabelParts | src/App.js:186 | the count line is the number in decimal and " event", with a trailing "s" exactly when the number is not 1 |
| View.Popup | src/App.js:165-186 | a popup renders exactly when visible, on the selected key; it lists exactly that key's events as a subsequence of the list, each as often as listed, under the count line of their number, with the placeholder exactly when there are none |
| View.ClickedDayPopup | src/App.js:166-168 | clicking a day shows exactly its events, in list order and as often as listed, under the count line of their number, with the placeholder exactly when there are none; closing then renders nothing |
| View.PopupMatchesCell | src/App.js:141-168 | the popup and the day's grid cell agree: the previews start its list and the "+k more" count covers the rest |
| View.NavigationKeepsPopup | src/App.js:166 | moving the month never changes the popup |
| View.TodaysEventCount | src/App.js:297 | the statistic is at most the number of events and is zero exactly when no event has today's key |
| View.TodaysCountMatchesGrid | src/App.js:297 | the "Today's Events" number equals today's cell's previews plus its "+k more" count |
| SampleData.SampleIdsDistinct | src/App.js:11-57 | the sample event ids are distinct |
| SampleData.June23Key | src/App.js:88-90 | 23 June 2025 formats as "2025-06-23" |
| SampleData.SampleLookups | src/App.js:12-47 | "2025-06-23" finds ids 1 then 4; "2025-06-24" finds nothing |
| SampleData.SampleJune | src/App.js:74-80 | June 2025 starts on Sunday (0) and has 30 days |
| SampleData.SampleFebruaries | src/App.js:74-76 | February has 29 days in 2024 and 28 in 2025 |
| SampleData.SampleJune23Position | src/App.js:102-116 | in June 2025 the 23rd is grid position 22 |
| SampleData.SampleJune23Cell | src/App.js:113-155 | the June 2025 cell of the 23rd shows events 1 and 4 with no overflow and the today mark; with the clock on that date, "Today's Events" is 2 |

## Left out

- Markup, CSS classes, icons and React's `useState` / `useEffect` plumbing. The state is the explicit `View.ViewState` record, and the transitions are pure functions.
- The one-off load of the sample events (src/App.js:59-61). The event list is a parameter everywhere, and `SampleData.SampleEvents` is the list loaded. "Total Events" (src/App.js:292) is that list's length.
- Reading the clock (src/App.js:5, 63, 257): it is a parameter.
- Time of day, time zones, daylight-saving time and the time-value range of Date (±8.64e15 ms). Only calendar dates are modelled, and every integer year is allowed.
- Locale formatting with `toLocaleDateString` (src/App.js:178-183, 246). It belongs to a locale library. The popup heading and the "Today is" line are therefore not modelled.
- Parsing a key with `new Date(string)` (src/App.js:169, 303). It reads the key as UTC midnight and then takes the local month. That makes the popup heading and the "This Month" statistic depend on the time zone, and the statistic also ignores the year.
- The month-name and weekday-name tables (src/App.js:66-72): display labels.
- How an event's time, duration, colour and location are displayed: the fields are kept in `Events.Event` but not rendered.
- Grid.RenderCalendarDays: it reads the month through the corrected `GetDaysInMonth` / `GetFirstDayOfMonth` (see Findings). `Grid.RenderCalendarDaysAsWritten` reads it through the as-written pair and builds the same grid for displayed years outside 0..99, by `JsDate.AsWrittenAgreesOutsideTwoDigitYears`.
- JsDate.NavigateRoundTrip: it proves the restore only when the day fits the month stepped to, because the code does not restore otherwise.

## Findings

| source | as written | input that shows it | evidently intended | confidence | as-written member | corrected member |
|---|---|---|---|---|---|---|
| src/App.js:74-76 | `new Date(year, month + 1, 0).getDate()`. The constructor reads years 0..99 as 1900 + year. | Displayed year 0, reachable from year 100 with the back arrow because `setMonth` does not remap. February gets 28 days, but year 0 is a leap year with 29. | the length of the displayed month of the displayed year | not executed | JsDate.GetDaysInMonthAsWritten, JsDate.DaysInMonthYearZeroCounterexample | JsDate.GetDaysInMonth |
| src/App.js:78-80 | `new Date(year, month, 1).getDay()`, with the same constructor remap | Displayed January of year 1: the grid starts on Tuesday, the weekday of 1 January 1901, but 1 January of year 1 was a Monday. | the weekday of the first of the displayed month | not executed | JsDate.GetFirstDayOfMonthAsWritten, JsDate.FirstDayYearOneCounterexample | JsDate.GetFirstDayOfMonth |
