# CalendarView core in Dafny

This project models the logic of a React calendar widget and proves properties of it:

- the date helpers: the Sunday-start month grid, the week of a date, month and week steps, same-day and same-month tests, the header labels, the hourly time slots, day differences, the days of a month, and the month and year picker lists;
- the event helpers: which events a day shows, the six validation checks with their messages, and the colour palette;
- the `useCalendar` navigation state: shown date, view and selected date, with next, previous, today, setView and selectDate;
- the rules inside the `CalendarView`, `MonthView` and `CalendarCell` components: the key bindings, the month/year picker handlers, what saving an event asks of the owner, the modal state, the header title, which body is shown, the per-cell flags and the "+n more" overflow.

Time is a line of integer milliseconds in local time, with no time zones and no daylight saving. `Timestamp` is milliseconds since 1970-01-01T00:00 local time. The day of an instant is `t / 86400000` (floor), and the time of day is `t % 86400000`. Day numbers map to and from proleptic Gregorian dates with 0-based months, as `Date.prototype.getMonth` gives them. The weekday is `(day + 4) % 7`, 0 being Sunday.

The date-fns calls become total functions on this line:
- `startOfWeek` uses the default week start, Sunday;
- `endOfWeek` and `endOfMonth` give 23:59:59.999 of the closing day;
- `eachDayOfInterval` gives the midnight of each day;
- `addMonths` keeps the time of day and clamps the day of the month to the target month's length;
- `format` uses fixed English month and weekday tables and the `yyyy` year token.

JavaScript's `new Date(y, m, d)` is modelled too (`DateUtils.NewDate`). A month outside 0..11 and a day outside the month carry over into neighbouring months and years. A year argument from 0 to 99 is read as 1900 + y.

Modules:
- `Wrappers` (`wrappers.dfy`): `Option` and the subsequence relation.
- `Text` (`text.dfy`): decimal digits, `padStart`, `trim()`'s whitespace set, UTF-16 length and string order.
- `Civil` (`civil.dfy`): the calendar arithmetic.
- `DateUtils` (`date_utils.dfy`): `src/utils/date.utils.ts`.
- `EventUtils` (`event_utils.dfy`): `src/utils/event.utils.ts`.
- `UseCalendar` (`use_calendar.dfy`): `src/hooks/useCalendar.ts`. It is a class `CalendarState` whose methods update its three fields.
- `Calendar` (`calendar_view.dfy`): `src/components/Calendar/CalendarView.tsx`. It is a class `CalendarView` holding its `CalendarState` and its own `modalState` and `showDatePicker` fields, plus pure functions for the title, the body and the save dispatch.
- `MonthView` (`month_view.dfy`) and `CalendarCell` (`calendar_cell.dfy`): the two pure components.

Inputs that come from the browser are taken as parameters:
- the present instant, as `now`; it is also what an omitted `initialDate` defaults to, as `new Date()` is;
- `window.innerWidth`, as an integer. `CalendarView` compares it with 768 and `CalendarCell` with 640, so one compact flag would not describe both.

Points where the model follows the code to the letter, rather than a tidier reading of it:
- The validation length checks count UTF-16 code units, as `String.prototype.length` does, not characters. They apply only to a non-empty title or description.
- A title longer than 100 code units that is all whitespace gets both "Title is required" and the length message (`EventUtils.BlankLongTitle`).
- `getEventsForDate` compares raw timestamps in its span test, as written, without rounding to whole days (`EventUtils.SpanEndsBeforeQuery`).
- `selectDate(d)` uses `date || prev.currentDate`. A `Date` object is always truthy, so only `null` keeps the shown date.

## Model

| member | source | states |
|---|---|---|
| `DateUtils.StartOfWeekIsSunday` | src/utils/date.utils.ts:28-30 | startOfWeek gives a Sunday at most six days before the date; endOfWeek is the Saturday six days after it |
| `DateUtils.SameDayIffSameDate` | src/utils/date.utils.ts:7-9 | two instants are the same day exactly when they have the same year, month and day |
| `DateUtils.SameMonthIffSameFirstDay` | src/utils/date.utils.ts:15-17 | the same day implies the same month; the same month means the same first day of the month |
| `DateUtils.GridDays` | src/utils/date.utils.ts:19-26 | the grid is midnight of consecutive days from the Sunday on or before the 1st to the Saturday on or after the last day |
| `DateUtils.GridLength` | src/utils/date.utils.ts:19-26 | the grid has 28, 35 or 42 cells, a multiple of 7, with under a week of padding on either side of the month |
| `DateUtils.GridCellDay` | src/utils/date.utils.ts:19-26 | cell i lies i days after the grid's opening Sunday |
| `DateUtils.GridWeekdays` | src/utils/date.utils.ts:19-26 | cell i falls on weekday i mod 7, Sunday first |
| `DateUtils.GridEnds` | src/utils/date.utils.ts:19-26 | the first cell is a Sunday and the last a Saturday |
| `DateUtils.GridCoversMonth` | src/utils/date.utils.ts:19-26 | a cell is in the anchor's month exactly when it lies in the block after the leading days, one cell per day of the month |
| `DateUtils.GridMonthDays` | src/utils/date.utils.ts:19-26 | every day of the month is in the grid, day k at cell leading + k - 1, including the 1st and the last day |
| `DateUtils.WeekDaysShape` | src/utils/date.utils.ts:28-33 | 7 consecutive midnights from the Sunday of the week, weekdays 0..6, with the date's own day at its weekday's position |
| `DateUtils.WeekDaysContain` | src/utils/date.utils.ts:28-33 | a day is among the week days exactly when it lies between the week's start and end |
| `DateUtils.AddMonthsDate` | src/utils/date.utils.ts:35-37 | addMonths by k moves the month index by exactly k, clamps the day to the target month's length and keeps the time of day |
| `DateUtils.NavigateMonthRoundTrip` | src/utils/date.utils.ts:35-37 | next then prev (or prev then next) lands in the original month at the same time of day; the instant is restored exactly when the day needed no clamping |
| `DateUtils.NavigateWeek` | src/utils/date.utils.ts:39-41 | the step moves the day by exactly ±7 and keeps the time of day and the weekday |
| `DateUtils.NavigateWeekRoundTrip` | src/utils/date.utils.ts:39-41 | a week forward and a week back, in either order, is the identity on timestamps |
| `DateUtils.MonthLabelIdentifiesMonth` | src/utils/date.utils.ts:43-45 | for years after 0, two "MMMM yyyy" labels are equal exactly when the dates lie in the same month |
| `DateUtils.YearTokenReadsBack` | src/utils/date.utils.ts:43-45 | for a year after 0 the yyyy token is all digits and parses back to the year |
| `DateUtils.YearTokenEraAmbiguity` | src/utils/date.utils.ts:43-45 | years 0 and 1 both print as "0001", so labels do not tell months before year 1 apart |
| `DateUtils.WeekRangeLabelOfWeek` | src/utils/date.utils.ts:47-51 | the week label is the Sunday's "MMM d", then " - ", then the Saturday's "MMM d, yyyy" |
| `DateUtils.WeekRangeLabelSameWeek` | src/utils/date.utils.ts:47-51 | two instants in the same week get the same label |
| `DateUtils.GetDayNumber` | src/utils/date.utils.ts:57-59 | the day of the month is between 1 and the month's length, and that date of the month is the instant's day |
| `DateUtils.GetTimeSlots` | src/utils/date.utils.ts:61-67 | the loop pushes 24 labels, entry h being HourLabel(h) |
| `DateUtils.HourLabelShape` | src/utils/date.utils.ts:64 | an hour label is 5 characters: tens digit, units digit, then ":00" |
| `DateUtils.HourLabelReadsBack` | src/utils/date.utils.ts:64 | the first two characters of label h are digits that parse back to h |
| `DateUtils.HourLabelsOrdered` | src/utils/date.utils.ts:61-67 | labels of earlier hours come first in string order |
| `DateUtils.DaysBetween` | src/utils/date.utils.ts:72-77 | the result is the floor of the millisecond difference over a day: r days ≤ end - start < r + 1 days |
| `DateUtils.DaysBetweenWholeDays` | src/utils/date.utils.ts:72-77 | a span of exactly k days gives k, and the result is negative exactly when end is before start |
| `DateUtils.DateConstructorCount` | src/utils/date.utils.ts:85 | `new Date(year, month + 1, 0).getDate()` is the length of the month in the year `new Date` reads |
| `DateUtils.DateConstructorMonthMidnights` | src/utils/date.utils.ts:85-86 | the body lists midnight of every day of the month of the year `new Date` reads, in order |
| `DateUtils.GetDaysInMonthEarlyYears` | src/utils/date.utils.ts:82-87 | as written, for a date in years 0..99 the list has the days of the same month in year 1900 + year |
| `DateUtils.GetDaysInMonthLeapMismatch` | src/utils/date.utils.ts:82-87 | as written, in a February whose year 0..99 differs in leap status from 1900 + year, the count is wrong |
| `DateUtils.YearZeroLeapMismatch` | src/utils/date.utils.ts:82-87 | year 0 is a leap year and 1900 is not, so their Februaries have 29 and 28 days |
| `DateUtils.GetDaysInMonthFebruaryYearZero` | src/utils/date.utils.ts:82-87 | as written, for any day of February of year 0 the list has 28 entries where the month has 29 |
| `DateUtils.GetDaysInMonthAgrees` | src/utils/date.utils.ts:82-87 | outside years 0..99 the code as written equals the intended list |
| `DateUtils.GetDaysInMonthDates` | src/utils/date.utils.ts:82-87 | the intended list has the month's length, and element i is midnight of day i + 1 of that month |
| `DateUtils.GetMonthsInYear` | src/utils/date.utils.ts:92-97 | 12 options with values 0..11 in order |
| `DateUtils.GetMonthsInYearLabels` | src/utils/date.utils.ts:92-97 | option i's label is month name i, whatever the year |
| `DateUtils.NewDateFirstOfMonth` | src/utils/date.utils.ts:95 | `new Date(year, m, 1)` is midnight of the 1st of month m in the year `new Date` reads |
| `DateUtils.GetYearRange` | src/utils/date.utils.ts:102-106 | 2r + 1 consecutive increasing years from y - r, with y in the middle; a year is listed exactly when it is within r of y; a negative range gives none |
| `Text.TrimEmptyIffBlank` | src/utils/event.utils.ts:35 | a string trims to empty exactly when every character is ECMAScript whitespace or a line terminator |
| `Text.Utf16LengthBmp` | src/utils/event.utils.ts:39 | a string of characters up to U+FFFF has as many UTF-16 code units as characters |
| `EventUtils.GetEventsForDate` | src/utils/event.utils.ts:4-9 | the result is a subsequence of the input in the original order; an event is in it exactly when it is listed and starts on the date's day or spans the date as raw timestamps, and then as many times as it is listed (duplicates are kept, as `filter` keeps them) |
| `EventUtils.GetEventsForDateAll` | src/utils/event.utils.ts:4-9 | when every event occurs on the date the filter keeps the list unchanged, and the empty list gives the empty list |
| `EventUtils.StartDayShown` | src/utils/event.utils.ts:6 | an event starting on the date's calendar day is shown, whatever its end |
| `EventUtils.SpanShownOnMidnight` | src/utils/event.utils.ts:7 | an event that started on an earlier day and ends at or after a later day's midnight is shown at that midnight |
| `EventUtils.SpanEndsBeforeQuery` | src/utils/event.utils.ts:7 | an event that starts on another day and ends before the query instant is not shown |
| `EventUtils.GetEventColors` | src/utils/event.utils.ts:15-30 | 8 pairwise distinct "#rrggbb" colours (lower-case hex digits), the first being the default colour |
| `EventUtils.GetDefaultEventColor` | src/utils/event.utils.ts:28-30 | the default is a "#rrggbb" colour: '#' followed by six lower-case hex digits |
| `EventUtils.FailedChecksSelect` | src/utils/event.utils.ts:32-60 | the failed checks are, in check order, exactly the checks considered so far that the draft fails |
| `EventUtils.ValidateEvent` | src/utils/event.utils.ts:32-60 | the six conditional pushes, in source order, give the messages of exactly the failed checks in check order |
| `EventUtils.MessagesDistinct` | src/utils/event.utils.ts:35-57 | the six messages are pairwise different |
| `EventUtils.MessageIn` | src/utils/event.utils.ts:32-60 | a check's message is in the output exactly when the check is among the failed ones |
| `EventUtils.ValidateEventReports` | src/utils/event.utils.ts:32-60 | every check runs: a message appears exactly when its check fails, in check order, and the list is empty exactly when all checks pass |
| `EventUtils.EmptyTitleOnly` | src/utils/event.utils.ts:35-37 | an empty title with ordered dates gives exactly ["Title is required"] |
| `EventUtils.LongTitleReported` | src/utils/event.utils.ts:39-41 | a non-blank title over 100 code units without dates gives the length message and both missing-date messages |
| `EventUtils.BlankLongTitle` | src/utils/event.utils.ts:35-41 | a title of more than 100 whitespace characters gets both title messages, independently |
| `EventUtils.EqualDatesRejected` | src/utils/event.utils.ts:55-57 | equal start and end dates give "End date must be after start date" |
| `UseCalendar.StepMovesOnePeriod` | src/hooks/useCalendar.ts:18-34 | a month step moves the month index by ±1 with the day clamped; a week step moves the day by ±7 and keeps the weekday; both keep the time of day |
| `UseCalendar.StepThereAndBack` | src/hooks/useCalendar.ts:18-34 | next then previous (or the reverse) restores the instant in the week view and the month, at the same time of day, in the month view |
| `UseCalendar.CalendarState.constructor` | src/hooks/useCalendar.ts:11-16 | the initial state is the initial date (the present instant when it is omitted), the initial view (the month view when it is omitted) and no selection |
| `UseCalendar.CalendarState.GoToNext` | src/hooks/useCalendar.ts:18-25 | the shown date moves one month or one week on, as the view says; view and selection are unchanged |
| `UseCalendar.CalendarState.GoToPrevious` | src/hooks/useCalendar.ts:27-34 | the mirror of GoToNext: one period back, nothing else changes |
| `UseCalendar.CalendarState.GoToToday` | src/hooks/useCalendar.ts:36-41 | the shown date becomes the present instant; view and selection are unchanged |
| `UseCalendar.CalendarState.SetView` | src/hooks/useCalendar.ts:43-48 | only the view changes |
| `UseCalendar.CalendarState.SelectDate` | src/hooks/useCalendar.ts:50-56 | a date becomes both selected and shown; null clears the selection and keeps the shown date |
| `Calendar.DisplayTitleFollowsView` | src/components/Calendar/CalendarView.tsx:113 | in the month view two dates after year 0 share a title exactly when they share a month; in the week view dates of one week share a title |
| `Calendar.ShownBody` | src/components/Calendar/CalendarView.tsx:218-241 | the month grid exactly in the month view, the list exactly in the week view below 768 pixels, the week grid exactly in the week view otherwise |
| `Calendar.ArrowKeysInverse` | src/components/Calendar/CalendarView.tsx:70-85 | ArrowRight then ArrowLeft, or the reverse, returns to the same instant in the week view and the same month in the month view; Home twice equals Home once |
| `Calendar.CalendarView.HandleKeyDown` | src/components/Calendar/CalendarView.tsx:70-85 | ArrowLeft goes back, ArrowRight goes on, Home goes to now; other keys change nothing and are not handled; view and selection never change |
| `Calendar.PickedDateIsFirstOfMonth` | src/components/Calendar/CalendarView.tsx:103-111 | the intended picked date for month 0..11 is midnight of the 1st of that month and year |
| `Calendar.PickedDateAgrees` | src/components/Calendar/CalendarView.tsx:103-111 | outside years 0..99 the handlers as written pick the intended date |
| `Calendar.PickedDateAsWrittenEarlyYear` | src/components/Calendar/CalendarView.tsx:103-111 | as written, picking a year 0..99 shows the 1st of the month in 1900 + year, not the picked year |
| `Calendar.PickKeepsTheOtherField` | src/components/Calendar/CalendarView.tsx:103-111 | choosing month m gives the 1st of m in the current year; choosing year y gives the 1st of the current month in y |
| `Calendar.CalendarView.HandleMonthChange` | src/components/Calendar/CalendarView.tsx:103-106 | the first of the chosen month in the shown year is selected and shown; the view is kept |
| `Calendar.CalendarView.HandleYearChange` | src/components/Calendar/CalendarView.tsx:108-111 | the first of the shown month in the chosen year is selected and shown; the view is kept |
| `Calendar.PickerShowsCurrent` | src/components/Calendar/CalendarView.tsx:145-152 | the month select lists the current month's value and the default year range lists the current year |
| `Calendar.SaveCall` | src/components/Calendar/CalendarView.tsx:58-64 | an update with the saved event's own id exactly when the modal holds an event, an add otherwise; the event is passed on unchanged |
| `Calendar.CalendarView.HandleEventSave` | src/components/Calendar/CalendarView.tsx:58-64 | the call made is the one SaveCall describes: an update of the edited event, an addition otherwise |
| `Calendar.CalendarView.constructor` | src/components/Calendar/CalendarView.tsx:17-37 | a fresh calendar state at the initial date and view with no selection, the props defaulting to the present instant and the month view when omitted; the modal closed and the picker hidden |
| `Calendar.CalendarView.HandleDateClick` | src/components/Calendar/CalendarView.tsx:39-45 | the date is selected and shown, and the modal opens in create mode with that date and no event |
| `Calendar.CalendarView.HandleEventClick` | src/components/Calendar/CalendarView.tsx:47-52 | the modal opens on the event with no initial date |
| `Calendar.CalendarView.OpenNewEvent` | src/components/Calendar/CalendarView.tsx:207-213 | the Add Event button opens the modal in create mode at the present instant |
| `Calendar.CalendarView.HandleModalClose` | src/components/Calendar/CalendarView.tsx:54-56 | the modal closes, with no event and no date |
| `Calendar.CalendarView.ToggleDatePicker` | src/components/Calendar/CalendarView.tsx:127-133 | the picker's visibility flips and the modal is untouched |
| `MonthView.MonthCells` | src/components/Calendar/MonthView.tsx:42-59 | one cell per grid date, in grid order |
| `MonthView.MonthCellsUnderHeader` | src/components/Calendar/MonthView.tsx:23 | 28, 35 or 42 cells, and header column i mod 7 (Sun..Sat) names the weekday of cell i |
| `MonthView.MonthCellsContent` | src/components/Calendar/MonthView.tsx:43-45 | each cell's events are getEventsForDate of its date: a subsequence holding exactly the events that occur on it, each as often as in the input; isCurrentMonth holds exactly for the month's own block of cells |
| `MonthView.MonthCellsSelection` | src/components/Calendar/MonthView.tsx:44-46 | no cell is selected without a selection; otherwise a cell is selected exactly on the selected day; at most one cell is selected and at most one is today |
| `CalendarCell.MaxEvents` | src/components/Calendar/CalendarCell.tsx:16-17 | 1 below 640 pixels, 3 otherwise |
| `CalendarCell.VisibleEvents` | src/components/Calendar/CalendarCell.tsx:18 | the first min(n, maxEvents) events, in their order |
| `CalendarCell.EventsAccountedFor` | src/components/Calendar/CalendarCell.tsx:19-90 | without overflow every event is a chip; with overflow maxEvents chips plus a "+n more" count of at least 1 add up to all events |
| `CalendarCell.ChipColor` | src/components/Calendar/CalendarCell.tsx:72 | a chip shows the event's colour, or the default blue when it has none or an empty one |
| `CalendarCell.CellKeyDown` | src/components/Calendar/CalendarCell.tsx:30-35 | Enter and Space, and only they, report the cell's date |

## Left out

- `generateEventId` (src/utils/event.utils.ts:11-13): it reads the clock and `Math.random`, so it is not modelled.
- `formatDate` (src/utils/date.utils.ts:3-5) takes an arbitrary date-fns format string. Only the tokens used by the labels are modelled: `MMMM`, `MMM`, `d`, `yyyy` and `EEE`.
- `getDayName` (src/utils/date.utils.ts:53-55) is `DateUtils.DayName`, a table lookup. Its property appears under `MonthView.MonthCellsUnderHeader`.
- `isTodayUtil` (src/utils/date.utils.ts:11-13) reads the clock. It is `DateUtils.IsToday` with the present instant as a parameter.
- The event store behind `onEventAdd`, `onEventUpdate` and `onEventDelete` is not part of this model: its source is not available. `Calendar.SaveCall` states which call is made; what the store does with it is not modelled.
- `handleEventDelete` (src/components/Calendar/CalendarView.tsx:66-68) only forwards the id to the store.
- `CalendarCell`'s `handleClick` (lines 21-23), the "+n more" button's click (lines 83-86) and `handleEventClick` (lines 25-28) only forward the date or event to a callback.
- The `EventModal`, `WeekView`, `MobileListView`, `Button` and `Select` components, `main.tsx` and the stories. They are form wiring, pixel layout and sample data: floating-point hour offsets, time-zone-dependent string conversions, random events.
- Time zones, daylight saving and locale. The time line has no offset changes, so `addDays` and `addWeeks` are exact multiples of 86400000 ms. `toLocaleDateString` in the cell's aria-label and `charAt(0)` for the narrow header are not modelled.
- The resize listener (src/components/Calendar/CalendarView.tsx:92-101) and `typeof window`: the window width is a parameter of `Calendar.ShownBody`, `CalendarCell.MaxEvents` and the functions that use them.
- React mechanics: `useState`, `useCallback`, `useMemo` and `React.memo`. Each state update is one method call on a `CalendarState` or `CalendarView` object; a render is a call of the pure functions.
- The picker's `parseInt(value)` and `toString()`: `Calendar.CalendarView.HandleMonthChange` and `HandleYearChange` take the parsed integer. The select only offers strings that parse back to the listed integers.
- `EventUtils.ValidateEvent` records the code of each failing check and renders all the messages at the end. It returns the same list of strings as pushing each message as it is found.
- `eachDayOfInterval` throws a `RangeError` when its start is after its end. `DateUtils.EachDayOfInterval` requires start ≤ end instead; every caller here passes a start before the end.
- Calendar.CalendarView.HandleMonthChange: it uses the intended date (`Calendar.PickedDate`), not `new Date(currentYear, month, 1)` as written. The two differ for years 0..99 (see Findings).
- Calendar.CalendarView.HandleYearChange: it uses the intended date (`Calendar.PickedDate`), not `new Date(year, currentMonth, 1)` as written. The two differ for years 0..99 (see Findings).

## Findings

| source | as written | input that shows it | evidently intended | confidence | as-written member | corrected member |
|---|---|---|---|---|---|---|
| src/utils/date.utils.ts:85-86 | `new Date(year, month + 1, 0)` and `new Date(year, month, i + 1)` read a year from 0 to 99 as 1900 + year | any date in February of year 0, which is a leap year: 28 days of February 1900 are listed instead of the month's 29 | midnight of every day of the date's own month, whatever the year | low (a year before 100 must first be reached); not executed | `DateUtils.GetDaysInMonthFebruaryYearZero` | `DateUtils.GetDaysInMonthDates` |
| src/components/Calendar/CalendarView.tsx:103-111 | `new Date(currentYear, month, 1)` and `new Date(year, currentMonth, 1)` read a year from 0 to 99 as 1900 + year | picking year 50 from a year range around year 45 shows the 1st of the month in 1950 | the 1st of the chosen month in the chosen year | low (a year before 100 must first be reached); not executed | `Calendar.PickedDateAsWrittenEarlyYear` | `Calendar.PickedDateIsFirstOfMonth` |
