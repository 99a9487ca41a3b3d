/**
 * The MonthView component of src/components/Calendar/MonthView.tsx: the weekday header and
 * one cell per day of the month grid, each with the day's events and its three flags.
 */
module MonthView {
  import opened Wrappers
  import opened Civil
  import opened DateUtils
  import opened EventUtils

  /** What MonthView hands to one CalendarCell. */
  datatype CellProps = CellProps(
    date: Timestamp,
    events: seq<CalendarEvent>,
    isToday: bool,
    isSelected: bool,
    isCurrentMonth: bool)

  /** The header row, Sunday first. */
  const WeekHeader: seq<string> := ["Sun", "Mon", "Tue", "Wed", "Thu", "Fri", "Sat"]

  /**
   * The props of the cell for `date`: its events, whether it is today (`now` being the
   * present instant), whether it is the selected day, and whether it lies in the shown month.
   */
  function CellFor(date: Timestamp, currentDate: Timestamp, events: seq<CalendarEvent>,
                   selectedDate: Option<Timestamp>, now: Timestamp): CellProps
  {
    CellProps(
      date,
      GetEventsForDate(events, date),
      IsToday(date, now),
      if selectedDate.Some? then IsSameDay(date, selectedDate.value) else false,
      IsSameMonth(date, currentDate))
  }

  /** The cells of the month grid of `currentDate`, in grid order. */
  function MonthCells(currentDate: Timestamp, events: seq<CalendarEvent>,
                      selectedDate: Option<Timestamp>, now: Timestamp): (r: seq<CellProps>)
    ensures |r| == |GetCalendarGrid(currentDate)|
    ensures forall i :: 0 <= i < |r| ==> r[i].date == GetCalendarGrid(currentDate)[i]
  {
    var grid := GetCalendarGrid(currentDate);
    seq(|grid|, i requires 0 <= i < |grid| => CellFor(grid[i], currentDate, events, selectedDate, now))
  }

  /**
   * The grid is whole weeks under the header: 28, 35 or 42 cells, and cell i sits under
   * header column i % 7, whose name is the day name of the cell's date.
   */
  lemma MonthCellsUnderHeader(currentDate: Timestamp, events: seq<CalendarEvent>,
                              selectedDate: Option<Timestamp>, now: Timestamp)
    ensures var cells := MonthCells(currentDate, events, selectedDate, now);
            && (|cells| == 28 || |cells| == 35 || |cells| == 42)
            && forall i :: 0 <= i < |cells| ==> WeekHeader[i % 7] == DayName(cells[i].date)
  {
    var cells := MonthCells(currentDate, events, selectedDate, now);
    GridLength(currentDate);
    GridWeekdays(currentDate);
    assert WeekHeader == ShortDayNames;
  }

  /**
   * Each cell lists getEventsForDate of its date: exactly the events that occur on it, each
   * as many times as in `events` and in the order given, and is
   * marked as in the current month exactly for the month's own days, which form the block
   * from cell LeadingDays to cell LeadingDays + MonthLength - 1.
   */
  lemma MonthCellsContent(currentDate: Timestamp, events: seq<CalendarEvent>,
                          selectedDate: Option<Timestamp>, now: Timestamp)
    ensures var cells := MonthCells(currentDate, events, selectedDate, now);
            forall i :: 0 <= i < |cells| ==>
              && cells[i].events == GetEventsForDate(events, cells[i].date)
              && IsSubsequence(cells[i].events, events)
              && (forall e :: e in cells[i].events <==> e in events && OccursOn(e, cells[i].date))
              && (forall e :: multiset(cells[i].events)[e]
                               == if OccursOn(e, cells[i].date) then multiset(events)[e] else 0)
              && (cells[i].isCurrentMonth
                  <==> LeadingDays(currentDate) <= i < LeadingDays(currentDate) + MonthLength(currentDate))
  {
    var cells := MonthCells(currentDate, events, selectedDate, now);
    GridCoversMonth(currentDate);
    forall i | 0 <= i < |cells|
      ensures IsSubsequence(cells[i].events, events)
      ensures forall e :: e in cells[i].events <==> e in events && OccursOn(e, cells[i].date)
      ensures forall e :: multiset(cells[i].events)[e]
                          == if OccursOn(e, cells[i].date) then multiset(events)[e] else 0
    {
      assert cells[i].events == GetEventsForDate(events, cells[i].date);
    }
  }

  /**
   * Without a selection no cell is selected; with one, a cell is selected exactly when it
   * lies on the selected day, so at most one cell is, and the same holds for today.
   */
  lemma MonthCellsSelection(currentDate: Timestamp, events: seq<CalendarEvent>,
                            selectedDate: Option<Timestamp>, now: Timestamp)
    ensures var cells := MonthCells(currentDate, events, selectedDate, now);
            && (selectedDate.None? ==> forall i :: 0 <= i < |cells| ==> !cells[i].isSelected)
            && (selectedDate.Some? ==> forall i :: 0 <= i < |cells| ==>
                  (cells[i].isSelected <==> Day(cells[i].date) == Day(selectedDate.value)))
            && (forall i, j :: 0 <= i < j < |cells| ==> !(cells[i].isSelected && cells[j].isSelected))
            && (forall i, j :: 0 <= i < j < |cells| ==> !(cells[i].isToday && cells[j].isToday))
  {
    var cells := MonthCells(currentDate, events, selectedDate, now);
    forall i | 0 <= i < |cells|
      ensures Day(cells[i].date) == MonthFirst(currentDate) - LeadingDays(currentDate) + i
    {
      GridCellDay(currentDate, i);
    }
  }
}
