/**
 * The useCalendar hook of src/hooks/useCalendar.ts: the calendar's state (the date being
 * shown, the view and the selected day) and the five operations that update it.  Each
 * `setState(prev => ...)` is one method call on a CalendarState object.
 */
module UseCalendar {
  import opened Wrappers
  import opened Civil
  import opened DateUtils

  /** The two views the hook knows: 'month' and 'week'. */
  datatype ViewType = Month | Week

  /** The date one period (a month or a week, as the view says) away in `direction`. */
  function Step(view: ViewType, date: Timestamp, direction: Direction): Timestamp {
    if view.Month? then NavigateMonth(date, direction) else NavigateWeek(date, direction)
  }

  function Opposite(direction: Direction): Direction {
    if direction == Next then Prev else Next
  }

  /**
   * A step moves by exactly one period and keeps the time of day: one month on the month
   * index (the day of the month clamped to the new month's length), seven days in the week view.
   */
  lemma StepMovesOnePeriod(view: ViewType, date: Timestamp, direction: Direction)
    ensures var r := Step(view, date, direction);
            var k := if direction == Next then 1 else -1;
            && TimeOfDay(r) == TimeOfDay(date)
            && (view.Month? ==>
                  MonthIndex(DateOf(r).year, DateOf(r).month) == MonthIndex(DateOf(date).year, DateOf(date).month) + k
                  && DateOf(r).day == Min(DateOf(date).day, DaysInMonth(DateOf(r).year, DateOf(r).month)))
            && (view.Week? ==> Day(r) == Day(date) + 7 * k && Weekday(Day(r)) == Weekday(Day(date)))
  {
    if view.Month? {
      AddMonthsDate(date, if direction == Next then 1 else -1);
    }
  }

  /**
   * Going forward and then back (or back and then forward) in the same view: the week view
   * returns to the very same instant; the month view returns to the same month at the same
   * time of day.
   */
  lemma StepThereAndBack(view: ViewType, date: Timestamp, direction: Direction)
    ensures var back := Step(view, Step(view, date, direction), Opposite(direction));
            && (view.Week? ==> back == date)
            && (view.Month? ==> IsSameMonth(back, date) && TimeOfDay(back) == TimeOfDay(date))
  {
    if view.Week? {
      NavigateWeekRoundTrip(date);
    } else {
      NavigateMonthRoundTrip(date, direction);
    }
  }

  /** The hook's state, updated in place by the operations the hook returns. */
  class CalendarState {
    var currentDate: Timestamp
    var view: ViewType
    var selectedDate: Option<Timestamp>

    /**
     * useCalendar(initialDate, initialView): nothing is selected yet.  An omitted
     * initialDate (None) defaults to the present instant `now`, an omitted initialView to
     * the month view.
     */
    constructor (now: Timestamp, initialDate: Option<Timestamp> := None, initialView: ViewType := Month)
      ensures initialDate.Some? ==> currentDate == initialDate.value
      ensures initialDate.None? ==> currentDate == now
      ensures view == initialView && selectedDate == None
    {
      currentDate := if initialDate.Some? then initialDate.value else now;
      view := initialView;
      selectedDate := None;
    }

    /** goToNext: one month or one week on, as the current view says. */
    method GoToNext()
      modifies this
      ensures currentDate == Step(old(view), old(currentDate), Next)
      ensures view == old(view) && selectedDate == old(selectedDate)
    {
      currentDate := if view.Month? then NavigateMonth(currentDate, Next) else NavigateWeek(currentDate, Next);
    }

    /** goToPrevious: one month or one week back, as the current view says. */
    method GoToPrevious()
      modifies this
      ensures currentDate == Step(old(view), old(currentDate), Prev)
      ensures view == old(view) && selectedDate == old(selectedDate)
    {
      currentDate := if view.Month? then NavigateMonth(currentDate, Prev) else NavigateWeek(currentDate, Prev);
    }

    /** goToToday: the shown date becomes the present instant `now`; the selection stays. */
    method GoToToday(now: Timestamp)
      modifies this
      ensures currentDate == now
      ensures view == old(view) && selectedDate == old(selectedDate)
    {
      currentDate := now;
    }

    /** setView: only the view changes; the shown date is kept as it is. */
    method SetView(v: ViewType)
      modifies this
      ensures view == v
      ensures currentDate == old(currentDate) && selectedDate == old(selectedDate)
    {
      view := v;
    }

    /**
     * selectDate: a date is selected and shown; `null` clears the selection and keeps the
     * shown date (`date || prev.currentDate`, a Date object being always truthy).
     */
    method SelectDate(date: Option<Timestamp>)
      modifies this
      ensures selectedDate == date
      ensures currentDate == (if date.Some? then date.value else old(currentDate))
      ensures view == old(view)
    {
      currentDate := if date.Some? then date.value else currentDate;
      selectedDate := date;
    }
  }
}
