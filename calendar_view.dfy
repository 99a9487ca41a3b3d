/**
 * The CalendarView component of src/components/Calendar/CalendarView.tsx: the header title,
 * the choice between the three bodies, the month/year picker, keyboard navigation, and the
 * event modal's state with what saving an event asks of the caller.
 */
module Calendar {
  import opened Wrappers
  import opened Civil
  import opened DateUtils
  import opened EventUtils
  import opened UseCalendar

  // ---------------------------------------------------------------- title and body

  /** displayTitle: "MMMM yyyy" in the month view, the week's range in the week view. */
  function DisplayTitle(view: ViewType, date: Timestamp): string {
    if view.Month? then MonthLabel(date) else WeekRangeLabel(date)
  }

  /**
   * The title changes exactly with what the view shows: in the month view two dates (of
   * years after 0) get the same title exactly when they lie in the same month, and in the
   * week view two dates of the same week get the same title.
   */
  lemma DisplayTitleFollowsView(view: ViewType, a: Timestamp, b: Timestamp)
    ensures view.Month? && DateOf(a).year > 0 && DateOf(b).year > 0 ==>
              (DisplayTitle(view, a) == DisplayTitle(view, b) <==> IsSameMonth(a, b))
    ensures view.Week? && Day(StartOfWeek(a)) == Day(StartOfWeek(b)) ==>
              DisplayTitle(view, a) == DisplayTitle(view, b)
  {
    if view.Month? && DateOf(a).year > 0 && DateOf(b).year > 0 {
      MonthLabelIdentifiesMonth(a, b);
    }
    if view.Week? && Day(StartOfWeek(a)) == Day(StartOfWeek(b)) {
      WeekRangeLabelSameWeek(a, b);
    }
  }

  /** The three bodies the component can render. */
  datatype Body = MobileList | MonthGrid | WeekGrid

  /** `window.innerWidth < 768`: the component's mobile breakpoint. */
  predicate IsMobileWidth(innerWidth: int) {
    innerWidth < 768
  }

  /**
   * The rendered body: the list on a narrow window in the week view, otherwise the grid of
   * the current view (a narrow window keeps the month grid).
   */
  function ShownBody(innerWidth: int, view: ViewType): (b: Body)
    ensures b == MonthGrid <==> view.Month?
    ensures b == MobileList <==> view.Week? && innerWidth < 768
    ensures b == WeekGrid <==> view.Week? && innerWidth >= 768
  {
    if IsMobileWidth(innerWidth) && view.Week? then MobileList
    else if view.Month? then MonthGrid
    else WeekGrid
  }

  // ---------------------------------------------------------------- keyboard

  /** What a key press on the calendar does. */
  datatype KeyAction = GoPrevious | GoNext | GoToday | Ignore

  /** handleKeyDown's switch: ArrowLeft, ArrowRight and Home act; every other key is ignored. */
  function KeyActionOf(key: string): KeyAction {
    if key == "ArrowLeft" then GoPrevious
    else if key == "ArrowRight" then GoNext
    else if key == "Home" then GoToday
    else Ignore
  }

  /** The shown date after an action, in the given view, with `now` the present instant. */
  function DateAfter(action: KeyAction, view: ViewType, date: Timestamp, now: Timestamp): Timestamp {
    match action
    case GoPrevious => Step(view, date, Prev)
    case GoNext => Step(view, date, Next)
    case GoToday => now
    case Ignore => date
  }

  /**
   * ArrowRight then ArrowLeft (or the reverse) comes back: to the same instant in the week
   * view, to the same month at the same time of day in the month view.  Home twice is Home once.
   */
  lemma ArrowKeysInverse(view: ViewType, date: Timestamp, now: Timestamp)
    ensures var there := DateAfter(KeyActionOf("ArrowRight"), view, date, now);
            var back := DateAfter(KeyActionOf("ArrowLeft"), view, there, now);
            (view.Week? ==> back == date) && (view.Month? ==> IsSameMonth(back, date))
    ensures var there := DateAfter(KeyActionOf("ArrowLeft"), view, date, now);
            var back := DateAfter(KeyActionOf("ArrowRight"), view, there, now);
            (view.Week? ==> back == date) && (view.Month? ==> IsSameMonth(back, date))
    ensures DateAfter(GoToday, view, DateAfter(GoToday, view, date, now), now) == DateAfter(GoToday, view, date, now)
  {
    assert KeyActionOf("ArrowRight") == GoNext;
    assert KeyActionOf("ArrowLeft") == GoPrevious;
    StepThereAndBack(view, date, Next);
    StepThereAndBack(view, date, Prev);
  }

  // ---------------------------------------------------------------- month and year picker

  /**
   * The date the picker's handlers evidently mean: the first of `month` in `year`, with a
   * month outside 0..11 carried into the neighbouring years, and every year taken as it is.
   */
  function PickedDate(year: int, month: int): Timestamp {
    DayStart(DaysFromCivil(CivilDate(year + month / 12, month % 12, 1)))
  }

  /** Picking month m of year y shows midnight of the 1st of that very month. */
  lemma PickedDateIsFirstOfMonth(year: int, month: int)
    requires 0 <= month < 12
    ensures DateOf(PickedDate(year, month)) == CivilDate(year, month, 1)
    ensures TimeOfDay(PickedDate(year, month)) == 0
  {
    assert month / 12 == 0 && month % 12 == month;
    MidnightOfDate(CivilDate(year, month, 1));
  }

  /** The handlers as written: `new Date(year, month, 1)`. */
  function PickedDateAsWritten(year: int, month: int): Timestamp {
    NewDate(year, month, 1)
  }

  /** Outside the years 0..99 the handlers as written pick the intended date. */
  lemma PickedDateAgrees(year: int, month: int)
    requires !(0 <= year <= 99)
    ensures PickedDateAsWritten(year, month) == PickedDate(year, month)
  {
  }

  /**
   * For a year from 0 to 99, `new Date(year, month, 1)` reads the year as 1900 + year: the
   * handlers as written jump 1900 years away from the picked year.
   */
  lemma PickedDateAsWrittenEarlyYear(year: int, month: int)
    requires 0 <= year <= 99 && 0 <= month < 12
    ensures DateOf(PickedDateAsWritten(year, month)) == CivilDate(1900 + year, month, 1)
    ensures DateOf(PickedDateAsWritten(year, month)).year != year
  {
    NewDateFirstOfMonth(year, month);
  }

  /**
   * The pickers show the current month and year among their options: the month select
   * lists value DateOf(t).month and the year select, with its default span, lists the year.
   */
  lemma PickerShowsCurrent(t: Timestamp)
    ensures exists i :: 0 <= i < 12 && GetMonthsInYear(DateOf(t).year)[i].value == DateOf(t).month
    ensures DateOf(t).year in GetYearRange(DateOf(t).year, DefaultYearRange)
  {
    var m := DateOf(t).month;
    assert GetMonthsInYear(DateOf(t).year)[m].value == m;
  }

  // ---------------------------------------------------------------- modal and saving

  /** The modal's state: open or closed, the event being edited, the date a new event starts on. */
  datatype ModalState = ModalState(isOpen: bool, event: Option<CalendarEvent>, initialDate: Option<Timestamp>)

  const ClosedModal: ModalState := ModalState(false, None, None)

  /** What the component asks of its owner when the modal saves an event. */
  datatype StoreCall = Add(event: CalendarEvent) | Update(id: string, event: CalendarEvent)

  /**
   * handleEventSave: an update of the saved event's own id when the modal was opened on an
   * existing event, an addition otherwise; either way the saved event is passed on unchanged.
   */
  function SaveCall(modal: ModalState, e: CalendarEvent): (c: StoreCall)
    ensures c.event == e
    ensures c.Update? <==> modal.event.Some?
    ensures c.Update? ==> c.id == e.id
  {
    if modal.event.Some? then Update(e.id, e) else Add(e)
  }

  /** The component's own state, next to the calendar state of its useCalendar hook. */
  class CalendarView {
    const calendar: CalendarState
    var modalState: ModalState
    var showDatePicker: bool

    /**
     * The component as first rendered: modal closed, picker hidden.  The props default as
     * useCalendar's arguments do: no initialDate means `now`, no initialView the month view.
     */
    constructor (now: Timestamp, initialDate: Option<Timestamp> := None, initialView: ViewType := Month)
      ensures fresh(calendar)
      ensures initialDate.Some? ==> calendar.currentDate == initialDate.value
      ensures initialDate.None? ==> calendar.currentDate == now
      ensures calendar.view == initialView && calendar.selectedDate == None
      ensures modalState == ClosedModal && !showDatePicker
    {
      calendar := new CalendarState(now, initialDate, initialView);
      modalState := ClosedModal;
      showDatePicker := false;
    }

    /** handleDateClick: the date is selected and shown, and the modal opens on a new event for it. */
    method HandleDateClick(date: Timestamp)
      modifies this, calendar
      ensures calendar.selectedDate == Some(date) && calendar.currentDate == date
      ensures calendar.view == old(calendar.view)
      ensures modalState == ModalState(true, None, Some(date))
      ensures showDatePicker == old(showDatePicker)
    {
      calendar.SelectDate(Some(date));
      modalState := ModalState(true, None, Some(date));
    }

    /** handleEventClick: the modal opens on the event, with no initial date. */
    method HandleEventClick(e: CalendarEvent)
      modifies this
      ensures modalState == ModalState(true, Some(e), None)
      ensures showDatePicker == old(showDatePicker)
    {
      modalState := ModalState(true, Some(e), None);
    }

    /** The "Add Event" button: the modal opens on a new event starting `now`. */
    method OpenNewEvent(now: Timestamp)
      modifies this
      ensures modalState == ModalState(true, None, Some(now))
      ensures showDatePicker == old(showDatePicker)
    {
      modalState := ModalState(true, None, Some(now));
    }

    /** handleModalClose: the modal closes and forgets its event and date. */
    method HandleModalClose()
      modifies this
      ensures modalState == ClosedModal
      ensures showDatePicker == old(showDatePicker)
    {
      modalState := ClosedModal;
    }

    /** handleEventSave: the call made to the owner; the component's state is left as it is. */
    method HandleEventSave(e: CalendarEvent) returns (call: StoreCall)
      ensures call == SaveCall(modalState, e)
    {
      call := SaveCall(modalState, e);
    }

    /** A click on the title or on the arrow beside it shows or hides the picker. */
    method ToggleDatePicker()
      modifies this
      ensures showDatePicker == !old(showDatePicker)
      ensures modalState == old(modalState)
    {
      showDatePicker := !showDatePicker;
    }

    /**
     * handleKeyDown: ArrowLeft and ArrowRight go one period back or on, Home goes to `now`;
     * `handled` says whether the key's default action was prevented.  Nothing else changes.
     */
    method HandleKeyDown(key: string, now: Timestamp) returns (handled: bool)
      modifies calendar
      ensures handled <==> KeyActionOf(key) != Ignore
      ensures calendar.currentDate == DateAfter(KeyActionOf(key), old(calendar.view), old(calendar.currentDate), now)
      ensures calendar.view == old(calendar.view) && calendar.selectedDate == old(calendar.selectedDate)
    {
      handled := true;
      if key == "ArrowLeft" {
        calendar.GoToPrevious();
      } else if key == "ArrowRight" {
        calendar.GoToNext();
      } else if key == "Home" {
        calendar.GoToToday(now);
      } else {
        handled := false;
      }
    }

    /**
     * handleMonthChange with the parsed option value: the first of that month in the shown
     * date's year is selected and shown (the intended date; see PickedDateAsWritten).
     */
    method HandleMonthChange(month: int)
      modifies calendar
      ensures calendar.currentDate == PickedDate(DateOf(old(calendar.currentDate)).year, month)
      ensures calendar.selectedDate == Some(calendar.currentDate)
      ensures calendar.view == old(calendar.view)
    {
      var newDate := PickedDate(DateOf(calendar.currentDate).year, month);
      calendar.SelectDate(Some(newDate));
    }

    /**
     * handleYearChange with the parsed option value: the first of the shown date's month in
     * that year is selected and shown.
     */
    method HandleYearChange(year: int)
      modifies calendar
      ensures calendar.currentDate == PickedDate(year, DateOf(old(calendar.currentDate)).month)
      ensures calendar.selectedDate == Some(calendar.currentDate)
      ensures calendar.view == old(calendar.view)
    {
      var newDate := PickedDate(year, DateOf(calendar.currentDate).month);
      calendar.SelectDate(Some(newDate));
    }
  }

  /**
   * After a pick the shown date is the first of the picked month: changing the month keeps
   * the year, changing the year keeps the month.
   */
  lemma PickKeepsTheOtherField(t: Timestamp, month: int, year: int)
    requires 0 <= month < 12
    ensures DateOf(PickedDate(DateOf(t).year, month)) == CivilDate(DateOf(t).year, month, 1)
    ensures DateOf(PickedDate(year, DateOf(t).month)) == CivilDate(year, DateOf(t).month, 1)
  {
    PickedDateIsFirstOfMonth(DateOf(t).year, month);
    PickedDateIsFirstOfMonth(year, DateOf(t).month);
  }
}
