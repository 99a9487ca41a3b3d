/**
 * The CalendarCell component of src/components/Calendar/CalendarCell.tsx: how many event
 * chips a day cell shows, the "+n more" overflow, the chip colour, and which key presses and
 * clicks report the cell's date.
 */
module CalendarCell {
  import opened Wrappers
  import opened Civil
  import opened DateUtils
  import opened EventUtils

  /** `window.innerWidth < 640`: the cell's own mobile breakpoint. */
  predicate IsMobileCellWidth(innerWidth: int) {
    innerWidth < 640
  }

  /** maxEvents: one chip on a narrow window, three otherwise. */
  function MaxEvents(innerWidth: int): (n: nat)
    ensures n == 1 || n == 3
    ensures n == 1 <==> innerWidth < 640
  {
    if IsMobileCellWidth(innerWidth) then 1 else 3
  }

  /** visibleEvents: `events.slice(0, maxEvents)`, the first chips in the order given. */
  function VisibleEvents(events: seq<CalendarEvent>, innerWidth: int): (r: seq<CalendarEvent>)
    ensures |r| == Min(|events|, MaxEvents(innerWidth))
    ensures forall i :: 0 <= i < |r| ==> r[i] == events[i]
  {
    events[..Min(|events|, MaxEvents(innerWidth))]
  }

  /** hasMoreEvents: more events than chips. */
  predicate HasMoreEvents(events: seq<CalendarEvent>, innerWidth: int) {
    |events| > MaxEvents(innerWidth)
  }

  /** The number in the "+n more" button: `events.length - maxEvents`. */
  function OverflowCount(events: seq<CalendarEvent>, innerWidth: int): int {
    |events| - MaxEvents(innerWidth)
  }

  /**
   * Every event is accounted for: without overflow all events are chips; with overflow the
   * chips and the "+n more" count add up to the number of events, n being at least one.
   */
  lemma EventsAccountedFor(events: seq<CalendarEvent>, innerWidth: int)
    ensures !HasMoreEvents(events, innerWidth) ==> VisibleEvents(events, innerWidth) == events
    ensures HasMoreEvents(events, innerWidth) ==>
              && |VisibleEvents(events, innerWidth)| == MaxEvents(innerWidth)
              && OverflowCount(events, innerWidth) >= 1
              && |VisibleEvents(events, innerWidth)| + OverflowCount(events, innerWidth) == |events|
  {
    if !HasMoreEvents(events, innerWidth) {
      assert events[..|events|] == events;
    }
  }

  /**
   * A chip's background, `event.color || '#3b82f6'`: the event's colour, or the palette's
   * default blue when it has none or an empty one.
   */
  function ChipColor(color: Option<string>): (c: string)
    ensures color.Some? && color.value != [] ==> c == color.value
    ensures color.None? || color.value == [] ==> c == GetDefaultEventColor()
  {
    if color.Some? && color.value != [] then color.value else GetDefaultEventColor()
  }

  /**
   * handleKeyDown: Enter and Space report the cell's date (and prevent the default action);
   * every other key does nothing.
   */
  function CellKeyDown(key: string, date: Timestamp): (r: Option<Timestamp>)
    ensures r.Some? <==> key == "Enter" || key == " "
    ensures r.Some? ==> r.value == date
  {
    if key == "Enter" || key == " " then Some(date) else None
  }
}
