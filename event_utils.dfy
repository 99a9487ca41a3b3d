/**
 * The event helpers of src/utils/event.utils.ts: which events a calendar day shows, the
 * checks a submitted event must pass, and the colour palette.
 */
module EventUtils {
  import opened Wrappers
  import opened Text
  import opened Civil
  import opened DateUtils

  /** A calendar event; the optional fields are absent (`undefined`) or hold a value. */
  datatype CalendarEvent = CalendarEvent(
    id: string,
    title: string,
    description: Option<string>,
    startDate: Timestamp,
    endDate: Timestamp,
    color: Option<string>,
    category: Option<string>)

  // ---------------------------------------------------------------- events of a date

  /**
   * The filter's test: the event starts on the same calendar day as `date`, or `date` lies
   * between its start and its end, compared as raw timestamps (not whole days).
   */
  predicate OccursOn(e: CalendarEvent, date: Timestamp) {
    IsSameDay(e.startDate, date) || (e.startDate <= date && e.endDate >= date)
  }

  /** getEventsForDate: the events that occur on `date`, in their original order. */
  function GetEventsForDate(events: seq<CalendarEvent>, date: Timestamp): (r: seq<CalendarEvent>)
    ensures forall e :: e in r <==> e in events && OccursOn(e, date)
    ensures forall e :: multiset(r)[e] == if OccursOn(e, date) then multiset(events)[e] else 0
    ensures IsSubsequence(r, events)
    ensures |r| <= |events|
    decreases |events|
  {
    if events == [] then []
    else
      var rest := GetEventsForDate(events[1..], date);
      assert forall e :: e in events <==> e == events[0] || e in events[1..];
      assert events == [events[0]] + events[1..];
      assert multiset(events) == multiset{events[0]} + multiset(events[1..]);
      if OccursOn(events[0], date) then
        SubsequenceKeep(rest, events[1..], events[0]);
        assert multiset([events[0]] + rest) == multiset{events[0]} + multiset(rest);
        [events[0]] + rest
      else
        SubsequenceSkip(rest, events[1..], events[0]);
        rest
  }

  /** The filter keeps every event when all of them occur on the date, and none of an empty list. */
  lemma {:induction false} GetEventsForDateAll(events: seq<CalendarEvent>, date: Timestamp)
    requires forall i :: 0 <= i < |events| ==> OccursOn(events[i], date)
    ensures GetEventsForDate(events, date) == events
    decreases |events|
  {
    if events != [] {
      GetEventsForDateAll(events[1..], date);
    }
  }

  /** An event that starts on the date's day is shown on it, whatever its end. */
  lemma StartDayShown(events: seq<CalendarEvent>, e: CalendarEvent, date: Timestamp)
    requires e in events && Day(e.startDate) == Day(date)
    ensures e in GetEventsForDate(events, date)
  {
  }

  /**
   * On the midnight of a later day, a multi-day event is shown when it ends at or after that
   * midnight: an event ending exactly at midnight still appears on the day that midnight opens.
   */
  lemma SpanShownOnMidnight(events: seq<CalendarEvent>, e: CalendarEvent, n: DayNumber)
    requires e in events && Day(e.startDate) < n && DayStart(n) <= e.endDate
    ensures e in GetEventsForDate(events, DayStart(n))
  {
    DayDecomposition(e.startDate);
  }

  /**
   * The timestamps are compared as they are: a query later in the same day than the event's
   * end, on a day after its start, does not show the event.
   */
  lemma SpanEndsBeforeQuery(events: seq<CalendarEvent>, e: CalendarEvent, date: Timestamp)
    requires Day(e.startDate) != Day(date) && e.endDate < date
    ensures e !in GetEventsForDate(events, date)
  {
  }

  // ---------------------------------------------------------------- colours

  /** getEventColors: blue, green, yellow, purple, red, cyan, orange and lime. */
  function GetEventColors(): (r: seq<string>)
    ensures |r| == 8
    ensures forall i :: 0 <= i < |r| ==> IsHexColor(r[i])
    ensures forall i, j :: 0 <= i < j < |r| ==> r[i] != r[j]
    ensures r[0] == GetDefaultEventColor()
  {
    var r := ["#3b82f6", "#10b981", "#f59e0b", "#8b5cf6", "#ef4444", "#06b6d4", "#f97316", "#84cc16"];
    assert forall i, j :: 0 <= i < j < 8 ==> r[i][1] != r[j][1] || r[i][2] != r[j][2];
    r
  }

  /** A lower-case hexadecimal digit, as the palette writes them. */
  predicate IsHexDigit(c: char) {
    '0' <= c <= '9' || 'a' <= c <= 'f'
  }

  /** A CSS colour in the "#rrggbb" form. */
  predicate IsHexColor(s: string) {
    |s| == 7 && s[0] == '#' && forall i :: 1 <= i < 7 ==> IsHexDigit(s[i])
  }

  /** getDefaultEventColor: the palette's blue. */
  function GetDefaultEventColor(): (c: string)
    ensures IsHexColor(c)
  {
    "#3b82f6"
  }

  // ---------------------------------------------------------------- validation

  /**
   * The fields validateEvent reads from a partial event; an absent field (`undefined`) is
   * None.  A present Date object is always truthy, so only absence fails the date checks.
   */
  datatype EventDraft = EventDraft(
    title: Option<string>,
    description: Option<string>,
    startDate: Option<Timestamp>,
    endDate: Option<Timestamp>)

  /** The six checks, in the order validateEvent runs them. */
  datatype Check = TitleRequired | TitleTooLong | DescriptionTooLong | StartRequired | EndRequired | EndNotAfterStart

  const AllChecks: seq<Check> := [TitleRequired, TitleTooLong, DescriptionTooLong, StartRequired, EndRequired, EndNotAfterStart]

  function Message(c: Check): string {
    match c
    case TitleRequired => "Title is required"
    case TitleTooLong => "Title must be 100 characters or less"
    case DescriptionTooLong => "Description must be 500 characters or less"
    case StartRequired => "Start date is required"
    case EndRequired => "End date is required"
    case EndNotAfterStart => "End date must be after start date"
  }

  /**
   * Whether draft d fails check c.  `!title?.trim()` holds for an absent title and for one
   * that trims to the empty string; `title && title.length > 100` needs a non-empty title
   * longer than 100 UTF-16 code units, and likewise for the description with 500; the order
   * check needs both dates and fails when the start is not before the end.
   */
  predicate Fails(d: EventDraft, c: Check) {
    match c
    case TitleRequired => d.title.None? || Trim(d.title.value) == []
    case TitleTooLong => d.title.Some? && d.title.value != [] && Utf16Length(d.title.value) > 100
    case DescriptionTooLong => d.description.Some? && d.description.value != [] && Utf16Length(d.description.value) > 500
    case StartRequired => d.startDate.None?
    case EndRequired => d.endDate.None?
    case EndNotAfterStart => d.startDate.Some? && d.endDate.Some? && d.startDate.value >= d.endDate.value
  }

  /** The checks among the first k of AllChecks that d fails, in check order. */
  function FailedChecks(d: EventDraft, k: nat): seq<Check>
    requires k <= |AllChecks|
  {
    if k == 0 then []
    else
      var prior := FailedChecks(d, k - 1);
      if Fails(d, AllChecks[k - 1]) then prior + [AllChecks[k - 1]] else prior
  }

  /** The failed checks are, in order, exactly the checks among the first k that d fails. */
  lemma {:induction false} FailedChecksSelect(d: EventDraft, k: nat)
    requires k <= |AllChecks|
    ensures IsSubsequence(FailedChecks(d, k), AllChecks[..k])
    ensures forall c :: c in FailedChecks(d, k) <==> c in AllChecks[..k] && Fails(d, c)
  {
    if k > 0 {
      var last := AllChecks[k - 1];
      assert AllChecks[..k] == AllChecks[..k - 1] + [last];
      FailedChecksSelect(d, k - 1);
      if Fails(d, last) {
        SubsequenceAppend(FailedChecks(d, k - 1), AllChecks[..k - 1], last);
      } else {
        SubsequenceExtend(FailedChecks(d, k - 1), AllChecks[..k - 1], last);
      }
    }
  }

  /** The messages of a sequence of checks. */
  function Messages(cs: seq<Check>): (r: seq<string>)
    ensures |r| == |cs| && forall i :: 0 <= i < |cs| ==> r[i] == Message(cs[i])
  {
    seq(|cs|, i requires 0 <= i < |cs| => Message(cs[i]))
  }

  /**
   * validateEvent: every check runs, and each one that fails adds its message.  The model
   * records each failing check and renders the messages at the end, which yields the same
   * list of strings as pushing each message in turn.
   */
  method ValidateEvent(d: EventDraft) returns (errors: seq<string>)
    ensures errors == Messages(FailedChecks(d, |AllChecks|))
  {
    var failed: seq<Check> := [];
    if d.title.None? || Trim(d.title.value) == [] {
      failed := failed + [TitleRequired];
    }
    assert failed == FailedChecks(d, 1);
    if d.title.Some? && d.title.value != [] && Utf16Length(d.title.value) > 100 {
      failed := failed + [TitleTooLong];
    }
    assert failed == FailedChecks(d, 2);
    if d.description.Some? && d.description.value != [] && Utf16Length(d.description.value) > 500 {
      failed := failed + [DescriptionTooLong];
    }
    assert failed == FailedChecks(d, 3);
    if d.startDate.None? {
      failed := failed + [StartRequired];
    }
    assert failed == FailedChecks(d, 4);
    if d.endDate.None? {
      failed := failed + [EndRequired];
    }
    assert failed == FailedChecks(d, 5);
    if d.startDate.Some? && d.endDate.Some? && d.startDate.value >= d.endDate.value {
      failed := failed + [EndNotAfterStart];
    }
    errors := Messages(failed);
  }

  /** The number of UTF-16 code units of each message. */
  function MessageLength(c: Check): nat {
    match c
    case TitleRequired => 17
    case TitleTooLong => 36
    case DescriptionTooLong => 42
    case StartRequired => 22
    case EndRequired => 20
    case EndNotAfterStart => 33
  }

  lemma MessageHasLength(c: Check)
    ensures |Message(c)| == MessageLength(c)
  {
  }

  /** The six messages are pairwise different, so a message names its check. */
  lemma MessagesDistinct(a: Check, b: Check)
    ensures Message(a) == Message(b) <==> a == b
  {
    MessageHasLength(a);
    MessageHasLength(b);
  }

  /** A message occurs in the messages of cs exactly when its check occurs in cs. */
  lemma MessageIn(cs: seq<Check>, c: Check)
    ensures Message(c) in Messages(cs) <==> c in cs
  {
    var m := Messages(cs);
    if Message(c) in m {
      var i :| 0 <= i < |cs| && m[i] == Message(c);
      MessagesDistinct(cs[i], c);
    }
  }

  /** Every check is among the six validateEvent runs. */
  lemma AllChecksComplete(c: Check)
    ensures c in AllChecks
  {
    match c
    case TitleRequired => assert AllChecks[0] == c;
    case TitleTooLong => assert AllChecks[1] == c;
    case DescriptionTooLong => assert AllChecks[2] == c;
    case StartRequired => assert AllChecks[3] == c;
    case EndRequired => assert AllChecks[4] == c;
    case EndNotAfterStart => assert AllChecks[5] == c;
  }

  /**
   * What validateEvent reports: each check's message exactly when the check fails, in check
   * order and at most once each, and nothing exactly when every check passes.
   */
  lemma ValidateEventReports(d: EventDraft)
    ensures forall c :: Message(c) in Messages(FailedChecks(d, |AllChecks|)) <==> Fails(d, c)
    ensures IsSubsequence(FailedChecks(d, |AllChecks|), AllChecks)
    ensures Messages(FailedChecks(d, |AllChecks|)) == [] <==> forall c :: !Fails(d, c)
  {
    var f := FailedChecks(d, |AllChecks|);
    FailedChecksSelect(d, |AllChecks|);
    assert AllChecks[..|AllChecks|] == AllChecks;
    forall c
      ensures Message(c) in Messages(f) <==> Fails(d, c)
    {
      AllChecksComplete(c);
      MessageIn(f, c);
    }
    if f != [] {
      assert f[0] in f;
    }
  }

  /** An empty title with ordered dates gives exactly one message, "Title is required". */
  lemma EmptyTitleOnly(s: Timestamp, e: Timestamp)
    requires s < e
    ensures Messages(FailedChecks(EventDraft(Some(""), None, Some(s), Some(e)), |AllChecks|)) == ["Title is required"]
  {
    var d := EventDraft(Some(""), None, Some(s), Some(e));
    assert FailedChecks(d, 1) == [TitleRequired];
    assert FailedChecks(d, 2) == [TitleRequired];
    assert FailedChecks(d, 3) == [TitleRequired];
    assert FailedChecks(d, 4) == [TitleRequired];
    assert FailedChecks(d, 5) == [TitleRequired];
    assert FailedChecks(d, 6) == [TitleRequired];
  }

  /** Equal start and end dates are rejected with the ordering message. */
  lemma EqualDatesRejected(title: string, t: Timestamp)
    ensures "End date must be after start date" in Messages(FailedChecks(EventDraft(Some(title), None, Some(t), Some(t)), |AllChecks|))
  {
    ValidateEventReports(EventDraft(Some(title), None, Some(t), Some(t)));
    assert Message(EndNotAfterStart) == "End date must be after start date";
  }

  /**
   * The length check is independent of the others: a title over 100 code units that is not
   * blank adds its message, next to the missing-date messages.
   */
  lemma LongTitleReported(title: string)
    requires Utf16Length(title) > 100 && Trim(title) != []
    ensures Messages(FailedChecks(EventDraft(Some(title), None, None, None), |AllChecks|))
            == ["Title must be 100 characters or less", "Start date is required", "End date is required"]
  {
    var d := EventDraft(Some(title), None, None, None);
    assert FailedChecks(d, 1) == [];
    assert FailedChecks(d, 2) == [TitleTooLong];
    assert FailedChecks(d, 3) == [TitleTooLong];
    assert FailedChecks(d, 4) == [TitleTooLong, StartRequired];
    assert FailedChecks(d, 5) == [TitleTooLong, StartRequired, EndRequired];
    assert FailedChecks(d, 6) == [TitleTooLong, StartRequired, EndRequired];
  }

  /** A title of more than 100 blanks is both blank and too long: both title messages are reported. */
  lemma BlankLongTitle(title: string, s: Timestamp, e: Timestamp)
    requires |title| > 100 && (forall i :: 0 <= i < |title| ==> IsTrimmable(title[i])) && s < e
    ensures Messages(FailedChecks(EventDraft(Some(title), None, Some(s), Some(e)), |AllChecks|))
            == ["Title is required", "Title must be 100 characters or less"]
  {
    TrimEmptyIffBlank(title);
    assert forall i :: 0 <= i < |title| ==> title[i] as int <= 0xFFFF;
    Utf16LengthBmp(title);
    var d := EventDraft(Some(title), None, Some(s), Some(e));
    assert FailedChecks(d, 1) == [TitleRequired];
    assert FailedChecks(d, 2) == [TitleRequired, TitleTooLong];
    assert FailedChecks(d, 3) == [TitleRequired, TitleTooLong];
    assert FailedChecks(d, 4) == [TitleRequired, TitleTooLong];
    assert FailedChecks(d, 5) == [TitleRequired, TitleTooLong];
    assert FailedChecks(d, 6) == [TitleRequired, TitleTooLong];
  }
}
