/**
 * The date helpers of src/utils/date.utils.ts, over the date-fns and `Date` operations they
 * call: start and end of a week (weeks start on Sunday) or of a month, every day of an
 * interval, month and week steps, same-day and same-month tests, the header labels, the
 * hourly slot labels, day differences, the days of a month and the picker lists.
 */
module DateUtils {
  import opened Civil
  import opened Text

  // ---------------------------------------------------------------- date-fns primitives

  /** `startOfDay`: local midnight of the timestamp's day. */
  function StartOfDay(t: Timestamp): (r: Timestamp)
    ensures Day(r) == Day(t) && TimeOfDay(r) == 0 && r <= t
  {
    DayOfMidnightPlus(Day(t), 0);
    DayDecomposition(t);
    DayStart(Day(t))
  }

  /** The last millisecond of day n (what `setHours(23, 59, 59, 999)` gives). */
  function EndOfDayNumber(n: DayNumber): (r: Timestamp)
    ensures Day(r) == n && TimeOfDay(r) == MsPerDay - 1
  {
    DayOfMidnightPlus(n, MsPerDay - 1);
    DayStart(n) + MsPerDay - 1
  }

  /** `startOfWeek(t)` with `weekStartsOn = 0`: midnight of the Sunday on or before t's day. */
  function StartOfWeek(t: Timestamp): (r: Timestamp)
    ensures Day(r) == Day(t) - Weekday(Day(t)) && TimeOfDay(r) == 0
  {
    DayOfMidnightPlus(Day(t) - Weekday(Day(t)), 0);
    DayStart(Day(t) - Weekday(Day(t)))
  }

  /** `endOfWeek(t)`: 23:59:59.999 on the Saturday on or after t's day. */
  function EndOfWeek(t: Timestamp): (r: Timestamp)
    ensures Day(r) == Day(t) + 6 - Weekday(Day(t))
  {
    EndOfDayNumber(Day(t) + 6 - Weekday(Day(t)))
  }

  /** startOfWeek gives a Sunday, at most six days before t's day. */
  lemma StartOfWeekIsSunday(t: Timestamp)
    ensures Weekday(Day(StartOfWeek(t))) == 0
    ensures Day(t) - 6 <= Day(StartOfWeek(t)) <= Day(t)
    ensures Day(EndOfWeek(t)) == Day(StartOfWeek(t)) + 6 && Weekday(Day(EndOfWeek(t))) == 6
  {
    SundayOnOrBefore(Day(t));
    WeekdayFromSunday(Day(StartOfWeek(t)), 6);
  }

  /** `startOfMonth(t)`: midnight of the first day of t's month. */
  function StartOfMonth(t: Timestamp): (r: Timestamp)
    ensures Day(r) == FirstOfMonth(Day(t)) && TimeOfDay(r) == 0
  {
    DayOfMidnightPlus(FirstOfMonth(Day(t)), 0);
    DayStart(FirstOfMonth(Day(t)))
  }

  /** `endOfMonth(t)`: 23:59:59.999 on the last day of t's month. */
  function EndOfMonth(t: Timestamp): (r: Timestamp)
    ensures Day(r) == LastOfMonth(Day(t))
  {
    EndOfDayNumber(LastOfMonth(Day(t)))
  }

  /**
   * `eachDayOfInterval({start, end})`: midnight of every day from start's day to end's day.
   * date-fns throws a RangeError when start is after end.
   */
  function EachDayOfInterval(start: Timestamp, end: Timestamp): (r: seq<Timestamp>)
    requires start <= end
    ensures |r| == Day(end) - Day(start) + 1
    ensures forall i :: 0 <= i < |r| ==> r[i] == DayStart(Day(start) + i)
  {
    DayOrder(start, end);
    Midnights(Day(start), Day(end) - Day(start) + 1)
  }

  /** Midnight of `count` consecutive days from day `first`. */
  function Midnights(first: DayNumber, count: nat): (r: seq<Timestamp>)
    ensures |r| == count && forall i :: 0 <= i < count ==> r[i] == DayStart(first + i)
  {
    seq(count, i => DayStart(first + i))
  }

  /** `isSameDay` / isSameDayUtil. */
  predicate IsSameDay(a: Timestamp, b: Timestamp) {
    Day(a) == Day(b)
  }

  /** isTodayUtil, with the wall clock passed in as `now`. */
  predicate IsToday(t: Timestamp, now: Timestamp) {
    IsSameDay(t, now)
  }

  /** `isSameMonth` / isSameMonthUtil: same year and same month. */
  predicate IsSameMonth(a: Timestamp, b: Timestamp) {
    DateOf(a).year == DateOf(b).year && DateOf(a).month == DateOf(b).month
  }

  /** Midnight of a valid date falls on that date, at time 0. */
  lemma MidnightOfDate(c: CivilDate)
    requires c.Valid()
    ensures Day(DayStart(DaysFromCivil(c))) == DaysFromCivil(c)
    ensures TimeOfDay(DayStart(DaysFromCivil(c))) == 0
    ensures DateOf(DayStart(DaysFromCivil(c))) == c
  {
    DayOfMidnightPlus(DaysFromCivil(c), 0);
    CivilRoundTrip(c);
  }

  /** Two instants fall on the same day exactly when they have the same calendar date. */
  lemma SameDayIffSameDate(a: Timestamp, b: Timestamp)
    ensures IsSameDay(a, b) <==> DateOf(a) == DateOf(b)
  {
  }

  /** Same day implies same month; same month means the same first day of the month. */
  lemma SameMonthIffSameFirstDay(a: Timestamp, b: Timestamp)
    ensures IsSameDay(a, b) ==> IsSameMonth(a, b)
    ensures IsSameMonth(a, b) <==> FirstOfMonth(Day(a)) == FirstOfMonth(Day(b))
  {
    if FirstOfMonth(Day(a)) == FirstOfMonth(Day(b)) {
      MonthBounds(Day(a));
      MonthBounds(Day(b));
    }
  }

  // ---------------------------------------------------------------- grids

  /** getCalendarGrid: every day from the Sunday before the 1st to the Saturday after the last day. */
  function GetCalendarGrid(t: Timestamp): seq<Timestamp> {
    var start := StartOfWeek(StartOfMonth(t));
    var end := EndOfWeek(EndOfMonth(t));
    MonthContains(Day(t));
    DayOrder(start, end);
    EachDayOfInterval(start, end)
  }

  /** The first day of t's month, its weekday (the number of leading days) and the month's length. */
  function MonthFirst(t: Timestamp): DayNumber {
    FirstOfMonth(Day(t))
  }

  function LeadingDays(t: Timestamp): (r: int)
    ensures 0 <= r < 7
  {
    Weekday(MonthFirst(t))
  }

  function MonthLength(t: Timestamp): (r: int)
    ensures 28 <= r <= 31
  {
    DaysInMonth(DateOf(t).year, DateOf(t).month)
  }

  /** The Sunday on or before day n is a Sunday. */
  lemma SundayOnOrBefore(n: DayNumber)
    ensures Weekday(n - Weekday(n)) == 0
  {
    assert n + 4 == 7 * ((n + 4) / 7) + Weekday(n);
  }

  /** Counting from a Sunday, day s + i has weekday i mod 7. */
  lemma WeekdayFromSunday(s: DayNumber, i: int)
    requires Weekday(s) == 0
    ensures Weekday(s + i) == i % 7
  {
    assert s + 4 == 7 * ((s + 4) / 7);
    assert s + i + 4 == 7 * ((s + 4) / 7 + i / 7) + i % 7;
  }

  /**
   * Padding a month of d days that starts on day f out to whole Sunday-to-Saturday weeks
   * gives 28, 35 or 42 days, fewer than seven more than the leading days and the month.
   */
  lemma WholeWeeks(f: DayNumber, d: int)
    requires 28 <= d <= 31
    ensures var n := Weekday(f) + d + 6 - Weekday(f + d - 1);
            && n % 7 == 0 && Weekday(f) + d <= n < Weekday(f) + d + 7
            && (n == 28 || n == 35 || n == 42) && (n - 1) % 7 == 6
  {
    var x := Weekday(f) + d - 1;
    var q := x / 7;
    assert f + 4 == 7 * ((f + 4) / 7) + Weekday(f);
    assert f + d - 1 + 4 == 7 * ((f + 4) / 7) + x;
    assert Weekday(f + d - 1) == x % 7;
    assert x == 7 * q + x % 7;
    assert 3 <= q <= 5;
    assert Weekday(f) + d + 6 - Weekday(f + d - 1) == 7 * q + 7;
  }

  /** Grid cell i is midnight of the i-th day counted from the Sunday that starts the grid. */
  lemma GridDays(t: Timestamp)
    ensures |GetCalendarGrid(t)| == LeadingDays(t) + MonthLength(t) + 6 - Weekday(MonthFirst(t) + MonthLength(t) - 1)
    ensures forall i :: 0 <= i < |GetCalendarGrid(t)| ==>
              GetCalendarGrid(t)[i] == DayStart(MonthFirst(t) - LeadingDays(t) + i)
  {
    MonthBounds(Day(t));
    var first, last := MonthFirst(t), LastOfMonth(Day(t));
    assert last == first + MonthLength(t) - 1;
    assert Day(StartOfWeek(StartOfMonth(t))) == first - LeadingDays(t);
    assert Day(EndOfWeek(EndOfMonth(t))) == last + 6 - Weekday(last);
  }

  /**
   * The month grid is whole weeks: 28, 35 or 42 days, with fewer than seven days of padding
   * before the 1st and after the last day of the month.
   */
  lemma GridLength(t: Timestamp)
    ensures |GetCalendarGrid(t)| % 7 == 0
    ensures |GetCalendarGrid(t)| == 28 || |GetCalendarGrid(t)| == 35 || |GetCalendarGrid(t)| == 42
    ensures LeadingDays(t) + MonthLength(t) <= |GetCalendarGrid(t)| < LeadingDays(t) + MonthLength(t) + 7
  {
    GridDays(t);
    WholeWeeks(MonthFirst(t), MonthLength(t));
  }

  /** Cell i of the grid lies on the i-th day after the Sunday that starts the grid. */
  lemma GridCellDay(t: Timestamp, i: int)
    requires 0 <= i < |GetCalendarGrid(t)|
    ensures Day(GetCalendarGrid(t)[i]) == MonthFirst(t) - LeadingDays(t) + i
  {
    GridDays(t);
    DayOfMidnightPlus(MonthFirst(t) - LeadingDays(t) + i, 0);
  }

  /** Column i % 7 of the grid is weekday i % 7 (Sunday first). */
  lemma GridWeekdays(t: Timestamp)
    ensures forall i :: 0 <= i < |GetCalendarGrid(t)| ==> Weekday(Day(GetCalendarGrid(t)[i])) == i % 7
  {
    var g, sunday := GetCalendarGrid(t), MonthFirst(t) - LeadingDays(t);
    SundayOnOrBefore(MonthFirst(t));
    forall i | 0 <= i < |g|
      ensures Weekday(Day(g[i])) == i % 7
    {
      GridCellDay(t, i);
      WeekdayFromSunday(sunday, i);
    }
  }

  /** The grid starts on a Sunday and ends on a Saturday. */
  lemma GridEnds(t: Timestamp)
    ensures Weekday(Day(GetCalendarGrid(t)[0])) == 0
    ensures Weekday(Day(GetCalendarGrid(t)[|GetCalendarGrid(t)| - 1])) == 6
  {
    GridLength(t);
    GridWeekdays(t);
    WholeWeeks(MonthFirst(t), MonthLength(t));
    GridDays(t);
  }

  /**
   * The grid cells that lie in t's month are exactly cells LeadingDays(t) ..
   * LeadingDays(t) + MonthLength(t) - 1.
   */
  lemma GridCoversMonth(t: Timestamp)
    ensures forall i :: 0 <= i < |GetCalendarGrid(t)| ==>
              (IsSameMonth(GetCalendarGrid(t)[i], t) <==> LeadingDays(t) <= i < LeadingDays(t) + MonthLength(t))
  {
    MonthBounds(Day(t));
    var g, lead, first := GetCalendarGrid(t), LeadingDays(t), MonthFirst(t);
    forall i | 0 <= i < |g|
      ensures IsSameMonth(g[i], t) <==> lead <= i < lead + MonthLength(t)
    {
      GridCellDay(t, i);
      SameMonthIffBetween(Day(t), first - lead + i);
    }
  }

  /** Cell LeadingDays(t) + k - 1 is midnight of day k of the month: every day of the month is in the grid, once. */
  lemma GridMonthDays(t: Timestamp)
    ensures forall k :: 1 <= k <= MonthLength(t) ==>
              LeadingDays(t) + k - 1 < |GetCalendarGrid(t)|
              && GetCalendarGrid(t)[LeadingDays(t) + k - 1]
                 == DayStart(DaysFromCivil(CivilDate(DateOf(t).year, DateOf(t).month, k)))
  {
    GridLength(t);
    GridDays(t);
  }

  /** getWeekDays: the seven days Sunday .. Saturday of the week holding t. */
  function GetWeekDays(t: Timestamp): seq<Timestamp> {
    EachDayOfInterval(StartOfWeek(t), EndOfWeek(t))
  }

  /** Seven consecutive days starting on a Sunday; t's own day is at position Weekday(Day(t)). */
  lemma WeekDaysShape(t: Timestamp)
    ensures |GetWeekDays(t)| == 7
    ensures forall i :: 0 <= i < 7 ==> GetWeekDays(t)[i] == DayStart(Day(t) - Weekday(Day(t)) + i)
    ensures forall i :: 0 <= i < 7 ==> Weekday(Day(GetWeekDays(t)[i])) == i
    ensures GetWeekDays(t)[Weekday(Day(t))] == StartOfDay(t)
  {
    var w := GetWeekDays(t);
    var sunday := Day(t) - Weekday(Day(t));
    SundayOnOrBefore(Day(t));
    forall i | 0 <= i < 7
      ensures Weekday(Day(w[i])) == i
    {
      DayOfMidnightPlus(sunday + i, 0);
      WeekdayFromSunday(sunday, i);
    }
  }

  /** A day lies in the week of t exactly when it is one of t's seven week days. */
  lemma WeekDaysContain(t: Timestamp, u: Timestamp)
    ensures StartOfDay(u) in GetWeekDays(t) <==> Day(StartOfWeek(t)) <= Day(u) <= Day(EndOfWeek(t))
  {
    WeekDaysShape(t);
    var w := GetWeekDays(t);
    var sunday := Day(t) - Weekday(Day(t));
    if StartOfDay(u) in w {
      var i :| 0 <= i < 7 && w[i] == StartOfDay(u);
      DayOfMidnightPlus(sunday + i, 0);
    }
    if sunday <= Day(u) <= sunday + 6 {
      assert w[Day(u) - sunday] == StartOfDay(u);
    }
  }

  // ---------------------------------------------------------------- navigation

  datatype Direction = Next | Prev

  function Min(a: int, b: int): int {
    if a <= b then a else b
  }

  /** The year and month `k` months after month m of year y. */
  function ShiftMonth(y: int, m: int, k: int): (r: (int, int))
    ensures 0 <= r.1 < 12 && MonthIndex(r.0, r.1) == MonthIndex(y, m) + k
  {
    var idx := MonthIndex(y, m) + k;
    (idx / 12, idx % 12)
  }

  /** The date `k` months after c: same day of the month, clamped to the target month's length. */
  function ShiftDate(c: CivilDate, k: int): (r: CivilDate)
    requires c.Valid()
    ensures r.Valid()
  {
    var target := ShiftMonth(c.year, c.month, k);
    CivilDate(target.0, target.1, Min(c.day, DaysInMonth(target.0, target.1)))
  }

  /** `addMonths(t, k)`: the date `k` months later (clamped), at the same time of day. */
  function AddMonths(t: Timestamp, k: int): Timestamp {
    DayStart(DaysFromCivil(ShiftDate(DateOf(t), k))) + TimeOfDay(t)
  }

  /**
   * addMonths lands in the month k months on, on the same day of the month clamped to that
   * month's length, at the same time of day.
   */
  lemma AddMonthsDate(t: Timestamp, k: int)
    ensures DateOf(AddMonths(t, k)) == ShiftDate(DateOf(t), k)
    ensures TimeOfDay(AddMonths(t, k)) == TimeOfDay(t)
    ensures MonthIndex(DateOf(AddMonths(t, k)).year, DateOf(AddMonths(t, k)).month)
              == MonthIndex(DateOf(t).year, DateOf(t).month) + k
    ensures DateOf(AddMonths(t, k)).day
              == Min(DateOf(t).day, DaysInMonth(DateOf(AddMonths(t, k)).year, DateOf(AddMonths(t, k)).month))
  {
    var c := ShiftDate(DateOf(t), k);
    DayDecomposition(t);
    DayOfMidnightPlus(DaysFromCivil(c), TimeOfDay(t));
    CivilRoundTrip(c);
  }

  /** navigateMonth: `addMonths(t, 1)` or `subMonths(t, 1)`, which is `addMonths(t, -1)`. */
  function NavigateMonth(t: Timestamp, direction: Direction): Timestamp {
    if direction == Next then AddMonths(t, 1) else AddMonths(t, -1)
  }

  /** `addDays(t, k)` in a time line without daylight-saving shifts. */
  function AddDays(t: Timestamp, k: int): Timestamp {
    t + k * MsPerDay
  }

  /** navigateWeek: `addWeeks(t, 1)` or `subWeeks(t, 1)`, i.e. seven days either way. */
  function NavigateWeek(t: Timestamp, direction: Direction): (r: Timestamp)
    ensures Day(r) == Day(t) + (if direction == Next then 7 else -7)
    ensures TimeOfDay(r) == TimeOfDay(t)
    ensures Weekday(Day(r)) == Weekday(Day(t))
  {
    var k := if direction == Next then 7 else -7;
    DayDecomposition(t);
    DayOfMidnightPlus(Day(t) + k, TimeOfDay(t));
    assert AddDays(t, k) == DayStart(Day(t) + k) + TimeOfDay(t);
    AddDays(t, k)
  }

  /** A week forward and a week back (or back and forward) is the identity. */
  lemma NavigateWeekRoundTrip(t: Timestamp)
    ensures NavigateWeek(NavigateWeek(t, Next), Prev) == t
    ensures NavigateWeek(NavigateWeek(t, Prev), Next) == t
  {
  }

  /** Shifting a date by k months and back by -k months gives its month again, with the day clamped twice. */
  lemma ShiftDateBack(c: CivilDate, k: int)
    requires c.Valid()
    ensures var back := ShiftDate(ShiftDate(c, k), -k);
            back.year == c.year && back.month == c.month
            && back.day == Min(c.day, DaysInMonth(ShiftDate(c, k).year, ShiftDate(c, k).month))
  {
    var back := ShiftDate(ShiftDate(c, k), -k);
    assert MonthIndex(back.year, back.month) == MonthIndex(c.year, c.month);
    assert 12 * (back.year - c.year) == c.month - back.month;
  }

  /**
   * A month forward and then a month back returns to the original month at the same time
   * of day; the day of the month is restored exactly unless it had to be clamped, i.e.
   * unless it exceeds the length of the month in between.
   */
  lemma NavigateMonthRoundTrip(t: Timestamp, first: Direction)
    ensures var second := if first == Next then Prev else Next;
            var mid := NavigateMonth(t, first);
            var back := NavigateMonth(mid, second);
            && IsSameMonth(back, t)
            && TimeOfDay(back) == TimeOfDay(t)
            && DateOf(back).day == Min(DateOf(t).day, DaysInMonth(DateOf(mid).year, DateOf(mid).month))
            && (back == t <==> DateOf(t).day <= DaysInMonth(DateOf(mid).year, DateOf(mid).month))
  {
    var k := if first == Next then 1 else -1;
    var second := if first == Next then Prev else Next;
    var mid := NavigateMonth(t, first);
    var back := NavigateMonth(mid, second);
    assert mid == AddMonths(t, k) && back == AddMonths(mid, -k);
    AddMonthsDate(t, k);
    AddMonthsDate(mid, -k);
    ShiftDateBack(DateOf(t), k);
    DayDecomposition(t);
    DayDecomposition(back);
    if DateOf(back) == DateOf(t) {
      assert Day(back) == Day(t);
    }
  }

  // ---------------------------------------------------------------- labels

  const FullMonthNames: seq<string> := ["January", "February", "March", "April", "May", "June",
    "July", "August", "September", "October", "November", "December"]

  const ShortMonthNames: seq<string> := ["Jan", "Feb", "Mar", "Apr", "May", "Jun",
    "Jul", "Aug", "Sep", "Oct", "Nov", "Dec"]

  const ShortDayNames: seq<string> := ["Sun", "Mon", "Tue", "Wed", "Thu", "Fri", "Sat"]

  /**
   * The date-fns `yyyy` token: the year of the era, zero-padded to four digits.  Years up to
   * 0 are written as 1 - year (0 is 1 BC), without an era marker.
   */
  function YearToken(y: int): string {
    PadStart(Decimal(if y > 0 then y else 1 - y), 4, '0')
  }

  /** `format(t, 'MMMM')`: the full English name of t's month. */
  function MonthName(t: Timestamp): string {
    FullMonthNames[DateOf(t).month]
  }

  /** getMonthName: `format(t, 'MMMM yyyy')`, e.g. "January 2025". */
  function MonthLabel(t: Timestamp): string {
    MonthName(t) + " " + YearToken(DateOf(t).year)
  }

  /** `format(t, 'MMM d')`. */
  function ShortDateText(c: CivilDate): string
    requires c.Valid()
  {
    ShortMonthNames[c.month] + " " + Decimal(c.day)
  }

  /** `format(s, 'MMM d') - format(e, 'MMM d, yyyy')`. */
  function RangeText(s: CivilDate, e: CivilDate): string
    requires s.Valid() && e.Valid()
  {
    ShortDateText(s) + " - " + ShortDateText(e) + ", " + YearToken(e.year)
  }

  /** getWeekRange: the range text from the start to the end of t's week, e.g. "Jan 12 - Jan 18, 2025". */
  function WeekRangeLabel(t: Timestamp): string {
    RangeText(DateOf(StartOfWeek(t)), DateOf(EndOfWeek(t)))
  }

  /** getDayName: `format(t, 'EEE')`. */
  function DayName(t: Timestamp): string {
    ShortDayNames[Weekday(Day(t))]
  }

  /** getDayNumber: `t.getDate()`, the day of the month. */
  function GetDayNumber(t: Timestamp): (r: int)
    ensures 1 <= r <= DaysInMonth(DateOf(t).year, DateOf(t).month)
    ensures DaysFromCivil(CivilDate(DateOf(t).year, DateOf(t).month, r)) == Day(t)
  {
    DateOf(t).day
  }

  /**
   * Two month labels of dates in years after 0 are equal exactly when the dates lie in the
   * same month: the label identifies the month.
   */
  lemma MonthLabelIdentifiesMonth(a: Timestamp, b: Timestamp)
    requires DateOf(a).year > 0 && DateOf(b).year > 0
    ensures MonthLabel(a) == MonthLabel(b) <==> IsSameMonth(a, b)
  {
    var ca, cb := DateOf(a), DateOf(b);
    if MonthLabel(a) == MonthLabel(b) {
      MonthNamesHaveNoSpace();
      SplitAtSpace(FullMonthNames[ca.month], YearToken(ca.year), FullMonthNames[cb.month], YearToken(cb.year));
      YearTokenReadsBack(ca.year);
      YearTokenReadsBack(cb.year);
    }
  }

  lemma MonthNamesHaveNoSpace()
    ensures forall m, i :: 0 <= m < 12 && 0 <= i < |FullMonthNames[m]| ==> FullMonthNames[m][i] != ' '
    ensures forall m, n :: 0 <= m < 12 && 0 <= n < 12 && FullMonthNames[m] == FullMonthNames[n] ==> m == n
  {
  }

  /** A space-free head followed by a space is recovered from the concatenation. */
  lemma SplitAtSpace(a: string, x: string, b: string, y: string)
    requires forall i :: 0 <= i < |a| ==> a[i] != ' '
    requires forall i :: 0 <= i < |b| ==> b[i] != ' '
    requires a + " " + x == b + " " + y
    ensures a == b && x == y
  {
    var s := a + " " + x;
    assert |a| == |b| by {
      assert s[|a|] == ' ' && s[|b|] == ' ';
    }
    assert a == s[..|a|] == b;
    assert x == s[|a| + 1..] == y;
  }

  /** For years after 0 the year token reads back as the year. */
  lemma YearTokenReadsBack(y: int)
    requires y > 0
    ensures AllDigits(YearToken(y)) && ParseDecimal(YearToken(y)) == y
  {
    ParseDecimalZeroPadded(Decimal(y), 4);
    ParseDecimalOfDecimal(y);
  }

  /** 1 BC (year 0) and 1 AD are printed alike, so the label does not identify months before year 1. */
  lemma YearTokenEraAmbiguity()
    ensures YearToken(0) == YearToken(1) == "0001"
  {
  }

  /** The week label names the Sunday and the Saturday of t's week, and the Saturday's year. */
  lemma WeekRangeLabelOfWeek(t: Timestamp)
    ensures WeekRangeLabel(t)
              == RangeText(CivilFromDays(Day(StartOfWeek(t))), CivilFromDays(Day(StartOfWeek(t)) + 6))
  {
    WeekEndDates(t);
  }

  /** The dates of a week's start and end: its Sunday and the Saturday six days later. */
  lemma WeekEndDates(t: Timestamp)
    ensures DateOf(StartOfWeek(t)) == CivilFromDays(Day(StartOfWeek(t)))
    ensures DateOf(EndOfWeek(t)) == CivilFromDays(Day(StartOfWeek(t)) + 6)
  {
    var n := Day(t) - Weekday(Day(t));
    assert Day(StartOfWeek(t)) == n;
    assert Day(EndOfWeek(t)) == n + 6;
  }

  /** The week label depends only on the week: two instants of one week get the same label. */
  lemma WeekRangeLabelSameWeek(t: Timestamp, u: Timestamp)
    requires Day(StartOfWeek(t)) == Day(StartOfWeek(u))
    ensures WeekRangeLabel(t) == WeekRangeLabel(u)
  {
    assert DateOf(StartOfWeek(t)) == DateOf(StartOfWeek(u));
    assert DateOf(EndOfWeek(t)) == DateOf(EndOfWeek(u)) by {
      assert Day(EndOfWeek(t)) == Day(EndOfWeek(u));
    }
  }

  // ---------------------------------------------------------------- time slots

  /** `${hour.toString().padStart(2, '0')}:00`. */
  function HourLabel(h: nat): string {
    PadStart(Decimal(h), 2, '0') + ":00"
  }

  /** getTimeSlots: the 24 hourly labels "00:00" .. "23:00", built by pushing one per hour. */
  method GetTimeSlots() returns (slots: seq<string>)
    ensures |slots| == 24
    ensures forall h :: 0 <= h < 24 ==> slots[h] == HourLabel(h)
  {
    slots := [];
    var hour := 0;
    while hour < 24
      invariant 0 <= hour <= 24
      invariant |slots| == hour
      invariant forall h :: 0 <= h < hour ==> slots[h] == HourLabel(h)
    {
      slots := slots + [HourLabel(hour)];
      hour := hour + 1;
    }
  }

  /** An hour label is two digits, tens then units, followed by ":00". */
  lemma {:induction false} HourLabelShape(h: nat)
    requires h < 24
    ensures |HourLabel(h)| == 5
    ensures HourLabel(h)[0] == DigitChar(h / 10) && HourLabel(h)[1] == DigitChar(h % 10)
    ensures HourLabel(h)[2..] == ":00"
  {
    if h >= 10 {
      assert Decimal(h) == Decimal(h / 10) + [DigitChar(h % 10)];
    }
  }

  /** The hour reads back from the first two characters of its label. */
  lemma HourLabelReadsBack(h: nat)
    requires h < 24
    ensures AllDigits(HourLabel(h)[..2]) && ParseDecimal(HourLabel(h)[..2]) == h
  {
    HourLabelShape(h);
    var p := HourLabel(h)[..2];
    assert p == [DigitChar(h / 10), DigitChar(h % 10)];
    DigitRoundTrip(h / 10);
    DigitRoundTrip(h % 10);
    assert p[..1] == [DigitChar(h / 10)] && p[..1][..0] == [];
    assert ParseDecimal(p[..1]) == h / 10;
  }

  /** Earlier hours have labels that come first in string order. */
  lemma HourLabelsOrdered(h: nat, k: nat)
    requires h < k < 24
    ensures LexLess(HourLabel(h), HourLabel(k))
  {
    HourLabelShape(h);
    HourLabelShape(k);
    var a, b := HourLabel(h), HourLabel(k);
    if h / 10 < k / 10 {
      LexLessAtFirstDifference(a, b, 0);
    } else {
      assert a[..1] == [a[0]] == [b[0]] == b[..1];
      LexLessAtFirstDifference(a, b, 1);
    }
  }

  // ---------------------------------------------------------------- differences and lists

  /** daysBetween: `Math.floor((end - start) / msPerDay)`. */
  function DaysBetween(start: Timestamp, end: Timestamp): (r: int)
    ensures r * MsPerDay <= end - start < (r + 1) * MsPerDay
  {
    (end - start) / MsPerDay
  }

  /** A span of exactly k whole days gives k; the result is negative exactly when end precedes start. */
  lemma DaysBetweenWholeDays(start: Timestamp, k: int, end: Timestamp)
    ensures DaysBetween(start, start + k * MsPerDay) == k
    ensures DaysBetween(start, end) < 0 <==> end < start
  {
    var q := DaysBetween(start, start + k * MsPerDay);
    assert MsPerDay * (q - k) <= 0 < MsPerDay * (q - k + 1);
  }

  /**
   * `new Date(year, month, date)` at midnight: the month may lie outside 0..11 and the date
   * outside the month (both carry over), and a year argument from 0 to 99 means 1900 + year.
   */
  function NewDate(year: int, month: int, date: int): Timestamp {
    var y := if 0 <= year <= 99 then 1900 + year else year;
    var first := CivilDate(y + month / 12, month % 12, 1);
    DayStart(DaysFromCivil(first) + date - 1)
  }

  /** The year `new Date` reads from its year argument. */
  function DateConstructorYear(year: int): int {
    if 0 <= year <= 99 then 1900 + year else year
  }

  /** For a valid date, `new Date` gives midnight of that date in the year it reads. */
  lemma NewDateOfValidDate(year: int, month: int, date: int)
    requires CivilDate(DateConstructorYear(year), month, date).Valid()
    ensures NewDate(year, month, date) == DayStart(DaysFromCivil(CivilDate(DateConstructorYear(year), month, date)))
  {
    assert month / 12 == 0 && month % 12 == month;
  }

  /** Within months 0..11, date d counts d - 1 days on from the first of the month. */
  lemma NewDateInMonth(year: int, m: int, d: int)
    requires 0 <= m < 12
    ensures NewDate(year, m, d) == DayStart(DaysFromCivil(CivilDate(DateConstructorYear(year), m, 1)) + d - 1)
  {
    assert m / 12 == 0 && m % 12 == m;
  }

  /** Day 0 of the month after month m is the last day of month m. */
  lemma NewDateDayZero(year: int, m: int)
    requires 0 <= m < 12
    ensures var y := DateConstructorYear(year);
            NewDate(year, m + 1, 0) == DayStart(DaysFromCivil(CivilDate(y, m, DaysInMonth(y, m))))
  {
    var y := DateConstructorYear(year);
    DaysBeforeMonthStep(y, m);
    if m == 11 {
      assert (m + 1) / 12 == 1 && (m + 1) % 12 == 0;
      DaysBeforeYearStep(y);
      DaysBeforeMonthFull(y);
    } else {
      assert (m + 1) / 12 == 0 && (m + 1) % 12 == m + 1;
    }
  }

  /** `count` days of month `month`, day i being `new Date(year, month, i + 1)`. */
  function DateConstructorDays(year: int, month: int, count: nat): seq<Timestamp> {
    seq(count, i => NewDate(year, month, i + 1))
  }

  /**
   * The body of getDaysInMonth for a given year and month: as many days as
   * `new Date(year, month + 1, 0).getDate()`.
   */
  function DateConstructorMonth(year: int, month: int): seq<Timestamp> {
    DateConstructorDays(year, month, DateOf(NewDate(year, month + 1, 0)).day)
  }

  /** For a month 0..11, the days listed are midnights of consecutive days from the first of the month. */
  lemma DateConstructorDaysMidnights(year: int, m: int, count: nat)
    requires 0 <= m < 12
    ensures DateConstructorDays(year, m, count)
            == Midnights(DaysFromCivil(CivilDate(DateConstructorYear(year), m, 1)), count)
  {
    var a, b := DateConstructorDays(year, m, count), Midnights(DaysFromCivil(CivilDate(DateConstructorYear(year), m, 1)), count);
    forall i | 0 <= i < count
      ensures a[i] == b[i]
    {
      NewDateInMonth(year, m, i + 1);
    }
  }

  /** For a month 0..11, day 0 of the next month is the last day of the month: its date is the month's length. */
  lemma DateConstructorCount(year: int, m: int)
    requires 0 <= m < 12
    ensures DateOf(NewDate(year, m + 1, 0)).day == DaysInMonth(DateConstructorYear(year), m)
  {
    var y := DateConstructorYear(year);
    NewDateDayZero(year, m);
    MidnightOfDate(CivilDate(y, m, DaysInMonth(y, m)));
  }

  /** For a month 0..11, the list is midnight of every day of that month in the year `new Date` reads. */
  lemma DateConstructorMonthMidnights(year: int, m: int)
    requires 0 <= m < 12
    ensures DateConstructorMonth(year, m) == MonthMidnights(DateConstructorYear(year), m)
  {
    DateConstructorCount(year, m);
    DateConstructorDaysMidnights(year, m, DaysInMonth(DateConstructorYear(year), m));
  }

  /** getDaysInMonth as written: the body above, for the year and month of t. */
  function GetDaysInMonthAsWritten(t: Timestamp): seq<Timestamp> {
    DateConstructorMonth(DateOf(t).year, DateOf(t).month)
  }

  /** For a year argument 0..99 the list has the days of the same month of year 1900 + year. */
  lemma DateConstructorMonthEarly(year: int, m: int)
    requires 0 <= year <= 99 && 0 <= m < 12
    ensures var r := DateConstructorMonth(year, m);
            |r| == DaysInMonth(1900 + year, m)
            && forall i :: 0 <= i < |r| ==> DateOf(r[i]) == CivilDate(1900 + year, m, i + 1)
  {
    DateConstructorMonthMidnights(year, m);
    MonthMidnightsDates(1900 + year, m);
  }

  /** For a date in the years 0..99 the function as written lists the days of the same month of year 1900 + year. */
  lemma GetDaysInMonthEarlyYears(t: Timestamp)
    requires 0 <= DateOf(t).year <= 99
    ensures var c, r := DateOf(t), GetDaysInMonthAsWritten(t);
            |r| == DaysInMonth(1900 + c.year, c.month)
            && forall i :: 0 <= i < |r| ==> DateOf(r[i]) == CivilDate(1900 + c.year, c.month, i + 1)
  {
    var c := DateOf(t);
    DateConstructorMonthEarly(c.year, c.month);
  }

  /**
   * In February of a year 0..99 whose leap-year status differs from that of 1900 + year, the
   * function as written lists a different number of days from the month's own.
   */
  lemma GetDaysInMonthLeapMismatch(t: Timestamp)
    requires 0 <= DateOf(t).year <= 99 && DateOf(t).month == 1
    requires IsLeapYear(DateOf(t).year) != IsLeapYear(1900 + DateOf(t).year)
    ensures |GetDaysInMonthAsWritten(t)| != |GetDaysInMonth(t)|
  {
    GetDaysInMonthEarlyYears(t);
  }

  /** Year 0 is such a year: February 0 has 29 days, February 1900 has 28. */
  lemma YearZeroLeapMismatch()
    ensures IsLeapYear(0) && !IsLeapYear(1900)
    ensures DaysInMonth(0, 1) == 29 && DaysInMonth(1900, 1) == 28
  {
  }

  /**
   * Any day of February of year 0 (1 BC, a leap year): the function as written lists 28 days
   * (those of February 1900, by GetDaysInMonthEarlyYears) instead of the month's own 29.
   */
  lemma GetDaysInMonthFebruaryYearZero(y: int, d: int)
    requires y == 0 && 1 <= d <= 29
    ensures var t := DayStart(DaysFromCivil(CivilDate(y, 1, d)));
            |GetDaysInMonthAsWritten(t)| == 28 && |GetDaysInMonth(t)| == 29
  {
    var c := CivilDate(y, 1, d);
    var t := DayStart(DaysFromCivil(c));
    MidnightOfDate(c);
    GetDaysInMonthLeapMismatch(t);
    GetDaysInMonthEarlyYears(t);
    GetDaysInMonthDates(t);
  }

  /** Outside the years 0..99 the as-written function and the corrected one agree. */
  lemma GetDaysInMonthAgrees(t: Timestamp)
    requires !(0 <= DateOf(t).year <= 99)
    ensures GetDaysInMonthAsWritten(t) == GetDaysInMonth(t)
  {
    var c := DateOf(t);
    DateConstructorMonthMidnights(c.year, c.month);
    assert GetDaysInMonth(t) == MonthMidnights(c.year, c.month);
  }

  /**
   * getDaysInMonth as intended: midnight of every day of t's month, in order (what
   * `setFullYear(year, month, i + 1)` would give for every year).
   */
  function GetDaysInMonth(t: Timestamp): seq<Timestamp> {
    Midnights(MonthFirst(t), MonthLength(t))
  }

  /** The days of t's month: as many as the month has, element i at midnight of day i + 1. */
  lemma GetDaysInMonthDates(t: Timestamp)
    ensures |GetDaysInMonth(t)| == MonthLength(t)
    ensures forall i :: 0 <= i < |GetDaysInMonth(t)| ==>
              DateOf(GetDaysInMonth(t)[i]) == CivilDate(DateOf(t).year, DateOf(t).month, i + 1)
              && TimeOfDay(GetDaysInMonth(t)[i]) == 0
  {
    var c := DateOf(t);
    MonthMidnightsDates(c.year, c.month);
    assert GetDaysInMonth(t) == MonthMidnights(c.year, c.month);
  }

  /** Midnight of every day of month m of year y. */
  function MonthMidnights(y: int, m: int): seq<Timestamp>
    requires 0 <= m < 12
  {
    Midnights(DaysFromCivil(CivilDate(y, m, 1)), DaysInMonth(y, m))
  }

  /** Entry i of the month's midnights falls on day i + 1 of the month, at time 0. */
  lemma MonthMidnightsDates(y: int, m: int)
    requires 0 <= m < 12
    ensures |MonthMidnights(y, m)| == DaysInMonth(y, m)
    ensures forall i :: 0 <= i < DaysInMonth(y, m) ==>
              DateOf(MonthMidnights(y, m)[i]) == CivilDate(y, m, i + 1) && TimeOfDay(MonthMidnights(y, m)[i]) == 0
  {
    var r := MonthMidnights(y, m);
    forall i | 0 <= i < DaysInMonth(y, m)
      ensures DateOf(r[i]) == CivilDate(y, m, i + 1) && TimeOfDay(r[i]) == 0
    {
      var day := CivilDate(y, m, i + 1);
      assert r[i] == DayStart(DaysFromCivil(day));
      MidnightOfDate(day);
    }
  }

  /** One entry of the month picker. */
  datatype MonthOption = MonthOption(value: int, text: string)

  /** getMonthsInYear: value i and `format(new Date(year, i, 1), 'MMMM')`, for i = 0 .. 11. */
  function GetMonthsInYear(year: int): (r: seq<MonthOption>)
    ensures |r| == 12
    ensures forall i :: 0 <= i < 12 ==> r[i].value == i
  {
    seq(12, i => MonthOption(i, MonthName(NewDate(year, i, 1))))
  }

  /** The picker's labels are the twelve month names in calendar order, whatever the year. */
  lemma GetMonthsInYearLabels(year: int)
    ensures forall i :: 0 <= i < 12 ==> GetMonthsInYear(year)[i].text == FullMonthNames[i]
  {
    var r := GetMonthsInYear(year);
    forall i | 0 <= i < 12
      ensures r[i].text == FullMonthNames[i]
    {
      assert r[i] == MonthOption(i, MonthName(NewDate(year, i, 1)));
      NewDateFirstOfMonth(year, i);
    }
  }

  /** `new Date(year, m, 1)` for a month 0..11 is midnight of the 1st of m in the year `new Date` reads. */
  lemma NewDateFirstOfMonth(year: int, m: int)
    requires 0 <= m < 12
    ensures DateOf(NewDate(year, m, 1)) == CivilDate(DateConstructorYear(year), m, 1)
    ensures TimeOfDay(NewDate(year, m, 1)) == 0
  {
    NewDateOfValidDate(year, m, 1);
    MidnightOfDate(CivilDate(DateConstructorYear(year), m, 1));
  }

  /**
   * getYearRange: the years currentYear - range .. currentYear + range in increasing order;
   * `Array.from` with a negative length gives no years.
   */
  function GetYearRange(currentYear: int, range: int): (r: seq<int>)
    ensures range >= 0 ==> |r| == 2 * range + 1 && r[range] == currentYear
    ensures range < 0 ==> r == []
    ensures forall i :: 0 <= i < |r| ==> r[i] == currentYear - range + i
    ensures forall y :: y in r <==> range >= 0 && currentYear - range <= y <= currentYear + range
  {
    var startYear := currentYear - range;
    var endYear := currentYear + range;
    var n := if endYear - startYear + 1 < 0 then 0 else endYear - startYear + 1;
    var r := seq(n, i => startYear + i);
    forall y | startYear <= y <= endYear
      ensures y in r
    {
      assert r[y - startYear] == y;
    }
    r
  }

  /** The year picker's default span of ten years either side. */
  const DefaultYearRange: int := 10
}
