/**
 * The proleptic Gregorian calendar and a time-zone-free millisecond time line, as the
 * JavaScript `Date` object and date-fns see them in local time.
 *
 * A timestamp is an integer count of milliseconds since 1970-01-01T00:00 local time; a day
 * number counts whole days from the same instant.  Months are 0-based (January is 0), as
 * `Date.prototype.getMonth` returns them.
 */
module Civil {

  /** Milliseconds per day: 1000 * 60 * 60 * 24. */
  const MsPerDay: int := 86400000

  type Timestamp = int
  type DayNumber = int

  /** The day a timestamp falls on (floor division, also for instants before 1970). */
  function Day(t: Timestamp): DayNumber {
    t / MsPerDay
  }

  /** Milliseconds since local midnight. */
  function TimeOfDay(t: Timestamp): int {
    t % MsPerDay
  }

  /** Local midnight of a day. */
  function DayStart(n: DayNumber): Timestamp {
    n * MsPerDay
  }

  /** Every timestamp is its day's midnight plus its time of day. */
  lemma DayDecomposition(t: Timestamp)
    ensures 0 <= TimeOfDay(t) < MsPerDay
    ensures t == DayStart(Day(t)) + TimeOfDay(t)
  {
  }

  /** A time of day added to a midnight is recovered, and so is the day. */
  lemma {:induction false} DayOfMidnightPlus(n: DayNumber, ms: int)
    requires 0 <= ms < MsPerDay
    ensures Day(DayStart(n) + ms) == n
    ensures TimeOfDay(DayStart(n) + ms) == ms
  {
    var t := DayStart(n) + ms;
    var q, r := t / MsPerDay, t % MsPerDay;
    assert t == MsPerDay * q + r;
    assert MsPerDay * (q - n) == ms - r;
  }

  /** An earlier day means an earlier instant. */
  lemma DayOrder(a: Timestamp, b: Timestamp)
    ensures Day(a) < Day(b) ==> a < b
  {
    DayDecomposition(a);
    DayDecomposition(b);
  }

  /** Day of the week, 0 = Sunday ... 6 = Saturday (1970-01-01 was a Thursday). */
  function Weekday(n: DayNumber): (w: int)
    ensures 0 <= w < 7
  {
    (n + 4) % 7
  }

  // ---------------------------------------------------------------- years and months

  predicate IsLeapYear(y: int) {
    y % 4 == 0 && (y % 100 != 0 || y % 400 == 0)
  }

  function DaysInYear(y: int): int {
    if IsLeapYear(y) then 366 else 365
  }

  /** Length of month m (0-based) of year y. */
  function DaysInMonth(y: int, m: int): (r: int)
    requires 0 <= m < 12
    ensures 28 <= r <= 31
    ensures r == 29 <==> m == 1 && IsLeapYear(y)
    ensures r == 28 <==> m == 1 && !IsLeapYear(y)
    ensures r == 30 <==> m == 3 || m == 5 || m == 8 || m == 10
  {
    if m == 1 then (if IsLeapYear(y) then 29 else 28)
    else if m == 3 || m == 5 || m == 8 || m == 10 then 30
    else 31
  }

  /** Days of year y that precede the first of month m; m == 12 gives the year's length. */
  function DaysBeforeMonth(y: int, m: int): int
    requires 0 <= m <= 12
  {
    if m == 0 then 0 else DaysBeforeMonth(y, m - 1) + DaysInMonth(y, m - 1)
  }

  lemma DaysBeforeMonthStep(y: int, m: int)
    requires 0 <= m < 12
    ensures DaysBeforeMonth(y, m + 1) == DaysBeforeMonth(y, m) + DaysInMonth(y, m)
  {
  }

  /** The twelve months fill the year: they add up to its 365 or 366 days. */
  lemma DaysBeforeMonthFull(y: int)
    ensures DaysBeforeMonth(y, 0) == 0
    ensures DaysBeforeMonth(y, 12) == DaysInYear(y)
  {
    var leap := if IsLeapYear(y) then 1 else 0;
    assert DaysBeforeMonth(y, 1) == 31;
    assert DaysBeforeMonth(y, 2) == 59 + leap;
    assert DaysBeforeMonth(y, 3) == 90 + leap;
    assert DaysBeforeMonth(y, 4) == 120 + leap;
    assert DaysBeforeMonth(y, 5) == 151 + leap;
    assert DaysBeforeMonth(y, 6) == 181 + leap;
    assert DaysBeforeMonth(y, 7) == 212 + leap;
    assert DaysBeforeMonth(y, 8) == 243 + leap;
    assert DaysBeforeMonth(y, 9) == 273 + leap;
    assert DaysBeforeMonth(y, 10) == 304 + leap;
    assert DaysBeforeMonth(y, 11) == 334 + leap;
  }

  lemma {:induction false} DaysBeforeMonthsMonotone(y: int, a: int, b: int)
    requires 0 <= a <= b <= 12
    ensures DaysBeforeMonth(y, a) <= DaysBeforeMonth(y, b)
    decreases b - a
  {
    if a < b {
      DaysBeforeMonthStep(y, a);
      DaysBeforeMonthsMonotone(y, a + 1, b);
    }
  }

  /** Day number of January 1st of year y: the lengths of the years between it and 1970. */
  function DaysBeforeYear(y: int): DayNumber
    decreases if y < 1970 then 1970 - y else y - 1970
  {
    if y == 1970 then 0
    else if y > 1970 then DaysBeforeYear(y - 1) + DaysInYear(y - 1)
    else DaysBeforeYear(y + 1) - DaysInYear(y)
  }

  /** Consecutive New Year's days are one year length apart. */
  lemma DaysBeforeYearStep(y: int)
    ensures DaysBeforeYear(y + 1) == DaysBeforeYear(y) + DaysInYear(y)
  {
  }

  /** New Year's day numbers are strictly increasing in the year. */
  lemma {:induction false} DaysBeforeYearMonotone(a: int, b: int)
    requires a < b
    ensures DaysBeforeYear(a) + DaysInYear(a) <= DaysBeforeYear(b)
    decreases b - a
  {
    DaysBeforeYearStep(a);
    if a + 1 < b {
      DaysBeforeYearMonotone(a + 1, b);
    }
  }

  // ---------------------------------------------------------------- civil dates

  /** A calendar date: year, 0-based month, 1-based day of month. */
  datatype CivilDate = CivilDate(year: int, month: int, day: int) {
    predicate Valid() {
      0 <= month < 12 && 1 <= day <= DaysInMonth(year, month)
    }
  }

  /** Day number of a valid civil date. */
  function DaysFromCivil(c: CivilDate): DayNumber
    requires c.Valid()
  {
    DaysBeforeYear(c.year) + DaysBeforeMonth(c.year, c.month) + c.day - 1
  }

  /** A date's day number lies inside its year and inside its month. */
  lemma DaysFromCivilBounds(c: CivilDate)
    requires c.Valid()
    ensures DaysBeforeYear(c.year) + DaysBeforeMonth(c.year, c.month) <= DaysFromCivil(c)
    ensures DaysFromCivil(c) < DaysBeforeYear(c.year) + DaysBeforeMonth(c.year, c.month + 1)
    ensures DaysBeforeYear(c.year) <= DaysFromCivil(c) < DaysBeforeYear(c.year) + DaysInYear(c.year)
  {
    DaysBeforeMonthsMonotone(c.year, 0, c.month);
    DaysBeforeMonthStep(c.year, c.month);
    DaysBeforeMonthsMonotone(c.year, c.month + 1, 12);
    DaysBeforeMonthFull(c.year);
  }

  /** Distinct valid dates have distinct day numbers. */
  lemma DaysFromCivilInjective(a: CivilDate, b: CivilDate)
    requires a.Valid() && b.Valid()
    requires DaysFromCivil(a) == DaysFromCivil(b)
    ensures a == b
  {
    DaysFromCivilBounds(a);
    DaysFromCivilBounds(b);
    if a.year < b.year {
      DaysBeforeYearMonotone(a.year, b.year);
    } else if b.year < a.year {
      DaysBeforeYearMonotone(b.year, a.year);
    } else if a.month < b.month {
      DaysBeforeMonthsMonotone(a.year, a.month + 1, b.month);
    } else if b.month < a.month {
      DaysBeforeMonthsMonotone(a.year, b.month + 1, a.month);
    }
  }

  // ---------------------------------------------------------------- from day numbers back to dates

  /** The year holding day n, searched upwards from year y. */
  function YearFrom(n: DayNumber, y: int): (r: int)
    requires DaysBeforeYear(y) <= n
    ensures y <= r && DaysBeforeYear(r) <= n < DaysBeforeYear(r + 1)
    decreases n - DaysBeforeYear(y)
  {
    DaysBeforeYearStep(y);
    if n < DaysBeforeYear(y + 1) then y else YearFrom(n, y + 1)
  }

  /** The year holding day n, searched downwards from the year before y. */
  function YearBefore(n: DayNumber, y: int): (r: int)
    requires n < DaysBeforeYear(y)
    ensures r < y && DaysBeforeYear(r) <= n < DaysBeforeYear(r + 1)
    decreases DaysBeforeYear(y) - n
  {
    DaysBeforeYearStep(y - 1);
    if DaysBeforeYear(y - 1) <= n then y - 1 else YearBefore(n, y - 1)
  }

  /** The year that day n lies in. */
  function YearOf(n: DayNumber): (r: int)
    ensures DaysBeforeYear(r) <= n < DaysBeforeYear(r + 1)
  {
    if n >= 0 then YearFrom(n, 1970) else YearBefore(n, 1970)
  }

  /** The month of year y that holds day doy of the year. */
  function FindMonth(y: int, doy: int, m: int): (r: int)
    requires 0 <= m < 12 && DaysBeforeMonth(y, m) <= doy < DaysInYear(y)
    ensures m <= r < 12 && DaysBeforeMonth(y, r) <= doy < DaysBeforeMonth(y, r + 1)
    decreases 12 - m
  {
    DaysBeforeMonthFull(y);
    if doy < DaysBeforeMonth(y, m + 1) then m else FindMonth(y, doy, m + 1)
  }

  /** The civil date of a day number: a valid date whose day number is n. */
  function CivilFromDays(n: DayNumber): (c: CivilDate)
    ensures c.Valid()
    ensures DaysFromCivil(c) == n
  {
    var y := YearOf(n);
    var doy := n - DaysBeforeYear(y);
    DaysBeforeYearStep(y);
    DaysBeforeMonthFull(y);
    var m := FindMonth(y, doy, 0);
    DaysBeforeMonthStep(y, m);
    CivilDate(y, m, doy - DaysBeforeMonth(y, m) + 1)
  }

  /** Converting a valid date to its day number and back gives the date. */
  lemma CivilRoundTrip(c: CivilDate)
    requires c.Valid()
    ensures CivilFromDays(DaysFromCivil(c)) == c
  {
    DaysFromCivilInjective(CivilFromDays(DaysFromCivil(c)), c);
  }

  // ---------------------------------------------------------------- month arithmetic

  /** Months since January of year 0. */
  function MonthIndex(y: int, m: int): int {
    12 * y + m
  }

  /** The civil date a timestamp falls on. */
  function DateOf(t: Timestamp): (c: CivilDate)
    ensures c.Valid()
  {
    CivilFromDays(Day(t))
  }

  /** Day number of the first day of the month that day n lies in. */
  function FirstOfMonth(n: DayNumber): DayNumber {
    var c := CivilFromDays(n);
    DaysFromCivil(CivilDate(c.year, c.month, 1))
  }

  /** Day number of the last day of the month that day n lies in. */
  function LastOfMonth(n: DayNumber): DayNumber {
    var c := CivilFromDays(n);
    DaysFromCivil(CivilDate(c.year, c.month, DaysInMonth(c.year, c.month)))
  }

  /** Day n lies between the first and the last day of its month. */
  lemma MonthContains(n: DayNumber)
    ensures FirstOfMonth(n) <= n <= LastOfMonth(n)
  {
    MonthBounds(n);
  }

  /**
   * FirstOfMonth(n) is day 1 and LastOfMonth(n) the last day of n's month, the month has
   * DaysInMonth days from the one to the other, and n lies between them.
   */
  lemma MonthBounds(n: DayNumber)
    ensures var c := CivilFromDays(n);
            && CivilFromDays(FirstOfMonth(n)) == CivilDate(c.year, c.month, 1)
            && CivilFromDays(LastOfMonth(n)) == CivilDate(c.year, c.month, DaysInMonth(c.year, c.month))
            && LastOfMonth(n) - FirstOfMonth(n) + 1 == DaysInMonth(c.year, c.month)
            && FirstOfMonth(n) <= n <= LastOfMonth(n)
  {
    var c := CivilFromDays(n);
    CivilRoundTrip(CivilDate(c.year, c.month, 1));
    CivilRoundTrip(CivilDate(c.year, c.month, DaysInMonth(c.year, c.month)));
  }

  /**
   * The days of a month are exactly the days from its first to its last: day k lies in the
   * same month as day n if and only if it lies between FirstOfMonth(n) and LastOfMonth(n).
   */
  lemma SameMonthIffBetween(n: DayNumber, k: DayNumber)
    ensures (CivilFromDays(k).year == CivilFromDays(n).year && CivilFromDays(k).month == CivilFromDays(n).month)
            <==> FirstOfMonth(n) <= k <= LastOfMonth(n)
  {
    var c := CivilFromDays(n);
    var ck := CivilFromDays(k);
    var first := FirstOfMonth(n);
    var base := DaysBeforeYear(c.year) + DaysBeforeMonth(c.year, c.month);
    assert first == base;
    assert LastOfMonth(n) == base + DaysInMonth(c.year, c.month) - 1;
    if ck.year == c.year && ck.month == c.month {
      assert k == base + ck.day - 1;
    }
    if first <= k <= LastOfMonth(n) {
      var d := CivilDate(c.year, c.month, k - first + 1);
      assert d.Valid();
      assert DaysFromCivil(d) == k;
      CivilRoundTrip(d);
    }
  }
}
