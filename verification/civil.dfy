/**
 * Civil date-times in one fixed offset (UTC), to the millisecond, with the calendar
 * arithmetic the agenda takes from dayjs: `add(n, 'day')`, `add(1, 'month')` and
 * `add(1, 'year')` (the last two clamp the day of the month), and the comparisons
 * `isBefore`, `isAfter` and `isSame`, which dayjs makes on epoch milliseconds.
 */
module Civil {

  const MsPerMinute: int := 60_000
  const MsPerDay: int := 86_400_000
  const EpochYear: int := 1970

  /** A wall-clock reading: proleptic Gregorian year, month 1..12, day 1..length, ms of the day. */
  datatype DateTime = DateTime(year: int, month: int, day: int, ms: int)

  predicate IsLeapYear(y: int) {
    y % 4 == 0 && (y % 100 != 0 || y % 400 == 0)
  }

  function DaysInMonth(y: int, m: int): (n: int)
    requires 1 <= m <= 12
    ensures 28 <= n <= 31
    ensures n == 29 <==> m == 2 && IsLeapYear(y)
  {
    if m == 2 then (if IsLeapYear(y) then 29 else 28)
    else if m == 4 || m == 6 || m == 9 || m == 11 then 30
    else 31
  }

  predicate Valid(d: DateTime) {
    && 1 <= d.month <= 12
    && 1 <= d.day <= DaysInMonth(d.year, d.month)
    && 0 <= d.ms < MsPerDay
  }

  function Min(a: int, b: int): int {
    if a <= b then a else b
  }

  /** Days of year `y` that precede the first of month `m` (m == 13 gives the whole year). */
  function DaysBeforeMonth(y: int, m: int): int
    requires 1 <= m <= 13
    decreases m
  {
    if m == 1 then 0 else DaysBeforeMonth(y, m - 1) + DaysInMonth(y, m - 1)
  }

  function DaysInYear(y: int): int {
    if IsLeapYear(y) then 366 else 365
  }

  /** The twelve months make up the year. */
  lemma MonthsMakeYear(y: int)
    ensures DaysBeforeMonth(y, 13) == DaysInYear(y)
  {
  }

  /** A later month of the same year starts after the earlier month has ended. */
  lemma DaysBeforeMonthMonotone(y: int, m1: int, m2: int)
    requires 1 <= m1 < m2 <= 13
    ensures DaysBeforeMonth(y, m1) + DaysInMonth(y, m1) <= DaysBeforeMonth(y, m2)
  {
  }

  /** Days from 1970-01-01 to January 1st of year `y` (negative before 1970). */
  function DaysBeforeYear(y: int): int
    decreases if y < EpochYear then EpochYear - y else y - EpochYear
  {
    if y == EpochYear then 0
    else if y > EpochYear then DaysBeforeYear(y - 1) + DaysInYear(y - 1)
    else DaysBeforeYear(y + 1) - DaysInYear(y)
  }

  /** Days from 1970-01-01 to the date of `d`. */
  function DayNumber(d: DateTime): int
    requires Valid(d)
  {
    DaysBeforeYear(d.year) + DaysBeforeMonth(d.year, d.month) + d.day - 1
  }

  /** Milliseconds since 1970-01-01T00:00 in the fixed offset: the number dayjs compares. */
  function Instant(d: DateTime): int
    requires Valid(d)
  {
    DayNumber(d) * MsPerDay + d.ms
  }

  /** Strictly earlier calendar date, ignoring the time of day. */
  predicate DateBefore(a: DateTime, b: DateTime) {
    || a.year < b.year
    || (a.year == b.year && a.month < b.month)
    || (a.year == b.year && a.month == b.month && a.day < b.day)
  }

  /** `isBefore`: an earlier date, or the same date and an earlier time of day. */
  predicate IsBefore(a: DateTime, b: DateTime) {
    DateBefore(a, b) || (a.year == b.year && a.month == b.month && a.day == b.day && a.ms < b.ms)
  }

  /** `isAfter`. */
  predicate IsAfter(a: DateTime, b: DateTime) {
    IsBefore(b, a)
  }

  /** `isSame`: the same reading. */
  predicate IsSame(a: DateTime, b: DateTime) {
    a == b
  }

  /** Number of the month counted from January of year 0, so that consecutive months differ by 1. */
  function MonthIndex(d: DateTime): int {
    d.year * 12 + d.month - 1
  }

  /** An integer key that grows with the calendar date (a month has at most 31 days). */
  function DateKey(d: DateTime): int {
    MonthIndex(d) * 32 + d.day
  }

  lemma DateKeyOrder(a: DateTime, b: DateTime)
    requires Valid(a) && Valid(b)
    ensures DateBefore(a, b) ==> DateKey(a) < DateKey(b)
    ensures !DateBefore(b, a) ==> DateKey(a) <= DateKey(b)
  {
  }

  lemma DaysBeforeYearStep(y: int)
    ensures DaysBeforeYear(y + 1) == DaysBeforeYear(y) + DaysInYear(y)
  {
  }

  lemma {:induction false} DaysBeforeYearMonotone(y1: int, y2: int)
    requires y1 < y2
    ensures DaysBeforeYear(y1) + DaysInYear(y1) <= DaysBeforeYear(y2)
    decreases y2 - y1
  {
    DaysBeforeYearStep(y1);
    if y1 + 1 < y2 {
      DaysBeforeYearMonotone(y1 + 1, y2);
    }
  }

  /** The day of a valid date falls inside its year. */
  lemma DayOfYearBounds(d: DateTime)
    requires Valid(d)
    ensures 0 <= DaysBeforeMonth(d.year, d.month) + d.day - 1 < DaysInYear(d.year)
  {
    DaysBeforeMonthMonotone(d.year, d.month, 13);
    MonthsMakeYear(d.year);
    if d.month > 1 {
      DaysBeforeMonthMonotone(d.year, 1, d.month);
    }
  }

  /** A later calendar date has a larger day number: the day count agrees with the calendar. */
  lemma DayNumberStrict(a: DateTime, b: DateTime)
    requires Valid(a) && Valid(b) && DateBefore(a, b)
    ensures DayNumber(a) < DayNumber(b)
  {
    if a.year < b.year {
      DaysBeforeYearMonotone(a.year, b.year);
      DayOfYearBounds(a);
      DayOfYearBounds(b);
    } else if a.month < b.month {
      DaysBeforeMonthMonotone(a.year, a.month, b.month);
    }
  }

  /** A reading that is not before another has at least its day number. */
  lemma DayNumberNotBefore(a: DateTime, b: DateTime)
    requires Valid(a) && Valid(b) && !IsBefore(a, b)
    ensures DayNumber(b) <= DayNumber(a)
  {
    if DateBefore(b, a) {
      DayNumberStrict(b, a);
    }
  }

  /**
   * The field-wise comparisons are exactly the comparisons of epoch milliseconds that dayjs
   * makes: the order of readings is the order of instants.
   */
  lemma OrderIsEpochOrder(a: DateTime, b: DateTime)
    requires Valid(a) && Valid(b)
    ensures IsBefore(a, b) <==> Instant(a) < Instant(b)
    ensures IsSame(a, b) <==> Instant(a) == Instant(b)
  {
    if DateBefore(a, b) {
      DayNumberStrict(a, b);
      var da, db := DayNumber(a), DayNumber(b);
      assert Instant(a) < (da + 1) * MsPerDay <= db * MsPerDay <= Instant(b);
    } else if DateBefore(b, a) {
      DayNumberStrict(b, a);
      var da, db := DayNumber(a), DayNumber(b);
      assert Instant(b) < (db + 1) * MsPerDay <= da * MsPerDay <= Instant(a);
    }
  }

  /** The next calendar day, same time of day (one step of `add(1, 'day')`). */
  function NextDay(d: DateTime): (r: DateTime)
    requires Valid(d)
    ensures Valid(r) && r.ms == d.ms && DateBefore(d, r)
  {
    if d.day < DaysInMonth(d.year, d.month) then
      d.(day := d.day + 1)
    else if d.month < 12 then
      DateTime(d.year, d.month + 1, 1, d.ms)
    else
      DateTime(d.year + 1, 1, 1, d.ms)
  }

  /** The next calendar day is the next day number: no day is skipped or repeated. */
  lemma NextDayNumber(d: DateTime)
    requires Valid(d)
    ensures DayNumber(NextDay(d)) == DayNumber(d) + 1
  {
    if d.day == DaysInMonth(d.year, d.month) && d.month == 12 {
      DaysBeforeYearStep(d.year);
      MonthsMakeYear(d.year);
      assert DaysBeforeMonth(d.year, 13) == DaysBeforeMonth(d.year, 12) + 31;
    }
  }

  /** `add(n, 'day')`: the same wall-clock time n calendar days later. */
  function AddDays(d: DateTime, n: nat): (r: DateTime)
    requires Valid(d)
    ensures Valid(r) && r.ms == d.ms
    ensures n > 0 ==> DateBefore(d, r)
  {
    if n == 0 then d else NextDay(AddDays(d, n - 1))
  }

  /** Adding n days moves the day number by n and the instant by exactly n * 24 hours. */
  lemma {:induction false} AddDaysExact(d: DateTime, n: nat)
    requires Valid(d)
    ensures DayNumber(AddDays(d, n)) == DayNumber(d) + n
    ensures Instant(AddDays(d, n)) == Instant(d) + n * MsPerDay
  {
    if n > 0 {
      AddDaysExact(d, n - 1);
      NextDayNumber(AddDays(d, n - 1));
    }
  }

  /** `add(1, 'month')`: the next month, the day clamped to that month's length. */
  function AddOneMonth(d: DateTime): (r: DateTime)
    requires Valid(d)
    ensures Valid(r)
  {
    var y := if d.month == 12 then d.year + 1 else d.year;
    var m := if d.month == 12 then 1 else d.month + 1;
    DateTime(y, m, Min(d.day, DaysInMonth(y, m)), d.ms)
  }

  /** `add(1, 'year')`: the same month next year, the day clamped to that month's length. */
  function AddOneYear(d: DateTime): (r: DateTime)
    requires Valid(d)
    ensures Valid(r)
  {
    DateTime(d.year + 1, d.month, Min(d.day, DaysInMonth(d.year + 1, d.month)), d.ms)
  }
}
