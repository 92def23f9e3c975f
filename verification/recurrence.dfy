/**
 * The recurrence rule of an event and `addRecurrence`, the step that moves one instance of a
 * series to the next, with the facts the expansion loops rely on: every real rule moves
 * forward by at least a calendar day, and repeating the step keeps an instance's end on or
 * after the calendar day of its start.
 */
module RecurrenceRule {
  import opened Civil

  /** The five values the event's `recurrence` column accepts. */
  datatype Recurrence = NONE | DAILY | WEEKLY | MONTHLY | YEARLY

  /**
   * `addRecurrence`: one period later at the same time of day; NONE (the default branch)
   * leaves the date unchanged, every other rule moves it to a later calendar date.
   */
  function AddRecurrence(date: DateTime, recurrence: Recurrence): (r: DateTime)
    requires Valid(date)
    ensures Valid(r) && r.ms == date.ms
    ensures recurrence == NONE ==> r == date
    ensures recurrence != NONE ==> DateBefore(date, r)
  {
    match recurrence
    case DAILY => AddDays(date, 1)
    case WEEKLY => AddDays(date, 7)
    case MONTHLY => AddOneMonth(date)
    case YEARLY => AddOneYear(date)
    case NONE => date
  }

  /**
   * What each rule does: exactly 24 hours or 7 * 24 hours later for DAILY and WEEKLY; the
   * next month or the same month next year for MONTHLY and YEARLY, keeping the day of the
   * month when that month has it and falling back to the month's last day otherwise.
   */
  lemma AddRecurrenceEffect(date: DateTime, recurrence: Recurrence)
    requires Valid(date)
    ensures var r := AddRecurrence(date, recurrence);
      && (recurrence == NONE ==> r == date)
      && (recurrence == DAILY ==> Instant(r) == Instant(date) + MsPerDay)
      && (recurrence == WEEKLY ==> Instant(r) == Instant(date) + 7 * MsPerDay)
      && (recurrence == MONTHLY ==>
            && MonthIndex(r) == MonthIndex(date) + 1
            && r.day == (if date.day <= DaysInMonth(r.year, r.month) then date.day else DaysInMonth(r.year, r.month)))
      && (recurrence == YEARLY ==>
            && r.year == date.year + 1 && r.month == date.month
            && (r.day == date.day <==> !(date.month == 2 && date.day == 29 && !IsLeapYear(r.year)))
            && (r.day != date.day ==> r.day == 28))
  {
    if recurrence == DAILY {
      AddDaysExact(date, 1);
    } else if recurrence == WEEKLY {
      AddDaysExact(date, 7);
    }
  }

  /** The k-th instance of a series: the step applied k times, starting from `date`. */
  function Iter(date: DateTime, recurrence: Recurrence, k: nat): (r: DateTime)
    requires Valid(date)
    ensures Valid(r) && r.ms == date.ms
    decreases k
  {
    if k == 0 then date else Iter(AddRecurrence(date, recurrence), recurrence, k - 1)
  }

  /** One more step moves from the k-th instance to the next. */
  lemma {:induction false} IterSucc(date: DateTime, recurrence: Recurrence, k: nat)
    requires Valid(date)
    ensures Iter(date, recurrence, k + 1) == AddRecurrence(Iter(date, recurrence, k), recurrence)
    decreases k
  {
    if k > 0 {
      IterSucc(AddRecurrence(date, recurrence), recurrence, k - 1);
    }
  }

  /** Under a real rule the instances fall on strictly increasing calendar dates. */
  lemma {:induction false} IterIncreasing(date: DateTime, recurrence: Recurrence, j: nat, k: nat)
    requires Valid(date) && recurrence != NONE && j < k
    ensures DateBefore(Iter(date, recurrence, j), Iter(date, recurrence, k))
    decreases k - j
  {
    IterSucc(date, recurrence, k - 1);
    if j + 1 < k {
      IterIncreasing(date, recurrence, j, k - 1);
    }
  }

  /** Every rule other than NONE moves a date forward by at least one whole day. */
  lemma StepAdvances(date: DateTime, recurrence: Recurrence)
    requires Valid(date) && recurrence != NONE
    ensures DayNumber(AddRecurrence(date, recurrence)) >= DayNumber(date) + 1
    ensures Instant(AddRecurrence(date, recurrence)) >= Instant(date) + MsPerDay
  {
    var r := AddRecurrence(date, recurrence);
    DayNumberStrict(date, r);
    assert DayNumber(r) * MsPerDay >= (DayNumber(date) + 1) * MsPerDay;
  }

  /** The k-th instance falls at least (k - j) calendar days after the j-th. */
  lemma {:induction false} IterAdvances(date: DateTime, recurrence: Recurrence, j: nat, k: nat)
    requires Valid(date) && recurrence != NONE && j <= k
    ensures DayNumber(Iter(date, recurrence, k)) >= DayNumber(Iter(date, recurrence, j)) + (k - j)
    decreases k - j
  {
    if j < k {
      IterAdvances(date, recurrence, j, k - 1);
      IterSucc(date, recurrence, k - 1);
      StepAdvances(Iter(date, recurrence, k - 1), recurrence);
    }
  }

  /** A calendar date that is not earlier than another stays so after one step of any rule. */
  lemma StepDayMonotone(a: DateTime, b: DateTime, recurrence: Recurrence)
    requires Valid(a) && Valid(b) && !DateBefore(b, a)
    ensures !DateBefore(AddRecurrence(b, recurrence), AddRecurrence(a, recurrence))
  {
    var ra, rb := AddRecurrence(a, recurrence), AddRecurrence(b, recurrence);
    if recurrence == DAILY || recurrence == WEEKLY {
      var n := if recurrence == DAILY then 1 else 7;
      AddDaysExact(a, n);
      AddDaysExact(b, n);
      if DateBefore(a, b) {
        DayNumberStrict(a, b);
      }
      if DateBefore(rb, ra) {
        DayNumberStrict(rb, ra);
      }
    }
  }

  /** The fixed-length rules (and NONE) preserve the order of instants. */
  lemma StepMonotoneFixedPeriod(a: DateTime, b: DateTime, recurrence: Recurrence)
    requires Valid(a) && Valid(b) && !IsAfter(a, b)
    requires recurrence == NONE || recurrence == DAILY || recurrence == WEEKLY
    ensures !IsAfter(AddRecurrence(a, recurrence), AddRecurrence(b, recurrence))
  {
    if recurrence != NONE {
      var ra, rb := AddRecurrence(a, recurrence), AddRecurrence(b, recurrence);
      AddRecurrenceEffect(a, recurrence);
      AddRecurrenceEffect(b, recurrence);
      OrderIsEpochOrder(b, a);
      OrderIsEpochOrder(rb, ra);
    }
  }

  /**
   * The month and year steps do NOT preserve the order of instants: two readings on
   * consecutive days can clamp onto the same day and swap, because the later one has the
   * earlier time of day.
   */
  lemma ClampReordersInstants()
    ensures var a, b := DateTime(2023, 1, 30, 23 * 60 * MsPerMinute), DateTime(2023, 1, 31, 60 * MsPerMinute);
      && Valid(a) && Valid(b) && Instant(a) < Instant(b)
      && AddRecurrence(a, MONTHLY) == DateTime(2023, 2, 28, 23 * 60 * MsPerMinute)
      && AddRecurrence(b, MONTHLY) == DateTime(2023, 2, 28, 60 * MsPerMinute)
      && Instant(AddRecurrence(a, MONTHLY)) > Instant(AddRecurrence(b, MONTHLY))
    ensures var a, b := DateTime(2024, 2, 28, 23 * 60 * MsPerMinute), DateTime(2024, 2, 29, 60 * MsPerMinute);
      && Valid(a) && Valid(b) && Instant(a) < Instant(b)
      && Instant(AddRecurrence(a, YEARLY)) > Instant(AddRecurrence(b, YEARLY))
  {
  }

  /** An instance whose end is on or after its start's calendar day keeps that across every step. */
  lemma {:induction false} IterDayOrder(start: DateTime, end: DateTime, recurrence: Recurrence, k: nat)
    requires Valid(start) && Valid(end) && !DateBefore(end, start)
    ensures !DateBefore(Iter(end, recurrence, k), Iter(start, recurrence, k))
    decreases k
  {
    if k > 0 {
      StepDayMonotone(start, end, recurrence);
      IterDayOrder(AddRecurrence(start, recurrence), AddRecurrence(end, recurrence), recurrence, k - 1);
    }
  }

  /** The rules whose period is a fixed number of days. */
  predicate FixedLength(recurrence: Recurrence) {
    recurrence == DAILY || recurrence == WEEKLY
  }

  /** Daily and weekly instances all last exactly as long as the first one. */
  lemma IterKeepsDuration(start: DateTime, end: DateTime, recurrence: Recurrence, k: nat)
    requires Valid(start) && Valid(end) && FixedLength(recurrence)
    ensures Instant(Iter(end, recurrence, k)) - Instant(Iter(start, recurrence, k)) == Instant(end) - Instant(start)
  {
    IterKeepsDays(start, end, recurrence, k);
  }

  lemma {:induction false} IterKeepsDays(start: DateTime, end: DateTime, recurrence: Recurrence, k: nat)
    requires Valid(start) && Valid(end) && FixedLength(recurrence)
    ensures DayNumber(Iter(end, recurrence, k)) - DayNumber(Iter(start, recurrence, k)) == DayNumber(end) - DayNumber(start)
    decreases k
  {
    if k > 0 {
      FixedStepDays(start, recurrence);
      FixedStepDays(end, recurrence);
      IterKeepsDays(AddRecurrence(start, recurrence), AddRecurrence(end, recurrence), recurrence, k - 1);
    }
  }

  /** A daily or weekly step moves the day number by exactly 1 or 7. */
  lemma FixedStepDays(date: DateTime, recurrence: Recurrence)
    requires Valid(date) && FixedLength(recurrence)
    ensures DayNumber(AddRecurrence(date, recurrence)) == DayNumber(date) + (if recurrence == DAILY then 1 else 7)
  {
    AddDaysExact(date, if recurrence == DAILY then 1 else 7);
  }

  /**
   * Clamping carries forward: a monthly series from January 31st of a leap year goes to
   * February 29th and then to March 29th, not back to March 31st.
   */
  lemma MonthlyClampCarriesForward()
    ensures var base := DateTime(2024, 1, 31, 9 * 60 * MsPerMinute);
      && Iter(base, MONTHLY, 1) == DateTime(2024, 2, 29, 9 * 60 * MsPerMinute)
      && Iter(base, MONTHLY, 2) == DateTime(2024, 3, 29, 9 * 60 * MsPerMinute)
  {
  }

  /** A yearly series from February 29th stays on February 28th, even in the next leap year. */
  lemma YearlyLeapDayClamp()
    ensures var base := DateTime(2024, 2, 29, 0);
      && Iter(base, YEARLY, 1) == DateTime(2025, 2, 28, 0)
      && Iter(base, YEARLY, 4) == DateTime(2028, 2, 28, 0)
  {
  }
}
