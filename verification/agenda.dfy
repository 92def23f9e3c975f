/**
 * The calendar view of the agenda controller: every stored event visible to the user is
 * turned into the concrete occurrences that fall in a query range [rangeStart, rangeEnd].
 * A non-recurring event passes through a strict overlap test; a recurring one is expanded
 * by stepping a (start, end) cursor with `addRecurrence`, first past the instances that end
 * before the range, then through the range.
 */
module Agenda {
  import opened Wrappers
  import opened Civil
  import opened RecurrenceRule

  /** An event row as the store returns it. */
  datatype Event = Event(
    id: int,
    userId: int,
    title: string,
    description: Option<string>,
    startTime: DateTime,
    endTime: DateTime,
    color: Option<string>,
    location: Option<string>,
    reminderOffset: Option<nat>,
    recurrence: Option<Recurrence>)

  /**
   * The offset `createEvent` stores for a requested one: a zero offset is stored as null, as
   * is a missing one, so a stored row never holds an offset of zero.
   */
  function StoredReminderOffset(requested: Option<nat>): (stored: Option<nat>)
    ensures stored != Some(0)
    ensures stored.Some? <==> requested.Some? && requested.value > 0
    ensures stored.Some? ==> stored == requested
  {
    if requested.Some? && requested.value != 0 then requested else None
  }

  predicate WellFormed(ev: Event) {
    Valid(ev.startTime) && Valid(ev.endTime)
  }

  predicate AllWellFormed(events: seq<Event>) {
    forall i :: 0 <= i < |events| ==> WellFormed(events[i])
  }

  /** A missing recurrence and NONE both take the non-recurring path. */
  predicate IsRecurring(ev: Event) {
    ev.recurrence.Some? && ev.recurrence.value != NONE
  }

  function Rule(ev: Event): Recurrence {
    ev.recurrence.GetOr(NONE)
  }

  /** The k-th instance of the event: the whole record with only its two times replaced. */
  function Instance(ev: Event, k: nat): (o: Event)
    requires WellFormed(ev)
    ensures WellFormed(o)
  {
    ev.(startTime := Iter(ev.startTime, Rule(ev), k), endTime := Iter(ev.endTime, Rule(ev), k))
  }

  /** The emission test of the recurring path: start at or before the range end, end after its start. */
  predicate Emits(ev: Event, k: nat, rangeStart: DateTime, rangeEnd: DateTime)
    requires WellFormed(ev) && Valid(rangeStart) && Valid(rangeEnd)
  {
    !IsAfter(Iter(ev.startTime, Rule(ev), k), rangeEnd) && IsAfter(Iter(ev.endTime, Rule(ev), k), rangeStart)
  }

  /**
   * The emitted instances of a recurring event from the k-th on: walk the series until an
   * instance starts after the range end, keeping the instances that pass the emission test.
   */
  function Series(ev: Event, k: nat, rangeStart: DateTime, rangeEnd: DateTime): seq<Event>
    requires WellFormed(ev) && Valid(rangeStart) && Valid(rangeEnd) && IsRecurring(ev)
    decreases DateKey(rangeEnd) - DateKey(Iter(ev.startTime, Rule(ev), k))
  {
    if IsAfter(Iter(ev.startTime, Rule(ev), k), rangeEnd) then []
    else
      IterSucc(ev.startTime, Rule(ev), k);
      (if Emits(ev, k, rangeStart, rangeEnd) then [Instance(ev, k)] else [])
        + Series(ev, k + 1, rangeStart, rangeEnd)
  }

  /** What one event adds to the calendar view. */
  function Contribution(ev: Event, rangeStart: DateTime, rangeEnd: DateTime): seq<Event>
    requires WellFormed(ev) && Valid(rangeStart) && Valid(rangeEnd)
  {
    if !IsRecurring(ev) then
      if IsBefore(ev.startTime, rangeEnd) && IsAfter(ev.endTime, rangeStart) then [ev] else []
    else
      Series(ev, 0, rangeStart, rangeEnd)
  }

  /** The calendar view: the contributions of the events, in the order the store returned them. */
  function Expansion(events: seq<Event>, rangeStart: DateTime, rangeEnd: DateTime): seq<Event>
    requires AllWellFormed(events) && Valid(rangeStart) && Valid(rangeEnd)
  {
    if events == [] then []
    else
      Expansion(events[..|events| - 1], rangeStart, rangeEnd)
        + Contribution(events[|events| - 1], rangeStart, rangeEnd)
  }

  /** The answer of the calendar endpoint: a refusal, or the expanded events. */
  datatype CalendarResponse = BadRequest | Ok(expandedEvents: seq<Event>)

  /**
   * `getCalendarEvents`: both range parameters are required (a missing or empty one is `None`);
   * with both present, the answer is the expansion of the user's events over the range.
   */
  method GetCalendarEvents(start: Option<DateTime>, end: Option<DateTime>, events: seq<Event>)
    returns (response: CalendarResponse)
    requires AllWellFormed(events)
    requires start.Some? ==> Valid(start.value)
    requires end.Some? ==> Valid(end.value)
    ensures response.BadRequest? <==> start.None? || end.None?
    ensures response.Ok? ==> response.expandedEvents == Expansion(events, start.value, end.value)
  {
    if start.None? || end.None? {
      return BadRequest;
    }
    var rangeStart, rangeEnd := start.value, end.value;
    var expandedEvents := ExpandEvents(events, rangeStart, rangeEnd);
    response := Ok(expandedEvents);
  }

  /** The expansion loop of `getCalendarEvents`: each event's contribution, pushed in fetch order. */
  method ExpandEvents(events: seq<Event>, rangeStart: DateTime, rangeEnd: DateTime)
    returns (expandedEvents: seq<Event>)
    requires AllWellFormed(events) && Valid(rangeStart) && Valid(rangeEnd)
    ensures expandedEvents == Expansion(events, rangeStart, rangeEnd)
  {
    expandedEvents := [];
    for i := 0 to |events|
      invariant expandedEvents == Expansion(events[..i], rangeStart, rangeEnd)
    {
      var event := events[i];
      assert events[..i + 1][..i] == events[..i];
      if event.recurrence.None? || event.recurrence.value == NONE {
        if IsBefore(event.startTime, rangeEnd) && IsAfter(event.endTime, rangeStart) {
          expandedEvents := expandedEvents + [event];
        }
      } else {
        var instances := ExpandRecurring(event, rangeStart, rangeEnd);
        expandedEvents := expandedEvents + instances;
      }
    }
    assert events[..|events|] == events;
  }

  /**
   * The recurring branch of the loop body: fast-forward the (start, end) cursor past the
   * instances that end before the range, then emit the instances that reach into the range.
   */
  method ExpandRecurring(event: Event, rangeStart: DateTime, rangeEnd: DateTime)
    returns (instances: seq<Event>)
    requires WellFormed(event) && Valid(rangeStart) && Valid(rangeEnd) && IsRecurring(event)
    ensures instances == Series(event, 0, rangeStart, rangeEnd)
  {
    var instanceStart, instanceEnd, k := FastForward(event, rangeStart, rangeEnd);
    instances := EmitInstances(event, rangeStart, rangeEnd, instanceStart, instanceEnd, k);
  }

  /**
   * The first loop: step the cursor while the instance ends before the range start, stopping
   * early once it starts after the range end. Every instance it passes ends before the range
   * start, so none of them is emitted, and it stops at an instance that does not end before
   * the range or starts after it.
   */
  method FastForward(event: Event, rangeStart: DateTime, rangeEnd: DateTime)
    returns (instanceStart: DateTime, instanceEnd: DateTime, ghost k: nat)
    requires WellFormed(event) && Valid(rangeStart) && Valid(rangeEnd) && IsRecurring(event)
    ensures instanceStart == Iter(event.startTime, Rule(event), k)
    ensures instanceEnd == Iter(event.endTime, Rule(event), k)
    ensures forall j :: 0 <= j < k ==> IsBefore(Iter(event.endTime, Rule(event), j), rangeStart)
    ensures !IsBefore(instanceEnd, rangeStart) || IsAfter(instanceStart, rangeEnd)
    ensures Series(event, k, rangeStart, rangeEnd) == Series(event, 0, rangeStart, rangeEnd)
  {
    var recurrence := event.recurrence.value;
    instanceStart, instanceEnd := event.startTime, event.endTime;
    k := 0;
    while IsBefore(instanceEnd, rangeStart)
      invariant instanceStart == Iter(event.startTime, recurrence, k)
      invariant instanceEnd == Iter(event.endTime, recurrence, k)
      invariant forall j :: 0 <= j < k ==> IsBefore(Iter(event.endTime, recurrence, j), rangeStart)
      invariant Series(event, k, rangeStart, rangeEnd) == Series(event, 0, rangeStart, rangeEnd)
      decreases DateKey(rangeStart) - DateKey(instanceEnd)
    {
      SkipInstance(event, k, rangeStart, rangeEnd);
      IterSucc(event.startTime, recurrence, k);
      IterSucc(event.endTime, recurrence, k);
      instanceStart := AddRecurrence(instanceStart, recurrence);
      instanceEnd := AddRecurrence(instanceEnd, recurrence);
      k := k + 1;
      if IsAfter(instanceStart, rangeEnd) {
        break;
      }
    }
  }

  /**
   * The second loop: from the k-th instance on, while the cursor starts at or before the range
   * end, push the instance (the event with its two times replaced) if it ends after the range
   * start. It pushes exactly the series of emitted instances from the k-th on.
   */
  method EmitInstances(event: Event, rangeStart: DateTime, rangeEnd: DateTime,
                       start0: DateTime, end0: DateTime, ghost k0: nat)
    returns (instances: seq<Event>)
    requires WellFormed(event) && Valid(rangeStart) && Valid(rangeEnd) && IsRecurring(event)
    requires start0 == Iter(event.startTime, Rule(event), k0)
    requires end0 == Iter(event.endTime, Rule(event), k0)
    ensures instances == Series(event, k0, rangeStart, rangeEnd)
  {
    var recurrence := event.recurrence.value;
    var instanceStart, instanceEnd := start0, end0;
    ghost var k := k0;
    ghost var total := Series(event, k0, rangeStart, rangeEnd);
    instances := [];
    while IsBefore(instanceStart, rangeEnd) || IsSame(instanceStart, rangeEnd)
      invariant instanceStart == Iter(event.startTime, recurrence, k)
      invariant instanceEnd == Iter(event.endTime, recurrence, k)
      invariant instances + Series(event, k, rangeStart, rangeEnd) == total
      decreases DateKey(rangeEnd) - DateKey(instanceStart)
    {
      EmitStep(event, k, rangeStart, rangeEnd, instances, instanceStart, instanceEnd);
      if IsAfter(instanceEnd, rangeStart) {
        instances := instances + [event.(startTime := instanceStart, endTime := instanceEnd)];
      }
      instanceStart := AddRecurrence(instanceStart, recurrence);
      instanceEnd := AddRecurrence(instanceEnd, recurrence);
      k := k + 1;
      if IsAfter(instanceStart, rangeEnd) {
        break;
      }
    }
    assert instances + [] == instances;
  }

  /**
   * One pass of the emission loop keeps its invariant: the cursor at the k-th instance is
   * pushed exactly when that instance is emitted, and stepping it reaches the next instance.
   */
  lemma EmitStep(ev: Event, k: nat, rangeStart: DateTime, rangeEnd: DateTime, instances: seq<Event>,
                 instanceStart: DateTime, instanceEnd: DateTime)
    requires WellFormed(ev) && Valid(rangeStart) && Valid(rangeEnd) && IsRecurring(ev)
    requires instanceStart == Iter(ev.startTime, Rule(ev), k)
    requires instanceEnd == Iter(ev.endTime, Rule(ev), k)
    requires !IsAfter(instanceStart, rangeEnd)
    ensures AddRecurrence(instanceStart, Rule(ev)) == Iter(ev.startTime, Rule(ev), k + 1)
    ensures AddRecurrence(instanceEnd, Rule(ev)) == Iter(ev.endTime, Rule(ev), k + 1)
    ensures DateKey(instanceStart) <= DateKey(rangeEnd)
    ensures DateKey(instanceStart) < DateKey(AddRecurrence(instanceStart, Rule(ev)))
    ensures instances + Series(ev, k, rangeStart, rangeEnd)
         == (if IsAfter(instanceEnd, rangeStart)
             then instances + [ev.(startTime := instanceStart, endTime := instanceEnd)]
             else instances)
            + Series(ev, k + 1, rangeStart, rangeEnd)
  {
    IterSucc(ev.startTime, Rule(ev), k);
    IterSucc(ev.endTime, Rule(ev), k);
    DateKeyOrder(instanceStart, rangeEnd);
    DateKeyOrder(instanceStart, AddRecurrence(instanceStart, Rule(ev)));
    SeriesStep(ev, k, rangeStart, rangeEnd);
    if Emits(ev, k, rangeStart, rangeEnd) {
      assert instances + ([Instance(ev, k)] + Series(ev, k + 1, rangeStart, rangeEnd))
          == (instances + [Instance(ev, k)]) + Series(ev, k + 1, rangeStart, rangeEnd);
    }
  }

  /** One step of the walk: an instance starting by the range end is kept iff it passes the emission test. */
  lemma SeriesStep(ev: Event, k: nat, rangeStart: DateTime, rangeEnd: DateTime)
    requires WellFormed(ev) && Valid(rangeStart) && Valid(rangeEnd) && IsRecurring(ev)
    requires !IsAfter(Iter(ev.startTime, Rule(ev), k), rangeEnd)
    ensures Series(ev, k, rangeStart, rangeEnd)
         == (if Emits(ev, k, rangeStart, rangeEnd) then [Instance(ev, k)] else []) + Series(ev, k + 1, rangeStart, rangeEnd)
  {
  }

  /** An instance that ends before the range start is never emitted, so skipping it changes nothing. */
  lemma SkipInstance(ev: Event, k: nat, rangeStart: DateTime, rangeEnd: DateTime)
    requires WellFormed(ev) && Valid(rangeStart) && Valid(rangeEnd) && IsRecurring(ev)
    requires IsBefore(Iter(ev.endTime, Rule(ev), k), rangeStart)
    ensures !Emits(ev, k, rangeStart, rangeEnd)
    ensures Series(ev, k, rangeStart, rangeEnd) == Series(ev, k + 1, rangeStart, rangeEnd)
  {
    IterSucc(ev.startTime, Rule(ev), k);
  }

  /**
   * Fast-forwarding past instances that all end before the range loses nothing; if the
   * cursor has already jumped past the range end, the event contributes nothing at all.
   */
  lemma {:induction false} FastForwardSound(ev: Event, k: nat, rangeStart: DateTime, rangeEnd: DateTime)
    requires WellFormed(ev) && Valid(rangeStart) && Valid(rangeEnd) && IsRecurring(ev)
    requires forall j :: 0 <= j < k ==> IsBefore(Iter(ev.endTime, Rule(ev), j), rangeStart)
    ensures Contribution(ev, rangeStart, rangeEnd) == Series(ev, k, rangeStart, rangeEnd)
    ensures IsAfter(Iter(ev.startTime, Rule(ev), k), rangeEnd) ==> Contribution(ev, rangeStart, rangeEnd) == []
  {
    if k > 0 {
      assert IsBefore(Iter(ev.endTime, Rule(ev), k - 1), rangeStart);
      FastForwardSound(ev, k - 1, rangeStart, rangeEnd);
      SkipInstance(ev, k - 1, rangeStart, rangeEnd);
    }
  }

  /** Every emitted item is an instance of the event that passes the emission test. */
  lemma {:induction false} SeriesSound(ev: Event, k: nat, rangeStart: DateTime, rangeEnd: DateTime)
    requires WellFormed(ev) && Valid(rangeStart) && Valid(rangeEnd) && IsRecurring(ev)
    ensures forall o :: o in Series(ev, k, rangeStart, rangeEnd) ==>
      exists j :: k <= j && o == Instance(ev, j) && Emits(ev, j, rangeStart, rangeEnd)
    decreases DateKey(rangeEnd) - DateKey(Iter(ev.startTime, Rule(ev), k))
  {
    if !IsAfter(Iter(ev.startTime, Rule(ev), k), rangeEnd) {
      IterSucc(ev.startTime, Rule(ev), k);
      SeriesSound(ev, k + 1, rangeStart, rangeEnd);
    }
  }

  /** Every instance from the k-th on that passes the emission test is emitted. */
  lemma {:induction false} SeriesComplete(ev: Event, k: nat, j: nat, rangeStart: DateTime, rangeEnd: DateTime)
    requires WellFormed(ev) && Valid(rangeStart) && Valid(rangeEnd) && IsRecurring(ev)
    requires k <= j && Emits(ev, j, rangeStart, rangeEnd)
    ensures Instance(ev, j) in Series(ev, k, rangeStart, rangeEnd)
    decreases j - k
  {
    if k < j {
      IterIncreasing(ev.startTime, Rule(ev), k, j);
      SeriesComplete(ev, k + 1, j, rangeStart, rangeEnd);
    }
  }

  /** Every emitted item starts no earlier than the k-th instance. */
  lemma {:induction false} SeriesStartsFrom(ev: Event, k: nat, rangeStart: DateTime, rangeEnd: DateTime)
    requires WellFormed(ev) && Valid(rangeStart) && Valid(rangeEnd) && IsRecurring(ev)
    ensures var s := Series(ev, k, rangeStart, rangeEnd);
      forall i :: 0 <= i < |s| ==> !IsBefore(s[i].startTime, Iter(ev.startTime, Rule(ev), k))
    decreases DateKey(rangeEnd) - DateKey(Iter(ev.startTime, Rule(ev), k))
  {
    if !IsAfter(Iter(ev.startTime, Rule(ev), k), rangeEnd) {
      IterSucc(ev.startTime, Rule(ev), k);
      SeriesStartsFrom(ev, k + 1, rangeStart, rangeEnd);
      SeriesStep(ev, k, rangeStart, rangeEnd);
    }
  }

  /** Emitted items are in strictly increasing order of start, so no instance is emitted twice. */
  lemma {:induction false} SeriesIncreasing(ev: Event, k: nat, rangeStart: DateTime, rangeEnd: DateTime)
    requires WellFormed(ev) && Valid(rangeStart) && Valid(rangeEnd) && IsRecurring(ev)
    ensures var s := Series(ev, k, rangeStart, rangeEnd);
      forall i, i' :: 0 <= i < i' < |s| ==> IsBefore(s[i].startTime, s[i'].startTime)
    decreases DateKey(rangeEnd) - DateKey(Iter(ev.startTime, Rule(ev), k))
  {
    var start := Iter(ev.startTime, Rule(ev), k);
    if !IsAfter(start, rangeEnd) {
      IterSucc(ev.startTime, Rule(ev), k);
      SeriesIncreasing(ev, k + 1, rangeStart, rangeEnd);
      SeriesStartsFrom(ev, k + 1, rangeStart, rangeEnd);
      SeriesStep(ev, k, rangeStart, rangeEnd);
      var rest := Series(ev, k + 1, rangeStart, rangeEnd);
      assert forall i :: 0 <= i < |rest| ==> IsBefore(start, rest[i].startTime);
    }
  }

  /**
   * At most one item per calendar day: a series emits no more items than there are days from
   * its first item's start to the range end (and that first item ends after the range start).
   */
  lemma {:induction false} SeriesLengthBound(ev: Event, k: nat, rangeStart: DateTime, rangeEnd: DateTime)
    requires WellFormed(ev) && Valid(rangeStart) && Valid(rangeEnd) && IsRecurring(ev)
    ensures var s := Series(ev, k, rangeStart, rangeEnd);
      |s| > 0 ==>
        && WellFormed(s[0]) && IsAfter(s[0].endTime, rangeStart)
        && |s| <= DayNumber(rangeEnd) - DayNumber(s[0].startTime) + 1
    decreases DateKey(rangeEnd) - DateKey(Iter(ev.startTime, Rule(ev), k))
  {
    var start := Iter(ev.startTime, Rule(ev), k);
    if !IsAfter(start, rangeEnd) {
      IterSucc(ev.startTime, Rule(ev), k);
      SeriesLengthBound(ev, k + 1, rangeStart, rangeEnd);
      SeriesStep(ev, k, rangeStart, rangeEnd);
      var rest := Series(ev, k + 1, rangeStart, rangeEnd);
      if Emits(ev, k, rangeStart, rangeEnd) {
        DayNumberNotBefore(rangeEnd, start);
        if |rest| > 0 {
          SeriesStartsFrom(ev, k + 1, rangeStart, rangeEnd);
          var next := Iter(ev.startTime, Rule(ev), k + 1);
          StepAdvances(start, Rule(ev));
          DayNumberNotBefore(rest[0].startTime, next);
        }
      }
    }
  }

  /**
   * A recurring event contributes exactly the instances step^k(start), step^k(end), k >= 0,
   * that pass the emission test, in strictly increasing order of start (so each one once).
   */
  lemma RecurringContribution(ev: Event, rangeStart: DateTime, rangeEnd: DateTime)
    requires WellFormed(ev) && Valid(rangeStart) && Valid(rangeEnd) && IsRecurring(ev)
    ensures var c := Contribution(ev, rangeStart, rangeEnd);
      && (forall o :: o in c ==> exists k :: o == Instance(ev, k) && Emits(ev, k, rangeStart, rangeEnd))
      && (forall k: nat :: Emits(ev, k, rangeStart, rangeEnd) ==> Instance(ev, k) in c)
      && (forall i :: 0 <= i < |c| ==> WellFormed(c[i]))
      && (forall i, i' :: 0 <= i < i' < |c| ==> IsBefore(c[i].startTime, c[i'].startTime))
  {
    var c := Contribution(ev, rangeStart, rangeEnd);
    assert c == Series(ev, 0, rangeStart, rangeEnd);
    SeriesSound(ev, 0, rangeStart, rangeEnd);
    SeriesIncreasing(ev, 0, rangeStart, rangeEnd);
    forall i | 0 <= i < |c|
      ensures WellFormed(c[i])
    {
      assert c[i] in c;
    }
    forall k: nat | Emits(ev, k, rangeStart, rangeEnd)
      ensures Instance(ev, k) in Contribution(ev, rangeStart, rangeEnd)
    {
      SeriesComplete(ev, 0, k, rangeStart, rangeEnd);
    }
  }

  /** A non-recurring event contributes itself, unchanged, exactly when it strictly overlaps the range. */
  lemma NonRecurringContribution(ev: Event, rangeStart: DateTime, rangeEnd: DateTime)
    requires WellFormed(ev) && Valid(rangeStart) && Valid(rangeEnd) && !IsRecurring(ev)
    ensures var c := Contribution(ev, rangeStart, rangeEnd);
      && (c == [] || c == [ev])
      && (c == [ev] <==> IsBefore(ev.startTime, rangeEnd) && IsAfter(ev.endTime, rangeStart))
  {
  }

  /** Touching the range at either edge is not an overlap for a non-recurring event. */
  lemma NonRecurringTouchingExcluded(ev: Event, rangeStart: DateTime, rangeEnd: DateTime)
    requires WellFormed(ev) && Valid(rangeStart) && Valid(rangeEnd) && !IsRecurring(ev)
    requires IsSame(ev.startTime, rangeEnd) || IsSame(ev.endTime, rangeStart)
    ensures Contribution(ev, rangeStart, rangeEnd) == []
  {
  }

  /** The recurring test is inclusive at the range end: an instance starting exactly there is emitted. */
  lemma RecurringStartAtRangeEndIncluded(ev: Event, rangeStart: DateTime, rangeEnd: DateTime)
    requires WellFormed(ev) && Valid(rangeStart) && Valid(rangeEnd) && IsRecurring(ev)
    requires IsSame(ev.startTime, rangeEnd) && IsAfter(ev.endTime, rangeStart)
    ensures var c := Contribution(ev, rangeStart, rangeEnd);
      |c| > 0 && c[0] == ev
  {
    assert Instance(ev, 0) == ev;
  }

  /** Every item of one event's contribution is that event with only its times replaced. */
  lemma ContributionKeepsFields(ev: Event, rangeStart: DateTime, rangeEnd: DateTime)
    requires WellFormed(ev) && Valid(rangeStart) && Valid(rangeEnd)
    ensures forall o :: o in Contribution(ev, rangeStart, rangeEnd) ==>
      o == ev.(startTime := o.startTime, endTime := o.endTime)
  {
    if IsRecurring(ev) {
      SeriesSound(ev, 0, rangeStart, rangeEnd);
    }
  }

  /** The view of a concatenation of event lists is the concatenation of their views. */
  lemma {:induction false} ExpansionAppend(a: seq<Event>, b: seq<Event>, rangeStart: DateTime, rangeEnd: DateTime)
    requires AllWellFormed(a) && AllWellFormed(b) && Valid(rangeStart) && Valid(rangeEnd)
    ensures AllWellFormed(a + b)
    ensures Expansion(a + b, rangeStart, rangeEnd) == Expansion(a, rangeStart, rangeEnd) + Expansion(b, rangeStart, rangeEnd)
    decreases |b|
  {
    assert AllWellFormed(a + b) by {
      forall i | 0 <= i < |a + b| ensures WellFormed((a + b)[i]) {
        if i >= |a| { assert (a + b)[i] == b[i - |a|]; }
      }
    }
    if b != [] {
      var b' := b[..|b| - 1];
      assert (a + b)[..|a + b| - 1] == a + b';
      ExpansionAppend(a, b', rangeStart, rangeEnd);
    } else {
      assert a + b == a;
    }
  }

  /** Every item of the view comes from one of the events, with only its times replaced. */
  lemma {:induction false} ExpansionKeepsFields(events: seq<Event>, rangeStart: DateTime, rangeEnd: DateTime)
    requires AllWellFormed(events) && Valid(rangeStart) && Valid(rangeEnd)
    ensures forall o :: o in Expansion(events, rangeStart, rangeEnd) ==>
      exists i :: 0 <= i < |events| && o == events[i].(startTime := o.startTime, endTime := o.endTime)
  {
    if events != [] {
      var n := |events| - 1;
      ExpansionKeepsFields(events[..n], rangeStart, rangeEnd);
      ContributionKeepsFields(events[n], rangeStart, rangeEnd);
      forall o | o in Expansion(events, rangeStart, rangeEnd)
        ensures exists i :: 0 <= i < |events| && o == events[i].(startTime := o.startTime, endTime := o.endTime)
      {
        if o in Expansion(events[..n], rangeStart, rangeEnd) {
          var i :| 0 <= i < n && o == events[..n][i].(startTime := o.startTime, endTime := o.endTime);
          assert events[..n][i] == events[i];
        } else {
          assert o == events[n].(startTime := o.startTime, endTime := o.endTime);
        }
      }
    }
  }

  /**
   * The monthly clamp can turn an instance inside out: a two-hour event from January 30th
   * 23:00 to January 31st 01:00 has its February instance from the 28th at 23:00 to the 28th
   * at 01:00, and that instance is emitted for a February range.
   */
  lemma ClampedInstanceEmittedInverted()
    ensures var ev := Event(1, 1, "t", None,
                            DateTime(2023, 1, 30, 23 * 60 * MsPerMinute), DateTime(2023, 1, 31, 60 * MsPerMinute),
                            None, None, None, Some(MONTHLY));
            var rangeStart, rangeEnd := DateTime(2023, 2, 1, 0), DateTime(2023, 3, 1, 0);
      && WellFormed(ev) && Valid(rangeStart) && Valid(rangeEnd)
      && Instant(ev.startTime) < Instant(ev.endTime)
      && Instance(ev, 1) in Contribution(ev, rangeStart, rangeEnd)
      && Instant(Instance(ev, 1).startTime) > Instant(Instance(ev, 1).endTime)
  {
    var ev := Event(1, 1, "t", None,
                    DateTime(2023, 1, 30, 23 * 60 * MsPerMinute), DateTime(2023, 1, 31, 60 * MsPerMinute),
                    None, None, None, Some(MONTHLY));
    var rangeStart, rangeEnd := DateTime(2023, 2, 1, 0), DateTime(2023, 3, 1, 0);
    var o := Instance(ev, 1);
    assert Rule(ev) == MONTHLY;
    assert Iter(ev.startTime, MONTHLY, 1) == AddRecurrence(ev.startTime, MONTHLY);
    assert Iter(ev.endTime, MONTHLY, 1) == AddRecurrence(ev.endTime, MONTHLY);
    assert o.startTime == DateTime(2023, 2, 28, 23 * 60 * MsPerMinute);
    assert o.endTime == DateTime(2023, 2, 28, 60 * MsPerMinute);
    OrderIsEpochOrder(ev.startTime, ev.endTime);
    OrderIsEpochOrder(o.endTime, o.startTime);
    SeriesComplete(ev, 0, 1, rangeStart, rangeEnd);
  }
}
