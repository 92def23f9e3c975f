# Agenda: recurring-event expansion and the reminder sweep

This project models two parts of an agenda back end in Dafny.

- **Calendar view.** `getCalendarEvents` answers a query range `[start, end]` with every
  event of the user, expanded into the occurrences that fall in the range.
  - A non-recurring event (recurrence missing or `NONE`) is kept unchanged when it strictly
    overlaps the range.
  - A recurring event (`DAILY`, `WEEKLY`, `MONTHLY` or `YEARLY`) is expanded with a
    `(instanceStart, instanceEnd)` cursor that `addRecurrence` steps one period at a time.
    The cursor first skips the instances that end before the range. It then emits every
    instance that starts at or before the range end and ends after the range start.
  - The result is each event's contribution, in the order the store returned the events.
- **Reminder sweep.** A job runs once a minute. It fetches the events that have a reminder
  offset and start within the next fifteen minutes. For each one, it mails the owner when
  `start - offset` minutes has passed and the owner has an e-mail address.

Times are civil date-times (year, month, day, millisecond of the day) in one fixed offset.
`Civil.Instant` gives the epoch milliseconds that dayjs compares, and
`Civil.OrderIsEpochOrder` proves that the field-wise `IsBefore`/`IsSame` agree with that
comparison. `add(1, 'day')` and `add(1, 'week')` keep the wall-clock time, exactly 24 or
7 * 24 hours later. `add(1, 'month')` and `add(1, 'year')` clamp the day to the target
month's length.

Facts about the code that the model keeps:

- Clamping carries forward. Each step is applied to the previous instance, so a monthly
  series from January 31st, 2024 goes to February 29th and then to March 29th
  (`RecurrenceRule.MonthlyClampCarriesForward`).
- The monthly and yearly steps are not monotone on instants.
  - Two readings on consecutive days can clamp onto the same day and swap order
    (`RecurrenceRule.ClampReordersInstants`).
  - So an emitted instance can end before it starts (`Agenda.ClampedInstanceEmittedInverted`).
  - What the steps do keep is the order of calendar days (`RecurrenceRule.StepDayMonotone`,
    `RecurrenceRule.IterDayOrder`).
  - The daily and weekly steps keep the order of instants and the exact duration
    (`RecurrenceRule.StepMonotoneFixedPeriod`, `RecurrenceRule.IterKeepsDuration`).
- The two range tests differ. The non-recurring test is strict at the range end; the
  recurring test admits an instance that starts exactly at the range end.
- The view is not sorted across events, and nothing caps the number of iterations.
- The reminder sweep reads only the stored `startTime`, never the expanded occurrences. It
  records nothing, so a reminder is mailed again on every run while the event stays in the
  window and is due.

Modules: `Wrappers` (`Option`), `Civil` (calendar arithmetic and order), `RecurrenceRule`
(`addRecurrence` and its iteration), `Agenda` (the calendar view) and `Reminders` (the sweep).

The two loops of the source are methods.
- `Agenda.ExpandEvents`, `Agenda.FastForward` and `Agenda.EmitInstances` are proved equal to
  the specification functions `Agenda.Expansion` and `Agenda.Series`.
- `Reminders.RemindersTick` is proved equal to `Reminders.DueEmails` of
  `Reminders.Candidates`.

The properties are proved about those functions.

Where the tests of the source live in the model:
- The dayjs comparisons `isBefore`, `isAfter` and `isSame` (src/controllers/agenda.controller.ts:91,
  99, 102, 105, 106, 115) are `Civil.IsBefore`, `Civil.IsAfter` and `Civil.IsSame`.
- The choice between the two paths (line 90, a missing recurrence or `NONE` is not recurring) is
  `Agenda.IsRecurring`. The emission test of the recurring path (lines 105-106) is `Agenda.Emits`.
- The walk of one recurring series (lines 96-116) is `Agenda.Series`. One event's share of the
  view (lines 88-117) is `Agenda.Contribution`, and the whole view (lines 85-119) is `Agenda.Expansion`.
- The store query of the reminder job (src/jobs/reminders.job.ts:11-16) is `Reminders.IsCandidate`,
  applied row by row by `Reminders.Candidates`.
- The due rule (lines 22-24) is `Reminders.ReminderTime` with `Reminders.IsDue`. With the address
  test (line 25) it becomes `Reminders.SendsReminder`.
- The mails of the send loop (lines 21-33) are `Reminders.DueEmails`.

## Model

| member | source | states |
|---|---|---|
| Civil.DaysInMonth | src/controllers/agenda.controller.ts:16-18 | A month has 28 to 31 days, and 29 exactly for February of a leap year: the lengths that `add(1, 'month')`/`add(1, 'year')` clamp to |
| Civil.OrderIsEpochOrder | src/controllers/agenda.controller.ts:91 | The field-wise `IsBefore` and `IsSame` hold exactly when the epoch-millisecond instants are smaller or equal, as dayjs compares them |
| Civil.DayNumberStrict | src/controllers/agenda.controller.ts:91 | A later calendar date has a strictly larger day count since 1970-01-01 |
| Civil.NextDay | src/controllers/agenda.controller.ts:12 | The next calendar day is a valid date, strictly later, at the same time of day |
| Civil.NextDayNumber | src/controllers/agenda.controller.ts:12 | The next calendar day is exactly one day number later, across month and year ends |
| Civil.AddDays | src/controllers/agenda.controller.ts:12-14 | Adding n days gives a valid date at the same time of day, later when n > 0 |
| Civil.AddDaysExact | src/controllers/agenda.controller.ts:12-14 | Adding n days moves the day number by n and the instant by exactly n * 24 hours |
| Civil.AddOneMonth | src/controllers/agenda.controller.ts:16 | Adding a month always gives a valid date; the clamp of the day is stated by `RecurrenceRule.AddRecurrenceEffect` |
| Civil.AddOneYear | src/controllers/agenda.controller.ts:18 | Adding a year always gives a valid date; the February 29th clamp is stated by `RecurrenceRule.AddRecurrenceEffect` |
| RecurrenceRule.AddRecurrence | src/controllers/agenda.controller.ts:9-22 | The step keeps the time of day; NONE returns the date unchanged; every other rule lands on a strictly later calendar date |
| RecurrenceRule.AddRecurrenceEffect | src/controllers/agenda.controller.ts:9-22 | DAILY adds exactly 24 h and WEEKLY 7 * 24 h; MONTHLY goes to the next month, keeping the day if that month has it, else its last day; YEARLY goes to the same month next year, keeping the day unless it is February 29th of a non-leap target, then the 28th |
| RecurrenceRule.Iter | src/controllers/agenda.controller.ts:113-114 | The k-th instance of a series is a valid date at the base's time of day |
| RecurrenceRule.IterSucc | src/controllers/agenda.controller.ts:113-114 | The (k+1)-th instance is the step applied to the k-th, not to the base |
| RecurrenceRule.IterIncreasing | src/controllers/agenda.controller.ts:105-116 | Under a real rule, later instances fall on strictly later calendar dates |
| RecurrenceRule.StepAdvances | src/controllers/agenda.controller.ts:11-18 | Every real rule moves a date forward by at least one day number and 24 hours, which makes both loops terminate |
| RecurrenceRule.IterAdvances | src/controllers/agenda.controller.ts:105-116 | The k-th instance is at least k - j days after the j-th |
| RecurrenceRule.StepDayMonotone | src/controllers/agenda.controller.ts:113-114 | If one date is not earlier than another, one step of any rule keeps it so |
| RecurrenceRule.StepMonotoneFixedPeriod | src/controllers/agenda.controller.ts:11-14 | NONE, DAILY and WEEKLY preserve the order of instants |
| RecurrenceRule.ClampReordersInstants | src/controllers/agenda.controller.ts:15-18 | MONTHLY and YEARLY do not preserve the order of instants: concrete pairs whose order is reversed by one step |
| RecurrenceRule.IterDayOrder | src/controllers/agenda.controller.ts:113-114 | An instance whose end is not on an earlier day than its start keeps that after any number of steps |
| RecurrenceRule.IterKeepsDuration | src/controllers/agenda.controller.ts:113-114 | Daily and weekly instances all last exactly as long as the base event |
| RecurrenceRule.IterKeepsDays | src/controllers/agenda.controller.ts:113-114 | Daily and weekly stepping keeps the day-number distance between start and end |
| RecurrenceRule.FixedStepDays | src/controllers/agenda.controller.ts:11-14 | A daily or weekly step moves the day number by exactly 1 or 7 |
| RecurrenceRule.MonthlyClampCarriesForward | src/controllers/agenda.controller.ts:113-114 | Monthly from 2024-01-31 gives 2024-02-29 and then 2024-03-29 |
| RecurrenceRule.YearlyLeapDayClamp | src/controllers/agenda.controller.ts:18 | Yearly from 2024-02-29 gives 2025-02-28 and still 2028-02-28 four years on |
| Agenda.StoredReminderOffset | src/controllers/agenda.controller.ts:47 | The stored offset is null when the requested one is missing or zero, otherwise the requested one; it is never zero |
| Agenda.Instance | src/controllers/agenda.controller.ts:107-111 | An instance of a well-formed event has valid start and end |
| Agenda.GetCalendarEvents | src/controllers/agenda.controller.ts:68-121 | A missing start or end gives a bad request, and only then; otherwise the answer is the expansion of the events over the range |
| Agenda.ExpandEvents | src/controllers/agenda.controller.ts:85-119 | The loop over the events produces exactly the concatenation of their contributions in fetch order |
| Agenda.ExpandRecurring | src/controllers/agenda.controller.ts:95-116 | The two loops together push exactly the event's series of emitted instances |
| Agenda.FastForward | src/controllers/agenda.controller.ts:99-103 | Every instance the first loop skips ends before the range start; it stops at an instance that does not end before the range or starts after it, and skips nothing that would be emitted |
| Agenda.EmitInstances | src/controllers/agenda.controller.ts:105-116 | The second loop pushes exactly the emitted instances from the cursor's instance on |
| Agenda.EmitStep | src/controllers/agenda.controller.ts:105-116 | One pass pushes the current instance exactly when it is emitted, moves the cursor to the next instance, and moves the calendar date forward |
| Agenda.SkipInstance | src/controllers/agenda.controller.ts:99-103 | An instance ending before the range start is never emitted, so skipping it loses nothing |
| Agenda.FastForwardSound | src/controllers/agenda.controller.ts:99-103 | Skipping instances that all end before the range keeps the contribution; a cursor already past the range end means no output |
| Agenda.SeriesSound | src/controllers/agenda.controller.ts:105-116 | Every emitted item is some instance of the event that passes the emission test |
| Agenda.SeriesComplete | src/controllers/agenda.controller.ts:105-116 | Every instance that passes the emission test is emitted |
| Agenda.SeriesStartsFrom | src/controllers/agenda.controller.ts:105-116 | No emitted item starts before the instance where the walk begins |
| Agenda.SeriesIncreasing | src/controllers/agenda.controller.ts:105-116 | Emitted items have strictly increasing starts, so none is emitted twice |
| Agenda.SeriesLengthBound | src/controllers/agenda.controller.ts:105-116 | A series emits at most one item per calendar day from its first item's start to the range end, and that first item ends after the range start |
| Agenda.RecurringContribution | src/controllers/agenda.controller.ts:94-116 | A recurring event contributes exactly the instances step^k(start), step^k(end) that pass `Emits` (start at or before the range end, end after its start), each valid, in strictly increasing order of start |
| Agenda.NonRecurringContribution | src/controllers/agenda.controller.ts:90-93 | A non-recurring event contributes itself unchanged iff it starts before the range end and ends after the range start, else nothing |
| Agenda.NonRecurringTouchingExcluded | src/controllers/agenda.controller.ts:91 | A non-recurring event that only touches the range at either edge contributes nothing |
| Agenda.RecurringStartAtRangeEndIncluded | src/controllers/agenda.controller.ts:105-106 | A recurring event starting exactly at the range end, ending after its start, contributes itself first |
| Agenda.ContributionKeepsFields | src/controllers/agenda.controller.ts:107-111 | Every item of a contribution is the event with only its start and end replaced |
| Agenda.ExpansionAppend | src/controllers/agenda.controller.ts:87-118 | The view of two lists of events is the concatenation of their views: no sorting and no deduplication across events |
| Agenda.ExpansionKeepsFields | src/controllers/agenda.controller.ts:87-118 | Every item of the view is one of the fetched events with only its start and end replaced |
| Agenda.ClampedInstanceEmittedInverted | src/controllers/agenda.controller.ts:105-116 | A monthly event from Jan 30 23:00 to Jan 31 01:00 has an emitted February instance that ends before it starts |
| Reminders.Candidates | src/jobs/reminders.job.ts:10-19 | The fetched rows are exactly the stored rows with an offset and a start in [now, now + 15 min], no more rows than stored |
| Reminders.CandidatesKeepMultiplicity | src/jobs/reminders.job.ts:10-19 | Each stored candidate row occurs in the fetched rows exactly as often as among the stored rows, and no other row occurs: the query fetches each row once |
| Reminders.Subject | src/jobs/reminders.job.ts:26 | The subject is the title between "Recordatorio: " and " está por iniciar" |
| Reminders.Greeting | src/jobs/reminders.job.ts:27 | The greeting uses the user's name when it is non-empty, else "Usuario" |
| Reminders.FormatHourMinute | src/jobs/reminders.job.ts:28 | The start time is written as five characters: two decimal digits, ':' and two decimal digits |
| Reminders.FormatHourMinuteRoundTrip | src/jobs/reminders.job.ts:28 | The "HH:mm" text reads back as the hour (0-23) and minute (0-59) of the start |
| Reminders.ReminderEmail | src/jobs/reminders.job.ts:25-29 | The mail goes to the owner's address with the subject and the greeting, and its time is the "HH:mm" text of the start, which reads back as the start's hour and minute |
| Reminders.RemindersTick | src/jobs/reminders.job.ts:8-33 | One run sends exactly the due mails of the fetched rows, in fetch order |
| Reminders.DueEmailsSound | src/jobs/reminders.job.ts:21-33 | Every mail belongs to a fetched row that is due and whose owner has an address |
| Reminders.DueEmailsComplete | src/jobs/reminders.job.ts:21-33 | Every fetched row that is due and whose owner has an address is mailed |
| Reminders.DueEmailsOnePerDueRow | src/jobs/reminders.job.ts:21-33 | A run sends exactly as many mails as there are fetched rows that are due and whose owner has an address (`DueRows`), at most one per fetched row |
| Reminders.MailedRows | src/jobs/reminders.job.ts:21-31 | The positions of the mailed rows are strictly increasing and are exactly the positions of the rows that are due and have an address |
| Reminders.DueEmailsInRowOrder | src/jobs/reminders.job.ts:21-31 | The j-th mail of a run is the mail of the j-th such row in fetch order: each qualifying row exactly once, in candidate order |
| Reminders.TickMailsExactly | src/jobs/reminders.job.ts:10-33 | A run mails exactly the stored rows that are candidates, are due and have an owner with an address |
| Reminders.ReminderWindow | src/jobs/reminders.job.ts:12-24 | A row is fetched (`IsCandidate`) and due (`IsDue`) iff it has an offset o and 0 <= start - now < o minutes and start - now <= 15 minutes |
| Reminders.ZeroOffsetNeverDue | src/jobs/reminders.job.ts:15-24 | A fetched row with offset zero is never due |
| Reminders.LargeOffsetDueOnFetch | src/jobs/reminders.job.ts:14-24 | With an offset above 15 minutes, every fetched row is due at once |
| Reminders.MailedAgainNextMinute | src/jobs/reminders.job.ts:6-33 | A row mailed at one run is mailed again at the run a minute later if it has not started by then |

## Left out

- Prisma queries, Express request and response objects and status codes. The user's events
  (owned or shared) arrive as an input sequence in the order the store returns them. The store
  promises no particular order for the candidate query. The model picks one: the candidates in
  the order of the stored rows, and "fetch order" means that order. `Reminders.Candidates`
  states which rows are fetched, not the order it picks.
- Parsing of the `start` and `end` query strings. A missing or empty parameter is `None`; a
  present parameter is taken to be a valid date-time. A string that dayjs cannot parse (an
  invalid date) is not modelled.
- Time zones and daylight saving time. All times are in one fixed offset, so a day is always
  24 hours. The hour that `format('HH:mm')` prints is read in that same offset.
- Recurring items are returned with `toISOString()` strings for their times. The model keeps
  them as `DateTime` values.
- The HTML body of the reminder mail beyond its greeting and start time, the console logs,
  the `node-cron` schedule (the clock reading is the `now` parameter) and the asynchronous
  `sendEmail` transport. A run returns its mails instead of sending them, and a failed send
  is not modelled.
- The `createEvent` validation (`startTime < endTime`, the DTO checks). The expansion does not
  depend on it. Of `createEvent`, only its rule for the stored reminder offset is modelled.
- Recurrence values outside the five enum values cannot occur in the model. The `default`
  branch of `addRecurrence` is therefore reached only by `NONE`.
- RecurrenceRule.StepDayMonotone: proves monotonicity of calendar days only, because
  monotonicity of instants is false for MONTHLY and YEARLY (`RecurrenceRule.ClampReordersInstants`).
- The sweep's mail call. src/jobs/reminders.job.ts:4 imports a three-argument `sendEmail`
  (address, subject, HTML) from src/utils/email.ts, but that file exports only a one-argument
  `sendReminderEmail` with a fixed recipient. The model assumes a working `sendEmail` that
  mails the given address, so `Reminders.RemindersTick` describes the job as its code intends
  it, not what a build with that email module would do (fail to compile, or throw at the
  first due row).
