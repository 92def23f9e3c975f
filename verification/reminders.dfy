/**
 * The reminder sweep, run once a minute: fetch the events that have a reminder offset and
 * start within the next fifteen minutes (with their owner), then send one e-mail for each
 * event whose reminder time `start - offset minutes` has passed and whose owner has an
 * e-mail address. The clock reading `now` is a parameter, in epoch milliseconds; the e-mail
 * is returned as a value instead of being sent.
 */
module Reminders {
  import opened Wrappers
  import opened Civil
  import opened Agenda

  /** How far ahead the sweep looks, in minutes. */
  const LookAheadMinutes: int := 15

  /** The owner of an event as the store includes it. */
  datatype User = User(email: string, name: Option<string>)

  /** An event row together with its (possibly missing) owner. */
  datatype EventWithUser = EventWithUser(event: Event, user: Option<User>)

  /** The parts of the reminder e-mail that depend on the event. */
  datatype Email = Email(to: string, subject: string, greeting: string, startsAt: string)

  predicate AllStartsValid(records: seq<EventWithUser>) {
    forall i :: 0 <= i < |records| ==> Valid(records[i].event.startTime)
  }

  /** The store query: a reminder offset is set and the start lies in [now, now + 15 minutes]. */
  predicate IsCandidate(now: int, r: EventWithUser)
    requires Valid(r.event.startTime)
  {
    && r.event.reminderOffset.Some?
    && now <= Instant(r.event.startTime) <= now + LookAheadMinutes * MsPerMinute
  }

  /** The result of the store query, in the order the rows are visited. */
  function Candidates(now: int, records: seq<EventWithUser>): (events: seq<EventWithUser>)
    requires AllStartsValid(records)
    ensures AllStartsValid(events)
    ensures |events| <= |records|
    ensures forall e :: e in events <==> e in records && IsCandidate(now, e)
  {
    if records == [] then []
    else
      var rest := Candidates(now, records[1..]);
      assert forall e :: e in records[1..] ==> e in records;
      if IsCandidate(now, records[0]) then [records[0]] + rest else rest
  }

  /** The reminder time, `start - offset` minutes, with a null offset counting as zero. */
  function ReminderTime(e: Event): int
    requires Valid(e.startTime)
  {
    Instant(e.startTime) - e.reminderOffset.GetOr(0) * MsPerMinute
  }

  /** The due test: the clock is strictly after the reminder time. */
  predicate IsDue(now: int, e: Event)
    requires Valid(e.startTime)
  {
    now > ReminderTime(e)
  }

  /** A fetched row gets an e-mail when it is due and its owner has a non-empty address. */
  predicate SendsReminder(now: int, r: EventWithUser)
    requires Valid(r.event.startTime)
  {
    IsDue(now, r.event) && r.user.Some? && |r.user.value.email| > 0
  }

  const SubjectPrefix: string := "Recordatorio: "
  const SubjectSuffix: string := " está por iniciar"

  /** The subject line: the event's title between the fixed prefix and suffix. */
  function Subject(title: string): (s: string)
    ensures |s| == |SubjectPrefix| + |title| + |SubjectSuffix|
    ensures s[..|SubjectPrefix|] == SubjectPrefix
    ensures s[|SubjectPrefix|..|SubjectPrefix| + |title|] == title
    ensures s[|SubjectPrefix| + |title|..] == SubjectSuffix
  {
    SubjectPrefix + title + SubjectSuffix
  }

  /** The name the greeting uses: the user's name, or "Usuario" when it is null or empty. */
  function Greeting(u: User): (g: string)
    ensures |g| > 0
    ensures u.name.Some? && |u.name.value| > 0 ==> g == u.name.value
    ensures u.name.None? || |u.name.value| == 0 ==> g == "Usuario"
  {
    match u.name
    case Some(n) => if |n| > 0 then n else "Usuario"
    case None => "Usuario"
  }

  function DigitChar(d: int): (c: char)
    requires 0 <= d < 10
    ensures '0' <= c <= '9'
  {
    (48 + d) as char
  }

  function DigitValue(c: char): int {
    c as int - 48
  }

  /** A number below 100 as two decimal digits, zero-padded. */
  function TwoDigits(n: int): (s: string)
    requires 0 <= n < 100
    ensures |s| == 2 && '0' <= s[0] <= '9' && '0' <= s[1] <= '9'
  {
    [DigitChar(n / 10), DigitChar(n % 10)]
  }

  /** `format('HH:mm')` of a time of day given in milliseconds. */
  function FormatHourMinute(ms: int): (s: string)
    requires 0 <= ms < MsPerDay
    ensures |s| == 5 && s[2] == ':'
    ensures '0' <= s[0] <= '9' && '0' <= s[1] <= '9' && '0' <= s[3] <= '9' && '0' <= s[4] <= '9'
  {
    TwoDigits(ms / (60 * MsPerMinute)) + ":" + TwoDigits(ms / MsPerMinute % 60)
  }

  /** Reads back the hour and minute of an "HH:mm" text. */
  function ParseHourMinute(s: string): (int, int)
    requires |s| == 5
  {
    (DigitValue(s[0]) * 10 + DigitValue(s[1]), DigitValue(s[3]) * 10 + DigitValue(s[4]))
  }

  /** Two digits read back as the number they were written from. */
  lemma TwoDigitsRoundTrip(n: int)
    requires 0 <= n < 100
    ensures DigitValue(TwoDigits(n)[0]) * 10 + DigitValue(TwoDigits(n)[1]) == n
  {
  }

  /** The hour and the minute of a time of day are below 24 and 60. */
  lemma HourMinuteBounds(ms: int)
    requires 0 <= ms < MsPerDay
    ensures 0 <= ms / (60 * MsPerMinute) < 24 && 0 <= ms / MsPerMinute % 60 < 60
  {
  }

  /** The formatted time reads back as the hour and the minute of the start, so nothing is lost. */
  lemma FormatHourMinuteRoundTrip(ms: int)
    requires 0 <= ms < MsPerDay
    ensures ParseHourMinute(FormatHourMinute(ms)) == (ms / (60 * MsPerMinute), ms / MsPerMinute % 60)
    ensures 0 <= ms / (60 * MsPerMinute) < 24 && 0 <= ms / MsPerMinute % 60 < 60
  {
    var h, m := ms / (60 * MsPerMinute), ms / MsPerMinute % 60;
    HourMinuteBounds(ms);
    TwoDigitsRoundTrip(h);
    TwoDigitsRoundTrip(m);
    var s := FormatHourMinute(ms);
    assert s == TwoDigits(h) + ":" + TwoDigits(m);
    assert s[0] == TwoDigits(h)[0] && s[1] == TwoDigits(h)[1];
    assert s[3] == TwoDigits(m)[0] && s[4] == TwoDigits(m)[1];
  }

  /**
   * The store query returns each stored row once: a candidate row occurs in the result as
   * often as among the stored rows, and any other row does not occur at all.
   */
  lemma {:induction false} CandidatesKeepMultiplicity(now: int, records: seq<EventWithUser>)
    requires AllStartsValid(records)
    ensures forall e :: e in records ==>
      multiset(Candidates(now, records))[e] == (if IsCandidate(now, e) then multiset(records)[e] else 0)
  {
    if records != [] {
      var rest := records[1..];
      CandidatesKeepMultiplicity(now, rest);
      assert records == [records[0]] + rest;
      forall e | e in records
        ensures multiset(Candidates(now, records))[e] == (if IsCandidate(now, e) then multiset(records)[e] else 0)
      {
        if e !in rest {
          assert multiset(rest)[e] == 0;
          assert e !in Candidates(now, rest);
          assert multiset(Candidates(now, rest))[e] == 0;
        }
      }
    }
  }

  /** The e-mail for a row whose owner is present. */
  function ReminderEmail(r: EventWithUser): (m: Email)
    requires Valid(r.event.startTime) && r.user.Some?
    ensures m.to == r.user.value.email
    ensures m.subject == Subject(r.event.title)
    ensures m.greeting == Greeting(r.user.value)
    ensures m.startsAt == FormatHourMinute(r.event.startTime.ms)
    ensures |m.startsAt| == 5 && m.startsAt[2] == ':'
    ensures ParseHourMinute(m.startsAt) == (r.event.startTime.ms / (60 * MsPerMinute), r.event.startTime.ms / MsPerMinute % 60)
  {
    FormatHourMinuteRoundTrip(r.event.startTime.ms);
    Email(r.user.value.email, Subject(r.event.title), Greeting(r.user.value), FormatHourMinute(r.event.startTime.ms))
  }

  /** The e-mails the send loop produces for the fetched rows, in their order. */
  function DueEmails(now: int, events: seq<EventWithUser>): seq<Email>
    requires AllStartsValid(events)
  {
    if events == [] then []
    else
      var last := events[|events| - 1];
      DueEmails(now, events[..|events| - 1])
        + (if SendsReminder(now, last) then [ReminderEmail(last)] else [])
  }

  /** One run of the sweep: query the candidates, then test and mail each one in turn. */
  method RemindersTick(now: int, records: seq<EventWithUser>) returns (sent: seq<Email>)
    requires AllStartsValid(records)
    ensures sent == DueEmails(now, Candidates(now, records))
  {
    var events := Candidates(now, records);
    sent := [];
    for i := 0 to |events|
      invariant sent == DueEmails(now, events[..i])
    {
      var event := events[i];
      assert events[..i + 1][..i] == events[..i];
      var reminderTime := Instant(event.event.startTime) - event.event.reminderOffset.GetOr(0) * MsPerMinute;
      if now > reminderTime {
        if event.user.Some? && |event.user.value.email| > 0 {
          sent := sent + [ReminderEmail(event)];
        }
      }
    }
    assert events[..|events|] == events;
  }

  /** Every e-mail of the send loop belongs to a fetched row that is due and has an address. */
  lemma {:induction false} DueEmailsSound(now: int, events: seq<EventWithUser>)
    requires AllStartsValid(events)
    ensures forall m :: m in DueEmails(now, events) ==>
      exists i :: 0 <= i < |events| && SendsReminder(now, events[i]) && m == ReminderEmail(events[i])
  {
    if events != [] {
      var n := |events| - 1;
      DueEmailsSound(now, events[..n]);
      forall m | m in DueEmails(now, events)
        ensures exists i :: 0 <= i < |events| && SendsReminder(now, events[i]) && m == ReminderEmail(events[i])
      {
        if m in DueEmails(now, events[..n]) {
          var i :| 0 <= i < n && SendsReminder(now, events[..n][i]) && m == ReminderEmail(events[..n][i]);
          assert events[..n][i] == events[i];
        } else {
          assert SendsReminder(now, events[n]) && m == ReminderEmail(events[n]);
        }
      }
    }
  }

  /** Every fetched row that is due and has an address gets its e-mail. */
  lemma {:induction false} DueEmailsComplete(now: int, events: seq<EventWithUser>, i: int)
    requires AllStartsValid(events) && 0 <= i < |events| && SendsReminder(now, events[i])
    ensures ReminderEmail(events[i]) in DueEmails(now, events)
  {
    var n := |events| - 1;
    if i < n {
      assert events[..n][i] == events[i];
      DueEmailsComplete(now, events[..n], i);
    }
  }

  /** The positions of the fetched rows that are due and whose owner has an address. */
  function DueRows(now: int, events: seq<EventWithUser>): set<int>
    requires AllStartsValid(events)
  {
    set i | 0 <= i < |events| && SendsReminder(now, events[i])
  }

  /** The send loop mails exactly as many times as there are due rows with an address. */
  lemma {:induction false} DueEmailsOnePerDueRow(now: int, events: seq<EventWithUser>)
    requires AllStartsValid(events)
    ensures |DueEmails(now, events)| == |DueRows(now, events)| <= |events|
  {
    if events == [] {
      assert DueRows(now, events) == {};
    } else {
      var n := |events| - 1;
      DueEmailsOnePerDueRow(now, events[..n]);
      var before, after := DueRows(now, events[..n]), DueRows(now, events);
      forall i
        ensures i in after - {n} <==> i in before
      {
        if 0 <= i < n {
          assert events[..n][i] == events[i];
        }
      }
      assert after - {n} == before;
      assert n !in before;
      if SendsReminder(now, events[n]) {
        assert after == before + {n};
      } else {
        assert after == before;
      }
    }
  }

  /** The positions of the mailed rows, in increasing order: each due row once, in fetch order. */
  function MailedRows(now: int, events: seq<EventWithUser>): (rows: seq<int>)
    requires AllStartsValid(events)
    ensures forall j :: 0 <= j < |rows| ==> 0 <= rows[j] < |events|
    ensures forall j, j' :: 0 <= j < j' < |rows| ==> rows[j] < rows[j']
    ensures forall i :: 0 <= i < |events| ==> (i in rows <==> SendsReminder(now, events[i]))
  {
    if events == [] then []
    else
      var n := |events| - 1;
      assert forall i :: 0 <= i < n ==> events[..n][i] == events[i];
      MailedRows(now, events[..n]) + (if SendsReminder(now, events[n]) then [n] else [])
  }

  /** The j-th mail of a run is the mail of the j-th due row with an address, counted in fetch order. */
  lemma {:induction false} DueEmailsInRowOrder(now: int, events: seq<EventWithUser>)
    requires AllStartsValid(events)
    ensures var sent, rows := DueEmails(now, events), MailedRows(now, events);
      && |sent| == |rows|
      && forall j :: 0 <= j < |sent| ==> sent[j] == ReminderEmail(events[rows[j]])
  {
    if events != [] {
      var n := |events| - 1;
      DueEmailsInRowOrder(now, events[..n]);
      var rows := MailedRows(now, events[..n]);
      assert forall j :: 0 <= j < |rows| ==> events[..n][rows[j]] == events[rows[j]];
    }
  }

  /**
   * One run mails exactly the stored rows that have an offset, start within the next fifteen
   * minutes, are due and have an owner with an address.
   */
  lemma TickMailsExactly(now: int, records: seq<EventWithUser>)
    requires AllStartsValid(records)
    ensures var sent := DueEmails(now, Candidates(now, records));
      && (forall m :: m in sent ==>
            exists r :: r in records && IsCandidate(now, r) && SendsReminder(now, r) && m == ReminderEmail(r))
      && (forall r :: r in records && IsCandidate(now, r) && SendsReminder(now, r) ==> ReminderEmail(r) in sent)
  {
    var events := Candidates(now, records);
    DueEmailsSound(now, events);
    forall r | r in records && IsCandidate(now, r) && SendsReminder(now, r)
      ensures ReminderEmail(r) in DueEmails(now, events)
    {
      var i :| 0 <= i < |events| && events[i] == r;
      DueEmailsComplete(now, events, i);
    }
    forall m | m in DueEmails(now, events)
      ensures exists r :: r in records && IsCandidate(now, r) && SendsReminder(now, r) && m == ReminderEmail(r)
    {
      var i :| 0 <= i < |events| && SendsReminder(now, events[i]) && m == ReminderEmail(events[i]);
      assert events[i] in events;
    }
  }

  /**
   * The two tests together: a row with offset o is mailed exactly when its lead time
   * `start - now` is at least zero, below o minutes, and at most fifteen minutes.
   */
  lemma ReminderWindow(now: int, r: EventWithUser)
    requires Valid(r.event.startTime)
    ensures IsCandidate(now, r) && IsDue(now, r.event)
        <==> && r.event.reminderOffset.Some?
             && 0 <= Instant(r.event.startTime) - now
             && Instant(r.event.startTime) - now < r.event.reminderOffset.value * MsPerMinute
             && Instant(r.event.startTime) - now <= LookAheadMinutes * MsPerMinute
  {
  }

  /** An offset of zero never triggers: the start would have to be already past. */
  lemma ZeroOffsetNeverDue(now: int, r: EventWithUser)
    requires Valid(r.event.startTime) && r.event.reminderOffset == Some(0)
    ensures !(IsCandidate(now, r) && IsDue(now, r.event))
  {
  }

  /**
   * An offset above fifteen minutes makes every fetched row due at once: the reminder
   * arrives at most fifteen minutes ahead, not `offset` minutes ahead.
   */
  lemma LargeOffsetDueOnFetch(now: int, r: EventWithUser)
    requires Valid(r.event.startTime) && r.event.reminderOffset.Some?
    requires r.event.reminderOffset.value > LookAheadMinutes
    requires IsCandidate(now, r)
    ensures IsDue(now, r.event)
  {
  }

  /**
   * Nothing records that a reminder went out: a row mailed at one run is mailed again at the
   * next run, a minute later, as long as it has not started by then.
   */
  lemma MailedAgainNextMinute(now: int, r: EventWithUser)
    requires Valid(r.event.startTime)
    requires IsCandidate(now, r) && SendsReminder(now, r)
    requires now + MsPerMinute <= Instant(r.event.startTime)
    ensures IsCandidate(now + MsPerMinute, r) && SendsReminder(now + MsPerMinute, r)
  {
  }
}
