/** The rule a registration (a booked slot in one doctor's calendar) must
    pass before it is written, and what that rule guarantees about the slots
    a calendar ends up holding. */
module Booking {
  import opened DateTimes
  import opened Outcomes
  import opened Fields

  /** A registration's primary key. */
  type RegistrationId = nat

  /** A slot in the calendar of doctor `calendar`, from `start` to `end`. */
  datatype Registration = Registration(calendar: DoctorId, start: DateTime, end: DateTime)

  /** The first check: the range is refused only when start_time > end_time,
      so an empty slot (start == end) passes. */
  predicate OrderedRange(start: DateTime, end: DateTime) {
    !Less(end, start)
  }

  /** The second check reads only the hour and minute of each endpoint: the
      start hour lies in [9, 18), the end hour too, or the end is 18:00 to the
      minute. */
  predicate InWorkingTime(start: DateTime, end: DateTime) {
    9 <= start.hour < 18 && (9 <= end.hour < 18 || (end.hour == 18 && end.minute == 0))
  }

  /** Minutes since midnight, ignoring seconds and microseconds. */
  function MinuteOfDay(t: DateTime): (m: int) {
    t.hour * 60 + t.minute
  }

  /** A `__range` lookup: both bounds inclusive. */
  predicate InRange(t: DateTime, lo: DateTime, hi: DateTime) {
    LessEq(lo, t) && LessEq(t, hi)
  }

  /** The two timestamp columns a range lookup can filter on. */
  datatype TimeField = StartTime | EndTime

  function FieldValue(r: Registration, f: TimeField): (t: DateTime) {
    match f
    case StartTime => r.start
    case EndTime => r.end
  }

  /** The registrations of calendar `cal` whose column `f` lies in
      [lo, hi], as the set of their primary keys. */
  function RangeFilter(regs: map<RegistrationId, Registration>, cal: DoctorId, f: TimeField,
                       lo: DateTime, hi: DateTime): (ks: set<RegistrationId>)
  {
    set k | k in regs && regs[k].calendar == cal && InRange(FieldValue(regs[k], f), lo, hi)
  }

  /** The checks of a registration save, in the order they run; the first
      that fails decides the refusal. */
  function RegistrationVerdict(calendars: set<DoctorId>, regs: map<RegistrationId, Registration>,
                               r: Registration): (outcome: Outcome)
  {
    if !OrderedRange(r.start, r.end) then Rejected(InvalidTimeRange)
    else if !InWorkingTime(r.start, r.end) then Rejected(OutsideWorkingTime)
    else if r.calendar !in calendars then Rejected(CalendarMissing)
    else if |RangeFilter(regs, r.calendar, StartTime, r.start, r.end)| > 0 then Rejected(TimeCorrupted)
    else if |RangeFilter(regs, r.calendar, EndTime, r.start, r.end)| > 0 then Rejected(TimeCorrupted)
    else Saved
  }

  /** Some registration of `r`'s calendar has column `f` inside `r`'s range. */
  predicate EndpointTaken(regs: map<RegistrationId, Registration>, r: Registration, f: TimeField) {
    exists k :: k in regs && regs[k].calendar == r.calendar && InRange(FieldValue(regs[k], f), r.start, r.end)
  }

  /** The two closed slots share at least one instant. */
  predicate Overlap(a: Registration, b: Registration) {
    LessEq(a.start, b.end) && LessEq(b.start, a.end)
  }

  /** `inner` begins after `outer` begins and ends before `outer` ends. */
  predicate StrictlyInside(inner: Registration, outer: Registration) {
    Less(outer.start, inner.start) && Less(inner.end, outer.end)
  }

  /** A slot that could have passed the first two checks. */
  predicate Bookable(r: Registration) {
    OrderedRange(r.start, r.end) && InWorkingTime(r.start, r.end)
  }

  /** What the booking rule keeps true of the registrations table: every row
      is bookable and belongs to an existing calendar, and two rows of one
      calendar share no instant unless one lies strictly inside the other. */
  ghost predicate Schedule(calendars: set<DoctorId>, regs: map<RegistrationId, Registration>) {
    (forall k :: k in regs ==> Bookable(regs[k]) && regs[k].calendar in calendars) &&
    (forall i, j :: i in regs && j in regs && i != j && regs[i].calendar == regs[j].calendar ==>
       !Overlap(regs[i], regs[j]) || StrictlyInside(regs[i], regs[j]) || StrictlyInside(regs[j], regs[i]))
  }

  lemma FilterNonEmpty(regs: map<RegistrationId, Registration>, r: Registration, f: TimeField)
    ensures |RangeFilter(regs, r.calendar, f, r.start, r.end)| > 0 <==> EndpointTaken(regs, r, f)
  {
    var s := RangeFilter(regs, r.calendar, f, r.start, r.end);
    if EndpointTaken(regs, r, f) {
      var k :| k in regs && regs[k].calendar == r.calendar && InRange(FieldValue(regs[k], f), r.start, r.end);
      assert k in s;
    }
    if |s| > 0 {
      var k :| k in s;
      assert regs[k].calendar == r.calendar && InRange(FieldValue(regs[k], f), r.start, r.end);
    }
  }

  /** Each refusal names the first failing check, in the order range, working
      time, calendar, then an existing start or end inside the new range. */
  lemma {:induction false} VerdictReasons(calendars: set<DoctorId>, regs: map<RegistrationId, Registration>,
                                          r: Registration)
    ensures RegistrationVerdict(calendars, regs, r) == Rejected(InvalidTimeRange) <==> Less(r.end, r.start)
    ensures RegistrationVerdict(calendars, regs, r) == Rejected(OutsideWorkingTime) <==>
      OrderedRange(r.start, r.end) && !InWorkingTime(r.start, r.end)
    ensures RegistrationVerdict(calendars, regs, r) == Rejected(CalendarMissing) <==>
      Bookable(r) && r.calendar !in calendars
    ensures RegistrationVerdict(calendars, regs, r) == Rejected(TimeCorrupted) <==>
      Bookable(r) && r.calendar in calendars &&
      (EndpointTaken(regs, r, StartTime) || EndpointTaken(regs, r, EndTime))
  {
    FilterNonEmpty(regs, r, StartTime);
    FilterNonEmpty(regs, r, EndTime);
  }

  /** The working-time check, for well-formed timestamps, is the window
      [09:00, 18:00) for the start and [09:00, 18:00] for the end, measured
      to the minute: seconds and the date play no part. */
  lemma WorkingTimeWindow(start: DateTime, end: DateTime)
    requires WellFormed(start) && WellFormed(end)
    ensures InWorkingTime(start, end) <==>
      9 * 60 <= MinuteOfDay(start) < 18 * 60 && 9 * 60 <= MinuteOfDay(end) <= 18 * 60
  {
  }

  /** A slot is accepted exactly when it passes the first three checks and
      every registration already in its calendar either ends before it starts,
      starts after it ends, or strictly encloses it. The last case is a slot
      that overlaps the new one and is not detected. */
  lemma {:induction false} AcceptedIff(calendars: set<DoctorId>, regs: map<RegistrationId, Registration>,
                                       r: Registration)
    requires forall k :: k in regs ==> OrderedRange(regs[k].start, regs[k].end)
    ensures RegistrationVerdict(calendars, regs, r) == Saved <==>
      Bookable(r) && r.calendar in calendars &&
      forall k :: k in regs && regs[k].calendar == r.calendar ==>
        Less(regs[k].end, r.start) || Less(r.end, regs[k].start) || StrictlyInside(r, regs[k])
  {
    VerdictReasons(calendars, regs, r);
    assert RegistrationVerdict(calendars, regs, r) == Saved <==>
      Bookable(r) && r.calendar in calendars &&
      !EndpointTaken(regs, r, StartTime) && !EndpointTaken(regs, r, EndTime);
  }

  /** A refusal for TimeCorrupted is never spurious: the new slot really
      shares an instant with a registration of its calendar. */
  lemma {:induction false} CorruptedMeansOverlap(calendars: set<DoctorId>, regs: map<RegistrationId, Registration>,
                                                 r: Registration)
    requires forall k :: k in regs ==> OrderedRange(regs[k].start, regs[k].end)
    requires RegistrationVerdict(calendars, regs, r) == Rejected(TimeCorrupted)
    ensures exists k :: k in regs && regs[k].calendar == r.calendar && Overlap(regs[k], r)
  {
    VerdictReasons(calendars, regs, r);
    if EndpointTaken(regs, r, StartTime) {
      var k :| k in regs && regs[k].calendar == r.calendar && InRange(regs[k].start, r.start, r.end);
      assert Overlap(regs[k], r);
    } else {
      var k :| k in regs && regs[k].calendar == r.calendar && InRange(regs[k].end, r.start, r.end);
      assert Overlap(regs[k], r);
    }
  }

  /** Writing an accepted slot under any primary key keeps the schedule
      invariant: whatever row it replaces, the other rows are compatible with it. */
  lemma {:induction false} AcceptedKeepsSchedule(calendars: set<DoctorId>, regs: map<RegistrationId, Registration>,
                                                 id: RegistrationId, r: Registration)
    requires Schedule(calendars, regs)
    requires RegistrationVerdict(calendars, regs, r) == Saved
    ensures Schedule(calendars, regs[id := r])
  {
    AcceptedIff(calendars, regs, r);
    var after := regs[id := r];
    forall i, j | i in after && j in after && i != j && after[i].calendar == after[j].calendar
      ensures !Overlap(after[i], after[j]) || StrictlyInside(after[i], after[j]) || StrictlyInside(after[j], after[i])
    {
      if i == id {
        assert Less(regs[j].end, r.start) || Less(r.end, regs[j].start) || StrictlyInside(r, regs[j]);
      } else if j == id {
        assert Less(regs[i].end, r.start) || Less(r.end, regs[i].start) || StrictlyInside(r, regs[i]);
      }
    }
  }

  /** Saving a stored registration again, unchanged, is always refused: its
      own start lies in its own range and nothing excludes the row itself. */
  lemma {:induction false} ResaveRejected(calendars: set<DoctorId>, regs: map<RegistrationId, Registration>,
                                          id: RegistrationId)
    requires Schedule(calendars, regs)
    requires id in regs
    ensures RegistrationVerdict(calendars, regs, regs[id]) == Rejected(TimeCorrupted)
  {
    var r := regs[id];
    VerdictReasons(calendars, regs, r);
    assert InRange(FieldValue(regs[id], StartTime), r.start, r.end);
  }

  /** A slot that begins exactly when a registration of its calendar ends is
      refused: the range lookup includes its bounds. */
  lemma {:induction false} TouchingRejected(calendars: set<DoctorId>, regs: map<RegistrationId, Registration>,
                                            r: Registration, k: RegistrationId)
    requires Bookable(r) && r.calendar in calendars
    requires k in regs && regs[k].calendar == r.calendar && regs[k].end == r.start
    ensures RegistrationVerdict(calendars, regs, r) == Rejected(TimeCorrupted)
  {
    VerdictReasons(calendars, regs, r);
    assert InRange(FieldValue(regs[k], EndTime), r.start, r.end);
  }

  /** A time on day 0, to the minute. */
  function At(hour: int, minute: int): (t: DateTime) {
    DateTime(0, hour, minute, 0, 0)
  }

  /** Bookings against a calendar holding 09:00-09:30: 09:15-09:45 and the
      touching 09:30-10:00 are refused, 10:00-10:30 is accepted. */
  lemma OverlapScenario()
    ensures var booked := map[1 := Registration(7, At(9, 0), At(9, 30))];
      RegistrationVerdict({7}, booked, Registration(7, At(9, 15), At(9, 45))) == Rejected(TimeCorrupted) &&
      RegistrationVerdict({7}, booked, Registration(7, At(9, 30), At(10, 0))) == Rejected(TimeCorrupted) &&
      RegistrationVerdict({7}, booked, Registration(7, At(10, 0), At(10, 30))) == Saved
  {
    var booked := map[1 := Registration(7, At(9, 0), At(9, 30))];
    VerdictReasons({7}, booked, Registration(7, At(9, 15), At(9, 45)));
    assert InRange(FieldValue(booked[1], EndTime), At(9, 15), At(9, 45));
    TouchingRejected({7}, booked, Registration(7, At(9, 30), At(10, 0)), 1);
    AcceptedIff({7}, booked, Registration(7, At(10, 0), At(10, 30)));
  }

  /** The working-time boundaries: 08:00-09:00 is refused, 17:30-18:00 is
      accepted, and so is an end at 18:00:59, whose seconds are not read. */
  lemma WorkingTimeScenario()
    ensures RegistrationVerdict({7}, map[], Registration(7, At(8, 0), At(9, 0))) == Rejected(OutsideWorkingTime)
    ensures RegistrationVerdict({7}, map[], Registration(7, At(17, 30), At(18, 0))) == Saved
    ensures RegistrationVerdict({7}, map[], Registration(7, At(17, 30), DateTime(0, 18, 0, 59, 0))) == Saved
    ensures RegistrationVerdict({7}, map[], Registration(7, At(17, 30), At(18, 1))) == Rejected(OutsideWorkingTime)
  {
    AcceptedIff({7}, map[], Registration(7, At(17, 30), At(18, 0)));
    AcceptedIff({7}, map[], Registration(7, At(17, 30), DateTime(0, 18, 0, 59, 0)));
  }

  /** The gap in the conflict test: a calendar holding 09:00-12:00 accepts
      10:00-11:00, which lies strictly inside it. */
  lemma EnclosedSlotAccepted()
    ensures var booked := map[1 := Registration(7, At(9, 0), At(12, 0))];
      var inner := Registration(7, At(10, 0), At(11, 0));
      RegistrationVerdict({7}, booked, inner) == Saved && Overlap(booked[1], inner)
  {
    var booked := map[1 := Registration(7, At(9, 0), At(12, 0))];
    AcceptedIff({7}, booked, Registration(7, At(10, 0), At(11, 0)));
  }
}
