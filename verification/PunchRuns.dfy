/** What every run of clock-ins, clock-outs, heartbeats, sweeps and corrections keeps, under
    a clock that does not run backwards (the two invariants stated at the head of
    backend/attendance/punches.py, and what they are for). */
module PunchRuns {
  import opened Options
  import opened Roster
  import opened Punches

  predicate On(instant: int, date: int) {
    date * DAY <= instant < (date + 1) * DAY
  }

  /** One session: inside its record's date, not after the clock, never negative. */
  ghost predicate SessionOk(s: Session, clock: int) {
    && On(s.checkIn, s.date) && s.checkIn <= clock
    && (s.checkOut.Some? ==> s.checkIn <= s.checkOut.value <= clock && On(s.checkOut.value, s.date))
    && (s.lastSeen.Some? ==> s.lastSeen.value <= clock && On(s.lastSeen.value, s.date))
  }

  /** Two sessions of one employee, `a` recorded first. */
  ghost predicate InTurn(a: Session, b: Session) {
    a.employee == b.employee ==>
      a.date < b.date || (a.date == b.date && a.checkOut.Some? && a.checkOut.value <= b.checkIn)
  }

  ghost predicate HasRecord(logs: seq<Log>, s: Session) {
    LogIndex(logs, s.employee, s.date).Some?
  }

  ghost predicate OneRecordPerDay(logs: seq<Log>) {
    forall i, j | 0 <= i < j < |logs| :: logs[i].employee == logs[j].employee ==> logs[i].date != logs[j].date
  }

  ghost predicate SessionsOk(ss: seq<Session>, clock: int) {
    && (forall i | 0 <= i < |ss| :: SessionOk(ss[i], clock))
    && (forall i, j | 0 <= i < j < |ss| :: InTurn(ss[i], ss[j]))
  }

  ghost predicate Inv(s: Store, clock: int) {
    && OneRecordPerDay(s.logs)
    && (forall i | 0 <= i < |s.sessions| :: HasRecord(s.logs, s.sessions[i]))
    && SessionsOk(s.sessions, clock)
  }

  /** The clock of a step, and what the step may assume of it: time does not go back, the
      office closes at a time of day, a sweep is never dated after the clock, and a beat is for
      today and not for later. */
  ghost predicate InTime(cfg: Settings, e: Event, clock: int) {
    && clock <= e.now
    && (cfg.office.end.Some? ==> 0 <= cfg.office.end.value < DAY)
    && (e.Sweep? ==> e.today <= e.now / DAY)
    && (e.Beat? && e.at.Some? ==> e.at.value <= e.now && On(e.at.value, e.now / DAY))
  }

  ghost predicate Monotone(steps: seq<(Settings, Event)>, clock: int)
    decreases |steps|
  {
    steps == [] || (InTime(steps[0].0, steps[0].1, clock) && Monotone(steps[1..], steps[0].1.now))
  }

  function Clock(steps: seq<(Settings, Event)>, clock: int): int {
    if steps == [] then clock else steps[|steps| - 1].1.now
  }

  lemma OnItsDay(instant: int)
    ensures On(instant, instant / DAY)
  {
  }

  lemma OneDay(instant: int, d: int, e: int)
    requires On(instant, d) && On(instant, e)
    ensures d == e
  {
  }

  lemma EarlierInstantEarlierDay(a: int, b: int, d: int, e: int)
    requires On(a, d) && On(b, e) && a <= b
    ensures d <= e
  {
  }

  lemma LaterClock(ss: seq<Session>, clock: int, now: int)
    requires SessionsOk(ss, clock) && clock <= now
    ensures SessionsOk(ss, now)
  {
  }

  lemma RecordsStay(logs: seq<Log>, more: seq<Log>, s: Session)
    requires HasRecord(logs, s) && |logs| <= |more|
    requires forall i | 0 <= i < |logs| :: more[i].employee == logs[i].employee && more[i].date == logs[i].date
    ensures HasRecord(more, s)
  {
  }

  /** Logs may gain a record for a new day or have columns rewritten. */
  ghost predicate LogsGrow(logs: seq<Log>, more: seq<Log>) {
    && |logs| <= |more|
    && (forall i | 0 <= i < |logs| :: more[i].employee == logs[i].employee && more[i].date == logs[i].date)
    && (OneRecordPerDay(logs) ==> OneRecordPerDay(more))
  }

  lemma NextGrowsLogs(s: Store, cfg: Settings, e: Event)
    ensures LogsGrow(s.logs, Next(s, cfg, e).logs)
  {
  }

  lemma OpensInTurn(s: Store, employee: int, now: int, clock: int)
    requires Inv(s, clock) && clock <= now
    requires OpenIndex(s.sessions, employee, now / DAY, true).None?
    ensures SessionsOk(s.sessions + [Session(employee, now / DAY, now, None, None, false)], now)
  {
    OnItsDay(now);
    LaterClock(s.sessions, clock, now);
    var begun := Session(employee, now / DAY, now, None, None, false);
    forall i | 0 <= i < |s.sessions| ensures InTurn(s.sessions[i], begun) {
      var earlier := s.sessions[i];
      assert SessionOk(earlier, clock);
      EarlierInstantEarlierDay(earlier.checkIn, now, earlier.date, now / DAY);
      assert !OpenOn(earlier, employee, now / DAY);
    }
  }

  /** Rewriting a row's end, beat or flag in place keeps the order of the others. */
  lemma RewriteInTurn(ss: seq<Session>, i: nat, row: Session, clock: int)
    requires SessionsOk(ss, clock) && i < |ss|
    requires SessionOk(row, clock) && row.employee == ss[i].employee && row.date == ss[i].date
      && row.checkIn == ss[i].checkIn
    requires ss[i].checkOut.None? || row.checkOut == ss[i].checkOut
    ensures SessionsOk(ss[i := row], clock)
  {
  }

  lemma SweepInTurn(ss: seq<Session>, today: int, officeEnd: Option<int>, now: int)
    requires SessionsOk(ss, now) && today <= now / DAY
    requires officeEnd.Some? ==> 0 <= officeEnd.value < DAY
    ensures SessionsOk(Swept(ss, today, officeEnd), now)
  {
    OnItsDay(now);
    var swept := Swept(ss, today, officeEnd);
    forall i | 0 <= i < |ss| ensures SessionOk(swept[i], now) {
      assert SessionOk(ss[i], now);
    }
    forall i, j | 0 <= i < j < |ss| ensures InTurn(swept[i], swept[j]) {
      assert InTurn(ss[i], ss[j]);
    }
  }

  lemma NextKeepsSessions(s: Store, cfg: Settings, e: Event, clock: int)
    requires Inv(s, clock) && InTime(cfg, e, clock)
    ensures SessionsOk(Next(s, cfg, e).sessions, e.now)
  {
    var after := Next(s, cfg, e);
    LaterClock(s.sessions, clock, e.now);
    OnItsDay(e.now);
    match e
    case ClockIn(employee, now, _, _) =>
      if InReply(s, e) == Done { OpensInTurn(s, employee, now, clock); }
    case ClockOut(employee, now) =>
      if OutReply(s, e) == Done {
        var i := OpenIndex(s.sessions, employee, now / DAY, true).value;
        RewriteInTurn(s.sessions, i, after.sessions[i], now);
      }
    case Beat(employee, now, at) =>
      var i := OpenIndex(s.sessions, employee, now / DAY, false);
      if after != s { RewriteInTurn(s.sessions, i.value, after.sessions[i.value], now); }
    case Sweep(today, now) =>
      SweepInTurn(s.sessions, today, cfg.office.end, now);
    case Record(_, _, _, _, _, _, _) =>
  }

  lemma NextKeepsRecords(s: Store, cfg: Settings, e: Event)
    requires forall i | 0 <= i < |s.sessions| :: HasRecord(s.logs, s.sessions[i])
    ensures var after := Next(s, cfg, e);
      forall i | 0 <= i < |after.sessions| :: HasRecord(after.logs, after.sessions[i])
  {
    var after := Next(s, cfg, e);
    NextGrowsLogs(s, cfg, e);
    forall i | 0 <= i < |after.sessions| ensures HasRecord(after.logs, after.sessions[i]) {
      if i < |s.sessions| { RecordsStay(s.logs, after.logs, s.sessions[i]); }
    }
  }

  /** One step keeps the invariant. */
  lemma NextKeepsInv(s: Store, cfg: Settings, e: Event, clock: int)
    requires Inv(s, clock) && InTime(cfg, e, clock)
    ensures Inv(Next(s, cfg, e), e.now)
  {
    NextGrowsLogs(s, cfg, e);
    NextKeepsRecords(s, cfg, e);
    NextKeepsSessions(s, cfg, e, clock);
  }

  /** From the empty tables, or any state that satisfies it, every run keeps the invariant. */
  lemma {:induction false} RunKeepsInv(s: Store, steps: seq<(Settings, Event)>, clock: int)
    requires Inv(s, clock) && Monotone(steps, clock)
    ensures Inv(Run(s, steps), Clock(steps, clock))
    decreases |steps|
  {
    if steps != [] {
      NextKeepsInv(s, steps[0].0, steps[0].1, clock);
      RunKeepsInv(Next(s, steps[0].0, steps[0].1), steps[1..], steps[0].1.now);
    }
  }

  // ---------- what the invariant is for ----------

  predicate Within(s: Session, t: int) {
    s.checkOut.Some? && s.checkIn <= t < s.checkOut.value
  }

  /** Two closed sessions that claim the same instant. */
  ghost predicate Overlap(a: Session, b: Session) {
    exists t :: Within(a, t) && Within(b, t)
  }

  ghost predicate Honest(s: Store) {
    // at most one open session a day, and it is the latest of the day
    && (forall i, j | 0 <= i < |s.sessions| && 0 <= j < |s.sessions| && i != j
                      && s.sessions[i].employee == s.sessions[j].employee && s.sessions[i].date == s.sessions[j].date ::
          s.sessions[i].checkOut.None? ==>
            s.sessions[j].checkOut.Some? && s.sessions[j].checkIn <= s.sessions[i].checkIn)
    // every session lies inside its record's date, and a closed one is not negative
    && (forall i | 0 <= i < |s.sessions| :: var x := s.sessions[i];
          && HasRecord(s.logs, x) && On(x.checkIn, x.date)
          && (x.checkOut.Some? ==> x.checkIn <= x.checkOut.value && On(x.checkOut.value, x.date)))
    // no two sessions of one employee overlap
    && (forall i, j | 0 <= i < j < |s.sessions| && s.sessions[i].employee == s.sessions[j].employee ::
          !Overlap(s.sessions[i], s.sessions[j]))
  }

  lemma InvIsHonest(s: Store, clock: int)
    requires Inv(s, clock)
    ensures Honest(s)
  {
    forall i, j | 0 <= i < j < |s.sessions| && s.sessions[i].employee == s.sessions[j].employee
      ensures !Overlap(s.sessions[i], s.sessions[j])
    {
      assert InTurn(s.sessions[i], s.sessions[j]);
      assert SessionOk(s.sessions[i], clock) && SessionOk(s.sessions[j], clock);
    }
    forall i, j | 0 <= i < |s.sessions| && 0 <= j < |s.sessions| && i != j
                  && s.sessions[i].employee == s.sessions[j].employee && s.sessions[i].date == s.sessions[j].date
                  && s.sessions[i].checkOut.None?
      ensures s.sessions[j].checkOut.Some? && s.sessions[j].checkIn <= s.sessions[i].checkIn
    {
      assert SessionOk(s.sessions[j], clock);
      var first, second := if i < j then i else j, if i < j then j else i;
      assert InTurn(s.sessions[first], s.sessions[second]);
    }
  }

  /** Both invariants named in the source, over every run from empty tables. */
  lemma EveryRunIsHonest(steps: seq<(Settings, Event)>, clock: int)
    requires Monotone(steps, clock)
    ensures Honest(Run(Store([], []), steps))
  {
    RunKeepsInv(Store([], []), steps, clock);
    InvIsHonest(Run(Store([], []), steps), Clock(steps, clock));
  }

  /** A day's total never exceeds any interval that holds its closed sessions; with the
      first punch and the last, that is last-out minus first-in. */
  lemma {:induction false} TotalWithinSpan(ss: seq<Session>, employee: int, date: int, clock: int, lo: int, hi: int)
    requires SessionsOk(ss, clock) && lo <= hi
    requires forall i | 0 <= i < |ss| && OfDay(ss[i], employee, date) && ss[i].checkOut.Some? ::
      lo <= ss[i].checkIn && ss[i].checkOut.value <= hi
    ensures 0 <= DaySeconds(ss, employee, date) * SECOND <= hi - lo
  {
    if ss != [] {
      var n := |ss| - 1;
      var last := ss[n];
      assert SessionOk(last, clock);
      if OfDay(last, employee, date) && last.checkOut.Some? {
        forall i | 0 <= i < n && OfDay(ss[..n][i], employee, date) && ss[..n][i].checkOut.Some?
          ensures lo <= ss[..n][i].checkIn && ss[..n][i].checkOut.value <= last.checkIn
        {
          assert InTurn(ss[i], ss[n]);
        }
        TotalWithinSpan(ss[..n], employee, date, clock, lo, last.checkIn);
      } else {
        TotalWithinSpan(ss[..n], employee, date, clock, lo, hi);
      }
    }
  }

  /** In every run from empty tables a day's total stays inside any interval that holds the
      day's closed sessions. */
  lemma DayTotalInEveryRun(s: Store, steps: seq<(Settings, Event)>, clock: int, employee: int,
      date: int, lo: int, hi: int)
    requires Monotone(steps, clock) && s == Run(Store([], []), steps) && lo <= hi
    requires forall i | 0 <= i < |s.sessions| && OfDay(s.sessions[i], employee, date) && s.sessions[i].checkOut.Some? ::
      lo <= s.sessions[i].checkIn && s.sessions[i].checkOut.value <= hi
    ensures 0 <= DaySeconds(s.sessions, employee, date) * SECOND <= hi - lo
  {
    RunKeepsInv(Store([], []), steps, clock);
    TotalWithinSpan(s.sessions, employee, date, Clock(steps, clock), lo, hi);
  }

  /** After a sweep nobody is clocked in from an earlier day, the count returned is the
      number of sessions closed, and sweeping again closes nothing. */
  lemma SweepLeavesNothingStale(s: Store, cfg: Settings, today: int, now: int)
    ensures var after := Next(s, cfg, Sweep(today, now));
      && (forall i | 0 <= i < |after.sessions| :: !Stale(after.sessions[i], today))
      && StaleCount(after.sessions, today) == 0
      && Next(after, cfg, Sweep(today, now)) == after
  {
    var after := Next(s, cfg, Sweep(today, now));
    NothingStale(after.sessions, today);
    assert Swept(after.sessions, today, cfg.office.end) == after.sessions;
  }

  lemma {:induction false} NothingStale(ss: seq<Session>, today: int)
    requires forall i | 0 <= i < |ss| :: !Stale(ss[i], today)
    ensures StaleCount(ss, today) == 0
  {
    if ss != [] { NothingStale(ss[..|ss| - 1], today); }
  }

  /** Where the sweep stops a session: at the last beat, where one was heard after the
      clock-in; else at the office's end or, where it has none, at 23:59, unless the session
      began later, and then at its own beginning.  The guess is flagged, is never before the
      clock-in, and stays inside the day. */
  lemma SweepGuess(s: Session, today: int, officeEnd: Option<int>, clock: int)
    requires SessionOk(s, clock) && Stale(s, today)
    requires officeEnd.Some? ==> 0 <= officeEnd.value < DAY
    ensures var r, end := SweptRow(s, today, officeEnd), OfficeEnds(s.date, officeEnd);
      && r.autoClosed && s.checkIn <= r.checkOut.value < (s.date + 1) * DAY
      && (Heard(s) ==> r.checkOut == s.lastSeen)
      && (!Heard(s) && s.checkIn < end ==> r.checkOut == Some(end))
      && (!Heard(s) && end <= s.checkIn ==> r.checkOut == Some(s.checkIn))
      && r == s.(checkOut := r.checkOut, autoClosed := true)
      && (s.checkIn < r.checkOut.value <==> Earns(s, officeEnd))
  {
  }

  /** What a forgotten session must show by the end of its day to be credited anything. */
  predicate Earns(s: Session, officeEnd: Option<int>) {
    Heard(s) || s.checkIn < OfficeEnds(s.date, officeEnd)
  }

  /** A row that is closed, or that is of another day than the punch or not stale for the
      sweep, is left as it is. */
  lemma OutOfReach(s: Store, cfg: Settings, e: Event, i: nat)
    requires i < |s.sessions|
    requires s.sessions[i].checkOut.None? ==>
      if e.Sweep? then !Stale(s.sessions[i], e.today) else s.sessions[i].date != e.now / DAY
    ensures var t := Next(s, cfg, e); i < |t.sessions| && t.sessions[i] == s.sessions[i]
  {
  }

  lemma SweptInPlace(s: Store, cfg: Settings, e: Event, i: nat)
    requires i < |s.sessions| && e.Sweep?
    ensures var t := Next(s, cfg, e);
      i < |t.sessions| && t.sessions[i] == SweptRow(s.sessions[i], e.today, cfg.office.end)
  {
  }

  lemma DayIsOver(x: Session, clock: int, now: int)
    requires (x.date + 1) * DAY <= clock <= now
    ensures x.date != now / DAY
  {
  }

  /** Once its day is over no punch and no beat reaches an open session: over every run it
      stays open as it was, or a sweep has closed it and it is credited with time if and only
      if it had been heard, or had begun before the office's end.  A night shift that begins
      later and sends no beat before midnight is credited with nothing. */
  lemma {:induction false} ForgottenEarnsExactly(s: Store, steps: seq<(Settings, Event)>, clock: int, i: nat,
      officeEnd: Option<int>)
    requires Inv(s, clock) && Monotone(steps, clock) && i < |s.sessions|
    requires s.sessions[i].checkOut.None? && (s.sessions[i].date + 1) * DAY <= clock
    requires forall k | 0 <= k < |steps| :: steps[k].0.office.end == officeEnd
    ensures var x, t := s.sessions[i], Run(s, steps).sessions;
      && i < |t|
      && (t[i] == x
          || (t[i].autoClosed && t[i].checkOut.Some? && t[i] == x.(checkOut := t[i].checkOut, autoClosed := true)
              && (x.checkIn < t[i].checkOut.value <==> Earns(x, officeEnd))))
    decreases |steps|
  {
    hide Next, SweptRow, InTurn, Earns, HasRecord;
    if steps != [] {
      var cfg, e := steps[0].0, steps[0].1;
      NextKeepsInv(s, cfg, e, clock);
      if e.Sweep? && Stale(s.sessions[i], e.today) {
        SweptInPlace(s, cfg, e, i);
        SweepGuess(s.sessions[i], e.today, officeEnd, clock);
        ClosedStays(Next(s, cfg, e), steps[1..], i);
      } else {
        DayIsOver(s.sessions[i], clock, e.now);
        OutOfReach(s, cfg, e, i);
        ForgottenEarnsExactly(Next(s, cfg, e), steps[1..], e.now, i, officeEnd);
      }
    }
  }

  lemma {:induction false} ClosedStays(s: Store, steps: seq<(Settings, Event)>, i: nat)
    requires i < |s.sessions| && s.sessions[i].checkOut.Some?
    ensures i < |Run(s, steps).sessions| && Run(s, steps).sessions[i] == s.sessions[i]
    decreases |steps|
  {
    if steps != [] {
      OutOfReach(s, steps[0].0, steps[0].1, i);
      ClosedStays(Next(s, steps[0].0, steps[0].1), steps[1..], i);
    }
  }

  /** Clocked in at 22:00 in an office that closes at 18:00, and not heard that evening. */
  const TEN_AT_NIGHT := Session(1, 0, 22 * 60 * MINUTE, None, None, false)

  lemma NightEarnsNothing(s: Store, steps: seq<(Settings, Event)>, clock: int, i: nat)
    requires Inv(s, clock) && Monotone(steps, clock) && DAY <= clock
    requires i < |s.sessions| && s.sessions[i] == TEN_AT_NIGHT
    requires forall k | 0 <= k < |steps| :: steps[k].0.office.end == Some(18 * 60 * MINUTE)
    ensures var t := Run(s, steps).sessions; i < |t| && Seconds(t[i]) == 0
  {
    hide Run, Monotone, SessionOk, InTurn, LogIndex;
    ForgottenEarnsExactly(s, steps, clock, i, Some(18 * 60 * MINUTE));
    assert !Earns(TEN_AT_NIGHT, Some(18 * 60 * MINUTE));
    RunKeepsInv(s, steps, clock);
    SessionEndsLater(Run(s, steps).sessions[i], Clock(steps, clock));
  }

  lemma SessionEndsLater(x: Session, clock: int)
    requires SessionOk(x, clock)
    ensures x.checkOut.Some? ==> x.checkIn <= x.checkOut.value
  {
  }

  /** The instant the office closes on a day. */
  function OfficeEnds(date: int, officeEnd: Option<int>): int {
    date * DAY + (if officeEnd.Some? then officeEnd.value else (23 * 60 + 59) * MINUTE)
  }

  /** A beat was heard after the clock-in. */
  predicate Heard(s: Session) {
    s.lastSeen.Some? && s.lastSeen.value > s.checkIn
  }

  /** What a caller can see before the sweep: it is dated no later than the clock, or the
      office has closed for the day, or everybody still clocked in today has been heard. */
  ghost predicate SafeToSweep(s: Store, cfg: Settings, today: int, now: int) {
    || today <= now / DAY
    || OfficeEnds(now / DAY, cfg.office.end) <= now
    || forall i | 0 <= i < |s.sessions| && s.sessions[i].checkOut.None? && s.sessions[i].date == now / DAY ::
         Heard(s.sessions[i])
  }

  /** A session that is stale under the sweep's date is stopped after the clock exactly when
      it is of the clock's own day, was not heard, and the office has not closed yet. */
  lemma StoppedAhead(s: Session, today: int, officeEnd: Option<int>, now: int)
    requires SessionOk(s, now) && Stale(s, today) && (officeEnd.Some? ==> 0 <= officeEnd.value < DAY)
    ensures ClosingTime(s, officeEnd) > now <==> s.date == now / DAY && !Heard(s) && OfficeEnds(s.date, officeEnd) > now
  {
    OnItsDay(now);
    EarlierInstantEarlierDay(s.checkIn, now, s.date, now / DAY);
  }

  lemma SweptRowOk(s: Session, today: int, officeEnd: Option<int>, now: int)
    requires SessionOk(s, now) && (officeEnd.Some? ==> 0 <= officeEnd.value < DAY)
    ensures SessionOk(SweptRow(s, today, officeEnd), now) <==> (Stale(s, today) ==> ClosingTime(s, officeEnd) <= now)
  {
  }

  lemma SweptInTurn(a: Session, b: Session, today: int, officeEnd: Option<int>)
    requires InTurn(a, b)
    ensures InTurn(SweptRow(a, today, officeEnd), SweptRow(b, today, officeEnd))
  {
  }

  /** Exactly when a sweep keeps the invariant at the instant `now`. */
  lemma SweepKeepsInvExactly(s: Store, cfg: Settings, today: int, now: int)
    requires Inv(s, now) && (cfg.office.end.Some? ==> 0 <= cfg.office.end.value < DAY)
    ensures Inv(Next(s, cfg, Sweep(today, now)), now) <==> SafeToSweep(s, cfg, today, now)
  {
    hide SweptRow, SessionOk, ClosingTime, InTurn, OfficeEnds, LogIndex;
    var end := cfg.office.end;
    var swept := Swept(s.sessions, today, end);
    forall i | 0 <= i < |swept|
      ensures HasRecord(s.logs, swept[i]) && (SessionOk(swept[i], now) <==> !StopsAhead(s.sessions[i], today, end, now))
    {
      SweptRowOk(s.sessions[i], today, end, now);
      SameRecord(s.logs, s.sessions[i], today, end);
      if Stale(s.sessions[i], today) { StoppedAhead(s.sessions[i], today, end, now); }
    }
    forall i, j | 0 <= i < j < |swept| ensures InTurn(swept[i], swept[j]) {
      SweptInTurn(s.sessions[i], s.sessions[j], today, end);
    }
    if !SafeToSweep(s, cfg, today, now) {
      var i :| 0 <= i < |s.sessions| && s.sessions[i].checkOut.None? && s.sessions[i].date == now / DAY
               && !Heard(s.sessions[i]);
      assert StopsAhead(s.sessions[i], today, end, now) && !SessionOk(swept[i], now);
    }
  }

  ghost predicate StopsAhead(s: Session, today: int, officeEnd: Option<int>, now: int) {
    Stale(s, today) && s.date == now / DAY && !Heard(s) && OfficeEnds(s.date, officeEnd) > now
  }

  lemma SameRecord(logs: seq<Log>, s: Session, today: int, officeEnd: Option<int>)
    requires HasRecord(logs, s)
    ensures HasRecord(logs, SweptRow(s, today, officeEnd))
  {
  }

  /** Why the sweep must not be dated after the clock: whenever it closes the running
      session of a day later than the instant `u` of the next punch, that punch is accepted
      inside the session just closed. */
  lemma SweepAheadOverlaps(s: Store, cfg: Settings, i: nat, employee: int, today: int, u: int, now: int)
    requires i < |s.sessions| && OpenOn(s.sessions[i], employee, u / DAY) && u / DAY < today
    requires s.sessions[i].checkIn <= u < ClosingTime(s.sessions[i], cfg.office.end)
    ensures var swept, punch := Next(s, cfg, Sweep(today, now)), ClockIn(employee, u, Web, true);
      && InReply(swept, punch) == Done
      && Within(swept.sessions[i], u)
      && Next(swept, cfg, punch).sessions == swept.sessions + [Session(employee, u / DAY, u, None, None, false)]
  {
  }

  /** Such a punch exists: clocked in at 09:00 with an office that ends at 18:00, swept under
      tomorrow's date, punching again at 09:01. */
  lemma SweepAheadHappens()
    ensures var cfg, nine := Settings([], Office(None, Some(18 * 60 * MINUTE), 0, 0)), 9 * 60 * MINUTE;
      var s := Store([Log(1, 0, Some(nine), None, Present, Web)], [Session(1, 0, nine, None, None, false)]);
      Inv(s, nine) && !Inv(Next(s, cfg, Sweep(1, nine)), nine)
  {
    var cfg, nine := Settings([], Office(None, Some(18 * 60 * MINUTE), 0, 0)), 9 * 60 * MINUTE;
    var open, l := Session(1, 0, nine, None, None, false), Log(1, 0, Some(nine), None, Present, Web);
    var s := Store([l], [open]);
    assert s.logs[0] == l && s.sessions[0] == open;
    assert HasRecord(s.logs, open);
    var swept := Next(s, cfg, Sweep(1, nine));
    assert swept.sessions[0] == SweptRow(open, 1, cfg.office.end);
    assert !SessionOk(swept.sessions[0], nine);
  }
}
