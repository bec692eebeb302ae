/** What punching does to the day record and to its total: the record's two columns are a
    summary of the sessions, a judgement on the day stands, and each stretch is counted
    once (backend/attendance/punches.py). */
module DayRecords {
  import opened Options
  import opened Roster
  import opened Punches
  import opened PunchRuns

  // ---------- the columns summarise the sessions ----------

  /** The first punch of a day. */
  function FirstIn(ss: seq<Session>, employee: int, date: int): Option<int> {
    if ss == [] then None
    else
      var n := |ss| - 1;
      var front := FirstIn(ss[..n], employee, date);
      if front.None? && OfDay(ss[n], employee, date) then Some(ss[n].checkIn) else front
  }

  /** The last clock-out somebody pressed; what the sweep guessed does not count. */
  function LastOut(ss: seq<Session>, employee: int, date: int): Option<int> {
    if ss == [] then None
    else
      var n := |ss| - 1;
      if OfDay(ss[n], employee, date) && ss[n].checkOut.Some? && !ss[n].autoClosed then ss[n].checkOut
      else LastOut(ss[..n], employee, date)
  }

  /** Every day record shows its first punch in and its last punch out, or nothing where
      nobody punched. */
  ghost predicate Summarised(s: Store) {
    && (forall j | 0 <= j < |s.logs| :: s.logs[j].checkIn == FirstIn(s.sessions, s.logs[j].employee, s.logs[j].date))
    && (forall j | 0 <= j < |s.logs| :: s.logs[j].checkOut == LastOut(s.sessions, s.logs[j].employee, s.logs[j].date))
    && (forall i | 0 <= i < |s.sessions| :: !s.sessions[i].autoClosed || s.sessions[i].checkOut.Some?)
  }

  /** Rows that agree on what the two readings look at. */
  ghost predicate Alike(ss: seq<Session>, ts: seq<Session>, employee: int, date: int) {
    && |ss| == |ts|
    && forall i | 0 <= i < |ss| ::
         && OfDay(ss[i], employee, date) == OfDay(ts[i], employee, date) && ss[i].checkIn == ts[i].checkIn
         && (OfDay(ss[i], employee, date) ==>
               (if ss[i].checkOut.Some? && !ss[i].autoClosed then ts[i].checkOut == ss[i].checkOut && !ts[i].autoClosed
                else ts[i].checkOut.None? || ts[i].autoClosed))
  }

  lemma {:induction false} AlikeReadsAlike(ss: seq<Session>, ts: seq<Session>, employee: int, date: int)
    requires Alike(ss, ts, employee, date)
    ensures FirstIn(ss, employee, date) == FirstIn(ts, employee, date)
    ensures LastOut(ss, employee, date) == LastOut(ts, employee, date)
  {
    if ss != [] {
      var n := |ss| - 1;
      assert forall i | 0 <= i < n :: ss[..n][i] == ss[i] && ts[..n][i] == ts[i];
      AlikeReadsAlike(ss[..n], ts[..n], employee, date);
    }
  }

  lemma {:induction false} NothingOfTheDay(ss: seq<Session>, employee: int, date: int)
    requires forall i | 0 <= i < |ss| :: !OfDay(ss[i], employee, date)
    ensures FirstIn(ss, employee, date) == None && LastOut(ss, employee, date) == None
  {
    if ss != [] { NothingOfTheDay(ss[..|ss| - 1], employee, date); }
  }

  lemma OpeningReads(ss: seq<Session>, x: Session, employee: int, date: int)
    requires x.checkOut.None?
    ensures LastOut(ss + [x], employee, date) == LastOut(ss, employee, date)
    ensures FirstIn(ss + [x], employee, date) ==
      if FirstIn(ss, employee, date).None? && OfDay(x, employee, date) then Some(x.checkIn)
      else FirstIn(ss, employee, date)
  {
  }

  /** Closing the last session of a day moves the day's last clock-out. */
  lemma {:induction false} ClosingReads(ss: seq<Session>, i: nat, now: int, employee: int, date: int)
    requires i < |ss| && ss[i].checkOut.None? && !ss[i].autoClosed
    requires forall j | i < j < |ss| :: !OfDay(ss[j], ss[i].employee, ss[i].date)
    ensures var ts := ss[i := ss[i].(checkOut := Some(now))];
      && FirstIn(ts, employee, date) == FirstIn(ss, employee, date)
      && LastOut(ts, employee, date) == if OfDay(ss[i], employee, date) then Some(now) else LastOut(ss, employee, date)
  {
    var n, ts := |ss| - 1, ss[i := ss[i].(checkOut := Some(now))];
    if i < n {
      assert ts[..n] == ss[..n][i := ss[i].(checkOut := Some(now))];
      ClosingReads(ss[..n], i, now, employee, date);
    } else {
      assert ts[..n] == ss[..n];
    }
  }

  /** The session a clock-out closes is the last of its day. */
  lemma OpenIsLast(s: Store, clock: int, i: nat)
    requires Inv(s, clock) && i < |s.sessions| && s.sessions[i].checkOut.None?
    ensures forall j | i < j < |s.sessions| :: !OfDay(s.sessions[j], s.sessions[i].employee, s.sessions[i].date)
  {
  }

  /** Which record a punch writes to. */
  predicate IsOf(l: Log, employee: int, date: int) {
    l.employee == employee && l.date == date
  }

  /** What an accepted clock-in moves. */
  ghost predicate OpensADay(s: Store, t: Store, employee: int, today: int, now: int) {
    && t.sessions == s.sessions + [Session(employee, today, now, None, None, false)]
    && |t.logs| == |s.logs| + (if exists j :: 0 <= j < |s.logs| && IsOf(s.logs[j], employee, today) then 0 else 1)
    && (forall j | 0 <= j < |s.logs| && !IsOf(s.logs[j], employee, today) :: t.logs[j] == s.logs[j])
    && (forall j | 0 <= j < |s.logs| && IsOf(s.logs[j], employee, today) ::
          && IsOf(t.logs[j], employee, today) && t.logs[j].checkOut == s.logs[j].checkOut
          && t.logs[j].source == s.logs[j].source
          && t.logs[j].checkIn == if s.logs[j].checkIn.None? then Some(now) else s.logs[j].checkIn)
    && (|t.logs| > |s.logs| ==>
          && IsOf(t.logs[|s.logs|], employee, today)
          && t.logs[|s.logs|].checkIn == Some(now) && t.logs[|s.logs|].checkOut == None)
  }

  lemma ClockInMoves(s: Store, cfg: Settings, e: Event)
    requires OneRecordPerDay(s.logs) && e.ClockIn? && InReply(s, e) == Done
    ensures OpensADay(s, Next(s, cfg, e), e.employee, e.now / DAY, e.now)
  {
    hide InStatus, OpenIndex, Punched;
  }

  /** An accepted clock-in opens one session, adds a record where the day had none, fills in
      the day's first punch where it was missing, and moves no clock-out and no other day. */
  lemma ClockInSummarises(s: Store, cfg: Settings, e: Event, clock: int)
    requires Inv(s, clock) && Summarised(s) && e.ClockIn? && InReply(s, e) == Done
    ensures Summarised(Next(s, cfg, e))
    ensures OpensADay(s, Next(s, cfg, e), e.employee, e.now / DAY, e.now)
  {
    var t, today := Next(s, cfg, e), e.now / DAY;
    ClockInMoves(s, cfg, e);
    hide Next, InReply, FirstIn, LastOut;
    var x := Session(e.employee, today, e.now, None, None, false);
    if LogIndex(s.logs, e.employee, today).None? {
      forall i | 0 <= i < |s.sessions| ensures !OfDay(s.sessions[i], e.employee, today) {
        assert HasRecord(s.logs, s.sessions[i]);
      }
      NothingOfTheDay(s.sessions, e.employee, today);
    }
    forall j | 0 <= j < |t.logs|
      ensures t.logs[j].checkIn == FirstIn(t.sessions, t.logs[j].employee, t.logs[j].date)
      ensures t.logs[j].checkOut == LastOut(t.sessions, t.logs[j].employee, t.logs[j].date)
    {
      OpeningReads(s.sessions, x, t.logs[j].employee, t.logs[j].date);
    }
  }

  /** An accepted clock-out closes the last session `i` of the day, sets that day's clock-out,
      and moves no other session, column or day. */
  lemma ClockOutSummarises(s: Store, cfg: Settings, e: Event, clock: int) returns (i: nat)
    requires Inv(s, clock) && Summarised(s) && e.ClockOut? && OutReply(s, e) == Done
    ensures Summarised(Next(s, cfg, e))
    ensures i < |s.sessions| && OpenOn(s.sessions[i], e.employee, e.now / DAY)
    ensures forall k | i < k < |s.sessions| :: !OfDay(s.sessions[k], e.employee, e.now / DAY)
    ensures var t := Next(s, cfg, e);
      && t.sessions == s.sessions[i := s.sessions[i].(checkOut := Some(e.now))]
      && |t.logs| == |s.logs|
      && forall j | 0 <= j < |s.logs| :: t.logs[j] ==
           if IsOf(s.logs[j], e.employee, e.now / DAY) then s.logs[j].(checkOut := Some(e.now)) else s.logs[j]
  {
    var t := Next(s, cfg, e);
    i := OpenIndex(s.sessions, e.employee, e.now / DAY, true).value;
    OpenIsLast(s, clock, i);
    forall j | 0 <= j < |t.logs|
      ensures t.logs[j].checkIn == FirstIn(t.sessions, t.logs[j].employee, t.logs[j].date)
      ensures t.logs[j].checkOut == LastOut(t.sessions, t.logs[j].employee, t.logs[j].date)
    {
      ClosingReads(s.sessions, i, e.now, t.logs[j].employee, t.logs[j].date);
    }
  }

  /** Beats and sweeps touch neither column nor either reading. */
  lemma OthersSummarise(s: Store, cfg: Settings, e: Event)
    requires Summarised(s) && (e.Beat? || e.Sweep?)
    ensures Summarised(Next(s, cfg, e))
  {
    var t := Next(s, cfg, e);
    forall j | 0 <= j < |t.logs|
      ensures t.logs[j].checkIn == FirstIn(t.sessions, t.logs[j].employee, t.logs[j].date)
      ensures t.logs[j].checkOut == LastOut(t.sessions, t.logs[j].employee, t.logs[j].date)
    {
      AlikeReadsAlike(s.sessions, t.sessions, t.logs[j].employee, t.logs[j].date);
    }
  }

  /** What somebody writes on a day record says what the day's sessions say. */
  predicate Agrees(s: Store, e: Event)
    requires e.Record?
  {
    && e.checkIn == FirstIn(s.sessions, e.employee, e.date)
    && e.checkOut == LastOut(s.sessions, e.employee, e.date)
  }

  /** Writing a record keeps the columns a summary exactly when the two columns agree with
      the day's sessions. */
  lemma WritingSummarisesExactly(s: Store, cfg: Settings, e: Event)
    requires Summarised(s) && e.Record?
    ensures Summarised(Next(s, cfg, e)) <==> Agrees(s, e)
  {
    var t, i := Next(s, cfg, e), LogIndex(s.logs, e.employee, e.date);
    var j := if i.Some? then i.value else |s.logs|;
    assert t.logs[j] == Log(e.employee, e.date, e.checkIn, e.checkOut, e.status, e.source);
    assert t.sessions == s.sessions;
    if Agrees(s, e) {
      forall k | 0 <= k < |t.logs|
        ensures t.logs[k].checkIn == FirstIn(t.sessions, t.logs[k].employee, t.logs[k].date)
        ensures t.logs[k].checkOut == LastOut(t.sessions, t.logs[k].employee, t.logs[k].date)
      {
        if k != j { assert t.logs[k] == s.logs[k]; }
      }
    }
  }

  /** The absence sweep writes a record, with neither column filled in, for somebody who has
      none that day: it agrees, since nobody punches without getting a record. */
  lemma AbsenceAgrees(s: Store, clock: int, employee: int, date: int, status: Status, now: int)
    requires Inv(s, clock) && LogIndex(s.logs, employee, date).None?
    ensures Agrees(s, Record(employee, date, None, None, status, System, now))
  {
    forall i | 0 <= i < |s.sessions| ensures !OfDay(s.sessions[i], employee, date) {
      assert HasRecord(s.logs, s.sessions[i]);
    }
    NothingOfTheDay(s.sessions, employee, date);
  }

  /** Every record written during the run agrees with the sessions at that moment. */
  ghost predicate WritingsAgree(s: Store, steps: seq<(Settings, Event)>)
    decreases |steps|
  {
    steps == []
    || ((steps[0].1.Record? ==> Agrees(s, steps[0].1)) && WritingsAgree(Next(s, steps[0].0, steps[0].1), steps[1..]))
  }

  ghost predicate SummarisedThroughout(s: Store, steps: seq<(Settings, Event)>)
    decreases |steps|
  {
    Summarised(s) && (steps == [] || SummarisedThroughout(Next(s, steps[0].0, steps[0].1), steps[1..]))
  }

  lemma StepSummarisesExactly(s: Store, cfg: Settings, e: Event, clock: int)
    requires Inv(s, clock) && Summarised(s)
    ensures Summarised(Next(s, cfg, e)) <==> (e.Record? ==> Agrees(s, e))
  {
    match e {
      case ClockIn(_, _, _, _) => if InReply(s, e) == Done { ClockInSummarises(s, cfg, e, clock); }
      case ClockOut(_, _) => if OutReply(s, e) == Done { var _ := ClockOutSummarises(s, cfg, e, clock); }
      case Record(_, _, _, _, _, _, _) => WritingSummarisesExactly(s, cfg, e);
      case _ => OthersSummarise(s, cfg, e);
    }
  }

  /** In every run of punches, beats, sweeps and records written by hand or by the absence
      sweep, each record shows at every moment the first punch in and the last clock-out that
      was pressed, if and only if every record written agrees with the sessions.  A sweep
      fills in a session's end and leaves the record's column as it was. */
  lemma {:induction false} RecordSummarisesSessions(s: Store, steps: seq<(Settings, Event)>, clock: int)
    requires Inv(s, clock) && Summarised(s) && Monotone(steps, clock)
    ensures SummarisedThroughout(s, steps) <==> WritingsAgree(s, steps)
    ensures WritingsAgree(s, steps) ==> Summarised(Run(s, steps))
    decreases |steps|
  {
    if steps != [] {
      var cfg, e := steps[0].0, steps[0].1;
      StepSummarisesExactly(s, cfg, e, clock);
      NextKeepsInv(s, cfg, e, clock);
      if Summarised(Next(s, cfg, e)) { RecordSummarisesSessions(Next(s, cfg, e), steps[1..], e.now); }
    }
  }

  lemma EmptyIsSummarised()
    ensures Summarised(Store([], [])) && Inv(Store([], []), 0)
  {
  }

  // ---------- where the column and the sessions part ----------

  /** The last session of a day that has an end, pressed or guessed. */
  function LastClosed(ss: seq<Session>, employee: int, date: int): Option<Session> {
    if ss == [] then None
    else
      var n := |ss| - 1;
      if OfDay(ss[n], employee, date) && ss[n].checkOut.Some? then Some(ss[n])
      else LastClosed(ss[..n], employee, date)
  }

  /** No clock-out of a day lies after an instant that all its ends precede. */
  lemma {:induction false} LastOutIsBefore(ss: seq<Session>, employee: int, date: int, hi: int)
    requires forall i | 0 <= i < |ss| && OfDay(ss[i], employee, date) && ss[i].checkOut.Some? ::
      ss[i].checkOut.value <= hi
    ensures LastOut(ss, employee, date).Some? ==> LastOut(ss, employee, date).value <= hi
  {
    if ss != [] {
      assert forall i | 0 <= i < |ss| - 1 :: ss[..|ss| - 1][i] == ss[i];
      LastOutIsBefore(ss[..|ss| - 1], employee, date, hi);
    }
  }

  /** The last clock-out pressed is the end of the day's last closed session, unless the sweep
      guessed that end; then only where the guess is an empty stretch begun at the last press. */
  predicate ShowsLastEnd(column: Option<int>, last: Session) {
    last.autoClosed ==> column == Some(last.checkIn) && last.checkOut == Some(last.checkIn)
  }

  lemma {:induction false} LastOutIsLastEndExactly(ss: seq<Session>, employee: int, date: int, clock: int)
    requires SessionsOk(ss, clock)
    ensures var l, out := LastClosed(ss, employee, date), LastOut(ss, employee, date);
      if l.None? then out == None else (out == l.value.checkOut <==> ShowsLastEnd(out, l.value))
  {
    if ss != [] {
      var n := |ss| - 1;
      assert SessionOk(ss[n], clock);
      if OfDay(ss[n], employee, date) && ss[n].checkOut.Some? {
        forall i | 0 <= i < n && OfDay(ss[..n][i], employee, date) && ss[..n][i].checkOut.Some?
          ensures ss[..n][i].checkOut.value <= ss[n].checkIn
        {
          assert InTurn(ss[i], ss[n]);
        }
        LastOutIsBefore(ss[..n], employee, date, ss[n].checkIn);
      } else {
        LastOutIsLastEndExactly(ss[..n], employee, date, clock);
      }
    }
  }

  /** So in every run in which what is written on records agrees with the sessions: a record
      without an ended session shows no clock-out, and otherwise its clock-out is the end of
      the day's last ended session if and only if the sweep did not guess that end, empty
      stretches begun at the last press aside. */
  lemma RecordShowsLastEndExactly(steps: seq<(Settings, Event)>, clock: int, j: nat)
    requires Monotone(steps, clock) && WritingsAgree(Store([], []), steps)
    requires j < |Run(Store([], []), steps).logs|
    ensures var s := Run(Store([], []), steps);
      var log := s.logs[j];
      var l := LastClosed(s.sessions, log.employee, log.date);
      if l.None? then log.checkOut == None
      else (log.checkOut == l.value.checkOut <==> ShowsLastEnd(log.checkOut, l.value))
  {
    var start := Store([], []);
    RecordSummarisesSessions(start, steps, clock);
    RunKeepsInv(start, steps, clock);
    var s := Run(start, steps);
    LastOutIsLastEndExactly(s.sessions, s.logs[j].employee, s.logs[j].date, Clock(steps, clock));
  }

  /** One punch at 09:00 in an office that closes at 18:00, and the next night's sweep: the
      session ends at 18:00 and the day's record shows no clock-out. */
  lemma SweepLeavesColumn()
    ensures var cfg := Settings([], Office(None, Some(18 * 60 * MINUTE), 0, 0));
      var steps := [(cfg, ClockIn(1, 9 * 60 * MINUTE, Web, true)), (cfg, Sweep(1, DAY))];
      var s := Run(Store([], []), steps);
      && Monotone(steps, 0)
      && |s.sessions| == 1 && s.sessions[0].checkOut == Some(18 * 60 * MINUTE)
      && |s.logs| == 1 && s.logs[0].checkIn == Some(9 * 60 * MINUTE) && s.logs[0].checkOut == None
  {
    var cfg := Settings([], Office(None, Some(18 * 60 * MINUTE), 0, 0));
    var nine := 9 * 60 * MINUTE;
    var punch, sweep := (cfg, ClockIn(1, nine, Web, true)), (cfg, Sweep(1, DAY));
    var steps, start := [punch, sweep], Store([], []);
    var after := Next(start, cfg, punch.1);
    assert after == Store([Log(1, 0, Some(nine), None, InStatus(cfg, 1, nine), Web)],
                          [Session(1, 0, nine, None, None, false)]);
    assert steps[1..] == [sweep];
    assert Run(start, steps) == Run(after, [sweep]) == Next(after, cfg, sweep.1);
  }

  // ---------- a judgement stands ----------

  /** The day has been judged: somebody has punched, or it is not marked absent. */
  predicate Judged(s: Store, j: nat)
    requires j < |s.logs|
  {
    !s.logs[j].status.Absent? || Punched(s.sessions, s.logs[j].employee, s.logs[j].date)
  }

  lemma PunchedStays(s: Store, cfg: Settings, e: Event, employee: int, date: int)
    requires Punched(s.sessions, employee, date)
    ensures Punched(Next(s, cfg, e).sessions, employee, date)
  {
    var i :| 0 <= i < |s.sessions| && OfDay(s.sessions[i], employee, date);
    assert OfDay(Next(s, cfg, e).sessions[i], employee, date);
  }

  /** No punch, beat or sweep undoes the status of a judged day, whenever it was set, nor does
      a record written for anybody's other day: only an absence is withdrawn, and only by the
      first punch. */
  lemma {:induction false} JudgementStands(s: Store, steps: seq<(Settings, Event)>, j: nat)
    requires j < |s.logs| && Judged(s, j)
    requires forall i | 0 <= i < |steps| :: steps[i].1.Record? ==>
      steps[i].1.employee != s.logs[j].employee || steps[i].1.date != s.logs[j].date
    ensures var t := Run(s, steps); j < |t.logs| && t.logs[j].status == s.logs[j].status
    ensures var t := Run(s, steps); t.logs[j].employee == s.logs[j].employee && t.logs[j].date == s.logs[j].date
    decreases |steps|
  {
    if steps != [] {
      var cfg, e := steps[0].0, steps[0].1;
      var t := Next(s, cfg, e);
      NextGrowsLogs(s, cfg, e);
      assert t.logs[j].status == s.logs[j].status;
      if s.logs[j].status.Absent? { PunchedStays(s, cfg, e, s.logs[j].employee, s.logs[j].date); }
      JudgementStands(t, steps[1..], j);
    }
  }

  /** The first punch on a day marked absent withdraws the absence. */
  lemma ArrivalWithdrawsAbsence(s: Store, cfg: Settings, employee: int, now: int, source: Source, j: nat)
    requires LogIndex(s.logs, employee, now / DAY) == Some(j) && s.logs[j].status.Absent?
    requires !Punched(s.sessions, employee, now / DAY)
    ensures var t := Next(s, cfg, ClockIn(employee, now, source, true));
      && t.logs[j].status == (if IsLate(cfg.roster, cfg.office, employee, now / DAY, now) then Late else Present)
      && Punched(t.sessions, employee, now / DAY)
  {
    var t := Next(s, cfg, ClockIn(employee, now, source, true));
    assert forall i | 0 <= i < |s.sessions| :: !OfDay(s.sessions[i], employee, now / DAY);
    assert InReply(s, ClockIn(employee, now, source, true)) == Done;
    assert OfDay(t.sessions[|s.sessions|], employee, now / DAY);
  }

  // ---------- each stretch is counted once ----------

  lemma {:induction false} DaySecondsAfterUpdate(ss: seq<Session>, i: nat, x: Session, employee: int, date: int)
    requires i < |ss| && x.employee == ss[i].employee && x.date == ss[i].date
    ensures DaySeconds(ss[i := x], employee, date) ==
      DaySeconds(ss, employee, date) + (if OfDay(x, employee, date) then Seconds(x) - Seconds(ss[i]) else 0)
  {
    var n := |ss| - 1;
    if i < n {
      assert ss[i := x][..n] == ss[..n][i := x];
      DaySecondsAfterUpdate(ss[..n], i, x, employee, date);
    } else {
      assert ss[i := x][..n] == ss[..n];
    }
  }

  /** A clock-out adds its stretch to that person's day and changes no other day of
      anybody; a clock-in and a beat change no total at all. */
  lemma PunchesAddUp(s: Store, cfg: Settings, e: Event, employee: int, date: int)
    requires e.ClockIn? || e.ClockOut? || e.Beat?
    ensures DaySeconds(Next(s, cfg, e).sessions, employee, date) - DaySeconds(s.sessions, employee, date) ==
      if e.ClockOut? && OutReply(s, e) == Done && employee == e.employee && date == e.now / DAY
      then (e.now - s.sessions[OpenIndex(s.sessions, employee, date, true).value].checkIn) / SECOND else 0
  {
    var t := Next(s, cfg, e);
    match e
    case ClockIn(who, now, _, _) =>
      if InReply(s, e) == Done {
        assert t.sessions[..|s.sessions|] == s.sessions;
      }
    case ClockOut(who, now) =>
      if OutReply(s, e) == Done {
        var i := OpenIndex(s.sessions, who, now / DAY, true).value;
        DaySecondsAfterUpdate(s.sessions, i, t.sessions[i], employee, date);
      }
    case Beat(who, now, _) =>
      if t != s {
        var i := OpenIndex(s.sessions, who, now / DAY, false).value;
        DaySecondsAfterUpdate(s.sessions, i, t.sessions[i], employee, date);
      }
  }

  /** A sweep takes nothing off any day and leaves today's total alone. */
  lemma {:induction false} SweepTakesNothing(ss: seq<Session>, today: int, officeEnd: Option<int>,
      employee: int, date: int)
    ensures DaySeconds(Swept(ss, today, officeEnd), employee, date) >= DaySeconds(ss, employee, date)
    ensures date >= today ==> DaySeconds(Swept(ss, today, officeEnd), employee, date) == DaySeconds(ss, employee, date)
  {
    if ss != [] {
      var n := |ss| - 1;
      assert Swept(ss, today, officeEnd)[..n] == Swept(ss[..n], today, officeEnd);
      SweepTakesNothing(ss[..n], today, officeEnd, employee, date);
    }
  }

  // ---------- what each punch is answered, and what it writes ----------

  /** Which sessions of a day are open. */
  ghost predicate ClockedIn(s: Store, employee: int, today: int) {
    exists x | x in s.sessions :: x.employee == employee && x.date == today && x.checkOut.None?
  }

  ghost predicate HasDay(s: Store, employee: int, today: int) {
    exists l | l in s.logs :: l.employee == employee && l.date == today
  }

  /** A clock-in from a source that is allowed is refused exactly while a session of the day
      runs; how often the day was punched before makes no difference. */
  lemma ClockInAnsweredExactly(s: Store, e: Event)
    requires e.ClockIn?
    ensures InReply(s, e) == if !e.allowed then Refused(SourceNotAllowed)
                             else if ClockedIn(s, e.employee, e.now / DAY) then Refused(AlreadyClockedIn) else Done
  {
    var i := OpenIndex(s.sessions, e.employee, e.now / DAY, true);
    if i.Some? { assert s.sessions[i.value] in s.sessions; }
    if x :| x in s.sessions && x.employee == e.employee && x.date == e.now / DAY && x.checkOut.None? {
      var k :| 0 <= k < |s.sessions| && s.sessions[k] == x;
      assert OpenOn(s.sessions[k], e.employee, e.now / DAY);
    }
  }

  /** A clock-out needs a record of the day, then a session that runs, then an instant that
      is not before that session began. */
  lemma ClockOutAnsweredExactly(s: Store, e: Event, clock: int)
    requires Inv(s, clock) && e.ClockOut?
    ensures OutReply(s, e) ==
      if !HasDay(s, e.employee, e.now / DAY) then Refused(NoRecordToday)
      else if !ClockedIn(s, e.employee, e.now / DAY) then Refused(NotClockedIn)
      else if exists x | x in s.sessions ::
        x.employee == e.employee && x.date == e.now / DAY && x.checkOut.None? && e.now < x.checkIn
      then Refused(BeforeClockIn) else Done
  {
    hide InTurn, SessionOk;
    var today := e.now / DAY;
    var j, i := LogIndex(s.logs, e.employee, today), OpenIndex(s.sessions, e.employee, today, true);
    if j.Some? { assert s.logs[j.value] in s.logs; }
    if l :| l in s.logs && l.employee == e.employee && l.date == today {
      var k :| 0 <= k < |s.logs| && s.logs[k] == l;
    }
    if i.Some? { assert s.sessions[i.value] in s.sessions; }
    forall x | x in s.sessions && x.employee == e.employee && x.date == today && x.checkOut.None?
      ensures i.Some? && x == s.sessions[i.value]
    {
      var k :| 0 <= k < |s.sessions| && s.sessions[k] == x;
      assert OpenOn(s.sessions[k], e.employee, today);
      OnlyOpen(s, clock, i.value, k);
    }
  }

  /** Only one session of a day is open. */
  lemma OnlyOpen(s: Store, clock: int, i: nat, k: nat)
    requires Inv(s, clock) && i < |s.sessions| && k < |s.sessions|
    requires s.sessions[i].checkOut.None? && s.sessions[k].checkOut.None?
    requires OfDay(s.sessions[k], s.sessions[i].employee, s.sessions[i].date)
    ensures i == k
  {
    if i < k { OpenIsLast(s, clock, i); }
    if k < i { OpenIsLast(s, clock, k); }
  }

  /** A beat writes one instant on the one session that runs, the instant it was given or the
      clock's, and nothing where none does. */
  lemma BeatIsHeard(s: Store, cfg: Settings, e: Event, clock: int, i: nat)
    requires Inv(s, clock) && e.Beat?
    ensures i < |s.sessions| && OpenOn(s.sessions[i], e.employee, e.now / DAY) ==>
      var seen := match e.at case Some(t) => t case None => e.now;
      Next(s, cfg, e) == Store(s.logs, s.sessions[i := s.sessions[i].(lastSeen := Some(seen))])
    ensures !ClockedIn(s, e.employee, e.now / DAY) ==> Next(s, cfg, e) == s
  {
    hide InTurn, SessionOk;
    var k := OpenIndex(s.sessions, e.employee, e.now / DAY, false);
    if k.Some? { assert s.sessions[k.value] in s.sessions; }
    if i < |s.sessions| && OpenOn(s.sessions[i], e.employee, e.now / DAY) {
      assert HasRecord(s.logs, s.sessions[i]);
      OnlyOpen(s, clock, k.value, i);
    }
  }

  /** A sweep ends exactly the sessions still open from an earlier day, and moves no record. */
  lemma SweepClosesExactly(s: Store, cfg: Settings, today: int, now: int)
    ensures var t := Next(s, cfg, Sweep(today, now));
      && t.logs == s.logs && |t.sessions| == |s.sessions|
      && forall i | 0 <= i < |s.sessions| ::
           if s.sessions[i].checkOut.None? && s.sessions[i].date < today
           then t.sessions[i].checkOut.Some? && t.sessions[i].autoClosed else t.sessions[i] == s.sessions[i]
  {
  }

  ghost function LeftOpen(ss: seq<Session>, today: int): set<int> {
    set i | 0 <= i < |ss| && ss[i].checkOut.None? && ss[i].date < today
  }

  /** What the sweep returns is how many those are. */
  lemma {:induction false} StaleCountIs(ss: seq<Session>, today: int)
    ensures StaleCount(ss, today) == |LeftOpen(ss, today)|
  {
    if ss != [] {
      StaleCountIs(ss[..|ss| - 1], today);
      LeftOpenGrows(ss, today);
    }
  }

  lemma LeftOpenGrows(ss: seq<Session>, today: int)
    requires ss != []
    ensures var n := |ss| - 1;
      |LeftOpen(ss, today)| == |LeftOpen(ss[..n], today)| + if ss[n].checkOut.None? && ss[n].date < today then 1 else 0
  {
    var n := |ss| - 1;
    assert forall i | 0 <= i < n :: ss[..n][i] == ss[i];
    assert LeftOpen(ss, today) - {n} == LeftOpen(ss[..n], today);
    assert n !in LeftOpen(ss[..n], today);
    if n in LeftOpen(ss, today) { assert LeftOpen(ss, today) == LeftOpen(ss[..n], today) + {n}; }
    else { assert LeftOpen(ss, today) == LeftOpen(ss[..n], today); }
  }

  /** A record written by hand or by the absence sweep is what was written, and no session and
      no other day moves. */
  lemma WrittenExactly(s: Store, cfg: Settings, e: Event)
    requires OneRecordPerDay(s.logs) && e.Record?
    ensures var t := Next(s, cfg, e);
      && t.sessions == s.sessions
      && (forall l | l in t.logs && IsOf(l, e.employee, e.date) ::
            l == Log(e.employee, e.date, e.checkIn, e.checkOut, e.status, e.source))
      && HasDay(t, e.employee, e.date)
      && forall l | !IsOf(l, e.employee, e.date) :: l in t.logs <==> l in s.logs
  {
    var t, j := Next(s, cfg, e), LogIndex(s.logs, e.employee, e.date);
    var n := if j.Some? then j.value else |s.logs|;
    assert t.logs[n] in t.logs;
    forall l | l in t.logs && IsOf(l, e.employee, e.date) ensures l == t.logs[n] {
      var k :| 0 <= k < |t.logs| && t.logs[k] == l;
    }
    forall l | l in s.logs && !IsOf(l, e.employee, e.date) ensures l in t.logs {
      var k :| 0 <= k < |s.logs| && s.logs[k] == l;
      assert t.logs[k] == l;
    }
    forall l | l in t.logs && !IsOf(l, e.employee, e.date) ensures l in s.logs {
      var k :| 0 <= k < |t.logs| && t.logs[k] == l;
      assert s.logs[k] == l;
    }
  }

  /** What a start and a grace make of an instant of the day; the threshold is a time of day. */
  predicate Judges(status: Status, start: int, graceMinutes: int, sinceMidnight: int) {
    status == if sinceMidnight > (start + graceMinutes * MINUTE) % DAY then Late else Present
  }

  /** The status a punch earns, by the hours that apply on the day. */
  predicate Earned(cfg: Settings, a: Option<Assignment>, status: Status, sinceMidnight: int) {
    match a
    case Some(x) => Judges(status, x.shift.start, x.shift.graceMinutes, sinceMidnight)
    case None =>
      if cfg.office.start.None? then status == Present
      else Judges(status, cfg.office.start.value, cfg.office.graceMinutes, sinceMidnight)
  }

  lemma EarnedIs(cfg: Settings, employee: int, now: int, a: Option<Assignment>)
    requires OneCovering(cfg.roster, employee, now / DAY, a)
    ensures Earned(cfg, a, InStatus(cfg, employee, now), now - now / DAY * DAY)
  {
    hide Pick, OneCovering;
    OneCoveringIsPicked(cfg.roster, employee, now / DAY, a);
    SinceMidnight(now);
  }

  lemma SinceMidnight(now: int)
    ensures now % DAY == now - now / DAY * DAY
  {
  }

  /** The record after the first punch of a day that had none, or had an absence.  Under the
      one assignment that covers the day it says late exactly when the punch comes after that
      shift's start and grace; where none does, the office's start and grace decide, and
      without a start nobody is late.  A new record keeps the source of the punch. */
  lemma FirstPunchIsJudgedExactly(s: Store, cfg: Settings, e: Event, a: Option<Assignment>) returns (j: nat)
    requires OneRecordPerDay(s.logs) && e.ClockIn? && e.allowed
    requires forall x | x in s.sessions :: x.employee != e.employee || x.date != e.now / DAY
    requires forall l | l in s.logs && IsOf(l, e.employee, e.now / DAY) :: l.status == Absent
    requires OneCovering(cfg.roster, e.employee, e.now / DAY, a)
    ensures var t, today := Next(s, cfg, e), e.now / DAY;
      && j < |t.logs| && IsOf(t.logs[j], e.employee, today)
      && (!HasDay(s, e.employee, today) ==> t.logs[j].source == e.source)
      && Earned(cfg, a, t.logs[j].status, e.now - today * DAY)
  {
    hide InStatus, Earned, OneCovering;
    var today := e.now / DAY;
    EarnedIs(cfg, e.employee, e.now, a);
    ClockInAnsweredExactly(s, e);
    assert !ClockedIn(s, e.employee, today);
    var k := LogIndex(s.logs, e.employee, today);
    if k.Some? { assert s.logs[k.value] in s.logs; }
    j := if k.Some? then k.value else |s.logs|;
    forall i | 0 <= i < |s.sessions| ensures !OfDay(s.sessions[i], e.employee, today) {
      assert s.sessions[i] in s.sessions;
    }
    if !HasDay(s, e.employee, today) { assert k.None?; }
    if k.None? { NoDay(s, e.employee, today); }
    hide InReply, ClockedIn;
  }

  lemma NoDay(s: Store, employee: int, today: int)
    requires LogIndex(s.logs, employee, today).None?
    ensures !HasDay(s, employee, today)
  {
  }

  /** A session's seconds are those between its ends, cut off toward zero, and none while it
      runs. */
  lemma SecondsAreCut(x: Session)
    ensures x.checkOut.None? ==> Seconds(x) == 0
    ensures x.checkOut.Some? ==>
      var t, n := x.checkOut.value - x.checkIn, Seconds(x) * SECOND;
      if t >= 0 then n <= t < n + SECOND else n - SECOND < t <= n
  {
  }
}
