/** Clocking in and out (backend/attendance/punches.py) over the day records and sessions
    of backend/attendance/models.py.

    Instants are microseconds on the company's local timeline, so a day is a block of
    `DAY` microseconds.  The class below holds the two tables; its methods are proved
    against `Next`, and the invariant is carried over whole runs of `Next`. */
module Punches {
  import opened Options
  import opened Roster
  import opened Ordering
  import opened Sums

  datatype Status = Present | Late | Absent | HalfDay
  datatype Source = Web | Manual | Biometric | System

  datatype Log = Log(employee: int, date: int, checkIn: Option<int>, checkOut: Option<int>,
    status: Status, source: Source)

  /** A stretch of work.  `(employee, date)` is the foreign key to its day record. */
  datatype Session = Session(employee: int, date: int, checkIn: int, checkOut: Option<int>,
    lastSeen: Option<int>, autoClosed: bool)

  datatype Store = Store(logs: seq<Log>, sessions: seq<Session>)

  datatype Settings = Settings(roster: seq<Assignment>, office: Office)

  predicate OfDay(s: Session, employee: int, date: int) {
    s.employee == employee && s.date == date
  }

  predicate OpenOn(s: Session, employee: int, date: int) {
    OfDay(s, employee, date) && s.checkOut.None?
  }

  /** `filter(employee, date).first()`, unique by the table's constraint. */
  function LogIndex(logs: seq<Log>, employee: int, date: int): (r: Option<nat>)
    ensures r.None? <==> forall i | 0 <= i < |logs| :: !(logs[i].employee == employee && logs[i].date == date)
    ensures r.Some? ==> r.value < |logs| && logs[r.value].employee == employee && logs[r.value].date == date
  {
    if logs == [] then None
    else
      var n := |logs| - 1;
      var front := LogIndex(logs[..n], employee, date);
      assert forall i | 0 <= i < n :: logs[..n][i] == logs[i];
      if front.Some? then front
      else if logs[n].employee == employee && logs[n].date == date then Some(n) else None
  }

  /** The open session of a day: the latest by clock-in, or the earliest. */
  function OpenIndex(ss: seq<Session>, employee: int, date: int, latest: bool): (r: Option<nat>)
    ensures r.None? <==> forall i | 0 <= i < |ss| :: !OpenOn(ss[i], employee, date)
    ensures r.Some? ==> r.value < |ss| && OpenOn(ss[r.value], employee, date)
    ensures r.Some? ==> forall i | 0 <= i < |ss| :: OpenOn(ss[i], employee, date) ==>
      if latest then ss[i].checkIn <= ss[r.value].checkIn else ss[r.value].checkIn <= ss[i].checkIn
  {
    if ss == [] then None
    else
      var n := |ss| - 1;
      var front := OpenIndex(ss[..n], employee, date, latest);
      assert forall i | 0 <= i < n :: ss[..n][i] == ss[i];
      if OpenOn(ss[n], employee, date)
         && (front.None?
           || (if latest then ss[front.value].checkIn < ss[n].checkIn else ss[n].checkIn < ss[front.value].checkIn))
      then Some(n) else front
  }

  predicate Punched(ss: seq<Session>, employee: int, date: int) {
    exists i | 0 <= i < |ss| :: OfDay(ss[i], employee, date)
  }

  /** `seconds_worked`: whole seconds of a closed session, truncated toward zero. */
  function Seconds(s: Session): int {
    if s.checkOut.None? then 0
    else
      var t := s.checkOut.value - s.checkIn;
      if t >= 0 then t / SECOND else -(-t / SECOND)
  }

  /** The day's total: the sum over its sessions. */
  function DaySeconds(ss: seq<Session>, employee: int, date: int): int {
    if ss == [] then 0
    else
      var n := |ss| - 1;
      DaySeconds(ss[..n], employee, date) + (if OfDay(ss[n], employee, date) then Seconds(ss[n]) else 0)
  }

  /** Where the sweep stops a forgotten clock: the last beat, else the office's end, else
      23:59; never before the clock-in. */
  function ClosingTime(s: Session, officeEnd: Option<int>): int {
    var candidate :=
      if s.lastSeen.Some? && s.lastSeen.value > s.checkIn then s.lastSeen.value
      else s.date * DAY + (if officeEnd.Some? then officeEnd.value else (23 * 60 + 59) * MINUTE);
    if candidate <= s.checkIn then s.checkIn else candidate
  }

  predicate Stale(s: Session, today: int) {
    s.checkOut.None? && s.date < today
  }

  function SweptRow(s: Session, today: int, officeEnd: Option<int>): Session {
    if Stale(s, today) then s.(checkOut := Some(ClosingTime(s, officeEnd)), autoClosed := true) else s
  }

  function Swept(ss: seq<Session>, today: int, officeEnd: Option<int>): (r: seq<Session>)
    ensures |r| == |ss| && forall i | 0 <= i < |ss| :: r[i] == SweptRow(ss[i], today, officeEnd)
  {
    seq(|ss|, i requires 0 <= i < |ss| => SweptRow(ss[i], today, officeEnd))
  }

  function StaleCount(ss: seq<Session>, today: int): nat {
    if ss == [] then 0 else StaleCount(ss[..|ss| - 1], today) + (if Stale(ss[|ss| - 1], today) then 1 else 0)
  }

  // ---------- one step ----------

  datatype Event =
    | ClockIn(employee: int, now: int, source: Source, allowed: bool)
    | ClockOut(employee: int, now: int)
    | Beat(employee: int, now: int, at: Option<int>)
    | Sweep(today: int, now: int)
    | Record(employee: int, date: int, checkIn: Option<int>, checkOut: Option<int>,
      status: Status, source: Source, now: int)

  datatype Refusal = SourceNotAllowed | AlreadyClockedIn | NoRecordToday | NotClockedIn | BeforeClockIn
  datatype Reply = Done | Refused(why: Refusal)

  function InStatus(cfg: Settings, employee: int, now: int): Status {
    if IsLate(cfg.roster, cfg.office, employee, now / DAY, now) then Late else Present
  }

  function InReply(s: Store, e: Event): Reply
    requires e.ClockIn?
  {
    if !e.allowed then Refused(SourceNotAllowed)
    else if OpenIndex(s.sessions, e.employee, e.now / DAY, true).Some? then Refused(AlreadyClockedIn)
    else Done
  }

  function OutReply(s: Store, e: Event): Reply
    requires e.ClockOut?
  {
    var today := e.now / DAY;
    var i := OpenIndex(s.sessions, e.employee, today, true);
    if LogIndex(s.logs, e.employee, today).None? then Refused(NoRecordToday)
    else if i.None? then Refused(NotClockedIn)
    else if e.now < s.sessions[i.value].checkIn then Refused(BeforeClockIn)
    else Done
  }

  /** The day table after a clock-in: a new record, or the existing one with a missing
      first punch filled in and an absence withdrawn on the first punch. */
  function LogsAfterIn(s: Store, cfg: Settings, e: Event): seq<Log>
    requires e.ClockIn?
  {
    var today := e.now / DAY;
    var j := LogIndex(s.logs, e.employee, today);
    if j.None? then s.logs + [Log(e.employee, today, Some(e.now), None, InStatus(cfg, e.employee, e.now), e.source)]
    else
      var l := s.logs[j.value];
      s.logs[j.value := l.(
        checkIn := if l.checkIn.None? then Some(e.now) else l.checkIn,
        status := if l.status.Absent? && !Punched(s.sessions, e.employee, today)
          then InStatus(cfg, e.employee, e.now) else l.status)]
  }

  function Next(s: Store, cfg: Settings, e: Event): Store {
    match e
    case ClockIn(employee, now, _, _) =>
      if InReply(s, e) != Done then s
      else Store(LogsAfterIn(s, cfg, e), s.sessions + [Session(employee, now / DAY, now, None, None, false)])
    case ClockOut(employee, now) =>
      if OutReply(s, e) != Done then s
      else
        var j, i := LogIndex(s.logs, employee, now / DAY).value, OpenIndex(s.sessions, employee, now / DAY, true).value;
        Store(s.logs[j := s.logs[j].(checkOut := Some(now))], s.sessions[i := s.sessions[i].(checkOut := Some(now))])
    case Beat(employee, now, at) =>
      var i := OpenIndex(s.sessions, employee, now / DAY, false);
      if LogIndex(s.logs, employee, now / DAY).None? || i.None? then s
      else
        var seen := if at.Some? then at.value else now;
        s.(sessions := s.sessions[i.value := s.sessions[i.value].(lastSeen := Some(seen))])
    case Sweep(today, _) => s.(sessions := Swept(s.sessions, today, cfg.office.end))
    case Record(employee, date, checkIn, checkOut, status, source, _) =>
      // HR corrections and the absence sweep write the day record, never a session.
      var j, l := LogIndex(s.logs, employee, date), Log(employee, date, checkIn, checkOut, status, source);
      s.(logs := if j.None? then s.logs + [l] else s.logs[j.value := l])
  }

  /** A run under settings that may change between steps. */
  function Run(s: Store, steps: seq<(Settings, Event)>): Store
    decreases |steps|
  {
    if steps == [] then s else Run(Next(s, steps[0].0, steps[0].1), steps[1..])
  }

  // ---------- the tables, updated in place ----------

  /** One day as the clock widget and the month list show it. */
  datatype DayShape = DayShape(sessions: seq<Session>, secondsWorked: int, openSince: Option<int>,
    clockedIn: bool, punches: nat)

  datatype DaySummary = DaySummary(date: int, status: Option<Status>, day: DayShape, workingDaySeconds: Option<int>)

  datatype HistoryRow = HistoryRow(date: int, status: Status, day: DayShape)

  const NO_DAY := DayShape([], 0, None, false, 0)

  function OfDayRows(ss: seq<Session>, employee: int, date: int): seq<Session> {
    if ss == [] then []
    else
      var n := |ss| - 1;
      OfDayRows(ss[..n], employee, date) + (if OfDay(ss[n], employee, date) then [ss[n]] else [])
  }

  function CheckIn(s: Session): int {
    s.checkIn
  }

  /** `log.sessions.all()`, in the order of their clock-ins. */
  function DaySessions(ss: seq<Session>, employee: int, date: int): seq<Session> {
    OrderBy(OfDayRows(ss, employee, date), CheckIn)
  }

  /** `next((s for s in sessions if s.is_open), None)`. */
  function FirstOpen(rows: seq<Session>): (r: Option<Session>)
    ensures r.None? <==> forall i | 0 <= i < |rows| :: rows[i].checkOut.Some?
    ensures r.Some? ==> exists i :: 0 <= i < |rows| && r.value == rows[i] && rows[i].checkOut.None?
                                    && forall j | 0 <= j < i :: rows[j].checkOut.Some?
  {
    if rows == [] then None
    else if rows[0].checkOut.None? then Some(rows[0])
    else
      assert forall i | 1 <= i < |rows| :: rows[i] == rows[1..][i - 1];
      FirstOpen(rows[1..])
  }

  function ShapeOf(rows: seq<Session>): DayShape {
    var open := FirstOpen(rows);
    DayShape(rows, Total(rows, Seconds), if open.Some? then Some(open.value.checkIn) else None, open.Some?, |rows|)
  }

  lemma {:induction false} DayRowsAddUp(ss: seq<Session>, employee: int, date: int)
    ensures Total(OfDayRows(ss, employee, date), Seconds) == DaySeconds(ss, employee, date)
  {
    if ss != [] {
      var n := |ss| - 1;
      var front := OfDayRows(ss[..n], employee, date);
      DayRowsAddUp(ss[..n], employee, date);
      assert (front + [ss[n]])[..|front|] == front && front + [] == front;
    }
  }

  lemma {:induction false} DayRowsAre(ss: seq<Session>, employee: int, date: int, s: Session)
    ensures multiset(OfDayRows(ss, employee, date))[s] == if OfDay(s, employee, date) then multiset(ss)[s] else 0
  {
    if ss != [] {
      var n := |ss| - 1;
      DayRowsAre(ss[..n], employee, date, s);
      assert ss == ss[..n] + [ss[n]];
    }
  }

  /** The shape of a day: its own sessions and no others, each as often as it is on file, in
      the order of their clock-ins; their number; the day's total; and since when the
      earliest open one runs, if any does. */
  lemma DayShapeIsTheDay(ss: seq<Session>, employee: int, date: int)
    ensures var d := ShapeOf(DaySessions(ss, employee, date));
      && SortedBy(d.sessions, CheckIn) && d.punches == |d.sessions|
      && (forall s :: multiset(d.sessions)[s] == if OfDay(s, employee, date) then multiset(ss)[s] else 0)
      && d.secondsWorked == DaySeconds(ss, employee, date)
      && (d.clockedIn <==> exists i | 0 <= i < |ss| :: OpenOn(ss[i], employee, date))
      && (d.openSince.Some? <==> d.clockedIn)
      && var i := OpenIndex(ss, employee, date, false);
         d.openSince == if i.Some? then Some(ss[i.value].checkIn) else None
  {
    var rows, all := OfDayRows(ss, employee, date), DaySessions(ss, employee, date);
    OrderByOrders(rows, CheckIn);
    OrderByTotals(rows, CheckIn, Seconds);
    DayRowsAddUp(ss, employee, date);
    forall s ensures multiset(all)[s] == if OfDay(s, employee, date) then multiset(ss)[s] else 0 {
      DayRowsAre(ss, employee, date, s);
    }
    forall s ensures s in all <==> s in ss && OfDay(s, employee, date) {
      assert (s in all <==> s in multiset(all)) && (s in ss <==> s in multiset(ss));
    }
    EarliestIsFirst(ss, all, employee, date);
  }

  lemma EarliestIsFirst(ss: seq<Session>, all: seq<Session>, employee: int, date: int)
    requires SortedBy(all, CheckIn)
    requires forall s :: s in all <==> s in ss && OfDay(s, employee, date)
    ensures var i, open := OpenIndex(ss, employee, date, false), FirstOpen(all);
      if i.Some? then open.Some? && open.value.checkIn == ss[i.value].checkIn else open.None?
  {
    hide OpenIndex, FirstOpen;
    var i, open := OpenIndex(ss, employee, date, false), FirstOpen(all);
    if i.Some? {
      assert ss[i.value] in all;
      var m :| 0 <= m < |all| && all[m] == ss[i.value];
      var k :| 0 <= k < |all| && open.value == all[k] && all[k].checkOut.None?
               && forall j | 0 <= j < k :: all[j].checkOut.Some?;
      assert k <= m && CheckIn(all[k]) <= CheckIn(all[m]);
      assert all[k] in ss;
      var n :| 0 <= n < |ss| && ss[n] == all[k];
      assert OpenOn(ss[n], employee, date);
    } else {
      forall k | 0 <= k < |all| ensures all[k].checkOut.Some? {
        assert all[k] in ss;
        var n :| 0 <= n < |ss| && ss[n] == all[k];
        assert !OpenOn(ss[n], employee, date);
      }
    }
  }

  // ---------- the month list ----------

  predicate InRange(l: Log, employee: int, start: int, end: int) {
    l.employee == employee && start <= l.date <= end
  }

  function RangeRows(logs: seq<Log>, employee: int, start: int, end: int): seq<Log> {
    if logs == [] then []
    else
      var n := |logs| - 1;
      RangeRows(logs[..n], employee, start, end) + (if InRange(logs[n], employee, start, end) then [logs[n]] else [])
  }

  function LatestFirst(l: Log): int {
    -l.date
  }

  /** `filter(employee, date__gte, date__lte).order_by("-date")`. */
  function LogsOfRange(logs: seq<Log>, employee: int, start: int, end: int): seq<Log> {
    OrderBy(RangeRows(logs, employee, start, end), LatestFirst)
  }

  function RowOf(l: Log, ss: seq<Session>): HistoryRow {
    HistoryRow(l.date, l.status, ShapeOf(DaySessions(ss, l.employee, l.date)))
  }

  function RowsOf(logs: seq<Log>, ss: seq<Session>): (r: seq<HistoryRow>)
    ensures |r| == |logs| && forall i | 0 <= i < |logs| :: r[i] == RowOf(logs[i], ss)
  {
    seq(|logs|, i requires 0 <= i < |logs| => RowOf(logs[i], ss))
  }

  function History(logs: seq<Log>, ss: seq<Session>, employee: int, start: int, end: int): seq<HistoryRow> {
    RowsOf(LogsOfRange(logs, employee, start, end), ss)
  }

  function RowSeconds(r: HistoryRow): int {
    r.day.secondsWorked
  }

  function HistorySeconds(ss: seq<Session>, employee: int, start: int, end: int): Log -> int {
    (l: Log) => if InRange(l, employee, start, end) then DaySeconds(ss, employee, l.date) else 0
  }

  function Counted(employee: int, start: int, end: int): Log -> int {
    (l: Log) => if InRange(l, employee, start, end) then 1 else 0
  }

  lemma {:induction false} RangeRowsTotal(logs: seq<Log>, ss: seq<Session>, employee: int, start: int, end: int)
    ensures |RangeRows(logs, employee, start, end)| == Total(logs, Counted(employee, start, end))
    ensures Total(RangeRows(logs, employee, start, end), HistorySeconds(ss, employee, start, end)) ==
            Total(logs, HistorySeconds(ss, employee, start, end))
  {
    hide DaySeconds;
    if logs != [] {
      var n := |logs| - 1;
      var front := RangeRows(logs[..n], employee, start, end);
      RangeRowsTotal(logs[..n], ss, employee, start, end);
      if InRange(logs[n], employee, start, end) {
        assert (front + [logs[n]])[..|front|] == front;
      } else {
        assert front + [] == front;
      }
    }
  }

  lemma {:induction false} RangeRowsAre(logs: seq<Log>, employee: int, start: int, end: int, l: Log)
    ensures l in RangeRows(logs, employee, start, end) <==> l in logs && InRange(l, employee, start, end)
  {
    if logs != [] {
      var n := |logs| - 1;
      RangeRowsAre(logs[..n], employee, start, end, l);
      assert logs == logs[..n] + [logs[n]];
    }
  }

  lemma {:induction false} RowsTotal(logs: seq<Log>, ss: seq<Session>, employee: int, start: int, end: int)
    requires forall i | 0 <= i < |logs| :: InRange(logs[i], employee, start, end)
    ensures Total(RowsOf(logs, ss), RowSeconds) == Total(logs, HistorySeconds(ss, employee, start, end))
  {
    if logs != [] {
      var n := |logs| - 1;
      RowsTotal(logs[..n], ss, employee, start, end);
      assert RowsOf(logs, ss)[..n] == RowsOf(logs[..n], ss);
      DayShapeIsTheDay(ss, employee, logs[n].date);
    }
  }

  lemma LogsOfRangeAre(logs: seq<Log>, employee: int, start: int, end: int)
    ensures var found := LogsOfRange(logs, employee, start, end);
      && SortedBy(found, LatestFirst)
      && forall l :: l in found <==> l in logs && InRange(l, employee, start, end)
  {
    var rows, found := RangeRows(logs, employee, start, end), LogsOfRange(logs, employee, start, end);
    OrderByOrders(rows, LatestFirst);
    forall l ensures l in found <==> l in logs && InRange(l, employee, start, end) {
      RangeRowsAre(logs, employee, start, end, l);
      assert (l in found <==> l in multiset(found)) && (l in rows <==> l in multiset(rows));
    }
  }

  /** One row for each record of the range, and their seconds total those of the days. */
  lemma HistoryTotals(logs: seq<Log>, ss: seq<Session>, employee: int, start: int, end: int)
    ensures |History(logs, ss, employee, start, end)| == Total(logs, Counted(employee, start, end))
    ensures Total(History(logs, ss, employee, start, end), RowSeconds)
      == Total(logs, HistorySeconds(ss, employee, start, end))
  {
    var rows, found := RangeRows(logs, employee, start, end), LogsOfRange(logs, employee, start, end);
    OrderByOrders(rows, LatestFirst);
    OrderByTotals(rows, LatestFirst, HistorySeconds(ss, employee, start, end));
    RangeRowsTotal(logs, ss, employee, start, end);
    LogsOfRangeAre(logs, employee, start, end);
    forall i | 0 <= i < |found| ensures InRange(found[i], employee, start, end) { assert found[i] in found; }
    RowsTotal(found, ss, employee, start, end);
  }

  /** The rows are the employee's records of the range, each with its day, and no others;
      the newest day comes first. */
  lemma HistoryIsTheRecords(logs: seq<Log>, ss: seq<Session>, employee: int, start: int, end: int, r: HistoryRow)
    ensures r in History(logs, ss, employee, start, end) <==>
      exists l | l in logs :: l.employee == employee && start <= l.date <= end
        && r == HistoryRow(l.date, l.status, ShapeOf(DaySessions(ss, employee, l.date)))
    ensures var rows := History(logs, ss, employee, start, end);
      forall i, j | 0 <= i < j < |rows| :: rows[j].date <= rows[i].date
  {
    var found := LogsOfRange(logs, employee, start, end);
    LogsOfRangeAre(logs, employee, start, end);
    var rows := RowsOf(found, ss);
    if r in rows {
      var i :| 0 <= i < |rows| && rows[i] == r;
      assert found[i] in found;
    }
    if l :| l in logs && l.employee == employee && start <= l.date <= end
            && r == HistoryRow(l.date, l.status, ShapeOf(DaySessions(ss, employee, l.date))) {
      var i :| 0 <= i < |found| && found[i] == l;
      assert rows[i] == r;
    }
    forall i, j | 0 <= i < j < |rows| ensures rows[j].date <= rows[i].date {
      assert LatestFirst(found[i]) <= LatestFirst(found[j]);
    }
  }

  class Attendance {
    var logs: seq<Log>
    var sessions: seq<Session>

    ghost function Tables(): Store
      reads this
    {
      Store(logs, sessions)
    }

    constructor ()
      ensures Tables() == Store([], [])
    {
      logs, sessions := [], [];
    }

    method OpenSession(cfg: Settings, employee: int, now: int, source: Source, allowed: bool) returns (r: Reply)
      modifies this
      ensures r == InReply(old(Tables()), ClockIn(employee, now, source, allowed))
      ensures Tables() == Next(old(Tables()), cfg, ClockIn(employee, now, source, allowed))
    {
      if !allowed { return Refused(SourceNotAllowed); }
      var today := now / DAY;
      var existing := LogIndex(logs, employee, today);
      var isOpen := OpenIndex(sessions, employee, today, true);
      if isOpen.Some? { return Refused(AlreadyClockedIn); } // the transaction rolls back
      var first := !Punched(sessions, employee, today);
      sessions := sessions + [Session(employee, today, now, None, None, false)];
      if existing.None? {
        logs := logs + [Log(employee, today, Some(now), None, InStatus(cfg, employee, now), source)];
      } else {
        var l := logs[existing.value];
        if l.checkIn.None? { l := l.(checkIn := Some(now)); }
        if l.status.Absent? && first { l := l.(status := InStatus(cfg, employee, now)); }
        logs := logs[existing.value := l];
      }
      return Done;
    }

    method CloseSession(cfg: Settings, employee: int, now: int) returns (r: Reply)
      modifies this
      ensures r == OutReply(old(Tables()), ClockOut(employee, now))
      ensures Tables() == Next(old(Tables()), cfg, ClockOut(employee, now))
    {
      var today := now / DAY;
      var j := LogIndex(logs, employee, today);
      if j.None? { return Refused(NoRecordToday); }
      var i := OpenIndex(sessions, employee, today, true);
      if i.None? { return Refused(NotClockedIn); }
      var session := sessions[i.value];
      if now < session.checkIn { return Refused(BeforeClockIn); }
      sessions := sessions[i.value := session.(checkOut := Some(now))];
      logs := logs[j.value := logs[j.value].(checkOut := Some(now))];
      return Done;
    }

    /** A heartbeat, at the clock's instant unless another is given; it marks the open
        session and closes nothing. */
    method RecordPresence(cfg: Settings, employee: int, at: Option<int>, now: int) returns (marked: bool)
      modifies this
      ensures Tables() == Next(old(Tables()), cfg, Beat(employee, now, at))
      ensures marked <==> LogIndex(old(logs), employee, now / DAY).Some?
                          && exists i | 0 <= i < |old(sessions)| :: OpenOn(old(sessions)[i], employee, now / DAY)
    {
      var seen := if at.Some? then at.value else now;
      var today := now / DAY;
      if LogIndex(logs, employee, today).None? { return false; }
      var i := OpenIndex(sessions, employee, today, false);
      if i.None? { return false; }
      sessions := sessions[i.value := sessions[i.value].(lastSeen := Some(seen))];
      return true;
    }

    method CloseStaleSessions(cfg: Settings, today: int) returns (closed: nat)
      modifies this
      ensures forall now :: Tables() == Next(old(Tables()), cfg, Sweep(today, now))
      ensures closed == StaleCount(old(sessions), today)
    {
      closed := 0;
      ghost var before := sessions;
      for i := 0 to |sessions|
        invariant logs == old(logs) && |sessions| == |before|
        invariant forall k | 0 <= k < i :: sessions[k] == SweptRow(before[k], today, cfg.office.end)
        invariant forall k | i <= k < |before| :: sessions[k] == before[k]
        invariant closed == StaleCount(before[..i], today)
      {
        assert before[..i + 1][..i] == before[..i];
        if Stale(sessions[i], today) {
          sessions := sessions[i := sessions[i].(checkOut := Some(ClosingTime(sessions[i], cfg.office.end)),
            autoClosed := true)];
          closed := closed + 1;
        }
      }
      assert before[..|before|] == before;
      assert sessions == Swept(before, today, cfg.office.end);
    }

    /** The clock widget's read: sweeps first, then reports the day. */
    method Summary(cfg: Settings, employee: int, date: int) returns (r: DaySummary)
      modifies this
      ensures forall now :: Tables() == Next(old(Tables()), cfg, Sweep(date, now))
      ensures r.date == date && r.workingDaySeconds == WorkingDaySeconds(cfg.roster, cfg.office, employee, date)
      ensures var j := LogIndex(logs, employee, date);
        if j.None? then r.status == None && r.day == NO_DAY
        else r.status == Some(logs[j.value].status) && r.day == ShapeOf(DaySessions(sessions, employee, date))
    {
      var _ := CloseStaleSessions(cfg, date);
      var working := WorkingDaySeconds(cfg.roster, cfg.office, employee, date);
      var j := LogIndex(logs, employee, date);
      if j.None? { return DaySummary(date, None, NO_DAY, working); }
      r := DaySummary(date, Some(logs[j.value].status), ShapeOf(DaySessions(sessions, employee, date)), working);
    }

    /** The same day shape for a range: one row for each record in it, newest first. */
    method DayHistory(employee: int, start: int, end: int) returns (out: seq<HistoryRow>)
      ensures out == History(logs, sessions, employee, start, end)
    {
      var found := LogsOfRange(logs, employee, start, end);
      out := [];
      for n := 0 to |found|
        invariant out == RowsOf(found[..n], sessions)
      {
        out := out + [HistoryRow(found[n].date, found[n].status,
                                 ShapeOf(DaySessions(sessions, found[n].employee, found[n].date)))];
      }
      assert found[..|found|] == found;
    }
  }
}
