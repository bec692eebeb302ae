/** What each figure of the summary is, counted from the rows themselves: dates, half days of
    leave and nights as the sizes of sets, hours from the sessions
    (backend/attendance/payroll_summary.py). */
module PayrollFigures {
  import opened Options
  import opened Roster
  import opened Punches
  import opened PunchRuns
  import opened PayrollSummary
  import opened PayrollLaws
  import opened Sums

  /** The company works the day: it is no holiday, and some weekday of its week falls on it.
      Day 1 is a Monday, weekday 1. */
  ghost predicate Works(books: Books, day: int) {
    && day !in books.holidays
    && (books.week.Some? ==> exists w | w in books.week.value :: 1 <= w <= 7 && (day - w) % 7 == 0)
  }

  lemma WorksIs(books: Books, day: int)
    ensures IsWorkingDay(books, day) <==> Works(books, day)
  {
    if books.week.Some? {
      var w := (day - 1) % 7 + 1;
      assert (day - w) % 7 == 0;
      forall v | v in books.week.value && 1 <= v <= 7 && (day - v) % 7 == 0 ensures v == w { }
    }
  }

  /** A day of the window that may be charged. */
  ghost predicate Charged(books: Books, wo: bool, a: int, b: int, day: int) {
    a <= day <= b && (wo ==> Works(books, day))
  }

  lemma ChargedIs(books: Books, wo: bool, a: int, b: int, day: int)
    ensures Charged(books, wo, a, b, day) <==> a <= day <= b && Chargeable(books, wo, day)
  {
    WorksIs(books, day);
  }

  lemma AllChargedIs(books: Books, wo: bool, a: int, b: int)
    ensures forall d :: Charged(books, wo, a, b, d) <==> a <= d <= b && Chargeable(books, wo, d)
  {
    forall d ensures Charged(books, wo, a, b, d) <==> a <= d <= b && Chargeable(books, wo, d) {
      ChargedIs(books, wo, a, b, d);
    }
  }

  // ---------- days ----------

  /** The dates charged on which the employee's record says `status`. */
  ghost function MarkedDates(books: Books, employee: int, a: int, b: int, wo: bool, status: Status): set<int> {
    set l | l in books.logs && l.employee == employee && l.status == status && Charged(books, wo, a, b, l.date)
            :: l.date
  }

  lemma StatusCounts(books: Books, employee: int, a: int, b: int, wo: bool, status: Status)
    requires OneRecordPerDay(books.logs)
    ensures Total(books.logs, OfStatus(books, employee, a, b, wo, status))
      == |MarkedDates(books, employee, a, b, wo, status)|
  {
    hide Charged, Chargeable;
    var f := OfStatus(books, employee, a, b, wo, status);
    AllChargedIs(books, wo, a, b);
    TotalIsCount(books.logs, employee, f);
    var dates := Dates(books.logs, f);
    forall d ensures d in dates <==> d in MarkedDates(books, employee, a, b, wo, status) {
      if d in dates {
        var l :| l in books.logs && f(l) == 1 && l.date == d;
        assert d in MarkedDates(books, employee, a, b, wo, status);
      }
      if d in MarkedDates(books, employee, a, b, wo, status) {
        var l :| l in books.logs && l.employee == employee && l.status == status
                 && Charged(books, wo, a, b, l.date) && l.date == d;
        assert f(l) == 1;
      }
    }
    assert dates == MarkedDates(books, employee, a, b, wo, status);
  }

  /** Absent days are the charged dates marked absent, late days those marked late, and half
      days those marked half together with the short ones. */
  lemma MarkedDaysExactly(books: Books, employee: int, a: int, b: int, wo: bool)
    requires OneRecordPerDay(books.logs)
    ensures var r := Summary(books, employee, a, b, wo);
      && r.absentDays == |MarkedDates(books, employee, a, b, wo, Absent)|
      && r.lateDays == |MarkedDates(books, employee, a, b, wo, Late)|
      && r.halfDays == |MarkedDates(books, employee, a, b, wo, HalfDay)| + r.shortDays
  {
    StatusCounts(books, employee, a, b, wo, Absent);
    StatusCounts(books, employee, a, b, wo, Late);
    StatusCounts(books, employee, a, b, wo, HalfDay);
  }

  /** The working days of the window are those the company works; the period is all of it. */
  lemma PeriodDaysExactly(books: Books, employee: int, a: int, b: int, wo: bool)
    ensures var r := Summary(books, employee, a, b, wo);
      r.periodDays == b + 1 - a && r.workingDays == |set d | a <= d <= b && Works(books, d)|
  {
    WorkingSetSize(books, a, b);
    assert (set d | a <= d <= b && Works(books, d)) == WorkingSet(books, a, b) by {
      forall d { WorksIs(books, d); }
    }
  }

  /** The dates charged on which somebody worked, but less than half of `shift` seconds, and
      that nobody marked. */
  ghost function ShortDates(books: Books, employee: int, a: int, b: int, wo: bool, shift: int): set<int> {
    set l | l in books.logs && l.employee == employee && Charged(books, wo, a, b, l.date)
            && 0 < DaySeconds(books.sessions, employee, l.date)
            && 2 * DaySeconds(books.sessions, employee, l.date) < shift
            && !(exists k | k in books.logs :: k.employee == employee && k.date == l.date && k.status == HalfDay)
            :: l.date
  }

  lemma MarkedHalfIs(books: Books, employee: int, date: int)
    ensures MarkedHalf(books, employee, date) <==>
      exists k | k in books.logs :: k.employee == employee && k.date == date && k.status == HalfDay
  {
    if k :| k in books.logs && k.employee == employee && k.date == date && k.status == HalfDay {
      var i :| 0 <= i < |books.logs| && books.logs[i] == k;
    }
  }

  lemma ShortDaysExactly(books: Books, employee: int, a: int, b: int, wo: bool)
    requires OneRecordPerDay(books.logs)
    ensures Summary(books, employee, a, b, wo).shortDays
      == |ShortDates(books, employee, a, b, wo, RosteredSeconds(books.roster, employee, a, b))|
  {
    hide Charged, Chargeable, MarkedHalf, DaySeconds, RosteredSeconds;
    var shift := RosteredSeconds(books.roster, employee, a, b);
    var f := Short(books, employee, a, b, wo, shift);
    AllChargedIs(books, wo, a, b);
    forall d { MarkedHalfIs(books, employee, d); }
    TotalIsCount(books.logs, employee, f);
    forall l | l in books.logs && f(l) == 1 ensures l.date in ShortDates(books, employee, a, b, wo, shift) {
      MarkedHalfIs(books, employee, l.date);
    }
    forall d | d in ShortDates(books, employee, a, b, wo, shift) ensures d in Dates(books.logs, f) {
      var l :| l in books.logs && l.employee == employee && l.date == d && Charged(books, wo, a, b, l.date);
      MarkedHalfIs(books, employee, d);
      assert f(l) == 1;
    }
    assert Dates(books.logs, f) == ShortDates(books, employee, a, b, wo, shift);
  }

  /** The assignment that judges a window: of the employee's rows that begin by its end and do
      not end before it begins, one of latest start; none where there is no such row. */
  lemma JudgingShiftExactly(roster: seq<Assignment>, employee: int, a: int, b: int)
    ensures var x := LatestTouching(roster, employee, a, b);
      forall r | r in roster && r.employee == employee && r.start <= b && (r.end.Some? ==> a <= r.end.value) ::
        x.Some? && r.start <= x.value.start
    ensures var x := LatestTouching(roster, employee, a, b);
      x.Some? ==> x.value in roster && x.value.employee == employee && x.value.start <= b
                  && (x.value.end.Some? ==> a <= x.value.end.value)
  {
    forall r | r in roster && Touches(r, employee, a, b)
      ensures exists i :: 0 <= i < |roster| && roster[i] == r && Touches(roster[i], employee, a, b) { }
  }

  /** The seconds of the shift that judges a window: from its start to its end, at most a day
      and never nothing, whichever way the hands run; none where nobody is rostered. */
  lemma RosteredExactly(roster: seq<Assignment>, employee: int, a: int, b: int)
    ensures var x, n := LatestTouching(roster, employee, a, b), RosteredSeconds(roster, employee, a, b);
      if x.None? then n == 0
      else
        var shift := x.value.shift;
        0 <= shift.start < DAY && 0 <= shift.end < DAY && shift.start % MINUTE == 0 && shift.end % MINUTE == 0 ==>
          0 < n <= 86_400 && (shift.start + n * SECOND - shift.end) % DAY == 0
  {
  }

  // ---------- nights and attendance ----------

  /** A night assignment and a day it covers on which its holder turned up. */
  ghost function WorkedNights(books: Books, employee: int, a: int, b: int): set<(int, int)> {
    set i, l | 0 <= i < |books.roster| && l in books.logs
               && books.roster[i].employee == employee && books.roster[i].shift.isNight
               && books.roster[i].start <= l.date && (books.roster[i].end.None? || l.date <= books.roster[i].end.value)
               && l.employee == employee && a <= l.date <= b && (l.status == Present || l.status == Late)
               :: (i, l.date)
  }

  lemma NightsExactly(books: Books, employee: int, a: int, b: int, wo: bool)
    ensures Summary(books, employee, a, b, wo).nightShifts == |WorkedNights(books, employee, a, b)|
  {
    var worked := WorkedDates(books, employee, a, b);
    var part := (x: Assignment) =>
      if x.employee == employee && x.shift.isNight then set d | d in worked && Covers(x, employee, d) else {};
    PairsCount(books.roster, NightsUnder(books, employee, a, b), part);
    assert Pairs(books.roster, part) == WorkedNights(books, employee, a, b);
  }

  ghost function AttendedDates(books: Books, employee: int, a: int, b: int): set<int> {
    set l | l in books.logs && l.employee == employee && a <= l.date <= b
            && DaySeconds(books.sessions, employee, l.date) > 0 :: l.date
  }

  /** Days attended are the dates of the window that have a record and seconds worked. */
  lemma AttendedExactly(books: Books, employee: int, a: int, b: int, wo: bool)
    requires OneRecordPerDay(books.logs)
    ensures Summary(books, employee, a, b, wo).daysAttended == |AttendedDates(books, employee, a, b)|
  {
    hide DaySeconds;
    var f := Attended(books, employee, a, b);
    TotalIsCount(books.logs, employee, f);
    forall d | d in AttendedDates(books, employee, a, b) ensures d in Dates(books.logs, f) {
      var l :| l in books.logs && l.employee == employee && a <= l.date <= b
               && DaySeconds(books.sessions, employee, l.date) > 0 && l.date == d;
      assert f(l) == 1;
    }
    assert Dates(books.logs, f) == AttendedDates(books, employee, a, b);
  }

  // ---------- leave and overtime ----------

  /** The half days of leave taken: request `i`, day `d`, and its first half or, where the
      request is for whole days, its second. */
  ghost function LeaveTaken(books: Books, employee: int, a: int, b: int, wo: bool, paid: bool): set<(int, (int, int))> {
    set i, d, h | 0 <= i < |books.leaves| && a <= d <= b && 0 <= h < 2
                  && books.leaves[i].employee == employee && books.leaves[i].approved && books.leaves[i].isPaid == paid
                  && books.leaves[i].start <= d <= books.leaves[i].end && Charged(books, wo, a, b, d)
                  && (h == 1 ==> !books.leaves[i].halfDay)
                  :: (i, (d, h))
  }

  ghost function HalvesOf(books: Books, a: int, b: int, wo: bool, r: Leave): set<(int, int)> {
    set d, h | a <= d <= b && 0 <= h < 2 && r.start <= d <= r.end && Chargeable(books, wo, d)
               && (h == 1 ==> !r.halfDay) :: (d, h)
  }

  /** What the last day of the window adds. */
  lemma HalvesGrow(books: Books, a: int, b: int, wo: bool, r: Leave)
    requires a <= b
    ensures var more := if !(r.start <= b <= r.end && Chargeable(books, wo, b)) then {}
                        else if r.halfDay then {(b, 0)} else {(b, 0), (b, 1)};
      HalvesOf(books, a, b, wo, r) == HalvesOf(books, a, b - 1, wo, r) + more
      && HalvesOf(books, a, b - 1, wo, r) !! more
  {
    hide Chargeable;
  }

  lemma {:induction false} HalvesCount(books: Books, a: int, b: int, wo: bool, r: Leave)
    ensures |HalvesOf(books, a, b, wo, r)| == DayTotal(a, b, ChargedDay(books, wo, r)) * (if r.halfDay then 1 else 2)
    decreases b - a
  {
    hide Chargeable;
    if b < a {
      assert HalvesOf(books, a, b, wo, r) == {};
    } else {
      HalvesCount(books, a, b - 1, wo, r);
      HalvesGrow(books, a, b, wo, r);
      hide HalvesOf;
    }
  }

  lemma LeaveExactly(books: Books, employee: int, a: int, b: int, wo: bool)
    ensures var r := Summary(books, employee, a, b, wo);
      && r.paidLeaveHalves == |LeaveTaken(books, employee, a, b, wo, true)|
      && r.unpaidLeaveHalves == |LeaveTaken(books, employee, a, b, wo, false)|
  {
    LeaveCounts(books, employee, a, b, wo, true);
    LeaveCounts(books, employee, a, b, wo, false);
  }

  lemma LeaveCounts(books: Books, employee: int, a: int, b: int, wo: bool, paid: bool)
    ensures Total(books.leaves, LeaveHalves(books, employee, a, b, wo, paid))
      == |LeaveTaken(books, employee, a, b, wo, paid)|
  {
    hide Charged, Chargeable;
    var part := (r: Leave) =>
      if r.employee == employee && r.approved && r.isPaid == paid
      then set d, h | a <= d <= b && 0 <= h < 2 && r.start <= d <= r.end && Chargeable(books, wo, d)
                      && (h == 1 ==> !r.halfDay) :: (d, h) else {};
    forall r: Leave ensures LeaveHalves(books, employee, a, b, wo, paid)(r) == |part(r)| {
      HalvesCount(books, a, b, wo, r);
    }
    PairsCount(books.leaves, LeaveHalves(books, employee, a, b, wo, paid), part);
    AllChargedIs(books, wo, a, b);
    assert Pairs(books.leaves, part) == LeaveTaken(books, employee, a, b, wo, paid);
  }

  /** Overtime from nothing: one more record adds its hours where it is approved, the
      employee's and of the window, and nothing elsewhere. */
  lemma OvertimeExactly(books: Books, employee: int, a: int, b: int, wo: bool, o: Overtime)
    ensures Summary(books.(overtime := []), employee, a, b, wo).overtimeHundredths == 0
    ensures Summary(books.(overtime := books.overtime + [o]), employee, a, b, wo).overtimeHundredths ==
      Summary(books, employee, a, b, wo).overtimeHundredths
      + if o.approved && o.employee == employee && a <= o.date <= b then o.hundredths else 0
  {
    assert (books.overtime + [o])[..|books.overtime|] == books.overtime;
  }

  // ---------- hours ----------

  /** The seconds of the employee's closed sessions of the window, session by session. */
  function ClosedIn(employee: int, a: int, b: int): Session -> int {
    (x: Session) =>
      if x.employee == employee && a <= x.date <= b && x.checkOut.Some?
      then (x.checkOut.value - x.checkIn) / SECOND else 0
  }

  /** One record of a day, at most: what is counted on it is counted once. */
  lemma {:induction false} OneDayTotal(logs: seq<Log>, employee: int, date: int, c: int)
    requires OneRecordPerDay(logs)
    ensures Total(logs, (l: Log) => if l.employee == employee && l.date == date then c else 0)
      == if LogIndex(logs, employee, date).Some? then c else 0
  {
    var f := (l: Log) => if l.employee == employee && l.date == date then c else 0;
    if logs != [] {
      var n := |logs| - 1;
      assert forall i | 0 <= i < n :: logs[..n][i] == logs[i];
      OneDayTotal(logs[..n], employee, date, c);
      var g := (l: Log) => if l.employee == employee && l.date == date then c else 0;
      TotalSame(logs[..n], f, g);
    }
  }

  /** The same seconds, gathered day by day over the records. */
  lemma {:induction false} SessionsByDay(logs: seq<Log>, ss: seq<Session>, employee: int, a: int, b: int, clock: int)
    requires OneRecordPerDay(logs)
    requires forall i | 0 <= i < |ss| :: HasRecord(logs, ss[i]) && SessionOk(ss[i], clock)
    ensures Total(logs, (l: Log) =>
        if l.employee == employee && a <= l.date <= b then DaySeconds(ss, employee, l.date) else 0)
      == Total(ss, ClosedIn(employee, a, b))
    ensures forall d :: DaySeconds(ss, employee, d) >= 0
  {
    var all := (l: Log) => if l.employee == employee && a <= l.date <= b then DaySeconds(ss, employee, l.date) else 0;
    if ss == [] {
      TotalSame(logs, all, (l: Log) => 0);
      Nothing(logs);
    } else {
      var n := |ss| - 1;
      var front, x := ss[..n], ss[n];
      assert forall i | 0 <= i < n :: front[i] == ss[i];
      SessionsByDay(logs, front, employee, a, b, clock);
      var before := (l: Log) =>
        if l.employee == employee && a <= l.date <= b then DaySeconds(front, employee, l.date) else 0;
      var c := ClosedIn(employee, a, b)(x);
      var one := (l: Log) => if l.employee == x.employee && l.date == x.date then c else 0;
      SecondsOf(x, clock);
      assert HasRecord(logs, x);
      hide SessionOk, Seconds, LogIndex;
      TotalAdds(logs, all, before, one);
      OneDayTotal(logs, x.employee, x.date, c);
      TotalSame(logs, one, (l: Log) => if l.employee == x.employee && l.date == x.date then c else 0);
    }
  }

  lemma SecondsOf(x: Session, clock: int)
    requires SessionOk(x, clock)
    ensures Seconds(x) == (if x.checkOut.Some? then (x.checkOut.value - x.checkIn) / SECOND else 0) >= 0
  {
  }

  lemma {:induction false} Nothing(logs: seq<Log>)
    ensures Total(logs, (l: Log) => 0) == 0
  {
    if logs != [] {
      Nothing(logs[..|logs| - 1]);
      TotalSame(logs[..|logs| - 1], (l: Log) => 0, (l: Log) => 0);
    }
  }

  /** In every state the punches lead to, the hours worked are the employee's closed sessions
      of the window, added up and rounded to the nearest hundredth, a tie to an even one. */
  lemma HoursExactly(books: Books, employee: int, a: int, b: int, wo: bool, clock: int)
    requires Inv(Store(books.logs, books.sessions), clock)
    ensures var h, s := Summary(books, employee, a, b, wo).hoursHundredths,
      Total(books.sessions, ClosedIn(employee, a, b));
      -18 <= s - 36 * h <= 18 && (s - 36 * h == 18 || s - 36 * h == -18 ==> h % 2 == 0)
  {
    SessionsByDay(books.logs, books.sessions, employee, a, b, clock);
    var all := (l: Log) =>
      if l.employee == employee && a <= l.date <= b then DaySeconds(books.sessions, employee, l.date) else 0;
    TotalSame(books.logs, Worked(books, employee, a, b), all);
  }
}
