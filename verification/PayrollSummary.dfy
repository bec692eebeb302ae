/** One employee's pay period as payroll reads it (backend/attendance/payroll_summary.py).

    Leave is counted in half days and overtime in hundredths of an hour, so every figure
    but the final rounding of worked hours is an integer. */
module PayrollSummary {
  import opened Options
  import opened Roster
  import opened Punches
  import opened Sums

  datatype Leave = Leave(employee: int, start: int, end: int, approved: bool, halfDay: bool, isPaid: bool)
  datatype Overtime = Overtime(employee: int, date: int, hundredths: int, approved: bool)

  /** Everything the summary reads.  `week` is the set of ISO weekdays the company works,
      or None where it has not said. */
  datatype Books = Books(logs: seq<Log>, sessions: seq<Session>, leaves: seq<Leave>, overtime: seq<Overtime>,
                         roster: seq<Assignment>, week: Option<set<int>>, holidays: set<int>)

  datatype PeriodAttendance = PeriodAttendance(
    periodDays: int, workingDays: int, absentDays: int, halfDays: int, lateDays: int,
    paidLeaveHalves: int, unpaidLeaveHalves: int, overtimeHundredths: int, nightShifts: int,
    daysAttended: int, hoursHundredths: int, shortDays: int)

  predicate IsWorkingDay(books: Books, day: int) {
    day !in books.holidays && (books.week.None? || (day - 1) % 7 + 1 in books.week.value)
  }

  predicate Within(date: int, start: int, end: int) {
    start <= date <= end
  }

  /** `countable`: with `workingOnly`, only days the company works may be charged. */
  predicate Chargeable(books: Books, workingOnly: bool, day: int) {
    !workingOnly || IsWorkingDay(books, day)
  }

  // ---------- sums over days ----------

  function DayTotal(start: int, end: int, f: int -> int): int
    decreases end - start
  {
    if end < start then 0 else DayTotal(start, end - 1, f) + f(end)
  }

  // ---------- what each figure counts, row by row ----------

  function OfStatus(books: Books, employee: int, start: int, end: int, workingOnly: bool, status: Status): Log -> int {
    (l: Log) => if l.employee == employee && Within(l.date, start, end) && l.status == status
                   && Chargeable(books, workingOnly, l.date) then 1 else 0
  }

  function ChargedDay(books: Books, workingOnly: bool, leave: Leave): int -> int {
    (d: int) => if Within(d, leave.start, leave.end) && Chargeable(books, workingOnly, d) then 1 else 0
  }

  function LeaveHalves(books: Books, employee: int, start: int, end: int, workingOnly: bool, paid: bool): Leave -> int {
    (r: Leave) => if r.employee == employee && r.approved && r.isPaid == paid
                  then DayTotal(start, end, ChargedDay(books, workingOnly, r)) * (if r.halfDay then 1 else 2) else 0
  }

  function OvertimeIn(employee: int, start: int, end: int): Overtime -> int {
    (o: Overtime) => if o.employee == employee && o.approved && Within(o.date, start, end) then o.hundredths else 0
  }

  predicate Turned(l: Log) {
    l.status == Present || l.status == Late
  }

  function WorkedDates(books: Books, employee: int, start: int, end: int): set<int> {
    set l | l in books.logs && l.employee == employee && Within(l.date, start, end) && Turned(l) :: l.date
  }

  function NightsUnder(books: Books, employee: int, start: int, end: int): Assignment -> int {
    (a: Assignment) => if a.employee == employee && a.shift.isNight
      then |set d | d in WorkedDates(books, employee, start, end) && Covers(a, employee, d)| else 0
  }

  function Attended(books: Books, employee: int, start: int, end: int): Log -> int {
    (l: Log) => if l.employee == employee && Within(l.date, start, end)
                   && DaySeconds(books.sessions, employee, l.date) > 0 then 1 else 0
  }

  function Worked(books: Books, employee: int, start: int, end: int): Log -> int {
    (l: Log) => if l.employee == employee && Within(l.date, start, end)
                   && DaySeconds(books.sessions, employee, l.date) > 0
                then DaySeconds(books.sessions, employee, l.date) else 0
  }

  predicate MarkedHalf(books: Books, employee: int, date: int) {
    exists i | 0 <= i < |books.logs| ::
      books.logs[i].employee == employee && books.logs[i].date == date && books.logs[i].status == HalfDay
  }

  /** A day worked below half of a rostered shift of `shift` seconds. */
  predicate FellShort(seconds: int, shift: int) {
    0 < seconds && 2 * seconds < shift
  }

  function Short(books: Books, employee: int, start: int, end: int, workingOnly: bool, shift: int): Log -> int {
    (l: Log) => if l.employee == employee && Within(l.date, start, end) && Chargeable(books, workingOnly, l.date)
                   && FellShort(DaySeconds(books.sessions, employee, l.date), shift)
                   && !MarkedHalf(books, employee, l.date) then 1 else 0
  }

  predicate Touches(a: Assignment, employee: int, start: int, end: int) {
    a.employee == employee && a.start <= end && !(a.end.Some? && a.end.value < start)
  }

  function LatestTouching(roster: seq<Assignment>, employee: int, start: int, end: int): (r: Option<Assignment>)
    ensures r.None? <==> forall i | 0 <= i < |roster| :: !Touches(roster[i], employee, start, end)
    ensures r.Some? ==> r.value in roster && Touches(r.value, employee, start, end)
    ensures r.Some? ==> forall i | 0 <= i < |roster| :: Touches(roster[i], employee, start, end) ==>
      roster[i].start <= r.value.start
  {
    if roster == [] then None
    else
      var n := |roster| - 1;
      var front := LatestTouching(roster[..n], employee, start, end);
      assert forall i | 0 <= i < n :: roster[..n][i] == roster[i];
      if Touches(roster[n], employee, start, end) && (front.None? || front.value.start < roster[n].start)
      then Some(roster[n]) else front
  }

  /** Seconds of the shift rostered for the window, read to the minute; 0 when nobody is
      rostered.  An end at or before the start wraps midnight. */
  function RosteredSeconds(roster: seq<Assignment>, employee: int, start: int, end: int): int {
    var a := LatestTouching(roster, employee, start, end);
    if a.None? then 0
    else
      var s, e := a.value.shift.start / MINUTE * 60, a.value.shift.end / MINUTE * 60;
      if e > s then e - s else 86_400 - s + e
  }

  /** Seconds to hundredths of an hour: the nearest, and a tie to the even one. */
  function HoursHundredths(seconds: int): (h: int)
    ensures -18 <= seconds - 36 * h <= 18
    ensures seconds - 36 * h == 18 || seconds - 36 * h == -18 ==> h % 2 == 0
  {
    var q, r := seconds / 36, seconds % 36;
    if r < 18 || (r == 18 && q % 2 == 0) then q else q + 1
  }

  function WorkedSeconds(books: Books, employee: int, start: int, end: int): int {
    Total(books.logs, Worked(books, employee, start, end))
  }

  function WorkingDay(books: Books): int -> int {
    (d: int) => if IsWorkingDay(books, d) then 1 else 0
  }

  /** The whole summary, figure by figure. */
  function Summary(books: Books, employee: int, start: int, end: int, workingOnly: bool): PeriodAttendance {
    var short := Total(books.logs,
        Short(books, employee, start, end, workingOnly, RosteredSeconds(books.roster, employee, start, end)));
    PeriodAttendance(
      end - start + 1,
      DayTotal(start, end, WorkingDay(books)),
      Total(books.logs, OfStatus(books, employee, start, end, workingOnly, Absent)),
      Total(books.logs, OfStatus(books, employee, start, end, workingOnly, HalfDay)) + short,
      Total(books.logs, OfStatus(books, employee, start, end, workingOnly, Late)),
      Total(books.leaves, LeaveHalves(books, employee, start, end, workingOnly, true)),
      Total(books.leaves, LeaveHalves(books, employee, start, end, workingOnly, false)),
      Total(books.overtime, OvertimeIn(employee, start, end)),
      Total(books.roster, NightsUnder(books, employee, start, end)),
      Total(books.logs, Attended(books, employee, start, end)),
      HoursHundredths(WorkedSeconds(books, employee, start, end)),
      short)
  }

  // ---------- laws of the sums ----------

  lemma {:induction false} DayTotalSplit(start: int, mid: int, end: int, f: int -> int)
    requires start - 1 <= mid <= end
    ensures DayTotal(start, end, f) == DayTotal(start, mid, f) + DayTotal(mid + 1, end, f)
    decreases end - mid
  {
    if mid < end { DayTotalSplit(start, mid, end - 1, f); }
  }

  lemma {:induction false} DayTotalZero(start: int, end: int, f: int -> int)
    requires forall d | start <= d <= end :: f(d) == 0
    ensures DayTotal(start, end, f) == 0
    decreases end - start
  {
    if start <= end { DayTotalZero(start, end - 1, f); }
  }

  lemma {:induction false} DayTotalOnes(start: int, end: int, f: int -> int)
    requires start - 1 <= end && forall d | start <= d <= end :: f(d) == 1
    ensures DayTotal(start, end, f) == end - start + 1
    decreases end - start
  {
    if start <= end { DayTotalOnes(start, end - 1, f); }
  }

  /** Only the part of a window where something is counted matters. */
  lemma DayTotalClip(start: int, end: int, lo: int, hi: int, f: int -> int)
    requires start <= lo && hi <= end
    requires forall d | start <= d <= end && !(lo <= d <= hi) :: f(d) == 0
    ensures DayTotal(start, end, f) == if lo <= hi then DayTotal(lo, hi, f) else 0
  {
    if lo <= hi {
      DayTotalSplit(start, lo - 1, end, f);
      DayTotalSplit(lo, hi, end, f);
      DayTotalZero(start, lo - 1, f);
      DayTotalZero(hi + 1, end, f);
    } else {
      DayTotalZero(start, end, f);
    }
  }

  // ---------- the loops of the source ----------

  function WorkingSet(books: Books, start: int, end: int): set<int> {
    set d | start <= d <= end && IsWorkingDay(books, d)
  }

  lemma WorkingSetGrows(books: Books, start: int, day: int)
    requires start <= day
    ensures WorkingSet(books, start, day) == WorkingSet(books, start, day - 1)
      + (if IsWorkingDay(books, day) then {day} else {})
    ensures day !in WorkingSet(books, start, day - 1)
  {
  }

  method WorkingDates(books: Books, start: int, end: int) returns (dates: set<int>)
    ensures dates == WorkingSet(books, start, end)
    ensures |dates| == DayTotal(start, end, WorkingDay(books))
  {
    dates := {};
    var cursor := start;
    while cursor <= end
      invariant start <= cursor
      invariant cursor == start || cursor <= end + 1
      invariant dates == WorkingSet(books, start, cursor - 1)
      invariant |dates| == DayTotal(start, cursor - 1, WorkingDay(books))
    {
      WorkingSetGrows(books, start, cursor);
      if IsWorkingDay(books, cursor) { dates := dates + {cursor}; }
      cursor := cursor + 1;
    }
  }

  /** `_overlap_days`. */
  method OverlapDays(books: Books, leave: Leave, start: int, end: int, countable: Option<set<int>>) returns (days: int)
    requires countable.Some? ==> countable.value == WorkingSet(books, start, end)
    ensures days == DayTotal(start, end, ChargedDay(books, countable.Some?, leave))
  {
    var lo := if leave.start > start then leave.start else start;
    var hi := if leave.end < end then leave.end else end;
    ghost var f := ChargedDay(books, countable.Some?, leave);
    DayTotalClip(start, end, lo, hi, f);
    if hi < lo { return 0; }
    if countable.None? {
      DayTotalOnes(lo, hi, f);
      return hi - lo + 1;
    }
    days := 0;
    var day := lo;
    while day <= hi
      invariant lo <= day <= hi + 1
      invariant days == DayTotal(lo, day - 1, f)
    {
      if day in countable.value { days := days + 1; }
      day := day + 1;
    }
  }

  method CountStatuses(books: Books, employee: int, start: int, end: int, countable: Option<set<int>>)
      returns (absent: int, half: int, late: int)
    requires countable.Some? ==> countable.value == WorkingSet(books, start, end)
    ensures absent == Total(books.logs, OfStatus(books, employee, start, end, countable.Some?, Absent))
    ensures half == Total(books.logs, OfStatus(books, employee, start, end, countable.Some?, HalfDay))
    ensures late == Total(books.logs, OfStatus(books, employee, start, end, countable.Some?, Late))
  {
    absent, half, late := 0, 0, 0;
    ghost var wo := countable.Some?;
    for i := 0 to |books.logs|
      invariant absent == Total(books.logs[..i], OfStatus(books, employee, start, end, wo, Absent))
      invariant half == Total(books.logs[..i], OfStatus(books, employee, start, end, wo, HalfDay))
      invariant late == Total(books.logs[..i], OfStatus(books, employee, start, end, wo, Late))
    {
      var l := books.logs[i];
      TotalStep(books.logs, i, OfStatus(books, employee, start, end, wo, Absent));
      TotalStep(books.logs, i, OfStatus(books, employee, start, end, wo, HalfDay));
      TotalStep(books.logs, i, OfStatus(books, employee, start, end, wo, Late));
      if l.employee == employee && Within(l.date, start, end) && (countable.None? || l.date in countable.value) {
        match l.status
        case Absent => absent := absent + 1;
        case HalfDay => half := half + 1;
        case Late => late := late + 1;
        case Present =>
      }
    }
    assert books.logs[..|books.logs|] == books.logs;
  }

  method CountLeave(books: Books, employee: int, start: int, end: int, countable: Option<set<int>>)
      returns (paid: int, unpaid: int)
    requires countable.Some? ==> countable.value == WorkingSet(books, start, end)
    ensures paid == Total(books.leaves, LeaveHalves(books, employee, start, end, countable.Some?, true))
    ensures unpaid == Total(books.leaves, LeaveHalves(books, employee, start, end, countable.Some?, false))
  {
    paid, unpaid := 0, 0;
    ghost var wo := countable.Some?;
    for i := 0 to |books.leaves|
      invariant paid == Total(books.leaves[..i], LeaveHalves(books, employee, start, end, wo, true))
      invariant unpaid == Total(books.leaves[..i], LeaveHalves(books, employee, start, end, wo, false))
    {
      var r := books.leaves[i];
      TotalStep(books.leaves, i, LeaveHalves(books, employee, start, end, wo, true));
      TotalStep(books.leaves, i, LeaveHalves(books, employee, start, end, wo, false));
      if r.employee == employee && r.approved && r.start <= end && r.end >= start {
        var days := OverlapDays(books, r, start, end, countable);
        var halves := if r.halfDay then days else 2 * days;
        if r.isPaid { paid := paid + halves; } else { unpaid := unpaid + halves; }
      } else if r.employee == employee && r.approved {
        DayTotalZero(start, end, ChargedDay(books, wo, r));
      }
    }
    assert books.leaves[..|books.leaves|] == books.leaves;
  }

  method CountNights(books: Books, employee: int, start: int, end: int) returns (nights: int)
    ensures nights == Total(books.roster, NightsUnder(books, employee, start, end))
  {
    nights := 0;
    var worked := WorkedDates(books, employee, start, end);
    for i := 0 to |books.roster|
      invariant nights == Total(books.roster[..i], NightsUnder(books, employee, start, end))
    {
      var a := books.roster[i];
      TotalStep(books.roster, i, NightsUnder(books, employee, start, end));
      ghost var covered := set d | d in worked && Covers(a, employee, d);
      if a.employee == employee && a.shift.isNight && a.start <= end && !(a.end.Some? && a.end.value < start) {
        var from := if a.start > start then a.start else start;
        var till := if a.end.Some? && a.end.value < end then a.end.value else end;
        var inWindow := set d | d in worked && from <= d <= till;
        assert inWindow == covered;
        nights := nights + |inWindow|;
      } else {
        if a.employee == employee && a.shift.isNight {
          assert forall d | d in worked :: Within(d, start, end) && !Covers(a, employee, d);
          assert covered == {};
        }
      }
    }
    assert books.roster[..|books.roster|] == books.roster;
  }

  method CountHours(books: Books, employee: int, start: int, end: int, countable: Option<set<int>>)
      returns (attended: int, seconds: int, short: int)
    requires countable.Some? ==> countable.value == WorkingSet(books, start, end)
    ensures attended == Total(books.logs, Attended(books, employee, start, end))
    ensures seconds == WorkedSeconds(books, employee, start, end)
    ensures short == Total(books.logs, Short(books, employee, start, end, countable.Some?,
                                              RosteredSeconds(books.roster, employee, start, end)))
  {
    attended, seconds, short := 0, 0, 0;
    var shift := RosteredSeconds(books.roster, employee, start, end);
    var marked := set l | l in books.logs && l.employee == employee && Within(l.date, start, end)
        && l.status == HalfDay :: l.date;
    ghost var f, g := Attended(books, employee, start, end), Worked(books, employee, start, end);
    ghost var h := Short(books, employee, start, end, countable.Some?, shift);
    for i := 0 to |books.logs|
      invariant attended == Total(books.logs[..i], f) && seconds == Total(books.logs[..i], g)
        && short == Total(books.logs[..i], h)
    {
      var l := books.logs[i];
      TotalStep(books.logs, i, f);
      TotalStep(books.logs, i, g);
      TotalStep(books.logs, i, h);
      if l.employee == employee && Within(l.date, start, end) {
        var day := DaySeconds(books.sessions, employee, l.date);
        assert l.date in marked <==> MarkedHalf(books, employee, l.date);
        if day > 0 {
          attended, seconds := attended + 1, seconds + day;
          var chargeable := countable.None? || l.date in countable.value;
          if chargeable && shift != 0 && 2 * day < shift && l.date !in marked { short := short + 1; }
        }
      }
    }
    assert books.logs[..|books.logs|] == books.logs;
  }

  method GetPeriodAttendance(books: Books, employee: int, start: int, end: int, workingOnly: bool)
      returns (r: PeriodAttendance)
    ensures r == Summary(books, employee, start, end, workingOnly)
  {
    var working := WorkingDates(books, start, end);
    var countable := if workingOnly then Some(working) else None;
    var absent, half, late := CountStatuses(books, employee, start, end, countable);
    var paid, unpaid := CountLeave(books, employee, start, end, countable);
    var overtime := 0;
    for i := 0 to |books.overtime|
      invariant overtime == Total(books.overtime[..i], OvertimeIn(employee, start, end))
    {
      var o := books.overtime[i];
      TotalStep(books.overtime, i, OvertimeIn(employee, start, end));
      if o.employee == employee && o.approved && Within(o.date, start, end) { overtime := overtime + o.hundredths; }
    }
    assert books.overtime[..|books.overtime|] == books.overtime;
    var nights := CountNights(books, employee, start, end);
    var attended, seconds, short := CountHours(books, employee, start, end, countable);
    r := PeriodAttendance(end - start + 1, |working|, absent, half + short, late, paid, unpaid, overtime, nights,
                          attended, HoursHundredths(seconds), short);
  }
}
