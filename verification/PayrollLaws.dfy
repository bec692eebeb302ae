/** What the pay-period summary promises across windows: nothing is lost or charged twice
    when a window is split, and a half day is charged once however it was established. */
module PayrollLaws {
  import opened Options
  import opened Roster
  import opened Punches
  import opened PunchRuns
  import opened PayrollSummary
  import opened Sums

  // ---------- splitting a window ----------

  lemma StatusesAdd(books: Books, employee: int, a: int, m: int, b: int, wo: bool, status: Status)
    requires a - 1 <= m <= b
    ensures Total(books.logs, OfStatus(books, employee, a, b, wo, status))
         == Total(books.logs, OfStatus(books, employee, a, m, wo, status))
          + Total(books.logs, OfStatus(books, employee, m + 1, b, wo, status))
  {
    TotalAdds(books.logs, OfStatus(books, employee, a, b, wo, status), OfStatus(books, employee, a, m, wo, status),
              OfStatus(books, employee, m + 1, b, wo, status));
  }

  lemma LeaveAdds(books: Books, employee: int, a: int, m: int, b: int, wo: bool, paid: bool)
    requires a - 1 <= m <= b
    ensures Total(books.leaves, LeaveHalves(books, employee, a, b, wo, paid))
         == Total(books.leaves, LeaveHalves(books, employee, a, m, wo, paid))
          + Total(books.leaves, LeaveHalves(books, employee, m + 1, b, wo, paid))
  {
    var f, g, h := LeaveHalves(books, employee, a, b, wo, paid), LeaveHalves(books, employee, a, m, wo, paid),
                   LeaveHalves(books, employee, m + 1, b, wo, paid);
    forall i | 0 <= i < |books.leaves| ensures f(books.leaves[i]) == g(books.leaves[i]) + h(books.leaves[i]) {
      DayTotalSplit(a, m, b, ChargedDay(books, wo, books.leaves[i]));
    }
    TotalAdds(books.leaves, f, g, h);
  }

  lemma CoveredAdd(whole: set<int>, left: set<int>, right: set<int>, asg: Assignment, employee: int)
    requires whole == left + right && left !! right
    ensures |set d | d in whole && Covers(asg, employee, d)|
         == |set d | d in left && Covers(asg, employee, d)| + |set d | d in right && Covers(asg, employee, d)|
  {
    var l, r := set d | d in left && Covers(asg, employee, d), set d | d in right && Covers(asg, employee, d);
    assert (set d | d in whole && Covers(asg, employee, d)) == l + r && l !! r;
  }

  lemma WorkedDatesSplit(books: Books, employee: int, a: int, m: int, b: int)
    requires a - 1 <= m <= b
    ensures var left, right := WorkedDates(books, employee, a, m), WorkedDates(books, employee, m + 1, b);
      WorkedDates(books, employee, a, b) == left + right && left !! right
  {
  }

  lemma NightsOfOneAdd(books: Books, asg: Assignment, employee: int, a: int, m: int, b: int)
    requires a - 1 <= m <= b
    ensures NightsUnder(books, employee, a, b)(asg) == NightsUnder(books, employee, a, m)(asg)
      + NightsUnder(books, employee, m + 1, b)(asg)
  {
    WorkedDatesSplit(books, employee, a, m, b);
    CoveredAdd(WorkedDates(books, employee, a, b), WorkedDates(books, employee, a, m),
      WorkedDates(books, employee, m + 1, b), asg, employee);
  }

  lemma NightsAdd(books: Books, employee: int, a: int, m: int, b: int)
    requires a - 1 <= m <= b
    ensures Total(books.roster, NightsUnder(books, employee, a, b))
         == Total(books.roster, NightsUnder(books, employee, a, m))
           + Total(books.roster, NightsUnder(books, employee, m + 1, b))
  {
    forall i | 0 <= i < |books.roster|
      ensures NightsUnder(books, employee, a, b)(books.roster[i])
           == NightsUnder(books, employee, a, m)(books.roster[i])
             + NightsUnder(books, employee, m + 1, b)(books.roster[i])
    {
      NightsOfOneAdd(books, books.roster[i], employee, a, m, b);
    }
    TotalAdds(books.roster, NightsUnder(books, employee, a, b), NightsUnder(books, employee, a, m),
      NightsUnder(books, employee, m + 1, b));
  }

  lemma HoursAdd(books: Books, employee: int, a: int, m: int, b: int)
    requires a - 1 <= m <= b
    ensures WorkedSeconds(books, employee, a, b) == WorkedSeconds(books, employee, a, m)
      + WorkedSeconds(books, employee, m + 1, b)
    ensures Total(books.logs, Attended(books, employee, a, b))
         == Total(books.logs, Attended(books, employee, a, m)) + Total(books.logs, Attended(books, employee, m + 1, b))
    ensures Total(books.overtime, OvertimeIn(employee, a, b))
         == Total(books.overtime, OvertimeIn(employee, a, m)) + Total(books.overtime, OvertimeIn(employee, m + 1, b))
  {
    TotalAdds(books.logs, Worked(books, employee, a, b), Worked(books, employee, a, m),
      Worked(books, employee, m + 1, b));
    TotalAdds(books.logs, Attended(books, employee, a, b), Attended(books, employee, a, m),
      Attended(books, employee, m + 1, b));
    TotalAdds(books.overtime, OvertimeIn(employee, a, b), OvertimeIn(employee, a, m), OvertimeIn(employee, m + 1, b));
  }

  /** Splitting a window at any day conserves every figure that pay is computed from, with
      weekends charged or not.  Hours are rounded once per window, so two windows may differ
      from the whole by one hundredth. */
  lemma SummaryIsAdditive(books: Books, employee: int, a: int, m: int, b: int, wo: bool)
    requires a - 1 <= m <= b
    ensures var w, l, r := Summary(books, employee, a, b, wo), Summary(books, employee, a, m, wo),
      Summary(books, employee, m + 1, b, wo);
      && w.periodDays == l.periodDays + r.periodDays
      && w.workingDays == l.workingDays + r.workingDays
      && w.absentDays == l.absentDays + r.absentDays
      && w.lateDays == l.lateDays + r.lateDays
      && w.halfDays - w.shortDays == (l.halfDays - l.shortDays) + (r.halfDays - r.shortDays)
      && w.paidLeaveHalves == l.paidLeaveHalves + r.paidLeaveHalves
      && w.unpaidLeaveHalves == l.unpaidLeaveHalves + r.unpaidLeaveHalves
      && w.overtimeHundredths == l.overtimeHundredths + r.overtimeHundredths
      && w.nightShifts == l.nightShifts + r.nightShifts
      && w.daysAttended == l.daysAttended + r.daysAttended
      && -1 <= w.hoursHundredths - (l.hoursHundredths + r.hoursHundredths) <= 1
    ensures WorkedSeconds(books, employee, a, b) == WorkedSeconds(books, employee, a, m)
      + WorkedSeconds(books, employee, m + 1, b)
  {
    DayTotalSplit(a, m, b, WorkingDay(books));
    StatusesAdd(books, employee, a, m, b, wo, Absent);
    StatusesAdd(books, employee, a, m, b, wo, Late);
    StatusesAdd(books, employee, a, m, b, wo, HalfDay);
    LeaveAdds(books, employee, a, m, b, wo, true);
    LeaveAdds(books, employee, a, m, b, wo, false);
    NightsAdd(books, employee, a, m, b);
    HoursAdd(books, employee, a, m, b);
  }

  /** A request inside a window is charged for exactly its own chargeable days there, so
      whatever windows it straddles it is charged once in total. */
  lemma LeaveChargedOnce(books: Books, leave: Leave, a: int, m: int, b: int, wo: bool)
    requires a <= leave.start && leave.end <= b && a - 1 <= m <= b
    ensures DayTotal(a, m, ChargedDay(books, wo, leave)) + DayTotal(m + 1, b, ChargedDay(books, wo, leave))
         == if leave.start <= leave.end then DayTotal(leave.start, leave.end, ChargedDay(books, wo, leave)) else 0
  {
    DayTotalSplit(a, m, b, ChargedDay(books, wo, leave));
    DayTotalClip(a, b, leave.start, leave.end, ChargedDay(books, wo, leave));
  }

  /** Every day that could be charged as short is judged in the whole window as it is in
      its own part: by the one shift rostered for either, or with the same outcome. */
  predicate JudgedAlike(books: Books, employee: int, a: int, m: int, b: int, wo: bool) {
    forall i | 0 <= i < |books.logs| && a <= books.logs[i].date <= b
        && MayFallShort(books, employee, wo, books.logs[i]) ::
      var seconds := DaySeconds(books.sessions, employee, books.logs[i].date);
      FellShort(seconds, RosteredSeconds(books.roster, employee, a, b)) <==>
        FellShort(seconds, OwnShift(books, employee, a, m, b, books.logs[i].date))
  }

  predicate HalfDaysAdd(books: Books, employee: int, a: int, m: int, b: int, wo: bool) {
    Summary(books, employee, a, b, wo).halfDays
      == Summary(books, employee, a, m, wo).halfDays + Summary(books, employee, m + 1, b, wo).halfDays
  }

  /** How much one record counts more in the whole window than in its own part. */
  function Misjudged(books: Books, employee: int, a: int, m: int, b: int, wo: bool): Log -> int {
    var whole, left, right := RosteredSeconds(books.roster, employee, a, b),
        RosteredSeconds(books.roster, employee, a, m),
                              RosteredSeconds(books.roster, employee, m + 1, b);
    (l: Log) => Short(books, employee, a, b, wo, whole)(l)
                - Short(books, employee, a, m, wo, left)(l) - Short(books, employee, m + 1, b, wo, right)(l)
  }

  lemma HalfDaysDiffer(books: Books, employee: int, a: int, m: int, b: int, wo: bool)
    requires a - 1 <= m <= b
    ensures HalfDaysAdd(books, employee, a, m, b, wo) <==>
      Total(books.logs, Misjudged(books, employee, a, m, b, wo)) == 0
  {
    var whole, left, right := RosteredSeconds(books.roster, employee, a, b),
        RosteredSeconds(books.roster, employee, a, m),
                              RosteredSeconds(books.roster, employee, m + 1, b);
    var f, g, h := Short(books, employee, a, b, wo, whole), Short(books, employee, a, m, wo, left),
        Short(books, employee, m + 1, b, wo, right);
    var both := (l: Log) => g(l) + h(l);
    StatusesAdd(books, employee, a, m, b, wo, HalfDay);
    TotalAdds(books.logs, both, g, h);
    TotalAdds(books.logs, f, both, Misjudged(books, employee, a, m, b, wo));
  }

  function Judged(seconds: int, shift: int): int {
    if FellShort(seconds, shift) then 1 else 0
  }

  /** A record that may count as short: chargeable, and not marked by hand. */
  predicate MayFallShort(books: Books, employee: int, wo: bool, l: Log) {
    l.employee == employee && Chargeable(books, wo, l.date) && !MarkedHalf(books, employee, l.date)
  }

  lemma ShortIs(books: Books, employee: int, a: int, b: int, wo: bool, shift: int, l: Log)
    ensures Short(books, employee, a, b, wo, shift)(l) ==
      if a <= l.date <= b && MayFallShort(books, employee, wo, l)
      then Judged(DaySeconds(books.sessions, employee, l.date), shift) else 0
  {
  }

  /** The shift a record of the window is judged by in its own part. */
  function OwnShift(books: Books, employee: int, a: int, m: int, b: int, date: int): int {
    if date <= m then RosteredSeconds(books.roster, employee, a, m)
    else RosteredSeconds(books.roster, employee, m + 1, b)
  }

  lemma MisjudgedIs(books: Books, employee: int, a: int, m: int, b: int, wo: bool, l: Log)
    requires a - 1 <= m <= b
    ensures Misjudged(books, employee, a, m, b, wo)(l) ==
      if a <= l.date <= b && MayFallShort(books, employee, wo, l) then
        Judged(DaySeconds(books.sessions, employee, l.date), RosteredSeconds(books.roster, employee, a, b))
        - Judged(DaySeconds(books.sessions, employee, l.date), OwnShift(books, employee, a, m, b, l.date))
      else 0
  {
    ShortIs(books, employee, a, b, wo, RosteredSeconds(books.roster, employee, a, b), l);
    ShortIs(books, employee, a, m, wo, RosteredSeconds(books.roster, employee, a, m), l);
    ShortIs(books, employee, m + 1, b, wo, RosteredSeconds(books.roster, employee, m + 1, b), l);
  }

  lemma TouchesAPart(x: Assignment, employee: int, a: int, m: int, b: int)
    requires a - 1 <= m <= b && Proper(x)
    ensures Touches(x, employee, a, b) <==> Touches(x, employee, a, m) || Touches(x, employee, m + 1, b)
  {
  }

  lemma {:induction false} SameTouches(roster: seq<Assignment>, employee: int, a: int, b: int, c: int, d: int)
    requires forall i | 0 <= i < |roster| :: Touches(roster[i], employee, a, b) == Touches(roster[i], employee, c, d)
    ensures LatestTouching(roster, employee, a, b) == LatestTouching(roster, employee, c, d)
  {
    if roster != [] {
      var n := |roster| - 1;
      assert forall i | 0 <= i < n :: roster[..n][i] == roster[i];
      SameTouches(roster[..n], employee, a, b, c, d);
    }
  }

  lemma CoversOnce(roster: seq<Assignment>, x: Assignment, y: Assignment, employee: int, date: int)
    requires SingleCover(roster) && x in roster && y in roster
    requires Covers(x, employee, date) && Covers(y, employee, date)
    ensures x == y
  {
  }

  /** A window is judged by the shift of its later part, where that part has one, as long as
      no row ends before it starts. */
  lemma WholeIsJudgedByItsEnd(roster: seq<Assignment>, employee: int, a: int, m: int, b: int)
    requires a - 1 <= m <= b && SingleCover(roster) && forall x | x in roster :: Proper(x)
    ensures LatestTouching(roster, employee, a, b) ==
      if LatestTouching(roster, employee, m + 1, b).Some? then LatestTouching(roster, employee, m + 1, b)
      else LatestTouching(roster, employee, a, m)
  {
    forall i | 0 <= i < |roster| ensures Touches(roster[i], employee, a, b) <==>
        Touches(roster[i], employee, a, m) || Touches(roster[i], employee, m + 1, b) {
      TouchesAPart(roster[i], employee, a, m, b);
    }
    var r := LatestTouching(roster, employee, m + 1, b);
    if r.Some? {
      var i :| 0 <= i < |roster| && roster[i] == r.value;
      var w := LatestTouching(roster, employee, a, b).value;
      CoversOnce(roster, r.value, w, employee, w.start);
    } else {
      SameTouches(roster, employee, a, b, a, m);
    }
  }

  lemma NegatedTotal(logs: seq<Log>, f: Log -> int)
    ensures Total(logs, f) + Total(logs, (l: Log) => -f(l)) == 0
  {
  }

  /** Terms of one sign sum to zero exactly when each is zero. */
  lemma OneSign(logs: seq<Log>, f: Log -> int)
    requires (forall i | 0 <= i < |logs| :: f(logs[i]) <= 0) || (forall i | 0 <= i < |logs| :: f(logs[i]) >= 0)
    ensures Total(logs, f) == 0 <==> forall i | 0 <= i < |logs| :: f(logs[i]) == 0
  {
    if forall i | 0 <= i < |logs| :: f(logs[i]) <= 0 {
      TotalOfNonPositive(logs, f);
    } else {
      var g := (l: Log) => -f(l);
      NegatedTotal(logs, f);
      TotalOfNonPositive(logs, g);
      assert forall i | 0 <= i < |logs| :: g(logs[i]) == 0 <==> f(logs[i]) == 0;
    }
  }

  /** A longer shift makes more days short, so all the days judged differently are
      counted more in the whole window, or all of them less. */
  lemma MisjudgedOneWay(books: Books, employee: int, a: int, m: int, b: int, wo: bool)
    requires a - 1 <= m <= b && SingleCover(books.roster) && forall x | x in books.roster :: Proper(x)
    ensures var f := Misjudged(books, employee, a, m, b, wo);
      || (forall i | 0 <= i < |books.logs| :: f(books.logs[i]) <= 0)
      || (forall i | 0 <= i < |books.logs| :: f(books.logs[i]) >= 0)
  {
    WholeIsJudgedByItsEnd(books.roster, employee, a, m, b);
    var whole, left := RosteredSeconds(books.roster, employee, a, b), RosteredSeconds(books.roster, employee, a, m);
    var right := RosteredSeconds(books.roster, employee, m + 1, b);
    assert whole == right || (whole == left && right == 0);
    var f := Misjudged(books, employee, a, m, b, wo);
    var less := whole == right && whole < left;
    forall i | 0 <= i < |books.logs| ensures if less then f(books.logs[i]) <= 0 else f(books.logs[i]) >= 0 {
      MisjudgedIs(books, employee, a, m, b, wo, books.logs[i]);
    }
  }

  /** A record that may count as short, is short against `x` and is not short against `y`. */
  function ShortOnly(books: Books, employee: int, a: int, b: int, wo: bool, x: int -> int, y: int -> int): Log -> int {
    (l: Log) =>
      if a <= l.date <= b && MayFallShort(books, employee, wo, l)
         && FellShort(DaySeconds(books.sessions, employee, l.date), x(l.date))
         && !FellShort(DaySeconds(books.sessions, employee, l.date), y(l.date)) then 1 else 0
  }

  /** Half days inferred from the clock are judged against one shift per window.  On any
      roster they add up exactly when as many days are short in the whole window alone as
      are short in their own part alone. */
  lemma HalfDaysAddOnAnyRoster(books: Books, employee: int, a: int, m: int, b: int, wo: bool)
    requires a - 1 <= m <= b
    ensures var whole, own := (d: int) => RosteredSeconds(books.roster, employee, a, b),
      (d: int) => OwnShift(books, employee, a, m, b, d);
      HalfDaysAdd(books, employee, a, m, b, wo) <==>
        Total(books.logs, ShortOnly(books, employee, a, b, wo, whole, own))
        == Total(books.logs, ShortOnly(books, employee, a, b, wo, own, whole))
  {
    hide RosteredSeconds, DaySeconds, OwnShift, MayFallShort, FellShort, Short, HalfDaysAdd;
    var whole, own := (d: int) => RosteredSeconds(books.roster, employee, a, b),
        (d: int) => OwnShift(books, employee, a, m, b, d);
    var gained := ShortOnly(books, employee, a, b, wo, whole, own);
    var lost := ShortOnly(books, employee, a, b, wo, own, whole);
    var f := Misjudged(books, employee, a, m, b, wo);
    forall i | 0 <= i < |books.logs| ensures gained(books.logs[i]) == f(books.logs[i]) + lost(books.logs[i]) {
      MisjudgedIs(books, employee, a, m, b, wo, books.logs[i]);
    }
    TotalAdds(books.logs, gained, f, lost);
    HalfDaysDiffer(books, employee, a, m, b, wo);
  }

  /** On a roster without overlaps, whose rows do not end before they start, they add up
      exactly when no day is judged differently in the whole window and in its own part. */
  lemma HalfDaysAddExactly(books: Books, employee: int, a: int, m: int, b: int, wo: bool)
    requires a - 1 <= m <= b && SingleCover(books.roster) && forall x | x in books.roster :: Proper(x)
    ensures HalfDaysAdd(books, employee, a, m, b, wo) <==> JudgedAlike(books, employee, a, m, b, wo)
  {
    hide RosteredSeconds, DaySeconds, OwnShift, MayFallShort, FellShort, Misjudged, HalfDaysAdd;
    HalfDaysDiffer(books, employee, a, m, b, wo);
    MisjudgedOneWay(books, employee, a, m, b, wo);
    OneSign(books.logs, Misjudged(books, employee, a, m, b, wo));
    forall i | 0 <= i < |books.logs| { MisjudgedIs(books, employee, a, m, b, wo, books.logs[i]); }
  }

  /** In particular they add up, on any roster, where both parts and the whole are judged
      against the same length of shift. */
  lemma HalfDaysAddOnOneShift(books: Books, employee: int, a: int, m: int, b: int, wo: bool)
    requires a - 1 <= m <= b
    requires RosteredSeconds(books.roster, employee, a, m) == RosteredSeconds(books.roster, employee, m + 1, b)
          == RosteredSeconds(books.roster, employee, a, b)
    ensures HalfDaysAdd(books, employee, a, m, b, wo)
  {
    HalfDaysDiffer(books, employee, a, m, b, wo);
    forall i | 0 <= i < |books.logs| ensures Misjudged(books, employee, a, m, b, wo)(books.logs[i]) == 0 {
      MisjudgedIs(books, employee, a, m, b, wo, books.logs[i]);
    }
    OneSign(books.logs, Misjudged(books, employee, a, m, b, wo));
  }

  const EIGHT_HOURS := Assignment(1, Shift(0, 480 * MINUTE, 0, None, false), 1, Some(10))
  const FOUR_HOURS := Assignment(1, Shift(0, 240 * MINUTE, 0, None, false), 11, Some(20))

  /** Three hours worked on day 5, on an eight-hour shift that a four-hour one follows. */
  const TWO_SHIFTS := Books([Log(1, 5, None, None, Present, Web)],
    [Session(1, 5, 0, Some(10_800 * SECOND), None, false)],
                            [], [], [EIGHT_HOURS, FOUR_HOURS], None, {})

  lemma RosteredInExample()
    ensures RosteredSeconds(TWO_SHIFTS.roster, 1, 1, 10) == 28_800
    ensures RosteredSeconds(TWO_SHIFTS.roster, 1, 11, 20) == RosteredSeconds(TWO_SHIFTS.roster, 1, 1, 20) == 14_400
  {
    LatestOfTwo(EIGHT_HOURS, FOUR_HOURS, 1, 1, 20);
    LatestOfTwo(EIGHT_HOURS, FOUR_HOURS, 1, 1, 10);
    LatestOfTwo(EIGHT_HOURS, FOUR_HOURS, 1, 11, 20);
  }

  /** They do not add up in general: the day is short against the shift it was worked on,
      but the whole window is judged by the later, shorter one. */
  lemma ShortDaysMayNotAdd()
    ensures Summary(TWO_SHIFTS, 1, 1, 10, false).halfDays == 1
    ensures Summary(TWO_SHIFTS, 1, 11, 20, false).halfDays == Summary(TWO_SHIFTS, 1, 1, 20, false).halfDays == 0
  {
    var log, ses := TWO_SHIFTS.logs[0], TWO_SHIFTS.sessions[0];
    assert Seconds(ses) == 10_800;
    RosteredInExample();
    OneDay(TWO_SHIFTS, log, ses, 1, 20);
    OneDay(TWO_SHIFTS, log, ses, 1, 10);
    OneDay(TWO_SHIFTS, log, ses, 11, 20);
  }

  lemma OneDay(books: Books, log: Log, ses: Session, a: int, b: int)
    requires books.logs == [log] && books.sessions == [ses]
    requires log.employee == ses.employee == 1 && log.date == ses.date && log.status == Present
    ensures Summary(books, 1, a, b, false).halfDays ==
      if a <= log.date <= b && FellShort(Seconds(ses), RosteredSeconds(books.roster, 1, a, b)) then 1 else 0
  {
    assert books.logs[..0] == [] && books.sessions[..0] == [] && books.logs[0] == log;
    assert DaySeconds(books.sessions[..0], 1, log.date) == 0;
    assert DaySeconds(books.sessions, 1, log.date) == Seconds(ses);
    var f, g := OfStatus(books, 1, a, b, false, HalfDay),
        Short(books, 1, a, b, false, RosteredSeconds(books.roster, 1, a, b));
    assert Total(books.logs[..0], f) == 0 && Total(books.logs[..0], g) == 0;
    assert Total(books.logs, f) == f(log) == 0;
    assert Total(books.logs, g) == g(log);
    assert !MarkedHalf(books, 1, log.date);
  }

  lemma LatestOfTwo(x: Assignment, y: Assignment, employee: int, a: int, b: int)
    requires x.start < y.start
    ensures LatestTouching([x, y], employee, a, b) ==
      if Touches(y, employee, a, b) then Some(y) else if Touches(x, employee, a, b) then Some(x) else None
  {
  }

  const TEN_HOURS := Assignment(1, Shift(0, 600 * MINUTE, 0, None, false), 1, Some(4))
  const LATER_FOUR := Assignment(1, Shift(0, 240 * MINUTE, 0, None, false), 9, Some(20))
  const BACKWARDS := Assignment(1, Shift(0, 480 * MINUTE, 0, None, false), 10, Some(5))

  /** Three rows that are admitted one after another, the last of which ends before it starts:
      it belongs to no day, and still judges the window that holds both its ends. */
  lemma BackwardsRowIsAdmitted()
    ensures Admissible([], None, TEN_HOURS) && Admissible([TEN_HOURS], None, LATER_FOUR)
    ensures Admissible([TEN_HOURS, LATER_FOUR], None, BACKWARDS) && !exists d :: Covers(BACKWARDS, 1, d)
    ensures var r := [TEN_HOURS, LATER_FOUR, BACKWARDS];
      && RosteredSeconds(r, 1, 1, 7) == 36_000 && RosteredSeconds(r, 1, 8, 20) == 14_400
      && RosteredSeconds(r, 1, 1, 20) == 28_800
  {
    hide LatestTouching;
    var r := [TEN_HOURS, LATER_FOUR, BACKWARDS];
    LatestIsAt(r, 0, 1, 1, 7);
    LatestIsAt(r, 1, 1, 8, 20);
    LatestIsAt(r, 2, 1, 1, 20);
  }

  lemma SecondsOfTwo(x: Session, y: Session, employee: int, date: int)
    ensures DaySeconds([x, y], employee, date) ==
      (if OfDay(x, employee, date) then Seconds(x) else 0) + (if OfDay(y, employee, date) then Seconds(y) else 0)
  {
    assert [x, y][..1] == [x] && [x][..0] == [];
    assert DaySeconds([x], employee, date) == if OfDay(x, employee, date) then Seconds(x) else 0;
  }

  /** Four and a half hours on day 5 and three on day 9. */
  const THREE_ROWS := Books([Log(1, 5, None, None, Present, Web), Log(1, 9, None, None, Present, Web)],
    [Session(1, 5, 0, Some(16_200 * SECOND), None, false), Session(1, 9, 0, Some(10_800 * SECOND), None, false)],
                            [], [], [TEN_HOURS, LATER_FOUR, BACKWARDS], None, {})

  /** There the half days add up although two days are judged differently: one is short only
      in its own part, the other only in the whole. */
  lemma BackwardsRowCancels()
    ensures HalfDaysAdd(THREE_ROWS, 1, 1, 7, 20, false) && !JudgedAlike(THREE_ROWS, 1, 1, 7, 20, false)
  {
    hide RosteredSeconds, HalfDaysAdd;
    BackwardsRowIsAdmitted();
    var books, ss := THREE_ROWS, THREE_ROWS.sessions;
    SecondsOfTwo(ss[0], ss[1], 1, 5);
    SecondsOfTwo(ss[0], ss[1], 1, 9);
    assert ss == [ss[0], ss[1]] && Seconds(ss[0]) == 16_200 && Seconds(ss[1]) == 10_800;
    assert DaySeconds(ss, 1, 5) == 16_200 && DaySeconds(ss, 1, 9) == 10_800;
    var f := Misjudged(books, 1, 1, 7, 20, false);
    MisjudgedIs(books, 1, 1, 7, 20, false, books.logs[0]);
    MisjudgedIs(books, 1, 1, 7, 20, false, books.logs[1]);
    assert f(books.logs[0]) == -1 && f(books.logs[1]) == 1;
    assert books.logs[..1] == [books.logs[0]] && books.logs[..1][..0] == [];
    assert Total(books.logs, f) == 0;
    HalfDaysDiffer(books, 1, 1, 7, 20, false);
  }

  /** The only row of latest start is the one chosen. */
  lemma LatestIsAt(r: seq<Assignment>, i: nat, employee: int, a: int, b: int)
    requires i < |r| && Touches(r[i], employee, a, b)
    requires forall k | 0 <= k < |r| && k != i && Touches(r[k], employee, a, b) :: r[k].start < r[i].start
    ensures LatestTouching(r, employee, a, b) == Some(r[i])
  {
  }

  // ---------- a half day is charged once ----------

  ghost predicate HalfLike(books: Books, employee: int, wo: bool, shift: int, date: int) {
    && Chargeable(books, wo, date)
    && (MarkedHalf(books, employee, date)
        || ((exists i | 0 <= i < |books.logs| :: books.logs[i].employee == employee && books.logs[i].date == date)
            && FellShort(DaySeconds(books.sessions, employee, date), shift)))
  }

  ghost function HalfDates(books: Books, employee: int, a: int, b: int, wo: bool): set<int> {
    set d | a <= d <= b && HalfLike(books, employee, wo, RosteredSeconds(books.roster, employee, a, b), d)
  }

  function Dates(logs: seq<Log>, f: Log -> int): set<int> {
    set l | l in logs && f(l) == 1 :: l.date
  }

  lemma DatesStep(front: seq<Log>, last: Log, f: Log -> int)
    ensures Dates(front + [last], f) == Dates(front, f) + (if f(last) == 1 then {last.date} else {})
  {
  }

  lemma DatedOnce(logs: seq<Log>, employee: int, f: Log -> int, n: nat)
    requires OneRecordPerDay(logs) && n < |logs| && logs[n].employee == employee
    requires forall l | l in logs[..n] && f(l) == 1 :: l.employee == employee
    ensures logs[n].date !in Dates(logs[..n], f)
  {
  }

  /** A 0/1 sum over one employee's rows, one a day, is the number of dates that count. */
  lemma {:induction false} TotalIsCount(logs: seq<Log>, employee: int, f: Log -> int)
    requires OneRecordPerDay(logs)
    requires forall l | l in logs :: f(l) == 0 || (f(l) == 1 && l.employee == employee)
    ensures |Dates(logs, f)| == Total(logs, f)
  {
    if logs == [] {
      assert Dates(logs, f) == {};
    } else {
      var n := |logs| - 1;
      assert logs == logs[..n] + [logs[n]];
      TotalIsCount(logs[..n], employee, f);
      DatesStep(logs[..n], logs[n], f);
      if f(logs[n]) == 1 { DatedOnce(logs, employee, f, n); }
    }
  }

  /** What one record adds to `half_days`. */
  function HalfRow(books: Books, employee: int, a: int, b: int, wo: bool): Log -> int {
    var marked, short := OfStatus(books, employee, a, b, wo, HalfDay),
        Short(books, employee, a, b, wo, RosteredSeconds(books.roster, employee, a, b));
    (l: Log) => marked(l) + short(l)
  }

  /** A record is never counted both as marked and as short. */
  lemma HalfRowIs(books: Books, employee: int, a: int, b: int, wo: bool, l: Log)
    requires l in books.logs
    ensures HalfRow(books, employee, a, b, wo)(l) ==
      if l.employee == employee && l.date in HalfDates(books, employee, a, b, wo)
         && (MarkedHalf(books, employee, l.date) ==> l.status == HalfDay) then 1 else 0
  {
    hide RosteredSeconds, DaySeconds, Chargeable, FellShort;
  }

  /** A date counts as half when a record of it does. */
  lemma HalfDateHasRow(books: Books, employee: int, a: int, b: int, wo: bool, d: int)
    requires d in HalfDates(books, employee, a, b, wo)
    ensures exists l | l in books.logs && HalfRow(books, employee, a, b, wo)(l) == 1 :: l.date == d
  {
    hide RosteredSeconds, DaySeconds, Chargeable, FellShort;
    var i: nat :| i < |books.logs| && books.logs[i].employee == employee && books.logs[i].date == d
                  && (MarkedHalf(books, employee, d) ==> books.logs[i].status == HalfDay);
    HalfRowIs(books, employee, a, b, wo, books.logs[i]);
  }

  /** `half_days` is the number of distinct chargeable dates that HR marked or that fell
      short of half the rostered shift, each once. */
  lemma HalfDaysExactly(books: Books, employee: int, a: int, b: int, wo: bool)
    requires OneRecordPerDay(books.logs)
    ensures Summary(books, employee, a, b, wo).halfDays == |HalfDates(books, employee, a, b, wo)|
  {
    hide RosteredSeconds, DaySeconds, Chargeable, FellShort, HalfDates;
    var f := HalfRow(books, employee, a, b, wo);
    TotalAdds(books.logs, f, OfStatus(books, employee, a, b, wo, HalfDay),
              Short(books, employee, a, b, wo, RosteredSeconds(books.roster, employee, a, b)));
    hide OfStatus, Short, HalfRow, MarkedHalf;
    forall l | l in books.logs ensures f(l) == 0 || (f(l) == 1 && l.employee == employee) {
      HalfRowIs(books, employee, a, b, wo, l);
    }
    TotalIsCount(books.logs, employee, f);
    var dates := Dates(books.logs, f);
    forall d ensures d in dates <==> d in HalfDates(books, employee, a, b, wo) {
      if d in HalfDates(books, employee, a, b, wo) { HalfDateHasRow(books, employee, a, b, wo, d); }
      if d in dates {
        var l :| l in books.logs && f(l) == 1 && l.date == d;
        HalfRowIs(books, employee, a, b, wo, l);
      }
    }
    assert dates == HalfDates(books, employee, a, b, wo);
  }

  /** So on the working-day basis they never exceed the days the divisor counted. */
  lemma HalfDaysWithinWorkingDays(books: Books, employee: int, a: int, b: int)
    requires OneRecordPerDay(books.logs)
    ensures Summary(books, employee, a, b, true).halfDays <= Summary(books, employee, a, b, true).workingDays
  {
    HalfDaysExactly(books, employee, a, b, true);
    WorkingSetSize(books, a, b);
    SubsetSize(HalfDates(books, employee, a, b, true), WorkingSet(books, a, b));
  }

  lemma {:induction false} WorkingSetSize(books: Books, a: int, b: int)
    ensures |WorkingSet(books, a, b)| == DayTotal(a, b, WorkingDay(books))
    decreases b - a
  {
    if a <= b {
      WorkingSetSize(books, a, b - 1);
      WorkingSetGrows(books, a, b);
    } else {
      assert WorkingSet(books, a, b) == {};
    }
  }

  lemma {:induction false} SubsetSize<T>(x: set<T>, y: set<T>)
    requires x <= y
    ensures |x| <= |y|
  {
    assert y == x + (y - x);
  }

  // ---------- payroll and the punch history agree ----------

  /** Payroll's worked seconds are the punch history's exactly when no day of the window
      sums below zero; payroll skips such a day and the history subtracts it. */
  lemma WorkedIsHistoryExactly(books: Books, employee: int, a: int, b: int)
    ensures var listed := Total(History(books.logs, books.sessions, employee, a, b), RowSeconds);
      WorkedSeconds(books, employee, a, b) == listed <==>
      forall i | 0 <= i < |books.logs| && books.logs[i].employee == employee && a <= books.logs[i].date <= b ::
        DaySeconds(books.sessions, employee, books.logs[i].date) >= 0
  {
    var history, worked := HistorySeconds(books.sessions, employee, a, b), Worked(books, employee, a, b);
    var lost := (l: Log) => history(l) - worked(l);
    HistoryTotals(books.logs, books.sessions, employee, a, b);
    TotalAdds(books.logs, history, worked, lost);
    TotalOfNonPositive(books.logs, lost);
    if forall i | 0 <= i < |books.logs| && books.logs[i].employee == employee && a <= books.logs[i].date <= b ::
        DaySeconds(books.sessions, employee, books.logs[i].date) >= 0 {
      assert forall i | 0 <= i < |books.logs| :: lost(books.logs[i]) == 0;
    } else {
      var i :| 0 <= i < |books.logs| && books.logs[i].employee == employee && a <= books.logs[i].date <= b
        && DaySeconds(books.sessions, employee, books.logs[i].date) < 0;
      assert lost(books.logs[i]) < 0;
    }
  }

  /** In every state a run can reach they agree. */
  lemma WorkedIsHistoryInEveryRun(books: Books, employee: int, a: int, b: int,
      steps: seq<(Settings, Event)>, clock: int)
    requires Monotone(steps, clock) && Store(books.logs, books.sessions) == Run(Store([], []), steps)
    ensures WorkedSeconds(books, employee, a, b)
      == Total(History(books.logs, books.sessions, employee, a, b), RowSeconds)
  {
    RunKeepsInv(Store([], []), steps, clock);
    forall d ensures DaySeconds(books.sessions, employee, d) >= 0 {
      NeverNegative(books.sessions, employee, d, Clock(steps, clock));
    }
    WorkedIsHistoryExactly(books, employee, a, b);
  }

  lemma {:induction false} NeverNegative(ss: seq<Session>, employee: int, date: int, clock: int)
    requires SessionsOk(ss, clock)
    ensures DaySeconds(ss, employee, date) >= 0
  {
    if ss != [] {
      assert SessionOk(ss[|ss| - 1], clock);
      NeverNegative(ss[..|ss| - 1], employee, date, clock);
    }
  }

  // ---------- night shifts ----------

  predicate NightCover(roster: seq<Assignment>, employee: int, date: int) {
    exists i | 0 <= i < |roster| :: Covers(roster[i], employee, date) && roster[i].shift.isNight
  }

  /** The worked dates of a window that fall under a night assignment. */
  function NightSet(worked: set<int>, roster: seq<Assignment>, employee: int): set<int> {
    set d | d in worked && NightCover(roster, employee, d)
  }

  /** Under the roster invariant each worked night is paid once: the count is the number of
      worked dates whose covering shift is a night shift. */
  lemma NightsPaidOnce(books: Books, employee: int, a: int, b: int)
    requires SingleCover(books.roster)
    ensures var worked := WorkedDates(books, employee, a, b);
      Summary(books, employee, a, b, true).nightShifts == |NightSet(worked, books.roster, employee)| <= |worked|
  {
    NightsCounted(books, employee, a, b, books.roster);
    SubsetSize(NightSet(WorkedDates(books, employee, a, b), books.roster, employee),
      WorkedDates(books, employee, a, b));
  }

  lemma NightSetStep(worked: set<int>, roster: seq<Assignment>, employee: int)
    requires SingleCover(roster) && roster != []
    ensures var n := |roster| - 1;
      var before := NightSet(worked, roster[..n], employee);
      var more := set d | d in worked && Covers(roster[n], employee, d);
      if roster[n].shift.isNight then NightSet(worked, roster, employee) == before + more && before !! more
      else NightSet(worked, roster, employee) == before
  {
  }

  lemma {:induction false} NightsCounted(books: Books, employee: int, a: int, b: int, roster: seq<Assignment>)
    requires SingleCover(roster)
    ensures |NightSet(WorkedDates(books, employee, a, b), roster, employee)|
      == Total(roster, NightsUnder(books, employee, a, b))
  {
    var worked := WorkedDates(books, employee, a, b);
    if roster == [] {
      assert NightSet(worked, roster, employee) == {};
    } else {
      var n := |roster| - 1;
      NightsCounted(books, employee, a, b, roster[..n]);
      NightSetStep(worked, roster, employee);
      if roster[n].employee != employee {
        assert (set d | d in worked && Covers(roster[n], employee, d)) == {};
      }
    }
  }
}
