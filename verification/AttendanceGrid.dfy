/** The per-employee, per-day status grid (backend/attendance/views.py): three loops write
    one dictionary, and the order they run in is the precedence rule. */
module AttendanceGrid {
  import opened Options
  import opened Punches
  import opened PunchRuns
  import opened PayrollSummary

  datatype Cell = OfLog(status: Status) | OnLeave | Holiday

  type Grid = map<(int, int), Cell>

  predicate LeaveOn(leaves: seq<Leave>, employee: int, date: int) {
    exists i | 0 <= i < |leaves| ::
      leaves[i].employee == employee && leaves[i].approved && leaves[i].start <= date <= leaves[i].end
  }

  /** The documented precedence: holiday, then approved leave, then the day's record; a date
      with none of them has no cell. */
  function Rule(logs: seq<Log>, leaves: seq<Leave>, holidays: seq<int>, employees: seq<int>, start: int, end: int,
                employee: int, date: int): Option<Cell> {
    if !(employee in employees && start <= date <= end) then None
    else if date in holidays then Some(Holiday)
    else if LeaveOn(leaves, employee, date) then Some(OnLeave)
    else
      var j := LogIndex(logs, employee, date);
      if j.Some? then Some(OfLog(logs[j.value].status)) else None
  }

  predicate Shows(grid: Grid, employee: int, date: int, cell: Option<Cell>) {
    if cell.None? then (employee, date) !in grid
    else (employee, date) in grid && grid[(employee, date)] == cell.value
  }

  lemma LastLogWins(logs: seq<Log>, n: nat, employee: int, date: int)
    requires OneRecordPerDay(logs) && n < |logs|
    ensures LogIndex(logs[..n + 1], employee, date) ==
      if logs[n].employee == employee && logs[n].date == date then Some(n) else LogIndex(logs[..n], employee, date)
  {
    assert logs[..n + 1][..n] == logs[..n];
    var j := LogIndex(logs[..n], employee, date);
    if j.Some? { assert logs[j.value].employee == employee && logs[j.value].date == date; }
  }

  lemma LeaveOnStep(leaves: seq<Leave>, n: nat, employee: int, date: int)
    requires n < |leaves|
    ensures LeaveOn(leaves[..n + 1], employee, date) <==>
      LeaveOn(leaves[..n], employee, date)
      || (leaves[n].employee == employee && leaves[n].approved && leaves[n].start <= date <= leaves[n].end)
  {
  }

  method LayLogs(logs: seq<Log>, employees: seq<int>, start: int, end: int) returns (merged: Grid)
    requires OneRecordPerDay(logs)
    ensures forall e, d :: Shows(merged, e, d, Rule(logs, [], [], employees, start, end, e, d))
  {
    merged := map[];
    for n := 0 to |logs|
      invariant forall e, d :: Shows(merged, e, d, Rule(logs[..n], [], [], employees, start, end, e, d))
    {
      ghost var before := merged;
      var l := logs[n];
      if l.employee in employees && start <= l.date <= end {
        merged := merged[(l.employee, l.date) := OfLog(l.status)];
      }
      ghost var upTo := logs[..n + 1];
      forall e, d ensures Shows(merged, e, d, Rule(upTo, [], [], employees, start, end, e, d)) {
        LastLogWins(logs, n, e, d);
        assert Shows(before, e, d, Rule(logs[..n], [], [], employees, start, end, e, d));
      }
    }
    assert logs[..|logs|] == logs;
  }

  /** One approved span, day by day. */
  method LaySpan(grid: Grid, employee: int, first: int, last: int) returns (merged: Grid)
    ensures forall e, d :: (e, d) in merged <==> (e, d) in grid || (e == employee && first <= d <= last)
    ensures forall e, d | (e, d) in merged ::
      merged[(e, d)] == if e == employee && first <= d <= last then OnLeave else grid[(e, d)]
  {
    merged := grid;
    var day := first;
    while day <= last
      invariant day == first || day <= last + 1
      invariant first <= day
      invariant forall e, d :: (e, d) in merged <==> (e, d) in grid || (e == employee && first <= d < day)
      invariant forall e, d | (e, d) in merged ::
        merged[(e, d)] == if e == employee && first <= d < day then OnLeave else grid[(e, d)]
    {
      merged := merged[(employee, day) := OnLeave];
      day := day + 1;
    }
  }

  method LayLeaves(grid: Grid, logs: seq<Log>, leaves: seq<Leave>, employees: seq<int>, start: int, end: int)
      returns (merged: Grid)
    requires forall e, d :: Shows(grid, e, d, Rule(logs, [], [], employees, start, end, e, d))
    ensures forall e, d :: Shows(merged, e, d, Rule(logs, leaves, [], employees, start, end, e, d))
  {
    merged := grid;
    for n := 0 to |leaves|
      invariant forall e, d :: Shows(merged, e, d, Rule(logs, leaves[..n], [], employees, start, end, e, d))
    {
      ghost var before := merged;
      var r := leaves[n];
      if r.employee in employees && r.approved && r.start <= end && r.end >= start {
        merged := LaySpan(merged, r.employee, if r.start > start then r.start else start,
          if r.end < end then r.end else end);
      }
      ghost var upTo := leaves[..n + 1];
      forall e, d ensures Shows(merged, e, d, Rule(logs, upTo, [], employees, start, end, e, d)) {
        LeaveOnStep(leaves, n, e, d);
        assert Shows(before, e, d, Rule(logs, leaves[..n], [], employees, start, end, e, d));
      }
    }
    assert leaves[..|leaves|] == leaves;
  }

  method LayHoliday(grid: Grid, date: int, employees: seq<int>) returns (merged: Grid)
    ensures forall e, d :: (e, d) in merged <==> (e, d) in grid || (e in employees && d == date)
    ensures forall e, d | (e, d) in merged ::
      merged[(e, d)] == if e in employees && d == date then Holiday else grid[(e, d)]
  {
    merged := grid;
    for n := 0 to |employees|
      invariant forall e, d :: (e, d) in merged <==> (e, d) in grid || (e in employees[..n] && d == date)
      invariant forall e, d | (e, d) in merged ::
        merged[(e, d)] == if e in employees[..n] && d == date then Holiday else grid[(e, d)]
    {
      merged := merged[(employees[n], date) := Holiday];
      assert employees[..n + 1] == employees[..n] + [employees[n]];
    }
    assert employees[..|employees|] == employees;
  }

  /** The merge: the three loops build exactly the pointwise rule, for every employee and
      every date. */
  method Merge(logs: seq<Log>, leaves: seq<Leave>, holidays: seq<int>, employees: seq<int>, start: int, end: int)
      returns (merged: Grid)
    requires OneRecordPerDay(logs)
    ensures forall e, d :: Shows(merged, e, d, Rule(logs, leaves, holidays, employees, start, end, e, d))
  {
    merged := LayLogs(logs, employees, start, end);
    merged := LayLeaves(merged, logs, leaves, employees, start, end);
    for n := 0 to |holidays|
      invariant forall e, d :: Shows(merged, e, d, Rule(logs, leaves, holidays[..n], employees, start, end, e, d))
    {
      ghost var before := merged;
      if start <= holidays[n] <= end { merged := LayHoliday(merged, holidays[n], employees); }
      ghost var upTo := holidays[..n + 1];
      assert upTo == holidays[..n] + [holidays[n]];
      forall e, d ensures Shows(merged, e, d, Rule(logs, leaves, upTo, employees, start, end, e, d)) {
        assert Shows(before, e, d, Rule(logs, leaves, holidays[..n], employees, start, end, e, d));
      }
    }
    assert holidays[..|holidays|] == holidays;
  }

  /** The precedence, told by what each cell means.  Outside the list and the range there is no
      cell; a holiday stands whatever else is on file, approved leave where there is no
      holiday, and the day's record where there is neither. */
  lemma CellsMean(logs: seq<Log>, leaves: seq<Leave>, holidays: seq<int>, employees: seq<int>, start: int, end: int,
                  employee: int, date: int)
    requires OneRecordPerDay(logs)
    ensures var cell, listed := Rule(logs, leaves, holidays, employees, start, end, employee, date),
      employee in employees && start <= date <= end;
      var away := exists r | r in leaves :: r.employee == employee && r.approved && r.start <= date <= r.end;
      && (cell == Some(Holiday) <==> listed && date in holidays)
      && (cell == Some(OnLeave) <==> listed && date !in holidays && away)
      && (forall l | l in logs && l.employee == employee && l.date == date ::
            cell == Some(OfLog(l.status)) <==> listed && date !in holidays && !away)
      && (cell.Some? && cell.value.OfLog? ==> exists l | l in logs :: l.employee == employee && l.date == date)
  {
    var j := LogIndex(logs, employee, date);
    if j.Some? { assert logs[j.value] in logs; }
    forall l | l in logs && l.employee == employee && l.date == date ensures j.Some? && l == logs[j.value] {
      var k :| 0 <= k < |logs| && logs[k] == l;
    }
    if r :| r in leaves && r.employee == employee && r.approved && r.start <= date <= r.end {
      var i :| 0 <= i < |leaves| && leaves[i] == r;
    }
    if i :| 0 <= i < |leaves| && leaves[i].employee == employee && leaves[i].approved
            && leaves[i].start <= date <= leaves[i].end { assert leaves[i] in leaves; }
  }
}
