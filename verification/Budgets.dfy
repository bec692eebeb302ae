/** Expense budgets and the claim lifecycle (backend/expenses/budgets.py, services.py,
    models.py, and the status guards of viewsets.py).  Money is in hundredths. */
module Budgets {
  import opened Options
  import opened Sums
  import opened Calendars

  datatype Category = Travel | Meals | Supplies | Software | Training | Other
  datatype Status = Pending | Approved | Rejected | Reimbursed | Cancelled
  datatype Claim = Claim(employee: int, category: Category, amount: int, date: int, status: Status)

  datatype Period = FiscalYear | Monthly
  datatype Enforcement = Block | Warn
  datatype Budget = Budget(category: Option<Category>, department: Option<int>, employee: Option<int>, period: Period,
                           amount: int, cap: Option<int>, warnAt: nat, enforcement: Enforcement, isActive: bool)

  /** The company's rules: its calendar, its budgets, and who sits in which department. */
  datatype Rules = Rules(calendar: Calendar, budgets: seq<Budget>, departments: map<int, int>)

  predicate InScope(rules: Rules, b: Budget, employee: int, category: Category) {
    && (b.category.None? || b.category.value == category)
    && (b.employee.None? || b.employee.value == employee)
    && (b.department.None? || (employee in rules.departments && rules.departments[employee] == b.department.value))
  }

  /** `(employee, department, category)` compared as a tuple. */
  function Specificity(b: Budget): nat {
    (if b.employee.Some? then 4 else 0) + (if b.department.Some? then 2 else 0) + (if b.category.Some? then 1 else 0)
  }

  predicate Candidate(rules: Rules, i: nat, employee: int, category: Category)
    requires i < |rules.budgets|
  {
    rules.budgets[i].isActive && InScope(rules, rules.budgets[i], employee, category)
  }

  /** The first of the most specific candidates: a stable sort, then its head. */
  function Applicable(rules: Rules, employee: int, category: Category): (r: Option<nat>)
    ensures r.Some? ==> r.value < |rules.budgets|
  {
    BestOf(rules, employee, category, |rules.budgets|)
  }

  function BestOf(rules: Rules, employee: int, category: Category, n: nat): (r: Option<nat>)
    requires n <= |rules.budgets|
    ensures r.None? <==> forall i: nat | i < n :: !Candidate(rules, i, employee, category)
    ensures r.Some? ==> r.value < n && Candidate(rules, r.value, employee, category)
    ensures r.Some? ==> forall i: nat | i < n && Candidate(rules, i, employee, category) ::
      Specificity(rules.budgets[i]) < Specificity(rules.budgets[r.value])
      || (Specificity(rules.budgets[i]) == Specificity(rules.budgets[r.value]) && r.value <= i)
  {
    if n == 0 then None
    else
      var front := BestOf(rules, employee, category, n - 1);
      if Candidate(rules, n - 1, employee, category)
         && (front.None? || Specificity(rules.budgets[front.value]) < Specificity(rules.budgets[n - 1]))
      then Some(n - 1) else front
  }

  /** An active budget that says nothing against the claim. */
  predicate Admits(rules: Rules, b: Budget, employee: int, category: Category) {
    && b.isActive
    && (b.category.Some? ==> b.category.value == category) && (b.employee.Some? ==> b.employee.value == employee)
    && (b.department.Some? ==>
      employee in rules.departments && rules.departments[employee] == b.department.value)
  }

  lemma CandidatesAdmit(rules: Rules, employee: int, category: Category)
    ensures forall i: nat | i < |rules.budgets| ::
      Candidate(rules, i, employee, category) <==> Admits(rules, rules.budgets[i], employee, category)
  {
  }

  /** The budget that governs a claim: where any that admits it names the employee, this one
      does; among those alike in that, the same of the department, and then of the category;
      and of those alike in all three it is the first.  None governs where none admits it. */
  lemma GoverningExactly(rules: Rules, employee: int, category: Category)
    ensures var r := Applicable(rules, employee, category);
      && (r.None? <==> forall b | b in rules.budgets :: !Admits(rules, b, employee, category))
      && (r.Some? ==>
        var g := rules.budgets[r.value];
        && Admits(rules, g, employee, category)
        && forall i: nat | i < |rules.budgets| && Admits(rules, rules.budgets[i], employee, category) ::
             var b := rules.budgets[i];
             if b.employee.Some? != g.employee.Some? then g.employee.Some?
             else if b.department.Some? != g.department.Some? then g.department.Some?
             else if b.category.Some? != g.category.Some? then g.category.Some?
             else r.value <= i)
  {
    CandidatesAdmit(rules, employee, category);
    hide Candidate, Admits;
    if forall b | b in rules.budgets :: !Admits(rules, b, employee, category) {
      forall i: nat | i < |rules.budgets| ensures !Candidate(rules, i, employee, category) {
        assert rules.budgets[i] in rules.budgets;
      }
    }
    if b :| b in rules.budgets && Admits(rules, b, employee, category) {
      var i: nat :| i < |rules.budgets| && rules.budgets[i] == b;
      assert Candidate(rules, i, employee, category);
    }
  }

  // ---------- the window a pool is measured over ----------

  datatype Window = Days(first: int, last: int) | NoWindow | Raises

  predicate Holds(w: Window, date: int) {
    w.Days? && w.first <= date <= w.last
  }

  /** The calendar has months to look up. */
  predicate Tabled(cal: Calendar) {
    |cal.starts| > 1 && |cal.starts| == |cal.lengths| + 1
  }

  function PeriodBounds(cal: Calendar, period: Period, date: int): Window
    requires Tabled(cal)
  {
    match period
    case Monthly =>
      var local := cal.FromGregorian(date);
      if local.None? then Raises
      else
        var first := cal.MonthStart(local.value.year, local.value.month);
        var last := cal.MonthEnd(local.value.year, local.value.month);
        if first.Some? && last.Some? then Days(first.value, last.value) else Raises
    case FiscalYear =>
      var bounds := cal.FiscalYearBounds(FiscalYearFor(cal, date));
      if bounds.Some? then Days(bounds.value.0, bounds.value.1) else NoWindow
  }

  // ---------- what is already committed ----------

  predicate Committed(c: Claim) {
    c.status != Rejected && c.status != Cancelled
  }

  /** What one claim adds to a budget's total over a window. */
  function Share(rules: Rules, b: Budget, w: Window): Claim -> int {
    (c: Claim) => if Holds(w, c.date) && Committed(c) && InScope(rules, b, c.employee, c.category) then c.amount else 0
  }

  function Spent(rules: Rules, claims: seq<Claim>, b: Budget, w: Window): int {
    Total(claims, Share(rules, b, w))
  }

  /** `spent_against`; `excluding` leaves one claim out. */
  function SpentAgainst(rules: Rules, claims: seq<Claim>, b: Budget, w: Window, excluding: Option<nat>): int {
    Spent(rules, claims, b, w)
    - (if excluding.Some? && excluding.value < |claims| then Share(rules, b, w)(claims[excluding.value]) else 0)
  }

  lemma {:induction false} TotalWithout<T>(rows: seq<T>, i: nat, f: T -> int)
    requires i < |rows|
    ensures Total(rows[..i] + rows[i + 1..], f) == Total(rows, f) - f(rows[i])
  {
    var n := |rows| - 1;
    if i < n {
      var front := rows[..n];
      TotalWithout(front, i, f);
      assert front[..i] == rows[..i] && front[i + 1..] == rows[i + 1..n];
      assert (rows[..i] + rows[i + 1..])[..n - 1] == rows[..i] + rows[i + 1..n];
    } else {
      assert rows[..i] + rows[i + 1..] == rows[..n];
    }
  }

  // ---------- may this claim be submitted? ----------

  datatype Verdict = Verdict(allowed: bool, warn: bool, budget: Option<nat>, remaining: Option<int>) | Failed

  /** Has the pool, with the claim in, reached the share at which the submitter is told? */
  predicate WarnDue(b: Budget, used: int)
    requires b.amount != 0
  {
    b.warnAt != 0 && used as real / b.amount as real * 100.0 >= b.warnAt as real
  }

  predicate OverCap(b: Budget, amount: int) {
    b.cap.Some? && b.cap.value != 0 && amount > b.cap.value
  }

  /** What the governing budget says: the cap first, then the pool over its window. */
  function Judge(b: Budget, i: nat, w: Window, spent: int, amount: int): Verdict {
    var warn := b.enforcement == Warn;
    if OverCap(b, amount) then Verdict(warn, warn, Some(i), None)
    else if b.amount == 0 then Verdict(true, false, Some(i), None)
    else if w.Raises? then Failed
    else if amount > b.amount - spent then Verdict(warn, warn, Some(i), Some(b.amount - spent))
    else Verdict(true, WarnDue(b, spent + amount), Some(i), Some(b.amount - spent - amount))
  }

  function Check(rules: Rules, claims: seq<Claim>, employee: int, category: Category, amount: int, date: int,
                 excluding: Option<nat>): Verdict
    requires Tabled(rules.calendar)
  {
    var i := Applicable(rules, employee, category);
    if i.None? then Verdict(true, false, None, None)
    else
      var b := rules.budgets[i.value];
      var w := PeriodBounds(rules.calendar, b.period, date);
      Judge(b, i.value, w, SpentAgainst(rules, claims, b, w, excluding), amount)
  }

  // ---------- the lifecycle ----------

  datatype Step =
    | Submit(employee: int, category: Category, amount: int, date: int)
    | Approve(i: nat) | Reject(i: nat) | Reimburse(i: nat) | Cancel(i: nat)

  function Moved(claims: seq<Claim>, i: nat, from: set<Status>, to: Status): seq<Claim> {
    if i < |claims| && claims[i].status in from then claims[i := claims[i].(status := to)] else claims
  }

  function After(rules: Rules, claims: seq<Claim>, step: Step): seq<Claim>
    requires Tabled(rules.calendar)
  {
    match step
    case Submit(employee, category, amount, date) =>
      var v := Check(rules, claims, employee, category, amount, date, None);
      if v.Verdict? && v.allowed then claims + [Claim(employee, category, amount, date, Pending)] else claims
    case Approve(i) => Moved(claims, i, {Pending}, Approved)
    case Reject(i) => Moved(claims, i, {Pending}, Rejected)
    case Reimburse(i) => Moved(claims, i, {Approved}, Reimbursed)
    case Cancel(i) => Moved(claims, i, {Pending, Approved}, Cancelled)
  }

  function Run(rules: Rules, claims: seq<Claim>, steps: seq<Step>): seq<Claim>
    requires Tabled(rules.calendar)
    decreases |steps|
  {
    if steps == [] then claims else Run(rules, After(rules, claims, steps[0]), steps[1..])
  }

  /** The claim table; the services change a status in place under the lifecycle their
      callers guard: submit, then approve or reject, then reimburse; cancel until then. */
  class ClaimDesk {
    var claims: seq<Claim>

    constructor ()
      ensures claims == []
    {
      claims := [];
    }

    method CreateClaim(rules: Rules, employee: int, category: Category, amount: int, date: int) returns (v: Verdict)
      requires rules.calendar.Valid()
      modifies this
      ensures v == Check(rules, old(claims), employee, category, amount, date, None)
      ensures claims == After(rules, old(claims), Submit(employee, category, amount, date))
    {
      v := Check(rules, claims, employee, category, amount, date, None);
      if v.Verdict? && v.allowed {
        claims := claims + [Claim(employee, category, amount, date, Pending)];
      }
    }

    method ApproveClaim(i: nat)
      requires i < |claims| && claims[i].status == Pending
      modifies this
      ensures claims == old(claims)[i := old(claims)[i].(status := Approved)]
        == Moved(old(claims), i, {Pending}, Approved)
    {
      claims := claims[i := claims[i].(status := Approved)];
    }

    method RejectClaim(i: nat)
      requires i < |claims| && claims[i].status == Pending
      modifies this
      ensures claims == old(claims)[i := old(claims)[i].(status := Rejected)]
        == Moved(old(claims), i, {Pending}, Rejected)
    {
      claims := claims[i := claims[i].(status := Rejected)];
    }

    method ReimburseClaim(i: nat)
      requires i < |claims| && claims[i].status == Approved
      modifies this
      ensures claims == old(claims)[i := old(claims)[i].(status := Reimbursed)]
        == Moved(old(claims), i, {Approved}, Reimbursed)
    {
      claims := claims[i := claims[i].(status := Reimbursed)];
    }

    method CancelClaim(i: nat)
      requires i < |claims| && (claims[i].status == Pending || claims[i].status == Approved)
      modifies this
      ensures claims == old(claims)[i := old(claims)[i].(status := Cancelled)]
        == Moved(old(claims), i, {Pending, Approved}, Cancelled)
    {
      claims := claims[i := claims[i].(status := Cancelled)];
    }
  }

  // ---------- windows ----------

  /** A monthly window is one month of the calendar; the last month of a table has none. */
  lemma MonthlyBounds(cal: Calendar, date: int) returns (k: nat)
    requires cal.Valid() && cal.FromGregorian(date).Some?
    ensures k < |cal.lengths| && cal.starts[k] <= date < cal.starts[k + 1]
    ensures PeriodBounds(cal, Monthly, date) ==
      if cal.leapRule || k + 1 < |cal.lengths| then Days(cal.starts[k], cal.starts[k + 1] - 1) else Raises
  {
    k := Located(cal, date);
    var c := cal.FromGregorian(date).value;
    LengthIsTheTables(cal, c.year, c.month);
    assert cal.starts[k + 1] == cal.starts[k] + cal.lengths[k];
  }

  lemma SameMonth(starts: seq<int>, day: int, j: nat, k: nat)
    requires Increasing(starts) && j + 1 < |starts| && k + 1 < |starts|
    requires starts[j] <= day < starts[j + 1] && starts[k] <= day < starts[k + 1]
    ensures j == k
  {
  }

  /** A window is the window of each of its days, placed by the table or not. */
  lemma WindowOfItsDays(cal: Calendar, period: Period, date: int, day: int)
    requires cal.Valid() && Holds(PeriodBounds(cal, period, date), day)
    ensures PeriodBounds(cal, period, day) == PeriodBounds(cal, period, date)
  {
    match period
    case FiscalYear =>
      FiscalYearIsItsBounds(cal, day, FiscalYearFor(cal, date));
    case Monthly =>
      var j := MonthlyBounds(cal, date);
      InsideTheTable(cal, day, j);
      var k := MonthlyBounds(cal, day);
      SameMonth(cal.starts, day, j, k);
  }

  lemma InsideTheTable(cal: Calendar, day: int, j: nat)
    requires cal.Valid() && j < |cal.lengths| && cal.starts[j] <= day < cal.starts[j + 1]
    ensures cal.FromGregorian(day).Some?
  {
  }

  /** The windows of any two dates are equal or share no day. */
  lemma WindowsAreEqualOrDisjoint(cal: Calendar, period: Period, d: int, e: int, day: int)
    requires cal.Valid()
    requires Holds(PeriodBounds(cal, period, d), day) && Holds(PeriodBounds(cal, period, e), day)
    ensures PeriodBounds(cal, period, d) == PeriodBounds(cal, period, e)
  {
    WindowOfItsDays(cal, period, d, day);
    WindowOfItsDays(cal, period, e, day);
  }

  /** A date that has a window the table can place lies in it. */
  lemma DateInItsWindow(cal: Calendar, period: Period, date: int)
    requires cal.Valid() && cal.FromGregorian(date).Some? && PeriodBounds(cal, period, date).Days?
    ensures Holds(PeriodBounds(cal, period, date), date)
  {
    match period
    case FiscalYear =>
      FiscalYearIsItsBounds(cal, date, FiscalYearFor(cal, date));
    case Monthly =>
      var _ := MonthlyBounds(cal, date);
  }

  /** A monthly window is the days of the date's own month, and only a date without a month
      that ends has none; a yearly one is the days of the date's fiscal year, where that year
      has bounds, and the pool goes unmeasured where it has not. */
  lemma WindowIsExactly(cal: Calendar, date: int, day: int)
    requires cal.Valid()
    ensures var w, here, there := PeriodBounds(cal, Monthly, date), cal.FromGregorian(date), cal.FromGregorian(day);
      if here.None? || cal.MonthLength(here.value.year, here.value.month).None? then w == Raises
      else w.Days? && (Holds(w, day) <==>
        there.Some? && there.value.year == here.value.year && there.value.month == here.value.month)
    ensures var w, year := PeriodBounds(cal, FiscalYear, date), FiscalYearFor(cal, date);
      if cal.FiscalYearBounds(year).None? then w == NoWindow
      else w.Days? && (Holds(w, day) <==> cal.FiscalYearOf(day) == Some(year))
  {
    var year := FiscalYearFor(cal, date);
    if cal.FiscalYearBounds(year).Some? { FiscalYearIsItsBounds(cal, day, year); }
    MonthIsExactly(cal, date, day);
  }

  lemma MonthIsExactly(cal: Calendar, date: int, day: int)
    requires cal.Valid()
    ensures var w, here, there := PeriodBounds(cal, Monthly, date), cal.FromGregorian(date), cal.FromGregorian(day);
      if here.None? || cal.MonthLength(here.value.year, here.value.month).None? then w == Raises
      else w.Days? && (Holds(w, day) <==>
        there.Some? && there.value.year == here.value.year && there.value.month == here.value.month)
  {
    var here := cal.FromGregorian(date);
    if here.Some? {
      var j := MonthlyBounds(cal, date);
      MonthOfIndex(cal, date, j);
      LengthIsTheTables(cal, here.value.year, here.value.month);
      DaysOfTheMonth(cal, day, j, here.value.year, here.value.month);
      hide PeriodBounds;
    }
  }

  /** The days of the k-th month are those that read as its year and month. */
  lemma DaysOfTheMonth(cal: Calendar, day: int, k: nat, year: int, month: int)
    requires cal.Valid() && k < |cal.lengths| && cal.Index(year, month) == k && 1 <= month <= 12
    ensures cal.starts[k] <= day < cal.starts[k + 1] <==>
      var there := cal.FromGregorian(day); there.Some? && there.value.year == year && there.value.month == month
  {
    var there := cal.FromGregorian(day);
    if there.Some? {
      var j := Located(cal, day);
      if j < k { assert cal.starts[j + 1] <= cal.starts[k]; }
      if k < j { assert cal.starts[k + 1] <= cal.starts[j]; }
    } else if cal.starts[k] <= day < cal.starts[k + 1] {
      InsideTheTable(cal, day, k);
    }
  }

  /** The month a day reads as is the one whose days it is among. */
  lemma MonthOfIndex(cal: Calendar, date: int, k: nat)
    requires cal.Valid() && cal.FromGregorian(date).Some? && k < |cal.lengths|
    requires cal.starts[k] <= date < cal.starts[k + 1]
    ensures var c := cal.FromGregorian(date).value;
      cal.Index(c.year, c.month) == k && cal.MonthStart(c.year, c.month).Some?
      && 1 <= c.month <= 12
  {
    var j := Located(cal, date);
    SameMonth(cal.starts, date, j, k);
  }

  // ---------- what each step does to every total ----------

  /** What a pool holds, from nothing: one more claim adds its amount where it is dated in the
      window, neither rejected nor cancelled, and of a category, department and employee the
      budget does not exclude. */
  lemma SpentExactly(rules: Rules, claims: seq<Claim>, c: Claim, b: Budget, first: int, last: int)
    ensures Spent(rules, [], b, Days(first, last)) == 0 && Spent(rules, claims, b, NoWindow) == 0
    ensures Spent(rules, claims + [c], b, Days(first, last)) == Spent(rules, claims, b, Days(first, last)) +
      if first <= c.date <= last && c.status != Rejected && c.status != Cancelled
         && (b.category.Some? ==> b.category.value == c.category)
         && (b.employee.Some? ==> b.employee.value == c.employee)
         && (b.department.Some? ==>
           c.employee in rules.departments && rules.departments[c.employee] == b.department.value)
      then c.amount else 0
  {
    NothingIsCounted(rules, claims, b);
    SubmitAdds(rules, claims, c, b, Days(first, last));
  }

  /** A step other than a submission moves one claim's status at most, along the lifecycle. */
  lemma StatusMovesExactly(rules: Rules, claims: seq<Claim>, step: Step, k: nat)
    requires Tabled(rules.calendar) && !step.Submit? && k < |claims|
    ensures var t, was := After(rules, claims, step), claims[k].status;
      && |t| == |claims| && t[k] == claims[k].(status := t[k].status)
      && t[k].status ==
           if k != step.i then was
           else if step.Approve? && was == Pending then Approved
           else if step.Reject? && was == Pending then Rejected
           else if step.Reimburse? && was == Approved then Reimbursed
           else if step.Cancel? && (was == Pending || was == Approved) then Cancelled
           else was
  {
  }

  lemma {:induction false} TotalAfterUpdate<T>(rows: seq<T>, i: nat, x: T, f: T -> int)
    requires i < |rows|
    ensures Total(rows[i := x], f) == Total(rows, f) - f(rows[i]) + f(x)
  {
    var n := |rows| - 1;
    if i < n {
      TotalAfterUpdate(rows[..n], i, x, f);
      assert rows[i := x][..n] == rows[..n][i := x];
    } else {
      assert rows[i := x][..n] == rows[..n];
    }
  }

  /** Approving and reimbursing leave every budget's total over every window as it was;
      rejecting and cancelling take exactly the claim's own share off it. */
  lemma LifecycleConserves(rules: Rules, claims: seq<Claim>, i: nat, b: Budget, w: Window)
    requires i < |claims|
    ensures Spent(rules, Moved(claims, i, {Pending}, Approved), b, w) == Spent(rules, claims, b, w)
    ensures Spent(rules, Moved(claims, i, {Approved}, Reimbursed), b, w) == Spent(rules, claims, b, w)
    ensures claims[i].status == Pending ==>
      Spent(rules, Moved(claims, i, {Pending}, Rejected), b, w)
        == Spent(rules, claims, b, w) - Share(rules, b, w)(claims[i])
    ensures claims[i].status == Pending || claims[i].status == Approved ==>
      Spent(rules, Moved(claims, i, {Pending, Approved}, Cancelled), b, w)
        == Spent(rules, claims, b, w) - Share(rules, b, w)(claims[i])
  {
    forall to: Status { TotalAfterUpdate(claims, i, claims[i].(status := to), Share(rules, b, w)); }
  }

  lemma SubmitAdds(rules: Rules, claims: seq<Claim>, c: Claim, b: Budget, w: Window)
    ensures Spent(rules, claims + [c], b, w) == Spent(rules, claims, b, w) + Share(rules, b, w)(c)
  {
  }

  /** What `check` reports as remaining, against what is left of the pool in its window once
      the claim is in.  They are the same for a claim that fits and falls in that window.  A
      claim a warning budget lets over is not taken off, and one dated outside the window,
      where the calendar cannot place its date, is taken off though the pool never counts it. */
  lemma RemainingIsWhatIsLeft(rules: Rules, claims: seq<Claim>, employee: int, category: Category,
      amount: int, date: int)
    requires Tabled(rules.calendar)
    requires var v := Check(rules, claims, employee, category, amount, date, None);
      v.Verdict? && v.allowed && v.remaining.Some?
    ensures var v := Check(rules, claims, employee, category, amount, date, None);
      var b := rules.budgets[v.budget.value];
      var w := PeriodBounds(rules.calendar, b.period, date);
      var left := b.amount - Spent(rules, After(rules, claims, Submit(employee, category, amount, date)), b, w);
      && (b.enforcement == Block && Holds(w, date) ==> v.remaining == Some(left))
      && v.remaining == Some(left + (if Holds(w, date) then amount else 0)
                                  - (if Spent(rules, claims, b, w) + amount > b.amount then 0 else amount))
  {
    hide PeriodBounds, Judge, LetsIn;
    var i := Applicable(rules, employee, category).value;
    var b, x := rules.budgets[i], Claim(employee, category, amount, date, Pending);
    var w := PeriodBounds(rules.calendar, b.period, date);
    JudgeLeaves(b, i, w, Spent(rules, claims, b, w), amount);
    LetInAdds(rules, claims, x, i);
    SubmitAdds(rules, claims, x, b, w);
  }

  lemma JudgeLeaves(b: Budget, i: nat, w: Window, spent: int, amount: int)
    ensures var v := Judge(b, i, w, spent, amount);
      && (v.Verdict? && v.allowed <==> LetsIn(b, w, spent, amount)) && (v.Verdict? ==> v.budget == Some(i))
      && (v.Verdict? && v.remaining.Some? ==>
        v.remaining == Some(b.amount - spent - (if spent + amount > b.amount then 0 else amount)))
      && (v.Verdict? && v.allowed && v.remaining.Some? && b.enforcement == Block ==> spent + amount <= b.amount)
  {
  }

  /** Asking with a claim left out is asking as if it had never been filed. */
  lemma ExcludingIsRemoving(rules: Rules, claims: seq<Claim>, i: nat, employee: int, category: Category, amount: int,
                            date: int)
    requires Tabled(rules.calendar) && i < |claims|
    ensures Check(rules, claims, employee, category, amount, date, Some(i)) ==
            Check(rules, claims[..i] + claims[i + 1..], employee, category, amount, date, None)
  {
    hide PeriodBounds;
    var k := Applicable(rules, employee, category);
    if k.Some? {
      var b := rules.budgets[k.value];
      TotalWithout(claims, i, Share(rules, b, PeriodBounds(rules.calendar, b.period, date)));
    }
  }

  // ---------- pool safety over whole runs ----------

  /** The budget governs every claim it counts: no more specific rule takes any of them. */
  ghost predicate Governs(rules: Rules, b: nat)
    requires b < |rules.budgets|
  {
    forall e, c :: InScope(rules, rules.budgets[b], e, c) ==> Applicable(rules, e, c) == Some(b)
  }

  /** In no window of any date is more committed than the pool. */
  ghost predicate WithinPool(rules: Rules, claims: seq<Claim>, b: Budget)
    requires Tabled(rules.calendar)
  {
    forall d {:trigger PeriodBounds(rules.calendar, b.period, d)} ::
      PeriodBounds(rules.calendar, b.period, d).Days? ==>
        Spent(rules, claims, b, PeriodBounds(rules.calendar, b.period, d)) <= b.amount
  }

  /** No claim is for a negative amount; the claim form itself does not refuse one. */
  ghost predicate NonNegative(claims: seq<Claim>) {
    forall i | 0 <= i < |claims| :: claims[i].amount >= 0
  }

  /** Nothing of a non-negative amount gets past a blocking budget with a negative cap or a
      negative pool. */
  predicate AdmitsNothing(b: Budget) {
    b.enforcement == Block && (b.amount < 0 || (b.cap.Some? && b.cap.value < 0))
  }

  /** Every claim the budget counts is governed by it, or by a budget that admits nothing. */
  ghost predicate Guards(rules: Rules, b: nat)
    requires b < |rules.budgets|
  {
    forall e, c :: InScope(rules, rules.budgets[b], e, c) ==>
      var i := Applicable(rules, e, c); i == Some(b) || (i.Some? && AdmitsNothing(rules.budgets[i.value]))
  }

  /** A claim refused, governed by the budget, or outside its scope keeps the pool. */
  lemma AdmissionKeepsPool(rules: Rules, claims: seq<Claim>, b: nat, step: Step)
    requires rules.calendar.Valid() && b < |rules.budgets| && step.Submit?
    requires rules.budgets[b].enforcement == Block && rules.budgets[b].amount > 0
    requires WithinPool(rules, claims, rules.budgets[b])
    requires InScope(rules, rules.budgets[b], step.employee, step.category) && After(rules, claims, step) != claims ==>
      Applicable(rules, step.employee, step.category) == Some(b)
    ensures WithinPool(rules, After(rules, claims, step), rules.budgets[b])
  {
    hide PeriodBounds;
    var budget, after := rules.budgets[b], After(rules, claims, step);
    var c := Claim(step.employee, step.category, step.amount, step.date, Pending);
    forall d {:trigger PeriodBounds(rules.calendar, budget.period, d)}
        | PeriodBounds(rules.calendar, budget.period, d).Days?
      ensures Spent(rules, after, budget, PeriodBounds(rules.calendar, budget.period, d)) <= budget.amount
    {
      var w := PeriodBounds(rules.calendar, budget.period, d);
      SubmitAdds(rules, claims, c, budget, w);
      if Holds(w, step.date) { WindowOfItsDays(rules.calendar, budget.period, d, step.date); }
    }
  }

  lemma SubmitKeepsPool(rules: Rules, claims: seq<Claim>, b: nat, step: Step)
    requires rules.calendar.Valid() && b < |rules.budgets| && Governs(rules, b)
    requires rules.budgets[b].enforcement == Block && rules.budgets[b].amount > 0
    requires step.Submit? && WithinPool(rules, claims, rules.budgets[b])
    ensures WithinPool(rules, After(rules, claims, step), rules.budgets[b])
  {
    AdmissionKeepsPool(rules, claims, b, step);
  }

  lemma {:induction false} SpentIsNonNegative(rules: Rules, claims: seq<Claim>, b: Budget, w: Window)
    requires NonNegative(claims)
    ensures Spent(rules, claims, b, w) >= 0
  {
    if claims != [] { SpentIsNonNegative(rules, claims[..|claims| - 1], b, w); }
  }

  lemma NothingIsAdmitted(rules: Rules, claims: seq<Claim>, step: Step, i: nat)
    requires Tabled(rules.calendar) && NonNegative(claims) && step.Submit? && step.amount >= 0
    requires Applicable(rules, step.employee, step.category) == Some(i) && AdmitsNothing(rules.budgets[i])
    ensures After(rules, claims, step) == claims
  {
    hide PeriodBounds;
    var b := rules.budgets[i];
    SpentIsNonNegative(rules, claims, b, PeriodBounds(rules.calendar, b.period, step.date));
  }

  lemma StepKeepsPool(rules: Rules, claims: seq<Claim>, b: nat, step: Step)
    requires rules.calendar.Valid() && b < |rules.budgets| && Guards(rules, b)
    requires rules.budgets[b].enforcement == Block && rules.budgets[b].amount > 0
    requires NonNegative(claims) && (step.Submit? ==> step.amount >= 0)
    requires WithinPool(rules, claims, rules.budgets[b])
    ensures WithinPool(rules, After(rules, claims, step), rules.budgets[b]) && NonNegative(After(rules, claims, step))
  {
    hide PeriodBounds;
    var budget := rules.budgets[b];
    if step.Submit? {
      var i := Applicable(rules, step.employee, step.category);
      if InScope(rules, budget, step.employee, step.category) && i != Some(b) {
        NothingIsAdmitted(rules, claims, step, i.value);
      } else {
        AdmissionKeepsPool(rules, claims, b, step);
      }
    } else if step.i < |claims| {
      forall d {:trigger PeriodBounds(rules.calendar, budget.period, d)}
          | PeriodBounds(rules.calendar, budget.period, d).Days?
        ensures Spent(rules, After(rules, claims, step), budget,
          PeriodBounds(rules.calendar, budget.period, d)) <= budget.amount
      {
        LifecycleConserves(rules, claims, step.i, budget, PeriodBounds(rules.calendar, budget.period, d));
      }
    }
  }

  /** No step of the run asks for a negative amount. */
  ghost predicate AsksNonNegative(steps: seq<Step>) {
    forall i | 0 <= i < |steps| :: steps[i].Submit? ==> steps[i].amount >= 0
  }

  /** A blocking pool that guards what it counts is never overdrawn, in any window of any
      date, by any run of claims of non-negative amounts. */
  lemma {:induction false} PoolIsNeverOverdrawn(rules: Rules, claims: seq<Claim>, b: nat, steps: seq<Step>)
    requires rules.calendar.Valid() && b < |rules.budgets| && Guards(rules, b)
    requires rules.budgets[b].enforcement == Block && rules.budgets[b].amount > 0
    requires NonNegative(claims) && WithinPool(rules, claims, rules.budgets[b])
    requires AsksNonNegative(steps)
    ensures WithinPool(rules, Run(rules, claims, steps), rules.budgets[b])
    decreases |steps|
  {
    if steps != [] {
      StepKeepsPool(rules, claims, b, steps[0]);
      PoolIsNeverOverdrawn(rules, After(rules, claims, steps[0]), b, steps[1..]);
    }
  }

  lemma EmptyTableIsWithinPool(rules: Rules, b: Budget)
    requires rules.calendar.Valid() && b.amount > 0
    ensures WithinPool(rules, [], b) && NonNegative([])
  {
  }

  // ---------- refusals and caps ----------

  /** A claim is refused exactly by a blocking budget whose cap it exceeds, or whose pool
      would hold more than its amount with the claim in, an unresolved window holding
      nothing. */
  lemma RefusedExactly(rules: Rules, claims: seq<Claim>, employee: int, category: Category, amount: int, date: int)
    requires rules.calendar.Valid()
    ensures var v, i := Check(rules, claims, employee, category, amount, date, None),
      Applicable(rules, employee, category);
      (v.Verdict? && !v.allowed) <==>
        && i.Some? && rules.budgets[i.value].enforcement == Block
        && var b := rules.budgets[i.value];
        || (b.cap.Some? && b.cap.value != 0 && amount > b.cap.value)
        || (b.amount != 0 && !PeriodBounds(rules.calendar, b.period, date).Raises?
            && Spent(rules, claims, b, PeriodBounds(rules.calendar, b.period, date)) + amount > b.amount)
  {
  }

  /** Every part of the answer.  With nothing to govern it a claim passes.  Past the cap, or
      with the pool over its amount, a blocking budget refuses and a warning one warns; short
      of that it warns once the share it is told to watch is reached, in whole numbers.  What
      remains is told where the pool was measured, the claim taken off where it fits.  And a
      claim that passes is filed as pending, at the end. */
  lemma AnsweredExactly(rules: Rules, claims: seq<Claim>, employee: int, category: Category, amount: int, date: int)
    requires rules.calendar.Valid()
    ensures var v, g := Check(rules, claims, employee, category, amount, date, None),
      Applicable(rules, employee, category);
      if g.None? then v == Verdict(true, false, None, None)
      else
        var b := rules.budgets[g.value];
        var w := PeriodBounds(rules.calendar, b.period, date);
        var used := Spent(rules, claims, b, w) + amount;
        var capped, pooled := b.cap.Some? && b.cap.value != 0 && amount > b.cap.value, b.amount != 0;
        var over := capped || (pooled && used > b.amount);
        if !capped && pooled && w.Raises? then v == Failed
        else
          && v.Verdict? && v.budget == g && (v.allowed <==> !over || b.enforcement == Warn)
          && (v.warn <==>
            if over then b.enforcement == Warn
            else pooled && b.warnAt != 0
                 && if b.amount > 0 then 100 * used >= b.warnAt * b.amount else 100 * used <= b.warnAt * b.amount)
          && v.remaining == if capped || !pooled then None else Some(b.amount - used + if over then amount else 0)
    ensures var v, t := Check(rules, claims, employee, category, amount, date, None),
      After(rules, claims, Submit(employee, category, amount, date));
      t == if v.Verdict? && v.allowed then claims + [Claim(employee, category, amount, date, Pending)] else claims
  {
    hide PeriodBounds, Applicable, Spent;
    var g := Applicable(rules, employee, category);
    if g.Some? {
      var b := rules.budgets[g.value];
      var w := PeriodBounds(rules.calendar, b.period, date);
      if b.amount != 0 { WarnsExactly(b, Spent(rules, claims, b, w) + amount); }
    }
  }

  /** The share in percent, without a division. */
  lemma WarnsExactly(b: Budget, used: int)
    requires b.amount != 0
    ensures WarnDue(b, used) <==>
      (b.warnAt != 0
       && if b.amount > 0 then 100 * used >= b.warnAt * b.amount else 100 * used <= b.warnAt * b.amount)
  {
    var x, n := used as real, b.amount as real;
    var share := x / n;
    assert share * n == x;
    if b.amount > 0 {
      ScaleUp(share * 100.0, b.warnAt as real, n);
    } else {
      ScaleUp(b.warnAt as real, share * 100.0, -n);
    }
    assert share * 100.0 * n == 100.0 * x == (100 * used) as real;
    assert b.warnAt as real * n == (b.warnAt * b.amount) as real;
  }

  lemma ScaleUp(a: real, b: real, n: real)
    requires n > 0.0
    ensures a >= b <==> a * n >= b * n
  {
  }

  /** The claim respects the cap of the budget that governs it, where that budget blocks. */
  ghost predicate UnderItsCap(rules: Rules, c: Claim) {
    var i := Applicable(rules, c.employee, c.category);
    i.Some? && rules.budgets[i.value].enforcement == Block ==>
      var cap := rules.budgets[i.value].cap;
      cap.None? || cap.value == 0 || c.amount <= cap.value
  }

  ghost predicate UnderCaps(rules: Rules, claims: seq<Claim>) {
    forall i | 0 <= i < |claims| :: UnderItsCap(rules, claims[i])
  }

  lemma AdmittedIsUnderItsCap(rules: Rules, claims: seq<Claim>, c: Claim)
    requires rules.calendar.Valid()
    requires var v := Check(rules, claims, c.employee, c.category, c.amount, c.date, None); v.Verdict? && v.allowed
    ensures UnderItsCap(rules, c)
  {
  }

  lemma MovedKeepsCaps(rules: Rules, claims: seq<Claim>, i: nat, from: set<Status>, to: Status)
    requires UnderCaps(rules, claims)
    ensures UnderCaps(rules, Moved(claims, i, from, to))
  {
    if i < |claims| { assert UnderItsCap(rules, claims[i]) && UnderItsCap(rules, claims[i].(status := to)); }
  }

  lemma StepKeepsCaps(rules: Rules, claims: seq<Claim>, step: Step)
    requires rules.calendar.Valid() && UnderCaps(rules, claims)
    ensures UnderCaps(rules, After(rules, claims, step))
  {
    match step
    case Submit(employee, category, amount, date) =>
      var v := Check(rules, claims, employee, category, amount, date, None);
      if v.Verdict? && v.allowed {
        AdmittedIsUnderItsCap(rules, claims, Claim(employee, category, amount, date, Pending));
      }
    case Approve(i) => MovedKeepsCaps(rules, claims, i, {Pending}, Approved);
    case Reject(i) => MovedKeepsCaps(rules, claims, i, {Pending}, Rejected);
    case Reimburse(i) => MovedKeepsCaps(rules, claims, i, {Approved}, Reimbursed);
    case Cancel(i) => MovedKeepsCaps(rules, claims, i, {Pending, Approved}, Cancelled);
  }

  lemma {:induction false} CapsHoldInEveryRun(rules: Rules, claims: seq<Claim>, steps: seq<Step>)
    requires rules.calendar.Valid() && UnderCaps(rules, claims)
    ensures UnderCaps(rules, Run(rules, claims, steps))
    decreases |steps|
  {
    if steps != [] {
      StepKeepsCaps(rules, claims, steps[0]);
      CapsHoldInEveryRun(rules, After(rules, claims, steps[0]), steps[1..]);
    }
  }

  // ---------- when a pool can be overdrawn, exactly ----------

  lemma {:induction false} RunThen(rules: Rules, claims: seq<Claim>, steps: seq<Step>, more: seq<Step>)
    requires Tabled(rules.calendar)
    ensures Run(rules, claims, steps + more) == Run(rules, Run(rules, claims, steps), more)
    decreases |steps|
  {
    if steps == [] {
      assert steps + more == more;
    } else {
      assert (steps + more)[0] == steps[0] && (steps + more)[1..] == steps[1..] + more;
      RunThen(rules, After(rules, claims, steps[0]), steps[1..], more);
    }
  }

  /** `k` times the same claim for the smallest amount, asked for and on file. */
  function Units(employee: int, category: Category, date: int, k: nat): seq<Step> {
    if k == 0 then [] else Units(employee, category, date, k - 1) + [Submit(employee, category, 1, date)]
  }

  function Pile(employee: int, category: Category, date: int, k: nat): seq<Claim> {
    if k == 0 then [] else Pile(employee, category, date, k - 1) + [Claim(employee, category, 1, date, Pending)]
  }

  lemma {:induction false} UnitsAskNonNegative(employee: int, category: Category, date: int, k: nat)
    ensures AsksNonNegative(Units(employee, category, date, k))
  {
    if k > 0 { UnitsAskNonNegative(employee, category, date, k - 1); }
  }

  /** What one more claim of the pile adds to a total. */
  lemma {:induction false} PileAdds(rules: Rules, claims: seq<Claim>, b: Budget, w: Window, employee: int,
                                    category: Category, date: int, k: nat)
    ensures Spent(rules, claims + Pile(employee, category, date, k), b, w) ==
      Spent(rules, claims, b, w) + (if Holds(w, date) && InScope(rules, b, employee, category) then k else 0)
  {
    if k == 0 {
      assert claims + [] == claims;
    } else {
      var front, x := Pile(employee, category, date, k - 1), Claim(employee, category, 1, date, Pending);
      PileAdds(rules, claims, b, w, employee, category, date, k - 1);
      SubmitAdds(rules, claims + front, x, b, w);
      assert claims + (front + [x]) == claims + front + [x];
    }
  }

  /** The budget governs the claim, is one that blocks with a pool to fill, and the date has
      a window for it that it lies in. */
  ghost predicate Fillable(rules: Rules, b: nat, employee: int, category: Category, date: int) {
    && Tabled(rules.calendar) && b < |rules.budgets|
    && rules.budgets[b].enforcement == Block && rules.budgets[b].amount > 0 && !AdmitsNothing(rules.budgets[b])
    && Applicable(rules, employee, category) == Some(b)
    && Holds(PeriodBounds(rules.calendar, rules.budgets[b].period, date), date)
  }

  /** When the governing budget lets a claim in. */
  predicate LetsIn(b: Budget, w: Window, spent: int, amount: int) {
    if OverCap(b, amount) then b.enforcement == Warn
    else b.amount == 0 || (!w.Raises? && (b.enforcement == Warn || spent + amount <= b.amount))
  }

  lemma LetInAtEnd(rules: Rules, claims: seq<Claim>, steps: seq<Step>, front: seq<Claim>, x: Claim, i: nat)
    requires Tabled(rules.calendar) && Run(rules, claims, steps) == front && x.status == Pending
    requires Applicable(rules, x.employee, x.category) == Some(i)
    requires var b := rules.budgets[i];
      var w := PeriodBounds(rules.calendar, b.period, x.date); LetsIn(b, w, Spent(rules, front, b, w), x.amount)
    ensures Run(rules, claims, steps + [Submit(x.employee, x.category, x.amount, x.date)]) == front + [x]
  {
    hide PeriodBounds, Applicable;
    var step := Submit(x.employee, x.category, x.amount, x.date);
    RunThen(rules, claims, steps, [step]);
    assert [step][1..] == [];
    LetInAdds(rules, front, x, i);
  }

  lemma LetInAdds(rules: Rules, claims: seq<Claim>, x: Claim, i: nat)
    requires Tabled(rules.calendar) && x.status == Pending
    requires Applicable(rules, x.employee, x.category) == Some(i)
    requires var b := rules.budgets[i];
      var w := PeriodBounds(rules.calendar, b.period, x.date); LetsIn(b, w, Spent(rules, claims, b, w), x.amount)
    ensures After(rules, claims, Submit(x.employee, x.category, x.amount, x.date)) == claims + [x]
  {
  }

  /** The first claim of all. */
  lemma OneClaim(rules: Rules, x: Claim, i: nat)
    requires Tabled(rules.calendar) && x.status == Pending
    requires Applicable(rules, x.employee, x.category) == Some(i)
    requires LetsIn(rules.budgets[i], PeriodBounds(rules.calendar, rules.budgets[i].period, x.date), 0, x.amount)
    ensures Run(rules, [], [Submit(x.employee, x.category, x.amount, x.date)]) == [x]
  {
    hide PeriodBounds, Applicable;
    var step := Submit(x.employee, x.category, x.amount, x.date);
    LetInAtEnd(rules, [], [], [], x, i);
    assert [] + [step] == [step] && [] + [x] == [x];
  }

  lemma SpentOnOne(rules: Rules, x: Claim, b: Budget, w: Window)
    ensures Spent(rules, [x], b, w) == Share(rules, b, w)(x)
  {
    assert [] + [x] == [x] && Spent(rules, [], b, w) == 0;
    SubmitAdds(rules, [], x, b, w);
  }

  lemma GovernedIsInScope(rules: Rules, b: nat, employee: int, category: Category)
    requires Applicable(rules, employee, category) == Some(b)
    ensures rules.budgets[b].isActive && InScope(rules, rules.budgets[b], employee, category)
  {
    assert Candidate(rules, b, employee, category);
  }

  /** Claims a budget governs are admitted one by one until its pool is full. */
  lemma {:induction false} Fills(rules: Rules, claims: seq<Claim>, b: nat, employee: int, category: Category, date: int,
                                 k: nat)
    requires Fillable(rules, b, employee, category, date)
    requires var budget := rules.budgets[b];
      Spent(rules, claims, budget, PeriodBounds(rules.calendar, budget.period, date)) + k <= budget.amount
    ensures Run(rules, claims, Units(employee, category, date, k)) == claims + Pile(employee, category, date, k)
  {
    hide PeriodBounds, Applicable;
    if k == 0 {
      assert claims + [] == claims;
    } else {
      Fills(rules, claims, b, employee, category, date, k - 1);
      OneMore(rules, claims, b, employee, category, date, k);
    }
  }

  lemma OneMore(rules: Rules, claims: seq<Claim>, b: nat, employee: int, category: Category, date: int, k: nat)
    requires Fillable(rules, b, employee, category, date) && k > 0
    requires var budget := rules.budgets[b];
      Spent(rules, claims, budget, PeriodBounds(rules.calendar, budget.period, date)) + k <= budget.amount
    requires Run(rules, claims, Units(employee, category, date, k - 1)) ==
             claims + Pile(employee, category, date, k - 1)
    ensures Run(rules, claims, Units(employee, category, date, k)) == claims + Pile(employee, category, date, k)
  {
    hide PeriodBounds, Applicable;
    var budget, x := rules.budgets[b], Claim(employee, category, 1, date, Pending);
    var front := Pile(employee, category, date, k - 1);
    PileAdds(rules, claims, budget, PeriodBounds(rules.calendar, budget.period, date), employee, category, date, k - 1);
    LetInAtEnd(rules, claims, Units(employee, category, date, k - 1), claims + front, x, b);
    assert claims + front + [x] == claims + (front + [x]);
  }

  /** A budget that takes a claim from another outranks it, so it is out of scope wherever
      the other governs. */
  lemma OutranksOutside(rules: Rules, b: nat, taker: nat, e: int, c: Category, employee: int, category: Category)
    requires b < |rules.budgets| && taker != b
    requires Applicable(rules, employee, category) == Some(b)
    requires InScope(rules, rules.budgets[b], e, c) && Applicable(rules, e, c) == Some(taker)
    ensures !InScope(rules, rules.budgets[taker], employee, category)
  {
    assert Candidate(rules, b, e, c) && Candidate(rules, taker, e, c);
    assert !Candidate(rules, taker, employee, category);
  }

  /** With the pool full, a budget that admits anything admits one claim more, which the pool
      counts. */
  lemma TakerOverdraws(rules: Rules, b: nat, employee: int, category: Category, date: int,
      taker: nat, e: int, c: Category)
    returns (steps: seq<Step>)
    requires Fillable(rules, b, employee, category, date) && !PeriodBounds(rules.calendar, Monthly, date).Raises?
    requires InScope(rules, rules.budgets[b], e, c) && Applicable(rules, e, c) == Some(taker)
    requires taker != b && !AdmitsNothing(rules.budgets[taker])
    ensures AsksNonNegative(steps) && !WithinPool(rules, Run(rules, [], steps), rules.budgets[b])
  {
    hide PeriodBounds, Applicable;
    var n, other := rules.budgets[b].amount, rules.budgets[taker];
    var units, full := Units(employee, category, date, n), Pile(employee, category, date, n);
    var x, w := Claim(e, c, 1, date, Pending), PeriodBounds(rules.calendar, other.period, date);
    FullPool(rules, b, employee, category, date);
    OutranksOutside(rules, b, taker, e, c, employee, category);
    PileAdds(rules, [], other, w, employee, category, date, n);
    assert [] + full == full && Spent(rules, [], other, w) == 0;
    FiscalNeverRaises(rules.calendar, date);
    assert other.period == Monthly || other.period == FiscalYear;
    assert LetsIn(other, w, 0, 1);
    LetInAtEnd(rules, [], units, full, x, taker);
    OneTooMany(rules, b, full, x);
    steps := units + [Submit(e, c, 1, date)];
    UnitsAskNonNegative(employee, category, date, n);
  }

  lemma FiscalNeverRaises(cal: Calendar, date: int)
    requires Tabled(cal)
    ensures !PeriodBounds(cal, FiscalYear, date).Raises?
  {
  }

  lemma FullPool(rules: Rules, b: nat, employee: int, category: Category, date: int)
    requires Fillable(rules, b, employee, category, date)
    ensures var budget := rules.budgets[b];
      var full := Pile(employee, category, date, budget.amount);
      && Run(rules, [], Units(employee, category, date, budget.amount)) == full
      && Spent(rules, full, budget, PeriodBounds(rules.calendar, budget.period, date)) == budget.amount
  {
    hide PeriodBounds, Applicable;
    GovernedIsInScope(rules, b, employee, category);
    var budget := rules.budgets[b];
    var full, w := Pile(employee, category, date, budget.amount), PeriodBounds(rules.calendar, budget.period, date);
    assert Spent(rules, [], budget, w) == 0 && [] + full == full;
    Fills(rules, [], b, employee, category, date, budget.amount);
    PileAdds(rules, [], budget, w, employee, category, date, budget.amount);
  }

  lemma OneTooMany(rules: Rules, b: nat, claims: seq<Claim>, x: Claim)
    requires Tabled(rules.calendar) && b < |rules.budgets|
    requires InScope(rules, rules.budgets[b], x.employee, x.category) && x.status == Pending && x.amount > 0
    requires var budget := rules.budgets[b];
      var w := PeriodBounds(rules.calendar, budget.period, x.date);
      Holds(w, x.date) && Spent(rules, claims, budget, w) == budget.amount
    ensures !WithinPool(rules, claims + [x], rules.budgets[b])
  {
    SubmitAdds(rules, claims, x, rules.budgets[b], PeriodBounds(rules.calendar, rules.budgets[b].period, x.date));
  }

  /** No run of claims of non-negative amounts, from no claims at all, overdraws the pool. */
  ghost predicate PoolIsSafe(rules: Rules, b: nat)
    requires Tabled(rules.calendar) && b < |rules.budgets|
  {
    forall steps :: AsksNonNegative(steps) ==> WithinPool(rules, Run(rules, [], steps), rules.budgets[b])
  }

  /** A blocking pool that governs some claim is safe over all runs if and only if every
      claim it counts is its own to govern, or goes to a budget that admits nothing. */
  lemma PoolSafeExactly(rules: Rules, b: nat, employee: int, category: Category, date: int)
    requires rules.calendar.Valid()
    requires Fillable(rules, b, employee, category, date) && !PeriodBounds(rules.calendar, Monthly, date).Raises?
    ensures PoolIsSafe(rules, b) <==> Guards(rules, b)
  {
    var budget := rules.budgets[b];
    if Guards(rules, b) {
      EmptyTableIsWithinPool(rules, budget);
      forall steps | AsksNonNegative(steps) ensures WithinPool(rules, Run(rules, [], steps), budget) {
        PoolIsNeverOverdrawn(rules, [], b, steps);
      }
    } else {
      var e, c :| InScope(rules, budget, e, c) && Applicable(rules, e, c) != Some(b)
                  && !(Applicable(rules, e, c).Some? && AdmitsNothing(rules.budgets[Applicable(rules, e, c).value]));
      assert Candidate(rules, b, employee, category) && Candidate(rules, b, e, c);
      var steps := TakerOverdraws(rules, b, employee, category, date, Applicable(rules, e, c).value, e, c);
    }
  }

  const COMPANY := Budget(None, None, None, Monthly, 1000, None, 80, Block, true)
  const TRAVEL := Budget(Some(Travel), None, None, Monthly, 1_000_000, None, 80, Block, true)

  /** A more specific budget admits what the company-wide pool then counts: with both rows
      set the blocking company pool is not safe, and one travel claim overdraws it, whatever
      the date. */
  lemma SpecificBudgetOverdraws(cal: Calendar, date: int)
    requires cal.Valid() && Holds(PeriodBounds(cal, Monthly, date), date)
    ensures var rules := Rules(cal, [COMPANY, TRAVEL], map[]);
      && !Guards(rules, 0) && !PoolIsSafe(rules, 0)
      && !WithinPool(rules, Run(rules, [], [Submit(1, Travel, 5000, date)]), COMPANY)
  {
    var rules := Rules(cal, [COMPANY, TRAVEL], map[]);
    TravelUnguarded(rules, date);
    TravelOverdraws(rules, date);
  }

  lemma TravelUnguarded(rules: Rules, date: int)
    requires rules.calendar.Valid() && Holds(PeriodBounds(rules.calendar, Monthly, date), date)
    requires rules.budgets == [COMPANY, TRAVEL]
    ensures !Guards(rules, 0) && !PoolIsSafe(rules, 0)
  {
    TravelOutranks(rules, 1);
    PoolSafeExactly(rules, 0, 1, Meals, date);
  }

  lemma TravelOverdraws(rules: Rules, date: int)
    requires rules.calendar.Valid() && Holds(PeriodBounds(rules.calendar, Monthly, date), date)
    requires rules.budgets == [COMPANY, TRAVEL]
    ensures !WithinPool(rules, Run(rules, [], [Submit(1, Travel, 5000, date)]), COMPANY)
  {
    hide PeriodBounds, Applicable, Run;
    var w, c := PeriodBounds(rules.calendar, Monthly, date), Claim(1, Travel, 5000, date, Pending);
    TravelOutranks(rules, 1);
    OneClaim(rules, c, 1);
    SpentOnOne(rules, c, COMPANY, w);
    assert Share(rules, COMPANY, w)(c) == 5000;
  }

  lemma TravelOutranks(rules: Rules, employee: int)
    requires rules.budgets == [COMPANY, TRAVEL]
    ensures Applicable(rules, employee, Meals) == Some(0) && Applicable(rules, employee, Travel) == Some(1)
  {
    assert rules.budgets[0] == COMPANY && rules.budgets[1] == TRAVEL;
    assert Candidate(rules, 0, employee, Meals) && !Candidate(rules, 1, employee, Meals);
    assert Candidate(rules, 1, employee, Travel);
  }

  lemma CancelFirst(rules: Rules, steps: seq<Step>, c: Claim, rest: seq<Claim>)
    requires Tabled(rules.calendar) && Run(rules, [], steps) == [c] + rest && c.status == Pending
    ensures Run(rules, [], steps + [Cancel(0)]) == [c.(status := Cancelled)] + rest
  {
    RunThen(rules, [], steps, [Cancel(0)]);
    assert [Cancel(0)][1..] == [];
    assert ([c] + rest)[0 := c.(status := Cancelled)] == [c.(status := Cancelled)] + rest;
  }

  /** A negative claim is let in and makes room for one more than the pool holds. */
  lemma RoomForOneMore(rules: Rules, b: nat, employee: int, category: Category, date: int)
    requires Fillable(rules, b, employee, category, date)
    ensures var n := rules.budgets[b].amount + 1;
      Run(rules, [], [Submit(employee, category, -1, date)] + Units(employee, category, date, n)) ==
        [Claim(employee, category, -1, date, Pending)] + Pile(employee, category, date, n)
  {
    hide PeriodBounds, Applicable;
    GovernedIsInScope(rules, b, employee, category);
    var budget, first := rules.budgets[b], Submit(employee, category, -1, date);
    var w, c := PeriodBounds(rules.calendar, budget.period, date), Claim(employee, category, -1, date, Pending);
    OneClaim(rules, c, b);
    SpentOnOne(rules, c, budget, w);
    assert Share(rules, budget, w)(c) == -1;
    Fills(rules, [c], b, employee, category, date, budget.amount + 1);
    RunThen(rules, [], [first], Units(employee, category, date, budget.amount + 1));
  }

  /** Why amounts must not be negative: nothing refuses one that is, so whatever pool it is,
      a negative claim makes room in it, and cancelling that claim takes the room back after
      it has been used. */
  lemma NegativeClaimOverdraws(rules: Rules, b: nat, employee: int, category: Category, date: int)
    requires Fillable(rules, b, employee, category, date)
    ensures var steps := [Submit(employee, category, -1, date)]
                         + Units(employee, category, date, rules.budgets[b].amount + 1) + [Cancel(0)];
      !WithinPool(rules, Run(rules, [], steps), rules.budgets[b])
  {
    hide PeriodBounds, Applicable, Run, Units, Pile;
    var n, c := rules.budgets[b].amount + 1, Claim(employee, category, -1, date, Pending);
    RoomForOneMore(rules, b, employee, category, date);
    CancelFirst(rules, [Submit(employee, category, -1, date)] + Units(employee, category, date, n), c,
                Pile(employee, category, date, n));
    TooManyLeft(rules, b, employee, category, date, c.(status := Cancelled));
  }

  lemma TooManyLeft(rules: Rules, b: nat, employee: int, category: Category, date: int, gone: Claim)
    requires Fillable(rules, b, employee, category, date) && gone.status == Cancelled
    ensures !WithinPool(rules, [gone] + Pile(employee, category, date, rules.budgets[b].amount + 1), rules.budgets[b])
  {
    hide PeriodBounds, Applicable;
    GovernedIsInScope(rules, b, employee, category);
    var budget := rules.budgets[b];
    var w := PeriodBounds(rules.calendar, budget.period, date);
    assert [] + [gone] == [gone] && Spent(rules, [], budget, w) == 0;
    SubmitAdds(rules, [], gone, budget, w);
    PileAdds(rules, [gone], budget, w, employee, category, date, budget.amount + 1);
  }

  // ---------- an unresolved window ----------

  /** A fiscal year the calendar cannot bound leaves the pool without a window, and is said
      not to block spending.  Nothing is counted against the pool then, but a claim for more
      than the whole of it is still refused: of the claims under the cap, spending is not
      blocked exactly where the claim is within the amount, or the budget only warns. */
  lemma UnresolvedWindowBlocksExactly(rules: Rules, claims: seq<Claim>, employee: int, category: Category, amount: int,
                                      date: int, b: nat)
    requires rules.calendar.Valid() && Applicable(rules, employee, category) == Some(b)
    requires PeriodBounds(rules.calendar, rules.budgets[b].period, date) == NoWindow
    requires var cap := rules.budgets[b].cap; cap.None? || cap.value == 0 || amount <= cap.value
    ensures var v := Check(rules, claims, employee, category, amount, date, None);
      v.Verdict? && (v.allowed <==>
        rules.budgets[b].enforcement == Warn || rules.budgets[b].amount == 0 || amount <= rules.budgets[b].amount)
  {
    NothingIsCounted(rules, claims, rules.budgets[b]);
  }

  lemma {:induction false} NothingIsCounted(rules: Rules, claims: seq<Claim>, b: Budget)
    ensures Spent(rules, claims, b, NoWindow) == 0
  {
    if claims != [] { NothingIsCounted(rules, claims[..|claims| - 1], b); }
  }

  const YEARLY := Budget(None, None, None, FiscalYear, 1000, None, 80, Block, true)

  /** On a table of one year no fiscal year is bounded: a claim of 1000 is let in, again and
      again, and one of 1001 is refused. */
  lemma UnresolvedWindowBlocks(claims: seq<Claim>, date: int)
    ensures var rules := Rules(BikramSambat(1, 1, seq(12, i => 30), 1), [YEARLY], map[]);
      && PeriodBounds(rules.calendar, FiscalYear, date) == NoWindow
      && Check(rules, claims, 1, Meals, 1000, date, None).allowed
      && !Check(rules, claims, 1, Meals, 1001, date, None).allowed
  {
    var rules := Rules(BikramSambat(1, 1, seq(12, i => 30), 1), [YEARLY], map[]);
    ShortTable(rules.calendar, date);
    assert rules.budgets[0] == YEARLY && Applicable(rules, 1, Meals) == Some(0);
    UnresolvedWindowBlocksExactly(rules, claims, 1, Meals, 1000, date, 0);
    UnresolvedWindowBlocksExactly(rules, claims, 1, Meals, 1001, date, 0);
  }

  lemma ShortTable(cal: Calendar, date: int)
    requires cal == BikramSambat(1, 1, seq(12, i => 30), 1)
    ensures cal.Valid() && PeriodBounds(cal, FiscalYear, date) == NoWindow
  {
    var lengths := seq(12, i => 30);
    OpeningsOfThirty(lengths, 12);
    BikramSambatIsValid(1, 1, lengths, 1);
    BoundsExist(cal, FiscalYearFor(cal, date));
  }

  lemma {:induction false} OpeningsOfThirty(lengths: seq<int>, n: nat)
    requires n == |lengths| && forall i | 0 <= i < n :: lengths[i] == 30
    ensures Openings(1, lengths)[n] == 1 + 30 * n
  {
    if n > 0 { OpeningsOfThirty(lengths[..n - 1], n - 1); }
  }

  // ---------- who may still be cancelled ----------

  /** A claim can be cancelled exactly while it is pending or approved.  The lifecycle is
      described as ending at approval, so the two agree exactly on claims not approved. */
  lemma CancelsExactly(claims: seq<Claim>, i: nat)
    requires i < |claims|
    ensures Moved(claims, i, {Pending, Approved}, Cancelled) != claims <==>
      claims[i].status == Pending || claims[i].status == Approved
    ensures Moved(claims, i, {Pending, Approved}, Cancelled) == Moved(claims, i, {Pending}, Cancelled) <==>
      claims[i].status != Approved
  {
    var c := claims[i].(status := Cancelled);
    assert claims[i := c][i] == c;
  }

  /** An approved claim of 500, cancelled. */
  lemma ApprovedIsCancelled()
    ensures var claims := [Claim(1, Meals, 500, 1, Approved)];
      Moved(claims, 0, {Pending, Approved}, Cancelled) == [Claim(1, Meals, 500, 1, Cancelled)]
  {
    var c := Claim(1, Meals, 500, 1, Approved);
    assert [c][0] == c;
  }
}
