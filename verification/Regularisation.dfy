/** Attendance disputes and the payroll lock (backend/attendance/regularisation.py, and the
    cancel action of backend/attendance/viewsets.py). */
module Regularisation {
  import opened Options
  import opened Punches
  import opened PayrollSummary
  import PunchRuns
  import opened Sums

  datatype State = Pending | Approved | Rejected | Cancelled

  datatype Request = Request(employee: int, date: int, checkIn: Option<int>, checkOut: Option<int>,
                             status: Option<Status>, state: State)

  /** What an audit row says of a field: an instant or nothing, or a status. */
  datatype Shown = At(instant: Option<int>) | Is(status: Status)
  datatype Field = CheckInField | CheckOutField | StatusField

  /** An audit row: which field of which record changed, from what to what, by whom. */
  datatype Edit = Edit(employee: int, date: int, field: Field, from: Shown, to: Shown, actor: int)

  datatype Refusal = NotPending | PayrollLocked
  datatype Reply = Applied | Declined(why: Refusal)

  /** `locked` holds the windows of the finalised payroll runs. */
  datatype Desk = Desk(logs: seq<Log>, requests: seq<Request>, edits: seq<Edit>, locked: seq<(int, int)>)

  predicate IsLocked(locked: seq<(int, int)>, date: int) {
    exists i | 0 <= i < |locked| :: locked[i].0 <= date <= locked[i].1
  }

  function OrElse<T>(wanted: Option<T>, current: Option<T>): Option<T> {
    if wanted.Some? then wanted else current
  }

  /** The record after approval: every field asked for, the rest as it was. */
  function Corrected(before: Option<Log>, r: Request): Log {
    Log(r.employee, r.date,
        OrElse(r.checkIn, if before.Some? then before.value.checkIn else None),
        OrElse(r.checkOut, if before.Some? then before.value.checkOut else None),
        if r.status.Some? then r.status.value else if before.Some? then before.value.status else Present,
        Manual)
  }

  /** Only an existing record has something to be changed from. */
  function EditsFor(before: Option<Log>, r: Request, actor: int): seq<Edit> {
    if before.None? then []
    else
      (if r.checkIn.Some?
       then [Edit(r.employee, r.date, CheckInField, At(before.value.checkIn), At(r.checkIn), actor)] else [])
      + (if r.checkOut.Some?
         then [Edit(r.employee, r.date, CheckOutField, At(before.value.checkOut), At(r.checkOut), actor)] else [])
      + (if r.status.Some? && r.status.value != before.value.status
         then [Edit(r.employee, r.date, StatusField, Is(before.value.status), Is(r.status.value), actor)] else [])
  }

  function RecordOf(logs: seq<Log>, employee: int, date: int): Option<Log> {
    var j := LogIndex(logs, employee, date);
    if j.None? then None else Some(logs[j.value])
  }

  function Put(logs: seq<Log>, l: Log): seq<Log> {
    var j := LogIndex(logs, l.employee, l.date);
    if j.None? then logs + [l] else logs[j.value := l]
  }

  datatype Step =
    | File(request: Request)
    | Approve(i: nat, actor: int)
    | Reject(i: nat)
    | Cancel(i: nat)
    | Lock(window: (int, int))

  function ApproveReply(s: Desk, r: Request): Reply {
    if r.state != Pending then Declined(NotPending)
    else if IsLocked(s.locked, r.date) then Declined(PayrollLocked)
    else Applied
  }

  function Decided(s: Desk, i: nat, state: State): Desk {
    if i < |s.requests| && s.requests[i].state == Pending
    then s.(requests := s.requests[i := s.requests[i].(state := state)]) else s
  }

  function After(s: Desk, step: Step): Desk {
    match step
    case File(r) =>
      if exists i | 0 <= i < |s.requests| ::
        s.requests[i].employee == r.employee && s.requests[i].date == r.date && s.requests[i].state == Pending
      then s else s.(requests := s.requests + [r.(state := Pending)])
    case Approve(i, actor) =>
      if i < |s.requests| && ApproveReply(s, s.requests[i]) == Applied then
        var r := s.requests[i];
        var before := RecordOf(s.logs, r.employee, r.date);
        Decided(s, i, Approved).(logs := Put(s.logs, Corrected(before, r)),
                                 edits := s.edits + EditsFor(before, r, actor))
      else s
    case Reject(i) => Decided(s, i, Rejected)
    case Cancel(i) => Decided(s, i, Cancelled)
    case Lock(w) => s.(locked := s.locked + [w])
  }

  function Run(s: Desk, steps: seq<Step>): Desk
    decreases |steps|
  {
    if steps == [] then s else Run(After(s, steps[0]), steps[1..])
  }

  class Regulariser {
    var logs: seq<Log>
    var requests: seq<Request>
    var edits: seq<Edit>
    var locked: seq<(int, int)>

    ghost function View(): Desk
      reads this
    {
      Desk(logs, requests, edits, locked)
    }

    constructor (logs: seq<Log>, locked: seq<(int, int)>)
      ensures View() == Desk(logs, [], [], locked)
    {
      this.logs, requests, edits, this.locked := logs, [], [], locked;
    }

    /** `_payroll_is_locked_for`: ask each locked run which days it covers. */
    method PayrollIsLockedFor(date: int) returns (r: bool)
      ensures r <==> IsLocked(locked, date)
    {
      for i := 0 to |locked|
        invariant forall k | 0 <= k < i :: !(locked[k].0 <= date <= locked[k].1)
      {
        if locked[i].0 <= date <= locked[i].1 { return true; }
      }
      return false;
    }

    method ApproveRegularisation(i: nat, actor: int) returns (r: Reply)
      requires i < |requests|
      modifies this
      ensures r == ApproveReply(old(View()), old(requests)[i])
      ensures View() == After(old(View()), Approve(i, actor))
    {
      var req := requests[i];
      if req.state != Pending { return Declined(NotPending); }
      var isLocked := PayrollIsLockedFor(req.date);
      if isLocked { return Declined(PayrollLocked); }
      var j := LogIndex(logs, req.employee, req.date);
      var created := j.None?;
      var log := if created
          then Log(req.employee, req.date, None, None, if req.status.Some? then req.status.value else Present, Manual)
                 else logs[j.value];
      var changes: seq<Edit> := [];
      if req.checkIn.Some? {
        changes := changes + [Edit(req.employee, req.date, CheckInField, At(log.checkIn), At(req.checkIn), actor)];
        log := log.(checkIn := req.checkIn);
      }
      if req.checkOut.Some? {
        changes := changes + [Edit(req.employee, req.date, CheckOutField, At(log.checkOut), At(req.checkOut), actor)];
        log := log.(checkOut := req.checkOut);
      }
      if req.status.Some? && req.status.value != log.status {
        changes := changes + [Edit(req.employee, req.date, StatusField, Is(log.status), Is(req.status.value), actor)];
        log := log.(status := req.status.value);
      }
      log := log.(source := Manual);
      if created {
        logs := logs + [log];
      } else {
        logs := logs[j.value := log];
        edits := edits + changes;
      }
      requests := requests[i := req.(state := Approved)];
      assert edits == old(edits) + EditsFor(RecordOf(old(logs), req.employee, req.date), req, actor);
      return Applied;
    }

    method RejectRegularisation(i: nat) returns (r: Reply)
      requires i < |requests|
      modifies this
      ensures r == if old(requests)[i].state == Pending then Applied else Declined(NotPending)
      ensures View() == After(old(View()), Reject(i))
    {
      if requests[i].state != Pending { return Declined(NotPending); }
      requests := requests[i := requests[i].(state := Rejected)];
      return Applied;
    }

    method CancelRegularisation(i: nat) returns (r: Reply)
      requires i < |requests|
      modifies this
      ensures r == if old(requests)[i].state == Pending then Applied else Declined(NotPending)
      ensures View() == After(old(View()), Cancel(i))
    {
      if requests[i].state != Pending { return Declined(NotPending); }
      requests := requests[i := requests[i].(state := Cancelled)];
      return Applied;
    }
  }

  lemma PutTouchesOneDay(logs: seq<Log>, l: Log, employee: int, date: int)
    requires PunchRuns.OneRecordPerDay(logs)
    ensures PunchRuns.OneRecordPerDay(Put(logs, l))
    ensures RecordOf(Put(logs, l), employee, date) ==
      if employee == l.employee && date == l.date then Some(l) else RecordOf(logs, employee, date)
  {
    var more := Put(logs, l);
    var a, b := LogIndex(logs, employee, date), LogIndex(more, employee, date);
    if employee == l.employee && date == l.date {
      var j := if a.Some? then a.value else |logs|;
      assert more[j] == l;
    } else {
      if a.Some? { assert more[a.value] == logs[a.value]; }
      if b.Some? { assert b.value < |logs| && more[b.value] == logs[b.value]; }
    }
  }

  /** An approval that goes through gives the disputed day every field asked for, keeps the
      day's other fields, creates the record where there was none, and changes no other day
      of anybody. */
  lemma ApprovalTouchesOneDay(s: Desk, i: nat, actor: int, employee: int, date: int)
    requires PunchRuns.OneRecordPerDay(s.logs)
    requires i < |s.requests| && ApproveReply(s, s.requests[i]) == Applied
    ensures var t, r := After(s, Approve(i, actor)), s.requests[i];
      var was, now := RecordOf(s.logs, employee, date), RecordOf(t.logs, employee, date);
      if employee != r.employee || date != r.date then now == was
      else
        && now.Some? && (r.checkIn.Some? ==> now.value.checkIn == r.checkIn)
        && (r.checkOut.Some? ==> now.value.checkOut == r.checkOut)
        && (r.status.Some? ==> now.value.status == r.status.value)
        && (was.Some? && r.checkIn.None? ==> now.value.checkIn == was.value.checkIn)
        && (was.Some? && r.checkOut.None? ==> now.value.checkOut == was.value.checkOut)
        && (was.Some? && r.status.None? ==> now.value.status == was.value.status)
        && (was.None? ==>
          (r.checkIn.None? ==> now.value.checkIn.None?) && (r.checkOut.None? ==> now.value.checkOut.None?))
        && (was.None? && r.status.None? ==> now.value.status == Present)
        && now.value.source == Manual
  {
    var r := s.requests[i];
    PutTouchesOneDay(s.logs, Corrected(RecordOf(s.logs, r.employee, r.date), r), employee, date);
  }

  // ---------- a request is decided once ----------

  /** Nothing vanishes; a request keeps what was asked; once decided it never changes. */
  ghost predicate Later(before: seq<Request>, after: seq<Request>) {
    && |before| <= |after|
    && forall i | 0 <= i < |before| ::
         after[i] == before[i] || (before[i].state == Pending && after[i] == before[i].(state := after[i].state))
  }

  lemma {:induction false} DecidedOnce(s: Desk, steps: seq<Step>)
    ensures Later(s.requests, Run(s, steps).requests)
    decreases |steps|
  {
    if steps != [] {
      var t := After(s, steps[0]);
      assert Later(s.requests, t.requests);
      DecidedOnce(t, steps[1..]);
    }
  }

  // ---------- the audit trail accounts for the record ----------

  /** Redo one audit row on the record it names; None where the row does not start from
      what the record says. */
  function Redo(l: Option<Log>, e: Edit): Option<Log> {
    if l.None? || e.employee != l.value.employee || e.date != l.value.date then l
    else match (e.field, e.to)
      case (CheckInField, At(t)) => if e.from == At(l.value.checkIn) then Some(l.value.(checkIn := t)) else None
      case (CheckOutField, At(t)) => if e.from == At(l.value.checkOut) then Some(l.value.(checkOut := t)) else None
      case (StatusField, Is(s)) => if e.from == Is(l.value.status) then Some(l.value.(status := s)) else None
      case _ => None
  }

  function RedoAll(l: Option<Log>, es: seq<Edit>): Option<Log>
    decreases |es|
  {
    if es == [] then l else RedoAll(Redo(l, es[0]), es[1..])
  }

  lemma {:induction false} RedoAppend(l: Option<Log>, es: seq<Edit>, more: seq<Edit>)
    ensures RedoAll(l, es + more) == RedoAll(RedoAll(l, es), more)
    decreases |es|
  {
    if es == [] {
      assert es + more == more;
    } else {
      assert (es + more)[1..] == es[1..] + more;
      RedoAppend(Redo(l, es[0]), es[1..], more);
    }
  }

  /** The three columns the trail speaks of. */
  predicate SameColumns(l: Option<Log>, k: Option<Log>) {
    l.Some? && k.Some? && l.value.(source := k.value.source) == k.value
  }

  lemma {:induction false} RedoIgnoresSource(l: Option<Log>, k: Option<Log>, es: seq<Edit>)
    requires SameColumns(l, k)
    ensures RedoAll(l, es).Some? ==> SameColumns(RedoAll(l, es), RedoAll(k, es))
    ensures RedoAll(l, es).None? ==> RedoAll(k, es).None?
    decreases |es|
  {
    if es != [] {
      if Redo(l, es[0]).Some? {
        RedoIgnoresSource(Redo(l, es[0]), Redo(k, es[0]), es[1..]);
      } else {
        NothingToRedo(es[1..]);
      }
    }
  }

  lemma {:induction false} NothingToRedo(es: seq<Edit>)
    ensures RedoAll(None, es) == None
  {
    if es != [] { NothingToRedo(es[1..]); }
  }

  lemma EditsRedo(before: Log, r: Request, actor: int)
    requires before.employee == r.employee && before.date == r.date
    ensures RedoAll(Some(before), EditsFor(Some(before), r, actor))
      == Some(Corrected(Some(before), r).(source := before.source))
  {
    var a := if r.checkIn.Some?
             then [Edit(r.employee, r.date, CheckInField, At(before.checkIn), At(r.checkIn), actor)] else [];
    var b := if r.checkOut.Some?
             then [Edit(r.employee, r.date, CheckOutField, At(before.checkOut), At(r.checkOut), actor)] else [];
    var c := if r.status.Some? && r.status.value != before.status
      then [Edit(r.employee, r.date, StatusField, Is(before.status), Is(r.status.value), actor)] else [];
    RedoAppend(Some(before), a + b, c);
    RedoAppend(Some(before), a, b);
  }

  lemma {:induction false} OthersRedoNothing(l: Log, es: seq<Edit>)
    requires forall i | 0 <= i < |es| :: es[i].employee != l.employee || es[i].date != l.date
    ensures RedoAll(Some(l), es) == Some(l)
  {
    if es != [] { OthersRedoNothing(l, es[1..]); }
  }

  lemma CorrectedIsOfTheDay(before: Option<Log>, r: Request)
    ensures Corrected(before, r).employee == r.employee && Corrected(before, r).date == r.date
  {
  }

  lemma EditsAreOfTheDay(before: Option<Log>, r: Request, actor: int)
    ensures var es := EditsFor(before, r, actor);
      forall i | 0 <= i < |es| :: es[i].employee == r.employee && es[i].date == r.date
  {
  }

  /** The rows an approval adds account for what it does to any one day's record. */
  lemma ApprovalTrail(s: Desk, r: Request, actor: int, l: Log)
    requires PunchRuns.OneRecordPerDay(s.logs) && RecordOf(s.logs, l.employee, l.date) == Some(l)
    ensures var before := RecordOf(s.logs, r.employee, r.date);
      var logs := Put(s.logs, Corrected(before, r));
      && PunchRuns.OneRecordPerDay(logs)
      && SameColumns(RedoAll(Some(l), EditsFor(before, r, actor)), RecordOf(logs, l.employee, l.date))
  {
    hide RecordOf, Put, Corrected, EditsFor, Redo, RedoAll, PunchRuns.OneRecordPerDay;
    var before := RecordOf(s.logs, r.employee, r.date);
    CorrectedIsOfTheDay(before, r);
    EditsAreOfTheDay(before, r, actor);
    PutTouchesOneDay(s.logs, Corrected(before, r), l.employee, l.date);
    if r.employee == l.employee && r.date == l.date {
      EditsRedo(l, r, actor);
    } else {
      OthersRedoNothing(l, EditsFor(before, r, actor));
    }
  }

  lemma StepTrail(s: Desk, step: Step, l: Log)
    requires PunchRuns.OneRecordPerDay(s.logs) && RecordOf(s.logs, l.employee, l.date) == Some(l)
    ensures var t := After(s, step);
      && PunchRuns.OneRecordPerDay(t.logs) && s.edits <= t.edits
      && SameColumns(RedoAll(Some(l), t.edits[|s.edits|..]), RecordOf(t.logs, l.employee, l.date))
  {
    hide RecordOf, Put, Corrected, EditsFor, Redo, IsLocked, PunchRuns.OneRecordPerDay;
    var t := After(s, step);
    if step.Approve? && step.i < |s.requests| && ApproveReply(s, s.requests[step.i]) == Applied {
      var r := s.requests[step.i];
      ApprovalTrail(s, r, step.actor, l);
      assert t.edits[|s.edits|..] == EditsFor(RecordOf(s.logs, r.employee, r.date), r, step.actor);
    } else {
      assert t.edits[|s.edits|..] == [];
    }
  }

  /** Whatever is decided, the trail only grows and redoing the rows added since, each from
      the value it names, turns the record of any day into the record it is now. */
  lemma {:induction false} TrailAccountsForRecord(s: Desk, steps: seq<Step>, l: Log)
    requires PunchRuns.OneRecordPerDay(s.logs) && RecordOf(s.logs, l.employee, l.date) == Some(l)
    ensures var t := Run(s, steps);
      s.edits <= t.edits && SameColumns(RedoAll(Some(l), t.edits[|s.edits|..]), RecordOf(t.logs, l.employee, l.date))
    decreases |steps|
  {
    if steps == [] {
      assert s.edits[|s.edits|..] == [];
    } else {
      var t, u := After(s, steps[0]), Run(s, steps);
      StepTrail(s, steps[0], l);
      var k := RecordOf(t.logs, l.employee, l.date);
      TrailAccountsForRecord(t, steps[1..], k.value);
      var first, rest := t.edits[|s.edits|..], u.edits[|t.edits|..];
      assert u.edits[|s.edits|..] == first + rest;
      RedoAppend(Some(l), first, rest);
      RedoIgnoresSource(RedoAll(Some(l), first), k, rest);
    }
  }

  // ---------- locked attendance is frozen ----------

  /** The rows of a window, in table order. */
  function InWindow(logs: seq<Log>, a: int, b: int): seq<Log> {
    if logs == [] then []
    else
      var front, last := InWindow(logs[..|logs| - 1], a, b), logs[|logs| - 1];
      if a <= last.date <= b then front + [last] else front
  }

  lemma {:induction false} WindowAfterAppend(logs: seq<Log>, l: Log, a: int, b: int)
    requires !(a <= l.date <= b)
    ensures InWindow(logs + [l], a, b) == InWindow(logs, a, b)
  {
  }

  lemma {:induction false} WindowAfterUpdate(logs: seq<Log>, j: nat, l: Log, a: int, b: int)
    requires j < |logs| && logs[j].date == l.date && !(a <= l.date <= b)
    ensures InWindow(logs[j := l], a, b) == InWindow(logs, a, b)
  {
    var n := |logs| - 1;
    if j < n {
      WindowAfterUpdate(logs[..n], j, l, a, b);
      assert logs[j := l][..n] == logs[..n][j := l];
    } else {
      assert logs[j := l][..n] == logs[..n];
    }
  }

  lemma StepFreezesWindow(s: Desk, step: Step, a: int, b: int)
    requires (a, b) in s.locked
    ensures InWindow(After(s, step).logs, a, b) == InWindow(s.logs, a, b)
    ensures (a, b) in After(s, step).locked
  {
    if step.Approve? && step.i < |s.requests| && ApproveReply(s, s.requests[step.i]) == Applied {
      var r := s.requests[step.i];
      var w :| 0 <= w < |s.locked| && s.locked[w] == (a, b);
      assert !(s.locked[w].0 <= r.date <= s.locked[w].1);
      var l, j := Corrected(RecordOf(s.logs, r.employee, r.date), r), LogIndex(s.logs, r.employee, r.date);
      if j.None? { WindowAfterAppend(s.logs, l, a, b); } else { WindowAfterUpdate(s.logs, j.value, l, a, b); }
    }
  }

  lemma {:induction false} RunFreezesWindow(s: Desk, steps: seq<Step>, a: int, b: int)
    requires (a, b) in s.locked
    ensures InWindow(Run(s, steps).logs, a, b) == InWindow(s.logs, a, b)
    decreases |steps|
  {
    if steps != [] {
      StepFreezesWindow(s, steps[0], a, b);
      RunFreezesWindow(After(s, steps[0]), steps[1..], a, b);
    }
  }

  /** A sum that counts nothing outside the window sees only the window. */
  lemma {:induction false} TotalSeesWindow(logs: seq<Log>, a: int, b: int, f: Log -> int)
    requires forall l: Log | !(a <= l.date <= b) :: f(l) == 0
    ensures Total(logs, f) == Total(InWindow(logs, a, b), f)
  {
    if logs != [] {
      var n := |logs| - 1;
      TotalSeesWindow(logs[..n], a, b, f);
      var front := InWindow(logs[..n], a, b);
      if a <= logs[n].date <= b { assert (front + [logs[n]])[..|front|] == front; }
    }
  }

  lemma {:induction false} WindowHolds(logs: seq<Log>, a: int, b: int, l: Log)
    ensures l in InWindow(logs, a, b) <==> l in logs && a <= l.date <= b
  {
    if logs != [] {
      var n := |logs| - 1;
      WindowHolds(logs[..n], a, b, l);
      assert logs == logs[..n] + [logs[n]];
    }
  }

  lemma MarksSeeWindow(books: Books, other: Books, employee: int, a: int, b: int, d: int)
    requires InWindow(books.logs, a, b) == InWindow(other.logs, a, b) && a <= d <= b
    ensures MarkedHalf(books, employee, d) ==> MarkedHalf(other, employee, d)
  {
    if MarkedHalf(books, employee, d) {
      var i :| 0 <= i < |books.logs| && books.logs[i].employee == employee
               && books.logs[i].date == d && books.logs[i].status == HalfDay;
      WindowHolds(books.logs, a, b, books.logs[i]);
      WindowHolds(other.logs, a, b, books.logs[i]);
      var k :| 0 <= k < |other.logs| && other.logs[k] == books.logs[i];
    }
  }

  lemma WorkedDatesSeeWindow(books: Books, other: Books, employee: int, a: int, b: int)
    requires InWindow(books.logs, a, b) == InWindow(other.logs, a, b)
    ensures WorkedDates(books, employee, a, b) == WorkedDates(other, employee, a, b)
  {
    forall l: Log ensures l in books.logs && a <= l.date <= b <==> l in other.logs && a <= l.date <= b {
      WindowHolds(books.logs, a, b, l);
      WindowHolds(other.logs, a, b, l);
    }
  }

  /** The same sum over two tables that agree on the window. */
  lemma TotalsAgree(logs: seq<Log>, other: seq<Log>, a: int, b: int, f: Log -> int, g: Log -> int)
    requires InWindow(logs, a, b) == InWindow(other, a, b)
    requires forall l: Log :: f(l) == g(l) && (a <= l.date <= b || f(l) == 0)
    ensures Total(logs, f) == Total(other, g)
  {
    TotalSeesWindow(logs, a, b, f);
    TotalSeesWindow(other, a, b, g);
    TotalSame(InWindow(logs, a, b), f, g);
  }

  lemma CountsAgree(books: Books, logs: seq<Log>, employee: int, a: int, b: int, wo: bool)
    requires InWindow(books.logs, a, b) == InWindow(logs, a, b)
    ensures var other := books.(logs := logs);
      && Total(books.logs, OfStatus(books, employee, a, b, wo, Absent))
        == Total(logs, OfStatus(other, employee, a, b, wo, Absent))
      && Total(books.logs, OfStatus(books, employee, a, b, wo, HalfDay))
        == Total(logs, OfStatus(other, employee, a, b, wo, HalfDay))
      && Total(books.logs, OfStatus(books, employee, a, b, wo, Late))
        == Total(logs, OfStatus(other, employee, a, b, wo, Late))
      && Total(books.logs, Attended(books, employee, a, b)) == Total(logs, Attended(other, employee, a, b))
      && Total(books.logs, Worked(books, employee, a, b)) == Total(logs, Worked(other, employee, a, b))
  {
    var other := books.(logs := logs);
    TotalsAgree(books.logs, logs, a, b, OfStatus(books, employee, a, b, wo, Absent),
      OfStatus(other, employee, a, b, wo, Absent));
    TotalsAgree(books.logs, logs, a, b, OfStatus(books, employee, a, b, wo, HalfDay),
      OfStatus(other, employee, a, b, wo, HalfDay));
    TotalsAgree(books.logs, logs, a, b, OfStatus(books, employee, a, b, wo, Late),
      OfStatus(other, employee, a, b, wo, Late));
    TotalsAgree(books.logs, logs, a, b, Attended(books, employee, a, b), Attended(other, employee, a, b));
    TotalsAgree(books.logs, logs, a, b, Worked(books, employee, a, b), Worked(other, employee, a, b));
  }

  lemma ShortAgrees(books: Books, logs: seq<Log>, employee: int, a: int, b: int, wo: bool, shift: int)
    requires InWindow(books.logs, a, b) == InWindow(logs, a, b)
    ensures Total(books.logs, Short(books, employee, a, b, wo, shift))
      == Total(logs, Short(books.(logs := logs), employee, a, b, wo, shift))
  {
    var other := books.(logs := logs);
    var f, g := Short(books, employee, a, b, wo, shift), Short(other, employee, a, b, wo, shift);
    forall l: Log ensures f(l) == g(l) {
      if a <= l.date <= b {
        MarksSeeWindow(books, other, employee, a, b, l.date);
        MarksSeeWindow(other, books, employee, a, b, l.date);
      }
    }
    TotalsAgree(books.logs, logs, a, b, f, g);
  }

  /** The summary of a window reads no day record outside it. */
  lemma SummarySeesWindow(books: Books, logs: seq<Log>, employee: int, a: int, b: int, wo: bool)
    requires InWindow(books.logs, a, b) == InWindow(logs, a, b)
    ensures Summary(books, employee, a, b, wo) == Summary(books.(logs := logs), employee, a, b, wo)
  {
    CountsAgree(books, logs, employee, a, b, wo);
    ShortAgrees(books, logs, employee, a, b, wo, RosteredSeconds(books.roster, employee, a, b));
    LeaveAndNightsAgree(books, logs, employee, a, b, wo);
  }

  lemma LeaveAndNightsAgree(books: Books, logs: seq<Log>, employee: int, a: int, b: int, wo: bool)
    requires InWindow(books.logs, a, b) == InWindow(logs, a, b)
    ensures var other := books.(logs := logs);
      && Total(books.leaves, LeaveHalves(books, employee, a, b, wo, true))
        == Total(books.leaves, LeaveHalves(other, employee, a, b, wo, true))
      && Total(books.leaves, LeaveHalves(books, employee, a, b, wo, false))
        == Total(books.leaves, LeaveHalves(other, employee, a, b, wo, false))
      && Total(books.roster, NightsUnder(books, employee, a, b))
        == Total(books.roster, NightsUnder(other, employee, a, b))
      && DayTotal(a, b, WorkingDay(books)) == DayTotal(a, b, WorkingDay(other))
  {
    var other := books.(logs := logs);
    forall r: Leave
      ensures LeaveHalves(books, employee, a, b, wo, true)(r) == LeaveHalves(other, employee, a, b, wo, true)(r)
      ensures LeaveHalves(books, employee, a, b, wo, false)(r) == LeaveHalves(other, employee, a, b, wo, false)(r)
    {
      DayTotalSame(a, b, ChargedDay(books, wo, r), ChargedDay(other, wo, r));
    }
    TotalSame(books.leaves, LeaveHalves(books, employee, a, b, wo, true), LeaveHalves(other, employee, a, b, wo, true));
    TotalSame(books.leaves, LeaveHalves(books, employee, a, b, wo, false),
      LeaveHalves(other, employee, a, b, wo, false));
    WorkedDatesSeeWindow(books, other, employee, a, b);
    TotalSame(books.roster, NightsUnder(books, employee, a, b), NightsUnder(other, employee, a, b));
    DayTotalSame(a, b, WorkingDay(books), WorkingDay(other));
  }

  lemma {:induction false} DayTotalSame(a: int, b: int, f: int -> int, g: int -> int)
    requires forall d | a <= d <= b :: f(d) == g(d)
    ensures DayTotal(a, b, f) == DayTotal(a, b, g)
    decreases b - a
  {
    if a <= b { DayTotalSame(a, b - 1, f, g); }
  }

  /** Whatever is filed, approved, rejected, cancelled or locked afterwards, the summary a
      locked run was computed from stays the same, for every employee and both pay bases. */
  lemma LockedSummariesAreFrozen(s: Desk, steps: seq<Step>, books: Books, employee: int, a: int, b: int, wo: bool)
    requires (a, b) in s.locked && books.logs == s.logs
    ensures Summary(books.(logs := Run(s, steps).logs), employee, a, b, wo) == Summary(books, employee, a, b, wo)
  {
    RunFreezesWindow(s, steps, a, b);
    SummarySeesWindow(books, Run(s, steps).logs, employee, a, b, wo);
  }

  // ---------- what each step is answered, and what it writes ----------

  /** An approval goes through exactly for a pending request whose date lies in no locked
      window. */
  lemma ApprovalAnsweredExactly(s: Desk, r: Request)
    ensures ApproveReply(s, r) ==
      if r.state != Pending then Declined(NotPending)
      else if exists w | w in s.locked :: w.0 <= r.date <= w.1 then Declined(PayrollLocked) else Applied
  {
    if w :| w in s.locked && w.0 <= r.date <= w.1 {
      var i :| 0 <= i < |s.locked| && s.locked[i] == w;
    }
    if i :| 0 <= i < |s.locked| && s.locked[i].0 <= r.date <= s.locked[i].1 { assert s.locked[i] in s.locked; }
  }

  /** A decision on a pending request leaves it approved, rejected or cancelled, as the step
      says, and moves no other; only an approval moves the records and the trail. */
  lemma DecisionsAre(s: Desk, step: Step, k: nat)
    requires step.Approve? || step.Reject? || step.Cancel?
    requires k < |s.requests|
    ensures var t, r := After(s, step), s.requests[k];
      && |t.requests| == |s.requests| && t.locked == s.locked
      && t.requests[k] ==
           (if k != step.i || r.state != Pending then r
            else if step.Reject? then r.(state := Rejected)
            else if step.Cancel? then r.(state := Cancelled)
            else if forall w | w in s.locked :: !(w.0 <= r.date <= w.1) then r.(state := Approved) else r)
      && (!step.Approve? ==> t.logs == s.logs && t.edits == s.edits)
  {
    ApprovalAnsweredExactly(s, s.requests[k]);
  }

  /** Filing adds a pending request at the end, unless one waits for the same person and day;
      locking adds a window; neither moves anything else. */
  lemma FilingAndLocking(s: Desk, r: Request, w: (int, int))
    ensures After(s, File(r)) ==
      if exists q | q in s.requests :: q.employee == r.employee && q.date == r.date && q.state == Pending then s
      else Desk(s.logs, s.requests + [Request(r.employee, r.date, r.checkIn, r.checkOut, r.status, Pending)],
                s.edits, s.locked)
    ensures After(s, Lock(w)) == Desk(s.logs, s.requests, s.edits, s.locked + [w])
  {
    if q :| q in s.requests && q.employee == r.employee && q.date == r.date && q.state == Pending {
      var i :| 0 <= i < |s.requests| && s.requests[i] == q;
    }
    if i :| 0 <= i < |s.requests| && s.requests[i].employee == r.employee && s.requests[i].date == r.date
            && s.requests[i].state == Pending { assert s.requests[i] in s.requests; }
  }

  /** The rows an approval adds to the trail: none for a record it creates; otherwise one for
      each field asked for, a status only where it differs, all of that record and in the
      approver's name. */
  lemma TrailGrowsExactly(s: Desk, i: nat, actor: int)
    requires i < |s.requests| && ApproveReply(s, s.requests[i]) == Applied
    ensures var r, more := s.requests[i], After(s, Approve(i, actor)).edits;
      var was := RecordOf(s.logs, r.employee, r.date);
      && s.edits <= more
      && (was.None? ==> more == s.edits)
      && (forall k | |s.edits| <= k < |more| ::
        more[k].actor == actor && more[k].employee == r.employee && more[k].date == r.date)
      && (was.Some? ==>
            && var n := |s.edits|;
            && var a, b, c := r.checkIn.Some?, r.checkOut.Some?, r.status.Some? && r.status.value != was.value.status;
            && |more| == n + (if a then 1 else 0) + (if b then 1 else 0) + (if c then 1 else 0)
            && (forall k, m | n <= k < m < |more| :: more[k].field != more[m].field)
            && forall k | n <= k < |more| ::
                 (more[k].field == CheckInField ==> a) && (more[k].field == CheckOutField ==> b)
                 && (more[k].field == StatusField ==> c))
  {
  }
}
