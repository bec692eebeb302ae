/** Changes an employee asks for and somebody else approves
    (backend/employees/change_requests.py, with the columns of backend/employees/models.py). */
module ChangeRequests {
  import opened Options
  import Text

  /** The allow-list, in the order of the source, and any other column a caller may name. */
  datatype Field =
    | BankName | BankBranch | BankAccountName | BankAccountNumber | BankAccountType
    | LegalFirstName | LegalMiddleName | LegalLastName | CitizenshipNumber | PanNumber
      | SsfNumber | PfNumber | CitNumber
    | PassportNumber | PassportExpiry | MaritalStatus | Phone | Address
    | OffList(name: string)

  datatype State = Pending | Approved | Rejected | Withdrawn | Superseded

  datatype Request = Request(employee: int, field: Field, oldValue: string, newValue: string, filedBy: Option<int>,
                             state: State, decidedBy: Option<int>)

  /** `values` holds the columns that are set; a missing one reads as the empty string. */
  datatype Store = Store(requests: seq<Request>, values: map<(int, Field), string>)

  /** How the database reads a date: not one, not a real day (the parse raises), or the day
      it is stored and shown as. */
  datatype DateText = NotADate | NoSuchDay | Day(iso: string)
  type Dates = string -> DateText

  /** `choices_for`: None for free text. */
  function Choices(f: Field): Option<set<string>> {
    match f
    case BankAccountType => Some({"salary", "current", "savings"})
    case MaritalStatus => Some({"single", "married", "divorced", "widowed"})
    case _ => None
  }

  predicate IsDateField(f: Field) {
    f == PassportExpiry
  }

  /** `max_length` of the column (backend/employees/models.py:230-324); a date has none. */
  function Width(f: Field): Option<nat> {
    match f
    case BankName => Some(120)
    case BankBranch | BankAccountName => Some(150)
    case BankAccountNumber => Some(40)
    case LegalFirstName | LegalMiddleName | LegalLastName => Some(100)
    case CitizenshipNumber => Some(50)
    case PanNumber | SsfNumber | PfNumber | CitNumber | PassportNumber => Some(30)
    case BankAccountType | MaritalStatus | Phone => Some(20)
    case Address => Some(255)
    case PassportExpiry | OffList(_) => None
  }

  /** `max_length` of a request's own `new_value` (backend/employees/models.py:1016). */
  const RowWidth := 255

  /** Whether the column takes the value when it is saved. */
  predicate Fits(dates: Dates, f: Field, value: string) {
    if IsDateField(f) then dates(value).Day? else Width(f).Some? ==> |value| <= Width(f).value
  }

  predicate Legal(dates: Dates, f: Field, value: string) {
    (Choices(f).Some? ==> value in Choices(f).value) && (IsDateField(f) ==> dates(value).Day?)
  }

  /** What the column holds after `value` is saved in it. */
  function Stored(dates: Dates, f: Field, value: string): string {
    if IsDateField(f) && dates(value).Day? then dates(value).iso else value
  }

  function Current(values: map<(int, Field), string>, employee: int, f: Field): string {
    if (employee, f) in values then values[(employee, f)] else ""
  }

  datatype Refusal =
    | NotRequestable | NoValue | NotAChoice | BadDate | Unchanged
    | AlreadyDecided | OwnRequest | NoReason

  /** What raises something else than a refusal: the parse of a date, or a save in the database. */
  datatype Fault = DateFails | Overlong
  datatype Reply = Done | Refused(why: Refusal) | Raised(fault: Fault)

  function SubmitReply(dates: Dates, s: Store, employee: int, f: Field, value: string): Reply {
    var v := Text.Strip(value);
    if f.OffList? then Refused(NotRequestable)
    else if v == "" then Refused(NoValue)
    else if Choices(f).Some? && v !in Choices(f).value then Refused(NotAChoice)
    else if IsDateField(f) && dates(v).NoSuchDay? then Raised(DateFails)
    else if IsDateField(f) && dates(v).NotADate? then Refused(BadDate)
    else if v == Current(s.values, employee, f) then Refused(Unchanged)
    else if |v| > RowWidth then Raised(Overlong)
    else Done
  }

  function ApproveReply(dates: Dates, r: Request, actor: Option<int>): Reply {
    if r.state != Pending then Refused(AlreadyDecided)
    else if r.filedBy == actor then Refused(OwnRequest)
    else if Choices(r.field).Some? && r.newValue !in Choices(r.field).value then Refused(NotAChoice)
    else if IsDateField(r.field) && !dates(r.newValue).Day? then Raised(DateFails)
    else if !Fits(dates, r.field, r.newValue) then Raised(Overlong)
    else Done
  }

  function RejectReply(r: Request, note: string): Reply {
    if r.state != Pending then Refused(AlreadyDecided)
    else if Text.Blank(note) then Refused(NoReason)
    else Done
  }

  predicate Matches(r: Request, employee: int, f: Field) {
    r.employee == employee && r.field == f
  }

  function SupersededRow(r: Request, employee: int, f: Field): Request {
    if Matches(r, employee, f) && r.state == Pending then r.(state := Superseded) else r
  }

  function SupersededAll(rs: seq<Request>, employee: int, f: Field): (r: seq<Request>)
    ensures |r| == |rs| && forall i | 0 <= i < |rs| :: r[i] == SupersededRow(rs[i], employee, f)
  {
    seq(|rs|, i requires 0 <= i < |rs| => SupersededRow(rs[i], employee, f))
  }

  datatype Step =
    | Submit(employee: int, field: Field, value: string, actor: Option<int>)
    | Approve(i: nat, actor: Option<int>)
    | Reject(i: nat, actor: Option<int>, note: string)
    | Withdraw(i: nat)

  function After(dates: Dates, s: Store, step: Step): Store {
    match step
    case Submit(employee, f, value, actor) =>
      // The queue is written before the row that may not fit, in a transaction of its own.
      var reply := SubmitReply(dates, s, employee, f, value);
      if reply == Done then
        s.(requests := SupersededAll(s.requests, employee, f)
             + [Request(employee, f, Current(s.values, employee, f), Text.Strip(value), actor, Pending, None)])
      else if reply == Raised(Overlong) then s.(requests := SupersededAll(s.requests, employee, f))
      else s
    case Approve(i, actor) =>
      if i >= |s.requests| || ApproveReply(dates, s.requests[i], actor) != Done then s
      else
        var r := s.requests[i];
        Store(s.requests[i := r.(state := Approved, decidedBy := actor)],
              s.values[(r.employee, r.field) := Stored(dates, r.field, r.newValue)])
    case Reject(i, actor, note) =>
      if i >= |s.requests| || RejectReply(s.requests[i], note) != Done then s
      else s.(requests := s.requests[i := s.requests[i].(state := Rejected, decidedBy := actor)])
    case Withdraw(i) =>
      if i >= |s.requests| || s.requests[i].state != Pending then s
      else s.(requests := s.requests[i := s.requests[i].(state := Withdrawn)])
  }

  function Run(dates: Dates, s: Store, steps: seq<Step>): Store
    decreases |steps|
  {
    if steps == [] then s else Run(dates, After(dates, s, steps[0]), steps[1..])
  }

  class Desk {
    var requests: seq<Request>
    var values: map<(int, Field), string>

    ghost function View(): Store
      reads this
    {
      Store(requests, values)
    }

    constructor (values: map<(int, Field), string>)
      ensures View() == Store([], values)
    {
      requests, this.values := [], values;
    }

    /** The update over the whole queue. */
    method Supersede(employee: int, f: Field)
      modifies this
      ensures requests == SupersededAll(old(requests), employee, f) && values == old(values)
    {
      ghost var rows := requests;
      for i := 0 to |requests|
        invariant |requests| == |rows| && values == old(values)
        invariant forall k | 0 <= k < i :: requests[k] == SupersededRow(rows[k], employee, f)
        invariant forall k | i <= k < |rows| :: requests[k] == rows[k]
      {
        if requests[i].employee == employee && requests[i].field == f && requests[i].state == Pending {
          requests := requests[i := requests[i].(state := Superseded)];
        }
      }
      assert requests == SupersededAll(rows, employee, f);
    }

    /** Files a request and changes no value; an earlier pending one for the field is
        superseded row by row, and stays so when the new row turns out not to fit. */
    method SubmitRequest(dates: Dates, employee: int, f: Field, value: string, actor: Option<int>) returns (r: Reply)
      modifies this
      ensures r == SubmitReply(dates, old(View()), employee, f, value)
      ensures View() == After(dates, old(View()), Submit(employee, f, value, actor))
    {
      hide Text.Strip, Choices, SupersededAll;
      if f.OffList? { return Refused(NotRequestable); }
      var v := Text.Strip(value);
      if v == "" { return Refused(NoValue); }
      var allowed := Choices(f);
      if allowed.Some? && v !in allowed.value { return Refused(NotAChoice); }
      if IsDateField(f) && dates(v).NoSuchDay? { return Raised(DateFails); }
      if IsDateField(f) && dates(v).NotADate? { return Refused(BadDate); }
      var before := Current(values, employee, f);
      if v == before { return Refused(Unchanged); }
      Supersede(employee, f);
      if |v| > RowWidth { return Raised(Overlong); }
      requests := requests + [Request(employee, f, before, v, actor, Pending, None)];
      return Done;
    }

    /** One transaction: a save the column does not take leaves the record and the queue alone. */
    method ApproveRequest(dates: Dates, i: nat, actor: Option<int>) returns (r: Reply)
      requires i < |requests|
      modifies this
      ensures r == ApproveReply(dates, old(requests)[i], actor)
      ensures View() == After(dates, old(View()), Approve(i, actor))
    {
      var row := requests[i];
      if row.state != Pending { return Refused(AlreadyDecided); }
      if row.filedBy == actor { return Refused(OwnRequest); }
      var allowed := Choices(row.field);
      if allowed.Some? && row.newValue !in allowed.value { return Refused(NotAChoice); }
      if IsDateField(row.field) && !dates(row.newValue).Day? { return Raised(DateFails); }
      if !Fits(dates, row.field, row.newValue) { return Raised(Overlong); }
      values := values[(row.employee, row.field) := Stored(dates, row.field, row.newValue)];
      requests := requests[i := row.(state := Approved, decidedBy := actor)];
      return Done;
    }

    method RejectRequest(dates: Dates, i: nat, actor: Option<int>, note: string) returns (r: Reply)
      requires i < |requests|
      modifies this
      ensures r == RejectReply(old(requests)[i], note)
      ensures View() == After(dates, old(View()), Reject(i, actor, note))
    {
      if requests[i].state != Pending { return Refused(AlreadyDecided); }
      if Text.Strip(note) == "" { return Refused(NoReason); }
      requests := requests[i := requests[i].(state := Rejected, decidedBy := actor)];
      return Done;
    }

    method WithdrawRequest(dates: Dates, i: nat) returns (r: Reply)
      requires i < |requests|
      modifies this
      ensures r == if old(requests)[i].state == Pending then Done else Refused(AlreadyDecided)
      ensures View() == After(dates, old(View()), Withdraw(i))
    {
      if requests[i].state != Pending { return Refused(AlreadyDecided); }
      requests := requests[i := requests[i].(state := Withdrawn)];
      return Done;
    }
  }

  // ---------- the record ----------

  /** The last approved request of a field. */
  function LatestApproved(rs: seq<Request>, employee: int, f: Field): (r: Option<nat>)
    ensures r.None? <==> forall i | 0 <= i < |rs| :: !(Matches(rs[i], employee, f) && rs[i].state == Approved)
    ensures r.Some? ==> r.value < |rs| && Matches(rs[r.value], employee, f) && rs[r.value].state == Approved
    ensures r.Some? ==> forall i | r.value < i < |rs| :: !(Matches(rs[i], employee, f) && rs[i].state == Approved)
  {
    if rs == [] then None
    else
      var n := |rs| - 1;
      assert forall i | 0 <= i < n :: rs[..n][i] == rs[i];
      if Matches(rs[n], employee, f) && rs[n].state == Approved then Some(n) else LatestApproved(rs[..n], employee, f)
  }

  /** Only the newest request of a field can be pending. */
  ghost predicate NewestPending(rs: seq<Request>) {
    forall i, j | 0 <= i < j < |rs| && rs[j].employee == rs[i].employee && rs[j].field == rs[i].field ::
        rs[i].state != Pending
  }

  ghost predicate RowsOk(dates: Dates, rs: seq<Request>) {
    forall i | 0 <= i < |rs| ::
      && !rs[i].field.OffList? && Legal(dates, rs[i].field, rs[i].newValue)
      && rs[i].newValue != "" && rs[i].newValue != rs[i].oldValue && |rs[i].newValue| <= RowWidth
      && (rs[i].state == Approved ==> rs[i].decidedBy != rs[i].filedBy && Fits(dates, rs[i].field, rs[i].newValue))
  }

  /** What each column shows, given what it held at the start. */
  function Expected(dates: Dates, rs: seq<Request>, start: map<(int, Field), string>, employee: int, f: Field): string {
    var i := LatestApproved(rs, employee, f);
    if i.None? then Current(start, employee, f) else Stored(dates, f, rs[i.value].newValue)
  }

  ghost predicate ValuesOk(dates: Dates, s: Store, start: map<(int, Field), string>) {
    forall e, f :: Current(s.values, e, f) == Expected(dates, s.requests, start, e, f)
  }

  ghost predicate Inv(dates: Dates, s: Store, start: map<(int, Field), string>) {
    NewestPending(s.requests) && RowsOk(dates, s.requests) && ValuesOk(dates, s, start)
  }

  /** The latest approval of a field depends on the approved rows only. */
  lemma LatestIs(rs: seq<Request>, employee: int, f: Field, i: nat)
    requires i < |rs| && Matches(rs[i], employee, f) && rs[i].state == Approved
    requires forall j | i < j < |rs| :: !(Matches(rs[j], employee, f) && rs[j].state == Approved)
    ensures LatestApproved(rs, employee, f) == Some(i)
  {
  }

  lemma SameApprovals(rs: seq<Request>, qs: seq<Request>, employee: int, f: Field)
    requires |rs| <= |qs|
    requires forall i | 0 <= i < |rs| ::
      && qs[i].employee == rs[i].employee && qs[i].field == rs[i].field
      && (Matches(rs[i], employee, f) ==> (qs[i].state == Approved <==> rs[i].state == Approved))
    requires forall i | |rs| <= i < |qs| :: qs[i].state != Approved
    ensures LatestApproved(qs, employee, f) == LatestApproved(rs, employee, f)
  {
    var a := LatestApproved(rs, employee, f);
    if a.Some? { LatestIs(qs, employee, f, a.value); }
  }

  lemma StepKeepsRows(dates: Dates, s: Store, step: Step)
    requires NewestPending(s.requests) && RowsOk(dates, s.requests)
    ensures NewestPending(After(dates, s, step).requests) && RowsOk(dates, After(dates, s, step).requests)
  {
    hide Text.Strip, Choices, Width, Stored, Current, SupersededAll;
  }

  lemma ApprovedIsLatest(rs: seq<Request>, i: nat, actor: Option<int>, e: int, f: Field)
    requires NewestPending(rs) && i < |rs| && rs[i].state == Pending
    ensures LatestApproved(rs[i := rs[i].(state := Approved, decidedBy := actor)], e, f)
         == if Matches(rs[i], e, f) then Some(i) else LatestApproved(rs, e, f)
  {
    var qs := rs[i := rs[i].(state := Approved, decidedBy := actor)];
    if Matches(rs[i], e, f) { LatestIs(qs, e, f, i); } else { SameApprovals(rs, qs, e, f); }
  }

  lemma ApprovalShows(dates: Dates, s: Store, i: nat, actor: Option<int>,
      start: map<(int, Field), string>, e: int, f: Field)
    requires NewestPending(s.requests) && i < |s.requests| && ApproveReply(dates, s.requests[i], actor) == Done
    requires Current(s.values, e, f) == Expected(dates, s.requests, start, e, f)
    ensures var t := After(dates, s, Approve(i, actor));
      Current(t.values, e, f) == Expected(dates, t.requests, start, e, f)
  {
    ApprovedIsLatest(s.requests, i, actor, e, f);
  }

  lemma SupersedingApprovesNothing(rs: seq<Request>, employee: int, g: Field, filed: seq<Request>, e: int, f: Field)
    requires forall i | 0 <= i < |filed| :: filed[i].state == Pending
    ensures LatestApproved(SupersededAll(rs, employee, g) + filed, e, f) == LatestApproved(rs, e, f)
  {
    hide SupersededAll, LatestApproved;
    var qs := SupersededAll(rs, employee, g) + filed;
    forall i | 0 <= i < |rs| ensures qs[i] == SupersededRow(rs[i], employee, g) { }
    SameApprovals(rs, qs, e, f);
  }

  /** A submission supersedes and then files one row, or none; or it does nothing. */
  lemma SubmissionIs(dates: Dates, s: Store, step: Step) returns (filed: seq<Request>)
    requires step.Submit?
    ensures forall i | 0 <= i < |filed| :: filed[i].state == Pending
    ensures var t := After(dates, s, step);
      && t.values == s.values
      && (t.requests == s.requests || t.requests == SupersededAll(s.requests, step.employee, step.field) + filed)
  {
    filed := [];
    if SubmitReply(dates, s, step.employee, step.field, step.value) == Done {
      filed := [Request(step.employee, step.field, Current(s.values, step.employee, step.field),
                        Text.Strip(step.value), step.actor, Pending, None)];
    }
  }

  lemma SubmissionShows(dates: Dates, s: Store, step: Step, start: map<(int, Field), string>, e: int, f: Field)
    requires step.Submit? && Current(s.values, e, f) == Expected(dates, s.requests, start, e, f)
    ensures var t := After(dates, s, step); Current(t.values, e, f) == Expected(dates, t.requests, start, e, f)
  {
    hide After, LatestApproved, SupersededAll, Stored, Current;
    var t := After(dates, s, step);
    var filed := SubmissionIs(dates, s, step);
    if t.requests != s.requests {
      SupersedingApprovesNothing(s.requests, step.employee, step.field, filed, e, f);
      var i := LatestApproved(s.requests, e, f);
      if i.Some? { assert t.requests[i.value] == SupersededRow(s.requests[i.value], step.employee, step.field); }
    }
  }

  lemma RefusedIsNotLatest(rs: seq<Request>, i: nat, r: Request, e: int, f: Field)
    requires i < |rs| && rs[i].state == Pending && r.state != Approved
    requires r.employee == rs[i].employee && r.field == rs[i].field && r.newValue == rs[i].newValue
    ensures LatestApproved(rs[i := r], e, f) == LatestApproved(rs, e, f)
  {
    SameApprovals(rs, rs[i := r], e, f);
  }

  lemma RefusalShows(dates: Dates, s: Store, step: Step, start: map<(int, Field), string>, e: int, f: Field)
    requires step.Reject? || step.Withdraw?
    requires Current(s.values, e, f) == Expected(dates, s.requests, start, e, f)
    ensures var t := After(dates, s, step); Current(t.values, e, f) == Expected(dates, t.requests, start, e, f)
  {
    var t := After(dates, s, step);
    if t != s { RefusedIsNotLatest(s.requests, step.i, t.requests[step.i], e, f); }
  }

  lemma StepShows(dates: Dates, s: Store, step: Step, start: map<(int, Field), string>, e: int, f: Field)
    requires NewestPending(s.requests) && Current(s.values, e, f) == Expected(dates, s.requests, start, e, f)
    ensures var t := After(dates, s, step); Current(t.values, e, f) == Expected(dates, t.requests, start, e, f)
  {
    match step
    case Submit(_, _, _, _) => SubmissionShows(dates, s, step, start, e, f);
    case Approve(i, actor) =>
      if i < |s.requests| && ApproveReply(dates, s.requests[i], actor) == Done {
        ApprovalShows(dates, s, i, actor, start, e, f);
      }
    case _ => RefusalShows(dates, s, step, start, e, f);
  }

  lemma StepKeepsValues(dates: Dates, s: Store, step: Step, start: map<(int, Field), string>)
    requires NewestPending(s.requests) && ValuesOk(dates, s, start)
    ensures ValuesOk(dates, After(dates, s, step), start)
  {
    var t := After(dates, s, step);
    forall e, f ensures Current(t.values, e, f) == Expected(dates, t.requests, start, e, f) {
      assert Current(s.values, e, f) == Expected(dates, s.requests, start, e, f);
      StepShows(dates, s, step, start, e, f);
    }
  }

  lemma {:induction false} RunKeepsInv(dates: Dates, s: Store, steps: seq<Step>, start: map<(int, Field), string>)
    requires Inv(dates, s, start)
    ensures Inv(dates, Run(dates, s, steps), start)
    decreases |steps|
  {
    if steps != [] {
      StepKeepsRows(dates, s, steps[0]);
      StepKeepsValues(dates, s, steps[0], start);
      RunKeepsInv(dates, After(dates, s, steps[0]), steps[1..], start);
    }
  }

  // ---------- the promises ----------

  /** From an empty queue, every run: at most one pending request per employee and field,
      every request for one of the choices, a real day or text of at most 255 characters that
      was not on record when it was filed, every approved request one its column takes and
      not approved by its filer, nothing off the allow-list requested or changed, and each
      column shows its latest approved request or its starting value. */
  lemma EveryRunKeepsTheRecord(dates: Dates, start: map<(int, Field), string>, steps: seq<Step>)
    ensures var s := Run(dates, Store([], start), steps);
      && (forall i, j | 0 <= i < |s.requests| && 0 <= j < |s.requests| && i != j
            && s.requests[i].employee == s.requests[j].employee && s.requests[i].field == s.requests[j].field ::
            s.requests[i].state != Pending || s.requests[j].state != Pending)
      && (forall i | 0 <= i < |s.requests| :: var r := s.requests[i];
            && !r.field.OffList? && Legal(dates, r.field, r.newValue) && |r.newValue| <= RowWidth
            && r.newValue != "" && r.newValue != r.oldValue)
      && (forall i | 0 <= i < |s.requests| && s.requests[i].state == Approved :: var r := s.requests[i];
            r.decidedBy != r.filedBy && Fits(dates, r.field, r.newValue))
      && (forall e, f :: Current(s.values, e, f) == Expected(dates, s.requests, start, e, f))
      && (forall e, f: Field | f.OffList? :: Current(s.values, e, f) == Current(start, e, f))
  {
    RunKeepsInv(dates, Store([], start), steps, start);
    var s := Run(dates, Store([], start), steps);
    forall e, f: Field | f.OffList? ensures Current(s.values, e, f) == Current(start, e, f) {
      assert Current(s.values, e, f) == Expected(dates, s.requests, start, e, f);
    }
  }

  /** Nothing vanishes, what was asked is never rewritten, and a decided row never changes. */
  ghost predicate Later(before: seq<Request>, after: seq<Request>) {
    && |before| <= |after|
    && forall i | 0 <= i < |before| ::
         after[i] == before[i]
         || (before[i].state == Pending
             && after[i] == before[i].(state := after[i].state, decidedBy := after[i].decidedBy))
  }

  lemma {:induction false} DecidedRowsStay(dates: Dates, s: Store, steps: seq<Step>)
    ensures Later(s.requests, Run(dates, s, steps).requests)
    decreases |steps|
  {
    if steps != [] {
      var t := After(dates, s, steps[0]);
      assert Later(s.requests, t.requests);
      DecidedRowsStay(dates, t, steps[1..]);
    }
  }

  /** Filing, rejecting and withdrawing write nothing on the employee's record. */
  lemma OnlyApprovalWrites(dates: Dates, s: Store, step: Step)
    ensures After(dates, s, step).values != s.values ==>
      step.Approve? && step.i < |s.requests| && ApproveReply(dates, s.requests[step.i], step.actor) == Done
  {
  }

  /** The second check of a choice, at approval, never refuses a request filed through
      `submit`. A pending one is refused to its filer; anybody else approves it if and only
      if its column takes the value, and if it does not, nobody can. */
  lemma ApprovedExactly(dates: Dates, start: map<(int, Field), string>, steps: seq<Step>, i: nat, actor: Option<int>)
    requires var s := Run(dates, Store([], start), steps); i < |s.requests| && s.requests[i].state == Pending
    ensures var s := Run(dates, Store([], start), steps);
      var r := s.requests[i];
      ApproveReply(dates, r, actor) ==
        if r.filedBy == actor then Refused(OwnRequest)
        else if Width(r.field).Some? && |r.newValue| > Width(r.field).value then Raised(Overlong)
        else Done
  {
    RunKeepsInv(dates, Store([], start), steps, start);
  }

  /** The rows that are still waiting for a field. */
  ghost predicate Waiting(rs: seq<Request>, employee: int, f: Field) {
    exists i | 0 <= i < |rs| :: Matches(rs[i], employee, f) && rs[i].state == Pending
  }

  /** What submission accepts, anybody but the filer approves at once if and only if the
      stripped value is no longer than its column; a date always is. */
  lemma FiledIsApprovableExactly(dates: Dates, s: Store, step: Step, actor: Option<int>)
    requires step.Submit? && SubmitReply(dates, s, step.employee, step.field, step.value) == Done
    requires actor != step.actor
    ensures var t := After(dates, s, step);
      && |t.requests| == |s.requests| + 1
      && (ApproveReply(dates, t.requests[|s.requests|], actor) == Done
          <==> (Width(step.field).Some? ==> |Text.Strip(step.value)| <= Width(step.field).value))
  {
  }

  function Digits(n: nat): (r: string)
    ensures |r| == n && forall i | 0 <= i < n :: r[i] == '1'
  {
    seq(n, _ => '1')
  }

  lemma DigitsAreStripped(n: nat)
    ensures Text.Strip(Digits(n)) == Digits(n)
  {
  }

  /** A PAN of 31 digits, one more than the column holds, is accepted and waits; HR's
      approval of it raises, and changes nothing. */
  lemma OverlongIsATrap(dates: Dates)
    ensures var s := Store([], map[]);
      var t := After(dates, s, Submit(1, PanNumber, Digits(31), Some(1)));
      && SubmitReply(dates, s, 1, PanNumber, Digits(31)) == Done
      && Waiting(t.requests, 1, PanNumber)
      && ApproveReply(dates, t.requests[0], Some(2)) == Raised(Overlong)
      && After(dates, t, Approve(0, Some(2))) == t
  {
    DigitsAreStripped(31);
    var t := After(dates, Store([], map[]), Submit(1, PanNumber, Digits(31), Some(1)));
    assert Matches(t.requests[0], 1, PanNumber) && t.requests[0].state == Pending;
  }

  /** A new ask takes the place of the one that was waiting for the field, except that one
      of more than 255 characters takes it away and leaves nothing in its place. */
  lemma AskIsLostExactly(dates: Dates, s: Store, step: Step)
    requires step.Submit? && Waiting(s.requests, step.employee, step.field)
    requires !step.field.OffList?
    ensures var v := Text.Strip(step.value);
      !Waiting(After(dates, s, step).requests, step.employee, step.field)
      <==> |v| > RowWidth && Legal(dates, step.field, v) && v != Current(s.values, step.employee, step.field)
  {
    var t := After(dates, s, step);
    if SubmitReply(dates, s, step.employee, step.field, step.value) == Done {
      var n := |s.requests|;
      assert Matches(t.requests[n], step.employee, step.field) && t.requests[n].state == Pending;
    }
  }

  /** An address asked for, and then asked for again in 256 characters: nobody is asked. */
  lemma AskIsLost(dates: Dates)
    ensures var s := After(dates, Store([], map[]), Submit(1, Address, Digits(9), Some(1)));
      && Waiting(s.requests, 1, Address)
      && SubmitReply(dates, s, 1, Address, Digits(256)) == Raised(Overlong)
      && !Waiting(After(dates, s, Submit(1, Address, Digits(256), Some(1))).requests, 1, Address)
  {
    DigitsAreStripped(9);
    DigitsAreStripped(256);
    var s := After(dates, Store([], map[]), Submit(1, Address, Digits(9), Some(1)));
    assert Matches(s.requests[0], 1, Address) && s.requests[0].state == Pending;
    AskIsLostExactly(dates, s, Submit(1, Address, Digits(256), Some(1)));
  }

  // ---------- what each step is answered, and what it writes ----------

  /** How many characters the columns hold. */
  lemma WidthsAre(f: Field)
    ensures !f.OffList? && !IsDateField(f) <==> Width(f).Some?
    ensures Width(f) == Some(20) <==> f == BankAccountType || f == MaritalStatus || f == Phone
    ensures Width(f) == Some(30) <==>
      f == PanNumber || f == SsfNumber || f == PfNumber || f == CitNumber || f == PassportNumber
    ensures Width(f) == Some(40) <==> f == BankAccountNumber
    ensures Width(f) == Some(50) <==> f == CitizenshipNumber
    ensures Width(f) == Some(100) <==> f == LegalFirstName || f == LegalMiddleName || f == LegalLastName
    ensures Width(f) == Some(120) <==> f == BankName
    ensures Width(f) == Some(150) <==> f == BankBranch || f == BankAccountName
    ensures Width(f) == Some(255) <==> f == Address
    ensures IsDateField(f) <==> f == PassportExpiry
  {
  }

  /** Whether the value is one the field's list has, where it has a list. */
  predicate OnItsList(f: Field, v: string) {
    && (f == BankAccountType ==> v == "salary" || v == "current" || v == "savings")
    && (f == MaritalStatus ==> v == "single" || v == "married" || v == "divorced" || v == "widowed")
  }

  /** The answer to a submission, in the order in which the reasons are looked for. */
  lemma SubmissionAnsweredExactly(dates: Dates, s: Store, employee: int, f: Field, value: string)
    ensures var v, date := Text.Strip(value), f == PassportExpiry;
      SubmitReply(dates, s, employee, f, value) ==
        if f.OffList? then Refused(NotRequestable)
        else if forall i | 0 <= i < |value| :: Text.IsSpace(value[i]) then Refused(NoValue)
        else if !OnItsList(f, v) then Refused(NotAChoice)
        else if date && dates(v) == NoSuchDay then Raised(DateFails)
        else if date && dates(v) == NotADate then Refused(BadDate)
        else if v == (if (employee, f) in s.values then s.values[(employee, f)] else "") then Refused(Unchanged)
        else if |v| > 255 then Raised(Overlong) else Done
  {
    hide Text.Strip, Text.IsSpace, Width;
  }

  /** What an accepted submission files: the value asked for beside the one on record, in the
      filer's name and undecided; what waited for the field is superseded, and no other row
      and no column moves. */
  lemma SubmissionFilesExactly(dates: Dates, s: Store, step: Step)
    requires step.Submit? && SubmitReply(dates, s, step.employee, step.field, step.value) == Done
    ensures var t, n, at := After(dates, s, step), |s.requests|, (step.employee, step.field);
      && t.values == s.values && |t.requests| == n + 1
      && t.requests[n] == Request(step.employee, step.field, if at in s.values then s.values[at] else "",
                                  Text.Strip(step.value), step.actor, Pending, None)
      && forall i | 0 <= i < n ::
           t.requests[i] == s.requests[i].(state :=
             if s.requests[i].employee == step.employee && s.requests[i].field == step.field
                && s.requests[i].state == Pending then Superseded else s.requests[i].state)
  {
    hide Text.Strip, SubmitReply;
  }

  /** What a decision writes: the row's state and, but for a withdrawal, who decided; and, for
      an approval alone, the one column, in the form the column gives back. */
  lemma DecisionsAre(dates: Dates, s: Store, step: Step, k: nat)
    requires !step.Submit? && k < |s.requests|
    ensures var t, r := After(dates, s, step), s.requests[k];
      && |t.requests| == |s.requests|
      && (k != step.i || r.state != Pending ==> t.requests[k] == r)
      && (k == step.i && r.state == Pending ==>
            && (step.Withdraw? ==> t.requests[k] == r.(state := Withdrawn))
            && (step.Reject? ==>
                 t.requests[k] == if Text.Blank(step.note) then r else r.(state := Rejected, decidedBy := step.actor))
            && (step.Approve? ==>
                 t.requests[k] == if ApproveReply(dates, r, step.actor) != Done then r
                                  else r.(state := Approved, decidedBy := step.actor)))
      && (k == step.i ==>
            t.values == if step.Approve? && ApproveReply(dates, r, step.actor) == Done
                        then s.values[(r.employee, r.field) :=
                          if r.field == PassportExpiry then dates(r.newValue).iso else r.newValue]
                        else s.values)
  {
    hide Text.Strip;
  }
}
