/** Suspending somebody, lifting it, and keeping the record, the employment status and the
    login in step (backend/employees/suspensions.py, with the lifecycle steps of
    backend/employees/services.py that move the same two fields). */
module Suspensions {
  import opened Options

  datatype Outcome = Undecided | Reinstated | Dismissed | Withdrawn
  datatype EmploymentStatus = Active | OnLeave | Suspended | Resigned | Terminated

  /** `endsOn` missing means until further notice. */
  datatype Suspension = Suspension(startsOn: int, endsOn: Option<int>, isActive: bool,
    outcome: Outcome, liftedOn: Option<int>)

  /** Suspensions in creation order; `login` is the account's own active flag. */
  datatype Person = Person(suspensions: seq<Suspension>, status: EmploymentStatus, login: bool)

  predicate Covers(s: Suspension, date: int) {
    if s.liftedOn.Some? && s.liftedOn.value <= date then false
    else s.startsOn <= date && (s.endsOn.None? || date <= s.endsOn.value)
  }

  /** Ordered by latest start, then latest created: the first that covers the date. */
  function Current(ss: seq<Suspension>, date: int): (r: Option<nat>)
    ensures r.None? <==> forall i | 0 <= i < |ss| :: !Covers(ss[i], date)
    ensures r.Some? ==> r.value < |ss| && Covers(ss[r.value], date)
    ensures r.Some? ==> forall i | 0 <= i < |ss| && Covers(ss[i], date) ::
      ss[i].startsOn < ss[r.value].startsOn || (ss[i].startsOn == ss[r.value].startsOn && i <= r.value)
  {
    if ss == [] then None
    else
      var n := |ss| - 1;
      var front := Current(ss[..n], date);
      assert forall i | 0 <= i < n :: ss[..n][i] == ss[i];
      if Covers(ss[n], date) && (front.None? || ss[front.value].startsOn <= ss[n].startsOn) then Some(n) else front
  }

  predicate HasLeft(p: Person) {
    p.status == Resigned || p.status == Terminated
  }

  /** Everything the records say about today: the lock, the flag and the status agree. */
  ghost predicate Locked(p: Person, today: int) {
    match Current(p.suspensions, today)
    case Some(c) =>
      && !p.login && p.status != Active
      && forall i | 0 <= i < |p.suspensions| :: p.suspensions[i].isActive <==> i == c
    case None =>
      && p.status != Suspended
      && (p.suspensions != [] && p.status == Active ==> p.login)
      && forall i | 0 <= i < |p.suspensions| :: !p.suspensions[i].isActive
  }

  // ---------- the steps ----------

  function Flagged(ss: seq<Suspension>, current: Option<nat>): (r: seq<Suspension>)
    ensures |r| == |ss| && forall i | 0 <= i < |ss| :: r[i] == ss[i].(isActive := current == Some(i))
  {
    seq(|ss|, i requires 0 <= i < |ss| => ss[i].(isActive := current == Some(i)))
  }

  /** `_sync`. */
  function Synced(p: Person, today: int): Person {
    var c := Current(p.suspensions, today);
    var status := if c.Some? && p.status == Active then Suspended
                  else if c.None? && p.status == Suspended then Active else p.status;
    Person(Flagged(p.suspensions, c), status, if c.Some? then false else p.login || status == Active)
  }

  datatype Refusal = EndsBeforeStart | AlreadySuspended | AlreadyLeft | OutcomeMissing | NotGone | StillSuspended
  datatype Reply = Done | Refused(why: Refusal)

  datatype Step =
    | Suspend(startsOn: int, endsOn: Option<int>)
    | Lift(i: nat, outcome: Outcome, onDate: Option<int>)
    | Amend(i: nat, startsOn: int, endsOn: Option<int>) // a PATCH of the record's dates
    | Delete(i: nat)
    | Leave(resigned: bool)
    | Rehire
    | NextMorning(day: int) // the calendar moves on and the nightly sweep runs

  function SuspendReply(p: Person, startsOn: int, endsOn: Option<int>): Reply {
    if endsOn.Some? && endsOn.value < startsOn then Refused(EndsBeforeStart)
    else if Current(p.suspensions, startsOn).Some? then Refused(AlreadySuspended)
    else if HasLeft(p) then Refused(AlreadyLeft)
    else Done
  }

  function LiftedRow(s: Suspension, outcome: Outcome, onDate: int): Suspension {
    s.(outcome := outcome, liftedOn := Some(onDate), isActive := false,
       endsOn := if s.endsOn.None? || s.endsOn.value > onDate then Some(onDate) else s.endsOn)
  }

  /** `on_date or date.today()`. */
  function LiftDay(onDate: Option<int>, today: int): int {
    if onDate.Some? then onDate.value else today
  }

  function RehireReply(p: Person): Reply {
    if p.status == Active then Refused(NotGone) else if p.status == Suspended then Refused(StillSuspended) else Done
  }

  /** The record closed, before the sync. */
  function Lifted(p: Person, today: int, i: nat, outcome: Outcome, onDate: Option<int>): Person
    requires i < |p.suspensions|
  {
    p.(suspensions := p.suspensions[i := LiftedRow(p.suspensions[i], outcome, LiftDay(onDate, today))],
       status := if outcome == Dismissed then Terminated else p.status)
  }

  function Filed(p: Person, startsOn: int, endsOn: Option<int>): Person {
    p.(suspensions := p.suspensions + [Suspension(startsOn, endsOn, false, Undecided, None)])
  }

  /** The dates rewritten: no check and no sync follows. */
  function Amended(p: Person, i: nat, startsOn: int, endsOn: Option<int>): Person
    requires i < |p.suspensions|
  {
    p.(suspensions := p.suspensions[i := p.suspensions[i].(startsOn := startsOn, endsOn := endsOn)])
  }

  /** The record gone, and no sync either. */
  function Deleted(p: Person, i: nat): Person
    requires i < |p.suspensions|
  {
    p.(suspensions := p.suspensions[..i] + p.suspensions[i + 1..])
  }

  function After(p: Person, today: int, step: Step): Person {
    match step
    case Suspend(startsOn, endsOn) =>
      if SuspendReply(p, startsOn, endsOn) != Done then p else Synced(Filed(p, startsOn, endsOn), today)
    case Lift(i, outcome, onDate) =>
      if i >= |p.suspensions| || outcome == Undecided then p else Synced(Lifted(p, today, i, outcome, onDate), today)
    case Amend(i, startsOn, endsOn) => if i < |p.suspensions| then Amended(p, i, startsOn, endsOn) else p
    case Delete(i) => if i < |p.suspensions| then Deleted(p, i) else p
    case Leave(resigned) => p.(status := if resigned then Resigned else Terminated, login := false)
    case Rehire => if RehireReply(p) == Done then p.(status := Active, login := true) else p
    case NextMorning(day) => if p.suspensions == [] then p else Synced(p, day)
  }

  function Clock(today: int, step: Step): int {
    if step.NextMorning? && step.day > today then step.day else today
  }

  function Run(p: Person, today: int, steps: seq<Step>): Person
    decreases |steps|
  {
    if steps == [] then p else Run(After(p, today, steps[0]), Clock(today, steps[0]), steps[1..])
  }

  function RunClock(today: int, steps: seq<Step>): int
    decreases |steps|
  {
    if steps == [] then today else RunClock(Clock(today, steps[0]), steps[1..])
  }

  predicate OnlyOneCovering(ss: seq<Suspension>, i: nat, today: int) {
    forall j | 0 <= j < |ss| && j != i :: !Covers(ss[j], today)
  }

  /** Steps that write a record or the login without a sync, and may: a rehire while no
      suspension covers today, an amendment after which the record in force is the one it
      was, and the deletion of a record that is not in force, or that alone covers today for
      somebody whose status is not suspended. */
  ghost predicate Harmless(p: Person, today: int, step: Step) {
    match step
    case Rehire => RehireReply(p) == Done ==> Current(p.suspensions, today).None?
    case Amend(i, startsOn, endsOn) => i < |p.suspensions| ==>
      Current(Amended(p, i, startsOn, endsOn).suspensions, today) == Current(p.suspensions, today)
    case Delete(i) => Current(p.suspensions, today) == Some(i) ==>
      OnlyOneCovering(p.suspensions, i, today) && p.status != Suspended
    case _ => true
  }

  /** Days only move forward, and every step is harmless. */
  ghost predicate Orderly(p: Person, today: int, steps: seq<Step>)
    decreases |steps|
  {
    steps == [] ||
      (&& (steps[0].NextMorning? ==> today <= steps[0].day)
       && Harmless(p, today, steps[0])
       && Orderly(After(p, today, steps[0]), Clock(today, steps[0]), steps[1..]))
  }

  // ---------- the record, updated in place ----------

  class Employee {
    var suspensions: seq<Suspension>
    var status: EmploymentStatus
    var login: bool

    ghost function View(): Person
      reads this
    {
      Person(suspensions, status, login)
    }

    constructor (status: EmploymentStatus, login: bool)
      ensures View() == Person([], status, login)
    {
      suspensions, this.status, this.login := [], status, login;
    }

    /** Look through the rows and keep the first in the table's order that covers the date. */
    method ActiveSuspension(onDate: int) returns (r: Option<nat>)
      ensures r == Current(suspensions, onDate)
    {
      r := None;
      for i := 0 to |suspensions|
        invariant r.Some? ==> r.value < i
        invariant r == Current(suspensions[..i], onDate)
      {
        assert suspensions[..i + 1][..i] == suspensions[..i];
        if Covers(suspensions[i], onDate) && (r.None? || suspensions[r.value].startsOn <= suspensions[i].startsOn) {
          r := Some(i);
        }
      }
      assert suspensions[..|suspensions|] == suspensions;
    }

    /** `_sync`: returns whether anything changed. */
    method Sync(today: int) returns (changed: bool)
      modifies this
      ensures View() == Synced(old(View()), today)
      ensures changed <==> View() != old(View())
    {
      var current := ActiveSuspension(today);
      changed := false;
      ghost var before := suspensions;
      for i := 0 to |suspensions|
        invariant |suspensions| == |before| && status == old(status) && login == old(login)
        invariant forall k | 0 <= k < i :: suspensions[k] == before[k].(isActive := current == Some(k))
        invariant forall k | i <= k < |before| :: suspensions[k] == before[k]
        invariant changed <==> exists k | 0 <= k < i :: suspensions[k] != before[k]
      {
        var shouldBe := current == Some(i);
        if suspensions[i].isActive != shouldBe {
          suspensions := suspensions[i := suspensions[i].(isActive := shouldBe)];
          changed := true;
        }
      }
      assert changed <==> suspensions != before;
      if current.Some? && status == Active {
        status := Suspended;
        changed := true;
      } else if current.None? && status == Suspended {
        status := Active;
        changed := true;
      }
      if current.Some? && login {
        login := false;
        changed := true;
      } else if current.None? && !login && status == Active {
        login := true;
        changed := true;
      }
      assert suspensions == Flagged(before, current);
    }

    method SuspendFrom(startsOn: int, endsOn: Option<int>, today: int) returns (r: Reply)
      modifies this
      ensures r == SuspendReply(old(View()), startsOn, endsOn)
      ensures View() == After(old(View()), today, Suspend(startsOn, endsOn))
    {
      if endsOn.Some? && endsOn.value < startsOn { return Refused(EndsBeforeStart); }
      var existing := ActiveSuspension(startsOn);
      if existing.Some? { return Refused(AlreadySuspended); }
      if status == Resigned || status == Terminated { return Refused(AlreadyLeft); }
      suspensions := suspensions + [Suspension(startsOn, endsOn, false, Undecided, None)];
      var _ := Sync(today);
      return Done;
    }

    /** `lift`, dated today unless another date is given. */
    method LiftSuspension(i: nat, outcome: Outcome, onDate: Option<int>, today: int) returns (r: Reply)
      requires i < |suspensions|
      modifies this
      ensures r == if outcome == Undecided then Refused(OutcomeMissing) else Done
      ensures View() == After(old(View()), today, Lift(i, outcome, onDate))
    {
      if outcome == Undecided { return Refused(OutcomeMissing); }
      var day := if onDate.Some? then onDate.value else today;
      var s := suspensions[i].(outcome := outcome, liftedOn := Some(day));
      if s.endsOn.None? || s.endsOn.value > day { s := s.(endsOn := Some(day)); }
      suspensions := suspensions[i := s.(isActive := false)];
      if outcome == Dismissed { status := Terminated; }
      var _ := Sync(today);
      return Done;
    }

    /** A PATCH through the viewset, which saves the row and nothing else. */
    method AmendSuspension(i: nat, startsOn: int, endsOn: Option<int>)
      requires i < |suspensions|
      modifies this
      ensures forall today :: View() == After(old(View()), today, Amend(i, startsOn, endsOn))
    {
      suspensions := suspensions[i := suspensions[i].(startsOn := startsOn, endsOn := endsOn)];
    }

    method DeleteSuspension(i: nat)
      requires i < |suspensions|
      modifies this
      ensures forall today :: View() == After(old(View()), today, Delete(i))
    {
      suspensions := suspensions[..i] + suspensions[i + 1..];
    }

    /** A resignation or termination taking effect: the status moves and the login closes. */
    method ApplyExit(resigned: bool)
      modifies this
      ensures forall today :: View() == After(old(View()), today, Leave(resigned))
      ensures status == (if resigned then Resigned else Terminated) && !login && suspensions == old(suspensions)
    {
      status := if resigned then Resigned else Terminated;
      if login { login := false; }
    }

    method RehireBack() returns (r: Reply)
      modifies this
      ensures r == RehireReply(old(View()))
      ensures forall today :: View() == After(old(View()), today, Step.Rehire)
    {
      if status == Active { return Refused(NotGone); }
      if status == Suspended { return Refused(StillSuspended); }
      status := Active;
      if !login { login := true; }
      return Done;
    }
  }

  function Views(staff: seq<Employee>): (r: seq<Person>)
    reads staff
    ensures |r| == |staff| && forall i | 0 <= i < |staff| ::
      r[i] == Person(staff[i].suspensions, staff[i].status, staff[i].login)
  {
    seq(|staff|,
      i requires 0 <= i < |staff| reads staff => Person(staff[i].suspensions, staff[i].status, staff[i].login))
  }

  function Mornings(people: seq<Person>, today: int): (r: seq<Person>)
    ensures |r| == |people| && forall i | 0 <= i < |people| :: r[i] == After(people[i], today, NextMorning(today))
  {
    seq(|people|, i requires 0 <= i < |people| => After(people[i], today, NextMorning(today)))
  }

  /** In how many places two lists of the same length differ. */
  function Differences(before: seq<Person>, after: seq<Person>): nat
    requires |before| == |after|
  {
    if before == [] then 0
    else
      var n := |before| - 1;
      Differences(before[..n], after[..n]) + (if after[n] != before[n] then 1 else 0)
  }

  lemma DifferencesStep(before: seq<Person>, after: seq<Person>, i: nat)
    requires |before| == |after| && i < |before|
    ensures Differences(before[..i + 1], after[..i + 1]) ==
      Differences(before[..i], after[..i]) + (if after[i] != before[i] then 1 else 0)
  {
    assert before[..i + 1][..i] == before[..i] && after[..i + 1][..i] == after[..i];
  }

  method SweepOne(e: Employee, today: int) returns (changed: bool)
    modifies e
    ensures e.View() == After(old(e.View()), today, NextMorning(today))
    ensures changed <==> e.View() != old(e.View())
  {
    if e.suspensions == [] { return false; }
    changed := e.Sync(today);
  }

  /** The nightly pass over everyone with a record; returns how many were out of step. */
  method Sweep(staff: seq<Employee>, today: int) returns (touched: nat)
    requires forall i, j | 0 <= i < j < |staff| :: staff[i] != staff[j]
    modifies staff
    ensures Views(staff) == Mornings(old(Views(staff)), today)
    ensures touched == Differences(old(Views(staff)), Views(staff))
  {
    touched := 0;
    ghost var before := Views(staff);
    ghost var after := Mornings(before, today);
    for i := 0 to |staff|
      invariant forall k | 0 <= k < i :: staff[k].View() == after[k]
      invariant forall k | i <= k < |staff| :: staff[k].View() == before[k]
      invariant touched == Differences(before[..i], after[..i])
    {
      DifferencesStep(before, after, i);
      label before_one:
      var changed := SweepOne(staff[i], today);
      forall k | 0 <= k < |staff| && k != i ensures staff[k].View() == old@before_one(staff[k].View()) {
        assert staff[k] != staff[i];
      }
      if changed { touched := touched + 1; }
    }
    assert before[..|staff|] == before && after[..|staff|] == after;
    assert Views(staff) == after;
  }

  // ---------- what the module promises ----------

  lemma FlagsDoNotDecide(ss: seq<Suspension>, c: Option<nat>, date: int)
    ensures Current(Flagged(ss, c), date) == Current(ss, date)
  {
  }

  /** Whatever state it starts from, a sync leaves the three facts in step. */
  lemma SyncLocks(p: Person, today: int)
    ensures Locked(Synced(p, today), today)
  {
    FlagsDoNotDecide(p.suspensions, Current(p.suspensions, today), today);
  }

  /** A second sync on the same day changes nothing, so the method returns False. */
  lemma SyncIsIdempotent(p: Person, today: int)
    ensures Synced(Synced(p, today), today) == Synced(p, today)
  {
    FlagsDoNotDecide(p.suspensions, Current(p.suspensions, today), today);
  }

  /** And a state in step is exactly one that a sync leaves alone. */
  lemma LockedIsAFixpoint(p: Person, today: int)
    requires p.suspensions != []
    ensures Locked(p, today) <==> Synced(p, today) == p
  {
  }

  lemma ExitKeepsLock(p: Person, today: int, resigned: bool)
    requires Locked(p, today)
    ensures Locked(After(p, today, Leave(resigned)), today)
  {
  }

  lemma MorningLocks(p: Person, today: int, day: int)
    requires Locked(p, today)
    ensures Locked(After(p, today, NextMorning(day)), day)
  {
    if p.suspensions != [] { SyncLocks(p, day); }
  }

  /** Rehiring keeps the lock exactly when no suspension covers the day. */
  lemma RehireKeepsLockExactly(p: Person, today: int)
    requires Locked(p, today) && RehireReply(p) == Done
    ensures Locked(After(p, today, Rehire), today) <==> Current(p.suspensions, today).None?
  {
  }

  /** Somebody signed out under a suspension that covers a day and rehired on it can sign in. */
  lemma RehiredUnderSuspension()
    ensures var p := Person([Suspension(1, None, true, Undecided, None)], Resigned, false);
      var q := After(p, 5, Rehire);
      Locked(p, 5) && q.status == Active && q.login && Current(q.suspensions, 5) == Some(0)
  {
    var s := Suspension(1, None, true, Undecided, None);
    assert [s][0] == s && Covers(s, 5);
  }

  /** Amending a record keeps the three in step exactly when the record in force, if there is
      one, stays the same. */
  lemma AmendKeepsLockExactly(p: Person, today: int, i: nat, startsOn: int, endsOn: Option<int>)
    requires Locked(p, today) && i < |p.suspensions|
    ensures Locked(After(p, today, Amend(i, startsOn, endsOn)), today) <==>
      Harmless(p, today, Amend(i, startsOn, endsOn))
  {
    hide Covers;
    var q := Amended(p, i, startsOn, endsOn);
    assert forall j | 0 <= j < |q.suspensions| :: q.suspensions[j].isActive == p.suspensions[j].isActive;
  }

  /** A suspension amended to cover today leaves the login open exactly when it was open. */
  lemma AmendLeavesLoginOpenExactly(p: Person, today: int, i: nat, startsOn: int, endsOn: Option<int>)
    requires Locked(p, today) && i < |p.suspensions|
    ensures var q := After(p, today, Amend(i, startsOn, endsOn));
      q.login && Current(q.suspensions, today).Some? <==> p.login && Covers(q.suspensions[i], today)
  {
    var q := Amended(p, i, startsOn, endsOn);
    forall j | 0 <= j < |p.suspensions| && j != i ensures q.suspensions[j] == p.suspensions[j] { }
  }

  /** A suspension of day 10, amended on day 5 to begin there: in force, and the login open. */
  lemma AmendedIntoForce()
    ensures var p := Person([Suspension(10, None, false, Undecided, None)], Active, true);
      var q := After(p, 5, Amend(0, 5, None));
      Locked(p, 5) && Current(q.suspensions, 5) == Some(0) && q.login && q.status == Active
  {
    var s, t := Suspension(10, None, false, Undecided, None), Suspension(5, None, false, Undecided, None);
    assert [s][0] == s && !Covers(s, 5);
    assert [s][0 := t] == [t] && [t][0] == t && Covers(t, 5);
  }

  /** Where a record stands after the `i`-th is gone. */
  function Shifted(j: nat, i: nat): (k: nat)
    requires j != i
    ensures j < i ==> k == j
    ensures j > i ==> k == j - 1
  {
    if j < i then j else j - 1
  }

  lemma DeletedRows(ss: seq<Suspension>, i: nat)
    requires i < |ss|
    ensures var ts := ss[..i] + ss[i + 1..]; forall k: nat | k < |ts| :: ts[k] == ss[if k < i then k else k + 1]
  {
  }

  lemma OthersCover(p: Person, today: int, i: nat)
    requires i < |p.suspensions|
    ensures Current(Deleted(p, i).suspensions, today) == None <==> OnlyOneCovering(p.suspensions, i, today)
  {
    hide Covers, Current;
    var ss, ts := p.suspensions, Deleted(p, i).suspensions;
    DeletedRows(ss, i);
    if Current(ts, today) == None {
      forall j: nat | j < |ss| && j != i ensures !Covers(ss[j], today) { assert ts[Shifted(j, i)] == ss[j]; }
    }
  }

  /** Deleting another record leaves the one in force in force. */
  lemma DeletedCurrent(p: Person, today: int, i: nat, c: nat)
    requires i < |p.suspensions| && Current(p.suspensions, today) == Some(c) && c != i
    ensures Current(Deleted(p, i).suspensions, today) == Some(Shifted(c, i))
  {
    hide Covers, Current;
    var ss, ts := p.suspensions, Deleted(p, i).suspensions;
    DeletedRows(ss, i);
    var n := Shifted(c, i);
    assert ts[n] == ss[c];
    assert Covers(ts[n], today);
    var d := Current(ts, today).value;
    var j := if d < i then d else d + 1;
    assert ss[j] == ts[d];
    assert Covers(ss[j], today);
  }

  lemma DeleteInForce(p: Person, today: int, i: nat)
    requires Locked(p, today) && Current(p.suspensions, today) == Some(i)
    ensures Locked(Deleted(p, i), today) <==> OnlyOneCovering(p.suspensions, i, today) && p.status != Suspended
  {
    hide Covers, Current, OnlyOneCovering;
    OthersCover(p, today, i);
    DeletedRows(p.suspensions, i);
  }

  lemma DeleteOther(p: Person, today: int, i: nat)
    requires Locked(p, today) && i < |p.suspensions| && Current(p.suspensions, today) != Some(i)
    ensures Locked(Deleted(p, i), today)
  {
    hide Covers, Current;
    DeletedRows(p.suspensions, i);
    var c := Current(p.suspensions, today);
    if c.Some? { DeletedCurrent(p, today, i, c.value); }
  }

  /** Deleting a record keeps the three in step exactly when it is not the one in force, or
      nothing else covers today and the status is not suspended. */
  lemma DeleteKeepsLockExactly(p: Person, today: int, i: nat)
    requires Locked(p, today) && i < |p.suspensions|
    ensures Locked(After(p, today, Delete(i)), today) <==> Harmless(p, today, Delete(i))
  {
    hide Locked, Current, Covers, OnlyOneCovering;
    if Current(p.suspensions, today) == Some(i) { DeleteInForce(p, today, i); } else { DeleteOther(p, today, i); }
  }

  /** From any state at all, the nightly sweep brings the three in step exactly where there is
      a record to sweep, or the status is not suspended. */
  lemma MorningMendsExactly(p: Person, today: int, day: int)
    ensures Locked(After(p, today, NextMorning(day)), day) <==> p.suspensions != [] || p.status != Suspended
  {
    if p.suspensions != [] { SyncLocks(p, day); }
  }

  /** Steps that neither file a suspension nor end the employment. */
  predicate Quiet(steps: seq<Step>) {
    forall i | 0 <= i < |steps| :: !steps[i].Suspend? && !steps[i].Leave?
  }

  /** Somebody left suspended without a record stays locked out: no sweep comes for them, a
      rehire is refused, and only filing another suspension or an exit changes anything. */
  lemma {:induction false} StuckWithoutRecord(p: Person, today: int, steps: seq<Step>)
    requires p == Person([], Suspended, false) && Quiet(steps)
    ensures Run(p, today, steps) == p
    decreases |steps|
  {
    if steps != [] { StuckWithoutRecord(p, Clock(today, steps[0]), steps[1..]); }
  }

  /** Deleting the only suspension while it runs does that. */
  lemma DeletedWhileRunning()
    ensures var p := Person([Suspension(1, None, true, Undecided, None)], Suspended, false);
      Locked(p, 5) && After(p, 5, Delete(0)) == Person([], Suspended, false)
  {
    var s := Suspension(1, None, true, Undecided, None);
    assert [s][0] == s && Covers(s, 5);
  }

  /** One step from a state in step: whether it keeps it so. */
  lemma StepKeepsLockExactly(p: Person, today: int, step: Step)
    requires Locked(p, today)
    requires step.NextMorning? ==> today <= step.day
    ensures Locked(After(p, today, step), Clock(today, step)) <==> Harmless(p, today, step)
  {
    match step
    case Suspend(startsOn, endsOn) =>
      SyncLocks(Filed(p, startsOn, endsOn), today);
    case Lift(i, outcome, onDate) =>
      if i < |p.suspensions| && outcome != Undecided { SyncLocks(Lifted(p, today, i, outcome, onDate), today); }
    case Amend(i, startsOn, endsOn) =>
      if i < |p.suspensions| { AmendKeepsLockExactly(p, today, i, startsOn, endsOn); }
    case Delete(i) => if i < |p.suspensions| { DeleteKeepsLockExactly(p, today, i); }
    case Leave(resigned) => ExitKeepsLock(p, today, resigned);
    case Rehire => if RehireReply(p) == Done { RehireKeepsLockExactly(p, today); }
    case NextMorning(day) => MorningLocks(p, today, day);
  }

  /** In every orderly run: if a suspension covers today the login is closed and exactly the
      record in force is flagged; if none does, nobody is left suspended and every active
      employee with a record can sign in. */
  lemma {:induction false} EveryRunIsLocked(p: Person, today: int, steps: seq<Step>)
    requires Locked(p, today) && Orderly(p, today, steps)
    ensures Locked(Run(p, today, steps), RunClock(today, steps))
    decreases |steps|
  {
    if steps != [] {
      StepKeepsLockExactly(p, today, steps[0]);
      EveryRunIsLocked(After(p, today, steps[0]), Clock(today, steps[0]), steps[1..]);
    }
  }

  ghost predicate Forward(today: int, steps: seq<Step>)
    decreases |steps|
  {
    steps == [] || ((steps[0].NextMorning? ==> today <= steps[0].day) && Forward(Clock(today, steps[0]), steps[1..]))
  }

  ghost predicate LockedThroughout(p: Person, today: int, steps: seq<Step>)
    decreases |steps|
  {
    Locked(p, today)
    && (steps == [] || LockedThroughout(After(p, today, steps[0]), Clock(today, steps[0]), steps[1..]))
  }

  /** Where days only move forward, the three facts are in step at every moment of a run if
      and only if every rehire, amendment and deletion in it is harmless. */
  lemma {:induction false} LockHoldsExactly(p: Person, today: int, steps: seq<Step>)
    requires Locked(p, today) && Forward(today, steps)
    ensures LockedThroughout(p, today, steps) <==> Orderly(p, today, steps)
    decreases |steps|
  {
    if steps != [] {
      var q, t := After(p, today, steps[0]), Clock(today, steps[0]);
      StepKeepsLockExactly(p, today, steps[0]);
      if Harmless(p, today, steps[0]) { LockHoldsExactly(q, t, steps[1..]); }
    }
  }

  // ---------- who gets a closed login back ----------

  /** A sync opens a closed login exactly when no suspension covers the day and the person
      counts as active, whoever closed it: nothing records who did. */
  lemma SyncReopensExactly(p: Person, today: int)
    requires !p.login
    ensures Synced(p, today).login <==>
      Current(p.suspensions, today).None? && (p.status == Active || p.status == Suspended)
  {
  }

  /** So the nightly sweep opens the closed login of anybody active with a record behind
      them, however long ago it ended. */
  lemma SweepMayReopen(p: Person, today: int, day: int)
    requires !p.login
    ensures After(p, today, NextMorning(day)).login <==>
      && p.suspensions != [] && Current(p.suspensions, day).None?
      && (p.status == Active || p.status == Suspended)
    ensures After(Person([Suspension(1, Some(2), false, Reinstated, Some(2))], Active, false), 3, NextMorning(3)).login
  {
    var s := Suspension(1, Some(2), false, Reinstated, Some(2));
    assert [s][0] == s && !Covers(s, 3);
  }

  /** Filing a suspension opens a login that something else had closed, exactly when nothing
      on record, the new one included, covers today and the person counts as active. */
  lemma SuspendMayReopen(p: Person, today: int, startsOn: int, endsOn: Option<int>)
    requires !p.login && SuspendReply(p, startsOn, endsOn) == Done
    ensures After(p, today, Suspend(startsOn, endsOn)).login <==>
      && Current(p.suspensions, today).None? && !(startsOn <= today && (endsOn.None? || today <= endsOn.value))
      && (p.status == Active || p.status == Suspended)
  {
    var ss, x := p.suspensions, Suspension(startsOn, endsOn, false, Undecided, None);
    assert (ss + [x])[..|ss|] == ss;
    SyncReopensExactly(Filed(p, startsOn, endsOn), today);
  }

  /** The record's dates, whether it was lifted or not. */
  predicate Spans(s: Suspension, date: int) {
    s.startsOn <= date && (s.endsOn.None? || date <= s.endsOn.value)
  }

  lemma LiftedCovers(s: Suspension, outcome: Outcome, onDate: int, date: int)
    ensures Covers(LiftedRow(s, outcome, onDate), date) <==> date < onDate && Spans(s, date)
  {
  }

  lemma NoneCovers(p: Person, today: int, i: nat, outcome: Outcome, onDate: Option<int>)
    requires i < |p.suspensions|
    ensures Current(Lifted(p, today, i, outcome, onDate).suspensions, today).None? <==>
      && (LiftDay(onDate, today) <= today || !Spans(p.suspensions[i], today))
      && forall j | 0 <= j < |p.suspensions| && j != i :: !Covers(p.suspensions[j], today)
  {
    var ss, ts := p.suspensions, Lifted(p, today, i, outcome, onDate).suspensions;
    LiftedCovers(ss[i], outcome, LiftDay(onDate, today), today);
    if Current(ts, today).None? {
      assert !Covers(ts[i], today);
      forall j | 0 <= j < |ss| && j != i ensures !Covers(ss[j], today) { assert !Covers(ts[j], today); }
    }
  }

  /** Lifting any record opens a closed login exactly when it is not a dismissal, the person
      counts as active, the lift has taken effect, and no other record covers today: where
      two overlap, lifting one leaves the account locked.  A person on leave stays locked
      out in every case. */
  lemma LiftReopensExactly(p: Person, today: int, i: nat, outcome: Outcome, onDate: Option<int>)
    requires !p.login && i < |p.suspensions| && outcome != Undecided
    ensures After(p, today, Lift(i, outcome, onDate)).login <==>
      && outcome != Dismissed && (p.status == Active || p.status == Suspended)
      && (LiftDay(onDate, today) <= today || !Spans(p.suspensions[i], today))
      && forall j | 0 <= j < |p.suspensions| && j != i :: !Covers(p.suspensions[j], today)
    ensures p.status == OnLeave && outcome != Dismissed ==>
      var q := After(p, today, Lift(i, outcome, onDate)); q.status == OnLeave && !q.login
  {
    NoneCovers(p, today, i, outcome, onDate);
    SyncReopensExactly(Lifted(p, today, i, outcome, onDate), today);
  }

  /** Somebody on leave whose only suspension is lifted: told that access is restored, and
      locked out. */
  lemma LiftedOnLeave()
    ensures var p := Person([Suspension(1, None, true, Undecided, None)], OnLeave, false);
      var q := After(p, 5, Lift(0, Reinstated, None));
      Locked(p, 5) && Current(q.suspensions, 5) == None && q.status == OnLeave && !q.login
  {
    var s := Suspension(1, None, true, Undecided, None);
    var p := Person([s], OnLeave, false);
    assert p.suspensions[0] == s && Covers(s, 5);
    LiftReopensExactly(p, 5, 0, Reinstated, None);
    NoneCovers(p, 5, 0, Reinstated, None);
    FlagsDoNotDecide(Lifted(p, 5, 0, Reinstated, None).suspensions, None, 5);
  }

  predicate NoRehire(steps: seq<Step>) {
    forall i | 0 <= i < |steps| :: !steps[i].Rehire?
  }

  /** Suspending, lifting, leaving and sweeping never open the closed login of a leaver or of
      somebody on leave. */
  lemma {:induction false} InactiveStaysOut(p: Person, today: int, steps: seq<Step>)
    requires !p.login && p.status != Active && p.status != Suspended && NoRehire(steps)
    ensures var q := Run(p, today, steps); !q.login && q.status != Active && q.status != Suspended
    ensures HasLeft(p) ==> HasLeft(Run(p, today, steps))
    decreases |steps|
  {
    if steps != [] {
      InactiveStaysOut(After(p, today, steps[0]), Clock(today, steps[0]), steps[1..]);
    }
  }

  /** Lifting every record from the k-th on opens an active person's login. */
  lemma {:induction false} LiftFrom(p: Person, today: int, k: nat) returns (steps: seq<Step>)
    requires p.status == Active || p.status == Suspended
    requires k <= |p.suspensions| && forall i | 0 <= i < k :: !Covers(p.suspensions[i], today)
    ensures NoRehire(steps) && Orderly(p, today, steps)
    ensures if k == |p.suspensions| then steps == [] else Run(p, today, steps).login
    decreases |p.suspensions| - k
  {
    steps := [];
    if k < |p.suspensions| {
      var step := Lift(k, Reinstated, None);
      var q := After(p, today, step);
      NoneCovers(p, today, k, Reinstated, None);
      forall i | 0 <= i < k + 1 ensures !Covers(q.suspensions[i], today) {
        LiftedCovers(p.suspensions[k], Reinstated, today, today);
      }
      var rest := LiftFrom(q, today, k + 1);
      steps := [step] + rest;
      assert steps[0] == step && steps[1..] == rest;
      if k + 1 == |p.suspensions| {
        assert Current(Lifted(p, today, k, Reinstated, None).suspensions, today).None?;
        assert rest == [] && q.login;
      }
    }
  }

  /** Over whole runs: a login that something else has closed stays closed, however the
      records are filed, lifted and swept, if and only if the person neither counts as
      active nor as suspended when it is closed. */
  lemma StaysClosedExactly(p: Person, today: int)
    requires !p.login
    ensures (forall steps :: NoRehire(steps) && Orderly(p, today, steps) ==> !Run(p, today, steps).login) <==>
      p.status != Active && p.status != Suspended
  {
    if p.status == Active || p.status == Suspended {
      if p.suspensions == [] {
        var step := Suspend(today + 1, None);
        SuspendMayReopen(p, today, today + 1, None);
        var steps := [step];
        assert steps[0] == step && steps[1..] == [] && NoRehire(steps);
        assert Run(p, today, steps) == After(p, today, step);
        assert Orderly(p, today, steps) && Run(p, today, steps).login;
      } else {
        var steps := LiftFrom(p, today, 0);
        assert Run(p, today, steps).login;
      }
    } else {
      forall steps | NoRehire(steps) ensures !Run(p, today, steps).login { InactiveStaysOut(p, today, steps); }
    }
  }

  // ---------- a dismissal ----------

  ghost predicate LeaverIsOut(p: Person) {
    HasLeft(p) ==> !p.login
  }

  /** A dismissal recorded on a suspension not in force, for somebody who can sign in: from a
      state in step, an open login means that no suspension covers today. */
  predicate DismissesOpen(p: Person, today: int, step: Step) {
    && step.Lift? && step.i < |p.suspensions| && step.outcome == Dismissed && p.login
    && (LiftDay(step.onDate, today) <= today || !Spans(p.suspensions[step.i], today))
  }

  /** From a state in step, a step leaves a leaver who can still sign in if and only if it is
      such a lift: it makes a leaver and closes nothing. */
  lemma LeaverIsOutExactly(p: Person, today: int, step: Step)
    requires Locked(p, today) && LeaverIsOut(p)
    ensures LeaverIsOut(After(p, today, step)) <==> !DismissesOpen(p, today, step)
  {
    if step.Lift? && step.i < |p.suspensions| && step.outcome != Undecided {
      NoneCovers(p, today, step.i, step.outcome, step.onDate);
    }
  }

  /** A suspension filed for later and lifted with a dismissal before it begins. */
  lemma DismissedWithOpenLogin()
    ensures var p := Person([Suspension(10, Some(20), false, Undecided, None)], Active, true);
      var q := After(p, 5, Lift(0, Dismissed, None));
      Locked(p, 5) && Locked(q, 5) && q.status == Terminated && q.login
  {
    var s := Suspension(10, Some(20), false, Undecided, None);
    var p := Person([s], Active, true);
    assert p.suspensions[0] == s && !Covers(s, 5);
    LeaverIsOutExactly(p, 5, Lift(0, Dismissed, None));
    SyncLocks(Lifted(p, 5, 0, Dismissed, None), 5);
  }

  // ---------- what one record says of the days ----------

  /** A lifted suspension is over from the day it is lifted, that day included, and on earlier
      days says what its dates say, even where an earlier lift had ended it before; the other
      records cover the days they did. */
  lemma LiftEndsOne(p: Person, today: int, i: nat, outcome: Outcome, onDate: Option<int>, j: nat, date: int)
    requires i < |p.suspensions| && outcome != Undecided && j < |p.suspensions|
    ensures var q := After(p, today, Lift(i, outcome, onDate));
      && |q.suspensions| == |p.suspensions|
      && Covers(q.suspensions[j], date) ==
        if j == i then date < LiftDay(onDate, today) && Spans(p.suspensions[i], date)
        else Covers(p.suspensions[j], date)
  {
    LiftedCovers(p.suspensions[i], outcome, LiftDay(onDate, today), date);
  }

  ghost predicate Meet(a: Suspension, b: Suspension) {
    exists day :: Covers(a, day) && Covers(b, day)
  }

  /** The new record begins before one already on file, and runs on into it. */
  predicate RunsInto(startsOn: int, endsOn: Option<int>, s: Suspension) {
    && startsOn < s.startsOn && (endsOn.None? || s.startsOn <= endsOn.value)
    && Covers(s, s.startsOn)
  }

  /** Only the first day of a new suspension is tested, so the one it is filed beside shares
      a day with it exactly when the new one runs into it. */
  lemma RecordsMayOverlap(p: Person, today: int, i: nat, startsOn: int, endsOn: Option<int>)
    requires SuspendReply(p, startsOn, endsOn) == Done && i < |p.suspensions|
    ensures var q := After(p, today, Suspend(startsOn, endsOn));
      && |q.suspensions| == |p.suspensions| + 1
      && (Meet(q.suspensions[i], q.suspensions[|p.suspensions|]) <==> RunsInto(startsOn, endsOn, p.suspensions[i]))
  {
    var q := After(p, today, Suspend(startsOn, endsOn));
    var earlier, filed := q.suspensions[i], q.suspensions[|p.suspensions|];
    assert !Covers(p.suspensions[i], startsOn);
    if RunsInto(startsOn, endsOn, p.suspensions[i]) {
      assert Covers(earlier, earlier.startsOn) && Covers(filed, earlier.startsOn);
    }
  }

  /** A suspension without an end, filed from day 5 beside one of days 10 to 20. */
  lemma RecordsOverlap()
    ensures var p := Person([Suspension(10, Some(20), false, Undecided, None)], Active, true);
      var q := After(p, 1, Suspend(5, None));
      && Locked(p, 1) && SuspendReply(p, 5, None) == Done
      && |q.suspensions| == 2 && Meet(q.suspensions[0], q.suspensions[1])
  {
    var s := Suspension(10, Some(20), false, Undecided, None);
    var p := Person([s], Active, true);
    assert p.suspensions[0] == s && !Covers(s, 1) && !Covers(s, 5);
    RecordsMayOverlap(p, 1, 0, 5, None);
  }

  /** No day is covered twice. */
  ghost predicate Apart(ss: seq<Suspension>) {
    forall i, j | 0 <= i < j < |ss| :: !Meet(ss[i], ss[j])
  }

  lemma MeetIgnoresFlags(a: Suspension, b: Suspension, flag: bool, flag2: bool)
    ensures Meet(a.(isActive := flag), b.(isActive := flag2)) <==> Meet(a, b)
  {
    if day :| Covers(a, day) && Covers(b, day) {
      assert Covers(a.(isActive := flag), day) && Covers(b.(isActive := flag2), day);
    }
    if day :| Covers(a.(isActive := flag), day) && Covers(b.(isActive := flag2), day) {
      assert Covers(a, day) && Covers(b, day);
    }
  }

  /** So filing keeps a person's suspensions apart, as documented, if and only if the new one
      runs into none already on file. */
  lemma SuspendKeepsApartExactly(p: Person, today: int, startsOn: int, endsOn: Option<int>)
    requires SuspendReply(p, startsOn, endsOn) == Done && Apart(p.suspensions)
    ensures Apart(After(p, today, Suspend(startsOn, endsOn)).suspensions) <==>
      forall i | 0 <= i < |p.suspensions| :: !RunsInto(startsOn, endsOn, p.suspensions[i])
  {
    var n, q := |p.suspensions|, After(p, today, Suspend(startsOn, endsOn));
    forall i | 0 <= i < n
      ensures Meet(q.suspensions[i], q.suspensions[n]) <==> RunsInto(startsOn, endsOn, p.suspensions[i])
    {
      RecordsMayOverlap(p, today, i, startsOn, endsOn);
    }
    forall i, j | 0 <= i < j < n ensures !Meet(q.suspensions[i], q.suspensions[j]) {
      MeetIgnoresFlags(p.suspensions[i], p.suspensions[j], q.suspensions[i].isActive, q.suspensions[j].isActive);
    }
  }

  // ---------- what each step is answered, and what it writes ----------

  /** A record is in force from its first day to its last, both included, and without end where
      it has none; a lift takes effect on its own day. */
  lemma CoversExactly(s: Suspension, date: int)
    ensures Covers(s, date) <==>
      && s.startsOn <= date
      && !(s.endsOn.Some? && s.endsOn.value < date) && !(s.liftedOn.Some? && s.liftedOn.value <= date)
  {
  }

  /** An exit that takes effect: a resignation makes a person resigned, a termination
      terminated; either way the login closes and the suspensions stay. */
  lemma ExitExactly(p: Person, today: int)
    ensures After(p, today, Leave(true)) == Person(p.suspensions, Resigned, false)
    ensures After(p, today, Leave(false)) == Person(p.suspensions, Terminated, false)
  {
  }

  /** A rehire: refused to the active and the suspended, and for anybody else the status is
      active, the login open and the suspensions stay. */
  lemma RehireExactly(p: Person, today: int)
    ensures After(p, today, Rehire) ==
      if p.status == OnLeave || p.status == Resigned || p.status == Terminated
      then Person(p.suspensions, Active, true) else p
    ensures RehireReply(p) == match p.status case Active => Refused(NotGone) case Suspended => Refused(StillSuspended)
                                             case _ => Done
  {
  }

  /** Filing is refused for an end before the start, then where a record on file covers the
      first day, then for a leaver, and for no other reason. */
  lemma SuspendAnsweredExactly(p: Person, startsOn: int, endsOn: Option<int>)
    ensures SuspendReply(p, startsOn, endsOn) ==
      if endsOn.Some? && endsOn.value < startsOn then Refused(EndsBeforeStart)
      else if exists s | s in p.suspensions :: Covers(s, startsOn) then Refused(AlreadySuspended)
      else if p.status == Resigned || p.status == Terminated then Refused(AlreadyLeft) else Done
  {
    hide Covers;
    var c := Current(p.suspensions, startsOn);
    if c.Some? { assert p.suspensions[c.value] in p.suspensions; }
    if s :| s in p.suspensions && Covers(s, startsOn) {
      var i :| 0 <= i < |p.suspensions| && p.suspensions[i] == s;
    }
  }

  /** The record filed is the dates asked for, undecided, after all the others. */
  lemma SuspendFilesExactly(p: Person, today: int, startsOn: int, endsOn: Option<int>)
    requires SuspendReply(p, startsOn, endsOn) == Done
    ensures var q, n := After(p, today, Suspend(startsOn, endsOn)), |p.suspensions|;
      && |q.suspensions| == n + 1
      && q.suspensions[n] == Suspension(startsOn, endsOn, q.suspensions[n].isActive, Undecided, None)
      && forall i | 0 <= i < n :: q.suspensions[i] == p.suspensions[i].(isActive := q.suspensions[i].isActive)
  {
  }

  /** What a lift writes on its record: the outcome, its day, and an end no later than that
      day; the start stays and no other record changes but for its flag.  A dismissal makes a
      leaver before the rest is brought into step. */
  lemma LiftWritesExactly(p: Person, today: int, i: nat, outcome: Outcome, onDate: Option<int>)
    requires i < |p.suspensions| && outcome != Undecided
    ensures var q, s := After(p, today, Lift(i, outcome, onDate)), p.suspensions[i];
      var day := match onDate case Some(d) => d case None => today;
      && |q.suspensions| == |p.suspensions|
      && q.suspensions[i].outcome == outcome && q.suspensions[i].liftedOn == Some(day)
      && q.suspensions[i].startsOn == s.startsOn
      && q.suspensions[i].endsOn.Some? && q.suspensions[i].endsOn.value <= day
      && (s.endsOn.Some? && s.endsOn.value <= day ==> q.suspensions[i].endsOn == s.endsOn)
      && (s.endsOn.None? || s.endsOn.value > day ==> q.suspensions[i].endsOn == Some(day))
      && (forall j | 0 <= j < |p.suspensions| && j != i ::
        q.suspensions[j] == p.suspensions[j].(isActive := q.suspensions[j].isActive))
      && (outcome == Dismissed ==> q.status == Terminated)
  {
  }

  /** An amendment writes the two dates asked for on one record, and a deletion takes one record
      out; the lift and the outcome stay, and so do the other records, the status and the
      login. */
  lemma AmendAndDeleteExactly(p: Person, today: int, i: nat, startsOn: int, endsOn: Option<int>)
    requires i < |p.suspensions|
    ensures var s := p.suspensions[i];
      After(p, today, Amend(i, startsOn, endsOn)) == Person(
        p.suspensions[i := Suspension(startsOn, endsOn, s.isActive, s.outcome, s.liftedOn)], p.status, p.login)
    ensures var q := After(p, today, Delete(i));
      && q.status == p.status && q.login == p.login
      && p.suspensions == q.suspensions[..i] + [p.suspensions[i]] + q.suspensions[i..]
  {
  }

  /** The status follows the records between active and suspended, and moves for nobody else. */
  lemma SyncMovesStatusExactly(p: Person, today: int)
    ensures var covered := exists s | s in p.suspensions :: Covers(s, today);
      Synced(p, today).status ==
        if p.status == Active && covered then Suspended
        else if p.status == Suspended && !covered then Active else p.status
  {
    hide Covers;
    var c := Current(p.suspensions, today);
    if c.Some? { assert p.suspensions[c.value] in p.suspensions; }
    if s :| s in p.suspensions && Covers(s, today) {
      var i :| 0 <= i < |p.suspensions| && p.suspensions[i] == s;
    }
  }

  /** Where two lists of the same length differ. */
  ghost function Changed<T>(before: seq<T>, after: seq<T>): set<int>
    requires |before| == |after|
  {
    set i | 0 <= i < |before| && before[i] != after[i]
  }

  /** The sweep returns how many people it changed. */
  lemma {:induction false} DifferencesIs(before: seq<Person>, after: seq<Person>)
    requires |before| == |after|
    ensures Differences(before, after) == |Changed(before, after)|
  {
    hide Changed;
    if before == [] {
      NothingChanged(before, after);
    } else {
      DifferencesIs(before[..|before| - 1], after[..|before| - 1]);
      ChangedGrows(before, after);
    }
  }

  lemma NothingChanged<T>(before: seq<T>, after: seq<T>)
    requires |before| == |after| == 0
    ensures Changed(before, after) == {}
  {
  }

  lemma ChangedGrows<T>(before: seq<T>, after: seq<T>)
    requires |before| == |after| > 0
    ensures var n := |before| - 1;
      |Changed(before, after)| == |Changed(before[..n], after[..n])| + if before[n] != after[n] then 1 else 0
  {
    var n := |before| - 1;
    var all, front := Changed(before, after), Changed(before[..n], after[..n]);
    assert n !in front;
    if before[n] != after[n] { assert all == front + {n}; } else { assert all == front; }
  }
}
