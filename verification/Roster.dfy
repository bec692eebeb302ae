/** Dated shift assignments: the overlap test that admits them, and the rule that picks the
    shift of a day (backend/attendance/serializers.py, services.py, punches.py). */
module Roster {
  import opened Options

  const SECOND := 1_000_000         // instants are counted in microseconds
  const MINUTE := 60 * SECOND
  const DAY := 86_400 * SECOND

  /** Times of day are microseconds since midnight. */
  datatype Shift = Shift(start: int, end: int, graceMinutes: int, breakMinutes: Option<int>, isNight: bool)

  /** `end` missing means still in effect.  Nothing in the source orders start and end. */
  datatype Assignment = Assignment(employee: int, shift: Shift, start: int, end: Option<int>)

  datatype Office = Office(start: Option<int>, end: Option<int>, graceMinutes: int, breakMinutes: int)

  predicate Covers(a: Assignment, employee: int, date: int) {
    a.employee == employee && a.start <= date && (a.end.None? || date <= a.end.value)
  }

  /** The serializer's test between two date ranges. */
  predicate RangesMeet(a: Assignment, b: Assignment) {
    (b.end.None? || a.start <= b.end.value) && (a.end.None? || b.start <= a.end.value)
  }

  ghost predicate Proper(a: Assignment) {
    a.end.Some? ==> a.start <= a.end.value
  }

  /** The test never misses a shared day, and on ranges that do not end before they start
      it reports only shared days. */
  lemma RangesMeetIsSharedDay(a: Assignment, b: Assignment)
    requires a.employee == b.employee
    ensures (exists d :: Covers(a, a.employee, d) && Covers(b, a.employee, d)) ==> RangesMeet(a, b)
    ensures Proper(a) && Proper(b) && RangesMeet(a, b) ==>
      exists d :: Covers(a, a.employee, d) && Covers(b, a.employee, d)
  {
    if Proper(a) && Proper(b) && RangesMeet(a, b) {
      var d := if a.start < b.start then b.start else a.start;
      assert Covers(a, a.employee, d) && Covers(b, a.employee, d);
    }
  }

  /** No day of any employee is covered twice. */
  ghost predicate SingleCover(roster: seq<Assignment>) {
    forall i, j, e, d | 0 <= i < j < |roster| :: !(Covers(roster[i], e, d) && Covers(roster[j], e, d))
  }

  predicate Admissible(roster: seq<Assignment>, pk: Option<nat>, a: Assignment) {
    forall i | 0 <= i < |roster| && pk != Some(i) :: roster[i].employee == a.employee ==> !RangesMeet(a, roster[i])
  }

  datatype Save = Create(a: Assignment) | Update(pk: nat, a: Assignment)

  /** The table after one save: unchanged where validation raises or the row is missing. */
  function Saved(roster: seq<Assignment>, save: Save): seq<Assignment> {
    match save
    case Create(a) => if Admissible(roster, None, a) then roster + [a] else roster
    case Update(pk, a) => if pk < |roster| && Admissible(roster, Some(pk), a) then roster[pk := a] else roster
  }

  function SavedAll(roster: seq<Assignment>, saves: seq<Save>): seq<Assignment>
    decreases |saves|
  {
    if saves == [] then roster else SavedAll(Saved(roster, saves[0]), saves[1..])
  }

  class AssignmentTable {
    var rows: seq<Assignment>

    constructor ()
      ensures rows == []
    {
      rows := [];
    }

    /** `validate`: compare with every other row of the same employee. */
    method Validate(pk: Option<nat>, a: Assignment) returns (ok: bool)
      ensures ok <==> Admissible(rows, pk, a)
    {
      for i := 0 to |rows|
        invariant forall k | 0 <= k < i && pk != Some(k) :: rows[k].employee == a.employee ==> !RangesMeet(a, rows[k])
      {
        if pk != Some(i) && rows[i].employee == a.employee && RangesMeet(a, rows[i]) {
          return false;
        }
      }
      return true;
    }

    method Store(save: Save) returns (ok: bool)
      modifies this
      ensures rows == Saved(old(rows), save)
      ensures ok <==> match save
                      case Create(a) => Admissible(old(rows), None, a)
                      case Update(pk, a) => pk < |old(rows)| && Admissible(old(rows), Some(pk), a)
    {
      match save
      case Create(a) =>
        ok := Validate(None, a);
        if ok { rows := rows + [a]; }
      case Update(pk, a) =>
        if pk >= |rows| { return false; }
        ok := Validate(Some(pk), a);
        if ok { rows := rows[pk := a]; }
    }
  }

  lemma SavedKeepsSingleCover(roster: seq<Assignment>, save: Save)
    requires SingleCover(roster)
    ensures SingleCover(Saved(roster, save))
  {
  }

  /** Whatever is created and updated, each day of each employee keeps at most one
      covering assignment. */
  lemma {:induction false} RunKeepsSingleCover(roster: seq<Assignment>, saves: seq<Save>)
    requires SingleCover(roster)
    ensures SingleCover(SavedAll(roster, saves))
    decreases |saves|
  {
    if saves != [] {
      SavedKeepsSingleCover(roster, saves[0]);
      RunKeepsSingleCover(Saved(roster, saves[0]), saves[1..]);
    }
  }

  // ---------- which shift a day has ----------

  /** Filter to the covering rows, order by latest start, take the first. */
  function Pick(roster: seq<Assignment>, employee: int, date: int): (r: Option<Assignment>)
    ensures r.None? <==> forall i | 0 <= i < |roster| :: !Covers(roster[i], employee, date)
    ensures r.Some? ==> r.value in roster && Covers(r.value, employee, date)
    ensures r.Some? ==> forall i | 0 <= i < |roster| :: Covers(roster[i], employee, date) ==>
      roster[i].start <= r.value.start
  {
    if roster == [] then None
    else
      var front, last := Pick(roster[..|roster| - 1], employee, date), roster[|roster| - 1];
      assert forall i | 0 <= i < |roster| - 1 :: roster[i] == roster[..|roster| - 1][i];
      if Covers(last, employee, date) && (front.None? || front.value.start < last.start) then Some(last) else front
  }

  /** Under the invariant of the serializer the pick is the covering row, whichever order
      the rows are read in. */
  lemma PickIsTheOnlyOne(roster: seq<Assignment>, a: Assignment, employee: int, date: int)
    requires SingleCover(roster) && a in roster && Covers(a, employee, date)
    ensures Pick(roster, employee, date) == Some(a)
  {
  }

  /** PRESENT, or LATE after the applicable start plus its grace; the threshold is a time
      of day, so a grace that runs past midnight wraps. */
  function IsLate(roster: seq<Assignment>, office: Office, employee: int, date: int, instant: int): bool {
    var a := Pick(roster, employee, date);
    if a.Some? then instant % DAY > (a.value.shift.start + a.value.shift.graceMinutes * MINUTE) % DAY
    else office.start.Some? && instant % DAY > (office.start.value + office.graceMinutes * MINUTE) % DAY
  }

  /** Length of the paid day in seconds, or None where no hours are set or none are left. */
  function WorkingDaySeconds(roster: seq<Assignment>, office: Office, employee: int, date: int): Option<int> {
    var a := Pick(roster, employee, date);
    if a.Some? then
      var shift := a.value.shift;
      PaidSeconds(shift.start, shift.end, if shift.breakMinutes.Some? then shift.breakMinutes.value
        else office.breakMinutes)
    else if office.start.Some? && office.end.Some? then
      PaidSeconds(office.start.value, office.end.value, office.breakMinutes)
    else None
  }

  function PaidSeconds(start: int, end: int, breakMinutes: int): Option<int> {
    var finish := if end <= start then end + DAY else end;
    var seconds := (finish - start) / SECOND - breakMinutes * 60;
    if seconds > 0 then Some(seconds) else None
  }

  /** Lateness and the length of the day depend on the one covering assignment only. */
  lemma DayRuleFollowsTheShift(r: seq<Assignment>, s: seq<Assignment>, a: Assignment, office: Office,
                               employee: int, date: int, instant: int)
    requires SingleCover(r) && SingleCover(s) && a in r && a in s && Covers(a, employee, date)
    ensures IsLate(r, office, employee, date, instant) == IsLate(s, office, employee, date, instant)
    ensures WorkingDaySeconds(r, office, employee, date) == WorkingDaySeconds(s, office, employee, date)
  {
  }

  /** A paid day from its two ends: the clock runs on from the start to the end, for a day at
      most and never for nothing, and the unpaid break comes off; where nothing is left, or
      the ends are not known, there is no length. */
  predicate PaidFrom(paid: Option<int>, start: int, end: int, breakMinutes: int, length: int) {
    && 0 < length <= DAY && (start + length - end) % DAY == 0
    && paid == if length / SECOND > 60 * breakMinutes then Some(length / SECOND - 60 * breakMinutes) else None
  }

  /** The length of the day under the one assignment that covers it, or under the office's
      hours where none does.  A shift's own break counts, and zero is one of its own. */
  lemma PaidDayExactly(roster: seq<Assignment>, office: Office, employee: int, date: int, a: Option<Assignment>)
      returns (length: int)
    requires OneCovering(roster, employee, date, a)
    requires a.Some? ==> TimeOfDay(a.value.shift.start) && TimeOfDay(a.value.shift.end)
    requires office.start.Some? && office.end.Some? ==> TimeOfDay(office.start.value) && TimeOfDay(office.end.value)
    ensures var paid := WorkingDaySeconds(roster, office, employee, date);
      if a.Some? then
        PaidFrom(paid, a.value.shift.start, a.value.shift.end,
          match a.value.shift.breakMinutes case Some(own) => own case None => office.breakMinutes, length)
      else if office.start.Some? && office.end.Some? then
        PaidFrom(paid, office.start.value, office.end.value, office.breakMinutes, length)
      else paid == None
  {
    OneCoveringIsPicked(roster, employee, date, a);
    var start, end := 0, 0;
    if a.Some? { start, end := a.value.shift.start, a.value.shift.end; }
    else if office.start.Some? && office.end.Some? { start, end := office.start.value, office.end.value; }
    length := if end <= start then end + DAY - start else end - start;
  }

  predicate TimeOfDay(t: int) {
    0 <= t < DAY
  }

  /** `a` is the employee's assignment for the day, or nobody's row is. */
  ghost predicate OneCovering(roster: seq<Assignment>, employee: int, date: int, a: Option<Assignment>) {
    && (a.Some? ==> a.value in roster)
    && forall x | x in roster ::
         x.employee == employee && x.start <= date && (x.end.Some? ==> date <= x.end.value) <==> a == Some(x)
  }

  lemma OneCoveringIsPicked(roster: seq<Assignment>, employee: int, date: int, a: Option<Assignment>)
    requires OneCovering(roster, employee, date, a)
    ensures Pick(roster, employee, date) == a
  {
    if a.Some? {
      var i :| 0 <= i < |roster| && roster[i] == a.value;
      assert Covers(roster[i], employee, date);
    } else {
      forall i | 0 <= i < |roster| ensures !Covers(roster[i], employee, date) { assert roster[i] in roster; }
    }
  }

  /** The two claim a day of the same person. */
  ghost predicate SharesADay(a: Assignment, b: Assignment) {
    a.employee == b.employee && exists d :: Covers(a, a.employee, d) && Covers(b, a.employee, d)
  }

  /** Where no row ends before it starts, a save goes through if and only if its row shares no
      day with any other of the table, and then it is that row that is stored, in its own
      place or at the end, and no other moves. */
  lemma SavedExactly(roster: seq<Assignment>, save: Save)
    requires Proper(save.a) && forall x | x in roster :: Proper(x)
    ensures var pk := if save.Create? then |roster| else save.pk;
      var free := forall i | 0 <= i < |roster| && i != pk :: !SharesADay(save.a, roster[i]);
      var r := Saved(roster, save);
      if !free || pk > |roster| || (save.Update? && pk == |roster|) then r == roster
      else |r| == (if save.Create? then pk + 1 else |roster|) && r[pk] == save.a
           && forall i | 0 <= i < |roster| && i != pk :: r[i] == roster[i]
  {
    forall i | 0 <= i < |roster| && roster[i].employee == save.a.employee
      ensures RangesMeet(save.a, roster[i]) <==> SharesADay(save.a, roster[i])
    {
      RangesMeetIsSharedDay(save.a, roster[i]);
    }
  }
}
