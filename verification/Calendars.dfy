/** Calendar systems and the fiscal year built on them (backend/core/calendars.py).

    A date is its proleptic Gregorian ordinal, 1 = 1 January of year 1, exactly as
    `date.toordinal` numbers days.  Both calendars are one increasing run of month
    openings, so every rule of the base class is stated and proved once. */
module Calendars {
  import opened Options

  const MAX_ORDINAL := 3_652_059 // 31 December 9999
  const GREGORIAN_MONTHS := 119_988 // of years 1 to 9999

  datatype CalendarDate = CalendarDate(year: int, month: int, day: int, gregorian: int)

  /** `starts[k]` is the opening day of the k-th month that can be written, counted from
      month 1 of `firstYear`; the last entry is the day after the last month.  With
      `leapRule`, month lengths are computed (`monthrange`) rather than differenced. */
  datatype Calendar = Calendar(firstYear: int, starts: seq<int>, lengths: seq<int>, leapRule: bool, fiscalStart: int)
  {
    /** Month openings that follow each other by lengths of 28 to 32 days. */
    ghost predicate Spans() {
      && 1 <= fiscalStart <= 12
      && |lengths| >= 12 && |lengths| % 12 == 0 && |starts| == |lengths| + 1
      && Increasing(starts) && Follows(starts, lengths)
    }

    /** The two calendars of the source: whole years of months inside the range of
        `date`, and with `leapRule` all the months of years 1 to 9999. */
    ghost predicate Valid() {
      && Spans()
      && 1 <= starts[0] && starts[|lengths|] <= MAX_ORDINAL + 1
      && (leapRule ==>
            && firstYear == 1 && starts[0] == 1 && starts[|lengths|] == MAX_ORDINAL + 1
            && ByLeapRule(lengths))
    }

    function Index(year: int, month: int): int {
      12 * (year - firstYear) + month - 1
    }

    // ---------- the interface domain code asks ----------

    function FromGregorian(date: int): Option<CalendarDate>
      requires |starts| > 1
    {
      if date < starts[0] || date >= starts[|starts| - 1] then None
      else
        var k := MonthContaining(starts, date, |starts| - 2);
        var (year, month) := YearAndMonth(firstYear, k);
        Some(CalendarDate(year, month, date - starts[k] + 1, date))
    }

    function ToGregorian(year: int, month: int, day: int): Option<int>
      requires |starts| == |lengths| + 1
    {
      var k := Index(year, month);
      if 1 <= month <= 12 && 0 <= k < |lengths| && 1 <= day <= lengths[k] then Some(starts[k] + day - 1)
      else None
    }

    function MonthLength(year: int, month: int): Option<int>
      requires |starts| == |lengths| + 1
    {
      if !(1 <= month <= 12) then None
      else if leapRule then Some(DaysInMonth(year, month))
      else
        var start := ToGregorian(year, month, 1);
        var next := if month == 12 then ToGregorian(year + 1, 1, 1) else ToGregorian(year, month + 1, 1);
        if start.Some? && next.Some? then Some(next.value - start.value) else None
    }

    function MonthStart(year: int, month: int): Option<int>
      requires |starts| == |lengths| + 1
    {
      ToGregorian(year, month, 1)
    }

    function MonthEnd(year: int, month: int): Option<int>
      requires |starts| == |lengths| + 1
    {
      var length := MonthLength(year, month);
      if length.Some? then ToGregorian(year, month, length.value) else None
    }

    function FiscalYearOf(date: int): Option<int>
      requires |starts| > 1
    {
      var c := FromGregorian(date);
      if c.None? then None
      else Some(if c.value.month >= fiscalStart then c.value.year else c.value.year - 1)
    }

    function FiscalYearBounds(startYear: int): Option<(int, int)>
      requires |starts| == |lengths| + 1
    {
      var start := MonthStart(startYear, fiscalStart);
      var next := MonthStart(startYear + 1, fiscalStart);
      if start.Some? && next.Some? then Some((start.value, next.value - 1)) else None
    }

    /** A fresh calendar, or None where the source raises. */
    function WithFiscalStart(month: Option<int>): (r: Option<Calendar>)
      ensures r.None? <==> month.Some? && !(1 <= month.value <= 12) && month.value != fiscalStart
      ensures r.Some? && Valid() ==> r.value.Valid()
      ensures r.Some? ==> r.value.fiscalStart == (if month.Some? then month.value else fiscalStart)
      ensures r.Some? ==> r.value.starts == starts && r.value.lengths == lengths
      ensures r.Some? ==> r.value.firstYear == firstYear && r.value.leapRule == leapRule
    {
      if month.None? || month.value == fiscalStart then Some(this)
      else if !(1 <= month.value <= 12) then None
      else Some(this.(fiscalStart := month.value))
    }
  }

  function NextMonth(year: int, month: int): (int, int) {
    if month == 12 then (year + 1, 1) else (year, month + 1)
  }

  /** The year and month reached by counting `k` months from the first. */
  function YearAndMonth(firstYear: int, k: nat): (r: (int, int))
    ensures 1 <= r.1 <= 12 && 12 * (r.0 - firstYear) + r.1 - 1 == k
  {
    if k == 0 then (firstYear, 1)
    else
      var (year, month) := YearAndMonth(firstYear, k - 1);
      NextMonth(year, month)
  }

  ghost predicate Increasing(starts: seq<int>) {
    forall j, k | 0 <= j < k < |starts| :: starts[j] < starts[k]
  }

  ghost predicate Follows(starts: seq<int>, lengths: seq<int>)
    requires |starts| == |lengths| + 1
  {
    forall k {:trigger lengths[k]} | 0 <= k < |lengths| ::
      starts[k + 1] == starts[k] + lengths[k] && 28 <= lengths[k] <= 32
  }

  ghost predicate ByLeapRule(lengths: seq<int>) {
    forall k {:trigger lengths[k]} | 0 <= k < |lengths| :: lengths[k] == DaysInMonth(1 + k / 12, 1 + k % 12)
  }

  lemma {:induction false} Accumulates(starts: seq<int>, lengths: seq<int>, n: nat)
    requires |starts| == |lengths| + 1 && n <= |lengths| && Follows(starts, lengths)
    ensures Increasing(starts[..n + 1])
  {
    if n > 0 {
      Accumulates(starts, lengths, n - 1);
      assert starts[n - 1] + lengths[n - 1] == starts[n];
      assert starts[..n + 1] == starts[..n] + [starts[n]];
    }
  }

  /** The latest month at or below `k` that has opened by `date`. */
  function MonthContaining(starts: seq<int>, date: int, k: nat): (m: nat)
    requires k < |starts| && starts[0] <= date
    ensures m <= k && starts[m] <= date
    ensures m < k ==> date < starts[m + 1]
  {
    if starts[k] <= date then k else MonthContaining(starts, date, k - 1)
  }

  // ---------- the Gregorian calendar: leap-year arithmetic ----------

  predicate IsLeap(year: int) {
    year % 4 == 0 && (year % 100 != 0 || year % 400 == 0)
  }

  function DaysInMonth(year: int, month: int): int
    requires 1 <= month <= 12
  {
    if month == 2 then (if IsLeap(year) then 29 else 28)
    else if month == 4 || month == 6 || month == 9 || month == 11 then 30
    else 31
  }

  function DaysBeforeYear(year: int): int {
    var y := year - 1;
    y * 365 + y / 4 - y / 100 + y / 400
  }

  function DaysBeforeMonth(year: int, month: int): int
    requires 1 <= month <= 12
  {
    [0, 31, 59, 90, 120, 151, 181, 212, 243, 273, 304, 334][month - 1]
    + (if month > 2 && IsLeap(year) then 1 else 0)
  }

  /** The ordinal of the first day of month `k` counted from January of year 1. */
  function GregorianStart(k: nat): int {
    DaysBeforeYear(1 + k / 12) + DaysBeforeMonth(1 + k / 12, 1 + k % 12) + 1
  }

  function Gregorian(fiscalStart: int): Calendar {
    Calendar(1, seq(GREGORIAN_MONTHS + 1, k requires 0 <= k => GregorianStart(k)),
             seq(GREGORIAN_MONTHS, k requires 0 <= k => DaysInMonth(1 + k / 12, 1 + k % 12)), true, fiscalStart)
  }

  lemma Quotients(y: int)
    ensures (y + 1) / 4 == y / 4 + (if (y + 1) % 4 == 0 then 1 else 0)
    ensures (y + 1) / 100 == y / 100 + (if (y + 1) % 100 == 0 then 1 else 0)
    ensures (y + 1) / 400 == y / 400 + (if (y + 1) % 400 == 0 then 1 else 0)
    ensures (y + 1) % 100 == 0 ==> (y + 1) % 4 == 0
    ensures (y + 1) % 400 == 0 ==> (y + 1) % 100 == 0
  {
  }

  lemma YearStep(year: int)
    ensures DaysBeforeYear(year + 1) == DaysBeforeYear(year) + (if IsLeap(year) then 366 else 365)
  {
    Quotients(year - 1);
  }

  lemma MonthStep(year: int, month: int)
    requires 1 <= month < 12
    ensures DaysBeforeMonth(year, month + 1) == DaysBeforeMonth(year, month) + DaysInMonth(year, month)
  {
  }

  /** `monthrange` lengths are the differences of the month-opening ordinals. */
  lemma GregorianStep(k: nat)
    ensures GregorianStart(k + 1) == GregorianStart(k) + DaysInMonth(1 + k / 12, 1 + k % 12)
  {
    var y, m := 1 + k / 12, 1 + k % 12;
    if m == 12 {
      assert (k + 1) / 12 == k / 12 + 1 && (k + 1) % 12 == 0;
      YearStep(y);
    } else {
      assert (k + 1) / 12 == k / 12 && (k + 1) % 12 == k % 12 + 1;
      MonthStep(y, m);
    }
  }

  lemma GregorianEntry(fiscalStart: int, k: nat)
    requires k < GREGORIAN_MONTHS
    ensures var cal := Gregorian(fiscalStart);
      && cal.starts[k] == GregorianStart(k) && cal.starts[k + 1] == GregorianStart(k + 1)
      && cal.lengths[k] == DaysInMonth(1 + k / 12, 1 + k % 12)
  {
  }

  lemma GregorianEnds()
    ensures GregorianStart(0) == 1 && GregorianStart(GREGORIAN_MONTHS) == MAX_ORDINAL + 1
  {
    var k: nat := GREGORIAN_MONTHS;
    assert k / 12 == 9999 && k % 12 == 0;
    assert DaysBeforeYear(10_000) == 3_652_059;
    assert DaysBeforeMonth(10_000, 1) == 0;
  }

  lemma GregorianFollows(fiscalStart: int)
    ensures var cal := Gregorian(fiscalStart); Follows(cal.starts, cal.lengths) && ByLeapRule(cal.lengths)
  {
    var cal := Gregorian(fiscalStart);
    var starts, lengths := cal.starts, cal.lengths;
    forall k {:trigger lengths[k]} | 0 <= k < |lengths|
      ensures starts[k + 1] == starts[k] + lengths[k] && 28 <= lengths[k] <= 32
      ensures lengths[k] == DaysInMonth(1 + k / 12, 1 + k % 12)
    {
      GregorianEntry(fiscalStart, k);
      GregorianStep(k);
    }
  }

  lemma LaysOut(cal: Calendar)
    requires 1 <= cal.fiscalStart <= 12
    requires |cal.lengths| >= 12 && |cal.lengths| % 12 == 0 && |cal.starts| == |cal.lengths| + 1
    requires Follows(cal.starts, cal.lengths)
    ensures cal.Spans()
  {
    Accumulates(cal.starts, cal.lengths, |cal.lengths|);
    assert cal.starts[..|cal.lengths| + 1] == cal.starts;
  }

  lemma GregorianIsValid(fiscalStart: int)
    requires 1 <= fiscalStart <= 12
    ensures Gregorian(fiscalStart).Valid()
  {
    var cal := Gregorian(fiscalStart);
    GregorianFollows(fiscalStart);
    LaysOut(cal);
    GregorianEnds();
    assert cal.starts[0] == GregorianStart(0) && cal.starts[GREGORIAN_MONTHS] == GregorianStart(GREGORIAN_MONTHS);
  }

  // ---------- Bikram Sambat: an anchor and a published table ----------

  function Openings(anchor: int, lengths: seq<int>): (s: seq<int>)
    ensures |s| == |lengths| + 1 && s[0] == anchor
    ensures forall k | 0 <= k < |lengths| :: s[k + 1] == s[k] + lengths[k]
  {
    if lengths == [] then [anchor]
    else
      var front := Openings(anchor, lengths[..|lengths| - 1]);
      front + [front[|lengths| - 1] + lengths[|lengths| - 1]]
  }

  function BikramSambat(firstYear: int, anchor: int, lengths: seq<int>, fiscalStart: int): Calendar {
    Calendar(firstYear, Openings(anchor, lengths), lengths, false, fiscalStart)
  }

  /** Any table of whole years with months of 29 to 32 days makes a calendar. */
  lemma BikramSambatIsValid(firstYear: int, anchor: int, lengths: seq<int>, fiscalStart: int)
    requires 1 <= fiscalStart <= 12 && 1 <= anchor
    requires |lengths| >= 12 && |lengths| % 12 == 0
    requires forall k | 0 <= k < |lengths| :: 29 <= lengths[k] <= 32
    requires Openings(anchor, lengths)[|lengths|] <= MAX_ORDINAL + 1
    ensures BikramSambat(firstYear, anchor, lengths, fiscalStart).Valid()
  {
    LaysOut(BikramSambat(firstYear, anchor, lengths, fiscalStart));
  }

  // ---------- months tile the timeline ----------

  lemma IndexInverse(cal: Calendar, year: int, month: int)
    requires 1 <= month <= 12 && 0 <= cal.Index(year, month)
    ensures var k := cal.Index(year, month); cal.firstYear + k / 12 == year && 1 + k % 12 == month
  {
  }

  /** `from_gregorian` undoes `to_gregorian`. */
  lemma FromUndoesTo(cal: Calendar, year: int, month: int, day: int)
    requires cal.Spans() && cal.ToGregorian(year, month, day).Some?
    ensures var date := cal.ToGregorian(year, month, day).value;
      cal.FromGregorian(date) == Some(CalendarDate(year, month, day, date))
  {
  }

  /** `to_gregorian` undoes `from_gregorian`, on exactly the days the table covers. */
  lemma ToUndoesFrom(cal: Calendar, date: int)
    requires cal.Spans()
    ensures cal.FromGregorian(date).Some? <==> cal.starts[0] <= date < cal.starts[|cal.lengths|]
    ensures cal.FromGregorian(date).Some? ==>
      var c := cal.FromGregorian(date).value;
      c.gregorian == date && cal.ToGregorian(c.year, c.month, c.day) == Some(date)
  {
  }

  predicate Earlier(a: CalendarDate, b: CalendarDate) {
    a.year < b.year || (a.year == b.year && (a.month < b.month || (a.month == b.month && a.day < b.day)))
  }

  lemma ConversionKeepsOrder(cal: Calendar, d: int, e: int)
    requires cal.Spans() && cal.FromGregorian(d).Some? && cal.FromGregorian(e).Some?
    ensures d < e <==> Earlier(cal.FromGregorian(d).value, cal.FromGregorian(e).value)
  {
    if d < e { OrderOneWay(cal, d, e); }
    if e < d { OrderOneWay(cal, e, d); }
  }

  lemma Located(cal: Calendar, date: int) returns (k: nat)
    requires cal.Spans() && cal.FromGregorian(date).Some?
    ensures k < |cal.lengths| && cal.starts[k] <= date < cal.starts[k + 1]
    ensures var c := cal.FromGregorian(date).value;
      1 <= c.month <= 12 && cal.Index(c.year, c.month) == k && c.day == date - cal.starts[k] + 1
  {
    k := MonthContaining(cal.starts, date, |cal.starts| - 2);
  }

  lemma OrderOneWay(cal: Calendar, d: int, e: int)
    requires cal.Spans() && cal.FromGregorian(d).Some? && cal.FromGregorian(e).Some? && d < e
    ensures Earlier(cal.FromGregorian(d).value, cal.FromGregorian(e).value)
  {
  }

  /** `month_length` is the table's entry (or the leap rule's), except that the last month
      of a table has no answer when lengths are differenced: its successor is not there. */
  lemma LengthIsTheTables(cal: Calendar, year: int, month: int)
    requires cal.Valid() && cal.MonthStart(year, month).Some?
    ensures var k := cal.Index(year, month);
      cal.MonthLength(year, month) ==
        if cal.leapRule || k + 1 < |cal.lengths| then Some(cal.lengths[k]) else None
  {
    var k := cal.Index(year, month);
    IndexInverse(cal, year, month);
    var n := NextMonth(year, month);
    assert cal.Index(n.0, n.1) == k + 1;
    assert cal.starts[k + 1] == cal.starts[k] + cal.lengths[k];
  }

  /** So on every table the last month opens, and has neither a length nor an end. */
  lemma LastMonthHasNoEnd(cal: Calendar)
    requires cal.Valid() && !cal.leapRule
    ensures var year := cal.firstYear + |cal.lengths| / 12 - 1;
      cal.MonthStart(year, 12).Some? && cal.MonthLength(year, 12) == None && cal.MonthEnd(year, 12) == None
  {
    var year := cal.firstYear + |cal.lengths| / 12 - 1;
    assert cal.Index(year, 12) == |cal.lengths| - 1;
    LengthIsTheTables(cal, year, 12);
  }

  /** The day after a month's end is the next month's opening day. */
  lemma MonthsTile(cal: Calendar, year: int, month: int)
    requires cal.Valid()
    requires cal.MonthStart(year, month).Some?
    requires var n := NextMonth(year, month); cal.MonthStart(n.0, n.1).Some?
    ensures var n := NextMonth(year, month);
      cal.MonthEnd(year, month) == Some(cal.MonthStart(n.0, n.1).value - 1)
  {
    LengthIsTheTables(cal, year, month);
    var k, n := cal.Index(year, month), NextMonth(year, month);
    assert cal.Index(n.0, n.1) == k + 1;
    assert cal.starts[k + 1] == cal.starts[k] + cal.lengths[k];
  }

  // ---------- fiscal years ----------

  /** A fiscal year has bounds exactly when both its own opening month and its
      successor's can be written. */
  lemma BoundsExist(cal: Calendar, year: int)
    requires cal.Spans()
    ensures var k := cal.Index(year, cal.fiscalStart);
      cal.FiscalYearBounds(year) ==
        if 0 <= k && k + 12 < |cal.lengths| then Some((cal.starts[k], cal.starts[k + 12] - 1)) else None
  {
  }

  /** The label and the bounds are one rule: a date carries the label `year` exactly when
      it lies inside the bounds of `year`. */
  lemma FiscalYearIsItsBounds(cal: Calendar, date: int, year: int)
    requires cal.Spans() && cal.FiscalYearBounds(year).Some?
    ensures cal.FiscalYearOf(date) == Some(year) <==>
      var b := cal.FiscalYearBounds(year).value; b.0 <= date <= b.1
  {
  }

  /** Consecutive fiscal years meet with no gap and no overlap. */
  lemma FiscalYearsTile(cal: Calendar, year: int)
    requires cal.Spans() && cal.FiscalYearBounds(year).Some? && cal.FiscalYearBounds(year + 1).Some?
    ensures var a, b := cal.FiscalYearBounds(year).value, cal.FiscalYearBounds(year + 1).value;
      a.0 <= a.1 && a.1 + 1 == b.0
  {
  }

  /** A date has a fiscal year with bounds exactly when it lies between the first and the
      last fiscal opening that can be written, so the years cover that whole stretch. */
  lemma FiscalYearsCover(cal: Calendar, date: int)
    requires cal.Spans()
    ensures cal.starts[cal.fiscalStart - 1] <= date < cal.starts[|cal.lengths| - 13 + cal.fiscalStart] <==>
      cal.FiscalYearOf(date).Some? && cal.FiscalYearBounds(cal.FiscalYearOf(date).value).Some?
  {
    var first, n := cal.fiscalStart - 1, |cal.lengths|;
    if cal.FiscalYearOf(date).Some? {
      var k := Located(cal, date);
      var year := cal.FiscalYearOf(date).value;
      BoundsExist(cal, year);
      Between(cal.starts, date, k, first, n - 12 + first);
      WholeYears(n, year - cal.firstYear, first, k);
    } else {
      assert cal.FromGregorian(date).None?;
    }
  }

  lemma Between(starts: seq<int>, date: int, k: nat, a: nat, b: nat)
    requires Increasing(starts) && k + 1 < |starts| && a <= b < |starts|
    requires starts[k] <= date < starts[k + 1]
    ensures starts[a] <= date < starts[b] <==> a <= k < b
  {
  }

  lemma WholeYears(n: int, years: int, first: int, k: int)
    requires n % 12 == 0 && 0 <= first < 12
    requires 12 * years + first <= k < 12 * years + first + 12
    ensures 0 <= 12 * years + first && 12 * years + first + 12 < n <==> first <= k < n - 12 + first
  {
  }

  /** `date.year`: the latest year, at or below `y`, that has begun by the date. */
  function YearOf(date: int, y: nat): nat {
    if y == 0 || DaysBeforeYear(y) < date then y else YearOf(date, y - 1)
  }

  lemma {:induction false} YearsBegin(y: nat, z: nat)
    requires y <= z
    ensures DaysBeforeYear(y) <= DaysBeforeYear(z)
  {
    if y < z {
      YearsBegin(y, z - 1);
      YearStep(z - 1);
    }
  }

  lemma {:induction false} YearOfIs(date: int, year: nat, y: nat)
    requires 1 <= year <= y && DaysBeforeYear(year) < date <= DaysBeforeYear(year + 1)
    ensures YearOf(date, y) == year
  {
    if y > year {
      YearsBegin(year + 1, y);
      YearOfIs(date, year, y - 1);
    }
  }

  lemma MonthInsideItsYear(k: nat)
    ensures DaysBeforeYear(1 + k / 12) < GregorianStart(k)
    ensures GregorianStart(k + 1) <= DaysBeforeYear(2 + k / 12) + 1
  {
    var y, m := 1 + k / 12, 1 + k % 12;
    GregorianStep(k);
    YearStep(y);
    assert DaysBeforeMonth(y, m) >= 0;
    assert DaysBeforeMonth(y, m) + DaysInMonth(y, m) <= if IsLeap(y) then 366 else 365;
  }

  /** The year of a date is the one the Gregorian calendar reads. */
  lemma YearIsGregorian(date: int)
    requires 1 <= date <= MAX_ORDINAL
    ensures var c := Gregorian(1).FromGregorian(date); c.Some? && c.value.year == YearOf(date, 9999)
  {
    var cal := Gregorian(1);
    GregorianIsValid(1);
    ToUndoesFrom(cal, date);
    var k := Located(cal, date);
    var c := cal.FromGregorian(date).value;
    IndexInverse(cal, c.year, c.month);
    GregorianEntry(1, k);
    MonthInsideItsYear(k);
    YearOfIs(date, 1 + k / 12, 9999);
  }

  /** `fiscal_year_for`: the Gregorian year where the table cannot place the date. */
  function FiscalYearFor(cal: Calendar, date: int): (r: int)
    requires |cal.starts| > 1
    ensures cal.FiscalYearOf(date).Some? ==> r == cal.FiscalYearOf(date).value
  {
    var y := cal.FiscalYearOf(date);
    if y.Some? then y.value else YearOf(date, 9999)
  }

  /** Where the table cannot place the date, its fiscal year is the year the Gregorian calendar
      reads; where it can, the month it reads decides, from the fiscal start on. */
  lemma FiscalYearForExactly(cal: Calendar, date: int)
    requires cal.Valid() && 1 <= date <= MAX_ORDINAL
    ensures var c, g := cal.FromGregorian(date), Gregorian(1).FromGregorian(date);
      if c.None? then g.Some? && FiscalYearFor(cal, date) == g.value.year
      else FiscalYearFor(cal, date) == c.value.year - (if c.value.month < cal.fiscalStart then 1 else 0)
  {
    YearIsGregorian(date);
  }
}
