# HRMS Hydro: a verified model

This project models the parts of the HRMS backend where money, access and history are
decided by several functions together, and proves what those functions promise jointly.
The backend is Python and Django; the model is Dafny. Everything here is about the logic of
the code: tables become sequences and maps held in fields, requests become method calls,
and a run is a finite sequence of steps taken one at a time.

What is modelled:

- **Attendance time.** Clock-in, clock-out, heartbeat and the sweep that guesses a
  clock-out, over day records and sessions, and what the screens show of them (`Punches`,
  `PunchRuns`, `DayRecords`); dated shift assignments and the shift of a day (`Roster`);
  the pay-period summary and its laws (`PayrollSummary`, `PayrollLaws`, `PayrollFigures`);
  disputes under a payroll lock (`Regularisation`); the status grid (`AttendanceGrid`).
- **Calendars and fiscal years.** Gregorian and table-driven Bikram Sambat behind one
  interface (`Calendars`).
- **Amounts in words.** The Indic printer, and a reader that undoes it (`NumberWords`).
- **Expense budgets** over runs of claims (`Budgets`).
- **Suspensions** and the login lock (`Suspensions`); **delegation** of permissions
  (`Policy`).
- **Workflow histories.** Support tickets and their references (`Tickets`, `References`),
  requests to change a record (`ChangeRequests`), the company group (`Companies`).

How to read it. A class holds the tables a source module writes, and each of its methods is
proved equal to one step of a step function (`Next`, `After`). The theorems are lemmas about
runs of that function. `Run` applies steps one after another; refused steps change nothing.
What each operation answers and writes is stated a second time from the rows it is given, by
lemmas that do not use the functions it is built from (mostly named `...Exactly`).
Dates are proleptic Gregorian ordinals (1 is 1 January of year 1). Instants are microseconds
on the company's local timeline, a day being 86 400 000 000 of them. Money is in
hundredths, leave in half days, overtime in hundredths of an hour.

`dafny verify dfyconfig.toml` checks the whole project with Dafny 4.11.

## Where the code parts from what is said about it

Each of these is stated by a lemma; the model follows the code.

- `close_stale_sessions` fills in a session's end but not the day record's own clock-out
  (backend/attendance/punches.py:195-199), which is called a summary of the sessions
  (backend/attendance/punches.py:73-75). A day of one punch that was swept shows no clock-out:
  `DayRecords.SweepLeavesColumn`; exactly when the record shows the end of the day's last
  ended session is `DayRecords.RecordShowsLastEndExactly`.
- The sweep exists so that a forgotten day's hours are not lost
  (backend/attendance/punches.py:138-141). A night shift that is not heard before midnight is
  still credited with nothing, and no later beat or clock-out reaches it:
  `PunchRuns.NightEarnsNothing`; exactly when a forgotten session is credited is
  `PunchRuns.ForgottenEarnsExactly`.
- A sweep dated after the clock closes a session in the future, and the next punch is then
  accepted inside it: `PunchRuns.SweepAheadOverlaps`, `PunchRuns.SweepAheadHappens`; exactly
  when a sweep is safe is `PunchRuns.SweepKeepsInvExactly`.
- Half days inferred from the clock are judged by one shift for the whole window, so they do
  not always add up across windows: `PayrollLaws.ShortDaysMayNotAdd`; exactly when they do:
  `PayrollLaws.HalfDaysAddExactly`. The serializer admits a row that ends before it starts; such
  a row belongs to no day and can still judge a window: `PayrollLaws.BackwardsRowIsAdmitted`,
  `PayrollLaws.BackwardsRowCancels`, and exactly when half days add up on any roster at all,
  `PayrollLaws.HalfDaysAddOnAnyRoster`.
- `_sync` is documented to re-enable only accounts this module disabled
  (backend/employees/suspensions.py:231-235). Nothing records who closed an account, and it
  re-enables any closed one of a person active or suspended whom no suspension covers:
  exactly when, in `Suspensions.SyncReopensExactly`, with the sweep's and the filing's
  instances in `Suspensions.SweepMayReopen` and `Suspensions.SuspendMayReopen`. Over whole
  runs such a login stays closed exactly for people neither active nor suspended:
  `Suspensions.StaysClosedExactly`.
- Lifting announces that access is restored (backend/employees/suspensions.py:180-190), but
  a person on leave stays locked out, and so does anybody whom another record covers:
  `Suspensions.LiftedOnLeave`, and exactly when, `Suspensions.LiftReopensExactly`.
- `suspend` is documented to refuse overlapping suspensions
  (backend/employees/suspensions.py:63-69) but tests the first day only:
  `Suspensions.RecordsOverlap`. Which records the new one meets is
  `Suspensions.RecordsMayOverlap`, and exactly when they stay apart is
  `Suspensions.SuspendKeepsApartExactly`.
- Leaving closes the login (backend/employees/services.py:151-162), but lifting a suspension
  that is not in force with a dismissal makes a leaver who can still sign in:
  `Suspensions.LeaverIsOutExactly`, `Suspensions.DismissedWithOpenLogin`.
- A viewset that wrote just the row is said to leave somebody marked suspended and able to sign
  in (backend/employees/viewsets.py:957-961). A PATCH, which is the amendment `suspend` asks
  for, and a DELETE do just that: `Suspensions.AmendedIntoForce`, and exactly when,
  `Suspensions.AmendLeavesLoginOpenExactly`, `Suspensions.AmendKeepsLockExactly` and
  `Suspensions.DeleteKeepsLockExactly`. Deleting the only record while it runs leaves somebody
  locked out whom no sweep comes for: `Suspensions.DeletedWhileRunning`,
  `Suspensions.StuckWithoutRecord`, and exactly when a sweep mends a state,
  `Suspensions.MorningMendsExactly`.
- Rehiring somebody whom a live suspension covers opens the login:
  `Suspensions.RehiredUnderSuspension`, and exactly when,
  `Suspensions.RehireKeepsLockExactly`, and over runs `Suspensions.LockHoldsExactly`.
- A budget's pool counts claims that a more specific budget admitted, so a blocking pool can
  be overdrawn: `Budgets.SpecificBudgetOverdraws`; exactly which pools are safe over all
  runs is `Budgets.PoolSafeExactly`. Nothing refuses a claim for a negative amount, and one
  is enough to overdraw any of them: `Budgets.NegativeClaimOverdraws`.
- A budget whose window the calendar cannot resolve is said not to block spending
  (backend/expenses/budgets.py:76-80). It refuses a claim for more than its whole amount:
  `Budgets.UnresolvedWindowBlocks`, and exactly when, `Budgets.UnresolvedWindowBlocksExactly`.
- An approved claim can still be cancelled (backend/expenses/viewsets.py:229), though the
  model's documentation allows it only while pending (backend/expenses/models.py:18-19):
  `Budgets.ApprovedIsCancelled`, and exactly when, `Budgets.CancelsExactly`.
- Permission rows are said to exist for officers only (backend/accounts/models.py:43-44);
  `grant` gives them to anybody, and they work: `Policy.EmployeeIsGranted`. Exactly when the
  rows stay the officers' own is `Policy.StepKeepsOfficersOnlyExactly`, and over runs
  `Policy.OfficersOnlyExactly`. The second rule of `grant`, that the actor must hold what
  they hand out, never refuses anybody: `Policy.HoldingRuleIsIdle`.
- The reference after CT-10000 is CT-10000 again: `References.LatestExists`, and exactly when
  a reference is new, `References.ReferencesAreFreshExactly`.
- `month_length` has no answer for the last month of a Bikram Sambat table, because it needs
  the month after it: `Calendars.LastMonthHasNoEnd`, and exactly when it has one,
  `Calendars.LengthIsTheTables`.
- Submission is said to refuse a value the column cannot take, so that no request is a trap for
  whoever approves it (backend/employees/change_requests.py:149-151). It checks choices and
  dates but no length (`max_length`, backend/employees/models.py:230-324), so a PAN of 31
  characters is accepted and every approval of it raises: `ChangeRequests.OverlongIsATrap`.
  Exactly when a pending request can be approved, and by whom, is
  `ChangeRequests.ApprovedExactly`, and at filing `ChangeRequests.FiledIsApprovableExactly`.
- A newer ask is said to replace the one that waits (backend/employees/change_requests.py:170-171).
  The waiting one is superseded before the new row is written, outside any transaction, so a
  value of more than 255 characters removes it and leaves nothing: `ChangeRequests.AskIsLost`,
  and exactly when, `ChangeRequests.AskIsLostExactly`.

## Model

| member | source | states |
|---|---|---|
| NumberWords.UnderThousand | backend/core/numbers.py:26-40 | prints the words of a number below 1000, as the recursive reference definition says them |
| NumberWords.NumberToWordsIndic | backend/core/numbers.py:43-72 | terminates on every integer, and the group-by-group text equals the reference reading, largest unit first, with minus for a negative |
| NumberWords.UnderCrore | backend/core/numbers.py:59-72 | the lakh, thousand and final groups, appended to whatever is already there, print the rest of the number |
| NumberWords.AmountToWords | backend/core/numbers.py:75-89 | prints the phrase of the rounded amount, cleaned of double spaces: some rupees and some paisa below a hundred, of no opposite signs, that make up the nearest paisa, each in words, ending in only |
| NumberWords.PhraseIsPrinted | backend/core/numbers.py:82-89 | what is printed names rupees and paisa below a hundred, never of opposite signs, that make up the nearest amount in paisa, ties to the even one; the paisa only where there are any |
| NumberWords.HalfEven | backend/core/numbers.py:82 | rounds to a nearest integer, and a tie to an even one |
| NumberWords.ValueOfWords | backend/core/numbers.py:43-72 | a left fold over the words gives the number back, for every integer |
| NumberWords.ParseInvertsText | backend/core/numbers.py:43-72 | cutting the printed text at spaces, looking up each token and folding recovers the number, for every integer, crores of crores included |
| NumberWords.SpellInjective | backend/core/numbers.py:15-23 | no two words of the vocabulary are spelled alike |
| NumberWords.Vocabulary | backend/core/numbers.py:15-23 | every word, in the order of the numbers the words stand for |
| NumberWords.WordsAreIdiomatic | backend/core/numbers.py:26-40 | "and" stands between a hundred and the rest of its group and nowhere else, a ten takes a unit from one to nine, and zero is said alone |
| NumberWords.ReplaceChangesNothing | backend/core/numbers.py:86-89 | the closing double-space replacement leaves the phrase alone if and only if the labels carry no stray spaces |
| NumberWords.ReplaceIdle | backend/core/numbers.py:89 | the replacement is the identity exactly on text without a double space, and shortens any other |
| NumberWords.ReplaceHalvesRuns | backend/core/numbers.py:89 | the replacement halves every run of spaces, rounding up, and keeps everything else |
| NumberWords.AmountTextInjective | backend/core/numbers.py:75-89 | two amounts print alike if and only if they round to the same paisa, negative ones included |
| NumberWords.DefaultLabelsFit | backend/core/numbers.py:75 | the default labels are ones under which printed amounts can be told apart |
| Calendars.Calendar.WithFiscalStart | backend/core/calendars.py:118-137 | refuses exactly a month that is neither the current one nor 1 to 12, and otherwise gives the same calendar with only the fiscal start changed |
| Calendars.GregorianIsValid | backend/core/calendars.py:151-176 | leap-year arithmetic lays the 119 988 months of years 1 to 9999 end to end over exactly the range of a date |
| Calendars.GregorianStep | backend/core/calendars.py:173-176 | a month's length is the difference between its opening ordinal and the next month's |
| Calendars.BikramSambatIsValid | backend/core/calendars.py:179-222 | an anchor and any table of whole years with months of 29 to 32 days makes a calendar |
| Calendars.FromUndoesTo | backend/core/calendars.py:164-211 | from_gregorian undoes to_gregorian on every date that can be written, in either calendar |
| Calendars.ToUndoesFrom | backend/core/calendars.py:164-211 | to_gregorian undoes from_gregorian, and a day has a local date exactly when the table covers it |
| Calendars.ConversionKeepsOrder | backend/core/calendars.py:164-211 | one day is before another exactly when its local date is |
| Calendars.LengthIsTheTables | backend/core/calendars.py:173-222 | month_length is the table entry or the leap rule's, except that the last month of a table has no answer |
| Calendars.LastMonthHasNoEnd | backend/core/calendars.py:213-222 | on every table the last month opens and has neither a length nor an end |
| Calendars.MonthsTile | backend/core/calendars.py:81-85 | the day after a month's end is the opening day of the next month |
| Calendars.BoundsExist | backend/core/calendars.py:139-148 | a fiscal year has bounds exactly when its own opening and its successor's can be written, and what they are |
| Calendars.FiscalYearIsItsBounds | backend/core/calendars.py:98-148 | for every fiscal start month, a date carries the label of a year if and only if it lies inside that year's bounds |
| Calendars.FiscalYearsTile | backend/core/calendars.py:139-148 | consecutive fiscal years meet with no gap and no overlap |
| Calendars.FiscalYearsCover | backend/core/calendars.py:98-148 | the dates with a bounded fiscal year are exactly the stretch from the first writable fiscal opening to the last |
| Calendars.YearIsGregorian | backend/core/calendars.py:308-329 | the year a date falls back to, where the table cannot place it, is the one the Gregorian calendar reads |
| Calendars.FiscalYearForExactly | backend/core/calendars.py:308-329 | a date the table cannot place has its Gregorian year for a fiscal year; any other the year it reads, or the one before where its month comes before the fiscal start |
| Roster.AssignmentTable.Validate | backend/attendance/serializers.py:37-53 | the loop accepts exactly when no other assignment of the employee meets the dates |
| Roster.AssignmentTable.Store | backend/attendance/serializers.py:37-53 | an accepted row is added or replaced and a refused one leaves the table as it was |
| Roster.RangesMeetIsSharedDay | backend/attendance/serializers.py:45-52 | the test never misses a shared day, and on ranges that do not end before they start it reports nothing else |
| Roster.SavedKeepsSingleCover | backend/attendance/serializers.py:37-53 | an accepted create or update leaves no day of anybody covered twice |
| Roster.RunKeepsSingleCover | backend/attendance/serializers.py:37-53 | over every run of creates and updates each day of each employee has at most one covering assignment |
| Roster.SavedExactly | backend/attendance/serializers.py:37-53 | where no row ends before it starts, a save goes through if and only if its row shares no day with another of the same person; then that row is stored in its place, and no other moves |
| Roster.Pick | backend/attendance/services.py:24-30 | a covering assignment of latest start, or none exactly when none covers the day |
| Roster.PickIsTheOnlyOne | backend/attendance/services.py:24-30 | under that invariant the pick is the one covering assignment, whatever order rows are read in |
| Roster.DayRuleFollowsTheShift | backend/attendance/punches.py:232-281 | lateness and the length of the paid day depend on that one assignment only |
| Roster.PaidDayExactly | backend/attendance/punches.py:251-281 | the paid day is the time from start to end, through midnight where they must, less the shift's own break or else the company's, for the one covering assignment or else the office; there is none where nothing is left or no hours are set |
| Punches.LogIndex | backend/attendance/models.py:227-231 | finds the one record of an employee and date, or none exactly when there is none |
| Punches.OpenIndex | backend/attendance/punches.py:109 | finds an open session of the day that is the latest, or the earliest, and none exactly when nothing is open |
| Punches.Attendance.OpenSession | backend/attendance/punches.py:35-97 | the whole new state of both tables after a clock-in, and each refusal, which changes nothing |
| Punches.Attendance.CloseSession | backend/attendance/punches.py:100-128 | the whole new state after a clock-out, and the three refusals in their order |
| Punches.Attendance.RecordPresence | backend/attendance/punches.py:203-229 | marks the open session with the instant given, or the clock's, and closes nothing; true exactly when there was something to mark |
| Punches.Attendance.CloseStaleSessions | backend/attendance/punches.py:131-200 | every open session of an earlier day gets its guess and its flag, no other row changes, and the count is the number closed |
| Punches.Attendance.Summary | backend/attendance/punches.py:284-330 | sweeps first, then reports the day's status, its shape, and how long a full day is for this person on this date; an empty shape where there is no record |
| Punches.Attendance.DayHistory | backend/attendance/punches.py:333-367 | the loop builds a row for each record of the range, in the order the query gives |
| Punches.DayShapeIsTheDay | backend/attendance/punches.py:314-330 | a day's shape holds exactly its own sessions in the order of their clock-ins, their number, their closed seconds, and since when the earliest open one runs, if any does |
| Punches.HistoryIsTheRecords | backend/attendance/punches.py:346-367 | a row is in the history exactly when it is one of the employee's records in the range with the shape of that day, and the newest day comes first |
| Punches.HistoryTotals | backend/attendance/punches.py:333-367 | one row for each record, and their seconds total those of the days |
| PunchRuns.NextKeepsInv | backend/attendance/punches.py:35-229 | every step keeps: one record a day, each session inside its record's date and not after the clock, and one employee's sessions in turn |
| PunchRuns.RunKeepsInv | backend/attendance/punches.py:35-229 | so does every run under a clock that does not go back, from any state that has it |
| PunchRuns.EveryRunIsHonest | backend/attendance/punches.py:12-18 | in every run from empty tables a day has at most one open session, which is its latest, closed sessions are not negative, and no two of one employee's overlap |
| PunchRuns.TotalWithinSpan | backend/attendance/models.py:310-321 | a day's total never exceeds any interval holding its closed sessions, so never last out minus first in |
| PunchRuns.DayTotalInEveryRun | backend/attendance/models.py:310-321 | the same for the state at the end of every run from empty tables |
| PunchRuns.SweepLeavesNothingStale | backend/attendance/punches.py:131-200 | after a sweep nobody is clocked in from an earlier day, and a second sweep changes nothing |
| PunchRuns.SweepGuess | backend/attendance/punches.py:175-196 | the guess is the last beat where one was heard, else the office's end or 23:59, else the clock-in itself; it is flagged, lies between the clock-in and the end of its day, nothing else of the session moves, and it lies after the clock-in if and only if a beat was heard or the session began before the office's end |
| PunchRuns.ForgottenEarnsExactly | backend/attendance/punches.py:100-229 | once its day is over, over every run an open session stays as it was or is closed by a sweep, and is then credited with time if and only if it was heard or began before the office's end; no beat or clock-out reaches it |
| PunchRuns.NightEarnsNothing | backend/attendance/punches.py:175-193 | so a 22:00 clock-in that is not heard that evening, in an office that closes at 18:00, comes to nothing in every run |
| PunchRuns.SweepKeepsInvExactly | backend/attendance/punches.py:131-200 | a sweep keeps the invariant if and only if it is dated no later than the clock, or the office has closed for the day, or everybody still clocked in today has been heard |
| PunchRuns.SweepAheadOverlaps | backend/attendance/punches.py:131-200 | dated after the clock, a sweep that closes a running session lets the next punch be accepted inside it |
| PunchRuns.SweepAheadHappens | backend/attendance/punches.py:131-200 | a concrete morning on which that happens |
| DayRecords.RecordSummarisesSessions | backend/attendance/punches.py:73-126 | in every run of punches, beats, sweeps and written records, each record shows at every moment the day's first punch in and its last pressed clock-out, which a sweep's guess is not, if and only if every record written agrees with the sessions |
| DayRecords.LastOutIsLastEndExactly | backend/attendance/punches.py:73-75 | the last clock-out pressed is the end of the day's last ended session if and only if the sweep did not guess that end, or guessed an empty stretch begun at the last press |
| DayRecords.RecordShowsLastEndExactly | backend/attendance/punches.py:73-199 | so in every run in which written records agree, that is exactly when a record's own clock-out is the end of the day's last ended session; without one it shows none |
| DayRecords.SweepLeavesColumn | backend/attendance/punches.py:195-199 | one punch at 09:00, swept the next night: the session ends at the office's 18:00 and the record shows no clock-out |
| DayRecords.WritingSummarisesExactly | backend/attendance/models.py:227-231 | a record written by hand or by the absence sweep keeps the columns a summary exactly when its two columns say what the sessions say |
| DayRecords.AbsenceAgrees | backend/attendance/management/commands/mark_absent_employees.py:47-119 | the absence sweep, which writes a record without punches for somebody who has none that day, does |
| DayRecords.EmptyIsSummarised | backend/attendance/punches.py:73-75 | empty tables satisfy it, so runs may start there |
| DayRecords.ClockInSummarises | backend/attendance/punches.py:35-97 | an accepted clock-in opens one session, adds a record only where the day had none, fills in a missing first punch, moves no clock-out, source or record of another day, and keeps the columns a summary |
| DayRecords.ClockOutSummarises | backend/attendance/punches.py:100-128 | an accepted clock-out closes the last session of the day, sets that day's clock-out, moves no other session, column or day, and keeps the columns a summary |
| DayRecords.JudgementStands | backend/attendance/punches.py:81-91 | no run of punches, beats, sweeps and records written for other days changes the status of a day that has been punched on or is not marked absent |
| DayRecords.ArrivalWithdrawsAbsence | backend/attendance/punches.py:81-91 | the first punch on a day marked absent makes it present or late |
| DayRecords.FirstPunchIsJudgedExactly | backend/attendance/services.py:24-45 | the record after a day's first punch is late if and only if the punch comes after the start and grace, taken as a time of day, of the one covering shift, or of the office where none covers; present where no start is set |
| DayRecords.ClockInAnsweredExactly | backend/attendance/punches.py:35-62 | a clock-in from an allowed source is refused if and only if a session of the day is open |
| DayRecords.ClockOutAnsweredExactly | backend/attendance/punches.py:100-118 | in every state the punches lead to, a clock-out is refused without a record, then without an open session, then before that session began, and never else |
| DayRecords.BeatIsHeard | backend/attendance/punches.py:203-229 | a beat writes the instant given, or the clock's, on the one open session and nothing else; without one it writes nothing |
| DayRecords.SweepClosesExactly | backend/attendance/punches.py:157-199 | a sweep ends exactly the sessions still open from earlier days, flagged, and moves no record |
| DayRecords.StaleCountIs | backend/attendance/punches.py:157-200 | the count a sweep returns is the number of those |
| DayRecords.WrittenExactly | backend/attendance/management/commands/mark_absent_employees.py:47-119 | a record written by hand or by the absence sweep is what was written, and no session and no other day moves |
| DayRecords.SecondsAreCut | backend/attendance/models.py:310-321 | a session's seconds are those between its ends, cut off toward zero, and none while it is open |
| DayRecords.PunchesAddUp | backend/attendance/punches.py:100-128 | a clock-out adds its stretch to that person's day and to nothing else; clock-ins and beats change no total |
| DayRecords.SweepTakesNothing | backend/attendance/punches.py:131-200 | a sweep lowers no day's total and leaves today's alone |
| PayrollSummary.HoursHundredths | backend/attendance/payroll_summary.py:314 | hours to two places, the nearest, and a tie to the even one |
| PayrollSummary.LatestTouching | backend/attendance/payroll_summary.py:124-130 | an assignment of latest start among those that touch the window, none exactly when none does |
| PayrollSummary.WorkingDates | backend/attendance/payroll_summary.py:173-184 | the loop collects exactly the working days of the window, and their number is the day-by-day sum |
| PayrollSummary.OverlapDays | backend/attendance/payroll_summary.py:83-108 | the number of chargeable days of the window that the leave covers, on either basis |
| PayrollSummary.CountStatuses | backend/attendance/payroll_summary.py:186-198 | absent, half and late days are each the number of chargeable records with that status |
| PayrollSummary.CountLeave | backend/attendance/payroll_summary.py:200-224 | paid and unpaid leave are the sums of the approved requests' chargeable days, halved for a half-day request |
| PayrollSummary.CountNights | backend/attendance/payroll_summary.py:235-255 | the clipped windows count, for each night assignment, the worked dates it covers |
| PayrollSummary.CountHours | backend/attendance/payroll_summary.py:257-300 | days attended, seconds worked and short days, each as a sum over the records |
| PayrollSummary.GetPeriodAttendance | backend/attendance/payroll_summary.py:139-316 | every figure of the summary equals its row-by-row definition, with working_only on or off |
| PayrollFigures.MarkedDaysExactly | backend/attendance/payroll_summary.py:186-198 | with one record a day, absent days are the number of distinct dates charged on which the record says absent, late days those on which it says late, and half days those on which it says half together with the short days; a day is charged where it is worked, or where every day is |
| PayrollFigures.ShortDaysExactly | backend/attendance/payroll_summary.py:272-300 | short days are the number of dates charged with seconds worked, fewer than half the rostered ones, and no mark by hand |
| PayrollFigures.JudgingShiftExactly | backend/attendance/payroll_summary.py:124-130 | a window is judged by a row of latest start among those that begin by its end and do not end before it begins |
| PayrollFigures.RosteredExactly | backend/attendance/payroll_summary.py:111-136 | the rostered seconds run from the shift's start to its end, through midnight where they must, more than none and a day at most; none where nobody is rostered |
| PayrollFigures.PeriodDaysExactly | backend/attendance/payroll_summary.py:171-184 | the period is every day of the window, and its working days are those that are no holiday and fall on a weekday of the company's week |
| PayrollFigures.LeaveExactly | backend/attendance/payroll_summary.py:200-224 | paid and unpaid leave are the numbers of half days taken: for each approved request of that kind and each of its days charged in the window one, and a second where it is for whole days |
| PayrollFigures.OvertimeExactly | backend/attendance/payroll_summary.py:226-233 | overtime is nothing without records, and one record more adds its hours exactly where it is approved, the employee's and of the window |
| PayrollFigures.NightsExactly | backend/attendance/payroll_summary.py:235-255 | night shifts are the number of pairs of a night assignment and a date it covers with a record that says present or late |
| PayrollFigures.AttendedExactly | backend/attendance/payroll_summary.py:279-289 | days attended are the number of dates of the window with a record and seconds worked |
| PayrollFigures.HoursExactly | backend/attendance/payroll_summary.py:279-314 | in every state the punches lead to, hours worked are the employee's closed sessions of the window, each counted once, rounded to the nearest hundredth and a tie to an even one |
| PayrollLaws.SummaryIsAdditive | backend/attendance/payroll_summary.py:171-316 | splitting a window at any day conserves period, working, absent, late and marked half days, paid and unpaid leave, overtime, night shifts, days attended and worked seconds; rounded hours by at most one hundredth |
| PayrollLaws.LeaveChargedOnce | backend/attendance/payroll_summary.py:83-108 | a request that straddles two windows is charged in total for exactly its own chargeable days |
| PayrollLaws.HalfDaysAddOnAnyRoster | backend/attendance/payroll_summary.py:111-307 | on every roster, half days add up across a split if and only if as many chargeable unmarked days are short by the whole window's shift alone as by their own part's alone |
| PayrollLaws.HalfDaysAddExactly | backend/attendance/payroll_summary.py:272-307 | on a roster that covers no day twice and has no row that ends before it starts, half days add up across a split if and only if no chargeable unmarked day is judged differently by the whole window's shift and by its own part's |
| PayrollLaws.BackwardsRowIsAdmitted | backend/attendance/serializers.py:37-53 | three rows that pass validation one after another, the last ending before it starts: two parts and the whole are judged by three different shifts |
| PayrollLaws.BackwardsRowCancels | backend/attendance/payroll_summary.py:111-136 | there half days add up although two days are judged differently |
| PayrollLaws.HalfDaysAddOnOneShift | backend/attendance/payroll_summary.py:111-136 | so they add up on any roster where the three windows are judged by the same length of shift |
| PayrollLaws.WholeIsJudgedByItsEnd | backend/attendance/payroll_summary.py:124-130 | where no day is covered twice and no row ends before it starts, a window is judged by the shift its later part is judged by, and by its earlier part's only where the later has none |
| PayrollLaws.ShortDaysMayNotAdd | backend/attendance/payroll_summary.py:111-136 | a concrete window whose half day disappears when its two parts are summed up together |
| PayrollLaws.HalfDaysExactly | backend/attendance/payroll_summary.py:268-307 | half_days is the number of distinct chargeable dates HR marked or worked under half the shift, each once |
| PayrollLaws.HalfDaysWithinWorkingDays | backend/attendance/payroll_summary.py:289-307 | with working_only they never exceed the working days of the divisor |
| PayrollLaws.WorkedIsHistoryExactly | backend/attendance/payroll_summary.py:279-300 | payroll's worked seconds equal the punch history's total if and only if no day of the window sums below zero |
| PayrollLaws.WorkedIsHistoryInEveryRun | backend/attendance/payroll_summary.py:279-300 | they are equal in every state a run of punches can reach |
| PayrollLaws.NightsPaidOnce | backend/attendance/payroll_summary.py:235-255 | under the roster invariant the night count is the number of worked dates covered by a night shift, each once |
| Regularisation.Regulariser.PayrollIsLockedFor | backend/attendance/regularisation.py:24-42 | true exactly when some locked run's window holds the date |
| Regularisation.Regulariser.ApproveRegularisation | backend/attendance/regularisation.py:45-117 | the whole new state: the record created or corrected, the audit rows, the request; or the refusal and no change |
| Regularisation.Regulariser.RejectRegularisation | backend/attendance/regularisation.py:120-141 | only a pending request is rejected, and only its status moves |
| Regularisation.Regulariser.CancelRegularisation | backend/attendance/viewsets.py:609-624 | only a pending request is cancelled, and only its status moves |
| Regularisation.ApprovalTouchesOneDay | backend/attendance/regularisation.py:69-90 | the disputed day gets every field asked for and keeps the others, a day without a record gets one, and the source becomes manual; no other day of anybody changes |
| Regularisation.PutTouchesOneDay | backend/attendance/regularisation.py:69-90 | writing a record keeps one record a day and changes no other day's |
| Regularisation.DecidedOnce | backend/attendance/regularisation.py:57-60 | over every run requests never vanish, keep what was asked, and leave PENDING at most once |
| Regularisation.ApprovalAnsweredExactly | backend/attendance/regularisation.py:57-67 | an approval goes through if and only if the request is pending and no locked window holds its date |
| Regularisation.DecisionsAre | backend/attendance/regularisation.py:57-141 | a decision makes a pending request approved, rejected or cancelled as it says and moves no other; only an approval moves records and trail |
| Regularisation.FilingAndLocking | backend/attendance/regularisation.py:24-42 | filing adds a pending request unless one waits for the person and day, locking adds a window, and neither moves anything else |
| Regularisation.TrailGrowsExactly | backend/attendance/regularisation.py:78-107 | an approval adds no row for a record it creates, and otherwise one row, in the approver's name, for each field asked for, a status only where it differs |
| Regularisation.TrailAccountsForRecord | backend/attendance/regularisation.py:78-107 | over every run the audit trail only grows, and redoing its new rows, each from the value it names, turns an existing record into what it is now |
| Regularisation.RunFreezesWindow | backend/attendance/regularisation.py:62-67 | no run changes a day record inside a locked window |
| Regularisation.SummarySeesWindow | backend/attendance/payroll_summary.py:186-316 | the summary of a window reads no day record outside it |
| Regularisation.LockedSummariesAreFrozen | backend/attendance/regularisation.py:1-12 | for every run of filing, approving, rejecting, cancelling and locking, the summary a locked payroll was computed from stays the same |
| AttendanceGrid.LayLogs | backend/attendance/views.py:64-66 | the first loop shows each record's status in its cell |
| AttendanceGrid.LaySpan | backend/attendance/views.py:75-79 | the inner loop marks exactly the days of the clipped span |
| AttendanceGrid.LayLeaves | backend/attendance/views.py:68-79 | the second loop puts approved leave over records and nothing else |
| AttendanceGrid.LayHoliday | backend/attendance/views.py:81-83 | a holiday takes exactly that date of every listed employee |
| AttendanceGrid.Merge | backend/attendance/views.py:62-83 | the three loops build exactly the pointwise rule, holiday over leave over record and no cell otherwise, for every employee and date |
| AttendanceGrid.CellsMean | backend/attendance/views.py:62-83 | what each cell says: a holiday whatever else is on file, approved leave where there is no holiday, the day's record where there is neither, and nothing outside the list and the range |
| Budgets.BestOf | backend/expenses/budgets.py:117-142 | the first of the most specific active budgets in scope, none exactly when none is in scope |
| Budgets.GoverningExactly | backend/expenses/budgets.py:117-142 | of the active budgets that do not exclude the claim, one that names the employee governs before any that does not; among those alike in that one that names the department, then the category, then the first; none governs where all exclude it |
| Budgets.ClaimDesk.CreateClaim | backend/expenses/viewsets.py:80-114 | the verdict of the check, and the claim added exactly when it allows it |
| Budgets.ClaimDesk.ApproveClaim | backend/expenses/services.py:29-42 | moves that claim's status and nothing else |
| Budgets.ClaimDesk.RejectClaim | backend/expenses/services.py:45-59 | moves that claim's status and nothing else |
| Budgets.ClaimDesk.ReimburseClaim | backend/expenses/services.py:62-76 | moves that claim's status and nothing else |
| Budgets.ClaimDesk.CancelClaim | backend/expenses/services.py:79-83 | moves that claim's status and nothing else, pending or approved |
| Budgets.WindowOfItsDays | backend/expenses/budgets.py:55-80 | a window is the window of each of its days, whether the table places them or not |
| Budgets.WindowsAreEqualOrDisjoint | backend/expenses/budgets.py:55-80 | the windows of any two dates are equal or share no day |
| Budgets.DateInItsWindow | backend/expenses/budgets.py:55-80 | a date the calendar can place lies in its own window |
| Budgets.WindowIsExactly | backend/expenses/budgets.py:55-80 | a monthly window is the days of the date's own month, and raises for a date without a month that ends; a yearly one is the days of its fiscal year, where that has bounds |
| Budgets.SpentExactly | backend/expenses/budgets.py:83-114 | a pool holds nothing without claims, and one claim more adds its amount exactly where it is dated in the window, neither rejected nor cancelled, and not excluded by the budget |
| Budgets.StatusMovesExactly | backend/expenses/services.py:29-83 | a decision moves one claim's status at most: pending to approved or rejected, approved to reimbursed, either to cancelled |
| Budgets.LifecycleConserves | backend/expenses/budgets.py:83-114 | approving and reimbursing preserve every budget's total in every window; rejecting and cancelling take off exactly the claim's share |
| Budgets.RemainingIsWhatIsLeft | backend/expenses/budgets.py:173-198 | what the check reports as remaining is what is left of the pool once the claim is in, for a blocking budget and a date inside its window; for any other budget and date, by exactly how much the two part |
| Budgets.ExcludingIsRemoving | backend/expenses/budgets.py:83-114 | a check that leaves one claim out answers as if that claim had never been filed |
| Budgets.SubmitKeepsPool | backend/expenses/budgets.py:145-198 | admission through the check keeps a blocking pool inside its amount in the windows of all dates |
| Budgets.StepKeepsPool | backend/expenses/budgets.py:145-198 | every step of the lifecycle keeps it where whatever else the pool counts is governed by a budget that admits nothing |
| Budgets.PoolIsNeverOverdrawn | backend/expenses/budgets.py:83-198 | no run of non-negative claims overdraws such a blocking pool, in any window |
| Budgets.PoolSafeExactly | backend/expenses/budgets.py:117-198 | a blocking pool that governs some claim is safe over all runs of non-negative claims if and only if every claim it counts is its own to govern or goes to a budget that admits nothing |
| Budgets.EmptyTableIsWithinPool | backend/expenses/budgets.py:114 | with no claims yet nothing is overdrawn, so runs may start there |
| Budgets.RefusedExactly | backend/expenses/budgets.py:145-184 | a claim is refused if and only if the budget that governs it blocks and the claim exceeds its cap or what its pool has left; a warning budget or no budget never refuses |
| Budgets.AnsweredExactly | backend/expenses/budgets.py:145-198 | every part of the answer, failure, verdict, warning, budget and remainder, from the cap, the pool and what is in it, the warning share in whole numbers; what is let in is filed as pending |
| Budgets.UnresolvedWindowBlocksExactly | backend/expenses/budgets.py:73-80 | with no window, a claim under the cap is let in if and only if the budget warns, has no pool, or has one no smaller than the claim |
| Budgets.UnresolvedWindowBlocks | backend/expenses/budgets.py:73-80 | a calendar and a budget on which that happens |
| Budgets.CancelsExactly | backend/expenses/viewsets.py:224-232 | a claim can be cancelled exactly while pending or approved, so as documented exactly where it is not approved |
| Budgets.ApprovedIsCancelled | backend/expenses/viewsets.py:224-232 | an approved claim that is cancelled |
| Budgets.CapsHoldInEveryRun | backend/expenses/budgets.py:160-168 | in every run each claim is within the cap of the blocking budget that governs it |
| Budgets.SpecificBudgetOverdraws | backend/expenses/budgets.py:117-142 | a company pool beside a travel budget is not safe, and one travel claim overdraws it |
| Budgets.NegativeClaimOverdraws | backend/expenses/budgets.py:173-184 | whatever pool it is, one negative claim, later cancelled, lets the claims it governs overdraw it |
| Suspensions.Current | backend/employees/suspensions.py:42-54 | the covering record of latest start, then latest created; none exactly when none covers the date |
| Suspensions.CoversExactly | backend/employees/models.py:620-634 | a record is in force from its first day to its last, both included, and no longer from the day it was lifted |
| Suspensions.Employee.ActiveSuspension | backend/employees/suspensions.py:42-54 | the search returns that record |
| Suspensions.Employee.Sync | backend/employees/suspensions.py:200-250 | flags, status and login after a sync, and true exactly when something changed |
| Suspensions.Employee.SuspendFrom | backend/employees/suspensions.py:61-136 | the whole new state, and the three refusals in their order |
| Suspensions.SuspendAnsweredExactly | backend/employees/suspensions.py:70-87 | refused for an end before the start, then where a record covers the first day, then for a leaver, and for no other reason |
| Suspensions.SuspendFilesExactly | backend/employees/suspensions.py:89-97 | the record filed is the dates asked for, undecided and last; the others keep all but their flag |
| Suspensions.Employee.LiftSuspension | backend/employees/suspensions.py:139-197 | the whole new state after a lift dated today or on the day given, and the refusal without an outcome |
| Suspensions.LiftWritesExactly | backend/employees/suspensions.py:139-172 | a lift records its outcome and its day and ends the record no later than that; no other record moves but for its flag, and a dismissal makes a leaver |
| Suspensions.Employee.ApplyExit | backend/employees/services.py:99-162 | a resignation makes the person resigned and a termination terminated; the login closes and the suspensions stay |
| Suspensions.ExitExactly | backend/employees/services.py:114-162 | the same of the step, from any state |
| Suspensions.Employee.RehireBack | backend/employees/services.py:188-249 | a rehire makes active and opens the login, refused for the active and the suspended |
| Suspensions.RehireExactly | backend/employees/services.py:188-249 | refused to the active and the suspended; anybody else becomes active with an open login and the same suspensions |
| Suspensions.Sweep | backend/employees/suspensions.py:253-274 | everyone with a record is brought into step, nobody else changes, and the count is the number who were out of step |
| Suspensions.DifferencesIs | backend/employees/suspensions.py:253-274 | the count a sweep returns is the number of people it changed |
| Suspensions.SyncLocks | backend/employees/suspensions.py:200-250 | from any state at all, after a sync the lock, the flags and the status agree with the records |
| Suspensions.SyncMovesStatusExactly | backend/employees/suspensions.py:216-227 | a sync makes the active suspended where a record covers today, the suspended active where none does, and leaves every other status |
| Suspensions.SyncIsIdempotent | backend/employees/suspensions.py:261 | a second sync on the same day changes nothing |
| Suspensions.LockedIsAFixpoint | backend/employees/suspensions.py:200-250 | a state is in step if and only if a sync leaves it alone |
| Suspensions.StepKeepsLockExactly | backend/employees/suspensions.py:61-274 | a step of suspend, lift, exit, rehire, nightly sweep, amendment or deletion keeps them in step unless, and only unless, it is a rehire under a covering suspension, an amendment that changes which record is in force, or a deletion of the record in force while another covers today or the status is suspended |
| Suspensions.Employee.AmendSuspension | backend/employees/viewsets.py:954-1045 | a PATCH rewrites the record's dates, unchecked, and moves nothing else |
| Suspensions.Employee.DeleteSuspension | backend/employees/viewsets.py:954-1045 | a DELETE removes the record and moves nothing else |
| Suspensions.AmendAndDeleteExactly | backend/employees/serializers.py:877-892 | an amendment moves two dates of one record and a deletion takes one out; outcome, lift, the other records, the status and the login stay |
| Suspensions.AmendKeepsLockExactly | backend/employees/serializers.py:886-892 | an amendment keeps the three in step if and only if the record in force today is the one it was |
| Suspensions.AmendLeavesLoginOpenExactly | backend/employees/viewsets.py:957-961 | after an amendment a suspension covers today over an open login if and only if the login was open and the amended record covers today |
| Suspensions.AmendedIntoForce | backend/employees/viewsets.py:957-961 | a suspension for later, amended to begin today, with the login left open |
| Suspensions.DeleteKeepsLockExactly | backend/employees/viewsets.py:954-973 | a deletion keeps them in step if and only if the record is not in force, or nothing else covers today and the status is not suspended |
| Suspensions.DeletedWhileRunning | backend/employees/viewsets.py:954-973 | the only suspension deleted while it runs leaves somebody suspended, locked out and without a record |
| Suspensions.StuckWithoutRecord | backend/employees/suspensions.py:253-274 | and they stay so over every run without another suspension or an exit: no sweep comes for them and a rehire is refused |
| Suspensions.MorningMendsExactly | backend/employees/suspensions.py:253-274 | from any state, the nightly sweep brings the three in step if and only if there is a record to sweep or the status is not suspended |
| Suspensions.EveryRunIsLocked | backend/employees/suspensions.py:200-274 | in every orderly run: if a suspension covers today the login is closed and exactly the record in force is flagged; if none does, nobody is left suspended and every active employee with a record can sign in |
| Suspensions.LockHoldsExactly | backend/employees/suspensions.py:61-274 | where days move forward, they are in step at every moment of a run if and only if no step of it is such a rehire, amendment or deletion |
| Suspensions.InactiveStaysOut | backend/employees/suspensions.py:231-248 | no run of suspending, lifting, amending, deleting, leaving and sweeping opens the closed login of a leaver or of somebody on leave |
| Suspensions.SyncReopensExactly | backend/employees/suspensions.py:231-248 | from any state, a sync opens a closed login if and only if no suspension covers the day and the person is active or suspended, whoever closed it |
| Suspensions.SweepMayReopen | backend/employees/suspensions.py:253-274 | the nightly sweep does so exactly for those of them with a record, as for somebody whose only suspension is long over |
| Suspensions.StaysClosedExactly | backend/employees/suspensions.py:231-248 | a login that something else closed stays closed over every run without a rehire if and only if the person is neither active nor suspended |
| Suspensions.LiftEndsOne | backend/employees/models.py:620-634 | a lifted suspension, lifted before or not, is over from that day on and on earlier days says what its dates say; all other records read as before |
| Suspensions.LiftReopensExactly | backend/employees/suspensions.py:139-197 | lifting any record opens a closed login if and only if it is no dismissal, the person is active or suspended, the lift has taken effect, and no other record covers today |
| Suspensions.LiftedOnLeave | backend/employees/suspensions.py:180-190 | somebody on leave whose only suspension is lifted, and who stays locked out |
| Suspensions.LeaverIsOutExactly | backend/employees/suspensions.py:164-171 | from a state in step, a step leaves a leaver who can sign in if and only if it lifts with a dismissal a record not in force, for somebody who could sign in |
| Suspensions.DismissedWithOpenLogin | backend/employees/suspensions.py:164-171 | a state in which that happens |
| Suspensions.SuspendMayReopen | backend/employees/suspensions.py:231-248 | filing a suspension opens a closed login if and only if nothing on record, the new one included, covers today and the person is active or suspended |
| Suspensions.RehireKeepsLockExactly | backend/employees/services.py:208-247 | a rehire keeps the lock if and only if no suspension covers the day |
| Suspensions.RehiredUnderSuspension | backend/employees/services.py:208-247 | a leaver under a running suspension who is rehired and can sign in |
| Suspensions.RecordsMayOverlap | backend/employees/suspensions.py:73-78 | an accepted suspension shares a day with one on file if and only if it begins before it, runs on to its first day, and that day is still covered |
| Suspensions.RecordsOverlap | backend/employees/suspensions.py:63-78 | an accepted suspension from day 5 on, beside one of days 10 to 20 |
| Suspensions.SuspendKeepsApartExactly | backend/employees/suspensions.py:63-78 | so filing keeps a person's suspensions apart if and only if the new one runs into none of them |
| Policy.Directory.GrantPermission | backend/accounts/policy.py:286-313 | the new store and the four refusals in their order |
| Policy.Directory.RevokePermission | backend/accounts/policy.py:316-327 | the row is gone, for whoever administers, held or not |
| Policy.Directory.Appoint | backend/accounts/policy.py:330-371 | the new role and the grants that go with it, and the six refusals in their order |
| Policy.RolesHold | backend/accounts/policy.py:108-128 | without a grant an officer holds seven listed permissions, an employee none, and owners and HR admins all |
| Policy.GrantAnsweredExactly | backend/accounts/policy.py:286-327 | where nobody was granted people.admin, a grant goes through if and only if it is listed, is not people.admin, and comes from an active owner, HR admin or superuser; it and a revocation write one row |
| Policy.AppointAnsweredExactly | backend/accounts/policy.py:330-361 | there nobody is moved to or from owner, only an owner or superuser moves to or from HR admin, and whoever administers makes every other move |
| Policy.AppointmentIs | backend/accounts/policy.py:330-371 | one person gets one role and nobody else moves; an officer keeps the grants they had |
| Policy.QuestionsAgree | backend/accounts/policy.py:164-256 | at every state can, users_with and permissions_of name the same people for every listed permission |
| Policy.UnlistedQuestionsPart | backend/accounts/policy.py:164-256 | for an unlisted permission they part for exactly the active owners and superusers |
| Policy.AdministersByRole | backend/accounts/policy.py:118-128 | while nobody was granted people.admin it is held exactly by active owners, HR admins and superusers |
| Policy.StepIsBounded | backend/accounts/policy.py:286-371 | one step by anybody leaves the owners, adds no people.admin grant, moves HR admins only for a root, and is taken only by those who administer |
| Policy.RootOfTrustIsFixed | backend/accounts/policy.py:330-350 | no run by any actors changes who the owners are or creates a people.admin grant |
| Policy.NobodyRisesWithoutRoot | backend/accounts/policy.py:352-358 | in a run without an owner or superuser acting the HR admins stay the same people |
| Policy.PowersWithoutRoot | backend/accounts/policy.py:164-210 | so in such a run nobody gains the power to administer, create or delete |
| Policy.OnlyShapersCreate | backend/accounts/policy.py:194-210 | creating and deleting are for active owners, HR admins and superusers, whatever is granted |
| Policy.HoldingRuleIsIdle | backend/accounts/policy.py:303-306 | while no people.admin grant exists, the rule that the actor must hold what they grant refuses nobody |
| Policy.GrantReachesOnePerson | backend/accounts/policy.py:286-327 | a grant gives one permission to one person and changes nobody else's, and revoking undoes it |
| Policy.StepKeepsOfficersOnlyExactly | backend/accounts/models.py:43-44 | one step keeps every permission row an officer's if and only if it is not an accepted grant to somebody else |
| Policy.OfficersOnlyExactly | backend/accounts/policy.py:286-371 | over a run the rows are officers' own at every moment if and only if no step of it is such a grant |
| Policy.EmployeeIsGranted | backend/accounts/policy.py:286-313 | a grant to an employee that is accepted and works |
| Policy.GrantsGoWithTheRole | backend/accounts/policy.py:363-370 | after a move to anything but officer that person's grants are gone and nobody else's are |
| Tickets.Ticket.constructor | backend/crm/tickets.py:67-101 | an open ticket with one internal entry and both promises fixed from the day's policy or the defaults |
| Tickets.Ticket.Record | backend/core/timeline.py:106-120 | appends one entry and touches nothing else |
| Tickets.Ticket.Apply | backend/core/statusflow.py:67-84 | moves and records exactly a legal move that is not a no-op |
| Tickets.Ticket.ReplyToClient | backend/crm/tickets.py:104-126 | the whole new state after a reply; a blank one is refused |
| Tickets.Ticket.AddInternalNote | backend/crm/tickets.py:129-142 | one internal entry and no clock touched |
| Tickets.Ticket.MoveTicket | backend/crm/tickets.py:145-166 | the whole new state after a move, stamp included; an undeclared move changes nothing |
| Tickets.Ticket.AssignTicket | backend/crm/tickets.py:169-198 | the whole new state after an assignment; handing to the same person changes nothing |
| Tickets.DeclaredMoves | backend/core/statusflow.py:93-112 | the legal moves as a list of targets; waiting never goes straight to resolved |
| Tickets.StepKeepsSound | backend/crm/tickets.py:104-198 | every step keeps the history, the stamps and the visibility in agreement |
| Tickets.EveryRunIsSound | backend/crm/tickets.py:67-198 | in every run the status entries are a chained path of legal moves from open to the current status, resolved_at is set while resolved and null while open, in progress or waiting, and first_response_at is the time of the first reply |
| Tickets.RaisedIsSound | backend/crm/tickets.py:67-101 | a new ticket starts that way |
| Tickets.FirstResponseIsFinal | backend/crm/tickets.py:123-125 | the timeline only grows, and the first response time never changes once set |
| Tickets.AssignmentsReplay | backend/crm/tickets.py:169-198 | in every run the assignment entries chain from nobody to the current assignee |
| Tickets.StepWritesExactly | backend/crm/tickets.py:104-198 | a step leaves one entry at most, of its own instant and words; only a reply stops the response clock, only a move changes status or resolution, and only an assignment the assignee |
| Tickets.ResolutionIsTheMove | backend/crm/tickets.py:145-166 | in every run the resolution stamp is the instant of the first move to resolved since the ticket was last opened; closing keeps it and opening clears it |
| Tickets.RaisedIsUnresolved | backend/crm/tickets.py:67-101 | a new ticket starts that way |
| Tickets.RaisedIsUnassigned | backend/crm/tickets.py:67-101 | a new ticket starts that way |
| Tickets.ClientSeesExactlyTheReplies | backend/crm/tickets.py:201-210 | the client-visible timeline is exactly the replies sent, newest first |
| Tickets.InternalActivityIsInvisible | backend/core/timeline.py:141-154 | two runs with the same replies show the client the same, whatever internal activity is interleaved |
| Tickets.DurationCountsFromTheMove | backend/core/timeline.py:157-175 | time in status counts from the last real move, whatever else happens meanwhile |
| Tickets.NeverMoved | backend/core/timeline.py:157-175 | a ticket that never moved has none |
| Timeline.VisibleIsNewestFirst | backend/core/timeline.py:141-154 | every entry marked for the customer and no other, each once, the one written later first |
| References.PaddedOrder | backend/crm/tickets.py:35-47 | up to four digits text order is number order |
| References.ReferencesAreFreshExactly | backend/crm/tickets.py:29-47 | the next reference is new if and only if at most 9999 have been issued |
| References.LatestExists | backend/crm/tickets.py:35-40 | up to 9999 the last by text is the last issued; once CT-10000 has been it is CT-9999, so CT-10000 comes up again |
| ChangeRequests.Desk.SubmitRequest | backend/employees/change_requests.py:131-186 | the new queue, the earlier pending ask superseded row by row, no value changed; the five refusals in their order; a day that does not exist raises and changes nothing, and a value too long for the queue raises after the earlier ask was superseded |
| ChangeRequests.Desk.Supersede | backend/employees/change_requests.py:170-176 | every pending row of the person and field becomes superseded and no other row moves |
| ChangeRequests.Desk.ApproveRequest | backend/employees/change_requests.py:189-255 | the value written and the row decided, or one of three refusals, or a save that raises because the value does not fit its column; neither changes anything |
| ChangeRequests.Desk.RejectRequest | backend/employees/change_requests.py:258-279 | only a pending request with a reason is rejected |
| ChangeRequests.Desk.WithdrawRequest | backend/employees/change_requests.py:282-297 | only a pending request is withdrawn |
| ChangeRequests.SubmissionAnsweredExactly | backend/employees/change_requests.py:131-186 | the answer to a submission from what was typed, the two lists, the date and what is on record |
| ChangeRequests.SubmissionFilesExactly | backend/employees/change_requests.py:166-186 | the row filed holds what is on record and what is asked, in the filer's name; what waited for the field is superseded, and nothing else moves |
| ChangeRequests.DecisionsAre | backend/employees/change_requests.py:189-297 | what a decision makes of the row, in the decider's name, and the one column an approval writes, a date in the form its column gives back |
| ChangeRequests.WidthsAre | backend/employees/models.py:230-324 | how many characters each column holds |
| Text.StripIsTheMiddle | backend/employees/change_requests.py:145 | what is stripped is white space, at the two ends alone |
| Text.AsciiSpaces | backend/employees/change_requests.py:145 | which characters of the ASCII range count as white space |
| ChangeRequests.RunKeepsInv | backend/employees/change_requests.py:131-297 | every step of every run keeps the four facts below |
| ChangeRequests.EveryRunKeepsTheRecord | backend/employees/change_requests.py:50-297 | in every run at most one request is pending per employee and field; each asks for one of the choices, a real day or text of at most 255 characters, not on record when filed; every approved one fits its column and was not approved by its filer; fields off the list never change, and each field shows its latest approved request or its starting value |
| ChangeRequests.DecidedRowsStay | backend/employees/change_requests.py:205-297 | rows never vanish, keep what was asked, and never change once decided |
| ChangeRequests.OnlyApprovalWrites | backend/employees/change_requests.py:131-138 | filing, rejecting and withdrawing write nothing on the employee's record |
| ChangeRequests.ApprovedExactly | backend/employees/change_requests.py:205-239 | a pending request filed through submit is refused at approval to its filer; anybody else approves it if and only if its value is no longer than its column, a date always; otherwise the approval raises |
| ChangeRequests.FiledIsApprovableExactly | backend/employees/change_requests.py:149-186 | what submission accepts, anybody but the filer approves if and only if the stripped value is no longer than its column |
| ChangeRequests.OverlongIsATrap | backend/employees/change_requests.py:149-151 | a PAN of 31 characters is accepted and waits, and the approval of it raises and changes nothing |
| ChangeRequests.AskIsLostExactly | backend/employees/change_requests.py:170-186 | where an ask waits for the field, none waits after another submission if and only if that one is legal, new and of more than 255 characters |
| ChangeRequests.AskIsLost | backend/employees/change_requests.py:170-186 | an address asked for twice, the second time in 256 characters, for which nothing waits |
| Companies.Clean | backend/companies/models.py:162-185 | terminates on every parent graph, looped elsewhere or not, and each verdict exactly when it is due; an edit passes the walk if and only if its chain of parents comes to an end |
| Companies.SavedExactly | backend/companies/models.py:104-185 | on a group without loops a save goes through if and only if its parent exists, it makes no second primary company and, for an edit, its chain of parents ends; no other company moves |
| Companies.DeletionIs | backend/companies/models.py:104-158 | a deletion takes one company, leaves its children without a parent, and changes nothing else |
| Companies.WalkIsExact | backend/companies/models.py:177-185 | the walk from the new parent ends if and only if the saved company's chain of parents does |
| Companies.CreationIsNeverALoop | backend/companies/models.py:177-185 | on a group without loops a new company never fails the walk |
| Companies.StepKeepsGroup | backend/companies/models.py:104-185 | each accepted save and each deletion keeps the group free of loops with at most one primary company |
| Companies.EveryRunKeepsTheGroup | backend/companies/models.py:104-185 | so does every run of them |

## Left out

- Input and output: HTTP, serializer plumbing, notifications, email, exports, logging, scheduling. Sending a message never changes the tables modelled here.
- Message texts, notes, reasons and the drift remark of an approval; refusals are constructors naming the branch.
- Rows as shared objects: a table is a sequence or map in a field of one class, so two in-memory copies of one row, and a stale copy saved over a newer one, are not captured.
- Database races: every operation is one atomic step.
- The window of a payroll run (backend/payroll/periods.py): any pair of dates stands for it.
- The contents of the Bikram Sambat table: any table of whole years with months of 29 to 32 days stands for it.
- Instants carry a fixed offset from local time; a zone that changes its offset is not modelled.
- Punches.Attendance.OpenSession: whether the policy of backend/attendance/policy.py allows the source is a boolean parameter, and the session's own source and note are dropped.
- Roster.Pick: the tie between equal start dates goes to the earlier row; the database leaves it open. Under the serializer's invariant there is no tie.
- Deleting a shift assignment, which can only remove cover.
- PayrollSummary.GetPeriodAttendance: average_hours_per_day and unpaid_days are expressions over the figures and are not repeated.
- compute_overtime, primary_company, fiscal_year_label, month names and Nepali script: single expressions.
- Regularisation.LockedSummariesAreFrozen: covers the dispute workflow, which is what asks about the lock; punches and direct HR edits of attendance do not ask, and are not part of these runs.
- Budgets.PoolSafeExactly: for a pool that governs some claim on a date that has windows. A pool that governs nothing is never asked; whether what other budgets admit can exceed it depends on their amounts together, and is not stated. Changes of department and of the budgets themselves during a run are not modelled.
- Budgets: a monthly window on the last month of a table raises, and no total is promised there.
- Suspensions.LockHoldsExactly: days do not go back. A PATCH that hands a record to another person is a deletion for the one; for the other, receiving it is not a step. Status changes made outside these services, promotions, transfers and checklists are not steps.
- Tickets.Ticket.constructor: the service policy for the priority is a parameter; the reference is modelled apart, in References.
- Tickets.Ticket.AssignTicket: the entry holds the person, where the code writes the display name.
- Tickets.DurationCountsFromTheMove: entries are ordered by when they were written.
- References.ReferencesAreFreshExactly: references are issued one at a time and none is deleted or written by hand.
- ChangeRequests: how a date is parsed and stored is a parameter, since a date column gives back the day in its own form; "shows its latest approved request" is up to that form. Direct edits of an employee by HR are not steps. Text a database cannot hold at any length, such as a NUL character, is not told apart.
- Column widths other than those of the fields that can be requested and of the request's own value; a text too long for any other column raises in the database.
- Decimal precision limits: amounts are exact.
- Companies: the fields that do not take part in the group structure.
