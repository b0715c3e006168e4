# Attendance portal core: absentee job, holiday calendar, approval rules

This project models the parts of the employee attendance portal that decide
something. Everything around them is CRUD glue and is left out.

- **The absentee auto-marking job.** It has two variants: the cron HTTP handler
  `api/mark-absentees.js` and the command-line script
  `scripts/mark_absentees.js`. Both variants do the following, in Dafny module
  `MarkAbsentees`, with the script's exit codes in `MarkAbsenteesScript`:
  - compute "today" in India Standard Time as a `YYYY-MM-DD` key and a weekday
    (module `CivilTime`);
  - skip the day when it is a holiday: an explicit `holidays` row decides,
    otherwise only Sunday is a holiday;
  - otherwise batch-insert one fixed-shape "absent" record for every active
    employee with no attendance record for today.
- **The admin calendar page** (`src/pages/admin/AdminCalendar.tsx`, module
  `AdminCalendar`):
  - the month grid;
  - the page's own holiday rule: a row decides, otherwise both Saturday and
    Sunday are holidays;
  - the form seeded by clicking a day;
  - the insert / update / no-write decision of saving that form;
  - the guarded event save.
- **The attendance review page** (`src/pages/admin/AttendanceManagement.tsx`,
  module `AttendanceManagement`):
  - the Pending / Approved / Denied states and the actions that move a record
    between them;
  - the work-mode rule of the edit form;
  - the email filter of the listing.
- **The Saturday cleanup script** (`scripts/remove_saturday_holidays.js`,
  module `RemoveSaturdayHolidays`). It deletes every holiday row dated on a
  Saturday.
- **How the three holiday rules relate** (module `HolidayPolicies`). The job
  and the calendar disagree exactly on Saturdays without a row. After the
  cleanup, every Saturday is such a day.

## The backend

The hosted backend is the class `Records.RecordsStore`:

- Its tables are sequences of rows. Each row carries the primary key the store
  assigned.
- Each request kind succeeds or fails as the store's `failing` set says.
- `arrayReplies` says whether a batch insert answers with the created rows.
- Every request is appended to `log`, so a method can promise which requests it
  did not send.
- The store keeps these keys unique: profile ids, the (employee, date) pair of
  an attendance record, and the date of a holiday row. An insert that would
  duplicate one of them is answered with an error. The two keys other than the
  profile id are an assumed constraint: the application's schema declares
  neither (see "## Left out").

Dates in the tables are the `YYYY-MM-DD` text the backend returns, because the
application compares that text. `CivilTime.DateKeyRoundTrip` and
`CivilTime.DateKeyInjective` show that comparing keys compares dates.

## What the proofs establish

- **Holiday rule of the job.** An explicit row's flag decides in both
  directions. Without a row, exactly Sundays are holidays.
- **The run.**
  - `MarkForToday` ends with the outcome `RunOutcome` computes.
  - It sends exactly the requests `RequestsFor` lists. A holiday sends no
    roster or attendance read. A failed read sends no insert. An empty batch
    sends no insert.
  - The new attendance table is the old one plus exactly the drafts.
  - The drafts go to exactly the active employees with no record for the date,
    in roster order, and have the fixed absent shape.
  - On a store whose keys are unique, the drafts never clash with existing
    records.
  - A second run on the same IST day, after a run that inserted rows, reports
    nothing to do.
    Even if the backend rejects other requests on the second run, it inserts
    nothing and fails only on a rejected read.
  - The HTTP and script variants end alike on the same store.
- **The calendar.**
  - The grid puts each day in its weekday's column.
  - The seeded checkbox shows the day's effective status.
  - A successful save from a current snapshot gives the day the status the
    form asked for and leaves every other date's row alone.
  - Saving an untouched form keeps the status.
- **The review page.**
  - Approve leads to Approved and Reject to Denied, and neither changes the
    status.
  - An edit always approves, and keeps a work mode exactly on working statuses.
  - Review actions are offered only for Pending records.
  - A blank filter keeps every record.
- **The cleanup.**
  - It selects exactly the Saturday-dated rows, whatever their flag.
  - It keeps every other row.
  - It reports the number of rows it removed.

## Model

| member | source | states |
|---|---|---|
| CivilTime.DateOfDay | api/mark-absentees.js:16-18 | the civil date read in UTC fields from a day count is a valid date whose day number is that count |
| CivilTime.DayNumberInjective | api/mark-absentees.js:16-18 | two valid dates with the same day number are equal, so the UTC fields of an instant are unique |
| CivilTime.DateOfDayNumber | api/mark-absentees.js:16-18 | converting a date to its day number and back gives the same date |
| CivilTime.Weekday | api/mark-absentees.js:19 | the day-of-week of a date is in 0..6 |
| CivilTime.WeekdayInMonth | src/pages/admin/AdminCalendar.tsx:84-87 | day d of a month falls (d - 1) weekdays after the 1st, modulo 7 |
| CivilTime.UtcDate | api/mark-absentees.js:16-18 | the UTC civil date of an instant is the day whose 24 hours contain it |
| CivilTime.UtcWeekday | api/mark-absentees.js:19 | getUTCDay of an instant is the weekday of its UTC civil date |
| CivilTime.IstDate | api/mark-absentees.js:15 | the IST date is the day containing the instant shifted by 19 800 000 ms (5 h 30 min) |
| CivilTime.TodayInIst | api/mark-absentees.js:12-20 | the job's date key is the `YYYY-MM-DD` text of the IST civil date of now and parses back to it, and its day-of-week is that date's weekday |
| CivilTime.NatToDecimal | api/mark-absentees.js:17-18 | String(n) is a non-empty run of digits, one digit long exactly below 10 |
| CivilTime.DecimalRoundTrip | api/mark-absentees.js:16-19 | reading back the decimal text of n gives n |
| CivilTime.IntRoundTrip | api/mark-absentees.js:16-19 | reading back String(year), sign included, gives the year |
| CivilTime.Pad2 | api/mark-absentees.js:17-18 | padStart(2, '0') gives two digits whose value is the number |
| CivilTime.ParseDateKey | scripts/remove_saturday_holidays.js:18 | a key that parses is a valid date |
| CivilTime.DateKeyRoundTrip | api/mark-absentees.js:19 | a `YYYY-MM-DD` key parses back to the date it was built from |
| CivilTime.DateKeyInjective | api/mark-absentees.js:19 | different dates have different keys, so comparing keys compares dates |
| Records.ActiveEmployees | api/mark-absentees.js:45 | a profile is returned exactly when it is in the table and is an active employee |
| Records.AttendedOn | api/mark-absentees.js:58 | an id is returned exactly when some attendance record for the date carries it |
| Records.HolidayFlagsOn | api/mark-absentees.js:24 | the answer is empty exactly when no row has the date; otherwise its first flag is the flag of a row on that date |
| Records.FindOnFirstMatch | src/pages/admin/AdminCalendar.tsx:138 | `find` by date returns nothing exactly when no row has the date, and otherwise the first row that has it |
| Records.UpdateWhere | src/pages/admin/AdminCalendar.tsx:148-155 | an update by id rewrites the rows with that id and leaves every other row as it was |
| Records.DeleteWhere | scripts/remove_saturday_holidays.js:27 | a delete by ids keeps exactly the rows whose id is not listed |
| Records.DeleteKeepsOrder | scripts/remove_saturday_holidays.js:27 | a delete keeps the table's ids increasing and below the next id |
| Records.HolidayDeleteKeepsDatesUnique | scripts/remove_saturday_holidays.js:27 | a delete keeps at most one holiday row per date |
| Records.RecordsStore.ReadHolidayFlags | api/mark-absentees.js:22-33 | the holiday lookup logs one read and answers the date's flags, or the read's error |
| Records.RecordsStore.ReadActiveEmployees | api/mark-absentees.js:44-55 | the roster read logs one read and answers the active employees, or the read's error |
| Records.RecordsStore.ReadAttendedIds | api/mark-absentees.js:57-68 | the attendance read logs one read and answers the ids recorded for the date, or the read's error |
| Records.RecordsStore.InsertAttendance | api/mark-absentees.js:72-84 | a batch insert adds all rows with fresh ids or none; it fails when rejected or when a (employee, date) key would repeat |
| Records.RecordsStore.UpdateAttendance | src/pages/admin/AttendanceManagement.tsx:64-71 | an update by id applies the patch to that record, keeps the table's keys, and changes nothing on failure |
| Records.RecordsStore.ReadAllHolidays | scripts/remove_saturday_holidays.js:14-15 | reading the holidays table answers all its rows, or the read's error |
| Records.RecordsStore.InsertHoliday | src/pages/admin/AdminCalendar.tsx:159-166 | a holiday insert appends one row; it fails when rejected or when the date already has a row |
| Records.RecordsStore.UpdateHoliday | src/pages/admin/AdminCalendar.tsx:148-157 | a holiday update by id rewrites that row, keeps every date, and changes nothing on failure |
| Records.RecordsStore.DeleteHolidays | scripts/remove_saturday_holidays.js:27-28 | the delete removes exactly the listed ids and keeps ids ordered and dates unique |
| Records.RecordsStore.InsertEvent | src/pages/admin/AdminCalendar.tsx:227-234 | an event insert appends one row with a fresh id, or changes nothing on failure |
| Records.RecordsStore.UpdateEvent | src/pages/admin/AdminCalendar.tsx:216-224 | an event update by id applies the rename to that row, or changes nothing on failure |
| MarkAbsentees.HolidayRule | api/mark-absentees.js:22-42 | an explicit row's flag decides in either direction; without a row, the day is a holiday exactly when it is a Sunday |
| MarkAbsentees.ProfileIds | api/mark-absentees.js:111 | the ids of the roster, position by position |
| MarkAbsentees.EmployeeIdsOf | api/mark-absentees.js:113 | the employee ids of the drafts, position by position |
| MarkAbsentees.Resolve | api/mark-absentees.js:109-123 | at most one draft per roster entry, each with the fixed shape: absent, the auto reason, no work mode or times, approved, no approver |
| MarkAbsentees.ResolveMembers | api/mark-absentees.js:109-111 | an employee gets a draft exactly when it is on the roster and not in the attended set |
| MarkAbsentees.ResolveKeepsRosterOrder | api/mark-absentees.js:110-111 | the drafts follow the roster's order |
| MarkAbsentees.SubsequenceOfTail | api/mark-absentees.js:110-111 | a subsequence of a sequence's tail is a subsequence of the sequence |
| MarkAbsentees.SubsequenceDropHead | api/mark-absentees.js:110-111 | dropping the head of a subsequence leaves a subsequence |
| MarkAbsentees.ActiveEmployeesIsFilter | api/mark-absentees.js:45 | the roster query keeps the active employees in table order, each as often as the table lists it, and nothing else |
| MarkAbsentees.NothingMissing | api/mark-absentees.js:125-127 | an empty roster, or a roster whose every id is attended, yields no drafts |
| MarkAbsentees.ActiveEmployeesUnique | api/mark-absentees.js:45 | filtering a roster with unique ids keeps the ids unique |
| MarkAbsentees.ResolveIdsDistinct | api/mark-absentees.js:110-123 | distinct roster ids give drafts with distinct (employee, date) keys |
| MarkAbsentees.DraftsNeverClash | api/mark-absentees.js:109-123 | the drafts added to the attendance table never repeat an (employee, date) key |
| MarkAbsentees.InsertFailsOnInsert | api/mark-absentees.js:84 | a failed batch insert reports the insert request |
| MarkAbsentees.RunNeverDuplicates | api/mark-absentees.js:98-134 | on a store with unique keys, a run fails only when one of its requests is rejected |
| MarkAbsentees.SecondRunInsertsNothing | api/mark-absentees.js:109-127 | after a run's drafts are written, a second run on the same date finds everyone recorded and ends with nothing to do |
| MarkAbsentees.SecondRunAfterHealthChange | api/mark-absentees.js:98-134 | whatever requests the backend rejects on the second run, it inserts nothing: it ends with nothing to do or with a rejected read |
| MarkAbsentees.NoneLeftAfterWrite | api/mark-absentees.js:109-111 | once a run's drafts are written, the same date has no drafts left |
| MarkAbsentees.NoDraftsNothingToDo | api/mark-absentees.js:125-127 | a working day whose reads succeed and that has no drafts ends with nothing to do |
| MarkAbsentees.RecordedAfterWrite | api/mark-absentees.js:109 | an employee recorded before the write, or written by it, is in the attended set afterwards |
| MarkAbsentees.InsertAbsentees | api/mark-absentees.js:70-86 | an empty batch sends nothing and counts 0; otherwise one insert, counted by the returned array's length or as 1; a failure changes nothing |
| MarkAbsentees.ReadDrafts | api/mark-absentees.js:107-123 | both snapshots are read, and the answer is the first read error or the resolved drafts |
| MarkAbsentees.MarkWorkingDay | api/mark-absentees.js:107-130 | a working-day run ends with the outcome of the reads, the resolution and the guarded write; it logs exactly those requests and appends exactly the drafts on success |
| MarkAbsentees.RequestsAfterReads | api/mark-absentees.js:107 | a run that ends at the reads has sent the two reads and nothing more |
| MarkAbsentees.RequestsAfterInsert | api/mark-absentees.js:129 | a run that sent the batch insert has sent the two reads and the insert |
| MarkAbsentees.RequestsAfterHoliday | api/mark-absentees.js:102-105 | a holiday or a failed holiday lookup sends nothing after the lookup |
| MarkAbsentees.MarkForToday | api/mark-absentees.js:99-134 | a run ends with RunOutcome, sends exactly RequestsFor (no roster read on a holiday, no insert after a failed read), and writes only the drafts |
| MarkAbsentees.ReplyReportsOutcome | api/mark-absentees.js:104-133 | the reply is 200 exactly when the run did not fail, reporting the inserted count or 0; a failure is a 500 with the error |
| MarkAbsentees.Handler | api/mark-absentees.js:88-135 | a wrong secret gives 401 with no request sent; otherwise the reply of the run's outcome, with the run's requests and writes |
| MarkAbsentees.HandlerTwice | api/mark-absentees.js:109-130 | when a first invocation inserted rows, a second on the same IST day replies 200 with nothing inserted |
| MarkAbsenteesScript.VariantsAgree | scripts/mark_absentees.js:88-122 | the script exits 0 exactly when the handler would reply 200, and 1 exactly when it would reply 500 |
| MarkAbsenteesScript.RunScript | scripts/mark_absentees.js:7-123 | missing configuration exits 1 with no request; otherwise the exit code of the run's outcome, with the same requests and writes as the handler |
| MarkAbsenteesScript.BothVariants | scripts/mark_absentees.js:94-118 | on identical stores the script and an authorized handler write the same rows and end alike |
| JsText.TrimStartCut | src/pages/admin/AttendanceManagement.tsx:181 | the start of the trimmed text: every character before it is whitespace, and the one at it is not |
| JsText.TrimEndCut | src/pages/admin/AttendanceManagement.tsx:181 | the end of the trimmed text: every character from it on is whitespace, and the one before it is not |
| JsText.TrimIsSlice | src/pages/admin/AttendanceManagement.tsx:181 | trim removes a whitespace margin from each end and nothing else, leaving non-whitespace at both ends |
| JsText.BlankIffAllWhitespace | src/pages/admin/AdminCalendar.tsx:208 | the trimmed text is empty exactly when every character is whitespace |
| JsText.Lower | src/pages/admin/AttendanceManagement.tsx:182-183 | the model's ASCII lower-casing maps each character on its own and keeps the length |
| JsText.LowerIdempotent | src/pages/admin/AttendanceManagement.tsx:182-183 | lower-casing twice is lower-casing once |
| JsText.Includes | src/pages/admin/AttendanceManagement.tsx:183 | includes is true exactly when the text occurs at some position |
| AttendanceManagement.ApprovalLabel | src/pages/admin/AttendanceManagement.tsx:297 | Approved exactly when approved, Denied exactly when not approved but an approver is set, Pending exactly when neither |
| AttendanceManagement.ReviewOnlyWhenPending | src/pages/admin/AttendanceManagement.tsx:308 | approve and reject are offered exactly for Pending records |
| AttendanceManagement.ReviewOutcomes | src/pages/admin/AttendanceManagement.tsx:62-96 | approve leads to Approved and reject to Denied, neither is offered again, and reject changes only the approval fields |
| AttendanceManagement.EditOutcome | src/pages/admin/AttendanceManagement.tsx:115-129 | an edit leaves the record Approved by the admin, with a work mode exactly for present/half_day (physical by default), employee, date and times kept |
| AttendanceManagement.ChangeStatus | src/pages/admin/AttendanceManagement.tsx:351-361 | choosing on_leave/absent clears the work mode, choosing present/half_day keeps it, and nothing else changes |
| AttendanceManagement.ChangeThenSave | src/pages/admin/AttendanceManagement.tsx:115-129 | after a status change, the save sends a work mode exactly when the final status is a working one |
| AttendanceManagement.FilterByEmail | src/pages/admin/AttendanceManagement.tsx:180-184 | the filter keeps exactly the records that match, never adding any |
| AttendanceManagement.BlankFilterKeepsAll | src/pages/admin/AttendanceManagement.tsx:181 | a blank or whitespace-only filter keeps every record, in order |
| AttendanceManagement.NonBlankFilter | src/pages/admin/AttendanceManagement.tsx:182-183 | a non-blank filter keeps a record exactly when its lower-cased filter occurs in the lower-cased email |
| AttendanceManagement.SpacedFilterMatchesNoPlainEmail | src/pages/admin/AttendanceManagement.tsx:181-183 | since only the blank test trims, a non-blank filter with a space keeps no record whose email has none |
| AttendanceManagement.AttendancePage.Approve | src/pages/admin/AttendanceManagement.tsx:62-78 | one update that approves the record by the admin, or no change on failure |
| AttendanceManagement.AttendancePage.Reject | src/pages/admin/AttendanceManagement.tsx:80-103 | without confirmation no request; otherwise one update that denies the record, or no change on failure |
| AttendanceManagement.AttendancePage.Edit | src/pages/admin/AttendanceManagement.tsx:105-108 | the dialog opens on the record |
| AttendanceManagement.AttendancePage.SelectStatus | src/pages/admin/AttendanceManagement.tsx:351-363 | the open record's status changes under the work-mode rule |
| AttendanceManagement.AttendancePage.UpdateRecord | src/pages/admin/AttendanceManagement.tsx:110-143 | with no open record nothing happens; otherwise one update with the edit payload, and the dialog closes exactly on success |
| AttendanceManagement.EditedRows | src/pages/admin/AttendanceManagement.tsx:131-134 | after an edit by id, that record is Approved with a work mode exactly on a working status, and every other record is unchanged |
| RemoveSaturdayHolidays.SaturdayIds | scripts/remove_saturday_holidays.js:17-20 | an id is selected exactly when its row is dated on a Saturday, whatever its flag |
| RemoveSaturdayHolidays.SelectsExactlySaturdays | scripts/remove_saturday_holidays.js:18-19 | a date's key is selected exactly when the date is a Saturday |
| RemoveSaturdayHolidays.DeleteKeepsNonSaturdays | scripts/remove_saturday_holidays.js:27 | the delete keeps exactly the rows that are not Saturday-dated |
| RemoveSaturdayHolidays.DeletedCount | scripts/remove_saturday_holidays.js:30 | the reported count is the number of rows the delete removed |
| RemoveSaturdayHolidays.DeleteIgnoresAbsentId | scripts/remove_saturday_holidays.js:27 | listing an id that no row has does not change the delete |
| RemoveSaturdayHolidays.NoSaturdaysNoIds | scripts/remove_saturday_holidays.js:22-25 | a table with no Saturday-dated row selects nothing |
| RemoveSaturdayHolidays.RunRemoveSaturdays | scripts/remove_saturday_holidays.js:2-35 | missing configuration or a failed read exits 1; no Saturday rows exits 0 without a delete; otherwise one delete of exactly the Saturday rows, exiting 0 with their count or 1 on failure |
| RemoveSaturdayHolidays.CleanupResult | scripts/remove_saturday_holidays.js:17-28 | after the cleanup no Saturday row is left and every other row remains |
| HolidayPolicies.CalendarAndJobDisagreeOnBareSaturdays | src/pages/admin/AdminCalendar.tsx:340-343 | the calendar and the job disagree about a day exactly when it is a Saturday without a row, which the calendar shows as a holiday |
| HolidayPolicies.AfterCleanupEverySaturdayDisagrees | scripts/remove_saturday_holidays.js:17-27 | after the cleanup every Saturday has no row: the calendar shows a holiday while the job marks absentees |
| HolidayPolicies.SundaysAgree | api/mark-absentees.js:39-40 | on a Sunday the calendar and the job agree |
| AdminCalendar.DaysInMonth | src/pages/admin/AdminCalendar.tsx:85-86 | a month has 28 to 31 days |
| AdminCalendar.DaysInMonthEndsTheMonth | src/pages/admin/AdminCalendar.tsx:85-86 | day 0 of the next month, the day before its 1st, is the last day of this month, and that day is the month's last valid day |
| AdminCalendar.StartingDayOfWeek | src/pages/admin/AdminCalendar.tsx:84-87 | the weekday of the 1st is in 0..6 |
| AdminCalendar.GridLayout | src/pages/admin/AdminCalendar.tsx:277-279 | the grid is startingDayOfWeek blanks followed by days 1 to daysInMonth |
| AdminCalendar.GridColumnIsWeekday | src/pages/admin/AdminCalendar.tsx:328-332 | every day has exactly one cell, and its column is the day's weekday |
| AdminCalendar.CalendarKeyNamesTheDay | src/pages/admin/AdminCalendar.tsx:335 | a day's key reads back as that date, and two days share a key exactly when they are the same day |
| AdminCalendar.DayOfCalendarKey | src/pages/admin/AdminCalendar.tsx:139 | the number after the last dash of a day's key is that day |
| AdminCalendar.WeekendNameNamesTheDay | src/pages/admin/AdminCalendar.tsx:144 | a weekend day's default name is Sunday exactly on Sundays and Saturday exactly on Saturdays |
| AdminCalendar.DefaultNameIsGridName | src/pages/admin/AdminCalendar.tsx:139-145 | for a day of the shown month the save's weekend test is the grid's, and its default name is the weekday's name exactly on weekend days |
| AdminCalendar.EffectiveHolidayRule | src/pages/admin/AdminCalendar.tsx:340-343 | a row for the date decides the status; only a date without one falls back to the weekend test |
| AdminCalendar.DisplayBadge | src/pages/admin/AdminCalendar.tsx:344-348 | the dot is drawn exactly when the day is a holiday, and a weekend day without a row is labelled with its weekday's name |
| AdminCalendar.FindFlagged | src/pages/admin/AdminCalendar.tsx:96 | nothing is found exactly when no row has both the date and the flag; otherwise a row with both |
| AdminCalendar.SeedShowsEffectiveStatus | src/pages/admin/AdminCalendar.tsx:116-124 | the opened form's checkbox shows the effective status, with the holiday row's name and description |
| AdminCalendar.SaveDecidesTheDay | src/pages/admin/AdminCalendar.tsx:138-195 | a save leaves for the date the row the form describes (or none on a bare weekday), so the status becomes the form's flag, and no other date changes |
| AdminCalendar.SaveUntouchedKeepsStatus | src/pages/admin/AdminCalendar.tsx:112-195 | opening a day and saving the form untouched keeps the day's status |
| AdminCalendar.FindOnAppend | src/pages/admin/AdminCalendar.tsx:159-164 | appending a row changes the first match only for a date that had none |
| AdminCalendar.FindOnUpdate | src/pages/admin/AdminCalendar.tsx:148-155 | an update by id that keeps dates changes only the matched row with that id |
| AdminCalendar.SameIdSameDate | src/pages/admin/AdminCalendar.tsx:155 | in a keyed table two first matches with the same id are for the same date |
| AdminCalendar.MonthRowsAgree | src/pages/admin/AdminCalendar.tsx:44-49 | for every day of the month the loaded snapshot finds the row the backend holds |
| AdminCalendar.MonthRowsKeepDatesUnique | src/pages/admin/AdminCalendar.tsx:44-52 | the snapshot of a table with unique dates has unique dates |
| AdminCalendar.MonthRowsKeepOnlyRows | src/pages/admin/AdminCalendar.tsx:44-52 | the snapshot holds only rows of the table |
| AdminCalendar.DescriptionRoundTrip | src/pages/admin/AdminCalendar.tsx:264 | loading an event's description and saving it back keeps it, except that an empty one becomes none |
| AdminCalendar.EventsAfterKeepDays | src/pages/admin/AdminCalendar.tsx:214-234 | a rename keeps every event's id, day and author; a new event is appended on the selected day |
| AdminCalendar.WriteEvent | src/pages/admin/AdminCalendar.tsx:213-235 | one update of the edited event or one insert of a new one, or no change on failure |
| AdminCalendar.WriteHoliday | src/pages/admin/AdminCalendar.tsx:141-195 | the write the save plans; from the backend's own row, with writes accepted, it succeeds, sets the day's status to the form's flag and leaves other dates alone |
| AdminCalendar.CalendarPage.LoadHolidays | src/pages/admin/AdminCalendar.tsx:37-58 | on success the snapshot is the month's rows, on failure it stays; the spinner stops either way |
| AdminCalendar.CalendarPage.DateClick | src/pages/admin/AdminCalendar.tsx:112-132 | the day is selected and the form opens seeded with the day's effective status |
| AdminCalendar.CalendarPage.SaveHoliday | src/pages/admin/AdminCalendar.tsx:134-205 | no selection means no request; otherwise the planned write, then on success close, deselect and reload; a save from a current snapshot gives the day the form's status |
| AdminCalendar.CalendarPage.EditEvent | src/pages/admin/AdminCalendar.tsx:260-267 | the event is loaded into the form |
| AdminCalendar.CalendarPage.SaveEvent | src/pages/admin/AdminCalendar.tsx:207-244 | no selection or a blank name means no request; otherwise one update or insert, and the form clears on success; a saved name has a non-whitespace character |

## Left out

- HTTP, `fetch`, the backend client, REST URLs, headers and JSON bodies. Error
  messages are not modelled as text: a failure carries the request it failed
  on.
- Environment and configuration loading. A missing URL or key is the boolean
  `configured` in `RunScript` and `RunRemoveSaturdays`. The cron secret is a
  parameter of `Handler`, with the empty string standing for "not set".
- MarkAbsentees.Handler: it models a configured deployment. Without a URL or
  key the handler only logs the problem at load time and carries on; every
  request then fails, which the model expresses by putting the reads in the
  store's `failing` set, giving the same 500 after the secret check.
- `Promise.all` runs the two snapshot reads in parallel. The model runs them
  one after the other. When both fail, the roster's error is reported. Two
  concurrent job runs racing on the same date are not modelled; the
  (employee, date) unique key of the store stands for an assumed constraint
  that would stop the second insert.
- The clock. `now` is the integer `nowMs`, and `approved_at` timestamps are an
  opaque parameter `at`.
- MarkAbsentees.Resolve, MarkAbsentees.InsertAbsentees: every draft of a batch
  carries the one timestamp `at`. The job computes `new Date().toISOString()`
  once per row, so rows of one batch can differ by a millisecond.
- Records.RecordsStore.InsertAttendance, Records.RecordsStore.InsertHoliday,
  Records.HolidayDatesUnique, Records.AttendanceKeysUnique: uniqueness of an
  attendance record's (employee_id, date) and of a holiday row's date is an
  assumption about a schema the application does not show. Its type
  declarations list no holidays table and no unique keys, and no write uses an
  upsert. Without these keys:
  - the stores accept duplicate rows. A save from a stale calendar snapshot
    then adds a second row for the date, where the model answers
    `UniqueViolation`;
  - a second job run racing the first can insert a second absent row for an
    employee;
  - with two rows for one date, the job's `rows[0]` depends on the table's
    order and may disagree with the calendar's `find` of a flagged row. The
    model proves nothing for that case: `HolidayRule` and
    `CalendarAndJobDisagreeOnBareSaturdays` require `HolidayDatesUnique`.
- RemoveSaturdayHolidays.RunRemoveSaturdays, RemoveSaturdayHolidays.CleanupResult:
  the read `select('id,date')` has no range. The model returns the whole table,
  but the backend's row cap can cut the reply short. Saturday rows past the cap
  would then survive the cleanup, so "no Saturday row is left" holds only when
  the table fits in one reply.
- The host time zone.
  - `new Date(key).getDay()` (calendar default name and badge) and
    `new Date(date + 'T00:00:00').getDay()` (cleanup) read the date's own
    weekday. Hosts west of UTC would see the previous day for the first of
    these.
  - JavaScript's `Date` range and its two-digit-year rule are not modelled.
  - Negative years are not modelled on the calendar page: for a key such as
    `-5-03-09`, `split('-')[2]` is the month part, while `DayOfKey` reads the
    day part. Month navigation cannot reach such a year.
- AdminCalendar.KeyIsWeekend: it reads the day number after the last dash, and
  is false for a day outside the shown month, where JavaScript's `Date` would
  roll over into a neighbouring month. Keys the page builds are always days of
  the shown month, where the two agree for non-negative years
  (`DefaultNameIsGridName`).
- The shown month is fixed per page object. Month navigation changes only the
  query's range, and every month is covered by the fixed-month model.
- `loadHolidays` is not awaited after a save. The model reloads before
  returning.
- `order('date')` is left out: the snapshot keeps the table's order, and with
  unique dates `find` does not depend on order.
- `loadEvents`, `getEventsForDate`, event deletion, `loadAttendance`, the CSV
  export, the dashboard statistics, rendering, CSS and modals are display or
  plain CRUD paths with no rule to state.
- `profile?.id` is assumed present: the admin id is a parameter. A missing
  profile would send no approver.
- JsText.Lower: the model's `Lower` lower-cases only ASCII letters and so keeps
  the length. JavaScript's `toLowerCase` also maps other Unicode letters and can
  change the length (for example 'İ').
- Row-level security and the anonymous key of the cleanup script are not
  modelled.
- `console` output is not modelled. The exit status and HTTP reply carry the
  outcome.
