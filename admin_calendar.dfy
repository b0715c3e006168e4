/**
  The admin calendar page: a month grid in which every day is a holiday or a
  working day. A `holidays` row for the date decides; without one, Saturdays
  and Sundays are holidays. Clicking a day opens a form seeded from that
  rule; saving it writes the one row that makes the day's status what the
  form says. The same dialog adds and renames events.

  Months are zero-based (`month0`), as in JavaScript's `getMonth`.
 */
module AdminCalendar {
  import opened Wrappers
  import opened CivilTime
  import opened Records
  import opened JsText

  // ---------------------------------------------------------------------
  // The month grid
  // ---------------------------------------------------------------------

  /** `new Date(year, month + 1, 0).getDate()`: the last day of the month. */
  function DaysInMonth(year: int, month0: int): (n: int)
    requires 0 <= month0 < 12
    ensures 28 <= n <= 31
  {
    MonthLength(year, month0 + 1)
  }

  /** The first day of the month after month0 (January of the next year
      after December). */
  function NextMonthFirst(year: int, month0: int): Date
    requires 0 <= month0 < 12
  {
    if month0 < 11 then Date(year, month0 + 2, 1) else Date(year + 1, 1, 1)
  }

  /** Day 0 of the next month is the last day of this one: the day before
      the next month's 1st is day DaysInMonth of month0, and the month has
      no later day. */
  lemma {:induction false} DaysInMonthEndsTheMonth(year: int, month0: int)
    requires 0 <= month0 < 12
    ensures ValidDate(Date(year, month0 + 1, DaysInMonth(year, month0)))
    ensures !ValidDate(Date(year, month0 + 1, DaysInMonth(year, month0) + 1))
    ensures DateOfDay(DayNumber(NextMonthFirst(year, month0)) - 1)
            == Date(year, month0 + 1, DaysInMonth(year, month0))
  {
    var last := Date(year, month0 + 1, DaysInMonth(year, month0));
    DaysBeforeNextMonth(year, month0 + 1);
    if month0 == 11 {
      DaysBeforeNextYear(year);
    }
    assert DayNumber(NextMonthFirst(year, month0)) - 1 == DayNumber(last);
    DateOfDayNumber(last);
  }

  /** `new Date(year, month, 1).getDay()`. */
  function StartingDayOfWeek(year: int, month0: int): (w: int)
    requires 0 <= month0 < 12
    ensures 0 <= w < 7
  {
    Weekday(Date(year, month0 + 1, 1))
  }

  /** The cells of the seven-column grid: blanks up to the first day's
      weekday, then the days 1 to DaysInMonth. */
  function MonthGrid(year: int, month0: int): seq<Option<int>>
    requires 0 <= month0 < 12
  {
    seq(StartingDayOfWeek(year, month0), _ => None)
      + seq(DaysInMonth(year, month0), i => Some(i + 1))
  }

  /** Every day of the month has exactly one cell, and that cell's column is
      the day's weekday (column 0 is Sunday). */
  lemma GridColumnIsWeekday(year: int, month0: int, day: int)
    requires 0 <= month0 < 12 && 1 <= day <= DaysInMonth(year, month0)
    ensures var cells, i := MonthGrid(year, month0), StartingDayOfWeek(year, month0) + day - 1;
      && 0 <= i < |cells| && cells[i] == Some(day)
      && (forall j :: 0 <= j < |cells| && cells[j] == Some(day) ==> j == i)
      && i % 7 == Weekday(Date(year, month0 + 1, day))
  {
    GridLayout(year, month0);
    WeekdayInMonth(year, month0 + 1, day);
  }

  /** The grid is the leading blanks followed by the days in order: after
      the blanks, cell j holds day j - start + 1. */
  lemma GridLayout(year: int, month0: int)
    requires 0 <= month0 < 12
    ensures |MonthGrid(year, month0)| == StartingDayOfWeek(year, month0) + DaysInMonth(year, month0)
    ensures forall j :: 0 <= j < |MonthGrid(year, month0)| ==>
      MonthGrid(year, month0)[j] == if j < StartingDayOfWeek(year, month0) then None
                                    else Some(j - StartingDayOfWeek(year, month0) + 1)
  { }

  /** `${year}-${pad2(month + 1)}-${pad2(day)}`: the key of a day of the
      shown month. */
  function CalendarKey(year: int, month0: int, day: int): string
    requires 0 <= month0 < 12 && 1 <= day <= DaysInMonth(year, month0)
  {
    DateKey(Date(year, month0 + 1, day))
  }

  /** A key names the day it was built from: it reads back as that date,
      so different days of the month have different keys. */
  lemma CalendarKeyNamesTheDay(year: int, month0: int, day: int, other: int)
    requires 0 <= month0 < 12 && 1 <= day <= DaysInMonth(year, month0) && 1 <= other <= DaysInMonth(year, month0)
    ensures ParseDateKey(CalendarKey(year, month0, day)) == Some(Date(year, month0 + 1, day))
    ensures CalendarKey(year, month0, day) == CalendarKey(year, month0, other) <==> day == other
  {
    DateKeyRoundTrip(Date(year, month0 + 1, day));
    DateKeyRoundTrip(Date(year, month0 + 1, other));
  }

  predicate WeekendWeekday(w: int) {
    w == 0 || w == 6
  }

  /** `isWeekend(day)`: the day of the shown month is a Sunday or a Saturday. */
  predicate IsWeekend(year: int, month0: int, day: int)
    requires 0 <= month0 < 12 && 1 <= day <= DaysInMonth(year, month0)
  {
    WeekendWeekday(Weekday(Date(year, month0 + 1, day)))
  }

  /** The key is the key of a day of the shown month: what the month query's
      range `year-MM-01` to `year-MM-<last day>` selects. */
  predicate InShownMonth(key: string, year: int, month0: int) {
    0 <= month0 < 12 && exists day :: 1 <= day <= DaysInMonth(year, month0) && key == CalendarKey(year, month0, day)
  }

  /** `parseInt(key.split('-')[2])`: the number in the key's day part. */
  function DayOfKey(key: string): int {
    if |key| >= 2 && AllDigits(key[|key| - 2..]) then DecimalValue(key[|key| - 2..]) else 0
  }

  /** The day part of a calendar key is the day it was built from. */
  lemma DayOfCalendarKey(year: int, month0: int, day: int)
    requires 0 <= month0 < 12 && 1 <= day <= DaysInMonth(year, month0)
    ensures DayOfKey(CalendarKey(year, month0, day)) == day
  {
    var key := CalendarKey(year, month0, day);
    DateKeyRoundTrip(Date(year, month0 + 1, day));
    assert ParseDateKey(key) == Some(Date(year, month0 + 1, DecimalValue(key[|key| - 2..])));
  }

  /** `isWeekend(parseInt(key.split('-')[2]))`: the weekend test of the day
      the key names in the shown month. */
  predicate KeyIsWeekend(key: string, year: int, month0: int) {
    0 <= month0 < 12 && 1 <= DayOfKey(key) <= DaysInMonth(year, month0) && IsWeekend(year, month0, DayOfKey(key))
  }

  /** `new Date(key).getDay() === 0 ? 'Sunday' : 'Saturday'`; text that is
      not a date gives an invalid date, which is not a Sunday. */
  function WeekendName(key: string): string {
    match ParseDateKey(key)
    case Some(d) => if Weekday(d) == 0 then "Sunday" else "Saturday"
    case None => "Saturday"
  }

  /** `defaultName` of `handleSaveHoliday`: the weekday's name for a weekend
      day, else no name. */
  function KeyDefaultName(key: string, year: int, month0: int): Option<string> {
    if KeyIsWeekend(key, year, month0) then Some(WeekendName(key)) else None
  }

  /** The default name of a weekend day is the name of its weekday. */
  lemma WeekendNameNamesTheDay(year: int, month0: int, day: int)
    requires 0 <= month0 < 12 && 1 <= day <= DaysInMonth(year, month0) && IsWeekend(year, month0, day)
    ensures WeekendName(CalendarKey(year, month0, day)) == "Sunday" <==> Weekday(Date(year, month0 + 1, day)) == 0
    ensures WeekendName(CalendarKey(year, month0, day)) == "Saturday" <==> Weekday(Date(year, month0 + 1, day)) == 6
  {
    DateKeyRoundTrip(Date(year, month0 + 1, day));
  }

  /** For a day of the shown month the save's default name is the grid's:
      the weekday's name on a weekend day, none on a weekday. */
  lemma DefaultNameIsGridName(year: int, month0: int, day: int)
    requires 0 <= month0 < 12 && 1 <= day <= DaysInMonth(year, month0)
    ensures KeyIsWeekend(CalendarKey(year, month0, day), year, month0) == IsWeekend(year, month0, day)
    ensures KeyDefaultName(CalendarKey(year, month0, day), year, month0) ==
      if IsWeekend(year, month0, day) then Some(WeekendName(CalendarKey(year, month0, day))) else None
  {
    DayOfCalendarKey(year, month0, day);
    DateKeyRoundTrip(Date(year, month0 + 1, day));
  }

  // ---------------------------------------------------------------------
  // The holiday rule
  // ---------------------------------------------------------------------

  /** `isHoliday` of a grid cell: the flag of the explicit row for the date,
      or, without one, whether the day is a weekend day. */
  function EffectiveHoliday(rows: seq<Row<Holiday>>, key: string, weekend: bool): bool {
    match FindOn(rows, key)
    case Some(r) => r.value.isHoliday
    case None => weekend
  }

  /** A row for the date decides the day's status; the weekend rule applies
      only to a date without one. */
  lemma EffectiveHolidayRule(rows: seq<Row<Holiday>>, key: string, weekend: bool)
    ensures (exists i :: 0 <= i < |rows| && rows[i].value.date == key) ==>
      exists i :: 0 <= i < |rows| && rows[i].value.date == key && EffectiveHoliday(rows, key, weekend) == rows[i].value.isHoliday
    ensures (forall i :: 0 <= i < |rows| ==> rows[i].value.date != key) ==> EffectiveHoliday(rows, key, weekend) == weekend
  {
    FindOnFirstMatch(rows, key);
  }

  /** What a holiday cell shows under its red dot. */
  datatype Badge = Badge(name: Option<string>)

  /** `displayHoliday`: an explicit holiday row, or the weekday's name for a
      weekend day without a row. The dot is drawn when both `isHoliday` and
      the badge are there, which is exactly when the day is a holiday. */
  function DisplayBadge(rows: seq<Row<Holiday>>, key: string, weekend: bool): (b: Option<Badge>)
    ensures b.Some? <==> EffectiveHoliday(rows, key, weekend)
    ensures b.Some? && FindOn(rows, key).None? ==> b.value.name == Some(WeekendName(key))
  {
    match FindOn(rows, key)
    case Some(r) => if r.value.isHoliday then Some(Badge(r.value.name)) else None
    case None => if weekend then Some(Badge(Some(WeekendName(key)))) else None
  }

  /** `holidays.find(h => h.date === key && h.is_holiday === flag)`. */
  function FindFlagged(rows: seq<Row<Holiday>>, key: string, flag: bool): (r: Option<Row<Holiday>>)
    ensures r.None? <==> forall i :: 0 <= i < |rows| ==> rows[i].value.date != key || rows[i].value.isHoliday != flag
    ensures r.Some? ==> exists i :: 0 <= i < |rows| && rows[i] == r.value && r.value.value.date == key
                                      && r.value.value.isHoliday == flag
  {
    if rows == [] then None
    else if rows[0].value.date == key && rows[0].value.isHoliday == flag then Some(rows[0])
    else
      var r := FindFlagged(rows[1..], key, flag);
      assert forall i :: 1 <= i < |rows| ==> rows[i] == rows[1..][i - 1];
      r
  }

  // ---------------------------------------------------------------------
  // The holiday form
  // ---------------------------------------------------------------------

  datatype HolidayForm = HolidayForm(isHoliday: bool, name: string, description: string)

  /** `value || ''`. */
  function OrEmpty(o: Option<string>): string {
    if o.Some? then o.value else ""
  }

  /** `text || null`. */
  function OrNull(text: string): Option<string> {
    if text != "" then Some(text) else None
  }

  /** `text || fallback`. */
  function OrElse(text: string, fallback: Option<string>): Option<string> {
    if text != "" then Some(text) else fallback
  }

  /** The form `handleDateClick` opens with: ticked when there is a holiday
      row for the date, or when the day is a weekend day without a working
      day row; name and description from the holiday row. */
  function SeedForm(rows: seq<Row<Holiday>>, key: string, weekend: bool): HolidayForm {
    var existing := FindFlagged(rows, key, true);
    HolidayForm(
      existing.Some? || (weekend && FindFlagged(rows, key, false).None?),
      if existing.Some? then OrEmpty(existing.value.value.name) else "",
      if existing.Some? then OrEmpty(existing.value.value.description) else "")
  }

  /** With at most one row per date the form opens showing the day's
      current status, and the name and description of its holiday row. */
  lemma SeedShowsEffectiveStatus(rows: seq<Row<Holiday>>, key: string, weekend: bool)
    requires HolidayDatesUnique(rows)
    ensures SeedForm(rows, key, weekend).isHoliday == EffectiveHoliday(rows, key, weekend)
    ensures var f := SeedForm(rows, key, weekend);
      match FindOn(rows, key)
      case Some(r) =>
        if r.value.isHoliday then f.name == OrEmpty(r.value.name) && f.description == OrEmpty(r.value.description)
        else f.name == "" && f.description == ""
      case None => f.name == "" && f.description == ""
  {
    FindOnFirstMatch(rows, key);
    match FindOn(rows, key)
    case None =>
    case Some(r) =>
      var k :| 0 <= k < |rows| && rows[k] == r && r.value.date == key;
      assert forall i :: 0 <= i < |rows| && i != k ==> rows[i].value.date != key;
      var t := FindFlagged(rows, key, true);
      var f := FindFlagged(rows, key, false);
      if r.value.isHoliday {
        var j :| 0 <= j < |rows| && rows[j] == t.value;
        assert j == k;
      } else {
        assert t.None?;
        assert f.Some?;
      }
  }

  /** The row write `handleSaveHoliday` makes. */
  datatype HolidayWrite =
    | UpdateRow(id: nat, isHoliday: bool, name: Option<string>, description: Option<string>)
    | InsertRow(holiday: Holiday)
    | NoWrite

  /** The branches of `handleSaveHoliday`, given the row the page holds for
      the date (of any flag), whether the day is a weekend day, and the
      default name. */
  function PlanSave(existing: Option<Row<Holiday>>, key: string, form: HolidayForm, weekend: bool,
                    defaultName: Option<string>): HolidayWrite {
    if form.isHoliday then
      var name := OrElse(form.name, defaultName);
      var description := OrNull(form.description);
      if existing.Some? then UpdateRow(existing.value.id, true, name, description)
      else InsertRow(Holiday(key, true, name, description))
    else if existing.Some? then UpdateRow(existing.value.id, false, None, None)
    else if weekend then InsertRow(Holiday(key, false, None, None))
    else NoWrite
  }

  /** `.update({ is_holiday, name, description })`: the date stays. */
  function Overwrite(isHoliday: bool, name: Option<string>, description: Option<string>): Holiday -> Holiday {
    (h: Holiday) => Holiday(h.date, isHoliday, name, description)
  }

  /** The request a write sends. */
  function WriteRequests(w: HolidayWrite): seq<Operation> {
    match w
    case UpdateRow(_, _, _, _) => [HolidayUpdate]
    case InsertRow(_) => [HolidayInsert]
    case NoWrite => []
  }

  /** The error the backend answers a write with, if any. */
  function WriteError(rows: seq<Row<Holiday>>, failing: set<Operation>, w: HolidayWrite): Option<StoreError> {
    match w
    case UpdateRow(_, _, _, _) => if HolidayUpdate in failing then Some(Rejected(HolidayUpdate)) else None
    case InsertRow(h) =>
      if HolidayInsert in failing then Some(Rejected(HolidayInsert))
      else if FindOn(rows, h.date).Some? then Some(UniqueViolation(HolidayInsert))
      else None
    case NoWrite => None
  }

  /** The table after a successful write. */
  function ApplyWrite(rows: seq<Row<Holiday>>, next: nat, w: HolidayWrite): seq<Row<Holiday>> {
    match w
    case UpdateRow(id, isHoliday, name, description) => UpdateWhere(rows, id, Overwrite(isHoliday, name, description))
    case InsertRow(h) => rows + [Row(next, h)]
    case NoWrite => rows
  }

  /** The row a save leaves for the date: the form's flag; for a holiday the
      form's name, else the weekday's name on a weekend day, and the form's
      description; for a working day neither. */
  function SavedHoliday(key: string, form: HolidayForm, defaultName: Option<string>): Holiday {
    if form.isHoliday then Holiday(key, true, OrElse(form.name, defaultName), OrNull(form.description))
    else Holiday(key, false, None, None)
  }

  /** Appending a row changes the first match only for a date that had none. */
  lemma {:induction false} FindOnAppend(rows: seq<Row<Holiday>>, r: Row<Holiday>, key: string)
    ensures FindOn(rows + [r], key) ==
      if FindOn(rows, key).Some? then FindOn(rows, key)
      else if r.value.date == key then Some(r) else None
  {
    if rows != [] {
      assert (rows + [r])[1..] == rows[1..] + [r];
      FindOnAppend(rows[1..], r, key);
    }
  }

  /** An update that keeps dates changes, for each date, only the first
      match itself, and only when it carries the updated id. */
  lemma {:induction false} FindOnUpdate(rows: seq<Row<Holiday>>, id: nat, f: Holiday -> Holiday, key: string)
    requires forall h :: f(h).date == h.date
    ensures FindOn(UpdateWhere(rows, id, f), key) ==
      match FindOn(rows, key)
      case None => None
      case Some(r) => Some(if r.id == id then Row(id, f(r.value)) else r)
  {
    if rows != [] {
      var u := UpdateWhere(rows, id, f);
      assert u[1..] == UpdateWhere(rows[1..], id, f);
      FindOnUpdate(rows[1..], id, f, key);
    }
  }

  /** In a keyed table two first matches with the same id are the same row,
      so they are for the same date. */
  lemma SameIdSameDate(rows: seq<Row<Holiday>>, next: nat, a: string, b: string)
    requires KeyedBelow(rows, next) && FindOn(rows, a).Some? && FindOn(rows, b).Some?
    requires FindOn(rows, a).value.id == FindOn(rows, b).value.id
    ensures a == b
  {
    FindOnFirstMatch(rows, a);
    FindOnFirstMatch(rows, b);
    var i :| 0 <= i < |rows| && rows[i] == FindOn(rows, a).value && rows[i].value.date == a;
    var j :| 0 <= j < |rows| && rows[j] == FindOn(rows, b).value && rows[j].value.date == b;
    if i < j {
      assert rows[i].id < rows[j].id;
    } else if j < i {
      assert rows[j].id < rows[i].id;
    }
  }

  /** A save planned from a table that agrees with the backend on the date
      cannot clash with the unique date, leaves for the date exactly the
      row SavedHoliday describes (or none, for a weekday without a row
      marked as a working day), sets the day's status to the form's flag,
      and leaves every other date as it was. */
  lemma SaveDecidesTheDay(rows: seq<Row<Holiday>>, next: nat, failing: set<Operation>, key: string, form: HolidayForm,
                          weekend: bool, defaultName: Option<string>)
    requires KeyedBelow(rows, next) && HolidayInsert !in failing && HolidayUpdate !in failing
    ensures var w := PlanSave(FindOn(rows, key), key, form, weekend, defaultName);
      var after := ApplyWrite(rows, next, w);
      && WriteError(rows, failing, w).None?
      && FindOn(after, key) == (if FindOn(rows, key).None? && !form.isHoliday && !weekend then None
                                else Some(Row(if FindOn(rows, key).Some? then FindOn(rows, key).value.id else next,
                                              SavedHoliday(key, form, defaultName))))
      && EffectiveHoliday(after, key, weekend) == form.isHoliday
      && forall other :: other != key ==> FindOn(after, other) == FindOn(rows, other)
  {
    FindOnFirstMatch(rows, key);
    var w := PlanSave(FindOn(rows, key), key, form, weekend, defaultName);
    match w
    case UpdateRow(id, b, n, d) =>
      var f := Overwrite(b, n, d);
      FindOnUpdate(rows, id, f, key);
      forall other | other != key
        ensures FindOn(ApplyWrite(rows, next, w), other) == FindOn(rows, other)
      {
        FindOnUpdate(rows, id, f, other);
        if FindOn(rows, other).Some? && FindOn(rows, other).value.id == id {
          SameIdSameDate(rows, next, key, other);
        }
      }
    case InsertRow(h) =>
      FindOnAppend(rows, Row(next, h), key);
      forall other | other != key
        ensures FindOn(ApplyWrite(rows, next, w), other) == FindOn(rows, other)
      {
        FindOnAppend(rows, Row(next, h), other);
      }
    case NoWrite =>
  }

  /** Opening a day and saving the form untouched writes the status the day
      already had. */
  lemma SaveUntouchedKeepsStatus(rows: seq<Row<Holiday>>, next: nat, key: string, weekend: bool, defaultName: Option<string>)
    requires KeyedBelow(rows, next) && HolidayDatesUnique(rows)
    ensures var w := PlanSave(FindOn(rows, key), key, SeedForm(rows, key, weekend), weekend, defaultName);
      EffectiveHoliday(ApplyWrite(rows, next, w), key, weekend) == EffectiveHoliday(rows, key, weekend)
  {
    SeedShowsEffectiveStatus(rows, key, weekend);
    SaveDecidesTheDay(rows, next, {}, key, SeedForm(rows, key, weekend), weekend, defaultName);
  }

  // ---------------------------------------------------------------------
  // The month snapshot
  // ---------------------------------------------------------------------

  /** The rows `loadHolidays` fetches: those dated in the shown month. */
  function MonthRows(rows: seq<Row<Holiday>>, year: int, month0: int): seq<Row<Holiday>> {
    if rows == [] then []
    else (if InShownMonth(rows[0].value.date, year, month0) then [rows[0]] else []) + MonthRows(rows[1..], year, month0)
  }

  /** For every day of the month the snapshot finds the row the backend
      holds for it. */
  lemma {:induction false} MonthRowsAgree(rows: seq<Row<Holiday>>, year: int, month0: int, key: string)
    requires InShownMonth(key, year, month0)
    ensures FindOn(MonthRows(rows, year, month0), key) == FindOn(rows, key)
  {
    if rows != [] {
      var tail := rows[1..];
      MonthRowsAgree(tail, year, month0, key);
      var m := MonthRows(rows, year, month0);
      if InShownMonth(rows[0].value.date, year, month0) {
        assert m == [rows[0]] + MonthRows(tail, year, month0);
        assert m[1..] == MonthRows(tail, year, month0);
      } else {
        assert rows[0].value.date != key;
        assert m == MonthRows(tail, year, month0);
      }
    }
  }

  /** The snapshot of a table with unique dates has unique dates. */
  lemma {:induction false} MonthRowsKeepDatesUnique(rows: seq<Row<Holiday>>, year: int, month0: int)
    requires HolidayDatesUnique(rows)
    ensures HolidayDatesUnique(MonthRows(rows, year, month0))
  {
    if rows != [] {
      var tail := rows[1..];
      assert HolidayDatesUnique(tail) by {
        forall i, j | 0 <= i < j < |tail| ensures tail[i].value.date != tail[j].value.date {
          assert tail[i] == rows[i + 1] && tail[j] == rows[j + 1];
        }
      }
      MonthRowsKeepDatesUnique(tail, year, month0);
      MonthRowsKeepOnlyRows(tail, year, month0);
      var rest := MonthRows(tail, year, month0);
      forall x | x in rest ensures x.value.date != rows[0].value.date {
        var k :| 0 <= k < |tail| && tail[k] == x;
        assert rows[k + 1] == x;
      }
      var r := MonthRows(rows, year, month0);
      if InShownMonth(rows[0].value.date, year, month0) {
        forall i, j | 0 <= i < j < |r| ensures r[i].value.date != r[j].value.date {
          assert r[j] == rest[j - 1] && r[j] in rest;
          if 0 < i { assert r[i] == rest[i - 1]; }
        }
      } else {
        assert r == rest;
      }
    }
  }

  /** The snapshot holds only rows of the table. */
  lemma {:induction false} MonthRowsKeepOnlyRows(rows: seq<Row<Holiday>>, year: int, month0: int)
    ensures forall x :: x in MonthRows(rows, year, month0) ==> x in rows
  {
    if rows != [] {
      MonthRowsKeepOnlyRows(rows[1..], year, month0);
    }
  }

  // ---------------------------------------------------------------------
  // The event form
  // ---------------------------------------------------------------------

  datatype EventForm = EventForm(name: string, description: string)

  /** `.update({ name, description })` of an event: date and author stay. */
  function Rename(name: string, description: Option<string>): Event -> Event {
    (e: Event) => Event(e.date, name, description, e.createdBy)
  }

  /** The event the insert branch of `handleSaveEvent` creates;
      `profile?.id || null` is the author. */
  function NewEvent(date: string, form: EventForm, profileId: Option<EmployeeId>): Event {
    Event(date, form.name, OrNull(form.description), if profileId.Some? && profileId.value != "" then profileId else None)
  }

  /** Loading an event into the form and saving it untouched writes the
      description back, except that an empty one becomes no description. */
  lemma DescriptionRoundTrip(d: Option<string>)
    ensures OrNull(OrEmpty(d)) == if d == Some("") then None else d
  { }

  /** The request the save sends: an update when an event is being edited. */
  function EventRequest(editing: Option<Row<Event>>): Operation {
    if editing.Some? then EventUpdate else EventInsert
  }

  /** The events table after a successful save. */
  function EventsAfter(events: seq<Row<Event>>, next: nat, editing: Option<Row<Event>>, date: string,
                       form: EventForm, profileId: Option<EmployeeId>): seq<Row<Event>> {
    if editing.Some? then UpdateWhere(events, editing.value.id, Rename(form.name, OrNull(form.description)))
    else events + [Row(next, NewEvent(date, form, profileId))]
  }

  /** Renaming keeps every event on its day and with its author; a new event
      goes on the selected day. */
  lemma EventsAfterKeepDays(events: seq<Row<Event>>, next: nat, editing: Option<Row<Event>>, date: string,
                            form: EventForm, profileId: Option<EmployeeId>)
    ensures var after := EventsAfter(events, next, editing, date, form, profileId);
      && (editing.Some? ==> |after| == |events| && forall i :: 0 <= i < |events| ==>
            after[i].id == events[i].id && after[i].value.date == events[i].value.date
            && after[i].value.createdBy == events[i].value.createdBy
            && (events[i].id == editing.value.id ==> after[i].value.name == form.name))
      && (editing.None? ==>
            && |after| == |events| + 1 && after[..|events|] == events
            && after[|events|].id == next && after[|events|].value.date == date && after[|events|].value.name == form.name)
  { }

  /** The write of `handleSaveEvent` once the guard has passed. */
  method WriteEvent(store: RecordsStore, editing: Option<Row<Event>>, date: string, form: EventForm,
                    profileId: Option<EmployeeId>) returns (err: Option<StoreError>)
    requires store.Valid()
    modifies store
    ensures store.Valid()
    ensures store.profiles == old(store.profiles) && store.attendance == old(store.attendance)
    ensures store.holidays == old(store.holidays) && store.failing == old(store.failing)
    ensures store.arrayReplies == old(store.arrayReplies)
    ensures store.log == old(store.log) + [EventRequest(editing)]
    ensures err == if EventRequest(editing) in store.failing then Some(Rejected(EventRequest(editing))) else None
    ensures store.events == if err.Some? then old(store.events)
                            else EventsAfter(old(store.events), old(store.nextId), editing, date, form, profileId)
  {
    if editing.Some? {
      err := store.UpdateEvent(editing.value.id, Rename(form.name, OrNull(form.description)));
    } else {
      err := store.InsertEvent(NewEvent(date, form, profileId));
    }
  }

  /** The write of `handleSaveHoliday`, planned from the row the page holds
      for the date. When that row is the one the backend holds and writes
      are accepted, the save succeeds, gives the day the form's status and
      leaves every other date alone. */
  method WriteHoliday(store: RecordsStore, existing: Option<Row<Holiday>>, key: string, form: HolidayForm, weekend: bool,
                      defaultName: Option<string>) returns (err: Option<StoreError>)
    requires store.Valid()
    modifies store
    ensures store.Valid()
    ensures store.profiles == old(store.profiles) && store.attendance == old(store.attendance)
    ensures store.events == old(store.events) && store.failing == old(store.failing)
    ensures store.arrayReplies == old(store.arrayReplies)
    ensures var w := PlanSave(existing, key, form, weekend, defaultName);
      && store.log == old(store.log) + WriteRequests(w)
      && err == WriteError(old(store.holidays), store.failing, w)
      && store.holidays == if err.Some? then old(store.holidays) else ApplyWrite(old(store.holidays), old(store.nextId), w)
    ensures existing == FindOn(old(store.holidays), key) && HolidayInsert !in store.failing && HolidayUpdate !in store.failing ==>
      && err.None?
      && EffectiveHoliday(store.holidays, key, weekend) == form.isHoliday
      && forall other :: other != key ==> FindOn(store.holidays, other) == FindOn(old(store.holidays), other)
  {
    if existing == FindOn(store.holidays, key) && HolidayInsert !in store.failing && HolidayUpdate !in store.failing {
      SaveDecidesTheDay(store.holidays, store.nextId, store.failing, key, form, weekend, defaultName);
    }
    match PlanSave(existing, key, form, weekend, defaultName) {
      case UpdateRow(id, b, n, d) =>
        err := store.UpdateHoliday(id, Overwrite(b, n, d));
      case InsertRow(h) =>
        err := store.InsertHoliday(h);
      case NoWrite =>
        err := None;
    }
  }

  datatype HolidaySave = NoSelection | Saved | SaveFailed(error: StoreError)

  datatype EventSave = NameRequired | EventSaved | EventFailed(error: StoreError)

  // ---------------------------------------------------------------------
  // The page
  // ---------------------------------------------------------------------

  class CalendarPage {
    /** The shown month. */
    var year: int
    var month0: int
    /** The holiday rows of the shown month, as last loaded. */
    var holidays: seq<Row<Holiday>>
    var loading: bool
    var selectedDate: Option<string>
    var form: HolidayForm
    var eventForm: EventForm
    var editingEvent: Option<Row<Event>>
    var modalOpen: bool

    /** The month is a month, and the snapshot has at most one row per
        date. */
    ghost predicate Valid()
      reads this`month0, this`holidays
    {
      && 0 <= month0 < 12
      && HolidayDatesUnique(holidays)
    }

    constructor (year: int, month0: int)
      requires 0 <= month0 < 12
      ensures Valid()
      ensures this.year == year && this.month0 == month0
      ensures holidays == [] && loading && selectedDate.None? && !modalOpen && editingEvent.None?
      ensures form == HolidayForm(false, "", "") && eventForm == EventForm("", "")
    {
      this.year, this.month0 := year, month0;
      holidays := [];
      loading := true;
      selectedDate := None;
      form := HolidayForm(false, "", "");
      eventForm := EventForm("", "");
      editingEvent := None;
      modalOpen := false;
    }

    /** `loadHolidays`: on success the snapshot becomes the month's rows; on
        failure it stays. Either way the spinner goes. */
    method LoadHolidays(store: RecordsStore)
      requires Valid() && store.Valid()
      modifies this`holidays, this`loading, store`log
      ensures Valid()
      ensures store.log == old(store.log) + [HolidayRead]
      ensures holidays == if HolidayRead in store.failing then old(holidays) else MonthRows(store.holidays, year, month0)
      ensures !loading
    {
      var data := store.ReadAllHolidays();
      if data.Success? {
        MonthRowsKeepDatesUnique(data.value, year, month0);
        holidays := MonthRows(data.value, year, month0);
      }
      loading := false;
    }

    /** `handleDateClick(day)`: select the day and seed the form from it. */
    method DateClick(day: int)
      requires Valid() && 1 <= day <= DaysInMonth(year, month0)
      modifies this`selectedDate, this`form, this`eventForm, this`editingEvent, this`modalOpen
      ensures Valid()
      ensures selectedDate == Some(CalendarKey(year, month0, day))
      ensures form == SeedForm(holidays, CalendarKey(year, month0, day), IsWeekend(year, month0, day))
      ensures form.isHoliday == EffectiveHoliday(holidays, CalendarKey(year, month0, day), IsWeekend(year, month0, day))
      ensures eventForm == EventForm("", "") && editingEvent.None? && modalOpen
      ensures KeyIsWeekend(CalendarKey(year, month0, day), year, month0) == IsWeekend(year, month0, day)
    {
      var key := CalendarKey(year, month0, day);
      DefaultNameIsGridName(year, month0, day);
      var weekend := IsWeekend(year, month0, day);
      selectedDate := Some(key);
      form := SeedForm(holidays, key, weekend);
      SeedShowsEffectiveStatus(holidays, key, weekend);
      eventForm := EventForm("", "");
      editingEvent := None;
      modalOpen := true;
    }

    /** `handleSaveHoliday`: write the row the form asks for; on success close
        the dialog, clear the selection and reload; on failure keep both. */
    method SaveHoliday(store: RecordsStore) returns (result: HolidaySave)
      requires Valid() && store.Valid()
      modifies this`holidays, this`loading, this`selectedDate, this`modalOpen, store
      ensures Valid() && store.Valid()
      ensures store.profiles == old(store.profiles) && store.attendance == old(store.attendance)
      ensures store.events == old(store.events) && store.failing == old(store.failing)
      ensures store.arrayReplies == old(store.arrayReplies)
      ensures old(selectedDate).None? ==>
        && result == NoSelection && store.log == old(store.log) && store.holidays == old(store.holidays)
        && holidays == old(holidays) && modalOpen == old(modalOpen) && selectedDate.None?
      ensures old(selectedDate).Some? ==>
        var key := old(selectedDate).value;
        var w := PlanSave(FindOn(old(holidays), key), key, form, KeyIsWeekend(key, year, month0), KeyDefaultName(key, year, month0));
        var err := WriteError(old(store.holidays), old(store.failing), w);
        && result == (if err.Some? then SaveFailed(err.value) else Saved)
        && store.holidays == (if err.None? then ApplyWrite(old(store.holidays), old(store.nextId), w) else old(store.holidays))
        && store.log == old(store.log) + WriteRequests(w) + (if err.None? then [HolidayRead] else [])
        && (err.None? ==>
              && !modalOpen && selectedDate.None?
              && holidays == (if HolidayRead in store.failing then old(holidays) else MonthRows(store.holidays, year, month0)))
        && (err.Some? ==> modalOpen == old(modalOpen) && selectedDate == old(selectedDate) && holidays == old(holidays))
      ensures old(selectedDate).Some? && FindOn(old(holidays), old(selectedDate).value) == FindOn(old(store.holidays), old(selectedDate).value)
              && HolidayInsert !in old(store.failing) && HolidayUpdate !in old(store.failing) ==>
        && result == Saved
        && EffectiveHoliday(store.holidays, old(selectedDate).value, KeyIsWeekend(old(selectedDate).value, year, month0)) == form.isHoliday
        && forall other :: other != old(selectedDate).value ==> FindOn(store.holidays, other) == FindOn(old(store.holidays), other)
    {
      if selectedDate.None? {
        return NoSelection;
      }
      var key := selectedDate.value;
      var weekend := KeyIsWeekend(key, year, month0);
      var defaultName := KeyDefaultName(key, year, month0);
      var err := WriteHoliday(store, FindOn(holidays, key), key, form, weekend, defaultName);
      if err.Some? {
        return SaveFailed(err.value);
      }
      modalOpen := false;
      selectedDate := None;
      LoadHolidays(store);
      result := Saved;
    }

    /** `handleEditEvent`: load an event into the event form. */
    method EditEvent(ev: Row<Event>)
      modifies this`editingEvent, this`eventForm
      ensures editingEvent == Some(ev)
      ensures eventForm == EventForm(ev.value.name, OrEmpty(ev.value.description))
    {
      editingEvent := Some(ev);
      eventForm := EventForm(ev.value.name, OrEmpty(ev.value.description));
    }

    /** `handleSaveEvent`: without a selected day or with a blank name nothing
        is sent; otherwise the edited event is renamed, or a new event is
        created on the selected day. On success the form is cleared. */
    method SaveEvent(store: RecordsStore, profileId: Option<EmployeeId>) returns (result: EventSave)
      requires Valid() && store.Valid()
      modifies this`eventForm, this`editingEvent, store
      ensures Valid() && store.Valid()
      ensures store.profiles == old(store.profiles) && store.attendance == old(store.attendance)
      ensures store.holidays == old(store.holidays) && store.failing == old(store.failing)
      ensures store.arrayReplies == old(store.arrayReplies)
      ensures old(selectedDate).None? || Trim(old(eventForm).name) == [] ==>
        && result == NameRequired && store.log == old(store.log) && store.events == old(store.events)
        && eventForm == old(eventForm) && editingEvent == old(editingEvent)
      ensures old(selectedDate).Some? && Trim(old(eventForm).name) != [] ==>
        var op := EventRequest(old(editingEvent));
        && store.log == old(store.log) + [op]
        && result == (if op in old(store.failing) then EventFailed(Rejected(op)) else EventSaved)
        && store.events == (if op in old(store.failing) then old(store.events)
                            else EventsAfter(old(store.events), old(store.nextId), old(editingEvent),
                                             old(selectedDate).value, old(eventForm), profileId))
        && (result.EventSaved? ==> eventForm == EventForm("", "") && editingEvent.None?)
        && (result.EventFailed? ==> eventForm == old(eventForm) && editingEvent == old(editingEvent))
      ensures result.EventSaved? ==> exists k :: 0 <= k < |old(eventForm).name| && !IsJsWhitespace(old(eventForm).name[k])
    {
      if selectedDate.None? || Trim(eventForm.name) == [] {
        return NameRequired;
      }
      BlankIffAllWhitespace(eventForm.name);
      var err := WriteEvent(store, editingEvent, selectedDate.value, eventForm, profileId);
      if err.Some? {
        return EventFailed(err.value);
      }
      eventForm := EventForm("", "");
      editingEvent := None;
      result := EventSaved;
    }
  }
}
