/**
  How the three holiday rules relate. The absentee job treats a day without a
  `holidays` row as a holiday only on Sundays; the admin calendar treats
  both weekend days that way; the cleanup script deletes the rows of
  Saturdays. An explicit row settles the day the same way for the job and
  the calendar.
 */
module HolidayPolicies {
  import opened CivilTime
  import opened Records
  import MarkAbsentees
  import AdminCalendar
  import RemoveSaturdayHolidays

  /** With at most one row per date, the calendar and the job disagree about
      a day exactly when it is a Saturday without a row: the calendar shows
      it as a holiday and the job marks absentees on it. */
  lemma CalendarAndJobDisagreeOnBareSaturdays(rows: seq<Row<Holiday>>, d: Date)
    requires HolidayDatesUnique(rows) && ValidDate(d)
    ensures var key, w := DateKey(d), Weekday(d);
      AdminCalendar.EffectiveHoliday(rows, key, AdminCalendar.WeekendWeekday(w))
        != MarkAbsentees.IsHoliday(HolidayFlagsOn(rows, key), w)
      <==> FindOn(rows, key).None? && w == 6
    ensures var key, w := DateKey(d), Weekday(d);
      FindOn(rows, key).None? && w == 6 ==>
        AdminCalendar.EffectiveHoliday(rows, key, AdminCalendar.WeekendWeekday(w))
        && !MarkAbsentees.IsHoliday(HolidayFlagsOn(rows, key), w)
  {
    var key := DateKey(d);
    MarkAbsentees.HolidayRule(rows, key, Weekday(d));
    FindOnFirstMatch(rows, key);
    match FindOn(rows, key)
    case None =>
    case Some(r) =>
      var k :| 0 <= k < |rows| && rows[k] == r && r.value.date == key;
  }

  /** After the cleanup no Saturday has a row left, so on every Saturday the
      calendar shows a holiday while the job marks absentees. */
  lemma AfterCleanupEverySaturdayDisagrees(rows: seq<Row<Holiday>>, next: nat, d: Date)
    requires KeyedBelow(rows, next) && HolidayDatesUnique(rows) && ValidDate(d) && Weekday(d) == 6
    ensures var after, key := DeleteWhere(rows, RemoveSaturdayHolidays.SaturdayIds(rows)), DateKey(d);
      && FindOn(after, key).None?
      && AdminCalendar.EffectiveHoliday(after, key, true)
      && !MarkAbsentees.IsHoliday(HolidayFlagsOn(after, key), 6)
  {
    var after := DeleteWhere(rows, RemoveSaturdayHolidays.SaturdayIds(rows));
    var key := DateKey(d);
    RemoveSaturdayHolidays.DeleteKeepsNonSaturdays(rows, next);
    RemoveSaturdayHolidays.SelectsExactlySaturdays(d);
    forall i | 0 <= i < |after| ensures after[i].value.date != key {
      assert after[i] in after;
    }
    FindOnFirstMatch(after, key);
    HolidayDeleteKeepsDatesUnique(rows, RemoveSaturdayHolidays.SaturdayIds(rows));
    CalendarAndJobDisagreeOnBareSaturdays(after, d);
  }

  /** On a Sunday, and on any day with a row, the two agree. */
  lemma SundaysAgree(rows: seq<Row<Holiday>>, d: Date)
    requires HolidayDatesUnique(rows) && ValidDate(d) && Weekday(d) == 0
    ensures AdminCalendar.EffectiveHoliday(rows, DateKey(d), true)
      == MarkAbsentees.IsHoliday(HolidayFlagsOn(rows, DateKey(d)), 0)
  {
    CalendarAndJobDisagreeOnBareSaturdays(rows, d);
  }
}
