/**
  The one-off cleanup script that deletes every `holidays` row dated on a
  Saturday, whatever its `is_holiday` flag, so that Saturdays fall back to
  the calendar's default rule.
 */
module RemoveSaturdayHolidays {
  import opened Wrappers
  import opened CivilTime
  import opened Records

  /** `new Date(h.date + 'T00:00:00').getDay() === 6`: the date text, read as
      local midnight, is a Saturday; text that is not a date never is. */
  predicate IsSaturdayKey(date: string) {
    match ParseDateKey(date)
    case Some(d) => Weekday(d) == 6
    case None => false
  }

  /** `saturdayIds`: the ids of the Saturday-dated rows, in row order. */
  function SaturdayIds(rows: seq<Row<Holiday>>): (ids: seq<nat>)
    ensures |ids| <= |rows|
    ensures forall id :: id in ids <==>
      exists i :: 0 <= i < |rows| && rows[i].id == id && IsSaturdayKey(rows[i].value.date)
  {
    if rows == [] then []
    else
      var rest := SaturdayIds(rows[1..]);
      assert forall i :: 1 <= i < |rows| ==> rows[i] == rows[1..][i - 1];
      (if IsSaturdayKey(rows[0].value.date) then [rows[0].id] else []) + rest
  }

  /** The key of every Saturday is selected, and no other date's: for a key
      the calendar builds, selection is decided by the weekday alone. */
  lemma SelectsExactlySaturdays(d: Date)
    requires ValidDate(d)
    ensures IsSaturdayKey(DateKey(d)) <==> Weekday(d) == 6
  {
    DateKeyRoundTrip(d);
  }

  /** With distinct row ids, deleting the selected ids keeps exactly the rows
      that are not Saturday-dated, in their order. */
  lemma {:induction false} DeleteKeepsNonSaturdays(rows: seq<Row<Holiday>>, next: nat)
    requires KeyedBelow(rows, next)
    ensures forall r :: r in DeleteWhere(rows, SaturdayIds(rows)) <==> r in rows && !IsSaturdayKey(r.value.date)
  {
    var ids := SaturdayIds(rows);
    forall r | r in rows
      ensures r.id in ids <==> IsSaturdayKey(r.value.date)
    {
      var k :| 0 <= k < |rows| && rows[k] == r;
      assert forall i :: 0 <= i < |rows| && i != k ==> rows[i].id != r.id by {
        forall i | 0 <= i < |rows| && i != k ensures rows[i].id != r.id {
          if i < k { assert rows[i].id < rows[k].id; } else { assert rows[k].id < rows[i].id; }
        }
      }
    }
  }

  /** The count the script prints is the number of rows the delete removed. */
  lemma {:induction false} DeletedCount(rows: seq<Row<Holiday>>, next: nat)
    requires KeyedBelow(rows, next)
    ensures |DeleteWhere(rows, SaturdayIds(rows))| == |rows| - |SaturdayIds(rows)|
  {
    if rows != [] {
      var tail := rows[1..];
      assert KeyedBelow(tail, next);
      DeletedCount(tail, next);
      var ids := SaturdayIds(rows);
      var head := if IsSaturdayKey(rows[0].value.date) then [rows[0].id] else [];
      assert forall i :: 0 <= i < |tail| ==> tail[i].id != rows[0].id by {
        forall i | 0 <= i < |tail| ensures tail[i].id != rows[0].id {
          assert tail[i] == rows[i + 1];
        }
      }
      assert rows[0].id !in SaturdayIds(tail);
      assert ids == head + SaturdayIds(tail);
      assert DeleteWhere(rows, ids) == (if rows[0].id in ids then [] else [rows[0]]) + DeleteWhere(tail, ids);
      if IsSaturdayKey(rows[0].value.date) {
        DeleteIgnoresAbsentId(tail, SaturdayIds(tail), rows[0].id);
        assert ids == [rows[0].id] + SaturdayIds(tail);
      } else {
        assert ids == SaturdayIds(tail);
      }
      assert DeleteWhere(tail, ids) == DeleteWhere(tail, SaturdayIds(tail));
    }
  }

  /** Adding an id that no row carries does not change what a delete keeps. */
  lemma {:induction false} DeleteIgnoresAbsentId(rows: seq<Row<Holiday>>, ids: seq<nat>, id: nat)
    requires forall i :: 0 <= i < |rows| ==> rows[i].id != id
    ensures DeleteWhere(rows, [id] + ids) == DeleteWhere(rows, ids)
  {
    if rows != [] {
      DeleteIgnoresAbsentId(rows[1..], ids, id);
    }
  }

  datatype Removal = Removal(exitCode: int, deleted: nat)

  /** The whole script; `configured` says whether a URL and a key are set. */
  method RunRemoveSaturdays(store: RecordsStore, configured: bool) returns (r: Removal)
    requires store.Valid()
    modifies store
    ensures store.Valid()
    ensures store.profiles == old(store.profiles) && store.attendance == old(store.attendance)
    ensures store.events == old(store.events)
    ensures store.failing == old(store.failing) && store.arrayReplies == old(store.arrayReplies)
    ensures !configured ==> r == Removal(1, 0) && store.log == old(store.log) && store.holidays == old(store.holidays)
    ensures configured && HolidayRead in old(store.failing) ==>
      r == Removal(1, 0) && store.log == old(store.log) + [HolidayRead] && store.holidays == old(store.holidays)
    ensures configured && HolidayRead !in old(store.failing) && SaturdayIds(old(store.holidays)) == [] ==>
      r == Removal(0, 0) && store.log == old(store.log) + [HolidayRead] && store.holidays == old(store.holidays)
    ensures configured && HolidayRead !in old(store.failing) && SaturdayIds(old(store.holidays)) != [] ==>
      && store.log == old(store.log) + [HolidayRead, HolidayDelete]
      && (if HolidayDelete in old(store.failing) then r == Removal(1, 0) && store.holidays == old(store.holidays)
          else r == Removal(0, |SaturdayIds(old(store.holidays))|)
               && store.holidays == DeleteWhere(old(store.holidays), SaturdayIds(old(store.holidays))))
  {
    if !configured {
      return Removal(1, 0);
    }
    ghost var log0 := store.log;
    var data := store.ReadAllHolidays();
    if data.Failure? {
      return Removal(1, 0);
    }
    var saturdayIds := SaturdayIds(data.value);
    if saturdayIds == [] {
      return Removal(0, 0);
    }
    var err := store.DeleteHolidays(saturdayIds);
    assert store.log == log0 + [HolidayRead, HolidayDelete];
    if err.Some? {
      return Removal(1, 0);
    }
    r := Removal(0, |saturdayIds|);
  }

  /** After a successful run no Saturday-dated row is left and every other
      row is still there. */
  lemma CleanupResult(rows: seq<Row<Holiday>>, next: nat)
    requires KeyedBelow(rows, next)
    ensures SaturdayIds(DeleteWhere(rows, SaturdayIds(rows))) == []
    ensures forall r :: r in rows && !IsSaturdayKey(r.value.date) ==> r in DeleteWhere(rows, SaturdayIds(rows))
  {
    DeleteKeepsNonSaturdays(rows, next);
    var after := DeleteWhere(rows, SaturdayIds(rows));
    assert forall i :: 0 <= i < |after| ==> after[i] in after;
    NoSaturdaysNoIds(after);
  }

  lemma {:induction false} NoSaturdaysNoIds(rows: seq<Row<Holiday>>)
    requires forall i :: 0 <= i < |rows| ==> !IsSaturdayKey(rows[i].value.date)
    ensures SaturdayIds(rows) == []
  {
    if rows != [] {
      assert forall i :: 1 <= i < |rows| ==> rows[i] == rows[1..][i - 1];
      NoSaturdaysNoIds(rows[1..]);
    }
  }
}
