/**
  The records store: the hosted backend that holds the `profiles`,
  `attendance`, `holidays` and `events` tables. The application reaches it
  through REST requests; here it is an in-memory object whose tables are
  sequences of rows, whose requests succeed or fail as its `failing` set says,
  and which logs every request it receives so that callers can promise which
  requests they did not make.

  Dates are stored as the `YYYY-MM-DD` text the backend returns, because that
  is what the application compares.
 */
module Records {
  import opened Wrappers

  type EmployeeId = string
  /** An ISO timestamp such as `approved_at`; never inspected. */
  type Timestamp = string

  datatype Role = Admin | Employee

  datatype Profile = Profile(id: EmployeeId, email: string, fullName: string, role: Role, isActive: bool)

  datatype Status = Present | HalfDay | OnLeave | Absent

  datatype WorkMode = Physical | Wfh

  datatype Attendance = Attendance(
    employeeId: EmployeeId,
    date: string,
    status: Status,
    workMode: Option<WorkMode>,
    reason: Option<string>,
    checkInTime: Option<Timestamp>,
    checkOutTime: Option<Timestamp>,
    isApproved: bool,
    approvedBy: Option<EmployeeId>,
    approvedAt: Option<Timestamp>)

  /** A row of `holidays`: an explicit override of the default weekly pattern. */
  datatype Holiday = Holiday(date: string, isHoliday: bool, name: Option<string>, description: Option<string>)

  datatype Event = Event(date: string, name: string, description: Option<string>, createdBy: Option<EmployeeId>)

  /** A stored row: the value plus the primary key the store assigned. */
  datatype Row<T> = Row(id: nat, value: T)

  /** The kinds of request the application sends. */
  datatype Operation =
    | HolidayRead | ProfileRead | AttendanceRead
    | AttendanceInsert | AttendanceUpdate
    | HolidayInsert | HolidayUpdate | HolidayDelete
    | EventInsert | EventUpdate

  datatype StoreError =
    | Rejected(op: Operation)          // a non-OK response
    | UniqueViolation(op: Operation)   // the insert would duplicate a unique key

  /** The body of a batch insert's response (`Prefer: return=representation`). */
  datatype InsertReply = RowArray(rows: seq<Row<Attendance>>) | OtherBody

  // ---------------------------------------------------------------------------
  // Table queries, as functions on the rows

  /** Row ids are strictly increasing and below the next id to hand out. */
  predicate KeyedBelow<T>(rows: seq<Row<T>>, next: nat) {
    && (forall i, j :: 0 <= i < j < |rows| ==> rows[i].id < rows[j].id)
    && (forall i :: 0 <= i < |rows| ==> rows[i].id < next)
  }

  function Values<T>(rows: seq<Row<T>>): (vs: seq<T>)
    ensures |vs| == |rows| && forall i :: 0 <= i < |rows| ==> vs[i] == rows[i].value
  {
    seq(|rows|, i requires 0 <= i < |rows| => rows[i].value)
  }

  /** Numbers the rows start, start + 1, ... in order. */
  function Numbered<T>(vs: seq<T>, start: nat): (rows: seq<Row<T>>)
    ensures |rows| == |vs|
    ensures forall i :: 0 <= i < |vs| ==> rows[i] == Row(start + i, vs[i])
  {
    seq(|vs|, i requires 0 <= i < |vs| => Row(start + i, vs[i]))
  }

  /** At most one attendance record per (employee, date). */
  predicate AttendanceKeysUnique(vs: seq<Attendance>) {
    forall i, j :: 0 <= i < j < |vs| ==>
      vs[i].employeeId != vs[j].employeeId || vs[i].date != vs[j].date
  }

  /** At most one holiday row per date. */
  predicate HolidayDatesUnique(rows: seq<Row<Holiday>>) {
    forall i, j :: 0 <= i < j < |rows| ==> rows[i].value.date != rows[j].value.date
  }

  predicate ProfileIdsUnique(ps: seq<Profile>) {
    forall i, j :: 0 <= i < j < |ps| ==> ps[i].id != ps[j].id
  }

  /** `profiles?role=eq.employee&is_active=eq.true`. */
  function ActiveEmployees(ps: seq<Profile>): (r: seq<Profile>)
    ensures forall p :: p in r <==> p in ps && p.role == Employee && p.isActive
    ensures |r| <= |ps|
  {
    if ps == [] then []
    else (if ps[0].role == Employee && ps[0].isActive then [ps[0]] else []) + ActiveEmployees(ps[1..])
  }

  /** `attendance?date=eq.<date>&select=employee_id`. */
  function AttendedOn(rows: seq<Row<Attendance>>, date: string): (ids: seq<EmployeeId>)
    ensures forall e :: e in ids <==>
      exists i :: 0 <= i < |rows| && rows[i].value.date == date && rows[i].value.employeeId == e
  {
    if rows == [] then []
    else
      var rest := AttendedOn(rows[1..], date);
      assert forall i :: 1 <= i < |rows| ==> rows[i] == rows[1..][i - 1];
      (if rows[0].value.date == date then [rows[0].value.employeeId] else []) + rest
  }

  /** `holidays?date=eq.<date>&select=is_holiday`. */
  function HolidayFlagsOn(rows: seq<Row<Holiday>>, date: string): (flags: seq<bool>)
    ensures |flags| == 0 <==> forall i :: 0 <= i < |rows| ==> rows[i].value.date != date
    ensures |flags| > 0 ==> exists i :: 0 <= i < |rows| && rows[i].value.date == date && flags[0] == rows[i].value.isHoliday
  {
    if rows == [] then []
    else
      var rest := HolidayFlagsOn(rows[1..], date);
      assert forall i :: 1 <= i < |rows| ==> rows[i] == rows[1..][i - 1];
      (if rows[0].value.date == date then [rows[0].value.isHoliday] else []) + rest
  }

  /** `rows.find(h => h.date === date)`: the first row for the date. */
  function FindOn(rows: seq<Row<Holiday>>, date: string): Option<Row<Holiday>> {
    if rows == [] then None
    else if rows[0].value.date == date then Some(rows[0])
    else FindOn(rows[1..], date)
  }

  /** The search finds nothing exactly when no row has the date, and
      otherwise the row at the first index that has it. */
  lemma {:induction false} FindOnFirstMatch(rows: seq<Row<Holiday>>, date: string)
    ensures FindOn(rows, date).None? <==> forall i :: 0 <= i < |rows| ==> rows[i].value.date != date
    ensures FindOn(rows, date).Some? ==>
      exists k :: 0 <= k < |rows| && rows[k] == FindOn(rows, date).value && rows[k].value.date == date
                  && forall i :: 0 <= i < k ==> rows[i].value.date != date
  {
    if rows != [] && rows[0].value.date != date {
      var tail := rows[1..];
      FindOnFirstMatch(tail, date);
      assert forall i :: 1 <= i < |rows| ==> rows[i] == tail[i - 1];
      if FindOn(tail, date).Some? {
        var k :| 0 <= k < |tail| && tail[k] == FindOn(tail, date).value && tail[k].value.date == date
                 && forall i :: 0 <= i < k ==> tail[i].value.date != date;
        assert rows[k + 1] == tail[k];
      }
    } else if rows != [] {
      assert rows[0] == FindOn(rows, date).value;
    }
  }

  /** `.update(...).eq('id', id)`: f applied to every row with that id. */
  function UpdateWhere<T>(rows: seq<Row<T>>, id: nat, f: T -> T): (r: seq<Row<T>>)
    ensures |r| == |rows|
    ensures forall i :: 0 <= i < |rows| ==>
      r[i] == if rows[i].id == id then Row(id, f(rows[i].value)) else rows[i]
  {
    seq(|rows|, i requires 0 <= i < |rows| =>
      if rows[i].id == id then Row(id, f(rows[i].value)) else rows[i])
  }

  /** `.delete().in('id', ids)`: the rows whose id is not listed, in order. */
  function DeleteWhere<T(!new)>(rows: seq<Row<T>>, ids: seq<nat>): (r: seq<Row<T>>)
    ensures forall x :: x in r <==> x in rows && x.id !in ids
    ensures |r| <= |rows|
  {
    if rows == [] then []
    else (if rows[0].id in ids then [] else [rows[0]]) + DeleteWhere(rows[1..], ids)
  }

  lemma {:induction false} DeleteKeepsOrder<T(!new)>(rows: seq<Row<T>>, ids: seq<nat>, next: nat)
    requires KeyedBelow(rows, next)
    ensures KeyedBelow(DeleteWhere(rows, ids), next)
  {
    if rows != [] {
      var tail := rows[1..];
      KeyedTail(rows, next);
      DeleteKeepsOrder(tail, ids, next);
      if rows[0].id !in ids {
        var rest := DeleteWhere(tail, ids);
        DeleteKeepsOnlyRows(tail, ids);
        forall j | 0 <= j < |rest| ensures rows[0].id < rest[j].id {
          var k :| 0 <= k < |tail| && tail[k] == rest[j];
          assert rows[k + 1] == tail[k];
        }
        KeyedCons(rows[0], rest, next);
        assert [rows[0]] + rest == DeleteWhere(rows, ids);
      }
    }
  }

  lemma KeyedTail<T>(rows: seq<Row<T>>, next: nat)
    requires KeyedBelow(rows, next) && rows != []
    ensures KeyedBelow(rows[1..], next)
  {
    var tail := rows[1..];
    forall i, j | 0 <= i < j < |tail| ensures tail[i].id < tail[j].id {
      assert tail[i] == rows[i + 1] && tail[j] == rows[j + 1];
    }
  }

  lemma KeyedCons<T>(r: Row<T>, rest: seq<Row<T>>, next: nat)
    requires KeyedBelow(rest, next) && r.id < next
    requires forall j :: 0 <= j < |rest| ==> r.id < rest[j].id
    ensures KeyedBelow([r] + rest, next)
  {
    var s := [r] + rest;
    forall i, j | 0 <= i < j < |s| ensures s[i].id < s[j].id {
      assert s[j] == rest[j - 1];
      if 0 < i { assert s[i] == rest[i - 1]; }
    }
    forall i | 0 <= i < |s| ensures s[i].id < next {
      if 0 < i { assert s[i] == rest[i - 1]; }
    }
  }

  /** A delete keeps only rows of the table; stated by index, which is
      cheaper to use than the membership ensures of DeleteWhere. */
  lemma DeleteKeepsOnlyRows<T(!new)>(rows: seq<Row<T>>, ids: seq<nat>)
    ensures forall j :: 0 <= j < |DeleteWhere(rows, ids)| ==>
      exists k :: 0 <= k < |rows| && rows[k] == DeleteWhere(rows, ids)[j]
  {
    var r := DeleteWhere(rows, ids);
    forall j | 0 <= j < |r| ensures exists k :: 0 <= k < |rows| && rows[k] == r[j] {
      assert r[j] in r;
    }
  }

  lemma {:induction false} HolidayDeleteKeepsDatesUnique(rows: seq<Row<Holiday>>, ids: seq<nat>)
    requires HolidayDatesUnique(rows)
    ensures HolidayDatesUnique(DeleteWhere(rows, ids))
  {
    if rows != [] {
      var tail := rows[1..];
      DatesUniqueTail(rows);
      HolidayDeleteKeepsDatesUnique(tail, ids);
      if rows[0].id !in ids {
        var rest := DeleteWhere(tail, ids);
        DeleteKeepsOnlyRows(tail, ids);
        forall j | 0 <= j < |rest| ensures rows[0].value.date != rest[j].value.date {
          var k :| 0 <= k < |tail| && tail[k] == rest[j];
          assert rows[k + 1] == tail[k];
        }
        DatesUniqueCons(rows[0], rest);
        assert [rows[0]] + rest == DeleteWhere(rows, ids);
      }
    }
  }

  lemma DatesUniqueTail(rows: seq<Row<Holiday>>)
    requires HolidayDatesUnique(rows) && rows != []
    ensures HolidayDatesUnique(rows[1..])
  {
    var tail := rows[1..];
    forall i, j | 0 <= i < j < |tail| ensures tail[i].value.date != tail[j].value.date {
      assert tail[i] == rows[i + 1] && tail[j] == rows[j + 1];
    }
  }

  lemma DatesUniqueCons(r: Row<Holiday>, rest: seq<Row<Holiday>>)
    requires HolidayDatesUnique(rest)
    requires forall j :: 0 <= j < |rest| ==> r.value.date != rest[j].value.date
    ensures HolidayDatesUnique([r] + rest)
  {
    var s := [r] + rest;
    forall i, j | 0 <= i < j < |s| ensures s[i].value.date != s[j].value.date {
      assert s[j] == rest[j - 1];
      if 0 < i { assert s[i] == rest[i - 1]; }
    }
  }

  // ---------------------------------------------------------------------------
  // The store object

  class RecordsStore {
    var profiles: seq<Profile>
    var attendance: seq<Row<Attendance>>
    var holidays: seq<Row<Holiday>>
    var events: seq<Row<Event>>
    var nextId: nat
    /** The requests the backend currently answers with an error. */
    var failing: set<Operation>
    /** Whether a batch insert answers with the array of created rows. */
    var arrayReplies: bool
    /** Every request received, oldest first. */
    var log: seq<Operation>

    /** Primary keys are unique, and so are the keys the model assumes
        unique (the schema declares none): a profile id, (employee, date) of
        an attendance record, the date of a holiday row. */
    ghost predicate Valid()
      reads this`profiles, this`attendance, this`holidays, this`events, this`nextId
    {
      && ProfileIdsUnique(profiles)
      && KeyedBelow(attendance, nextId)
      && KeyedBelow(holidays, nextId)
      && KeyedBelow(events, nextId)
      && AttendanceKeysUnique(Values(attendance))
      && HolidayDatesUnique(holidays)
    }

    constructor (profiles: seq<Profile>, failing: set<Operation>, arrayReplies: bool)
      requires ProfileIdsUnique(profiles)
      ensures Valid()
      ensures this.profiles == profiles && attendance == [] && holidays == [] && events == []
      ensures this.failing == failing && this.arrayReplies == arrayReplies && log == []
    {
      this.profiles := profiles;
      attendance, holidays, events := [], [], [];
      nextId := 0;
      this.failing := failing;
      this.arrayReplies := arrayReplies;
      log := [];
    }

    method ReadHolidayFlags(date: string) returns (r: Result<seq<bool>, StoreError>)
      modifies this`log
      ensures log == old(log) + [HolidayRead]
      ensures r == if HolidayRead in failing then Failure(Rejected(HolidayRead))
                   else Success(HolidayFlagsOn(holidays, date))
    {
      log := log + [HolidayRead];
      if HolidayRead in failing {
        r := Failure(Rejected(HolidayRead));
      } else {
        r := Success(HolidayFlagsOn(holidays, date));
      }
    }

    method ReadActiveEmployees() returns (r: Result<seq<Profile>, StoreError>)
      modifies this`log
      ensures log == old(log) + [ProfileRead]
      ensures r == if ProfileRead in failing then Failure(Rejected(ProfileRead))
                   else Success(ActiveEmployees(profiles))
    {
      log := log + [ProfileRead];
      if ProfileRead in failing {
        r := Failure(Rejected(ProfileRead));
      } else {
        r := Success(ActiveEmployees(profiles));
      }
    }

    method ReadAttendedIds(date: string) returns (r: Result<seq<EmployeeId>, StoreError>)
      modifies this`log
      ensures log == old(log) + [AttendanceRead]
      ensures r == if AttendanceRead in failing then Failure(Rejected(AttendanceRead))
                   else Success(AttendedOn(attendance, date))
    {
      log := log + [AttendanceRead];
      if AttendanceRead in failing {
        r := Failure(Rejected(AttendanceRead));
      } else {
        r := Success(AttendedOn(attendance, date));
      }
    }

    /** One batch insert: all rows are created, or none. */
    method InsertAttendance(vs: seq<Attendance>) returns (r: Result<InsertReply, StoreError>)
      requires Valid()
      modifies this
      ensures Valid()
      ensures log == old(log) + [AttendanceInsert]
      ensures profiles == old(profiles) && holidays == old(holidays) && events == old(events)
      ensures failing == old(failing) && arrayReplies == old(arrayReplies)
      ensures r == if AttendanceInsert in old(failing) then Failure(Rejected(AttendanceInsert))
                   else if !AttendanceKeysUnique(Values(old(attendance)) + vs) then Failure(UniqueViolation(AttendanceInsert))
                   else if old(arrayReplies) then Success(RowArray(Numbered(vs, old(nextId))))
                   else Success(OtherBody)
      ensures attendance == if r.Success? then old(attendance) + Numbered(vs, old(nextId)) else old(attendance)
    {
      log := log + [AttendanceInsert];
      if AttendanceInsert in failing {
        r := Failure(Rejected(AttendanceInsert));
      } else if !AttendanceKeysUnique(Values(attendance) + vs) {
        r := Failure(UniqueViolation(AttendanceInsert));
      } else {
        var created := Numbered(vs, nextId);
        assert Values(attendance + created) == Values(attendance) + vs;
        attendance := attendance + created;
        nextId := nextId + |vs|;
        r := if arrayReplies then Success(RowArray(created)) else Success(OtherBody);
      }
    }

    method UpdateAttendance(id: nat, f: Attendance -> Attendance) returns (err: Option<StoreError>)
      requires Valid()
      requires forall a :: f(a).employeeId == a.employeeId && f(a).date == a.date
      modifies this
      ensures Valid()
      ensures log == old(log) + [AttendanceUpdate]
      ensures profiles == old(profiles) && holidays == old(holidays) && events == old(events)
      ensures nextId == old(nextId) && failing == old(failing) && arrayReplies == old(arrayReplies)
      ensures err == if AttendanceUpdate in failing then Some(Rejected(AttendanceUpdate)) else None
      ensures attendance == if err.None? then UpdateWhere(old(attendance), id, f) else old(attendance)
    {
      log := log + [AttendanceUpdate];
      if AttendanceUpdate in failing {
        err := Some(Rejected(AttendanceUpdate));
      } else {
        var before := attendance;
        attendance := UpdateWhere(attendance, id, f);
        assert forall i :: 0 <= i < |before| ==>
          Values(attendance)[i].employeeId == Values(before)[i].employeeId &&
          Values(attendance)[i].date == Values(before)[i].date;
        err := None;
      }
    }

    method ReadAllHolidays() returns (r: Result<seq<Row<Holiday>>, StoreError>)
      modifies this`log
      ensures log == old(log) + [HolidayRead]
      ensures r == if HolidayRead in failing then Failure(Rejected(HolidayRead)) else Success(holidays)
    {
      log := log + [HolidayRead];
      if HolidayRead in failing {
        r := Failure(Rejected(HolidayRead));
      } else {
        r := Success(holidays);
      }
    }

    method InsertHoliday(h: Holiday) returns (err: Option<StoreError>)
      requires Valid()
      modifies this
      ensures Valid()
      ensures log == old(log) + [HolidayInsert]
      ensures profiles == old(profiles) && attendance == old(attendance) && events == old(events)
      ensures failing == old(failing) && arrayReplies == old(arrayReplies)
      ensures err == if HolidayInsert in old(failing) then Some(Rejected(HolidayInsert))
                     else if FindOn(old(holidays), h.date).Some? then Some(UniqueViolation(HolidayInsert))
                     else None
      ensures holidays == if err.None? then old(holidays) + [Row(old(nextId), h)] else old(holidays)
    {
      log := log + [HolidayInsert];
      if HolidayInsert in failing {
        err := Some(Rejected(HolidayInsert));
      } else if FindOn(holidays, h.date).Some? {
        err := Some(UniqueViolation(HolidayInsert));
      } else {
        FindOnFirstMatch(holidays, h.date);
        holidays := holidays + [Row(nextId, h)];
        nextId := nextId + 1;
        err := None;
      }
    }

    method UpdateHoliday(id: nat, f: Holiday -> Holiday) returns (err: Option<StoreError>)
      requires Valid()
      requires forall h :: f(h).date == h.date
      modifies this
      ensures Valid()
      ensures log == old(log) + [HolidayUpdate]
      ensures profiles == old(profiles) && attendance == old(attendance) && events == old(events)
      ensures nextId == old(nextId) && failing == old(failing) && arrayReplies == old(arrayReplies)
      ensures err == if HolidayUpdate in failing then Some(Rejected(HolidayUpdate)) else None
      ensures holidays == if err.None? then UpdateWhere(old(holidays), id, f) else old(holidays)
    {
      log := log + [HolidayUpdate];
      if HolidayUpdate in failing {
        err := Some(Rejected(HolidayUpdate));
      } else {
        holidays := UpdateWhere(holidays, id, f);
        err := None;
      }
    }

    method DeleteHolidays(ids: seq<nat>) returns (err: Option<StoreError>)
      requires Valid()
      modifies this
      ensures Valid()
      ensures log == old(log) + [HolidayDelete]
      ensures profiles == old(profiles) && attendance == old(attendance) && events == old(events)
      ensures nextId == old(nextId) && failing == old(failing) && arrayReplies == old(arrayReplies)
      ensures err == if HolidayDelete in failing then Some(Rejected(HolidayDelete)) else None
      ensures holidays == if err.None? then DeleteWhere(old(holidays), ids) else old(holidays)
    {
      log := log + [HolidayDelete];
      if HolidayDelete in failing {
        err := Some(Rejected(HolidayDelete));
      } else {
        DeleteKeepsOrder(holidays, ids, nextId);
        HolidayDeleteKeepsDatesUnique(holidays, ids);
        holidays := DeleteWhere(holidays, ids);
        err := None;
      }
    }

    method InsertEvent(e: Event) returns (err: Option<StoreError>)
      requires Valid()
      modifies this
      ensures Valid()
      ensures log == old(log) + [EventInsert]
      ensures profiles == old(profiles) && attendance == old(attendance) && holidays == old(holidays)
      ensures failing == old(failing) && arrayReplies == old(arrayReplies)
      ensures err == if EventInsert in old(failing) then Some(Rejected(EventInsert)) else None
      ensures events == if err.None? then old(events) + [Row(old(nextId), e)] else old(events)
    {
      log := log + [EventInsert];
      if EventInsert in failing {
        err := Some(Rejected(EventInsert));
      } else {
        events := events + [Row(nextId, e)];
        nextId := nextId + 1;
        err := None;
      }
    }

    method UpdateEvent(id: nat, f: Event -> Event) returns (err: Option<StoreError>)
      requires Valid()
      modifies this
      ensures Valid()
      ensures log == old(log) + [EventUpdate]
      ensures profiles == old(profiles) && attendance == old(attendance) && holidays == old(holidays)
      ensures nextId == old(nextId) && failing == old(failing) && arrayReplies == old(arrayReplies)
      ensures err == if EventUpdate in failing then Some(Rejected(EventUpdate)) else None
      ensures events == if err.None? then UpdateWhere(old(events), id, f) else old(events)
    {
      log := log + [EventUpdate];
      if EventUpdate in failing {
        err := Some(Rejected(EventUpdate));
      } else {
        events := UpdateWhere(events, id, f);
        err := None;
      }
    }
  }
}
