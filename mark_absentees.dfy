/**
  The absentee auto-marking job. Once per business day it finds today's date
  in India Standard Time, skips the run when the calendar says the day is a
  holiday, and otherwise writes one "absent" record for every active employee
  who has no attendance record for today yet.

  The HTTP cron handler and the command-line script run the same sequence;
  `MarkForToday` is that shared sequence, `Handler` the HTTP adapter around
  it, and the script's adapter lives in module MarkAbsenteesScript.
 */
module MarkAbsentees {
  import opened Wrappers
  import opened CivilTime
  import opened Records

  const AbsentReason: string := "Auto-marked absent"
  const HolidayMessage: string := "Today is a holiday \U{2014} no absentees marked."
  const NothingMessage: string := "No missing attendance records."

  // ---------------------------------------------------------------------------
  // Calendar policy of the job

  /** The job's holiday rule: the first explicit row's flag when the date has
      rows, otherwise only Sunday (day 0) is a holiday. */
  function IsHoliday(flags: seq<bool>, dayOfWeek: int): bool {
    if |flags| > 0 then flags[0] else dayOfWeek == 0
  }

  /** With at most one row per date, an explicit row decides in both
      directions, and without one exactly Sundays are holidays. */
  lemma HolidayRule(rows: seq<Row<Holiday>>, date: string, dayOfWeek: int)
    requires HolidayDatesUnique(rows)
    ensures forall i :: 0 <= i < |rows| && rows[i].value.date == date ==>
      IsHoliday(HolidayFlagsOn(rows, date), dayOfWeek) == rows[i].value.isHoliday
    ensures (forall i :: 0 <= i < |rows| ==> rows[i].value.date != date) ==>
      (IsHoliday(HolidayFlagsOn(rows, date), dayOfWeek) <==> dayOfWeek == 0)
  {
    var flags := HolidayFlagsOn(rows, date);
    forall i | 0 <= i < |rows| && rows[i].value.date == date
      ensures IsHoliday(flags, dayOfWeek) == rows[i].value.isHoliday
    {
      var k :| 0 <= k < |rows| && rows[k].value.date == date && flags[0] == rows[k].value.isHoliday;
      assert k == i;
    }
  }

  // ---------------------------------------------------------------------------
  // Absentee resolution

  /** The fixed-shape record written for an employee with nothing recorded. */
  function AbsentDraft(id: EmployeeId, dateStr: string, at: Timestamp): Attendance {
    Attendance(id, dateStr, Absent, None, Some(AbsentReason), None, None, true, None, Some(at))
  }

  function ProfileIds(ps: seq<Profile>): (ids: seq<EmployeeId>)
    ensures |ids| == |ps| && forall i :: 0 <= i < |ps| ==> ids[i] == ps[i].id
  {
    seq(|ps|, i requires 0 <= i < |ps| => ps[i].id)
  }

  function EmployeeIdsOf(vs: seq<Attendance>): (ids: seq<EmployeeId>)
    ensures |ids| == |vs| && forall i :: 0 <= i < |vs| ==> ids[i] == vs[i].employeeId
  {
    seq(|vs|, i requires 0 <= i < |vs| => vs[i].employeeId)
  }

  /** `profiles.filter(p => !presentIds.has(p.id)).map(absent draft)`. */
  function Resolve(profiles: seq<Profile>, present: seq<EmployeeId>, dateStr: string, at: Timestamp)
    : (drafts: seq<Attendance>)
    ensures |drafts| <= |profiles|
    ensures forall i :: 0 <= i < |drafts| ==> drafts[i] == AbsentDraft(drafts[i].employeeId, dateStr, at)
  {
    if profiles == [] then []
    else
      (if profiles[0].id in present then [] else [AbsentDraft(profiles[0].id, dateStr, at)])
      + Resolve(profiles[1..], present, dateStr, at)
  }

  /** Exactly the roster's employees with nothing recorded get a row. */
  lemma {:induction false} ResolveMembers(profiles: seq<Profile>, present: seq<EmployeeId>, dateStr: string, at: Timestamp)
    ensures forall e :: e in EmployeeIdsOf(Resolve(profiles, present, dateStr, at)) <==>
      e in ProfileIds(profiles) && e !in present
  {
    if profiles != [] {
      ResolveMembers(profiles[1..], present, dateStr, at);
      var head := if profiles[0].id in present then [] else [AbsentDraft(profiles[0].id, dateStr, at)];
      var rest := Resolve(profiles[1..], present, dateStr, at);
      var ids := EmployeeIdsOf(head + rest);
      assert Resolve(profiles, present, dateStr, at) == head + rest;
      assert ProfileIds(profiles) == [profiles[0].id] + ProfileIds(profiles[1..]);
      assert ids == EmployeeIdsOf(head) + EmployeeIdsOf(rest);
      forall e ensures e in ids <==> e in ProfileIds(profiles) && e !in present {
        assert e in ids <==> e in EmployeeIdsOf(head) || e in EmployeeIdsOf(rest);
      }
    }
  }

  /** `a` is `b` with some elements left out, order kept. */
  predicate IsSubsequence<T(==)>(a: seq<T>, b: seq<T>)
    decreases |b|
  {
    a == [] || (b != [] && if a[0] == b[0] then IsSubsequence(a[1..], b[1..]) else IsSubsequence(a, b[1..]))
  }

  /** The rows come out in the order the roster listed the employees. */
  lemma {:induction false} ResolveKeepsRosterOrder(profiles: seq<Profile>, present: seq<EmployeeId>, dateStr: string, at: Timestamp)
    ensures IsSubsequence(EmployeeIdsOf(Resolve(profiles, present, dateStr, at)), ProfileIds(profiles))
  {
    if profiles != [] {
      ResolveKeepsRosterOrder(profiles[1..], present, dateStr, at);
      var rest := EmployeeIdsOf(Resolve(profiles[1..], present, dateStr, at));
      var all := ProfileIds(profiles);
      assert all[1..] == ProfileIds(profiles[1..]);
      if profiles[0].id !in present {
        var ids := EmployeeIdsOf(Resolve(profiles, present, dateStr, at));
        assert ids == [profiles[0].id] + rest;
        assert ids[1..] == rest;
      } else {
        assert EmployeeIdsOf(Resolve(profiles, present, dateStr, at)) == rest;
        SubsequenceOfTail(rest, all);
      }
    }
  }

  lemma {:induction false} SubsequenceOfTail<T>(a: seq<T>, b: seq<T>)
    requires b != [] && IsSubsequence(a, b[1..])
    ensures IsSubsequence(a, b)
    decreases |b|, |a|
  {
    if a != [] && a[0] == b[0] {
      SubsequenceDropHead(a, b[1..]);
    }
  }

  lemma {:induction false} SubsequenceDropHead<T>(a: seq<T>, b: seq<T>)
    requires a != [] && IsSubsequence(a, b)
    ensures IsSubsequence(a[1..], b)
    decreases |b|, |a|
  {
    assert b != [];
    if a[0] != b[0] {
      SubsequenceDropHead(a, b[1..]);
    }
    SubsequenceOfTail(a[1..], b);
  }

  /** The roster query is a filter of the table: it keeps the active
      employees in table order, each as often as the table lists it, and
      nothing else. */
  lemma {:induction false} ActiveEmployeesIsFilter(ps: seq<Profile>)
    ensures IsSubsequence(ActiveEmployees(ps), ps)
    ensures forall p :: multiset(ActiveEmployees(ps))[p] ==
                        if p.role == Employee && p.isActive then multiset(ps)[p] else 0
  {
    if ps != [] {
      ActiveEmployeesIsFilter(ps[1..]);
      var rest := ActiveEmployees(ps[1..]);
      assert ps == [ps[0]] + ps[1..];
      if ps[0].role == Employee && ps[0].isActive {
        assert ActiveEmployees(ps) == [ps[0]] + rest;
        assert ActiveEmployees(ps)[1..] == rest;
      } else {
        assert ActiveEmployees(ps) == rest;
        SubsequenceOfTail(rest, ps);
      }
    }
  }

  /** An empty roster, or a roster whose every id is already present,
      yields no rows. */
  lemma {:induction false} NothingMissing(profiles: seq<Profile>, present: seq<EmployeeId>, dateStr: string, at: Timestamp)
    requires forall i :: 0 <= i < |profiles| ==> profiles[i].id in present
    ensures Resolve(profiles, present, dateStr, at) == []
  {
    if profiles != [] {
      NothingMissing(profiles[1..], present, dateStr, at);
    }
  }

  lemma {:induction false} ActiveEmployeesUnique(ps: seq<Profile>)
    requires ProfileIdsUnique(ps)
    ensures ProfileIdsUnique(ActiveEmployees(ps))
  {
    if ps != [] {
      ActiveEmployeesUnique(ps[1..]);
      var rest := ActiveEmployees(ps[1..]);
      if ps[0].role == Employee && ps[0].isActive {
        var r := [ps[0]] + rest;
        forall j | 0 < j < |r| ensures r[0].id != r[j].id {
          assert r[j] in rest;
          var k :| 0 <= k < |ps[1..]| && ps[1..][k] == r[j];
          assert ps[k + 1] == r[j];
        }
        forall i, j | 0 <= i < j < |r| ensures r[i].id != r[j].id {
          if 0 < i { assert r[i] == rest[i - 1] && r[j] == rest[j - 1]; }
        }
      }
    }
  }

  /** Distinct roster ids give distinct draft ids. */
  lemma {:induction false} ResolveIdsDistinct(profiles: seq<Profile>, present: seq<EmployeeId>, dateStr: string, at: Timestamp)
    requires ProfileIdsUnique(profiles)
    ensures AttendanceKeysUnique(Resolve(profiles, present, dateStr, at))
  {
    if profiles != [] {
      ResolveIdsDistinct(profiles[1..], present, dateStr, at);
      ResolveMembers(profiles[1..], present, dateStr, at);
      var rest := Resolve(profiles[1..], present, dateStr, at);
      if profiles[0].id !in present {
        var r := Resolve(profiles, present, dateStr, at);
        assert r == [AbsentDraft(profiles[0].id, dateStr, at)] + rest;
        forall j | 0 < j < |r| ensures r[0].employeeId != r[j].employeeId {
          assert r[j] == rest[j - 1];
          assert rest[j - 1].employeeId in EmployeeIdsOf(rest);
          var k :| 0 <= k < |profiles[1..]| && ProfileIds(profiles[1..])[k] == r[j].employeeId;
          assert profiles[k + 1].id == r[j].employeeId;
        }
        forall i, j | 0 <= i < j < |r| ensures r[i].employeeId != r[j].employeeId || r[i].date != r[j].date {
          if 0 < i { assert r[i] == rest[i - 1] && r[j] == rest[j - 1]; }
        }
      }
    }
  }

  /** The rows a run on these tables would insert for today. */
  function Drafts(profiles: seq<Profile>, attendance: seq<Row<Attendance>>, today: Today, at: Timestamp)
    : seq<Attendance>
  {
    Resolve(ActiveEmployees(profiles), AttendedOn(attendance, today.dateStr), today.dateStr, at)
  }

  /** Inserting the drafts never duplicates an (employee, date) key: the
      attendance snapshot is the store's own, so the pre-filtering is exact. */
  lemma DraftsNeverClash(profiles: seq<Profile>, attendance: seq<Row<Attendance>>, today: Today, at: Timestamp)
    requires ProfileIdsUnique(profiles) && AttendanceKeysUnique(Values(attendance))
    ensures AttendanceKeysUnique(Values(attendance) + Drafts(profiles, attendance, today, at))
  {
    var present := AttendedOn(attendance, today.dateStr);
    var drafts := Drafts(profiles, attendance, today, at);
    ActiveEmployeesUnique(profiles);
    ResolveIdsDistinct(ActiveEmployees(profiles), present, today.dateStr, at);
    ResolveMembers(ActiveEmployees(profiles), present, today.dateStr, at);
    var vs := Values(attendance);
    var all := vs + drafts;
    forall i, j | 0 <= i < j < |all|
      ensures all[i].employeeId != all[j].employeeId || all[i].date != all[j].date
    {
      if j < |vs| {
        assert all[i] == vs[i] && all[j] == vs[j];
      } else if |vs| <= i {
        assert all[i] == drafts[i - |vs|] && all[j] == drafts[j - |vs|];
      } else {
        var d := drafts[j - |vs|];
        assert all[j] == d && all[i] == attendance[i].value;
        assert d.employeeId in EmployeeIdsOf(drafts);
        if attendance[i].value.date == today.dateStr {
          assert attendance[i].value.employeeId in present;
        }
      }
    }
  }

  // ---------------------------------------------------------------------------
  // The run

  datatype Outcome =
    | HolidaySkip
    | NothingToDo
    | Inserted(count: nat)
    | Failed(error: StoreError)

  /** `inserted: Array.isArray(data) ? data.length : 1`. */
  function InsertedCount(reply: InsertReply): nat {
    match reply
    case RowArray(rows) => |rows|
    case OtherBody => 1
  }

  /** `insertAbsentees` on a store holding `attendance`: no request for an
      empty batch, otherwise the one batch insert and its count. */
  function InsertResult(attendance: seq<Row<Attendance>>, rows: seq<Attendance>, failing: set<Operation>,
                        arrayReplies: bool): Result<nat, StoreError>
  {
    if rows == [] then Success(0)
    else if AttendanceInsert in failing then Failure(Rejected(AttendanceInsert))
    else if !AttendanceKeysUnique(Values(attendance) + rows) then Failure(UniqueViolation(AttendanceInsert))
    else Success(if arrayReplies then |rows| else 1)
  }

  /** A failed batch insert is reported against the insert request. */
  lemma InsertFailsOnInsert(attendance: seq<Row<Attendance>>, rows: seq<Attendance>, failing: set<Operation>, arrayReplies: bool)
    ensures InsertResult(attendance, rows, failing, arrayReplies).Failure? ==>
      InsertResult(attendance, rows, failing, arrayReplies).error.op == AttendanceInsert
  { }

  /** What a run ends with once the day is known not to be a holiday. When
      both snapshot reads fail, the profiles error is the one reported. */
  function WorkingDayOutcome(profiles: seq<Profile>, attendance: seq<Row<Attendance>>,
                             failing: set<Operation>, arrayReplies: bool, today: Today, at: Timestamp): Outcome
  {
    if ProfileRead in failing then Failed(Rejected(ProfileRead))
    else if AttendanceRead in failing then Failed(Rejected(AttendanceRead))
    else
      var drafts := Drafts(profiles, attendance, today, at);
      if drafts == [] then NothingToDo
      else match InsertResult(attendance, drafts, failing, arrayReplies)
        case Success(n) => Inserted(n)
        case Failure(e) => Failed(e)
  }

  /** What a run for `today` ends with, given the store's tables and which of
      its requests fail. */
  function RunOutcome(holidays: seq<Row<Holiday>>, profiles: seq<Profile>, attendance: seq<Row<Attendance>>,
                      failing: set<Operation>, arrayReplies: bool, today: Today, at: Timestamp): Outcome
  {
    if HolidayRead in failing then Failed(Rejected(HolidayRead))
    else if IsHoliday(HolidayFlagsOn(holidays, today.dateStr), today.dayOfWeek) then HolidaySkip
    else WorkingDayOutcome(profiles, attendance, failing, arrayReplies, today, at)
  }

  /** The requests a run makes after the holiday lookup, before it ends with o. */
  function LaterRequests(o: Outcome): seq<Operation> {
    match o
    case HolidaySkip => []
    case NothingToDo => [ProfileRead, AttendanceRead]
    case Inserted(_) => [ProfileRead, AttendanceRead, AttendanceInsert]
    case Failed(e) =>
      if e.op == HolidayRead then []
      else if e.op == ProfileRead || e.op == AttendanceRead then [ProfileRead, AttendanceRead]
      else [ProfileRead, AttendanceRead, AttendanceInsert]
  }

  /** The requests a run makes before it ends with o. */
  function RequestsFor(o: Outcome): seq<Operation> {
    [HolidayRead] + LaterRequests(o)
  }

  /** On a store that keeps its keys unique, a run never fails with a
      duplicate key; it fails only when one of its requests is rejected. */
  lemma RunNeverDuplicates(holidays: seq<Row<Holiday>>, profiles: seq<Profile>, attendance: seq<Row<Attendance>>,
                           failing: set<Operation>, arrayReplies: bool, today: Today, at: Timestamp)
    requires ProfileIdsUnique(profiles) && AttendanceKeysUnique(Values(attendance))
    ensures var o := RunOutcome(holidays, profiles, attendance, failing, arrayReplies, today, at);
      o.Failed? ==> o.error.Rejected? && o.error.op in failing
  {
    DraftsNeverClash(profiles, attendance, today, at);
  }

  /** Idempotence: once a run's rows are written, a second run for the same
      date finds every active employee recorded and reports nothing to do. */
  lemma SecondRunInsertsNothing(holidays: seq<Row<Holiday>>, profiles: seq<Profile>, attendance: seq<Row<Attendance>>,
                                failing: set<Operation>, arrayReplies: bool, today: Today, at: Timestamp,
                                next: nat, at2: Timestamp)
    requires RunOutcome(holidays, profiles, attendance, failing, arrayReplies, today, at).Inserted?
    ensures var after := attendance + Numbered(Drafts(profiles, attendance, today, at), next);
      RunOutcome(holidays, profiles, after, failing, arrayReplies, today, at2) == NothingToDo
  {
    var after := attendance + Numbered(Drafts(profiles, attendance, today, at), next);
    NoneLeftAfterWrite(profiles, attendance, today, at, next, at2);
    NoDraftsNothingToDo(holidays, profiles, attendance, after, failing, arrayReplies, today, at, at2);
  }

  /** The same holds whatever the backend's health on the second run: it
      inserts nothing, and it fails only on a rejected read, never on the
      insert. */
  lemma SecondRunAfterHealthChange(holidays: seq<Row<Holiday>>, profiles: seq<Profile>, attendance: seq<Row<Attendance>>,
                                   failing: set<Operation>, arrayReplies: bool, today: Today, at: Timestamp,
                                   next: nat, failing2: set<Operation>, arrayReplies2: bool, at2: Timestamp)
    requires RunOutcome(holidays, profiles, attendance, failing, arrayReplies, today, at).Inserted?
    ensures var after := attendance + Numbered(Drafts(profiles, attendance, today, at), next);
      var o := RunOutcome(holidays, profiles, after, failing2, arrayReplies2, today, at2);
      o == NothingToDo ||
      (o.Failed? && o.error.Rejected? && o.error.op in failing2 && o.error.op in {HolidayRead, ProfileRead, AttendanceRead})
  {
    NoneLeftAfterWrite(profiles, attendance, today, at, next, at2);
  }

  /** After a run's drafts are written, the same date has no drafts left:
      every active employee is recorded on it. */
  lemma NoneLeftAfterWrite(profiles: seq<Profile>, attendance: seq<Row<Attendance>>, today: Today, at: Timestamp,
                           next: nat, at2: Timestamp)
    ensures Drafts(profiles, attendance + Numbered(Drafts(profiles, attendance, today, at), next), today, at2) == []
  {
    var drafts := Drafts(profiles, attendance, today, at);
    var after := attendance + Numbered(drafts, next);
    var active := ActiveEmployees(profiles);
    var present := AttendedOn(attendance, today.dateStr);
    ResolveMembers(active, present, today.dateStr, at);
    forall i | 0 <= i < |active| ensures active[i].id in AttendedOn(after, today.dateStr) {
      assert ProfileIds(active)[i] == active[i].id;
      RecordedAfterWrite(attendance, drafts, next, today.dateStr, active[i].id);
    }
    NothingMissing(active, AttendedOn(after, today.dateStr), today.dateStr, at2);
  }

  /** A day that had rows to insert, now with none left, is a day with
      nothing to do. */
  lemma NoDraftsNothingToDo(holidays: seq<Row<Holiday>>, profiles: seq<Profile>, attendance: seq<Row<Attendance>>,
                             after: seq<Row<Attendance>>, failing: set<Operation>, arrayReplies: bool, today: Today,
                             at: Timestamp, at2: Timestamp)
    requires RunOutcome(holidays, profiles, attendance, failing, arrayReplies, today, at).Inserted?
    requires Drafts(profiles, after, today, at2) == []
    ensures RunOutcome(holidays, profiles, after, failing, arrayReplies, today, at2) == NothingToDo
  { }

  /** An employee recorded on the date before the write, or one of the rows
      written for it, is recorded on it afterwards. */
  lemma RecordedAfterWrite(attendance: seq<Row<Attendance>>, drafts: seq<Attendance>, next: nat, date: string, e: EmployeeId)
    requires forall i :: 0 <= i < |drafts| ==> drafts[i].date == date
    requires e in AttendedOn(attendance, date) || e in EmployeeIdsOf(drafts)
    ensures e in AttendedOn(attendance + Numbered(drafts, next), date)
  {
    var after := attendance + Numbered(drafts, next);
    if e in AttendedOn(attendance, date) {
      var k :| 0 <= k < |attendance| && attendance[k].value.date == date && attendance[k].value.employeeId == e;
      assert after[k] == attendance[k];
    } else {
      var j :| 0 <= j < |drafts| && EmployeeIdsOf(drafts)[j] == e;
      assert after[|attendance| + j] == Row(next + j, drafts[j]);
    }
  }

  /** `insertAbsentees`: no request for an empty batch; otherwise one batch
      insert whose count is the length of the returned array, or 1. */
  method InsertAbsentees(store: RecordsStore, rows: seq<Attendance>) returns (r: Result<nat, StoreError>)
    requires store.Valid()
    modifies store
    ensures store.Valid()
    ensures store.profiles == old(store.profiles) && store.holidays == old(store.holidays)
    ensures store.events == old(store.events)
    ensures store.failing == old(store.failing) && store.arrayReplies == old(store.arrayReplies)
    ensures r == InsertResult(old(store.attendance), rows, old(store.failing), old(store.arrayReplies))
    ensures store.log == old(store.log) + if rows == [] then [] else [AttendanceInsert]
    ensures store.attendance == if r.Success? && rows != [] then old(store.attendance) + Numbered(rows, old(store.nextId))
                                else old(store.attendance)
  {
    if rows == [] {
      assert store.log == old(store.log) + [];
      return Success(0);
    }
    var reply := store.InsertAttendance(rows);
    match reply
    case Failure(e) => r := Failure(e);
    case Success(body) => r := Success(InsertedCount(body));
  }

  /** The run once the holiday lookup said "working day": the two snapshots,
      resolution and the single write. */
  method MarkWorkingDay(store: RecordsStore, today: Today, at: Timestamp) returns (o: Outcome)
    requires store.Valid()
    modifies store
    ensures store.Valid()
    ensures store.profiles == old(store.profiles) && store.holidays == old(store.holidays)
    ensures store.events == old(store.events)
    ensures store.failing == old(store.failing) && store.arrayReplies == old(store.arrayReplies)
    ensures o == WorkingDayOutcome(old(store.profiles), old(store.attendance), old(store.failing),
                                   old(store.arrayReplies), today, at)
    ensures store.log == old(store.log) + LaterRequests(o)
    ensures store.attendance == if o.Inserted? then
              old(store.attendance) + Numbered(Drafts(old(store.profiles), old(store.attendance), today, at), old(store.nextId))
            else old(store.attendance)
  {
    ghost var log0, attendance0 := store.log, store.attendance;
    var drafts := ReadDrafts(store, today, at);
    if drafts.Failure? {
      o := Failed(drafts.error);
      RequestsAfterReads(log0, o);
      return;
    }
    if drafts.value == [] {
      o := NothingToDo;
      RequestsAfterReads(log0, o);
      return;
    }
    var result := InsertAbsentees(store, drafts.value);
    match result
    case Failure(e) =>
      InsertFailsOnInsert(attendance0, drafts.value, store.failing, store.arrayReplies);
      o := Failed(e);
    case Success(n) =>
      o := Inserted(n);
    RequestsAfterInsert(log0, o);
  }

  /** The two snapshot reads, sent together as with `Promise.all`, and the
      resolution of their answers into the rows to insert. The roster's
      error is the one reported when both reads fail. */
  method ReadDrafts(store: RecordsStore, today: Today, at: Timestamp) returns (drafts: Result<seq<Attendance>, StoreError>)
    modifies store`log
    ensures store.log == old(store.log) + [ProfileRead, AttendanceRead]
    ensures drafts == if ProfileRead in store.failing then Failure(Rejected(ProfileRead))
                      else if AttendanceRead in store.failing then Failure(Rejected(AttendanceRead))
                      else Success(Drafts(store.profiles, store.attendance, today, at))
  {
    var profiles := store.ReadActiveEmployees();
    var attended := store.ReadAttendedIds(today.dateStr);
    if profiles.Failure? || attended.Failure? {
      drafts := if profiles.Failure? then Failure(profiles.error) else Failure(attended.error);
      return;
    }
    drafts := Success(Resolve(profiles.value, attended.value, today.dateStr, at));
  }

  /** The log of a run that ended at the snapshot reads. */
  lemma RequestsAfterReads(log0: seq<Operation>, o: Outcome)
    requires o.NothingToDo? || (o.Failed? && (o.error.op == ProfileRead || o.error.op == AttendanceRead))
    ensures log0 + [ProfileRead, AttendanceRead] == log0 + LaterRequests(o)
  { }

  /** The log of a run that sent the batch insert. */
  lemma RequestsAfterInsert(log0: seq<Operation>, o: Outcome)
    requires o.Inserted? || (o.Failed? && o.error.op == AttendanceInsert)
    ensures log0 + [ProfileRead, AttendanceRead] + [AttendanceInsert] == log0 + LaterRequests(o)
  {
    assert [ProfileRead, AttendanceRead] + [AttendanceInsert] == LaterRequests(o);
  }

  /** The run after "today" is known, shared by the HTTP handler and the
      script: the holiday lookup, then the working-day run. */
  method MarkForToday(store: RecordsStore, today: Today, at: Timestamp) returns (o: Outcome)
    requires store.Valid()
    modifies store
    ensures store.Valid()
    ensures store.profiles == old(store.profiles) && store.holidays == old(store.holidays)
    ensures store.events == old(store.events)
    ensures store.failing == old(store.failing) && store.arrayReplies == old(store.arrayReplies)
    ensures o == RunOutcome(old(store.holidays), old(store.profiles), old(store.attendance),
                            old(store.failing), old(store.arrayReplies), today, at)
    ensures store.log == old(store.log) + RequestsFor(o)
    ensures store.attendance == if o.Inserted? then
              old(store.attendance) + Numbered(Drafts(old(store.profiles), old(store.attendance), today, at), old(store.nextId))
            else old(store.attendance)
  {
    ghost var log0 := store.log;
    var flags := store.ReadHolidayFlags(today.dateStr);
    if flags.Failure? {
      o := Failed(flags.error);
    } else if IsHoliday(flags.value, today.dayOfWeek) {
      o := HolidaySkip;
    } else {
      o := MarkWorkingDay(store, today, at);
    }
    RequestsAfterHoliday(log0, o);
  }

  /** The log of a run: the holiday lookup, then what followed it. */
  lemma RequestsAfterHoliday(log0: seq<Operation>, o: Outcome)
    ensures log0 + [HolidayRead] + LaterRequests(o) == log0 + RequestsFor(o)
    ensures o.HolidaySkip? || (o.Failed? && o.error.op == HolidayRead) ==> LaterRequests(o) == []
  { }

  // ---------------------------------------------------------------------------
  // The HTTP adapter

  datatype ReplyBody =
    | Summary(inserted: nat, message: Option<string>)
    | Unauthorized
    | ServerError(cause: StoreError)

  datatype HttpReply = HttpReply(status: int, body: ReplyBody)

  /** With CRON_SECRET set, the Authorization header (either spelling, the
      lower-case one first) must be exactly `Bearer <secret>`. */
  predicate Authorized(cronSecret: string, authorization: string, authorizationCap: string) {
    cronSecret == "" ||
    (if authorization != "" then authorization else authorizationCap) == "Bearer " + cronSecret
  }

  function ReplyOf(o: Outcome): HttpReply {
    match o
    case HolidaySkip => HttpReply(200, Summary(0, Some(HolidayMessage)))
    case NothingToDo => HttpReply(200, Summary(0, Some(NothingMessage)))
    case Inserted(n) => HttpReply(200, Summary(n, None))
    case Failed(e) => HttpReply(500, ServerError(e))
  }

  /** A reply is 200 exactly when the run did not fail, and then it reports
      what the run inserted; a store failure is a 500 carrying the error. */
  lemma ReplyReportsOutcome(o: Outcome)
    ensures ReplyOf(o).status == 200 <==> !o.Failed?
    ensures ReplyOf(o).status == 200 ==>
      ReplyOf(o).body.Summary? && ReplyOf(o).body.inserted == (if o.Inserted? then o.count else 0)
    ensures o.Failed? ==> ReplyOf(o) == HttpReply(500, ServerError(o.error))
  { }

  /** The cron endpoint. */
  method Handler(store: RecordsStore, cronSecret: string, authorization: string, authorizationCap: string,
                 nowMs: int, at: Timestamp) returns (reply: HttpReply)
    requires store.Valid()
    modifies store
    ensures store.Valid()
    ensures store.profiles == old(store.profiles) && store.holidays == old(store.holidays)
    ensures store.events == old(store.events)
    ensures store.failing == old(store.failing) && store.arrayReplies == old(store.arrayReplies)
    ensures !Authorized(cronSecret, authorization, authorizationCap) ==>
      reply == HttpReply(401, Unauthorized) && store.log == old(store.log) && store.attendance == old(store.attendance)
    ensures Authorized(cronSecret, authorization, authorizationCap) ==>
      var o := RunOutcome(old(store.holidays), old(store.profiles), old(store.attendance),
                          old(store.failing), old(store.arrayReplies), TodayInIst(nowMs), at);
      && reply == ReplyOf(o)
      && store.log == old(store.log) + RequestsFor(o)
      && store.attendance == if o.Inserted? then
           old(store.attendance) + Numbered(Drafts(old(store.profiles), old(store.attendance), TodayInIst(nowMs), at), old(store.nextId))
         else old(store.attendance)
  {
    if !Authorized(cronSecret, authorization, authorizationCap) {
      return HttpReply(401, Unauthorized);
    }
    var today := TodayInIst(nowMs);
    var o := MarkForToday(store, today, at);
    reply := ReplyOf(o);
  }

  /** Two invocations for the same IST day: after a first run that inserted
      rows, the second replies 200 with nothing inserted. */
  method HandlerTwice(store: RecordsStore, cronSecret: string, authorization: string, nowMs: int, laterMs: int,
                      at: Timestamp, at2: Timestamp) returns (first: HttpReply, second: HttpReply)
    requires store.Valid()
    requires TodayInIst(laterMs) == TodayInIst(nowMs)
    modifies store
    ensures store.Valid()
    ensures first.body.Summary? && first.body.message.None? ==>
      second == HttpReply(200, Summary(0, Some(NothingMessage)))
  {
    ghost var holidays, profiles, attendance := store.holidays, store.profiles, store.attendance;
    ghost var failing, arrayReplies, next := store.failing, store.arrayReplies, store.nextId;
    ghost var today := TodayInIst(nowMs);
    first := Handler(store, cronSecret, authorization, "", nowMs, at);
    ghost var attendance1 := store.attendance;
    second := Handler(store, cronSecret, authorization, "", laterMs, at2);
    if first.body.Summary? && first.body.message.None? {
      assert Authorized(cronSecret, authorization, "");
      ghost var o1 := RunOutcome(holidays, profiles, attendance, failing, arrayReplies, today, at);
      assert first == ReplyOf(o1);
      assert o1.Inserted?;
      assert attendance1 == attendance + Numbered(Drafts(profiles, attendance, today, at), next);
      SecondRunInsertsNothing(holidays, profiles, attendance, failing, arrayReplies, today, at, next, at2);
      assert second == ReplyOf(RunOutcome(holidays, profiles, attendance1, failing, arrayReplies, today, at2));
    }
  }
}
