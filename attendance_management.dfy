/**
  The admin's attendance review screen: the three approval states of a
  record, the Approve / Reject / Edit actions that move a record between
  them, the work-mode rule of the edit form, and the email filter of the
  listing.
 */
module AttendanceManagement {
  import opened Wrappers
  import opened Records
  import opened JsText

  datatype Approval = Pending | Approved | Denied

  /** JavaScript truthiness of an optional id: null and "" are falsy. */
  predicate HasApprover(a: Attendance) {
    a.approvedBy.Some? && a.approvedBy.value != ""
  }

  /** The approval state the listing shows. */
  function ApprovalOf(a: Attendance): Approval {
    if a.isApproved then Approved else if HasApprover(a) then Denied else Pending
  }

  function ApprovalLabel(a: Attendance): (text: string)
    ensures text == "Approved" <==> a.isApproved
    ensures text == "Denied" <==> !a.isApproved && HasApprover(a)
    ensures text == "Pending" <==> !a.isApproved && !HasApprover(a)
  {
    match ApprovalOf(a)
    case Approved => "Approved"
    case Denied => "Denied"
    case Pending => "Pending"
  }

  /** Whether the Approve and Reject buttons are shown for the record. */
  predicate OffersReview(a: Attendance) {
    !a.isApproved && !HasApprover(a)
  }

  /** The buttons are offered for Pending records and for no others. */
  lemma ReviewOnlyWhenPending(a: Attendance)
    ensures OffersReview(a) <==> ApprovalOf(a) == Pending
  { }

  predicate IsWorkingStatus(s: Status) {
    s == Present || s == HalfDay
  }

  /** `handleApprove`'s update. */
  function ApprovePatch(a: Attendance, admin: EmployeeId, at: Timestamp): Attendance {
    a.(isApproved := true, approvedBy := Some(admin), approvedAt := Some(at))
  }

  /** `handleReject`'s update. */
  function RejectPatch(a: Attendance, admin: EmployeeId, at: Timestamp): Attendance {
    a.(isApproved := false, approvedBy := Some(admin), approvedAt := Some(at))
  }

  /** `handleUpdateRecord`'s payload applied to the stored record a: status
      and reason from the edited copy, approval by the admin, and a work mode
      only on a working day, defaulting to physical. */
  function EditPatch(a: Attendance, edited: Attendance, admin: EmployeeId, at: Timestamp): Attendance {
    a.(status := edited.status, reason := edited.reason,
       isApproved := true, approvedBy := Some(admin), approvedAt := Some(at),
       workMode := if IsWorkingStatus(edited.status) then
                     (if edited.workMode.Some? then edited.workMode else Some(Physical))
                   else None)
  }

  /** Approve leads to Approved and Reject to Denied (for a signed-in admin);
      neither touches status, reason, work mode, employee or date. */
  lemma ReviewOutcomes(a: Attendance, admin: EmployeeId, at: Timestamp)
    requires admin != ""
    ensures ApprovalOf(ApprovePatch(a, admin, at)) == Approved
    ensures ApprovalOf(RejectPatch(a, admin, at)) == Denied
    ensures !OffersReview(ApprovePatch(a, admin, at)) && !OffersReview(RejectPatch(a, admin, at))
    ensures RejectPatch(a, admin, at).status == a.status && ApprovePatch(a, admin, at).status == a.status
    ensures RejectPatch(a, admin, at).(isApproved := a.isApproved, approvedBy := a.approvedBy, approvedAt := a.approvedAt) == a
  { }

  /** An admin edit always leaves the record Approved by that admin, and keeps
      a work mode exactly on working days (physical when none was chosen). */
  lemma EditOutcome(a: Attendance, edited: Attendance, admin: EmployeeId, at: Timestamp)
    ensures ApprovalOf(EditPatch(a, edited, admin, at)) == Approved
    ensures EditPatch(a, edited, admin, at).approvedBy == Some(admin)
    ensures EditPatch(a, edited, admin, at).workMode.Some? <==> IsWorkingStatus(edited.status)
    ensures IsWorkingStatus(edited.status) && edited.workMode.Some? ==>
      EditPatch(a, edited, admin, at).workMode == edited.workMode
    ensures IsWorkingStatus(edited.status) && edited.workMode.None? ==>
      EditPatch(a, edited, admin, at).workMode == Some(Physical)
    ensures EditPatch(a, edited, admin, at).employeeId == a.employeeId && EditPatch(a, edited, admin, at).date == a.date
    ensures EditPatch(a, edited, admin, at).checkInTime == a.checkInTime
    ensures EditPatch(a, edited, admin, at).checkOutTime == a.checkOutTime
  { }

  /** The edit form's status dropdown: a non-working status clears the work
      mode, a working one leaves it as it was. */
  function ChangeStatus(edited: Attendance, s: Status): (r: Attendance)
    ensures r.status == s
    ensures IsWorkingStatus(s) ==> r.workMode == edited.workMode
    ensures !IsWorkingStatus(s) ==> r.workMode.None?
    ensures r.(status := edited.status, workMode := edited.workMode) == edited
  {
    if IsWorkingStatus(s) then edited.(status := s) else edited.(status := s, workMode := None)
  }

  /** Whatever sequence of dropdown changes preceded it, saving sends a work
      mode exactly when the final status is a working one. */
  lemma ChangeThenSave(a: Attendance, edited: Attendance, s: Status, admin: EmployeeId, at: Timestamp)
    ensures EditPatch(a, ChangeStatus(edited, s), admin, at).workMode ==
      if IsWorkingStatus(s) then (if edited.workMode.Some? then edited.workMode else Some(Physical)) else None
  { }

  // ---------------------------------------------------------------------------
  // The listing's email filter

  /** A listed record with its employee's email, when the join found one. */
  datatype Listed = Listed(record: Row<Attendance>, employeeEmail: Option<string>)

  function EmailOf(l: Listed): string {
    if l.employeeEmail.Some? then l.employeeEmail.value else ""
  }

  /** `filteredAttendance`: a blank filter keeps everything; otherwise a record
      stays when its lower-cased email contains the lower-cased filter. The
      filter is trimmed only for the blank test. */
  predicate Matches(l: Listed, filter: string) {
    Trim(filter) == [] || Includes(Lower(EmailOf(l)), Lower(filter))
  }

  function FilterByEmail(records: seq<Listed>, filter: string): (r: seq<Listed>)
    ensures |r| <= |records|
    ensures forall l :: l in r <==> l in records && Matches(l, filter)
  {
    if records == [] then []
    else (if Matches(records[0], filter) then [records[0]] else []) + FilterByEmail(records[1..], filter)
  }

  /** A blank or whitespace-only filter keeps every record, in order. */
  lemma {:induction false} BlankFilterKeepsAll(records: seq<Listed>, filter: string)
    requires forall k :: 0 <= k < |filter| ==> IsJsWhitespace(filter[k])
    ensures FilterByEmail(records, filter) == records
  {
    BlankIffAllWhitespace(filter);
    if records != [] {
      BlankFilterKeepsAll(records[1..], filter);
    }
  }

  /** A non-blank filter keeps a record exactly when the filter, lower-cased,
      occurs in its lower-cased email. */
  lemma NonBlankFilter(l: Listed, filter: string)
    requires exists k :: 0 <= k < |filter| && !IsJsWhitespace(filter[k])
    ensures Matches(l, filter) <==> exists i :: OccursAt(Lower(EmailOf(l)), Lower(filter), i)
  {
    BlankIffAllWhitespace(filter);
  }

  /** Because only the blank test trims, a non-blank filter that contains a
      space (a stray leading or trailing one, say) keeps no record whose email
      has no space. */
  lemma SpacedFilterMatchesNoPlainEmail(l: Listed, filter: string, k: int)
    requires Trim(filter) != [] && 0 <= k < |filter| && filter[k] == ' '
    requires forall j :: 0 <= j < |EmailOf(l)| ==> EmailOf(l)[j] != ' '
    ensures !Matches(l, filter)
  {
    var email, f := Lower(EmailOf(l)), Lower(filter);
    forall i ensures !OccursAt(email, f, i) {
      if 0 <= i && i + |f| <= |email| {
        assert f[k] == ' ' && email[i + k] != ' ';
        assert email[i..i + |f|][k] != f[k];
      }
    }
  }

  // ---------------------------------------------------------------------------
  // The page's actions

  /** The review screen's own state: the record open in the edit dialog. */
  class AttendancePage {
    var editing: Option<Row<Attendance>>
    var editOpen: bool

    constructor ()
      ensures editing == None && !editOpen
    {
      editing, editOpen := None, false;
    }

    /** `handleApprove`: one update of the record with that id. */
    method Approve(store: RecordsStore, id: nat, admin: EmployeeId, at: Timestamp) returns (err: Option<StoreError>)
      requires store.Valid()
      modifies store
      ensures store.Valid()
      ensures store.log == old(store.log) + [AttendanceUpdate]
      ensures store.profiles == old(store.profiles) && store.holidays == old(store.holidays)
      ensures store.events == old(store.events)
      ensures store.failing == old(store.failing) && store.arrayReplies == old(store.arrayReplies)
      ensures err == if AttendanceUpdate in old(store.failing) then Some(Rejected(AttendanceUpdate)) else None
      ensures store.attendance ==
        if err.None? then UpdateWhere(old(store.attendance), id, a => ApprovePatch(a, admin, at))
        else old(store.attendance)
    {
      err := store.UpdateAttendance(id, a => ApprovePatch(a, admin, at));
    }

    /** `handleReject`: nothing happens unless the admin confirms. */
    method Reject(store: RecordsStore, id: nat, confirmed: bool, admin: EmployeeId, at: Timestamp)
      returns (err: Option<StoreError>)
      requires store.Valid()
      modifies store
      ensures store.Valid()
      ensures !confirmed ==> err.None? && store.log == old(store.log) && store.attendance == old(store.attendance)
      ensures confirmed ==> store.log == old(store.log) + [AttendanceUpdate]
      ensures store.profiles == old(store.profiles) && store.holidays == old(store.holidays)
      ensures store.events == old(store.events)
      ensures store.failing == old(store.failing) && store.arrayReplies == old(store.arrayReplies)
      ensures confirmed ==> err == if AttendanceUpdate in old(store.failing) then Some(Rejected(AttendanceUpdate)) else None
      ensures store.attendance ==
        if confirmed && err.None? then UpdateWhere(old(store.attendance), id, a => RejectPatch(a, admin, at))
        else old(store.attendance)
    {
      if !confirmed {
        return None;
      }
      err := store.UpdateAttendance(id, a => RejectPatch(a, admin, at));
    }

    /** `handleEdit`: open the dialog on a copy of the record. */
    method Edit(record: Row<Attendance>)
      modifies this
      ensures editing == Some(record) && editOpen
    {
      editing, editOpen := Some(record), true;
    }

    /** The status dropdown of the dialog. */
    method SelectStatus(s: Status)
      modifies this
      ensures editOpen == old(editOpen)
      ensures editing == if old(editing).Some? then
                Some(Row(old(editing).value.id, ChangeStatus(old(editing).value.value, s)))
              else old(editing)
    {
      if editing.Some? {
        editing := Some(Row(editing.value.id, ChangeStatus(editing.value.value, s)));
      }
    }

    /** `handleUpdateRecord`: without an open record nothing happens; on
        success the dialog closes. */
    method UpdateRecord(store: RecordsStore, admin: EmployeeId, at: Timestamp) returns (err: Option<StoreError>)
      requires store.Valid()
      modifies this, store
      ensures store.Valid()
      ensures store.profiles == old(store.profiles) && store.holidays == old(store.holidays)
      ensures store.events == old(store.events)
      ensures store.failing == old(store.failing) && store.arrayReplies == old(store.arrayReplies)
      ensures old(editing).None? ==>
        err.None? && store.log == old(store.log) && store.attendance == old(store.attendance)
        && editing == old(editing) && editOpen == old(editOpen)
      ensures old(editing).Some? ==>
        var r := old(editing).value;
        && store.log == old(store.log) + [AttendanceUpdate]
        && err == (if AttendanceUpdate in old(store.failing) then Some(Rejected(AttendanceUpdate)) else None)
        && store.attendance == (if err.None? then UpdateWhere(old(store.attendance), r.id, a => EditPatch(a, r.value, admin, at))
                                else old(store.attendance))
        && (if err.None? then editing.None? && !editOpen else editing == old(editing) && editOpen == old(editOpen))
    {
      if editing.None? {
        return None;
      }
      var r := editing.value;
      err := store.UpdateAttendance(r.id, a => EditPatch(a, r.value, admin, at));
      if err.None? {
        editOpen := false;
        editing := None;
      }
    }
  }

  /** After a successful edit every row with that id is Approved, carries a
      work mode exactly on a working day, and every other row is unchanged. */
  lemma EditedRows(rows: seq<Row<Attendance>>, id: nat, edited: Attendance, admin: EmployeeId, at: Timestamp)
    ensures var after := UpdateWhere(rows, id, a => EditPatch(a, edited, admin, at));
      && |after| == |rows|
      && (forall i :: 0 <= i < |rows| && rows[i].id == id ==>
            ApprovalOf(after[i].value) == Approved
            && (after[i].value.workMode.Some? <==> IsWorkingStatus(edited.status)))
      && (forall i :: 0 <= i < |rows| && rows[i].id != id ==> after[i] == rows[i])
  {
    var after := UpdateWhere(rows, id, a => EditPatch(a, edited, admin, at));
    forall i | 0 <= i < |rows| && rows[i].id == id
      ensures ApprovalOf(after[i].value) == Approved
      ensures after[i].value.workMode.Some? <==> IsWorkingStatus(edited.status)
    {
      EditOutcome(rows[i].value, edited, admin, at);
    }
  }
}
