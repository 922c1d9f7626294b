/** The biblical-school manager: classes, the role-tagged assignment of
    members to classes, and the attendance ledger with its upsert on the
    natural key (date, student, class). */
module BiblicalSchool {
  import opened Outcomes
  import opened Store

  function ClassNotFound(id: Id): string {
    "Biblical School Class with ID " + id + " not found"
  }

  function AlreadyAssigned(classId: Id, memberId: Id): string {
    "Member " + memberId + " is already assigned to class " + classId
  }

  function NotAssigned(classId: Id, memberId: Id): string {
    "Member " + memberId + " is not assigned to class " + classId
  }

  function AttendanceNotFound(id: nat): string {
    "Attendance record with ID " + NatToString(id) + " not found"
  }

  datatype AssignParticipantDto = AssignParticipantDto(memberId: Id, role: ClassRole)
  datatype RecordAttendanceDto = RecordAttendanceDto(memberId: Id, date: Day, status: AttendanceStatus)

  /** A class with its participants and its attendance rows, as `findOne`
      loads it. */
  datatype ClassDetail = ClassDetail(schoolClass: SchoolClass, participants: set<ClassAssignment>, attendances: seq<Attendance>)

  function Participants(s: Store, classId: Id): set<ClassAssignment> {
    set k | k in s.assignments && k.classId == classId :: ClassAssignment(k.memberId, classId, s.assignments[k])
  }

  function FindOne(s: Store, id: Id): (r: Result<ClassDetail>)
    ensures r.Failure? <==> id !in s.classes
    ensures r.Failure? ==> r.error == NotFound(ClassNotFound(id))
    ensures r.Success? ==> r.value.schoolClass == s.classes[id]
    ensures r.Success? ==> forall m, role ::
              ClassAssignment(m, id, role) in r.value.participants <==>
              Seat(m, id) in s.assignments && s.assignments[Seat(m, id)] == role
    ensures r.Success? ==> forall row :: row in r.value.attendances <==> row in s.attendance && row.classId == id
  {
    if id !in s.classes then Failure(NotFound(ClassNotFound(id)))
    else Success(ClassDetail(s.classes[id], Participants(s, id), FindMany(s.attendance, ClassIs(id))))
  }

  /** `classAssignment.deleteMany({ where: { classId } })`. */
  function DeleteAssignments(s: Store, classId: Id): Store {
    s.(assignments := map k | k in s.assignments && k.classId != classId :: s.assignments[k])
  }

  /** `attendance.deleteMany({ where: { classId } })`. */
  function DeleteAttendance(s: Store, classId: Id): Store {
    s.(attendance := DeleteMany(s.attendance, ClassIs(classId)))
  }

  /** `biblicalSchoolClass.delete({ where: { id } })`. It fails with the
      ORM's code on a missing row; on an existing row it fails with whatever
      database fault the environment injects through `fault`. */
  function DeleteClass(s: Store, id: Id, fault: Option<string>): Step<SchoolClass> {
    if id !in s.classes then Step(Failure(Database(RecordToDeleteMissing)), s)
    else if fault.Some? then Step(Failure(Database(fault.value)), s)
    else Step(Success(s.classes[id]), s.(classes := s.classes - {id}))
  }

  /** Deletes the class's assignments, then its attendance rows, then the
      class, in one transaction: when the class delete fails, the rows
      deleted before it are restored. */
  function Remove(s: Store, id: Id, fault: Option<string>): (r: Step<SchoolClass>)
    ensures r.result.Success? <==> id in s.classes && fault.None?
    ensures r.result.Failure? ==> r.state == s
    ensures id !in s.classes ==> r.result == Failure(Database(RecordToDeleteMissing))
    ensures id in s.classes && fault.Some? ==> r.result == Failure(Database(fault.value))
    ensures r.result.Success? ==> r.result.value == s.classes[id]
    ensures r.result.Success? ==> r.state.classes.Keys == s.classes.Keys - {id}
    ensures r.result.Success? ==> forall c | c in r.state.classes :: r.state.classes[c] == s.classes[c]
    ensures r.result.Success? ==> forall k | k in r.state.assignments :: k.classId != id
    ensures r.result.Success? ==> forall k: Seat | k.classId != id ::
              (k in r.state.assignments <==> k in s.assignments) &&
              (k in s.assignments ==> r.state.assignments[k] == s.assignments[k])
    ensures r.result.Success? ==> forall row ::
              row in r.state.attendance <==> row in s.attendance && row.classId != id
    ensures OnlySchoolTablesChanged(s, r.state) && r.state.nextAttendanceId == s.nextAttendanceId
  {
    Commit(s, DeleteClass(DeleteAttendance(DeleteAssignments(s, id), id), id, fault))
  }

  /** Checks, in this order, that the class exists, that the member exists
      and that the member holds no role in the class yet, then assigns the
      requested role. */
  function AssignParticipant(s: Store, classId: Id, dto: AssignParticipantDto): (r: Step<ClassAssignment>)
    ensures r.result.Failure? ==> r.state == s
    ensures classId !in s.classes ==> r.result == Failure(NotFound(ClassNotFound(classId)))
    ensures classId in s.classes && dto.memberId !in s.members ==>
              r.result == Failure(NotFound(MemberNotFound(dto.memberId)))
    ensures classId in s.classes && dto.memberId in s.members && Seat(dto.memberId, classId) in s.assignments ==>
              r.result == Failure(BadRequest(AlreadyAssigned(classId, dto.memberId)))
    ensures r.result.Success? <==>
              classId in s.classes && dto.memberId in s.members && Seat(dto.memberId, classId) !in s.assignments
    ensures r.result.Success? ==> r.result.value == ClassAssignment(dto.memberId, classId, dto.role)
    ensures r.result.Success? ==> r.state.assignments == s.assignments[Seat(dto.memberId, classId) := dto.role]
    ensures OnlySchoolTablesChanged(s, r.state) && r.state.classes == s.classes && r.state.attendance == s.attendance
  {
    var seat := Seat(dto.memberId, classId);
    if classId !in s.classes then Step(Failure(NotFound(ClassNotFound(classId))), s)
    else if dto.memberId !in s.members then Step(Failure(NotFound(MemberNotFound(dto.memberId))), s)
    else if seat in s.assignments then Step(Failure(BadRequest(AlreadyAssigned(classId, dto.memberId))), s)
    else Step(Success(ClassAssignment(dto.memberId, classId, dto.role)),
              s.(assignments := s.assignments[seat := dto.role]))
  }

  /** Deletes the assignment of the pair; looks at nothing else. */
  function RemoveParticipant(s: Store, classId: Id, memberId: Id): (r: Step<ClassAssignment>)
    ensures r.result.Success? <==> Seat(memberId, classId) in s.assignments
    ensures r.result.Failure? ==>
              r.result.error == NotFound(NotAssigned(classId, memberId)) && r.state == s
    ensures r.result.Success? ==>
              r.result.value == ClassAssignment(memberId, classId, s.assignments[Seat(memberId, classId)])
    ensures r.result.Success? ==> r.state.assignments.Keys == s.assignments.Keys - {Seat(memberId, classId)}
    ensures r.result.Success? ==> forall k | k in r.state.assignments :: r.state.assignments[k] == s.assignments[k]
    ensures OnlySchoolTablesChanged(s, r.state) && r.state.classes == s.classes && r.state.attendance == s.attendance
  {
    var seat := Seat(memberId, classId);
    if seat !in s.assignments then Step(Failure(NotFound(NotAssigned(classId, memberId))), s)
    else Step(Success(ClassAssignment(memberId, classId, s.assignments[seat])),
              s.(assignments := s.assignments - {seat}))
  }

  /** Checks that class and member exist, in that order, then writes the
      status under the key (date, member, class): the row holding that key
      is updated in place if there is one, otherwise a row is inserted. */
  function RecordAttendance(s: Store, classId: Id, dto: RecordAttendanceDto): (r: Step<Attendance>)
    ensures r.result.Failure? ==> r.state == s
    ensures classId !in s.classes ==> r.result == Failure(NotFound(ClassNotFound(classId)))
    ensures classId in s.classes && dto.memberId !in s.members ==>
              r.result == Failure(NotFound(MemberNotFound(dto.memberId)))
    ensures r.result.Success? <==> classId in s.classes && dto.memberId in s.members
    ensures r.result.Success? ==>
              && KeyOf(r.result.value) == AttendanceKey(dto.date, dto.memberId, classId)
              && r.result.value.status == dto.status
              && r.result.value in r.state.attendance
    ensures OnlySchoolTablesChanged(s, r.state) && r.state.classes == s.classes && r.state.assignments == s.assignments
  {
    if classId !in s.classes then Step(Failure(NotFound(ClassNotFound(classId))), s)
    else if dto.memberId !in s.members then Step(Failure(NotFound(MemberNotFound(dto.memberId))), s)
    else
      var key := AttendanceKey(dto.date, dto.memberId, classId);
      match FindFirst(s.attendance, KeyIs(key))
      case Some(i) =>
        var row := s.attendance[i].(status := dto.status);
        assert s.attendance[i := row][i] == row;
        Step(Success(row), s.(attendance := s.attendance[i := row]))
      case None =>
        var row := Attendance(s.nextAttendanceId, classId, dto.memberId, dto.date, dto.status);
        Step(Success(row), s.(attendance := s.attendance + [row], nextAttendanceId := s.nextAttendanceId + 1))
  }

  /** The attendance of a class on one day; fails only for a missing class. */
  function GetAttendance(s: Store, classId: Id, date: Day): (r: Result<seq<Attendance>>)
    ensures r.Failure? <==> classId !in s.classes
    ensures r.Failure? ==> r.error == NotFound(ClassNotFound(classId))
    ensures r.Success? ==> forall row :: row in r.value <==> row in s.attendance && row.classId == classId && row.date == date
  {
    if classId !in s.classes then Failure(NotFound(ClassNotFound(classId)))
    else Success(FindMany(s.attendance, ClassOn(classId, date)))
  }

  /** Sets the status of the row with id `id`; nothing else about it changes. */
  function UpdateAttendance(s: Store, id: nat, status: AttendanceStatus): (r: Step<Attendance>)
    ensures r.result.Failure? <==> forall j | 0 <= j < |s.attendance| :: s.attendance[j].id != id
    ensures r.result.Failure? ==> r.result.error == NotFound(AttendanceNotFound(id)) && r.state == s
    ensures r.result.Success? ==> r.result.value.id == id && r.result.value.status == status
    ensures r.result.Success? ==> exists i | 0 <= i < |s.attendance| && s.attendance[i].id == id ::
              && r.result.value == s.attendance[i].(status := status)
              && r.state.attendance == s.attendance[i := r.result.value]
    ensures OnlySchoolTablesChanged(s, r.state) && r.state.classes == s.classes
         && r.state.assignments == s.assignments && r.state.nextAttendanceId == s.nextAttendanceId
  {
    match FindFirst(s.attendance, IdIs(id))
    case None => Step(Failure(NotFound(AttendanceNotFound(id))), s)
    case Some(i) =>
      var row := s.attendance[i].(status := status);
      Step(Success(row), s.(attendance := s.attendance[i := row]))
  }

  // ---------------------------------------------------------------------------
  // Properties over several calls

  /** The not-found messages of a class and of a member never coincide. */
  lemma MissingClassAndMissingMemberDiffer(classId: Id, memberId: Id)
    ensures ClassNotFound(classId) != MemberNotFound(memberId)
  {
    assert ClassNotFound(classId)[0] == 'B';
    assert MemberNotFound(memberId)[0] == 'M';
  }

  /** A missing class is reported before the member is looked at, by
      `assignParticipant` and `recordAttendance` alike. */
  lemma ClassIsCheckedFirst(s: Store, classId: Id, assign: AssignParticipantDto, record: RecordAttendanceDto)
    requires classId !in s.classes
    ensures AssignParticipant(s, classId, assign) == Step(Failure(NotFound(ClassNotFound(classId))), s)
    ensures RecordAttendance(s, classId, record) == Step(Failure(NotFound(ClassNotFound(classId))), s)
    ensures forall m :: AssignParticipant(s, classId, assign).result != Failure(NotFound(MemberNotFound(m)))
  {
    forall m ensures ClassNotFound(classId) != MemberNotFound(m) {
      MissingClassAndMissingMemberDiffer(classId, m);
    }
  }

  /** Once assigned, a member cannot be assigned to the class again, in any
      role. */
  lemma AssignParticipantTwiceFails(s: Store, classId: Id, first: AssignParticipantDto, role: ClassRole)
    requires AssignParticipant(s, classId, first).result.Success?
    ensures var t := AssignParticipant(s, classId, first).state;
            var again := AssignParticipantDto(first.memberId, role);
            AssignParticipant(t, classId, again) == Step(Failure(BadRequest(AlreadyAssigned(classId, first.memberId))), t)
  {
  }

  /** `removeParticipant` undoes a successful `assignParticipant`. */
  lemma RemoveParticipantUndoesAssign(s: Store, classId: Id, dto: AssignParticipantDto)
    requires AssignParticipant(s, classId, dto).result.Success?
    ensures var t := AssignParticipant(s, classId, dto).state;
            RemoveParticipant(t, classId, dto.memberId) == Step(Success(ClassAssignment(dto.memberId, classId, dto.role)), s)
  {
  }

  /** On a consistent store, re-assigning the removed role undoes a
      successful `removeParticipant`. */
  lemma AssignUndoesRemoveParticipant(s: Store, classId: Id, memberId: Id)
    requires Valid(s)
    requires RemoveParticipant(s, classId, memberId).result.Success?
    ensures var removed := RemoveParticipant(s, classId, memberId);
            var dto := AssignParticipantDto(memberId, removed.result.value.role);
            AssignParticipant(removed.state, classId, dto) == Step(Success(removed.result.value), s)
  {
  }

  /** A second `removeParticipant` of the same pair fails. */
  lemma RemoveParticipantTwiceFails(s: Store, classId: Id, memberId: Id)
    requires RemoveParticipant(s, classId, memberId).result.Success?
    ensures var t := RemoveParticipant(s, classId, memberId).state;
            RemoveParticipant(t, classId, memberId) == Step(Failure(NotFound(NotAssigned(classId, memberId))), t)
  {
  }

  /** `recordAttendance` does not ask whether the member is assigned to the
      class: its outcome is the same whatever the assignments are. */
  lemma RecordAttendanceIgnoresAssignments(s: Store, classId: Id, dto: RecordAttendanceDto, other: map<Seat, ClassRole>)
    ensures RecordAttendance(s.(assignments := other), classId, dto).result == RecordAttendance(s, classId, dto).result
  {
  }

  /** The upsert: on a consistent store, exactly one row holds the key
      afterwards, with the recorded status; an existing row is updated in
      place (same position, same id, table size unchanged, every other row
      untouched), otherwise one fresh row is appended. */
  lemma RecordAttendanceUpserts(s: Store, classId: Id, dto: RecordAttendanceDto)
    requires Valid(s)
    requires classId in s.classes && dto.memberId in s.members
    ensures var t := RecordAttendance(s, classId, dto).state;
            var key := AttendanceKey(dto.date, dto.memberId, classId);
            && CountWhere(t.attendance, KeyIs(key)) == 1
            && (forall row | row in t.attendance && KeyOf(row) == key :: row.status == dto.status)
            && (CountWhere(s.attendance, KeyIs(key)) == 1 ==>
                  && |t.attendance| == |s.attendance|
                  && forall j | 0 <= j < |s.attendance| ::
                       t.attendance[j] == if KeyOf(s.attendance[j]) == key
                                          then s.attendance[j].(status := dto.status)
                                          else s.attendance[j])
            && (CountWhere(s.attendance, KeyIs(key)) == 0 ==>
                  t.attendance == s.attendance + [Attendance(s.nextAttendanceId, classId, dto.memberId, dto.date, dto.status)])
  {
    var key := AttendanceKey(dto.date, dto.memberId, classId);
    var r := RecordAttendance(s, classId, dto);
    RecordAttendancePreservesValid(s, classId, dto);
    AbsentMeansCountZero(s.attendance, KeyIs(key));
    match FindFirst(s.attendance, KeyIs(key))
    case Some(i) =>
      PresentKeyCountsOnce(s.attendance, i);
      PresentKeyCountsOnce(r.state.attendance, i);
      forall row | row in r.state.attendance && KeyOf(row) == key
        ensures row.status == dto.status
      {
        var j :| 0 <= j < |r.state.attendance| && r.state.attendance[j] == row;
        assert KeyOf(s.attendance[j]) == key ==> j == i;
      }
    case None =>
      var n := |s.attendance|;
      assert r.state.attendance[n] == r.result.value;
      PresentKeyCountsOnce(r.state.attendance, n);
  }

  /** Recording twice under one key leaves the store as recording the last
      status alone would: one row, holding the second status. */
  lemma RecordAttendanceLastWins(s: Store, classId: Id, memberId: Id, date: Day, first: AttendanceStatus, second: AttendanceStatus)
    ensures var once := RecordAttendance(s, classId, RecordAttendanceDto(memberId, date, first)).state;
            RecordAttendance(once, classId, RecordAttendanceDto(memberId, date, second))
              == RecordAttendance(s, classId, RecordAttendanceDto(memberId, date, second))
  {
    if classId in s.classes && memberId in s.members {
      var key := AttendanceKey(date, memberId, classId);
      match FindFirst(s.attendance, KeyIs(key))
      case Some(i) => SecondRecordUpdatesSameRow(s, classId, memberId, date, first, second, i);
      case None => SecondRecordUpdatesInsertedRow(s, classId, memberId, date, first, second);
    }
  }

  lemma SecondRecordUpdatesSameRow(s: Store, classId: Id, memberId: Id, date: Day, first: AttendanceStatus, second: AttendanceStatus, i: nat)
    requires classId in s.classes && memberId in s.members
    requires FindFirst(s.attendance, KeyIs(AttendanceKey(date, memberId, classId))) == Some(i)
    ensures var once := RecordAttendance(s, classId, RecordAttendanceDto(memberId, date, first)).state;
            RecordAttendance(once, classId, RecordAttendanceDto(memberId, date, second))
              == RecordAttendance(s, classId, RecordAttendanceDto(memberId, date, second))
  {
    var key := AttendanceKey(date, memberId, classId);
    var rows := s.attendance[i := s.attendance[i].(status := first)];
    assert RecordAttendance(s, classId, RecordAttendanceDto(memberId, date, first)).state == s.(attendance := rows);
    assert forall j | 0 <= j < i :: rows[j] == s.attendance[j];
    assert rows[i] == s.attendance[i].(status := first);
    assert FindFirst(rows, KeyIs(key)) == Some(i);
    assert rows[i].(status := second) == s.attendance[i].(status := second);
    assert rows[i := rows[i].(status := second)] == s.attendance[i := s.attendance[i].(status := second)];
  }

  lemma SecondRecordUpdatesInsertedRow(s: Store, classId: Id, memberId: Id, date: Day, first: AttendanceStatus, second: AttendanceStatus)
    requires classId in s.classes && memberId in s.members
    requires FindFirst(s.attendance, KeyIs(AttendanceKey(date, memberId, classId))).None?
    ensures var once := RecordAttendance(s, classId, RecordAttendanceDto(memberId, date, first)).state;
            RecordAttendance(once, classId, RecordAttendanceDto(memberId, date, second))
              == RecordAttendance(s, classId, RecordAttendanceDto(memberId, date, second))
  {
  }

  /** Recording the same status twice is the same as recording it once. */
  lemma RecordAttendanceIdempotent(s: Store, classId: Id, dto: RecordAttendanceDto)
    ensures var once := RecordAttendance(s, classId, dto);
            RecordAttendance(once.state, classId, dto) == once
  {
    RecordAttendanceLastWins(s, classId, dto.memberId, dto.date, dto.status, dto.status);
  }

  /** On a consistent store `updateAttendance` changes the status of the row
      with that id and nothing else. */
  lemma UpdateAttendanceTouchesOnlyTarget(s: Store, id: nat, status: AttendanceStatus)
    requires Valid(s)
    ensures var t := UpdateAttendance(s, id, status).state;
            && |t.attendance| == |s.attendance|
            && forall j | 0 <= j < |s.attendance| ::
                 t.attendance[j] == if s.attendance[j].id == id then s.attendance[j].(status := status) else s.attendance[j]
  {
  }

  /** On a consistent store `getAttendance` lists each matching row once:
      its result has no two rows with one id, nor two with one key. */
  lemma GetAttendanceListsRowsOnce(s: Store, classId: Id, date: Day)
    requires Valid(s)
    ensures var r := GetAttendance(s, classId, date);
            r.Success? ==> Distinct(r.value, IdOf) && Distinct(r.value, KeyOf)
  {
    if classId in s.classes {
      SelectKeepsDistinct(s.attendance, ClassOn(classId, date), true, IdOf);
      SelectKeepsDistinct(s.attendance, ClassOn(classId, date), true, KeyOf);
    }
  }

  /** The same for the attendance rows `findOne` loads with a class. */
  lemma FindOneListsRowsOnce(s: Store, id: Id)
    requires Valid(s)
    ensures var r := FindOne(s, id);
            r.Success? ==> Distinct(r.value.attendances, IdOf) && Distinct(r.value.attendances, KeyOf)
  {
    if id in s.classes {
      SelectKeepsDistinct(s.attendance, ClassIs(id), true, IdOf);
      SelectKeepsDistinct(s.attendance, ClassIs(id), true, KeyOf);
    }
  }

  /** After removing a class, it cannot be found, and no assignment and no
      attendance row of it survives. */
  lemma FindOneAfterRemoveFails(s: Store, id: Id, date: Day, fault: Option<string>)
    requires Remove(s, id, fault).result.Success?
    ensures var t := Remove(s, id, fault).state;
            && FindOne(t, id) == Failure(NotFound(ClassNotFound(id)))
            && GetAttendance(t, id, date) == Failure(NotFound(ClassNotFound(id)))
            && Participants(t, id) == {}
            && CountWhere(t.attendance, ClassIs(id)) == 0
  {
    var t := Remove(s, id, fault).state;
    AbsentMeansCountZero(t.attendance, ClassIs(id));
  }

  /** When the class delete faults after the assignments and attendance rows
      were deleted, the transaction puts all of them back. */
  lemma FaultingRemoveKeepsRows(s: Store, id: Id, code: string)
    requires id in s.classes
    ensures Remove(s, id, Some(code)).result == Failure(Database(code))
    ensures var cleared := DeleteAttendance(DeleteAssignments(s, id), id);
            && (forall k | k in cleared.assignments :: k.classId != id)
            && (forall row | row in cleared.attendance :: row.classId != id)
    ensures var t := Remove(s, id, Some(code)).state;
            && t.assignments == s.assignments
            && t.attendance == s.attendance
  {
  }

  lemma RemovePreservesValid(s: Store, id: Id, fault: Option<string>)
    requires Valid(s)
    ensures Valid(Remove(s, id, fault).state)
  {
    var cleared := DeleteAttendance(DeleteAssignments(s, id), id);
    SelectKeepsDistinct(s.attendance, ClassIs(id), false, KeyOf);
    SelectKeepsDistinct(s.attendance, ClassIs(id), false, IdOf);
  }

  lemma AssignParticipantPreservesValid(s: Store, classId: Id, dto: AssignParticipantDto)
    requires Valid(s)
    ensures Valid(AssignParticipant(s, classId, dto).state)
  {
  }

  lemma RemoveParticipantPreservesValid(s: Store, classId: Id, memberId: Id)
    requires Valid(s)
    ensures Valid(RemoveParticipant(s, classId, memberId).state)
  {
  }

  /** Rewriting one attendance row without touching its id or key keeps
      the store consistent. */
  lemma RewriteRowKeepsValid(s: Store, i: nat, row: Attendance)
    requires Valid(s)
    requires i < |s.attendance|
    requires row.id == s.attendance[i].id && KeyOf(row) == KeyOf(s.attendance[i])
    ensures Valid(s.(attendance := s.attendance[i := row]))
  {
  }

  /** Appending a row with a fresh id, an absent key and existing class and
      student keeps the store consistent. */
  lemma AppendRowKeepsValid(s: Store, row: Attendance)
    requires Valid(s)
    requires row.id == s.nextAttendanceId
    requires row.classId in s.classes && row.studentId in s.members
    requires forall j | 0 <= j < |s.attendance| :: !Matches(KeyIs(KeyOf(row)), s.attendance[j])
    ensures Valid(s.(attendance := s.attendance + [row], nextAttendanceId := s.nextAttendanceId + 1))
  {
  }

  lemma RecordAttendancePreservesValid(s: Store, classId: Id, dto: RecordAttendanceDto)
    requires Valid(s)
    ensures Valid(RecordAttendance(s, classId, dto).state)
  {
    if classId in s.classes && dto.memberId in s.members {
      var key := AttendanceKey(dto.date, dto.memberId, classId);
      match FindFirst(s.attendance, KeyIs(key))
      case Some(i) =>
        RewriteRowKeepsValid(s, i, s.attendance[i].(status := dto.status));
      case None =>
        AppendRowKeepsValid(s, Attendance(s.nextAttendanceId, classId, dto.memberId, dto.date, dto.status));
    }
  }

  lemma UpdateAttendancePreservesValid(s: Store, id: nat, status: AttendanceStatus)
    requires Valid(s)
    ensures Valid(UpdateAttendance(s, id, status).state)
  {
  }
}
