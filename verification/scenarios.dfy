/** Sequences of calls on one store: what each call returns and what the
    store holds afterwards. */
module Scenarios {
  import opened Outcomes
  import opened Store
  import Groups
  import BiblicalSchool

  /** Join, join again, leave, delete the group, look it up: the second join
      is a BadRequest, the others succeed, and the lookup is NotFound. */
  lemma GroupLifecycle(s: Store, groupId: Id, memberId: Id)
    requires groupId in s.groups && memberId in s.members
    requires Membership(memberId, groupId) !in s.memberships
    ensures var s1 := Groups.AddMember(s, groupId, memberId);
            var s2 := Groups.AddMember(s1.state, groupId, memberId);
            var s3 := Groups.RemoveMember(s2.state, groupId, memberId);
            var s4 := Groups.Remove(s3.state, groupId, None);
            && s1.result == Success(Membership(memberId, groupId))
            && s2.result == Failure(BadRequest(Groups.AlreadyInGroup(groupId, memberId)))
            && s3 == Step(Success(Membership(memberId, groupId)), s)
            && s4.result == Success(s.groups[groupId])
            && Groups.FindOne(s4.state, groupId) == Failure(NotFound(Groups.GroupNotFound(groupId)))
  {
  }

  /** Assign a student, record them present, then absent, on one day when
      the class had no attendance yet: the first record inserts one row, the
      second rewrites that row, and the day's attendance is that one row,
      absent. */
  lemma {:induction false} AttendanceLifecycle(s: Store, classId: Id, memberId: Id, date: Day)
    requires classId in s.classes && memberId in s.members
    requires Seat(memberId, classId) !in s.assignments
    requires CountWhere(s.attendance, ClassOn(classId, date)) == 0
    ensures var a := BiblicalSchool.AssignParticipant(s, classId, BiblicalSchool.AssignParticipantDto(memberId, Student));
            var p := BiblicalSchool.RecordAttendance(a.state, classId, BiblicalSchool.RecordAttendanceDto(memberId, date, Present));
            var q := BiblicalSchool.RecordAttendance(p.state, classId, BiblicalSchool.RecordAttendanceDto(memberId, date, Absent));
            var row := Attendance(s.nextAttendanceId, classId, memberId, date, Absent);
            && a.result == Success(ClassAssignment(memberId, classId, Student))
            && p.result == Success(row.(status := Present))
            && |p.state.attendance| == |s.attendance| + 1
            && q.result == Success(row)
            && |q.state.attendance| == |p.state.attendance|
            && BiblicalSchool.GetAttendance(q.state, classId, date) == Success([row])
  {
    var a := BiblicalSchool.AssignParticipant(s, classId, BiblicalSchool.AssignParticipantDto(memberId, Student));
    var key := AttendanceKey(date, memberId, classId);
    AbsentMeansCountZero(s.attendance, ClassOn(classId, date));
    assert FindFirst(a.state.attendance, KeyIs(key)).None? by {
      forall j | 0 <= j < |s.attendance|
        ensures !Matches(KeyIs(key), s.attendance[j])
      {
        assert !Matches(ClassOn(classId, date), s.attendance[j]);
      }
    }
    var row := Attendance(s.nextAttendanceId, classId, memberId, date, Absent);
    var p := BiblicalSchool.RecordAttendance(a.state, classId, BiblicalSchool.RecordAttendanceDto(memberId, date, Present));
    assert p.state.attendance == s.attendance + [row.(status := Present)];
    // The second record rewrites the inserted row: the same as recording Absent alone.
    BiblicalSchool.SecondRecordUpdatesInsertedRow(a.state, classId, memberId, date, Present, Absent);
    var q := BiblicalSchool.RecordAttendance(p.state, classId, BiblicalSchool.RecordAttendanceDto(memberId, date, Absent));
    assert q.state.attendance == s.attendance + [row];
    assert classId in q.state.classes;
    assert FindMany(q.state.attendance, ClassOn(classId, date)) == [row] by {
      SelectAppend(s.attendance, [row], ClassOn(classId, date), true);
      assert FindMany(s.attendance, ClassOn(classId, date)) == [];
      assert [row][1..] == [];
      assert Select(s.attendance + [row], ClassOn(classId, date), true) == [] + [row];
    }
  }
}
