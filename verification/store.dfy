/** The relational store both services read and write, as one immutable value:
    the rows of every table the core touches, the integrity constraints the
    schema enforces, and the few table primitives (Prisma's `findUnique`,
    `findMany`, `deleteMany` and `$transaction`) the services are built from. */
module Store {
  import opened Outcomes

  /** A client-supplied primary key of a member, group or class. */
  type Id = string

  /** The date value `new Date(date)` yields for the ISO date string a client
      sends. Dates are only compared for equality, so one calendar day given
      at two different times of day is two different values. */
  type Day = int

  datatype Role = Admin | Leader | Member
  datatype ClassRole = Teacher | Student
  datatype AttendanceStatus = Present | Absent

  datatype Group = Group(id: Id, name: string, description: Option<string>)

  /** A row of `MembersOnGroups`, the join of a member and a group. */
  datatype Membership = Membership(memberId: Id, groupId: Id)

  datatype SchoolClass = SchoolClass(id: Id, name: string, description: Option<string>)

  /** The compound key `memberId_classId` of a class assignment. */
  datatype Seat = Seat(memberId: Id, classId: Id)

  /** A class assignment as the ORM returns it. */
  datatype ClassAssignment = ClassAssignment(memberId: Id, classId: Id, role: ClassRole)

  /** The compound unique key `date_studentId_classId` of the attendance table. */
  datatype AttendanceKey = AttendanceKey(date: Day, studentId: Id, classId: Id)

  datatype Attendance = Attendance(id: nat, classId: Id, studentId: Id, date: Day, status: AttendanceStatus)

  /** A stored user; `password` holds whatever the signup wrote there. */
  datatype User = User(id: nat, email: string, password: string, role: Role)

  /** The database. Members are known only by id: no rule of the core reads
      their other columns. Groups and classes are keyed by their id, users by
      their unique email. Attendance rows are a table of their own, with a
      generated id and a unique natural key; `nextAttendanceId` and
      `nextUserId` stand for the generator of fresh primary keys. */
  datatype Store = Store(
    members: set<Id>,
    groups: map<Id, Group>,
    memberships: set<Membership>,
    classes: map<Id, SchoolClass>,
    assignments: map<Seat, ClassRole>,
    attendance: seq<Attendance>,
    nextAttendanceId: nat,
    users: map<string, User>,
    nextUserId: nat)

  /** What one service call produces: its outcome and the store after it. */
  datatype Step<+T> = Step(result: Result<T>, state: Store)

  function KeyOf(row: Attendance): AttendanceKey {
    AttendanceKey(row.date, row.studentId, row.classId)
  }

  function IdOf(row: Attendance): nat {
    row.id
  }

  /** No two rows of the table agree on the column `column`. */
  ghost predicate Distinct<K>(rows: seq<Attendance>, column: Attendance -> K) {
    forall i, j | 0 <= i < j < |rows| :: column(rows[i]) != column(rows[j])
  }

  /** The integrity constraints of the schema: every foreign key points at an
      existing row, the primary keys of groups, classes and users agree with
      their map keys, and attendance is unique on its id and on
      (date, student, class). */
  ghost predicate Valid(s: Store) {
    && (forall g | g in s.groups :: s.groups[g].id == g)
    && (forall c | c in s.classes :: s.classes[c].id == c)
    && (forall p | p in s.memberships :: p.memberId in s.members && p.groupId in s.groups)
    && (forall k | k in s.assignments :: k.memberId in s.members && k.classId in s.classes)
    && (forall row | row in s.attendance ::
          row.classId in s.classes && row.studentId in s.members && row.id < s.nextAttendanceId)
    && Distinct(s.attendance, KeyOf)
    && Distinct(s.attendance, IdOf)
    && (forall e | e in s.users :: s.users[e].email == e && s.users[e].id < s.nextUserId)
    && (forall e, e' | e in s.users && e' in s.users && e != e' :: s.users[e].id != s.users[e'].id)
  }

  /** A call touched the group tables only. */
  ghost predicate OnlyGroupTablesChanged(s: Store, t: Store) {
    t == s.(groups := t.groups, memberships := t.memberships)
  }

  /** A call touched the biblical-school tables only. */
  ghost predicate OnlySchoolTablesChanged(s: Store, t: Store) {
    t == s.(classes := t.classes, assignments := t.assignments,
            attendance := t.attendance, nextAttendanceId := t.nextAttendanceId)
  }

  /** A call touched the user table only. */
  ghost predicate OnlyUserTableChanged(s: Store, t: Store) {
    t == s.(users := t.users, nextUserId := t.nextUserId)
  }

  function MemberNotFound(id: Id): string {
    "Member with ID " + id + " not found"
  }

  /** Prisma's interactive `$transaction`: the writes of `attempt` become
      visible only when it succeeds; a failure rolls the store back. */
  function Commit<T>(before: Store, attempt: Step<T>): Step<T> {
    if attempt.result.Success? then attempt else Step(attempt.result, before)
  }

  // ---------------------------------------------------------------------------
  // The attendance table

  /** The `where` filters the services pass to the attendance table. */
  datatype AttendanceWhere =
    | IdIs(id: nat)
    | KeyIs(key: AttendanceKey)
    | ClassIs(classId: Id)
    | ClassOn(classId: Id, date: Day)

  predicate Matches(w: AttendanceWhere, row: Attendance) {
    match w
    case IdIs(id) => row.id == id
    case KeyIs(k) => KeyOf(row) == k
    case ClassIs(c) => row.classId == c
    case ClassOn(c, d) => row.classId == c && row.date == d
  }

  /** The rows whose match against `w` equals `keep`, in table order. */
  function Select(rows: seq<Attendance>, w: AttendanceWhere, keep: bool): (r: seq<Attendance>)
    ensures |r| <= |rows|
    ensures forall row :: row in r <==> row in rows && Matches(w, row) == keep
    decreases |rows|
  {
    if |rows| == 0 then []
    else if Matches(w, rows[0]) == keep then [rows[0]] + Select(rows[1..], w, keep)
    else Select(rows[1..], w, keep)
  }

  /** `findMany({ where })`. */
  function FindMany(rows: seq<Attendance>, w: AttendanceWhere): seq<Attendance> {
    Select(rows, w, true)
  }

  /** `deleteMany({ where })`: the rows that survive. */
  function DeleteMany(rows: seq<Attendance>, w: AttendanceWhere): seq<Attendance> {
    Select(rows, w, false)
  }

  /** The number of rows matching `w`. */
  function CountWhere(rows: seq<Attendance>, w: AttendanceWhere): nat {
    |FindMany(rows, w)|
  }

  /** The position of the first row matching `w`, as a `findUnique` on a
      unique column locates it. */
  function FindFirst(rows: seq<Attendance>, w: AttendanceWhere): (r: Option<nat>)
    ensures r.Some? ==> r.value < |rows| && Matches(w, rows[r.value])
    ensures r.Some? ==> forall j | 0 <= j < r.value :: !Matches(w, rows[j])
    ensures r.None? <==> forall j | 0 <= j < |rows| :: !Matches(w, rows[j])
    decreases |rows|
  {
    if |rows| == 0 then None
    else if Matches(w, rows[0]) then Some(0)
    else match FindFirst(rows[1..], w)
      case None => None
      case Some(i) => Some(i + 1)
  }

  lemma {:induction false} SelectAppend(xs: seq<Attendance>, ys: seq<Attendance>, w: AttendanceWhere, keep: bool)
    ensures Select(xs + ys, w, keep) == Select(xs, w, keep) + Select(ys, w, keep)
    decreases |xs|
  {
    if |xs| > 0 {
      assert (xs + ys)[1..] == xs[1..] + ys;
      SelectAppend(xs[1..], ys, w, keep);
    } else {
      assert xs + ys == ys;
    }
  }

  /** Filtering a table never breaks a uniqueness constraint on it. */
  lemma {:induction false} SelectKeepsDistinct<K>(rows: seq<Attendance>, w: AttendanceWhere, keep: bool, column: Attendance -> K)
    requires Distinct(rows, column)
    ensures Distinct(Select(rows, w, keep), column)
    decreases |rows|
  {
    if |rows| > 0 {
      var tail := rows[1..];
      assert Distinct(tail, column) by {
        forall i, j | 0 <= i < j < |tail|
          ensures column(tail[i]) != column(tail[j])
        {
          assert tail[i] == rows[i + 1] && tail[j] == rows[j + 1];
        }
      }
      SelectKeepsDistinct(tail, w, keep, column);
      var rest := Select(tail, w, keep);
      if Matches(w, rows[0]) == keep {
        forall y | y in rest
          ensures column(y) != column(rows[0])
        {
          var j :| 0 <= j < |tail| && tail[j] == y;
          assert rows[j + 1] == y;
        }
        var out := [rows[0]] + rest;
        forall i, j | 0 <= i < j < |out|
          ensures column(out[i]) != column(out[j])
        {
          assert out[j] == rest[j - 1] && out[j] in rest;
          if i > 0 {
            assert out[i] == rest[i - 1];
          }
        }
      }
    }
  }

  /** Under uniqueness of the natural key, a key that is present is present
      exactly once. */
  lemma {:induction false} PresentKeyCountsOnce(rows: seq<Attendance>, i: nat)
    requires Distinct(rows, KeyOf)
    requires i < |rows|
    ensures CountWhere(rows, KeyIs(KeyOf(rows[i]))) == 1
    decreases |rows|
  {
    var k := KeyOf(rows[i]);
    var tail := rows[1..];
    assert Distinct(tail, KeyOf) by {
      forall a, b | 0 <= a < b < |tail|
        ensures KeyOf(tail[a]) != KeyOf(tail[b])
      {
        assert tail[a] == rows[a + 1] && tail[b] == rows[b + 1];
      }
    }
    if i == 0 {
      forall j | 0 <= j < |tail|
        ensures !Matches(KeyIs(k), tail[j])
      {
        assert tail[j] == rows[j + 1];
      }
      AbsentMeansCountZero(tail, KeyIs(k));
    } else {
      assert KeyOf(rows[0]) != k;
      assert tail[i - 1] == rows[i];
      PresentKeyCountsOnce(tail, i - 1);
    }
  }

  /** No row matches exactly when none is counted. */
  lemma AbsentMeansCountZero(rows: seq<Attendance>, w: AttendanceWhere)
    ensures CountWhere(rows, w) == 0 <==> forall j | 0 <= j < |rows| :: !Matches(w, rows[j])
  {
    var found := FindMany(rows, w);
    if |found| > 0 {
      assert found[0] in found;
    }
  }
}
