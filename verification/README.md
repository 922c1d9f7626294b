# Church administration backend: relational-integrity core in Dafny

This project models the business rules of the church-administration backend's
two relational services and its authentication flow:

- the **group membership manager** (`GroupsService`): groups, the many-to-many
  membership relation between groups and members, the cascading group delete,
  and adding and removing members;
- the **biblical-school manager** (`BiblicalSchoolService`): classes, the
  role-tagged assignment of members to classes (TEACHER or STUDENT, one role per
  member and class), the attendance ledger with its upsert on the natural key
  (date, student, class), and the cascading class delete;
- **authentication** (`AuthService` and `JwtStrategy.validate`): signup with a
  hashed password, signin with one error for every bad credential, token
  issuance, and the mapping of a token's payload to the caller's identity.

The database is one immutable value, `Store.Store`. It holds the member ids,
the group and class tables, the membership set, the assignment map keyed on
(member, class), the attendance table and the user table keyed by email.
`Store.Valid` states the schema's constraints: foreign keys point at existing
rows, and attendance is unique on its id and on (date, student, class). Every
service call is a pure function from a store to a `Step`, which pairs the
call's `Result` (a value, or the exception the service throws) with the store
afterwards. Prisma's `$transaction` is `Store.Commit`: a failed transaction
returns the store it started from. The ORM's `where` filters on attendance
are the datatype `AttendanceWhere`. `findMany` and `deleteMany` become
`Store.Select`, and `findUnique` becomes `Store.FindFirst`.

Files: `outcomes.dfy` (results and exceptions), `store.dfy` (entities, store,
integrity constraints, table primitives), `groups.dfy`, `biblical_school.dfy`,
`auth.dfy`, and `scenarios.dfy` (sequences of calls on one store).

Errors and results as the code produces them:
- A duplicate membership or assignment raises BadRequest
  (`groups.service.ts:71`, `biblical-school.service.ts:89`).
- A taken email raises Forbidden "Credentials taken" (`auth.service.ts:32`).
  An unknown email and a wrong password both raise Forbidden
  "Credentials incorrect" (`auth.service.ts:47,54`).
- The token comes back in a record with the single field `access_token`
  (`auth.service.ts:70-72`).

Collaborators the model cannot see are parameters:
- bcrypt's `hash` and `compare`, the JWT signer, and passport-jwt's
  signature and expiry check are the uninterpreted function fields of
  `Auth.Crypto`.
- The random salt is an argument of `Auth.SignUp`.
- A database failure other than the unique-email violation is injected through
  `Auth.SignUp`'s `fault` argument. In the same way, a failure of the final
  group or class delete inside a transaction is injected through the `fault`
  argument of `Groups.Remove` and `BiblicalSchool.Remove`.
- Generated primary keys (attendance rows, users) come from counters in the
  store, standing for the ORM's id generator.

## Model

| member | source | states |
|---|---|---|
| Groups.FindOne | backend/src/groups/groups.service.ts:23-32 | fails with NotFound "Group with ID … not found" exactly when the group is missing; otherwise returns that group and exactly the members joined to it |
| Groups.Remove | backend/src/groups/groups.service.ts:41-47 | succeeds exactly when the group exists and the delete does not fault, and returns the group. Afterwards the group is gone and no membership of it remains. Memberships of other groups, other groups and all other tables are unchanged. A missing group fails with P2025, a faulting delete with its own code, and any failure rolls back: the store is unchanged |
| Groups.AddMember | backend/src/groups/groups.service.ts:49-82 | error precedence: missing group, then missing member, then existing pair (BadRequest), each leaving the store unchanged. Success exactly when all three checks pass, and it adds exactly the pair (member, group) |
| Groups.RemoveMember | backend/src/groups/groups.service.ts:84-98 | fails with NotFound exactly when the pair is not joined, leaving the store unchanged; otherwise it removes exactly that pair |
| Groups.MissingGroupAndMissingMemberDiffer | backend/src/groups/groups.service.ts:58-63 | the group-missing and member-missing messages never coincide, so the error names which entity was missing |
| Groups.AddMemberChecksGroupFirst | backend/src/groups/groups.service.ts:51-60 | with the group missing, the error names the group whatever the member is, even a missing one, and never names a member |
| Groups.AddMemberTwiceFails | backend/src/groups/groups.service.ts:65-74 | after a successful add, the same add fails with BadRequest "already in group" and changes nothing |
| Groups.RemoveMemberTwiceFails | backend/src/groups/groups.service.ts:84-93 | after a successful remove, the same remove fails with NotFound and changes nothing |
| Groups.RemoveMemberUndoesAddMember | backend/src/groups/groups.service.ts:76-98 | removeMember after a successful addMember returns the original store |
| Groups.AddMemberUndoesRemoveMember | backend/src/groups/groups.service.ts:49-98 | on a consistent store, addMember after a successful removeMember succeeds and returns the original store |
| Groups.RemoveMemberIgnoresRegistries | backend/src/groups/groups.service.ts:84-98 | removeMember's outcome depends on the membership relation only; group and member existence are not checked separately |
| Groups.FindOneAfterRemoveFails | backend/src/groups/groups.service.ts:41-47 | after a successful remove, findOne of the group fails with NotFound and the group's roster is empty |
| Groups.FaultingRemoveKeepsMemberships | backend/src/groups/groups.service.ts:43-46 | when the group delete faults, the memberships the transaction had already deleted are all back afterwards, and the fault is reported with its code |
| Groups.RemovePreservesValid | backend/src/groups/groups.service.ts:41-47 | the cascading delete leaves no dangling membership |
| Groups.AddMemberPreservesValid | backend/src/groups/groups.service.ts:50-63 | the existence checks guarantee that addMember never creates a dangling membership |
| Groups.RemoveMemberPreservesValid | backend/src/groups/groups.service.ts:84-98 | removeMember keeps every constraint |
| BiblicalSchool.FindOne | backend/src/biblical-school/biblical-school.service.ts:31-42 | fails with NotFound exactly when the class is missing; otherwise returns the class, exactly its participants with their roles, and exactly its attendance rows |
| BiblicalSchool.Remove | backend/src/biblical-school/biblical-school.service.ts:54-60 | succeeds exactly when the class exists and the delete does not fault. Afterwards no assignment and no attendance row of the class remains. Assignments and rows of other classes are untouched, as are groups and users. A missing class fails with P2025, a faulting delete with its own code, and any failure rolls back: the store is unchanged |
| BiblicalSchool.AssignParticipant | backend/src/biblical-school/biblical-school.service.ts:62-101 | error precedence: missing class, then missing member, then an existing assignment in any role (BadRequest), each leaving the store unchanged. Success adds exactly (member, class) with the requested role |
| BiblicalSchool.RemoveParticipant | backend/src/biblical-school/biblical-school.service.ts:103-117 | fails with NotFound exactly when the pair has no assignment; otherwise deletes only that pair and returns it with its role |
| BiblicalSchool.RecordAttendance | backend/src/biblical-school/biblical-school.service.ts:119-173 | class then member existence decide failure, leaving the store unchanged. On success the returned row has the key (date, member, class) and the recorded status, and is in the table. Classes and assignments are unchanged |
| BiblicalSchool.GetAttendance | backend/src/biblical-school/biblical-school.service.ts:175-192 | fails with NotFound exactly when the class is missing; otherwise returns exactly the rows of that class on that day |
| BiblicalSchool.UpdateAttendance | backend/src/biblical-school/biblical-school.service.ts:194-213 | fails with NotFound exactly when no row has that id, leaving the store unchanged. Otherwise it returns a stored row with that id carrying the new status, and the table afterwards is the old one with exactly that row replaced by the returned one |
| BiblicalSchool.MissingClassAndMissingMemberDiffer | backend/src/biblical-school/biblical-school.service.ts:74-82 | the class-missing and member-missing messages never coincide |
| BiblicalSchool.ClassIsCheckedFirst | backend/src/biblical-school/biblical-school.service.ts:119-139 | with the class missing, assignParticipant and recordAttendance both report the class, never a member, and change nothing |
| BiblicalSchool.AssignParticipantTwiceFails | backend/src/biblical-school/biblical-school.service.ts:84-92 | once a member is assigned, assigning them to the class again fails with BadRequest whatever the role, and changes nothing |
| BiblicalSchool.RemoveParticipantUndoesAssign | backend/src/biblical-school/biblical-school.service.ts:94-117 | removeParticipant after a successful assignParticipant returns the original store |
| BiblicalSchool.AssignUndoesRemoveParticipant | backend/src/biblical-school/biblical-school.service.ts:62-117 | on a consistent store, re-assigning the removed role after a successful removeParticipant returns the original store |
| BiblicalSchool.RemoveParticipantTwiceFails | backend/src/biblical-school/biblical-school.service.ts:103-112 | a second removeParticipant of the same pair fails with NotFound |
| BiblicalSchool.RecordAttendanceIgnoresAssignments | backend/src/biblical-school/biblical-school.service.ts:119-139 | recordAttendance does not require the member to be assigned to the class: its outcome is the same whatever the assignments |
| BiblicalSchool.RecordAttendanceUpserts | backend/src/biblical-school/biblical-school.service.ts:141-172 | on a consistent store, exactly one row holds the key afterwards, with the recorded status. An existing row is updated in place: same position and id, table size unchanged, every other row untouched. Otherwise exactly one fresh row is appended |
| BiblicalSchool.RecordAttendanceLastWins | backend/src/biblical-school/biblical-school.service.ts:141-172 | recording two statuses under one key gives the same outcome and store as recording the second alone |
| BiblicalSchool.SecondRecordUpdatesSameRow | backend/src/biblical-school/biblical-school.service.ts:151-161 | when the key was present, the second record rewrites the row the first one rewrote |
| BiblicalSchool.SecondRecordUpdatesInsertedRow | backend/src/biblical-school/biblical-school.service.ts:151-171 | when the key was absent, the second record rewrites the row the first one inserted |
| BiblicalSchool.RecordAttendanceIdempotent | backend/src/biblical-school/biblical-school.service.ts:119-172 | recording the same status twice gives the same result and store as recording it once |
| BiblicalSchool.UpdateAttendanceTouchesOnlyTarget | backend/src/biblical-school/biblical-school.service.ts:194-213 | on a consistent store, only the status of the row with that id changes; its class, student and date, and every other row, stay as they were |
| BiblicalSchool.GetAttendanceListsRowsOnce | backend/src/biblical-school/biblical-school.service.ts:175-192 | on a consistent store the day's attendance lists every row once: no two listed rows share an id or a (date, student, class) key |
| BiblicalSchool.FindOneListsRowsOnce | backend/src/biblical-school/biblical-school.service.ts:31-42 | on a consistent store the attendance rows loaded with a class are listed once each: no two share an id or a key |
| BiblicalSchool.FindOneAfterRemoveFails | backend/src/biblical-school/biblical-school.service.ts:54-60 | after a successful remove, findOne and getAttendance of the class fail with NotFound, and no participant and no attendance row of it is left |
| BiblicalSchool.FaultingRemoveKeepsRows | backend/src/biblical-school/biblical-school.service.ts:55-59 | when the class delete faults, the assignments and attendance rows the transaction had already deleted are all back afterwards, and the fault is reported with its code |
| BiblicalSchool.RemovePreservesValid | backend/src/biblical-school/biblical-school.service.ts:54-60 | the cascade leaves no dangling assignment or attendance row and keeps both attendance uniqueness constraints |
| BiblicalSchool.AssignParticipantPreservesValid | backend/src/biblical-school/biblical-school.service.ts:68-82 | the existence checks guarantee that no assignment dangles |
| BiblicalSchool.RemoveParticipantPreservesValid | backend/src/biblical-school/biblical-school.service.ts:103-117 | removeParticipant keeps every constraint |
| BiblicalSchool.RewriteRowKeepsValid | backend/src/biblical-school/biblical-school.service.ts:151-161 | rewriting a row without touching its id or key keeps uniqueness and foreign keys |
| BiblicalSchool.AppendRowKeepsValid | backend/src/biblical-school/biblical-school.service.ts:162-171 | inserting a row with a fresh id, an absent key and existing class and student keeps every constraint |
| BiblicalSchool.RecordAttendancePreservesValid | backend/src/biblical-school/biblical-school.service.ts:119-172 | the upsert keeps attendance unique on (date, student, class) and on id, and adds no dangling row |
| BiblicalSchool.UpdateAttendancePreservesValid | backend/src/biblical-school/biblical-school.service.ts:194-213 | a status update keeps every constraint |
| Auth.SignUp | backend/src/auth/auth.service.ts:11-36 | on success, stores the email with the hash of the password and the default role, and returns the stored record without its password. A taken email gives Forbidden "Credentials taken", and so does any failure with code P2002; any other failure is rethrown unchanged. On failure the store is unchanged |
| Auth.SignIn | backend/src/auth/auth.service.ts:38-59 | succeeds exactly when the email is registered and the password matches the stored hash, and then returns the token signToken issues for that user's id, email and role. Every failure is Forbidden "Credentials incorrect" |
| Auth.SignToken | backend/src/auth/auth.service.ts:61-73 | the token is the signer's output on exactly the claims {sub: userId, email, role}, returned under `access_token` |
| Auth.Validate | backend/src/auth/jwt.strategy.ts:15-20 | the identity returned is the one whose claims are exactly the payload: sub becomes userId, email and role are kept |
| Auth.Authenticate | backend/src/auth/jwt.strategy.ts:6-20 | a token yields an identity exactly when the JWT check accepts it, and that identity's claims are the verified payload |
| Auth.ValidateInvertsClaims | backend/src/auth/jwt.strategy.ts:15-20 | validate and the claims of an identity are inverse both ways, so two payloads validate alike only when they are equal |
| Auth.WithoutPasswordKeepsOtherFields | backend/src/auth/auth.service.ts:27-29 | removing the password keeps every other field: restoring it yields the stored record, and two records strip alike exactly when they differ at most in the password |
| Auth.SignInRejectionsAlike | backend/src/auth/auth.service.ts:42-55 | an unknown email and a wrong password produce the identical failure |
| Auth.SignUpTwiceFails | backend/src/auth/auth.service.ts:18-35 | a second signup with the same email, with any password and salt, fails with Forbidden "Credentials taken" and stores nothing |
| Auth.SignInAfterSignUp | backend/src/auth/auth.service.ts:11-58 | if bcrypt accepts a password against its own hash, signin right after signup succeeds with the token of the new member |
| Auth.SignedTokenAuthenticates | backend/src/auth/jwt.strategy.ts:15-20 | when the JWT library verifies what it signed, the token from signToken(id, email, role) validates to {userId: id, email, role} |
| Auth.SignInTokenAuthenticates | backend/src/auth/auth.service.ts:38-73 | the token a successful signin returns validates to the identity of the stored user found by email |
| Auth.SignUpPreservesValid | backend/src/auth/auth.service.ts:11-36 | signup keeps users unique by email and by id |
| Scenarios.GroupLifecycle | backend/src/groups/groups.service.spec.ts:134-177 | add, add again, remove member, delete group, look up: the second add is BadRequest, the member removal restores the store, and the final lookup is NotFound |
| Scenarios.AttendanceLifecycle | backend/src/biblical-school/biblical-school.service.spec.ts:201-236 | assign, record PRESENT, record ABSENT on a day the class had no attendance: one row is inserted, then rewritten, and the day's attendance is that single row holding ABSENT |

## Left out

- `create`, `update` and `findAll` of both services: plain pass-throughs to the ORM with no rule of their own. `update` of a missing id fails only inside the ORM.
- The members service and member deletion: a pass-through. Member deletion has no guard against rows that still reference the member, so it is not a transition of this model.
- The dashboard counts: plain cardinalities of the store's tables.
- Controllers, HTTP status codes, API annotations and DTO validation: inputs reach the model already shape-valid.
- Eager loading: `findOne` results carry member ids and assignment rows, not the joined member records.
- Timestamps (`createdAt`, `updatedAt`, `assignedAt`), and the group and class columns other than id, name and description.
- Date parsing: a date is the abstract value `new Date(date)` yields, compared for equality only; the same calendar day sent at two different times of day gives two different keys. What `getAttendance` does when the `date` query parameter is absent is left unmodelled, because the code leaves it undefined.
- Concurrency: each service call is one atomic step, and nothing is claimed about interleaved requests, whose check-then-write sequences are not transactional in the code.
- bcrypt and JWT internals (salt rounds, signature, expiry): uninterpreted functions.
- Auth.SignUp: states that the stored password is `hash(password, salt)`; that this differs from the plain password is a property of bcrypt, which the model leaves uninterpreted.
- Groups.Remove and BiblicalSchool.Remove: a delete of a missing row fails with the ORM's code P2025. The services do not handle it themselves, so the exact error object is the ORM's. A fault is injected only at the final delete; a fault in an earlier `deleteMany` rolls back in the same way and is not modelled separately.
- Groups.AddMember: "at most one row per (member, group)" holds by construction, because memberships form a set. The same goes for BiblicalSchool.AssignParticipant and one role per (member, class), which hold because assignments form a map.
