# SkillForge: roles, approval and ownership

SkillForge is a course marketplace. Students register and log in straight away.
Instructors register too, but cannot log in until an admin approves them. An
approved instructor publishes courses. A course is pending until an admin
approves it, and only approved courses appear in the student catalog. Students
enroll in courses, and instructors see their courses with enrollment counts.
Admins manage users, pending instructors and pending courses.

This project is a Dafny model of the server's controllers, its three routers,
and the client's route guard. It proves what each one promises.

- **Tables.** The `users`, `courses` and `enrollments` tables are sequences of
  row datatypes, kept in insertion order. Since ids auto-increment, that is also
  id order.
- **Queries** are built from a small table algebra in module `Sql`:
  - `Where` models `SELECT`/`DELETE … WHERE`.
  - `Select` models a filtered projection.
  - `Update` models `UPDATE … WHERE`.
  - `Count` models `COUNT`.
  - `First` models `rows[0]` of a query: the first row in table order that
    satisfies the condition. The email, id and route lookups all use it.
  - `KeysDistinct` models a primary-key or unique constraint.
  - A join on a primary key is a lookup by id (`FindUser`, `FindCourse`). This is
    exact under the primary-key constraint, and `FindUserExact` and
    `FindCourseExact` prove it.
- **Writes.** Every handler that writes is a method of the class `Store.Store`.
  It holds the three tables and their auto-increment counters. Each method
  performs its handler's INSERT, UPDATE or DELETE statements as one step and
  keeps `Valid`:
  - ids are unique and below the counter;
  - emails are unique;
  - (student, course) pairs are unique, which the enroll handler's
    check-then-insert maintains.
- **Reads.** Handlers that only read are functions over the tables: login, the
  listings and the ownership check.
- **Routing.** Module `Routes` declares each router as a table of
  (verb, path, middleware chain, handler) entries. It mounts them under the
  prefixes of `server/server.js` and dispatches a request to the first matching
  entry.
- **Client guard.** Module `ProtectedRoute` is the client's guard for its pages.
- **End to end.** Module `Workflow` runs the approval workflow on a freshly
  seeded store. A student and an instructor register. The instructor is refused
  until approved. Their course is pending and missing from the catalog until
  approved. The student enrolls once, and a second attempt is refused.

Inputs from outside the server are parameters:
- the bcrypt salt (`salt`);
- the current day (`today`, for `CURDATE()` and the `created_at` default);
- the verified token claims (`Claims`).

These behaviours of the source are modelled as written:
- Enrolling twice answers 400 "Already enrolled", not 409.
- Enrolling does not check that the course exists or is approved.
- `rejectCourse` deletes the course but leaves its enrollments alone. The
  instructor's `deleteCourse` removes the enrollments first.
- `approveInstructor` sets the flag of any user with that id, whatever the
  role. `rejectInstructor` deletes only when the role is instructor.
- Registration approves exactly the role "student". An omitted role is stored
  as "student" but left unapproved, because the approval test looks at the
  supplied role. Any other role is stored as given, "admin" included, and
  that user can log in at once with a token carrying that role.
- `updateUser` and `deleteUser` report success for an unknown id.
- `getCourseStudents` and `deleteCourse` exist in the instructor controller,
  but no router binds them, so no request reaches them.

## Model

| member | source | states |
|---|---|---|
| Schema.FindUser | server/controllers/student/courseController.js:13 | the joined user row carries the requested id; no row is found exactly when no user has that id |
| Schema.FindUserExact | server/controllers/student/courseController.js:13 | under the primary key on users, the join finds exactly the row that has the id |
| Schema.FindCourse | server/controllers/student/enrollmentController.js:48 | the joined course row carries the requested id; no row is found exactly when no course has that id |
| Schema.FindCourseExact | server/controllers/student/enrollmentController.js:48 | under the primary key on courses, the join finds exactly the row that has the id |
| Auth.RegisteredUser | server/controllers/auth/register.js:16-31 | the inserted row keeps the name and email; its hash matches the password; it is approved exactly when the supplied role is "student" |
| Auth.OmittedRoleGivesUnapprovedStudent | server/controllers/auth/register.js:19-29 | a missing or empty role is stored as "student", and that row is not approved |
| Auth.RoleStoredAsGiven | server/controllers/auth/register.js:19-29 | any non-empty role is stored unchanged, and the row is approved exactly when that role is "student" |
| Auth.FindByEmail | server/controllers/auth/login.js:16-24 | the row found has the email and no earlier row in table order has it; none is found exactly when no row has it |
| Auth.StoredRole | server/controllers/auth/register.js:29 | the role column defaults to "student": a missing or empty role is stored as "student", any other as given |
| Auth.Blocked | server/controllers/auth/login.js:34 | the approval gate refuses exactly an instructor whose flag is not set |
| Auth.SessionFor | server/controllers/auth/login.js:39-54 | the token carries the row's id and role with a one-day lifetime; the reply's user is the row's id, name and role |
| Auth.Login | server/controllers/auth/login.js:10-54 | 400 exactly when email or password is missing; 401 "Invalid email or password" when no row with the email matches the password; 403 only for a matching unapproved instructor; 200 only with the token and public view of a matching, unblocked row |
| Auth.LoginWithCredentialsOf | server/controllers/auth/login.js:16-54 | under unique emails, a row's own credentials get 403 if it is an unapproved instructor, otherwise 200 with that row's session |
| Auth.NoUserEnumeration | server/controllers/auth/login.js:20-31 | an unknown email and a wrong password for a known email get the same 401 reply |
| Auth.RegisterThenLogin | server/controllers/auth/register.js:19-31 | right after registering, logging in with the same credentials gives 403 exactly when the role was "instructor"; otherwise it gives 200 with a token for the new id and the stored role |
| Store.Store.Valid | server/controllers/auth/register.js:38-43 | the store invariant: ids unique and below their auto-increment counters, emails unique (the constraint whose violation is the 409), (student, course) pairs unique |
| Store.Store.Seeded | server/scripts/createAdmin.js:5-14 | the seeded store holds the one approved admin "admin@gmail.com", whose hash is of "admin123", and it satisfies the store invariant |
| Store.Store.Register | server/controllers/auth/register.js:9-43 | 400 with no change when a field is missing; 409 with no change when the email is taken; otherwise 201 and one appended row under the next id; the invariant is kept |
| Store.Store.CreateCourse | server/controllers/instructor/courseController.js:5-21 | 400 with no change when title, description or price is falsy; otherwise 201, the new id, and one pending course owned by the caller |
| Store.Store.DeleteCourse | server/controllers/instructor/courseController.js:95-114 | 403 with no change for a non-owner; otherwise the course's enrollments are deleted, then the course |
| Store.Store.EnrollCourse | server/controllers/student/enrollmentController.js:6-29 | 400 "Course ID required" for a falsy id; 400 "Already enrolled" when the pair exists; otherwise one enrollment dated today; courses and users are untouched |
| Store.Store.ApproveCourse | server/controllers/admin/courseController.js:27-32 | the courses with that id become approved; nothing else changes |
| Store.Store.RejectCourse | server/controllers/admin/courseController.js:41-46 | the course with that id is deleted; enrollments are untouched |
| Store.Store.ApproveInstructor | server/controllers/admin/adminController.js:18-22 | the user with that id becomes approved, whatever its role |
| Store.Store.RejectInstructor | server/controllers/admin/adminController.js:31-35 | the user with that id is deleted only if it is an instructor |
| Store.Store.UpdateUser | server/controllers/admin/userController.js:18-33 | 500 with no change when the new email belongs to another row; otherwise name and email of the row with that id are overwritten |
| Store.Store.DeleteUser | server/controllers/admin/userController.js:37-47 | the user with that id is deleted; courses and enrollments that refer to it stay |
| InstructorCourses.NewCourse | server/controllers/instructor/courseController.js:12-16 | the inserted course is owned by the caller, pending, and carries the given fields |
| InstructorCourses.Owns | server/controllers/instructor/courseController.js:99-106 | the ownership query `WHERE id = ? AND instructor_id = ?` returns a row |
| InstructorCourses.OwnsIff | server/controllers/instructor/courseController.js:99-106 | the ownership check passes exactly when a course has that id and the caller as instructor |
| InstructorCourses.MyCourses | server/controllers/instructor/courseController.js:32-47 | exactly the caller's courses, approved or pending, each with its enrollment count, one row per course |
| InstructorCourses.StudentsCountsEnrollments | server/controllers/instructor/courseController.js:40-44 | the count is the number of the course's enrollments, and it is 0 exactly when there are none |
| InstructorCourses.MyCoursesOnce | server/controllers/instructor/courseController.js:41-44 | with unique course ids, each course is listed once (GROUP BY) |
| InstructorCourses.CourseStudents | server/controllers/instructor/courseController.js:62-86 | refused exactly when the caller owns no course with that id; otherwise one row per enrollment of the course whose student exists, and as many rows as such enrollments |
| InstructorCourses.CourseStudentsIsJoin | server/controllers/instructor/courseController.js:72-84 | under the primary key, the listing is exactly the inner join of enrollments and users |
| InstructorCourses.ListedStudentsWithinCount | server/controllers/instructor/courseController.js:72-84 | the student list is never longer than the course's count, and equals it when every enrolled student exists |
| InstructorCourses.DropEnrollmentsOf | server/controllers/instructor/courseController.js:109 | exactly the enrollments of other courses remain |
| InstructorCourses.DropCourse | server/controllers/instructor/courseController.js:112 | exactly the courses with other ids remain |
| InstructorCourses.DeleteCourseEffect | server/controllers/instructor/courseController.js:108-112 | after both deletes the course is gone and has no enrollments; every other course's count is unchanged |
| StudentCatalog.ApprovedCatalog | server/controllers/student/courseController.js:5-15 | exactly the approved courses whose instructor exists, each with the instructor's name, one row for each such course |
| StudentCatalog.CatalogOnlyApproved | server/controllers/student/courseController.js:14 | every listed id belongs to an approved course |
| StudentCatalog.CatalogCoverage | server/controllers/student/courseController.js:12-14 | each approved course with an existing instructor is listed exactly once; one whose instructor was deleted is not listed |
| StudentEnrollments.AlreadyEnrolled | server/controllers/student/enrollmentController.js:14-19 | the existing-enrollment query for the (student, course) pair returns a row |
| StudentEnrollments.EnrollKeepsPairsUnique | server/controllers/student/enrollmentController.js:14-27 | inserting only an absent pair keeps pairs unique, and afterwards a repeat would be refused |
| StudentEnrollments.MyEnrollments | server/controllers/student/enrollmentController.js:65-75 | one row per enrollment of the student whose course and instructor exist, joined to them, and no other rows |
| StudentEnrollments.TodayEnrollments | server/controllers/student/enrollmentController.js:41-52 | the same join, one row per such enrollment created today, and no other rows |
| StudentEnrollments.JoinedEntryExists | server/controllers/student/enrollmentController.js:47-49 | a joined row names an existing course and an existing instructor of that course |
| StudentEnrollments.TodayWithinMine | server/controllers/student/enrollmentController.js:50-51 | today's listing is a sub-multiset of the full listing |
| StudentEnrollments.DeletedCourseLeavesListings | server/controllers/instructor/courseController.js:108-112 | after an instructor deletes a course, no student's listing shows it |
| AdminCourses.PendingCourses | server/controllers/admin/courseController.js:6-15 | exactly the unapproved courses whose instructor exists, one row for each |
| AdminCourses.PendingDisjointFromCatalog | server/controllers/admin/courseController.js:14 | with unique course ids, no course is both pending and in the catalog |
| AdminCourses.ApproveCourseRows | server/controllers/admin/courseController.js:27-30 | `UPDATE courses SET isApproved = 1 WHERE id = ?` on the table |
| AdminCourses.ApproveCourseEffect | server/controllers/admin/courseController.js:27-30 | only the approval flag changes, and only on rows with that id |
| AdminCourses.ApproveCourseIdempotent | server/controllers/admin/courseController.js:27-30 | approving twice is the same as approving once; an unknown id changes nothing |
| AdminCourses.ApprovedCourseBecomesVisible | server/controllers/admin/courseController.js:27-30 | after approval, the course's row is in the catalog and no longer pending |
| AdminInstructors.PendingInstructors | server/controllers/admin/adminController.js:6-8 | exactly the unapproved instructors, one row for each |
| AdminInstructors.ApproveUserRows | server/controllers/admin/adminController.js:18-21 | `UPDATE users SET isApproved=1 WHERE id=?` on the table |
| AdminInstructors.ApproveInstructorEffect | server/controllers/admin/adminController.js:18-21 | only the flag of the row with that id changes, whatever its role, and approving again changes nothing |
| AdminInstructors.ApprovalLeavesPending | server/controllers/admin/adminController.js:18-21 | once approved, the user is no longer among the pending instructors |
| AdminInstructors.ApprovalUnblocksLogin | server/controllers/admin/adminController.js:18-21 | after approval, the row's own credentials log in with 200 |
| AdminInstructors.RejectInstructorRows | server/controllers/admin/adminController.js:31-34 | exactly the rows that are not instructors with that id remain |
| AdminInstructors.RejectOnlyInstructors | server/controllers/admin/adminController.js:31-34 | students, admins and rows with other ids survive; no instructor with that id survives |
| AdminUsers.AllUsers | server/controllers/admin/userController.js:6-8 | one row per user, in table order, with every column except the password |
| AdminUsers.AllUsersHidesPasswords | server/controllers/admin/userController.js:6-8 | the listing does not depend on password hashes |
| AdminUsers.UpdateUserRows | server/controllers/admin/userController.js:23-27 | `UPDATE users SET name=?, email=? WHERE id=?` on the table |
| AdminUsers.EmailConflict | server/controllers/admin/userController.js:23-32 | the update violates the unique email: a row has that id and another row already holds the new email |
| AdminUsers.UpdateUserEffect | server/controllers/admin/userController.js:23-29 | only the name and email of the row with that id change; an unknown id changes nothing |
| AdminUsers.UpdateKeepsEmailsUnique | server/controllers/admin/userController.js:23-29 | an update the unique constraint admits keeps emails unique |
| AdminUsers.DeleteUserRows | server/controllers/admin/userController.js:41 | exactly the rows with other ids remain |
| Routes.AuthRoutes | server/routes/authRoutes.js:7-8 | `POST /register` and `POST /login`, with no middleware |
| Routes.UserRoutes | server/routes/userRoutes.js:6-11 | `GET /me` behind `verifyToken` alone |
| Routes.AdminRoutes | server/routes/adminRoutes.js:24-76 | the ten admin declarations in source order, each behind `verifyToken, allowRoles("admin")` |
| Routes.InstructorRoutes | server/routes/instructorRoutes.js:12-25 | `POST /create-course` and `GET /my-courses` behind the instructor gate |
| Routes.StudentRoutes | server/routes/studentRoutes.js:14-39 | the four student declarations behind the student gate |
| Routes.App | server/server.js:18-22 | the five routers mounted in order under `/api/auth`, `/api/users`, `/api/admin`, `/api/instructor`, `/api/student` |
| Routes.Screen | server/routes/adminRoutes.js:26-27 | the middleware chain admits exactly when every guard passes; a refusal for a missing token means there are no claims |
| Routes.GateAdmitsOnly | server/routes/adminRoutes.js:26-27 | `verifyToken, allowRoles(role)` admits exactly valid claims of that role; otherwise it refuses for no token or for the wrong role |
| Routes.Mount | server/server.js:18-22 | a mounted router holds exactly its entries with the prefix prepended to the path |
| Routes.Dispatch | server/server.js:18-22 | 404 exactly when no entry has the verb and path; a handler runs only from such an entry whose guards all pass |
| Routes.DispatchReaches | server/server.js:18-22 | with unique endpoints, every entry is reached and its guards alone decide |
| Routes.AppEndpointsDistinct | server/server.js:18-22 | no verb and path is declared twice in the mounted table |
| Routes.AdminRouterGated | server/routes/adminRoutes.js:24-76 | every admin route runs verifyToken, then allowRoles("admin"), before an admin handler |
| Routes.AdminRouterServes | server/routes/adminRoutes.js:24-76 | each admin entry, under /api/admin, runs its handler for admin claims and refuses all others |
| Routes.StudentRouterGated | server/routes/studentRoutes.js:14-39 | every student route runs verifyToken, then allowRoles("student") |
| Routes.StudentRouterServes | server/routes/studentRoutes.js:14-39 | each student entry, under /api/student, runs its handler for student claims only |
| Routes.InstructorRouterGated | server/routes/instructorRoutes.js:12-25 | every instructor route runs verifyToken, then allowRoles("instructor") |
| Routes.InstructorRouterHandlers | server/routes/instructorRoutes.js:4-7 | the instructor router binds only createCourse and getMyCourses |
| Routes.InstructorRouterServes | server/routes/instructorRoutes.js:12-25 | each instructor entry, under /api/instructor, runs its handler for instructor claims only |
| Routes.UnboundNeverRuns | server/routes/instructorRoutes.js:4-7 | no request, whatever its claims, runs getCourseStudents or deleteCourse |
| Routes.AppDeclaresGates | server/server.js:18-22 | every mounted entry carries the gate of its handler's role |
| Routes.GatedTableRuns | server/routes/adminRoutes.js:24-76 | in a table whose entries carry their handlers' gates, a role's handler runs only for that role's claims |
| Routes.OnlyTheRoleRuns | server/server.js:18-22 | on the server's table, whatever the payload, an admin, instructor or student handler runs only for valid claims of that role |
| ProtectedRoute.Decide | client/src/routes/ProtectedRoute.jsx:3-16 | renders exactly when a token is stored, a user is stored, and the roles list is absent or contains the user's role; otherwise it redirects to "/" |
| ProtectedRoute.DecisionIgnoresIdentity | client/src/routes/ProtectedRoute.jsx:3-16 | the decision depends only on token presence, the user's role and the roles list |
| ProtectedRoute.RolesListBounds | client/src/routes/ProtectedRoute.jsx:11-15 | without a roles list every logged-in user is admitted; an empty list admits nobody |
| ProtectedRoute.LoginOpensPagesOfItsRole | client/src/routes/ProtectedRoute.jsx:4-15 | after a successful login, a page admits the user exactly when its roles list is absent or contains the role in the server's token |
| Workflow.RegisterBoth | server/controllers/auth/register.js:9-36 | on the seeded store a student and an instructor register; the student logs in with 200 and the instructor gets 403 |
| Workflow.ApproveBo | server/controllers/admin/adminController.js:18-22 | after the admin's approval the instructor logs in with 200 and a token for their id and role |
| Workflow.Publish | server/controllers/instructor/courseController.js:5-21 | the new course is pending, listed for review and absent from the catalog; once approved it is in the catalog |
| Workflow.EnrollTwice | server/controllers/student/enrollmentController.js:9-29 | the first enroll succeeds, the second gets "Already enrolled", and the course is in the student's listing |
| Workflow.ApprovalWorkflow | server/controllers/auth/login.js:33-36 | on the seeded store, a student logs in at once, and an instructor gets 403 until approved and 200 after; the course is pending and out of the catalog, then in the catalog once approved; the first enroll succeeds, the second gets "Already enrolled", and the course is listed for the student |

## Left out

- Store failures other than the unique email constraint are not modelled: a lost connection or a failed query. In the source these answer 500 "Server error".
- The schema is not part of the source. Only the primary keys and the unique email are modelled. If `enrollments.course_id` or `courses.instructor_id` were foreign keys, `rejectCourse` of an enrolled course and `deleteUser` of an instructor would fail with 500 instead of deleting.
- Every string comparison in SQL is exact equality: the unique email, `WHERE email = ?`, and the role filters `role='instructor'` of the pending and reject queries. A case-insensitive or trailing-space-insensitive collation is not modelled. (Login's own role test is a JavaScript `===`, which is exact.)
- Auto-increment: a failed insert does not consume an id, whereas MySQL may leave a gap.
- bcrypt's one-wayness and cost factor are not modelled. The hash records its secret so that `Matches` has a definition.
- JWT signing, the secret, and expiry checking are not modelled. The token is its payload and lifetime.
- The `verifyToken` and `allowRoles` middleware are not part of this model. `VerifyToken` passes when claims are present, and `AllowRoles` when the role is in the list. Their reply status codes are not modelled, only which of the two refused.
- URL parameters are not parsed. A request names its route pattern (`/approve/:id`), and the handler receives the id as an integer.
- The admin router's `GET /courses` binds a `getAllCourses` that `server/controllers/admin/courseController.js` does not export. The entry is in the table (`AdminGetAllCourses`), but its behaviour is not modelled.
- `authRoutes` and `userRoutes` are in the table ungated and behind `verifyToken`. Only the `/me` profile route's gate is modelled, not its reply.
- Store.Store.UpdateUser: `name` and `email` are strings. A missing body field (`undefined` bound as NULL) is not modelled.
- Store.Store.DeleteCourse: the 500 reply that carries `err.message` is not modelled.
- StudentEnrollments.MyEnrollments: the handler has no try/catch, so a store failure there is an unhandled rejection. This is not modelled.
- `created_at` is modelled by its day only. Listings keep table order, with no `ORDER BY` beyond it.
- Concurrency is not modelled. Each handler is one atomic step, so the race between enroll's check and its insert is not captured, nor the window between deleteCourse's two deletes.
- The login page's writes to local storage and the rest of the client are not part of this model. `ProtectedRoute.Saved` is what it stores from the reply.
