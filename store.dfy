/**
  The relational store the handlers share: the `users`, `courses` and
  `enrollments` tables and their auto-increment counters. Every handler that
  writes is a method here, applying exactly the INSERT, UPDATE or DELETE its
  SQL performs, as one atomic step. `Valid` is the schema's constraints
  (primary keys, the unique email) plus the (student, course) uniqueness the
  enroll handler maintains.
 */
module Store {
  import opened Wrappers
  import opened Js
  import opened Schema
  import Sql
  import Auth
  import InstructorCourses
  import StudentEnrollments
  import AdminCourses
  import AdminInstructors
  import AdminUsers

  class Store {
    var users: seq<User>
    var courses: seq<Course>
    var enrollments: seq<Enrollment>
    var nextUserId: int
    var nextCourseId: int
    var nextEnrollmentId: int

    ghost predicate Valid()
      reads this
    {
      && 1 <= nextUserId && 1 <= nextCourseId && 1 <= nextEnrollmentId
      && Sql.KeysDistinct(users, UserId) && Sql.KeysBelow(users, UserId, nextUserId)
      && Sql.KeysDistinct(users, UserEmail)
      && Sql.KeysDistinct(courses, CourseId) && Sql.KeysBelow(courses, CourseId, nextCourseId)
      && Sql.KeysDistinct(enrollments, EnrollmentId) && Sql.KeysBelow(enrollments, EnrollmentId, nextEnrollmentId)
      && Sql.KeysDistinct(enrollments, EnrollmentPair)
    }

    /** The store after the seed script: one approved admin, no courses, no enrollments. */
    constructor Seeded(salt: nat)
      ensures Valid()
      ensures users == [User(1, "Admin", "admin@gmail.com", Bcrypt(salt, "admin123"), AdminRole, true)]
      ensures courses == [] && enrollments == []
      ensures nextUserId == 2 && nextCourseId == 1 && nextEnrollmentId == 1
    {
      users := [User(1, "Admin", "admin@gmail.com", Bcrypt(salt, "admin123"), AdminRole, true)];
      courses := [];
      enrollments := [];
      nextUserId, nextCourseId, nextEnrollmentId := 2, 1, 1;
    }

    /**
      `register`: 400 when name, email or password is missing; otherwise the
      password is hashed with `salt` and one row is inserted, or, when the unique
      email constraint refuses it, 409 and nothing changes.
     */
    method Register(name: Option<string>, email: Option<string>, password: Option<string>, role: Option<string>, salt: nat)
      returns (reply: Reply)
      requires Valid()
      modifies this
      ensures Valid()
      ensures courses == old(courses) && enrollments == old(enrollments)
      ensures nextCourseId == old(nextCourseId) && nextEnrollmentId == old(nextEnrollmentId)
      ensures Blank(name) || Blank(email) || Blank(password) ==>
                reply == Auth.FieldsRequired && users == old(users) && nextUserId == old(nextUserId)
      ensures !Blank(name) && !Blank(email) && !Blank(password) && Auth.EmailTaken(old(users), email.value) ==>
                reply == Auth.EmailExists && users == old(users) && nextUserId == old(nextUserId)
      ensures !Blank(name) && !Blank(email) && !Blank(password) && !Auth.EmailTaken(old(users), email.value) ==>
                && reply == Auth.Registered
                && users == old(users) + [Auth.RegisteredUser(old(nextUserId), name.value, email.value, password.value, salt, role)]
                && nextUserId == old(nextUserId) + 1
    {
      if Blank(name) || Blank(email) || Blank(password) {
        return Auth.FieldsRequired;
      }
      var row := Auth.RegisteredUser(nextUserId, name.value, email.value, password.value, salt, role);
      if Auth.EmailTaken(users, email.value) {
        return Auth.EmailExists;
      }
      Sql.AppendKeepsKeysDistinct(users, row, UserId);
      Sql.AppendKeepsKeysBelow(users, row, UserId, nextUserId);
      Sql.AppendKeepsKeysDistinct(users, row, UserEmail);
      users := users + [row];
      nextUserId := nextUserId + 1;
      reply := Auth.Registered;
    }

    /**
      `createCourse`: 400 and no insert when title, description or price is
      falsy; otherwise one pending course owned by the caller, and 201 with its id.
     */
    method CreateCourse(caller: int, title: Option<string>, description: Option<string>, price: Price)
      returns (reply: Reply, courseId: Option<int>)
      requires Valid()
      modifies this
      ensures Valid()
      ensures users == old(users) && enrollments == old(enrollments)
      ensures nextUserId == old(nextUserId) && nextEnrollmentId == old(nextEnrollmentId)
      ensures InstructorCourses.MissingCourseField(title, description, price) ==>
                reply == InstructorCourses.MissingFields && courseId == None &&
                courses == old(courses) && nextCourseId == old(nextCourseId)
      ensures !InstructorCourses.MissingCourseField(title, description, price) ==>
                && reply == InstructorCourses.CourseCreated && courseId == Some(old(nextCourseId))
                && courses == old(courses) + [InstructorCourses.NewCourse(old(nextCourseId), title.value, description.value, price, caller)]
                && nextCourseId == old(nextCourseId) + 1
    {
      if InstructorCourses.MissingCourseField(title, description, price) {
        return InstructorCourses.MissingFields, None;
      }
      var row := InstructorCourses.NewCourse(nextCourseId, title.value, description.value, price, caller);
      Sql.AppendKeepsKeysDistinct(courses, row, CourseId);
      Sql.AppendKeepsKeysBelow(courses, row, CourseId, nextCourseId);
      courses := courses + [row];
      courseId := Some(nextCourseId);
      nextCourseId := nextCourseId + 1;
      reply := InstructorCourses.CourseCreated;
    }

    /**
      `deleteCourse`: 403 and no change unless the caller owns a course with that
      id; otherwise the course's enrollments are deleted, then the course.
     */
    method DeleteCourse(caller: int, courseId: int) returns (reply: Reply)
      requires Valid()
      modifies this
      ensures Valid()
      ensures users == old(users)
      ensures nextUserId == old(nextUserId) && nextCourseId == old(nextCourseId) && nextEnrollmentId == old(nextEnrollmentId)
      ensures !InstructorCourses.Owns(old(courses), caller, courseId) ==>
                reply == InstructorCourses.Unauthorized && courses == old(courses) && enrollments == old(enrollments)
      ensures InstructorCourses.Owns(old(courses), caller, courseId) ==>
                && reply == InstructorCourses.CourseDeleted
                && enrollments == InstructorCourses.DropEnrollmentsOf(old(enrollments), courseId)
                && courses == InstructorCourses.DropCourse(old(courses), courseId)
    {
      if !InstructorCourses.Owns(courses, caller, courseId) {
        return InstructorCourses.Unauthorized;
      }
      Sql.WhereKeepsKeysDistinct(enrollments, (e: Enrollment) => e.courseId != courseId, EnrollmentId);
      Sql.WhereKeepsKeysDistinct(enrollments, (e: Enrollment) => e.courseId != courseId, EnrollmentPair);
      enrollments := InstructorCourses.DropEnrollmentsOf(enrollments, courseId);
      Sql.WhereKeepsKeysDistinct(courses, (c: Course) => c.id != courseId, CourseId);
      courses := InstructorCourses.DropCourse(courses, courseId);
      reply := InstructorCourses.CourseDeleted;
    }

    /**
      `enrollCourse`: 400 when the course id is falsy, 400 "Already enrolled" when
      the pair exists, otherwise one enrollment dated `today`. Neither the course
      table nor the course's approval is consulted.
     */
    method EnrollCourse(studentId: int, courseId: Option<int>, today: int) returns (reply: Reply)
      requires Valid()
      modifies this
      ensures Valid()
      ensures users == old(users) && courses == old(courses)
      ensures nextUserId == old(nextUserId) && nextCourseId == old(nextCourseId)
      ensures FalsyId(courseId) ==>
                reply == StudentEnrollments.CourseIdRequired && enrollments == old(enrollments) &&
                nextEnrollmentId == old(nextEnrollmentId)
      ensures !FalsyId(courseId) && StudentEnrollments.AlreadyEnrolled(old(enrollments), studentId, courseId.value) ==>
                reply == StudentEnrollments.AlreadyEnrolledReply && enrollments == old(enrollments) &&
                nextEnrollmentId == old(nextEnrollmentId)
      ensures !FalsyId(courseId) && !StudentEnrollments.AlreadyEnrolled(old(enrollments), studentId, courseId.value) ==>
                && reply == StudentEnrollments.Enrolled
                && enrollments == old(enrollments) + [StudentEnrollments.NewEnrollment(old(nextEnrollmentId), studentId, courseId.value, today)]
                && nextEnrollmentId == old(nextEnrollmentId) + 1
    {
      if FalsyId(courseId) {
        return StudentEnrollments.CourseIdRequired;
      }
      if StudentEnrollments.AlreadyEnrolled(enrollments, studentId, courseId.value) {
        return StudentEnrollments.AlreadyEnrolledReply;
      }
      var row := StudentEnrollments.NewEnrollment(nextEnrollmentId, studentId, courseId.value, today);
      Sql.AppendKeepsKeysDistinct(enrollments, row, EnrollmentId);
      Sql.AppendKeepsKeysBelow(enrollments, row, EnrollmentId, nextEnrollmentId);
      StudentEnrollments.EnrollKeepsPairsUnique(enrollments, nextEnrollmentId, studentId, courseId.value, today);
      enrollments := enrollments + [row];
      nextEnrollmentId := nextEnrollmentId + 1;
      reply := StudentEnrollments.Enrolled;
    }

    /** `approveCourse`: the courses with that id become approved; always "Course approved". */
    method ApproveCourse(id: int) returns (reply: Reply)
      requires Valid()
      modifies this
      ensures Valid()
      ensures reply == AdminCourses.CourseApproved
      ensures courses == AdminCourses.ApproveCourseRows(old(courses), id)
      ensures users == old(users) && enrollments == old(enrollments)
      ensures nextUserId == old(nextUserId) && nextCourseId == old(nextCourseId) && nextEnrollmentId == old(nextEnrollmentId)
    {
      Sql.UpdateKeepsKeysDistinct(courses, CourseWithId(id), AdminCourses.ApproveCourseRow, CourseId);
      Sql.UpdateKeepsKeysBelow(courses, CourseWithId(id), AdminCourses.ApproveCourseRow, CourseId, nextCourseId);
      courses := AdminCourses.ApproveCourseRows(courses, id);
      reply := AdminCourses.CourseApproved;
    }

    /** `rejectCourse`: the course with that id is deleted; its enrollments stay. */
    method RejectCourse(id: int) returns (reply: Reply)
      requires Valid()
      modifies this
      ensures Valid()
      ensures reply == AdminCourses.CourseRejected
      ensures courses == InstructorCourses.DropCourse(old(courses), id)
      ensures users == old(users) && enrollments == old(enrollments)
      ensures nextUserId == old(nextUserId) && nextCourseId == old(nextCourseId) && nextEnrollmentId == old(nextEnrollmentId)
    {
      Sql.WhereKeepsKeysDistinct(courses, (c: Course) => c.id != id, CourseId);
      courses := InstructorCourses.DropCourse(courses, id);
      reply := AdminCourses.CourseRejected;
    }

    /** `approveInstructor`: the user with that id becomes approved, whatever its role. */
    method ApproveInstructor(id: int) returns (reply: Reply)
      requires Valid()
      modifies this
      ensures Valid()
      ensures reply == AdminInstructors.InstructorApproved
      ensures users == AdminInstructors.ApproveUserRows(old(users), id)
      ensures courses == old(courses) && enrollments == old(enrollments)
      ensures nextUserId == old(nextUserId) && nextCourseId == old(nextCourseId) && nextEnrollmentId == old(nextEnrollmentId)
    {
      Sql.UpdateKeepsKeysDistinct(users, UserWithId(id), AdminInstructors.ApproveUserRow, UserId);
      Sql.UpdateKeepsKeysDistinct(users, UserWithId(id), AdminInstructors.ApproveUserRow, UserEmail);
      Sql.UpdateKeepsKeysBelow(users, UserWithId(id), AdminInstructors.ApproveUserRow, UserId, nextUserId);
      users := AdminInstructors.ApproveUserRows(users, id);
      reply := AdminInstructors.InstructorApproved;
    }

    /** `rejectInstructor`: the user with that id is deleted only if its role is instructor. */
    method RejectInstructor(id: int) returns (reply: Reply)
      requires Valid()
      modifies this
      ensures Valid()
      ensures reply == AdminInstructors.InstructorRejected
      ensures users == AdminInstructors.RejectInstructorRows(old(users), id)
      ensures courses == old(courses) && enrollments == old(enrollments)
      ensures nextUserId == old(nextUserId) && nextCourseId == old(nextCourseId) && nextEnrollmentId == old(nextEnrollmentId)
    {
      Sql.WhereKeepsKeysDistinct(users, AdminInstructors.RejectableAs(id), UserId);
      Sql.WhereKeepsKeysDistinct(users, AdminInstructors.RejectableAs(id), UserEmail);
      users := AdminInstructors.RejectInstructorRows(users, id);
      reply := AdminInstructors.InstructorRejected;
    }

    /**
      `updateUser`: name and email of the row with that id are overwritten and
      success is reported, also for an unknown id; when the unique email
      constraint refuses the new email, 500 and nothing changes.
     */
    method UpdateUser(id: int, name: string, email: string) returns (reply: Reply)
      requires Valid()
      modifies this
      ensures Valid()
      ensures courses == old(courses) && enrollments == old(enrollments)
      ensures nextUserId == old(nextUserId) && nextCourseId == old(nextCourseId) && nextEnrollmentId == old(nextEnrollmentId)
      ensures AdminUsers.EmailConflict(old(users), id, email) ==> reply == ServerError && users == old(users)
      ensures !AdminUsers.EmailConflict(old(users), id, email) ==>
                reply == AdminUsers.UserUpdated && users == AdminUsers.UpdateUserRows(old(users), id, name, email)
    {
      if AdminUsers.EmailConflict(users, id, email) {
        return ServerError;
      }
      Sql.UpdateKeepsKeysDistinct(users, UserWithId(id), AdminUsers.Rename(name, email), UserId);
      Sql.UpdateKeepsKeysBelow(users, UserWithId(id), AdminUsers.Rename(name, email), UserId, nextUserId);
      AdminUsers.UpdateKeepsEmailsUnique(users, id, name, email);
      users := AdminUsers.UpdateUserRows(users, id, name, email);
      reply := AdminUsers.UserUpdated;
    }

    /** `deleteUser`: the row with that id is deleted; courses and enrollments referencing it stay. */
    method DeleteUser(id: int) returns (reply: Reply)
      requires Valid()
      modifies this
      ensures Valid()
      ensures reply == AdminUsers.UserDeleted
      ensures users == AdminUsers.DeleteUserRows(old(users), id)
      ensures courses == old(courses) && enrollments == old(enrollments)
      ensures nextUserId == old(nextUserId) && nextCourseId == old(nextCourseId) && nextEnrollmentId == old(nextEnrollmentId)
    {
      Sql.WhereKeepsKeysDistinct(users, (u: User) => u.id != id, UserId);
      Sql.WhereKeepsKeysDistinct(users, (u: User) => u.id != id, UserEmail);
      users := AdminUsers.DeleteUserRows(users, id);
      reply := AdminUsers.UserDeleted;
    }
  }
}
