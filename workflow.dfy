/**
  The approval workflow end to end, on a freshly seeded store: a student and
  an instructor register, the instructor is admitted only after an admin's
  approval, publishes a course that stays out of the catalog until approved,
  and the student enrolls once.
 */
module Workflow {
  import opened Wrappers
  import opened Js
  import opened Schema
  import Sql
  import Auth
  import InstructorCourses
  import StudentCatalog
  import StudentEnrollments
  import AdminCourses
  import AdminInstructors
  import Store

  /** The replies and listings the workflow observes, step by step. */
  datatype Observed = Observed(
    studentLogin: Auth.LoginReply,
    instructorBeforeApproval: Auth.LoginReply,
    instructorAfterApproval: Auth.LoginReply,
    pendingBeforeApproval: seq<AdminCourses.PendingRow>,
    catalogBeforeApproval: seq<StudentCatalog.CatalogRow>,
    catalogAfterApproval: seq<StudentCatalog.CatalogRow>,
    firstEnroll: Reply,
    secondEnroll: Reply,
    studentCourses: seq<StudentEnrollments.EnrolledRow>)

  function SeedAdmin(salt: nat): User {
    User(1, "Admin", "admin@gmail.com", Bcrypt(salt, "admin123"), AdminRole, true)
  }

  function Ana(salt: nat): User {
    Auth.RegisteredUser(2, "Ana", "ana@x.com", "pw123", salt, Some(StudentRole))
  }

  function Bo(salt: nat): User {
    Auth.RegisteredUser(3, "Bo", "bo@x.com", "pw123", salt, Some(InstructorRole))
  }

  function GoBasics(): Course {
    InstructorCourses.NewCourse(1, "Go Basics", "Intro", PriceNumber(10.0), 3)
  }

  /** A student and an instructor register; the student can log in at once, the instructor cannot. */
  method RegisterBoth(st: Store.Store, salt: nat) returns (studentLogin: Auth.LoginReply, before: Auth.LoginReply)
    requires st.Valid() && st.users == [SeedAdmin(salt)] && st.nextUserId == 2
    modifies st
    ensures st.Valid() && st.users == [SeedAdmin(salt), Ana(salt), Bo(salt)]
    ensures st.courses == old(st.courses) && st.enrollments == old(st.enrollments)
    ensures st.nextCourseId == old(st.nextCourseId) && st.nextEnrollmentId == old(st.nextEnrollmentId)
    ensures studentLogin == Auth.LoginReply(200, "Login successful",
              Some(Auth.Session(Auth.Token(2, StudentRole, Auth.OneDay), Auth.PublicUser(2, "Ana", StudentRole))))
    ensures before == Auth.NotApproved
  {
    var r := st.Register(Some("Ana"), Some("ana@x.com"), Some("pw123"), Some(StudentRole), salt);
    assert st.users == [SeedAdmin(salt), Ana(salt)];
    r := st.Register(Some("Bo"), Some("bo@x.com"), Some("pw123"), Some(InstructorRole), salt);
    assert st.users == [SeedAdmin(salt), Ana(salt), Bo(salt)];
    studentLogin := LoginAs(st.users, Ana(salt), "pw123");
    before := LoginAs(st.users, Bo(salt), "pw123");
  }

  /** Logging in with a row's own credentials, as `Auth.LoginWithCredentialsOf` decides it. */
  method LoginAs(users: seq<User>, u: User, password: string) returns (reply: Auth.LoginReply)
    requires Sql.KeysDistinct(users, UserEmail)
    requires u in users && u.email != "" && password != "" && Matches(password, u.password)
    ensures reply == if Auth.Blocked(u) then Auth.NotApproved else Auth.LoginReply(200, "Login successful", Some(Auth.SessionFor(u)))
  {
    Auth.LoginWithCredentialsOf(users, u, password);
    reply := Auth.Login(users, Some(u.email), Some(password));
  }

  /** An admin approves the instructor, who can then log in. */
  method ApproveBo(st: Store.Store, salt: nat) returns (after: Auth.LoginReply)
    requires st.Valid() && st.users == [SeedAdmin(salt), Ana(salt), Bo(salt)]
    modifies st
    ensures st.Valid() && st.users == [SeedAdmin(salt), Ana(salt), Bo(salt).(isApproved := true)]
    ensures st.courses == old(st.courses) && st.enrollments == old(st.enrollments)
    ensures st.nextUserId == old(st.nextUserId) && st.nextCourseId == old(st.nextCourseId) && st.nextEnrollmentId == old(st.nextEnrollmentId)
    ensures after == Auth.LoginReply(200, "Login successful",
              Some(Auth.Session(Auth.Token(3, InstructorRole, Auth.OneDay), Auth.PublicUser(3, "Bo", InstructorRole))))
  {
    AdminInstructors.ApproveInstructorEffect(st.users, 3);
    var r := st.ApproveInstructor(3);
    assert st.users[0] == SeedAdmin(salt) && st.users[1] == Ana(salt) && st.users[2] == Bo(salt).(isApproved := true);
    assert st.users == [SeedAdmin(salt), Ana(salt), Bo(salt).(isApproved := true)];
    after := LoginAs(st.users, Bo(salt).(isApproved := true), "pw123");
  }

  function Onboarded(salt: nat): seq<User> {
    [SeedAdmin(salt), Ana(salt), Bo(salt).(isApproved := true)]
  }

  /** The approved instructor publishes a course: pending and absent from the catalog until an admin approves it. */
  method Publish(st: Store.Store, salt: nat)
    returns (pending: seq<AdminCourses.PendingRow>, catalogBefore: seq<StudentCatalog.CatalogRow>, catalogAfter: seq<StudentCatalog.CatalogRow>)
    requires st.Valid() && st.users == Onboarded(salt) && st.courses == [] && st.nextCourseId == 1
    modifies st
    ensures st.Valid() && st.users == Onboarded(salt) && st.courses == [GoBasics().(isApproved := true)]
    ensures st.enrollments == old(st.enrollments) && st.nextEnrollmentId == old(st.nextEnrollmentId)
    ensures AdminCourses.PendingRow(1, "Go Basics", PriceNumber(10.0), "Bo") in pending
    ensures forall row :: row in catalogBefore ==> row.id != 1
    ensures StudentCatalog.CatalogRow(1, "Go Basics", "Intro", PriceNumber(10.0), "Bo") in catalogAfter
  {
    var created, courseId := st.CreateCourse(3, Some("Go Basics"), Some("Intro"), PriceNumber(10.0));
    assert st.courses == [GoBasics()];
    FindUserExact(st.users, Bo(salt).(isApproved := true));
    assert GoBasics() in st.courses;
    pending := AdminCourses.PendingCourses(st.users, st.courses);
    catalogBefore := StudentCatalog.ApprovedCatalog(st.users, st.courses);
    AdminCourses.ApprovedCourseBecomesVisible(st.users, st.courses, GoBasics());
    var r := st.ApproveCourse(1);
    assert st.courses[0] == GoBasics().(isApproved := true);
    catalogAfter := StudentCatalog.ApprovedCatalog(st.users, st.courses);
  }

  /** The student enrolls in the approved course once; a second attempt is refused; the course is listed as hers. */
  method EnrollTwice(st: Store.Store, salt: nat, today: int)
    returns (first: Reply, second: Reply, mine: seq<StudentEnrollments.EnrolledRow>)
    requires st.Valid() && st.users == Onboarded(salt) && st.courses == [GoBasics().(isApproved := true)]
    requires st.enrollments == [] && st.nextEnrollmentId == 1
    modifies st
    ensures first == StudentEnrollments.Enrolled
    ensures second == StudentEnrollments.AlreadyEnrolledReply
    ensures StudentEnrollments.EnrolledRow(1, "Go Basics", "Intro", "Bo") in mine
  {
    first := st.EnrollCourse(2, Some(1), today);
    var e := StudentEnrollments.NewEnrollment(1, 2, 1, today);
    assert st.enrollments == [e];
    second := st.EnrollCourse(2, Some(1), today);
    FindUserExact(st.users, Bo(salt).(isApproved := true));
    FindCourseExact(st.courses, GoBasics().(isApproved := true));
    assert e in st.enrollments;
    mine := StudentEnrollments.MyEnrollments(st.users, st.courses, st.enrollments, 2);
  }

  method ApprovalWorkflow(salt: nat, today: int) returns (o: Observed)
    ensures o.studentLogin == Auth.LoginReply(200, "Login successful",
              Some(Auth.Session(Auth.Token(2, StudentRole, Auth.OneDay), Auth.PublicUser(2, "Ana", StudentRole))))
    ensures o.instructorBeforeApproval == Auth.NotApproved
    ensures o.instructorAfterApproval == Auth.LoginReply(200, "Login successful",
              Some(Auth.Session(Auth.Token(3, InstructorRole, Auth.OneDay), Auth.PublicUser(3, "Bo", InstructorRole))))
    ensures AdminCourses.PendingRow(1, "Go Basics", PriceNumber(10.0), "Bo") in o.pendingBeforeApproval
    ensures forall row :: row in o.catalogBeforeApproval ==> row.id != 1
    ensures StudentCatalog.CatalogRow(1, "Go Basics", "Intro", PriceNumber(10.0), "Bo") in o.catalogAfterApproval
    ensures o.firstEnroll == StudentEnrollments.Enrolled
    ensures o.secondEnroll == StudentEnrollments.AlreadyEnrolledReply
    ensures StudentEnrollments.EnrolledRow(1, "Go Basics", "Intro", "Bo") in o.studentCourses
  {
    var st := new Store.Store.Seeded(salt);
    var studentLogin, before := RegisterBoth(st, salt);
    var after := ApproveBo(st, salt);
    var pending, catalogBefore, catalogAfter := Publish(st, salt);
    var first, second, mine := EnrollTwice(st, salt, today);
    o := Observed(studentLogin, before, after, pending, catalogBefore, catalogAfter, first, second, mine);
  }
}
