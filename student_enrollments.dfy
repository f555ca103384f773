/**
  The student enrollment controller: enroll by check-then-insert (the insert is
  `Store.EnrollCourse`), and the student's enrollments joined to their course
  and that course's instructor, all of them or only today's.
 */
module StudentEnrollments {
  import opened Wrappers
  import opened Js
  import opened Schema
  import Sql
  import InstructorCourses

  const CourseIdRequired := Reply(400, "Course ID required")
  const AlreadyEnrolledReply := Reply(400, "Already enrolled")
  const Enrolled := Reply(200, "Enrolled successfully")

  /** `SELECT * FROM enrollments WHERE student_id=? AND course_id=?` is not empty. */
  predicate AlreadyEnrolled(enrollments: seq<Enrollment>, studentId: int, courseId: int) {
    exists e :: e in enrollments && e.studentId == studentId && e.courseId == courseId
  }

  /** The row the enroll inserts; `created_at` defaults to the current day. */
  function NewEnrollment(id: int, studentId: int, courseId: int, today: int): Enrollment {
    Enrollment(id, studentId, courseId, today)
  }

  /**
    Inserting only when the pair is absent keeps (student, course) unique, and
    afterwards the pair is present, so a repeated enroll is refused.
   */
  lemma EnrollKeepsPairsUnique(enrollments: seq<Enrollment>, id: int, studentId: int, courseId: int, today: int)
    requires Sql.KeysDistinct(enrollments, EnrollmentPair)
    requires !AlreadyEnrolled(enrollments, studentId, courseId)
    ensures Sql.KeysDistinct(enrollments + [NewEnrollment(id, studentId, courseId, today)], EnrollmentPair)
    ensures AlreadyEnrolled(enrollments + [NewEnrollment(id, studentId, courseId, today)], studentId, courseId)
  {
    var e := NewEnrollment(id, studentId, courseId, today);
    Sql.AppendKeepsKeysDistinct(enrollments, e, EnrollmentPair);
    assert e in enrollments + [e];
  }

  // ------------------------------------------------- the enrollment listings

  /** One row of `getMyEnrollments` / `getTodayEnrollments`. */
  datatype EnrolledRow = EnrolledRow(id: int, title: string, description: string, instructor: string)

  /** `enrollments JOIN courses ON ... JOIN users ON courses.instructor_id = users.id` for one enrollment. */
  function JoinedEntry(users: seq<User>, courses: seq<Course>, e: Enrollment): Option<EnrolledRow> {
    match FindCourse(courses, e.courseId)
    case None => None
    case Some(c) =>
      match FindUser(users, c.instructorId)
      case None => None
      case Some(u) => Some(EnrolledRow(c.id, c.title, c.description, u.name))
  }

  function MyPick(users: seq<User>, courses: seq<Course>, studentId: int): Enrollment -> Option<EnrolledRow> {
    (e: Enrollment) => if e.studentId == studentId then JoinedEntry(users, courses, e) else None
  }

  function TodayPick(users: seq<User>, courses: seq<Course>, studentId: int, today: int): Enrollment -> Option<EnrolledRow> {
    (e: Enrollment) => if e.studentId == studentId && e.createdDay == today then JoinedEntry(users, courses, e) else None
  }

  /** The student's enrollments that survive both joins. */
  function Joinable(users: seq<User>, courses: seq<Course>, studentId: int): Enrollment -> bool {
    (e: Enrollment) => e.studentId == studentId && JoinedEntry(users, courses, e).Some?
  }

  /** The student's enrollments created today that survive both joins. */
  function JoinableToday(users: seq<User>, courses: seq<Course>, studentId: int, today: int): Enrollment -> bool {
    (e: Enrollment) => e.studentId == studentId && e.createdDay == today && JoinedEntry(users, courses, e).Some?
  }

  /**
    `getMyEnrollments`: one row per enrollment of the student whose course, and
    that course's instructor, still exist.
   */
  function MyEnrollments(users: seq<User>, courses: seq<Course>, enrollments: seq<Enrollment>, studentId: int): (r: seq<EnrolledRow>)
    ensures |r| == Sql.Count(enrollments, Joinable(users, courses, studentId))
    ensures forall row :: row in r <==>
              exists e :: e in enrollments && e.studentId == studentId && JoinedEntry(users, courses, e) == Some(row)
  {
    var pick := MyPick(users, courses, studentId);
    Sql.SelectLengthIsCount(enrollments, pick);
    Sql.CountMonotone(enrollments, Sql.Admits(pick), Joinable(users, courses, studentId));
    Sql.Select(enrollments, pick)
  }

  /** `getTodayEnrollments`: the same join, restricted to enrollments created today, one row for each. */
  function TodayEnrollments(users: seq<User>, courses: seq<Course>, enrollments: seq<Enrollment>, studentId: int, today: int): (r: seq<EnrolledRow>)
    ensures |r| == Sql.Count(enrollments, JoinableToday(users, courses, studentId, today))
    ensures forall row :: row in r <==>
              exists e :: e in enrollments && e.studentId == studentId && e.createdDay == today &&
                          JoinedEntry(users, courses, e) == Some(row)
  {
    var pick := TodayPick(users, courses, studentId, today);
    Sql.SelectLengthIsCount(enrollments, pick);
    Sql.CountMonotone(enrollments, Sql.Admits(pick), JoinableToday(users, courses, studentId, today));
    Sql.Select(enrollments, pick)
  }

  /** A joined row names an existing course and an existing instructor of it. */
  lemma JoinedEntryExists(users: seq<User>, courses: seq<Course>, e: Enrollment)
    requires JoinedEntry(users, courses, e).Some?
    ensures exists c, u :: c in courses && u in users && c.id == e.courseId && u.id == c.instructorId &&
                           JoinedEntry(users, courses, e) == Some(EnrolledRow(c.id, c.title, c.description, u.name))
  {
    var c := FindCourse(courses, e.courseId).value;
    var u := FindUser(users, c.instructorId).value;
    assert c in courses && u in users;
  }

  /** Today's enrollments are a sub-multiset of all the student's enrollments. */
  lemma TodayWithinMine(users: seq<User>, courses: seq<Course>, enrollments: seq<Enrollment>, studentId: int, today: int)
    ensures multiset(TodayEnrollments(users, courses, enrollments, studentId, today)) <=
            multiset(MyEnrollments(users, courses, enrollments, studentId))
  {
    Sql.SelectNarrowing(enrollments, TodayPick(users, courses, studentId, today), MyPick(users, courses, studentId));
  }

  /**
    After an instructor's delete of a course (its enrollments, then the course),
    no student's enrollment listing shows that course.
   */
  lemma DeletedCourseLeavesListings(users: seq<User>, courses: seq<Course>, enrollments: seq<Enrollment>, courseId: int, studentId: int)
    ensures forall row :: row in MyEnrollments(users, InstructorCourses.DropCourse(courses, courseId),
                                               InstructorCourses.DropEnrollmentsOf(enrollments, courseId), studentId)
                          ==> row.id != courseId
  {
    var cs := InstructorCourses.DropCourse(courses, courseId);
    var es := InstructorCourses.DropEnrollmentsOf(enrollments, courseId);
    forall row | row in MyEnrollments(users, cs, es, studentId) ensures row.id != courseId {
      var e :| e in es && e.studentId == studentId && JoinedEntry(users, cs, e) == Some(row);
      JoinedEntryExists(users, cs, e);
    }
  }
}
