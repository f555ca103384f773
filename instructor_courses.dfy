/**
  The instructor's course controller: creating a pending course, listing the
  caller's courses with their enrollment counts, listing a course's students,
  and the owner-checked delete that removes the course's enrollments first.
  The inserts and deletes themselves are `Store.CreateCourse` and
  `Store.DeleteCourse`.
 */
module InstructorCourses {
  import opened Wrappers
  import opened Js
  import opened Schema
  import Sql

  const MissingFields := Reply(400, "Missing required fields")
  const CourseCreated := Reply(201, "Course created successfully")
  const Unauthorized := Reply(403, "Unauthorized")
  const CourseDeleted := Reply(200, "Course deleted successfully")

  /** `!title || !description || !price` */
  predicate MissingCourseField(title: Option<string>, description: Option<string>, price: Price) {
    Blank(title) || Blank(description) || FalsyPrice(price)
  }

  /** The row `createCourse` inserts: owned by the caller, pending approval. */
  function NewCourse(id: int, title: string, description: string, price: Price, instructorId: int): (c: Course)
    ensures c.id == id && c.instructorId == instructorId && !c.isApproved
    ensures c.title == title && c.description == description && c.price == price
  {
    Course(id, title, description, price, instructorId, false)
  }

  // ------------------------------------------------------------ ownership

  /** `SELECT * FROM courses WHERE id = ? AND instructor_id = ?` */
  function OwnedCourse(courses: seq<Course>, caller: int, courseId: int): seq<Course> {
    Sql.Where(courses, (c: Course) => c.id == courseId && c.instructorId == caller)
  }

  /** The ownership check: `course.length !== 0`. */
  predicate Owns(courses: seq<Course>, caller: int, courseId: int) {
    OwnedCourse(courses, caller, courseId) != []
  }

  /** The caller owns the course exactly when some row has that id and the caller as instructor. */
  lemma OwnsIff(courses: seq<Course>, caller: int, courseId: int)
    ensures Owns(courses, caller, courseId) <==> exists c :: c in courses && c.id == courseId && c.instructorId == caller
  {
    var owned := OwnedCourse(courses, caller, courseId);
    if owned != [] {
      assert owned[0] in owned;
    }
  }

  // ---------------------------------------------------------- getMyCourses

  /** One row of `getMyCourses`; `students` is `COUNT(e.id)` of the left join. */
  datatype MyCourseRow = MyCourseRow(id: int, title: string, description: string, price: Price, isApproved: bool, students: nat)

  function MyCourseRowId(row: MyCourseRow): int { row.id }

  /** The join condition `c.id = e.course_id`. */
  function EnrolledIn(courseId: int): Enrollment -> bool {
    (e: Enrollment) => e.courseId == courseId
  }

  /** The enrollment count of one group of the left join. */
  function Students(enrollments: seq<Enrollment>, courseId: int): nat {
    Sql.Count(enrollments, EnrolledIn(courseId))
  }

  /** `WHERE c.instructor_id = ?` */
  function TaughtBy(caller: int): Course -> bool {
    (c: Course) => c.instructorId == caller
  }

  function MyCourseEntry(enrollments: seq<Enrollment>, caller: int, c: Course): Option<MyCourseRow> {
    if c.instructorId == caller
    then Some(MyCourseRow(c.id, c.title, c.description, c.price, c.isApproved, Students(enrollments, c.id)))
    else None
  }

  function MyCoursePick(enrollments: seq<Enrollment>, caller: int): Course -> Option<MyCourseRow> {
    (c: Course) => MyCourseEntry(enrollments, caller, c)
  }

  /**
    `getMyCourses`: exactly the caller's courses, approved or pending, each with
    its enrollment count.
   */
  function MyCourses(courses: seq<Course>, enrollments: seq<Enrollment>, caller: int): (r: seq<MyCourseRow>)
    ensures |r| == Sql.Count(courses, TaughtBy(caller))
    ensures forall row :: row in r <==>
              exists c :: c in courses && c.instructorId == caller &&
                          row == MyCourseRow(c.id, c.title, c.description, c.price, c.isApproved, Students(enrollments, c.id))
  {
    Sql.SelectLengthIsCount(courses, MyCoursePick(enrollments, caller));
    Sql.CountMonotone(courses, Sql.Admits(MyCoursePick(enrollments, caller)), TaughtBy(caller));
    Sql.Select(courses, MyCoursePick(enrollments, caller))
  }

  /**
    The `students` value is the number of enrollments of that course, and 0
    exactly when the left join found none.
   */
  lemma {:induction false} StudentsCountsEnrollments(enrollments: seq<Enrollment>, courseId: int)
    ensures Students(enrollments, courseId) == |Sql.Where(enrollments, EnrolledIn(courseId))|
    ensures Students(enrollments, courseId) == 0 <==> forall e :: e in enrollments ==> e.courseId != courseId
  {
    Sql.CountIsWhereLength(enrollments, EnrolledIn(courseId));
  }

  /** With course ids unique, each of the caller's courses appears once. */
  lemma MyCoursesOnce(courses: seq<Course>, enrollments: seq<Enrollment>, caller: int)
    requires Sql.KeysDistinct(courses, CourseId)
    ensures Sql.KeysDistinct(MyCourses(courses, enrollments, caller), MyCourseRowId)
  {
    Sql.SelectKeepsKeysDistinct(courses, MyCoursePick(enrollments, caller), CourseId, MyCourseRowId);
  }

  // ----------------------------------------------------- getCourseStudents

  /** One row of `getCourseStudents`; `enrolledDay` is the day of `created_at`. */
  datatype StudentRow = StudentRow(id: int, name: string, email: string, enrolledDay: int)

  /** An ownership-checked listing: `NotOwner` is the 403 reply `Unauthorized`, otherwise 200 with rows. */
  datatype Guarded<T> = NotOwner | Permitted(rows: seq<T>)

  /** `enrollments JOIN users ON enrollments.student_id = users.id WHERE enrollments.course_id = ?` */
  function StudentEntry(users: seq<User>, courseId: int, e: Enrollment): Option<StudentRow> {
    if e.courseId != courseId then None
    else match FindUser(users, e.studentId)
      case None => None
      case Some(u) => Some(StudentRow(u.id, u.name, u.email, e.createdDay))
  }

  /** The course's enrollments that survive the join with their student. */
  function EnrolledStudent(users: seq<User>, courseId: int): Enrollment -> bool {
    (e: Enrollment) => e.courseId == courseId && FindUser(users, e.studentId).Some?
  }

  function StudentPick(users: seq<User>, courseId: int): Enrollment -> Option<StudentRow> {
    (e: Enrollment) => StudentEntry(users, courseId, e)
  }

  function StudentsOf(users: seq<User>, enrollments: seq<Enrollment>, courseId: int): seq<StudentRow> {
    Sql.Select(enrollments, StudentPick(users, courseId))
  }

  /**
    `getCourseStudents`: refused unless the caller owns a course with that id;
    otherwise one row per enrollment of the course whose student row exists.
   */
  function CourseStudents(users: seq<User>, courses: seq<Course>, enrollments: seq<Enrollment>, caller: int, courseId: int): (r: Guarded<StudentRow>)
    ensures r.NotOwner? <==> !exists c :: c in courses && c.id == courseId && c.instructorId == caller
    ensures r.Permitted? ==> |r.rows| == Sql.Count(enrollments, EnrolledStudent(users, courseId))
    ensures r.Permitted? ==>
              forall row :: row in r.rows <==>
                exists e :: e in enrollments && e.courseId == courseId && FindUser(users, e.studentId).Some? &&
                            row == var u := FindUser(users, e.studentId).value;
                                   StudentRow(u.id, u.name, u.email, e.createdDay)
  {
    OwnsIff(courses, caller, courseId);
    Sql.SelectLengthIsCount(enrollments, StudentPick(users, courseId));
    Sql.CountMonotone(enrollments, Sql.Admits(StudentPick(users, courseId)), EnrolledStudent(users, courseId));
    if !Owns(courses, caller, courseId) then NotOwner
    else Permitted(StudentsOf(users, enrollments, courseId))
  }

  /** Under the primary key on `users`, the listing is exactly the inner join. */
  lemma CourseStudentsIsJoin(users: seq<User>, courses: seq<Course>, enrollments: seq<Enrollment>, caller: int, courseId: int, row: StudentRow)
    requires Sql.KeysDistinct(users, UserId)
    requires Owns(courses, caller, courseId)
    ensures row in CourseStudents(users, courses, enrollments, caller, courseId).rows <==>
            exists e, u :: e in enrollments && u in users && e.courseId == courseId && u.id == e.studentId &&
                           row == StudentRow(u.id, u.name, u.email, e.createdDay)
  {
    if e, u :| e in enrollments && u in users && e.courseId == courseId && u.id == e.studentId &&
               row == StudentRow(u.id, u.name, u.email, e.createdDay) {
      FindUserExact(users, u);
    }
  }

  /**
    The student list never outgrows the `students` count of the course, and
    matches it when every enrolled student's row still exists.
   */
  lemma ListedStudentsWithinCount(users: seq<User>, enrollments: seq<Enrollment>, courseId: int)
    ensures |StudentsOf(users, enrollments, courseId)| <= Students(enrollments, courseId)
    ensures (forall e :: e in enrollments && e.courseId == courseId ==> FindUser(users, e.studentId).Some?) ==>
            |StudentsOf(users, enrollments, courseId)| == Students(enrollments, courseId)
  {
    var pick := StudentPick(users, courseId);
    Sql.SelectLengthIsCount(enrollments, pick);
    Sql.CountMonotone(enrollments, Sql.Admits(pick), EnrolledIn(courseId));
  }

  // ----------------------------------------------------------- deleteCourse

  /** `DELETE FROM enrollments WHERE course_id = ?` */
  function DropEnrollmentsOf(enrollments: seq<Enrollment>, courseId: int): (r: seq<Enrollment>)
    ensures forall e :: e in r <==> e in enrollments && e.courseId != courseId
  {
    Sql.Where(enrollments, (e: Enrollment) => e.courseId != courseId)
  }

  /** `DELETE FROM courses WHERE id = ?` */
  function DropCourse(courses: seq<Course>, courseId: int): (r: seq<Course>)
    ensures forall c :: c in r <==> c in courses && c.id != courseId
  {
    Sql.Where(courses, (c: Course) => c.id != courseId)
  }

  /**
    After the two deletes the course is gone, nothing references it, and every
    other course and every other course's enrollment count is as before.
   */
  lemma DeleteCourseEffect(courses: seq<Course>, enrollments: seq<Enrollment>, courseId: int)
    ensures forall c :: c in DropCourse(courses, courseId) ==> c.id != courseId
    ensures Students(DropEnrollmentsOf(enrollments, courseId), courseId) == 0
    ensures forall other :: other != courseId ==>
              Students(DropEnrollmentsOf(enrollments, courseId), other) == Students(enrollments, other)
  {
    var kept := DropEnrollmentsOf(enrollments, courseId);
    StudentsCountsEnrollments(kept, courseId);
    forall other | other != courseId
      ensures Students(kept, other) == Students(enrollments, other)
    {
      KeptCount(enrollments, courseId, other);
    }
  }

  lemma {:induction false} KeptCount(enrollments: seq<Enrollment>, courseId: int, other: int)
    requires other != courseId
    ensures Students(DropEnrollmentsOf(enrollments, courseId), other) == Students(enrollments, other)
  {
    if enrollments != [] {
      var e := enrollments[0];
      var rest := DropEnrollmentsOf(enrollments[1..], courseId);
      KeptCount(enrollments[1..], courseId, other);
      assert Students(enrollments, other) == (if e.courseId == other then 1 else 0) + Students(enrollments[1..], other);
      if e.courseId != courseId {
        var kept := [e] + rest;
        assert DropEnrollmentsOf(enrollments, courseId) == kept;
        assert kept[1..] == rest;
        assert Students(kept, other) == (if e.courseId == other then 1 else 0) + Students(rest, other);
      } else {
        assert DropEnrollmentsOf(enrollments, courseId) == rest;
      }
    }
  }
}
