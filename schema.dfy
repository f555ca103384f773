/**
  Request-body values as the handlers see them, and JavaScript's notion of a
  falsy value (`!x`) on them.
 */
module Js {
  import opened Wrappers

  /** `!s` for a text field of a JSON body: missing (undefined), null or "" */
  predicate Blank(s: Option<string>) {
    s.None? || s.value == ""
  }

  /** A course price as it arrives in a JSON body: absent, a number or a string. */
  datatype Price = NoPrice | PriceNumber(amount: real) | PriceText(text: string)

  /** `!price`: undefined or null, the number 0, or the empty string */
  predicate FalsyPrice(p: Price) {
    p.NoPrice? || p == PriceNumber(0.0) || p == PriceText("")
  }

  /** `!courseId` for a numeric body field: missing, null or 0 */
  predicate FalsyId(id: Option<int>) {
    id.None? || id.value == 0
  }
}

/**
  The three tables (`users`, `courses`, `enrollments`), the password hash and
  the `{status, message}` reply shared by the handlers.
 */
module Schema {
  import opened Wrappers
  import Js
  import Sql

  const StudentRole := "student"
  const InstructorRole := "instructor"
  const AdminRole := "admin"

  /**
    A bcrypt hash, `bcrypt.hash(secret, 10)` with the salt drawn at that call.
    One-wayness is not modelled: the hash records what it was computed from,
    so that `Matches` has a definition.
   */
  datatype Hash = Bcrypt(salt: nat, secret: string)

  /** `bcrypt.compare(password, hash)` */
  predicate Matches(password: string, h: Hash) {
    h.secret == password
  }

  /** A `users` row; `password` holds the hash, never the plaintext. */
  datatype User = User(id: int, name: string, email: string, password: Hash, role: string, isApproved: bool)

  /** A `courses` row. */
  datatype Course = Course(id: int, title: string, description: string, price: Js.Price, instructorId: int, isApproved: bool)

  /** An `enrollments` row; `createdDay` is `DATE(created_at)`. */
  datatype Enrollment = Enrollment(id: int, studentId: int, courseId: int, createdDay: int)

  /** The HTTP status and the `message` field of a JSON reply. */
  datatype Reply = Reply(status: nat, message: string)

  const ServerError := Reply(500, "Server error")

  function UserId(u: User): int { u.id }
  function UserEmail(u: User): string { u.email }
  function CourseId(c: Course): int { c.id }
  function EnrollmentId(e: Enrollment): int { e.id }
  function EnrollmentPair(e: Enrollment): (int, int) { (e.studentId, e.courseId) }

  /** The condition `WHERE id = ?` on `users`. */
  function UserWithId(id: int): User -> bool {
    (u: User) => u.id == id
  }

  /** The condition `WHERE id = ?` on `courses`. */
  function CourseWithId(id: int): Course -> bool {
    (c: Course) => c.id == id
  }

  /**
    `JOIN users ON ... = users.id`: the row with primary key `id`. Under the
    primary-key constraint at most one row matches, so the join yields this row
    or nothing.
   */
  function FindUser(users: seq<User>, id: int): (r: Option<User>)
    ensures r.Some? ==> r.value in users && r.value.id == id
    ensures r.None? <==> forall u :: u in users ==> u.id != id
  {
    Sql.First(users, UserWithId(id))
  }

  /** `JOIN courses ON ... = courses.id`, as `FindUser`. */
  function FindCourse(courses: seq<Course>, id: int): (r: Option<Course>)
    ensures r.Some? ==> r.value in courses && r.value.id == id
    ensures r.None? <==> forall c :: c in courses ==> c.id != id
  {
    Sql.First(courses, CourseWithId(id))
  }

  /** Under the primary key, the lookup finds exactly the row carrying the id. */
  lemma FindUserExact(users: seq<User>, u: User)
    requires Sql.KeysDistinct(users, UserId)
    requires u in users
    ensures FindUser(users, u.id) == Some(u)
  {
    Sql.KeyDetermines(users, UserId, u, FindUser(users, u.id).value);
  }

  /** Under the primary key, the lookup finds exactly the row carrying the id. */
  lemma FindCourseExact(courses: seq<Course>, c: Course)
    requires Sql.KeysDistinct(courses, CourseId)
    requires c in courses
    ensures FindCourse(courses, c.id) == Some(c)
  {
    Sql.KeyDetermines(courses, CourseId, c, FindCourse(courses, c.id).value);
  }
}
