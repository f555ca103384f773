/**
  The admin course controller: the pending list, approve (an UPDATE of one id,
  idempotent, reported even for an unknown id) and reject (a DELETE of one id
  that leaves `enrollments` alone; the write is `Store.RejectCourse`).
 */
module AdminCourses {
  import opened Wrappers
  import opened Js
  import opened Schema
  import Sql
  import StudentCatalog

  const CourseApproved := Reply(200, "Course approved")
  const CourseRejected := Reply(200, "Course rejected")

  /** One row of `getPendingCourses`: id, title, price and the instructor's name. */
  datatype PendingRow = PendingRow(id: int, title: string, price: Price, instructor: string)

  function PendingRowId(row: PendingRow): int { row.id }

  function PendingEntry(users: seq<User>, c: Course): Option<PendingRow> {
    if c.isApproved then None
    else match FindUser(users, c.instructorId)
      case None => None
      case Some(u) => Some(PendingRow(c.id, c.title, c.price, u.name))
  }

  function PendingPick(users: seq<User>): Course -> Option<PendingRow> {
    (c: Course) => PendingEntry(users, c)
  }

  /** The unapproved courses that survive the join with their instructor. */
  function Reviewable(users: seq<User>): Course -> bool {
    (c: Course) => !c.isApproved && FindUser(users, c.instructorId).Some?
  }

  /** `getPendingCourses`: exactly the unapproved courses whose instructor row exists, one row for each. */
  function PendingCourses(users: seq<User>, courses: seq<Course>): (r: seq<PendingRow>)
    ensures |r| == Sql.Count(courses, Reviewable(users))
    ensures forall row :: row in r <==>
              exists c :: c in courses && !c.isApproved && FindUser(users, c.instructorId).Some? &&
                          row == PendingRow(c.id, c.title, c.price, FindUser(users, c.instructorId).value.name)
  {
    Sql.SelectLengthIsCount(courses, PendingPick(users));
    Sql.CountMonotone(courses, Sql.Admits(PendingPick(users)), Reviewable(users));
    Sql.Select(courses, PendingPick(users))
  }

  /** With course ids unique, no course is both pending and in the student catalog. */
  lemma PendingDisjointFromCatalog(users: seq<User>, courses: seq<Course>)
    requires Sql.KeysDistinct(courses, CourseId)
    ensures forall p, a :: p in PendingCourses(users, courses) && a in StudentCatalog.ApprovedCatalog(users, courses) ==> p.id != a.id
  {
    forall p, a | p in PendingCourses(users, courses) && a in StudentCatalog.ApprovedCatalog(users, courses)
      ensures p.id != a.id
    {
      var c :| c in courses && !c.isApproved && FindUser(users, c.instructorId).Some? &&
               p == PendingRow(c.id, c.title, c.price, FindUser(users, c.instructorId).value.name);
      var d :| d in courses && d.isApproved && FindUser(users, d.instructorId).Some? &&
               a == StudentCatalog.CatalogRow(d.id, d.title, d.description, d.price, FindUser(users, d.instructorId).value.name);
      if c.id == d.id {
        Sql.KeyDetermines(courses, CourseId, c, d);
      }
    }
  }

  function ApproveCourseRow(c: Course): Course {
    c.(isApproved := true)
  }

  /** `UPDATE courses SET isApproved = 1 WHERE id = ?` */
  function ApproveCourseRows(courses: seq<Course>, id: int): seq<Course> {
    Sql.Update(courses, CourseWithId(id), ApproveCourseRow)
  }

  /**
    Approval flips the flag of the rows with that id and of no other row,
    changes no other column, and keeps the table's length and ids.
   */
  lemma ApproveCourseEffect(courses: seq<Course>, id: int)
    ensures var r := ApproveCourseRows(courses, id);
            && |r| == |courses|
            && forall i :: 0 <= i < |courses| ==>
                 && r[i].(isApproved := courses[i].isApproved) == courses[i]
                 && (r[i].isApproved <==> courses[i].isApproved || courses[i].id == id)
  {
  }

  /** Approving twice is approving once; approving an unknown id changes nothing. */
  lemma ApproveCourseIdempotent(courses: seq<Course>, id: int)
    ensures ApproveCourseRows(ApproveCourseRows(courses, id), id) == ApproveCourseRows(courses, id)
    ensures (forall c :: c in courses ==> c.id != id) ==> ApproveCourseRows(courses, id) == courses
  {
    var once := ApproveCourseRows(courses, id);
    assert Sql.Update(once, CourseWithId(id), ApproveCourseRow) == once;
    if forall c :: c in courses ==> c.id != id {
      assert forall i :: 0 <= i < |courses| ==> once[i] == courses[i] by {
        forall i | 0 <= i < |courses| ensures once[i] == courses[i] {
          assert courses[i] in courses;
        }
      }
    }
  }

  /**
    Once approved, a course whose instructor exists leaves the pending list and
    enters the student catalog.
   */
  lemma ApprovedCourseBecomesVisible(users: seq<User>, courses: seq<Course>, c: Course)
    requires c in courses && FindUser(users, c.instructorId).Some?
    ensures var r := ApproveCourseRows(courses, c.id);
            && StudentCatalog.CatalogRow(c.id, c.title, c.description, c.price, FindUser(users, c.instructorId).value.name)
                 in StudentCatalog.ApprovedCatalog(users, r)
            && forall p :: p in PendingCourses(users, r) ==> p.id != c.id
  {
    ApprovedRowListed(users, courses, c);
    ApprovedRowNotPending(users, courses, c.id);
  }

  lemma ApprovedRowListed(users: seq<User>, courses: seq<Course>, c: Course)
    requires c in courses && FindUser(users, c.instructorId).Some?
    ensures StudentCatalog.CatalogRow(c.id, c.title, c.description, c.price, FindUser(users, c.instructorId).value.name)
              in StudentCatalog.ApprovedCatalog(users, ApproveCourseRows(courses, c.id))
  {
    var r := ApproveCourseRows(courses, c.id);
    var i :| 0 <= i < |courses| && courses[i] == c;
    assert r[i] == ApproveCourseRow(c) && r[i] in r;
    assert StudentCatalog.CatalogPick(users)(r[i]) ==
           Some(StudentCatalog.CatalogRow(c.id, c.title, c.description, c.price, FindUser(users, c.instructorId).value.name));
  }

  lemma ApprovedRowNotPending(users: seq<User>, courses: seq<Course>, id: int)
    ensures forall p :: p in PendingCourses(users, ApproveCourseRows(courses, id)) ==> p.id != id
  {
    var r := ApproveCourseRows(courses, id);
    forall p | p in PendingCourses(users, r) ensures p.id != id {
      var d :| d in r && !d.isApproved && FindUser(users, d.instructorId).Some? &&
               p == PendingRow(d.id, d.title, d.price, FindUser(users, d.instructorId).value.name);
      var j :| 0 <= j < |r| && r[j] == d;
    }
  }
}
