/**
  The student course controller: the approved catalog, `courses JOIN users`
  on the instructor, restricted to `isApproved = 1`. It only reads.
 */
module StudentCatalog {
  import opened Wrappers
  import opened Js
  import opened Schema
  import Sql

  /** One catalog row: id, title, description, price and the instructor's name. */
  datatype CatalogRow = CatalogRow(id: int, title: string, description: string, price: Price, instructor: string)

  function CatalogRowId(row: CatalogRow): int { row.id }

  function CatalogEntry(users: seq<User>, c: Course): Option<CatalogRow> {
    if !c.isApproved then None
    else match FindUser(users, c.instructorId)
      case None => None
      case Some(u) => Some(CatalogRow(c.id, c.title, c.description, c.price, u.name))
  }

  function CatalogPick(users: seq<User>): Course -> Option<CatalogRow> {
    (c: Course) => CatalogEntry(users, c)
  }

  /** The approved courses that survive the join with their instructor. */
  function Listable(users: seq<User>): Course -> bool {
    (c: Course) => c.isApproved && FindUser(users, c.instructorId).Some?
  }

  /**
    `getAllCourses`: exactly the approved courses whose instructor row exists,
    each with its instructor's name, one row for each.
   */
  function ApprovedCatalog(users: seq<User>, courses: seq<Course>): (r: seq<CatalogRow>)
    ensures |r| == Sql.Count(courses, Listable(users))
    ensures forall row :: row in r <==>
              exists c :: c in courses && c.isApproved && FindUser(users, c.instructorId).Some? &&
                          row == CatalogRow(c.id, c.title, c.description, c.price, FindUser(users, c.instructorId).value.name)
  {
    Sql.SelectLengthIsCount(courses, CatalogPick(users));
    Sql.CountMonotone(courses, Sql.Admits(CatalogPick(users)), Listable(users));
    Sql.Select(courses, CatalogPick(users))
  }

  /** Only approved courses are listed. */
  lemma CatalogOnlyApproved(users: seq<User>, courses: seq<Course>, row: CatalogRow)
    requires Sql.KeysDistinct(courses, CourseId)
    requires row in ApprovedCatalog(users, courses)
    ensures FindCourse(courses, row.id).Some? && FindCourse(courses, row.id).value.isApproved
  {
    var c :| c in courses && c.isApproved && FindUser(users, c.instructorId).Some? &&
             row == CatalogRow(c.id, c.title, c.description, c.price, FindUser(users, c.instructorId).value.name);
    FindCourseExact(courses, c);
  }

  /**
    With course ids unique, every approved course whose instructor exists is
    listed exactly once, and an approved course whose instructor row was
    deleted is not listed at all.
   */
  lemma CatalogCoverage(users: seq<User>, courses: seq<Course>, c: Course)
    requires Sql.KeysDistinct(courses, CourseId)
    requires c in courses && c.isApproved
    ensures Sql.KeysDistinct(ApprovedCatalog(users, courses), CatalogRowId)
    ensures FindUser(users, c.instructorId).Some? ==>
              CatalogRow(c.id, c.title, c.description, c.price, FindUser(users, c.instructorId).value.name) in ApprovedCatalog(users, courses)
    ensures FindUser(users, c.instructorId).None? ==>
              forall row :: row in ApprovedCatalog(users, courses) ==> row.id != c.id
  {
    Sql.SelectKeepsKeysDistinct(courses, CatalogPick(users), CourseId, CatalogRowId);
    if FindUser(users, c.instructorId).None? {
      forall row | row in ApprovedCatalog(users, courses) ensures row.id != c.id {
        var d :| d in courses && d.isApproved && FindUser(users, d.instructorId).Some? &&
                 row == CatalogRow(d.id, d.title, d.description, d.price, FindUser(users, d.instructorId).value.name);
        if d.id == c.id {
          Sql.KeyDetermines(courses, CourseId, c, d);
        }
      }
    }
  }
}
