/**
  The admin instructor controller: the pending instructors, approve (an UPDATE
  by id with no role filter) and reject (a DELETE by id scoped to the
  instructor role). The writes are `Store.ApproveInstructor` and
  `Store.RejectInstructor`.
 */
module AdminInstructors {
  import opened Wrappers
  import opened Schema
  import Sql
  import Auth

  const InstructorApproved := Reply(200, "Instructor approved")
  const InstructorRejected := Reply(200, "Instructor rejected")

  /** One row of `getPendingInstructors`. */
  datatype InstructorRow = InstructorRow(id: int, name: string, email: string)

  function PendingInstructorEntry(u: User): Option<InstructorRow> {
    if AwaitingApproval(u) then Some(InstructorRow(u.id, u.name, u.email)) else None
  }

  /** `role = 'instructor' AND isApproved = 0` */
  function AwaitingApproval(u: User): bool {
    u.role == InstructorRole && !u.isApproved
  }

  /** `getPendingInstructors`: exactly the users with role instructor and isApproved 0, one row for each. */
  function PendingInstructors(users: seq<User>): (r: seq<InstructorRow>)
    ensures |r| == Sql.Count(users, AwaitingApproval)
    ensures forall row :: row in r <==>
              exists u :: u in users && u.role == InstructorRole && !u.isApproved && row == InstructorRow(u.id, u.name, u.email)
  {
    Sql.SelectLengthIsCount(users, PendingInstructorEntry);
    Sql.CountMonotone(users, Sql.Admits(PendingInstructorEntry), AwaitingApproval);
    Sql.Select(users, PendingInstructorEntry)
  }

  function ApproveUserRow(u: User): User {
    u.(isApproved := true)
  }

  /** `UPDATE users SET isApproved=1 WHERE id=?` */
  function ApproveUserRows(users: seq<User>, id: int): seq<User> {
    Sql.Update(users, UserWithId(id), ApproveUserRow)
  }

  /**
    Approval sets the flag of the row with that id whatever its role, changes
    no other column and no other row, and approving again changes nothing.
   */
  lemma ApproveInstructorEffect(users: seq<User>, id: int)
    ensures var r := ApproveUserRows(users, id);
            && |r| == |users|
            && (forall i :: 0 <= i < |users| ==>
                 && r[i].(isApproved := users[i].isApproved) == users[i]
                 && (r[i].isApproved <==> users[i].isApproved || users[i].id == id))
            && ApproveUserRows(r, id) == r
  {
    var r := ApproveUserRows(users, id);
    assert Sql.Update(r, UserWithId(id), ApproveUserRow) == r;
  }

  /** After approval, the user is no longer among the pending instructors. */
  lemma ApprovalLeavesPending(users: seq<User>, id: int)
    ensures forall row :: row in PendingInstructors(ApproveUserRows(users, id)) ==> row.id != id
  {
    var r := ApproveUserRows(users, id);
    forall row | row in PendingInstructors(r) ensures row.id != id {
      var v :| v in r && v.role == InstructorRole && !v.isApproved && row == InstructorRow(v.id, v.name, v.email);
      var j :| 0 <= j < |r| && r[j] == v;
    }
  }

  /**
    After approval, logging in with the row's credentials succeeds (instead of
    the 403 an unapproved instructor gets), with a token for the row.
   */
  lemma ApprovalUnblocksLogin(users: seq<User>, u: User, password: string)
    requires Sql.KeysDistinct(users, UserEmail)
    requires u in users && u.email != "" && password != "" && Matches(password, u.password)
    ensures Auth.Login(ApproveUserRows(users, u.id), Some(u.email), Some(password)) ==
            Auth.LoginReply(200, "Login successful", Some(Auth.SessionFor(u.(isApproved := true))))
  {
    var r := ApproveUserRows(users, u.id);
    var i :| 0 <= i < |users| && users[i] == u;
    assert r[i] == ApproveUserRow(u);
    assert ApproveUserRow(u) in r;
    Sql.UpdateKeepsKeysDistinct(users, UserWithId(u.id), ApproveUserRow, UserEmail);
    Auth.LoginWithCredentialsOf(r, ApproveUserRow(u), password);
  }

  function RejectableAs(id: int): User -> bool {
    (u: User) => !(u.id == id && u.role == InstructorRole)
  }

  /** `DELETE FROM users WHERE id=? AND role='instructor'` */
  function RejectInstructorRows(users: seq<User>, id: int): (r: seq<User>)
    ensures forall u :: u in r <==> u in users && !(u.id == id && u.role == InstructorRole)
  {
    Sql.Where(users, RejectableAs(id))
  }

  /**
    Rejection removes an instructor with that id, approved or pending; a student
    or an admin with that id, and every other row, stay.
   */
  lemma RejectOnlyInstructors(users: seq<User>, id: int)
    ensures forall u :: u in users && u.role != InstructorRole ==> u in RejectInstructorRows(users, id)
    ensures forall u :: u in users && u.id != id ==> u in RejectInstructorRows(users, id)
    ensures forall u :: u in RejectInstructorRows(users, id) && u.id == id ==> u.role != InstructorRole
  {
  }
}
