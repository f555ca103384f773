/**
  The admin user controller: list every user without the password, overwrite
  a user's name and email, delete a user (no cascade). The writes are
  `Store.UpdateUser` and `Store.DeleteUser`.
 */
module AdminUsers {
  import opened Wrappers
  import opened Schema
  import Sql

  const UserUpdated := Reply(200, "User updated successfully")
  const UserDeleted := Reply(200, "User deleted")

  /** One row of `getAllUsers`: the users columns other than the password. */
  datatype UserRow = UserRow(id: int, name: string, email: string, role: string, isApproved: bool)

  function UserRowOf(u: User): UserRow {
    UserRow(u.id, u.name, u.email, u.role, u.isApproved)
  }

  /** `getAllUsers`: every user, in table order, each without its password hash. */
  function AllUsers(users: seq<User>): (r: seq<UserRow>)
    ensures |r| == |users|
    ensures forall i :: 0 <= i < |users| ==>
              r[i].id == users[i].id && r[i].name == users[i].name && r[i].email == users[i].email &&
              r[i].role == users[i].role && r[i].isApproved == users[i].isApproved
  {
    Sql.Project(users, UserRowOf)
  }

  /** Users that differ only in their password hashes are listed identically. */
  lemma AllUsersHidesPasswords(users: seq<User>, hashes: seq<Hash>)
    requires |hashes| == |users|
    ensures AllUsers(users) == AllUsers(seq(|users|, i requires 0 <= i < |users| => users[i].(password := hashes[i])))
  {
  }

  function Rename(name: string, email: string): User -> User {
    (u: User) => u.(name := name, email := email)
  }

  /** `UPDATE users SET name=?, email=? WHERE id=?` */
  function UpdateUserRows(users: seq<User>, id: int, name: string, email: string): seq<User> {
    Sql.Update(users, UserWithId(id), Rename(name, email))
  }

  /**
    The unique constraint on `users.email` fails the update: a row has that id
    and another row already holds the new email.
   */
  predicate EmailConflict(users: seq<User>, id: int, email: string) {
    (exists u :: u in users && u.id == id) && exists v :: v in users && v.id != id && v.email == email
  }

  /**
    The update overwrites name and email of the row with that id and nothing
    else: role, approval flag and password stay, other rows stay, and an unknown
    id leaves the table as it was.
   */
  lemma UpdateUserEffect(users: seq<User>, id: int, name: string, email: string)
    ensures var r := UpdateUserRows(users, id, name, email);
            && |r| == |users|
            && (forall i :: 0 <= i < |users| ==>
                 && r[i].id == users[i].id && r[i].role == users[i].role
                 && r[i].isApproved == users[i].isApproved && r[i].password == users[i].password
                 && (users[i].id == id ==> r[i].name == name && r[i].email == email)
                 && (users[i].id != id ==> r[i] == users[i]))
            && ((forall u :: u in users ==> u.id != id) ==> r == users)
  {
    var r := UpdateUserRows(users, id, name, email);
    if forall u :: u in users ==> u.id != id {
      forall i | 0 <= i < |users| ensures r[i] == users[i] {
        assert users[i] in users;
      }
    }
  }

  /** An update the unique constraint admits keeps emails unique. */
  lemma UpdateKeepsEmailsUnique(users: seq<User>, id: int, name: string, email: string)
    requires Sql.KeysDistinct(users, UserId) && Sql.KeysDistinct(users, UserEmail)
    requires !EmailConflict(users, id, email)
    ensures Sql.KeysDistinct(UpdateUserRows(users, id, name, email), UserEmail)
  {
    var r := UpdateUserRows(users, id, name, email);
    forall i, j | 0 <= i < j < |r| ensures r[i].email != r[j].email {
      assert users[i] in users && users[j] in users;
      assert users[i].id != users[j].id;
    }
  }

  /** `DELETE FROM users WHERE id=?` */
  function DeleteUserRows(users: seq<User>, id: int): (r: seq<User>)
    ensures forall u :: u in r <==> u in users && u.id != id
  {
    Sql.Where(users, (u: User) => u.id != id)
  }
}
