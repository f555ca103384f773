/**
  Registration and login. Registration writes one `users` row (the write itself
  is `Store.Register`); login only reads `users` and issues a token.
 */
module Auth {
  import opened Wrappers
  import opened Js
  import opened Schema
  import Sql

  const FieldsRequired := Reply(400, "All fields are required")
  const EmailExists := Reply(409, "Email already exists")
  const Registered := Reply(201, "User registered successfully")

  /** `role || "student"`: the role column the insert writes. */
  function StoredRole(role: Option<string>): string {
    if Blank(role) then StudentRole else role.value
  }

  /**
    The row `register` inserts under the auto-increment id `id`: the bcrypt hash
    of the password, the role defaulted to "student", and approval granted
    exactly when the supplied role is "student".
   */
  function RegisteredUser(id: int, name: string, email: string, password: string, salt: nat, role: Option<string>): (u: User)
    ensures u.id == id && u.name == name && u.email == email
    ensures Matches(password, u.password)
    ensures u.isApproved <==> role == Some(StudentRole)
  {
    User(id, name, email, Bcrypt(salt, password), StoredRole(role), role == Some(StudentRole))
  }

  /** The unique constraint on `users.email` rejects an insert of this email. */
  predicate EmailTaken(users: seq<User>, email: string) {
    exists u :: u in users && u.email == email
  }

  /** An omitted or empty role stores a student row that is NOT approved. */
  lemma OmittedRoleGivesUnapprovedStudent(id: int, name: string, email: string, password: string, salt: nat, role: Option<string>)
    requires Blank(role)
    ensures RegisteredUser(id, name, email, password, salt, role).role == StudentRole
    ensures !RegisteredUser(id, name, email, password, salt, role).isApproved
  {
  }

  /** The role is not validated: any non-empty string, "admin" included, is stored as given. */
  lemma RoleStoredAsGiven(id: int, name: string, email: string, password: string, salt: nat, role: string)
    requires role != ""
    ensures RegisteredUser(id, name, email, password, salt, Some(role)).role == role
    ensures RegisteredUser(id, name, email, password, salt, Some(role)).isApproved <==> role == StudentRole
  {
  }

  // ---------------------------------------------------------------- login

  /** `expiresIn: "1d"` */
  const OneDay := 86400

  /** The JWT payload `{id, role}` with its lifetime; signing is not modelled. */
  datatype Token = Token(id: int, role: string, expiresInSeconds: nat)

  /** The `user` projection of the login reply: no email, no password. */
  datatype PublicUser = PublicUser(id: int, name: string, role: string)

  datatype Session = Session(token: Token, user: PublicUser)

  datatype LoginReply = LoginReply(status: nat, message: string, session: Option<Session>)

  const MissingCredentials := LoginReply(400, "All fields required", None)
  const InvalidCredentials := LoginReply(401, "Invalid email or password", None)
  const NotApproved := LoginReply(403, "Instructor not approved yet", None)

  /** What a successful login returns for the matched row. */
  function SessionFor(u: User): Session {
    Session(Token(u.id, u.role, OneDay), PublicUser(u.id, u.name, u.role))
  }

  /** The condition `WHERE email = ?` on `users`. */
  function WithEmail(email: string): User -> bool {
    (u: User) => u.email == email
  }

  /** `SELECT * FROM users WHERE email = ?`, first row. */
  function FindByEmail(users: seq<User>, email: string): (r: Option<User>)
    ensures r.Some? ==> r.value in users && r.value.email == email
    ensures r.Some? ==> exists i :: 0 <= i < |users| && users[i] == r.value &&
                                    forall j :: 0 <= j < i ==> users[j].email != email
    ensures r.None? <==> forall u :: u in users ==> u.email != email
  {
    var r := Sql.First(users, WithEmail(email));
    if r.Some? then Sql.FirstIsFirst(users, WithEmail(email)); r else r
  }

  /** The approval gate: only an unapproved instructor is refused. */
  predicate Blocked(u: User) {
    u.role == InstructorRole && !u.isApproved
  }

  /**
    `login`: 400 when a field is missing (before any lookup), the same 401 for an
    unknown email and for a wrong password, 403 for an unapproved instructor whose
    password matched, otherwise 200 with the token and the public projection of
    the matched row.
   */
  function Login(users: seq<User>, email: Option<string>, password: Option<string>): (r: LoginReply)
    ensures r.status in {200, 400, 401, 403}
    ensures r.status == 400 <==> Blank(email) || Blank(password)
    ensures r.status == 400 ==> r == MissingCredentials
    ensures r.status == 401 ==> r == InvalidCredentials
    ensures !Blank(email) && !Blank(password) &&
            (forall u :: u in users && u.email == email.value ==> !Matches(password.value, u.password))
            ==> r.status == 401
    ensures r.status == 403 ==>
              r == NotApproved &&
              exists u :: u in users && u.email == email.value && Matches(password.value, u.password) && Blocked(u)
    ensures r.status == 200 ==>
              exists u :: u in users && u.email == email.value && Matches(password.value, u.password) && !Blocked(u) &&
                          r == LoginReply(200, "Login successful", Some(SessionFor(u)))
  {
    if Blank(email) || Blank(password) then MissingCredentials
    else match FindByEmail(users, email.value)
      case None => InvalidCredentials
      case Some(u) =>
        if !Matches(password.value, u.password) then InvalidCredentials
        else if Blocked(u) then NotApproved
        else LoginReply(200, "Login successful", Some(SessionFor(u)))
  }

  /**
    Under the unique email constraint, the credentials of a row decide login:
    403 for an unapproved instructor, otherwise 200 with that row's token.
   */
  lemma LoginWithCredentialsOf(users: seq<User>, u: User, password: string)
    requires Sql.KeysDistinct(users, UserEmail)
    requires u in users && u.email != "" && password != "" && Matches(password, u.password)
    ensures Login(users, Some(u.email), Some(password)) ==
            if Blocked(u) then NotApproved else LoginReply(200, "Login successful", Some(SessionFor(u)))
  {
    Sql.KeyDetermines(users, UserEmail, u, FindByEmail(users, u.email).value);
  }

  /** An unknown email and a wrong password for a known one get the same reply. */
  lemma NoUserEnumeration(users: seq<User>, unknown: string, p1: string, u: User, p2: string)
    requires Sql.KeysDistinct(users, UserEmail)
    requires unknown != "" && p1 != "" && p2 != "" && u.email != ""
    requires !EmailTaken(users, unknown)
    requires u in users && !Matches(p2, u.password)
    ensures Login(users, Some(unknown), Some(p1)) == Login(users, Some(u.email), Some(p2)) == InvalidCredentials
  {
    forall v | v in users && v.email == u.email ensures !Matches(p2, v.password) {
      Sql.KeyDetermines(users, UserEmail, u, v);
    }
  }

  /**
    Registering and then logging in with the same credentials: an instructor is
    refused with 403 until approved; any other role, including an omitted role
    (stored as an unapproved student) and a self-chosen "admin", gets 200 and a
    token carrying the stored role.
   */
  lemma RegisterThenLogin(users: seq<User>, id: int, name: string, email: string, password: string, salt: nat, role: Option<string>)
    requires Sql.KeysDistinct(users, UserEmail)
    requires !EmailTaken(users, email) && email != "" && password != ""
    ensures var r := Login(users + [RegisteredUser(id, name, email, password, salt, role)], Some(email), Some(password));
            && (r.status == 403 <==> role == Some(InstructorRole))
            && (r.status != 403 ==> r.status == 200 && r.session.value.token == Token(id, StoredRole(role), OneDay))
  {
    var u := RegisteredUser(id, name, email, password, salt, role);
    Sql.AppendKeepsKeysDistinct(users, u, UserEmail);
    LoginWithCredentialsOf(users + [u], u, password);
  }
}
