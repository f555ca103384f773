/**
  The client's route guard: from the token and the user saved in local storage
  at login, and the roles a page admits, it either renders the page or
  redirects to the login page at "/".
 */
module ProtectedRoute {
  import opened Wrappers
  import opened Js
  import Schema
  import Auth

  /** The `user` object the login page saves: the reply's public projection. */
  datatype SavedUser = SavedUser(id: int, name: string, role: string)

  datatype View = RedirectTo(path: string) | RenderChildren

  const Home := "/"

  /**
    `ProtectedRoute({children, roles})`: redirect when the token or the user is
    missing, or when a roles list is given that does not include the user's
    role; otherwise render. An empty roles list is still a given list.
   */
  function Decide(token: Option<string>, user: Option<SavedUser>, roles: Option<seq<string>>): (v: View)
    ensures v == RenderChildren || v == RedirectTo(Home)
    ensures v == RenderChildren <==> !Blank(token) && user.Some? && (roles.None? || user.value.role in roles.value)
  {
    if Blank(token) || user.None? then RedirectTo(Home)
    else if roles.Some? && user.value.role !in roles.value then RedirectTo(Home)
    else RenderChildren
  }

  /** The decision reads only whether a token is stored, the user's role and the roles list. */
  lemma DecisionIgnoresIdentity(t1: Option<string>, t2: Option<string>, u1: SavedUser, u2: SavedUser, roles: Option<seq<string>>)
    requires Blank(t1) == Blank(t2) && u1.role == u2.role
    ensures Decide(t1, Some(u1), roles) == Decide(t2, Some(u2), roles)
  {
  }

  /** Without roles, every logged-in user is admitted; with an empty list, nobody is. */
  lemma RolesListBounds(token: Option<string>, user: SavedUser)
    requires !Blank(token)
    ensures Decide(token, Some(user), None) == RenderChildren
    ensures Decide(token, Some(user), Some([])) == RedirectTo(Home)
  {
  }

  /** What the login page stores from a successful login reply. */
  function Saved(s: Auth.Session): SavedUser {
    SavedUser(s.user.id, s.user.name, s.user.role)
  }

  /**
    After a successful login that stored a non-empty signed token, a page
    admits the user exactly when its roles list is absent or names the role in
    the token the server issued.
   */
  lemma LoginOpensPagesOfItsRole(users: seq<Schema.User>, email: string, password: string, signed: string, roles: Option<seq<string>>)
    requires signed != ""
    requires Auth.Login(users, Some(email), Some(password)).status == 200
    ensures var s := Auth.Login(users, Some(email), Some(password)).session.value;
            Decide(Some(signed), Some(Saved(s)), roles) == RenderChildren <==>
            roles.None? || s.token.role in roles.value
  {
    var u :| u in users && u.email == email && Schema.Matches(password, u.password) && !Auth.Blocked(u) &&
             Auth.Login(users, Some(email), Some(password)) == Auth.LoginReply(200, "Login successful", Some(Auth.SessionFor(u)));
  }
}
