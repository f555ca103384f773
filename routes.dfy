/**
  The server's endpoint table: each router's (verb, path, middleware chain,
  handler) entries, mounted under its prefix, and the dispatch of a request to
  the first entry with that verb and path. The middleware bodies are not part
  of this model: `VerifyToken` passes exactly when the request carries valid
  claims, `AllowRoles(rs)` exactly when the claims' role is in `rs`.
 */
module Routes {
  import opened Wrappers
  import opened Schema
  import Sql

  datatype Verb = Get | Post | Put | Delete

  datatype Guard = VerifyToken | AllowRoles(roles: seq<string>)

  /** Every handler the routers bind, named after its controller function. */
  datatype Handler =
    | Register | Login | Profile
    | GetPendingInstructors | ApproveInstructor | RejectInstructor
    | GetPendingCourses | ApproveCourse | RejectCourse | AdminGetAllCourses
    | GetAllUsers | UpdateUser | DeleteUser
    | CreateCourse | GetMyCourses | GetCourseStudents | DeleteCourse
    | StudentGetAllCourses | EnrollCourse | GetTodayEnrollments | GetMyEnrollments

  /** One `router.<verb>(path, ...guards, handler)` declaration; `:id` stays in the path. */
  datatype Route = Route(verb: Verb, path: string, guards: seq<Guard>, handler: Handler)

  /** The verified JWT payload `{id, role}` that `verifyToken` puts on the request. */
  datatype Claims = Claims(id: int, role: string)

  datatype Screening = Admitted | NoToken | WrongRole

  datatype Outcome = NoRoute | Refused(why: Screening) | Run(handler: Handler)

  /** The controller directory a handler lives in: the role its router is meant for. */
  function HandlerRole(h: Handler): Option<string> {
    match h
    case Register | Login | Profile => None
    case GetPendingInstructors | ApproveInstructor | RejectInstructor
       | GetPendingCourses | ApproveCourse | RejectCourse | AdminGetAllCourses
       | GetAllUsers | UpdateUser | DeleteUser => Some(AdminRole)
    case CreateCourse | GetMyCourses | GetCourseStudents | DeleteCourse => Some(InstructorRole)
    case StudentGetAllCourses | EnrollCourse | GetTodayEnrollments | GetMyEnrollments => Some(StudentRole)
  }

  /** Whether one middleware lets the request through. */
  predicate Passes(g: Guard, claims: Option<Claims>) {
    match g
    case VerifyToken => claims.Some?
    case AllowRoles(rs) => claims.Some? && claims.value.role in rs
  }

  /** The middleware chain run in order; the first that refuses ends the request. */
  function Screen(guards: seq<Guard>, claims: Option<Claims>): (s: Screening)
    ensures s == Admitted <==> forall g :: g in guards ==> Passes(g, claims)
    ensures s == NoToken ==> claims.None?
    ensures s == WrongRole ==> exists rs :: AllowRoles(rs) in guards
  {
    if guards == [] then Admitted
    else if !Passes(guards[0], claims) then
      if claims.None? then NoToken else WrongRole
    else
      assert forall g :: g in guards <==> g == guards[0] || g in guards[1..];
      Screen(guards[1..], claims)
  }

  /** `verifyToken, allowRoles(role)`: the chain every gated route declares. */
  function Gate(role: string): seq<Guard> {
    [VerifyToken, AllowRoles([role])]
  }

  /** A gated chain admits exactly the valid claims of that one role. */
  lemma GateAdmitsOnly(role: string, claims: Option<Claims>)
    ensures Screen(Gate(role), claims) == Admitted <==> claims.Some? && claims.value.role == role
    ensures claims.None? ==> Screen(Gate(role), claims) == NoToken
    ensures claims.Some? && claims.value.role != role ==> Screen(Gate(role), claims) == WrongRole
  {
    assert Gate(role)[1..] == [AllowRoles([role])];
  }

  function AuthRoutes(): seq<Route> {
    [ Route(Post, "/register", [], Register),
      Route(Post, "/login", [], Login) ]
  }

  function UserRoutes(): seq<Route> {
    [ Route(Get, "/me", [VerifyToken], Profile) ]
  }

  function AdminRoutes(): seq<Route> {
    [ Route(Get, "/pending-instructors", Gate(AdminRole), GetPendingInstructors),
      Route(Put, "/approve/:id", Gate(AdminRole), ApproveInstructor),
      Route(Delete, "/reject/:id", Gate(AdminRole), RejectInstructor),
      Route(Get, "/pending-courses", Gate(AdminRole), GetPendingCourses),
      Route(Put, "/approve-course/:id", Gate(AdminRole), ApproveCourse),
      Route(Delete, "/reject-course/:id", Gate(AdminRole), RejectCourse),
      Route(Get, "/courses", Gate(AdminRole), AdminGetAllCourses),
      Route(Get, "/users", Gate(AdminRole), GetAllUsers),
      Route(Put, "/user/:id", Gate(AdminRole), UpdateUser),
      Route(Delete, "/user/:id", Gate(AdminRole), DeleteUser) ]
  }

  function InstructorRoutes(): seq<Route> {
    [ Route(Post, "/create-course", Gate(InstructorRole), CreateCourse),
      Route(Get, "/my-courses", Gate(InstructorRole), GetMyCourses) ]
  }

  function StudentRoutes(): seq<Route> {
    [ Route(Get, "/courses", Gate(StudentRole), StudentGetAllCourses),
      Route(Post, "/enroll", Gate(StudentRole), EnrollCourse),
      Route(Get, "/today-courses", Gate(StudentRole), GetTodayEnrollments),
      Route(Get, "/my-courses", Gate(StudentRole), GetMyEnrollments) ]
  }

  function Prefixed(prefix: string): Route -> Route {
    (r: Route) => r.(path := prefix + r.path)
  }

  /** `app.use(prefix, router)` */
  function Mount(prefix: string, t: seq<Route>): (m: seq<Route>)
    ensures |m| == |t|
    ensures forall r :: r in m <==> exists q :: q in t && r == q.(path := prefix + q.path)
  {
    var m := Sql.Project(t, Prefixed(prefix));
    assert forall q :: q in t ==> q.(path := prefix + q.path) in m by {
      forall q | q in t ensures q.(path := prefix + q.path) in m {
        var i :| 0 <= i < |t| && t[i] == q;
        assert m[i] == q.(path := prefix + q.path);
      }
    }
    m
  }

  /** The server's whole table, in the order `server.js` mounts the routers. */
  function App(): seq<Route> {
    Mount("/api/auth", AuthRoutes()) + Mount("/api/users", UserRoutes()) + Mount("/api/admin", AdminRoutes())
    + Mount("/api/instructor", InstructorRoutes()) + Mount("/api/student", StudentRoutes())
  }

  function Endpoint(r: Route): (Verb, string) { (r.verb, r.path) }

  /** The entries declared for this verb and path. */
  function AtEndpoint(verb: Verb, path: string): Route -> bool {
    (q: Route) => q.verb == verb && q.path == path
  }

  /** The first entry declared for this verb and path. */
  function FirstMatch(t: seq<Route>, verb: Verb, path: string): (r: Option<Route>)
    ensures r.Some? ==> r.value in t && r.value.verb == verb && r.value.path == path
    ensures r.None? <==> forall q :: q in t ==> q.verb != verb || q.path != path
  {
    Sql.First(t, AtEndpoint(verb, path))
  }

  /**
    A request is served by the first matching entry: no entry gives 404, a
    refusing middleware ends it, otherwise that entry's handler runs.
   */
  function Dispatch(t: seq<Route>, verb: Verb, path: string, claims: Option<Claims>): (o: Outcome)
    ensures o == NoRoute <==> forall q :: q in t ==> q.verb != verb || q.path != path
    ensures o.Run? ==> exists r :: r in t && r.verb == verb && r.path == path && r.handler == o.handler &&
                                   forall g :: g in r.guards ==> Passes(g, claims)
    ensures o.Refused? ==> o.why != Admitted
  {
    match FirstMatch(t, verb, path)
    case None => NoRoute
    case Some(r) =>
      var s := Screen(r.guards, claims);
      if s == Admitted then Run(r.handler) else Refused(s)
  }

  /** With endpoints unique, every entry is reached, and its middleware alone decides. */
  lemma DispatchReaches(t: seq<Route>, r: Route, claims: Option<Claims>)
    requires Sql.KeysDistinct(t, Endpoint)
    requires r in t
    ensures Dispatch(t, r.verb, r.path, claims) ==
            if Screen(r.guards, claims) == Admitted then Run(r.handler) else Refused(Screen(r.guards, claims))
  {
    Sql.KeyDetermines(t, Endpoint, r, FirstMatch(t, r.verb, r.path).value);
  }

  /** The guard each entry of the table declares, as its handler's directory demands. */
  predicate DeclaresGate(r: Route) {
    match HandlerRole(r.handler)
    case None => r.handler == Profile ==> r.guards == [VerifyToken]
    case Some(role) => r.guards == Gate(role)
  }

  /** The five routers' declarations, unmounted. */
  function Routers(): seq<Route> {
    AuthRoutes() + UserRoutes() + AdminRoutes() + InstructorRoutes() + StudentRoutes()
  }

  /** Each entry of a mounted router is one of its declarations with the path prefixed. */
  lemma MountedFrom(prefix: string, t: seq<Route>, u: seq<Route>)
    requires forall q :: q in t ==> q in u
    ensures forall r :: r in Mount(prefix, t) ==> exists q :: q in u && r == q.(path := r.path)
  {
  }

  /** Every entry of the server's table is a router declaration with its path prefixed. */
  lemma AppEntries()
    ensures forall r :: r in App() ==> exists q :: q in Routers() && r == q.(path := r.path)
  {
    var a, u, d, i, s := Mount("/api/auth", AuthRoutes()), Mount("/api/users", UserRoutes()), Mount("/api/admin", AdminRoutes()),
                         Mount("/api/instructor", InstructorRoutes()), Mount("/api/student", StudentRoutes());
    MountedFrom("/api/auth", AuthRoutes(), Routers());
    MountedFrom("/api/users", UserRoutes(), Routers());
    MountedFrom("/api/admin", AdminRoutes(), Routers());
    MountedFrom("/api/instructor", InstructorRoutes(), Routers());
    MountedFrom("/api/student", StudentRoutes(), Routers());
    assert App() == a + u + d + i + s;
    forall r | r in App() ensures exists q :: q in Routers() && r == q.(path := r.path) {
      assert r in a || r in u || r in d || r in i || r in s;
    }
  }

  /** The handlers of the instructor controller that no router binds. */
  predicate Unbound(h: Handler) {
    h.GetCourseStudents? || h.DeleteCourse?
  }

  /** A declaration that carries its handler's gate and binds a routed handler. */
  predicate Shaped(q: Route) {
    DeclaresGate(q) && !Unbound(q.handler)
  }

  lemma AuthRouterShape()
    ensures forall q :: q in AuthRoutes() ==> Shaped(q)
  {
  }

  lemma UserRouterShape()
    ensures forall q :: q in UserRoutes() ==> Shaped(q)
  {
  }

  lemma AdminRouterShape()
    ensures forall q :: q in AdminRoutes() ==> Shaped(q)
  {
    var t := AdminRoutes();
    forall q | q in t ensures Shaped(q) {
      var i :| 0 <= i < |t| && t[i] == q;
      assert t[i].guards == Gate(AdminRole) && HandlerRole(t[i].handler) == Some(AdminRole);
    }
  }

  lemma InstructorRouterShape()
    ensures forall q :: q in InstructorRoutes() ==> Shaped(q)
  {
  }

  lemma StudentRouterShape()
    ensures forall q :: q in StudentRoutes() ==> Shaped(q)
  {
  }

  lemma ShapedConcat(a: seq<Route>, u: seq<Route>, d: seq<Route>, i: seq<Route>, s: seq<Route>)
    requires forall q :: q in a ==> Shaped(q)
    requires forall q :: q in u ==> Shaped(q)
    requires forall q :: q in d ==> Shaped(q)
    requires forall q :: q in i ==> Shaped(q)
    requires forall q :: q in s ==> Shaped(q)
    ensures forall q :: q in a + u + d + i + s ==> Shaped(q)
  {
  }

  /** Each router declaration carries its handler's gate, and none binds an unbound handler. */
  lemma RoutersShape()
    ensures forall q :: q in Routers() ==> Shaped(q)
  {
    AuthRouterShape();
    UserRouterShape();
    AdminRouterShape();
    InstructorRouterShape();
    StudentRouterShape();
    ShapedConcat(AuthRoutes(), UserRoutes(), AdminRoutes(), InstructorRoutes(), StudentRoutes());
  }

  /** Every admin route runs `verifyToken`, then `allowRoles("admin")`, before an admin handler. */
  lemma AdminRouterGated()
    ensures forall q :: q in AdminRoutes() ==> q.guards == Gate(AdminRole) && HandlerRole(q.handler) == Some(AdminRole)
  {
    var t := AdminRoutes();
    forall q | q in t ensures q.guards == Gate(AdminRole) && HandlerRole(q.handler) == Some(AdminRole) {
      var i :| 0 <= i < |t| && t[i] == q;
    }
  }

  /** Every instructor route runs `verifyToken`, then `allowRoles("instructor")`. */
  lemma InstructorRouterGated()
    ensures forall q :: q in InstructorRoutes() ==> q.guards == Gate(InstructorRole) && HandlerRole(q.handler) == Some(InstructorRole)
  {
  }

  /** The instructor router binds only `createCourse` and `getMyCourses`. */
  lemma InstructorRouterHandlers()
    ensures forall q :: q in InstructorRoutes() ==> q.handler == CreateCourse || q.handler == GetMyCourses
  {
  }

  /** Every student route runs `verifyToken`, then `allowRoles("student")`. */
  lemma StudentRouterGated()
    ensures forall q :: q in StudentRoutes() ==> q.guards == Gate(StudentRole) && HandlerRole(q.handler) == Some(StudentRole)
  {
  }

  /** Every entry of the server's table carries the gate of its handler's role. */
  lemma AppDeclaresGates()
    ensures forall r :: r in App() ==> DeclaresGate(r)
  {
    AppEntries();
    RoutersShape();
    forall r | r in App() ensures DeclaresGate(r) {
      var q :| q in Routers() && r == q.(path := r.path);
      assert Shaped(q);
    }
  }

  /**
    `getCourseStudents` and `deleteCourse` are bound by no router: no request,
    whatever its claims, runs them.
   */
  lemma UnboundNeverRuns(verb: Verb, path: string, claims: Option<Claims>)
    ensures forall r :: r in App() ==> !Unbound(r.handler)
    ensures var o := Dispatch(App(), verb, path, claims); o.Run? ==> !Unbound(o.handler)
  {
    AppEntries();
    RoutersShape();
    forall r | r in App() ensures !Unbound(r.handler) {
      var q :| q in Routers() && r == q.(path := r.path);
      assert Shaped(q);
    }
  }

  /**
    In any table whose entries declare their handlers' gates, a handler from a
    role's controller directory runs only for valid claims of that role, and
    the profile handler only for valid claims.
   */
  lemma GatedTableRuns(t: seq<Route>, verb: Verb, path: string, claims: Option<Claims>)
    requires forall r :: r in t ==> DeclaresGate(r)
    ensures var o := Dispatch(t, verb, path, claims);
            && (o.Run? && HandlerRole(o.handler).Some? ==> claims.Some? && claims.value.role == HandlerRole(o.handler).value)
            && (o.Run? && o.handler == Profile ==> claims.Some?)
  {
    var o := Dispatch(t, verb, path, claims);
    if o.Run? {
      var r :| r in t && r.verb == verb && r.path == path && r.handler == o.handler &&
               forall g :: g in r.guards ==> Passes(g, claims);
      if HandlerRole(r.handler).Some? {
        assert AllowRoles([HandlerRole(r.handler).value]) in r.guards;
      }
      if r.handler == Profile {
        assert VerifyToken in r.guards;
      }
    }
  }

  /** Role-gated access on the server's table, whatever the payload. */
  lemma OnlyTheRoleRuns(verb: Verb, path: string, claims: Option<Claims>)
    ensures var o := Dispatch(App(), verb, path, claims);
            && (o.Run? && HandlerRole(o.handler).Some? ==> claims.Some? && claims.value.role == HandlerRole(o.handler).value)
            && (o.Run? && o.handler == Profile ==> claims.Some?)
  {
    AppDeclaresGates();
    GatedTableRuns(App(), verb, path, claims);
  }

  // ------------------------------------------------ endpoint uniqueness

  lemma RoutersEndpointsDistinct()
    ensures Sql.KeysDistinct(AuthRoutes(), Endpoint)
    ensures Sql.KeysDistinct(UserRoutes(), Endpoint)
    ensures Sql.KeysDistinct(AdminRoutes(), Endpoint)
    ensures Sql.KeysDistinct(InstructorRoutes(), Endpoint)
    ensures Sql.KeysDistinct(StudentRoutes(), Endpoint)
  {
  }

  /** Mounting under one prefix keeps distinct endpoints distinct. */
  lemma MountKeepsEndpointsDistinct(prefix: string, t: seq<Route>)
    requires Sql.KeysDistinct(t, Endpoint)
    ensures Sql.KeysDistinct(Mount(prefix, t), Endpoint)
  {
    var m := Mount(prefix, t);
    forall i, j | 0 <= i < j < |m| ensures Endpoint(m[i]) != Endpoint(m[j]) {
      assert m[i] == t[i].(path := prefix + t[i].path) && m[j] == t[j].(path := prefix + t[j].path);
      assert (prefix + t[i].path)[|prefix|..] == t[i].path;
      assert (prefix + t[j].path)[|prefix|..] == t[j].path;
    }
  }

  /** No endpoint of `m1` is an endpoint of `m2`. */
  ghost predicate Apart(m1: seq<Route>, m2: seq<Route>) {
    forall x, y :: x in m1 && y in m2 ==> Endpoint(x) != Endpoint(y)
  }

  /** Two prefixes that differ at position `k` keep the routes mounted under them apart. */
  lemma PrefixesSeparate(p1: string, t1: seq<Route>, p2: string, t2: seq<Route>, k: nat)
    requires k < |p1| && k < |p2| && p1[k] != p2[k]
    ensures Apart(Mount(p1, t1), Mount(p2, t2))
  {
    forall x, y | x in Mount(p1, t1) && y in Mount(p2, t2) ensures x.path != y.path {
      var q1 :| q1 in t1 && x == q1.(path := p1 + q1.path);
      var q2 :| q2 in t2 && y == q2.(path := p2 + q2.path);
      assert x.path[k] == p1[k] && y.path[k] == p2[k];
    }
  }

  lemma ConcatApart(a: seq<Route>, b: seq<Route>)
    requires Sql.KeysDistinct(a, Endpoint) && Sql.KeysDistinct(b, Endpoint) && Apart(a, b)
    ensures Sql.KeysDistinct(a + b, Endpoint)
  {
    Sql.ConcatKeepsKeysDistinct(a, b, Endpoint);
  }

  lemma ApartJoin(a: seq<Route>, b: seq<Route>, c: seq<Route>)
    requires Apart(a, c) && Apart(b, c)
    ensures Apart(a + b, c)
  {
  }

  /** Five mutually apart tables with distinct endpoints concatenate to one. */
  lemma FiveApart(a: seq<Route>, u: seq<Route>, d: seq<Route>, i: seq<Route>, s: seq<Route>)
    requires Sql.KeysDistinct(a, Endpoint) && Sql.KeysDistinct(u, Endpoint) && Sql.KeysDistinct(d, Endpoint)
    requires Sql.KeysDistinct(i, Endpoint) && Sql.KeysDistinct(s, Endpoint)
    requires Apart(a, u) && Apart(a, d) && Apart(a, i) && Apart(a, s)
    requires Apart(u, d) && Apart(u, i) && Apart(u, s)
    requires Apart(d, i) && Apart(d, s) && Apart(i, s)
    ensures Sql.KeysDistinct(a + u + d + i + s, Endpoint)
  {
    ConcatApart(a, u);
    ApartJoin(a, u, d);
    ConcatApart(a + u, d);
    ApartJoin(a, u, i);
    ApartJoin(a + u, d, i);
    ConcatApart(a + u + d, i);
    ApartJoin(a, u, s);
    ApartJoin(a + u, d, s);
    ApartJoin(a + u + d, i, s);
    ConcatApart(a + u + d + i, s);
  }

  lemma MountedRoutersDistinct()
    ensures Sql.KeysDistinct(Mount("/api/auth", AuthRoutes()), Endpoint)
    ensures Sql.KeysDistinct(Mount("/api/users", UserRoutes()), Endpoint)
    ensures Sql.KeysDistinct(Mount("/api/admin", AdminRoutes()), Endpoint)
    ensures Sql.KeysDistinct(Mount("/api/instructor", InstructorRoutes()), Endpoint)
    ensures Sql.KeysDistinct(Mount("/api/student", StudentRoutes()), Endpoint)
  {
    RoutersEndpointsDistinct();
    MountKeepsEndpointsDistinct("/api/auth", AuthRoutes());
    MountKeepsEndpointsDistinct("/api/users", UserRoutes());
    MountKeepsEndpointsDistinct("/api/admin", AdminRoutes());
    MountKeepsEndpointsDistinct("/api/instructor", InstructorRoutes());
    MountKeepsEndpointsDistinct("/api/student", StudentRoutes());
  }

  /** The mount prefixes keep the routers apart: they differ at position 5, auth and admin at position 6. */
  lemma AuthApartUsers()
    ensures Apart(Mount("/api/auth", AuthRoutes()), Mount("/api/users", UserRoutes()))
  {
    PrefixesSeparate("/api/auth", AuthRoutes(), "/api/users", UserRoutes(), 5);
  }

  lemma AuthApartAdmin()
    ensures Apart(Mount("/api/auth", AuthRoutes()), Mount("/api/admin", AdminRoutes()))
  {
    PrefixesSeparate("/api/auth", AuthRoutes(), "/api/admin", AdminRoutes(), 6);
  }

  lemma AuthApartInstructor()
    ensures Apart(Mount("/api/auth", AuthRoutes()), Mount("/api/instructor", InstructorRoutes()))
  {
    PrefixesSeparate("/api/auth", AuthRoutes(), "/api/instructor", InstructorRoutes(), 5);
  }

  lemma AuthApartStudent()
    ensures Apart(Mount("/api/auth", AuthRoutes()), Mount("/api/student", StudentRoutes()))
  {
    PrefixesSeparate("/api/auth", AuthRoutes(), "/api/student", StudentRoutes(), 5);
  }

  lemma UsersApartAdmin()
    ensures Apart(Mount("/api/users", UserRoutes()), Mount("/api/admin", AdminRoutes()))
  {
    PrefixesSeparate("/api/users", UserRoutes(), "/api/admin", AdminRoutes(), 5);
  }

  lemma UsersApartInstructor()
    ensures Apart(Mount("/api/users", UserRoutes()), Mount("/api/instructor", InstructorRoutes()))
  {
    PrefixesSeparate("/api/users", UserRoutes(), "/api/instructor", InstructorRoutes(), 5);
  }

  lemma UsersApartStudent()
    ensures Apart(Mount("/api/users", UserRoutes()), Mount("/api/student", StudentRoutes()))
  {
    PrefixesSeparate("/api/users", UserRoutes(), "/api/student", StudentRoutes(), 5);
  }

  lemma AdminApartInstructor()
    ensures Apart(Mount("/api/admin", AdminRoutes()), Mount("/api/instructor", InstructorRoutes()))
  {
    PrefixesSeparate("/api/admin", AdminRoutes(), "/api/instructor", InstructorRoutes(), 5);
  }

  lemma AdminApartStudent()
    ensures Apart(Mount("/api/admin", AdminRoutes()), Mount("/api/student", StudentRoutes()))
  {
    PrefixesSeparate("/api/admin", AdminRoutes(), "/api/student", StudentRoutes(), 5);
  }

  lemma InstructorApartStudent()
    ensures Apart(Mount("/api/instructor", InstructorRoutes()), Mount("/api/student", StudentRoutes()))
  {
    PrefixesSeparate("/api/instructor", InstructorRoutes(), "/api/student", StudentRoutes(), 5);
  }

  /** No verb and path is declared twice in the server's table. */
  lemma AppEndpointsDistinct()
    ensures Sql.KeysDistinct(App(), Endpoint)
  {
    MountedRoutersDistinct();
    AuthApartUsers();
    AuthApartAdmin();
    AuthApartInstructor();
    AuthApartStudent();
    UsersApartAdmin();
    UsersApartInstructor();
    UsersApartStudent();
    AdminApartInstructor();
    AdminApartStudent();
    InstructorApartStudent();
    FiveApart(Mount("/api/auth", AuthRoutes()), Mount("/api/users", UserRoutes()), Mount("/api/admin", AdminRoutes()),
              Mount("/api/instructor", InstructorRoutes()), Mount("/api/student", StudentRoutes()));
  }

  // ------------------------------------------------ what each endpoint answers

  /** The answer of an entry gated to `role`: its handler for that role's claims, a refusal otherwise. */
  function GatedAnswer(role: string, claims: Option<Claims>, h: Handler): (o: Outcome)
    ensures o.Run? <==> claims.Some? && claims.value.role == role
  {
    if claims.None? then Refused(NoToken)
    else if claims.value.role != role then Refused(WrongRole)
    else Run(h)
  }

  /** A gated declaration of a router mounted in the server's table answers as its gate says. */
  lemma MountServes(prefix: string, t: seq<Route>, role: string, q: Route, claims: Option<Claims>)
    requires forall r :: r in Mount(prefix, t) ==> r in App()
    requires q in t && q.guards == Gate(role)
    ensures Dispatch(App(), q.verb, prefix + q.path, claims) == GatedAnswer(role, claims, q.handler)
  {
    var r := q.(path := prefix + q.path);
    assert r in Mount(prefix, t);
    AppEndpointsDistinct();
    DispatchReaches(App(), r, claims);
    GateAdmitsOnly(role, claims);
  }

  lemma MountsInApp()
    ensures forall r :: r in Mount("/api/admin", AdminRoutes()) ==> r in App()
    ensures forall r :: r in Mount("/api/instructor", InstructorRoutes()) ==> r in App()
    ensures forall r :: r in Mount("/api/student", StudentRoutes()) ==> r in App()
  {
  }

  /** Each admin declaration, under `/api/admin`, runs its handler for admin claims and for no others. */
  lemma AdminRouterServes(q: Route, claims: Option<Claims>)
    requires q in AdminRoutes()
    ensures Dispatch(App(), q.verb, "/api/admin" + q.path, claims) == GatedAnswer(AdminRole, claims, q.handler)
  {
    MountsInApp();
    AdminRouterGated();
    MountServes("/api/admin", AdminRoutes(), AdminRole, q, claims);
  }

  /** Each instructor declaration, under `/api/instructor`, runs its handler for instructor claims only. */
  lemma InstructorRouterServes(q: Route, claims: Option<Claims>)
    requires q in InstructorRoutes()
    ensures Dispatch(App(), q.verb, "/api/instructor" + q.path, claims) == GatedAnswer(InstructorRole, claims, q.handler)
  {
    MountsInApp();
    InstructorRouterGated();
    MountServes("/api/instructor", InstructorRoutes(), InstructorRole, q, claims);
  }

  /** Each student declaration, under `/api/student`, runs its handler for student claims only. */
  lemma StudentRouterServes(q: Route, claims: Option<Claims>)
    requires q in StudentRoutes()
    ensures Dispatch(App(), q.verb, "/api/student" + q.path, claims) == GatedAnswer(StudentRole, claims, q.handler)
  {
    MountsInApp();
    StudentRouterGated();
    MountServes("/api/student", StudentRoutes(), StudentRole, q, claims);
  }
}
