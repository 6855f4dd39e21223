/** `realizarLogin`, the handler of the login form. It checks the access type ("admin" for the
    administrator, "centro" for a health centre) and the selected centre, looks the user up
    before logging in so that the access type can be matched against the user's role, calls
    `auth.login`, and then checks the session it got against the form. The DOM fields are
    inputs, the error text is a `LoginError`, and the reload after success is left out. */
module LoginForm {
  import opened Collections
  import opened Text
  import opened Users
  import opened Auth

  const ACCESS_ADMIN: string := "admin"
  const ACCESS_CENTRE: string := "centro"

  /** The raw field values: `tipoAcceso`, `loginCentro`, `loginUsuario`, `loginContraseña`. */
  datatype Form = Form(access: string, centre: string, username: string, password: string)

  datatype LoginError =
    | NoAccessType
    | NoCentre
    | BadCredentials
    | NotAnAdministrator
    | AdministratorAsCentre
    | CentreMismatch(userCentre: string)
    | AdministratorWrongAccess

  /** What the handler leaves in the session: nothing new, the session `login` started, or no
      session (after its own `logout`). */
  datatype Effect = Unchanged | Started(session: Session) | Ended

  datatype Outcome = Outcome(result: Result<Session, LoginError>, effect: Effect)

  predicate ActiveNamed(u: User, name: string)
  {
    u.username == name && u.active
  }

  function ActiveNamedIs(name: string): User -> bool
  {
    (u: User) => ActiveNamed(u, name)
  }

  /** `usuarios.find(u => u.usuario === usuario && u.activo === true)`. */
  function ActiveUser(users: seq<User>, name: string): (r: Option<User>)
    ensures r.Some? ==> r.value in users && ActiveNamed(r.value, name)
    ensures r.None? <==> forall i :: 0 <= i < |users| ==> !ActiveNamed(users[i], name)
  {
    match FindFirst(users, ActiveNamedIs(name))
    case Some(i) => Some(users[i])
    case None => None
  }

  /** The checks made before `auth.login`; `Success` carries the record found for the name. */
  function PreCheck(users: seq<User>, f: Form): Result<User, LoginError>
  {
    if f.access == "" then Failure(NoAccessType)
    else if f.access == ACCESS_CENTRE && Trim(f.centre) == "" then Failure(NoCentre)
    else
      match ActiveUser(users, Trim(f.username))
      case None => Failure(BadCredentials)
      case Some(u) =>
        if f.access == ACCESS_ADMIN && u.role != ADMIN_ROLE then Failure(NotAnAdministrator)
        else if f.access == ACCESS_CENTRE && u.role == ADMIN_ROLE then Failure(AdministratorAsCentre)
        else Success(u)
  }

  /** The whole handler, as written. */
  function Submit(users: seq<User>, f: Form, now: string): Outcome
  {
    match PreCheck(users, f)
    case Failure(e) => Outcome(Failure(e), Unchanged)
    case Success(_) =>
      match Users.Login(users, Trim(f.username), f.password, now)
      case Failure(_) => Outcome(Failure(BadCredentials), Unchanged)
      case Success(s) =>
        if s.role != ADMIN_ROLE && s.centre != Trim(f.centre) then
          Outcome(Failure(CentreMismatch(s.centre)), Started(s))
        else if s.role == ADMIN_ROLE && f.access != ACCESS_ADMIN then
          Outcome(Failure(AdministratorWrongAccess), Ended)
        else Outcome(Success(s), Started(s))
  }

  /** `realizarLogin()` against the authentication object: it reads the user list, may log in,
      and may log out again; the user list itself is never written. */
  method SubmitLogin(auth: AuthSystem, f: Form, now: string) returns (r: Result<Session, LoginError>)
    modifies auth
    ensures auth.users == old(auth.users)
    ensures var o := Submit(old(auth.users), f, now);
      && r == o.result
      && (o.effect.Unchanged? ==> auth.current == old(auth.current) && auth.stored == old(auth.stored))
      && (o.effect.Started? ==> auth.current == Some(o.effect.session) && auth.stored == Valid(o.effect.session))
      && (o.effect.Ended? ==> auth.current == None && auth.stored == Absent)
  {
    if f.access == "" {
      return Failure(NoAccessType);
    }
    var centre := Trim(f.centre);
    var username := Trim(f.username);
    if f.access == ACCESS_CENTRE && centre == "" {
      return Failure(NoCentre);
    }
    var found := FindFirst(auth.users, ActiveNamedIs(username));
    if found.None? {
      return Failure(BadCredentials);
    }
    var u := auth.users[found.value];
    if f.access == ACCESS_ADMIN && u.role != ADMIN_ROLE {
      return Failure(NotAnAdministrator);
    }
    if f.access == ACCESS_CENTRE && u.role == ADMIN_ROLE {
      return Failure(AdministratorAsCentre);
    }
    var login := auth.Login(username, f.password, now);
    if login.Failure? {
      return Failure(BadCredentials);
    }
    var s := login.value;
    if s.role != ADMIN_ROLE && s.centre != centre {
      return Failure(CentreMismatch(s.centre));
    }
    if s.role == ADMIN_ROLE && f.access != ACCESS_ADMIN {
      auth.Logout();
      return Failure(AdministratorWrongAccess);
    }
    r := Success(s);
  }

  /** A successful login is `auth.login` on the trimmed name and keeps its session; an
      administrator gets in only through the "admin" access type, and anyone else only into
      the centre they selected. */
  lemma SubmitSuccess(users: seq<User>, f: Form, now: string)
    requires Submit(users, f, now).result.Success?
    ensures var s := Submit(users, f, now).result.value;
      && Users.Login(users, Trim(f.username), f.password, now) == Success(s)
      && Submit(users, f, now).effect == Started(s)
      && (s.role == ADMIN_ROLE ==> f.access == ACCESS_ADMIN)
      && (s.role != ADMIN_ROLE ==> s.centre == Trim(f.centre))
  {
  }

  /** With unique names the record `auth.login` uses is the one the pre-check found. */
  lemma LoginUsesPreFound(users: seq<User>, f: Form, now: string)
    requires UniqueNames(users)
    requires PreCheck(users, f).Success?
    requires Users.Login(users, Trim(f.username), f.password, now).Success?
    ensures Users.Login(users, Trim(f.username), f.password, now).value.role == PreCheck(users, f).value.role
  {
    var u := PreCheck(users, f).value;
    var name := Trim(f.username);
    var s := Users.Login(users, name, f.password, now).value;
    var i :| && 0 <= i < |users| && Matches(users[i], name, PasswordHash.Hash(f.password))
             && s == SessionOf(users[i], now);
    var j :| 0 <= j < |users| && users[j] == u;
    assert users[i].username == users[j].username;
    assert i == j;
  }

  /** When names are unique, the access type of a successful login matches the role: "admin"
      exactly for an administrator. The late administrator check then never fires for the two
      access types the form offers. */
  lemma UniqueNamesAccessMatchesRole(users: seq<User>, f: Form, now: string)
    requires UniqueNames(users)
    ensures Submit(users, f, now).result.Success? ==>
      (Submit(users, f, now).result.value.role == ADMIN_ROLE <==> f.access == ACCESS_ADMIN)
    ensures f.access == ACCESS_ADMIN || f.access == ACCESS_CENTRE ==>
      Submit(users, f, now).result != Failure(AdministratorWrongAccess)
  {
    if PreCheck(users, f).Success? && Users.Login(users, Trim(f.username), f.password, now).Success? {
      LoginUsesPreFound(users, f, now);
    }
  }

  /** Without unique names the pre-check and `auth.login` can pick different records: an active
      administrator and an active centre user both called "x" let the centre user in through
      the "admin" access type. */
  lemma DuplicateNameAdminAccess()
    ensures var users := [
        User("a1", "x", "1", ADMIN_ROLE, ADMIN_CENTRE, "t0", true, None),
        User("u1", "x", PasswordHash.Hash(""), USER_ROLE, "C", "t0", true, None)];
      Submit(users, Form(ACCESS_ADMIN, "C", "x", ""), "t1").result
        == Success(Session("u1", "x", USER_ROLE, "C", "t1"))
  {
    var admin := User("a1", "x", "1", ADMIN_ROLE, ADMIN_CENTRE, "t0", true, None);
    var user := User("u1", "x", PasswordHash.Hash(""), USER_ROLE, "C", "t0", true, None);
    assert Trim("C") == "C" && Trim("x") == "x" by {
      TrimOfTrimmed("C");
      TrimOfTrimmed("x");
    }
    var users := [admin, user];
    assert PasswordHash.Hash("") == "0";
    assert ActiveUser(users, "x") == Some(admin) by {
      assert ActiveNamed(users[0], "x");
    }
    assert PreCheck(users, Form(ACCESS_ADMIN, "C", "x", "")) == Success(admin);
    assert Users.Login(users, "x", "", "t1") == Success(SessionOf(user, "t1")) by {
      assert !Matches(users[0], "x", PasswordHash.Hash(""));
      assert Matches(users[1], "x", PasswordHash.Hash(""));
    }
  }

  /** Every rejection before `auth.login` leaves the session as it was. */
  lemma RejectedBeforeLogin(users: seq<User>, f: Form, now: string)
    requires PreCheck(users, f).Failure?
    ensures Submit(users, f, now) == Outcome(Failure(PreCheck(users, f).error), Unchanged)
    ensures f.access == "" ==> PreCheck(users, f).error == NoAccessType
    ensures f.access == ACCESS_CENTRE && Trim(f.centre) == "" ==> PreCheck(users, f).error == NoCentre
  {
  }

  /** As written, a non-administrator who picks another centre is told to pick again, yet the
      session `auth.login` started stays in memory and in storage. */
  lemma MismatchKeepsSession()
    ensures var users := [User("u1", "enfermera", PasswordHash.Hash(""), USER_ROLE, "A", "t0", true, None)];
      var o := Submit(users, Form(ACCESS_CENTRE, "B", "enfermera", ""), "t1");
      && o.result == Failure(CentreMismatch("A"))
      && o.effect == Started(Session("u1", "enfermera", USER_ROLE, "A", "t1"))
  {
    var u := User("u1", "enfermera", PasswordHash.Hash(""), USER_ROLE, "A", "t0", true, None);
    var f := Form(ACCESS_CENTRE, "B", "enfermera", "");
    assert Trim("B") == "B" && Trim("enfermera") == "enfermera" by {
      TrimOfTrimmed("B");
      TrimOfTrimmed("enfermera");
    }
    assert ActiveNamed(u, "enfermera");
    assert Matches(u, "enfermera", PasswordHash.Hash(""));
  }

  /** The evident intent: a login the handler rejects leaves no session behind, as the
      administrator branch already ensures with its `auth.logout()`. Only the effect of the
      centre-mismatch rejection differs from the handler as written. */
  function SubmitIntended(users: seq<User>, f: Form, now: string): (o: Outcome)
    ensures o.result == Submit(users, f, now).result
    ensures o.result.Failure? ==> !o.effect.Started?
    ensures o.result.Success? ==> o == Submit(users, f, now)
  {
    var o := Submit(users, f, now);
    if o.result.Failure? && o.result.error.CentreMismatch? then Outcome(o.result, Ended) else o
  }
}
