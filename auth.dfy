/** `AutenticacionSistema`: the object that owns the current session (`usuarioActual`) and
    reads and writes the two persisted entries, the user list and the session slot. Both
    entries are fields here; every method says exactly what it leaves in all three, in terms
    of the functions of module Users. Identifiers built from `Date.now`/`Math.random` and
    ISO timestamps are parameters. */
module Auth {
  import opened Collections
  import opened Text
  import opened Users
  import PasswordHash

  /** What the session slot holds: nothing, a session `JSON.parse` accepts, or text it rejects. */
  datatype StoredSession = Absent | Valid(session: Session) | Corrupt

  class AuthSystem {
    /** `localStorage['recetas_auth_users']` (absent reads as the empty list). */
    var users: seq<User>
    /** `localStorage['recetas_sesion_actual']`. */
    var stored: StoredSession
    /** `usuarioActual`. */
    var current: Option<Session>

    /** `new AutenticacionSistema()` over the given storage: no session, then `cargarSesion()`. */
    constructor (storedUsers: seq<User>, storedSession: StoredSession)
      ensures users == storedUsers
      ensures storedSession.Valid? ==> current == Some(storedSession.session) && stored == storedSession
      ensures !storedSession.Valid? ==> current == None && stored == Absent
    {
      users := storedUsers;
      stored := storedSession;
      current := None;
      new;
      LoadSession();
    }

    /** `cargarSesion()`: adopts a well-formed stored session; a corrupt one is cleared by a logout. */
    method LoadSession()
      modifies this`current, this`stored
      ensures old(stored).Absent? ==> current == old(current) && stored == Absent
      ensures old(stored).Valid? ==> current == Some(old(stored).session) && stored == old(stored)
      ensures old(stored).Corrupt? ==> current == None && stored == Absent
    {
      match stored
      case Absent =>
      case Valid(s) =>
        current := Some(s);
      case Corrupt =>
        Logout();
    }

    /** `estaAutenticado()`. */
    predicate IsAuthenticated()
      reads this
    {
      current.Some?
    }

    /** `esAdmin()`. */
    predicate IsAdmin()
      reads this
    {
      SessionIsAdmin(current)
    }

    /** `obtenerCentroActual()`. */
    function CurrentCentre(): (r: Option<string>)
      reads this
      ensures r.Some? ==> IsAuthenticated() && r.value == current.value.centre
      ensures r.None? ==> !IsAuthenticated() || current.value.centre == ""
    {
      SessionCentre(current)
    }

    /** `obtenerTodosLosUsuariosAdmin()`: the stored list for an administrator, nothing otherwise. */
    function AdminUserList(): (r: seq<User>)
      reads this
      ensures IsAdmin() ==> r == users
      ensures !IsAdmin() ==> r == []
    {
      if IsAdmin() then users else []
    }

    /** `obtenerCentros()`. */
    function CentreNames(): (r: seq<string>)
      reads this
      ensures StrictlySorted(r)
      ensures forall c :: c in r <==> exists i :: 0 <= i < |users| && users[i].centre == c
    {
      Centres(users)
    }

    /** `crearUsuario`: appends the new record and writes the list, or throws and writes nothing. */
    method CreateUser(username: string, password: string, role: string, centre: string, id: string, now: string)
      returns (r: Result<User, AuthError>)
      modifies this`users
      ensures var o := Create(old(users), current, username, password, role, centre, id, now);
        && (o.Success? ==> r == Success(o.value.record) && users == o.value.users)
        && (o.Failure? ==> r == Failure(o.error) && users == old(users))
    {
      if !IsAdmin() {
        return Failure(PermissionDenied);
      }
      if username == "" || password == "" || role == "" || centre == "" {
        return Failure(MissingFields);
      }
      var existing := FindFirst(users, NameIs(username));
      if existing.Some? {
        return Failure(DuplicateUser);
      }
      if role == USER_ROLE {
        var holder := FindFirst(users, HoldsCentre(centre));
        if holder.Some? {
          return Failure(CentreTaken);
        }
      }
      var digest := PasswordHash.HashPassword(password);
      var record := User(id, Trim(username), digest, role, centre, now, true, None);
      users := users + [record];
      r := Success(record);
    }

    /** `login`: on success the session is set and persisted; on failure nothing changes. */
    method Login(username: string, password: string, now: string) returns (r: Result<Session, AuthError>)
      modifies this`current, this`stored
      ensures r == Users.Login(users, username, password, now)
      ensures r.Success? ==> current == Some(r.value) && stored == Valid(r.value)
      ensures r.Failure? ==> current == old(current) && stored == old(stored)
    {
      var digest := PasswordHash.HashPassword(password);
      var found := FindFirst(users, MatchesLogin(username, digest));
      if found.None? {
        return Failure(InvalidCredentials);
      }
      var session := SessionOf(users[found.value], now);
      current := Some(session);
      stored := Valid(session);
      r := Success(session);
    }

    /** `logout()`: always ends with no session, in memory and in storage. */
    method Logout()
      modifies this`current, this`stored
      ensures current == None && stored == Absent
    {
      current := None;
      stored := Absent;
    }

    /** `eliminarUsuario`: splices out the first record with the id and returns it. */
    method DeleteUser(id: string) returns (r: Result<User, AuthError>)
      modifies this`users
      ensures var o := Delete(old(users), current, id);
        && (o.Success? ==> r == Success(o.value.record) && users == o.value.users)
        && (o.Failure? ==> r == Failure(o.error) && users == old(users))
    {
      if !IsAdmin() {
        return Failure(PermissionDenied);
      }
      var index := FindFirst(users, IdIs(id));
      if index.None? {
        return Failure(NotFound);
      }
      var removed := users[index.value];
      users := users[..index.value] + users[index.value + 1..];
      r := Success(removed);
    }

    /** `actualizarUsuario`: edits the found record field by field, then writes the whole list;
        a check that throws midway leaves the stored list as it was. */
    method UpdateUser(id: string, changes: Changes, now: string) returns (r: Result<User, AuthError>)
      modifies this`users
      ensures var o := Update(old(users), current, id, changes, now);
        && (o.Success? ==> r == Success(o.value.record) && users == o.value.users)
        && (o.Failure? ==> r == Failure(o.error) && users == old(users))
    {
      if !IsAdmin() {
        return Failure(PermissionDenied);
      }
      var index := FindFirst(users, IdIs(id));
      if index.None? {
        return Failure(NotFound);
      }
      var i := index.value;
      var u := users[i];
      if changes.username != "" && changes.username != u.username {
        var existing := FindFirst(users, NameIs(changes.username));
        if existing.Some? {
          return Failure(DuplicateUser);
        }
        u := u.(username := Trim(changes.username));
      }
      assert u == Renamed(users[i], changes);
      if changes.password != "" {
        var digest := PasswordHash.HashPassword(changes.password);
        u := u.(digest := digest);
      }
      assert u == Rehashed(Renamed(users[i], changes), changes);
      if changes.role != "" {
        u := u.(role := changes.role);
      }
      ghost var v := Reroled(Rehashed(Renamed(users[i], changes), changes), changes);
      assert u == v;
      if changes.centre != "" && changes.role == USER_ROLE {
        if changes.centre != u.centre {
          var holder := FindFirst(users, HoldsCentreOtherThan(changes.centre, id));
          if holder.Some? {
            return Failure(CentreTaken);
          }
        }
        u := u.(centre := changes.centre);
      }
      assert u == Recentred(v, changes);
      u := u.(updatedAt := Some(now));
      users := users[i := u];
      r := Success(u);
    }

    /** `inicializarAdmin()`: seeds the default administrator into an empty store only. */
    method InitAdmin(id: string, now: string) returns (created: bool)
      modifies this`users
      ensures created <==> old(users) == []
      ensures users == if created then [DefaultAdmin(id, now)] else old(users)
    {
      if |users| == 0 {
        var digest := PasswordHash.HashPassword(DEFAULT_ADMIN_PASSWORD);
        users := [User(id, DEFAULT_ADMIN_NAME, digest, ADMIN_ROLE, ADMIN_CENTRE, now, true, None)];
        return true;
      }
      return false;
    }

    /** `resetearSistema()`: clears both entries and the session, then seeds the administrator. */
    method Reset(id: string, now: string)
      modifies this
      ensures users == [DefaultAdmin(id, now)]
      ensures current == None && stored == Absent
    {
      users := [];
      stored := Absent;
      current := None;
      var _ := InitAdmin(id, now);
    }
  }

  /** The console check: after a reset, `login('admin', 'admin123')` succeeds as administrator
      and the session survives a reload. */
  method ResetThenAdminLogin(sys: AuthSystem, id: string, seededAt: string, now: string)
    returns (r: Result<Session, AuthError>)
    modifies sys
    ensures r == Success(Session(id, DEFAULT_ADMIN_NAME, ADMIN_ROLE, ADMIN_CENTRE, now))
    ensures sys.IsAdmin() && sys.stored == Valid(r.value)
  {
    sys.Reset(id, seededAt);
    DefaultAdminLogsIn(id, seededAt, now);
    r := sys.Login(DEFAULT_ADMIN_NAME, DEFAULT_ADMIN_PASSWORD, now);
    sys.LoadSession();
  }

  /** Logging out and reloading leaves no session. */
  method LogoutThenReload(sys: AuthSystem)
    modifies sys
    ensures !sys.IsAuthenticated() && sys.stored == Absent
  {
    sys.Logout();
    sys.LoadSession();
  }
}
