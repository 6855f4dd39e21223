/** The user store of `AutenticacionSistema` as values: the stored user records, the session
    snapshot, the error each `throw` reports, and one function per operation giving its outcome
    from the stored list and the current session. The class in module Auth runs these
    operations in place and is proved against these functions; the invariants the store is
    meant to keep (unique user names, at most one 'usuario' per centre) are lemmas here, each
    with the condition the code actually needs. */
module Users {
  import opened Collections
  import opened Text
  import PasswordHash

  const ADMIN_ROLE: string := "admin"
  const USER_ROLE: string := "usuario"
  const DEFAULT_ADMIN_NAME: string := "admin"
  const DEFAULT_ADMIN_PASSWORD: string := "admin123"
  const ADMIN_CENTRE: string := "ADMINISTRACIÓN"

  /** A stored user record: `usuario`, `contraseña` (the digest), `rol`, `centro`,
      `creado_en`, `activo` and the `actualizado_en` an update adds. */
  datatype User = User(
    id: string,
    username: string,
    digest: string,
    role: string,
    centre: string,
    createdAt: string,
    active: bool,
    updatedAt: Option<string>)

  /** `usuarioActual`: a snapshot of the record taken at login. */
  datatype Session = Session(id: string, username: string, role: string, centre: string, loginAt: string)

  /** The reasons the operations throw. */
  datatype AuthError = PermissionDenied | MissingFields | DuplicateUser | CentreTaken | NotFound | InvalidCredentials

  /** `actualizaciones`: the empty string stands for a field not supplied (both are falsy). */
  datatype Changes = Changes(username: string, password: string, role: string, centre: string)

  /** What a successful mutation writes back (the whole list) and returns (one record). */
  datatype Write = Write(users: seq<User>, record: User)

  /** `esAdmin()` of a session. */
  predicate SessionIsAdmin(s: Option<Session>)
  {
    s.Some? && s.value.role == ADMIN_ROLE
  }

  /** `usuarioActual?.rol || null`. */
  function SessionRole(s: Option<Session>): (r: Option<string>)
    ensures r.Some? <==> s.Some? && s.value.role != ""
    ensures r.Some? ==> r.value == s.value.role
  {
    if s.Some? && s.value.role != "" then Some(s.value.role) else None
  }

  /** `usuarioActual?.centro || null`: an empty centre reads as no centre. */
  function SessionCentre(s: Option<Session>): (r: Option<string>)
    ensures r.Some? <==> s.Some? && s.value.centre != ""
    ensures r.Some? ==> r.value == s.value.centre
  {
    if s.Some? && s.value.centre != "" then Some(s.value.centre) else None
  }

  // ---------------------------------------------------------------- invariants

  predicate UniqueNames(users: seq<User>)
  {
    forall i, j :: 0 <= i < j < |users| ==> users[i].username != users[j].username
  }

  predicate OneUserPerCentre(users: seq<User>)
  {
    forall i, j :: 0 <= i < j < |users| && users[i].role == USER_ROLE && users[j].role == USER_ROLE
      ==> users[i].centre != users[j].centre
  }

  predicate UniqueIds(users: seq<User>)
  {
    forall i, j :: 0 <= i < j < |users| ==> users[i].id != users[j].id
  }

  predicate NameTaken(users: seq<User>, name: string)
  {
    exists i :: 0 <= i < |users| && users[i].username == name
  }

  predicate CentreHeld(users: seq<User>, centre: string)
  {
    exists i :: 0 <= i < |users| && users[i].role == USER_ROLE && users[i].centre == centre
  }

  /** The centre is held by a 'usuario' record whose id is not `id`. */
  predicate CentreHeldByOther(users: seq<User>, centre: string, id: string)
  {
    exists i :: 0 <= i < |users| && users[i].role == USER_ROLE && users[i].centre == centre && users[i].id != id
  }

  predicate HasId(users: seq<User>, id: string)
  {
    exists i :: 0 <= i < |users| && users[i].id == id
  }

  /** The predicates the source passes to `find`/`findIndex`. */
  function IdIs(id: string): User -> bool
  {
    (u: User) => u.id == id
  }

  function NameIs(name: string): User -> bool
  {
    (u: User) => u.username == name
  }

  function HoldsCentre(centre: string): User -> bool
  {
    (u: User) => u.centre == centre && u.role == USER_ROLE
  }

  function HoldsCentreOtherThan(centre: string, id: string): User -> bool
  {
    (u: User) => u.centre == centre && u.role == USER_ROLE && u.id != id
  }

  function MatchesLogin(username: string, digest: string): User -> bool
  {
    (u: User) => Matches(u, username, digest)
  }

  /** `i` is the first record with this id (what `find`/`findIndex` by id select). */
  predicate FirstWithId(users: seq<User>, id: string, i: int)
  {
    0 <= i < |users| && users[i].id == id && forall j :: 0 <= j < i ==> users[j].id != id
  }

  // ---------------------------------------------------------------- crearUsuario

  /** `crearUsuario(usuario, contraseña, rol, centro)`, with the generated id and the clock
      reading as inputs. */
  function Create(users: seq<User>, caller: Option<Session>, username: string, password: string,
                  role: string, centre: string, id: string, now: string): (r: Result<Write, AuthError>)
    ensures !SessionIsAdmin(caller) ==> r == Failure(PermissionDenied)
    ensures SessionIsAdmin(caller) && (username == "" || password == "" || role == "" || centre == "")
      ==> r == Failure(MissingFields)
    ensures r == Failure(DuplicateUser) <==>
      && SessionIsAdmin(caller)
      && username != "" && password != "" && role != "" && centre != ""
      && NameTaken(users, username)
    ensures r == Failure(CentreTaken) <==>
      && SessionIsAdmin(caller)
      && username != "" && password != "" && role != "" && centre != ""
      && !NameTaken(users, username)
      && role == USER_ROLE && CentreHeld(users, centre)
    ensures r.Success? <==>
      && SessionIsAdmin(caller)
      && username != "" && password != "" && role != "" && centre != ""
      && !NameTaken(users, username)
      && !(role == USER_ROLE && CentreHeld(users, centre))
    ensures r.Success? ==>
      && r.value.record == User(id, Trim(username), PasswordHash.Hash(password), role, centre, now, true, None)
      && r.value.users == users + [r.value.record]
  {
    if !SessionIsAdmin(caller) then Failure(PermissionDenied)
    else if username == "" || password == "" || role == "" || centre == "" then Failure(MissingFields)
    else if FindFirst(users, NameIs(username)).Some? then Failure(DuplicateUser)
    else if role == USER_ROLE && FindFirst(users, HoldsCentre(centre)).Some?
    then Failure(CentreTaken)
    else
      var record := User(id, Trim(username), PasswordHash.Hash(password), role, centre, now, true, None);
      Success(Write(users + [record], record))
  }

  /** Creating keeps user names unique when the name given is already trimmed: the duplicate
      check compares the raw name, the record stores the trimmed one. */
  lemma CreatePreservesUniqueNames(users: seq<User>, caller: Option<Session>, username: string, password: string,
                                   role: string, centre: string, id: string, now: string)
    requires UniqueNames(users)
    requires Trim(username) == username
    ensures var r := Create(users, caller, username, password, role, centre, id, now);
      r.Success? ==> UniqueNames(r.value.users)
  {
  }

  lemma CreatePreservesOneUserPerCentre(users: seq<User>, caller: Option<Session>, username: string, password: string,
                                        role: string, centre: string, id: string, now: string)
    requires OneUserPerCentre(users)
    ensures var r := Create(users, caller, username, password, role, centre, id, now);
      r.Success? ==> OneUserPerCentre(r.value.users)
  {
    var r := Create(users, caller, username, password, role, centre, id, now);
    if r.Success? {
      var us := r.value.users;
      forall i, j | 0 <= i < j < |us| && us[i].role == USER_ROLE && us[j].role == USER_ROLE
        ensures us[i].centre != us[j].centre
      {
        if j == |users| {
          assert users[i].role == USER_ROLE;
        }
      }
    }
  }

  /** With a fresh id, creating keeps ids unique (the id is random, so freshness is assumed). */
  lemma CreatePreservesUniqueIds(users: seq<User>, caller: Option<Session>, username: string, password: string,
                                 role: string, centre: string, id: string, now: string)
    requires UniqueIds(users)
    requires !HasId(users, id)
    ensures var r := Create(users, caller, username, password, role, centre, id, now);
      r.Success? ==> UniqueIds(r.value.users)
  {
    var r := Create(users, caller, username, password, role, centre, id, now);
    if r.Success? {
      var us := r.value.users;
      forall i, j | 0 <= i < j < |us| ensures us[i].id != us[j].id {
        if j == |users| {
          assert users[i].id != id;
        }
      }
    }
  }

  /** The admin session used by the scenarios below. */
  function AdminSession(now: string): Session
  {
    Session("usr_admin", DEFAULT_ADMIN_NAME, ADMIN_ROLE, ADMIN_CENTRE, now)
  }

  /** A name that differs from a stored one only by surrounding white space passes the
      duplicate check, which compares the raw name, and is stored trimmed: the store then
      holds that name twice. */
  lemma CreateUntrimmedNameDuplicates(users: seq<User>, caller: Option<Session>, username: string, password: string,
                                      role: string, centre: string, id: string, now: string, i: nat)
    requires SessionIsAdmin(caller) && username != "" && password != "" && role != "" && centre != ""
    requires role != USER_ROLE && !NameTaken(users, username)
    requires i < |users| && users[i].username == Trim(username)
    ensures var r := Create(users, caller, username, password, role, centre, id, now);
      r.Success? && !UniqueNames(r.value.users)
  {
    var r := Create(users, caller, username, password, role, centre, id, now);
    assert r.value.users[i].username == r.value.users[|users|].username;
  }

  /** " admin" next to a stored administrator 'admin', whatever its password. */
  lemma UntrimmedAdminDuplicates(digest: string, password: string, now: string)
    requires password != ""
    ensures var users := [User("usr_admin", DEFAULT_ADMIN_NAME, digest, ADMIN_ROLE, ADMIN_CENTRE, now, true, None)];
      var r := Create(users, Some(AdminSession(now)), " admin", password, ADMIN_ROLE, "C", "usr_2", now);
      r.Success? && !UniqueNames(r.value.users)
  {
    var users := [User("usr_admin", DEFAULT_ADMIN_NAME, digest, ADMIN_ROLE, ADMIN_CENTRE, now, true, None)];
    assert Trim(" admin") == "admin" by {
      assert " admin"[1..] == "admin";
      assert SpaceEnd(" admin", 0) == 1;
    }
    assert !NameTaken(users, " admin");
    CreateUntrimmedNameDuplicates(users, Some(AdminSession(now)), " admin", password, ADMIN_ROLE, "C", "usr_2", now, 0);
  }

  // ---------------------------------------------------------------- login

  /** The three conditions of `login`'s search: exact name, equal digest, `activo === true`. */
  predicate Matches(u: User, username: string, digest: string)
  {
    u.username == username && u.digest == digest && u.active
  }

  function SessionOf(u: User, now: string): Session
  {
    Session(u.id, u.username, u.role, u.centre, now)
  }

  /** `login(usuario, contraseña)`: the session it starts, or the one generic error. */
  function Login(users: seq<User>, username: string, password: string, now: string): (r: Result<Session, AuthError>)
    ensures r.Success? <==> exists i :: 0 <= i < |users| && Matches(users[i], username, PasswordHash.Hash(password))
    ensures r.Failure? ==> r.error == InvalidCredentials
    ensures r.Success? ==>
      exists i :: && 0 <= i < |users| && Matches(users[i], username, PasswordHash.Hash(password))
                  && (forall j :: 0 <= j < i ==> !Matches(users[j], username, PasswordHash.Hash(password)))
                  && r.value == SessionOf(users[i], now)
  {
    var digest := PasswordHash.Hash(password);
    match FindFirst(users, MatchesLogin(username, digest))
    case None => Failure(InvalidCredentials)
    case Some(i) => Success(SessionOf(users[i], now))
  }

  /** An inactive record never logs in, whatever the password. */
  lemma LoginRejectsInactive(users: seq<User>, i: nat, password: string, now: string)
    requires i < |users| && !users[i].active
    requires forall j :: 0 <= j < |users| && j != i ==> users[j].username != users[i].username
    ensures Login(users, users[i].username, password, now) == Failure(InvalidCredentials)
  {
  }

  /** A different password with the same digest logs in: "BB" opens an account whose
      password is "Aa". */
  lemma LoginAcceptsCollidingPassword(id: string, now: string)
    ensures var u := User(id, "nurse", PasswordHash.Hash("Aa"), USER_ROLE, "C", now, true, None);
      Login([u], "nurse", "BB", now) == Success(SessionOf(u, now))
  {
    PasswordHash.Collision();
    var u := User(id, "nurse", PasswordHash.Hash("Aa"), USER_ROLE, "C", now, true, None);
    assert Matches([u][0], "nurse", PasswordHash.Hash("BB"));
  }

  // ---------------------------------------------------------------- eliminarUsuario

  /** `eliminarUsuario(usuarioId)`: removes the first record with that id and returns it. */
  function Delete(users: seq<User>, caller: Option<Session>, id: string): (r: Result<Write, AuthError>)
    ensures !SessionIsAdmin(caller) ==> r == Failure(PermissionDenied)
    ensures SessionIsAdmin(caller) ==> (r == Failure(NotFound) <==> !HasId(users, id))
    ensures r.Failure? ==> r.error == PermissionDenied || r.error == NotFound
    ensures r.Success? ==>
      exists i :: FirstWithId(users, id, i) && r.value == Write(RemoveAt(users, i), users[i])
  {
    if !SessionIsAdmin(caller) then Failure(PermissionDenied)
    else
      match FindFirst(users, IdIs(id))
      case None => Failure(NotFound)
      case Some(i) => Success(Write(RemoveAt(users, i), users[i]))
  }

  /** Removing a record keeps every invariant. */
  lemma DeletePreservesInvariants(users: seq<User>, caller: Option<Session>, id: string)
    ensures var r := Delete(users, caller, id);
      r.Success? ==>
        && (UniqueNames(users) ==> UniqueNames(r.value.users))
        && (OneUserPerCentre(users) ==> OneUserPerCentre(r.value.users))
        && (UniqueIds(users) ==> UniqueIds(r.value.users))
  {
    var r := Delete(users, caller, id);
    if r.Success? {
      var i :| FirstWithId(users, id, i) && r.value == Write(RemoveAt(users, i), users[i]);
      RemoveAtPairs(users, i);
    }
  }

  /** Any two records left after a removal were two records, in the same order, before it. */
  lemma RemoveAtPairs(users: seq<User>, i: nat)
    requires i < |users|
    ensures var us := RemoveAt(users, i);
      && (UniqueNames(users) ==> UniqueNames(us))
      && (OneUserPerCentre(users) ==> OneUserPerCentre(us))
      && (UniqueIds(users) ==> UniqueIds(us))
  {
    var us := RemoveAt(users, i);
    forall a, b | 0 <= a < b < |us|
      ensures var a', b' := if a < i then a else a + 1, if b < i then b else b + 1;
        a' < b' < |users| && us[a] == users[a'] && us[b] == users[b']
    {
    }
  }

  // ---------------------------------------------------------------- actualizarUsuario

  /** The record after the changes, when no check fails: a rename (to a name other than the
      current one) stores the trimmed name, a password is re-hashed, a role replaces the role,
      and the centre is replaced only when the role supplied is 'usuario'. */
  function Changed(u: User, changes: Changes, now: string): (v: User)
    ensures v.id == u.id && v.createdAt == u.createdAt && v.active == u.active
    ensures v.updatedAt == Some(now)
    ensures changes.role != USER_ROLE ==> v.centre == u.centre
  {
    Recentred(Reroled(Rehashed(Renamed(u, changes), changes), changes), changes).(updatedAt := Some(now))
  }

  /** The steps of the update, in the order the source applies them. */
  function Renamed(u: User, changes: Changes): User
  {
    if changes.username != "" && changes.username != u.username then u.(username := Trim(changes.username)) else u
  }

  function Rehashed(u: User, changes: Changes): User
  {
    if changes.password != "" then u.(digest := PasswordHash.Hash(changes.password)) else u
  }

  function Reroled(u: User, changes: Changes): User
  {
    if changes.role != "" then u.(role := changes.role) else u
  }

  function Recentred(u: User, changes: Changes): User
  {
    if changes.centre != "" && changes.role == USER_ROLE then u.(centre := changes.centre) else u
  }

  /** `actualizarUsuario(usuarioId, actualizaciones)`. */
  function Update(users: seq<User>, caller: Option<Session>, id: string, changes: Changes, now: string): Result<Write, AuthError>
  {
    if !SessionIsAdmin(caller) then Failure(PermissionDenied)
    else
      match FindFirst(users, IdIs(id))
      case None => Failure(NotFound)
      case Some(i) =>
        var u := users[i];
        if Renames(u, changes) && FindFirst(users, NameIs(changes.username)).Some?
        then Failure(DuplicateUser)
        else if MovesCentre(u, changes) && FindFirst(users, HoldsCentreOtherThan(changes.centre, id)).Some?
        then Failure(CentreTaken)
        else
          var v := Changed(u, changes, now);
          Success(Write(users[i := v], v))
  }

  /** The update gives record `u` a new, different name (`actualizaciones.usuario !== usuario.usuario`). */
  predicate Renames(u: User, changes: Changes)
  {
    changes.username != "" && changes.username != u.username
  }

  /** The update moves record `u` to another centre as a 'usuario'. */
  predicate MovesCentre(u: User, changes: Changes)
  {
    changes.centre != "" && changes.role == USER_ROLE && changes.centre != u.centre
  }

  /** What the update does: only an administrator updates; an unknown id is reported; for the
      first record with the id, a rename to a taken name is reported, then a move to a centre
      another 'usuario' holds; otherwise the record is replaced by its changed version. */
  lemma UpdateMeaning(users: seq<User>, caller: Option<Session>, id: string, changes: Changes, now: string)
    ensures var r := Update(users, caller, id, changes, now);
      && (!SessionIsAdmin(caller) ==> r == Failure(PermissionDenied))
      && (SessionIsAdmin(caller) ==> (r == Failure(NotFound) <==> !HasId(users, id)))
    ensures forall i :: SessionIsAdmin(caller) && FirstWithId(users, id, i) ==>
      var r, u := Update(users, caller, id, changes, now), users[i];
      var nameClash := Renames(u, changes) && NameTaken(users, changes.username);
      var centreClash := MovesCentre(u, changes) && CentreHeldByOther(users, changes.centre, id);
      && (r == Failure(DuplicateUser) <==> nameClash)
      && (r == Failure(CentreTaken) <==> !nameClash && centreClash)
      && (r.Success? <==> !nameClash && !centreClash)
      && (r.Success? ==> r.value.record == Changed(u, changes, now) && r.value.users == users[i := r.value.record])
    ensures var r := Update(users, caller, id, changes, now);
      r.Success? ==> exists i :: SessionIsAdmin(caller) && FirstWithId(users, id, i)
  {
    var r := Update(users, caller, id, changes, now);
    if SessionIsAdmin(caller) && HasId(users, id) {
      var k := FindFirst(users, IdIs(id));
      forall i | FirstWithId(users, id, i)
        ensures i == k.value
      {
      }
    }
    if r.Success? {
      var i := UpdateSucceeded(users, caller, id, changes, now);
    }
  }

  /** Replacing one record keeps names unique when the new name differs from every other. */
  lemma ReplacePreservesUniqueNames(users: seq<User>, i: nat, v: User)
    requires UniqueNames(users) && i < |users|
    requires forall k :: 0 <= k < |users| && k != i ==> users[k].username != v.username
    ensures UniqueNames(users[i := v])
  {
    var us := users[i := v];
    forall a, b | 0 <= a < b < |us| ensures us[a].username != us[b].username {
      if a != i && b != i {
        assert us[a] == users[a] && us[b] == users[b];
      }
    }
  }

  /** What a successful update establishes: the first record with the id is replaced by its
      changed version, a rename passed the duplicate check, a centre move passed the centre check. */
  lemma UpdateSucceeded(users: seq<User>, caller: Option<Session>, id: string, changes: Changes, now: string)
    returns (i: nat)
    requires Update(users, caller, id, changes, now).Success?
    ensures FirstWithId(users, id, i)
    ensures var r := Update(users, caller, id, changes, now);
      r.value.record == Changed(users[i], changes, now) && r.value.users == users[i := r.value.record]
    ensures changes.username != "" && changes.username != users[i].username ==> !NameTaken(users, changes.username)
    ensures changes.centre != "" && changes.role == USER_ROLE && changes.centre != users[i].centre
      ==> !CentreHeldByOther(users, changes.centre, id)
  {
    var k := FindFirst(users, IdIs(id));
    i := k.value;
  }

  /** Updating keeps user names unique when a new name is given already trimmed. */
  lemma UpdatePreservesUniqueNames(users: seq<User>, caller: Option<Session>, id: string, changes: Changes, now: string)
    requires UniqueNames(users)
    requires Trim(changes.username) == changes.username
    ensures var r := Update(users, caller, id, changes, now);
      r.Success? ==> UniqueNames(r.value.users)
  {
    var r := Update(users, caller, id, changes, now);
    if r.Success? {
      var i := UpdateSucceeded(users, caller, id, changes, now);
      var v := r.value.record;
      if changes.username != "" && changes.username != users[i].username {
        assert v.username == changes.username;
      } else {
        assert v.username == users[i].username;
      }
      ReplacePreservesUniqueNames(users, i, v);
    }
  }

  /** The update turns a record that is not a 'usuario' into one without moving it to a
      different centre: the centre check is then skipped. */
  predicate PromotesInPlace(users: seq<User>, id: string, changes: Changes)
  {
    exists i :: 0 <= i < |users| && users[i].id == id && users[i].role != USER_ROLE
      && changes.role == USER_ROLE && (changes.centre == "" || changes.centre == users[i].centre)
  }

  /** Updating keeps at most one 'usuario' per centre, with ids unique, except when it
      promotes a record in place. */
  lemma UpdatePreservesOneUserPerCentre(users: seq<User>, caller: Option<Session>, id: string, changes: Changes, now: string)
    requires OneUserPerCentre(users) && UniqueIds(users)
    requires !PromotesInPlace(users, id, changes)
    ensures var r := Update(users, caller, id, changes, now);
      r.Success? ==> OneUserPerCentre(r.value.users)
  {
    var r := Update(users, caller, id, changes, now);
    if r.Success? {
      var i := UpdateSucceeded(users, caller, id, changes, now);
      var us := r.value.users;
      var v := us[i];
      forall a, b | 0 <= a < b < |us| && us[a].role == USER_ROLE && us[b].role == USER_ROLE
        ensures us[a].centre != us[b].centre
      {
        if a == i || b == i {
          var k := if a == i then b else a;
          assert us[k] == users[k] && users[k].id != id;
          if changes.role == USER_ROLE && changes.centre != "" && changes.centre != users[i].centre {
          } else if changes.role == USER_ROLE {
            assert users[i].role == USER_ROLE;
          } else {
            assert v.role == users[i].role && v.centre == users[i].centre;
          }
        } else {
          assert us[a] == users[a] && us[b] == users[b];
        }
      }
    }
  }

  lemma UpdatePreservesUniqueIds(users: seq<User>, caller: Option<Session>, id: string, changes: Changes, now: string)
    requires UniqueIds(users)
    ensures var r := Update(users, caller, id, changes, now);
      r.Success? ==> UniqueIds(r.value.users)
  {
    var r := Update(users, caller, id, changes, now);
    if r.Success? {
      var i := UpdateSucceeded(users, caller, id, changes, now);
      assert forall k :: 0 <= k < |users| ==> r.value.users[k].id == users[k].id;
    }
  }

  /** Promoting the administrator to 'usuario' at a centre another 'usuario' holds succeeds
      and leaves two 'usuario' records at that centre. */
  lemma UpdatePromotionBreaksOneUserPerCentre(now: string)
    ensures var users := [
        User("u1", "jefe", "0", ADMIN_ROLE, "C", now, true, None),
        User("u2", "nurse", "0", USER_ROLE, "C", now, true, None)];
      var r := Update(users, Some(AdminSession(now)), "u1", Changes("", "", USER_ROLE, ""), now);
      OneUserPerCentre(users) && r.Success? && !OneUserPerCentre(r.value.users)
  {
    var users := [
      User("u1", "jefe", "0", ADMIN_ROLE, "C", now, true, None),
      User("u2", "nurse", "0", USER_ROLE, "C", now, true, None)];
    assert FirstWithId(users, "u1", 0);
    var r := Update(users, Some(AdminSession(now)), "u1", Changes("", "", USER_ROLE, ""), now);
    assert r.value.users[0].role == USER_ROLE && r.value.users[0].centre == "C";
    assert r.value.users[1] == users[1];
  }

  // ---------------------------------------------------------------- obtenerCentros

  predicate StrictlySorted(s: seq<string>)
  {
    forall i, j :: 0 <= i < j < |s| ==> LexLess(s[i], s[j])
  }

  function InsertSorted(x: string, s: seq<string>): (r: seq<string>)
    requires StrictlySorted(s)
    ensures StrictlySorted(r)
    ensures forall c :: c in r <==> c == x || c in s
  {
    if s == [] then [x]
    else if x == s[0] then s
    else if LexLess(x, s[0]) then
      assert forall j :: 0 < j < |s| ==> LexLess(s[0], s[j]);
      LexLessTransitiveAll(x, s);
      [x] + s
    else
      LexLessTotal(x, s[0]);
      var t := InsertSorted(x, s[1..]);
      assert forall c :: c in t ==> LexLess(s[0], c) by {
        forall c | c in t ensures LexLess(s[0], c) {
          if c != x {
            var k :| 0 <= k < |s[1..]| && s[1..][k] == c;
            assert s[k + 1] == c;
          }
        }
      }
      [s[0]] + t
  }

  lemma LexLessTransitiveAll(x: string, s: seq<string>)
    requires s != [] && StrictlySorted(s) && LexLess(x, s[0])
    ensures forall j :: 0 <= j < |s| ==> LexLess(x, s[j])
  {
    forall j | 0 < j < |s| ensures LexLess(x, s[j]) {
      LexLessTransitive(x, s[0], s[j]);
    }
  }

  /** The distinct values of `s` in increasing order, as `[...new Set(s)].sort()`. */
  function SortedDistinct(s: seq<string>): (r: seq<string>)
    ensures StrictlySorted(r)
    ensures forall c :: c in r <==> c in s
  {
    if s == [] then [] else InsertSorted(s[|s| - 1], SortedDistinct(s[..|s| - 1]))
  }

  /** A strictly sorted sequence is determined by its elements, so the insertion order of the
      `Set` does not matter: `sort` yields exactly `SortedDistinct`. */
  lemma {:induction false} SortedUnique(a: seq<string>, b: seq<string>)
    requires StrictlySorted(a) && StrictlySorted(b)
    requires forall c :: c in a <==> c in b
    ensures a == b
    decreases |a|
  {
    assert a != [] ==> a[0] in b;
    assert b != [] ==> b[0] in a;
    if a != [] && b != [] {
      if a[0] != b[0] {
        var i :| 0 <= i < |a| && a[i] == b[0];
        var j :| 0 <= j < |b| && b[j] == a[0];
        assert LexLess(a[0], a[i]);
        assert LexLess(b[0], b[j]);
        LexLessAsymmetric(a[0], b[0]);
      }
      assert a == [a[0]] + a[1..] && b == [b[0]] + b[1..];
      forall c ensures c in a[1..] <==> c in b[1..] {
        if c in a[1..] {
          var k :| 0 <= k < |a[1..]| && a[1..][k] == c;
          assert LexLess(a[0], a[k + 1]);
          LexLessIrreflexive(c);
          assert c in b && c != b[0];
        }
        if c in b[1..] {
          var k :| 0 <= k < |b[1..]| && b[1..][k] == c;
          assert LexLess(b[0], b[k + 1]);
          LexLessIrreflexive(c);
          assert c in a && c != a[0];
        }
      }
      SortedUnique(a[1..], b[1..]);
    }
  }

  function CentreList(users: seq<User>): (cs: seq<string>)
    ensures |cs| == |users|
    ensures forall i :: 0 <= i < |users| ==> cs[i] == users[i].centre
  {
    seq(|users|, i requires 0 <= i < |users| => users[i].centre)
  }

  /** `obtenerCentros()`: every centre of a stored record, once, in increasing order. */
  function Centres(users: seq<User>): (r: seq<string>)
    ensures StrictlySorted(r)
    ensures forall c :: c in r <==> exists i :: 0 <= i < |users| && users[i].centre == c
  {
    var cs := CentreList(users);
    assert forall c :: c in cs <==> exists i :: 0 <= i < |users| && users[i].centre == c by {
      forall c ensures c in cs ==> exists i :: 0 <= i < |users| && users[i].centre == c {
        if c in cs {
          var i :| 0 <= i < |cs| && cs[i] == c;
          assert users[i].centre == c;
        }
      }
    }
    SortedDistinct(cs)
  }

  /** An update that does not set the role to 'usuario' keeps every centre in place, so the
      list of centres is the same afterwards: a centre is not freed by such an update even
      when a new centre is supplied. */
  lemma UpdateWithoutUserRoleKeepsCentres(users: seq<User>, caller: Option<Session>, id: string, changes: Changes, now: string)
    requires changes.role != USER_ROLE
    requires Update(users, caller, id, changes, now).Success?
    ensures Centres(Update(users, caller, id, changes, now).value.users) == Centres(users)
  {
    var w := Update(users, caller, id, changes, now).value;
    var i := UpdateSucceeded(users, caller, id, changes, now);
    assert forall k :: 0 <= k < |users| ==> w.users[k].centre == users[k].centre;
    forall c ensures c in Centres(w.users) <==> c in Centres(users) {
      if c in Centres(users) {
        var k :| 0 <= k < |users| && users[k].centre == c;
        assert w.users[k].centre == c;
      }
    }
    SortedUnique(Centres(w.users), Centres(users));
  }

  // ---------------------------------------------------------------- inicializarAdmin

  /** The administrator seeded into an empty store. */
  function DefaultAdmin(id: string, now: string): User
  {
    User(id, DEFAULT_ADMIN_NAME, PasswordHash.Hash(DEFAULT_ADMIN_PASSWORD), ADMIN_ROLE, ADMIN_CENTRE, now, true, None)
  }

  /** After the bootstrap, 'admin' / 'admin123' logs in as the administrator. */
  lemma DefaultAdminLogsIn(id: string, seededAt: string, now: string)
    ensures Login([DefaultAdmin(id, seededAt)], DEFAULT_ADMIN_NAME, DEFAULT_ADMIN_PASSWORD, now)
      == Success(Session(id, DEFAULT_ADMIN_NAME, ADMIN_ROLE, ADMIN_CENTRE, now))
  {
    assert Matches([DefaultAdmin(id, seededAt)][0], DEFAULT_ADMIN_NAME, PasswordHash.Hash(DEFAULT_ADMIN_PASSWORD));
  }

  /** The seeded store satisfies every invariant. */
  lemma DefaultAdminStoreIsValid(id: string, now: string)
    ensures var users := [DefaultAdmin(id, now)];
      UniqueNames(users) && OneUserPerCentre(users) && UniqueIds(users)
  {
  }
}
