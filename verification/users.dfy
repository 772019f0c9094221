/** User administration: the user entity, the admin-only gate in front of
    every endpoint, and the create/update/delete rules (password hashing,
    the duplicate-email check, soft delete).  BCrypt is the parameter `hash`:
    the digest this request's salt gives for a password. */
module Users {
  import opened Common
  import opened Dates
  import opened Tables

  /** A row of `Users`. */
  datatype User = User(
    name: string,
    email: string,
    passwordHash: string,
    role: string,
    createdAt: Date,
    isActive: bool)

  function EmailOf(u: User): string { u.email }
  predicate IsActive(u: User) { u.isActive }
  predicate AnyUser(u: User) { true }

  /** The `CreateUserDto` body of create and update. */
  datatype UserRequest = UserRequest(name: string, email: string, password: string, role: string)

  /** `UserDto`, what every endpoint answers with: no password, no hash. */
  datatype UserView = UserView(id: int, name: string, email: string, role: string, createdAt: Date, isActive: bool)

  /** Who is calling: no valid token, or a token carrying a role claim. */
  datatype Caller = Anonymous | Signed(role: string)

  const AdminRole := "Admin"
  const DefaultRole := "User"

  /** `[Authorize]` on the class plus `[Authorize(Roles = "Admin")]` on each
      action: 401 without a token, 403 for any role other than "Admin". */
  function Gate(c: Caller): (r: Option<ApiError>)
    ensures r.None? <==> c == Signed(AdminRole)
    ensures c.Anonymous? ==> r == Some(Unauthorized(""))
    ensures c.Signed? && c.role != AdminRole ==> r == Some(Forbidden)
  {
    match c
    case Anonymous => Some(Unauthorized(""))
    case Signed(role) => if role == AdminRole then None else Some(Forbidden)
  }

  function View(id: int, u: User): (v: UserView)
    ensures v.id == id && v.name == u.name && v.email == u.email && v.role == u.role
    ensures v.createdAt == u.createdAt && v.isActive == u.isActive
  {
    UserView(id, u.name, u.email, u.role, u.createdAt, u.isActive)
  }

  /** What a client sees of a user does not depend on the stored hash. */
  lemma ViewHidesHash(id: int, u: User, h: string)
    ensures View(id, u.(passwordHash := h)) == View(id, u)
  {
  }

  // ------------------------------------------------------------- endpoints

  /** The views of a list of (id, user) pairs, in the same order. */
  function Views(rows: seq<(int, User)>): (r: seq<UserView>)
    ensures |r| == |rows| && forall i | 0 <= i < |rows| :: r[i] == View(rows[i].0, rows[i].1)
  {
    seq(|rows|, i requires 0 <= i < |rows| => View(rows[i].0, rows[i].1))
  }

  /** `GET api/Users`: every user, active or not, as views. */
  function GetUsers(c: Caller, t: Table<User>): (res: Result<seq<UserView>>)
    requires ValidIds(t)
    ensures Gate(c).Some? ==> res == Failure(Gate(c).value)
    ensures Gate(c).None? ==> res.Success? && |res.value| == |t.rows|
    ensures res.Success? ==>
      (forall i | 0 <= i < |res.value| :: res.value[i].id in t.rows && res.value[i] == View(res.value[i].id, t.rows[res.value[i].id]))
      && (forall id | id in t.rows :: exists i | 0 <= i < |res.value| :: res.value[i].id == id)
  {
    if Gate(c).Some? then Failure(Gate(c).value)
    else
      var views := Views(Rows(t));
      assert forall id | id in t.rows :: exists i | 0 <= i < |views| :: views[i].id == id by {
        forall id | id in t.rows ensures exists i | 0 <= i < |views| :: views[i].id == id {
          var i :| 0 <= i < |Rows(t)| && Rows(t)[i].0 == id;
          assert views[i].id == id;
        }
      }
      Success(views)
  }

  /** `GET api/Users/{id}`: 404 only for a missing id; inactive users are returned. */
  function GetUser(c: Caller, t: Table<User>, id: int): (res: Result<UserView>)
    ensures Gate(c).Some? ==> res == Failure(Gate(c).value)
    ensures Gate(c).None? ==> (res.Success? <==> id in t.rows)
    ensures res.Success? ==> id in t.rows && res.value == View(id, t.rows[id])
    ensures Gate(c).None? && res.Failure? ==> res.error == NotFound("")
  {
    if Gate(c).Some? then Failure(Gate(c).value)
    else if id in t.rows then Success(View(id, t.rows[id]))
    else Failure(NotFound(""))
  }

  /** `POST api/Users`: 400 when the email is stored already (active or not);
      otherwise an active user whose hash is `hash(password)`, created `now`. */
  function CreateUser(c: Caller, t: Table<User>, req: UserRequest, hash: string -> string, now: Date)
    : (res: Result<(Table<User>, UserView)>)
    requires ValidIds(t)
    ensures Gate(c).Some? ==> res == Failure(Gate(c).value)
    ensures Gate(c).None? ==> (res.Failure? <==> EmailInUse(t, EmailOf, req.email))
    ensures Gate(c).None? && res.Failure? ==> res.error == BadRequest(EmailTaken)
    ensures res.Success? ==>
      var (u, v) := res.value;
      v.id !in t.rows && u.rows.Keys == t.rows.Keys + {v.id}
      && (forall k | k in t.rows :: u.rows[k] == t.rows[k])
      && u.rows[v.id] == User(req.name, req.email, hash(req.password), req.role, now, true)
      && v == View(v.id, u.rows[v.id])
    ensures res.Success? && Inv(t, EmailOf, AnyUser) ==> Inv(res.value.0, EmailOf, AnyUser)
  {
    if Gate(c).Some? then Failure(Gate(c).value)
    else
      var user := User(req.name, req.email, hash(req.password), req.role, now, true);
      match CreateUnique(t, user, EmailOf)
      case Failure(e) => Failure(e)
      case Success((u, id)) => Success((u, View(id, user)))
  }

  /** The row after `PUT`: name, email and role from the request; the hash is
      replaced only for a non-empty password; `CreatedAt` and `IsActive` stay. */
  function Apply(u: User, req: UserRequest, hash: string -> string): (r: User)
    ensures r.name == req.name && r.email == req.email && r.role == req.role
    ensures r.createdAt == u.createdAt && r.isActive == u.isActive
    ensures r.passwordHash == (if |req.password| > 0 then hash(req.password) else u.passwordHash)
  {
    u.(name := req.name, email := req.email, role := req.role,
       passwordHash := if |req.password| > 0 then hash(req.password) else u.passwordHash)
  }

  /** `PUT api/Users/{id}`: 404 for an unknown id; the duplicate check runs
      only when the email changes. */
  function UpdateUser(c: Caller, t: Table<User>, id: int, req: UserRequest, hash: string -> string)
    : (res: Result<Table<User>>)
    ensures Gate(c).Some? ==> res == Failure(Gate(c).value)
    ensures Gate(c).None? && id !in t.rows ==> res == Failure(NotFound(""))
    ensures Gate(c).None? && id in t.rows ==>
      (res.Failure? <==> req.email != t.rows[id].email && EmailInUse(t, EmailOf, req.email))
    ensures Gate(c).None? && id in t.rows && res.Failure? ==> res.error == BadRequest(EmailTaken)
    ensures res.Success? ==>
      id in t.rows && res.value == Table(t.rows[id := Apply(t.rows[id], req, hash)], t.nextId)
    ensures res.Success? && Inv(t, EmailOf, AnyUser) ==> Inv(res.value, EmailOf, AnyUser)
  {
    if Gate(c).Some? then Failure(Gate(c).value)
    else if id !in t.rows then Failure(NotFound(""))
    else UpdateUnique(t, id, Apply(t.rows[id], req, hash), EmailOf)
  }

  function Deactivate(u: User): User { u.(isActive := false) }

  /** `DELETE api/Users/{id}`: a soft delete that only clears `IsActive`. */
  function DeleteUser(c: Caller, t: Table<User>, id: int): (res: Result<Table<User>>)
    ensures Gate(c).Some? ==> res == Failure(Gate(c).value)
    ensures Gate(c).None? ==> (res.Failure? <==> id !in t.rows)
    ensures Gate(c).None? && res.Failure? ==> res.error == NotFound("")
    ensures res.Success? ==>
      var u := res.value;
      u.rows.Keys == t.rows.Keys && u.nextId == t.nextId
      && (forall k | k in t.rows && k != id :: u.rows[k] == t.rows[k])
      && u.rows[id] == t.rows[id].(isActive := false)
    ensures res.Success? && Inv(t, EmailOf, AnyUser) ==> Inv(res.value, EmailOf, AnyUser)
  {
    if Gate(c).Some? then Failure(Gate(c).value)
    else
      ModifyKeepsInv(t, id, Deactivate, EmailOf, AnyUser);
      Modify(t, id, Deactivate)
  }

  // ---------------------------------------------------------------- lemmas

  /** An update that leaves the password empty keeps the stored hash, so an
      edit form submitted untouched does not change the login. */
  lemma EmptyPasswordKeepsHash(c: Caller, t: Table<User>, id: int, req: UserRequest, hash: string -> string)
    requires UpdateUser(c, t, id, req, hash).Success? && req.password == ""
    ensures UpdateUser(c, t, id, req, hash).value.rows[id].passwordHash == t.rows[id].passwordHash
  {
  }

  /** No endpoint does anything for a caller that is not an administrator. */
  lemma NonAdminsGetNothing(c: Caller, t: Table<User>, id: int, req: UserRequest, hash: string -> string, now: Date)
    requires ValidIds(t) && c != Signed(AdminRole)
    ensures GetUsers(c, t).Failure? && GetUser(c, t, id).Failure?
    ensures CreateUser(c, t, req, hash, now).Failure? && UpdateUser(c, t, id, req, hash).Failure?
    ensures DeleteUser(c, t, id).Failure?
  {
  }
}
