/** The login decision: an exact-email lookup among active users, a password
    check, and one uniform 401 for every failure.  BCrypt's `Verify` is the
    parameter `verify`; the JWT issuer is the parameter `token`. */
module Auth {
  import opened Common
  import opened Dates
  import opened Tables
  import opened Users

  const InvalidCredentials := "Email ou senha inválidos"

  /** `LoginResponseDto`. */
  datatype LoginResponse = LoginResponse(token: string, name: string, email: string, role: string)

  /** `FirstOrDefaultAsync(u => u.Email == email && u.IsActive)`, scanning in
      id order. */
  function FindActive(rows: seq<(int, User)>, email: string): (r: Option<(int, User)>)
    ensures r.None? <==> forall i | 0 <= i < |rows| :: !(rows[i].1.email == email && rows[i].1.isActive)
    ensures r.Some? ==> r.value in rows && r.value.1.email == email && r.value.1.isActive
  {
    if |rows| == 0 then None
    else if rows[0].1.email == email && rows[0].1.isActive then Some(rows[0])
    else
      assert forall i | 1 <= i < |rows| :: rows[i] == rows[1..][i - 1];
      FindActive(rows[1..], email)
  }

  /** The user an email signs in as: the active row with that email. */
  predicate Matches(u: User, email: string)
  {
    u.email == email && u.isActive
  }

  /** The lookup over the table's rows finds a matching row of the table,
      and finds none only when there is none. */
  lemma FindActiveInTable(t: Table<User>, email: string)
    requires ValidIds(t)
    ensures FindActive(Rows(t), email).None? <==> forall id | id in t.rows :: !Matches(t.rows[id], email)
    ensures FindActive(Rows(t), email).Some? ==>
      var (id, u) := FindActive(Rows(t), email).value;
      id in t.rows && t.rows[id] == u && Matches(u, email)
  {
    var rows := Rows(t);
    if FindActive(rows, email).None? {
      forall id | id in t.rows ensures !Matches(t.rows[id], email) {
        var i :| 0 <= i < |rows| && rows[i].0 == id;
      }
    } else {
      var i :| 0 <= i < |rows| && rows[i] == FindActive(rows, email).value;
    }
  }

  /** `POST api/Auth/login`: 401 with one message for every failure; success
      answers with the matched user's name, email and role and a token. */
  function Login(t: Table<User>, email: string, password: string,
                 verify: (string, string) -> bool, token: User -> string): (res: Result<LoginResponse>)
    requires ValidIds(t)
    ensures res.Failure? ==> res.error == Unauthorized(InvalidCredentials)
    ensures res.Success? ==>
      exists id | id in t.rows :: Matches(t.rows[id], email) && verify(password, t.rows[id].passwordHash)
                                 && res.value == Grant(t.rows[id], token)
    ensures UniqueEmails(t, EmailOf) ==>
      (res.Success? <==> exists id | id in t.rows :: Matches(t.rows[id], email) && verify(password, t.rows[id].passwordHash))
  {
    FindActiveInTable(t, email);
    match FindActive(Rows(t), email)
    case None => Failure(Unauthorized(InvalidCredentials))
    case Some((id, user)) =>
      if verify(password, user.passwordHash) then Success(Grant(user, token))
      else Failure(Unauthorized(InvalidCredentials))
  }

  function Grant(u: User, token: User -> string): (r: LoginResponse)
    ensures r.name == u.name && r.email == u.email && r.role == u.role && r.token == token(u)
  {
    LoginResponse(token(u), u.name, u.email, u.role)
  }

  /** An unknown email, an inactive user and a wrong password all get the
      very same answer. */
  lemma FailuresIndistinguishable(t: Table<User>, e1: string, p1: string, e2: string, p2: string,
                                  verify: (string, string) -> bool, token: User -> string)
    requires ValidIds(t)
    requires Login(t, e1, p1, verify, token).Failure? && Login(t, e2, p2, verify, token).Failure?
    ensures Login(t, e1, p1, verify, token) == Login(t, e2, p2, verify, token)
  {
  }

  /** A user the administrator just created can sign in with the password
      given at creation, provided `verify` accepts what `hash` produced. */
  lemma LoginAfterCreate(t: Table<User>, req: UserRequest, hash: string -> string, now: Date,
                         verify: (string, string) -> bool, token: User -> string)
    requires Inv(t, EmailOf, AnyUser)
    requires CreateUser(Signed(AdminRole), t, req, hash, now).Success?
    requires verify(req.password, hash(req.password))
    ensures var u := CreateUser(Signed(AdminRole), t, req, hash, now).value.0;
      ValidIds(u) && Login(u, req.email, req.password, verify, token).Success?
  {
    var (u, v) := CreateUser(Signed(AdminRole), t, req, hash, now).value;
    assert u.rows[v.id].email == req.email;
  }

  /** A deactivated user can no longer sign in, whatever the password. */
  lemma NoLoginAfterDelete(t: Table<User>, id: int, password: string,
                           verify: (string, string) -> bool, token: User -> string)
    requires Inv(t, EmailOf, AnyUser) && id in t.rows
    ensures var u := DeleteUser(Signed(AdminRole), t, id).value;
      ValidIds(u) && Login(u, t.rows[id].email, password, verify, token).Failure?
  {
    var u := DeleteUser(Signed(AdminRole), t, id).value;
    assert UniqueEmails(u, EmailOf);
    forall k | k in u.rows && u.rows[k].email == t.rows[id].email ensures !u.rows[k].isActive {
      assert k == id;
    }
  }
}
