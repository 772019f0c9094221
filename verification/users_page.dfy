/** The users page: the checks of the create and edit dialog, which differ
    in the password, the messages of a failed save or deactivation, and
    the role chip. */
module UsersPage {
  import opened Common
  import opened Text
  import opened Dates
  import opened Tables
  import opened Forms
  import Users

  // ------------------------------------------------------------ save dialog

  /** The texts of the dialog. */
  datatype Form = Form(name: string, email: string, password: string, role: string)

  /** The form "Novo Usuário" opens with. */
  const NewForm := Form("", "", "", Users.DefaultRole)

  /** Opening a user for editing: every field from the list, the password
      cleared. */
  function OpenForEdit(v: Users.UserView): (f: Form)
    ensures f.name == v.name && f.email == v.email && f.role == v.role && f.password == ""
  {
    Form(v.name, v.email, "", v.role)
  }

  /** The body the dialog sends. */
  function Request(f: Form): Users.UserRequest
  {
    Users.UserRequest(f.name, f.email, f.password, f.role)
  }

  /** The required fields, in the order they are reported: the password is
      one of them only when creating. */
  function RequiredFields(f: Form, editing: bool): (fs: seq<(string, string)>)
    ensures |fs| == if editing then 3 else 4
  {
    [("Nome", f.name), ("Email", f.email)] + (if editing then [] else [("Senha", f.password)])
    + [("Perfil", f.role)]
  }

  /** Every required field of the dialog is filled. */
  predicate Filled(f: Form, editing: bool)
  {
    !JsBlank(f.name) && !JsBlank(f.email) && (editing || !JsBlank(f.password)) && !JsBlank(f.role)
  }

  /** `handleSave` before the request: the blank fields, the email, and for
      a new user a password whose `.length` is at least six. */
  function Validate(f: Form, editing: bool): (c: Check)
    ensures c.Send? <==> Filled(f, editing) && EmailShape(f.email) && (editing || Utf16Length(f.password) >= 6)
    ensures c.InvalidEmail? <==> Filled(f, editing) && !EmailShape(f.email)
    ensures c.ShortPassword? <==> Filled(f, editing) && EmailShape(f.email) && !editing && Utf16Length(f.password) < 6
  {
    var fs := RequiredFields(f, editing);
    FilledIff(f, editing);
    var c := CheckForm(fs, f.email);
    if c.Send? && !editing && f.password != "" && Utf16Length(f.password) < 6 then ShortPassword
    else c
  }

  lemma FilledIff(f: Form, editing: bool)
    ensures (forall i | 0 <= i < |RequiredFields(f, editing)| :: !JsBlank(RequiredFields(f, editing)[i].1))
            <==> Filled(f, editing)
    ensures !editing && Filled(f, editing) ==> f.password != ""
  {
    var fs := RequiredFields(f, editing);
    if editing {
      Filled3(fs, JsBlank);
    } else {
      Filled4(fs, JsBlank);
    }
    if !editing && f.password == "" {
      assert JsTrim(f.password) == "";
    }
  }

  /** Each reported label names a blank field, and each blank required
      field is reported. */
  lemma ReportedIffBlank(f: Form, editing: bool, k: nat)
    requires k < |RequiredFields(f, editing)|
    ensures Validate(f, editing).MissingFields? ==>
      (RequiredFields(f, editing)[k].0 in Validate(f, editing).labels <==> JsBlank(RequiredFields(f, editing)[k].1))
  {
    var fs := RequiredFields(f, editing);
    if editing {
      assert Labels(fs) == ["Nome", "Email", "Perfil"];
    } else {
      assert Labels(fs) == ["Nome", "Email", "Senha", "Perfil"];
    }
    Forms.ReportedIffBlank(fs, k);
  }

  /** The length check counts every character, white space included: a
      new password of six spaces is reported missing, while one of five
      spaces around a letter passes. */
  lemma PaddedPasswordPasses(f: Form)
    requires !JsBlank(f.name) && !JsBlank(f.email) && !JsBlank(f.role) && EmailShape(f.email)
    requires f.password == "  a   "
    ensures Validate(f, false) == Send
    ensures Validate(f.(password := "      "), false).MissingFields?
  {
    PaddedFilled();
    assert Filled(f, false) && Utf16Length(f.password) >= 6;
    assert !Filled(f.(password := "      "), false);
  }

  lemma PaddedFilled()
    ensures !JsBlank("  a   ") && JsBlank("      ")
    ensures Utf16Length("  a   ") == 6
  {
    var p := "  a   ";
    assert forall i | 0 <= i < |p| :: p[i] <= '\U{FFFF}';
    assert !IsJsSpace("  a   "[2]);
    TrimEmptyIffAllSpace("  a   ", IsJsSpace);
    TrimEmptyIffAllSpace("      ", IsJsSpace);
  }

  /** An edit saved without typing a password leaves the login as it was;
      one whose password is only white space passes the checks and replaces
      the login with those spaces. */
  lemma EditKeepsOrReplacesHash(c: Users.Caller, t: Table<Users.User>, id: int, v: Users.UserView,
                                typed: string, hash: string -> string)
    ensures var r := Users.UpdateUser(c, t, id, Request(OpenForEdit(v)), hash);
      r.Success? ==> r.value.rows[id].passwordHash == t.rows[id].passwordHash
    ensures var r := Users.UpdateUser(c, t, id, Request(OpenForEdit(v).(password := typed)), hash);
      r.Success? && typed != "" ==> r.value.rows[id].passwordHash == hash(typed)
    ensures Validate(OpenForEdit(v).(password := typed), true) == Validate(OpenForEdit(v), true)
  {
    var f := OpenForEdit(v);
    FilledIff(f, true);
    FilledIff(f.(password := typed), true);
    assert RequiredFields(f, true) == RequiredFields(f.(password := typed), true);
  }

  const AlreadyUser := "Já existe um usuário cadastrado com este email."
  const SaveFallback := "Erro ao salvar usuário. Verifique sua conexão e tente novamente."

  /** The `catch` of `handleSave`: 400, 409, 500, anything else. */
  function SaveRules(): seq<(int, Shown)>
  {
    [(400, ServerOr(InvalidData)), (409, Fixed(AlreadyUser)), (500, Fixed(ServerTrouble))]
  }

  function SaveBanner(f: Failure): string
  {
    Banner(f, SaveRules(), ServerOr(SaveFallback))
  }

  lemma SaveBannerCases(f: Failure)
    ensures f.Status() == Some(400) ==> SaveBanner(f) == OrElse(f.ServerMessage(), InvalidData)
    ensures f.Status() == Some(409) ==> SaveBanner(f) == AlreadyUser
    ensures f.Status() == Some(500) ==> SaveBanner(f) == ServerTrouble
    ensures f.Status() != Some(400) && f.Status() != Some(409) && f.Status() != Some(500) ==>
      SaveBanner(f) == OrElse(f.ServerMessage(), SaveFallback)
  {
    var rules := SaveRules();
    if f.Status() == Some(409) {
      BannerFirstMatch(f, rules, ServerOr(SaveFallback), 1);
    } else if f.Status() == Some(500) {
      BannerFirstMatch(f, rules, ServerOr(SaveFallback), 2);
    }
  }

  /** For an administrator a refused save is a duplicate email (400 with
      "Email já cadastrado", shown as such) or an unknown id; never 409. */
  lemma RejectedSaveBanner(t: Table<Users.User>, id: int, req: Users.UserRequest, hash: string -> string,
                           now: Date)
    requires ValidIds(t)
    ensures var c := Users.CreateUser(Users.Signed(Users.AdminRole), t, req, hash, now);
      c.Failure? ==> c.error == BadRequest(EmailTaken)
    ensures var u := Users.UpdateUser(Users.Signed(Users.AdminRole), t, id, req, hash);
      u.Failure? ==> u.error in {BadRequest(EmailTaken), NotFound("")}
    ensures SaveBanner(Duplicate) == EmailTaken
  {
    SaveBannerCases(Duplicate);
  }

  // ------------------------------------------------------------ deactivate

  const UserMissing := "Usuário não encontrado."
  const DeleteTrouble := "Erro no servidor ao desativar usuário. Tente novamente."
  const DeleteFallback := "Erro ao desativar usuário. Verifique sua conexão e tente novamente."

  /** The `catch` of `handleDelete`: 404, 500, anything else. */
  function DeleteRules(): seq<(int, Shown)>
  {
    [(404, Fixed(UserMissing)), (500, Fixed(DeleteTrouble))]
  }

  function DeleteBanner(f: Failure): string
  {
    Banner(f, DeleteRules(), ServerOr(DeleteFallback))
  }

  lemma DeleteBannerCases(f: Failure)
    ensures f.Status() == Some(404) ==> DeleteBanner(f) == UserMissing
    ensures f.Status() == Some(500) ==> DeleteBanner(f) == DeleteTrouble
    ensures f.Status() != Some(404) && f.Status() != Some(500) ==>
      DeleteBanner(f) == OrElse(f.ServerMessage(), DeleteFallback)
  {
    if f.Status() == Some(500) {
      BannerFirstMatch(f, DeleteRules(), ServerOr(DeleteFallback), 1);
    }
  }

  /** An administrator's deactivation fails only for an unknown id, which
      the page reports as a missing user. */
  lemma RejectedDeleteBanner(t: Table<Users.User>, id: int)
    ensures var d := Users.DeleteUser(Users.Signed(Users.AdminRole), t, id);
      d.Failure? <==> id !in t.rows
    ensures var d := Users.DeleteUser(Users.Signed(Users.AdminRole), t, id);
      d.Failure? ==> DeleteBanner(Bodyless(d.error)) == UserMissing
  {
    DeleteBannerCases(Bodyless(NotFound("")));
  }

  // ------------------------------------------------------------------ list

  /** The role chip: red for "Admin" exactly, blue for every other role. */
  function RoleTone(role: string): (tone: Tone)
    ensures tone == ToneError <==> role == Users.AdminRole
    ensures tone == TonePrimary <==> role != Users.AdminRole
  {
    if role == Users.AdminRole then ToneError else TonePrimary
  }

  /** The chip is red exactly for the users the gate lets through. */
  lemma RedChipIsAdmin(v: Users.UserView)
    ensures RoleTone(v.role) == ToneError <==> Users.Gate(Users.Signed(v.role)).None?
  {
  }
}
