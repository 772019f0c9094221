/** The men's-group page: the checks and messages of the save dialog and
    the messages of a failed delete. */
module MensGroupPage {
  import opened Common
  import opened Text
  import opened Dates
  import opened Tables
  import opened Forms
  import MensGroup

  type GroupMember = MensGroup.GroupMember

  // ------------------------------------------------------------ save dialog

  /** The texts of the dialog. */
  datatype Form = Form(name: string, email: string, phone: string, role: string, notes: string)

  /** The required fields, in the order they are reported. */
  function RequiredFields(f: Form): seq<(string, string)>
  {
    [("Nome", f.name), ("Email", f.email), ("Telefone", f.phone)]
  }

  /** `handleSave` before the request: the blank fields, then the email. */
  function Validate(f: Form): (c: Check)
    ensures c.Send? <==> !JsBlank(f.name) && !JsBlank(f.email) && !JsBlank(f.phone) && EmailShape(f.email)
    ensures c.InvalidEmail? ==> !EmailShape(f.email)
  {
    Filled3(RequiredFields(f), JsBlank);
    CheckForm(RequiredFields(f), f.email)
  }

  /** Each label is reported exactly when its field is blank. */
  lemma ReportedIffBlank(f: Form, k: nat)
    requires k < 3
    ensures Validate(f).MissingFields? ==>
      (RequiredFields(f)[k].0 in Validate(f).labels <==> JsBlank(RequiredFields(f)[k].1))
  {
    assert Labels(RequiredFields(f)) == ["Nome", "Email", "Telefone"];
    Forms.ReportedIffBlank(RequiredFields(f), k);
  }

  const AlreadyMember := "Já existe um membro cadastrado com este email."
  const SaveFallback := "Erro ao salvar membro. Verifique sua conexão e tente novamente."

  /** The `catch` of `handleSave`: 400, 409, 500, anything else. */
  function SaveRules(): seq<(int, Shown)>
  {
    [(400, ServerOr(InvalidData)), (409, Fixed(AlreadyMember)), (500, Fixed(ServerTrouble))]
  }

  function SaveBanner(f: Failure): string
  {
    Banner(f, SaveRules(), ServerOr(SaveFallback))
  }

  lemma SaveBannerCases(f: Failure)
    ensures f.Status() == Some(400) ==> SaveBanner(f) == OrElse(f.ServerMessage(), InvalidData)
    ensures f.Status() == Some(409) ==> SaveBanner(f) == AlreadyMember
    ensures f.Status() == Some(500) ==> SaveBanner(f) == ServerTrouble
    ensures f.Status() != Some(400) && f.Status() != Some(409) && f.Status() != Some(500) ==>
      SaveBanner(f) == OrElse(f.ServerMessage(), SaveFallback)
  {
    var rules := SaveRules();
    if f.Status() == Some(409) {
      BannerFirstMatch(f, rules, ServerOr(SaveFallback), 1);
    } else if f.Status() == Some(500) {
      BannerFirstMatch(f, rules, ServerOr(SaveFallback), 2);
    }
  }

  /** A save the controller rejects is a 400 or a 404, never a 409; a
      duplicate email shows the controller's "Email já cadastrado". */
  lemma RejectedSaveBanner(t: Table<GroupMember>, id: int, body: GroupMember, now: Date)
    requires ValidIds(t)
    ensures var c := MensGroup.CreateMember(t, body, now);
      c.Failure? ==> c.error in {Invalid, BadRequest(EmailTaken)}
    ensures var u := MensGroup.UpdateMember(t, id, body);
      u.Failure? ==> u.error in {Invalid, BadRequest(EmailTaken), NotFound("")}
    ensures SaveBanner(Duplicate) == EmailTaken
    ensures SaveBanner(Bodyless(Invalid)) == InvalidData
    ensures SaveBanner(Bodyless(NotFound(""))) == SaveFallback
  {
    SaveBannerCases(Duplicate);
    SaveBannerCases(Bodyless(Invalid));
    SaveBannerCases(Bodyless(NotFound("")));
  }

  // ---------------------------------------------------------------- delete

  const MemberMissing := "Membro não encontrado."
  const DeleteTrouble := "Erro no servidor ao excluir membro. Tente novamente."
  const DeleteFallback := "Erro ao excluir membro. Verifique sua conexão e tente novamente."

  /** The `catch` of `handleDelete`: 404, 500, anything else. */
  function DeleteRules(): seq<(int, Shown)>
  {
    [(404, Fixed(MemberMissing)), (500, Fixed(DeleteTrouble))]
  }

  function DeleteBanner(f: Failure): string
  {
    Banner(f, DeleteRules(), ServerOr(DeleteFallback))
  }

  lemma DeleteBannerCases(f: Failure)
    ensures f.Status() == Some(404) ==> DeleteBanner(f) == MemberMissing
    ensures f.Status() == Some(500) ==> DeleteBanner(f) == DeleteTrouble
    ensures f.Status() != Some(404) && f.Status() != Some(500) ==>
      DeleteBanner(f) == OrElse(f.ServerMessage(), DeleteFallback)
  {
    if f.Status() == Some(500) {
      BannerFirstMatch(f, DeleteRules(), ServerOr(DeleteFallback), 1);
    }
  }

  /** The controller refuses a delete only for an unknown id, which the page
      reports as a missing member; a member already deleted is found and
      deleted again without complaint. */
  lemma RejectedDeleteBanner(t: Table<GroupMember>, id: int)
    ensures var d := MensGroup.DeleteMember(t, id);
      d.Failure? <==> id !in t.rows
    ensures var d := MensGroup.DeleteMember(t, id);
      d.Failure? ==> DeleteBanner(Bodyless(d.error)) == MemberMissing
    ensures id in t.rows && !t.rows[id].isActive ==> MensGroup.DeleteMember(t, id).Success?
  {
    DeleteBannerCases(Bodyless(NotFound("")));
  }
}
