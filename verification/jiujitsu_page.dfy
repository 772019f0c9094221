/** The jiu-jitsu page: the checks and messages of the save dialog, the
    messages of a failed delete, the payment chip and the belt swatch. */
module JiuJitsuPage {
  import opened Common
  import opened Text
  import opened Dates
  import opened Tables
  import opened Forms
  import JiuJitsu
  import Database

  type Student = JiuJitsu.Student

  // ------------------------------------------------------------ save dialog

  /** The texts of the dialog the checks read. */
  datatype Form = Form(name: string, email: string, phone: string, belt: string, paymentStatus: string)

  /** The form "Novo Aluno" opens with. */
  function NewForm(): (f: Form)
    ensures f.belt == JiuJitsu.DefaultBelt && f.paymentStatus == PaidUp
    ensures f.name == "" && f.email == "" && f.phone == ""
  {
    Form("", "", "", JiuJitsu.DefaultBelt, PaidUp)
  }

  /** The required fields, in the order they are reported. */
  function RequiredFields(f: Form): seq<(string, string)>
  {
    [("Nome", f.name), ("Email", f.email), ("Telefone", f.phone), ("Faixa", f.belt)]
  }

  /** `handleSave` before the request: the blank fields, then the email. */
  function Validate(f: Form): (c: Check)
    ensures c.Send? <==>
      !JsBlank(f.name) && !JsBlank(f.email) && !JsBlank(f.phone) && !JsBlank(f.belt) && EmailShape(f.email)
    ensures c.InvalidEmail? ==> !EmailShape(f.email)
  {
    Filled4(RequiredFields(f), JsBlank);
    CheckForm(RequiredFields(f), f.email)
  }

  /** Each label is reported exactly when its field is blank. */
  lemma ReportedIffBlank(f: Form, k: nat)
    requires k < 4
    ensures Validate(f).MissingFields? ==>
      (RequiredFields(f)[k].0 in Validate(f).labels <==> JsBlank(RequiredFields(f)[k].1))
  {
    assert Labels(RequiredFields(f)) == ["Nome", "Email", "Telefone", "Faixa"];
    Forms.ReportedIffBlank(RequiredFields(f), k);
  }

  /** The form a new student opens with is sent once name, email and phone
      are filled in and the email has the expected shape. */
  lemma NewFormNeedsThreeFields(name: string, email: string, phone: string)
    ensures var f := NewForm().(name := name, email := email, phone := phone);
      Validate(f).Send? <==> !JsBlank(name) && !JsBlank(email) && !JsBlank(phone) && EmailShape(email)
  {
    DefaultBeltFilled();
  }

  lemma DefaultBeltFilled()
    ensures !JsBlank(JiuJitsu.DefaultBelt)
  {
    TrimEmptyIffAllSpace(JiuJitsu.DefaultBelt, IsJsSpace);
    assert !IsJsSpace(JiuJitsu.DefaultBelt[0]);
  }

  const AlreadyStudent := "Já existe um aluno cadastrado com este email."
  const SaveFallback := "Erro ao salvar aluno. Verifique sua conexão e tente novamente."

  /** The `catch` of `handleSave`: 400, 409, 500, anything else. */
  function SaveRules(): seq<(int, Shown)>
  {
    [(400, ServerOr(InvalidData)), (409, Fixed(AlreadyStudent)), (500, Fixed(ServerTrouble))]
  }

  function SaveBanner(f: Failure): string
  {
    Banner(f, SaveRules(), ServerOr(SaveFallback))
  }

  lemma SaveBannerCases(f: Failure)
    ensures f.Status() == Some(400) ==> SaveBanner(f) == OrElse(f.ServerMessage(), InvalidData)
    ensures f.Status() == Some(409) ==> SaveBanner(f) == AlreadyStudent
    ensures f.Status() == Some(500) ==> SaveBanner(f) == ServerTrouble
    ensures f.Status() != Some(400) && f.Status() != Some(409) && f.Status() != Some(500) ==>
      SaveBanner(f) == OrElse(f.ServerMessage(), SaveFallback)
  {
    var rules := SaveRules();
    if f.Status() == Some(409) {
      BannerFirstMatch(f, rules, ServerOr(SaveFallback), 1);
    } else if f.Status() == Some(500) {
      BannerFirstMatch(f, rules, ServerOr(SaveFallback), 2);
    }
  }

  /** A save the controller rejects is a 400 or a 404, never a 409: a
      duplicate email shows the controller's "Email já cadastrado", and a
      body breaking a declared attribute the page's own 400 text. */
  lemma RejectedSaveBanner(t: Table<Student>, id: int, body: Student, now: Date)
    requires ValidIds(t)
    ensures var c := JiuJitsu.CreateStudent(t, body, now);
      c.Failure? ==> c.error in {Invalid, BadRequest(EmailTaken)}
    ensures var u := JiuJitsu.UpdateStudent(t, id, body);
      u.Failure? ==> u.error in {Invalid, BadRequest(EmailTaken), NotFound("")}
    ensures SaveBanner(Duplicate) == EmailTaken
    ensures SaveBanner(Bodyless(Invalid)) == InvalidData
    ensures SaveBanner(Bodyless(NotFound(""))) == SaveFallback
  {
    SaveBannerCases(Duplicate);
    SaveBannerCases(Bodyless(Invalid));
    SaveBannerCases(Bodyless(NotFound("")));
  }

  // ---------------------------------------------------------------- delete

  const StudentMissing := "Aluno não encontrado."
  const DeleteTrouble := "Erro no servidor ao excluir aluno. Tente novamente."
  const DeleteFallback := "Erro ao excluir aluno. Verifique sua conexão e tente novamente."

  /** The `catch` of `handleDelete`: 404, 500, anything else. */
  function DeleteRules(): seq<(int, Shown)>
  {
    [(404, Fixed(StudentMissing)), (500, Fixed(DeleteTrouble))]
  }

  function DeleteBanner(f: Failure): string
  {
    Banner(f, DeleteRules(), ServerOr(DeleteFallback))
  }

  lemma DeleteBannerCases(f: Failure)
    ensures f.Status() == Some(404) ==> DeleteBanner(f) == StudentMissing
    ensures f.Status() == Some(500) ==> DeleteBanner(f) == DeleteTrouble
    ensures f.Status() != Some(404) && f.Status() != Some(500) ==>
      DeleteBanner(f) == OrElse(f.ServerMessage(), DeleteFallback)
  {
    if f.Status() == Some(500) {
      BannerFirstMatch(f, DeleteRules(), ServerOr(DeleteFallback), 1);
    }
  }

  /** The only way the controller refuses a delete is an unknown id, which
      the page reports as a missing student. */
  lemma RejectedDeleteBanner(t: Table<Student>, id: int)
    ensures var d := JiuJitsu.DeleteStudent(t, id);
      d.Failure? <==> id !in t.rows
    ensures var d := JiuJitsu.DeleteStudent(t, id);
      d.Failure? ==> DeleteBanner(Bodyless(d.error)) == StudentMissing
  {
    DeleteBannerCases(Bodyless(NotFound("")));
  }

  // ---------------------------------------------------------- chips, belts

  /** `getPaymentStatusColor`. */
  function PaymentColour(status: string): (c: Tone)
    ensures c == ToneSuccess <==> status == PaidUp
    ensures c == ToneWarning <==> status == "Atrasado"
    ensures c == ToneError <==> status == "Inadimplente"
    ensures c == ToneDefault <==> status !in {PaidUp, "Atrasado", "Inadimplente"}
  {
    match status
    case "Em dia" => ToneSuccess
    case "Atrasado" => ToneWarning
    case "Inadimplente" => ToneError
    case _ => ToneDefault
  }

  /** The chip of a row: `paymentStatus || 'Em dia'`, so a missing or empty
      status shows as up to date. */
  function PaymentChip(status: Option<string>): (c: Tone)
    ensures NullOrEmpty(status) ==> c == ToneSuccess
    ensures !NullOrEmpty(status) ==> c == PaymentColour(status.value)
  {
    PaymentColour(if NullOrEmpty(status) then PaidUp else status.value)
  }

  /** The start-up repair of missing payment statuses changes nothing the
      page shows: before it, the page already read them as "Em dia". */
  lemma RepairInvisible(t: Table<Student>, id: int)
    requires id in t.rows
    ensures PaymentChip(Database.FixJiuJitsuStudentData(t).rows[id].paymentStatus) == PaymentChip(t.rows[id].paymentStatus)
  {
  }

  const Belts := ["Branca", "Azul", "Roxa", "Marrom", "Preta"]
  const OtherBelt := "#9e9e9e"

  /** `getBeltColor`. */
  function BeltColour(belt: string): (colour: string)
    ensures belt == "Branca" ==> colour == "#ffffff"
    ensures belt == "Azul" ==> colour == "#1976d2"
    ensures belt == "Roxa" ==> colour == "#9c27b0"
    ensures belt == "Marrom" ==> colour == "#795548"
    ensures belt == "Preta" ==> colour == "#424242"
    ensures colour == OtherBelt <==> belt !in Belts
  {
    match belt
    case "Branca" => "#ffffff"
    case "Azul" => "#1976d2"
    case "Roxa" => "#9c27b0"
    case "Marrom" => "#795548"
    case "Preta" => "#424242"
    case _ => OtherBelt
  }

  /** The five belts of the dialog get five different swatches, and a new
      student's belt is white. */
  lemma BeltColoursDistinct()
    ensures forall i, j | 0 <= i < j < 5 :: BeltColour(Belts[i]) != BeltColour(Belts[j])
    ensures BeltColour(JiuJitsu.DefaultBelt) == "#ffffff"
  {
    assert BeltColour(Belts[0]) == "#ffffff" && BeltColour(Belts[1]) == "#1976d2";
    assert BeltColour(Belts[2]) == "#9c27b0" && BeltColour(Belts[3]) == "#795548";
    assert BeltColour(Belts[4]) == "#424242";
    assert "#ffffff"[1] != "#1976d2"[1] && "#ffffff"[1] != "#9c27b0"[1] && "#ffffff"[1] != "#795548"[1];
    assert "#ffffff"[1] != "#424242"[1] && "#1976d2"[1] != "#9c27b0"[1] && "#1976d2"[1] != "#795548"[1];
    assert "#1976d2"[1] != "#424242"[1] && "#9c27b0"[1] != "#795548"[1] && "#9c27b0"[1] != "#424242"[1];
    assert "#795548"[1] != "#424242"[1];
  }
}
