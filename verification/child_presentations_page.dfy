/** The child-presentations page: the required-field check of the dialog,
    the save message, the gender icon and chip, the age column, the
    certificate chip and the name the browser gives a downloaded
    certificate. */
module ChildPresentationsPage {
  import opened Common
  import opened Text
  import opened Dates
  import opened Tables
  import opened Forms
  import ChildPresentations
  import Certificates

  type Presentation = ChildPresentations.Presentation

  // ------------------------------------------------------------ save dialog

  /** The dialog's fields as the browser holds them: the dates are the text
      of a date input, "" until one is picked. */
  datatype Form = Form(childName: string, birthDate: string, gender: string, fatherName: string,
                       motherName: string, presentationDate: string, pastor: string,
                       biblicalVerse: string, churchName: string)

  /** The form "Nova Apresentação" opens with; `today` is the ISO date of
      the browser clock. */
  function NewForm(today: string): (f: Form)
    ensures f.gender == ChildPresentations.Boy && f.presentationDate == today
    ensures f.biblicalVerse == ChildPresentations.DefaultVerse && f.churchName == ChildPresentations.DefaultChurch
    ensures f.childName == "" && f.birthDate == "" && f.fatherName == "" && f.motherName == "" && f.pastor == ""
  {
    Form("", "", ChildPresentations.Boy, "", "", today, "", ChildPresentations.DefaultVerse,
         ChildPresentations.DefaultChurch)
  }

  /** One `missingFields.push` line: the label when its field is missing. */
  function Flag(missing: bool, name: string): seq<string>
  {
    if missing then [name] else []
  }

  /** The labels `handleSave` collects: four texts are missing when blank
      after `trim()`, the birth date only when it is "". */
  function Missing(f: Form): (r: seq<string>)
    ensures |r| <= 5
    ensures |r| == 0 <==>
      !JsBlank(f.childName) && f.birthDate != "" && !JsBlank(f.fatherName)
      && !JsBlank(f.motherName) && !JsBlank(f.pastor)
  {
    Flag(JsBlank(f.childName), "Nome da Criança") + Flag(f.birthDate == "", "Data de Nascimento")
    + Flag(JsBlank(f.fatherName), "Nome do Pai") + Flag(JsBlank(f.motherName), "Nome da Mãe")
    + Flag(JsBlank(f.pastor), "Pastor")
  }

  /** `handleSave` before the request; there is no email check. */
  function Validate(f: Form): (c: Check)
    ensures c.Send? || c.MissingFields?
    ensures c.Send? <==>
      !JsBlank(f.childName) && f.birthDate != "" && !JsBlank(f.fatherName)
      && !JsBlank(f.motherName) && !JsBlank(f.pastor)
    ensures c.MissingFields? ==> |c.labels| > 0
  {
    var m := Missing(f);
    if |m| > 0 then MissingFields(m) else Send
  }

  /** Each label is reported exactly when its own field is missing. */
  lemma ReportedIffMissing(f: Form)
    ensures "Nome da Criança" in Missing(f) <==> JsBlank(f.childName)
    ensures "Data de Nascimento" in Missing(f) <==> f.birthDate == ""
    ensures "Nome do Pai" in Missing(f) <==> JsBlank(f.fatherName)
    ensures "Nome da Mãe" in Missing(f) <==> JsBlank(f.motherName)
    ensures "Pastor" in Missing(f) <==> JsBlank(f.pastor)
  {
    FlagsIff(JsBlank(f.childName), f.birthDate == "", JsBlank(f.fatherName), JsBlank(f.motherName),
             JsBlank(f.pastor));
  }

  /** Five flags, one label each: a label is listed exactly when its flag
      is set. */
  lemma FlagsIff(a: bool, b: bool, c: bool, d: bool, e: bool)
    ensures var m := Flag(a, "Nome da Criança") + Flag(b, "Data de Nascimento") + Flag(c, "Nome do Pai")
                     + Flag(d, "Nome da Mãe") + Flag(e, "Pastor");
      && ("Nome da Criança" in m <==> a) && ("Data de Nascimento" in m <==> b)
      && ("Nome do Pai" in m <==> c) && ("Nome da Mãe" in m <==> d) && ("Pastor" in m <==> e)
  {
    LabelsDiffer();
  }

  lemma LabelsDiffer()
    ensures "Nome da Criança" != "Data de Nascimento" && "Nome da Criança" != "Nome do Pai"
    ensures "Nome da Criança" != "Nome da Mãe" && "Nome da Criança" != "Pastor"
    ensures "Data de Nascimento" != "Nome do Pai" && "Data de Nascimento" != "Nome da Mãe"
    ensures "Data de Nascimento" != "Pastor" && "Nome do Pai" != "Nome da Mãe"
    ensures "Nome do Pai" != "Pastor" && "Nome da Mãe" != "Pastor"
  {
    assert "Nome da Criança"[6] != "Nome do Pai"[6];
    assert "Nome da Criança"[8] != "Nome da Mãe"[8];
    assert "Nome do Pai"[6] != "Nome da Mãe"[6];
  }

  /** Unlike the four names, the birth date is not trimmed: a birth date of
      white space alone does not stop the request. */
  lemma BlankBirthDateIsSent(f: Form)
    requires !JsBlank(f.childName) && !JsBlank(f.fatherName) && !JsBlank(f.motherName) && !JsBlank(f.pastor)
    requires f.birthDate == " "
    ensures JsBlank(f.birthDate) && Validate(f) == Send
  {
    assert JsTrim(f.birthDate) == "";
  }

  const SaveFallback := "Erro ao salvar apresentação."

  /** The `catch` of `handleSave`: the server's message or the fallback,
      whatever the status. */
  function SaveBanner(failure: Failure): (r: string)
    ensures r == OrElse(failure.ServerMessage(), SaveFallback)
  {
    Banner(failure, [], ServerOr(SaveFallback))
  }

  /** Every save the controller rejects answers without a message, so the
      page shows its fallback for each of them. */
  lemma RejectedSaveShowsFallback(t: Table<Presentation>, id: int, dto: ChildPresentations.Dto, now: Date)
    requires ValidIds(t)
    ensures var c := ChildPresentations.CreatePresentation(t, dto, now);
      c.Failure? ==> c.error == Invalid && SaveBanner(Bodyless(c.error)) == SaveFallback
    ensures var u := ChildPresentations.UpdatePresentation(t, id, dto);
      u.Failure? ==> u.error in {Invalid, NotFound("")} && SaveBanner(Bodyless(u.error)) == SaveFallback
  {
  }

  // ------------------------------------------------------------ the list

  const BabyBoy := "\U{1F476}"
  const BabyGirl := "\U{1F467}"

  /** `getGenderIcon`: the boy's icon for "Masculino" exactly. */
  function GenderIcon(gender: string): (icon: string)
    ensures icon == BabyBoy <==> gender == ChildPresentations.Boy
    ensures icon == BabyGirl <==> gender != ChildPresentations.Boy
  {
    if gender == ChildPresentations.Boy then BabyBoy else BabyGirl
  }

  /** `getGenderColor`: primary for "Masculino" exactly. */
  function GenderTone(gender: string): (tone: Tone)
    ensures tone == TonePrimary <==> gender == ChildPresentations.Boy
    ensures tone == ToneSecondary <==> gender != ChildPresentations.Boy
  {
    if gender == ChildPresentations.Boy then TonePrimary else ToneSecondary
  }

  /** The icon, the chip and the certificate's colour split the genders the
      same way: any text other than "Masculino" is shown, and printed, as a
      girl. */
  lemma GenderShownAsPrinted(gender: string)
    ensures GenderIcon(gender) == BabyBoy <==> GenderTone(gender) == TonePrimary
    ensures GenderTone(gender) == TonePrimary <==> Certificates.Primary(gender) == Certificates.Blue
  {
  }

  /** `calculateAge`: the whole-month difference, ignoring the day of the
      month, written as the page writes it. */
  function AgeLabel(birth: Date, today: Date): string
  {
    MonthsLabel(MonthsBetween(birth, today))
  }

  /** The age column reads back as the month count the API reports in
      `AgeInMonths` for any stored birth date but `DateTime.MinValue`. */
  lemma AgeLabelIsAgeInMonths(p: Presentation, today: Date)
    requires p.fields.birthDate != MinValue
    ensures ReadMonthsLabel(AgeLabel(p.fields.birthDate, today)) == ChildPresentations.RowAgeInMonths(p, today)
  {
    MonthsLabelRoundTrip(MonthsBetween(p.fields.birthDate, today));
  }

  /** The certificate column. */
  function CertificateChip(p: Presentation): (chip: (string, Tone))
    ensures chip == ("Gerado", ToneSuccess) <==> p.certificateGenerated
    ensures chip == ("Pendente", ToneWarning) <==> !p.certificateGenerated
  {
    if p.certificateGenerated then ("Gerado", ToneSuccess) else ("Pendente", ToneWarning)
  }

  /** The details dialog offers "Baixar Certificado" only for a generated
      certificate, exactly when the list shows "Gerado". */
  function DownloadOffered(p: Presentation): (offered: bool)
    ensures offered <==> CertificateChip(p).0 == "Gerado"
  {
    p.certificateGenerated
  }

  /** A new presentation is listed as pending; once its certificate is
      generated it is listed as "Gerado" and can be downloaded. */
  lemma ChipFollowsCertificate(t: Table<Presentation>, dto: ChildPresentations.Dto, today: Date,
                               id: int, custom: Option<Certificates.Overrides>, now: Moment,
                               printed: CalendarDate, sep: char)
    requires ValidIds(t) && ValidMoment(now) && (sep == '/' || sep == '\\')
    ensures var c := ChildPresentations.CreatePresentation(t, dto, today);
      c.Success? ==> CertificateChip(c.value.0.rows[c.value.1]) == ("Pendente", ToneWarning)
    ensures var g := Certificates.GenerateCertificate(t, id, custom, now, printed, sep, true);
      g.Success? ==> CertificateChip(g.value.table.rows[id]) == ("Gerado", ToneSuccess)
                     && DownloadOffered(g.value.table.rows[id])
  {
  }

  /** The name the page gives the downloaded file, `Certificado_{name}.pdf`,
      which overrides the name the server suggests. */
  function ClientDownloadName(childName: string): (name: string)
    ensures |name| == |childName| + |Certificates.CertificatePrefix| + 4
    ensures name[|Certificates.CertificatePrefix|..|name| - 4] == childName
  {
    Certificates.CertificatePrefix + childName + ".pdf"
  }

  /** The browser's name and the server's agree exactly for a name without
      spaces: the server turns each space into '_', the page keeps it. */
  lemma DownloadNamesAgree(childName: string)
    ensures ClientDownloadName(childName) == Certificates.DownloadName(childName) <==> ' ' !in childName
  {
    var p := Certificates.CertificatePrefix;
    var r := ReplaceChar(childName, ' ', '_');
    if ' ' in childName {
      var i :| 0 <= i < |childName| && childName[i] == ' ';
      assert ClientDownloadName(childName)[|p| + i] == ' ';
      assert Certificates.DownloadName(childName)[|p| + i] == r[i] == '_';
    } else {
      assert r == childName;
    }
  }
}
