/** The public music-school pre-registration: the pre-registration entity,
    the create endpoint anyone may call, and the fixed option lists the form
    offers. */
module PreRegistrations {
  import opened Common
  import opened Dates
  import opened Tables
  import opened Counting

  /** A row of `MusicSchoolPreRegistrations`. */
  datatype PreRegistration = PreRegistration(
    name: string,
    email: string,
    phone: string,
    birthDate: Option<Date>,
    parentName: Option<string>,
    parentEmail: Option<string>,
    parentPhone: Option<string>,
    address: Option<string>,
    neighborhood: Option<string>,
    city: Option<string>,
    state: Option<string>,
    zipCode: Option<string>,
    instrument: string,
    level: string,
    preferredClassType: string,
    preferredSchedule: Option<string>,
    hasMusicalExperience: bool,
    musicalExperience: Option<string>,
    questions: Option<string>,
    preRegistrationDate: Date,
    status: string,
    contactDate: Option<Date>,
    adminNotes: Option<string>,
    isProcessed: bool)

  const Pending := "Pendente"
  const Contacted := "Contatado"
  const Enrolled := "Matriculado"
  const Rejected := "Rejeitado"
  const DefaultLevel := "Iniciante"
  const DefaultClassType := "Individual"

  /** What the applicant fills in: every column the applicant owns. */
  datatype Request = Request(
    name: string, email: string, phone: string, birthDate: Option<Date>,
    parentName: Option<string>, parentEmail: Option<string>, parentPhone: Option<string>,
    address: Option<string>, neighborhood: Option<string>, city: Option<string>,
    state: Option<string>, zipCode: Option<string>, instrument: string, level: string,
    preferredClassType: string, preferredSchedule: Option<string>,
    hasMusicalExperience: bool, musicalExperience: Option<string>, questions: Option<string>)

  /** A row built from the request alone: the property initialisers give
      "Pendente", no contact date, no notes and not processed. */
  function FromRequest(req: Request, now: Date): (p: PreRegistration)
    ensures p.status == Pending && !p.isProcessed && p.contactDate.None? && p.adminNotes.None?
    ensures p.preRegistrationDate == now
    ensures AsRequest(p) == req
  {
    PreRegistration(req.name, req.email, req.phone, req.birthDate, req.parentName, req.parentEmail,
                    req.parentPhone, req.address, req.neighborhood, req.city, req.state, req.zipCode,
                    req.instrument, req.level, req.preferredClassType, req.preferredSchedule,
                    req.hasMusicalExperience, req.musicalExperience, req.questions,
                    now, Pending, None, None, false)
  }

  /** The applicant-owned columns of a row. */
  function AsRequest(p: PreRegistration): Request
  {
    Request(p.name, p.email, p.phone, p.birthDate, p.parentName, p.parentEmail, p.parentPhone,
            p.address, p.neighborhood, p.city, p.state, p.zipCode, p.instrument, p.level,
            p.preferredClassType, p.preferredSchedule, p.hasMusicalExperience,
            p.musicalExperience, p.questions)
  }

  /** A default form: only the required texts given, every option left alone. */
  function BlankRequest(name: string, email: string, phone: string, instrument: string): (r: Request)
    ensures r.level == DefaultLevel && r.preferredClassType == DefaultClassType && !r.hasMusicalExperience
  {
    Request(name, email, phone, None, None, None, None, None, None, None, None, None,
            instrument, DefaultLevel, DefaultClassType, None, false, None, None)
  }

  /** `MusicSchoolPreRegistrationResponseDto`: the id and every column. */
  datatype Response = Response(id: int, record: PreRegistration)

  /** `POST api/PreRegistration/music-school`: a body breaking an attribute
      of the request DTO gets the automatic 400; any other request is stored,
      whatever it says about status, and the answer echoes the stored row.
      The DTO's attributes are not part of this model, so `admissible`
      stands for them. */
  function CreatePreRegistration(t: Table<PreRegistration>, req: Request, now: Date,
                                 admissible: Request -> bool)
    : (res: Result<(Table<PreRegistration>, Response)>)
    requires ValidIds(t)
    ensures res.Failure? <==> !admissible(req)
    ensures res.Failure? ==> res.error == Invalid
    ensures res.Success? ==> var (u, resp) := res.value;
      ValidIds(u) && resp.id !in t.rows && u.rows == t.rows[resp.id := resp.record]
    ensures res.Success? ==> var p := res.value.1.record;
      AsRequest(p) == req && p.status == Pending && !p.isProcessed && p.contactDate.None?
      && p.adminNotes.None? && p.preRegistrationDate == now
  {
    if !admissible(req) then Failure(Invalid)
    else
      var p := FromRequest(req, now);
      var (u, id) := Add(t, p);
      Success((u, Response(id, p)))
  }

  /** The answer is exactly what a later read of the row returns. */
  lemma CreateEchoesStoredRow(t: Table<PreRegistration>, req: Request, now: Date, admissible: Request -> bool)
    requires ValidIds(t)
    ensures var res := CreatePreRegistration(t, req, now, admissible);
      res.Success? ==> Find(res.value.0, res.value.1.id) == Some(res.value.1.record)
  {
  }

  // ----------------------------------------------------------- option lists

  /** `GET api/PreRegistration/music-school/instruments`. */
  function Instruments(): (r: seq<string>)
    ensures |r| == 8 && Distinct(r)
    ensures "Piano" in r && "Canto" in r
  {
    ["Piano", "Violino", "Flauta", "Saxofone", "Trompete", "Clarinete", "Canto",
     "Musicalização Infantil (Bebês)"]
  }

  /** `GET api/PreRegistration/music-school/levels`. */
  function Levels(): (r: seq<string>)
    ensures |r| == 3 && Distinct(r) && r[0] == DefaultLevel
  {
    [DefaultLevel, "Intermediário", "Avançado"]
  }

  /** `GET api/PreRegistration/music-school/class-types`. */
  function ClassTypes(): (r: seq<string>)
    ensures |r| == 2 && Distinct(r) && r[0] == DefaultClassType
  {
    [DefaultClassType, "Grupo"]
  }

  /** A form left at its defaults offers a level and a class type the
      endpoints list. */
  lemma DefaultsAreOffered(name: string, email: string, phone: string, instrument: string)
    ensures BlankRequest(name, email, phone, instrument).level in Levels()
    ensures BlankRequest(name, email, phone, instrument).preferredClassType in ClassTypes()
  {
  }
}
