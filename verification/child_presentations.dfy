/** Child presentations: the presentation record, its declared constraints
    and defaults, the controller's list, get, create, update and soft delete,
    the statistics endpoint and the DTO's `AgeInMonths`.  The clock is a
    parameter; dates carry no time of day. */
module ChildPresentations {
  import opened Common
  import opened Dates
  import opened Annotations
  import opened Counting
  import opened Tables
  import opened Sorting

  /** The columns `ChildPresentationDto` carries besides the id and the
      certificate flag: create copies them all, update overwrites them all. */
  datatype Fields = Fields(
    childName: string,
    birthDate: CalendarDate,
    gender: string,
    birthPlace: Option<string>,
    fatherName: string,
    fatherProfession: Option<string>,
    motherName: string,
    motherProfession: Option<string>,
    presentationDate: CalendarDate,
    pastor: string,
    biblicalVerse: Option<string>,
    specialMessage: Option<string>,
    address: Option<string>,
    city: Option<string>,
    phone: Option<string>,
    email: Option<string>,
    churchName: string,
    churchAddress: Option<string>,
    notes: Option<string>)

  /** A row of `ChildPresentations`: the fields plus the columns only the
      server writes. */
  datatype Presentation = Presentation(
    fields: Fields,
    certificateGenerated: bool,
    certificatePath: Option<string>,
    createdAt: Date,
    isActive: bool)

  /** The request body: the fields and the certificate flag the client may
      send (and the server ignores). */
  datatype Dto = Dto(fields: Fields, certificateGenerated: bool)

  const Boy := "Masculino"
  const Girl := "Feminino"
  const DefaultVerse := "\"Deixai vir a mim os pequeninos\" - Mateus 19:14"
  const DefaultChurch := "Igreja"

  predicate IsActive(p: Presentation) { p.isActive }
  predicate IsInactive(p: Presentation) { !p.isActive }

  /** The attributes `ChildPresentationDto` declares; `[Required]` on the two
      dates holds for any date the body can carry. */
  predicate Admissible(f: Fields)
  {
    Required(f.childName) && LengthAtMost(f.childName, 100)
    && Required(f.gender) && LengthAtMost(f.gender, 20)
    && MaxLen(f.birthPlace, 50)
    && Required(f.fatherName) && LengthAtMost(f.fatherName, 100) && MaxLen(f.fatherProfession, 50)
    && Required(f.motherName) && LengthAtMost(f.motherName, 100) && MaxLen(f.motherProfession, 50)
    && Required(f.pastor) && LengthAtMost(f.pastor, 100)
    && MaxLen(f.biblicalVerse, 200) && MaxLen(f.specialMessage, 500)
    && MaxLen(f.address, 200) && MaxLen(f.city, 50) && MaxLen(f.phone, 20)
    && (f.email.None? || EmailAddress(f.email.value)) && MaxLen(f.email, 100)
    && LengthAtMost(f.churchName, 100) && MaxLen(f.churchAddress, 200)
  }

  /** A path is stored exactly when a certificate was generated. */
  predicate CertificateConsistent(p: Presentation)
  {
    p.certificateGenerated <==> p.certificatePath.Some?
  }

  /** The presentations table between requests. */
  predicate StoreInv(t: Table<Presentation>)
  {
    ValidIds(t) && forall id | id in t.rows :: CertificateConsistent(t.rows[id])
  }

  /** A blank form: the required texts and dates given, every property
      initialiser left alone. */
  function NewFields(child: string, birth: CalendarDate, gender: string, father: string, mother: string,
                     presented: CalendarDate, pastor: string): (f: Fields)
    ensures f.biblicalVerse == Some(DefaultVerse) && f.churchName == DefaultChurch
    ensures f.specialMessage.None? && f.churchAddress.None? && f.email.None?
    ensures Admissible(f) <==>
      Required(child) && LengthAtMost(child, 100) && Required(gender) && LengthAtMost(gender, 20)
      && Required(father) && LengthAtMost(father, 100) && Required(mother) && LengthAtMost(mother, 100)
      && Required(pastor) && LengthAtMost(pastor, 100)
  {
    Fields(child, birth, gender, None, father, None, mother, None, presented, pastor,
           Some(DefaultVerse), None, None, None, None, None, DefaultChurch, None, None)
  }

  /** A new row: active, no certificate, created now. */
  function NewPresentation(f: Fields, now: Date): (p: Presentation)
    ensures p.isActive && !p.certificateGenerated && p.certificatePath.None?
    ensures CertificateConsistent(p) && p.fields == f && p.createdAt == now
  {
    Presentation(f, false, None, now, true)
  }

  // --------------------------------------------------------------- endpoints

  predicate Listed(includeInactive: bool, p: Presentation)
  {
    includeInactive || p.isActive
  }

  function PresentationDateOf(p: Presentation): Date { p.fields.presentationDate }

  /** `GET api/ChildPresentation?includeInactive=…`: the active rows, or all
      of them when asked, each once with its id, latest presentation first. */
  function GetPresentations(t: Table<Presentation>, includeInactive: bool): (r: seq<(int, Presentation)>)
    requires ValidIds(t)
    ensures forall i, j | 0 <= i < j < |r| ::
      !Before(r[i].1.fields.presentationDate, r[j].1.fields.presentationDate)
    ensures forall i | 0 <= i < |r| :: r[i].0 in t.rows && r[i].1 == t.rows[r[i].0] && Listed(includeInactive, r[i].1)
    ensures forall id | id in t.rows && Listed(includeInactive, t.rows[id]) :: exists i | 0 <= i < |r| :: r[i].0 == id
    ensures forall i, j | 0 <= i < j < |r| :: r[i].0 != r[j].0
    ensures |r| == if includeInactive then |t.rows| else CountRows(t, IsActive)
  {
    LaterOrSameIsTotalPreorder();
    var keep := ListedBy(includeInactive, IsActive);
    assert forall x: Presentation :: keep(x) == Listed(includeInactive, x);
    ListedCount(t, includeInactive, IsActive);
    ListRows(t, keep, PresentationDateOf, LaterOrSame)
  }

  /** `GET api/ChildPresentation/{id}`: inactive rows too; 404 only for an
      id never stored. */
  function GetPresentation(t: Table<Presentation>, id: int): (res: Result<Presentation>)
    ensures res.Success? <==> id in t.rows
    ensures res.Success? ==> res.value == t.rows[id]
    ensures res.Failure? ==> res.error == NotFound("")
  {
    if id in t.rows then Success(t.rows[id]) else Failure(NotFound(""))
  }

  /** `POST api/ChildPresentation`: 400 for a body breaking a declared
      constraint; otherwise a new active row without certificate, whatever
      the body says about one.  No email check: emails may repeat. */
  function CreatePresentation(t: Table<Presentation>, dto: Dto, now: Date): (res: Result<(Table<Presentation>, int)>)
    requires ValidIds(t)
    ensures res.Failure? <==> !Admissible(dto.fields)
    ensures res.Failure? ==> res.error == Invalid
    ensures res.Success? ==>
      var (u, id) := res.value;
      ValidIds(u) && id !in t.rows && u.rows == t.rows[id := Presentation(dto.fields, false, None, now, true)]
    ensures res.Success? && StoreInv(t) ==> StoreInv(res.value.0)
  {
    if !Admissible(dto.fields) then Failure(Invalid)
    else Success(Add(t, NewPresentation(dto.fields, now)))
  }

  /** The 201 answer: the request body with the new id, echoed as sent. */
  function CreatedBody(dto: Dto, id: int): (r: (int, Dto))
    ensures r.0 == id && r.1 == dto
  {
    (id, dto)
  }

  /** The 201 answer shows the stored fields under the stored id, but its
      certificate flag is the client's: it differs from the stored `false`
      exactly when the client sent `true`. */
  lemma CreatedBodyEchoesStoredFields(t: Table<Presentation>, dto: Dto, now: Date)
    requires ValidIds(t)
    ensures var res := CreatePresentation(t, dto, now);
      res.Success? ==>
        var body := CreatedBody(dto, res.value.1);
        Find(res.value.0, body.0).Some?
        && Find(res.value.0, body.0).value.fields == body.1.fields
        && (body.1.certificateGenerated != Find(res.value.0, body.0).value.certificateGenerated <==> dto.certificateGenerated)
  {
  }

  /** `PUT api/ChildPresentation/{id}`: 400 for a bad body, 404 for an unknown
      id (active or not); otherwise the fields are overwritten and the
      certificate columns, the creation time and the active flag stay. */
  function UpdatePresentation(t: Table<Presentation>, id: int, dto: Dto): (res: Result<Table<Presentation>>)
    ensures !Admissible(dto.fields) ==> res == Failure(Invalid)
    ensures Admissible(dto.fields) ==> (res.Failure? <==> id !in t.rows)
    ensures Admissible(dto.fields) && res.Failure? ==> res.error == NotFound("")
    ensures res.Success? ==>
      id in t.rows && res.value == Table(t.rows[id := t.rows[id].(fields := dto.fields)], t.nextId)
    ensures res.Success? && StoreInv(t) ==> StoreInv(res.value)
  {
    if !Admissible(dto.fields) then Failure(Invalid)
    else if id !in t.rows then Failure(NotFound(""))
    else Success(Table(t.rows[id := t.rows[id].(fields := dto.fields)], t.nextId))
  }

  function Deactivate(p: Presentation): Presentation { p.(isActive := false) }

  /** `DELETE api/ChildPresentation/{id}`: a soft delete. */
  function DeletePresentation(t: Table<Presentation>, id: int): (res: Result<Table<Presentation>>)
    ensures res.Failure? <==> id !in t.rows
    ensures res.Failure? ==> res.error == NotFound("")
    ensures res.Success? ==> res.value == Table(t.rows[id := t.rows[id].(isActive := false)], t.nextId)
    ensures res.Success? && StoreInv(t) ==> StoreInv(res.value)
  {
    Modify(t, id, Deactivate)
  }

  /** No write but certificate generation ever sets the certificate
      columns: create starts without one, update and delete keep them. */
  lemma WritesKeepCertificate(t: Table<Presentation>, id: int, dto: Dto)
    requires ValidIds(t) && id in t.rows
    ensures var u := UpdatePresentation(t, id, dto);
      u.Success? ==> u.value.rows[id].certificateGenerated == t.rows[id].certificateGenerated
                     && u.value.rows[id].certificatePath == t.rows[id].certificatePath
                     && u.value.rows[id].createdAt == t.rows[id].createdAt
                     && u.value.rows[id].isActive == t.rows[id].isActive
    ensures var d := DeletePresentation(t, id).value;
      d.rows[id].certificateGenerated == t.rows[id].certificateGenerated
      && d.rows[id].certificatePath == t.rows[id].certificatePath
      && d.rows[id].fields == t.rows[id].fields && !d.rows[id].isActive
  {
  }

  /** Updating twice with one body is updating once. */
  lemma UpdateIdempotent(t: Table<Presentation>, id: int, dto: Dto)
    requires UpdatePresentation(t, id, dto).Success?
    ensures UpdatePresentation(UpdatePresentation(t, id, dto).value, id, dto) == UpdatePresentation(t, id, dto)
  {
    var u := UpdatePresentation(t, id, dto).value;
    assert u.rows[id := u.rows[id].(fields := dto.fields)] == u.rows;
  }

  // -------------------------------------------------------------- statistics

  /** The statistics of `GET api/ChildPresentation/stats`; `monthly` lists
      January to December. */
  datatype Stats = Stats(
    total: nat, thisYear: nat, thisMonth: nat,
    boys: nat, girls: nat,
    under1Year: nat, age1to2: nat, age3to5: nat, over5Years: nat,
    monthly: seq<nat>,
    certificatesGenerated: nat, pendingCertificates: nat)

  predicate IsBoy(p: Presentation) { p.fields.gender == Boy }
  predicate IsGirl(p: Presentation) { p.fields.gender == Girl }
  predicate HasCertificate(p: Presentation) { p.certificateGenerated }
  predicate LacksCertificate(p: Presentation) { !p.certificateGenerated }
  function MonthOf(p: Presentation): int { p.fields.presentationDate.month }

  /** Presented in year `y`. */
  function InYear(y: int): Presentation -> bool
  {
    (p: Presentation) => p.fields.presentationDate.year == y
  }

  /** Presented in month `m` of year `y`. */
  function InMonth(y: int, m: int): Presentation -> bool
  {
    (p: Presentation) => p.fields.presentationDate.year == y && p.fields.presentationDate.month == m
  }

  /** Days from the birth date to `today`; negative for a future birth. */
  function DaysOld(p: Presentation, today: CalendarDate): int
  {
    DaysBetween(p.fields.birthDate, today)
  }

  /** The four age tests, exactly as the endpoint writes them. */
  function Under1Year(today: CalendarDate): Presentation -> bool
  {
    (p: Presentation) => DaysOld(p, today) < 365
  }

  function Age1to2(today: CalendarDate): Presentation -> bool
  {
    (p: Presentation) => DaysOld(p, today) >= 365 && DaysOld(p, today) < 1095
  }

  function Age3to5(today: CalendarDate): Presentation -> bool
  {
    (p: Presentation) => DaysOld(p, today) >= 1095 && DaysOld(p, today) < 2190
  }

  function Over5Years(today: CalendarDate): Presentation -> bool
  {
    (p: Presentation) => DaysOld(p, today) >= 2190
  }

  /** January to December. */
  const Months: seq<int> := seq(12, i => i + 1)

  /** The histogram over the months of the presentation date, any year. */
  function MonthCounts(ps: seq<Presentation>): (r: seq<nat>)
    ensures |r| == 12 && Sum(r) == |ps|
    ensures forall i | 0 <= i < 12 :: r[i] == multiset(Select(ps, MonthOf))[i + 1]
  {
    MonthsListed(ps);
    Distribution(Select(ps, MonthOf), Months)
  }

  /** The twelve months are distinct and every presentation month is one. */
  lemma MonthsListed(ps: seq<Presentation>)
    ensures Distinct(Months)
    ensures forall i | 0 <= i < |ps| :: Select(ps, MonthOf)[i] in Months
  {
    forall i | 0 <= i < |ps| ensures Select(ps, MonthOf)[i] in Months {
      var m := ps[i].fields.presentationDate.month;
      assert Months[m - 1] == m;
    }
  }

  /** The active rows in id order: what `Where(cp => cp.IsActive)` loads. */
  function Actives(t: Table<Presentation>): (r: seq<Presentation>)
    requires ValidIds(t)
    ensures |r| == CountRows(t, IsActive)
    ensures forall i | 0 <= i < |r| :: r[i].isActive
  {
    Filter(Values(Rows(t)), IsActive)
  }

  /** `GET api/ChildPresentation/stats` on `today`: every figure counts
      active rows only. */
  function GetStats(t: Table<Presentation>, today: CalendarDate): (r: Stats)
    requires ValidIds(t)
    ensures r.total == CountRows(t, IsActive)
    ensures |r.monthly| == 12 && Sum(r.monthly) == r.total
    ensures var a := Actives(t);
      r.thisYear == Count(a, InYear(today.year)) && r.thisMonth == Count(a, InMonth(today.year, today.month))
      && r.boys == Count(a, IsBoy) && r.girls == Count(a, IsGirl)
      && r.under1Year == Count(a, Under1Year(today)) && r.age1to2 == Count(a, Age1to2(today))
      && r.age3to5 == Count(a, Age3to5(today)) && r.over5Years == Count(a, Over5Years(today))
      && r.certificatesGenerated == Count(a, HasCertificate)
      && (forall i | 0 <= i < 12 :: r.monthly[i] == multiset(Select(a, MonthOf))[i + 1])
    ensures r.thisMonth <= r.thisYear <= r.total
    ensures r.boys + r.girls <= r.total
    ensures r.under1Year + r.age1to2 + r.age3to5 + r.over5Years == r.total
    ensures r.certificatesGenerated + r.pendingCertificates == r.total
  {
    var a := Actives(t);
    StatsBounds(a, today);
    Stats(|a|, Count(a, InYear(today.year)), Count(a, InMonth(today.year, today.month)),
          Count(a, IsBoy), Count(a, IsGirl),
          Count(a, Under1Year(today)), Count(a, Age1to2(today)), Count(a, Age3to5(today)),
          Count(a, Over5Years(today)),
          MonthCounts(a),
          Count(a, HasCertificate), Count(a, LacksCertificate))
  }

  /** The relations between the counts over any list of presentations. */
  lemma StatsBounds(a: seq<Presentation>, today: CalendarDate)
    ensures Count(a, InMonth(today.year, today.month)) <= Count(a, InYear(today.year)) <= |a|
    ensures Count(a, IsBoy) + Count(a, IsGirl) <= |a|
    ensures Count(a, Under1Year(today)) + Count(a, Age1to2(today))
            + Count(a, Age3to5(today)) + Count(a, Over5Years(today)) == |a|
    ensures Count(a, HasCertificate) + Count(a, LacksCertificate) == |a|
  {
    CountMonotone(a, InMonth(today.year, today.month), InYear(today.year));
    CountDisjoint(a, IsBoy, IsGirl);
    CountPartition4(a, Under1Year(today), Age1to2(today), Age3to5(today), Over5Years(today));
    CountComplement(a, HasCertificate, LacksCertificate);
  }

  /** A birth date after `today` lands in the youngest bucket. */
  lemma FutureBirthIsUnder1Year(p: Presentation, today: CalendarDate)
    requires Before(today, p.fields.birthDate)
    ensures Under1Year(today)(p)
  {
    DayNumberMonotone(today, p.fields.birthDate);
  }

  // -------------------------------------------------------------------- DTO

  /** `ChildPresentationDto.AgeInMonths` of a stored row. */
  function RowAgeInMonths(p: Presentation, today: Date): (r: Option<int>)
    ensures r.None? <==> p.fields.birthDate == MinValue
    ensures r.Some? && today.year == p.fields.birthDate.year && today.month == p.fields.birthDate.month ==>
      r.value == 0
    ensures r.Some? && Valid(today) ==>
      (r.value < 0 <==> Before(Date(today.year, today.month, 1), Date(p.fields.birthDate.year, p.fields.birthDate.month, 1)))
  {
    AgeInMonths(p.fields.birthDate, today)
  }
}
