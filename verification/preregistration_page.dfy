/** The public pre-registration page of the music school: the form, the age
    it computes from the birth date, the guardian section it shows for a
    minor, the reset after a successful submission and the error message. */
module PreRegistrationPage {
  import opened Common
  import opened Dates
  import opened Tables
  import opened Forms
  import PreRegistrations

  /** The form's state. The birth date is `None` while the date input is
      empty; the other texts are "" until typed. */
  datatype Form = Form(
    name: string, email: string, phone: string, birthDate: Option<Date>,
    parentName: string, parentEmail: string, parentPhone: string,
    instrument: string, level: string, preferredClassType: string, preferredSchedule: string,
    hasMusicalExperience: bool, musicalExperience: string, questions: string)

  /** The form the page opens with: every text empty, the level and class
      type at the defaults of the entity. */
  const InitialForm := Form("", "", "", None, "", "", "", "", PreRegistrations.DefaultLevel,
                            PreRegistrations.DefaultClassType, "", false, "", "")

  /** The form after `handleSubmit`: the reset writes its own copy of the
      initial values after a stored submission; a failed one keeps what the
      applicant typed. */
  function AfterSubmit(f: Form, stored: bool): (g: Form)
    ensures stored ==> g == InitialForm
    ensures !stored ==> g == f
  {
    if stored then Form("", "", "", None, "", "", "", "", "Iniciante", "Individual", "", false, "", "")
    else f
  }

  /** The body the page posts: the texts as typed, the optional ones sent
      even when empty; the address fields are not on the form and stay
      absent. */
  function Request(f: Form): PreRegistrations.Request
  {
    PreRegistrations.Request(f.name, f.email, f.phone, f.birthDate, Some(f.parentName),
                             Some(f.parentEmail), Some(f.parentPhone), None, None, None, None, None,
                             f.instrument, f.level, f.preferredClassType, Some(f.preferredSchedule),
                             f.hasMusicalExperience, Some(f.musicalExperience), Some(f.questions))
  }

  /** A submission the request's attributes admit is stored with the
      applicant's answers, pending and unprocessed, and a form left at its
      defaults offers a level and a class type the option endpoints list. */
  lemma SubmissionStoresAnswers(t: Table<PreRegistrations.PreRegistration>, f: Form, now: Date,
                                admissible: PreRegistrations.Request -> bool)
    requires ValidIds(t)
    ensures var r := PreRegistrations.CreatePreRegistration(t, Request(f), now, admissible);
      r.Success? <==> admissible(Request(f))
    ensures var r := PreRegistrations.CreatePreRegistration(t, Request(f), now, admissible);
      r.Success? ==> var p := r.value.1.record;
      p.name == f.name && p.email == f.email && p.phone == f.phone && p.birthDate == f.birthDate
      && p.parentName == Some(f.parentName) && p.instrument == f.instrument
      && p.level == f.level && p.preferredClassType == f.preferredClassType
      && p.address.None? && p.status == PreRegistrations.Pending && !p.isProcessed
    ensures InitialForm.level in PreRegistrations.Levels()
    ensures InitialForm.preferredClassType in PreRegistrations.ClassTypes()
  {
    PreRegistrations.DefaultsAreOffered("", "", "", "");
  }

  const SubmitFallback := "Erro ao enviar pré-matrícula"

  /** The `catch` of `handleSubmit`: the server's message or the fallback,
      whatever the status. */
  function SubmitBanner(failure: Failure): (r: string)
    ensures r == OrElse(failure.ServerMessage(), SubmitFallback)
    ensures failure.NoResponse? ==> r == SubmitFallback
  {
    Banner(failure, [], ServerOr(SubmitFallback))
  }

  /** The only refusal is the automatic 400, whose body has no `message`,
      so the page shows its fallback. */
  lemma RejectedSubmissionShowsFallback(t: Table<PreRegistrations.PreRegistration>, f: Form, now: Date,
                                        admissible: PreRegistrations.Request -> bool)
    requires ValidIds(t)
    ensures var r := PreRegistrations.CreatePreRegistration(t, Request(f), now, admissible);
      r.Failure? ==> r.error == Invalid && SubmitBanner(Bodyless(r.error)) == SubmitFallback
  {
  }

  // ------------------------------------------------------------------- age

  /** `calculateAge`: no age without a birth date, otherwise the year
      difference less one before this year's birthday. */
  function CalculateAge(birth: Option<Date>, today: Date): (age: Option<int>)
    ensures age.None? <==> birth.None?
    ensures age.Some? ==>
      today.year - birth.value.year - 1 <= age.value <= today.year - birth.value.year
  {
    if birth.None? then None else Some(BrowserAge(birth.value, today))
  }

  /** The value `isMinor` holds: `false` without a birth date, otherwise
      `age && age < 18`, which is the number 0 for an age of 0. */
  datatype MinorValue = No | Yes | Zero

  function MinorFlag(birth: Option<Date>, today: Date): (v: MinorValue)
    ensures v == Yes <==>
      birth.Some? && BrowserAge(birth.value, today) != 0 && BrowserAge(birth.value, today) < 18
    ensures v == Zero <==> birth.Some? && BrowserAge(birth.value, today) == 0
  {
    match CalculateAge(birth, today)
    case None => No
    case Some(age) => if age == 0 then Zero else if age < 18 then Yes else No
  }

  /** What `{isMinor && (…)}` puts on the page: nothing, the guardian
      section, or the text "0" that React renders for the number 0. */
  datatype Area = Nothing | GuardianSection | ZeroText

  /** The guardian area as written: the section for ages 1 to 17 and for a
      birth date in the future; a child under one gets a stray "0" and no
      guardian fields. */
  function GuardianArea(birth: Option<Date>, today: Date): (a: Area)
    ensures a == GuardianSection <==>
      birth.Some? && (BrowserAge(birth.value, today) < 0 || 1 <= BrowserAge(birth.value, today) < 18)
    ensures a == ZeroText <==> birth.Some? && BrowserAge(birth.value, today) == 0
  {
    match MinorFlag(birth, today)
    case No => Nothing
    case Yes => GuardianSection
    case Zero => ZeroText
  }

  /** The guardian area as evidently intended: the section for every age
      under 18, never a stray "0". */
  function IntendedGuardianArea(birth: Option<Date>, today: Date): (a: Area)
    ensures a != ZeroText
    ensures a == GuardianSection <==> birth.Some? && BrowserAge(birth.value, today) < 18
  {
    if birth.Some? && BrowserAge(birth.value, today) < 18 then GuardianSection else Nothing
  }

  /** The two differ exactly for a child not yet one year old. */
  lemma GuardianAreasDiffer(birth: Option<Date>, today: Date)
    ensures GuardianArea(birth, today) != IntendedGuardianArea(birth, today) <==>
      birth.Some? && BrowserAge(birth.value, today) == 0
  {
  }

  /** A baby born on 1 January 2026, registered on 10 October 2026, gets a
      "0" on the page instead of the guardian's fields. */
  lemma InfantShowsZero()
    ensures GuardianArea(Some(Date(2026, 1, 1)), Date(2026, 10, 10)) == ZeroText
    ensures IntendedGuardianArea(Some(Date(2026, 1, 1)), Date(2026, 10, 10)) == GuardianSection
  {
    assert BrowserAge(Date(2026, 1, 1), Date(2026, 10, 10)) == 0;
  }

  /** For valid dates the page's minority follows the server's age rule,
      except on 28 February of a common year for a child born on
      29 February, whose 18th birthday the page sees a day late. */
  lemma IntendedMinorIsServerMinor(birth: Date, today: Date)
    requires Valid(birth) && Valid(today)
    requires !(birth.month == 2 && birth.day == 29 && today.month == 2 && today.day == 28 && !IsLeap(today.year))
    ensures IntendedGuardianArea(Some(birth), today) == GuardianSection <==> Age(birth, today) < 18
  {
    BrowserAgeVersusServerAge(birth, today);
  }
}
