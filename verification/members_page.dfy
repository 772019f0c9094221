/** The members page: the checks and messages of the save dialog, the
    membership-type chip, the gender icon and the "Batizados" card. */
module MembersPage {
  import opened Common
  import opened Text
  import opened Dates
  import opened Counting
  import opened Tables
  import opened Forms
  import Members

  type Profile = Members.Profile

  // ------------------------------------------------------------ save dialog

  /** The required fields of the dialog, in the order they are reported. */
  function RequiredFields(p: Profile): seq<(string, string)>
  {
    [("Nome Completo", p.fullName), ("Email", p.email), ("Telefone", p.phone)]
  }

  /** `handleSave` before the request: the blank fields, then the email. */
  function Validate(p: Profile): (c: Check)
    ensures c.Send? <==> !JsBlank(p.fullName) && !JsBlank(p.email) && !JsBlank(p.phone) && EmailShape(p.email)
    ensures c.InvalidEmail? ==> !EmailShape(p.email)
  {
    Filled3(RequiredFields(p), JsBlank);
    CheckForm(RequiredFields(p), p.email)
  }

  /** The reported labels are those of the blank fields, in dialog order. */
  lemma ReportsBlankFieldsInOrder(p: Profile)
    ensures Validate(p).MissingFields? ==>
      Validate(p).labels == Labels(Filter(RequiredFields(p), BlankField))
  {
    MissingLabelsAreBlankFields(RequiredFields(p));
  }

  /** Each label is reported exactly when its field is blank. */
  lemma ReportedIffBlank(p: Profile, k: nat)
    requires k < 3
    ensures Validate(p).MissingFields? ==>
      (RequiredFields(p)[k].0 in Validate(p).labels <==> JsBlank(RequiredFields(p)[k].1))
  {
    assert Labels(RequiredFields(p)) == ["Nome Completo", "Email", "Telefone"];
    Forms.ReportedIffBlank(RequiredFields(p), k);
  }

  const AlreadyMember := "Já existe um membro cadastrado com este email."
  const SaveFallback := "Erro ao salvar membro."

  /** The `catch` of `handleSave`: 400, 409, anything else (a 500 included). */
  function SaveRules(): seq<(int, Shown)>
  {
    [(400, ServerOr(InvalidData)), (409, Fixed(AlreadyMember))]
  }

  function SaveBanner(f: Failure): string
  {
    Banner(f, SaveRules(), ServerOr(SaveFallback))
  }

  lemma SaveBannerCases(f: Failure)
    ensures f.Status() == Some(400) ==> SaveBanner(f) == OrElse(f.ServerMessage(), InvalidData)
    ensures f.Status() == Some(409) ==> SaveBanner(f) == AlreadyMember
    ensures f.Status() != Some(400) && f.Status() != Some(409) ==>
      SaveBanner(f) == OrElse(f.ServerMessage(), SaveFallback)
  {
    if f.Status() == Some(409) {
      BannerFirstMatch(f, SaveRules(), ServerOr(SaveFallback), 1);
    }
  }

  /** A save the controller rejects fails with 400 (bad body or duplicate
      email) or 404 (unknown id), never 409, and a duplicate shows the
      controller's own text. */
  lemma DuplicateShowsServerText(t: Table<Members.Member>, id: int, body: Profile)
    requires ValidIds(t)
    ensures Members.CreateMember(t, body).Failure? ==> Members.CreateMember(t, body).error.Status() == 400
    ensures Members.UpdateMember(t, id, body).Failure? ==>
      Members.UpdateMember(t, id, body).error.Status() in {400, 404}
    ensures SaveBanner(Duplicate) == EmailTaken
  {
    SaveBannerCases(Duplicate);
  }

  // ---------------------------------------------------------- chips, icons

  /** `getMembershipTypeColor`. */
  function MembershipColour(membershipType: string): (c: Tone)
    ensures c == ToneError <==> membershipType == "Pastor"
    ensures c == ToneWarning <==> membershipType == "Presbítero"
    ensures c == ToneInfo <==> membershipType == "Diácono"
    ensures c == ToneSuccess <==> membershipType == "Membro"
    ensures c == TonePrimary <==> membershipType == "Congregado"
    ensures c in {ToneError, ToneWarning, ToneInfo, ToneSuccess, TonePrimary, ToneDefault}
  {
    match membershipType
    case "Pastor" => ToneError
    case "Presbítero" => ToneWarning
    case "Diácono" => ToneInfo
    case "Membro" => ToneSuccess
    case "Congregado" => TonePrimary
    case _ => ToneDefault
  }

  /** Of the membership types the API offers, all but "Visitante" get a chip
      colour of their own; a visitor's chip is plain, and so is any type the
      API does not list.  A new member's default type is green. */
  lemma MembershipColoursOfOfferedTypes()
    ensures forall i, j | 1 <= i < j < 6 ::
      MembershipColour(Members.MembershipTypes[i]) != MembershipColour(Members.MembershipTypes[j])
    ensures forall i | 1 <= i < 6 :: MembershipColour(Members.MembershipTypes[i]) != ToneDefault
    ensures MembershipColour(Members.MembershipTypes[0]) == ToneDefault
    ensures MembershipColour(Members.DefaultMembershipType) == ToneSuccess
  {
    var ts := Members.MembershipTypes;
    assert MembershipColour(ts[1]) == TonePrimary && MembershipColour(ts[2]) == ToneSuccess;
    assert MembershipColour(ts[3]) == ToneInfo && MembershipColour(ts[4]) == ToneWarning;
    assert MembershipColour(ts[5]) == ToneError;
  }

  const ManIcon := "\U{1F468}"
  const WomanIcon := "\U{1F469}"
  const PersonIcon := "\U{1F464}"

  /** `getGenderIcon`: three-way on the exact text. */
  function GenderIcon(gender: string): (icon: string)
    ensures icon == ManIcon <==> gender == "Masculino"
    ensures icon == WomanIcon <==> gender == "Feminino"
    ensures icon == PersonIcon <==> gender != "Masculino" && gender != "Feminino"
  {
    if gender == "Masculino" then ManIcon else if gender == "Feminino" then WomanIcon else PersonIcon
  }

  /** The three genders the API offers get three different icons; the
      default "Não informado" gets the neutral one. */
  lemma GenderIconsOfOfferedGenders()
    ensures forall i, j | 0 <= i < j < 3 ::
      GenderIcon(Members.Genders[i]) != GenderIcon(Members.Genders[j])
    ensures GenderIcon(Members.NotInformed) == PersonIcon
  {
    var gs := Members.Genders;
    assert GenderIcon(gs[0]) == ManIcon && GenderIcon(gs[1]) == WomanIcon && GenderIcon(gs[2]) == PersonIcon;
  }

  // ------------------------------------------------------------ baptism card

  /** The "Batizados" card: the water-baptised plus those with both
      baptisms, leaving out the Spirit-only ones. */
  function BaptisedCard(s: Members.Stats): nat
    requires |s.baptism| == 4
  {
    s.baptism[1] + s.baptism[3]
  }

  predicate WaterBaptised(m: Members.Member)
  {
    m.profile.baptismStatus == Some("Batizado nas águas") || m.profile.baptismStatus == Some("Ambos")
  }

  predicate WaterOnly(m: Members.Member) { m.profile.baptismStatus == Some("Batizado nas águas") }
  predicate Both(m: Members.Member) { m.profile.baptismStatus == Some("Ambos") }

  /** The card counts exactly the active members whose status is "Batizado
      nas águas" or "Ambos". */
  lemma BaptisedCardCounts(t: Table<Members.Member>, today: Date)
    requires ValidIds(t)
    ensures BaptisedCard(Members.GetStats(t, today)) == Count(Members.ActiveMembers(t), WaterBaptised)
  {
    CardOfTallies(Members.GetStats(t, today), Members.ActiveMembers(t));
  }

  /** A card built from the tallies of a list counts its water-baptised. */
  lemma CardOfTallies(s: Members.Stats, active: seq<Members.Member>)
    requires |s.baptism| == 4
    requires forall i | 0 <= i < 4 :: s.baptism[i] == multiset(Select(active, Members.BaptismStatusOf))[Members.BaptismStatuses[i]]
    ensures BaptisedCard(s) == Count(active, WaterBaptised)
  {
    assert s.baptism[1] == multiset(Select(active, Members.BaptismStatusOf))[Some("Batizado nas águas")];
    assert s.baptism[3] == multiset(Select(active, Members.BaptismStatusOf))[Some("Ambos")];
    TallyIsCount(active, Members.BaptismStatusOf, Some("Batizado nas águas"), WaterOnly);
    TallyIsCount(active, Members.BaptismStatusOf, Some("Ambos"), Both);
    CountUnion(active, WaterOnly, Both, WaterBaptised);
  }
}
