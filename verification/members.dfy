/** Church membership: the member profile, the family members attached to a
    member, the members controller (list, get, create, update, soft delete,
    photo upload, statistics, family add/update/remove) and the DTO facts
    (declared constraints, defaults, the nullable `Age`).  The clock, the
    GUID of an upload and the uploaded file's bytes are parameters. */
module Members {
  import opened Common
  import opened Text
  import opened Dates
  import opened Annotations
  import opened Counting
  import opened Tables
  import opened Sorting

  /** Every column `MemberDto` carries besides the id; create copies all of
      them into a new row and update overwrites all of them. */
  datatype Profile = Profile(
    fullName: string,
    cpf: Option<string>,
    rg: Option<string>,
    birthDate: Option<Date>,
    gender: string,
    maritalStatus: string,
    profession: Option<string>,
    education: Option<string>,
    photoPath: Option<string>,
    email: string,
    phone: string,
    alternativePhone: Option<string>,
    address: Option<string>,
    neighborhood: Option<string>,
    city: Option<string>,
    state: Option<string>,
    zipCode: Option<string>,
    membershipDate: Date,
    membershipType: string,
    baptismStatus: Option<string>,
    baptismDate: Option<Date>,
    baptismLocation: Option<string>,
    previousChurch: Option<string>,
    ministry: Option<string>,
    cellGroup: Option<string>,
    leadershipPosition: Option<string>,
    notes: Option<string>,
    emergencyContactName: Option<string>,
    emergencyContactPhone: Option<string>,
    emergencyContactRelationship: Option<string>)

  /** A row of the members table: the profile and the soft-delete flag. */
  datatype Member = Member(profile: Profile, isActive: bool)

  /** The columns of a family member the request body supplies. */
  datatype Relative = Relative(
    name: string,
    relationship: string,
    birthDate: Option<Date>,
    phone: Option<string>,
    email: Option<string>,
    isChurchMember: bool,
    churchMemberId: Option<int>,
    notes: Option<string>)

  /** A row of the family-members table, owned by the member `memberId`. */
  datatype FamilyMember = FamilyMember(memberId: int, info: Relative)

  function EmailOf(m: Member): string { m.profile.email }
  function FullNameOf(m: Member): string { m.profile.fullName }
  predicate IsActive(m: Member) { m.isActive }
  predicate IsInactive(m: Member) { !m.isActive }

  // ------------------------------------------------------------- constraints

  /** The attributes `MemberDto` declares, checked on every create and update. */
  predicate Admissible(p: Profile)
  {
    Required(p.fullName) && LengthAtMost(p.fullName, 100)
    && MaxLen(p.cpf, 14) && MaxLen(p.rg, 20)
    && LengthAtMost(p.gender, 20) && LengthAtMost(p.maritalStatus, 20)
    && MaxLen(p.profession, 50) && MaxLen(p.education, 50)
    && Required(p.email) && EmailAddress(p.email) && LengthAtMost(p.email, 100)
    && Required(p.phone) && LengthAtMost(p.phone, 20)
    && MaxLen(p.alternativePhone, 20) && MaxLen(p.address, 200)
    && MaxLen(p.neighborhood, 50) && MaxLen(p.city, 50)
    && MaxLen(p.state, 2) && MaxLen(p.zipCode, 10)
    && LengthAtMost(p.membershipType, 50) && MaxLen(p.baptismStatus, 50)
    && MaxLen(p.baptismLocation, 100) && MaxLen(p.previousChurch, 100)
    && MaxLen(p.ministry, 50) && MaxLen(p.cellGroup, 50) && MaxLen(p.leadershipPosition, 50)
    && MaxLen(p.emergencyContactName, 100) && MaxLen(p.emergencyContactPhone, 20)
    && MaxLen(p.emergencyContactRelationship, 50)
  }

  predicate MemberOk(m: Member) { Admissible(m.profile) }

  /** The attributes `FamilyMemberDto` declares. */
  predicate RelativeOk(r: Relative)
  {
    Required(r.name) && LengthAtMost(r.name, 100)
    && Required(r.relationship) && LengthAtMost(r.relationship, 50)
    && MaxLen(r.phone, 20) && MaxLen(r.email, 100)
  }

  /** The members table between requests: identity ids, one row per email
      (kept by the controller's own checks; no index declares it) and only
      rows that passed validation. */
  predicate StoreInv(t: Table<Member>)
  {
    Inv(t, EmailOf, MemberOk)
  }

  /** Every family member belongs to a stored member and passed validation. */
  predicate FamilyInv(t: Table<Member>, fam: Table<FamilyMember>)
  {
    ValidIds(fam)
    && forall k | k in fam.rows :: fam.rows[k].memberId in t.rows && RelativeOk(fam.rows[k].info)
  }

  // ---------------------------------------------------------------- defaults

  const NotInformed := "Não informado"
  const Single := "Solteiro(a)"
  const DefaultMembershipType := "Membro"
  const NotBaptised := "Não batizado"

  /** A profile bound from a body naming only the required fields: the other
      properties keep the DTO's initialisers. */
  function NewProfile(fullName: string, email: string, phone: string, now: Date): (p: Profile)
    ensures p.gender == NotInformed && p.maritalStatus == Single && p.city == Some(NotInformed)
    ensures p.membershipType == DefaultMembershipType && p.baptismStatus == Some(NotBaptised)
    ensures p.membershipDate == now && p.birthDate.None? && p.photoPath.None?
    ensures Admissible(p) <==>
      Required(fullName) && LengthAtMost(fullName, 100) && Required(email) && EmailAddress(email)
      && LengthAtMost(email, 100) && Required(phone) && LengthAtMost(phone, 20)
  {
    Profile(fullName, None, None, None, NotInformed, Single, None, None, None, email, phone, None,
            None, None, Some(NotInformed), None, None, now, DefaultMembershipType, Some(NotBaptised),
            None, None, None, None, None, None, None, None, None, None)
  }

  // ------------------------------------------------------------- endpoints

  /** Whether the listing shows `m`. */
  predicate Listed(includeInactive: bool, m: Member)
  {
    includeInactive || m.isActive
  }

  /** `GET api/Members?includeInactive=…`: the active members, or every
      member when asked, each once with its id, ordered by full name under
      the database's collation (any total preorder on names). */
  function GetMembers(t: Table<Member>, includeInactive: bool, collation: (string, string) -> bool)
    : (r: seq<(int, Member)>)
    requires ValidIds(t) && TotalPreorder(collation)
    ensures forall i, j | 0 <= i < j < |r| :: collation(r[i].1.profile.fullName, r[j].1.profile.fullName)
    ensures forall i | 0 <= i < |r| :: r[i].0 in t.rows && r[i].1 == t.rows[r[i].0] && Listed(includeInactive, r[i].1)
    ensures forall id | id in t.rows && Listed(includeInactive, t.rows[id]) :: exists i | 0 <= i < |r| :: r[i].0 == id
    ensures forall i, j | 0 <= i < j < |r| :: r[i].0 != r[j].0
    ensures |r| == if includeInactive then |t.rows| else CountRows(t, IsActive)
  {
    var keep := ListedBy(includeInactive, IsActive);
    assert forall x: Member :: keep(x) == Listed(includeInactive, x);
    ListedCount(t, includeInactive, IsActive);
    ListRows(t, keep, FullNameOf, collation)
  }

  /** The family members of `id`, in id order. */
  function FamilyOf(fam: Table<FamilyMember>, id: int): (r: seq<(int, FamilyMember)>)
    requires ValidIds(fam)
    ensures forall i | 0 <= i < |r| :: r[i].0 in fam.rows && r[i].1 == fam.rows[r[i].0] && r[i].1.memberId == id
    ensures forall k | k in fam.rows && fam.rows[k].memberId == id :: (k, fam.rows[k]) in r
    ensures (forall k | k in fam.rows :: fam.rows[k].memberId != id) ==> r == []
  {
    FamilyOfComplete(fam, id);
    Filter(Rows(fam), OwnedBy(id))
  }

  function OwnedBy(id: int): ((int, FamilyMember)) -> bool
  {
    (p: (int, FamilyMember)) => p.1.memberId == id
  }

  /** The filter misses no relative of `id`, and is empty when there is none. */
  lemma FamilyOfComplete(fam: Table<FamilyMember>, id: int)
    requires ValidIds(fam)
    ensures forall k | k in fam.rows && fam.rows[k].memberId == id :: (k, fam.rows[k]) in Filter(Rows(fam), OwnedBy(id))
    ensures (forall k | k in fam.rows :: fam.rows[k].memberId != id) ==> Filter(Rows(fam), OwnedBy(id)) == []
  {
    var rows := Rows(fam);
    CountZeroIff(rows, OwnedBy(id));
    forall k | k in fam.rows && fam.rows[k].memberId == id ensures (k, fam.rows[k]) in Filter(rows, OwnedBy(id)) {
      var i :| 0 <= i < |rows| && rows[i].0 == k;
    }
  }

  /** `MemberDetailDto` without the computed age: the row and its family. */
  datatype Detail = Detail(id: int, member: Member, family: seq<(int, FamilyMember)>)

  /** `GET api/Members/{id}`: inactive members are returned too; 404 only for
      an id that was never stored. */
  function GetMember(t: Table<Member>, fam: Table<FamilyMember>, id: int): (res: Result<Detail>)
    requires ValidIds(fam)
    ensures res.Success? <==> id in t.rows
    ensures res.Failure? ==> res.error == NotFound("")
    ensures res.Success? ==>
      res.value.id == id && res.value.member == t.rows[id] && res.value.family == FamilyOf(fam, id)
  {
    if id in t.rows then Success(Detail(id, t.rows[id], FamilyOf(fam, id))) else Failure(NotFound(""))
  }

  /** `POST api/Members`: 400 for a body breaking a declared constraint, 400
      "Email já cadastrado" for an email stored already (active or not);
      otherwise a new active member with exactly the body's profile. */
  function CreateMember(t: Table<Member>, body: Profile): (res: Result<(Table<Member>, int)>)
    requires ValidIds(t)
    ensures !Admissible(body) ==> res == Failure(Invalid)
    ensures Admissible(body) ==> (res.Failure? <==> EmailInUse(t, EmailOf, body.email))
    ensures Admissible(body) && res.Failure? ==> res.error == BadRequest(EmailTaken)
    ensures res.Success? ==>
      var (u, id) := res.value;
      ValidIds(u) && id !in t.rows && u.rows == t.rows[id := Member(body, true)]
    ensures res.Success? && StoreInv(t) ==> StoreInv(res.value.0)
  {
    if !Admissible(body) then Failure(Invalid)
    else CreateUnique(t, Member(body, true), EmailOf)
  }

  /** `PUT api/Members/{id}`: 404 for an unknown id (active or not); the
      duplicate check runs only when the email changes; every profile
      column is overwritten and the active flag stays. */
  function UpdateMember(t: Table<Member>, id: int, body: Profile): (res: Result<Table<Member>>)
    ensures !Admissible(body) ==> res == Failure(Invalid)
    ensures Admissible(body) && id !in t.rows ==> res == Failure(NotFound(""))
    ensures Admissible(body) && id in t.rows ==>
      (res.Failure? <==> body.email != t.rows[id].profile.email && EmailInUse(t, EmailOf, body.email))
    ensures Admissible(body) && id in t.rows && res.Failure? ==> res.error == BadRequest(EmailTaken)
    ensures res.Success? ==>
      id in t.rows && res.value == Table(t.rows[id := Member(body, t.rows[id].isActive)], t.nextId)
    ensures res.Success? && StoreInv(t) ==> StoreInv(res.value)
  {
    if !Admissible(body) then Failure(Invalid)
    else if id !in t.rows then Failure(NotFound(""))
    else UpdateUnique(t, id, Member(body, t.rows[id].isActive), EmailOf)
  }

  function Deactivate(m: Member): Member { m.(isActive := false) }

  /** `DELETE api/Members/{id}`: a soft delete; the family rows stay. */
  function DeleteMember(t: Table<Member>, id: int): (res: Result<Table<Member>>)
    ensures res.Failure? <==> id !in t.rows
    ensures res.Failure? ==> res.error == NotFound("")
    ensures res.Success? ==>
      res.value == Table(t.rows[id := t.rows[id].(isActive := false)], t.nextId)
    ensures res.Success? && StoreInv(t) ==> StoreInv(res.value)
  {
    ModifyKeepsInv(t, id, Deactivate, EmailOf, MemberOk);
    Modify(t, id, Deactivate)
  }

  // ------------------------------------------------------------ photo upload

  /** `Path.GetExtension` finds its answer at `k`: a '.' that is not the last
      character, with no '.' and no directory separator after it. */
  predicate ExtensionAt(name: string, k: int)
  {
    0 <= k < |name| - 1 && name[k] == '.'
    && forall j | k < j < |name| :: name[j] != '.' && name[j] != '/'
  }

  /** `Path.GetExtension(name)` with '/' as the only directory separator:
      from the last '.' to the end, or empty. */
  function Extension(name: string): (ext: string)
    ensures ext != "" <==> exists k :: ExtensionAt(name, k)
    ensures forall k | ExtensionAt(name, k) :: ext == name[k..]
  {
    var ext := ExtensionScan(name, |name|);
    forall k | ExtensionAt(name, k) ensures ext == name[k..] {
      ExtensionAtUnique(name, k, |name| - |ext|);
    }
    ext
  }

  /** Scans `name[..i]` backwards; the part after `i` holds no '.' or '/'. */
  function ExtensionScan(name: string, i: nat): (ext: string)
    requires i <= |name|
    requires forall j | i <= j < |name| :: name[j] != '.' && name[j] != '/'
    ensures ext != "" ==> |ext| <= |name| && ExtensionAt(name, |name| - |ext|) && ext == name[|name| - |ext|..]
    ensures ext == "" ==> forall k :: !ExtensionAt(name, k)
    decreases i
  {
    if i == 0 then ""
    else if name[i - 1] == '.' then
      if i == |name| then "" else name[i - 1..]
    else if name[i - 1] == '/' then ""
    else ExtensionScan(name, i - 1)
  }

  lemma ExtensionAtUnique(name: string, k: int, l: int)
    requires ExtensionAt(name, k) && ExtensionAt(name, l)
    ensures k == l
  {
  }

  const PhotoMissing := "Arquivo de foto não fornecido"
  const PhotoTypeRejected := "Tipo de arquivo não suportado. Use JPG, PNG ou GIF"
  const PhotoFolder := "/uploads/members/"

  /** The extensions the upload accepts. */
  function AllowedExtensions(): (r: seq<string>)
    ensures |r| == 4 && Distinct(r)
  {
    [".jpg", ".jpeg", ".png", ".gif"]
  }

  /** The uploaded form file: its client-side name and its length in bytes. */
  datatype Upload = Upload(fileName: string, length: nat)

  /** The web path a photo is stored under: `/uploads/members/{id}_{guid}{ext}`. */
  function PhotoPath(id: int, guid: string, ext: string): (path: string)
    ensures |path| >= |PhotoFolder| && path[..|PhotoFolder|] == PhotoFolder
    ensures |path| >= |ext| && path[|path| - |ext|..] == ext
  {
    var path := PhotoFolder + IntToString(id) + "_" + guid + ext;
    assert path == PhotoFolder + (IntToString(id) + "_" + guid + ext);
    path
  }

  /** `POST api/Members/{id}/photo`: 404 for an unknown id, then 400 for a
      missing or empty file, then 400 for an extension other than the four
      accepted (compared lower-cased); otherwise only `PhotoPath` changes and
      the path is returned. */
  function UploadPhoto(t: Table<Member>, id: int, photo: Option<Upload>, guid: string)
    : (res: Result<(Table<Member>, string)>)
    ensures id !in t.rows ==> res == Failure(NotFound(""))
    ensures id in t.rows && (photo.None? || photo.value.length == 0) ==> res == Failure(BadRequest(PhotoMissing))
    ensures id in t.rows && photo.Some? && photo.value.length > 0 ==>
      (res.Failure? <==> Lower(Extension(photo.value.fileName)) !in AllowedExtensions())
    ensures res.Failure? && id in t.rows && photo.Some? && photo.value.length > 0 ==>
      res.error == BadRequest(PhotoTypeRejected)
    ensures res.Success? ==>
      var (u, path) := res.value;
      id in t.rows && photo.Some?
      && path == PhotoPath(id, guid, Lower(Extension(photo.value.fileName)))
      && u.nextId == t.nextId && u.rows.Keys == t.rows.Keys
      && (forall k | k in t.rows && k != id :: u.rows[k] == t.rows[k])
      && u.rows[id] == WithPhoto(t.rows[id], path)
    ensures res.Success? && StoreInv(t) ==> StoreInv(res.value.0)
  {
    if id !in t.rows then Failure(NotFound(""))
    else if photo.None? || photo.value.length == 0 then Failure(BadRequest(PhotoMissing))
    else
      var ext := Lower(Extension(photo.value.fileName));
      if ext !in AllowedExtensions() then Failure(BadRequest(PhotoTypeRejected))
      else
        var path := PhotoPath(id, guid, ext);
        var f := (m: Member) => WithPhoto(m, path);
        ModifyKeepsInv(t, id, f, EmailOf, MemberOk);
        Success((Modify(t, id, f).value, path))
  }

  /** The row after an upload: only the photo path differs. */
  function WithPhoto(m: Member, path: string): (r: Member)
    ensures r.profile.photoPath == Some(path) && r.isActive == m.isActive
    ensures r.profile == m.profile.(photoPath := r.profile.photoPath)
    ensures EmailOf(r) == EmailOf(m) && (MemberOk(m) ==> MemberOk(r))
  {
    Member(m.profile.(photoPath := Some(path)), m.isActive)
  }

  /** Reading the extension of a stored photo path gives back the accepted
      extension, whatever the GUID. */
  lemma PhotoPathKeepsExtension(id: int, guid: string, ext: string)
    requires ext in AllowedExtensions()
    ensures Extension(PhotoPath(id, guid, ext)) == ext
  {
    var path := PhotoPath(id, guid, ext);
    var k := |path| - |ext|;
    AllowedExtensionShape(ext);
    assert forall j | k < j < |path| :: path[j] == ext[j - k];
    assert ExtensionAt(path, k);
  }

  lemma AllowedExtensionShape(ext: string)
    requires ext in AllowedExtensions()
    ensures |ext| >= 2 && ext[0] == '.'
    ensures forall j | 1 <= j < |ext| :: ext[j] != '.' && ext[j] != '/'
  {
  }

  /** Two members never share a photo path, whatever the GUIDs: the id ends
      at the first '_'. */
  lemma PhotoPathsDistinct(id1: nat, id2: nat, g1: string, g2: string, e1: string, e2: string)
    requires id1 != id2
    ensures PhotoPath(id1, g1, e1) != PhotoPath(id2, g2, e2)
  {
    var a := NatToString(id1);
    var b := NatToString(id2);
    NatToStringInjective(id1, id2);
    var p := PhotoPath(id1, g1, e1);
    var q := PhotoPath(id2, g2, e2);
    var n := |PhotoFolder|;
    assert p == PhotoFolder + a + "_" + g1 + e1;
    assert q == PhotoFolder + b + "_" + g2 + e2;
    if |a| < |b| {
      assert p[n + |a|] == '_' && q[n + |a|] == b[|a|] && IsDigit(b[|a|]);
    } else if |b| < |a| {
      assert q[n + |b|] == '_' && p[n + |b|] == a[|b|] && IsDigit(a[|b|]);
    } else {
      var j :| 0 <= j < |a| && a[j] != b[j];
      assert p[n + j] == a[j] && q[n + j] == b[j];
    }
  }

  // -------------------------------------------------------------- statistics

  const MembershipTypes := ["Visitante", "Congregado", "Membro", "Diácono", "Presbítero", "Pastor"]
  const Genders := ["Masculino", "Feminino", "Não informado"]
  const MaritalStatuses := ["Solteiro(a)", "Casado(a)", "Divorciado(a)", "Viúvo(a)"]
  const BaptismStatuses := [Some("Não batizado"), Some("Batizado nas águas"),
                            Some("Batizado no Espírito Santo"), Some("Ambos")]

  function MembershipTypeOf(m: Member): string { m.profile.membershipType }
  function GenderOf(m: Member): string { m.profile.gender }
  function MaritalStatusOf(m: Member): string { m.profile.maritalStatus }
  function BaptismStatusOf(m: Member): Option<string> { m.profile.baptismStatus }

  /** The age-group test of the statistics endpoint for group `g` (Children,
      Teens, YoungAdults, Adults, Seniors, Unknown), as written there: only
      the difference of calendar years counts. */
  predicate InAgeGroup(m: Member, year: int, g: int)
  {
    var b := m.profile.birthDate;
    if g == 5 then b.None?
    else
      b.Some? &&
      var d := year - b.value.year;
      match g
      case 0 => d >= 0 && d <= 12
      case 1 => d >= 13 && d <= 17
      case 2 => d >= 18 && d <= 29
      case 3 => d >= 30 && d <= 59
      case 4 => d >= 60
      case _ => false
  }

  /** The single group a member falls in, -1 for a birth year after `year`. */
  function AgeGroup(m: Member, year: int): int
  {
    match m.profile.birthDate
    case None => 5
    case Some(b) =>
      var d := year - b.year;
      if d < 0 then -1 else if d <= 12 then 0 else if d <= 17 then 1
      else if d <= 29 then 2 else if d <= 59 then 3 else 4
  }

  /** The six tests are disjoint and cover everyone not born after `year`:
      the group is exactly the one test that holds. */
  lemma AgeGroupIffTest(m: Member, year: int, g: int)
    ensures AgeGroup(m, year) == g && 0 <= g < 6 <==> InAgeGroup(m, year, g) && 0 <= g < 6
    ensures AgeGroup(m, year) == -1 <==> m.profile.birthDate.Some? && m.profile.birthDate.value.year > year
  {
  }

  /** Children, Teens, YoungAdults, Adults, Seniors, Unknown. */
  const AgeGroupIds := [0, 1, 2, 3, 4, 5]

  function AgeGroupKeys(ms: seq<Member>, year: int): (r: seq<int>)
    ensures |r| == |ms| && forall i | 0 <= i < |ms| :: r[i] == AgeGroup(ms[i], year)
  {
    seq(|ms|, i requires 0 <= i < |ms| => AgeGroup(ms[i], year))
  }

  /** The active members, in id order. */
  function ActiveMembers(t: Table<Member>): (r: seq<Member>)
    requires ValidIds(t)
    ensures |r| == CountRows(t, IsActive)
    ensures forall i | 0 <= i < |r| :: r[i].isActive && r[i] in Values(Rows(t))
  {
    Filter(Values(Rows(t)), IsActive)
  }

  lemma LabelsDistinct()
    ensures Distinct(MembershipTypes) && Distinct(Genders) && Distinct(MaritalStatuses)
    ensures Distinct(BaptismStatuses) && Distinct(AgeGroupIds)
  {
  }

  /** `MemberStatsDto` without the two family counts; each distribution
      lists its counts in the order of the label constants above. */
  datatype Stats = Stats(
    totalMembers: nat, activeMembers: nat, inactiveMembers: int,
    membershipTypes: seq<nat>, gender: seq<nat>, ageGroups: seq<nat>,
    maritalStatus: seq<nat>, baptism: seq<nat>)

  function TypeCounts(active: seq<Member>): (r: seq<nat>)
    ensures |r| == 6 && Sum(r) <= |active|
    ensures forall i | 0 <= i < 6 :: r[i] == multiset(Select(active, MembershipTypeOf))[MembershipTypes[i]]
  {
    LabelsDistinct();
    Distribution(Select(active, MembershipTypeOf), MembershipTypes)
  }

  function GenderCounts(active: seq<Member>): (r: seq<nat>)
    ensures |r| == 3 && Sum(r) <= |active|
    ensures forall i | 0 <= i < 3 :: r[i] == multiset(Select(active, GenderOf))[Genders[i]]
  {
    LabelsDistinct();
    Distribution(Select(active, GenderOf), Genders)
  }

  function MaritalCounts(active: seq<Member>): (r: seq<nat>)
    ensures |r| == 4 && Sum(r) <= |active|
    ensures forall i | 0 <= i < 4 :: r[i] == multiset(Select(active, MaritalStatusOf))[MaritalStatuses[i]]
  {
    LabelsDistinct();
    Distribution(Select(active, MaritalStatusOf), MaritalStatuses)
  }

  function BaptismCounts(active: seq<Member>): (r: seq<nat>)
    ensures |r| == 4 && Sum(r) <= |active|
    ensures forall i | 0 <= i < 4 :: r[i] == multiset(Select(active, BaptismStatusOf))[BaptismStatuses[i]]
  {
    LabelsDistinct();
    Distribution(Select(active, BaptismStatusOf), BaptismStatuses)
  }

  function AgeGroupCounts(active: seq<Member>, year: int): (r: seq<nat>)
    ensures |r| == 6 && Sum(r) <= |active|
    ensures forall g | 0 <= g < 6 :: r[g] == multiset(AgeGroupKeys(active, year))[g]
    ensures Sum(r) == |active| <==> forall i | 0 <= i < |active| :: AgeGroup(active[i], year) != -1
  {
    LabelsDistinct();
    var groups := AgeGroupKeys(active, year);
    KeysInRange(active, year);
    Distribution(groups, AgeGroupIds)
  }

  lemma KeysInRange(ms: seq<Member>, year: int)
    ensures forall i | 0 <= i < |ms| ::
      AgeGroupKeys(ms, year)[i] in AgeGroupIds <==> AgeGroup(ms[i], year) != -1
  {
  }

  /** `GET api/Members/stats` on `today`. */
  function GetStats(t: Table<Member>, today: Date): (r: Stats)
    requires ValidIds(t)
    ensures r.totalMembers == |t.rows| && r.activeMembers == CountRows(t, IsActive)
    ensures r.totalMembers == r.activeMembers + r.inactiveMembers && r.inactiveMembers >= 0
    ensures r.inactiveMembers == CountRows(t, IsInactive)
    ensures |r.membershipTypes| == 6 && |r.gender| == 3 && |r.ageGroups| == 6
    ensures |r.maritalStatus| == 4 && |r.baptism| == 4
    ensures var active := ActiveMembers(t);
      && (forall i | 0 <= i < 6 :: r.membershipTypes[i] == multiset(Select(active, MembershipTypeOf))[MembershipTypes[i]])
      && (forall i | 0 <= i < 3 :: r.gender[i] == multiset(Select(active, GenderOf))[Genders[i]])
      && (forall i | 0 <= i < 4 :: r.maritalStatus[i] == multiset(Select(active, MaritalStatusOf))[MaritalStatuses[i]])
      && (forall i | 0 <= i < 4 :: r.baptism[i] == multiset(Select(active, BaptismStatusOf))[BaptismStatuses[i]])
      && (forall g | 0 <= g < 6 :: r.ageGroups[g] == multiset(AgeGroupKeys(active, today.year))[g])
    ensures Sum(r.membershipTypes) <= r.activeMembers && Sum(r.gender) <= r.activeMembers
    ensures Sum(r.maritalStatus) <= r.activeMembers && Sum(r.baptism) <= r.activeMembers
    ensures Sum(r.ageGroups) <= r.activeMembers
    ensures var active := ActiveMembers(t);
      Sum(r.ageGroups) == r.activeMembers <==> forall i | 0 <= i < |active| :: AgeGroup(active[i], today.year) != -1
  {
    ActiveSplit(t);
    var active := ActiveMembers(t);
    Stats(|t.rows|, |active|, CountRows(t, IsInactive), TypeCounts(active), GenderCounts(active),
          AgeGroupCounts(active, today.year), MaritalCounts(active), BaptismCounts(active))
  }

  /** Every member is either active or inactive. */
  lemma ActiveSplit(t: Table<Member>)
    requires ValidIds(t)
    ensures |t.rows| == CountRows(t, IsActive) + CountRows(t, IsInactive)
  {
    CountComplement(Values(Rows(t)), IsActive, IsInactive);
  }

  /** Each member's age group is the one whose own test it passes. */
  lemma AgeGroupKeysMatchTests(ms: seq<Member>, year: int)
    ensures forall i, g | 0 <= i < |ms| && 0 <= g < 6 ::
      AgeGroupKeys(ms, year)[i] == g <==> InAgeGroup(ms[i], year, g)
  {
    forall i, g | 0 <= i < |ms| && 0 <= g < 6
      ensures AgeGroupKeys(ms, year)[i] == g <==> InAgeGroup(ms[i], year, g)
    {
      AgeGroupIffTest(ms[i], year, g);
    }
  }

  /** The age groups add up to all the members counted exactly when none
      of them has a birth year after the current one. */
  lemma AgeGroupsPartition(ms: seq<Member>, year: int)
    ensures Sum(AgeGroupCounts(ms, year)) == |ms| <==>
      forall i | 0 <= i < |ms| :: var b := ms[i].profile.birthDate; b.None? || b.value.year <= year
  {
    forall i | 0 <= i < |ms|
      ensures AgeGroup(ms[i], year) != -1 <==>
        var b := ms[i].profile.birthDate; b.None? || b.value.year <= year
    {
      AgeGroupIffTest(ms[i], year, 0);
    }
  }

  // ------------------------------------------------------------------ family

  const MemberNotFound := "Membro não encontrado"

  /** `POST api/Members/{memberId}/family`: 400 for a body breaking a declared
      constraint, 404 "Membro não encontrado" for an unknown member (an
      inactive one is accepted); the row is tied to the route's member. */
  function AddFamilyMember(t: Table<Member>, fam: Table<FamilyMember>, memberId: int, body: Relative)
    : (res: Result<(Table<FamilyMember>, int)>)
    requires ValidIds(fam)
    ensures !RelativeOk(body) ==> res == Failure(Invalid)
    ensures RelativeOk(body) ==> (res.Failure? <==> memberId !in t.rows)
    ensures RelativeOk(body) && res.Failure? ==> res.error == NotFound(MemberNotFound)
    ensures res.Success? ==>
      var (u, id) := res.value;
      ValidIds(u) && id !in fam.rows && u.rows == fam.rows[id := FamilyMember(memberId, body)]
    ensures res.Success? && FamilyInv(t, fam) ==> FamilyInv(t, res.value.0)
  {
    if !RelativeOk(body) then Failure(Invalid)
    else if memberId !in t.rows then Failure(NotFound(MemberNotFound))
    else Success(Add(fam, FamilyMember(memberId, body)))
  }

  /** The `FirstOrDefaultAsync(f => f.Id == familyId && f.MemberId == memberId)`
      guard of the family update and remove actions. */
  predicate Owns(fam: Table<FamilyMember>, memberId: int, familyId: int)
  {
    familyId in fam.rows && fam.rows[familyId].memberId == memberId
  }

  /** `PUT api/Members/{memberId}/family/{familyId}`: 404 unless the row
      belongs to the route's member; the body's columns replace the stored
      ones and the owner stays. */
  function UpdateFamilyMember(fam: Table<FamilyMember>, memberId: int, familyId: int, body: Relative)
    : (res: Result<Table<FamilyMember>>)
    ensures !RelativeOk(body) ==> res == Failure(Invalid)
    ensures RelativeOk(body) ==> (res.Success? <==> Owns(fam, memberId, familyId))
    ensures RelativeOk(body) && res.Failure? ==> res.error == NotFound("")
    ensures res.Success? ==>
      res.value == Table(fam.rows[familyId := FamilyMember(memberId, body)], fam.nextId)
    ensures res.Success? ==> forall t: Table<Member> :: FamilyInv(t, fam) ==> FamilyInv(t, res.value)
  {
    if !RelativeOk(body) then Failure(Invalid)
    else if !Owns(fam, memberId, familyId) then Failure(NotFound(""))
    else Success(Table(fam.rows[familyId := FamilyMember(memberId, body)], fam.nextId))
  }

  /** `DELETE api/Members/{memberId}/family/{familyId}`: 404 unless the row
      belongs to the route's member; otherwise the row is removed for good. */
  function RemoveFamilyMember(fam: Table<FamilyMember>, memberId: int, familyId: int)
    : (res: Result<Table<FamilyMember>>)
    ensures res.Success? <==> Owns(fam, memberId, familyId)
    ensures res.Failure? ==> res.error == NotFound("")
    ensures res.Success? ==> res.value == Table(fam.rows - {familyId}, fam.nextId)
    ensures res.Success? ==> forall t: Table<Member> :: FamilyInv(t, fam) ==> FamilyInv(t, res.value)
  {
    if !Owns(fam, memberId, familyId) then Failure(NotFound("")) else Success(Table(fam.rows - {familyId}, fam.nextId))
  }

  // ---------------------------------------------------------------- lemmas

  /** Keeping one's own email never trips the duplicate check. */
  lemma UpdateWithOwnEmailSucceeds(t: Table<Member>, id: int, body: Profile)
    requires Admissible(body) && id in t.rows && body.email == t.rows[id].profile.email
    ensures UpdateMember(t, id, body).Success?
  {
    SameEmailNeverConflicts(t, id, Member(body, t.rows[id].isActive), EmailOf);
  }

  /** A freshly created member is active, readable, and has no family yet. */
  lemma NewMemberHasNoFamily(t: Table<Member>, fam: Table<FamilyMember>, body: Profile)
    requires ValidIds(t) && FamilyInv(t, fam) && CreateMember(t, body).Success?
    ensures var (u, id) := CreateMember(t, body).value;
      FamilyInv(u, fam) && GetMember(u, fam, id).Success? && GetMember(u, fam, id).value.member.isActive
      && GetMember(u, fam, id).value.family == []
  {
    var (u, id) := CreateMember(t, body).value;
    assert forall k | k in fam.rows :: fam.rows[k].memberId != id;
  }

  /** Member writes never orphan a family row: the members' keys never shrink. */
  lemma MemberWritesKeepFamily(t: Table<Member>, fam: Table<FamilyMember>, id: int, body: Profile,
                               photo: Option<Upload>, guid: string)
    requires ValidIds(t) && FamilyInv(t, fam)
    ensures CreateMember(t, body).Success? ==> FamilyInv(CreateMember(t, body).value.0, fam)
    ensures UpdateMember(t, id, body).Success? ==> FamilyInv(UpdateMember(t, id, body).value, fam)
    ensures DeleteMember(t, id).Success? ==> FamilyInv(DeleteMember(t, id).value, fam)
    ensures UploadPhoto(t, id, photo, guid).Success? ==> FamilyInv(UploadPhoto(t, id, photo, guid).value.0, fam)
  {
  }

  /** A family row can be changed or removed only through its own member's
      route: under any other member id both actions fail and change nothing. */
  lemma FamilyGuardedByOwner(fam: Table<FamilyMember>, memberId: int, familyId: int, body: Relative)
    requires familyId in fam.rows && fam.rows[familyId].memberId != memberId
    ensures RemoveFamilyMember(fam, memberId, familyId) == Failure(NotFound(""))
    ensures UpdateFamilyMember(fam, memberId, familyId, body).Failure?
  {
  }

  /** After a delete the member is still readable, now inactive, listed only
      when inactive members are asked for, and the active count dropped by
      one if the member was active. */
  lemma DeleteKeepsMemberReadable(t: Table<Member>, fam: Table<FamilyMember>, id: int,
                                  collation: (string, string) -> bool)
    requires ValidIds(t) && ValidIds(fam) && id in t.rows && TotalPreorder(collation)
    ensures var u := DeleteMember(t, id).value;
      GetMember(u, fam, id).Success? && !GetMember(u, fam, id).value.member.isActive
      && CountRows(u, IsActive) + (if t.rows[id].isActive then 1 else 0) == CountRows(t, IsActive)
      && (forall i | 0 <= i < |GetMembers(u, false, collation)| :: GetMembers(u, false, collation)[i].0 != id)
  {
    CountAfterChange(t, id, Deactivate(t.rows[id]), IsActive);
  }

  /** Repeating an update changes nothing more. */
  lemma UpdateIdempotent(t: Table<Member>, id: int, body: Profile)
    requires UpdateMember(t, id, body).Success?
    ensures UpdateMember(UpdateMember(t, id, body).value, id, body) == UpdateMember(t, id, body)
  {
    var u := UpdateMember(t, id, body).value;
    assert u.rows[id := u.rows[id]] == u.rows;
  }

  // ------------------------------------------------------------------ DTOs

  /** `MemberDetailDto.Age` of a stored member. */
  function MemberAge(m: Member, today: Date): (r: Option<int>)
    requires m.profile.birthDate.Some? ==> Valid(m.profile.birthDate.value)
    requires Valid(today)
    ensures r.None? <==> m.profile.birthDate.None?
    ensures r.Some? ==> r.value == Age(m.profile.birthDate.value, today)
  {
    NullableAge(m.profile.birthDate, today)
  }

  /** `FamilyMemberDto.Age`: the same formula as the member's. */
  function RelativeAge(r: Relative, today: Date): (a: Option<int>)
    requires r.birthDate.Some? ==> Valid(r.birthDate.value)
    requires Valid(today)
    ensures a.None? <==> r.birthDate.None?
    ensures forall m: Member | m.profile.birthDate == r.birthDate :: a == MemberAge(m, today)
  {
    NullableAge(r.birthDate, today)
  }
}
