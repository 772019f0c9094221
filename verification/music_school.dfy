/** The music school: the student entity, its controller (list, get, create,
    update, soft delete, statistics, payment and attendance registration) and
    the administration of pre-registrations (status update and conversion
    into a student). */
module MusicSchool {
  import opened Common
  import opened Text
  import opened Dates
  import opened Annotations
  import opened Counting
  import opened Tables
  import opened Sorting
  import opened PreRegistrations

  /** A row of `MusicSchoolStudents`; `MonthlyFee` is a decimal, kept here in
      cents. */
  datatype Student = Student(
    name: string,
    email: string,
    phone: string,
    birthDate: Option<Date>,
    parentName: Option<string>,
    parentPhone: Option<string>,
    instrument: string,
    level: string,
    teacher: Option<string>,
    classType: string,
    classSchedule: Option<string>,
    monthlyFeeCents: int,
    paymentStatus: string,
    lastPaymentDate: Option<Date>,
    enrollmentDate: Date,
    isActive: bool,
    status: string,
    notes: Option<string>,
    progress: Option<string>,
    totalClasses: int,
    attendedClasses: int)

  function EmailOf(s: Student): string { s.email }
  function NameOf(s: Student): string { s.name }
  function InstrumentOf(s: Student): string { s.instrument }
  function LevelOf(s: Student): string { s.level }
  function PaymentStatusOf(s: Student): string { s.paymentStatus }
  function FeeOf(s: Student): int { s.monthlyFeeCents }
  predicate IsActive(s: Student) { s.isActive }
  predicate IsInactive(s: Student) { !s.isActive }
  predicate Unpaid(s: Student) { s.paymentStatus != PaidUp }

  const ActiveStatus := "Ativo"
  const AlreadyStudent := "Já existe um aluno cadastrado com este email."

  /** The attributes of the entity class, checked on every request body. */
  predicate Admissible(s: Student)
  {
    Required(s.name) && LengthAtMost(s.name, 100)
    && Required(s.email) && EmailAddress(s.email) && LengthAtMost(s.email, 100)
    && Required(s.phone) && Phone(s.phone) && LengthAtMost(s.phone, 20)
    && MaxLen(s.parentName, 100) && MaxLen(s.parentPhone, 20)
    && Required(s.instrument) && LengthAtMost(s.instrument, 50)
    && LengthAtMost(s.level, 20) && MaxLen(s.teacher, 100) && LengthAtMost(s.classType, 20)
    && MaxLen(s.classSchedule, 100) && LengthAtMost(s.paymentStatus, 20) && LengthAtMost(s.status, 20)
  }

  /** The table between requests: ids in range and the unique email index.
      Converted pre-registrations bypass the body validation, so stored rows
      need not be `Admissible`. */
  predicate StoreInv(t: Table<Student>)
  {
    ValidIds(t) && UniqueEmails(t, EmailOf)
  }

  /** A student with only the required fields given: the property
      initialisers supply the rest. */
  function NewStudent(name: string, email: string, phone: string, instrument: string, now: Date): (s: Student)
    ensures s.level == DefaultLevel && s.classType == DefaultClassType
    ensures s.paymentStatus == PaidUp && s.status == ActiveStatus && s.monthlyFeeCents == 0
    ensures s.totalClasses == 0 && s.attendedClasses == 0 && s.attendedClasses <= s.totalClasses
    ensures s.isActive && s.enrollmentDate == now
    ensures Admissible(s) <==>
      Required(name) && LengthAtMost(name, 100) && Required(email) && EmailAddress(email) && LengthAtMost(email, 100)
      && Required(phone) && Phone(phone) && LengthAtMost(phone, 20) && Required(instrument) && LengthAtMost(instrument, 50)
  {
    Student(name, email, phone, None, None, None, instrument, DefaultLevel, None, DefaultClassType, None,
            0, PaidUp, None, now, true, ActiveStatus, None, None, 0, 0)
  }

  // ------------------------------------------------------------- endpoints

  /** `GET api/MusicSchool`: the active students ordered by name. `OrderBy(Name)` becomes an SQL `ORDER BY`, so the order is
      the database's collation, which the program does not fix: any total
      preorder on names. */
  function GetStudents(t: Table<Student>, collation: (string, string) -> bool): (r: seq<Student>)
    requires ValidIds(t) && TotalPreorder(collation)
    ensures SortedBy(r, NameOf, collation)
    ensures |r| == CountRows(t, IsActive)
    ensures forall i | 0 <= i < |r| :: r[i].isActive && exists id | id in t.rows :: t.rows[id] == r[i]
    ensures forall id | id in t.rows && t.rows[id].isActive :: t.rows[id] in r
  {
    ListActive(t, IsActive, NameOf, collation)
  }

  /** `GET api/MusicSchool/{id}`: 404 for a missing or an inactive student. */
  function GetStudent(t: Table<Student>, id: int): (res: Result<Student>)
    ensures res.Success? <==> id in t.rows && t.rows[id].isActive
    ensures res.Success? ==> res.value == t.rows[id]
    ensures res.Failure? ==> res.error == NotFound("")
  {
    GetActive(t, id, IsActive)
  }

  /** `POST api/MusicSchool`: rejected when the body breaks a declared
      constraint or its email is stored already (active or not); otherwise
      stored as sent, enrolled `now` and active. */
  function CreateStudent(t: Table<Student>, body: Student, now: Date): (res: Result<(Table<Student>, int)>)
    requires ValidIds(t)
    ensures !Admissible(body) ==> res == Failure(Invalid)
    ensures Admissible(body) ==> (res.Failure? <==> EmailInUse(t, EmailOf, body.email))
    ensures Admissible(body) && res.Failure? ==> res.error == BadRequest(EmailTaken)
    ensures res.Success? ==>
      var (u, id) := res.value;
      ValidIds(u) && id !in t.rows && u.rows == t.rows[id := body.(enrollmentDate := now, isActive := true)]
      && GetStudent(u, id).Success?
    ensures res.Success? && StoreInv(t) ==> StoreInv(res.value.0)
  {
    if !Admissible(body) then Failure(Invalid)
    else CreateUnique(t, body.(enrollmentDate := now, isActive := true), EmailOf)
  }

  /** The row after `PUT`: every column but the id, `EnrollmentDate` and
      `IsActive` comes from the body. */
  function CopyEditable(s: Student, body: Student): Student
  {
    body.(enrollmentDate := s.enrollmentDate, isActive := s.isActive)
  }

  /** `PUT api/MusicSchool/{id}`: 404 for an unknown id (active or not); the
      duplicate check runs only when the email changes. */
  function UpdateStudent(t: Table<Student>, id: int, body: Student): (res: Result<Table<Student>>)
    ensures !Admissible(body) ==> res == Failure(Invalid)
    ensures Admissible(body) && id !in t.rows ==> res == Failure(NotFound(""))
    ensures Admissible(body) && id in t.rows ==>
      (res.Failure? <==> body.email != t.rows[id].email && EmailInUse(t, EmailOf, body.email))
    ensures Admissible(body) && id in t.rows && res.Failure? ==> res.error == BadRequest(EmailTaken)
    ensures res.Success? ==>
      var u := res.value;
      id in t.rows && u.rows.Keys == t.rows.Keys && u.nextId == t.nextId
      && (forall k | k in t.rows && k != id :: u.rows[k] == t.rows[k])
      && u.rows[id].(enrollmentDate := body.enrollmentDate, isActive := body.isActive) == body
      && u.rows[id].enrollmentDate == t.rows[id].enrollmentDate
      && u.rows[id].isActive == t.rows[id].isActive
    ensures res.Success? && StoreInv(t) ==> StoreInv(res.value)
  {
    if !Admissible(body) then Failure(Invalid)
    else if id !in t.rows then Failure(NotFound(""))
    else UpdateUnique(t, id, CopyEditable(t.rows[id], body), EmailOf)
  }

  function Deactivate(s: Student): Student { s.(isActive := false) }

  /** `DELETE api/MusicSchool/{id}`: a soft delete that only clears `IsActive`. */
  function DeleteStudent(t: Table<Student>, id: int): (res: Result<Table<Student>>)
    ensures res.Failure? <==> id !in t.rows
    ensures res.Failure? ==> res.error == NotFound("")
    ensures res.Success? ==>
      var u := res.value;
      u.rows.Keys == t.rows.Keys && u.nextId == t.nextId
      && (forall k | k in t.rows && k != id :: u.rows[k] == t.rows[k])
      && u.rows[id] == t.rows[id].(isActive := false)
    ensures res.Success? && StoreInv(t) ==> StoreInv(res.value)
  {
    if id in t.rows then
      ModifyKeepsUnique(t, id, Deactivate, EmailOf);
      Modify(t, id, Deactivate)
    else Failure(NotFound(""))
  }

  /** The payment registration of one student, paid `now`. */
  function Pay(s: Student, now: Date): Student
  {
    s.(lastPaymentDate := Some(now), paymentStatus := PaidUp)
  }

  /** `POST api/MusicSchool/{id}/payment`: 404 for an unknown id; otherwise
      the student (active or not) is up to date as of `now`, and nothing else
      changes. */
  function RegisterPayment(t: Table<Student>, id: int, now: Date): (res: Result<Table<Student>>)
    ensures res.Failure? <==> id !in t.rows
    ensures res.Failure? ==> res.error == NotFound("")
    ensures res.Success? ==>
      var u := res.value;
      u.rows.Keys == t.rows.Keys && u.nextId == t.nextId
      && (forall k | k in t.rows && k != id :: u.rows[k] == t.rows[k])
      && u.rows[id].paymentStatus == PaidUp && u.rows[id].lastPaymentDate == Some(now)
      && u.rows[id].(paymentStatus := t.rows[id].paymentStatus,
                     lastPaymentDate := t.rows[id].lastPaymentDate) == t.rows[id]
      && !Unpaid(u.rows[id])
    ensures res.Success? && StoreInv(t) ==> StoreInv(res.value)
  {
    if id in t.rows then
      var f := (s: Student) => Pay(s, now);
      ModifyKeepsUnique(t, id, f, EmailOf);
      Modify(t, id, f)
    else Failure(NotFound(""))
  }

  const MaxInt32 := 0x7fff_ffff
  const MinInt32 := -0x8000_0000

  /** `x++` on a C# `int` (unchecked): the largest value wraps to the smallest. */
  function Increment32(x: int): (r: int)
    requires MinInt32 <= x <= MaxInt32
    ensures MinInt32 <= r <= MaxInt32
    ensures x < MaxInt32 ==> r == x + 1
    ensures x == MaxInt32 ==> r == MinInt32
  {
    if x == MaxInt32 then MinInt32 else x + 1
  }

  predicate Int32Classes(s: Student)
  {
    MinInt32 <= s.totalClasses <= MaxInt32 && MinInt32 <= s.attendedClasses <= MaxInt32
  }

  /** One attended class. */
  function Attend(s: Student): Student
  {
    if Int32Classes(s) then
      s.(totalClasses := Increment32(s.totalClasses), attendedClasses := Increment32(s.attendedClasses))
    else s
  }

  /** `POST api/MusicSchool/{id}/attendance`: 404 for an unknown id; otherwise
      one more class, given and attended. */
  function RegisterAttendance(t: Table<Student>, id: int): (res: Result<Table<Student>>)
    ensures res.Failure? <==> id !in t.rows
    ensures res.Failure? ==> res.error == NotFound("")
    ensures res.Success? ==>
      var u := res.value;
      u.rows.Keys == t.rows.Keys && u.nextId == t.nextId
      && (forall k | k in t.rows && k != id :: u.rows[k] == t.rows[k])
      && u.rows[id] == Attend(t.rows[id])
    ensures res.Success? && StoreInv(t) ==> StoreInv(res.value)
  {
    if id in t.rows then
      ModifyKeepsUnique(t, id, Attend, EmailOf);
      Modify(t, id, Attend)
    else Failure(NotFound(""))
  }

  /** Below the 32-bit limit an attendance raises both counters by one, so
      it keeps their difference and `AttendedClasses <= TotalClasses`. */
  lemma AttendanceKeepsDifference(t: Table<Student>, id: int)
    requires id in t.rows && Int32Classes(t.rows[id])
    requires t.rows[id].totalClasses < MaxInt32 && t.rows[id].attendedClasses < MaxInt32
    ensures var s := RegisterAttendance(t, id).value.rows[id];
      s.totalClasses == t.rows[id].totalClasses + 1 && s.attendedClasses == t.rows[id].attendedClasses + 1
      && s.totalClasses - s.attendedClasses == t.rows[id].totalClasses - t.rows[id].attendedClasses
      && (t.rows[id].attendedClasses <= t.rows[id].totalClasses ==> s.attendedClasses <= s.totalClasses)
  {
  }

  /** At the 32-bit limit the class total wraps around and falls below the
      attended count. */
  lemma AttendanceAtLimitWraps(t: Table<Student>, id: int)
    requires id in t.rows && Int32Classes(t.rows[id])
    requires t.rows[id].totalClasses == MaxInt32 && t.rows[id].attendedClasses < MaxInt32
    ensures var s := RegisterAttendance(t, id).value.rows[id];
      s.totalClasses == MinInt32 && s.totalClasses < s.attendedClasses
  {
  }

  // ------------------------------------------------------------ statistics

  /** `MusicSchoolStatsDto`; each dictionary is the list of its entries. */
  datatype Stats = Stats(
    totalStudents: nat,
    activeStudents: nat,
    inactiveStudents: nat,
    byInstrument: seq<(string, nat)>,
    byLevel: seq<(string, nat)>,
    byPaymentStatus: seq<(string, nat)>,
    totalMonthlyRevenueCents: int,
    studentsWithPendingPayment: nat)

  /** The active students in id order. */
  function Actives(t: Table<Student>): (r: seq<Student>)
    requires ValidIds(t)
    ensures |r| == CountRows(t, IsActive)
    ensures forall i | 0 <= i < |r| :: r[i].isActive && r[i] in Values(Rows(t))
  {
    Filter(Values(Rows(t)), IsActive)
  }

  /** One dictionary of the statistics: the distinct keys of the active
      students, each with its number of students. */
  predicate Tally(d: seq<(string, nat)>, keys: seq<string>)
  {
    (forall i | 0 <= i < |d| :: d[i].1 == multiset(keys)[d[i].0] && d[i].1 > 0)
    && (forall j | 0 <= j < |keys| :: exists i | 0 <= i < |d| :: d[i].0 == keys[j])
    && (forall i, j | 0 <= i < j < |d| :: d[i].0 != d[j].0)
    && SumCounts(d) == |keys|
  }

  lemma TallyOfGroups(keys: seq<string>)
    ensures Tally(GroupCounts(keys), keys)
  {
    GroupCountsSum(keys);
  }

  /** `GET api/MusicSchool/stats`. */
  function GetStats(t: Table<Student>): (r: Stats)
    requires ValidIds(t)
    ensures r.totalStudents == |t.rows|
    ensures r.activeStudents == CountRows(t, IsActive)
    ensures r.activeStudents + r.inactiveStudents == r.totalStudents
    ensures Tally(r.byInstrument, Select(Actives(t), InstrumentOf))
    ensures Tally(r.byLevel, Select(Actives(t), LevelOf))
    ensures Tally(r.byPaymentStatus, Select(Actives(t), PaymentStatusOf))
    ensures SumCounts(r.byInstrument) == r.activeStudents && SumCounts(r.byLevel) == r.activeStudents
    ensures SumCounts(r.byPaymentStatus) == r.activeStudents
    ensures r.studentsWithPendingPayment == Count(Actives(t), Unpaid)
    ensures r.studentsWithPendingPayment + multiset(Select(Actives(t), PaymentStatusOf))[PaidUp]
            == r.activeStudents
    ensures r.totalMonthlyRevenueCents == Sum(Select(Actives(t), FeeOf))
    ensures (forall i | 0 <= i < |r.byInstrument| :: r.byInstrument[i].0 in Select(Actives(t), InstrumentOf))
  {
    var all := Values(Rows(t));
    var active := Actives(t);
    CountComplement(all, IsActive, IsInactive);
    var instruments := Select(active, InstrumentOf);
    var levels := Select(active, LevelOf);
    var statuses := Select(active, PaymentStatusOf);
    TallyOfGroups(instruments);
    TallyOfGroups(levels);
    TallyOfGroups(statuses);
    CountOthers(active, PaymentStatusOf, PaidUp, Unpaid);
    Stats(|all|, |active|, Count(all, IsInactive),
          GroupCounts(instruments), GroupCounts(levels), GroupCounts(statuses),
          Sum(Select(active, FeeOf)), Count(active, Unpaid))
  }

  /** Fees are never negative in practice; then the revenue is not either,
      and it is at least any single active student's fee. */
  lemma RevenueBounds(t: Table<Student>)
    requires ValidIds(t)
    requires forall id | id in t.rows :: t.rows[id].monthlyFeeCents >= 0
    ensures GetStats(t).totalMonthlyRevenueCents >= 0
    ensures forall i | 0 <= i < |Actives(t)| :: Actives(t)[i].monthlyFeeCents <= GetStats(t).totalMonthlyRevenueCents
  {
    var active := Actives(t);
    var fees := Select(active, FeeOf);
    forall i | 0 <= i < |fees| ensures fees[i] >= 0 {
      assert active[i] in Values(Rows(t));
      var k :| 0 <= k < |Values(Rows(t))| && Values(Rows(t))[k] == active[i];
    }
    SumNonNegative(fees);
  }

  // ---------------------------------------------------------------- lemmas

  /** Keeping one's own email never trips the duplicate check. */
  lemma UpdateWithOwnEmailSucceeds(t: Table<Student>, id: int, body: Student)
    requires Admissible(body) && id in t.rows && body.email == t.rows[id].email
    ensures UpdateStudent(t, id, body).Success?
  {
    SameEmailNeverConflicts(t, id, CopyEditable(t.rows[id], body), EmailOf);
  }

  /** Creating a student adds one to the total and to the active count. */
  lemma CreateCounts(t: Table<Student>, body: Student, now: Date)
    requires ValidIds(t) && CreateStudent(t, body, now).Success?
    ensures var u := CreateStudent(t, body, now).value.0;
      |u.rows| == |t.rows| + 1 && CountRows(u, IsActive) == CountRows(t, IsActive) + 1
  {
    var stored := body.(enrollmentDate := now, isActive := true);
    CountAfterAdd(t, stored, IsActive);
  }

  /** After a delete the student is hidden from get and list, still stored,
      and the active count dropped by one if the student was active. */
  lemma DeleteHides(t: Table<Student>, id: int)
    requires ValidIds(t) && id in t.rows
    ensures var u := DeleteStudent(t, id).value;
      GetStudent(u, id) == Failure(NotFound(""))
      && u.rows[id].email == t.rows[id].email
      && CountRows(u, IsActive) + (if t.rows[id].isActive then 1 else 0) == CountRows(t, IsActive)
  {
    CountAfterChange(t, id, Deactivate(t.rows[id]), IsActive);
  }

  /** Deleting twice is deleting once. */
  lemma DeleteIdempotent(t: Table<Student>, id: int)
    requires DeleteStudent(t, id).Success?
    ensures DeleteStudent(DeleteStudent(t, id).value, id) == DeleteStudent(t, id)
  {
    var u := DeleteStudent(t, id).value;
    assert u.rows[id := Deactivate(u.rows[id])] == u.rows;
  }

  /** A payment takes the student out of the pending count (if active) and
      changes no other count. */
  lemma PaymentClearsPending(t: Table<Student>, id: int, now: Date)
    requires ValidIds(t) && id in t.rows
    ensures var u := RegisterPayment(t, id, now).value;
      ValidIds(u)
      && CountRows(u, IsActive) == CountRows(t, IsActive)
      && CountRows(u, Unpaid) + (if Unpaid(t.rows[id]) then 1 else 0) == CountRows(t, Unpaid)
  {
    var x := Pay(t.rows[id], now);
    CountAfterChange(t, id, x, IsActive);
    CountAfterChange(t, id, x, Unpaid);
  }

  // ----------------------------------------------------- pre-registrations

  /** `UpdatePreRegistrationRequest`. */
  datatype StatusUpdate = StatusUpdate(status: string, adminNotes: Option<string>, isProcessed: bool)

  /** The row after a status update at `now`. */
  function ApplyStatus(p: PreRegistration, req: StatusUpdate, now: Date): PreRegistration
  {
    p.(status := req.status, adminNotes := req.adminNotes, isProcessed := req.isProcessed,
       contactDate := if req.status == Contacted && p.contactDate.None? then Some(now) else p.contactDate)
  }

  /** `PUT api/MusicSchool/pre-registrations/{id}`: 404 for an unknown id;
      otherwise status, notes and the processed flag come from the request,
      and the contact date is stamped only by the first move to "Contatado". */
  function UpdatePreRegistration(t: Table<PreRegistration>, id: int, req: StatusUpdate, now: Date)
    : (res: Result<Table<PreRegistration>>)
    ensures res.Failure? <==> id !in t.rows
    ensures res.Failure? ==> res.error == NotFound("")
    ensures res.Success? ==>
      var u := res.value;
      var p := t.rows[id];
      u.rows.Keys == t.rows.Keys && u.nextId == t.nextId
      && (forall k | k in t.rows && k != id :: u.rows[k] == t.rows[k])
      && u.rows[id].status == req.status && u.rows[id].adminNotes == req.adminNotes
      && u.rows[id].isProcessed == req.isProcessed
      && AsRequest(u.rows[id]) == AsRequest(p) && u.rows[id].preRegistrationDate == p.preRegistrationDate
      && (p.contactDate.Some? ==> u.rows[id].contactDate == p.contactDate)
      && (p.contactDate.None? ==> (u.rows[id].contactDate.Some? <==> req.status == Contacted))
      && (u.rows[id].contactDate.Some? && p.contactDate.None? ==> u.rows[id].contactDate == Some(now))
  {
    Modify(t, id, (p: PreRegistration) => ApplyStatus(p, req, now))
  }

  /** Once stamped, the contact date survives every later update. */
  lemma {:induction false} ContactDateStampedOnce(t: Table<PreRegistration>, id: int,
                                                  reqs: seq<StatusUpdate>, times: seq<Date>)
    requires id in t.rows && t.rows[id].contactDate.Some? && |times| == |reqs|
    ensures var u := UpdateAll(t, id, reqs, times);
      id in u.rows && u.rows[id].contactDate == t.rows[id].contactDate
    decreases |reqs|
  {
    if |reqs| > 0 {
      var u := UpdatePreRegistration(t, id, reqs[0], times[0]).value;
      ContactDateStampedOnce(u, id, reqs[1..], times[1..]);
    }
  }

  /** A run of status updates of one pre-registration. */
  function UpdateAll(t: Table<PreRegistration>, id: int, reqs: seq<StatusUpdate>, times: seq<Date>)
    : Table<PreRegistration>
    requires |times| == |reqs|
    decreases |reqs|
  {
    if |reqs| == 0 then t
    else match UpdatePreRegistration(t, id, reqs[0], times[0])
      case Failure(_) => t
      case Success(u) => UpdateAll(u, id, reqs[1..], times[1..])
  }

  /** `ConvertPreRegistrationRequest`. */
  datatype Conversion = Conversion(teacher: Option<string>, classSchedule: Option<string>, monthlyFeeCents: int)

  /** `s.Email.ToLower() == e.ToLower()`. */
  predicate SameEmailIgnoringCase(a: string, b: string)
  {
    Lower(a) == Lower(b)
  }

  /** `FirstOrDefaultAsync(s => s.Email.ToLower() == e.ToLower()) != null`. */
  predicate EmailInUseIgnoringCase(t: Table<Student>, e: string)
  {
    exists id | id in t.rows :: SameEmailIgnoringCase(t.rows[id].email, e)
  }

  /** The student a conversion creates. */
  function Enrol(p: PreRegistration, req: Conversion, now: Date): (s: Student)
    ensures s.name == p.name && s.email == p.email && s.phone == p.phone && s.birthDate == p.birthDate
    ensures s.parentName == p.parentName && s.parentPhone == p.parentPhone
    ensures s.instrument == p.instrument && s.level == p.level && s.classType == p.preferredClassType
    ensures s.teacher == req.teacher && s.monthlyFeeCents == req.monthlyFeeCents
    ensures s.classSchedule == (if req.classSchedule.Some? then req.classSchedule else p.preferredSchedule)
    ensures s.notes == p.questions
    ensures s.paymentStatus == PaidUp && s.status == ActiveStatus && s.isActive && s.enrollmentDate == now
    ensures s.lastPaymentDate.None? && s.progress.None? && s.totalClasses == 0 && s.attendedClasses == 0
  {
    Student(p.name, p.email, p.phone, p.birthDate, p.parentName, p.parentPhone, p.instrument, p.level,
            req.teacher, p.preferredClassType,
            if req.classSchedule.Some? then req.classSchedule else p.preferredSchedule,
            req.monthlyFeeCents, PaidUp, None, now, true, ActiveStatus, p.questions, None, 0, 0)
  }

  function MarkEnrolled(p: PreRegistration): PreRegistration
  {
    p.(status := Enrolled, isProcessed := true)
  }

  /** `POST api/MusicSchool/pre-registrations/{id}/convert`: 404 for an
      unknown id; 400 when a student already has the email up to case;
      otherwise a new active student and the pre-registration marked
      "Matriculado" and processed, in one save. */
  function ConvertPreRegistration(pre: Table<PreRegistration>, students: Table<Student>,
                                  id: int, req: Conversion, now: Date)
    : (res: Result<(Table<PreRegistration>, Table<Student>, int)>)
    requires ValidIds(students)
    ensures id !in pre.rows ==> res == Failure(NotFound(""))
    ensures id in pre.rows ==> (res.Failure? <==> EmailInUseIgnoringCase(students, pre.rows[id].email))
    ensures id in pre.rows && res.Failure? ==> res.error == BadRequest(AlreadyStudent)
    ensures res.Success? ==>
      var (p, s, sid) := res.value;
      id in pre.rows && p.rows.Keys == pre.rows.Keys && p.nextId == pre.nextId
      && (forall k | k in pre.rows && k != id :: p.rows[k] == pre.rows[k])
      && p.rows[id] == pre.rows[id].(status := Enrolled, isProcessed := true)
      && ValidIds(s) && sid !in students.rows
      && s.rows == students.rows[sid := Enrol(pre.rows[id], req, now)]
    ensures res.Success? && StoreInv(students) ==> StoreInv(res.value.1)
  {
    if id !in pre.rows then Failure(NotFound(""))
    else
      var p := pre.rows[id];
      if EmailInUseIgnoringCase(students, p.email) then Failure(BadRequest(AlreadyStudent))
      else
        var student := Enrol(p, req, now);
        assert !EmailInUse(students, EmailOf, student.email);
        match CreateUnique(students, student, EmailOf)
        case Success((s, sid)) =>
          var marked := Modify(pre, id, MarkEnrolled).value;
          Success((marked, s, sid))
        case Failure(_) => assert false; Failure(BadRequest(AlreadyStudent))
  }

  /** A pre-registration converts at most once: the student it created
      blocks a second conversion. */
  lemma ConvertTwiceFails(pre: Table<PreRegistration>, students: Table<Student>,
                          id: int, req: Conversion, req2: Conversion, now: Date, later: Date)
    requires ValidIds(students)
    requires ConvertPreRegistration(pre, students, id, req, now).Success?
    ensures var (p, s, sid) := ConvertPreRegistration(pre, students, id, req, now).value;
      ConvertPreRegistration(p, s, id, req2, later) == Failure(BadRequest(AlreadyStudent))
  {
    var (p, s, sid) := ConvertPreRegistration(pre, students, id, req, now).value;
    assert s.rows[sid].email == p.rows[id].email;
  }

  /** Emails that differ only in letter case block a conversion. */
  lemma CaseVariantBlocksConversion(pre: Table<PreRegistration>, students: Table<Student>,
                                    id: int, req: Conversion, now: Date, sid: int)
    requires ValidIds(students) && id in pre.rows && sid in students.rows
    requires Lower(students.rows[sid].email) == Lower(pre.rows[id].email)
    ensures ConvertPreRegistration(pre, students, id, req, now) == Failure(BadRequest(AlreadyStudent))
  {
  }
}
