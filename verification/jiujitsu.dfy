/** The jiu-jitsu academy: the student entity, its controller (list, get,
    create, update, soft delete) and the DTO facts the API declares. */
module JiuJitsu {
  import opened Common
  import opened Text
  import opened Dates
  import opened Annotations
  import opened Tables
  import opened Sorting

  /** A row of `JiuJitsuStudents`.  `paymentStatus` is the column the data
      fix-up writes; the entity class as shipped does not declare it. */
  datatype Student = Student(
    name: string,
    email: string,
    phone: string,
    belt: string,
    enrollmentDate: Date,
    isActive: bool,
    notes: Option<string>,
    paymentStatus: Option<string>)

  function EmailOf(s: Student): string { s.email }
  function NameOf(s: Student): string { s.name }
  predicate IsActive(s: Student) { s.isActive }

  /** The attributes of the entity class, checked on every request body. */
  predicate Admissible(s: Student)
  {
    Required(s.name) && LengthAtMost(s.name, 100)
    && Required(s.email) && EmailAddress(s.email) && LengthAtMost(s.email, 100)
    && Required(s.phone) && Phone(s.phone) && LengthAtMost(s.phone, 20)
    && LengthAtMost(s.belt, 20)
  }

  /** The state of the table between requests. */
  predicate StoreInv(t: Table<Student>)
  {
    Inv(t, EmailOf, Admissible)
  }

  const DefaultBelt := "Branca"

  /** A student bound from a body that only names the required fields: the
      other properties keep their initialisers. */
  function NewStudent(name: string, email: string, phone: string, now: Date): (s: Student)
    ensures s.belt == DefaultBelt && s.isActive && s.enrollmentDate == now && s.notes.None?
    ensures Admissible(s) <==>
      Required(name) && LengthAtMost(name, 100) && Required(email) && EmailAddress(email) && LengthAtMost(email, 100)
      && Required(phone) && Phone(phone) && LengthAtMost(phone, 20)
  {
    Student(name, email, phone, DefaultBelt, now, true, None, None)
  }

  // ------------------------------------------------------------- endpoints

  /** `GET api/JiuJitsu`: the active students ordered by name. `OrderBy(Name)` becomes an SQL `ORDER BY`, so the order is
      the database's collation, which the program does not fix: any total
      preorder on names. */
  function GetStudents(t: Table<Student>, collation: (string, string) -> bool): (r: seq<Student>)
    requires ValidIds(t) && TotalPreorder(collation)
    ensures SortedBy(r, NameOf, collation)
    ensures |r| == CountRows(t, IsActive)
    ensures forall i | 0 <= i < |r| :: r[i].isActive && exists id | id in t.rows :: t.rows[id] == r[i]
    ensures forall id | id in t.rows && t.rows[id].isActive :: t.rows[id] in r
  {
    ListActive(t, IsActive, NameOf, collation)
  }

  /** `GET api/JiuJitsu/{id}`: 404 for a missing or an inactive student. */
  function GetStudent(t: Table<Student>, id: int): (res: Result<Student>)
    ensures res.Success? <==> id in t.rows && t.rows[id].isActive
    ensures res.Success? ==> res.value == t.rows[id]
    ensures res.Failure? ==> res.error == NotFound("")
  {
    GetActive(t, id, IsActive)
  }

  /** `POST api/JiuJitsu`: rejected when the body breaks a declared constraint
      or its email is already stored (active or not); otherwise stored with
      the enrolment date `now` and active. */
  function CreateStudent(t: Table<Student>, body: Student, now: Date): (res: Result<(Table<Student>, int)>)
    requires ValidIds(t)
    ensures !Admissible(body) ==> res == Failure(Invalid)
    ensures Admissible(body) ==> (res.Failure? <==> EmailInUse(t, EmailOf, body.email))
    ensures Admissible(body) && res.Failure? ==> res.error == BadRequest(EmailTaken)
    ensures res.Success? ==>
      var (u, id) := res.value;
      id !in t.rows && u.rows.Keys == t.rows.Keys + {id}
      && (forall k | k in t.rows :: u.rows[k] == t.rows[k])
      && GetStudent(u, id).Success?
      && u.rows[id].name == body.name && u.rows[id].email == body.email
      && u.rows[id].phone == body.phone && u.rows[id].belt == body.belt
      && u.rows[id].notes == body.notes && u.rows[id].paymentStatus == body.paymentStatus
      && u.rows[id].enrollmentDate == now
    ensures res.Success? && StoreInv(t) ==> StoreInv(res.value.0)
  {
    if !Admissible(body) then Failure(Invalid)
    else CreateUnique(t, body.(enrollmentDate := now, isActive := true), EmailOf)
  }

  /** The fields `PUT` copies from the body; everything else stays. */
  function CopyEditable(s: Student, body: Student): Student
  {
    s.(name := body.name, email := body.email, phone := body.phone, belt := body.belt, notes := body.notes)
  }

  /** `PUT api/JiuJitsu/{id}`: 404 for an unknown id (active or not); the
      duplicate check runs only when the email changes. */
  function UpdateStudent(t: Table<Student>, id: int, body: Student): (res: Result<Table<Student>>)
    ensures !Admissible(body) ==> res == Failure(Invalid)
    ensures Admissible(body) && id !in t.rows ==> res == Failure(NotFound(""))
    ensures Admissible(body) && id in t.rows ==>
      (res.Failure? <==> body.email != t.rows[id].email && EmailInUse(t, EmailOf, body.email))
    ensures Admissible(body) && id in t.rows && res.Failure? ==> res.error == BadRequest(EmailTaken)
    ensures res.Success? ==>
      var u := res.value;
      id in t.rows && u.rows.Keys == t.rows.Keys && u.nextId == t.nextId
      && (forall k | k in t.rows && k != id :: u.rows[k] == t.rows[k])
      && u.rows[id].name == body.name && u.rows[id].email == body.email
      && u.rows[id].phone == body.phone && u.rows[id].belt == body.belt && u.rows[id].notes == body.notes
      && u.rows[id].enrollmentDate == t.rows[id].enrollmentDate
      && u.rows[id].isActive == t.rows[id].isActive
      && u.rows[id].paymentStatus == t.rows[id].paymentStatus
    ensures res.Success? && StoreInv(t) ==> StoreInv(res.value)
  {
    if !Admissible(body) then Failure(Invalid)
    else if id !in t.rows then Failure(NotFound(""))
    else UpdateUnique(t, id, CopyEditable(t.rows[id], body), EmailOf)
  }

  function Deactivate(s: Student): Student { s.(isActive := false) }

  /** `DELETE api/JiuJitsu/{id}`: a soft delete that only clears `IsActive`. */
  function DeleteStudent(t: Table<Student>, id: int): (res: Result<Table<Student>>)
    ensures res.Failure? <==> id !in t.rows
    ensures res.Failure? ==> res.error == NotFound("")
    ensures res.Success? ==>
      var u := res.value;
      u.rows.Keys == t.rows.Keys && u.nextId == t.nextId
      && (forall k | k in t.rows && k != id :: u.rows[k] == t.rows[k])
      && u.rows[id] == t.rows[id].(isActive := false)
    ensures res.Success? && StoreInv(t) ==> StoreInv(res.value)
  {
    ModifyKeepsInv(t, id, Deactivate, EmailOf, Admissible);
    Modify(t, id, Deactivate)
  }

  // ---------------------------------------------------------------- lemmas

  /** Keeping one's own email never trips the duplicate check. */
  lemma UpdateWithOwnEmailSucceeds(t: Table<Student>, id: int, body: Student)
    requires Admissible(body) && id in t.rows && body.email == t.rows[id].email
    ensures UpdateStudent(t, id, body).Success?
  {
    SameEmailNeverConflicts(t, id, CopyEditable(t.rows[id], body), EmailOf);
  }

  /** Creating a student adds one to the total and to the active count. */
  lemma CreateCounts(t: Table<Student>, body: Student, now: Date)
    requires ValidIds(t) && CreateStudent(t, body, now).Success?
    ensures var u := CreateStudent(t, body, now).value.0;
      |u.rows| == |t.rows| + 1 && CountRows(u, IsActive) == CountRows(t, IsActive) + 1
  {
    var stored := body.(enrollmentDate := now, isActive := true);
    CountAfterAdd(t, stored, IsActive);
  }

  /** After a delete the student is hidden from get and list, still stored,
      and the active count dropped by one if the student was active. */
  lemma DeleteHides(t: Table<Student>, id: int)
    requires ValidIds(t) && id in t.rows
    ensures var u := DeleteStudent(t, id).value;
      GetStudent(u, id) == Failure(NotFound(""))
      && u.rows[id].email == t.rows[id].email
      && CountRows(u, IsActive) + (if t.rows[id].isActive then 1 else 0) == CountRows(t, IsActive)
  {
    CountAfterChange(t, id, Deactivate(t.rows[id]), IsActive);
  }

  /** Deleting twice is deleting once. */
  lemma DeleteIdempotent(t: Table<Student>, id: int)
    requires DeleteStudent(t, id).Success?
    ensures DeleteStudent(DeleteStudent(t, id).value, id) == DeleteStudent(t, id)
  {
    var u := DeleteStudent(t, id).value;
    assert u.rows[id := Deactivate(u.rows[id])] == u.rows;
  }

  /** Repeating an update changes nothing more. */
  lemma UpdateIdempotent(t: Table<Student>, id: int, body: Student)
    requires UpdateStudent(t, id, body).Success?
    ensures UpdateStudent(UpdateStudent(t, id, body).value, id, body) == UpdateStudent(t, id, body)
  {
    var u := UpdateStudent(t, id, body).value;
    assert CopyEditable(u.rows[id], body) == u.rows[id];
    assert u.rows[id := u.rows[id]] == u.rows;
  }

  // ------------------------------------------------------------------ DTOs

  /** The writable part of `JiuJitsuStudentDto`. */
  datatype StudentDto = StudentDto(
    name: string, email: string, phone: string, cpf: Option<string>, birthDate: Option<Date>,
    address: Option<string>, belt: string, stripes: int, monthlyFeeCents: int,
    paymentStatus: string, emergencyContact: Option<string>, emergencyPhone: Option<string>,
    healthConditions: Option<string>, notes: Option<string>)

  /** The DTO's declared constraints. */
  predicate DtoAdmissible(d: StudentDto)
  {
    Required(d.name) && LengthAtMost(d.name, 100)
    && Required(d.email) && EmailAddress(d.email) && LengthAtMost(d.email, 100)
    && Required(d.phone) && LengthAtMost(d.phone, 20)
    && MaxLen(d.cpf, 14) && MaxLen(d.address, 200)
    && Required(d.belt) && LengthAtMost(d.belt, 20)
    && LengthAtMost(d.paymentStatus, 20)
    && MaxLen(d.emergencyContact, 50) && MaxLen(d.emergencyPhone, 20) && MaxLen(d.healthConditions, 100)
  }

  /** A DTO with only the required text fields set: belt "Branca", no
      stripes, no fee and "Em dia"; the defaults never break a constraint. */
  function NewStudentDto(name: string, email: string, phone: string): (d: StudentDto)
    ensures d.belt == DefaultBelt && d.stripes == 0 && d.monthlyFeeCents == 0 && d.paymentStatus == PaidUp
    ensures DtoAdmissible(d) <==>
      Required(name) && LengthAtMost(name, 100) && Required(email) && EmailAddress(email) && LengthAtMost(email, 100)
      && Required(phone) && LengthAtMost(phone, 20)
  {
    assert !IsNetSpace(DefaultBelt[0]);
    StudentDto(name, email, phone, None, None, None, DefaultBelt, 0, 0, PaidUp, None, None, None, None)
  }

  /** `CreateAttendanceDto` and `CreatePaymentDto` defaults. */
  datatype AttendanceDto = AttendanceDto(studentId: int, date: Date, classType: string, isPresent: bool, notes: Option<string>)
  datatype PaymentDto = PaymentDto(studentId: int, paymentDate: Date, amountCents: int, paymentMethod: string,
                                   referenceMonth: Date, notes: Option<string>)

  function NewAttendanceDto(studentId: int, today: Date): (d: AttendanceDto)
    ensures d.classType == "Treino" && d.isPresent && d.date == today && LengthAtMost(d.classType, 50)
  {
    AttendanceDto(studentId, today, "Treino", true, None)
  }

  function NewPaymentDto(studentId: int, amountCents: int, now: Date, today: Date): (d: PaymentDto)
    ensures d.paymentMethod == "Dinheiro" && LengthAtMost(d.paymentMethod, 20)
    ensures d.paymentDate == now && d.referenceMonth == today
  {
    PaymentDto(studentId, now, amountCents, "Dinheiro", today, None)
  }
}
