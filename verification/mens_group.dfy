/** The men's group: the member entity and its controller (list, get,
    create, update, soft delete). */
module MensGroup {
  import opened Common
  import opened Dates
  import opened Annotations
  import opened Tables
  import opened Sorting

  /** A row of `MensGroupMembers`. */
  datatype GroupMember = GroupMember(
    name: string,
    email: string,
    phone: string,
    joinDate: Date,
    isActive: bool,
    role: Option<string>,
    notes: Option<string>)

  function EmailOf(s: GroupMember): string { s.email }
  function NameOf(s: GroupMember): string { s.name }
  predicate IsActive(s: GroupMember) { s.isActive }

  /** The attributes of the entity class, checked on every request body. */
  predicate Admissible(s: GroupMember)
  {
    Required(s.name) && LengthAtMost(s.name, 100)
    && Required(s.email) && EmailAddress(s.email) && LengthAtMost(s.email, 100)
    && Required(s.phone) && Phone(s.phone) && LengthAtMost(s.phone, 20)
    && MaxLen(s.role, 100)
  }

  /** The state of the table between requests. */
  predicate StoreInv(t: Table<GroupMember>)
  {
    Inv(t, EmailOf, Admissible)
  }

  /** A member bound from a body that only names the required fields. */
  function NewMember(name: string, email: string, phone: string, now: Date): (m: GroupMember)
    ensures m.isActive && m.joinDate == now && m.role.None? && m.notes.None?
    ensures Admissible(m) <==>
      Required(name) && LengthAtMost(name, 100) && Required(email) && EmailAddress(email) && LengthAtMost(email, 100)
      && Required(phone) && Phone(phone) && LengthAtMost(phone, 20)
  {
    GroupMember(name, email, phone, now, true, None, None)
  }

  // ------------------------------------------------------------- endpoints

  /** `GET api/MensGroup`: the active members ordered by name. `OrderBy(Name)` becomes an SQL `ORDER BY`, so the order is
      the database's collation, which the program does not fix: any total
      preorder on names. */
  function GetMembers(t: Table<GroupMember>, collation: (string, string) -> bool): (r: seq<GroupMember>)
    requires ValidIds(t) && TotalPreorder(collation)
    ensures SortedBy(r, NameOf, collation)
    ensures |r| == CountRows(t, IsActive)
    ensures forall i | 0 <= i < |r| :: r[i].isActive && exists id | id in t.rows :: t.rows[id] == r[i]
    ensures forall id | id in t.rows && t.rows[id].isActive :: t.rows[id] in r
  {
    ListActive(t, IsActive, NameOf, collation)
  }

  /** `GET api/MensGroup/{id}`: 404 for a missing or an inactive member. */
  function GetMember(t: Table<GroupMember>, id: int): (res: Result<GroupMember>)
    ensures res.Success? <==> id in t.rows && t.rows[id].isActive
    ensures res.Success? ==> res.value == t.rows[id]
    ensures res.Failure? ==> res.error == NotFound("")
  {
    GetActive(t, id, IsActive)
  }

  /** `POST api/MensGroup`: rejected when the body breaks a declared constraint
      or its email is already stored (active or not); otherwise stored with
      the join date `now` and active. */
  function CreateMember(t: Table<GroupMember>, body: GroupMember, now: Date): (res: Result<(Table<GroupMember>, int)>)
    requires ValidIds(t)
    ensures !Admissible(body) ==> res == Failure(Invalid)
    ensures Admissible(body) ==> (res.Failure? <==> EmailInUse(t, EmailOf, body.email))
    ensures Admissible(body) && res.Failure? ==> res.error == BadRequest(EmailTaken)
    ensures res.Success? ==>
      var (u, id) := res.value;
      id !in t.rows && u.rows.Keys == t.rows.Keys + {id}
      && (forall k | k in t.rows :: u.rows[k] == t.rows[k])
      && GetMember(u, id).Success?
      && u.rows[id].name == body.name && u.rows[id].email == body.email
      && u.rows[id].phone == body.phone && u.rows[id].role == body.role
      && u.rows[id].notes == body.notes && u.rows[id].joinDate == now
    ensures res.Success? && StoreInv(t) ==> StoreInv(res.value.0)
  {
    if !Admissible(body) then Failure(Invalid)
    else CreateUnique(t, body.(joinDate := now, isActive := true), EmailOf)
  }

  /** The fields `PUT` copies from the body; everything else stays. */
  function CopyEditable(s: GroupMember, body: GroupMember): GroupMember
  {
    s.(name := body.name, email := body.email, phone := body.phone, role := body.role, notes := body.notes)
  }

  /** `PUT api/MensGroup/{id}`: 404 for an unknown id (active or not); the
      duplicate check runs only when the email changes. */
  function UpdateMember(t: Table<GroupMember>, id: int, body: GroupMember): (res: Result<Table<GroupMember>>)
    ensures !Admissible(body) ==> res == Failure(Invalid)
    ensures Admissible(body) && id !in t.rows ==> res == Failure(NotFound(""))
    ensures Admissible(body) && id in t.rows ==>
      (res.Failure? <==> body.email != t.rows[id].email && EmailInUse(t, EmailOf, body.email))
    ensures Admissible(body) && id in t.rows && res.Failure? ==> res.error == BadRequest(EmailTaken)
    ensures res.Success? ==>
      var u := res.value;
      id in t.rows && u.rows.Keys == t.rows.Keys && u.nextId == t.nextId
      && (forall k | k in t.rows && k != id :: u.rows[k] == t.rows[k])
      && u.rows[id].name == body.name && u.rows[id].email == body.email
      && u.rows[id].phone == body.phone && u.rows[id].role == body.role && u.rows[id].notes == body.notes
      && u.rows[id].joinDate == t.rows[id].joinDate
      && u.rows[id].isActive == t.rows[id].isActive
    ensures res.Success? && StoreInv(t) ==> StoreInv(res.value)
  {
    if !Admissible(body) then Failure(Invalid)
    else if id !in t.rows then Failure(NotFound(""))
    else UpdateUnique(t, id, CopyEditable(t.rows[id], body), EmailOf)
  }

  function Deactivate(s: GroupMember): GroupMember { s.(isActive := false) }

  /** `DELETE api/MensGroup/{id}`: a soft delete that only clears `IsActive`. */
  function DeleteMember(t: Table<GroupMember>, id: int): (res: Result<Table<GroupMember>>)
    ensures res.Failure? <==> id !in t.rows
    ensures res.Failure? ==> res.error == NotFound("")
    ensures res.Success? ==>
      var u := res.value;
      u.rows.Keys == t.rows.Keys && u.nextId == t.nextId
      && (forall k | k in t.rows && k != id :: u.rows[k] == t.rows[k])
      && u.rows[id] == t.rows[id].(isActive := false)
    ensures res.Success? && StoreInv(t) ==> StoreInv(res.value)
  {
    ModifyKeepsInv(t, id, Deactivate, EmailOf, Admissible);
    Modify(t, id, Deactivate)
  }

  // ---------------------------------------------------------------- lemmas

  /** Keeping one's own email never trips the duplicate check. */
  lemma UpdateWithOwnEmailSucceeds(t: Table<GroupMember>, id: int, body: GroupMember)
    requires Admissible(body) && id in t.rows && body.email == t.rows[id].email
    ensures UpdateMember(t, id, body).Success?
  {
    SameEmailNeverConflicts(t, id, CopyEditable(t.rows[id], body), EmailOf);
  }

  /** Creating a member adds one to the total and to the active count. */
  lemma CreateCounts(t: Table<GroupMember>, body: GroupMember, now: Date)
    requires ValidIds(t) && CreateMember(t, body, now).Success?
    ensures var u := CreateMember(t, body, now).value.0;
      |u.rows| == |t.rows| + 1 && CountRows(u, IsActive) == CountRows(t, IsActive) + 1
  {
    var stored := body.(joinDate := now, isActive := true);
    CountAfterAdd(t, stored, IsActive);
  }

  /** After a delete the member is hidden from get and list, still stored,
      and the active count dropped by one if the member was active. */
  lemma DeleteHides(t: Table<GroupMember>, id: int)
    requires ValidIds(t) && id in t.rows
    ensures var u := DeleteMember(t, id).value;
      GetMember(u, id) == Failure(NotFound(""))
      && u.rows[id].email == t.rows[id].email
      && CountRows(u, IsActive) + (if t.rows[id].isActive then 1 else 0) == CountRows(t, IsActive)
  {
    CountAfterChange(t, id, Deactivate(t.rows[id]), IsActive);
  }

  /** Deleting twice is deleting once. */
  lemma DeleteIdempotent(t: Table<GroupMember>, id: int)
    requires DeleteMember(t, id).Success?
    ensures DeleteMember(DeleteMember(t, id).value, id) == DeleteMember(t, id)
  {
    var u := DeleteMember(t, id).value;
    assert u.rows[id := Deactivate(u.rows[id])] == u.rows;
  }

  /** Repeating an update changes nothing more. */
  lemma UpdateIdempotent(t: Table<GroupMember>, id: int, body: GroupMember)
    requires UpdateMember(t, id, body).Success?
    ensures UpdateMember(UpdateMember(t, id, body).value, id, body) == UpdateMember(t, id, body)
  {
    var u := UpdateMember(t, id, body).value;
    assert CopyEditable(u.rows[id], body) == u.rows[id];
    assert u.rows[id := u.rows[id]] == u.rows;
  }
}
