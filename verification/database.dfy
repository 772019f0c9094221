/** The database context and its start-up seeding: the four tables the
    context declares, each under a unique index on Email, the default
    administrator and the jiu-jitsu payment-status repair.  The BCrypt digest
    of the default password and the clock are parameters. */
module Database {
  import opened Common
  import opened Dates
  import opened Tables
  import Users
  import JiuJitsu
  import MensGroup
  import MusicSchool

  /** The tables `AppDbContext` declares. */
  datatype Db = Db(
    users: Table<Users.User>,
    musicSchoolStudents: Table<MusicSchool.Student>,
    jiuJitsuStudents: Table<JiuJitsu.Student>,
    mensGroupMembers: Table<MensGroup.GroupMember>)

  /** The four unique indexes on Email, plus the identity columns. */
  predicate UniqueIndexes(db: Db)
  {
    ValidIds(db.users) && UniqueEmails(db.users, Users.EmailOf)
    && ValidIds(db.musicSchoolStudents) && UniqueEmails(db.musicSchoolStudents, MusicSchool.EmailOf)
    && ValidIds(db.jiuJitsuStudents) && UniqueEmails(db.jiuJitsuStudents, JiuJitsu.EmailOf)
    && ValidIds(db.mensGroupMembers) && UniqueEmails(db.mensGroupMembers, MensGroup.EmailOf)
  }

  const AdminEmail := "admin@igreja.com"
  const AdminName := "Administrador"
  const AdminPassword := "Admin@123"

  /** The administrator the seeding adds; `digest` is BCrypt of "Admin@123". */
  function DefaultAdmin(digest: string, now: Date): (u: Users.User)
    ensures u.email == AdminEmail && u.role == Users.AdminRole && u.isActive
  {
    Users.User(AdminName, AdminEmail, digest, Users.AdminRole, now, true)
  }

  /** The repair of one jiu-jitsu student: a null or empty payment status
      becomes "Em dia". */
  function FixStudent(s: JiuJitsu.Student): (r: JiuJitsu.Student)
    ensures NullOrEmpty(s.paymentStatus) ==> r == s.(paymentStatus := Some(PaidUp))
    ensures !NullOrEmpty(s.paymentStatus) ==> r == s
  {
    if NullOrEmpty(s.paymentStatus) then s.(paymentStatus := Some(PaidUp)) else s
  }

  /** `FixJiuJitsuStudentData`: every student with a null or empty payment
      status gets "Em dia"; no other row or column changes. */
  function FixJiuJitsuStudentData(t: Table<JiuJitsu.Student>): (r: Table<JiuJitsu.Student>)
    ensures r.nextId == t.nextId && r.rows.Keys == t.rows.Keys
    ensures forall id | id in t.rows :: !NullOrEmpty(r.rows[id].paymentStatus)
    ensures forall id | id in t.rows && !NullOrEmpty(t.rows[id].paymentStatus) :: r.rows[id] == t.rows[id]
    ensures forall id | id in t.rows :: r.rows[id] == t.rows[id].(paymentStatus := r.rows[id].paymentStatus)
  {
    Table(map id | id in t.rows :: FixStudent(t.rows[id]), t.nextId)
  }

  /** `SeedData`: adds the administrator unless a user with the admin email
      exists (active or not), then repairs the jiu-jitsu students. */
  function SeedData(db: Db, digest: string, now: Date): (r: Db)
    requires UniqueIndexes(db)
    ensures UniqueIndexes(r)
    ensures r.musicSchoolStudents == db.musicSchoolStudents && r.mensGroupMembers == db.mensGroupMembers
    ensures r.jiuJitsuStudents == FixJiuJitsuStudentData(db.jiuJitsuStudents)
    ensures JiuJitsu.StoreInv(db.jiuJitsuStudents) ==> JiuJitsu.StoreInv(r.jiuJitsuStudents)
    ensures EmailInUse(db.users, Users.EmailOf, AdminEmail) ==> r.users == db.users
    ensures !EmailInUse(db.users, Users.EmailOf, AdminEmail) ==>
      exists id | id !in db.users.rows ::
        r.users.rows == db.users.rows[id := DefaultAdmin(digest, now)] && r.users.nextId == id + 1
  {
    var users :=
      if EmailInUse(db.users, Users.EmailOf, AdminEmail) then db.users
      else
        var (u, id) := Add(db.users, DefaultAdmin(digest, now));
        assert u.rows == db.users.rows[id := DefaultAdmin(digest, now)];
        u;
    var students := FixJiuJitsuStudentData(db.jiuJitsuStudents);
    assert UniqueEmails(students, JiuJitsu.EmailOf) by {
      forall a, b | a in students.rows && b in students.rows && a != b
        ensures students.rows[a].email != students.rows[b].email
      {
        assert students.rows[a].email == db.jiuJitsuStudents.rows[a].email;
        assert students.rows[b].email == db.jiuJitsuStudents.rows[b].email;
      }
    }
    assert JiuJitsu.StoreInv(db.jiuJitsuStudents) ==> JiuJitsu.StoreInv(students) by {
      if JiuJitsu.StoreInv(db.jiuJitsuStudents) {
        forall id | id in students.rows ensures JiuJitsu.Admissible(students.rows[id]) {
          assert JiuJitsu.Admissible(db.jiuJitsuStudents.rows[id]);
        }
      }
    }
    Db(users, db.musicSchoolStudents, students, db.mensGroupMembers)
  }

  /** After seeding there is exactly one user with the admin email. */
  lemma SeedingLeavesOneAdminEmail(db: Db, digest: string, now: Date)
    requires UniqueIndexes(db)
    ensures EmailInUse(SeedData(db, digest, now).users, Users.EmailOf, AdminEmail)
  {
    var r := SeedData(db, digest, now);
    if !EmailInUse(db.users, Users.EmailOf, AdminEmail) {
      var id :| id !in db.users.rows && r.users.rows == db.users.rows[id := DefaultAdmin(digest, now)];
      assert r.users.rows[id].email == AdminEmail;
    }
  }

  /** Seeding twice is seeding once: the second run finds the administrator
      and the repair has nothing left to do. */
  lemma SeedDataIdempotent(db: Db, d1: string, n1: Date, d2: string, n2: Date)
    requires UniqueIndexes(db)
    ensures SeedData(SeedData(db, d1, n1), d2, n2) == SeedData(db, d1, n1)
  {
    var once := SeedData(db, d1, n1);
    SeedingLeavesOneAdminEmail(db, d1, n1);
    var s := once.jiuJitsuStudents;
    assert FixJiuJitsuStudentData(s).rows == s.rows;
  }
}
