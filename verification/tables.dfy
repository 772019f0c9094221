/** A database table as the controllers see it: rows keyed by an identity
    column, the email-uniqueness discipline the create and update actions
    follow, and the soft-delete and field-update steps.  Every entity module
    instantiates these generic steps with its own record type. */
module Tables {
  import opened Common
  import opened Counting
  import opened Sorting

  /** Rows by id; `nextId` is the next value of the identity column. */
  datatype Table<R> = Table(rows: map<int, R>, nextId: int)

  /** Ids are positive and below the identity counter. */
  predicate ValidIds<R>(t: Table<R>)
  {
    t.nextId >= 1 && forall id | id in t.rows :: 1 <= id < t.nextId
  }

  function Empty<R>(): (t: Table<R>)
    ensures ValidIds(t) && |t.rows| == 0
  {
    Table(map[], 1)
  }

  /** `FindAsync(id)`. */
  function Find<R>(t: Table<R>, id: int): (r: Option<R>)
    ensures r.Some? <==> id in t.rows
    ensures r.Some? ==> r.value == t.rows[id]
  {
    if id in t.rows then Some(t.rows[id]) else None
  }

  /** `Add` + `SaveChanges`: the row receives the next identity value. */
  function Add<R>(t: Table<R>, r: R): (res: (Table<R>, int))
    requires ValidIds(t)
    ensures ValidIds(res.0)
    ensures res.1 !in t.rows && res.1 >= 1
    ensures res.0.rows == t.rows[res.1 := r]
  {
    (Table(t.rows[t.nextId := r], t.nextId + 1), t.nextId)
  }

  /** What a table keeps between requests: ids in range, no two rows with the
      same email (the unique index), and only rows that passed validation. */
  predicate Inv<R>(t: Table<R>, email: R -> string, ok: R -> bool)
  {
    ValidIds(t) && UniqueEmails(t, email) && forall id | id in t.rows :: ok(t.rows[id])
  }

  // ------------------------------------------------------------------ emails

  /** `AnyAsync(x => x.Email == e)` over every row, active or not. */
  predicate EmailInUse<R>(t: Table<R>, email: R -> string, e: string)
  {
    exists id | id in t.rows :: email(t.rows[id]) == e
  }

  /** No two rows share an email (the unique index of the table). */
  predicate UniqueEmails<R>(t: Table<R>, email: R -> string)
  {
    forall a, b | a in t.rows && b in t.rows && a != b :: email(t.rows[a]) != email(t.rows[b])
  }

  /** Create with the duplicate check: 400 "Email já cadastrado" and no
      insert when any row already has the email. */
  function CreateUnique<R>(t: Table<R>, r: R, email: R -> string): (res: Result<(Table<R>, int)>)
    requires ValidIds(t)
    ensures res.Failure? <==> EmailInUse(t, email, email(r))
    ensures res.Failure? ==> res.error == BadRequest(EmailTaken)
    ensures res.Success? ==>
              ValidIds(res.value.0) && res.value.1 !in t.rows && res.value.0.rows == t.rows[res.value.1 := r]
    ensures res.Success? && UniqueEmails(t, email) ==> UniqueEmails(res.value.0, email)
  {
    if EmailInUse(t, email, email(r)) then Failure(BadRequest(EmailTaken))
    else Success(Add(t, r))
  }

  /** Update with the duplicate check, which runs only when the email changes;
      `updated` is the stored row after the action has copied its fields. */
  function UpdateUnique<R>(t: Table<R>, id: int, updated: R, email: R -> string): (res: Result<Table<R>>)
    ensures id !in t.rows ==> res == Failure(NotFound(""))
    ensures id in t.rows ==>
      (res.Failure? <==> email(updated) != email(t.rows[id]) && EmailInUse(t, email, email(updated)))
    ensures res.Failure? && id in t.rows ==> res.error == BadRequest(EmailTaken)
    ensures res.Success? ==> res.value == Table(t.rows[id := updated], t.nextId)
    ensures res.Success? && UniqueEmails(t, email) ==> UniqueEmails(res.value, email)
  {
    if id !in t.rows then Failure(NotFound(""))
    else if email(updated) != email(t.rows[id]) && EmailInUse(t, email, email(updated)) then
      Failure(BadRequest(EmailTaken))
    else
      var u := Table(t.rows[id := updated], t.nextId);
      assert UniqueEmails(t, email) ==> UniqueEmails(u, email) by {
        if UniqueEmails(t, email) {
          forall a, b | a in u.rows && b in u.rows && a != b
            ensures email(u.rows[a]) != email(u.rows[b])
          {
            if a == id && email(updated) == email(t.rows[id]) {
              assert email(t.rows[b]) != email(t.rows[id]);
            } else if b == id && email(updated) == email(t.rows[id]) {
              assert email(t.rows[a]) != email(t.rows[id]);
            }
          }
        }
      }
      Success(u)
  }

  /** Keeping one's own email never trips the duplicate check. */
  lemma SameEmailNeverConflicts<R>(t: Table<R>, id: int, updated: R, email: R -> string)
    requires id in t.rows && email(updated) == email(t.rows[id])
    ensures UpdateUnique(t, id, updated, email).Success?
  {
  }

  /** Changes one existing row (`FindAsync`, mutate, `SaveChanges`); 404 when
      the id is unknown. */
  function Modify<R>(t: Table<R>, id: int, f: R -> R): (res: Result<Table<R>>)
    ensures res.Failure? <==> id !in t.rows
    ensures res.Failure? ==> res.error == NotFound("")
    ensures res.Success? ==> res.value.nextId == t.nextId && res.value.rows.Keys == t.rows.Keys
    ensures res.Success? ==> res.value.rows[id] == f(t.rows[id])
    ensures res.Success? ==> forall k | k in t.rows && k != id :: res.value.rows[k] == t.rows[k]
  {
    if id in t.rows then Success(Table(t.rows[id := f(t.rows[id])], t.nextId))
    else Failure(NotFound(""))
  }

  /** A change that keeps the row's email keeps the emails unique. */
  lemma ModifyKeepsEmailsUnique<R>(t: Table<R>, id: int, f: R -> R, email: R -> string)
    requires UniqueEmails(t, email)
    requires id in t.rows ==> email(f(t.rows[id])) == email(t.rows[id])
    ensures Modify(t, id, f).Success? ==> UniqueEmails(Modify(t, id, f).value, email)
  {
  }

  /** A change that keeps the row's email keeps the ids valid and the
      emails unique. */
  lemma ModifyKeepsUnique<R>(t: Table<R>, id: int, f: R -> R, email: R -> string)
    requires forall r :: email(f(r)) == email(r)
    ensures ValidIds(t) && UniqueEmails(t, email) && Modify(t, id, f).Success? ==>
      ValidIds(Modify(t, id, f).value) && UniqueEmails(Modify(t, id, f).value, email)
  {
    if UniqueEmails(t, email) {
      ModifyKeepsEmailsUnique(t, id, f, email);
    }
  }

  /** A change that keeps emails and validity keeps the table invariant. */
  lemma ModifyKeepsInv<R>(t: Table<R>, id: int, f: R -> R, email: R -> string, ok: R -> bool)
    requires forall r :: email(f(r)) == email(r) && (ok(r) ==> ok(f(r)))
    ensures Inv(t, email, ok) && Modify(t, id, f).Success? ==> Inv(Modify(t, id, f).value, email, ok)
  {
    if Inv(t, email, ok) && id in t.rows {
      ModifyKeepsEmailsUnique(t, id, f, email);
    }
  }

  // ------------------------------------------------------------------ listing

  /** The ids present below `n`, ascending. */
  function IdsBelow<R>(rows: map<int, R>, n: int): (ids: seq<int>)
    ensures forall i, j | 0 <= i < j < |ids| :: ids[i] < ids[j]
    ensures forall id :: id in ids <==> id in rows && 1 <= id < n
    decreases n
  {
    if n <= 1 then []
    else
      var p := IdsBelow(rows, n - 1);
      assert forall i | 0 <= i < |p| :: p[i] in p;
      p + (if n - 1 in rows then [n - 1] else [])
  }

  /** The rows of the table as (id, row) pairs in id order. */
  function Rows<R>(t: Table<R>): (r: seq<(int, R)>)
    requires ValidIds(t)
    ensures |r| == |t.rows|
    ensures forall i | 0 <= i < |r| :: r[i].0 in t.rows && r[i].1 == t.rows[r[i].0]
    ensures forall id | id in t.rows :: exists i | 0 <= i < |r| :: r[i].0 == id
    ensures forall i, j | 0 <= i < j < |r| :: r[i].0 < r[j].0
  {
    var ids := IdsBelow(t.rows, t.nextId);
    IdsBelowCount(t);
    PairsOfIds(t.rows, ids);
    Pairs(t.rows, ids)
  }

  /** The (id, row) pairs of the listed ids. */
  function Pairs<R>(rows: map<int, R>, ids: seq<int>): seq<(int, R)>
    requires forall i | 0 <= i < |ids| :: ids[i] in rows
  {
    seq(|ids|, i requires 0 <= i < |ids| => (ids[i], rows[ids[i]]))
  }

  lemma PairsOfIds<R>(rows: map<int, R>, ids: seq<int>)
    requires forall id :: id in ids <==> id in rows && 1 <= id
    requires forall i, j | 0 <= i < j < |ids| :: ids[i] < ids[j]
    ensures forall i | 0 <= i < |ids| :: ids[i] in rows
    ensures forall i | 0 <= i < |ids| :: Pairs(rows, ids)[i] == (ids[i], rows[ids[i]])
    ensures forall id | id in rows && 1 <= id :: exists i | 0 <= i < |ids| :: Pairs(rows, ids)[i].0 == id
  {
    assert forall i | 0 <= i < |ids| :: ids[i] in ids;
    var r := Pairs(rows, ids);
    forall id | id in rows && 1 <= id ensures exists i | 0 <= i < |ids| :: r[i].0 == id {
      assert id in ids;
      var i :| 0 <= i < |ids| && ids[i] == id;
      assert r[i].0 == id;
    }
  }

  lemma IdsBelowCount<R>(t: Table<R>)
    requires ValidIds(t)
    ensures |IdsBelow(t.rows, t.nextId)| == |t.rows|
  {
    var ids := IdsBelow(t.rows, t.nextId);
    DistinctIdsCoverKeys(ids, t.rows.Keys);
  }

  lemma DistinctIdsCoverKeys(ids: seq<int>, keys: set<int>)
    requires forall i, j | 0 <= i < j < |ids| :: ids[i] < ids[j]
    requires forall id :: id in ids <==> id in keys
    ensures |ids| == |keys|
  {
    var s := set i | 0 <= i < |ids| :: ids[i];
    forall id | id in keys ensures id in s {
      var i :| 0 <= i < |ids| && ids[i] == id;
    }
    assert forall i | 0 <= i < |ids| :: ids[i] in ids;
    assert s == keys;
    SortedSeqCardinality(ids);
  }

  lemma {:induction false} SortedSeqCardinality(ids: seq<int>)
    requires forall i, j | 0 <= i < j < |ids| :: ids[i] < ids[j]
    ensures |set i | 0 <= i < |ids| :: ids[i]| == |ids|
    decreases |ids|
  {
    if |ids| > 0 {
      var last := ids[|ids| - 1];
      var front := ids[..|ids| - 1];
      SortedSeqCardinality(front);
      var sf := set i | 0 <= i < |front| :: front[i];
      var s := set i | 0 <= i < |ids| :: ids[i];
      assert s == sf + {last};
      assert last !in sf;
    }
  }

  /** Number of rows satisfying `p`. */
  function CountRows<R>(t: Table<R>, p: R -> bool): nat
    requires ValidIds(t)
  {
    Count(Values(Rows(t)), p)
  }

  /** The records of a list of (id, row) pairs. */
  function Values<R>(s: seq<(int, R)>): (r: seq<R>)
    ensures |r| == |s| && forall i | 0 <= i < |s| :: r[i] == s[i].1
  {
    seq(|s|, i requires 0 <= i < |s| => s[i].1)
  }

  // ------------------------------------------------------------- active rows

  /** `FindAsync(id)` followed by the `IsActive` test of the get endpoints:
      404 for a missing or a deactivated row. */
  function GetActive<R>(t: Table<R>, id: int, active: R -> bool): (res: Result<R>)
    ensures res.Success? <==> id in t.rows && active(t.rows[id])
    ensures res.Success? ==> res.value == t.rows[id]
    ensures res.Failure? ==> res.error == NotFound("")
  {
    if id in t.rows && active(t.rows[id]) then Success(t.rows[id]) else Failure(NotFound(""))
  }

  /** An "include inactive" switch: every row, or only the active ones. */
  function ListedBy<R>(includeInactive: bool, active: R -> bool): R -> bool
  {
    r => includeInactive || active(r)
  }

  /** The rows such a switch lists are all of them, or the active ones. */
  lemma ListedCount<R>(t: Table<R>, includeInactive: bool, active: R -> bool)
    requires ValidIds(t)
    ensures CountRows(t, ListedBy(includeInactive, active)) == if includeInactive then |t.rows| else CountRows(t, active)
  {
    var keep := ListedBy(includeInactive, active);
    if includeInactive {
      CountAllIff(Values(Rows(t)), keep);
    } else {
      CountMonotone(Values(Rows(t)), keep, active);
      CountMonotone(Values(Rows(t)), active, keep);
    }
  }

  /** `Where(active).OrderBy(name)`: exactly the active rows, sorted by name. */
  function ListActive<R(==)>(t: Table<R>, active: R -> bool, name: R -> string,
                             collation: (string, string) -> bool): (r: seq<R>)
    requires ValidIds(t) && TotalPreorder(collation)
    ensures SortedBy(r, name, collation)
    ensures |r| == CountRows(t, active)
    ensures forall i | 0 <= i < |r| :: active(r[i]) && exists id | id in t.rows :: t.rows[id] == r[i]
    ensures forall id | id in t.rows && active(t.rows[id]) :: t.rows[id] in r
  {
    var f := Filter(Values(Rows(t)), active);
    var r := SortBy(f, name, collation);
    ListedRows(t, active, f, r);
    r
  }

  lemma ListedRows<R>(t: Table<R>, active: R -> bool, f: seq<R>, r: seq<R>)
    requires ValidIds(t)
    requires f == Filter(Values(Rows(t)), active) && multiset(r) == multiset(f)
    ensures forall i | 0 <= i < |r| :: active(r[i]) && exists id | id in t.rows :: t.rows[id] == r[i]
    ensures forall id | id in t.rows && active(t.rows[id]) :: t.rows[id] in r
  {
    var rows := Rows(t);
    var vs := Values(rows);
    forall i | 0 <= i < |r| ensures active(r[i]) && exists id | id in t.rows :: t.rows[id] == r[i] {
      assert r[i] in multiset(r);
      assert r[i] in f;
      var j :| 0 <= j < |f| && f[j] == r[i];
      assert f[j] in vs;
      var k :| 0 <= k < |vs| && vs[k] == f[j];
      assert t.rows[rows[k].0] == r[i];
    }
    forall id | id in t.rows && active(t.rows[id]) ensures t.rows[id] in r {
      var k :| 0 <= k < |rows| && rows[k].0 == id;
      assert vs[k] == t.rows[id];
      assert t.rows[id] in f;
      assert t.rows[id] in multiset(f);
    }
  }

  /** `Where(keep).OrderBy(key)` projected with the id: every kept row
      exactly once, next to its id, ordered by `key` under `le`. */
  function ListRows<R(==), K(!new)>(t: Table<R>, keep: R -> bool, key: R -> K, le: (K, K) -> bool)
    : (r: seq<(int, R)>)
    requires ValidIds(t) && TotalPreorder(le)
    ensures forall i, j | 0 <= i < j < |r| :: le(key(r[i].1), key(r[j].1))
    ensures |r| == CountRows(t, keep)
    ensures forall i | 0 <= i < |r| :: r[i].0 in t.rows && r[i].1 == t.rows[r[i].0] && keep(r[i].1)
    ensures forall id | id in t.rows && keep(t.rows[id]) :: exists i | 0 <= i < |r| :: r[i].0 == id
    ensures forall i, j | 0 <= i < j < |r| :: r[i].0 != r[j].0
  {
    var keepPair := (p: (int, R)) => keep(p.1);
    var keyPair := (p: (int, R)) => key(p.1);
    var rows := Rows(t);
    var f := Filter(rows, keepPair);
    var r := SortBy(f, keyPair, le);
    CountPairs(rows, keep, keepPair);
    ListedPairs(t, keepPair, f, r);
    r
  }

  /** Counting pairs by their row counts the rows. */
  lemma {:induction false} CountPairs<R>(s: seq<(int, R)>, keep: R -> bool, keepPair: ((int, R)) -> bool)
    requires forall p :: keepPair(p) == keep(p.1)
    ensures Count(s, keepPair) == Count(Values(s), keep)
    decreases |s|
  {
    if |s| > 0 {
      CountPairs(s[1..], keep, keepPair);
      assert Values(s)[1..] == Values(s[1..]);
    }
  }

  lemma ListedPairs<R>(t: Table<R>, keepPair: ((int, R)) -> bool, f: seq<(int, R)>, r: seq<(int, R)>)
    requires ValidIds(t)
    requires f == Filter(Rows(t), keepPair) && multiset(r) == multiset(f)
    ensures forall i | 0 <= i < |r| :: r[i].0 in t.rows && r[i].1 == t.rows[r[i].0] && keepPair(r[i])
    ensures forall id | id in t.rows && keepPair((id, t.rows[id])) :: exists i | 0 <= i < |r| :: r[i].0 == id
    ensures forall i, j | 0 <= i < j < |r| :: r[i].0 != r[j].0
  {
    forall i | 0 <= i < |r| ensures r[i].0 in t.rows && r[i].1 == t.rows[r[i].0] && keepPair(r[i]) {
      assert r[i] in multiset(r);
      assert r[i] in f;
    }
    forall id | id in t.rows && keepPair((id, t.rows[id])) ensures exists i | 0 <= i < |r| :: r[i].0 == id {
      ListedRowPresent(t, keepPair, f, r, id);
    }
    forall i, j | 0 <= i < j < |r| ensures r[i].0 != r[j].0 {
      ListedOnce(t, keepPair, f, r, i, j);
    }
  }

  lemma ListedRowPresent<R>(t: Table<R>, keepPair: ((int, R)) -> bool, f: seq<(int, R)>, r: seq<(int, R)>, id: int)
    requires ValidIds(t)
    requires f == Filter(Rows(t), keepPair) && multiset(r) == multiset(f)
    requires id in t.rows && keepPair((id, t.rows[id]))
    ensures exists i | 0 <= i < |r| :: r[i].0 == id
  {
    var rows := Rows(t);
    var k :| 0 <= k < |rows| && rows[k].0 == id;
    assert rows[k] in f;
    assert rows[k] in multiset(r);
    var i :| 0 <= i < |r| && r[i] == rows[k];
  }

  lemma ListedOnce<R>(t: Table<R>, keepPair: ((int, R)) -> bool, f: seq<(int, R)>, r: seq<(int, R)>, i: nat, j: nat)
    requires ValidIds(t)
    requires f == Filter(Rows(t), keepPair) && multiset(r) == multiset(f)
    requires i < j < |r|
    ensures r[i].0 != r[j].0
  {
    var rows := Rows(t);
    if r[i].0 == r[j].0 {
      assert r[i] in multiset(r) && r[j] in multiset(r);
      assert r[i] in f && r[j] in f;
      assert r[i] == r[j];
      TwoPositions(r, i, j);
      FilterSubMultiset(rows, keepPair);
      assert Distinct(rows);
      DistinctOnce(rows, r[i]);
      assert false;
    }
  }

  // ------------------------------------------------------------ counts move

  /** The listed ids depend only on which keys are present below the bound. */
  lemma {:induction false} IdsBelowSameKeys<R>(a: map<int, R>, b: map<int, R>, n: int)
    requires forall k | k < n :: k in a <==> k in b
    ensures IdsBelow(a, n) == IdsBelow(b, n)
    decreases n
  {
    if n > 1 {
      IdsBelowSameKeys(a, b, n - 1);
    }
  }

  /** The records of the rows with the listed ids, in that order. */
  function RowValues<R>(rows: map<int, R>, ids: seq<int>): (r: seq<R>)
    requires forall i | 0 <= i < |ids| :: ids[i] in rows
    ensures |r| == |ids|
  {
    seq(|ids|, i requires 0 <= i < |ids| => rows[ids[i]])
  }

  lemma ValuesOfRows<R>(t: Table<R>)
    requires ValidIds(t)
    ensures forall i | 0 <= i < |IdsBelow(t.rows, t.nextId)| :: IdsBelow(t.rows, t.nextId)[i] in t.rows
    ensures Values(Rows(t)) == RowValues(t.rows, IdsBelow(t.rows, t.nextId))
  {
    var ids := IdsBelow(t.rows, t.nextId);
    PairsOfIds(t.rows, ids);
  }

  /** Replacing row `id` changes a count only by that row's contribution. */
  lemma CountAfterChange<R>(t: Table<R>, id: int, x: R, p: R -> bool)
    requires ValidIds(t) && id in t.rows
    ensures ValidIds(Table(t.rows[id := x], t.nextId))
    ensures CountRows(Table(t.rows[id := x], t.nextId), p) + (if p(t.rows[id]) then 1 else 0)
         == CountRows(t, p) + (if p(x) then 1 else 0)
  {
    var k := ChangedValue(t, id, x);
    CountUpdate(Values(Rows(t)), k, x, p);
  }

  /** Changing a row replaces its record, at its place, in the listed
      records. */
  lemma ChangedValue<R>(t: Table<R>, id: int, x: R) returns (k: nat)
    requires ValidIds(t) && id in t.rows
    ensures ValidIds(Table(t.rows[id := x], t.nextId))
    ensures k < |Values(Rows(t))| && Values(Rows(t))[k] == t.rows[id]
    ensures Values(Rows(Table(t.rows[id := x], t.nextId))) == Values(Rows(t))[k := x]
  {
    var u := Table(t.rows[id := x], t.nextId);
    IdsBelowSameKeys(t.rows, u.rows, t.nextId);
    var ids := IdsBelow(t.rows, t.nextId);
    ValuesOfRows(t);
    ValuesOfRows(u);
    assert id in ids;
    k := IndexIn(ids, id);
    ReplacedRow(t.rows, ids, k, x);
  }

  lemma ReplacedRow<R>(rows: map<int, R>, ids: seq<int>, k: nat, x: R)
    requires forall i | 0 <= i < |ids| :: ids[i] in rows
    requires forall i, j | 0 <= i < j < |ids| :: ids[i] < ids[j]
    requires k < |ids|
    ensures RowValues(rows[ids[k] := x], ids) == RowValues(rows, ids)[k := x]
  {
  }

  /** An insert adds the new row's contribution to every count. */
  lemma CountAfterAdd<R>(t: Table<R>, x: R, p: R -> bool)
    requires ValidIds(t)
    ensures CountRows(Add(t, x).0, p) == CountRows(t, p) + (if p(x) then 1 else 0)
  {
    var u := Add(t, x).0;
    IdsBelowSameKeys(t.rows, u.rows, t.nextId);
    var ids := IdsBelow(t.rows, t.nextId);
    assert IdsBelow(u.rows, u.nextId) == ids + [t.nextId];
    ValuesOfRows(t);
    ValuesOfRows(u);
    AppendedRow(t.rows, ids, t.nextId, x);
    CountConcat(RowValues(t.rows, ids), [x], p);
  }

  lemma AppendedRow<R>(rows: map<int, R>, ids: seq<int>, n: int, x: R)
    requires forall i | 0 <= i < |ids| :: ids[i] in rows && ids[i] < n
    ensures RowValues(rows[n := x], ids + [n]) == RowValues(rows, ids) + [x]
  {
  }
}
