/** The music-school page: the search box and the three drop-down filters
    over the loaded students, the instrument options, the attendance column,
    the payment chip, and the checks and messages of the save dialog. */
module MusicSchoolPage {
  import opened Common
  import opened Text
  import opened Dates
  import opened Counting
  import opened Tables
  import opened Forms
  import MusicSchool

  type Student = MusicSchool.Student

  // ------------------------------------------------------------- filtering

  /** The page's filter settings; "" means "not set". */
  datatype Filters = Filters(search: string, instrument: string, level: string, paymentStatus: string)

  const NoFilters := Filters("", "", "", "")

  /** The search term occurs, ignoring case, in the name, the email or the
      instrument. */
  predicate Searched(s: Student, term: string)
  {
    Includes(Lower(s.name), Lower(term)) || Includes(Lower(s.email), Lower(term))
    || Includes(Lower(s.instrument), Lower(term))
  }

  /** The reference reading of the filters: every filter that is set holds. */
  predicate Passes(s: Student, f: Filters)
  {
    (f.search == "" || Searched(s, f.search))
    && (f.instrument == "" || s.instrument == f.instrument)
    && (f.level == "" || s.level == f.level)
    && (f.paymentStatus == "" || s.paymentStatus == f.paymentStatus)
  }

  function PassesAll(f: Filters): Student -> bool
  {
    s => Passes(s, f)
  }

  function BySearch(term: string): Student -> bool { s => Searched(s, term) }
  function ByInstrument(i: string): Student -> bool { (s: Student) => s.instrument == i }
  function ByLevel(l: string): Student -> bool { (s: Student) => s.level == l }
  function ByPayment(p: string): Student -> bool { (s: Student) => s.paymentStatus == p }

  /** `applyFilters`: the search, then each drop-down that is set, one
      `filter` after another. */
  function ApplyFilters(students: seq<Student>, f: Filters): (r: seq<Student>)
    ensures f == NoFilters ==> r == students
    ensures |r| <= |students|
  {
    var a := if f.search != "" then Filter(students, BySearch(f.search)) else students;
    var b := if f.instrument != "" then Filter(a, ByInstrument(f.instrument)) else a;
    var c := if f.level != "" then Filter(b, ByLevel(f.level)) else b;
    if f.paymentStatus != "" then Filter(c, ByPayment(f.paymentStatus)) else c
  }

  /** The stage that keeps everything when its filter is not set. */
  function Stage(on: bool, p: Student -> bool): Student -> bool
  {
    s => !on || p(s)
  }

  /** One optional `filter` call is a filter by its stage. */
  lemma OptionalFilter(s: seq<Student>, on: bool, p: Student -> bool)
    ensures (if on then Filter(s, p) else s) == Filter(s, Stage(on, p))
  {
    if on {
      FilterSame(s, p, Stage(on, p));
    } else {
      FilterAll(s, Stage(on, p));
    }
  }

  /** The chain of filters is one filter by the conjunction of the set
      filters: the result is the order-preserving subsequence of exactly the
      students that pass them all. */
  lemma ApplyFiltersIsOnePass(students: seq<Student>, f: Filters)
    ensures ApplyFilters(students, f) == Filter(students, PassesAll(f))
  {
    var s1 := Stage(f.search != "", BySearch(f.search));
    var s2 := Stage(f.instrument != "", ByInstrument(f.instrument));
    var s3 := Stage(f.level != "", ByLevel(f.level));
    var s4 := Stage(f.paymentStatus != "", ByPayment(f.paymentStatus));
    var s12 := (s: Student) => s1(s) && s2(s);
    var s123 := (s: Student) => s12(s) && s3(s);
    var a := Filter(students, s1);
    OptionalFilter(students, f.search != "", BySearch(f.search));
    OptionalFilter(a, f.instrument != "", ByInstrument(f.instrument));
    FilterFilter(students, s1, s2, s12);
    var b := Filter(students, s12);
    OptionalFilter(b, f.level != "", ByLevel(f.level));
    FilterFilter(students, s12, s3, s123);
    var c := Filter(students, s123);
    OptionalFilter(c, f.paymentStatus != "", ByPayment(f.paymentStatus));
    forall x: Student ensures PassesAll(f)(x) <==> s123(x) && s4(x) {
      assert s1(x) == (f.search == "" || Searched(x, f.search));
      assert s2(x) == (f.instrument == "" || x.instrument == f.instrument);
      assert s3(x) == (f.level == "" || x.level == f.level);
      assert s4(x) == (f.paymentStatus == "" || x.paymentStatus == f.paymentStatus);
      assert PassesAll(f)(x) == Passes(x, f);
    }
    FilterFilter(students, s123, s4, PassesAll(f));
  }

  /** A student is listed exactly when it is loaded and passes every filter
      that is set. */
  lemma ApplyFiltersMembers(students: seq<Student>, f: Filters, s: Student)
    ensures s in ApplyFilters(students, f) <==> s in students && Passes(s, f)
  {
    ApplyFiltersIsOnePass(students, f);
    var r := Filter(students, PassesAll(f));
    if s in students && Passes(s, f) {
      var i :| 0 <= i < |students| && students[i] == s;
      assert PassesAll(f)(students[i]);
    }
  }

  // ----------------------------------------------------- instrument options

  predicate NonEmpty(s: string) { s != "" }

  /** `[...new Set(students.map(s => s.instrument))].filter(Boolean)`: the
      distinct non-empty instruments, in order of first appearance. */
  function InstrumentOptions(students: seq<Student>): (r: seq<string>)
    ensures Distinct(r)
    ensures forall i | 0 <= i < |r| :: r[i] != "" && r[i] in Select(students, MusicSchool.InstrumentOf)
    ensures forall i | 0 <= i < |students| && students[i].instrument != "" :: students[i].instrument in r
  {
    var all := Select(students, MusicSchool.InstrumentOf);
    var d := FirstAppearance(all);
    FilterDistinct(d, NonEmpty);
    assert forall i | 0 <= i < |students| :: all[i] == students[i].instrument;
    Filter(d, NonEmpty)
  }

  // ------------------------------------------------------- attendance column

  /** `Math.round(attended / total * 100)` on exact rationals: the percentage
      nearest to the ratio, halves rounded up. */
  function Percent(attended: int, total: int): (p: int)
    requires total > 0
    ensures 2 * total * p <= 200 * attended + total < 2 * total * (p + 1)
    ensures 0 <= attended <= total ==> 0 <= p <= 100
  {
    var p := (200 * attended + total) / (2 * total);
    assert 0 <= attended <= total ==> p <= 100 by {
      if 0 <= attended <= total {
        assert 200 * attended + total < 2 * total * 101;
        BelowProduct(2 * total, p, 101);
      }
    }
    p
  }

  /** A factor of a smaller product of the same positive number is smaller. */
  lemma BelowProduct(d: int, p: int, q: int)
    requires d > 0 && d * p < d * q
    ensures p < q
  {
  }

  /** What the attendance cell shows. */
  datatype Cell = Dash | Ratio(attended: int, total: int, percent: int)
  {
    function Text(): string
    {
      match this
      case Dash => "-"
      case Ratio(a, t, p) => IntToString(a) + "/" + IntToString(t) + " (" + IntToString(p) + "%)"
    }
  }

  /** The cell: '-' unless some class was given, otherwise attended/total with
      the rounded percentage. */
  function AttendanceCell(s: Student): (c: Cell)
    ensures c.Dash? <==> s.totalClasses <= 0
    ensures c.Ratio? ==> c.attended == s.attendedClasses && c.total == s.totalClasses
    ensures c.Ratio? && 0 <= s.attendedClasses <= s.totalClasses ==> 0 <= c.percent <= 100
  {
    if s.totalClasses > 0 then Ratio(s.attendedClasses, s.totalClasses, Percent(s.attendedClasses, s.totalClasses))
    else Dash
  }

  /** After a class is registered for a student whose counters were
      consistent, the cell shows a ratio of at most 100%. */
  lemma CellAfterAttendance(t: Table<Student>, id: int)
    requires id in t.rows && MusicSchool.Int32Classes(t.rows[id])
    requires 0 <= t.rows[id].attendedClasses <= t.rows[id].totalClasses < MusicSchool.MaxInt32
    ensures var c := AttendanceCell(MusicSchool.RegisterAttendance(t, id).value.rows[id]);
      c.Ratio? && c.total == t.rows[id].totalClasses + 1 && c.attended == t.rows[id].attendedClasses + 1
      && 0 <= c.percent <= 100
  {
    MusicSchool.AttendanceKeepsDifference(t, id);
  }

  // ------------------------------------------------------------ payment chip

  const Pending := "Pendente"
  const Late := "Atrasado"

  /** `getPaymentStatusColor`. */
  function PaymentColour(status: string): (c: Tone)
    ensures c == ToneSuccess <==> status == PaidUp
    ensures c == ToneWarning <==> status == Pending
    ensures c == ToneError <==> status == Late
    ensures c == ToneDefault <==> status != PaidUp && status != Pending && status != Late
  {
    if status == PaidUp then ToneSuccess
    else if status == Pending then ToneWarning
    else if status == Late then ToneError
    else ToneDefault
  }

  predicate NotGreen(s: Student) { PaymentColour(s.paymentStatus) != ToneSuccess }

  /** The "pending payment" figure of the statistics counts exactly the active
      students whose chip is not green. */
  lemma PendingCountIsNonGreenChips(t: Table<Student>)
    requires ValidIds(t)
    ensures MusicSchool.GetStats(t).studentsWithPendingPayment == Count(MusicSchool.Actives(t), NotGreen)
  {
    CountSame(MusicSchool.Actives(t), MusicSchool.Unpaid, NotGreen);
  }

  /** A registered payment turns the student's chip green. */
  lemma PaymentTurnsChipGreen(t: Table<Student>, id: int, now: Date)
    requires id in t.rows
    ensures PaymentColour(MusicSchool.RegisterPayment(t, id, now).value.rows[id].paymentStatus) == ToneSuccess
  {
  }

  // ------------------------------------------------------------ save dialog

  /** The required fields of the dialog, in the order they are reported. */
  function RequiredFields(s: Student): seq<(string, string)>
  {
    [("Nome Completo", s.name), ("Email", s.email), ("Telefone", s.phone),
     ("Instrumento", s.instrument), ("Nível", s.level)]
  }

  /** `handleSave` before the request: the blank fields, then the email. */
  function Validate(s: Student): (c: Check)
    ensures c.Send? <==>
      !JsBlank(s.name) && !JsBlank(s.email) && !JsBlank(s.phone) && !JsBlank(s.instrument)
      && !JsBlank(s.level) && EmailShape(s.email)
    ensures c.InvalidEmail? ==> !EmailShape(s.email)
  {
    var fields := RequiredFields(s);
    FilledIff(s);
    CheckForm(fields, s.email)
  }

  lemma FilledIff(s: Student)
    ensures (forall i | 0 <= i < |RequiredFields(s)| :: !JsBlank(RequiredFields(s)[i].1)) <==>
      !JsBlank(s.name) && !JsBlank(s.email) && !JsBlank(s.phone) && !JsBlank(s.instrument) && !JsBlank(s.level)
  {
    Filled5(RequiredFields(s), JsBlank);
  }

  lemma LabelsDistinct(s: Student)
    ensures Distinct(Labels(RequiredFields(s)))
  {
    assert Labels(RequiredFields(s)) == ["Nome Completo", "Email", "Telefone", "Instrumento", "Nível"];
  }

  /** The reported labels are those of the blank fields, in dialog order. */
  lemma ReportsBlankFieldsInOrder(s: Student)
    ensures Validate(s).MissingFields? ==>
      Validate(s).labels == Labels(Filter(RequiredFields(s), BlankField))
  {
    MissingLabelsAreBlankFields(RequiredFields(s));
  }

  /** Each label is reported exactly when its field is blank. */
  lemma ReportedIffBlank(s: Student, k: nat)
    requires k < 5
    ensures Validate(s).MissingFields? ==>
      (RequiredFields(s)[k].0 in Validate(s).labels <==> JsBlank(RequiredFields(s)[k].1))
  {
    LabelsDistinct(s);
    Forms.ReportedIffBlank(RequiredFields(s), k);
  }

  const SaveFallback := "Erro ao salvar aluno. Verifique sua conexão e tente novamente."

  /** The `catch` of `handleSave`: 400, 409, 500, anything else. */
  function SaveRules(): seq<(int, Shown)>
  {
    [(400, ServerOr(InvalidData)), (409, Fixed(MusicSchool.AlreadyStudent)), (500, Fixed(ServerTrouble))]
  }

  function SaveBanner(f: Failure): string
  {
    Banner(f, SaveRules(), ServerOr(SaveFallback))
  }

  /** The banner for each status: a 400 shows the server's message when it
      sends one, 409 and 500 fixed texts, anything else the server's message
      or the connection hint. */
  lemma SaveBannerCases(f: Failure)
    ensures f.Status() == Some(400) ==> SaveBanner(f) == OrElse(f.ServerMessage(), InvalidData)
    ensures f.Status() == Some(409) ==> SaveBanner(f) == MusicSchool.AlreadyStudent
    ensures f.Status() == Some(500) ==> SaveBanner(f) == ServerTrouble
    ensures f.Status() != Some(400) && f.Status() != Some(409) && f.Status() != Some(500) ==>
      SaveBanner(f) == OrElse(f.ServerMessage(), SaveFallback)
  {
    var rules := SaveRules();
    if f.Status() == Some(409) {
      BannerFirstMatch(f, rules, ServerOr(SaveFallback), 1);
    } else if f.Status() == Some(500) {
      BannerFirstMatch(f, rules, ServerOr(SaveFallback), 2);
    }
  }

  /** The controller never answers a save with 409: a duplicate email is a
      400 carrying "Email já cadastrado", which is what the banner shows, and
      the page's own duplicate text is never reached. */
  lemma DuplicateShowsServerText(t: Table<Student>, id: int, body: Student, now: Date)
    requires ValidIds(t)
    ensures MusicSchool.CreateStudent(t, body, now).Failure? ==>
      MusicSchool.CreateStudent(t, body, now).error.Status() == 400
    ensures MusicSchool.UpdateStudent(t, id, body).Failure? ==>
      MusicSchool.UpdateStudent(t, id, body).error.Status() in {400, 404}
    ensures SaveBanner(Duplicate) == EmailTaken
  {
    SaveBannerCases(Duplicate);
  }
}
