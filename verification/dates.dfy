/** Calendar dates as the back office uses them: `DateTime` values whose time
    of day is irrelevant, the .NET `AddYears` rule, the three age formulas
    (server years, browser years, months) and the `dd/MM/yyyy` and
    `yyyyMMddHHmmss` renderings. */
module Dates {
  import opened Common
  import opened Text

  /** A proleptic Gregorian calendar day. */
  datatype Date = Date(year: int, month: int, day: int)

  predicate IsLeap(y: int)
  {
    y % 4 == 0 && (y % 100 != 0 || y % 400 == 0)
  }

  function DaysInMonth(y: int, m: int): (n: int)
    requires 1 <= m <= 12
    ensures 28 <= n <= 31
    ensures n == 29 <==> m == 2 && IsLeap(y)
  {
    if m == 2 then (if IsLeap(y) then 29 else 28)
    else if m == 4 || m == 6 || m == 9 || m == 11 then 30
    else 31
  }

  /** The range `DateTime` can represent: years 1 to 9999. */
  predicate Valid(d: Date)
  {
    1 <= d.year <= 9999 && 1 <= d.month <= 12 && 1 <= d.day <= DaysInMonth(d.year, d.month)
  }

  /** A date a `DateTime` can hold: the only kind JSON binding produces. */
  type CalendarDate = d: Date | Valid(d) witness Date(1, 1, 1)

  /** `DateTime.MinValue`, the value a non-nullable date holds when never set. */
  const MinValue := Date(1, 1, 1)

  /** Chronological order: `a < b`. */
  predicate Before(a: Date, b: Date)
  {
    a.year < b.year || (a.year == b.year && (a.month < b.month || (a.month == b.month && a.day < b.day)))
  }

  /** `a <= b`. */
  predicate NotAfter(a: Date, b: Date)
  {
    !Before(b, a)
  }

  lemma BeforeTotalOrder(a: Date, b: Date, c: Date)
    ensures !Before(a, a)
    ensures Before(a, b) || Before(b, a) || a == b
    ensures Before(a, b) && Before(b, c) ==> Before(a, c)
  {
  }

  // ------------------------------------------------------------------- years

  /** The day `d` falls on in year `y`: the same month and day, except that
      29 February becomes 28 February in a common year. */
  function Anniversary(d: Date, y: int): (r: Date)
    ensures r.year == y && r.month == d.month
    ensures r.day == d.day || (d.month == 2 && d.day == 29 && !IsLeap(y) && r.day == 28)
  {
    Date(y, d.month, if d.month == 2 && d.day == 29 && !IsLeap(y) then 28 else d.day)
  }

  /** `d.AddYears(n)`; .NET throws when the result leaves the calendar range,
      so the caller must stay inside it. */
  function AddYears(d: Date, n: int): (r: Date)
    requires Valid(d) && 1 <= d.year + n <= 9999
    ensures Valid(r)
    ensures r == Anniversary(d, d.year + n)
  {
    Anniversary(d, d.year + n)
  }

  /** Anniversaries of one birth date are strictly ordered by their year. */
  lemma AnniversariesOrdered(b: Date, y1: int, y2: int)
    ensures Before(Anniversary(b, y1), Anniversary(b, y2)) <==> y1 < y2
  {
  }

  /** The `Age` property of the member and jiu-jitsu DTOs:
      `Today.Year - Birth.Year - (Today < Birth.AddYears(Today.Year - Birth.Year) ? 1 : 0)`. */
  function Age(birth: Date, today: Date): (age: int)
    requires Valid(birth) && Valid(today)
    ensures NotAfter(birth, today) ==> age >= 0
    ensures today.year - birth.year - 1 <= age <= today.year - birth.year
  {
    var diff := today.year - birth.year;
    diff - (if Before(today, AddYears(birth, diff)) then 1 else 0)
  }

  /** The server age is `n` exactly when `today` lies between the `n`-th
      anniversary (inclusive) and the next one (exclusive): it grows by one on
      each anniversary and at no other time. */
  lemma {:induction false} AgeIffBetweenAnniversaries(birth: Date, today: Date, n: int)
    requires Valid(birth) && Valid(today)
    ensures Age(birth, today) == n <==>
      NotAfter(Anniversary(birth, birth.year + n), today) && Before(today, Anniversary(birth, birth.year + n + 1))
  {
    var a := Age(birth, today);
    assert NotAfter(Anniversary(birth, birth.year + a), today);
    assert Before(today, Anniversary(birth, birth.year + a + 1));
    AnniversariesOrdered(birth, birth.year + n, birth.year + a + 1);
    AnniversariesOrdered(birth, birth.year + a, birth.year + n + 1);
  }

  /** The nullable `Age` of the member, family-member and jiu-jitsu DTOs:
      absent without a birth date, otherwise the number of anniversaries
      reached by `today`. */
  function NullableAge(birth: Option<Date>, today: Date): (r: Option<int>)
    requires birth.Some? ==> Valid(birth.value)
    requires Valid(today)
    ensures r.None? <==> birth.None?
    ensures r.Some? ==>
      NotAfter(Anniversary(birth.value, birth.value.year + r.value), today)
      && Before(today, Anniversary(birth.value, birth.value.year + r.value + 1))
  {
    match birth
    case None => None
    case Some(b) =>
      AgeIffBetweenAnniversaries(b, today, Age(b, today));
      Some(Age(b, today))
  }

  /** Someone born on 29 February is a year older on 28 February of a common year. */
  lemma LeapdayBirthdayInCommonYear(birth: Date, today: Date)
    requires Valid(birth) && Valid(today)
    requires birth.month == 2 && birth.day == 29
    requires today.month == 2 && today.day == 28 && !IsLeap(today.year)
    ensures Age(birth, today) == today.year - birth.year
  {
  }

  /** The pre-registration page's `calculateAge`: year difference, minus one
      while the month/day of birth has not been reached this year. */
  function BrowserAge(birth: Date, today: Date): (age: int)
    ensures today.year - birth.year - 1 <= age <= today.year - birth.year
    ensures age == today.year - birth.year <==>
      today.month > birth.month || (today.month == birth.month && today.day >= birth.day)
  {
    var diff := today.year - birth.year;
    var monthDiff := today.month - birth.month;
    if monthDiff < 0 || (monthDiff == 0 && today.day < birth.day) then diff - 1 else diff
  }

  /** The browser and the server agree on every age except on 28 February of a
      common year for someone born on 29 February, where the browser is one
      year behind. */
  lemma BrowserAgeVersusServerAge(birth: Date, today: Date)
    requires Valid(birth) && Valid(today)
    ensures BrowserAge(birth, today) ==
      if birth.month == 2 && birth.day == 29 && today.month == 2 && today.day == 28 && !IsLeap(today.year)
      then Age(birth, today) - 1
      else Age(birth, today)
  {
  }

  // ------------------------------------------------------------------ months

  /** `AgeInMonths` of the child-presentation DTO and the page's month count:
      the calendar-month difference, ignoring the day of the month. */
  function MonthsBetween(birth: Date, today: Date): (n: int)
    ensures today.year == birth.year && today.month == birth.month ==> n == 0
    ensures 1 <= today.month <= 12 && 1 <= birth.month <= 12 ==>
      (n < 0 <==> today.year < birth.year || (today.year == birth.year && today.month < birth.month))
  {
    (today.year - birth.year) * 12 + today.month - birth.month
  }

  /** `AgeInMonths`: absent only for a birth date equal to `DateTime.MinValue`. */
  function AgeInMonths(birth: Date, today: Date): (r: Option<int>)
    ensures r.None? <==> birth == MinValue
  {
    if birth != MinValue then Some(MonthsBetween(birth, today)) else None
  }

  /** Counting whole months and discounting an unreached day gives the browser
      age: the two formulas measure the same thing at different grain. */
  lemma BrowserAgeFromMonths(birth: Date, today: Date)
    requires 1 <= birth.month <= 12 && 1 <= today.month <= 12
    ensures BrowserAge(birth, today) ==
      (MonthsBetween(birth, today) - (if today.day < birth.day then 1 else 0)) / 12
  {
    var diff := today.year - birth.year;
    var r := today.month - birth.month - (if today.day < birth.day then 1 else 0);
    var m := MonthsBetween(birth, today) - (if today.day < birth.day then 1 else 0);
    assert m == 12 * diff + r;
    if r < 0 {
      assert m == 12 * (diff - 1) + (r + 12) && 0 <= r + 12 < 12;
      DivideExactly(m, diff - 1, r + 12);
    } else {
      DivideExactly(m, diff, r);
    }
  }

  /** Euclidean division by 12 is determined by quotient and remainder. */
  lemma DivideExactly(m: int, q: int, r: int)
    requires m == 12 * q + r && 0 <= r < 12
    ensures m / 12 == q && m % 12 == r
  {
  }

  /** The page's label for a month count: "{n} meses" below a year, otherwise
      "{y} anos" followed by " e {m} meses" when months remain. */
  function MonthsLabel(n: int): (r: string)
    ensures n < 12 ==> r == IntToString(n) + " meses"
  {
    if n < 12 then IntToString(n) + " meses"
    else
      var years := n / 12;
      var months := n % 12;
      if months > 0 then NatToString(years) + " anos e " + NatToString(months) + " meses"
      else NatToString(years) + " anos"
  }

  /** Reads a decimal integer written by `IntToString`. */
  function ReadInt(s: string): Option<int>
  {
    if |s| > 1 && s[0] == '-' && AllDigits(s[1..]) then Some(0 - ParseNat(s[1..]) as int)
    else if |s| > 0 && AllDigits(s) then Some(ParseNat(s))
    else None
  }

  lemma ReadIntToString(i: int)
    ensures ReadInt(IntToString(i)) == Some(i)
  {
    var n: nat := if i < 0 then -i else i;
    var digits := NatToString(n);
    ParseNatToString(n);
    assert IsDigit(digits[0]);
    if i < 0 {
      assert IntToString(i) == "-" + digits;
      assert ("-" + digits)[1..] == digits;
    } else {
      assert IntToString(i) == digits && digits[0] != '-';
    }
  }

  /** Reads a label back into its month count. */
  function ReadMonthsLabel(s: string): Option<int>
  {
    ReadLabelWords(Split(s, ' '))
  }

  /** The words of a label read back: "{n} meses", "{y} anos" or
      "{y} anos e {m} meses". */
  function ReadLabelWords(w: seq<string>): Option<int>
  {
    if |w| == 2 && w[1] == "meses" then ReadInt(w[0])
    else if |w| == 2 && w[1] == "anos" && ReadInt(w[0]).Some? then Some(12 * ReadInt(w[0]).value)
    else if |w| == 5 && w[1] == "anos" && w[2] == "e" && w[4] == "meses"
      && ReadInt(w[0]).Some? && ReadInt(w[3]).Some?
    then Some(12 * ReadInt(w[0]).value + ReadInt(w[3]).value)
    else None
  }

  /** The words of a label, as `Split(label, ' ')` yields them. */
  function LabelWords(n: int): seq<string>
  {
    if n < 12 then [IntToString(n), "meses"]
    else if n % 12 > 0 then [IntToString(n / 12), "anos", "e", IntToString(n % 12), "meses"]
    else [IntToString(n / 12), "anos"]
  }

  lemma LabelIsJoinOfWords(n: int)
    ensures MonthsLabel(n) == Join(LabelWords(n), ' ')
  {
    if n < 12 {
      LabelJoins(IntToString(n), "");
    } else {
      LabelJoins(IntToString(n / 12), IntToString(n % 12));
    }
  }

  /** The three shapes of label, joined from their words. */
  lemma LabelJoins(a: string, b: string)
    ensures Join([a, "meses"], ' ') == a + " meses"
    ensures Join([a, "anos"], ' ') == a + " anos"
    ensures Join([a, "anos", "e", b, "meses"], ' ') == a + " anos e " + b + " meses"
  {
    JoinTwo(a, "meses");
    assert [' '] + "meses" == " meses";
    JoinTwo(a, "anos");
    assert [' '] + "anos" == " anos";
    JoinFive(a, b);
  }

  lemma JoinTwo(a: string, w: string)
    ensures Join([a, w], ' ') == a + [' '] + w
  {
    JoinCons(a, [w]);
  }

  lemma JoinFive(a: string, b: string)
    ensures Join([a, "anos", "e", b, "meses"], ' ') == a + " anos e " + b + " meses"
  {
    JoinCons(b, ["meses"]);
    JoinCons("e", [b, "meses"]);
    JoinCons("anos", ["e", b, "meses"]);
    JoinCons(a, ["anos", "e", b, "meses"]);
    assert [' '] + "anos" + [' '] + "e" + [' '] == " anos e ";
  }

  lemma JoinCons(w: string, ws: seq<string>)
    requires |ws| >= 1
    ensures Join([w] + ws, ' ') == w + [' '] + Join(ws, ' ')
  {
    assert ([w] + ws)[1..] == ws;
  }

  lemma SplitLabel(n: int)
    ensures Split(MonthsLabel(n), ' ') == LabelWords(n)
  {
    var ws := LabelWords(n);
    LabelIsJoinOfWords(n);
    NoSpaceInNumeral(n);
    NoSpaceInNumeral(n / 12);
    NoSpaceInNumeral(n % 12);
    assert forall i | 0 <= i < |ws| :: ' ' !in ws[i];
    SplitJoin(ws, ' ');
  }

  /** Every label names its month count unambiguously. */
  lemma MonthsLabelRoundTrip(n: int)
    ensures ReadMonthsLabel(MonthsLabel(n)) == Some(n)
  {
    SplitLabel(n);
    ReadLabelWordsOfLabel(n);
  }

  lemma ReadLabelWordsOfLabel(n: int)
    ensures ReadLabelWords(LabelWords(n)) == Some(n)
  {
    if n < 12 {
      ReadIntToString(n);
      assert |"meses"| != |"anos"|;
    } else if n % 12 > 0 {
      ReadIntToString(n / 12);
      ReadIntToString(n % 12);
      assert LabelWords(n) == [IntToString(n / 12), "anos", "e", IntToString(n % 12), "meses"];
    } else {
      ReadIntToString(n / 12);
      assert LabelWords(n) == [IntToString(n / 12), "anos"];
      assert |"anos"| != |"meses"|;
    }
  }

  /** A rendered integer is a single word. */
  lemma NoSpaceInNumeral(i: int)
    ensures ' ' !in IntToString(i)
  {
    var s := IntToString(i);
    if i < 0 {
      assert s == "-" + NatToString(-i);
      assert forall k | 1 <= k < |s| :: s[k] == NatToString(-i)[k - 1];
    }
  }

  // ---------------------------------------------------------------- rendering

  /** A number below `bound = 10^w` has at most `w` digits. */
  lemma {:induction false} NatToStringWidth(n: nat, w: nat, bound: nat)
    requires (w == 1 && bound == 10) || (w == 2 && bound == 100) || (w == 3 && bound == 1000)
      || (w == 4 && bound == 10000)
    requires n < bound
    ensures |NatToString(n)| <= w
    decreases w
  {
    if n >= 10 {
      if w == 2 {
        NatToStringWidth(n / 10, 1, 10);
      } else if w == 3 {
        NatToStringWidth(n / 10, 2, 100);
      } else {
        NatToStringWidth(n / 10, 3, 1000);
      }
    }
  }

  /** `n` written with exactly `w` zero-padded digits (the `dd`, `MM`, `HH`,
      `mm`, `ss` and `yyyy` format specifiers). */
  function Fixed(n: nat, w: nat): (r: string)
    requires (w == 2 && n < 100) || (w == 4 && n < 10000)
    ensures |r| == w && AllDigits(r) && ParseNat(r) == n
  {
    NatToStringWidth(n, w, if w == 2 then 100 else 10000);
    ParsePadded(n, w);
    PadLeft(NatToString(n), w, '0')
  }

  /** `ToString("dd/MM/yyyy")`. */
  function FormatDate(d: Date): (r: string)
    requires Valid(d)
    ensures |r| == 10 && r[2] == '/' && r[5] == '/'
  {
    var dd, mm, yy := Fixed(d.day, 2), Fixed(d.month, 2), Fixed(d.year, 4);
    SlashesAt(dd, mm, yy);
    dd + "/" + mm + "/" + yy
  }

  lemma SlashesAt(dd: string, mm: string, yy: string)
    requires |dd| == 2 && |mm| == 2 && |yy| == 4
    ensures var r := dd + "/" + mm + "/" + yy; |r| == 10 && r[2] == '/' && r[5] == '/'
  {
  }

  /** Reads a `dd/MM/yyyy` rendering. */
  function ParseDate(s: string): Option<Date>
  {
    var p := Split(s, '/');
    if |p| == 3 && AllDigits(p[0]) && AllDigits(p[1]) && AllDigits(p[2])
    then Some(Date(ParseNat(p[2]), ParseNat(p[1]), ParseNat(p[0])))
    else None
  }

  /** The printed date on a certificate identifies the date. */
  lemma FormatDateRoundTrip(d: Date)
    requires Valid(d)
    ensures ParseDate(FormatDate(d)) == Some(d)
  {
    ParseSlashed(Fixed(d.day, 2), Fixed(d.month, 2), Fixed(d.year, 4));
  }

  lemma ParseSlashed(dd: string, mm: string, yy: string)
    requires AllDigits(dd) && AllDigits(mm) && AllDigits(yy)
    ensures ParseDate(dd + "/" + mm + "/" + yy) == Some(Date(ParseNat(yy), ParseNat(mm), ParseNat(dd)))
  {
    DigitsHaveNoSlash(dd);
    DigitsHaveNoSlash(mm);
    DigitsHaveNoSlash(yy);
    var ws := [dd, mm, yy];
    assert Join(ws[1..], '/') == mm + "/" + yy;
    assert Join(ws, '/') == dd + "/" + mm + "/" + yy;
    SplitJoin(ws, '/');
  }

  lemma DigitsHaveNoSlash(s: string)
    requires AllDigits(s)
    ensures '/' !in s
  {
    forall k | 0 <= k < |s| ensures s[k] != '/' {
    }
  }

  /** A `DateTime` with its time of day, for the one place seconds matter. */
  datatype Moment = Moment(date: Date, hour: int, minute: int, second: int)

  predicate ValidMoment(t: Moment)
  {
    Valid(t.date) && 0 <= t.hour < 24 && 0 <= t.minute < 60 && 0 <= t.second < 60
  }

  /** `ToString("yyyyMMddHHmmss")`. */
  function Stamp(t: Moment): (r: string)
    requires ValidMoment(t)
    ensures |r| == 14 && AllDigits(r)
  {
    var y, mo, d := Fixed(t.date.year, 4), Fixed(t.date.month, 2), Fixed(t.date.day, 2);
    var h, mi, se := Fixed(t.hour, 2), Fixed(t.minute, 2), Fixed(t.second, 2);
    StampPieces(y, mo, d, h, mi, se);
    y + mo + d + h + mi + se
  }

  /** Six fixed-width digit fields side by side: 14 digits, each field at
      its own offset. */
  lemma StampPieces(y: string, mo: string, d: string, h: string, mi: string, se: string)
    requires |y| == 4 && |mo| == 2 && |d| == 2 && |h| == 2 && |mi| == 2 && |se| == 2
    requires AllDigits(y) && AllDigits(mo) && AllDigits(d) && AllDigits(h) && AllDigits(mi) && AllDigits(se)
    ensures var s := y + mo + d + h + mi + se; |s| == 14 && AllDigits(s)
    ensures var s := y + mo + d + h + mi + se;
      s[0..4] == y && s[4..6] == mo && s[6..8] == d && s[8..10] == h && s[10..12] == mi && s[12..14] == se
  {
    var s := y + mo + d + h + mi + se;
    forall k | 0 <= k < 14 ensures IsDigit(s[k]) {
      if k < 4 { assert s[k] == y[k]; }
      else if k < 6 { assert s[k] == mo[k - 4]; }
      else if k < 8 { assert s[k] == d[k - 6]; }
      else if k < 10 { assert s[k] == h[k - 8]; }
      else if k < 12 { assert s[k] == mi[k - 10]; }
      else { assert s[k] == se[k - 12]; }
    }
  }

  /** Reads a `yyyyMMddHHmmss` stamp back. */
  function ReadStamp(s: string): Moment
    requires |s| == 14 && AllDigits(s)
  {
    Moment(Date(ParseNat(s[0..4]), ParseNat(s[4..6]), ParseNat(s[6..8])),
           ParseNat(s[8..10]), ParseNat(s[10..12]), ParseNat(s[12..14]))
  }

  /** The stamp identifies the moment to the second, so two certificates of
      one presentation generated at different seconds get different names. */
  lemma StampRoundTrip(t: Moment)
    requires ValidMoment(t)
    ensures ReadStamp(Stamp(t)) == t
  {
    var y, mo, d := Fixed(t.date.year, 4), Fixed(t.date.month, 2), Fixed(t.date.day, 2);
    var h, mi, se := Fixed(t.hour, 2), Fixed(t.minute, 2), Fixed(t.second, 2);
    StampPieces(y, mo, d, h, mi, se);
  }

  lemma StampInjective(t: Moment, u: Moment)
    requires ValidMoment(t) && ValidMoment(u)
    ensures Stamp(t) == Stamp(u) <==> t == u
  {
    StampRoundTrip(t);
    StampRoundTrip(u);
  }

  // --------------------------------------------------------------- day counts

  /** Days from 0001-01-01 to 1 January of year `y`. */
  function DaysBeforeYear(y: int): int
    requires y >= 1
  {
    var p := y - 1;
    365 * p + p / 4 - p / 100 + p / 400
  }

  /** Days from 1 January to the first of month `m`. */
  function DaysBeforeMonth(y: int, m: int): (n: int)
    requires 1 <= m <= 12
    ensures 0 <= n <= 31 * (m - 1)
    decreases m
  {
    if m == 1 then 0 else DaysBeforeMonth(y, m - 1) + DaysInMonth(y, m - 1)
  }

  /** The day number of a date, so that `(a - b).TotalDays` is a difference. */
  function DayNumber(d: Date): int
    requires Valid(d)
  {
    DaysBeforeYear(d.year) + DaysBeforeMonth(d.year, d.month) + d.day - 1
  }

  function YearLength(y: int): int
  {
    if IsLeap(y) then 366 else 365
  }

  /** One year of day numbers is the length of that year. */
  lemma DaysBeforeNextYear(y: int)
    requires y >= 1
    ensures DaysBeforeYear(y + 1) == DaysBeforeYear(y) + YearLength(y)
  {
    var p := y - 1;
    NextQuotient(p, 4);
    NextQuotient(p, 100);
    NextQuotient(p, 400);
    LeapDivisors(y);
  }

  /** Stepping to the next number raises the quotient by one exactly at a
      multiple of the divisor. */
  lemma NextQuotient(p: int, k: int)
    requires k == 4 || k == 100 || k == 400
    ensures (p + 1) / k == p / k + (if (p + 1) % k == 0 then 1 else 0)
  {
    var q, r := p / k, p % k;
    assert p == k * q + r && 0 <= r < k;
    if r == k - 1 {
      assert p + 1 == k * (q + 1);
    } else {
      assert p + 1 == k * q + (r + 1) && r + 1 < k;
    }
  }

  lemma LeapDivisors(y: int)
    ensures y % 400 == 0 ==> y % 100 == 0
    ensures y % 100 == 0 ==> y % 4 == 0
  {
    if y % 400 == 0 {
      var q := y / 400;
      MultipleOf(y, 100, 4 * q);
    }
    if y % 100 == 0 {
      var q := y / 100;
      MultipleOf(y, 4, 25 * q);
    }
  }

  lemma MultipleOf(y: int, k: int, m: int)
    requires k == 4 || k == 100
    requires y == k * m
    ensures y % k == 0
  {
    DivideBy(y, k, m, 0);
  }

  /** Euclidean division by 4 or 100 is determined by quotient and remainder. */
  lemma DivideBy(y: int, k: int, q: int, r: int)
    requires k == 4 || k == 100
    requires y == k * q + r && 0 <= r < k
    ensures y % k == r
  {
  }

  lemma {:induction false} DaysBeforeYearMonotone(x: int, y: int)
    requires 1 <= x <= y
    ensures DaysBeforeYear(x) + (y - x) * 365 <= DaysBeforeYear(y)
    decreases y - x
  {
    if x < y {
      DaysBeforeNextYear(x);
      DaysBeforeYearMonotone(x + 1, y);
    }
  }

  /** The months before `m` and month `m` itself fit in the year. */
  lemma {:induction false} MonthsFitInYear(y: int, m: int)
    requires 1 <= m <= 12
    ensures DaysBeforeMonth(y, m) + DaysInMonth(y, m) <= YearLength(y)
    decreases 12 - m
  {
    if m < 12 {
      MonthsFitInYear(y, m + 1);
    } else {
      assert DaysBeforeMonth(y, 12) == 334 + (if IsLeap(y) then 1 else 0) by {
        assert DaysBeforeMonth(y, 2) == 31;
        assert DaysBeforeMonth(y, 3) == 59 + (if IsLeap(y) then 1 else 0);
        assert DaysBeforeMonth(y, 4) == 90 + (if IsLeap(y) then 1 else 0);
        assert DaysBeforeMonth(y, 5) == 120 + (if IsLeap(y) then 1 else 0);
        assert DaysBeforeMonth(y, 6) == 151 + (if IsLeap(y) then 1 else 0);
        assert DaysBeforeMonth(y, 7) == 181 + (if IsLeap(y) then 1 else 0);
        assert DaysBeforeMonth(y, 8) == 212 + (if IsLeap(y) then 1 else 0);
        assert DaysBeforeMonth(y, 9) == 243 + (if IsLeap(y) then 1 else 0);
        assert DaysBeforeMonth(y, 10) == 273 + (if IsLeap(y) then 1 else 0);
        assert DaysBeforeMonth(y, 11) == 304 + (if IsLeap(y) then 1 else 0);
      }
    }
  }

  lemma {:induction false} DaysBeforeMonthMonotone(y: int, m: int, n: int)
    requires 1 <= m < n <= 12
    ensures DaysBeforeMonth(y, m) + DaysInMonth(y, m) <= DaysBeforeMonth(y, n)
    decreases n - m
  {
    if m + 1 < n {
      DaysBeforeMonthMonotone(y, m + 1, n);
    }
  }

  /** Day numbers follow the calendar: an earlier date has a smaller one. */
  lemma DayNumberMonotone(a: Date, b: Date)
    requires Valid(a) && Valid(b) && Before(a, b)
    ensures DayNumber(a) < DayNumber(b)
  {
    if a.year < b.year {
      MonthsFitInYear(a.year, a.month);
      DaysBeforeNextYear(a.year);
      DaysBeforeYearMonotone(a.year + 1, b.year);
    } else if a.month < b.month {
      DaysBeforeMonthMonotone(a.year, a.month, b.month);
    }
  }

  /** `(today - birth).TotalDays` truncated to whole days. */
  function DaysBetween(birth: Date, today: Date): (n: int)
    requires Valid(birth) && Valid(today)
    ensures birth == today ==> n == 0
  {
    DayNumber(today) - DayNumber(birth)
  }
}
