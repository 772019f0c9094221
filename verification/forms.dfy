/** What the pages check before they send a form, and how they turn a failed
    request into the message they show: the ordered list of missing required
    fields, the shared email regular expression, and the status-to-message
    tables of the `catch` blocks. */
module Forms {
  import opened Common
  import opened Text
  import opened Counting

  // ------------------------------------------------------------ email regex

  /** The class `[^\s@]`. */
  predicate RegexClass(c: char)
  {
    !IsJsSpace(c) && c != '@'
  }

  /** `/^[^\s@]+@[^\s@]+\.[^\s@]+$/.test(s)`: some '@' at `a` and some '.' at
      `d` cut `s` into three non-empty runs of the class. */
  predicate EmailRegex(s: string)
  {
    exists a, d | 0 < a && a + 1 < d < |s| - 1 ::
      s[a] == '@' && s[d] == '.' && forall k | 0 <= k < |s| && k != a :: RegexClass(s[k])
  }

  /** The same test read as a description: no white space, exactly one '@',
      something before it, and a '.' in the domain that is neither the
      domain's first nor its last character. */
  predicate EmailShape(s: string)
  {
    (forall k | 0 <= k < |s| :: !IsJsSpace(s[k]))
    && '@' in s
    && 0 < IndexOf(s, '@')
    && '@' !in s[IndexOf(s, '@') + 1..]
    && IndexOf(s, '@') + 3 <= |s|
    && '.' in s[IndexOf(s, '@') + 2..|s| - 1]
  }

  /** The regular expression accepts exactly the strings of that shape. */
  lemma EmailRegexIffShape(s: string)
    ensures EmailRegex(s) <==> EmailShape(s)
  {
    if EmailRegex(s) {
      var a, d :| 0 < a && a + 1 < d < |s| - 1 &&
        s[a] == '@' && s[d] == '.' && forall k | 0 <= k < |s| && k != a :: RegexClass(s[k]);
      assert '@' in s;
      assert IndexOf(s, '@') == a by {
        var f := IndexOf(s, '@');
        assert !RegexClass(s[f]);
      }
      var tail := s[a + 1..];
      forall j | 0 <= j < |tail| ensures tail[j] != '@' {
        assert tail[j] == s[a + 1 + j];
      }
      assert s[a + 2..|s| - 1][d - a - 2] == '.';
    }
    if EmailShape(s) {
      var a := IndexOf(s, '@');
      var j :| 0 <= j < |s| - 1 - (a + 2) && s[a + 2..|s| - 1][j] == '.';
      var d := a + 2 + j;
      assert s[d] == '.';
      forall k | 0 <= k < |s| && k != a ensures RegexClass(s[k]) {
        if k < a {
          assert s[k] == s[..a][k];
        } else {
          assert s[k] == s[a + 1..][k - a - 1];
        }
      }
    }
  }

  // ------------------------------------------------------- required fields

  /** The labels of the fields that are empty after `trim()`, in form order
      (the `missingFields.push` sequence). */
  function MissingLabels(fields: seq<(string, string)>): (r: seq<string>)
    ensures |r| <= |fields|
    ensures |r| == 0 <==> forall i | 0 <= i < |fields| :: !JsBlank(fields[i].1)
  {
    if |fields| == 0 then []
    else
      var rest := MissingLabels(fields[1..]);
      assert forall i | 1 <= i < |fields| :: fields[i] == fields[1..][i - 1];
      (if JsBlank(fields[0].1) then [fields[0].0] else []) + rest
  }

  predicate BlankField(f: (string, string))
  {
    JsBlank(f.1)
  }

  function Labels(fields: seq<(string, string)>): (r: seq<string>)
    ensures |r| == |fields| && forall i | 0 <= i < |fields| :: r[i] == fields[i].0
  {
    seq(|fields|, i requires 0 <= i < |fields| => fields[i].0)
  }

  /** The reported labels are those of the blank fields, in the order the
      form lists them, each once per blank field. */
  lemma {:induction false} MissingLabelsAreBlankFields(fields: seq<(string, string)>)
    ensures MissingLabels(fields) == Labels(Filter(fields, BlankField))
    decreases |fields|
  {
    if |fields| > 0 {
      MissingLabelsAreBlankFields(fields[1..]);
      var rest := Filter(fields[1..], BlankField);
      var head := if BlankField(fields[0]) then [fields[0]] else [];
      assert Filter(fields, BlankField) == head + rest;
      LabelsConcat(head, rest);
    }
  }

  lemma LabelsConcat(a: seq<(string, string)>, b: seq<(string, string)>)
    ensures Labels(a + b) == Labels(a) + Labels(b)
  {
  }

  /** With distinct labels, a label is reported exactly when its field is
      blank. */
  lemma ReportedIffBlank(fields: seq<(string, string)>, k: nat)
    requires k < |fields| && Distinct(Labels(fields))
    ensures fields[k].0 in MissingLabels(fields) <==> JsBlank(fields[k].1)
  {
    MissingLabelsAreBlankFields(fields);
    if BlankField(fields[k]) {
      BlankIsReported(fields, k);
    } else if fields[k].0 in Labels(Filter(fields, BlankField)) {
      ReportedIsBlank(fields, k);
    }
  }

  lemma BlankIsReported(fields: seq<(string, string)>, k: nat)
    requires k < |fields| && BlankField(fields[k])
    ensures fields[k].0 in Labels(Filter(fields, BlankField))
  {
    var blank := Filter(fields, BlankField);
    assert fields[k] in blank;
    var j :| 0 <= j < |blank| && blank[j] == fields[k];
    assert Labels(blank)[j] == fields[k].0;
  }

  lemma ReportedIsBlank(fields: seq<(string, string)>, k: nat)
    requires k < |fields| && Distinct(Labels(fields))
    requires fields[k].0 in Labels(Filter(fields, BlankField))
    ensures BlankField(fields[k])
  {
    var blank := Filter(fields, BlankField);
    var ls := Labels(blank);
    var j :| 0 <= j < |ls| && ls[j] == fields[k].0;
    assert BlankField(blank[j]) && blank[j] in fields;
    var i :| 0 <= i < |fields| && fields[i] == blank[j];
    assert ls[j] == blank[j].0;
    assert fields[i].0 == fields[k].0;
    SameLabelSameField(fields, i, k);
  }

  lemma SameLabelSameField(fields: seq<(string, string)>, i: nat, k: nat)
    requires i < |fields| && k < |fields| && Distinct(Labels(fields))
    requires fields[i].0 == fields[k].0
    ensures i == k
  {
    var ls := Labels(fields);
    assert ls[i] == ls[k];
  }

  /** A form of three, four or five fields is filled when each of them is;
      `blank` stands for `JsBlank`, kept abstract so that only the five
      instances are unfolded. */
  lemma Filled3(fs: seq<(string, string)>, blank: string -> bool)
    requires |fs| == 3
    ensures (forall i | 0 <= i < 3 :: !blank(fs[i].1)) <==> !blank(fs[0].1) && !blank(fs[1].1) && !blank(fs[2].1)
  {
    if !blank(fs[0].1) && !blank(fs[1].1) && !blank(fs[2].1) {
      forall i | 0 <= i < 3 ensures !blank(fs[i].1) {
        if i == 0 {} else if i == 1 {} else {}
      }
    }
  }

  lemma Filled4(fs: seq<(string, string)>, blank: string -> bool)
    requires |fs| == 4
    ensures (forall i | 0 <= i < 4 :: !blank(fs[i].1)) <==>
      !blank(fs[0].1) && !blank(fs[1].1) && !blank(fs[2].1) && !blank(fs[3].1)
  {
    if !blank(fs[0].1) && !blank(fs[1].1) && !blank(fs[2].1) && !blank(fs[3].1) {
      forall i | 0 <= i < 4 ensures !blank(fs[i].1) {
        if i == 0 {} else if i == 1 {} else if i == 2 {} else {}
      }
    }
  }

  lemma Filled5(fs: seq<(string, string)>, blank: string -> bool)
    requires |fs| == 5
    ensures (forall i | 0 <= i < 5 :: !blank(fs[i].1)) <==>
      !blank(fs[0].1) && !blank(fs[1].1) && !blank(fs[2].1) && !blank(fs[3].1) && !blank(fs[4].1)
  {
    if !blank(fs[0].1) && !blank(fs[1].1) && !blank(fs[2].1) && !blank(fs[3].1) && !blank(fs[4].1) {
      forall i | 0 <= i < 5 ensures !blank(fs[i].1) {
        if i == 0 {} else if i == 1 {} else if i == 2 {} else if i == 3 {} else {}
      }
    }
  }

  /** The outcome of a page's pre-submit checks; only `Send` issues a request. */
  datatype Check = MissingFields(labels: seq<string>) | InvalidEmail | ShortPassword | Send
  {
    /** The text the page puts in its error banner ("" when it sends). */
    function Message(): string
    {
      match this
      case MissingFields(labels) =>
        "Por favor, preencha os seguintes campos obrigatórios: " + JoinWith(labels, ", ")
      case InvalidEmail => "Por favor, insira um email válido"
      case ShortPassword => "A senha deve ter pelo menos 6 caracteres"
      case Send => ""
    }
  }

  /** The check every form with an email runs: required fields first, then
      the email regex. */
  function CheckForm(fields: seq<(string, string)>, email: string): (c: Check)
    ensures c.MissingFields? <==> exists i | 0 <= i < |fields| :: JsBlank(fields[i].1)
    ensures c.MissingFields? ==> c.labels == MissingLabels(fields) && |c.labels| > 0
    ensures c.InvalidEmail? <==> (forall i | 0 <= i < |fields| :: !JsBlank(fields[i].1)) && !EmailShape(email)
    ensures c.Send? <==> (forall i | 0 <= i < |fields| :: !JsBlank(fields[i].1)) && EmailShape(email)
  {
    EmailRegexIffShape(email);
    var missing := MissingLabels(fields);
    if |missing| > 0 then MissingFields(missing)
    else if !EmailRegex(email) then InvalidEmail
    else Send
  }

  // ---------------------------------------------------------- error banners

  /** How a request failed, as the `catch` block sees it: a response with a
      status and an optional `message` field, or no response at all. */
  datatype Failure = Response(status: int, message: Option<string>) | NoResponse(network: bool)
  {
    function Status(): Option<int>
    {
      if Response? then Some(status) else None
    }

    /** `err.response?.data?.message`. */
    function ServerMessage(): Option<string>
    {
      if Response? then message else None
    }
  }

  /** An error answered with no `message` field in its body, as the page
      sees it: `NotFound()`, a plain-text body, and the automatic 400 of a
      body breaking a declared attribute. */
  function Bodyless(e: ApiError): (f: Failure)
    ensures f.Status() == Some(e.Status()) && f.ServerMessage().None?
  {
    Response(e.Status(), None)
  }

  /** The response interceptor of the shared HTTP client: on a 401 it clears
      the stored session and sends the browser to `/login`, a full page load
      that discards the state of whatever page made the request. */
  predicate ReloadsToLogin(f: Failure)
  {
    f.Status() == Some(401)
  }

  /** JavaScript `message || fallback`: an absent or empty message falls back. */
  function OrElse(message: Option<string>, fallback: string): (r: string)
    ensures r == fallback || (message.Some? && r == message.value && |r| > 0)
    ensures message.Some? && |message.value| > 0 ==> r == message.value
  {
    if message.Some? && |message.value| > 0 then message.value else fallback
  }

  /** What a rule of the `catch` chain shows. */
  datatype Shown = Fixed(text: string) | ServerOr(fallback: string)

  /** The `if (status === …) … else if …` chain: the first rule whose status
      matches decides, otherwise the final branch. */
  function Banner(f: Failure, rules: seq<(int, Shown)>, otherwise: Shown): (r: string)
    ensures (forall i | 0 <= i < |rules| :: f.Status() != Some(rules[i].0)) ==>
      r == Show(otherwise, f)
    ensures |rules| > 0 && f.Status() == Some(rules[0].0) ==> r == Show(rules[0].1, f)
  {
    if |rules| == 0 then Show(otherwise, f)
    else if f.Status() == Some(rules[0].0) then Show(rules[0].1, f)
    else
      assert forall i | 1 <= i < |rules| :: rules[i] == rules[1..][i - 1];
      Banner(f, rules[1..], otherwise)
  }

  function Show(s: Shown, f: Failure): string
  {
    match s
    case Fixed(text) => text
    case ServerOr(fallback) => OrElse(f.ServerMessage(), fallback)
  }

  /** The colours of a Material UI `Chip`. */
  datatype Tone = ToneDefault | TonePrimary | ToneSecondary | ToneError | ToneInfo | ToneSuccess | ToneWarning

  /** The message a save shows for a 400 without a message of its own. */
  const InvalidData := "Dados inválidos. Verifique os campos e tente novamente."

  /** The message a save shows for a 500. */
  const ServerTrouble := "Erro no servidor. Tente novamente mais tarde."

  /** The duplicate-email answer of the controllers,
      `BadRequest(new { message = "Email já cadastrado" })`, as a page sees it. */
  const Duplicate: Failure := Response(400, Some(EmailTaken))

  /** The rule for `status` decides when it is the first rule naming it. */
  lemma {:induction false} BannerFirstMatch(f: Failure, rules: seq<(int, Shown)>, otherwise: Shown, k: nat)
    requires k < |rules| && f.Status() == Some(rules[k].0)
    requires forall i | 0 <= i < k :: rules[i].0 != rules[k].0
    ensures Banner(f, rules, otherwise) == Show(rules[k].1, f)
    decreases k
  {
    if k > 0 {
      BannerFirstMatch(f, rules[1..], otherwise, k - 1);
    }
  }
}
