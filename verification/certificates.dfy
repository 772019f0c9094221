/** Presentation certificates: the override merge, the certificate document
    as a list of styled blocks, the file name and stored path, and the
    generate and download endpoints.  The PDF encoding, fonts and the file
    system are not modelled: the document is the block list, a write or a
    render that throws is the flag `written`, and the existence of a file is
    the predicate `exists`. */
module Certificates {
  import opened Common
  import opened Text
  import opened Dates
  import opened Annotations
  import opened Counting
  import opened Tables
  import opened ChildPresentations

  // ---------------------------------------------------------------- overrides

  /** `GenerateCertificateDto` without its id. */
  datatype Overrides = Overrides(
    churchName: Option<string>,
    churchAddress: Option<string>,
    biblicalVerse: Option<string>,
    message: Option<string>,
    pastor: Option<string>)

  /** The attributes `GenerateCertificateDto` declares. */
  predicate OverridesOk(o: Overrides)
  {
    MaxLen(o.churchName, 100) && MaxLen(o.churchAddress, 200) && MaxLen(o.biblicalVerse, 200)
    && MaxLen(o.message, 500) && MaxLen(o.pastor, 100)
  }

  /** A value given and not empty replaces the stored one. */
  function Pick(given: Option<string>, stored: string): (r: string)
    ensures r == if NullOrEmpty(given) then stored else given.value
  {
    if !NullOrEmpty(given) then given.value else stored
  }

  /** The merge `GenerateCertificatePdf` performs on the tracked row. */
  function Merge(f: Fields, custom: Option<Overrides>): (g: Fields)
    ensures custom.None? ==> g == f
    ensures custom.Some? ==>
      g.churchName == Pick(custom.value.churchName, f.churchName)
      && g.pastor == Pick(custom.value.pastor, f.pastor)
      && (NullOrEmpty(custom.value.biblicalVerse) ==> g.biblicalVerse == f.biblicalVerse)
      && (!NullOrEmpty(custom.value.biblicalVerse) ==> g.biblicalVerse == custom.value.biblicalVerse)
      && (NullOrEmpty(custom.value.message) ==> g.specialMessage == f.specialMessage)
      && (!NullOrEmpty(custom.value.message) ==> g.specialMessage == custom.value.message)
    ensures g.churchAddress == f.churchAddress
    ensures g == f.(churchName := g.churchName, pastor := g.pastor, biblicalVerse := g.biblicalVerse,
                    specialMessage := g.specialMessage)
  {
    match custom
    case None => f
    case Some(o) =>
      f.(churchName := if !NullOrEmpty(o.churchName) then o.churchName.value else f.churchName,
         pastor := if !NullOrEmpty(o.pastor) then o.pastor.value else f.pastor,
         biblicalVerse := if !NullOrEmpty(o.biblicalVerse) then o.biblicalVerse else f.biblicalVerse,
         specialMessage := if !NullOrEmpty(o.message) then o.message else f.specialMessage)
  }

  /** Merging the same overrides again changes nothing more. */
  lemma MergeIdempotent(f: Fields, custom: Option<Overrides>)
    ensures Merge(Merge(f, custom), custom) == Merge(f, custom)
  {
  }

  /** Overrides within their declared lengths, with a pastor that is either
      absent, empty or itself a valid `[Required]` value, keep a valid row
      valid. */
  lemma MergeKeepsAdmissible(f: Fields, o: Overrides)
    requires Admissible(f) && OverridesOk(o)
    requires NullOrEmpty(o.pastor) || Required(o.pastor.value)
    ensures Admissible(Merge(f, Some(o)))
  {
  }

  // ----------------------------------------------------------------- document

  /** The paragraphs of the certificate, in the order they are added. */
  datatype Kind =
    | Title | Separator | Opening | ChildName | Birth | Parents | Ceremony | PresentedOn
    | Verse | Message | Spacer | Church | Address | Signature | PastorLine | Issued

  datatype Font = HelveticaBold | Helvetica | HelveticaOblique
  datatype Colour = Rgb(red: int, green: int, blue: int)
  datatype Align = Left | Center | Right

  /** One paragraph: its text and style; `border` is the 2-point box. */
  datatype Block = Block(kind: Kind, text: string, font: Font, size: nat, colour: Colour,
                         align: Align, border: bool)

  const Blue := Rgb(0, 0, 255)
  const DeepPink := Rgb(255, 20, 147)
  const DarkGray := Rgb(64, 64, 64)
  const Gray := Rgb(128, 128, 128)
  const Black := Rgb(0, 0, 0)

  /** Blue for "Masculino" exactly; pink for every other value. */
  function Primary(gender: string): (c: Colour)
    ensures c == Blue <==> gender == Boy
    ensures c == DeepPink <==> gender != Boy
  {
    if gender == Boy then Blue else DeepPink
  }

  /** The position of each paragraph in the document. */
  function Rank(k: Kind): nat
  {
    match k
    case Title => 0 case Separator => 1 case Opening => 2 case ChildName => 3
    case Birth => 4 case Parents => 5 case Ceremony => 6 case PresentedOn => 7
    case Verse => 8 case Message => 9 case Spacer => 10 case Church => 11
    case Address => 12 case Signature => 13 case PastorLine => 14 case Issued => 15
  }

  /** The three paragraphs with a presence condition; the others always appear. */
  predicate Shown(k: Kind, f: Fields)
  {
    match k
    case Verse => !NullOrEmpty(f.biblicalVerse)
    case Message => !NullOrEmpty(f.specialMessage)
    case Address => !NullOrEmpty(f.churchAddress)
    case _ => true
  }

  /** "o menino" for "Masculino" exactly, "a menina" for everything else. */
  function OpeningLine(gender: string): string
  {
    if gender == Boy then "Certificamos que o menino" else "Certificamos que a menina"
  }

  /** The paragraph of kind `k` for the row `f`, issued on `issued`. */
  function BlockOf(k: Kind, f: Fields, issued: CalendarDate): (b: Block)
    ensures b.kind == k
  {
    var p := Primary(f.gender);
    match k
    case Title => Block(k, "CERTIFICADO DE APRESENTAÇÃO", HelveticaBold, 24, p, Center, false)
    case Separator => Block(k, "═══════════════════════════════", HelveticaOblique, 16, p, Center, false)
    case Opening => Block(k, OpeningLine(f.gender), Helvetica, 14, Black, Center, false)
    case ChildName => Block(k, Upper(f.childName), HelveticaBold, 20, p, Center, true)
    case Birth => Block(k, "nascido(a) em " + FormatDate(f.birthDate), Helvetica, 12, Black, Center, false)
    case Parents => Block(k, "filho(a) de " + f.fatherName + " e " + f.motherName, Helvetica, 12, Black, Center, false)
    case Ceremony =>
      Block(k, "foi apresentado(a) ao Senhor Jesus Cristo nesta igreja em", Helvetica, 14, Black, Center, false)
    case PresentedOn => Block(k, FormatDate(f.presentationDate), HelveticaBold, 16, p, Center, false)
    case Verse => Block(k, "\"" + f.biblicalVerse.GetOr("") + "\"", HelveticaOblique, 12, DarkGray, Center, false)
    case Message => Block(k, f.specialMessage.GetOr(""), Helvetica, 11, DarkGray, Center, false)
    case Spacer => Block(k, "\n\n", Helvetica, 12, Black, Left, false)
    case Church => Block(k, f.churchName, HelveticaBold, 14, Black, Center, false)
    case Address => Block(k, f.churchAddress.GetOr(""), Helvetica, 10, Black, Center, false)
    case Signature => Block(k, "_________________________________", Helvetica, 12, Black, Center, false)
    case PastorLine => Block(k, "Pastor " + f.pastor, Helvetica, 12, Black, Center, false)
    case Issued => Block(k, "Emitido em " + FormatDate(issued), Helvetica, 10, Gray, Right, false)
  }

  /** The kind at position `n` of the document. */
  function KindAt(n: nat): (k: Kind)
    requires n < 16
    ensures Rank(k) == n
  {
    if n == 0 then Title else if n == 1 then Separator else if n == 2 then Opening
    else if n == 3 then ChildName else if n == 4 then Birth else if n == 5 then Parents
    else if n == 6 then Ceremony else if n == 7 then PresentedOn else if n == 8 then Verse
    else if n == 9 then Message else if n == 10 then Spacer else if n == 11 then Church
    else if n == 12 then Address else if n == 13 then Signature else if n == 14 then PastorLine
    else Issued
  }

  lemma KindAtRank(k: Kind)
    ensures Rank(k) < 16 && KindAt(Rank(k)) == k
  {
  }

  /** The kinds from position `n` on that are shown for `f`. */
  function ShownFrom(n: nat, f: Fields): (ks: seq<Kind>)
    requires n <= 16
    decreases 16 - n
  {
    if n == 16 then []
    else (if Shown(KindAt(n), f) then [KindAt(n)] else []) + ShownFrom(n + 1, f)
  }

  /** Every kind `ShownFrom(n, f)` lists is shown and at position `n` or
      later, and every such kind is listed. */
  lemma {:induction false} ShownFromMembers(n: nat, f: Fields)
    requires n <= 16
    ensures forall k: Kind :: k in ShownFrom(n, f) <==> n <= Rank(k) && Shown(k, f)
    decreases 16 - n
  {
    if n < 16 {
      ShownFromMembers(n + 1, f);
      forall k: Kind ensures k in ShownFrom(n, f) <==> n <= Rank(k) && Shown(k, f) {
        KindAtRank(k);
      }
    }
  }

  /** Every kind `ShownFrom(n, f)` lists sits at position `n` or later. */
  lemma {:induction false} ShownFromAbove(n: nat, f: Fields)
    requires n <= 16
    ensures forall i | 0 <= i < |ShownFrom(n, f)| :: n <= Rank(ShownFrom(n, f)[i])
    decreases 16 - n
  {
    if n < 16 {
      ShownFromAbove(n + 1, f);
    }
  }

  /** `ShownFrom(n, f)` is in document order. */
  lemma {:induction false} ShownFromOrdered(n: nat, f: Fields)
    requires n <= 16
    ensures forall i, j | 0 <= i < j < |ShownFrom(n, f)| :: Rank(ShownFrom(n, f)[i]) < Rank(ShownFrom(n, f)[j])
    decreases 16 - n
  {
    if n < 16 {
      ShownFromOrdered(n + 1, f);
      ShownFromAbove(n + 1, f);
    }
  }

  /** The kinds of the certificate of `f`: every shown kind, once, in
      document order. */
  function Layout(f: Fields): (ks: seq<Kind>)
    ensures forall i, j | 0 <= i < j < |ks| :: Rank(ks[i]) < Rank(ks[j])
    ensures forall k: Kind :: k in ks <==> Shown(k, f)
  {
    ShownFromMembers(0, f);
    ShownFromOrdered(0, f);
    ShownFrom(0, f)
  }

  function KindsOf(r: seq<Block>): (ks: seq<Kind>)
    ensures |ks| == |r| && forall i | 0 <= i < |r| :: ks[i] == r[i].kind
  {
    seq(|r|, i requires 0 <= i < |r| => r[i].kind)
  }

  /** `GenerateChildPresentationCertificate`: the paragraphs of every kind
      shown for `f`, each once, in document order, each the paragraph of its
      kind. */
  function Render(f: Fields, issued: CalendarDate): (r: seq<Block>)
    ensures var ks := KindsOf(r);
      (forall i, j | 0 <= i < j < |ks| :: Rank(ks[i]) < Rank(ks[j]))
      && (forall k: Kind :: k in ks <==> Shown(k, f))
    ensures forall i | 0 <= i < |r| :: r[i] == BlockOf(r[i].kind, f, issued)
  {
    var ks := Layout(f);
    var r := Blocks(ks, f, issued);
    KindsOfBlocks(ks, r);
    r
  }

  /** The paragraph of each kind of `ks`, in order. */
  function Blocks(ks: seq<Kind>, f: Fields, issued: CalendarDate): (r: seq<Block>)
    ensures |r| == |ks|
    ensures forall i | 0 <= i < |ks| :: r[i].kind == ks[i] && r[i] == BlockOf(ks[i], f, issued)
  {
    seq(|ks|, i requires 0 <= i < |ks| => BlockOf(ks[i], f, issued))
  }

  lemma KindsOfBlocks(ks: seq<Kind>, r: seq<Block>)
    requires |r| == |ks| && forall i | 0 <= i < |ks| :: r[i].kind == ks[i]
    ensures KindsOf(r) == ks
  {
  }

  /** The clock reaches the issue line only. */
  lemma BlockOfClock(k: Kind, f: Fields, d1: CalendarDate, d2: CalendarDate)
    requires k != Issued
    ensures BlockOf(k, f, d1) == BlockOf(k, f, d2)
  {
  }

  /** Two renders of one row on different days differ in the issue line
      alone. */
  lemma OnlyIssueLineDependsOnClock(f: Fields, d1: CalendarDate, d2: CalendarDate)
    ensures |Render(f, d1)| == |Render(f, d2)|
    ensures forall i | 0 <= i < |Render(f, d1)| ::
      Render(f, d1)[i].kind == Render(f, d2)[i].kind
      && (Render(f, d1)[i].kind != Issued ==> Render(f, d1)[i] == Render(f, d2)[i])
  {
    forall i | 0 <= i < |Render(f, d1)| && Render(f, d1)[i].kind != Issued
      ensures Render(f, d1)[i] == Render(f, d2)[i]
    {
      BlockOfClock(Render(f, d1)[i].kind, f, d1, d2);
    }
  }

  /** The child's name is written upper-cased, boxed, in the primary colour. */
  lemma NameBlockStyle(f: Fields, issued: CalendarDate)
    ensures exists i | 0 <= i < |Render(f, issued)| ::
      var b := Render(f, issued)[i];
      b.text == Upper(f.childName) && b.border && b.colour == Primary(f.gender) && b.size == 20
  {
    RenderHas(f, issued, ChildName);
  }

  /** Every block the layout calls for is rendered with its own text and
      style. */
  lemma RenderHas(f: Fields, issued: CalendarDate, k: Kind)
    requires Shown(k, f)
    ensures exists i | 0 <= i < |Render(f, issued)| :: Render(f, issued)[i] == BlockOf(k, f, issued)
  {
    var r := Render(f, issued);
    var ks := KindsOf(r);
    assert k in ks;
    var i :| 0 <= i < |ks| && ks[i] == k;
    assert r[i] == BlockOf(k, f, issued);
  }

  // ------------------------------------------------------------ file names

  const CertificatePrefix := "Certificado_"

  /** `Certificado_{Id}_{yyyyMMddHHmmss}.pdf`. */
  function FileName(id: int, now: Moment): (name: string)
    requires ValidMoment(now)
    ensures '\\' !in name && ' ' !in name && '/' !in name
  {
    var name := CertificatePrefix + IntToString(id) + "_" + Stamp(now) + ".pdf";
    FileNameIsPlain(id, now);
    name
  }

  /** Text without a path separator or a space. */
  predicate Plain(s: string)
  {
    '\\' !in s && ' ' !in s && '/' !in s
  }

  lemma PlainConcat(a: string, b: string)
    requires Plain(a) && Plain(b)
    ensures Plain(a + b)
  {
    assert forall i | 0 <= i < |a + b| :: (a + b)[i] in a || (a + b)[i] in b by {
      forall i | 0 <= i < |a + b| ensures (a + b)[i] in a || (a + b)[i] in b {
        if i < |a| { assert (a + b)[i] == a[i]; } else { assert (a + b)[i] == b[i - |a|]; }
      }
    }
  }

  lemma DigitsArePlain(s: string)
    requires AllDigits(s)
    ensures Plain(s)
  {
    assert forall i | 0 <= i < |s| :: IsDigit(s[i]);
  }

  lemma FileNameIsPlain(id: int, now: Moment)
    requires ValidMoment(now)
    ensures Plain(CertificatePrefix + IntToString(id) + "_" + Stamp(now) + ".pdf")
  {
    NumeralCharacters(id);
    DigitsArePlain(Stamp(now));
    LiteralsArePlain();
    PlainConcat(CertificatePrefix, IntToString(id));
    PlainConcat(CertificatePrefix + IntToString(id), "_");
    PlainConcat(CertificatePrefix + IntToString(id) + "_", Stamp(now));
    PlainConcat(CertificatePrefix + IntToString(id) + "_" + Stamp(now), ".pdf");
  }

  lemma LiteralsArePlain()
    ensures Plain(CertificatePrefix) && Plain("_") && Plain(".pdf")
  {
  }

  lemma NumeralCharacters(i: int)
    ensures Plain(IntToString(i))
  {
    var n := if i < 0 then -i else i;
    assert AllDigits(NatToString(n));
    DigitsArePlain(NatToString(n));
    if i < 0 {
      assert IntToString(i) == "-" + NatToString(n);
      PlainConcat("-", NatToString(n));
    }
  }

  /** Equal concatenations with equal-length heads have equal parts. */
  lemma SplitAt(a1: string, b1: string, a2: string, b2: string)
    requires a1 + b1 == a2 + b2 && (|a1| == |a2| || |b1| == |b2|)
    ensures a1 == a2 && b1 == b2
  {
    assert a1 == (a1 + b1)[..|a1|];
    assert b1 == (a1 + b1)[|a1|..];
  }

  /** Two certificate names are equal only for the same row and the same
      second. */
  lemma FileNameInjective(id1: int, t1: Moment, id2: int, t2: Moment)
    requires ValidMoment(t1) && ValidMoment(t2)
    requires FileName(id1, t1) == FileName(id2, t2)
    ensures id1 == id2 && t1 == t2
  {
    var n1, n2 := IntToString(id1), IntToString(id2);
    var h1, h2 := CertificatePrefix + n1 + "_", CertificatePrefix + n2 + "_";
    SplitAt(h1 + Stamp(t1), ".pdf", h2 + Stamp(t2), ".pdf");
    SplitAt(h1, Stamp(t1), h2, Stamp(t2));
    SplitAt(CertificatePrefix + n1, "_", CertificatePrefix + n2, "_");
    SplitAt(CertificatePrefix, n1, CertificatePrefix, n2);
    ReadIntToString(id1);
    ReadIntToString(id2);
    StampInjective(t1, t2);
  }

  const CertificateFolder := "uploads/certificates/"

  /** `SaveCertificateAsync`'s answer: `Path.Combine("uploads",
      "certificates", name)` with each '\' turned into '/', for either
      directory separator of the host. */
  function SavedPath(name: string, sep: char): (path: string)
    requires sep == '/' || sep == '\\'
    ensures path == CertificateFolder + ReplaceChar(name, '\\', '/')
    ensures '\\' !in path
  {
    var path := ReplaceChar("uploads" + [sep] + "certificates" + [sep] + name, '\\', '/');
    ReplaceCharRemoves("uploads" + [sep] + "certificates" + [sep] + name, '\\', '/');
    assert path == CertificateFolder + ReplaceChar(name, '\\', '/');
    path
  }

  /** Replacing a character that does not occur changes nothing. */
  lemma ReplaceAbsent(s: string, a: char, b: char)
    requires a !in s
    ensures ReplaceChar(s, a, b) == s
  {
  }

  // -------------------------------------------------------------- generate

  /** What a successful generation answers with, and the document written. */
  datatype Generated = Generated(table: Table<Presentation>, path: string, document: seq<Block>)

  const GenerateFailed := "Erro ao gerar certificado"

  /** Where a certificate written for row `id` at `now` is recorded, on a
      host with either separator. */
  function CertificatePath(id: int, now: Moment, sep: char): (path: string)
    requires ValidMoment(now) && (sep == '/' || sep == '\\')
    ensures path == CertificateFolder + FileName(id, now)
  {
    var name := FileName(id, now);
    ReplaceAbsent(name, '\\', '/');
    SavedPath(name, sep)
  }

  /** The row after a successful generation: merged fields, the flag and
      the path, saved together. */
  function Issue(p: Presentation, custom: Option<Overrides>, path: string): (q: Presentation)
    ensures CertificateConsistent(q) && q.certificateGenerated && q.certificatePath == Some(path)
    ensures q.fields == Merge(p.fields, custom)
    ensures q.createdAt == p.createdAt && q.isActive == p.isActive
  {
    p.(fields := Merge(p.fields, custom), certificateGenerated := true, certificatePath := Some(path))
  }

  /** `POST api/ChildPresentation/{id}/certificate`.  400 for overrides
      breaking their declared lengths, 404 for an unknown id (active or not),
      500 with the table untouched when rendering or writing throws
      (`written` false); otherwise the issued row replaces the old one and
      no other row changes.  The controller and the PDF service each read
      the local clock: `now` is the controller's reading, which names the
      file, and `printed` the date of the service's reading, which the issue
      line shows; the two can fall on different days.  `sep` is the host's
      directory separator. */
  function GenerateCertificate(t: Table<Presentation>, id: int, custom: Option<Overrides>,
                               now: Moment, printed: CalendarDate, sep: char, written: bool)
    : (res: Result<Generated>)
    requires ValidMoment(now) && (sep == '/' || sep == '\\')
    ensures custom.Some? && !OverridesOk(custom.value) ==> res == Failure(Invalid)
    ensures (custom.None? || OverridesOk(custom.value)) && id !in t.rows ==> res == Failure(NotFound(""))
    ensures (custom.None? || OverridesOk(custom.value)) && id in t.rows && !written ==>
      res == Failure(ServerError(GenerateFailed))
    ensures res.Success? <==> (custom.None? || OverridesOk(custom.value)) && id in t.rows && written
    ensures res.Success? ==>
      res.value.path == CertificateFolder + FileName(id, now)
      && res.value.table.nextId == t.nextId && res.value.table.rows.Keys == t.rows.Keys
      && res.value.table.rows[id] == Issue(t.rows[id], custom, res.value.path)
      && (forall k | k in t.rows && k != id :: res.value.table.rows[k] == t.rows[k])
      && res.value.document == Render(Merge(t.rows[id].fields, custom), printed)
  {
    if custom.Some? && !OverridesOk(custom.value) then Failure(Invalid)
    else if id !in t.rows then Failure(NotFound(""))
    else if !written then Failure(ServerError(GenerateFailed))
    else
      var path := CertificatePath(id, now, sep);
      var u := Modify(t, id, p => Issue(p, custom, path));
      Success(Generated(u.value, path, Render(Merge(t.rows[id].fields, custom), printed)))
  }

  /** Generation keeps every stored row's flag and path in agreement. */
  lemma GenerateKeepsStoreInv(t: Table<Presentation>, id: int, custom: Option<Overrides>,
                              now: Moment, printed: CalendarDate, sep: char)
    requires ValidMoment(now) && (sep == '/' || sep == '\\')
    requires StoreInv(t) && GenerateCertificate(t, id, custom, now, printed, sep, true).Success?
    ensures StoreInv(GenerateCertificate(t, id, custom, now, printed, sep, true).value.table)
  {
    var u := GenerateCertificate(t, id, custom, now, printed, sep, true).value.table;
    forall k | k in u.rows ensures CertificateConsistent(u.rows[k]) {
      if k != id {
        assert u.rows[k] == t.rows[k];
      }
    }
  }

  /** The certificate closes with the pastor's name. */
  lemma PastorLineShown(f: Fields, issued: CalendarDate)
    ensures exists i | 0 <= i < |Render(f, issued)| :: Render(f, issued)[i].text == "Pastor " + f.pastor
  {
    var b := BlockOf(PastorLine, f, issued);
    assert b.text == "Pastor " + f.pastor;
    RenderHas(f, issued, PastorLine);
    var r := Render(f, issued);
    var i :| 0 <= i < |r| && r[i] == b;
    assert r[i].text == "Pastor " + f.pastor;
  }

  /** An override given and non-empty is what the certificate shows and what
      the row keeps; the church address override never is. */
  lemma OverridesShownAndKept(t: Table<Presentation>, id: int, o: Overrides, now: Moment,
                             printed: CalendarDate, sep: char)
    requires ValidMoment(now) && (sep == '/' || sep == '\\')
    requires GenerateCertificate(t, id, Some(o), now, printed, sep, true).Success?
    ensures var g := GenerateCertificate(t, id, Some(o), now, printed, sep, true).value;
      (!NullOrEmpty(o.pastor) ==>
         (g.table.rows[id].fields.pastor == o.pastor.value
          && exists i | 0 <= i < |g.document| :: g.document[i].text == "Pastor " + o.pastor.value))
      && g.table.rows[id].fields.churchAddress == t.rows[id].fields.churchAddress
  {
    PastorLineShown(Merge(t.rows[id].fields, Some(o)), printed);
  }

  // -------------------------------------------------------------- download

  const PresentationMissing := "Apresentação não encontrada"
  const NotGeneratedYet := "Certificado não foi gerado ainda"
  const FileMissing := "Arquivo do certificado não encontrado: "

  /** `Path.Combine(root, rel)` for a relative `rel`: a separator is put
      between them unless `root` already ends with one, '/' counting as a
      separator on every host. */
  function Combine(root: string, rel: string, sep: char): (r: string)
    ensures |r| >= |root| + |rel|
    ensures |rel| == 0 ==> r == root
    ensures |rel| > 0 ==> r[|r| - |rel|..] == rel
  {
    if |rel| == 0 then root
    else if |root| == 0 then rel
    else if root[|root| - 1] == sep || root[|root| - 1] == '/' then root + rel
    else root + [sep] + rel
  }

  /** The stored path without its leading '/', with the host's separator. */
  function LocalPath(path: string, sep: char): (r: string)
    ensures |r| <= |path|
    ensures |r| > 0 && sep != '/' ==> r[0] != '/'
  {
    ReplaceChar(TrimStartChar(path, '/'), '/', sep)
  }

  /** The attachment name: spaces of the child's name become '_'. */
  function DownloadName(childName: string): (r: string)
    ensures r == CertificatePrefix + ReplaceChar(childName, ' ', '_') + ".pdf"
    ensures ' ' !in r
  {
    ReplaceCharRemoves(childName, ' ', '_');
    CertificatePrefix + ReplaceChar(childName, ' ', '_') + ".pdf"
  }

  datatype Download = Download(file: string, name: string)

  /** `GET api/ChildPresentation/{id}/certificate/download`: 404 for an
      unknown id, 400 unless a certificate was generated with a non-empty
      path, 404 naming the full path when the file is gone; otherwise the
      file under the web root, sent as a PDF named after the child. */
  function DownloadCertificate(t: Table<Presentation>, id: int, root: string, sep: char,
                               exists_: string -> bool): (res: Result<Download>)
    ensures id !in t.rows ==> res == Failure(NotFound(PresentationMissing))
    ensures id in t.rows ==>
      var p := t.rows[id];
      (!p.certificateGenerated || NullOrEmpty(p.certificatePath) ==> res == Failure(BadRequest(NotGeneratedYet)))
      && (p.certificateGenerated && !NullOrEmpty(p.certificatePath) ==>
            var file := Combine(root, LocalPath(p.certificatePath.value, sep), sep);
            res == if exists_(file) then Success(Download(file, DownloadName(p.fields.childName)))
                   else Failure(NotFound(FileMissing + file)))
  {
    if id !in t.rows then Failure(NotFound(PresentationMissing))
    else
      var p := t.rows[id];
      if !p.certificateGenerated || NullOrEmpty(p.certificatePath) then Failure(BadRequest(NotGeneratedYet))
      else
        var file := Combine(root, LocalPath(p.certificatePath.value, sep), sep);
        if !exists_(file) then Failure(NotFound(FileMissing + file))
        else Success(Download(file, DownloadName(p.fields.childName)))
  }

  /** A row fresh from create has nothing to download. */
  lemma NoDownloadBeforeGenerate(t: Table<Presentation>, dto: Dto, now: Date, root: string, sep: char,
                                 exists_: string -> bool)
    requires ValidIds(t) && CreatePresentation(t, dto, now).Success?
    ensures var (u, id) := CreatePresentation(t, dto, now).value;
      DownloadCertificate(u, id, root, sep, exists_) == Failure(BadRequest(NotGeneratedYet))
  {
  }

  /** After a successful generation the download guard passes, and the file
      it looks for is the one written under the web root. */
  lemma DownloadAfterGenerate(t: Table<Presentation>, id: int, custom: Option<Overrides>, now: Moment,
                              printed: CalendarDate, root: string, sep: char, exists_: string -> bool)
    requires ValidMoment(now) && (sep == '/' || sep == '\\')
    requires GenerateCertificate(t, id, custom, now, printed, sep, true).Success?
    ensures var g := GenerateCertificate(t, id, custom, now, printed, sep, true).value;
      var file := Combine(root, LocalPath(g.path, sep), sep);
      file == Combine(root, "uploads" + [sep] + "certificates" + [sep] + FileName(id, now), sep)
      && (exists_(file) ==>
            DownloadCertificate(g.table, id, root, sep, exists_)
            == Success(Download(file, DownloadName(t.rows[id].fields.childName))))
  {
    var g := GenerateCertificate(t, id, custom, now, printed, sep, true).value;
    var name := FileName(id, now);
    assert g.path == CertificateFolder + name;
    LocalCertificatePath(name, sep);
    var p := g.table.rows[id];
    assert p == Issue(t.rows[id], custom, g.path);
    assert p.certificateGenerated && p.certificatePath == Some(g.path);
    assert p.fields.childName == t.rows[id].fields.childName;
    assert !NullOrEmpty(p.certificatePath);
  }

  /** A recorded certificate path, read back on the host it was written on,
      names the file in the certificates folder. */
  lemma LocalCertificatePath(name: string, sep: char)
    requires '/' !in name
    ensures LocalPath(CertificateFolder + name, sep) == "uploads" + [sep] + "certificates" + [sep] + name
  {
    var path := CertificateFolder + name;
    assert path[0] == 'u';
    assert TrimStartChar(path, '/') == path;
    var expected := "uploads" + [sep] + "certificates" + [sep] + name;
    var l := LocalPath(path, sep);
    assert |l| == |expected|;
    forall k | 0 <= k < |l| ensures l[k] == expected[k] {
      if k >= |CertificateFolder| {
        assert path[k] == name[k - |CertificateFolder|];
      }
    }
  }
}
