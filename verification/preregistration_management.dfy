/** The administration panel of pre-registrations: the status chip, the
    three counters above the list, the actions a row offers, the pre-filled
    status and conversion dialogs and their error messages. */
module PreRegistrationManagement {
  import opened Common
  import opened Dates
  import opened Counting
  import opened Tables
  import opened Forms
  import opened PreRegistrations
  import MusicSchool

  // ------------------------------------------------------------ the list

  /** `getStatusColor`. */
  function StatusColour(status: string): (c: Tone)
    ensures c == ToneWarning <==> status == Pending
    ensures c == ToneInfo <==> status == Contacted
    ensures c == ToneSuccess <==> status == Enrolled
    ensures c == ToneError <==> status == Rejected
    ensures c == ToneDefault <==> status !in {Pending, Contacted, Enrolled, Rejected}
  {
    match status
    case "Pendente" => ToneWarning
    case "Contatado" => ToneInfo
    case "Matriculado" => ToneSuccess
    case "Rejeitado" => ToneError
    case _ => ToneDefault
  }

  predicate IsPending(p: PreRegistration) { p.status == Pending }
  predicate IsContacted(p: PreRegistration) { p.status == Contacted }
  predicate IsEnrolled(p: PreRegistration) { p.status == Enrolled }
  predicate IsUncounted(p: PreRegistration) { p.status !in {Pending, Contacted, Enrolled} }

  /** The three counters: exact matches of the status text. */
  datatype Counters = Counters(pending: nat, contacted: nat, enrolled: nat)

  function StatusCounters(rows: seq<PreRegistration>): (c: Counters)
    ensures c.pending + c.contacted + c.enrolled <= |rows|
    ensures c.pending + c.contacted + c.enrolled == |rows| <==>
      forall i | 0 <= i < |rows| :: rows[i].status in {Pending, Contacted, Enrolled}
  {
    CountPartition4(rows, IsPending, IsContacted, IsEnrolled, IsUncounted);
    CountZeroIff(rows, IsUncounted);
    Counters(Count(rows, IsPending), Count(rows, IsContacted), Count(rows, IsEnrolled))
  }

  /** The convert button of a row. */
  function ConvertOffered(p: PreRegistration): (offered: bool)
    ensures offered <==> StatusColour(p.status) != ToneSuccess
  {
    p.status != Enrolled
  }

  /** The statuses the update dialog offers. */
  const StatusOptions := [Pending, Contacted, Rejected]

  /** The dialog never offers "Matriculado", and every status it offers has
      a colour of its own. */
  lemma StatusOptionsExcludeEnrolled()
    ensures Enrolled !in StatusOptions
    ensures forall i | 0 <= i < |StatusOptions| :: StatusColour(StatusOptions[i]) != ToneDefault
    ensures forall i, j | 0 <= i < j < |StatusOptions| ::
      StatusColour(StatusOptions[i]) != StatusColour(StatusOptions[j])
  {
    assert StatusOptions[0] == Pending && StatusOptions[1] == Contacted && StatusOptions[2] == Rejected;
  }

  // -------------------------------------------------------- status dialog

  /** `handleUpdateOpen`: the row's status and flag, its notes or "". */
  function UpdatePrefill(p: PreRegistration): (u: MusicSchool.StatusUpdate)
    ensures u.status == p.status && u.isProcessed == p.isProcessed
    ensures u.adminNotes.Some? && (p.adminNotes.Some? ==> u.adminNotes == p.adminNotes)
  {
    MusicSchool.StatusUpdate(p.status, Some(if p.adminNotes.Some? then p.adminNotes.value else ""),
                             p.isProcessed)
  }

  /** Saving the dialog untouched changes the row only in its notes, which
      become "" when there were none: the status, the flag and the contact
      date stay, an enrolled row included, since the dialog sends the
      status it was opened with. */
  lemma UntouchedUpdateKeepsRow(t: Table<PreRegistration>, id: int, now: Date)
    requires id in t.rows
    ensures var r := MusicSchool.UpdatePreRegistration(t, id, UpdatePrefill(t.rows[id]), now);
      r.Success? && r.value.rows[id].status == t.rows[id].status
      && r.value.rows[id].isProcessed == t.rows[id].isProcessed
      && r.value.rows[id].adminNotes == (if t.rows[id].adminNotes.Some? then t.rows[id].adminNotes else Some(""))
    ensures var r := MusicSchool.UpdatePreRegistration(t, id, UpdatePrefill(t.rows[id]), now);
      t.rows[id].status != Contacted || t.rows[id].contactDate.Some? ==>
        r.value.rows[id].contactDate == t.rows[id].contactDate
  {
  }

  const UpdateFallback := "Erro ao atualizar pré-matrícula"

  /** The `catch` of `handleUpdate`. */
  function UpdateBanner(failure: Failure): (r: string)
    ensures r == OrElse(failure.ServerMessage(), UpdateFallback)
  {
    Banner(failure, [], ServerOr(UpdateFallback))
  }

  /** The status update fails only for an unknown id, answered without a
      message, so the page shows its fallback. */
  lemma RejectedUpdateBanner(t: Table<PreRegistration>, id: int, req: MusicSchool.StatusUpdate, now: Date)
    ensures var r := MusicSchool.UpdatePreRegistration(t, id, req, now);
      r.Failure? ==> UpdateBanner(Bodyless(r.error)) == UpdateFallback
  {
  }

  // ---------------------------------------------------- conversion dialog

  /** `handleConvertOpen`: no teacher, the preferred schedule or "", a fee
      of zero. */
  function ConvertPrefill(p: PreRegistration): (c: MusicSchool.Conversion)
    ensures c.teacher == Some("") && c.monthlyFeeCents == 0
    ensures c.classSchedule.Some? && (p.preferredSchedule.Some? ==> c.classSchedule == p.preferredSchedule)
  {
    MusicSchool.Conversion(Some(""),
                           Some(if p.preferredSchedule.Some? then p.preferredSchedule.value else ""), 0)
  }

  /** The dialog always sends a schedule, so the server's fallback to the
      preferred schedule never applies: a pre-registration without one
      enrols a student with the schedule "". */
  lemma ConvertedScheduleFromDialog(p: PreRegistration, now: Date)
    ensures MusicSchool.Enrol(p, ConvertPrefill(p), now).classSchedule ==
      Some(if p.preferredSchedule.Some? then p.preferredSchedule.value else "")
    ensures MusicSchool.Enrol(p, ConvertPrefill(p), now).teacher == Some("")
  {
  }

  const ConvertFallback := "Erro ao converter pré-matrícula"

  /** The `catch` of `handleConvert`. */
  function ConvertBanner(failure: Failure): (r: string)
    ensures r == OrElse(failure.ServerMessage(), ConvertFallback)
  {
    Banner(failure, [], ServerOr(ConvertFallback))
  }

  /** How a refused conversion reaches the page: the duplicate refusal
      carries its message in the body, an unknown id does not. */
  function ConversionFailure(e: ApiError): (f: Failure)
    ensures f.Status() == Some(e.Status())
  {
    if e.BadRequest? then Failure.Response(400, Some(e.message)) else Bodyless(e)
  }

  /** A conversion refused for an email already enrolled shows the server's
      text; one for an unknown id shows the page's fallback. */
  lemma RejectedConvertBanner(pre: Table<PreRegistration>, students: Table<MusicSchool.Student>,
                              id: int, req: MusicSchool.Conversion, now: Date)
    requires ValidIds(students)
    ensures var r := MusicSchool.ConvertPreRegistration(pre, students, id, req, now);
      r.Failure? && id in pre.rows ==> ConvertBanner(ConversionFailure(r.error)) == MusicSchool.AlreadyStudent
    ensures var r := MusicSchool.ConvertPreRegistration(pre, students, id, req, now);
      r.Failure? && id !in pre.rows ==> ConvertBanner(ConversionFailure(r.error)) == ConvertFallback
  {
  }

  /** After a conversion the row is green and offers no second conversion,
      and in the reloaded list one more row counts as enrolled while the
      counter of its former status drops by one. */
  lemma ConversionMovesCounters(pre: Table<PreRegistration>, students: Table<MusicSchool.Student>,
                                id: int, req: MusicSchool.Conversion, now: Date,
                                rows: seq<PreRegistration>, k: nat)
    requires ValidIds(students)
    requires k < |rows| && id in pre.rows && rows[k] == pre.rows[id] && ConvertOffered(rows[k])
    ensures var r := MusicSchool.ConvertPreRegistration(pre, students, id, req, now);
      r.Success? ==>
        var after := r.value.0.rows[id];
        && StatusColour(after.status) == ToneSuccess && !ConvertOffered(after)
        && StatusCounters(rows[k := after]).enrolled == StatusCounters(rows).enrolled + 1
        && StatusCounters(rows[k := after]).pending + (if IsPending(rows[k]) then 1 else 0)
           == StatusCounters(rows).pending
        && StatusCounters(rows[k := after]).contacted + (if IsContacted(rows[k]) then 1 else 0)
           == StatusCounters(rows).contacted
  {
    var r := MusicSchool.ConvertPreRegistration(pre, students, id, req, now);
    if r.Success? {
      var after := r.value.0.rows[id];
      CountUpdate(rows, k, after, IsEnrolled);
      CountUpdate(rows, k, after, IsPending);
      CountUpdate(rows, k, after, IsContacted);
    }
  }
}
