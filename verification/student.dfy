/**
 * The student's dashboard: the student's own submissions, and the form that
 * adds a new one or edits a pending one, uploading an optional document to
 * storage first. Backend answers are parameters; each backend request the
 * dashboard makes is returned as a `Call`.
 */
module Student {
  import opened Maybe
  import opened Submissions
  import Seqs
  import Text
  import Admin

  // ---------------------------------------------------------------------------
  // Form state
  // ---------------------------------------------------------------------------

  /** A file picked in the form; only its name matters here. */
  datatype File = File(name: string)

  /** The seven text inputs and the optional file. */
  datatype Form = Form(
    projectName: string,
    className: string,
    groupClass: string,
    course: string,
    lecturer: string,
    grade: string,
    programStudy: string,
    document: Option<File>)

  /** The form with nothing typed or picked. */
  const EmptyForm := Form("", "", "", "", "", "", "", None)

  /** The form, whether it is showing, and the id of the submission being edited, if any. */
  datatype Editor = Editor(form: Form, showForm: bool, editingId: Option<string>)

  /** The dashboard as it opens. */
  const InitialEditor := Editor(EmptyForm, false, None)

  datatype User = User(id: string)

  /** The form's text fields hold the submission's values. */
  predicate FormHolds(f: Form, s: Submission) {
    && f.projectName == s.projectName
    && f.className == s.className
    && f.groupClass == s.groupClass
    && f.course == s.course
    && f.lecturer == s.lecturer
    && f.grade == s.grade
    && f.programStudy == s.programStudy
  }

  /** The state in which nothing is entered, nothing is being edited and the form is hidden. */
  predicate IsCleared(e: Editor) {
    && e.form.projectName == "" && e.form.className == "" && e.form.groupClass == ""
    && e.form.course == "" && e.form.lecturer == "" && e.form.grade == "" && e.form.programStudy == ""
    && e.form.document.None?
    && !e.showForm
    && e.editingId.None?
  }

  /** "Add New Project": shows the form as it is. */
  function OpenForm(e: Editor): (next: Editor)
    ensures next.showForm
    ensures next.form == e.form && next.editingId == e.editingId
  {
    e.(showForm := true)
  }

  /** Cancel, or the end of a successful save: every input emptied, the form hidden, no edit in progress. */
  function ResetForm(e: Editor): (next: Editor)
    ensures IsCleared(next)
  {
    InitialEditor
  }

  /** Resetting a reset form changes nothing, and the dashboard opens in the reset state. */
  lemma ResetFormIdempotent(e: Editor)
    ensures ResetForm(ResetForm(e)) == ResetForm(e)
    ensures ResetForm(e) == InitialEditor
  {
  }

  /**
   * Edit: the form takes the submission's seven text values and no file, and
   * shows, editing that submission.
   */
  function HandleEdit(e: Editor, s: Submission): (next: Editor)
    ensures FormHolds(next.form, s)
    ensures next.form.document.None?
    ensures next.editingId == Some(s.id) && next.showForm
  {
    Editor(
      Form(s.projectName, s.className, s.groupClass, s.course, s.lecturer, s.grade, s.programStudy, None),
      true,
      Some(s.id))
  }

  /**
   * Whether a save updates rather than inserts: JavaScript's truthiness of the
   * edited id, so an empty id counts as not editing.
   */
  predicate IsEditing(e: Editor) {
    e.editingId.Some? && e.editingId.value != ""
  }

  // ---------------------------------------------------------------------------
  // Saving
  // ---------------------------------------------------------------------------

  /** The columns a save writes. */
  datatype Payload = Payload(
    userId: string,
    projectName: string,
    className: string,
    groupClass: string,
    course: string,
    lecturer: string,
    grade: string,
    programStudy: string,
    documentUrl: Option<string>)

  /** A backend request the dashboard makes. */
  datatype Call =
    | Upload(path: string, file: File)
    | UpdateRow(id: string, payload: Payload)
    | InsertRow(payload: Payload)
    | DeleteRow(id: string)
    | FetchOwn(userId: string)

  /** How the backend answers the two requests of a save. */
  datatype Backend = Backend(uploadFails: bool, writeFails: bool)

  /** What a save did: the requests in order, the next editor state, and whether the row was written. */
  datatype Outcome = Outcome(calls: seq<Call>, next: Editor, saved: bool)

  /**
   * The storage path of an uploaded document: the user's folder, then the
   * upload time in milliseconds, a dot and the text after the file name's last
   * dot (the whole name when it has none).
   */
  function UploadPath(userId: string, now: nat, fileName: string): string {
    userId + "/" + Text.Decimal(now) + "." + Text.LastPiece(fileName, '.')
  }

  /** The payload carries the user's id and the form's seven text values. */
  predicate CarriesForm(p: Payload, f: Form, userId: string) {
    && p.userId == userId
    && p.projectName == f.projectName
    && p.className == f.className
    && p.groupClass == f.groupClass
    && p.course == f.course
    && p.lecturer == f.lecturer
    && p.grade == f.grade
    && p.programStudy == f.programStudy
  }

  function PayloadOf(f: Form, userId: string, documentUrl: Option<string>): (p: Payload)
    ensures CarriesForm(p, f, userId) && p.documentUrl == documentUrl
  {
    Payload(userId, f.projectName, f.className, f.groupClass, f.course, f.lecturer, f.grade, f.programStudy, documentUrl)
  }

  /** Whether a save with this form and backend reaches the row write (the upload, if any, went through). */
  predicate ReachesWrite(e: Editor, backend: Backend) {
    !(e.form.document.Some? && backend.uploadFails)
  }

  /** Where the row write sits among a save's requests: after the upload when there is a file. */
  function WriteIndex(e: Editor): nat {
    if e.form.document.Some? then 1 else 0
  }

  /**
   * Saving the form. With no signed-in user nothing happens. Otherwise a picked
   * file is uploaded first, and a failed upload stops the save; then the row is
   * updated when editing and inserted when not, with the document URL set only
   * when a file was uploaded in this save. A successful write resets the form
   * and reloads the list; any failure leaves the form as it was.
   */
  function HandleSubmit(e: Editor, user: Option<User>, now: nat, backend: Backend, publicUrl: string -> string): (o: Outcome)
    ensures user.None? ==> o.calls == [] && o.next == e && !o.saved
    ensures o.saved <==> user.Some? && ReachesWrite(e, backend) && !backend.writeFails
    ensures !o.saved ==> o.next == e
    ensures o.saved ==> IsCleared(o.next) && |o.calls| >= 2 && o.calls[|o.calls| - 1] == FetchOwn(user.value.id)
    ensures user.Some? && e.form.document.Some? ==>
      |o.calls| >= 1 && o.calls[0] == Upload(UploadPath(user.value.id, now, e.form.document.value.name), e.form.document.value)
    ensures user.Some? && !ReachesWrite(e, backend) ==> |o.calls| == 1
    ensures user.Some? && ReachesWrite(e, backend) ==>
      && |o.calls| > WriteIndex(e)
      && var w := o.calls[WriteIndex(e)];
      && (w.UpdateRow? || w.InsertRow?)
      && (w.UpdateRow? <==> IsEditing(e))
      && (w.UpdateRow? ==> w.id == e.editingId.value)
      && CarriesForm(w.payload, e.form, user.value.id)
      && w.payload.documentUrl == (if e.form.document.Some?
           then Some(publicUrl(UploadPath(user.value.id, now, e.form.document.value.name)))
           else None)
    ensures user.Some? && ReachesWrite(e, backend) ==>
      |o.calls| == WriteIndex(e) + (if backend.writeFails then 1 else 2)
  {
    match user
    case None => Outcome([], e, false)
    case Some(u) =>
      var uploads := if e.form.document.Some? then [Upload(UploadPath(u.id, now, e.form.document.value.name), e.form.document.value)] else [];
      if !ReachesWrite(e, backend) then Outcome(uploads, e, false)
      else
        var url := if e.form.document.Some? then Some(publicUrl(UploadPath(u.id, now, e.form.document.value.name))) else None;
        var payload := PayloadOf(e.form, u.id, url);
        var write := if IsEditing(e) then UpdateRow(e.editingId.value, payload) else InsertRow(payload);
        if backend.writeFails then Outcome(uploads + [write], e, false)
        else Outcome(uploads + [write, FetchOwn(u.id)], ResetForm(e), true)
  }

  /**
   * The backend's update of one row with a payload: the payload's columns are
   * replaced; the id, status, review note and creation time are kept.
   */
  function ApplyPayload(row: Submission, p: Payload): (out: Submission)
    ensures out.id == row.id && out.status == row.status && out.adminNotes == row.adminNotes && out.createdAt == row.createdAt
    ensures out.userId == p.userId && out.documentUrl == p.documentUrl
    ensures FormHolds(Form(p.projectName, p.className, p.groupClass, p.course, p.lecturer, p.grade, p.programStudy, None), out)
  {
    row.(userId := p.userId, projectName := p.projectName, className := p.className, groupClass := p.groupClass,
         course := p.course, lecturer := p.lecturer, grade := p.grade, programStudy := p.programStudy,
         documentUrl := p.documentUrl)
  }

  /**
   * Opening a submission for edit and saving it unchanged, without picking a
   * new file, writes back everything it had except the document, which is
   * cleared: the stored document URL is lost.
   */
  lemma {:induction false} ResavingClearsDocument(e: Editor, s: Submission, u: User, now: nat, backend: Backend, publicUrl: string -> string)
    requires s.id != "" && s.userId == u.id
    requires !backend.writeFails
    ensures var o := HandleSubmit(HandleEdit(e, s), Some(u), now, backend, publicUrl);
      && o.saved
      && o.calls[0].UpdateRow? && o.calls[0].id == s.id
      && ApplyPayload(s, o.calls[0].payload) == s.(documentUrl := None)
  {
    var edit := HandleEdit(e, s);
    var o := HandleSubmit(edit, Some(u), now, backend, publicUrl);
    assert WriteIndex(edit) == 0 && IsEditing(edit);
    var p := o.calls[0].payload;
    assert CarriesForm(p, edit.form, u.id) && p.documentUrl.None?;
  }

  /** Saving an edit keeps the submission's status, so a pending submission stays editable. */
  lemma EditKeepsStatus(s: Submission, p: Payload)
    ensures ApplyPayload(s, p).status == s.status
    ensures OffersEditAndDelete(s) ==> OffersEditAndDelete(ApplyPayload(s, p))
  {
  }

  // ---------------------------------------------------------------------------
  // The upload path
  // ---------------------------------------------------------------------------

  /**
   * The path ends with the file's extension: its text after the last dot is the
   * file name's. A name with no dot is used whole as the extension.
   */
  lemma UploadPathKeepsExtension(userId: string, now: nat, fileName: string)
    ensures Text.LastPiece(UploadPath(userId, now, fileName), '.') == Text.LastPiece(fileName, '.')
    ensures '.' !in fileName ==> UploadPath(userId, now, fileName) == userId + "/" + Text.Decimal(now) + "." + fileName
  {
    var ext := Text.LastPiece(fileName, '.');
    Text.LastPieceAfterSep(userId + "/" + Text.Decimal(now), '.', ext);
    Text.LastPieceShape(fileName, '.');
  }

  /**
   * When neither the user id nor the file name contains a slash, the path is
   * two segments: the user's folder, then the time and extension; and the
   * text before the first dot of the second segment is the time in decimal.
   */
  lemma UploadPathReadsBack(userId: string, now: nat, fileName: string)
    requires '/' !in userId && '/' !in fileName
    ensures Text.Split(UploadPath(userId, now, fileName), '/') == [userId, Text.Decimal(now) + "." + Text.LastPiece(fileName, '.')]
    ensures Text.Split(Text.Split(UploadPath(userId, now, fileName), '/')[1], '.')[0] == Text.Decimal(now)
  {
    var digits := Text.Decimal(now);
    var ext := Text.LastPiece(fileName, '.');
    var rest := digits + "." + ext;
    Text.LastPieceWithin(fileName, '.');
    assert '/' !in ext;
    assert '/' !in digits && '.' !in digits;
    assert '/' !in rest;
    assert UploadPath(userId, now, fileName) == userId + ['/'] + rest;
    Text.SplitAfterFree(userId, '/', rest);
    Text.SplitFree(rest, '/');
    Text.FirstPieceBeforeSep(digits, '.', ext);
  }

  /** Two uploads of the same file by the same user at different times go to different paths. */
  lemma UploadPathsDiffer(userId: string, t1: nat, t2: nat, fileName: string)
    requires t1 != t2
    ensures UploadPath(userId, t1, fileName) != UploadPath(userId, t2, fileName)
  {
    var ext := Text.LastPiece(fileName, '.');
    var d1, d2 := Text.Decimal(t1), Text.Decimal(t2);
    var rest1, rest2 := d1 + "." + ext, d2 + "." + ext;
    var n := |userId| + 1;
    assert UploadPath(userId, t1, fileName) == (userId + "/") + rest1;
    assert UploadPath(userId, t2, fileName) == (userId + "/") + rest2;
    if UploadPath(userId, t1, fileName) == UploadPath(userId, t2, fileName) {
      assert rest1 == UploadPath(userId, t1, fileName)[n..] == rest2;
      assert '.' !in d1 && '.' !in d2;
      Text.FirstPieceBeforeSep(d1, '.', ext);
      Text.FirstPieceBeforeSep(d2, '.', ext);
      Text.DecimalRoundTrip(t1);
      Text.DecimalRoundTrip(t2);
      assert false;
    }
  }

  // ---------------------------------------------------------------------------
  // The list, deletion and the pending-only gate
  // ---------------------------------------------------------------------------

  /** The request the list load makes: none without a signed-in user. */
  function FetchRequest(user: Option<User>): (c: Option<Call>)
    ensures c.Some? <==> user.Some?
    ensures c.Some? ==> c.value == FetchOwn(user.value.id)
  {
    match user
    case None => None
    case Some(u) => Some(FetchOwn(u.id))
  }

  /**
   * The list after a load: unchanged without a user or after an error (only a
   * message is shown), otherwise the rows returned (none when the data is null).
   */
  function AfterFetch(current: seq<Submission>, user: Option<User>, reply: Reply<seq<Submission>>): (next: seq<Submission>)
    ensures user.None? || reply.Failure? ==> next == current
    ensures user.Some? && reply.Success? ==> next == reply.data.GetOr([])
  {
    if user.None? then current
    else match reply
      case Failure(_) => current
      case Success(data) => data.GetOr([])
  }

  /** An error clears the administrator's list but leaves the student's as it was. */
  lemma FetchFailureHandledDifferently(current: seq<Submission>, u: User, message: string)
    ensures AfterFetch(current, Some(u), Failure(message)) == current
    ensures Admin.AfterFetch(Failure(message)) == []
  {
  }

  /** Delete: the delete request, then a reload of the list when it succeeded and a user is signed in. */
  function HandleDelete(user: Option<User>, id: string, failed: bool): (calls: seq<Call>)
    ensures |calls| >= 1 && calls[0] == DeleteRow(id)
    ensures |calls| == 2 <==> !failed && user.Some?
    ensures |calls| <= 2
    ensures |calls| == 2 ==> calls[1] == FetchOwn(user.value.id)
  {
    if failed then [DeleteRow(id)]
    else match FetchRequest(user)
      case None => [DeleteRow(id)]
      case Some(c) => [DeleteRow(id), c]
  }

  function HasOtherId(id: string): Submission -> bool {
    (s: Submission) => s.id != id
  }

  /** The backend's delete by id: no row with that id remains, and every other row stays, in order. */
  function ApplyDelete(rows: seq<Submission>, id: string): (out: seq<Submission>)
    ensures forall i :: 0 <= i < |out| ==> out[i].id != id && out[i] in rows
    ensures forall i :: 0 <= i < |rows| && rows[i].id != id ==> rows[i] in out
  {
    Seqs.Filter(rows, HasOtherId(id))
  }

  /** Deleting keeps the remaining rows in their order. */
  lemma ApplyDeleteKeepsOrder(rows: seq<Submission>, id: string)
    ensures Seqs.IsSubsequence(ApplyDelete(rows, id), rows)
  {
    Seqs.FilterIsSubsequence(rows, HasOtherId(id));
  }

  /** Edit and Delete are offered only on a submission still awaiting review. */
  predicate OffersEditAndDelete(s: Submission) {
    s.status == Pending
  }

  /** The caption of the badge for a submission awaiting review. */
  const WaitingCaption := "Pending"

  /**
   * Once the administrator approves or rejects a submission, the student can no
   * longer edit or delete it, and its badge shows the decision.
   */
  lemma ReviewedSubmissionIsLocked(rows: seq<Submission>, l: Admin.Listed, notes: string, v: Admin.Verdict, i: int)
    requires 0 <= i < |rows| && rows[i].id == l.sub.id
    ensures var u := Admin.ReviewRequest(Admin.Review(Some(l), notes, true), v).value;
      && !OffersEditAndDelete(Admin.ApplyReview(rows, u)[i])
      && StatusBadge(Admin.ApplyReview(rows, u)[i].status, WaitingCaption).tone != Yellow
  {
  }
}
