/**
 * The administrator's dashboard: the list of every submission joined with its
 * author's profile, the status / study-programme / free-text filters over it,
 * the headline counts, and the review dialog that approves or rejects one
 * submission with an optional note.
 */
module Admin {
  import opened Maybe
  import opened Submissions
  import Seqs
  import Text

  // ---------------------------------------------------------------------------
  // Fetching: the joined rows and the profile type guard
  // ---------------------------------------------------------------------------

  /** A JSON value, as the backend returns the joined `profiles` column (numbers kept as integers). */
  datatype Json =
    | JNull
    | JBool(b: bool)
    | JNumber(n: int)
    | JString(s: string)
    | JArray(items: seq<Json>)
    | JObject(fields: map<string, Json>)

  /** One raw row of the joined query: the submission and whatever came back for its author's profile. */
  datatype Row = Row(sub: Submission, profiles: Json)

  /** The two profile columns the dashboard shows. */
  datatype Profile = Profile(fullName: string, username: string)

  /** A submission as the dashboard lists it, with its author's profile. */
  datatype Listed = Listed(sub: Submission, profile: Profile)

  /**
   * The fetch's type guard: the profile is a non-null object carrying string
   * `full_name` and `username` members. An array is an object to `typeof` but
   * has no such members, so it fails the guard like every non-object does.
   */
  predicate HasValidProfile(row: Row) {
    && row.profiles.JObject?
    && "full_name" in row.profiles.fields
    && "username" in row.profiles.fields
    && row.profiles.fields["full_name"].JString?
    && row.profiles.fields["username"].JString?
  }

  /** A guarded row, read with the profile's strings. */
  function ToListed(row: Row): Listed
    requires HasValidProfile(row)
  {
    Listed(row.sub, Profile(row.profiles.fields["full_name"].s, row.profiles.fields["username"].s))
  }

  /** `l` is what `row` says: the same submission, and a profile object holding `l`'s two strings. */
  predicate ReadsAs(row: Row, l: Listed) {
    && l.sub == row.sub
    && row.profiles.JObject?
    && "full_name" in row.profiles.fields
    && "username" in row.profiles.fields
    && row.profiles.fields["full_name"] == JString(l.profile.fullName)
    && row.profiles.fields["username"] == JString(l.profile.username)
  }

  /**
   * `(data || []).filter(guard)`: the listed submissions are, position by
   * position, the rows that pass the guard, in their fetched order.
   */
  function ValidSubmissions(rows: seq<Row>): (listed: seq<Listed>)
    ensures |listed| == |Seqs.Filter(rows, HasValidProfile)|
    ensures forall i :: 0 <= i < |listed| ==> ReadsAs(Seqs.Filter(rows, HasValidProfile)[i], listed[i])
  {
    var valid := Seqs.Filter(rows, HasValidProfile);
    seq(|valid|, i requires 0 <= i < |valid| => ToListed(valid[i]))
  }

  /**
   * The list after a fetch: empty after an error, otherwise one entry per
   * fetched row whose profile passes the guard (none when the data is null).
   */
  function AfterFetch(reply: Reply<seq<Row>>): (listed: seq<Listed>)
    ensures reply.Failure? ==> listed == []
    ensures reply.Success? ==> listed == ValidSubmissions(reply.data.GetOr([]))
    ensures reply.Success? ==> |listed| == Seqs.CountWhere(reply.data.GetOr([]), HasValidProfile)
  {
    match reply
    case Failure(_) => []
    case Success(data) =>
      Seqs.FilterLength(data.GetOr([]), HasValidProfile);
      ValidSubmissions(data.GetOr([]))
  }

  // ---------------------------------------------------------------------------
  // Filtering
  // ---------------------------------------------------------------------------

  /** The three filter controls; `"all"` and the empty search switch a control off. */
  datatype Criteria = Criteria(status: string, program: string, search: string)

  /** The controls as the dashboard opens. */
  const NoCriteria := Criteria("all", "all", "")

  /** Case-insensitive search hit on the project name, course, lecturer or author's full name. */
  predicate Mentions(l: Listed, term: string) {
    var t := Text.Lower(term);
    || Text.Includes(Text.Lower(l.sub.projectName), t)
    || Text.Includes(Text.Lower(l.sub.course), t)
    || Text.Includes(Text.Lower(l.sub.lecturer), t)
    || Text.Includes(Text.Lower(l.profile.fullName), t)
  }

  function StatusIs(status: string): Listed -> bool {
    (l: Listed) => l.sub.status == status
  }

  function ProgramIs(program: string): Listed -> bool {
    (l: Listed) => l.sub.programStudy == program
  }

  function MentionedBy(term: string): Listed -> bool {
    (l: Listed) => Mentions(l, term)
  }

  /** The reference: a submission is shown when it passes every control that is switched on. */
  predicate Shown(c: Criteria, l: Listed) {
    && (c.status == "all" || l.sub.status == c.status)
    && (c.program == "all" || l.sub.programStudy == c.program)
    && (c.search == "" || Mentions(l, c.search))
  }

  function ShownBy(c: Criteria): Listed -> bool {
    (l: Listed) => Shown(c, l)
  }

  /** The dashboard's three filter passes, each applied only when its control is switched on. */
  function FilterSubmissions(subs: seq<Listed>, c: Criteria): (shown: seq<Listed>)
    ensures |shown| <= |subs|
    ensures c == NoCriteria ==> shown == subs
  {
    var byStatus := if c.status != "all" then Seqs.Filter(subs, StatusIs(c.status)) else subs;
    var byProgram := if c.program != "all" then Seqs.Filter(byStatus, ProgramIs(c.program)) else byStatus;
    if c.search != "" then Seqs.Filter(byProgram, MentionedBy(c.search)) else byProgram
  }

  /** The three passes together are one filter by the conjunction of the switched-on controls. */
  lemma FilterSubmissionsIsConjunction(subs: seq<Listed>, c: Criteria)
    ensures FilterSubmissions(subs, c) == Seqs.Filter(subs, ShownBy(c))
  {
    var p1 := (l: Listed) => c.status == "all" || l.sub.status == c.status;
    var p2 := (l: Listed) => c.program == "all" || l.sub.programStudy == c.program;
    var p3 := (l: Listed) => c.search == "" || Mentions(l, c.search);
    var p12 := (l: Listed) => p1(l) && p2(l);
    var s1 := if c.status != "all" then Seqs.Filter(subs, StatusIs(c.status)) else subs;
    assert s1 == Seqs.Filter(subs, p1) by {
      if c.status != "all" {
        Seqs.FilterAgree(subs, StatusIs(c.status), p1);
      } else {
        Seqs.FilterAll(subs, p1);
      }
    }
    var s2 := if c.program != "all" then Seqs.Filter(s1, ProgramIs(c.program)) else s1;
    assert s2 == Seqs.Filter(s1, p2) by {
      if c.program != "all" {
        Seqs.FilterAgree(s1, ProgramIs(c.program), p2);
      } else {
        Seqs.FilterAll(s1, p2);
      }
    }
    Seqs.FilterFuse(subs, p1, p2, p12);
    var s3 := if c.search != "" then Seqs.Filter(s2, MentionedBy(c.search)) else s2;
    assert s3 == Seqs.Filter(s2, p3) by {
      if c.search != "" {
        Seqs.FilterAgree(s2, MentionedBy(c.search), p3);
      } else {
        Seqs.FilterAll(s2, p3);
      }
    }
    Seqs.FilterFuse(subs, p12, p3, ShownBy(c));
  }

  /** A submission is in the filtered list exactly when it is in the full list and passes every switched-on control. */
  lemma FilterSubmissionsShowsExactly(subs: seq<Listed>, c: Criteria, l: Listed)
    ensures l in FilterSubmissions(subs, c) <==> l in subs && Shown(c, l)
  {
    FilterSubmissionsIsConjunction(subs, c);
    var shown := FilterSubmissions(subs, c);
    if l in shown {
      var i :| 0 <= i < |shown| && shown[i] == l;
      assert ShownBy(c)(shown[i]);
    }
    if l in subs && Shown(c, l) {
      var i :| 0 <= i < |subs| && subs[i] == l;
      assert ShownBy(c)(subs[i]);
    }
  }

  /** Filtering keeps the fetched order: the filtered list is a subsequence of the full one. */
  lemma FilterSubmissionsKeepsOrder(subs: seq<Listed>, c: Criteria)
    ensures Seqs.IsSubsequence(FilterSubmissions(subs, c), subs)
  {
    FilterSubmissionsIsConjunction(subs, c);
    Seqs.FilterIsSubsequence(subs, ShownBy(c));
  }

  /** Filtering an already filtered list with the same controls changes nothing. */
  lemma FilterSubmissionsIdempotent(subs: seq<Listed>, c: Criteria)
    ensures FilterSubmissions(FilterSubmissions(subs, c), c) == FilterSubmissions(subs, c)
  {
    FilterSubmissionsIsConjunction(subs, c);
    FilterSubmissionsIsConjunction(FilterSubmissions(subs, c), c);
    Seqs.FilterIdempotent(subs, ShownBy(c));
  }

  /** The search ignores the case of the term: a term and its lower-case form hit the same submissions. */
  lemma SearchIgnoresCase(l: Listed, term: string)
    ensures Mentions(l, term) <==> Mentions(l, Text.Lower(term))
  {
    Text.LowerIdempotent(term);
  }

  // ---------------------------------------------------------------------------
  // Headline counts
  // ---------------------------------------------------------------------------

  datatype Stats = Stats(total: nat, pending: nat, approved: nat, rejected: nat)

  function StatusOf(l: Listed): string {
    l.sub.status
  }

  /**
   * The four counts over the whole (unfiltered) list. Each status count is the
   * number of submissions with that status; the three add up to at most the
   * total, and exactly to it when no other status occurs.
   */
  function GetStats(subs: seq<Listed>): (st: Stats)
    ensures st.total == |subs|
    ensures st.pending == Seqs.CountWhere(subs, StatusIs(Pending))
    ensures st.approved == Seqs.CountWhere(subs, StatusIs(Approved))
    ensures st.rejected == Seqs.CountWhere(subs, StatusIs(Rejected))
    ensures st.pending + st.approved + st.rejected <= st.total
    ensures (forall i :: 0 <= i < |subs| ==> subs[i].sub.status in {Pending, Approved, Rejected}) ==>
      st.pending + st.approved + st.rejected == st.total
  {
    Seqs.FilterLength(subs, StatusIs(Pending));
    Seqs.FilterLength(subs, StatusIs(Approved));
    Seqs.FilterLength(subs, StatusIs(Rejected));
    Seqs.ExclusiveCounts(subs, StatusIs(Pending), StatusIs(Approved), StatusIs(Rejected));
    Stats(
      |subs|,
      |Seqs.Filter(subs, StatusIs(Pending))|,
      |Seqs.Filter(subs, StatusIs(Approved))|,
      |Seqs.Filter(subs, StatusIs(Rejected))|)
  }

  /** Each status count is that status's multiplicity in the multiset of all statuses. */
  lemma StatsCountStatuses(subs: seq<Listed>)
    ensures multiset(Seqs.Map(subs, StatusOf))[Pending] == GetStats(subs).pending
    ensures multiset(Seqs.Map(subs, StatusOf))[Approved] == GetStats(subs).approved
    ensures multiset(Seqs.Map(subs, StatusOf))[Rejected] == GetStats(subs).rejected
  {
    Seqs.MapMultiplicity(subs, StatusOf, Pending, StatusIs(Pending));
    Seqs.MapMultiplicity(subs, StatusOf, Approved, StatusIs(Approved));
    Seqs.MapMultiplicity(subs, StatusOf, Rejected, StatusIs(Rejected));
  }

  /** The caption of the badge for a submission awaiting review. */
  const WaitingCaption := "Pending Review"

  // ---------------------------------------------------------------------------
  // Review dialog
  // ---------------------------------------------------------------------------

  /**
   * The review dialog: the selected submission, the note being edited and
   * whether the dialog is showing. Closing it keeps the selection.
   */
  datatype Review = Review(selected: Option<Listed>, notes: string, open: bool)

  datatype Verdict = Approve | Reject

  /** The status each decision writes. */
  function VerdictStatus(v: Verdict): string {
    match v
    case Approve => Approved
    case Reject => Rejected
  }

  /** The update a decision sends for one row. */
  datatype ReviewUpdate = ReviewUpdate(id: string, status: string, adminNotes: Option<string>)

  /** Opening the dialog on a submission, with its stored note (or nothing) to edit. */
  function OpenReview(l: Listed): (rv: Review)
    ensures rv.open && rv.selected == Some(l)
    ensures l.sub.adminNotes.Some? ==> rv.notes == l.sub.adminNotes.value
    ensures l.sub.adminNotes.None? ==> rv.notes == ""
  {
    Review(Some(l), l.sub.adminNotes.GetOr(""), true)
  }

  /** A stored note in normal form: absent, or non-empty with no whitespace at either end. */
  predicate IsNormalNote(n: Option<string>) {
    n.Some? ==> |n.value| > 0 && !Text.IsSpace(n.value[0]) && !Text.IsSpace(n.value[|n.value| - 1])
  }

  /**
   * `notes.trim() || null`: no note when the text is only whitespace, otherwise
   * the text with the whitespace at both ends cut off.
   */
  function NormaliseNote(notes: string): (n: Option<string>)
    ensures n.None? <==> forall k :: 0 <= k < |notes| ==> Text.IsSpace(notes[k])
    ensures n.Some? ==> exists i :: Text.SliceAmidSpace(notes, n.value, i)
    ensures IsNormalNote(n)
  {
    var t := Text.Trim(notes);
    if t == "" then None else Some(t)
  }

  /** A note already in normal form is kept as it is. */
  lemma NormaliseKeepsNormal(n: string)
    requires IsNormalNote(Some(n))
    ensures NormaliseNote(n) == Some(n)
  {
    Text.TrimKeepsTrimmed(n);
  }

  /**
   * Approve or Reject: with no submission selected nothing is sent; otherwise
   * the selected row's id, the decision's status and the normalised note.
   */
  function ReviewRequest(rv: Review, v: Verdict): (u: Option<ReviewUpdate>)
    ensures u.Some? <==> rv.selected.Some?
    ensures u.Some? ==> u.value.id == rv.selected.value.sub.id && u.value.status == VerdictStatus(v)
    ensures u.Some? ==> u.value.adminNotes == NormaliseNote(rv.notes) && IsNormalNote(u.value.adminNotes)
  {
    match rv.selected
    case None => None
    case Some(l) => Some(ReviewUpdate(l.sub.id, VerdictStatus(v), NormaliseNote(rv.notes)))
  }

  /** The dialog after the backend answers a decision, and whether the list is loaded again. */
  datatype Decided = Decided(review: Review, reload: bool)

  /**
   * After the backend answers: a failure leaves the dialog as it was and loads
   * nothing; a success closes the dialog and loads the list again.
   */
  function AfterReviewReply(rv: Review, failed: bool): (next: Decided)
    ensures next.reload <==> !failed
    ensures failed ==> next.review == rv
    ensures !failed ==> !next.review.open && next.review.selected == rv.selected && next.review.notes == rv.notes
  {
    if failed then Decided(rv, false) else Decided(rv.(open := false), true)
  }

  /** Approve is offered unless the submission is already approved. */
  predicate ApproveEnabled(l: Listed) {
    l.sub.status != Approved
  }

  /** Reject is offered unless the submission is already rejected. */
  predicate RejectEnabled(l: Listed) {
    l.sub.status != Rejected
  }

  /**
   * The backend's `update(...).eq('id', id)`: the rows with that id take the new
   * status and note, and nothing else changes in them or in any other row.
   */
  function ApplyReview(rows: seq<Submission>, u: ReviewUpdate): (out: seq<Submission>)
    ensures |out| == |rows|
    ensures forall i :: 0 <= i < |rows| && rows[i].id != u.id ==> out[i] == rows[i]
    ensures forall i :: 0 <= i < |rows| && rows[i].id == u.id ==>
      out[i].status == u.status && out[i].adminNotes == u.adminNotes &&
      out[i].(status := rows[i].status, adminNotes := rows[i].adminNotes) == rows[i]
  {
    Seqs.Map(rows, (s: Submission) => if s.id == u.id then s.(status := u.status, adminNotes := u.adminNotes) else s)
  }

  /**
   * Re-deciding without touching the note keeps the stored note: opening the
   * dialog and sending either decision writes back the note that was there,
   * provided it was stored in normal form (as every note this dialog writes is).
   */
  lemma {:induction false} ReviewKeepsStoredNote(l: Listed, v: Verdict)
    requires IsNormalNote(l.sub.adminNotes)
    ensures ReviewRequest(OpenReview(l), v) == Some(ReviewUpdate(l.sub.id, VerdictStatus(v), l.sub.adminNotes))
  {
    match l.sub.adminNotes
    case None =>
      assert NormaliseNote("") == None;
    case Some(n) =>
      NormaliseKeepsNormal(n);
  }

  /**
   * A decision is not final: both buttons are offered on a pending submission,
   * and on a decided one the button for the opposite decision is offered, whose
   * update moves the row to the other status.
   */
  lemma DecisionsCanBeReversed(rows: seq<Submission>, l: Listed, notes: string)
    requires l.sub.status == Approved || l.sub.status == Rejected
    ensures var v := if l.sub.status == Approved then Reject else Approve;
      && (if v == Reject then RejectEnabled(l) else ApproveEnabled(l))
      && var u := ReviewRequest(Review(Some(l), notes, true), v).value;
      && u.status != l.sub.status
      && forall i :: 0 <= i < |rows| && rows[i].id == l.sub.id ==> ApplyReview(rows, u)[i].status == u.status
  {
  }

  /** Every submission leaves at least one of the two decisions open, and a pending one leaves both. */
  lemma SomeDecisionOffered(l: Listed)
    ensures ApproveEnabled(l) || RejectEnabled(l)
    ensures l.sub.status == Pending ==> ApproveEnabled(l) && RejectEnabled(l)
  {
  }
}
