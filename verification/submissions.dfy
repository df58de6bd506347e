/**
 * The `projects_submissions` table as the two dashboards see it: one row per
 * project a student submits for review, the review statuses, and the shape of
 * a reply from the backend.
 */
module Submissions {
  import opened Maybe

  /** The status a new submission starts in; the admin review moves it to one of the other two. */
  const Pending := "pending"
  const Approved := "approved"
  const Rejected := "rejected"

  /**
   * One stored submission. `status` is free text in the table: the three
   * constants above are the values the application writes, but nothing stops
   * another value from being read back.
   */
  datatype Submission = Submission(
    id: string,
    userId: string,
    projectName: string,
    className: string,
    groupClass: string,
    course: string,
    lecturer: string,
    grade: string,
    programStudy: string,
    documentUrl: Option<string>,
    status: string,
    adminNotes: Option<string>,
    createdAt: string)

  /**
   * The `{ data, error }` pair a backend query resolves to: either an error,
   * or success with data that may still be `null`.
   */
  datatype Reply<T> = Failure(message: string) | Success(data: Option<T>)

  /** Colour of a status badge. */
  datatype Tone = Green | Red | Yellow

  /** A status badge: its caption and colour. */
  datatype Badge = Badge(caption: string, tone: Tone)

  /**
   * The status badge both dashboards show beside a submission: green for an
   * approval, red for a rejection, and yellow with the dashboard's own caption
   * for `waiting` for any other status, known or not.
   */
  function StatusBadge(status: string, waiting: string): (b: Badge)
    ensures b.tone == Green <==> status == Approved
    ensures b.tone == Red <==> status == Rejected
    ensures b.tone == Yellow <==> status != Approved && status != Rejected
    ensures b.tone == Green ==> b.caption == "Approved"
    ensures b.tone == Red ==> b.caption == "Rejected"
    ensures b.tone == Yellow ==> b.caption == waiting
  {
    if status == Approved then Badge("Approved", Green)
    else if status == Rejected then Badge("Rejected", Red)
    else Badge(waiting, Yellow)
  }
}
