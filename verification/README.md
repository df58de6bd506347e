# Project expo portal — decision logic in Dafny

The portal lets students submit course projects for review and administrators
approve or reject them; a public page shows a table of showcase projects. This
model covers the logic of three React components, with every backend request
and answer abstracted away:

- **The administrator's dashboard** (`Admin`). It lists submissions that have a
  well-formed joined profile. It narrows the list by status, by study programme
  and by a case-insensitive search. It shows four counters. Its review dialog
  approves or rejects a submission with a trimmed, optional note.
- **The public project table** (`Projects`). It filters a fixed list by a search
  term (which may match any member's name) and a programme selector. It orders
  the rows with a stable sort by a sort state and expands rows one by one. It
  also shows a count line. The component defines column-sort buttons
  (`SortButton`, src/components/ProjectsTable.tsx lines 153-165) but never
  renders them in the JSX it returns (lines 167-284). So `handleSort` is
  unreachable on the shipped page, and the page always shows the opening sort
  state, project name ascending: `Projects.PageRows`. `Projects.HandleSort` and
  the lemmas about other sort states model the component's logic as written.
- **The student's dashboard** (`Student`). Its form adds a new submission or
  edits a pending one. A picked document is uploaded under the path
  `userId/time.ext`, then the row is updated or inserted. Edit and Delete are
  offered only while a submission is pending.

Supporting modules:

- `Maybe`: nullable values.
- `Text`: the JavaScript string operations used, namely `toLowerCase`,
  `includes`, `trim`, `localeCompare`, `split`/`pop` and number-to-text.
- `Seqs`: `filter`, counting, `map` and reversal over sequences, with their
  laws.
- `Sorting`: `Array.prototype.sort` as a stable insertion sort under a
  comparator.
- `Submissions`: the shared row record and the shape of a backend reply.

Backend requests are returned as values (`Student.Call`, `Admin.ReviewUpdate`).
The backend's effect on stored rows is modelled separately
(`Admin.ApplyReview`, `Student.ApplyPayload`, `Student.ApplyDelete`), so
properties that span the two dashboards can be stated.

Three consequences of the code are worth stating:

- **Decisions are not final.** Approve is disabled only on approved rows, and
  Reject only on rejected rows (src/components/AdminDashboard.tsx lines 409
  and 418). So an approved submission can be rejected and vice versa. See
  `Admin.DecisionsCanBeReversed`.
- **The two dashboards treat a failed load differently.** A failed admin load
  empties the list (src/components/AdminDashboard.tsx line 77). A failed
  student load keeps it (src/components/StudentDashboard.tsx lines 63-70). See
  `Student.FetchFailureHandledDifferently`.
- **An empty edited id means insert.** The save tests `editingId` for
  truthiness (src/components/StudentDashboard.tsx line 119), so an empty id
  inserts a new row. See `Student.IsEditing`.

## Model

| member | source | states |
|---|---|---|
| Admin.ValidSubmissions | src/components/AdminDashboard.tsx:79-88 | The listed submissions are exactly the fetched rows whose `profiles` is an object with string `full_name` and `username`. They keep their order, and each carries that object's two strings. |
| Admin.AfterFetch | src/components/AdminDashboard.tsx:56-93 | After a failed load the list is empty. After a successful one it is `ValidSubmissions` of the data, with null read as no rows: one entry per row passing the profile guard. |
| Admin.FilterSubmissions | src/components/AdminDashboard.tsx:95-116 | The filtered list is never longer than the full list. With status `"all"`, programme `"all"` and an empty search, it is the full list. |
| Admin.FilterSubmissionsIsConjunction | src/components/AdminDashboard.tsx:98-113 | The three successive passes equal a single filter by the conjunction of the switched-on controls. |
| Admin.FilterSubmissionsShowsExactly | src/components/AdminDashboard.tsx:98-113 | A submission is shown iff it is in the full list and passes all three tests: status is `"all"` or equal; programme is `"all"` or equal; search is empty or hits one of the four fields case-insensitively. |
| Admin.FilterSubmissionsKeepsOrder | src/components/AdminDashboard.tsx:96-115 | The filtered list is a subsequence of the full list: nothing is reordered, duplicated or invented. |
| Admin.FilterSubmissionsIdempotent | src/components/AdminDashboard.tsx:95-116 | Filtering the filtered list again with the same controls changes nothing. |
| Admin.SearchIgnoresCase | src/components/AdminDashboard.tsx:106-112 | A search term and its lower-case form hit the same submissions. |
| Admin.GetStats | src/components/AdminDashboard.tsx:189-196 | `total` is the list length, and each status counter is the number of exact matches. The three counters sum to at most `total`, and exactly to it when every status is one of the three. |
| Admin.StatsCountStatuses | src/components/AdminDashboard.tsx:191-193 | Each status counter is that status's multiplicity in the multiset of all statuses. |
| Submissions.StatusBadge | src/components/AdminDashboard.tsx:178-187 | Green iff the status is approved and red iff it is rejected, each with that caption. Any other status is yellow with the dashboard's waiting caption: `Admin.WaitingCaption` ("Pending Review") here, and `Student.WaitingCaption` ("Pending") on the student's dashboard (src/components/StudentDashboard.tsx lines 206-215). |
| Admin.OpenReview | src/components/AdminDashboard.tsx:118-122 | Opening the dialog selects the submission and shows the dialog. The note is prefilled with the stored note, or `""` when there is none. |
| Admin.NormaliseNote | src/components/AdminDashboard.tsx:131 | The note becomes null iff it is all whitespace. Otherwise it is a slice of the input with only whitespace outside it, and it neither starts nor ends with whitespace. |
| Admin.NormaliseKeepsNormal | src/components/AdminDashboard.tsx:158 | A note that is non-empty and has no whitespace at either end is stored unchanged. |
| Admin.ReviewRequest | src/components/AdminDashboard.tsx:124-160 | With no selection, no update is sent. Otherwise the update carries the selected id, `"approved"` or `"rejected"` according to the button, and the normalised note. |
| Admin.AfterReviewReply | src/components/AdminDashboard.tsx:135-148 | A failed update leaves the dialog as it was and loads nothing. A successful one closes it, keeps the selection and note, and loads the list again. |
| Admin.ApplyReview | src/components/AdminDashboard.tsx:127-133 | The rows with the updated id take the new status and note and keep every other column. All other rows are untouched. |
| Admin.ReviewKeepsStoredNote | src/components/AdminDashboard.tsx:118-133 | Opening a review and deciding without editing the note writes back the stored note, provided it is in normal form. |
| Admin.DecisionsCanBeReversed | src/components/AdminDashboard.tsx:405-422 | On an approved submission Reject stays enabled, and on a rejected one Approve does. That decision's update moves the row to the opposite status. |
| Admin.SomeDecisionOffered | src/components/AdminDashboard.tsx:409-418 | At least one of the two buttons is always enabled, and both are enabled on a pending submission. |
| Projects.Key | src/components/ProjectsTable.tsx:111-119 | A column has a text sort value for every field except the member list. |
| Projects.ComparatorConsistent | src/components/ProjectsTable.tsx:110-120 | The table's comparator is a total preorder for every column and either direction. Swapping the arguments flips the sign, and it is transitive. |
| Projects.DescendingIsFlipped | src/components/ProjectsTable.tsx:114-116 | Negating the comparison for `desc` equals comparing in ascending order with the arguments swapped. |
| Projects.FilteredAndSorted | src/components/ProjectsTable.tsx:96-121 | The rows on screen are a permutation of the projects passing search and programme, and they are ordered by the column's comparator. |
| Projects.FilteredAndSortedShowsExactly | src/components/ProjectsTable.tsx:97-108 | A project is on screen iff it is in the list and matches the search and the programme selector. Status is not filtered. |
| Projects.ColumnValuesOrdered | src/components/ProjectsTable.tsx:110-117 | Down the table, the column's text is non-decreasing when ascending and non-increasing when descending. |
| Projects.MembersColumnKeepsListOrder | src/components/ProjectsTable.tsx:110-120 | Sorting by the member list, which is not text, leaves the rows in filtered order. |
| Projects.TiedRowsKeepListOrder | src/components/ProjectsTable.tsx:110-120 | Rows that tie on the column appear in the order they have in the list, for every tie class. |
| Projects.DescendingReversesAscending | src/components/ProjectsTable.tsx:110-120 | When the visible rows' values in the column are distinct, the descending table is the ascending table reversed. |
| Projects.ClickingSameColumnReverses | src/components/ProjectsTable.tsx:123-130 | When the visible rows' values in the current column are distinct, clicking it shows the same rows in reverse. |
| Projects.PageRows | src/components/ProjectsTable.tsx:91-121 | The page's rows, in the opening sort state: project names never decrease down the table, and a project shows iff it is in the list and matches the search and the programme selector. |
| Projects.SearchIgnoresCase | src/components/ProjectsTable.tsx:98-103 | A search term and its lower-case form match the same projects. |
| Projects.HandleSort | src/components/ProjectsTable.tsx:123-130 | A click sorts by the clicked column. On the current column the direction turns round; on another column it becomes ascending. The handler is unreachable on the shipped page, because its buttons are never rendered. |
| Projects.HandleSortTwice | src/components/ProjectsTable.tsx:124-126 | Two clicks on the current column restore the sort state. |
| Projects.ToggleRow | src/components/ProjectsTable.tsx:132-140 | The toggled id changes membership. Every other id keeps its membership. |
| Projects.ToggleRowTwice | src/components/ProjectsTable.tsx:132-140 | Toggling the same row twice restores the set of expanded rows. |
| Projects.StatusBadge | src/components/ProjectsTable.tsx:142-151 | Each status has its own colour, and the badge's caption, lower-cased, is the status. |
| Projects.CountLabel | src/components/ProjectsTable.tsx:187 | The count line ends in "s" iff the number of rows is not 1. |
| Projects.CountLabelReadsBack | src/components/ProjectsTable.tsx:187 | The count line splits on spaces into "Showing", the decimal count, and "projects" (or "project" for exactly one). Its middle word parses back to the count. |
| Student.OpenForm | src/components/StudentDashboard.tsx:222 | "Add New Project" shows the form and keeps its contents and edit state. |
| Student.ResetForm | src/components/StudentDashboard.tsx:155-168 | After a reset all seven text fields are empty, no file is picked, the form is hidden and no edit is in progress. |
| Student.ResetFormIdempotent | src/components/StudentDashboard.tsx:155-168 | Resetting twice is resetting once, and a reset returns the dashboard to its opening state. |
| Student.HandleEdit | src/components/StudentDashboard.tsx:170-183 | Edit copies the submission's seven text fields into the form and clears the picked file. It records the submission's id as being edited and shows the form. |
| Student.HandleSubmit | src/components/StudentDashboard.tsx:74-153 | See the note below the table. |
| Student.ApplyPayload | src/components/StudentDashboard.tsx:119-124 | An update replaces the payload's columns. It keeps the id, status, review note and creation time. |
| Student.ResavingClearsDocument | src/components/StudentDashboard.tsx:81-124 | Editing a submission and saving it unchanged without a new file updates that row. The stored row comes out identical except that its document URL is null. |
| Student.EditKeepsStatus | src/components/StudentDashboard.tsx:105-115 | Saving an edit keeps the status, so a pending submission stays editable. |
| Student.UploadPathKeepsExtension | src/components/StudentDashboard.tsx:86-87 | The upload path ends with the file name's text after its last dot. A name without a dot becomes the whole extension. |
| Student.UploadPathReadsBack | src/components/StudentDashboard.tsx:87 | When neither the user id nor the file name contains a slash, the path splits into the user's folder and `time.ext`, and the text before the dot is the time in decimal. |
| Student.UploadPathsDiffer | src/components/StudentDashboard.tsx:87 | The same user uploading the same file at different times gets different paths. |
| Student.FetchRequest | src/components/StudentDashboard.tsx:54-61 | Loading the list makes a request iff a user is signed in, and the request is for that user's rows. |
| Student.AfterFetch | src/components/StudentDashboard.tsx:54-72 | Without a user, or after an error, the list is unchanged. Otherwise it is the returned rows, or empty when the data is null. |
| Student.FetchFailureHandledDifferently | src/components/StudentDashboard.tsx:63-70 | A failed load keeps the student's list, while the same failure empties the administrator's list. |
| Student.HandleDelete | src/components/StudentDashboard.tsx:185-204 | Delete sends the delete request first. It reloads the list iff the delete succeeded and a user is signed in. |
| Student.ApplyDelete | src/components/StudentDashboard.tsx:186-189 | After a delete no row has that id, and every other row remains. |
| Student.ApplyDeleteKeepsOrder | src/components/StudentDashboard.tsx:186-189 | The remaining rows keep their order. |
| Student.ReviewedSubmissionIsLocked | src/components/StudentDashboard.tsx:383-399 | Once the administrator's update for a submission is applied, the student is no longer offered Edit or Delete on it, and its badge shows the decision. |
| Text.Includes | src/components/ProjectsTable.tsx:99-103 | `includes` holds iff the needle occurs at some offset of the haystack. |
| Text.Trim | src/components/AdminDashboard.tsx:131 | The trimmed text is a slice of the input with only whitespace outside it. It neither starts nor ends with whitespace, and it is empty iff the input is all whitespace. |
| Text.LastPiece | src/components/StudentDashboard.tsx:86 | The piece that `split('.').pop()` returns contains no dot. |
| Sorting.Sort | src/components/ProjectsTable.tsx:110 | Sorting returns a permutation of its input. |
| Sorting.SortSorted | src/components/ProjectsTable.tsx:110-120 | Under a total-preorder comparator, the sorted output is ordered. |
| Sorting.SortStable | src/components/ProjectsTable.tsx:110-120 | The sort is stable: for every element, the elements tying with it come out in their input order. |
| Sorting.SortKeepsOrdered | src/components/ProjectsTable.tsx:110-120 | An already ordered input, including one where everything ties, comes out unchanged. |
| Sorting.FlippedSortIsReverse | src/components/ProjectsTable.tsx:110-117 | When no two elements tie, sorting with the flipped comparator gives the reverse of sorting with the comparator. |

`Student.HandleSubmit` in detail:

- **No user:** no request is made and nothing changes.
- **Upload:** a picked file is uploaded first, to `UploadPath`. A failed upload stops the save, and it is the only request.
- **Write:** when editing (truthy id) the row with that id is updated; otherwise a row is inserted.
- **Payload:** it carries the user's id and the form's seven fields. Its document URL is the public URL of the uploaded path when a file was picked, and null otherwise.
- **Requests:** the optional upload, then the write, then a reload of the user's rows only when the write succeeded. Nothing else is sent.
- **Success:** the form is reset and the list is reloaded.
- **Failure:** the form is left as it was.

## Left out

- Backend transport: every select, insert, update, delete, storage upload and `getPublicUrl` request. The student's requests appear as returned `Call` values and a decision as a returned `ReviewUpdate`. Their answers are parameters (`Reply`, `Backend`, `failed`, `publicUrl`).
- The administrator's list load request itself: it takes no arguments, so only its answer is modelled (`Admin.AfterFetch`). The reload after a decision appears as `Admin.Decided.reload`.
- Server-side ordering of both lists by `created_at`, and the server's filter of the student's rows by `user_id`. The returned rows are taken as given.
- Notifications (toasts), `console.error`, `window.open` on a document, and the `loading` / `uploadingFile` busy flags. They do not affect the modelled state.
- `Date.now()`: the upload time is a parameter.
- Date display (`toLocaleDateString`).
- Browser-enforced `required` attributes on the student form's inputs. They block submission before the handler runs; the handler does not check them.
- The per-input change handlers and the admin note's text area: each replaces one field with the typed text.
- The admin filter controls' setters and the React effects that re-run filtering and loading. `Admin.FilterSubmissions` is the value the effect computes.
- Text.Lower: `toLowerCase` is modelled on ASCII letters only. Other letters are left unchanged.
- Text.Compare: `localeCompare` is modelled as code-point lexicographic order returning -1/0/1. Locale collation rules are not modelled.
- Admin.Json: JSON numbers are integers only. Floating point is not needed by the profile guard.
- Authentication (`AuthModal`, `AdminLogin`), routing pages, generated backend types, and all JSX rendering and styling.
