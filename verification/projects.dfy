/**
 * The public table of student projects: a fixed list of showcase projects,
 * narrowed by the page's search box and a study-programme selector, ordered
 * by a sort state, with rows that expand to show their details. The page
 * never renders its column-sort buttons, so the sort state it shows is always
 * the opening one (`PageRows`); `HandleSort` models the unreachable handler.
 */
module Projects {
  import opened Maybe
  import Submissions
  import Seqs
  import Sorting
  import Text

  // ---------------------------------------------------------------------------
  // Data
  // ---------------------------------------------------------------------------

  datatype ProjectStatus = Approved | Pending | Rejected

  /** One showcase project. Every field is text except the list of member names. */
  datatype Project = Project(
    id: string,
    projectName: string,
    groupName: string,
    members: seq<string>,
    courseName: string,
    lecturer: string,
    className: string,
    prodi: string,
    angkatan: string,
    status: ProjectStatus)

  /** The keys of a project a column can sort by. */
  datatype Field = Id | ProjectName | GroupName | Members | CourseName | Lecturer | ClassName | Prodi | Angkatan | Status

  function StatusText(s: ProjectStatus): string {
    match s
    case Approved => "approved"
    case Pending => "pending"
    case Rejected => "rejected"
  }

  /** The value a column sorts by: the field's text, or nothing for the member list, which is not text. */
  function Key(p: Project, f: Field): (k: Option<string>)
    ensures k.None? <==> f == Members
  {
    match f
    case Id => Some(p.id)
    case ProjectName => Some(p.projectName)
    case GroupName => Some(p.groupName)
    case Members => None
    case CourseName => Some(p.courseName)
    case Lecturer => Some(p.lecturer)
    case ClassName => Some(p.className)
    case Prodi => Some(p.prodi)
    case Angkatan => Some(p.angkatan)
    case Status => Some(StatusText(p.status))
  }

  function KeyOf(f: Field): Project -> Option<string> {
    (p: Project) => Key(p, f)
  }

  /** The projects the table shows (a fixed demonstration list). */
  const MockProjects: seq<Project> := [
    Project("1", "Smart Campus Management System", "Tech Innovators",
      ["Ahmad Fauzi", "Sari Indah", "Budi Santoso"],
      "Rekayasa Perangkat Lunak", "Dr. Ir. Bambang Suharto, M.T.", "TI-3A",
      "Teknik Informatika", "2022", Approved),
    Project("2", "IoT-Based Environmental Monitoring", "Green Tech",
      ["Maya Putri", "Eko Prasetyo", "Rina Sari", "Dani Kurniawan"],
      "Internet of Things", "Prof. Dr. Siti Nurhaliza, M.Kom.", "TI-3B",
      "Teknik Informatika", "2022", Approved),
    Project("3", "E-Commerce Mobile App with AI Recommendation", "Mobile Masters",
      ["Rizki Ananda", "Putri Maharani"],
      "Pemrograman Mobile", "Ir. Andi Wijaya, M.T.", "SI-3A",
      "Sistem Informasi", "2022", Pending),
    Project("4", "Blockchain-Based Certificate Verification", "Crypto Coders",
      ["Fajar Ramadhan", "Lisa Permata", "Andi Saputra"],
      "Keamanan Siber", "Dr. Muhammad Yusuf, M.Kom.", "TK-3A",
      "Teknik Komputer", "2022", Approved),
    Project("5", "AR-Based Learning Platform for Chemistry", "AR Innovators",
      ["Dewi Kartika", "Arif Hidayat", "Nisa Rahma"],
      "Multimedia Interaktif", "Ir. Ratna Sari, M.T.", "MI-3B",
      "Multimedia dan Jaringan", "2022", Approved)
  ]

  // ---------------------------------------------------------------------------
  // Ordering
  // ---------------------------------------------------------------------------

  datatype Direction = Asc | Desc

  /** The column the table is ordered by, and which way. */
  datatype SortState = SortState(field: Field, direction: Direction)

  /** The table opens ordered by project name, ascending. */
  const InitialSort := SortState(ProjectName, Asc)

  /**
   * The table's comparator on two sort keys: text compares by collation,
   * negated when descending; anything else is a tie.
   */
  function KeyCompare(a: Option<string>, b: Option<string>, d: Direction): int {
    if a.Some? && b.Some? then
      var c := Text.Compare(a.value, b.value);
      if d == Asc then c else -c
    else 0
  }

  function Comparator(f: Field, d: Direction): (Project, Project) -> int {
    (a: Project, b: Project) => KeyCompare(Key(a, f), Key(b, f), d)
  }

  /** Every column, either way round, orders projects consistently. */
  lemma ComparatorConsistent(f: Field, d: Direction)
    ensures Sorting.IsTotalPreorder(Comparator(f, d))
  {
    forall x, y, z ensures Sorting.ComparatorLaw(Comparator(f, d), x, y, z) {
      if f != Members {
        var a, b, c := Key(x, f).value, Key(y, f).value, Key(z, f).value;
        Text.CompareAntisymmetric(a, b);
        Text.CompareAntisymmetric(b, c);
        Text.CompareAntisymmetric(a, c);
        if d == Asc {
          if Text.Compare(a, b) <= 0 && Text.Compare(b, c) <= 0 {
            Text.CompareTransitive(a, b, c);
          }
        } else {
          if Text.Compare(b, a) <= 0 && Text.Compare(c, b) <= 0 {
            Text.CompareTransitive(c, b, a);
          }
        }
      }
    }
  }

  /** Descending order is ascending order with the arguments swapped. */
  lemma DescendingIsFlipped(f: Field)
    ensures forall x, y :: Comparator(f, Desc)(x, y) == Comparator(f, Asc)(y, x)
  {
    forall x, y ensures Comparator(f, Desc)(x, y) == Comparator(f, Asc)(y, x) {
      if f != Members {
        Text.CompareAntisymmetric(Key(x, f).value, Key(y, f).value);
      }
    }
  }

  /** A column header click: the same column turns the direction round, another column sorts by it ascending. */
  function HandleSort(st: SortState, f: Field): (next: SortState)
    ensures next.field == f
    ensures f == st.field ==> next.direction != st.direction
    ensures f != st.field ==> next.direction == Asc
  {
    if st.field == f then SortState(f, if st.direction == Asc then Desc else Asc)
    else SortState(f, Asc)
  }

  /** Two clicks on the current column restore the ordering. */
  lemma HandleSortTwice(st: SortState)
    ensures HandleSort(HandleSort(st, st.field), st.field) == st
  {
  }

  // ---------------------------------------------------------------------------
  // Filtering and the visible rows
  // ---------------------------------------------------------------------------

  /**
   * The search box: empty matches everything; otherwise a case-insensitive hit
   * on the project name, group, course, lecturer or any member's name.
   */
  predicate MatchesSearch(p: Project, term: string) {
    var t := Text.Lower(term);
    || term == ""
    || Text.Includes(Text.Lower(p.projectName), t)
    || Text.Includes(Text.Lower(p.groupName), t)
    || Text.Includes(Text.Lower(p.courseName), t)
    || Text.Includes(Text.Lower(p.lecturer), t)
    || exists i :: 0 <= i < |p.members| && Text.Includes(Text.Lower(p.members[i]), t)
  }

  /** The programme selector: `"all"` or exactly the project's programme. */
  predicate MatchesProdi(p: Project, prodi: string) {
    prodi == "all" || p.prodi == prodi
  }

  function Visible(term: string, prodi: string): Project -> bool {
    (p: Project) => MatchesSearch(p, term) && MatchesProdi(p, prodi)
  }

  /**
   * The rows on screen: the projects passing both controls, stably sorted by
   * the current column. They are a rearrangement of the passing projects, and
   * ordered by the column's comparator.
   */
  function FilteredAndSorted(projects: seq<Project>, term: string, prodi: string, st: SortState): (rows: seq<Project>)
    ensures multiset(rows) == multiset(Seqs.Filter(projects, Visible(term, prodi)))
    ensures Sorting.SortedBy(rows, Comparator(st.field, st.direction))
  {
    ComparatorConsistent(st.field, st.direction);
    Sorting.SortSorted(Seqs.Filter(projects, Visible(term, prodi)), Comparator(st.field, st.direction));
    Sorting.Sort(Seqs.Filter(projects, Visible(term, prodi)), Comparator(st.field, st.direction))
  }

  /**
   * The rows the page shows: the demonstration list under the search and the
   * programme selector, in the opening sort state, since nothing on the page
   * changes it. Project names never decrease down the table, and exactly the
   * matching projects are shown.
   */
  function PageRows(term: string, prodi: string): (rows: seq<Project>)
    ensures forall i, j :: 0 <= i < j < |rows| ==> Text.Compare(rows[i].projectName, rows[j].projectName) <= 0
    ensures forall p :: p in rows <==> p in MockProjects && MatchesSearch(p, term) && MatchesProdi(p, prodi)
  {
    ByNameFacts(MockProjects, term, prodi);
    FilteredAndSorted(MockProjects, term, prodi, InitialSort)
  }

  /** Under the opening sort state, names never decrease down the table and exactly the matching projects show. */
  lemma ByNameFacts(projects: seq<Project>, term: string, prodi: string)
    ensures var rows := FilteredAndSorted(projects, term, prodi, InitialSort);
      && (forall i, j :: 0 <= i < j < |rows| ==> Text.Compare(rows[i].projectName, rows[j].projectName) <= 0)
      && (forall p :: p in rows <==> p in projects && MatchesSearch(p, term) && MatchesProdi(p, prodi))
  {
    var rows := FilteredAndSorted(projects, term, prodi, InitialSort);
    forall i, j | 0 <= i < j < |rows| ensures Text.Compare(rows[i].projectName, rows[j].projectName) <= 0 {
      ColumnValuesOrdered(projects, term, prodi, InitialSort, i, j);
    }
    forall p ensures p in rows <==> p in projects && MatchesSearch(p, term) && MatchesProdi(p, prodi) {
      FilteredAndSortedShowsExactly(projects, term, prodi, InitialSort, p);
    }
  }

  /**
   * Down the table the column's text never decreases when ascending and never
   * increases when descending.
   */
  lemma ColumnValuesOrdered(projects: seq<Project>, term: string, prodi: string, st: SortState, i: int, j: int)
    requires st.field != Members
    requires 0 <= i < j < |FilteredAndSorted(projects, term, prodi, st)|
    ensures var rows := FilteredAndSorted(projects, term, prodi, st);
      var a, b := Key(rows[i], st.field).value, Key(rows[j], st.field).value;
      && (st.direction == Asc ==> Text.Compare(a, b) <= 0)
      && (st.direction == Desc ==> Text.Compare(b, a) <= 0)
  {
    var rows := FilteredAndSorted(projects, term, prodi, st);
    var a, b := Key(rows[i], st.field).value, Key(rows[j], st.field).value;
    assert Comparator(st.field, st.direction)(rows[i], rows[j]) <= 0;
    Text.CompareAntisymmetric(a, b);
  }

  /** A project is on screen exactly when it is in the list and passes the search and the programme selector. */
  lemma FilteredAndSortedShowsExactly(projects: seq<Project>, term: string, prodi: string, st: SortState, p: Project)
    ensures p in FilteredAndSorted(projects, term, prodi, st) <==> p in projects && MatchesSearch(p, term) && MatchesProdi(p, prodi)
  {
    var passing := Seqs.Filter(projects, Visible(term, prodi));
    assert p in FilteredAndSorted(projects, term, prodi, st) <==> p in multiset(passing);
    if p in passing {
      var i :| 0 <= i < |passing| && passing[i] == p;
      assert Visible(term, prodi)(passing[i]);
    }
    if p in projects && MatchesSearch(p, term) && MatchesProdi(p, prodi) {
      var i :| 0 <= i < |projects| && projects[i] == p;
      assert Visible(term, prodi)(projects[i]);
    }
  }

  /** Ordering by the member list changes nothing: the rows stay in list order. */
  lemma MembersColumnKeepsListOrder(projects: seq<Project>, term: string, prodi: string, d: Direction)
    ensures FilteredAndSorted(projects, term, prodi, SortState(Members, d)) == Seqs.Filter(projects, Visible(term, prodi))
  {
    var passing := Seqs.Filter(projects, Visible(term, prodi));
    assert Sorting.SortedBy(passing, Comparator(Members, d)) by {
      forall i, j | 0 <= i < j < |passing| ensures Comparator(Members, d)(passing[i], passing[j]) <= 0 {
        assert Key(passing[i], Members) == None;
      }
    }
    ComparatorConsistent(Members, d);
    Sorting.SortKeepsOrdered(Seqs.Filter(projects, Visible(term, prodi)), Comparator(Members, d));
  }

  /**
   * Rows that tie on the column keep the order they have in the list: among
   * the rows tying with any project `x`, the table shows the list's order.
   */
  lemma TiedRowsKeepListOrder(projects: seq<Project>, term: string, prodi: string, st: SortState, x: Project)
    ensures var cmp := Comparator(st.field, st.direction);
      Seqs.Filter(FilteredAndSorted(projects, term, prodi, st), Sorting.TiesWith(cmp, x))
      == Seqs.Filter(Seqs.Filter(projects, Visible(term, prodi)), Sorting.TiesWith(cmp, x))
  {
    ComparatorConsistent(st.field, st.direction);
    Sorting.SortStable(Seqs.Filter(projects, Visible(term, prodi)), Comparator(st.field, st.direction), x);
  }

  /**
   * When no two visible projects share the column's value, the descending
   * table is the ascending one read backwards.
   */
  lemma DescendingReversesAscending(projects: seq<Project>, term: string, prodi: string, f: Field)
    requires f != Members
    requires Seqs.KeysDistinct(Seqs.Filter(projects, Visible(term, prodi)), KeyOf(f))
    ensures FilteredAndSorted(projects, term, prodi, SortState(f, Desc))
         == Seqs.Reverse(FilteredAndSorted(projects, term, prodi, SortState(f, Asc)))
  {
    var passing := Seqs.Filter(projects, Visible(term, prodi));
    forall i, j | 0 <= i < |passing| && 0 <= j < |passing| && i != j
      ensures Comparator(f, Asc)(passing[i], passing[j]) != 0
    {
      if i < j {
        assert KeyOf(f)(passing[i]) != KeyOf(f)(passing[j]);
      } else {
        assert KeyOf(f)(passing[j]) != KeyOf(f)(passing[i]);
      }
    }
    ComparatorConsistent(f, Asc);
    DescendingIsFlipped(f);
    Sorting.FlippedSortIsReverse(passing, Comparator(f, Asc), Comparator(f, Desc));
  }

  /** Clicking the current column again shows the same rows in reverse, when the visible rows' values in it are distinct. */
  lemma ClickingSameColumnReverses(projects: seq<Project>, term: string, prodi: string, st: SortState)
    requires st.field != Members
    requires Seqs.KeysDistinct(Seqs.Filter(projects, Visible(term, prodi)), KeyOf(st.field))
    ensures FilteredAndSorted(projects, term, prodi, HandleSort(st, st.field))
         == Seqs.Reverse(FilteredAndSorted(projects, term, prodi, st))
  {
    var asc := FilteredAndSorted(projects, term, prodi, SortState(st.field, Asc));
    DescendingReversesAscending(projects, term, prodi, st.field);
    if st.direction == Desc {
      assert Seqs.Reverse(Seqs.Reverse(asc)) == asc;
    }
  }

  /** The search ignores the case of the term. */
  lemma SearchIgnoresCase(p: Project, term: string)
    ensures MatchesSearch(p, term) <==> MatchesSearch(p, Text.Lower(term))
  {
    Text.LowerIdempotent(term);
    if term != "" {
      assert Text.Lower(term) != "";
    }
  }

  // ---------------------------------------------------------------------------
  // Row expansion, badges and the count line
  // ---------------------------------------------------------------------------

  /** Clicking a row's toggle: that row flips between expanded and collapsed, every other row stays as it was. */
  function ToggleRow(expanded: set<string>, id: string): (next: set<string>)
    ensures id in next <==> id !in expanded
    ensures forall x :: x != id ==> (x in next <==> x in expanded)
  {
    if id in expanded then expanded - {id} else expanded + {id}
  }

  /** Toggling a row twice restores the expansion state. */
  lemma ToggleRowTwice(expanded: set<string>, id: string)
    ensures ToggleRow(ToggleRow(expanded, id), id) == expanded
  {
  }

  /** Each status has its own badge colour, and its caption names it. */
  function StatusBadge(s: ProjectStatus): (b: Submissions.Badge)
    ensures b.tone == Submissions.Green <==> s == Approved
    ensures b.tone == Submissions.Yellow <==> s == Pending
    ensures b.tone == Submissions.Red <==> s == Rejected
    ensures Text.Lower(b.caption) == StatusText(s)
  {
    match s
    case Approved => Submissions.Badge("Approved", Submissions.Green)
    case Pending => Submissions.Badge("Pending", Submissions.Yellow)
    case Rejected => Submissions.Badge("Rejected", Submissions.Red)
  }

  /** The line above the table: the number of rows and "project", plural unless there is exactly one. */
  function CountLabel(n: nat): (line: string)
    ensures |line| > 0 && (line[|line| - 1] == 's' <==> n != 1)
  {
    "Showing " + Text.Decimal(n) + " project" + (if n != 1 then "s" else "")
  }

  /** The count line reads back as three words, the middle one the count itself. */
  lemma CountLabelReadsBack(n: nat)
    ensures Text.Split(CountLabel(n), ' ') == ["Showing", Text.Decimal(n), if n != 1 then "projects" else "project"]
    ensures Text.ParseDecimal(Text.Split(CountLabel(n), ' ')[1]) == n
  {
    var noun := if n != 1 then "projects" else "project";
    var digits := Text.Decimal(n);
    assert CountLabel(n) == "Showing" + [' '] + digits + [' '] + noun;
    assert ' ' !in digits;
    Text.SplitThreeWords("Showing", digits, noun, ' ');
    Text.DecimalRoundTrip(n);
  }
}
