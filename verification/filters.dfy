/** The sidebar filter chain. Each clause is a stable row filter applied to
    the output of the previous one: search, year, month, priority, status. */
module Filters {
  import opened Optional
  import opened Sequences
  import opened Text
  import opened Tasks

  /** The "all" choice of the year and month select boxes. */
  const All := "Semua"

  /** What the sidebar widgets hold in one rendering pass. */
  datatype FilterState = FilterState(
    search: string,
    year: string,
    month: string,
    priorities: seq<string>,
    statuses: seq<string>)

  /** The search text occurs in the task name or the task id, ignoring
      (ASCII) case. The text is matched literally. */
  predicate SearchHit(q: string, r: Row) {
    Contains(Lower(r.task.name), Lower(q)) || Contains(Lower(r.task.id), Lower(q))
  }

  predicate SearchClause(q: string, r: Row) {
    q == "" || SearchHit(q, r)
  }

  /** A specific year matches only rows whose year text equals it; a row
      without a year never does. */
  predicate YearClause(y: string, r: Row) {
    y == All || r.year == Some(y)
  }

  predicate MonthClause(m: string, r: Row) {
    m == All || r.month == Some(m)
  }

  predicate PriorityClause(ps: seq<string>, r: Row) {
    r.task.priority in ps
  }

  predicate StatusClause(ss: seq<string>, r: Row) {
    r.task.status in ss
  }

  /** A row survives the filters exactly when it satisfies every clause. */
  predicate Matches(st: FilterState, r: Row) {
    && SearchClause(st.search, r)
    && YearClause(st.year, r)
    && MonthClause(st.month, r)
    && PriorityClause(st.priorities, r)
    && StatusClause(st.statuses, r)
  }

  function SearchTest(q: string): Row -> bool { r => SearchClause(q, r) }
  function YearTest(y: string): Row -> bool { r => YearClause(y, r) }
  function MonthTest(m: string): Row -> bool { r => MonthClause(m, r) }
  function PriorityTest(ps: seq<string>): Row -> bool { r => PriorityClause(ps, r) }
  function StatusTest(ss: seq<string>): Row -> bool { r => StatusClause(ss, r) }
  function MatchTest(st: FilterState): Row -> bool { r => Matches(st, r) }

  /** Search stage: skipped when the search box is empty. */
  function BySearch(rows: seq<Row>, q: string): (r: seq<Row>)
    ensures r == Select(rows, SearchTest(q))
  {
    if q == "" then
      SelectKeepsAll(rows, SearchTest(q));
      rows
    else Select(rows, SearchTest(q))
  }

  /** Year stage: skipped when "Semua" is chosen. */
  function ByYear(rows: seq<Row>, y: string): (r: seq<Row>)
    ensures r == Select(rows, YearTest(y))
  {
    if y == All then
      SelectKeepsAll(rows, YearTest(y));
      rows
    else Select(rows, YearTest(y))
  }

  /** Month stage: skipped when "Semua" is chosen. */
  function ByMonth(rows: seq<Row>, m: string): (r: seq<Row>)
    ensures r == Select(rows, MonthTest(m))
  {
    if m == All then
      SelectKeepsAll(rows, MonthTest(m));
      rows
    else Select(rows, MonthTest(m))
  }

  /** The whole chain, stage after stage, as the dashboard applies it. */
  function ApplyFilters(rows: seq<Row>, st: FilterState): (view: seq<Row>)
    ensures IsSubsequence(view, rows)
    ensures forall x :: multiset(view)[x] == if Matches(st, x) then multiset(rows)[x] else 0
    ensures forall i :: 0 <= i < |view| ==> Matches(st, view[i])
  {
    var a := BySearch(rows, st.search);
    var b := ByYear(a, st.year);
    var c := ByMonth(b, st.month);
    var d := Select(c, PriorityTest(st.priorities));
    var e := Select(d, StatusTest(st.statuses));
    ChainIsOneSelect(rows, st);
    SelectByMatches(rows, st);
    e
  }

  /** What selecting by `Matches` promises, stated on `Matches` itself. */
  lemma SelectByMatches(rows: seq<Row>, st: FilterState)
    ensures IsSubsequence(Select(rows, MatchTest(st)), rows)
    ensures forall x :: multiset(Select(rows, MatchTest(st)))[x] == if Matches(st, x) then multiset(rows)[x] else 0
    ensures forall i :: 0 <= i < |Select(rows, MatchTest(st))| ==> Matches(st, Select(rows, MatchTest(st))[i])
  {
    var v := Select(rows, MatchTest(st));
    forall x ensures multiset(v)[x] == if Matches(st, x) then multiset(rows)[x] else 0 {
      assert MatchTest(st)(x) == Matches(st, x);
    }
    forall i | 0 <= i < |v| ensures Matches(st, v[i]) {
      assert MatchTest(st)(v[i]);
    }
  }

  /** Filtering stage by stage keeps exactly the rows that pass every clause,
      in their original order. */
  lemma ChainIsOneSelect(rows: seq<Row>, st: FilterState)
    ensures Select(Select(Select(Select(Select(rows, SearchTest(st.search)), YearTest(st.year)),
                                 MonthTest(st.month)), PriorityTest(st.priorities)), StatusTest(st.statuses))
            == Select(rows, MatchTest(st))
  {
    var t1, t2, t3, t4, t5 := SearchTest(st.search), YearTest(st.year), MonthTest(st.month),
                              PriorityTest(st.priorities), StatusTest(st.statuses);
    var t12: Row -> bool := r => t1(r) && t2(r);
    var t123: Row -> bool := r => t12(r) && t3(r);
    var t1234: Row -> bool := r => t123(r) && t4(r);
    SelectThenSelect(rows, t1, t2, t12);
    SelectThenSelect(rows, t12, t3, t123);
    SelectThenSelect(rows, t123, t4, t1234);
    SelectThenSelect(rows, t1234, t5, MatchTest(st));
  }

  /** Filters that nobody has narrowed: empty search, "Semua" for year and
      month, and priority and status selections holding every row's value. */
  predicate Neutral(st: FilterState, rows: seq<Row>) {
    && st.search == ""
    && st.year == All
    && st.month == All
    && forall i :: 0 <= i < |rows| ==> rows[i].task.priority in st.priorities && rows[i].task.status in st.statuses
  }

  /** Neutral filters show the whole table, in order. */
  lemma NeutralShowsEverything(rows: seq<Row>, st: FilterState)
    requires Neutral(st, rows)
    ensures ApplyFilters(rows, st) == rows
  {
    ChainIsOneSelect(rows, st);
    SelectKeepsAll(rows, MatchTest(st));
  }

  /** Choosing a specific year hides every row that has no year. */
  lemma MissingYearNeverMatches(rows: seq<Row>, st: FilterState)
    requires st.year != All
    ensures forall i :: 0 <= i < |ApplyFilters(rows, st)| ==> ApplyFilters(rows, st)[i].year == Some(st.year)
  {
  }
}
