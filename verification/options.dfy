/** The choices the sidebar offers and its initial selections, all read off
    the base table. */
module Options {
  import opened Optional
  import opened Sequences
  import opened Text
  import opened Calendar
  import opened Tasks
  import opened Filters

  /** The year texts of the rows that have one (`dropna()`), in table order. */
  function PresentYears(rows: seq<Row>): (ys: seq<string>)
    ensures forall y :: y in ys <==> exists i :: 0 <= i < |rows| && rows[i].year == Some(y)
    decreases |rows|
  {
    if |rows| == 0 then []
    else
      var rest := PresentYears(rows[1..]);
      assert forall y :: (exists i :: 0 <= i < |rows[1..]| && rows[1..][i].year == Some(y))
                     <==> (exists i :: 1 <= i < |rows| && rows[i].year == Some(y)) by {
        forall y | exists i :: 1 <= i < |rows| && rows[i].year == Some(y)
          ensures exists i :: 0 <= i < |rows[1..]| && rows[1..][i].year == Some(y)
        {
          var i :| 1 <= i < |rows| && rows[i].year == Some(y);
          assert rows[1..][i - 1] == rows[i];
        }
      }
      match rows[0].year
      case Some(y) => [y] + rest
      case None => rest
  }

  /** The year select box: "Semua" first, then every year present in the
      table once, in increasing order. */
  function YearOptions(rows: seq<Row>): (opts: seq<string>)
    ensures |opts| >= 1 && opts[0] == All
    ensures StrictlyIncreasing(opts[1..])
    ensures forall y :: y in opts[1..] <==> exists i :: 0 <= i < |rows| && rows[i].year == Some(y)
  {
    var opts := [All] + SortedUnique(PresentYears(rows));
    assert opts[1..] == SortedUnique(PresentYears(rows));
    opts
  }

  /** No year is offered twice. */
  lemma YearOptionsDistinct(rows: seq<Row>)
    ensures NoDuplicates(YearOptions(rows)[1..])
  {
    StrictlyIncreasingHasNoDuplicates(YearOptions(rows)[1..]);
  }

  /** Both texts read as years, the first one earlier. */
  predicate EarlierYear(a: string, b: string) {
    ParseYear(a).Some? && ParseYear(b).Some? && ParseYear(a).value < ParseYear(b).value
  }

  /** On a table whose year column was derived from its deadlines, the year
      options after "Semua" run in chronological order. */
  lemma YearOptionsChronological(rows: seq<Row>)
    requires forall i :: 0 <= i < |rows| ==> Consistent(rows[i])
    ensures forall i, j :: 1 <= i < j < |YearOptions(rows)| ==> EarlierYear(YearOptions(rows)[i], YearOptions(rows)[j])
  {
    var opts := YearOptions(rows);
    forall i, j | 1 <= i < j < |opts|
      ensures EarlierYear(opts[i], opts[j])
    {
      var a := YearOfOption(rows, opts[i], i);
      var b := YearOfOption(rows, opts[j], j);
      assert opts[1..][i - 1] == opts[i] && opts[1..][j - 1] == opts[j];
      assert StrLess(opts[i], opts[j]);
      YearStringRoundTrip(a);
      YearStringRoundTrip(b);
      YearStringOrder(a, b);
    }
  }

  /** A year option past "Semua" is the year text of some deadline. */
  lemma YearOfOption(rows: seq<Row>, y: string, k: int) returns (year: int)
    requires forall i :: 0 <= i < |rows| ==> Consistent(rows[i])
    requires 1 <= k < |YearOptions(rows)| && YearOptions(rows)[k] == y
    ensures MinYear <= year <= MaxYear && y == YearString(year)
  {
    assert YearOptions(rows)[1..][k - 1] == y;
    var i :| 0 <= i < |rows| && rows[i].year == Some(y);
    assert Consistent(rows[i]);
    year := rows[i].task.deadline.value.year;
  }

  /** The month select box: "Semua" and the twelve English month names. */
  const MonthOptions: seq<string> := [All] + MonthNames

  /** Every derived month name can be picked in the month select box. */
  lemma DerivedMonthOffered(r: Row)
    requires Consistent(r) && r.month.Some?
    ensures r.month.value in MonthOptions && r.month.value != All
  {
    var m := r.task.deadline.value.month;
    assert MonthOptions[m] == MonthName(m);
  }

  function Priorities(rows: seq<Row>): (ps: seq<string>)
    ensures |ps| == |rows| && forall i :: 0 <= i < |rows| ==> ps[i] == rows[i].task.priority
  {
    seq(|rows|, i requires 0 <= i < |rows| => rows[i].task.priority)
  }

  function Statuses(rows: seq<Row>): (ss: seq<string>)
    ensures |ss| == |rows| && forall i :: 0 <= i < |rows| ==> ss[i] == rows[i].task.status
  {
    seq(|rows|, i requires 0 <= i < |rows| => rows[i].task.status)
  }

  /** The priority and status multiselects start with every distinct value of
      their column (`unique()`); both select boxes start on their first
      option, "Semua". */
  function DefaultState(rows: seq<Row>): (st: FilterState)
    ensures st.search == "" && st.year == All && st.month == All
    ensures NoDuplicates(st.priorities) && NoDuplicates(st.statuses)
    ensures forall p :: p in st.priorities <==> exists i :: 0 <= i < |rows| && rows[i].task.priority == p
    ensures forall s :: s in st.statuses <==> exists i :: 0 <= i < |rows| && rows[i].task.status == s
  {
    var ps := Priorities(rows);
    var ss := Statuses(rows);
    assert forall p :: p in ps <==> exists i :: 0 <= i < |rows| && rows[i].task.priority == p by {
      forall p | exists i :: 0 <= i < |rows| && rows[i].task.priority == p ensures p in ps {
        var i :| 0 <= i < |rows| && rows[i].task.priority == p;
        assert ps[i] == p;
      }
    }
    assert forall s :: s in ss <==> exists i :: 0 <= i < |rows| && rows[i].task.status == s by {
      forall s | exists i :: 0 <= i < |rows| && rows[i].task.status == s ensures s in ss {
        var i :| 0 <= i < |rows| && rows[i].task.status == s;
        assert ss[i] == s;
      }
    }
    FilterState("", All, All, Distinct(ps), Distinct(ss))
  }

  /** Before the user touches the sidebar, the table shows every row. */
  lemma DefaultStateShowsEverything(rows: seq<Row>)
    ensures ApplyFilters(rows, DefaultState(rows)) == rows
  {
    var st := DefaultState(rows);
    assert Neutral(st, rows);
    NeutralShowsEverything(rows, st);
  }
}
