/** One rendering pass of the dashboard: call-outs on the base table, then
    the sidebar filters, the table with its update links, and the detail
    panel of the selected row. */
module Dashboard {
  import opened Optional
  import opened Sequences
  import opened Text
  import opened Calendar
  import opened Tasks
  import opened Triage
  import opened Filters
  import opened Options
  import opened Detail

  datatype Page = Page(
    overdue: seq<Row>,
    upcoming: seq<Row>,
    yearOptions: seq<string>,
    monthOptions: seq<string>,
    view: seq<Row>,
    links: seq<string>,
    detail: Option<Result<Panel, SelectionError>>)

  /** Builds the page for the sheet `tasks` at time `now`, with the sidebar
      holding `st` and `selection` the clicked table row, if any. */
  function BuildPage(tasks: seq<Task>, now: Timestamp, st: FilterState, selection: Option<nat>): (p: Page)
    ensures IsSubsequence(p.view, Load(tasks))
    ensures forall i :: 0 <= i < |p.view| ==> Matches(st, p.view[i])
    ensures forall x :: multiset(p.view)[x] == if Matches(st, x) then multiset(Load(tasks))[x] else 0
    ensures p.overdue == CallOut(Load(tasks), now, Overdue) && p.upcoming == CallOut(Load(tasks), now, Upcoming)
    ensures p.yearOptions == YearOptions(Load(tasks)) && p.monthOptions == MonthOptions
    ensures |p.links| == |p.view|
    ensures forall i :: 0 <= i < |p.view| ==> LinkId(p.links[i]) == Some(p.view[i].task.id)
    ensures |p.overdue| <= ViewSize && |p.upcoming| <= ViewSize
    ensures forall x :: x in p.overdue ==> x !in p.upcoming
    ensures selection.None? <==> p.detail.None?
    ensures selection.Some? && selection.value < |p.view| ==> p.detail == Some(Ok(Describe(p.view[selection.value])))
    ensures selection.Some? && selection.value >= |p.view| ==>
      p.detail == Some(Err(OutOfRange(selection.value, |p.view|)))
  {
    var base := Load(tasks);
    var view := ApplyFilters(base, st);
    var over := CallOut(base, now, Overdue);
    var up := CallOut(base, now, Upcoming);
    CallOutsDisjoint(base, now);
    Page(over, up, YearOptions(base), MonthOptions, view, Links(view), PanelOf(view, selection))
  }

  /** The detail panel for the clicked row, if any; a stale index is an
      error instead of a panel. */
  function PanelOf(view: seq<Row>, selection: Option<nat>): (d: Option<Result<Panel, SelectionError>>)
    ensures selection.None? <==> d.None?
    ensures selection.Some? && selection.value < |view| ==> d == Some(Ok(Describe(view[selection.value])))
    ensures selection.Some? && selection.value >= |view| ==> d == Some(Err(OutOfRange(selection.value, |view|)))
  {
    match selection
    case None => None
    case Some(i) =>
      match Resolve(view, i)
      case Ok(r) => Some(Ok(Describe(r)))
      case Err(e) => Some(Err(e))
  }

  /** The call-outs are computed before the sidebar filters, so no filter
      or selection changes them. */
  lemma CallOutsIgnoreFilters(tasks: seq<Task>, now: Timestamp,
                              st1: FilterState, sel1: Option<nat>, st2: FilterState, sel2: Option<nat>)
    ensures BuildPage(tasks, now, st1, sel1).overdue == BuildPage(tasks, now, st2, sel2).overdue
    ensures BuildPage(tasks, now, st1, sel1).upcoming == BuildPage(tasks, now, st2, sel2).upcoming
  {
  }

  function SampleTask(id: string, deadline: Date, status: string): Task {
    Task(id, "Laporan bulanan", "Umum", "Tinggi", status, Some(deadline), None, None)
  }

  /** A finished task from 2024 and an open one due in 2030, seen on
      1 January 2025: nothing is overdue and the 2030 task is upcoming. */
  lemma ExampleCallOuts()
    ensures var rows := Load([SampleTask("T1", CivilDate(2024, 1, 1), Done), SampleTask("T2", CivilDate(2030, 1, 1), "Open")]);
      var now := Clock(CivilDate(2025, 1, 1), 0);
      && CallOut(rows, now, Overdue) == []
      && CallOut(rows, now, Upcoming) == [rows[1]]
  {
    var rows := Load([SampleTask("T1", CivilDate(2024, 1, 1), Done), SampleTask("T2", CivilDate(2030, 1, 1), "Open")]);
    var now: Timestamp := Clock(CivilDate(2025, 1, 1), 0);
    assert !InWindow(rows[0], now, Overdue) && !InWindow(rows[0], now, Upcoming);
    assert !InWindow(rows[1], now, Overdue) && InWindow(rows[1], now, Upcoming);
    assert rows == [rows[0]] + [rows[1]];
    assert |Candidates(rows, now, Overdue)| == 0;
    assert multiset(Candidates(rows, now, Upcoming)) == multiset{rows[1]};
  }

  /** The search text "t1" finds the task whose id is "T1", ignoring case. */
  lemma ExampleSearchIgnoresCase()
    ensures SearchHit("t1", Derive(SampleTask("T1", CivilDate(2024, 1, 1), Done)))
  {
    var r := Derive(SampleTask("T1", CivilDate(2024, 1, 1), Done));
    assert Lower("T1") == "t1";
    assert Lower("t1") == "t1";
    assert Contains("t1", "t1") by { assert "t1"[..2] == "t1"; }
  }
}
