/** The task table: one record per sheet row, and the month/year columns
    derived from its deadline when the table is loaded. */
module Tasks {
  import opened Optional
  import opened Calendar

  /** One row of the task sheet. `deadline` is `None` when the cell was
      empty or not a date (`errors='coerce'` turns it into NaT). */
  datatype Task = Task(
    id: string,
    name: string,
    category: string,
    priority: string,
    status: string,
    deadline: Option<Date>,
    description: Option<string>,
    notes: Option<string>)

  /** A task with its derived columns: the month name (`Bulan`) and the
      year text (`Tahun`). */
  datatype Row = Row(task: Task, month: Option<string>, year: Option<string>)

  /** The derived columns agree with the deadline. */
  predicate Consistent(r: Row) {
    match r.task.deadline
    case None => r.month.None? && r.year.None?
    case Some(d) => r.month == Some(MonthName(d.month)) && r.year == Some(YearString(d.year))
  }

  /** Attaches the derived columns to one task. */
  function Derive(t: Task): (r: Row)
    ensures r.task == t
    ensures Consistent(r)
  {
    match t.deadline
    case None => Row(t, None, None)
    case Some(d) => Row(t, Some(MonthName(d.month)), Some(YearString(d.year)))
  }

  /** The base table: every task with its derived columns, same order and
      number of rows. */
  function Load(tasks: seq<Task>): (rows: seq<Row>)
    ensures |rows| == |tasks|
    ensures forall i :: 0 <= i < |tasks| ==> rows[i].task == tasks[i] && Consistent(rows[i])
  {
    seq(|tasks|, i requires 0 <= i < |tasks| => Derive(tasks[i]))
  }

  /** A consistent row has a month and a year exactly when it has a deadline,
      and they read back as the deadline's month and year. */
  lemma ConsistentRecoversDeadline(r: Row)
    requires Consistent(r)
    ensures r.month.Some? <==> r.task.deadline.Some?
    ensures r.year.Some? <==> r.task.deadline.Some?
    ensures r.task.deadline.Some? ==>
      && MonthNumber(r.month.value) == Some(r.task.deadline.value.month)
      && ParseYear(r.year.value) == Some(r.task.deadline.value.year)
  {
    if r.task.deadline.Some? {
      MonthNameRoundTrip(r.task.deadline.value.month);
      YearStringRoundTrip(r.task.deadline.value.year);
    }
  }
}
