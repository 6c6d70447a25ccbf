/** The per-row update link and the detail panel shown when a table row is
    clicked. */
module Detail {
  import opened Optional
  import opened Sequences
  import opened Tasks
  import opened Filters

  /** The pre-filled update form; the task id is appended as-is, without
      URL encoding. */
  const FormUpdateBase := "https://docs.google.com/forms/d/e/1FAIpQLScghNhEmaN70rFxExNB0rkZWFrY9oLwMN3Y_6TTqa-ere7Zvw/viewform?usp=pp_url&entry.1360407807="

  /** Shown in place of a missing description. */
  const NoDescription := "Tidak ada deskripsi."

  /** The update link of one row (the `Action` column). */
  function UpdateLink(r: Row): string {
    FormUpdateBase + r.task.id
  }

  /** Recovers the task id from an update link; `None` for any other URL. */
  function LinkId(link: string): (id: Option<string>)
    ensures id.Some? ==> link == FormUpdateBase + id.value
  {
    if |FormUpdateBase| <= |link| && link[..|FormUpdateBase|] == FormUpdateBase then
      assert link == link[..|FormUpdateBase|] + link[|FormUpdateBase|..];
      Some(link[|FormUpdateBase|..])
    else None
  }

  /** The update link names exactly its row's task: reading the id back
      gives that id, so rows with different ids get different links. */
  lemma UpdateLinkRoundTrip(r: Row)
    ensures LinkId(UpdateLink(r)) == Some(r.task.id)
  {
    var link := UpdateLink(r);
    assert link[..|FormUpdateBase|] == FormUpdateBase;
    assert link[|FormUpdateBase|..] == r.task.id;
  }

  /** The `Action` column for the filtered view, row by row. */
  function Links(view: seq<Row>): (links: seq<string>)
    ensures |links| == |view|
    ensures forall i :: 0 <= i < |view| ==> LinkId(links[i]) == Some(view[i].task.id)
  {
    var links := seq(|view|, i requires 0 <= i < |view| => UpdateLink(view[i]));
    assert forall i :: 0 <= i < |view| ==> LinkId(links[i]) == Some(view[i].task.id) by {
      forall i | 0 <= i < |view| ensures LinkId(links[i]) == Some(view[i].task.id) {
        UpdateLinkRoundTrip(view[i]);
      }
    }
    links
  }

  /** A selection index that does not address a row of the current view,
      e.g. one left over after a filter changed. */
  datatype SelectionError = OutOfRange(index: nat, size: nat)

  /** The clicked row: `iloc` on the filtered view, by position. */
  function Resolve(view: seq<Row>, index: nat): (r: Result<Row, SelectionError>)
    ensures r.Ok? <==> index < |view|
    ensures r.Ok? ==> r.value == view[index]
    ensures r.Err? ==> r.error == OutOfRange(index, |view|)
  {
    if index < |view| then Ok(view[index]) else Err(OutOfRange(index, |view|))
  }

  /** What the detail panel shows for one task. */
  datatype Panel = Panel(
    title: string,
    id: string,
    category: string,
    priority: string,
    description: string,
    notes: Option<string>)

  /** The detail panel of a row: its description or the fallback text, and
      its notes only when there are any. */
  function Describe(r: Row): (p: Panel)
    ensures p.title == r.task.name && p.id == r.task.id
    ensures p.category == r.task.category && p.priority == r.task.priority
    ensures r.task.description.Some? ==> p.description == r.task.description.value
    ensures r.task.description.None? ==> p.description == NoDescription
    ensures p.notes.Some? <==> r.task.notes.Some?
    ensures p.notes.Some? ==> p.notes == r.task.notes
  {
    Panel(r.task.name, r.task.id, r.task.category, r.task.priority,
          r.task.description.GetOr(NoDescription), r.task.notes)
  }

  /** The fallback text is shown exactly when the description is missing or
      is itself that text. */
  lemma FallbackShownIff(r: Row)
    ensures Describe(r).description == NoDescription <==>
      (r.task.description.None? || r.task.description == Some(NoDescription))
  {
  }

  /** Selecting row `i` of the filtered view shows a row of the base table,
      one that passes the filters, with its own description and notes. */
  lemma SelectionShowsBaseRecord(rows: seq<Row>, st: FilterState, i: nat)
    ensures Resolve(ApplyFilters(rows, st), i).Ok? <==> i < |ApplyFilters(rows, st)|
    ensures Resolve(ApplyFilters(rows, st), i).Ok? ==>
      var r := Resolve(ApplyFilters(rows, st), i).value;
      && r in rows
      && Matches(st, r)
      && Describe(r).notes == r.task.notes
  {
    var view := ApplyFilters(rows, st);
    SubsequenceMembers(view, rows);
    if i < |view| {
      assert view[i] in view;
    }
  }

  /** A selection past the end of the filtered view is reported, not
      resolved. */
  lemma StaleSelectionRejected(view: seq<Row>, i: nat)
    requires i >= |view|
    ensures Resolve(view, i) == Err(OutOfRange(i, |view|))
  {
  }
}
