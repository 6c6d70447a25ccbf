# AMF task dashboard: the table logic, in Dafny

The dashboard reads a published Google Sheet of tasks and shows it as a
filterable table. This project models the logic that runs on that table in
one rendering pass, and proves what it promises:

- **Derived columns.** When the sheet is loaded, each task with a deadline
  gets a month name (`Bulan`, English, from the fixed January–December list)
  and a four-digit year text (`Tahun`). A task without a deadline gets
  neither.
- **Call-outs.** The three most overdue open tasks (`deadline < now`,
  status not `Selesai`) and the three nearest upcoming ones
  (`deadline >= now`), each sorted by deadline. They are computed on the
  whole table, before any sidebar filter. `now` is a timestamp with a time
  of day and a deadline is a midnight, so a task due today is overdue
  unless it is exactly midnight.
- **Sidebar filters.** A chain of stable row filters: search over name or
  id (ignoring case), then year, month, priority set and status set.
- **Sidebar options.** The year list is `Semua` followed by the sorted
  distinct years. The month list is fixed. Priorities and statuses start
  with every value present, so the initial view is the whole table.
- **Table and detail.** Each row has an update link: the form's base URL
  followed by the task id. A clicked row is looked up by position in the
  filtered view. Its description falls back to `Tidak ada deskripsi.`, and
  its notes are shown only when present.

Modules, in dependency order: `Optional` (missing cells, results),
`Sequences` (subsequence, stable `Select`), `Text` (lower-casing, substring
search, Python string order, sorted and distinct value lists), `Calendar`
(dates, `now`, month names, year texts), `Tasks` (the record and its derived
columns), `Triage` (the call-outs), `Filters` (the filter chain), `Options`
(the sidebar choices and defaults), `Detail` (update link, selection, detail
panel) and `Dashboard` (one full pass).

Inputs that the program gets from outside are parameters here. The sheet
arrives as an already-parsed `seq<Task>`. `now` is a `Timestamp` argument.
The sidebar state is a `FilterState`. The clicked row is an `Option<nat>`.

The fallback description is `Tidak ada deskripsi.`. The update link is
plain concatenation of the base URL and the id; no URL encoding is done.

## Model

| member | source | states |
|---|---|---|
| Tasks.Derive | app_todolist.py:18-20 | the row keeps its task; month and year are present exactly when the deadline is, and then they are the deadline's English month name and four-digit year |
| Tasks.Load | app_todolist.py:15-21 | the base table has one row per task, in the same order, each carrying its task and derived columns consistent with its deadline |
| Tasks.ConsistentRecoversDeadline | app_todolist.py:18-20 | on a consistent row the month name and year text read back as the deadline's month number and year |
| Calendar.MonthNumber | app_todolist.py:66-67 | a name found is the name of a month 1..12; a name not found is not in the English month list |
| Calendar.MonthNameRoundTrip | app_todolist.py:66-67 | the month name of `m` leads back to `m`, so different months have different names |
| Calendar.YearString | app_todolist.py:20 | the year text has exactly four characters, all decimal digits |
| Calendar.YearStringRoundTrip | app_todolist.py:20 | the year text of `y` parses back to `y`, so different years have different texts |
| Calendar.YearStringOrder | app_todolist.py:63 | Python's text order on two year texts agrees with the numeric order of the years |
| Calendar.BeforeIff | app_todolist.py:36-42 | a deadline is before `now` exactly when its day is earlier, or it is today and `now` is past midnight |
| Calendar.DeadlineTodayIsBefore | app_todolist.py:36-42 | a deadline dated today is before `now` exactly when `now` is not midnight |
| Triage.Insert | app_todolist.py:42 | inserting into a deadline-sorted sequence keeps it sorted and adds exactly the one row |
| Triage.SortByDeadline | app_todolist.py:42 | the result is sorted by deadline and is a permutation of the input |
| Triage.SortedPrefixIsMinimal | app_todolist.py:42 | no row left out of the first `k` of a sorted sequence is due earlier than a row among them |
| Triage.Candidates | app_todolist.py:42 | each row occurs among the candidates as often as in the table if it is open, dated and on the window's side of `now`, and otherwise not at all |
| Triage.TakeSmallest | app_todolist.py:42 | the first `k` rows of a sorted permutation are `k` of the rows, sorted, all of them when `k` is the length, and minimal by deadline |
| Triage.CallOut | app_todolist.py:42-51 | at most three rows, as many as qualify up to three; every entry is open and dated on the right side of `now`; sorted by deadline; drawn from the table; all qualifying rows when at most three qualify; no qualifying row left out is due earlier than one shown |
| Triage.CallOutsDisjoint | app_todolist.py:42-51 | no row is both overdue and upcoming, and neither call-out holds a finished or undated task |
| Sequences.Select | app_todolist.py:74-82 | the kept rows form an order-preserving subsequence; each satisfies the test; a row occurs as often as in the input if it passes, else not at all |
| Sequences.SubsequenceTransitive | app_todolist.py:74-82 | a subsequence of a subsequence is a subsequence, so chained filters preserve order |
| Sequences.SelectThenSelect | app_todolist.py:74-82 | filtering by one test and then another equals filtering once by their conjunction |
| Sequences.SelectKeepsAll | app_todolist.py:74-82 | a filter every row passes returns its input unchanged |
| Text.ContainsIffOccurs | app_todolist.py:75 | the substring scan succeeds exactly when the pattern occurs at some position of the text |
| Text.SortedUnique | app_todolist.py:63 | the result is strictly increasing in Python's string order and holds exactly the input's values |
| Text.Distinct | app_todolist.py:70-71 | the result has no repeats, is an order-preserving subsequence of the input and holds exactly its values |
| Filters.BySearch | app_todolist.py:74-75 | the search stage, skipped for empty text, equals selecting by the search clause |
| Filters.ByYear | app_todolist.py:76-77 | the year stage, skipped for "Semua", equals selecting by the year clause |
| Filters.ByMonth | app_todolist.py:78-79 | the month stage, skipped for "Semua", equals selecting by the month clause |
| Filters.ApplyFilters | app_todolist.py:74-82 | the five-stage chain keeps exactly the rows satisfying every active clause, as an order-preserving subsequence with their multiplicities |
| Filters.ChainIsOneSelect | app_todolist.py:74-82 | the stage-by-stage chain equals one selection by the conjunction of all clauses |
| Filters.NeutralShowsEverything | app_todolist.py:74-82 | empty search, "Semua" twice and selections covering every row's priority and status return the input unchanged |
| Filters.MissingYearNeverMatches | app_todolist.py:76-77 | once a specific year is chosen, every row shown has exactly that year, so rows without a year are hidden |
| Options.PresentYears | app_todolist.py:63 | a text is listed exactly when some row has it as its year (missing years are dropped) |
| Options.YearOptions | app_todolist.py:63 | the list starts with "Semua", then strictly increasing texts, exactly the years present in the table |
| Options.YearOptionsDistinct | app_todolist.py:63 | no year text is offered twice after "Semua" |
| Options.YearOptionsChronological | app_todolist.py:63 | on a derived table the year options after "Semua" parse as years in strictly increasing numeric order |
| Options.DerivedMonthOffered | app_todolist.py:66-68 | every derived month name is one of the month select box's choices other than "Semua" |
| Options.DefaultState | app_todolist.py:64-71 | initial state: empty search, "Semua" for year and month, and priority and status selections that hold each value present in the table once |
| Options.DefaultStateShowsEverything | app_todolist.py:63-82 | with the initial sidebar state the filtered table equals the base table |
| Detail.LinkId | app_todolist.py:11 | an id read from a link is what follows the update form's base URL in it |
| Detail.UpdateLinkRoundTrip | app_todolist.py:90 | the update link of a row reads back as that row's id, so different ids give different links |
| Detail.Links | app_todolist.py:90 | one link per row of the view, and the link at each position names that row's id |
| Detail.Resolve | app_todolist.py:109-112 | an index inside the filtered view resolves to the row at that position; any other index is an out-of-range error carrying the index and view size |
| Detail.Describe | app_todolist.py:116-132 | the panel shows the task's name, id, category and priority; its description, or the fallback text when missing; its notes exactly when present |
| Detail.FallbackShownIff | app_todolist.py:127 | the fallback text appears exactly when the description is missing or is literally that text |
| Detail.SelectionShowsBaseRecord | app_todolist.py:109-132 | a selection in the filtered view resolves exactly when its index is inside the view, and then to a row of the base table that passes the filters, shown with its own notes |
| Detail.StaleSelectionRejected | app_todolist.py:112 | an index past the end of the view is rejected with an out-of-range error |
| Dashboard.BuildPage | app_todolist.py:23-132 | the table holds exactly the base-table rows passing the filters, in order and with their multiplicities; the call-outs are the base table's overdue and upcoming top three; the year options are those of the base table and the month options the fixed list; links name their rows; the detail panel is present exactly when a row is selected, and shows that row or the out-of-range error |
| Dashboard.PanelOf | app_todolist.py:109-132 | no panel without a selection; the described row at an index inside the view; the out-of-range error carrying the index and view size otherwise |
| Dashboard.CallOutsIgnoreFilters | app_todolist.py:36-82 | the call-outs do not change with the sidebar state or the selection |
| Dashboard.ExampleCallOuts | app_todolist.py:42-51 | with a finished 2024 task and an open 2030 task seen on 1 January 2025, nothing is overdue and the 2030 task is the only upcoming one |
| Dashboard.ExampleSearchIgnoresCase | app_todolist.py:75 | the search text "t1" matches the task whose id is "T1" |

## Left out

- Page rendering: every `st.*` call, layout, the call-out message text and its `%d %b %Y` date format (lines 28-56, 85-132). These are presentation.
- The HTTP fetch and CSV parsing (`pd.read_csv`, line 16). The sheet is given as an already-parsed sequence of tasks.
- The 600-second `st.cache_data` memo (line 14). It is framework caching.
- Day-first date parsing (`pd.to_datetime`, line 18). A deadline is given as an already-parsed optional date. Dates are limited to the years 1677 to 2262, pandas' range, taken as whole years. That is slightly wider than pandas' exact bounds.
- The locale dependence of `strftime('%B')` (line 19). Month names are the fixed English list of lines 66-67.
- The wall clock `datetime.now()` (line 36). `now` is a parameter.
- Regular-expression semantics of `str.contains` (line 75), which defaults to `regex=True`. The search text is matched literally, after ASCII lower-casing of both sides. Unicode case folding is not modelled.
- Triage.CallOut: does not fix the order among rows with equal deadlines, because pandas' default sort is not stable.
- Text.Distinct: states no repeats, order preservation and the same values, but not that each value sits at its first occurrence as `unique()` keeps it. The filters only use membership.
- pandas missing-value quirks: NaN in name, id, priority or status is not modelled; those fields are plain strings.
- The catch-all `except` (lines 133-135). Only the out-of-range selection is modelled, as an error result. Load failures are not modelled.
- The creation-form link (lines 10, 32). It is a static link.
- A sheet without a `Catatan` column (line 131). This is represented as every task having no notes.
- The `astype(str)` on the id (line 90). Ids are already strings here.
