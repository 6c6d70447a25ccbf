/** The two call-outs above the table: the three most overdue open tasks and
    the three nearest upcoming ones. Both are computed on the whole base
    table, before any sidebar filter. */
module Triage {
  import opened Optional
  import opened Sequences
  import opened Calendar
  import opened Tasks

  /** The status that marks a task as finished. */
  const Done := "Selesai"

  /** How many tasks each call-out shows (`head(3)`). */
  const ViewSize := 3

  datatype Window = Overdue | Upcoming

  /** An open task with a deadline, on the requested side of `now`:
      `deadline < now` for overdue, `deadline >= now` for upcoming. A missing
      deadline (NaT) compares false both ways. */
  predicate InWindow(r: Row, now: Timestamp, w: Window) {
    && r.task.status != Done
    && match r.task.deadline
       case None => false
       case Some(d) => if w.Overdue? then Before(d, now) else !Before(d, now)
  }

  /** The sort key. Only rows with a deadline are ever sorted, so the value
      given to a missing deadline is never consulted. */
  function DeadlineKey(r: Row): int {
    match r.task.deadline
    case Some(d) => DayRank(d)
    case None => 0
  }

  predicate SortedByDeadline(s: seq<Row>) {
    forall i, j :: 0 <= i < j < |s| ==> DeadlineKey(s[i]) <= DeadlineKey(s[j])
  }

  /** Places `x` into a deadline-sorted sequence. */
  function Insert(x: Row, s: seq<Row>): (r: seq<Row>)
    requires SortedByDeadline(s)
    ensures SortedByDeadline(r)
    ensures multiset(r) == multiset(s) + multiset{x}
    decreases |s|
  {
    if |s| == 0 || DeadlineKey(x) <= DeadlineKey(s[0]) then
      ConsSorted(x, s);
      [x] + s
    else
      var rest := Insert(x, s[1..]);
      assert s == [s[0]] + s[1..];
      LowerBoundOfInsert(s[0], x, s[1..], rest);
      ConsSorted(s[0], rest);
      [s[0]] + rest
  }

  /** A row due no later than every row of a sorted sequence can go in front. */
  lemma ConsSorted(y: Row, t: seq<Row>)
    requires SortedByDeadline(t)
    requires |t| == 0 || DeadlineKey(y) <= DeadlineKey(t[0])
    ensures SortedByDeadline([y] + t)
  {
    var r := [y] + t;
    forall i, j | 0 <= i < j < |r| ensures DeadlineKey(r[i]) <= DeadlineKey(r[j]) {
      if i == 0 && j > 1 {
        assert r[j] == t[j - 1];
      }
    }
  }

  /** If `y` is due no later than `x` and than every row of sorted `t`, it is
      due no later than the first row of `t` with `x` inserted. */
  lemma LowerBoundOfInsert(y: Row, x: Row, t: seq<Row>, rest: seq<Row>)
    requires SortedByDeadline(t) && (|t| == 0 || DeadlineKey(y) <= DeadlineKey(t[0]))
    requires DeadlineKey(y) <= DeadlineKey(x)
    requires multiset(rest) == multiset(t) + multiset{x}
    ensures |rest| == 0 || DeadlineKey(y) <= DeadlineKey(rest[0])
  {
    if |rest| > 0 {
      assert rest[0] in multiset(rest);
      if rest[0] != x {
        assert rest[0] in multiset(t);
        var k :| 0 <= k < |t| && t[k] == rest[0];
      }
    }
  }

  /** Orders rows by ascending deadline (`sort_values('Deadline')`). The
      relative order of rows with equal deadlines is not promised. */
  function SortByDeadline(s: seq<Row>): (r: seq<Row>)
    ensures SortedByDeadline(r)
    ensures multiset(r) == multiset(s)
    decreases |s|
  {
    if |s| == 0 then []
    else
      assert s == [s[0]] + s[1..];
      Insert(s[0], SortByDeadline(s[1..]))
  }

  /** In a sorted sequence, nothing after position `k` is due earlier than
      anything before it. */
  lemma {:induction false} SortedPrefixIsMinimal(s: seq<Row>, k: nat)
    requires SortedByDeadline(s)
    requires k <= |s|
    ensures forall x, y :: x in multiset(s) - multiset(s[..k]) && y in s[..k] ==> DeadlineKey(y) <= DeadlineKey(x)
  {
    assert s == s[..k] + s[k..];
    assert multiset(s) - multiset(s[..k]) == multiset(s[k..]);
    forall x, y | x in multiset(s) - multiset(s[..k]) && y in s[..k]
      ensures DeadlineKey(y) <= DeadlineKey(x)
    {
      assert x in s[k..];
      var j :| 0 <= j < |s[k..]| && s[k..][j] == x;
      var i :| 0 <= i < k && s[..k][i] == y;
      assert s[i] == y && s[k + j] == x;
    }
  }

  /** The rows that qualify for a call-out, in table order. */
  function Candidates(rows: seq<Row>, now: Timestamp, w: Window): (c: seq<Row>)
    ensures forall x :: multiset(c)[x] == if InWindow(x, now, w) then multiset(rows)[x] else 0
  {
    Select(rows, x => InWindow(x, now, w))
  }

  /** One call-out: the qualifying rows, sorted by deadline, first three.
      It is a true top three: it holds all qualifying rows when there are at
      most three, and otherwise no qualifying row left out is due earlier
      than one shown. */
  function CallOut(rows: seq<Row>, now: Timestamp, w: Window): (r: seq<Row>)
    ensures |r| <= ViewSize
    ensures |r| == if |Candidates(rows, now, w)| < ViewSize then |Candidates(rows, now, w)| else ViewSize
    ensures forall i :: 0 <= i < |r| ==> InWindow(r[i], now, w)
    ensures SortedByDeadline(r)
    ensures multiset(r) <= multiset(Candidates(rows, now, w))
    ensures multiset(r) <= multiset(rows)
    ensures |Candidates(rows, now, w)| <= ViewSize ==> multiset(r) == multiset(Candidates(rows, now, w))
    ensures forall x, y :: x in multiset(Candidates(rows, now, w)) - multiset(r) && y in r ==>
      DeadlineKey(y) <= DeadlineKey(x)
  {
    var c := Candidates(rows, now, w);
    var s := SortByDeadline(c);
    assert |s| == |c| by { assert |multiset(s)| == |multiset(c)|; }
    var k := if |c| < ViewSize then |c| else ViewSize;
    TakeSmallest(c, s, k);
    CandidatesQualify(rows, now, w, s[..k]);
    s[..k]
  }

  /** The first `k` rows of a sorted permutation of `c` are `k` smallest rows
      of `c`, in order. */
  lemma TakeSmallest(c: seq<Row>, s: seq<Row>, k: nat)
    requires SortedByDeadline(s) && multiset(s) == multiset(c)
    requires k <= |s|
    ensures |s| == |c|
    ensures |s[..k]| == k
    ensures SortedByDeadline(s[..k])
    ensures multiset(s[..k]) <= multiset(c)
    ensures k == |s| ==> multiset(s[..k]) == multiset(c)
    ensures forall x, y :: x in multiset(c) - multiset(s[..k]) && y in s[..k] ==> DeadlineKey(y) <= DeadlineKey(x)
  {
    assert |s| == |c| by { assert |multiset(s)| == |multiset(c)|; }
    SortedPrefixIsMinimal(s, k);
    assert s == s[..k] + s[k..];
    if k == |s| {
      assert s[..k] == s;
    }
  }

  /** Rows drawn from the candidates qualify, and come from the table. */
  lemma CandidatesQualify(rows: seq<Row>, now: Timestamp, w: Window, r: seq<Row>)
    requires multiset(r) <= multiset(Candidates(rows, now, w))
    ensures forall i :: 0 <= i < |r| ==> InWindow(r[i], now, w)
    ensures multiset(r) <= multiset(rows)
  {
    var c := Candidates(rows, now, w);
    forall i | 0 <= i < |r| ensures InWindow(r[i], now, w) {
      assert r[i] in multiset(r);
      assert multiset(c)[r[i]] > 0;
    }
    forall x ensures multiset(r)[x] <= multiset(rows)[x] {
      assert multiset(r)[x] <= multiset(c)[x];
    }
  }

  /** A row is never both overdue and upcoming, and neither call-out shows a
      finished task or one without a deadline. */
  lemma CallOutsDisjoint(rows: seq<Row>, now: Timestamp)
    ensures forall x :: x in CallOut(rows, now, Overdue) ==> x !in CallOut(rows, now, Upcoming)
    ensures forall x :: x in CallOut(rows, now, Overdue) || x in CallOut(rows, now, Upcoming) ==>
      x.task.deadline.Some? && x.task.status != Done
  {
    var over, up := CallOut(rows, now, Overdue), CallOut(rows, now, Upcoming);
    forall x | x in over || x in up
      ensures x.task.deadline.Some? && x.task.status != Done
      ensures x in over ==> x !in up
    {
      if x in over {
        var i :| 0 <= i < |over| && over[i] == x;
        assert InWindow(x, now, Overdue);
      }
      if x in up {
        var j :| 0 <= j < |up| && up[j] == x;
        assert InWindow(x, now, Upcoming);
      }
    }
  }
}
