/** Calendar dates, the current instant, and the two text fields derived
    from a date: the English month name (`strftime('%B')`) and the
    four-digit year (`strftime('%Y')`). */
module Calendar {
  import opened Optional
  import opened Text

  /** The years a pandas `datetime64[ns]` value can hold. */
  const MinYear := 1677
  const MaxYear := 2262

  /** Python's `datetime` has microsecond resolution. */
  const MicrosPerDay := 86_400_000_000

  predicate IsLeapYear(year: int) {
    year % 4 == 0 && (year % 100 != 0 || year % 400 == 0)
  }

  function DaysInMonth(year: int, month: int): int
    requires 1 <= month <= 12
  {
    if month == 2 then (if IsLeapYear(year) then 29 else 28)
    else if month == 4 || month == 6 || month == 9 || month == 11 then 30
    else 31
  }

  datatype CivilDate = CivilDate(year: int, month: int, day: int)

  predicate ValidDate(d: CivilDate) {
    && MinYear <= d.year <= MaxYear
    && 1 <= d.month <= 12
    && 1 <= d.day <= DaysInMonth(d.year, d.month)
  }

  /** A date as pandas parses it: `pd.to_datetime` yields a real calendar
      day inside its representable range, at midnight. */
  type Date = d: CivilDate | ValidDate(d) witness CivilDate(2000, 1, 1)

  datatype Clock = Clock(date: Date, micros: int)

  /** The current local time, `datetime.now()`: a date and the microseconds
      elapsed since its midnight. */
  type Timestamp = t: Clock | 0 <= t.micros < MicrosPerDay witness Clock(CivilDate(2000, 1, 1), 0)

  /** Calendar order: by year, then month, then day. */
  predicate DateLess(a: Date, b: Date) {
    a.year < b.year || (a.year == b.year && (a.month < b.month || (a.month == b.month && a.day < b.day)))
  }

  /** An integer that orders dates as the calendar does (not a day count:
      every month is given 31 slots). */
  function DayRank(d: Date): int {
    d.year * 372 + (d.month - 1) * 31 + (d.day - 1)
  }

  lemma DayRankOrdersDates(a: Date, b: Date)
    ensures DateLess(a, b) <==> DayRank(a) < DayRank(b)
    ensures a == b <==> DayRank(a) == DayRank(b)
  {
  }

  /** Midnight of `d` is strictly earlier than `now`: pandas comparing a
      parsed deadline with `datetime.now()`. */
  predicate Before(d: Date, now: Timestamp) {
    DayRank(d) * MicrosPerDay < DayRank(now.date) * MicrosPerDay + now.micros
  }

  /** A deadline is before `now` when its day is earlier, or when it is today
      and the clock has moved past midnight. */
  lemma BeforeIff(d: Date, now: Timestamp)
    ensures Before(d, now) <==> DateLess(d, now.date) || (d == now.date && now.micros > 0)
  {
    DayRankOrdersDates(d, now.date);
  }

  /** A deadline dated today counts as overdue, except at exactly midnight. */
  lemma DeadlineTodayIsBefore(d: Date, now: Timestamp)
    requires now.date == d
    ensures Before(d, now) <==> now.micros > 0
  {
  }

  /** The English month names `strftime('%B')` produces, January first. */
  const MonthNames: seq<string> := ["January", "February", "March", "April", "May", "June",
                                    "July", "August", "September", "October", "November", "December"]

  /** The name of month `m`, counting from 1. */
  function MonthName(m: int): string
    requires 1 <= m <= 12
  {
    MonthNames[m - 1]
  }

  /** The month that has the given English name, if any. */
  function MonthNumber(name: string): (r: Option<int>)
    ensures r.Some? ==> 1 <= r.value <= 12 && MonthName(r.value) == name
    ensures r.None? ==> name !in MonthNames
  {
    if i :| 0 <= i < |MonthNames| && MonthNames[i] == name then Some(i + 1) else None
  }

  lemma MonthNamesDistinct()
    ensures forall i, j :: 0 <= i < j < |MonthNames| ==> MonthNames[i] != MonthNames[j]
  {
  }

  /** Month names identify months: the name of `m` leads back to `m`. */
  lemma MonthNameRoundTrip(m: int)
    requires 1 <= m <= 12
    ensures MonthNumber(MonthName(m)) == Some(m)
  {
    MonthNamesDistinct();
  }

  function Digit(n: int): char
    requires 0 <= n <= 9
  {
    ('0' as int + n) as char
  }

  predicate IsDigit(c: char) {
    '0' <= c <= '9'
  }

  function DigitValue(c: char): int
    requires IsDigit(c)
  {
    c as int - '0' as int
  }

  /** The year written with four decimal digits, zero-padded. */
  function YearString(y: int): (r: string)
    requires 0 <= y <= 9999
    ensures |r| == 4
    ensures forall i :: 0 <= i < 4 ==> IsDigit(r[i])
  {
    var tens := y / 10;
    var hundreds := tens / 10;
    [Digit(hundreds / 10), Digit(hundreds % 10), Digit(tens % 10), Digit(y % 10)]
  }

  /** Reads a four-digit year back; anything else is not a year. */
  function ParseYear(s: string): (r: Option<int>)
    ensures r.Some? ==> |s| == 4 && 0 <= r.value <= 9999
  {
    if |s| == 4 && IsDigit(s[0]) && IsDigit(s[1]) && IsDigit(s[2]) && IsDigit(s[3]) then
      Some(DigitValue(s[0]) * 1000 + DigitValue(s[1]) * 100 + DigitValue(s[2]) * 10 + DigitValue(s[3]))
    else None
  }

  /** The four digits of `y`, most significant first, as numbers. */
  lemma YearDigits(y: int) returns (d3: int, d2: int, d1: int, d0: int)
    requires 0 <= y <= 9999
    ensures 0 <= d3 <= 9 && 0 <= d2 <= 9 && 0 <= d1 <= 9 && 0 <= d0 <= 9
    ensures y == d3 * 1000 + d2 * 100 + d1 * 10 + d0
    ensures YearString(y) == [Digit(d3), Digit(d2), Digit(d1), Digit(d0)]
  {
    var tens := y / 10;
    var hundreds := tens / 10;
    d3, d2, d1, d0 := hundreds / 10, hundreds % 10, tens % 10, y % 10;
    assert y == tens * 10 + d0;
    assert tens == hundreds * 10 + d1;
    assert hundreds == d3 * 10 + d2;
  }

  /** The year text of `y` reads back as `y`; in particular distinct years
      have distinct texts. */
  lemma YearStringRoundTrip(y: int)
    requires 0 <= y <= 9999
    ensures ParseYear(YearString(y)) == Some(y)
  {
    var d3, d2, d1, d0 := YearDigits(y);
  }

  /** On two strings of four characters, Python's order compares the first
      differing character. */
  lemma StrLessFour(a: string, b: string)
    requires |a| == 4 && |b| == 4
    ensures StrLess(a, b) <==>
      a[0] < b[0] || (a[0] == b[0] && (a[1] < b[1] || (a[1] == b[1] && (a[2] < b[2] || (a[2] == b[2] && a[3] < b[3])))))
  {
    assert StrLess(a, b) == (a[0] < b[0] || (a[0] == b[0] && StrLess(a[1..], b[1..])));
    assert StrLess(a[1..], b[1..]) == (a[1] < b[1] || (a[1] == b[1] && StrLess(a[2..], b[2..]))) by {
      assert a[1..][1..] == a[2..] && b[1..][1..] == b[2..];
    }
    assert StrLess(a[2..], b[2..]) == (a[2] < b[2] || (a[2] == b[2] && StrLess(a[3..], b[3..]))) by {
      assert a[2..][1..] == a[3..] && b[2..][1..] == b[3..];
    }
    assert StrLess(a[3..], b[3..]) == (a[3] < b[3]) by {
      assert a[3..][1..] == [] && b[3..][1..] == [];
    }
  }

  /** Python's string order on year texts is the numeric order of the years,
      so sorting the year column as text sorts it chronologically. */
  lemma YearStringOrder(a: int, b: int)
    requires 0 <= a <= 9999 && 0 <= b <= 9999
    ensures StrLess(YearString(a), YearString(b)) <==> a < b
  {
    var a3, a2, a1, a0 := YearDigits(a);
    var b3, b2, b1, b0 := YearDigits(b);
    StrLessFour(YearString(a), YearString(b));
  }
}
