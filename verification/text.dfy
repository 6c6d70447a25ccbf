/** String helpers the dashboard relies on: case-insensitive substring search,
    Python's string ordering, and the distinct/sorted value lists behind the
    sidebar widgets. */
module Text {
  import opened Sequences

  /** ASCII lower-casing of one character; every other character is unchanged. */
  function LowerChar(c: char): char {
    if 'A' <= c <= 'Z' then (c as int + 32) as char else c
  }

  /** ASCII lower-casing, character by character. */
  function Lower(s: string): (r: string)
    ensures |r| == |s|
    ensures forall i :: 0 <= i < |s| ==> r[i] == LowerChar(s[i])
  {
    seq(|s|, i requires 0 <= i < |s| => LowerChar(s[i]))
  }

  /** `pat` occurs in `text` starting at position `i`. */
  predicate OccursAt(text: string, pat: string, i: int) {
    0 <= i && i + |pat| <= |text| && text[i..i + |pat|] == pat
  }

  /** Substring test, scanning the start positions from left to right. */
  predicate Contains(text: string, pat: string)
    decreases |text|
  {
    (|pat| <= |text| && text[..|pat|] == pat) || (|text| > 0 && Contains(text[1..], pat))
  }

  /** The scan finds `pat` exactly when `pat` occurs at some position of `text`. */
  lemma ContainsIffOccurs(text: string, pat: string)
    ensures Contains(text, pat) <==> exists i :: OccursAt(text, pat, i)
  {
    if Contains(text, pat) {
      var i := ContainsWitness(text, pat);
    }
    if i :| OccursAt(text, pat, i) {
      OccursContains(text, pat, i);
    }
  }

  /** A position at which the scan found `pat`. */
  lemma {:induction false} ContainsWitness(text: string, pat: string) returns (i: int)
    requires Contains(text, pat)
    ensures OccursAt(text, pat, i)
    decreases |text|
  {
    if |pat| <= |text| && text[..|pat|] == pat {
      i := 0;
    } else {
      var j := ContainsWitness(text[1..], pat);
      assert text[1..][j..j + |pat|] == text[j + 1..j + 1 + |pat|];
      i := j + 1;
    }
  }

  /** An occurrence at any position is found by the scan. */
  lemma {:induction false} OccursContains(text: string, pat: string, i: int)
    requires OccursAt(text, pat, i)
    ensures Contains(text, pat)
    decreases |text|
  {
    if i > 0 {
      assert text[1..][i - 1..i - 1 + |pat|] == text[i..i + |pat|];
      OccursContains(text[1..], pat, i - 1);
    }
  }

  /** Python's `<` on `str`: lexicographic comparison of code points, a proper
      prefix being smaller. */
  predicate StrLess(a: string, b: string)
    decreases |a|
  {
    if |a| == 0 then |b| > 0
    else if |b| == 0 then false
    else a[0] < b[0] || (a[0] == b[0] && StrLess(a[1..], b[1..]))
  }

  lemma {:induction false} StrLessIrreflexive(a: string)
    ensures !StrLess(a, a)
    decreases |a|
  {
    if |a| > 0 {
      StrLessIrreflexive(a[1..]);
    }
  }

  lemma {:induction false} StrLessTransitive(a: string, b: string, c: string)
    requires StrLess(a, b) && StrLess(b, c)
    ensures StrLess(a, c)
    decreases |a|
  {
    if |a| > 0 && a[0] == b[0] && b[0] == c[0] {
      StrLessTransitive(a[1..], b[1..], c[1..]);
    }
  }

  /** Any two distinct strings are ordered one way or the other. */
  lemma {:induction false} StrLessTotal(a: string, b: string)
    ensures a == b || StrLess(a, b) || StrLess(b, a)
    decreases |a|
  {
    if |a| > 0 && |b| > 0 && a[0] == b[0] {
      StrLessTotal(a[1..], b[1..]);
      if a[1..] == b[1..] {
        assert a == [a[0]] + a[1..] && b == [b[0]] + b[1..];
      }
    }
  }

  /** Strictly increasing under Python's string order (hence without repeats). */
  predicate StrictlyIncreasing(s: seq<string>) {
    forall i, j :: 0 <= i < j < |s| ==> StrLess(s[i], s[j])
  }

  /** Adds `x` to a strictly increasing list, unless it is already there. */
  function InsertUnique(s: seq<string>, x: string): (r: seq<string>)
    requires StrictlyIncreasing(s)
    ensures StrictlyIncreasing(r)
    ensures forall y :: y in r <==> y == x || y in s
    decreases |s|
  {
    if |s| == 0 then [x]
    else if x == s[0] then s
    else if StrLess(x, s[0]) then
      var r := [x] + s;
      assert forall j :: 0 < j < |r| ==> StrLess(x, r[j]) by {
        forall j | 0 < j < |r| ensures StrLess(x, r[j]) {
          if j > 1 { StrLessTransitive(x, s[0], r[j]); }
        }
      }
      r
    else
      StrLessTotal(x, s[0]);
      var rest := InsertUnique(s[1..], x);
      var r := [s[0]] + rest;
      assert forall y :: y in rest ==> StrLess(s[0], y) by {
        forall y | y in rest ensures StrLess(s[0], y) {
          if y != x {
            var j :| 0 <= j < |s[1..]| && s[1..][j] == y;
            assert s[j + 1] == y;
          }
        }
      }
      assert forall j :: 0 < j < |r| ==> r[j] in rest;
      assert s == [s[0]] + s[1..];
      r
  }

  /** The distinct values of `s` in increasing order: Python's
      `sorted(set(s))`. */
  function SortedUnique(s: seq<string>): (r: seq<string>)
    ensures StrictlyIncreasing(r)
    ensures forall y :: y in r <==> y in s
    decreases |s|
  {
    if |s| == 0 then []
    else
      assert s == [s[0]] + s[1..];
      InsertUnique(SortedUnique(s[1..]), s[0])
  }

  /** A strictly increasing list has no repeated value. */
  lemma StrictlyIncreasingHasNoDuplicates(s: seq<string>)
    requires StrictlyIncreasing(s)
    ensures NoDuplicates(s)
  {
    forall i, j | 0 <= i < j < |s| ensures s[i] != s[j] {
      if s[i] == s[j] { StrLessIrreflexive(s[i]); }
    }
  }

  /** `s` with every copy of `v` removed, the rest in order. */
  function Without(s: seq<string>, v: string): (r: seq<string>)
    ensures IsSubsequence(r, s)
    ensures forall y :: y in r <==> y in s && y != v
  {
    var r := Select(s, y => y != v);
    assert forall y :: y in r <==> y in s && y != v by {
      forall y ensures y in r <==> y in s && y != v {
        assert y in r <==> multiset(r)[y] > 0;
        assert y in s <==> multiset(s)[y] > 0;
      }
    }
    r
  }

  /** The distinct values of `s`, each kept at its first occurrence: pandas
      `Series.unique()`. */
  function Distinct(s: seq<string>): (r: seq<string>)
    ensures NoDuplicates(r)
    ensures IsSubsequence(r, s)
    ensures forall y :: y in r <==> y in s
    decreases |s|
  {
    if |s| == 0 then []
    else
      var later := Without(s[1..], s[0]);
      var rest := Distinct(later);
      DistinctStep(s, later, rest);
      [s[0]] + rest
  }

  /** Putting the first value in front of the distinct values of the rest
      with that value removed keeps all three promises of `Distinct`. */
  lemma DistinctStep(s: seq<string>, later: seq<string>, rest: seq<string>)
    requires |s| > 0
    requires IsSubsequence(later, s[1..])
    requires forall y :: y in later <==> y in s[1..] && y != s[0]
    requires NoDuplicates(rest) && IsSubsequence(rest, later)
    requires forall y :: y in rest <==> y in later
    ensures NoDuplicates([s[0]] + rest)
    ensures IsSubsequence([s[0]] + rest, s)
    ensures forall y :: y in [s[0]] + rest <==> y in s
  {
    SubsequenceTransitive(rest, later, s[1..]);
    ConsSubsequence(s[0], rest, s[1..]);
    assert s == [s[0]] + s[1..];
    ConsNoDuplicates(s[0], rest);
  }

  lemma ConsSubsequence(x: string, a: seq<string>, b: seq<string>)
    requires IsSubsequence(a, b)
    ensures IsSubsequence([x] + a, [x] + b)
  {
    assert ([x] + a)[1..] == a;
    assert ([x] + b)[1..] == b;
  }

  lemma ConsNoDuplicates(x: string, a: seq<string>)
    requires NoDuplicates(a) && x !in a
    ensures NoDuplicates([x] + a)
  {
    var r := [x] + a;
    forall i, j | 0 <= i < j < |r| ensures r[i] != r[j] {
      if i == 0 {
        assert r[j] == a[j - 1];
      } else {
        assert r[i] == a[i - 1] && r[j] == a[j - 1];
      }
    }
  }
}
