/** The .NET `System.String` operations the analyzer's namespace stripping
    uses, with ordinal comparison: `IndexOf(string)`, `IndexOf(char, int)`,
    `LastIndexOf(char)` and `Remove(int, int)`.  Each search returns -1 when
    nothing is found, as .NET does. */
module DotNetStrings {

  /** `pat` occurs in `s` starting at position `i`. */
  predicate OccursAt(s: string, pat: string, i: int) {
    0 <= i && i + |pat| <= |s| && s[i..i + |pat|] == pat
  }

  /** `i` is the first position at which `pat` occurs in `s`. */
  predicate FirstOccurrence(s: string, pat: string, i: int) {
    OccursAt(s, pat, i) && forall k :: 0 <= k < i ==> !OccursAt(s, pat, k)
  }

  /** `j` is the first position at or after `from` holding `c`. */
  predicate FirstCharFrom(s: string, c: char, from: int, j: int) {
    0 <= from <= j < |s| && s[j] == c && forall k :: from <= k < j ==> s[k] != c
  }

  /** `k` is the last position of `s` holding `c`. */
  predicate LastChar(s: string, c: char, k: int) {
    0 <= k < |s| && s[k] == c && forall m :: k < m < |s| ==> s[m] != c
  }

  /** `s.IndexOf(pat)`: the first occurrence, or -1 when there is none. */
  function IndexOf(s: string, pat: string): (r: int)
    ensures r == -1 || FirstOccurrence(s, pat, r)
    ensures r == -1 <==> forall i :: !OccursAt(s, pat, i)
  {
    IndexOfFrom(s, pat, 0)
  }

  function IndexOfFrom(s: string, pat: string, from: nat): (r: int)
    requires forall k :: 0 <= k < from ==> !OccursAt(s, pat, k)
    ensures r == -1 || FirstOccurrence(s, pat, r)
    ensures r == -1 <==> forall i :: !OccursAt(s, pat, i)
    decreases |s| - from
  {
    if from + |pat| > |s| then -1
    else if s[from..from + |pat|] == pat then from
    else IndexOfFrom(s, pat, from + 1)
  }

  /** `s.IndexOf(c, start)`: the first `c` at or after `start`, or -1. */
  function IndexOfChar(s: string, c: char, start: nat): (r: int)
    requires start <= |s|
    ensures r == -1 || FirstCharFrom(s, c, start, r)
    ensures r == -1 <==> c !in s[start..]
    decreases |s| - start
  {
    if start == |s| then -1
    else if s[start] == c then start
    else
      assert s[start..] == [s[start]] + s[start + 1..];
      IndexOfChar(s, c, start + 1)
  }

  /** `s.LastIndexOf(c)`: the last `c`, or -1. */
  function LastIndexOfChar(s: string, c: char): (r: int)
    ensures r == -1 || LastChar(s, c, r)
    ensures r == -1 <==> c !in s
  {
    if s == [] then -1
    else if s[|s| - 1] == c then |s| - 1
    else
      assert s == s[..|s| - 1] + [s[|s| - 1]];
      LastIndexOfChar(s[..|s| - 1], c)
  }

  /** `s.Remove(start, count)`: .NET throws unless the span lies within `s`. */
  function Remove(s: string, start: nat, count: nat): string
    requires start + count <= |s|
  {
    s[..start] + s[start + count..]
  }
}
