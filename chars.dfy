/**
 * Character classes of the C locale and substring search, as the C and C++
 * standard libraries provide them to the server.
 */
module Chars {
  import opened Wrappers

  /** White space in the C locale: what `isspace` accepts and what stream
      extraction `>>` skips (space, tab, newline, vertical tab, form feed,
      carriage return). */
  predicate IsSpace(c: char)
  {
    c == ' ' || c == '\t' || c == '\n' || c == '\U{B}' || c == '\U{C}' || c == '\r'
  }

  predicate IsDigit(c: char)
  {
    '0' <= c <= '9'
  }

  /** The first index at or after `i` that does not hold white space. */
  function SkipSpaces(s: seq<char>, i: nat): (j: nat)
    requires i <= |s|
    ensures i <= j <= |s|
    ensures j < |s| ==> !IsSpace(s[j])
    decreases |s| - i
  {
    if i < |s| && IsSpace(s[i]) then SkipSpaces(s, i + 1) else i
  }

  /** Everything skipped is white space. */
  lemma {:induction false} SkippedAreSpaces(s: seq<char>, i: nat)
    requires i <= |s|
    ensures forall k :: i <= k < SkipSpaces(s, i) ==> IsSpace(s[k])
    decreases |s| - i
  {
    if i < |s| && IsSpace(s[i]) {
      SkippedAreSpaces(s, i + 1);
    }
  }

  /** Skipping stops at the first character that is not white space. */
  lemma {:induction false} SkipSpacesStopsAt(s: seq<char>, i: nat, j: nat)
    requires i <= j <= |s|
    requires forall k :: i <= k < j ==> IsSpace(s[k])
    requires j == |s| || !IsSpace(s[j])
    ensures SkipSpaces(s, i) == j
    decreases j - i
  {
    if i < j {
      SkipSpacesStopsAt(s, i + 1, j);
    }
  }

  /** `pat` occurs in `s` starting at index `i`. */
  predicate OccursAt(s: seq<char>, pat: seq<char>, i: nat)
  {
    i + |pat| <= |s| && s[i..i + |pat|] == pat
  }

  /**
   * `s.find(pat, from)` of std::string: the least index at or after `from`
   * where `pat` occurs, or None where the library returns `npos`.
   */
  function Find(s: seq<char>, pat: seq<char>, from: nat): (r: Option<nat>)
    ensures r.Some? ==> from <= r.value && OccursAt(s, pat, r.value)
    ensures forall j :: from <= j && (r.None? || j < r.value) ==> !OccursAt(s, pat, j)
    decreases |s| - from
  {
    if from + |pat| > |s| then None
    else if s[from..from + |pat|] == pat then Some(from)
    else Find(s, pat, from + 1)
  }

  /** The search finds the first occurrence. */
  lemma FindsFirst(s: seq<char>, pat: seq<char>, from: nat, i: nat)
    requires from <= i && OccursAt(s, pat, i)
    requires forall k :: from <= k < i ==> !OccursAt(s, pat, k)
    ensures Find(s, pat, from) == Some(i)
  {
  }

  /** The end of an HTTP header: an empty line. */
  const BlankLine: seq<char> := "\r\n\r\n"

}
