/** Character and index helpers shared by the string-processing modules. */
module Text {

  /** ASCII-only lower-casing: what a JavaScript regular expression with the
      `i` flag and without the `u` flag treats as equal letters for an ASCII
      pattern (a non-ASCII character never folds onto an ASCII one). */
  function AsciiLower(c: char): (r: char)
    ensures !('A' <= r <= 'Z')
    ensures !('A' <= c <= 'Z') ==> r == c
    ensures ('a' <= r <= 'z') <==> ('a' <= c <= 'z' || 'A' <= c <= 'Z')
  {
    if 'A' <= c <= 'Z' then (c as int + 32) as char else c
  }

  /** `s` holds `pat` at index `i`, compared case-insensitively; `pat` is
      written in lower case. */
  predicate CiMatchAt(s: string, i: nat, pat: string) {
    i + |pat| <= |s| && forall j :: 0 <= j < |pat| ==> AsciiLower(s[i + j]) == pat[j]
  }

  /** The first index at or after `i` that holds `c`, or `|s|` if there is none. */
  function IndexOfFrom(s: string, i: nat, c: char): (r: nat)
    requires i <= |s|
    ensures i <= r <= |s|
    ensures r < |s| ==> s[r] == c
    ensures forall j :: i <= j < r ==> s[j] != c
    decreases |s| - i
  {
    if i == |s| then |s|
    else if s[i] == c then i
    else IndexOfFrom(s, i + 1, c)
  }

  /** The last index that holds `c`, or -1 if there is none. */
  function LastIndexOf(s: string, c: char): (r: int)
    ensures -1 <= r < |s|
    ensures r >= 0 ==> s[r] == c
    ensures forall j :: r < j < |s| ==> s[j] != c
  {
    if |s| == 0 then -1
    else if s[|s| - 1] == c then |s| - 1
    else LastIndexOf(s[..|s| - 1], c)
  }
}
