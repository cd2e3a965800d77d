/**
 * Character classes of the two patterns and the maximal runs they scan.
 * Content is a plain sequence of characters; case-insensitivity is ASCII only.
 */
module Text {

  /** RE2's `\s`: tab, newline, form feed, carriage return and space. */
  predicate IsSpace(c: char) {
    c == '\t' || c == '\n' || c == '\U{000C}' || c == '\r' || c == ' '
  }

  /** The class `[^"\s]` shared by both patterns: anything but a double quote or whitespace. */
  predicate IsValueChar(c: char) {
    c != '"' && !IsSpace(c)
  }

  /** `c` equals the lower-case ASCII character `k` under ASCII case folding. */
  predicate SameLetterIgnoringCase(c: char, k: char) {
    c == k || ('a' <= k <= 'z' && c as int == k as int - 32)
  }

  /** `w` spells `kw` (given in lower case) ignoring ASCII case. */
  predicate EqualsIgnoringCase(w: string, kw: string) {
    |w| == |kw| && forall k :: 0 <= k < |w| ==> SameLetterIgnoringCase(w[k], kw[k])
  }

  ghost predicate AllSpaces(s: string, lo: nat, hi: nat) {
    hi <= |s| && forall k :: lo <= k < hi ==> IsSpace(s[k])
  }

  ghost predicate AllValueChars(s: string, lo: nat, hi: nat) {
    hi <= |s| && forall k :: lo <= k < hi ==> IsValueChar(s[k])
  }

  /** End of the maximal run of whitespace starting at `j` (greedy `\s*`). */
  function SkipSpaces(s: string, j: nat): (k: nat)
    requires j <= |s|
    ensures j <= k <= |s| && AllSpaces(s, j, k)
    ensures k == |s| || !IsSpace(s[k])
    decreases |s| - j
  {
    if j < |s| && IsSpace(s[j]) then SkipSpaces(s, j + 1) else j
  }

  /** End of the maximal run of `[^"\s]` starting at `j` (greedy `[^"\s]*`). */
  function ValueEnd(s: string, j: nat): (k: nat)
    requires j <= |s|
    ensures j <= k <= |s| && AllValueChars(s, j, k)
    ensures k == |s| || !IsValueChar(s[k])
    decreases |s| - j
  {
    if j < |s| && IsValueChar(s[j]) then ValueEnd(s, j + 1) else j
  }

  /** Any whitespace run from `j` ending before a non-space is the one SkipSpaces finds. */
  lemma SkipSpacesUnique(s: string, j: nat, b: nat)
    requires j <= b && AllSpaces(s, j, b) && (b == |s| || !IsSpace(s[b]))
    ensures SkipSpaces(s, j) == b
  {
  }

  /** A run of value characters from `j` ending before a non-value character is the one ValueEnd finds. */
  lemma ValueEndUnique(s: string, j: nat, b: nat)
    requires j <= b && AllValueChars(s, j, b) && (b == |s| || !IsValueChar(s[b]))
    ensures ValueEnd(s, j) == b
  {
  }

  /** A run of value characters from `j` never reaches past ValueEnd. */
  lemma ValueRunWithin(s: string, j: nat, b: nat)
    requires j <= b && AllValueChars(s, j, b)
    ensures b <= ValueEnd(s, j)
  {
  }
}
