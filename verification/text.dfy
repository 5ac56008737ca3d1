/**
 * Case-insensitive comparison of strings as the catalog queries use it
 * (`a.toLowerCase() === b.toLowerCase()`), restricted to ASCII letters.
 */
module Text {

  /** Maps 'A'..'Z' to 'a'..'z' and leaves every other character alone. */
  function LowerChar(c: char): char {
    if 'A' <= c <= 'Z' then (c as int + 32) as char else c
  }

  /** `String.prototype.toLowerCase` on the ASCII range: character by character. */
  function Lower(s: string): (r: string)
    ensures |r| == |s|
    ensures forall i :: 0 <= i < |s| ==> r[i] == LowerChar(s[i])
  {
    seq(|s|, i requires 0 <= i < |s| => LowerChar(s[i]))
  }

  /** Two strings are equal up to case. */
  predicate SameIgnoringCase(a: string, b: string) {
    Lower(a) == Lower(b)
  }

  /**
   * Strings of different lengths never agree up to case: in particular a
   * proper substring of a field (say "Fitzgerald" of "F. Scott Fitzgerald")
   * does not match it.
   */
  lemma DifferentLengthsNeverMatch(a: string, b: string)
    requires |a| != |b|
    ensures !SameIgnoringCase(a, b)
  {
  }

  /** The empty query agrees up to case with the empty string only. */
  lemma EmptyMatchesOnlyEmpty(s: string)
    ensures SameIgnoringCase(s, "") <==> s == ""
  {
  }
}
