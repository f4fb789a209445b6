/**
 * Case conversion of guesses and letters. Only ASCII letters change case:
 * the words of the game are five ASCII letters.
 */
module Text {

  /** Upper-case form of one character (`str.upper` restricted to ASCII). */
  function UpperChar(c: char): (u: char)
    // upper-casing leaves no lower-case letter behind
    ensures !('a' <= u <= 'z')
    // a lower-case letter becomes an upper-case one; nothing else is touched
    ensures 'a' <= c <= 'z' ==> 'A' <= u <= 'Z'
    ensures !('a' <= c <= 'z') ==> u == c
  {
    if 'a' <= c <= 'z' then (c as int - 32) as char else c
  }

  /** Lower-case form of one character (`str.lower` restricted to ASCII). */
  function LowerChar(c: char): (l: char)
    // lower-casing leaves no upper-case letter behind
    ensures !('A' <= l <= 'Z')
    // an upper-case letter becomes a lower-case one; nothing else is touched
    ensures 'A' <= c <= 'Z' ==> 'a' <= l <= 'z'
    ensures !('A' <= c <= 'Z') ==> l == c
  {
    if 'A' <= c <= 'Z' then (c as int + 32) as char else c
  }

  /** Lower-casing undoes upper-casing on a lower-case letter. */
  lemma LowerUndoesUpper(c: char)
    requires 'a' <= c <= 'z'
    ensures LowerChar(UpperChar(c)) == c
  {
  }

  /** Upper-casing undoes lower-casing on an upper-case letter. */
  lemma UpperUndoesLower(c: char)
    requires 'A' <= c <= 'Z'
    ensures UpperChar(LowerChar(c)) == c
  {
  }

  /** Upper-case form of a string, character by character. */
  function Upper(s: string): string
  {
    seq(|s|, i requires 0 <= i < |s| => UpperChar(s[i]))
  }

  /** Lower-case form of a string, character by character. */
  function Lower(s: string): string
  {
    seq(|s|, i requires 0 <= i < |s| => LowerChar(s[i]))
  }

  /** Upper-casing keeps the length, so a length check before or after it agrees. */
  lemma UpperKeepsLength(s: string)
    ensures |Upper(s)| == |s|
  {
  }

  /** Upper-casing is idempotent: an upper-cased guess upper-cased again is unchanged. */
  lemma UpperIdempotent(s: string)
    ensures Upper(Upper(s)) == Upper(s)
  {
  }

  /** A text and its lower-case form upper-case to the same guess. */
  lemma UpperIgnoresCase(s: string)
    ensures Upper(Lower(s)) == Upper(s)
  {
  }

  /**
   * Two texts upper-case to the same guess exactly when they differ only in
   * case, that is when their lower-case forms agree: comparing upper-cased
   * guesses compares them regardless of case.
   */
  lemma SameGuessIffSameIgnoringCase(a: string, b: string)
    ensures Upper(a) == Upper(b) <==> Lower(a) == Lower(b)
  {
    if Upper(a) == Upper(b) {
      LowerOfUpperIsLower(a);
      LowerOfUpperIsLower(b);
    }
    if Lower(a) == Lower(b) {
      UpperIgnoresCase(a);
      UpperIgnoresCase(b);
    }
  }

  /** Lower-casing an upper-cased text gives its lower-case form. */
  lemma LowerOfUpperIsLower(s: string)
    ensures Lower(Upper(s)) == Lower(s)
  {
  }
}
