/** The field constraints shared by the entities. */
module Constraints {

  /** A string is blank when trimming leaves nothing: `String.trim` strips every character
      up to U+0020 from both ends, so blank means every character is at most a space.
      `@NotBlank` accepts exactly the strings that are not blank. */
  predicate IsBlank(s: string) {
    forall i | 0 <= i < |s| :: s[i] <= ' '
  }

  /** A string with a character above U+0020 is not blank. */
  lemma {:induction false} NotBlankWitness(s: string, i: int)
    requires 0 <= i < |s| && s[i] > ' '
    ensures !IsBlank(s)
  {
  }

  predicate IsAsciiLetter(c: char) {
    'a' <= c <= 'z' || 'A' <= c <= 'Z'
  }

  predicate IsAsciiDigit(c: char) {
    '0' <= c <= '9'
  }
}
