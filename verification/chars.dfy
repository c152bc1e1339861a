/** Case folding of titles and prefixes.

    The system lower-cases every title before it enters the index and every
    prefix before it is looked up. This module fixes that folding to ASCII:
    'A'..'Z' map to 'a'..'z' and every other character is left alone, so a
    folded string has the same length as the original.
 */
module Chars {

  /** Lower-case one character (ASCII letters only): the result is never an
      upper-case letter, and a character that is not one is kept. */
  function LowerChar(c: char): (r: char)
    ensures !('A' <= r <= 'Z')
    ensures !('A' <= c <= 'Z') ==> r == c
  {
    if 'A' <= c <= 'Z' then (c as int + 32) as char else c
  }

  /** Upper-case one character (ASCII letters only). */
  function UpperChar(c: char): (r: char)
    ensures LowerChar(r) == LowerChar(c)
  {
    if 'a' <= c <= 'z' then (c as int - 32) as char else c
  }

  /** The lower-cased form of a string, character by character: as long as
      the original, and already folded. */
  function Lower(s: string): (r: string)
    ensures |r| == |s|
    ensures IsLower(r)
  {
    seq(|s|, i requires 0 <= i < |s| => LowerChar(s[i]))
  }

  /** The upper-cased form of a string, character by character: as long as
      the original, and folding it gives the original's folding. */
  function Upper(s: string): (r: string)
    ensures |r| == |s|
    ensures forall i :: 0 <= i < |s| ==> LowerChar(r[i]) == LowerChar(s[i])
  {
    seq(|s|, i requires 0 <= i < |s| => UpperChar(s[i]))
  }

  /** Two strings are equal once both are lower-cased. */
  predicate EqualIgnoringCase(a: string, b: string)
  {
    Lower(a) == Lower(b)
  }

  /** A string is folded when lower-casing leaves it unchanged. */
  predicate IsLower(s: string)
  {
    forall i :: 0 <= i < |s| ==> LowerChar(s[i]) == s[i]
  }

  lemma LowerIsLower(s: string)
    ensures IsLower(Lower(s))
    ensures Lower(Lower(s)) == Lower(s)
  {
  }

  lemma LowerOfLowerIsSelf(s: string)
    requires IsLower(s)
    ensures Lower(s) == s
  {
  }

  /** Folding an upper-cased string gives the same result as folding the original. */
  lemma LowerUpper(s: string)
    ensures Lower(Upper(s)) == Lower(s)
  {
  }

  /** Folding distributes over concatenation. */
  lemma LowerAppend(a: string, b: string)
    ensures Lower(a + b) == Lower(a) + Lower(b)
  {
  }

  /** Folding commutes with taking a prefix or a suffix. */
  lemma LowerSlice(s: string, k: nat)
    requires k <= |s|
    ensures Lower(s[..k]) == Lower(s)[..k]
    ensures Lower(s[k..]) == Lower(s)[k..]
  {
  }
}
