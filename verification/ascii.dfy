/**
 The character classification the game relies on: C's `tolower` and
 `isalpha` as they behave in the default "C" locale, where only the 52 ASCII
 letters are alphabetic and only the 26 upper-case ones have a lower-case
 counterpart.
 */
module Ascii {

  /** The two ASCII alphabets, in order; an independent table for the case mapping. */
  const UpperAlphabet: string := "ABCDEFGHIJKLMNOPQRSTUVWXYZ"
  const LowerAlphabet: string := "abcdefghijklmnopqrstuvwxyz"

  predicate IsUpper(c: char) {
    'A' <= c <= 'Z'
  }

  predicate IsLower(c: char) {
    'a' <= c <= 'z'
  }

  /** `isalpha` in the "C" locale. */
  predicate IsAlpha(c: char) {
    IsUpper(c) || IsLower(c)
  }

  /** `tolower` in the "C" locale: upper-case letters move to lower case, every other character is returned as is. */
  function ToLower(c: char): (r: char)
    ensures !IsUpper(r)
    ensures IsAlpha(r) <==> IsAlpha(c)
    ensures IsAlpha(r) ==> IsLower(r)
    ensures !IsUpper(c) ==> r == c
  {
    if IsUpper(c) then (c as int - 'A' as int + 'a' as int) as char else c
  }

  /** The case mapping agrees with the alphabet tables, letter by letter. */
  lemma ToLowerFollowsAlphabet(k: nat)
    requires k < 26
    ensures ToLower(UpperAlphabet[k]) == LowerAlphabet[k]
    ensures ToLower(LowerAlphabet[k]) == LowerAlphabet[k]
  {
  }
}
