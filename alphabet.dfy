/** The fixed 26-letter alphabet the cipher works over, and the lookup of a
    letter's position in it (Ruby's `@@ALPHABET.index(c)`). */
module Alphabet {

  const LETTERS: string := "abcdefghijklmnopqrstuvwxyz"

  /** Number of letters; every shift and index is taken modulo this. */
  const SIZE: nat := 26

  predicate IsLetter(c: char) {
    'a' <= c <= 'z'
  }

  /** Every character of `s` belongs to the alphabet. */
  predicate IsText(s: string) {
    forall i :: 0 <= i < |s| ==> IsLetter(s[i])
  }

  /** The position of `c` in LETTERS: the first (and only) place it occurs. */
  function Index(c: char): (i: nat)
    requires IsLetter(c)
    ensures i < SIZE && |LETTERS| == SIZE
    ensures LETTERS[i] == c
    ensures forall j :: 0 <= j < i ==> LETTERS[j] != c
  {
    LettersAreConsecutive();
    (c as int) - ('a' as int)
  }

  /** The letter at position `i` of the alphabet. */
  function Letter(i: nat): (c: char)
    requires i < SIZE
    ensures IsLetter(c) && Index(c) == i
  {
    LettersAreConsecutive();
    LETTERS[i]
  }

  lemma LettersAreConsecutive()
    ensures |LETTERS| == SIZE
    ensures forall i :: 0 <= i < SIZE ==> LETTERS[i] as int == 'a' as int + i
  {
  }
}
