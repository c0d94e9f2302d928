/** Letters without regard to case, in the C locale. */
module Ascii {
  function LowerChar(c: char): char {
    if 'A' <= c <= 'Z' then c - 'A' + 'a' else c
  }

  const UPPER := "ABCDEFGHIJKLMNOPQRSTUVWXYZ"
  const LOWER := "abcdefghijklmnopqrstuvwxyz"

  /** Each capital has its small letter, and every other character stays. */
  lemma LowerLetters(c: char)
    ensures forall i :: 0 <= i < 26 && UPPER[i] == c ==> LowerChar(c) == LOWER[i]
    ensures c !in UPPER ==> LowerChar(c) == c
  {
    forall i | 0 <= i < 26
      ensures UPPER[i] == 'A' + i as char && LOWER[i] == 'a' + i as char
    {
    }
    if 'A' <= c <= 'Z' {
      assert UPPER[(c - 'A') as int] == c;
    }
  }
}
