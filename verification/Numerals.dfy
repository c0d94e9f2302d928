/** Numbers written in decimal digits. */
module Numerals {
  predicate IsDecimal(c: char) {
    '0' <= c <= '9'
  }

  predicate AllDecimal(s: string) {
    forall i :: 0 <= i < |s| ==> IsDecimal(s[i])
  }

  /** printf ("%d", n) */
  function Decimal(n: nat): (s: string)
    ensures s != "" && '\n' !in s
  {
    if n < 10 then [('0' as int + n) as char] else Decimal(n / 10) + [('0' as int + n % 10) as char]
  }

  /** The number that digits spell, read from the left after digits that spell n. */
  function Reading(s: string, n: nat): nat
    requires AllDecimal(s)
  {
    if s == "" then n
    else
      assert IsDecimal(s[0]);
      Reading(s[1..], 10 * n + (s[0] - '0') as int)
  }

  lemma {:induction false} ReadingMore(s: string, c: char, n: nat)
    requires AllDecimal(s) && IsDecimal(c)
    ensures AllDecimal(s + [c]) && Reading(s + [c], n) == 10 * Reading(s, n) + (c - '0') as int
  {
    if s == "" {
      assert s + [c] == [c] && [c][1..] == "";
    } else {
      assert (s + [c])[1..] == s[1..] + [c];
      ReadingMore(s[1..], c, 10 * n + (s[0] - '0') as int);
    }
  }

  /** Reading a printed number gives the number, and there is no leading zero. */
  lemma {:induction false} ReadingDecimal(n: nat)
    ensures AllDecimal(Decimal(n)) && Reading(Decimal(n), 0) == n
    ensures Decimal(n)[0] == '0' ==> n == 0
  {
    if n < 10 {
      assert Decimal(n)[1..] == "";
    } else {
      ReadingDecimal(n / 10);
      ReadingMore(Decimal(n / 10), ('0' as int + n % 10) as char, 0);
    }
  }

  /** Ten is the base. */
  lemma OneZero()
    ensures AllDecimal("10") && Reading("10", 0) == 10 && Decimal(10) == "10"
  {
    assert "10"[1..] == "0" && "0"[1..] == "";
    assert Decimal(1) == "1";
  }
}
