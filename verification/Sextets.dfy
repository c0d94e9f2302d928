/** The base64 alphabet, and three bytes as four digits. */
module Sextets {
  import opened Bytes

  // The groups of section 6.8 of RFC 2045.

  const CR: Byte := 13
  const LF: Byte := 10
  const PAD: Byte := 61

  /** B64Chars: the digit of a six-bit value. */
  function Digit(v: int): (c: Byte)
    requires 0 <= v < 64
    ensures Value(c) == v && c != PAD && c != LF && c < 128
  {
    if v < 26 then 65 + v else if v < 52 then 97 + v - 26 else if v < 62 then 48 + v - 52
        else if v == 62 then 43 else 47
  }

  /** Index_64: the value of a digit, -1 for any other character. */
  function Value(c: int): (v: int)
    ensures -1 <= v < 64
  {
    if 65 <= c <= 90 then c - 65
    else if 97 <= c <= 122 then c - 97 + 26
    else if 48 <= c <= 57 then c - 48 + 52
    else if c == 43 then 62
    else if c == 47 then 63
    else -1
  }

  const CAPITALS := "ABCDEFGHIJKLMNOPQRSTUVWXYZ"
  const SMALL := "abcdefghijklmnopqrstuvwxyz"
  const OTHERS := "0123456789+/"

  /** The digits are the capital letters, the small letters, the decimal digits, + and /, in this order (table 1 of
      RFC 2045). */
  lemma Alphabet(v: int)
    requires 0 <= v < 64
    ensures Digit(v) ==
            (if v < 26 then CAPITALS[v] else if v < 52 then SMALL[v - 26] else OTHERS[v - 52]) as int
  {
    if v < 26 {
      LettersInOrder(v);
    } else if v < 52 {
      LettersInOrder(v - 26);
    } else {
      assert forall k :: 0 <= k < 10 ==> OTHERS[k] as int == 48 + k;
    }
  }

  /** And nothing else is a digit. */
  lemma OnlyDigits(c: Byte)
    ensures Value(c) >= 0 ==> Digit(Value(c)) == c
  {
  }

  lemma LettersInOrder(k: int)
    requires 0 <= k < 26
    ensures CAPITALS[k] as int == 65 + k && SMALL[k] as int == 97 + k
  {
  }

  function First(a: Byte): (d: Byte)
    ensures Value(d) == a / 4 && d != PAD
  {
    Digit(a / 4)
  }

  function Second(a: Byte, b: Byte): (d: Byte)
    ensures Value(d) == a % 4 * 16 + b / 16 && d != PAD
  {
    Digit(a % 4 * 16 + b / 16)
  }

  function Third(b: Byte, c: Byte): (d: Byte)
    ensures Value(d) == b % 16 * 4 + c / 64 && d != PAD
  {
    Digit(b % 16 * 4 + c / 64)
  }

  function Fourth(c: Byte): (d: Byte)
    ensures Value(d) == c % 64 && d != PAD
  {
    Digit(c % 64)
  }

  /** The four digits of one to three bytes, padded. */
  function Quad(x: seq<Byte>): (q: seq<Byte>)
    ensures |q| == if x == [] then 0 else 4
  {
    if |x| == 0 then []
    else if |x| == 1 then [First(x[0]), Second(x[0], 0), PAD, PAD]
    else if |x| == 2 then [First(x[0]), Second(x[0], x[1]), Third(x[1], 0), PAD]
    else [First(x[0]), Second(x[0], x[1]), Third(x[1], x[2]), Fourth(x[2])]
  }

  /** The number that the digits spell in base 64. */
  function Spelled(q: seq<Byte>): int {
    if q == [] then 0 else Spelled(q[..|q| - 1]) * 64 + Value(q[|q| - 1])
  }

  lemma SpelledMore(q: seq<Byte>, d: Byte)
    ensures Spelled(q + [d]) == Spelled(q) * 64 + Value(d)
  {
    assert (q + [d])[..|q|] == q;
  }

  /** Three bytes read as one number of 24 bits are the number that their four digits spell; two bytes are shifted up
      by two bits, and one byte by four. */
  lemma QuadSpells(x: seq<Byte>)
    requires 1 <= |x| <= 3
    ensures var a: int, b: int, c: int := x[0], if |x| > 1 then x[1] else 0, if |x| > 2 then x[2] else 0;
            if |x| == 1 then Spelled(Quad(x)[..2]) == a * 16 && Quad(x)[2..] == [PAD, PAD]
            else if |x| == 2 then Spelled(Quad(x)[..3]) == (a * 256 + b) * 4 && Quad(x)[3..] == [PAD]
            else Spelled(Quad(x)) == (a * 256 + b) * 256 + c
  {
    var q := Quad(x);
    assert q[..0] == [] && q[..1] == [] + [q[0]] && q[..2] == q[..1] + [q[1]];
    SpelledMore([], q[0]);
    SpelledMore(q[..1], q[1]);
    assert q[..3] == q[..2] + [q[2]] && q == q[..3] + [q[3]];
    SpelledMore(q[..2], q[2]);
    SpelledMore(q[..3], q[3]);
  }

  /** A function of three bytes at a time, the last group being what remains. */
  function ByThrees(f: seq<Byte> -> seq<Byte>, x: seq<Byte>): seq<Byte> {
    if |x| < 3 then f(x) else f(x[..3]) + ByThrees(f, x[3..])
  }

  lemma {:induction false} ByThreesAppend(f: seq<Byte> -> seq<Byte>, x: seq<Byte>, y: seq<Byte>)
    requires |x| % 3 == 0 && f([]) == []
    ensures ByThrees(f, x + y) == ByThrees(f, x) + ByThrees(f, y)
  {
    if x == [] {
      assert x + y == y;
    } else {
      ByThreesAppend(f, x[3..], y);
      assert (x + y)[..3] == x[..3] && (x + y)[3..] == x[3..] + y;
    }
  }

  function Encode(x: seq<Byte>): seq<Byte> {
    ByThrees(Quad, x)
  }

  predicate IsDigit(c: Byte) {
    Value(c) != -1 || c == PAD
  }

  lemma QuadIsDigits(x: seq<Byte>)
    ensures forall k :: 0 <= k < |Quad(x)| ==> IsDigit(Quad(x)[k])
  {
  }

  lemma {:induction false} EncodeIsDigits(x: seq<Byte>)
    ensures forall k :: 0 <= k < |Encode(x)| ==> IsDigit(Encode(x)[k])
  {
    if |x| < 3 {
      QuadIsDigits(x);
    } else {
      QuadIsDigits(x[..3]);
      EncodeIsDigits(x[3..]);
      assert Encode(x) == Quad(x[..3]) + Encode(x[3..]);
    }
  }

  /** Complete groups can be encoded on their own. */
  lemma EncodeAppend(x: seq<Byte>, y: seq<Byte>)
    requires |x| % 3 == 0
    ensures Encode(x + y) == Encode(x) + Encode(y)
  {
    ByThreesAppend(Quad, x, y);
  }

  // ----- the bytes of a group, from its digits -----

  predicate IsFirst(p: Byte, q: Byte, a: Byte) {
    Value(p) >= 0 && Value(q) >= 0 && Value(p) * 4 + Value(q) / 16 == a
  }

  predicate IsSecond(q: Byte, r: Byte, b: Byte) {
    r != PAD && Value(q) >= 0 && Value(r) >= 0 && Value(q) % 16 * 16 + Value(r) / 4 == b
  }

  predicate IsThird(r: Byte, s: Byte, c: Byte) {
    s != PAD && Value(r) >= 0 && Value(s) >= 0 && Value(r) % 4 * 64 + Value(s) == c
  }

  /** The digits of a group determine its bytes. */
  lemma FirstOfQuad(a: Byte, b: Byte)
    ensures IsFirst(First(a), Second(a, b), a)
  {
  }

  lemma SecondOfQuad(a: Byte, b: Byte, c: Byte)
    ensures IsSecond(Second(a, b), Third(b, c), b)
  {
    Packed(a % 4, b / 16, 16);
    Packed(b % 16, c / 64, 4);
    assert b == b / 16 * 16 + b % 16;
  }

  lemma ThirdOfQuad(b: Byte, c: Byte)
    ensures IsThird(Third(b, c), Fourth(c), c)
  {
    Packed(b % 16, c / 64, 4);
    assert c == c / 64 * 64 + c % 64;
  }

  /** Two numbers packed into one. */
  lemma Packed(high: int, low: int, unit: int)
    requires 0 <= low < unit && (unit == 4 || unit == 16)
    ensures (high * unit + low) / unit == high && (high * unit + low) % unit == low
  {
  }
}
