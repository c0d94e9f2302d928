/** What the two base64 decoders (base64.c, handler.c) accept, and the numbers that their digits spell, each group
    being read as one number of 24 bits. */
module Base64Meaning {
  import opened Bytes
  import opened Options
  import opened Sextets
  import opened Base64
  import D = Decoding

  // ----- one group -----

  /** Bytes read as one number, the most significant one first. */
  function Number(x: seq<int>): int {
    if x == [] then 0 else Number(x[..|x| - 1]) * 256 + x[|x| - 1]
  }

  lemma NumberMore(x: seq<int>, b: int)
    ensures Number(x + [b]) == Number(x) * 256 + b
  {
    assert (x + [b])[..|x|] == x;
  }

  lemma NumberOfThree(x: seq<int>)
    requires 1 <= |x| <= 3
    ensures Number(x) == if |x| == 1 then x[0] else if |x| == 2 then x[0] * 256 + x[1]
                         else (x[0] * 256 + x[1]) * 256 + x[2]
  {
    assert x[..0] == [] && x[..1] == [] + [x[0]];
    NumberMore([], x[0]);
    if |x| > 1 {
      assert x[..2] == x[..1] + [x[1]];
      NumberMore(x[..1], x[1]);
    }
    if |x| > 2 {
      assert x[..3] == x[..2] + [x[2]];
      NumberMore(x[..2], x[2]);
    }
    assert x[..|x|] == x;
  }

  lemma SpelledFour(a: Byte, b: Byte, c: Byte, d: Byte)
    ensures Spelled([a, b]) == Value(a) * 64 + Value(b)
    ensures Spelled([a, b, c]) == (Value(a) * 64 + Value(b)) * 64 + Value(c)
    ensures Spelled([a, b, c, d]) == ((Value(a) * 64 + Value(b)) * 64 + Value(c)) * 64 + Value(d)
  {
    SpelledMore([], a);
    SpelledMore([a], b);
    SpelledMore([a, b], c);
    SpelledMore([a, b, c], d);
    assert [] + [a] == [a] && [a] + [b] == [a, b] && [a, b] + [c] == [a, b, c] && [a, b, c] + [d] == [a, b, c, d];
  }

  /** The bytes of a group are the number its digits spell, the bits beyond the last whole byte being dropped. */
  lemma GroupSpells(a: Byte, b: Byte, c: Byte, d: Byte)
    requires GoodGroup(a, b, c, d)
    ensures var x := GroupBytes(a, b, c, d);
            if c == PAD then |x| == 1 && Number(x) == Spelled([a, b]) / 16
            else if d == PAD then |x| == 2 && Number(x) == Spelled([a, b, c]) / 4
            else |x| == 3 && Number(x) == Spelled([a, b, c, d])
  {
    NumberOfThree(GroupBytes(a, b, c, d));
    SpelledFour(a, b, c, d);
  }

  /** The decoder of bodies gets the same from a group that the other one accepts. */
  lemma SameOctets(a: Byte, b: Byte, c: Byte, d: Byte)
    requires GoodGroup(a, b, c, d)
    ensures D.Octets(a, b, c, d) == GroupBytes(a, b, c, d)
  {
  }

  /** The values of a group after the first. */
  function Later(b: Byte, c: Byte, d: Byte): seq<int> {
    if c == PAD then [] else [D.Octet2(b, c)] + if d == PAD then [] else [D.Octet3(c, d)]
  }

  lemma OctetsInTwo(a: Byte, b: Byte, c: Byte, d: Byte)
    ensures D.Octets(a, b, c, d) == [D.Octet1(a, b)] + Later(b, c, d)
    ensures D.Chars(D.Octets(a, b, c, d)) == [D.Octet1(a, b) % 256] + D.Chars(Later(b, c, d))
  {
    OneChar(D.Octet1(a, b), Later(b, c, d));
  }

  /** It takes misplaced pads as well: one in the first place counts as 63, and so does one in the second, but that it
      makes the first byte 255. */
  lemma MisplacedPads(a: Byte, b: Byte, c: Byte, d: Byte, slash: Byte)
    requires Value(slash) == 63
    ensures Value(b) >= 0 ==> D.Chars(D.Octets(PAD, b, c, d)) == D.Chars(D.Octets(slash, b, c, d))
    ensures D.Chars(D.Octets(a, PAD, c, d)) == [255] + D.Chars(D.Octets(a, slash, c, d))[1..]
  {
    OctetsInTwo(PAD, b, c, d);
    OctetsInTwo(slash, b, c, d);
    OctetsInTwo(a, PAD, c, d);
    OctetsInTwo(a, slash, c, d);
    SamePlaces(b, slash);
    SameLater(c, d, slash);
  }

  lemma SamePlaces(b: Byte, slash: Byte)
    requires Value(slash) == 63
    ensures Value(b) >= 0 ==> D.Octet1(PAD, b) % 256 == D.Octet1(slash, b) % 256
    ensures forall a :: D.Octet1(a, PAD) % 256 == 255
  {
  }

  lemma SameLater(c: Byte, d: Byte, slash: Byte)
    requires Value(slash) == 63
    ensures Later(PAD, c, d) == Later(slash, c, d)
  {
  }

  lemma OneChar(v: int, rest: seq<int>)
    ensures D.Chars([v] + rest) == [v % 256] + D.Chars(rest)
  {
    D.CharsAppend([v], rest);
    assert D.Chars([v]) == D.Chars([]) + [v % 256] by {
      assert [v][..0] == [];
    }
  }

  // ----- whole texts -----

  predicate GoodAt(s: seq<Byte>, j: nat)
    requires 4 * j + 4 <= |s|
  {
    GoodGroup(s[4 * j], s[4 * j + 1], s[4 * j + 2], s[4 * j + 3])
  }

  /** The text begins with k good groups, of which only the last may end with a pad, and ends there unless it does. */
  ghost predicate Accepted(s: seq<Byte>, k: nat) {
    0 < 4 * k <= |s| && (forall j: nat :: j < k ==> GoodAt(s, j)) &&
    (forall j: nat :: j < k - 1 ==> s[4 * j + 3] != PAD) && (4 * k == |s| || s[4 * k - 1] == PAD)
  }

  lemma AcceptedMore(s: seq<Byte>, k: nat)
    requires |s| > 4 && GoodAt(s, 0) && s[3] != PAD
    ensures Accepted(s, k + 1) <==> Accepted(s[4..], k)
  {
    var t := s[4..];
    if 4 * k + 4 <= |s| {
      forall j: nat | j < k ensures GoodAt(t, j) == GoodAt(s, j + 1) {
        assert t[4 * j] == s[4 * (j + 1)];
      }
      forall j: nat | j < k ensures t[4 * j + 3] == s[4 * (j + 1) + 3] {
      }
    }
    if Accepted(s, k + 1) {
      assert k > 0;
      forall j: nat | j < k ensures GoodAt(t, j) {
        assert GoodAt(s, j + 1);
      }
      forall j: nat | j < k - 1 ensures t[4 * j + 3] != PAD {
        assert s[4 * (j + 1) + 3] != PAD;
      }
    }
    if Accepted(t, k) {
      forall j: nat | j < k + 1 ensures GoodAt(s, j) {
        assert j > 0 ==> GoodAt(t, j - 1);
      }
      forall j: nat | j < k ensures s[4 * j + 3] != PAD {
        assert j > 0 ==> t[4 * (j - 1) + 3] != PAD;
      }
    }
  }

  /** mutt_from_base64 accepts a text if and only if it is made of complete groups of digits, pads standing only in the
      last two places of a group, up to its end or to a group that ends with a pad; what follows that is ignored. */
  lemma {:induction false} ParsesIff(s: seq<Byte>)
    ensures Parse(s).Some? <==> exists k: nat :: Accepted(s, k)
  {
    if |s| < 4 || !GoodGroup(s[0], s[1], s[2], s[3]) {
      assert forall k: nat :: Accepted(s, k) ==> GoodAt(s, 0);
    } else if |s| == 4 || s[3] == PAD {
      assert Accepted(s, 1);
    } else {
      ParsesIff(s[4..]);
      if k: nat :| Accepted(s[4..], k) {
        AcceptedMore(s, k);
      }
      if k: nat :| Accepted(s, k) {
        assert k > 0;
        AcceptedMore(s, k - 1);
      }
    }
  }

  lemma ParseMore(s: seq<Byte>)
    requires |s| > 4 && GoodAt(s, 0) && s[3] != PAD && Parse(s[4..]).Some?
    ensures Parse(s) == Some(GroupBytes(s[0], s[1], s[2], s[3]) + Parse(s[4..]).value)
  {
  }

  lemma FirstFour(s: seq<Byte>)
    requires |s| >= 4
    ensures s[..4] == [s[0], s[1], s[2], s[3]] && s == s[..4] + s[4..]
  {
  }

  lemma SpelledInTwo(s: seq<Byte>)
    requires |s| >= 4
    ensures Spelled(s) == Spelled([s[0], s[1], s[2], s[3]]) * Power(64, |s| - 4) + Spelled(s[4..])
  {
    var q, r := s[..4], s[4..];
    FirstFour(s);
    SpelledBoth(q, r);
  }

  /** On digits without pads the bytes are the number that all of them spell. */
  lemma {:induction false} ParsedNumber(s: seq<Byte>)
    requires |s| % 4 == 0 && s != [] && forall i :: 0 <= i < |s| ==> Value(s[i]) >= 0
    ensures Parse(s).Some? && 4 * |Parse(s).value| == 3 * |s| && Number(Parse(s).value) == Spelled(s)
  {
    var bytes := GroupBytes(s[0], s[1], s[2], s[3]);
    GroupSpells(s[0], s[1], s[2], s[3]);
    if |s| == 4 {
      assert s == [s[0], s[1], s[2], s[3]];
    } else {
      ParsedNumber(s[4..]);
      ParseMore(s);
      SpelledInTwo(s);
      NumberBoth(bytes, Parse(s[4..]).value);
      SamePower((|s| - 4) / 4);
    }
  }

  function Power(base: nat, n: nat): nat {
    if n == 0 then 1 else base * Power(base, n - 1)
  }

  lemma {:induction false} SpelledBoth(q: seq<Byte>, r: seq<Byte>)
    ensures Spelled(q + r) == Spelled(q) * Power(64, |r|) + Spelled(r)
  {
    if r == [] {
      assert q + r == q;
    } else {
      var n := |r| - 1;
      SpelledBoth(q, r[..n]);
      assert (q + r)[..|q + r| - 1] == q + r[..n] && (q + r)[|q + r| - 1] == r[n];
      assert Spelled(q) * Power(64, n) * 64 == Spelled(q) * (64 * Power(64, n));
    }
  }

  lemma {:induction false} NumberBoth(x: seq<int>, y: seq<int>)
    ensures Number(x + y) == Number(x) * Power(256, |y|) + Number(y)
  {
    if y == [] {
      assert x + y == x;
    } else {
      var n := |y| - 1;
      NumberBoth(x, y[..n]);
      assert (x + y)[..|x + y| - 1] == x + y[..n] && (x + y)[|x + y| - 1] == y[n];
      assert Number(x) * Power(256, n) * 256 == Number(x) * (256 * Power(256, n));
    }
  }

  lemma {:induction false} SamePower(k: nat)
    ensures Power(64, 4 * k) == Power(256, 3 * k)
  {
    if k > 0 {
      SamePower(k - 1);
      assert Power(64, 4 * k) == 64 * Power(64, 4 * k - 1) && Power(64, 4 * k - 1) == 64 * Power(64, 4 * k - 2);
      assert Power(64, 4 * k - 2) == 64 * Power(64, 4 * k - 3) && Power(64, 4 * k - 3) == 64 * Power(64, 4 * (k - 1));
      assert Power(256, 3 * k) == 256 * Power(256, 3 * k - 1) && Power(256, 3 * k - 1) == 256 * Power(256, 3 * k - 2);
      assert Power(256, 3 * k - 2) == 256 * Power(256, 3 * (k - 1));
    }
  }
}
