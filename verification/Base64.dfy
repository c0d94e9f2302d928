/** Base64 for authentication exchanges (base64.c). */
module Base64 {
  import opened Options
  import opened Bytes
  import opened Sextets

  // ----- encoding into a buffer of limited size -----

  /** How many of n bytes mutt_to_base64 encodes into a buffer of the given size. */
  function Fitting(n: nat, size: nat): (m: nat)
    ensures m <= n
  {
    if n >= 3 && size > 10 then 3 + Fitting(n - 3, size - 4)
    else if n > 0 && size > 4 then (if n < 2 then n else 2)
    else 0
  }

  /** The encoding and its NUL never overrun the buffer. */
  lemma {:induction false} FittingFits(x: seq<Byte>, size: nat)
    requires size >= 1
    ensures |Encode(x[..Fitting(|x|, size)])| + 1 <= size
  {
    var m := Fitting(|x|, size);
    if |x| >= 3 && size > 10 {
      FittingFits(x[3..], size - 4);
      assert x[..m][..3] == x[..3] && x[..m][3..] == x[3..][..m - 3];
    }
  }

  /** Everything is encoded exactly when there is nothing to encode, or room for a short input, or more than six
      bytes beside the complete groups. */
  predicate Roomy(n: nat, size: nat) {
    n == 0 || (n < 3 && size > 4) || (n >= 3 && size > n / 3 * 4 + 6)
  }

  lemma {:induction false} AllFitIff(n: nat, size: nat)
    ensures Fitting(n, size) == n <==> Roomy(n, size)
  {
    if n >= 3 && size > 10 {
      AllFitIff(n - 3, size - 4);
    }
  }

  /** mutt_to_base64. */
  method ToBase64(out: array<Byte>, x: seq<Byte>, size: nat) returns (ghost k: nat)
    requires 1 <= size <= out.Length
    modifies out
    ensures k < size && out[k] == 0 && out[..k] == Encode(x[..Fitting(|x|, size)])
    ensures forall j :: size <= j < out.Length ==> out[j] == old(out[j])
  {
    var o, i, len, olen := 0, 0, |x|, size;
    while len >= 3 && olen > 10
      invariant 0 <= len && i == |x| - len && 0 <= i && i % 3 == 0 && 0 <= o && o + olen == size
      invariant out[..o] == Encode(x[..i]) && Fitting(|x|, size) == i + Fitting(len, olen)
      invariant olen >= 1
      invariant forall j :: size <= j < out.Length ==> out[j] == old(out[j])
    {
      PutTriple(out, o, x, i);
      o, olen, len, i := o + 4, olen - 4, len - 3, i + 3;
    }
    k := PutLast(out, o, x, i, len, olen);
  }

  /** One or two more bytes if there is room for them, and the NUL. */
  method PutLast(out: array<Byte>, o: nat, x: seq<Byte>, i: nat, len: nat, olen: nat) returns (k: nat)
    requires i % 3 == 0 && i + len == |x| && olen >= 1 && o + olen <= out.Length && out[..o] == Encode(x[..i])
    requires len < 3 || olen <= 10
    modifies out
    ensures o <= k < o + olen && out[k] == 0 && out[..k] == Encode(x[..i + Fitting(len, olen)])
    ensures forall j :: o + olen <= j < out.Length ==> out[j] == old(out[j])
  {
    k := o;
    if len > 0 && olen > 4 {
      PutRemainder(out, o, x, i, len);
      k := o + 4;
    }
    out[k] := 0;
  }

  /** Shifting left and masking to six bits keeps the low two, or four. */
  lemma LowTwo(a: int)
    ensures a * 16 % 64 == a % 4 * 16
  {
    var q, r := a / 4, a % 4;
    assert a * 16 == 64 * q + 16 * r;
  }

  lemma LowFour(a: int)
    ensures a * 4 % 64 == a % 16 * 4
  {
    var q, r := a / 16, a % 16;
    assert a * 4 == 64 * q + 4 * r;
  }

  /** And to eight bits. */
  lemma LowFourOfByte(v: int)
    ensures v * 16 % 256 == v % 16 * 16
  {
    var q, r := v / 16, v % 16;
    assert v * 16 == 256 * q + 16 * r;
  }

  lemma LowTwoOfByte(v: int)
    ensures v * 64 % 256 == v % 4 * 64
  {
    var q, r := v / 4, v % 4;
    assert v * 64 == 256 * q + 64 * r;
  }

  method PutFour(out: array<Byte>, o: nat, a: Byte, b: Byte, c: Byte, d: Byte)
    requires o + 4 <= out.Length
    modifies out
    ensures out[..o + 4] == old(out[..o]) + [a, b, c, d]
    ensures forall j :: o + 4 <= j < out.Length ==> out[j] == old(out[j])
  {
    out[o], out[o + 1], out[o + 2], out[o + 3] := a, b, c, d;
  }

  /** One complete group. */
  method PutTriple(out: array<Byte>, o: nat, x: seq<Byte>, i: nat)
    requires i % 3 == 0 && i + 3 <= |x| && o + 4 <= out.Length && out[..o] == Encode(x[..i])
    modifies out
    ensures out[..o + 4] == Encode(x[..i + 3])
    ensures forall j :: o + 4 <= j < out.Length ==> out[j] == old(out[j])
  {
    var a: int, b: int, c: int := x[i], x[i + 1], x[i + 2];
    LowTwo(a);
    LowFour(b);
    AppendGroup(x, i, 3);
    assert Quad(x[i..i + 3]) == [First(a), Second(a, b), Third(b, c), Fourth(c)];
    PutFour(out, o, Digit(a / 4), Digit(a * 16 % 64 + b / 16), Digit(b * 4 % 64 + c / 64), Digit(c % 64));
  }

  lemma AppendGroup(x: seq<Byte>, i: nat, n: nat)
    requires i % 3 == 0 && i + n <= |x| && 1 <= n <= 3
    ensures Encode(x[..i + n]) == Encode(x[..i]) + Quad(x[i..i + n])
  {
    assert x[..i + n] == x[..i] + x[i..i + n];
    EncodeAppend(x[..i], x[i..i + n]);
    if n == 3 {
      assert x[i..i + n][..3] == x[i..i + n];
      assert Quad([]) == [] && x[i..i + n][3..] == [];
      assert Encode(x[i..i + n]) == Quad(x[i..i + n]) + Encode([]);
    }
  }

  /** One or two bytes, padded. */
  method PutRemainder(out: array<Byte>, o: nat, x: seq<Byte>, i: nat, len: nat)
    requires i % 3 == 0 && len > 0 && i + len == |x| && o + 4 <= out.Length && out[..o] == Encode(x[..i])
    modifies out
    ensures out[..o + 4] == Encode(x[..i + if len < 2 then len else 2])
    ensures forall j :: o + 4 <= j < out.Length ==> out[j] == old(out[j])
  {
    ghost var n := if len < 2 then len else 2;
    AppendGroup(x, i, n);
    var a: int := x[i];
    LowTwo(a);
    var fragment, third := a * 16 % 64, PAD;
    if len > 1 {
      var b: int := x[i + 1];
      LowFour(b);
      fragment, third := fragment + b / 16, Digit(b * 4 % 64);
    }
    PutFour(out, o, Digit(a / 4), Digit(fragment), third, PAD);
  }

  // ----- decoding -----

  predicate GoodGroup(a: Byte, b: Byte, c: Byte, d: Byte) {
    Value(a) != -1 && Value(b) != -1 && IsDigit(c) && IsDigit(d)
  }

  /** The bytes of a group: padding in the third place hides the rest, whatever the fourth is. */
  function GroupBytes(a: Byte, b: Byte, c: Byte, d: Byte): seq<Byte>
    requires GoodGroup(a, b, c, d)
  {
    [Value(a) * 4 + Value(b) / 16] +
    if c == PAD then []
    else [Value(b) % 16 * 16 + Value(c) / 4] + if d == PAD then [] else [Value(c) % 4 * 64 + Value(d)]
  }

  /** The bytes of a text, ending with a padded group or with the text; a text that stops within a group or has a
      character outside the alphabet has none, and neither has the empty text. */
  function Parse(s: seq<Byte>): Option<seq<Byte>> {
    if |s| < 4 || !GoodGroup(s[0], s[1], s[2], s[3]) then None
    else
      var bytes := GroupBytes(s[0], s[1], s[2], s[3]);
      if |s| == 4 || s[3] == PAD then Some(bytes)
      else
        match Parse(s[4..])
        case None => None
        case Some(rest) => Some(bytes + rest)
  }

  ghost predicate Terminated(s: seq<Byte>, n: nat) {
    n < |s| && s[n] == 0 && forall k :: 0 <= k < n ==> s[k] != 0
  }

  /** mutt_from_base64: reads no further than the NUL. */
  method FromBase64(out: array<Byte>, s: seq<Byte>, ghost n: nat) returns (r: int)
    requires Terminated(s, n) && out.Length >= n
    modifies out
    ensures match Parse(s[..n]) case None => r == -1 case Some(x) => r == |x| <= out.Length && out[..r] == x
  {
    var i, len, more := 0, 0, true;
    assert s[0..n] == s[..n] && out[..0] == [];
    NothingDone(Parse(s[..n]));
    while more
      invariant 0 <= len <= i <= n && len <= out.Length
      invariant Continues(Parse(s[..n]), out[..len], if more then Parse(s[i..n]) else Some([]))
      decreases more, n - i
    {
      if Value(s[i]) == -1 || Value(s[i + 1]) == -1 || !IsDigit(s[i + 2]) || !IsDigit(s[i + 3]) {
        return -1;
      }
      ParseStep(s, n, i);
      MoreDone(Parse(s[..n]), out[..len], Parse(s[i..n]), GroupBytes(s[i], s[i + 1], s[i + 2], s[i + 3]),
               if s[i + 4] != 0 && s[i + 3] != PAD then Parse(s[i + 4..n]) else Some([]));
      var k := PutBytes(out, len, s[i], s[i + 1], s[i + 2], s[i + 3]);
      len := len + k;
      more := s[i + 4] != 0 && s[i + 3] != PAD;
      i := i + 4;
    }
    assert out[..len] + [] == out[..len];
    return len;
  }

  predicate Continues(whole: Option<seq<Byte>>, done: seq<Byte>, rest: Option<seq<Byte>>) {
    whole == match rest case None => None case Some(x) => Some(done + x)
  }

  lemma NothingDone(whole: Option<seq<Byte>>)
    ensures Continues(whole, [], whole)
    ensures whole.Some? ==> Continues(whole, whole.value, Some([]))
  {
    if whole.Some? {
      assert [] + whole.value == whole.value + [] == whole.value;
    }
  }

  lemma MoreDone(whole: Option<seq<Byte>>, done: seq<Byte>, rest: Option<seq<Byte>>, bytes: seq<Byte>,
                 after: Option<seq<Byte>>)
    requires Continues(whole, done, rest) && Continues(rest, bytes, after)
    ensures Continues(whole, done + bytes, after)
  {
    if after.Some? {
      assert done + (bytes + after.value) == done + bytes + after.value;
    }
  }

  lemma ParseStep(s: seq<Byte>, n: nat, i: nat)
    requires Terminated(s, n) && i + 4 <= n && GoodGroup(s[i], s[i + 1], s[i + 2], s[i + 3])
    ensures Continues(Parse(s[i..n]), GroupBytes(s[i], s[i + 1], s[i + 2], s[i + 3]),
                      if s[i + 4] != 0 && s[i + 3] != PAD then Parse(s[i + 4..n]) else Some([]))
  {
    assert s[i..n][4..] == s[i + 4..n];
    NothingDone(Some(GroupBytes(s[i], s[i + 1], s[i + 2], s[i + 3])));
  }

  method PutBytes(out: array<Byte>, len: nat, a: Byte, b: Byte, c: Byte, d: Byte) returns (k: nat)
    requires GoodGroup(a, b, c, d) && len + 3 <= out.Length
    modifies out
    ensures 1 <= k <= 3 && out[..len + k] == old(out[..len]) + GroupBytes(a, b, c, d)
  {
    LowFourOfByte(Value(b));
    out[len] := Value(a) * 4 + Value(b) / 16;
    k := 1;
    if c != PAD {
      LowTwoOfByte(Value(c));
      out[len + 1] := Value(b) * 16 % 256 + Value(c) / 4;
      k := 2;
      if d != PAD {
        out[len + 2] := Value(c) * 64 % 256 + Value(d);
        k := 3;
      }
    }
  }

  // ----- round trip -----

  lemma BytesOfOne(a: Byte, p: Byte, q: Byte)
    requires IsFirst(p, q, a)
    ensures GoodGroup(p, q, PAD, PAD) && GroupBytes(p, q, PAD, PAD) == [a]
  {
  }

  lemma BytesOfTwo(a: Byte, b: Byte, p: Byte, q: Byte, r: Byte)
    requires IsFirst(p, q, a) && IsSecond(q, r, b)
    ensures GoodGroup(p, q, r, PAD) && GroupBytes(p, q, r, PAD) == [a, b]
  {
  }

  lemma BytesOfThree(a: Byte, b: Byte, c: Byte, p: Byte, q: Byte, r: Byte, s: Byte)
    requires IsFirst(p, q, a) && IsSecond(q, r, b) && IsThird(r, s, c)
    ensures GoodGroup(p, q, r, s) && GroupBytes(p, q, r, s) == [a, b, c]
  {
  }

  lemma ParseQuad(x: seq<Byte>)
    requires 1 <= |x| <= 3
    ensures var q := Quad(x);
            GoodGroup(q[0], q[1], q[2], q[3]) && GroupBytes(q[0], q[1], q[2], q[3]) == x && (|x| < 3 <==> q[3] == PAD)
  {
    var q := Quad(x);
    if |x| == 1 {
      FirstOfQuad(x[0], 0);
      BytesOfOne(x[0], q[0], q[1]);
    } else if |x| == 2 {
      FirstOfQuad(x[0], x[1]);
      SecondOfQuad(x[0], x[1], 0);
      BytesOfTwo(x[0], x[1], q[0], q[1], q[2]);
    } else {
      FirstOfQuad(x[0], x[1]);
      SecondOfQuad(x[0], x[1], x[2]);
      ThirdOfQuad(x[1], x[2]);
      BytesOfThree(x[0], x[1], x[2], q[0], q[1], q[2], q[3]);
    }
  }

  /** Decoding undoes encoding. */
  lemma {:induction false} ParseEncode(x: seq<Byte>)
    requires x != []
    ensures Parse(Encode(x)) == Some(x)
  {
    if |x| < 3 {
      ParseQuad(x);
    } else {
      var q, rest := Quad(x[..3]), Encode(x[3..]);
      assert Encode(x) == q + rest && (q + rest)[4..] == rest;
      ParseQuad(x[..3]);
      if x[3..] == [] {
        assert rest == [] && x[..3] == x;
      } else {
        ParseEncode(x[3..]);
        EncodeNonEmpty(x[3..]);
        assert x == x[..3] + x[3..];
      }
    }
  }

  lemma EncodeNonEmpty(x: seq<Byte>)
    requires x != []
    ensures |Encode(x)| >= 4
  {
  }

  /** What mutt_to_base64 has written decodes to a prefix of the input, and to all of it exactly when the buffer was
      roomy; an empty output is not accepted. */
  lemma ToThenFrom(x: seq<Byte>, size: nat)
    ensures var m := Fitting(|x|, size);
            Parse(Encode(x[..m])) == (if m == 0 then None else Some(x[..m])) &&
            (x != [] ==> (Parse(Encode(x[..m])) == Some(x) <==> Roomy(|x|, size)))
  {
    var m := Fitting(|x|, size);
    AllFitIff(|x|, size);
    if m == 0 {
      assert x[..m] == [] && Encode(x[..m]) == [];
    } else {
      ParseEncode(x[..m]);
    }
    assert x[..m] == x <==> m == |x|;
  }
}
