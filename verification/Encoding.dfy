/** Writing bodies (sendlib.c, crypt.c). */
module Encoding {
  import opened Bytes
  import opened Sextets
  import opened LineEnds
  import opened Decoding
  import opened Sequences

  // The base64 encoder, and the canonical text that is signed.

  lemma {:induction false} DigitsAppend(s: seq<Byte>, t: seq<Byte>)
    ensures Digits(s + t) == Digits(s) + Digits(t)
  {
    if s == [] {
      assert s + t == t;
    } else {
      var head := if IsDigit(s[0]) then [s[0]] else [];
      DigitsAppend(s[1..], t);
      assert (s + t)[0] == s[0] && (s + t)[1..] == s[1..] + t;
      Reassociate(head, Digits(s[1..]), Digits(t));
    }
  }

  lemma DigitsOfQuad(x: seq<Byte>)
    ensures Digits(Quad(x)) == Quad(x)
  {
    QuadIsDigits(x);
    AllDigits(Quad(x));
  }

  lemma {:induction false} AllDigits(q: seq<Byte>)
    requires forall k :: 0 <= k < |q| ==> IsDigit(q[k])
    ensures Digits(q) == q
  {
    if q != [] {
      AllDigits(q[1..]);
    }
  }

  /** How many characters the last line has. */
  function Column(s: seq<Byte>): nat {
    if s == [] || s[|s| - 1] == LF then 0 else Column(s[..|s| - 1]) + 1
  }

  /** At k there is a digit, or a line end after 72 of them. */
  predicate LaidAt(s: seq<Byte>, k: nat) {
    (k <= |s| ==> Column(s[..k]) <= 72) &&
    (k < |s| ==> if s[k] == LF then Column(s[..k]) == 72 else IsDigit(s[k]))
  }

  /** Nothing but digits and line ends, each line having 72 digits, the last one at most 72. */
  ghost predicate Laid(s: seq<Byte>) {
    forall k: nat :: LaidAt(s, k)
  }

  /** The end of the last line; there is an empty line only where nothing has been written. */
  ghost predicate Ended(s: seq<Byte>) {
    s != [] && s[|s| - 1] == LF && Laid(s[..|s| - 1]) && Open(s[..|s| - 1])
  }

  predicate Open(s: seq<Byte>) {
    s == [] || s[|s| - 1] != LF
  }

  class Encoder {
    var b64: seq<Byte>
    var linelen: nat
    var fout: seq<Byte>

    /** The bytes x have been put; those not in the buffer are on the wire, in lines of at most 72. */
    ghost predicate Holds(x: seq<Byte>)
      reads this
    {
      |b64| <= 3 && |x| >= |b64| && x[|x| - |b64|..] == b64 && (|x| - |b64|) % 3 == 0 &&
      Digits(fout) == Encode(x[..|x| - |b64|]) &&
      Ruled(72) && linelen % 4 == 0 && Open(fout)
    }

    constructor ()
      ensures Holds([]) && fout == []
    {
      b64, linelen, fout := [], 0, [];
    }

    /** The line being written. */
    ghost predicate Ruled(n: nat)
      reads this
    {
      linelen == Column(fout) <= n && Laid(fout)
    }

    method Putc(c: Byte)
      requires Ruled(71) && c != LF && IsDigit(c)
      modifies `linelen, `fout
      ensures fout == old(fout) + [c] && linelen == old(linelen) + 1 && Ruled(72)
    {
      PutIsLaid(fout, c);
      fout := fout + [c];
      linelen := linelen + 1;
    }

    /** A line end, when the line is full. */
    method Wrap()
      requires Ruled(72) && linelen % 4 == 0
      modifies `linelen, `fout
      ensures Ruled(68) && linelen % 4 == 0
      ensures Digits(fout) == old(Digits(fout))
    {
      if linelen >= 72 {
        PutIsLaid(fout, LF);
        DigitsAppend(fout, [LF]);
        fout := fout + [LF];
        linelen := 0;
      }
    }

    /** The first n characters of the group q have been written after before. */
    ghost predicate Written(before: seq<Byte>, q: seq<Byte>, n: nat)
      reads this
    {
      n <= |q| <= 4 && fout == before + q[..n] && Ruled(68 + n) && linelen % 4 == n % 4
    }

    method PutNext(c: Byte, ghost before: seq<Byte>, ghost q: seq<Byte>, ghost n: nat)
      requires Written(before, q, n) && n < |q| && c == q[n] && c != LF && IsDigit(c)
      modifies `linelen, `fout
      ensures Written(before, q, n + 1)
    {
      Putc(c);
      assert q[..n + 1] == q[..n] + [c];
    }

    method PutDigits(ghost before: seq<Byte>)
      requires 1 <= |b64| <= 3 && Written(before, Quad(b64), 0)
      modifies `linelen, `fout
      ensures Written(before, Quad(b64), |b64| + 1)
    {
      ghost var q := Quad(b64);
      var b: Byte, c: Byte := if |b64| > 1 then b64[1] else 0, if |b64| > 2 then b64[2] else 0;
      QuadDigits(b64, b, c);
      PutNext(Digit(b64[0] / 4), before, q, 0);
      PutNext(Digit(b64[0] % 4 * 16 + b / 16), before, q, 1);
      if |b64| > 1 {
        PutNext(Digit(b % 16 * 4 + c / 64), before, q, 2);
        if |b64| > 2 {
          PutNext(Digit(c % 64), before, q, 3);
        }
      }
    }

    method PutPadding(ghost before: seq<Byte>, ghost q: seq<Byte>, ghost n0: nat)
      requires Written(before, q, n0) && |q| == 4 && 1 <= n0 && forall k :: n0 <= k < 4 ==> q[k] == PAD
      modifies `linelen, `fout
      ensures Written(before, q, 4)
    {
      ghost var n := n0;
      while linelen % 4 != 0
        invariant n0 <= n <= 4 && Written(before, q, n)
        decreases 4 - n
      {
        PutNext(PAD, before, q, n);
        n := n + 1;
      }
    }

    /** The digits of the buffered bytes, and padding up to a multiple of four. */
    method PutGroup()
      requires 1 <= |b64| <= 3 && Ruled(68) && linelen % 4 == 0
      modifies `linelen, `fout
      ensures fout == old(fout) + Quad(b64) && Ruled(72) && linelen % 4 == 0 && Open(fout)
    {
      ghost var before, q := fout, Quad(b64);
      QuadIsDigits(b64);
      assert before + q[..0] == before;
      PutDigits(before);
      PutPadding(before, q, |b64| + 1);
      assert q[..4] == q;
    }

    /** b64_flush. */
    method Flush(ghost x: seq<Byte>)
      requires Holds(x)
      modifies this
      ensures b64 == [] && Ruled(72) && linelen % 4 == 0 && Digits(fout) == Encode(x) && Open(fout)
    {
      if |b64| == 0 {
        assert x[..|x|] == x;
        return;
      }
      ghost var done := x[..|x| - |b64|];
      Wrap();
      DigitsAppend(fout, Quad(b64));
      DigitsOfQuad(b64);
      EncodeAppend(done, b64);
      assert x == done + b64;
      EncodeOne(b64);
      PutGroup();
      b64 := [];
    }

    /** b64_putc. */
    method Put(c: Byte, ghost x: seq<Byte>)
      requires Holds(x)
      modifies this
      ensures Holds(x + [c])
    {
      if |b64| == 3 {
        Flush(x);
        assert x[..|x|] == x;
      }
      OneMore(x, c, |x| - |b64|);
      b64 := b64 + [c];
    }

    lemma OneMore(x: seq<Byte>, c: Byte, k: nat)
      requires k <= |x|
      ensures (x + [c])[..k] == x[..k] && (x + [c])[k..] == x[k..] + [c]
    {
    }

    method PutByte(ch: Byte, after: bool, istext: bool, ghost x: seq<Byte>)
      requires Holds(x)
      modifies this
      ensures Holds(x + Sent(ch, after, istext))
    {
      ghost var y := x;
      if istext && ch == LF && !after {
        Put(CR, y);
        y := y + [CR];
      }
      Put(ch, y);
      assert y + [ch] == x + Sent(ch, after, istext);
    }

    /** encode_base64: the bytes, canonical if they are text, and nothing else but line ends; the lines are short
        enough for section 6.8 of RFC 2045, and all but the last are full. */
    method EncodeBase64(input: seq<Byte>, istext: bool)
      requires fout == []
      modifies this
      ensures Digits(fout) == Encode(Wire(input, false, istext))
      ensures Ended(fout)
    {
      Reset();
      ghost var x := EncodeAll(input, istext);
      Finish(x);
    }

    method Reset()
      requires fout == []
      modifies `b64, `linelen
      ensures Holds([])
    {
      b64, linelen := [], 0;
    }

    /** The bytes x have been put, and with those from place i on make up all that is to be encoded. */
    ghost predicate Sending(x: seq<Byte>, input: seq<Byte>, i: nat, ch1: int, istext: bool)
      reads this
    {
      i <= |input| && Holds(x) && x + Wire(input[i..], ch1 == CR, istext) == Wire(input, false, istext)
    }

    method EncodeAll(input: seq<Byte>, istext: bool) returns (ghost x: seq<Byte>)
      requires Holds([])
      modifies this
      ensures Holds(x) && x == Wire(input, false, istext)
    {
      x := SendingStarts(input, istext);
      var ch1: int := -1;
      for i := 0 to |input|
        invariant Sending(x, input, i, ch1, istext)
      {
        x := EncodeNext(input, i, ch1, istext, x);
        ch1 := input[i];
      }
      SendingEnds(x, input, ch1, istext);
    }

    lemma SendingStarts(input: seq<Byte>, istext: bool) returns (x: seq<Byte>)
      requires Holds([])
      ensures Sending(x, input, 0, -1, istext)
    {
      x := [];
      WireFromStart(input, istext);
    }

    lemma SendingEnds(x: seq<Byte>, input: seq<Byte>, ch1: int, istext: bool)
      requires Sending(x, input, |input|, ch1, istext)
      ensures Holds(x) && x == Wire(input, false, istext)
    {
      assert input[|input|..] == [] && x + [] == x;
    }

    method EncodeNext(input: seq<Byte>, i: nat, ch1: int, istext: bool, ghost x: seq<Byte>)
      returns (ghost y: seq<Byte>)
      requires i < |input| && Sending(x, input, i, ch1, istext)
      modifies this
      ensures Sending(y, input, i + 1, input[i], istext)
    {
      var ch, after := input[i], ch1 == CR;
      ghost var rest := Wire(input[i + 1..], ch == CR, istext);
      assert input[i..][0] == ch && input[i..][1..] == input[i + 1..];
      WireStep(input[i..], after, istext);
      Reassociate(x, Sent(ch, after, istext), rest);
      PutByte(ch, after, istext, x);
      y := x + Sent(ch, after, istext);
    }

    method Finish(ghost x: seq<Byte>)
      requires Holds(x)
      modifies this
      ensures Digits(fout) == Encode(x) && Ended(fout)
    {
      Flush(x);
      DigitsAppend(fout, [LF]);
      ghost var before := fout;
      fout := fout + [LF];
      assert fout[..|fout| - 1] == before;
    }
  }

  lemma QuadDigits(x: seq<Byte>, b: Byte, c: Byte)
    requires 1 <= |x| <= 3 && b == (if |x| > 1 then x[1] else 0) && c == if |x| > 2 then x[2] else 0
    ensures var q := Quad(x);
            |q| == 4 && q[0] == Digit(x[0] / 4) && q[1] == Digit(x[0] % 4 * 16 + b / 16) &&
            (|x| > 1 ==> q[2] == Digit(b % 16 * 4 + c / 64)) && (|x| > 2 ==> q[3] == Digit(c % 64))
  {
  }

  /** The bytes that are encoded: a text is made canonical. */
  function Wire(s: seq<Byte>, after: bool, istext: bool): seq<Byte> {
    if istext then Canonical(s, after) else s
  }

  function Sent(ch: Byte, after: bool, istext: bool): seq<Byte> {
    if istext && ch == LF && !after then [CR, LF] else [ch]
  }

  lemma WireFromStart(s: seq<Byte>, istext: bool)
    ensures [] + Wire(s[0..], false, istext) == Wire(s, false, istext)
  {
    assert s[0..] == s;
    var wire := Wire(s, false, istext);
    assert [] + wire == wire;
  }

  lemma WireStep(s: seq<Byte>, after: bool, istext: bool)
    requires s != []
    ensures Wire(s, after, istext) == Sent(s[0], after, istext) + Wire(s[1..], s[0] == CR, istext)
  {
  }

  lemma PutIsLaid(s: seq<Byte>, c: Byte)
    requires Laid(s) && if c == LF then Column(s) == 72 else IsDigit(c) && Column(s) < 72
    ensures Laid(s + [c]) && Column(s + [c]) == if c == LF then 0 else Column(s) + 1
  {
    var t := s + [c];
    assert t[..|s|] == s && t[..|t|] == t;
    assert LaidAt(s, |s|);
    assert s[..|s|] == s;
    forall k: nat ensures LaidAt(t, k) {
      if k < |s| {
        assert LaidAt(s, k) && t[..k] == s[..k];
      }
    }
  }

  lemma EncodeOne(x: seq<Byte>)
    requires |x| <= 3
    ensures Encode(x) == Quad(x)
  {
    if |x| == 3 {
      assert x[..3] == x && x[3..] == [] && Encode([]) == [];
      assert Quad(x) + [] == Quad(x);
    }
  }

  // ----- text to be signed -----

  /** crypt_write_signed: at most the given number of bytes, with canonical line ends. */
  method WriteSigned(input: seq<Byte>, bytes0: nat) returns (fp: seq<Byte>)
    ensures fp == Canonical(input[..if bytes0 < |input| then bytes0 else |input|], false)
  {
    var bytes, hadcr, i := bytes0, false, 0;
    ghost var all := input[..if bytes0 < |input| then bytes0 else |input|];
    fp := [];
    assert all[0..] == all;
    while bytes > 0
      invariant 0 <= i <= |all| && bytes == bytes0 - i
      invariant fp + Canonical(all[i..], hadcr) == Canonical(all, false)
      decreases bytes
    {
      if i == |input| {
        break;
      }
      var c := input[i];
      CanonicalStep(fp, all, i, hadcr);
      bytes := bytes - 1;
      if c == CR {
        hadcr := true;
      } else {
        if c == LF && !hadcr {
          fp := fp + [CR];
        }
        hadcr := false;
      }
      fp := fp + [c];
      i := i + 1;
    }
    assert all[i..] == [] && fp + [] == fp;
  }

  lemma CanonicalStep(fp: seq<Byte>, all: seq<Byte>, i: nat, hadcr: bool)
    requires i < |all|
    ensures fp + Canonical(all[i..], hadcr) ==
            (if all[i] == LF && !hadcr then fp + [CR] + [LF] else fp + [all[i]]) + Canonical(all[i + 1..], all[i] == CR)
  {
    var rest := Canonical(all[i + 1..], all[i] == CR);
    assert all[i..][0] == all[i] && all[i..][1..] == all[i + 1..];
    assert fp + ([CR, LF] + rest) == fp + [CR] + [LF] + rest;
    assert fp + ([all[i]] + rest) == fp + [all[i]] + rest;
  }

  // ----- there and back -----

  /** A body that is encoded and decoded again comes back as it was, but for its line ends if it is text; so a text
      comes back as it was exactly when it has no CR LF. */
  lemma BodyRoundTrip(body: seq<Byte>, wire: seq<Byte>, istext: bool)
    requires Digits(wire) == Encode(Wire(body, false, istext))
    ensures var back := Chars(Body(Decoded(Digits(wire)), istext));
            back == (if istext then Chars(Lines(body)) else body) &&
            (istext ==> (back == body <==> !HasPair(body)))
  {
    NoiseIsSkipped(wire, Wire(body, false, istext), istext);
    if istext {
      CanonicalInvisible(body);
      LinesShorten(body);
      LinesFixes(body);
      CharsOfBytes(body);
    }
  }
}
