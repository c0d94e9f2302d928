/** The base64 and plain decoders of message bodies (handler.c). */
module Decoding {
  import opened Bytes
  import opened Sextets
  import opened LineEnds
  import opened Sequences

  // Character sets are not converted.

  // ----- what the decoders read -----

  /** The characters of the alphabet and the padding; all others are skipped. */
  function Digits(s: seq<Byte>): (q: seq<Byte>)
    ensures |q| <= |s|
  {
    if s == [] then [] else (if IsDigit(s[0]) then [s[0]] else []) + Digits(s[1..])
  }

  /** The int assembled from the first two digits of a group; a misplaced pad has value -1 and sets the sign. */
  function Octet1(a: Byte, b: Byte): int {
    if Value(b) == -1 then -1 else 4 * Value(a) + Value(b) / 16
  }

  function Octet2(b: Byte, c: Byte): int {
    Value(b) % 16 * 16 + Value(c) / 4
  }

  function Octet3(c: Byte, d: Byte): int {
    Value(c) % 4 * 64 + Value(d)
  }

  /** The values of a group; a pad in the third place ends it whatever follows. */
  function Octets(a: Byte, b: Byte, c: Byte, d: Byte): seq<int> {
    [Octet1(a, b)] + if c == PAD then [] else [Octet2(b, c)] + if d == PAD then [] else [Octet3(c, d)]
  }

  /** The values decoded from complete groups, up to a padded one. */
  function Decoded(q: seq<Byte>): seq<int> {
    if |q| < 4 then []
    else Octets(q[0], q[1], q[2], q[3]) + if q[2] == PAD || q[3] == PAD then [] else Decoded(q[4..])
  }

  lemma OctetsOfOne(a: Byte, p: Byte, q: Byte)
    requires IsFirst(p, q, a)
    ensures Octets(p, q, PAD, PAD) == [a]
  {
  }

  lemma OctetsOfTwo(a: Byte, b: Byte, p: Byte, q: Byte, r: Byte)
    requires IsFirst(p, q, a) && IsSecond(q, r, b)
    ensures Octets(p, q, r, PAD) == [a, b]
  {
  }

  lemma OctetsOfThree(a: Byte, b: Byte, c: Byte, p: Byte, q: Byte, r: Byte, s: Byte)
    requires IsFirst(p, q, a) && IsSecond(q, r, b) && IsThird(r, s, c)
    ensures Octets(p, q, r, s) == [a, b, c]
  {
  }

  lemma OctetsOfQuad(x: seq<Byte>)
    requires 1 <= |x| <= 3
    ensures var q := Quad(x);
            Octets(q[0], q[1], q[2], q[3]) == x && (q[2] == PAD || q[3] == PAD <==> |x| < 3)
  {
    var q := Quad(x);
    if |x| == 1 {
      FirstOfQuad(x[0], 0);
      OctetsOfOne(x[0], q[0], q[1]);
    } else if |x| == 2 {
      FirstOfQuad(x[0], x[1]);
      SecondOfQuad(x[0], x[1], 0);
      OctetsOfTwo(x[0], x[1], q[0], q[1], q[2]);
    } else {
      FirstOfQuad(x[0], x[1]);
      SecondOfQuad(x[0], x[1], x[2]);
      ThirdOfQuad(x[1], x[2]);
      OctetsOfThree(x[0], x[1], x[2], q[0], q[1], q[2], q[3]);
    }
  }

  /** Decoding undoes encoding. */
  lemma {:induction false} DecodedEncode(x: seq<Byte>)
    ensures Decoded(Encode(x)) == x
  {
    if |x| < 3 {
      if x != [] {
        OctetsOfQuad(x);
      }
    } else {
      DecodedEncode(x[3..]);
      OctetsOfQuad(x[..3]);
      assert (Quad(x[..3]) + Encode(x[3..]))[4..] == Encode(x[3..]);
      assert x == x[..3] + x[3..];
    }
  }

  /** The values s, and those of the digits q still to be read, are all values. */
  ghost predicate Continues(s: seq<int>, q: seq<Byte>, all: seq<int>) {
    s + Decoded(q) == all
  }

  lemma DecodedFirst(buf: seq<Byte>, rest: seq<Byte>)
    requires |buf| == 4
    ensures Decoded(buf + rest) ==
            Octets(buf[0], buf[1], buf[2], buf[3]) + if buf[2] == PAD || buf[3] == PAD then [] else Decoded(rest)
  {
    assert (buf + rest)[4..] == rest;
  }

  lemma Onto(s: seq<int>, group: seq<int>, rest: seq<int>, all: seq<int>)
    requires s + (group + rest) == all
    ensures s + group + rest == all && (rest == [] ==> s + group == all)
  {
    assert s + group + [] == s + group;
  }

  lemma ContinuesFirst(s: seq<int>, buf: seq<Byte>, rest: seq<Byte>, all: seq<int>)
    requires |buf| == 4 && Continues(s, buf + rest, all)
    ensures var t := s + Octets(buf[0], buf[1], buf[2], buf[3]);
            if buf[2] == PAD || buf[3] == PAD then t == all else Continues(t, rest, all)
  {
    DecodedFirst(buf, rest);
    Onto(s, Octets(buf[0], buf[1], buf[2], buf[3]), if buf[2] == PAD || buf[3] == PAD then [] else Decoded(rest), all);
  }

  lemma ContinuesShort(s: seq<int>, buf: seq<Byte>, rest: seq<Byte>, all: seq<int>)
    requires |buf| < 4 && rest == [] && Continues(s, buf + rest, all)
    ensures s == all
  {
    assert buf + rest == buf && s + [] == s;
  }

  lemma ContinuesEnd(s: seq<int>, rest: seq<Byte>, all: seq<int>)
    requires |rest| < 4 && Continues(s, rest, all)
    ensures s == all
  {
    assert s + [] == s;
  }

  // ----- what they write -----

  /** The value a char takes when an int is assigned to it. */
  function Chars(s: seq<int>): (b: seq<Byte>)
    ensures |b| == |s|
  {
    if s == [] then [] else Chars(s[..|s| - 1]) + [s[|s| - 1] % 256]
  }

  lemma {:induction false} CharsAppend(s: seq<int>, t: seq<int>)
    ensures Chars(s + t) == Chars(s) + Chars(t)
  {
    if t == [] {
      assert s + t == s;
    } else {
      CharsAppend(s, t[..|t| - 1]);
      assert (s + t)[..|s + t| - 1] == s + t[..|t| - 1];
    }
  }

  lemma {:induction false} CharsOfBytes(s: seq<Byte>)
    ensures Chars(s) == s
  {
    if s != [] {
      CharsOfBytes(s[..|s| - 1]);
    }
  }

  /** A CR is held back until it is known whether LF follows. */
  function Held(s: seq<int>, istext: bool): bool {
    istext && EndsInCr(s)
  }

  function Piece(held: bool, istext: bool, ch: int): seq<int> {
    (if held && ch != LF then [CR as int] else []) + if istext && ch == CR then [] else [ch]
  }

  /** What has been written once the values s have been dealt with, one after the other. */
  function Emitted(s: seq<int>, istext: bool): seq<int> {
    if s == [] then []
    else
      var n := |s| - 1;
      Emitted(s[..n], istext) + Piece(Held(s[..n], istext), istext, s[n])
  }

  lemma EmittedMore(start: seq<Byte>, s: seq<int>, ch: int, istext: bool)
    ensures Held(s + [ch], istext) == (istext && ch == CR)
    ensures start + Chars(Emitted(s + [ch], istext)) ==
            start + Chars(Emitted(s, istext)) + Chars(Piece(Held(s, istext), istext, ch))
  {
    var t := s + [ch];
    var before, piece := Emitted(s, istext), Piece(Held(s, istext), istext, ch);
    assert t[..|t| - 1] == s && t[|t| - 1] == ch;
    assert Emitted(t, istext) == before + piece;
    CharsAppend(before, piece);
    Reassociate(start, Chars(before), Chars(piece));
  }

  /** The values of a group one by one. */
  lemma GroupSteps(s: seq<int>, a: Byte, b: Byte, c: Byte, d: Byte)
    ensures var one := s + [Octet1(a, b)]; var two := one + [Octet2(b, c)]; var three := two + [Octet3(c, d)];
            s + Octets(a, b, c, d) == if c == PAD then one else if d == PAD then two else three
  {
  }

  function Body(s: seq<int>, istext: bool): seq<int> {
    if istext then Lines(s) else s
  }

  /** Holding back a CR at a time decodes the line ends; in binary mode nothing is changed. */
  lemma {:induction false} EmittedIsBody(s: seq<int>, istext: bool)
    ensures Emitted(s, istext) + (if Held(s, istext) then [CR as int] else []) == Body(s, istext)
  {
    if s != [] {
      var n := |s| - 1;
      EmittedIsBody(s[..n], istext);
      LinesMore(s[..n], s[n]);
      assert s == s[..n] + [s[n]];
      if istext {
        PieceOfLines(Emitted(s[..n], true), Lines(s[..n]), EndsInCr(s[..n]), s[n]);
      } else {
        assert Emitted(s, false) + [] == Emitted(s, false);
      }
    }
  }

  lemma PieceOfLines(emitted: seq<int>, lines: seq<int>, held: bool, ch: int)
    requires emitted + (if held then [CR as int] else []) == lines && (held ==> lines != [])
    ensures emitted + Piece(held, true, ch) + (if ch == CR then [CR as int] else []) ==
            (if held && ch == LF then lines[..|lines| - 1] else lines) + [ch]
  {
    assert held ==> lines[..|lines| - 1] == emitted;
    assert !held ==> lines == emitted;
  }

  // ----- the decoder -----

  const BUFI_SIZE: nat := 1000

  const LONG := 0x8000_0000_0000_0000  // a long has 64 bits

  /** The input stream, and the output with the buffer in front of it. */
  class Decoder {
    var fpin: seq<Byte>
    var pos: nat
    var fpout: seq<Byte>
    const bufi: array<Byte>
    var l: nat
    var cr: bool

    ghost predicate Valid()
      reads this
    {
      pos <= |fpin| && bufi.Length == BUFI_SIZE && l <= BUFI_SIZE
    }

    /** Everything written so far, the buffer included. */
    ghost function Written(): seq<Byte>
      reads this, bufi
      requires Valid()
    {
      fpout + bufi[..l]
    }

    /** The input that len still allows. */
    ghost function Ahead(len: int): seq<Byte>
      reads this
      requires Valid()
    {
      fpin[pos..pos + if len < 0 then 0 else if len < |fpin| - pos then len else |fpin| - pos]
    }

    constructor (input: seq<Byte>)
      ensures Valid() && fresh(bufi) && fpin == input && pos == 0 && l == 0 && fpout == [] && !cr
    {
      fpin, pos, fpout, l, cr := input, 0, [], 0, false;
      bufi := new Byte[BUFI_SIZE];
    }

    /** fgetc; -1 at the end of the input. */
    method Getc() returns (c: int)
      requires Valid()
      modifies `pos
      ensures Valid() && (c == -1 <==> old(pos) == |fpin|)
      ensures c != -1 ==> old(pos) < |fpin| && c == fpin[old(pos)] && pos == old(pos) + 1
      ensures c == -1 ==> pos == old(pos)
    {
      if pos == |fpin| {
        return -1;
      }
      c := fpin[pos];
      pos := pos + 1;
    }

    method Put(c: int)
      requires Valid() && l < BUFI_SIZE
      modifies `l, bufi
      ensures Valid() && l == old(l) + 1 && Written() == old(Written()) + [c % 256]
    {
      bufi[l] := c % 256;
      l := l + 1;
    }

    /** mutt_convert_to_state without a conversion or a prefix: the buffer is written out. */
    method Flush()
      requires Valid()
      modifies `fpout, `l
      ensures Valid() && l == 0 && Written() == old(Written())
    {
      fpout := fpout + bufi[..l];
      l := 0;
      assert bufi[..0] == [];
    }

    /** One decoded value: write the CR held back, unless it belongs to a line end, then hold or write this one. */
    method Emit(ch: int, istext: bool)
      requires Valid() && l + 2 <= BUFI_SIZE
      modifies `l, `cr, bufi
      ensures Valid() && cr == (istext && ch == CR)
      ensures Written() == old(Written()) + Chars(Piece(old(cr), istext, ch))
      ensures l + (if cr then 1 else 0) <= old(l + if cr then 1 else 0) + 1
    {
      if cr && ch != LF {
        Put(CR);
      }
      cr := false;
      if istext && ch == CR {
        cr := true;
      } else {
        Put(ch);
      }
    }

    /** What has been written after start is what the values s come to. */
    ghost predicate Holds(start: seq<Byte>, s: seq<int>, istext: bool)
      reads this, bufi
    {
      Valid() && cr == Held(s, istext) && Written() == start + Chars(Emitted(s, istext))
    }

    method EmitNext(ch: int, istext: bool, ghost start: seq<Byte>, ghost s: seq<int>)
      requires Holds(start, s, istext) && l + 2 <= BUFI_SIZE
      modifies `l, `cr, bufi
      ensures Holds(start, s + [ch], istext)
      ensures l + (if cr then 1 else 0) <= old(l + if cr then 1 else 0) + 1
    {
      EmittedMore(start, s, ch, istext);
      Emit(ch, istext);
    }

    /** The next character, if it is a digit or a pad. */
    method ReadDigit(len: int) returns (eof: bool, digit: seq<Byte>)
      requires Valid() && len > 0
      modifies `pos
      ensures Valid() && |digit| <= 1 && old(pos) <= pos <= old(pos) + 1
      ensures if eof then digit == [] && Ahead(len) == old(Ahead(len)) == []
              else Digits(old(Ahead(len))) == digit + Digits(Ahead(len - 1))
    {
      ghost var ahead := Ahead(len);
      var ch := Getc();
      if ch == -1 {
        return true, [];
      }
      assert ahead == [ch] + Ahead(len - 1);
      assert ahead[1..] == Ahead(len - 1);
      eof, digit := false, if ch < 128 && (Value(ch) != -1 || ch == PAD) then [ch] else [];
    }

    /** The next four digits, or fewer at the end of the input. */
    method ReadGroup(len0: int) returns (buf: seq<Byte>, len: int)
      requires Valid() && len0 > 0
      modifies `pos
      ensures Valid() && |buf| <= 4 && 0 <= len <= len0 && (|buf| == 4 ==> len < len0)
      ensures old(pos) <= pos <= old(pos) + (len0 - len) + if |buf| < 4 && len > 0 then 1 else 0
      ensures Digits(old(Ahead(len0))) == buf + Digits(Ahead(len)) && Written() == old(Written())
      ensures |buf| < 4 ==> Digits(Ahead(len)) == []
    {
      buf, len := [], len0;
      while |buf| < 4 && len > 0
        invariant Valid() && |buf| <= 4 && 0 <= len <= len0 && (buf != [] ==> len < len0)
        invariant old(pos) <= pos <= old(pos) + (len0 - len)
        invariant Digits(old(Ahead(len0))) == buf + Digits(Ahead(len))
        decreases len
      {
        ghost var todo := Digits(Ahead(len));
        var eof, digit := ReadDigit(len);
        if eof {
          return;
        }
        len := len - 1;
        Reassociate(buf, digit, Digits(Ahead(len)));
        buf := buf + digit;
      }
      if |buf| < 4 {
        assert Ahead(len) == [];
      }
    }

    /** The values of one group; more unless it was padded. */
    method EmitGroup(q: seq<Byte>, istext: bool, ghost start: seq<Byte>, ghost s: seq<int>) returns (more: bool)
      requires |q| == 4 && Holds(start, s, istext) && l + (if cr then 1 else 0) <= 992
      modifies `l, `cr, bufi
      ensures Holds(start, s + Octets(q[0], q[1], q[2], q[3]), istext) && l + (if cr then 1 else 0) <= 995
      ensures more == (q[2] != PAD && q[3] != PAD)
    {
      ghost var one := s + [Octet1(q[0], q[1])];
      ghost var two := one + [Octet2(q[1], q[2])];
      GroupSteps(s, q[0], q[1], q[2], q[3]);
      EmitNext(Octet1(q[0], q[1]), istext, start, s);
      if q[2] == PAD {
        return false;
      }
      EmitNext(Octet2(q[1], q[2]), istext, start, one);
      if q[3] == PAD {
        return false;
      }
      EmitNext(Octet3(q[2], q[3]), istext, start, two);
      return true;
    }

    method EmitAndFlush(q: seq<Byte>, istext: bool, ghost start: seq<Byte>, ghost s: seq<int>) returns (more: bool)
      requires |q| == 4 && Holds(start, s, istext) && l + (if cr then 1 else 0) <= 992
      modifies `fpout, `l, `cr, bufi
      ensures Holds(start, s + Octets(q[0], q[1], q[2], q[3]), istext) && l <= 995
      ensures more == (q[2] != PAD && q[3] != PAD) && (more ==> l + (if cr then 1 else 0) <= 992)
    {
      more := EmitGroup(q, istext, start, s);
      if more && l + 8 >= BUFI_SIZE {
        Flush();
      }
    }

    /** Reads, decodes and writes one group, then makes room; more as long as the groups go on. */
    method DecodeGroup(len0: int, istext: bool, ghost start: seq<Byte>, ghost s: seq<int>, ghost all: seq<int>)
      returns (more: bool, len: int, ghost t: seq<int>)
      requires Holds(start, s, istext) && l + (if cr then 1 else 0) <= 992 && len0 > 0
      requires Continues(s, Digits(Ahead(len0)), all)
      modifies `pos, `fpout, `l, `cr, bufi
      ensures 0 <= len && old(pos) <= pos <= old(pos) + (len0 - if more then len else 0)
      ensures Holds(start, t, istext) && l <= 995 && (more ==> l + (if cr then 1 else 0) <= 992 && len < len0)
      ensures if more then Continues(t, Digits(Ahead(len)), all) else t == all
    {
      var buf;
      buf, len := ReadGroup(len0);
      ghost var rest := Digits(Ahead(len));
      assert Holds(start, s, istext);
      if |buf| != 4 {
        ContinuesShort(s, buf, rest, all);
        more, t := false, s;
      } else {
        more, t := UseGroup(buf, rest, istext, start, s, all);
        assert Digits(Ahead(len)) == rest;
      }
    }

    /** A whole group is decoded and written. */
    method UseGroup(buf: seq<Byte>, ghost rest: seq<Byte>, istext: bool, ghost start: seq<Byte>, ghost s: seq<int>,
                    ghost all: seq<int>)
      returns (more: bool, ghost t: seq<int>)
      requires Holds(start, s, istext) && l + (if cr then 1 else 0) <= 992 && |buf| == 4
      requires Continues(s, buf + rest, all)
      modifies `fpout, `l, `cr, bufi
      ensures Holds(start, t, istext) && l <= 995 && (more ==> l + (if cr then 1 else 0) <= 992)
      ensures if more then Continues(t, rest, all) else t == all
    {
      ContinuesFirst(s, buf, rest, all);
      t := s + Octets(buf[0], buf[1], buf[2], buf[3]);
      more := EmitAndFlush(buf, istext, start, s);
    }

    /** The end of the input: a CR held back stands for itself. */
    method Finish(istext: bool, ghost start: seq<Byte>, ghost s: seq<int>)
      requires Holds(start, s, istext) && l < BUFI_SIZE
      modifies `fpout, `l, bufi
      ensures Valid() && fpout == start + Chars(Body(s, istext))
    {
      EmittedIsBody(s, istext);
      CharsAppend(Emitted(s, istext), [CR as int]);
      assert Emitted(s, istext) + [] == Emitted(s, istext);
      assert Chars([CR as int]) == [CR];
      Reassociate(start, Chars(Emitted(s, istext)), [CR]);
      if cr {
        Put(CR);
      }
      Flush();
      assert fpout + bufi[..0] == fpout;
    }

    /** mutt_decode_base64: the body of the values the digits stand for. */
    method DecodeBase64(len0: int, istext: bool)
      requires Valid() && l == 0 && !cr
      modifies `pos, `fpout, `l, `cr, bufi
      ensures Valid() && fpout == old(fpout) + Chars(Body(Decoded(Digits(old(Ahead(len0)))), istext))
      ensures old(pos) <= pos <= old(pos) + if len0 > 0 then len0 else 0
    {
      ghost var start, s, all := Written(), [], Decoded(Digits(Ahead(len0)));
      var len, more := len0, true;
      assert fpout + bufi[..l] == fpout && start + Chars(Emitted([], istext)) == start;
      while len > 0 && more
        invariant Holds(start, s, istext) && l <= 995 && (more ==> l + (if cr then 1 else 0) <= 992)
        invariant if more then Continues(s, Digits(Ahead(len)), all) else s == all
        invariant old(pos) <= pos && (len0 <= 0 ==> more && len == len0 && pos == old(pos))
        invariant len0 > 0 ==> 0 <= len && pos <= old(pos) + if more then len0 - len else len0
        decreases more, len
      {
        more, len, s := DecodeGroup(len, istext, start, s, all);
      }
      if more {
        ContinuesEnd(s, Digits(Ahead(len)), all);
      }
      Finish(istext, start, s);
    }

    /** The input that mutt_decode_xbit reads: a negative len is no limit. */
    ghost function Rest(len: int): seq<Byte>
      reads this
      requires Valid()
    {
      if len < 0 then fpin[pos..] else Ahead(len)
    }

    method Ungetc(c: int)
      requires Valid() && (c != -1 ==> 0 < pos && c == fpin[pos - 1])
      modifies `pos
      ensures Valid() && pos == if c == -1 then old(pos) else old(pos) - 1
    {
      if c != -1 {
        pos := pos - 1;
      }
    }

    /** After a CR that len does not end with: the LF that follows, taken, or else the CR. */
    method LookAhead(len0: int) returns (c: int, len: int)
      requires Valid() && len0 != 0
      modifies `pos
      ensures Valid() && 0 <= c && old(pos) <= pos && pos - old(pos) == len0 - len <= 1
      ensures Lines([CR] + old(Rest(len0))) == [c] + Lines(Rest(len))
    {
      c, len := CR, len0;
      ghost var after := Rest(len);
      var ch := Getc();
      if ch == LF {
        c, len := ch, len - 1;
        assert ([CR] + after)[2..] == Rest(len) && after[0] == LF;
      } else {
        Ungetc(ch);
        assert Rest(len) == after && ([CR] + after)[1..] == after;
        assert after != [] ==> after[0] != LF;
      }
    }

    /** How far the input has been read: by as much as len has gone down, or, at the end of len, one character on. */
    ghost predicate Took(pos0: nat, len0: int, c: int, len: int)
      reads this
    {
      if c != -1 then pos - pos0 == len0 - len && (len0 >= 0 ==> len >= 0)
      else if len0 == 0 && pos0 < |fpin| then pos == pos0 + 1
      else pos == pos0 && (len0 == 0 || pos0 == |fpin|)
    }

    /** The next character of the text, looking ahead after a CR; -1 at the end of the input or of len. */
    method NextChar(len0: int) returns (c: int, len: int)
      requires Valid()
      modifies `pos
      ensures Valid() && -1 <= c && Took(old(pos), len0, c, len)
      ensures if c == -1 then Lines(old(Rest(len0))) == []
              else old(pos) < pos && Lines(old(Rest(len0))) == [c] + Lines(Rest(len))
    {
      len := len0 - 1;
      c := ReadChar(len0);
      if c == -1 || len0 == 0 {
        return -1, len;
      }
      if c == CR && len != 0 {
        c, len := LookAhead(len);
      } else {
        OrdinaryFirst(c, Rest(len));
      }
    }

    /** fgetc: the first character of what len still allows, if there is one. */
    method ReadChar(len: int) returns (c: int)
      requires Valid()
      modifies `pos
      ensures Valid() && -1 <= c && pos == (if old(pos) == |fpin| then old(pos) else old(pos) + 1)
      ensures c == -1 <==> old(pos) == |fpin|
      ensures if c == -1 || len == 0 then old(Rest(len)) == [] else old(Rest(len)) == [c] + Rest(len - 1)
      ensures len == 1 ==> Rest(len - 1) == []
    {
      ghost var rest := Rest(len);
      c := Getc();
      if c != -1 && len != 0 {
        assert rest[0] == c && rest[1..] == Rest(len - 1);
        assert rest == [rest[0]] + rest[1..];
      }
    }

    ghost predicate Copied(start: seq<Byte>, done: seq<int>)
      reads this, bufi
    {
      Valid() && l < BUFI_SIZE && Written() == start + Chars(done)
    }

    method PutText(c: int, ghost start: seq<Byte>, ghost done: seq<int>)
      requires Copied(start, done)
      modifies `fpout, `l, bufi
      ensures Copied(start, done + [c])
    {
      CharsAppend(done, [c]);
      assert Chars([c]) == [c % 256];
      Put(c);
      if l == BUFI_SIZE {
        Flush();
      }
    }

    /** The text written so far, the character at hand and what follows make up the decoded text. */
    ghost predicate Halfway(start: seq<Byte>, done: seq<int>, c: int, len: int, all: seq<int>)
      reads this, bufi
    {
      Copied(start, done) && -1 <= c && all == done + if c == -1 then [] else [c] + Lines(Rest(len))
    }

    method TextStep(c0: int, len0: int, ghost start: seq<Byte>, ghost done: seq<int>, ghost all: seq<int>)
      returns (c: int, len: int)
      requires Halfway(start, done, c0, len0, all) && c0 != -1
      modifies `pos, `fpout, `l, bufi
      ensures Halfway(start, done + [c0], c, len, all) && (c != -1 ==> old(pos) < pos)
      ensures Took(old(pos), len0, c, len)
    {
      ghost var rest, more := Rest(len0), done + [c0];
      Reassociate(done, [c0], Lines(rest));
      PutText(c0, start, done);
      assert Rest(len0) == rest && more + Lines(rest) == all;
      c, len := NextChar(len0);
      assert c != -1 ==> more + ([c] + Lines(Rest(len))) == all;
    }

    /** mutt_decode_xbit in text mode; it takes one character more than len from the input, if there is one. */
    method DecodeText(len0: int)
      requires Valid() && l == 0
      modifies `pos, `fpout, `l, bufi
      ensures Valid() && fpout == old(fpout) + Chars(Lines(old(Rest(len0))))
      ensures pos == if 0 <= len0 < |fpin| - old(pos) then old(pos) + len0 + 1 else |fpin|
    {
      ghost var start, all, done: seq<int> := fpout, Lines(Rest(len0)), [];
      assert fpout + bufi[..0] == fpout == start + Chars([]);
      var c, len := NextChar(len0);
      while c != -1
        invariant Halfway(start, done, c, len, all) && fpin == old(fpin)
        invariant if c != -1 then pos - old(pos) == len0 - len && (len0 >= 0 ==> len >= 0)
                  else pos == if 0 <= len0 < |fpin| - old(pos) then old(pos) + len0 + 1 else |fpin|
        decreases c != -1, |fpin| - pos
      {
        ghost var c0 := c;
        c, len := TextStep(c, len, start, done, all);
        done := done + [c0];
      }
      Flush();
      assert fpout + bufi[..0] == fpout && done + [] == done;
    }

    /** mutt_copy_bytes, in blocks of at most 2048; the size is unsigned, so a negative one copies all there is. */
    method CopyBytes(size0: int)
      requires Valid() && -LONG <= size0 && |fpin| < LONG
      modifies `pos, `fpout
      ensures pos == if 0 <= size0 <= |fpin| - old(pos) then old(pos) + size0 else |fpin|
      ensures fpout == old(fpout) + fpin[old(pos)..pos]
    {
      var size := if size0 < 0 then size0 + 2 * LONG else size0;
      ghost var end := if size <= |fpin| - pos then pos + size else |fpin|;
      while size > 0
        invariant 0 <= size && old(pos) <= pos <= |fpin| && fpout == old(fpout) + fpin[old(pos)..pos]
        invariant end == if size <= |fpin| - pos then pos + size else |fpin|
      {
        var chunk := if size > 2048 then 2048 else size;
        chunk := if chunk > |fpin| - pos then |fpin| - pos else chunk;
        if chunk < 1 {
          break;
        }
        Adjoining(fpin, old(pos), pos, pos + chunk);
        Reassociate(old(fpout), fpin[old(pos)..pos], fpin[pos..pos + chunk]);
        fpout := fpout + fpin[pos..pos + chunk];
        pos, size := pos + chunk, size - chunk;
      }
    }

    /** mutt_decode_xbit: a text is decoded, anything else copied. */
    method DecodeXbit(len: int, istext: bool)
      requires Valid() && l == 0 && -LONG <= len && |fpin| < LONG
      modifies `pos, `fpout, `l, bufi
      ensures istext ==> fpout == old(fpout) + Chars(Lines(old(Rest(len))))
      ensures !istext ==> old(pos) <= pos <= |fpin| && fpout == old(fpout) + fpin[old(pos)..pos]
      ensures !istext ==> pos == if 0 <= len <= |fpin| - old(pos) then old(pos) + len else |fpin|
    {
      if istext {
        DecodeText(len);
      } else {
        CopyBytes(len);
      }
    }
  }

  /** A character that begins no line end stands for itself. */
  lemma OrdinaryFirst(c: int, rest: seq<Byte>)
    requires c != CR || rest == []
    ensures Lines([c] + rest) == [c] + Lines(rest)
  {
    assert ([c] + rest)[1..] == rest;
  }

  lemma Adjoining(s: seq<Byte>, a: nat, b: nat, c: nat)
    requires a <= b <= c <= |s|
    ensures s[a..b] + s[b..c] == s[a..c]
  {
  }

  // ----- what comes out -----

  /** Whatever is mixed into base64 text, as long as it is not a digit: the decoder writes the encoded bytes, with
      their line ends decoded in text mode. */
  lemma NoiseIsSkipped(wire: seq<Byte>, x: seq<Byte>, istext: bool)
    requires Digits(wire) == Encode(x)
    ensures Chars(Body(Decoded(Digits(wire)), istext)) == Chars(Body(x, istext))
    ensures !istext ==> Chars(Body(x, istext)) == x
  {
    DecodedEncode(x);
    CharsOfBytes(x);
  }
}
