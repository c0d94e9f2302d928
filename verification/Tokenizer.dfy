/** The growing buffer and the tokenizer (buffer.c). */
module Tokenizer {
  import opened Bytes

  // Configuration lines are taken apart into tokens; and what aliases are written as (alias.c).

  const NUL: Byte := 0

  // ----- BUFFER -----

  /** dptr is the place of the next character; data holds at least dsize characters. */
  class Buffer {
    var data: array<Byte>
    var dsize: nat
    var dptr: nat

    ghost predicate Valid()
      reads this
    {
      dptr <= dsize <= data.Length
    }

    ghost function Contents(): seq<Byte>
      reads this, data
      requires Valid()
    {
      data[..dptr]
    }

    constructor ()
      ensures Valid() && fresh(data) && Contents() == []
    {
      data := new Byte[0];
      dsize, dptr := 0, 0;
    }

    /** mutt_buffer_add: the new characters follow the old, a NUL follows them, and all fit. */
    method Add(s: seq<Byte>)
      requires Valid()
      modifies this, data
      ensures Valid() && Contents() == old(Contents()) + s
      ensures dptr < dsize && data[dptr] == NUL
      ensures dsize >= old(dsize) && (data == old(data) || fresh(data))
    {
      var len := |s|;
      if dptr + len + 1 > dsize {
        Grow(dsize + if len < 128 then 128 else len + 1);
      }
      ghost var before := Contents();
      forall i | 0 <= i < len {
        data[dptr + i] := s[i];
      }
      assert data[..dptr] == before && data[dptr..dptr + len] == s;
      dptr := dptr + len;
      data[dptr] := NUL;
      assert data[..dptr] == before + s;
    }

    /** realloc: the characters stay. */
    method Grow(size: nat)
      requires Valid() && size >= dsize
      modifies this
      ensures Valid() && dsize == size && dptr == old(dptr) && fresh(data) && Contents() == old(Contents())
    {
      var grown := new Byte[size];
      forall i | 0 <= i < dptr {
        grown[i] := data[i];
      }
      data, dsize := grown, size;
    }
  }

  // ----- tokens -----

  datatype Flags = Flags(equal: bool, condense: bool, space: bool, quote: bool, pattern: bool, comment: bool,
                         semicolon: bool)

  predicate IsSpace(c: int) {
    c == 32 || 9 <= c <= 13
  }

  predicate IsDigit(c: int) {
    '0' as int <= c <= '9' as int
  }

  predicate IsAlpha(c: int) {
    'A' as int <= c <= 'Z' as int || 'a' as int <= c <= 'z' as int
  }

  function Upper(c: Byte): Byte {
    if 'a' as int <= c <= 'z' as int then c - 32 else c
  }

  function Ch(c: char): (b: Byte)
    requires c < 128 as char
  {
    c as int
  }

  /** The character at place i of a C string. */
  function At(s: seq<Byte>, i: nat): Byte {
    if i < |s| then s[i] else NUL
  }

  /** One turn of the tokenizer: it stops, fails, meets a command or a variable, or takes some characters, adding to
      the token and changing the quote it is in. */
  datatype Turn = Stop | Fail | External | Take(used: nat, out: seq<Byte>, quote: Byte)

  predicate Ends(ch: Byte, flags: Flags) {
    (IsSpace(ch) && !flags.space) || (ch == Ch('#') && !flags.comment) || (ch == Ch('=') && flags.equal) ||
    (ch == Ch(';') && !flags.semicolon) || (flags.pattern && ch in [Ch('~'), Ch('='), Ch('!'), Ch('|')])
  }

  /** The control character a letter stands for after a backslash, NUL if none. */
  function Letter(ch: Byte): Byte {
    if ch == Ch('r') then 13
    else if ch == Ch('n') then 10
    else if ch == Ch('t') then 9
    else if ch == Ch('f') then 12
    else if ch == Ch('e') then 27
    else NUL
  }

  /** The character with the number that three digits spell in base eight, 8 and 9 counting as digits too. */
  function Numbered(a: Byte, b: Byte, c: Byte): (d: Byte)
    ensures var zero := '0' as int; d == ((a - zero) * 64 + (b - zero) * 8 + (c - zero)) % 256
  {
    (a as int * 64 + b as int * 8 + c as int - 3504) % 256
  }

  /** After a backslash, at the head of s. */
  function Escape(s: seq<Byte>, quote: Byte): (t: Turn)
    ensures t.Take? ==> 2 <= t.used <= |s| + 1
  {
    if s == [] then Fail
    else
      var ch := s[0];
      if ch == Ch('c') || ch == Ch('C') then
        if |s| == 1 then Fail else Take(3, [(Upper(s[1]) - Ch('@')) % 128], quote)
      else if Letter(ch) != NUL then Take(2, [Letter(ch)], quote)
      else if IsDigit(ch) && IsDigit(At(s, 1)) && IsDigit(At(s, 2)) then
        Take(4, [Numbered(ch, At(s, 1), At(s, 2))], quote)
      else Take(2, [ch], quote)
  }

  /** After a caret, at the head of s. */
  function Condense(s: seq<Byte>, quote: Byte): (t: Turn)
    ensures t.Take? ==> t.used == 2 <= |s| + 1
  {
    if s == [] then Fail
    else if s[0] == Ch('^') then Take(2, [s[0]], quote)
    else if s[0] == Ch('[') then Take(2, [27], quote)
    else if IsAlpha(s[0]) then Take(2, [Upper(s[0]) - Ch('@')], quote)
    else Take(2, [Ch('^'), s[0]], quote)
  }

  /** Any three digits after a backslash, octal or not, are one character, unless in single quotes. */
  lemma ThreeDigits(a: Byte, b: Byte, c: Byte, rest: seq<Byte>, flags: Flags, quote: Byte)
    requires 48 <= a <= 57 && 48 <= b <= 57 && 48 <= c <= 57 && quote != Ch('\'') && quote != Ch('\\')
    ensures Next([Ch('\\'), a, b, c] + rest, flags, quote) ==
            Take(4, [((a - 48) * 64 + (b - 48) * 8 + (c - 48)) % 256], quote)
  {
    var s := [Ch('\\'), a, b, c] + rest;
    assert s[1..][0] == a && At(s[1..], 1) == b && At(s[1..], 2) == c;
  }

  function Next(s: seq<Byte>, flags: Flags, quote: Byte): (t: Turn)
    requires s != []
    ensures t.Take? ==> 1 <= t.used <= |s|
  {
    var ch := s[0];
    if quote == NUL && Ends(ch, flags) then Stop
    else if ch == quote then Take(1, [], NUL)
    else if quote == NUL && (ch == Ch('\'') || ch == Ch('"')) && !flags.quote then Take(1, [], ch)
    else if ch == Ch('\\') && quote != Ch('\'') then Escape(s[1..], quote)
    else if ch == Ch('^') && flags.condense then Condense(s[1..], quote)
    else if ch == Ch('`') && (quote == NUL || quote == Ch('"')) then External
    else if ch == Ch('$') && (quote == NUL || quote == Ch('"')) && (At(s, 1) == Ch('{') ||
        IsAlpha(At(s, 1))) then External
    else Take(1, [ch], quote)
  }

  function SkipSpace(s: seq<Byte>): (r: seq<Byte>)
    ensures |r| <= |s| && (r != [] ==> !IsSpace(r[0]))
  {
    if s != [] && IsSpace(s[0]) then SkipSpace(s[1..]) else s
  }

  datatype Outcome = Token(text: seq<Byte>, rest: seq<Byte>) | Malformed | NeedsShell

  /** The token at the head of a NUL-free string, with what has been collected of it before. */
  function Collect(s: seq<Byte>, flags: Flags, quote: Byte, before: seq<Byte>): Outcome
    decreases |s|
  {
    if s == [] then Token(before, [])
    else
      match Next(s, flags, quote)
      case Stop => Token(before, SkipSpace(s))
      case Fail => Malformed
      case External => NeedsShell
      case Take(used, out, q) => Collect(s[used..], flags, q, before + out)
  }

  function Extract(s: seq<Byte>, flags: Flags): Outcome {
    Collect(SkipSpace(s), flags, NUL, [])
  }

  /** The string being parsed; the characters from dptr on are still to come. */
  class Input {
    var text: seq<Byte>
    var dptr: nat

    ghost predicate Valid()
      reads this
    {
      dptr <= |text| && NUL !in text
    }

    ghost function Rest(): seq<Byte>
      reads this
      requires Valid()
    {
      text[dptr..]
    }

    constructor (text: seq<Byte>)
      requires NUL !in text
      ensures Valid() && Rest() == text
    {
      this.text, dptr := text, 0;
    }

    /** *dptr, the NUL at the end included. */
    method Peek() returns (c: Byte)
      requires Valid()
      ensures c == At(Rest(), 0) && (c == NUL <==> Rest() == [])
    {
      c := if dptr < |text| then text[dptr] else NUL;
    }

    method Advance()
      requires Valid() && Rest() != []
      modifies `dptr
      ensures Valid() && Rest() == old(Rest())[1..]
    {
      dptr := dptr + 1;
    }

    /** SKIPWS. */
    method Skip()
      requires Valid()
      modifies `dptr
      ensures Valid() && Rest() == SkipSpace(old(Rest()))
    {
      var c := Peek();
      while IsSpace(c)
        invariant Valid() && SkipSpace(Rest()) == SkipSpace(old(Rest()))
        invariant c == At(Rest(), 0) && (c == NUL <==> Rest() == [])
        decreases |text| - dptr
      {
        Advance();
        c := Peek();
      }
    }
  }

  /** What a turn leaves: r is -1 for a premature end of the string. */
  ghost predicate Taken(turn: Turn, s: seq<Byte>, before: seq<Byte>, quote: Byte, r: int, rest: seq<Byte>,
                        after: seq<Byte>)
  {
    match turn
    case Fail => r == -1
    case Take(used, out, q) => 1 <= used <= |s| && r == 0 && rest == s[used..] && after == before + out && quote == q
    case _ => false
  }

  /** What is left of s behind a first character b. */
  lemma Behind(b: Byte, s: seq<Byte>)
    requires s != []
    ensures ([b] + s)[2..] == s[1..] && (|s| >= 2 ==> ([b] + s)[3..] == s[2..] == s[1..][1..])
    ensures |s| >= 3 ==> ([b] + s)[4..] == s[3..] == s[1..][2..]
    ensures At(s, 1) == At(s[1..], 0) && At(s, 2) == At(s[1..], 1)
  {
  }

  /** The characters after a backslash. */
  method TakeEscape(dest: Buffer, tok: Input, quote: Byte) returns (r: int)
    requires dest.Valid() && tok.Valid()
    modifies dest, dest.data, tok
    ensures dest.Valid() && tok.Valid() && (dest.data == old(dest.data) || fresh(dest.data)) &&
            tok.text == old(tok.text)
    ensures Taken(Escape(old(tok.Rest()), quote), [Ch('\\')] + old(tok.Rest()), old(dest.Contents()), quote, r,
                  tok.Rest(), dest.Contents())
  {
    ghost var s := tok.Rest();
    var ch := tok.Peek();
    if ch == NUL {
      return -1;
    }
    Behind(Ch('\\'), s);
    tok.Advance();
    var next := tok.Peek();
    if ch == Ch('c') || ch == Ch('C') {
      if next == NUL {
        return -1;
      }
      dest.Add([(Upper(next) - Ch('@')) % 128]);
      tok.Advance();
    } else if Letter(ch) != NUL {
      dest.Add([Letter(ch)]);
    } else {
      TakeDigits(dest, tok, ch);
    }
    return 0;
  }

  /** Three digits stand for a character, any other character for itself. */
  method TakeDigits(dest: Buffer, tok: Input, ch: Byte)
    requires dest.Valid() && tok.Valid()
    modifies dest, dest.data, tok
    ensures dest.Valid() && tok.Valid() && (dest.data == old(dest.data) || fresh(dest.data)) &&
            tok.text == old(tok.text)
    ensures var s := old(tok.Rest());
            if IsDigit(ch) && IsDigit(At(s, 0)) && IsDigit(At(s, 1)) then
              |s| >= 2 && tok.Rest() == s[2..] &&
              dest.Contents() == old(dest.Contents()) + [Numbered(ch, s[0], s[1])]
            else tok.Rest() == s && dest.Contents() == old(dest.Contents()) + [ch]
  {
    var d1 := if tok.dptr < |tok.text| then tok.text[tok.dptr] else NUL;
    if IsDigit(ch) && IsDigit(d1) {
      var d2 := if tok.dptr + 1 < |tok.text| then tok.text[tok.dptr + 1] else NUL;
      if IsDigit(d2) {
        dest.Add([Numbered(ch, d1, d2)]);
        tok.dptr := tok.dptr + 2;
        return;
      }
    }
    dest.Add([ch]);
  }

  /** The characters after a caret. */
  method TakeCaret(dest: Buffer, tok: Input, quote: Byte) returns (r: int)
    requires dest.Valid() && tok.Valid()
    modifies dest, dest.data, tok
    ensures dest.Valid() && tok.Valid() && (dest.data == old(dest.data) || fresh(dest.data)) &&
            tok.text == old(tok.text)
    ensures Taken(Condense(old(tok.Rest()), quote), [Ch('^')] + old(tok.Rest()), old(dest.Contents()), quote, r,
                  tok.Rest(), dest.Contents())
  {
    ghost var s, before := tok.Rest(), dest.Contents();
    assert s != [] ==> ([Ch('^')] + s)[2..] == s[1..];
    var ch := tok.Peek();
    if ch == NUL {
      return -1;
    }
    tok.Advance();
    if ch == Ch('^') {
      dest.Add([ch]);
    } else if ch == Ch('[') {
      dest.Add([27]);
    } else if IsAlpha(ch) {
      dest.Add([Upper(ch) - Ch('@')]);
    } else {
      dest.Add([Ch('^')]);
      dest.Add([ch]);
      assert dest.Contents() == before + [Ch('^'), ch];
    }
    return 0;
  }

  datatype Progress = Going | Ended | Short | Outside

  /** One turn of the loop of mutt_extract_token. */
  method OneTurn(dest: Buffer, tok: Input, flags: Flags, quote: Byte) returns (p: Progress, qc: Byte)
    requires dest.Valid() && tok.Valid() && tok.Rest() != []
    modifies dest, dest.data, tok
    ensures dest.Valid() && tok.Valid() && (dest.data == old(dest.data) || fresh(dest.data)) &&
            tok.text == old(tok.text)
    ensures match Next(old(tok.Rest()), flags, quote)
            case Stop => p == Ended && tok.Rest() == old(tok.Rest()) && dest.Contents() == old(dest.Contents())
            case Fail => p == Short
            case External => p == Outside
            case Take(used, out, q) =>
              p == Going && tok.Rest() == old(tok.Rest())[used..] && dest.Contents() == old(dest.Contents()) + out &&
              qc == q
  {
    ghost var s, before := tok.Rest(), dest.Contents();
    p, qc := Going, quote;
    var ch := tok.Peek();
    if qc == NUL && Ends(ch, flags) {
      return Ended, qc;
    }
    tok.Advance();
    assert s == [ch] + tok.Rest() && At(s, 1) == At(tok.Rest(), 0);
    assert before + [] == before;
    if ch == qc {
      qc := NUL;
    } else if qc == NUL && (ch == Ch('\'') || ch == Ch('"')) && !flags.quote {
      qc := ch;
    } else if ch == Ch('\\') && qc != Ch('\'') {
      var r := TakeEscape(dest, tok, qc);
      p := if r == -1 then Short else Going;
    } else if ch == Ch('^') && flags.condense {
      var r := TakeCaret(dest, tok, qc);
      p := if r == -1 then Short else Going;
    } else if ch == Ch('`') && (qc == NUL || qc == Ch('"')) {
      p := Outside;
    } else {
      var next := tok.Peek();
      if ch == Ch('$') && (qc == NUL || qc == Ch('"')) && (next == Ch('{') || IsAlpha(next)) {
        p := Outside;
      } else {
        dest.Add([ch]);
      }
    }
  }

  /** mutt_extract_token, up to the first command or variable that is to be expanded. */
  method ExtractToken(dest: Buffer, tok: Input, flags: Flags) returns (p: Progress)
    requires dest.Valid() && tok.Valid()
    modifies dest, dest.data, tok
    ensures match Extract(old(tok.Rest()), flags)
            case Token(text, rest) =>
              p == Ended && dest.Valid() && tok.Valid() && dest.Contents() == text + [NUL] && tok.Rest() == rest
            case Malformed => p == Short
            case NeedsShell => p == Outside
  {
    dest.dptr := 0;
    tok.Skip();
    p := Going;
    var qc := NUL;
    assert dest.Contents() == [];
    while p == Going && tok.dptr < |tok.text|
      invariant dest.Valid() && tok.Valid() && (dest.data == old(dest.data) || fresh(dest.data))
      invariant tok.text == old(tok.text)
      invariant match p
                case Short => Extract(old(tok.Rest()), flags) == Malformed
                case Outside => Extract(old(tok.Rest()), flags) == NeedsShell
                case Going => Extract(old(tok.Rest()), flags) == Collect(tok.Rest(), flags, qc, dest.Contents())
                case Ended => Extract(old(tok.Rest()), flags) == Token(dest.Contents(), SkipSpace(tok.Rest()))
      decreases p == Going, |tok.text| - tok.dptr
    {
      p, qc := OneTurn(dest, tok, flags, qc);
    }
    if p == Short || p == Outside {
      return;
    }
    assert p == Going ==> tok.Rest() == [];
    dest.Add([NUL]);
    tok.Skip();
    p := Ended;
  }

  // ----- what aliases are written as -----

  predicate Unsafe(c: Byte) {
    c == Ch('\\') || c == Ch('`') || c == Ch('\'') || c == Ch('"') || c == Ch('$')
  }

  function Guarded(c: Byte): seq<Byte> {
    if Unsafe(c) then [Ch('\\'), c] else [c]
  }

  function Safe(s: seq<Byte>): seq<Byte> {
    if s == [] then [] else Guarded(s[0]) + Safe(s[1..])
  }

  lemma SafeStep(out: seq<Byte>, s: seq<Byte>, i: nat)
    requires i < |s|
    ensures out + Safe(s[i..]) == out + Guarded(s[i]) + Safe(s[i + 1..])
    ensures Unsafe(s[i]) ==> out + Guarded(s[i]) == out + [Ch('\\')] + [s[i]]
  {
    assert s[i..][0] == s[i] && s[i..][1..] == s[i + 1..];
  }

  /** write_safe_address. */
  method WriteSafeAddress(s: seq<Byte>) returns (out: seq<Byte>)
    ensures out == Safe(s)
  {
    out := [];
    for i := 0 to |s|
      invariant out + Safe(s[i..]) == Safe(s)
    {
      SafeStep(out, s, i);
      if s[i] == Ch('\\') || s[i] == Ch('`') || s[i] == Ch('\'') || s[i] == Ch('"') || s[i] == Ch('$') {
        out := out + [Ch('\\')];
      }
      out := out + [s[i]];
    }
  }

  /** The flags under which an address is read back: quotes, spaces and semicolons are ordinary characters. */
  predicate ReadsAddress(flags: Flags) {
    flags.quote && flags.space && flags.semicolon && !flags.equal && !flags.condense && !flags.pattern
  }

  /** What is left of a text that a comment may cut short. */
  function Uncommented(s: seq<Byte>, flags: Flags): seq<Byte> {
    if s == [] || (s[0] == Ch('#') && !flags.comment) then [] else [s[0]] + Uncommented(s[1..], flags)
  }

  lemma GuardedTurn(c: Byte, rest: seq<Byte>, flags: Flags)
    requires ReadsAddress(flags) && c != NUL
    ensures Next(Guarded(c) + rest, flags, NUL) ==
            if c == Ch('#') && !flags.comment then Stop else Take(|Guarded(c)|, [c], NUL)
  {
    var s := Guarded(c) + rest;
    if Unsafe(c) {
      assert s[1..][0] == c;
    }
  }

  lemma CollectGuarded(c: Byte, rest: seq<Byte>, flags: Flags, before: seq<Byte>)
    requires ReadsAddress(flags) && c != NUL
    ensures var s := Guarded(c) + rest;
            Collect(s, flags, NUL, before) ==
            if c == Ch('#') && !flags.comment then Token(before, SkipSpace(s))
            else Collect(rest, flags, NUL, before + [c])
  {
    GuardedTurn(c, rest, flags);
    assert (Guarded(c) + rest)[|Guarded(c)|..] == rest;
  }

  /** Collecting the written address, one character of the address at a time. */
  function Recover(s: seq<Byte>, flags: Flags, before: seq<Byte>): Outcome {
    if s == [] then Token(before, [])
    else if s[0] == Ch('#') && !flags.comment then Token(before, SkipSpace(Safe(s)))
    else Recover(s[1..], flags, before + [s[0]])
  }

  lemma {:induction false} CollectSafe(s: seq<Byte>, flags: Flags, before: seq<Byte>)
    requires ReadsAddress(flags) && NUL !in s
    ensures Collect(Safe(s), flags, NUL, before) == Recover(s, flags, before)
  {
    if s != [] {
      CollectGuarded(s[0], Safe(s[1..]), flags, before);
      CollectSafe(s[1..], flags, before + [s[0]]);
    }
  }

  lemma {:induction false} RecoverText(s: seq<Byte>, flags: Flags, before: seq<Byte>)
    ensures var o := Recover(s, flags, before);
            o.Token? && o.text == before + Uncommented(s, flags) && (Uncommented(s, flags) == s ==> o.rest == [])
  {
    if s == [] || (s[0] == Ch('#') && !flags.comment) {
      assert before + [] == before;
    } else {
      RecoverText(s[1..], flags, before + [s[0]]);
      assert before + [s[0]] + Uncommented(s[1..], flags) == before + Uncommented(s, flags);
      assert Uncommented(s, flags)[1..] == Uncommented(s[1..], flags);
    }
  }

  lemma {:induction false} SafeSkips(s: seq<Byte>)
    ensures SkipSpace(Safe(s)) == Safe(SkipSpace(s))
  {
    if s != [] && IsSpace(s[0]) {
      SafeSkips(s[1..]);
      assert Safe(s)[1..] == Safe(s[1..]);
    }
  }

  lemma {:induction false} UncommentedIff(s: seq<Byte>, flags: Flags)
    ensures |Uncommented(s, flags)| <= |s|
    ensures Uncommented(s, flags) == s <==> flags.comment || Ch('#') !in s
  {
    if s != [] {
      UncommentedIff(s[1..], flags);
      assert s == [s[0]] + s[1..];
    }
  }

  lemma {:induction false} SkippedIsEnd(s: seq<Byte>)
    ensures exists k: nat :: k <= |s| && SkipSpace(s) == s[k..]
    ensures NUL !in s ==> NUL !in SkipSpace(s)
  {
    if s != [] && IsSpace(s[0]) {
      SkippedIsEnd(s[1..]);
      var k: nat :| k <= |s[1..]| && SkipSpace(s[1..]) == s[1..][k..];
      assert SkipSpace(s) == s[k + 1..];
    } else {
      assert SkipSpace(s) == s[0..];
    }
  }

  /** A written address is read back as a token without ever reaching a command or a variable; and as the same
      address exactly when it does not start with a space and, unless comments are kept, has no #. */
  lemma SafeRoundTripIff(s: seq<Byte>, flags: Flags)
    requires ReadsAddress(flags) && NUL !in s
    ensures var o := Extract(Safe(s), flags);
            o.Token? && o.text == Uncommented(SkipSpace(s), flags) &&
            (o.text == s <==> (s == [] || !IsSpace(s[0])) && (flags.comment || Ch('#') !in s)) &&
            (o.text == s ==> o.rest == [])
  {
    var t := SkipSpace(s);
    SafeSkips(s);
    SkippedIsEnd(s);
    CollectSafe(t, flags, []);
    RecoverText(t, flags, []);
    assert [] + Uncommented(t, flags) == Uncommented(t, flags);
    UncommentedIff(t, flags);
    if s != [] && IsSpace(s[0]) {
      assert |t| < |s|;
    }
  }
}
