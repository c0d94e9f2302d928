/** What the pieces of a token mean to the tokenizer (mutt_extract_token, buffer.c): words, quotes, escapes, carets,
    commands and variables. */
module TokenMeaning {
  import opened Bytes
  import opened Tokenizer

  const BACKSLASH: Byte := 92
  const CARET: Byte := 94
  const SINGLE: Byte := 39
  const DOUBLE: Byte := 34
  const BACKTICK: Byte := 96
  const DOLLAR: Byte := 36

  /** White space, #, =, ; and the pattern characters end a token, as the flags say. */
  predicate Terminates(c: Byte, flags: Flags) {
    (c in [32, 9, 10, 11, 12, 13] && !flags.space) || (c == 35 && !flags.comment) || (c == 61 && flags.equal) ||
    (c == 59 && !flags.semicolon) || (flags.pattern && (c == 126 || c == 61 || c == 33 || c == 124))
  }

  /** A character that means itself outside quotes. */
  predicate Ordinary(c: Byte, flags: Flags) {
    c != 0 && !Terminates(c, flags) && c != BACKSLASH && c != BACKTICK && c != DOLLAR &&
    ((c == SINGLE || c == DOUBLE) ==> flags.quote) && (c == CARET ==> !flags.condense)
  }

  /** Inside these quotes the characters s, with rest behind them, add out to the token. */
  ghost predicate Adds(s: seq<Byte>, rest: seq<Byte>, flags: Flags, quote: Byte, out: seq<Byte>) {
    forall before :: Collect(s + rest, flags, quote, before) == Collect(rest, flags, quote, before + out)
  }

  lemma OneTurnAdds(s: seq<Byte>, rest: seq<Byte>, flags: Flags, quote: Byte, out: seq<Byte>)
    requires s != [] && Next(s + rest, flags, quote) == Take(|s|, out, quote)
    ensures Adds(s, rest, flags, quote, out)
  {
    assert (s + rest)[|s|..] == rest;
  }

  lemma {:induction false} WordAdds(w: seq<Byte>, rest: seq<Byte>, flags: Flags)
    requires forall i :: 0 <= i < |w| ==> Ordinary(w[i], flags)
    ensures Adds(w, rest, flags, 0, w)
  {
    forall before
      ensures Collect(w + rest, flags, 0, before) == Collect(rest, flags, 0, before + w)
    {
      if w == [] {
        assert w + rest == rest && before + w == before;
      } else {
        assert [w[0]] + (w[1..] + rest) == w + rest;
        OneTurnAdds([w[0]], w[1..] + rest, flags, 0, [w[0]]);
        WordAdds(w[1..], rest, flags);
        assert before + [w[0]] + w[1..] == before + w;
      }
    }
  }

  /** A word of ordinary characters, up to the end or a character that terminates it, is the token; spaces before it
      and behind it are skipped. */
  lemma PlainWord(w: seq<Byte>, rest: seq<Byte>, flags: Flags)
    requires forall i :: 0 <= i < |w| ==> Ordinary(w[i], flags)
    requires w != [] && !IsSpace(w[0]) && (rest == [] || (rest[0] != 0 && Terminates(rest[0], flags)))
    ensures Extract(w + rest, flags) == Token(w, SkipSpace(rest))
  {
    WordAdds(w, rest, flags);
    assert SkipSpace(w + rest) == w + rest && [] + w == w;
    assert Collect(w + rest, flags, 0, []) == Collect(rest, flags, 0, w);
  }

  lemma {:induction false} QuotedAdds(w: seq<Byte>, rest: seq<Byte>, flags: Flags, quote: Byte)
    requires quote == SINGLE || quote == DOUBLE
    requires forall i :: 0 <= i < |w| ==> w[i] != quote && (w[i] == CARET ==> !flags.condense)
    requires quote == DOUBLE ==> forall i :: 0 <= i < |w| ==> w[i] != BACKSLASH && w[i] != BACKTICK && w[i] != DOLLAR
    ensures Adds(w, rest, flags, quote, w)
  {
    forall before
      ensures Collect(w + rest, flags, quote, before) == Collect(rest, flags, quote, before + w)
    {
      if w == [] {
        assert w + rest == rest && before + w == before;
      } else {
        assert [w[0]] + (w[1..] + rest) == w + rest;
        OneTurnAdds([w[0]], w[1..] + rest, flags, quote, [w[0]]);
        QuotedAdds(w[1..], rest, flags, quote);
        assert before + [w[0]] + w[1..] == before + w;
      }
    }
  }

  /** Between single quotes every character means itself, and between double quotes every one but the backslash, the
      backtick and the dollar; in both, the caret only if it is not a control prefix. The quotes are taken away. */
  lemma Quoted(w: seq<Byte>, rest: seq<Byte>, flags: Flags, quote: Byte)
    requires !flags.quote && (quote == SINGLE || quote == DOUBLE)
    requires forall i :: 0 <= i < |w| ==> w[i] != quote && (w[i] == CARET ==> !flags.condense)
    requires quote == DOUBLE ==> forall i :: 0 <= i < |w| ==> w[i] != BACKSLASH && w[i] != BACKTICK && w[i] != DOLLAR
    ensures Adds([quote] + w + [quote], rest, flags, 0, w)
  {
    var tail := [quote] + rest;
    QuotedAdds(w, tail, flags, quote);
    forall before
      ensures Collect([quote] + w + [quote] + rest, flags, 0, before) == Collect(rest, flags, 0, before + w)
    {
      var all := [quote] + w + [quote] + rest;
      assert all[0] == quote && all[1..] == w + tail && before + [] == before;
      assert Next(all, flags, 0) == Take(1, [], quote);
      assert Next(tail, flags, quote) == Take(1, [], 0);
      assert tail[1..] == rest && before + w + [] == before + w;
    }
  }

  /** Outside single quotes a backslash makes r, n, t, f and e the control characters CR, LF, tab, form feed and
      escape; */
  lemma ControlLetters(c: Byte, rest: seq<Byte>, flags: Flags, quote: Byte, out: Byte)
    requires quote == 0 || quote == DOUBLE
    requires (c == 114 && out == 13) || (c == 110 && out == 10) || (c == 116 && out == 9) || (c == 102 && out == 12) ||
             (c == 101 && out == 27)
    ensures Adds([BACKSLASH, c], rest, flags, quote, [out])
  {
    var s := [BACKSLASH, c] + rest;
    assert s[0] == BACKSLASH && s[1..][0] == c;
    OneTurnAdds([BACKSLASH, c], rest, flags, quote, [out]);
  }

  /** c or C and a character its control character: the letters from 1 on, in any case; of any other character the low
      seven bits with the seventh flipped, so that ? gives DEL; */
  lemma ControlCharacters(c: Byte, other: Byte, rest: seq<Byte>, flags: Flags, quote: Byte)
    requires (quote == 0 || quote == DOUBLE) && (c == 99 || c == 67)
    ensures var out := if 65 <= other <= 90 then other - 64 else if 97 <= other <= 122 then other - 96
                       else if other % 128 < 64 then other % 128 + 64 else other % 128 - 64;
            Adds([BACKSLASH, c, other], rest, flags, quote, [out])
  {
    var s := [BACKSLASH, c, other] + rest;
    assert s[0] == BACKSLASH && s[1..][0] == c && s[1..][1] == other;
    OneTurnAdds([BACKSLASH, c, other], rest, flags, quote,
                [if 65 <= other <= 90 then other - 64 else if 97 <= other <= 122 then other - 96
                 else if other % 128 < 64 then other % 128 + 64 else other % 128 - 64]);
  }

  /** and any other character that does not begin three digits itself, quotes and terminators included. */
  lemma EscapedCharacter(c: Byte, rest: seq<Byte>, flags: Flags, quote: Byte)
    requires (quote == 0 || quote == DOUBLE) && c !in [114, 110, 116, 102, 101, 99, 67]
    requires !(48 <= c <= 57 && |rest| > 1 && 48 <= rest[0] <= 57 && 48 <= rest[1] <= 57)
    ensures Adds([BACKSLASH, c], rest, flags, quote, [c])
  {
    var s := [BACKSLASH, c] + rest;
    assert s[0] == BACKSLASH && s[1..] == [c] + rest;
    OneTurnAdds([BACKSLASH, c], rest, flags, quote, [c]);
  }

  /** A caret, where it is a control prefix, makes a letter its control character and [ escape, stands for itself when
      doubled, and stays before any other character. */
  lemma CaretAdds(c: Byte, rest: seq<Byte>, flags: Flags, quote: Byte)
    requires flags.condense && quote != CARET && (quote == 0 ==> !Terminates(CARET, flags))
    ensures Adds([CARET, c], rest, flags, quote,
                 if 65 <= c <= 90 then [c - 64] else if 97 <= c <= 122 then [c - 96]
                 else if c == 91 then [27] else if c == CARET then [CARET] else [CARET, c])
  {
    var s := [CARET, c] + rest;
    assert s[0] == CARET && s[1..][0] == c;
    OneTurnAdds([CARET, c], rest, flags, quote,
                if 65 <= c <= 90 then [c - 64] else if 97 <= c <= 122 then [c - 96]
                else if c == 91 then [27] else if c == CARET then [CARET] else [CARET, c]);
  }

  /** A backtick begins a command, and a dollar before a letter or a brace a variable, except in single quotes; any
      other dollar stands for itself. */
  lemma CommandsAndVariables(s: seq<Byte>, flags: Flags, quote: Byte, before: seq<Byte>)
    requires s != [] && (quote == 0 || quote == DOUBLE)
    ensures s[0] == BACKTICK ==> Collect(s, flags, quote, before) == NeedsShell
    ensures s[0] == DOLLAR ==>
              (Next(s, flags, quote) == External <==>
               |s| > 1 && (s[1] == 123 || 65 <= s[1] <= 90 || 97 <= s[1] <= 122))
    ensures s[0] == DOLLAR && Next(s, flags, quote) != External ==> Next(s, flags, quote) == Take(1, [DOLLAR], quote)
  {
  }

  /** A backslash with nothing behind it is malformed. */
  lemma DanglingBackslash(flags: Flags, quote: Byte, before: seq<Byte>)
    requires quote == 0 || quote == DOUBLE
    ensures Collect([BACKSLASH], flags, quote, before) == Malformed
  {
    assert [BACKSLASH][1..] == [];
  }
}
