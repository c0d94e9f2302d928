/** The line editor's buffer and its window (enter.c). */
module Enter {
  import opened EditLine
  import opened Sequences
  import opened Window

  class EnterState {
    var wbuf: array<int>
    var lastchar: nat
    var curpos: nat
    var begin: nat

    ghost predicate Valid()
      reads this
    {
      curpos <= lastchar <= wbuf.Length
    }

    ghost function Value(): Line
      reads this, wbuf
      requires Valid()
    {
      Line(wbuf[..lastchar], curpos)
    }

    constructor ()
      ensures Valid() && fresh(wbuf) && Value() == Line([], 0) && begin == 0
    {
      wbuf := new int[0];
      lastchar, curpos, begin := 0, 0, 0;
    }

    /** Back from i0 over the characters that satisfy p. */
    method Back(p: int -> bool, i0: nat) returns (i: nat)
      requires Valid() && i0 <= lastchar
      ensures i == Before(p, wbuf[..lastchar], i0)
    {
      i := i0;
      while i > 0 && p(wbuf[i - 1])
        invariant i <= i0 && forall k :: i <= k < i0 ==> p(wbuf[k])
      {
        i := i - 1;
      }
      BeforeIs(p, wbuf[..lastchar], i0, i);
    }

    /** On from i0 over the characters that satisfy p. */
    method Ahead(p: int -> bool, i0: nat) returns (i: nat)
      requires Valid() && i0 <= lastchar
      ensures i == After(p, wbuf[..lastchar], i0)
    {
      i := i0;
      while i < lastchar && p(wbuf[i])
        invariant i0 <= i <= lastchar && forall k :: i0 <= k < i ==> p(wbuf[k])
      {
        i := i + 1;
      }
      AfterIs(p, wbuf[..lastchar], i0, i);
    }

    // ----- deleting -----

    /** memmove of the characters from j on down to i. */
    method Remove(i: nat, j: nat)
      requires Valid() && i <= j <= lastchar && (i == curpos || j == curpos)
      modifies this, wbuf
      ensures Valid() && wbuf == old(wbuf) && Value() == Cut(old(Value().text), i, j)
    {
      ghost var s := wbuf[..lastchar];
      var n := lastchar - (j - i);
      forall k | i <= k < n {
        wbuf[k] := wbuf[k + (j - i)];
      }
      assert wbuf[..n] == s[..i] + s[j..] by {
        assert forall k :: 0 <= k < i ==> wbuf[k] == s[k];
        assert forall k :: i <= k < n ==> wbuf[k] == s[k + (j - i)];
      }
      lastchar := n;
      curpos := i;
    }

    method Backspace(loc: Locale)
      requires Valid()
      modifies this, wbuf
      ensures Valid() && wbuf == old(wbuf) && Value() == Apply(loc, old(Value()), Command.Backspace)
    {
      if curpos == 0 {
        assert wbuf[..lastchar] == wbuf[..lastchar][..0] + wbuf[..lastchar][0..];
        return;
      }
      var i := Back(CombOf(loc), curpos);
      if i > 0 {
        i := i - 1;
      }
      Remove(i, curpos);
    }

    method DeleteChar(loc: Locale)
      requires Valid()
      modifies this, wbuf
      ensures Valid() && wbuf == old(wbuf) && Value() == Apply(loc, old(Value()), Command.DeleteChar)
    {
      if curpos == lastchar {
        assert wbuf[..lastchar] == wbuf[..lastchar][..curpos] + wbuf[..lastchar][curpos..];
        return;
      }
      var i := FindDeleteEnd(loc);
      Remove(curpos, i);
    }

    method FindDeleteEnd(loc: Locale) returns (i: nat)
      requires Valid()
      ensures i == DeleteEnd(loc, wbuf[..lastchar], curpos)
    {
      i := Ahead(CombOf(loc), curpos);
      if i < lastchar {
        i := Ahead(CombOf(loc), i + 1);
      }
    }

    method KillLine(loc: Locale)
      requires Valid()
      modifies this
      ensures Valid() && wbuf == old(wbuf) && Value() == Apply(loc, old(Value()), Command.KillLine)
    {
      curpos, lastchar := 0, 0;
    }

    method KillEol(loc: Locale)
      requires Valid()
      modifies this
      ensures Valid() && wbuf == old(wbuf) && Value() == Apply(loc, old(Value()), Command.KillEol)
    {
      lastchar := curpos;
    }

    method KillWord(loc: Locale)
      requires Valid()
      modifies this, wbuf
      ensures Valid() && wbuf == old(wbuf) && Value() == Apply(loc, old(Value()), Command.KillWord)
    {
      if curpos == 0 {
        assert wbuf[..lastchar] == wbuf[..lastchar][..0] + wbuf[..lastchar][0..];
        return;
      }
      var i := FindKillStart(loc);
      Remove(i, curpos);
    }

    method FindKillStart(loc: Locale) returns (i: nat)
      requires Valid()
      ensures i == KillStart(loc, wbuf[..lastchar], curpos)
    {
      i := Back(loc.space, curpos);
      if i > 0 {
        if loc.alnum(wbuf[i - 1]) {
          i := Back(loc.alnum, i - 1);
        } else {
          i := i - 1;
        }
      }
    }

    method KillEow(loc: Locale)
      requires Valid()
      modifies this, wbuf
      ensures Valid() && wbuf == old(wbuf) && Value() == Apply(loc, old(Value()), Command.KillEow)
    {
      var i := Ahead(loc.space, curpos);
      i := Ahead(Not(loc.space), i);
      Remove(curpos, i);
    }

    // ----- moving -----

    method Bol(loc: Locale)
      requires Valid()
      modifies `curpos
      ensures Valid() && Value() == Apply(loc, old(Value()), Command.Bol)
    {
      curpos := 0;
    }

    method BackwardChar(loc: Locale)
      requires Valid()
      modifies `curpos
      ensures Valid() && Value() == Apply(loc, old(Value()), Command.BackwardChar)
    {
      if curpos != 0 {
        curpos := Back(CombOf(loc), curpos);
        if curpos > 0 {
          curpos := curpos - 1;
        }
      }
    }

    method ForwardChar(loc: Locale)
      requires Valid()
      modifies `curpos
      ensures Valid() && Value() == Apply(loc, old(Value()), Command.ForwardChar)
    {
      if curpos != lastchar {
        curpos := Ahead(CombOf(loc), curpos + 1);
      }
    }

    method BackwardWord(loc: Locale)
      requires Valid()
      modifies `curpos
      ensures Valid() && Value() == Apply(loc, old(Value()), Command.BackwardWord)
    {
      if curpos != 0 {
        curpos := Back(loc.space, curpos);
        curpos := Back(Not(loc.space), curpos);
      }
    }

    method ForwardWord(loc: Locale)
      requires Valid()
      modifies `curpos
      ensures Valid() && Value() == Apply(loc, old(Value()), Command.ForwardWord)
    {
      if curpos != lastchar {
        curpos := Ahead(loc.space, curpos);
        curpos := Ahead(Not(loc.space), curpos);
      }
    }

    // ----- changing -----

    method Transpose(loc: Locale)
      requires Valid()
      modifies this, wbuf
      ensures Valid() && wbuf == old(wbuf) && Value() == Apply(loc, old(Value()), Command.Transpose)
    {
      if lastchar < 2 {
        return;
      }
      ghost var s := wbuf[..lastchar];
      if curpos == 0 {
        curpos := 2;
      } else if curpos < lastchar {
        curpos := curpos + 1;
      }
      var t := wbuf[curpos - 2];
      wbuf[curpos - 2] := wbuf[curpos - 1];
      wbuf[curpos - 1] := t;
      assert wbuf[..lastchar] == Swapped(s, curpos);
    }

    /** To the word the cursor is in, or the next one. */
    method FindWord(loc: Locale)
      requires Valid() && curpos < lastchar
      modifies `curpos
      ensures Valid() && curpos == CaseStart(loc, wbuf[..lastchar], old(curpos))
    {
      while curpos > 0 && !loc.space(wbuf[curpos])
        invariant curpos < lastchar
        invariant WordStart(loc, wbuf[..lastchar], curpos) == WordStart(loc, wbuf[..lastchar], old(curpos))
      {
        curpos := curpos - 1;
      }
      curpos := Ahead(loc.space, curpos);
    }

    method RecaseOne(loc: Locale, ch0: Case) returns (ch: Case)
      requires Valid() && curpos < lastchar
      modifies `curpos, wbuf
      ensures Valid() && curpos == old(curpos) + 1 && ch == NextCase(ch0)
      ensures wbuf[..curpos] == old(wbuf[..curpos]) + [Letter(loc, old(wbuf[curpos]), ch0)]
      ensures wbuf[curpos..lastchar] == old(wbuf[curpos + 1..lastchar])
    {
      ch := ch0;
      var wc := wbuf[curpos];
      if ch.Down? {
        wc := loc.lower(wc);
      } else {
        wc := loc.upper(wc);
        if ch.Capital? {
          ch := Down;
        }
      }
      wbuf[curpos] := wc;
      curpos := curpos + 1;
    }

    /** The letters from j to the cursor have been changed, those up to k are still to be. */
    ghost predicate Recasing(loc: Locale, s: seq<int>, j: nat, k: nat, to: Case, ch: Case)
      reads this, wbuf
    {
      Valid() && j <= curpos <= k <= lastchar == |s| && k == After(Not(loc.space), s, curpos) &&
      wbuf[curpos..lastchar] == s[curpos..] &&
      wbuf[..curpos] + Recased(loc, s[curpos..k], ch) == s[..j] + Recased(loc, s[j..k], to)
    }

    lemma Uncovered(s: seq<int>, i: nat)
      requires Valid() && i < lastchar == |s| && wbuf[i..lastchar] == s[i..]
      ensures wbuf[i] == s[i] && wbuf[i + 1..lastchar] == s[i + 1..]
    {
      assert wbuf[i..lastchar][1..] == wbuf[i + 1..lastchar] && s[i..][1..] == s[i + 1..];
      assert wbuf[i..lastchar][0] == wbuf[i];
    }

    method RecaseNext(loc: Locale, ch0: Case, ghost s: seq<int>, ghost j: nat, ghost k: nat, ghost to: Case)
      returns (ch: Case)
      requires Recasing(loc, s, j, k, to, ch0) && curpos < lastchar && !loc.space(wbuf[curpos])
      modifies `curpos, wbuf
      ensures Recasing(loc, s, j, k, to, ch) && curpos == old(curpos) + 1
    {
      ghost var i, done := curpos, wbuf[..curpos];
      Uncovered(s, i);
      ch := RecaseOne(loc, ch0);
      RecasedStep(loc, s, i, k, ch0);
      Reassociate(done, [Letter(loc, s[i], ch0)], Recased(loc, s[i + 1..k], ch));
    }

    method ChangeCase(loc: Locale, to: Case)
      requires Valid()
      modifies `curpos, wbuf
      ensures Valid() && Value() == Apply(loc, old(Value()), Command.ChangeCase(to))
    {
      if curpos == lastchar {
        return;
      }
      ChangeWord(loc, to);
    }

    method ChangeWord(loc: Locale, to: Case)
      requires Valid() && curpos < lastchar
      modifies `curpos, wbuf
      ensures Valid() && Value() == CaseChanged(loc, old(wbuf[..lastchar]), old(curpos), to)
    {
      FindWord(loc);
      ghost var s, j := wbuf[..lastchar], curpos;
      ghost var k := After(Not(loc.space), s, j);
      assert wbuf[..curpos] == s[..j] && wbuf[curpos..lastchar] == s[curpos..];
      RecaseWord(loc, to, s, j, k);
    }

    method RecaseWord(loc: Locale, to: Case, ghost s: seq<int>, ghost j: nat, ghost k: nat)
      requires Recasing(loc, s, j, k, to, to)
      modifies `curpos, wbuf
      ensures Valid() && Value() == Line(s[..j] + Recased(loc, s[j..k], to) + s[k..], k)
    {
      var ch := to;
      while curpos < lastchar && !loc.space(wbuf[curpos])
        invariant Recasing(loc, s, j, k, to, ch)
        decreases lastchar - curpos
      {
        ch := RecaseNext(loc, ch, s, j, k, to);
      }
      FinishCase(loc, s, j, k, to, ch);
    }

    lemma FinishCase(loc: Locale, s: seq<int>, j: nat, k: nat, to: Case, ch: Case)
      requires Recasing(loc, s, j, k, to, ch) && (curpos < lastchar ==> loc.space(wbuf[curpos]))
      ensures Value() == Line(s[..j] + Recased(loc, s[j..k], to) + s[k..], k)
    {
      assert curpos < lastchar ==> wbuf[curpos..lastchar][0] == s[curpos];
      assert curpos == k && s[k..k] == [];
      assert wbuf[..lastchar] == wbuf[..curpos] + wbuf[curpos..lastchar];
      assert wbuf[..curpos] + [] == wbuf[..curpos];
    }

    method Grow(size: nat)
      requires Valid() && wbuf.Length <= size
      modifies this
      ensures Valid() && fresh(wbuf) && wbuf.Length == size && wbuf[..old(wbuf.Length)] == old(wbuf[..])
      ensures lastchar == old(lastchar) && curpos == old(curpos) && begin == old(begin)
    {
      var grown := new int[size];
      forall k | 0 <= k < wbuf.Length {
        grown[k] := wbuf[k];
      }
      wbuf := grown;
    }

    /** A typed character. */
    method SelfInsert(loc: Locale, wc: int)
      requires Valid()
      modifies this, wbuf
      ensures Valid() && (wbuf == old(wbuf) || fresh(wbuf)) && Value() == Apply(loc, old(Value()), Command.Insert(wc))
    {
      ghost var s := wbuf[..lastchar];
      if lastchar >= wbuf.Length {
        Grow(lastchar + 20);
      }
      assert wbuf[..lastchar] == s;
      Open(wc);
    }

    lemma Around(i: nat, n: nat)
      requires i < n <= wbuf.Length
      ensures wbuf[..n] == wbuf[..i] + [wbuf[i]] + wbuf[i + 1..n]
    {
    }

    /** memmove of the characters from the cursor on up by one, and the new one between. */
    method Open(wc: int)
      requires Valid() && lastchar < wbuf.Length
      modifies `curpos, `lastchar, wbuf
      ensures Valid() && lastchar == old(lastchar) + 1 && curpos == old(curpos) + 1
      ensures wbuf[..lastchar] == old(wbuf[..curpos] + [wc] + wbuf[curpos..lastchar])
    {
      ghost var front, behind := wbuf[..curpos], wbuf[curpos..lastchar];
      forall k | curpos < k <= lastchar {
        wbuf[k] := wbuf[k - 1];
      }
      wbuf[curpos] := wc;
      assert wbuf[..curpos] == front && wbuf[curpos + 1..lastchar + 1] == behind;
      Around(curpos, lastchar + 1);
      curpos := curpos + 1;
      lastchar := lastchar + 1;
    }

    /** replace_part: the characters from the given place to the cursor are replaced, the cursor ending behind the
        new ones. */
    method ReplacePart(from: nat, buf: seq<int>)
      requires Valid() && from <= curpos
      modifies this, wbuf
      ensures Valid() && (wbuf == old(wbuf) || fresh(wbuf))
      ensures var l := old(Value()); Value() == Line(l.text[..from] + buf + l.text[l.cur..], from + |buf|)
    {
      ghost var s := wbuf[..lastchar];
      var savelen := lastchar - curpos;
      var savebuf := wbuf[curpos..lastchar];
      var i := PutChars(from, buf);
      Reserve(i, i + savelen);
      Restore(i, savebuf);
      assert s[..from] == old(wbuf[..from]) && s[old(curpos)..] == savebuf;
    }

    /** Room for size characters; the first i stay. */
    method Reserve(i: nat, size: nat)
      requires Valid() && i <= wbuf.Length
      modifies this
      ensures Valid() && (wbuf == old(wbuf) || fresh(wbuf)) && size <= wbuf.Length
      ensures i <= wbuf.Length && wbuf[..i] == old(wbuf[..i])
    {
      if size > wbuf.Length {
        ghost var front, was := wbuf[..i], wbuf[..wbuf.Length];
        Grow(size);
        assert was[..i] == front;
      }
    }

    /** The saved suffix goes behind place i. */
    method Restore(i: nat, savebuf: seq<int>)
      requires i + |savebuf| <= wbuf.Length
      modifies this, wbuf
      ensures Valid() && wbuf == old(wbuf) && Value() == Line(old(wbuf[..i]) + savebuf, i)
    {
      forall k | 0 <= k < |savebuf| {
        wbuf[i + k] := savebuf[k];
      }
      curpos := i;
      lastchar := i + |savebuf|;
      assert wbuf[..lastchar] == wbuf[..i] + wbuf[i..lastchar];
    }

    /** my_mbstowcs: the characters from place i0 on, the buffer growing as needed. */
    method PutChars(i0: nat, buf: seq<int>) returns (i: nat)
      requires Valid() && i0 <= curpos
      modifies this, wbuf
      ensures Valid() && (wbuf == old(wbuf) || fresh(wbuf)) && i == i0 + |buf| <= wbuf.Length
      ensures wbuf[..i] == old(wbuf[..i0]) + buf
      ensures lastchar == old(lastchar) && curpos == old(curpos)
    {
      ghost var s := wbuf[..i0];
      i := i0;
      for k := 0 to |buf|
        invariant Valid() && (wbuf == old(wbuf) || fresh(wbuf)) && i == i0 + k <= wbuf.Length
        invariant wbuf[..i] == s + buf[..k]
        invariant lastchar == old(lastchar) && curpos == old(curpos)
      {
        if i >= wbuf.Length {
          Grow(i + 20);
        }
        assert wbuf[..i] == s + buf[..k];
        wbuf[i] := buf[k];
        i := i + 1;
        assert wbuf[..i] == s + buf[..k] + [buf[k]];
      }
    }

    // ----- redrawing -----

    /** my_wcswidth. */
    method WcsWidth(loc: Locale, i: nat, j: nat) returns (w: int)
      requires Valid() && i <= j <= lastchar
      ensures w == Width(loc, wbuf[..lastchar][i..j])
    {
      ghost var s := wbuf[..lastchar][i..j];
      w := 0;
      for k := i to j
        invariant w == Width(loc, s[..k - i])
      {
        var c := wbuf[k];
        assert s[k - i] == c && s[..k + 1 - i][..k - i] == s[..k - i];
        w := w + CharWidth(loc, c);
      }
      assert s[..j - i] == s;
    }

    /** width_ceiling. */
    method WidthCeiling(loc: Locale, w1: int) returns (k: nat)
      requires Valid()
      ensures k == Ceiling(loc, wbuf[..lastchar], w1)
    {
      ghost var s := wbuf[..lastchar];
      var w := 0;
      k := 0;
      SearchStarts(loc, s, w1);
      while k < lastchar
        invariant k <= lastchar && Searching(loc, s, w1, k, w)
      {
        SearchStep(loc, s, w1, k, w);
        w := w + CharWidth(loc, wbuf[k]);
        if w > w1 {
          return;
        }
        k := k + 1;
      }
      SearchEnds(loc, s, w1, w);
    }

    /** The placing of the window before a line is redrawn; init goes to the end of the line first. */
    method Redraw(loc: Locale, init: bool, width: int)
      requires Valid()
      modifies `curpos, `begin
      ensures Valid() && wbuf[..lastchar] == old(wbuf[..lastchar])
      ensures curpos == if init then lastchar else old(curpos)
      ensures begin == Start(loc, Value(), old(begin), init, width)
    {
      if init {
        GoToEnd(loc, width);
      }
      var hidden := IsHidden(loc, width);
      if hidden {
        begin := Centre(loc, width);
      }
    }

    /** The drawing of the line: the characters that fit behind the start of the window, and the column of the
        cursor. */
    method Draw(loc: Locale, width: int) returns (shown: seq<int>, column: int)
      requires Valid() && begin <= curpos
      ensures var s := wbuf[..lastchar];
              shown == s[begin..begin + Drawn(loc, s, begin, width)] && column == Width(loc, s[begin..curpos])
    {
      shown := DrawFitting(loc, width);
      column := WcsWidth(loc, begin, curpos);
      assert wbuf[begin..lastchar] == wbuf[..lastchar][begin..];
    }

    method DrawFitting(loc: Locale, width: int) returns (shown: seq<int>)
      requires Valid() && begin <= lastchar
      ensures var t := wbuf[begin..lastchar]; shown == t[..Ceiling(loc, t, width)]
    {
      ghost var t := wbuf[begin..lastchar];
      var w, i := 0, begin;
      shown := [];
      SearchStarts(loc, t, width);
      while i < lastchar
        invariant begin <= i <= lastchar && shown == t[..i - begin] && Searching(loc, t, width, i - begin, w)
      {
        var c := wbuf[i];
        assert c == t[i - begin];
        w := DrawNext(loc, t, width, i - begin, w, c);
        if w > width {
          return;
        }
        PrefixStep(t, i - begin);
        shown := shown + [c];
        i := i + 1;
      }
      SearchEnds(loc, t, width, w);
    }

    /** The width with one more character. */
    static method DrawNext(loc: Locale, ghost t: seq<int>, width: int, ghost k: nat, w0: int, c: int) returns (w: int)
      requires Searching(loc, t, width, k, w0) && k < |t| && t[k] == c
      ensures if w > width then Ceiling(loc, t, width) == k else Searching(loc, t, width, k + 1, w)
    {
      SearchStep(loc, t, width, k, w0);
      w := w0 + CharWidth(loc, c);
    }

    method GoToEnd(loc: Locale, width: int)
      requires Valid()
      modifies `curpos, `begin
      ensures Valid() && curpos == lastchar && begin == FromEnd(loc, wbuf[..lastchar], width)
    {
      curpos := lastchar;
      var w := WidthUpTo(loc, lastchar);
      assert wbuf[..lastchar][..lastchar] == wbuf[..lastchar];
      begin := WidthCeiling(loc, w - width + 1);
    }

    method IsHidden(loc: Locale, width: int) returns (hidden: bool)
      requires Valid()
      ensures hidden == Hidden(loc, Value(), begin, width)
    {
      hidden := curpos < begin;
      if !hidden {
        var w := WcsWidth(loc, begin, curpos);
        hidden := w >= width;
      }
    }

    method WidthUpTo(loc: Locale, j: nat) returns (w: int)
      requires Valid() && j <= lastchar
      ensures w == Width(loc, wbuf[..lastchar][..j])
    {
      assert wbuf[..lastchar][0..j] == wbuf[..lastchar][..j];
      w := WcsWidth(loc, 0, j);
    }

    method Centre(loc: Locale, width: int) returns (k: nat)
      requires Valid()
      ensures k == Centred(loc, Value(), width)
    {
      var w := WidthUpTo(loc, curpos);
      k := WidthCeiling(loc, w - Half(width));
      CentredIs(loc, Value(), width, w, k);
    }
  }
}
