/** What the commands of the line editor (enter.c) do, in terms of the characters around the cursor: runs of space, of
    letters, and of marks without a width of their own. */
module EditMeaning {
  import opened EditLine

  /** All characters from i to j satisfy p, and the one after them does not. */
  ghost predicate RunOn(p: int -> bool, s: seq<int>, i: nat, j: nat) {
    i <= j <= |s| && (forall k :: i <= k < j ==> p(s[k])) && (j < |s| ==> !p(s[j]))
  }

  /** All characters from j to i satisfy p, and the one before them does not. */
  ghost predicate RunBack(p: int -> bool, s: seq<int>, j: nat, i: nat) {
    j <= i <= |s| && (forall k :: j <= k < i ==> p(s[k])) && (j > 0 ==> !p(s[j - 1]))
  }

  /** A mark is printable and has no width of its own. */
  function Mark(loc: Locale): int -> bool {
    c => loc.printable(c) && loc.wcwidth(c) == 0
  }

  function Letters(loc: Locale): int -> bool {
    c => !loc.space(c)
  }

  lemma SameMark(loc: Locale, s: seq<int>, i: nat)
    requires i <= |s|
    ensures RunOn(Mark(loc), s, i, After(CombOf(loc), s, i)) && RunBack(Mark(loc), s, Before(CombOf(loc), s, i), i)
  {
  }

  /** The line without the characters from i to j, and the cursor there. */
  function Without(s: seq<int>, i: nat, j: nat): Line
    requires i <= j <= |s|
  {
    Line(s[..i] + s[j..], i)
  }

  lemma SimpleCommands(loc: Locale, l: Line, c: int)
    requires Valid(l)
    ensures Apply(loc, l, Bol) == Line(l.text, 0) && Apply(loc, l, KillLine) == Line([], 0)
    ensures Apply(loc, l, KillEol) == Line(l.text[..l.cur], l.cur)
    ensures Apply(loc, l, Insert(c)) == Line(l.text[..l.cur] + [c] + l.text[l.cur..], l.cur + 1)
  {
  }

  /** Backspace deletes the marks before the cursor and the character that bears them. */
  lemma BackspaceMeans(loc: Locale, l: Line) returns (m: nat)
    requires Valid(l)
    ensures RunBack(Mark(loc), l.text, m, l.cur)
    ensures Apply(loc, l, Backspace) == Without(l.text, if m > 0 then m - 1 else 0, l.cur)
    ensures Apply(loc, l, BackwardChar) == Line(l.text, if m > 0 then m - 1 else 0)
  {
    m := Before(CombOf(loc), l.text, l.cur);
    SameMark(loc, l.text, l.cur);
  }

  /** Moving forward goes over one character, whatever it is, and the marks on it. */
  lemma ForwardMeans(loc: Locale, l: Line) returns (m: nat)
    requires Valid(l)
    ensures if l.cur == |l.text| then m == l.cur else RunOn(Mark(loc), l.text, l.cur + 1, m)
    ensures Apply(loc, l, ForwardChar) == Line(l.text, m)
  {
    m := l.cur;
    if l.cur < |l.text| {
      m := After(CombOf(loc), l.text, l.cur + 1);
      SameMark(loc, l.text, l.cur + 1);
    }
  }

  /** Deleting takes the marks at the cursor, one character behind them, and the marks on that. */
  lemma DeleteMeans(loc: Locale, l: Line) returns (m: nat, n: nat)
    requires Valid(l)
    ensures RunOn(Mark(loc), l.text, l.cur, m)
    ensures if m == |l.text| then n == m else RunOn(Mark(loc), l.text, m + 1, n)
    ensures Apply(loc, l, DeleteChar) == Without(l.text, l.cur, n)
  {
    m := After(CombOf(loc), l.text, l.cur);
    n := m;
    SameMark(loc, l.text, l.cur);
    if m < |l.text| {
      n := After(CombOf(loc), l.text, m + 1);
      SameMark(loc, l.text, m + 1);
    }
    assert n == DeleteEnd(loc, l.text, l.cur);
  }

  /** Moving back a word goes over all the space before the cursor, and then over all letters before that. */
  lemma BackwardWordMeans(loc: Locale, l: Line) returns (m: nat, n: nat)
    requires Valid(l)
    ensures RunBack(loc.space, l.text, m, l.cur) && RunBack(Letters(loc), l.text, n, m)
    ensures Apply(loc, l, BackwardWord) == Line(l.text, n)
  {
    m := Before(loc.space, l.text, l.cur);
    n := Before(Not(loc.space), l.text, m);
  }

  /** Moving on a word goes over all the space at the cursor, and then over all letters; killing to the end of the word
      deletes just these. */
  lemma ForwardWordMeans(loc: Locale, l: Line) returns (m: nat, n: nat)
    requires Valid(l)
    ensures RunOn(loc.space, l.text, l.cur, m) && RunOn(Letters(loc), l.text, m, n)
    ensures Apply(loc, l, ForwardWord) == Line(l.text, n)
    ensures Apply(loc, l, KillEow) == Without(l.text, l.cur, n)
  {
    m := After(loc.space, l.text, l.cur);
    n := After(Not(loc.space), l.text, m);
  }

  /** Killing a word deletes all the space before the cursor, and before that all letters and digits, or one character
      that is neither. */
  lemma KillWordMeans(loc: Locale, l: Line) returns (m: nat, n: nat)
    requires Valid(l)
    ensures RunBack(loc.space, l.text, m, l.cur)
    ensures if m == 0 then n == 0
            else if loc.alnum(l.text[m - 1]) then RunBack(loc.alnum, l.text, n, m)
            else n == m - 1
    ensures Apply(loc, l, KillWord) == Without(l.text, n, l.cur)
  {
    m := Before(loc.space, l.text, l.cur);
    n := KillStart(loc, l.text, l.cur);
  }

  /** Transposing exchanges the characters before and at the cursor and moves on; at the end of the line the last two,
      and at the beginning the first two, the cursor then behind them. */
  lemma TransposeMeans(loc: Locale, l: Line) returns (j: nat)
    requires Valid(l) && |l.text| >= 2
    ensures j == if l.cur == 0 then 2 else if l.cur == |l.text| then l.cur else l.cur + 1
    ensures var m := Apply(loc, l, Transpose);
            m.cur == j && |m.text| == |l.text| && m.text[j - 1] == l.text[j - 2] && m.text[j - 2] == l.text[j - 1] &&
            forall k :: 0 <= k < |l.text| && k != j - 1 && k != j - 2 ==> m.text[k] == l.text[k]
  {
    j := if l.cur == 0 then 2 else if l.cur == |l.text| then l.cur else l.cur + 1;
  }

  lemma {:induction false} RecasedLetters(loc: Locale, s: seq<int>, to: Case)
    ensures |Recased(loc, s, to)| == |s|
    ensures forall k :: 0 <= k < |s| ==>
              Recased(loc, s, to)[k] ==
              if to == Up || (to == Capital && k == 0) then loc.upper(s[k]) else loc.lower(s[k])
  {
    if s != [] {
      RecasedLetters(loc, s[1..], NextCase(to));
    }
  }

  lemma {:induction false} WordStartIs(loc: Locale, s: seq<int>, i: nat)
    requires i < |s|
    ensures var b := WordStart(loc, s, i);
            b <= i && (b == 0 || loc.space(s[b])) && forall k :: b < k <= i ==> !loc.space(s[k])
  {
    if i > 0 && !loc.space(s[i]) {
      WordStartIs(loc, s, i - 1);
    }
  }

  /** From m to n, and only there, the letters of s have been recased in t. */
  ghost predicate RecasedFrom(loc: Locale, s: seq<int>, t: seq<int>, m: nat, n: nat, to: Case) {
    |t| == |s| &&
    forall k :: 0 <= k < |s| ==>
      t[k] == if k < m || n <= k then s[k]
              else if to == Up || (to == Capital && k == m) then loc.upper(s[k])
              else loc.lower(s[k])
  }

  lemma RecasedInPlace(loc: Locale, s: seq<int>, m: nat, n: nat, to: Case)
    requires m <= n <= |s|
    ensures RecasedFrom(loc, s, s[..m] + Recased(loc, s[m..n], to) + s[n..], m, n, to)
  {
    RecasedLetters(loc, s[m..n], to);
    var w := Recased(loc, s[m..n], to);
    var t := s[..m] + w + s[n..];
    forall k | 0 <= k < |s|
      ensures t[k] == if k < m || n <= k then s[k] else w[k - m]
    {
    }
  }

  /** Changing case goes back over letters to a space or the beginning, on over space, and then over all letters, which
      become capital or small; with a capital asked for, only the first one does and the others become small. */
  lemma ChangeCaseMeans(loc: Locale, l: Line, to: Case) returns (b: nat, m: nat, n: nat)
    requires Valid(l) && l.cur < |l.text|
    ensures b <= l.cur && (b == 0 || loc.space(l.text[b])) && forall k :: b < k <= l.cur ==> !loc.space(l.text[k])
    ensures RunOn(loc.space, l.text, b, m) && RunOn(Letters(loc), l.text, m, n)
    ensures var r := Apply(loc, l, ChangeCase(to)); r.cur == n && RecasedFrom(loc, l.text, r.text, m, n, to)
  {
    b := WordStart(loc, l.text, l.cur);
    WordStartIs(loc, l.text, l.cur);
    m := After(loc.space, l.text, b);
    n := After(Not(loc.space), l.text, m);
    RecasedInPlace(loc, l.text, m, n, to);
  }
}
