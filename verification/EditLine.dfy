/** A line of text with a cursor, and what the commands of the line editor mean on it (enter.c), as functions from a
    line to a line. */
module EditLine {

  /** The character classes of the locale. */
  datatype Locale = Locale(wcwidth: int -> int, printable: int -> bool, space: int -> bool, alnum: int -> bool,
                           upper: int -> int, lower: int -> int)

  datatype Line = Line(text: seq<int>, cur: nat)

  ghost predicate Valid(l: Line) {
    l.cur <= |l.text|
  }

  /** COMB_CHAR: a character that is shown on top of the one before it. */
  predicate Comb(loc: Locale, c: int) {
    loc.printable(c) && loc.wcwidth(c) == 0
  }

  // ----- positions -----

  /** The first place from i on whose character does not satisfy p, or the end. */
  function After(p: int -> bool, s: seq<int>, i: nat): (j: nat)
    requires i <= |s|
    ensures i <= j <= |s| && (j < |s| ==> !p(s[j])) && forall k :: i <= k < j ==> p(s[k])
    decreases |s| - i
  {
    if i < |s| && p(s[i]) then After(p, s, i + 1) else i
  }

  /** The last place up to i whose preceding character does not satisfy p, or the beginning. */
  function Before(p: int -> bool, s: seq<int>, i: nat): (j: nat)
    requires i <= |s|
    ensures j <= i && (j > 0 ==> !p(s[j - 1])) && forall k :: j <= k < i ==> p(s[k])
  {
    if i > 0 && p(s[i - 1]) then Before(p, s, i - 1) else i
  }

  lemma AfterIs(p: int -> bool, s: seq<int>, i: nat, j: nat)
    requires i <= j <= |s| && (j < |s| ==> !p(s[j])) && forall k :: i <= k < j ==> p(s[k])
    ensures After(p, s, i) == j
  {
  }

  lemma BeforeIs(p: int -> bool, s: seq<int>, i: nat, j: nat)
    requires j <= i <= |s| && (j > 0 ==> !p(s[j - 1])) && forall k :: j <= k < i ==> p(s[k])
    ensures Before(p, s, i) == j
  {
  }

  function CombOf(loc: Locale): int -> bool {
    c => Comb(loc, c)
  }

  function Not(p: int -> bool): int -> bool {
    c => !p(c)
  }

  /** The character before i with the marks on it. */
  function CharBefore(loc: Locale, s: seq<int>, i: nat): (j: nat)
    requires i <= |s|
    ensures j <= i
  {
    var j := Before(CombOf(loc), s, i);
    if j > 0 then j - 1 else 0
  }

  function CharAfter(loc: Locale, s: seq<int>, i: nat): (j: nat)
    requires i < |s|
    ensures i < j <= |s|
  {
    After(CombOf(loc), s, i + 1)
  }

  /** The space before i and the word before that. */
  function WordBefore(loc: Locale, s: seq<int>, i: nat): (j: nat)
    requires i <= |s|
    ensures j <= i
  {
    Before(Not(loc.space), s, Before(loc.space, s, i))
  }

  function WordAfter(loc: Locale, s: seq<int>, i: nat): (j: nat)
    requires i <= |s|
    ensures i <= j <= |s|
  {
    After(Not(loc.space), s, After(loc.space, s, i))
  }

  /** Where killing a word goes back to: over space, then over letters and digits or else over one character. */
  function KillStart(loc: Locale, s: seq<int>, i: nat): (j: nat)
    requires i <= |s|
    ensures j <= i
  {
    var j := Before(loc.space, s, i);
    if j == 0 then 0 else if loc.alnum(s[j - 1]) then Before(loc.alnum, s, j - 1) else j - 1
  }

  /** Where deleting a character goes on to: over marks, one character, and the marks on it. */
  function DeleteEnd(loc: Locale, s: seq<int>, i: nat): (j: nat)
    requires i <= |s|
    ensures i <= j <= |s|
  {
    var j := After(CombOf(loc), s, i);
    if j < |s| then After(CombOf(loc), s, j + 1) else j
  }

  /** Where changing case starts: at the word the cursor is in, or else the next one. */
  function CaseStart(loc: Locale, s: seq<int>, i: nat): (j: nat)
    requires i < |s|
    ensures j <= |s|
  {
    After(loc.space, s, WordStart(loc, s, i))
  }

  /** The last place up to i that holds a space, or the beginning. */
  function WordStart(loc: Locale, s: seq<int>, i: nat): (j: nat)
    requires i < |s|
    ensures j <= i && (j > 0 ==> loc.space(s[j]))
  {
    if i > 0 && !loc.space(s[i]) then WordStart(loc, s, i - 1) else i
  }

  // ----- commands -----

  datatype Case = Capital | Up | Down

  datatype Command =
    | Backspace | Bol | KillLine | KillEol | BackwardChar | ForwardChar | BackwardWord | ForwardWord
    | ChangeCase(to: Case) | DeleteChar | KillWord | KillEow | Transpose | Insert(c: int)

  /** Take out the characters from i to j, the cursor ending at i. */
  function Cut(s: seq<int>, i: nat, j: nat): Line
    requires i <= j <= |s|
  {
    Line(s[..i] + s[j..], i)
  }

  function Letter(loc: Locale, c: int, to: Case): int {
    if to.Down? then loc.lower(c) else loc.upper(c)
  }

  /** Only the first letter of a word is made a capital. */
  function NextCase(to: Case): Case {
    if to.Capital? then Down else to
  }

  function Recased(loc: Locale, s: seq<int>, to: Case): seq<int> {
    if s == [] then [] else [Letter(loc, s[0], to)] + Recased(loc, s[1..], NextCase(to))
  }

  lemma RecasedStep(loc: Locale, s: seq<int>, i: nat, k: nat, to: Case)
    requires i < k <= |s|
    ensures Recased(loc, s[i..k], to) == [Letter(loc, s[i], to)] + Recased(loc, s[i + 1..k], NextCase(to))
  {
    assert s[i..k][1..] == s[i + 1..k];
  }

  lemma {:induction false} RecasedLength(loc: Locale, s: seq<int>, to: Case)
    ensures |Recased(loc, s, to)| == |s|
  {
    if s != [] {
      RecasedLength(loc, s[1..], NextCase(to));
    }
  }

  function Swapped(s: seq<int>, j: nat): seq<int>
    requires 2 <= j <= |s|
  {
    s[j - 2 := s[j - 1]][j - 1 := s[j - 2]]
  }

  /** The word at or after place i with its letters recased, and the cursor behind it. */
  function CaseChanged(loc: Locale, s: seq<int>, i: nat, to: Case): Line
    requires i < |s|
  {
    var j := CaseStart(loc, s, i);
    var k := After(Not(loc.space), s, j);
    Line(s[..j] + Recased(loc, s[j..k], to) + s[k..], k)
  }

  function Apply(loc: Locale, l: Line, cmd: Command): Line
    requires Valid(l)
  {
    var s, i := l.text, l.cur;
    match cmd
    case Backspace => Cut(s, CharBefore(loc, s, i), i)
    case Bol => Line(s, 0)
    case KillLine => Line([], 0)
    case KillEol => Line(s[..i], i)
    case BackwardChar => Line(s, CharBefore(loc, s, i))
    case ForwardChar => Line(s, if i == |s| then i else CharAfter(loc, s, i))
    case BackwardWord => Line(s, WordBefore(loc, s, i))
    case ForwardWord => Line(s, WordAfter(loc, s, i))
    case ChangeCase(to) =>
      if i == |s| then l else CaseChanged(loc, s, i, to)
    case DeleteChar => Cut(s, i, DeleteEnd(loc, s, i))
    case KillWord => Cut(s, KillStart(loc, s, i), i)
    case KillEow => Cut(s, i, WordAfter(loc, s, i))
    case Transpose =>
      if |s| < 2 then l
      else
        var j := if i == 0 then 2 else if i < |s| then i + 1 else i;
        Line(Swapped(s, j), j)
    case Insert(c) => Line(s[..i] + [c] + s[i..], i + 1)
  }

  lemma ApplyKeepsValid(loc: Locale, l: Line, cmd: Command)
    requires Valid(l)
    ensures Valid(Apply(loc, l, cmd))
  {
    match cmd
    case ChangeCase(to) =>
      if l.cur < |l.text| {
        var j := CaseStart(loc, l.text, l.cur);
        RecasedLength(loc, l.text[j..After(Not(loc.space), l.text, j)], to);
      }
    case _ =>
  }

  /** The cursor is not between a character and a mark on it. */
  ghost predicate OnBoundary(loc: Locale, l: Line) {
    Valid(l) && (l.cur < |l.text| ==> !Comb(loc, l.text[l.cur]))
  }

  lemma CutInserted(s: seq<int>, i: nat, c: int)
    requires i <= |s|
    ensures Cut(s[..i] + [c] + s[i..], i, i + 1) == Line(s, i)
  {
    var t := s[..i] + [c] + s[i..];
    assert t[..i] == s[..i] && t[i + 1..] == s[i..];
  }

  /** Backspace takes back what was typed, exactly if that was not a mark on the character before. */
  lemma InsertThenBackspace(loc: Locale, l: Line, c: int)
    requires Valid(l)
    ensures Apply(loc, Apply(loc, l, Insert(c)), Backspace) == l <==> !Comb(loc, c) || l.cur == 0
  {
    var m := Apply(loc, l, Insert(c));
    assert m.text[l.cur] == c;
    CutInserted(l.text, l.cur, c);
    if !Comb(loc, c) {
      BeforeIs(CombOf(loc), m.text, m.cur, m.cur);
    } else if l.cur == 0 {
      assert Before(CombOf(loc), m.text, 1) == 0;
    } else {
      assert CharBefore(loc, m.text, m.cur) < l.cur;
    }
  }

  /** Between whole characters, moving forward and back again changes nothing. */
  lemma ForwardThenBackward(loc: Locale, l: Line)
    requires OnBoundary(loc, l) && l.cur < |l.text|
    ensures var m := Apply(loc, l, ForwardChar); OnBoundary(loc, m) && Apply(loc, m, BackwardChar) == l
  {
    var m := Apply(loc, l, ForwardChar);
    BeforeIs(CombOf(loc), l.text, m.cur, l.cur + 1);
  }

  /** And backward and forward, unless there is nothing but marks before the cursor. */
  lemma BackwardThenForward(loc: Locale, l: Line)
    requires OnBoundary(loc, l) && Before(CombOf(loc), l.text, l.cur) > 0
    ensures var m := Apply(loc, l, BackwardChar); OnBoundary(loc, m) && Apply(loc, m, ForwardChar) == l
  {
    var m := Apply(loc, l, BackwardChar);
    AfterIs(CombOf(loc), l.text, m.cur + 1, l.cur);
  }

  /** Backspace is moving back and deleting the character there. */
  lemma BackspaceIsBackwardThenDelete(loc: Locale, l: Line)
    requires OnBoundary(loc, l) && Before(CombOf(loc), l.text, l.cur) > 0
    ensures Apply(loc, Apply(loc, l, BackwardChar), DeleteChar) == Apply(loc, l, Backspace)
  {
    var m := Apply(loc, l, BackwardChar);
    AfterIs(CombOf(loc), l.text, m.cur, m.cur);
    AfterIs(CombOf(loc), l.text, m.cur + 1, l.cur);
  }

  lemma SwapKeeps(s: seq<int>, j: nat)
    requires 2 <= j <= |s|
    ensures multiset(Swapped(s, j)) == multiset(s)
  {
    var t := s[j - 2 := s[j - 1]];
    assert multiset(t) == multiset(s) - multiset{s[j - 2]} + multiset{s[j - 1]};
    assert multiset(t[j - 1 := s[j - 2]]) == multiset(t) - multiset{t[j - 1]} + multiset{s[j - 2]};
  }

  lemma SwapTwice(s: seq<int>, j: nat)
    requires 2 <= j <= |s|
    ensures Swapped(Swapped(s, j), j) == s
  {
  }

  /** Transposing loses no character, and at the end of the line transposing again undoes it. */
  lemma TransposeTwice(loc: Locale, l: Line)
    requires Valid(l)
    ensures multiset(Apply(loc, l, Transpose).text) == multiset(l.text)
    ensures l.cur == |l.text| ==> Apply(loc, Apply(loc, l, Transpose), Transpose) == l
  {
    var s, i := l.text, l.cur;
    if |s| >= 2 {
      var j := if i == 0 then 2 else if i < |s| then i + 1 else i;
      SwapKeeps(s, j);
      SwapTwice(s, j);
    }
  }

  /** Changing case changes letters of one word only, and leaves the cursor behind it. */
  lemma CaseChangesWord(loc: Locale, l: Line, to: Case)
    requires Valid(l) && l.cur < |l.text|
    ensures var m := Apply(loc, l, ChangeCase(to)); var j := CaseStart(loc, l.text, l.cur);
            |m.text| == |l.text| && m.text[..j] == l.text[..j] && m.text[m.cur..] == l.text[m.cur..] && j <= m.cur &&
            (m.cur < |l.text| ==> loc.space(l.text[m.cur]))
  {
    var s := l.text;
    var j := CaseStart(loc, s, l.cur);
    var k := After(Not(loc.space), s, j);
    RecasedLength(loc, s[j..k], to);
    var t := s[..j] + Recased(loc, s[j..k], to) + s[k..];
    assert t[..j] == s[..j] && t[k..] == s[k..];
  }
}
