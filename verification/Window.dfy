/** Which part of the line the editor's window shows (enter.c): where the window starts after a redraw, how many
    characters are drawn, and where the cursor stands. */
module Window {
  import opened EditLine

  /** my_wcwidth: what is not printable is shown as an escape. */
  function CharWidth(loc: Locale, c: int): int {
    var n := loc.wcwidth(c);
    if loc.printable(c) && n > 0 then n
    else if 0 <= c < 0x80 then 2
    else if 0 <= c < 0x10000 then 6
    else 10
  }

  // ----- escapes -----

  function HexDigit(d: nat): char
    requires d < 16
  {
    if d < 10 then '0' + d as char else 'a' + (d - 10) as char
  }

  /** printf ("%x", n) */
  function Hex(n: nat): string {
    (if n < 16 then "" else Hex(n / 16)) + [HexDigit(n % 16)]
  }

  function Padded(s: string, w: nat): string
    decreases w - |s|
  {
    if |s| >= w then s else Padded("0" + s, w)
  }

  /** What my_addwch writes for a character that is not printable: ^ and the character 64 further on, or backslash, u
      and four or eight hexadecimal digits. */
  function Escape(c: int): string {
    if 0 <= c < 0x80 then ['^', ((c + 64) % 128) as char]
    else if 0 <= c < 0x10000 then "\\u" + Padded(Hex(c), 4)
    else "\\u" + Padded(Hex(c % 0x1_0000_0000), 8)
  }

  function Power16(k: nat): nat {
    if k == 0 then 1 else 16 * Power16(k - 1)
  }

  lemma {:induction false} HexLength(n: nat, k: nat)
    requires k > 0 && n < Power16(k)
    ensures |Hex(n)| <= k
  {
    if n >= 16 {
      assert Power16(k) == 16 * Power16(k - 1);
      HexLength(n / 16, k - 1);
    }
  }

  lemma {:induction false} PaddedLength(s: string, w: nat)
    ensures |Padded(s, w)| == if |s| >= w then |s| else w
    decreases w - |s|
  {
    if |s| < w {
      PaddedLength("0" + s, w);
    }
  }

  /** The width that is reckoned with is that of what is written: of the character, if it is printable and not a mark,
      or else of its escape. */
  lemma WidthIsWritten(loc: Locale, c: int)
    ensures CharWidth(loc, c) ==
            if loc.printable(c) && loc.wcwidth(c) > 0 then loc.wcwidth(c) else |Escape(c)|
  {
    assert Power16(4) == 0x10000 && Power16(8) == 0x1_0000_0000;
    if 0 <= c < 0x10000 {
      HexLength(c, 4);
      PaddedLength(Hex(c), 4);
    } else {
      HexLength(c % 0x1_0000_0000, 8);
      PaddedLength(Hex(c % 0x1_0000_0000), 8);
    }
  }

  // ----- widths -----

  /** No character is wider than the longest escape. */
  ghost predicate Sane(loc: Locale) {
    forall c :: 1 <= CharWidth(loc, c) <= 10
  }

  function Width(loc: Locale, s: seq<int>): int {
    if s == [] then 0 else Width(loc, s[..|s| - 1]) + CharWidth(loc, s[|s| - 1])
  }

  /** How many characters fit into w1 columns. */
  function Ceiling(loc: Locale, s: seq<int>, w1: int): (k: nat)
    ensures k <= |s|
    ensures k > 0 ==> Width(loc, s[..k]) <= w1
    ensures k < |s| ==> Width(loc, s[..k + 1]) > w1
  {
    CeilingFrom(loc, s, w1, 0)
  }

  function CeilingFrom(loc: Locale, s: seq<int>, w1: int, i: nat): (k: nat)
    requires i <= |s| && (i > 0 ==> Width(loc, s[..i]) <= w1)
    ensures i <= k <= |s| && (k > 0 ==> Width(loc, s[..k]) <= w1)
    ensures k < |s| ==> Width(loc, s[..k + 1]) > w1
    decreases |s| - i
  {
    if i == |s| || Width(loc, s[..i + 1]) > w1 then i else CeilingFrom(loc, s, w1, i + 1)
  }

  /** The search for the ceiling has come to k, the characters before taking w columns. */
  ghost predicate Searching(loc: Locale, s: seq<int>, w1: int, k: nat, w: int) {
    k <= |s| && w == Width(loc, s[..k]) && (k > 0 ==> w <= w1) && Ceiling(loc, s, w1) == CeilingFrom(loc, s, w1, k)
  }

  lemma SearchStarts(loc: Locale, s: seq<int>, w1: int)
    ensures Searching(loc, s, w1, 0, 0)
  {
  }

  lemma SearchStep(loc: Locale, s: seq<int>, w1: int, k: nat, w: int)
    requires Searching(loc, s, w1, k, w) && k < |s|
    ensures if w + CharWidth(loc, s[k]) > w1 then Ceiling(loc, s, w1) == k
            else Searching(loc, s, w1, k + 1, w + CharWidth(loc, s[k]))
  {
    assert s[..k + 1][..k] == s[..k];
  }

  lemma SearchEnds(loc: Locale, s: seq<int>, w1: int, w: int)
    requires Searching(loc, s, w1, |s|, w)
    ensures Ceiling(loc, s, w1) == |s|
  {
  }

  lemma {:induction false} WidthAppend(loc: Locale, s: seq<int>, t: seq<int>)
    ensures Width(loc, s + t) == Width(loc, s) + Width(loc, t)
  {
    if t == [] {
      assert s + t == s;
    } else {
      WidthAppend(loc, s, t[..|t| - 1]);
      assert (s + t)[..|s + t| - 1] == s + t[..|t| - 1];
    }
  }

  lemma {:induction false} WidthAtLeast(loc: Locale, s: seq<int>)
    requires Sane(loc)
    ensures |s| <= Width(loc, s)
  {
    if s != [] {
      WidthAtLeast(loc, s[..|s| - 1]);
    }
  }

  /** The width of a stretch. */
  lemma WidthBetween(loc: Locale, s: seq<int>, i: nat, j: nat)
    requires i <= j <= |s|
    ensures Width(loc, s[i..j]) == Width(loc, s[..j]) - Width(loc, s[..i])
  {
    assert s[..j] == s[..i] + s[i..j];
    WidthAppend(loc, s[..i], s[i..j]);
  }

  /** C division by two. */
  function Half(w: int): int {
    if w >= 0 then w / 2 else -(-w / 2)
  }

  /** The cursor is inside the window. */
  ghost predicate Shows(loc: Locale, s: seq<int>, cur: nat, begin: nat, width: int) {
    begin <= cur <= |s| && Width(loc, s[begin..cur]) < width
  }

  predicate Hidden(loc: Locale, l: Line, first: nat, width: int)
    requires l.cur <= |l.text|
  {
    l.cur < first || Width(loc, l.text[first..l.cur]) >= width
  }

  /** So that the end of the line is shown. */
  function FromEnd(loc: Locale, s: seq<int>, width: int): nat {
    Ceiling(loc, s, Width(loc, s) - width + 1)
  }

  /** So that the cursor is in the middle. */
  function Centred(loc: Locale, l: Line, width: int): nat
    requires l.cur <= |l.text|
  {
    Ceiling(loc, l.text, Width(loc, l.text[..l.cur]) - Half(width))
  }

  lemma CentredIs(loc: Locale, l: Line, width: int, w: int, k: nat)
    requires l.cur <= |l.text| && w == Width(loc, l.text[..l.cur]) && k == Ceiling(loc, l.text, w - Half(width))
    ensures k == Centred(loc, l, width)
  {
  }

  /** Where the window starts after a redraw; with init the cursor has gone to the end of the line. */
  function Start(loc: Locale, l: Line, begin: nat, init: bool, width: int): nat
    requires l.cur <= |l.text| && (init ==> l.cur == |l.text|)
  {
    var first := if init then FromEnd(loc, l.text, width) else begin;
    if Hidden(loc, l, first, width) then Centred(loc, l, width) else first
  }

  /** Wider stretches end further on. */
  lemma WidthGrows(loc: Locale, s: seq<int>, i: nat, j: nat)
    requires Sane(loc) && i <= j <= |s|
    ensures Width(loc, s[..i]) + (j - i) <= Width(loc, s[..j])
  {
    WidthBetween(loc, s, i, j);
    WidthAtLeast(loc, s[i..j]);
  }

  lemma OneMore(loc: Locale, s: seq<int>, k: nat)
    requires Sane(loc) && k < |s|
    ensures Width(loc, s[..k + 1]) <= Width(loc, s[..k]) + 10
  {
    assert s[..k + 1][..k] == s[..k];
  }

  /** A window that starts half its width before the cursor shows the cursor, though a wide character may be cut. */
  lemma CentredShows(loc: Locale, l: Line, width: int)
    requires Sane(loc) && l.cur <= |l.text| && (width >= 19 || width == 1)
    ensures Shows(loc, l.text, l.cur, Centred(loc, l, width), width)
  {
    var s, cur, k := l.text, l.cur, Centred(loc, l, width);
    if k > cur {
      WidthGrows(loc, s, cur, k);
    } else {
      WidthBetween(loc, s, k, cur);
      if k < cur {
        OneMore(loc, s, k);
        WidthGrows(loc, s, k + 1, cur);
      }
    }
  }

  /** C division cuts off towards zero. */
  lemma HalfCutsOff(w: int)
    ensures if w >= 0 then 2 * Half(w) <= w < 2 * Half(w) + 2 else 2 * Half(w) - 2 < w <= 2 * Half(w)
  {
  }

  /** A window that shows the cursor stays where it is. */
  lemma ShownStays(loc: Locale, l: Line, begin: nat, width: int)
    requires l.cur <= |l.text| && Shows(loc, l.text, l.cur, begin, width)
    ensures Start(loc, l, begin, false, width) == begin
  {
  }

  /** Half the width or more of the window is before the cursor, unless the line begins there; without its first
      character it would be less than half. */
  lemma CentredHalf(loc: Locale, l: Line, width: nat)
    requires Sane(loc) && l.cur <= |l.text| && width > 1
    ensures var first := Centred(loc, l, width);
            first < l.cur || first == l.cur == 0
    ensures var first := Centred(loc, l, width);
            (first > 0 ==> Width(loc, l.text[first..l.cur]) >= width / 2) &&
            (first < l.cur ==> Width(loc, l.text[first + 1..l.cur]) < width / 2)
  {
    var first := Centred(loc, l, width);
    if first >= l.cur && first > 0 {
      WidthGrows(loc, l.text, l.cur, first);
    }
    if first <= l.cur {
      WidthBetween(loc, l.text, first, l.cur);
    }
    if first < l.cur {
      WidthBetween(loc, l.text, first + 1, l.cur);
    }
  }

  /** After a jump to the end of the line, all but one column of the window is filled by the end of the line, unless
      the line is shorter; without its first character that would leave more. */
  lemma EndAligned(loc: Locale, s: seq<int>, width: nat)
    requires Sane(loc)
    ensures var first := FromEnd(loc, s, width);
            (first > 0 ==> Width(loc, s[first..]) >= width - 1) &&
            (first < |s| ==> Width(loc, s[first + 1..]) < width - 1)
  {
    var first := FromEnd(loc, s, width);
    assert s[..|s|] == s && s[first..|s|] == s[first..];
    WidthBetween(loc, s, first, |s|);
    if first < |s| {
      assert s[first + 1..|s|] == s[first + 1..];
      WidthBetween(loc, s, first + 1, |s|);
    }
  }

  /** A redraw leaves the cursor inside a window of at least 19 columns, or of one. */
  lemma RedrawShows(loc: Locale, l: Line, begin: nat, init: bool, width: int)
    requires Sane(loc) && l.cur <= |l.text| && (init ==> l.cur == |l.text|) && (width >= 19 || width == 1)
    ensures Shows(loc, l.text, l.cur, Start(loc, l, begin, init, width), width)
  {
    CentredShows(loc, l, width);
  }

  /** How many characters from the given place on are drawn. */
  function Drawn(loc: Locale, s: seq<int>, begin: nat, width: int): nat
    requires begin <= |s|
  {
    Ceiling(loc, s[begin..], width)
  }

  /** Everything up to a cursor that is inside the window is drawn, and no more than fits. */
  lemma ShownIsDrawn(loc: Locale, s: seq<int>, cur: nat, begin: nat, width: int)
    requires Sane(loc) && Shows(loc, s, cur, begin, width)
    ensures cur <= begin + Drawn(loc, s, begin, width) <= |s|
    ensures Width(loc, s[begin..begin + Drawn(loc, s, begin, width)]) <= width
  {
    var t, n := s[begin..], Drawn(loc, s, begin, width);
    assert t[..cur - begin] == s[begin..cur] && t[..n] == s[begin..begin + n];
    if n < cur - begin {
      WidthGrows(loc, t, n + 1, cur - begin);
    }
    if n == 0 {
      WidthAtLeast(loc, s[begin..cur]);
    }
  }

  /** After any redraw of any line in a window of at least 19 columns, or of one, the cursor stands on, or right
      behind, what is drawn. */
  lemma CursorIsDrawn(loc: Locale, l: Line, begin: nat, init: bool, width: int)
    requires Sane(loc) && l.cur <= |l.text| && (init ==> l.cur == |l.text|) && (width >= 19 || width == 1)
    ensures var first := Start(loc, l, begin, init, width);
            first <= l.cur <= first + Drawn(loc, l.text, first, width) && 0 <= Width(loc, l.text[first..l.cur]) < width
  {
    var first := Start(loc, l, begin, init, width);
    RedrawShows(loc, l, begin, init, width);
    ShownIsDrawn(loc, l.text, l.cur, first, width);
    WidthAtLeast(loc, l.text[first..l.cur]);
  }

  function Repeat(c: int, n: nat): (s: seq<int>)
    ensures |s| == n && forall k :: 0 <= k < n ==> s[k] == c
  {
    seq(n, _ => c)
  }

  lemma {:induction false} RepeatWidth(loc: Locale, c: int, n: nat)
    requires CharWidth(loc, c) == 1
    ensures Width(loc, Repeat(c, n)) == n
  {
    if n > 0 {
      assert Repeat(c, n)[..n - 1] == Repeat(c, n - 1);
      RepeatWidth(loc, c, n - 1);
    }
  }

  /** A line that a window of another width does not show up to its end: an escape of ten columns, and plain
      characters up to the width of the window. */
  function Awkward(wide: int, plain: int, width: int): seq<int> {
    if width <= 0 then [] else [wide] + Repeat(plain, if width < 10 then 0 else width - 10)
  }

  lemma AwkwardWidth(loc: Locale, wide: int, plain: int, width: int)
    requires CharWidth(loc, wide) == 10 && CharWidth(loc, plain) == 1 && width > 0
    ensures var s := Awkward(wide, plain, width);
            |s| >= 1 && Width(loc, s[..1]) == 10 && Width(loc, s) == if width < 10 then 10 else width
  {
    var n := if width < 10 then 0 else width - 10;
    RepeatWidth(loc, plain, n);
    assert Width(loc, [wide]) == 10 by {
      assert [wide][..0] == [];
    }
    WidthAppend(loc, [wide], Repeat(plain, n));
    assert Awkward(wide, plain, width)[..1] == [wide];
  }

  lemma AwkwardHides(loc: Locale, wide: int, plain: int, width: int, begin: nat)
    requires Sane(loc) && CharWidth(loc, wide) == 10 && CharWidth(loc, plain) == 1 && width < 19 && width != 1
    ensures var s := Awkward(wide, plain, width);
            !Shows(loc, s, |s|, Start(loc, Line(s, |s|), begin, true, width), width)
  {
    var s := Awkward(wide, plain, width);
    if width <= 0 {
      assert s == [];
    } else {
      AwkwardWidth(loc, wide, plain, width);
      assert s[..|s|] == s && s[0..|s|] == s;
      StartsAtZero(loc, s, Width(loc, s) - Half(width));
      StartsAtZero(loc, s, Width(loc, s) - width + 1);
    }
  }

  lemma StartsAtZero(loc: Locale, s: seq<int>, w1: int)
    requires |s| >= 1 && Sane(loc)
    ensures Width(loc, s[..1]) > w1 ==> Ceiling(loc, s, w1) == 0
  {
    var k := Ceiling(loc, s, w1);
    if k > 0 {
      WidthBetween(loc, s, 1, k);
      WidthAtLeast(loc, s[1..k]);
    }
  }

  /** The widths for which every redraw of every line leaves the cursor inside the window. */
  lemma AlwaysShowsIff(loc: Locale, wide: int, plain: int, width: int)
    requires Sane(loc) && CharWidth(loc, wide) == 10 && CharWidth(loc, plain) == 1
    ensures (forall l: Line, begin: nat, init: bool ::
              l.cur <= |l.text| && (init ==> l.cur == |l.text|) ==>
                Shows(loc, l.text, l.cur, Start(loc, l, begin, init, width), width)) <==>
            width >= 19 || width == 1
  {
    if width >= 19 || width == 1 {
      forall l: Line, begin: nat, init: bool | l.cur <= |l.text| && (init ==> l.cur == |l.text|)
        ensures Shows(loc, l.text, l.cur, Start(loc, l, begin, init, width), width)
      {
        RedrawShows(loc, l, begin, init, width);
      }
    } else {
      AwkwardHides(loc, wide, plain, width, 0);
      var s := Awkward(wide, plain, width);
      var l := Line(s, |s|);
      assert !Shows(loc, l.text, l.cur, Start(loc, l, 0, true, width), width);
    }
  }
}
