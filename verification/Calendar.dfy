/** The Gregorian calendar. */
module Calendar {
  // Days before a year or month are counted from 1 January of year 1.

  predicate IsLeap(y: int) {
    y % 4 == 0 && (y % 100 != 0 || y % 400 == 0)
  }

  function YearLength(y: int): int {
    if IsLeap(y) then 366 else 365
  }

  function YearStart(y: int): int {
    365 * (y - 1) + (y - 1) / 4 - (y - 1) / 100 + (y - 1) / 400
  }

  /** Months are numbered from January of year 0, so month t is month t % 12 of year t / 12. */
  function MonthLength(t: int): int {
    if t % 12 == 1 then (if IsLeap(t / 12) then 29 else 28)
    else if t % 12 in {3, 5, 8, 10} then 30
    else 31
  }

  /** Days of a year before its month m, in a common year. */
  function Accum(m: nat): int
    requires m < 12
  {
    [0, 31, 59, 90, 120, 151, 181, 212, 243, 273, 304, 334][m]
  }

  /** Days of its year before month t. */
  function BeforeMonth(t: int): int {
    Accum(t % 12) + if IsLeap(t / 12) && t % 12 >= 2 then 1 else 0
  }

  function MonthStart(t: int): int {
    YearStart(t / 12) + BeforeMonth(t)
  }

  const EPOCH := 719162

  /** Seconds since 1970 of the given month, day of month and time of day, whatever their ranges. */
  function Instant(month: int, mday: int, hour: int, min: int, sec: int): int {
    ((((MonthStart(month) + mday - 1 - EPOCH) * 24) + hour) * 60 + min) * 60 + sec
  }

  lemma KnownYears()
    ensures IsLeap(1996) && IsLeap(2000) && !IsLeap(1900) && !IsLeap(1999)
    ensures YearStart(1) == 0 && YearStart(1970) == 719162 && YearStart(2000) == 730119
  {
  }

  /** Midnight of 1 January 1970 is 0, and the leap day of 2000 has its place. */
  lemma KnownDates()
    ensures Instant(23640, 1, 0, 0, 0) == 0 && Instant(24001, 29, 12, 34, 56) == 951827696
  {
    KnownYears();
    assert MonthStart(23640) == YearStart(1970) + Accum(0);
    assert MonthStart(24001) == YearStart(2000) + Accum(1);
  }

  lemma MonthLengths(year: int, m: int)
    requires 0 <= m < 12
    ensures MonthLength(12 * year + m) ==
            if m == 1 && IsLeap(year) then 29 else [31, 28, 31, 30, 31, 30, 31, 31, 30, 31, 30, 31][m]
  {
    assert (12 * year + m) / 12 == year && (12 * year + m) % 12 == m;
  }

  lemma NextYear(y: int)
    ensures YearStart(y + 1) == YearStart(y) + YearLength(y)
  {
    Quarter(y, 4);
    Quarter(y, 100);
    Quarter(y, 400);
    Nested(y);
  }

  /** Every fourth century is a century, and every century a fourth year. */
  lemma Nested(y: int)
    ensures y % 400 == 0 ==> y % 100 == 0
    ensures y % 100 == 0 ==> y % 4 == 0
  {
    Divides(y, 100, 4);
    Divides(y, 4, 25);
  }

  lemma Divides(y: int, a: int, b: int)
    requires (a == 100 && b == 4) || (a == 4 && b == 25)
    ensures y % (a * b) == 0 ==> y % a == 0
  {
    if a == 100 {
      var q, r := y / 400, y % 400;
      assert y == 400 * q + r;
    } else {
      var q, r := y / 100, y % 100;
      assert y == 100 * q + r;
    }
  }

  lemma Quarter(y: int, k: int)
    requires k == 4 || k == 100 || k == 400
    ensures y / k == (y - 1) / k + if y % k == 0 then 1 else 0
  {
  }

  /** Consecutive months follow each other without a gap. */
  lemma NextMonth(t: int)
    ensures MonthStart(t + 1) == MonthStart(t) + MonthLength(t)
  {
    var y, m := t / 12, t % 12;
    if m == 11 {
      assert (t + 1) / 12 == y + 1 && (t + 1) % 12 == 0;
      NextYear(y);
    } else {
      assert (t + 1) / 12 == y && (t + 1) % 12 == m + 1;
    }
  }

  lemma MonthGrows(t: int)
    ensures MonthStart(t + 1) == MonthStart(t) + MonthLength(t) && MonthLength(t) > 0
  {
    NextMonth(t);
  }

  /** A later month starts after this one has ended. */
  lemma {:induction false} MonthsInOrder(t: int, u: int)
    requires t < u
    ensures MonthStart(t) + MonthLength(t) <= MonthStart(u)
    decreases u - t
  {
    MonthGrows(u - 1);
    if t < u - 1 {
      MonthsInOrder(t, u - 1);
    }
  }

  predicate Clock(hour: int, min: int, sec: int) {
    0 <= hour < 24 && 0 <= min < 60 && 0 <= sec < 60
  }

  /** Fields in range are determined by their instant. */
  lemma InstantDetermines(t: int, mday: int, hour: int, min: int, sec: int,
                          t': int, mday': int, hour': int, min': int, sec': int)
    requires Clock(hour, min, sec) && 1 <= mday <= MonthLength(t)
    requires Clock(hour', min', sec') && 1 <= mday' <= MonthLength(t')
    requires Instant(t, mday, hour, min, sec) == Instant(t', mday', hour', min', sec')
    ensures t == t' && mday == mday' && hour == hour' && min == min' && sec == sec'
  {
    var d, d' := MonthStart(t) + mday, MonthStart(t') + mday';
    assert d == d' && hour == hour' && min == min' && sec == sec';
    if t < t' {
      MonthsInOrder(t, t');
    } else if t' < t {
      MonthsInOrder(t', t);
    }
  }

  lemma {:induction false} YearsInOrder(y: int, z: int)
    requires y <= z
    ensures YearStart(z) - YearStart(y) >= 365 * (z - y)
    decreases z - y
  {
    if y < z {
      NextYear(z - 1);
      YearsInOrder(y, z - 1);
    }
  }
}
