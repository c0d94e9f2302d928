/** Calendar arithmetic on broken-down times (date.c). */
module Date {
  import opened Calendar

  /** What compute_tz reads of a broken-down time. */
  datatype Local = Local(hour: int, min: int, yday: int)

  /** Day d, counted from 1970, is day yday of year y. */
  ghost predicate IsYearDay(y: int, yday: int, d: int) {
    YearStart(y) - EPOCH + yday == d && 0 <= yday < YearLength(y)
  }

  /** The broken-down time of instant s. */
  ghost predicate IsLocal(l: Local, s: int) {
    0 <= l.hour < 24 && 0 <= l.min < 60 && l.hour * 60 + l.min == s / 60 % 1440 &&
    exists y :: IsYearDay(y, l.yday, s / 60 / 1440)
  }

  /** A time zone a whole number of minutes, less than a day, away from UTC. */
  predicate Offset(off: int) {
    off % 60 == 0 && -86400 < off < 86400
  }

  ghost predicate Zoned(lt: Local, utc: Local, off: int) {
    Offset(off) && exists s :: IsLocal(utc, s) && IsLocal(lt, s + off)
  }

  ghost predicate FixedZone(zone: int -> Local, off: int) {
    Offset(off) && forall g :: IsLocal(zone(g), g + off)
  }

  /** How the day of the year moves when the clock moves by less than a day, across new year included. */
  lemma DayMoves(y: int, yday: int, d: int, z: int, yday': int, d': int)
    requires -1 <= d' - d <= 1 && IsYearDay(y, yday, d) && IsYearDay(z, yday', d')
    ensures d' == d <==> yday' == yday
    ensures d' == d - 1 <==> yday' - yday == -1 || yday' - yday > 1
  {
    var a, b := YearStart(y), YearStart(z);
    NextYear(y);
    NextYear(z);
    if y + 1 < z {
      YearsInOrder(y + 1, z);
      assert false;
    } else if z + 1 < y {
      YearsInOrder(z + 1, y);
      assert false;
    }
    assert y == z ==> a == b;
    assert z == y + 1 ==> b == a + YearLength(y);
    assert y == z + 1 ==> a == b + YearLength(z);
  }

  /** Moving the clock by o minutes, in days and minutes of the day. */
  lemma MinutesMove(m: int, o: int, u: int, l: int)
    requires -1440 < o < 1440 && u == m % 1440 && l == (m + o) % 1440
    ensures -1 <= (m + o) / 1440 - m / 1440 <= 1 && l - u == o - 1440 * ((m + o) / 1440 - m / 1440)
  {
  }

  /** compute_tz: for a fixed zone, exactly its offset. */
  method ComputeTz(lt: Local, utc: Local) returns (t: int)
    ensures forall off :: Zoned(lt, utc, off) ==> t == off
  {
    t := ((lt.hour - utc.hour) * 60 + (lt.min - utc.min)) * 60;
    var yday := lt.yday - utc.yday;
    if yday != 0 {
      if yday == -1 || yday > 1 {
        t := t - 24 * 60 * 60;
      } else {
        t := t + 24 * 60 * 60;
      }
    }
    forall off | Zoned(lt, utc, off) ensures t == off {
      var s :| IsLocal(utc, s) && IsLocal(lt, s + off);
      OffsetFound(lt, utc, s, off);
    }
  }

  function ZoneOf(lt: Local, utc: Local): int {
    ((lt.hour - utc.hour) * 60 + (lt.min - utc.min)) * 60 +
    if lt.yday == utc.yday then 0 else if lt.yday - utc.yday == -1 || lt.yday - utc.yday > 1 then -86400 else 86400
  }

  lemma OffsetFound(lt: Local, utc: Local, s: int, off: int)
    requires Offset(off) && IsLocal(utc, s) && IsLocal(lt, s + off)
    ensures ZoneOf(lt, utc) == off
  {
    var m, o := s / 60, off / 60;
    assert (s + off) / 60 == m + o;
    MinutesMove(m, o, utc.hour * 60 + utc.min, lt.hour * 60 + lt.min);
    var y :| IsYearDay(y, utc.yday, m / 1440);
    var z :| IsYearDay(z, lt.yday, (m + o) / 1440);
    DayMoves(y, utc.yday, m / 1440, z, lt.yday, (m + o) / 1440);
  }

  lemma ZoneFound(zone: int -> Local, g: int, utc: Local, tz: int)
    requires IsLocal(utc, g) && forall off :: Zoned(zone(g), utc, off) ==> tz == off
    ensures forall off :: FixedZone(zone, off) ==> tz == off
  {
    forall off | FixedZone(zone, off) ensures tz == off {
      assert IsLocal(zone(g), g + off);
      assert Zoned(zone(g), utc, off);
    }
  }

  // ----- how far mutt_mktime is off, in days -----

  /** Leap days that a leap year every fourth year has, counted from 1970 to month t, and the calendar has not. */
  function ExtraLeapDays(t: int): int {
    var y := if t % 12 >= 2 then t / 12 else t / 12 - 1;
    y / 100 - y / 400 - 15
  }

  /** The quotient that counts the leap years is truncated, so it is one too high before 1969 in three years of four. */
  function Truncated(y: int): int {
    if y < 1969 && y % 4 != 1 then 1 else 0
  }

  function DayError(t: int): int {
    ExtraLeapDays(t) + Truncated(t / 12)
  }

  /** The months whose days are counted exactly: all from 1969 to February 2100, and before 1969 those where the two
      errors are both absent or cancel. */
  predicate ExactMonth(t: int) {
    (12 * 1969 <= t < 12 * 2100 + 2) ||
    (12 * 1900 + 2 <= t < 12 * 1969 && t / 12 % 4 == 1) ||
    (12 * 1800 + 2 <= t < 12 * 1900 + 2 && t / 12 % 4 != 1)
  }

  /** How many century years up to x are no leap years, less the 15 up to 1970. */
  lemma Centuries(x: int)
    ensures var extra := x / 100 - x / 400 - 15;
            (extra >= 1 <==> x >= 2100) && (extra <= -1 <==> x < 1900) && (extra <= -2 <==> x < 1800)
  {
    var q, r := x / 400, x % 400;
    assert x == 400 * q + r && x / 100 == 4 * q + r / 100;
  }

  lemma NoDayErrorIff(t: int)
    ensures DayError(t) == 0 <==> ExactMonth(t)
  {
    var y, m := t / 12, t % 12;
    assert t == 12 * y + m;
    Centuries(if m >= 2 then y else y - 1);
  }

  /** The months in which the rule of a leap year every fourth year from 1969 on is right. */
  predicate Modern(t: int) {
    12 * 1969 <= t < 12 * 2100 + 2
  }

  /** These months by year and month, January being 0. */
  lemma MonthsByYear(y: int, m: int)
    requires 0 <= m < 12
    ensures Modern(12 * y + m) <==> 1969 <= y < 2100 || (y == 2100 && m < 2)
    ensures ExactMonth(12 * y + m) <==>
            (1969 <= y < 2100 || (y == 2100 && m < 2)) ||
            (y < 1969 && (y > 1900 || (y == 1900 && m >= 2)) && y % 4 == 1) ||
            (y % 4 != 1 && (y > 1800 || (y == 1800 && m >= 2)) && (y < 1900 || (y == 1900 && m < 2)))
  {
    assert (12 * y + m) / 12 == y;
  }

  /** C division: the quotient is truncated towards zero. */
  function Quotient(a: int, b: int): int
    requires b > 0
  {
    if a >= 0 then a / b else -(-a / b)
  }

  /** The month is looked up modulo 12, but compared as it is. */
  function DayOfYear(year: int, mon: nat, mday: int): int {
    Accum(mon % 12) + mday - if year % 4 != 0 || mon < 2 then 1 else 0
  }

  function Looked(year: int, mon: int): int {
    12 * (year + 1900) + mon % 12
  }

  /** A month above 11 is looked up in the same year, and counts a leap day of that year even before March. */
  function Overrun(year: int, mon: nat): int {
    if mon >= 12 && mon % 12 < 2 && year % 4 == 0 then 1 else 0
  }

  /** The leap days before March, or in all, of year y: the terms of the calendar and of the four-year rule. */
  lemma LeapDays(y: int, late: bool)
    ensures var x := if late then y else y - 1;
            YearStart(y) + (if late && IsLeap(y) then 1 else 0) == 365 * (y - 1) + x / 4 - x / 100 + x / 400
    ensures var x := if late then y else y - 1;
            x / 4 == (y - 1) / 4 + if late && y % 4 == 0 then 1 else 0
  {
    if late {
      NextYear(y);
      Quarter(y, 4);
    }
  }

  lemma FourYearRule(y: int)
    ensures Quotient(y - 1969, 4) == (y - 1) / 4 - 492 + Truncated(y)
  {
    assert (y - 1969) / 4 == (y - 1) / 4 - 492;
  }

  /** Month mon of year y. */
  lemma MonthAt(y: int, mon: int)
    requires 0 <= mon < 12
    ensures MonthStart(12 * y + mon) == YearStart(y) + Accum(mon) + if mon >= 2 && IsLeap(y) then 1 else 0
    ensures var x := if mon >= 2 then y else y - 1; DayError(12 * y + mon) == x / 100 - x / 400 - 15 + Truncated(y)
  {
    MonthSplits(y, mon);
  }

  lemma YearRemainder(year: int)
    ensures year % 4 == (year + 1900) % 4
  {
  }

  lemma DayCounts(year: int, mon: nat, mday: int)
    ensures DayOfYear(year, mon, mday) ==
            Accum(mon % 12) + mday - 1 + (if mon % 12 >= 2 && year % 4 == 0 then 1 else 0) + Overrun(year, mon)
  {
    if mon < 12 {
      assert mon % 12 == mon;
    }
  }

  /** The days mutt_mktime counts are those of the calendar, plus its error. */
  lemma CountedDays(year: int, mon: nat, mday: int)
    ensures var t := Looked(year, mon);
            DayOfYear(year, mon, mday) + (year - 70) * 365 + Quotient(year - 69, 4) ==
            MonthStart(t) + mday - 1 - EPOCH + DayError(t) + Overrun(year, mon)
  {
    var y, m := year + 1900, mon % 12;
    var accum, quotient, error := Accum(m), Quotient(y - 1969, 4), Truncated(y);
    MonthAt(y, m);
    LeapDays(y, m >= 2);
    FourYearRule(y);
    YearRemainder(year);
    assert quotient == (y - 1) / 4 - 492 + error;
    DayCounts(year, mon, mday);
  }

  lemma MonthSplits(y: int, mon: int)
    requires 0 <= mon < 12
    ensures (12 * y + mon) / 12 == y && (12 * y + mon) % 12 == mon
  {
  }

  lemma ModernIsExact(year: int, mon: int)
    requires 0 <= mon < 12 && Modern(12 * (year + 1900) + mon)
    ensures Looked(year, mon) == 12 * (year + 1900) + mon && DayError(Looked(year, mon)) + Overrun(year, mon) == 0
  {
    NoDayErrorIff(12 * (year + 1900) + mon);
  }

  lemma LocalOf(y: int, yday: int, d: int, hour: int, min: int, sec: int)
    requires Clock(hour, min, sec) && IsYearDay(y, yday, d)
    ensures IsLocal(Local(hour, min, yday), ((d * 24 + hour) * 60 + min) * 60 + sec)
  {
    SplitInstant(d, hour, min, sec);
  }

  lemma LeapModern(y: int)
    requires 1969 <= y < 2100
    ensures IsLeap(y) <==> y % 4 == 0
  {
  }

  lemma ModernYearDay(year: int, mon: int, mday: int)
    requires 0 <= mon < 12
    requires var t := 12 * (year + 1900) + mon; Modern(t) && 1 <= mday <= MonthLength(t)
    ensures var t := 12 * (year + 1900) + mon;
            IsYearDay(year + 1900, DayOfYear(year, mon, mday), MonthStart(t) + mday - 1 - EPOCH)
  {
    var y := year + 1900;
    MonthSplits(y, mon);
    MonthAt(y, mon);
    YearRemainder(year);
    assert mon % 12 == mon;
    if y < 2100 {
      LeapModern(y);
    }
  }

  lemma NoErrorInRange(year: int, mon: int)
    requires 0 <= mon < 12
    ensures var t := 12 * (year + 1900) + mon;
            Looked(year, mon) == t && (DayError(Looked(year, mon)) + Overrun(year, mon) == 0 <==> ExactMonth(t))
  {
    NoDayErrorIff(12 * (year + 1900) + mon);
  }

  /** A month above 11 is counted in the year it is given with, as the month twelve or more before: from 1969 to
      February 2100 the count is always too low. */
  lemma OverrunTooLow(year: int, mon: nat, mday: int, hour: int, min: int, sec: int)
    requires mon >= 12 && Modern(Looked(year, mon))
    ensures Instant(Looked(year, mon), mday, hour, min, sec) +
            86400 * (DayError(Looked(year, mon)) + Overrun(year, mon)) <
            Instant(12 * (year + 1900) + mon, mday, hour, min, sec)
  {
    var error := DayError(Looked(year, mon)) + Overrun(year, mon);
    LookedEarlier(year, mon);
    ModernError(Looked(year, mon));
    DaysApart(MonthStart(Looked(year, mon)), MonthStart(12 * (year + 1900) + mon), error, mday, hour, min, sec);
  }

  lemma ModernError(t: int)
    requires Modern(t)
    ensures DayError(t) == 0
  {
    NoDayErrorIff(t);
  }

  lemma LookedEarlier(year: int, mon: nat)
    requires mon >= 12
    ensures MonthStart(Looked(year, mon)) + 364 <= MonthStart(12 * (year + 1900) + mon)
  {
    Carried(year + 1900, mon);
    SameMonthLater(year + 1900, year + 1900 + mon / 12, mon % 12);
  }

  lemma Carried(y: int, mon: nat)
    ensures 12 * y + mon == 12 * (y + mon / 12) + mon % 12 && (mon >= 12 ==> mon / 12 >= 1)
  {
  }

  lemma MonthInYear(y: int, m: int)
    requires 0 <= m < 12
    ensures YearStart(y) + Accum(m) <= MonthStart(12 * y + m) <= YearStart(y) + Accum(m) + 1
  {
    MonthAt(y, m);
  }

  lemma SameMonthLater(y: int, z: int, m: int)
    requires 0 <= m < 12 && y < z
    ensures MonthStart(12 * y + m) + 364 <= MonthStart(12 * z + m)
  {
    MonthInYear(y, m);
    MonthInYear(z, m);
    YearsInOrder(y, z);
  }

  lemma DaysApart(early: int, late: int, extra: int, mday: int, hour: int, min: int, sec: int)
    requires early + extra < late
    ensures ((((early + mday - 1 - EPOCH) * 24) + hour) * 60 + min) * 60 + sec + 86400 * extra <
            ((((late + mday - 1 - EPOCH) * 24) + hour) * 60 + min) * 60 + sec
  {
  }

  /** In modern months the recorded day of the year is right, and the instant splits into day and minute. */
  lemma ModernDay(year: int, mon: int, mday: int, hour: int, min: int, sec: int)
    requires 0 <= mon < 12 && Clock(hour, min, sec)
    requires var t := 12 * (year + 1900) + mon; Modern(t) && 1 <= mday <= MonthLength(t)
    ensures var t := 12 * (year + 1900) + mon;
            IsLocal(Local(hour, min, DayOfYear(year, mon, mday)), Instant(t, mday, hour, min, sec))
  {
    ModernYearDay(year, mon, mday);
    LocalOf(year + 1900, DayOfYear(year, mon, mday), MonthStart(12 * (year + 1900) + mon) + mday - 1 - EPOCH,
            hour, min, sec);
  }

  lemma SplitInstant(d: int, hour: int, min: int, sec: int)
    requires Clock(hour, min, sec)
    ensures var g := ((d * 24 + hour) * 60 + min) * 60 + sec;
            g / 60 / 1440 == d && g / 60 % 1440 == hour * 60 + min
  {
    var m := (d * 24 + hour) * 60 + min;
    assert (m * 60 + sec) / 60 == m;
  }

  /** struct tm; the year counts from 1900. */
  class Tm {
    var sec: int
    var min: int
    var hour: int
    var mday: int
    var mon: int
    var year: int
    var yday: int

    ghost function Month(): int
      reads this
    {
      12 * (year + 1900) + mon
    }

    /** The Gregorian instant the fields denote, in seconds since 1970, whatever their ranges. */
    ghost function Seconds(): int
      reads this
    {
      Instant(Month(), mday, hour, min, sec)
    }

    ghost predicate ClockInRange()
      reads this
    {
      0 <= sec < 60 && 0 <= min < 60 && 0 <= hour < 24
    }

    ghost predicate InRange()
      reads this
    {
      ClockInRange() && 0 <= mon < 12 && 1 <= mday <= MonthLength(Month())
    }

    /** Month m of this year, as mutt_normalize_time looks it up. */
    method DaysInMonth() returns (n: int)
      requires 0 <= mon < 12
      ensures n == MonthLength(Month())
    {
      var days := [31, 28, 31, 30, 31, 30, 31, 31, 30, 31, 30, 31];
      n := days[mon];
      if mon == 1 {
        var y := year + 1900;
        if y % 4 == 0 && (y % 100 != 0 || y % 400 == 0) {
          n := n + 1;
        }
      }
      assert Month() / 12 == year + 1900 && Month() % 12 == mon;
    }

    method NormalizeClock()
      modifies `sec, `min, `hour, `mday
      ensures ClockInRange()
      ensures ((mday * 24 + hour) * 60 + min) * 60 + sec == old(((mday * 24 + hour) * 60 + min) * 60 + sec)
      ensures mon == old(mon) && year == old(year) && yday == old(yday)
    {
      while sec < 0
        invariant min * 60 + sec == old(min * 60 + sec)
        invariant hour == old(hour) && mday == old(mday) && mon == old(mon) && year == old(year)
      {
        sec := sec + 60;
        min := min - 1;
      }
      while sec >= 60
        invariant 0 <= sec && min * 60 + sec == old(min * 60 + sec)
        invariant hour == old(hour) && mday == old(mday) && mon == old(mon) && year == old(year)
      {
        sec := sec - 60;
        min := min + 1;
      }
      NormalizeHours();
    }

    method NormalizeHours()
      requires 0 <= sec < 60
      modifies `min, `hour, `mday
      ensures ClockInRange()
      ensures (mday * 24 + hour) * 60 + min == old((mday * 24 + hour) * 60 + min)
    {
      while min < 0
        invariant hour * 60 + min == old(hour * 60 + min) && mday == old(mday)
      {
        min := min + 60;
        hour := hour - 1;
      }
      while min >= 60
        invariant 0 <= min && hour * 60 + min == old(hour * 60 + min) && mday == old(mday)
      {
        min := min - 60;
        hour := hour + 1;
      }
      while hour < 0
        invariant 0 <= min < 60 && (mday * 24 + hour) * 60 + min == old((mday * 24 + hour) * 60 + min)
      {
        hour := hour + 24;
        mday := mday - 1;
      }
      while hour >= 24
        invariant 0 <= hour && 0 <= min < 60 && (mday * 24 + hour) * 60 + min == old((mday * 24 + hour) * 60 + min)
      {
        hour := hour - 24;
        mday := mday + 1;
      }
    }

    method NormalizeMonth()
      modifies `mon, `year
      ensures 0 <= mon < 12 && Month() == old(Month())
    {
      while mon < 0
        invariant Month() == old(Month())
      {
        mon := mon + 12;
        year := year - 1;
      }
      while mon >= 12
        invariant 0 <= mon && Month() == old(Month())
      {
        mon := mon - 12;
        year := year + 1;
      }
    }

    method PreviousMonth()
      requires 0 <= mon < 12
      modifies `mon, `year
      ensures 0 <= mon < 12 && Month() == old(Month()) - 1
    {
      if mon != 0 {
        mon := mon - 1;
      } else {
        mon := 11;
        year := year - 1;
      }
    }

    method FollowingMonth()
      requires 0 <= mon < 12
      modifies `mon, `year
      ensures 0 <= mon < 12 && Month() == old(Month()) + 1
    {
      if mon < 11 {
        mon := mon + 1;
      } else {
        mon := 0;
        year := year + 1;
      }
    }

    /** Step back into the month before, whose days are still to come. */
    method Borrow()
      requires 0 <= mon < 12
      modifies `mday, `mon, `year
      ensures 0 <= mon < 12 && mday == old(mday) + MonthLength(Month())
      ensures MonthStart(Month()) + mday == old(MonthStart(Month()) + mday)
    {
      NextMonth(Month() - 1);
      PreviousMonth();
      var n := DaysInMonth();
      mday := mday + n;
    }

    /** Step on into the next month, the n days of this one being over. */
    method Carry(n: int)
      requires 0 <= mon < 12 && n == MonthLength(Month())
      modifies `mday, `mon, `year
      ensures 0 <= mon < 12 && mday == old(mday) - n
      ensures MonthStart(Month()) + mday == old(MonthStart(Month()) + mday)
    {
      NextMonth(Month());
      mday := mday - n;
      FollowingMonth();
    }

    method NormalizeDay()
      requires 0 <= mon < 12
      modifies `mday, `mon, `year
      ensures 0 <= mon < 12 && 1 <= mday <= MonthLength(Month())
      ensures MonthStart(Month()) + mday == old(MonthStart(Month()) + mday)
    {
      while mday <= 0
        invariant 0 <= mon < 12 && MonthStart(Month()) + mday == old(MonthStart(Month()) + mday)
        decreases -mday
      {
        Borrow();
      }
      var n := DaysInMonth();
      while mday > n
        invariant 0 <= mon < 12 && n == MonthLength(Month()) && 1 <= mday
        invariant MonthStart(Month()) + mday == old(MonthStart(Month()) + mday)
        decreases mday
      {
        Carry(n);
        n := DaysInMonth();
      }
    }

    /** mutt_normalize_time: every field comes into range and the instant stays the same, for any integers. */
    method Normalize()
      modifies this
      ensures InRange() && Seconds() == old(Seconds()) && yday == old(yday)
    {
      NormalizeClock();
      NormalizeMonth();
      NormalizeDay();
    }

    /** The month as mutt_mktime looks it up. */
    ghost function MonthRead(): int
      reads this
    {
      Looked(year, mon)
    }

    /** The days since January 1 in the same year, recorded in the time. */
    method SetYearDay() returns (g: int)
      requires 0 <= mon
      modifies `yday
      ensures g == yday == DayOfYear(year, mon, mday)
    {
      var accum := [0, 31, 59, 90, 120, 151, 181, 212, 243, 273, 304, 334];
      g := accum[mon % 12];
      g := g + mday;
      if year % 4 != 0 || mon < 2 {
        g := g - 1;
      }
      yday := g;
    }

    method CountDays() returns (g: int)
      requires 0 <= mon
      modifies `yday
      ensures yday == DayOfYear(year, mon, mday)
      ensures g == MonthStart(MonthRead()) + mday - 1 - EPOCH + DayError(MonthRead()) + Overrun(year, mon)
    {
      CountedDays(year, mon, mday);
      g := SetYearDay();
      g := g + (year - 70) * 365;
      g := g + Quotient(year - 69, 4);
    }

    method CountSeconds() returns (g: int)
      requires 0 <= mon
      modifies `yday
      ensures yday == DayOfYear(year, mon, mday)
      ensures g == Instant(MonthRead(), mday, hour, min, sec) + 86400 * (DayError(MonthRead()) + Overrun(year, mon))
    {
      g := CountDays();
      g := g * 24;
      g := g + hour;
      g := g * 60;
      g := g + min;
      g := g * 60;
      g := g + sec;
    }

    /** In modern months that is the instant of the fields, and the recorded day is its day of the year. */
    method CountModern() returns (g: int)
      requires 0 <= mon
      modifies `yday
      ensures yday == DayOfYear(year, mon, mday)
      ensures g == Instant(MonthRead(), mday, hour, min, sec) + 86400 * (DayError(MonthRead()) + Overrun(year, mon))
      ensures InRange() && Modern(Month()) ==> g == Seconds() && IsLocal(Local(hour, min, yday), g)
    {
      g := CountSeconds();
      if InRange() && Modern(Month()) {
        ModernIsExact(year, mon);
        ModernDay(year, mon, mday, hour, min, sec);
      }
    }

    /** Of fields in range the count is the instant in exactly the months without an error. */
    method CountExact() returns (g: int)
      requires 0 <= mon
      modifies `yday
      ensures yday == DayOfYear(year, mon, mday)
      ensures g == Instant(MonthRead(), mday, hour, min, sec) + 86400 * (DayError(MonthRead()) + Overrun(year, mon))
      ensures InRange() ==> (g == Seconds() <==> ExactMonth(Month()))
      ensures InRange() && Modern(Month()) ==> g == Seconds() && IsLocal(Local(hour, min, yday), g)
    {
      g := CountModern();
      if InRange() {
        NoErrorInRange(year, mon);
      }
    }

    /** mutt_mktime: the instant of the fields, up to the miscounted days; in a fixed local zone, from 1969 to
        February 2100, exactly the zone's offset less. */
    method Mktime(local_: bool, zone: int -> Local) returns (g: int)
      requires 0 <= mon
      modifies `yday
      ensures !local_ ==>
                g == Instant(MonthRead(), mday, hour, min, sec) + 86400 * (DayError(MonthRead()) + Overrun(year, mon))
      ensures !local_ && InRange() ==> (g == Seconds() <==> ExactMonth(Month()))
      ensures forall off :: local_ && InRange() && Modern(Month()) && FixedZone(zone, off) ==> g == Seconds() - off
      ensures yday == DayOfYear(year, mon, mday)
    {
      g := CountExact();
      if local_ {
        var tz := ComputeTz(zone(g), Local(hour, min, yday));
        if InRange() && Modern(Month()) {
          ZoneFound(zone, g, Local(hour, min, yday), tz);
        }
        g := g - tz;
      }
    }
  }
}
