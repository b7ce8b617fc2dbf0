/** gmtime_r: day numbers to dates of the Gregorian calendar. */
module Gmtime {
  const SECS_PER_DAY: int := 86400
  const SECS_PER_HOUR: int := 3600

  // ---- C's division, which truncates ----

  function CDiv(a: int, b: int): int
    requires b > 0
  {
    if a >= 0 then a / b else -(-a / b)
  }

  function CRem(a: int, b: int): int
    requires b > 0
  {
    if a >= 0 then a % b else -(-a % b)
  }

  /** Quotient and remainder make up the number; both have its sign. */
  lemma Split(a: int, b: int)
    requires b > 0
    ensures CDiv(a, b) * b + CRem(a, b) == a && -b < CRem(a, b) < b
    ensures a >= 0 ==> CRem(a, b) >= 0
    ensures a <= 0 ==> CRem(a, b) <= 0
  {
    var n := if a >= 0 then a else -a;
    assert n / b * b + n % b == n;
  }

  lemma SplitHours(a: int)
    ensures a >= 0 ==> CDiv(a, 3600) >= 0
    ensures a <= 0 ==> CDiv(a, 3600) <= 0
    ensures 0 <= a < 86400 ==> CDiv(a, 3600) < 24
  {
  }

  lemma SplitMinutes(a: int)
    requires -3600 < a < 3600
    ensures -60 < CDiv(a, 60) < 60 && (a >= 0 ==> CDiv(a, 60) >= 0) && (a <= 0 ==> CDiv(a, 60) <= 0)
  {
  }

  /** Truncation leaves no negative remainder just when the division of a
      negative number comes out even. */
  lemma SplitDays(t: int)
    ensures CRem(t, 86400) >= 0 <==> t >= 0 || t % 86400 == 0
  {
  }

  lemma Weekday(a: int)
    ensures a % 7 == if CRem(a, 7) < 0 then CRem(a, 7) + 7 else CRem(a, 7)
  {
  }

  // ---- The calendar ----

  predicate Leap(y: int) {
    y % 4 == 0 && (y % 100 != 0 || y % 400 == 0)
  }

  function YearLength(y: int): int {
    if Leap(y) then 366 else 365
  }

  /** How many of the years from 1 to y are leap years (negative y: the count backwards). */
  function LeapsUpTo(y: int): int {
    y / 4 - y / 100 + y / 400
  }

  /** The day number of January 1 of year y; day 0 is January 1, 1970. */
  function YearStart(y: int): int {
    365 * (y - 1970) + LeapsUpTo(y - 1) - LeapsUpTo(1969)
  }

  const LENGTHS: seq<int> := [31, 28, 31, 30, 31, 30, 31, 31, 30, 31, 30, 31]
  const LEAP_LENGTHS: seq<int> := [31, 29, 31, 30, 31, 30, 31, 31, 30, 31, 30, 31]

  function MonthLength(y: int, m: int): int
    requires 0 <= m < 12
  {
    if Leap(y) then LEAP_LENGTHS[m] else LENGTHS[m]
  }

  /** Days of year y before month m. */
  function MonthStart(y: int, m: int): int
    requires 0 <= m <= 12
  {
    [0, 31, 59, 90, 120, 151, 181, 212, 243, 273, 304, 334, 365][m] + if m >= 2 && Leap(y) then 1 else 0
  }

  predicate IsDate(y: int, m: int, d: int) {
    0 <= m < 12 && 1 <= d <= MonthLength(y, m)
  }

  function DayNumber(y: int, m: int, d: int): int
    requires 0 <= m < 12
  {
    YearStart(y) + MonthStart(y, m) + d - 1
  }

  lemma Quarter(y: int, b: int)
    requires b == 4 || b == 100 || b == 400
    ensures y / b == (y - 1) / b + if y % b == 0 then 1 else 0
  {
  }

  lemma CenturyIsFourth(y: int)
    ensures y % 400 == 0 ==> y % 100 == 0
    ensures y % 100 == 0 ==> y % 4 == 0
  {
  }

  /** Each year starts as many days after the one before as that has days. */
  lemma YearStep(y: int)
    ensures YearStart(y + 1) == YearStart(y) + YearLength(y)
  {
    Quarter(y, 4);
    Quarter(y, 100);
    Quarter(y, 400);
    CenturyIsFourth(y);
  }

  lemma Epoch()
    ensures YearStart(1970) == 0
  {
  }

  lemma {:induction false} LaterYear(y1: int, y2: int)
    requires y1 < y2
    ensures YearStart(y1) + YearLength(y1) <= YearStart(y2)
    decreases y2 - y1
  {
    hide YearStart;
    hide Leap;
    YearStep(y1);
    if y1 + 1 < y2 {
      LaterYear(y1 + 1, y2);
    }
  }

  lemma MonthStep(y: int, m: int)
    requires 0 <= m < 12
    ensures MonthStart(y, m + 1) == MonthStart(y, m) + MonthLength(y, m)
    ensures MonthStart(y, 0) == 0 && MonthStart(y, 12) == YearLength(y)
  {
    hide Leap;
    if m < 6 {
      if m == 0 {} else if m == 1 {} else if m == 2 {} else if m == 3 {} else if m == 4 {} else {}
    } else {
      if m == 6 {} else if m == 7 {} else if m == 8 {} else if m == 9 {} else if m == 10 {} else {}
    }
  }

  lemma {:induction false} LaterMonth(y: int, m1: int, m2: int)
    requires 0 <= m1 < m2 <= 12
    ensures MonthStart(y, m1) + MonthLength(y, m1) <= MonthStart(y, m2)
    decreases m2 - m1
  {
    hide Leap;
    hide MonthStart;
    MonthStep(y, m1);
    if m1 + 1 < m2 {
      MonthStep(y, m1 + 1);
      assert MonthLength(y, m1 + 1) >= 0;
      LaterMonth(y, m1 + 1, m2);
    }
  }

  /** A date lies in its year. */
  lemma InYear(y: int, m: int, d: int)
    requires IsDate(y, m, d)
    ensures YearStart(y) <= DayNumber(y, m, d) < YearStart(y) + YearLength(y)
  {
    hide YearStart;
    hide Leap;
    hide MonthStart;
    MonthStep(y, m);
    LaterMonth(y, m, 12);
    if m > 0 { LaterMonth(y, 0, m); }
    MonthStep(y, 0);
  }

  /** Different dates have different day numbers. */
  lemma UniqueDate(y1: int, m1: int, d1: int, y2: int, m2: int, d2: int)
    requires IsDate(y1, m1, d1) && IsDate(y2, m2, d2) && DayNumber(y1, m1, d1) == DayNumber(y2, m2, d2)
    ensures y1 == y2 && m1 == m2 && d1 == d2
  {
    InYear(y1, m1, d1);
    InYear(y2, m2, d2);
    hide YearStart;
    hide Leap;
    hide MonthStart;
    if y1 < y2 { LaterYear(y1, y2); } else if y2 < y1 { LaterYear(y2, y1); }
    if m1 < m2 { LaterMonth(y1, m1, m2); } else if m2 < m1 { LaterMonth(y1, m2, m1); }
  }

  // ---- int and unsigned int, with INT_MAX as a parameter ----

  /** An unsigned int of the same width as int wraps. */
  function Wrap(v: int, intMax: nat): int {
    v % (2 * intMax + 2)
  }

  /** An unsigned int stored in an int. */
  function Signed(v: int, intMax: nat): int {
    if v > intMax then v - (2 * intMax + 2) else v
  }

  lemma WrapSmall(v: int, intMax: nat)
    requires 0 <= v < 2 * intMax + 2
    ensures Wrap(v, intMax) == v
  {
  }

  /** A year from 0 to INT_MAX + 1900 survives the subtraction of 1900. */
  lemma YearStored(y: int, intMax: nat)
    requires 0 <= y < 2 * intMax + 2 && 1900 <= intMax
    ensures Signed(Wrap(y - 1900, intMax), intMax) <= intMax
    ensures y <= intMax + 1900 ==> Signed(Wrap(y - 1900, intMax), intMax) == y - 1900
  {
    if y >= 1900 {
      WrapSmall(y - 1900, intMax);
    } else {
      WrapNegative(y - 1900, intMax);
    }
  }

  lemma WrapNegative(v: int, intMax: nat)
    requires -(2 * intMax + 2) <= v < 0
    ensures Wrap(v, intMax) == v + (2 * intMax + 2)
  {
    var u := 2 * intMax + 2;
    var q, r := v / u, v % u;
    assert v == q * u + r && 0 <= r < u;
    QuotientBelow(q, u, r);
  }

  /** A number between -u and 0 has the quotient -1. */
  lemma QuotientBelow(q: int, u: int, r: int)
    requires 0 <= r < u && -u <= q * u + r < 0
    ensures q == -1
  {
  }

  // ---- The conversion ----

  class Tm {
    var hour: int
    var min: int
    var sec: int
    var wday: int
    var year: int
    var yday: int
    var mon: int
    var mday: int

    constructor () {
    }

    /** The fields denote that day. */
    ghost predicate Denotes(days: int)
      reads this
    {
      var y := year + 1900;
      IsDate(y, mon, mday) && DayNumber(y, mon, mday) == days &&
      yday == days - YearStart(y) && 0 <= yday < YearLength(y) && wday == (days + 4) % 7
    }

    /** Hours, minutes and seconds; each has the sign of rem. */
    method SplitTime(rem0: int)
      modifies `hour, `min, `sec
      ensures hour * 3600 + min * 60 + sec == rem0 && -60 < sec < 60 && -60 < min < 60
      ensures rem0 >= 0 ==> 0 <= sec && 0 <= min && 0 <= hour
      ensures rem0 <= 0 ==> sec <= 0 && min <= 0 && hour <= 0
      ensures 0 <= rem0 < 86400 ==> hour < 24
    {
      hide CDiv;
      hide CRem;
      Split(rem0, SECS_PER_HOUR);
      SplitHours(rem0);
      hour := CDiv(rem0, SECS_PER_HOUR);
      var rem := CRem(rem0, SECS_PER_HOUR);
      Split(rem, 60);
      SplitMinutes(rem);
      min := CDiv(rem, 60);
      sec := CRem(rem, 60);
    }

    /** Step from 1970 to the year of day days0, which is day days of it. Below 0
        and beyond what an unsigned int holds, the year wraps. */
    method FindYear(days0: int, intMax: nat) returns (y: int, days: int)
      requires 1970 <= intMax
      ensures 0 <= y < 2 * intMax + 2 && 0 <= days < YearLength(y)
      ensures YearStart(0) <= days0 < YearStart(2 * intMax + 2) ==> YearStart(y) + days == days0
    {
      hide Leap;
      hide YearStart;
      y, days := 1970, days0;
      Epoch();
      while days >= YearLength(y)
        invariant 0 <= y < 2 * intMax + 2 && (days0 >= 0 ==> days >= 0)
        invariant YearStart(y) + days == days0 || (0 <= days && YearStart(2 * intMax + 2) <= days0)
        decreases days
      {
        YearStep(y);
        days := days - YearLength(y);
        WrapYear(y + 1, intMax);
        y := Wrap(y + 1, intMax);
      }
      while days < 0
        invariant 0 <= y < 2 * intMax + 2 && days < YearLength(y)
        invariant YearStart(0) <= days0 < YearStart(2 * intMax + 2) ==> YearStart(y) + days == days0
        decreases -days
      {
        if YearStart(0) <= days0 < YearStart(y) { NotBelow(y, days0); }
        if y == 0 { WrapNegative(-1, intMax); } else { WrapSmall(y - 1, intMax); }
        y := Wrap(y - 1, intMax);
        YearStep(y);
        days := days + YearLength(y);
      }
    }

    /** From day yday of year y to the month and its day. */
    method FindMonth(y: int)
      requires 0 <= yday < YearLength(y)
      modifies `mon, `mday
      ensures IsDate(y, mon, mday) && MonthStart(y, mon) + mday - 1 == yday
    {
      hide Leap;
      hide MonthStart;
      var m, days := 0, yday;
      MonthStep(y, 0);
      while days >= MonthLength(y, m)
        invariant 0 <= m < 12 && 0 <= days && MonthStart(y, m) + days == yday
        modifies {}
        decreases days
      {
        MonthStep(y, m);
        days := days - MonthLength(y, m);
        m := m + 1;
      }
      mon := m;
      mday := days + 1;
    }

    /** The date of a day, and the time of a number of seconds. From year 0 on the
        date is right just when tm_year, an int, can hold its year. */
    method ComputeTm(days0: int, rem0: int, intMax: nat)
      requires 1970 <= intMax
      modifies this
      ensures YearStart(0) <= days0 ==> (Denotes(days0) <==> days0 < YearStart(intMax + 1901))
      ensures wday == (days0 + 4) % 7 && 0 <= mon < 12 && 1 <= mday <= 31
      ensures hour * 3600 + min * 60 + sec == rem0 && -60 < sec < 60 && -60 < min < 60
      ensures rem0 >= 0 ==> 0 <= sec && 0 <= min && 0 <= hour
      ensures rem0 <= 0 ==> sec <= 0 && min <= 0 && hour <= 0
      ensures 0 <= rem0 < 86400 ==> hour < 24
    {
      hide Leap;
      hide YearStart;
      hide MonthStart;
      hide CRem;
      hide Wrap;
      hide Signed;
      SplitTime(rem0);
      Weekday(4 + days0);
      // Day 0 was a Thursday, day 4 of its week
      wday := CRem(4 + days0, 7);
      if wday < 0 {
        wday := wday + 7;
      }
      var y, days := FindYear(days0, intMax);
      YearStored(y, intMax);
      year := Signed(Wrap(y - 1900, intMax), intMax);
      yday := days;
      FindMonth(y);
      if YearStart(0) <= days0 { WhichYear(y, days, days0, intMax); }
      if year <= intMax && IsDate(year + 1900, mon, mday) && DayNumber(year + 1900, mon, mday) == days0 {
        InYear(year + 1900, mon, mday);
        EarlierYear(year + 1900, intMax + 1900, days0);
      }
    }

    /** The date and time of a number of seconds. The date is that of the day the
        truncating division gives; before 1970 its remainder is negative, and the
        time fields are right exactly when it is 0. */
    method GmtimeR(t: int, intMax: nat)
      requires 1970 <= intMax
      modifies this
      ensures YearStart(0) <= CDiv(t, 86400) ==>
                (Denotes(CDiv(t, 86400)) <==> CDiv(t, 86400) < YearStart(intMax + 1901))
      ensures Denotes(CDiv(t, 86400)) ==>
              86400 * DayNumber(year + 1900, mon, mday) + hour * 3600 + min * 60 + sec == t
      ensures t >= 0 || t % 86400 == 0 <==> 0 <= hour < 24 && 0 <= min < 60 && 0 <= sec < 60
    {
      hide Leap;
      hide YearStart;
      hide MonthStart;
      hide CDiv;
      hide CRem;
      var days := CDiv(t, SECS_PER_DAY);
      var rem := CRem(t, SECS_PER_DAY);
      Split(t, SECS_PER_DAY);
      SplitDays(t);
      ComputeTm(days, rem, intMax);
    }
  }

  /** The calendar repeats every 400 years, which have 146097 days: 97 of them are leap years. */
  lemma FourCenturies(y: int)
    ensures YearStart(y + 400) == YearStart(y) + 146097 && YearLength(y + 400) == YearLength(y)
  {
    Onwards(y - 1, 4, 100);
    Onwards(y - 1, 100, 4);
    Onwards(y - 1, 400, 1);
    Onwards(y, 4, 100);
    Onwards(y, 100, 4);
    Onwards(y, 400, 1);
  }

  lemma Onwards(y: int, b: int, k: int)
    requires (b == 4 && k == 100) || (b == 100 && k == 4) || (b == 400 && k == 1)
    ensures (y + 400) / b == y / b + k && (y + 400) % b == y % b
  {
  }

  /** Thirty days have April, June, September and November. */
  lemma MonthLengths(y: int, m: int)
    requires 0 <= m < 12
    ensures MonthLength(y, m) ==
            if m == 1 then (if YearLength(y) == 366 then 29 else 28)
            else if m == 3 || m == 5 || m == 8 || m == 10 then 30 else 31
  {
    hide Leap;
    if m < 6 {
      if m == 0 {} else if m == 1 {} else if m == 2 {} else if m == 3 {} else if m == 4 {} else {}
    } else {
      if m == 6 {} else if m == 7 {} else if m == 8 {} else if m == 9 {} else if m == 10 {} else {}
    }
  }

  /** Some dates: Thursday January 1, 1970; 1900 had no February 29, 2000 had one. */
  lemma KnownDays()
    ensures DayNumber(1970, 0, 1) == 0 && (0 + 4) % 7 == 4
    ensures DayNumber(1969, 11, 31) == -1 && DayNumber(2000, 1, 29) == 11016 && DayNumber(2100, 2, 1) == 47541
    ensures DayNumber(1900, 2, 1) == -25508 && DayNumber(1900, 1, 28) == -25509
    ensures IsDate(2000, 1, 29) && !IsDate(1900, 1, 29) && !IsDate(2100, 1, 29) && IsDate(2096, 1, 29)
  {
  }

  /** One second before 1970 comes out as one second before midnight of day 0. */
  lemma SecondBefore1970()
    ensures CDiv(-1, 86400) == 0 && CRem(-1, 86400) == -1
    ensures CRem(CRem(-1, 86400), 3600) == -1 && CRem(-1, 60) == -1
  {
  }

  /** With an int of 16 bits, January 1 of 34668 is the first day to go wrong. */
  lemma FirstBadDay()
    ensures YearStart(32767 + 1901) == DayNumber(34668, 0, 1) == 11942699
  {
  }

  /** One more year wraps only where an unsigned int ends. */
  lemma WrapYear(y: int, intMax: nat)
    requires 0 < y <= 2 * intMax + 2
    ensures Wrap(y, intMax) == if y == 2 * intMax + 2 then 0 else y
  {
    if y < 2 * intMax + 2 { WrapSmall(y, intMax); }
  }

  lemma NotBelow(y: int, days0: int)
    requires 0 <= y && YearStart(0) <= days0 < YearStart(y)
    ensures 0 < y
  {
  }

  /** The year found is the right one, or the day is out of reach. */
  lemma WhichYear(y: int, days: int, days0: int, intMax: nat)
    requires 0 <= y < 2 * intMax + 2 && 0 <= days < YearLength(y) && 1970 <= intMax
    requires YearStart(y) + days == days0 || YearStart(2 * intMax + 2) <= days0
    ensures days0 < YearStart(intMax + 1901) <==> YearStart(y) + days == days0 && y <= intMax + 1900
  {
    hide YearStart;
    hide Leap;
    if YearStart(y) + days == days0 {
      if y <= intMax + 1900 {
        EarlierYear(y, intMax + 1900, days0);
      } else if intMax + 1901 < y {
        LaterYear(intMax + 1901, y);
      }
    } else if intMax + 1901 < 2 * intMax + 2 {
      LaterYear(intMax + 1901, 2 * intMax + 2);
    }
  }

  /** A day of a year is before the end of any year from that one on. */
  lemma EarlierYear(y: int, last: int, day: int)
    requires y <= last && day < YearStart(y) + YearLength(y)
    ensures day < YearStart(last + 1)
  {
    hide YearStart;
    hide Leap;
    YearStep(y);
    if y < last { LaterYear(y + 1, last + 1); }
  }
}
