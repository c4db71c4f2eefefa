/** `time_to_tm` of compat-wireless/compat/compat-2.6.32.c against the proleptic Gregorian calendar,
    which is defined here by nothing but the lengths of years and months. */
module Calendar {
  import opened Words

  // ----- the calendar -----

  predicate IsLeap(y: int) {
    y % 4 == 0 && (y % 100 != 0 || y % 400 == 0)
  }

  function YearLength(y: int): int {
    if IsLeap(y) then 366 else 365
  }

  /** Days from 1 January 1970 to 1 January of year `y`, counted year by year. */
  function YearStart(y: int): int
    decreases if y >= 1970 then y - 1970 else 1970 - y
  {
    if y == 1970 then 0
    else if y > 1970 then YearStart(y - 1) + YearLength(y - 1)
    else YearStart(y + 1) - YearLength(y)
  }

  /** Months are numbered from 0. */
  function MonthLength(y: int, m: nat): nat
    requires m < 12
  {
    if m == 1 then (if IsLeap(y) then 29 else 28)
    else if m == 3 || m == 5 || m == 8 || m == 10 then 30
    else 31
  }

  function MonthStart(y: int, m: nat): nat
    requires m <= 12
  {
    if m == 0 then 0 else MonthStart(y, m - 1) + MonthLength(y, m - 1)
  }

  /** Broken-down time; `year` counts from 1900. */
  datatype Tm = Tm(sec: int, min: int, hour: int, mday: int, mon: int, year: int, wday: int, yday: int)

  /** Days since 1 January 1970 of the date in `t`. */
  function DayNumber(t: Tm): int
    requires 0 <= t.mon < 12
  {
    YearStart(t.year + 1900) + MonthStart(t.year + 1900, t.mon) + t.mday - 1
  }

  /** Seconds since the start of 1970 that `t` denotes. */
  function Seconds(t: Tm): int
    requires 0 <= t.mon < 12
  {
    DayNumber(t) * 86400 + t.hour * 3600 + t.min * 60 + t.sec
  }

  /** All fields in range, the day of the year in agreement with month and day, and the day of the
      week counted from Thursday, 1 January 1970. */
  predicate Valid(t: Tm) {
    && 0 <= t.sec < 60 && 0 <= t.min < 60 && 0 <= t.hour < 24
    && 0 <= t.mon < 12 && 1 <= t.mday <= MonthLength(t.year + 1900, t.mon)
    && t.yday == MonthStart(t.year + 1900, t.mon) + t.mday - 1
    && t.wday == (4 + DayNumber(t)) % 7
  }

  // ----- the source's arithmetic -----

  function MathDiv(a: int, b: int): int
    requires b > 0
  {
    CDiv(a, b) - (if CMod(a, b) < 0 then 1 else 0)
  }

  function LeapsBetween(y1: int, y2: int): int {
    var leaps1 := MathDiv(y1 - 1, 4) - MathDiv(y1 - 1, 100) + MathDiv(y1 - 1, 400);
    var leaps2 := MathDiv(y2 - 1, 4) - MathDiv(y2 - 1, 100) + MathDiv(y2 - 1, 400);
    leaps2 - leaps1
  }

  const MON_YDAY: seq<seq<int>> := [
    [0, 31, 59, 90, 120, 151, 181, 212, 243, 273, 304, 334, 365],
    [0, 31, 60, 91, 121, 152, 182, 213, 244, 274, 305, 335, 366]
  ]

  // ----- leap years -----

  /** Leap days before year `y`, up to a constant. */
  function Leaps(y: int): int {
    (y - 1) / 4 - (y - 1) / 100 + (y - 1) / 400
  }

  lemma LeapsStep(y: int)
    ensures Leaps(y + 1) - Leaps(y) == YearLength(y) - 365
  {
    assert y / 4 - (y - 1) / 4 == if y % 4 == 0 then 1 else 0;
    assert y / 100 - (y - 1) / 100 == if y % 100 == 0 then 1 else 0;
    assert y / 400 - (y - 1) / 400 == if y % 400 == 0 then 1 else 0;
    assert y % 400 == 0 ==> y % 100 == 0;
    assert y % 100 == 0 ==> y % 4 == 0;
  }

  lemma {:induction false} YearStartFormula(y: int)
    ensures YearStart(y) == 365 * (y - 1970) + Leaps(y) - Leaps(1970)
    decreases if y >= 1970 then y - 1970 else 1970 - y
  {
    if y > 1970 {
      YearStartFormula(y - 1);
      LeapsStep(y - 1);
    } else if y < 1970 {
      YearStartFormula(y + 1);
      LeapsStep(y);
    }
  }

  lemma MathDivIsFloor(a: int)
    ensures MathDiv(a, 4) == a / 4 && MathDiv(a, 100) == a / 100 && MathDiv(a, 400) == a / 400
    ensures MathDiv(a, 365) == a / 365
  {}

  /** `leaps_between` counts the days by which the years from one to the other exceed 365 each, in
      either direction, although its comment only promises it upwards. */
  lemma LeapsBetweenIsExcess(y1: int, y2: int)
    ensures LeapsBetween(y1, y2) == YearStart(y2) - YearStart(y1) - 365 * (y2 - y1)
  {
    MathDivIsFloor(y1 - 1);
    MathDivIsFloor(y2 - 1);
    YearStartFormula(y1);
    YearStartFormula(y2);
  }

  lemma LeapsStepBounded(y: int)
    ensures 0 <= Leaps(y + 1) - Leaps(y) <= y / 4 - (y - 1) / 4
  {
    LeapsStep(y);
    assert y / 4 - (y - 1) / 4 == if y % 4 == 0 then 1 else 0;
  }

  /** At most every fourth year is a leap year. */
  lemma {:induction false} LeapsBounded(y: int, q: nat)
    ensures 0 <= Leaps(y + q) - Leaps(y) <= (y + q - 1) / 4 - (y - 1) / 4
  {
    if q == 0 {
    } else {
      LeapsBounded(y, q - 1);
      LeapsStepBounded(y + q - 1);
    }
  }

  lemma Fourths(y: int, q: nat)
    ensures 0 <= Leaps(y + q) - Leaps(y) <= (q + 3) / 4
  {
    LeapsBounded(y, q);
    var n := y - 1;
    assert (n + q) / 4 - n / 4 <= (q + 3) / 4;
  }

  // ----- the year loop -----

  predicate InYear(y: int, days: int) {
    0 <= days < YearLength(y)
  }

  /** What one more guess may cost: nothing once the year is found, else the distance in days. */
  function Measure(y: int, days: int): nat {
    if InYear(y, days) then 0 else if days < 0 then -days else days
  }

  /** Guessing `q` years ahead leaves a day of the year, or goes back by less than a quarter day
      for each of the `q` years. */
  lemma GuessAhead(y: int, days: int)
    requires days >= YearLength(y)
    ensures Measure(y + days / 365, days % 365 - (Leaps(y + days / 365) - Leaps(y))) < days
  {}

  lemma GuessBack(y: int, days: int)
    requires days < 0
    ensures Measure(y + days / 365, days % 365 - (Leaps(y + days / 365) - Leaps(y))) < -days
  {
    var q, r := days / 365, days % 365;
    Fourths(y + q, -q);
    assert days == 365 * q + r && q <= -1;
    if q == -1 {
      LeapsStep(y - 1);
      assert InYear(y - 1, r + (Leaps(y) - Leaps(y - 1)));
    }
  }

  /** Every guess that does not find the year comes closer to it. */
  lemma GuessDecreases(y: int, days: int)
    requires !InYear(y, days)
    ensures var yg := y + days / 365;
            Measure(yg, YearStart(y) + days - YearStart(yg)) < Measure(y, days)
  {
    var q := days / 365;
    assert YearStart(y) + days - YearStart(y + q) == days % 365 - (Leaps(y + q) - Leaps(y)) by {
      YearStartFormula(y);
      YearStartFormula(y + q);
    }
    if days >= 0 {
      GuessAhead(y, days);
    } else {
      GuessBack(y, days);
    }
  }

  /** One round of the loop keeps the day it is looking for and makes progress. */
  method Guess(y: int, days: int) returns (yg: int, left: int)
    requires !InYear(y, days)
    ensures YearStart(yg) + left == YearStart(y) + days
    ensures Measure(yg, left) < Measure(y, days)
  {
    var q := MathDiv(days, 365);
    assert q == days / 365 by { MathDivIsFloor(days); }
    yg := y + q;
    var leaps := LeapsBetween(y, yg);
    assert leaps == YearStart(yg) - YearStart(y) - 365 * q by { LeapsBetweenIsExcess(y, yg); }
    left := days - ((yg - y) * 365 + leaps);
    GuessDecreases(y, days);
  }

  /** The loop that finds the year. It may overshoot on either side and come back. */
  method FindYear(start: int) returns (y: int, days: int)
    ensures InYear(y, days) && YearStart(y) + days == start
  {
    y, days := 1970, start;
    while days < 0 || days >= (if IsLeap(y) then 366 else 365)
      invariant YearStart(y) + days == start
      decreases Measure(y, days)
    {
      y, days := Guess(y, days);
    }
  }

  // ----- months -----

  lemma MonthTable(y: int, m: nat)
    requires m <= 12
    ensures |MON_YDAY| == 2 && |MON_YDAY[0]| == |MON_YDAY[1]| == 13
    ensures MON_YDAY[if IsLeap(y) then 1 else 0][m] == MonthStart(y, m)
  {}

  /** The loop that finds the month. */
  method FindMonth(y: int, yday: int) returns (mon: nat, day: int)
    requires InYear(y, yday)
    ensures mon < 12 && MonthStart(y, mon) + day == yday && 0 <= day < MonthLength(y, mon)
  {
    var leap := if IsLeap(y) then 1 else 0;
    mon := 11;
    MonthTable(y, 12);
    MonthTable(y, 11);
    while yday < MON_YDAY[leap][mon]
      invariant mon < 12
      invariant MON_YDAY[leap][mon] == MonthStart(y, mon) && yday < MonthStart(y, mon + 1)
    {
      MonthTable(y, 0);
      mon := mon - 1;
      MonthTable(y, mon);
    }
    day := yday - MON_YDAY[leap][mon];
  }

  /** `time_to_tm`. Rebuilding the seconds from the fields gives back the sum of the arguments. */
  method TimeToTm(totalsecs: int, offset: int) returns (t: Tm)
    ensures Valid(t) && Seconds(t) == totalsecs + offset
  {
    var days, rem := CDiv(totalsecs, 86400), CMod(totalsecs, 86400);
    rem := rem + offset;
    while rem < 0
      invariant days * 86400 + rem == totalsecs + offset
    {
      rem := rem + 86400;
      days := days - 1;
    }
    while rem >= 86400
      invariant days * 86400 + rem == totalsecs + offset && rem >= 0
    {
      rem := rem - 86400;
      days := days + 1;
    }
    var hour := rem / 3600;
    var minutes := rem % 3600;
    var wday := CMod(4 + days, 7);
    if wday < 0 {
      wday := wday + 7;
    }
    var y, yday := FindYear(days);
    var mon, day := FindMonth(y, yday);
    t := Tm(minutes % 60, minutes / 60, hour, day + 1, mon, y - 1900, wday, yday);
  }

  // ----- the fields are the only ones -----

  lemma {:induction false} YearStartIncreases(y: int, z: int)
    requires y < z
    ensures YearStart(y) + YearLength(y) <= YearStart(z)
    decreases z - y
  {
    if z == y + 1 {
      YearStartFormula(y);
      YearStartFormula(z);
      LeapsStep(y);
    } else {
      YearStartIncreases(y, z - 1);
      YearStartIncreases(z - 1, z);
    }
  }

  lemma {:induction false} MonthStartIncreases(y: int, m: nat, n: nat)
    requires m < n <= 12
    ensures MonthStart(y, m) + MonthLength(y, m) <= MonthStart(y, n)
  {
    if m == n - 1 {
    } else {
      MonthStartIncreases(y, m, n - 1);
    }
  }

  /** Two valid broken-down times that denote the same second are the same, so `time_to_tm` is the
      inverse of `Seconds` and nothing else is. */
  lemma Unique(a: Tm, b: Tm)
    requires Valid(a) && Valid(b) && Seconds(a) == Seconds(b)
    ensures a == b
  {
    assert DayNumber(a) == DayNumber(b);
    SameYear(a, b);
    SameYear(b, a);
    if a.mon < b.mon {
      MonthStartIncreases(a.year + 1900, a.mon, b.mon);
    } else if b.mon < a.mon {
      MonthStartIncreases(a.year + 1900, b.mon, a.mon);
    }
  }

  lemma SameYear(a: Tm, b: Tm)
    requires Valid(a) && Valid(b) && DayNumber(a) == DayNumber(b)
    ensures a.year >= b.year
  {
    if a.year < b.year {
      YearStartIncreases(a.year + 1900, b.year + 1900);
      YearEnd(a.year + 1900, a.mon);
    }
  }

  lemma YearEnd(y: int, m: nat)
    requires m < 12
    ensures MonthStart(y, m) + MonthLength(y, m) <= YearLength(y)
  {}

  /** The other half of the round trip: converting the seconds of a valid broken-down time, from
      whatever time zone, gives that time back. */
  method ThereAndBack(t: Tm, offset: int) returns (back: Tm)
    requires Valid(t)
    ensures back == t
  {
    back := TimeToTm(Seconds(t) - offset, offset);
    Unique(t, back);
  }
}
