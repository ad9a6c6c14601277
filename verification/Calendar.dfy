/** The civil calendar: an era-based day count, and the year-and-month walks that take a day
    number apart (src/tz.c, src/time.c).  Day 0 is 1970-01-01; months run from 0. */
module Calendar {
  import opened Common
  import opened Alignment

  predicate IsLeap(y: int) {
    y % 4 == 0 && (y % 100 != 0 || y % 400 == 0)
  }

  function YearLength(y: int): (r: int)
    ensures 365 <= r <= 366
  {
    if IsLeap(y) then 366 else 365
  }

  function MonthLength(y: int, m: int): (r: int)
    ensures 28 <= r <= 31
  {
    if m == 1 then if IsLeap(y) then 29 else 28
    else if m == 3 || m == 5 || m == 8 || m == 10 then 30
    else 31
  }

  // ----- the calendar, counted year by year and month by month -----

  /** The first day of year `y`. */
  function YearStart(y: int): int
    decreases if y >= 1970 then y - 1970 else 1970 - y
  {
    if y == 1970 then 0
    else if y > 1970 then YearStart(y - 1) + YearLength(y - 1)
    else YearStart(y + 1) - YearLength(y)
  }

  /** The days of year `y` before month `m`. */
  function MonthStart(y: int, m: nat): (r: nat)
    ensures 28 * m <= r <= 31 * m
  {
    if m == 0 then 0 else MonthStart(y, m - 1) + MonthLength(y, m - 1)
  }

  lemma YearStep(y: int)
    ensures YearStart(y + 1) == YearStart(y) + YearLength(y)
  {
  }

  lemma {:induction false} YearsApart(y: int, z: int)
    requires y <= z
    ensures YearStart(z) - YearStart(y) >= 365 * (z - y)
    decreases z - y
  {
    if y < z {
      YearsApart(y, z - 1);
      YearStep(z - 1);
    }
  }

  lemma MonthTable(y: int)
    ensures var leap := if IsLeap(y) then 1 else 0;
            && MonthStart(y, 1) == 31 && MonthStart(y, 2) == 59 + leap && MonthStart(y, 3) == 90 + leap
            && MonthStart(y, 4) == 120 + leap && MonthStart(y, 5) == 151 + leap && MonthStart(y, 6) == 181 + leap
            && MonthStart(y, 7) == 212 + leap && MonthStart(y, 8) == 243 + leap && MonthStart(y, 9) == 273 + leap
            && MonthStart(y, 10) == 304 + leap && MonthStart(y, 11) == 334 + leap && MonthStart(y, 12) == YearLength(y)
  {
    assert MonthStart(y, 0) == 0;
    assert MonthStart(y, 1) == 31;
    assert MonthStart(y, 2) == MonthStart(y, 1) + MonthLength(y, 1);
    assert MonthStart(y, 3) == MonthStart(y, 2) + 31;
    assert MonthStart(y, 4) == MonthStart(y, 3) + 30;
    assert MonthStart(y, 5) == MonthStart(y, 4) + 31;
    assert MonthStart(y, 6) == MonthStart(y, 5) + 30;
    assert MonthStart(y, 7) == MonthStart(y, 6) + 31;
    assert MonthStart(y, 8) == MonthStart(y, 7) + 31;
    assert MonthStart(y, 9) == MonthStart(y, 8) + 30;
    assert MonthStart(y, 10) == MonthStart(y, 9) + 31;
    assert MonthStart(y, 11) == MonthStart(y, 10) + 30;
    assert MonthStart(y, 12) == MonthStart(y, 11) + 31;
  }

  lemma {:induction false} MonthsApart(y: int, m: nat, k: nat)
    requires m <= k
    ensures MonthStart(y, m) <= MonthStart(y, k)
    decreases k
  {
    if m < k { MonthsApart(y, m, k - 1); }
  }

  // ----- the era formula -----

  /** Days to the first of March of year `y`, relative to an era boundary. */
  function MarchDays(y: int): int {
    var era := TruncDiv(if y >= 0 then y else y - 399, 400);
    var yoe := y - era * 400;
    era * 146097 + yoe * 365 + yoe / 4 - yoe / 100
  }

  /** `m` runs from 1 to 12 here. */
  function DaysFromCivil(y: int, m: int, d: int): int {
    var y' := if m <= 2 then y - 1 else y;
    var mp := (m + 9) % 12;
    MarchDays(y') + (153 * mp + 2) / 5 + d - 1 - 719468
  }

  lemma MarchAt(y: int, q: int, k: int)
    requires y == 400 * q + k && 0 <= k < 400
    ensures MarchDays(y) == q * 146097 + k * 365 + k / 4 - k / 100
  {
    assert TruncDiv(if y >= 0 then y else y - 399, 400) == q;
  }

  lemma LeapAt(y: int, q: int, k: int)
    requires y == 400 * q + k && 0 <= k < 400
    ensures IsLeap(y) <==> k % 4 == 0 && (k % 100 != 0 || k == 0)
  {
    DivUnique(y, 4, 100 * q + k / 4, k % 4);
    DivUnique(y, 100, 4 * q + k / 100, k % 100);
    DivUnique(y, 400, q, k);
  }

  lemma MarchStep(y: int)
    ensures MarchDays(y) - MarchDays(y - 1) == YearLength(y)
  {
    hide MarchDays, IsLeap;
    var q, k := y / 400, y % 400;
    MarchAt(y, q, k);
    LeapAt(y, q, k);
    if k == 0 {
      MarchAt(y - 1, q - 1, 399);
    } else {
      MarchAt(y - 1, q, k - 1);
      DivStep(k, 4);
      DivStep(k, 100);
    }
  }

  lemma DivStep(k: int, d: int)
    requires d == 4 || d == 100
    ensures k / d - (k - 1) / d == if k % d == 0 then 1 else 0
  {
  }

  /** January the first, both ways. */
  lemma {:induction false} EraYears(y: int)
    ensures MarchDays(y - 1) + 306 - 719468 == YearStart(y)
    decreases if y >= 1970 then y - 1970 else 1970 - y
  {
    hide MarchDays;
    if y > 1970 {
      EraYears(y - 1);
      MarchStep(y - 1);
    } else if y < 1970 {
      EraYears(y + 1);
      MarchStep(y);
    } else {
      MarchOf1969();
    }
  }

  lemma MarchOf1969()
    ensures MarchDays(1969) == 719162
  {
  }

  lemma MarchMonths(y: int, m: nat)
    requires m < 12
    ensures m >= 2 ==> MonthStart(y, m) == (153 * (m - 2) + 2) / 5 + (if IsLeap(y) then 60 else 59)
    ensures m < 2 ==> MonthStart(y, m) == (153 * (m + 10) + 2) / 5 - 306
  {
    MonthTable(y);
  }

  /** The era formula counts the days that walking year by year and month by month counts,
      for every year and every day of every month. */
  lemma EraFormula(y: int, m: nat, d: int)
    requires m < 12
    ensures DaysFromCivil(y, m + 1, d) == YearStart(y) + MonthStart(y, m) + d - 1
  {
    hide MarchDays, YearStart;
    EraYears(y);
    MarchMonths(y, m);
    hide MonthStart;
    if m >= 2 {
      MarchStep(y);
      assert (m + 1 + 9) % 12 == m - 2;
    } else {
      assert (m + 1 + 9) % 12 == m + 10;
    }
  }

  // ----- the walks -----

  /** The year that holds day `days`. */
  ghost predicate InYear(y: int, days: int) {
    YearStart(y) <= days < YearStart(y + 1)
  }

  lemma YearUnique(y: int, z: int, days: int)
    requires InYear(y, days) && InYear(z, days)
    ensures y == z
  {
    if y < z { YearsApart(y + 1, z); }
    if z < y { YearsApart(z + 1, y); }
  }

  method YearOfDays(days: int) returns (y: int)
    ensures InYear(y, days)
  {
    hide YearStart, DaysFromCivil;
    y := 1970 + TruncDiv(days, 365);
    EraFormula(y + 1, 0, 1);
    while DaysFromCivil(y + 1, 1, 1) <= days
      invariant DaysFromCivil(y + 1, 1, 1) == YearStart(y + 1)
      decreases days - YearStart(y + 1)
    {
      YearStep(y + 1);
      EraFormula(y + 2, 0, 1);
      y := y + 1;
    }
    EraFormula(y, 0, 1);
    while DaysFromCivil(y, 1, 1) > days
      invariant DaysFromCivil(y, 1, 1) == YearStart(y) && days < YearStart(y + 1)
      decreases YearStart(y) - days
    {
      YearStep(y - 1);
      EraFormula(y - 1, 0, 1);
      y := y - 1;
    }
  }

  /** Year and day of the year, by subtracting whole years from 1970 on. */
  method WalkYears(day: int) returns (y: int, yday: nat)
    ensures InYear(y, day) && yday == day - YearStart(y)
  {
    var days := day;
    if days >= 0 {
      y := 1970;
      while days >= YearLength(y)
        invariant days >= 0 && day == YearStart(y) + days
      {
        days := days - YearLength(y);
        y := y + 1;
        YearStep(y - 1);
      }
      YearStep(y);
    } else {
      y := 1969;
      days := days + YearLength(y);
      YearStep(y);
      while days < 0
        invariant days < YearLength(y) && day == YearStart(y) + days
      {
        y := y - 1;
        days := days + YearLength(y);
        YearStep(y);
      }
      YearStep(y);
    }
    yday := days;
  }

  /** Month and day of the month, by subtracting whole months. */
  method WalkMonths(y: int, yday: nat) returns (m: nat, mday: int)
    requires yday < YearLength(y)
    ensures m < 12 && 1 <= mday <= MonthLength(y, m) && yday == MonthStart(y, m) + mday - 1
  {
    var days := yday;
    m := 0;
    MonthTable(y);
    while m < 12 && days >= MonthLength(y, m)
      invariant m <= 12 && 0 <= days && yday == MonthStart(y, m) + days
    {
      days := days - MonthLength(y, m);
      m := m + 1;
    }
    mday := days + 1;
  }

  // ----- transition rules -----

  function Weekday(day: int): (r: int)
    ensures 0 <= r < 7
  {
    (day + 4) % 7
  }

  /** Day 0 was a Thursday, and the days of the week follow each other. */
  lemma WeekdaysFollow(day: int)
    ensures Weekday(0) == 4
    ensures Weekday(day + 1) == if Weekday(day) == 6 then 0 else Weekday(day) + 1
  {
  }

  /** Days whose numbers are known: the epoch, the day behind the leap day of 2000, a leap day, the first
      of March of 1900, which was no leap year, and the first day of year 1. */
  lemma KnownDays()
    ensures YearStart(1970) == 0 && YearStart(2000) + MonthStart(2000, 2) == 11017
    ensures YearStart(2024) + MonthStart(2024, 1) + 28 == 19782
    ensures YearStart(1900) + MonthStart(1900, 2) == -25508 && YearStart(1) + MonthStart(1, 0) == -719162
  {
    hide YearStart, MonthStart, DaysFromCivil;
    Epoch();
    EraFormula(2000, 2, 1);
    EraFormula(2024, 1, 29);
    EraFormula(1900, 2, 1);
    EraFormula(1, 0, 1);
    KnownCounts();
  }

  lemma Epoch()
    ensures YearStart(1970) == 0
  {
  }

  lemma KnownCounts()
    ensures DaysFromCivil(2000, 3, 1) == 11017 && DaysFromCivil(2024, 2, 29) == 19782
    ensures DaysFromCivil(1900, 3, 1) == -25508 && DaysFromCivil(1, 1, 1) == -719162
  {
  }

  /** 400 years are 146097 days. */
  lemma YearsRepeat(y: int)
    ensures YearStart(y + 400) == YearStart(y) + 146097
  {
    hide YearStart, MarchDays;
    EraFormula(y, 0, 1);
    EraFormula(y + 400, 0, 1);
    FirstMonth(y);
    FirstMonth(y + 400);
    EraRepeats(y - 1);
  }

  lemma FirstMonth(y: int)
    ensures MonthStart(y, 0) == 0
  {
  }

  lemma EraRepeats(y: int)
    ensures MarchDays(y + 400) == MarchDays(y) + 146097
  {
    hide MarchDays;
    var q, k := y / 400, y % 400;
    MarchAt(y, q, k);
    MarchAt(y + 400, q + 1, k);
  }

  function Clamp(x: int, lo: int, hi: int): (r: int)
    requires lo <= hi
    ensures lo <= r <= hi && (lo <= x <= hi ==> r == x)
  {
    if x < lo then lo else if x > hi then hi else x
  }

  /** `doy` is the w-th day of the week `d` in month `m`, the last one for w = 5. */
  ghost predicate IsNthWeekday(y: int, m: nat, w: int, d: int, doy: int) {
    var first, len := MonthStart(y, m), MonthLength(y, m);
    && first <= doy < first + len
    && Weekday(YearStart(y) + doy) == d
    && (w < 5 ==> 7 * (w - 1) <= doy - first < 7 * w)
    && (w == 5 ==> doy + 7 >= first + len)
  }

  /** The day on which Mm.w.d falls; months run from 1 in a rule. */
  method MonthRule(y: int, rm: int, rw: int, rd: int) returns (doy: int)
    ensures IsNthWeekday(y, Clamp(rm, 1, 12) - 1, Clamp(rw, 1, 5), Clamp(rd, 0, 6), doy)
  {
    var m, w, d := Clamp(rm, 1, 12), Clamp(rw, 1, 5), Clamp(rd, 0, 6);
    var first := SumMonths(y, m - 1);
    EraFormula(y, 0, 1);
    hide *;
    var wd := Weekday(DaysFromCivil(y, 1, 1) + first);
    doy := first + (d - wd + 7) % 7 + (w - 1) * 7;
    WeekdayAhead(YearStart(y) + first, d, w - 1);
    doy := LastInMonth(y, m - 1, w, d, first, doy);
  }

  /** Weeks are stepped back until the day lies in the month. */
  method LastInMonth(y: int, m: nat, w: int, d: int, first: nat, from: int) returns (doy: int)
    requires first == MonthStart(y, m) && 1 <= w <= 5 && Weekday(YearStart(y) + from) == d
    requires first + 7 * (w - 1) <= from < first + 7 * w
    ensures IsNthWeekday(y, m, w, d, doy)
  {
    hide YearStart, Weekday, MonthStart, MonthLength;
    doy := from;
    while doy >= first + MonthLength(y, m)
      invariant first <= doy && Weekday(YearStart(y) + doy) == d
      invariant w < 5 ==> 7 * (w - 1) <= doy - first < 7 * w
      invariant w == 5 ==> doy + 7 >= first + MonthLength(y, m)
      decreases doy
    {
      WeekBack(YearStart(y) + doy);
      doy := doy - 7;
    }
  }

  lemma WeekBack(day: int)
    ensures Weekday(day - 7) == Weekday(day)
  {
  }

  lemma WeekdayAhead(day: int, d: int, weeks: int)
    requires 0 <= d < 7
    ensures Weekday(day + (d - Weekday(day) + 7) % 7 + weeks * 7) == d
    ensures 0 <= (d - Weekday(day) + 7) % 7 < 7
  {
  }

  method SumMonths(y: int, n: nat) returns (sum: nat)
    requires n <= 12
    ensures sum == MonthStart(y, n)
  {
    sum := 0;
    for i := 0 to n
      invariant sum == MonthStart(y, i)
    {
      sum := sum + MonthLength(y, i);
    }
  }

  lemma JulianDays(y: int, m: nat, n: int, dd: int)
    requires m <= 11 && n == MonthStart(1, m) + dd && 1 <= dd <= MonthLength(1, m)
    ensures MonthStart(y, m) + dd == if IsLeap(y) && n >= 60 then n + 1 else n
  {
    MonthTable(y);
    MonthTable(1);
    hide MonthStart;
  }

  /** Jn: the n-th day of a year without February 29, so in a leap year one day later from
      March on. */
  method JulianRule(y: int, rn: int) returns (doy: int)
    ensures doy == Clamp(rn, 1, 365) - (if IsLeap(y) && Clamp(rn, 1, 365) >= 60 then 0 else 1)
  {
    var n := Clamp(rn, 1, 365);
    var m, dd := 0, n;
    while m < 11 && dd > MonthLength(1, m)
      invariant 0 <= m <= 11 && n == MonthStart(1, m) + dd && dd >= 1
    {
      dd := dd - MonthLength(1, m);
      m := m + 1;
    }
    var sum := SumMonths(y, m);
    doy := sum + dd - 1;
    JulianDays(y, m, n, dd);
  }
}
