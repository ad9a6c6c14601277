/** Broken-down time and back again in a zone with daylight saving rules (src/time.c,
    src/tz.c).  Whether daylight saving is in force at an instant is any predicate. */
module LocalTime {
  import opened Common
  import opened Calendar

  /** The fields of a struct tm. */
  datatype Fields =
    Fields(sec: int, min: int, hour: int, mday: int, mon: int, year: int, wday: int, yday: int, isdst: int) {
    function Year(): int { year + 1900 }
  }

  /** Offsets are in seconds east of UTC. */
  datatype Zone = Zone(std: int, dst: int, hasDst: bool, active: int -> bool)

  /** The offset in force at an instant, and tm_isdst. */
  function Offset(z: Zone, t: int): (int, int) {
    if z.hasDst && z.active(t) then (z.dst, 1) else (z.std, 0)
  }

  /** The date fields name a day that exists and the time fields are in range. */
  ghost predicate InRange(f: Fields) {
    && 0 <= f.sec < 60 && 0 <= f.min < 60 && 0 <= f.hour < 24
    && 0 <= f.mon < 12 && 1 <= f.mday <= MonthLength(f.Year(), f.mon)
  }

  ghost function DayOf(f: Fields): int
    requires f.mon >= 0
  {
    YearStart(f.Year()) + MonthStart(f.Year(), f.mon) + f.mday - 1
  }

  ghost function SecondsOf(f: Fields): int
    requires f.mon >= 0
  {
    DayOf(f) * 86400 + f.hour * 3600 + f.min * 60 + f.sec
  }

  /** `f` is how the calendar names second `s`, the day of the week and of the year included. */
  ghost predicate Names(f: Fields, s: int) {
    && InRange(f)
    && s == SecondsOf(f)
    && f.wday == Weekday(DayOf(f))
    && f.yday == MonthStart(f.Year(), f.mon) + f.mday - 1
  }

  /** The name of a second, from the number of its day. */
  lemma NameOfDay(f: Fields, day: int, s: int)
    requires InRange(f) && day == DayOf(f) && s == day * 86400 + f.hour * 3600 + f.min * 60 + f.sec
    requires f.wday == Weekday(day) && f.yday == MonthStart(f.Year(), f.mon) + f.mday - 1
    ensures Names(f, s)
  {
  }

  /** The first of January 1970 is day 0. */
  lemma FirstDay(f: Fields)
    requires f.year == 70 && f.mon == 0 && f.mday == 1 && f.wday == 4 && f.yday == 0
    requires f.min == f.sec == 0 && 0 <= f.hour < 24
    ensures Names(f, f.hour * 3600)
  {
    hide YearStart, MonthStart, Weekday;
    Epoch();
    FirstMonth(f.Year());
    WeekdaysFollow(0);
    NameOfDay(f, 0, f.hour * 3600);
  }

  lemma LastDay1969(f: Fields)
    requires f == Fields(59, 59, 23, 31, 11, 69, 3, 364, f.isdst)
    ensures Names(f, -1)
  {
    hide YearStart, MonthStart;
    Epoch();
    YearStep(1969);
    MonthTable(f.Year());
    NameOfDay(f, -1, -1);
  }

  /** Second 0 is Thursday, 1 January 1970, and the one before it belongs to 1969. */
  lemma KnownSeconds()
    ensures Names(Fields(0, 0, 0, 1, 0, 70, 4, 0, 0), 0)
    ensures Names(Fields(59, 59, 23, 31, 11, 69, 3, 364, 0), -1)
  {
    hide Names;
    FirstDay(Fields(0, 0, 0, 1, 0, 70, 4, 0, 0));
    LastDay1969(Fields(59, 59, 23, 31, 11, 69, 3, 364, 0));
  }

  /** Noon of the leap day of 2000, a Tuesday. */
  lemma KnownLeapDay()
    ensures Names(Fields(0, 0, 12, 29, 1, 100, 2, 59, 0), 951825600)
  {
    hide YearStart, MonthStart;
    KnownDays();
    MonthTable(2000);
    NameOfDay(Fields(0, 0, 12, 29, 1, 100, 2, 59, 0), 11016, 951825600);
  }

  /** East of Greenwich the clock is ahead: at second 0 it shows one o'clock in a zone at +1 hour, and two
      o'clock with daylight saving of another hour. */
  lemma EastIsAhead(z: Zone)
    requires z.std == 3600 && z.dst == 7200 && z.hasDst
    ensures !z.active(0) ==> Names(Fields(0, 0, 1, 1, 0, 70, 4, 0, 0), 0 + Offset(z, 0).0) && Offset(z, 0).1 == 0
    ensures z.active(0) ==> Names(Fields(0, 0, 2, 1, 0, 70, 4, 0, 1), 0 + Offset(z, 0).0) && Offset(z, 0).1 == 1
  {
    hide Names;
    FirstDay(Fields(0, 0, 1, 1, 0, 70, 4, 0, 0));
    FirstDay(Fields(0, 0, 2, 1, 0, 70, 4, 0, 1));
  }

  /** A second has one name. */
  lemma NameUnique(f: Fields, g: Fields, s: int)
    requires Names(f, s) && Names(g, s)
    ensures f == g.(isdst := f.isdst)
  {
    hide YearStart, MonthStart, MonthLength, Weekday;
    SameDay(DayOf(f), f.hour, f.min, f.sec, DayOf(g), g.hour, g.min, g.sec);
    YearHolds(f);
    YearHolds(g);
    YearUnique(f.Year(), g.Year(), DayOf(f));
    SameMonth(f.Year(), f.mon, f.mday, g.mon, g.mday);
  }

  lemma SameMonth(y: int, m: nat, d: int, m': nat, d': int)
    requires 1 <= d <= MonthLength(y, m) && 1 <= d' <= MonthLength(y, m')
    requires MonthStart(y, m) + d == MonthStart(y, m') + d'
    ensures m == m'
  {
    hide MonthStart;
    MonthNext(y, m);
    MonthNext(y, m');
    if m < m' { MonthsApart(y, m + 1, m'); }
    if m' < m { MonthsApart(y, m' + 1, m); }
  }

  lemma MonthNext(y: int, m: nat)
    ensures MonthStart(y, m + 1) == MonthStart(y, m) + MonthLength(y, m)
  {
  }

  lemma SameDay(d: int, h: int, m: int, s: int, d': int, h': int, m': int, s': int)
    requires 0 <= h < 24 && 0 <= m < 60 && 0 <= s < 60 && 0 <= h' < 24 && 0 <= m' < 60 && 0 <= s' < 60
    requires d * 86400 + h * 3600 + m * 60 + s == d' * 86400 + h' * 3600 + m' * 60 + s'
    ensures d == d' && h == h' && m == m' && s == s'
  {
  }

  lemma YearHolds(f: Fields)
    requires InRange(f)
    ensures InYear(f.Year(), DayOf(f))
  {
    hide YearStart, MonthStart;
    YearStep(f.Year());
    MonthNext(f.Year(), f.mon);
    MonthsApart(f.Year(), f.mon + 1, 12);
    MonthTable(f.Year());
  }

  // ----- from local fields to an instant -----

  function CivilSeconds(f: Fields): int {
    DaysFromCivil(f.Year(), f.mon + 1, f.mday) * 86400 + f.hour * 3600 + f.min * 60 + f.sec
  }

  lemma CivilSecondsCount(f: Fields)
    requires 0 <= f.mon < 12
    ensures CivilSeconds(f) == SecondsOf(f)
  {
    hide DaysFromCivil;
    EraFormula(f.Year(), f.mon, f.mday);
  }

  /** The local clock shows `u` at instant `t`. */
  predicate Shows(z: Zone, t: int, u: int) {
    t + Offset(z, t).0 == u
  }

  /** The instant for a local reading `u`: as tm_isdst says, or settled by trying. */
  function InstantFor(z: Zone, u: int, isdst: int): int {
    if !z.hasDst || isdst == 0 then u - z.std
    else if isdst > 0 then u - z.dst
    else if Shows(z, u - z.std, u) then u - z.std
    else u - z.dst
  }

  /** With tm_isdst unknown the instant found shows the local time exactly when some instant
      does. */
  lemma SettlesWhenPossible(z: Zone, u: int, isdst: int)
    requires z.hasDst && isdst < 0
    ensures Shows(z, InstantFor(z, u, isdst), u) <==> exists t :: Shows(z, t, u)
  {
    if t :| Shows(z, t, u) {
      assert t == u - z.std || t == u - z.dst;
    }
  }

  /** What mktime returns and leaves in the struct. */
  function MakeTime(z: Zone, f: Fields): (int, Fields) {
    if f.mon < 0 || f.mon > 11 || f.mday < 1 || f.mday > 31 || f.Year() < 1 then (-1, f)
    else
      var t := InstantFor(z, CivilSeconds(f), f.isdst);
      var days := DaysFromCivil(f.Year(), f.mon + 1, f.mday);
      (t, f.(wday := Weekday(days), yday := days - DaysFromCivil(f.Year(), 1, 1), isdst := Offset(z, t).1))
  }

  /** A month outside 0 to 11, a day outside 1 to 31 and a year before 1 are refused with -1, and nothing
      changes; any other date has the instant of its day and time, less the offset it is taken at. */
  lemma MktimeTakes(z: Zone, f: Fields)
    ensures f.mon < 0 || f.mon >= 12 || f.mday <= 0 || f.mday >= 32 || f.year <= -1900 ==> MakeTime(z, f) == (-1, f)
    ensures 0 <= f.mon <= 11 && 1 <= f.mday <= 31 && f.year > -1900 ==>
              var t := MakeTime(z, f).0; SecondsOf(f) - t == z.std || (z.hasDst && SecondsOf(f) - t == z.dst)
  {
    hide DaysFromCivil, YearStart, MonthStart;
    if 0 <= f.mon <= 11 { CivilSecondsCount(f); }
  }

  /** mktime undoes localtime and changes no field, for every instant whose local year is 1 or
      later and for no other (but for the instant -1, which is also the error value). */
  lemma MktimeInvertsLocaltime(z: Zone, t: int, f: Fields)
    requires Names(f, t + Offset(z, t).0) && f.isdst == Offset(z, t).1
    ensures MakeTime(z, f) == (t, f) <==> f.Year() >= 1 || t == -1
  {
    hide DaysFromCivil, YearStart, MonthStart;
    CivilSecondsCount(f);
    EraFormula(f.Year(), f.mon, f.mday);
    EraFormula(f.Year(), 0, 1);
    FirstMonth(f.Year());
    YearHolds(f);
  }

  /** On every date that mktime takes, localtime undoes it exactly when the fields name a second that
      exists and the instant shows it; with tm_isdst unknown, exactly when any instant shows it. */
  lemma LocaltimeInvertsMktime(z: Zone, f: Fields)
    requires 0 <= f.mon < 12 && 1 <= f.mday <= 31 && f.Year() >= 1
    ensures var (t, g) := MakeTime(z, f);
            && g == f.(wday := g.wday, yday := g.yday, isdst := Offset(z, t).1)
            && (Names(g, t + Offset(z, t).0) <==> InRange(f) && Shows(z, t, SecondsOf(f)))
            && (z.hasDst && f.isdst < 0 ==>
                  (Names(g, t + Offset(z, t).0) <==> InRange(f) && exists t' :: Shows(z, t', SecondsOf(f))))
  {
    hide DaysFromCivil, YearStart, MonthStart;
    CivilSecondsCount(f);
    EraFormula(f.Year(), f.mon, f.mday);
    EraFormula(f.Year(), 0, 1);
    FirstMonth(f.Year());
    if z.hasDst && f.isdst < 0 { SettlesWhenPossible(z, SecondsOf(f), f.isdst); }
  }

  /** The thirtieth of February gives the instant of the first or second of March, and stays in the
      fields. */
  lemma FebruaryThirty(z: Zone, f: Fields)
    requires f.mon == 1 && f.mday == 30 && f.Year() >= 1
    ensures var march := f.(mon := 2, mday := if IsLeap(f.Year()) then 1 else 2);
            && MakeTime(z, f).0 == MakeTime(z, march).0
            && MakeTime(z, f).1.mon == 1 && MakeTime(z, f).1.mday == 30 && !InRange(MakeTime(z, f).1)
  {
    hide DaysFromCivil, YearStart, MonthStart;
    var d := if IsLeap(f.Year()) then 1 else 2;
    EraFormula(f.Year(), 1, 30);
    EraFormula(f.Year(), 2, d);
    MonthTable(f.Year());
  }

  // ----- the library's functions -----

  class Tm {
    var sec: int
    var min: int
    var hour: int
    var mday: int
    var mon: int
    var year: int
    var wday: int
    var yday: int
    var isdst: int

    function View(): Fields
      reads this
    {
      Fields(sec, min, hour, mday, mon, year, wday, yday, isdst)
    }

    /** gmtime_r. */
    method FillGmtime(t: int)
      modifies this
      ensures Names(View(), t) && isdst == 0
    {
      var days, rem := FloorDay(t);
      ghost var day := days;
      sec := rem % 60;
      rem := rem / 60;
      min := rem % 60;
      hour := rem / 60;
      wday := Weekday(days);
      var y, yd := WalkYears(days);
      YearStep(y);
      year := y - 1900;
      yday := yd;
      mon, mday := WalkMonths(y, yd);
      isdst := 0;
    }

    /** localtime_r in zone `z`. */
    method LocaltimeR(z: Zone, t: int)
      modifies this
      ensures Names(View(), t + Offset(z, t).0) && isdst == Offset(z, t).1
    {
      var (east, dst) := Offset(z, t);
      FillGmtime(t + east);
      isdst := dst;
    }

    method UtcFromTm(z: Zone) returns (t: int)
      ensures t == InstantFor(z, CivilSeconds(View()), isdst)
    {
      var u := CivilSeconds(View());
      if !z.hasDst { return u - z.std; }
      if isdst > 0 { return u - z.dst; }
      if isdst == 0 { return u - z.std; }
      t := u - z.std;
      var i := 0;
      while i < 3
        invariant 0 <= i <= 3
        invariant t == if i % 2 == 0 then u - z.std else u - z.dst
        invariant i > 0 ==> !Shows(z, u - z.std, u) && z.std != z.dst
        invariant i > 1 ==> !Shows(z, u - z.dst, u)
      {
        var (east, _) := Offset(z, t);
        var next := u - east;
        if next == t { break; }
        t := next;
        i := i + 1;
      }
    }

    method Mktime(z: Zone) returns (t: int)
      modifies this
      ensures (t, View()) == MakeTime(z, old(View()))
    {
      var y := year + 1900;
      if mon < 0 || mon > 11 || mday < 1 || mday > 31 || y < 1 { return -1; }
      t := UtcFromTm(z);
      var days := DaysFromCivil(y, mon + 1, mday);
      wday := Weekday(days);
      yday := days - DaysFromCivil(y, 1, 1);
      isdst := Offset(z, t).1;
    }
  }

  /** Day number and second of the day, by truncating division and a correction. */
  method FloorDay(t: int) returns (days: int, rem: int)
    ensures t == days * 86400 + rem && 0 <= rem < 86400
  {
    days := TruncDiv(t, 86400);
    rem := t - days * 86400;
    if rem < 0 {
      rem := rem + 86400;
      days := days - 1;
    }
  }
}
