/**
 lib-clib/src/time.cpp: seconds since 1970 to broken-down time and back. The loops over years and
 months are proved against a closed-form Gregorian day count.
 */
module Calendar {
  import opened Numbers

  newtype uint32 = x: int | 0 <= x < UINT32

  /** 2040-01-01 00:00:00 UTC, the first instant mktime refuses. */
  const FIRST_2040 := 2208988800
  /** 1980-01-01 00:00:00 UTC, the epoch of FAT timestamps. */
  const FIRST_1980 := 315532800

  /** struct tm without the daylight-saving flag; tm_year counts from 1900, tm_mon from 0. */
  datatype Tm = Tm(sec: int, min: int, hour: int, mday: int, mon: int, year: int, wday: int, yday: int)

  predicate IsLeapYear(year: int) {
    if year % 100 == 0 then year % 400 == 0 else year % 4 == 0
  }

  const DAYS_OF_MONTH: seq<int> := [31, 28, 31, 30, 31, 30, 31, 31, 30, 31, 30, 31]

  function DaysOfMonth(month: int, year: int): (d: int)
    requires 0 <= month < 12
    ensures 28 <= d <= 31
  {
    if month == 1 && IsLeapYear(year) then 29 else DAYS_OF_MONTH[month]
  }

  function DaysOfYear(year: int): int {
    if IsLeapYear(year) then 366 else 365
  }

  // ---------- closed forms ----------

  /** Leap days in the years 1..year of the Gregorian calendar. */
  function LeapDays(year: int): int {
    year / 4 - year / 100 + year / 400
  }

  /** Days from 1970-01-01 to January 1st of `year`. */
  function YearStart(year: int): int {
    365 * (year - 1970) + LeapDays(year - 1) - LeapDays(1969)
  }

  /** Days from January 1st to the first of the month; month 12 gives the length of the year. */
  function MonthStart(month: int, year: int): int {
    (367 * (month + 1) - 362) / 12 - (if month <= 1 then 0 else if IsLeapYear(year) then 1 else 2)
  }

  /** The weekday of January 1st by Gauss's rule; 0 is Sunday. */
  function GaussJanuary1(year: int): int {
    (1 + 5 * ((year - 1) % 4) + 4 * ((year - 1) % 100) + 6 * ((year - 1) % 400)) % 7
  }

  predicate ValidFields(f: Tm) {
    && 0 <= f.sec <= 59 && 0 <= f.min <= 59 && 0 <= f.hour <= 23
    && 0 <= f.mon <= 11 && 1 <= f.mday <= DaysOfMonth(f.mon, 1900 + f.year)
  }

  function DayNumber(f: Tm): int {
    YearStart(1900 + f.year) + MonthStart(f.mon, 1900 + f.year) + f.mday - 1
  }

  function Epoch(f: Tm): int {
    ((DayNumber(f) * 24 + f.hour) * 60 + f.min) * 60 + f.sec
  }

  /** f is the broken-down form of t: valid fields that denote t, with the right weekday and day of year. */
  ghost predicate Denotes(f: Tm, t: int) {
    && ValidFields(f) && f.year >= 70
    && Epoch(f) == t
    && f.yday == MonthStart(f.mon, 1900 + f.year) + f.mday - 1
    && f.wday == (GaussJanuary1(1900 + f.year) + f.yday) % 7
  }

  lemma YearStartStep(year: int)
    requires year >= 1
    ensures YearStart(year + 1) == YearStart(year) + DaysOfYear(year)
  {
    LeapDaysStep(year);
  }

  lemma LeapDaysStep(year: int)
    requires year >= 1
    ensures LeapDays(year) == LeapDays(year - 1) + if IsLeapYear(year) then 1 else 0
  {
    QuotientStep(year, 4);
    QuotientStep(year, 100);
    QuotientStep(year, 400);
    NestedYears(year);
  }

  lemma NestedYears(year: int)
    ensures year % 400 == 0 ==> year % 100 == 0
    ensures year % 100 == 0 ==> year % 4 == 0
  {
  }

  lemma QuotientStep(year: int, d: int)
    requires d == 4 || d == 100 || d == 400
    ensures year / d == (year - 1) / d + if year % d == 0 then 1 else 0
  {
  }

  lemma MonthStartStep(month: int, year: int)
    requires 0 <= month < 12
    ensures MonthStart(month + 1, year) == MonthStart(month, year) + DaysOfMonth(month, year)
    ensures MonthStart(0, year) == 0 && MonthStart(12, year) == DaysOfYear(year)
  {
  }

  /** Counting from Thursday 1970-01-01 agrees with Gauss's rule for every year. */
  lemma WeekdayAgrees(year: int)
    requires year >= 1
    ensures (YearStart(year) + 4) % 7 == GaussJanuary1(year)
  {
    var y := year - 1;
    var a, b, c := y / 4, y / 100, y / 400;
    var gauss := 1 + 5 * (y % 4) + 4 * (y % 100) + 6 * (y % 400);
    assert gauss == 1 + 15 * y - 20 * a - 400 * b - 2400 * c;
    assert YearStart(year) + 4 - gauss == 350 * y + 21 * a + 399 * b + 2401 * c - 365 * 1969 - LeapDays(1969) + 3;
    assert 365 * 1969 + LeapDays(1969) - 3 == 7 * 102737;
    SameResidue(YearStart(year) + 4, gauss, 50 * y + 3 * a + 57 * b + 343 * c - 102737);
  }

  lemma SameResidue(x: int, y: int, k: int)
    requires x == y + 7 * k
    ensures x % 7 == y % 7
  {
  }

  // ---------- uniqueness ----------

  lemma {:induction false} YearStartGrows(y1: int, y2: int)
    requires 1 <= y1 < y2
    ensures YearStart(y1) + DaysOfYear(y1) <= YearStart(y2)
    decreases y2
  {
    if y2 == y1 + 1 {
      YearStartStep(y1);
    } else {
      YearStartGrows(y1, y2 - 1);
      YearStartStep(y2 - 1);
    }
  }

  lemma {:induction false} MonthStartGrows(m1: int, m2: int, year: int)
    requires 0 <= m1 < m2 <= 12
    ensures MonthStart(m1, year) + DaysOfMonth(m1, year) <= MonthStart(m2, year)
    decreases m2
  {
    if m2 == m1 + 1 {
      MonthStartStep(m1, year);
    } else {
      MonthStartGrows(m1, m2 - 1, year);
      MonthStartStep(m2 - 1, year);
    }
  }

  lemma DayOfYearInRange(f: Tm)
    requires ValidFields(f)
    ensures 0 <= MonthStart(f.mon, 1900 + f.year) + f.mday - 1 < DaysOfYear(1900 + f.year)
  {
    var year := 1900 + f.year;
    MonthStartStep(0, year);
    MonthStartGrows(f.mon, 12, year);
    if f.mon > 0 {
      MonthStartGrows(0, f.mon, year);
    }
  }

  lemma EpochDay(f: Tm)
    requires ValidFields(f)
    ensures DayNumber(f) == Epoch(f) / 86400
  {
    assert Epoch(f) == 86400 * DayNumber(f) + 3600 * f.hour + 60 * f.min + f.sec;
  }

  /** The time of day, taken apart one division at a time as gmtime does. */
  lemma TimeOfDay(t: nat)
    ensures t == (((t / 60 / 60 / 24) * 24 + t / 60 / 60 % 24) * 60 + t / 60 % 60) * 60 + t % 60
  {
    var m := t / 60;
    var h := m / 60;
    assert t == 60 * m + t % 60 && m == 60 * h + m % 60 && h == 24 * (h / 24) + h % 24;
  }

  lemma SameDay(f: Tm, g: Tm)
    requires ValidFields(f) && ValidFields(g) && f.year >= 70 && g.year >= 70
    requires DayNumber(f) == DayNumber(g)
    ensures f.year == g.year && f.mon == g.mon && f.mday == g.mday
  {
    DayOfYearInRange(f);
    DayOfYearInRange(g);
    if f.year < g.year {
      YearStartGrows(1900 + f.year, 1900 + g.year);
    } else if g.year < f.year {
      YearStartGrows(1900 + g.year, 1900 + f.year);
    } else {
      SameDayOfYear(1900 + f.year, f.mon, f.mday, g.mon, g.mday);
    }
  }

  lemma SameDayOfYear(year: int, m1: int, d1: int, m2: int, d2: int)
    requires 0 <= m1 < 12 && 1 <= d1 <= DaysOfMonth(m1, year)
    requires 0 <= m2 < 12 && 1 <= d2 <= DaysOfMonth(m2, year)
    requires MonthStart(m1, year) + d1 == MonthStart(m2, year) + d2
    ensures m1 == m2 && d1 == d2
  {
    if m1 < m2 {
      MonthStartGrows(m1, m2, year);
    } else if m2 < m1 {
      MonthStartGrows(m2, m1, year);
    }
  }

  /** Two valid field tuples of the same second agree in every field mktime reads. */
  lemma SameInstant(f: Tm, g: Tm)
    requires ValidFields(f) && ValidFields(g) && f.year >= 70 && g.year >= 70
    requires Epoch(f) == Epoch(g)
    ensures g == f.(wday := g.wday, yday := g.yday)
  {
    EpochDay(f);
    EpochDay(g);
    SameDay(f, g);
    SameTimeOfDay(DayNumber(f), f.hour, f.min, f.sec, g.hour, g.min, g.sec);
  }

  lemma SameTimeOfDay(day: int, h1: int, m1: int, s1: int, h2: int, m2: int, s2: int)
    requires 0 <= m1 < 60 && 0 <= s1 < 60 && 0 <= m2 < 60 && 0 <= s2 < 60
    requires ((day * 24 + h1) * 60 + m1) * 60 + s1 == ((day * 24 + h2) * 60 + m2) * 60 + s2
    ensures h1 == h2 && m1 == m2 && s1 == s2
  {
  }

  /** An instant has one broken-down form. */
  lemma DenotesUnique(f: Tm, g: Tm, t: int)
    requires Denotes(f, t) && Denotes(g, t)
    ensures f == g
  {
    SameInstant(f, g);
  }

  /** Valid fields from 1970 on denote an instant from 0 on, before 2040 exactly if tm_year < 140. */
  lemma EpochRange(f: Tm)
    requires ValidFields(f) && f.year >= 70
    ensures 0 <= Epoch(f)
    ensures Epoch(f) < FIRST_2040 <==> f.year <= 139
    ensures Epoch(f) < FIRST_1980 <==> f.year < 80
  {
    EpochDay(f);
    DayAgainstYear(f, 1970);
    DayAgainstYear(f, 1980);
    DayAgainstYear(f, 2040);
    YearStarts();
  }

  lemma YearStarts()
    ensures YearStart(1970) == 0 && 86400 * YearStart(1980) == FIRST_1980 && 86400 * YearStart(2040) == FIRST_2040
  {
  }

  lemma DayAgainstYear(f: Tm, year: int)
    requires ValidFields(f) && f.year >= 70 && year >= 1970
    ensures DayNumber(f) < YearStart(year) <==> 1900 + f.year < year
  {
    DayOfYearInRange(f);
    if 1900 + f.year < year {
      YearStartGrows(1900 + f.year, year);
    } else if year < 1900 + f.year {
      YearStartGrows(year, 1900 + f.year);
    }
  }

  // ---------- gmtime and mktime ----------

  /** The loops of gmtime as functions of the day count; they define the broken-down form of t. */
  function YearOf(days: nat, year: int): (r: (int, nat))
    requires year >= 1
    ensures r.0 >= year && r.1 < DaysOfYear(r.0)
    ensures YearStart(r.0) + r.1 == YearStart(year) + days
    decreases days
  {
    if days < DaysOfYear(year) then (year, days)
    else YearStartStep(year); YearOf(days - DaysOfYear(year), year + 1)
  }

  function MonthOf(days: nat, month: int, year: int): (r: (int, nat))
    requires 0 <= month < 12
    requires MonthStart(month, year) + days < DaysOfYear(year)
    ensures month <= r.0 < 12 && r.1 < DaysOfMonth(r.0, year)
    ensures MonthStart(r.0, year) + r.1 == MonthStart(month, year) + days
    decreases 12 - month
  {
    MonthStartStep(month, year);
    if days < DaysOfMonth(month, year) then (month, days)
    else MonthOf(days - DaysOfMonth(month, year), month + 1, year)
  }

  function BrokenDown(t: nat): Tm {
    var hours := t / 60 / 60;
    var days := hours / 24;
    var (year, yday) := YearOf(days, 1970);
    MonthStartStep(0, year);
    var (mon, d) := MonthOf(yday, 0, year);
    Tm(t % 60, t / 60 % 60, hours % 24, d + 1, mon, year - 1900, (days + 4) % 7, yday)
  }

  lemma BrokenDownDenotes(t: nat)
    ensures Denotes(BrokenDown(t), t)
  {
    var days := t / 60 / 60 / 24;
    var (year, yday) := YearOf(days, 1970);
    MonthStartStep(0, year);
    var (mon, d) := MonthOf(yday, 0, year);
    WeekdayOfDay(year, yday);
    var f := BrokenDown(t);
    assert DayNumber(f) == days;
    TimeOfDay(t);
  }

  lemma WeekdayOfDay(year: int, yday: nat)
    requires year >= 1
    ensures (YearStart(year) + yday + 4) % 7 == (GaussJanuary1(year) + yday) % 7
  {
    WeekdayAgrees(year);
    var k := (YearStart(year) + 4) / 7;
    SameResidue(YearStart(year) + yday + 4, GaussJanuary1(year) + yday, k);
  }

  /** What mktime answers: -1 unless every field is in range and the year is 1970 to 2039. */
  function MkTime(f: Tm): int {
    if 70 <= f.year <= 139 && ValidFields(f) then Epoch(f) else -1
  }

  /** mktime undoes gmtime exactly for the instants before 2040. */
  lemma MkTimeOfGmTime(t: nat)
    ensures MkTime(BrokenDown(t)) == t <==> t < FIRST_2040
    ensures t >= FIRST_2040 ==> MkTime(BrokenDown(t)) == -1
  {
    BrokenDownDenotes(t);
    EpochRange(BrokenDown(t));
  }

  /** gmtime gives back every field tuple mktime accepts and fills in weekday and day of year. */
  lemma GmTimeOfMkTime(f: Tm)
    requires MkTime(f) != -1
    ensures 0 <= MkTime(f) < FIRST_2040
    ensures BrokenDown(MkTime(f)) == f.(wday := BrokenDown(MkTime(f)).wday, yday := BrokenDown(MkTime(f)).yday)
  {
    EpochRange(f);
    BrokenDownDenotes(MkTime(f));
    var g := BrokenDown(MkTime(f));
    SameInstant(f, g);
  }

  lemma MkTimeRefuses(f: Tm)
    ensures MkTime(f) == -1 <==> !(70 <= f.year <= 139 && ValidFields(f))
  {
    if 70 <= f.year <= 139 && ValidFields(f) {
      EpochRange(f);
    }
  }

  /** Fields split off one after the other denote the instant, so they are its broken-down form. */
  lemma FieldsDenote(t: nat, days: nat, year: int, month: int, f: Tm)
    requires days == t / 60 / 60 / 24
    requires f.sec == t % 60 && f.min == t / 60 % 60 && f.hour == t / 60 / 60 % 24
    requires f.year == year - 1900 && f.mon == month && f.wday == (days + 4) % 7
    requires year >= 1970 && 0 <= f.yday && YearStart(year) + f.yday == days
    requires 0 <= month < 12 && 1 <= f.mday <= DaysOfMonth(month, year)
    requires MonthStart(month, year) + f.mday - 1 == f.yday
    ensures Denotes(f, t)
  {
    TimeOfDay(t);
    WeekdayOfDay(year, f.yday);
    assert DayNumber(f) == days;
  }

  /** The static s_tm of time.cpp and the two conversions. */
  class Clock {
    var tm: Tm

    constructor ()
    {
      tm := Tm(0, 0, 0, 0, 0, 0, 0, 0);
    }

    /** gmtime; `ok` is false for the null pointer. time_t is wider than 32 bits. */
    method GmTime(timer: int) returns (ok: bool)
      modifies this
      ensures ok <==> 0 <= timer < UINT32
      ensures ok ==> Denotes(tm, timer) && tm == BrokenDown(timer)
      ensures !ok ==> tm == old(tm)
    {
      if timer < 0 || timer >= UINT32 {
        return false;
      }
      var time := timer as uint32;
      var sec := (time % 60) as int;
      time := time / 60;
      var min := (time % 60) as int;
      time := time / 60;
      var hour := (time % 24) as int;
      time := time / 24;
      ghost var days := time as int;
      TimeOfDay(timer);
      var wday := ((time + 4) % 7) as int;

      var year, month;
      year, time := SplitYears(time);
      var yday := time as int;
      month, time := SplitMonths(time, year);
      tm := Tm(sec, min, hour, (time + 1) as int, month, year - 1900, wday, yday);
      FieldsDenote(timer, days, year, month, tm);
      BrokenDownDenotes(timer);
      DenotesUnique(tm, BrokenDown(timer), timer);
      ok := true;
    }

    /** The year loop of gmtime. */
    method SplitYears(days: uint32) returns (year: int, time: uint32)
      ensures year >= 1970 && time as int < DaysOfYear(year)
      ensures YearStart(year) + time as int == days as int
    {
      year, time := 1970, days;
      while true
        invariant year >= 1970
        invariant YearStart(year) + time as int == days as int
        decreases time
      {
        var daysOfYear: uint32 := if IsLeapYear(year) then 366 else 365;
        if time < daysOfYear {
          break;
        }
        YearStartStep(year);
        time := time - daysOfYear;
        year := year + 1;
      }
    }

    /** The month loop of gmtime. */
    method SplitMonths(yday: uint32, year: int) returns (month: int, time: uint32)
      requires yday as int < DaysOfYear(year)
      ensures 0 <= month < 12 && time as int < DaysOfMonth(month, year)
      ensures MonthStart(month, year) + time as int == yday as int
    {
      month, time := 0, yday;
      MonthStartStep(0, year);
      while true
        invariant 0 <= month < 12
        invariant MonthStart(month, year) + time as int == yday as int
        decreases 12 - month
      {
        var daysOfMonth := DaysOfMonth(month, year) as uint32;
        MonthStartStep(month, year);
        if time < daysOfMonth {
          break;
        }
        time := time - daysOfMonth;
        month := month + 1;
      }
    }

    /** The year loop of mktime. */
    static method SumYears(targetYear: int) returns (result: uint32)
      requires 1970 <= targetYear <= 2039
      ensures result as int == YearStart(targetYear) <= 366 * 70
    {
      result := 0;
      var year := 1970;
      while year < targetYear
        invariant 1970 <= year <= targetYear
        invariant result as int == YearStart(year) <= 366 * (year - 1970)
      {
        YearStartStep(year);
        result := result + if IsLeapYear(year) then 366 else 365;
        year := year + 1;
      }
    }

    /** The month loop of mktime. */
    static method SumMonths(days: uint32, year: int, mon: int) returns (result: uint32)
      requires 0 <= mon < 12 && days <= 366 * 70
      ensures result as int == days as int + MonthStart(mon, year) <= 366 * 70 + 31 * 12
    {
      MonthStartStep(0, year);
      result := days;
      var month := 0;
      while month < mon
        invariant 0 <= month <= mon
        invariant result as int == days as int + MonthStart(month, year) <= 366 * 70 + 31 * month
      {
        MonthStartStep(month, year);
        result := result + DaysOfMonth(month, year) as uint32;
        month := month + 1;
      }
    }

    /** mktime on the fields of f; no sum leaves 32 bits. */
    static method MkTimeOf(f: Tm) returns (r: int)
      ensures r == MkTime(f)
    {
      if f.year < 70 || f.year > 139 {
        return -1;
      }
      var targetYear := 1900 + f.year;
      var result := SumYears(targetYear);
      if f.mon < 0 || f.mon > 11 {
        return -1;
      }
      result := SumMonths(result, targetYear, f.mon);
      if f.mday < 1 || f.mday > DaysOfMonth(f.mon, targetYear) {
        return -1;
      }
      result := result + (f.mday - 1) as uint32;
      result := result * 24;
      if f.hour < 0 || f.hour > 23 {
        return -1;
      }
      result := result + f.hour as uint32;
      result := result * 60;
      if f.min < 0 || f.min > 59 {
        return -1;
      }
      result := result + f.min as uint32;
      result := result * 60;
      if f.sec < 0 || f.sec > 59 {
        return -1;
      }
      result := result + f.sec as uint32;
      r := result as int;
    }
  }
}
