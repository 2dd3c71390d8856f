/**
 FAT timestamps: get_fattime packs the clock into a 32-bit word (lib-fatfs/src/get_fattime.cpp), and
 FatTimeToUnix unpacks the two halves a directory entry stores (lib-fatfs/src/stat.cpp). Masks and
 shifts are written as remainders and quotients; the packed fields never overlap, so or is sum.
 */
module FatTime {
  import opened Calendar
  import opened Numbers

  /** The word of get_fattime: year 7 bits, month 4, day 5, hour 5, minute 6, half seconds 5. */
  function Packed(f: Tm): (w: nat)
    ensures w < 0x1_0000_0000
  {
    var year := (f.year - 80) % 0x80;
    var month := (f.mon + 1) % 0x10;
    var day := f.mday % 0x20;
    var hour := f.hour % 0x20;
    var min := f.min % 0x40;
    var halfSec := f.sec / 2 % 0x20;
    year * 0x200_0000 + month * 0x20_0000 + day * 0x1_0000 + hour * 0x800 + min * 0x20 + halfSec
  }

  /** The fields FatTimeToUnix hands to mktime. */
  function Unpacked(date: nat, time: nat): Tm {
    Tm(time * 2 % 0x40, time / 0x20 % 0x40, time / 0x800 % 0x20,
       date % 0x20, date / 0x20 % 0x10 - 1, date / 0x200 % 0x80 + 80, 0, 0)
  }

  function ToUnix(date: nat, time: nat): int {
    MkTime(Unpacked(date, time))
  }

  function DateHalf(w: nat): nat {
    w / 0x1_0000
  }

  function TimeHalf(w: nat): nat {
    w % 0x1_0000
  }

  method FatTimeToUnix(date: nat, time: nat) returns (r: int)
    ensures r == ToUnix(date, time)
  {
    var tm := Tm(0, 0, 0, 0, 0, 0, 0, 0);
    tm := tm.(sec := time * 2 % 0x40);
    tm := tm.(min := time / 0x20 % 0x40);
    tm := tm.(hour := time / 0x800 % 0x20);
    tm := tm.(mday := date % 0x20);
    tm := tm.(mon := date / 0x20 % 0x10 - 1);
    tm := tm.(year := date / 0x200 % 0x80 + 80);
    r := Clock.MkTimeOf(tm);
  }

  /** get_fattime with the clock's reading as an argument. */
  method GetFatTime(clock: Clock, now: int) returns (w: nat)
    requires 0 <= now < UINT32
    modifies clock
    ensures w == Packed(BrokenDown(now))
  {
    var ok := clock.GmTime(now);
    w := Packed(clock.tm);
  }

  lemma SplitDate(year: nat, month: nat, day: nat)
    requires year < 0x80 && month < 0x10 && day < 0x20
    ensures var date := year * 0x200 + month * 0x20 + day;
            date / 0x200 % 0x80 == year && date / 0x20 % 0x10 == month && date % 0x20 == day && date < 0x1_0000
  {
    var date := year * 0x200 + month * 0x20 + day;
    assert date / 0x20 == year * 0x10 + month;
    assert date / 0x200 == year;
  }

  lemma SplitTime(hour: nat, min: nat, half: nat)
    requires hour < 0x20 && min < 0x40 && half < 0x20
    ensures var time := hour * 0x800 + min * 0x20 + half;
            && time / 0x800 % 0x20 == hour && time / 0x20 % 0x40 == min && time * 2 % 0x40 == half * 2
            && time < 0x1_0000
  {
    var time := hour * 0x800 + min * 0x20 + half;
    assert time / 0x20 == hour * 0x40 + min;
    assert time / 0x800 == hour;
    assert time * 2 == 0x40 * (hour * 0x40 + min) + half * 2;
  }

  lemma SplitWord(date: nat, time: nat)
    requires time < 0x1_0000
    ensures DateHalf(date * 0x1_0000 + time) == date && TimeHalf(date * 0x1_0000 + time) == time
  {
  }

  /** The fields fit the bits they are packed into. */
  predicate InBits(f: Tm) {
    && 0 <= f.sec <= 59 && 0 <= f.min <= 59 && 0 <= f.hour <= 23
    && 0 <= f.mon <= 11 && 1 <= f.mday <= 31
  }

  lemma ValidInBits(f: Tm)
    requires ValidFields(f)
    ensures InBits(f)
  {
  }

  lemma PackedAsHalves(f: Tm)
    requires InBits(f)
    ensures Packed(f) == ((f.year - 80) % 0x80 * 0x200 + (f.mon + 1) * 0x20 + f.mday) * 0x1_0000 +
                         (f.hour * 0x800 + f.min * 0x20 + f.sec / 2)
  {
  }

  lemma HalvesOfPacked(f: Tm)
    requires InBits(f)
    ensures Unpacked(DateHalf(Packed(f)), TimeHalf(Packed(f))) ==
            Tm(f.sec / 2 * 2, f.min, f.hour, f.mday, f.mon, (f.year - 80) % 0x80 + 80, 0, 0)
  {
    var year := (f.year - 80) % 0x80;
    PackedAsHalves(f);
    SplitDate(year, f.mon + 1, f.mday);
    SplitTime(f.hour, f.min, f.sec / 2);
    SplitWord(year * 0x200 + (f.mon + 1) * 0x20 + f.mday, f.hour * 0x800 + f.min * 0x20 + f.sec / 2);
  }

  lemma YearOfUint32(t: nat)
    requires t < UINT32
    ensures 70 <= BrokenDown(t).year <= 206
  {
    BrokenDownDenotes(t);
    var f := BrokenDown(t);
    DayOfYearInRange(f);
    if f.year > 206 {
      if f.year > 207 { YearStartGrows(2107, 1900 + f.year); }
      assert false;
    }
  }

  lemma EvenPart(k: int, s: int)
    ensures 2 * k + s / 2 * 2 == 2 * k + s - (2 * k + s) % 2
  {
    assert (2 * k + s) % 2 == s % 2;
  }

  /** Dropping the odd second. */
  lemma EvenSecond(f: Tm, g: Tm)
    requires g == Tm(f.sec / 2 * 2, f.min, f.hour, f.mday, f.mon, f.year, 0, 0)
    requires ValidFields(f)
    ensures Epoch(g) == Epoch(f) - Epoch(f) % 2
  {
    var days := DayNumber(f);
    assert DayNumber(g) == days;
    var k := 43200 * days + 1800 * f.hour + 30 * f.min;
    assert Epoch(f) == 2 * k + f.sec;
    assert Epoch(g) == 2 * k + g.sec;
    EvenPart(k, f.sec);
  }

  /** The seven year bits hold 1980 to 2039 and wrap every other year to one mktime refuses. */
  lemma YearBits(year: int)
    requires 70 <= year <= 206
    ensures if 80 <= year <= 139 then (year - 80) % 0x80 + 80 == year else (year - 80) % 0x80 + 80 > 139
  {
  }

  lemma RoundTripOfFields(f: Tm)
    requires ValidFields(f) && 70 <= f.year <= 206
    ensures var w := Packed(f);
            ToUnix(DateHalf(w), TimeHalf(w)) == if 80 <= f.year <= 139 then Epoch(f) - Epoch(f) % 2 else -1
  {
    ValidInBits(f);
    HalvesOfPacked(f);
    HalvesToUnix(f, Unpacked(DateHalf(Packed(f)), TimeHalf(Packed(f))));
  }

  lemma HalvesToUnix(f: Tm, g: Tm)
    requires ValidFields(f) && 70 <= f.year <= 206
    requires g == Tm(f.sec / 2 * 2, f.min, f.hour, f.mday, f.mon, (f.year - 80) % 0x80 + 80, 0, 0)
    ensures MkTime(g) == if 80 <= f.year <= 139 then Epoch(f) - Epoch(f) % 2 else -1
  {
    YearBits(f.year);
    if 80 <= f.year <= 139 {
      EvenSecond(f, g);
    }
  }

  /** What the clock reads as a file's time, and the file's time as the clock. */
  function RoundTrip(t: nat): int {
    var w := Packed(BrokenDown(t));
    ToUnix(DateHalf(w), TimeHalf(w))
  }

  /**
   Through both packings and both calendar loops the clock comes back rounded to the even second
   below, exactly for the instants of 1980 to 2039; at any other instant the answer is -1.
   */
  lemma FatRoundTrip(t: nat)
    requires t < UINT32
    ensures RoundTrip(t) == t - t % 2 <==> FIRST_1980 <= t < FIRST_2040
    ensures RoundTrip(t) == -1 <==> !(FIRST_1980 <= t < FIRST_2040)
  {
    BrokenDownDenotes(t);
    YearOfUint32(t);
    EpochRange(BrokenDown(t));
    RoundTripOfFields(BrokenDown(t));
  }

  /** The first second of 1970 and that of 2040 do not come back. */
  lemma OutsideFatYears(t: nat)
    requires t == 0 || t == FIRST_2040
    ensures RoundTrip(t) == -1
  {
    FatRoundTrip(t);
  }

  lemma PackedOfUnpacked(date: nat, time: nat)
    requires date < 0x1_0000 && time < 0x1_0000
    requires ValidFields(Unpacked(date, time)) && Unpacked(date, time).year <= 139
    ensures Packed(Unpacked(date, time)) == date * 0x1_0000 + time
  {
    var f := Unpacked(date, time);
    PackedAsHalves(f);
    YearBits(f.year);
    TimeFields(time);
    DateFields(date);
  }

  lemma TimeFields(time: nat)
    requires time < 0x1_0000
    ensures time == time / 0x800 % 0x20 * 0x800 + time / 0x20 % 0x40 * 0x20 + time * 2 % 0x40 / 2
  {
    var q := time / 0x20;
    assert time == q * 0x20 + time % 0x20;
    FieldsOf11Bits(q);
    assert q / 0x40 == time / 0x800;
    DoubledRest(q, time % 0x20);
  }

  lemma FieldsOf11Bits(q: nat)
    requires q < 0x800
    ensures q == q / 0x40 % 0x20 * 0x40 + q % 0x40
  {
  }

  lemma DoubledRest(q: nat, r: nat)
    requires r < 0x20
    ensures (q * 0x20 + r) * 2 % 0x40 / 2 == r
  {
    assert (q * 0x20 + r) * 2 == q * 0x40 + r * 2;
  }

  lemma DateFields(date: nat)
    requires date < 0x1_0000
    ensures date == date / 0x200 % 0x80 * 0x200 + date / 0x20 % 0x10 * 0x20 + date % 0x20
  {
    var q := date / 0x20;
    assert date == q * 0x20 + date % 0x20 && q == q / 0x10 * 0x10 + q % 0x10 && q / 0x10 == date / 0x200;
  }

  lemma PackedIgnoresDerived(f: Tm, g: Tm)
    requires g == f.(wday := g.wday, yday := g.yday)
    ensures Packed(g) == Packed(f)
  {
  }

  /** Every stored timestamp that converts at all is packed back to the same two halves. */
  lemma UnixRoundTrip(date: nat, time: nat)
    requires date < 0x1_0000 && time < 0x1_0000
    requires ToUnix(date, time) != -1
    ensures var t := ToUnix(date, time);
            && FIRST_1980 <= t < FIRST_2040
            && DateHalf(Packed(BrokenDown(t))) == date && TimeHalf(Packed(BrokenDown(t))) == time
  {
    var f := Unpacked(date, time);
    EpochRange(f);
    GmTimeOfMkTime(f);
    PackedOfUnpacked(date, time);
    PackedIgnoresDerived(f, BrokenDown(MkTime(f)));
    SplitWord(date, time);
  }
}
