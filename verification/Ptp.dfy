/** PTP clock arithmetic, lib-gd32/include/gd32_ptp.h. */
module Ptp {
  import opened Numbers

  const BILLION := 1_000_000_000
  const UINT64 := 0x1_0000_0000_0000_0000

  predicate InInt32(x: int) {
    -0x8000_0000 <= x < 0x8000_0000
  }

  /** Division as C does it, towards zero. */
  function Truncated(a: int): int {
    if a >= 0 then a / BILLION else -(-a / BILLION)
  }

  // ---------- seconds and nanoseconds ----------

  /** The span in nanoseconds. */
  function Total(sec: int, nsec: int): int {
    sec * BILLION + nsec
  }

  /** Less than a second of nanoseconds, never of the opposite sign of the seconds. */
  predicate Normal(sec: int, nsec: int) {
    && -BILLION < nsec < BILLION
    && !(sec > 0 && nsec < 0) && !(sec < 0 && nsec > 0)
  }

  /** NormalizeTime stays in 32 bits if its first sum does. */
  predicate Normalizable(sec: int, nsec: int) {
    InInt32(sec) && InInt32(nsec) && InInt32(sec + Truncated(nsec))
  }

  /** A span of time has one normal form: what NormalizeTime leaves behind is determined by the total. */
  lemma NormalUnique(sec: int, nsec: int, sec': int, nsec': int)
    requires Normal(sec, nsec) && Normal(sec', nsec')
    ensures Total(sec, nsec) == Total(sec', nsec') <==> sec == sec' && nsec == nsec'
  {
  }

  /** Clock readings subtract without overflow, unless the seconds alone are too far apart. */
  lemma ReadingsSubtract(xs: int, xn: int, ys: int, yn: int)
    requires 0 <= xn < BILLION && 0 <= yn < BILLION && InInt32(xs) && InInt32(ys)
    ensures Normalizable(xs - ys, xn - yn) <==> InInt32(xs - ys)
  {
    assert Truncated(xn - yn) == 0;
  }

  /** time_t. */
  class Time {
    var sec: int
    var nsec: int

    constructor (sec: int, nsec: int)
      ensures this.sec == sec && this.nsec == nsec
    {
      this.sec, this.nsec := sec, nsec;
    }

    method NormalizeTime()
      requires Normalizable(sec, nsec)
      modifies this
      ensures Total(sec, nsec) == old(Total(sec, nsec))
      ensures Normal(sec, nsec) && InInt32(sec) && InInt32(nsec)
    {
      sec := sec + Truncated(nsec);
      nsec := nsec - Truncated(nsec) * BILLION;
      if sec > 0 && nsec < 0 {
        sec := sec - 1;
        nsec := nsec + BILLION;
      } else if sec < 0 && nsec > 0 {
        sec := sec + 1;
        nsec := nsec - BILLION;
      }
    }

    /** SubTime(this, x, y); the result may be one of the operands. */
    method SubTime(x: Time, y: Time)
      requires Normalizable(x.sec - y.sec, x.nsec - y.nsec)
      modifies this
      ensures Total(sec, nsec) == old(Total(x.sec, x.nsec) - Total(y.sec, y.nsec))
      ensures Normal(sec, nsec) && InInt32(sec) && InInt32(nsec)
    {
      sec := x.sec - y.sec;
      nsec := x.nsec - y.nsec;
      NormalizeTime();
    }
  }

  // ---------- nanoseconds and subseconds ----------

  function PtpNanosecond2Subsecond(nanosecond: nat): (r: nat)
    requires nanosecond < UINT32
    ensures r < UINT32
  {
    nanosecond * 0x8000_0000 % UINT64 / BILLION % UINT32
  }

  function PtpSubsecond2Nanosecond(subsecond: nat): (r: nat)
    requires subsecond < UINT32
    ensures r < 2 * BILLION
  {
    subsecond * BILLION % UINT64 / 0x8000_0000 % UINT32
  }

  /** Neither product leaves 64 bits. */
  lemma ProductsFit(v: nat)
    requires v < UINT32
    ensures v * 0x8000_0000 < UINT64 && v * BILLION < UINT64
    ensures PtpNanosecond2Subsecond(v) == v * 0x8000_0000 / BILLION % UINT32
    ensures PtpSubsecond2Nanosecond(v) == v * BILLION / 0x8000_0000
  {
    Fits64(v * 0x8000_0000);
    Fits64(v * BILLION);
    SmallQuotient(v * BILLION);
  }

  lemma Fits64(x: nat)
    requires x < UINT64
    ensures x % UINT64 == x
  {
  }

  lemma SmallQuotient(x: nat)
    requires x < UINT32 * BILLION
    ensures x / 0x8000_0000 % UINT32 == x / 0x8000_0000
  {
  }

  /** The subseconds of less than two seconds are the whole 2^-31 seconds in them. */
  lemma SubsecondsIn(ns: nat)
    requires ns < 2 * BILLION
    ensures var r := PtpNanosecond2Subsecond(ns);
            r * BILLION <= ns * 0x8000_0000 < (r + 1) * BILLION
  {
    SubsecondsWrap(ns);
    Quotient(ns * 0x8000_0000, BILLION);
  }

  /** The nanoseconds of any number of subseconds are the whole ones in them. */
  lemma NanosecondsIn(sub: nat)
    requires sub < UINT32
    ensures var r := PtpSubsecond2Nanosecond(sub);
            r * 0x8000_0000 <= sub * BILLION < (r + 1) * 0x8000_0000
  {
    ProductsFit(sub);
    Quotient(sub * BILLION, 0x8000_0000);
  }

  /** 2 * 10^9 nanoseconds are 2^32 subseconds, so the conversion starts again there. */
  lemma SubsecondsWrap(ns: nat)
    requires ns < UINT32
    ensures var m := ns % (2 * BILLION);
            PtpNanosecond2Subsecond(ns) == m * 0x8000_0000 / BILLION < UINT32
  {
    var q, m := ns / (2 * BILLION), ns % (2 * BILLION);
    ProductsFit(ns);
    SubsecondsShift(m, q);
    BelowUint32(m * 0x8000_0000 / BILLION, q);
  }

  lemma SubsecondsShift(m: nat, q: nat)
    requires m < 2 * BILLION
    ensures (m + q * (2 * BILLION)) * 0x8000_0000 / BILLION == m * 0x8000_0000 / BILLION + q * UINT32
    ensures m * 0x8000_0000 / BILLION < UINT32
  {
  }

  lemma BelowUint32(d: nat, q: nat)
    requires d < UINT32
    ensures (d + q * UINT32) % UINT32 == d
  {
  }

  /** 10^9 = 2^9 * 5^9, and 530669 * 2^22 is one more than a multiple of 5^9. */
  lemma ExactSubseconds(m: nat)
    ensures m * 0x8000_0000 % BILLION == 0 <==> m % 1953125 == 0
  {
    if m * 0x8000_0000 % BILLION == 0 {
      FiveToTheNinth(m, m * 0x8000_0000 / BILLION);
    }
    if m % 1953125 == 0 {
      WholeSubseconds(m / 1953125);
    }
  }

  lemma FiveToTheNinth(m: nat, q: nat)
    requires m * 0x8000_0000 == q * BILLION
    ensures m % 1953125 == 0
  {
    assert m * 0x40_0000 == q * 1953125;
    assert m == (530669 * q - 1139603 * m) * 1953125;
  }

  lemma WholeSubseconds(q: nat)
    ensures q * 1953125 * 0x8000_0000 % BILLION == 0
  {
    assert q * 1953125 * 0x8000_0000 == q * 0x40_0000 * BILLION;
  }

  lemma BackFromSubseconds(m: nat)
    requires m < 2 * BILLION
    ensures var sub := m * 0x8000_0000 / BILLION;
            sub < UINT32 && PtpSubsecond2Nanosecond(sub) == if m * 0x8000_0000 % BILLION == 0 then m else m - 1
  {
    var sub := m * 0x8000_0000 / BILLION;
    ProductsFit(sub);
  }

  /**
   To subseconds and back: exact for the multiples of 5^9 and one less otherwise, for every value below
   2 * 10^9 ns; larger values come back modulo 2 * 10^9.
   */
  lemma NanosecondRoundTrip(ns: nat)
    requires ns < UINT32
    ensures var m := ns % (2 * BILLION);
            PtpSubsecond2Nanosecond(PtpNanosecond2Subsecond(ns)) == if m % 1953125 == 0 then m else m - 1
  {
    SubsecondsWrap(ns);
    BackFromSubseconds(ns % (2 * BILLION));
    ExactSubseconds(ns % (2 * BILLION));
  }

  /** The round trip loses at most one nanosecond exactly below 2 * 10^9. */
  lemma LosesAtMostOneIff(ns: nat)
    requires ns < UINT32
    ensures ns - 1 <= PtpSubsecond2Nanosecond(PtpNanosecond2Subsecond(ns)) <= ns <==> ns < 2 * BILLION
  {
    NanosecondRoundTrip(ns);
  }

  /** Of two seconds nothing comes back. */
  lemma TwoSecondsLost()
    ensures PtpSubsecond2Nanosecond(PtpNanosecond2Subsecond(2 * BILLION)) == 0
  {
    NanosecondRoundTrip(2 * BILLION);
  }

  /** The other way round at most three subseconds are lost, on every 32-bit value. */
  lemma SubsecondRoundTrip(sub: nat)
    requires sub < UINT32
    ensures sub - 3 <= PtpNanosecond2Subsecond(PtpSubsecond2Nanosecond(sub)) <= sub
  {
    var ns := PtpSubsecond2Nanosecond(sub);
    ProductsFit(sub);
    ProductsFit(ns);
    Quotient(sub * BILLION, 0x8000_0000);
    Quotient(ns * 0x8000_0000, BILLION);
    TwoQuotients(sub, ns, ns * 0x8000_0000 / BILLION);
  }

  lemma TwoQuotients(sub: nat, ns: nat, back: nat)
    requires sub < UINT32 && ns * 0x8000_0000 <= sub * BILLION < ns * 0x8000_0000 + 0x8000_0000
    requires back * BILLION <= ns * 0x8000_0000 < back * BILLION + BILLION
    ensures sub - 3 <= back <= sub && back % UINT32 == back
  {
  }
}
