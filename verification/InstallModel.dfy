/**
 Installing firmware in chunks, lib-flashcodeinstall/src/flashcodeinstall.cpp, on a NOR flash.
 */
module InstallModel {
  import opened Numbers
  import opened NorFlash

  datatype ChunkState = ChunkStart | ChunkWrite

  datatype Installer = Installer(flash: seq<bv8>, firmwareSize: nat, eraseSize: nat, writeCount: nat,
                                 chunkState: ChunkState)

  /** What the device left behind when an operation was over, and whether it reported kOk. */
  datatype Report = Report(flash: seq<bv8>, ok: bool)

  // ---------- rounding ----------

  /** The division rounding of Erase, in 32 bits. */
  function DivisionRounded(n: nat, sector: nat): nat
    requires sector > 0
  {
    var q := (n + sector - 1) % UINT32 / sector;
    MulMono(0, q, sector);
    q * sector
  }

  /** Bitwise and of two numbers. */
  function And(x: nat, y: nat): nat {
    if x == 0 || y == 0 then 0 else 2 * And(x / 2, y / 2) + (x % 2) * (y % 2)
  }

  /** ~m in 32 bits. */
  function Not32(m: nat): nat
    requires m < UINT32
  {
    UINT32 - 1 - m
  }

  /** The mask rounding of WriteFirmware, in 32 bits. */
  function MaskRounded(n: nat, sector: nat): nat
    requires 0 < sector <= UINT32
  {
    And((n + sector - 1) % UINT32, Not32(sector - 1))
  }

  /** The erased size is the least multiple of the sector size that holds n, if the sum stays in 32 bits. */
  lemma RoundedLeast(n: nat, sector: nat)
    requires sector > 0 && n + sector - 1 < UINT32
    ensures var e := DivisionRounded(n, sector);
            e % sector == 0 && n <= e < n + sector
    ensures forall m | 0 <= m && m * sector >= n :: m * sector >= DivisionRounded(n, sector)
  {
    var q := (n + sector - 1) / sector;
    Quotient(n + sector - 1, sector);
    MultipleMod(q, sector);
    forall m | 0 <= m && m * sector >= n ensures m * sector >= q * sector {
      if m < q {
        MulLess(m, q, sector);
      } else {
        MulMono(q, m, sector);
      }
    }
  }

  /** The erased size holds n exactly when that sum stays in 32 bits. */
  lemma RoundedHoldsIff(n: nat, sector: nat)
    requires n < UINT32 && 0 < sector <= UINT32
    ensures DivisionRounded(n, sector) >= n <==> n + sector - 1 < UINT32
  {
    Quotient((n + sector - 1) % UINT32, sector);
  }

  lemma MultipleMod(q: nat, d: nat)
    requires d > 0
    ensures q * d % d == 0
  {
    if q > 0 {
      MultipleMod(q - 1, d);
      assert q * d == (q - 1) * d + d;
      ModPlus((q - 1) * d, d);
    }
  }

  lemma ModPlus(a: nat, d: nat)
    requires d > 0
    ensures (a + d) % d == a % d
  {
    var q, r := a / d, a % d;
    assert a + d == (q + 1) * d + r;
    ModUnique(a + d, d, q + 1, r);
  }

  lemma MulLess(a: int, b: int, n: nat)
    requires a < b
    ensures a * n + n <= b * n
  {
    MulMono(a + 1, b, n);
  }

  lemma {:induction false} AndFull(x: nat, w: nat)
    requires x < Pow2(w)
    ensures And(x, Pow2(w) - 1) == x
  {
    if w > 0 && x > 0 {
      assert (Pow2(w) - 1) / 2 == Pow2(w - 1) - 1 && (Pow2(w) - 1) % 2 == 1;
      AndFull(x / 2, w - 1);
    }
  }

  /** One more bit of x, and a 0 more in the mask. */
  lemma AndHighStep(x: nat, mask: nat, r: nat, r': nat)
    requires And(x / 2, mask) == x / 2 - r && r' == 2 * r + x % 2
    ensures And(x, 2 * mask) == x - r'
  {
    AndEven(x, mask);
  }

  /** Clearing the k low bits of a w-bit number takes off its remainder by 2^k. */
  lemma {:induction false} AndHighBits(x: nat, w: nat, k: nat)
    requires x < Pow2(w) && k <= w
    ensures Pow2(k) <= Pow2(w)
    ensures And(x, Pow2(w) - Pow2(k)) == x - x % Pow2(k)
  {
    if k == 0 {
      AndFull(x, w);
      ModOne(x);
    } else {
      AndHighBits(x / 2, w - 1, k - 1);
      HalfMod(x, Pow2(k - 1));
      AndHighStep(x, Pow2(w - 1) - Pow2(k - 1), x / 2 % Pow2(k - 1), x % Pow2(k));
    }
  }

  lemma ModOne(x: nat)
    ensures x % 1 == 0
  {
  }

  lemma AndEven(x: nat, y: nat)
    ensures And(x, 2 * y) == 2 * And(x / 2, y)
  {
    if x == 0 || y == 0 {
    } else {
      assert 2 * y / 2 == y && 2 * y % 2 == 0;
    }
  }

  lemma HalfMod(x: nat, p: nat)
    requires p >= 1
    ensures x % (2 * p) == 2 * (x / 2 % p) + x % 2
  {
    var q, r := x / 2 / p, x / 2 % p;
    assert x / 2 == q * p + r;
    assert x == q * (2 * p) + (2 * r + x % 2);
    ModUnique(x, 2 * p, q, 2 * r + x % 2);
  }

  lemma MaskOfSum(sum: nat, k: nat)
    requires k <= 32 && sum < UINT32 == Pow2(32)
    ensures Pow2(k) <= UINT32 && And(sum, Not32(Pow2(k) - 1)) == sum / Pow2(k) * Pow2(k)
  {
    AndHighBits(sum, 32, k);
    Quotient(sum, Pow2(k));
  }

  /** For sectors of a power of two both roundings give the same size. */
  lemma RoundingsAgree(n: nat, k: nat)
    requires k <= 32
    ensures Pow2(k) <= UINT32 == Pow2(32)
    ensures MaskRounded(n, Pow2(k)) == DivisionRounded(n, Pow2(k))
  {
    Pow2Of32();
    var sector := Pow2(k);
    AndHighBits(0, 32, k);
    MaskOfSum((n + sector - 1) % UINT32, k);
  }

  lemma Pow2Of32()
    ensures Pow2(32) == UINT32
  {
    assert Pow2(8) == 0x100;
    assert Pow2(16) == 0x1_0000 by {
      assert Pow2(12) == 0x1000 by { assert Pow2(10) == 4 * Pow2(8); }
      assert Pow2(14) == 4 * Pow2(12);
    }
    assert Pow2(24) == 0x100_0000 by {
      assert Pow2(18) == 4 * Pow2(16) && Pow2(20) == 4 * Pow2(18) && Pow2(22) == 4 * Pow2(20);
    }
    assert Pow2(26) == 4 * Pow2(24) && Pow2(28) == 4 * Pow2(26) && Pow2(30) == 4 * Pow2(28);
  }

  // ---------- the chunk protocol ----------

  /** Erase once the device is done; an erase that reports kOk left its whole range blank. */
  ghost predicate EraseReport(flash: seq<bv8>, at: nat, n: nat, r: Report) {
    SameAround(flash, r.flash, at, n) && (r.ok ==> at + n <= |flash| && Blank(r.flash, at, n))
  }

  /** A write that reports kOk cleared exactly the bits that are zero in the data. */
  ghost predicate WriteReport(flash: seq<bv8>, at: nat, data: seq<bv8>, r: Report) {
    && SameAround(flash, r.flash, at, |data|)
    && (r.ok ==> at + |data| <= |flash| && forall i | at <= i < at + |data| :: r.flash[i] == flash[i] & data[i - at])
  }

  /** Erase; `image` is OFFSET_UIMAGE. */
  function Erase(s: Installer, n: nat, sector: nat, r: Report): (Installer, bool)
    requires sector > 0
  {
    (Installer(r.flash, n, DivisionRounded(n, sector), 0, if r.ok then ChunkWrite else s.chunkState), r.ok)
  }

  /** The guard of WriteChunk, in 32 bits. */
  predicate ChunkFits(s: Installer, size: nat) {
    (s.writeCount + size) % UINT32 <= s.firmwareSize
  }

  function WriteChunk(s: Installer, chunk: seq<bv8>, r: Report): (Installer, bool) {
    if !ChunkFits(s, |chunk|) then (s, false)
    else (s.(flash := r.flash, writeCount := (s.writeCount + |chunk|) % UINT32), r.ok)
  }

  function Complete(s: Installer): (Installer, bool) {
    (s.(writeCount := 0, chunkState := ChunkStart), s.chunkState == ChunkWrite && s.firmwareSize == s.writeCount)
  }

  function Concat(chunks: seq<seq<bv8>>): seq<bv8> {
    if chunks == [] then [] else Concat(chunks[..|chunks| - 1]) + chunks[|chunks| - 1]
  }

  /** One call of WriteChunk with whatever the device made of it. */
  ghost predicate ChunkStep(image: nat, s: Installer, chunk: seq<bv8>, r: Report, s': Installer) {
    && (ChunkFits(s, |chunk|) ==> WriteReport(s.flash, image + s.writeCount, chunk, r))
    && s' == WriteChunk(s, chunk, r).0
  }

  /** A run of calls: ss[0] is the state after Erase. */
  ghost predicate Sent(image: nat, chunks: seq<seq<bv8>>, reports: seq<Report>, ss: seq<Installer>) {
    && |ss| == |chunks| + 1 == |reports| + 1
    && forall k | 0 <= k < |chunks| :: ChunkStep(image, ss[k], chunks[k], reports[k], ss[k + 1])
  }

  /** The chunks the guard let through. */
  function Passed(chunks: seq<seq<bv8>>, ss: seq<Installer>): (r: seq<seq<bv8>>)
    requires |ss| == |chunks| + 1
  {
    if chunks == [] then []
    else
      var m := |chunks| - 1;
      Passed(chunks[..m], ss[..m + 1]) + if ChunkFits(ss[m], |chunks[m]|) then [chunks[m]] else []
  }

  /** Every chunk that passed the guard was reported as written. */
  ghost predicate AllReportedOk(chunks: seq<seq<bv8>>, reports: seq<Report>, ss: seq<Installer>)
    requires |ss| == |chunks| + 1 == |reports| + 1
  {
    forall k | 0 <= k < |chunks| :: ReportedOk(ss[k], chunks[k], reports[k])
  }

  predicate ReportedOk(s: Installer, chunk: seq<bv8>, r: Report) {
    ChunkFits(s, |chunk|) ==> r.ok
  }

  /** The part of the image that is written, the part that is still blank, and everything else. */
  ghost predicate Progress(before: seq<bv8>, image: nat, n: nat, erased: nat, data: seq<bv8>, s: Installer) {
    && s.chunkState == ChunkWrite && s.firmwareSize == n && s.writeCount == |data| <= n
    && n <= erased && image + erased <= |s.flash|
    && s.flash[image..image + |data|] == data
    && Blank(s.flash, image + |data|, erased - |data|)
    && SameAround(before, s.flash, image, erased)
  }

  lemma ErasedProgress(s: Installer, image: nat, n: nat, sector: nat, r: Report)
    requires sector > 0 && n + sector - 1 < UINT32
    requires EraseReport(s.flash, image, DivisionRounded(n, sector), r) && r.ok
    ensures Progress(s.flash, image, n, DivisionRounded(n, sector), [], Erase(s, n, sector, r).0)
  {
    RoundedLeast(n, sector);
  }

  /** In a flash within the 32-bit addresses a chunk that was written did not wrap the counter. */
  lemma ChunkProgress(before: seq<bv8>, image: nat, n: nat, erased: nat, data: seq<bv8>,
                      s: Installer, chunk: seq<bv8>, r: Report, s': Installer)
    requires Progress(before, image, n, erased, data, s) && |s.flash| < UINT32
    requires ChunkStep(image, s, chunk, r, s') && ChunkFits(s, |chunk|) && r.ok
    ensures Progress(before, image, n, erased, data + chunk, s')
  {
    var at, f := image + |data|, r.flash;
    assert (s.writeCount + |chunk|) % UINT32 == |data| + |chunk|;
    forall i | at <= i < at + |chunk| ensures f[i] == chunk[i - at] {
      OnesHaveAllBits(chunk[i - at]);
    }
    ChunkInPlace(s.flash, f, image, data, chunk);
  }

  lemma ChunkInPlace(f: seq<bv8>, f': seq<bv8>, image: nat, data: seq<bv8>, chunk: seq<bv8>)
    requires image + |data| + |chunk| <= |f| && SameAround(f, f', image + |data|, |chunk|)
    requires f[image..image + |data|] == data
    requires forall i | image + |data| <= i < image + |data| + |chunk| :: f'[i] == chunk[i - image - |data|]
    ensures f'[image..image + |data + chunk|] == data + chunk
  {
    assert f'[image..image + |data|] == f[image..image + |data|];
    assert f'[image + |data|..image + |data| + |chunk|] == chunk;
  }

  lemma {:induction false} SentProgress(before: seq<bv8>, image: nat, n: nat, erased: nat,
                                        chunks: seq<seq<bv8>>, reports: seq<Report>, ss: seq<Installer>)
    requires Sent(image, chunks, reports, ss) && AllReportedOk(chunks, reports, ss)
    requires Progress(before, image, n, erased, [], ss[0]) && |before| < UINT32
    ensures Progress(before, image, n, erased, Concat(Passed(chunks, ss)), ss[|chunks|])
  {
    if chunks != [] {
      var m := |chunks| - 1;
      SentPrefix(image, chunks, reports, ss);
      SentProgress(before, image, n, erased, chunks[..m], reports[..m], ss[..m + 1]);
      LastPassed(chunks, ss);
      if ChunkFits(ss[m], |chunks[m]|) {
        var data := Concat(Passed(chunks[..m], ss[..m + 1]));
        ChunkProgress(before, image, n, erased, data, ss[m], chunks[m], reports[m], ss[m + 1]);
      }
    }
  }

  lemma SentPrefix(image: nat, chunks: seq<seq<bv8>>, reports: seq<Report>, ss: seq<Installer>)
    requires Sent(image, chunks, reports, ss) && chunks != []
    ensures var m := |chunks| - 1;
            && Sent(image, chunks[..m], reports[..m], ss[..m + 1])
            && ChunkStep(image, ss[m], chunks[m], reports[m], ss[m + 1])
    ensures AllReportedOk(chunks, reports, ss) ==>
              var m := |chunks| - 1;
              && AllReportedOk(chunks[..m], reports[..m], ss[..m + 1])
              && ReportedOk(ss[m], chunks[m], reports[m])
  {
  }

  /** What the last chunk adds to the data. */
  lemma LastPassed(chunks: seq<seq<bv8>>, ss: seq<Installer>)
    requires |ss| == |chunks| + 1 && chunks != []
    ensures var m := |chunks| - 1;
            Concat(Passed(chunks, ss)) ==
              Concat(Passed(chunks[..m], ss[..m + 1])) + if ChunkFits(ss[m], |chunks[m]|) then chunks[m] else []
  {
    var m := |chunks| - 1;
    var p := Passed(chunks[..m], ss[..m + 1]);
    if ChunkFits(ss[m], |chunks[m]|) {
      assert (p + [chunks[m]])[..|p|] == p;
    } else {
      assert p + [] == p && Concat(p) + [] == Concat(p);
    }
  }

  // ---------- the verdict ----------

  /** What no chunk changes, and the count of everything the guard let through, in 32 bits. */
  lemma {:induction false} SentCount(image: nat, chunks: seq<seq<bv8>>, reports: seq<Report>, ss: seq<Installer>)
    requires Sent(image, chunks, reports, ss) && ss[0].writeCount == 0
    ensures var s := ss[|chunks|];
            && s.chunkState == ss[0].chunkState && s.firmwareSize == ss[0].firmwareSize
            && s.writeCount == |Concat(Passed(chunks, ss))| % UINT32
  {
    if chunks != [] {
      var m := |chunks| - 1;
      SentPrefix(image, chunks, reports, ss);
      SentCount(image, chunks[..m], reports[..m], ss[..m + 1]);
      LastPassed(chunks, ss);
      ModOfSum(|Concat(Passed(chunks[..m], ss[..m + 1]))|, |chunks[m]|);
    }
  }

  lemma ModOfSum(a: nat, b: nat)
    ensures (a % UINT32 + b) % UINT32 == (a + b) % UINT32
  {
  }

  /**
   Over every run of an Erase and chunks, whatever the device reports, the verdict is true exactly if
   this erase or an earlier one succeeded and the lengths the guard let through add up to n in 32 bits.
   */
  lemma Verdict(s: Installer, image: nat, n: nat, sector: nat, r: Report,
                chunks: seq<seq<bv8>>, reports: seq<Report>, ss: seq<Installer>)
    requires sector > 0 && Sent(image, chunks, reports, ss)
    requires ss[0] == Erase(s, n, sector, r).0
    ensures Complete(ss[|chunks|]).1 <==>
            (r.ok || s.chunkState == ChunkWrite) && |Concat(Passed(chunks, ss))| % UINT32 == n
  {
    SentCount(image, chunks, reports, ss);
  }

  /** A completion ends the installation: the next one begins with no count and without an erase. */
  lemma CompletionEnds(s: Installer)
    ensures var (s', verdict) := Complete(s);
            && s'.writeCount == 0 && s'.chunkState != ChunkWrite && !Complete(s').1 && s'.flash == s.flash
            && (verdict <==> s.chunkState == ChunkWrite && s.writeCount == s.firmwareSize)
  {
  }

  /**
   Two installations in a row: after a completion, whatever it was, the verdict of the next one needs a
   successful erase of its own.
   */
  lemma VerdictAfterCompletion(s: Installer, image: nat, n: nat, sector: nat, r: Report,
                               chunks: seq<seq<bv8>>, reports: seq<Report>, ss: seq<Installer>)
    requires sector > 0 && Sent(image, chunks, reports, ss)
    requires ss[0] == Erase(Complete(s).0, n, sector, r).0
    ensures Complete(ss[|chunks|]).1 <==> r.ok && |Concat(Passed(chunks, ss))| % UINT32 == n
  {
    Verdict(Complete(s).0, image, n, sector, r, chunks, reports, ss);
  }

  /** Erase answers the device's report, starts the count and takes whole sectors that hold n bytes. */
  lemma EraseAnswer(s: Installer, n: nat, sector: nat, r: Report)
    requires sector > 0 && n + sector - 1 < UINT32
    ensures var (s', ok) := Erase(s, n, sector, r);
            && ok == r.ok && s'.flash == r.flash && s'.firmwareSize == n && s'.writeCount == 0
            && s'.eraseSize % sector == 0 && n <= s'.eraseSize < n + sector
  {
    RoundedLeast(n, sector);
  }

  /** WriteChunk says true exactly if the chunk was let through and reported as written. */
  lemma ChunkAnswer(s: Installer, chunk: seq<bv8>, r: Report)
    requires s.writeCount + |chunk| < UINT32
    ensures var (s', ok) := WriteChunk(s, chunk, r);
            && (ok <==> s.writeCount + |chunk| <= s.firmwareSize && r.ok)
            && s' == if s.writeCount + |chunk| <= s.firmwareSize
                     then s.(flash := r.flash, writeCount := s.writeCount + |chunk|) else s
  {
  }

  /**
   If the device reported every operation of the run as done, the flash holds the chunks that passed
   the guard, one after the other from the image offset on, the verdict is true exactly when they are n
   bytes, and nothing outside the erased range has changed.
   */
  lemma InstallExact(s: Installer, image: nat, n: nat, sector: nat, r: Report,
                     chunks: seq<seq<bv8>>, reports: seq<Report>, ss: seq<Installer>)
    requires sector > 0 && n + sector - 1 < UINT32
    requires Sent(image, chunks, reports, ss) && AllReportedOk(chunks, reports, ss) && |s.flash| < UINT32
    requires EraseReport(s.flash, image, DivisionRounded(n, sector), r) && r.ok && ss[0] == Erase(s, n, sector, r).0
    ensures var done, data := ss[|chunks|], Concat(Passed(chunks, ss));
            && (Complete(done).1 <==> |data| == n)
            && |data| <= n && image + n <= |done.flash|
            && done.flash[image..image + |data|] == data
            && SameAround(s.flash, done.flash, image, DivisionRounded(n, sector))
  {
    ErasedProgress(s, image, n, sector, r);
    SentProgress(s.flash, image, n, DivisionRounded(n, sector), chunks, reports, ss);
  }

  // ---------- where the verdict is not enough ----------

  /** An Erase and one chunk, each with its report. */
  ghost predicate OneChunk(s: Installer, n: nat, r: Report, chunk: seq<bv8>, w: Report, s': Installer) {
    var e := Erase(s, n, 1, r).0;
    && EraseReport(s.flash, 0, DivisionRounded(n, 1), r)
    && ChunkFits(e, |chunk|) && WriteReport(e.flash, 0, chunk, w)
    && s' == WriteChunk(e, chunk, w).0
  }

  /** A chunk the device failed to write is counted: WriteChunk says false, and yet the verdict is true. */
  lemma FailedWriteAccepted(s: Installer) returns (s': Installer)
    requires s.flash == [0x00]
    ensures OneChunk(s, 1, Report([0xFF], true), [0x00], Report([0xFF], false), s')
    ensures !WriteChunk(Erase(s, 1, 1, Report([0xFF], true)).0, [0x00], Report([0xFF], false)).1
    ensures Complete(s').1 && s'.flash != [0x00]
  {
    s' := WriteChunk(Erase(s, 1, 1, Report([0xFF], true)).0, [0x00], Report([0xFF], false)).0;
  }

  /**
   A second installation whose erase fails after a good one that was not completed: its chunk is
   written over the old content, WriteChunk says true, and so does the verdict.
   */
  lemma FailedEraseAccepted(s: Installer) returns (s1: Installer, s2: Installer)
    requires s.flash == [0xFF]
    ensures OneChunk(s, 1, Report([0xFF], true), [0x00], Report([0x00], true), s1)
    ensures OneChunk(s1, 1, Report([0x00], false), [0xFF], Report([0x00], true), s2)
    ensures !Erase(s1, 1, 1, Report([0x00], false)).1
    ensures Complete(s2).1 && s2.flash != [0xFF]
  {
    s1 := WriteChunk(Erase(s, 1, 1, Report([0xFF], true)).0, [0x00], Report([0x00], true)).0;
    s2 := WriteChunk(Erase(s1, 1, 1, Report([0x00], false)).0, [0xFF], Report([0x00], true)).0;
  }

  /** The guard holds back exactly the chunks that do not fit, unless the 32-bit sum wraps back below the size. */
  lemma ChunkGuardIff(s: Installer, size: nat)
    requires s.writeCount < UINT32 && s.firmwareSize < UINT32 && size < UINT32
    ensures (ChunkFits(s, size) <==> s.writeCount + size <= s.firmwareSize) <==>
            (s.writeCount + size < UINT32 || s.writeCount + size - UINT32 > s.firmwareSize)
  {
  }

  /** A counter at 1 of 1 and a chunk of 2^32 - 1 bytes: the guard lets it through. */
  lemma ChunkGuardWraps(s: Installer)
    requires s.writeCount == 1 && s.firmwareSize == 1
    ensures ChunkFits(s, 0xFFFF_FFFF) && s.writeCount + 0xFFFF_FFFF > s.firmwareSize
  {
  }

  /** Firmware of 2^32 - 1 bytes in sectors of 4096: nothing would be erased. */
  lemma RoundingWraps()
    ensures DivisionRounded(0xFFFF_FFFF, 4096) == 0
  {
  }
}
