/**
 lib-clib/src/uuid_unparse.cpp and lib-clib/src/uuid_parse.cpp: the loops and shifts, proved to print
 and read the text of UuidModel.
 */
module Uuid {
  import opened Numbers
  import opened Digits
  import opened PrintfModel
  import opened FormatSteps
  import opened Options
  import opened UuidModel
  import Printf

  // ---------- printing ----------

  method UuidUnpack(uu: array<Byte>) returns (f: Fields)
    requires uu.Length == 16
    ensures f == Unpacked(uu[..])
  {
    var tmp: nat := uu[0];
    tmp := tmp * 0x100 + uu[1];
    tmp := tmp * 0x100 + uu[2];
    tmp := tmp * 0x100 + uu[3];
    var timeLow := tmp;
    tmp := uu[4];
    tmp := tmp * 0x100 + uu[5];
    var timeMid := tmp;
    tmp := uu[6];
    tmp := tmp * 0x100 + uu[7];
    var timeHi := tmp;
    tmp := uu[8];
    tmp := tmp * 0x100 + uu[9];
    f := Fields(timeLow, timeMid, timeHi, tmp, uu[10..16]);
    BigEndianBound(uu[..][0..4]);
    BigEndianBound(uu[..][4..6]);
    BigEndianBound(uu[..][6..8]);
    BigEndianBound(uu[..][8..10]);
  }

  /** uuid_unparse_lower and uuid_unparse_upper. */
  method UuidUnparse(p: Printf.Printer, uu: array<Byte>, out: array<char>, upper: bool)
    requires uu.Length == 16 && out.Length >= 37
    modifies p, out
    ensures out[..36] == Text(uu[..], upper) && out[36] == NUL
  {
    ghost var u := uu[..];
    var f := UuidUnpack(uu);
    UnparseOutput(u, upper);
    var n := p.Sprintf(out, Format(upper), FormatArgs(f));
  }

  // ---------- reading ----------

  /** HexUint32 from position i on: 32-bit shifts until a character is no digit. */
  function HexRun(s: string, i: nat, acc: nat): nat
    decreases |s| - i
  {
    if i < |s| && IsHex(s[i]) then HexRun(s, i + 1, (acc * 16 + DigitValue(s[i])) % UINT32) else acc
  }

  method HexUint32(s: string, from: nat) returns (ret: nat)
    ensures ret == HexRun(s, from, 0)
  {
    var i := from;
    ret := 0;
    while i < |s|
      invariant from <= i
      invariant HexRun(s, from, 0) == HexRun(s, i, ret)
      decreases |s| - i
    {
      var d := s[i];
      if !IsHex(d) {
        break;
      }
      var nibble := DigitValue(d);
      ret := (ret * 16 + nibble) % UINT32;
      i := i + 1;
    }
  }

  lemma HexPair(s: string, i: nat, acc: nat)
    requires i + 1 < |s| && IsHex(s[i]) && IsHex(s[i + 1])
    requires acc < 0x100_0000
    ensures HexRun(s, i, acc) == HexRun(s, i + 2, acc * 256 + ByteAt(s, i))
  {
    HexDigitRead(s, i, acc);
    HexDigitRead(s, i + 1, acc * 16 + DigitValue(s[i]));
  }

  lemma HexDigitRead(s: string, i: nat, acc: nat)
    requires i < |s| && IsHex(s[i]) && acc < 0x1000_0000
    ensures HexRun(s, i, acc) == HexRun(s, i + 1, acc * 16 + DigitValue(s[i]))
    ensures acc < 0x100_0000 ==> acc * 16 + DigitValue(s[i]) < 0x1000_0000
  {
    DigitOfValue(s[i]);
    SmallAcc(acc, DigitValue(s[i]));
  }

  lemma SmallAcc(acc: nat, d: nat)
    requires acc < 0x1000_0000 && d < 16
    ensures (acc * 16 + d) % UINT32 == acc * 16 + d
  {
  }

  /** Two digits and then no digit: one byte. */
  lemma ByteRead(s: string, i: nat)
    requires i + 1 < |s| && IsHex(s[i]) && IsHex(s[i + 1])
    requires i + 2 == |s| || !IsHex(s[i + 2])
    ensures HexRun(s, i, 0) == ByteAt(s, i)
  {
    HexPair(s, i, 0);
  }

  lemma TwoBytesRead(s: string, i: nat)
    requires i + 4 < |s| && !IsHex(s[i + 4])
    requires IsHex(s[i]) && IsHex(s[i + 1]) && IsHex(s[i + 2]) && IsHex(s[i + 3])
    ensures HexRun(s, i, 0) == 256 * (ByteAt(s, i) as int) + ByteAt(s, i + 2)
  {
    HexPair(s, i, 0);
    HexPair(s, i + 2, ByteAt(s, i));
  }

  lemma FourPairs(s: string)
    requires |s| > 8 && !IsHex(s[8]) && forall i | 0 <= i < 8 :: IsHex(s[i])
    ensures HexRun(s, 0, 0) == 0x100_0000 * (ByteAt(s, 0) as int) + 0x1_0000 * (ByteAt(s, 2) as int)
                               + 0x100 * (ByteAt(s, 4) as int) + ByteAt(s, 6)
  {
    var b0, b1, b2 := ByteAt(s, 0), ByteAt(s, 2), ByteAt(s, 4);
    ThreePairs(s);
    HexPair(s, 6, 65536 * (b0 as int) + 256 * (b1 as int) + b2);
  }

  lemma ThreePairs(s: string)
    requires |s| > 8 && forall i | 0 <= i < 8 :: IsHex(s[i])
    ensures var first := 0x1_0000 * (ByteAt(s, 0) as int) + 0x100 * (ByteAt(s, 2) as int) + ByteAt(s, 4);
            HexRun(s, 0, 0) == HexRun(s, 6, first)
  {
    var b0, b1 := ByteAt(s, 0), ByteAt(s, 2);
    HexPair(s, 0, 0);
    HexPair(s, 2, b0);
    HexPair(s, 4, 256 * (b0 as int) + b1);
  }

  lemma FourBytesRead(s: string)
    requires IsUuidText(s)
    ensures HexRun(s, 0, 0) == BigEndian(Bytes(s)[0..4])
  {
    FourPairs(s);
    BigEndianBound(Bytes(s)[0..4]);
  }

  /** The two-byte groups start at bytes 4, 6 and 8. */
  lemma ShortRead(s: string, m: nat)
    requires IsUuidText(s) && (m == 4 || m == 6 || m == 8)
    ensures HexRun(s, DigitPlace(m), 0) == BigEndian(Bytes(s)[m..m + 2]) < 0x1_0000
  {
    TwoBytesRead(s, DigitPlace(m));
    BigEndianBound(Bytes(s)[m..m + 2]);
  }

  lemma LongBytes(v: nat, b: seq<Byte>)
    requires |b| == 4 && v == BigEndian(b)
    ensures v % 0x100 == b[3] && v / 0x100 % 0x100 == b[2]
    ensures v / 0x100 / 0x100 % 0x100 == b[1] && v / 0x100 / 0x100 / 0x100 % 0x100 == b[0]
  {
    BigEndianBound(b);
    var w: nat := 0x1_0000 * (b[0] as int) + 0x100 * (b[1] as int) + b[2];
    assert v == 0x100 * w + b[3];
    assert w / 0x100 == 0x100 * (b[0] as int) + b[1];
  }

  /** out[3] down to out[0] from the low bytes of tmp. */
  method PackLong(timeLow: nat, ghost b: seq<Byte>, out: array<Byte>)
    requires |b| == 4 && timeLow == BigEndian(b) && out.Length == 16
    modifies out
    ensures out[..4] == b
  {
    LongBytes(timeLow, b);
    var tmp := timeLow;
    out[3] := tmp % 0x100;
    tmp := tmp / 0x100;
    out[2] := tmp % 0x100;
    tmp := tmp / 0x100;
    out[1] := tmp % 0x100;
    tmp := tmp / 0x100;
    out[0] := tmp % 0x100;
  }

  method PackShort(v: nat, ghost b: seq<Byte>, out: array<Byte>, at: nat)
    requires |b| == 2 && v == BigEndian(b) && out.Length == 16 && at + 2 <= 16
    modifies out
    ensures out[at..at + 2] == b && out[..at] == old(out[..at])
  {
    BigEndianBound(b);
    var tmp := v;
    out[at + 1] := tmp % 0x100;
    tmp := tmp / 0x100;
    out[at] := tmp % 0x100;
  }

  method UuidPack(f: Fields, ghost u: seq<Byte>, out: array<Byte>)
    requires |u| == 16 && f == Unpacked(u) && out.Length == 16
    modifies out
    ensures out[..] == u
  {
    PackLong(f.timeLow, u[0..4], out);
    PackShort(f.timeMid, u[4..6], out, 4);
    assert out[..6] == u[..6];
    PackShort(f.timeHiAndVersion, u[6..8], out, 6);
    assert out[..8] == u[..8];
    PackShort(f.clockSeq, u[8..10], out, 8);
    assert out[..10] == u[..10];
    forall i | 0 <= i < 6 {
      out[10 + i] := f.node[i];
    }
    assert out[..10] == u[..10] && out[10..] == u[10..];
  }

  /** The loop that checks the shape of the text. */
  method CheckShape(s: string) returns (ok: bool)
    ensures ok <==> IsUuidText(s)
  {
    if |s| != 36 {
      return false;
    }
    var i := 0;
    while i <= 36
      invariant 0 <= i <= 37
      invariant forall k | 0 <= k < i && k < 36 :: if IsDash(k) then s[k] == '-' else IsHex(s[k])
    {
      if i == 8 || i == 13 || i == 18 || i == 23 {
        if s[i] != '-' {
          return false;
        }
      } else if i < 36 && !IsHex(s[i]) {
        return false;
      }
      i := i + 1;
    }
    ok := true;
  }

  /** uuid_parse: 0 and the bytes, or -1 and an untouched buffer. */
  method UuidParse(s: string, uu: array<Byte>) returns (r: int)
    requires uu.Length == 16
    modifies uu
    ensures r == if Parse(s).Some? then 0 else -1
    ensures uu[..] == if Parse(s).Some? then Parse(s).value else old(uu[..])
  {
    var ok := CheckShape(s);
    if !ok {
      return -1;
    }
    var f := ReadFields(s);
    UuidPack(f, Bytes(s), uu);
    r := 0;
  }

  function AsUint16(v: nat): nat {
    v % 0x1_0000
  }

  method ReadLong(s: string) returns (v: nat)
    requires IsUuidText(s)
    ensures v == BigEndian(Bytes(s)[0..4])
  {
    FourBytesRead(s);
    v := HexUint32(s, 0);
  }

  method ReadShort(s: string, at: nat, ghost m: nat) returns (v: nat)
    requires IsUuidText(s) && (m == 4 || m == 6 || m == 8) && at == DigitPlace(m)
    ensures v == BigEndian(Bytes(s)[m..m + 2])
  {
    ShortRead(s, m);
    v := HexUint32(s, at);
    v := AsUint16(v);
  }

  method ReadFields(s: string) returns (f: Fields)
    requires IsUuidText(s)
    ensures f == Unpacked(Bytes(s))
  {
    var low := ReadLong(s);
    var mid := ReadShort(s, 9, 4);
    var hi := ReadShort(s, 14, 6);
    var clock := ReadShort(s, 19, 8);
    var node := ReadNode(s);
    f := Fields(low, mid, hi, clock, node);
  }

  lemma NodeByte(s: string, k: nat)
    requires IsUuidText(s) && k < 6
    ensures HexRun([s[24 + 2 * k], s[25 + 2 * k]], 0, 0) == Bytes(s)[10 + k]
  {
    ByteRead([s[24 + 2 * k], s[25 + 2 * k]], 0);
  }

  method ReadByte(s: string, k: nat) returns (b: Byte)
    requires IsUuidText(s) && k < 6
    ensures b == Bytes(s)[10 + k]
  {
    NodeByte(s, k);
    var n := HexUint32([s[24 + 2 * k], s[25 + 2 * k]], 0);
    b := n % 0x100;
  }

  /** The loop over the six node bytes, two characters at a time. */
  method ReadNode(s: string) returns (node: seq<Byte>)
    requires IsUuidText(s)
    ensures node == Bytes(s)[10..16]
  {
    node := [];
    var cp := 24;
    ghost var u := Bytes(s);
    while |node| < 6
      invariant |node| <= 6 && cp == 24 + 2 * |node|
      invariant node == u[10..10 + |node|]
    {
      var b := ReadByte(s, (cp - 24) / 2);
      assert u[10..10 + |node|] + [u[10 + |node|]] == u[10..10 + (|node| + 1)];
      node := node + [b];
      cp := cp + 2;
    }
  }
}
