/**
 The text of a UUID (section 3 of RFC 4122): what lib-clib/src/uuid_unparse.cpp must print and
 lib-clib/src/uuid_parse.cpp must read.
 */
module UuidModel {
  import opened Numbers
  import opened Digits
  import opened PrintfModel
  import opened FormatSteps
  import opened Options

  /** struct uuid. */
  datatype Fields = Fields(timeLow: nat, timeMid: nat, timeHiAndVersion: nat, clockSeq: nat, node: seq<Byte>)

  // ---------- printing ----------

  /** The canonical text, digit by digit from the sixteen bytes. */
  function Text(u: seq<Byte>, upper: bool): (s: string)
    requires |u| == 16
    ensures |s| == 36
  {
    HexBytes(u[0..4], upper) + ("-" + (HexBytes(u[4..6], upper) + ("-" + (HexBytes(u[6..8], upper) + ("-" +
    (HexBytes(u[8..10], upper) + ("-" + HexBytes(u[10..16], upper))))))))
  }

  /** kFmtLower and kFmtUpper, cut where the groups meet. */
  function Format(upper: bool): (f: string)
    ensures |f| == 48
  {
    Group8(upper) + Group4(upper) + Group4(upper) + Clock(upper) + Node(upper)
  }

  function Group8(upper: bool): (f: string)
    ensures |f| == 5
  {
    if upper then "%08X-" else "%08x-"
  }

  function Group4(upper: bool): (f: string)
    ensures |f| == 5
  {
    if upper then "%04X-" else "%04x-"
  }

  function Clock(upper: bool): (f: string)
    ensures |f| == 9
  {
    if upper then "%02X%02X-" else "%02x%02x-"
  }

  function Node(upper: bool): (f: string)
    ensures |f| == 24
  {
    if upper then "%02X%02X%02X" + "%02X%02X%02X" else "%02x%02x%02x" + "%02x%02x%02x"
  }

  function ByteArgs(b: seq<Byte>): seq<Arg> {
    if b == [] then [] else [IntArg(b[0])] + ByteArgs(b[1..])
  }

  /** The arguments of the sprintf call. */
  function FormatArgs(f: Fields): seq<Arg> {
    [IntArg(f.timeLow)] + ([IntArg(f.timeMid)] + ([IntArg(f.timeHiAndVersion)] +
    (ByteArgs([(f.clockSeq / 256 % 256) as Byte, (f.clockSeq % 256) as Byte]) + ByteArgs(f.node))))
  }

  function Unpacked(u: seq<Byte>): Fields
    requires |u| == 16
  {
    Fields(BigEndian(u[0..4]), BigEndian(u[4..6]), BigEndian(u[6..8]), BigEndian(u[8..10]), u[10..16])
  }

  lemma {:induction false} HexBytesConcat(a: seq<Byte>, b: seq<Byte>, upper: bool)
    ensures HexBytes(a + b, upper) == HexBytes(a, upper) + HexBytes(b, upper)
  {
    if b == [] {
      assert a + b == a;
    } else {
      HexBytesConcat(a, b[..|b| - 1], upper);
      assert (a + b)[..|a + b| - 1] == a + b[..|b| - 1];
    }
  }

  /** n fields "%02x" stand one after the other from position i on. */
  predicate FieldsAt(f: string, i: nat, n: nat, upper: bool)
    decreases n
  {
    n > 0 ==> HexFieldAt(f, i, 2, upper) && FieldsAt(f, i + 4, n - 1, upper)
  }

  /** Fields "%02x" one after the other, from position i on. */
  lemma {:induction false} BytesStep(f: string, i: nat, b: seq<Byte>, upper: bool, args: seq<Arg>, end: nat)
    requires FieldsAt(f, i, |b|, upper) && end == i + 4 * |b|
    ensures Rendered(f, i, ByteArgs(b) + args) == HexBytes(b, upper) + Rendered(f, end, args)
    decreases |b|
  {
    if b == [] {
      assert end == i && ByteArgs(b) + args == args;
      assert HexBytes(b, upper) + Rendered(f, end, args) == Rendered(f, end, args);
    } else {
      var t := b[1..];
      BytesStep(f, i + 4, t, upper, args, end);
      OneByteStep(f, i, b[0], upper, ByteArgs(t) + args);
      FirstByte(b, upper, args, Rendered(f, end, args));
    }
  }

  lemma FirstByte(b: seq<Byte>, upper: bool, args: seq<Arg>, rest: string)
    requires b != []
    ensures ByteArgs(b) + args == [IntArg(b[0])] + (ByteArgs(b[1..]) + args)
    ensures HexBytes(b, upper) + rest == HexBytes([b[0]], upper) + (HexBytes(b[1..], upper) + rest)
  {
    var h, t := [b[0]], b[1..];
    assert h + t == b;
    HexBytesConcat(h, t, upper);
    Associate(HexBytes(h, upper), HexBytes(t, upper), rest);
    Associate([IntArg(b[0])], ByteArgs(t), args);
  }

  lemma OneByteStep(f: string, i: nat, b: Byte, upper: bool, args: seq<Arg>)
    requires HexFieldAt(f, i, 2, upper)
    ensures Rendered(f, i, [IntArg(b)] + args) == HexBytes([b], upper) + Rendered(f, i + 4, args)
  {
    assert BigEndian([b]) == b;
    HexFieldStep(f, i, 2, upper, b, args);
    HexFieldText([b], upper);
  }

  lemma Associate<T>(a: seq<T>, b: seq<T>, c: seq<T>)
    ensures (a + b) + c == a + (b + c)
  {
  }

  /** A field "%08x" or "%04x" followed by a dash. */
  lemma GroupStep(f: string, i: nat, b: seq<Byte>, upper: bool, args: seq<Arg>)
    requires 1 <= |b| <= 4 && HexFieldAt(f, i, 2 * |b|, upper) && i + 5 <= |f| && f[i + 4] == '-'
    ensures Rendered(f, i, [IntArg(BigEndian(b))] + args) == HexBytes(b, upper) + ("-" + Rendered(f, i + 5, args))
  {
    BigEndianBound(b);
    HexFieldStep(f, i, 2 * |b|, upper, BigEndian(b), args);
    HexFieldText(b, upper);
  }

  lemma {:induction false} BigEndianBound(b: seq<Byte>)
    requires |b| <= 4
    ensures BigEndian(b) < UINT32
    ensures |b| == 2 ==> BigEndian(b) == 256 * (b[0] as int) + b[1]
    ensures |b| == 4 ==> BigEndian(b) == 0x100_0000 * (b[0] as int) + 0x1_0000 * (b[1] as int)
                                         + 0x100 * (b[2] as int) + b[3]
  {
    if |b| >= 1 {
      var c := b[..|b| - 1];
      assert BigEndian(b) == BigEndian(c) * 256 + b[|b| - 1];
      if |c| >= 1 {
        var d := c[..|c| - 1];
        assert BigEndian(c) == BigEndian(d) * 256 + c[|c| - 1];
        if |d| >= 1 {
          var e := d[..|d| - 1];
          assert BigEndian(d) == BigEndian(e) * 256 + d[|d| - 1];
          assert |e| == 1 ==> BigEndian(e) == BigEndian([]) * 256 + e[0] by {
            assert |e| == 1 ==> e[..0] == [];
          }
        }
      }
    }
  }

  /** A format with the groups of a UUID in their places. */
  ghost predicate UuidFormat(f: string, upper: bool) {
    && |f| == 48 && f[4] == '-' && f[9] == '-' && f[14] == '-' && f[23] == '-'
    && HexFieldAt(f, 0, 8, upper) && HexFieldAt(f, 5, 4, upper) && HexFieldAt(f, 10, 4, upper)
    && FieldsAt(f, 15, 2, upper) && FieldsAt(f, 24, 6, upper)
  }

  lemma TwoGroups(f: string, upper: bool, b: seq<Byte>, c: seq<Byte>, args: seq<Arg>)
    requires UuidFormat(f, upper) && |b| == |c| == 2
    ensures Rendered(f, 5, [IntArg(BigEndian(b))] + ([IntArg(BigEndian(c))] + args)) ==
            HexBytes(b, upper) + ("-" + (HexBytes(c, upper) + ("-" + Rendered(f, 15, args))))
  {
    GroupStep(f, 10, c, upper, args);
    GroupStep(f, 5, b, upper, [IntArg(BigEndian(c))] + args);
  }

  lemma FirstGroup(f: string, upper: bool, a: seq<Byte>, args: seq<Arg>)
    requires UuidFormat(f, upper) && |a| == 4
    ensures Rendered(f, 0, [IntArg(BigEndian(a))] + args) == HexBytes(a, upper) + ("-" + Rendered(f, 5, args))
  {
    GroupStep(f, 0, a, upper, args);
  }

  lemma ThreeGroups(f: string, upper: bool, a: seq<Byte>, b: seq<Byte>, c: seq<Byte>, args: seq<Arg>)
    requires UuidFormat(f, upper) && |a| == 4 && |b| == |c| == 2
    ensures Output(f, [IntArg(BigEndian(a))] + ([IntArg(BigEndian(b))] + ([IntArg(BigEndian(c))] + args))) ==
            HexBytes(a, upper) + ("-" + (HexBytes(b, upper) + ("-" +
            (HexBytes(c, upper) + ("-" + Rendered(f, 15, args))))))
  {
    TwoGroups(f, upper, b, c, args);
    FirstGroup(f, upper, a, [IntArg(BigEndian(b))] + ([IntArg(BigEndian(c))] + args));
  }

  lemma ClockAndNode(f: string, upper: bool, clock: seq<Byte>, node: seq<Byte>)
    requires UuidFormat(f, upper) && |clock| == 2 && |node| == 6
    ensures Rendered(f, 15, ByteArgs(clock) + ByteArgs(node)) == HexBytes(clock, upper) + ("-" + HexBytes(node, upper))
  {
    BytesStep(f, 15, clock, upper, ByteArgs(node), 23);
    BytesStep(f, 24, node, upper, [], 48);
    assert ByteArgs(node) + [] == ByteArgs(node) && HexBytes(node, upper) + [] == HexBytes(node, upper);
    assert Rendered(f, 48, []) == [];
  }

  lemma ClockBytes(b: seq<Byte>)
    requires |b| == 2
    ensures [(BigEndian(b) / 256 % 256) as Byte, (BigEndian(b) % 256) as Byte] == b
  {
    BigEndianBound(b);
  }

  /** What sprintf makes of the fields is the canonical text. */
  lemma UnparseOutput(u: seq<Byte>, upper: bool)
    requires |u| == 16
    ensures Output(Format(upper), FormatArgs(Unpacked(u))) == Text(u, upper)
  {
    FormatIsUuid(upper);
    ClockBytes(u[8..10]);
    ClockAndNode(Format(upper), upper, u[8..10], u[10..16]);
    ThreeGroups(Format(upper), upper, u[0..4], u[4..6], u[6..8], ByteArgs(u[8..10]) + ByteArgs(u[10..16]));
  }

  lemma FormatIsUuid(upper: bool)
    ensures UuidFormat(Format(upper), upper)
  {
    GroupsInPlace(upper);
    ClockInPlace(upper);
    NodeInPlace(upper);
  }

  /** Where the fields and dashes of the format are. */
  lemma GroupsInPlace(upper: bool)
    ensures HexFieldAt(Format(upper), 0, 8, upper) && Format(upper)[4] == '-'
    ensures HexFieldAt(Format(upper), 5, 4, upper) && Format(upper)[9] == '-'
    ensures HexFieldAt(Format(upper), 10, 4, upper) && Format(upper)[14] == '-'
  {
  }

  lemma ClockInPlace(upper: bool)
    ensures FieldsAt(Format(upper), 15, 2, upper) && Format(upper)[23] == '-'
  {
    var f, c := Format(upper), Clock(upper);
    assert forall k | 0 <= k < 9 :: f[15 + k] == c[k];
    assert HexFieldAt(f, 15, 2, upper) && HexFieldAt(f, 19, 2, upper);
    assert FieldsAt(f, 19, 1, upper);
  }

  lemma NodeInPlace(upper: bool)
    ensures FieldsAt(Format(upper), 24, 6, upper)
  {
    var f, n := Format(upper), Node(upper);
    assert forall k | 0 <= k < 24 :: f[24 + k] == n[k];
    NodeFields(upper);
    assert FieldsAt(f, 48, 0, upper);
    assert HexFieldAt(f, 44, 2, upper) && FieldsAt(f, 44, 1, upper);
    assert HexFieldAt(f, 40, 2, upper) && FieldsAt(f, 40, 2, upper);
    assert HexFieldAt(f, 36, 2, upper) && FieldsAt(f, 36, 3, upper);
    assert HexFieldAt(f, 32, 2, upper) && FieldsAt(f, 32, 4, upper);
    assert HexFieldAt(f, 28, 2, upper) && FieldsAt(f, 28, 5, upper);
    assert HexFieldAt(f, 24, 2, upper);
  }

  lemma NodeFields(upper: bool)
    ensures HexFieldAt(Node(upper), 0, 2, upper) && HexFieldAt(Node(upper), 4, 2, upper)
    ensures HexFieldAt(Node(upper), 8, 2, upper) && HexFieldAt(Node(upper), 12, 2, upper)
    ensures HexFieldAt(Node(upper), 16, 2, upper) && HexFieldAt(Node(upper), 20, 2, upper)
  {
  }

  // ---------- reading ----------

  predicate IsDash(i: nat) {
    i == 8 || i == 13 || i == 18 || i == 23
  }

  /** The texts uuid_parse accepts. */
  predicate IsUuidText(s: string) {
    |s| == 36 && forall i | 0 <= i < 36 :: if IsDash(i) then s[i] == '-' else IsHex(s[i])
  }

  /** Where the first of the two digits of byte k stands. */
  function DigitPlace(k: nat): nat {
    2 * k + if k < 4 then 0 else if k < 6 then 1 else if k < 8 then 2 else if k < 10 then 3 else 4
  }

  function ByteAt(s: string, i: nat): Byte
    requires i + 1 < |s| && IsHex(s[i]) && IsHex(s[i + 1])
  {
    16 * DigitValue(s[i]) + DigitValue(s[i + 1])
  }

  /** The sixteen bytes of an accepted text, each from its own two digits. */
  function Bytes(s: string): (u: seq<Byte>)
    requires IsUuidText(s)
    ensures |u| == 16
  {
    seq(16, k requires 0 <= k < 16 => ByteAt(s, DigitPlace(k)))
  }

  /** uuid_parse. */
  function Parse(s: string): (r: Option<seq<Byte>>)
    ensures r.Some? <==> IsUuidText(s)
    ensures r.Some? ==> |r.value| == 16
  {
    if IsUuidText(s) then Some(Bytes(s)) else None
  }

  // ---------- the two undo each other ----------

  lemma {:induction false} HexBytesAt(b: seq<Byte>, upper: bool, k: nat)
    requires k < |b|
    ensures HexBytes(b, upper)[2 * k] == Digit(b[k] / 16, upper)
    ensures HexBytes(b, upper)[2 * k + 1] == Digit(b[k] % 16, upper)
    decreases |b|
  {
    if k < |b| - 1 {
      HexBytesAt(b[..|b| - 1], upper, k);
    }
  }

  lemma TextGroups(u: seq<Byte>, upper: bool)
    requires |u| == 16
    ensures Text(u, upper)[0..8] == HexBytes(u[0..4], upper) && Text(u, upper)[9..13] == HexBytes(u[4..6], upper)
    ensures Text(u, upper)[14..18] == HexBytes(u[6..8], upper) && Text(u, upper)[19..23] == HexBytes(u[8..10], upper)
    ensures Text(u, upper)[24..36] == HexBytes(u[10..16], upper)
  {
    var t := Text(u, upper);
    assert t[0..8] == HexBytes(u[0..4], upper);
    assert t[9..13] == HexBytes(u[4..6], upper);
    assert t[14..18] == HexBytes(u[6..8], upper);
    assert t[19..23] == HexBytes(u[8..10], upper);
    assert t[24..36] == HexBytes(u[10..16], upper);
  }

  /** The digits of byte k, given the group its bytes m.. n stand in. */
  lemma InGroup(s: string, u: seq<Byte>, upper: bool, m: nat, n: nat, at: nat, k: nat)
    requires m <= k < n <= |u| && at + 2 * (n - m) <= |s|
    requires s[at..at + 2 * (n - m)] == HexBytes(u[m..n], upper)
    ensures s[at + 2 * (k - m)] == Digit(u[k] / 16, upper) && s[at + 2 * (k - m) + 1] == Digit(u[k] % 16, upper)
  {
    var g := s[at..at + 2 * (n - m)];
    HexBytesAt(u[m..n], upper, k - m);
    assert g[2 * (k - m)] == s[at + 2 * (k - m)] && g[2 * (k - m) + 1] == s[at + 2 * (k - m) + 1];
  }

  lemma TextAt(u: seq<Byte>, upper: bool, k: nat)
    requires |u| == 16 && k < 16
    ensures Text(u, upper)[DigitPlace(k)] == Digit(u[k] / 16, upper)
    ensures Text(u, upper)[DigitPlace(k) + 1] == Digit(u[k] % 16, upper)
  {
    var s := Text(u, upper);
    TextGroups(u, upper);
    if k < 4 {
      InGroup(s, u, upper, 0, 4, 0, k);
    } else if k < 6 {
      InGroup(s, u, upper, 4, 6, 9, k);
    } else if k < 8 {
      InGroup(s, u, upper, 6, 8, 14, k);
    } else if k < 10 {
      InGroup(s, u, upper, 8, 10, 19, k);
    } else {
      InGroup(s, u, upper, 10, 16, 24, k);
    }
  }

  /** Every place that is no dash belongs to a byte. */
  lemma PlaceOf(i: nat) returns (k: nat)
    requires i < 36 && !IsDash(i)
    ensures k < 16 && (i == DigitPlace(k) || i == DigitPlace(k) + 1)
  {
    k := (i - (if i < 8 then 0 else if i < 13 then 1 else if i < 18 then 2 else if i < 23 then 3 else 4)) / 2;
  }

  lemma TextAccepted(u: seq<Byte>, upper: bool)
    requires |u| == 16
    ensures IsUuidText(Text(u, upper))
  {
    var s := Text(u, upper);
    forall i | 0 <= i < 36 ensures if IsDash(i) then s[i] == '-' else IsHex(s[i]) {
      if !IsDash(i) {
        var k := PlaceOf(i);
        TextAt(u, upper, k);
        DigitRoundTrip(u[k] / 16, upper);
        DigitRoundTrip(u[k] % 16, upper);
      }
    }
  }

  /** uuid_parse undoes uuid_unparse_lower and uuid_unparse_upper for all sixteen-byte values. */
  lemma ParseOfText(u: seq<Byte>, upper: bool)
    requires |u| == 16
    ensures Parse(Text(u, upper)) == Some(u)
  {
    var s := Text(u, upper);
    TextAccepted(u, upper);
    forall k | 0 <= k < 16 ensures Bytes(s)[k] == u[k] {
      TextAt(u, upper, k);
      DigitRoundTrip(u[k] / 16, upper);
      DigitRoundTrip(u[k] % 16, upper);
    }
    assert Bytes(s) == u;
  }

  /** Printing what was read from any accepted text gives that text in lower case. */
  lemma TextOfParse(s: string)
    requires IsUuidText(s)
    ensures Text(Bytes(s), false) == seq(36, i requires 0 <= i < 36 => LowerChar(s[i]))
  {
    forall i | 0 <= i < 36 ensures Text(Bytes(s), false)[i] == LowerChar(s[i]) {
      TextOfParseAt(s, i);
    }
  }

  lemma TextOfParseAt(s: string, i: nat)
    requires IsUuidText(s) && i < 36
    ensures Text(Bytes(s), false)[i] == LowerChar(s[i])
  {
    if IsDash(i) {
      TextAccepted(Bytes(s), false);
    } else {
      var k := PlaceOf(i);
      TextOfByte(s, k);
    }
  }

  lemma TextOfByte(s: string, k: nat)
    requires IsUuidText(s) && k < 16
    ensures var i := DigitPlace(k);
            && Text(Bytes(s), false)[i] == LowerChar(s[i])
            && Text(Bytes(s), false)[i + 1] == LowerChar(s[i + 1])
  {
    var i := DigitPlace(k);
    assert !IsDash(i) && !IsDash(i + 1);
    TextAt(Bytes(s), false, k);
    DigitOfValue(s[i]);
    DigitOfValue(s[i + 1]);
    assert Bytes(s)[k] / 16 == DigitValue(s[i]);
  }
}
