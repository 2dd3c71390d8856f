/**
 lib-clib/src/inet_ntoa.cpp and lib-clib/src/inet_aton.cpp: dotted decimal addresses. An address is its
 four bytes in memory order. inet_aton is given the memory from its argument on, terminators and all;
 what lies behind that reads as NUL.
 */
module Inet {
  import opened Digits
  import opened PrintfModel
  import opened FormatSteps
  import opened Options
  import Printf

  const LINE_FEED: char := '\n'

  // ---------- printing ----------

  function AddressText(a: seq<Byte>): string
    requires |a| == 4
  {
    Dec(a[0]) + ("." + (Dec(a[1]) + ("." + (Dec(a[2]) + ("." + Dec(a[3]))))))
  }

  const FORMAT: string := "%d.%d.%d.%d"

  function AddressArgs(a: seq<Byte>): seq<Arg>
    requires |a| == 4
  {
    [IntArg(a[0])] + ([IntArg(a[1])] + ([IntArg(a[2])] + ([IntArg(a[3])] + [])))
  }

  /** "%d" stands at positions 0, 3, 6 and 9, with dots between. */
  ghost predicate DottedFormat(f: string) {
    && |f| == 11
    && f[0] == '%' && f[1] == 'd' && f[2] == '.' && f[3] == '%' && f[4] == 'd' && f[5] == '.'
    && f[6] == '%' && f[7] == 'd' && f[8] == '.' && f[9] == '%' && f[10] == 'd'
  }

  lemma FieldAndDot(f: string, i: nat, b: Byte, args: seq<Arg>)
    requires DottedFormat(f) && (i == 0 || i == 3 || i == 6)
    ensures Rendered(f, i, [IntArg(b)] + args) == Dec(b) + ("." + Rendered(f, i + 3, args))
  {
    DecStep(f, i, b, args);
    assert f[i + 2] == '.';
  }

  lemma LastField(f: string, b: Byte)
    requires DottedFormat(f)
    ensures Rendered(f, 9, [IntArg(b)] + []) == Dec(b)
  {
    DecStep(f, 9, b, []);
    assert Dec(b) + [] == Dec(b);
  }

  lemma DottedOutput(f: string, a: seq<Byte>)
    requires DottedFormat(f) && |a| == 4
    ensures Output(f, AddressArgs(a)) == AddressText(a)
  {
    LastField(f, a[3]);
    FieldAndDot(f, 6, a[2], [IntArg(a[3])] + []);
    TwoFields(f, a);
  }

  lemma TwoFields(f: string, a: seq<Byte>)
    requires DottedFormat(f) && |a| == 4
    ensures var rest := [IntArg(a[2])] + ([IntArg(a[3])] + []);
            Rendered(f, 0, AddressArgs(a)) == Dec(a[0]) + ("." + (Dec(a[1]) + ("." + Rendered(f, 6, rest))))
  {
    var rest := [IntArg(a[2])] + ([IntArg(a[3])] + []);
    FieldAndDot(f, 3, a[1], rest);
    FieldAndDot(f, 0, a[0], [IntArg(a[1])] + rest);
  }

  lemma ByteDigits(b: Byte)
    ensures 1 <= |Dec(b)| <= 3
  {
    DecLength(b, 3);
  }

  lemma FormatIsDotted()
    ensures DottedFormat(FORMAT)
  {
    assert FORMAT[0] == '%' && FORMAT[1] == 'd' && FORMAT[2] == '.' && FORMAT[3] == '%';
  }

  lemma NtoaOutput(a: seq<Byte>)
    requires |a| == 4
    ensures Output(FORMAT, AddressArgs(a)) == AddressText(a) && |AddressText(a)| <= 15
  {
    FormatIsDotted();
    DottedOutput(FORMAT, a);
    ByteDigits(a[0]);
    ByteDigits(a[1]);
    ByteDigits(a[2]);
    ByteDigits(a[3]);
  }

  /** inet_ntoa with its static buffer of 18 characters. */
  method InetNtoa(p: Printf.Printer, buffer: array<char>, a: seq<Byte>)
    requires |a| == 4 && buffer.Length == 18
    modifies p, buffer
    ensures var n := |AddressText(a)|;
            n <= 15 && buffer[..n] == AddressText(a) && buffer[n] == NUL
  {
    NtoaOutput(a);
    var n := p.Snprintf(buffer, 18, FORMAT, AddressArgs(a));
  }

  // ---------- reading ----------

  /** Characters that end a field: the separator, the terminator and the end of the line. */
  predicate EndsField(c: char, separator: char) {
    c == separator || c == NUL || c == LINE_FEED
  }

  /** A digit loop of inet_aton: the number and where it stopped, or None for a fourth digit or a stray character. */
  function Field(cp: string, i: nat, j: nat, k: nat, separator: char): (r: Option<(nat, nat)>)
    ensures r.Some? ==> r.value.1 >= i
    decreases |cp| - i
  {
    var c := CharAt(cp, i);
    if EndsField(c, separator) then Some((k, i))
    else if j == 3 || !IsDigit(c) then None
    else Field(cp, i + 1, j + 1, k * 10 + (c - '0') as nat, separator)
  }

  method ReadField(cp: string, from: nat, separator: char) returns (ok: bool, k: nat, b: nat)
    ensures Field(cp, from, 0, 0, separator) == if ok then Some((k, b)) else None
  {
    var j := 0;
    k, b := 0, from;
    while !EndsField(CharAt(cp, b), separator)
      invariant from <= b
      invariant Field(cp, from, 0, 0, separator) == Field(cp, b, j, k, separator)
      decreases |cp| - b
    {
      if j == 3 {
        return false, k, b;
      }
      if !IsDigit(CharAt(cp, b)) {
        return false, k, b;
      }
      j := j + 1;
      k := k * 10 + (CharAt(cp, b) - '0') as nat;
      b := b + 1;
    }
    ok := true;
  }

  /** The fields from position i on, the last one behind `more` dotted ones; each is cut to a byte. */
  function Fields(cp: string, i: nat, more: nat): Option<seq<Byte>>
    decreases more
  {
    match Field(cp, i, 0, 0, if more == 0 then ' ' else '.')
    case None => None
    case Some((k, b)) =>
      if more == 0 then Some([k % 256]) else Prepended([k % 256], Fields(cp, b + 1, more - 1))
  }

  /** inet_aton. */
  function Aton(cp: string): Option<seq<Byte>> {
    Fields(cp, 0, 3)
  }

  /** One turn of the loop over the dotted fields. */
  method ReadOctet(cp: string, b0: nat, u0: seq<Byte>, ghost more: nat) returns (ok: bool, u8: seq<Byte>, b: nat)
    requires more > 0
    ensures ok ==> |u8| == |u0| + 1
    ensures Prepended(u0, Fields(cp, b0, more)) == if ok then Prepended(u8, Fields(cp, b, more - 1)) else None
  {
    var k;
    ok, k, b := ReadField(cp, b0, '.');
    NextField(cp, b0, more, ok, k, b, u0);
    u8, b := u0 + [k % 256], b + 1;
  }

  /** The loop over the three dotted fields. */
  method ReadDotted(cp: string) returns (ok: bool, u8: seq<Byte>, b: nat)
    ensures Aton(cp) == if ok then Prepended(u8, Fields(cp, b, 0)) else None
    ensures ok ==> |u8| == 3
  {
    ok, u8, b := true, [], 0;
    PrependNothing(Fields(cp, 0, 3));
    while |u8| < 3
      invariant ok && |u8| <= 3
      invariant Aton(cp) == Prepended(u8, Fields(cp, b, 3 - |u8|))
    {
      ok, u8, b := ReadOctet(cp, b, u8, 3 - |u8|);
      if !ok {
        return;
      }
    }
  }

  method InetAton(cp: string, address: array<Byte>) returns (r: int)
    requires address.Length == 4
    modifies address
    ensures r == if Aton(cp).Some? then 1 else 0
    ensures address[..] == if Aton(cp).Some? then Aton(cp).value else old(address[..])
  {
    var ok, u8, b := ReadDotted(cp);
    if !ok {
      return 0;
    }
    var k;
    ok, k, b := ReadField(cp, b, ' ');
    if !ok {
      return 0;
    }
    u8 := u8 + [k % 256];
    address[0], address[1], address[2], address[3] := u8[0], u8[1], u8[2], u8[3];
    assert address[..] == u8;
    r := 1;
  }

  function Prepended(u: seq<Byte>, r: Option<seq<Byte>>): Option<seq<Byte>> {
    match r
    case None => None
    case Some(v) => Some(u + v)
  }

  lemma PrependNothing(r: Option<seq<Byte>>)
    ensures Prepended([], r) == r
  {
    if r.Some? {
      assert [] + r.value == r.value;
    }
  }

  lemma PrependOne(u: seq<Byte>, b: Byte, r: Option<seq<Byte>>)
    ensures Prepended(u, Prepended([b], r)) == Prepended(u + [b], r)
  {
    if r.Some? {
      assert u + ([b] + r.value) == u + [b] + r.value;
    }
  }

  lemma NextField(cp: string, b: nat, more: nat, ok: bool, k: nat, end: nat, u: seq<Byte>)
    requires more > 0
    requires Field(cp, b, 0, 0, '.') == if ok then Some((k, end)) else None
    ensures Prepended(u, Fields(cp, b, more)) ==
            if ok then Prepended(u + [k % 256], Fields(cp, end + 1, more - 1)) else None
  {
    if ok {
      PrependOne(u, k % 256, Fields(cp, end + 1, more - 1));
    }
  }

  // ---------- dotted texts ----------

  /** One field of digits in a longer text: its value if there are at most three of them. */
  lemma {:induction false} FieldOfDigits(cp: string, i: nat, s: string, j: nat, k: nat, separator: char)
    requires i + |s| <= |cp| && cp[i..i + |s|] == s && AllDigits(s)
    requires EndsField(CharAt(cp, i + |s|), separator) && !IsDigit(separator)
    requires j <= 3
    ensures Field(cp, i, j, k, separator) ==
            if j + |s| <= 3 then Some((ValueFrom(s, k), i + |s|)) else None
    decreases |s|
  {
    if s != [] {
      assert cp[i] == s[0] && IsDigit(s[0]);
      if j < 3 {
        FieldOfDigits(cp, i + 1, s[1..], j + 1, k * 10 + (s[0] - '0') as nat, separator);
      }
    }
  }

  /** Groups with a separator behind each but the last. */
  function Separated(f: seq<string>, seps: string): string
    requires |f| == |seps| + 1
  {
    if seps == [] then f[0] else f[0] + ([seps[0]] + Separated(f[1..], seps[1..]))
  }

  function Octets(f: seq<string>): (r: seq<Byte>)
    requires forall i | 0 <= i < |f| :: AllDigits(f[i])
    ensures |r| == |f|
  {
    if f == [] then [] else [ValueFrom(f[0], 0) % 256] + Octets(f[1..])
  }

  /** What may follow the last field: nothing that is known, or a terminator and then anything. */
  predicate EndsText(tail: string) {
    tail == [] || EndsField(tail[0], ' ')
  }

  /**
   Groups of digits are accepted exactly when no group has more than three; every group counts modulo
   256, and an empty one as zero. Any of '.', NUL and line feed may stand between them.
   */
  lemma {:induction false} DottedFields(cp: string, i: nat, f: seq<string>, seps: string, tail: string)
    requires |f| == |seps| + 1 && i <= |cp| && cp[i..] == Separated(f, seps) + tail && EndsText(tail)
    requires forall k | 0 <= k < |f| :: AllDigits(f[k])
    requires forall k | 0 <= k < |seps| :: EndsField(seps[k], '.')
    ensures Fields(cp, i, |seps|) == if Short(f) then Some(Octets(f)) else None
    decreases |f|
  {
    var s := f[0];
    if seps == [] {
      LastGroup(cp, i, s, tail);
      FieldOfDigits(cp, i, s, 0, 0, ' ');
      OneGroup(f);
    } else {
      GroupAndRest(cp, i, s, seps[0], Separated(f[1..], seps[1..]), tail);
      DottedFields(cp, i + |s| + 1, f[1..], seps[1..], tail);
      FirstGroup(cp, i, s, |seps|);
      ShortAndOctets(f);
    }
  }

  lemma FirstGroup(cp: string, i: nat, s: string, more: nat)
    requires more > 0 && i + |s| <= |cp| && cp[i..i + |s|] == s && AllDigits(s) && EndsField(CharAt(cp, i + |s|), '.')
    ensures Fields(cp, i, more) ==
            if |s| > 3 then None else Prepended([ValueFrom(s, 0) % 256], Fields(cp, i + |s| + 1, more - 1))
  {
    FieldOfDigits(cp, i, s, 0, 0, '.');
  }

  lemma ShortAndOctets(f: seq<string>)
    requires f != [] && forall k | 0 <= k < |f| :: AllDigits(f[k])
    ensures Short(f) <==> |f[0]| <= 3 && Short(f[1..])
    ensures Octets(f) == [ValueFrom(f[0], 0) % 256] + Octets(f[1..])
  {
    assert f == [f[0]] + f[1..];
  }

  lemma LastGroup(cp: string, i: nat, s: string, tail: string)
    requires i <= |cp| && cp[i..] == s + tail && EndsText(tail)
    ensures i + |s| <= |cp| && cp[i..i + |s|] == s && EndsField(CharAt(cp, i + |s|), ' ')
  {
    assert cp[i..][..|s|] == s;
    if tail != [] {
      assert cp[i..][|s|] == tail[0];
    }
  }

  lemma OneGroup(f: seq<string>)
    requires |f| == 1 && AllDigits(f[0])
    ensures Short(f) <==> |f[0]| <= 3
    ensures Octets(f) == [ValueFrom(f[0], 0) % 256]
  {
    assert f[1..] == [];
  }

  ghost predicate Short(f: seq<string>) {
    forall k | 0 <= k < |f| :: |f[k]| <= 3
  }

  lemma GroupAndRest(cp: string, i: nat, s: string, sep: char, d: string, tail: string)
    requires i <= |cp| && cp[i..] == s + ([sep] + d) + tail
    ensures i + |s| < |cp| && cp[i..i + |s|] == s && cp[i + |s|] == sep && cp[i + |s| + 1..] == d + tail
  {
    assert cp[i..] == s + ([sep] + (d + tail));
    assert cp[i..][|s| + 1..] == d + tail;
    assert cp[i..][|s|] == sep;
    assert cp[i..][..|s|] == s;
  }

  lemma {:induction false} OctetsAt(f: seq<string>, k: nat)
    requires k < |f| && forall i | 0 <= i < |f| :: AllDigits(f[i])
    ensures Octets(f)[k] == ValueFrom(f[k], 0) % 256
    decreases k
  {
    if k > 0 {
      OctetsAt(f[1..], k - 1);
    }
  }

  /** inet_aton reads back what inet_ntoa printed, for every address and whatever lies behind the terminator. */
  lemma AtonOfNtoa(a: seq<Byte>, tail: string)
    requires |a| == 4 && EndsText(tail)
    ensures Aton(AddressText(a) + tail) == Some(a)
  {
    DottedGroups(a);
    AtonOfGroups(a, "...", tail);
  }

  lemma AtonOfGroups(a: seq<Byte>, seps: string, tail: string)
    requires |a| == 4 && EndsText(tail)
    requires |seps| == 3 && forall k | 0 <= k < 3 :: EndsField(seps[k], '.')
    ensures Aton(Separated(Groups(a), seps) + tail) == Some(a)
  {
    GroupsRead(a);
    DottedFields(Separated(Groups(a), seps) + tail, 0, Groups(a), seps, tail);
    GroupOctets(a);
  }

  /** A text of one number: the fields behind it are read from the memory behind its terminator. */
  lemma ReadsPastTerminator(a: seq<Byte>)
    requires |a| == 4
    ensures Aton(Dec(a[0]) + ([NUL] + (Dec(a[1]) + ("." + (Dec(a[2]) + ("." + Dec(a[3]))))))) == Some(a)
  {
    SeparatedGroups(a, [NUL, '.', '.']);
    AtonOfGroups(a, [NUL, '.', '.'], []);
    var text := Separated(Groups(a), [NUL, '.', '.']);
    assert text + [] == text;
  }

  // ---------- reading no further than the text ----------

  /** At most `most` groups, each of at most three digits: '.' and line feed end one as a NUL would. */
  ghost predicate FewGroups(text: string, most: nat) {
    exists f, seps :: IsGroups(text, f, seps) && |f| <= most
  }

  ghost predicate IsGroups(text: string, f: seq<string>, seps: string) {
    && |f| == |seps| + 1 && text == Separated(f, seps) && Short(f)
    && (forall k | 0 <= k < |f| :: AllDigits(f[k])) && forall k | 0 <= k < |seps| :: EndsField(seps[k], '.')
  }

  /**
   inet_aton's answer is made from its text alone if and only if the text is not three or fewer groups
   of at most three digits; for such a text it depends on the memory behind the terminator.
   */
  lemma ReadsOnlyItsTextIff(text: string)
    ensures (forall t1, t2 :: Aton(text + ([NUL] + t1)) == Aton(text + ([NUL] + t2))) <==> !FewGroups(text, 3)
  {
    assert text[0..] == text;
    if FewGroups(text, 3) {
      StarvedFields(text, 0, 3);
      assert Aton(text + ([NUL] + [])) != Aton(text + ([NUL] + "x"));
    } else {
      forall t1, t2 ensures Aton(text + ([NUL] + t1)) == Aton(text + ([NUL] + t2)) {
        FedFields(text, t1, 0, 3);
        FedFields(text, t2, 0, 3);
      }
    }
  }

  /** A field that starts in the text ends at its terminator at the latest. */
  lemma {:induction false} FieldOfText(text: string, tail: string, i: nat, j: nat, k: nat, separator: char)
    requires i <= |text|
    ensures var r := Field(text, i, j, k, separator);
            r == Field(text + ([NUL] + tail), i, j, k, separator) && (r.Some? ==> r.value.1 <= |text|)
    decreases |text| - i
  {
    assert CharAt(text, i) == CharAt(text + ([NUL] + tail), i);
    if i < |text| {
      FieldOfText(text, tail, i + 1, j + 1, k * 10 + if IsDigit(text[i]) then (text[i] - '0') as nat else 0, separator);
    }
  }

  /** A field that was read is a group of digits with an end behind it. */
  lemma {:induction false} FieldIsGroup(text: string, i: nat, j: nat, k: nat, separator: char)
    requires i <= |text| && j <= 3 && Field(text, i, j, k, separator).Some?
    ensures var b := Field(text, i, j, k, separator).value.1;
            && b <= |text| && AllDigits(text[i..b]) && j + (b - i) <= 3 && EndsField(CharAt(text, b), separator)
    decreases |text| - i
  {
    if !EndsField(CharAt(text, i), separator) {
      var k' := k * 10 + (text[i] - '0') as nat;
      FieldIsGroup(text, i + 1, j + 1, k', separator);
      var b := Field(text, i + 1, j + 1, k', separator).value.1;
      assert text[i..b] == [text[i]] + text[i + 1..b];
    }
  }

  /** The groups behind the first field, if the text goes on there. */
  lemma GroupsBehind(text: string, i: nat, most: nat)
    requires i <= |text| && most > 0 && FewGroups(text[i..], most)
    ensures var r := Field(text, i, 0, 0, '.');
            && r.Some? && r.value.1 <= |text|
            && (r.value.1 < |text| ==> FewGroups(text[r.value.1 + 1..], most - 1))
  {
    var f, seps :| IsGroups(text[i..], f, seps) && |f| <= most;
    var s := f[0];
    if seps == [] {
      assert text[i..i + |s|] == s;
      FieldOfDigits(text, i, s, 0, 0, '.');
    } else {
      assert text[i..] == s + ([seps[0]] + Separated(f[1..], seps[1..])) + [];
      GroupAndRest(text, i, s, seps[0], Separated(f[1..], seps[1..]), []);
      FieldOfDigits(text, i, s, 0, 0, '.');
      assert IsGroups(text[i + |s| + 1..], f[1..], seps[1..]);
    }
  }

  /** A first field in front of few groups, or at the end of the text, makes one more. */
  lemma GroupInFront(text: string, i: nat, most: nat)
    requires i <= |text| && most > 0
    requires Field(text, i, 0, 0, '.').Some?
    requires var b := Field(text, i, 0, 0, '.').value.1;
             b >= |text| || FewGroups(text[b + 1..], most - 1)
    ensures FewGroups(text[i..], most)
  {
    FieldIsGroup(text, i, 0, 0, '.');
    var b := Field(text, i, 0, 0, '.').value.1;
    if b == |text| {
      assert IsGroups(text[i..], [text[i..b]], []);
    } else {
      GroupThenRest(text[b + 1..], most - 1, text[i..b], text[b]);
      CutAt(text, i, b);
    }
  }

  lemma CutAt(text: string, i: nat, b: nat)
    requires i <= b < |text|
    ensures text[i..] == text[i..b] + ([text[b]] + text[b + 1..])
  {
    assert text[b..] == [text[b]] + text[b + 1..];
    assert text[i..] == text[i..b] + text[b..];
  }

  lemma GroupThenRest(text: string, most: nat, s: string, sep: char)
    requires FewGroups(text, most) && AllDigits(s) && |s| <= 3 && EndsField(sep, '.')
    ensures FewGroups(s + ([sep] + text), most + 1)
  {
    var f, seps :| IsGroups(text, f, seps) && |f| <= most;
    OneMoreGroup(text, f, seps, s, sep);
  }

  lemma OneMoreGroup(text: string, f: seq<string>, seps: string, s: string, sep: char)
    requires IsGroups(text, f, seps) && AllDigits(s) && |s| <= 3 && EndsField(sep, '.')
    ensures IsGroups(s + ([sep] + text), [s] + f, [sep] + seps)
  {
    assert ([s] + f)[1..] == f && ([sep] + seps)[1..] == seps;
  }

  /** Without few groups the fields come from the text, whatever lies behind it. */
  lemma {:induction false} FedFields(text: string, tail: string, i: nat, more: nat)
    requires i <= |text| && !FewGroups(text[i..], more)
    ensures Fields(text + ([NUL] + tail), i, more) == Fields(text, i, more)
    decreases more
  {
    FieldOfText(text, tail, i, 0, 0, if more == 0 then ' ' else '.');
    if more > 0 && Field(text, i, 0, 0, '.').Some? {
      var b := Field(text, i, 0, 0, '.').value.1;
      if b >= |text| || FewGroups(text[b + 1..], more - 1) {
        GroupInFront(text, i, more);
        assert false;
      } else {
        FedFields(text, tail, b + 1, more - 1);
      }
    }
  }

  /** With few groups an empty memory behind the terminator is accepted, and a letter there refused. */
  lemma {:induction false} StarvedFields(text: string, i: nat, more: nat)
    requires i <= |text| && more > 0 && FewGroups(text[i..], more)
    ensures Fields(text + ([NUL] + []), i, more).Some? && Fields(text + ([NUL] + "x"), i, more) == None
    decreases more
  {
    GroupsBehind(text, i, more);
    FieldOfText(text, [], i, 0, 0, '.');
    FieldOfText(text, "x", i, 0, 0, '.');
    var b := Field(text, i, 0, 0, '.').value.1;
    if b < |text| {
      StarvedFields(text, b + 1, more - 1);
    } else {
      NothingBehind(text + ([NUL] + []), b + 1, more - 1);
    }
  }

  lemma {:induction false} NothingBehind(cp: string, i: nat, more: nat)
    requires i >= |cp|
    ensures Fields(cp, i, more).Some?
    decreases more
  {
    if more > 0 {
      NothingBehind(cp, i + 1, more - 1);
    }
  }

  lemma GroupOctets(a: seq<Byte>)
    requires |a| == 4
    requires forall k | 0 <= k < 4 :: AllDigits(Groups(a)[k]) && ValueFrom(Groups(a)[k], 0) == a[k]
    ensures Octets(Groups(a)) == a
  {
    var f := Groups(a);
    forall k | 0 <= k < 4 ensures Octets(f)[k] == a[k] {
      OctetsAt(f, k);
    }
  }

  /** The four printed numbers. */
  function Groups(a: seq<Byte>): (f: seq<string>)
    requires |a| == 4
  {
    [Dec(a[0]), Dec(a[1]), Dec(a[2]), Dec(a[3])]
  }

  lemma GroupsRead(a: seq<Byte>)
    requires |a| == 4
    ensures Short(Groups(a))
    ensures forall k | 0 <= k < 4 :: AllDigits(Groups(a)[k]) && ValueFrom(Groups(a)[k], 0) == a[k]
  {
    forall k | 0 <= k < 4
      ensures AllDigits(Groups(a)[k]) && ValueFrom(Groups(a)[k], 0) == a[k] && |Groups(a)[k]| <= 3
    {
      ValueFromDec(a[k]);
      ByteDigits(a[k]);
    }
  }

  lemma SeparatedGroups(a: seq<Byte>, seps: string)
    requires |a| == 4 && |seps| == 3
    ensures Separated(Groups(a), seps) ==
            Dec(a[0]) + ([seps[0]] + (Dec(a[1]) + ([seps[1]] + (Dec(a[2]) + ([seps[2]] + Dec(a[3]))))))
  {
    var f := Groups(a);
    assert f[1..] == [f[1], f[2], f[3]] && f[1..][1..] == [f[2], f[3]] && f[1..][1..][1..] == [f[3]];
    assert seps[1..] == [seps[1], seps[2]] && seps[1..][1..] == [seps[2]] && seps[1..][1..][1..] == [];
    assert Separated([f[2], f[3]], [seps[2]]) == f[2] + ([seps[2]] + f[3]);
  }

  lemma DottedGroups(a: seq<Byte>)
    requires |a| == 4
    ensures Separated(Groups(a), "...") == AddressText(a)
  {
    SeparatedGroups(a, "...");
    assert ['.'] == ".";
  }

  // ---------- what is accepted ----------

  /** Groups of at most three digits, '.', NUL or line feed between them, and a space, NUL or line feed behind. */
  ghost predicate IsAddress(memory: string, f: seq<string>, seps: string, tail: string) {
    && |f| == |seps| + 1 && memory == Separated(f, seps) + tail
    && (forall k | 0 <= k < |f| :: AllDigits(f[k]) && |f[k]| <= 3)
    && (forall k | 0 <= k < |seps| :: seps[k] == '.' || seps[k] == '\0' || seps[k] == '\n')
    && (tail == [] || tail[0] == ' ' || tail[0] == '\0' || tail[0] == '\n')
  }

  /** The memory from the text on with n of the NULs that lie behind what is known. */
  function Padded(cp: string, n: nat): string {
    cp + Fill(NUL, n)
  }

  /** inet_aton accepts exactly four such groups; each counts modulo 256. */
  lemma AcceptedIff(cp: string)
    ensures Aton(cp).Some? <==> exists f, seps, tail :: |seps| == 3 && IsAddress(Padded(cp, 3), f, seps, tail)
    ensures forall f, seps, tail | |seps| == 3 && IsAddress(Padded(cp, 3), f, seps, tail) :: Aton(cp) == Some(Octets(f))
  {
    forall f, seps, tail | |seps| == 3 && IsAddress(Padded(cp, 3), f, seps, tail)
      ensures Aton(cp) == Some(Octets(f))
    {
      AddressRead(cp, f, seps, tail);
    }
    if Aton(cp).Some? {
      var f, seps, tail := AddressOf(cp, 0, 3);
      assert cp[0..] == cp;
    }
  }

  lemma AddressRead(cp: string, f: seq<string>, seps: string, tail: string)
    requires |seps| == 3 && IsAddress(Padded(cp, 3), f, seps, tail)
    ensures Aton(cp) == Some(Octets(f))
  {
    PaddedFields(cp, 3, 0, 3);
    assert Padded(cp, 3)[0..] == Padded(cp, 3) && Short(f);
    DottedFields(Padded(cp, 3), 0, f, seps, tail);
  }

  lemma {:induction false} PaddedField(cp: string, n: nat, i: nat, j: nat, k: nat, separator: char)
    ensures Field(Padded(cp, n), i, j, k, separator) == Field(cp, i, j, k, separator)
    decreases |cp| - i
  {
    assert CharAt(Padded(cp, n), i) == CharAt(cp, i);
    if i < |cp| {
      PaddedField(cp, n, i + 1, j + 1, k * 10 + if IsDigit(cp[i]) then (cp[i] - '0') as nat else 0, separator);
    }
  }

  lemma {:induction false} PaddedFields(cp: string, n: nat, i: nat, more: nat)
    ensures Fields(Padded(cp, n), i, more) == Fields(cp, i, more)
    decreases more
  {
    PaddedField(cp, n, i, 0, 0, if more == 0 then ' ' else '.');
    var r := Field(cp, i, 0, 0, if more == 0 then ' ' else '.');
    if more > 0 && r.Some? {
      PaddedFields(cp, n, r.value.1 + 1, more - 1);
    }
  }

  /** The groups that were read, from position i on. */
  lemma {:induction false} AddressOf(cp: string, i: nat, more: nat) returns (f: seq<string>, seps: string, tail: string)
    requires i <= |cp| && Fields(cp, i, more).Some?
    ensures |seps| == more && IsAddress(Padded(cp[i..], more), f, seps, tail)
    decreases more
  {
    var separator := if more == 0 then ' ' else '.';
    FieldIsGroup(cp, i, 0, 0, separator);
    var b := Field(cp, i, 0, 0, separator).value.1;
    var s := cp[i..b];
    if more == 0 {
      f, seps, tail := [s], [], cp[b..];
      assert cp[i..] + [] == s + cp[b..];
    } else if b < |cp| {
      f, seps, tail := AddressOf(cp, b + 1, more - 1);
      CutAt(cp, i, b);
      OneGroupMore(cp[b + 1..], more - 1, s, cp[b], f, seps, tail);
      f, seps, tail := [s] + f, [cp[b]] + seps, tail + [NUL];
    } else {
      f, seps, tail := [s] + Empties(more), Fill(NUL, more), [];
      EndOfMemory(s, more);
      assert s + Fill(NUL, more) == s + Fill(NUL, more) + [];
    }
  }

  lemma OneGroupMore(rest: string, n: nat, s: string, sep: char, f: seq<string>, seps: string, tail: string)
    requires IsAddress(Padded(rest, n), f, seps, tail)
    requires AllDigits(s) && |s| <= 3 && (sep == '.' || sep == '\0' || sep == '\n')
    ensures IsAddress(Padded(s + ([sep] + rest), n + 1), [s] + f, [sep] + seps, tail + [NUL])
  {
    assert ([s] + f)[1..] == f && ([sep] + seps)[1..] == seps;
    assert Fill(NUL, n + 1) == Fill(NUL, n) + [NUL];
    assert s + ([sep] + rest) + (Fill(NUL, n) + [NUL]) == s + ([sep] + (rest + Fill(NUL, n) + [NUL]));
    assert s + ([sep] + (Separated(f, seps) + tail + [NUL])) == s + ([sep] + Separated(f, seps)) + (tail + [NUL]);
  }

  function Empties(n: nat): (r: seq<string>)
    ensures |r| == n && forall k | 0 <= k < n :: r[k] == ""
  {
    seq(n, _ => "")
  }

  /** Behind the known memory every field is empty. */
  lemma {:induction false} EndOfMemory(s: string, n: nat)
    ensures Separated([s] + Empties(n), Fill(NUL, n)) == s + Fill(NUL, n)
    decreases n
  {
    if n > 0 {
      EndOfMemory("", n - 1);
      assert ([s] + Empties(n))[1..] == Empties(n) == [""] + Empties(n - 1);
      assert Fill(NUL, n)[1..] == Fill(NUL, n - 1);
      assert "" + Fill(NUL, n - 1) == Fill(NUL, n - 1);
      assert [NUL] + Fill(NUL, n - 1) == Fill(NUL, n);
    }
  }
}
