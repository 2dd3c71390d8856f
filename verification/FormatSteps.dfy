/**
 How PrintfModel renders a format piece by piece, and what fixed-width hexadecimal fields look like.
 */
module FormatSteps {
  import opened Numbers
  import opened Digits
  import opened PrintfModel

  /** "%0wx" or "%0wX" with a one-digit width stands at position i. */
  predicate HexFieldAt(f: string, i: nat, w: nat, upper: bool) {
    && 1 <= w <= 8 && i + 4 <= |f|
    && f[i] == '%' && f[i + 1] == '0' && f[i + 2] == '0' + w as char && f[i + 3] == if upper then 'X' else 'x'
  }

  lemma HexFieldParse(f: string, i: nat, w: nat, upper: bool, args: seq<Arg>)
    requires HexFieldAt(f, i, w, upper)
    ensures Conversion(f, i + 1, args) == (Conv(true, false, w, false, 0), i + 3, args)
  {
    assert Number(f, i + 3, w) == (w, i + 3);
    assert (f[i + 2] - '0') as nat == w;
    assert Number(f, i + 2, 0) == Number(f, i + 3, w);
  }

  lemma HexFieldStep(f: string, i: nat, w: nat, upper: bool, n: nat, args: seq<Arg>)
    requires HexFieldAt(f, i, w, upper) && n < UINT32
    ensures Rendered(f, i, [IntArg(n)] + args) ==
            NumberText(Conv(true, false, w, false, 0), false, Hex(n, upper)) + Rendered(f, i + 4, args)
  {
    var va, v := [IntArg(n)] + args, Conv(true, false, w, false, 0);
    HexFieldParse(f, i, w, upper, va);
    assert Rest(va) == args;
    HexConverted(f, i + 3, v, upper, n, va);
  }

  lemma HexConverted(f: string, j: nat, v: Conv, upper: bool, n: nat, va: seq<Arg>)
    requires j < |f| && f[j] == if upper then 'X' else 'x'
    requires n < UINT32 && va != [] && va[0] == IntArg(n)
    ensures Converted(f, v, j, va) == NumberText(v, false, Hex(n, upper)) + Rendered(f, j + 1, Rest(va))
  {
    assert Unsigned(n) == n;
  }

  /** "%d" at position i sends the decimal number, with its sign if it is negative. */
  lemma DecStep(f: string, i: nat, n: int, args: seq<Arg>)
    requires -INT_MAX - 1 <= n <= INT_MAX && i + 2 <= |f| && f[i] == '%' && f[i + 1] == 'd'
    ensures Rendered(f, i, [IntArg(n)] + args) == (if n < 0 then "-" + Dec(-n) else Dec(n)) + Rendered(f, i + 2, args)
  {
    var va, v := [IntArg(n)] + args, Conv(false, false, 0, false, 0);
    assert Conversion(f, i + 1, va) == (v, i + 1, va);
    assert Rest(va) == args;
    PlainDecText(n, va);
  }

  lemma PlainDecText(n: int, va: seq<Arg>)
    requires -INT_MAX - 1 <= n <= INT_MAX && va != [] && va[0] == IntArg(n)
    ensures ConversionText(Conv(false, false, 0, false, 0), 'd', va) == if n < 0 then "-" + Dec(-n) else Dec(n)
  {
    SignedOf(n);
    PlainText(n < 0, Dec(Abs(n)));
  }

  lemma SignedOf(n: int)
    requires -INT_MAX - 1 <= n <= INT_MAX
    ensures Signed(n) == n
  {
  }

  lemma PlainText(negative: bool, digits: string)
    ensures NumberText(Conv(false, false, 0, false, 0), negative, digits) == if negative then "-" + digits else digits
  {
    var v := Conv(false, false, 0, false, 0);
    NumberLayout(v, negative, digits);
    assert Fill(' ', 0) + ("-" + (Fill('0', 0) + digits)) + Fill(' ', 0) == "-" + digits;
    assert Fill(' ', 0) + ("" + (Fill('0', 0) + digits)) + Fill(' ', 0) == digits;
  }

  // ---------- decimal numbers from the left ----------

  predicate AllDigits(s: string) {
    forall i | 0 <= i < |s| :: IsDigit(s[i])
  }

  /** Horner's rule from the left, as the loop computes it. */
  function ValueFrom(s: string, k: nat): nat
    requires AllDigits(s)
  {
    if s == [] then k else ValueFrom(s[1..], k * 10 + (s[0] - '0') as nat)
  }

  lemma {:induction false} ValueFromSnoc(s: string, c: char, k: nat)
    requires AllDigits(s) && IsDigit(c)
    ensures AllDigits(s + [c]) && ValueFrom(s + [c], k) == ValueFrom(s, k) * 10 + (c - '0') as nat
    decreases |s|
  {
    if s != [] {
      assert (s + [c])[1..] == s[1..] + [c];
      ValueFromSnoc(s[1..], c, k * 10 + (s[0] - '0') as nat);
    }
  }

  lemma {:induction false} ValueFromDec(n: nat)
    ensures AllDigits(Dec(n)) && ValueFrom(Dec(n), 0) == n
  {
    if n < 10 {
      assert Dec(n) == [] + [Digit(n, false)];
      ValueFromSnoc([], Digit(n, false), 0);
    } else {
      ValueFromDec(n / 10);
      ValueFromSnoc(Dec(n / 10), Digit(n % 10, false), 0);
    }
  }

  // ---------- fixed-width hexadecimal ----------

  /** The w low hexadecimal digits of n. */
  function HexFixed(n: nat, w: nat, upper: bool): (s: string)
    ensures |s| == w
    decreases w
  {
    if w == 0 then [] else HexFixed(n / 16, w - 1, upper) + [Digit(n % 16, upper)]
  }

  /** Two digits per byte. */
  function HexBytes(b: seq<nat>, upper: bool): (s: string)
    requires forall k | 0 <= k < |b| :: b[k] < 256
    ensures |s| == 2 * |b|
  {
    if b == [] then []
    else
      var last := b[|b| - 1];
      HexBytes(b[..|b| - 1], upper) + [Digit(last / 16, upper), Digit(last % 16, upper)]
  }

  /** The big-endian number of some bytes. */
  function BigEndian(b: seq<nat>): nat {
    if b == [] then 0 else BigEndian(b[..|b| - 1]) * 256 + b[|b| - 1]
  }

  lemma {:induction false} PaddedHexIsFixed(n: nat, w: nat, upper: bool)
    requires w >= 1 && n < Power(16, w)
    ensures PadLeft(Hex(n, upper), '0', w) == HexFixed(n, w, upper)
    ensures |Hex(n, upper)| <= w
    decreases w
  {
    HexLength(n, upper, w);
    if n < 16 {
      ZeroFixed(w - 1, upper);
      assert PadLeft(Hex(n, upper), '0', w) == Fill('0', w - 1) + [Digit(n, upper)];
      assert n / 16 == 0 && n % 16 == n;
    } else {
      assert Power(16, w) == 16 * Power(16, w - 1) && Power(16, 0) == 1;
      PaddedHexIsFixed(n / 16, w - 1, upper);
      var s := Hex(n / 16, upper);
      assert PadLeft(s + [Digit(n % 16, upper)], '0', w) == PadLeft(s, '0', w - 1) + [Digit(n % 16, upper)];
    }
  }

  lemma {:induction false} ZeroFixed(w: nat, upper: bool)
    ensures HexFixed(0, w, upper) == Fill('0', w)
  {
    if w > 0 {
      ZeroFixed(w - 1, upper);
      assert Fill('0', w) == Fill('0', w - 1) + ['0'];
    }
  }

  lemma {:induction false} BigEndianFixed(b: seq<nat>, upper: bool)
    requires forall k | 0 <= k < |b| :: b[k] < 256
    ensures HexFixed(BigEndian(b), 2 * |b|, upper) == HexBytes(b, upper)
    ensures BigEndian(b) < Power(16, 2 * |b|)
  {
    if b != [] {
      var init, last := b[..|b| - 1], b[|b| - 1];
      BigEndianFixed(init, upper);
      TwoDigits(BigEndian(init), last, |init|, upper);
    }
  }

  lemma TwoDigits(n: nat, last: nat, w: nat, upper: bool)
    requires last < 256 && n < Power(16, 2 * w)
    ensures HexFixed(n * 256 + last, 2 * (w + 1), upper) ==
            HexFixed(n, 2 * w, upper) + [Digit(last / 16, upper), Digit(last % 16, upper)]
    ensures n * 256 + last < Power(16, 2 * (w + 1))
  {
    var both := n * 256 + last;
    var high := n * 16 + last / 16;
    assert both / 16 == high && both % 16 == last % 16;
    assert high / 16 == n && high % 16 == last / 16;
    assert HexFixed(high, 2 * w + 1, upper) == HexFixed(n, 2 * w, upper) + [Digit(last / 16, upper)];
    assert Power(16, 2 * w + 1) == 16 * Power(16, 2 * w);
  }

  /** The field "%0wx" of the big-endian number of w/2 bytes is their digits, two by two. */
  lemma HexFieldText(b: seq<nat>, upper: bool)
    requires 1 <= |b| <= 4
    requires forall k | 0 <= k < |b| :: b[k] < 256
    ensures NumberText(Conv(true, false, 2 * |b|, false, 0), false, Hex(BigEndian(b), upper)) == HexBytes(b, upper)
  {
    var v := Conv(true, false, 2 * |b|, false, 0);
    BigEndianFixed(b, upper);
    PaddedHexIsFixed(BigEndian(b), 2 * |b|, upper);
    NumberLayout(v, false, Hex(BigEndian(b), upper));
  }
}
