/**
 What lib-clib/src/printf.cpp writes: the text of each conversion and of a whole format, as functions.
 The build is the one without floating point (DISABLE_PRINTF_FLOAT), so `%f` is an unknown conversion.
 */
module PrintfModel {
  import opened Numbers
  import opened Digits

  const INT_MAX := 0x7FFF_FFFF
  /** Characters the digit buffers hold before the guards `p > buffer` stop the padding. */
  const BUFFER_FILL := 63

  /** One va_arg. */
  datatype Arg = IntArg(value: int) | StrArg(text: string)

  /** Flag, width and precision of one conversion. */
  datatype Conv = Conv(zeroPadded: bool, left: bool, width: nat, hasPrec: bool, prec: nat)

  // ---------- digits ----------

  /** Digits of n, most significant first; "0" for zero. */
  function Dec(n: nat): (s: string)
    ensures |s| >= 1
  {
    if n < 10 then [Digit(n, false)] else Dec(n / 10) + [Digit(n % 10, false)]
  }

  function Hex(n: nat, upper: bool): (s: string)
    ensures |s| >= 1
  {
    if n < 16 then [Digit(n, upper)] else Hex(n / 16, upper) + [Digit(n % 16, upper)]
  }

  /** The number a digit string denotes. */
  function Value(s: string, base: nat): nat {
    if s == [] then 0 else Value(s[..|s| - 1], base) * base + DigitValue(s[|s| - 1])
  }

  lemma ValueSnoc(s: string, c: char, base: nat)
    ensures Value(s + [c], base) == Value(s, base) * base + DigitValue(c)
  {
    assert (s + [c])[..|s|] == s;
  }

  /** Dec is the canonical numeral: it denotes n and has no leading zero. */
  lemma {:induction false} DecCanonical(n: nat)
    ensures Value(Dec(n), 10) == n
    ensures Dec(n)[0] == '0' <==> n == 0
  {
    if n < 10 {
      ValueSnoc([], Digit(n, false), 10);
      assert Dec(n) == [] + [Digit(n, false)];
    } else {
      DecCanonical(n / 10);
      ValueSnoc(Dec(n / 10), Digit(n % 10, false), 10);
    }
  }

  lemma {:induction false} HexCanonical(n: nat, upper: bool)
    ensures Value(Hex(n, upper), 16) == n
    ensures Hex(n, upper)[0] == '0' <==> n == 0
  {
    if n < 16 {
      DigitRoundTrip(n, upper);
      ValueSnoc([], Digit(n, upper), 16);
      assert Hex(n, upper) == [] + [Digit(n, upper)];
    } else {
      HexCanonical(n / 16, upper);
      HexSnoc(Hex(n / 16, upper), n / 16, n % 16, upper);
    }
  }

  lemma HexSnoc(s: string, q: nat, r: nat, upper: bool)
    requires Value(s, 16) == q && r < 16
    ensures Value(s + [Digit(r, upper)], 16) == q * 16 + r
  {
    DigitRoundTrip(r, upper);
    ValueSnoc(s, Digit(r, upper), 16);
  }

  function Power(base: nat, e: nat): nat {
    if e == 0 then 1 else base * Power(base, e - 1)
  }

  lemma {:induction false} DecLength(n: nat, k: nat)
    requires k >= 1 && n < Power(10, k)
    ensures |Dec(n)| <= k
    decreases k
  {
    assert Power(10, 1) == 10 * Power(10, 0);
    if n >= 10 {
      DecLength(n / 10, k - 1);
    }
  }

  lemma {:induction false} HexLength(n: nat, upper: bool, k: nat)
    requires k >= 1 && n < Power(16, k)
    ensures |Hex(n, upper)| <= k
    decreases k
  {
    assert Power(16, 1) == 16 * Power(16, 0);
    if n >= 16 {
      HexLength(n / 16, upper, k - 1);
    }
  }

  /** Ten decimal digits and eight hexadecimal ones are enough for 32 bits. */
  lemma Uint32Digits(n: nat, upper: bool)
    requires n < UINT32
    ensures |Dec(n)| <= 10 && |Hex(n, upper)| <= 8
  {
    assert Power(10, 10) == 10_000_000_000 by {
      assert Power(10, 5) == 100_000;
      assert Power(10, 7) == 10 * (10 * Power(10, 5));
      assert Power(10, 9) == 10 * (10 * Power(10, 7));
    }
    Power16Of8();
    DecLength(n, 10);
    HexLength(n, upper, 8);
  }

  lemma Power16Of8()
    ensures Power(16, 8) == UINT32
  {
    assert Power(16, 4) == 65536;
    assert Power(16, 6) == 16 * (16 * Power(16, 4));
  }

  // ---------- padding ----------

  function Fill(c: char, n: nat): (r: string)
    ensures |r| == n && forall i | 0 <= i < n :: r[i] == c
  {
    seq(n, _ => c)
  }

  function PadLeft(s: string, c: char, n: nat): (r: string)
    ensures |r| == if |s| >= n then |s| else n
  {
    if |s| >= n then s else Fill(c, n - |s|) + s
  }

  function PadRight(s: string, n: nat): (r: string)
    ensures |r| == if |s| >= n then |s| else n
  {
    if |s| >= n then s else s + Fill(' ', n - |s|)
  }

  function Capped(n: nat): nat {
    if n < BUFFER_FILL then n else BUFFER_FILL
  }

  // ---------- the text of one conversion ----------

  /** What the digit buffer holds after each padding step of FormatInt and FormatHex. */
  function WithPrecision(v: Conv, digits: string): string {
    if v.hasPrec then PadLeft(digits, '0', Capped(v.prec)) else digits
  }

  function WithZeros(v: Conv, s: string): string {
    if v.zeroPadded then PadLeft(s, '0', Capped(v.width)) else s
  }

  function WithSpaces(v: Conv, s: string): string {
    if v.left then s else PadLeft(s, ' ', Capped(v.width))
  }

  function BufferText(v: Conv, negative: bool, digits: string): string {
    var zeros := WithZeros(v, WithPrecision(v, digits));
    WithSpaces(v, if negative then "-" + zeros else zeros)
  }

  function NumberText(v: Conv, negative: bool, digits: string): string {
    PadRight(BufferText(v, negative, digits), v.width)
  }

  function StringText(v: Conv, s: string): string {
    var shown := if v.hasPrec && v.prec < |s| then s[..v.prec] else s;
    if v.left then PadRight(shown, v.width) else PadLeft(shown, ' ', v.width)
  }

  function PointerText(arg: nat): string {
    "0x" + NumberText(Conv(true, false, 8, false, 0), false, Hex(arg, false))
  }

  // ---------- the format ----------

  /** *fmt at position i; the string's terminator at its end. */
  function CharAt(fmt: string, i: nat): char {
    if i < |fmt| then fmt[i] else NUL
  }

  predicate IsDigit(c: char) {
    '0' <= c <= '9'
  }

  /** The digit loops: the number read and the position behind it. */
  function Number(fmt: string, i: nat, acc: nat): (r: (nat, nat))
    ensures i <= r.1 && (i <= |fmt| ==> r.1 <= |fmt|)
    decreases |fmt| - i
  {
    if i < |fmt| && IsDigit(fmt[i]) then Number(fmt, i + 1, acc * 10 + (fmt[i] - '0') as nat) else (acc, i)
  }

  function IntOf(args: seq<Arg>): int {
    if args != [] && args[0].IntArg? then args[0].value else 0
  }

  function TextOf(args: seq<Arg>): string {
    if args != [] && args[0].StrArg? then args[0].text else ""
  }

  function Rest(args: seq<Arg>): seq<Arg> {
    if args == [] then [] else args[1..]
  }

  function Abs(n: int): nat {
    if n < 0 then -n else n
  }

  function Unsigned(n: int): (u: nat)
    ensures u < UINT32
  {
    n % UINT32
  }

  /** The int32_t with the low 32 bits of n. */
  function Signed(n: int): (l: int)
    ensures -0x8000_0000 <= l <= INT_MAX
  {
    if Unsigned(n) <= INT_MAX then Unsigned(n) else Unsigned(n) - UINT32
  }

  /** Precision after the position of '.', and whether it was '*' and took an argument. */
  function Precision(fmt: string, i: nat, args: seq<Arg>): (r: (bool, nat, nat, seq<Arg>))
    ensures i <= r.2 && (i <= |fmt| ==> r.2 <= |fmt|)
  {
    if CharAt(fmt, i) != '.' then (false, 0, i, args)
    else if CharAt(fmt, i + 1) == '*' then (true, Abs(IntOf(args)), i + 2, Rest(args))
    else var (p, j) := Number(fmt, i + 1, 0); (true, p, j, args)
  }

  /** The conversion that starts behind '%': its fields, where its letter is, the arguments left. */
  function Conversion(fmt: string, i: nat, args: seq<Arg>): (r: (Conv, nat, seq<Arg>))
    ensures i <= r.1 && (i <= |fmt| ==> r.1 <= |fmt|)
  {
    var zero := CharAt(fmt, i) == '0';
    var left := CharAt(fmt, i) == '-';
    var (width, j) := Number(fmt, if zero || left then i + 1 else i, 0);
    var (hasPrec, prec, k, rest) := Precision(fmt, j, args);
    (Conv(zero, left, width, hasPrec, prec), if CharAt(fmt, k) == 'l' then k + 1 else k, rest)
  }

  predicate IsConversion(c: char) {
    c == 'c' || c == 'd' || c == 'i' || c == 'p' || c == 's' || c == 'u' || c == 'x' || c == 'X'
  }

  /** The text of the conversion with this letter. */
  function ConversionText(v: Conv, letter: char, args: seq<Arg>): string
    requires IsConversion(letter)
  {
    match letter
    case 'c' => [(IntOf(args) % 256) as char]
    case 's' => StringText(v, TextOf(args))
    case 'p' => PointerText(Unsigned(IntOf(args)))
    case 'u' => NumberText(v, false, Dec(Unsigned(IntOf(args))))
    case 'x' => NumberText(v, false, Hex(Unsigned(IntOf(args)), false))
    case 'X' => NumberText(v, false, Hex(Unsigned(IntOf(args)), true))
    case _ => NumberText(v, Signed(IntOf(args)) < 0, Dec(Abs(Signed(IntOf(args)))))
  }

  /** Everything Vprintf sends to its sink from position i on. */
  function Rendered(fmt: string, i: nat, args: seq<Arg>): string
    decreases |fmt| - i, 0
  {
    if i >= |fmt| then []
    else if fmt[i] != '%' then [fmt[i]] + Rendered(fmt, i + 1, args)
    else var (v, j, rest) := Conversion(fmt, i + 1, args); Converted(fmt, v, j, rest)
  }

  /** The same from a conversion letter at j on; a letter that is no conversion is read again. */
  function Converted(fmt: string, v: Conv, j: nat, rest: seq<Arg>): string
    requires j <= |fmt|
    decreases |fmt| - j, 1
  {
    var letter := CharAt(fmt, j);
    if IsConversion(letter) then ConversionText(v, letter, rest) + Rendered(fmt, j + 1, Rest(rest))
    else [letter] + Rendered(fmt, j, rest)
  }

  function Output(fmt: string, args: seq<Arg>): string {
    Rendered(fmt, 0, args)
  }

  // ---------- the sink ----------

  /** Characters a sink of this capacity keeps of n: those whose running number is below it. */
  function Kept(capacity: int, n: nat): (k: nat)
    ensures k <= n
  {
    if capacity <= 1 then 0 else if n < capacity then n else capacity - 1
  }

  /** The (int) cast of a size_t. */
  function AsInt(size: nat): int {
    if size <= INT_MAX then size else size - UINT32
  }

  /** What a sink of this capacity holds of a text, before the NUL. */
  function Stored(text: string, capacity: int): string {
    text[..Kept(capacity, |text|)]
  }

  /**
   snprintf stores the first size - 1 characters of what sprintf stores, all of them if there are fewer,
   exactly when the size survives its cast to int or there is nothing to store; and sprintf stores the
   whole text exactly when that is shorter than 2^31 - 1.
   */
  lemma SnprintfKeepsPrefix(size: nat, fmt: string, args: seq<Arg>)
    requires 1 <= size < UINT32
    ensures var all := Stored(Output(fmt, args), INT_MAX);
            && (all == Output(fmt, args) <==> |Output(fmt, args)| < INT_MAX)
            && (Stored(Output(fmt, args), AsInt(size)) == all[..if |all| < size then |all| else size - 1] <==>
                size <= INT_MAX || Output(fmt, args) == [])
  {
    StoredPrefix(Output(fmt, args), size);
  }

  /** A size of 2^31 becomes negative as an int: nothing of "a" is stored. */
  lemma SizeTooLarge()
    ensures Output("a", []) == "a" == Stored("a", INT_MAX) && Stored("a", AsInt(0x8000_0000)) == ""
  {
    assert Rendered("a", 1, []) == [];
  }

  lemma StoredPrefix(text: string, size: nat)
    requires 1 <= size < UINT32
    ensures Stored(text, INT_MAX) == text <==> |text| < INT_MAX
    ensures var all := Stored(text, INT_MAX);
            Stored(text, AsInt(size)) == all[..if |all| < size then |all| else size - 1] <==>
            size <= INT_MAX || text == []
  {
    var all := Stored(text, INT_MAX);
    var k := if |all| < size then |all| else size - 1;
    assert |all| == Kept(INT_MAX, |text|) && |Stored(text, AsInt(size))| == Kept(AsInt(size), |text|);
    assert all[..k] == text[..k] && |all[..k]| == k;
  }

  // ---------- what number conversions look like ----------

  function Max(a: nat, b: nat): nat {
    if a < b then b else a
  }

  /** Zeros FormatInt puts before n digits: up to the precision, or the width of a '0' flag, in the buffer. */
  function ZeroCount(v: Conv, n: nat): nat {
    Max(n, Max(if v.hasPrec then Capped(v.prec) else 0, if v.zeroPadded then Capped(v.width) else 0)) - n
  }

  /** Spaces it puts before n characters, as far as the buffer goes; the rest of the width follows behind. */
  function LeadCount(v: Conv, n: nat): nat {
    if v.left then 0 else Max(n, Capped(v.width)) - n
  }

  /** Spaces, sign, zeros, digits, spaces. */
  function Layout(v: Conv, sign: string, digits: string): string {
    var z := ZeroCount(v, |digits|);
    var lead := LeadCount(v, |sign| + z + |digits|);
    var n := lead + |sign| + z + |digits|;
    Fill(' ', lead) + (sign + (Fill('0', z) + digits)) + Fill(' ', Max(v.width, n) - n)
  }

  /** Every number is laid out so, whatever flags, width and precision, and exactly a negative one has a sign. */
  lemma NumberLayout(v: Conv, negative: bool, digits: string)
    ensures NumberText(v, negative, digits) == Layout(v, if negative then "-" else "", digits)
  {
    var z := ZeroCount(v, |digits|);
    SignInFront(v, negative, digits);
    LaidOut(v, if negative then "-" else "", digits, z, (if negative then "-" else "") + (Fill('0', z) + digits));
  }

  lemma LaidOut(v: Conv, sign: string, digits: string, z: nat, core: string)
    requires z == ZeroCount(v, |digits|) && core == sign + (Fill('0', z) + digits)
    ensures PadRight(WithSpaces(v, core), v.width) == Layout(v, sign, digits)
  {
    SpacesAround(v, |sign| + z + |digits|, core);
  }

  lemma SignInFront(v: Conv, negative: bool, digits: string)
    ensures var zeros := Fill('0', ZeroCount(v, |digits|)) + digits;
            BufferText(v, negative, digits) == WithSpaces(v, (if negative then "-" else "") + zeros)
  {
    var zeros := Fill('0', ZeroCount(v, |digits|)) + digits;
    ZerosLayout(v, digits);
    assert "" + zeros == zeros;
  }

  lemma SpacesAround(v: Conv, n: nat, core: string)
    requires n == |core|
    ensures var lead := LeadCount(v, n);
            PadRight(WithSpaces(v, core), v.width) ==
              Fill(' ', lead) + core + Fill(' ', Max(v.width, lead + n) - (lead + n))
  {
    SpacesLayout(v, core);
  }

  lemma NumberLength(v: Conv, digits: string)
    ensures |NumberText(v, false, digits)| == Max(|digits|, Max(v.width, if v.hasPrec then Capped(v.prec) else 0))
  {
  }

  /** It is as wide as C demands unless the precision outruns the buffer, the width and the digits. */
  lemma NumberWidthIff(v: Conv, digits: string)
    ensures |NumberText(v, false, digits)| == Max(|digits|, Max(v.width, if v.hasPrec then v.prec else 0)) <==>
            !(v.hasPrec && v.prec > BUFFER_FILL && v.prec > v.width && v.prec > |digits|)
  {
    NumberLength(v, digits);
  }

  /** "%.64d" of 7 has 63 digits. */
  lemma PrecisionTooShort()
    ensures var v := Conv(false, false, 0, true, 64);
            Conversion("%.64d", 1, [IntArg(7)]) == (v, 4, [IntArg(7)]) && |NumberText(v, false, Dec(7))| == 63
  {
    NumberLength(Conv(false, false, 0, true, 64), Dec(7));
    var fmt := "%.64d";
    assert Number(fmt, 1, 0) == (0, 1) && Number(fmt, 4, 64) == (64, 4);
    assert Number(fmt, 3, 6) == Number(fmt, 4, 64);
    assert Number(fmt, 2, 0) == Number(fmt, 3, 6);
  }

  /** The spaces of a right-justified number are all in front, as C demands, unless the width outruns the buffer. */
  lemma RightJustifiedIff(v: Conv, digits: string)
    requires !v.left && digits != [] && digits[|digits| - 1] != ' '
    ensures var core := Fill('0', ZeroCount(v, |digits|)) + digits;
            NumberText(v, false, digits) == Fill(' ', Max(v.width, |core|) - |core|) + core <==>
            v.width <= Max(BUFFER_FILL, |core|)
  {
    ZerosLayout(v, digits);
    SpacesIff(v, Fill('0', ZeroCount(v, |digits|)) + digits);
  }

  /** "%64d" of 7 has one of its spaces behind the number. */
  lemma SpaceBehind()
    ensures var v := Conv(false, false, 64, false, 0);
            Conversion("%64d", 1, [IntArg(7)]) == (v, 3, [IntArg(7)])
            && NumberText(v, false, Dec(7)) == Fill(' ', 62) + "7" + " "
  {
    var fmt := "%64d";
    assert Number(fmt, 3, 64) == (64, 3) && Number(fmt, 2, 6) == Number(fmt, 3, 64);
    assert Number(fmt, 1, 0) == Number(fmt, 2, 6);
    assert Dec(7) == "7";
    assert PadLeft("7", ' ', 63) == Fill(' ', 62) + "7";
    assert Fill(' ', 1) == " ";
  }

  lemma SpacesIff(v: Conv, core: string)
    requires !v.left && core != [] && core[|core| - 1] != ' '
    ensures PadRight(WithSpaces(v, core), v.width) == Fill(' ', Max(v.width, |core|) - |core|) + core <==>
            v.width <= Max(BUFFER_FILL, |core|)
  {
    var lead := LeadCount(v, |core|);
    SpacesLayout(v, core);
    SpacesInFront(core, lead, Max(v.width, lead + |core|) - lead - |core|);
  }

  lemma SpacesInFront(core: string, lead: nat, trail: nat)
    requires core != [] && core[|core| - 1] != ' '
    ensures Fill(' ', lead) + core + Fill(' ', trail) == Fill(' ', lead + trail) + core <==> trail == 0
  {
    var left, right := Fill(' ', lead) + core + Fill(' ', trail), Fill(' ', lead + trail) + core;
    var last := lead + |core| + trail - 1;
    assert right[last] == core[|core| - 1];
    if trail > 0 {
      assert left[last] == ' ';
    } else {
      assert left == right;
    }
  }

  lemma SpacesLayout(v: Conv, core: string)
    ensures var lead := LeadCount(v, |core|);
            PadRight(WithSpaces(v, core), v.width) ==
              Fill(' ', lead) + core + Fill(' ', Max(v.width, lead + |core|) - lead - |core|)
  {
    var lead := LeadCount(v, |core|);
    assert Fill(' ', 0) + core == core;
    var w := WithSpaces(v, core);
    assert w == Fill(' ', lead) + core;
    assert w + Fill(' ', 0) == w;
  }

  lemma ZerosLayout(v: Conv, digits: string)
    ensures WithZeros(v, WithPrecision(v, digits)) == Fill('0', ZeroCount(v, |digits|)) + digits
  {
    var wanted := if v.hasPrec then Capped(v.prec) else 0;
    var width := if v.zeroPadded then Capped(v.width) else 0;
    PrecisionLayout(v, digits);
    WidthLayout(v, WithPrecision(v, digits));
    MissingTwice(|digits|, wanted, width);
    var k := Missing(|digits|, wanted);
    FillTwice(Missing(k + |digits|, width), k, digits, ZeroCount(v, |digits|));
  }

  lemma PrecisionLayout(v: Conv, digits: string)
    ensures WithPrecision(v, digits) == Fill('0', Missing(|digits|, if v.hasPrec then Capped(v.prec) else 0)) + digits
  {
    PaddedBy(digits, Capped(v.prec));
  }

  lemma WidthLayout(v: Conv, s: string)
    ensures WithZeros(v, s) == Fill('0', Missing(|s|, if v.zeroPadded then Capped(v.width) else 0)) + s
  {
    PaddedBy(s, Capped(v.width));
  }

  lemma MissingTwice(n: nat, m: nat, w: nat)
    ensures Missing(n + Missing(n, m), w) + Missing(n, m) == Max(n, Max(m, w)) - n
  {
  }

  /** What a text of n characters lacks of m. */
  function Missing(n: nat, m: nat): nat {
    if n < m then m - n else 0
  }

  lemma PaddedBy(s: string, m: nat)
    ensures PadLeft(s, '0', m) == Fill('0', Missing(|s|, m)) + s
    ensures Fill('0', 0) + s == s
  {
  }

  lemma FillTwice(b: nat, a: nat, s: string, total: nat)
    requires total == b + a
    ensures Fill('0', b) + (Fill('0', a) + s) == Fill('0', total) + s
  {
    assert Fill('0', b) + Fill('0', a) == Fill('0', total);
  }

  /**
   The sign is not counted by the '0' flag: a negative number is as wide as C demands unless zeros were
   padded for a width within the buffer, or the precision outruns buffer and width.
   */
  lemma NegativeWidth(v: Conv, digits: string)
    requires |digits| <= BUFFER_FILL
    ensures var body := Max(|digits|, if v.hasPrec then v.prec else 0);
            |NumberText(v, true, digits)| == Max(v.width, body + 1) <==>
            !(v.zeroPadded && body < v.width <= BUFFER_FILL)
            && !(v.hasPrec && v.prec > BUFFER_FILL && v.prec >= v.width)
  {
    ZerosLayout(v, digits);
  }

  /** "%03d" of -7 is four characters wide. */
  lemma NegativeTooWide()
    ensures NumberText(Conv(true, false, 3, false, 0), true, Dec(7)) == "-007"
  {
    assert Dec(7) == "7";
    assert PadLeft("7", '0', 3) == "007";
  }
}
