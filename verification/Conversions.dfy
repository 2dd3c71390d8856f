/**
 What each conversion of printf means: how its text is read, and what every letter sends, in terms of
 the numbers and strings and not of the functions that build them.
 */
module Conversions {
  import opened Numbers
  import opened Digits
  import opened PrintfModel
  import opened FormatSteps

  // ---------- reading a conversion ----------

  /** This text stands at position i. */
  predicate At(f: string, i: nat, s: string) {
    i + |s| <= |f| && f[i..i + |s|] == s
  }

  function FlagText(v: Conv): string {
    if v.zeroPadded then "0" else if v.left then "-" else ""
  }

  function WidthText(v: Conv): string {
    if v.width == 0 then "" else Dec(v.width)
  }

  function PrecText(v: Conv): string {
    if v.hasPrec then "." + Dec(v.prec) else ""
  }

  /** '%', the flag and the width of v stand at position i, up to q. */
  predicate HeadAt(f: string, i: nat, v: Conv, q: nat) {
    var p := i + 1 + |FlagText(v)|;
    && At(f, i, "%") && At(f, i + 1, FlagText(v)) && At(f, p, WidthText(v)) && q == p + |WidthText(v)|
    && !(v.zeroPadded && v.left)
  }

  /** And behind them its precision, up to the letter at `end` or an 'l' in front of that. */
  ghost predicate SpecAt(f: string, i: nat, v: Conv, end: nat) {
    exists q :: HeadAt(f, i, v, q) && PrecAt(f, q, v, end)
  }

  predicate PrecAt(f: string, q: nat, v: Conv, end: nat) {
    && At(f, q, PrecText(v)) && end == q + |PrecText(v)| && (v.hasPrec || v.prec == 0)
    && end < |f| && (IsConversion(f[end]) || f[end] == 'l')
  }

  /** The same with ".*" for the precision. */
  predicate StarAt(f: string, i: nat, v: Conv, end: nat) {
    && end >= 2 && HeadAt(f, i, v, end - 2) && At(f, end - 2, ".*")
    && end < |f| && (IsConversion(f[end]) || f[end] == 'l')
  }

  /** Where the letter is. */
  function Letter(f: string, end: nat): nat {
    if CharAt(f, end) == 'l' then end + 1 else end
  }

  /** A text at position i is its first character there and the rest behind. */
  lemma AtParts(f: string, i: nat, s: string)
    requires At(f, i, s) && s != []
    ensures f[i] == s[0] && At(f, i + 1, s[1..])
  {
    assert f[i..i + |s|][0] == s[0];
    assert f[i + 1..i + |s|] == f[i..i + |s|][1..];
  }

  lemma NoNumber(f: string, i: nat)
    requires !IsDigit(CharAt(f, i))
    ensures Number(f, i, 0) == (0, i)
  {
  }

  /** The digits of a number are read back, up to the first other character. */
  lemma {:induction false} NumberRead(f: string, i: nat, s: string, acc: nat)
    requires At(f, i, s) && AllDigits(s) && !IsDigit(CharAt(f, i + |s|))
    ensures Number(f, i, acc) == (ValueFrom(s, acc), i + |s|)
    decreases |s|
  {
    if s != [] {
      assert f[i] == s[0] && f[i + 1..i + |s|] == s[1..];
      NumberRead(f, i + 1, s[1..], acc * 10 + (s[0] - '0') as nat);
    }
  }

  lemma DecRead(f: string, i: nat, n: nat)
    requires At(f, i, Dec(n)) && !IsDigit(CharAt(f, i + |Dec(n)|))
    ensures Number(f, i, 0) == (n, i + |Dec(n)|)
  {
    ValueFromDec(n);
    NumberRead(f, i, Dec(n), 0);
  }

  /** What may stand behind flag and width: no digit, no flag. */
  predicate EndsWidth(c: char) {
    !IsDigit(c) && c != '-'
  }

  lemma FlagRead(f: string, i: nat, v: Conv, q: nat)
    requires HeadAt(f, i, v, q) && EndsWidth(CharAt(f, q))
    ensures CharAt(f, i + 1) == '0' <==> v.zeroPadded
    ensures CharAt(f, i + 1) == '-' <==> v.left
  {
    if v.zeroPadded || v.left {
      AtParts(f, i + 1, FlagText(v));
    } else if v.width > 0 {
      AtParts(f, i + 1, WidthText(v));
      DecCanonical(v.width);
      ValueFromDec(v.width);
    }
  }

  lemma WidthRead(f: string, i: nat, v: Conv, q: nat)
    requires HeadAt(f, i, v, q) && EndsWidth(CharAt(f, q))
    ensures Number(f, i + 1 + |FlagText(v)|, 0) == (v.width, q)
  {
    var p := i + 1 + |FlagText(v)|;
    if v.width > 0 {
      DecRead(f, p, v.width);
    } else {
      NoNumber(f, p);
    }
  }

  /** A point and digits. */
  lemma PointRead(f: string, q: nat, prec: nat, end: nat, args: seq<Arg>)
    requires q < |f| && f[q] == '.' && At(f, q + 1, Dec(prec)) && end == q + 1 + |Dec(prec)| && !IsDigit(CharAt(f, end))
    ensures Precision(f, q, args) == (true, prec, end, args)
  {
    AtParts(f, q + 1, Dec(prec));
    ValueFromDec(prec);
    DecRead(f, q + 1, prec);
  }

  lemma PrecRead(f: string, q: nat, v: Conv, end: nat, args: seq<Arg>)
    requires PrecAt(f, q, v, end)
    ensures Precision(f, q, args) == (v.hasPrec, v.prec, end, args) && EndsWidth(CharAt(f, q))
  {
    if v.hasPrec {
      AtParts(f, q, PrecText(v));
      PointRead(f, q, v.prec, end, args);
    }
  }

  /** A conversion is read as it is written: flag, width, precision, and where its letter is. */
  lemma SpecRead(f: string, i: nat, v: Conv, end: nat, args: seq<Arg>)
    requires SpecAt(f, i, v, end)
    ensures Conversion(f, i + 1, args) == (v, Letter(f, end), args)
  {
    var q :| HeadAt(f, i, v, q) && PrecAt(f, q, v, end);
    PrecRead(f, q, v, end, args);
    HeadRead(f, i, v, q, args);
  }

  lemma HeadRead(f: string, i: nat, v: Conv, q: nat, args: seq<Arg>)
    requires HeadAt(f, i, v, q) && EndsWidth(CharAt(f, q))
    ensures var (hasPrec, prec, k, rest) := Precision(f, q, args);
            Conversion(f, i + 1, args) == (v.(hasPrec := hasPrec, prec := prec), Letter(f, k), rest)
  {
    FlagRead(f, i, v, q);
    WidthRead(f, i, v, q);
  }

  lemma StarPrecision(f: string, q: nat, m: int, args: seq<Arg>)
    requires q + 1 < |f| && f[q] == '.' && f[q + 1] == '*'
    ensures Precision(f, q, [IntArg(m)] + args) == (true, if m < 0 then -m else m, q + 2, args)
  {
    assert Rest([IntArg(m)] + args) == args;
  }

  /** "*" takes an argument for the precision; a negative one counts as positive. */
  lemma StarRead(f: string, i: nat, v: Conv, end: nat, m: int, args: seq<Arg>)
    requires StarAt(f, i, v, end)
    ensures Conversion(f, i + 1, [IntArg(m)] + args) ==
            (v.(hasPrec := true, prec := if m < 0 then -m else m), Letter(f, end), args)
  {
    var q := end - 2;
    AtParts(f, q, ".*");
    AtParts(f, q + 1, ".*"[1..]);
    StarPrecision(f, q, m, args);
    HeadRead(f, i, v, q, [IntArg(m)] + args);
  }

  // ---------- what the letters send ----------

  /** A conversion with this letter is read at position i, and these arguments are left. */
  predicate Reads(f: string, i: nat, args: seq<Arg>, v: Conv, j: nat, letter: char, rest: seq<Arg>) {
    i < |f| && f[i] == '%' && Conversion(f, i + 1, args) == (v, j, rest) && j < |f| && f[j] == letter
  }

  /** The switch sends the text of its letter and goes on behind it. */
  lemma LetterSent(f: string, i: nat, va: seq<Arg>, v: Conv, j: nat, letter: char, rest: seq<Arg>)
    requires Reads(f, i, va, v, j, letter, rest) && IsConversion(letter)
    ensures Rendered(f, i, va) == ConversionText(v, letter, rest) + Rendered(f, j + 1, Rest(rest))
  {
  }

  lemma RestOf(a: Arg, args: seq<Arg>)
    ensures Rest([a] + args) == args
  {
  }

  lemma UnsignedOf(n: nat)
    requires n < UINT32
    ensures Unsigned(n) == n
  {
  }

  lemma DecimalText(v: Conv, letter: char, n: int, args: seq<Arg>)
    requires letter == 'd' || letter == 'i'
    requires -INT_MAX - 1 <= n <= INT_MAX
    ensures ConversionText(v, letter, [IntArg(n)] + args) ==
            if n < 0 then Layout(v, "-", Dec(-n)) else Layout(v, "", Dec(n))
  {
    SignedOf(n);
    NumberLayout(v, n < 0, Dec(Abs(n)));
  }

  /** %d and %i: the number with its sign, laid out by flag, width and precision. */
  lemma DecimalSent(f: string, i: nat, va: seq<Arg>, v: Conv, j: nat, letter: char, n: int, args: seq<Arg>)
    requires Reads(f, i, va, v, j, letter, [IntArg(n)] + args) && (letter == 'd' || letter == 'i')
    requires -INT_MAX - 1 <= n <= INT_MAX
    ensures Rendered(f, i, va) ==
            (if n < 0 then Layout(v, "-", Dec(-n)) else Layout(v, "", Dec(n))) + Rendered(f, j + 1, args)
  {
    DecimalText(v, letter, n, args);
    RestOf(IntArg(n), args);
    LetterSent(f, i, va, v, j, letter, [IntArg(n)] + args);
  }

  lemma UnsignedText(v: Conv, n: nat, args: seq<Arg>)
    requires n < UINT32
    ensures ConversionText(v, 'u', [IntArg(n)] + args) == Layout(v, "", Dec(n))
  {
    UnsignedOf(n);
    NumberLayout(v, false, Dec(n));
  }

  /** %u: the number as 32 bits without a sign. */
  lemma UnsignedSent(f: string, i: nat, va: seq<Arg>, v: Conv, j: nat, n: nat, args: seq<Arg>)
    requires Reads(f, i, va, v, j, 'u', [IntArg(n)] + args) && n < UINT32
    ensures Rendered(f, i, va) == Layout(v, "", Dec(n)) + Rendered(f, j + 1, args)
  {
    UnsignedText(v, n, args);
    RestOf(IntArg(n), args);
    LetterSent(f, i, va, v, j, 'u', [IntArg(n)] + args);
  }

  lemma HexText(v: Conv, upper: bool, n: nat, args: seq<Arg>)
    requires n < UINT32
    ensures ConversionText(v, if upper then 'X' else 'x', [IntArg(n)] + args) == Layout(v, "", Hex(n, upper))
  {
    UnsignedOf(n);
    NumberLayout(v, false, Hex(n, upper));
  }

  /** %x and %X: its hexadecimal digits. */
  lemma HexSent(f: string, i: nat, va: seq<Arg>, v: Conv, j: nat, upper: bool, n: nat, args: seq<Arg>)
    requires Reads(f, i, va, v, j, if upper then 'X' else 'x', [IntArg(n)] + args) && n < UINT32
    ensures Rendered(f, i, va) == Layout(v, "", Hex(n, upper)) + Rendered(f, j + 1, args)
  {
    HexText(v, upper, n, args);
    RestOf(IntArg(n), args);
    LetterSent(f, i, va, v, j, if upper then 'X' else 'x', [IntArg(n)] + args);
  }

  /** %p: "0x" and w = 8 digits, whatever flag, width and precision. */
  lemma PointerSent(f: string, i: nat, va: seq<Arg>, v: Conv, j: nat, n: nat, w: nat, args: seq<Arg>)
    requires Reads(f, i, va, v, j, 'p', [IntArg(n)] + args) && n < UINT32 && w == 8
    ensures Rendered(f, i, va) == "0x" + HexFixed(n, w, false) + Rendered(f, j + 1, args)
  {
    PointerDigits(n, w);
    PointerArg(v, n, args);
    RestOf(IntArg(n), args);
    LetterSent(f, i, va, v, j, 'p', [IntArg(n)] + args);
  }

  lemma PointerArg(v: Conv, n: nat, args: seq<Arg>)
    requires n < UINT32
    ensures ConversionText(v, 'p', [IntArg(n)] + args) == PointerText(n)
  {
    UnsignedOf(n);
  }

  lemma PointerDigits(n: nat, w: nat)
    requires n < UINT32 && w == 8
    ensures PointerText(n) == "0x" + HexFixed(n, w, false)
  {
    Power16Of8();
    PaddedHexIsFixed(n, w, false);
  }

  lemma CharText(v: Conv, c: char, args: seq<Arg>)
    requires c as int < 256
    ensures ConversionText(v, 'c', [IntArg(c as int)] + args) == [c]
  {
  }

  /** %c: the one character, whatever flag and width. */
  lemma CharSent(f: string, i: nat, va: seq<Arg>, v: Conv, j: nat, c: char, args: seq<Arg>)
    requires Reads(f, i, va, v, j, 'c', [IntArg(c as int)] + args) && c as int < 256
    ensures Rendered(f, i, va) == [c] + Rendered(f, j + 1, args)
  {
    CharText(v, c, args);
    RestOf(IntArg(c as int), args);
    LetterSent(f, i, va, v, j, 'c', [IntArg(c as int)] + args);
  }

  /** C demands its width of a character too: it has it only if that is at most one. */
  lemma CharWidthIff(v: Conv, c: char, args: seq<Arg>)
    requires c as int < 256
    ensures |ConversionText(v, 'c', [IntArg(c as int)] + args)| == Max(1, v.width) <==> v.width <= 1
  {
    CharText(v, c, args);
  }

  /** "%5c" sends one character. */
  lemma CharTooShort()
    ensures Output("%5c", [IntArg('x' as int)]) == "x"
  {
    var f, v := "%5c", Conv(false, false, 5, false, 0);
    assert Number(f, 2, 5) == (5, 2) && Number(f, 1, 0) == Number(f, 2, 5);
    assert [IntArg('x' as int)] + [] == [IntArg('x' as int)];
    CharSent(f, 0, [IntArg('x' as int)], v, 2, 'x', []);
  }

  lemma ShownString(v: Conv, s: string, n: nat)
    requires n == if v.hasPrec && v.prec < |s| then v.prec else |s|
    ensures var gap := Max(v.width, n) - n;
            StringText(v, s) == if v.left then s[..n] + Fill(' ', gap) else Fill(' ', gap) + s[..n]
  {
    assert s[..|s|] == s;
    assert s[..n] + Fill(' ', 0) == s[..n] == Fill(' ', 0) + s[..n];
  }

  /** %s: the string, cut to the precision, with spaces in front or, after '-', behind. */
  lemma StringSent(f: string, i: nat, va: seq<Arg>, v: Conv, j: nat, s: string, args: seq<Arg>)
    requires Reads(f, i, va, v, j, 's', [StrArg(s)] + args)
    ensures var n := if v.hasPrec && v.prec < |s| then v.prec else |s|;
            var gap := Max(v.width, n) - n;
            Rendered(f, i, va) ==
              (if v.left then s[..n] + Fill(' ', gap) else Fill(' ', gap) + s[..n]) + Rendered(f, j + 1, args)
  {
    var n := if v.hasPrec && v.prec < |s| then v.prec else |s|;
    ShownString(v, s, n);
    RestOf(StrArg(s), args);
    LetterSent(f, i, va, v, j, 's', [StrArg(s)] + args);
  }

  /** A letter that is no conversion is sent twice: by the switch, and again as an ordinary character. */
  lemma UnknownSentTwice(f: string, i: nat, va: seq<Arg>, v: Conv, j: nat, c: char, rest: seq<Arg>)
    requires Reads(f, i, va, v, j, c, rest) && !IsConversion(c) && c != '%'
    ensures Rendered(f, i, va) == [c] + ([c] + Rendered(f, j + 1, rest))
  {
    assert Rendered(f, j, rest) == [c] + Rendered(f, j + 1, rest);
    assert Converted(f, v, j, rest) == [c] + Rendered(f, j, rest);
  }

  /** "%%" sends one '%', and its second one starts a conversion of its own. */
  lemma PercentStartsAgain(f: string, i: nat, va: seq<Arg>)
    requires i + 1 < |f| && f[i] == '%' && f[i + 1] == '%'
    ensures Rendered(f, i, va) == "%" + Rendered(f, i + 1, va)
  {
  }

  /** A format that ends in "%%" sends its terminator too. */
  lemma PercentAtEnd()
    ensures Output("%%", []) == ['%', NUL]
  {
    var f := "%%";
    PercentStartsAgain(f, 0, []);
    assert Rendered(f, 1, []) == [NUL] + Rendered(f, 2, []);
  }

  /** Everything else is sent as it stands. */
  lemma {:induction false} PlainFormat(f: string, i: nat, args: seq<Arg>)
    requires i <= |f| && '%' !in f[i..]
    ensures Rendered(f, i, args) == f[i..]
    decreases |f| - i
  {
    if i < |f| {
      assert f[i..] == [f[i]] + f[i + 1..];
      PlainFormat(f, i + 1, args);
    }
  }
}
