/**
 lib-clib/src/printf.cpp as a class: the global `outptr` and the Context fields total and capacity are
 its fields. Every method is proved to send exactly the text PrintfModel gives to the sink, and the
 sink to keep exactly what fits.
 */
module Printf {
  import opened Numbers
  import opened Digits
  import opened PrintfModel

  /** One more character of padding in front of a padded text. */
  lemma PadLeftStep(s: string, c: char, n: nat)
    requires n >= |s|
    ensures [c] + PadLeft(s, c, n) == PadLeft(s, c, n + 1)
  {
    var k := n - |s|;
    assert Fill(c, 0) + s == s;
    assert PadLeft(s, c, n) == Fill(c, k) + s;
    FillStep(s, c, k);
  }

  lemma FillStep(s: string, c: char, k: nat)
    ensures [c] + (Fill(c, k) + s) == Fill(c, k + 1) + s
  {
    assert [c] + Fill(c, k) == Fill(c, k + 1);
  }

  /** Where the padding loop stops the text is padded to n, or to what the buffer holds. */
  lemma PadStop(tail: string, c: char, n: nat, wanted: bool, p: int, p0: int)
    requires -1 <= p <= p0 <= 63 && |tail| == 63 - p0
    requires !wanted ==> p == p0
    requires wanted && 63 - p < n ==> p <= 0
    requires p < p0 ==> p >= 0 && 63 - p <= Capped(n)
    ensures PadLeft(tail, c, 63 - p) == if wanted then PadLeft(tail, c, Capped(n)) else tail
  {
  }

  lemma ItemSent(all: string, sent: string, item: string, todo: string)
    requires sent + (item + todo) == all
    ensures (sent + item) + todo == all && |sent + item| + |todo| == |all|
  {
  }

  lemma LiteralSent(fmt: string, i: nat, args: seq<Arg>)
    requires i < |fmt| && fmt[i] != '%'
    ensures Rendered(fmt, i, args) == [fmt[i]] + Rendered(fmt, i + 1, args)
  {
  }

  lemma NothingLeft(fmt: string, i: nat, args: seq<Arg>)
    requires i >= |fmt|
    ensures Rendered(fmt, i, args) == []
  {
  }

  lemma ConversionSent(fmt: string, i: nat, args: seq<Arg>)
    requires i < |fmt| && fmt[i] == '%'
    ensures var (v, j, rest) := Conversion(fmt, i + 1, args);
            Rendered(fmt, i, args) == LetterSent(fmt, v, j, rest)
  {
    var (v, j, rest) := Conversion(fmt, i + 1, args);
    ConvertedSent(fmt, v, j, rest);
  }

  /** The text from the letter of a conversion on. */
  function LetterSent(fmt: string, v: Conv, j: nat, rest: seq<Arg>): string
    requires j <= |fmt|
  {
    if IsConversion(CharAt(fmt, j)) then ConversionText(v, CharAt(fmt, j), rest) + Rendered(fmt, j + 1, Rest(rest))
    else [CharAt(fmt, j)] + Rendered(fmt, j, rest)
  }

  lemma ConvertedSent(fmt: string, v: Conv, j: nat, rest: seq<Arg>)
    requires j <= |fmt|
    ensures Converted(fmt, v, j, rest) == LetterSent(fmt, v, j, rest)
  {
  }

  /** The spaces in front of a string, what is shown of it, the spaces behind it. */
  lemma StringPieces(v: Conv, s: string, gap: nat)
    requires var shown := Shown(v, s); gap == if |shown| < v.width then v.width - |shown| else 0
    ensures StringText(v, s) == Gap(!v.left, gap) + Shown(v, s) + Gap(v.left, gap)
  {
    var shown := Shown(v, s);
    assert shown + Fill(' ', 0) == shown == Fill(' ', 0) + shown;
    assert Gap(!v.left, gap) + shown + Gap(v.left, gap) ==
           if v.left then shown + Fill(' ', gap) else Fill(' ', gap) + shown;
  }

  function Gap(wanted: bool, gap: nat): string {
    if wanted then Fill(' ', gap) else []
  }

  function Shown(v: Conv, s: string): string {
    if v.hasPrec && v.prec < |s| then s[..v.prec] else s
  }

  class Printer {
    /** The buffer outptr points into and how far it has moved; null stands for a null outptr. */
    var out: array?<char>
    var stored: nat
    var total: nat
    var capacity: int
    var console: seq<char>

    /** All characters given to PutChar since Vprintf began, and what was there before. */
    ghost var text: seq<char>
    ghost var consoleBefore: seq<char>
    ghost var outBefore: seq<char>

    ghost predicate Valid()
      reads this, out
    {
      && total == |text|
      && (out == null ==> console == consoleBefore + text)
      && (out != null ==>
            && console == consoleBefore
            && stored == Kept(capacity, total) <= out.Length == |outBefore|
            && out[..] == text[..stored] + outBefore[stored..])
    }

    /** The buffer is long enough for what is kept of n characters. */
    ghost predicate Fits(n: nat)
      reads this
    {
      out != null ==> Kept(capacity, n) <= out.Length
    }

    twostate predicate Appended(s: seq<char>)
      reads this, out
    {
      && Valid()
      && text == old(text) + s
      && out == old(out) && capacity == old(capacity)
      && consoleBefore == old(consoleBefore) && outBefore == old(outBefore)
    }

    constructor ()
      ensures Valid() && out == null && text == [] && console == []
    {
      out, stored, total, capacity, console := null, 0, 0, 0, [];
      text, consoleBefore, outBefore := [], [], [];
    }

    method PutChar(c: char)
      requires Valid() && Fits(|text| + 1)
      modifies this, out
      ensures Appended([c])
    {
      total := total + 1;
      text := text + [c];
      if out != null {
        if total < capacity {
          out[stored] := c;
          stored := stored + 1;
        }
        return;
      }
      console := console + [c];
    }

    method PutSpaces(n: nat)
      requires Valid() && Fits(|text| + n)
      modifies this, out
      ensures Appended(Fill(' ', n))
    {
      var i := 0;
      while i < n
        invariant i <= n
        invariant Appended(Fill(' ', i))
      {
        PutChar(' ');
        i := i + 1;
      }
    }

    /** Sends s character by character. */
    method PutText(s: seq<char>)
      requires Valid() && Fits(|text| + |s|)
      modifies this, out
      ensures Appended(s)
    {
      var i := 0;
      while i < |s|
        invariant i <= |s|
        invariant Appended(s[..i])
      {
        PutChar(s[i]);
        i := i + 1;
      }
    }

    // ---------- the digit buffer of FormatInt and FormatHex ----------

    /** Fills the buffer backwards with the decimal digits of n; p is the last free place. */
    method FillDec(buffer: array<char>, n: nat) returns (p: int)
      requires buffer.Length == 64 && n < UINT32
      modifies buffer
      ensures 0 <= p < 63 && buffer[p + 1..] == Dec(n)
    {
      Uint32Digits(n, false);
      p := 63;
      var arg, more := n, true;
      while more
        invariant -1 <= p <= 63
        invariant more ==> |Dec(arg)| + (63 - p) == |Dec(n)| && Dec(arg) + buffer[p + 1..] == Dec(n)
        invariant !more ==> p < 63 && buffer[p + 1..] == Dec(n)
        decreases more, arg
      {
        buffer[p] := Digit(arg % 10, false);
        p := p - 1;
        arg := arg / 10;
        more := arg != 0 && p > 0;
      }
    }

    method FillHex(buffer: array<char>, n: nat, upper: bool) returns (p: int)
      requires buffer.Length == 64 && n < UINT32
      modifies buffer
      ensures 0 <= p < 63 && buffer[p + 1..] == Hex(n, upper)
    {
      Uint32Digits(n, upper);
      p := 63;
      var arg, more := n, true;
      while more
        invariant -1 <= p <= 63
        invariant more ==> |Hex(arg, upper)| + (63 - p) == |Hex(n, upper)|
        invariant more ==> Hex(arg, upper) + buffer[p + 1..] == Hex(n, upper)
        invariant !more ==> p < 63 && buffer[p + 1..] == Hex(n, upper)
        decreases more, arg
      {
        buffer[p] := Digit(arg % 16, upper);
        p := p - 1;
        arg := arg / 16;
        more := arg != 0 && p > 0;
      }
    }

    /** A padding loop, run if `wanted`: to n characters, but never past the guard p > buffer. */
    method Pad(wanted: bool, buffer: array<char>, p0: int, c: char, n: nat) returns (p: int)
      requires buffer.Length == 64 && -1 <= p0 <= 63
      modifies buffer
      ensures -1 <= p <= p0 && (p0 >= 0 ==> p >= 0)
      ensures buffer[p + 1..] == if wanted then PadLeft(old(buffer[p0 + 1..]), c, Capped(n)) else old(buffer[p0 + 1..])
    {
      p := p0;
      ghost var tail := buffer[p0 + 1..];
      while wanted && 63 - p < n && p > 0
        invariant -1 <= p <= p0 && (p0 >= 0 ==> p >= 0) && (!wanted ==> p == p0)
        invariant p < p0 ==> 63 - p <= Capped(n)
        invariant buffer[p + 1..] == PadLeft(tail, c, 63 - p)
        decreases p
      {
        PadLeftStep(tail, c, 63 - p);
        buffer[p] := c;
        p := p - 1;
      }
      PadStop(tail, c, n, wanted, p, p0);
    }

    method Sign(negative: bool, buffer: array<char>, p0: int) returns (p: int)
      requires buffer.Length == 64 && 0 <= p0 < 64
      modifies buffer
      ensures p == if negative then p0 - 1 else p0
      ensures buffer[p + 1..] == (if negative then "-" else "") + old(buffer[p0 + 1..])
    {
      p := p0;
      if negative {
        buffer[p] := '-';
        p := p - 1;
      }
    }

    method FillZeros(buffer: array<char>, p0: int, v: Conv, ghost digits: string) returns (p: int)
      requires buffer.Length == 64
      requires 0 <= p0 < 63 && buffer[p0 + 1..] == digits
      modifies buffer
      ensures 0 <= p < 63
      ensures buffer[p + 1..] == WithZeros(v, WithPrecision(v, digits))
    {
      p := Pad(v.hasPrec, buffer, p0, '0', v.prec);
      p := Pad(v.zeroPadded, buffer, p, '0', v.width);
    }

    /** The padding steps after the digits are in the buffer. */
    method FillNumber(buffer: array<char>, p0: int, v: Conv, negative: bool, ghost digits: string) returns (p: int)
      requires buffer.Length == 64
      requires 0 <= p0 < 63 && buffer[p0 + 1..] == digits
      modifies buffer
      ensures -1 <= p < 63
      ensures buffer[p + 1..] == BufferText(v, negative, digits)
    {
      p := FillZeros(buffer, p0, v, digits);
      p := Sign(negative, buffer, p);
      p := Pad(!v.left, buffer, p, ' ', v.width);
    }

    /** The two output loops of FormatInt and FormatHex. */
    method PutNumber(buffer: array<char>, p: int, width: nat)
      requires Valid() && buffer.Length == 64 && buffer != out && -1 <= p < 63
      requires Fits(|text| + |PadRight(buffer[p + 1..], width)|)
      modifies this, out
      ensures Appended(PadRight(old(buffer[p + 1..]), width))
    {
      var count := 63 - p;
      PutText(buffer[p + 1..]);
      if count < width {
        PutSpaces(width - count);
      }
    }

    method FormatInt(v: Conv, negative: bool, arg: nat)
      requires Valid() && arg < UINT32
      requires Fits(|text| + |NumberText(v, negative, Dec(arg))|)
      modifies this, out
      ensures Appended(NumberText(v, negative, Dec(arg)))
    {
      var buffer := new char[64];
      var p := FillDec(buffer, arg);
      Uint32Digits(arg, false);
      p := FillNumber(buffer, p, v, negative, Dec(arg));
      PutNumber(buffer, p, v.width);
    }

    method FormatHex(v: Conv, upper: bool, arg: nat)
      requires Valid() && arg < UINT32
      requires Fits(|text| + |NumberText(v, false, Hex(arg, upper))|)
      modifies this, out
      ensures Appended(NumberText(v, false, Hex(arg, upper)))
    {
      var buffer := new char[64];
      var p := FillHex(buffer, arg, upper);
      Uint32Digits(arg, upper);
      p := FillNumber(buffer, p, v, false, Hex(arg, upper));
      PutNumber(buffer, p, v.width);
    }

    method FormatString(v: Conv, s: string)
      requires Valid() && Fits(|text| + |StringText(v, s)|)
      modifies this, out
      ensures Appended(StringText(v, s))
    {
      var j := |s|;
      if v.hasPrec && v.prec < j {
        j := v.prec;
      }
      var gap := if j < v.width then v.width - j else 0;
      StringPieces(v, s, gap);
      PutPieces(v, s, gap);
    }

    method PutPieces(v: Conv, s: string, gap: nat)
      requires Valid() && Fits(|text| + |Gap(!v.left, gap) + Shown(v, s) + Gap(v.left, gap)|)
      modifies this, out
      ensures Appended(Gap(!v.left, gap) + Shown(v, s) + Gap(v.left, gap))
    {
      PutGap(!v.left, gap);
      PutPrefix(v, s);
      PutGap(v.left, gap);
    }

    /** The spaces before or behind a string. */
    method PutGap(wanted: bool, gap: nat)
      requires Valid() && Fits(|text| + |Gap(wanted, gap)|)
      modifies this, out
      ensures Appended(Gap(wanted, gap))
    {
      if wanted {
        PutSpaces(gap);
      }
    }

    /** The loop over the string itself, which counts the precision down. */
    method PutPrefix(v: Conv, s: string)
      requires Valid() && Fits(|text| + |Shown(v, s)|)
      modifies this, out
      ensures Appended(Shown(v, s))
    {
      var i, left: int := 0, v.prec;
      while (!v.hasPrec || left != 0) && i < |s|
        invariant 0 <= i <= |s| && left == v.prec - i
        invariant v.hasPrec ==> i <= v.prec
        invariant Appended(s[..i])
        decreases |s| - i
      {
        PutChar(s[i]);
        i := i + 1;
        left := left - 1;
      }
    }

    method FormatPointer(arg: nat)
      requires Valid() && arg < UINT32
      requires Fits(|text| + |PointerText(arg)|)
      modifies this, out
      ensures Appended(PointerText(arg))
    {
      PutChar('0');
      PutChar('x');
      FormatHex(Conv(true, false, 8, false, 0), false, arg);
    }

    // ---------- the format loop ----------

    method ReadNumber(fmt: string, i0: nat) returns (n: nat, i: nat)
      ensures (n, i) == Number(fmt, i0, 0)
    {
      n, i := 0, i0;
      while i < |fmt| && IsDigit(fmt[i])
        invariant i0 <= i
        invariant Number(fmt, i0, 0) == Number(fmt, i, n)
        decreases |fmt| - i
      {
        n := n * 10 + (fmt[i] - '0') as nat;
        i := i + 1;
      }
    }

    method ReadPrecision(fmt: string, i0: nat, va0: seq<Arg>) returns (hasPrec: bool, prec: nat, i: nat, va: seq<Arg>)
      ensures (hasPrec, prec, i, va) == Precision(fmt, i0, va0)
    {
      hasPrec, prec, i, va := false, 0, i0, va0;
      if CharAt(fmt, i) == '.' {
        i := i + 1;
        if CharAt(fmt, i) == '*' {
          i := i + 1;
          var star := IntOf(va);
          va := Rest(va);
          if star < 0 {
            star := -star;
          }
          prec := star;
        } else {
          prec, i := ReadNumber(fmt, i);
        }
        hasPrec := true;
      }
    }

    /** From behind '%' to the conversion letter. */
    method ReadConversion(fmt: string, i0: nat, va0: seq<Arg>) returns (v: Conv, i: nat, va: seq<Arg>)
      ensures (v, i, va) == Conversion(fmt, i0, va0)
    {
      i := i0;
      var zero, left := false, false;
      if CharAt(fmt, i) == '0' {
        zero := true;
        i := i + 1;
      } else if CharAt(fmt, i) == '-' {
        left := true;
        i := i + 1;
      }
      var width, hasPrec, prec;
      width, i := ReadNumber(fmt, i);
      hasPrec, prec, i, va := ReadPrecision(fmt, i, va0);
      if CharAt(fmt, i) == 'l' {
        i := i + 1;
      }
      v := Conv(zero, left, width, hasPrec, prec);
    }

    /** The switch of Vprintf on a letter it knows. */
    method Convert(v: Conv, letter: char, va: seq<Arg>)
      requires IsConversion(letter)
      requires Valid() && Fits(|text| + |ConversionText(v, letter, va)|)
      modifies this, out
      ensures Appended(ConversionText(v, letter, va))
    {
      var n := IntOf(va);
      match letter {
        case 'c' => PutChar((n % 256) as char);
        case 'p' => FormatPointer(Unsigned(n));
        case 's' => FormatString(v, TextOf(va));
        case 'u' => FormatInt(v, false, Unsigned(n));
        case 'X' => FormatHex(v, true, Unsigned(n));
        case 'x' => FormatHex(v, false, Unsigned(n));
        case _ =>
          var l := Signed(n);
          var negative := l < 0;
          if negative {
            l := -l;
          }
          FormatInt(v, negative, l);
      }
    }

    /** One turn of the loop of Vprintf: a literal character or a conversion. */
    method PutItem(fmt: string, i0: nat, va0: seq<Arg>)
      returns (i: nat, va: seq<Arg>, ghost item: string, ghost todo: string)
      requires i0 < |fmt|
      requires Valid() && Fits(|text| + |Rendered(fmt, i0, va0)|)
      modifies this, out
      ensures i > i0 && Appended(item)
      ensures Rendered(fmt, i0, va0) == item + todo && todo == Rendered(fmt, i, va)
    {
      if fmt[i0] != '%' {
        PutLiteral(fmt, i0, va0);
        return i0 + 1, va0, [fmt[i0]], Rendered(fmt, i0 + 1, va0);
      }
      i, va, item := PutConversion(fmt, i0, va0);
      todo := Rendered(fmt, i, va);
    }

    method PutLiteral(fmt: string, i: nat, ghost va: seq<Arg>)
      requires i < |fmt| && fmt[i] != '%'
      requires Valid() && Fits(|text| + |Rendered(fmt, i, va)|)
      modifies this, out
      ensures Appended([fmt[i]])
      ensures Rendered(fmt, i, va) == [fmt[i]] + Rendered(fmt, i + 1, va)
    {
      LiteralSent(fmt, i, va);
      PutChar(fmt[i]);
    }

    method PutConversion(fmt: string, i0: nat, va0: seq<Arg>) returns (i: nat, va: seq<Arg>, ghost item: string)
      requires i0 < |fmt| && fmt[i0] == '%'
      requires Valid() && Fits(|text| + |Rendered(fmt, i0, va0)|)
      modifies this, out
      ensures i > i0 && Appended(item)
      ensures Rendered(fmt, i0, va0) == item + Rendered(fmt, i, va)
    {
      var v, j, rest := ReadConversion(fmt, i0 + 1, va0);
      ConversionSent(fmt, i0, va0);
      i, va, item := PutLetter(fmt, v, j, rest);
    }

    /** From the letter of a conversion on; a letter that is none is sent and read again. */
    method PutLetter(fmt: string, v: Conv, j: nat, rest: seq<Arg>) returns (i: nat, va: seq<Arg>, ghost item: string)
      requires j <= |fmt|
      requires Valid() && Fits(|text| + |LetterSent(fmt, v, j, rest)|)
      modifies this, out
      ensures i >= j && Appended(item)
      ensures LetterSent(fmt, v, j, rest) == item + Rendered(fmt, i, va)
    {
      var letter := CharAt(fmt, j);
      if IsConversion(letter) {
        i, va, item := j + 1, Rest(rest), ConversionText(v, letter, rest);
        Convert(v, letter, rest);
      } else {
        i, va, item := j, rest, [letter];
        PutChar(letter);
      }
    }

    /** The loop of Vprintf over the format. */
    method PutFormat(fmt: string, args: seq<Arg>)
      requires Valid() && Fits(|text| + |Output(fmt, args)|)
      modifies this, out
      ensures Appended(Output(fmt, args))
    {
      var i, va := 0, args;
      ghost var all := Output(fmt, args);
      ghost var sent, todo := [], all;
      while i < |fmt|
        invariant Appended(sent) && sent + todo == all
        invariant |sent| + |todo| == |all| && todo == Rendered(fmt, i, va)
        decreases |fmt| - i
      {
        ghost var item;
        i, va, item, todo := PutItem(fmt, i, va);
        ItemSent(all, sent, item, todo);
        sent := sent + item;
      }
      NothingLeft(fmt, i, va);
      assert sent + todo == sent;
    }

    /** Vprintf with outptr already set. */
    method Vprintf(size: int, fmt: string, args: seq<Arg>) returns (n: nat)
      requires out != null ==> stored == 0 && Kept(size, |Output(fmt, args)|) <= out.Length
      modifies this, out
      ensures n == |Output(fmt, args)| && text == Output(fmt, args)
      ensures Valid() && out == old(out) && capacity == size
      ensures consoleBefore == old(console) && (out != null ==> outBefore == old(out[..]))
    {
      total, capacity := 0, size;
      text, consoleBefore := [], console;
      outBefore := if out == null then [] else out[..];
      PutFormat(fmt, args);
      n := total;
    }

    /** vsnprintf and snprintf. */
    method Snprintf(str: array<char>, size: nat, fmt: string, args: seq<Arg>) returns (n: nat)
      requires size < UINT32 && size <= str.Length
      modifies this, str
      ensures n == |Output(fmt, args)|
      ensures out == null
      ensures size == 0 ==> str[..] == old(str[..]) && console == old(console) + Output(fmt, args)
      ensures size > 0 ==>
                var k := Kept(AsInt(size), n);
                && k < size && console == old(console)
                && str[..k] == Stored(Output(fmt, args), AsInt(size))
                && str[k] == NUL && str[k + 1..] == old(str[k + 1..])
    {
      if size == 0 {
        out := null;
        n := Vprintf(0, fmt, args);
        return;
      }
      out, stored := str, 0;
      n := Vprintf(AsInt(size), fmt, args);
      out[stored] := NUL;
      out := null;
    }

    /** sprintf and vsprintf: the caller's buffer holds the text and its terminator. */
    method Sprintf(str: array<char>, fmt: string, args: seq<Arg>) returns (n: nat)
      requires |Output(fmt, args)| < str.Length
      modifies this, str
      ensures n == |Output(fmt, args)|
      ensures out == null && console == old(console)
      ensures var k := Kept(INT_MAX, n);
              str[..k] == Stored(Output(fmt, args), INT_MAX) && str[k] == NUL && str[k + 1..] == old(str[k + 1..])
    {
      out, stored := str, 0;
      n := Vprintf(INT_MAX, fmt, args);
      out[stored] := NUL;
      out := null;
    }
  }
}
