/** Bytes, characters, and digits as characters. */
module Digits {
  type Byte = x: nat | x < 256

  const NUL: char := '\0'

  function Digit(u: nat, upper: bool): char
    requires u < 16
  {
    if u < 10 then '0' + u as char else if upper then 'A' + (u - 10) as char else 'a' + (u - 10) as char
  }

  function DigitValue(c: char): nat {
    if '0' <= c <= '9' then (c - '0') as nat
    else if 'a' <= c <= 'z' then (c - 'a') as nat + 10
    else if 'A' <= c <= 'Z' then (c - 'A') as nat + 10
    else 0
  }

  /** isxdigit. */
  predicate IsHex(c: char) {
    '0' <= c <= '9' || 'a' <= c <= 'f' || 'A' <= c <= 'F'
  }

  lemma DigitRoundTrip(u: nat, upper: bool)
    requires u < 16
    ensures IsHex(Digit(u, upper))
    ensures DigitValue(Digit(u, upper)) == u
    ensures Digit(u, upper) == '0' <==> u == 0
  {
  }

  function LowerChar(c: char): char {
    if 'A' <= c <= 'Z' then c - 'A' + 'a' else c
  }

  lemma DigitOfValue(c: char)
    requires IsHex(c)
    ensures DigitValue(c) < 16 && Digit(DigitValue(c), false) == LowerChar(c)
  {
  }
}
