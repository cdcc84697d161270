/** Hexadecimal text as the program reads and writes it: Python's `int(s, 16)`
    for parsing, `hex(n)` for lower-case output, and the `03X` format for the
    upper-case, zero-padded three-digit form of an entry's flag bits. */
module Hex {
  import opened Common
  import Bits

  predicate IsHexDigit(c: char)
  {
    '0' <= c <= '9' || 'a' <= c <= 'f' || 'A' <= c <= 'F'
  }

  predicate AllHexDigits(s: string)
  {
    forall i :: 0 <= i < |s| ==> IsHexDigit(s[i])
  }

  function DigitValue(c: char): (v: nat)
    requires IsHexDigit(c)
    ensures v < 16
  {
    if '0' <= c <= '9' then c as nat - '0' as nat
    else if 'a' <= c <= 'f' then c as nat - 'a' as nat + 10
    else c as nat - 'A' as nat + 10
  }

  /** The number a string of hex digits denotes, most significant digit first. */
  function DigitsValue(s: string): nat
    requires AllHexDigits(s)
  {
    if |s| == 0 then 0 else DigitsValue(s[..|s| - 1]) * 16 + DigitValue(s[|s| - 1])
  }

  /** The digit character for d, lower case as `hex()` writes it or upper case
      as the `X` format writes it. */
  function DigitChar(d: nat, upper: bool): (c: char)
    requires d < 16
    ensures IsHexDigit(c) && DigitValue(c) == d
    ensures upper ==> !('a' <= c <= 'f')
    ensures !upper ==> !('A' <= c <= 'F')
  {
    if d < 10 then ('0' as nat + d) as char
    else if upper then ('A' as nat + d - 10) as char
    else ('a' as nat + d - 10) as char
  }

  /** Python's `int(s, 16)` for a plain digit string: an optional `0x` or `0X`
      prefix followed by at least one hex digit of either case. */
  function ParseHex(s: string): (r: Option<nat>)
    ensures r.Some? ==> |s| > 0
  {
    var digits := if |s| >= 2 && s[0] == '0' && (s[1] == 'x' || s[1] == 'X') then s[2..] else s;
    if |digits| > 0 && AllHexDigits(digits) then Some(DigitsValue(digits)) else None
  }

  /** The digits of n in base 16 without leading zeros ("0" for zero). */
  function Digits(n: nat): (s: string)
    ensures |s| > 0 && AllHexDigits(s) && DigitsValue(s) == n
    ensures forall i :: 0 <= i < |s| ==> !('A' <= s[i] <= 'F')
    ensures |s| == 1 || s[0] != '0'
    ensures |s| == 1 <==> n < 16
  {
    if n < 16 then [DigitChar(n, false)]
    else
      var front := Digits(n / 16);
      var s := front + [DigitChar(n % 16, false)];
      assert s[..|s| - 1] == front;
      s
  }

  /** Python's `hex(n)`: "0x" followed by the lower-case digits of n. */
  function ToHex(n: nat): (s: string)
    ensures |s| >= 3 && s[..2] == "0x" && AllHexDigits(s[2..])
  {
    "0x" + Digits(n)
  }

  /** `hex(n)` writes lower-case digits with no leading zero. */
  lemma ToHexCanonical(n: nat)
    ensures forall i :: 2 <= i < |ToHex(n)| ==> !('A' <= ToHex(n)[i] <= 'F')
    ensures |ToHex(n)| == 3 || ToHex(n)[2] != '0'
  {
    var s := ToHex(n);
    assert s[2..] == Digits(n);
    forall i | 2 <= i < |s|
      ensures !('A' <= s[i] <= 'F')
    {
      assert s[i] == Digits(n)[i - 2];
    }
  }

  /** `int(hex(n), 16)` gives back n. */
  lemma ParseToHex(n: nat)
    ensures ParseHex(ToHex(n)) == Some(n)
  {
    assert ToHex(n)[2..] == Digits(n);
  }

  /** A plain digit string reads as the number it denotes, and the empty
      string not at all; the `0x` or `0X` prefix changes nothing about the
      digits after it. */
  lemma ParsePrefix(d: string)
    requires AllHexDigits(d)
    ensures ParseHex(d) == if |d| > 0 then Some(DigitsValue(d)) else None
    ensures ParseHex("0x" + d) == ParseHex(d) && ParseHex("0X" + d) == ParseHex(d)
  {
    ParsePlain(d);
    ParseAfterPrefix(d, 'x');
    ParseAfterPrefix(d, 'X');
  }

  /** The model accepts exactly a non-empty digit string, or one behind a
      `0x` or `0X` prefix, and refuses every other text. */
  lemma ParseHexAccepts(s: string)
    ensures ParseHex(s).Some? <==>
      || (|s| > 0 && AllHexDigits(s))
      || (|s| > 2 && s[0] == '0' && (s[1] == 'x' || s[1] == 'X') && AllHexDigits(s[2..]))
  {
    if |s| >= 2 && s[0] == '0' && (s[1] == 'x' || s[1] == 'X') {
      assert !IsHexDigit(s[1]);
    }
  }

  /** A plain digit string never looks like it starts with a prefix. */
  lemma ParsePlain(d: string)
    requires AllHexDigits(d)
    ensures ParseHex(d) == if |d| > 0 then Some(DigitsValue(d)) else None
  {
    if |d| >= 2 && d[0] == '0' {
      assert d[1] != 'x' && d[1] != 'X' by {
        assert IsHexDigit(d[1]);
      }
    }
  }

  /** The prefix `0x` (or `0X`) is dropped before the digits are read. */
  lemma ParseAfterPrefix(d: string, x: char)
    requires AllHexDigits(d) && (x == 'x' || x == 'X')
    ensures ParseHex(['0', x] + d) == if |d| > 0 then Some(DigitsValue(d)) else None
  {
    var s := ['0', x] + d;
    assert s[0] == '0' && s[1] == x && s[2..] == d;
  }

  lemma ParseToHexAll()
    ensures forall n: nat :: ParseHex(ToHex(n)) == Some(n)
  {
    forall n: nat
      ensures ParseHex(ToHex(n)) == Some(n)
    {
      ParseToHex(n);
    }
  }

  /** `hex()` writes each number one way only, so equal text means equal numbers. */
  lemma ToHexInjective(a: nat, b: nat)
    requires ToHex(a) == ToHex(b)
    ensures a == b
  {
    ParseToHex(a);
    ParseToHex(b);
  }

  /** A value below 0x1000 split into its three hexadecimal digits. */
  lemma ThreeDigits(x: nat)
    requires x < 0x1000
    ensures x == (x / 256 * 16 + x / 16 % 16) * 16 + x % 16
  {
    var q := x / 16;
    assert x == q * 16 + x % 16;
    assert q / 16 == x / 256 by { Bits.DivDiv(x, 16, 16); }
    assert q == q / 16 * 16 + q % 16;
  }

  /** The `03X` format of a value below 0x1000: exactly three upper-case
      digits, zero-padded. */
  function Upper3(x: nat): (s: string)
    requires x < 0x1000
    ensures |s| == 3 && AllHexDigits(s) && DigitsValue(s) == x
    ensures forall i :: 0 <= i < 3 ==> !('a' <= s[i] <= 'f')
  {
    var h, m, l := x / 256, x / 16 % 16, x % 16;
    var s := [DigitChar(h, true), DigitChar(m, true), DigitChar(l, true)];
    assert s[..2][..1] == s[..1];
    assert DigitsValue(s[..1]) == h;
    assert DigitsValue(s[..2]) == h * 16 + m;
    assert x == (h * 16 + m) * 16 + l by { ThreeDigits(x); }
    s
  }
}
