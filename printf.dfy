/** The printf conversions the asset tools and the test harness emit:
    `%d`/`%zu` (decimal) and `%08X` (eight upper-case hex digits). */
module Printf {
  import opened CTypes
  import Sv

  /** The digit character of 0..9. */
  function DigitChar(d: nat): (c: char)
    requires d < 10
    ensures IsDigit(c) && DigitValue(c) == d
  {
    ('0' as int + d) as char
  }

  /** `%zu`: the decimal digits of n, most significant first, no leading
      zeros. */
  function DecimalDigits(n: nat): (s: seq<char>)
    ensures |s| > 0 && forall i :: 0 <= i < |s| ==> IsDigit(s[i])
    ensures |s| > 1 ==> s[0] != '0'
  {
    if n < 10 then [DigitChar(n)] else DecimalDigits(n / 10) + [DigitChar(n % 10)]
  }

  /** `%d`: a '-' before the digits of a negative value. */
  function SignedDecimal(n: int): (s: seq<char>)
    ensures n >= 0 ==> s == DecimalDigits(n)
    ensures n < 0 ==> s == ['-'] + DecimalDigits(-n)
  {
    if n < 0 then ['-'] + DecimalDigits(-n) else DecimalDigits(n)
  }

  /** Reading the digits back gives the number. */
  lemma {:induction false} DecimalRoundTrip(n: nat)
    ensures Sv.Decimal(DecimalDigits(n)) == n
  {
    var s := DecimalDigits(n);
    if n >= 10 {
      DecimalRoundTrip(n / 10);
      assert s[..|s| - 1] == DecimalDigits(n / 10);
    } else {
      assert s[..0] == [];
    }
  }

  /** The upper-case hex digit of 0..15, as printf's `%X` writes it. */
  function HexDigit(d: nat): (c: char)
    requires d < 16
    ensures d < 10 ==> c == DigitChar(d)
    ensures d >= 10 ==> 'A' <= c <= 'F' && c as int - 'A' as int + 10 == d
  {
    if d < 10 then DigitChar(d) else ('A' as int + d - 10) as char
  }

  /** The value of a hex digit character. */
  function HexValue(c: char): nat {
    if '0' <= c <= '9' then c as int - '0' as int
    else if 'A' <= c <= 'F' then c as int - 'A' as int + 10
    else 0
  }

  function Pow16(n: nat): (p: nat)
    ensures p >= 1
  {
    if n == 0 then 1 else 16 * Pow16(n - 1)
  }

  /** The last n hex digits of v, most significant first. */
  function HexDigits(v: nat, n: nat): (s: seq<char>)
    ensures |s| == n
  {
    if n == 0 then [] else HexDigits(v / 16, n - 1) + [HexDigit(v % 16)]
  }

  /** The value of a string of hex digits. */
  function HexNumber(s: seq<char>): nat {
    if s == [] then 0 else HexNumber(s[..|s| - 1]) * 16 + HexValue(s[|s| - 1])
  }

  /** `%08X` of a 32-bit value: exactly eight digits. */
  function Hex08(v: u32): (s: seq<char>)
    ensures |s| == 8
  {
    HexDigits(v, 8)
  }

  /** Splitting off the last hex digit: v mod 16p is 16 times (v/16 mod p)
      plus the last digit. */
  lemma ModSixteen(v: nat, p: nat)
    requires p >= 1
    ensures v % (16 * p) == 16 * ((v / 16) % p) + v % 16
  {
    var a := v / 16;
    var b := v % 16;
    var q := a / p;
    var r := a % p;
    assert v == 16 * a + b;
    assert a == q * p + r;
    assert v == q * (16 * p) + (16 * r + b) by {
      assert 16 * a == 16 * (q * p) + 16 * r;
      assert 16 * (q * p) == q * (16 * p);
    }
    MulLe(r, p - 1, 16);
    DivModUnique(v, 16 * p, q, 16 * r + b);
  }

  /** n hex digits read back give v modulo 16^n. */
  lemma {:induction false} HexDigitsRoundTrip(v: nat, n: nat)
    ensures HexNumber(HexDigits(v, n)) == v % Pow16(n)
  {
    if n == 0 {
      DivModUnique(v, 1, v, 0);
    } else {
      var s := HexDigits(v, n);
      assert s[..|s| - 1] == HexDigits(v / 16, n - 1);
      HexDigitsRoundTrip(v / 16, n - 1);
      assert HexValue(HexDigit(v % 16)) == v % 16;
      ModSixteen(v, Pow16(n - 1));
    }
  }

  /** `%08X` loses nothing for a 32-bit value. */
  lemma Hex08RoundTrip(v: u32)
    ensures HexNumber(Hex08(v)) == v
  {
    HexDigitsRoundTrip(v, 8);
    assert Pow16(2) == 0x100;
    assert Pow16(4) == 0x1_0000;
    assert Pow16(6) == 0x100_0000;
    assert Pow16(8) == 0x1_0000_0000;
    DivModUnique(v, 0x1_0000_0000, 0, v);
  }
}
