/** Rendering and parsing of unsigned numbers as ASCII text.

    The firmware renders counters with `sprintf` (`%u`, `%lu` and `%04X`) and the
    host tool reads them back with Python's `int()`. Both directions live here so
    that the round trip between them can be stated once. */
module Ascii {

  predicate IsDigit(c: char) { '0' <= c <= '9' }

  predicate IsUpperHexDigit(c: char) { IsDigit(c) || 'A' <= c <= 'F' }

  predicate IsHexDigit(c: char) { IsUpperHexDigit(c) || 'a' <= c <= 'f' }

  predicate AllDigits(s: string) { forall i :: 0 <= i < |s| ==> IsDigit(s[i]) }

  predicate AllHexDigits(s: string) { forall i :: 0 <= i < |s| ==> IsHexDigit(s[i]) }

  /** The value of one hexadecimal digit, in either case. */
  function HexDigitValue(c: char): (v: nat)
    requires IsHexDigit(c)
    ensures v < 16
    ensures IsDigit(c) ==> v < 10
  {
    if IsDigit(c) then c as int - '0' as int
    else if 'A' <= c <= 'F' then c as int - 'A' as int + 10
    else c as int - 'a' as int + 10
  }

  /** The upper-case digit for a value below 16 (what `%X` prints). */
  function UpperHexDigit(v: nat): (c: char)
    requires v < 16
    ensures IsUpperHexDigit(c) && IsHexDigit(c) && HexDigitValue(c) == v
  {
    if v < 10 then ('0' as int + v) as char else ('A' as int + v - 10) as char
  }

  /** The lower-case digit for a value below 16. */
  function LowerHexDigit(v: nat): (c: char)
    requires v < 16
    ensures IsHexDigit(c) && HexDigitValue(c) == v
  {
    if v < 10 then ('0' as int + v) as char else ('a' as int + v - 10) as char
  }

  function DecimalDigit(v: nat): (c: char)
    requires v < 10
    ensures IsDigit(c) && HexDigitValue(c) == v
  {
    ('0' as int + v) as char
  }

  /** `sprintf("%u", n)`: no leading zeros, "0" for zero. */
  function Decimal(n: nat): (s: string)
    ensures |s| > 0 && AllDigits(s)
    ensures n > 0 ==> s[0] != '0'
  {
    if n < 10 then [DecimalDigit(n)] else Decimal(n / 10) + [DecimalDigit(n % 10)]
  }

  /** `sprintf("%04X", n)` for a 16-bit value: exactly four upper-case digits. */
  function Hex4(n: nat): (s: string)
    requires n < 0x1_0000
    ensures |s| == 4
    ensures forall i :: 0 <= i < 4 ==> IsUpperHexDigit(s[i]) && IsHexDigit(s[i])
  {
    [UpperHexDigit(n / 0x1000), UpperHexDigit(n / 0x100 % 16), UpperHexDigit(n / 0x10 % 16), UpperHexDigit(n % 16)]
  }

  /** Python's `int(s)` on a string of ASCII decimal digits. */
  function ParseDecimal(s: string): nat
    requires AllDigits(s)
  {
    if s == [] then 0 else ParseDecimal(s[..|s| - 1]) * 10 + HexDigitValue(s[|s| - 1])
  }

  /** Python's `int(s, 16)` on a string of ASCII hexadecimal digits. */
  function ParseHex(s: string): nat
    requires AllHexDigits(s)
  {
    if s == [] then 0 else ParseHex(s[..|s| - 1]) * 16 + HexDigitValue(s[|s| - 1])
  }

  /** Reading back what `%u` printed gives the number printed. */
  lemma {:induction false} ParseDecimalOfDecimal(n: nat)
    ensures ParseDecimal(Decimal(n)) == n
  {
    if n >= 10 {
      var s := Decimal(n);
      assert s[..|s| - 1] == Decimal(n / 10);
      ParseDecimalOfDecimal(n / 10);
    }
  }

  /** Reading back what `%04X` printed gives the number printed. */
  lemma ParseHexOfHex4(n: nat)
    requires n < 0x1_0000
    ensures ParseHex(Hex4(n)) == n
  {
    var s := Hex4(n);
    var x1, x2 := n / 0x100, n / 0x10;
    assert n / 0x1000 == x1 / 16 && n / 0x100 == x2 / 16;
    assert s[..3][..2][..1][..0] == [];
    assert ParseHex(s[..3][..2][..1]) == HexDigitValue(s[0]) == n / 0x1000;
    assert s[..3][..2][1] == s[1] && HexDigitValue(s[1]) == x1 % 16;
    assert ParseHex(s[..3][..2]) == x1 / 16 * 16 + x1 % 16 == x1;
    assert ParseHex(s[..3]) == x2 / 16 * 16 + x2 % 16 == x2;
  }
}
