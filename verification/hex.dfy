// Fixed-width hexadecimal formatting of 16-bit addresses.
module Hex {
  import opened Bytes

  const UPPER: string := "0123456789ABCDEF"
  const LOWER: string := "0123456789abcdef"

  function Format4(x: u16, digits: string): (s: string)
    requires |digits| == 16
    ensures |s| == 4
  {
    [digits[x / 0x10 / 0x10 / 0x10], digits[x / 0x10 / 0x10 % 0x10], digits[x / 0x10 % 0x10], digits[x % 0x10]]
  }

  /** Address text as "%04X" prints it. */
  function Hex4(x: u16): (s: string)
    ensures |s| == 4
  {
    Format4(x, UPPER)
  }

  /** What a hexadecimal digit stands for. */
  function DigitValue(c: char): int {
    if '0' <= c <= '9' then c as int - '0' as int
    else if 'A' <= c <= 'F' then 10 + (c as int - 'A' as int)
    else if 'a' <= c <= 'f' then 10 + (c as int - 'a' as int)
    else -1
  }

  /** Four hexadecimal digits, letters in one case only, the highest digit first, that stand for x. */
  predicate ReadsAs(s: string, x: int, upper: bool) {
    && |s| == 4
    && (forall i | 0 <= i < 4 :: '0' <= s[i] <= '9' || (if upper then 'A' <= s[i] <= 'F' else 'a' <= s[i] <= 'f'))
    && x == 0x1000 * DigitValue(s[0]) + 0x100 * DigitValue(s[1]) + 0x10 * DigitValue(s[2]) + DigitValue(s[3])
  }

  lemma DigitReads(i: int, upper: bool)
    requires 0 <= i < 16
    ensures var c := (if upper then UPPER else LOWER)[i];
      && DigitValue(c) == i
      && ('0' <= c <= '9' || (if upper then 'A' <= c <= 'F' else 'a' <= c <= 'f'))
  {
  }

  /** The printed address reads as the address. */
  lemma FormatReads(x: u16, upper: bool)
    ensures ReadsAs(Format4(x, if upper then UPPER else LOWER), x, upper)
  {
    DigitReads(x / 0x10 / 0x10 / 0x10, upper);
    DigitReads(x / 0x10 / 0x10 % 0x10, upper);
    DigitReads(x / 0x10 % 0x10, upper);
    DigitReads(x % 0x10, upper);
    hide DigitValue;
    assert x / 0x10 == 0x10 * (x / 0x10 / 0x10) + x / 0x10 % 0x10;
    assert x / 0x10 / 0x10 == 0x10 * (x / 0x10 / 0x10 / 0x10) + x / 0x10 / 0x10 % 0x10;
  }

  lemma DistinctDigits(digits: string, i: int, j: int)
    requires digits == UPPER || digits == LOWER
    requires 0 <= i < 16 && 0 <= j < 16
    ensures digits[i] == digits[j] <==> i == j
  {
  }

  /** Distinct addresses print differently, in either letter case. */
  lemma Format4Injective(x: u16, y: u16, digits: string)
    requires digits == UPPER || digits == LOWER
    ensures Format4(x, digits) == Format4(y, digits) <==> x == y
  {
    var s, t := Format4(x, digits), Format4(y, digits);
    if s == t {
      assert s[0] == t[0] && s[1] == t[1] && s[2] == t[2] && s[3] == t[3];
      DistinctDigits(digits, x / 0x10 / 0x10 / 0x10, y / 0x10 / 0x10 / 0x10);
      DistinctDigits(digits, x / 0x10 / 0x10 % 0x10, y / 0x10 / 0x10 % 0x10);
      DistinctDigits(digits, x / 0x10 % 0x10, y / 0x10 % 0x10);
      DistinctDigits(digits, x % 0x10, y % 0x10);
    }
  }
}
