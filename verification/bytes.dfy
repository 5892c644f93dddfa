// Bytes, little-endian words and the VBus checksum.
module Bytes {
  type byte = x: int | 0 <= x < 0x100
  type u16 = x: int | 0 <= x < 0x1_0000

  const WORD64: nat := 0x1_0000_0000_0000_0000

  lemma AppendAssoc<T>(a: seq<T>, b: seq<T>, c: seq<T>)
    ensures a + (b + c) == a + b + c
  {
  }

  /** Bit j of b, for the shift amounts the source uses on single bytes. A shift by 8 or more leaves nothing. */
  predicate BitSet(b: byte, j: int) {
    match j
    case 0 => b % 2 == 1
    case 1 => b / 2 % 2 == 1
    case 2 => b / 4 % 2 == 1
    case 3 => b / 8 % 2 == 1
    case 4 => b / 16 % 2 == 1
    case 5 => b / 32 % 2 == 1
    case 6 => b / 64 % 2 == 1
    case 7 => b / 128 % 2 == 1
    case _ => false
  }

  function Digit(b: byte, j: int): nat { if BitSet(b, j) then 1 else 0 }

  lemma LowDigits(b: byte)
    ensures b == 16 * (b / 16) + Digit(b, 0) + 2 * Digit(b, 1) + 4 * Digit(b, 2) + 8 * Digit(b, 3)
  {
    assert b / 2 == 2 * (b / 4) + Digit(b, 1);
    assert b / 4 == 2 * (b / 8) + Digit(b, 2);
    assert b / 8 == 2 * (b / 16) + Digit(b, 3);
  }

  lemma HighDigits(b: byte)
    ensures b / 16 == Digit(b, 4) + 2 * Digit(b, 5) + 4 * Digit(b, 6) + 8 * Digit(b, 7)
  {
    assert b / 16 == 2 * (b / 32) + Digit(b, 4);
    assert b / 32 == 2 * (b / 64) + Digit(b, 5);
    assert b / 64 == 2 * (b / 128) + Digit(b, 6);
  }

  /** The bits are the binary digits. */
  lemma BinaryDigits(b: byte)
    ensures b == Digit(b, 0) + 2 * Digit(b, 1) + 4 * Digit(b, 2) + 8 * Digit(b, 3)
                 + 16 * Digit(b, 4) + 32 * Digit(b, 5) + 64 * Digit(b, 6) + 128 * Digit(b, 7)
  {
    hide BitSet;
    LowDigits(b);
    HighDigits(b);
  }

  function Low7(b: byte): byte { b % 0x80 }

  function Bit7(b: byte): byte { if b >= 0x80 then 1 else 0 }

  function WithBit7(b: byte): byte { if b >= 0x80 then b else b + 0x80 }

  function Le16(lo: byte, hi: byte): u16 { lo + 0x100 * hi }

  function LoByte(x: u16): byte { x % 0x100 }

  function HiByte(x: u16): byte { x / 0x100 }

  lemma {:induction false} Le16Bytes(x: u16)
    ensures Le16(LoByte(x), HiByte(x)) == x
  {
  }

  lemma Le16Split(lo: byte, hi: byte)
    ensures LoByte(Le16(lo, hi)) == lo && HiByte(Le16(lo, hi)) == hi
  {
  }

  /** The exact, unbounded sum of a byte string. */
  function Sum(s: seq<byte>): nat {
    if s == [] then 0 else Sum(s[..|s| - 1]) + s[|s| - 1]
  }

  /** What a checksum byte must be: the value below 0x80 that completes the covered bytes to 0x7F modulo 0x80. */
  function Checksum(s: seq<byte>): (c: byte)
    ensures c < 0x80
    ensures (Sum(s) + c) % 0x80 == 0x7F
  {
    (0x7F - Sum(s)) % 0x80
  }

  lemma SumSnoc(s: seq<byte>, i: nat)
    requires i < |s|
    ensures Sum(s[..i + 1]) == Sum(s[..i]) + s[i]
  {
    assert s[..i + 1][..i] == s[..i];
  }

  lemma WrapAdd(x: int, y: int)
    ensures (x % 0x100 + y) % 0x100 == (x + y) % 0x100
  {
  }

  lemma Residue(q: int, r: int)
    requires 0 <= r < 0x80
    ensures (0x80 * q + r) % 0x80 == r
  {
  }

  lemma WrapSubtract(x: int)
    ensures (0x7F - x % 0x100) % 0x100 % 0x80 == (0x7F - x) % 0x80
  {
    var r, q := x % 0x100, x / 0x100;
    if r <= 0x7F {
      Residue(-2 * q, 0x7F - r);
    } else {
      Residue(-2 * q - 1, 0xFF - r);
    }
  }

  /** The loop of the source: an 8-bit accumulator that wraps around, then an 8-bit subtraction and a mask. */
  method ComputeChecksum(data: seq<byte>) returns (c: byte)
    ensures c == Checksum(data)
  {
    var sum: byte := 0;
    for i := 0 to |data|
      invariant sum == Sum(data[..i]) % 0x100
    {
      SumSnoc(data, i);
      WrapAdd(Sum(data[..i]), data[i]);
      sum := (sum + data[i]) % 0x100;
    }
    assert data[..|data|] == data;
    WrapSubtract(Sum(data));
    c := (0x7F - sum) % 0x100 % 0x80;
  }

  lemma {:induction false} SumUpdate(s: seq<byte>, i: nat, v: byte)
    requires i < |s|
    ensures Sum(s[i := v]) == Sum(s) - s[i] + v
  {
    var n := |s| - 1;
    if i == n {
      assert s[i := v][..n] == s[..n];
    } else {
      SumUpdate(s[..n], i, v);
      assert s[i := v][..n] == s[..n][i := v];
    }
  }

  lemma ShiftedResidue(x: int, before: byte, after: byte)
    ensures (x + before - after) % 0x80 == x % 0x80 <==> before % 0x80 == after % 0x80
  {
    var q, r := x / 0x80 + before / 0x80 - after / 0x80, x % 0x80 + before % 0x80 - after % 0x80;
    assert x + before - after == 0x80 * q + r;
    if r < 0 {
      Residue(q - 1, r + 0x80);
    } else if r < 0x80 {
      Residue(q, r);
    } else {
      Residue(q + 1, r - 0x80);
    }
  }

  /** Replacing one covered byte goes unnoticed exactly when old and new agree in their low seven bits. */
  lemma ChecksumSensitive(s: seq<byte>, i: nat, v: byte)
    requires i < |s|
    ensures Checksum(s[i := v]) == Checksum(s) <==> Low7(v) == Low7(s[i])
  {
    SumUpdate(s, i, v);
    ShiftedResidue(0x7F - Sum(s), s[i], v);
  }
}
