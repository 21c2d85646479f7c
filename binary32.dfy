/**
 The binary32 interchange format of IEEE 754-2008 (section 3.4, parameters
 from the table in section 3.6): a sign bit, an 8-bit exponent biased by 127
 and a 23-bit trailing significand ("fraction"). The converter works on the
 32-bit pattern of a value read as an unsigned integer, most significant
 byte first.
 */
module Binary32 {
  import Hex
  import opened Wrappers

  /** A binary32 value, as the unsigned integer its big-endian bytes spell. */
  type Bits32 = i: nat | i < 0x1_0000_0000

  /** The three fields of a binary32 pattern, unchanged (exponent still biased). */
  datatype Fields = Fields(sign: nat, exponent: nat, fraction: nat)

  /**
   `(i >> 31) & 0x1`, `(i >> 23) & 0xFF` and `i & 0x7FFFFF`. On non-negative
   integers a right shift by k is division by 2^k and a mask of k low bits is
   the remainder modulo 2^k.
   */
  function Decompose(i: Bits32): (d: Fields)
    ensures d.sign < 2 && d.exponent < 0x100 && d.fraction < 0x80_0000
    ensures d.sign * 0x8000_0000 + d.exponent * 0x80_0000 + d.fraction == i
  {
    Fields((i / 0x8000_0000) % 0x2, (i / 0x80_0000) % 0x100, i % 0x80_0000)
  }

  /** `(sign << 31) | (exponent << 23) | fraction`; the three parts share no bit. */
  function Compose(d: Fields): (i: Bits32)
    requires d.sign < 2 && d.exponent < 0x100 && d.fraction < 0x80_0000
    ensures Decompose(i) == d
  {
    d.sign * 0x8000_0000 + d.exponent * 0x80_0000 + d.fraction
  }

  /** Every pattern is the composition of its own fields. */
  lemma ComposeDecompose(i: Bits32)
    ensures Compose(Decompose(i)) == i
  {
  }

  /** `float_to_float32_hex`: the pattern itself as `f"{i:08X}"`. */
  function Float32Hex(i: Bits32): (s: string)
    ensures |s| == 8
    ensures Hex.AllUpperHex(s)
    ensures Hex.ParseHex(s) == Some(i)
  {
    assert Hex.Pow16(8) == 0x1_0000_0000;
    Hex.FormatHex(i, 8)
  }

  /** Distinct patterns print differently. */
  lemma Float32HexInjective(i: Bits32, j: Bits32)
    requires Float32Hex(i) == Float32Hex(j)
    ensures i == j
  {
    assert Hex.ParseHex(Float32Hex(i)) == Hex.ParseHex(Float32Hex(j));
  }

  /** The rendering is the eight digits of the pattern. */
  lemma Float32HexDigits(i: Bits32)
    ensures Float32Hex(i) == Hex.FixedDigits(i, 8)
  {
    assert Hex.Pow16(8) == 0x1_0000_0000;
    Hex.FormatHexDigits(i, 8);
  }

  /** The digit strings of the examples below, computed apart from the conversion. */
  lemma OneDigits()
    ensures Hex.FixedDigits(0x3F80_0000, 8) == "3F800000"
  {
    Hex.FourDigits(0x3F80, 3, 0xF, 8, 0);
    Hex.FourDigits(0, 0, 0, 0, 0);
    assert Hex.Pow16(4) == 0x1_0000;
    Hex.FixedDigitsConcat(0x3F80, 0, 4, 4);
  }

  lemma MinusTwoAndAHalfDigits()
    ensures Hex.FixedDigits(0xC020_0000, 8) == "C0200000"
  {
    Hex.FourDigits(0xC020, 0xC, 0, 2, 0);
    Hex.FourDigits(0, 0, 0, 0, 0);
    assert Hex.Pow16(4) == 0x1_0000;
    Hex.FixedDigitsConcat(0xC020, 0, 4, 4);
  }

  lemma ZeroDigits()
    ensures Hex.FixedDigits(0, 8) == "00000000"
  {
    Hex.FourDigits(0, 0, 0, 0, 0);
    assert Hex.Pow16(4) == 0x1_0000;
    Hex.FixedDigitsConcat(0, 0, 4, 4);
  }

  /** 1.0 prints as `3F800000`, -2.5 as `C0200000`, +0 as `00000000`. */
  lemma Float32HexExamples()
    ensures Float32Hex(0x3F80_0000) == "3F800000"
    ensures Float32Hex(0xC020_0000) == "C0200000"
    ensures Float32Hex(0) == "00000000"
  {
    Float32HexExampleSteps(0x3F80_0000);
    Float32HexExampleSteps(0xC020_0000);
    Float32HexExampleSteps(0);
  }

  lemma Float32HexExampleSteps(i: Bits32)
    ensures i == 0x3F80_0000 ==> Float32Hex(i) == "3F800000"
    ensures i == 0xC020_0000 ==> Float32Hex(i) == "C0200000"
    ensures i == 0 ==> Float32Hex(i) == "00000000"
  {
    Float32HexDigits(i);
    OneDigits();
    MinusTwoAndAHalfDigits();
    ZeroDigits();
  }
}
