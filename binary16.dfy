/**
 `float_to_float16_hex`: the binary32 pattern converted to a binary16 pattern
 (IEEE 754-2008 section 3.4, parameters from section 3.6: a sign bit, a 5-bit
 exponent biased by 15 and a 10-bit fraction) and printed as four hex digits.
 The special results are the converter's own lower-case literals; only the
 general path is formatted, in upper case.
 */
module Binary16 {
  import opened Binary32
  import Rounding
  import Hex
  import opened Wrappers

  /** Bit 15 of a binary16 pattern. */
  function SignOf(h: nat): nat { h / 0x8000 }
  /** Bits 10..14 of a binary16 pattern: the biased exponent. */
  function ExponentOf(h: nat): nat { (h / 0x400) % 0x20 }
  /** Bits 0..9 of a binary16 pattern: the fraction. */
  function FractionOf(h: nat): nat { h % 0x400 }

  /** `(sign << 15) | (new_exponent << 10) | new_fraction`; the three parts share no bit. */
  function Assemble(sign: nat, exponent: nat, fraction: nat): (h: nat)
    requires sign < 2 && exponent < 0x20 && fraction < 0x400
    ensures h < 0x1_0000
    ensures SignOf(h) == sign && ExponentOf(h) == exponent && FractionOf(h) == fraction
  {
    sign * 0x8000 + exponent * 0x400 + fraction
  }

  /** The literals of signed zero, `0000` / `8000`. */
  function SignedZero(sign: nat): (s: string)
    requires sign < 2
    ensures |s| == 4 && Hex.ParseHex(s) == Some(sign * 0x8000)
    ensures Hex.AllUpperHex(s)
  {
    Hex.ParseHex4("8000");
    Hex.ParseHex4("0000");
    if sign != 0 then "8000" else "0000"
  }

  /** The literals of signed infinity, in lower case: `7c00` / `fc00`. */
  function SignedInfinity(sign: nat): (s: string)
    requires sign < 2
    ensures |s| == 4 && Hex.ParseHex(s) == Some(sign * 0x8000 + 0x7C00)
    ensures Hex.AllLowerHex(s) && !Hex.IsUpperHexDigit(s[1])
  {
    var pos, neg := "7c00", "fc00";
    Hex.ParseHex4(pos);
    Hex.ParseHex4(neg);
    if sign == 0 then pos else neg
  }

  /** The literals of the canonical quiet NaN, in lower case: `7e00` / `fe00`. */
  function QuietNaN(sign: nat): (s: string)
    requires sign < 2
    ensures |s| == 4 && Hex.ParseHex(s) == Some(sign * 0x8000 + 0x7E00)
    ensures Hex.AllLowerHex(s) && !Hex.IsUpperHexDigit(s[1])
  {
    var pos, neg := "7e00", "fe00";
    Hex.ParseHex4(pos);
    Hex.ParseHex4(neg);
    if sign == 0 then pos else neg
  }

  /**
   The converter, branch for branch. The input's `f == 0.0` test is, on the
   pattern, a zero exponent and a zero fraction; its sign is bit 31.
   */
  function Float16Hex(i: Bits32): (s: string)
    ensures |s| == 4
    ensures Hex.ParseHex(s).Some?
    ensures SignOf(Hex.ParseHex(s).value) == Decompose(i).sign
  {
    var d := Decompose(i);
    if d.exponent == 0 && d.fraction == 0 then SignedZero(d.sign)
    else if d.exponent == 0xFF then
      if d.fraction != 0 then QuietNaN(d.sign) else SignedInfinity(d.sign)
    else if d.exponent == 0 then SignedZero(d.sign)
    else
      // Rebias from binary32's 127 to binary16's 15.
      var newExponent := d.exponent - 127 + 15;
      if newExponent <= 0 then SignedZero(d.sign)
      else if newExponent >= 0x1F then SignedInfinity(d.sign)
      else
        var rounded := Rounding.RoundFraction(d.fraction);
        if rounded >= 0x400 then
          var carried := newExponent + 1;
          if carried >= 0x1F then SignedInfinity(d.sign)
          else FormatHalf(Assemble(d.sign, carried, 0))
        else FormatHalf(Assemble(d.sign, newExponent, rounded % 0x400))
  }

  /** `f"{result:04X}"` for a 16-bit result. */
  function FormatHalf(h: nat): (s: string)
    requires h < 0x1_0000
    ensures |s| == 4
    ensures Hex.AllUpperHex(s)
    ensures Hex.ParseHex(s) == Some(h)
  {
    assert Hex.Pow16(4) == 0x1_0000;
    Hex.FormatHex(h, 4)
  }

  /** The rendering is the four low digits of the result. */
  lemma FormatHalfDigits(h: nat)
    requires h < 0x1_0000
    ensures FormatHalf(h) == Hex.FixedDigits(h, 4)
  {
    assert Hex.Pow16(4) == 0x1_0000;
    Hex.FormatHexDigits(h, 4);
  }
}
