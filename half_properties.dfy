/**
 What `Float16Hex` does on each class of binary32 input, and what the
 general path's result means as a number.
 */
module HalfProperties {
  import opened Wrappers
  import opened Binary32
  import opened Binary16
  import Rounding
  import Hex

  /** ±0 gives `0000` / `8000`. */
  lemma SignedZeroInput(i: Bits32)
    requires Decompose(i).exponent == 0 && Decompose(i).fraction == 0
    ensures Float16Hex(i) == if Decompose(i).sign == 0 then "0000" else "8000"
  {
  }

  /** Any NaN, whatever its payload, gives the lower-case quiet NaN `7e00` / `fe00`. */
  lemma NaNInput(i: Bits32)
    requires Decompose(i).exponent == 0xFF && Decompose(i).fraction != 0
    ensures Float16Hex(i) == if Decompose(i).sign == 0 then "7e00" else "fe00"
  {
  }

  /** ±Inf gives the lower-case `7c00` / `fc00`. */
  lemma InfinityInput(i: Bits32)
    requires Decompose(i).exponent == 0xFF && Decompose(i).fraction == 0
    ensures Float16Hex(i) == if Decompose(i).sign == 0 then "7c00" else "fc00"
  {
  }

  /**
   The result is signed zero exactly when the input exponent is at most 112:
   ±0, every binary32 subnormal (flushed), and every normal whose rebiased
   exponent is not positive. No binary16 subnormal is ever produced.
   */
  lemma ZeroExactlyOnUnderflow(i: Bits32)
    ensures Float16Hex(i) == SignedZero(Decompose(i).sign) <==> Decompose(i).exponent <= 112
  {
    var d := Decompose(i);
    Rounding.RoundFractionCarry(d.fraction);
    if 112 < d.exponent < 142 || (d.exponent == 142 && d.fraction < 0x7F_F000) {
      NormalExponentRange(i);
    }
  }

  /**
   The result is the lower-case signed infinity exactly for ±Inf, for every
   exponent from 143 on (rebiased exponent at least 31), and for exponent 142
   when rounding carries into the exponent (fraction at least 0x7FF000).
   */
  lemma InfinityExactlyOnOverflow(i: Bits32)
    ensures var d := Decompose(i);
      Float16Hex(i) == SignedInfinity(d.sign) <==>
        || (d.exponent == 0xFF && d.fraction == 0)
        || (143 <= d.exponent < 0xFF)
        || (d.exponent == 142 && d.fraction >= 0x7F_F000)
  {
    var d := Decompose(i);
    Rounding.RoundFractionCarry(d.fraction);
    if 112 < d.exponent < 142 || (d.exponent == 142 && d.fraction < 0x7F_F000) {
      NormalExponentRange(i);
    }
  }

  /** Below the carry, the general path formats the rounded fraction under the rebiased exponent. */
  lemma RoundedPath(i: Bits32)
    requires 112 < Decompose(i).exponent < 143 && Decompose(i).fraction < 0x7F_F000
    ensures var d := Decompose(i);
      Rounding.RoundFraction(d.fraction) < 0x400
      && Float16Hex(i) == FormatHalf(Assemble(d.sign, d.exponent - 112, Rounding.RoundFraction(d.fraction)))
  {
    var d := Decompose(i);
    Rounding.RoundFractionCarry(d.fraction);
    var rounded := Rounding.RoundFraction(d.fraction);
    assert rounded % 0x400 == rounded;
  }

  /** When rounding carries below exponent 142, the exponent goes up by one and the fraction is 0. */
  lemma CarryPath(i: Bits32)
    requires 112 < Decompose(i).exponent < 142 && Decompose(i).fraction >= 0x7F_F000
    ensures var d := Decompose(i);
      Float16Hex(i) == FormatHalf(Assemble(d.sign, d.exponent - 111, 0))
  {
    Rounding.RoundFractionCarry(Decompose(i).fraction);
  }

  /**
   The general path (input exponent 113..142, no carry into exponent 31)
   formats a finite normal: its exponent field lies in 1..30, so it is
   neither zero nor an infinity nor a NaN, and its digits are upper case.
   */
  lemma NormalExponentRange(i: Bits32)
    requires 112 < Decompose(i).exponent < 143
    requires !(Decompose(i).exponent == 142 && Decompose(i).fraction >= 0x7F_F000)
    ensures Hex.AllUpperHex(Float16Hex(i))
    ensures var h := Hex.ParseHex(Float16Hex(i)).value;
      1 <= ExponentOf(h) <= 30 && SignOf(h) == Decompose(i).sign
  {
    var d := Decompose(i);
    if d.fraction < 0x7F_F000 {
      RoundedPath(i);
    } else {
      CarryPath(i);
    }
  }

  /**
   On the general path the result is the input correctly rounded within its
   binade: with the same unbiased exponent, the binary16 significand
   (1024 + fraction) is the 24-bit binary32 significand divided by 2^13 and
   rounded to nearest, ties to even; when that rounding reaches 2048 the
   exponent goes up by one and the fraction is 0.
   */
  lemma NormalRounding(i: Bits32)
    requires 112 < Decompose(i).exponent < 143
    requires !(Decompose(i).exponent == 142 && Decompose(i).fraction >= 0x7F_F000)
    ensures var d, h := Decompose(i), Hex.ParseHex(Float16Hex(i)).value;
      var significand := 0x80_0000 + d.fraction;
      && SignOf(h) == d.sign
      && (d.fraction < 0x7F_F000 ==>
            ExponentOf(h) == d.exponent - 112
            && Rounding.IsNearestEven(significand, 0x400 + FractionOf(h)))
      && (d.fraction >= 0x7F_F000 ==>
            ExponentOf(h) == d.exponent - 111 && FractionOf(h) == 0
            && Rounding.IsNearestEven(significand, 2 * 0x400))
  {
    var d := Decompose(i);
    Rounding.SignificandRounding(d.fraction);
    if d.fraction < 0x7F_F000 {
      RoundedPath(i);
    } else {
      Rounding.RoundFractionCarry(d.fraction);
      CarryPath(i);
    }
  }

  /** The result is the quiet NaN exactly when the input is a NaN. */
  lemma NaNExactlyOnNaN(i: Bits32)
    ensures Float16Hex(i) == QuietNaN(Decompose(i).sign) <==>
      Decompose(i).exponent == 0xFF && Decompose(i).fraction != 0
  {
    var d := Decompose(i);
    SpecialLiterals(d.sign);
    Rounding.RoundFractionCarry(d.fraction);
    if 112 < d.exponent < 142 || (d.exponent == 142 && d.fraction < 0x7F_F000) {
      NormalExponentRange(i);
    } else if d.exponent != 0xFF && d.exponent > 112 {
      InfinityExactlyOnOverflow(i);
    }
  }

  /**
   No binary16 subnormal is ever produced: an output whose exponent field is
   0 has fraction 0, so it is a signed zero.
   */
  lemma NoSubnormalOutput(i: Bits32)
    ensures var h := Hex.ParseHex(Float16Hex(i)).value;
      ExponentOf(h) == 0 ==> FractionOf(h) == 0
  {
    var d := Decompose(i);
    Rounding.RoundFractionCarry(d.fraction);
    SpecialLiterals(d.sign);
    if 112 < d.exponent < 142 || (d.exponent == 142 && d.fraction < 0x7F_F000) {
      NormalExponentRange(i);
    } else if d.exponent > 112 && d.exponent != 0xFF {
      InfinityExactlyOnOverflow(i);
    }
  }

  /**
   The case quirk: an output spells an infinity or a NaN (exponent field 31)
   exactly when it is one of the lower-case literals; every other output is
   upper case. So `7C00` and `FC00` are never produced.
   */
  lemma SpecialsAreLowerCase(i: Bits32)
    ensures var s := Float16Hex(i);
      ExponentOf(Hex.ParseHex(s).value) == 0x1F <==> !Hex.AllUpperHex(s)
  {
    var d, s := Decompose(i), Float16Hex(i);
    Rounding.RoundFractionCarry(d.fraction);
    SpecialLiterals(d.sign);
    if 112 < d.exponent < 142 || (d.exponent == 142 && d.fraction < 0x7F_F000) {
      NormalExponentRange(i);
    } else if d.exponent <= 112 {
      assert s == SignedZero(d.sign);
    } else if d.exponent == 0xFF {
      assert s == SignedInfinity(d.sign) || s == QuietNaN(d.sign);
    } else {
      InfinityExactlyOnOverflow(i);
    }
  }

  /** Zero is upper case with exponent field 0; infinity and NaN are lower case with exponent field 31. */
  lemma SpecialLiterals(sign: nat)
    requires sign < 2
    ensures Hex.AllUpperHex(SignedZero(sign))
    ensures var h := Hex.ParseHex(SignedZero(sign)).value; ExponentOf(h) == 0 && FractionOf(h) == 0
    ensures !Hex.AllUpperHex(SignedInfinity(sign)) && ExponentOf(Hex.ParseHex(SignedInfinity(sign)).value) == 0x1F
    ensures !Hex.AllUpperHex(QuietNaN(sign)) && ExponentOf(Hex.ParseHex(QuietNaN(sign)).value) == 0x1F
  {
  }

  /** In particular the upper-case infinities `7C00` and `FC00` are never produced. */
  lemma NoUpperCaseInfinity(i: Bits32)
    ensures Float16Hex(i) != "7C00" && Float16Hex(i) != "FC00"
  {
    SpecialsAreLowerCase(i);
    UpperInfinities();
  }

  /** The upper-case spellings of the infinities read as patterns with exponent 31. */
  lemma UpperInfinities()
    ensures Hex.ParseHex("7C00") == Some(0x7C00) && ExponentOf(0x7C00) == 0x1F
    ensures Hex.ParseHex("FC00") == Some(0xFC00) && ExponentOf(0xFC00) == 0x1F
  {
    Hex.ParseHex4("7C00");
    Hex.ParseHex4("FC00");
  }

  // Worked examples. Each `...Steps` lemma follows the conversion of one
  // pattern through its branch; the lemma after it states the output.

  /** 1.0 is `3C00`. */
  lemma ExampleOne()
    ensures Float16Hex(0x3F80_0000) == "3C00"
  {
    ExampleOneSteps(0x3F80_0000);
  }

  lemma ExampleOneSteps(i: Bits32)
    ensures i == 0x3F80_0000 ==> Float16Hex(i) == "3C00"
  {
    if i == 0x3F80_0000 {
      assert Decompose(i) == Fields(0, 127, 0);
      assert Rounding.RoundFraction(0) == 0;
      RoundedPath(i);
      assert Assemble(0, 15, 0) == 0x3C00;
      FormatHalfDigits(0x3C00);
      Hex.FourDigits(0x3C00, 3, 0xC, 0, 0);
    }
  }

  /** -2.5 is `C100`. */
  lemma ExampleMinusTwoAndAHalf()
    ensures Float16Hex(0xC020_0000) == "C100"
  {
    ExampleMinusTwoAndAHalfSteps(0xC020_0000);
  }

  lemma ExampleMinusTwoAndAHalfSteps(i: Bits32)
    ensures i == 0xC020_0000 ==> Float16Hex(i) == "C100"
  {
    if i == 0xC020_0000 {
      assert Decompose(i) == Fields(1, 128, 0x20_0000);
      assert Rounding.RoundFraction(0x20_0000) == 0x100;
      RoundedPath(i);
      assert Assemble(1, 16, 0x100) == 0xC100;
      FormatHalfDigits(0xC100);
      Hex.FourDigits(0xC100, 0xC, 1, 0, 0);
    }
  }

  /** 65504.0, the largest binary16 normal, is `7BFF`. */
  lemma ExampleLargestNormal()
    ensures Float16Hex(0x477F_E000) == "7BFF"
  {
    ExampleLargestNormalSteps(0x477F_E000);
  }

  lemma ExampleLargestNormalSteps(i: Bits32)
    ensures i == 0x477F_E000 ==> Float16Hex(i) == "7BFF"
  {
    if i == 0x477F_E000 {
      assert Decompose(i) == Fields(0, 142, 0x7F_E000);
      assert Rounding.RoundFraction(0x7F_E000) == 0x3FF;
      RoundedPath(i);
      assert Assemble(0, 30, 0x3FF) == 0x7BFF;
      FormatHalfDigits(0x7BFF);
      Hex.FourDigits(0x7BFF, 7, 0xB, 0xF, 0xF);
    }
  }

  /** The binary32 number just below 1.0 whose fraction is 0x7FF000 rounds up, carries, and gives 1.0, `3C00`. */
  lemma ExampleCarry()
    ensures Float16Hex(0x3F7F_F000) == "3C00"
  {
    ExampleCarrySteps(0x3F7F_F000);
  }

  lemma ExampleCarrySteps(i: Bits32)
    ensures i == 0x3F7F_F000 ==> Float16Hex(i) == "3C00"
  {
    if i == 0x3F7F_F000 {
      assert Decompose(i) == Fields(0, 126, 0x7F_F000);
      assert Rounding.RoundFraction(0x7F_F000) == 0x400;
      CarryPath(i);
      assert Assemble(0, 15, 0) == 0x3C00;
      FormatHalfDigits(0x3C00);
      Hex.FourDigits(0x3C00, 3, 0xC, 0, 0);
    }
  }

  /** An exact tie with an even base rounds down: 1 + 2^-11 gives 1.0, `3C00`. */
  lemma TieToEvenRoundsDown()
    ensures Float16Hex(0x3F80_1000) == "3C00"
  {
    TieToEvenRoundsDownSteps(0x3F80_1000);
  }

  lemma TieToEvenRoundsDownSteps(i: Bits32)
    ensures i == 0x3F80_1000 ==> Float16Hex(i) == "3C00"
  {
    if i == 0x3F80_1000 {
      assert Decompose(i) == Fields(0, 127, 0x1000);
      assert Rounding.RoundFraction(0x1000) == 0;
      RoundedPath(i);
      assert Assemble(0, 15, 0) == 0x3C00;
      FormatHalfDigits(0x3C00);
      Hex.FourDigits(0x3C00, 3, 0xC, 0, 0);
    }
  }

  /** An exact tie with an odd base rounds up: 1 + 3 * 2^-11 gives 1 + 2^-9, `3C02`. */
  lemma TieToEvenRoundsUp()
    ensures Float16Hex(0x3F80_3000) == "3C02"
  {
    TieToEvenRoundsUpSteps(0x3F80_3000);
  }

  lemma TieToEvenRoundsUpSteps(i: Bits32)
    ensures i == 0x3F80_3000 ==> Float16Hex(i) == "3C02"
  {
    if i == 0x3F80_3000 {
      assert Decompose(i) == Fields(0, 127, 0x3000);
      assert Rounding.RoundFraction(0x3000) == 2;
      RoundedPath(i);
      assert Assemble(0, 15, 2) == 0x3C02;
      FormatHalfDigits(0x3C02);
      Hex.FourDigits(0x3C02, 3, 0xC, 0, 2);
    }
  }

  /** 65520.0 rounds up past the largest normal and gives the lower-case `7c00`. */
  lemma ExampleRoundsToInfinity()
    ensures Float16Hex(0x477F_F000) == "7c00"
  {
    ExampleRoundsToInfinitySteps(0x477F_F000);
  }

  lemma ExampleRoundsToInfinitySteps(i: Bits32)
    ensures i == 0x477F_F000 ==> Float16Hex(i) == "7c00"
  {
    if i == 0x477F_F000 {
      assert Decompose(i) == Fields(0, 142, 0x7F_F000);
      InfinityExactlyOnOverflow(i);
    }
  }
}
