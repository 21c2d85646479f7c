/**
 Rounding the 23-bit binary32 fraction to the 10 bits of binary16 with
 roundTiesToEven (IEEE 754-2008, section 4.3.1). The code works with a shift
 and a mask; the specification `IsNearestEven` says what the result means:
 the multiple of 2^13 nearest to the fraction, ties going to an even quotient.
 */
module Rounding {

  /** The 13 low bits that binary16 drops. */
  const Unit: nat := 0x2000
  /** Half of `Unit`: the exact tie. */
  const Half: nat := 0x1000

  /** How far `q * 2^13` lies from `x`. */
  function Distance(x: int, q: int): nat {
    if x >= q * Unit then x - q * Unit else q * Unit - x
  }

  /**
   `q * 2^13` is a multiple of 2^13 nearest to `x`, and when another multiple
   is just as near, `q` is even.
   */
  ghost predicate IsNearestEven(x: int, q: int) {
    && (forall m :: Distance(x, q) <= Distance(x, m))
    && (forall m :: m != q && Distance(x, m) == Distance(x, q) ==> q % 2 == 0)
  }

  /**
   Lines 32-40 of the converter: `base = fraction >> 13`,
   `rounding_bits = fraction & 0x1FFF`, then round to nearest, ties to even.
   */
  function RoundFraction(fraction: nat): (rounded: nat)
    requires fraction < 0x80_0000
    ensures rounded <= 0x400
  {
    var base := fraction / Unit;
    var roundingBits := fraction % Unit;
    if roundingBits < Half then base
    else if roundingBits > Half then base + 1
    else if base % 2 == 1 then base + 1
    else base
  }

  /** The shift-and-mask rounding is roundTiesToEven. */
  lemma RoundFractionIsNearestEven(fraction: nat)
    requires fraction < 0x80_0000
    ensures IsNearestEven(fraction, RoundFraction(fraction))
  {
    NearestEvenOfQuotient(fraction, RoundFraction(fraction));
  }

  /** The rounding rule in terms of quotient and remainder meets `IsNearestEven`. */
  lemma NearestEvenOfQuotient(x: nat, rounded: int)
    requires var base, r := x / Unit, x % Unit;
      rounded == (if r < Half then base
                  else if r > Half then base + 1
                  else if base % 2 == 1 then base + 1
                  else base)
    ensures IsNearestEven(x, rounded)
  {
    var base, r := x / Unit, x % Unit;
    assert x == base * Unit + r;
    forall m
      ensures Distance(x, rounded) <= Distance(x, m)
      ensures m != rounded && Distance(x, m) == Distance(x, rounded) ==> rounded % 2 == 0
    {
      if m <= base - 1 {
        assert Distance(x, m) >= Unit + r;
      } else if m >= base + 2 {
        assert Distance(x, m) >= 2 * Unit - r;
      }
    }
  }

  /** At most one quotient is nearest with ties to even: the specification fixes the result. */
  lemma NearestEvenUnique(x: int, q1: int, q2: int)
    requires IsNearestEven(x, q1) && IsNearestEven(x, q2)
    ensures q1 == q2
  {
    // Each is within half a unit of x, so they are at most one apart ...
    assert Distance(x, q1) <= Distance(x, q1 + 1) && Distance(x, q1) <= Distance(x, q1 - 1);
    assert Distance(x, q2) <= Distance(x, q2 + 1) && Distance(x, q2) <= Distance(x, q2 - 1);
    // ... and two neighbours equally near are a tie, which only an even quotient may win.
    assert Distance(x, q1) <= Distance(x, q2) && Distance(x, q2) <= Distance(x, q1);
  }

  /** Rounding reaches 0x400 (a carry into the exponent) exactly when the fraction is at least 0x7FF000. */
  lemma RoundFractionCarry(fraction: nat)
    requires fraction < 0x80_0000
    ensures RoundFraction(fraction) == 0x400 <==> fraction >= 0x7F_F000
  {
  }

  /**
   The same rounding seen on the whole significand: adding the implicit
   leading bit (2^23) shifts the nearest-even quotient by exactly 0x400.
   */
  lemma SignificandRounding(fraction: nat)
    requires fraction < 0x80_0000
    ensures IsNearestEven(0x80_0000 + fraction, 0x400 + RoundFraction(fraction))
  {
    var x, q := 0x80_0000 + fraction, 0x400 + RoundFraction(fraction);
    RoundFractionIsNearestEven(fraction);
    forall m
      ensures Distance(x, q) <= Distance(x, m)
      ensures m != q && Distance(x, m) == Distance(x, q) ==> q % 2 == 0
    {
      assert Distance(x, m) == Distance(fraction, m - 0x400);
      assert Distance(x, q) == Distance(fraction, RoundFraction(fraction));
    }
  }
}
