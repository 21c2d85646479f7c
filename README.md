# IEEE 754 single-to-half converter, modelled in Dafny

The converter in `src/ieee754.py` takes a single-precision (binary32) value and
produces two hexadecimal strings:

- `float_to_float16_hex`: the binary16 (half-precision) pattern, as four hex digits.
- `float_to_float32_hex`: the binary32 pattern itself, as eight hex digits.

The half-precision conversion works on the three fields of the binary32
pattern:

- ±0 becomes `0000` / `8000`.
- NaN becomes the lower-case quiet NaN `7e00` / `fe00`, and ±Inf becomes
  the lower-case `7c00` / `fc00`.
- Binary32 subnormals, and normals whose rebiased exponent is not positive,
  are flushed to signed zero.
- Rebiased exponents of 31 or more overflow to the lower-case infinity.
- Everything else has its 23-bit fraction rounded to 10 bits, to nearest with
  ties to even. A rounding carry moves into the exponent, and can overflow to
  infinity.
- The general result is printed with `f"{result:04X}"`.

The model takes the binary32 pattern as its input (`Binary32.Bits32`, a
natural number below 2^32). It follows the code branch for branch:

- Shifts and masks become division and remainder by powers of two.
- The bitwise `|` of disjoint fields becomes `+`.
- Python's `0<w>X` format is modelled as the shortest upper-case digit string,
  zero-padded to `w` and never truncated.

Each operation is paired with an independent statement of what it means:

- Field extraction has its inverse, `Compose`.
- Hex formatting has a parser, `ParseHex`, which reads both cases.
- The shift-and-mask rounding has a specification, `Rounding.IsNearestEven`:
  q·2^13 is a nearest multiple of 2^13, and a tie goes to an even q.

The special branches return the literals `7e00`, `fe00`, `7c00` and `fc00` in
lower case (src/ieee754.py:18, 20, 30, 46), while the general path formats with
`:04X` in upper case (line 51). So overflow gives `7c00`, and `7C00` never
appears. The model keeps these literals as they are.
`HalfProperties.SpecialsAreLowerCase` proves the consequence: an output is
upper case exactly when it is not an infinity or a NaN.

Modules, one per file:

- `wrappers.dfy`: `Option`.
- `hex.dfy`: formatting and parsing of hex digits.
- `binary32.dfy`: the binary32 fields and `float_to_float32_hex`.
- `rounding.dfy`: fraction rounding and its specification.
- `binary16.dfy`: `float_to_float16_hex`.
- `half_properties.dfy`: what the conversion does on each class of input, and worked examples.

## Model

| member | source | states |
|---|---|---|
| Binary32.Decompose | src/ieee754.py:12-14 | sign, biased exponent and fraction are within 1, 8 and 23 bits, and `sign·2^31 + exponent·2^23 + fraction` rebuilds the pattern |
| Binary32.Compose | src/ieee754.py:12-14 | putting three in-range fields together gives the pattern whose decomposition is exactly those fields |
| Binary32.ComposeDecompose | src/ieee754.py:12-14 | decomposing and recomposing a pattern gives it back |
| Binary32.Float32Hex | src/ieee754.py:53-56 | the binary32 output is exactly eight upper-case digits that read back as the pattern |
| Binary32.Float32HexInjective | src/ieee754.py:56 | distinct patterns give distinct eight-digit strings |
| Binary32.Float32HexDigits | src/ieee754.py:56 | the binary32 output is the eight low hex digits of the pattern |
| Binary32.Float32HexExamples | src/ieee754.py:53-56 | 1.0 gives `3F800000`, -2.5 gives `C0200000`, +0 gives `00000000` |
| Hex.FormatHex | src/ieee754.py:51 | `0<w>X` output: at least `w` upper-case digits, exactly `w` iff the number is below 16^w, and they read back as the number |
| Hex.FormatHexIsZeroPadded | src/ieee754.py:51 | `0<w>X` output is the shortest digit string (no leading zero unless the number is 0) left-padded with '0' to `w` |
| Hex.FormatHexInjective | src/ieee754.py:51 | different numbers have different renderings at the same width |
| Hex.ParseFixedDigits | src/ieee754.py:51 | the `k` low digits of a number below 16^k are upper case and read back as that number |
| Hex.FixedDigitsOfParse | src/ieee754.py:51 | the other round trip: any non-empty upper-case digit string is the rendering of its own value at its own length |
| Hex.FormatHexDigits | src/ieee754.py:51 | with width enough for the number, the rendering is exactly its `w` low digits |
| Rounding.RoundFraction | src/ieee754.py:32-40 | the rounded 10-bit base never exceeds 0x400 |
| Rounding.RoundFractionIsNearestEven | src/ieee754.py:32-40 | the shift-and-mask rounding gives the multiple of 2^13 nearest the fraction, with ties going to an even quotient |
| Rounding.NearestEvenUnique | src/ieee754.py:35-40 | round-to-nearest-even has at most one answer, so the rounding is determined by its specification |
| Rounding.RoundFractionCarry | src/ieee754.py:42 | rounding reaches 0x400 (a carry into the exponent) exactly when the fraction is at least 0x7FF000 |
| Rounding.SignificandRounding | src/ieee754.py:32-44 | with the implicit leading bit, 0x400 plus the rounded fraction is the nearest-even quotient of the 24-bit significand |
| Binary16.Assemble | src/ieee754.py:50 | the sign shifted to bit 15, the exponent to bits 10..14 and the fraction combined fit in 16 bits, and its sign, exponent and fraction fields read back as the three parts |
| Binary16.SignedZero | src/ieee754.py:5-8 | the zero literals are four upper-case digits reading as `sign·0x8000` |
| Binary16.SignedInfinity | src/ieee754.py:20 | the infinity literals read as `sign·0x8000 + 0x7C00`, are all lower-case digits, and their second character is not an upper-case digit |
| Binary16.QuietNaN | src/ieee754.py:18 | the NaN literals read as `sign·0x8000 + 0x7E00`, are all lower-case digits, and their second character is not an upper-case digit |
| Binary16.Float16Hex | src/ieee754.py:3-51 | every output is four hex digits whose sign bit is the input's sign bit |
| Binary16.FormatHalf | src/ieee754.py:51 | `f"{result:04X}"` of a 16-bit result is four upper-case digits reading back as the result |
| Binary16.FormatHalfDigits | src/ieee754.py:51 | `f"{result:04X}"` is the four low digits of the result |
| HalfProperties.SignedZeroInput | src/ieee754.py:4-8 | +0 gives `0000` and -0 gives `8000` |
| HalfProperties.NaNInput | src/ieee754.py:16-18 | every NaN, whatever its payload, gives `7e00` or `fe00` according to its sign |
| HalfProperties.InfinityInput | src/ieee754.py:16-20 | +Inf gives `7c00` and -Inf gives `fc00` |
| HalfProperties.NaNExactlyOnNaN | src/ieee754.py:16-51 | the output is the quiet NaN literal if and only if the input is a NaN |
| HalfProperties.ZeroExactlyOnUnderflow | src/ieee754.py:22-28 | the output is signed zero if and only if the input exponent is at most 112 (zero, subnormal, or rebiased exponent not positive) |
| HalfProperties.NoSubnormalOutput | src/ieee754.py:22-51 | no binary16 subnormal is produced: an output whose exponent field is 0 has fraction 0 |
| HalfProperties.InfinityExactlyOnOverflow | src/ieee754.py:25-46 | the output is signed infinity if and only if the input is ±Inf, or its exponent is 143..254, or it is 142 with a fraction that carries |
| HalfProperties.RoundedPath | src/ieee754.py:32-51 | below the carry, the output formats the sign, the rebiased exponent and the rounded fraction, which stays under 0x400 |
| HalfProperties.CarryPath | src/ieee754.py:42-51 | when rounding carries below exponent 142, the output formats the sign, the rebiased exponent plus one, and fraction 0 |
| HalfProperties.NormalExponentRange | src/ieee754.py:25-51 | on the general path the output is upper case, its exponent field is in 1..30 and its sign is the input's |
| HalfProperties.NormalRounding | src/ieee754.py:32-50 | on the general path the output has the input's sign and unbiased exponent, and its significand is the input significand rounded to nearest, ties to even; a carry gives the next exponent with significand 2^10 |
| HalfProperties.SpecialLiterals | src/ieee754.py:5-30 | the zero literals are upper case with exponent field 0 and fraction 0; the infinity and NaN literals are not upper case and have exponent field 31 |
| HalfProperties.SpecialsAreLowerCase | src/ieee754.py:16-51 | an output has exponent field 31 (infinity or NaN) if and only if it is not all upper case |
| HalfProperties.NoUpperCaseInfinity | src/ieee754.py:20-51 | `7C00` and `FC00` are never produced |
| HalfProperties.ExampleOne | src/ieee754.py:32-51 | 1.0 gives `3C00` |
| HalfProperties.ExampleMinusTwoAndAHalf | src/ieee754.py:32-51 | -2.5 gives `C100` |
| HalfProperties.ExampleLargestNormal | src/ieee754.py:32-51 | 65504.0, the largest binary16 normal, gives `7BFF` |
| HalfProperties.ExampleCarry | src/ieee754.py:42-51 | the pattern 0x3F7FF000, just below 1.0, rounds up, carries, and gives `3C00` |
| HalfProperties.TieToEvenRoundsDown | src/ieee754.py:35-40 | an exact tie with an even base (1 + 2^-11) rounds down to `3C00` |
| HalfProperties.TieToEvenRoundsUp | src/ieee754.py:35-40 | an exact tie with an odd base (1 + 3·2^-11) rounds up to `3C02` |
| HalfProperties.ExampleRoundsToInfinity | src/ieee754.py:42-46 | 65520.0 rounds past the largest normal and gives the lower-case `7c00` |

## Left out

- Conversion of the Python `float` argument (a binary64 value) to binary32 by `struct.pack('>f', f)` (lines 5, 10-11, 54-55) is not modelled. The model starts from the binary32 pattern, so the binary64-to-binary32 rounding and the `OverflowError` that packing raises for finite values beyond binary32 range are outside it.
- The `f == 0.0` test (line 4) is taken on the pattern: exponent and fraction both zero. A non-zero argument that packs to ±0 reaches the exponent-0 branch (line 22), which returns the same literals, so the output is unchanged.
- `main` (lines 58-69) is console input and output, so it is not modelled.
- `src/merge.py`, a file-concatenation utility, is not part of this model.
- Python's bitwise operators are stated arithmetically: `>>` and `&` become division and remainder by powers of two, and `|` becomes addition of fields that share no bit.
