/**
 Hexadecimal rendering of non-negative integers as Python's format
 specification `0<width>X` does it: the shortest upper-case digit string of
 the number, padded on the left with '0' up to `width` characters and never
 truncated. `ParseHex` is its inverse and reads digits of either case, so the
 lower-case literals of the converter read back as numbers too.
 */
module Hex {
  import opened Wrappers

  function Pow16(k: nat): (p: nat)
    ensures p >= 1
  {
    if k == 0 then 1 else 16 * Pow16(k - 1)
  }

  predicate IsUpperHexDigit(c: char) {
    '0' <= c <= '9' || 'A' <= c <= 'F'
  }

  predicate AllUpperHex(s: string) {
    forall j :: 0 <= j < |s| ==> IsUpperHexDigit(s[j])
  }

  predicate IsLowerHexDigit(c: char) {
    '0' <= c <= '9' || 'a' <= c <= 'f'
  }

  predicate AllLowerHex(s: string) {
    forall j :: 0 <= j < |s| ==> IsLowerHexDigit(s[j])
  }

  /** The value of one hexadecimal digit of either case. */
  function DigitValue(c: char): (d: Option<nat>)
    ensures d.Some? ==> d.value < 16
    ensures IsUpperHexDigit(c) ==> d.Some?
  {
    if '0' <= c <= '9' then Some(c as nat - '0' as nat)
    else if 'A' <= c <= 'F' then Some(c as nat - 'A' as nat + 10)
    else if 'a' <= c <= 'f' then Some(c as nat - 'a' as nat + 10)
    else None
  }

  /** The upper-case digit for `d`; `DigitValue` reads it back. */
  function DigitChar(d: nat): (c: char)
    requires d < 16
    ensures IsUpperHexDigit(c)
    ensures DigitValue(c) == Some(d)
  {
    if d < 10 then ('0' as nat + d) as char else ('A' as nat + d - 10) as char
  }

  /** An upper-case digit is the digit of its own value. */
  lemma DigitCharOfValue(c: char)
    requires IsUpperHexDigit(c)
    ensures DigitChar(DigitValue(c).value) == c
  {
  }

  /** The value of a string of hexadecimal digits, most significant first. */
  function ParseHex(s: string): (r: Option<nat>)
    ensures r.Some? ==> r.value < Pow16(|s|)
  {
    if |s| == 0 then None
    else
      var last := DigitValue(s[|s| - 1]);
      if |s| == 1 then last
      else
        var prefix := ParseHex(s[..|s| - 1]);
        if prefix.Some? && last.Some? then Some(16 * prefix.value + last.value) else None
  }

  /** A string is read as a number exactly when it is non-empty and every character is a digit. */
  lemma {:induction false} ParseHexDefined(s: string)
    ensures ParseHex(s).Some? <==> |s| > 0 && forall j :: 0 <= j < |s| ==> DigitValue(s[j]).Some?
    decreases |s|
  {
    if |s| > 1 {
      ParseHexDefined(s[..|s| - 1]);
      assert forall j :: 0 <= j < |s| - 1 ==> s[..|s| - 1][j] == s[j];
    }
  }

  /** A four-digit string read digit by digit. */
  lemma ParseHex4(s: string)
    requires |s| == 4
    requires forall j :: 0 <= j < 4 ==> DigitValue(s[j]).Some?
    ensures ParseHex(s) == Some(
      0x1000 * DigitValue(s[0]).value + 0x100 * DigitValue(s[1]).value
      + 0x10 * DigitValue(s[2]).value + DigitValue(s[3]).value)
  {
    assert s[..3][..2] == s[..2] && s[..2][..1] == s[..1];
    assert ParseHex(s[..1]) == DigitValue(s[0]);
    assert ParseHex(s[..2]) == Some(0x10 * DigitValue(s[0]).value + DigitValue(s[1]).value);
    assert ParseHex(s[..3]) == Some(
      0x100 * DigitValue(s[0]).value + 0x10 * DigitValue(s[1]).value + DigitValue(s[2]).value);
  }

  /** The `k` low digits of `n`, most significant first, upper case. */
  function FixedDigits(n: nat, k: nat): (s: string)
    ensures |s| == k
  {
    if k == 0 then [] else FixedDigits(n / 16, k - 1) + [DigitChar(n % 16)]
  }

  /** `FixedDigits` are upper case and read back as `n` when `n` fits in `k` digits. */
  lemma {:induction false} ParseFixedDigits(n: nat, k: nat)
    requires k >= 1 && n < Pow16(k)
    ensures AllUpperHex(FixedDigits(n, k))
    ensures ParseHex(FixedDigits(n, k)) == Some(n)
  {
    var s := FixedDigits(n, k);
    if k > 1 {
      ParseFixedDigits(n / 16, k - 1);
      assert s[..k - 1] == FixedDigits(n / 16, k - 1);
    }
  }

  /** The other round trip: an upper-case digit string is the rendering of its own value. */
  lemma {:induction false} FixedDigitsOfParse(s: string)
    requires |s| >= 1 && AllUpperHex(s)
    ensures ParseHex(s).Some? && s == FixedDigits(ParseHex(s).value, |s|)
    decreases |s|
  {
    var n := |s|;
    ParseHexDefined(s);
    DigitCharOfValue(s[n - 1]);
    if n > 1 {
      var init := s[..n - 1];
      FixedDigitsOfParse(init);
      var v, p, d := ParseHex(s).value, ParseHex(init).value, DigitValue(s[n - 1]).value;
      assert v == 16 * p + d;
      assert v / 16 == p && v % 16 == d;
      assert s == init + [s[n - 1]];
    }
  }

  /** The number of digits `n` needs: one for 0, otherwise as many as leave no leading zero. */
  function NumDigits(n: nat): (k: nat)
    ensures k >= 1
  {
    if n < 16 then 1 else NumDigits(n / 16) + 1
  }

  /** `n` fits in `k` digits exactly when `k` is at least the number of digits it needs. */
  lemma {:induction false} NumDigitsBound(n: nat, k: nat)
    requires k >= 1
    ensures NumDigits(n) <= k <==> n < Pow16(k)
    decreases n
  {
    if n >= 16 && k > 1 {
      NumDigitsBound(n / 16, k - 1);
    }
  }

  /** Four digits spelled out, most significant first. */
  lemma FourDigits(n: nat, a: nat, b: nat, c: nat, d: nat)
    requires a < 16 && b < 16 && c < 16 && d < 16
    requires n == 0x1000 * a + 0x100 * b + 0x10 * c + d
    ensures FixedDigits(n, 4) == [DigitChar(a), DigitChar(b), DigitChar(c), DigitChar(d)]
  {
    assert n / 16 == 0x100 * a + 0x10 * b + c && n % 16 == d;
    assert n / 16 / 16 == 0x10 * a + b && n / 16 % 16 == c;
    assert n / 16 / 16 / 16 == a && n / 16 / 16 % 16 == b;
    assert a % 16 == a && a / 16 == 0;
    assert FixedDigits(a, 1) == [DigitChar(a)];
    assert FixedDigits(n / 16 / 16, 2) == [DigitChar(a), DigitChar(b)];
    assert FixedDigits(n / 16, 3) == [DigitChar(a), DigitChar(b), DigitChar(c)];
  }

  /** The digits of `hi * 16^k + lo` are those of `hi` followed by the `k` digits of `lo`. */
  lemma {:induction false} FixedDigitsConcat(hi: nat, lo: nat, j: nat, k: nat)
    requires lo < Pow16(k)
    ensures FixedDigits(Pow16(k) * hi + lo, j + k) == FixedDigits(hi, j) + FixedDigits(lo, k)
  {
    if k > 0 {
      var p := Pow16(k - 1);
      var n := Pow16(k) * hi + lo;
      assert n == 16 * (p * hi + lo / 16) + lo % 16;
      assert n / 16 == p * hi + lo / 16 && n % 16 == lo % 16;
      FixedDigitsConcat(hi, lo / 16, j, k - 1);
    }
  }

  /** `k` zero digits. */
  function Zeros(k: nat): (s: string)
    ensures |s| == k && forall j :: 0 <= j < k ==> s[j] == '0'
  {
    if k == 0 then [] else Zeros(k - 1) + "0"
  }

  /** Taking more digits than `n` needs pads it with zeros on the left. */
  lemma {:induction false} FixedDigitsPadded(n: nat, k: nat, z: nat)
    requires n < Pow16(k)
    ensures FixedDigits(n, k + z) == Zeros(z) + FixedDigits(n, k)
    decreases k, z
  {
    if k == 0 {
      if z > 0 {
        FixedDigitsPadded(0, 0, z - 1);
      }
    } else {
      FixedDigitsPadded(n / 16, k - 1, z);
    }
  }

  /**
   `f"{n:0<width>X}"`: as many low digits of `n` as the larger of `width`
   and the number of digits `n` needs.
   */
  function FormatHex(n: nat, width: nat): (s: string)
    requires width >= 1
    ensures |s| >= width
    ensures |s| == width <==> n < Pow16(width)
    ensures AllUpperHex(s)
    ensures ParseHex(s) == Some(n)
  {
    var k := if NumDigits(n) < width then width else NumDigits(n);
    NumDigitsBound(n, width);
    NumDigitsBound(n, k);
    ParseFixedDigits(n, k);
    FixedDigits(n, k)
  }

  /**
   Python's own description of the format: the shortest digit string of `n`,
   which has no leading zero unless `n` is 0, padded on the left with '0' to
   `width` characters.
   */
  lemma FormatHexIsZeroPadded(n: nat, width: nat)
    requires width >= 1
    ensures var digits := FixedDigits(n, NumDigits(n));
      && (n > 0 ==> digits[0] != '0')
      && FormatHex(n, width) == if |digits| < width then Zeros(width - |digits|) + digits else digits
  {
    var k := NumDigits(n);
    NumDigitsBound(n, k);
    if k < width {
      FixedDigitsPadded(n, k, width - k);
    }
    if n > 0 && k > 1 {
      ShortestHasNoLeadingZero(n, k);
    }
  }

  lemma ShortestHasNoLeadingZero(n: nat, k: nat)
    requires k > 1 && k == NumDigits(n)
    ensures FixedDigits(n, k)[0] != '0'
  {
    NumDigitsBound(n, k - 1);
    NumDigitsBound(n, k);
    LeadingZeroFitsShorter(n, k);
  }

  /** A number whose `k` digits start with '0' fits in `k - 1` digits. */
  lemma {:induction false} LeadingZeroFitsShorter(n: nat, k: nat)
    requires k > 1 && n < Pow16(k)
    ensures FixedDigits(n, k)[0] == '0' ==> n < Pow16(k - 1)
  {
    var q := n / 16;
    assert n < 16 * q + 16 && q < Pow16(k - 1);
    assert FixedDigits(n, k)[0] == FixedDigits(q, k - 1)[0];
    if k > 2 {
      LeadingZeroFitsShorter(q, k - 1);
    } else {
      assert FixedDigits(q, 1) == [DigitChar(q % 16)];
      assert DigitValue(DigitChar(q % 16)) == Some(q % 16);
    }
  }

  /** With room enough, the rendering is exactly `width` digits. */
  lemma FormatHexDigits(n: nat, width: nat)
    requires width >= 1 && n < Pow16(width)
    ensures FormatHex(n, width) == FixedDigits(n, width)
  {
    NumDigitsBound(n, width);
  }

  /** Two numbers render the same at a given width only if they are equal. */
  lemma FormatHexInjective(m: nat, n: nat, width: nat)
    requires width >= 1
    requires FormatHex(m, width) == FormatHex(n, width)
    ensures m == n
  {
  }
}
