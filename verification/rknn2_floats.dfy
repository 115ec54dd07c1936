/**
 * f16_2_f32 of the RKNN2 wrapper, which widens an IEEE 754 half-precision bit pattern to single
 * precision.
 */
module Rknn2Floats {

  /** The sign, exponent and mantissa fields of a half-precision bit pattern. */
  function HalfSign(h: bv16): bv16 { (h >> 15) & 1 }
  function HalfExponent(h: bv16): bv16 { (h >> 10) & 0x1f }
  function HalfMantissa(h: bv16): bv16 { h & 0x3ff }

  /** The sign, exponent and mantissa fields of a single-precision bit pattern. */
  function SingleSign(b: bv32): bv32 { (b >> 31) & 1 }
  function SingleExponent(b: bv32): bv32 { (b >> 23) & 0xff }
  function SingleMantissa(b: bv32): bv32 { b & 0x7f_ffff }

  /** A single-precision bit pattern from its three fields. */
  function Pack(sign: bv32, exponent: bv32, mantissa: bv32): (b: bv32)
    requires sign < 2 && exponent < 0x100 && mantissa < 0x80_0000
    ensures SingleSign(b) == sign && SingleExponent(b) == exponent && SingleMantissa(b) == mantissa
  {
    (sign << 31) | (exponent << 23) | mantissa
  }

  /**
   * f16_2_f32 as written: the sign moved to bit 31, the exponent rebiased from 15 to 127 and the
   * mantissa moved up 13 bits, whatever the exponent. The result is the bit pattern the function
   * reinterprets as a float.
   */
  function F16ToF32AsWritten(f16: bv16): bv32
  {
    var sign := ((f16 >> 15) & 0x1) as bv32;
    var exponent := ((f16 >> 10) & 0x1f) as bv32 - 15 + 127;
    var mantissa := ((f16 & 0x3ff) as bv32) << 13;
    (sign << 31) | (exponent << 23) | mantissa
  }

  /** 2^k for a natural k. */
  function Power2(k: nat): (r: nat)
    ensures r >= 1
  {
    if k == 0 then 1 else 2 * Power2(k - 1)
  }

  /** 2^(a+b) = 2^a·2^b. */
  lemma {:induction false} Power2Add(a: nat, b: nat)
    ensures Power2(a + b) == Power2(a) * Power2(b)
  {
    if b > 0 {
      Power2Add(a, b - 1);
      assert Power2(a + b) == 2 * Power2(a + b - 1);
    }
  }

  /** The number (-1)^negative · significand · 2^exponent: the exact value of a finite IEEE 754 pattern. */
  datatype Dyadic = Dyadic(negative: bool, significand: nat, exponent: int)

  /** x and y denote the same number; the two zeros are the same number whatever their signs. */
  predicate SameNumber(x: Dyadic, y: Dyadic)
  {
    if x.significand == 0 || y.significand == 0 then x.significand == y.significand
    else
      && x.negative == y.negative
      && if x.exponent >= y.exponent then x.significand * Power2(x.exponent - y.exponent) == y.significand
         else y.significand * Power2(y.exponent - x.exponent) == x.significand
  }

  /** The value of a half with biased exponent e and mantissa m: (2^10 + m)·2^(e-25) when e > 0, m·2^-24 when e = 0. */
  function HalfFields(negative: bool, e: int, m: nat): Dyadic
  {
    if e == 0 then Dyadic(negative, m, -24) else Dyadic(negative, 1024 + m, e - 25)
  }

  /** The value of a single with biased exponent e and mantissa m: (2^23 + m)·2^(e-150) when e > 0, m·2^-149 when e = 0. */
  function SingleFields(negative: bool, e: int, m: nat): Dyadic
  {
    if e == 0 then Dyadic(negative, m, -149) else Dyadic(negative, 0x80_0000 + m, e - 150)
  }

  /** The value of a finite half bit pattern (exponent field not all ones). */
  function HalfNumber(h: bv16): Dyadic
  {
    HalfFields(HalfSign(h) == 1, HalfExponent(h) as int, HalfMantissa(h) as int)
  }

  /** The value of a finite single bit pattern (exponent field not all ones). */
  function SingleNumber(b: bv32): Dyadic
  {
    SingleFields(SingleSign(b) == 1, SingleExponent(b) as int, SingleMantissa(b) as int)
  }

  /** The widened pattern is the half's sign, its exponent plus 112 and its mantissa moved up 13 bits. */
  lemma AsWrittenFields(h: bv16)
    ensures F16ToF32AsWritten(h) == Pack(HalfSign(h) as bv32, HalfExponent(h) as bv32 + 112, (HalfMantissa(h) as bv32) << 13)
  {
  }

  /** The same, field by field, as numbers. */
  lemma AsWrittenFieldValues(h: bv16)
    ensures (SingleSign(F16ToF32AsWritten(h)) == 1) == (HalfSign(h) == 1)
    ensures SingleExponent(F16ToF32AsWritten(h)) as int == HalfExponent(h) as int + 112
    ensures SingleMantissa(F16ToF32AsWritten(h)) as int == HalfMantissa(h) as int * 8192
  {
    AsWrittenFields(h);
    WideningKeepsValue(HalfMantissa(h));
    RebiasAsInt(HalfExponent(h));
  }

  /** A 10-bit mantissa moved up 13 bits is 8192 times as large. */
  lemma WideningKeepsValue(m: bv16)
    requires m < 0x400
    ensures ((m as bv32) << 13) as int == m as int * 8192
  {
  }

  /** A half exponent plus 112 is that much larger as a number. */
  lemma RebiasAsInt(e: bv16)
    requires e < 0x20
    ensures (e as bv32 + 112) as int == e as int + 112
  {
  }

  /** Rebiasing a normal exponent from 15 to 127 and moving the mantissa up 13 bits keeps the number. */
  lemma RebiasedNumber(negative: bool, e: int, m: nat)
    requires e >= 1
    ensures SameNumber(SingleFields(negative, e + 112, m * 8192), HalfFields(negative, e, m))
  {
    assert (e - 25) - (e + 112 - 150) == 13;
    assert Power2(13) == 8192;
  }

  /** A field-by-field widening that rebiases a normal exponent keeps the number. */
  lemma RebiasedPattern(b: bv32, h: bv16)
    requires 1 <= HalfExponent(h) as int
    requires (SingleSign(b) == 1) == (HalfSign(h) == 1)
    requires SingleExponent(b) as int == HalfExponent(h) as int + 112
    requires SingleMantissa(b) as int == HalfMantissa(h) as int * 8192
    ensures SameNumber(SingleNumber(b), HalfNumber(h))
  {
    RebiasedNumber(HalfSign(h) == 1, HalfExponent(h) as int, HalfMantissa(h) as int);
  }

  /** On every normal half (exponent from 1 to 30) the widened pattern is the same number. */
  lemma AsWrittenNormal(h: bv16)
    requires 1 <= HalfExponent(h) as int <= 30
    ensures SameNumber(SingleNumber(F16ToF32AsWritten(h)), HalfNumber(h))
  {
    AsWrittenFieldValues(h);
    RebiasedPattern(F16ToF32AsWritten(h), h);
  }

  /**
   * As written, a half zero becomes 2^-15 instead of 0, infinity becomes 2^16 and the quiet NaN
   * 0x7E00 becomes 98304: the exponent is rebiased even where it marks zero, a subnormal or a special.
   */
  lemma AsWrittenSpecials()
    ensures F16ToF32AsWritten(0x0000) == 0x3800_0000 && HalfNumber(0x0000).significand == 0
    ensures SingleNumber(0x3800_0000) == Dyadic(false, 0x80_0000, -38)
    ensures !SameNumber(SingleNumber(0x3800_0000), HalfNumber(0x0000))
    ensures F16ToF32AsWritten(0x7c00) == 0x4780_0000 && SameNumber(SingleNumber(0x4780_0000), Dyadic(false, 65536, 0))
    ensures F16ToF32AsWritten(0x7e00) == 0x47c0_0000 && SameNumber(SingleNumber(0x47c0_0000), Dyadic(false, 98304, 0))
  {
    assert SingleExponent(0x3800_0000) as int == 112 && SingleMantissa(0x3800_0000) as int == 0;
    assert SingleExponent(0x4780_0000) as int == 143 && SingleMantissa(0x4780_0000) as int == 0;
    assert SingleExponent(0x47c0_0000) as int == 143 && SingleMantissa(0x47c0_0000) as int == 0x40_0000;
    assert HalfMantissa(0x0000) as int == 0;
    assert Power2(7) == 128;
  }

  /**
   * A subnormal half mantissa m shifted left until its bit 10 is set: the number of shifts s
   * and the low ten bits m' of the result, so that m·2^s = 2^10 + m'.
   */
  function Normalize(m: bv16): (r: (bv8, bv16))
    requires 0 < m < 0x800
    decreases 0x800 - m
    ensures r.0 <= 10 && m < (0x800 >> r.0) && r.1 < 0x400
  {
    if m & 0x400 != 0 then (0, m & 0x3ff)
    else
      var r := Normalize(m << 1);
      (r.0 + 1, r.1)
  }

  /** One step of Normalize on a mantissa whose bit 10 is clear, as numbers: n is m shifted left once. */
  lemma NormalizeStep(m: bv16) returns (n: bv16)
    requires 0 < m < 0x800 && m & 0x400 == 0
    ensures 0 < n < 0x800 && 0x800 - n < 0x800 - m
    ensures n as int == 2 * m as int
    ensures Normalize(m).1 == Normalize(n).1
    ensures Normalize(m).0 as int == Normalize(n).0 as int + 1
  {
    n := m << 1;
    var r := Normalize(n);
    assert r.0 < 10;
  }

  /** A mantissa with bit 10 set and no higher bit is 2^10 plus its low ten bits, with no shift. */
  lemma NormalizeDone(m: bv16)
    requires 0 < m < 0x800 && m & 0x400 != 0
    ensures Normalize(m).0 as int == 0
    ensures m as int == 1024 + Normalize(m).1 as int
  {
  }

  /** x·2^t = v when t = s + 1 and 2x·2^s = v. */
  lemma DoubleShift(x: int, y: int, s: nat, t: nat, v: int)
    requires y == 2 * x && t == s + 1 && y * Power2(s) == v
    ensures x * Power2(t) == v
  {
  }

  /** Normalising keeps the value: m·2^s = 2^10 + m'. */
  lemma {:induction false} NormalizeKeepsValue(m: bv16)
    requires 0 < m < 0x800
    decreases 0x800 - m
    ensures m as int * Power2(Normalize(m).0 as int) == 1024 + Normalize(m).1 as int
  {
    if m & 0x400 != 0 {
      NormalizeDone(m);
    } else {
      var n := NormalizeStep(m);
      NormalizeKeepsValue(n);
      DoubleShift(m as int, n as int, Normalize(n).0 as int, Normalize(m).0 as int, 1024 + Normalize(m).1 as int);
    }
  }

  /** The biased single exponent of a half subnormal after s shifts: 113 - s. */
  lemma ShiftedExponentAsInt(s: bv8)
    requires s <= 10
    ensures ((113 - s) as bv32) as int == 113 - s as int
  {
  }

  /**
   * The conversion, corrected with the special cases: a zero keeps its sign and stays zero, a subnormal is
   * normalised, an infinity or NaN keeps an all-ones exponent and its mantissa, and a normal half
   * is rebiased as f16_2_f32 does.
   */
  function F16ToF32(f16: bv16): bv32
  {
    var sign, e, m := HalfSign(f16) as bv32, HalfExponent(f16), HalfMantissa(f16);
    if e == 0x1f then Pack(sign, 0xff, (m as bv32) << 13)
    else if e == 0 && m == 0 then Pack(sign, 0, 0)
    else if e == 0 then
      var r := Normalize(m);
      Pack(sign, (113 - r.0) as bv32, (r.1 as bv32) << 13)
    else Pack(sign, e as bv32 + 112, (m as bv32) << 13)
  }

  /** A subnormal half m·2^-24 is the normal single (2^23 + m'·2^13)·2^(113-s-150) when m·2^s = 2^10 + m'. */
  lemma SubnormalNumber(negative: bool, m: nat, s: nat, m': nat)
    requires m > 0 && s <= 10 && m * Power2(s) == 1024 + m'
    ensures SameNumber(SingleFields(negative, 113 - s, m' * 8192), HalfFields(negative, 0, m))
  {
    Power2Add(13, s);
    assert Power2(13) == 8192;
    Scale(m, Power2(s), Power2(13 + s), m');
  }

  /** m·2^(13+s) = 2^23 + m'·2^13 when m·2^s = 2^10 + m'. */
  lemma Scale(m: nat, p: nat, q: nat, m': nat)
    requires m * p == 1024 + m' && q == 8192 * p
    ensures m * q == 0x80_0000 + m' * 8192
  {
  }

  /** The fields F16ToF32 gives a subnormal half, as numbers. */
  lemma SubnormalFields(h: bv16)
    requires HalfExponent(h) == 0 && HalfMantissa(h) != 0
    ensures (SingleSign(F16ToF32(h)) == 1) == (HalfSign(h) == 1)
    ensures SingleExponent(F16ToF32(h)) as int == 113 - Normalize(HalfMantissa(h)).0 as int
    ensures SingleMantissa(F16ToF32(h)) as int == Normalize(HalfMantissa(h)).1 as int * 8192
  {
    var r := Normalize(HalfMantissa(h));
    SubnormalPack(h);
    ShiftedExponentAsInt(r.0);
    WideningKeepsValue(r.1);
  }

  /** The fields F16ToF32 gives a subnormal half, as bits. */
  lemma SubnormalPack(h: bv16)
    requires HalfExponent(h) == 0 && HalfMantissa(h) != 0
    ensures SingleSign(F16ToF32(h)) == HalfSign(h) as bv32
    ensures SingleExponent(F16ToF32(h)) == (113 - Normalize(HalfMantissa(h)).0) as bv32
    ensures SingleMantissa(F16ToF32(h)) == (Normalize(HalfMantissa(h)).1 as bv32) << 13
  {
  }

  /** The fields F16ToF32 gives a normal half, as numbers. */
  lemma NormalFields(h: bv16)
    requires HalfExponent(h) != 0 && HalfExponent(h) != 0x1f
    ensures (SingleSign(F16ToF32(h)) == 1) == (HalfSign(h) == 1)
    ensures SingleExponent(F16ToF32(h)) as int == HalfExponent(h) as int + 112
    ensures SingleMantissa(F16ToF32(h)) as int == HalfMantissa(h) as int * 8192
  {
    RebiasAsInt(HalfExponent(h));
    WideningKeepsValue(HalfMantissa(h));
  }

  /** A subnormal half widens to a normal single that is the same number. */
  lemma SubnormalValue(h: bv16)
    requires HalfExponent(h) == 0 && HalfMantissa(h) != 0
    ensures SameNumber(SingleNumber(F16ToF32(h)), HalfNumber(h))
  {
    var m := HalfMantissa(h);
    NormalizeKeepsValue(m);
    SubnormalFields(h);
    SubnormalPattern(F16ToF32(h), h, Normalize(m).0 as int, Normalize(m).1 as int);
  }

  /** The single with the fields a normalised subnormal half gets is the same number as the half. */
  lemma SubnormalPattern(b: bv32, h: bv16, s: nat, m': nat)
    requires HalfExponent(h) == 0 && HalfMantissa(h) != 0 && s <= 10
    requires HalfMantissa(h) as int * Power2(s) == 1024 + m'
    requires (SingleSign(b) == 1) == (HalfSign(h) == 1)
    requires SingleExponent(b) as int == 113 - s
    requires SingleMantissa(b) as int == m' * 8192
    ensures SameNumber(SingleNumber(b), HalfNumber(h))
  {
    assert HalfExponent(h) as int == 0;
    SubnormalNumber(HalfSign(h) == 1, HalfMantissa(h) as int, s, m');
  }

  /** Every finite half, zero and subnormals included, widens to a single that is the same number. */
  lemma F16ToF32Value(h: bv16)
    requires HalfExponent(h) != 0x1f
    ensures SameNumber(SingleNumber(F16ToF32(h)), HalfNumber(h))
  {
    if HalfExponent(h) == 0 && HalfMantissa(h) == 0 {
      assert SingleMantissa(F16ToF32(h)) as int == 0 && HalfMantissa(h) as int == 0;
    } else if HalfExponent(h) == 0 {
      SubnormalValue(h);
    } else {
      NormalFields(h);
      RebiasedPattern(F16ToF32(h), h);
    }
  }

  /** A finite half widens to a finite single. */
  lemma F16ToF32Finite(h: bv16)
    requires HalfExponent(h) != 0x1f
    ensures SingleExponent(F16ToF32(h)) != 0xff
  {
  }

  /** An infinity stays an infinity and a NaN stays a NaN, with the same sign. */
  lemma F16ToF32Specials(h: bv16)
    requires HalfExponent(h) == 0x1f
    ensures SingleExponent(F16ToF32(h)) == 0xff && SingleSign(F16ToF32(h)) as bv16 == HalfSign(h)
    ensures SingleMantissa(F16ToF32(h)) == 0 <==> HalfMantissa(h) == 0
  {
  }

  /** On normal halves the corrected conversion is the one f16_2_f32 writes. */
  lemma F16ToF32AgreesOnNormals(h: bv16)
    requires 1 <= HalfExponent(h) as int <= 30
    ensures F16ToF32(h) == F16ToF32AsWritten(h)
  {
    AsWrittenFields(h);
  }
}
