/** Half-precision floats: conversion to and from the bit patterns of single-precision floats. */
module HalfFloats {
  import opened Bits

  /** Sign, exponent and significand of a bit pattern. */
  datatype Parts = Parts(sign: nat, exponent: nat, significand: nat)

  const BIAS_DIFFERENCE: nat := 112
  const HALF_INFINITY: nat := 0x7C00

  lemma FloatPowers()
    ensures Pow2(5) == 0x20 && Pow2(8) == 0x100 && Pow2(10) == 0x400 && Pow2(12) == 0x1000 && Pow2(13) == 0x2000
    ensures Pow2(15) == 0x8000 && Pow2(16) == 0x1_0000
    ensures Pow2(23) == 0x80_0000 && Pow2(24) == 0x100_0000 && Pow2(31) == 0x8000_0000
  {
    assert Pow2(5) == 32 && Pow2(8) == 256;
    Pow2Sum(5, 5);
    Pow2Sum(5, 8);
    Pow2Sum(10, 13);
    Pow2Sum(2, 10);
    Pow2Sum(5, 10);
    Pow2Sum(8, 8);
    Powers();
  }

  function Parts16(h: nat): Parts {
    Parts(h / 0x8000, h / 0x400 % 0x20, h % 0x400)
  }

  function Parts32(w: nat): Parts {
    Parts(w / 0x8000_0000, w / 0x80_0000 % 0x100, w % 0x80_0000)
  }

  function Word32(p: Parts): nat {
    0x8000_0000 * p.sign + 0x80_0000 * p.exponent + p.significand
  }

  // ----- masks and shifts -----

  /** Masking a field and shifting it down takes the field out. */
  lemma FieldAt(v: nat, j: nat, k: nat)
    ensures Shr(BitAnd(v, Shl(MaxUnsigned(k), j)), j) == Truncate(Shr(v, j), k)
  {
    var f := Shr(BitAnd(v, Shl(MaxUnsigned(k), j)), j);
    ShlBound(MaxUnsigned(k), j, k);
    AndBound(v, Shl(MaxUnsigned(k), j), k + j);
    ShrBound(BitAnd(v, Shl(MaxUnsigned(k), j)), j, k);
    forall i | 0 <= i < k ensures Bit(f, i) == Bit(Truncate(Shr(v, j), k), i) {
      ShrBit(BitAnd(v, Shl(MaxUnsigned(k), j)), j, i);
      AndBit(v, Shl(MaxUnsigned(k), j), i + j);
      ShlBit(MaxUnsigned(k), j, i + j);
      MaskBit(k, i);
      TruncateBit(Shr(v, j), k, i);
      ShrBit(v, j, i);
    }
    WordsEqual(f, Truncate(Shr(v, j), k), k);
  }

  lemma ShrIsQuotient(v: nat, k: nat)
    ensures Shr(v, k) == v / Pow2(k)
  {
    ShrIsDivision(v, k);
    ModIsRemainder(v, Pow2(k), Shr(v, k), Truncate(v, k));
  }

  /** The masks of the fields. */
  lemma Masks()
    ensures Shl(1, 15) == 0x8000 && Shl(MaxUnsigned(5), 10) == 0x7C00 && MaxUnsigned(10) == 0x3FF
    ensures Shl(1, 31) == 0x8000_0000 && Shl(MaxUnsigned(8), 23) == 0x7F80_0000 && MaxUnsigned(23) == 0x7F_FFFF
  {
    FloatPowers();
    ShlIsProduct(1, 15);
    ShlIsProduct(31, 10);
    ShlIsProduct(1, 31);
    ShlIsProduct(255, 23);
  }

  /** A masked sign is the sign bit in its place. */
  lemma SignInPlace(v: nat, j: nat)
    requires v < Pow2(j + 1)
    ensures BitAnd(v, Shl(1, j)) == Shl(v / Pow2(j), j) && v / Pow2(j) <= 1
  {
    ShrIsDivision(v, j);
    ShrIsQuotient(v, j);
    ShrBound(v, j, 1);
    ShlBound(1, j, 1);
    ShlBound(Shr(v, j), j, 1);
    AndBound(v, Shl(1, j), 1 + j);
    forall i | 0 <= i < 1 + j ensures Bit(BitAnd(v, Shl(1, j)), i) == Bit(Shl(Shr(v, j), j), i) {
      AndBit(v, Shl(1, j), i);
      ShlBit(1, j, i);
      ShlBit(Shr(v, j), j, i);
      if i >= j {
        ShrBit(v, j, i - j);
      }
    }
    WordsEqual(BitAnd(v, Shl(1, j)), Shl(Shr(v, j), j), 1 + j);
  }

  lemma Fields16(h: nat)
    requires h < 0x1_0000
    ensures BitAnd(h, 0x8000) == 0x8000 * Parts16(h).sign && Parts16(h).sign <= 1
    ensures Shr(BitAnd(h, 0x7C00), 10) == Parts16(h).exponent < 0x20
    ensures BitAnd(h, 0x3FF) == Parts16(h).significand < 0x400
    ensures h == 0x8000 * Parts16(h).sign + 0x400 * Parts16(h).exponent + Parts16(h).significand
  {
    hide BitAnd, Shr, Shl, Pow2;
    FloatPowers();
    Masks();
    SignInPlace(h, 15);
    ShlIsProduct(h / 0x8000, 15);
    FieldAt(h, 10, 5);
    ShrIsQuotient(h, 10);
    AndMask(h, 10);
  }

  lemma Fields32(w: nat)
    requires w < 0x1_0000_0000
    ensures BitAnd(w, 0x8000_0000) == 0x8000_0000 * Parts32(w).sign && Parts32(w).sign <= 1
    ensures Shr(BitAnd(w, 0x7F80_0000), 23) == Parts32(w).exponent < 0x100
    ensures BitAnd(w, 0x7F_FFFF) == Parts32(w).significand < 0x80_0000
    ensures w == Word32(Parts32(w))
  {
    hide BitAnd, Shr, Shl, Pow2;
    FloatPowers();
    Powers();
    Masks();
    SignInPlace(w, 31);
    ShlIsProduct(w / 0x8000_0000, 31);
    FieldAt(w, 23, 8);
    ShrIsQuotient(w, 23);
    AndMask(w, 23);
  }

  /** Putting the fields of a word together. */
  lemma Compose(sign: nat, exponent: nat, significand: nat, e: nat, s: nat)
    requires exponent < Pow2(e) && significand < Pow2(s)
    ensures BitOr(BitOr(Shl(sign, e + s), Shl(exponent, s)), significand)
            == Pow2(e + s) * sign + Pow2(s) * exponent + significand
  {
    hide BitOr, Shl;
    ShlBound(exponent, s, e);
    OrIsSum(sign, Shl(exponent, s), e + s);
    ShlIsProduct(sign, e + s);
    ShlIsProduct(exponent, s);
    var high := Pow2(e) * sign + exponent;
    Pow2Sum(e, s);
    ShlIsProduct(high, s);
    assert Pow2(s) * high == Pow2(e + s) * sign + Pow2(s) * exponent by {
      Distribute(Pow2(s), Pow2(e), sign, exponent);
    }
    OrIsSum(high, significand, s);
  }

  lemma Distribute(a: nat, b: nat, x: nat, y: nat)
    ensures a * (b * x + y) == (b * a) * x + a * y
  {
  }

  // ----- widening -----

  /** Shifts a significand up until its leading bit is bit 23, lowering the exponent. */
  function Normalize(exponent: int, significand: nat): (p: (int, nat))
    requires 0 < significand < 0x100_0000
    ensures 0x80_0000 <= p.1 < 0x100_0000 && p.0 <= exponent
    decreases 0x100_0000 - significand
  {
    if significand >= 0x80_0000 then (exponent, significand) else Normalize(exponent - 1, 2 * significand)
  }

  lemma NormalizeStep(exponent: int, significand: nat)
    requires 0 < significand < 0x100_0000
    ensures Normalize(exponent, significand)
            == if significand >= 0x80_0000 then (exponent, significand) else Normalize(exponent - 1, 2 * significand)
  {
  }

  lemma {:induction false} NormalizeScales(exponent: int, significand: nat)
    requires 0 < significand < 0x100_0000
    ensures var (e, f) := Normalize(exponent, significand);
            f == significand * Pow2(exponent - e)
    decreases 0x100_0000 - significand
  {
    if significand < 0x80_0000 {
      NormalizeScales(exponent - 1, 2 * significand);
      var (e, f) := Normalize(exponent, significand);
      assert 2 * significand * Pow2(exponent - 1 - e) == significand * Pow2(exponent - e);
    }
  }

  /** How far a half significand is shifted. */
  lemma NormalizeRange(m: nat)
    requires 0 < m < 0x400
    ensures var (e, f) := Normalize(113, 0x2000 * m);
            103 <= e <= 112 && f == 0x2000 * m * Pow2(113 - e)
  {
    NormalizeScales(113, 0x2000 * m);
    var (e, f) := Normalize(113, 0x2000 * m);
    FloatPowers();
    assert Pow2(0) == 1;
    if e < 103 {
      Pow2Monotone(11, 113 - e);
      assert Pow2(11) == 2048 by { Pow2Sum(1, 10); }
      TooFar(m, Pow2(113 - e));
    }
  }

  lemma TooFar(m: nat, p: nat)
    requires m > 0 && p >= 2048
    ensures 0x2000 * m * p >= 0x100_0000
  {
  }

  function WidenedParts(p: Parts): Parts
    requires p.significand < 0x400
  {
    if p.exponent == 0 then
      if p.significand == 0 then Parts(p.sign, 0, 0)
      else
        NormalizeRange(p.significand);
        var (e, f) := Normalize(113, 0x2000 * p.significand);
        Parts(p.sign, e, f - 0x80_0000)
    else if p.exponent == 31 then Parts(p.sign, 255, 0x2000 * p.significand)
    else Parts(p.sign, p.exponent + BIAS_DIFFERENCE, 0x2000 * p.significand)
  }

  /** Bit 23 of a significand below 2^24. */
  lemma LeadingBit(significand: nat)
    requires significand < 0x100_0000
    ensures BitAnd(significand, 0x80_0000) == 0 <==> significand < 0x80_0000
  {
    hide BitAnd;
    FloatPowers();
    AndSingleBit(significand, 23);
    TopBit(significand, 24);
  }

  method ConvertUInt16ToFloat(float16Value: nat) returns (float32Value: nat)
    requires float16Value < 0x1_0000
    ensures float32Value == Word32(WidenedParts(Parts16(float16Value)))
  {
    hide BitAnd, BitOr, Shr, Shl, Pow2, Parts16, WidenedParts;
    Fields16(float16Value);
    FloatPowers();
    ghost var p := Parts16(float16Value);
    // sign, exponent and significand of the 16-bit pattern
    var sign16Shifted := BitAnd(float16Value, 0x8000);
    var exponent16 := Shr(BitAnd(float16Value, 0x7C00), 10);
    var significand16 := BitAnd(float16Value, 0x3FF);

    var exponent32, significand32 := WidenExponent(p.sign, exponent16, significand16);

    // the three fields side by side in 32 bits
    ComposedFloat(sign16Shifted, p.sign, exponent32, significand32);
    var sign32Shifted := Shl(sign16Shifted, 16);
    var exponent32Shifted := Shl(exponent32, 23);
    float32Value := BitOr(BitOr(sign32Shifted, exponent32Shifted), significand32);
  }

  /** Exponent and significand of the single precision float; a subnormal number is normalized. */
  method WidenExponent(ghost sign: nat, exponent16: nat, significand16: nat)
    returns (exponent32: nat, significand32: nat)
    requires exponent16 < 0x20 && significand16 < 0x400
    ensures Parts(sign, exponent32, significand32) == WidenedParts(Parts(sign, exponent16, significand16))
    ensures exponent32 < 0x100 && significand32 < 0x80_0000
  {
    hide BitAnd, Shl, Pow2, Normalize;
    FloatPowers();
    // the significand gets 13 more bits
    ShlIsProduct(significand16, 13);
    significand32 := Shl(significand16, 13);

    // the exponent gets the bias of the wider format
    exponent32 := 0;
    if exponent16 == 0 {
      if significand32 != 0 {
        exponent32 := 1 + 127 - 15;
        NormalizeRange(significand16);
        LeadingBit(significand32);
        while BitAnd(significand32, 0x80_0000) == 0
          invariant 0 < significand32 < 0x100_0000 && exponent32 <= 113
          invariant BitAnd(significand32, 0x80_0000) == 0 <==> significand32 < 0x80_0000
          invariant Normalize(exponent32, significand32) == Normalize(113, 0x2000 * significand16)
          decreases 0x100_0000 - significand32
        {
          NormalizeStep(exponent32, significand32);
          exponent32 := exponent32 - 1;
          significand32 := 2 * significand32;
          LeadingBit(significand32);
        }
        NormalizeStep(exponent32, significand32);
        AndMask(significand32, 23);
        significand32 := BitAnd(significand32, 0x7F_FFFF);
      }
    } else if exponent16 == 31 {
      exponent32 := 255;
    } else {
      exponent32 := exponent16 + 127 - 15;
    }
  }

  lemma ComposedFloat(sign16Shifted: nat, sign: nat, exponent: nat, significand: nat)
    requires sign16Shifted == 0x8000 * sign && exponent < 0x100 && significand < 0x80_0000
    ensures BitOr(BitOr(Shl(sign16Shifted, 16), Shl(exponent, 23)), significand)
            == Word32(Parts(sign, exponent, significand))
  {
    hide BitOr, Shl, Pow2;
    FloatPowers();
    ShlIsProduct(sign16Shifted, 16);
    ShlIsProduct(sign, 31);
    Compose(sign, exponent, significand, 8, 23);
  }

  // ----- narrowing -----

  /** The quotient rounded to the nearest integer, halves upwards. */
  function Rounded(n: nat, d: nat): nat
    requires d > 0
  {
    (2 * n + d) / (2 * d)
  }

  /** Exponent and significand of the half-precision result, as one number; rounding may carry into the exponent. */
  function NarrowedMagnitude(exponent: nat, significand: nat): nat {
    var e := exponent - BIAS_DIFFERENCE;
    if exponent == 0 then 0
    else if exponent == 255 || e > 31 then HALF_INFINITY + significand / 0x2000
    else if e <= -10 then 0
    else if e <= 0 then Rounded(0x80_0000 + significand, Pow2(14 - e))
    else 0x400 * e + Rounded(significand, 0x2000)
  }

  function Narrowed(p: Parts): nat {
    Truncate(0x8000 * p.sign + NarrowedMagnitude(p.exponent, p.significand), 16)
  }

  /** Truncating a significand and adding its highest lost bit rounds it. */
  lemma RoundsByBit(n: nat, k: nat)
    requires k > 0
    ensures Shr(n, k) + (if BitAnd(Shr(n, k - 1), 1) != 0 then 1 else 0) == Rounded(n, Pow2(k))
  {
    hide Shr, BitAnd, Truncate, Rounded;
    var d, m := Pow2(k - 1), Pow2(k);
    ShrIsDivision(n, k);
    ShrIsQuotient(n, k - 1);
    AndMask(n / d, 1);
    LowBitOf(n / d);
    HalfOfRest(n, d, m, Shr(n, k), Truncate(n, k));
  }

  lemma LowBitOf(v: nat)
    ensures MaxUnsigned(1) == 1 && Truncate(v, 1) == v % 2
  {
    assert Pow2(1) == 2;
  }

  lemma HalfOfRest(n: nat, d: nat, m: nat, q: nat, r: nat)
    requires d > 0 && m == 2 * d && n == q * m + r && r < m
    ensures q + (if (n / d) % 2 != 0 then 1 else 0) == Rounded(n, m)
  {
    hide Rounded;
    if r >= d {
      LastBit(n, d, m, q, 1, r - d);
    } else {
      LastBit(n, d, m, q, 0, r);
    }
  }

  lemma LastBit(n: nat, d: nat, m: nat, q: nat, h: nat, t: nat)
    requires t < d && h <= 1 && m == 2 * d && n == q * m + h * d + t
    ensures (n / d) % 2 == h && Rounded(n, m) == q + h
  {
    Halve(q, d, h);
    ModIsRemainder(n, d, 2 * q + h, t);
    OddOrEven(q, h);
    Quarter(q, h, d);
    assert 2 * n + m == 2 * n + 2 * d;
    ModIsRemainder(2 * n + 2 * d, 2 * m, q + h, 2 * t + (if h == 1 then 0 else 2 * d));
  }

  lemma OddOrEven(q: nat, h: nat)
    requires h <= 1
    ensures (2 * q + h) % 2 == h
  {
  }

  lemma Halve(q: nat, d: nat, h: nat)
    ensures (2 * q + h) * d == q * (2 * d) + h * d
  {
  }

  lemma Quarter(q: nat, h: nat, d: nat)
    ensures (q + h) * (2 * (2 * d)) == 2 * (q * (2 * d)) + 4 * (h * d)
  {
  }

  method ConvertFloatToUInt16(float32Value: nat) returns (float16Value: nat)
    requires float32Value < 0x1_0000_0000
    ensures float16Value == Narrowed(Parts32(float32Value))
  {
    hide BitAnd, BitOr, Shr, Shl, Pow2, Parts32, NarrowedMagnitude, Narrowed, Truncate;
    Fields32(float32Value);
    FloatPowers();
    ghost var p := Parts32(float32Value);
    // sign, exponent and significand of the 32-bit pattern
    var sign32Shifted := BitAnd(float32Value, 0x8000_0000);
    var exponent32 := Shr(BitAnd(float32Value, 0x7F80_0000), 23);
    var significand32 := BitAnd(float32Value, 0x7F_FFFF);

    var exponent16, significand16, needsRounding := NarrowExponent(exponent32, significand32);

    // the three fields side by side in 16 bits
    ComposedHalf(sign32Shifted, p.sign, exponent16, significand16);
    var sign16Shifted := Shr(sign32Shifted, 16);
    var exponent16Shifted := Shl(exponent16, 10);
    float16Value := BitOr(BitOr(sign16Shifted, exponent16Shifted), significand16);
    NarrowedIs(p, exponent16, significand16, if needsRounding then 1 else 0);
    SmallTruncate(float16Value, 16);

    // adding to the whole pattern lets the carry run into the exponent
    if needsRounding {
      float16Value := Truncate(float16Value + 1, 16);
    }
  }

  lemma NarrowedIs(p: Parts, exponent: nat, significand: nat, up: nat)
    requires 0x400 * exponent + significand + up == NarrowedMagnitude(p.exponent, p.significand)
    ensures Narrowed(p) == Truncate((0x8000 * p.sign + 0x400 * exponent + significand) + up, 16)
  {
    hide NarrowedMagnitude, Truncate;
  }

  /** Exponent and significand of the half precision float, and whether they are to be rounded up. */
  method NarrowExponent(exponent32: nat, significand32: nat)
    returns (exponent16: nat, significand16: nat, needsRounding: bool)
    requires exponent32 < 0x100 && significand32 < 0x80_0000
    ensures exponent16 < 0x20 && significand16 < 0x400
    ensures 0x400 * exponent16 + significand16 + (if needsRounding then 1 else 0)
            == NarrowedMagnitude(exponent32, significand32)
  {
    hide BitAnd, BitOr, Shr, Shl, Pow2, Rounded;
    FloatPowers();
    // the significand loses its low 13 bits
    ShrIsQuotient(significand32, 13);
    significand16 := Shr(significand32, 13);

    // the exponent gets the bias of the narrower format
    needsRounding := false;
    exponent16 := 0;
    if exponent32 == 0 {
      if significand32 != 0 {
        significand16 := 0;
      }
    } else if exponent32 == 255 {
      exponent16 := 31;
    } else {
      var signedExponent16 := exponent32 - 127 + 15;
      if signedExponent16 > 31 {
        exponent16 := 31;
      } else if signedExponent16 <= 0 {
        if signedExponent16 <= -10 {
          significand16 := 0;
        } else {
          // small enough for a number without the implicit leading bit
          LeadingOne(significand32);
          var fullSignificand32 := BitOr(significand32, 0x7F_FFFF + 1);
          var significandShift: nat := 1 - signedExponent16;
          RoundsByBit(fullSignificand32, 13 + significandShift);
          SubnormalFits(fullSignificand32, 13 + significandShift);
          significand16 := Shr(fullSignificand32, 23 - 10 + significandShift);
          needsRounding := BitAnd(Shr(fullSignificand32, 23 - 10 + significandShift - 1), 1) != 0;
        }
      } else {
        exponent16 := signedExponent16;
        RoundsByBit(significand32, 13);
        needsRounding := BitAnd(Shr(significand32, 23 - 10 - 1), 1) != 0;
      }
    }
  }

  lemma LeadingOne(significand: nat)
    requires significand < 0x80_0000
    ensures BitOr(significand, 0x80_0000) == 0x80_0000 + significand
  {
    FloatPowers();
    ShlIsProduct(1, 23);
    OrIsSum(1, significand, 23);
    OrCommutes(significand, 0x80_0000);
  }

  lemma {:induction false} OrCommutes(v: nat, w: nat)
    ensures BitOr(v, w) == BitOr(w, v)
    decreases v + w
  {
    if v > 0 || w > 0 {
      OrCommutes(v / 2, w / 2);
    }
  }

  lemma SubnormalFits(n: nat, k: nat)
    requires n < 0x100_0000 && k >= 14
    ensures Shr(n, k) < 0x400
  {
    FloatPowers();
    Pow2Monotone(24, 10 + k);
    ShrBound(n, k, 10);
  }

  lemma ComposedHalf(sign32Shifted: nat, sign: nat, exponent: nat, significand: nat)
    requires sign32Shifted == 0x8000_0000 * sign && sign <= 1 && exponent < 0x20 && significand < 0x400
    ensures BitOr(BitOr(Shr(sign32Shifted, 16), Shl(exponent, 10)), significand)
            == 0x8000 * sign + 0x400 * exponent + significand < 0x1_0000
  {
    hide BitOr, Shl, Shr, Pow2;
    FloatPowers();
    ShrIsQuotient(sign32Shifted, 16);
    ShlIsProduct(sign, 15);
    Compose(sign, exponent, significand, 5, 10);
  }

  // ----- narrowing inverts widening -----

  lemma WordParts(p: Parts)
    requires p.sign <= 1 && p.exponent < 0x100 && p.significand < 0x80_0000
    ensures Parts32(Word32(p)) == p && Word32(p) < 0x1_0000_0000
  {
  }

  /** A multiple of the divisor needs no rounding. */
  lemma ExactQuotient(q: nat, d: nat)
    requires d > 0
    ensures Rounded(q * d, d) == q
  {
    assert 2 * (q * d) + d == q * (2 * d) + d;
    ModIsRemainder(2 * (q * d) + d, 2 * d, q, d);
  }

  lemma MagnitudeBack(p: Parts)
    requires p.exponent < 0x20 && p.significand < 0x400
    ensures NarrowedMagnitude(WidenedParts(p).exponent, WidenedParts(p).significand)
            == 0x400 * p.exponent + p.significand
  {
    hide Rounded;
    var m := p.significand;
    if p.exponent == 0 && m != 0 {
      NormalizeRange(m);
      var e := Normalize(113, 0x2000 * m).0;
      assert 14 - (e - BIAS_DIFFERENCE) == 13 + (113 - e);
      FloatPowers();
      Pow2Sum(13, 113 - e);
      Associate(m, Pow2(113 - e));
      ExactQuotient(m, Pow2(13 + (113 - e)));
    } else if 0 < p.exponent < 31 {
      ExactQuotient(m, 0x2000);
    }
  }

  lemma Associate(m: nat, q: nat)
    ensures 0x2000 * m * q == m * (0x2000 * q)
  {
  }

  lemma PartsOfHalf(h: nat)
    requires h < 0x1_0000
    ensures var p := Parts16(h);
            p.sign <= 1 && p.exponent < 0x20 && p.significand < 0x400
            && h == 0x8000 * p.sign + 0x400 * p.exponent + p.significand
  {
    Fields16(h);
  }

  /** Every half-precision bit pattern survives, infinities and NaN payloads included. */
  lemma HalfRoundTrip(h: nat)
    requires h < 0x1_0000
    ensures Word32(WidenedParts(Parts16(h))) < 0x1_0000_0000
    ensures Narrowed(Parts32(Word32(WidenedParts(Parts16(h))))) == h
  {
    hide NarrowedMagnitude, Parts16, Word32, Parts32, Pow2;
    var p := Parts16(h);
    PartsOfHalf(h);
    WidenedRange(p);
    WordParts(WidenedParts(p));
    MagnitudeBack(p);
    FloatPowers();
    SmallTruncate(h, 16);
  }

  lemma WidenedRange(p: Parts)
    requires p.sign <= 1 && p.exponent < 0x20 && p.significand < 0x400
    ensures var w := WidenedParts(p); w.sign == p.sign && w.exponent < 0x100 && w.significand < 0x80_0000
  {
    if p.exponent == 0 && p.significand != 0 {
      NormalizeRange(p.significand);
    }
  }

  method WidenThenNarrow(float16Value: nat) returns (float32Value: nat, back: nat)
    requires float16Value < 0x1_0000
    ensures back == float16Value
  {
    hide Word32, WidenedParts, Parts16, Parts32, Narrowed;
    HalfRoundTrip(float16Value);
    float32Value := ConvertUInt16ToFloat(float16Value);
    back := ConvertFloatToUInt16(float32Value);
  }

  // ----- rounding -----

  /**
    Magnitude of a half-precision pattern without sign, as a multiple of 2^-48; the pattern of infinity stands for
    2^16, where the next binade would start.
  */
  function HalfValue(g: nat): nat {
    0x100_0000 * (if g < 0x400 then g else (0x400 + g % 0x400) * Pow2(g / 0x400 - 1))
  }

  /** Magnitude of a normal single-precision number with rebiased exponent `e`, as a multiple of 2^-48. */
  function SingleValue(e: int, significand: nat): nat
    requires e >= -10
  {
    (0x80_0000 + significand) * Pow2(e + 10)
  }

  function Distance(a: nat, b: nat): nat {
    if a > b then a - b else b - a
  }

  lemma NextHalf(g: nat)
    ensures HalfValue(g + 1) == HalfValue(g) + 0x100_0000 * (if g < 0x400 then 1 else Pow2(g / 0x400 - 1))
  {
    if g < 0x400 {
      assert Pow2(0) == 1;
      if g == 0x3FF {
        assert HalfValue(0x400) == 0x100_0000 * (0x400 * Pow2(0));
      }
    } else {
      var e, m := g / 0x400, g % 0x400;
      if m == 0x3FF {
        assert (g + 1) / 0x400 == e + 1 && (g + 1) % 0x400 == 0;
        assert Pow2(e) == 2 * Pow2(e - 1);
        assert HalfValue(g + 1) == 0x100_0000 * (0x400 * Pow2(e));
      } else {
        assert (g + 1) / 0x400 == e && (g + 1) % 0x400 == m + 1;
        OneMore(0x400 + m, Pow2(e - 1));
      }
    }
  }

  lemma OneMore(n: nat, p: nat)
    ensures (n + 1) * p == n * p + p
  {
  }

  lemma {:induction false} HalfValueRises(f: nat, g: nat)
    requires f <= g
    ensures HalfValue(f) <= HalfValue(g)
    decreases g - f
  {
    if f < g {
      HalfValueRises(f, g - 1);
      NextHalf(g - 1);
    }
  }

  /** Rounding `q * d + r` lands on the nearer of `q` and `q + 1`, on the larger one when both are equally near. */
  lemma RoundedIs(n: nat, d: nat, q: nat, r: nat)
    requires d > 0 && r < d && n == q * d + r
    ensures Rounded(n, d) == if 2 * r >= d then q + 1 else q
  {
    if 2 * r >= d {
      assert 2 * n + d == (q + 1) * (2 * d) + (2 * r - d) by { Halve(q, d, 0); OneMore(q, 2 * d); }
      ModIsRemainder(2 * n + d, 2 * d, q + 1, 2 * r - d);
    } else {
      assert 2 * n + d == q * (2 * d) + (2 * r + d) by { Halve(q, d, 0); }
      ModIsRemainder(2 * n + d, 2 * d, q, 2 * r + d);
    }
  }

  /** A single-precision number lies between two neighbouring half-precision ones, `r` of `d` units above the lower. */
  predicate Between(e: int, significand: nat, g: nat, r: nat, d: nat, u: nat)
    requires e >= -10
  {
    && r < d && u > 0
    && SingleValue(e, significand) == HalfValue(g) + r * u
    && HalfValue(g + 1) == HalfValue(g) + d * u
  }

  lemma SubnormalNeighbours(e: int, significand: nat) returns (g: nat, r: nat, d: nat, u: nat)
    requires -9 <= e <= 0 && significand < 0x80_0000
    ensures g < 0x400 && Between(e, significand, g, r, d, u)
    ensures Rounded(0x80_0000 + significand, Pow2(14 - e)) == if 2 * r >= d then g + 1 else g
  {
    hide Rounded, Pow2, Shr;
    FloatPowers();
    var f: nat := 0x80_0000 + significand;
    d, u := Pow2(14 - e), Pow2(e + 10);
    g, r := f / d, f % d;
    assert f == g * d + r;
    Pow2Sum(14 - e, e + 10);
    SubnormalFits(f, 14 - e);
    ShrIsQuotient(f, 14 - e);
    RoundedIs(f, d, g, r);
    NextHalf(g);
    Spread(g, d, r, u);
  }

  lemma NormalNeighbours(e: nat, significand: nat) returns (g: nat, r: nat, d: nat, u: nat)
    requires 1 <= e <= 30 && significand < 0x80_0000
    ensures g < HALF_INFINITY && Between(e, significand, g, r, d, u)
    ensures 0x400 * e + Rounded(significand, 0x2000) == if 2 * r >= d then g + 1 else g
  {
    hide Rounded, Pow2;
    d := 0x2000;
    var q: nat := significand / d;
    r := significand % d;
    g := 0x400 * e + q;
    u := 0x800 * Pow2(e - 1);
    assert significand == q * d + r && q < 0x400;
    RoundedIs(significand, d, q, r);
    assert g / 0x400 == e && g % 0x400 == q;
    NextHalf(g);
    FloatPowers();
    Pow2Sum(1, 10);
    TwoToOne();
    Pow2Sum(11, e - 1);
    Spread(0x400 + q, d, r, u);
    Units(0x400 + q, Pow2(e - 1));
  }

  lemma TwoToOne()
    ensures Pow2(1) == 2
  {
  }

  lemma Neighbours(e: int, significand: nat) returns (g: nat, r: nat, d: nat, u: nat)
    requires -9 <= e <= 30 && significand < 0x80_0000
    ensures g < HALF_INFINITY && Between(e, significand, g, r, d, u)
    ensures NarrowedMagnitude(BIAS_DIFFERENCE + e, significand) == if 2 * r >= d then g + 1 else g
  {
    hide Rounded, Pow2, Between;
    if e <= 0 {
      g, r, d, u := SubnormalNeighbours(e, significand);
    } else {
      g, r, d, u := NormalNeighbours(e, significand);
    }
  }

  lemma Spread(q: nat, d: nat, r: nat, u: nat)
    ensures (q * d + r) * u == q * (d * u) + r * u
  {
  }

  lemma Units(n: nat, p: nat)
    ensures n * (0x2000 * (0x800 * p)) == 0x100_0000 * (n * p) && 0x2000 * (0x800 * p) == 0x100_0000 * p
  {
  }

  /**
    Between exponents -9 and 30 the result is the nearest half-precision number and, of two equally near ones, the one
    with the larger magnitude; the sign is kept.
  */
  lemma NearestTiesAway(p: Parts, other: nat)
    requires p.sign <= 1 && p.significand < 0x80_0000 && 103 <= p.exponent <= 142 && other <= HALF_INFINITY
    ensures var e, h := p.exponent - BIAS_DIFFERENCE, Narrowed(p);
            var v, g := SingleValue(e, p.significand), h % 0x8000;
            && h / 0x8000 == p.sign && g <= HALF_INFINITY
            && Distance(HalfValue(g), v) <= Distance(HalfValue(other), v)
            && (Distance(HalfValue(g), v) == Distance(HalfValue(other), v) ==> HalfValue(other) <= HalfValue(g))
  {
    hide NarrowedMagnitude, HalfValue, SingleValue, Pow2;
    var e := p.exponent - BIAS_DIFFERENCE;
    var g, r, d, u := Neighbours(e, p.significand);
    FloatPowers();
    var m := NarrowedMagnitude(p.exponent, p.significand);
    SmallTruncate(0x8000 * p.sign + m, 16);
    if other <= g {
      HalfValueRises(other, g);
    } else {
      HalfValueRises(g + 1, other);
    }
    Halfway(HalfValue(g), r, d, u);
  }

  /** Which end of an interval is nearer. */
  lemma Halfway(a: nat, r: nat, d: nat, u: nat)
    requires r < d && u > 0
    ensures 2 * r >= d ==> Distance(a + d * u, a + r * u) <= Distance(a, a + r * u)
    ensures 2 * r < d ==> Distance(a, a + r * u) < Distance(a + d * u, a + r * u)
    ensures a + r * u < a + d * u
  {
    assert d * u - r * u == (d - r) * u;
    if 2 * r >= d {
      Scale(d - r, r, u);
    } else {
      Scale(r + 1, d - r, u);
      OneMore(r, u);
    }
    Scale(r + 1, d, u);
    OneMore(r, u);
  }

  lemma Scale(x: nat, y: nat, u: nat)
    requires x <= y
    ensures x * u <= y * u
  {
  }

  /** A widened finite number has the same value and sign. */
  lemma WideningIsExact(p: Parts)
    requires p.exponent < 31 && p.significand < 0x400
    ensures var wide, g := WidenedParts(p), 0x400 * p.exponent + p.significand;
            && wide.sign == p.sign
            && if g == 0 then wide.exponent == 0 && wide.significand == 0
               else
                 && 103 <= wide.exponent <= 142
                 && SingleValue(wide.exponent - BIAS_DIFFERENCE, wide.significand) == HalfValue(g)
  {
    hide Pow2, Normalize;
    FloatPowers();
    var e, m := p.exponent, p.significand;
    if e > 0 {
      ModIsRemainder(0x400 * e + m, 0x400, e, m);
      Pow2Sum(11, e - 1);
      TwoToEleven();
      NormalWidened(m, Pow2(e - 1), Pow2(e + 10));
    } else if m > 0 {
      NormalizeRange(m);
      var (e', f) := Normalize(113, 0x2000 * m);
      Pow2Sum(113 - e', e' - 102);
      TwoToEleven();
      SubnormalWidened(m, Pow2(113 - e'), Pow2(e' - 102));
    }
  }

  lemma TwoToEleven()
    ensures Pow2(11) == 2048
  {
  }

  lemma NormalWidened(m: nat, a: nat, b: nat)
    requires b == 2048 * a
    ensures (0x80_0000 + 0x2000 * m) * b == 0x100_0000 * ((0x400 + m) * a)
  {
    assert (0x80_0000 + 0x2000 * m) * b == 0x2000 * ((0x400 + m) * b);
    assert (0x400 + m) * (2048 * a) == 2048 * ((0x400 + m) * a);
  }

  lemma SubnormalWidened(m: nat, a: nat, b: nat)
    requires a * b == 2048
    ensures (0x2000 * m * a) * b == 0x100_0000 * m
  {
    assert (0x2000 * m * a) * b == 0x2000 * m * (a * b);
  }

  /** An infinity stays one, a NaN stays one with its payload. */
  lemma WideningKeepsSpecial(p: Parts)
    requires p.exponent == 31 && p.significand < 0x400
    ensures WidenedParts(p) == Parts(p.sign, 255, p.significand * 8192)
  {
  }

  /** Smaller magnitudes become zero. */
  lemma SmallBecomesZero(p: Parts)
    requires p.sign <= 1 && p.exponent <= 102
    ensures Narrowed(p) == 0x8000 * p.sign
  {
    FloatPowers();
    SmallTruncate(0x8000 * p.sign, 16);
  }

  /** Magnitude of a single-precision number below 2^-24, as a multiple of a unit that depends on its exponent. */
  function TinyValue(p: Parts): nat {
    if p.exponent == 0 then p.significand else 0x80_0000 + p.significand
  }

  /** How many of these units make up 2^-48. */
  function TinyUnits(p: Parts): nat
    requires p.exponent <= 102
  {
    Pow2(102 - (if p.exponent == 0 then 1 else p.exponent))
  }

  /** No half-precision number is nearer than zero. */
  predicate ZeroIsNearest(p: Parts)
    requires p.exponent <= 102
  {
    forall g :: 0 <= g <= HALF_INFINITY ==> TinyValue(p) <= Distance(TinyUnits(p) * HalfValue(g), TinyValue(p))
  }

  /**
    The step to zero comes one exponent early: with rebiased exponent -10 the smallest half-precision number would be
    nearer than the zero that results, unless the number lies exactly between them.
  */
  lemma ZeroIsNearestIff(p: Parts)
    requires p.sign <= 1 && p.exponent <= 102 && p.significand < 0x80_0000
    ensures Narrowed(p) == 0x8000 * p.sign
    ensures ZeroIsNearest(p) <==> p.exponent < 102 || p.significand == 0
  {
    hide Pow2, Narrowed, HalfValue;
    SmallBecomesZero(p);
    var v, u := TinyValue(p), TinyUnits(p);
    FirstHalves();
    TinyIsBelowHalf(p);
    assert v > Distance(u * HalfValue(1), v) ==> !ZeroIsNearest(p);
    if p.exponent < 102 || p.significand == 0 {
      forall g | 0 <= g <= HALF_INFINITY ensures v <= Distance(u * HalfValue(g), v) {
        if g > 0 {
          HalfValueRises(1, g);
          Scale(HalfValue(1), HalfValue(g), u);
        }
      }
    }
  }

  lemma FirstHalves()
    ensures HalfValue(0) == 0 && HalfValue(1) == 0x100_0000
  {
  }

  lemma TinyIsBelowHalf(p: Parts)
    requires p.exponent <= 102 && p.significand < 0x80_0000
    ensures 2 * TinyValue(p) <= TinyUnits(p) * 0x100_0000 <==> p.exponent < 102 || p.significand == 0
    ensures TinyUnits(p) * 0x100_0000 > TinyValue(p)
  {
    assert Pow2(0) == 1 && Pow2(1) == 2;
    if p.exponent < 102 {
      Pow2Monotone(1, 102 - (if p.exponent == 0 then 1 else p.exponent));
    }
  }

  /** A pattern that becomes zero although the smallest half-precision number is nearer. */
  lemma SmallNumberLost()
    ensures Parts32(0x3300_0001) == Parts(0, 102, 1) && Narrowed(Parts32(0x3300_0001)) == 0
    ensures var v := SingleValue(-10, 1);
            Distance(HalfValue(1), v) < Distance(HalfValue(0), v)
  {
    assert Parts32(0x3300_0001) == Parts(0, 102, 1);
    SmallBecomesZero(Parts(0, 102, 1));
    assert Pow2(0) == 1;
  }

  /**
    Larger exponents do not saturate: the result is an infinity of the same sign exactly when the significand bits that
    are kept, or carried into, are zero; otherwise it is a NaN or, after a carry out of all bits, a zero.
  */
  lemma LargeIsInfinityIff(p: Parts)
    requires p.sign <= 1 && p.significand < 0x80_0000 && 143 <= p.exponent <= 254
    ensures Narrowed(p) == 0x8000 * p.sign + HALF_INFINITY
            <==> p.significand < (if p.exponent == 143 then 0x1000 else 0x2000)
  {
    hide Truncate, Pow2;
    FloatPowers();
    var e, m := p.exponent - BIAS_DIFFERENCE, p.significand;
    var q, r := m / 0x2000, m % 0x2000;
    assert m == q * 0x2000 + r;
    RoundedIs(m, 0x2000, q, r);
    var up := if e == 31 && 2 * r >= 0x2000 then 1 else 0;
    assert NarrowedMagnitude(p.exponent, m) == HALF_INFINITY + q + up;
    Wrapped16(0x8000 * p.sign + HALF_INFINITY + q + up);
  }

  lemma Wrapped16(v: nat)
    requires v < 0x2_0000
    ensures Truncate(v, 16) == if v < 0x1_0000 then v else v - 0x1_0000
  {
    FloatPowers();
    ModIsRemainder(v, Pow2(16), if v < 0x1_0000 then 0 else 1, if v < 0x1_0000 then v else v - 0x1_0000);
  }

  /** The number 98304 becomes a NaN, and the largest number below 131072 becomes minus zero. */
  lemma LargeNumbersLost()
    ensures Narrowed(Parts32(0x47C0_0000)) == 0x7E00
    ensures Narrowed(Parts32(0x47FF_FFFF)) == 0x8000
  {
    hide Truncate, Pow2;
    Wrapped16(0x7E00);
    Wrapped16(0x8000);
    assert Parts32(0x47C0_0000) == Parts(0, 143, 0x40_0000);
    assert Parts32(0x47FF_FFFF) == Parts(0, 143, 0x7F_FFFF);
  }
}
