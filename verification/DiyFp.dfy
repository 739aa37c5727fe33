/**
 * Binary64 numbers as pairs f * 2^e of a 64-bit significand and an exponent (struct DiyFp of common/string.hpp):
 * decoding, rounded multiplication, normalisation and the boundaries halfway to the neighbouring doubles.
 * 64-bit words are integers below 2^64; every intermediate word is stored in a U64, so nothing overflows.
 */
module DiyFps {
  import opened Arith

  const WORD: int := 0x1_0000_0000_0000_0000
  const HALF: int := 0x1_0000_0000
  const HIDDEN: int := 0x10_0000_0000_0000

  /** The pattern of positive infinity: the positive finite doubles are the patterns strictly between 0 and it. */
  const INFINITY: int := 0x7ff0_0000_0000_0000

  type U64 = x: int | 0 <= x < WORD

  datatype DiyFp = DiyFp(f: U64, e: int)

  /** The number a pair stands for. */
  ghost function Real(x: DiyFp): real {
    x.f as real * Two(x.e)
  }

  /** The conversion from the bits of a double. */
  function FromBits(u: U64): (r: DiyFp)
    ensures r.f < 2 * HIDDEN
    ensures 0 < u <= INFINITY ==> 0 < r.f && -1074 <= r.e <= 972
    ensures 0 < u < INFINITY ==> r.e <= 971
  {
    var biased := u / HIDDEN % 2048;
    var significand := u % HIDDEN;
    if biased != 0 then DiyFp(significand + HIDDEN, biased - 1075) else DiyFp(significand, -1074)
  }

  /** The value of a non-negative double, section 3.4 of IEEE 754-2008. */
  ghost function Value(u: U64): real {
    Real(FromBits(u))
  }

  // ---------- multiplication ----------

  /** The full 128-bit product of two words from their halves. */
  lemma HalvesProduct(a: int, b: int, c: int, d: int)
    ensures (a * HALF + b) * (c * HALF + d) == a * c * WORD + (a * d + b * c) * HALF + b * d
  {}

  lemma HalfProduct(a: int, b: int)
    requires 0 <= a < HALF && 0 <= b < HALF
    ensures 0 <= a * b <= (HALF - 1) * (HALF - 1)
  {
    MulMonotoneNat(a, b, HALF - 1, HALF - 1);
  }

  lemma RoundedSum(ac: int, ad: int, bc: int, bd: int)
    requires 0 <= ac && 0 <= ad && 0 <= bc && 0 <= bd
    ensures var tmp := bd / HALF + ad % HALF + bc % HALF + 0x8000_0000;
      ac + ad / HALF + bc / HALF + tmp / HALF
      == (ac * WORD + (ad + bc) * HALF + bd + WORD / 2) / WORD
  {
    var tmp := bd / HALF + ad % HALF + bc % HALF + 0x8000_0000;
    var q := ac + ad / HALF + bc / HALF + tmp / HALF;
    var rest := tmp % HALF * HALF + bd % HALF;
    assert ac * WORD + (ad + bc) * HALF + bd + WORD / 2 == q * WORD + rest;
  }

  /**
   * operator*: the product of the significands divided by 2^64 and rounded to nearest, ties up, from four
   * 32-bit partial products.
   */
  function Multiply(x: DiyFp, y: DiyFp): (r: DiyFp)
    ensures r.f == (x.f * y.f + WORD / 2) / WORD
    ensures r.e == x.e + y.e + 64
  {
    var a: U64, b: U64 := x.f / HALF, x.f % HALF;
    var c: U64, d: U64 := y.f / HALF, y.f % HALF;
    HalfProduct(a, c); HalfProduct(b, c); HalfProduct(a, d); HalfProduct(b, d);
    var ac: U64 := a * c;
    var bc: U64 := b * c;
    var ad: U64 := a * d;
    var bd: U64 := b * d;
    var tmp: U64 := bd / HALF + ad % HALF + bc % HALF;
    var tmp': U64 := tmp + 0x8000_0000;
    HalvesProduct(a, b, c, d);
    RoundedSum(ac, ad, bc, bd);
    DiyFp(ac + ad / HALF + bc / HALF + tmp' / HALF, x.e + y.e + 64)
  }

  // ---------- normalisation ----------

  /** Shifting left by s and lowering the exponent by s keeps the number. */
  lemma ShiftKeepsReal(x: DiyFp, y: DiyFp)
    requires y.e <= x.e && y.f == x.f * Pow(2, x.e - y.e)
    ensures Real(x) == Real(y)
  {
    hide Two;
    TwoOfNat(x.e - y.e);
    TwoSum(x.e - y.e, y.e);
    MulAssoc(x.f as real, Two(x.e - y.e), Two(y.e));
    assert y.f as real == x.f as real * Pow(2, x.e - y.e) as real;
  }

  /** Normalize: a left shift by the number of leading zeros, which __builtin_clzll defines for f != 0 only. */
  function Normalize(x: DiyFp): (r: DiyFp)
    requires x.f != 0
    ensures WORD / 2 <= r.f && r.e <= x.e
    ensures r.f == x.f * Pow(2, x.e - r.e)
    decreases WORD - x.f
  {
    if x.f >= WORD / 2 then x
    else
      var r := Normalize(DiyFp(2 * x.f, x.e - 1));
      MulAssocNat(x.f, 2, Pow(2, x.e - 1 - r.e));
      r
  }

  /** NormalizeBoundary: the loop lifts bit 53, then ten more positions fill the word. */
  method NormalizeBoundary(x: DiyFp) returns (res: DiyFp)
    requires 0 < x.f < 4 * HIDDEN
    ensures WORD / 2 <= res.f && res.e <= x.e - 10
    ensures res.f == x.f * Pow(2, x.e - res.e)
  {
    res := x;
    while res.f < 2 * HIDDEN
      invariant 0 < res.f < 4 * HIDDEN && res.e <= x.e
      invariant res.f == x.f * Pow(2, x.e - res.e)
      decreases 2 * HIDDEN - res.f
    {
      MulAssocNat(x.f, 2, Pow(2, x.e - res.e));
      res := DiyFp(res.f * 2, res.e - 1);
    }
    PowAdd(2, 10, x.e - res.e);
    MulAssocNat(x.f, Pow(2, x.e - res.e), 1024);
    res := DiyFp(res.f * 1024, res.e - 10);
  }

  lemma HalfUnits(f: nat, g: nat)
    requires f > 0
    ensures (2 * f + 1) * (2 * g) == (4 * f + 2) * g
    ensures 0 <= (2 * f - 1) * (2 * g) == (4 * f - 2) * g <= (4 * f + 2) * g
    ensures 0 <= (4 * f - 1) * g <= (4 * f + 2) * g
  {
    MulAssocNat(2 * f + 1, 2, g);
    MulAssocNat(2 * f - 1, 2, g);
    MulMonotoneNat(4 * f - 1, g, 4 * f + 2, g);
    MulMonotoneNat(4 * f - 2, g, 4 * f + 2, g);
  }

  /** NormalizedBoundaries: the points halfway to the two neighbours, on the exponent of the upper one. */
  method NormalizedBoundaries(v: DiyFp) returns (minus: DiyFp, plus: DiyFp)
    requires 0 < v.f < 2 * HIDDEN
    ensures minus.e == plus.e <= v.e - 11 && WORD / 2 <= plus.f
    ensures plus.f == (4 * v.f + 2) * Pow(2, v.e - 2 - plus.e)
    ensures minus.f == (4 * v.f - (if v.f == HIDDEN then 1 else 2)) * Pow(2, v.e - 2 - plus.e)
  {
    plus := NormalizeBoundary(DiyFp(v.f * 2 + 1, v.e - 1));
    var mi := if v.f == HIDDEN then DiyFp(v.f * 4 - 1, v.e - 2) else DiyFp(v.f * 2 - 1, v.e - 1);
    ghost var g := Pow(2, v.e - 2 - plus.e);
    assert Pow(2, v.e - 1 - plus.e) == 2 * g;
    HalfUnits(v.f, g);
    hide Pow;
    minus := DiyFp(mi.f * Pow(2, mi.e - plus.e), plus.e);
  }

  lemma SmallPowers()
    ensures Pow(2, 1) == 2 && Pow(2, 4) == 16 && Pow(2, 7) == 128 && Pow(2, 8) == 256
  {}

  lemma TopBit()
    ensures Pow(2, 63) == WORD / 2
  {
    hide Pow;
    SmallPowers();
    PowAdd(2, 8, 8);
    PowAdd(2, 8, 7);
    PowAdd(2, 16, 16);
    PowAdd(2, 16, 15);
    PowAdd(2, 32, 31);
  }

  /** An odd number that fills the word still fills it without its last bit. */
  lemma FillsWithoutLastBit(f: nat, t: nat)
    requires 0 < f && WORD / 2 <= (2 * f + 1) * Pow(2, t) < WORD
    ensures WORD / 2 <= 2 * f * Pow(2, t) < WORD
  {
    TopBit();
    hide Pow;
    SmallPowers();
    var g := Pow(2, t);
    MulMonotoneNat(3, g, 2 * f + 1, g);
    if t >= 63 {
      PowMonotone(2, 63, t);
    }
    assert t < 63;
    var q := Pow(2, 62 - t);
    PowAdd(2, 1, 62 - t);
    PowAdd(2, t, 63 - t);
    WithoutLastBit(f, g, q);
  }

  lemma WithoutLastBit(f: nat, g: nat, q: nat)
    requires g > 0 && g * (2 * q) <= (2 * f + 1) * g
    ensures g * (2 * q) <= 2 * f * g <= (2 * f + 1) * g
  {
    FactorAtMost(2 * q, 2 * f + 1, g);
    MulMonotoneNat(2 * q, g, 2 * f, g);
    MulMonotoneNat(2 * f, g, 2 * f + 1, g);
  }

  lemma FactorAtMost(x: nat, y: nat, g: nat)
    requires g > 0 && g * x <= y * g
    ensures x <= y
  {
    assert (y - x) * g >= 0;
  }

  lemma ShiftGrows(f: nat, s: nat, t: nat)
    requires s < t && WORD / 2 <= f * Pow(2, s)
    ensures WORD <= f * Pow(2, t)
  {
    PowMonotone(2, s + 1, t);
    MulMonotoneNat(f, 2 * Pow(2, s), f, Pow(2, t));
  }

  /** Only one shift fills the word. */
  lemma ShiftUnique(f: nat, s: nat, t: nat)
    requires WORD / 2 <= f * Pow(2, s) < WORD && WORD / 2 <= f * Pow(2, t) < WORD
    ensures s == t
  {
    if s < t {
      ShiftGrows(f, s, t);
    } else if t < s {
      ShiftGrows(f, t, s);
    }
  }

  /** The value, normalised, has the exponent of the boundaries. */
  lemma NormalizedTogether(v: DiyFp, plus: DiyFp)
    requires 0 < v.f < 2 * HIDDEN
    requires plus.e <= v.e - 11 && WORD / 2 <= plus.f
    requires plus.f == (4 * v.f + 2) * Pow(2, v.e - 2 - plus.e)
    ensures Normalize(v).e == plus.e
    ensures Normalize(v).f == 4 * v.f * Pow(2, v.e - 2 - plus.e)
  {
    hide Normalize;
    var t := v.e - 1 - plus.e;
    var g := Pow(2, t - 1);
    assert Pow(2, t) == 2 * g && Pow(2, t + 1) == 4 * g;
    assert (2 * v.f + 1) * (2 * g) == (4 * v.f + 2) * g;
    FillsWithoutLastBit(v.f, t);
    assert 2 * v.f * (2 * g) == v.f * (4 * g) == 4 * v.f * g;
    ShiftUnique(v.f, t + 1, v.e - Normalize(v).e);
  }

  // ---------- neighbours ----------

  lemma NextPattern(u: U64)
    requires u < INFINITY
    ensures var x, y := FromBits(u), FromBits(u + 1);
      (y.f == x.f + 1 && y.e == x.e) || (2 * y.f == x.f + 1 && y.e == x.e + 1 && y.f == HIDDEN && y.e > -1074)
  {
    var b, f := u / HIDDEN, u % HIDDEN;
    NextParts(u);
    assert b < 2047 && b % 2048 == b && (b + 1) % 2048 == b + 1;
  }

  lemma NextParts(u: nat)
    ensures var b, f := u / HIDDEN, u % HIDDEN;
      if f + 1 < HIDDEN then (u + 1) / HIDDEN == b && (u + 1) % HIDDEN == f + 1
      else (u + 1) / HIDDEN == b + 1 && (u + 1) % HIDDEN == 0
  {}

  /** One unit separates a finite double from the next pattern. */
  lemma Successor(u: U64)
    requires u < INFINITY
    ensures Value(u + 1) - Value(u) == Two(FromBits(u).e)
  {
    hide Two;
    hide FromBits;
    var x, y := FromBits(u), FromBits(u + 1);
    NextPattern(u);
    TwoStep(x.e);
    var t := Two(x.e);
    if y.e == x.e {
      assert Real(y) == (x.f as real + 1.0) * t;
    } else {
      assert Real(y) == y.f as real * (2.0 * t);
    }
  }

  /** The rounding interval of a finite positive double, section 4.3.1 of IEEE 754-2008: nearer to it than to its neighbours. */
  ghost predicate RoundsTo(x: real, u: U64)
    requires 0 < u < INFINITY
  {
    Value(u - 1) + Value(u) < 2.0 * x < Value(u) + Value(u + 1)
  }

  lemma QuarterUnits(v: DiyFp, k: int)
    ensures Two(v.e) == 4.0 * Two(v.e - 2) && Two(v.e - 1) == 2.0 * Two(v.e - 2)
    ensures (4 * v.f + k) as real * Two(v.e - 2) == Real(v) + k as real * Two(v.e - 2)
  {
    hide Two;
    TwoStep(v.e - 2);
    TwoStep(v.e - 1);
  }

  /** The bounds that NormalizedBoundaries computes enclose no more than the rounding interval. */
  lemma BoundariesInside(u: U64, x: real)
    requires 0 < u < INFINITY
    requires var v := FromBits(u);
      (4 * v.f - (if v.f == HIDDEN then 1 else 2)) as real * Two(v.e - 2) < x < (4 * v.f + 2) as real * Two(v.e - 2)
    ensures RoundsTo(x, u)
  {
    hide Two;
    hide FromBits;
    hide Real;
    var v := FromBits(u);
    NextPattern(u - 1);
    Successor(u - 1);
    Successor(u);
    QuarterUnits(v, 2);
    QuarterUnits(v, if v.f == HIDDEN then -1 else -2);
  }

  lemma {:induction false} ValuesIncrease(u: U64, w: U64)
    requires u < w <= INFINITY
    ensures Value(u) < Value(w)
    decreases w - u
  {
    hide Value;
    if u + 1 < w {
      ValuesIncrease(u, w - 1);
    }
    Successor(w - 1);
  }

  ghost function Distance(x: real, y: real): real {
    if x < y then y - x else x - y
  }

  /** A number in the rounding interval of a double is strictly closer to it than to every other one. */
  lemma NearestDouble(u: U64, x: real, w: U64)
    requires 0 < u < INFINITY && RoundsTo(x, u)
    requires w <= INFINITY && w != u
    ensures Distance(x, Value(u)) < Distance(x, Value(w))
  {
    hide Value;
    if w < u {
      if w < u - 1 { ValuesIncrease(w, u - 1); }
      ValuesIncrease(u - 1, u);
    } else {
      if u + 1 < w { ValuesIncrease(u + 1, w); }
      ValuesIncrease(u, u + 1);
    }
  }
}
