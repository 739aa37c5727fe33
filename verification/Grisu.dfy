/**
 * Grisu2 (common/string.hpp): the digits printed for a positive finite double denote a number that is strictly
 * closer to that double than to any other.  The argument: the boundaries are exact, each rounded product is less
 * than one unit from the exact one, the interval is shrunk by one unit on both sides, and digit generation stays
 * inside what is left.
 */
module Grisu {
  import opened Arith
  import opened Decimal
  import opened DiyFps
  import opened CachedPowers
  import opened DigitGeneration

  // ---------- the error of a product ----------

  /** A rounded product with a cached power is less than one unit from the product with the exact power. */
  lemma ProductError(p: U64, f: nat, x: real, r: int)
    requires -0.5 <= f as real - x <= 0.5 && r == (p * f + WORD / 2) / WORD
    ensures (r - 1) as real * UNIT < p as real * x < (r + 1) as real * UNIT
  {
    var n := p * f;
    assert r * WORD <= n + WORD / 2 < (r + 1) * WORD;
    var e := p as real * (f as real - x);
    assert -0.5 * p as real <= e <= 0.5 * p as real by {
      MulAtMost(f as real - x, 0.5, p as real);
      MulAtMost(-0.5, f as real - x, p as real);
    }
    assert n as real == p as real * f as real;
    Spread(p as real, f as real, x);
    assert p as real * x == n as real - e;
  }

  lemma Spread(p: real, f: real, x: real)
    ensures p * (f - x) == p * f - p * x
  {}

  /** The exact product, in units of the product's last bit. */
  lemma ExactProduct(p: U64, pe: int, i: nat)
    requires i < ENTRIES
    ensures p as real * Two(pe) * Ten(DecimalExponent(i)) * UNIT
      == p as real * Exact(i) * Two(pe + Exponent(i) + 64)
  {
    hide Two;
    hide Ten;
    hide Exponent;
    hide DecimalExponent;
    var e, k := Exponent(i), DecimalExponent(i);
    WordIsPower();
    TwoSum(-e, pe + e + 64);
    TwoSum(pe, 64);
    assert -e + (pe + e + 64) == pe + 64;
    Rearrange(p as real, Two(pe), Ten(k), UNIT, Two(-e), Two(pe + e + 64));
  }

  lemma WordIsPower()
    ensures Two(64) == UNIT
  {
    hide Two;
    hide Pow;
    TopBit();
    TwoOfNat(63);
    TwoStep(63);
  }

  lemma Rearrange(p: real, a: real, t: real, w: real, b: real, c: real)
    requires b * c == a * w
    ensures p * a * t * w == p * (t * b) * c
  {
    assert p * a * t * w == p * t * (a * w);
    assert p * (t * b) * c == p * t * (b * c);
  }

  /** The exact scaled product lies within one unit of the rounded one. */
  lemma ScaledWithin(x: DiyFp, i: nat)
    requires i < ENTRIES
    ensures var r := Multiply(x, DiyFp(Significand(i), Exponent(i)));
      (r.f - 1) as real * Two(r.e) < Real(x) * Ten(DecimalExponent(i)) < (r.f + 1) as real * Two(r.e)
  {
    hide Two, Ten, Exponent, Significand, Exact, DecimalExponent, Multiply;
    var r := Multiply(x, DiyFp(Significand(i), Exponent(i)));
    Accurate(i);
    ProductError(x.f, Significand(i), Exact(i), r.f);
    ExactProduct(x.f, x.e, i);
    UnitsApart(r.f, x.f as real * Exact(i), Two(r.e), Real(x) * Ten(DecimalExponent(i)));
  }

  lemma UnitsApart(r: int, p: real, z: real, y: real)
    requires z > 0.0 && (r - 1) as real * UNIT < p < (r + 1) as real * UNIT && y * UNIT == p * z
    ensures (r - 1) as real * z < y < (r + 1) as real * z
  {
    BelowInUnits((r - 1) as real, p, z, y, UNIT);
    AboveInUnits((r + 1) as real, p, z, y, UNIT);
  }

  lemma BelowInUnits(a: real, p: real, z: real, y: real, u: real)
    requires u > 0.0 && z > 0.0 && a * u < p && y * u == p * z
    ensures a * z < y
  {
    MulLess(a * u, p, z);
    Exchange(a, u, z);
    MulLessInverse(a * z, y, u);
  }

  lemma AboveInUnits(a: real, p: real, z: real, y: real, u: real)
    requires u > 0.0 && z > 0.0 && p < a * u && y * u == p * z
    ensures y < a * z
  {
    MulLess(p, a * u, z);
    Exchange(a, u, z);
    MulLessInverse(y, a * z, u);
  }

  lemma Exchange(a: real, u: real, z: real)
    ensures a * u * z == a * z * u
  {}

  // ---------- the whole numbers ----------

  /** Significands 512 apart stay 256 apart as products. */
  lemma ProductsApart(a: nat, b: nat, f: nat)
    requires a + 512 <= b && f >= WORD / 2
    ensures (a * f + WORD / 2) / WORD + 256 <= (b * f + WORD / 2) / WORD
  {
    MulMonotoneNat(512, WORD / 2, b - a, f);
    assert b * f == a * f + (b - a) * f;
  }

  lemma ProductLarge(a: nat, f: nat)
    requires a >= WORD / 2 && f >= WORD / 2
    ensures (a * f + WORD / 2) / WORD >= WORD / 4
  {
    MulMonotoneNat(WORD / 2, WORD / 2, a, f);
  }

  lemma SpreadOfBoundaries(v: DiyFp, minus: DiyFp, plus: DiyFp)
    requires 0 < v.f < 2 * HIDDEN && minus.e == plus.e <= v.e - 11 && WORD / 2 <= plus.f
    requires plus.f == (4 * v.f + 2) * Pow(2, v.e - 2 - plus.e)
    requires minus.f == (4 * v.f - (if v.f == HIDDEN then 1 else 2)) * Pow(2, v.e - 2 - plus.e)
    ensures Normalize(v).e == plus.e
    ensures minus.f + 512 <= Normalize(v).f && Normalize(v).f + 512 <= plus.f
  {
    hide Normalize;
    NormalizedTogether(v, plus);
    var g := Pow(2, v.e - 2 - plus.e);
    AtLeast512(v.e - 2 - plus.e);
    hide Pow;
    assert (4 * v.f + 2) * g == 4 * v.f * g + 2 * g;
    assert (4 * v.f - 1) * g == 4 * v.f * g - g;
    assert (4 * v.f - 2) * g == 4 * v.f * g - 2 * g;
  }

  lemma AtLeast512(n: nat)
    requires n >= 9
    ensures Pow(2, n) >= 512
  {
    hide Pow;
    SmallPowers();
    PowMonotone(2, 9, n);
    PowAdd(2, 8, 1);
  }

  /** The exponents that doubles bring to GetCachedPower. */
  lemma BoundaryExponent(v: DiyFp, plus: DiyFp)
    requires 0 < v.f && -1074 <= v.e <= 971 && plus.e <= v.e - 11
    requires plus.f == (4 * v.f + 2) * Pow(2, v.e - 2 - plus.e)
    ensures -1137 <= plus.e <= 960
  {
    var n := v.e - 2 - plus.e;
    hide Pow;
    TopBit();
    SmallPowers();
    PowAdd(2, 62, 1);
    MulMonotoneNat(6, Pow(2, n), 4 * v.f + 2, Pow(2, n));
    if n >= 62 {
      PowMonotone(2, 62, n);
    }
  }

  /** Undoing the scaling by the cached power. */
  lemma Unscale(d: nat, kappa: int, k: int, x: real)
    ensures DecimalReal(d, kappa) < x * Ten(k) ==> DecimalReal(d, kappa - k) < x
    ensures x * Ten(k) < DecimalReal(d, kappa) ==> x < DecimalReal(d, kappa - k)
  {
    hide Ten;
    TenSum(kappa - k, k);
    var y, t := DecimalReal(d, kappa - k), Ten(k);
    MulAssoc(d as real, Ten(kappa - k), t);
    assert DecimalReal(d, kappa) == y * t;
    if y * t < x * t { MulLessInverse(y, x, t); }
    if x * t < y * t { MulLessInverse(x, y, t); }
  }

  /** Digits between the shrunk products denote a number between the exact boundaries. */
  lemma InsideBoundaries(minus: DiyFp, plus: DiyFp, i: nat, kappa: int, d: nat)
    requires i < ENTRIES && minus.e == plus.e
    requires var c := DiyFp(Significand(i), Exponent(i));
      var lo, hi := Multiply(minus, c), Multiply(plus, c);
      (lo.f + 1) as real * Two(hi.e) <= DecimalReal(d, kappa) <= (hi.f - 1) as real * Two(hi.e)
    ensures Real(minus) < DecimalReal(d, kappa - DecimalExponent(i)) < Real(plus)
  {
    hide Two, Ten, Exponent, Significand, Multiply, DecimalReal, DecimalExponent, Real;
    ScaledWithin(plus, i);
    ScaledWithin(minus, i);
    Unscale(d, kappa, DecimalExponent(i), Real(plus));
    Unscale(d, kappa, DecimalExponent(i), Real(minus));
  }

  /** Between the boundaries of u means in the rounding interval of u. */
  lemma InsideRounds(u: U64, minus: DiyFp, plus: DiyFp, x: real)
    requires 0 < u < INFINITY && Real(minus) < x < Real(plus)
    requires var v := FromBits(u);
      && minus.e == plus.e <= v.e - 11
      && plus.f == (4 * v.f + 2) * Pow(2, v.e - 2 - plus.e)
      && minus.f == (4 * v.f - (if v.f == HIDDEN then 1 else 2)) * Pow(2, v.e - 2 - plus.e)
    ensures RoundsTo(x, u)
  {
    hide Two;
    hide Pow;
    hide FromBits;
    var v := FromBits(u);
    ShiftKeepsReal(DiyFp(4 * v.f + 2, v.e - 2), plus);
    ShiftKeepsReal(DiyFp(4 * v.f - (if v.f == HIDDEN then 1 else 2), v.e - 2), minus);
    BoundariesInside(u, x);
  }

  /** The preconditions of DigitGen, from the distances of the boundaries. */
  lemma ReadyForDigits(v: DiyFp, minus: DiyFp, plus: DiyFp, i: nat)
    requires 0 < v.f < 2 * HIDDEN && i < ENTRIES
    requires Normalize(v).e == minus.e == plus.e && WORD / 2 <= plus.f
    requires minus.f + 512 <= Normalize(v).f && Normalize(v).f + 512 <= plus.f
    requires -60 <= plus.e + Exponent(i) + 64 <= -32
    ensures var c := DiyFp(Significand(i), Exponent(i));
      var w, lo, hi := Multiply(Normalize(v), c), Multiply(minus, c), Multiply(plus, c);
      && lo.f + 256 <= w.f && w.f + 256 <= hi.f && w.e == hi.e && hi.e == plus.e + Exponent(i) + 64
      && Pow(2, -hi.e) <= hi.f - 1
  {
    hide Pow;
    hide Exponent;
    hide Significand;
    hide Multiply;
    hide Normalize;
    var f, n := Significand(i), Normalize(v).f;
    ProductsApart(minus.f, n, f);
    ProductsApart(n, plus.f, f);
    ProductLarge(plus.f, f);
    OneBounds(-(plus.e + Exponent(i) + 64));
  }

  // ---------- how short and how close the digits are ----------

  /** The points halfway to the neighbours, as NormalizedBoundaries takes them. */
  ghost function Lower(v: DiyFp): real {
    (4 * v.f - (if v.f == HIDDEN then 1 else 2)) as real * Two(v.e - 2)
  }

  ghost function Upper(v: DiyFp): real {
    (4 * v.f + 2) as real * Two(v.e - 2)
  }

  /** What one unit of the products with entry i is worth. */
  ghost function UnitOf(v: DiyFp, i: nat): real
    requires v.f != 0 && i < ENTRIES
  {
    Two(Normalize(v).e + Exponent(i) + 64) * Ten(-DecimalExponent(i))
  }

  /** Between the boundaries, two units away from them: that much a rounded product and the shrinking can cost. */
  ghost predicate WellWithin(x: real, v: DiyFp, i: nat)
    requires v.f != 0 && i < ENTRIES
  {
    Lower(v) + 2.0 * UnitOf(v, i) <= x <= Upper(v) - 2.0 * UnitOf(v, i)
  }

  /** No decimal with a larger exponent than K lies well within the boundaries. */
  ghost predicate ShortestBut(v: DiyFp, i: nat, K: int)
    requires v.f != 0 && i < ENTRIES
  {
    forall c: nat, k: int :: k > K ==> !WellWithin(DecimalReal(c, k), v, i)
  }

  /** No decimal with exponent K well within the boundaries is closer to the value, but for the two units. */
  ghost predicate ClosestBut(x: real, v: DiyFp, i: nat, K: int)
    requires v.f != 0 && i < ENTRIES
  {
    forall m: nat :: WellWithin(DecimalReal(m, K), v, i) ==>
      Distance(x, Real(v)) <= Distance(DecimalReal(m, K), Real(v)) + 2.0 * UnitOf(v, i)
  }

  lemma UnitScaled(v: DiyFp, i: nat)
    requires v.f != 0 && i < ENTRIES
    ensures UnitOf(v, i) * Ten(DecimalExponent(i)) == Two(Normalize(v).e + Exponent(i) + 64)
  {
    hide Two, Ten, Exponent, DecimalExponent, Normalize;
    var d := DecimalExponent(i);
    TenSum(-d, d);
    TenStep(0);
    MulAssoc(Two(Normalize(v).e + Exponent(i) + 64), Ten(-d), Ten(d));
  }

  const MARGIN: real := 1_152_921_504_606_846_976.0

  /** Two units are less than 2^-60 of the value, while the boundaries are about 2^-53 of it apart. */
  ghost predicate UnitSmall(v: DiyFp, i: nat)
    requires v.f != 0 && i < ENTRIES
  {
    2.0 * UnitOf(v, i) * MARGIN < Upper(v)
  }

  lemma UnitIsSmall(v: DiyFp, minus: DiyFp, plus: DiyFp, i: nat)
    requires i < ENTRIES && BoundariesOf(v, minus, plus) && WORD / 2 <= plus.f
    ensures UnitSmall(v, i)
  {
    hide Two, Ten, Exponent, Significand, Multiply, DecimalExponent, Real, Lower, Upper, UnitOf, Normalize;
    var hi := Multiply(plus, DiyFp(Significand(i), Exponent(i)));
    ProductLarge(plus.f, Significand(i));
    ScaledWithin(plus, i);
    UnitScaled(v, i);
    SmallFromProduct(hi.f, Two(hi.e), Ten(DecimalExponent(i)), UnitOf(v, i), Upper(v));
  }

  lemma SmallFromProduct(h: int, z: real, t: real, u: real, x: real)
    requires z > 0.0 && t > 0.0 && h >= WORD / 4 && z == u * t && (h - 1) as real * z < x * t
    ensures 2.0 * u * MARGIN < x
  {
    MulAtMost(2.0 * MARGIN, (h - 1) as real, z);
    assert 2.0 * u * MARGIN * t == 2.0 * MARGIN * z;
    MulLessInverse(2.0 * u * MARGIN, x, t);
  }

  /** lo, hi: the exact boundaries; l, h: their rounded products; t: the scale; z = u * t: the unit. */
  lemma RescaledCovers(lo: real, hi: real, l: int, h: int, z: real, t: real, u: real, x: real)
    requires t > 0.0 && z == u * t && (l - 1) as real * z < lo * t && hi * t < (h + 1) as real * z
    requires lo + 2.0 * u <= x <= hi - 2.0 * u
    ensures (l + 1) as real * z < x * t <= (h - 1) as real * z
  {
    MulAtMost(lo + 2.0 * u, x, t);
    MulAtMost(x, hi - 2.0 * u, t);
    assert (lo + 2.0 * u) * t == lo * t + 2.0 * (u * t);
    assert (hi - 2.0 * u) * t == hi * t - 2.0 * (u * t);
  }

  /** The boundaries in terms of v. */
  ghost predicate BoundariesOf(v: DiyFp, minus: DiyFp, plus: DiyFp) {
    && 0 < v.f < 2 * HIDDEN && Normalize(v).e == minus.e == plus.e
    && Lower(v) == Real(minus) && Upper(v) == Real(plus)
  }

  lemma BoundariesAre(v: DiyFp, minus: DiyFp, plus: DiyFp)
    requires 0 < v.f < 2 * HIDDEN && Normalize(v).e == minus.e == plus.e <= v.e - 11
    requires plus.f == (4 * v.f + 2) * Pow(2, v.e - 2 - plus.e)
    requires minus.f == (4 * v.f - (if v.f == HIDDEN then 1 else 2)) * Pow(2, v.e - 2 - plus.e)
    ensures BoundariesOf(v, minus, plus)
  {
    hide Two, Pow, Normalize;
    var hi, lo := DiyFp(4 * v.f + 2, v.e - 2), DiyFp(4 * v.f - (if v.f == HIDDEN then 1 else 2), v.e - 2);
    assert Upper(v) == Real(hi) && Lower(v) == Real(lo);
    hide Real, Upper, Lower;
    ShiftKeepsReal(hi, plus);
    ShiftKeepsReal(lo, minus);
  }

  /** Well within the boundaries means, scaled, between the shrunk products. */
  lemma WellInside(v: DiyFp, minus: DiyFp, plus: DiyFp, i: nat, x: real)
    requires i < ENTRIES && BoundariesOf(v, minus, plus) && WellWithin(x, v, i)
    ensures var d := DiyFp(Significand(i), Exponent(i));
      var lo, hi := Multiply(minus, d), Multiply(plus, d);
      (lo.f + 1) as real * Two(hi.e) < x * Ten(DecimalExponent(i)) <= (hi.f - 1) as real * Two(hi.e)
  {
    hide Two, Ten, Exponent, Significand, Multiply, DecimalExponent, Real, Lower, Upper, UnitOf, Normalize;
    var d := DiyFp(Significand(i), Exponent(i));
    ScaledWithin(minus, i);
    ScaledWithin(plus, i);
    UnitScaled(v, i);
    var lo, hi := Multiply(minus, d), Multiply(plus, d);
    RescaledCovers(Real(minus), Real(plus), lo.f, hi.f, Two(hi.e), Ten(DecimalExponent(i)), UnitOf(v, i), x);
  }

  lemma ScaledDecimal(c: nat, k: int, e: int)
    ensures DecimalReal(c, k) * Ten(e) == DecimalReal(c, k + e)
  {
    hide Ten;
    TenSum(k, e);
    MulAssoc(c as real, Ten(k), Ten(e));
  }

  /** No decimal with a larger exponent lies well within the boundaries. */
  lemma NothingShorter(v: DiyFp, minus: DiyFp, plus: DiyFp, i: nat, s: seq<char>, kappa: int, c: nat, k: int)
    requires i < ENTRIES && BoundariesOf(v, minus, plus)
    requires var d := DiyFp(Significand(i), Exponent(i));
      var lo, hi := Multiply(minus, d), Multiply(plus, d);
      hi.e <= 0 && 0 <= lo.f + 1 <= hi.f - 1 && Generated(s, kappa, Pow(2, -hi.e), hi.f - 1, hi.f - 1 - (lo.f + 1))
    requires k > kappa - DecimalExponent(i)
    ensures !WellWithin(DecimalReal(c, k), v, i)
  {
    hide Two, Ten, Exponent, Significand, Multiply, DecimalExponent, Generated, Pow, DecimalReal, WellWithin;
    hide Lower, Upper, Real, Normalize;
    var d := DiyFp(Significand(i), Exponent(i));
    var lo, hi, x := Multiply(minus, d), Multiply(plus, d), DecimalReal(c, k);
    if WellWithin(x, v, i) {
      WellInside(v, minus, plus, i, x);
      ScaledDecimal(c, k, DecimalExponent(i));
      GeneratedShortest(s, kappa, hi.e, hi.f - 1, hi.f - 1 - (lo.f + 1), c, k + DecimalExponent(i));
    }
  }

  lemma ShortestInside(v: DiyFp, minus: DiyFp, plus: DiyFp, i: nat, s: seq<char>, kappa: int)
    requires i < ENTRIES && BoundariesOf(v, minus, plus)
    requires var d := DiyFp(Significand(i), Exponent(i));
      var lo, hi := Multiply(minus, d), Multiply(plus, d);
      hi.e <= 0 && 0 <= lo.f + 1 <= hi.f - 1 && Generated(s, kappa, Pow(2, -hi.e), hi.f - 1, hi.f - 1 - (lo.f + 1))
    ensures ShortestBut(v, i, kappa - DecimalExponent(i))
  {
    hide Two, Exponent, Significand, Multiply, DecimalExponent, Generated, Pow, DecimalReal, WellWithin;
    forall c: nat, k: int | k > kappa - DecimalExponent(i) ensures !WellWithin(DecimalReal(c, k), v, i) {
      NothingShorter(v, minus, plus, i, s, kappa, c, k);
    }
  }

  lemma DistanceScaled(x: real, y: real, t: real, xt: real, yt: real)
    requires t > 0.0 && xt == x * t && yt == y * t
    ensures Distance(xt, yt) == Distance(x, y) * t
  {
    ScaledOrder(x, y, t);
  }

  lemma NearestMoved(x: real, x': real, w: real, y: real, z: real)
    requires w - z < y < w + z && Distance(x, w) <= Distance(x', w)
    ensures Distance(x, y) <= Distance(x', y) + 2.0 * z
  {}

  lemma AtMostUnscaled(a: real, b: real, t: real, u: real, z: real)
    requires t > 0.0 && z == u * t && a * t <= b * t + 2.0 * z
    ensures a <= b + 2.0 * u
  {
    assert (b + 2.0 * u) * t == b * t + 2.0 * (u * t);
    ScaledOrder(a, b + 2.0 * u, t);
  }

  /** z: one unit; w: the rounded product of y; what is nearest to w is nearest to y, but for two units. */
  lemma ClosestRescaled(x: real, x': real, y: real, w: real, z: real, t: real, u: real, xt: real, xt': real)
    requires t > 0.0 && z == u * t && w - z < y * t < w + z && xt == x * t && xt' == x' * t
    requires Distance(xt, w) <= Distance(xt', w)
    ensures Distance(x, y) <= Distance(x', y) + 2.0 * u
  {
    hide Distance;
    var yt := y * t;
    NearestMoved(xt, xt', w, yt, z);
    DistanceScaled(x, y, t, xt, yt);
    DistanceScaled(x', y, t, xt', yt);
    AtMostUnscaled(Distance(x, y), Distance(x', y), t, u, z);
  }

  lemma UnitAway(r: DiyFp)
    ensures (r.f - 1) as real * Two(r.e) == Real(r) - Two(r.e) && (r.f + 1) as real * Two(r.e) == Real(r) + Two(r.e)
  {
    hide Two;
  }

  /** No decimal of the same length well within the boundaries is closer, but for the two units. */
  lemma ClosestInside(v: DiyFp, minus: DiyFp, plus: DiyFp, i: nat, c: nat, kappa: int)
    requires i < ENTRIES && BoundariesOf(v, minus, plus)
    requires var d := DiyFp(Significand(i), Exponent(i));
      var w, lo, hi := Multiply(Normalize(v), d), Multiply(minus, d), Multiply(plus, d);
      hi.e <= 0 && 0 <= lo.f + 1 <= hi.f - 1 && Nearest(c, kappa, Pow(2, -hi.e), hi.f - 1, hi.f - 1 - (lo.f + 1), w.f)
    ensures ClosestBut(DecimalReal(c, kappa - DecimalExponent(i)), v, i, kappa - DecimalExponent(i))
  {
    hide Two, Exponent, Significand, Multiply, DecimalExponent, Nearest, Pow, DecimalReal, WellWithin, Distance, UnitOf, Normalize;
    var K := kappa - DecimalExponent(i);
    forall m: nat | WellWithin(DecimalReal(m, K), v, i)
      ensures Distance(DecimalReal(c, K), Real(v)) <= Distance(DecimalReal(m, K), Real(v)) + 2.0 * UnitOf(v, i)
    {
      CloserThan(v, minus, plus, i, c, kappa, m);
    }
  }

  lemma ScaledNearest(v: DiyFp, minus: DiyFp, plus: DiyFp, i: nat, c: nat, kappa: int, m: nat)
    requires i < ENTRIES && BoundariesOf(v, minus, plus) && WellWithin(DecimalReal(m, kappa - DecimalExponent(i)), v, i)
    requires var d := DiyFp(Significand(i), Exponent(i));
      var w, lo, hi := Multiply(Normalize(v), d), Multiply(minus, d), Multiply(plus, d);
      hi.e <= 0 && 0 <= lo.f + 1 <= hi.f - 1 && Nearest(c, kappa, Pow(2, -hi.e), hi.f - 1, hi.f - 1 - (lo.f + 1), w.f)
    ensures var d := DiyFp(Significand(i), Exponent(i));
      var w := Multiply(Normalize(v), d);
      && w.e == Multiply(plus, d).e
      && Distance(DecimalReal(c, kappa), Real(w)) <= Distance(DecimalReal(m, kappa), Real(w))
  {
    hide Two, Ten, Exponent, Significand, Multiply, DecimalExponent, Nearest, Pow, DecimalReal, WellWithin, Distance, UnitOf;
    hide Normalize, Real, Lower, Upper;
    var e, d := DecimalExponent(i), DiyFp(Significand(i), Exponent(i));
    var w, lo, hi := Multiply(Normalize(v), d), Multiply(minus, d), Multiply(plus, d);
    WellInside(v, minus, plus, i, DecimalReal(m, kappa - e));
    ScaledDecimal(m, kappa - e, e);
    assert w == DiyFp(w.f, hi.e);
    NearestReal(c, kappa, hi.e, hi.f - 1, hi.f - 1 - (lo.f + 1), w.f, m);
  }

  lemma CloserThan(v: DiyFp, minus: DiyFp, plus: DiyFp, i: nat, c: nat, kappa: int, m: nat)
    requires i < ENTRIES && BoundariesOf(v, minus, plus) && WellWithin(DecimalReal(m, kappa - DecimalExponent(i)), v, i)
    requires var d := DiyFp(Significand(i), Exponent(i));
      var w, lo, hi := Multiply(Normalize(v), d), Multiply(minus, d), Multiply(plus, d);
      hi.e <= 0 && 0 <= lo.f + 1 <= hi.f - 1 && Nearest(c, kappa, Pow(2, -hi.e), hi.f - 1, hi.f - 1 - (lo.f + 1), w.f)
    ensures var K := kappa - DecimalExponent(i);
      Distance(DecimalReal(c, K), Real(v)) <= Distance(DecimalReal(m, K), Real(v)) + 2.0 * UnitOf(v, i)
  {
    hide Two, Ten, Exponent, Significand, Multiply, DecimalExponent, Nearest, Pow, DecimalReal, WellWithin, Distance, UnitOf;
    hide Normalize, Real, Lower, Upper;
    var e, d := DecimalExponent(i), DiyFp(Significand(i), Exponent(i));
    var K, w, hi := kappa - e, Multiply(Normalize(v), d), Multiply(plus, d);
    ScaledNearest(v, minus, plus, i, c, kappa, m);
    ScaledDecimal(m, K, e);
    ScaledDecimal(c, K, e);
    ValueScaled(v, i);
    hide BoundariesOf;
    ClosestRescaled(DecimalReal(c, K), DecimalReal(m, K), Real(v), Real(w), Two(hi.e), Ten(e), UnitOf(v, i),
                    DecimalReal(c, kappa), DecimalReal(m, kappa));
  }

  /** The product of the normalised value, against the value itself. */
  lemma ValueScaled(v: DiyFp, i: nat)
    requires v.f != 0 && i < ENTRIES
    ensures var r := Multiply(Normalize(v), DiyFp(Significand(i), Exponent(i)));
      && Real(r) - Two(r.e) < Real(v) * Ten(DecimalExponent(i)) < Real(r) + Two(r.e)
      && UnitOf(v, i) * Ten(DecimalExponent(i)) == Two(r.e)
  {
    hide Two, Ten, Exponent, Significand, Multiply, DecimalExponent, UnitOf, Normalize, Real, Pow;
    ShiftKeepsReal(v, Normalize(v));
    ScaledWithin(Normalize(v), i);
    UnitScaled(v, i);
    UnitAway(Multiply(Normalize(v), DiyFp(Significand(i), Exponent(i))));
  }

  // ---------- when the table of powers lasts ----------

  /** The shift from quarter units of v to its normalised boundaries. */
  ghost function QuarterShift(v: DiyFp): (n: int)
    requires v.f != 0
  {
    v.e - 2 - Normalize(v).e
  }

  ghost function ShiftLeft(k: nat, n: nat): nat {
    MulMonotoneNat(0, 0, k, Pow(2, n));
    k * Pow(2, n)
  }

  /** The rounded product of a significand with entry i. */
  ghost function Product(f: nat, i: nat): nat
    requires i < ENTRIES
  {
    MulMonotoneNat(0, 0, f, Significand(i));
    (f * Significand(i) + WORD / 2) / WORD
  }

  /** For this value and this entry Grisu2 reads kPow10 up to index 9 only. */
  ghost predicate WithinTable(v: DiyFp, i: nat)
    requires v.f != 0 && i < ENTRIES
  {
    var n, e := QuarterShift(v), Normalize(v).e + Exponent(i) + 64;
    && n >= 0 && e <= 0
    && (var hi, lo := Product(ShiftLeft(4 * v.f + 2, n), i) - 1,
          Product(ShiftLeft(4 * v.f - (if v.f == HIDDEN then 1 else 2), n), i) + 1;
        0 <= lo <= hi && Pow(2, -e) > 0 && TableLasts(hi, Pow(2, -e), hi - lo))
  }

  /** The interval of WithinTable is the one that Grisu2 forms. */
  lemma WithinTableIs(v: DiyFp, minus: DiyFp, plus: DiyFp, i: nat)
    requires 0 < v.f < 2 * HIDDEN && i < ENTRIES && Normalize(v).e == minus.e == plus.e <= v.e - 11
    requires plus.f == (4 * v.f + 2) * Pow(2, v.e - 2 - plus.e)
    requires minus.f == (4 * v.f - (if v.f == HIDDEN then 1 else 2)) * Pow(2, v.e - 2 - plus.e)
    requires var d := DiyFp(Significand(i), Exponent(i));
      var lo, hi := Multiply(minus, d), Multiply(plus, d);
      hi.e <= 0 && lo.f + 1 <= hi.f - 1 && Pow(2, -hi.e) > 0
    ensures var d := DiyFp(Significand(i), Exponent(i));
      var lo, hi := Multiply(minus, d), Multiply(plus, d);
      WithinTable(v, i) <==> TableLasts(hi.f - 1, Pow(2, -hi.e), hi.f - 1 - (lo.f + 1))
  {
    hide Pow, Exponent, Significand, Multiply, Normalize, TableLasts;
    assert Product(plus.f, i) == Multiply(plus, DiyFp(Significand(i), Exponent(i))).f;
    assert Product(minus.f, i) == Multiply(minus, DiyFp(Significand(i), Exponent(i))).f;
    hide Product;
  }

  /**
   * Grisu2.  estimate is the double arithmetic of GetCachedPower, beyond the memory behind kPow10; neither matters.
   */
  method Grisu2(u: U64, estimate: int -> real, beyond: nat -> U64, buffer: array<char>) returns (length: nat, K: int)
    requires 0 < u < INFINITY && buffer.Length >= 29
    requires forall e :: -1137 <= e <= 960 ==> Rounded(e, estimate(e))
    modifies buffer
    ensures 0 < length <= 29 && -343 <= K < 310
    ensures AllDigits(buffer[..length]) && buffer[0] != '0'
    ensures RoundsTo(DecimalReal(NatOf(buffer[..length]), K), u)
    ensures var v, i := FromBits(u), CachedIndex(estimate(Normalize(FromBits(u)).e));
      && 0 <= i < ENTRIES
      && ShortestBut(v, i, K) && UnitSmall(v, i)
      && (K + DecimalExponent(i) >= -9 <==> WithinTable(v, i))
      && (WithinTable(v, i) ==> ClosestBut(DecimalReal(NatOf(buffer[..length]), K), v, i, K))
  {
    hide ClosestBut;
    hide UnitSmall;
    hide BoundariesOf;
    hide WithinTable;
    hide TableLasts;
    hide ShortestBut;
    hide Pow;
    hide Two;
    hide Ten;
    hide FromBits;
    hide Normalize;
    hide Multiply;
    hide Significand;
    hide Exponent;
    hide CachedIndex;
    hide Rounded;
    hide Generated;
    hide Nearest;
    hide RoundsTo;
    hide Real;
    hide DecimalReal;
    hide NatOf;
    var v := FromBits(u);
    var minus, plus := NormalizedBoundaries(v);
    BoundaryExponent(v, plus);
    ExponentWindow(plus.e, estimate(plus.e));
    var i := CachedIndex(estimate(plus.e));
    var K0 := -DecimalExponent(i);
    var c := DiyFp(Significand(i), Exponent(i));
    SpreadOfBoundaries(v, minus, plus);
    ReadyForDigits(v, minus, plus, i);
    var W, Wp, Wm := Multiply(Normalize(v), c), Multiply(plus, c), Multiply(minus, c);
    Wm := Wm.(f := Wm.f + 1);
    Wp := Wp.(f := Wp.f - 1);
    length, K := DigitGen(W, Wp, Wp.f - Wm.f, beyond, buffer, K0);
    GeneratedInside(buffer[..length], K - K0, Wp.e, Wp.f, Wp.f - Wm.f);
    InsideBoundaries(minus, plus, i, K - K0, NatOf(buffer[..length]));
    InsideRounds(u, minus, plus, DecimalReal(NatOf(buffer[..length]), K));
    BoundariesAre(v, minus, plus);
    UnitIsSmall(v, minus, plus, i);
    ShortestInside(v, minus, plus, i, buffer[..length], K - K0);
    WithinTableIs(v, minus, plus, i);
    if K - K0 >= -9 {
      ClosestInside(v, minus, plus, i, NatOf(buffer[..length]), K - K0);
    }
  }

  lemma OneThirdNormalized()
    ensures Normalize(DiyFp(0x15_5555_5555_5555, -54)) == DiyFp(0xaaaa_aaaa_aaaa_a800, -65)
  {
    hide Normalize;
    var v := DiyFp(0x15_5555_5555_5555, -54);
    var r := Normalize(v);
    assert Pow(2, 11) == 2048;
    ShiftUnique(v.f, 11, v.e - r.e);
  }

  /** 1/3 needs an index above 9, whatever the rounding of the estimate. */
  lemma OneThirdNotWithin(dk: real)
    requires Rounded(-65, dk)
    ensures var v := FromBits(0x3fd5_5555_5555_5555);
      Normalize(v).e == -65 && CachedIndex(dk) == 44 && !WithinTable(v, 44)
  {
    hide Normalize, TableLasts;
    var v := FromBits(0x3fd5_5555_5555_5555);
    assert v == DiyFp(0x15_5555_5555_5555, -54);
    OneThirdNormalized();
    assert Pow(2, 9) == 512;
    hide Pow;
    assert Product((4 * v.f + 2) * 512, 44) == 7505999378950826874 + 1;
    assert Product((4 * v.f - 2) * 512, 44) == 7505999378950826874 - 1248 - 1;
    OneThirdLeavesTable();
  }
}
