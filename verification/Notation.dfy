/**
 * Which doubles are printed without an exponent (the limits 21 and -6 of Prettify in common/string.hpp), in terms of
 * their bits: those from the double nearest to 10^-6 up to the one before 10^21.
 */
module Notation {
  import opened Arith
  import opened Decimal
  import opened DiyFps
  import opened CachedPowers
  import opened Grisu

  /** The double nearest to 10^-6, just below it, and 10^21 itself. */
  const MILLIONTH: U64 := 0x3eb0_c6f7_a0b5_ed8d
  const SEXTILLION: U64 := 0x444b_1ae4_d6e2_ef50

  lemma TheirParts()
    ensures FromBits(MILLIONTH) == DiyFp(4722366482869645, -72) && FromBits(MILLIONTH + 1) == DiyFp(4722366482869646, -72)
    ensures FromBits(SEXTILLION) == DiyFp(7629394531250000, 17)
  {}

  lemma TheirPowers()
    ensures Two(-74) * 18_889_465_931_478_580_854_784.0 == 1.0 && Ten(-6) * 1_000_000.0 == 1.0
    ensures Two(15) == 32_768.0 && Ten(21) == 1_000_000_000_000_000_000_000.0
  {
    SomeTwos();
    SomeTens();
    hide *;
    TwoOfNat(74);
    TwoSum(-74, 74);
    TwoStep(0);
    TwoOfNat(15);
    TenOfNat(6);
    TenSum(-6, 6);
    TenStep(0);
    TenOfNat(21);
  }

  lemma SomeTwos()
    ensures Pow(2, 15) == 32_768 && Pow(2, 74) == 18_889_465_931_478_580_854_784
  {
    hide Pow;
    SmallPowers();
    PowAdd(2, 8, 7);
    PowAdd(2, 15, 15);
    PowAdd(2, 30, 30);
    PowAdd(2, 60, 7);
    PowAdd(2, 67, 7);
  }

  lemma SomeTens()
    ensures Pow(10, 6) == 1_000_000 && Pow(10, 21) == 1_000_000_000_000_000_000_000
  {
    assert Pow(10, 6) == 1_000_000 && Pow(10, 3) == 1_000;
    hide Pow;
    PowAdd(10, 6, 6);
    PowAdd(10, 12, 6);
    PowAdd(10, 18, 3);
  }

  /** a / p against 1 / q. */
  lemma CompareParts(a: real, z: real, p: real, y: real, q: real)
    requires p > 0.0 && q > 0.0 && z * p == 1.0 && y * q == 1.0
    ensures a * z < y <==> a * q < p
    ensures y < a * z <==> p < a * q
  {
    var f := p * q;
    assert f > 0.0;
    assert a * z * f == a * q * (z * p);
    assert y * f == p * (y * q);
    if a * z < y {
      MulLess(a * z, y, f);
    } else if y < a * z {
      MulLess(y, a * z, f);
    }
  }

  /** 10^-6 lies between its nearest double and the boundary above that, well within the boundaries. */
  lemma AroundMillionth()
    ensures Value(MILLIONTH) < Ten(-6) && 2.0 * Ten(-6) < Value(MILLIONTH) + Value(MILLIONTH + 1)
    ensures var v := FromBits(MILLIONTH); Lower(v) + Upper(v) / MARGIN <= Ten(-6) <= Upper(v) - Upper(v) / MARGIN
  {
    TheirParts();
    TheirPowers();
    hide Two, Ten, FromBits;
    var z, p, y, q := Two(-74), 18_889_465_931_478_580_854_784.0, Ten(-6), 1_000_000.0;
    TwoStep(-74);
    TwoStep(-73);
    CompareParts(4722366482869645.0 * 4.0, z, p, y, q);
    CompareParts(4722366482869645.0 * 4.0 + 2.0, z, p, y, q);
    CompareParts(4722366482869645.0 * 4.0 - 2.0 + (4722366482869645.0 * 4.0 + 2.0) / MARGIN, z, p, y, q);
    CompareParts(4722366482869645.0 * 4.0 + 2.0 - (4722366482869645.0 * 4.0 + 2.0) / MARGIN, z, p, y, q);
  }

  lemma AroundSextillion()
    ensures Value(SEXTILLION) == Ten(21)
    ensures var v := FromBits(SEXTILLION); Lower(v) + Upper(v) / MARGIN <= Ten(21) <= Upper(v) - Upper(v) / MARGIN
  {
    TheirParts();
    TheirPowers();
    hide Two, Ten, FromBits;
    TwoStep(15);
    TwoStep(16);
  }

  /** A power of ten well within the boundaries is printed as a multiple of itself. */
  lemma NotBelow(v: DiyFp, i: nat, K: int, c: nat, k: int)
    requires v.f != 0 && i < ENTRIES && c > 0 && ShortestBut(v, i, K) && UnitSmall(v, i)
    requires Lower(v) + Upper(v) / MARGIN <= Ten(k) <= Upper(v) - Upper(v) / MARGIN
    ensures DecimalReal(c, K) >= Ten(k)
  {
    hide Two, Ten, UnitOf, Lower, Upper;
    assert DecimalReal(1, k) == Ten(k);
    assert WellWithin(DecimalReal(1, k), v, i);
    TenMonotone(k, K);
    MulAtMost(1.0, c as real, Ten(K));
  }

  lemma AtMost(u: U64, w: U64)
    requires u <= w <= INFINITY
    ensures Value(u) <= Value(w)
  {
    hide Value;
    if u < w {
      ValuesIncrease(u, w);
    }
  }

  lemma FromMillionth(u: U64, i: nat, K: int, c: nat)
    requires 0 < u < INFINITY && i < ENTRIES && c > 0 && RoundsTo(DecimalReal(c, K), u)
    requires ShortestBut(FromBits(u), i, K) && UnitSmall(FromBits(u), i)
    ensures Ten(-6) <= DecimalReal(c, K) <==> MILLIONTH <= u
  {
    hide Value, Ten, DecimalReal, ShortestBut, UnitSmall, FromBits, Lower, Upper;
    AroundMillionth();
    if u < MILLIONTH {
      AtMost(u, MILLIONTH);
      AtMost(u + 1, MILLIONTH);
    } else if u == MILLIONTH {
      NotBelow(FromBits(u), i, K, c, -6);
    } else {
      AtMost(MILLIONTH, u - 1);
      AtMost(MILLIONTH + 1, u);
    }
  }

  lemma BelowSextillion(u: U64, i: nat, K: int, c: nat)
    requires 0 < u < INFINITY && i < ENTRIES && c > 0 && RoundsTo(DecimalReal(c, K), u)
    requires ShortestBut(FromBits(u), i, K) && UnitSmall(FromBits(u), i)
    ensures DecimalReal(c, K) < Ten(21) <==> u < SEXTILLION
  {
    hide Value, Ten, DecimalReal, ShortestBut, UnitSmall, FromBits, Lower, Upper;
    AroundSextillion();
    if u < SEXTILLION {
      AtMost(u, SEXTILLION);
      AtMost(u + 1, SEXTILLION);
    } else if u == SEXTILLION {
      NotBelow(FromBits(u), i, K, c, 21);
    } else {
      AtMost(SEXTILLION, u - 1);
      AtMost(SEXTILLION, u);
    }
  }
}
