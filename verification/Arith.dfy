/** Powers, and the few facts about products and quotients that the number printers rest on. */
module Arith {

  /** b^n over the naturals. */
  function Pow(b: nat, n: nat): (r: nat)
  {
    if n == 0 then 1 else b * Pow(b, n - 1)
  }

  lemma {:induction false} PowAdd(b: nat, m: nat, n: nat)
    ensures Pow(b, m + n) == Pow(b, m) * Pow(b, n)
  {
    if m > 0 {
      PowAdd(b, m - 1, n);
      MulAssocNat(b, Pow(b, m - 1), Pow(b, n));
    }
  }

  lemma MulAssocNat(x: nat, y: nat, z: nat)
    ensures x * (y * z) == x * y * z
  {}

  lemma {:induction false} PowPositive(b: nat, n: nat)
    requires b > 0
    ensures Pow(b, n) > 0
  {
    if n > 0 {
      PowPositive(b, n - 1);
      assert b * Pow(b, n - 1) > 0;
    }
  }

  lemma {:induction false} PowMonotone(b: nat, m: nat, n: nat)
    requires b > 0 && m <= n
    ensures Pow(b, m) <= Pow(b, n)
  {
    PowAdd(b, m, n - m);
    PowPositive(b, m);
    PowPositive(b, n - m);
    MulAtLeast(Pow(b, m), Pow(b, n - m));
  }

  lemma MulAtLeast(x: nat, y: nat)
    requires y > 0
    ensures x * y >= x
  {
    assert x * y == x * (y - 1) + x;
    assert x * (y - 1) >= 0;
  }

  /** 2^n for every integer n. */
  ghost function Two(n: int): (r: real)
    ensures r > 0.0
    decreases if n < 0 then -n else n
  {
    if n == 0 then 1.0
    else if n > 0 then 2.0 * Two(n - 1)
    else Two(n + 1) / 2.0
  }

  lemma TwoStep(n: int)
    ensures Two(0) == 1.0
    ensures Two(n + 1) == 2.0 * Two(n)
  {}

  lemma {:induction false} TwoSum(m: int, n: int)
    ensures Two(m + n) == Two(m) * Two(n)
    decreases if m < 0 then -m else m
  {
    hide *;
    TwoStep(m);
    TwoStep(m + n);
    if m > 0 {
      TwoSum(m - 1, n);
      TwoStep(m - 1 + n);
      TwoStep(m - 1);
    } else if m < 0 {
      TwoSum(m + 1, n);
    }
  }

  lemma {:induction false} TwoOfNat(n: nat)
    ensures Two(n) == Pow(2, n) as real
  {
    if n > 0 {
      TwoOfNat(n - 1);
    }
  }

  lemma {:induction false} TwoMonotone(m: int, n: int)
    requires m <= n
    ensures Two(m) <= Two(n)
    decreases n - m
  {
    if m < n {
      TwoMonotone(m, n - 1);
      TwoStep(n - 1);
    }
  }

  /** 10^n for every integer n. */
  ghost function Ten(n: int): (r: real)
    ensures r > 0.0
    decreases if n < 0 then -n else n
  {
    if n == 0 then 1.0
    else if n > 0 then 10.0 * Ten(n - 1)
    else Ten(n + 1) / 10.0
  }

  lemma TenStep(n: int)
    ensures Ten(0) == 1.0
    ensures Ten(n + 1) == 10.0 * Ten(n)
  {}

  lemma {:induction false} TenSum(m: int, n: int)
    ensures Ten(m + n) == Ten(m) * Ten(n)
    decreases if m < 0 then -m else m
  {
    hide *;
    TenStep(m);
    TenStep(m + n);
    if m > 0 {
      TenSum(m - 1, n);
      TenStep(m - 1 + n);
      TenStep(m - 1);
    } else if m < 0 {
      TenSum(m + 1, n);
    }
  }

  lemma {:induction false} TenOfNat(n: nat)
    ensures Ten(n) == Pow(10, n) as real
  {
    if n > 0 {
      TenOfNat(n - 1);
    }
  }

  lemma {:induction false} TenMonotone(m: int, n: int)
    requires m <= n
    ensures Ten(m) <= Ten(n)
    decreases n - m
  {
    if m < n {
      TenMonotone(m, n - 1);
      TenStep(n - 1);
    }
  }

  lemma MulMonotoneNat(a: nat, b: nat, c: nat, d: nat)
    requires a <= c && b <= d
    ensures a * b <= c * d
  {
    assert c * b - a * b == (c - a) * b >= 0;
    assert c * d - c * b == c * (d - b) >= 0;
  }

  lemma MulAssoc(x: real, y: real, z: real)
    ensures x * (y * z) == x * y * z
  {}

  lemma MulLess(x: real, y: real, z: real)
    requires z > 0.0 && x < y
    ensures x * z < y * z
  {
    assert (y - x) * z > 0.0;
  }

  lemma MulLessInverse(x: real, y: real, z: real)
    requires z > 0.0 && x * z < y * z
    ensures x < y
  {
    assert (y - x) * z > 0.0;
  }

  lemma MulAtMost(x: real, y: real, z: real)
    requires z >= 0.0 && x <= y
    ensures x * z <= y * z
  {
    assert (y - x) * z >= 0.0;
  }
}
