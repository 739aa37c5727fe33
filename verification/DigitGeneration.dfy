/**
 * Digit generation of the double printer (CountDecimalDigit32, GrisuRound and DigitGen of common/string.hpp):
 * from an interval [Mp - delta, Mp] of fixed-point numbers, a decimal D * 10^kappa inside it.
 */
module DigitGeneration {
  import opened Arith
  import opened Decimal
  import opened DiyFps

  type U32 = x: int | 0 <= x < HALF

  /** kPow10 */
  function PowerEntry(i: nat): U32
    requires i < 10
  {
    match i
    case 0 => 1
    case 1 => 10
    case 2 => 100
    case 3 => 1_000
    case 4 => 10_000
    case 5 => 100_000
    case 6 => 1_000_000
    case 7 => 10_000_000
    case 8 => 100_000_000
    case _ => 1_000_000_000
  }

  lemma PowerEntryIsPower(i: nat)
    requires i < 10
    ensures PowerEntry(i) == Pow(10, i)
  {}

  function CountDecimalDigit32(n: U32): (r: nat)
    ensures 1 <= r <= 10 && n < Pow(10, r)
    ensures n > 0 ==> Pow(10, r - 1) <= n
  {
    assert Pow(10, 10) == 10 * Pow(10, 9) && Pow(10, 5) == 100_000;
    if n < 10 then 1
    else if n < 100 then 2
    else if n < 1_000 then 3
    else if n < 10_000 then 4
    else if n < 100_000 then 5
    else if n < 1_000_000 then 6
    else if n < 10_000_000 then 7
    else if n < 100_000_000 then 8
    else if n < 1_000_000_000 then 9
    else 10
  }

  // ---------- rounding the last digit ----------

  function Gap(x: int, y: int): nat {
    if x < y then y - x else x - y
  }

  /** Of the remainders rest, rest + t, rest + 2t, ... up to delta, no other is nearer to target. */
  ghost predicate NearestRemainder(r: int, rest: int, t: int, delta: int, target: int) {
    forall j: nat :: rest + j * t <= delta ==> Gap(r, target) <= Gap(rest + j * t, target)
  }

  lemma StepsBound(rest: int, t: int, delta: int, steps: nat, d: nat)
    requires t > 0 && rest + steps * t <= delta <= rest + d * t
    ensures steps <= d
    ensures delta < rest + d * t ==> steps < d
  {
    assert (d - steps) * t >= 0;
  }

  /** The loop condition apart from the bound: the next remainder is nearer. */
  predicate Improves(r: int, t: int, target: int) {
    r < target && (r + t < target || target - r > r + t - target)
  }

  /** The loop condition of GrisuRound; every intermediate word fits. */
  predicate GoesOn(delta: U64, r: U64, t: U64, target: U64)
    requires r <= delta
  {
    r < target && delta - r >= t
    && (var next: U64 := r + t;
        next < target || (var near: U64, far: U64 := target - r, next - target; near > far))
  }

  lemma {:induction false} NearerDownhill(rest: int, t: int, target: int, j: nat, steps: nat)
    requires t > 0 && j <= steps
    requires forall i: nat :: i < steps ==> Improves(rest + i * t, t, target)
    ensures Gap(rest + steps * t, target) <= Gap(rest + j * t, target)
    decreases steps - j
  {
    if j < steps {
      NearerDownhill(rest, t, target, j + 1, steps);
      assert (j + 1) * t == j * t + t;
    }
  }

  lemma FartherUphill(r: int, t: int, delta: int, target: int, far: int)
    requires t > 0 && r + t <= far <= delta && (delta - r < t || !Improves(r, t, target))
    ensures Gap(r, target) <= Gap(far, target)
  {}

  lemma OneFurther(steps: nat, j: nat, t: nat)
    requires steps < j
    ensures steps * t + t <= j * t
  {
    MulMonotoneNat(steps + 1, t, j, t);
    assert (steps + 1) * t == steps * t + t;
  }

  /** Stopping at the first remainder whose successor is not nearer, or lies outside, is best. */
  lemma StopIsNearest(rest: int, t: int, delta: int, target: int, steps: nat)
    requires t > 0
    requires delta - (rest + steps * t) < t || !Improves(rest + steps * t, t, target)
    requires forall i: nat :: i < steps ==> Improves(rest + i * t, t, target)
    ensures NearestRemainder(rest + steps * t, rest, t, delta, target)
  {
    hide Improves, Gap;
    forall j: nat | rest + j * t <= delta
      ensures Gap(rest + steps * t, target) <= Gap(rest + j * t, target)
    {
      if j <= steps {
        NearerDownhill(rest, t, target, j, steps);
      } else {
        OneFurther(steps, j, t);
        FartherUphill(rest + steps * t, t, delta, target, rest + j * t);
      }
    }
  }

  /**
   * GrisuRound: lowers the last digit while that brings the number nearer to the target.  Because one digit
   * fewer was not enough (delta <= rest + d * t), the digit never goes below '0': there is no borrow.
   */
  method GrisuRound(buffer: array<char>, len: nat, delta: U64, rest: U64, t: U64, target: U64)
    returns (ghost steps: nat)
    requires 0 < len <= buffer.Length && IsDigit(buffer[len - 1])
    requires t > 0 && rest <= delta <= rest + DigitValue(buffer[len - 1]) * t
    modifies buffer
    ensures buffer[..] == old(buffer[..])[len - 1 := buffer[len - 1]]
    ensures IsDigit(buffer[len - 1])
    ensures DigitValue(buffer[len - 1]) == DigitValue(old(buffer[len - 1])) - steps
    ensures rest + steps * t <= delta
    ensures NearestRemainder(rest + steps * t, rest, t, delta, target)
  {
    var r: U64 := rest;
    steps := 0;
    ghost var d := DigitValue(buffer[len - 1]);
    while GoesOn(delta, r, t, target)
      invariant r == rest + steps * t <= delta && steps <= d
      invariant buffer[..] == old(buffer[..])[len - 1 := buffer[len - 1]]
      invariant IsDigit(buffer[len - 1]) && DigitValue(buffer[len - 1]) == d - steps
      invariant forall i: nat :: i < steps ==> Improves(rest + i * t, t, target)
      decreases delta - r
    {
      assert (steps + 1) * t == steps * t + t;
      StepsBound(rest, t, delta, steps + 1, d);
      buffer[len - 1] := buffer[len - 1] - 1 as char;
      r := r + t;
      steps := steps + 1;
    }
    StopIsNearest(rest, t, delta, target, steps);
  }

  // ---------- what a generated decimal promises ----------

  // Decimals with exponent kappa are multiples of 10^kappa * one.  For a negative kappa both sides of every
  // comparison are multiplied by 10^-kappa, so that all quantities stay whole.

  function Unit(kappa: int, one: nat): nat {
    if kappa >= 0 then Pow(10, kappa) * one else one
  }

  function Scale(kappa: int): nat {
    if kappa >= 0 then 1 else Pow(10, -kappa)
  }

  /** c * 10^kappa lies in [hi - delta, hi], both in units of 1 / one. */
  ghost predicate Landed(c: nat, kappa: int, one: nat, hi: nat, delta: nat) {
    hi * Scale(kappa) - delta * Scale(kappa) <= c * Unit(kappa, one) <= hi * Scale(kappa)
  }

  /** No multiple of 10^kappa lies in (hi - delta, hi]. */
  ghost predicate NoMultiple(kappa: int, one: nat, hi: nat, delta: nat) {
    forall m: nat ::
      !(hi * Scale(kappa) - delta * Scale(kappa) < m * Unit(kappa, one) <= hi * Scale(kappa))
  }

  /** Of the multiples of 10^kappa in the interval none is nearer to w than c * 10^kappa. */
  ghost predicate Nearest(c: nat, kappa: int, one: nat, hi: nat, delta: nat, w: nat) {
    forall m: nat :: Landed(m, kappa, one, hi, delta) ==>
      Gap(c * Unit(kappa, one), w * Scale(kappa)) <= Gap(m * Unit(kappa, one), w * Scale(kappa))
  }

  /** A digit string, without leading zero, inside the interval, such that no shorter one is. */
  ghost predicate Generated(s: seq<char>, kappa: int, one: nat, hi: nat, delta: nat) {
    && s != [] && AllDigits(s) && s[0] != '0'
    && Landed(NatOf(s), kappa, one, hi, delta)
    && NoMultiple(kappa + 1, one, hi, delta)
  }

  lemma LandingAfterSteps(c: nat, u: nat, h: int, l: int, rest: int, steps: nat)
    requires h == c * u + rest && 0 <= rest && rest + steps * u <= l
    ensures h - l <= (c - steps) * u <= h
  {
    assert (c - steps) * u == c * u - steps * u;
    assert steps * u >= 0;
  }

  lemma NoMultipleBelow(c: nat, u: nat, h: int, l: int, rest: int)
    requires h == c * u + rest && l <= rest < u
    ensures forall m: nat :: !(h - l < m * u <= h)
  {
    forall m: nat
      ensures !(h - l < m * u <= h)
    {
      if m <= c {
        MulMonotoneNat(m, u, c, u);
      } else {
        MulMonotoneNat(c + 1, u, m, u);
        assert (c + 1) * u == c * u + u;
      }
    }
  }

  lemma NearestAfterSteps(c: nat, u: nat, h: int, l: int, rest: int, steps: nat, w: int, m: nat)
    requires u > 0 && h == c * u + rest && 0 <= rest < u && h - l <= m * u <= h
    requires NearestRemainder(rest + steps * u, rest, u, l, h - w)
    ensures Gap((c - steps) * u, w) <= Gap(m * u, w)
  {
    assert (c + 1) * u == c * u + u;
    if m > c {
      MulMonotoneNat(c + 1, u, m, u);
    }
    assert m <= c;
    assert (c - m) * u == c * u - m * u;
    assert rest + (c - m) * u == h - m * u;
    assert (c - steps) * u == c * u - steps * u;
  }

  /** Both exits of DigitGen: the last digit has been lowered by steps and the result is as promised. */
  lemma Finished(s: seq<char>, s': seq<char>, steps: nat, kappa: int, one: nat, hi: nat, delta: nat, w: nat, rest: nat)
    requires s != [] && AllDigits(s) && s[0] != '0'
    requires |s'| == |s| && s' == s[|s| - 1 := s'[|s| - 1]] && IsDigit(s'[|s| - 1])
    requires DigitValue(s'[|s| - 1]) == DigitValue(s[|s| - 1]) - steps
    requires |s| == 1 ==> steps < DigitValue(s[0])
    requires hi * Scale(kappa) == NatOf(s) * Unit(kappa, one) + rest && rest < Unit(kappa, one)
    requires rest + steps * Unit(kappa, one) <= delta * Scale(kappa)
    requires NoMultiple(kappa + 1, one, hi, delta)
    ensures Generated(s', kappa, one, hi, delta)
    ensures NearestRemainder(rest + steps * Unit(kappa, one), rest, Unit(kappa, one), delta * Scale(kappa),
                             hi * Scale(kappa) - w * Scale(kappa))
            ==> Nearest(NatOf(s'), kappa, one, hi, delta, w)
  {
    hide Unit;
    hide Scale;
    hide NoMultiple;
    var u, h, l := Unit(kappa, one), hi * Scale(kappa), delta * Scale(kappa);
    NatOfLower(s, s'[|s| - 1]);
    LandingAfterSteps(NatOf(s), u, h, l, rest, steps);
    if NearestRemainder(rest + steps * u, rest, u, l, h - w * Scale(kappa)) {
      forall m: nat | Landed(m, kappa, one, hi, delta)
        ensures Gap(NatOf(s') * u, w * Scale(kappa)) <= Gap(m * u, w * Scale(kappa))
      {
        NearestAfterSteps(NatOf(s), u, h, l, rest, steps, w * Scale(kappa), m);
      }
    }
  }

  /** What holds before rounding: rest is left over, and the last digit was needed. */
  ghost predicate CanFinish(s: seq<char>, kappa: int, one: nat, hi: nat, width: nat, delta: nat, rest: nat, t: nat) {
    && s != [] && AllDigits(s) && s[0] != '0'
    && t == Unit(kappa, one) && delta == width * Scale(kappa)
    && hi * Scale(kappa) == NatOf(s) * t + rest && rest < t
    && delta <= rest + DigitValue(s[|s| - 1]) * t
    && (|s| == 1 ==> delta < rest + DigitValue(s[|s| - 1]) * t)
    && NoMultiple(kappa + 1, one, hi, width)
  }

  /** The call of GrisuRound at both exits, with what it establishes. */
  method Finish(buffer: array<char>, len: nat, delta: U64, rest: U64, t: U64, target: U64,
                ghost kappa: int, ghost one: nat, ghost hi: nat, ghost width: nat, ghost w: nat)
    requires 0 < len <= buffer.Length && rest <= delta
    requires CanFinish(buffer[..len], kappa, one, hi, width, delta, rest, t)
    modifies buffer
    ensures Generated(buffer[..len], kappa, one, hi, width)
    ensures target == hi * Scale(kappa) - w * Scale(kappa) ==> Nearest(NatOf(buffer[..len]), kappa, one, hi, width, w)
  {
    hide Unit;
    hide Scale;
    hide NoMultiple;
    hide Generated;
    hide Nearest;
    hide NatOf;
    hide NearestRemainder;
    ghost var s := buffer[..len];
    ghost var steps := GrisuRound(buffer, len, delta, rest, t, target);
    StepsBound(rest, t, delta, steps, DigitValue(s[len - 1]));
    assert buffer[..len] == s[len - 1 := buffer[len - 1]];
    Finished(s, buffer[..len], steps, kappa, one, hi, width, w, rest);
    GeneratedDigits(buffer[..len], kappa, one, hi, width);
  }

  lemma GeneratedDigits(s: seq<char>, kappa: int, one: nat, hi: nat, delta: nat)
    requires Generated(s, kappa, one, hi, delta)
    ensures AllDigits(s) && s != [] && s[0] != '0'
  {}

  // ---------- the integral digits ----------

  /** Dividing p1 by 10^(kappa-1) is dividing everything left over by a unit. */
  lemma SplitRemainder(p1: nat, p2: nat, t: nat, one: nat)
    requires t > 0 && p2 < one && p1 < 10 * t
    ensures p1 / t < 10
    ensures t <= p1 ==> p1 / t > 0
    ensures p1 * one + p2 == p1 / t * (t * one) + (p1 % t * one + p2)
    ensures p1 % t * one + p2 < t * one
  {
    var d, r := p1 / t, p1 % t;
    DigitOf(p1, t);
    SumTimes(d * t, r, one);
    MulAssocNat(d, t, one);
    MulMonotoneNat(r + 1, one, t, one);
    SumTimes(r, 1, one);
    QuotientPositive(p1, t);
  }

  lemma QuotientPositive(x: nat, t: nat)
    requires t > 0
    ensures t <= x ==> x / t > 0
  {}

  /** One more digit conserves the value: hi = digits * unit + rest. */
  lemma NextDigit(s: seq<char>, u: nat, rest: nat, hi: nat, d: nat, rest': nat)
    requires AllDigits(s) && (s != [] ==> s[0] != '0') && (s == [] ==> d > 0) && d < 10
    requires hi == NatOf(s) * (10 * u) + rest && rest == d * u + rest'
    ensures var s' := s + [DigitChar(d)];
      AllDigits(s') && s'[0] != '0' && hi == NatOf(s') * u + rest'
  {
    hide NatOf;
    NatOfPush(s, DigitChar(d));
    DigitSum(NatOf(s), d, u);
  }

  lemma DigitSum(c: nat, d: nat, u: nat)
    ensures c * (10 * u) + d * u == (10 * c + d) * u
  {}

  lemma UnitAtMost(c: nat, u: nat, hi: nat)
    requires c > 0 && c * u <= hi
    ensures u <= hi
  {
    MulAtLeast(u, c);
  }

  lemma LeadingIsPositive(s: seq<char>)
    requires AllDigits(s) && s != [] && s[0] != '0'
    ensures NatOf(s) > 0
  {
    NatOfBounds(s);
    PowPositive(10, |s| - 1);
  }

  /** x << -e, where one = 1 << -e. */
  function Shl(x: nat, one: nat): nat {
    x * one
  }

  /** x >> -e */
  function Shr(x: nat, one: nat): nat
    requires one > 0
  {
    x / one
  }

  /** x & (one - 1) */
  function Low(x: nat, one: nat): (r: nat)
    requires one > 0
    ensures r < one
  {
    x % one
  }

  /** The state of the first loop: digits so far, kappa digits to come, and more than delta left over. */
  ghost predicate Progress(s: seq<char>, kappa: nat, p1: nat, p2: nat, one: nat, hi: nat, delta: nat) {
    && AllDigits(s) && |s| + kappa <= 10 && p1 < Pow(10, kappa) && p2 < one
    && hi == NatOf(s) * Unit(kappa, one) + Shl(p1, one) + p2 && Shl(p1, one) + p2 < Unit(kappa, one)
    && delta < Shl(p1, one) + p2
    && (s == [] ==> kappa > 0 && Pow(10, kappa - 1) <= p1)
    && (s != [] ==> s[0] != '0')
  }

  lemma UnitSteps(kappa: nat, one: nat, t: nat)
    requires 0 < kappa <= 10 && t == PowerEntry(kappa - 1)
    ensures t == Pow(10, kappa - 1) > 0 && Pow(10, kappa) == 10 * t
    ensures Unit(kappa, one) == 10 * (t * one) && Unit(kappa - 1, one) == t * one
  {
    PowerEntryIsPower(kappa - 1);
    MulAssocNat(10, t, one);
  }

  /** One round of the first loop. */
  lemma Round(s: seq<char>, kappa: nat, p1: nat, p2: nat, one: nat, hi: nat, delta: nat, t: nat, d: nat, p1': nat)
    requires kappa > 0 && Progress(s, kappa, p1, p2, one, hi, delta)
    requires t == PowerEntry(kappa - 1) > 0 && d == Shr(p1, t) && p1' == Low(p1, t)
    ensures d < 10 && (s == [] ==> d > 0)
    ensures Shl(t, one) <= hi && Shl(p1', one) + p2 <= hi
    ensures CanFinish(s + [DigitChar(d)], kappa - 1, one, hi, delta, delta, Shl(p1', one) + p2, Shl(t, one))
    ensures delta < Shl(p1', one) + p2 ==> Progress(s + [DigitChar(d)], kappa - 1, p1', p2, one, hi, delta)
  {
    UnitSteps(kappa, one, t);
    ScaleOfNat(kappa);
    ScaleOfNat(kappa - 1);
    hide Pow;
    hide PowerEntry;
    hide Unit;
    hide Scale;
    SplitRemainder(p1, p2, t, one);
    var rest, rest', u, s' := p1 * one + p2, p1' * one + p2, t * one, s + [DigitChar(d)];
    NextDigit(s, u, rest, hi, d, rest');
    LeadingIsPositive(s');
    UnitAtMost(NatOf(s'), u, hi);
    NoMultipleBelow(NatOf(s), 10 * u, hi, delta, rest);
  }

  lemma ScaleOfNat(kappa: nat)
    ensures Scale(kappa) == 1
  {}

  lemma StartsInProgress(hi: nat, one: nat, delta: nat, p1: U32, p2: nat)
    requires 0 < one <= hi && p1 == Shr(hi, one) && p2 == Low(hi, one) && delta < hi
    ensures Progress([], CountDecimalDigit32(p1), p1, p2, one, hi, delta)
  {
    hide CountDecimalDigit32;
    hide Pow;
    Divided(hi, one);
    var kappa := CountDecimalDigit32(p1);
    MulMonotoneNat(p1 + 1, one, Pow(10, kappa), one);
    assert (p1 + 1) * one == p1 * one + one;
  }

  lemma Divided(hi: nat, one: nat)
    requires 0 < one <= hi
    ensures hi == hi / one * one + hi % one && 0 < hi / one && hi % one < one
  {}

  lemma PowerEntryPositive(i: nat)
    requires i < 10
    ensures PowerEntry(i) > 0
  {}

  lemma FractionLeft(s: seq<char>, p1: nat, p2: nat, one: nat, hi: nat, delta: nat)
    requires Progress(s, 0, p1, p2, one, hi, delta)
    ensures InFraction(s, 0, p2, one, hi, delta, delta) && delta < p2
  {
    assert p1 == 0;
  }

  /**
   * The first loop of DigitGen: digits of the integral part, until what is left over is at most delta.  When no
   * digit of it stops the loop, the fraction p2 remains.
   */
  method IntegralDigits(hi: U64, one: U64, delta: U64, w: U64, buffer: array<char>)
    returns (stopped: bool, len: nat, kappa: nat, p2: U64)
    requires 0 < one <= hi && Shr(hi, one) < HALF && 0 < delta < hi && w <= hi
    requires buffer.Length >= 10
    modifies buffer
    ensures 0 < len <= 10 && kappa < 10
    ensures stopped ==> Generated(buffer[..len], kappa, one, hi, delta)
    ensures stopped ==> Nearest(NatOf(buffer[..len]), kappa, one, hi, delta, w)
    ensures !stopped ==> kappa == 0 && p2 < one && InFraction(buffer[..len], 0, p2, one, hi, delta, delta)
    ensures !stopped ==> delta < Low(hi, one)
  {
    hide Progress;
    hide CanFinish;
    hide Shl;
    hide Scale;
    hide Generated;
    hide Nearest;
    hide CountDecimalDigit32;
    hide PowerEntry;
    hide InFraction;
    hide Shr;
    hide Low;
    var p1: U32 := Shr(hi, one);
    p2 := Low(hi, one);
    kappa := CountDecimalDigit32(p1);
    len := 0;
    StartsInProgress(hi, one, delta, p1, p2);
    assert buffer[..0] == [];
    while kappa > 0
      invariant kappa <= 10 && len + kappa <= 10 && p2 < one
      invariant Progress(buffer[..len], kappa, p1, p2, one, hi, delta)
      invariant len == 0 ==> kappa > 0
      decreases kappa
    {
      ghost var s, p := buffer[..len], p1;
      var t := PowerEntry(kappa - 1);
      PowerEntryPositive(kappa - 1);
      var d := Shr(p1, t);
      p1 := Low(p1, t);
      Round(s, kappa, p, p2, one, hi, delta, t, d, p1);
      if d != 0 || len != 0 {
        buffer[len] := DigitChar(d);
        len := len + 1;
      }
      assert buffer[..len] == s + [DigitChar(d)];
      kappa := kappa - 1;
      var tmp: U64 := Shl(p1, one) + p2;
      if tmp <= delta {
        ScaleOfNat(kappa);
        Finish(buffer, len, delta, tmp, Shl(t, one), hi - w, kappa, one, hi, delta, w);
        stopped := true;
        return;
      }
    }
    stopped := false;
    FractionLeft(buffer[..len], p1, p2, one, hi, delta);
  }

  // ---------- the digits of the fraction ----------

  lemma FractionUnits(j: nat, one: nat)
    ensures Unit(0 - j, one) == one && Scale(0 - j) == Pow(10, j)
  {}

  /** The state of the second loop after j digits of the fraction: hi * 10^j = digits * one + p2. */
  ghost predicate InFraction(s: seq<char>, j: nat, p2: nat, one: nat, hi: nat, width: nat, delta: nat) {
    && s != [] && AllDigits(s) && s[0] != '0'
    && hi * Pow(10, j) == NatOf(s) * one + p2 && p2 < one
    && delta == width * Pow(10, j) <= p2
  }

  lemma TimesTen(x: nat, j: nat)
    ensures x * Pow(10, j + 1) == 10 * (x * Pow(10, j))
  {
    Shift(x, Pow(10, j));
  }

  lemma DigitOf(x: nat, one: nat)
    requires x < 10 * one
    ensures x / one < 10 && x == x / one * one + x % one && x % one < one
  {
    var d := x / one;
    assert x == d * one + x % one;
    if d >= 10 { MulMonotoneNat(10, one, d, one); }
  }

  /** One round of the second loop. */
  lemma FractionRound(s: seq<char>, j: nat, p2: nat, one: nat, hi: nat, width: nat, delta: nat, d: nat, p2': nat)
    requires one > 0 && InFraction(s, j, p2, one, hi, width, delta) && d == Shr(p2 * 10, one) && p2' == Low(p2 * 10, one)
    ensures d < 10 && p2' < one
    ensures CanFinish(s + [DigitChar(d)], 0 - (j + 1), one, hi, width, 10 * delta, p2', one)
    ensures 10 * delta <= p2' ==> InFraction(s + [DigitChar(d)], j + 1, p2', one, hi, width, 10 * delta)
  {
    FractionUnits(j, one);
    FractionUnits(j + 1, one);
    TimesTen(hi, j);
    TimesTen(width, j);
    hide Pow;
    hide Unit;
    hide Scale;
    NoMultipleBelow(NatOf(s), one, hi * Pow(10, j), delta, p2);
    DigitOf(p2 * 10, one);
    Shift(NatOf(s), one);
    NextDigit(s, one, p2 * 10, 10 * (hi * Pow(10, j)), d, p2');
  }

  /** The loop is short: the width of the interval grows tenfold and stays below one. */
  lemma FractionIsShort(s: seq<char>, j: nat, p2: nat, one: nat, hi: nat, width: nat, delta: nat)
    requires width > 0 && InFraction(s, j, p2, one, hi, width, delta) && one <= 0x1000_0000_0000_0000
    ensures j < 19 && delta <= p2 < one
  {
    MulAtLeast(Pow(10, j), width);
    NineteenDigits();
    if j >= 19 {
      PowMonotone(10, 19, j);
    }
  }

  lemma NineteenDigits()
    ensures Pow(10, 19) > 0x1000_0000_0000_0000
  {
    assert Pow(10, 8) == 100_000_000 && Pow(10, 3) == 1_000;
    hide Pow;
    PowAdd(10, 8, 8);
    PowAdd(10, 16, 3);
  }

  /** What DigitGen passes as the target in the second loop; kPow10 ends at index 9 and beyond stands for the rest. */
  function FractionTarget(distance: U64, j: nat, beyond: nat -> U64): U64 {
    if j < 10 then distance * PowerEntry(j) % WORD else beyond(j)
  }

  /** The target is the true distance while the table lasts: no product wraps. */
  lemma TrueTarget(distance: U64, j: nat, beyond: nat -> U64, delta: nat, width: nat)
    requires j < 10 && distance <= width && delta == width * Pow(10, j) < WORD
    ensures FractionTarget(distance, j, beyond) == distance * Pow(10, j)
  {
    PowerEntryIsPower(j);
    MulMonotoneNat(distance, Pow(10, j), width, Pow(10, j));
  }

  lemma FractionTargets(hi: U64, w: U64, j: nat, beyond: nat -> U64, delta: U64, width: nat, s: seq<char>, one: nat, rest: nat)
    requires hi - width <= w <= hi && 0 < j && CanFinish(s, 0 - j, one, hi, width, delta, rest, one)
    ensures j < 10 ==> FractionTarget(hi - w, j, beyond) == hi * Scale(0 - j) - w * Scale(0 - j)
  {
    FractionUnits(j, one);
    hide Pow, PowerEntry, FractionTarget, NatOf, AllDigits, NoMultiple;
    if j < 10 {
      TrueTarget(hi - w, j, beyond, delta, width);
      Distribute(hi, w, Pow(10, j));
    }
  }

  /** The second loop of DigitGen. */
  method FractionDigits(hi: U64, one: U64, width: U64, w: U64, beyond: nat -> U64, buffer: array<char>, len0: nat, p: U64)
    returns (len: nat, j: nat)
    requires 0 < len0 <= 10 && buffer.Length >= 29 && InFraction(buffer[..len0], 0, p, one, hi, width, width)
    requires 0 < width && 0 < one <= 0x1000_0000_0000_0000
    requires hi - width <= w <= hi
    modifies buffer
    ensures 0 < j <= 19 && len == len0 + j
    ensures Generated(buffer[..len], 0 - j, one, hi, width)
    ensures LeftBelow(hi, one, width, j)
    ensures j < 10 ==> Nearest(NatOf(buffer[..len]), 0 - j, one, hi, width, w)
  {
    hide InFraction;
    hide CanFinish;
    hide Scale;
    hide Generated;
    hide Nearest;
    hide FractionTarget;
    hide Shr;
    hide Low;
    hide LeftBelow;
    var p2: U64, delta: U64 := p, width;
    len, j := len0, 0;
    while true
      invariant 0 < delta && len == len0 + j <= 29
      invariant InFraction(buffer[..len], j, p2, one, hi, width, delta)
      decreases one - delta
    {
      ghost var s, q, l := buffer[..len], p2, delta;
      FractionIsShort(s, j, p2, one, hi, width, delta);
      p2 := p2 * 10;
      delta := delta * 10;
      var d := Shr(p2, one);
      p2 := Low(p2, one);
      FractionRound(s, j, q, one, hi, width, l, d, p2);
      if d != 0 || len != 0 {
        buffer[len] := DigitChar(d);
        len := len + 1;
      }
      assert buffer[..len] == s + [DigitChar(d)];
      j := j + 1;
      if p2 < delta {
        FractionTargets(hi, w, j, beyond, delta, width, buffer[..len], one, p2);
        StopsBelow(buffer[..len], j, one, hi, width, delta, p2);
        Finish(buffer, len, delta, p2, one, FractionTarget(hi - w, j, beyond), 0 - j, one, hi, width, w);
        return;
      }
    }
  }

  /** After j digits of the fraction less than the interval's width is left over. */
  predicate LeftBelow(hi: nat, one: nat, delta: nat, j: nat)
    requires one > 0
  {
    Low(hi * Pow(10, j), one) < delta * Pow(10, j)
  }

  /** What is left over when the second loop stops, in terms of its arguments. */
  lemma StopsBelow(s: seq<char>, j: nat, one: nat, hi: nat, width: nat, delta: nat, rest: nat)
    requires CanFinish(s, 0 - j, one, hi, width, delta, rest, one) && rest < delta
    ensures LeftBelow(hi, one, width, j)
  {
    FractionUnits(j, one);
    hide Pow, NatOf, NoMultiple;
    RemainderIs(NatOf(s), one, rest);
  }

  lemma SameRemainder(q: nat, r: nat, c: nat, rest: nat, one: nat)
    requires q * one + r == c * one + rest && r < one && rest < one
    ensures r == rest
  {
    assert (q + 1) * one == q * one + one && (c + 1) * one == c * one + one;
    if q < c {
      MulMonotoneNat(q + 1, one, c, one);
    } else if c < q {
      MulMonotoneNat(c + 1, one, q, one);
    }
  }

  lemma RemainderIs(c: nat, one: nat, rest: nat)
    requires rest < one
    ensures (c * one + rest) % one == rest
  {
    var x := c * one + rest;
    SameRemainder(x / one, x % one, c, rest, one);
  }

  // ---------- when the table of powers lasts ----------

  /** DigitGen on [hi - delta, hi] reads kPow10 up to index 9 only. */
  predicate TableLasts(hi: nat, one: nat, delta: nat)
    requires one > 0
  {
    hi * Pow(10, 9) % one < delta * Pow(10, 9) || hi % one == delta
  }

  lemma RemainderTenfold(x: nat, one: nat)
    requires one > 0
    ensures 10 * x % one <= 10 * (x % one)
  {
    var q, y := x / one, 10 * (x % one);
    var z, w := y / one, y % one;
    assert y == z * one + w && z * one >= 0;
    TenTimes(q, z, one);
    assert 10 * x == (10 * q + z) * one + w;
    RemainderIs(10 * q + z, one, w);
  }

  lemma SumTimes(m: nat, q: nat, one: nat)
    ensures (m + q) * one == m * one + q * one
  {}

  lemma TenTimes(q: nat, z: nat, one: nat)
    ensures (10 * q + z) * one == 10 * (q * one) + z * one
  {}

  /** Once the remainder is below the width it stays below. */
  lemma {:induction false} StaysBelow(hi: nat, one: nat, delta: nat, j: nat, k: nat)
    requires one > 0 && j <= k && LeftBelow(hi, one, delta, j)
    ensures LeftBelow(hi, one, delta, k)
    decreases k - j
  {
    if j < k {
      TimesTen(hi, j);
      TimesTen(delta, j);
      hide Pow;
      RemainderTenfold(hi * Pow(10, j), one);
      StaysBelow(hi, one, delta, j + 1, k);
    }
  }

  lemma RemainderAtMost(m: nat, one: nat, hi: nat, delta: nat)
    requires one > 0 && hi - delta <= m * one <= hi
    ensures hi % one <= delta
  {
    var x := hi - m * one;
    var q, r := x / one, x % one;
    assert x == q * one + r && q * one >= 0;
    SumTimes(m, q, one);
    RemainderIs(m + q, one, r);
  }

  /** A result of the first loop. */
  lemma WholeLasts(c: nat, kappa: nat, one: nat, hi: nat, delta: nat)
    requires one > 0 && Landed(c, kappa, one, hi, delta)
    ensures TableLasts(hi, one, delta)
  {
    assert Pow(10, 0) == 1;
    hide Pow;
    ScaleOfNat(kappa);
    MulAssocNat(c, Pow(10, kappa), one);
    RemainderAtMost(c * Pow(10, kappa), one, hi, delta);
    if hi % one < delta {
      StaysBelow(hi, one, delta, 0, 9);
    }
  }

  /** A result with more than nine digits behind the point. */
  lemma ManyDigitsMeans(j: nat, one: nat, hi: nat, delta: nat)
    requires one > 0 && j >= 10 && NoMultiple(0 - j + 1, one, hi, delta)
    ensures delta * Pow(10, 9) <= hi * Pow(10, 9) % one
  {
    FractionUnits(j - 1, one);
    hide Pow;
    var x := hi * Pow(10, j - 1);
    var m := x / one;
    assert x == m * one + x % one;
    assert !(x - delta * Pow(10, j - 1) < m * one <= x);
    if LeftBelow(hi, one, delta, 9) {
      StaysBelow(hi, one, delta, 9, j - 1);
    }
  }

  lemma OneBounds(n: nat)
    requires 32 <= n <= 60
    ensures HALF <= Pow(2, n) <= 0x1000_0000_0000_0000
  {
    hide Pow;
    SmallPowers();
    PowMonotone(2, 32, n);
    PowMonotone(2, n, 60);
    PowAdd(2, 8, 8);
    PowAdd(2, 16, 16);
    PowAdd(2, 32, 8);
    PowAdd(2, 40, 16);
    PowAdd(2, 56, 4);
  }

  lemma QuotientBelow(hi: U64, one: nat)
    requires one >= HALF
    ensures Shr(hi, one) < HALF
  {
    var q := hi / one;
    assert hi == q * one + hi % one;
    MulMonotoneNat(q, HALF, q, one);
  }

  lemma GeneratedLasts(s: seq<char>, kappa: nat, one: nat, hi: nat, delta: nat)
    requires one > 0 && Generated(s, kappa, one, hi, delta)
    ensures TableLasts(hi, one, delta)
  {
    hide TableLasts, Landed, NoMultiple;
    WholeLasts(NatOf(s), kappa, one, hi, delta);
  }

  lemma FractionLasts(s: seq<char>, j: nat, one: nat, hi: nat, delta: nat)
    requires one > 0 && Generated(s, 0 - j, one, hi, delta) && delta < Low(hi, one)
    requires LeftBelow(hi, one, delta, j)
    ensures j <= 9 <==> TableLasts(hi, one, delta)
  {
    hide Pow, Landed, NoMultiple;
    if j <= 9 {
      StaysBelow(hi, one, delta, j, 9);
    } else {
      ManyDigitsMeans(j, one, hi, delta);
    }
  }

  /**
   * DigitGen: a decimal D * 10^kappa in [Mp - delta, Mp], kappa added to K.  The function beyond gives whatever is
   * read behind the ten entries of kPow10.
   */
  method DigitGen(W: DiyFp, Mp: DiyFp, delta: U64, beyond: nat -> U64, buffer: array<char>, K0: int)
    returns (len: nat, K: int)
    requires -60 <= Mp.e <= -32 && W.e == Mp.e && Mp.f - delta <= W.f <= Mp.f
    requires 0 < delta < Mp.f && Pow(2, -Mp.e) <= Mp.f
    requires buffer.Length >= 29
    modifies buffer
    ensures 0 < len <= 29 && -19 <= K - K0 < 10
    ensures Generated(buffer[..len], K - K0, Pow(2, -Mp.e), Mp.f, delta)
    ensures K - K0 > -10 ==> Nearest(NatOf(buffer[..len]), K - K0, Pow(2, -Mp.e), Mp.f, delta, W.f)
    ensures Pow(2, -Mp.e) > 0 && (K - K0 >= -9 <==> TableLasts(Mp.f, Pow(2, -Mp.e), delta))
  {
    hide TableLasts;
    hide Generated;
    hide Nearest;
    hide InFraction;
    hide Pow;
    OneBounds(-Mp.e);
    var one: U64 := Pow(2, -Mp.e);
    QuotientBelow(Mp.f, one);
    var stopped, n, kappa, p2 := IntegralDigits(Mp.f, one, delta, W.f, buffer);
    if stopped {
      len, K := n, K0 + kappa;
      GeneratedLasts(buffer[..len], kappa, one, Mp.f, delta);
      return;
    }
    var j;
    len, j := FractionDigits(Mp.f, one, delta, W.f, beyond, buffer, n, p2);
    K := K0 - j;
    FractionLasts(buffer[..len], j, one, Mp.f, delta);
  }

  // ---------- the same promises about real numbers ----------

  lemma InverseTwo(e: int)
    requires e <= 0
    ensures Pow(2, -e) as real * Two(e) == 1.0
  {
    hide Two;
    TwoOfNat(-e);
    TwoSum(-e, e);
    TwoStep(0);
  }

  lemma InverseTen(k: int)
    requires k <= 0
    ensures Pow(10, -k) as real * Ten(k) == 1.0
  {
    hide Ten;
    TenOfNat(-k);
    TenSum(-k, k);
    TenStep(0);
  }

  /** Both sides of every comparison carry the same factor. */
  lemma CommonFactor(kappa: int, e: int, one: nat)
    requires e <= 0 && one == Pow(2, -e)
    ensures var f := (Scale(kappa) * one) as real;
      f > 0.0 && Unit(kappa, one) as real == Ten(kappa) * f && Scale(kappa) as real == Two(e) * f
  {
    hide Two;
    hide Ten;
    hide Pow;
    InverseTwo(e);
    PowPositive(2, -e);
    if kappa >= 0 {
      TenOfNat(kappa);
      assert (Pow(10, kappa) * one) as real == Pow(10, kappa) as real * one as real;
    } else {
      InverseTen(kappa);
      PowPositive(10, -kappa);
      Regroup(Ten(kappa), Scale(kappa), one, Two(e));
    }
  }

  lemma Regroup(t: real, p: nat, one: nat, z: real)
    requires p > 0 && one > 0 && p as real * t == 1.0 && one as real * z == 1.0
    ensures (p * one) as real > 0.0
    ensures one as real == t * (p * one) as real && p as real == z * (p * one) as real
  {
    assert (p * one) as real == p as real * one as real;
    assert t * (p as real * one as real) == p as real * t * one as real;
    assert z * (p as real * one as real) == one as real * z * p as real;
    assert p * one > 0;
  }

  /** c * 10^kappa <= x * 2^e, compared in whole numbers. */
  lemma CompareReal(c: nat, kappa: int, e: int, one: nat, x: int)
    requires e <= 0 && one == Pow(2, -e)
    ensures c * Unit(kappa, one) <= x * Scale(kappa) <==> DecimalReal(c, kappa) <= x as real * Two(e)
    ensures c * Unit(kappa, one) < x * Scale(kappa) <==> DecimalReal(c, kappa) < x as real * Two(e)
  {
    hide Two;
    hide Ten;
    hide Pow;
    hide Unit;
    hide Scale;
    CommonFactor(kappa, e, one);
    CancelFactor(c, Unit(kappa, one), x, Scale(kappa), Ten(kappa), Two(e), (Scale(kappa) * one) as real);
  }

  lemma CancelFactor(c: nat, u: nat, x: int, s: nat, t: real, z: real, f: real)
    requires f > 0.0 && u as real == t * f && s as real == z * f
    ensures c * u <= x * s <==> c as real * t <= x as real * z
    ensures c * u < x * s <==> c as real * t < x as real * z
  {
    var a, b := c as real * t, x as real * z;
    MulAssoc(c as real, t, f);
    MulAssoc(x as real, z, f);
    ScaledOrder(a, b, f);
    assert (c * u) as real == c as real * u as real;
    assert (x * s) as real == x as real * s as real;
  }

  lemma ScaledOrder(a: real, b: real, f: real)
    requires f > 0.0
    ensures a * f <= b * f <==> a <= b
    ensures a * f < b * f <==> a < b
  {
    if a < b {
      MulLess(a, b, f);
    } else if b < a {
      MulLess(b, a, f);
    }
  }

  lemma Distribute(hi: int, delta: int, s: nat)
    ensures hi * s - delta * s == (hi - delta) * s
  {}

  /** A generated decimal lies in the interval. */
  lemma GeneratedInside(s: seq<char>, kappa: int, e: int, hi: nat, delta: nat)
    requires e <= 0 && Generated(s, kappa, Pow(2, -e), hi, delta)
    ensures AllDigits(s) && s != [] && s[0] != '0'
    ensures (hi - delta) as real * Two(e) <= DecimalReal(NatOf(s), kappa) <= hi as real * Two(e)
  {
    hide Two;
    hide Pow;
    hide Unit;
    hide Scale;
    hide DecimalReal;
    hide NoMultiple;
    Distribute(hi, delta, Scale(kappa));
    CompareReal(NatOf(s), kappa, e, Pow(2, -e), hi);
    CompareReal(NatOf(s), kappa, e, Pow(2, -e), hi - delta);
  }

  /** No decimal with a larger exponent lies in the interval, left end excluded: none is shorter. */
  lemma GeneratedShortest(s: seq<char>, kappa: int, e: int, hi: nat, delta: nat, c: nat, k: int)
    requires e <= 0 && Generated(s, kappa, Pow(2, -e), hi, delta) && k > kappa
    ensures !((hi - delta) as real * Two(e) < DecimalReal(c, k) <= hi as real * Two(e))
  {
    hide Two;
    hide Unit;
    hide Scale;
    hide DecimalReal;
    var m := c * Pow(10, k - kappa - 1);
    Refine(c, k, kappa + 1);
    hide Pow;
    Distribute(hi, delta, Scale(kappa + 1));
    CompareReal(m, kappa + 1, e, Pow(2, -e), hi);
    CompareReal(m, kappa + 1, e, Pow(2, -e), hi - delta);
    assert NoMultiple(kappa + 1, Pow(2, -e), hi, delta);
  }

  lemma GapScaled(a: int, b: int, x: real, y: real, f: real)
    requires f > 0.0 && a as real == x * f && b as real == y * f
    ensures Gap(a, b) as real == Distance(x, y) * f
  {
    ScaledOrder(x, y, f);
  }

  lemma LandedReal(m: nat, kappa: int, e: int, hi: nat, delta: nat)
    requires e <= 0 && (hi - delta) as real * Two(e) <= DecimalReal(m, kappa) <= hi as real * Two(e)
    ensures Landed(m, kappa, Pow(2, -e), hi, delta)
  {
    hide Two, Pow, Unit, Scale, DecimalReal;
    Distribute(hi, delta, Scale(kappa));
    CompareReal(m, kappa, e, Pow(2, -e), hi);
    CompareReal(m, kappa, e, Pow(2, -e), hi - delta);
  }

  lemma DistanceFromGap(c: nat, m: nat, w: nat, u: nat, s: nat, t: real, z: real, f: real, x: real, x': real, y: real)
    requires f > 0.0 && u as real == t * f && s as real == z * f && Gap(c * u, w * s) <= Gap(m * u, w * s)
    requires x == c as real * t && x' == m as real * t && y == w as real * z
    ensures Distance(x, y) <= Distance(x', y)
  {
    hide Gap, Distance;
    InFactors(c, u, t, f);
    InFactors(m, u, t, f);
    InFactors(w, s, z, f);
    GapScaled(c * u, w * s, x, y, f);
    GapScaled(m * u, w * s, x', y, f);
    ScaledOrder(Distance(x, y), Distance(x', y), f);
  }

  /** Of the decimals with the same exponent in the interval none is nearer to w. */
  lemma NearestReal(c: nat, kappa: int, e: int, hi: nat, delta: nat, w: U64, m: nat)
    requires e <= 0 && Nearest(c, kappa, Pow(2, -e), hi, delta, w)
    requires (hi - delta) as real * Two(e) <= DecimalReal(m, kappa) <= hi as real * Two(e)
    ensures Distance(DecimalReal(c, kappa), Real(DiyFp(w, e))) <= Distance(DecimalReal(m, kappa), Real(DiyFp(w, e)))
  {
    hide Two, Ten, Pow, Unit, Scale, Gap, Distance, Landed;
    var one := Pow(2, -e);
    LandedReal(m, kappa, e, hi, delta);
    CommonFactor(kappa, e, one);
    DistanceFromGap(c, m, w, Unit(kappa, one), Scale(kappa), Ten(kappa), Two(e), (Scale(kappa) * one) as real,
                    DecimalReal(c, kappa), DecimalReal(m, kappa), Real(DiyFp(w, e)));
  }

  lemma InFactors(c: nat, u: nat, t: real, f: real)
    requires u as real == t * f
    ensures (c * u) as real == c as real * t * f
  {
    assert (c * u) as real == c as real * u as real;
    MulAssoc(c as real, t, f);
  }

  lemma ConcretePowers()
    ensures Pow(2, 51) == 0x8_0000_0000_0000 && Pow(10, 9) == 1_000_000_000
  {
    PowerEntryIsPower(9);
    hide Pow;
    SmallPowers();
    PowAdd(2, 8, 8);
    PowAdd(2, 16, 16);
    PowAdd(2, 32, 16);
    PowAdd(2, 1, 1);
    PowAdd(2, 48, 2);
    PowAdd(2, 50, 1);
  }

  /**
   * The table of ten powers is too short.  These are the arguments that Grisu2 passes for 1/3 (bits
   * 0x3fd5555555555555): more than nine digits behind the point are needed, so DigitGen evaluates kPow10[-kappa] with
   * an index above 9.
   */
  lemma OneThirdLeavesTable()
    ensures Pow(2, 51) > 0 && !TableLasts(7505999378950826874, Pow(2, 51), 1248)
  {
    hide Pow;
    ConcretePowers();
  }
}
