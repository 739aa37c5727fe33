/** Strings of decimal digits and the numbers they denote. */
module Decimal {
  import opened Arith

  predicate IsDigit(c: char) {
    '0' <= c <= '9'
  }

  predicate AllDigits(s: seq<char>) {
    forall i :: 0 <= i < |s| ==> IsDigit(s[i])
  }

  function DigitValue(c: char): (d: nat)
    requires IsDigit(c)
    ensures d < 10
  {
    c as int - '0' as int
  }

  function DigitChar(d: nat): (c: char)
    requires d < 10
    ensures IsDigit(c) && DigitValue(c) == d
  {
    '0' + d as char
  }

  /** The number that a string of digits denotes, most significant digit first. */
  function NatOf(s: seq<char>): nat
    requires AllDigits(s)
  {
    if s == [] then 0 else 10 * NatOf(s[..|s| - 1]) + DigitValue(s[|s| - 1])
  }

  lemma NatOfPush(s: seq<char>, c: char)
    requires AllDigits(s) && IsDigit(c)
    ensures AllDigits(s + [c]) && NatOf(s + [c]) == 10 * NatOf(s) + DigitValue(c)
  {
    assert (s + [c])[..|s|] == s;
  }

  /** Lowering the last digit lowers the number. */
  lemma NatOfLower(s: seq<char>, c: char)
    requires AllDigits(s) && s != [] && IsDigit(c)
    ensures var t := s[|s| - 1 := c];
      AllDigits(t) && NatOf(t) == NatOf(s) - DigitValue(s[|s| - 1]) + DigitValue(c)
  {
    var t := s[|s| - 1 := c];
    assert t[..|t| - 1] == s[..|s| - 1];
  }

  lemma {:induction false} NatOfConcat(s: seq<char>, t: seq<char>)
    requires AllDigits(s) && AllDigits(t)
    ensures AllDigits(s + t) && NatOf(s + t) == NatOf(s) * Pow(10, |t|) + NatOf(t)
  {
    if t == [] {
      assert s + t == s;
    } else {
      var t' := t[..|t| - 1];
      NatOfConcat(s, t');
      assert s + t == (s + t') + [t[|t| - 1]];
      NatOfPush(s + t', t[|t| - 1]);
      Shift(NatOf(s), Pow(10, |t'|));
    }
  }

  lemma Shift(n: nat, p: nat)
    ensures 10 * (n * p) == n * (10 * p)
  {}

  /** n digits denote a number below 10^n, and at least 10^(n-1) when the first is not zero. */
  lemma {:induction false} NatOfBounds(s: seq<char>)
    requires AllDigits(s)
    ensures NatOf(s) < Pow(10, |s|)
    ensures s != [] && s[0] != '0' ==> NatOf(s) >= Pow(10, |s| - 1)
  {
    if s != [] {
      var t := s[..|s| - 1];
      NatOfBounds(t);
      if t != [] {
        assert t[0] == s[0];
        assert Pow(10, |s| - 1) == 10 * Pow(10, |t| - 1);
      }
    }
  }

  /** c * 10^k */
  ghost function DecimalReal(c: nat, k: int): real {
    c as real * Ten(k)
  }

  /** Zeros moved from the exponent into the digits change nothing. */
  lemma Refine(c: nat, k: int, k': int)
    requires k' <= k
    ensures DecimalReal(c, k) == DecimalReal(c * Pow(10, k - k'), k')
  {
    hide Ten;
    hide Pow;
    TenOfNat(k - k');
    TenSum(k - k', k');
    assert (c * Pow(10, k - k')) as real == c as real * Pow(10, k - k') as real;
    MulAssoc(c as real, Ten(k - k'), Ten(k'));
  }

  /** n zeros. */
  function Zeros(n: nat): (s: seq<char>)
    ensures |s| == n && AllDigits(s) && NatOf(s) == 0
  {
    if n == 0 then [] else
      NatOfPush(Zeros(n - 1), '0');
      Zeros(n - 1) + ['0']
  }

  lemma NatOfLeadingZeros(n: nat, s: seq<char>)
    requires AllDigits(s)
    ensures AllDigits(Zeros(n) + s) && NatOf(Zeros(n) + s) == NatOf(s)
  {
    NatOfConcat(Zeros(n), s);
  }

  lemma NatOfTrailingZeros(s: seq<char>, n: nat)
    requires AllDigits(s)
    ensures AllDigits(s + Zeros(n)) && NatOf(s + Zeros(n)) == NatOf(s) * Pow(10, n)
  {
    NatOfConcat(s, Zeros(n));
  }
}
