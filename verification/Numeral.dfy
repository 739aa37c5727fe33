/**
 * Reading decimal numerals: digits, an optional point followed by digits, an optional 'e' followed by an optionally
 * negative integer.  This is the reference against which the printed texts are judged.
 */
module Numeral {
  import opened Arith
  import opened Decimal

  /** The position of the first c in s, or the length of s. */
  function Find(s: seq<char>, c: char): (i: nat)
    ensures i <= |s| && c !in s[..i] && (i < |s| ==> s[i] == c)
  {
    if s == [] || s[0] == c then 0 else
      var i := 1 + Find(s[1..], c);
      assert s[..i] == [s[0]] + s[1..][..i - 1];
      i
  }

  lemma FindFirst(a: seq<char>, c: char, b: seq<char>)
    requires c !in a
    ensures Find(a + [c] + b, c) == |a|
  {
    var s := a + [c] + b;
    var i := Find(s, c);
    assert s[|a|] == c;
  }

  lemma FindNone(a: seq<char>, c: char)
    requires c !in a
    ensures Find(a, c) == |a|
  {
  }

  /** An optionally negative integer. */
  predicate IsInteger(s: seq<char>) {
    s != [] && (if s[0] == '-' then |s| > 1 && AllDigits(s[1..]) else AllDigits(s))
  }

  function ReadInteger(s: seq<char>): int
    requires IsInteger(s)
  {
    if s[0] == '-' then 0 - NatOf(s[1..]) else NatOf(s)
  }

  function Mantissa(s: seq<char>): seq<char> {
    s[..Find(s, 'e')]
  }

  /** The digits of the mantissa, without the point. */
  function Digits(m: seq<char>): seq<char> {
    var p := Find(m, '.');
    if p < |m| then m[..p] + m[p + 1..] else m
  }

  /** How many of them stand behind the point. */
  function FractionLength(m: seq<char>): nat {
    var p := Find(m, '.');
    if p < |m| then |m| - p - 1 else 0
  }

  predicate IsNumeral(s: seq<char>) {
    var p := Find(s, 'e');
    && Digits(Mantissa(s)) != [] && AllDigits(Digits(Mantissa(s)))
    && (p < |s| ==> IsInteger(s[p + 1..]))
  }

  /** The number that an unsigned numeral denotes. */
  ghost function ReadNumeral(s: seq<char>): real
    requires IsNumeral(s)
  {
    var p, m := Find(s, 'e'), Mantissa(s);
    var exponent := if p < |s| then ReadInteger(s[p + 1..]) else 0;
    DecimalReal(NatOf(Digits(m)), exponent - FractionLength(m))
  }

  lemma SplitPoint(a: seq<char>, b: seq<char>)
    requires AllDigits(a) && AllDigits(b)
    ensures var m := a + ['.'] + b;
      'e' !in m && Digits(m) == a + b && AllDigits(a + b) && FractionLength(m) == |b|
  {
    hide Find;
    var m := a + ['.'] + b;
    FindFirst(a, '.', b);
    assert m[..|a|] == a && m[|a| + 1..] == b;
  }

  lemma SplitExponent(m: seq<char>, x: seq<char>)
    requires 'e' !in m
    ensures var s := m + ['e'] + x;
      Find(s, 'e') == |m| && Mantissa(s) == m && s[|m| + 1..] == x
  {
    hide Find;
    FindFirst(m, 'e', x);
  }

  /** A numeral with a point and no exponent. */
  lemma ReadPoint(a: seq<char>, b: seq<char>)
    requires AllDigits(a) && AllDigits(b) && a + b != []
    ensures IsNumeral(a + ['.'] + b)
    ensures ReadNumeral(a + ['.'] + b) == DecimalReal(NatOf(a + b), 0 - |b|)
  {
    hide DecimalReal;
    hide Find;
    hide Digits;
    hide FractionLength;
    hide NatOf;
    var s := a + ['.'] + b;
    SplitPoint(a, b);
    FindNone(s, 'e');
    assert Mantissa(s) == s;
  }

  /** A numeral with an exponent. */
  lemma ReadExponentForm(m: seq<char>, x: seq<char>)
    requires 'e' !in m && Digits(m) != [] && AllDigits(Digits(m)) && IsInteger(x)
    ensures IsNumeral(m + ['e'] + x)
    ensures ReadNumeral(m + ['e'] + x) == DecimalReal(NatOf(Digits(m)), ReadInteger(x) - FractionLength(m))
  {
    hide DecimalReal;
    hide Find;
    hide Digits;
    hide FractionLength;
    hide Mantissa;
    hide NatOf;
    hide AllDigits;
    hide IsInteger;
    hide ReadInteger;
    SplitExponent(m, x);
  }

  lemma ReadScaled(a: seq<char>, x: seq<char>)
    requires AllDigits(a) && a != [] && IsInteger(x)
    ensures IsNumeral(a + ['e'] + x)
    ensures ReadNumeral(a + ['e'] + x) == DecimalReal(NatOf(a), ReadInteger(x))
  {
    hide IsNumeral;
    hide ReadNumeral;
    hide IsInteger;
    hide Find;
    hide DecimalReal;
    hide NatOf;
    FindNone(a, '.');
    assert Digits(a) == a && FractionLength(a) == 0;
    ReadExponentForm(a, x);
  }

  lemma ReadPointScaled(a: seq<char>, b: seq<char>, x: seq<char>)
    requires AllDigits(a) && AllDigits(b) && a + b != [] && IsInteger(x)
    ensures IsNumeral(a + ['.'] + b + ['e'] + x)
    ensures ReadNumeral(a + ['.'] + b + ['e'] + x) == DecimalReal(NatOf(a + b), ReadInteger(x) - |b|)
  {
    hide IsNumeral;
    hide ReadNumeral;
    hide IsInteger;
    hide Digits;
    hide FractionLength;
    hide DecimalReal;
    hide NatOf;
    SplitPoint(a, b);
    ReadExponentForm(a + ['.'] + b, x);
  }
}
