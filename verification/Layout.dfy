/**
 * The layout of a printed double (WriteExponent, Prettify and dtoa_grisu2 of common/string.hpp): whatever form is
 * chosen, reading the text back gives exactly the number printed, and hence the double it came from.
 */
module Layout {
  import opened Arith
  import opened Decimal
  import opened Numeral
  import opened DiyFps
  import opened CachedPowers
  import opened Grisu
  import opened Notation

  // ---------- the texts ----------

  /** Two digits of the table of digit pairs. */
  function DigitPair(n: nat): (s: seq<char>)
    requires n < 100
    ensures |s| == 2 && AllDigits(s)
  {
    [DigitChar(n / 10), DigitChar(n % 10)]
  }

  /** The exponent as WriteExponent prints it. */
  function ExponentText(k: int): (s: seq<char>)
    requires -1000 < k < 1000
    ensures 0 < |s| <= 4
  {
    var n := if k < 0 then -k else k;
    (if k < 0 then "-" else "")
    + (if n >= 100 then [DigitChar(n / 100)] + DigitPair(n % 100)
       else if n >= 10 then DigitPair(n)
       else [DigitChar(n)])
  }

  /** The five forms of Prettify for digits d and decimal exponent k. */
  function Text(d: seq<char>, k: int): seq<char>
    requires d != [] && -1000 < |d| + k - 1 < 1000
  {
    var kk := |d| + k;
    if |d| <= kk <= 21 then d + Zeros(k) + ['.'] + ['0']
    else if 0 < kk <= 21 then d[..kk] + ['.'] + d[kk..]
    else if -6 < kk <= 0 then ['0'] + ['.'] + (Zeros(-kk) + d)
    else if |d| == 1 then d + ['e'] + ExponentText(kk - 1)
    else d[..1] + ['.'] + d[1..] + ['e'] + ExponentText(kk - 1)
  }

  lemma NatOfOne(c: char)
    requires IsDigit(c)
    ensures NatOf([c]) == DigitValue(c)
  {
    NatOfPush([], c);
  }

  lemma NatOfPair(n: nat)
    requires n < 100
    ensures NatOf(DigitPair(n)) == n
  {
    NatOfOne(DigitChar(n / 10));
    NatOfPush([DigitChar(n / 10)], DigitChar(n % 10));
  }

  lemma NatOfTriple(n: nat)
    requires n < 1000
    ensures AllDigits([DigitChar(n / 100)] + DigitPair(n % 100))
    ensures NatOf([DigitChar(n / 100)] + DigitPair(n % 100)) == n
  {
    NatOfPair(n % 100);
    NatOfOne(DigitChar(n / 100));
    NatOfConcat([DigitChar(n / 100)], DigitPair(n % 100));
  }

  /** The exponent reads back. */
  lemma ReadExponentText(k: int)
    requires -1000 < k < 1000
    ensures IsInteger(ExponentText(k)) && ReadInteger(ExponentText(k)) == k
  {
    var n := if k < 0 then -k else k;
    var s := if n >= 100 then [DigitChar(n / 100)] + DigitPair(n % 100)
             else if n >= 10 then DigitPair(n)
             else [DigitChar(n)];
    if n >= 100 { NatOfTriple(n); } else if n >= 10 { NatOfPair(n); } else { NatOfOne(DigitChar(n)); }
    assert AllDigits(s) && NatOf(s) == n;
    hide DigitPair;
    hide NatOf;
    if k < 0 {
      assert ExponentText(k) == ['-'] + s;
      assert (['-'] + s)[1..] == s;
    } else {
      assert ExponentText(k) == s;
      assert IsDigit(s[0]);
    }
  }

  lemma ReadFraction(d: seq<char>, z: nat)
    requires d != [] && AllDigits(d)
    ensures var s := ['0'] + ['.'] + (Zeros(z) + d);
      IsNumeral(s) && ReadNumeral(s) == DecimalReal(NatOf(d), 0 - (z + |d|))
  {
    hide IsNumeral;
    hide ReadNumeral;
    hide NatOf;
    hide DecimalReal;
    var t := Zeros(z) + d;
    assert Zeros(1) == ['0'];
    hide Zeros;
    NatOfLeadingZeros(z, d);
    NatOfLeadingZeros(1, t);
    ReadPoint(['0'], t);
  }

  lemma ReadInside(d: seq<char>, kk: nat)
    requires AllDigits(d) && 0 < kk <= |d|
    ensures var s := d[..kk] + ['.'] + d[kk..];
      IsNumeral(s) && ReadNumeral(s) == DecimalReal(NatOf(d), kk - |d|)
  {
    hide IsNumeral;
    hide ReadNumeral;
    hide NatOf;
    hide DecimalReal;
    ReadPoint(d[..kk], d[kk..]);
    assert d[..kk] + d[kk..] == d;
  }

  lemma ReadScientific(d: seq<char>, k: int)
    requires d != [] && AllDigits(d) && -1000 < k < 1000
    ensures var s := if |d| == 1 then d + ['e'] + ExponentText(k) else d[..1] + ['.'] + d[1..] + ['e'] + ExponentText(k);
      IsNumeral(s) && ReadNumeral(s) == DecimalReal(NatOf(d), k - (|d| - 1))
  {
    hide IsNumeral;
    hide ReadNumeral;
    hide NatOf;
    hide DecimalReal;
    hide ExponentText;
    hide IsInteger;
    hide ReadInteger;
    ReadExponentText(k);
    if |d| == 1 {
      ReadScaled(d, ExponentText(k));
    } else {
      ReadPointScaled(d[..1], d[1..], ExponentText(k));
      assert d[..1] + d[1..] == d;
    }
  }

  lemma TextForms(d: seq<char>, k: int)
    requires d != [] && -1000 < |d| + k - 1 < 1000
    ensures var kk, t := |d| + k, Text(d, k);
      && (|d| <= kk <= 21 ==> t == d + Zeros(k) + ['.'] + ['0'])
      && (kk < |d| && 0 < kk <= 21 ==> t == d[..kk] + ['.'] + d[kk..])
      && (-6 < kk <= 0 ==> t == ['0'] + ['.'] + (Zeros(-kk) + d))
      && (kk <= -6 || 21 < kk ==>
          t == if |d| == 1 then d + ['e'] + ExponentText(kk - 1) else d[..1] + ['.'] + d[1..] + ['e'] + ExponentText(kk - 1))
  {}

  /** Prettify preserves meaning: the text denotes d * 10^k. */
  lemma ReadText(d: seq<char>, k: int)
    requires d != [] && AllDigits(d) && -1000 < |d| + k - 1 < 1000
    ensures IsNumeral(Text(d, k)) && ReadNumeral(Text(d, k)) == DecimalReal(NatOf(d), k)
  {
    hide *;
    TextForms(d, k);
    var kk := |d| + k;
    if |d| <= kk <= 21 {
      ReadPlain(d, k);
    } else if 0 < kk <= 21 {
      ReadInside(d, kk);
    } else if -6 < kk <= 0 {
      ReadFraction(d, -kk);
    } else {
      ReadScientific(d, kk - 1);
    }
  }

  lemma ReadPlain(d: seq<char>, k: nat)
    requires d != [] && AllDigits(d)
    ensures var s := d + Zeros(k) + ['.'] + ['0'];
      IsNumeral(s) && ReadNumeral(s) == DecimalReal(NatOf(d), k)
  {
    hide IsNumeral;
    hide ReadNumeral;
    hide NatOf;
    hide DecimalReal;
    NatOfTrailingZeros(d, k);
    NatOfTrailingZeros(d, k + 1);
    assert d + Zeros(k) + ['0'] == d + Zeros(k + 1);
    ReadPoint(d + Zeros(k), ['0']);
    Refine(NatOf(d), k, -1);
  }

  // ---------- their shape ----------

  /** An integer without superfluous zeros. */
  predicate IsPlainInteger(s: seq<char>) {
    IsInteger(s) && (s == "0" || (if s[0] == '-' then s[1] else s[0]) != '0')
  }

  /**
   * What a text for a decimal exponent K looks like.  Without an exponent: a point with digits on both sides, as many
   * behind it as K asks for, or one zero, and no superfluous zero in front.  With one: a single digit in front of the
   * point or of the 'e', not zero, and an exponent without superfluous zeros.
   */
  predicate Shape(t: seq<char>, K: int, scientific: bool) {
    if scientific then
      var m, p := Mantissa(t), Find(t, 'e');
      && 0 < p < |t| && IsPlainInteger(t[p + 1..]) && K == ReadInteger(t[p + 1..]) - FractionLength(m)
      && t[0] != '0' && (p == 1 || (p >= 3 && Find(m, '.') == 1))
    else
      var p := Find(t, '.');
      && 'e' !in t && 0 < p < |t| && (p == 1 || t[0] != '0')
      && (if K < 0 then |t| - p - 1 == -K else t[p + 1..] == "0")
  }

  lemma PlainShape(a: seq<char>, b: seq<char>, K: int)
    requires AllDigits(a) && AllDigits(b) && a != [] && (|a| == 1 || a[0] != '0')
    requires if K < 0 then |b| == -K else b == "0"
    ensures Shape(a + ['.'] + b, K, false)
  {
    hide Find;
    FindFirst(a, '.', b);
    assert (a + ['.'] + b)[|a| + 1..] == b;
  }

  lemma ExponentIsPlain(k: int)
    requires -1000 < k < 1000
    ensures IsPlainInteger(ExponentText(k))
  {
    hide NatOf;
    ReadExponentText(k);
  }

  lemma ScientificShape(m: seq<char>, n: nat, k: int)
    requires 'e' !in m && m != [] && m[0] != '0' && -1000 < k < 1000 && FractionLength(m) == n
    requires |m| == 1 || (|m| >= 3 && Find(m, '.') == 1)
    ensures Shape(m + ['e'] + ExponentText(k), k - n, true)
  {
    hide Find, ExponentText, IsPlainInteger, FractionLength;
    SplitExponent(m, ExponentText(k));
    ExponentIsPlain(k);
    ReadExponentText(k);
  }

  lemma PointAfterOne(d: seq<char>)
    requires |d| > 1 && AllDigits(d)
    ensures var m := d[..1] + ['.'] + d[1..];
      'e' !in m && FractionLength(m) == |d| - 1 && Find(m, '.') == 1 && |m| >= 3 && m[0] == d[0]
  {
    hide Find;
    SplitPoint(d[..1], d[1..]);
    FindFirst(d[..1], '.', d[1..]);
  }

  lemma NoPoint(d: seq<char>)
    requires AllDigits(d)
    ensures 'e' !in d && FractionLength(d) == 0
  {
    hide Find;
    FindNone(d, '.');
  }

  lemma ShapeFilled(d: seq<char>, k: nat)
    requires d != [] && AllDigits(d) && d[0] != '0'
    ensures Shape(d + Zeros(k) + ['.'] + ['0'], k, false)
  {
    hide NatOf, Shape;
    PlainShape(d + Zeros(k), ['0'], k);
  }

  lemma ShapeInside(d: seq<char>, kk: nat)
    requires 0 < kk < |d| && AllDigits(d) && d[0] != '0'
    ensures Shape(d[..kk] + ['.'] + d[kk..], kk - |d|, false)
  {
    hide NatOf, Shape;
    PlainShape(d[..kk], d[kk..], kk - |d|);
  }

  lemma ShapeFraction(d: seq<char>, z: nat)
    requires AllDigits(d) && d != []
    ensures Shape(['0'] + ['.'] + (Zeros(z) + d), 0 - (z + |d|), false)
  {
    hide NatOf, Shape;
    PlainShape(['0'], Zeros(z) + d, 0 - (z + |d|));
  }

  lemma ShapeScientific(d: seq<char>, k: int)
    requires d != [] && AllDigits(d) && d[0] != '0' && -1000 < k < 1000
    ensures var s := if |d| == 1 then d + ['e'] + ExponentText(k) else d[..1] + ['.'] + d[1..] + ['e'] + ExponentText(k);
      Shape(s, k - (|d| - 1), true)
  {
    hide ExponentText, Shape, FractionLength, Find, NatOf;
    if |d| == 1 {
      NoPoint(d);
      ScientificShape(d, 0, k);
    } else {
      PointAfterOne(d);
      ScientificShape(d[..1] + ['.'] + d[1..], |d| - 1, k);
    }
  }

  /** The text has the shape for its exponent, with an 'e' exactly outside the limits of Prettify. */
  lemma TextShape(d: seq<char>, k: int)
    requires d != [] && AllDigits(d) && d[0] != '0' && -1000 < |d| + k - 1 < 1000
    ensures Shape(Text(d, k), k, !(-6 < |d| + k <= 21))
  {
    hide *;
    TextForms(d, k);
    var kk := |d| + k;
    if |d| <= kk <= 21 {
      ShapeFilled(d, k);
    } else if 0 < kk <= 21 {
      ShapeInside(d, kk);
    } else if -6 < kk <= 0 {
      ShapeFraction(d, -kk);
    } else {
      ShapeScientific(d, kk - 1);
    }
  }

  /** n digits and an exponent k, without leading zero: from 10^(n+k-1) up to below 10^(n+k). */
  lemma Decade(d: seq<char>, k: int)
    requires d != [] && AllDigits(d) && d[0] != '0'
    ensures Ten(|d| + k - 1) <= DecimalReal(NatOf(d), k) < Ten(|d| + k)
  {
    hide Ten, NatOf, Pow;
    NatOfBounds(d);
    TenOfNat(|d|);
    TenOfNat(|d| - 1);
    TenSum(|d|, k);
    TenSum(|d| - 1, k);
    ScaledBetween(Ten(|d| - 1), NatOf(d) as real, Ten(|d|), Ten(k),
                  Ten(|d| + k - 1), DecimalReal(NatOf(d), k), Ten(|d| + k));
  }

  lemma ScaledBetween(a: real, b: real, c: real, t: real, at: real, bt: real, ct: real)
    requires t > 0.0 && a <= b < c && at == a * t && bt == b * t && ct == c * t
    ensures at <= bt < ct
  {
    MulAtMost(a, b, t);
    MulLess(b, c, t);
  }

  /** The limits in terms of the number. */
  lemma LimitsExactly(d: seq<char>, k: int)
    requires d != [] && AllDigits(d) && d[0] != '0'
    ensures -6 < |d| + k <= 21 <==> Ten(-6) <= DecimalReal(NatOf(d), k) < Ten(21)
  {
    hide Ten, NatOf, DecimalReal;
    Decade(d, k);
    var kk := |d| + k;
    if kk <= -6 {
      TenMonotone(kk, -6);
    } else {
      TenMonotone(-6, kk - 1);
    }
    if kk <= 21 {
      TenMonotone(kk, 21);
    } else {
      TenMonotone(21, kk - 1);
    }
  }

  // ---------- writing them in place ----------

  /** memmove: the blocks may overlap. */
  method MemMove(buffer: array<char>, to: nat, from: nat, n: nat)
    requires to + n <= buffer.Length && from + n <= buffer.Length
    modifies buffer
    ensures buffer[to..to + n] == old(buffer[from..from + n])
    ensures forall i :: 0 <= i < buffer.Length && !(to <= i < to + n) ==> buffer[i] == old(buffer[i])
  {
    var block := buffer[from..from + n];
    forall i | 0 <= i < n {
      buffer[to + i] := block[i];
    }
  }

  /** WriteExponent at position at, with the terminating zero. */
  method WriteExponent(k: int, buffer: array<char>, at: nat)
    requires -1000 < k < 1000 && at + |ExponentText(k)| < buffer.Length
    modifies buffer
    ensures buffer[..at] == old(buffer[..at])
    ensures buffer[at..at + |ExponentText(k)|] == ExponentText(k)
    ensures buffer[at + |ExponentText(k)|] == '\0'
  {
    hide NatOf, AllDigits;
    var p, n := at, k;
    if n < 0 {
      buffer[p] := '-';
      p, n := p + 1, -n;
    }
    if n >= 100 {
      buffer[p] := DigitChar(n / 100);
      n := n % 100;
      buffer[p + 1] := DigitPair(n)[0];
      buffer[p + 2] := DigitPair(n)[1];
      p := p + 3;
    } else if n >= 10 {
      buffer[p] := DigitPair(n)[0];
      buffer[p + 1] := DigitPair(n)[1];
      p := p + 2;
    } else {
      buffer[p] := DigitChar(n);
      p := p + 1;
    }
    buffer[p] := '\0';
  }

  lemma {:induction false} ZerosAre(s: seq<char>)
    requires forall i :: 0 <= i < |s| ==> s[i] == '0'
    ensures s == Zeros(|s|)
  {
    hide NatOf, AllDigits;
    if s != [] {
      ZerosAre(s[..|s| - 1]);
      assert s == s[..|s| - 1] + ['0'];
    }
  }

  /** The loops of Prettify that write zeros. */
  method FillZeros(buffer: array<char>, from: nat, to: nat)
    requires from <= to <= buffer.Length
    modifies buffer
    ensures buffer[from..to] == Zeros(to - from)
    ensures forall i :: 0 <= i < buffer.Length && !(from <= i < to) ==> buffer[i] == old(buffer[i])
  {
    for i := from to to
      invariant forall j :: from <= j < i ==> buffer[j] == '0'
      invariant forall j :: 0 <= j < buffer.Length && !(from <= j < i) ==> buffer[j] == old(buffer[j])
    {
      buffer[i] := '0';
    }
    ZerosAre(buffer[from..to]);
  }

  // The branches of Prettify, one method each.

  /** 1234e7 becomes 12340000000.0 */
  method AppendZeros(buffer: array<char>, length: nat, kk: nat)
    requires length <= kk && kk + 2 < buffer.Length
    modifies buffer
    ensures buffer[..kk + 2] == old(buffer[..length]) + Zeros(kk - length) + ['.'] + ['0'] && buffer[kk + 2] == '\0'
  {
    hide Zeros;
    ghost var d := buffer[..length];
    FillZeros(buffer, length, kk);
    assert buffer[..kk] == d + Zeros(kk - length);
    buffer[kk] := '.';
    buffer[kk + 1] := '0';
    buffer[kk + 2] := '\0';
    assert buffer[..kk] == d + Zeros(kk - length);
  }

  /** 1234e-2 becomes 12.34 */
  method InsertPoint(buffer: array<char>, length: nat, kk: nat)
    requires 0 < kk < length && length + 1 < buffer.Length
    modifies buffer
    ensures buffer[..length + 1] == old(buffer[..kk]) + ['.'] + old(buffer[kk..length]) && buffer[length + 1] == '\0'
  {
    ghost var d := buffer[..length];
    MemMove(buffer, kk + 1, kk, length - kk);
    buffer[kk] := '.';
    buffer[length + 1] := '\0';
    assert buffer[kk + 1..length + 1] == d[kk..];
  }

  lemma Pieces(s: seq<char>, i: nat, j: nat, n: nat)
    requires i <= j <= n <= |s|
    ensures s[..n] == s[..i] + (s[i..j] + s[j..n])
  {}

  /** 1234e-6 becomes 0.001234 */
  method PrependZeros(buffer: array<char>, length: nat, kk: int)
    requires kk <= 0 && length + 2 - kk < buffer.Length && length <= buffer.Length
    modifies buffer
    ensures var n := length + 2 - kk;
      buffer[..n] == ['0'] + ['.'] + (Zeros(-kk) + old(buffer[..length])) && buffer[n] == '\0'
  {
    hide Zeros;
    ghost var d := buffer[..length];
    var offset := 2 - kk;
    MemMove(buffer, offset, 0, length);
    buffer[0] := '0';
    buffer[1] := '.';
    FillZeros(buffer, 2, offset);
    buffer[length + offset] := '\0';
    ghost var b := buffer[..];
    assert b[..2] == ['0'] + ['.'];
    assert b[2..offset] == Zeros(-kk);
    assert b[offset..length + offset] == d;
    Pieces(b, 2, offset, length + offset);
    assert buffer[..length + offset] == b[..length + offset];
  }

  /** 1e30 */
  method ScientificOne(buffer: array<char>, e: int)
    requires -1000 < e < 1000 && 2 + |ExponentText(e)| < buffer.Length
    modifies buffer
    ensures var s := old(buffer[..1]) + ['e'] + ExponentText(e); buffer[..|s|] == s && buffer[|s|] == '\0'
  {
    hide ExponentText;
    ghost var d := buffer[..1];
    buffer[1] := 'e';
    assert buffer[..2] == d + ['e'];
    WriteExponent(e, buffer, 2);
    assert buffer[..2 + |ExponentText(e)|] == buffer[..2] + buffer[2..2 + |ExponentText(e)|];
  }

  /** 1234e30 becomes 1.234e33 */
  method ScientificPoint(buffer: array<char>, length: nat, e: int)
    requires 1 < length && -1000 < e < 1000 && length + 2 + |ExponentText(e)| < buffer.Length
    modifies buffer
    ensures var d := old(buffer[..length]);
      var s := d[..1] + ['.'] + d[1..] + ['e'] + ExponentText(e);
      buffer[..|s|] == s && buffer[|s|] == '\0'
  {
    hide ExponentText;
    ghost var d := buffer[..length];
    MemMove(buffer, 2, 1, length - 1);
    buffer[1] := '.';
    buffer[length + 1] := 'e';
    assert buffer[2..length + 1] == d[1..];
    assert buffer[..length + 2] == d[..1] + ['.'] + d[1..] + ['e'];
    WriteExponent(e, buffer, length + 2);
    ghost var n := length + 2;
    assert buffer[..n + |ExponentText(e)|] == buffer[..n] + buffer[n..n + |ExponentText(e)|];
  }

  /** Prettify: turns the digits at the start of the buffer into the text, in place. */
  method Prettify(buffer: array<char>, length: nat, k: int)
    requires 0 < length <= buffer.Length && -1000 < length + k - 1 < 1000
    requires |Text(buffer[..length], k)| < buffer.Length
    modifies buffer
    ensures var text := Text(old(buffer[..length]), k);
      buffer[..|text|] == text && buffer[|text|] == '\0'
  {
    hide Zeros, ExponentText, Text;
    TextForms(buffer[..length], k);
    var kk := length + k;
    if length <= kk && kk <= 21 {
      AppendZeros(buffer, length, kk);
    } else if 0 < kk && kk <= 21 {
      InsertPoint(buffer, length, kk);
    } else if -6 < kk && kk <= 0 {
      PrependZeros(buffer, length, kk);
    } else if length == 1 {
      ScientificOne(buffer, kk - 1);
    } else {
      ScientificPoint(buffer, length, kk - 1);
    }
  }

  // ---------- dtoa_grisu2 ----------

  lemma TextLength(d: seq<char>, k: int)
    requires 0 < |d| <= 29 && -1000 < |d| + k - 1 < 1000
    ensures |Text(d, k)| < 47
  {}

  /** The magnitude of a double: its bits without the sign. */
  function Magnitude(bits: U64): U64 {
    bits % (WORD / 2)
  }

  predicate IsNegative(bits: U64) {
    bits >= WORD / 2
  }

  /** A text nearer to the double with these positive bits than to any other that is not negative. */
  ghost predicate ReadsPositive(text: seq<char>, u: U64) {
    && IsNumeral(text)
    && forall w: U64 :: w <= INFINITY && w != u ==>
         Distance(ReadNumeral(text), Value(u)) < Distance(ReadNumeral(text), Value(w))
  }

  ghost function DoubleValue(bits: U64): real {
    if IsNegative(bits) then -Value(Magnitude(bits)) else Value(Magnitude(bits))
  }

  /** A numeral with an optional sign. */
  predicate IsSigned(text: seq<char>) {
    text != [] && IsNumeral(if text[0] == '-' then text[1..] else text)
  }

  ghost function ReadSigned(text: seq<char>): real
    requires IsSigned(text)
  {
    if text[0] == '-' then -ReadNumeral(text[1..]) else ReadNumeral(text)
  }

  /** A text that reads back as a double: nearer to it than to every double of another value, of either sign. */
  ghost predicate ReadsBack(text: seq<char>, bits: U64) {
    && IsSigned(text)
    && forall w: U64 :: Magnitude(w) <= INFINITY && DoubleValue(w) != DoubleValue(bits) ==>
         Distance(ReadSigned(text), DoubleValue(bits)) < Distance(ReadSigned(text), DoubleValue(w))
  }

  lemma ZeroValue()
    ensures Value(0) == 0.0
  {
    hide Two;
  }

  lemma ValueNotNegative(u: U64)
    ensures Value(u) >= 0.0
  {
    hide Two, FromBits;
    var x := FromBits(u);
    MulAtMost(0.0, x.f as real, Two(x.e));
  }

  /** Nearest among the doubles of one sign is nearest among all. */
  lemma NearestOfBothSigns(x: real, u: U64, w: U64)
    requires 0 < u < INFINITY && w <= INFINITY
    requires forall z: U64 :: z <= INFINITY && z != u ==> Distance(x, Value(u)) < Distance(x, Value(z))
    ensures Distance(x, Value(u)) < Distance(x, -Value(w))
    ensures w != u ==> Distance(-x, -Value(u)) < Distance(-x, -Value(w))
    ensures Distance(-x, -Value(u)) < Distance(-x, Value(w))
  {
    ZeroValue();
    hide Value;
    ValueNotNegative(u);
    ValueNotNegative(w);
    assert Distance(x, Value(u)) < Distance(x, Value(0));
    assert w != u ==> Distance(x, Value(u)) < Distance(x, Value(w));
  }

  /** From the text of the magnitude to the text of the double. */
  lemma SignedReadsBack(t: seq<char>, bits: U64)
    requires 0 < Magnitude(bits) < INFINITY && t != [] && t[0] != '-' && ReadsPositive(t, Magnitude(bits))
    ensures ReadsBack(if IsNegative(bits) then ['-'] + t else t, bits)
  {
    hide Value, IsNumeral, ReadNumeral, Distance;
    var u, text := Magnitude(bits), if IsNegative(bits) then ['-'] + t else t;
    assert IsNegative(bits) ==> text[1..] == t;
    forall w: U64 | Magnitude(w) <= INFINITY && DoubleValue(w) != DoubleValue(bits)
      ensures Distance(ReadSigned(text), DoubleValue(bits)) < Distance(ReadSigned(text), DoubleValue(w))
    {
      NearestOfBothSigns(ReadNumeral(t), u, Magnitude(w));
    }
  }

  lemma ZeroReadsBack(bits: U64)
    requires Magnitude(bits) == 0
    ensures ReadsBack("0.0", bits)
  {
    ZeroValue();
    hide Value, IsNumeral, ReadNumeral;
    ReadZero();
  }

  /** Digits in the rounding interval, laid out, read as the double. */
  lemma TextReads(d: seq<char>, k: int, u: U64)
    requires 0 < u < INFINITY && d != [] && AllDigits(d) && -1000 < |d| + k - 1 < 1000
    requires RoundsTo(DecimalReal(NatOf(d), k), u)
    ensures ReadsPositive(Text(d, k), u)
  {
    hide Text, IsNumeral, ReadNumeral, Value, Distance, RoundsTo, NatOf, DecimalReal, AllDigits;
    ReadText(d, k);
    forall w: U64 | w <= INFINITY && w != u
      ensures Distance(DecimalReal(NatOf(d), k), Value(u)) < Distance(DecimalReal(NatOf(d), k), Value(w))
    {
      NearestDouble(u, DecimalReal(NatOf(d), k), w);
    }
  }

  /** The entry of the table that GetCachedPower chooses. */
  ghost function Entry(u: U64, estimate: int -> real): int
    requires 0 < u < INFINITY
  {
    CachedIndex(estimate(Normalize(FromBits(u)).e))
  }

  /**
   * The text denotes a decimal with exponent K, in the shape for it; no decimal with a larger exponent would do, and while
   * the table of powers lasts none with the same exponent is closer, both but for two units.
   */
  ghost predicate Printed(text: seq<char>, u: U64, i: int, K: int)
    requires 0 < u < INFINITY
  {
    && 0 <= i < ENTRIES
    && Shape(text, K, !(MILLIONTH <= u < SEXTILLION))
    && IsNumeral(text) && (exists c: nat :: ReadNumeral(text) == DecimalReal(c, K))
    && ShortestBut(FromBits(u), i, K) && UnitSmall(FromBits(u), i)
    && (WithinTable(FromBits(u), i) ==> ClosestBut(ReadNumeral(text), FromBits(u), i, K))
  }

  lemma TextPrinted(d: seq<char>, k: int, u: U64, i: nat)
    requires 0 < u < INFINITY && d != [] && AllDigits(d) && d[0] != '0' && -1000 < |d| + k - 1 < 1000 && i < ENTRIES
    requires RoundsTo(DecimalReal(NatOf(d), k), u) && ShortestBut(FromBits(u), i, k) && UnitSmall(FromBits(u), i)
    requires WithinTable(FromBits(u), i) ==> ClosestBut(DecimalReal(NatOf(d), k), FromBits(u), i, k)
    ensures Printed(Text(d, k), u, i, k)
  {
    hide Text, Shape, IsNumeral, ReadNumeral, NatOf, DecimalReal, Ten, RoundsTo, FromBits, AllDigits;
    hide ShortestBut, UnitSmall, ClosestBut, WithinTable;
    TextShape(d, k);
    ReadText(d, k);
    LimitsExactly(d, k);
    Leading(d);
    FromMillionth(u, i, k, NatOf(d));
    BelowSextillion(u, i, k, NatOf(d));
  }

  lemma Leading(d: seq<char>)
    requires d != [] && AllDigits(d) && d[0] != '0'
    ensures NatOf(d) > 0
  {
    NatOfBounds(d);
    PowPositive(10, |d| - 1);
  }

  /** The text that starts at a position of a buffer and ends before a zero. */
  predicate Holds(b: seq<char>, at: nat, text: seq<char>) {
    at + |text| < |b| && b[at..at + |text|] == text && b[at + |text|] == '\0' && '\0' !in text
  }

  lemma HoldsBehind(front: seq<char>, b: seq<char>, text: seq<char>)
    requires Holds(b, 0, text)
    ensures Holds(front + b, |front|, text) && (front + b)[..|front|] == front
  {
    assert (front + b)[|front|..|front| + |text|] == b[0..|text|];
  }

  lemma HoldsSigned(b: seq<char>, c: char, text: seq<char>)
    requires Holds(b, 1, text) && b[..1] == [c] && c != '\0'
    ensures Holds(b, 0, [c] + text)
  {
    assert b[0..1 + |text|] == b[..1] + b[1..1 + |text|];
  }

  /**
   * Grisu2 and Prettify behind a moved pointer: what the pointer addresses is an array of its own, which is put back.
   * The text of a positive double stands at the position, and nothing in front of it has changed.
   */
  method PrintPositive(u: U64, estimate: int -> real, beyond: nat -> U64, buffer: array<char>, at: nat)
    returns (ghost text: seq<char>, ghost K: int)
    requires 0 < u < INFINITY && at + 47 <= buffer.Length
    requires forall e :: -1137 <= e <= 960 ==> Rounded(e, estimate(e))
    modifies buffer
    ensures buffer[..at] == old(buffer[..at])
    ensures Holds(buffer[..], at, text) && 0 < |text| < 47 && text[0] != '-' && ReadsPositive(text, u)
    ensures Printed(text, u, Entry(u, estimate), K)
  {
    hide ShortestBut, UnitSmall, ClosestBut, WithinTable, Printed;
    hide Text, ReadsPositive, RoundsTo, NatOf, DecimalReal, Rounded, AllDigits, Normalize, FromBits, CachedIndex, Holds;
    var p := new char[buffer.Length - at];
    forall i | 0 <= i < p.Length {
      p[i] := buffer[at + i];
    }
    var length, k := Grisu2(u, estimate, beyond, p);
    ghost var d := p[..length];
    TextLength(d, k);
    TextReads(d, k, u);
    K := k;
    TextPrinted(d, k, u, Entry(u, estimate));
    FirstOfText(d, k);
    NoTerminator(d, k);
    Prettify(p, length, k);
    text := Text(d, k);
    StartsWith(p[..], text);
    HoldsBehind(buffer[..at], p[..], text);
    PutBack(buffer, at, p);
    assert buffer[..at] == buffer[..][..at];
  }

  method PutBack(buffer: array<char>, at: nat, p: array<char>)
    requires p != buffer && at + p.Length == buffer.Length
    modifies buffer
    ensures buffer[..] == old(buffer[..at]) + p[..]
  {
    forall i | 0 <= i < p.Length {
      buffer[at + i] := p[i];
    }
  }

  lemma StartsWith(b: seq<char>, text: seq<char>)
    requires |text| < |b| && b[..|text|] == text && b[|text|] == '\0' && '\0' !in text
    ensures Holds(b, 0, text)
  {}

  lemma NoTerminator(d: seq<char>, k: int)
    requires d != [] && AllDigits(d) && -1000 < |d| + k - 1 < 1000
    ensures '\0' !in Text(d, k)
  {
    hide Text, Zeros, ExponentText;
    TextForms(d, k);
    NoTerminatorInExponent(|d| + k - 1);
  }

  lemma NoTerminatorInExponent(k: int)
    requires -1000 < k < 1000
    ensures '\0' !in ExponentText(k)
  {}

  lemma FirstOfText(d: seq<char>, k: int)
    requires d != [] && AllDigits(d) && -1000 < |d| + k - 1 < 1000
    ensures Text(d, k) != [] && IsDigit(Text(d, k)[0])
  {
    hide Text, Zeros, ExponentText;
    TextForms(d, k);
  }

  lemma ReadZero()
    ensures IsNumeral("0.0") && ReadNumeral("0.0") == 0.0
  {
    hide IsNumeral;
    hide ReadNumeral;
    ReadPoint(['0'], ['0']);
    assert ['0'] + ['.'] + ['0'] == "0.0";
    assert ['0'] + ['0'] == Zeros(1) + Zeros(1);
    NatOfLeadingZeros(1, Zeros(1));
  }

  /**
   * dtoa_grisu2 for every finite double: the text it leaves in the buffer fits the 48 bytes that the log stream sets
   * aside, and it reads back as the double.
   */
  method Dtoa(bits: U64, estimate: int -> real, beyond: nat -> U64, buffer: array<char>)
    returns (ghost text: seq<char>, ghost K: int)
    requires Magnitude(bits) < INFINITY && buffer.Length >= 48
    requires forall e :: -1137 <= e <= 960 ==> Rounded(e, estimate(e))
    modifies buffer
    ensures Holds(buffer[..], 0, text) && 0 < |text| < 48
    ensures Magnitude(bits) == 0 ==> text == "0.0"
    ensures Magnitude(bits) != 0 ==> (text[0] == '-' <==> IsNegative(bits))
    ensures ReadsBack(text, bits)
    ensures Magnitude(bits) != 0 ==>
      Printed(if IsNegative(bits) then text[1..] else text, Magnitude(bits), Entry(Magnitude(bits), estimate), K)
  {
    hide Printed;
    hide ReadsBack, ReadsPositive, Rounded, Holds;
    if Magnitude(bits) == 0 {
      ZeroReadsBack(bits);
      buffer[0] := '0';
      buffer[1] := '.';
      buffer[2] := '0';
      buffer[3] := '\0';
      StartsWith(buffer[..], "0.0");
      return "0.0", 0;
    }
    if IsNegative(bits) {
      buffer[0] := '-';
      ghost var t;
      t, K := PrintPositive(Magnitude(bits), estimate, beyond, buffer, 1);
      SignedReadsBack(t, bits);
      text := ['-'] + t;
      assert buffer[..][..1] == buffer[..1] == ['-'];
      HoldsSigned(buffer[..], '-', t);
      assert text[1..] == t;
    } else {
      text, K := PrintPositive(Magnitude(bits), estimate, beyond, buffer, 0);
      SignedReadsBack(text, bits);
    }
  }
}
