/**
 * Integer printing (itoa of common/string.hpp) for the widths 8, 16, 32 and 64: division by ten is one multiplication
 * by a truncated constant and a shift, and the digits come out backwards into a bounded buffer.
 */
module Itoa {
  import opened Arith
  import opened Decimal
  import opened Numeral
  import opened Sequences

  /** The unsigned type and its reciprocal of ten; the casts of the source keep the low bits of 0xcc...cd. */
  datatype Width = W8 | W16 | W32 | W64 {
    function Bits(): nat {
      match this case W8 => 8 case W16 => 16 case W32 => 32 case W64 => 64
    }

    /** 2^Bits */
    function Modulus(): nat {
      match this
      case W8 => 0x100
      case W16 => 0x1_0000
      case W32 => 0x1_0000_0000
      case W64 => 0x1_0000_0000_0000_0000
    }

    /** base */
    function Reciprocal(): nat {
      match this
      case W8 => 0xcd
      case W16 => 0xcccd
      case W32 => 0xcccc_cccd
      case W64 => 0xcccc_cccc_cccc_cccd
    }

    /** The type in which the product is formed: 64 bits, 128 for 64-bit values. */
    function ProductModulus(): nat {
      match this
      case W64 => 0x1_0000_0000_0000_0000 * 0x1_0000_0000_0000_0000
      case _ => 0x1_0000_0000_0000_0000
    }
  }

  /** (v * base) >> (bits + 3), in the product type. */
  function MagicDivide(w: Width, v: nat): nat {
    v * w.Reciprocal() % w.ProductModulus() / (8 * w.Modulus())
  }

  lemma FactorAtMost(d: nat, q: nat, s: nat)
    requires d * s < q * s + s
    ensures d <= q
  {
    assert (q + 1) * s == q * s + s;
    if d > q {
      MulMonotoneNat(q + 1, s, d, s);
    }
  }

  lemma QuotientIs(x: nat, s: nat, q: nat)
    requires s > 0 && q * s <= x < q * s + s
    ensures x / s == q
  {
    var d := x / s;
    assert x == d * s + x % s;
    FactorAtMost(d, q, s);
    FactorAtMost(q, d, s);
  }

  lemma Expand(v: nat, base: nat, s: nat, q: nat, r: nat)
    requires 10 * base == s + 2 && v == 10 * q + r
    ensures 10 * (v * base) == 10 * (q * s) + r * s + 2 * v
  {
    assert 10 * (v * base) == v * (10 * base);
    assert v * (s + 2) == v * s + 2 * v;
    assert (10 * q + r) * s == 10 * (q * s) + r * s;
  }

  /** One argument for all widths: 10 * base = 2^(bits+3) + 2, and 2v is too small to carry. */
  lemma MagicQuotient(v: nat, base: nat, s: nat)
    requires 10 * base == s + 2 && 2 * v < s
    ensures v * base / s == v / 10
  {
    var q, r := v / 10, v % 10;
    Expand(v, base, s, q, r);
    MulMonotoneNat(r, s, 9, s);
    QuotientIs(v * base, s, q);
  }

  lemma NoWrap(x: nat, m: nat)
    requires x < m
    ensures x % m == x
  {}

  /** The multiplication divides by ten, exactly, for every value of the width; the product never overflows. */
  lemma MagicDivideIsDivision(w: Width, v: nat)
    requires v < w.Modulus()
    ensures MagicDivide(w, v) == v / 10
    ensures v * w.Reciprocal() < w.ProductModulus()
  {
    MulMonotoneNat(v, w.Reciprocal(), w.Modulus() - 1, w.Reciprocal());
    NoWrap(v * w.Reciprocal(), w.ProductModulus());
    MagicQuotient(v, w.Reciprocal(), 8 * w.Modulus());
  }

  // ---------- the text ----------

  /** The decimal digits of n; none for zero. */
  function Canonical(n: nat): (s: seq<char>)
    ensures AllDigits(s) && (n == 0 <==> s == [])
  {
    if n == 0 then [] else Canonical(n / 10) + [DigitChar(n % 10)]
  }

  /** They denote n, and the first is not zero. */
  lemma {:induction false} CanonicalDenotes(n: nat)
    ensures NatOf(Canonical(n)) == n
    ensures n > 0 ==> Canonical(n)[0] != '0'
  {
    if n > 0 {
      CanonicalDenotes(n / 10);
      NatOfPush(Canonical(n / 10), DigitChar(n % 10));
    }
  }

  function Absolute(value: int): nat {
    if value < 0 then -value else value
  }

  /** How many digits fit. */
  function Kept(value: int, maxlen: nat): (k: nat)
    requires maxlen >= 1
    ensures k <= |Canonical(Absolute(value))| && k < maxlen
  {
    var n := |Canonical(Absolute(value))|;
    if n < maxlen then n else maxlen - 1
  }

  /** What itoa leaves in a buffer of maxlen characters: the low-order digits that fit, and the sign if three characters are left. */
  function ItoaText(value: int, maxlen: nat): (s: seq<char>)
    requires maxlen >= 1
    ensures |s| < maxlen
  {
    var c, k := Canonical(Absolute(value)), Kept(value, maxlen);
    (if value < 0 && maxlen - k > 2 then ['-'] else []) + c[|c| - k..]
  }

  /** The room that itoa needs to print value in full. */
  predicate EnoughRoom(value: int, maxlen: nat) {
    maxlen >= |Canonical(Absolute(value))| + (if value < 0 then 3 else 1)
  }

  /**
   * The text reads back as the value exactly when the value is not zero, which prints as nothing, and there is
   * room for all digits: one more character, three more for a negative value.
   */
  lemma ItoaReadsBack(value: int, maxlen: nat)
    requires maxlen >= 1
    ensures (IsInteger(ItoaText(value, maxlen)) && ReadInteger(ItoaText(value, maxlen)) == value)
      <==> (value != 0 && EnoughRoom(value, maxlen))
  {
    hide Canonical, NatOf, AllDigits, IsInteger, ReadInteger;
    var n := Absolute(value);
    var c, k, t := Canonical(n), Kept(value, maxlen), ItoaText(value, maxlen);
    CanonicalDenotes(n);
    if k == |c| {
      assert t == if value < 0 && maxlen - k > 2 then ['-'] + c else c;
      ReadDigits(c);
      ReadNegative(c);
    } else {
      SuffixIsSmaller(c, k);
      assert t == c[|c| - k..];
      ReadDigits(t);
    }
  }

  lemma ZeroPrintsNothing(maxlen: nat)
    requires maxlen >= 1
    ensures ItoaText(0, maxlen) == [] && !IsInteger(ItoaText(0, maxlen))
  {}

  lemma ReadDigits(s: seq<char>)
    requires AllDigits(s)
    ensures IsInteger(s) <==> s != []
    ensures s != [] ==> ReadInteger(s) == NatOf(s)
  {
    hide NatOf;
  }

  lemma ReadNegative(s: seq<char>)
    requires AllDigits(s)
    ensures IsInteger(['-'] + s) <==> s != []
    ensures s != [] ==> ReadInteger(['-'] + s) == 0 - NatOf(s)
  {
    hide NatOf;
    assert (['-'] + s)[1..] == s;
  }

  lemma SuffixIsSmaller(c: seq<char>, k: nat)
    requires AllDigits(c) && k < |c| && c[0] != '0'
    ensures AllDigits(c[|c| - k..]) && NatOf(c[|c| - k..]) < NatOf(c)
  {
    NatOfBounds(c);
    NatOfBounds(c[|c| - k..]);
    PowMonotone(10, k, |c| - 1);
  }

  /**
   * What is left in any buffer: a sign exactly if the value is negative and three characters are free behind the digits,
   * and the digits of the value modulo a power of ten, all of them or one fewer than the buffer has characters.
   */
  lemma ItoaKeeps(value: int, maxlen: nat)
    requires maxlen >= 1
    ensures var n, k := Absolute(value), Kept(value, maxlen);
      var digits := Canonical(n)[|Canonical(n)| - k..];
      && ItoaText(value, maxlen) == (if value < 0 && k + 3 <= maxlen then ['-'] + digits else digits)
      && |digits| == k && AllDigits(digits) && Pow(10, k) > 0 && NatOf(digits) == n % Pow(10, k)
      && (k == maxlen - 1 || (k < maxlen && n < Pow(10, k) && (k > 0 ==> Pow(10, k - 1) <= n)))
  {
    hide Canonical, NatOf, Pow, AllDigits;
    var n, k := Absolute(value), Kept(value, maxlen);
    CanonicalDenotes(n);
    SuffixIsResidue(Canonical(n), k);
    NatOfBounds(Canonical(n));
    var c := Canonical(n);
    assert k == |c| ==> c[|c| - k..] == c;
  }

  lemma SuffixIsResidue(c: seq<char>, k: nat)
    requires AllDigits(c) && k <= |c|
    ensures AllDigits(c[|c| - k..]) && Pow(10, k) > 0 && NatOf(c[|c| - k..]) == NatOf(c) % Pow(10, k)
  {
    hide NatOf, Pow;
    var front, digits := c[..|c| - k], c[|c| - k..];
    assert c == front + digits;
    NatOfConcat(front, digits);
    NatOfBounds(digits);
    Residue(NatOf(front), Pow(10, k), NatOf(digits));
  }

  lemma Residue(q: nat, p: nat, r: nat)
    requires r < p
    ensures (q * p + r) % p == r
  {
    var x := q * p + r;
    QuotientIs(x, p, q);
  }

  // ---------- writing it ----------

  /** std::reverse on the first n characters. */
  method ReverseInPlace(buf: array<char>, n: nat)
    requires n <= buf.Length
    modifies buf
    ensures buf[..n] == Reverse(old(buf[..n]))
    ensures forall i :: n <= i < buf.Length ==> buf[i] == old(buf[i])
  {
    var lo, hi := 0, n;
    while lo < hi
      invariant 0 <= lo <= hi + 1 && lo + hi == n
      invariant forall i :: 0 <= i < lo ==> buf[i] == old(buf[n - 1 - i])
      invariant forall i :: hi <= i < n ==> buf[i] == old(buf[n - 1 - i])
      invariant forall i :: lo <= i < hi || n <= i < buf.Length ==> buf[i] == old(buf[i])
      decreases hi - lo
    {
      hi := hi - 1;
      buf[lo], buf[hi] := buf[hi], buf[lo];
      lo := lo + 1;
    }
    ghost var was := old(buf[..n]);
    forall i | 0 <= i < n
      ensures buf[..n][i] == Reverse(was)[i]
    {
      ReverseAt(was, i);
    }
  }

  lemma CanonicalStep(v: nat)
    requires v > 0
    ensures Canonical(v) == Canonical(v / 10) + [DigitChar(v % 10)]
  {}

  /** One round of the loop: the digits not yet produced, followed by those produced, reversed, are all digits. */
  lemma PushDigit(c: seq<char>, v: nat, s: seq<char>)
    requires v > 0 && c == Canonical(v) + Reverse(s)
    ensures c == Canonical(v / 10) + Reverse(s + [DigitChar(v % 10)])
  {
    hide Reverse;
    ReversePush(s, DigitChar(v % 10));
    CanonicalStep(v);
    hide Canonical;
    assert Canonical(v) + Reverse(s) == Canonical(v / 10) + ([DigitChar(v % 10)] + Reverse(s));
  }

  /** The loop ends with all digits, or with as many as fit. */
  lemma LoopEnds(value: int, maxlen: nat, v: nat, s: seq<char>)
    requires maxlen >= 1 && Canonical(Absolute(value)) == Canonical(v) + Reverse(s)
    requires |s| < maxlen && (v == 0 || |s| == maxlen - 1)
    ensures |s| == Kept(value, maxlen)
    ensures ItoaText(value, maxlen) == (if value < 0 && maxlen - |s| > 2 then ['-'] else []) + Reverse(s)
  {}

  /**
   * itoa.  The value belongs to the type of the given width, signed or unsigned; narrow types are negated after
   * promotion, wider ones must be able to represent the negation.
   */
  method Itoa(w: Width, buf: array<char>, maxlen: nat, value: int) returns (n: nat)
    requires -(w.Modulus() / 2) <= value < w.Modulus()
    requires value == -(w.Modulus() / 2) ==> w.W8? || w.W16?
    requires 1 <= maxlen <= buf.Length
    modifies buf
    ensures n == |ItoaText(value, maxlen)| && buf[..n] == ItoaText(value, maxlen) && buf[n] == '\0'
    ensures forall i :: maxlen <= i < buf.Length ==> buf[i] == old(buf[i])
  {
    hide Canonical;
    hide Reverse;
    hide MagicDivide;
    hide ItoaText;
    hide Kept;
    var v: nat := if value > 0 then value else -value;
    ghost var c := Canonical(v);
    var i := 0;
    ReverseEmpty(buf[..0]);
    while v != 0 && 1 < maxlen - i
      invariant 0 <= i < maxlen && v < w.Modulus()
      invariant c == Canonical(v) + Reverse(buf[..i])
      invariant forall j :: maxlen <= j < buf.Length ==> buf[j] == old(buf[j])
      decreases maxlen - i
    {
      MagicDivideIsDivision(w, v);
      ghost var s := buf[..i];
      PushDigit(c, v, s);
      var q := MagicDivide(w, v);
      buf[i] := DigitChar(v - q * 10);
      assert buf[..i + 1] == s + [DigitChar(v % 10)];
      v := q;
      i := i + 1;
    }
    ghost var s := buf[..i];
    LoopEnds(value, maxlen, v, s);
    n := i;
    if value < 0 && maxlen - i > 2 {
      buf[n] := '-';
      n := n + 1;
      assert buf[..n] == s + ['-'];
      ReversePush(s, '-');
    }
    ghost var t := buf[..n];
    buf[n] := '\0';
    assert buf[..n] == t;
    ReverseInPlace(buf, n);
  }
}
