/**
 * Plain values in the binary codec (the endian::SwapByte family and the POD operators of protocol/archive.hpp).  A value
 * is swapped if the host is little endian, and the memory image of the result is written.
 */
module Endian {
  import opened Sequences

  /** The types with an operator of their own. */
  datatype Kind = Bool | Char | UChar | Short | UShort | Int | UInt | Long | ULong | Float | Double {
    /** sizeof */
    function Width(): (w: nat)
      ensures w == 1 || w == 2 || w == 4 || w == 8
    {
      match this
      case Bool | Char | UChar => 1
      case Short | UShort => 2
      case Int | UInt | Float => 4
      case Long | ULong | Double => 8
    }

    predicate Signed() {
      Char? || Short? || Int? || Long?
    }

    /** 2 to the number of bits. */
    function Modulus(): nat {
      Pow256(Width())
    }

    /** The values of the type; a bool is represented by its byte, a floating-point value by its bits. */
    predicate Holds(n: int) {
      if Signed() then -(Modulus() / 2) <= n < Modulus() / 2 else 0 <= n < Modulus()
    }
  }

  function Pow256(n: nat): (p: nat)
    ensures p > 0
    ensures n == 1 ==> p == 0x100
    ensures n == 2 ==> p == 0x1_0000
    ensures n == 3 ==> p == 0x100_0000
    ensures n == 4 ==> p == 0x1_0000_0000
    ensures n == 5 ==> p == 0x100_0000_0000
    ensures n == 6 ==> p == 0x1_0000_0000_0000
    ensures n == 7 ==> p == 0x100_0000_0000_0000
    ensures n == 8 ==> p == 0x1_0000_0000_0000_0000
  {
    if n == 0 then 1 else 256 * Pow256(n - 1)
  }

  /** Two's complement. */
  function Bits(k: Kind, n: int): (b: nat)
    requires k.Holds(n)
    ensures b < k.Modulus()
  {
    if n < 0 then n + k.Modulus() else n
  }

  function FromBits(k: Kind, b: nat): (n: int)
    requires b < k.Modulus()
    ensures k.Holds(n) && Bits(k, n) == b
  {
    if k.Signed() && b >= k.Modulus() / 2 then b - k.Modulus() else b
  }

  // ---------- bytes ----------

  /** The low width bytes of b, least significant first. */
  function Little(width: nat, b: nat): (s: seq<Byte>)
    ensures |s| == width
  {
    if width == 0 then [] else [b % 256] + Little(width - 1, b / 256)
  }

  /** Most significant first. */
  function Big(width: nat, b: nat): (s: seq<Byte>)
    ensures |s| == width
  {
    if width == 0 then [] else Big(width - 1, b / 256) + [b % 256]
  }

  function OfLittle(s: seq<Byte>): nat {
    if s == [] then 0 else s[0] + 256 * OfLittle(s[1..])
  }

  function OfBig(s: seq<Byte>): nat {
    OfLittle(Reverse(s))
  }

  /** The memory image of a pattern, and back. */
  function Image(le: bool, width: nat, b: nat): (s: seq<Byte>)
    ensures |s| == width
  {
    if le then Little(width, b) else Big(width, b)
  }

  function OfImage(le: bool, s: seq<Byte>): nat {
    if le then OfLittle(s) else OfBig(s)
  }

  lemma {:induction false} BigIsReverse(width: nat, b: nat)
    ensures Big(width, b) == Reverse(Little(width, b))
    ensures Little(width, b) == Reverse(Big(width, b))
  {
    hide Reverse;
    if width == 0 {
      ReverseEmpty(Little(0, b));
    } else {
      var low: Byte, high := b % 256, b / 256;
      BigIsReverse(width - 1, high);
      ReverseCons(low, Little(width - 1, high));
      ReversePush(Big(width - 1, high), low);
    }
  }

  lemma {:induction false} LittleRoundTrip(width: nat, b: nat)
    requires b < Pow256(width)
    ensures OfLittle(Little(width, b)) == b
  {
    if width > 0 {
      LittleRoundTrip(width - 1, b / 256);
      assert Little(width, b)[1..] == Little(width - 1, b / 256);
    }
  }

  lemma {:induction false} OfLittleRoundTrip(s: seq<Byte>)
    ensures OfLittle(s) < Pow256(|s|)
    ensures Little(|s|, OfLittle(s)) == s
  {
    if s != [] {
      OfLittleRoundTrip(s[1..]);
      assert OfLittle(s) / 256 == OfLittle(s[1..]);
      assert s == [s[0]] + s[1..];
    }
  }

  lemma ImageRoundTrip(le: bool, width: nat, b: nat)
    requires b < Pow256(width)
    ensures OfImage(le, Image(le, width, b)) == b
  {
    LittleRoundTrip(width, b);
    BigIsReverse(width, b);
  }

  lemma OfImageRoundTrip(le: bool, s: seq<Byte>)
    ensures OfImage(le, s) < Pow256(|s|)
    ensures Image(le, |s|, OfImage(le, s)) == s
  {
    hide Little, Big, OfLittle, Pow256, Reverse;
    OfLittleRoundTrip(s);
    OfLittleRoundTrip(Reverse(s));
    BigIsReverse(|s|, OfBig(s));
    ReverseTwice(s);
  }

  lemma OneMore(width: nat, b: nat)
    requires width > 0
    ensures Little(width, b) == [b % 256] + Little(width - 1, b / 256)
    ensures Big(width, b) == Big(width - 1, b / 256) + [b % 256]
    ensures Pow256(width) == 256 * Pow256(width - 1)
  {}

  lemma NoBytes(b: nat)
    ensures Little(0, b) == [] && Big(0, b) == [] && Pow256(0) == 1
  {}

  lemma {:induction false} LittleJoin(m: nat, n: nat, low: nat, high: nat)
    requires low < Pow256(m)
    ensures Little(m + n, low + Pow256(m) * high) == Little(m, low) + Little(n, high)
    ensures Big(m + n, low + Pow256(m) * high) == Big(n, high) + Big(m, low)
  {
    hide *;
    if m == 0 {
      NoBytes(low);
    } else {
      OneMore(m, low);
      LittleJoin(m - 1, n, low / 256, high);
      DropByte(low, Pow256(m - 1), high);
      OneMore(m + n, low + Pow256(m) * high);
    }
  }

  lemma DropByte(low: nat, p: nat, high: nat)
    ensures (low + 256 * p * high) % 256 == low % 256
    ensures (low + 256 * p * high) / 256 == low / 256 + p * high
  {
    var q := p * high;
    assert 256 * p * high == 256 * q;
  }

  // ---------- swaps ----------
  // On bit patterns.  The parts joined by | have no bit in common, so | is +, except for a negative signed 16-bit value,
  // whose right shift fills the upper half with the sign.

  function Swap2(b: nat): (r: nat)
    requires b < 0x1_0000
    ensures r < 0x1_0000
  {
    b / 256 + b % 256 * 256
  }

  function Swap2Signed(b: nat): (r: nat)
    requires b < 0x1_0000
    ensures r < 0x1_0000
  {
    b / 256 + (if b >= 0x8000 then 0xff else b % 256) * 256
  }

  function Swap4(b: nat): (r: nat)
    requires b < 0x1_0000_0000
    ensures r < 0x1_0000_0000
  {
    Swap2(b % 0x1_0000) * 0x1_0000 + Swap2(b / 0x1_0000)
  }

  function Swap8(b: nat): (r: nat)
    requires b < 0x1_0000_0000_0000_0000
    ensures r < 0x1_0000_0000_0000_0000
  {
    Swap4(b % 0x1_0000_0000) * 0x1_0000_0000 + Swap4(b / 0x1_0000_0000)
  }

  /** Swap of a pattern of one kind. */
  function SwapPod(le: bool, k: Kind, b: nat): (r: nat)
    requires b < k.Modulus()
    ensures r < k.Modulus()
  {
    if !le || k.Width() == 1 then b
    else if k == Short then Swap2Signed(b)
    else if k == UShort then Swap2(b)
    else if k == Float || k == Double then SwapBytes(k.Width(), b)
    else if k.Width() == 4 then Swap4(b)
    else Swap8(b)
  }

  /** The floating-point forms exchange the bytes of the image. */
  function SwapBytes(width: nat, b: nat): (r: nat)
    ensures r < Pow256(width)
  {
    OfLittleRoundTrip(Reverse(Little(width, b)));
    OfLittle(Reverse(Little(width, b)))
  }

  method ExchangeBytes(c: array<Byte>)
    requires c.Length == 4 || c.Length == 8
    modifies c
    ensures c[..] == Reverse(old(c[..]))
  {
    if c.Length == 4 {
      c[0], c[3] := c[3], c[0];
      c[1], c[2] := c[2], c[1];
    } else {
      c[0], c[7] := c[7], c[0];
      c[1], c[6] := c[6], c[1];
      c[2], c[5] := c[5], c[2];
      c[3], c[4] := c[4], c[3];
    }
  }

  lemma Swap2Reverses(b: nat)
    requires b < 0x1_0000
    ensures Little(2, Swap2(b)) == Big(2, b)
  {
    hide Little, Big;
    TwoBytes(Swap2(b));
    TwoBytes(b);
  }

  lemma OneByte(b: nat)
    requires b < 256
    ensures Little(1, b) == [b] && Big(1, b) == [b]
  {
    hide *;
    OneMore(1, b);
    NoBytes(b / 256);
  }

  lemma Swap4Reverses(b: nat)
    requires b < 0x1_0000_0000
    ensures Little(4, Swap4(b)) == Big(4, b)
  {
    hide Little, Big, Swap2, Pow256;
    var low, high := b % 0x1_0000, b / 0x1_0000;
    LittleJoin(2, 2, low, high);
    LittleJoin(2, 2, Swap2(high), Swap2(low));
    Swap2Reverses(low);
    Swap2Reverses(high);
  }

  lemma Swap8Reverses(b: nat)
    requires b < 0x1_0000_0000_0000_0000
    ensures Little(8, Swap8(b)) == Big(8, b)
  {
    hide Little, Big, Swap4, Pow256;
    var low, high := b % 0x1_0000_0000, b / 0x1_0000_0000;
    LittleJoin(4, 4, low, high);
    LittleJoin(4, 4, Swap4(high), Swap4(low));
    Swap4Reverses(low);
    Swap4Reverses(high);
  }

  /** The integer swaps by shifting and the floating-point swap by exchanging bytes are the same reversal. */
  lemma SwapReverses(k: Kind, b: nat)
    requires k != Short && b < k.Modulus()
    ensures Little(k.Width(), SwapPod(true, k, b)) == Big(k.Width(), b)
  {
    hide Little, Big, Swap2, Swap4, Swap8, OfLittle, Reverse;
    if k.Width() == 1 {
      OneByte(b);
    } else if k == Float || k == Double {
      BigIsReverse(k.Width(), b);
      OfLittleRoundTrip(Big(k.Width(), b));
    } else if k.Width() == 2 {
      Swap2Reverses(b);
    } else if k.Width() == 4 {
      Swap4Reverses(b);
    } else {
      Swap8Reverses(b);
    }
  }

  // ---------- plain values on the wire ----------

  /** operator&(type v) const */
  function EncodePod(le: bool, k: Kind, n: int): (s: seq<Byte>)
    requires k.Holds(n)
    ensures |s| == k.Width()
  {
    Image(le, k.Width(), SwapPod(le, k, Bits(k, n)))
  }

  /** operator&(type& v), given the bytes read. */
  function DecodePod(le: bool, k: Kind, s: seq<Byte>): (n: int)
    requires |s| == k.Width()
    ensures k.Holds(n)
  {
    OfImageRoundTrip(le, s);
    FromBits(k, SwapPod(le, k, OfImage(le, s)))
  }

  /** Whatever the host, values travel most significant byte first. */
  lemma MostSignificantFirst(le: bool, k: Kind, n: int)
    requires k != Short && k.Holds(n)
    ensures EncodePod(le, k, n) == Big(k.Width(), Bits(k, n))
  {
    hide Little, Big, Swap2, Swap4, Swap8, SwapBytes, Bits;
    if le {
      SwapReverses(k, Bits(k, n));
    }
  }

  lemma DecodeMostSignificantFirst(le: bool, k: Kind, s: seq<Byte>)
    requires k != Short && |s| == k.Width()
    ensures OfBig(s) < k.Modulus()
    ensures DecodePod(le, k, s) == FromBits(k, OfBig(s))
  {
    hide Little, Big, Swap2, Swap4, Swap8, SwapBytes, OfLittle, Reverse, FromBits;
    OfImageRoundTrip(false, s);
    OfImageRoundTrip(true, s);
    if le {
      var b := OfLittle(s);
      SwapReverses(k, b);
      LittleRoundTrip(|s|, SwapPod(true, k, b));
      BigIsReverse(|s|, b);
      assert OfLittle(Big(|s|, b)) == OfBig(s);
    }
  }

  /** The sizes and ranges of the eleven kinds, as numbers. */
  lemma KindTable(n: int)
    ensures Bool.Width() == 1 && Char.Width() == 1 && UChar.Width() == 1 && Short.Width() == 2 && UShort.Width() == 2
    ensures Int.Width() == 4 && UInt.Width() == 4 && Float.Width() == 4
    ensures Long.Width() == 8 && ULong.Width() == 8 && Double.Width() == 8
    ensures Bool.Holds(n) <==> 0 <= n < 256
    ensures Char.Holds(n) <==> -128 <= n < 128
    ensures UChar.Holds(n) <==> 0 <= n < 256
    ensures Short.Holds(n) <==> -32_768 <= n < 32_768
    ensures UShort.Holds(n) <==> 0 <= n < 65_536
    ensures Int.Holds(n) <==> -2_147_483_648 <= n < 2_147_483_648
    ensures UInt.Holds(n) <==> 0 <= n < 4_294_967_296
    ensures Float.Holds(n) <==> 0 <= n < 4_294_967_296
    ensures Long.Holds(n) <==> -9_223_372_036_854_775_808 <= n < 9_223_372_036_854_775_808
    ensures ULong.Holds(n) <==> 0 <= n < 18_446_744_073_709_551_616
    ensures Double.Holds(n) <==> 0 <= n < 18_446_744_073_709_551_616
  {}

  /** The number that bytes denote, most significant first. */
  function Denotes(s: seq<Byte>): nat {
    if s == [] then 0 else 256 * Denotes(s[..|s| - 1]) + s[|s| - 1]
  }

  lemma {:induction false} BigDenotes(width: nat, b: nat)
    requires b < Pow256(width)
    ensures Denotes(Big(width, b)) == b
  {
    hide Pow256;
    if width == 0 {
      NoBytes(b);
    } else {
      OneMore(width, b);
      BigDenotes(width - 1, b / 256);
      assert Big(width, b)[..width - 1] == Big(width - 1, b / 256);
    }
  }

  /** On the wire: as many bytes as the kind has, denoting the value, or its two's complement if it is negative. */
  lemma OnTheWire(le: bool, k: Kind, n: int)
    requires k != Short && k.Holds(n)
    ensures |EncodePod(le, k, n)| == k.Width()
    ensures Denotes(EncodePod(le, k, n)) == if n < 0 then n + Pow256(k.Width()) else n
  {
    hide EncodePod, Big, Denotes;
    MostSignificantFirst(le, k, n);
    BigDenotes(k.Width(), Bits(k, n));
  }

  lemma FourDenote(s: seq<Byte>)
    requires |s| == 4
    ensures Denotes(s) == 0x100_0000 * s[0] as int + 0x1_0000 * s[1] as int + 0x100 * s[2] as int + s[3]
  {
    var a, b, c := s[..3], s[..2], s[..1];
    assert a[..2] == b && b[..1] == c && c[..0] == [];
    assert Denotes(c) == s[0] && Denotes(b) == 256 * Denotes(c) + s[1] && Denotes(a) == 256 * Denotes(b) + s[2];
  }

  /** A small number is zeros and one byte. */
  lemma SmallOnTheWire(le: bool, k: Kind, n: nat)
    requires k != Short && n < 128
    ensures k.Holds(n) && EncodePod(le, k, n) == seq(k.Width() - 1, i => 0) + [n]
  {
    hide EncodePod, Little, Big;
    MostSignificantFirst(le, k, n);
    SmallBig(k.Width(), n);
  }

  lemma {:induction false} SmallBig(width: nat, n: nat)
    requires width > 0 && n < 256
    ensures Big(width, n) == seq(width - 1, i => 0) + [n]
  {
    OneMore(width, n);
    ZeroBig(width - 1);
  }

  lemma {:induction false} ZeroBig(width: nat)
    ensures Big(width, 0) == seq(width, i => 0)
  {
    if width == 0 {
      NoBytes(0);
    } else {
      OneMore(width, 0);
      ZeroBig(width - 1);
    }
  }

  /** A signed 16-bit value as it arrives: hosts that are little endian lose the low byte, or replace the high one. */
  function ShortThrough(w: bool, r: bool, n: int): int {
    var low := if w && n < 0 then 255 else n % 256;
    if r && low >= 128 then low - 256 else n - n % 256 + low
  }

  function PodThrough(w: bool, r: bool, k: Kind, n: int): int {
    if k == Short then ShortThrough(w, r, n) else n
  }

  lemma TwoBytes(p: nat)
    requires p < 0x1_0000
    ensures Little(2, p) == [p % 256, p / 256] && Big(2, p) == [p / 256, p % 256]
  {
    hide Little, Big;
    LittleJoin(1, 1, p % 256, p / 256);
    OneByte(p % 256);
    OneByte(p / 256);
  }

  lemma TwoDigits(s: seq<Byte>)
    requires |s| == 2
    ensures OfLittle(s) == s[0] + 256 * s[1] as int
  {
    assert OfLittle(s[1..]) == s[1] + 256 * OfLittle(s[1..][1..]);
  }

  lemma TwoBytesBack(s: seq<Byte>)
    requires |s| == 2
    ensures OfLittle(s) == s[0] + 256 * s[1] as int
    ensures OfBig(s) == s[1] + 256 * s[0] as int
  {
    TwoDigits(s);
    TwoDigits(Reverse(s));
  }

  /** The bytes written: high, then low or the sign. */
  lemma ShortBytes(w: bool, n: int)
    requires Short.Holds(n)
    ensures EncodePod(w, Short, n) == [(if n < 0 then n + 0x1_0000 else n) / 256, if w && n < 0 then 255 else n % 256]
  {
    hide Little, Big, Pow256;
    var b := Bits(Short, n);
    TwoBytes(SwapPod(w, Short, b));
    SignedParts(b);
    assert b % 256 == n % 256;
  }

  lemma SignedParts(b: nat)
    requires b < 0x1_0000
    ensures Swap2Signed(b) % 256 == b / 256
    ensures Swap2Signed(b) / 256 == if b >= 0x8000 then 255 else b % 256
  {}

  lemma ShortValue(r: bool, s: seq<Byte>)
    requires |s| == 2
    ensures DecodePod(r, Short, s) == FromBits(Short, if r && s[1] >= 128 then s[1] + 0xff00 else s[1] + 256 * s[0] as int)
  {
    hide Little, Big, OfLittle, OfBig, Pow256;
    TwoBytesBack(s);
    OfImageRoundTrip(r, s);
    if r {
      SignedValue(s[0], s[1]);
    }
  }

  lemma SignedValue(high: Byte, low: Byte)
    ensures Swap2Signed(high + 256 * low as int) == if low >= 128 then low + 0xff00 else low + 256 * high as int
  {
    var b := high + 256 * low as int;
    SignedParts(b);
    assert b / 256 == low && b % 256 == high;
  }

  lemma ShortTransfer(w: bool, r: bool, n: int)
    requires Short.Holds(n)
    ensures DecodePod(r, Short, EncodePod(w, Short, n)) == ShortThrough(w, r, n)
  {
    hide EncodePod, DecodePod, Pow256;
    ShortBytes(w, n);
    ShortValue(r, EncodePod(w, Short, n));
  }

  /** What one host writes and any host reads. */
  lemma PodTransfer(w: bool, r: bool, k: Kind, n: int)
    requires k.Holds(n)
    ensures DecodePod(r, k, EncodePod(w, k, n)) == PodThrough(w, r, k, n)
  {
    hide EncodePod, DecodePod, ShortThrough, Big, OfLittle, Reverse;
    if k == Short {
      ShortTransfer(w, r, n);
    } else {
      MostSignificantFirst(w, k, n);
      ImageRoundTrip(false, k.Width(), Bits(k, n));
      DecodeMostSignificantFirst(r, k, EncodePod(w, k, n));
    }
  }

  /** When a signed 16-bit value survives, by the byte orders of the writer and the reader. */
  predicate ShortSurvives(w: bool, r: bool, n: int) {
    if w && r then n == -1 || (0 <= n && n % 256 < 128)
    else if w then 0 <= n || n % 256 == 255
    else if r then n % 256 < 128 || -256 <= n < 0
    else true
  }

  predicate PodSurvives(w: bool, r: bool, k: Kind, n: int) {
    k == Short ==> ShortSurvives(w, r, n)
  }

  lemma PodRoundTrip(w: bool, r: bool, k: Kind, n: int)
    requires k.Holds(n)
    ensures DecodePod(r, k, EncodePod(w, k, n)) == n <==> PodSurvives(w, r, k, n)
  {
    hide EncodePod, DecodePod;
    PodTransfer(w, r, k, n);
  }
}
