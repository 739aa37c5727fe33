/** The bytes themselves, without the decoder (the const operators of protocol/archive.hpp), and what is accepted as such. */
module Wire {
  import opened Endian
  import opened Sequences
  import opened Codec

  /** Four bytes that denote n, most significant first. */
  predicate IsCount(s: seq<Byte>, n: nat) {
    |s| == 4 && 0x100_0000 * s[0] as int + 0x1_0000 * s[1] as int + 0x100 * s[2] as int + s[3] == n
  }

  lemma LengthOnTheWire(le: bool, n: nat)
    requires n < U32
    ensures IsCount(EncodeLength(le, n), n)
  {
    hide EncodePod, Denotes;
    OnTheWire(le, UInt, n);
    FourDenote(EncodeLength(le, n));
  }

  /** A string: how many characters, and the characters. */
  lemma TextOnTheWire(le: bool, s: seq<Byte>)
    requires |s| < U32
    ensures var bytes := Encode(le, Text, Str(s)); |bytes| == 4 + |s| && IsCount(bytes[..4], |s|) && bytes[4..] == s
  {
    hide EncodeLength, IsCount;
    LengthOnTheWire(le, |s|);
    assert s[..|s|] == s;
    assert (EncodeLength(le, |s|) + s)[..4] == EncodeLength(le, |s|);
  }

  /** An array or a container: how many elements, and the elements. */
  lemma ElementsOnTheWire(le: bool, ty: Ty, v: Val)
    requires (ty.Array? || ty.Container?) && Shaped(ty, v) && |v.vs| < U32
    ensures var bytes := Encode(le, ty, v);
      |bytes| >= 4 && IsCount(bytes[..4], |v.vs|) && bytes[4..] == EncodeAll(le, ty.elem, v.vs)
  {
    hide EncodeLength, EncodeAll, IsCount;
    LengthOnTheWire(le, |v.vs|);
    var front, back := EncodeLength(le, |v.vs|), EncodeAll(le, ty.elem, v.vs);
    assert (front + back)[..4] == front && (front + back)[4..] == back;
  }

  /** Each element stands behind the ones before it, and nothing else does. */
  lemma {:induction false} ElementsInOrder(le: bool, elem: Ty, vs: seq<Val>, i: nat)
    requires AllShaped(elem, vs) && i < |vs|
    ensures var all, at := EncodeAll(le, elem, vs), |EncodeAll(le, elem, vs[..i])|;
      var end := at + |Encode(le, elem, vs[i])|;
      && end <= |all| && all[at..end] == Encode(le, elem, vs[i])
      && end == |EncodeAll(le, elem, vs[..i + 1])|
  {
    hide Encode, Shaped;
    AllJoined(le, elem, vs[..i], vs[i..]);
    AllJoined(le, elem, vs[..i], [vs[i]]);
    assert vs[..i] + vs[i..] == vs && vs[..i] + [vs[i]] == vs[..i + 1];
    FirstOfAll(le, elem, vs[i..]);
    FirstOfAll(le, elem, [vs[i]]);
    hide EncodeAll, AllShaped;
    Middle(EncodeAll(le, elem, vs[..i]), Encode(le, elem, vs[i]), EncodeAll(le, elem, vs[i..][1..]));
  }

  lemma FirstOfAll(le: bool, elem: Ty, vs: seq<Val>)
    requires AllShaped(elem, vs) && vs != []
    ensures AllShaped(elem, vs[1..]) && EncodeAll(le, elem, vs) == Encode(le, elem, vs[0]) + EncodeAll(le, elem, vs[1..])
    ensures |vs| == 1 ==> EncodeAll(le, elem, vs) == Encode(le, elem, vs[0])
  {
    hide Encode, Shaped;
  }

  lemma Middle(x: seq<Byte>, y: seq<Byte>, z: seq<Byte>)
    ensures (x + (y + z))[|x|..|x| + |y|] == y
  {}

  lemma {:induction false} AllJoined(le: bool, elem: Ty, a: seq<Val>, b: seq<Val>)
    requires AllShaped(elem, a) && AllShaped(elem, b)
    ensures AllShaped(elem, a + b) && EncodeAll(le, elem, a + b) == EncodeAll(le, elem, a) + EncodeAll(le, elem, b)
    decreases |a|
  {
    hide Encode, Shaped;
    if a == [] {
      assert a + b == b;
    } else {
      assert (a + b)[1..] == a[1..] + b;
      AllJoined(le, elem, a[1..], b);
    }
  }

  /** The count of an array is not looked at. */
  lemma CountIgnored(h: Host, ty: Ty, cur: Val, x: seq<Byte>, y: seq<Byte>, rest: seq<Byte>)
    requires ty.Array? && Shaped(ty, cur) && |x| == |y| == 4
    ensures Decode(h, ty, cur, x + rest) == Decode(h, ty, cur, y + rest)
  {
    hide DecodeArray;
    assert (x + rest)[4..] == rest == (y + rest)[4..];
  }

  // ---------- only encodings are accepted ----------

  /** No array, whose count could be wrong; no ordered container; no signed 16-bit leaf. */
  predicate Strict(ty: Ty) {
    match ty
    case Pod(k) => k != Short
    case Text => true
    case Array(_, _) => false
    case Container(elem, mode) => mode == Append && Strict(elem)
    case Pair(f, g) => Strict(f) && Strict(g)
  }

  lemma PodAccepted(le: bool, r: bool, k: Kind, s: seq<Byte>)
    requires k != Short && |s| == k.Width()
    ensures EncodePod(le, k, DecodePod(r, k, s)) == s
  {
    hide EncodePod, DecodePod, Big, OfLittle, Reverse;
    DecodeMostSignificantFirst(r, k, s);
    OfImageRoundTrip(false, s);
    MostSignificantFirst(le, k, DecodePod(r, k, s));
  }

  lemma LengthAccepted(le: bool, r: bool, bytes: seq<Byte>)
    requires |bytes| >= 4
    ensures EncodeLength(le, DecodeLength(r, bytes)) == bytes[..4]
  {
    hide EncodePod, DecodePod;
    PodAccepted(le, r, UInt, bytes[..4]);
  }

  /** What is read is the encoding of the value that results. */
  ghost predicate Accepted(le: bool, ty: Ty, v: Val, bytes: seq<Byte>, rest: seq<Byte>) {
    Shaped(ty, v) && Small(ty, v) && bytes == Encode(le, ty, v) + rest
  }

  lemma NumberAccepted(le: bool, h: Host, k: Kind, cur: Val, bytes: seq<Byte>)
    requires k != Short && Shaped(Pod(k), cur) && Decode(h, Pod(k), cur, bytes).Ok?
    ensures var r := Decode(h, Pod(k), cur, bytes); Accepted(le, Pod(k), r.v, bytes, r.rest)
  {
    hide EncodePod, DecodePod;
    var w := k.Width();
    PodAccepted(le, h.le, k, bytes[..w]);
    assert bytes == bytes[..w] + bytes[w..];
  }

  lemma TextAccepted(le: bool, h: Host, cur: Val, bytes: seq<Byte>)
    requires Shaped(Text, cur) && Decode(h, Text, cur, bytes).Ok?
    ensures var r := Decode(h, Text, cur, bytes); Accepted(le, Text, r.v, bytes, r.rest)
  {
    hide EncodeLength, DecodeLength;
    var n := DecodeLength(h.le, bytes);
    LengthAccepted(le, h.le, bytes);
    var s, rest := bytes[4..][..n], bytes[4..][n..];
    assert s[..n] == s;
    assert bytes == bytes[..4] + s + rest;
  }

  lemma ContainerAccepted(le: bool, h: Host, ty: Ty, vs: seq<Val>, bytes: seq<Byte>, rest: seq<Byte>)
    requires ty.Container? && |bytes| >= 4 && AllShaped(ty.elem, vs) && AllSmall(ty.elem, vs)
    requires |vs| == DecodeLength(h.le, bytes) && bytes[4..] == EncodeAll(le, ty.elem, vs) + rest
    ensures Accepted(le, ty, Many(vs), bytes, rest)
  {
    hide EncodeLength, DecodeLength, EncodeAll, AllShaped, AllSmall;
    LengthAccepted(le, h.le, bytes);
    assert bytes == bytes[..4] + (EncodeAll(le, ty.elem, vs) + rest);
  }

  /**
   * Decoding into an object with empty containers accepts nothing but encodings: what was read is the encoding of the
   * value that results, on every host.
   */
  lemma {:induction false} OnlyEncodings(le: bool, h: Host, ty: Ty, cur: Val, bytes: seq<Byte>)
    requires Strict(ty) && Shaped(ty, cur) && Blank(ty, cur) && Decode(h, ty, cur, bytes).Ok?
    ensures var r := Decode(h, ty, cur, bytes); Accepted(le, ty, r.v, bytes, r.rest)
    decreases ty, 1
  {
    hide Accepted, DecodeMany, DecodeLength, AllShaped, AllSmall, EncodeAll, EncodeLength;
    match ty
    case Pod(k) => NumberAccepted(le, h, k, cur, bytes);
    case Text => TextAccepted(le, h, cur, bytes);
    case Container(_, _) =>
      var n := DecodeLength(h.le, bytes);
      var r := DecodeMany(h, ty, [], n, bytes[4..]);
      var got := ManyAccepted(le, h, ty, [], n, bytes[4..]);
      assert [] + got == got;
      ContainerAccepted(le, h, ty, got, bytes, r.rest);
    case Pair(f, g) => PairAccepted(le, h, ty, cur, bytes);
  }

  lemma {:induction false} PairAccepted(le: bool, h: Host, ty: Ty, cur: Val, bytes: seq<Byte>)
    requires ty.Pair? && Strict(ty) && Shaped(ty, cur) && Blank(ty, cur) && Decode(h, ty, cur, bytes).Ok?
    ensures var r := Decode(h, ty, cur, bytes); Accepted(le, ty, r.v, bytes, r.rest)
    decreases ty, 0
  {
    hide Decode, Encode;
    PairDecoding(h, ty, cur, bytes);
    var first := Decode(h, ty.fst, cur.a, bytes);
    var second := Decode(h, ty.snd, cur.b, first.rest);
    OnlyEncodings(le, h, ty.fst, cur.a, bytes);
    OnlyEncodings(le, h, ty.snd, cur.b, first.rest);
    var v := Two(first.v, second.v);
    PairEncoding(le, ty, v);
    var x, y := Encode(le, ty.fst, first.v), Encode(le, ty.snd, second.v);
    assert x + (y + second.rest) == (x + y) + second.rest;
  }

  /** The elements that a container gained. */
  lemma {:induction false} ManyAccepted(le: bool, h: Host, ty: Ty, vs: seq<Val>, n: nat, bytes: seq<Byte>) returns (got: seq<Val>)
    requires ty.Container? && Strict(ty) && AllShaped(ty.elem, vs) && DecodeMany(h, ty, vs, n, bytes).Ok?
    ensures |got| == n && AllShaped(ty.elem, got) && AllSmall(ty.elem, got)
    ensures DecodeMany(h, ty, vs, n, bytes).v == Many(vs + got)
    ensures bytes == EncodeAll(le, ty.elem, got) + DecodeMany(h, ty, vs, n, bytes).rest
    decreases ty.elem, 2 + n
  {
    hide Decode, Encode, Shaped, Small, Default, Blank;
    if n == 0 {
      got := [];
      assert vs + [] == vs;
    } else {
      var first := Decode(h, ty.elem, Default(ty.elem), bytes);
      OnlyEncodings(le, h, ty.elem, Default(ty.elem), bytes);
      InsertShaped(h, ty, vs, first.v);
      var others := ManyAccepted(le, h, ty, vs + [first.v], n - 1, first.rest);
      got := [first.v] + others;
      assert got[1..] == others;
      assert vs + [first.v] + others == vs + got;
      var rest := DecodeMany(h, ty, vs, n, bytes).rest;
      var x, y := Encode(le, ty.elem, first.v), EncodeAll(le, ty.elem, others);
      assert x + (y + rest) == (x + y) + rest;
    }
  }

  /** Accepted is exactly what begins with an encoding. */
  lemma AcceptedExactly(le: bool, h: Host, ty: Ty, cur: Val, bytes: seq<Byte>)
    requires Strict(ty) && Shaped(ty, cur) && Blank(ty, cur)
    ensures Decode(h, ty, cur, bytes).Ok? <==> exists v, rest :: Accepted(le, ty, v, bytes, rest)
  {
    hide Decode, Encode, Shaped, Small, Blank, Through;
    var r := Decode(h, ty, cur, bytes);
    if r.Ok? {
      OnlyEncodings(le, h, ty, cur, bytes);
      assert Accepted(le, ty, r.v, bytes, r.rest);
    }
    if v, rest :| Accepted(le, ty, v, bytes, rest) {
      Transfer(le, h, ty, cur, v, rest);
    }
  }
}
