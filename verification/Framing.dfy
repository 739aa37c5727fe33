/** Encodings delimit themselves: decoding looks only at its own bytes, and nothing less than all of them is accepted. */
module Framing {
  import opened Endian
  import opened Sequences
  import opened Codec
  import opened ExactRoundTrip

  /** Bytes behind those that decoding needed stay behind. */
  ghost predicate Extends(short: Result, long: Result, more: seq<Byte>) {
    short.Ok? ==> long == Ok(short.v, short.rest + more)
  }

  lemma LeafStable(h: Host, ty: Ty, cur: Val, bytes: seq<Byte>, more: seq<Byte>)
    requires (ty.Pod? || ty.Text?) && Shaped(ty, cur)
    ensures Extends(Decode(h, ty, cur, bytes), Decode(h, ty, cur, bytes + more), more)
  {
    hide DecodePod;
    var n := if ty.Pod? then ty.kind.Width() else 4;
    if |bytes| >= n {
      Ahead(bytes, more, n);
      if ty.Text? {
        var len := DecodeLength(h.le, bytes);
        if |bytes| - 4 >= len {
          Ahead(bytes[4..], more, len);
        }
      }
    }
  }

  lemma Ahead(bytes: seq<Byte>, more: seq<Byte>, n: nat)
    requires n <= |bytes|
    ensures (bytes + more)[..n] == bytes[..n] && (bytes + more)[n..] == bytes[n..] + more
  {}

  lemma AfterLengthStable(h: Host, ty: Ty, cur: Val, bytes: seq<Byte>, more: seq<Byte>)
    requires (ty.Array? || ty.Container?) && Shaped(ty, cur) && |bytes| >= 4
    requires ty.Array? ==>
      Extends(DecodeArray(h, ty.elem, cur.vs, bytes[4..]), DecodeArray(h, ty.elem, cur.vs, bytes[4..] + more), more)
    requires ty.Container? ==> (
      var n := DecodeLength(h.le, bytes);
      Extends(DecodeMany(h, ty, cur.vs, n, bytes[4..]), DecodeMany(h, ty, cur.vs, n, bytes[4..] + more), more))
    ensures Extends(Decode(h, ty, cur, bytes), Decode(h, ty, cur, bytes + more), more)
  {
    hide DecodePod, DecodeArray, DecodeMany;
    Ahead(bytes, more, 4);
  }

  lemma {:induction false} Stable(h: Host, ty: Ty, cur: Val, bytes: seq<Byte>, more: seq<Byte>)
    requires Shaped(ty, cur)
    ensures Extends(Decode(h, ty, cur, bytes), Decode(h, ty, cur, bytes + more), more)
    decreases ty, 0
  {
    hide Decode, DecodeArray, DecodeMany;
    match ty
    case Pod(_) => LeafStable(h, ty, cur, bytes, more);
    case Text => LeafStable(h, ty, cur, bytes, more);
    case Array(elem, _) =>
      if |bytes| >= 4 {
        ArrayStable(h, elem, cur.vs, bytes[4..], more);
        AfterLengthStable(h, ty, cur, bytes, more);
      } else {
        NoLength(h, ty, cur, bytes);
      }
    case Container(_, _) =>
      if |bytes| >= 4 {
        ManyStable(h, ty, cur.vs, DecodeLength(h.le, bytes), bytes[4..], more);
        AfterLengthStable(h, ty, cur, bytes, more);
      } else {
        NoLength(h, ty, cur, bytes);
      }
    case Pair(f, g) =>
      PairDecoding(h, ty, cur, bytes);
      PairDecoding(h, ty, cur, bytes + more);
      Stable(h, f, cur.a, bytes, more);
      var first := Decode(h, f, cur.a, bytes);
      if first.Ok? {
        Stable(h, g, cur.b, first.rest, more);
      }
  }

  lemma NoLength(h: Host, ty: Ty, cur: Val, bytes: seq<Byte>)
    requires (ty.Array? || ty.Container?) && Shaped(ty, cur) && |bytes| < 4
    ensures Decode(h, ty, cur, bytes) == Malformed
  {}

  lemma {:induction false} ArrayStable(h: Host, elem: Ty, vs: seq<Val>, bytes: seq<Byte>, more: seq<Byte>)
    requires AllShaped(elem, vs)
    ensures Extends(DecodeArray(h, elem, vs, bytes), DecodeArray(h, elem, vs, bytes + more), more)
    decreases elem, 1 + |vs|
  {
    hide Decode, Shaped;
    if vs != [] {
      Stable(h, elem, vs[0], bytes, more);
      var first := Decode(h, elem, vs[0], bytes);
      if first.Ok? {
        ArrayStable(h, elem, vs[1..], first.rest, more);
      }
    }
  }

  lemma {:induction false} ManyStable(h: Host, ty: Ty, vs: seq<Val>, n: nat, bytes: seq<Byte>, more: seq<Byte>)
    requires ty.Container? && AllShaped(ty.elem, vs)
    ensures Extends(DecodeMany(h, ty, vs, n, bytes), DecodeMany(h, ty, vs, n, bytes + more), more)
    decreases ty.elem, 1 + n
  {
    hide Decode, Shaped, Insert, Default;
    if n > 0 {
      Stable(h, ty.elem, Default(ty.elem), bytes, more);
      var first := Decode(h, ty.elem, Default(ty.elem), bytes);
      if first.Ok? {
        InsertShaped(h, ty, vs, first.v);
        ManyStable(h, ty, Insert(h, ty, vs, first.v), n - 1, first.rest, more);
      }
    }
  }

  /** Every strict prefix of an encoding is malformed, on every host and into every object. */
  lemma PrefixIsMalformed(w: bool, h: Host, ty: Ty, cur: Val, v: Val, n: nat)
    requires Shaped(ty, cur) && Shaped(ty, v) && Small(ty, v)
    requires n < |Encode(w, ty, v)|
    ensures Decode(h, ty, cur, Encode(w, ty, v)[..n]) == Malformed
  {
    hide Decode, Encode, Through;
    var all := Encode(w, ty, v);
    Transfer(w, h, ty, cur, v, []);
    Stable(h, ty, cur, all[..n], all[n..]);
    assert all[..n] + all[n..] == all == all + [];
  }

  /** Two encodings of one type followed by anything: the encodings agree and so does what follows. */
  lemma PrefixFree(w: bool, ty: Ty, u: Val, v: Val, x: seq<Byte>, y: seq<Byte>)
    requires Shaped(ty, u) && Small(ty, u) && Shaped(ty, v) && Small(ty, v)
    requires Encode(w, ty, u) + x == Encode(w, ty, v) + y
    ensures Encode(w, ty, u) == Encode(w, ty, v) && x == y
  {
    hide Decode, Encode, Through;
    var h := Host(false, (t, a, b) => false);
    Transfer(w, h, ty, u, u, x);
    Transfer(w, h, ty, u, v, y);
    var all := Encode(w, ty, u) + x;
    assert all[..|all| - |x|] == Encode(w, ty, u);
    assert all[..|all| - |y|] == Encode(w, ty, v);
  }

  /** The type with every ordered container replaced by a sequence: the encoding is the same. */
  function Plain(ty: Ty): (p: Ty)
    ensures Sequential(p)
  {
    match ty
    case Pod(k) => Pod(k)
    case Text => Text
    case Array(elem, count) => Array(Plain(elem), count)
    case Container(elem, _) => Container(Plain(elem), Append)
    case Pair(f, g) => Pair(Plain(f), Plain(g))
  }

  lemma {:induction false} PlainSame(w: bool, r: bool, ty: Ty, v: Val)
    requires Shaped(ty, v) && Small(ty, v)
    ensures Shaped(Plain(ty), v) && Small(Plain(ty), v)
    ensures Encode(w, Plain(ty), v) == Encode(w, ty, v)
    ensures Survives(w, r, Plain(ty), v) <==> Survives(w, r, ty, v)
    decreases ty, 0
  {
    hide EncodeLength, EncodePod;
    match ty
    case Pod(_) =>
    case Text =>
    case Array(elem, _) => PlainAllSame(w, r, elem, v.vs);
    case Container(elem, _) => PlainAllSame(w, r, elem, v.vs);
    case Pair(f, g) =>
      PlainSame(w, r, f, v.a);
      PlainSame(w, r, g, v.b);
  }

  lemma {:induction false} PlainAllSame(w: bool, r: bool, elem: Ty, vs: seq<Val>)
    requires AllShaped(elem, vs) && AllSmall(elem, vs)
    ensures AllShaped(Plain(elem), vs) && AllSmall(Plain(elem), vs)
    ensures EncodeAll(w, Plain(elem), vs) == EncodeAll(w, elem, vs)
    ensures AllSurvive(w, r, Plain(elem), vs) <==> AllSurvive(w, r, elem, vs)
    decreases elem, 1 + |vs|
  {
    hide Encode, Shaped, Small, Survives, Plain;
    if vs != [] {
      hide AllShaped, AllSmall, AllSurvive;
      AllSplit(w, r, elem, vs);
      PlainSame(w, r, elem, vs[0]);
      PlainAllSame(w, r, elem, vs[1..]);
      AllSplit(w, r, elem, vs);
      AllSplit(w, r, Plain(elem), vs);
    }
  }

  lemma AllSplit(w: bool, r: bool, elem: Ty, vs: seq<Val>)
    requires vs != []
    ensures AllShaped(elem, vs) <==> Shaped(elem, vs[0]) && AllShaped(elem, vs[1..])
    ensures AllShaped(elem, vs) ==> (AllSmall(elem, vs) <==> Small(elem, vs[0]) && AllSmall(elem, vs[1..]))
    ensures AllShaped(elem, vs) ==> (AllSurvive(w, r, elem, vs) <==> Survives(w, r, elem, vs[0]) && AllSurvive(w, r, elem, vs[1..]))
  {
    hide Shaped, Small, Survives;
    assert vs == [vs[0]] + vs[1..];
  }

  /**
   * Encodings are injective, also when anything follows, for all values whose signed 16-bit leaves keep their low byte;
   * on a big-endian host those are all values.
   */
  lemma Injective(w: bool, ty: Ty, u: Val, v: Val, x: seq<Byte>, y: seq<Byte>)
    requires Shaped(ty, u) && Small(ty, u) && Shaped(ty, v) && Small(ty, v)
    requires Survives(w, false, ty, u) && Survives(w, false, ty, v)
    requires Encode(w, ty, u) + x == Encode(w, ty, v) + y
    ensures u == v && x == y
  {
    hide *;
    PlainSame(w, false, ty, u);
    PlainSame(w, false, ty, v);
    var h := Host(false, (t, a, b) => false);
    var p := Plain(ty);
    var blank := Default(p);
    SequentialIsSteady(w, h, p, u);
    SequentialIsSteady(w, h, p, v);
    RoundTrip(w, h, p, blank, u, x);
    RoundTrip(w, h, p, blank, v, y);
  }

  /** The values above are all there are: a little-endian host writes the same two bytes for different negative shorts. */
  lemma ShortsCollide(n: int)
    requires Short.Holds(n) && n < 0 && n % 256 != 255
    ensures !ShortSurvives(true, false, n)
    ensures Short.Holds(n - n % 256 + 255)
    ensures n - n % 256 + 255 != n && EncodePod(true, Short, n - n % 256 + 255) == EncodePod(true, Short, n)
  {
    hide EncodePod, Pow256;
    ShortBytes(true, n);
    ShortBytes(true, n - n % 256 + 255);
  }
}
