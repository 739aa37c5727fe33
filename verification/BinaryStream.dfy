/** The stream object of protocol/archive.hpp: its operators, against the encoding and decoding functions. */
module BinaryStream {
  import opened Endian
  import opened Sequences
  import opened Codec

  class Binary {
    const host: Host
    /** What has been written and not yet read. */
    var stream: seq<Byte>

    constructor (host: Host, bytes: seq<Byte>)
      ensures this.host == host && stream == bytes
    {
      this.host := host;
      stream := bytes;
    }

    /** stream_.read: a read past the end fails the stream, and the caller throws. */
    method Fetch(n: nat) returns (ok: bool, bytes: seq<Byte>)
      modifies this
      ensures ok <==> n <= |old(stream)|
      ensures ok ==> bytes == old(stream)[..n] && stream == old(stream)[n..]
    {
      ok := n <= |stream|;
      if ok {
        bytes, stream := stream[..n], stream[n..];
      } else {
        bytes, stream := [], [];
      }
    }

    method ReadPod(k: Kind) returns (ok: bool, n: int)
      modifies this
      ensures ok <==> |old(stream)| >= k.Width()
      ensures ok ==> k.Holds(n) && n == DecodePod(host.le, k, old(stream)[..k.Width()]) && stream == old(stream)[k.Width()..]
    {
      var bytes;
      ok, bytes := Fetch(k.Width());
      n := 0;
      if ok {
        n := DecodePod(host.le, k, bytes);
      }
    }

    /** The bytes of a string are read in pieces of at most 4096, and that is one read of all of them. */
    method ReadChunks(len: nat) returns (ok: bool, s: seq<Byte>)
      modifies this
      ensures ok <==> len <= |old(stream)|
      ensures ok ==> s == old(stream)[..len] && stream == old(stream)[len..]
    {
      ghost var all := stream;
      var toRead: nat := len;
      s, ok := [], true;
      while toRead != 0
        invariant ok && toRead <= len && len - toRead <= |all|
        invariant s == all[..len - toRead] && stream == all[len - toRead..]
      {
        var l := if toRead < 4096 then toRead else 4096;
        var bytes;
        ok, bytes := Fetch(l);
        if !ok {
          return;
        }
        NextPiece(all, len - toRead, l);
        s := s + bytes;
        toRead := toRead - l;
      }
    }

    method ReadText() returns (ok: bool, s: seq<Byte>)
      modifies this
      ensures forall cur :: ok <==> Decode(host, Text, Str(cur), old(stream)).Ok?
      ensures forall cur :: ok ==> Decode(host, Text, Str(cur), old(stream)) == Ok(Str(s), stream)
    {
      hide DecodePod;
      var len;
      s := [];
      ok, len := ReadPod(UInt);
      if ok {
        ok, s := ReadChunks(len);
      }
    }

    /** operator>> into an object that holds cur; the outcome is not ok if "malformed data" is thrown. */
    method Read(ty: Ty, cur: Val) returns (ok: bool, v: Val)
      requires Shaped(ty, cur)
      modifies this
      ensures ok <==> Decode(host, ty, cur, old(stream)).Ok?
      ensures ok ==> Decode(host, ty, cur, old(stream)) == Ok(v, stream)
      decreases ty, 1
    {
      hide DecodePod, DecodeArray, DecodeMany;
      v := cur;
      match ty {
        case Pod(k) =>
          var n;
          ok, n := ReadPod(k);
          v := Num(n);
        case Text =>
          var s;
          ok, s := ReadText();
          v := Str(s);
        case Array(elem, _) =>
          var len;
          ok, len := ReadPod(UInt);
          if ok {
            var vs;
            ok, vs := ReadElements(elem, cur.vs);
            v := Many(vs);
          }
        case Container(_, _) =>
          var len;
          ok, len := ReadPod(UInt);
          if ok {
            var vs;
            ok, vs := ReadInserting(ty, cur.vs, len);
            v := Many(vs);
          }
        case Pair(f, g) =>
          ok, v := ReadPair(ty, cur);
      }
    }

    method ReadPair(ty: Ty, cur: Val) returns (ok: bool, v: Val)
      requires ty.Pair? && Shaped(ty, cur)
      modifies this
      ensures ok <==> Decode(host, ty, cur, old(stream)).Ok?
      ensures ok ==> Decode(host, ty, cur, old(stream)) == Ok(v, stream)
      decreases ty, 0
    {
      hide Decode;
      PairDecoding(host, ty, cur, stream);
      v := cur;
      var a;
      ok, a := Read(ty.fst, cur.a);
      if ok {
        var b;
        ok, b := Read(ty.snd, cur.b);
        v := Two(a, b);
      }
    }

    method ReadElements(elem: Ty, cur: seq<Val>) returns (ok: bool, vs: seq<Val>)
      requires AllShaped(elem, cur)
      modifies this
      ensures ok <==> DecodeArray(host, elem, cur, old(stream)).Ok?
      ensures ok ==> DecodeArray(host, elem, cur, old(stream)) == Ok(Many(vs), stream)
      decreases elem, 2
    {
      hide Decode, Shaped;
      vs, ok := [], true;
      var i := 0;
      assert cur[0..] == cur;
      while i < |cur|
        invariant i <= |cur|
        invariant ok
        invariant DecodeArray(host, elem, cur, old(stream)) == Prepend(vs, DecodeArray(host, elem, cur[i..], stream))
      {
        var v;
        assert cur[i..][1..] == cur[i + 1..];
        PrependStep(host, elem, vs, cur[i..], stream);
        ok, v := Read(elem, cur[i]);
        if !ok {
          return;
        }
        vs := vs + [v];
        i := i + 1;
      }
    }

    method ReadInserting(ty: Ty, cur: seq<Val>, len: nat) returns (ok: bool, vs: seq<Val>)
      requires ty.Container? && AllShaped(ty.elem, cur)
      modifies this
      ensures ok <==> DecodeMany(host, ty, cur, len, old(stream)).Ok?
      ensures ok ==> DecodeMany(host, ty, cur, len, old(stream)) == Ok(Many(vs), stream)
      decreases ty.elem, 2
    {
      hide Decode, Shaped, Insert, Default;
      vs, ok := cur, true;
      var i := 0;
      while i < len
        invariant i <= len
        invariant ok
        invariant AllShaped(ty.elem, vs)
        invariant DecodeMany(host, ty, cur, len, old(stream)) == DecodeMany(host, ty, vs, len - i, stream)
      {
        var value;
        ok, value := Read(ty.elem, Default(ty.elem));
        if !ok {
          return;
        }
        InsertShaped(host, ty, vs, value);
        vs := Insert(host, ty, vs, value);
        i := i + 1;
      }
    }

    method WritePod(k: Kind, n: int)
      requires k.Holds(n)
      modifies this
      ensures stream == old(stream) + EncodePod(host.le, k, n)
    {
      stream := stream + EncodePod(host.le, k, n);
    }

    method WriteText(s: seq<Byte>)
      modifies this
      ensures stream == old(stream) + Encode(host.le, Text, Str(s))
    {
      hide EncodePod;
      WritePod(UInt, |s| % U32);
      stream := stream + s[..|s| % U32];
    }

    /** operator<< */
    method Write(ty: Ty, v: Val)
      requires Shaped(ty, v)
      modifies this
      ensures stream == old(stream) + Encode(host.le, ty, v)
      decreases ty, 1
    {
      hide EncodeAll, AllShaped;
      match ty {
        case Pod(k) => WritePod(k, v.n);
        case Text => WriteText(v.s);
        case Array(elem, _) => WriteElements(ty, v);
        case Container(elem, _) => WriteElements(ty, v);
        case Pair(f, g) => WritePair(ty, v);
      }
    }

    /** A length, and the elements. */
    method WriteElements(ty: Ty, v: Val)
      requires (ty.Array? || ty.Container?) && Shaped(ty, v)
      modifies this
      ensures stream == old(stream) + Encode(host.le, ty, v)
      decreases ty, 0
    {
      hide EncodePod, EncodeAll, AllShaped;
      var count := if ty.Array? then ty.count else |v.vs|;
      ghost var before := stream;
      WritePod(UInt, count % U32);
      WriteAll(ty.elem, v.vs);
      assert stream == before + (EncodeLength(host.le, count) + EncodeAll(host.le, ty.elem, v.vs));
    }

    method WritePair(ty: Ty, v: Val)
      requires ty.Pair? && Shaped(ty, v)
      modifies this
      ensures stream == old(stream) + Encode(host.le, ty, v)
      decreases ty, 0
    {
      hide Encode;
      PairEncoding(host.le, ty, v);
      Write(ty.fst, v.a);
      Write(ty.snd, v.b);
    }

    method WriteAll(elem: Ty, vs: seq<Val>)
      requires AllShaped(elem, vs)
      modifies this
      ensures stream == old(stream) + EncodeAll(host.le, elem, vs)
      decreases elem, 2
    {
      hide Encode, Shaped;
      assert vs[0..] == vs;
      for i := 0 to |vs|
        invariant stream + EncodeAll(host.le, elem, vs[i..]) == old(stream) + EncodeAll(host.le, elem, vs)
      {
        assert vs[i..][1..] == vs[i + 1..];
        Write(elem, vs[i]);
      }
    }
  }

  lemma NextPiece(s: seq<Byte>, n: nat, l: nat)
    requires n + l <= |s|
    ensures s[..n] + s[n..][..l] == s[..n + l] && s[n..][l..] == s[n + l..]
  {}

  /** Elements already decoded in front of the outcome for the others. */
  ghost function Prepend(vs: seq<Val>, r: Result): Result
    requires r.Ok? ==> r.v.Many?
  {
    if r.Malformed? then Malformed else Ok(Many(vs + r.v.vs), r.rest)
  }

  lemma PrependStep(h: Host, elem: Ty, vs: seq<Val>, cur: seq<Val>, bytes: seq<Byte>)
    requires AllShaped(elem, cur) && cur != []
    ensures var first := Decode(h, elem, cur[0], bytes);
      Prepend(vs, DecodeArray(h, elem, cur, bytes))
      == if first.Malformed? then Malformed else Prepend(vs + [first.v], DecodeArray(h, elem, cur[1..], first.rest))
  {
    hide Decode;
    var first := Decode(h, elem, cur[0], bytes);
    if first.Ok? {
      var others := DecodeArray(h, elem, cur[1..], first.rest);
      if others.Ok? {
        assert vs + ([first.v] + others.v.vs) == vs + [first.v] + others.v.vs;
      }
    }
  }
}
