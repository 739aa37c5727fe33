/**
 * codec::Binary of protocol/archive.hpp as functions: a self-delimiting encoding of nested types, and what decoding does
 * with it on any pair of hosts.
 */
module Codec {
  import opened Endian
  import opened Sequences

  /** vector, deque and list append; set and map keep one of equivalent elements; multiset and multimap keep all. */
  datatype Mode = Append | Unique | Multi

  datatype Ty =
    | Pod(kind: Kind)
    | Text
    | Array(elem: Ty, count: nat)
    | Container(elem: Ty, mode: Mode)
    | Pair(fst: Ty, snd: Ty)

  datatype Val = Num(n: int) | Str(s: seq<Byte>) | Many(vs: seq<Val>) | Two(a: Val, b: Val)

  /** A host: its byte order, and the comparison of each ordered container type. */
  datatype Host = Host(le: bool, less: (Ty, Val, Val) -> bool)

  datatype Result = Ok(v: Val, rest: seq<Byte>) | Malformed

  const U32: nat := 0x1_0000_0000

  predicate Shaped(ty: Ty, v: Val)
    decreases ty, 0
  {
    match ty
    case Pod(k) => v.Num? && k.Holds(v.n)
    case Text => v.Str?
    case Array(elem, count) => v.Many? && |v.vs| == count && AllShaped(elem, v.vs)
    case Container(elem, _) => v.Many? && AllShaped(elem, v.vs)
    case Pair(f, g) => v.Two? && Shaped(f, v.a) && Shaped(g, v.b)
  }

  predicate AllShaped(elem: Ty, vs: seq<Val>)
    decreases elem, 1
  {
    forall i :: 0 <= i < |vs| ==> Shaped(elem, vs[i])
  }

  /** Every length fits the 32 bits it is written in. */
  predicate Small(ty: Ty, v: Val)
    requires Shaped(ty, v)
    decreases ty, 0
  {
    match ty
    case Pod(_) => true
    case Text => |v.s| < U32
    case Array(elem, _) => AllSmall(elem, v.vs)
    case Container(elem, _) => |v.vs| < U32 && AllSmall(elem, v.vs)
    case Pair(f, g) => Small(f, v.a) && Small(g, v.b)
  }

  predicate AllSmall(elem: Ty, vs: seq<Val>)
    requires AllShaped(elem, vs)
    decreases elem, 1
  {
    forall i :: 0 <= i < |vs| ==> Small(elem, vs[i])
  }

  // ---------- writing ----------

  function EncodeLength(le: bool, n: nat): (s: seq<Byte>)
    ensures |s| == 4
  {
    EncodePod(le, UInt, n % U32)
  }

  function Encode(le: bool, ty: Ty, v: Val): seq<Byte>
    requires Shaped(ty, v)
    decreases ty, 0
  {
    match ty
    case Pod(k) => EncodePod(le, k, v.n)
    case Text => EncodeLength(le, |v.s|) + v.s[..|v.s| % U32]
    case Array(elem, count) => EncodeLength(le, count) + EncodeAll(le, elem, v.vs)
    case Container(elem, _) => EncodeLength(le, |v.vs|) + EncodeAll(le, elem, v.vs)
    case Pair(f, g) => Encode(le, f, v.a) + Encode(le, g, v.b)
  }

  function EncodeAll(le: bool, elem: Ty, vs: seq<Val>): seq<Byte>
    requires AllShaped(elem, vs)
    decreases elem, 1 + |vs|
  {
    if vs == [] then [] else Encode(le, elem, vs[0]) + EncodeAll(le, elem, vs[1..])
  }

  // ---------- reading ----------

  function Default(ty: Ty): (v: Val)
    ensures Shaped(ty, v) && Blank(ty, v)
    decreases ty, 0
  {
    match ty
    case Pod(k) => Num(0)
    case Text => Str([])
    case Array(elem, count) => Many(seq(count, i => Default(elem)))
    case Container(_, _) => Many([])
    case Pair(f, g) => Two(Default(f), Default(g))
  }

  /** All containers in v are empty. */
  predicate Blank(ty: Ty, v: Val)
    requires Shaped(ty, v)
    decreases ty, 0
  {
    match ty
    case Array(elem, _) => AllBlank(elem, v.vs)
    case Container(_, _) => v.vs == []
    case Pair(f, g) => Blank(f, v.a) && Blank(g, v.b)
    case _ => true
  }

  predicate AllBlank(elem: Ty, vs: seq<Val>)
    requires AllShaped(elem, vs)
    decreases elem, 1
  {
    forall i :: 0 <= i < |vs| ==> Blank(elem, vs[i])
  }

  /** insert(end(), v): at the end of a sequence, after the elements that v does not precede in a sorted one. */
  function Insert(h: Host, ty: Ty, vs: seq<Val>, v: Val): seq<Val>
    requires ty.Container?
  {
    if vs == [] || ty.mode == Append then vs + [v]
    else
      var last := vs[|vs| - 1];
      if h.less(ty, v, last) then Insert(h, ty, vs[..|vs| - 1], v) + [last]
      else if ty.mode == Unique && !h.less(ty, last, v) then vs
      else vs + [v]
  }

  lemma InsertShaped(h: Host, ty: Ty, vs: seq<Val>, v: Val)
    requires ty.Container? && AllShaped(ty.elem, vs) && Shaped(ty.elem, v)
    ensures AllShaped(ty.elem, Insert(h, ty, vs, v))
  {}

  function DecodeLength(le: bool, bytes: seq<Byte>): (n: nat)
    requires |bytes| >= 4
    ensures n < U32
  {
    DecodePod(le, UInt, bytes[..4])
  }

  /** Decodes into cur. */
  function Decode(h: Host, ty: Ty, cur: Val, bytes: seq<Byte>): (r: Result)
    requires Shaped(ty, cur)
    ensures r.Ok? ==> Shaped(ty, r.v)
    decreases ty, 0
  {
    match ty
    case Pod(k) =>
      if |bytes| < k.Width() then Malformed
      else Ok(Num(DecodePod(h.le, k, bytes[..k.Width()])), bytes[k.Width()..])
    case Text =>
      if |bytes| < 4 then Malformed
      else Take(DecodeLength(h.le, bytes), bytes[4..])
    case Array(elem, count) =>
      if |bytes| < 4 then Malformed
      else DecodeArray(h, elem, cur.vs, bytes[4..])
    case Container(elem, _) =>
      if |bytes| < 4 then Malformed
      else DecodeMany(h, ty, cur.vs, DecodeLength(h.le, bytes), bytes[4..])
    case Pair(f, g) =>
      var first := Decode(h, f, cur.a, bytes);
      if first.Malformed? then Malformed
      else
        var second := Decode(h, g, cur.b, first.rest);
        if second.Malformed? then Malformed else Ok(Two(first.v, second.v), second.rest)
  }

  /** A single read of n bytes. */
  function Take(n: nat, bytes: seq<Byte>): (r: Result) {
    if |bytes| < n then Malformed else Ok(Str(bytes[..n]), bytes[n..])
  }

  /** Into each element in turn. */
  function DecodeArray(h: Host, elem: Ty, vs: seq<Val>, bytes: seq<Byte>): (r: Result)
    requires AllShaped(elem, vs)
    ensures r.Ok? ==> r.v.Many? && |r.v.vs| == |vs| && AllShaped(elem, r.v.vs)
    decreases elem, 1 + |vs|
  {
    if vs == [] then Ok(Many([]), bytes)
    else
      var first := Decode(h, elem, vs[0], bytes);
      if first.Malformed? then Malformed
      else
        var others := DecodeArray(h, elem, vs[1..], first.rest);
        if others.Malformed? then Malformed else Ok(Many([first.v] + others.v.vs), others.rest)
  }

  /** n elements, each into a new one, inserted into vs. */
  function DecodeMany(h: Host, ty: Ty, vs: seq<Val>, n: nat, bytes: seq<Byte>): (r: Result)
    requires ty.Container? && AllShaped(ty.elem, vs)
    ensures r.Ok? ==> r.v.Many? && AllShaped(ty.elem, r.v.vs)
    decreases ty.elem, 1 + n
  {
    if n == 0 then Ok(Many(vs), bytes)
    else
      var first := Decode(h, ty.elem, Default(ty.elem), bytes);
      if first.Malformed? then Malformed
      else
        InsertShaped(h, ty, vs, first.v);
        DecodeMany(h, ty, Insert(h, ty, vs, first.v), n - 1, first.rest)
  }

  // ---------- what arrives ----------

  /** The value of an object holding cur after reading what w wrote for v, without a byte in between. */
  function Through(w: bool, h: Host, ty: Ty, cur: Val, v: Val): (r: Val)
    requires Shaped(ty, cur) && Shaped(ty, v)
    decreases ty, 0
  {
    match ty
    case Pod(k) => Num(PodThrough(w, h.le, k, v.n))
    case Text => v
    case Array(elem, _) => Many(ThroughArray(w, h, elem, cur.vs, v.vs))
    case Container(_, _) => Many(ThroughMany(w, h, ty, cur.vs, v.vs))
    case Pair(f, g) => Two(Through(w, h, f, cur.a, v.a), Through(w, h, g, cur.b, v.b))
  }

  function ThroughArray(w: bool, h: Host, elem: Ty, cur: seq<Val>, vs: seq<Val>): (r: seq<Val>)
    requires |cur| == |vs| && AllShaped(elem, cur) && AllShaped(elem, vs)
    decreases elem, 1 + |vs|
  {
    if vs == [] then [] else [Through(w, h, elem, cur[0], vs[0])] + ThroughArray(w, h, elem, cur[1..], vs[1..])
  }

  function ThroughMany(w: bool, h: Host, ty: Ty, cur: seq<Val>, vs: seq<Val>): (r: seq<Val>)
    requires ty.Container? && AllShaped(ty.elem, vs)
    decreases ty.elem, 1 + |vs|
  {
    if vs == [] then cur
    else ThroughMany(w, h, ty, Insert(h, ty, cur, Through(w, h, ty.elem, Default(ty.elem), vs[0])), vs[1..])
  }

  lemma LengthTransfer(w: bool, r: bool, n: nat, rest: seq<Byte>)
    requires n < U32
    ensures DecodeLength(r, EncodeLength(w, n) + rest) == n
    ensures (EncodeLength(w, n) + rest)[4..] == rest
  {
    hide EncodePod, DecodePod;
    PodTransfer(w, r, UInt, n);
    assert (EncodeLength(w, n) + rest)[..4] == EncodeLength(w, n);
  }

  lemma NumberTransfer(w: bool, h: Host, k: Kind, cur: Val, n: int, rest: seq<Byte>)
    requires Shaped(Pod(k), cur) && k.Holds(n)
    ensures Decode(h, Pod(k), cur, EncodePod(w, k, n) + rest) == Ok(Num(PodThrough(w, h.le, k, n)), rest)
  {
    hide EncodePod, DecodePod, PodThrough;
    PodTransfer(w, h.le, k, n);
    assert (EncodePod(w, k, n) + rest)[..k.Width()] == EncodePod(w, k, n);
  }

  lemma TextTransfer(w: bool, h: Host, cur: Val, s: seq<Byte>, rest: seq<Byte>)
    requires Shaped(Text, cur) && |s| < U32
    ensures Decode(h, Text, cur, Encode(w, Text, Str(s)) + rest) == Ok(Str(s), rest)
  {
    hide EncodeLength, DecodeLength;
    LengthTransfer(w, h.le, |s|, s + rest);
    assert s[..|s|] == s;
    assert Encode(w, Text, Str(s)) + rest == EncodeLength(w, |s|) + (s + rest);
  }

  lemma PairTransfer(w: bool, h: Host, ty: Ty, cur: Val, v: Val, rest: seq<Byte>)
    requires ty.Pair? && Shaped(ty, cur) && Shaped(ty, v)
    requires var tail := Encode(w, ty.snd, v.b) + rest;
      && Decode(h, ty.fst, cur.a, Encode(w, ty.fst, v.a) + tail) == Ok(Through(w, h, ty.fst, cur.a, v.a), tail)
      && Decode(h, ty.snd, cur.b, tail) == Ok(Through(w, h, ty.snd, cur.b, v.b), rest)
    ensures Decode(h, ty, cur, Encode(w, ty, v) + rest) == Ok(Through(w, h, ty, cur, v), rest)
  {
    hide Decode, Encode, Through;
    var tail := Encode(w, ty.snd, v.b) + rest;
    PairEncoding(w, ty, v);
    assert Encode(w, ty, v) + rest == Encode(w, ty.fst, v.a) + tail;
    PairDecoding(h, ty, cur, Encode(w, ty, v) + rest);
    PairThrough(w, h, ty, cur, v);
  }

  lemma PairEncoding(w: bool, ty: Ty, v: Val)
    requires ty.Pair? && Shaped(ty, v)
    ensures Encode(w, ty, v) == Encode(w, ty.fst, v.a) + Encode(w, ty.snd, v.b)
  {}

  lemma PairThrough(w: bool, h: Host, ty: Ty, cur: Val, v: Val)
    requires ty.Pair? && Shaped(ty, cur) && Shaped(ty, v)
    ensures Through(w, h, ty, cur, v) == Two(Through(w, h, ty.fst, cur.a, v.a), Through(w, h, ty.snd, cur.b, v.b))
  {}

  lemma PairDecoding(h: Host, ty: Ty, cur: Val, bytes: seq<Byte>)
    requires ty.Pair? && Shaped(ty, cur)
    ensures var first := Decode(h, ty.fst, cur.a, bytes);
      && (first.Malformed? ==> Decode(h, ty, cur, bytes).Malformed?)
      && (first.Ok? ==> (
        var second := Decode(h, ty.snd, cur.b, first.rest);
        Decode(h, ty, cur, bytes) == if second.Malformed? then Malformed else Ok(Two(first.v, second.v), second.rest)))
  {}

  /** Decoding an encoding followed by anything: the value that arrives, and exactly what followed. */
  lemma {:induction false} Transfer(w: bool, h: Host, ty: Ty, cur: Val, v: Val, rest: seq<Byte>)
    requires Shaped(ty, cur) && Shaped(ty, v) && Small(ty, v)
    ensures Decode(h, ty, cur, Encode(w, ty, v) + rest) == Ok(Through(w, h, ty, cur, v), rest)
    decreases ty, 0
  {
    match ty
    case Pod(k) => NumberTransfer(w, h, k, cur, v.n, rest);
    case Text => TextTransfer(w, h, cur, v.s, rest);
    case Array(elem, _) =>
      ArrayTransfer(w, h, elem, cur.vs, v.vs, rest);
      AfterLength(w, h, ty, cur, v, rest);
    case Container(_, _) =>
      ManyTransfer(w, h, ty, cur.vs, v.vs, rest);
      AfterLength(w, h, ty, cur, v, rest);
    case Pair(f, g) =>
      Transfer(w, h, f, cur.a, v.a, Encode(w, g, v.b) + rest);
      Transfer(w, h, g, cur.b, v.b, rest);
      PairTransfer(w, h, ty, cur, v, rest);
  }

  lemma AfterLength(w: bool, h: Host, ty: Ty, cur: Val, v: Val, rest: seq<Byte>)
    requires (ty.Array? || ty.Container?) && Shaped(ty, cur) && Shaped(ty, v) && Small(ty, v)
    ensures var bytes := EncodeAll(w, ty.elem, v.vs) + rest;
      Decode(h, ty, cur, Encode(w, ty, v) + rest)
      == if ty.Array? then DecodeArray(h, ty.elem, cur.vs, bytes) else DecodeMany(h, ty, cur.vs, |v.vs|, bytes)
  {
    hide EncodeLength, DecodeLength, EncodeAll, DecodeArray, DecodeMany;
    var bytes := EncodeAll(w, ty.elem, v.vs) + rest;
    assert Encode(w, ty, v) + rest == EncodeLength(w, |v.vs|) + bytes;
    if ty.Container? {
      LengthTransfer(w, h.le, |v.vs|, bytes);
    } else {
      assert (EncodeLength(w, |v.vs|) + bytes)[4..] == bytes;
    }
  }

  lemma {:induction false} ArrayTransfer(w: bool, h: Host, elem: Ty, cur: seq<Val>, vs: seq<Val>, rest: seq<Byte>)
    requires |cur| == |vs| && AllShaped(elem, cur) && AllShaped(elem, vs) && AllSmall(elem, vs)
    ensures DecodeArray(h, elem, cur, EncodeAll(w, elem, vs) + rest) == Ok(Many(ThroughArray(w, h, elem, cur, vs)), rest)
    decreases elem, 1 + |vs|
  {
    hide Decode, Encode, Through, Shaped, Small;
    if vs == [] {
      assert EncodeAll(w, elem, vs) + rest == rest;
    } else {
      Transfer(w, h, elem, cur[0], vs[0], EncodeAll(w, elem, vs[1..]) + rest);
      ArrayTransfer(w, h, elem, cur[1..], vs[1..], rest);
      assert EncodeAll(w, elem, vs) + rest == Encode(w, elem, vs[0]) + (EncodeAll(w, elem, vs[1..]) + rest);
    }
  }

  lemma {:induction false} ManyTransfer(w: bool, h: Host, ty: Ty, cur: seq<Val>, vs: seq<Val>, rest: seq<Byte>)
    requires ty.Container? && AllShaped(ty.elem, cur) && AllShaped(ty.elem, vs) && AllSmall(ty.elem, vs)
    ensures DecodeMany(h, ty, cur, |vs|, EncodeAll(w, ty.elem, vs) + rest) == Ok(Many(ThroughMany(w, h, ty, cur, vs)), rest)
    decreases ty.elem, 1 + |vs|
  {
    hide Decode, Encode, Through, Insert, Default;
    if vs == [] {
      assert EncodeAll(w, ty.elem, vs) + rest == rest;
    } else {
      var bytes := EncodeAll(w, ty.elem, vs[1..]) + rest;
      assert EncodeAll(w, ty.elem, vs) + rest == Encode(w, ty.elem, vs[0]) + bytes;
      Transfer(w, h, ty.elem, Default(ty.elem), vs[0], bytes);
      var got := Through(w, h, ty.elem, Default(ty.elem), vs[0]);
      InsertShaped(h, ty, cur, got);
      ManyTransfer(w, h, ty, Insert(h, ty, cur, got), vs[1..], rest);
    }
  }

  // ---------- the round trip ----------

  /** Every 16-bit signed leaf survives the pair of hosts. */
  predicate Survives(w: bool, r: bool, ty: Ty, v: Val)
    requires Shaped(ty, v)
    decreases ty, 0
  {
    match ty
    case Pod(k) => PodSurvives(w, r, k, v.n)
    case Text => true
    case Array(elem, _) => AllSurvive(w, r, elem, v.vs)
    case Container(elem, _) => AllSurvive(w, r, elem, v.vs)
    case Pair(f, g) => Survives(w, r, f, v.a) && Survives(w, r, g, v.b)
  }

  predicate AllSurvive(w: bool, r: bool, elem: Ty, vs: seq<Val>)
    requires AllShaped(elem, vs)
    decreases elem, 1
  {
    forall i :: 0 <= i < |vs| ==> Survives(w, r, elem, vs[i])
  }

  /** Ordered containers are in their iteration order. */
  predicate Ordered(h: Host, ty: Ty, v: Val)
    requires Shaped(ty, v)
    decreases ty, 0
  {
    match ty
    case Pod(_) => true
    case Text => true
    case Array(elem, _) => AllOrdered(h, elem, v.vs)
    case Container(elem, _) =>
      && AllOrdered(h, elem, v.vs)
      && forall i {:trigger v.vs[i]} :: 1 <= i < |v.vs| ==> Follows(h, ty, v.vs[i - 1], v.vs[i])
    case Pair(f, g) => Ordered(h, f, v.a) && Ordered(h, g, v.b)
  }

  predicate Follows(h: Host, ty: Ty, x: Val, y: Val)
    requires ty.Container?
  {
    match ty.mode
    case Append => true
    case Unique => h.less(ty, x, y) && !h.less(ty, y, x)
    case Multi => !h.less(ty, y, x)
  }

  predicate AllOrdered(h: Host, elem: Ty, vs: seq<Val>)
    requires AllShaped(elem, vs)
    decreases elem, 1
  {
    forall i :: 0 <= i < |vs| ==> Ordered(h, elem, vs[i])
  }

  /** No ordered container anywhere in the type. */
  predicate Sequential(ty: Ty) {
    match ty
    case Pod(_) => true
    case Text => true
    case Array(elem, _) => Sequential(elem)
    case Container(elem, mode) => mode == Append && Sequential(elem)
    case Pair(f, g) => Sequential(f) && Sequential(g)
  }

  lemma {:induction false} Identity(w: bool, h: Host, ty: Ty, cur: Val, v: Val)
    requires Shaped(ty, cur) && Shaped(ty, v) && Blank(ty, cur)
    requires Survives(w, h.le, ty, v) && Ordered(h, ty, v)
    ensures Through(w, h, ty, cur, v) == v
    decreases ty, 0
  {
    match ty
    case Pod(k) =>
    case Text =>
    case Array(elem, _) => ArrayIdentity(w, h, elem, cur.vs, v.vs);
    case Container(elem, _) =>
      ManyIdentity(w, h, ty, [], v.vs);
      assert [] + v.vs == v.vs;
    case Pair(f, g) =>
      Identity(w, h, f, cur.a, v.a);
      Identity(w, h, g, cur.b, v.b);
  }

  lemma {:induction false} ArrayIdentity(w: bool, h: Host, elem: Ty, cur: seq<Val>, vs: seq<Val>)
    requires |cur| == |vs| && AllShaped(elem, cur) && AllShaped(elem, vs) && AllBlank(elem, cur)
    requires AllSurvive(w, h.le, elem, vs) && AllOrdered(h, elem, vs)
    ensures ThroughArray(w, h, elem, cur, vs) == vs
    decreases elem, 1 + |vs|
  {
    hide Through, Survives, Ordered, Blank, Shaped;
    if vs != [] {
      Identity(w, h, elem, cur[0], vs[0]);
      ArrayIdentity(w, h, elem, cur[1..], vs[1..]);
      assert vs == [vs[0]] + vs[1..];
    }
  }

  lemma InsertAtEnd(h: Host, ty: Ty, vs: seq<Val>, v: Val)
    requires ty.Container? && (vs != [] ==> Follows(h, ty, vs[|vs| - 1], v))
    ensures Insert(h, ty, vs, v) == vs + [v]
  {}

  /** Elements that follow those already there are appended. */
  lemma {:induction false} ManyIdentity(w: bool, h: Host, ty: Ty, cur: seq<Val>, vs: seq<Val>)
    requires ty.Container? && AllShaped(ty.elem, vs)
    requires AllSurvive(w, h.le, ty.elem, vs) && AllOrdered(h, ty.elem, vs)
    requires forall i {:trigger (cur + vs)[i]} :: 1 <= i < |cur + vs| ==> Follows(h, ty, (cur + vs)[i - 1], (cur + vs)[i])
    ensures ThroughMany(w, h, ty, cur, vs) == cur + vs
    decreases ty.elem, 1 + |vs|
  {
    hide Through, Survives, Ordered, Default, Insert, Follows, Shaped;
    if vs != [] {
      Identity(w, h, ty.elem, Default(ty.elem), vs[0]);
      assert (cur + vs)[|cur|] == vs[0];
      assert cur != [] ==> (cur + vs)[|cur| - 1] == cur[|cur| - 1];
      InsertAtEnd(h, ty, cur, vs[0]);
      assert cur + [vs[0]] + vs[1..] == cur + vs;
      ManyIdentity(w, h, ty, cur + [vs[0]], vs[1..]);
    }
  }

  /**
   * The round trip, for every type, any pair of hosts, any trailing bytes and any object whose containers are empty.
   */
  lemma RoundTrip(w: bool, h: Host, ty: Ty, cur: Val, v: Val, rest: seq<Byte>)
    requires Shaped(ty, cur) && Shaped(ty, v) && Blank(ty, cur) && Small(ty, v) && Ordered(h, ty, v)
    requires Survives(w, h.le, ty, v)
    ensures Decode(h, ty, cur, Encode(w, ty, v) + rest) == Ok(v, rest)
  {
    Transfer(w, h, ty, cur, v, rest);
    Identity(w, h, ty, cur, v);
  }

  predicate NoShort(ty: Ty) {
    match ty
    case Pod(k) => k != Short
    case Text => true
    case Array(elem, _) => NoShort(elem)
    case Container(elem, _) => NoShort(elem)
    case Pair(f, g) => NoShort(f) && NoShort(g)
  }

  lemma {:induction false} NoShortSurvives(w: bool, r: bool, ty: Ty, v: Val)
    requires NoShort(ty) && Shaped(ty, v)
    ensures Survives(w, r, ty, v)
  {
    match ty
    case Pod(_) =>
    case Text =>
    case Array(elem, _) =>
      forall i | 0 <= i < |v.vs| ensures Survives(w, r, elem, v.vs[i]) { NoShortSurvives(w, r, elem, v.vs[i]); }
    case Container(elem, _) =>
      forall i | 0 <= i < |v.vs| ensures Survives(w, r, elem, v.vs[i]) { NoShortSurvives(w, r, elem, v.vs[i]); }
    case Pair(f, g) =>
      NoShortSurvives(w, r, f, v.a);
      NoShortSurvives(w, r, g, v.b);
  }

  /** The unconditional form: types without signed 16-bit leaves. */
  lemma HostIndependent(w: bool, h: Host, ty: Ty, cur: Val, v: Val, rest: seq<Byte>)
    requires NoShort(ty) && Shaped(ty, cur) && Shaped(ty, v) && Blank(ty, cur) && Small(ty, v) && Ordered(h, ty, v)
    ensures Decode(h, ty, cur, Encode(w, ty, v) + rest) == Ok(v, rest)
  {
    NoShortSurvives(w, h.le, ty, v);
    RoundTrip(w, h, ty, cur, v, rest);
  }

  lemma {:induction false} ThroughArrayAt(w: bool, h: Host, elem: Ty, cur: seq<Val>, vs: seq<Val>)
    requires |cur| == |vs| && AllShaped(elem, cur) && AllShaped(elem, vs)
    ensures var r := ThroughArray(w, h, elem, cur, vs);
      |r| == |vs| && forall i :: 0 <= i < |vs| ==> r[i] == Through(w, h, elem, cur[i], vs[i])
    decreases |vs|
  {
    hide Through;
    if vs != [] {
      ThroughArrayAt(w, h, elem, cur[1..], vs[1..]);
    }
  }

  /** A sequence keeps what it held, and gets the elements behind it. */
  lemma {:induction false} ThroughAppend(w: bool, h: Host, ty: Ty, cur: seq<Val>, vs: seq<Val>)
    requires ty.Container? && ty.mode == Append && AllShaped(ty.elem, vs)
    ensures ThroughMany(w, h, ty, cur, vs)
         == cur + seq(|vs|, i requires 0 <= i < |vs| => Through(w, h, ty.elem, Default(ty.elem), vs[i]))
    decreases |vs|
  {
    hide Through, Default;
    if vs != [] {
      var got := Through(w, h, ty.elem, Default(ty.elem), vs[0]);
      ThroughAppend(w, h, ty, cur + [got], vs[1..]);
    }
  }

  /** A vector, deque or list that is not empty is extended by the decoded elements. */
  lemma AppendsToContents(w: bool, h: Host, elem: Ty, cur: seq<Val>, vs: seq<Val>, rest: seq<Byte>)
    requires AllShaped(elem, cur) && AllShaped(elem, vs) && AllSmall(elem, vs) && |vs| < U32
    requires AllSurvive(w, h.le, elem, vs) && AllOrdered(h, elem, vs)
    ensures var ty := Container(elem, Append);
      Decode(h, ty, Many(cur), Encode(w, ty, Many(vs)) + rest) == Ok(Many(cur + vs), rest)
  {
    var ty := Container(elem, Append);
    Transfer(w, h, ty, Many(cur), Many(vs), rest);
    ManyIdentity(w, h, ty, cur, vs);
  }
}
