/**
 * Remote calls (protocol/rpc.hpp) over messages whose exported fields are traversed in the declared order
 * (protocol/schema.hpp).  The client and the server may be different hosts.
 */
module Rpc {
  import opened Endian
  import opened Sequences
  import opened Codec
  import opened ExactRoundTrip
  import opened Wire
  import opened BinaryStream

  datatype Field = Field(name: string, ty: Ty)

  /** A struct by its members; the schema may export some of them only. */
  type Message = map<string, Val>
  type Schema = seq<Field>

  datatype Outcome = Done(msg: Message, rest: seq<Byte>) | Thrown

  /** A member has one type, and none is exported twice. */
  ghost predicate Distinct(schema: Schema) {
    forall i, j :: 0 <= i < j < |schema| ==> schema[i].name != schema[j].name
  }

  ghost predicate Exports(schema: Schema, name: string) {
    exists i :: 0 <= i < |schema| && schema[i].name == name
  }

  ghost predicate Fits(schema: Schema, m: Message) {
    forall i :: 0 <= i < |schema| ==> schema[i].name in m && Shaped(schema[i].ty, m[schema[i].name])
  }

  ghost predicate AllFieldsBlank(schema: Schema, m: Message)
    requires Fits(schema, m)
  {
    forall i :: 0 <= i < |schema| ==> Blank(schema[i].ty, m[schema[i].name])
  }

  ghost predicate FieldsSmall(schema: Schema, m: Message)
    requires Fits(schema, m)
  {
    forall i :: 0 <= i < |schema| ==> Small(schema[i].ty, m[schema[i].name])
  }

  ghost predicate FieldsSurvive(w: bool, r: bool, schema: Schema, m: Message)
    requires Fits(schema, m)
  {
    forall i :: 0 <= i < |schema| ==> Survives(w, r, schema[i].ty, m[schema[i].name])
  }

  /** Each field can travel from a host with byte order w to host h. */
  ghost predicate Portable(w: bool, h: Host, schema: Schema, m: Message)
    requires Fits(schema, m)
  {
    forall i :: 0 <= i < |schema| ==> FieldPortable(w, h, schema[i].ty, m[schema[i].name])
  }

  predicate FieldPortable(w: bool, h: Host, ty: Ty, v: Val)
    requires Shaped(ty, v)
  {
    Small(ty, v) && Ordered(h, ty, v) && Survives(w, h.le, ty, v)
  }

  ghost function EncodeFields(le: bool, schema: Schema, m: Message): seq<Byte>
    requires Fits(schema, m)
  {
    if schema == [] then []
    else
      assert Fits(schema[1..], m);
      Encode(le, schema[0].ty, m[schema[0].name]) + EncodeFields(le, schema[1..], m)
  }

  ghost function DecodeFields(h: Host, schema: Schema, m: Message, bytes: seq<Byte>): (r: Outcome)
    requires Distinct(schema) && Fits(schema, m)
  {
    if schema == [] then Done(m, bytes)
    else
      var f := schema[0];
      var first := Decode(h, f.ty, m[f.name], bytes);
      if first.Malformed? then Thrown
      else DecodeFields(h, schema[1..], m[f.name := first.v], first.rest)
  }

  /** Exported fields as sent, the other members as they were. */
  ghost predicate Delivered(schema: Schema, before: Message, sent: Message, after: Message) {
    && after.Keys == before.Keys
    && (forall i :: 0 <= i < |schema| && schema[i].name in sent ==>
      schema[i].name in after && after[schema[i].name] == sent[schema[i].name])
    && (forall name :: name in before && name in after && !Exports(schema, name) ==> after[name] == before[name])
  }

  /** Each exported field of after is what arrives in the one of before; other members are untouched. */
  ghost predicate Arrived(w: bool, h: Host, schema: Schema, before: Message, sent: Message, after: Message)
    requires Fits(schema, before) && Fits(schema, sent)
  {
    && after.Keys == before.Keys
    && (forall i :: 0 <= i < |schema| ==>
      after[schema[i].name] == Through(w, h, schema[i].ty, before[schema[i].name], sent[schema[i].name]))
    && (forall name :: name in before && !Exports(schema, name) ==> after[name] == before[name])
  }

  /** Decoding in schema order what was encoded in schema order never fails and leaves what follows. */
  lemma {:induction false} FieldsTransfer(w: bool, h: Host, schema: Schema, before: Message, sent: Message, rest: seq<Byte>)
    requires Distinct(schema) && Fits(schema, before) && Fits(schema, sent) && FieldsSmall(schema, sent)
    ensures var r := DecodeFields(h, schema, before, EncodeFields(w, schema, sent) + rest);
      r.Done? && r.rest == rest && Arrived(w, h, schema, before, sent, r.msg)
  {
    hide Decode, Encode, Shaped, Through, Small;
    if schema == [] {
      assert EncodeFields(w, schema, sent) + rest == rest;
    } else {
      var f := schema[0];
      var tail := EncodeFields(w, schema[1..], sent) + rest;
      assert EncodeFields(w, schema, sent) + rest == Encode(w, f.ty, sent[f.name]) + tail;
      Transfer(w, h, f.ty, before[f.name], sent[f.name], tail);
      var got := Decode(h, f.ty, before[f.name], Encode(w, f.ty, sent[f.name]) + tail).v;
      var next := before[f.name := got];
      FieldsTransfer(w, h, schema[1..], next, sent, rest);
      ArrivedStep(w, h, schema, before, sent, got, DecodeFields(h, schema[1..], next, tail).msg);
    }
  }

  lemma ArrivedStep(w: bool, h: Host, schema: Schema, before: Message, sent: Message, got: Val, after: Message)
    requires schema != [] && Distinct(schema) && Fits(schema, before) && Fits(schema, sent)
    requires got == Through(w, h, schema[0].ty, before[schema[0].name], sent[schema[0].name])
    requires Fits(schema[1..], before[schema[0].name := got])
    requires Arrived(w, h, schema[1..], before[schema[0].name := got], sent, after)
    ensures Arrived(w, h, schema, before, sent, after)
  {
    hide Through, Shaped;
    var name := schema[0].name;
    assert !Exports(schema[1..], name);
    forall i | 0 <= i < |schema|
      ensures after[schema[i].name] == Through(w, h, schema[i].ty, before[schema[i].name], sent[schema[i].name])
    {
      if i > 0 {
        assert schema[i] == schema[1..][i - 1];
      }
    }
    forall other | other in before && !Exports(schema, other) ensures after[other] == before[other] {
      assert other != name by {
        assert schema[0].name == name;
      }
    }
  }

  /** Fields decoded in schema order, into a message whose containers are empty, are the fields encoded. */
  lemma FieldsRoundTrip(w: bool, h: Host, schema: Schema, blank: Message, sent: Message, rest: seq<Byte>)
    requires Distinct(schema) && Fits(schema, blank) && Fits(schema, sent)
    requires AllFieldsBlank(schema, blank) && Portable(w, h, schema, sent)
    ensures var r := DecodeFields(h, schema, blank, EncodeFields(w, schema, sent) + rest);
      r.Done? && r.rest == rest && Delivered(schema, blank, sent, r.msg)
  {
    hide Decode, Encode, Through, DecodeFields, EncodeFields, Blank, Small, Ordered, Survives, Shaped;
    FieldsTransfer(w, h, schema, blank, sent, rest);
    forall i | 0 <= i < |schema|
      ensures Through(w, h, schema[i].ty, blank[schema[i].name], sent[schema[i].name]) == sent[schema[i].name]
    {
      Identity(w, h, schema[i].ty, blank[schema[i].name], sent[schema[i].name]);
    }
  }

  ghost predicate FieldsAbsorbed(schema: Schema, before: Message, sent: Message)
    requires Fits(schema, before) && Fits(schema, sent)
  {
    forall i :: 0 <= i < |schema| ==> Absorbed(schema[i].ty, before[schema[i].name], sent[schema[i].name])
  }

  /** What RoundTripExactly asks of each field. */
  ghost predicate FieldsReady(w: bool, h: Host, schema: Schema, before: Message, sent: Message)
    requires Fits(schema, before) && Fits(schema, sent)
  {
    forall i :: 0 <= i < |schema| ==> FieldReady(w, h, schema[i].ty, before[schema[i].name], sent[schema[i].name])
  }

  ghost predicate FieldReady(w: bool, h: Host, ty: Ty, before: Val, sent: Val)
    requires Shaped(ty, before) && Shaped(ty, sent)
  {
    WellOrdered(h, ty) && Ordered(h, ty, before) && Ordered(h, ty, sent) && Steady(w, h.le, ty, sent)
  }

  /** Fields arrive as sent exactly if they survive and absorb what the message held. */
  lemma FieldsRoundTripExactly(w: bool, h: Host, schema: Schema, before: Message, sent: Message, rest: seq<Byte>)
    requires Distinct(schema) && Fits(schema, before) && Fits(schema, sent) && FieldsSmall(schema, sent)
    requires FieldsReady(w, h, schema, before, sent)
    ensures var r := DecodeFields(h, schema, before, EncodeFields(w, schema, sent) + rest);
      && r.Done? && r.rest == rest
      && (Delivered(schema, before, sent, r.msg) <==>
          FieldsAbsorbed(schema, before, sent) && FieldsSurvive(w, h.le, schema, sent))
  {
    hide Decode, Encode, Through, DecodeFields, EncodeFields, Absorbed, Small, Survives, Shaped;
    hide WellOrdered, Ordered, Steady;
    FieldsTransfer(w, h, schema, before, sent, rest);
    var r := DecodeFields(h, schema, before, EncodeFields(w, schema, sent) + rest);
    forall i | 0 <= i < |schema|
      ensures var f := schema[i];
        r.msg[f.name] == sent[f.name] <==> Absorbed(f.ty, before[f.name], sent[f.name]) && Survives(w, h.le, f.ty, sent[f.name])
    {
      IdentityExactly(w, h, schema[i].ty, before[schema[i].name], sent[schema[i].name]);
    }
  }

  // ---------- a message with default elements ----------

  const Vec: Ty := Container(Pod(Int), Append)
  const Chars: Ty := Array(Pod(UChar), 3)

  /** struct A of test/protocol_test.cc. */
  const TestSchema: Schema := [
    Field("i0", Pod(Char)), Field("i1", Pod(UInt)), Field("i2", Pod(UShort)), Field("i3", Pod(ULong)),
    Field("ar", Chars), Field("vec", Vec)]

  const DefaultVec: seq<Val> := [Num(1), Num(2), Num(3), Num(4), Num(5), Num(5), Num(6)]
  const DefaultChars: seq<Val> := [Num(97), Num(114), Num(0)]

  /** Its default member values. */
  const DefaultMessage: Message := map[
    "i0" := Num(99), "i1" := Num(1), "i2" := Num(2), "i3" := Num(3), "ar" := Many(DefaultChars), "vec" := Many(DefaultVec)]

  lemma DefaultFits()
    ensures Distinct(TestSchema) && Fits(TestSchema, DefaultMessage) && FieldsSmall(TestSchema, DefaultMessage)
  {
    hide Pow256;
  }

  lemma DigitsGrow(w: bool, h: Host, vs: seq<Val>)
    requires forall i :: 0 <= i < |vs| ==> vs[i].Num? && 0 <= vs[i].n < 10
    ensures Shaped(Vec, Many(vs)) && Through(w, h, Vec, Many(vs), Many(vs)) == Many(vs + vs)
  {
    hide Pow256;
    ManyIdentity(w, h, Vec, vs, vs);
  }

  /** A field without containers arrives as it is. */
  lemma PlainFieldStays(w: bool, h: Host, ty: Ty, before: Val, sent: Val)
    requires (ty.Pod? && ty.kind != Short) || ty == Chars
    requires Shaped(ty, before) && Shaped(ty, sent)
    ensures Through(w, h, ty, before, sent) == sent
  {
    Identity(w, h, ty, before, sent);
  }

  /** If only field k changes on arrival, only member k does. */
  lemma OnlyOneChanges(w: bool, h: Host, schema: Schema, m: Message, after: Message, k: nat, got: Val)
    requires Distinct(schema) && Fits(schema, m) && Arrived(w, h, schema, m, m, after) && k < |schema|
    requires forall i :: 0 <= i < |schema| && i != k ==> Through(w, h, schema[i].ty, m[schema[i].name], m[schema[i].name]) == m[schema[i].name]
    requires Through(w, h, schema[k].ty, m[schema[k].name], m[schema[k].name]) == got
    ensures after == m[schema[k].name := got]
  {
    hide Through, Shaped;
    forall name | name in m ensures after[name] == m[schema[k].name := got][name] {
      if Exports(schema, name) {
        var i :| 0 <= i < |schema| && schema[i].name == name;
        assert after[schema[i].name] == Through(w, h, schema[i].ty, m[schema[i].name], m[schema[i].name]);
      }
    }
  }

  /**
   * A request that is default-initialised with elements is not replaced by the one received: the vector of the request
   * arrives behind the default one, and everything else as sent.
   */
  lemma DefaultElementsStay(w: bool, h: Host)
    ensures Distinct(TestSchema) && Fits(TestSchema, DefaultMessage)
    ensures DecodeFields(h, TestSchema, DefaultMessage, EncodeFields(w, TestSchema, DefaultMessage) + [])
         == Done(DefaultMessage["vec" := Many(DefaultVec + DefaultVec)], [])
  {
    hide DecodeFields, EncodeFields, Distinct, FieldsSmall, Arrived, Through, Shaped;
    var m := DefaultMessage;
    DefaultFits();
    DigitsGrow(w, h, DefaultVec);
    FieldsTransfer(w, h, TestSchema, m, m, []);
    forall i | 0 <= i < |TestSchema| && i != 5
      ensures Through(w, h, TestSchema[i].ty, m[TestSchema[i].name], m[TestSchema[i].name]) == m[TestSchema[i].name]
    {
      PlainFieldStays(w, h, TestSchema[i].ty, m[TestSchema[i].name], m[TestSchema[i].name]);
    }
    var after := DecodeFields(h, TestSchema, m, EncodeFields(w, TestSchema, m) + []).msg;
    OnlyOneChanges(w, h, TestSchema, m, after, 5, Many(DefaultVec + DefaultVec));
  }

  // ---------- its bytes ----------

  /** Small numbers, each in as many bytes as its kind has. */
  function Padded(width: nat, ns: seq<Byte>): (s: seq<Byte>)
    requires width > 0
  {
    if ns == [] then [] else seq(width - 1, i => 0) + [ns[0]] + Padded(width, ns[1..])
  }

  lemma {:induction false} SmallElements(le: bool, k: Kind, vs: seq<Val>, ns: seq<Byte>)
    requires k != Short && |vs| == |ns| && forall i :: 0 <= i < |vs| ==> vs[i] == Num(ns[i]) && ns[i] < 128
    ensures AllShaped(Pod(k), vs) && EncodeAll(le, Pod(k), vs) == Padded(k.Width(), ns)
  {
    hide EncodePod;
    if vs != [] {
      SmallOnTheWire(le, k, ns[0]);
      SmallElements(le, k, vs[1..], ns[1..]);
      assert vs == [vs[0]] + vs[1..];
    }
  }

  lemma SmallMany(le: bool, ty: Ty, vs: seq<Val>, ns: seq<Byte>)
    requires (ty.Array? && ty.count == |vs|) || ty.Container?
    requires ty.elem.Pod? && ty.elem.kind != Short && |vs| < 128
    requires |vs| == |ns| && forall i :: 0 <= i < |vs| ==> vs[i] == Num(ns[i]) && ns[i] < 128
    ensures Shaped(ty, Many(vs)) && Encode(le, ty, Many(vs)) == [0, 0, 0, |vs|] + Padded(ty.elem.kind.Width(), ns)
  {
    hide EncodePod, EncodeAll, AllShaped, Padded;
    SmallElements(le, ty.elem.kind, vs, ns);
    SmallOnTheWire(le, UInt, |vs|);
    assert seq(3, i => 0) == [0, 0, 0];
  }

  lemma FirstField(le: bool, schema: Schema, m: Message)
    requires Fits(schema, m) && schema != []
    ensures Fits(schema[1..], m)
    ensures EncodeFields(le, schema, m)
         == Encode(le, schema[0].ty, m[schema[0].name]) + EncodeFields(le, schema[1..], m)
  {
    hide Encode, Shaped;
  }

  lemma NoFields(le: bool, m: Message)
    ensures Fits([], m) && EncodeFields(le, [], m) == []
  {}

  lemma SmallPod(le: bool, k: Kind, n: nat)
    requires k != Short && n < 128
    ensures Shaped(Pod(k), Num(n))
    ensures k.Width() == 1 ==> Encode(le, Pod(k), Num(n)) == [n]
    ensures k.Width() == 2 ==> Encode(le, Pod(k), Num(n)) == [0, n]
    ensures k.Width() == 4 ==> Encode(le, Pod(k), Num(n)) == [0, 0, 0, n]
    ensures k.Width() == 8 ==> Encode(le, Pod(k), Num(n)) == [0, 0, 0, 0, 0, 0, 0, n]
  {
    hide EncodePod;
    SmallOnTheWire(le, k, n);
  }

  lemma OneByteEach(ns: seq<Byte>)
    ensures |ns| == 3 ==> Padded(1, ns) == ns
  {
    if |ns| == 3 {
      var t, u := ns[1..], ns[2..];
      assert t[1..] == u && u[1..] == [];
      assert Padded(1, u) == [ns[2]];
      assert Padded(1, t) == [ns[1]] + [ns[2]];
    }
  }

  lemma FourBytesEach(ns: seq<Byte>, i: nat)
    requires i < |ns|
    ensures Padded(4, ns[i..]) == [0, 0, 0, ns[i]] + Padded(4, ns[i + 1..])
  {
    assert seq(3, i => 0) == [0, 0, 0];
    assert ns[i..][1..] == ns[i + 1..];
  }

  lemma SevenInts(ns: seq<Byte>)
    requires |ns| == 7
    ensures Padded(4, ns) == [0, 0, 0, ns[0]] + [0, 0, 0, ns[1]] + [0, 0, 0, ns[2]] + [0, 0, 0, ns[3]] + [0, 0, 0, ns[4]]
                           + [0, 0, 0, ns[5]] + [0, 0, 0, ns[6]]
  {
    assert ns[0..] == ns && ns[7..] == [];
    assert Padded(4, []) == [];
    hide Padded;
    FourBytesEach(ns, 0);
    FourBytesEach(ns, 1);
    FourBytesEach(ns, 2);
    FourBytesEach(ns, 3);
    FourBytesEach(ns, 4);
    FourBytesEach(ns, 5);
    FourBytesEach(ns, 6);
  }

  lemma SixFields(le: bool, schema: Schema, m: Message)
    requires |schema| == 6 && Fits(schema, m)
    ensures var b := seq(6, i requires 0 <= i < 6 => Encode(le, schema[i].ty, m[schema[i].name]));
      EncodeFields(le, schema, m) == b[0] + b[1] + b[2] + b[3] + b[4] + b[5]
  {
    hide Encode, Shaped, EncodeFields;
    assert schema[0..] == schema && schema[6..] == [];
    NoFields(le, m);
    FieldAt(le, schema, m, 0);
    FieldAt(le, schema, m, 1);
    FieldAt(le, schema, m, 2);
    FieldAt(le, schema, m, 3);
    FieldAt(le, schema, m, 4);
    FieldAt(le, schema, m, 5);
  }

  lemma FieldAt(le: bool, schema: Schema, m: Message, i: nat)
    requires Fits(schema, m) && i < |schema|
    ensures Fits(schema[i..], m) && Fits(schema[i + 1..], m)
    ensures EncodeFields(le, schema[i..], m)
         == Encode(le, schema[i].ty, m[schema[i].name]) + EncodeFields(le, schema[i + 1..], m)
  {
    hide Encode, Shaped, EncodeFields;
    assert schema[i..][1..] == schema[i + 1..];
    FirstField(le, schema[i..], m);
  }

  lemma DefaultCharsBytes(le: bool)
    ensures Shaped(Chars, Many(DefaultChars)) && Encode(le, Chars, Many(DefaultChars)) == [0, 0, 0, 3] + [97, 114, 0]
  {
    hide Encode, Shaped, Padded;
    var ns: seq<Byte> := [97, 114, 0];
    SmallMany(le, Chars, DefaultChars, ns);
    OneByteEach(ns);
  }

  lemma DefaultVecBytes(le: bool)
    ensures Shaped(Vec, Many(DefaultVec))
    ensures Encode(le, Vec, Many(DefaultVec))
         == [0, 0, 0, 7] + ([0, 0, 0, 1] + [0, 0, 0, 2] + [0, 0, 0, 3] + [0, 0, 0, 4] + [0, 0, 0, 5] + [0, 0, 0, 5] + [0, 0, 0, 6])
  {
    hide Encode, Shaped, Padded;
    var ns: seq<Byte> := [1, 2, 3, 4, 5, 5, 6];
    SmallMany(le, Vec, DefaultVec, ns);
    SevenInts(ns);
  }

  /** The default message of the test, byte by byte, from either kind of host. */
  lemma DefaultBytes(le: bool)
    ensures Fits(TestSchema, DefaultMessage)
    ensures EncodeFields(le, TestSchema, DefaultMessage)
         == [99]
          + [0, 0, 0, 1]
          + [0, 2]
          + [0, 0, 0, 0, 0, 0, 0, 3]
          + ([0, 0, 0, 3] + [97, 114, 0])
          + ([0, 0, 0, 7] + ([0, 0, 0, 1] + [0, 0, 0, 2] + [0, 0, 0, 3] + [0, 0, 0, 4] + [0, 0, 0, 5] + [0, 0, 0, 5] + [0, 0, 0, 6]))
  {
    hide Encode, Shaped, EncodeFields, Distinct, FieldsSmall;
    DefaultFits();
    SmallPod(le, Char, 99);
    SmallPod(le, UInt, 1);
    SmallPod(le, UShort, 2);
    SmallPod(le, ULong, 3);
    DefaultCharsBytes(le);
    DefaultVecBytes(le);
    SixFields(le, TestSchema, DefaultMessage);
  }

  // ---------- the call ----------

  /** request req; for_each(req, codec_ >> value) */
  method ReadFields(codec: Binary, schema: Schema, blank: Message) returns (ok: bool, m: Message)
    requires Distinct(schema) && Fits(schema, blank)
    modifies codec
    ensures ok <==> DecodeFields(codec.host, schema, blank, old(codec.stream)).Done?
    ensures ok ==> DecodeFields(codec.host, schema, blank, old(codec.stream)) == Done(m, codec.stream)
  {
    hide Decode, Shaped;
    m, ok := blank, true;
    assert schema[0..] == schema;
    for i := 0 to |schema|
      invariant ok && Fits(schema[i..], m)
      invariant DecodeFields(codec.host, schema, blank, old(codec.stream))
             == DecodeFields(codec.host, schema[i..], m, codec.stream)
    {
      assert schema[i..][1..] == schema[i + 1..];
      var f := schema[i..][0];
      var v;
      ok, v := codec.Read(f.ty, m[f.name]);
      if !ok {
        return;
      }
      m := m[f.name := v];
    }
  }

  method WriteFields(codec: Binary, schema: Schema, m: Message)
    requires Fits(schema, m)
    modifies codec
    ensures codec.stream == old(codec.stream) + EncodeFields(codec.host.le, schema, m)
  {
    hide Encode, Shaped;
    assert schema[0..] == schema;
    for i := 0 to |schema|
      invariant Fits(schema[i..], m)
      invariant codec.stream + EncodeFields(codec.host.le, schema[i..], m)
             == old(codec.stream) + EncodeFields(codec.host.le, schema, m)
    {
      assert schema[i..][1..] == schema[i + 1..];
      codec.Write(schema[i].ty, m[schema[i].name]);
    }
  }

  /** Every result of the handler is a response. */
  ghost predicate Responds(schema: Schema, handler: Message -> Message) {
    forall m :: Fits(schema, handler(m))
  }

  /** The call body: the handler sees the decoded request, and its result is written behind what is left. */
  method Call(codec: Binary, request: Schema, response: Schema, blank: Message, handler: Message -> Message)
      returns (ok: bool)
    requires Distinct(request) && Fits(request, blank) && Responds(response, handler)
    modifies codec
    ensures var r := DecodeFields(codec.host, request, blank, old(codec.stream));
      && (ok <==> r.Done?)
      && (ok ==> codec.stream == r.rest + EncodeFields(codec.host.le, response, handler(r.msg)))
  {
    hide Fits, DecodeFields, EncodeFields;
    var req;
    ok, req := ReadFields(codec, request, blank);
    if ok {
      var resp := handler(req);
      assert Fits(response, resp);
      WriteFields(codec, response, resp);
    }
  }

  /**
   * A call is transparent.  A client encodes its request, the server's call runs on the bytes, and the client decodes:
   * the server's handler has seen the client's request, the client has got exactly the handler's result, and the stream
   * is empty.
   */
  method RoundTripCall(client: Host, server: Host, request: Schema, response: Schema, handler: Message -> Message,
                       req: Message, blankReq: Message, blankResp: Message)
      returns (ok: bool, got: Message, left: seq<Byte>, ghost seen: Message)
    requires Distinct(request) && Distinct(response) && Responds(response, handler)
    requires Fits(request, req) && Fits(request, blankReq) && AllFieldsBlank(request, blankReq)
    requires Fits(response, blankResp) && AllFieldsBlank(response, blankResp)
    requires Portable(client.le, server, request, req)
    requires forall m :: Delivered(request, blankReq, req, m) ==> Portable(server.le, client, response, handler(m))
    ensures ok && left == []
    ensures Delivered(request, blankReq, req, seen)
    ensures Delivered(response, blankResp, handler(seen), got)
  {
    hide Fits, DecodeFields, EncodeFields, Distinct, AllFieldsBlank, Portable, Delivered;
    var sender := new Binary(client, []);
    WriteFields(sender, request, req);
    var bytes := sender.stream;
    assert bytes == EncodeFields(client.le, request, req) + [];
    FieldsRoundTrip(client.le, server, request, blankReq, req, []);
    seen := DecodeFields(server, request, blankReq, bytes).msg;
    var callee := new Binary(server, bytes);
    ok := Call(callee, request, response, blankReq, handler);
    assert Fits(response, handler(seen));
    FieldsRoundTrip(server.le, client, response, blankResp, handler(seen), []);
    var receiver := new Binary(client, callee.stream);
    assert receiver.stream == EncodeFields(server.le, response, handler(seen)) + [];
    ok, got := ReadFields(receiver, response, blankResp);
    left := receiver.stream;
  }
}
