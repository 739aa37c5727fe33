/**
 * Exactly when a value makes the round trip into an object that already holds something (protocol/archive.hpp): what
 * sequences and multisets hold must be nothing, what sets and maps hold must be part of the value.
 */
module ExactRoundTrip {
  import opened Endian
  import opened Sequences
  import opened Codec
  import opened OrderedContainers

  /** Ordered containers that may hold something before decoding compare by a strict weak order. */
  ghost predicate WellOrdered(h: Host, ty: Ty) {
    match ty
    case Pod(_) => true
    case Text => true
    case Array(elem, _) => WellOrdered(h, elem)
    case Container(_, mode) => mode == Append || WeakOrder(h, ty)
    case Pair(f, g) => WellOrdered(h, f) && WellOrdered(h, g)
  }

  /** Signed 16-bit leaves inside ordered containers survive; elsewhere they need not. */
  predicate Steady(w: bool, r: bool, ty: Ty, v: Val)
    requires Shaped(ty, v)
    decreases ty, 0
  {
    match ty
    case Pod(_) => true
    case Text => true
    case Array(elem, _) => AllSteady(w, r, elem, v.vs)
    case Container(elem, mode) => if mode == Append then AllSteady(w, r, elem, v.vs) else AllSurvive(w, r, elem, v.vs)
    case Pair(f, g) => Steady(w, r, f, v.a) && Steady(w, r, g, v.b)
  }

  predicate AllSteady(w: bool, r: bool, elem: Ty, vs: seq<Val>)
    requires AllShaped(elem, vs)
    decreases elem, 1
  {
    forall i :: 0 <= i < |vs| ==> Steady(w, r, elem, vs[i])
  }

  /** Nothing that cur holds sticks out of v. */
  ghost predicate Absorbed(ty: Ty, cur: Val, v: Val)
    requires Shaped(ty, cur) && Shaped(ty, v)
    decreases ty, 0
  {
    match ty
    case Pod(_) => true
    case Text => true
    case Array(elem, _) => AllAbsorbed(elem, cur.vs, v.vs)
    case Container(_, mode) => if mode == Unique then Within(cur.vs, v.vs) else cur.vs == []
    case Pair(f, g) => Absorbed(f, cur.a, v.a) && Absorbed(g, cur.b, v.b)
  }

  ghost predicate Within(cur: seq<Val>, vs: seq<Val>) {
    forall x :: x in cur ==> x in vs
  }

  ghost predicate AllAbsorbed(elem: Ty, cur: seq<Val>, vs: seq<Val>)
    requires |cur| == |vs| && AllShaped(elem, cur) && AllShaped(elem, vs)
    decreases elem, 1
  {
    forall i :: 0 <= i < |vs| ==> Absorbed(elem, cur[i], vs[i])
  }

  // ---------- ordered containers ----------

  lemma FollowsTransitive(h: Host, ty: Ty, x: Val, y: Val, z: Val)
    requires ty.Container? && WeakOrder(h, ty) && Follows(h, ty, x, y) && Follows(h, ty, y, z)
    ensures Follows(h, ty, x, z)
  {
    if ty.mode == Unique {
      LessTransitive(h, ty, x, y, z);
    }
  }

  lemma SortedPush(h: Host, ty: Ty, vs: seq<Val>, v: Val)
    requires ty.Container? && Sorted(h, ty, vs) && forall i :: 0 <= i < |vs| ==> Follows(h, ty, vs[i], v)
    ensures Sorted(h, ty, vs + [v])
  {
    hide Follows;
  }

  lemma {:induction false} AdjacentIsSorted(h: Host, ty: Ty, vs: seq<Val>)
    requires ty.Container? && ty.mode != Append && WeakOrder(h, ty)
    requires forall i {:trigger vs[i]} :: 1 <= i < |vs| ==> Follows(h, ty, vs[i - 1], vs[i])
    ensures Sorted(h, ty, vs)
  {
    hide WeakOrder, Follows;
    if vs != [] {
      var init, last := vs[..|vs| - 1], vs[|vs| - 1];
      AdjacentIsSorted(h, ty, init);
      forall i | 0 <= i < |init| ensures Follows(h, ty, vs[i], last) {
        var before := vs[|vs| - 2];
        assert Follows(h, ty, before, last);
        if i < |init| - 1 {
          assert Follows(h, ty, init[i], init[|init| - 1]);
          FollowsTransitive(h, ty, vs[i], before, last);
        }
      }
      SortedPush(h, ty, init, last);
      assert vs == init + [last];
    }
  }

  lemma FirstIsLeast(h: Host, ty: Ty, a: seq<Val>, b: seq<Val>)
    requires ty.Container? && ty.mode == Unique && WeakOrder(h, ty) && Sorted(h, ty, a) && Sorted(h, ty, b)
    requires a != [] && b != [] && a[0] in b && b[0] in a
    ensures a[0] == b[0]
  {
    var j :| 0 <= j < |b| && b[j] == a[0];
    var k :| 0 <= k < |a| && a[k] == b[0];
    assert j > 0 ==> Follows(h, ty, b[0], b[j]);
    assert k > 0 ==> Follows(h, ty, a[0], a[k]);
  }

  lemma TailMembers(h: Host, ty: Ty, a: seq<Val>)
    requires ty.Container? && ty.mode == Unique && WeakOrder(h, ty) && Sorted(h, ty, a) && a != []
    ensures Sorted(h, ty, a[1..]) && forall x :: x in a[1..] <==> x in a && x != a[0]
  {
    assert a == [a[0]] + a[1..];
    forall i | 1 <= i < |a| ensures a[i] != a[0] {
      assert Follows(h, ty, a[0], a[i]);
    }
  }

  /** A set is determined by its members. */
  lemma {:induction false} SameMembers(h: Host, ty: Ty, a: seq<Val>, b: seq<Val>)
    requires ty.Container? && ty.mode == Unique && WeakOrder(h, ty) && Sorted(h, ty, a) && Sorted(h, ty, b)
    requires forall x :: x in a <==> x in b
    ensures a == b
  {
    hide WeakOrder, Sorted;
    assert b != [] ==> b[0] in b;
    if a != [] {
      assert a[0] in b;
      assert b[0] in a;
      FirstIsLeast(h, ty, a, b);
      TailMembers(h, ty, a);
      TailMembers(h, ty, b);
      SameMembers(h, ty, a[1..], b[1..]);
      assert a == [a[0]] + a[1..] && b == [b[0]] + b[1..];
    }
  }

  lemma EquivalentIsSame(h: Host, ty: Ty, vs: seq<Val>, x: Val, y: Val)
    requires ty.Container? && ty.mode == Unique && Sorted(h, ty, vs)
    requires x in vs && y in vs && Equivalent(h, ty, y, x)
    ensures x == y
  {
    var i :| 0 <= i < |vs| && vs[i] == x;
    var j :| 0 <= j < |vs| && vs[j] == y;
    assert i < j ==> Follows(h, ty, vs[i], vs[j]);
    assert j < i ==> Follows(h, ty, vs[j], vs[i]);
  }

  /** Decoding a set or map over its own members changes nothing else. */
  lemma UniqueAbsorbs(w: bool, h: Host, ty: Ty, cur: seq<Val>, vs: seq<Val>)
    requires ty.Container? && ty.mode == Unique && AllShaped(ty.elem, vs) && WeakOrder(h, ty)
    requires Sorted(h, ty, cur) && Sorted(h, ty, vs) && AllSurvive(w, h.le, ty.elem, vs) && AllOrdered(h, ty.elem, vs)
    ensures ThroughMany(w, h, ty, cur, vs) == vs <==> Within(cur, vs)
  {
    hide WeakOrder, Sorted, ThroughMany, AllShaped, AllSurvive, AllOrdered, Equivalent;
    UniqueCovers(w, h, ty, cur, vs);
    var r := ThroughMany(w, h, ty, cur, vs);
    if Within(cur, vs) {
      ManyKeepsOrder(w, h, ty, cur, vs);
      forall x | x in vs ensures x in r {
        var y :| y in r && Equivalent(h, ty, y, x);
        EquivalentIsSame(h, ty, vs, x, y);
      }
      SameMembers(h, ty, r, vs);
    }
  }

  lemma MultiAbsorbs(w: bool, h: Host, ty: Ty, cur: seq<Val>, vs: seq<Val>)
    requires ty.Container? && ty.mode == Multi && AllShaped(ty.elem, vs) && WeakOrder(h, ty)
    requires Sorted(h, ty, cur) && Sorted(h, ty, vs) && AllSurvive(w, h.le, ty.elem, vs) && AllOrdered(h, ty.elem, vs)
    ensures ThroughMany(w, h, ty, cur, vs) == vs <==> cur == []
  {
    hide WeakOrder, ThroughMany, AllShaped, AllSurvive, AllOrdered;
    MultiKeepsAll(w, h, ty, cur, vs);
    assert |multiset(ThroughMany(w, h, ty, cur, vs))| == |cur| + |vs|;
    if cur == [] {
      assert [] + vs == vs;
      ManyIdentity(w, h, ty, [], vs);
    }
  }

  // ---------- all types ----------

  /** Into empty containers: exactly the surviving values arrive. */
  lemma {:induction false} BlankExactly(w: bool, h: Host, ty: Ty, cur: Val, v: Val)
    requires Shaped(ty, cur) && Shaped(ty, v) && Blank(ty, cur) && Ordered(h, ty, v) && Steady(w, h.le, ty, v)
    ensures Through(w, h, ty, cur, v) == v <==> Survives(w, h.le, ty, v)
    decreases ty, 0
  {
    match ty
    case Pod(k) =>
      PodTransfer(w, h.le, k, v.n);
      PodRoundTrip(w, h.le, k, v.n);
    case Text =>
    case Array(elem, _) => BlankArray(w, h, elem, cur.vs, v.vs);
    case Container(elem, mode) =>
      if mode == Append {
        AppendExactly(w, h, ty, cur.vs, v.vs);
      } else {
        Identity(w, h, ty, cur, v);
      }
    case Pair(f, g) =>
      BlankExactly(w, h, f, cur.a, v.a);
      BlankExactly(w, h, g, cur.b, v.b);
  }

  lemma {:induction false} BlankArray(w: bool, h: Host, elem: Ty, cur: seq<Val>, vs: seq<Val>)
    requires |cur| == |vs| && AllShaped(elem, cur) && AllShaped(elem, vs) && AllBlank(elem, cur)
    requires AllOrdered(h, elem, vs) && AllSteady(w, h.le, elem, vs)
    ensures ThroughArray(w, h, elem, cur, vs) == vs <==> AllSurvive(w, h.le, elem, vs)
    decreases elem, 1
  {
    hide Through, ThroughArray, Survives, Blank, Shaped, Steady, Ordered;
    ThroughArrayAt(w, h, elem, cur, vs);
    forall i | 0 <= i < |vs|
      ensures Through(w, h, elem, cur[i], vs[i]) == vs[i] <==> Survives(w, h.le, elem, vs[i])
    {
      BlankExactly(w, h, elem, cur[i], vs[i]);
    }
  }

  /** A sequence is replaced exactly if it was empty. */
  lemma {:induction false} AppendExactly(w: bool, h: Host, ty: Ty, cur: seq<Val>, vs: seq<Val>)
    requires ty.Container? && ty.mode == Append && AllShaped(ty.elem, vs)
    requires AllOrdered(h, ty.elem, vs) && AllSteady(w, h.le, ty.elem, vs)
    ensures ThroughMany(w, h, ty, cur, vs) == vs <==> cur == [] && AllSurvive(w, h.le, ty.elem, vs)
    decreases ty.elem, 1
  {
    hide Through, ThroughMany, Survives, Blank, Shaped, Default, Steady, Ordered;
    var elem := ty.elem;
    ThroughAppend(w, h, ty, cur, vs);
    forall i | 0 <= i < |vs|
      ensures Through(w, h, elem, Default(elem), vs[i]) == vs[i] <==> Survives(w, h.le, elem, vs[i])
    {
      BlankExactly(w, h, elem, Default(elem), vs[i]);
    }
  }

  /** Into any object: what arrives is the value exactly if it survives and absorbs what was there. */
  lemma {:induction false} IdentityExactly(w: bool, h: Host, ty: Ty, cur: Val, v: Val)
    requires WellOrdered(h, ty) && Shaped(ty, cur) && Shaped(ty, v)
    requires Ordered(h, ty, cur) && Ordered(h, ty, v) && Steady(w, h.le, ty, v)
    ensures Through(w, h, ty, cur, v) == v <==> Absorbed(ty, cur, v) && Survives(w, h.le, ty, v)
    decreases ty, 0
  {
    match ty
    case Pod(k) => BlankExactly(w, h, ty, cur, v);
    case Text =>
    case Array(elem, _) => ArrayExactly(w, h, elem, cur.vs, v.vs);
    case Container(_, mode) => ContainerExactly(w, h, ty, cur, v);
    case Pair(f, g) =>
      IdentityExactly(w, h, f, cur.a, v.a);
      IdentityExactly(w, h, g, cur.b, v.b);
  }

  lemma {:induction false} ArrayExactly(w: bool, h: Host, elem: Ty, cur: seq<Val>, vs: seq<Val>)
    requires WellOrdered(h, elem) && |cur| == |vs| && AllShaped(elem, cur) && AllShaped(elem, vs)
    requires AllOrdered(h, elem, cur) && AllOrdered(h, elem, vs) && AllSteady(w, h.le, elem, vs)
    ensures ThroughArray(w, h, elem, cur, vs) == vs <==> AllAbsorbed(elem, cur, vs) && AllSurvive(w, h.le, elem, vs)
    decreases elem, 1
  {
    hide Through, ThroughArray, Survives, Absorbed, Shaped, Steady, Ordered, WellOrdered;
    ThroughArrayAt(w, h, elem, cur, vs);
    forall i | 0 <= i < |vs|
      ensures Through(w, h, elem, cur[i], vs[i]) == vs[i] <==> Absorbed(elem, cur[i], vs[i]) && Survives(w, h.le, elem, vs[i])
    {
      IdentityExactly(w, h, elem, cur[i], vs[i]);
    }
  }

  lemma ContainerExactly(w: bool, h: Host, ty: Ty, cur: Val, v: Val)
    requires ty.Container? && WellOrdered(h, ty) && Shaped(ty, cur) && Shaped(ty, v)
    requires Ordered(h, ty, cur) && Ordered(h, ty, v) && Steady(w, h.le, ty, v)
    ensures Through(w, h, ty, cur, v) == v <==> Absorbed(ty, cur, v) && Survives(w, h.le, ty, v)
  {
    hide ThroughMany, AllShaped, AllOrdered, AllSurvive, AllSteady, WeakOrder, Within;
    if ty.mode == Append {
      AppendExactly(w, h, ty, cur.vs, v.vs);
    } else {
      AdjacentIsSorted(h, ty, cur.vs);
      AdjacentIsSorted(h, ty, v.vs);
      if ty.mode == Unique {
        UniqueAbsorbs(w, h, ty, cur.vs, v.vs);
      } else {
        MultiAbsorbs(w, h, ty, cur.vs, v.vs);
      }
    }
  }

  /**
   * The exact round trip for every type, between any two hosts, with anything behind the encoding.
   */
  lemma RoundTripExactly(w: bool, h: Host, ty: Ty, cur: Val, v: Val, rest: seq<Byte>)
    requires WellOrdered(h, ty) && Shaped(ty, cur) && Shaped(ty, v) && Small(ty, v)
    requires Ordered(h, ty, cur) && Ordered(h, ty, v) && Steady(w, h.le, ty, v)
    ensures Decode(h, ty, cur, Encode(w, ty, v) + rest) == Ok(v, rest)
       <==> Absorbed(ty, cur, v) && Survives(w, h.le, ty, v)
  {
    hide *;
    Transfer(w, h, ty, cur, v, rest);
    IdentityExactly(w, h, ty, cur, v);
  }

  /** Without ordered containers nothing is asked of the value. */
  lemma {:induction false} SequentialIsSteady(w: bool, h: Host, ty: Ty, v: Val)
    requires Sequential(ty) && Shaped(ty, v)
    ensures WellOrdered(h, ty) && Ordered(h, ty, v) && Steady(w, h.le, ty, v)
  {
    match ty
    case Pod(_) =>
    case Text =>
    case Array(elem, _) =>
      SequentialIsSteady(w, h, elem, Default(elem));
      forall i | 0 <= i < |v.vs| ensures Ordered(h, elem, v.vs[i]) && Steady(w, h.le, elem, v.vs[i]) {
        SequentialIsSteady(w, h, elem, v.vs[i]);
      }
    case Container(elem, _) =>
      forall i | 0 <= i < |v.vs| ensures Ordered(h, elem, v.vs[i]) && Steady(w, h.le, elem, v.vs[i]) {
        SequentialIsSteady(w, h, elem, v.vs[i]);
      }
    case Pair(f, g) =>
      SequentialIsSteady(w, h, f, v.a);
      SequentialIsSteady(w, h, g, v.b);
  }
}
