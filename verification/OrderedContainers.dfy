/** Decoding into set, map, multiset and multimap, where elements may land anywhere (protocol/archive.hpp:206-255). */
module OrderedContainers {
  import opened Endian
  import opened Sequences
  import opened Codec

  /** The comparison of a container type is a strict weak order. */
  ghost predicate WeakOrder(h: Host, ty: Ty) {
    && (forall x, y :: h.less(ty, x, y) ==> !h.less(ty, y, x))
    && (forall x, y, z :: !h.less(ty, x, y) && !h.less(ty, y, z) ==> !h.less(ty, x, z))
  }

  predicate Equivalent(h: Host, ty: Ty, x: Val, y: Val) {
    !h.less(ty, x, y) && !h.less(ty, y, x)
  }

  ghost predicate Sorted(h: Host, ty: Ty, vs: seq<Val>)
    requires ty.Container?
  {
    forall i, j :: 0 <= i < j < |vs| ==> Follows(h, ty, vs[i], vs[j])
  }

  lemma LessTransitive(h: Host, ty: Ty, x: Val, y: Val, z: Val)
    requires WeakOrder(h, ty) && h.less(ty, x, y) && h.less(ty, y, z)
    ensures h.less(ty, x, z)
  {}

  lemma {:induction false} InsertFrom(h: Host, ty: Ty, vs: seq<Val>, v: Val)
    requires ty.Container?
    ensures forall x :: x in Insert(h, ty, vs, v) ==> x in vs || x == v
    ensures forall x :: x in vs ==> x in Insert(h, ty, vs, v)
  {
    if vs != [] && ty.mode != Append {
      InsertFrom(h, ty, vs[..|vs| - 1], v);
      assert vs == vs[..|vs| - 1] + [vs[|vs| - 1]];
    }
  }

  /** An insertion keeps a sorted container sorted. */
  lemma {:induction false} InsertKeepsOrder(h: Host, ty: Ty, vs: seq<Val>, v: Val)
    requires ty.Container? && WeakOrder(h, ty) && Sorted(h, ty, vs)
    ensures Sorted(h, ty, Insert(h, ty, vs, v))
  {
    if vs != [] && ty.mode != Append {
      var init, last := vs[..|vs| - 1], vs[|vs| - 1];
      if h.less(ty, v, last) {
        InsertKeepsOrder(h, ty, init, v);
        InsertFrom(h, ty, init, v);
        var moved := Insert(h, ty, init, v);
        forall i | 0 <= i < |moved| ensures Follows(h, ty, moved[i], last) {
          assert moved[i] in init || moved[i] == v;
        }
      } else {
        forall i | 0 <= i < |vs| && Insert(h, ty, vs, v) == vs + [v] ensures Follows(h, ty, vs[i], v) {
          assert vs == init + [last];
          if ty.mode == Unique && i < |vs| - 1 {
            LessTransitive(h, ty, vs[i], last, v);
          }
        }
      }
    }
  }

  /** multiset and multimap gain exactly the new element. */
  lemma {:induction false} MultiGains(h: Host, ty: Ty, vs: seq<Val>, v: Val)
    requires ty.Container? && ty.mode != Unique
    ensures multiset(Insert(h, ty, vs, v)) == multiset(vs) + multiset{v}
  {
    if vs != [] {
      MultiGains(h, ty, vs[..|vs| - 1], v);
      assert vs == vs[..|vs| - 1] + [vs[|vs| - 1]];
    }
  }

  /** set and map gain it exactly if they hold no equivalent one, and otherwise stay as they are. */
  lemma {:induction false} UniqueGains(h: Host, ty: Ty, vs: seq<Val>, v: Val)
    requires ty.Container? && ty.mode == Unique && WeakOrder(h, ty) && Sorted(h, ty, vs)
    ensures (exists x :: x in vs && Equivalent(h, ty, x, v)) ==> Insert(h, ty, vs, v) == vs
    ensures !(exists x :: x in vs && Equivalent(h, ty, x, v)) ==> multiset(Insert(h, ty, vs, v)) == multiset(vs) + multiset{v}
  {
    if vs != [] {
      var init, last := vs[..|vs| - 1], vs[|vs| - 1];
      assert vs == init + [last];
      UniqueGains(h, ty, init, v);
      if h.less(ty, last, v) {
        forall x | x in vs ensures !Equivalent(h, ty, x, v) {
          var i :| 0 <= i < |vs| && vs[i] == x;
          if i < |vs| - 1 {
            assert Follows(h, ty, vs[i], last);
            LessTransitive(h, ty, x, last, v);
          }
        }
      } else if !h.less(ty, v, last) {
        assert last in vs && Equivalent(h, ty, last, v);
      }
    }
  }

  /** Reading a whole container leaves it sorted. */
  lemma {:induction false} ManyKeepsOrder(w: bool, h: Host, ty: Ty, cur: seq<Val>, vs: seq<Val>)
    requires ty.Container? && AllShaped(ty.elem, vs) && WeakOrder(h, ty) && Sorted(h, ty, cur)
    ensures Sorted(h, ty, ThroughMany(w, h, ty, cur, vs))
    decreases |vs|
  {
    hide Through, Default, WeakOrder, Sorted, Insert, Shaped;
    if vs != [] {
      var got := Through(w, h, ty.elem, Default(ty.elem), vs[0]);
      InsertKeepsOrder(h, ty, cur, got);
      ManyKeepsOrder(w, h, ty, Insert(h, ty, cur, got), vs[1..]);
    }
  }

  /** Nothing is lost or invented in a multiset or multimap. */
  lemma {:induction false} MultiKeepsAll(w: bool, h: Host, ty: Ty, cur: seq<Val>, vs: seq<Val>)
    requires ty.Container? && ty.mode != Unique && AllShaped(ty.elem, vs)
    requires AllSurvive(w, h.le, ty.elem, vs) && AllOrdered(h, ty.elem, vs)
    ensures multiset(ThroughMany(w, h, ty, cur, vs)) == multiset(cur) + multiset(vs)
    decreases |vs|
  {
    hide Through, Survives, Ordered, Default, Insert, Shaped;
    if vs != [] {
      Identity(w, h, ty.elem, Default(ty.elem), vs[0]);
      MultiGains(h, ty, cur, vs[0]);
      MultiKeepsAll(w, h, ty, Insert(h, ty, cur, vs[0]), vs[1..]);
      assert vs == [vs[0]] + vs[1..];
    }
  }

  /** Reading a whole set or map: the elements there stay, and of equivalent ones the first stays. */
  lemma {:induction false} UniqueCovers(w: bool, h: Host, ty: Ty, cur: seq<Val>, vs: seq<Val>)
    requires ty.Container? && ty.mode == Unique && AllShaped(ty.elem, vs) && WeakOrder(h, ty) && Sorted(h, ty, cur)
    requires AllSurvive(w, h.le, ty.elem, vs) && AllOrdered(h, ty.elem, vs)
    ensures var r := ThroughMany(w, h, ty, cur, vs);
      && (forall x :: x in cur ==> x in r)
      && (forall x :: x in r ==> x in cur || x in vs)
      && (forall x :: x in vs ==> exists y :: y in r && Equivalent(h, ty, y, x))
    decreases |vs|
  {
    hide Through, Survives, Ordered, Default, Sorted, Insert, Shaped;
    if vs != [] {
      Identity(w, h, ty.elem, Default(ty.elem), vs[0]);
      var next := Insert(h, ty, cur, vs[0]);
      InsertKeepsOrder(h, ty, cur, vs[0]);
      UniqueCovers(w, h, ty, next, vs[1..]);
      InsertFrom(h, ty, cur, vs[0]);
      NewIsCovered(h, ty, cur, vs[0]);
      assert vs == [vs[0]] + vs[1..];
    }
  }

  lemma NewIsCovered(h: Host, ty: Ty, vs: seq<Val>, v: Val)
    requires ty.Container? && ty.mode == Unique && WeakOrder(h, ty) && Sorted(h, ty, vs)
    ensures exists y :: y in Insert(h, ty, vs, v) && Equivalent(h, ty, y, v)
  {
    UniqueGains(h, ty, vs, v);
    if !exists x :: x in vs && Equivalent(h, ty, x, v) {
      assert v in multiset(Insert(h, ty, vs, v));
      assert v in Insert(h, ty, vs, v) && Equivalent(h, ty, v, v);
    }
  }

  /** Decoding into a sorted multiset or multimap merges: the result is sorted and holds both contents. */
  lemma DecodeMerges(w: bool, h: Host, ty: Ty, cur: seq<Val>, vs: seq<Val>, rest: seq<Byte>)
    requires ty.Container? && ty.mode == Multi && WeakOrder(h, ty) && |vs| < U32
    requires AllShaped(ty.elem, cur) && AllShaped(ty.elem, vs) && AllSmall(ty.elem, vs) && Sorted(h, ty, cur)
    requires AllSurvive(w, h.le, ty.elem, vs) && AllOrdered(h, ty.elem, vs)
    ensures var r := Decode(h, ty, Many(cur), Encode(w, ty, Many(vs)) + rest);
      r.Ok? && r.rest == rest && Sorted(h, ty, r.v.vs) && multiset(r.v.vs) == multiset(cur) + multiset(vs)
  {
    hide Decode, Encode, Sorted, WeakOrder;
    Transfer(w, h, ty, Many(cur), Many(vs), rest);
    ManyKeepsOrder(w, h, ty, cur, vs);
    MultiKeepsAll(w, h, ty, cur, vs);
  }
}
