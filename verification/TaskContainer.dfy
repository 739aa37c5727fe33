/**
 * task_container (async/task_container.hpp) as an object: the list of slot numbers with the iterator free_pos_, which
 * is collected and grown in place.  Every method is proved against the transition of the same name in TaskSlots, so
 * what is proved there about every run holds for it.
 */
module TaskContainer {
  import opened TaskSlots

  /** free_pos_: a list iterator names a node, or is end(). */
  datatype Cursor = End | At(slot: nat)

  /** std::advance(free_pos_, 1): the node behind that of slot x. */
  function Advance(l: seq<nat>, x: nat): Cursor {
    if l == [] then End
    else if l[0] == x then (if |l| == 1 then End else At(l[1]))
    else Advance(l[1..], x)
  }

  lemma {:induction false} AdvanceShape(used: seq<nat>, free: seq<nat>)
    requires free != [] && free[0] !in used
    ensures Advance(used + free, free[0]) == (if |free| == 1 then End else At(free[1]))
  {
    if used == [] {
      assert used + free == free;
    } else {
      AdvanceShape(used[1..], free);
      assert (used + free)[1..] == used[1..] + free;
    }
  }

  lemma {:induction false} WithoutConcat(a: seq<nat>, b: seq<nat>, x: nat)
    requires x in a
    ensures Without(a + b, x) == Without(a, x) + b
  {
    assert (a + b)[1..] == a[1..] + b;
    if a[0] != x {
      WithoutConcat(a[1..], b, x);
    }
  }

  /** Erasing the node and appending it again is what Splice says. */
  lemma SpliceShape(s: State, x: nat)
    requires x in s.used
    ensures var r := Splice(s, x);
      && Without(s.used + s.free, x) + [x] == r.used + r.free
      && (r.free == [] <==> s.free == []) && (s.free != [] ==> r.free[0] == s.free[0])
  {
    WithoutConcat(s.used, s.free, x);
    if s.free == [] {
      assert s.used + s.free == s.used;
    }
  }

  lemma FirstIsNotUsed(s: State)
    requires Inv(s) && s.free != []
    ensures s.free[0] !in s.used
  {
    assert s.free[0] in Elems(s.free);
  }

  /** The locked part of start, as the sequence of its steps. */
  lemma AssignIs(v: State, collect: bool, newCapacity: nat)
    requires Inv(v) && Enabled(v, Assign(collect, newCapacity))
    ensures var c := if collect then Collect(v) else v;
      && Capacity(c) == Capacity(v)
      && Prepared(v, collect, newCapacity) == (if c.free == [] then Grow(c, newCapacity) else c)
    ensures var p := Prepared(v, collect, newCapacity);
      p.free != [] && p.pending == v.pending && p.free[0] !in v.live
  {
    hide Inv;
    hide Collect;
    hide Stranded;
    PreparedKeeps(v, collect, newCapacity);
    CollectKeepsAll(v);
    HandOut(Prepared(v, collect, newCapacity));
  }

  class Container {
    /** task_.size() */
    var capacity: nat
    /** task_idx_ */
    var list: seq<nat>
    /** free_pos_ */
    var freePos: Cursor
    /** task_to_del_ */
    var toDelete: seq<nat>
    /** size_ */
    var size: int

    ghost var view: State

    ghost predicate Valid()
      reads this
    {
      Inv(view) && Shape() && toDelete == view.toDelete
    }

    /** list, iterator and counters show the view. */
    ghost predicate Shape()
      reads this
    {
      && list == view.used + view.free && capacity == Capacity(view)
      && freePos == (if view.free == [] then End else At(view.free[0]))
      && size == view.size
    }

    /** init */
    constructor (reserve: nat)
      ensures Valid() && view == Init(reserve)
    {
      capacity := reserve;
      toDelete := [];
      size := 0;
      view := Init(reserve);
      list := [];
      new;
      hide Inv;
      for i := 0 to reserve
        invariant list == Range(0, i)
        invariant capacity == reserve && toDelete == [] && size == 0 && view == Init(reserve)
      {
        list := list + [i];
      }
      freePos := if list == [] then End else At(list[0]);
      InitInv(reserve);
      assert [] + Range(0, reserve) == Range(0, reserve);
    }

    /** start: the fetch_add in front of the lock. */
    method BeginStart()
      requires Valid()
      modifies this
      ensures Valid() && view == Apply(old(view), Begin)
    {
      Preserve(view, Begin);
      size := size + 1;
      view := Apply(view, Begin);
    }

    /** gc_internal */
    method GcInternal() returns (deleted: nat)
      requires Valid()
      modifies this
      ensures Valid() && view == Collect(old(view)) && deleted == |old(toDelete)|
    {
      hide Inv;
      hide Collect;
      deleted := 0;
      if toDelete != [] {
        ghost var v := view;
        for i := 0 to |toDelete|
          invariant toDelete == v.toDelete && view.toDelete == v.toDelete[i..]
          invariant Inv(view) && Shape() && Collect(view) == Collect(v)
        {
          CollectOneKeeps(view);
          var x := toDelete[i];
          SpliceShape(view, x);
          list := Without(list, x) + [x];
          view := CollectOne(view);
        }
        deleted := |toDelete|;
        toDelete := [];
      }
      CollectNothing(view);
    }

    /** grow, to the given number of slots; returns the position of the first new one. */
    method GrowList(newCapacity: nat) returns (pos: Cursor)
      requires capacity < newCapacity
      modifies this`list, this`capacity
      ensures list == old(list) + Range(old(capacity), newCapacity) && capacity == newCapacity
      ensures pos == At(old(capacity))
    {
      ghost var before := list;
      var from := capacity;
      pos := At(from);
      for i := from to newCapacity
        invariant list == before + Range(from, i)
      {
        list := list + [i];
      }
      capacity := newCapacity;
    }

    /** start: make sure that something is free. */
    method EnsureFree(newCapacity: nat)
      requires Valid() && capacity < newCapacity
      modifies this
      ensures Valid() && view.free != []
      ensures view == (if old(view).free == [] then Grow(old(view), newCapacity) else old(view))
    {
      hide Inv;
      if freePos == End {
        GrowKeeps(view, newCapacity);
        freePos := GrowList(newCapacity);
        view := Grow(view, newCapacity);
        assert list == view.used + view.free;
      }
    }

    /** start: assign the slot at free_pos_ and move on. */
    method HandOutFirst() returns (slot: nat)
      requires Valid() && view.free != [] && view.pending > 0
      modifies this
      ensures var p := old(view);
        && slot == p.free[0]
        && view == p.(used := p.used + [slot], free := p.free[1..], live := p.live + {slot}, pending := p.pending - 1)
      ensures Valid()
    {
      ghost var p := view;
      HandOut(p);
      FirstIsNotUsed(p);
      hide Inv;
      slot := freePos.slot;
      AdvanceShape(p.used, p.free);
      freePos := Advance(list, slot);
      view := p.(used := p.used + [slot], free := p.free[1..], live := p.live + {slot}, pending := p.pending - 1);
      assert list == view.used + view.free;
    }

    lemma ShapeMeans()
      requires Shape()
      ensures capacity == Capacity(view)
    {}

    /** start: the part under the lock; returns the slot assigned. */
    method AssignSlot(collect: bool, newCapacity: nat) returns (slot: nat)
      requires Valid() && Enabled(view, Assign(collect, newCapacity))
      modifies this
      ensures Valid() && view == Apply(old(view), Assign(collect, newCapacity))
      ensures slot == Chosen(old(view), collect, newCapacity) && slot !in old(view).live
    {
      hide Inv;
      hide Collect;
      hide Prepared;
      hide Shape;
      ghost var v := view;
      AssignIs(v, collect, newCapacity);
      ShapeMeans();
      if collect {
        var deleted := GcInternal();
        ShapeMeans();
      }
      EnsureFree(newCapacity);
      assert view == Prepared(v, collect, newCapacity);
      slot := HandOutFirst();
    }

    /** The end of make_cleanup_task. */
    method Complete(slot: nat)
      requires Valid() && slot in view.live
      modifies this
      ensures Valid() && view == Apply(old(view), TaskSlots.Complete(slot))
    {
      CompleteKeeps(view, slot);
      toDelete := toDelete + [slot];
      size := size - 1;
      view := Apply(view, TaskSlots.Complete(slot));
    }
  }
}
