/**
 * The slot bookkeeping of task_container (async/task_container.hpp).  A linked list of slot numbers is split by the
 * iterator free_pos_ into slots handed out and slots free; completed slots are collected later by moving their list
 * nodes to the end.  The state keeps the two parts of the list apart: free_pos_ is the first node of the second part,
 * or end() when that part is empty.
 */
module TaskSlots {

  /**
   * used and free are the list before and from free_pos_, toDelete is task_to_del_, size is size_.  Bookkeeping: live
   * is the set of slots whose task has not completed, pending counts calls of start between fetch_add and lock,
   * started and completed count tasks.
   */
  datatype State = State(used: seq<nat>, free: seq<nat>, toDelete: seq<nat>, live: set<nat>,
                         size: int, pending: nat, started: nat, completed: nat)

  function Capacity(s: State): nat {
    |s.used| + |s.free|
  }

  /** from, from + 1, ..., to - 1 */
  function Range(from: nat, to: nat): (r: seq<nat>)
    requires from <= to
    ensures |r| == to - from && forall i :: 0 <= i < |r| ==> r[i] == from + i
  {
    seq(to - from, i => from + i)
  }

  /** init */
  function Init(reserve: nat): State {
    State([], Range(0, reserve), [], {}, 0, 0, 0, 0)
  }

  function Without(l: seq<nat>, x: nat): seq<nat> {
    if l == [] then [] else if l[0] == x then l[1..] else [l[0]] + Without(l[1..], x)
  }

  /**
   * splice(end(), list, node): the node moves to the end.  Behind free_pos_ that makes the slot free; but end() stays
   * end(), so if nothing was free the slot stays in front of free_pos_.
   */
  function Splice(s: State, x: nat): State {
    if s.free == [] then s.(used := Without(s.used, x) + [x])
    else s.(used := Without(s.used, x), free := s.free + [x])
  }

  function SpliceAll(s: State, xs: seq<nat>): (r: State)
    ensures r.pending == s.pending && r.started == s.started && r.completed == s.completed
    decreases xs
  {
    if xs == [] then s else SpliceAll(Splice(s, xs[0]), xs[1..])
  }

  /** gc_internal */
  function Collect(s: State): State {
    SpliceAll(s, s.toDelete).(toDelete := [])
  }

  /** grow, called when nothing is free; the new size is what the growth factor makes of the old one. */
  function Grow(s: State, capacity: nat): State
    requires Capacity(s) <= capacity
  {
    s.(free := s.free + Range(Capacity(s), capacity))
  }

  datatype Action =
    | Begin                                  // start: fetch_add on size_
    | Assign(collect: bool, capacity: nat)   // start: the locked part
    | Complete(slot: nat)                    // the end of make_cleanup_task, under the lock
    | GarbageCollect

  /** The state in which start looks for a slot. */
  function Prepared(s: State, collect: bool, capacity: nat): State {
    var c := if collect then Collect(s) else s;
    if c.free == [] && Capacity(c) < capacity then Grow(c, capacity) else c
  }

  /**
   * Growth must add at least one slot to a list that is not empty: with a factor that does not, the source dereferences
   * end(), and an empty list has no last position to grow behind.
   */
  predicate Enabled(s: State, x: Action) {
    match x
    case Begin => true
    case Assign(collect, capacity) => s.pending > 0 && 0 < Capacity(s) < capacity
    case Complete(slot) => slot in s.live
    case GarbageCollect => true
  }

  /** The slot that start assigns. */
  function Chosen(s: State, collect: bool, capacity: nat): nat {
    var p := Prepared(s, collect, capacity);
    if p.free == [] then 0 else p.free[0]
  }

  function Apply(s: State, x: Action): State
    requires Enabled(s, x)
  {
    match x
    case Begin => s.(size := s.size + 1, pending := s.pending + 1, started := s.started + 1)
    case Assign(collect, capacity) =>
      var p := Prepared(s, collect, capacity);
      if p.free == [] then p
      else p.(used := p.used + [p.free[0]], free := p.free[1..], live := p.live + {p.free[0]}, pending := p.pending - 1)
    case Complete(slot) =>
      s.(toDelete := s.toDelete + [slot], live := s.live - {slot}, size := s.size - 1, completed := s.completed + 1)
    case GarbageCollect => Collect(s)
  }

  // ---------- the invariant ----------

  ghost predicate Distinct(l: seq<nat>) {
    forall i, j :: 0 <= i < j < |l| ==> l[i] != l[j]
  }

  function Elems(l: seq<nat>): (e: set<nat>) {
    set x | x in l
  }

  ghost predicate Inv(s: State) {
    && Distinct(s.used) && Distinct(s.free) && Elems(s.used) !! Elems(s.free)
    && (forall x :: x in Elems(s.used) ==> x < Capacity(s)) && (forall x :: x in Elems(s.free) ==> x < Capacity(s))
    && Distinct(s.toDelete)
    && Elems(s.toDelete) <= Elems(s.used) && s.live <= Elems(s.used) && s.live !! Elems(s.toDelete)
    && s.size == |s.live| + s.pending && s.size == s.started - s.completed
  }

  /** Slots in front of free_pos_ that are neither live nor waiting to be collected. */
  function Stranded(s: State): set<nat> {
    Elems(s.used) - s.live - Elems(s.toDelete)
  }

  lemma {:induction false} DistinctSize(l: seq<nat>)
    requires Distinct(l)
    ensures |Elems(l)| == |l|
  {
    if l != [] {
      DistinctSize(l[1..]);
      assert Elems(l) == Elems(l[1..]) + {l[0]};
    }
  }

  lemma InitInv(reserve: nat)
    ensures Inv(Init(reserve))
  {
  }

  lemma {:induction false} WithoutIs(l: seq<nat>, x: nat)
    requires Distinct(l) && x in l
    ensures |Without(l, x)| == |l| - 1 && Distinct(Without(l, x)) && x !in Without(l, x)
    ensures forall y :: y in Without(l, x) <==> y in l && y != x
  {
    if l[0] != x {
      var t := l[1..];
      WithoutIs(t, x);
      var r := Without(t, x);
      assert forall y :: y in l <==> y == l[0] || y in t;
      assert l[0] !in t;
      assert Without(l, x) == [l[0]] + r;
    } else {
      assert Without(l, x) == l[1..];
      assert forall y :: y in l <==> y == l[0] || y in l[1..];
    }
  }

  lemma DistinctPush(l: seq<nat>, x: nat)
    requires Distinct(l) && x !in l
    ensures Distinct(l + [x]) && Elems(l + [x]) == Elems(l) + {x}
  {}

  /** Moving one node keeps the numbers; the slot becomes free, or stranded if nothing was free. */
  lemma SpliceKeeps(s: State, x: nat)
    requires Inv(s) && x in s.used && x !in s.live
    ensures var r := Splice(s, x);
      && Distinct(r.used) && Distinct(r.free) && Elems(r.used) !! Elems(r.free)
      && Elems(r.used) + Elems(r.free) == Elems(s.used) + Elems(s.free)
      && Elems(r.used) == (if s.free == [] then Elems(s.used) else Elems(s.used) - {x})
      && Capacity(r) == Capacity(s) && r.free == (if s.free == [] then [] else s.free + [x])
  {
    WithoutIs(s.used, x);
    DistinctPush(Without(s.used, x), x);
    assert x in Elems(s.used) && x !in Elems(s.free);
    DistinctPush(s.free, x);
    assert Elems(Without(s.used, x)) == Elems(s.used) - {x};
  }

  lemma TailOf(l: seq<nat>)
    requires Distinct(l) && l != []
    ensures Distinct(l[1..]) && Elems(l[1..]) == Elems(l) - {l[0]} && l[0] in l
  {
    HeadAndTail(l);
    assert l[0] !in l[1..];
  }

  lemma {:induction false} SpliceAllIgnores(s: State, xs: seq<nat>, d: seq<nat>)
    ensures SpliceAll(s.(toDelete := d), xs).(toDelete := []) == SpliceAll(s, xs).(toDelete := [])
    decreases xs
  {
    if xs != [] {
      SpliceAllIgnores(Splice(s, xs[0]), xs[1..], d);
      assert Splice(s.(toDelete := d), xs[0]) == Splice(s, xs[0]).(toDelete := d);
    }
  }

  /** One round of the loop in gc_internal. */
  function CollectOne(s: State): State
    requires s.toDelete != []
  {
    Splice(s, s.toDelete[0]).(toDelete := s.toDelete[1..])
  }

  lemma CollectOneInv(s: State)
    requires Inv(s) && s.toDelete != []
    ensures var t := CollectOne(s);
      && s.toDelete[0] in s.used && s.toDelete[0] !in s.live
      && Inv(t) && t.live == s.live && Capacity(t) == Capacity(s)
      && t.free == (if s.free == [] then [] else s.free + [s.toDelete[0]])
      && Elems(t.used) == (if s.free == [] then Elems(s.used) else Elems(s.used) - {s.toDelete[0]})
      && Elems(t.toDelete) == Elems(s.toDelete) - {s.toDelete[0]}
  {
    hide Distinct, Splice, Elems;
    var xs := s.toDelete;
    var x := xs[0];
    TailOf(xs);
    InElems(xs, x);
    InElems(s.used, x);
    SpliceKeeps(s, x);
    SpliceCopies(s, x);
    TakeOut(Elems(s.used), Elems(xs), s.live, x);
  }

  lemma CollectOneKeeps(s: State)
    requires Inv(s) && s.toDelete != []
    ensures var t := CollectOne(s);
      && s.toDelete[0] in s.used && s.toDelete[0] !in s.live
      && Inv(t) && t.live == s.live && Capacity(t) == Capacity(s)
      && t.free == (if s.free == [] then [] else s.free + [s.toDelete[0]])
      && Stranded(t) == Stranded(s) + (if s.free == [] then {s.toDelete[0]} else {})
      && Collect(t) == Collect(s)
  {
    CollectOneInv(s);
    CollectRest(s);
    InElems(s.toDelete, s.toDelete[0]);
    TakeOut(Elems(s.used), Elems(s.toDelete), s.live, s.toDelete[0]);
    hide Elems, Inv, Capacity, CollectOne, Collect;
  }

  lemma InElems(l: seq<nat>, x: nat)
    ensures x in l <==> x in Elems(l)
  {}

  lemma TakeOut(used: set<nat>, gone: set<nat>, live: set<nat>, x: nat)
    requires gone <= used && live <= used && live !! gone && x in gone
    ensures gone - {x} <= used - {x} && live <= used - {x} && live !! gone - {x}
    ensures used - {x} - live - (gone - {x}) == used - live - gone
    ensures used - live - (gone - {x}) == used - live - gone + {x}
  {}

  lemma SpliceCopies(s: State, x: nat)
    ensures Splice(s, x) == s.(used := Splice(s, x).used, free := Splice(s, x).free)
  {}

  /** The rounds that follow do the rest. */
  lemma CollectRest(s: State)
    requires s.toDelete != []
    ensures Collect(CollectOne(s)) == Collect(s)
  {
    hide Splice;
    var xs, x := s.toDelete, s.toDelete[0];
    SpliceAllIgnores(Splice(s, x), xs[1..], xs[1..]);
  }

  /** Collecting keeps the slots in order and frees them, or strands them if nothing was free. */
  lemma {:induction false} CollectKeepsAll(s: State)
    requires Inv(s)
    ensures var r := Collect(s);
      && Inv(r) && r.live == s.live && Capacity(r) == Capacity(s) && r.toDelete == []
      && r.free == (if s.free == [] then [] else s.free + s.toDelete)
      && Stranded(r) == Stranded(s) + (if s.free == [] then Elems(s.toDelete) else {})
    decreases s.toDelete
  {
    hide *;
    if s.toDelete == [] {
      CollectNothing(s);
    } else {
      var x, xs := s.toDelete[0], s.toDelete[1..];
      CollectOneKeeps(s);
      CollectOneTail(s);
      CollectKeepsAll(CollectOne(s));
      HeadAndTail(s.toDelete);
      FreeTogether(s.free, s.toDelete);
      StrandedTogether(Stranded(s), x, Elems(xs));
    }
  }

  lemma FreeTogether(free: seq<nat>, xs: seq<nat>)
    requires xs != []
    ensures free + [xs[0]] + xs[1..] == free + xs && free + [xs[0]] != []
  {}

  lemma StrandedTogether(a: set<nat>, x: nat, b: set<nat>)
    ensures a + {x} + b == a + ({x} + b) && a + {} == a
  {}

  lemma CollectNothing(s: State)
    requires s.toDelete == []
    ensures Collect(s) == s && Elems(s.toDelete) == {} && s.free + s.toDelete == s.free && Stranded(s) + {} == Stranded(s)
  {}

  lemma CollectOneTail(s: State)
    requires s.toDelete != []
    ensures CollectOne(s).toDelete == s.toDelete[1..]
  {}

  lemma HeadAndTail(l: seq<nat>)
    requires l != []
    ensures Elems(l) == {l[0]} + Elems(l[1..])
  {
    assert forall y :: y in l <==> y == l[0] || y in l[1..];
  }

  lemma RangeIs(from: nat, to: nat)
    requires from <= to
    ensures Distinct(Range(from, to)) && Elems([]) == {}
    ensures forall x :: x in Elems(Range(from, to)) ==> from <= x < to
  {}

  lemma GrowKeeps(s: State, capacity: nat)
    requires Inv(s) && s.free == [] && Capacity(s) < capacity
    ensures Inv(Grow(s, capacity)) && Stranded(Grow(s, capacity)) == Stranded(s)
    ensures Capacity(Grow(s, capacity)) == capacity && Grow(s, capacity).free == Range(Capacity(s), capacity) != []
  {
    hide Distinct, Elems;
    var r := Grow(s, capacity);
    assert r.free == Range(Capacity(s), capacity);
    RangeIs(Capacity(s), capacity);
  }

  /** Before a slot is assigned there is a free one. */
  lemma PreparedKeeps(s: State, collect: bool, capacity: nat)
    requires Inv(s) && Capacity(s) < capacity
    ensures var p := Prepared(s, collect, capacity);
      && Inv(p) && p.free != [] && p.live == s.live && p.pending == s.pending
      && (collect ==> p.toDelete == []) && (!collect ==> p.toDelete == s.toDelete)
      && Capacity(p) == (if s.free == [] then capacity else Capacity(s))
      && p.started == s.started && p.completed == s.completed
      && Stranded(p) == Stranded(s) + (if collect && s.free == [] then Elems(s.toDelete) else {})
  {
    hide SpliceAll;
    CollectKeepsAll(s);
    var c := if collect then Collect(s) else s;
    if c.free == [] {
      GrowKeeps(c, capacity);
    }
  }

  /** Handing out the first free slot. */
  lemma HandOut(p: State)
    requires Inv(p) && p.free != [] && p.pending > 0
    ensures var x := p.free[0];
      var r := p.(used := p.used + [x], free := p.free[1..], live := p.live + {x}, pending := p.pending - 1);
      Inv(r) && x !in p.live && x !in p.toDelete && Stranded(r) == Stranded(p)
  {
    hide Distinct, Elems;
    var x := p.free[0];
    TailOf(p.free);
    InElems(p.free, x);
    InElems(p.used, x);
    InElems(p.toDelete, x);
    DistinctPush(p.used, x);
    MoveAcross(Elems(p.used), Elems(p.free), Elems(p.toDelete), p.live, x);
  }

  lemma MoveAcross(used: set<nat>, free: set<nat>, gone: set<nat>, live: set<nat>, x: nat)
    requires used !! free && gone <= used && live <= used && live !! gone && x in free
    ensures used + {x} !! free - {x} && (used + {x}) + (free - {x}) == used + free
    ensures gone <= used + {x} && live + {x} <= used + {x} && live + {x} !! gone
    ensures used + {x} - (live + {x}) - gone == used - live - gone && |live + {x}| == |live| + 1
  {}

  lemma CompleteKeeps(s: State, slot: nat)
    requires Inv(s) && slot in s.live
    ensures Inv(Apply(s, Complete(slot))) && Stranded(Apply(s, Complete(slot))) == Stranded(s)
  {
    hide Distinct, Elems;
    InElems(s.toDelete, slot);
    DistinctPush(s.toDelete, slot);
    Finish(Elems(s.used), Elems(s.toDelete), s.live, slot);
  }

  lemma Finish(used: set<nat>, gone: set<nat>, live: set<nat>, x: nat)
    requires gone <= used && live <= used && live !! gone && x in live
    ensures gone + {x} <= used && live - {x} <= used && live - {x} !! gone + {x} && |live - {x}| == |live| - 1
    ensures used - (live - {x}) - (gone + {x}) == used - live - gone
  {}

  lemma BeginKeeps(s: State)
    requires Inv(s)
    ensures Inv(Apply(s, Begin))
  {
    hide Distinct;
  }

  lemma AssignKeeps(s: State, collect: bool, capacity: nat)
    requires Inv(s) && Enabled(s, Assign(collect, capacity))
    ensures Inv(Apply(s, Assign(collect, capacity)))
  {
    hide Prepared;
    hide Inv;
    PreparedKeeps(s, collect, capacity);
    HandOut(Prepared(s, collect, capacity));
  }

  lemma CollectKeeps(s: State)
    requires Inv(s)
    ensures Inv(Apply(s, GarbageCollect))
  {
    hide Inv;
    CollectKeepsAll(s);
  }

  lemma Preserve(s: State, x: Action)
    requires Inv(s) && Enabled(s, x)
    ensures Inv(Apply(s, x))
  {
    hide Inv;
    hide Apply;
    match x
    case Begin => BeginKeeps(s);
    case Assign(collect, capacity) => AssignKeeps(s, collect, capacity);
    case Complete(slot) => CompleteKeeps(s, slot);
    case GarbageCollect => CollectKeeps(s);
  }

  // ---------- every run ----------

  predicate Possible(s: State, run: seq<Action>)
    decreases run
  {
    run == [] || (Enabled(s, run[0]) && Possible(Apply(s, run[0]), run[1..]))
  }

  function After(s: State, run: seq<Action>): State
    requires Possible(s, run)
    decreases run
  {
    if run == [] then s else After(Apply(s, run[0]), run[1..])
  }

  lemma {:induction false} RunInv(s: State, run: seq<Action>)
    requires Inv(s) && Possible(s, run)
    ensures Inv(After(s, run))
    decreases run
  {
    hide Inv;
    hide Apply;
    hide Enabled;
    if run != [] {
      Preserve(s, run[0]);
      RunInv(Apply(s, run[0]), run[1..]);
    }
  }

  function Begins(run: seq<Action>): nat {
    if run == [] then 0 else (if run[0].Begin? then 1 else 0) + Begins(run[1..])
  }

  function Assigns(run: seq<Action>): nat {
    if run == [] then 0 else (if run[0].Assign? then 1 else 0) + Assigns(run[1..])
  }

  function Completes(run: seq<Action>): nat {
    if run == [] then 0 else (if run[0].Complete? then 1 else 0) + Completes(run[1..])
  }

  lemma CountStep(s: State, x: Action)
    requires Inv(s) && Enabled(s, x)
    ensures var s' := Apply(s, x);
      && s'.started == s.started + (if x.Begin? then 1 else 0)
      && s'.completed == s.completed + (if x.Complete? then 1 else 0)
      && s'.pending == s.pending + (if x.Begin? then 1 else 0) - (if x.Assign? then 1 else 0)
  {
    hide Prepared, Inv, SpliceAll;
    if x.Assign? {
      PreparedKeeps(s, x.collect, x.capacity);
    }
  }

  /** The counters are those of the run. */
  lemma {:induction false} CountsOfRun(s: State, run: seq<Action>)
    requires Inv(s) && Possible(s, run)
    ensures var s' := After(s, run);
      && s'.started == s.started + Begins(run) && s'.completed == s.completed + Completes(run)
      && s'.pending == s.pending + Begins(run) - Assigns(run)
    decreases run
  {
    hide Inv, Apply, Enabled;
    if run != [] {
      CountStep(s, run[0]);
      Preserve(s, run[0]);
      CountsOfRun(Apply(s, run[0]), run[1..]);
    }
  }

  /** start never assigns a slot whose task is still running, nor one that waits to be collected. */
  lemma NeverAssignsLive(reserve: nat, run: seq<Action>, collect: bool, capacity: nat)
    requires Possible(Init(reserve), run) && Enabled(After(Init(reserve), run), Assign(collect, capacity))
    ensures var s := After(Init(reserve), run);
      var x := Chosen(s, collect, capacity);
      && x !in s.live && x in Apply(s, Assign(collect, capacity)).live
      && (x in s.toDelete ==> collect)
  {
    hide Prepared;
    hide Init;
    InitInv(reserve);
    RunInv(Init(reserve), run);
    var s := After(Init(reserve), run);
    PreparedKeeps(s, collect, capacity);
    HandOut(Prepared(s, collect, capacity));
  }

  lemma BoundedDistinct(e: set<nat>, n: nat)
    requires |e| == n && forall x :: x in e ==> x < n
    ensures forall x: nat :: x < n ==> x in e
    decreases n
  {
    if n > 0 {
      if n - 1 !in e {
        BoundedSize(e, n - 1);
      }
      assert n - 1 in e;
      var e' := e - {n - 1};
      BoundedDistinct(e', n - 1);
      forall x: nat | x < n
        ensures x in e
      {
        if x < n - 1 { assert x in e'; }
      }
    }
  }

  lemma BoundedSize(e: set<nat>, n: nat)
    requires forall x :: x in e ==> x < n
    ensures |e| <= n
    decreases n
  {
    if n > 0 {
      BoundedSize(e - {n - 1}, n - 1);
    } else {
      assert e == {};
    }
  }

  /** The list always holds every slot exactly once. */
  lemma ListIsPermutation(reserve: nat, run: seq<Action>)
    requires Possible(Init(reserve), run)
    ensures var s := After(Init(reserve), run);
      && Distinct(s.used) && Distinct(s.free) && Elems(s.used) !! Elems(s.free)
      && Elems(s.used) + Elems(s.free) == Elems(Range(0, Capacity(s)))
  {
    hide Init, Inv, After, Possible;
    InitInv(reserve);
    RunInv(Init(reserve), run);
    ListsEverySlot(After(Init(reserve), run));
  }

  lemma ListsEverySlot(s: State)
    requires Inv(s)
    ensures Distinct(s.used) && Distinct(s.free) && Elems(s.used) !! Elems(s.free)
    ensures Elems(s.used) + Elems(s.free) == Elems(Range(0, Capacity(s)))
  {
    hide Distinct;
    DistinctSize(s.used);
    DistinctSize(s.free);
    var e := Elems(s.used) + Elems(s.free);
    BoundedDistinct(e, Capacity(s));
    RangeElems(Capacity(s));
    assert forall x :: x in e <==> x in Elems(Range(0, Capacity(s)));
  }

  lemma RangeElems(n: nat)
    ensures forall x: nat :: x in Elems(Range(0, n)) <==> x < n
  {
    forall x: nat | x < n
      ensures x in Elems(Range(0, n))
    {
      assert Range(0, n)[x] == x;
    }
  }

  lemma ThreeParts(a: set<nat>, b: set<nat>, c: set<nat>)
    requires a !! b && a !! c && b !! c
    ensures |a + b + c| == |a| + |b| + |c|
  {
    assert (a + b) !! c;
  }

  /**
   * The capacity splits exactly into live, uncollected, free and stranded slots; size_ is the calls of start minus the
   * completions, and as many slots are live as were assigned and have not completed.
   */
  lemma CapacitySplits(reserve: nat, run: seq<Action>)
    requires Possible(Init(reserve), run)
    ensures var s := After(Init(reserve), run);
      && Capacity(s) == |s.live| + |s.toDelete| + |s.free| + |Stranded(s)|
      && s.size == Begins(run) - Completes(run) && |s.live| == Assigns(run) - Completes(run)
  {
    hide Inv, After, Possible, Range;
    InitInv(reserve);
    RunInv(Init(reserve), run);
    CountsOfRun(Init(reserve), run);
    PartsOf(After(Init(reserve), run));
  }

  lemma PartsOf(s: State)
    requires Inv(s)
    ensures Capacity(s) == |s.live| + |s.toDelete| + |s.free| + |Stranded(s)|
    ensures s.size == s.started - s.completed == |s.live| + s.pending
  {
    hide Distinct, Elems;
    DistinctSize(s.used);
    DistinctSize(s.toDelete);
    var d := Elems(s.toDelete);
    ThreeParts(s.live, d, Stranded(s));
    assert Elems(s.used) == s.live + d + Stranded(s);
  }

  /** After collecting nothing is left to collect, and if something was free, all that was collected is free behind it. */
  lemma CollectsEverything(s: State)
    requires Inv(s)
    ensures var r := Apply(s, GarbageCollect);
      && r.toDelete == [] && r.live == s.live && Capacity(r) == Capacity(s)
      && r.free == (if s.free == [] then [] else s.free + s.toDelete)
  {
    hide Inv, Collect;
    CollectKeepsAll(s);
  }

  /** Slots are stranded exactly by collecting while free_pos_ is at the end, and then for good. */
  lemma StrandedExactly(s: State, x: Action)
    requires Inv(s) && Enabled(s, x)
    ensures var collects := x.GarbageCollect? || (x.Assign? && x.collect);
      Stranded(Apply(s, x)) == Stranded(s) + (if collects && s.free == [] then Elems(s.toDelete) else {})
  {
    hide SpliceAll;
    hide Prepared;
    match x
    case Begin =>
    case Assign(collect, capacity) =>
      PreparedKeeps(s, collect, capacity);
      HandOut(Prepared(s, collect, capacity));
    case Complete(slot) => CompleteKeeps(s, slot);
    case GarbageCollect => CollectKeepsAll(s);
  }

  /** One slot, used and completed, then collected: it is stranded, although nothing is live or free. */
  lemma OneSlotStranded()
    ensures var run := [Begin, Assign(false, 2), Complete(0), GarbageCollect];
      Possible(Init(1), run) && Stranded(After(Init(1), run)) == {0} && After(Init(1), run).free == []
  {
    var run := [Begin, Assign(false, 2), Complete(0), GarbageCollect];
    var s0 := Init(1);
    var s1 := Apply(s0, Begin);
    assert s1.free == [0];
    var s2 := Apply(s1, Assign(false, 2));
    assert s2.used == [0] && s2.free == [] && s2.live == {0};
    var s3 := Apply(s2, Complete(0));
    assert s3.toDelete == [0] && s3.live == {};
    var s4 := Apply(s3, GarbageCollect);
    OneSlotCollected(s3);
    assert run[1..] == [Assign(false, 2), Complete(0), GarbageCollect];
    assert run[1..][1..] == [Complete(0), GarbageCollect];
    assert run[1..][1..][1..] == [GarbageCollect];
    FourSteps(s0, run);
  }

  lemma OneSlotCollected(s: State)
    requires s.toDelete == [0] && s.used == [0] && s.free == []
    ensures Collect(s) == s.(toDelete := [])
  {
    assert Without(s.used, 0) == [];
    assert Splice(s, 0) == s;
    assert s.toDelete[1..] == [];
    assert SpliceAll(s, s.toDelete) == SpliceAll(s, []);
  }

  lemma FourSteps(s: State, run: seq<Action>)
    requires |run| == 4 && Enabled(s, run[0])
    requires var s1 := Apply(s, run[0]);
      Enabled(s1, run[1]) && (var s2 := Apply(s1, run[1]);
        Enabled(s2, run[2]) && (var s3 := Apply(s2, run[2]); Enabled(s3, run[3])))
    ensures Possible(s, run)
    ensures After(s, run) == Apply(Apply(Apply(Apply(s, run[0]), run[1]), run[2]), run[3])
  {
    hide Apply, Enabled;
    var r1, r2, r3 := run[1..], run[2..], run[3..];
    assert r1[1..] == r2 && r2[1..] == r3 && r3[1..] == [];
    var s1 := Apply(s, run[0]);
    var s2 := Apply(s1, run[1]);
    var s3 := Apply(s2, run[2]);
    assert Possible(s3, r3) && After(s3, r3) == Apply(s3, run[3]);
    assert Possible(s2, r2) && After(s2, r2) == After(s3, r3);
    assert Possible(s1, r1) && After(s1, r1) == After(s2, r2);
  }
}
