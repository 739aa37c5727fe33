/**
 * The idle-connection time wheel of net/tcp_conn_timer.cc and net/tcp_conn_timer.h.  A connection's slot is kept alive
 * by references in the buckets of a queue; every refresh adds one to the back bucket, every tick drops the front
 * bucket and appends an empty one.  A slot whose last reference goes is destroyed, which shuts the connection down.
 */
module TimeWheel {

  type Slot = nat

  /**
   * wheel is wheel_, front bucket first.  Bookkeeping: now counts ticks, last is the tick of a slot's latest refresh,
   * expired the tick at which it was destroyed.
   */
  datatype State = State(wheel: seq<seq<Slot>>, now: nat, last: map<Slot, nat>, expired: map<Slot, nat>)

  /** The constructor: bucket_count empty buckets. */
  function Init(buckets: nat): State {
    State(seq(buckets, i => []), 0, map[], map[])
  }

  /** Refreshing needs a reference to the slot, so the slot is not destroyed yet. */
  datatype Action = Fresh(slot: Slot) | Tick

  predicate Enabled(s: State, x: Action) {
    s.wheel != [] && (x.Fresh? ==> x.slot !in s.expired)
  }

  predicate Referenced(wheel: seq<seq<Slot>>, slot: Slot) {
    exists i :: 0 <= i < |wheel| && slot in wheel[i]
  }

  /** The slots whose last reference sits in the front bucket, however many duplicates that bucket holds. */
  function Dying(wheel: seq<seq<Slot>>): set<Slot>
    requires wheel != []
  {
    set x | x in wheel[0] && !Referenced(wheel[1..], x)
  }

  function Apply(s: State, x: Action): State
    requires Enabled(s, x)
  {
    match x
    case Fresh(slot) =>
      var back := |s.wheel| - 1;
      s.(wheel := s.wheel[back := s.wheel[back] + [slot]], last := s.last[slot := s.now])
    case Tick =>
      s.(wheel := s.wheel[1..] + [[]], now := s.now + 1,
         expired := s.expired + map x | x in Dying(s.wheel) :: s.now + 1)
  }

  /** The bucket that a refresh at tick t has reached. */
  function Bucket(s: State, t: int): int {
    |s.wheel| - 1 - (s.now - t)
  }

  /** No slot is in a bucket behind that of its latest refresh, and it is in that one while the wheel reaches back to it. */
  ghost predicate WheelOk(s: State, n: nat) {
    && |s.wheel| == n
    && (forall i, x :: 0 <= i < n && x in s.wheel[i] ==> x in s.last && i <= Bucket(s, s.last[x]))
    && (forall x :: x in s.last && 0 <= Bucket(s, s.last[x]) ==>
          Bucket(s, s.last[x]) < n && x in s.wheel[Bucket(s, s.last[x])])
  }

  ghost predicate ExpiryOk(s: State, n: nat) {
    && (forall x :: x in s.last ==> s.last[x] <= s.now)
    && (forall x :: x in s.expired ==> x in s.last && s.expired[x] == s.last[x] + n <= s.now)
    && (forall x :: x in s.last && s.last[x] + n <= s.now ==> x in s.expired)
  }

  ghost predicate Inv(s: State, n: nat) {
    WheelOk(s, n) && ExpiryOk(s, n)
  }

  lemma InitInv(n: nat)
    requires n >= 1
    ensures Inv(Init(n), n)
  {}

  lemma FreshWheel(s: State, n: nat, slot: Slot)
    requires n >= 1 && WheelOk(s, n) && Enabled(s, Fresh(slot))
    requires forall x :: x in s.last ==> s.last[x] <= s.now
    ensures WheelOk(Apply(s, Fresh(slot)), n)
  {
    var s' := Apply(s, Fresh(slot));
    forall i, x | 0 <= i < n && x in s'.wheel[i]
      ensures x in s'.last && i <= Bucket(s', s'.last[x])
    {
      if x != slot { assert x in s.wheel[i]; }
    }
    forall x | x in s'.last && 0 <= Bucket(s', s'.last[x])
      ensures Bucket(s', s'.last[x]) < n && x in s'.wheel[Bucket(s', s'.last[x])]
    {
      if x == slot {
        assert Bucket(s', s'.last[x]) == n - 1;
      } else {
        assert x in s.wheel[Bucket(s, s.last[x])];
      }
    }
  }

  lemma PreserveFresh(s: State, n: nat, slot: Slot)
    requires n >= 1 && Inv(s, n) && Enabled(s, Fresh(slot))
    ensures Inv(Apply(s, Fresh(slot)), n)
  {
    FreshWheel(s, n, slot);
    hide WheelOk;
  }

  lemma ReferencedTail(wheel: seq<seq<Slot>>, x: Slot)
    requires wheel != []
    ensures Referenced(wheel[1..], x) <==> exists i :: 1 <= i < |wheel| && x in wheel[i]
  {
    var rest := wheel[1..];
    if Referenced(rest, x) {
      var i :| 0 <= i < |rest| && x in rest[i];
      assert x in wheel[i + 1];
    } else {
      forall i | 1 <= i < |wheel|
        ensures x !in wheel[i]
      {
        assert wheel[i] == rest[i - 1];
      }
    }
  }

  /** A slot dies on a tick exactly when its latest refresh was n ticks before. */
  lemma DyingExactly(s: State, n: nat, x: Slot)
    requires n >= 1 && Inv(s, n)
    ensures x in Dying(s.wheel) <==> x in s.last && s.last[x] + n == s.now + 1
  {
    ReferencedTail(s.wheel, x);
    hide Referenced;
    if x in s.last && Bucket(s, s.last[x]) >= 0 {
      assert x in s.wheel[Bucket(s, s.last[x])];
    }
  }

  lemma TickExpiry(s: State, n: nat)
    requires n >= 1 && Inv(s, n) && Enabled(s, Tick)
    ensures ExpiryOk(Apply(s, Tick), n)
  {
    forall x
      ensures x in Dying(s.wheel) <==> x in s.last && s.last[x] + n == s.now + 1
    {
      DyingExactly(s, n, x);
    }
    hide Dying, WheelOk;
  }

  lemma PreserveTick(s: State, n: nat)
    requires n >= 1 && Inv(s, n) && Enabled(s, Tick)
    ensures Inv(Apply(s, Tick), n)
  {
    TickExpiry(s, n);
    hide Dying, ExpiryOk;
    var s' := Apply(s, Tick);
    forall i, x | 0 <= i < n && x in s'.wheel[i]
      ensures x in s'.last && i <= Bucket(s', s'.last[x])
    {
      assert x in s.wheel[i + 1];
    }
  }

  lemma Preserve(s: State, n: nat, x: Action)
    requires n >= 1 && Inv(s, n) && Enabled(s, x)
    ensures Inv(Apply(s, x), n)
  {
    match x
    case Fresh(slot) => PreserveFresh(s, n, slot);
    case Tick => PreserveTick(s, n);
  }

  // ---------- every run ----------

  predicate Possible(s: State, run: seq<Action>)
    decreases run
  {
    run == [] || (Enabled(s, run[0]) && Possible(Apply(s, run[0]), run[1..]))
  }

  function After(s: State, run: seq<Action>): State
    requires Possible(s, run)
    decreases run
  {
    if run == [] then s else After(Apply(s, run[0]), run[1..])
  }

  lemma {:induction false} RunInv(s: State, n: nat, run: seq<Action>)
    requires n >= 1 && Inv(s, n) && Possible(s, run)
    ensures Inv(After(s, run), n)
    decreases run
  {
    hide Inv;
    hide Apply;
    if run != [] {
      Preserve(s, n, run[0]);
      RunInv(Apply(s, run[0]), n, run[1..]);
    }
  }

  // ---------- the bookkeeping is that of the run ----------

  lemma {:induction false} OneMore(s: State, run: seq<Action>, x: Action)
    requires Possible(s, run)
    ensures Possible(s, run + [x]) <==> Enabled(After(s, run), x)
    ensures Possible(s, run + [x]) ==> After(s, run + [x]) == Apply(After(s, run), x)
    decreases run
  {
    hide Apply, Enabled;
    var longer := run + [x];
    if run == [] {
      assert longer == [x] && longer[1..] == [];
    } else {
      assert longer[0] == run[0] && longer[1..] == run[1..] + [x];
      OneMore(Apply(s, run[0]), run[1..], x);
    }
  }

  /** How many ticks the run has. */
  function Ticks(run: seq<Action>): nat {
    if run == [] then 0 else Ticks(run[..|run| - 1]) + (if run[|run| - 1] == Tick then 1 else 0)
  }

  /** How many ticks it has before the last refresh of x. */
  function LastRefresh(run: seq<Action>, x: Slot): nat
    requires Fresh(x) in run
  {
    var init := run[..|run| - 1];
    if run[|run| - 1] == Fresh(x) then Ticks(init)
    else assert run == init + [run[|run| - 1]]; LastRefresh(init, x)
  }

  /** Tick counter and refresh times are those of the run. */
  lemma {:induction false} TimesOfRun(n: nat, run: seq<Action>, x: Slot)
    requires Possible(Init(n), run)
    ensures var s := After(Init(n), run);
      && s.now == Ticks(run)
      && (x in s.last <==> Fresh(x) in run)
      && (Fresh(x) in run ==> s.last[x] == LastRefresh(run, x))
    decreases |run|
  {
    if run != [] {
      var init, a := run[..|run| - 1], run[|run| - 1];
      assert run == init + [a];
      PossiblePrefix(Init(n), init, a);
      OneMore(Init(n), init, a);
      TimesOfRun(n, init, x);
    }
  }

  lemma {:induction false} PossiblePrefix(s: State, run: seq<Action>, x: Action)
    requires Possible(s, run + [x])
    ensures Possible(s, run)
    decreases run
  {
    hide Apply, Enabled;
    if run != [] {
      assert (run + [x])[0] == run[0] && (run + [x])[1..] == run[1..] + [x];
      PossiblePrefix(Apply(s, run[0]), run[1..], x);
    }
  }

  /**
   * Over every interleaving of refreshes and ticks: the wheel keeps its n buckets; a slot has been destroyed exactly if
   * it was refreshed and n ticks have followed its last refresh, and that on the n-th; until then some bucket refers to
   * it.
   */
  lemma ExpiresExactly(n: nat, run: seq<Action>, x: Slot)
    requires n >= 1 && Possible(Init(n), run)
    ensures var s := After(Init(n), run);
      && |s.wheel| == n
      && (x in s.expired <==> Fresh(x) in run && LastRefresh(run, x) + n <= Ticks(run))
      && (x in s.expired ==> s.expired[x] == LastRefresh(run, x) + n)
      && (Referenced(s.wheel, x) <==> Fresh(x) in run && Ticks(run) < LastRefresh(run, x) + n)
  {
    hide Init, After, Possible, Ticks, LastRefresh;
    InitInv(n);
    RunInv(Init(n), n, run);
    TimesOfRun(n, run, x);
    var s := After(Init(n), run);
    if x in s.last && x !in s.expired {
      assert x in s.wheel[Bucket(s, s.last[x])];
    }
  }

  /** A tick destroys exactly the slots whose last refresh was n ticks before it. */
  lemma TickDestroys(n: nat, run: seq<Action>, x: Slot)
    requires n >= 1 && Possible(Init(n), run)
    ensures After(Init(n), run).wheel != []
    ensures x in Dying(After(Init(n), run).wheel) <==> Fresh(x) in run && LastRefresh(run, x) + n == Ticks(run + [Tick])
  {
    hide After, Possible, LastRefresh, Dying;
    InitInv(n);
    RunInv(Init(n), n, run);
    TimesOfRun(n, run, x);
    DyingExactly(After(Init(n), run), n, x);
    assert (run + [Tick])[..|run|] == run;
  }

  /** A slot expires at most once: it is never among the dying again. */
  lemma ExpiresOnce(n: nat, run: seq<Action>, x: Slot)
    requires n >= 1 && Possible(Init(n), run) && x in After(Init(n), run).expired
    ensures After(Init(n), run).wheel != [] && x !in Dying(After(Init(n), run).wheel)
  {
    InitInv(n);
    RunInv(Init(n), n, run);
    DyingExactly(After(Init(n), run), n, x);
  }

  /** The wheel as an object; run is what has been done to it. */
  class TcpTimeWheel {
    /** wheel_ */
    var wheel: seq<seq<Slot>>
    ghost var run: seq<Action>
    ghost const n: nat

    ghost predicate Valid()
      reads this
    {
      n >= 1 && Possible(Init(n), run) && wheel == After(Init(n), run).wheel
    }

    constructor (buckets: nat)
      requires buckets >= 1
      ensures Valid() && n == buckets && run == []
    {
      n := buckets;
      run := [];
      wheel := [];
      new;
      for i := 0 to buckets
        invariant wheel == seq(i, j => []) && run == [] && n == buckets
      {
        wheel := wheel + [[]];
      }
    }

    /** fresh, by someone who still holds the slot: it has not been destroyed. */
    method Refresh(slot: Slot)
      requires Valid() && slot !in After(Init(n), run).expired
      modifies this
      ensures Valid() && run == old(run) + [Fresh(slot)]
    {
      ghost var s := After(Init(n), run);
      InitInv(n);
      RunInv(Init(n), n, run);
      OneMore(Init(n), run, Fresh(slot));
      hide Possible, After;
      var back := |wheel| - 1;
      wheel := wheel[back := wheel[back] + [slot]];
      run := run + [Fresh(slot)];
    }

    /** loopFunc; returns the slots whose destructor runs: those last refreshed n ticks before. */
    method LoopFunc() returns (dead: set<Slot>)
      requires Valid()
      modifies this
      ensures Valid() && run == old(run) + [Tick]
      ensures forall x :: x in dead <==> Fresh(x) in old(run) && LastRefresh(old(run), x) + n == Ticks(run)
    {
      hide Possible, After, Dying, LastRefresh, Ticks;
      InitInv(n);
      RunInv(Init(n), n, run);
      OneMore(Init(n), run, Tick);
      forall x
        ensures x in Dying(wheel) <==> Fresh(x) in run && LastRefresh(run, x) + n == Ticks(run + [Tick])
      {
        TickDestroys(n, run, x);
      }
      dead := Dying(wheel);
      wheel := wheel[1..];
      wheel := wheel + [[]];
      run := run + [Tick];
    }
  }
}
