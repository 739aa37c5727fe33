/**
 * The lock-free event of async/event.cc as a transition system.  Waiters push themselves onto a list headed by one
 * atomic word, which also holds the "set" mark; set detaches the whole list and resumes it; reset clears the mark.
 * Any number of awaiters and setters interleave, one atomic operation at a time; an awaiter's address may be used
 * again once the awaiter has gone, so a head that was read earlier can reappear.
 */
module Event {
  import opened Sequences

  /** The address of an awaiter, and the name of a thread that calls set. */
  type Id = nat

  /** The contents of state_ or next_: null, the event itself, or an awaiter. */
  datatype Ptr = Null | SetMark | Node(id: Id)

  /** resume_order_policy */
  datatype Order = Lifo | Fifo

  /** Where an awaiter is; an id without an entry is not in use. */
  datatype Phase =
    | Fresh                 // constructed
    | Loaded(seen: Ptr)     // holds a value of state_, from the load or from a failed exchange
    | Linked(seen: Ptr)     // next_ is stored, the exchange is due
    | Shared                // on the list headed by state_
    | Private(setter: Id)   // on the list that one call of set has detached
    | Done                  // resumed, or never suspended

  /** A call of set that has detached a list. */
  datatype Setter =
    | Reversing(order: Order, batch: seq<Id>, prev: Ptr, cur: Ptr, rev: seq<Id>, rest: seq<Id>)
    | Resuming(order: Order, batch: seq<Id>, cur: Ptr, rest: seq<Id>, released: seq<Id>)

  /**
   * head is state_, next the next_ fields.  The rest is bookkeeping: list is what hangs off head, pushed the same
   * awaiters in the order of their successful exchanges; a setter's rev and rest hang off its pointers, batch is the
   * pushed order of what it detached, released what it has resumed so far; suspended and resumed count.
   */
  datatype State = State(
    head: Ptr, next: map<Id, Ptr>, phase: map<Id, Phase>, setters: map<Id, Setter>,
    list: seq<Id>, pushed: seq<Id>, suspended: multiset<Id>, resumed: multiset<Id>)

  datatype Action =
    | Construct(a: Id)
    | Ready(a: Id)                          // await_ready sees the mark
    | Load(a: Id)                           // the load in await_suspend
    | Examine(a: Id)                        // the test for the mark, and the store to next_
    | Exchange(a: Id, spurious: bool)       // compare_exchange_weak
    | Destroy(a: Id)
    | Set(t: Id, policy: Order)              // the exchange in set
    | ReverseStep(t: Id)                    // one round of the loop in reverse, or its end
    | ResumeStep(t: Id)                     // one round of the loop in set, or its end
    | Reset

  function Init(initiallySet: bool): State {
    State(if initiallySet then SetMark else Null, map[], map[], map[], [], [], multiset{}, multiset{})
  }

  /** Detaching the shared list: its awaiters now belong to t. */
  function Taken(phase: map<Id, Phase>, t: Id): map<Id, Phase> {
    map a | a in phase :: if phase[a] == Shared then Private(t) else phase[a]
  }

  predicate Enabled(s: State, x: Action) {
    match x
    case Construct(a) => a !in s.phase
    case Ready(a) => a in s.phase && s.phase[a] == Fresh && s.head == SetMark
    case Load(a) => a in s.phase && s.phase[a] == Fresh
    case Examine(a) => a in s.phase && s.phase[a].Loaded?
    case Exchange(a, spurious) => a in s.phase && s.phase[a].Linked?
    case Destroy(a) => a in s.phase && s.phase[a] == Done
    case Set(t, policy) => t !in s.setters
    case ReverseStep(t) => t in s.setters && s.setters[t].Reversing?
      && (s.setters[t].cur.Node? ==> s.setters[t].cur.id in s.next && s.setters[t].rest != [])
    case ResumeStep(t) => t in s.setters && s.setters[t].Resuming?
      && (s.setters[t].cur.Node? ==> s.setters[t].cur.id in s.next && s.setters[t].rest != [])
    case Reset => true
  }

  function Apply(s: State, x: Action): State
    requires Enabled(s, x)
  {
    match x
    case Construct(a) => s.(phase := s.phase[a := Fresh], next := s.next[a := Null])
    case Ready(a) => s.(phase := s.phase[a := Done])
    case Load(a) => s.(phase := s.phase[a := Loaded(s.head)])
    case Examine(a) =>
      var seen := s.phase[a].seen;
      if seen == SetMark then s.(phase := s.phase[a := Done])
      else s.(next := s.next[a := seen], phase := s.phase[a := Linked(seen)])
    case Exchange(a, spurious) =>
      if s.head == s.phase[a].seen && !spurious then
        s.(head := Node(a), phase := s.phase[a := Shared], list := [a] + s.list, pushed := s.pushed + [a],
           suspended := s.suspended + multiset{a})
      else s.(phase := s.phase[a := Loaded(s.head)])
    case Destroy(a) => s.(phase := s.phase - {a})
    case Set(t, policy) =>
      if s.head == SetMark then s
      else
        var taken := Taken(s.phase, t);
        var setter := if policy == Fifo then Reversing(policy, s.pushed, Null, s.head, [], s.list)
                      else Resuming(policy, s.pushed, s.head, s.list, []);
        s.(head := SetMark, phase := taken, setters := s.setters[t := setter], list := [], pushed := [])
    case ReverseStep(t) =>
      var c := s.setters[t];
      if c.cur.Node? then
        var a := c.cur.id;
        s.(next := s.next[a := c.prev],
           setters := s.setters[t := Reversing(c.order, c.batch, c.cur, s.next[a], [a] + c.rev, c.rest[1..])])
      else
        s.(setters := s.setters[t := Resuming(c.order, c.batch, c.prev, c.rev, [])])
    case ResumeStep(t) =>
      var c := s.setters[t];
      if c.cur.Node? then
        var a := c.cur.id;
        s.(phase := s.phase[a := Done], resumed := s.resumed + multiset{a},
           setters := s.setters[t := Resuming(c.order, c.batch, s.next[a], c.rest[1..], c.released + [a])])
      else
        s.(setters := s.setters - {t})
    case Reset => if s.head == SetMark then s.(head := Null) else s
  }

  // ---------- the invariant ----------

  function At(l: seq<Id>, i: nat): Ptr {
    if i < |l| then Node(l[i]) else Null
  }

  /** Following next from p visits exactly l, in this order, and ends: the list is acyclic. */
  ghost predicate Chain(next: map<Id, Ptr>, p: Ptr, l: seq<Id>) {
    && p == At(l, 0)
    && (forall i :: 0 <= i < |l| ==> l[i] in next && next[l[i]] == At(l, i + 1))
    && (forall i, j :: 0 <= i < j < |l| ==> l[i] != l[j])
  }

  function Held(c: Setter): seq<Id> {
    if c.Reversing? then c.rev + c.rest else c.rest
  }

  /** A setter's pointers and the order in which it resumes. */
  ghost predicate SetterOk(next: map<Id, Ptr>, c: Setter) {
    match c
    case Reversing(order, batch, prev, cur, rev, rest) =>
      && Chain(next, prev, rev) && Chain(next, cur, rest)
      && (forall i, j :: 0 <= i < |rev| && 0 <= j < |rest| ==> rev[i] != rest[j])
      && order == Fifo && batch == Reverse(rest) + rev
    case Resuming(order, batch, cur, rest, released) =>
      && Chain(next, cur, rest)
      && released + rest == (if order == Fifo then batch else Reverse(batch))
  }

  ghost predicate SharedOk(head: Ptr, next: map<Id, Ptr>, list: seq<Id>, pushed: seq<Id>) {
    (if head == SetMark then list == [] else Chain(next, head, list)) && list == Reverse(pushed)
  }

  ghost predicate SettersOk(next: map<Id, Ptr>, setters: map<Id, Setter>) {
    forall t :: t in setters ==> SetterOk(next, setters[t])
  }

  /** The phase of an awaiter says which list it is on: the shared one, one private one, or none. */
  ghost predicate PlacesOk(phase: map<Id, Phase>, list: seq<Id>, setters: map<Id, Setter>) {
    && (forall a :: a in list ==> a in phase && phase[a] == Shared)
    && (forall a :: a in phase && phase[a] == Shared ==> a in list)
    && (forall t, a :: t in setters && a in Held(setters[t]) ==> a in phase && phase[a] == Private(t))
    && (forall a :: a in phase && phase[a].Private? ==>
          phase[a].setter in setters && a in Held(setters[phase[a].setter]))
  }

  ghost predicate LinkedOk(next: map<Id, Ptr>, phase: map<Id, Phase>) {
    forall a :: a in phase && phase[a].Linked? ==>
      a in next && next[a] == phase[a].seen && phase[a].seen != SetMark
  }

  predicate Waiting(phase: map<Id, Phase>, a: Id) {
    a in phase && (phase[a] == Shared || phase[a].Private?)
  }

  /** Every suspension has been answered by one resumption, or still waits for it. */
  ghost predicate CountsOk(phase: map<Id, Phase>, suspended: multiset<Id>, resumed: multiset<Id>) {
    forall a :: suspended[a] == resumed[a] + (if Waiting(phase, a) then 1 else 0)
  }

  ghost predicate Inv(s: State) {
    && SharedOk(s.head, s.next, s.list, s.pushed)
    && SettersOk(s.next, s.setters)
    && PlacesOk(s.phase, s.list, s.setters)
    && LinkedOk(s.next, s.phase)
    && CountsOk(s.phase, s.suspended, s.resumed)
  }

  lemma InitInv(initiallySet: bool)
    ensures Inv(Init(initiallySet))
  {}

  lemma ChainFrame(next: map<Id, Ptr>, a: Id, q: Ptr, p: Ptr, l: seq<Id>)
    requires Chain(next, p, l) && a !in l
    ensures Chain(next[a := q], p, l)
  {}

  lemma SetterFrame(next: map<Id, Ptr>, a: Id, q: Ptr, c: Setter)
    requires SetterOk(next, c) && a !in Held(c)
    ensures SetterOk(next[a := q], c)
  {
    hide Chain;
    if c.Reversing? {
      ChainFrame(next, a, q, c.prev, c.rev);
      ChainFrame(next, a, q, c.cur, c.rest);
    } else {
      ChainFrame(next, a, q, c.cur, c.rest);
    }
  }

  lemma NotHeld(phase: map<Id, Phase>, list: seq<Id>, setters: map<Id, Setter>, a: Id)
    requires PlacesOk(phase, list, setters) && !Waiting(phase, a)
    ensures a !in list && forall t :: t in setters ==> a !in Held(setters[t])
  {
    hide Held;
  }

  /** Storing to the next_ of an awaiter that is on no list disturbs no list. */
  lemma StoreElsewhere(s: State, a: Id, q: Ptr)
    requires Inv(s) && !Waiting(s.phase, a)
    ensures SharedOk(s.head, s.next[a := q], s.list, s.pushed)
    ensures SettersOk(s.next[a := q], s.setters)
  {
    hide PlacesOk;
    hide CountsOk;
    hide LinkedOk;
    hide Chain;
    hide SetterOk;
    hide Held;
    NotHeld(s.phase, s.list, s.setters, a);
    if s.head != SetMark {
      ChainFrame(s.next, a, q, s.head, s.list);
    }
    forall t | t in s.setters
      ensures SetterOk(s.next[a := q], s.setters[t])
    {
      SetterFrame(s.next, a, q, s.setters[t]);
    }
  }

  /** A step of an awaiter that is on no list, before and after. */
  lemma PhaseStep(s: State, a: Id, p: Phase)
    requires Inv(s) && !Waiting(s.phase, a) && p != Shared && !p.Private?
    ensures PlacesOk(s.phase[a := p], s.list, s.setters)
    ensures CountsOk(s.phase[a := p], s.suspended, s.resumed)
  {
    hide SharedOk;
    hide SettersOk;
    hide LinkedOk;
    hide Held;
  }

  lemma PreserveAwaiter(s: State, x: Action)
    requires Inv(s) && Enabled(s, x) && (x.Construct? || x.Ready? || x.Load? || x.Examine?)
    ensures Inv(Apply(s, x))
  {
    hide SharedOk;
    hide SettersOk;
    hide PlacesOk;
    hide CountsOk;
    var a, s' := x.a, Apply(s, x);
    PhaseStep(s, a, s'.phase[a]);
    if a in s'.next { StoreElsewhere(s, a, s'.next[a]); }
  }

  lemma PreserveDestroy(s: State, a: Id)
    requires Inv(s) && Enabled(s, Destroy(a))
    ensures Inv(Apply(s, Destroy(a)))
  {
    hide SharedOk, SettersOk, PlacesOk, CountsOk;
    PlacesWithout(s.phase, s.list, s.setters, a);
    CountsWithout(s.phase, s.suspended, s.resumed, a);
  }

  lemma PlacesWithout(phase: map<Id, Phase>, list: seq<Id>, setters: map<Id, Setter>, a: Id)
    requires PlacesOk(phase, list, setters) && !Waiting(phase, a)
    ensures PlacesOk(phase - {a}, list, setters)
  {
    hide Held;
  }

  lemma CountsWithout(phase: map<Id, Phase>, suspended: multiset<Id>, resumed: multiset<Id>, a: Id)
    requires CountsOk(phase, suspended, resumed) && !Waiting(phase, a)
    ensures CountsOk(phase - {a}, suspended, resumed)
  {}

  lemma ChainPush(next: map<Id, Ptr>, p: Ptr, l: seq<Id>, a: Id)
    requires Chain(next, p, l) && a !in l && a in next && next[a] == p
    ensures Chain(next, Node(a), [a] + l)
  {
    var k := [a] + l;
    forall i | 0 <= i < |k|
      ensures k[i] in next && next[k[i]] == At(k, i + 1)
    {
      if i > 0 { assert k[i] == l[i - 1]; }
    }
  }

  lemma PlacesPush(phase: map<Id, Phase>, list: seq<Id>, setters: map<Id, Setter>, a: Id)
    requires PlacesOk(phase, list, setters) && a in phase && !Waiting(phase, a)
    ensures PlacesOk(phase[a := Shared], [a] + list, setters)
  {
    hide Held;
  }

  lemma CountsPush(phase: map<Id, Phase>, suspended: multiset<Id>, resumed: multiset<Id>, a: Id)
    requires CountsOk(phase, suspended, resumed) && !Waiting(phase, a)
    ensures CountsOk(phase[a := Shared], suspended + multiset{a}, resumed)
  {}

  lemma LinkedLess(next: map<Id, Ptr>, phase: map<Id, Phase>, a: Id, p: Phase)
    requires LinkedOk(next, phase) && !p.Linked?
    ensures LinkedOk(next, phase[a := p])
  {}

  /** A push through the exchange: even if the head was read long ago, the list is the old one with a in front. */
  lemma PreserveExchange(s: State, a: Id, spurious: bool)
    requires Inv(s) && Enabled(s, Exchange(a, spurious))
    ensures Inv(Apply(s, Exchange(a, spurious)))
  {
    hide SettersOk;
    hide Chain;
    hide Held;
    hide Reverse;
    hide PlacesOk;
    hide CountsOk;
    assert !Waiting(s.phase, a);
    assert a in s.next && s.next[a] == s.phase[a].seen != SetMark;
    hide LinkedOk;
    LinkedLess(s.next, s.phase, a, Shared);
    LinkedLess(s.next, s.phase, a, Loaded(s.head));
    if s.head == s.phase[a].seen && !spurious {
      ReversePush(s.pushed, a);
      NotHeld(s.phase, s.list, s.setters, a);
      ChainPush(s.next, s.head, s.list, a);
      PlacesPush(s.phase, s.list, s.setters, a);
      CountsPush(s.phase, s.suspended, s.resumed, a);
    } else {
      PhaseStep(s, a, Loaded(s.head));
    }
  }

  lemma PreserveReset(s: State)
    requires Inv(s)
    ensures Inv(Apply(s, Reset))
  {
    hide SettersOk;
    hide PlacesOk;
    hide CountsOk;
    hide LinkedOk;
  }

  // ---------- the steps of set ----------

  lemma PlacesTaken(phase: map<Id, Phase>, list: seq<Id>, setters: map<Id, Setter>, t: Id, c: Setter)
    requires PlacesOk(phase, list, setters) && t !in setters && Held(c) == list
    ensures PlacesOk(Taken(phase, t), [], setters[t := c])
  {
    hide Held;
    var phase', setters' := Taken(phase, t), setters[t := c];
    forall u, a | u in setters' && a in Held(setters'[u])
      ensures a in phase' && phase'[a] == Private(u)
    {
      if u != t { assert u in setters && a in Held(setters[u]); }
    }
  }

  lemma CountsTaken(phase: map<Id, Phase>, suspended: multiset<Id>, resumed: multiset<Id>, t: Id)
    requires CountsOk(phase, suspended, resumed)
    ensures CountsOk(Taken(phase, t), suspended, resumed)
  {
    forall a
      ensures Waiting(Taken(phase, t), a) == Waiting(phase, a)
    {}
  }

  lemma LinkedTaken(next: map<Id, Ptr>, phase: map<Id, Phase>, t: Id)
    requires LinkedOk(next, phase)
    ensures LinkedOk(next, Taken(phase, t))
  {}

  /** set detaches the whole list, and nothing else. */
  lemma PreserveSet(s: State, t: Id, policy: Order)
    requires Inv(s) && Enabled(s, Set(t, policy))
    ensures Inv(Apply(s, Set(t, policy)))
  {
    hide Chain;
    hide PlacesOk;
    hide CountsOk;
    hide LinkedOk;
    hide Reverse;
    hide Taken;
    if s.head != SetMark {
      var c := if policy == Fifo then Reversing(policy, s.pushed, Null, s.head, [], s.list)
               else Resuming(policy, s.pushed, s.head, s.list, []);
      assert [] + s.list == s.list && s.list + [] == s.list;
      assert Held(c) == s.list;
      PlacesTaken(s.phase, s.list, s.setters, t, c);
      CountsTaken(s.phase, s.suspended, s.resumed, t);
      LinkedTaken(s.next, s.phase, t);
      EmptyChain(s.next);
      ReverseTwice(s.pushed);
      assert Reverse(s.list) + [] == s.pushed;
      assert SetterOk(s.next, c);
    }
  }

  lemma EmptyChain(next: map<Id, Ptr>)
    ensures Chain(next, Null, []) && Reverse<Id>([]) == []
  {}

  /** Shortening, lengthening or dropping what one setter holds. */
  lemma PlacesSetter(phase: map<Id, Phase>, list: seq<Id>, setters: map<Id, Setter>, t: Id, c: Setter)
    requires PlacesOk(phase, list, setters) && t in setters
    requires forall a :: a in Held(c) <==> a in Held(setters[t])
    ensures PlacesOk(phase, list, setters[t := c])
  {
    hide Held;
  }

  lemma PlacesResumed(phase: map<Id, Phase>, list: seq<Id>, setters: map<Id, Setter>, t: Id, c: Setter, a: Id)
    requires PlacesOk(phase, list, setters) && t in setters
    requires a in Held(setters[t]) && a !in Held(c)
    requires forall b :: b in Held(c) || b == a <==> b in Held(setters[t])
    ensures PlacesOk(phase[a := Done], list, setters[t := c])
  {
    hide Held;
    assert phase[a] == Private(t);
  }

  lemma PlacesDropped(phase: map<Id, Phase>, list: seq<Id>, setters: map<Id, Setter>, t: Id)
    requires PlacesOk(phase, list, setters) && t in setters && Held(setters[t]) == []
    ensures PlacesOk(phase, list, setters - {t})
  {
    hide Held;
  }

  lemma CountsResumed(phase: map<Id, Phase>, suspended: multiset<Id>, resumed: multiset<Id>, a: Id)
    requires CountsOk(phase, suspended, resumed) && Waiting(phase, a)
    ensures CountsOk(phase[a := Done], suspended, resumed + multiset{a})
  {}

  lemma ChainTail(next: map<Id, Ptr>, p: Ptr, l: seq<Id>)
    requires Chain(next, p, l) && l != []
    ensures p == Node(l[0]) && l[0] in next && l[0] !in l[1..] && Chain(next, next[l[0]], l[1..])
  {
    var k := l[1..];
    forall i | 0 <= i < |k|
      ensures k[i] in next && next[k[i]] == At(k, i + 1)
    {
      assert k[i] == l[i + 1];
    }
  }

  lemma ChainEnds(next: map<Id, Ptr>, p: Ptr, l: seq<Id>)
    requires Chain(next, p, l)
    ensures p.Node? <==> l != []
    ensures p.Node? ==> p.id == l[0]
    ensures !p.Node? ==> p == Null
  {}

  /** One round of the reversal: the front of rest becomes the front of rev. */
  lemma ReverseRound(next: map<Id, Ptr>, c: Setter)
    requires c.Reversing? && SetterOk(next, c) && c.rest != []
    ensures var a := c.rest[0];
      && c.cur == Node(a) && a in next
      && SetterOk(next[a := c.prev], Reversing(c.order, c.batch, c.cur, next[a], [a] + c.rev, c.rest[1..]))
  {
    hide Chain, Reverse;
    var a := c.rest[0];
    ChainTail(next, c.cur, c.rest);
    ChainFrame(next, a, c.prev, next[a], c.rest[1..]);
    assert a !in c.rev;
    ChainFrame(next, a, c.prev, c.prev, c.rev);
    ChainPush(next[a := c.prev], c.prev, c.rev, a);
    ReverseCons(a, c.rest[1..]);
    assert [a] + c.rest[1..] == c.rest;
    assert Reverse(c.rest) + c.rev == Reverse(c.rest[1..]) + ([a] + c.rev);
    assert forall j :: 0 <= j < |c.rest| - 1 ==> c.rest[1..][j] == c.rest[j + 1];
  }

  lemma SettersFrame(s: State, t: Id, a: Id, q: Ptr, c: Setter)
    requires Inv(s) && t in s.setters && a in Held(s.setters[t]) && SetterOk(s.next[a := q], c)
    ensures SharedOk(s.head, s.next[a := q], s.list, s.pushed)
    ensures SettersOk(s.next[a := q], s.setters[t := c])
    ensures LinkedOk(s.next[a := q], s.phase)
  {
    hide Chain;
    hide Held;
    hide SetterOk;
    assert s.phase[a] == Private(t);
    assert a !in s.list;
    if s.head != SetMark {
      ChainFrame(s.next, a, q, s.head, s.list);
    }
    forall u | u in s.setters && u != t
      ensures SetterOk(s.next[a := q], s.setters[u])
    {
      SetterFrame(s.next, a, q, s.setters[u]);
    }
  }

  lemma PreserveReverse(s: State, t: Id)
    requires Inv(s) && Enabled(s, ReverseStep(t))
    ensures Inv(Apply(s, ReverseStep(t)))
  {
    hide Chain;
    hide PlacesOk;
    hide CountsOk;
    hide LinkedOk;
    hide SharedOk;
    hide Reverse;
    var c := s.setters[t];
    ChainEnds(s.next, c.cur, c.rest);
    if c.cur.Node? {
      var a := c.rest[0];
      var c' := Reversing(c.order, c.batch, c.cur, s.next[a], [a] + c.rev, c.rest[1..]);
      ReverseRound(s.next, c);
      assert c.rest == [a] + c.rest[1..];
      SettersFrame(s, t, a, c.prev, c');
      PlacesSetter(s.phase, s.list, s.setters, t, c');
    } else {
      var c' := Resuming(c.order, c.batch, c.prev, c.rev, []);
      EmptyChain(s.next);
      assert [] + c.rev == c.rev;
      assert SetterOk(s.next, c');
      PlacesSetter(s.phase, s.list, s.setters, t, c');
    }
  }

  lemma ResumeRound(next: map<Id, Ptr>, c: Setter)
    requires c.Resuming? && SetterOk(next, c) && c.rest != []
    ensures var a := c.rest[0];
      && c.cur == Node(a) && a in next && a !in c.rest[1..]
      && SetterOk(next, Resuming(c.order, c.batch, next[a], c.rest[1..], c.released + [a]))
  {
    hide Chain;
    hide Reverse;
    ChainTail(next, c.cur, c.rest);
    assert c.released + [c.rest[0]] + c.rest[1..] == c.released + c.rest;
  }

  lemma PreserveResume(s: State, t: Id)
    requires Inv(s) && Enabled(s, ResumeStep(t))
    ensures Inv(Apply(s, ResumeStep(t)))
  {
    hide Chain;
    hide CountsOk;
    hide LinkedOk;
    hide SharedOk;
    hide Reverse;
    var c := s.setters[t];
    ChainEnds(s.next, c.cur, c.rest);
    if c.cur.Node? {
      var a := c.rest[0];
      assert Waiting(s.phase, a);
      hide PlacesOk;
      var c' := Resuming(c.order, c.batch, s.next[a], c.rest[1..], c.released + [a]);
      ResumeRound(s.next, c);
      assert c.rest == [a] + c.rest[1..];
      PlacesResumed(s.phase, s.list, s.setters, t, c', a);
      CountsResumed(s.phase, s.suspended, s.resumed, a);
      LinkedLess(s.next, s.phase, a, Done);
    } else {
      PlacesDropped(s.phase, s.list, s.setters, t);
    }
  }

  /** Every step keeps the invariant. */
  lemma Preserve(s: State, x: Action)
    requires Inv(s) && Enabled(s, x)
    ensures Inv(Apply(s, x))
  {
    match x
    case Construct(a) => PreserveAwaiter(s, x);
    case Ready(a) => PreserveAwaiter(s, x);
    case Load(a) => PreserveAwaiter(s, x);
    case Examine(a) => PreserveAwaiter(s, x);
    case Exchange(a, spurious) => PreserveExchange(s, a, spurious);
    case Destroy(a) => PreserveDestroy(s, a);
    case Set(t, policy) => PreserveSet(s, t, policy);
    case ReverseStep(t) => PreserveReverse(s, t);
    case ResumeStep(t) => PreserveResume(s, t);
    case Reset => PreserveReset(s);
  }

  // ---------- every run ----------

  /** The actions can be performed one after the other from s. */
  predicate Possible(s: State, run: seq<Action>)
    decreases run
  {
    run == [] || (Enabled(s, run[0]) && Possible(Apply(s, run[0]), run[1..]))
  }

  function After(s: State, run: seq<Action>): State
    requires Possible(s, run)
    decreases run
  {
    if run == [] then s else After(Apply(s, run[0]), run[1..])
  }

  lemma {:induction false} RunInv(s: State, run: seq<Action>)
    requires Inv(s) && Possible(s, run)
    ensures Inv(After(s, run))
    decreases run
  {
    hide Inv;
    hide Apply;
    hide Enabled;
    if run != [] {
      Preserve(s, run[0]);
      RunInv(Apply(s, run[0]), run[1..]);
    }
  }

  /** What a state of a run looks like to one awaiter. */
  ghost predicate SeenBy(s: State, a: Id) {
    && s.suspended[a] == s.resumed[a] + (if Waiting(s.phase, a) then 1 else 0)
    && (a in s.list <==> a in s.phase && s.phase[a] == Shared)
    && (forall t :: t in s.setters ==> (a in Held(s.setters[t]) <==> a in s.phase && s.phase[a] == Private(t)))
    && (forall t :: t in s.setters ==> NoRepeats(Held(s.setters[t])))
    && (if s.head == SetMark then s.list == [] else Chain(s.next, s.head, s.list))
  }

  ghost predicate NoRepeats(l: seq<Id>) {
    forall i, j :: 0 <= i < j < |l| ==> l[i] != l[j]
  }

  lemma HeldOnce(next: map<Id, Ptr>, c: Setter)
    requires SetterOk(next, c)
    ensures NoRepeats(Held(c))
  {
    hide Reverse;
  }

  lemma InvSeenBy(s: State, a: Id)
    requires Inv(s)
    ensures SeenBy(s, a)
  {
    hide Chain, LinkedOk, Held, Reverse, SetterOk, NoRepeats;
    forall t | t in s.setters ensures NoRepeats(Held(s.setters[t])) {
      HeldOnce(s.next, s.setters[t]);
    }
  }

  /**
   * In every interleaving an awaiter that waits is on exactly one list, once; and each of its suspensions has been
   * resumed exactly once, except the one it is waiting in.
   */
  lemma ExactlyOnce(initiallySet: bool, run: seq<Action>, a: Id)
    requires Possible(Init(initiallySet), run)
    ensures SeenBy(After(Init(initiallySet), run), a)
  {
    hide SeenBy;
    hide Inv;
    hide Init;
    hide Apply;
    hide Enabled;
    InitInv(initiallySet);
    RunInv(Init(initiallySet), run);
    InvSeenBy(After(Init(initiallySet), run), a);
  }

  /** A call of set that has detached a list can always go on. */
  lemma SetterNeverStuck(initiallySet: bool, run: seq<Action>, t: Id)
    requires Possible(Init(initiallySet), run) && t in After(Init(initiallySet), run).setters
    ensures var s := After(Init(initiallySet), run);
      Enabled(s, ReverseStep(t)) || Enabled(s, ResumeStep(t))
  {
    hide Init;
    hide Apply;
    hide Chain;
    hide Reverse;
    var s := After(Init(initiallySet), run);
    InitInv(initiallySet);
    RunInv(Init(initiallySet), run);
    var c := s.setters[t];
    ChainEnds(s.next, c.cur, c.rest);
    if c.rest != [] {
      ChainTail(s.next, c.cur, c.rest);
    }
  }

  /** When the mark is up and no call of set is under way, nobody is left waiting: no resumption is lost. */
  lemma NobodyForgotten(initiallySet: bool, run: seq<Action>)
    requires Possible(Init(initiallySet), run)
    requires var s := After(Init(initiallySet), run); s.head == SetMark && s.setters == map[]
    ensures var s := After(Init(initiallySet), run); s.suspended == s.resumed
  {
    var s := After(Init(initiallySet), run);
    InitInv(initiallySet);
    RunInv(Init(initiallySet), run);
    forall a
      ensures s.suspended[a] == s.resumed[a]
    {
      assert !Waiting(s.phase, a);
    }
  }

  /** A finished call of set has resumed what it detached: in push order for fifo, in the opposite order for lifo. */
  lemma ReleaseOrder(initiallySet: bool, run: seq<Action>, t: Id)
    requires Possible(Init(initiallySet), run)
    requires var s := After(Init(initiallySet), run);
      t in s.setters && s.setters[t].Resuming? && s.setters[t].cur == Null
    ensures var c := After(Init(initiallySet), run).setters[t];
      c.released == (if c.order == Fifo then c.batch else Reverse(c.batch))
  {
    InitInv(initiallySet);
    RunInv(Init(initiallySet), run);
    var s := After(Init(initiallySet), run);
    ChainEnds(s.next, s.setters[t].cur, s.setters[t].rest);
    assert s.setters[t].released + [] == s.setters[t].released;
  }

  // ---------- how long a call of set takes ----------

  /** The steps that a setter has still to take. */
  function Remaining(c: Setter): nat {
    match c
    case Reversing(_, _, _, _, rev, rest) => 2 * |rest| + |rev| + 2
    case Resuming(_, _, _, rest, _) => |rest| + 1
  }

  function RemainingOf(s: State, t: Id): nat {
    if t in s.setters then Remaining(s.setters[t]) else 0
  }

  predicate StepOf(x: Action, t: Id) {
    x == ReverseStep(t) || x == ResumeStep(t)
  }

  function StepsOf(run: seq<Action>, t: Id): nat {
    if run == [] then 0 else (if StepOf(run[0], t) then 1 else 0) + StepsOf(run[1..], t)
  }

  /** A setter's own steps bring it one nearer to its end, and nobody else's matter to it. */
  lemma OneStepNearer(s: State, x: Action, t: Id)
    requires Inv(s) && Enabled(s, x) && !(x.Set? && x.t == t)
    ensures RemainingOf(s, t) == RemainingOf(Apply(s, x), t) + (if StepOf(x, t) then 1 else 0)
  {
    hide Chain, Reverse, Taken, PlacesOk, CountsOk, LinkedOk, SharedOk;
    if StepOf(x, t) {
      var c := s.setters[t];
      ChainEnds(s.next, c.cur, c.rest);
    }
  }

  lemma {:induction false} StepsAreCounted(s: State, run: seq<Action>, t: Id)
    requires Inv(s) && Possible(s, run) && forall i :: 0 <= i < |run| ==> !(run[i].Set? && run[i].t == t)
    ensures RemainingOf(s, t) == RemainingOf(After(s, run), t) + StepsOf(run, t)
    decreases run
  {
    hide Inv, Apply, Enabled, RemainingOf;
    if run != [] {
      OneStepNearer(s, run[0], t);
      Preserve(s, run[0]);
      StepsAreCounted(Apply(s, run[0]), run[1..], t);
    }
  }

  /**
   * A call of set that detaches n waiters is over after exactly n + 1 further steps, 2n + 2 when it reverses the list,
   * whatever the others do: in any run it has taken those, or fewer if it is still under way.
   */
  lemma SetIsShort(s: State, t: Id, policy: Order, run: seq<Action>)
    requires Inv(s) && Enabled(s, Set(t, policy)) && s.head != SetMark && Possible(Apply(s, Set(t, policy)), run)
    requires forall i :: 0 <= i < |run| ==> !(run[i].Set? && run[i].t == t)
    ensures var n := |s.pushed|;
      var total := if policy == Fifo then 2 * n + 2 else n + 1;
      var s' := After(Apply(s, Set(t, policy)), run);
      StepsOf(run, t) <= total && (t !in s'.setters <==> StepsOf(run, t) == total)
  {
    hide Inv, Apply, Enabled, Possible, After, StepsOf, Remaining;
    Preserve(s, Set(t, policy));
    FreshSetter(s, t, policy);
    var s1 := Apply(s, Set(t, policy));
    StepsAreCounted(s1, run, t);
    SomethingLeft(After(s1, run), t);
  }

  lemma FreshSetter(s: State, t: Id, policy: Order)
    requires Inv(s) && Enabled(s, Set(t, policy)) && s.head != SetMark
    ensures RemainingOf(Apply(s, Set(t, policy)), t) == if policy == Fifo then 2 * |s.pushed| + 2 else |s.pushed| + 1
  {
    hide Taken, Reverse, Chain, PlacesOk, CountsOk, LinkedOk, SettersOk;
  }

  lemma SomethingLeft(s: State, t: Id)
    ensures t in s.setters <==> RemainingOf(s, t) > 0
  {}

  // ---------- when the event is set ----------

  lemma {:induction false} OneMore(s: State, run: seq<Action>, x: Action)
    requires Possible(s, run)
    ensures Possible(s, run + [x]) <==> Enabled(After(s, run), x)
    ensures Possible(s, run + [x]) ==> After(s, run + [x]) == Apply(After(s, run), x)
    decreases run
  {
    hide Apply, Enabled;
    var longer := run + [x];
    if run == [] {
      assert longer == [x] && longer[1..] == [];
    } else {
      assert longer[0] == run[0] && longer[1..] == run[1..] + [x];
      OneMore(Apply(s, run[0]), run[1..], x);
    }
  }

  lemma {:induction false} PossiblePrefix(s: State, run: seq<Action>, x: Action)
    requires Possible(s, run + [x])
    ensures Possible(s, run)
    decreases run
  {
    hide Apply, Enabled;
    if run != [] {
      assert (run + [x])[0] == run[0] && (run + [x])[1..] == run[1..] + [x];
      PossiblePrefix(Apply(s, run[0]), run[1..], x);
    }
  }

  /** The last set or reset of the run was a set, or there was none and the event was built set. */
  function SetBy(initiallySet: bool, run: seq<Action>): bool {
    if run == [] then initiallySet
    else
      var x := run[|run| - 1];
      if x.Set? then true else if x.Reset? then false else SetBy(initiallySet, run[..|run| - 1])
  }

  /** What one step does to the mark and to the suspensions. */
  lemma MarkStep(s: State, x: Action)
    requires Inv(s) && Enabled(s, x)
    ensures Apply(s, x).head == SetMark <==> x.Set? || (!x.Reset? && s.head == SetMark)
    ensures s.head == SetMark ==> Apply(s, x).suspended == s.suspended
  {
    hide SharedOk, SettersOk, PlacesOk, CountsOk, Taken;
  }

  /** is_set: in every run the event is set exactly if the last set or reset was a set. */
  lemma {:induction false} IsSetExactly(initiallySet: bool, run: seq<Action>)
    requires Possible(Init(initiallySet), run)
    ensures After(Init(initiallySet), run).head == SetMark <==> SetBy(initiallySet, run)
    decreases |run|
  {
    if run != [] {
      var init, x := run[..|run| - 1], run[|run| - 1];
      assert run == init + [x];
      PossiblePrefix(Init(initiallySet), init, x);
      OneMore(Init(initiallySet), init, x);
      InitInv(initiallySet);
      RunInv(Init(initiallySet), init);
      hide Init, After, Possible, Inv, Apply, Enabled;
      IsSetExactly(initiallySet, init);
      MarkStep(After(Init(initiallySet), init), x);
    }
  }

  /** A set event stays set until a reset, and meanwhile nobody suspends. */
  lemma {:induction false} StaysSet(s: State, run: seq<Action>)
    requires Inv(s) && Possible(s, run) && s.head == SetMark && Reset !in run
    ensures After(s, run).head == SetMark && After(s, run).suspended == s.suspended
    decreases run
  {
    hide Inv, Apply, Enabled;
    if run != [] {
      MarkStep(s, run[0]);
      Preserve(s, run[0]);
      assert run == [run[0]] + run[1..];
      StaysSet(Apply(s, run[0]), run[1..]);
    }
  }

  /** After a call of set no later awaiter suspends, until a reset. */
  lemma NobodySuspendsAfterSet(s: State, t: Id, policy: Order, run: seq<Action>)
    requires Inv(s) && Enabled(s, Set(t, policy)) && Possible(Apply(s, Set(t, policy)), run) && Reset !in run
    ensures var s' := After(Apply(s, Set(t, policy)), run); s'.head == SetMark && s'.suspended == s.suspended
  {
    hide Inv, Apply, Enabled, Possible, After;
    MarkStep(s, Set(t, policy));
    Preserve(s, Set(t, policy));
    SuspendsNobody(s, t, policy);
    StaysSet(Apply(s, Set(t, policy)), run);
  }

  lemma SuspendsNobody(s: State, t: Id, policy: Order)
    requires Enabled(s, Set(t, policy))
    ensures Apply(s, Set(t, policy)).suspended == s.suspended
  {
    hide Taken;
  }

  /** Nobody has the mark in hand who had not before. */
  ghost predicate NoNewMarks(s: State, s': State) {
    forall a :: a in s'.phase && s'.phase[a] == Loaded(SetMark) ==> a in s.phase && s.phase[a] == Loaded(SetMark)
  }

  lemma ClearStep(s: State, x: Action)
    requires Enabled(s, x) && s.head != SetMark && !x.Set?
    ensures !x.Ready? && NoNewMarks(s, Apply(s, x))
  {
    hide Taken;
  }

  /** An event that is not set stays so until a set, and meanwhile nobody passes it or sees it set. */
  lemma {:induction false} StaysClear(s: State, run: seq<Action>)
    requires Inv(s) && Possible(s, run) && s.head != SetMark
    requires forall i :: 0 <= i < |run| ==> !run[i].Set?
    ensures After(s, run).head != SetMark && NoNewMarks(s, After(s, run))
    ensures forall i :: 0 <= i < |run| ==> !run[i].Ready?
    decreases run
  {
    hide Inv, Apply, Enabled;
    if run != [] {
      MarkStep(s, run[0]);
      ClearStep(s, run[0]);
      Preserve(s, run[0]);
      assert run == [run[0]] + run[1..];
      StaysClear(Apply(s, run[0]), run[1..]);
    }
  }

  // ---------- an awaiter on its own ----------

  predicate In(s: State, a: Id, p: Phase) {
    a in s.phase && s.phase[a] == p
  }

  lemma OneStep(s: State, x: Action)
    requires Enabled(s, x)
    ensures Possible(s, [x]) && After(s, [x]) == Apply(s, x)
  {
    hide Apply, Enabled;
    assert [x][1..] == [];
  }

  lemma TwoSteps(s: State, x: Action, y: Action)
    requires Enabled(s, x) && Enabled(Apply(s, x), y)
    ensures Possible(s, [x, y]) && After(s, [x, y]) == Apply(Apply(s, x), y)
  {
    hide Apply, Enabled;
    OneStep(Apply(s, x), y);
    assert [x, y][1..] == [y];
  }

  /** Awaiting a set event goes on at once, whether await_ready or await_suspend finds the mark. */
  lemma PassesWhenSet(s: State, a: Id)
    requires s.head == SetMark && a in s.phase && s.phase[a] == Fresh
    ensures Possible(s, [Ready(a)]) && In(After(s, [Ready(a)]), a, Done)
    ensures Possible(s, [Load(a), Examine(a)])
    ensures var s' := After(s, [Load(a), Examine(a)]); In(s', a, Done) && s'.head == SetMark && s'.suspended == s.suspended
  {
    hide Possible, After, Taken;
    OneStep(s, Ready(a));
    TwoSteps(s, Load(a), Examine(a));
  }

  lemma OneAttempt(s: State, a: Id)
    requires a in s.phase && s.phase[a] == Loaded(s.head) && s.head != SetMark
    ensures Possible(s, [Examine(a), Exchange(a, false)])
    ensures In(After(s, [Examine(a), Exchange(a, false)]), a, Shared)
  {
    hide Possible, After, Taken;
    TwoSteps(s, Examine(a), Exchange(a, false));
  }

  /**
   * An exchange that does not go through leaves the awaiter with the current head in hand; undisturbed, its next attempt
   * suspends it, or lets it pass if the event has been set.
   */
  lemma RetrySucceeds(s: State, a: Id, spurious: bool)
    requires Inv(s) && Enabled(s, Exchange(a, spurious))
    ensures var s1 := Apply(s, Exchange(a, spurious));
      || In(s1, a, Shared)
      || (s1.head == SetMark && Enabled(s1, Examine(a)) && In(Apply(s1, Examine(a)), a, Done))
      || (Possible(s1, [Examine(a), Exchange(a, false)]) && In(After(s1, [Examine(a), Exchange(a, false)]), a, Shared))
  {
    hide Possible, After, Taken, SharedOk, SettersOk, PlacesOk, CountsOk;
    var s1 := Apply(s, Exchange(a, spurious));
    if s1.phase[a] != Shared && s1.head != SetMark {
      OneAttempt(s1, a);
    }
  }
}
