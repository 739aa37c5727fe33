/**
 * The pointer work of event::set and event::reverse (async/event.cc, async/event.hpp) on awaiter nodes in memory: the
 * list is reversed in place by turning its next_ fields round, and resumed node by node.
 */
module AwaiterList {
  import Sequences

  class Awaiter {
    /** next_ */
    var next: Awaiter?
    /** awaiting_coroutine_ */
    const coroutine: nat

    constructor (coroutine: nat)
      ensures next == null && this.coroutine == coroutine
    {
      this.coroutine := coroutine;
      next := null;
    }
  }

  function At(l: seq<Awaiter>, i: nat): Awaiter? {
    if i < |l| then l[i] else null
  }

  function Before(l: seq<Awaiter>, i: nat): Awaiter?
    requires i <= |l|
  {
    if i == 0 then null else l[i - 1]
  }

  ghost predicate Distinct(l: seq<Awaiter>) {
    forall i, j :: 0 <= i < j < |l| ==> l[i] != l[j]
  }

  /** Following next_ from p visits exactly l. */
  ghost predicate Listed(p: Awaiter?, l: seq<Awaiter>)
    reads l
  {
    && p == At(l, 0)
    && (forall i :: 0 <= i < |l| ==> l[i].next == At(l, i + 1))
    && Distinct(l)
  }

  /** The next_ fields of the first i nodes have been turned round, the others not yet. */
  ghost predicate Turned(l: seq<Awaiter>, i: nat)
    reads l
  {
    && i <= |l|
    && (forall j :: 0 <= j < i ==> l[j].next == Before(l, j))
    && (forall j :: i <= j < |l| ==> l[j].next == At(l, j + 1))
  }

  /** reverse: the same nodes in the opposite order; only their own next_ fields change. */
  method Reverse(first: Awaiter?, ghost l: seq<Awaiter>) returns (head: Awaiter?)
    requires Listed(first, l)
    modifies (set a | a in l)`next
    ensures Listed(head, Sequences.Reverse(l))
  {
    hide Distinct;
    var cur := first;
    if cur == null || cur.next == null {
      head := cur;
      OneNode(l);
      return;
    }
    var prev: Awaiter? := null;
    ghost var i := 0;
    while cur != null
      invariant Turned(l, i) && cur == At(l, i) && prev == Before(l, i)
      decreases |l| - i
    {
      var next := cur.next;
      Turn(l, i, cur, prev);
      prev := cur;
      cur := next;
      i := i + 1;
    }
    head := prev;
    AllTurned(l);
  }

  /** cur->next_ = prev */
  method Turn(ghost l: seq<Awaiter>, ghost i: nat, cur: Awaiter, prev: Awaiter?)
    requires Distinct(l) && i < |l| && cur == l[i] && prev == Before(l, i) && Turned(l, i)
    modifies cur`next
    ensures Turned(l, i + 1)
  {
    hide Distinct;
    Elsewhere(l, i);
    cur.next := prev;
  }

  lemma OneNode(l: seq<Awaiter>)
    requires |l| <= 1
    ensures Sequences.Reverse(l) == l
  {}

  lemma AllTurned(l: seq<Awaiter>)
    requires Distinct(l) && Turned(l, |l|)
    ensures Listed(Before(l, |l|), Sequences.Reverse(l))
  {
    hide Distinct;
    DistinctReversed(l);
    var r := Sequences.Reverse(l);
    forall j | 0 <= j < |l|
      ensures r[j].next == At(r, j + 1)
    {
      assert r[j] == l[|l| - 1 - j];
      assert At(r, j + 1) == Before(l, |l| - 1 - j);
    }
  }

  lemma DistinctReversed(l: seq<Awaiter>)
    requires Distinct(l)
    ensures Distinct(Sequences.Reverse(l))
  {}

  lemma Elsewhere(l: seq<Awaiter>, i: nat)
    requires Distinct(l) && i < |l|
    ensures forall j :: 0 <= j < |l| && j != i ==> l[j] != l[i]
  {}

  ghost function Coroutines(l: seq<Awaiter>): seq<nat> {
    seq(|l|, i requires 0 <= i < |l| => l[i].coroutine)
  }

  /** The loop of set: every coroutine is resumed once, in list order; next_ is read before the resumption. */
  method ResumeAll(first: Awaiter?, ghost l: seq<Awaiter>) returns (resumed: seq<nat>)
    requires Listed(first, l)
    ensures resumed == Coroutines(l)
  {
    resumed := [];
    var waiters := first;
    ghost var i := 0;
    while waiters != null
      invariant 0 <= i <= |l| && waiters == At(l, i)
      invariant resumed == Coroutines(l)[..i]
      decreases |l| - i
    {
      var next := waiters.next;
      resumed := resumed + [waiters.coroutine];
      waiters := next;
      i := i + 1;
    }
  }

  /** set after the exchange has detached the list l, most recent waiter first. */
  method SetDetached(first: Awaiter?, fifo: bool, ghost l: seq<Awaiter>) returns (resumed: seq<nat>)
    requires Listed(first, l)
    modifies (set a | a in l)`next
    ensures resumed == Coroutines(if fifo then Sequences.Reverse(l) else l)
  {
    if fifo {
      var head := Reverse(first, l);
      resumed := ResumeAll(head, Sequences.Reverse(l));
    } else {
      resumed := ResumeAll(first, l);
    }
  }
}
