/**
 * The thread pool of async/thread_pool.cc and async/thread_pool.hpp as a transition system: producers reserve in the
 * atomic size_ and push handles under the lock, workers take them in order, run them and give the reservation back.
 * Any number of producers and workers; a lock-protected block or an atomic operation is one step.
 */
module ThreadPool {

  type Handle = nat
  datatype Option = None | Some(handle: Handle)

  /** A call of schedule or resume under way. */
  datatype Producer =
    | Idle
    | Admitted                     // schedule has found shutdown_ unset
    | Reserved                     // size_ raised by one; the handle comes when the operation is awaited
    | Holding(handle: Handle)      // resume of one handle: size_ raised by one, schedule_impl due
    | Batch(handles: seq<Option>)  // resume over a range: size_ raised by its length, the push is due
    | Nulls(k: nat)                // pushed, the null handles are still to be subtracted

  /** A worker thread; tickets number the handles in the order in which they were queued. */
  datatype Worker =
    | Starting                     // before the first look at the stop token
    | Looping                      // in the inner loop, about to wait
    | Running(ticket: nat, handle: Handle)   // popped, not resumed yet
    | Returned(ticket: nat)        // resumed, fetch_sub due
    | Leaving(mark: nat)           // woke up with an empty queue
    | Exited(entered: bool, mark: nat)

  /**
   * queue, size and shutdown are the fields of the pool, stopped the threads whose stop was requested.  Bookkeeping:
   * log is everything ever queued, taken how much of it was popped, resumed how often each ticket was resumed, lost
   * the reservations of operations awaited with a null handle.
   */
  datatype State = State(size: int, queue: seq<Handle>, shutdown: bool, stopped: set<nat>,
                         producers: seq<Producer>, workers: seq<Worker>,
                         log: seq<Handle>, taken: nat, resumed: multiset<nat>, lost: nat)

  datatype Action =
    | Admit(p: nat)                          // schedule: load of shutdown_
    | Reserve(p: nat)                        // schedule: fetch_add
    | ResumeOne(p: nat, h: Option)           // resume of one handle: fetch_add
    | ResumeRange(p: nat, hs: seq<Option>)   // resume of a range: fetch_add
    | Push(p: nat, h: Option)                // schedule_impl for an awaited operation
    | PushHeld(p: nat)                       // schedule_impl for resume
    | PushRange(p: nat)                      // the locked block of resume over a range
    | SubtractNulls(p: nat)
    | Shutdown
    | RequestStop(w: nat)
    | Enter(w: nat)                          // the condition of the outer loop
    | Take(w: nat)                           // wait returns with work
    | SeeEmpty(w: nat)                       // wait returns because of the stop request, queue empty
    | Recheck(w: nat)                        // the condition of the outer loop again
    | Run(w: nat)                            // handle.resume()
    | Finish(w: nat)                         // fetch_sub

  function Init(producers: nat, workers: nat): State {
    State(0, [], false, {}, seq(producers, i => Idle), seq(workers, i => Starting), [], 0, multiset{}, 0)
  }

  function NonNull(hs: seq<Option>): seq<Handle> {
    if hs == [] then []
    else NonNull(hs[..|hs| - 1]) + (if hs[|hs| - 1].Some? then [hs[|hs| - 1].handle] else [])
  }

  predicate Enabled(s: State, x: Action) {
    match x
    case Admit(p) => p < |s.producers| && s.producers[p] == Idle
    case Reserve(p) => p < |s.producers| && s.producers[p] == Admitted
    case ResumeOne(p, h) => p < |s.producers| && s.producers[p] == Idle
    case ResumeRange(p, hs) => p < |s.producers| && s.producers[p] == Idle
    case Push(p, h) => p < |s.producers| && s.producers[p] == Reserved
    case PushHeld(p) => p < |s.producers| && s.producers[p].Holding?
    case PushRange(p) => p < |s.producers| && s.producers[p].Batch?
    case SubtractNulls(p) => p < |s.producers| && s.producers[p].Nulls?
    case Shutdown => true
    case RequestStop(w) => s.shutdown
    case Enter(w) => w < |s.workers| && s.workers[w] == Starting
    case Take(w) => w < |s.workers| && s.workers[w] == Looping && s.queue != []
    case SeeEmpty(w) => w < |s.workers| && s.workers[w] == Looping && s.queue == [] && w in s.stopped
    case Recheck(w) => w < |s.workers| && s.workers[w].Leaving?
    case Run(w) => w < |s.workers| && s.workers[w].Running?
    case Finish(w) => w < |s.workers| && s.workers[w].Returned?
  }

  function Apply(s: State, x: Action): State
    requires Enabled(s, x)
  {
    match x
    case Admit(p) => if s.shutdown then s else s.(producers := s.producers[p := Admitted])
    case Reserve(p) => s.(size := s.size + 1, producers := s.producers[p := Reserved])
    case ResumeOne(p, h) => if h.None? then s else s.(size := s.size + 1, producers := s.producers[p := Holding(h.handle)])
    case ResumeRange(p, hs) => s.(size := s.size + |hs|, producers := s.producers[p := Batch(hs)])
    case Push(p, h) =>
      if h.None? then s.(producers := s.producers[p := Idle], lost := s.lost + 1)
      else s.(producers := s.producers[p := Idle], queue := s.queue + [h.handle], log := s.log + [h.handle])
    case PushHeld(p) =>
      var h := s.producers[p].handle;
      s.(producers := s.producers[p := Idle], queue := s.queue + [h], log := s.log + [h])
    case PushRange(p) =>
      var hs := s.producers[p].handles;
      var good := NonNull(hs);
      NonNullSize(hs);
      s.(producers := s.producers[p := if |good| < |hs| then Nulls(|hs| - |good|) else Idle],
         queue := s.queue + good, log := s.log + good)
    case SubtractNulls(p) => s.(size := s.size - s.producers[p].k, producers := s.producers[p := Idle])
    case Shutdown => s.(shutdown := true)
    case RequestStop(w) => s.(stopped := s.stopped + {w})
    case Enter(w) => s.(workers := s.workers[w := if w in s.stopped then Exited(false, 0) else Looping])
    case Take(w) => s.(workers := s.workers[w := Running(s.taken, s.queue[0])], queue := s.queue[1..], taken := s.taken + 1)
    case SeeEmpty(w) => s.(workers := s.workers[w := Leaving(|s.log|)])
    case Recheck(w) =>
      s.(workers := s.workers[w := if w in s.stopped then Exited(true, s.workers[w].mark) else Looping])
    case Run(w) =>
      var t := s.workers[w].ticket;
      s.(workers := s.workers[w := Returned(t)], resumed := s.resumed + multiset{t})
    case Finish(w) => s.(workers := s.workers[w := Looping], size := s.size - 1)
  }

  lemma NonNullSize(hs: seq<Option>)
    ensures |NonNull(hs)| <= |hs|
  {}

  // ---------- sums over threads ----------

  /** What a producer has reserved and not yet queued or given back. */
  function Units(p: Producer): nat {
    match p
    case Reserved => 1
    case Holding(_) => 1
    case Batch(hs) => |hs|
    case Nulls(k) => k
    case _ => 0
  }

  function Outstanding(l: seq<Producer>): nat {
    if l == [] then 0 else Units(l[0]) + Outstanding(l[1..])
  }

  lemma {:induction false} OutstandingUpdate(l: seq<Producer>, i: nat, x: Producer)
    requires i < |l|
    ensures Outstanding(l[i := x]) == Outstanding(l) - Units(l[i]) + Units(x)
    ensures Units(l[i]) <= Outstanding(l)
  {
    var k := l[i := x];
    if i == 0 {
      assert k[1..] == l[1..];
    } else {
      OutstandingUpdate(l[1..], i - 1, x);
      assert k[1..] == l[1..][i - 1 := x];
    }
  }

  /** A popped handle that still counts in size_. */
  function Busy(w: Worker): nat {
    if w.Running? || w.Returned? then 1 else 0
  }

  function BusyWorkers(l: seq<Worker>): nat {
    if l == [] then 0 else Busy(l[0]) + BusyWorkers(l[1..])
  }

  lemma {:induction false} BusyUpdate(l: seq<Worker>, i: nat, x: Worker)
    requires i < |l|
    ensures BusyWorkers(l[i := x]) == BusyWorkers(l) - Busy(l[i]) + Busy(x)
    ensures Busy(l[i]) <= BusyWorkers(l)
  {
    var k := l[i := x];
    if i == 0 {
      assert k[1..] == l[1..];
    } else {
      BusyUpdate(l[1..], i - 1, x);
      assert k[1..] == l[1..][i - 1 := x];
    }
  }

  /** The worker is about to resume ticket t. */
  function About(w: Worker, t: nat): nat {
    if w.Running? && w.ticket == t then 1 else 0
  }

  function AboutWorkers(l: seq<Worker>, t: nat): nat {
    if l == [] then 0 else About(l[0], t) + AboutWorkers(l[1..], t)
  }

  lemma {:induction false} AboutUpdate(l: seq<Worker>, i: nat, x: Worker, t: nat)
    requires i < |l|
    ensures AboutWorkers(l[i := x], t) == AboutWorkers(l, t) - About(l[i], t) + About(x, t)
    ensures About(l[i], t) <= AboutWorkers(l, t)
  {
    var k := l[i := x];
    if i == 0 {
      assert k[1..] == l[1..];
    } else {
      AboutUpdate(l[1..], i - 1, x, t);
      assert k[1..] == l[1..][i - 1 := x];
    }
  }

  // ---------- the invariant ----------

  /** size_ is exactly what is reserved, lost, queued or running. */
  predicate SizeOk(size: int, producers: seq<Producer>, lost: nat, queue: seq<Handle>, workers: seq<Worker>) {
    size == Outstanding(producers) + lost + |queue| + BusyWorkers(workers)
  }

  /** The queue is what has been queued and not taken. */
  predicate QueueOk(queue: seq<Handle>, log: seq<Handle>, taken: nat) {
    taken <= |log| && queue == log[taken..]
  }

  /** Each ticket taken has been resumed once or is about to be; no other has. */
  ghost predicate TicketsOk(resumed: multiset<nat>, workers: seq<Worker>, taken: nat) {
    forall t: nat :: resumed[t] + AboutWorkers(workers, t) == (if t < taken then 1 else 0)
  }

  predicate MayLeave(w: nat, k: Worker, stopped: set<nat>, taken: nat) {
    match k
    case Leaving(mark) => w in stopped && mark <= taken
    case Exited(entered, mark) => w in stopped && (entered ==> mark <= taken)
    case _ => true
  }

  /** A worker leaves only with a stop request, after it has seen everything queued so far taken. */
  ghost predicate LeavingOk(workers: seq<Worker>, stopped: set<nat>, taken: nat) {
    forall w: nat :: w < |workers| ==> MayLeave(w, workers[w], stopped, taken)
  }

  /** A worker holds the handle that was queued under its ticket. */
  ghost predicate HandlesOk(workers: seq<Worker>, log: seq<Handle>) {
    forall w: nat :: w < |workers| && workers[w].Running? ==>
      workers[w].ticket < |log| && workers[w].handle == log[workers[w].ticket]
  }

  ghost predicate Inv(s: State) {
    && HandlesOk(s.workers, s.log)
    && SizeOk(s.size, s.producers, s.lost, s.queue, s.workers)
    && QueueOk(s.queue, s.log, s.taken)
    && TicketsOk(s.resumed, s.workers, s.taken)
    && LeavingOk(s.workers, s.stopped, s.taken)
  }

  lemma NobodyYet(producers: nat, workers: nat, t: nat)
    ensures Outstanding(seq(producers, i => Idle)) == 0
    ensures BusyWorkers(seq(workers, i => Starting)) == 0 && AboutWorkers(seq(workers, i => Starting), t) == 0
    decreases producers + workers
  {
    if producers > 0 {
      assert seq(producers, i => Idle)[1..] == seq(producers - 1, i => Idle);
      NobodyYet(producers - 1, workers, t);
    } else if workers > 0 {
      assert seq(workers, i => Starting)[1..] == seq(workers - 1, i => Starting);
      NobodyYet(producers, workers - 1, t);
    }
  }

  lemma InitInv(producers: nat, workers: nat)
    ensures Inv(Init(producers, workers))
  {
    NobodyYet(producers, workers, 0);
    var l := Init(producers, workers).workers;
    forall t: nat
      ensures AboutWorkers(l, t) == 0
    {
      NobodyYet(producers, workers, t);
    }
  }

  lemma PreserveProducer(s: State, x: Action)
    requires Inv(s) && Enabled(s, x)
    requires x.Admit? || x.Reserve? || x.ResumeOne? || x.ResumeRange? || x.Push? || x.PushHeld? || x.PushRange? || x.SubtractNulls?
    ensures Inv(Apply(s, x))
  {
    hide Outstanding;
    hide BusyWorkers;
    hide TicketsOk;
    hide LeavingOk;
    hide NonNull;
    var s' := Apply(s, x);
    OutstandingUpdate(s.producers, x.p, s'.producers[x.p]);
    assert s.producers[x.p := s'.producers[x.p]] == s'.producers;
    if x.PushRange? {
      NonNullSize(s.producers[x.p].handles);
    }
    assert s'.queue == s'.log[s'.taken..];
  }

  lemma TicketsStep(s: State, w: nat, k: Worker, resumed: multiset<nat>, taken: nat)
    requires w < |s.workers| && TicketsOk(s.resumed, s.workers, s.taken)
    requires forall t: nat :: resumed[t] - s.resumed[t] + About(k, t) - About(s.workers[w], t)
                           == (if t < taken then 1 else 0) - (if t < s.taken then 1 else 0)
    ensures TicketsOk(resumed, s.workers[w := k], taken)
  {
    hide AboutWorkers;
    forall t: nat
      ensures resumed[t] + AboutWorkers(s.workers[w := k], t) == (if t < taken then 1 else 0)
    {
      AboutUpdate(s.workers, w, k, t);
      assert s.resumed[t] + AboutWorkers(s.workers, t) == (if t < s.taken then 1 else 0);
    }
  }

  lemma LeavingStep(workers: seq<Worker>, w: nat, k: Worker, stopped: set<nat>, taken: nat, taken': nat)
    requires w < |workers| && LeavingOk(workers, stopped, taken) && taken <= taken'
    ensures MayLeave(w, workers[w], stopped, taken)
    ensures MayLeave(w, k, stopped, taken') ==> LeavingOk(workers[w := k], stopped, taken')
  {}

  lemma HandlesStep(workers: seq<Worker>, w: nat, k: Worker, log: seq<Handle>)
    requires w < |workers| && HandlesOk(workers, log)
    requires k.Running? ==> k.ticket < |log| && k.handle == log[k.ticket]
    ensures HandlesOk(workers[w := k], log)
  {}

  lemma PreserveWorker(s: State, x: Action)
    requires Inv(s) && Enabled(s, x)
    requires x.Enter? || x.Take? || x.SeeEmpty? || x.Recheck? || x.Run? || x.Finish?
    ensures Inv(Apply(s, x))
  {
    hide Outstanding, BusyWorkers, TicketsOk, LeavingOk, HandlesOk;
    var s' := Apply(s, x);
    var k := s'.workers[x.w];
    BusyUpdate(s.workers, x.w, k);
    TicketsStep(s, x.w, k, s'.resumed, s'.taken);
    LeavingStep(s.workers, x.w, k, s.stopped, s.taken, s'.taken);
    HandlesStep(s.workers, x.w, k, s.log);
    assert s'.workers == s.workers[x.w := k];
  }

  lemma Preserve(s: State, x: Action)
    requires Inv(s) && Enabled(s, x)
    ensures Inv(Apply(s, x))
  {
    if x.Enter? || x.Take? || x.SeeEmpty? || x.Recheck? || x.Run? || x.Finish? {
      PreserveWorker(s, x);
    } else if !x.Shutdown? && !x.RequestStop? {
      PreserveProducer(s, x);
    }
  }

  // ---------- every run ----------

  predicate Possible(s: State, run: seq<Action>)
    decreases run
  {
    run == [] || (Enabled(s, run[0]) && Possible(Apply(s, run[0]), run[1..]))
  }

  function After(s: State, run: seq<Action>): State
    requires Possible(s, run)
    decreases run
  {
    if run == [] then s else After(Apply(s, run[0]), run[1..])
  }

  lemma {:induction false} RunInv(s: State, run: seq<Action>)
    requires Inv(s) && Possible(s, run)
    ensures Inv(After(s, run))
    decreases run
  {
    hide Inv;
    hide Apply;
    hide Enabled;
    if run != [] {
      Preserve(s, run[0]);
      RunInv(Apply(s, run[0]), run[1..]);
    }
  }

  /** In every run size_ is the sum of all outstanding work, and it is never negative. */
  lemma SizeCounts(producers: nat, workers: nat, run: seq<Action>)
    requires Possible(Init(producers, workers), run)
    ensures var s := After(Init(producers, workers), run);
      s.size == Outstanding(s.producers) + s.lost + |s.queue| + BusyWorkers(s.workers) >= 0
  {
    InitInv(producers, workers);
    RunInv(Init(producers, workers), run);
  }

  /** empty() means that nothing is queued, running or reserved. */
  lemma EmptyMeansIdle(producers: nat, workers: nat, run: seq<Action>, w: nat, p: nat)
    requires Possible(Init(producers, workers), run)
    requires var s := After(Init(producers, workers), run);
      s.size == 0 && w < |s.workers| && p < |s.producers|
    ensures var s := After(Init(producers, workers), run);
      s.queue == [] && !s.workers[w].Running? && !s.workers[w].Returned? && Units(s.producers[p]) == 0
  {
    InitInv(producers, workers);
    RunInv(Init(producers, workers), run);
    var s := After(Init(producers, workers), run);
    BusyUpdate(s.workers, w, Looping);
    OutstandingUpdate(s.producers, p, Idle);
  }

  /**
   * Handles leave in the order in which they came: the worker with ticket t resumes the t-th handle queued, and nobody
   * else does.
   */
  lemma FirstInFirstOut(producers: nat, workers: nat, run: seq<Action>, w: nat, t: nat)
    requires Possible(Init(producers, workers), run)
    requires w < |After(Init(producers, workers), run).workers|
    ensures var s := After(Init(producers, workers), run);
      && s.taken <= |s.log| && s.log == s.log[..s.taken] + s.queue
      && s.resumed[t] <= 1
      && (s.resumed[t] == 1 ==> t < s.taken)
      && (s.workers[w].Running? && s.workers[w].ticket == t ==>
          t < s.taken && s.resumed[t] == 0 && s.workers[w].handle == s.log[t])
  {
    InitInv(producers, workers);
    RunInv(Init(producers, workers), run);
    var s := After(Init(producers, workers), run);
    AboutUpdate(s.workers, w, Looping, t);
    assert s.resumed[t] + AboutWorkers(s.workers, t) == (if t < s.taken then 1 else 0);
  }

  // ---------- the bookkeeping is that of the run ----------

  lemma {:induction false} OneMore(s: State, run: seq<Action>, x: Action)
    requires Possible(s, run)
    ensures Possible(s, run + [x]) <==> Enabled(After(s, run), x)
    ensures Possible(s, run + [x]) ==> After(s, run + [x]) == Apply(After(s, run), x)
    decreases run
  {
    hide Apply, Enabled;
    var longer := run + [x];
    if run == [] {
      assert longer == [x] && longer[1..] == [];
    } else {
      assert longer[0] == run[0] && longer[1..] == run[1..] + [x];
      OneMore(Apply(s, run[0]), run[1..], x);
    }
  }

  lemma {:induction false} PossiblePrefix(s: State, run: seq<Action>, x: Action)
    requires Possible(s, run + [x])
    ensures Possible(s, run)
    decreases run
  {
    hide Apply, Enabled;
    if run != [] {
      assert (run + [x])[0] == run[0] && (run + [x])[1..] == run[1..] + [x];
      PossiblePrefix(Apply(s, run[0]), run[1..], x);
    }
  }

  /** The handle that p has last given to resume. */
  function LastGiven(run: seq<Action>, p: nat): Option {
    if run == [] then None
    else
      var x := run[|run| - 1];
      if x.ResumeOne? && x.p == p && x.h.Some? then x.h else LastGiven(run[..|run| - 1], p)
  }

  /** The range that p has last given to resume. */
  function LastRange(run: seq<Action>, p: nat): seq<Option> {
    if run == [] then []
    else
      var x := run[|run| - 1];
      if x.ResumeRange? && x.p == p then x.hs else LastRange(run[..|run| - 1], p)
  }

  /** The handles handed in, in the order of their pushes. */
  function HandedIn(run: seq<Action>): seq<Handle> {
    if run == [] then []
    else
      var init, x := run[..|run| - 1], run[|run| - 1];
      HandedIn(init) + Pushed(init, x)
  }

  /** What a step behind a run hands in. */
  function Pushed(run: seq<Action>, x: Action): seq<Handle> {
    match x
    case Push(p, h) => NonNull([h])
    case PushHeld(p) => NonNull([LastGiven(run, p)])
    case PushRange(p) => NonNull(LastRange(run, p))
    case _ => []
  }

  /** How many handles have been taken. */
  function Takes(run: seq<Action>): nat {
    if run == [] then 0 else Takes(run[..|run| - 1]) + (if run[|run| - 1].Take? then 1 else 0)
  }

  /** How many handles had been taken when w took its last one: its ticket. */
  function TicketOf(run: seq<Action>, w: nat): nat {
    if run == [] then 0
    else if run[|run| - 1] == Take(w) then Takes(run[..|run| - 1])
    else TicketOf(run[..|run| - 1], w)
  }

  /** How many handles had been handed in when w last woke up to an empty queue. */
  function MarkOf(run: seq<Action>, w: nat): nat {
    if run == [] then 0
    else if run[|run| - 1] == SeeEmpty(w) then |HandedIn(run[..|run| - 1])|
    else MarkOf(run[..|run| - 1], w)
  }

  /** What a producer holds is what was given to it. */
  ghost predicate GivenOk(producers: seq<Producer>, run: seq<Action>) {
    forall p: nat :: p < |producers| ==>
      && (producers[p].Holding? ==> LastGiven(run, p) == Some(producers[p].handle))
      && (producers[p].Batch? ==> LastRange(run, p) == producers[p].handles)
  }

  /** Tickets and marks of the workers. */
  ghost predicate WorkersOk(workers: seq<Worker>, run: seq<Action>) {
    forall w: nat :: w < |workers| ==> WorkerOk(workers[w], w, run)
  }

  predicate WorkerOk(k: Worker, w: nat, run: seq<Action>) {
    match k
    case Running(t, _) => t == TicketOf(run, w)
    case Returned(t) => t == TicketOf(run, w)
    case Leaving(mark) => SeeEmpty(w) in run && mark == MarkOf(run, w)
    case Exited(entered, mark) => entered ==> SeeEmpty(w) in run && mark == MarkOf(run, w)
    case _ => true
  }

  ghost predicate RecordOk(s: State, run: seq<Action>) {
    && s.log == HandedIn(run) && s.taken == Takes(run)
    && (s.shutdown <==> Shutdown in run)
    && (forall w: nat :: w in s.stopped <==> RequestStop(w) in run)
    && GivenOk(s.producers, run) && WorkersOk(s.workers, run)
  }

  lemma NonNullOne(h: Option)
    ensures NonNull([h]) == if h.Some? then [h.handle] else []
  {
    assert [h][..0] == [];
    assert NonNull([]) == [];
  }

  lemma NextOfRun(run: seq<Action>, x: Action, w: nat)
    ensures HandedIn(run + [x]) == HandedIn(run) + Pushed(run, x)
    ensures Takes(run + [x]) == Takes(run) + (if x.Take? then 1 else 0)
    ensures TicketOf(run + [x], w) == if x == Take(w) then Takes(run) else TicketOf(run, w)
    ensures MarkOf(run + [x], w) == if x == SeeEmpty(w) then |HandedIn(run)| else MarkOf(run, w)
  {
    hide Pushed;
    assert (run + [x])[..|run|] == run;
  }

  lemma PushedIs(s: State, run: seq<Action>, x: Action)
    requires GivenOk(s.producers, run) && Enabled(s, x)
    ensures Apply(s, x).log == s.log + Pushed(run, x)
  {
    hide NonNull, LastGiven, LastRange;
    if x.Push? {
      NonNullOne(x.h);
    } else if x.PushHeld? {
      NonNullOne(LastGiven(run, x.p));
    }
    assert s.log + [] == s.log;
  }

  lemma LogStep(s: State, run: seq<Action>, x: Action)
    requires RecordOk(s, run) && Enabled(s, x)
    ensures Apply(s, x).log == HandedIn(run + [x]) && Apply(s, x).taken == Takes(run + [x])
  {
    hide WorkersOk, GivenOk, HandedIn, Takes, Pushed, Apply, Enabled, TicketOf, MarkOf;
    PushedIs(s, run, x);
    TakenIs(s, x);
    NextOfRun(run, x, 0);
  }

  lemma TakenIs(s: State, x: Action)
    requires Enabled(s, x)
    ensures Apply(s, x).taken == s.taken + (if x.Take? then 1 else 0)
  {
    hide NonNull;
  }

  lemma GivenStep(s: State, run: seq<Action>, x: Action)
    requires GivenOk(s.producers, run) && Enabled(s, x)
    ensures GivenOk(Apply(s, x).producers, run + [x])
  {
    hide NonNull, HandedIn;
    assert (run + [x])[..|run|] == run;
  }

  lemma WorkerStep(s: State, run: seq<Action>, x: Action, w: nat)
    requires RecordOk(s, run) && Enabled(s, x) && w < |s.workers|
    ensures |Apply(s, x).workers| == |s.workers| && WorkerOk(Apply(s, x).workers[w], w, run + [x])
  {
    hide NonNull, HandedIn, GivenOk, Takes, TicketOf, MarkOf;
    NextOfRun(run, x, w);
    assert WorkerOk(s.workers[w], w, run);
  }

  lemma FlagsStep(s: State, run: seq<Action>, x: Action)
    requires RecordOk(s, run) && Enabled(s, x)
    ensures Apply(s, x).shutdown <==> Shutdown in run + [x]
    ensures forall w: nat :: w in Apply(s, x).stopped <==> RequestStop(w) in run + [x]
  {
    hide NonNull, HandedIn, GivenOk, WorkersOk, Takes;
  }

  lemma RecordStep(s: State, run: seq<Action>, x: Action)
    requires RecordOk(s, run) && Enabled(s, x)
    ensures RecordOk(Apply(s, x), run + [x])
  {
    hide HandedIn, Takes, Apply, GivenOk, WorkerOk, Enabled;
    LogStep(s, run, x);
    GivenStep(s, run, x);
    FlagsStep(s, run, x);
    WorkersKept(s, x);
    forall w: nat | w < |s.workers| ensures WorkerOk(Apply(s, x).workers[w], w, run + [x]) {
      WorkerStep(s, run, x, w);
    }
  }

  lemma WorkersKept(s: State, x: Action)
    requires Enabled(s, x)
    ensures |Apply(s, x).workers| == |s.workers|
  {}

  /**
   * The run alone determines what was queued and in which order, how much of it was taken, which worker has which
   * ticket, what each had seen drained when it left, and who was told to stop.
   */
  lemma {:induction false} RecordOfRun(producers: nat, workers: nat, run: seq<Action>)
    requires Possible(Init(producers, workers), run)
    ensures RecordOk(After(Init(producers, workers), run), run)
    decreases |run|
  {
    if run != [] {
      hide RecordOk, Init;
      var init, x := run[..|run| - 1], run[|run| - 1];
      assert run == init + [x];
      PossiblePrefix(Init(producers, workers), init, x);
      OneMore(Init(producers, workers), init, x);
      RecordOfRun(producers, workers, init);
      RecordStep(After(Init(producers, workers), init), init, x);
    }
  }

  /** A worker that has popped resumes the handle handed in at the position of its ticket. */
  lemma ResumesWhatWasHandedIn(producers: nat, workers: nat, run: seq<Action>, w: nat)
    requires Possible(Init(producers, workers), run)
    requires var s := After(Init(producers, workers), run); w < |s.workers| && s.workers[w].Running?
    ensures TicketOf(run, w) < |HandedIn(run)|
    ensures After(Init(producers, workers), run).workers[w].handle == HandedIn(run)[TicketOf(run, w)]
    ensures Takes(run) <= |HandedIn(run)| && After(Init(producers, workers), run).queue == HandedIn(run)[Takes(run)..]
  {
    hide Init, HandedIn, TicketOf, Takes, Possible, After, GivenOk;
    InitInv(producers, workers);
    RunInv(Init(producers, workers), run);
    RecordOfRun(producers, workers, run);
    assert WorkerOk(After(Init(producers, workers), run).workers[w], w, run);
  }

  /** A worker that entered its loop has left it only on request, after everything handed in by then had been taken. */
  lemma LeavesAfterDraining(producers: nat, workers: nat, run: seq<Action>, w: nat)
    requires Possible(Init(producers, workers), run)
    requires var s := After(Init(producers, workers), run);
      w < |s.workers| && s.workers[w].Exited? && s.workers[w].entered
    ensures RequestStop(w) in run && SeeEmpty(w) in run && MarkOf(run, w) <= Takes(run)
  {
    hide Init, HandedIn, TicketOf, Takes, Possible, After, GivenOk, MarkOf;
    InitInv(producers, workers);
    RunInv(Init(producers, workers), run);
    RecordOfRun(producers, workers, run);
    assert WorkerOk(After(Init(producers, workers), run).workers[w], w, run);
  }

  predicate Gone(w: Worker) {
    w.Starting? || w.Exited?
  }

  lemma {:induction false} NobodyBusy(l: seq<Worker>, t: nat)
    requires forall w :: 0 <= w < |l| ==> Gone(l[w])
    ensures BusyWorkers(l) == 0 && AboutWorkers(l, t) == 0
  {
    if l != [] {
      NobodyBusy(l[1..], t);
    }
  }

  /**
   * Once every worker that entered its loop has left it, everything handed in before any of them last woke up to an empty
   * queue has been resumed, once, and its reservation given back.
   */
  lemma DrainedAtEnd(producers: nat, workers: nat, run: seq<Action>, w: nat, t: nat)
    requires Possible(Init(producers, workers), run)
    requires var s := After(Init(producers, workers), run);
      && (forall k :: 0 <= k < |s.workers| ==> Gone(s.workers[k]))
      && w < |s.workers| && s.workers[w].Exited? && s.workers[w].entered && t < MarkOf(run, w)
    ensures var s := After(Init(producers, workers), run);
      s.resumed[t] == 1 && s.size == Outstanding(s.producers) + s.lost + |s.queue|
  {
    hide Init, After, Possible, HandedIn, Takes, MarkOf, TicketOf, GivenOk;
    InitInv(producers, workers);
    RunInv(Init(producers, workers), run);
    var s := After(Init(producers, workers), run);
    NobodyBusy(s.workers, t);
    RecordOfRun(producers, workers, run);
    assert WorkerOk(s.workers[w], w, run);
    assert s.resumed[t] + AboutWorkers(s.workers, t) == (if t < s.taken then 1 else 0);
  }

  /** A worker that has not left can go on, unless it waits: in its loop, with nothing queued and no request to stop. */
  lemma WorkerNeverStuck(s: State, w: nat)
    requires w < |s.workers| && !s.workers[w].Exited?
    requires !(s.workers[w].Looping? && s.queue == [] && w !in s.stopped)
    ensures Enabled(s, Enter(w)) || Enabled(s, Take(w)) || Enabled(s, SeeEmpty(w)) || Enabled(s, Recheck(w))
         || Enabled(s, Run(w)) || Enabled(s, Finish(w))
  {}

  /** After shutdown, once the calls of schedule already admitted are through, no further one reserves. */
  lemma {:induction false} ShutdownRefuses(s: State, run: seq<Action>)
    requires s.shutdown && (forall p: nat :: p < |s.producers| ==> s.producers[p] != Admitted) && Possible(s, run)
    ensures forall i :: 0 <= i < |run| ==> !run[i].Reserve?
    decreases run
  {
    hide NonNull;
    if run != [] {
      ShutdownRefuses(Apply(s, run[0]), run[1..]);
      assert run == [run[0]] + run[1..];
    }
  }

  // ---------- what NonNull is ----------

  /** It goes through the range once. */
  lemma {:induction false} NonNullConcat(a: seq<Option>, b: seq<Option>)
    ensures NonNull(a + b) == NonNull(a) + NonNull(b)
    decreases |b|
  {
    if b == [] {
      assert a + b == a;
    } else {
      var init, last := b[..|b| - 1], b[|b| - 1];
      assert (a + b)[..|a + b| - 1] == a + init;
      NonNullConcat(a, init);
    }
  }

  /** Every handle is kept, behind exactly as many as there are handles before it. */
  lemma NonNullAt(hs: seq<Option>, i: nat)
    requires i < |hs| && hs[i].Some?
    ensures |NonNull(hs[..i])| < |NonNull(hs)| && NonNull(hs)[|NonNull(hs[..i])|] == hs[i].handle
  {
    hide NonNull;
    NonNullOne(hs[i]);
    assert hs == hs[..i] + ([hs[i]] + hs[i + 1..]);
    NonNullConcat(hs[..i], [hs[i]] + hs[i + 1..]);
    NonNullConcat([hs[i]], hs[i + 1..]);
  }

  /** Nothing but the handles of the range, each as often as it occurs there. */
  lemma {:induction false} NonNullCounts(hs: seq<Option>, h: Handle)
    ensures |NonNull(hs)| == |hs| - multiset(hs)[None]
    ensures multiset(NonNull(hs))[h] == multiset(hs)[Some(h)]
  {
    hide NonNull;
    if hs == [] {
      NonNullNone();
    } else {
      var init, last := hs[..|hs| - 1], hs[|hs| - 1];
      NonNullCounts(init, h);
      NonNullOne(last);
      NonNullConcat(init, [last]);
      assert hs == init + [last];
      CountPush(init, last, Some(h));
      CountPush(init, last, None);
      if last.Some? {
        CountPush(NonNull(init), last.handle, h);
      } else {
        assert NonNull(init) + [] == NonNull(init);
      }
    }
  }

  lemma NonNullNone()
    ensures NonNull([]) == []
  {}

  lemma CountPush<T>(s: seq<T>, x: T, y: T)
    ensures multiset(s + [x])[y] == multiset(s)[y] + (if x == y then 1 else 0)
  {}

  /** The locked loop of resume over a range: the handles that are not null, in order, and how many are. */
  method PushHandles(queue: seq<Handle>, handles: seq<Option>) returns (queue': seq<Handle>, nulls: nat)
    ensures queue' == queue + NonNull(handles)
    ensures nulls + |NonNull(handles)| == |handles|
  {
    queue', nulls := queue, 0;
    for i := 0 to |handles|
      invariant queue' == queue + NonNull(handles[..i])
      invariant nulls + |NonNull(handles[..i])| == i
    {
      assert handles[..i + 1][..i] == handles[..i];
      if handles[i].Some? {
        queue' := queue' + [handles[i].handle];
      } else {
        nulls := nulls + 1;
      }
    }
    assert handles[..|handles|] == handles;
  }
}
