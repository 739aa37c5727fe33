/**
 * The when_all latch of async/when_all.hpp as a transition system.  The awaiting coroutine starts n tasks, stores its
 * handle and gives up its own share of the counter; every task gives up one share when it completes, at any time
 * after it was started.  Whoever takes the counter from one to zero releases the awaiting coroutine.
 */
module WhenAll {

  const WRAP: nat := 0x1_0000_0000_0000_0000

  /** Progress of try_await: the loop over the tasks, the stored handle, and the result of its fetch_sub. */
  datatype Phase = Starting | Stored | Suspended | Continues

  /**
   * started tasks have been started; notified ones have done their fetch_sub; resumers are those that saw one and
   * have not called resume yet; resumes counts the calls.
   */
  datatype State = State(n: nat, count: nat, started: nat, notified: set<nat>, resumers: set<nat>, resumes: nat,
                         phase: Phase)

  datatype Action = StartTask | Notify(task: nat) | Resume(task: nat) | StoreHandle | GiveUp

  /** The latch is built with one share more than there are tasks. */
  function Init(n: nat): State
    requires n + 1 < WRAP
  {
    State(n, n + 1, 0, {}, {}, 0, Starting)
  }

  /** fetch_sub(1) on a size_t. */
  function Less(count: nat): nat {
    if count == 0 then WRAP - 1 else count - 1
  }

  predicate Enabled(s: State, x: Action) {
    match x
    case StartTask => s.phase == Starting && s.started < s.n
    case Notify(i) => i < s.started && i !in s.notified
    case Resume(i) => i in s.resumers
    case StoreHandle => s.phase == Starting && s.started == s.n
    case GiveUp => s.phase == Stored
  }

  function Apply(s: State, x: Action): State
    requires Enabled(s, x)
  {
    match x
    case StartTask => s.(started := s.started + 1)
    case Notify(i) =>
      s.(count := Less(s.count), notified := s.notified + {i},
         resumers := if s.count == 1 then s.resumers + {i} else s.resumers)
    case Resume(i) => s.(resumers := s.resumers - {i}, resumes := s.resumes + 1)
    case StoreHandle => s.(phase := Stored)
    case GiveUp => s.(count := Less(s.count), phase := if s.count > 1 then Suspended else Continues)
  }

  /** How often the awaiting coroutine has been let go, or is about to be. */
  function Releases(s: State): nat {
    s.resumes + |s.resumers| + (if s.phase == Continues then 1 else 0)
  }

  ghost predicate Inv(s: State) {
    && s.started <= s.n && (s.phase != Starting ==> s.started == s.n)
    && s.notified <= Tasks(s.started) && s.resumers <= s.notified
    && s.count == s.n - |s.notified| + (if s.phase == Starting || s.phase == Stored then 1 else 0)
    && Releases(s) == (if s.count == 0 then 1 else 0)
  }

  function Tasks(n: nat): (t: set<nat>)
    ensures forall i: nat :: i in t <==> i < n
    ensures |t| == n
  {
    if n == 0 then {} else Tasks(n - 1) + {n - 1}
  }

  lemma SubsetSize(a: set<nat>, b: set<nat>)
    requires a <= b
    ensures |a| <= |b|
    ensures |a| == |b| ==> a == b
  {
    assert |b| == |a| + |b - a| by { assert b == a + (b - a); }
  }

  lemma InitInv(n: nat)
    requires n + 1 < WRAP
    ensures Inv(Init(n))
  {}

  /** While some task or the awaiting coroutine still holds a share, the counter is positive: it never wraps. */
  lemma CounterPositive(s: State, x: Action)
    requires Inv(s) && Enabled(s, x) && (x.Notify? || x.GiveUp?)
    ensures s.count > 0
  {
    SubsetSize(s.notified, Tasks(s.started));
    if x.Notify? {
      assert x.task in Tasks(s.started);
    }
  }

  lemma Preserve(s: State, x: Action)
    requires Inv(s) && Enabled(s, x)
    ensures Inv(Apply(s, x))
  {
    SubsetSize(s.notified, Tasks(s.started));
    match x
    case StartTask =>
    case Notify(i) => CounterPositive(s, x);
    case Resume(i) =>
    case StoreHandle =>
    case GiveUp => CounterPositive(s, x);
  }

  predicate Possible(s: State, run: seq<Action>)
    decreases run
  {
    run == [] || (Enabled(s, run[0]) && Possible(Apply(s, run[0]), run[1..]))
  }

  function After(s: State, run: seq<Action>): State
    requires Possible(s, run)
    decreases run
  {
    if run == [] then s else After(Apply(s, run[0]), run[1..])
  }

  lemma {:induction false} RunInv(s: State, run: seq<Action>)
    requires Inv(s) && Possible(s, run)
    ensures Inv(After(s, run)) && After(s, run).n == s.n
    decreases run
  {
    if run != [] {
      Preserve(s, run[0]);
      RunInv(Apply(s, run[0]), run[1..]);
    }
  }

  function Resumes(run: seq<Action>): nat {
    if run == [] then 0 else (if run[0].Resume? then 1 else 0) + Resumes(run[1..])
  }

  function Starts(run: seq<Action>): nat {
    if run == [] then 0 else (if run[0].StartTask? then 1 else 0) + Starts(run[1..])
  }

  /** Who has been started, has completed and has resumed is what the run says. */
  lemma {:induction false} RecordOfRun(s: State, run: seq<Action>)
    requires Possible(s, run)
    ensures var s' := After(s, run);
      && s'.started == s.started + Starts(run) && s'.resumes == s.resumes + Resumes(run)
      && (forall i :: i in s'.notified <==> i in s.notified || Notify(i) in run)
      && (s'.phase == Suspended || s'.phase == Continues <==> s.phase == Suspended || s.phase == Continues || GiveUp in run)
    decreases run
  {
    if run != [] {
      RecordOfRun(Apply(s, run[0]), run[1..]);
      assert run == [run[0]] + run[1..];
    }
  }

  /**
   * At every point of every run: the awaiting coroutine has been released at most once; if it has been, by either
   * way, all n tasks have completed; and a task that resumes it finds the handle stored and the coroutine suspended.
   */
  lemma ReleasedAtMostOnce(n: nat, run: seq<Action>)
    requires n + 1 < WRAP && Possible(Init(n), run)
    ensures var s := After(Init(n), run);
      && Releases(s) <= 1 && Resumes(run) <= 1
      && (Releases(s) == 1 ==> forall i: nat :: i < n ==> Notify(i) in run)
      && (Resumes(run) > 0 || s.resumers != {} ==> s.phase == Suspended && StoreHandle in run && GiveUp in run)
  {
    InitInv(n);
    RunInv(Init(n), run);
    RecordOfRun(Init(n), run);
    if GiveUp in run {
      StoredBefore(Init(n), run);
    }
    var s := After(Init(n), run);
    SubsetSize(s.notified, Tasks(s.started));
    if s.resumers != {} { SubsetSize({}, s.resumers); }
  }

  /** Nobody gives up a share that has not stored the handle. */
  lemma {:induction false} StoredBefore(s: State, run: seq<Action>)
    requires Possible(s, run) && s.phase == Starting && GiveUp in run
    ensures StoreHandle in run
    decreases run
  {
    assert run == [run[0]] + run[1..];
    if run[0] != StoreHandle {
      StoredBefore(Apply(s, run[0]), run[1..]);
    }
  }

  predicate Finished(s: State) {
    s.notified == Tasks(s.n) && s.resumers == {} && (s.phase == Suspended || s.phase == Continues)
  }

  /** Once everything has happened it has been released exactly once: by try_await returning false, or by one resume. */
  lemma ReleasedExactlyOnce(n: nat, run: seq<Action>)
    requires n + 1 < WRAP && Possible(Init(n), run) && Finished(After(Init(n), run))
    ensures var s := After(Init(n), run);
      (s.phase == Continues && Resumes(run) == 0) || (s.phase == Suspended && Resumes(run) == 1)
  {
    InitInv(n);
    RunInv(Init(n), run);
    RecordOfRun(Init(n), run);
  }

  /** Until then some step is possible, so the protocol cannot get stuck. */
  lemma NeverStuck(n: nat, run: seq<Action>)
    requires n + 1 < WRAP && Possible(Init(n), run) && !Finished(After(Init(n), run))
    ensures exists x :: Enabled(After(Init(n), run), x)
  {
    InitInv(n);
    RunInv(Init(n), run);
    var s := After(Init(n), run);
    if s.phase == Starting {
      assert Enabled(s, if s.started < s.n then StartTask else StoreHandle);
    } else if s.phase == Stored {
      assert Enabled(s, GiveUp);
    } else if s.resumers != {} {
      var i :| i in s.resumers;
      assert Enabled(s, Resume(i));
    } else {
      var i :| i in Tasks(s.n) && i !in s.notified;
      assert Enabled(s, Notify(i));
    }
  }

  /** Every step uses something up, so every run is finite: at most 3n + 2 steps. */
  function Remaining(s: State): int {
    (s.n - s.started) + 2 * (s.n - |s.notified|) + |s.resumers|
    + (match s.phase case Starting => 2 case Stored => 1 case _ => 0)
  }

  lemma StepUses(s: State, x: Action)
    requires Inv(s) && Enabled(s, x)
    ensures 0 <= Remaining(Apply(s, x)) < Remaining(s)
  {
    Preserve(s, x);
    var s' := Apply(s, x);
    SubsetSize(s'.notified, Tasks(s'.started));
  }

  lemma {:induction false} RunsAreShort(s: State, run: seq<Action>)
    requires Inv(s) && Possible(s, run)
    ensures |run| <= Remaining(s)
    decreases run
  {
    SubsetSize(s.notified, Tasks(s.started));
    if run != [] {
      StepUses(s, run[0]);
      Preserve(s, run[0]);
      RunsAreShort(Apply(s, run[0]), run[1..]);
    }
  }
}
