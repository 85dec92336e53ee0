/**
 Whole calls of ThreadPool::run and of the destructor (common/RenderTiles.hpp, class ThreadPool), over
 the state machine of ThreadPools: when a call returns, what it leaves behind, and that it ends.
*/
module ThreadPoolRuns {

  import opened Wrappers
  import opened ThreadPools

  // ----- a call of run ----------------------------------------------------------------------

  predicate InRun(s: Pool) {
    s.main.InTask? || s.main.Blocked?
  }

  /** The steps up to the one with which run returns; None if they are not that. */
  function Finish(s: Pool, steps: seq<Step>): Option<Pool>
    decreases |steps|
  {
    if !InRun(s) then (if steps == [] then Some(s) else None)
    else if steps == [] || !Enabled(s, steps[0]) then None
    else Finish(Next(s, steps[0]), steps[1..])
  }

  /** One call of run, with everything that the workers do until it returns. */
  function CallRun(s: Pool, steps: seq<Step>): Option<Pool>
    requires s.main.Outside?
  {
    Finish(Next(s, EnterRun), steps)
  }

  /** Nothing queued, nothing in flight, everything that was pushed is done. */
  ghost predicate Idle(s: Pool) {
    && s.work == [] && Running(s) == 0
    && forall t :: Occurs(s.pushed, t) == Occurs(s.done, t)
  }

  /** Inside a run that uses the threads. */
  ghost predicate Waits(s: Pool) {
    s.main.Blocked? || (s.main.InTask? && s.main.useThreads)
  }

  lemma {:induction false} NotInFlight(workers: seq<Worker>, t: Task)
    requires Busy(workers) == 0
    ensures BusyWith(workers, t) == 0
    decreases |workers|
  {
    if workers == [] {
    } else {
      NotInFlight(workers[1..], t);
    }
  }

  lemma {:induction false} NothingRunningMeansDone(s: Pool)
    requires Accounts(s) && s.work == [] && s.working == 0
    ensures Idle(s)
  {
    hide Busy, BusyWith, Occurs;
    assert s.pushed == s.started;
    forall t ensures Occurs(s.pushed, t) == Occurs(s.done, t) {
      assert Occurs(s.started, t) == Occurs(s.done, t) + InFlight(s, t);
      NotInFlight(s.workers, t);
    }
  }

  lemma {:induction false} WaitsOrIdle(s: Pool, step: Step)
    requires Inv(s) && Waits(s) && Enabled(s, step)
    ensures var r := Next(s, step); Inv(r) && (Waits(r) || (r.main.Outside? && r.work == [] && r.working == 0))
    ensures Next(s, step).pushed == s.pushed
  {
    hide Accounts, Alert;
    StepKeepsInv(s, step);
    RunningIsNotNegative(Next(s, step));
  }

  lemma {:induction false} RunningIsNotNegative(s: Pool)
    requires Inv(s)
    ensures s.working >= 0
  {
  }

  lemma {:induction false} FinishIsIdle(s: Pool, steps: seq<Step>)
    requires Inv(s) && Waits(s) && Finish(s, steps).Some?
    ensures Idle(Finish(s, steps).value) && Finish(s, steps).value.pushed == s.pushed
    decreases |steps|
  {
    hide Accounts, Alert, Idle, Next, Waits;
    assert InRun(s) by { WaitsIsInRun(s); }
    var r := Next(s, steps[0]);
    WaitsOrIdle(s, steps[0]);
    if Waits(r) {
      FinishIsIdle(r, steps[1..]);
    } else {
      NothingRunningMeansDone(r);
    }
  }

  lemma {:induction false} WaitsIsInRun(s: Pool)
    requires Waits(s)
    ensures InRun(s)
  {
  }

  /** A run that uses the threads returns only when nothing is queued and nothing in flight: all that
      had been pushed is done, once for each push. */
  lemma {:induction false} RunReturnsIdle(n: nat, s: Pool, steps: seq<Step>)
    requires Reachable(n, s) && s.main.Outside? && UsesThreads(s)
    requires CallRun(s, steps).Some?
    ensures Idle(CallRun(s, steps).value) && CallRun(s, steps).value.pushed == s.pushed
  {
    hide Accounts, Alert, Idle, Finish;
    ReachableInv(n, s);
    StepKeepsInv(s, EnterRun);
    FinishIsIdle(Next(s, EnterRun), steps);
  }

  // ----- a run that does not use the threads ------------------------------------------------

  predicate NoSpurious(steps: seq<Step>) {
    forall i :: 0 <= i < |steps| ==> !IsSpurious(steps[i])
  }

  ghost predicate SomeExecuting(workers: seq<Worker>) {
    exists i :: 0 <= i < |workers| && workers[i].Executing?
  }

  ghost predicate SomeWoken(workers: seq<Worker>) {
    exists i :: 0 <= i < |workers| && workers[i].Woken?
  }

  /** No worker is running a task or about to find one. */
  ghost predicate Quiet(s: Pool) {
    && !s.shutdown && !SomeExecuting(s.workers)
    && (s.work == [] || !SomeWoken(s.workers))
    && (s.main.Outside? || (s.main.InTask? && !s.main.useThreads))
  }

  lemma {:induction false} StepStaysQuiet(s: Pool, step: Step)
    requires Quiet(s) && s.main.InTask? && Enabled(s, step) && !IsSpurious(step)
    ensures Quiet(Next(s, step))
  {
    var r := Next(s, step);
    forall i | 0 <= i < |r.workers| ensures !r.workers[i].Executing? && (r.workers[i].Woken? ==> r.work == []) {
      assert !s.workers[i].Executing? && (s.workers[i].Woken? ==> s.work == []);
    }
  }

  lemma {:induction false} QuietRunReturnsQuiet(s: Pool, steps: seq<Step>)
    requires Quiet(s) && NoSpurious(steps) && Finish(s, steps).Some?
    ensures Quiet(Finish(s, steps).value)
    decreases |steps|
  {
    hide Next;
    if InRun(s) {
      assert s.main.InTask?;
      assert !IsSpurious(steps[0]);
      StepStaysQuiet(s, steps[0]);
      QuietRunReturnsQuiet(Next(s, steps[0]), steps[1..]);
    }
  }

  function MainFinishes(n: nat): (r: seq<Step>)
    ensures |r| == n && NoSpurious(r)
    decreases n
  {
    if n == 0 then [] else [MainFinish] + MainFinishes(n - 1)
  }

  /** The main thread alone can take all the tasks and return. */
  lemma {:induction false} MainDrains(s: Pool)
    requires s.main.InTask? && !s.main.useThreads
    ensures var r := Finish(s, MainFinishes(|s.work| + 1));
            r.Some? && r.value.workers == s.workers
    decreases |s.work|
  {
    var steps := MainFinishes(|s.work| + 1);
    assert steps[0] == MainFinish && steps[1..] == MainFinishes(|s.work|);
    if s.work != [] {
      MainDrains(Next(s, MainFinish));
    }
  }

  lemma {:induction false} BusyPositive(workers: seq<Worker>)
    requires SomeExecuting(workers)
    ensures Busy(workers) > 0
    decreases |workers|
  {
    var i :| 0 <= i < |workers| && workers[i].Executing?;
    if i > 0 {
      assert workers[1..][i - 1].Executing?;
      BusyPositive(workers[1..]);
    }
  }

  /** run can return, without any spurious wake-up, while a task is still running. */
  ghost predicate MayReturnEarly(s: Pool)
    requires s.main.Outside?
  {
    exists steps :: NoSpurious(steps) && ReturnsEarly(s, steps)
  }

  ghost predicate ReturnsEarly(s: Pool, steps: seq<Step>)
    requires s.main.Outside?
  {
    CallRun(s, steps).Some? && Running(CallRun(s, steps).value) > 0
  }

  lemma {:induction false} EarlyWhenExecuting(s: Pool)
    requires s.main.Outside? && !UsesThreads(s) && SomeExecuting(s.workers)
    ensures MayReturnEarly(s)
  {
    hide Finish, Busy;
    var steps := MainFinishes(|s.work|);
    var r := Next(s, EnterRun);
    if s.work == [] {
      assert Finish(r, []) == Some(r) by { FinishDone(r); }
    } else {
      MainDrains(r);
    }
    BusyPositive(s.workers);
    assert ReturnsEarly(s, steps);
  }

  lemma {:induction false} FinishDone(s: Pool)
    requires !InRun(s)
    ensures Finish(s, []) == Some(s)
  {
  }

  lemma {:induction false} EarlyWhenWoken(s: Pool)
    requires s.main.Outside? && !s.shutdown && !UsesThreads(s) && |s.work| >= 2 && SomeWoken(s.workers)
    ensures MayReturnEarly(s)
  {
    hide Busy;
    var i :| 0 <= i < |s.workers| && s.workers[i].Woken?;
    var steps := MainFinishes(|s.work| - 1);
    var r := Next(s, EnterRun);
    var q := Next(r, WorkerWake(i));
    assert q.workers[i].Executing?;
    MainDrains(q);
    BusyPositive(q.workers);
    var all := [WorkerWake(i)] + steps;
    assert all[1..] == steps;
    assert ReturnsEarly(s, all);
  }

  /** A run that does not use the threads does not wait for them.  Without spurious wake-ups it can
      return before everything is done in exactly two cases: when it is called while a worker is
      still running a task, and when it is called with two tasks or more while a worker that was woken
      earlier has not had the mutex yet. */
  lemma {:induction false} EarlyReturnExactly(n: nat, s: Pool)
    requires Reachable(n, s) && s.main.Outside? && !UsesThreads(s)
    ensures MayReturnEarly(s) <==> SomeExecuting(s.workers) || (|s.work| >= 2 && SomeWoken(s.workers))
  {
    hide Reachable, Accounts, SomeExecuting, SomeWoken, CallRun, Running;
    ReachableInv(n, s);
    if SomeExecuting(s.workers) {
      EarlyWhenExecuting(s);
    } else if |s.work| >= 2 && SomeWoken(s.workers) {
      EarlyWhenWoken(s);
    } else if MayReturnEarly(s) {
      var steps :| NoSpurious(steps) && ReturnsEarly(s, steps);
      NeverEarlyWhenQuiet(s, steps);
    }
  }

  lemma {:induction false} NeverEarlyWhenQuiet(s: Pool, steps: seq<Step>)
    requires s.main.Outside? && !s.shutdown && !UsesThreads(s) && NoSpurious(steps)
    requires !SomeExecuting(s.workers) && (|s.work| <= 1 || !SomeWoken(s.workers))
    ensures !ReturnsEarly(s, steps)
  {
    hide Finish, Busy;
    var r := Next(s, EnterRun);
    assert Quiet(r);
    if Finish(r, steps).Some? {
      QuietRunReturnsQuiet(r, steps);
      var q := Finish(r, steps).value;
      FinishReturns(r, steps);
      NobodyBusy(q.workers, 0);
    }
  }

  // ... and with spurious wake-ups

  /** The same if waits may also return although nobody notified. */
  ghost predicate MayReturnEarlySpuriously(s: Pool)
    requires s.main.Outside?
  {
    exists steps :: ReturnsEarly(s, steps)
  }

  /** No worker runs a task, and none can find one. */
  ghost predicate Idling(s: Pool) {
    && !SomeExecuting(s.workers)
    && (s.work == [] || s.workers == [])
    && (s.main.Outside? || (s.main.InTask? && !s.main.useThreads))
  }

  lemma {:induction false} StepStaysIdling(s: Pool, step: Step)
    requires Idling(s) && s.main.InTask? && Enabled(s, step)
    ensures Idling(Next(s, step))
  {
    var r := Next(s, step);
    forall i | 0 <= i < |r.workers| ensures !r.workers[i].Executing? {
      assert !s.workers[i].Executing?;
    }
  }

  lemma {:induction false} IdlingRunReturnsIdling(s: Pool, steps: seq<Step>)
    requires Idling(s) && Finish(s, steps).Some?
    ensures Idling(Finish(s, steps).value)
    decreases |steps|
  {
    hide Next;
    if InRun(s) {
      StepStaysIdling(s, steps[0]);
      IdlingRunReturnsIdling(Next(s, steps[0]), steps[1..]);
    }
  }

  lemma {:induction false} NeverEarlyWhenIdling(s: Pool, steps: seq<Step>)
    requires s.main.Outside? && !UsesThreads(s)
    requires !SomeExecuting(s.workers) && (|s.work| <= 1 || s.workers == [])
    ensures !ReturnsEarly(s, steps)
  {
    hide Finish, Busy;
    var r := Next(s, EnterRun);
    assert Idling(r);
    if Finish(r, steps).Some? {
      IdlingRunReturnsIdling(r, steps);
      FinishReturns(r, steps);
      NobodyBusy(Finish(r, steps).value.workers, 0);
    }
  }

  /** What brings a worker that is not running a task to take one. */
  function ToTask(w: Worker, i: nat): seq<Step> {
    match w
    case Starting => [WorkerStart(i), WorkerSpurious(i), WorkerWake(i)]
    case Waiting => [WorkerSpurious(i), WorkerWake(i)]
    case _ => [WorkerWake(i)]
  }

  lemma {:induction false} FinishOneMore(s: Pool, step: Step, steps: seq<Step>)
    requires InRun(s) && Enabled(s, step)
    ensures Finish(s, [step] + steps) == Finish(Next(s, step), steps)
  {
    hide Next;
    assert ([step] + steps)[1..] == steps;
  }

  /** The main thread runs a task inside run and another one is queued: the worker may take it, and the
      main thread may return while the worker is still at it. */
  lemma {:induction false} WorkerTakesOne(s: Pool, i: nat)
    requires s.main.InTask? && !s.main.useThreads && !s.shutdown && s.work != []
    requires i < |s.workers| && (s.workers[i].Starting? || s.workers[i].Waiting? || s.workers[i].Woken?)
    ensures exists steps :: Finish(s, steps).Some? && Running(Finish(s, steps).value) > 0
    decreases |ToTask(s.workers[i], i)|
  {
    hide Finish, Busy;
    var step := ToTask(s.workers[i], i)[0];
    var r := Next(s, step);
    if s.workers[i].Woken? {
      MainDrains(r);
      var steps := MainFinishes(|r.work| + 1);
      FinishOneMore(s, step, steps);
      BusyWhenExecuting(r.workers, i);
      assert Finish(s, [step] + steps).Some? && Running(Finish(s, [step] + steps).value) > 0;
    } else {
      WorkerTakesOne(r, i);
      var steps :| Finish(r, steps).Some? && Running(Finish(r, steps).value) > 0;
      FinishOneMore(s, step, steps);
      assert Finish(s, [step] + steps).Some? && Running(Finish(s, [step] + steps).value) > 0;
    }
  }

  lemma {:induction false} BusyWhenExecuting(workers: seq<Worker>, i: nat)
    requires i < |workers| && workers[i].Executing?
    ensures Busy(workers) > 0
  {
    hide Busy;
    BusyPositive(workers);
  }

  /** With spurious wake-ups too, a run that does not use the threads can return before everything is
      done in exactly two cases: when it is called while a worker is still running a task, and when it
      is called with two tasks or more and there is a worker at all. */
  lemma {:induction false} SpuriousEarlyReturnExactly(n: nat, s: Pool)
    requires Reachable(n, s) && s.main.Outside? && !UsesThreads(s)
    ensures MayReturnEarlySpuriously(s) <==> SomeExecuting(s.workers) || (|s.work| >= 2 && s.workers != [])
  {
    hide Reachable, Accounts, SomeExecuting, CallRun, Running;
    ReachableInv(n, s);
    if SomeExecuting(s.workers) {
      EarlyWhenExecuting(s);
    } else if |s.work| >= 2 && s.workers != [] {
      EarlyWithOneWorker(s);
    } else if MayReturnEarlySpuriously(s) {
      var steps :| ReturnsEarly(s, steps);
      NeverEarlyWhenIdling(s, steps);
    }
  }

  lemma {:induction false} EarlyWithOneWorker(s: Pool)
    requires Alert(s) && s.main.Outside? && !UsesThreads(s) && !SomeExecuting(s.workers)
    requires |s.work| >= 2 && s.workers != []
    ensures MayReturnEarlySpuriously(s)
  {
    hide Finish, Running;
    assert !s.workers[0].Executing? && !s.workers[0].Stopped?;
    var r := Next(s, EnterRun);
    WorkerTakesOne(r, 0);
    var steps :| Finish(r, steps).Some? && Running(Finish(r, steps).value) > 0;
    assert ReturnsEarly(s, steps);
  }

  lemma {:induction false} FinishReturns(s: Pool, steps: seq<Step>)
    requires Finish(s, steps).Some?
    ensures !InRun(Finish(s, steps).value)
    decreases |steps|
  {
    hide Next;
    if InRun(s) {
      FinishReturns(Next(s, steps[0]), steps[1..]);
    }
  }

  lemma {:induction false} ExecuteSnoc(s: Pool, steps: seq<Step>, step: Step)
    requires Execute(s, steps).Some? && Enabled(Execute(s, steps).value, step)
    ensures Execute(s, steps + [step]) == Some(Next(Execute(s, steps).value, step))
    decreases |steps|
  {
    hide Next;
    if steps == [] {
      var r := Next(s, step);
      assert ([] + [step])[1..] == [];
      assert Execute(r, []) == Some(r);
    } else {
      ExecuteSnoc(Next(s, steps[0]), steps[1..], step);
      assert (steps + [step])[1..] == steps[1..] + [step];
    }
  }

  lemma {:induction false} ReachableNext(n: nat, s: Pool, step: Step, r: Pool)
    requires Reachable(n, s) && Enabled(s, step) && r == Next(s, step)
    ensures Reachable(n, r)
  {
    hide Execute, Next;
    var steps :| Execute(Initial(n), steps) == Some(s);
    ExecuteSnoc(Initial(n), steps, step);
  }

  lemma {:induction false} ReachableInitial(n: nat)
    ensures Reachable(n, Initial(n))
  {
    assert Execute(Initial(n), []) == Some(Initial(n));
  }

  lemma {:induction false} TwoSleepers()
    ensures Reachable(2, Pool([0, 1], 0, false, [Waiting, Waiting], Outside, [0, 1], [], []))
  {
    hide Reachable;
    ReachableInitial(2);
    assert Initial(2) == Pool([], 0, false, [Starting, Starting], Outside, [], [], []);
    var s1 := Pool([], 0, false, [Waiting, Starting], Outside, [], [], []);
    ReachableNext(2, Initial(2), WorkerStart(0), s1);
    var s2 := Pool([], 0, false, [Waiting, Waiting], Outside, [], [], []);
    ReachableNext(2, s1, WorkerStart(1), s2);
    var s3 := Pool([0], 0, false, [Waiting, Waiting], Outside, [0], [], []);
    ReachableNext(2, s2, Push(0), s3);
    ReachableNext(2, s3, Push(1), Pool([0, 1], 0, false, [Waiting, Waiting], Outside, [0, 1], [], []));
  }

  lemma {:induction false} TwoWoken()
    ensures Reachable(2, Pool([], 0, false, [Woken, Woken], Outside, [0, 1], [0, 1], [0, 1]))
  {
    hide Reachable;
    TwoSleepers();
    var s4 := Pool([0, 1], 0, false, [Waiting, Waiting], Outside, [0, 1], [], []);
    assert NotifyAll(s4.workers) == [Woken, Woken];
    var s5 := Pool([1], 1, false, [Woken, Woken], InTask(0, true), [0, 1], [0], []);
    ReachableNext(2, s4, EnterRun, s5);
    var s6 := Pool([], 1, false, [Woken, Woken], InTask(1, true), [0, 1], [0, 1], [0]);
    ReachableNext(2, s5, MainFinish, s6);
    ReachableNext(2, s6, MainFinish, Pool([], 0, false, [Woken, Woken], Outside, [0, 1], [0, 1], [0, 1]));
  }

  /** It happens: two workers are woken by a run in which the main thread does all the work; one of
      them takes a task that was pushed later, and the next run returns while that task is running. */
  lemma {:induction false} LateWorker()
    ensures exists s :: Reachable(2, s) && s.main.Outside? && !UsesThreads(s)
              && SomeExecuting(s.workers) && MayReturnEarly(s)
  {
    hide Reachable, MayReturnEarly;
    TwoWoken();
    var s7 := Pool([], 0, false, [Woken, Woken], Outside, [0, 1], [0, 1], [0, 1]);
    var s8 := Pool([2], 0, false, [Woken, Woken], Outside, [0, 1, 2], [0, 1], [0, 1]);
    ReachableNext(2, s7, Push(2), s8);
    var s9 := Pool([], 1, false, [Executing(2), Woken], Outside, [0, 1, 2], [0, 1, 2], [0, 1]);
    ReachableNext(2, s8, WorkerWake(0), s9);
    assert s9.workers[0].Executing?;
    EarlyWhenExecuting(s9);
  }

  /** It happens with spurious wake-ups only: a pool of one worker, and two tasks. */
  lemma {:induction false} OneWorker()
    ensures exists s :: Reachable(1, s) && s.main.Outside? && !UsesThreads(s)
              && MayReturnEarlySpuriously(s) && !MayReturnEarly(s)
  {
    hide Reachable, MayReturnEarly, MayReturnEarlySpuriously, SomeExecuting, SomeWoken;
    ReachableInitial(1);
    assert Initial(1) == Pool([], 0, false, [Starting], Outside, [], [], []);
    var s1 := Pool([], 0, false, [Waiting], Outside, [], [], []);
    ReachableNext(1, Initial(1), WorkerStart(0), s1);
    var s2 := Pool([0], 0, false, [Waiting], Outside, [0], [], []);
    ReachableNext(1, s1, Push(0), s2);
    var s3 := Pool([0, 1], 0, false, [Waiting], Outside, [0, 1], [], []);
    ReachableNext(1, s2, Push(1), s3);
    OnlyWaiting(s3.workers);
    EarlyReturnExactly(1, s3);
    SpuriousEarlyReturnExactly(1, s3);
  }

  lemma {:induction false} OnlyWaiting(workers: seq<Worker>)
    requires workers == [Waiting]
    ensures !SomeExecuting(workers) && !SomeWoken(workers)
  {
  }

  // ----- progress ---------------------------------------------------------------------------

  ghost function Weight(w: Worker): nat {
    match w
    case Starting => 1
    case Woken => 1
    case Executing(_) => 2
    case _ => 0
  }

  ghost function Weights(workers: seq<Worker>): nat {
    if workers == [] then 0 else Weight(workers[0]) + Weights(workers[1..])
  }

  /** How many steps other than spurious wake-ups a run can still take. */
  ghost function Bound(s: Pool): nat {
    3 * |s.work| + Weights(s.workers) +
    match s.main
    case InTask(_, _) => 2
    case Blocked(notified) => One(notified)
    case _ => 0
  }

  lemma {:induction false} WeightsUpdate(workers: seq<Worker>, i: nat, w: Worker)
    requires i < |workers|
    ensures Weights(workers[i := w]) + Weight(workers[i]) == Weights(workers) + Weight(w)
    decreases |workers|
  {
    if i == 0 {
      assert workers[i := w][1..] == workers[1..];
    } else {
      WeightsUpdate(workers[1..], i - 1, w);
      assert workers[i := w][1..] == workers[1..][i - 1 := w];
    }
  }

  /** Inside run every step but a spurious wake-up uses up some of the bound. */
  lemma {:induction false} StepUsesBound(s: Pool, step: Step)
    requires Inv(s) && InRun(s) && Enabled(s, step) && InRun(Next(s, step))
    ensures if IsSpurious(step) then Bound(Next(s, step)) <= Bound(s) + 1 else Bound(Next(s, step)) < Bound(s)
  {
    hide Weights, Accounts;
    var r := Next(s, step);
    match step
    case WorkerStart(i) => WeightsUpdate(s.workers, i, r.workers[i]);
    case WorkerWake(i) => WeightsUpdate(s.workers, i, r.workers[i]);
    case WorkerFinish(i) => WeightsUpdate(s.workers, i, r.workers[i]);
    case WorkerSpurious(i) => WeightsUpdate(s.workers, i, r.workers[i]);
    case _ =>
  }

  ghost predicate StaysInRun(s: Pool, steps: seq<Step>)
    decreases |steps|
  {
    InRun(s) && (steps == [] || (Enabled(s, steps[0]) && StaysInRun(Next(s, steps[0]), steps[1..])))
  }

  ghost function SpuriousIn(steps: seq<Step>): nat {
    if steps == [] then 0 else One(IsSpurious(steps[0])) + SpuriousIn(steps[1..])
  }

  lemma {:induction false} StepsUseBound(s: Pool, steps: seq<Step>)
    requires Inv(s) && StaysInRun(s, steps)
    ensures |steps| <= Bound(s) + 2 * SpuriousIn(steps)
    decreases |steps|
  {
    hide Inv, Next, Bound;
    if steps == [] {
    } else {
      StepKeepsInv(s, steps[0]);
      StepsUseBound(Next(s, steps[0]), steps[1..]);
      StepUsesBound(s, steps[0]);
    }
  }

  ghost predicate CanMove(s: Pool) {
    exists step :: Enabled(s, step) && !IsSpurious(step)
  }

  /** run never deadlocks and never goes on for ever: while it has not returned some thread can take a
      step, and apart from spurious wake-ups only a bounded number of steps can be taken. */
  lemma {:induction false} RunReturns(n: nat, s: Pool, steps: seq<Step>)
    requires Reachable(n, s) && InRun(s)
    ensures CanMove(s)
    ensures StaysInRun(s, steps) ==> |steps| <= Bound(s) + 2 * SpuriousIn(steps)
  {
    hide Reachable, Bound, StaysInRun, Busy, Accounts;
    ReachableInv(n, s);
    if StaysInRun(s, steps) {
      StepsUseBound(s, steps);
    }
    match s.main
    case InTask(_, _) => assert Enabled(s, MainFinish);
    case Blocked(notified) =>
      if notified {
        assert Enabled(s, MainWake);
      } else {
        NoLostWakeUp(n, s);
        var i :| 0 <= i < |s.workers| && s.workers[i].Executing?;
        assert Enabled(s, WorkerFinish(i));
      }
  }

  /** How many steps the destructor can still take, spurious wake-ups included. */
  ghost function DestructorWeight(w: Worker): nat {
    match w
    case Stopped => 0
    case Waiting => 2
    case _ => 1
  }

  ghost function DestructorWeights(workers: seq<Worker>): nat {
    if workers == [] then 0 else DestructorWeight(workers[0]) + DestructorWeights(workers[1..])
  }

  ghost function DestructorBound(s: Pool): nat {
    DestructorWeights(s.workers) +
    match s.main
    case ShuttingDown => 2
    case Joining => 1
    case _ => 0
  }

  lemma {:induction false} DestructorUpdate(workers: seq<Worker>, i: nat, w: Worker)
    requires i < |workers|
    ensures DestructorWeights(workers[i := w]) + DestructorWeight(workers[i]) ==
            DestructorWeights(workers) + DestructorWeight(w)
    decreases |workers|
  {
    if i == 0 {
      assert workers[i := w][1..] == workers[1..];
    } else {
      DestructorUpdate(workers[1..], i - 1, w);
      assert workers[i := w][1..] == workers[1..][i - 1 := w];
    }
  }

  lemma {:induction false} DestructorNotified(workers: seq<Worker>)
    ensures DestructorWeights(NotifyAll(workers)) <= DestructorWeights(workers) <= 2 * |workers|
    decreases |workers|
  {
    if workers == [] {
      assert NotifyAll(workers) == [];
    } else {
      DestructorNotified(workers[1..]);
      assert NotifyAll(workers)[1..] == NotifyAll(workers[1..]);
    }
  }

  /** Once the destructor runs, every step of any thread uses up some of the bound. */
  lemma {:induction false} DestructorStep(s: Pool, step: Step)
    requires Inv(s) && InDestructor(s) && Enabled(s, step)
    ensures InDestructor(Next(s, step)) && DestructorBound(Next(s, step)) < DestructorBound(s)
  {
    hide DestructorWeights, Accounts;
    var r := Next(s, step);
    match step
    case WorkerStart(i) => DestructorUpdate(s.workers, i, r.workers[i]);
    case WorkerWake(i) => DestructorUpdate(s.workers, i, r.workers[i]);
    case WorkerFinish(i) => DestructorUpdate(s.workers, i, r.workers[i]);
    case WorkerSpurious(i) => DestructorUpdate(s.workers, i, r.workers[i]);
    case NotifyShutdown => DestructorNotified(s.workers);
    case _ =>
  }

  lemma {:induction false} DestructorSteps(s: Pool, steps: seq<Step>)
    requires Inv(s) && InDestructor(s) && Execute(s, steps).Some?
    ensures |steps| <= DestructorBound(s)
    decreases |steps|
  {
    hide Inv, Next, DestructorBound, InDestructor;
    if steps != [] {
      StepKeepsInv(s, steps[0]);
      DestructorStep(s, steps[0]);
      DestructorSteps(Next(s, steps[0]), steps[1..]);
    }
  }

  /** The destructor never deadlocks and ends: until all workers are joined some thread can take a step,
      and no more than two steps for each worker and two of the main thread can be taken, spurious
      wake-ups included. */
  lemma {:induction false} DestructorEnds(n: nat, s: Pool, steps: seq<Step>)
    requires Reachable(n, s) && InDestructor(s)
    ensures !s.main.Gone? ==> CanMove(s)
    ensures Execute(s, steps).Some? ==> |steps| <= 2 * |s.workers| + 2
  {
    hide Reachable, Execute, DestructorWeights, Accounts, Alert;
    ReachableInv(n, s);
    if !s.main.Gone? {
      DestructorMoves(s);
    }
    if Execute(s, steps).Some? {
      DestructorSteps(s, steps);
      DestructorNotified(s.workers);
    }
  }

  lemma {:induction false} DestructorMoves(s: Pool)
    requires Alert(s) && InDestructor(s) && !s.main.Gone?
    ensures CanMove(s)
  {
    if s.main.ShuttingDown? {
      assert Enabled(s, NotifyShutdown);
    } else if i :| 0 <= i < |s.workers| && !s.workers[i].Stopped? {
      match s.workers[i]
      case Starting => assert Enabled(s, WorkerStart(i));
      case Woken => assert Enabled(s, WorkerWake(i));
      case Executing(_) => assert Enabled(s, WorkerFinish(i));
    } else {
      assert Enabled(s, Join);
    }
  }
}
