/**
 The thread pool of the renderer (common/RenderTiles.hpp, class ThreadPool) as a state machine.
 A step is what one thread does from taking the mutex to giving it back: either by unlocking it to
 run a task, or by waiting on a condition variable.  Steps of different threads interleave freely.

 The main thread pushes tasks, calls run, and destroys the pool at the end.  The assertions of the
 source are not guards: the steps are there whether or not they hold.
*/
module ThreadPools {

  import opened Wrappers

  type Task = nat

  /** A worker has not reached the mutex yet, waits on _cond, has been woken but does not have the
      mutex yet, runs a task without the mutex, or has left its loop. */
  datatype Worker = Starting | Waiting | Woken | Executing(task: Task) | Stopped

  /** The main thread is outside the pool, runs a task inside run, waits on _complete inside run, or
      is in the destructor: about to notify, joining, done. */
  datatype Main =
    | Outside
    | InTask(task: Task, useThreads: bool)
    | Blocked(notified: bool)
    | ShuttingDown
    | Joining
    | Gone

  datatype Pool = Pool(
    work: seq<Task>, working: int, shutdown: bool, workers: seq<Worker>, main: Main,
    pushed: seq<Task>, started: seq<Task>, done: seq<Task>)

  datatype Step =
    | Push(task: Task)
    | EnterRun
    | MainFinish
    | MainWake
    | MainSpurious
    | SetShutdown
    | NotifyShutdown
    | Join
    | WorkerStart(i: nat)
    | WorkerWake(i: nat)
    | WorkerFinish(i: nat)
    | WorkerSpurious(i: nat)

  /** A wait that returns although nobody notified. */
  predicate IsSpurious(step: Step) {
    step.MainSpurious? || step.WorkerSpurious?
  }

  function Initial(n: nat): Pool {
    Pool([], 0, false, seq(n, i => Starting), Outside, [], [], [])
  }

  // ----- the steps --------------------------------------------------------------------------

  predicate Enabled(s: Pool, step: Step) {
    match step
    case Push(_) => s.main.Outside?
    case EnterRun => s.main.Outside?
    case MainFinish => s.main.InTask?
    case MainWake => s.main == Blocked(true)
    case MainSpurious => s.main == Blocked(false)
    case SetShutdown => s.main.Outside?
    case NotifyShutdown => s.main.ShuttingDown?
    case Join => s.main.Joining? && forall i :: 0 <= i < |s.workers| ==> s.workers[i].Stopped?
    case WorkerStart(i) => i < |s.workers| && s.workers[i].Starting?
    case WorkerWake(i) => i < |s.workers| && s.workers[i].Woken?
    case WorkerFinish(i) => i < |s.workers| && s.workers[i].Executing?
    case WorkerSpurious(i) => i < |s.workers| && s.workers[i].Waiting?
  }

  /** _cond.notify_all */
  function NotifyAll(workers: seq<Worker>): (r: seq<Worker>) {
    seq(|workers|, i requires 0 <= i < |workers| => if workers[i].Waiting? then Woken else workers[i])
  }

  predicate UsesThreads(s: Pool) {
    |s.workers| > 1 && |s.work| > 1
  }

  /** runOne up to the call of the task. */
  function TakeTask(s: Pool): Pool
    requires s.work != []
  {
    s.(work := s.work[1..], working := s.working + 1, started := s.started + [s.work[0]])
  }

  /** run, from the head of its loop to the next point where the mutex is given back. */
  function MainLoop(s: Pool, useThreads: bool): Pool {
    if s.work != [] then TakeTask(s).(main := InTask(s.work[0], useThreads))
    else if useThreads && s.working > 0 then s.(main := Blocked(false))
    else s.(main := Outside)
  }

  /** runOne after the task: the last one to finish notifies _complete. */
  function FinishTask(s: Pool, task: Task): Pool {
    var r := s.(working := s.working - 1, done := s.done + [task]);
    if r.work == [] && r.working == 0 && r.main.Blocked? then r.(main := Blocked(true)) else r
  }

  /** The wait of run with its predicate. */
  function CheckComplete(s: Pool): Pool {
    if s.working == 0 && s.work == [] then s.(main := Outside) else s.(main := Blocked(false))
  }

  /** The head of the worker's loop. */
  function WaitAgain(s: Pool): Worker {
    if s.shutdown then Stopped else Waiting
  }

  function Next(s: Pool, step: Step): Pool
    requires Enabled(s, step)
  {
    match step
    case Push(task) => s.(work := s.work + [task], pushed := s.pushed + [task])
    case EnterRun =>
      MainLoop(if UsesThreads(s) then s.(workers := NotifyAll(s.workers)) else s, UsesThreads(s))
    case MainFinish => MainLoop(FinishTask(s, s.main.task), s.main.useThreads)
    case MainWake => CheckComplete(s)
    case MainSpurious => CheckComplete(s)
    case SetShutdown => s.(shutdown := true, main := ShuttingDown)
    case NotifyShutdown => s.(workers := NotifyAll(s.workers), main := Joining)
    case Join => s.(main := Gone)
    case WorkerStart(i) => s.(workers := s.workers[i := WaitAgain(s)])
    case WorkerWake(i) =>
      if !s.shutdown && s.work != [] then TakeTask(s).(workers := s.workers[i := Executing(s.work[0])])
      else s.(workers := s.workers[i := WaitAgain(s)])
    case WorkerFinish(i) => FinishTask(s, s.workers[i].task).(workers := s.workers[i := WaitAgain(s)])
    case WorkerSpurious(i) => s.(workers := s.workers[i := Woken])
  }

  /** The steps one after the other; None if one of them is not possible. */
  function Execute(s: Pool, steps: seq<Step>): Option<Pool>
    decreases |steps|
  {
    if steps == [] then Some(s)
    else if Enabled(s, steps[0]) then Execute(Next(s, steps[0]), steps[1..])
    else None
  }

  // ----- what every step keeps --------------------------------------------------------------

  function One(b: bool): nat {
    if b then 1 else 0
  }

  /** How often a task occurs in a log. */
  ghost function Occurs(log: seq<Task>, task: Task): nat {
    if log == [] then 0
    else Occurs(log[..|log| - 1], task) + One(log[|log| - 1] == task)
  }

  /** How many workers are running the task, and how many are running any. */
  ghost function BusyWith(workers: seq<Worker>, task: Task): nat {
    if workers == [] then 0
    else One(workers[0] == Executing(task)) + BusyWith(workers[1..], task)
  }

  ghost function Busy(workers: seq<Worker>): nat {
    if workers == [] then 0
    else One(workers[0].Executing?) + Busy(workers[1..])
  }

  /** How many threads are running the task, and how many are running any. */
  ghost function InFlight(s: Pool, task: Task): nat {
    BusyWith(s.workers, task) + One(s.main.InTask? && s.main.task == task)
  }

  ghost function Running(s: Pool): nat {
    Busy(s.workers) + One(s.main.InTask?)
  }

  /** Tasks start in the order in which they were pushed, each is then in flight or done, and
      _working counts those in flight. */
  ghost predicate Accounts(s: Pool) {
    && s.pushed == s.started + s.work
    && (forall t :: Occurs(s.started, t) == Occurs(s.done, t) + InFlight(s, t))
    && s.working == Running(s)
  }

  ghost predicate InDestructor(s: Pool) {
    s.main.ShuttingDown? || s.main.Joining? || s.main.Gone?
  }

  /** The main thread waits only while there is something to wait for, or when it has been notified
      that there is not; a worker stops only at shutdown, and none sleeps through it. */
  ghost predicate Alert(s: Pool) {
    && (s.main == Blocked(false) ==> s.work == [] && s.working > 0)
    && (s.main == Blocked(true) ==> s.work == [] && s.working == 0)
    && (s.shutdown <==> InDestructor(s))
    && (forall i :: 0 <= i < |s.workers| && s.workers[i].Stopped? ==> s.shutdown)
    && (s.main.Joining? ==> forall i :: 0 <= i < |s.workers| ==> !s.workers[i].Waiting?)
    && (s.main.Gone? ==> forall i :: 0 <= i < |s.workers| ==> s.workers[i].Stopped?)
  }

  ghost predicate Inv(s: Pool) {
    Accounts(s) && Alert(s)
  }

  lemma {:induction false} OccursSnoc(log: seq<Task>, x: Task, task: Task)
    ensures Occurs(log + [x], task) == Occurs(log, task) + One(x == task)
  {
    assert (log + [x])[..|log|] == log;
  }

  lemma {:induction false} BusyUpdate(workers: seq<Worker>, i: nat, w: Worker)
    requires i < |workers|
    ensures Busy(workers[i := w]) + One(workers[i].Executing?) == Busy(workers) + One(w.Executing?)
    decreases |workers|
  {
    if i == 0 {
      assert workers[i := w][1..] == workers[1..];
    } else {
      BusyUpdate(workers[1..], i - 1, w);
      assert workers[i := w][1..] == workers[1..][i - 1 := w];
    }
  }

  lemma {:induction false} BusyWithUpdate(workers: seq<Worker>, i: nat, w: Worker, t: Task)
    requires i < |workers|
    ensures BusyWith(workers[i := w], t) + One(workers[i] == Executing(t)) ==
            BusyWith(workers, t) + One(w == Executing(t))
    decreases |workers|
  {
    if i == 0 {
      assert workers[i := w][1..] == workers[1..];
    } else {
      BusyWithUpdate(workers[1..], i - 1, w, t);
      assert workers[i := w][1..] == workers[1..][i - 1 := w];
    }
  }

  lemma {:induction false} BusyNotified(workers: seq<Worker>, t: Task)
    ensures Busy(NotifyAll(workers)) == Busy(workers)
    ensures BusyWith(NotifyAll(workers), t) == BusyWith(workers, t)
    decreases |workers|
  {
    if workers == [] {
      assert NotifyAll(workers) == [];
    } else {
      BusyNotified(workers[1..], t);
      assert NotifyAll(workers)[1..] == NotifyAll(workers[1..]);
    }
  }

  lemma {:induction false} NobodyBusy(workers: seq<Worker>, t: Task)
    requires forall i :: 0 <= i < |workers| ==> !workers[i].Executing?
    ensures Busy(workers) == 0 && BusyWith(workers, t) == 0
    decreases |workers|
  {
    if workers == [] {
    } else {
      NobodyBusy(workers[1..], t);
    }
  }

  lemma {:induction false} SomebodyBusy(workers: seq<Worker>)
    requires Busy(workers) > 0
    ensures exists i :: 0 <= i < |workers| && workers[i].Executing?
  {
    if forall i :: 0 <= i < |workers| ==> !workers[i].Executing? {
      NobodyBusy(workers, 0);
    }
  }

  /** The main thread holds the mutex and no task, and all tasks are accounted for. */
  lemma {:induction false} MainLoopAccounts(s: Pool, useThreads: bool)
    requires Accounts(s.(main := Outside))
    ensures Accounts(MainLoop(s, useThreads))
  {
    hide Busy, BusyWith, Occurs;
    var was, now := s.(main := Outside), MainLoop(s, useThreads);
    forall t ensures Occurs(now.started, t) == Occurs(now.done, t) + InFlight(now, t) {
      assert Occurs(was.started, t) == Occurs(was.done, t) + InFlight(was, t);
      if s.work != [] {
        OccursSnoc(s.started, s.work[0], t);
      }
    }
  }

  lemma {:induction false} EnterRunAccounts(s: Pool)
    requires Accounts(s) && Enabled(s, EnterRun)
    ensures Accounts(Next(s, EnterRun))
  {
    hide Busy, BusyWith, Occurs, MainLoop, NotifyAll, UsesThreads;
    var r := if UsesThreads(s) then s.(workers := NotifyAll(s.workers)) else s;
    forall t ensures Occurs(r.started, t) == Occurs(r.done, t) + InFlight(r, t) {
      BusyNotified(s.workers, t);
      assert Occurs(s.started, t) == Occurs(s.done, t) + InFlight(s, t);
    }
    BusyNotified(s.workers, 0);
    MainLoopAccounts(r, UsesThreads(s));
    assert Next(s, EnterRun) == MainLoop(r, UsesThreads(s));
  }

  lemma {:induction false} MainFinishAccounts(s: Pool)
    requires Accounts(s) && Enabled(s, MainFinish)
    ensures Accounts(Next(s, MainFinish))
  {
    hide Busy, BusyWith, Occurs, MainLoop;
    var r := FinishTask(s, s.main.task);
    var q := r.(main := Outside);
    forall t ensures Occurs(q.started, t) == Occurs(q.done, t) + InFlight(q, t) {
      OccursSnoc(s.done, s.main.task, t);
      assert Occurs(s.started, t) == Occurs(s.done, t) + InFlight(s, t);
    }
    MainLoopAccounts(r, s.main.useThreads);
  }

  lemma {:induction false} WorkerWakeAccounts(s: Pool, i: nat)
    requires Accounts(s) && Enabled(s, WorkerWake(i)) && !s.shutdown && s.work != []
    ensures Accounts(Next(s, WorkerWake(i)))
  {
    hide Busy, BusyWith, Occurs;
    var r := Next(s, WorkerWake(i));
    BusyUpdate(s.workers, i, r.workers[i]);
    forall t ensures Occurs(r.started, t) == Occurs(r.done, t) + InFlight(r, t) {
      BusyWithUpdate(s.workers, i, r.workers[i], t);
      OccursSnoc(s.started, s.work[0], t);
      assert Occurs(s.started, t) == Occurs(s.done, t) + InFlight(s, t);
    }
  }

  lemma {:induction false} WorkerFinishAccounts(s: Pool, i: nat)
    requires Accounts(s) && Enabled(s, WorkerFinish(i))
    ensures Accounts(Next(s, WorkerFinish(i))) && s.working > 0
  {
    hide Busy, BusyWith, Occurs;
    var r := Next(s, WorkerFinish(i));
    BusyUpdate(s.workers, i, r.workers[i]);
    forall t ensures Occurs(r.started, t) == Occurs(r.done, t) + InFlight(r, t) {
      BusyWithUpdate(s.workers, i, r.workers[i], t);
      OccursSnoc(s.done, s.workers[i].task, t);
      assert Occurs(s.started, t) == Occurs(s.done, t) + InFlight(s, t);
    }
  }

  lemma {:induction false} WorkerMovesAccounts(s: Pool, i: nat, w: Worker)
    requires Accounts(s) && i < |s.workers| && !s.workers[i].Executing? && !w.Executing?
    ensures Accounts(s.(workers := s.workers[i := w]))
  {
    hide Busy, BusyWith, Occurs;
    var r := s.(workers := s.workers[i := w]);
    BusyUpdate(s.workers, i, w);
    forall t ensures Occurs(r.started, t) == Occurs(r.done, t) + InFlight(r, t) {
      BusyWithUpdate(s.workers, i, w, t);
      assert Occurs(s.started, t) == Occurs(s.done, t) + InFlight(s, t);
    }
  }

  lemma {:induction false} MainMovesAccounts(s: Pool, r: Pool)
    requires Accounts(s) && !s.main.InTask? && !r.main.InTask?
    requires r.pushed == r.started + r.work && r.started == s.started && r.done == s.done && r.working == s.working
    requires r.workers == s.workers || r.workers == NotifyAll(s.workers)
    ensures Accounts(r)
  {
    hide Busy, BusyWith, Occurs, NotifyAll;
    BusyNotified(s.workers, 0);
    forall t ensures Occurs(r.started, t) == Occurs(r.done, t) + InFlight(r, t) {
      BusyNotified(s.workers, t);
      assert Occurs(s.started, t) == Occurs(s.done, t) + InFlight(s, t);
    }
  }

  lemma {:induction false} StepAccounts(s: Pool, step: Step)
    requires Accounts(s) && Enabled(s, step)
    ensures Accounts(Next(s, step))
  {
    hide Accounts, MainLoop;
    match step
    case EnterRun => EnterRunAccounts(s);
    case MainFinish => MainFinishAccounts(s);
    case WorkerStart(i) => WorkerMovesAccounts(s, i, WaitAgain(s));
    case WorkerWake(i) =>
      if !s.shutdown && s.work != [] {
        WorkerWakeAccounts(s, i);
      } else {
        WorkerMovesAccounts(s, i, WaitAgain(s));
      }
    case WorkerFinish(i) => WorkerFinishAccounts(s, i);
    case WorkerSpurious(i) => WorkerMovesAccounts(s, i, Woken);
    case _ =>
      PushedInOrder(s);
      MainMovesAccounts(s, Next(s, step));
  }

  lemma {:induction false} PushedInOrder(s: Pool)
    requires Accounts(s)
    ensures s.pushed == s.started + s.work
  {
  }

  lemma {:induction false} StepStaysAlert(s: Pool, step: Step)
    requires Inv(s) && Enabled(s, step)
    ensures Alert(Next(s, step))
  {
    hide Accounts;
    match step
    case WorkerFinish(i) => WorkerFinishAccounts(s, i);
    case MainFinish => assert !s.shutdown;
    case EnterRun => assert !s.shutdown;
    case _ =>
  }

  lemma {:induction false} StepKeepsInv(s: Pool, step: Step)
    requires Inv(s) && Enabled(s, step)
    ensures Inv(Next(s, step))
  {
    hide Accounts, Alert, Next;
    StepAccounts(s, step);
    StepStaysAlert(s, step);
  }

  lemma {:induction false} ExecuteKeepsInv(s: Pool, steps: seq<Step>)
    requires Inv(s) && Execute(s, steps).Some?
    ensures Inv(Execute(s, steps).value)
    decreases |steps|
  {
    hide Inv, Next;
    if steps == [] {
    } else {
      StepKeepsInv(s, steps[0]);
      ExecuteKeepsInv(Next(s, steps[0]), steps[1..]);
    }
  }

  lemma {:induction false} InitialInv(n: nat)
    ensures Inv(Initial(n))
  {
    var s := Initial(n);
    forall t ensures Occurs(s.started, t) == Occurs(s.done, t) + InFlight(s, t) && Busy(s.workers) == 0 {
      NobodyBusy(s.workers, t);
    }
    assert Busy(s.workers) == 0 by {
      NobodyBusy(s.workers, 0);
    }
    assert Accounts(s);
  }

  /** What can be reached from a new pool with `n` worker threads. */
  ghost predicate Reachable(n: nat, s: Pool) {
    exists steps :: Execute(Initial(n), steps) == Some(s)
  }

  lemma {:induction false} ReachableInv(n: nat, s: Pool)
    requires Reachable(n, s)
    ensures Inv(s)
  {
    hide Inv, Execute;
    var steps :| Execute(Initial(n), steps) == Some(s);
    InitialInv(n);
    ExecuteKeepsInv(Initial(n), steps);
  }

  /** In every interleaving: tasks start in the order of the pushes, each once; what has started is
      in flight or done; and _working counts what is in flight. */
  lemma {:induction false} EachTaskRunsOnce(n: nat, s: Pool, t: Task)
    requires Reachable(n, s)
    ensures s.pushed == s.started + s.work
    ensures Occurs(s.started, t) == Occurs(s.done, t) + InFlight(s, t)
    ensures s.working == Running(s)
  {
    hide Reachable, Occurs, InFlight, Running;
    ReachableInv(n, s);
  }

  /** A main thread that waits on _complete without having been notified has a worker that is running
      a task; the last such worker to finish notifies it; and once notified it finds nothing left to
      wait for. */
  lemma {:induction false} NoLostWakeUp(n: nat, s: Pool)
    requires Reachable(n, s) && s.main.Blocked?
    ensures s.main == Blocked(false) ==>
              && s.work == []
              && exists i :: 0 <= i < |s.workers| && s.workers[i].Executing?
    ensures s.working == 1 ==>
              forall i :: 0 <= i < |s.workers| && s.workers[i].Executing? ==>
                Next(s, WorkerFinish(i)).main == Blocked(true)
    ensures s.main == Blocked(true) ==> Next(s, MainWake).main == Outside && s.work == [] && Running(s) == 0
  {
    hide Reachable, Busy, BusyWith, Occurs;
    ReachableInv(n, s);
    if s.main == Blocked(false) {
      SomebodyBusy(s.workers);
    }
  }
}
