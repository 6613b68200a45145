/**
 The thread pool as a state machine. One step is one critical section or one access to an atomic:
 submit reads stop_ outside the lock and enqueues under it, so those are two steps, and any number
 of other steps may come between. A task is named by its ticket: the number of tasks enqueued
 before it. Condition variables are modelled by their predicates.
 */
module ThreadPools {
  import opened Results

  datatype Worker =
    | Waiting              // in condition_.wait, or on its way there
    | Running(task: nat)   // holds a task that it has popped and not yet run
    | Finishing(task: nat) // has run the task, active_threads_ not yet lowered
    | Exited

  datatype Pool = Pool(
    tasks: seq<nat>,      // tasks_
    stop: bool,           // stop_
    active: int,          // active_threads_
    workers: seq<Worker>, // workers_
    checked: nat,         // submitters that saw stop_ false and have not enqueued yet
    stoppers: nat,        // callers of stop() that saw stop_ false and have not set it yet
    // what has happened
    issued: nat,          // tasks enqueued so far
    ran: seq<nat>,        // tasks run so far, in order
    cut: nat,             // issued when stop_ was first set
    inFlight: nat,        // checked when stop_ was first set
    lastExit: nat)        // issued when a worker last exited

  datatype Step =
    | SubmitCheck      // stop_ read false
    | SubmitReject     // stop_ read true: submit throws
    | Enqueue
    | Pop(worker: nat)
    | Run(worker: nat)
    | Finish(worker: nat)
    | Exit(worker: nat)
    | StopCheck        // stop() read stop_ false
    | StopSet
    | StopReturn       // every worker joined
    | WaitReturn       // waitForAllTasks saw its predicate true

  /** The constructor's thread count: what was asked for, else the cores, else one. */
  function Threads(asked: nat, cores: nat): (n: nat)
    ensures n >= 1
    ensures asked >= 1 ==> n == asked
    ensures asked == 0 && cores >= 1 ==> n == cores
    ensures asked == cores == 0 ==> n == 1
  {
    if asked != 0 then asked else if cores != 0 then cores else 1
  }

  function Init(n: nat): (s: Pool)
    ensures |s.workers| == n && forall w | w in s.workers :: w == Waiting
    ensures s.tasks == [] && s.ran == [] && !s.stop && s.active == 0
  {
    Pool([], false, 0, seq(n, _ => Waiting), 0, 0, 0, [], 0, 0, 0)
  }

  predicate AllExited(s: Pool) {
    forall w | 0 <= w < |s.workers| :: s.workers[w] == Exited
  }

  predicate Enabled(s: Pool, step: Step) {
    match step
    case SubmitCheck => !s.stop
    case SubmitReject => s.stop
    case Enqueue => s.checked > 0
    case Pop(w) => w < |s.workers| && s.workers[w] == Waiting && s.tasks != []
    case Run(w) => w < |s.workers| && s.workers[w].Running?
    case Finish(w) => w < |s.workers| && s.workers[w].Finishing?
    case Exit(w) => w < |s.workers| && s.workers[w] == Waiting && s.stop && s.tasks == []
    case StopCheck => !s.stop
    case StopSet => s.stoppers > 0
    case StopReturn => s.stop && AllExited(s)
    case WaitReturn => s.tasks == [] && s.active == 0
  }

  function Apply(s: Pool, step: Step): Pool
    requires Enabled(s, step)
  {
    match step
    case SubmitCheck => s.(checked := s.checked + 1)
    case SubmitReject => s
    case Enqueue =>
      s.(checked := s.checked - 1, tasks := s.tasks + [s.issued], issued := s.issued + 1)
    case Pop(w) =>
      s.(tasks := s.tasks[1..], active := s.active + 1,
         workers := s.workers[w := Running(s.tasks[0])])
    case Run(w) =>
      s.(ran := s.ran + [s.workers[w].task],
         workers := s.workers[w := Finishing(s.workers[w].task)])
    case Finish(w) => s.(active := s.active - 1, workers := s.workers[w := Waiting])
    case Exit(w) => s.(workers := s.workers[w := Exited], lastExit := s.issued)
    case StopCheck => s.(stoppers := s.stoppers + 1)
    case StopSet =>
      if s.stop then s.(stoppers := s.stoppers - 1)
      else s.(stoppers := s.stoppers - 1, stop := true, cut := s.issued, inFlight := s.checked)
    case StopReturn => s
    case WaitReturn => s
  }

  /** The state after a run of n workers, or None if some step of it was not enabled. */
  function Exec(n: nat, steps: seq<Step>): Option<Pool> {
    if steps == [] then Some(Init(n))
    else
      match Exec(n, steps[..|steps| - 1])
      case None => None
      case Some(s) =>
        var last := steps[|steps| - 1];
        if Enabled(s, last) then Some(Apply(s, last)) else None
  }

  // ---------------------------------------------------------------- the invariant

  function Popped(s: Pool): int {
    s.issued - |s.tasks|
  }

  predicate IsBusy(w: Worker) {
    w.Running? || w.Finishing?
  }

  function Busy(ws: seq<Worker>, k: nat): (c: nat)
    requires k <= |ws|
    ensures c <= k
  {
    if k == 0 then 0 else Busy(ws, k - 1) + (if IsBusy(ws[k - 1]) then 1 else 0)
  }

  ghost predicate Held(s: Pool, task: nat) {
    exists w :: 0 <= w < |s.workers| && s.workers[w] == Running(task)
  }

  /** The queue holds the last |tasks| tickets in order: tasks are popped first in, first out. */
  ghost predicate QueueInv(s: Pool) {
    && |s.tasks| <= s.issued
    && forall i | 0 <= i < |s.tasks| :: s.tasks[i] == Popped(s) + i
  }

  /** Popped tickets have run or are held, never both, never twice. */
  ghost predicate TaskInv(s: Pool) {
    && (forall i | 0 <= i < |s.ran| :: s.ran[i] < Popped(s))
    && (forall i, j | 0 <= i < j < |s.ran| :: s.ran[i] != s.ran[j])
    && (forall w | 0 <= w < |s.workers| && s.workers[w].Running? ::
          s.workers[w].task < Popped(s) && s.workers[w].task !in s.ran)
    && (forall v, w | 0 <= v < w < |s.workers| && s.workers[v].Running? && s.workers[w].Running? ::
          s.workers[v].task != s.workers[w].task)
    && (forall t: nat | t < Popped(s) :: t in s.ran || Held(s, t))
  }

  ghost predicate ActiveInv(s: Pool) {
    s.active == Busy(s.workers, |s.workers|)
  }

  /** What was enqueued since stop_ was set, and what may still be, had passed the check before. */
  ghost predicate CutInv(s: Pool) {
    s.stop ==> s.cut <= s.issued && s.issued - s.cut + s.checked == s.inFlight
  }

  ghost predicate SomeExited(s: Pool) {
    exists w :: 0 <= w < |s.workers| && s.workers[w] == Exited
  }

  /** A worker exits only after stop_ was set and when all that was enqueued has been popped. */
  ghost predicate ExitInv(s: Pool) {
    && |s.workers| > 0
    && (SomeExited(s) ==> s.stop && s.cut <= s.lastExit <= Popped(s))
    && (AllExited(s) ==> s.lastExit == Popped(s))
  }

  ghost predicate StopInv(s: Pool) {
    ActiveInv(s) && CutInv(s) && ExitInv(s)
  }

  ghost predicate Inv(s: Pool) {
    QueueInv(s) && TaskInv(s) && StopInv(s)
  }

  lemma {:induction false} BusyUpdate(ws: seq<Worker>, w: nat, v: Worker, k: nat)
    requires w < |ws| && k <= |ws|
    ensures Busy(ws[w := v], k) == Busy(ws, k)
      + (if w < k then (if IsBusy(v) then 1 else 0) - (if IsBusy(ws[w]) then 1 else 0) else 0)
  {
    if k > 0 {
      BusyUpdate(ws, w, v, k - 1);
    }
  }

  lemma {:induction false} BusyNone(ws: seq<Worker>, w: nat, k: nat)
    requires w < k <= |ws| && IsBusy(ws[w])
    ensures Busy(ws, k) > 0
  {
    if w < k - 1 {
      BusyNone(ws, w, k - 1);
    }
  }

  lemma QueueStep(s: Pool, step: Step)
    requires Enabled(s, step) && QueueInv(s)
    ensures QueueInv(Apply(s, step))
  {
  }

  /** A held ticket stays held unless its own worker runs it. */
  lemma HeldStays(s: Pool, s': Pool, w: nat, t: nat)
    requires w < |s.workers| && |s'.workers| == |s.workers| && Held(s, t)
    requires s.workers[w] != Running(t)
    requires forall v | 0 <= v < |s.workers| && v != w :: s'.workers[v] == s.workers[v]
    ensures Held(s', t)
  {
    var v :| 0 <= v < |s.workers| && s.workers[v] == Running(t);
    assert s'.workers[v] == Running(t);
  }

  /** Steps that neither pop nor run: no ticket moves. */
  lemma TaskStepQuiet(s: Pool, step: Step)
    requires Enabled(s, step) && QueueInv(s) && TaskInv(s)
    requires !step.Pop? && !step.Run?
    ensures TaskInv(Apply(s, step))
  {
    var s' := Apply(s, step);
    assert s'.ran == s.ran && Popped(s') == Popped(s) && |s'.workers| == |s.workers|;
    forall w | 0 <= w < |s.workers|
      ensures s'.workers[w].Running? || s.workers[w].Running? ==> s'.workers[w] == s.workers[w]
    {
    }
    forall t: nat | Held(s, t) ensures Held(s', t) {
      var v :| 0 <= v < |s.workers| && s.workers[v] == Running(t);
      assert s'.workers[v] == Running(t);
    }
  }

  lemma TaskStepPop(s: Pool, w: nat)
    requires Enabled(s, Pop(w)) && QueueInv(s) && TaskInv(s)
    ensures TaskInv(Apply(s, Pop(w)))
  {
    var s' := Apply(s, Pop(w));
    forall t: nat | t < Popped(s') ensures t in s'.ran || Held(s', t) {
      if t == s.tasks[0] {
        assert s'.workers[w] == Running(t);
      } else if t !in s.ran {
        HeldStays(s, s', w, t);
      }
    }
  }

  lemma TaskStepRun(s: Pool, w: nat)
    requires Enabled(s, Run(w)) && QueueInv(s) && TaskInv(s)
    ensures TaskInv(Apply(s, Run(w)))
  {
    var s', done := Apply(s, Run(w)), s.workers[w].task;
    assert s'.ran == s.ran + [done] && Popped(s') == Popped(s);
    forall v | 0 <= v < |s'.workers| && s'.workers[v].Running?
      ensures s'.workers[v] == s.workers[v] && s.workers[v].task != done
    {
      assert v < w ==> s.workers[v].task != s.workers[w].task;
      assert w < v ==> s.workers[w].task != s.workers[v].task;
    }
    forall t: nat | t < Popped(s') ensures t in s'.ran || Held(s', t) {
      if t != done && t !in s.ran {
        HeldStays(s, s', w, t);
      }
    }
  }

  lemma TaskStep(s: Pool, step: Step)
    requires Enabled(s, step) && QueueInv(s) && TaskInv(s)
    ensures TaskInv(Apply(s, step))
  {
    hide TaskInv, QueueInv;
    if step.Pop? {
      TaskStepPop(s, step.worker);
    } else if step.Run? {
      TaskStepRun(s, step.worker);
    } else {
      TaskStepQuiet(s, step);
    }
  }

  lemma ActiveStep(s: Pool, step: Step)
    requires Enabled(s, step) && ActiveInv(s)
    ensures ActiveInv(Apply(s, step))
  {
    hide Busy;
    if IsWorkerStep(step) {
      BusyUpdate(s.workers, step.worker, Apply(s, step).workers[step.worker], |s.workers|);
    }
  }

  lemma CutStep(s: Pool, step: Step)
    requires Enabled(s, step) && CutInv(s)
    ensures CutInv(Apply(s, step))
  {
  }

  /** Steps that leave no worker exited that was not, and pop no ticket from under one that is. */
  lemma ExitStepQuiet(s: Pool, step: Step)
    requires Enabled(s, step) && QueueInv(s) && CutInv(s) && ExitInv(s)
    requires !IsWorkerStep(step)
    ensures ExitInv(Apply(s, step))
  {
    var s' := Apply(s, step);
    assert s'.workers == s.workers && Popped(s') == Popped(s) && s'.lastExit == s.lastExit;
    assert SomeExited(s') ==> SomeExited(s);
  }

  lemma ExitStepWorker(s: Pool, step: Step)
    requires Enabled(s, step) && QueueInv(s) && CutInv(s) && ExitInv(s)
    requires step.Pop? || step.Run? || step.Finish?
    ensures ExitInv(Apply(s, step))
  {
    var s' := Apply(s, step);
    assert s'.workers[step.worker] != Exited && Popped(s) <= Popped(s');
    if SomeExited(s') {
      var v :| 0 <= v < |s'.workers| && s'.workers[v] == Exited;
      assert s.workers[v] == Exited;
    }
  }

  lemma ExitStepExit(s: Pool, w: nat)
    requires Enabled(s, Exit(w)) && QueueInv(s) && CutInv(s) && ExitInv(s)
    ensures ExitInv(Apply(s, Exit(w)))
  {
    assert Popped(Apply(s, Exit(w))) == s.issued;
  }

  lemma StopStep(s: Pool, step: Step)
    requires Enabled(s, step) && QueueInv(s) && StopInv(s)
    ensures StopInv(Apply(s, step))
  {
    hide Enabled, Apply, QueueInv, ActiveInv, CutInv, ExitInv;
    ActiveStep(s, step);
    CutStep(s, step);
    if step.Exit? {
      ExitStepExit(s, step.worker);
    } else if IsWorkerStep(step) {
      ExitStepWorker(s, step);
    } else {
      ExitStepQuiet(s, step);
    }
  }

  lemma {:induction false} InvHolds(n: nat, steps: seq<Step>)
    requires n >= 1 && Exec(n, steps).Some?
    ensures Inv(Exec(n, steps).value)
  {
    hide Enabled, Apply, QueueInv, TaskInv, StopInv;
    if steps == [] {
      InvInit(n);
    } else {
      InvHolds(n, steps[..|steps| - 1]);
      var s, last := Exec(n, steps[..|steps| - 1]).value, steps[|steps| - 1];
      QueueStep(s, last);
      TaskStep(s, last);
      StopStep(s, last);
    }
  }

  lemma InvInit(n: nat)
    requires n >= 1
    ensures Inv(Init(n))
  {
    NoneBusy(Init(n).workers, n);
    assert Init(n).workers[0] != Exited;
  }

  // ---------------------------------------------------------------- what every run keeps

  /**
   Conservation: at every moment of every run a task that was enqueued is in exactly one place,
   and in it once. It waits in the queue, or one worker holds it, or it has run.
   */
  lemma Conservation(n: nat, steps: seq<Step>, t: nat)
    requires n >= 1 && Exec(n, steps).Some?
    requires t < Exec(n, steps).value.issued
    ensures var s := Exec(n, steps).value;
      && (t in s.tasks <==> t >= Popped(s))
      && (t !in s.tasks ==> (t in s.ran <==> !Held(s, t)))
      && (t in s.tasks ==> t !in s.ran && !Held(s, t))
      && multiset(s.tasks)[t] <= 1 && multiset(s.ran)[t] <= 1
      && (forall v, w | 0 <= v < |s.workers| && 0 <= w < |s.workers|
            && s.workers[v] == Running(t) && s.workers[w] == Running(t) :: v == w)
  {
    hide Exec;
    InvHolds(n, steps);
    var s := Exec(n, steps).value;
    if t >= Popped(s) {
      assert s.tasks[t - Popped(s)] == t;
    }
    OncePerSeq(s.tasks, t);
    OncePerSeq(s.ran, t);
  }

  lemma {:induction false} OncePerSeq(xs: seq<nat>, t: nat)
    requires forall i, j | 0 <= i < j < |xs| :: xs[i] != xs[j]
    ensures multiset(xs)[t] == if t in xs then 1 else 0
  {
    if xs != [] {
      var front, last := xs[..|xs| - 1], xs[|xs| - 1];
      assert xs == front + [last];
      OncePerSeq(front, t);
    }
  }

  /**
   Drain: once every worker has exited, a task has run exactly when it was enqueued before the
   last exit. All tasks enqueued before stop_ was set were, so each of them ran exactly once.
   */
  lemma Drain(n: nat, steps: seq<Step>, t: nat)
    requires n >= 1 && Exec(n, steps).Some?
    requires AllExited(Exec(n, steps).value)
    requires t < Exec(n, steps).value.issued
    ensures var s := Exec(n, steps).value;
      && s.stop && s.cut <= s.lastExit
      && (t in s.ran <==> t < s.lastExit)
      && (t < s.cut ==> multiset(s.ran)[t] == 1)
  {
    hide Exec;
    InvHolds(n, steps);
    var s := Exec(n, steps).value;
    assert s.workers[0] == Exited;
    assert !Held(s, t);
    OncePerSeq(s.ran, t);
  }

  /** The pool keeps its workers: as many as the constructor started, in every interleaving. */
  lemma {:induction false} WorkersStay(n: nat, steps: seq<Step>)
    requires Exec(n, steps).Some?
    ensures |Exec(n, steps).value.workers| == n
  {
    if steps != [] {
      WorkersStay(n, steps[..|steps| - 1]);
    }
  }

  /**
   What a caller of stop() may rely on when it returns: every task enqueued before stop_ was set has
   run exactly once, and of the later ones all that a worker still saw.
   */
  lemma StopReturnsWhenDrained(n: nat, steps: seq<Step>, t: nat)
    requires n >= 1 && Exec(n, steps).Some?
    requires Enabled(Exec(n, steps).value, StopReturn)
    requires t < Exec(n, steps).value.issued
    ensures var s := Exec(n, steps).value;
      && AllExited(s) && s.stop
      && (t < s.cut ==> multiset(s.ran)[t] == 1)
      && (t in s.ran <==> t < s.lastExit)
  {
    hide Exec;
    Drain(n, steps, t);
  }

  /** The bookkeeping of a run is about the run: cut is what was enqueued when stop_ was first set. */
  lemma {:induction false} CutIsAtStop(n: nat, before: seq<Step>, after: seq<Step>)
    requires Exec(n, before).Some? && !Exec(n, before).value.stop
    requires Exec(n, before + [StopSet] + after).Some?
    ensures var s := Exec(n, before + [StopSet] + after).value;
      s.stop && s.cut == Exec(n, before).value.issued
  {
    var steps := before + [StopSet] + after;
    var past := steps[..|steps| - 1];
    if after == [] {
      assert past == before;
    } else {
      assert past == before + [StopSet] + after[..|after| - 1];
      CutIsAtStop(n, before, after[..|after| - 1]);
    }
  }

  /** And lastExit is what was enqueued when the last worker went. */
  lemma {:induction false} LastExitIsAtExit(n: nat, before: seq<Step>, w: nat, after: seq<Step>)
    requires Exec(n, before).Some? && Exec(n, before + [Exit(w)] + after).Some?
    requires forall step | step in after :: !step.Exit?
    ensures Exec(n, before + [Exit(w)] + after).value.lastExit == Exec(n, before).value.issued
  {
    var steps := before + [Exit(w)] + after;
    var past := steps[..|steps| - 1];
    if after == [] {
      assert past == before;
    } else {
      assert past == before + [Exit(w)] + after[..|after| - 1];
      LastExitIsAtExit(n, before, w, after[..|after| - 1]);
    }
  }

  /** The drain guarantee without bookkeeping: what was enqueued before stop_ was set has run once. */
  lemma EnqueuedBeforeStopHasRun(n: nat, before: seq<Step>, after: seq<Step>, t: nat)
    requires n >= 1 && Exec(n, before).Some? && !Exec(n, before).value.stop
    requires Exec(n, before + [StopSet] + after).Some?
    requires AllExited(Exec(n, before + [StopSet] + after).value)
    requires t < Exec(n, before).value.issued
    ensures multiset(Exec(n, before + [StopSet] + after).value.ran)[t] == 1
  {
    hide Exec;
    var steps := before + [StopSet] + after;
    InvHolds(n, steps);
    CutIsAtStop(n, before, after);
    Drain(n, steps, t);
  }

  /** After stop_ is set only submitters that had already passed the check can add a task. */
  lemma LateTasksAreBounded(n: nat, steps: seq<Step>)
    requires n >= 1 && Exec(n, steps).Some?
    ensures var s := Exec(n, steps).value;
      s.stop ==> s.issued - s.cut <= s.inFlight && s.checked <= s.inFlight
  {
    hide Exec;
    InvHolds(n, steps);
  }

  /** Every task enqueued so far has run and no worker is between taking one and counting it done. */
  ghost predicate AllDone(s: Pool) {
    && (forall t: nat | t < s.issued :: t in s.ran)
    && (forall w | 0 <= w < |s.workers| :: !IsBusy(s.workers[w]))
  }

  /** The predicate waitForAllTasks waits for says exactly that. */
  lemma WaitReturnsIff(n: nat, steps: seq<Step>)
    requires n >= 1 && Exec(n, steps).Some?
    ensures Enabled(Exec(n, steps).value, WaitReturn) <==> AllDone(Exec(n, steps).value)
  {
    hide Exec;
    InvHolds(n, steps);
    DoneIff(Exec(n, steps).value);
  }

  lemma DoneIff(s: Pool)
    requires Inv(s)
    ensures Enabled(s, WaitReturn) <==> AllDone(s)
  {
    if s.active == 0 {
      forall w | 0 <= w < |s.workers| ensures !IsBusy(s.workers[w]) {
        if IsBusy(s.workers[w]) {
          BusyNone(s.workers, w, |s.workers|);
          assert false;
        }
      }
    }
    if AllDone(s) {
      NoneBusy(s.workers, |s.workers|);
      assert Popped(s) !in s.ran;
    }
  }

  lemma {:induction false} NoneBusy(ws: seq<Worker>, k: nat)
    requires k <= |ws| && forall w | 0 <= w < |ws| :: !IsBusy(ws[w])
    ensures Busy(ws, k) == 0
  {
    if k > 0 {
      NoneBusy(ws, k - 1);
    }
  }

  ghost predicate Stranded(s: Pool) {
    AllExited(s) && s.tasks == [0] && 0 !in s.ran
  }

  /**
   Not every accepted task runs: a submitter that read stop_ before it was set and enqueues after
   the last worker has gone leaves its task in the queue for ever.
   */
  lemma AcceptedTaskCanBeStranded()
    ensures exists steps :: Exec(1, steps).Some? && Stranded(Exec(1, steps).value)
  {
    hide Exec, Stranded;
    var checked := CheckedThenStopped();
    var steps := GoneThenEnqueued(checked);
    assert Exec(1, steps).Some? && Stranded(Exec(1, steps).value);
  }

  /** One worker, one submitter past the check, stop_ set. */
  const LATE_SUBMITTER := Pool([], true, 0, [Waiting], 1, 0, 0, [], 0, 1, 0)

  lemma CheckedThenStopped() returns (steps: seq<Step>)
    ensures Exec(1, steps) == Some(LATE_SUBMITTER)
  {
    hide Exec;
    ExecStart(1);
    assert Init(1).workers == [Waiting];
    steps := ExecNext(1, [], SubmitCheck, Init(1));
    var s1 := Init(1).(checked := 1);
    steps := ExecNext(1, steps, StopCheck, s1);
    steps := ExecNext(1, steps, StopSet, s1.(stoppers := 1));
  }

  lemma GoneThenEnqueued(checked: seq<Step>) returns (steps: seq<Step>)
    requires Exec(1, checked) == Some(LATE_SUBMITTER)
    ensures Exec(1, steps).Some? && Stranded(Exec(1, steps).value)
  {
    hide Exec;
    var gone := LATE_SUBMITTER.(workers := [Exited]);
    assert LATE_SUBMITTER.workers[0 := Exited] == gone.workers;
    steps := ExecNext(1, checked, Exit(0), LATE_SUBMITTER);
    steps := ExecNext(1, steps, Enqueue, gone);
    assert gone.tasks + [0] == [0];
  }

  lemma ExecStart(n: nat)
    ensures Exec(n, []) == Some(Init(n))
  {
  }

  lemma ExecNext(n: nat, steps: seq<Step>, step: Step, s: Pool) returns (next: seq<Step>)
    requires Exec(n, steps) == Some(s) && Enabled(s, step)
    ensures Exec(n, next) == Some(Apply(s, step))
  {
    next := steps + [step];
    assert next[..|steps|] == steps;
  }

  // ---------------------------------------------------------------- stopping ends

  predicate IsWorkerStep(step: Step) {
    step.Pop? || step.Run? || step.Finish? || step.Exit?
  }

  /** What a worker still has to do before it exits, at most. */
  function Load(w: Worker): nat {
    match w
    case Exited => 0
    case Waiting => 1
    case Finishing(_) => 2
    case Running(_) => 3
  }

  function LoadTo(ws: seq<Worker>, k: nat): nat
    requires k <= |ws|
  {
    if k == 0 then 0 else LoadTo(ws, k - 1) + Load(ws[k - 1])
  }

  function Work(s: Pool): nat {
    4 * |s.tasks| + LoadTo(s.workers, |s.workers|)
  }

  lemma {:induction false} LoadUpdate(ws: seq<Worker>, w: nat, v: Worker, k: nat)
    requires w < |ws| && k <= |ws|
    ensures LoadTo(ws[w := v], k) == LoadTo(ws, k) + (if w < k then Load(v) - Load(ws[w]) else 0)
  {
    if k > 0 {
      LoadUpdate(ws, w, v, k - 1);
    }
  }

  /** Every step of a worker brings the pool closer to its end. */
  lemma WorkerStepsShrinkWork(s: Pool, step: Step)
    requires Enabled(s, step) && IsWorkerStep(step)
    ensures Work(Apply(s, step)) < Work(s)
  {
    var w := step.worker;
    LoadUpdate(s.workers, w, Apply(s, step).workers[w], |s.workers|);
  }

  /**
   No deadlock: in every reachable state with stop_ set and some worker left, a worker step is
   enabled. With StoppedPoolEnds, all workers have exited after at most Budget(s) worker steps.
   */
  lemma StoppedPoolMoves(n: nat, steps: seq<Step>)
    requires n >= 1 && Exec(n, steps).Some?
    requires Exec(n, steps).value.stop && !AllExited(Exec(n, steps).value)
    ensures exists step :: IsWorkerStep(step) && Enabled(Exec(n, steps).value, step)
  {
    hide Exec;
    InvHolds(n, steps);
    var s := Exec(n, steps).value;
    var w :| 0 <= w < |s.workers| && s.workers[w] != Exited;
    match s.workers[w] {
      case Waiting =>
        assert if s.tasks == [] then Enabled(s, Exit(w)) else Enabled(s, Pop(w));
      case Running(_) =>
        assert Enabled(s, Run(w));
      case Finishing(_) =>
        BusyNone(s.workers, w, |s.workers|);
        assert Enabled(s, Finish(w));
    }
  }

  function WorkerSteps(steps: seq<Step>): nat {
    if steps == [] then 0
    else WorkerSteps(steps[..|steps| - 1]) + (if IsWorkerStep(steps[|steps| - 1]) then 1 else 0)
  }

  function ChecksPassed(steps: seq<Step>): nat {
    if steps == [] then 0
    else ChecksPassed(steps[..|steps| - 1]) + (if steps[|steps| - 1].SubmitCheck? then 1 else 0)
  }

  /** What the pool can still be asked to do: its work, and four steps for each submitter on its way. */
  function Budget(s: Pool): nat {
    Work(s) + 4 * s.checked
  }

  /** Only a submitter that passes the check raises the budget; every worker step lowers it. */
  lemma StepKeepsBudget(s: Pool, step: Step)
    requires Enabled(s, step)
    ensures s.stop ==> Apply(s, step).stop && !step.SubmitCheck?
    ensures Budget(Apply(s, step)) + (if IsWorkerStep(step) then 1 else 0)
      <= Budget(s) + (if step.SubmitCheck? then 4 else 0)
  {
    hide LoadTo;
    if IsWorkerStep(step) {
      WorkerStepsShrinkWork(s, step);
    }
  }

  /** In every interleaving the workers take at most the budget and four steps for each later submit. */
  lemma {:induction false} WorkerStepsAreBounded(n: nat, steps: seq<Step>, more: seq<Step>)
    requires n >= 1 && Exec(n, steps).Some? && Exec(n, steps + more).Some?
    ensures WorkerSteps(more) + Budget(Exec(n, steps + more).value)
      <= Budget(Exec(n, steps).value) + 4 * ChecksPassed(more)
    ensures Exec(n, steps).value.stop ==> Exec(n, steps + more).value.stop && ChecksPassed(more) == 0
  {
    hide Budget, Enabled, Apply, IsWorkerStep;
    if more == [] {
      assert steps + more == steps;
    } else {
      var front := more[..|more| - 1];
      assert (steps + more)[..|steps + more| - 1] == steps + front;
      WorkerStepsAreBounded(n, steps, front);
      StepKeepsBudget(Exec(n, steps + front).value, more[|more| - 1]);
    }
  }

  /**
   A stopped pool ends in every interleaving, late submitters, further callers of stop() and of
   waitForAllTasks included: the workers take at most as many steps as the budget at the start.
   */
  lemma StoppedPoolEnds(n: nat, steps: seq<Step>, more: seq<Step>)
    requires n >= 1 && Exec(n, steps).Some? && Exec(n, steps + more).Some?
    requires Exec(n, steps).value.stop
    ensures Exec(n, steps + more).value.stop
    ensures WorkerSteps(more) + Budget(Exec(n, steps + more).value) <= Budget(Exec(n, steps).value)
  {
    hide Exec, Budget, WorkerSteps;
    WorkerStepsAreBounded(n, steps, more);
  }

  // ---------------------------------------------------------------- the object

  /** The pool's shared fields; each method is one critical section or one atomic access. */
  class ThreadPool {
    var tasks: seq<nat>
    var stop: bool
    var active: int
    var issued: nat
    ghost var pool: Pool

    ghost predicate Valid()
      reads this
    {
      && tasks == pool.tasks && stop == pool.stop && active == pool.active
      && issued == pool.issued && Inv(pool)
    }

    constructor (asked: nat, cores: nat)
      ensures Valid() && pool == Init(Threads(asked, cores))
      ensures |pool.workers| == if asked != 0 then asked else if cores != 0 then cores else 1
    {
      tasks, stop, active, issued := [], false, 0, 0;
      pool := Init(Threads(asked, cores));
      InvInit(Threads(asked, cores));
    }

    /** The first half of submit, outside the lock. */
    method SubmitChecked() returns (r: Result<()>)
      requires Valid()
      modifies this
      ensures Valid()
      ensures r == if old(stop) then Err(PoolStopped) else Ok(())
      ensures pool == Apply(old(pool), if old(stop) then SubmitReject else SubmitCheck)
    {
      hide Inv;
      if stop {
        pool := Stepped(pool, SubmitReject);
        return Err(PoolStopped);
      }
      pool := Stepped(pool, SubmitCheck);
      return Ok(());
    }

    /** The second half of submit, under the lock: whatever stop_ says by now. */
    method SubmitQueued() returns (ticket: nat)
      requires Valid() && pool.checked > 0
      modifies this
      ensures Valid() && pool == Apply(old(pool), Enqueue)
      ensures ticket == old(issued) && tasks == old(tasks) + [ticket]
    {
      hide Inv;
      ticket := issued;
      tasks := tasks + [issued];
      issued := issued + 1;
      pool := Stepped(pool, Enqueue);
    }

    /** The worker's critical section, entered with the wait predicate true. */
    method WorkerTake(ghost w: nat) returns (task: Option<nat>)
      requires Valid() && w < |pool.workers| && pool.workers[w] == Waiting
      requires stop || tasks != []
      modifies this
      ensures Valid()
      ensures task == if old(tasks) == [] then None else Some(old(tasks)[0])
      ensures pool == Apply(old(pool), if old(tasks) == [] then Exit(w) else Pop(w))
    {
      hide Inv;
      if stop && tasks == [] {
        pool := Stepped(pool, Exit(w));
        return None;
      }
      task := Some(tasks[0]);
      tasks := tasks[1..];
      active := active + 1;
      pool := Stepped(pool, Pop(w));
    }

    /** task(): outside the lock, no shared field changes. */
    ghost method WorkerRuns(w: nat)
      requires Valid() && w < |pool.workers| && pool.workers[w].Running?
      modifies this`pool
      ensures Valid() && pool == Apply(old(pool), Run(w))
    {
      hide Inv;
      pool := Stepped(pool, Run(w));
    }

    /** active_threads_-- after the task returned. */
    method WorkerDone(ghost w: nat)
      requires Valid() && w < |pool.workers| && pool.workers[w].Finishing?
      modifies this
      ensures Valid() && pool == Apply(old(pool), Finish(w))
    {
      hide Inv;
      active := active - 1;
      pool := Stepped(pool, Finish(w));
    }

    /** What waitForAllTasks checks, under the lock, each time it is woken. */
    method AllTasksDone() returns (done: bool)
      requires Valid()
      ensures done <==> AllDone(pool)
    {
      done := tasks == [] && active == 0;
      DoneIff(pool);
    }

    /** The unlocked check of stop(): false when some caller has set stop_ before. */
    method StopChecked() returns (first: bool)
      requires Valid()
      modifies this`pool
      ensures Valid() && first == !stop
      ensures pool == if first then Apply(old(pool), StopCheck) else old(pool)
    {
      hide Inv;
      first := !stop;
      if first {
        pool := Stepped(pool, StopCheck);
      }
    }

    /** stop() under the lock, after its unlocked check. */
    method StopLocked()
      requires Valid() && pool.stoppers > 0
      modifies this
      ensures Valid() && stop && pool == Apply(old(pool), StopSet)
    {
      hide Inv;
      stop := true;
      pool := Stepped(pool, StopSet);
    }
  }

  ghost function Stepped(s: Pool, step: Step): (s': Pool)
    requires Inv(s) && Enabled(s, step)
    ensures Inv(s')
  {
    QueueStep(s, step);
    TaskStep(s, step);
    StopStep(s, step);
    Apply(s, step)
  }
}
