/**
 The test runner's job protocol as a step relation: the main thread dispatches jobs and then one
 break job per worker, the workers move jobs from the input to the output queue, the main thread
 collects, and an interrupt may come at any moment.
 */
module JobProtocol {
  import opened Collections

  /** isBreak is both the order to exit and the mark of a job given back after an interrupt. */
  datatype Job = Job(id: nat, isBreak: bool, isSkip: bool, returncode: int)

  /** Between the steps of its loop a worker holds at most one job. */
  datatype Worker = Idle | Fetched(job: Job) | Running(job: Job) | Returning(job: Job) | Exited

  datatype Phase = Dispatching | Stopping | Collecting | Joining | Returned(status: int)

  datatype Tally = Tally(passed: nat, failed: nat, valgrind: nat, crashed: nat, skipped: nat)

  /** finished is a record of the jobs that were really run, each with its return code. */
  datatype State = State(
    total: nat, phase: Phase, todo: seq<Job>, sent: nat, inQ: seq<Job>, workers: seq<Worker>,
    outQ: seq<Job>, collected: seq<Job>, tally: Tally, threadExit: bool,
    finished: set<(nat, int)>)

  datatype Step =
    | Dispatch | EndDispatch | SendBreak | EndBreaks | Collect | EndCollect | Join
    | Fetch(w: nat) | Check(w: nat) | Finish(w: nat, code: int) | Put(w: nat)
    | Interrupt

  function BreakJob(s: State): Job {
    Job(s.total, true, false, 0)
  }

  function Count(tally: Tally, job: Job): Tally {
    if job.isBreak then tally
    else if job.isSkip then tally.(skipped := tally.skipped + 1)
    else if job.returncode == 0 then tally.(passed := tally.passed + 1)
    else if job.returncode == 1 then tally.(failed := tally.failed + 1)
    else if job.returncode == 2 then tally.(valgrind := tally.valgrind + 1)
    else tally.(crashed := tally.crashed + 1)
  }

  predicate Enabled(s: State, step: Step) {
    match step
    case Dispatch => s.phase == Dispatching && s.todo != []
    case EndDispatch => s.phase == Dispatching && s.todo == []
    case SendBreak => s.phase == Stopping && s.sent < |s.workers|
    case EndBreaks => s.phase == Stopping && s.sent == |s.workers|
    case Collect => s.phase == Collecting && |s.collected| < s.total && s.outQ != []
    case EndCollect => s.phase == Collecting && |s.collected| == s.total
    case Join => s.phase == Joining && forall w :: 0 <= w < |s.workers| ==> s.workers[w].Exited?
    case Fetch(w) => w < |s.workers| && s.workers[w].Idle? && s.inQ != []
    case Check(w) => w < |s.workers| && s.workers[w].Fetched?
    case Finish(w, _) => w < |s.workers| && s.workers[w].Running?
    case Put(w) => w < |s.workers| && s.workers[w].Returning?
    case Interrupt => !s.threadExit
  }

  function Apply(s: State, step: Step): State
    requires Enabled(s, step)
  {
    match step
    case Dispatch => s.(inQ := s.inQ + [s.todo[0]], todo := s.todo[1..])
    case EndDispatch => s.(phase := Stopping)
    case SendBreak => s.(inQ := s.inQ + [BreakJob(s)], sent := s.sent + 1)
    case EndBreaks => s.(phase := Collecting)
    case Collect =>
      s.(outQ := s.outQ[1..], collected := s.collected + [s.outQ[0]], tally := Count(s.tally, s.outQ[0]))
    case EndCollect => s.(phase := Joining)
    case Join => s.(phase := Returned(if s.tally.passed + s.tally.skipped == s.total then 0 else 1))
    case Fetch(w) =>
      var job := s.inQ[0];
      s.(inQ := s.inQ[1..], workers := s.workers[w := if job.isBreak then Exited else Fetched(job)])
    case Check(w) =>
      var job := s.workers[w].job;
      s.(workers := s.workers[w := if s.threadExit then Returning(job.(isBreak := true))
                                   else if job.isSkip then Returning(job)
                                   else Running(job)])
    case Finish(w, code) =>
      var job := s.workers[w].job;
      s.(workers := s.workers[w := Returning(job.(returncode := code))], finished := s.finished + {(job.id, code)})
    case Put(w) => s.(outQ := s.outQ + [s.workers[w].job], workers := s.workers[w := Idle])
    case Interrupt => s.(threadExit := true)
  }

  function Initial(jobs: seq<Job>, processors: nat): State {
    State(|jobs|, Dispatching, jobs, 0, [], IdleWorkers(processors), [], [], Tally(0, 0, 0, 0, 0), false, {})
  }

  function IdleWorkers(processors: nat): seq<Worker> {
    seq(processors, _ => Idle)
  }

  /** Jobs as the dispatcher makes them: numbered, and none of them a break job. */
  ghost predicate FreshJobs(jobs: seq<Job>) {
    forall i :: 0 <= i < |jobs| ==> jobs[i].id == i && !jobs[i].isBreak
  }

  ghost predicate IsRun(run: seq<State>, jobs: seq<Job>, processors: nat) {
    && run != [] && run[0] == Initial(jobs, processors)
    && forall i, j :: 0 <= i && j == i + 1 && j < |run| ==>
         Next(run[i], run[j])
  }

  ghost predicate Next(s: State, t: State) {
    exists step :: Enabled(s, step) && t == Apply(s, step)
  }

  lemma StepAt(run: seq<State>, jobs: seq<Job>, processors: nat, k: nat) returns (step: Step)
    requires IsRun(run, jobs, processors) && 0 < k < |run|
    ensures Enabled(run[k - 1], step) && run[k] == Apply(run[k - 1], step)
  {
    var s, t := run[k - 1], run[k];
    assert Next(s, t);
    step :| Enabled(s, step) && t == Apply(s, step);
  }

  // ----- the invariant

  /** Which jobs are being counted: those with one id, or all. */
  type Selection = Option<nat>

  ghost function One(job: Job, sel: Selection): nat {
    if sel.None? || job.id == sel.value then 1 else 0
  }

  ghost function Copies(jobs: seq<Job>, sel: Selection): nat {
    if jobs == [] then 0 else Copies(jobs[..|jobs| - 1], sel) + One(jobs[|jobs| - 1], sel)
  }

  /** Counting only jobs that are not break jobs. */
  ghost function WorkCopies(queue: seq<Job>, sel: Selection): nat {
    if queue == [] then 0
    else WorkCopies(queue[..|queue| - 1], sel) + if queue[|queue| - 1].isBreak then 0 else One(queue[|queue| - 1], sel)
  }

  ghost function BreakCount(queue: seq<Job>): nat {
    if queue == [] then 0
    else BreakCount(queue[..|queue| - 1]) + if queue[|queue| - 1].isBreak then 1 else 0
  }

  ghost function HeldOne(worker: Worker, sel: Selection): nat {
    if worker.Idle? || worker.Exited? then 0 else One(worker.job, sel)
  }

  ghost function Held(workers: seq<Worker>, sel: Selection): nat {
    if workers == [] then 0 else Held(workers[..|workers| - 1], sel) + HeldOne(workers[|workers| - 1], sel)
  }

  ghost function ExitCount(workers: seq<Worker>): nat {
    if workers == [] then 0
    else ExitCount(workers[..|workers| - 1]) + if workers[|workers| - 1].Exited? then 1 else 0
  }

  function TallyOf(jobs: seq<Job>): Tally {
    if jobs == [] then Tally(0, 0, 0, 0, 0)
    else Count(TallyOf(jobs[..|jobs| - 1]), jobs[|jobs| - 1])
  }

  /** Break jobs queue up behind all work. */
  ghost predicate BreaksLast(queue: seq<Job>) {
    forall i, j :: 0 <= i < j < |queue| && queue[i].isBreak ==> queue[j].isBreak
  }

  /** Every job is in exactly one place. */
  ghost predicate Conserved(s: State, jobs: seq<Job>) {
    forall sel :: Total(s, sel) == Copies(jobs, sel)
  }

  ghost function Total(s: State, sel: Selection): nat {
    Copies(s.todo, sel) + WorkCopies(s.inQ, sel) + Held(s.workers, sel)
    + Copies(s.outQ, sel) + Copies(s.collected, sel)
  }

  /** One break job per worker: queued, or consumed by a worker that is gone. */
  ghost predicate BreaksOk(s: State) {
    && s.sent <= |s.workers| && (s.phase.Dispatching? ==> s.sent == 0)
    && (s.phase.Dispatching? || s.phase.Stopping? || s.sent == |s.workers|)
    && BreakCount(s.inQ) + ExitCount(s.workers) == s.sent
    && BreaksLast(s.inQ)
    && (0 < ExitCount(s.workers) ==> WorkCopies(s.inQ, None) == 0)
  }

  ghost predicate PhaseOk(s: State) {
    && (forall i :: 0 <= i < |s.todo| ==> !s.todo[i].isBreak)
    && (!s.phase.Dispatching? ==> s.todo == [])
    && |s.collected| <= s.total && s.tally == TallyOf(s.collected)
    && (s.phase.Joining? || s.phase.Returned? ==> |s.collected| == s.total)
    && (s.phase.Returned? ==>
          && ExitCount(s.workers) == |s.workers|
          && s.phase.status == if s.tally.passed + s.tally.skipped == s.total then 0 else 1)
  }

  ghost predicate Inv(s: State, jobs: seq<Job>, processors: nat) {
    && s.total == |jobs| && |s.workers| == processors
    && Conserved(s, jobs) && BreaksOk(s) && PhaseOk(s)
    && (processors == 0 ==> s.outQ == [] && s.collected == [])
  }

  // ----- counting

  lemma CountsAppend(jobs: seq<Job>, job: Job, sel: Selection)
    ensures Copies(jobs + [job], sel) == Copies(jobs, sel) + One(job, sel)
    ensures WorkCopies(jobs + [job], sel) == WorkCopies(jobs, sel) + if job.isBreak then 0 else One(job, sel)
    ensures BreakCount(jobs + [job]) == BreakCount(jobs) + if job.isBreak then 1 else 0
    ensures TallyOf(jobs + [job]) == Count(TallyOf(jobs), job)
  {
    hide One, Count;
    assert (jobs + [job])[..|jobs|] == jobs;
  }

  lemma {:induction false} CountsFirst(jobs: seq<Job>, sel: Selection)
    requires jobs != []
    ensures Copies(jobs, sel) == One(jobs[0], sel) + Copies(jobs[1..], sel)
    ensures WorkCopies(jobs, sel) == (if jobs[0].isBreak then 0 else One(jobs[0], sel)) + WorkCopies(jobs[1..], sel)
    ensures BreakCount(jobs) == (if jobs[0].isBreak then 1 else 0) + BreakCount(jobs[1..])
  {
    if |jobs| == 1 {
      assert jobs[..0] == [] && jobs[1..] == [];
    } else {
      var front := jobs[..|jobs| - 1];
      CountsFirst(front, sel);
      assert jobs[1..][..|jobs| - 2] == front[1..];
    }
  }

  lemma {:induction false} AllCopies(jobs: seq<Job>)
    ensures Copies(jobs, None) == |jobs|
    ensures WorkCopies(jobs, None) + BreakCount(jobs) == |jobs|
  {
    if jobs != [] {
      AllCopies(jobs[..|jobs| - 1]);
    }
  }

  lemma {:induction false} HeldUpdate(workers: seq<Worker>, w: nat, worker: Worker, sel: Selection)
    requires w < |workers|
    ensures Held(workers[w := worker], sel) + HeldOne(workers[w], sel) == Held(workers, sel) + HeldOne(worker, sel)
    ensures ExitCount(workers[w := worker]) + (if workers[w].Exited? then 1 else 0)
         == ExitCount(workers) + if worker.Exited? then 1 else 0
  {
    var after, front := workers[w := worker], workers[..|workers| - 1];
    if w == |workers| - 1 {
      assert after[..|workers| - 1] == front;
    } else {
      assert after[..|workers| - 1] == front[w := worker];
      HeldUpdate(front, w, worker, sel);
    }
  }

  // ----- every step keeps the invariant

  lemma {:induction false} NothingHeldAtFirst(processors: nat, sel: Selection)
    ensures Held(IdleWorkers(processors), sel) == 0 && ExitCount(IdleWorkers(processors)) == 0
  {
    if 0 < processors {
      assert IdleWorkers(processors)[..processors - 1] == IdleWorkers(processors - 1);
      NothingHeldAtFirst(processors - 1, sel);
    }
  }

  lemma InitialInv(jobs: seq<Job>, processors: nat)
    requires FreshJobs(jobs)
    ensures Inv(Initial(jobs, processors), jobs, processors)
  {
    forall sel ensures Held(IdleWorkers(processors), sel) == 0 {
      NothingHeldAtFirst(processors, sel);
    }
    NothingHeldAtFirst(processors, None);
  }

  lemma {:induction false} NoBreaks(queue: seq<Job>)
    ensures BreakCount(queue) == 0 <==> forall i :: 0 <= i < |queue| ==> !queue[i].isBreak
  {
    if queue != [] {
      NoBreaks(queue[..|queue| - 1]);
    }
  }

  lemma {:induction false} AllExited(workers: seq<Worker>)
    ensures ExitCount(workers) <= |workers|
    ensures ExitCount(workers) == |workers| <==> forall w :: 0 <= w < |workers| ==> workers[w].Exited?
  {
    if workers != [] {
      AllExited(workers[..|workers| - 1]);
    }
  }

  lemma {:induction false} AllBreaks(queue: seq<Job>)
    requires forall i :: 0 <= i < |queue| ==> queue[i].isBreak
    ensures WorkCopies(queue, None) == 0
  {
    if queue != [] {
      AllBreaks(queue[..|queue| - 1]);
    }
  }

  /** No step makes or loses a job. */
  lemma StepTotal(s: State, step: Step, sel: Selection)
    requires Enabled(s, step) && (step.Dispatch? ==> !s.todo[0].isBreak)
    ensures Total(Apply(s, step), sel) == Total(s, sel)
  {
    hide Copies, WorkCopies, Held, One, Count;
    match step
    case Dispatch =>
      CountsFirst(s.todo, sel);
      CountsAppend(s.inQ, s.todo[0], sel);
    case SendBreak =>
      CountsAppend(s.inQ, BreakJob(s), sel);
    case Collect =>
      CountsFirst(s.outQ, sel);
      CountsAppend(s.collected, s.outQ[0], sel);
    case Fetch(w) =>
      CountsFirst(s.inQ, sel);
      HeldUpdate(s.workers, w, Apply(s, step).workers[w], sel);
    case Put(w) =>
      HeldUpdate(s.workers, w, Idle, sel);
      CountsAppend(s.outQ, s.workers[w].job, sel);
    case Check(_) =>
      HoldsOn(s, step, sel);
    case Finish(_, _) =>
      HoldsOn(s, step, sel);
    case _ =>
  }

  /** A worker goes on with the job it holds. */
  lemma HoldsOn(s: State, step: Step, sel: Selection)
    requires Enabled(s, step) && (step.Check? || step.Finish?)
    ensures Held(Apply(s, step).workers, sel) == Held(s.workers, sel)
  {
    hide Held;
    HeldUpdate(s.workers, step.w, Apply(s, step).workers[step.w], sel);
  }

  lemma StepBreaks(s: State, step: Step)
    requires BreaksOk(s) && PhaseOk(s) && Enabled(s, step)
    ensures BreaksOk(Apply(s, step))
  {
    hide Copies, Held, TallyOf, Count, WorkCopies, BreakCount, ExitCount;
    match step
    case Dispatch =>
      CountsAppend(s.inQ, s.todo[0], None);
      NoBreaks(s.inQ);
    case SendBreak =>
      CountsAppend(s.inQ, BreakJob(s), None);
    case Fetch(w) =>
      FetchBreaks(s, w);
    case Check(w) =>
      HeldUpdate(s.workers, w, Apply(s, step).workers[w], None);
    case Finish(w, _) =>
      HeldUpdate(s.workers, w, Apply(s, step).workers[w], None);
    case Put(w) =>
      HeldUpdate(s.workers, w, Idle, None);
    case _ =>
  }

  lemma FetchBreaks(s: State, w: nat)
    requires BreaksOk(s) && Enabled(s, Fetch(w))
    ensures BreaksOk(Apply(s, Fetch(w)))
  {
    hide Held, WorkCopies, BreakCount, ExitCount;
    CountsFirst(s.inQ, None);
    HeldUpdate(s.workers, w, Apply(s, Fetch(w)).workers[w], None);
    if s.inQ[0].isBreak {
      AllBreaks(s.inQ[1..]);
    }
  }

  lemma StepPhase(s: State, step: Step)
    requires PhaseOk(s) && Enabled(s, step)
    ensures PhaseOk(Apply(s, step))
  {
    hide TallyOf, Count, ExitCount;
    match step
    case Collect =>
      CountsAppend(s.collected, s.outQ[0], None);
    case Join =>
      AllExited(s.workers);
    case Fetch(w) =>
      HeldUpdate(s.workers, w, Apply(s, step).workers[w], None);
      AllExited(s.workers);
    case Check(w) =>
      AllExited(s.workers);
    case Finish(w, _) =>
      AllExited(s.workers);
    case Put(w) =>
      AllExited(s.workers);
    case _ =>
  }

  lemma StepInv(s: State, jobs: seq<Job>, processors: nat, step: Step)
    requires Inv(s, jobs, processors) && Enabled(s, step)
    ensures Inv(Apply(s, step), jobs, processors)
  {
    StepBreaks(s, step);
    StepPhase(s, step);
    forall sel ensures Total(Apply(s, step), sel) == Total(s, sel) {
      StepTotal(s, step, sel);
    }
    hide BreaksOk, PhaseOk, Total, Copies, Count;
  }

  /** Every state of every run satisfies the invariant. */
  lemma {:induction false} RunInv(run: seq<State>, jobs: seq<Job>, processors: nat, k: nat)
    requires FreshJobs(jobs) && IsRun(run, jobs, processors) && k < |run|
    ensures Inv(run[k], jobs, processors)
  {
    if k == 0 {
      InitialInv(jobs, processors);
    } else {
      RunInv(run, jobs, processors, k - 1);
      var step := StepAt(run, jobs, processors, k);
      StepInv(run[k - 1], jobs, processors, step);
    }
  }

  // ----- no waiting forever

  ghost function Load(worker: Worker): nat {
    match worker
    case Idle => 0
    case Fetched(_) => 4
    case Running(_) => 3
    case Returning(_) => 2
    case Exited => 0
  }

  ghost function TotalLoad(workers: seq<Worker>): nat {
    if workers == [] then 0 else TotalLoad(workers[..|workers| - 1]) + Load(workers[|workers| - 1])
  }

  ghost function PhasesLeft(phase: Phase): nat {
    match phase
    case Dispatching => 4
    case Stopping => 3
    case Collecting => 2
    case Joining => 1
    case Returned(_) => 0
  }

  /** An upper bound on the steps still to come. */
  ghost function StepsLeft(s: State): int {
    6 * |s.todo| + 6 * (|s.workers| - s.sent) + 5 * |s.inQ| + TotalLoad(s.workers) + |s.outQ|
      + PhasesLeft(s.phase) + if s.threadExit then 0 else 1
  }

  lemma {:induction false} LoadUpdate(workers: seq<Worker>, w: nat, worker: Worker)
    requires w < |workers|
    ensures TotalLoad(workers[w := worker]) + Load(workers[w]) == TotalLoad(workers) + Load(worker)
  {
    var after, front := workers[w := worker], workers[..|workers| - 1];
    if w == |workers| - 1 {
      assert after[..|workers| - 1] == front;
    } else {
      assert after[..|workers| - 1] == front[w := worker];
      LoadUpdate(front, w, worker);
    }
  }

  /** Every step, whoever takes it, uses up some of what is left. */
  lemma StepShortens(s: State, step: Step)
    requires Enabled(s, step)
    ensures StepsLeft(Apply(s, step)) < StepsLeft(s)
  {
    hide TotalLoad, Count;
    if step.Fetch? || step.Check? || step.Finish? || step.Put? {
      LoadUpdate(s.workers, step.w, Apply(s, step).workers[step.w]);
    }
  }

  lemma {:induction false} RunShortens(run: seq<State>, jobs: seq<Job>, processors: nat, k: nat)
    requires IsRun(run, jobs, processors) && k < |run|
    ensures StepsLeft(run[k]) + k <= StepsLeft(run[0])
  {
    if 0 < k {
      RunShortens(run, jobs, processors, k - 1);
      var step := StepAt(run, jobs, processors, k);
      StepShortens(run[k - 1], step);
    }
  }

  lemma {:induction false} IdleLoad(processors: nat)
    ensures TotalLoad(IdleWorkers(processors)) == 0
  {
    if 0 < processors {
      assert IdleWorkers(processors)[..processors - 1] == IdleWorkers(processors - 1);
      IdleLoad(processors - 1);
    }
  }

  /** No run is longer than the work allows: six steps a job, six a worker, and five more. */
  lemma RunsAreBounded(run: seq<State>, jobs: seq<Job>, processors: nat)
    requires FreshJobs(jobs) && IsRun(run, jobs, processors)
    ensures |run| - 1 <= 6 * |jobs| + 6 * processors + 5
  {
    var last := run[|run| - 1];
    RunShortens(run, jobs, processors, |run| - 1);
    RunInv(run, jobs, processors, |run| - 1);
    IdleLoad(processors);
  }

  ghost predicate Busy(worker: Worker) {
    worker.Fetched? || worker.Running? || worker.Returning?
  }

  /** Some step other than an interrupt can be taken. */
  ghost predicate CanMove(s: State) {
    exists step :: Enabled(s, step) && !step.Interrupt?
  }

  lemma {:induction false} NothingHeld(workers: seq<Worker>)
    requires forall w :: 0 <= w < |workers| ==> !Busy(workers[w])
    ensures Held(workers, None) == 0
  {
    if workers != [] {
      NothingHeld(workers[..|workers| - 1]);
    }
  }

  lemma BusyMoves(s: State, w: nat)
    requires w < |s.workers| && Busy(s.workers[w])
    ensures CanMove(s)
  {
    var step := match s.workers[w] case Fetched(_) => Check(w) case Running(_) => Finish(w, 0) case _ => Put(w);
    assert Enabled(s, step);
  }

  /** Waiting on the output queue is never in vain while there is a worker. */
  lemma CollectingMoves(s: State, jobs: seq<Job>, processors: nat)
    requires Inv(s, jobs, processors) && s.phase.Collecting?
    requires 0 < processors || |s.collected| == s.total
    ensures CanMove(s)
  {
    if |s.collected| == s.total {
      assert Enabled(s, EndCollect);
    } else if s.outQ != [] {
      assert Enabled(s, Collect);
    } else if w :| 0 <= w < |s.workers| && Busy(s.workers[w]) {
      BusyMoves(s, w);
    } else {
      NothingHeld(s.workers);
      AllCopies(jobs);
      AllCopies(s.collected);
      AllCopies(s.inQ);
      NoneExited(s.workers);
      assert Enabled(s, Fetch(0));
    }
  }

  lemma {:induction false} NoneExited(workers: seq<Worker>)
    ensures ExitCount(workers) == 0 ==> forall w :: 0 <= w < |workers| ==> !workers[w].Exited?
  {
    if workers != [] {
      NoneExited(workers[..|workers| - 1]);
    }
  }

  /** Waiting for the workers to end is never in vain. */
  lemma JoiningMoves(s: State, jobs: seq<Job>, processors: nat)
    requires Inv(s, jobs, processors) && s.phase.Joining?
    ensures CanMove(s)
  {
    AllExited(s.workers);
    if ExitCount(s.workers) == processors {
      assert Enabled(s, Join);
    } else {
      var w :| 0 <= w < |s.workers| && !s.workers[w].Exited?;
      if Busy(s.workers[w]) {
        BusyMoves(s, w);
      } else {
        AllCopies(s.inQ);
        assert Enabled(s, Fetch(w));
      }
    }
  }

  /**
   The only state short of the end from which nothing but an interrupt can happen is the
   collector waiting for jobs when there is no worker at all.
   */
  lemma StuckExactly(s: State, jobs: seq<Job>, processors: nat)
    requires Inv(s, jobs, processors) && !s.phase.Returned?
    ensures CanMove(s) <==> 0 < processors || !s.phase.Collecting? || |s.collected| == |jobs|
  {
    match s.phase
    case Dispatching =>
      assert Enabled(s, if s.todo == [] then EndDispatch else Dispatch);
    case Stopping =>
      assert Enabled(s, if s.sent == |s.workers| then EndBreaks else SendBreak);
    case Collecting =>
      if 0 < processors || |s.collected| == |jobs| {
        CollectingMoves(s, jobs, processors);
      }
    case Joining =>
      JoiningMoves(s, jobs, processors);
  }

  /** A run that cannot be continued has returned, exactly if there was a worker or nothing to do. */
  lemma MaximalRunReturns(run: seq<State>, jobs: seq<Job>, processors: nat)
    requires FreshJobs(jobs) && IsRun(run, jobs, processors)
    requires !CanMove(run[|run| - 1])
    ensures run[|run| - 1].phase.Returned? <==> 0 < processors || jobs == []
  {
    RunInv(run, jobs, processors, |run| - 1);
    if !run[|run| - 1].phase.Returned? {
      StuckExactly(run[|run| - 1], jobs, processors);
    }
  }
}
