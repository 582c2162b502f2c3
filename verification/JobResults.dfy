/** What the test runner hands back: the jobs it was given, really run, and the exit status they call for. */
module JobResults {
  import opened Collections
  import opened JobProtocol

  // ----- jobs keep their identity

  /** Still the job that was dispatched under its number; marked as a break only after an interrupt. */
  ghost predicate Genuine(job: Job, jobs: seq<Job>, interrupted: bool) {
    job.id < |jobs| && job.isSkip == jobs[job.id].isSkip && (job.isBreak ==> interrupted)
  }

  /** A genuine job that is given back: unless skipped or interrupted it was run, with the code it carries. */
  ghost predicate Settled(job: Job, jobs: seq<Job>, s: State) {
    Genuine(job, jobs, s.threadExit) && (!job.isBreak && !job.isSkip ==> (job.id, job.returncode) in s.finished)
  }

  ghost predicate AllGenuine(s: State, jobs: seq<Job>) {
    && (forall i :: 0 <= i < |s.todo| ==> Genuine(s.todo[i], jobs, false))
    && (forall i :: 0 <= i < |s.inQ| && !s.inQ[i].isBreak ==> Genuine(s.inQ[i], jobs, false))
    && (forall w :: 0 <= w < |s.workers| && Busy(s.workers[w]) ==> Genuine(s.workers[w].job, jobs, s.threadExit))
    && (forall w :: 0 <= w < |s.workers| && s.workers[w].Running? ==> !s.workers[w].job.isSkip)
    && (forall w :: 0 <= w < |s.workers| && s.workers[w].Returning? ==> Settled(s.workers[w].job, jobs, s))
    && (forall i :: 0 <= i < |s.outQ| ==> Settled(s.outQ[i], jobs, s))
    && (forall i :: 0 <= i < |s.collected| ==> Settled(s.collected[i], jobs, s))
    && (forall id: nat, code :: (id, code) in s.finished ==> id < |jobs| && !jobs[id].isSkip)
  }

  lemma {:induction false} RunGenuine(run: seq<State>, jobs: seq<Job>, processors: nat, k: nat)
    requires FreshJobs(jobs) && IsRun(run, jobs, processors) && k < |run|
    ensures AllGenuine(run[k], jobs)
  {
    if 0 < k {
      RunGenuine(run, jobs, processors, k - 1);
      var step := StepAt(run, jobs, processors, k);
      StepGenuine(run[k - 1], jobs, step);
    }
  }

  lemma StepGenuine(s: State, jobs: seq<Job>, step: Step)
    requires AllGenuine(s, jobs) && Enabled(s, step)
    ensures AllGenuine(Apply(s, step), jobs)
  {
    if step.Check? || step.Finish? {
      WorkerGenuine(s, jobs, step);
    } else if step.Fetch? || step.Put? {
      QueueGenuine(s, jobs, step);
    } else {
      MainGenuine(s, jobs, step);
    }
  }

  lemma MainGenuine(s: State, jobs: seq<Job>, step: Step)
    requires AllGenuine(s, jobs) && Enabled(s, step)
    requires !step.Fetch? && !step.Check? && !step.Finish? && !step.Put?
    ensures AllGenuine(Apply(s, step), jobs)
  {
    hide Count;
  }

  lemma QueueGenuine(s: State, jobs: seq<Job>, step: Step)
    requires AllGenuine(s, jobs) && Enabled(s, step)
    requires step.Fetch? || step.Put?
    ensures AllGenuine(Apply(s, step), jobs)
  {
    hide Count, BreakJob;
  }

  lemma WorkerGenuine(s: State, jobs: seq<Job>, step: Step)
    requires AllGenuine(s, jobs) && Enabled(s, step)
    requires step.Check? || step.Finish?
    ensures AllGenuine(Apply(s, step), jobs)
  {
    hide Count, BreakJob;
  }

  // ----- what has happened by the end

  /** Passed, or skipped, and not given back by an interrupt. */
  predicate Succeeded(job: Job) {
    !job.isBreak && (job.isSkip || job.returncode == 0)
  }

  lemma {:induction false} TallyMeaning(jobs: seq<Job>)
    ensures TallyOf(jobs).passed + TallyOf(jobs).skipped <= |jobs|
    ensures TallyOf(jobs).passed + TallyOf(jobs).skipped == |jobs|
       <==> forall i :: 0 <= i < |jobs| ==> Succeeded(jobs[i])
  {
    if jobs != [] {
      TallyMeaning(jobs[..|jobs| - 1]);
    }
  }

  /** Neither skipped nor given back by an interrupt. */
  predicate Counted(job: Job) {
    !job.isBreak && !job.isSkip
  }

  /** Every job is tallied once, interrupted ones aside. */
  lemma {:induction false} TallyPartition(jobs: seq<Job>)
    ensures var t := TallyOf(jobs);
            t.passed + t.failed + t.valgrind + t.crashed + t.skipped + BreakCount(jobs) == |jobs|
  {
    if jobs != [] {
      TallyPartition(jobs[..|jobs| - 1]);
    }
  }

  /** A tally of trouble is zero exactly without such trouble. */
  lemma {:induction false} TallyOfTrouble(jobs: seq<Job>)
    ensures var t := TallyOf(jobs);
            && (t.failed == 0 <==> forall i :: 0 <= i < |jobs| && Counted(jobs[i]) ==> jobs[i].returncode != 1)
            && (t.valgrind == 0 <==> forall i :: 0 <= i < |jobs| && Counted(jobs[i]) ==> jobs[i].returncode != 2)
            && (t.crashed == 0 <==> forall i :: 0 <= i < |jobs| && Counted(jobs[i]) ==> 0 <= jobs[i].returncode <= 2)
  {
    if jobs != [] {
      var front := jobs[..|jobs| - 1];
      assert forall i :: 0 <= i < |front| ==> jobs[i] == front[i];
      TallyOfTrouble(front);
    }
  }

  datatype Verdict = Passed | Failed | MemoryError | Crashed | Skipped

  /** What a collected job is tallied as, if it was not given back by an interrupt. */
  predicate Gets(job: Job, verdict: Verdict) {
    && !job.isBreak
    && match verdict
       case Passed => !job.isSkip && job.returncode == 0
       case Failed => !job.isSkip && job.returncode == 1
       case MemoryError => !job.isSkip && job.returncode == 2
       case Crashed => !job.isSkip && job.returncode !in {0, 1, 2}
       case Skipped => job.isSkip
  }

  ghost function PlacesOf(jobs: seq<Job>, verdict: Verdict): set<nat> {
    set i: nat | i < |jobs| && Gets(jobs[i], verdict)
  }

  lemma PlacesPush(jobs: seq<Job>, job: Job, verdict: Verdict)
    ensures |PlacesOf(jobs + [job], verdict)| == |PlacesOf(jobs, verdict)| + if Gets(job, verdict) then 1 else 0
  {
    hide Gets;
    assert PlacesOf(jobs + [job], verdict) == PlacesOf(jobs, verdict) + if Gets(job, verdict) then {|jobs|} else {};
  }

  /** Each tally is the number of jobs with that verdict. */
  lemma {:induction false} TallyExact(jobs: seq<Job>)
    ensures var t := TallyOf(jobs);
            && t.passed == |PlacesOf(jobs, Passed)| && t.failed == |PlacesOf(jobs, Failed)|
            && t.valgrind == |PlacesOf(jobs, MemoryError)| && t.crashed == |PlacesOf(jobs, Crashed)|
            && t.skipped == |PlacesOf(jobs, Skipped)|
  {
    if jobs != [] {
      var front, last := jobs[..|jobs| - 1], jobs[|jobs| - 1];
      assert jobs == front + [last];
      TallyExact(front);
      forall verdict
        ensures |PlacesOf(jobs, verdict)| == |PlacesOf(front, verdict)| + if Gets(last, verdict) then 1 else 0
      {
        PlacesPush(front, last, verdict);
      }
    }
    hide PlacesOf;
  }

  lemma {:induction false} CopiesOfFresh(jobs: seq<Job>, n: nat, id: nat)
    requires FreshJobs(jobs) && n <= |jobs|
    ensures Copies(jobs[..n], Some(id)) == if id < n then 1 else 0
  {
    if 0 < n {
      assert jobs[..n][..n - 1] == jobs[..n - 1];
      CopiesOfFresh(jobs, n - 1, id);
    }
  }

  /**
   When the runner returns, each dispatched job has been delivered exactly once and nothing else has, one
   not skipped and not interrupted having been run, both queues are empty, every worker has gone, and the
   exit status is zero exactly if every job passed or was skipped and none was interrupted.
   */
  lemma WhenReturned(run: seq<State>, jobs: seq<Job>, processors: nat)
    requires FreshJobs(jobs) && IsRun(run, jobs, processors) && run[|run| - 1].phase.Returned?
    ensures var s := run[|run| - 1];
            && |s.collected| == |jobs|
            && (forall id: nat :: Copies(s.collected, Some(id)) == if id < |jobs| then 1 else 0)
            && (forall i :: 0 <= i < |s.collected| ==> Settled(s.collected[i], jobs, s))
            && (forall id: nat, code :: (id, code) in s.finished ==> id < |jobs| && !jobs[id].isSkip)
            && s.inQ == [] && s.outQ == []
            && (forall w :: 0 <= w < |s.workers| ==> s.workers[w].Exited?)
            && (s.phase.status == 0 <==> forall i :: 0 <= i < |s.collected| ==> Succeeded(s.collected[i]))
  {
    var s := run[|run| - 1];
    RunInv(run, jobs, processors, |run| - 1);
    RunGenuine(run, jobs, processors, |run| - 1);
    AllExited(s.workers);
    TallyMeaning(s.collected);
    AllCopies(jobs);
    AllCopies(s.collected);
    AllCopies(s.inQ);
    AllCopies(s.outQ);
    forall id: nat ensures Copies(s.collected, Some(id)) == if id < |jobs| then 1 else 0 {
      FewCopies(s.outQ, Some(id));
      FewCopies(s.inQ, Some(id));
      NothingHeld(s.workers);
      HeldWithin(s.workers, Some(id));
      assert jobs[..|jobs|] == jobs;
      CopiesOfFresh(jobs, |jobs|, id);
    }
  }

  lemma {:induction false} FewCopies(jobs: seq<Job>, sel: Selection)
    ensures Copies(jobs, sel) <= |jobs| && WorkCopies(jobs, sel) <= |jobs|
  {
    if jobs != [] {
      FewCopies(jobs[..|jobs| - 1], sel);
    }
  }

  lemma {:induction false} HeldWithin(workers: seq<Worker>, sel: Selection)
    ensures Held(workers, sel) <= Held(workers, None)
  {
    if workers != [] {
      HeldWithin(workers[..|workers| - 1], sel);
    }
  }

  // ----- the order of jobs and results

  /** The jobs in a queue, without the break jobs. */
  ghost function Work(queue: seq<Job>): seq<Job> {
    if queue == [] then []
    else Work(queue[..|queue| - 1]) + if queue[|queue| - 1].isBreak then [] else [queue[|queue| - 1]]
  }

  lemma {:induction false} WorkFirst(queue: seq<Job>)
    requires queue != []
    ensures Work(queue) == (if queue[0].isBreak then [] else [queue[0]]) + Work(queue[1..])
  {
    if |queue| == 1 {
      assert queue[..0] == [] && queue[1..] == [];
    } else {
      WorkFirst(queue[..|queue| - 1]);
      assert queue[1..][..|queue| - 2] == queue[..|queue| - 1][1..];
    }
  }

  /** What is still to be fetched is the last part of the jobs, in their order. */
  ghost predicate RestInOrder(s: State, jobs: seq<Job>) {
    var rest := Work(s.inQ) + s.todo;
    |rest| <= |jobs| && rest == jobs[|jobs| - |rest|..]
  }

  lemma StepInOrder(s: State, jobs: seq<Job>, step: Step)
    requires RestInOrder(s, jobs) && Enabled(s, step) && forall i :: 0 <= i < |s.todo| ==> !s.todo[i].isBreak
    ensures RestInOrder(Apply(s, step), jobs)
  {
    hide Count, Work;
    match step
    case Dispatch =>
      WorkPush(s.inQ, s.todo[0]);
    case SendBreak =>
      WorkPush(s.inQ, BreakJob(s));
    case Fetch(_) =>
      WorkFirst(s.inQ);
    case _ =>
  }

  lemma StepCollects(s: State, step: Step)
    requires Enabled(s, step)
    ensures Apply(s, step).collected + Apply(s, step).outQ
         == s.collected + s.outQ + if step.Put? then [s.workers[step.w].job] else []
  {
    hide Count;
  }

  lemma WorkPush(queue: seq<Job>, job: Job)
    ensures Work(queue + [job]) == Work(queue) + if job.isBreak then [] else [job]
  {
    assert (queue + [job])[..|queue|] == queue;
  }

  /** Jobs are fetched in the order they were given in. */
  lemma {:induction false} FetchedInOrder(run: seq<State>, jobs: seq<Job>, processors: nat, k: nat)
    requires FreshJobs(jobs) && IsRun(run, jobs, processors) && k < |run|
    ensures RestInOrder(run[k], jobs)
  {
    hide RestInOrder, Inv, Initial, Apply;
    if k == 0 {
      AtFirstInOrder(jobs, processors);
    } else {
      FetchedInOrder(run, jobs, processors, k - 1);
      RunInv(run, jobs, processors, k - 1);
      var step := StepAt(run, jobs, processors, k);
      OnlyWorkToDo(run[k - 1], jobs, processors);
      StepInOrder(run[k - 1], jobs, step);
    }
  }

  /** Results are collected in the order they were put. */
  lemma {:induction false} CollectedInOrder(run: seq<State>, jobs: seq<Job>, processors: nat, i: nat, k: nat)
    requires IsRun(run, jobs, processors) && i <= k < |run|
    ensures run[i].collected + run[i].outQ <= run[k].collected + run[k].outQ
    decreases k
  {
    hide Apply;
    if i < k {
      CollectedInOrder(run, jobs, processors, i, k - 1);
      var step := StepAt(run, jobs, processors, k);
      StepCollects(run[k - 1], step);
    }
  }

  lemma OnlyWorkToDo(s: State, jobs: seq<Job>, processors: nat)
    requires Inv(s, jobs, processors)
    ensures forall i :: 0 <= i < |s.todo| ==> !s.todo[i].isBreak
  {
    hide Conserved, BreaksOk;
  }

  lemma AtFirstInOrder(jobs: seq<Job>, processors: nat)
    ensures RestInOrder(Initial(jobs, processors), jobs)
  {
    hide IdleWorkers;
    assert Work([]) == [] && [] + jobs == jobs;
  }
}
