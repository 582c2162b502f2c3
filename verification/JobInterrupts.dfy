/** What an interrupt brings about: nothing is begun any more, and what was not begun comes back as a break. */
module JobInterrupts {
  import opened Collections
  import opened JobProtocol
  import opened JobResults

  /** A job of this number is at one of these places. */
  ghost predicate Among(queue: seq<Job>, id: nat) {
    exists i :: 0 <= i < |queue| && queue[i].id == id
  }

  ghost predicate IsRunning(s: State, id: nat) {
    exists w :: 0 <= w < |s.workers| && s.workers[w].Running? && s.workers[w].job.id == id
  }

  /** A worker is about to give the job back, or has done so. */
  ghost predicate GivenBack(s: State, id: nat) {
    || (exists w :: 0 <= w < |s.workers| && s.workers[w].Returning? && s.workers[w].job.id == id)
    || Among(s.outQ, id) || Among(s.collected, id)
  }

  ghost predicate Begun(s: State, id: nat) {
    IsRunning(s, id) || GivenBack(s, id)
  }

  // ----- one step after the interrupt

  /** No worker begins a job any more: whoever runs one has been running it all along. */
  lemma StepBeginsNothing(s: State, step: Step)
    requires s.threadExit && Enabled(s, step)
    ensures var t := Apply(s, step);
            && t.threadExit && |t.workers| == |s.workers|
            && (forall w :: 0 <= w < |t.workers| && t.workers[w].Running? ==> s.workers[w] == t.workers[w])
            && forall id: nat, code :: (id, code) in t.finished && (id, code) !in s.finished ==> IsRunning(s, id)
  {
    hide Count;
  }

  /** The job was not run, and whatever came back of it is marked as a break. */
  ghost predicate OnlyBreaks(s: State, id: nat) {
    && !IsRunning(s, id)
    && (forall w :: 0 <= w < |s.workers| && s.workers[w].Returning? && s.workers[w].job.id == id ==>
          s.workers[w].job.isBreak)
    && (forall i :: 0 <= i < |s.outQ| && s.outQ[i].id == id ==> s.outQ[i].isBreak)
    && (forall i :: 0 <= i < |s.collected| && s.collected[i].id == id ==> s.collected[i].isBreak)
    && (forall code :: (id, code) !in s.finished)
  }

  lemma StepOnlyBreaks(s: State, step: Step, id: nat)
    requires s.threadExit && OnlyBreaks(s, id) && Enabled(s, step)
    ensures OnlyBreaks(Apply(s, step), id)
  {
    hide Count, BreakJob;
  }

  /** The job is past being interrupted: it waits nowhere, and nothing of it is marked as a break. */
  ghost predicate Unbroken(s: State, id: nat) {
    && !Waits(s, id)
    && (forall w :: 0 <= w < |s.workers| && Busy(s.workers[w]) && s.workers[w].job.id == id ==>
          !s.workers[w].job.isBreak)
    && (forall i :: 0 <= i < |s.outQ| && s.outQ[i].id == id ==> !s.outQ[i].isBreak)
    && (forall i :: 0 <= i < |s.collected| && s.collected[i].id == id ==> !s.collected[i].isBreak)
  }

  /** Not dispatched, queued, or only fetched. */
  ghost predicate Waits(s: State, id: nat) {
    || Among(s.todo, id)
    || (exists i :: 0 <= i < |s.inQ| && !s.inQ[i].isBreak && s.inQ[i].id == id)
    || (exists w :: 0 <= w < |s.workers| && s.workers[w].Fetched? && s.workers[w].job.id == id)
  }

  lemma StepUnbroken(s: State, step: Step, id: nat)
    requires Unbroken(s, id) && Enabled(s, step)
    ensures Unbroken(Apply(s, step), id)
  {
    hide Count;
  }

  /** What was run is given back. */
  ghost predicate FinishedGivenBack(s: State) {
    forall id: nat, code :: (id, code) in s.finished ==> GivenBack(s, id)
  }

  lemma StepGivenBack(s: State, step: Step, id: nat)
    requires GivenBack(s, id) && Enabled(s, step)
    ensures GivenBack(Apply(s, step), id)
  {
    hide Count, BreakJob;
    var t := Apply(s, step);
    if w :| 0 <= w < |s.workers| && s.workers[w].Returning? && s.workers[w].job.id == id {
      if step == Put(w) {
        assert t.outQ[|s.outQ|].id == id;
      } else {
        assert t.workers[w] == s.workers[w];
      }
    } else if i :| 0 <= i < |s.outQ| && s.outQ[i].id == id {
      if step.Collect? {
        assert if i == 0 then t.collected[|s.collected|].id == id else t.outQ[i - 1].id == id;
      } else {
        assert t.outQ[i].id == id;
      }
    } else {
      var j :| 0 <= j < |s.collected| && s.collected[j].id == id;
      assert t.collected[j].id == id;
    }
  }

  lemma StepFinished(s: State, step: Step)
    requires FinishedGivenBack(s) && Enabled(s, step)
    ensures FinishedGivenBack(Apply(s, step))
  {
    hide Count, BreakJob, GivenBack;
    var t := Apply(s, step);
    forall id: nat, code | (id, code) in t.finished ensures GivenBack(t, id) {
      if (id, code) in s.finished {
        StepGivenBack(s, step, id);
      } else {
        FinishGivesBack(s, step.w, code);
      }
    }
  }

  lemma FinishGivesBack(s: State, w: nat, code: int)
    requires Enabled(s, Finish(w, code))
    ensures GivenBack(Apply(s, Finish(w, code)), s.workers[w].job.id)
  {
    var t := Apply(s, Finish(w, code));
    assert t.workers[w].Returning? && t.workers[w].job.id == s.workers[w].job.id;
  }

  // ----- a job that was begun waits nowhere

  lemma {:induction false} CopiesFrom(queue: seq<Job>, i: nat, sel: Selection)
    requires i < |queue|
    ensures One(queue[i], sel) <= Copies(queue, sel)
    ensures !queue[i].isBreak ==> One(queue[i], sel) <= WorkCopies(queue, sel)
  {
    hide One;
    if i < |queue| - 1 {
      CopiesFrom(queue[..|queue| - 1], i, sel);
    }
  }

  lemma {:induction false} CopiesFound(queue: seq<Job>, id: nat)
    requires 0 < Copies(queue, Some(id))
    ensures Among(queue, id)
  {
    var front := queue[..|queue| - 1];
    if 0 < Copies(front, Some(id)) {
      CopiesFound(front, id);
      var i :| 0 <= i < |front| && front[i].id == id;
      assert queue[i].id == id;
    } else {
      assert queue[|queue| - 1].id == id;
    }
  }

  lemma HeldFrom(workers: seq<Worker>, w: nat, v: nat, sel: Selection)
    requires w < |workers| && v < |workers|
    ensures HeldOne(workers[w], sel) <= Held(workers, sel)
    ensures w != v ==> HeldOne(workers[w], sel) + HeldOne(workers[v], sel) <= Held(workers, sel)
  {
    HeldUpdate(workers, w, Idle, sel);
    if w != v {
      HeldUpdate(workers[w := Idle], v, Idle, sel);
    }
  }

  /** Being in one place only, a job that was begun does not wait as well. */
  lemma BegunDoesNotWait(s: State, jobs: seq<Job>, processors: nat, id: nat)
    requires FreshJobs(jobs) && Inv(s, jobs, processors) && id < |jobs| && Begun(s, id)
    ensures !Waits(s, id)
  {
    hide BreaksOk, PhaseOk, Copies, WorkCopies, Held;
    var sel := Some(id);
    assert jobs[..|jobs|] == jobs;
    CopiesOfFresh(jobs, |jobs|, id);
    assert Total(s, sel) == 1;
    BegunCopies(s, id);
    if i :| 0 <= i < |s.todo| && s.todo[i].id == id {
      CopiesFrom(s.todo, i, sel);
      assert false;
    }
    if i :| 0 <= i < |s.inQ| && !s.inQ[i].isBreak && s.inQ[i].id == id {
      CopiesFrom(s.inQ, i, sel);
      assert false;
    }
    if v :| 0 <= v < |s.workers| && s.workers[v].Fetched? && s.workers[v].job.id == id {
      BegunAndFetched(s, v, id);
      assert false;
    }
  }

  lemma BegunCopies(s: State, id: nat)
    requires Begun(s, id)
    ensures 0 < Held(s.workers, Some(id)) + Copies(s.outQ, Some(id)) + Copies(s.collected, Some(id))
  {
    hide Copies, WorkCopies, Held;
    if w :| 0 <= w < |s.workers| && Busy(s.workers[w]) && s.workers[w].job.id == id {
      HeldFrom(s.workers, w, w, Some(id));
    } else if i :| 0 <= i < |s.outQ| && s.outQ[i].id == id {
      CopiesFrom(s.outQ, i, Some(id));
    } else {
      var j :| 0 <= j < |s.collected| && s.collected[j].id == id;
      CopiesFrom(s.collected, j, Some(id));
    }
  }

  lemma BegunAndFetched(s: State, v: nat, id: nat)
    requires Begun(s, id)
    requires v < |s.workers| && s.workers[v].Fetched? && s.workers[v].job.id == id
    ensures 1 < Held(s.workers, Some(id)) + Copies(s.outQ, Some(id)) + Copies(s.collected, Some(id))
  {
    hide Copies, WorkCopies, Held;
    HeldFrom(s.workers, v, v, Some(id));
    if w :| 0 <= w < |s.workers| && !s.workers[w].Fetched? && Busy(s.workers[w]) && s.workers[w].job.id == id {
      HeldFrom(s.workers, v, w, Some(id));
    } else if i :| 0 <= i < |s.outQ| && s.outQ[i].id == id {
      CopiesFrom(s.outQ, i, Some(id));
    } else {
      var j :| 0 <= j < |s.collected| && s.collected[j].id == id;
      CopiesFrom(s.collected, j, Some(id));
    }
  }

  // ----- runs

  lemma {:induction false} RunFinished(run: seq<State>, jobs: seq<Job>, processors: nat, k: nat)
    requires IsRun(run, jobs, processors) && k < |run|
    ensures FinishedGivenBack(run[k])
  {
    hide FinishedGivenBack;
    if k == 0 {
      NothingFinished(jobs, processors);
    } else {
      RunFinished(run, jobs, processors, k - 1);
      var step := StepAt(run, jobs, processors, k);
      StepFinished(run[k - 1], step);
    }
  }

  lemma NothingFinished(jobs: seq<Job>, processors: nat)
    ensures FinishedGivenBack(Initial(jobs, processors))
  {
  }

  /** From the interrupt on, whoever runs a job has been running it since, and only such jobs get finished. */
  lemma {:induction false} NothingBegins(run: seq<State>, jobs: seq<Job>, processors: nat, k0: nat, k: nat)
    requires IsRun(run, jobs, processors) && k0 <= k < |run| && run[k0].threadExit
    ensures var s, t := run[k0], run[k];
            && t.threadExit && |t.workers| == |s.workers|
            && (forall w :: 0 <= w < |t.workers| && t.workers[w].Running? ==> s.workers[w] == t.workers[w])
            && forall id: nat, code :: (id, code) in t.finished && (id, code) !in s.finished ==> IsRunning(s, id)
    decreases k
  {
    if k0 < k {
      NothingBegins(run, jobs, processors, k0, k - 1);
      var step := StepAt(run, jobs, processors, k);
      StepBeginsNothing(run[k - 1], step);
    }
  }

  /** A job not begun when the interrupt has come is never run. */
  lemma {:induction false} NeverRun(run: seq<State>, jobs: seq<Job>, processors: nat, k0: nat, k: nat, id: nat)
    requires IsRun(run, jobs, processors) && k0 <= k < |run| && run[k0].threadExit && !Begun(run[k0], id)
    ensures OnlyBreaks(run[k], id)
    decreases k
  {
    hide Begun, OnlyBreaks;
    if k == k0 {
      RunFinished(run, jobs, processors, k);
      NotBegun(run[k], id);
    } else {
      NeverRun(run, jobs, processors, k0, k - 1, id);
      NothingBegins(run, jobs, processors, k0, k - 1);
      var step := StepAt(run, jobs, processors, k);
      StepOnlyBreaks(run[k - 1], step, id);
    }
  }

  lemma NotBegun(s: State, id: nat)
    requires FinishedGivenBack(s) && !Begun(s, id)
    ensures OnlyBreaks(s, id)
  {
  }

  /** A job begun in time is not interrupted. */
  lemma {:induction false} NotInterrupted(
      run: seq<State>, jobs: seq<Job>, processors: nat, k0: nat, k: nat, id: nat)
    requires FreshJobs(jobs) && IsRun(run, jobs, processors) && k0 <= k < |run|
    requires !run[k0].threadExit && id < |jobs| && Begun(run[k0], id)
    ensures Unbroken(run[k], id)
    decreases k
  {
    hide Begun, Unbroken, Inv;
    if k == k0 {
      RunInv(run, jobs, processors, k);
      RunGenuine(run, jobs, processors, k);
      BegunInTime(run[k], jobs, processors, id);
    } else {
      NotInterrupted(run, jobs, processors, k0, k - 1, id);
      var step := StepAt(run, jobs, processors, k);
      StepUnbroken(run[k - 1], step, id);
    }
  }

  lemma BegunInTime(s: State, jobs: seq<Job>, processors: nat, id: nat)
    requires FreshJobs(jobs) && Inv(s, jobs, processors) && AllGenuine(s, jobs)
    requires !s.threadExit && id < |jobs| && Begun(s, id)
    ensures Unbroken(s, id)
  {
    hide Inv, Begun, Waits;
    BegunDoesNotWait(s, jobs, processors, id);
  }

  lemma InterruptChangesNothing(run: seq<State>, jobs: seq<Job>, processors: nat, k: nat)
    requires IsRun(run, jobs, processors) && 0 < k < |run| && !run[k - 1].threadExit && run[k].threadExit
    ensures run[k] == run[k - 1].(threadExit := true)
  {
    hide Count;
    var step := StepAt(run, jobs, processors, k);
  }

  lemma CollectedAs(s: State, i: nat)
    requires i < |s.collected|
    ensures Unbroken(s, s.collected[i].id) ==> !s.collected[i].isBreak
    ensures OnlyBreaks(s, s.collected[i].id) ==> s.collected[i].isBreak
  {
  }

  lemma NotFinished(s: State, id: nat, code: int)
    requires OnlyBreaks(s, id)
    ensures (id, code) !in s.finished
  {
  }

  /**
   A run that returns, and that was interrupted just before its k-th state: given back as a break are exactly
   the jobs not begun by then, none of which was run; if there is one the status is not 0.
   */
  lemma InterruptExactly(run: seq<State>, jobs: seq<Job>, processors: nat, k: nat)
    requires FreshJobs(jobs) && IsRun(run, jobs, processors) && run[|run| - 1].phase.Returned?
    requires 0 < k < |run| && !run[k - 1].threadExit && run[k].threadExit
    ensures var s, t := run[k], run[|run| - 1];
            && (forall i :: 0 <= i < |t.collected| ==>
                  t.collected[i].id < |jobs| && (t.collected[i].isBreak <==> !Begun(s, t.collected[i].id)))
            && (forall id: nat, code :: (id, code) in t.finished ==> Begun(s, id))
            && (t.phase.status == 0 ==> forall id: nat :: id < |jobs| ==> Begun(s, id))
  {
    hide OnlyBreaks, Unbroken, Copies, GivenBack, IsRunning, IsRun;
    var s, t, n := run[k], run[|run| - 1], |run| - 1;
    WhenReturned(run, jobs, processors);
    forall i | 0 <= i < |t.collected|
      ensures t.collected[i].id < |jobs| && (t.collected[i].isBreak <==> !Begun(s, t.collected[i].id))
    {
      assert Settled(t.collected[i], jobs, t);
      CollectedAs(t, i);
      BegunOrNot(run, jobs, processors, k, t.collected[i].id);
    }
    forall id: nat, code | (id, code) in t.finished ensures Begun(s, id) {
      if !Begun(s, id) {
        NeverRun(run, jobs, processors, k, n, id);
        NotFinished(t, id, code);
      }
    }
    if t.phase.status == 0 {
      forall id: nat | id < |jobs| ensures Begun(s, id) {
        assert Copies(t.collected, Some(id)) == 1;
        CopiesFound(t.collected, id);
        var i :| 0 <= i < |t.collected| && t.collected[i].id == id;
        assert Succeeded(t.collected[i]);
      }
    }
  }

  lemma BegunOrNot(run: seq<State>, jobs: seq<Job>, processors: nat, k: nat, id: nat)
    requires FreshJobs(jobs) && IsRun(run, jobs, processors) && id < |jobs|
    requires 0 < k < |run| && !run[k - 1].threadExit && run[k].threadExit
    ensures if Begun(run[k], id) then Unbroken(run[|run| - 1], id) else OnlyBreaks(run[|run| - 1], id)
  {
    hide OnlyBreaks, Unbroken, IsRun;
    InterruptChangesNothing(run, jobs, processors, k);
    if Begun(run[k], id) {
      NotInterrupted(run, jobs, processors, k - 1, |run| - 1, id);
    } else {
      NeverRun(run, jobs, processors, k, |run| - 1, id);
    }
  }
}
