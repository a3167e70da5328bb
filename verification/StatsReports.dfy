/** Which starts and finishes the statistics reports of a connection account for (src/probe/client.rs,
    `run_stats_loop`, and src/probe/stats.rs). */
module StatsReports {
  import opened Wrappers
  import opened StatusManagement
  import opened MeasurementDispatch
  import opened DispatchTheorems

  /** The step records a start. */
  predicate IsStart(s: State, step: Step) {
    step.Advance? && CanAdvance(s, step.id) && s.tasks[step.id].pc.Acked? && s.tasks[step.id].known
  }

  /** The step records a finish. */
  predicate IsFinish(s: State, step: Step) {
    step.Advance? && CanAdvance(s, step.id) && s.tasks[step.id].pc.Running?
  }

  /** How many of the first `k` steps record a start. */
  ghost function StartSteps(run: seq<State>, steps: seq<Step>, k: nat): nat
    requires k <= |steps| && |run| == |steps| + 1
  {
    if k == 0 then 0 else StartSteps(run, steps, k - 1) + if IsStart(run[k - 1], steps[k - 1]) then 1 else 0
  }

  ghost function FinishSteps(run: seq<State>, steps: seq<Step>, k: nat): nat
    requires k <= |steps| && |run| == |steps| + 1
  {
    if k == 0 then 0 else FinishSteps(run, steps, k - 1) + if IsFinish(run[k - 1], steps[k - 1]) then 1 else 0
  }

  /** The starts in reports whose emission failed. */
  function FailedStarts(trace: seq<Event>): nat {
    if trace == [] then 0
    else
      var e := trace[|trace| - 1];
      FailedStarts(trace[..|trace| - 1]) + if e.StatsReport? && !e.ok then e.starts else 0
  }

  function FailedFinishes(trace: seq<Event>): nat {
    if trace == [] then 0
    else
      var e := trace[|trace| - 1];
      FailedFinishes(trace[..|trace| - 1]) + if e.StatsReport? && !e.ok then e.finishes else 0
  }

  /** The starts that the API has been told of. */
  function DeliveredStarts(trace: seq<Event>): nat {
    if trace == [] then 0
    else
      var e := trace[|trace| - 1];
      DeliveredStarts(trace[..|trace| - 1]) + if e.StatsReport? && e.ok then e.starts else 0
  }

  function DeliveredFinishes(trace: seq<Event>): nat {
    if trace == [] then 0
    else
      var e := trace[|trace| - 1];
      DeliveredFinishes(trace[..|trace| - 1]) + if e.StatsReport? && e.ok then e.finishes else 0
  }

  lemma {:induction false} ReportsSucceedOrFail(trace: seq<Event>)
    ensures ReportedStarts(trace) == DeliveredStarts(trace) + FailedStarts(trace)
    ensures ReportedFinishes(trace) == DeliveredFinishes(trace) + FailedFinishes(trace)
  {
    if trace != [] { ReportsSucceedOrFail(trace[..|trace| - 1]); }
  }

  lemma {:induction false} AdvanceCounts(s: State, id: nat, emitOk: bool)
    requires CanAdvance(s, id)
    ensures var s' := AdvanceTask(s, id, emitOk);
            && s'.started == s.started + (if IsStart(s, Advance(id, emitOk)) then 1 else 0)
            && s'.finished == s.finished + (if IsFinish(s, Advance(id, emitOk)) then 1 else 0)
            && s'.flusher == s.flusher
  {
  }

  lemma {:induction false} CountAdvance(s: State, id: nat, emitOk: bool)
    requires CanAdvance(s, id)
    ensures var step := Advance(id, emitOk);
            && Starts(AdvanceTask(s, id, emitOk)) == Starts(s) + (if IsStart(s, step) then 1 else 0)
            && Finishes(AdvanceTask(s, id, emitOk)) == Finishes(s) + (if IsFinish(s, step) then 1 else 0)
  {
    NewEvent(s, Advance(id, emitOk));
    assert Next(s, Advance(id, emitOk)) == AdvanceTask(s, id, emitOk);
    AdvanceCounts(s, id, emitOk);
    hide AdvanceTask;
    hide Next;
    hide ReportedStarts;
    hide ReportedFinishes;
  }

  lemma {:induction false} CountStep(s: State, step: Step)
    requires Enabled(s, step)
    ensures Starts(Next(s, step)) == Starts(s) + if IsStart(s, step) then 1 else 0
    ensures Finishes(Next(s, step)) == Finishes(s) + if IsFinish(s, step) then 1 else 0
  {
    if step.Advance? {
      CountAdvance(s, step.id, step.emitOk);
      hide AdvanceTask;
      hide Starts;
      hide Finishes;
    } else {
      NewEvent(s, step);
      hide AdvanceTask;
      hide ReportedStarts;
      hide ReportedFinishes;
    }
  }

  /** Nothing is counted twice or forgotten: at every moment the reports, a `take` in progress and the
      counters together hold every start and every finish of the run. */
  lemma {:induction false} EveryStartIsCounted(capacity: nat, run: seq<State>, steps: seq<Step>, k: nat)
    requires IsRun(capacity, run, steps) && k <= |steps|
    ensures Starts(run[k]) == StartSteps(run, steps, k)
    ensures Finishes(run[k]) == FinishSteps(run, steps, k)
  {
    if k > 0 {
      EveryStartIsCounted(capacity, run, steps, k - 1);
      assert IsStep(run, steps, k - 1);
      hide Next;
      hide Starts;
      hide Finishes;
      CountStep(run[k - 1], steps[k - 1]);
    }
  }

  /** The API has been told of everything started, or finished, exactly when no report failed with
      some of it and nothing is left in the counters or in a `take`. */
  lemma {:induction false} ToldOfAllExactlyWhen(capacity: nat, run: seq<State>, steps: seq<Step>, k: nat)
    requires IsRun(capacity, run, steps) && k <= |steps|
    ensures DeliveredStarts(run[k].trace) == StartSteps(run, steps, k)
            <==> FailedStarts(run[k].trace) == HeldStarts(run[k].flusher) == run[k].started == 0
    ensures DeliveredFinishes(run[k].trace) == FinishSteps(run, steps, k)
            <==> FailedFinishes(run[k].trace) == HeldFinishes(run[k].flusher) == run[k].finished == 0
  {
    EveryStartIsCounted(capacity, run, steps, k);
    ReportsSucceedOrFail(run[k].trace);
    hide ReportedStarts;
    hide ReportedFinishes;
    hide DeliveredStarts;
    hide DeliveredFinishes;
    hide FailedStarts;
    hide FailedFinishes;
  }

  /** A step adds to the failed reports only if it is a report that fails. */
  lemma {:induction false} FailStep(s: State, step: Step)
    requires Enabled(s, step)
    ensures var t := Next(s, step).trace;
            var fails := step.EmitStats? && !step.ok;
            && FailedStarts(t) == FailedStarts(s.trace) + (if fails then s.flusher.s else 0)
            && FailedFinishes(t) == FailedFinishes(s.trace) + (if fails then s.flusher.f else 0)
  {
    var t := Next(s, step).trace;
    if step.Advance? { AdvanceEvent(s, step.id, step.emitOk); }
    hide AdvanceTask;
    if t != s.trace {
      assert t == s.trace + [t[|s.trace|]];
      FailedAppend(s.trace, t[|s.trace|]);
      hide FailedStarts;
      hide FailedFinishes;
    }
  }

  lemma {:induction false} FailedAppend(trace: seq<Event>, e: Event)
    ensures FailedStarts(trace + [e]) == FailedStarts(trace) + if e.StatsReport? && !e.ok then e.starts else 0
    ensures FailedFinishes(trace + [e]) == FailedFinishes(trace) + if e.StatsReport? && !e.ok then e.finishes else 0
  {
    assert (trace + [e])[..|trace|] == trace;
  }

  /** Steps of the flusher that empty the counters and report what was in them. */
  function FlushSteps(f: Flusher): nat {
    match f
    case Sleeping => 3
    case TookStarts(_) => 5
    case TookBoth(_, _) => 4
    case Ended(_, _) => 0
  }

  /** From every reachable state in which the flusher has not been aborted, at most five of its steps
      report everything that was started or finished so far, and none of these reports fails. */
  lemma {:induction false} FlusherCanReportAll(capacity: nat, run: seq<State>, steps: seq<Step>, s: State)
    returns (run': seq<State>, steps': seq<Step>, s': State)
    requires Extends(capacity, run, steps, s) && !s.aborted && !s.flusher.Ended?
    ensures Extends(capacity, run', steps', s') && s'.flusher.Sleeping? && s'.started == s'.finished == 0
    ensures ReportedStarts(s'.trace) == Starts(s) && ReportedFinishes(s'.trace) == Finishes(s)
    ensures FailedStarts(s'.trace) == FailedStarts(s.trace) && FailedFinishes(s'.trace) == FailedFinishes(s.trace)
    ensures |steps'| == |steps| + FlushSteps(s.flusher) <= |steps| + 5
    decreases FlushSteps(s.flusher)
  {
    if s.flusher.Sleeping? {
      run', steps', s' := FlushOnce(capacity, run, steps, s);
    } else {
      var step := if s.flusher.TookStarts? then SwapFinishes else EmitStats(true);
      CountStep(s, step);
      FailStep(s, step);
      hide Starts;
      hide Finishes;
      hide FailedStarts;
      hide FailedFinishes;
      hide Extends;
      var run1, steps1, s1 := OneMore(capacity, run, steps, s, step);
      run', steps', s' := FlusherCanReportAll(capacity, run1, steps1, s1);
    }
  }

  lemma {:induction false} FlushOnce(capacity: nat, run: seq<State>, steps: seq<Step>, s: State)
    returns (run': seq<State>, steps': seq<Step>, s': State)
    requires Extends(capacity, run, steps, s) && !s.aborted && s.flusher.Sleeping?
    ensures Extends(capacity, run', steps', s') && s'.flusher.Sleeping? && s'.started == s'.finished == 0
    ensures ReportedStarts(s'.trace) == Starts(s) && ReportedFinishes(s'.trace) == Finishes(s)
    ensures FailedStarts(s'.trace) == FailedStarts(s.trace) && FailedFinishes(s'.trace) == FailedFinishes(s.trace)
    ensures |steps'| == |steps| + 3
  {
    hide Extends;
    hide AdvanceTask;
    CountStep(s, SwapStarts);
    FailStep(s, SwapStarts);
    run', steps', s' := OneMore(capacity, run, steps, s, SwapStarts);
    CountStep(s', SwapFinishes);
    FailStep(s', SwapFinishes);
    run', steps', s' := OneMore(capacity, run', steps', s', SwapFinishes);
    CountStep(s', EmitStats(true));
    FailStep(s', EmitStats(true));
    run', steps', s' := OneMore(capacity, run', steps', s', EmitStats(true));
    hide Next;
    hide ReportedStarts;
    hide ReportedFinishes;
    hide FailedStarts;
    hide FailedFinishes;
  }

  // ---- After the abort ----

  lemma {:induction false} EndedStep(s: State, step: Step)
    requires Enabled(s, step) && s.flusher.Ended?
    ensures var s' := Next(s, step);
            && s'.flusher == s.flusher && s'.started >= s.started && s'.finished >= s.finished
            && ReportedStarts(s'.trace) == ReportedStarts(s.trace)
            && ReportedFinishes(s'.trace) == ReportedFinishes(s.trace)
  {
    NewEvent(s, step);
    if step.Advance? { AdvanceCounts(s, step.id, step.emitOk); }
    hide AdvanceTask;
    hide ReportedStarts;
    hide ReportedFinishes;
  }

  /** Once the flusher has ended, what it holds and what the counters hold is lost: nothing more is
      reported, whatever happens later. */
  lemma {:induction false} EndIsFinal(capacity: nat, run: seq<State>, steps: seq<Step>, k: nat, m: nat)
    requires IsRun(capacity, run, steps) && k <= m <= |steps| && run[k].flusher.Ended?
    ensures run[m].flusher == run[k].flusher
    ensures run[m].started >= run[k].started && run[m].finished >= run[k].finished
    ensures ReportedStarts(run[m].trace) == ReportedStarts(run[k].trace)
    ensures ReportedFinishes(run[m].trace) == ReportedFinishes(run[k].trace)
  {
    if k < m {
      EndIsFinal(capacity, run, steps, k, m - 1);
      assert IsStep(run, steps, m - 1);
      hide Next;
      hide ReportedStarts;
      hide ReportedFinishes;
      EndedStep(run[m - 1], steps[m - 1]);
    }
  }

  /** Hence at the close of a connection whose flusher has ended, the starts that no report will ever
      name are those it took and did not send and those in the counter: none exactly if both are 0. */
  lemma {:induction false} ReportedForGoodExactlyWhen(capacity: nat, run: seq<State>, steps: seq<Step>,
                                                      k: nat, m: nat)
    requires IsRun(capacity, run, steps) && k <= m <= |steps| && run[k].flusher.Ended?
    ensures StartSteps(run, steps, k) == ReportedStarts(run[m].trace) + run[k].flusher.s + run[k].started
    ensures FinishSteps(run, steps, k) == ReportedFinishes(run[m].trace) + run[k].flusher.f + run[k].finished
    ensures StartSteps(run, steps, k) == ReportedStarts(run[m].trace)
            <==> HeldStarts(run[k].flusher) == run[k].started == 0
    ensures FinishSteps(run, steps, k) == ReportedFinishes(run[m].trace)
            <==> HeldFinishes(run[k].flusher) == run[k].finished == 0
  {
    EveryStartIsCounted(capacity, run, steps, k);
    EndIsFinal(capacity, run, steps, k, m);
    hide ReportedStarts;
    hide ReportedFinishes;
  }

  /** Nothing reported yet, and the first task's acknowledgements and results so far. */
  ghost predicate Unreported(s: State, acks: nat, results: nat) {
    && ReportedStarts(s.trace) == ReportedFinishes(s.trace) == 0
    && Acks(s.trace, 0) == acks && Results(s.trace, 0) == results
  }

  /** One more step, not of a task. */
  lemma {:induction false} OneMoreOther(run: seq<State>, steps: seq<Step>, s: State, step: Step,
                                        acks: nat, results: nat)
    returns (run': seq<State>, steps': seq<Step>, s': State)
    requires Extends(3, run, steps, s) && Enabled(s, step) && !step.EmitStats? && !step.Advance?
    requires Unreported(s, acks, results)
    ensures s' == Next(s, step) && Extends(3, run', steps', s') && Unreported(s', acks, results)
  {
    NewEvent(s, step);
    OtherEvent(s, step, 0);
    hide Extends;
    hide Next;
    hide Enabled;
    run', steps', s' := OneMore(3, run, steps, s, step);
  }

  /** The results that the next step of a task sends. */
  function ResultsSent(t: Task): nat { if t.pc.Ran? || (t.pc.Acked? && !t.known) then 1 else 0 }

  lemma {:induction false} TaskStillUnreported(s: State, acks: nat, results: nat)
    requires CanAdvance(s, 0) && Unreported(s, acks, results)
    ensures Unreported(AdvanceTask(s, 0, true),
                       acks + (if s.tasks[0].pc.Cleared? then 1 else 0), results + ResultsSent(s.tasks[0]))
  {
    var s' := AdvanceTask(s, 0, true);
    NewEvent(s, Advance(0, true));
    assert Next(s, Advance(0, true)) == s';
    AdvanceEvent(s, 0, true);
    hide AdvanceTask;
    hide Acks;
    hide Results;
    hide ReportedStarts;
    hide ReportedFinishes;
    if s'.trace != s.trace { CountsAppend(s.trace, s'.trace[|s.trace|], 0); }
  }

  /** One more step of the first task. */
  lemma {:induction false} OneMoreOfTask(run: seq<State>, steps: seq<Step>, s: State, acks: nat, results: nat)
    returns (run': seq<State>, steps': seq<Step>, s': State)
    requires Extends(3, run, steps, s) && CanAdvance(s, 0) && Unreported(s, acks, results)
    ensures s' == AdvanceTask(s, 0, true) && Extends(3, run', steps', s')
    ensures Unreported(s', acks + (if s.tasks[0].pc.Cleared? then 1 else 0), results + ResultsSent(s.tasks[0]))
  {
    TaskStillUnreported(s, acks, results);
    assert Next(s, Advance(0, true)) == AdvanceTask(s, 0, true);
    assert Enabled(s, Advance(0, true));
    hide *;
    run', steps', s' := OneMore(3, run, steps, s, Advance(0, true));
  }

  /** A request arrives. */
  lemma {:induction false} SpawnOne() returns (run: seq<State>, steps: seq<Step>, s: State)
    ensures Extends(3, run, steps, s) && Unreported(s, 0, 0)
    ensures s == Init(3).(flags := Flags(Some(false), Some(false), false, false), tasks := [Task(Spawned, true)])
  {
    run, steps, s := [Init(3)], [], Init(3);
    assert Extends(3, run, steps, s) && Unreported(s, 0, 0);
    hide Extends;
    hide Unreported;
    hide AdvanceTask;
    run, steps, s := OneMoreOther(run, steps, s, ChangeStatus(Flags(Some(false), Some(false), false, false)), 0, 0);
    run, steps, s := OneMoreOther(run, steps, s, Spawn(true), 0, 0);
  }

  /** It is accepted and its measurement runs. */
  lemma {:induction false} RunOne() returns (run: seq<State>, steps: seq<Step>, s: State)
    ensures Extends(3, run, steps, s) && Unreported(s, 1, 0)
    ensures s.main == Serving && !s.aborted && s.flusher.Sleeping? && s.capacity == 3 && s.free == 2
    ensures s.started == 1 && s.finished == 0 && s.tasks == [Task(Running, true)]
    ensures s.drainHeld == 0 && !s.drained
  {
    run, steps, s := SpawnOne();
    hide Extends;
    hide Unreported;
    run, steps, s := OneMoreOfTask(run, steps, s, 0, 0);
    run, steps, s := OneMoreOfTask(run, steps, s, 0, 0);
    run, steps, s := OneMoreOfTask(run, steps, s, 0, 0);
    run, steps, s := OneMoreOfTask(run, steps, s, 1, 0);
  }

  /** It finishes and is answered. */
  lemma {:induction false} ServeOne() returns (run: seq<State>, steps: seq<Step>, s: State)
    ensures Extends(3, run, steps, s) && Unreported(s, 1, 1)
    ensures s.main == Serving && !s.aborted && s.flusher.Sleeping? && s.capacity == s.free == 3
    ensures s.started == s.finished == 1 && s.drainHeld == 0 && !s.drained
  {
    run, steps, s := RunOne();
    hide Extends;
    hide Unreported;
    run, steps, s := OneMoreOfTask(run, steps, s, 1, 0);
    run, steps, s := OneMoreOfTask(run, steps, s, 1, 0);
    run, steps, s := OneMoreOfTask(run, steps, s, 1, 1);
  }

  /** The connection is shut down before the first report, */
  lemma {:induction false} StopUnreported(run: seq<State>, steps: seq<Step>, s: State)
    returns (run': seq<State>, steps': seq<Step>, s': State)
    requires Extends(3, run, steps, s) && Unreported(s, 1, 1)
    requires s.main == Serving && s.flusher.Sleeping? && s.capacity == s.free == 3
    ensures Extends(3, run', steps', s') && Unreported(s', 1, 1)
    ensures s'.main == Terminated && s'.flusher == Ended(0, 0) && s'.capacity == s'.free == 3
    ensures s'.started == s.started && s'.finished == s.finished
  {
    hide Extends;
    hide Unreported;
    hide AdvanceTask;
    run', steps', s' := OneMoreOther(run, steps, s, ShutdownSignal, 1, 1);
    run', steps', s' := OneMoreOther(run', steps', s', EndFlusher, 1, 1);
    run', steps', s' := OneMoreOther(run', steps', s', SetSigterm, 1, 1);
  }

  /** and closes with nothing in flight. */
  lemma {:induction false} CloseUnreported(run: seq<State>, steps: seq<Step>, s: State)
    returns (run': seq<State>, steps': seq<Step>, s': State)
    requires Extends(3, run, steps, s) && Unreported(s, 1, 1)
    requires s.main == Terminated && s.capacity == s.free == 3
    ensures Extends(3, run', steps', s') && Unreported(s', 1, 1)
    ensures s'.main == Closed && s'.drained && s'.flusher == s.flusher
    ensures s'.started == s.started && s'.finished == s.finished
  {
    hide Extends;
    hide Unreported;
    hide AdvanceTask;
    run', steps', s' := OneMoreOther(run, steps, s, Announce, 1, 1);
    run', steps', s' := OneMoreOther(run', steps', s', ReadInFlight, 1, 1);
    run', steps', s' := OneMoreOther(run', steps', s', CloseSocket, 1, 1);
  }

  ghost predicate LosesCounts(run: seq<State>, steps: seq<Step>, s: State) {
    && Extends(3, run, steps, s) && |run| == |steps| + 1
    && s.main == Closed && s.drained && s.flusher.Ended?
    && Acks(s.trace, 0) == Results(s.trace, 0) == 1
    && StartSteps(run, steps, |steps|) == FinishSteps(run, steps, |steps|) == 1
    && ReportedStarts(s.trace) == ReportedFinishes(s.trace) == 0
  }

  /** A connection that is shut down before the first report: its one measurement has been answered
      and its slot returned, and no report ever names it. */
  lemma {:induction false} CloseCanLoseCounts()
    ensures exists run: seq<State>, steps: seq<Step>, s: State :: LosesCounts(run, steps, s)
  {
    var r, p, s := ServeOne();
    r, p, s := StopUnreported(r, p, s);
    r, p, s := CloseUnreported(r, p, s);
    EveryStartIsCounted(3, r, p, |p|);
    assert LosesCounts(r, p, s);
  }

  ghost predicate FailsToTell(run: seq<State>, steps: seq<Step>, s: State) {
    && Extends(3, run, steps, s) && |run| == |steps| + 1 && s.main == Serving
    && HeldStarts(s.flusher) == s.started == HeldFinishes(s.flusher) == s.finished == 0
    && StartSteps(run, steps, |steps|) == FinishSteps(run, steps, |steps|) == 1
    && FailedStarts(s.trace) == FailedFinishes(s.trace) == 1
  }

  /** A report whose emission fails is not repeated: here the measurement is counted nowhere any more,
      on a connection that goes on. */
  lemma {:induction false} FailedReportLosesCounts()
    ensures exists run: seq<State>, steps: seq<Step>, s: State :: FailsToTell(run, steps, s)
  {
    var r, p, s := ServeOne();
    r, p, s := FailReport(r, p, s);
    EveryStartIsCounted(3, r, p, |p|);
    assert FailsToTell(r, p, s);
  }

  lemma {:induction false} FailReport(run: seq<State>, steps: seq<Step>, s: State)
    returns (run': seq<State>, steps': seq<Step>, s': State)
    requires Extends(3, run, steps, s) && Unreported(s, 1, 1)
    requires s.main == Serving && !s.aborted && s.flusher.Sleeping? && s.started == s.finished == 1
    ensures Extends(3, run', steps', s') && s'.main == Serving && s'.flusher.Sleeping?
    ensures s'.started == s'.finished == 0 && FailedStarts(s'.trace) == FailedFinishes(s'.trace) == 1
    ensures Starts(s') == Finishes(s') == 1
  {
    assert Starts(s) == Finishes(s) == 1;
    ReportsSucceedOrFail(s.trace);
    hide Extends;
    hide AdvanceTask;
    hide Starts;
    hide Finishes;
    hide FailedStarts;
    hide FailedFinishes;
    FailStep(s, SwapStarts);
    CountStep(s, SwapStarts);
    run', steps', s' := OneMore(3, run, steps, s, SwapStarts);
    FailStep(s', SwapFinishes);
    CountStep(s', SwapFinishes);
    run', steps', s' := OneMore(3, run', steps', s', SwapFinishes);
    FailStep(s', EmitStats(false));
    CountStep(s', EmitStats(false));
    run', steps', s' := OneMore(3, run', steps', s', EmitStats(false));
  }
}
