/** The end of a connection (src/probe/client.rs, `connect_once`, from the select on): in which order it
    goes, and that a clean shutdown waits. */
module Shutdown {
  import opened Wrappers
  import opened StatusManagement
  import opened MeasurementDispatch
  import opened DispatchTheorems

  // ---- The wait ----

  /** One of the first `k` steps was a lost connection or the end of the drain's patience. */
  ghost predicate CutShort(steps: seq<Step>, k: nat)
    requires k <= |steps|
  {
    exists j :: 0 <= j < k && (steps[j].OutcomeSignalled? || steps[j].DrainTimeout?)
  }

  lemma {:induction false} MainMoves(s: State, step: Step)
    requires Enabled(s, step)
    ensures Next(s, step).main == s.main || !step.Advance?
    ensures var s' := Next(s, step);
            (s'.main == Closing || s'.main == Closed) && !s'.drained ==>
              step.OutcomeSignalled? || step.DrainTimeout?
              || ((s.main == Closing || s.main == Closed) && !s.drained)
  {
    if step.Advance? { AdvanceFrame(s, step.id, step.emitOk); }
    hide AdvanceTask;
  }

  /** Over every run: a connection is closed without a completed drain only after it was lost or the
      drain timed out. A shutdown with measurements in flight does not close it sooner. */
  lemma {:induction false} ClosesOnlyAfter(capacity: nat, run: seq<State>, steps: seq<Step>, k: nat)
    requires IsRun(capacity, run, steps) && k <= |steps|
    requires (run[k].main == Closing || run[k].main == Closed) && !run[k].drained
    ensures CutShort(steps, k)
  {
    if k > 0 {
      assert IsStep(run, steps, k - 1);
      MainMoves(run[k - 1], steps[k - 1]);
      hide Next;
      if steps[k - 1].OutcomeSignalled? || steps[k - 1].DrainTimeout? {
      } else {
        ClosesOnlyAfter(capacity, run, steps, k - 1);
      }
    }
  }

  /** The steps of a clean shutdown: its own, and those of tasks, none of which panics. */
  predicate IsShutdownStep(step: Step) {
    step.SetSigterm? || step.Announce? || step.ReadInFlight?
    || step.Advance? || step.CollectPermits? || step.DrainComplete?
  }

  ghost predicate GoesOn(run: seq<State>, steps: seq<Step>, run': seq<State>, steps': seq<Step>) {
    run <= run' && steps <= steps' && forall j :: |steps| <= j < |steps'| ==> IsShutdownStep(steps'[j])
  }

  lemma {:induction false} GoesOnAfter(run: seq<State>, steps: seq<Step>, s: State, step: Step,
                                       run': seq<State>, steps': seq<Step>)
    requires IsShutdownStep(step) && GoesOn(run + [s], steps + [step], run', steps')
    ensures GoesOn(run, steps, run', steps')
  {
    assert run' == run + [s] + run'[|run| + 1..];
    assert steps' == steps + [step] + steps'[|steps| + 1..];
  }

  lemma {:induction false} ContinuesMeansGoesOn(run: seq<State>, steps: seq<Step>,
                                                run': seq<State>, steps': seq<Step>, emitOk: nat -> bool)
    requires Continues(run, steps, run', steps', emitOk)
    ensures GoesOn(run, steps, run', steps')
  {
  }

  /** Steps of the shutdown before the drain. */
  function Ahead(m: Main): nat {
    match m
    case ShuttingDown => 3
    case Terminated => 2
    case Announced => 1
    case _ => 0
  }

  predicate InShutdown(m: Main) {
    m == ShuttingDown || m == Terminated || m == Announced || m == Draining
  }

  /** From every reachable state of a clean shutdown, whatever the tasks are doing and whichever of
      their emissions succeed, a bounded continuation completes the drain: it neither times out nor
      loses a measurement. */
  lemma {:induction false} ShutdownCanDrain(capacity: nat, run: seq<State>, steps: seq<Step>, s: State,
                                            emitOk: nat -> bool)
    returns (run': seq<State>, steps': seq<Step>, s': State)
    requires Extends(capacity, run, steps, s) && InShutdown(s.main)
    ensures Extends(capacity, run', steps', s') && GoesOn(run, steps, run', steps')
    ensures s'.drained && s'.main == Closing && NoAcceptedWork(s')
    ensures |steps'| <= |steps| + 5 * capacity + 2 + Ahead(s.main) <= |steps| + 5 * capacity + 5
    decreases Ahead(s.main)
  {
    if s.main == Draining {
      run', steps', s' := DrainCanComplete(capacity, run, steps, s, emitOk);
      ContinuesMeansGoesOn(run, steps, run', steps', emitOk);
    } else {
      var step := if s.main == ShuttingDown then SetSigterm
                  else if s.main == Terminated then Announce else ReadInFlight;
      var run1, steps1, s1 := OneMore(capacity, run, steps, s, step);
      if s1.main == Closing {
        run', steps', s' := run1, steps1, s1;
        RunsKeepInv(capacity, run1, steps1, |run1| - 1);
      } else {
        run', steps', s' := ShutdownCanDrain(capacity, run1, steps1, s1, emitOk);
      }
      hide *;
      GoesOnAfter(run, steps, s1, step, run', steps');
    }
  }

  // ---- The order ----

  /** What the connection itself tells: the flag, the announcement, the end. */
  function Farewell(trace: seq<Event>): seq<Event> {
    if trace == [] then []
    else
      var e := trace[|trace| - 1];
      Farewell(trace[..|trace| - 1]) + if e.SigtermFlag? || e.StatusUpdate? || e.Disconnect? then [e] else []
  }

  lemma {:induction false} FarewellAppend(trace: seq<Event>, e: Event)
    ensures Farewell(trace + [e]) ==
            Farewell(trace) + if e.SigtermFlag? || e.StatusUpdate? || e.Disconnect? then [e] else []
  {
    assert (trace + [e])[..|trace|] == trace;
  }

  /** How far the farewell has come; `lost` connections say nothing but the end. */
  ghost predicate InOrder(s: State) {
    var f := Farewell(s.trace);
    match s.main
    case Serving => f == []
    case ShuttingDown => f == []
    case Terminated => f == [SigtermFlag]
    case Announced => f == [SigtermFlag, StatusUpdate]
    case Draining => f == [SigtermFlag, StatusUpdate]
    case Closing => f == if s.flags.sigterm then [SigtermFlag, StatusUpdate] else []
    case Closed => f == (if s.flags.sigterm then [SigtermFlag, StatusUpdate] else []) + [Disconnect]
  }

  lemma {:induction false} OrderAdvance(s: State, id: nat, emitOk: bool)
    requires InOrder(s) && CanAdvance(s, id)
    ensures InOrder(AdvanceTask(s, id, emitOk))
  {
    AdvanceFrame(s, id, emitOk);
    AdvanceEvent(s, id, emitOk);
    var s' := AdvanceTask(s, id, emitOk);
    hide AdvanceTask;
    hide Farewell;
    if s'.trace != s.trace {
      assert s'.trace == s.trace + [s'.trace[|s.trace|]];
      FarewellAppend(s.trace, s'.trace[|s.trace|]);
    }
  }

  lemma {:induction false} OrderOther(s: State, step: Step)
    requires InOrder(s) && Enabled(s, step) && !step.Advance?
    requires s.main == Serving || s.main == ShuttingDown ==> !s.flags.sigterm
    requires s.main == Terminated || s.main == Announced || s.main == Draining ==> s.flags.sigterm
    ensures InOrder(Next(s, step))
  {
    hide AdvanceTask;
    hide Farewell;
    match step
    case SetSigterm => FarewellAppend(s.trace, SigtermFlag);
    case Announce => FarewellAppend(s.trace, StatusUpdate);
    case CloseSocket => FarewellAppend(s.trace, Disconnect);
    case EmitStats(ok) => FarewellAppend(s.trace, StatsReport(s.flusher.s, s.flusher.f, ok));
    case _ =>
  }

  lemma {:induction false} OrderStep(s: State, step: Step)
    requires InOrder(s) && Inv(s) && Enabled(s, step)
    ensures InOrder(Next(s, step))
  {
    SigtermByMain(s);
    hide Inv;
    hide InOrder;
    if step.Advance? {
      OrderAdvance(s, step.id, step.emitOk);
      hide AdvanceTask;
    } else {
      hide Next;
      OrderOther(s, step);
    }
  }

  lemma {:induction false} SigtermByMain(s: State)
    requires Inv(s)
    ensures s.main == Serving || s.main == ShuttingDown ==> !s.flags.sigterm
    ensures s.main == Terminated || s.main == Announced || s.main == Draining ==> s.flags.sigterm
  {
  }

  /** Over every run: a clean shutdown raises the flag, then announces it, then disconnects, each once;
      a lost connection only disconnects. */
  lemma {:induction false} FarewellIsInOrder(capacity: nat, run: seq<State>, steps: seq<Step>, k: nat)
    requires IsRun(capacity, run, steps) && k < |run|
    ensures InOrder(run[k])
  {
    if k == 0 {
      assert InOrder(Init(capacity));
    } else {
      FarewellIsInOrder(capacity, run, steps, k - 1);
      RunsKeepInv(capacity, run, steps, k - 1);
      assert IsStep(run, steps, k - 1);
      assert run[k] == Next(run[k - 1], steps[k - 1]);
      hide *;
      OrderStep(run[k - 1], steps[k - 1]);
    }
  }

  /** A lost connection closes in two steps, from every serving state, with its tasks where they are
      and without the flag. */
  lemma {:induction false} LostConnectionCloses(capacity: nat, run: seq<State>, steps: seq<Step>, s: State)
    returns (run': seq<State>, steps': seq<Step>, s': State)
    requires Extends(capacity, run, steps, s) && s.main == Serving
    ensures Extends(capacity, run', steps', s') && run <= run' && steps <= steps' && |steps'| == |steps| + 2
    ensures s'.main == Closed && !s'.drained && s'.tasks == s.tasks && !s'.flags.sigterm && s'.aborted
  {
    RunsKeepInv(capacity, run, steps, |run| - 1);
    assert !s.flags.sigterm && !s.drained;
    hide Inv;
    hide Extends;
    hide AdvanceTask;
    run', steps', s' := OneMore(capacity, run, steps, s, OutcomeSignalled);
    run', steps', s' := OneMore(capacity, run', steps', s', CloseSocket);
  }
}
