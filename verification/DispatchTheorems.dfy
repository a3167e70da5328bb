/** Statements about every run of a connection: admission, statistics and graceful shutdown. */
module DispatchTheorems {
  import opened Wrappers
  import opened Sums
  import opened StatusManagement
  import opened MeasurementDispatch

  // ---- Graceful shutdown ----

  /** If the drain completed, or nothing was in flight, then by the disconnect an acknowledged
      measurement has had exactly one result emission, unless it panicked: then it has had none. No
      acknowledgement and no result follows, and without acknowledgement there is no result. */
  lemma {:induction false} DrainedMeansAnswered(capacity: nat, run: seq<State>, steps: seq<Step>,
                                                k: nat, d: nat, id: nat)
    requires IsRun(capacity, run, steps) && k < |run| && run[k].drained
    requires d < |run[k].trace| && run[k].trace[d] == Disconnect
    ensures var trace := run[k].trace;
            && Acks(trace[..d], id) == Results(trace[..d], id) + (if PcOf(run[k], id).Unwound? then 1 else 0) <= 1
            && Acks(trace, id) == Acks(trace[..d], id)
            && Results(trace, id) == Results(trace[..d], id)
  {
    var s := run[k];
    RunsKeepInv(capacity, run, steps, k);
    assert HistoryMatches(s, id) && QuietSince(s.trace, d, id);
    assert id < |s.tasks| ==> WorkWeight(s.tasks[id].pc) == 0;
  }

  ghost predicate EveryoneAnswered(s: State) {
    forall id: nat :: Answered(s.trace, id)
  }

  predicate Answered(trace: seq<Event>, id: nat) { Acks(trace, id) == Results(trace, id) }

  /** Hence the promise of the graceful shutdown is kept for all measurements of a connection exactly
      when none of them panicked. */
  lemma {:induction false} EveryoneAnsweredExactlyWhen(capacity: nat, run: seq<State>, steps: seq<Step>, k: nat)
    requires IsRun(capacity, run, steps) && k < |run| && run[k].drained
    ensures EveryoneAnswered(run[k]) <==> UnwoundTasks(run[k]) == 0
  {
    var s := run[k];
    RunsKeepInv(capacity, run, steps, k);
    forall id: nat
      ensures Answered(s.trace, id) <==> !PcOf(s, id).Unwound?
    {
      assert HistoryMatches(s, id);
      assert id < |s.tasks| ==> WorkWeight(s.tasks[id].pc) == 0;
    }
    hide Answered;
    if UnwoundTasks(s) == 0 {
      forall id: nat
        ensures Answered(s.trace, id)
      {
        if id < |s.tasks| { TaskSumMember(s.tasks, id, UnwoundWeight); }
      }
    } else {
      var id := SomeUnwound(s.tasks);
      assert PcOf(s, id).Unwound?;
    }
  }

  lemma {:induction false} SomeUnwound(tasks: seq<Task>) returns (id: nat)
    requires TaskSum(tasks, UnwoundWeight) > 0
    ensures id < |tasks| && tasks[id].pc.Unwound?
  {
    var n := |tasks| - 1;
    if tasks[n].pc.Unwound? { id := n; } else { id := SomeUnwound(tasks[..n]); }
  }

  /** In every reachable state an acknowledged measurement lacks its result exactly while its task
      is between the acknowledgement and the emission, or for good once it has panicked. */
  lemma {:induction false} ResultMissingExactlyWhile(capacity: nat, run: seq<State>, steps: seq<Step>, k: nat, id: nat)
    requires IsRun(capacity, run, steps) && k < |run|
    ensures Acks(run[k].trace, id) > Results(run[k].trace, id)
            <==> Unanswered(PcOf(run[k], id)) || PcOf(run[k], id).Unwound?
    ensures Results(run[k].trace, id) <= Acks(run[k].trace, id) <= 1
  {
    RunsKeepInv(capacity, run, steps, k);
    assert HistoryMatches(run[k], id);
  }

  /** No task that reads the status after the sigterm flag went up is ever acknowledged, nor is an
      acknowledgement attempted. */
  lemma {:induction false} NoAckAfterSigterm(capacity: nat, run: seq<State>, steps: seq<Step>, k: nat, i: nat, j: nat)
    requires IsRun(capacity, run, steps) && k < |run| && i < j < |run[k].trace|
    requires run[k].trace[i].SigtermFlag? && run[k].trace[j].StatusRead?
    ensures AckAttempts(run[k].trace, run[k].trace[j].id) == 0
    ensures Acks(run[k].trace, run[k].trace[j].id) == 0
  {
    var id := run[k].trace[j].id;
    RunsKeepInv(capacity, run, steps, k);
    assert ReadLate(run[k].trace, id);
    assert LateReaderLeaves(run[k], id) && HistoryMatches(run[k], id);
  }

  // ---- Acknowledged only when ready ----

  ghost predicate ReadReadyBefore(trace: seq<Event>, j: nat)
    requires j < |trace| && trace[j].Ack?
  {
    exists i :: 0 <= i < j && trace[i] == StatusRead(trace[j].id, Ready)
  }

  /** Every acknowledgement attempt follows a read of Ready by its task, and a task about to make one
      has read it. */
  ghost predicate ReadyFirst(s: State) {
    && (forall j: nat :: j < |s.trace| && s.trace[j].Ack? ==> ReadReadyBefore(s.trace, j))
    && (forall id: nat :: PcOf(s, id).Cleared? ==> StatusRead(id, Ready) in s.trace)
  }

  lemma {:induction false} ReadyFirstAppend(trace: seq<Event>, e: Event)
    requires forall j: nat :: j < |trace| && trace[j].Ack? ==> ReadReadyBefore(trace, j)
    requires e.Ack? ==> StatusRead(e.id, Ready) in trace
    ensures forall j: nat :: j < |trace + [e]| && (trace + [e])[j].Ack? ==> ReadReadyBefore(trace + [e], j)
  {
    var t := trace + [e];
    forall j: nat | j < |t| && t[j].Ack?
      ensures ReadReadyBefore(t, j)
    {
      if j < |trace| {
        assert t[j] == trace[j] && ReadReadyBefore(trace, j);
        var i :| 0 <= i < j && trace[i] == StatusRead(trace[j].id, Ready);
        assert t[i] == trace[i];
      } else {
        var i :| 0 <= i < |trace| && trace[i] == StatusRead(e.id, Ready);
        assert t[i] == trace[i];
      }
    }
  }

  lemma {:induction false} ReadyFirstAdvance(s: State, id: nat, emitOk: bool)
    requires ReadyFirst(s) && CanAdvance(s, id)
    ensures ReadyFirst(AdvanceTask(s, id, emitOk))
  {
    AdvanceFrame(s, id, emitOk);
    AdvanceEvent(s, id, emitOk);
    var s' := AdvanceTask(s, id, emitOk);
    hide AdvanceTask;
    hide ReadReadyBefore;
    assert PcOf(s, id) == s.tasks[id].pc;
    if s'.trace != s.trace {
      assert s'.trace == s.trace + [s'.trace[|s.trace|]];
      ReadyFirstAppend(s.trace, s'.trace[|s.trace|]);
    }
    assert forall other: nat :: other != id ==> PcOf(s', other) == PcOf(s, other);
  }

  lemma {:induction false} ReadyFirstStep(s: State, step: Step)
    requires ReadyFirst(s) && Enabled(s, step)
    ensures ReadyFirst(Next(s, step))
  {
    if step.Advance? {
      ReadyFirstAdvance(s, step.id, step.emitOk);
    } else {
      var s' := Next(s, step);
      hide AdvanceTask;
      hide ReadReadyBefore;
      if s'.trace != s.trace {
        assert s'.trace == s.trace + [s'.trace[|s.trace|]];
        ReadyFirstAppend(s.trace, s'.trace[|s.trace|]);
      }
      assert forall id: nat :: PcOf(s', id).Cleared? ==> PcOf(s, id).Cleared?;
    }
  }

  /** Only a task that has read the status as Ready attempts an acknowledgement. */
  lemma {:induction false} AckFollowsReady(capacity: nat, run: seq<State>, steps: seq<Step>, k: nat)
    requires IsRun(capacity, run, steps) && k < |run|
    ensures ReadyFirst(run[k])
  {
    if k > 0 {
      AckFollowsReady(capacity, run, steps, k - 1);
      assert IsStep(run, steps, k - 1);
      hide Next;
      hide ReadyFirst;
      ReadyFirstStep(run[k - 1], steps[k - 1]);
    }
  }

  // ---- After sigterm ----

  /** After the sigterm flag, the remaining work of accepted tasks never grows, and it shrinks with
      every step of an accepted task. */
  lemma {:induction false} WorkShrinks(s: State, step: Step)
    requires Inv(s) && s.flags.sigterm && Enabled(s, step)
    ensures RemainingWork(Next(s, step)) <= RemainingWork(s)
    ensures IsAcceptedStep(s, step) ==> RemainingWork(Next(s, step)) < RemainingWork(s)
    ensures Next(s, step).flags.sigterm
  {
    hide Inv;
    match step
    case Spawn(known) =>
      TaskSumSpawn(s.tasks, Task(Spawned, known), WorkWeight);
    case Advance(id, emitOk) =>
      WorkAdvance(s, id, emitOk);
      hide AdvanceTask;
      hide RemainingWork;
    case Unwind(id) =>
      hide AdvanceTask;
      TaskSumMove(s.tasks, id, s.tasks[id].(pc := Unwound), WorkWeight);
    case _ =>
      hide AdvanceTask;
      hide TaskSum;
  }

  lemma {:induction false} WorkAdvance(s: State, id: nat, emitOk: bool)
    requires CanAdvance(s, id) && s.flags.sigterm
    ensures var s' := AdvanceTask(s, id, emitOk);
            && RemainingWork(s') <= RemainingWork(s)
            && (WorkWeight(s.tasks[id].pc) > 0 ==> RemainingWork(s') < RemainingWork(s))
            && s'.flags == s.flags
  {
    AdvanceEffect(s, id, emitOk);
    AdvanceEvent(s, id, emitOk);
    var t := AdvanceTask(s, id, emitOk).tasks[id];
    hide AdvanceTask;
    TaskSumMove(s.tasks, id, t, WorkWeight);
  }

  predicate IsAcceptedStep(s: State, step: Step) {
    (step.Advance? || step.Unwind?) && step.id < |s.tasks| && WorkWeight(s.tasks[step.id].pc) > 0
  }

  /** How many of the steps from `k` to `m` are steps of accepted tasks. */
  ghost function AcceptedSteps(run: seq<State>, steps: seq<Step>, k: nat, m: nat): nat
    requires k <= m <= |steps| && |run| == |steps| + 1
  {
    if k == m then 0
    else AcceptedSteps(run, steps, k, m - 1) + if IsAcceptedStep(run[m - 1], steps[m - 1]) then 1 else 0
  }

  /** Hence accepted tasks finish: after the sigterm flag they take at most four steps for each slot,
      in any run of any length. */
  lemma {:induction false} AcceptedTasksFinish(capacity: nat, run: seq<State>, steps: seq<Step>, k: nat, m: nat)
    requires IsRun(capacity, run, steps) && k <= m <= |steps| && run[k].flags.sigterm
    ensures run[m].flags.sigterm
    ensures AcceptedSteps(run, steps, k, m) + RemainingWork(run[m]) <= RemainingWork(run[k]) <= 4 * capacity
  {
    if k == m {
      RunsKeepInv(capacity, run, steps, k);
      WorkIsBounded(run[k]);
    } else {
      hide Inv;
      hide TaskSum;
      hide Next;
      hide RemainingWork;
      hide IsAcceptedStep;
      AcceptedTasksFinish(capacity, run, steps, k, m - 1);
      RunsKeepInv(capacity, run, steps, m - 1);
      assert IsStep(run, steps, m - 1);
      WorkShrinks(run[m - 1], steps[m - 1]);
    }
  }

  function FourPerSlot(pc: Pc): nat { 4 * SlotWeight(pc) }

  lemma {:induction false} FourTimesSlots(tasks: seq<Task>)
    ensures TaskSum(tasks, FourPerSlot) == 4 * TaskSum(tasks, SlotWeight)
  {
    if tasks != [] { FourTimesSlots(tasks[..|tasks| - 1]); }
  }

  lemma {:induction false} WorkIsBounded(s: State)
    requires PermitsConserved(s)
    ensures RemainingWork(s) <= 4 * s.capacity
  {
    TaskSumBound(s.tasks, WorkWeight, FourPerSlot);
    FourTimesSlots(s.tasks);
  }

  // ---- Completing the drain ----

  /** Steps a slot holder has left when the status is Sigterm. */
  function LeaveWeight(pc: Pc): nat {
    match pc
    case Holding => 2
    case Cleared => 5
    case Acked => 4
    case Running => 3
    case Ran => 2
    case Leaving => 1
    case _ => 0
  }

  function FivePerSlot(pc: Pc): nat { 5 * SlotWeight(pc) }

  lemma {:induction false} FiveTimesSlots(tasks: seq<Task>)
    ensures TaskSum(tasks, FivePerSlot) == 5 * TaskSum(tasks, SlotWeight)
  {
    if tasks != [] { FiveTimesSlots(tasks[..|tasks| - 1]); }
  }

  lemma {:induction false} LeavingIsBounded(s: State)
    requires PermitsConserved(s)
    ensures TaskSum(s.tasks, LeaveWeight) <= 5 * s.capacity
  {
    TaskSumBound(s.tasks, LeaveWeight, FivePerSlot);
    FiveTimesSlots(s.tasks);
  }

  lemma {:induction false} SomeHolder(tasks: seq<Task>) returns (id: nat)
    requires TaskSum(tasks, LeaveWeight) > 0
    ensures id < |tasks| && LeaveWeight(tasks[id].pc) > 0
  {
    var n := |tasks| - 1;
    if LeaveWeight(tasks[n].pc) > 0 { id := n; } else { id := SomeHolder(tasks[..n]); }
  }

  /** Under Sigterm every step of a slot holder brings it closer to leaving. */
  lemma {:induction false} HolderLeaves(s: State, id: nat, emitOk: bool)
    requires id < |s.tasks| && LeaveWeight(s.tasks[id].pc) > 0 && s.flags.sigterm
    ensures var s' := Next(s, Advance(id, emitOk));
            && TaskSum(s'.tasks, LeaveWeight) < TaskSum(s.tasks, LeaveWeight)
            && s'.main == s.main && s'.flags == s.flags && s'.drained == s.drained
  {
    AdvanceEffect(s, id, emitOk);
    AdvanceEvent(s, id, emitOk);
    var t := AdvanceTask(s, id, emitOk).tasks[id];
    hide AdvanceTask;
    TaskSumMove(s.tasks, id, t, LeaveWeight);
  }

  /** The steps that a drain waits for: of tasks, none of which panics, and of the drain itself. */
  predicate IsDrainStep(step: Step, emitOk: bool) {
    (step.Advance? && step.emitOk == emitOk) || step.CollectPermits? || step.DrainComplete?
  }

  /** `run'` continues `run`; `emitOk` decides for every further step whether an emission in it
      succeeds. */
  ghost predicate Continues(run: seq<State>, steps: seq<Step>, run': seq<State>, steps': seq<Step>,
                            emitOk: nat -> bool)
  {
    run <= run' && steps <= steps' && forall j: nat :: |steps| <= j < |steps'| ==> IsDrainStep(steps'[j], emitOk(j))
  }

  /** From every reachable state of a drain, whatever the slot holders are doing and whichever of their
      emissions succeed, at most five steps for each slot empty all slots, and two more complete the
      drain. */
  lemma {:induction false} DrainCanComplete(capacity: nat, run: seq<State>, steps: seq<Step>, s: State,
                                            emitOk: nat -> bool)
    returns (run': seq<State>, steps': seq<Step>, s': State)
    requires Extends(capacity, run, steps, s) && s.main == Draining
    ensures Extends(capacity, run', steps', s') && Continues(run, steps, run', steps', emitOk)
    ensures s'.drained && s'.main == Closing && SlotHolders(s') == 0 && NoAcceptedWork(s')
    ensures |steps'| <= |steps| + TaskSum(s.tasks, LeaveWeight) + 2 <= |steps| + 5 * capacity + 2
    decreases TaskSum(s.tasks, LeaveWeight)
  {
    RunsKeepInv(capacity, run, steps, |run| - 1);
    LeavingIsBounded(s);
    if TaskSum(s.tasks, LeaveWeight) > 0 {
      var id := SomeHolder(s.tasks);
      var step := Advance(id, emitOk(|steps|));
      HolderLeaves(s, id, emitOk(|steps|));
      hide *;
      var run1, steps1, s1 := OneMore(capacity, run, steps, s, step);
      run', steps', s' := DrainCanComplete(capacity, run1, steps1, s1, emitOk);
      ContinuesAfter(run, steps, s1, id, run', steps', emitOk);
    } else {
      SlotsAreFree(s.tasks);
      run', steps', s' := FinishDrain(capacity, run, steps, s, emitOk);
    }
  }

  lemma {:induction false} ContinuesAfter(run: seq<State>, steps: seq<Step>, s: State, id: nat,
                                          run': seq<State>, steps': seq<Step>, emitOk: nat -> bool)
    requires Continues(run + [s], steps + [Advance(id, emitOk(|steps|))], run', steps', emitOk)
    ensures Continues(run, steps, run', steps', emitOk)
  {
    var step := Advance(id, emitOk(|steps|));
    assert run' == run + [s] + run'[|run| + 1..];
    assert steps' == steps + [step] + steps'[|steps| + 1..];
  }

  lemma {:induction false} SlotsAreFree(tasks: seq<Task>)
    requires TaskSum(tasks, LeaveWeight) == 0
    ensures TaskSum(tasks, SlotWeight) == 0
  {
    if tasks != [] { SlotsAreFree(tasks[..|tasks| - 1]); }
  }

  lemma {:induction false} FinishDrain(capacity: nat, run: seq<State>, steps: seq<Step>, s: State,
                                       emitOk: nat -> bool)
    returns (run': seq<State>, steps': seq<Step>, s': State)
    requires Extends(capacity, run, steps, s) && s.main == Draining && SlotHolders(s) == 0
    ensures Extends(capacity, run', steps', s') && Continues(run, steps, run', steps', emitOk)
    ensures s'.drained && s'.main == Closing && SlotHolders(s') == 0 && NoAcceptedWork(s')
    ensures |steps'| == |steps| + 2
  {
    RunsKeepInv(capacity, run, steps, |run| - 1);
    hide TaskSum;
    hide Inv;
    hide IsRun;
    var run1, steps1, s1 := OneMore(capacity, run, steps, s, CollectPermits(s.free));
    run', steps', s' := OneMore(capacity, run1, steps1, s1, DrainComplete);
    NoHoldersNoWork(s');
  }

  /** And not before: a drain completes only once no task holds a slot. */
  lemma {:induction false} DrainCompletesOnlyWhenIdle(capacity: nat, run: seq<State>, steps: seq<Step>, k: nat)
    requires IsRun(capacity, run, steps) && k < |steps| && steps[k] == DrainComplete
    ensures SlotHolders(run[k]) == 0 && SlotHolders(run[k + 1]) == 0
  {
    RunsKeepInv(capacity, run, steps, k);
    assert IsStep(run, steps, k);
    hide TaskSum;
  }

  // ---- Admission and statistics ----

  /** Never more than `capacity` tasks hold a slot, and `in_flight()` counts exactly the held slots
      and the permits that the drain has collected. */
  lemma {:induction false} AdmissionIsBounded(capacity: nat, run: seq<State>, steps: seq<Step>, k: nat)
    requires IsRun(capacity, run, steps) && k < |run|
    ensures run[k].free + SlotHolders(run[k]) + run[k].drainHeld == capacity
    ensures InFlight(run[k]) == SlotHolders(run[k]) + run[k].drainHeld <= capacity
  {
    RunsKeepInv(capacity, run, steps, k);
    hide TaskSum;
  }

  /** A request gets a slot on its first step exactly when fewer than `capacity` permits are in use,
      held by tasks or collected by the drain; otherwise it ends at once and leaves no trace. */
  lemma {:induction false} AdmittedExactlyWhen(capacity: nat, run: seq<State>, steps: seq<Step>, k: nat,
                                               id: nat, emitOk: bool)
    requires IsRun(capacity, run, steps) && k < |run| && id < |run[k].tasks| && run[k].tasks[id].pc.Spawned?
    ensures var s := run[k];
            var s' := Next(s, Advance(id, emitOk));
            var inUse := SlotHolders(s) + s.drainHeld;
            && Enabled(s, Advance(id, emitOk)) && s'.trace == s.trace
            && (s'.tasks[id].pc == Holding <==> inUse < capacity)
            && (s'.tasks[id].pc == Gone <==> inUse == capacity)
            && InFlight(s') == Min(inUse + 1, capacity)
  {
    RunsKeepInv(capacity, run, steps, k);
    hide TaskSum;
  }

  lemma {:induction false} OpenMeansRunningOrUnwound(tasks: seq<Task>)
    ensures TaskSum(tasks, OpenWeight) == TaskSum(tasks, RunningWeight) + TaskSum(tasks, UnwoundWeight)
  {
    if tasks != [] { OpenMeansRunningOrUnwound(tasks[..|tasks| - 1]); }
  }

  function Starts(s: State): nat { ReportedStarts(s.trace) + HeldStarts(s.flusher) + s.started }
  function Finishes(s: State): nat { ReportedFinishes(s.trace) + HeldFinishes(s.flusher) + s.finished }

  /** Counting what was reported, what a `take` in progress holds and what is in the counters, starts
      exceed finishes by the number of measurements running, which is at most the capacity, and those
      that ever panicked, even between the two swaps of a `take`. */
  lemma {:induction false} StatsBalance(capacity: nat, run: seq<State>, steps: seq<Step>, k: nat)
    requires IsRun(capacity, run, steps) && k < |run|
    ensures Starts(run[k]) == Finishes(run[k]) + RunningTasks(run[k]) + UnwoundTasks(run[k])
    ensures RunningTasks(run[k]) <= capacity
  {
    RunsKeepInv(capacity, run, steps, k);
    TaskSumBound(run[k].tasks, RunningWeight, SlotWeight);
    OpenMeansRunningOrUnwound(run[k].tasks);
    hide TaskSum;
  }

  // ---- Without a completed drain ----

  ghost predicate Extends(capacity: nat, run: seq<State>, steps: seq<Step>, s: State) {
    IsRun(capacity, run, steps) && run[|run| - 1] == s
  }

  lemma {:induction false} OneMore(capacity: nat, run: seq<State>, steps: seq<Step>, s: State, step: Step)
    returns (run': seq<State>, steps': seq<Step>, s': State)
    requires Extends(capacity, run, steps, s) && Enabled(s, step)
    ensures s' == Next(s, step) && Extends(capacity, run', steps', s')
    ensures run' == run + [s'] && steps' == steps + [step]
  {
    s' := Next(s, step);
    run', steps' := run + [s'], steps + [step];
    hide Next;
    forall k: nat | k < |steps'|
      ensures IsStep(run', steps', k)
    {
      if k < |steps| { assert IsStep(run, steps, k); }
    }
  }

  /** When the drain times out the promise fails: here a task is acknowledged and running, the drain
      is given up, and the connection closes without its result. */
  lemma {:induction false} TimeoutCanLoseAResult()
    ensures exists run: seq<State>, steps: seq<Step>, s: State ::
              && Extends(3, run, steps, s) && s.main == Closed && !s.drained && DrainTimeout in steps
              && Acks(s.trace, 0) == 1 && Results(s.trace, 0) == 0
  {
    var ready := Flags(Some(false), Some(false), false, false);
    var r, p, s := [Init(3)], [], Init(3);
    assert Extends(3, r, p, s);
    hide Extends;
    r, p, s := OneMore(3, r, p, s, ChangeStatus(ready));
    r, p, s := OneMore(3, r, p, s, Spawn(true));
    r, p, s := OneMore(3, r, p, s, Advance(0, true));
    r, p, s := OneMore(3, r, p, s, Advance(0, true));
    r, p, s := OneMore(3, r, p, s, Advance(0, true));
    r, p, s := OneMore(3, r, p, s, Advance(0, true));
    assert s.tasks[0].pc == Running && s.free == 2 && s.main == Serving && !s.drained;
    hide AdvanceTask;
    r, p, s := GiveUpDrain(r, p, s);
    RunningLacksResult(r, p, s);
  }

  lemma {:induction false} RunningLacksResult(run: seq<State>, steps: seq<Step>, s: State)
    requires Extends(3, run, steps, s) && s.tasks != [] && s.tasks[0].pc == Running
    ensures Acks(s.trace, 0) == 1 && Results(s.trace, 0) == 0
  {
    RunsKeepInv(3, run, steps, |run| - 1);
    assert HistoryMatches(s, 0);
  }

  /** The shutdown sequence with the drain given up. */
  lemma {:induction false} GiveUpDrain(run: seq<State>, steps: seq<Step>, s: State)
    returns (run': seq<State>, steps': seq<Step>, s': State)
    requires Extends(3, run, steps, s) && s.main == Serving && s.free < 3 && s.capacity == 3 && !s.drained
    ensures Extends(3, run', steps', s') && s'.main == Closed && !s'.drained && s'.tasks == s.tasks
    ensures DrainTimeout in steps'
  {
    run', steps', s' := OneMore(3, run, steps, s, ShutdownSignal);
    run', steps', s' := OneMore(3, run', steps', s', SetSigterm);
    run', steps', s' := OneMore(3, run', steps', s', Announce);
    run', steps', s' := OneMore(3, run', steps', s', ReadInFlight);
    run', steps', s' := OneMore(3, run', steps', s', DrainTimeout);
    run', steps', s' := OneMore(3, run', steps', s', CloseSocket);
  }

  // ---- Measurements that panic ----

  /** A connection that serves with a free slot and a ready status, after `lost` panics. */
  ghost predicate Idle(s: State, lost: nat) {
    && s.main == Serving && !s.drained && s.free == s.capacity == 3 && s.flags.GetStatus() == Ready
    && UnwoundTasks(s) == lost && RunningTasks(s) == 0
  }

  /** A request is accepted and its measurement panics: its slot is free again. */
  lemma {:induction false} AcceptAndPanic(run: seq<State>, steps: seq<Step>, s: State, lost: nat)
    returns (run': seq<State>, steps': seq<Step>, s': State)
    requires Extends(3, run, steps, s) && Idle(s, lost)
    ensures Extends(3, run', steps', s') && Idle(s', lost + 1)
    ensures |s'.tasks| == |s.tasks| + 1 && s'.tasks[|s.tasks|].pc == Unwound
  {
    var id := |s.tasks|;
    hide Extends;
    hide TaskSum;
    run', steps', s' := OneMore(3, run, steps, s, Spawn(true));
    run', steps', s' := OneMore(3, run', steps', s', Advance(id, true));
    run', steps', s' := OneMore(3, run', steps', s', Advance(id, true));
    run', steps', s' := OneMore(3, run', steps', s', Advance(id, true));
    run', steps', s' := OneMore(3, run', steps', s', Advance(id, true));
    assert s'.tasks == s.tasks + [Task(Running, true)];
    run', steps', s' := OneMore(3, run', steps', s', Unwind(id));
    assert s'.tasks == s.tasks + [Task(Unwound, true)];
    TaskSumSpawn(s.tasks, Task(Unwound, true), UnwoundWeight);
    TaskSumSpawn(s.tasks, Task(Unwound, true), RunningWeight);
  }

  lemma {:induction false} IdleAtStart() returns (run: seq<State>, steps: seq<Step>, s: State)
    ensures Extends(3, run, steps, s) && Idle(s, 0) && s.tasks == []
  {
    run, steps, s := [Init(3)], [], Init(3);
    assert Extends(3, run, steps, s);
    run, steps, s := OneMore(3, run, steps, s, ChangeStatus(Flags(Some(false), Some(false), false, false)));
  }

  /** A panicking measurement is never answered, although the drain finds nothing in flight. */
  lemma {:induction false} PanicLosesAResult()
    ensures exists run: seq<State>, steps: seq<Step>, s: State ::
              && Extends(3, run, steps, s) && s.main == Closed && s.drained
              && Acks(s.trace, 0) == 1 && Results(s.trace, 0) == 0
  {
    var r, p, s := IdleAtStart();
    r, p, s := AcceptAndPanic(r, p, s, 0);
    var tasks := s.tasks;
    hide TaskSum;
    r, p, s := OneMore(3, r, p, s, ShutdownSignal);
    r, p, s := OneMore(3, r, p, s, SetSigterm);
    r, p, s := OneMore(3, r, p, s, Announce);
    r, p, s := OneMore(3, r, p, s, ReadInFlight);
    r, p, s := OneMore(3, r, p, s, CloseSocket);
    assert s.tasks == tasks;
    RunsKeepInv(3, r, p, |r| - 1);
    assert HistoryMatches(s, 0);
  }

  /** The gap between starts and finishes has no bound: any number of panics leaves it that wide with
      nothing running. */
  lemma {:induction false} PanicsWidenTheGap(n: nat) returns (run: seq<State>, steps: seq<Step>, s: State)
    ensures Extends(3, run, steps, s) && Idle(s, n)
    ensures Starts(s) == Finishes(s) + n
  {
    if n == 0 {
      run, steps, s := IdleAtStart();
    } else {
      run, steps, s := PanicsWidenTheGap(n - 1);
      run, steps, s := AcceptAndPanic(run, steps, s, n - 1);
    }
    StatsBalance(3, run, steps, |run| - 1);
  }
}
