/** One connection as a transition system (src/probe/client.rs): any number of `dispatch` tasks, the
    statistics flusher, status changes, and the shutdown sequence of `connect_once`, interleaved at
    every await point and every atomic operation. */
module MeasurementDispatch {
  import opened Wrappers
  import opened StatusManagement

  /** Where a dispatch task is. A task holds a slot from `Holding` to `Leaving`. */
  datatype Pc =
    | Spawned   // about to try for a slot
    | Holding   // has a slot, about to read the status
    | Cleared   // saw Ready, about to acknowledge
    | Acked     // acknowledged, about to start
    | Running   // start recorded, measurement running
    | Ran       // finish recorded, about to send the result
    | Leaving   // returning, slot about to be dropped
    | Gone
    | Unwound   // the measurement panicked: slot dropped, no finish recorded, nothing sent

  /** `known` says whether the measurement type has a command. */
  datatype Task = Task(pc: Pc, known: bool)

  /** The statistics flusher between and inside its `take`, and after it has been aborted: then it
      keeps what it took and did not send. */
  datatype Flusher = Sleeping | TookStarts(s: nat) | TookBoth(s: nat, f: nat) | Ended(s: nat, f: nat)

  /** Where `connect_once` is. */
  datatype Main = Serving | ShuttingDown | Terminated | Announced | Draining | Closing | Closed

  datatype Event =
    | StatusRead(id: nat, status: ProbeStatus)
    | Ack(id: nat, ok: bool)
    | Result(id: nat, ok: bool)
    | StatsReport(starts: nat, finishes: nat, ok: bool)
    | SigtermFlag
    | StatusUpdate
    | Disconnect

  datatype State = State(
    tasks: seq<Task>, free: nat, capacity: nat,
    flags: Flags,
    started: nat, finished: nat, flusher: Flusher, aborted: bool,
    main: Main, drainHeld: nat, drained: bool,
    trace: seq<Event>)

  datatype Step =
    | Spawn(known: bool)
    | Advance(id: nat, emitOk: bool)    // one step of task `id`
    | Unwind(id: nat)                   // the measurement of task `id` panics
    | ChangeStatus(flags: Flags)        // any change but the sigterm flag
    | SwapStarts | SwapFinishes | EmitStats(ok: bool) | EndFlusher
    | ShutdownSignal | OutcomeSignalled
    | SetSigterm | Announce | ReadInFlight
    | CollectPermits(n: nat) | DrainComplete | DrainTimeout
    | CloseSocket

  function Init(capacity: nat): State {
    State([], capacity, capacity, Flags(None, None, false, false),
          0, 0, Sleeping, false, Serving, 0, false, [])
  }

  predicate CanAdvance(s: State, id: nat) {
    id < |s.tasks| && s.tasks[id].pc != Gone && s.tasks[id].pc != Unwound
  }

  predicate Enabled(s: State, step: Step) {
    match step
    case Spawn(_) => true
    case Advance(id, _) => CanAdvance(s, id)
    case Unwind(id) => id < |s.tasks| && s.tasks[id].pc == Running
    case ChangeStatus(flags) => flags.sigterm == s.flags.sigterm
    case SwapStarts => s.flusher.Sleeping?       // even if aborted: an abort waits for the next yield
    case SwapFinishes => s.flusher.TookStarts?   // no await point between the two swaps
    case EmitStats(_) => s.flusher.TookBoth?
    case EndFlusher => s.aborted && (s.flusher.Sleeping? || s.flusher.TookBoth?)
    case ShutdownSignal => s.main == Serving
    case OutcomeSignalled => s.main == Serving
    case SetSigterm => s.main == ShuttingDown
    case Announce => s.main == Terminated
    case ReadInFlight => s.main == Announced
    case CollectPermits(n) => s.main == Draining && n <= s.free
    case DrainComplete => s.main == Draining && s.drainHeld == s.capacity
    case DrainTimeout => s.main == Draining
    case CloseSocket => s.main == Closing
  }

  /** `in_flight()`. */
  function InFlight(s: State): nat { SaturatingSub(s.capacity, s.free) }

  function Move(s: State, id: nat, pc: Pc): State
    requires id < |s.tasks|
  {
    s.(tasks := s.tasks[id := s.tasks[id].(pc := pc)])
  }

  function Log(s: State, e: Event): State { s.(trace := s.trace + [e]) }

  /** One step of `dispatch`. */
  function AdvanceTask(s: State, id: nat, emitOk: bool): State
    requires CanAdvance(s, id)
  {
    match s.tasks[id].pc
    case Spawned => if s.free > 0 then Move(s, id, Holding).(free := s.free - 1) else Move(s, id, Gone)
    case Holding =>
      var st := s.flags.GetStatus();
      Log(Move(s, id, if st == Ready then Cleared else Leaving), StatusRead(id, st))
    case Cleared => Log(Move(s, id, if emitOk then Acked else Leaving), Ack(id, emitOk))
    case Acked =>
      if s.tasks[id].known then Move(s, id, Running).(started := s.started + 1)
      else Log(Move(s, id, Leaving), Result(id, emitOk))
    case Running => Move(s, id, Ran).(finished := s.finished + 1)
    case Ran => Log(Move(s, id, Leaving), Result(id, emitOk))
    case Leaving => Move(s, id, Gone).(free := s.free + 1)
  }

  function Next(s: State, step: Step): State
    requires Enabled(s, step)
  {
    match step
    case Spawn(known) => s.(tasks := s.tasks + [Task(Spawned, known)])
    case Advance(id, emitOk) => AdvanceTask(s, id, emitOk)
    case Unwind(id) => Move(s, id, Unwound).(free := s.free + 1)
    case ChangeStatus(flags) => s.(flags := flags)
    case SwapStarts => s.(flusher := TookStarts(s.started), started := 0)
    case SwapFinishes => s.(flusher := TookBoth(s.flusher.s, s.finished), finished := 0)
    case EmitStats(ok) =>
      Log(s.(flusher := if s.aborted then Ended(0, 0) else Sleeping), StatsReport(s.flusher.s, s.flusher.f, ok))
    case EndFlusher => s.(flusher := Ended(HeldStarts(s.flusher), HeldFinishes(s.flusher)))
    case ShutdownSignal => s.(main := ShuttingDown, aborted := true)
    case OutcomeSignalled => s.(main := Closing, aborted := true)
    case SetSigterm => Log(s.(main := Terminated, flags := s.flags.(sigterm := true)), SigtermFlag)
    case Announce => Log(s.(main := Announced), StatusUpdate)
    case ReadInFlight =>
      if InFlight(s) > 0 then s.(main := Draining) else s.(main := Closing, drained := true)
    case CollectPermits(n) => s.(free := s.free - n, drainHeld := s.drainHeld + n)
    case DrainComplete => s.(main := Closing, drained := true, free := s.free + s.drainHeld, drainHeld := 0)
    case DrainTimeout => s.(main := Closing, free := s.free + s.drainHeld, drainHeld := 0)
    case CloseSocket => Log(s.(main := Closed), Disconnect)
  }

  ghost predicate IsStep(run: seq<State>, steps: seq<Step>, k: nat)
    requires k < |steps| && |run| == |steps| + 1
  {
    Enabled(run[k], steps[k]) && run[k + 1] == Next(run[k], steps[k])
  }

  /** The states of a run. */
  ghost predicate IsRun(capacity: nat, run: seq<State>, steps: seq<Step>) {
    && |run| == |steps| + 1 && run[0] == Init(capacity)
    && forall k: nat :: k < |steps| ==> IsStep(run, steps, k)
  }

  // ---- Sums over tasks ----

  function TaskSum(tasks: seq<Task>, weight: Pc -> nat): nat {
    if tasks == [] then 0
    else TaskSum(tasks[..|tasks| - 1], weight) + weight(tasks[|tasks| - 1].pc)
  }

  function SlotWeight(pc: Pc): nat { if pc.Spawned? || pc.Gone? || pc.Unwound? then 0 else 1 }
  function RunningWeight(pc: Pc): nat { if pc.Running? then 1 else 0 }
  function UnwoundWeight(pc: Pc): nat { if pc.Unwound? then 1 else 0 }

  /** Started and not recorded as finished: running, or unwound. */
  function OpenWeight(pc: Pc): nat { RunningWeight(pc) + UnwoundWeight(pc) }

  /** Steps an accepted task still has to take before its result is out. */
  function WorkWeight(pc: Pc): nat {
    match pc
    case Cleared => 4
    case Acked => 3
    case Running => 2
    case Ran => 1
    case _ => 0
  }

  function SlotHolders(s: State): nat { TaskSum(s.tasks, SlotWeight) }
  function RunningTasks(s: State): nat { TaskSum(s.tasks, RunningWeight) }
  function UnwoundTasks(s: State): nat { TaskSum(s.tasks, UnwoundWeight) }
  function OpenTasks(s: State): nat { TaskSum(s.tasks, OpenWeight) }
  function RemainingWork(s: State): nat { TaskSum(s.tasks, WorkWeight) }

  lemma {:induction false} TaskSumMove(tasks: seq<Task>, id: nat, t: Task, weight: Pc -> nat)
    requires id < |tasks|
    ensures TaskSum(tasks[id := t], weight) + weight(tasks[id].pc) == TaskSum(tasks, weight) + weight(t.pc)
  {
    var n := |tasks| - 1;
    if id < n {
      TaskSumMove(tasks[..n], id, t, weight);
      assert tasks[id := t][..n] == tasks[..n][id := t];
    } else {
      assert tasks[id := t][..n] == tasks[..n];
    }
  }

  lemma {:induction false} TaskSumSpawn(tasks: seq<Task>, t: Task, weight: Pc -> nat)
    ensures TaskSum(tasks + [t], weight) == TaskSum(tasks, weight) + weight(t.pc)
  {
    assert (tasks + [t])[..|tasks|] == tasks;
  }

  lemma {:induction false} TaskSumBound(tasks: seq<Task>, w: Pc -> nat, v: Pc -> nat)
    requires forall pc :: w(pc) <= v(pc)
    ensures TaskSum(tasks, w) <= TaskSum(tasks, v)
  {
    if tasks != [] { TaskSumBound(tasks[..|tasks| - 1], w, v); }
  }

  lemma {:induction false} TaskSumMember(tasks: seq<Task>, id: nat, w: Pc -> nat)
    requires id < |tasks|
    ensures w(tasks[id].pc) <= TaskSum(tasks, w)
  {
    if id < |tasks| - 1 { TaskSumMember(tasks[..|tasks| - 1], id, w); }
  }

  // ---- Counts over the trace ----

  function Acks(trace: seq<Event>, id: nat): nat {
    if trace == [] then 0
    else Acks(trace[..|trace| - 1], id) + if trace[|trace| - 1] == Ack(id, true) then 1 else 0
  }

  function AckAttempts(trace: seq<Event>, id: nat): nat {
    if trace == [] then 0
    else
      var e := trace[|trace| - 1];
      AckAttempts(trace[..|trace| - 1], id) + if e.Ack? && e.id == id then 1 else 0
  }

  function Results(trace: seq<Event>, id: nat): nat {
    if trace == [] then 0
    else
      var e := trace[|trace| - 1];
      Results(trace[..|trace| - 1], id) + if e.Result? && e.id == id then 1 else 0
  }

  function ReportedStarts(trace: seq<Event>): nat {
    if trace == [] then 0
    else
      var e := trace[|trace| - 1];
      ReportedStarts(trace[..|trace| - 1]) + if e.StatsReport? then e.starts else 0
  }

  function ReportedFinishes(trace: seq<Event>): nat {
    if trace == [] then 0
    else
      var e := trace[|trace| - 1];
      ReportedFinishes(trace[..|trace| - 1]) + if e.StatsReport? then e.finishes else 0
  }

  /** Task `id` read the status after the sigterm flag was set. */
  ghost predicate ReadLate(trace: seq<Event>, id: nat) {
    exists i, j :: 0 <= i < j < |trace| && trace[i].SigtermFlag? && trace[j].StatusRead? && trace[j].id == id
  }

  lemma {:induction false} CountsAppend(trace: seq<Event>, e: Event, id: nat)
    ensures Acks(trace + [e], id) == Acks(trace, id) + if e == Ack(id, true) then 1 else 0
    ensures AckAttempts(trace + [e], id) == AckAttempts(trace, id) + if e.Ack? && e.id == id then 1 else 0
    ensures Results(trace + [e], id) == Results(trace, id) + if e.Result? && e.id == id then 1 else 0
  {
    assert (trace + [e])[..|trace|] == trace;
  }

  lemma {:induction false} ReportsAppend(trace: seq<Event>, e: Event)
    ensures ReportedStarts(trace + [e]) == ReportedStarts(trace) + if e.StatsReport? then e.starts else 0
    ensures ReportedFinishes(trace + [e]) == ReportedFinishes(trace) + if e.StatsReport? then e.finishes else 0
  {
    assert (trace + [e])[..|trace|] == trace;
  }

  // ---- Invariants ----

  /** Free permits, slots and permits collected by the drain make up the capacity. */
  ghost predicate PermitsConserved(s: State) {
    && s.free + SlotHolders(s) + s.drainHeld == s.capacity
    && (s.drainHeld > 0 ==> s.main == Draining)
  }

  function HeldStarts(f: Flusher): nat { if f.Sleeping? then 0 else f.s }
  function HeldFinishes(f: Flusher): nat { if f.TookBoth? || f.Ended? then f.f else 0 }

  /** Starts less finishes, whether reported, held by a `take` in progress or still counted, are the
      measurements running and those that unwound. */
  ghost predicate StatsConserved(s: State) {
    ReportedStarts(s.trace) + HeldStarts(s.flusher) + s.started
    == ReportedFinishes(s.trace) + HeldFinishes(s.flusher) + s.finished + OpenTasks(s)
  }

  function PcOf(s: State, id: nat): Pc { if id < |s.tasks| then s.tasks[id].pc else Spawned }

  predicate Unanswered(pc: Pc) { pc.Acked? || pc.Running? || pc.Ran? }

  /** What the trace tells about a task agrees with where the task is. */
  ghost predicate HistoryMatches(s: State, id: nat) {
    var pc := PcOf(s, id);
    var acks, attempts, results := Acks(s.trace, id), AckAttempts(s.trace, id), Results(s.trace, id);
    && acks <= attempts <= 1
    && (pc.Spawned? || pc.Holding? || pc.Cleared? ==> attempts == 0 && results == 0)
    && (Unanswered(pc) || pc.Unwound? ==> acks == 1 && results == 0)
    && (pc.Leaving? || pc.Gone? ==> results == acks)
  }

  ghost predicate Histories(s: State) {
    forall id: nat :: HistoryMatches(s, id)
  }

  ghost predicate LateReaderLeaves(s: State, id: nat) {
    ReadLate(s.trace, id) ==> (PcOf(s, id).Leaving? || PcOf(s, id).Gone?) && AckAttempts(s.trace, id) == 0
  }

  /** The sigterm flag is up exactly since its event, and every task that read the status since then
      is on its way out without an acknowledgement. */
  ghost predicate SigtermRespected(s: State) {
    && (s.flags.sigterm <==> SigtermFlag in s.trace)
    && (s.main == Serving || s.main == ShuttingDown ==> !s.flags.sigterm)
    && forall id: nat :: LateReaderLeaves(s, id)
  }

  ghost predicate NoAcceptedWork(s: State) {
    forall id: nat :: id < |s.tasks| ==> WorkWeight(s.tasks[id].pc) == 0
  }

  /** Once the drain has completed, nothing accepted is left and nothing will be accepted. */
  ghost predicate DrainHolds(s: State) {
    && (s.main == Terminated || s.main == Announced || s.main == Draining || s.drained ==> s.flags.sigterm)
    && (s.drained ==> NoAcceptedWork(s) && (s.main == Closing || s.main == Closed))
  }

  ghost predicate QuietSince(trace: seq<Event>, d: nat, id: nat)
    requires d <= |trace|
  {
    Acks(trace[..d], id) == Acks(trace, id) && Results(trace[..d], id) == Results(trace, id)
  }

  ghost predicate QuietSinceDisconnect(trace: seq<Event>) {
    forall d: nat, id: nat :: d < |trace| && trace[d].Disconnect? ==> QuietSince(trace, d, id)
  }

  /** No acknowledgement or result follows the end of a drained connection. */
  ghost predicate QuietAfterClose(s: State) {
    && (Disconnect in s.trace <==> s.main == Closed)
    && (s.drained ==> QuietSinceDisconnect(s.trace))
  }

  ghost predicate Inv(s: State) {
    && PermitsConserved(s) && StatsConserved(s) && Histories(s)
    && SigtermRespected(s) && DrainHolds(s) && QuietAfterClose(s)
  }

  // ---- Preservation ----

  /** What one step of a task leaves alone. */
  lemma {:induction false} AdvanceFrame(s: State, id: nat, emitOk: bool)
    requires CanAdvance(s, id)
    ensures var s' := AdvanceTask(s, id, emitOk);
            && |s'.tasks| == |s.tasks|
            && s'.tasks == s.tasks[id := Task(s'.tasks[id].pc, s.tasks[id].known)]
            && s' == s.(tasks := s'.tasks, free := s'.free, started := s'.started,
                        finished := s'.finished, trace := s'.trace)
  {
    match s.tasks[id].pc
    case Spawned =>
    case Holding =>
    case Cleared =>
    case Acked =>
    case Running =>
    case Ran =>
    case Leaving =>
  }

  /** What one step of a task does to everything but the trace. */
  lemma {:induction false} AdvanceEffect(s: State, id: nat, emitOk: bool)
    requires CanAdvance(s, id)
    ensures var s' := AdvanceTask(s, id, emitOk);
            var pc, pc' := s.tasks[id].pc, s'.tasks[id].pc;
            && s'.tasks == s.tasks[id := Task(pc', s.tasks[id].known)]
            && s'.free + SlotWeight(pc') == s.free + SlotWeight(pc)
            && s'.started + s.finished + OpenWeight(pc) == s.started + s'.finished + OpenWeight(pc')
            && s' == s.(tasks := s'.tasks, free := s'.free, started := s'.started,
                        finished := s'.finished, trace := s'.trace)
  {
    AdvanceFrame(s, id, emitOk);
    AdvanceCounters(s, id, emitOk);
    hide AdvanceTask;
  }

  lemma {:induction false} AdvanceCounters(s: State, id: nat, emitOk: bool)
    requires CanAdvance(s, id)
    ensures var s' := AdvanceTask(s, id, emitOk);
            && |s'.tasks| == |s.tasks|
            && s'.free + SlotWeight(s'.tasks[id].pc) == s.free + SlotWeight(s.tasks[id].pc)
            && s'.started + s.finished + OpenWeight(s.tasks[id].pc)
               == s.started + s'.finished + OpenWeight(s'.tasks[id].pc)
  {
  }

  /** What one step of a task adds to the trace. */
  lemma {:induction false} AdvanceEvent(s: State, id: nat, emitOk: bool)
    requires CanAdvance(s, id)
    ensures var s' := AdvanceTask(s, id, emitOk);
            var pc, pc' := s.tasks[id].pc, s'.tasks[id].pc;
            match pc
            case Spawned => s'.trace == s.trace && (pc' == Holding || pc' == Gone)
            case Holding =>
              && s'.trace == s.trace + [StatusRead(id, s.flags.GetStatus())]
              && pc' == if s.flags.GetStatus() == Ready then Cleared else Leaving
            case Cleared => s'.trace == s.trace + [Ack(id, emitOk)] && pc' == if emitOk then Acked else Leaving
            case Acked =>
              if s.tasks[id].known then s'.trace == s.trace && pc' == Running
              else s'.trace == s.trace + [Result(id, emitOk)] && pc' == Leaving
            case Running => s'.trace == s.trace && pc' == Ran
            case Ran => s'.trace == s.trace + [Result(id, emitOk)] && pc' == Leaving
            case Leaving => s'.trace == s.trace && pc' == Gone
  {
  }

  lemma {:induction false} PermitsAdvance(s: State, id: nat, emitOk: bool)
    requires PermitsConserved(s) && CanAdvance(s, id)
    ensures PermitsConserved(AdvanceTask(s, id, emitOk))
  {
    AdvanceEffect(s, id, emitOk);
    var t := AdvanceTask(s, id, emitOk).tasks[id];
    hide AdvanceTask;
    TaskSumMove(s.tasks, id, t, SlotWeight);
  }

  lemma {:induction false} PermitsStep(s: State, step: Step)
    requires PermitsConserved(s) && Enabled(s, step)
    ensures PermitsConserved(Next(s, step))
  {
    match step
    case Spawn(known) =>
      TaskSumSpawn(s.tasks, Task(Spawned, known), SlotWeight);
    case Advance(id, emitOk) =>
      PermitsAdvance(s, id, emitOk);
      hide AdvanceTask;
      hide PermitsConserved;
    case Unwind(id) =>
      hide AdvanceTask;
      TaskSumMove(s.tasks, id, s.tasks[id].(pc := Unwound), SlotWeight);
    case _ =>
      hide AdvanceTask;
      hide TaskSum;
  }

  lemma {:induction false} StatsAdvance(s: State, id: nat, emitOk: bool)
    requires StatsConserved(s) && CanAdvance(s, id)
    ensures StatsConserved(AdvanceTask(s, id, emitOk))
  {
    AdvanceEffect(s, id, emitOk);
    NewEvent(s, Advance(id, emitOk));
    assert Next(s, Advance(id, emitOk)) == AdvanceTask(s, id, emitOk);
    hide AdvanceTask;
    hide ReportedStarts;
    hide ReportedFinishes;
    TaskSumMove(s.tasks, id, AdvanceTask(s, id, emitOk).tasks[id], OpenWeight);
  }

  lemma {:induction false} StatsStep(s: State, step: Step)
    requires StatsConserved(s) && Enabled(s, step)
    ensures StatsConserved(Next(s, step))
  {
    if step.Advance? {
      StatsAdvance(s, step.id, step.emitOk);
    } else {
      NewEvent(s, step);
      hide AdvanceTask;
      hide TaskSum;
      hide ReportedStarts;
      hide ReportedFinishes;
      if step.Spawn? {
        TaskSumSpawn(s.tasks, Task(Spawned, step.known), OpenWeight);
      }
      if step.Unwind? {
        TaskSumMove(s.tasks, step.id, s.tasks[step.id].(pc := Unwound), OpenWeight);
      }
    }
  }

  lemma {:induction false} NewEvent(s: State, step: Step)
    requires Enabled(s, step)
    ensures ReportedStarts(Next(s, step).trace) == ReportedStarts(s.trace) + if step.EmitStats? then s.flusher.s else 0
    ensures ReportedFinishes(Next(s, step).trace)
            == ReportedFinishes(s.trace) + if step.EmitStats? then s.flusher.f else 0
  {
    var t := Next(s, step).trace;
    if step.Advance? { AdvanceEvent(s, step.id, step.emitOk); }
    if t != s.trace {
      assert t == s.trace + [t[|s.trace|]];
      ReportsAppend(s.trace, t[|s.trace|]);
    }
  }

  /** A step of a task leaves the history of every other task alone. */
  lemma {:induction false} HistoryOfOthers(s: State, task: nat, emitOk: bool, id: nat)
    requires CanAdvance(s, task) && id != task
    ensures var s' := AdvanceTask(s, task, emitOk);
            && PcOf(s', id) == PcOf(s, id) && Acks(s'.trace, id) == Acks(s.trace, id)
            && AckAttempts(s'.trace, id) == AckAttempts(s.trace, id) && Results(s'.trace, id) == Results(s.trace, id)
  {
    AdvanceEffect(s, task, emitOk);
    AdvanceEvent(s, task, emitOk);
    hide AdvanceTask;
    hide Acks;
    hide AckAttempts;
    hide Results;
    var s' := AdvanceTask(s, task, emitOk);
    if s'.trace != s.trace { CountsAppend(s.trace, s'.trace[|s.trace|], id); }
  }

  lemma {:induction false} HistoryAdvance(s: State, task: nat, emitOk: bool, id: nat)
    requires HistoryMatches(s, id) && CanAdvance(s, task)
    ensures HistoryMatches(AdvanceTask(s, task, emitOk), id)
  {
    hide Acks;
    hide AckAttempts;
    hide Results;
    if id != task {
      HistoryOfOthers(s, task, emitOk, id);
      hide AdvanceTask;
    } else {
      AdvanceEvent(s, task, emitOk);
      hide AdvanceTask;
      var s' := AdvanceTask(s, task, emitOk);
      if s'.trace != s.trace { CountsAppend(s.trace, s'.trace[|s.trace|], id); }
    }
  }

  lemma {:induction false} OtherEvent(s: State, step: Step, id: nat)
    requires Enabled(s, step) && !step.Advance?
    ensures PcOf(Next(s, step), id) == if step == Unwind(id) then Unwound else PcOf(s, id)
    ensures Acks(Next(s, step).trace, id) == Acks(s.trace, id)
    ensures AckAttempts(Next(s, step).trace, id) == AckAttempts(s.trace, id)
    ensures Results(Next(s, step).trace, id) == Results(s.trace, id)
  {
    hide AdvanceTask;
    hide Acks;
    hide AckAttempts;
    hide Results;
    var s' := Next(s, step);
    if s'.trace != s.trace {
      assert s'.trace == s.trace + [s'.trace[|s.trace|]];
      CountsAppend(s.trace, s'.trace[|s.trace|], id);
    }
  }

  lemma {:induction false} HistoryStep(s: State, step: Step, id: nat)
    requires HistoryMatches(s, id) && Enabled(s, step)
    ensures HistoryMatches(Next(s, step), id)
  {
    if step.Advance? {
      HistoryAdvance(s, step.id, step.emitOk, id);
    } else {
      hide AdvanceTask;
      hide Acks;
      hide AckAttempts;
      hide Results;
      OtherEvent(s, step, id);
      hide Next;
    }
  }

  lemma {:induction false} ReadLateAppend(trace: seq<Event>, e: Event, id: nat)
    ensures ReadLate(trace + [e], id) <==>
            ReadLate(trace, id) || (e.StatusRead? && e.id == id && SigtermFlag in trace)
  {
    var t := trace + [e];
    if ReadLate(t, id) {
      var i, j :| 0 <= i < j < |t| && t[i].SigtermFlag? && t[j].StatusRead? && t[j].id == id;
      assert t[i] == trace[i];
    }
    if ReadLate(trace, id) {
      var i, j :| 0 <= i < j < |trace| && trace[i].SigtermFlag? && trace[j].StatusRead? && trace[j].id == id;
      assert t[i] == trace[i] && t[j] == trace[j];
    }
    if e.StatusRead? && e.id == id && SigtermFlag in trace {
      var i :| 0 <= i < |trace| && trace[i] == SigtermFlag;
      assert t[i].SigtermFlag? && t[|trace|] == e;
    }
  }

  lemma {:induction false} SigtermAdvance(s: State, task: nat, emitOk: bool, id: nat)
    requires LateReaderLeaves(s, id) && HistoryMatches(s, id) && (s.flags.sigterm <==> SigtermFlag in s.trace)
    requires CanAdvance(s, task)
    ensures LateReaderLeaves(AdvanceTask(s, task, emitOk), id)
  {
    AdvanceEffect(s, task, emitOk);
    AdvanceEvent(s, task, emitOk);
    hide AdvanceTask;
    hide ReadLate;
    hide AckAttempts;
    hide Acks;
    hide Results;
    var s' := AdvanceTask(s, task, emitOk);
    if s'.trace != s.trace {
      ReadLateAppend(s.trace, s'.trace[|s.trace|], id);
      CountsAppend(s.trace, s'.trace[|s.trace|], id);
    }
    assert id != task ==> PcOf(s', id) == PcOf(s, id);
  }

  lemma {:induction false} SigtermOther(s: State, step: Step, id: nat)
    requires LateReaderLeaves(s, id) && Enabled(s, step) && !step.Advance?
    ensures LateReaderLeaves(Next(s, step), id)
  {
    hide AdvanceTask;
    hide ReadLate;
    hide AckAttempts;
    hide Acks;
    hide Results;
    var s' := Next(s, step);
    if s'.trace != s.trace {
      assert s'.trace == s.trace + [s'.trace[|s.trace|]];
      ReadLateAppend(s.trace, s'.trace[|s.trace|], id);
      CountsAppend(s.trace, s'.trace[|s.trace|], id);
    }
    OtherEvent(s, step, id);
  }

  /** The sigterm flag follows its event. */
  lemma {:induction false} FlagStep(s: State, step: Step)
    requires Enabled(s, step) && (s.flags.sigterm <==> SigtermFlag in s.trace)
    requires s.main == Serving || s.main == ShuttingDown ==> !s.flags.sigterm
    ensures var s' := Next(s, step);
            && (s'.flags.sigterm <==> SigtermFlag in s'.trace)
            && (s'.main == Serving || s'.main == ShuttingDown ==> !s'.flags.sigterm)
  {
    if step.Advance? {
      AdvanceEffect(s, step.id, step.emitOk);
      AdvanceEvent(s, step.id, step.emitOk);
    }
    hide AdvanceTask;
  }

  lemma {:induction false} SigtermStep(s: State, step: Step)
    requires SigtermRespected(s) && Histories(s) && Enabled(s, step)
    ensures SigtermRespected(Next(s, step))
  {
    FlagStep(s, step);
    forall id: nat
      ensures LateReaderLeaves(Next(s, step), id)
    {
      assert LateReaderLeaves(s, id) && HistoryMatches(s, id);
      if step.Advance? { SigtermAdvance(s, step.id, step.emitOk, id); } else { SigtermOther(s, step, id); }
    }
  }

  /** With no slot held, no task has accepted work. */
  lemma {:induction false} NoHoldersNoWork(s: State)
    requires SlotHolders(s) == 0
    ensures NoAcceptedWork(s)
  {
    forall id: nat | id < |s.tasks|
      ensures WorkWeight(s.tasks[id].pc) == 0
    {
      TaskSumMember(s.tasks, id, SlotWeight);
    }
  }

  lemma {:induction false} DrainStep(s: State, step: Step)
    requires PermitsConserved(s) && DrainHolds(s) && Enabled(s, step)
    ensures DrainHolds(Next(s, step))
  {
    if s.capacity <= s.free || s.drainHeld == s.capacity { NoHoldersNoWork(s); }
    if step.Advance? {
      AdvanceEffect(s, step.id, step.emitOk);
      AdvanceEvent(s, step.id, step.emitOk);
    }
    hide AdvanceTask;
    hide TaskSum;
  }

  /** A step of a drained connection is neither an acknowledgement nor a result. */
  lemma {:induction false} QuietAdvance(s: State, task: nat, emitOk: bool)
    requires DrainHolds(s) && s.drained && CanAdvance(s, task)
    ensures var t := AdvanceTask(s, task, emitOk).trace;
            t == s.trace || exists e :: t == s.trace + [e] && e.StatusRead?
  {
    AdvanceEvent(s, task, emitOk);
    hide AdvanceTask;
    assert WorkWeight(s.tasks[task].pc) == 0;
  }

  /** What a step adds to the trace of a closed connection. */
  lemma {:induction false} ClosedEvent(s: State, step: Step)
    requires Enabled(s, step) && DrainHolds(s)
    ensures var t := Next(s, step).trace;
            t == s.trace
            || exists e :: t == s.trace + [e]
                        && (e.Disconnect? <==> step.CloseSocket?)
                        && (s.drained ==> !e.Ack? && !e.Result?)
  {
    if step.Advance? {
      AdvanceEvent(s, step.id, step.emitOk);
      if s.drained { QuietAdvance(s, step.id, step.emitOk); }
    }
    hide AdvanceTask;
  }

  lemma {:induction false} QuietSinceAppend(trace: seq<Event>, e: Event, d: nat, id: nat)
    requires d <= |trace| && QuietSince(trace, d, id) && !e.Ack? && !e.Result?
    ensures QuietSince(trace + [e], d, id)
  {
    CountsAppend(trace, e, id);
    assert (trace + [e])[..d] == trace[..d];
  }

  lemma {:induction false} QuietAppend(trace: seq<Event>, e: Event)
    requires !e.Ack? && !e.Result? && QuietSinceDisconnect(trace)
    ensures QuietSinceDisconnect(trace + [e])
  {
    forall d: nat, id: nat | d < |trace + [e]| && (trace + [e])[d].Disconnect?
      ensures QuietSince(trace + [e], d, id)
    {
      hide QuietSince;
      if d < |trace| {
        assert (trace + [e])[d] == trace[d];
      } else {
        QuietTrivial(trace, id);
      }
      QuietSinceAppend(trace, e, d, id);
    }
  }

  lemma {:induction false} QuietTrivial(trace: seq<Event>, id: nat)
    ensures QuietSince(trace, |trace|, id)
  {
    assert trace[..|trace|] == trace;
  }

  lemma {:induction false} QuietStep(s: State, step: Step)
    requires QuietAfterClose(s) && DrainHolds(s) && Enabled(s, step)
    ensures QuietAfterClose(Next(s, step))
  {
    var s' := Next(s, step);
    ClosedEvent(s, step);
    MainStep(s, step);
    hide Next;
    hide QuietSinceDisconnect;
    if s'.trace != s.trace {
      var e :| s'.trace == s.trace + [e] && (e.Disconnect? <==> step.CloseSocket?)
               && (s.drained ==> !e.Ack? && !e.Result?);
      if s.drained { QuietAppend(s.trace, e); }
    }
    if s'.drained && !s.drained {
      NoDisconnectIsQuiet(s'.trace);
    }
  }

  lemma {:induction false} NoDisconnectIsQuiet(trace: seq<Event>)
    requires Disconnect !in trace
    ensures QuietSinceDisconnect(trace)
  {
  }

  lemma {:induction false} MainStep(s: State, step: Step)
    requires Enabled(s, step)
    ensures Next(s, step).main == Closed <==> s.main == Closed || step.CloseSocket?
    ensures Next(s, step).drained && !s.drained ==> s.main != Closed && !step.CloseSocket?
    ensures s.drained ==> Next(s, step).drained
    ensures step.CloseSocket? ==> Next(s, step).trace != s.trace
  {
    if step.Advance? { AdvanceEffect(s, step.id, step.emitOk); }
    hide AdvanceTask;
  }

  lemma {:induction false} InvStep(s: State, step: Step)
    requires Inv(s) && Enabled(s, step)
    ensures Inv(Next(s, step))
  {
    hide Next;
    hide PermitsConserved;
    hide StatsConserved;
    hide HistoryMatches;
    hide SigtermRespected;
    hide DrainHolds;
    hide QuietAfterClose;
    PermitsStep(s, step);
    StatsStep(s, step);
    forall id: nat
      ensures HistoryMatches(Next(s, step), id)
    {
      assert HistoryMatches(s, id);
      HistoryStep(s, step, id);
    }
    SigtermStep(s, step);
    DrainStep(s, step);
    QuietStep(s, step);
  }

  lemma {:induction false} CapacityFixed(s: State, step: Step)
    requires Enabled(s, step)
    ensures Next(s, step).capacity == s.capacity
  {
    if step.Advance? { AdvanceEffect(s, step.id, step.emitOk); }
    hide AdvanceTask;
  }

  lemma {:induction false} InitInv(capacity: nat)
    ensures Inv(Init(capacity))
  {
  }

  /** Every reachable state satisfies the invariants, whatever the interleaving. */
  lemma {:induction false} RunsKeepInv(capacity: nat, run: seq<State>, steps: seq<Step>, k: nat)
    requires IsRun(capacity, run, steps) && k < |run|
    ensures Inv(run[k]) && run[k].capacity == capacity
  {
    if k == 0 {
      InitInv(capacity);
    } else {
      RunsKeepInv(capacity, run, steps, k - 1);
      hide Inv;
      hide Next;
      assert IsStep(run, steps, k - 1);
      InvStep(run[k - 1], steps[k - 1]);
      CapacityFixed(run[k - 1], steps[k - 1]);
    }
  }
}
