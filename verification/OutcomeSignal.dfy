/** The write-once outcome and its wake-up (src/probe/client.rs, `OutcomeSignal`): any number of
    signallers and one waiter, interleaved at every lock and notification. */
module OutcomeSignal {
  import opened Wrappers
  import opened Reconnect

  /** Where a call of `signal` is; the lock is held from `HasLock` to `Unlocking`. */
  datatype Signaller = WantLock | HasLock | Wrote | Unlocking | Done

  /** Where `wait` is; `Cancelled` when the shutdown branch of the select wins. */
  datatype Waiter = Waiting | Woken | Reading | Returned(outcome: ConnectOutcome) | Cancelled

  datatype Lock = Free | BySignaller(i: nat) | ByWaiter

  /** `order` lists the signallers in the order in which they obtained the lock. */
  datatype State = State(
    value: Option<ConnectOutcome>, permit: bool, lock: Lock,
    signallers: seq<Signaller>, waiter: Waiter, order: seq<nat>)

  datatype Step =
    | AcquireLock(i: nat) | WriteIfEmpty(i: nat) | Notify(i: nat) | Unlock(i: nat)
    | Wake | WaiterLock | ReadValue | Cancel

  function Init(n: nat): State {
    State(None, false, Free, seq(n, _ => WantLock), Waiting, [])
  }

  predicate At(s: State, i: nat, pc: Signaller) { i < |s.signallers| && s.signallers[i] == pc }

  predicate Enabled(s: State, step: Step) {
    match step
    case AcquireLock(i) => At(s, i, WantLock) && s.lock == Free
    case WriteIfEmpty(i) => At(s, i, HasLock)
    case Notify(i) => At(s, i, Wrote)
    case Unlock(i) => At(s, i, Unlocking)
    case Wake => s.waiter.Waiting? && s.permit
    case WaiterLock => s.waiter.Woken? && s.lock == Free
    case ReadValue => s.waiter.Reading?
    case Cancel => s.waiter.Waiting? || s.waiter.Woken?
  }

  function SetPc(s: State, i: nat, pc: Signaller): State
    requires i < |s.signallers|
  {
    s.(signallers := s.signallers[i := pc])
  }

  function Next(s: State, step: Step, outcomes: seq<ConnectOutcome>): State
    requires Enabled(s, step) && |outcomes| == |s.signallers|
  {
    match step
    case AcquireLock(i) => SetPc(s, i, HasLock).(lock := BySignaller(i), order := s.order + [i])
    case WriteIfEmpty(i) =>
      if s.value.None? then SetPc(s, i, Wrote).(value := Some(outcomes[i])) else SetPc(s, i, Unlocking)
    case Notify(i) => SetPc(s, i, Unlocking).(permit := true)
    case Unlock(i) => SetPc(s, i, Done).(lock := Free)
    case Wake => s.(waiter := Woken, permit := false)
    case WaiterLock => s.(waiter := Reading, lock := ByWaiter)
    case ReadValue => s.(waiter := if s.value.Some? then Returned(s.value.value) else Waiting, lock := Free)
    case Cancel => s.(waiter := Cancelled)
  }

  ghost predicate IsStep(outcomes: seq<ConnectOutcome>, run: seq<State>, steps: seq<Step>, k: nat)
    requires k < |steps| && |run| == |steps| + 1
  {
    && |run[k].signallers| == |outcomes| && Enabled(run[k], steps[k])
    && run[k + 1] == Next(run[k], steps[k], outcomes)
  }

  /** The states of a run; each signaller has its outcome. */
  ghost predicate IsRun(outcomes: seq<ConnectOutcome>, run: seq<State>, steps: seq<Step>) {
    && |run| == |steps| + 1 && run[0] == Init(|outcomes|)
    && forall k: nat :: k < |steps| ==> IsStep(outcomes, run, steps, k)
  }

  predicate HoldsLock(pc: Signaller) { pc.HasLock? || pc.Wrote? || pc.Unlocking? }

  /** The lock has one holder. */
  ghost predicate LockExclusive(s: State) {
    && (forall i: nat :: i < |s.signallers| ==> (HoldsLock(s.signallers[i]) <==> s.lock == BySignaller(i)))
    && (s.waiter.Reading? <==> s.lock == ByWaiter)
    && (s.lock.BySignaller? ==> s.lock.i < |s.signallers|)
  }

  /** The value belongs to the first signaller that got the lock. */
  ghost predicate FirstWins(s: State, outcomes: seq<ConnectOutcome>) {
    && (forall k :: 0 <= k < |s.order| ==> s.order[k] < |s.signallers|)
    && (s.value.Some? ==> s.order != [] && s.order[0] < |outcomes| && s.value == Some(outcomes[s.order[0]]))
    && (s.value.None? ==> s.order == [] || (|s.order| == 1 && s.signallers[s.order[0]] == HasLock))
    && (forall i: nat :: i < |s.signallers| ==>
          (s.signallers[i].WantLock? <==> i !in s.order))
    && (forall i: nat :: i < |s.signallers| && s.signallers[i] == Wrote ==> s.order != [] && s.order[0] == i)
  }

  /** The wake-up is not lost: from the moment the value is stored, either its writer has still to
      notify, or the notification is pending, or the waiter has consumed it (or was cancelled). */
  ghost predicate WakeUpKept(s: State) {
    && (s.value.None? ==> !s.permit && (s.waiter.Waiting? || s.waiter.Cancelled?))
    && (s.value.Some? && s.order != [] && s.waiter.Waiting? ==> s.permit || At(s, s.order[0], Wrote))
    && (s.waiter.Returned? ==> s.value == Some(s.waiter.outcome))
  }

  ghost predicate Inv(s: State, outcomes: seq<ConnectOutcome>) {
    |outcomes| == |s.signallers| && LockExclusive(s) && FirstWins(s, outcomes) && WakeUpKept(s)
  }

  lemma {:induction false} LockStep(s: State, step: Step, outcomes: seq<ConnectOutcome>)
    requires LockExclusive(s) && |outcomes| == |s.signallers| && Enabled(s, step)
    ensures LockExclusive(Next(s, step, outcomes))
  {
  }

  lemma {:induction false} FirstAcquire(s: State, i: nat, outcomes: seq<ConnectOutcome>)
    requires Inv(s, outcomes) && Enabled(s, AcquireLock(i))
    ensures FirstWins(Next(s, AcquireLock(i), outcomes), outcomes)
  {
    var s' := Next(s, AcquireLock(i), outcomes);
    hide WakeUpKept;
    assert forall j: nat :: j in s'.order <==> j in s.order || j == i;
    assert s.order != [] ==> s'.order[0] == s.order[0];
  }

  lemma {:induction false} FirstStep(s: State, step: Step, outcomes: seq<ConnectOutcome>)
    requires Inv(s, outcomes) && Enabled(s, step)
    ensures FirstWins(Next(s, step, outcomes), outcomes)
  {
    hide WakeUpKept;
    match step
    case AcquireLock(i) =>
      FirstAcquire(s, i, outcomes);
      hide *;
    case WriteIfEmpty(i) =>
      assert i in s.order;
    case Notify(i) =>
      assert i in s.order;
    case Unlock(i) =>
      assert i in s.order;
    case _ =>
  }

  lemma {:induction false} WakeStep(s: State, step: Step, outcomes: seq<ConnectOutcome>)
    requires Inv(s, outcomes) && Enabled(s, step)
    ensures WakeUpKept(Next(s, step, outcomes))
  {
    match step
    case WriteIfEmpty(i) =>
      assert i in s.order;
      assert s.value.None? ==> s.order[0] == i;
    case Notify(i) =>
      assert s.order[0] == i;
    case Unlock(i) =>
    case AcquireLock(i) =>
    case _ =>
  }

  /** Once stored, the outcome never changes. */
  lemma {:induction false} ValueIsFinal(s: State, step: Step, outcomes: seq<ConnectOutcome>)
    requires |outcomes| == |s.signallers| && Enabled(s, step) && s.value.Some?
    ensures Next(s, step, outcomes).value == s.value
  {
  }

  lemma {:induction false} RunsKeepInv(outcomes: seq<ConnectOutcome>, run: seq<State>, steps: seq<Step>, k: nat)
    requires IsRun(outcomes, run, steps) && k < |run|
    ensures Inv(run[k], outcomes)
  {
    if k > 0 {
      RunsKeepInv(outcomes, run, steps, k - 1);
      assert IsStep(outcomes, run, steps, k - 1);
      LockStep(run[k - 1], steps[k - 1], outcomes);
      FirstStep(run[k - 1], steps[k - 1], outcomes);
      WakeStep(run[k - 1], steps[k - 1], outcomes);
    }
  }

  /** The waiter can return nothing but the outcome of the first signaller to obtain the lock, and the
      stored outcome is that one at every later moment of the run. */
  lemma {:induction false} WaiterReturnsFirst(outcomes: seq<ConnectOutcome>, run: seq<State>, steps: seq<Step>,
                                              k: nat, m: nat)
    requires IsRun(outcomes, run, steps) && k <= m < |run|
    ensures run[m].waiter.Returned? ==>
              && run[m].order != [] && run[m].order[0] < |outcomes|
              && run[m].waiter.outcome == outcomes[run[m].order[0]]
    ensures run[k].value.Some? ==> run[m].value == run[k].value
    decreases m
  {
    RunsKeepInv(outcomes, run, steps, m);
    if k < m {
      WaiterReturnsFirst(outcomes, run, steps, k, m - 1);
      assert IsStep(outcomes, run, steps, m - 1);
      if run[k].value.Some? { ValueIsFinal(run[m - 1], steps[m - 1], outcomes); }
    }
  }

  /** No wake-up is lost, and the waiter never wakes in vain: once the outcome is stored a waiting
      waiter can be woken as soon as the writer has notified, and whenever it has been woken the
      outcome is there, so its next read returns. */
  lemma {:induction false} NoLostWakeUp(outcomes: seq<ConnectOutcome>, run: seq<State>, steps: seq<Step>, k: nat)
    requires IsRun(outcomes, run, steps) && k < |run|
    ensures run[k].value.Some? && run[k].waiter.Waiting? ==>
              Enabled(run[k], Wake) || exists i :: Enabled(run[k], Notify(i))
    ensures run[k].waiter.Woken? || run[k].waiter.Reading? ==> run[k].value.Some?
    ensures run[k].waiter.Woken? && run[k].lock.BySignaller? ==>
              Enabled(run[k], WriteIfEmpty(run[k].lock.i)) || Enabled(run[k], Notify(run[k].lock.i))
              || Enabled(run[k], Unlock(run[k].lock.i))
  {
    RunsKeepInv(outcomes, run, steps, k);
    var s := run[k];
    if s.value.Some? && s.waiter.Waiting? && !s.permit {
      assert Enabled(s, Notify(s.order[0]));
    }
  }

  // ---- The waiter gets there ----

  ghost predicate Reaches(outcomes: seq<ConnectOutcome>, run: seq<State>, steps: seq<Step>, s: State) {
    IsRun(outcomes, run, steps) && run[|run| - 1] == s
  }

  lemma {:induction false} OneMore(outcomes: seq<ConnectOutcome>, run: seq<State>, steps: seq<Step>,
                                   s: State, step: Step)
    returns (run': seq<State>, steps': seq<Step>, s': State)
    requires Reaches(outcomes, run, steps, s) && |s.signallers| == |outcomes| && Enabled(s, step)
    ensures s' == Next(s, step, outcomes) && Reaches(outcomes, run', steps', s') && Inv(s', outcomes)
    ensures run' == run + [s'] && steps' == steps + [step]
  {
    s' := Next(s, step, outcomes);
    run', steps' := run + [s'], steps + [step];
    hide Next;
    hide Enabled;
    forall k: nat | k < |steps'|
      ensures IsStep(outcomes, run', steps', k)
    {
      if k < |steps| { assert IsStep(outcomes, run, steps, k); }
    }
    RunsKeepInv(outcomes, run', steps', |run'| - 1);
    hide Inv;
  }

  /** How far the waiter is from returning: its own steps and those of whoever holds the lock. */
  function Distance(s: State): nat {
    var own := match s.waiter
               case Waiting => 3
               case Woken => 2
               case Reading => 1
               case _ => 0;
    var holder := if s.lock.BySignaller? && s.lock.i < |s.signallers|
                  then HolderSteps(s.signallers[s.lock.i]) else 0;
    own + holder
  }

  function HolderSteps(pc: Signaller): nat {
    if pc.HasLock? || pc.Wrote? then 2 else if pc.Unlocking? then 1 else 0
  }

  /** A step that brings the waiter closer: of the lock's holder if there is one, else its own. */
  lemma {:induction false} CloserStep(s: State, outcomes: seq<ConnectOutcome>) returns (step: Step)
    requires Inv(s, outcomes) && s.value.Some? && !s.waiter.Cancelled? && !s.waiter.Returned?
    ensures Enabled(s, step) && !step.Cancel?
    ensures var s' := Next(s, step, outcomes);
            && Distance(s') < Distance(s)
            && s'.value == s.value && s'.order == s.order && !s'.waiter.Cancelled?
  {
    if s.lock.BySignaller? {
      var i := s.lock.i;
      assert HoldsLock(s.signallers[i]);
      match s.signallers[i]
      case HasLock => step := WriteIfEmpty(i);
      case Wrote => step := Notify(i);
      case Unlocking => step := Unlock(i);
    } else {
      match s.waiter
      case Waiting =>
        assert s.order != [] && !At(s, s.order[0], Wrote);
        step := Wake;
      case Woken => step := WaiterLock;
      case Reading => step := ReadValue;
    }
  }

  /** From every reachable state with a stored outcome in which the waiter has not been cancelled, at
      most five steps of the lock's holder and of the waiter make it return the first signaller's
      outcome. */
  lemma {:induction false} WaiterCanReturn(outcomes: seq<ConnectOutcome>, run: seq<State>, steps: seq<Step>, s: State)
    returns (run': seq<State>, steps': seq<Step>, s': State)
    requires Reaches(outcomes, run, steps, s) && s.value.Some? && !s.waiter.Cancelled?
    ensures Reaches(outcomes, run', steps', s') && run <= run' && steps <= steps'
    ensures s.order != [] && s.order[0] < |outcomes| && s'.waiter == Returned(outcomes[s.order[0]])
    ensures |steps'| <= |steps| + Distance(s) <= |steps| + 5
    decreases Distance(s)
  {
    RunsKeepInv(outcomes, run, steps, |run| - 1);
    if s.waiter.Returned? {
      run', steps', s' := run, steps, s;
    } else {
      var step := CloserStep(s, outcomes);
      hide *;
      var run1, steps1, s1 := OneMore(outcomes, run, steps, s, step);
      run', steps', s' := WaiterCanReturn(outcomes, run1, steps1, s1);
      assert run' == run + [s1] + run'[|run| + 1..];
      assert steps' == steps + [step] + steps'[|steps| + 1..];
    }
  }

  /** Before anything is stored: a step of the lock's holder, or of a call that wants the lock, any of
      which may come first. */
  lemma {:induction false} StoringStep(s: State, outcomes: seq<ConnectOutcome>, first: nat) returns (step: Step)
    requires Inv(s, outcomes) && s.value.None? && first < |outcomes| && !s.waiter.Cancelled?
    ensures Enabled(s, step) && !step.Cancel?
    ensures var s' := Next(s, step, outcomes);
            && !s'.waiter.Cancelled?
            && s'.order == (if s.order == [] then [first] else s.order)
            && (s.order != [] ==> s'.value.Some?)
  {
    assert s.waiter.Waiting?;
    if s.order == [] {
      assert forall i: nat :: i < |s.signallers| ==> s.signallers[i].WantLock?;
      assert s.lock == Free by { NobodyHolds(s); }
      step := AcquireLock(first);
    } else {
      assert HoldsLock(s.signallers[s.order[0]]);
      step := WriteIfEmpty(s.order[0]);
    }
  }

  lemma {:induction false} NobodyHolds(s: State)
    requires LockExclusive(s) && !s.waiter.Reading?
    requires forall i: nat :: i < |s.signallers| ==> s.signallers[i].WantLock?
    ensures s.lock == Free
  {
  }

  /** If `signal` is called at all, from every reachable state with an uncancelled waiter at most seven
      steps make the waiter return the outcome of the first call to obtain the lock; as long as none
      has, any of them can be that one. */
  lemma {:induction false} SignalReachesWaiter(outcomes: seq<ConnectOutcome>, run: seq<State>, steps: seq<Step>,
                                               s: State, first: nat)
    returns (run': seq<State>, steps': seq<Step>, s': State)
    requires Reaches(outcomes, run, steps, s) && first < |outcomes| && !s.waiter.Cancelled?
    ensures Reaches(outcomes, run', steps', s') && run <= run' && steps <= steps'
    ensures s.order == [] ==> s'.waiter == Returned(outcomes[first])
    ensures s.order != [] ==> s.order[0] < |outcomes| && s'.waiter == Returned(outcomes[s.order[0]])
    ensures |steps'| <= |steps| + 7
  {
    RunsKeepInv(outcomes, run, steps, |run| - 1);
    run', steps', s' := run, steps, s;
    if s'.value.None? {
      var step := StoringStep(s', outcomes, first);
      run', steps', s' := OneMore(outcomes, run', steps', s', step);
      if s'.value.None? {
        step := StoringStep(s', outcomes, first);
        run', steps', s' := OneMore(outcomes, run', steps', s', step);
      }
    }
    assert s'.value.Some? && s'.order != [];
    assert s'.order[0] == if s.order == [] then first else s.order[0];
    hide *;
    run', steps', s' := WaiterCanReturn(outcomes, run', steps', s');
  }
}
