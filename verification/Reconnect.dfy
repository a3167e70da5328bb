/** Reconnect delays (src/probe/reconnect.rs) and the retry loop that uses them (src/probe/client.rs,
    `run`). Durations are whole seconds. */
module Reconnect {
  import opened Wrappers
  import opened Sums

  datatype ConnectOutcome =
    | CleanShutdown | IpLimitOrVpn | MetadataError | InvalidVersion | ServerTerminating | Transient

  const MIN_DELAY: nat := 1
  const MAX_DELAY: nat := 300

  class ExponentialBackoff {
    var current: nat
    const min: nat
    const max: nat

    constructor (min: nat, max: nat)
      ensures this.min == min && this.max == max && current == min
    {
      this.min, this.max, current := min, max, min;
    }

    method Next() returns (d: nat)
      modifies this
      ensures d == old(current) && current == Min(old(current) * 2, max)
    {
      d := current;
      current := Min(current * 2, max);
    }

    method Reset()
      modifies this
      ensures current == min
    {
      current := min;
    }
  }

  /** `reconnect_delay`: `None` ends the loop; only a transient outcome advances the back-off. */
  method ReconnectDelay(outcome: ConnectOutcome, backoff: ExponentialBackoff) returns (delay: Option<nat>)
    modifies backoff
    ensures delay == match outcome
                     case CleanShutdown => None
                     case InvalidVersion => None
                     case IpLimitOrVpn => Some(60 * 60)
                     case MetadataError => Some(60)
                     case ServerTerminating => Some(0)
                     case Transient => Some(old(backoff.current))
    ensures backoff.current == if outcome.Transient? then Min(old(backoff.current) * 2, backoff.max)
                               else old(backoff.current)
  {
    match outcome
    case CleanShutdown => delay := None;
    case InvalidVersion => delay := None;
    case IpLimitOrVpn => delay := Some(60 * 60);
    case MetadataError => delay := Some(60);
    case ServerTerminating => delay := Some(0);
    case Transient =>
      var d := backoff.Next();
      delay := Some(d);
  }

  // ---- The schedule ----

  /** How one session ended, and whether it had been connected. */
  datatype Session = Session(outcome: ConnectOutcome, wasConnected: bool)

  predicate Stops(o: ConnectOutcome) { o.CleanShutdown? || o.InvalidVersion? }

  /** A session after which the back-off starts over. */
  predicate Resets(s: Session) { !s.outcome.Transient? || s.wasConnected }

  function Pow2(n: nat): nat { if n == 0 then 1 else 2 * Pow2(n - 1) }

  /** How many sessions have ended since the last reset; all of them failed to connect. */
  function Failures(sessions: seq<Session>): nat {
    if sessions == [] then 0
    else if Resets(sessions[|sessions| - 1]) then 0
    else Failures(sessions[..|sessions| - 1]) + 1
  }

  /** The delay after an outcome preceded by `failures` failures in a row. */
  function ScheduledDelay(o: ConnectOutcome, failures: nat): nat {
    match o
    case IpLimitOrVpn => 3600
    case MetadataError => 60
    case Transient => Min(Pow2(failures), MAX_DELAY)
    case _ => 0
  }

  datatype Exit = StillRunning | Stopped | ProcessExit(code: int)

  /** The retry loop over the sessions that take place; it ends early when an outcome says so. */
  method RunLoop(sessions: seq<Session>) returns (delays: seq<nat>, exit: Exit)
    ensures |delays| <= |sessions|
    ensures forall k :: 0 <= k < |delays| ==>
              && !Stops(sessions[k].outcome)
              && delays[k] == ScheduledDelay(sessions[k].outcome, Failures(sessions[..k]))
    ensures exit.StillRunning? <==> |delays| == |sessions|
    ensures |delays| < |sessions| ==>
              exit == match sessions[|delays|].outcome
                      case CleanShutdown => Stopped
                      case InvalidVersion => ProcessExit(1)
                      case _ => StillRunning
  {
    var backoff := new ExponentialBackoff(MIN_DELAY, MAX_DELAY);
    delays := [];
    assert sessions[..0] == [];
    for i := 0 to |sessions|
      invariant |delays| == i
      invariant backoff.max == MAX_DELAY && backoff.min == MIN_DELAY
      invariant backoff.current == Min(Pow2(Failures(sessions[..i])), MAX_DELAY)
      invariant forall k :: 0 <= k < i ==>
                  && !Stops(sessions[k].outcome)
                  && delays[k] == ScheduledDelay(sessions[k].outcome, Failures(sessions[..k]))
      invariant fresh(backoff)
    {
      var outcome, wasConnected := sessions[i].outcome, sessions[i].wasConnected;
      var delay := ReconnectDelay(outcome, backoff);
      assert sessions[..i + 1][..i] == sessions[..i];
      match delay
      case None =>
        if outcome.InvalidVersion? { return delays, ProcessExit(1); }
        return delays, Stopped;
      case Some(d) =>
        if !outcome.Transient? || wasConnected { backoff.Reset(); }
        delays := delays + [d];
    }
    exit := StillRunning;
  }

  lemma {:induction false} Pow2Monotone(a: nat, b: nat)
    requires a <= b
    ensures Pow2(a) <= Pow2(b)
  {
    if a < b { Pow2Monotone(a, b - 1); }
  }

  /** Between resets the transient delays never fall. */
  lemma {:induction false} DelaysDoNotFall(sessions: seq<Session>, i: nat, j: nat)
    requires i <= j < |sessions|
    requires forall k :: i <= k < j ==> !Resets(sessions[k])
    ensures Failures(sessions[..j]) == Failures(sessions[..i]) + (j - i)
    ensures ScheduledDelay(Transient, Failures(sessions[..i])) <= ScheduledDelay(Transient, Failures(sessions[..j]))
  {
    if i < j {
      DelaysDoNotFall(sessions, i, j - 1);
      assert sessions[..j][..j - 1] == sessions[..j - 1];
      Pow2Monotone(Failures(sessions[..i]), Failures(sessions[..j]));
    }
  }

  /** The failures counted are exactly the sessions after the last resetting one. */
  lemma {:induction false} FailuresSinceReset(sessions: seq<Session>)
    ensures var f := Failures(sessions);
            && f <= |sessions|
            && (forall k :: |sessions| - f <= k < |sessions| ==>
                  sessions[k].outcome.Transient? && !sessions[k].wasConnected)
            && (f < |sessions| ==> Resets(sessions[|sessions| - f - 1]))
  {
    if sessions != [] && !Resets(sessions[|sessions| - 1]) {
      FailuresSinceReset(sessions[..|sessions| - 1]);
    }
  }

  /** After a connected session or a policy outcome the next transient delay is one second, and nine
      failures in a row reach the ceiling of five minutes. */
  lemma {:induction false} ResetAndCeiling(sessions: seq<Session>)
    ensures sessions == [] || Resets(sessions[|sessions| - 1]) ==>
              ScheduledDelay(Transient, Failures(sessions)) == 1
    ensures ScheduledDelay(Transient, Failures(sessions)) == 300 <==> Failures(sessions) >= 9
  {
    assert Pow2(8) == 256 && Pow2(9) == 512;
    if Failures(sessions) >= 9 {
      Pow2Monotone(9, Failures(sessions));
    } else {
      Pow2Monotone(Failures(sessions), 8);
    }
  }

  /** The last `k` sessions ended transiently without ever having been connected. */
  predicate EndsInFailures(sessions: seq<Session>, k: nat) {
    k <= |sessions|
    && forall j :: |sessions| - k <= j < |sessions| ==> sessions[j].outcome.Transient? && !sessions[j].wasConnected
  }

  /** The last `k` sessions are all, or the one before them was connected or ended by policy. */
  predicate StartsAfresh(sessions: seq<Session>, k: nat)
    requires k <= |sessions|
  {
    k == |sessions|
    || (var s := sessions[|sessions| - k - 1]; s.wasConnected || !s.outcome.Transient?)
  }

  /** Such sessions do not reset the back-off: after `k` of them the next transient delay is at least
      min(2^k, 300) seconds, and exactly that if the session before them does reset it. */
  lemma {:induction false} FailuresLengthenTheDelay(sessions: seq<Session>, k: nat)
    requires EndsInFailures(sessions, k)
    ensures Failures(sessions) >= k
    ensures ScheduledDelay(Transient, Failures(sessions)) >= Min(Pow2(k), 300)
    ensures StartsAfresh(sessions, k) ==> ScheduledDelay(Transient, Failures(sessions)) == Min(Pow2(k), 300)
  {
    FailuresAre(sessions, k);
    Pow2Monotone(k, Failures(sessions));
  }

  lemma {:induction false} FailuresAre(sessions: seq<Session>, k: nat)
    requires EndsInFailures(sessions, k)
    ensures Failures(sessions) == Failures(sessions[..|sessions| - k]) + k
    ensures StartsAfresh(sessions, k) ==> Failures(sessions) == k
  {
    var n := |sessions|;
    if k == 0 {
      assert sessions[..n] == sessions;
    } else {
      assert sessions[n - 1].outcome.Transient? && !sessions[n - 1].wasConnected;
      FailuresAre(sessions[..n - 1], k - 1);
      assert sessions[..n - 1][..n - k] == sessions[..n - k];
    }
  }

  /** The doubling of the delays. */
  lemma {:induction false} Pow2Doubles(a: nat, b: nat)
    ensures Pow2(0) == 1 && Pow2(1) == 2 && Pow2(a + b) == Pow2(a) * Pow2(b)
  {
    if a > 0 {
      Pow2Doubles(a - 1, b);
      assert Pow2(a - 1 + b) == Pow2(a - 1) * Pow2(b);
      TwiceProduct(Pow2(a - 1), Pow2(b));
    }
  }

  lemma {:induction false} TwiceProduct(x: nat, y: nat)
    ensures 2 * (x * y) == (2 * x) * y
  {
  }
}
