/** The probe status (src/status/status_manager.rs).

    `StatusManager` is the class; `Status` is its abstract state and `Apply` the effect of one call,
    over which the statements about whole runs are made. */
module StatusManagement {
  import opened Wrappers
  import opened Disconnect

  datatype ProbeStatus =
    | Initializing | Ready | PingTestFailed | IcmpTcpTestFailed | TooManyDisconnects | Sigterm

  /** The fields that decide the status; `None` is a test that has not run yet. */
  datatype Flags = Flags(
    pingTestFailed: Option<bool>,
    icmpTcpTestFailed: Option<bool>,
    tooManyDisconnects: bool,
    sigterm: bool)
  {
    function GetStatus(): ProbeStatus {
      if sigterm then Sigterm
      else if pingTestFailed.None? || icmpTcpTestFailed.None? then Initializing
      else if pingTestFailed == Some(true) then PingTestFailed
      else if icmpTcpTestFailed == Some(true) then IcmpTcpTestFailed
      else if tooManyDisconnects then TooManyDisconnects
      else Ready
    }
  }

  /** The flags, all disconnects ever reported, and the last time the window was evaluated. */
  datatype Status = Status(flags: Flags, history: seq<Event>, checkedAt: Instant)

  const INITIAL_STATUS := Status(Flags(None, None, false, false), [], 0)

  /** The calls that change the status. The verdict of a VPN re-evaluation is a parameter. */
  datatype Call =
    | PingTested(failed: bool)
    | IcmpTcpTested(failed: bool)
    | ProxyReported(vpn: bool)
    | DisconnectReported(evictNow: Instant, insertNow: Instant, id: Key)
    | DisconnectsRechecked(now: Instant)
    | SigtermSet

  function Apply(s: Status, c: Call): Status {
    match c
    case PingTested(failed) => s.(flags := s.flags.(pingTestFailed := Some(failed)))
    case IcmpTcpTested(failed) => s.(flags := s.flags.(icmpTcpTestFailed := Some(failed)))
    case ProxyReported(vpn) =>
      if s.flags.icmpTcpTestFailed.Some? then s.(flags := s.flags.(icmpTcpTestFailed := Some(vpn))) else s
    case DisconnectReported(evictNow, insertNow, id) =>
      var h := s.history + [Event(id, insertNow)];
      Status(s.flags.(tooManyDisconnects := RecentCount(h, evictNow) >= 3), h, evictNow)
    case DisconnectsRechecked(now) =>
      Status(s.flags.(tooManyDisconnects := RecentCount(s.history, now) >= 3), s.history, now)
    case SigtermSet => s.(flags := s.flags.(sigterm := true))
  }

  /** The clock is monotone and keys are fresh. */
  predicate Possible(s: Status, c: Call) {
    match c
    case DisconnectReported(evictNow, insertNow, id) =>
      s.checkedAt <= evictNow <= insertNow && !Used(s.history, id)
    case DisconnectsRechecked(now) => s.checkedAt <= now
    case _ => true
  }

  function Run(calls: seq<Call>): Status {
    if calls == [] then INITIAL_STATUS else Apply(Run(calls[..|calls| - 1]), calls[|calls| - 1])
  }

  predicate Legal(calls: seq<Call>) {
    calls == [] || (Legal(calls[..|calls| - 1]) && Possible(Run(calls[..|calls| - 1]), calls[|calls| - 1]))
  }

  class StatusManager {
    var pingTestFailed: Option<bool>
    var icmpTcpTestFailed: Option<bool>
    var tooManyDisconnects: bool
    var sigterm: bool
    const tracker: DisconnectTracker

    ghost predicate Valid()
      reads this, tracker
    {
      tracker.Valid()
    }

    ghost function State(): Status
      reads this, tracker
    {
      Status(Flags(pingTestFailed, icmpTcpTestFailed, tooManyDisconnects, sigterm),
             tracker.history, tracker.evictedAt)
    }

    constructor ()
      ensures Valid() && State() == INITIAL_STATUS && fresh(tracker)
    {
      pingTestFailed, icmpTcpTestFailed := None, None;
      tooManyDisconnects, sigterm := false, false;
      tracker := new DisconnectTracker();
    }

    method GetStatus() returns (r: ProbeStatus)
      ensures r == State().flags.GetStatus()
    {
      if sigterm { return Sigterm; }
      if pingTestFailed.None? || icmpTcpTestFailed.None? { return Initializing; }
      if pingTestFailed == Some(true) { return PingTestFailed; }
      if icmpTcpTestFailed == Some(true) { return IcmpTcpTestFailed; }
      if tooManyDisconnects { return TooManyDisconnects; }
      return Ready;
    }

    method RunPingTest(ipv4: bool, ipv6: bool)
      requires Valid()
      modifies this
      ensures Valid() && State() == Apply(old(State()), PingTested(!ipv4 && !ipv6))
    {
      pingTestFailed := Some(!ipv4 && !ipv6);
    }

    method RunIcmpTcpTest(detected: bool)
      requires Valid()
      modifies this
      ensures Valid() && State() == Apply(old(State()), IcmpTcpTested(detected))
    {
      icmpTcpTestFailed := Some(detected);
    }

    method OnProxyStatus(vpn: bool)
      requires Valid()
      modifies this
      ensures Valid() && State() == Apply(old(State()), ProxyReported(vpn))
    {
      if icmpTcpTestFailed.Some? { icmpTcpTestFailed := Some(vpn); }
    }

    method ReportDisconnect(evictNow: Instant, insertNow: Instant, id: Key) returns (tooMany: bool)
      requires Valid() && Possible(State(), DisconnectReported(evictNow, insertNow, id))
      modifies this, tracker
      ensures Valid() && State() == Apply(old(State()), DisconnectReported(evictNow, insertNow, id))
      ensures tooMany == tooManyDisconnects
    {
      tooMany := tracker.Record(evictNow, insertNow, id);
      tooManyDisconnects := tooMany;
    }

    method RecheckDisconnectStatus(now: Instant)
      requires Valid() && Possible(State(), DisconnectsRechecked(now))
      modifies this, tracker
      ensures Valid() && State() == Apply(old(State()), DisconnectsRechecked(now))
    {
      var n := tracker.Count(now);
      tooManyDisconnects := n >= 3;
    }

    method SetSigterm()
      requires Valid()
      modifies this
      ensures Valid() && State() == Apply(old(State()), SigtermSet)
    {
      sigterm := true;
    }
  }

  /** In every reachable state the flag tells whether three or more of all disconnects ever reported
      were younger than five minutes when the window was last evaluated. */
  lemma {:induction false} FlagMatchesWindow(calls: seq<Call>)
    requires Legal(calls)
    ensures Run(calls).flags.tooManyDisconnects <==>
            RecentCount(Run(calls).history, Run(calls).checkedAt) >= MAX_DISCONNECTS
  {
    if calls != [] { FlagMatchesWindow(calls[..|calls| - 1]); }
  }

  /** A probe that says Ready has had fewer than three disconnects in the last five minutes, now and
      not merely at the last evaluation. */
  lemma {:induction false} ReadyMeansFewRecent(calls: seq<Call>, now: Instant)
    requires Legal(calls) && now >= Run(calls).checkedAt
    ensures RecentCount(Run(calls).history, now) >= MAX_DISCONNECTS ==> Run(calls).flags.tooManyDisconnects
    ensures Run(calls).flags.GetStatus() == Ready ==> RecentCount(Run(calls).history, now) < MAX_DISCONNECTS
  {
    FlagMatchesWindow(calls);
    CountFalls(Run(calls).history, Run(calls).checkedAt, now);
  }

  /** When the third-youngest of all disconnects ever reported stops being recent; 0 if there are not
      three. */
  function ThirdExpires(history: seq<Event>): Instant {
    if |history| < 3 then 0 else Youngest(history)[2] + TTL
  }

  /** The flag against the present: it agrees with the last five minutes at `now` unless the
      third-youngest disconnect expired between the last evaluation and `now`. */
  lemma {:induction false} FlagAgreesExactlyWhen(calls: seq<Call>, now: Instant)
    requires Legal(calls) && now >= Run(calls).checkedAt
    ensures var s := Run(calls);
            (s.flags.tooManyDisconnects <==> RecentCount(s.history, now) >= MAX_DISCONNECTS)
            <==> !(s.checkedAt < ThirdExpires(s.history) <= now)
    ensures var s := Run(calls);
            s.flags.tooManyDisconnects <==> s.checkedAt < ThirdExpires(s.history)
  {
    var s := Run(calls);
    FlagMatchesWindow(calls);
    YoungestRecent(s.history, s.checkedAt, 3);
    YoungestRecent(s.history, now, 3);
    hide Run;
    hide Youngest;
    hide RecentCount;
  }

  /** Every reported disconnect stays in the history, whatever the tracker evicts. */
  function Reported(calls: seq<Call>): nat {
    if calls == [] then 0
    else Reported(calls[..|calls| - 1]) + if calls[|calls| - 1].DisconnectReported? then 1 else 0
  }

  lemma {:induction false} HistoryIsComplete(calls: seq<Call>)
    ensures |Run(calls).history| == Reported(calls)
  {
    if calls != [] { HistoryIsComplete(calls[..|calls| - 1]); }
  }

  /** The flag can outlast the window: right after three disconnects and a pause the status still
      says TooManyDisconnects, until the next recheck. */
  lemma {:induction false} FlagCanBeStale()
    ensures exists calls: seq<Call>, now: Instant ::
              && Legal(calls) && now >= Run(calls).checkedAt
              && Run(calls).flags.tooManyDisconnects && RecentCount(Run(calls).history, now) == 0
  {
    var r1 := ExtendRun([], "a");
    var r2 := ExtendRun(r1, "b");
    var r3 := ExtendRun(r2, "c");
    var h := [Event("a", 0), Event("b", 0), Event("c", 0)];
    assert Run(r3).history == h;
    RecentAtZero(h);
    FlagMatchesWindow(r3);
  }

  /** One more disconnect at time zero. */
  lemma {:induction false} ExtendRun(calls: seq<Call>, id: Key) returns (r: seq<Call>)
    requires Legal(calls) && Run(calls).checkedAt == 0 && !Used(Run(calls).history, id)
    ensures Legal(r) && Run(r).checkedAt == 0 && Run(r).history == Run(calls).history + [Event(id, 0)]
  {
    r := calls + [DisconnectReported(0, 0, id)];
    assert r[..|r| - 1] == calls;
  }

  lemma {:induction false} RecentAtZero(h: seq<Event>)
    requires |h| == 3 && forall i :: 0 <= i < 3 ==> h[i].at == 0
    ensures RecentCount(h, 0) == 3 && RecentCount(h, TTL) == 0
  {
    assert RecentCount(h[..2][..1][..0], 0) == 0 && RecentCount(h[..2][..1][..0], TTL) == 0;
    assert RecentCount(h[..2][..1], 0) == 1 && RecentCount(h[..2][..1], TTL) == 0;
    assert RecentCount(h[..2], 0) == 2 && RecentCount(h[..2], TTL) == 0;
  }

  /** Once the sigterm flag is set no later call clears it: the status is Sigterm for good. */
  lemma {:induction false} SigtermIsFinal(calls: seq<Call>, i: nat)
    requires i < |calls| && calls[i] == SigtermSet
    ensures Run(calls).flags.sigterm && Run(calls).flags.GetStatus() == Sigterm
  {
    if i < |calls| - 1 { SigtermIsFinal(calls[..|calls| - 1], i); }
  }

  // ---- The status and the last results ----

  /** Each status is given exactly when its reason holds and no stronger one does. */
  lemma {:induction false} StatusExactlyWhen(f: Flags)
    ensures f.GetStatus() == Sigterm <==> f.sigterm
    ensures f.GetStatus() == Initializing <==> !f.sigterm && (f.pingTestFailed.None? || f.icmpTcpTestFailed.None?)
    ensures f.GetStatus() == PingTestFailed <==>
            !f.sigterm && f.pingTestFailed == Some(true) && f.icmpTcpTestFailed.Some?
    ensures f.GetStatus() == IcmpTcpTestFailed <==>
            !f.sigterm && f.pingTestFailed == Some(false) && f.icmpTcpTestFailed == Some(true)
    ensures f.GetStatus() == TooManyDisconnects <==>
            !f.sigterm && f.pingTestFailed == Some(false) && f.icmpTcpTestFailed == Some(false)
            && f.tooManyDisconnects
    ensures f.GetStatus() == Ready <==>
            !f.sigterm && f.pingTestFailed == Some(false) && f.icmpTcpTestFailed == Some(false)
            && !f.tooManyDisconnects
  {
    ThreeResults(f.pingTestFailed);
    ThreeResults(f.icmpTcpTestFailed);
  }

  lemma {:induction false} ThreeResults(o: Option<bool>)
    ensures o == None || o == Some(true) || o == Some(false)
  {
    if o.Some? {
      if o.value { assert o == Some(true); } else { assert o == Some(false); }
    }
  }

  /** Call `i` reported this result of the ping test, and no later call reported another. */
  ghost predicate LastPing(calls: seq<Call>, i: nat, failed: bool) {
    && i < |calls| && calls[i] == PingTested(failed)
    && forall j :: i < j < |calls| ==> !calls[j].PingTested?
  }

  predicate IcmpVerdict(c: Call, failed: bool) { c == IcmpTcpTested(failed) || c == ProxyReported(failed) }

  /** Call `i` gave the ICMP/TCP verdict in force: a test, or proxy information after the first test;
      nothing after it spoke on the matter. */
  ghost predicate LastIcmp(calls: seq<Call>, i: nat, failed: bool) {
    && i < |calls| && IcmpVerdict(calls[i], failed)
    && (exists j :: 0 <= j <= i && calls[j].IcmpTcpTested?)
    && forall j :: i < j < |calls| ==> !calls[j].IcmpTcpTested? && !calls[j].ProxyReported?
  }

  lemma {:induction false} PingIsTheLast(calls: seq<Call>)
    ensures Run(calls).flags.pingTestFailed.None? <==> forall i :: 0 <= i < |calls| ==> !calls[i].PingTested?
    ensures Run(calls).flags.pingTestFailed.Some? ==>
              exists i: nat :: LastPing(calls, i, Run(calls).flags.pingTestFailed.value)
  {
    if calls != [] {
      var n := |calls| - 1;
      var q := calls[..n];
      PingIsTheLast(q);
      assert forall i :: 0 <= i < n ==> q[i] == calls[i];
      var f := Run(q).flags.pingTestFailed;
      hide Possible;
      if calls[n].PingTested? {
        assert LastPing(calls, n, calls[n].failed);
      } else {
        assert Run(calls).flags.pingTestFailed == f;
        if f.Some? {
          var i: nat :| LastPing(q, i, f.value);
          assert LastPing(calls, i, f.value);
        }
      }
    }
  }

  lemma {:induction false} IcmpIsTheLast(calls: seq<Call>)
    ensures Run(calls).flags.icmpTcpTestFailed.None? <==> forall i :: 0 <= i < |calls| ==> !calls[i].IcmpTcpTested?
    ensures Run(calls).flags.icmpTcpTestFailed.Some? ==>
              exists i: nat :: LastIcmp(calls, i, Run(calls).flags.icmpTcpTestFailed.value)
  {
    if calls != [] {
      var n := |calls| - 1;
      var q := calls[..n];
      IcmpIsTheLast(q);
      assert forall i :: 0 <= i < n ==> q[i] == calls[i];
      var f := Run(q).flags.icmpTcpTestFailed;
      if calls[n].IcmpTcpTested? {
        assert LastIcmp(calls, n, calls[n].failed);
      } else if calls[n].ProxyReported? && f.Some? {
        assert LastIcmp(calls, n, calls[n].vpn);
      } else {
        assert Run(calls).flags.icmpTcpTestFailed == f;
        if f.Some? {
          var i: nat :| LastIcmp(q, i, f.value);
          assert LastIcmp(calls, i, f.value);
        }
      }
    }
  }

  /** In every reachable state the test flags are the last results reported: unknown exactly until the
      first test of the kind, then that of the last report that counts. Proxy information before the
      first ICMP/TCP test does not. */
  lemma {:induction false} FlagsAreTheLastResults(calls: seq<Call>, i: nat, failed: bool)
    ensures Run(calls).flags.pingTestFailed.None? <==> forall j :: 0 <= j < |calls| ==> !calls[j].PingTested?
    ensures Run(calls).flags.icmpTcpTestFailed.None? <==> forall j :: 0 <= j < |calls| ==> !calls[j].IcmpTcpTested?
    ensures LastPing(calls, i, failed) ==> Run(calls).flags.pingTestFailed == Some(failed)
    ensures LastIcmp(calls, i, failed) ==> Run(calls).flags.icmpTcpTestFailed == Some(failed)
  {
    PingIsTheLast(calls);
    IcmpIsTheLast(calls);
    hide Run;
    if LastPing(calls, i, failed) {
      var j: nat :| LastPing(calls, j, Run(calls).flags.pingTestFailed.value);
      assert i == j;
    }
    if LastIcmp(calls, i, failed) {
      var j: nat :| LastIcmp(calls, j, Run(calls).flags.icmpTcpTestFailed.value);
      assert i == j;
    }
  }
}
