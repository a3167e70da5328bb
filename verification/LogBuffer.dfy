/** The API log buffer (src/util/logs_transport.rs, `ApiLogsBuffer`).

    `ApiLogsBuffer` is the class; `Buffer` is its state and `PushEntry`, `UpdateSettings` and
    `TakeAll` the effects of its methods, over which whole histories are stated. */
module LogBuffer {
  import opened Wrappers
  import opened Sums

  datatype LogEntry = LogEntry(message: string, level: string, timestamp: string, scope: string)

  datatype Settings = Settings(isActive: bool, sendIntervalMs: nat, maxBufferSize: nat)

  datatype Buffer = Buffer(entries: seq<LogEntry>, dropped: nat, settings: Settings)

  /** What one successful `take` hands to the API. */
  datatype Delivery = Delivery(logs: seq<LogEntry>, skipped: nat)

  const EMPTY := Buffer([], 0, Settings(false, 10_000, 100))

  function PushEntry(b: Buffer, e: LogEntry): Buffer {
    var all := b.entries + [e];
    var overflow := SaturatingSub(|all|, b.settings.maxBufferSize);
    b.(entries := all[overflow..], dropped := b.dropped + overflow)
  }

  function UpdateSettings(s: Settings, isActive: Option<bool>, interval: Option<nat>, max: Option<nat>): Settings {
    Settings(if isActive.Some? then isActive.value else s.isActive,
             if interval.Some? then interval.value else s.sendIntervalMs,
             if max.Some? then max.value else s.maxBufferSize)
  }

  class ApiLogsBuffer {
    var entries: seq<LogEntry>
    var dropped: nat
    var settings: Settings

    ghost function State(): Buffer
      reads this
    {
      Buffer(entries, dropped, settings)
    }

    constructor ()
      ensures State() == EMPTY
    {
      entries, dropped, settings := [], 0, Settings(false, 10_000, 100);
    }

    method Push(entry: LogEntry)
      modifies this
      ensures State() == PushEntry(old(State()), entry)
      ensures |entries| == Min(old(|entries|) + 1, settings.maxBufferSize)
    {
      entries := entries + [entry];
      var overflow := SaturatingSub(|entries|, settings.maxBufferSize);
      if overflow > 0 {
        entries := entries[overflow..];
        dropped := dropped + overflow;
      }
    }

    method Update(isActive: Option<bool>, sendIntervalMs: Option<nat>, maxBufferSize: Option<nat>)
      modifies this
      ensures State() == old(State()).(
                settings := UpdateSettings(old(settings), isActive, sendIntervalMs, maxBufferSize))
    {
      if isActive.Some? { settings := settings.(isActive := isActive.value); }
      if sendIntervalMs.Some? { settings := settings.(sendIntervalMs := sendIntervalMs.value); }
      if maxBufferSize.Some? { settings := settings.(maxBufferSize := maxBufferSize.value); }
    }

    /** Everything buffered, unless the transport is inactive or there is nothing to send. */
    method Take() returns (r: Option<Delivery>)
      modifies this
      ensures !old(settings.isActive) || old(entries) == [] ==> r == None && State() == old(State())
      ensures old(settings.isActive) && old(entries) != [] ==>
                && r == Some(Delivery(old(entries), old(dropped)))
                && State() == old(State()).(entries := [], dropped := 0)
    {
      if !settings.isActive || entries == [] {
        return None;
      }
      var logs := entries;
      entries := [];
      var skipped := dropped;
      dropped := 0;
      return Some(Delivery(logs, skipped));
    }
  }

  // ---- Histories ----

  datatype Call =
    | Push(entry: LogEntry)
    | Update(isActive: Option<bool>, sendIntervalMs: Option<nat>, maxBufferSize: Option<nat>)
    | Take

  /** The buffer, everything ever pushed, and everything handed out. */
  datatype History = History(buffer: Buffer, pushed: seq<LogEntry>, deliveries: seq<Delivery>)

  function Apply(h: History, c: Call): History {
    match c
    case Push(e) => h.(buffer := PushEntry(h.buffer, e), pushed := h.pushed + [e])
    case Update(a, i, m) => h.(buffer := h.buffer.(settings := UpdateSettings(h.buffer.settings, a, i, m)))
    case Take =>
      if !h.buffer.settings.isActive || h.buffer.entries == [] then h
      else h.(buffer := h.buffer.(entries := [], dropped := 0),
              deliveries := h.deliveries + [Delivery(h.buffer.entries, h.buffer.dropped)])
  }

  function Run(calls: seq<Call>): History {
    if calls == [] then History(EMPTY, [], [])
    else Apply(Run(calls[..|calls| - 1]), calls[|calls| - 1])
  }

  /** How many pushes the deliveries account for, as delivered or as reported skipped. */
  function Accounted(ds: seq<Delivery>): nat {
    if ds == [] then 0
    else Accounted(ds[..|ds| - 1]) + ds[|ds| - 1].skipped + |ds[|ds| - 1].logs|
  }

  /** Each delivery is one contiguous block of the pushed entries, and its `skipped` is the number of
      pushes between the end of the previous block and its start. */
  ghost predicate Contiguous(ds: seq<Delivery>, pushed: seq<LogEntry>) {
    && Accounted(ds) <= |pushed|
    && forall k :: 0 <= k < |ds| ==> Block(ds, pushed, k)
  }

  ghost predicate Block(ds: seq<Delivery>, pushed: seq<LogEntry>, k: nat)
    requires k < |ds|
  {
    var start := Accounted(ds[..k]) + ds[k].skipped;
    && start + |ds[k].logs| <= |pushed|
    && ds[k].logs == pushed[start..start + |ds[k].logs|]
  }

  ghost predicate Inv(h: History) {
    var b := h.buffer;
    && Accounted(h.deliveries) + b.dropped + |b.entries| == |h.pushed|
    && b.entries == h.pushed[|h.pushed| - |b.entries|..]
    && Contiguous(h.deliveries, h.pushed)
  }

  lemma {:induction false} PushKeeps(h: History, e: LogEntry)
    requires Inv(h)
    ensures Inv(Apply(h, Push(e)))
  {
    var h' := Apply(h, Push(e));
    forall k | 0 <= k < |h.deliveries|
      ensures Block(h'.deliveries, h'.pushed, k)
    {
      assert Block(h.deliveries, h.pushed, k);
    }
  }

  lemma {:induction false} TakeKeeps(h: History)
    requires Inv(h)
    ensures Inv(Apply(h, Take))
  {
    var h' := Apply(h, Take);
    if h' != h {
      var n := |h.deliveries|;
      assert h'.deliveries[..n] == h.deliveries;
      forall k | 0 <= k <= n
        ensures Block(h'.deliveries, h'.pushed, k)
      {
        assert h'.deliveries[..k] == h.deliveries[..k];
        if k < n { assert Block(h.deliveries, h.pushed, k); } else { assert h.deliveries[..n] == h.deliveries; }
      }
    }
  }

  /** Over every history of pushes, settings changes and takes: the buffer holds the latest pushes,
      each delivery is the contiguous block its predecessors and its `skipped` say it is, and every
      push is delivered, reported as skipped, waiting to be reported, or still buffered. This
      includes histories in which the limit is lowered or zero, or the transport is inactive. */
  lemma {:induction false} NothingIsLostOrRepeated(calls: seq<Call>)
    ensures var h := Run(calls);
            && h.buffer.entries == h.pushed[SaturatingSub(|h.pushed|, |h.buffer.entries|)..]
            && Accounted(h.deliveries) + h.buffer.dropped + |h.buffer.entries| == |h.pushed|
            && Contiguous(h.deliveries, h.pushed)
    ensures Inv(Run(calls))
  {
    if calls != [] {
      var n := |calls| - 1;
      NothingIsLostOrRepeated(calls[..n]);
      match calls[n]
      case Push(e) => PushKeeps(Run(calls[..n]), e);
      case Update(_, _, _) =>
      case Take => TakeKeeps(Run(calls[..n]));
    }
  }

  /** What the receiver can conclude: a take on an active transport leaves nothing pending, so the
      receiver then knows the position of every push made so far. */
  lemma {:induction false} TakeSettlesAccounts(calls: seq<Call>)
    requires Run(calls).buffer.settings.isActive && Run(calls).buffer.entries != []
    ensures var h := Apply(Run(calls), Take);
            Accounted(h.deliveries) == |h.pushed| == |Run(calls).pushed| && h.buffer.dropped == 0
  {
    NothingIsLostOrRepeated(calls);
    var h := Apply(Run(calls), Take);
    assert h.deliveries[..|h.deliveries| - 1] == Run(calls).deliveries;
  }

  /** Under a limit of zero a push empties the buffer, and the next take delivers nothing: the drops
      are counted but not reported. */
  lemma {:induction false} ZeroLimitIsSilent(calls: seq<Call>, e: LogEntry)
    requires Run(calls).buffer.settings.maxBufferSize == 0
    ensures var h := Apply(Run(calls), Push(e));
            Apply(h, Take) == h && h.buffer.dropped == Run(calls).buffer.dropped + |Run(calls).buffer.entries| + 1
  {
  }

  // ---- How much is kept ----

  /** A push drops no more than the limit demands: the newest entries stay, as many as the limit
      allows. */
  lemma {:induction false} PushKeepsWhatFits(b: Buffer, e: LogEntry)
    ensures var b' := PushEntry(b, e);
            var all := b.entries + [e];
            && |b'.entries| == Min(|b.entries| + 1, b.settings.maxBufferSize)
            && b'.entries == all[|all| - |b'.entries|..]
            && b'.dropped + |b'.entries| == b.dropped + |b.entries| + 1
  {
  }

  /** The take hands out something. */
  predicate TakesSomething(h: History) { h.buffer.settings.isActive && h.buffer.entries != [] }

  /** A take delivers exactly when the transport is active and something is buffered; otherwise it
      changes nothing. */
  lemma {:induction false} TakeDeliversExactlyWhen(h: History)
    ensures |Apply(h, Take).deliveries| == |h.deliveries| + if TakesSomething(h) then 1 else 0
    ensures !TakesSomething(h) ==> Apply(h, Take) == h
    ensures TakesSomething(h) ==> Apply(h, Take).buffer.entries == [] && Apply(h, Take).pushed == h.pushed
  {
  }

  /** The pushes since the last take that handed out something. */
  function SinceTake(calls: seq<Call>): nat {
    if calls == [] then 0
    else
      var before, c := calls[..|calls| - 1], calls[|calls| - 1];
      if c.Push? then SinceTake(before) + 1
      else if c.Take? && TakesSomething(Run(before)) then 0
      else SinceTake(before)
  }

  /** Every push happened under the limit `max`. */
  ghost predicate PushedUnder(calls: seq<Call>, max: nat) {
    calls == []
    || (PushedUnder(calls[..|calls| - 1], max)
        && (calls[|calls| - 1].Push? ==> Run(calls[..|calls| - 1]).buffer.settings.maxBufferSize == max))
  }

  /** While pushes happen under one limit, the buffer holds the pushes since the last delivery, as many
      of the newest as the limit allows, and the others are counted as dropped. */
  lemma {:induction false} BufferHoldsTheNewest(calls: seq<Call>, max: nat)
    requires PushedUnder(calls, max)
    ensures var h := Run(calls);
            && |h.buffer.entries| == Min(max, SinceTake(calls))
            && h.buffer.dropped == SaturatingSub(SinceTake(calls), max)
            && SinceTake(calls) <= |h.pushed|
            && h.buffer.entries == h.pushed[|h.pushed| - Min(max, SinceTake(calls))..]
  {
    NothingIsLostOrRepeated(calls);
    HeldSinceTake(calls, max);
    hide *;
  }

  lemma {:induction false} HeldSinceTake(calls: seq<Call>, max: nat)
    requires PushedUnder(calls, max)
    ensures var b := Run(calls).buffer;
            && |b.entries| == Min(max, SinceTake(calls))
            && b.dropped == SaturatingSub(SinceTake(calls), max)
            && SinceTake(calls) <= |Run(calls).pushed|
  {
    if calls != [] {
      var n := |calls| - 1;
      HeldSinceTake(calls[..n], max);
      var h := Run(calls[..n]);
      match calls[n]
      case Push(e) => PushKeepsWhatFits(h.buffer, e);
      case Update(_, _, _) =>
      case Take => TakeDeliversExactlyWhen(h);
    }
  }

  // ---- The settings in force ----

  function LastActive(calls: seq<Call>): bool {
    if calls == [] then false
    else if calls[|calls| - 1].Update? && calls[|calls| - 1].isActive.Some? then calls[|calls| - 1].isActive.value
    else LastActive(calls[..|calls| - 1])
  }

  function LastInterval(calls: seq<Call>): nat {
    if calls == [] then 10_000
    else if calls[|calls| - 1].Update? && calls[|calls| - 1].sendIntervalMs.Some?
    then calls[|calls| - 1].sendIntervalMs.value
    else LastInterval(calls[..|calls| - 1])
  }

  function LastMax(calls: seq<Call>): nat {
    if calls == [] then 100
    else if calls[|calls| - 1].Update? && calls[|calls| - 1].maxBufferSize.Some?
    then calls[|calls| - 1].maxBufferSize.value
    else LastMax(calls[..|calls| - 1])
  }

  /** Each setting is the one last given, whatever else was called, and the default before that. */
  lemma {:induction false} SettingsAreTheLastGiven(calls: seq<Call>)
    ensures Run(calls).buffer.settings == Settings(LastActive(calls), LastInterval(calls), LastMax(calls))
  {
    if calls != [] { SettingsAreTheLastGiven(calls[..|calls| - 1]); }
  }
}
