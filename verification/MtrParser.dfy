/** Parsing mtr's raw output (src/command/mtr.rs, `parse_raw`) from its lines as events.

    `Run` is the table the loop builds; the lemmas say what the table means in terms of the whole
    sequence of events, without reference to the order in which entries were updated. */
module MtrParser {
  import opened Wrappers
  import opened MtrStats

  /** A line by its action: `h`, `d`, `x`, `p`; `Other` is any other line with a readable hop index,
      `Unreadable` a line without one. */
  datatype Event =
    | Host(hop: nat, addr: string)
    | Name(hop: nat, name: string)
    | Sent(hop: nat, id: string)
    | Reply(hop: nat, micros: real, id: string)
    | Other(hop: nat)
    | Unreadable

  datatype Probe = Probe(id: string, rtt: Timing)

  datatype HopBuilder = HopBuilder(
    address: Option<string>, hostname: Option<string>, probes: seq<Probe>, duplicate: bool)

  const FRESH := HopBuilder(None, None, [], false)

  datatype MtrHop = MtrHop(
    resolvedAddress: Option<string>, resolvedHostname: Option<string>, stats: HopStats, timings: seq<Timing>)

  // ---- Specification of the loop ----

  datatype Table = Table(hops: seq<Option<HopBuilder>>, names: map<string, string>)

  function Padded(hops: seq<Option<HopBuilder>>, i: nat): (r: seq<Option<HopBuilder>>)
    ensures |r| > i && |r| >= |hops|
    ensures forall j :: 0 <= j < |r| ==> r[j] == if j < |hops| then hops[j] else None
    decreases i + 1 - |hops|
  {
    if |hops| > i then hops else Padded(hops + [None], i)
  }

  function BuilderAt(hops: seq<Option<HopBuilder>>, i: nat): HopBuilder {
    if i < |hops| && hops[i].Some? then hops[i].value else FRESH
  }

  predicate Present(hops: seq<Option<HopBuilder>>, i: nat) { i < |hops| && hops[i].Some? }

  /** The address occurs at a lower hop. */
  predicate SeenBelow(hops: seq<Option<HopBuilder>>, i: nat, addr: string) {
    exists j :: 0 <= j < i && BuilderAt(hops, j).address == Some(addr)
  }

  predicate HasProbe(ps: seq<Probe>, id: string) {
    exists k :: 0 <= k < |ps| && ps[k].id == id
  }

  /** The first probe with this id gets the time. */
  function SetReply(ps: seq<Probe>, id: string, rtt: real): (r: seq<Probe>) {
    if ps == [] then []
    else if ps[0].id == id then [Probe(id, Some(rtt))] + ps[1..]
    else [ps[0]] + SetReply(ps[1..], id, rtt)
  }

  function Updated(b: HopBuilder, e: Event, seenBelow: bool): HopBuilder {
    match e
    case Host(_, a) => b.(address := Some(a), duplicate := seenBelow)
    case Name(_, n) => b.(hostname := Some(n))
    case Sent(_, id) => if HasProbe(b.probes, id) then b else b.(probes := b.probes + [Probe(id, None)])
    case Reply(_, us, id) => b.(probes := SetReply(b.probes, id, us / 1000.0))
    case _ => b
  }

  predicate Creates(e: Event) { e.Host? || e.Name? || e.Sent? }

  function Step(t: Table, e: Event): Table {
    if e.Unreadable? then t
    else
      var hs := Padded(t.hops, e.hop);
      var b := BuilderAt(hs, e.hop);
      var seen := e.Host? && SeenBelow(hs, e.hop, e.addr);
      Table(if Creates(e) || hs[e.hop].Some? then hs[e.hop := Some(Updated(b, e, seen))] else hs,
            if e.Name? && b.address.Some? then t.names[b.address.value := e.name] else t.names)
  }

  function Run(es: seq<Event>): Table {
    if es == [] then Table([], map[]) else Step(Run(es[..|es| - 1]), es[|es| - 1])
  }

  // ---- Specification of the output ----

  /** A hop without a name of its own takes the name given to its address. */
  function FinalName(b: HopBuilder, names: map<string, string>): Option<string> {
    if (b.hostname.None? || b.hostname == b.address) && b.address.Some? && b.address.value in names
    then Some(names[b.address.value])
    else b.hostname
  }

  function TimingsOf(ps: seq<Probe>): (r: seq<Timing>)
    ensures |r| == |ps|
  {
    seq(|ps|, k requires 0 <= k < |ps| => ps[k].rtt)
  }

  function Received(ts: seq<Timing>): seq<Timing> {
    if ts == [] then [] else Received(ts[..|ts| - 1]) + if ts[|ts| - 1].Some? then [ts[|ts| - 1]] else []
  }

  function HopOutput(b: HopBuilder, names: map<string, string>, isFinal: bool, sqrt: real -> real): MtrHop {
    MtrHop(b.address, FinalName(b, names), StatsOf(TimingsOf(b.probes), isFinal, sqrt), Received(TimingsOf(b.probes)))
  }

  function Output(hops: seq<Option<HopBuilder>>, names: map<string, string>, isFinal: bool,
                  sqrt: real -> real): seq<MtrHop>
  {
    if hops == [] then []
    else
      var h := hops[|hops| - 1];
      Output(hops[..|hops| - 1], names, isFinal, sqrt)
      + if h.Some? && !h.value.duplicate then [HopOutput(h.value, names, isFinal, sqrt)] else []
  }

  // ---- The parser ----

  method Pad(hops: seq<Option<HopBuilder>>, i: nat) returns (r: seq<Option<HopBuilder>>)
    ensures r == Padded(hops, i)
  {
    r := hops;
    while |r| <= i
      invariant Padded(r, i) == Padded(hops, i)
      decreases i + 1 - |r|
    {
      r := r + [None];
    }
  }

  method AnySeenBelow(hops: seq<Option<HopBuilder>>, i: nat, addr: string) returns (b: bool)
    requires i <= |hops|
    ensures b <==> SeenBelow(hops, i, addr)
  {
    for j := 0 to i
      invariant forall k :: 0 <= k < j ==> BuilderAt(hops, k).address != Some(addr)
    {
      if hops[j].Some? && hops[j].value.address == Some(addr) {
        assert BuilderAt(hops, j).address == Some(addr);
        return true;
      }
    }
    return false;
  }

  method RecordReply(probes: seq<Probe>, id: string, rtt: real) returns (r: seq<Probe>)
    ensures r == SetReply(probes, id, rtt)
  {
    r := probes;
    for k := 0 to |probes|
      invariant r == probes
      invariant SetReply(probes, id, rtt) == probes[..k] + SetReply(probes[k..], id, rtt)
    {
      assert probes[k..][1..] == probes[k + 1..];
      if probes[k].id == id {
        r := r[k := Probe(id, Some(rtt))];
        return;
      }
      assert probes[..k + 1] == probes[..k] + [probes[k]];
    }
  }

  /** The loop over the lines. */
  method BuildTable(events: seq<Event>) returns (builders: seq<Option<HopBuilder>>, names: map<string, string>)
    ensures Table(builders, names) == Run(events)
  {
    builders, names := [], map[];
    for n := 0 to |events|
      invariant Table(builders, names) == Run(events[..n])
    {
      assert events[..n + 1][..n] == events[..n];
      var e := events[n];
      if e.Unreadable? {
        continue;
      }
      builders := Pad(builders, e.hop);
      var entry := if builders[e.hop].Some? then builders[e.hop].value else FRESH;
      match e
      case Host(i, addr) =>
        var isDup := AnySeenBelow(builders, i, addr);
        builders := builders[i := Some(entry.(address := Some(addr), duplicate := isDup))];
      case Name(i, hn) =>
        builders := builders[i := Some(entry.(hostname := Some(hn)))];
        if entry.address.Some? { names := names[entry.address.value := hn]; }
      case Sent(i, id) =>
        if !HasProbe(entry.probes, id) { entry := entry.(probes := entry.probes + [Probe(id, None)]); }
        builders := builders[i := Some(entry)];
      case Reply(i, us, id) =>
        if builders[i].Some? {
          var ps := RecordReply(entry.probes, id, us / 1000.0);
          builders := builders[i := Some(entry.(probes := ps))];
        }
      case Other(i) =>
    }
    assert events[..|events|] == events;
  }

  /** Names are propagated by address, duplicates removed, statistics computed. */
  method ParseRaw(events: seq<Event>, isFinal: bool, sqrt: real -> real) returns (hops: seq<MtrHop>)
    ensures hops == Output(Run(events).hops, Run(events).names, isFinal, sqrt)
  {
    var builders, names := BuildTable(events);
    hops := [];
    for n := 0 to |builders|
      invariant hops == Output(builders[..n], names, isFinal, sqrt)
    {
      assert builders[..n + 1][..n] == builders[..n];
      if builders[n].Some? && !builders[n].value.duplicate {
        var b := builders[n].value;
        var hostname := b.hostname;
        if b.hostname.None? || b.hostname == b.address {
          if b.address.Some? && b.address.value in names { hostname := Some(names[b.address.value]); }
        }
        var timings := TimingsOf(b.probes);
        var stats := ComputeStats(timings, isFinal, sqrt);
        hops := hops + [MtrHop(b.address, hostname, stats, Received(timings))];
      }
    }
    assert builders[..|builders|] == builders;
  }
}
