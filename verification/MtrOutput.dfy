/** What every reported mtr hop says about the trace (src/command/mtr.rs, `parse_raw`): its address,
    its name, its times and its statistics, position by position. */
module MtrOutput {
  import opened Wrappers
  import opened MtrStats
  import opened MtrParser
  import opened MtrTheorems
  import opened MtrHops

  /** The probes sent to a hop, each once, in the order of their first `x` lines. */
  function SentIds(es: seq<Event>, i: nat): seq<string> {
    if es == [] then []
    else
      var e, ids := es[|es| - 1], SentIds(es[..|es| - 1], i);
      if e.Sent? && e.hop == i && e.id !in ids then ids + [e.id] else ids
  }

  /** For each of them the time of its last reply, if any. */
  function TraceTimings(es: seq<Event>, i: nat): (ts: seq<Timing>)
    ensures |ts| == |SentIds(es, i)|
  {
    seq(|SentIds(es, i)|, k requires 0 <= k < |SentIds(es, i)| => LastReply(es, i, SentIds(es, i)[k]))
  }

  /** `SentIds` lists exactly what was sent, in the order of first sending. */
  lemma {:induction false} SentIdsMeaning(es: seq<Event>, i: nat)
    ensures forall id: string :: id in SentIds(es, i) <==> Sent(i, id) in es
    ensures var ids := SentIds(es, i);
            forall k, l :: 0 <= k < l < |ids| ==> FirstSent(es, i, ids[k]) < FirstSent(es, i, ids[l])
  {
    ProbeIds(es, i);
    TableIsFaithful(es, i);
    var ids := SentIds(es, i);
    forall id: string
      ensures id in ids <==> Sent(i, id) in es
    {
      FirstSentMeaning(es, i, id);
      hide FirstSent;
      IdIsListed(Probes(es, i), ids, id);
      assert HasProbe(Probes(es, i), id) <==> WasSent(es, i, id) by { ListedIsSent(es, i, id); }
    }
    hide FirstSent;
    hide Run;
  }

  lemma {:induction false} ListedIsSent(es: seq<Event>, i: nat, id: string)
    requires Faithful(Probes(es, i), es, i)
    ensures HasProbe(Probes(es, i), id) <==> WasSent(es, i, id)
  {
    hide FirstSent;
    hide LastReply;
    hide Run;
  }

  lemma {:induction false} IdIsListed(ps: seq<Probe>, ids: seq<string>, id: string)
    requires |ps| == |ids| && forall k :: 0 <= k < |ps| ==> ps[k].id == ids[k]
    ensures HasProbe(ps, id) <==> id in ids
  {
    if id in ids {
      var k :| 0 <= k < |ids| && ids[k] == id;
      assert ps[k].id == id;
    }
  }

  lemma {:induction false} SetReplyKeepsIds(ps: seq<Probe>, id: string, rtt: real)
    ensures |SetReply(ps, id, rtt)| == |ps|
    ensures forall k :: 0 <= k < |ps| ==> SetReply(ps, id, rtt)[k].id == ps[k].id
  {
    if ps != [] { SetReplyKeepsIds(ps[1..], id, rtt); }
  }

  /** The table lists the probes sent, in that order. */
  lemma {:induction false} ProbeIds(es: seq<Event>, i: nat)
    ensures |Probes(es, i)| == |SentIds(es, i)|
    ensures forall k :: 0 <= k < |Probes(es, i)| ==> Probes(es, i)[k].id == SentIds(es, i)[k]
  {
    if es != [] {
      var n := |es| - 1;
      assert es == es[..n] + [es[n]];
      ProbeIds(es[..n], i);
      EntryStep(es[..n], es[n], i);
      if es[n].Sent? { IdIsListed(Probes(es[..n], i), SentIds(es[..n], i), es[n].id); }
      if es[n].Reply? { SetReplyKeepsIds(Probes(es[..n], i), es[n].id, es[n].micros / 1000.0); }
      hide Run;
      hide HasProbe;
      hide SetReply;
    }
  }

  /** The timings of a hop are those of the trace. */
  lemma {:induction false} TimingsMeanTheTrace(es: seq<Event>, i: nat)
    ensures TimingsOf(Probes(es, i)) == TraceTimings(es, i)
  {
    ProbeIds(es, i);
    TableIsFaithful(es, i);
    hide Run;
    hide FirstSent;
    hide LastReply;
    hide SentIds;
  }

  /** The reported times: `out` lists those of `ts` that are there, in order. */
  ghost predicate ListsReplies(out: seq<Timing>, ts: seq<Timing>) {
    var rs := Rtts(ts);
    |out| == |rs| && forall k :: 0 <= k < |rs| ==> out[k] == Some(rs[k])
  }

  /** A hop says what the trace says. */
  ghost predicate SaysTheTrace(h: MtrHop, es: seq<Event>, i: nat, isFinal: bool, sqrt: real -> real) {
    && h.resolvedAddress == LastAddr(es, i)
    && h.resolvedHostname == TraceName(es, i)
    && h.stats == StatsOf(TraceTimings(es, i), isFinal, sqrt)
    && ListsReplies(h.timings, TraceTimings(es, i))
  }

  lemma {:induction false} EntrySaysTheTrace(es: seq<Event>, i: nat, isFinal: bool, sqrt: real -> real)
    ensures SaysTheTrace(HopOutput(Entry(es, i), Run(es).names, isFinal, sqrt), es, i, isFinal, sqrt)
  {
    AddressIsTheLast(es, i);
    ReportedName(es, i);
    TimingsMeanTheTrace(es, i);
    ReceivedCounts(TraceTimings(es, i));
    hide StatsOf;
    hide Run;
    hide Rtts;
    hide Received;
    hide TraceTimings;
  }

  /** Over every trace: the hops that `ParseRaw` returns are, in order, those that survive, and each
      has the address of its last `h` line, the name the trace gives it, the times of the last replies
      to its probes and the statistics of those. */
  lemma {:induction false} OutputSaysTheTrace(es: seq<Event>, isFinal: bool, sqrt: real -> real)
    ensures var out, at := Output(Run(es).hops, Run(es).names, isFinal, sqrt), Reported(Run(es).hops);
            && |out| == |at| && Ascending(at)
            && (forall i: nat :: i in at <==> Survives(es, i))
            && (forall k :: 0 <= k < |out| ==> SaysTheTrace(out[k], es, at[k], isFinal, sqrt))
  {
    var out, at := Output(Run(es).hops, Run(es).names, isFinal, sqrt), Reported(Run(es).hops);
    OutputListsSurvivors(es, isFinal, sqrt);
    hide *;
    forall k | 0 <= k < |out|
      ensures SaysTheTrace(out[k], es, at[k], isFinal, sqrt)
    {
      EntrySaysTheTrace(es, at[k], isFinal, sqrt);
    }
  }
}
