/** What a parsed mtr trace means, over every sequence of events. */
module MtrTheorems {
  import opened Wrappers
  import opened MtrStats
  import opened MtrParser

  function Entry(es: seq<Event>, i: nat): HopBuilder { BuilderAt(Run(es).hops, i) }
  function Probes(es: seq<Event>, i: nat): seq<Probe> { Entry(es, i).probes }

  predicate AtHop(e: Event, i: nat) { !e.Unreadable? && e.hop == i }

  /** One more event changes one entry only. */
  lemma {:induction false} EntryStep(es: seq<Event>, e: Event, i: nat)
    ensures Present(Run(es + [e]).hops, i) <==> Present(Run(es).hops, i) || (AtHop(e, i) && Creates(e))
    ensures !AtHop(e, i) ==> Entry(es + [e], i) == Entry(es, i)
    ensures AtHop(e, i) && (Creates(e) || Present(Run(es).hops, i)) ==>
              Entry(es + [e], i) ==
              Updated(Entry(es, i), e, e.Host? && SeenBelow(Run(es).hops, i, e.addr))
    ensures AtHop(e, i) && !Creates(e) && !Present(Run(es).hops, i) ==> Entry(es + [e], i) == FRESH == Entry(es, i)
  {
    assert (es + [e])[..|es|] == es;
    var t := Run(es);
    assert Run(es + [e]) == Step(t, e);
    hide Run;
    if !e.Unreadable? {
      var hs := Padded(t.hops, e.hop);
      PaddingIsInvisible(t.hops, e.hop);
      hide Padded;
      assert BuilderAt(hs, i) == BuilderAt(t.hops, i) && (Present(hs, i) <==> Present(t.hops, i));
      assert e.Host? ==> (SeenBelow(hs, e.hop, e.addr) <==> SeenBelow(t.hops, e.hop, e.addr));
      var seen := e.Host? && SeenBelow(hs, e.hop, e.addr);
      hide SeenBelow;
      if e.hop == i {
        assert Creates(e) || hs[i].Some? ==> Entry(es + [e], i) == Updated(BuilderAt(hs, i), e, seen);
      } else {
        assert i < |hs| ==> Step(t, e).hops[i] == hs[i];
      }
    }
  }

  lemma {:induction false} PaddingIsInvisible(hops: seq<Option<HopBuilder>>, i: nat)
    ensures forall j: nat :: BuilderAt(Padded(hops, i), j) == BuilderAt(hops, j)
    ensures forall j: nat :: Present(Padded(hops, i), j) <==> Present(hops, j)
  {
  }

  /** A hop is present exactly when an `h`, `d` or `x` line named it. */
  lemma {:induction false} PresentExactlyWhen(es: seq<Event>, i: nat)
    ensures Present(Run(es).hops, i) <==> exists k :: 0 <= k < |es| && AtHop(es[k], i) && Creates(es[k])
  {
    if es != [] {
      var n := |es| - 1;
      assert es == es[..n] + [es[n]];
      EntryStep(es[..n], es[n], i);
      PresentExactlyWhen(es[..n], i);
      hide Run;
      assert forall k :: 0 <= k < n ==> es[..n][k] == es[k];
    }
  }

  // ---- Probes ----

  /** Position of the first `x` line for this hop and probe; the length if there is none. */
  function FirstSent(es: seq<Event>, i: nat, id: string): nat {
    if es == [] then 0
    else
      var n := |es| - 1;
      var f := FirstSent(es[..n], i, id);
      if f < n then f else if es[n] == Sent(i, id) then n else n + 1
  }

  lemma {:induction false} FirstSentMeaning(es: seq<Event>, i: nat, id: string)
    ensures FirstSent(es, i, id) <= |es|
    ensures FirstSent(es, i, id) < |es| ==> es[FirstSent(es, i, id)] == Sent(i, id)
    ensures forall k :: 0 <= k < FirstSent(es, i, id) ==> es[k] != Sent(i, id)
  {
    if es != [] { FirstSentMeaning(es[..|es| - 1], i, id); }
  }

  predicate WasSent(es: seq<Event>, i: nat, id: string) { FirstSent(es, i, id) < |es| }

  /** The time of the last `p` line for this hop and probe that follows its first `x` line. */
  function LastReply(es: seq<Event>, i: nat, id: string): Timing {
    if es == [] then None
    else
      var n := |es| - 1;
      if es[n].Reply? && es[n].hop == i && es[n].id == id && WasSent(es[..n], i, id)
      then Some(es[n].micros / 1000.0)
      else LastReply(es[..n], i, id)
  }

  /** `p` at position `j` answers the probe, and no later one does. */
  ghost predicate IsLastReply(es: seq<Event>, i: nat, id: string, j: nat) {
    && j < |es| && es[j].Reply? && es[j].hop == i && es[j].id == id
    && FirstSent(es, i, id) < j
    && forall k :: j < k < |es| ==> !(es[k].Reply? && es[k].hop == i && es[k].id == id)
  }

  lemma {:induction false} FirstSentPrefix(es: seq<Event>, e: Event, i: nat, id: string)
    ensures WasSent(es, i, id) ==> FirstSent(es + [e], i, id) == FirstSent(es, i, id)
    ensures !WasSent(es, i, id) ==> FirstSent(es + [e], i, id) == if e == Sent(i, id) then |es| else |es| + 1
  {
    assert (es + [e])[..|es|] == es;
    FirstSentMeaning(es, i, id);
  }

  lemma {:induction false} LastReplyMeaning(es: seq<Event>, i: nat, id: string)
    ensures LastReply(es, i, id).None? ==> forall j: nat :: !IsLastReply(es, i, id, j)
    ensures LastReply(es, i, id).Some? ==>
              exists j: nat :: IsLastReply(es, i, id, j) && LastReply(es, i, id) == Some(es[j].micros / 1000.0)
  {
    if es != [] {
      var n := |es| - 1;
      var p := es[..n];
      assert es == p + [es[n]];
      LastReplyMeaning(p, i, id);
      FirstSentPrefix(p, es[n], i, id);
      FirstSentMeaning(p, i, id);
      hide FirstSent;
      var answers := es[n].Reply? && es[n].hop == i && es[n].id == id;
      if answers && WasSent(p, i, id) {
        assert IsLastReply(es, i, id, n);
      } else if LastReply(p, i, id).Some? {
        var j: nat :| IsLastReply(p, i, id, j) && LastReply(p, i, id) == Some(p[j].micros / 1000.0);
        LaterEventKeepsReply(p, es[n], i, id, j);
      } else {
        forall j: nat
          ensures !IsLastReply(es, i, id, j)
        {
          if IsLastReply(es, i, id, j) { EarlierReply(p, es[n], i, id, j); }
        }
      }
    }
  }

  lemma {:induction false} LaterEventKeepsReply(p: seq<Event>, e: Event, i: nat, id: string, j: nat)
    requires IsLastReply(p, i, id, j) && !(e.Reply? && e.hop == i && e.id == id && WasSent(p, i, id))
    ensures IsLastReply(p + [e], i, id, j) && (p + [e])[j] == p[j]
  {
    FirstSentPrefix(p, e, i, id);
  }

  lemma {:induction false} EarlierReply(p: seq<Event>, e: Event, i: nat, id: string, j: nat)
    requires IsLastReply(p + [e], i, id, j)
    requires !(e.Reply? && e.hop == i && e.id == id && WasSent(p, i, id))
    ensures IsLastReply(p, i, id, j)
  {
    FirstSentPrefix(p, e, i, id);
    FirstSentMeaning(p, i, id);
    var es := p + [e];
    if j < |p| {
      assert es[j] == p[j];
      forall k | j < k < |p|
        ensures !(p[k].Reply? && p[k].hop == i && p[k].id == id)
      {
        assert es[k] == p[k];
      }
    }
  }

  /** The table agrees with the trace: the probes listed are those sent, in the order of their first
      `x` lines, each with the time of its last reply. */
  ghost predicate Faithful(ps: seq<Probe>, es: seq<Event>, i: nat) {
    && (forall k :: 0 <= k < |ps| ==> WasSent(es, i, ps[k].id) && ps[k].rtt == LastReply(es, i, ps[k].id))
    && (forall k, l :: 0 <= k < l < |ps| ==> FirstSent(es, i, ps[k].id) < FirstSent(es, i, ps[l].id))
    && (forall id: string :: WasSent(es, i, id) ==> HasProbe(ps, id))
  }

  lemma {:induction false} SetReplyMeaning(ps: seq<Probe>, id: string, rtt: real)
    requires forall k, l :: 0 <= k < l < |ps| ==> ps[k].id != ps[l].id
    ensures |SetReply(ps, id, rtt)| == |ps|
    ensures forall k :: 0 <= k < |ps| ==>
              SetReply(ps, id, rtt)[k] == if ps[k].id == id then Probe(id, Some(rtt)) else ps[k]
  {
    if ps != [] { SetReplyMeaning(ps[1..], id, rtt); }
  }

  lemma {:induction false} TraceStep(es: seq<Event>, e: Event, i: nat, id: string)
    ensures WasSent(es + [e], i, id) <==> WasSent(es, i, id) || e == Sent(i, id)
    ensures WasSent(es, i, id) ==> FirstSent(es + [e], i, id) == FirstSent(es, i, id) < |es|
    ensures !WasSent(es, i, id) && e == Sent(i, id) ==> FirstSent(es + [e], i, id) == |es|
    ensures LastReply(es + [e], i, id) ==
            if e.Reply? && e.hop == i && e.id == id && WasSent(es, i, id) then Some(e.micros / 1000.0)
            else LastReply(es, i, id)
  {
    ReplyStep(es, e, i, id);
    FirstSentPrefix(es, e, i, id);
    FirstSentMeaning(es, i, id);
    hide FirstSent;
    hide LastReply;
  }

  lemma {:induction false} ReplyStep(es: seq<Event>, e: Event, i: nat, id: string)
    ensures LastReply(es + [e], i, id) ==
            if e.Reply? && e.hop == i && e.id == id && WasSent(es, i, id) then Some(e.micros / 1000.0)
            else LastReply(es, i, id)
  {
    assert (es + [e])[..|es|] == es;
    hide FirstSent;
  }

  lemma {:induction false} NoReplyBeforeSent(es: seq<Event>, i: nat, id: string)
    requires !WasSent(es, i, id)
    ensures LastReply(es, i, id) == None
  {
    if es != [] {
      var n := |es| - 1;
      assert es == es[..n] + [es[n]];
      FirstSentPrefix(es[..n], es[n], i, id);
      FirstSentMeaning(es[..n], i, id);
      NoReplyBeforeSent(es[..n], i, id);
    }
  }

  lemma {:induction false} FaithfulSent(ps: seq<Probe>, es: seq<Event>, i: nat, id: string)
    requires Faithful(ps, es, i)
    ensures Faithful(if HasProbe(ps, id) then ps else ps + [Probe(id, None)], es + [Sent(i, id)], i)
  {
    var e := Sent(i, id);
    var ps' := if HasProbe(ps, id) then ps else ps + [Probe(id, None)];
    forall x: string { TraceStep(es, e, i, x); }
    hide FirstSent;
    hide LastReply;
    if WasSent(es, i, id) {
    } else {
      assert forall k :: 0 <= k < |ps| ==> ps[k].id != id;
      NoReplyBeforeSent(es, i, id);
    }
    forall x: string | WasSent(es + [e], i, x)
      ensures HasProbe(ps', x)
    {
      if x == id {
        if !HasProbe(ps, id) { assert ps'[|ps|].id == id; }
      } else {
        assert HasProbe(ps, x);
        var k :| 0 <= k < |ps| && ps[k].id == x;
        assert ps'[k].id == x;
      }
    }
  }

  lemma {:induction false} DistinctIds(ps: seq<Probe>, es: seq<Event>, i: nat)
    requires Faithful(ps, es, i)
    ensures forall k, l :: 0 <= k < l < |ps| ==> ps[k].id != ps[l].id
  {
  }

  lemma {:induction false} FaithfulReply(ps: seq<Probe>, es: seq<Event>, i: nat, id: string, us: real)
    requires Faithful(ps, es, i)
    ensures Faithful(SetReply(ps, id, us / 1000.0), es + [Reply(i, us, id)], i)
  {
    var ps' := SetReply(ps, id, us / 1000.0);
    DistinctIds(ps, es, i);
    SetReplyMeaning(ps, id, us / 1000.0);
    hide SetReply;
    hide FirstSent;
    hide LastReply;
    SameIdsSameProbes(ps, ps');
    hide HasProbe;
    var e := Reply(i, us, id);
    forall k | 0 <= k < |ps'|
      ensures WasSent(es + [e], i, ps'[k].id) && ps'[k].rtt == LastReply(es + [e], i, ps'[k].id)
      ensures FirstSent(es + [e], i, ps'[k].id) == FirstSent(es, i, ps[k].id)
    {
      TraceStep(es, e, i, ps[k].id);
    }
    forall x: string | WasSent(es + [e], i, x)
      ensures HasProbe(ps', x)
    {
      TraceStep(es, e, i, x);
    }
  }

  lemma {:induction false} SameIdsSameProbes(ps: seq<Probe>, qs: seq<Probe>)
    requires |ps| == |qs| && forall k :: 0 <= k < |ps| ==> qs[k].id == ps[k].id
    ensures forall id: string :: HasProbe(ps, id) <==> HasProbe(qs, id)
  {
    forall id: string
      ensures HasProbe(ps, id) <==> HasProbe(qs, id)
    {
      if HasProbe(ps, id) {
        var k :| 0 <= k < |ps| && ps[k].id == id;
        assert qs[k].id == id;
      }
      if HasProbe(qs, id) {
        var k :| 0 <= k < |qs| && qs[k].id == id;
        assert ps[k].id == id;
      }
    }
  }

  lemma {:induction false} FaithfulOther(ps: seq<Probe>, es: seq<Event>, e: Event, i: nat)
    requires Faithful(ps, es, i) && (AtHop(e, i) ==> !e.Sent? && !e.Reply?)
    ensures Faithful(ps, es + [e], i)
  {
    forall x: string { TraceStep(es, e, i, x); }
    hide FirstSent;
    hide LastReply;
  }

  /** Over any sequence of events. */
  lemma {:induction false} TableIsFaithful(es: seq<Event>, i: nat)
    ensures Faithful(Probes(es, i), es, i)
  {
    if es == [] {
    } else {
      var n := |es| - 1;
      var p, e := es[..n], es[n];
      assert es == p + [e];
      TableIsFaithful(p, i);
      EntryStep(p, e, i);
      hide Run;
      hide Faithful;
      if e == Unreadable || e.hop != i {
        FaithfulOther(Probes(p, i), p, e, i);
      } else {
        match e
        case Sent(_, id) => FaithfulSent(Probes(p, i), p, i, id);
        case Reply(_, us, id) =>
          FaithfulReply(Probes(p, i), p, i, id, us);
        case _ => FaithfulOther(Probes(p, i), p, e, i);
      }
    }
  }

  /** Every hop lists each probe sent to it once, in the order of first sending. A probe has a time
      exactly when some reply follows its first `x` line, and then it is that of the last such reply. */
  lemma {:induction false} ProbesMeanTheTrace(es: seq<Event>, i: nat, k: nat)
    requires k < |Probes(es, i)|
    ensures var ps := Probes(es, i);
            && (exists f :: 0 <= f < |es| && es[f] == Sent(i, ps[k].id))
            && (forall l :: 0 <= l < |ps| && l != k ==> ps[l].id != ps[k].id)
            && (forall l :: k < l < |ps| ==> FirstSent(es, i, ps[k].id) < FirstSent(es, i, ps[l].id))
            && (ps[k].rtt.Some? <==> exists j: nat :: IsLastReply(es, i, ps[k].id, j))
            && (ps[k].rtt.Some? ==>
                  exists j: nat :: IsLastReply(es, i, ps[k].id, j) && ps[k].rtt == Some(es[j].micros / 1000.0))
  {
    TableIsFaithful(es, i);
    var ps := Probes(es, i);
    DistinctIds(ps, es, i);
    FirstSentMeaning(es, i, ps[k].id);
    LastReplyMeaning(es, i, ps[k].id);
    hide Run;
    hide FirstSent;
    hide LastReply;
    hide IsLastReply;
  }

  /** Every probe sent is listed. */
  lemma {:induction false} EverySentProbeIsListed(es: seq<Event>, f: nat)
    requires f < |es| && es[f].Sent?
    ensures HasProbe(Probes(es, es[f].hop), es[f].id)
  {
    TableIsFaithful(es, es[f].hop);
    FirstSentMeaning(es, es[f].hop, es[f].id);
    hide Run;
  }
}
