/** Which hops of an mtr trace survive, under which name, and with which counts. */
module MtrHops {
  import opened Wrappers
  import opened MtrStats
  import opened MtrParser
  import opened MtrTheorems

  // ---- Addresses and duplicates ----

  /** The address of the last `h` line for this hop. */
  function LastAddr(es: seq<Event>, i: nat): Option<string> {
    if es == [] then None
    else
      var e := es[|es| - 1];
      if e.Host? && e.hop == i then Some(e.addr) else LastAddr(es[..|es| - 1], i)
  }

  /** A lower hop has this address at this point of the trace. */
  ghost predicate AddrBelow(es: seq<Event>, i: nat, addr: string) {
    exists j: nat :: j < i && LastAddr(es, j) == Some(addr)
  }

  /** At the last `h` line for this hop, a lower hop had the same address. */
  ghost predicate Repeats(es: seq<Event>, i: nat) {
    if es == [] then false
    else
      var n := |es| - 1;
      if es[n].Host? && es[n].hop == i then AddrBelow(es[..n], i, es[n].addr) else Repeats(es[..n], i)
  }

  lemma {:induction false} AddressIsTheLast(es: seq<Event>, i: nat)
    ensures Entry(es, i).address == LastAddr(es, i)
  {
    if es != [] {
      var n := |es| - 1;
      assert es == es[..n] + [es[n]];
      AddressIsTheLast(es[..n], i);
      EntryStep(es[..n], es[n], i);
      hide Run;
    }
  }

  lemma {:induction false} SeenMeansAddrBelow(es: seq<Event>, i: nat, addr: string)
    ensures SeenBelow(Run(es).hops, i, addr) <==> AddrBelow(es, i, addr)
  {
    hide Run;
    hide LastAddr;
    forall j: nat
      ensures BuilderAt(Run(es).hops, j).address == LastAddr(es, j)
    {
      AddressIsTheLast(es, j);
    }
    if AddrBelow(es, i, addr) {
      var j: nat :| j < i && LastAddr(es, j) == Some(addr);
      assert BuilderAt(Run(es).hops, j).address == Some(addr);
    }
  }

  /** For every trace, in whatever order its lines arrive, a hop is marked a duplicate exactly when a
      lower hop had its address at its last `h` line. */
  lemma {:induction false} DuplicateExactlyWhen(es: seq<Event>, i: nat)
    ensures Entry(es, i).duplicate <==> Repeats(es, i)
  {
    if es != [] {
      var n := |es| - 1;
      assert es == es[..n] + [es[n]];
      DuplicateExactlyWhen(es[..n], i);
      EntryStep(es[..n], es[n], i);
      if es[n].Host? { SeenMeansAddrBelow(es[..n], i, es[n].addr); }
      hide Run;
      hide AddrBelow;
      hide SeenBelow;
    }
  }

  // ---- Duplicates by line position ----

  predicate HostLine(e: Event, i: nat) { e.Host? && e.hop == i }
  predicate HostBelow(e: Event, i: nat) { e.Host? && e.hop < i }

  /** Line `t` is the last `h` line for hop `i` among the first `n` lines. */
  ghost predicate IsLastHost(es: seq<Event>, n: nat, i: nat, t: nat)
    requires n <= |es|
  {
    t < n && HostLine(es[t], i) && forall r :: t < r < n ==> !HostLine(es[r], i)
  }

  /** After the first `n` lines a hop below `i` has this address: some `h` line gave it and no line
      since has given that hop another. */
  ghost predicate HeldBelow(es: seq<Event>, n: nat, i: nat, addr: string)
    requires n <= |es|
  {
    exists p: nat :: p < n && HostBelow(es[p], i) && es[p].addr == addr && IsLastHost(es, n, es[p].hop, p)
  }

  lemma {:induction false} LastAddrByPosition(es: seq<Event>, i: nat, addr: string)
    ensures LastAddr(es, i) == Some(addr)
            <==> exists p: nat :: IsLastHost(es, |es|, i, p) && es[p].addr == addr
  {
    if es != [] {
      var n := |es| - 1;
      var q := es[..n];
      LastAddrByPosition(q, i, addr);
      if HostLine(es[n], i) {
        if es[n].addr == addr { assert IsLastHost(es, |es|, i, n); }
      } else {
        if p: nat :| IsLastHost(q, n, i, p) && q[p].addr == addr {
          assert IsLastHost(es, |es|, i, p);
        }
        if p: nat :| IsLastHost(es, |es|, i, p) && es[p].addr == addr {
          assert IsLastHost(q, n, i, p) && q[p].addr == addr;
        }
      }
    }
  }

  lemma {:induction false} AddrBelowByPosition(es: seq<Event>, n: nat, i: nat, addr: string)
    requires n <= |es|
    ensures AddrBelow(es[..n], i, addr) <==> HeldBelow(es, n, i, addr)
  {
    var q := es[..n];
    if AddrBelow(q, i, addr) {
      var j: nat :| j < i && LastAddr(q, j) == Some(addr);
      LastAddrByPosition(q, j, addr);
      var p: nat :| IsLastHost(q, n, j, p) && q[p].addr == addr;
      assert IsLastHost(es, n, es[p].hop, p);
    }
    if HeldBelow(es, n, i, addr) {
      var p: nat :| p < n && HostBelow(es[p], i) && es[p].addr == addr && IsLastHost(es, n, es[p].hop, p);
      assert IsLastHost(q, n, es[p].hop, p) && q[p].addr == addr;
      LastAddrByPosition(q, es[p].hop, addr);
    }
  }

  /** A hop with an address has a last `h` line, which decides its mark. */
  lemma {:induction false} RepeatsByPosition(es: seq<Event>, i: nat, t: nat)
    requires IsLastHost(es, |es|, i, t)
    ensures LastAddr(es, i) == Some(es[t].addr)
    ensures Repeats(es, i) <==> AddrBelow(es[..t], i, es[t].addr)
  {
    var n := |es| - 1;
    if t < n {
      assert IsLastHost(es[..n], n, i, t);
      assert es[..n][..t] == es[..t];
      RepeatsByPosition(es[..n], i, t);
    }
  }

  predicate Survives(es: seq<Event>, i: nat) { Present(Run(es).hops, i) && !Entry(es, i).duplicate }

  /** A hop without an address is never removed. */
  lemma {:induction false} NamelessHopsStay(es: seq<Event>, i: nat)
    requires Present(Run(es).hops, i) && Entry(es, i).address.None?
    ensures Survives(es, i)
  {
    AddressIsTheLast(es, i);
    DuplicateExactlyWhen(es, i);
    hide Run;
    NoAddressNoRepeat(es, i);
  }

  lemma {:induction false} NoAddressNoRepeat(es: seq<Event>, i: nat)
    requires LastAddr(es, i).None?
    ensures !Repeats(es, i)
  {
    if es != [] { NoAddressNoRepeat(es[..|es| - 1], i); }
  }

  lemma {:induction false} AddressMeansPresent(es: seq<Event>, i: nat)
    requires Entry(es, i).address.Some?
    ensures Present(Run(es).hops, i)
  {
  }

  ghost predicate LowestWithAddress(es: seq<Event>, i: nat) {
    forall j: nat :: j < i ==> Entry(es, j).address != Entry(es, i).address
  }

  /** A line after `t` gives a lower hop the address of line `t`, which no lower hop had at `t`, and
      that hop keeps it. */
  ghost predicate TakenLater(es: seq<Event>, i: nat, t: nat, p: nat)
    requires t < |es| && es[t].Host?
  {
    && t < p < |es| && HostBelow(es[p], i) && es[p].addr == es[t].addr
    && IsLastHost(es, |es|, es[p].hop, p)
    && !HeldBelow(es, t, i, es[t].addr)
  }

  /** A lower hop had the address of line `t` at `t`, a later line gives the last such hop another
      address, and no line after that gives the address to a lower hop again. */
  ghost predicate DroppedLater(es: seq<Event>, i: nat, t: nat, p: nat)
    requires t < |es| && es[t].Host?
  {
    var addr := es[t].addr;
    && t < p < |es| && HostBelow(es[p], i) && es[p].addr != addr
    && HeldBelow(es, t, i, addr)
    && HeldBelow(es, p, i, addr) && !HeldBelow(es, p + 1, i, addr)
    && forall q :: p < q < |es| && HostBelow(es[q], i) ==> es[q].addr != addr
  }

  /** The promise "a hop with an address survives exactly if it is the lowest with that address", in
      any order of lines: it fails for a hop exactly when a line after the hop's last `h` line takes
      its address to a lower hop or drops it from the last one. */
  lemma {:induction false} LowestSurvivesExactlyWhen(es: seq<Event>, i: nat, t: nat)
    requires IsLastHost(es, |es|, i, t)
    ensures !(Survives(es, i) <==> LowestWithAddress(es, i))
            <==> exists p: nat :: TakenLater(es, i, t, p) || DroppedLater(es, i, t, p)
  {
    var addr := es[t].addr;
    SurvivesByPosition(es, i, t);
    hide Survives;
    hide LowestWithAddress;
    if !HeldBelow(es, t, i, addr) && HeldBelow(es, |es|, i, addr) {
      var p := TakingLine(es, i, t);
    }
    if HeldBelow(es, t, i, addr) && !HeldBelow(es, |es|, i, addr) {
      var p := DroppingLine(es, i, t, |es|);
    }
    forall p: nat | TakenLater(es, i, t, p)
      ensures HeldBelow(es, |es|, i, addr)
    {
    }
    forall p: nat | DroppedLater(es, i, t, p)
      ensures !HeldBelow(es, |es|, i, addr)
    {
      StaysDropped(es, i, t, p);
    }
  }

  lemma {:induction false} SurvivesByPosition(es: seq<Event>, i: nat, t: nat)
    requires IsLastHost(es, |es|, i, t)
    ensures Entry(es, i).address == Some(es[t].addr)
    ensures Survives(es, i) <==> !HeldBelow(es, t, i, es[t].addr)
    ensures LowestWithAddress(es, i) <==> !HeldBelow(es, |es|, i, es[t].addr)
  {
    var addr := es[t].addr;
    RepeatsByPosition(es, i, t);
    DuplicateExactlyWhen(es, i);
    AddressIsTheLast(es, i);
    AddressMeansPresent(es, i);
    AddrBelowByPosition(es, t, i, addr);
    assert es[..|es|] == es;
    AddrBelowByPosition(es, |es|, i, addr);
    forall j: nat
      ensures Entry(es, j).address == LastAddr(es, j)
    {
      AddressIsTheLast(es, j);
    }
    hide Entry;
    hide LastAddr;
    hide HeldBelow;
    hide Run;
  }

  lemma {:induction false} TakingLine(es: seq<Event>, i: nat, t: nat) returns (p: nat)
    requires IsLastHost(es, |es|, i, t)
    requires !HeldBelow(es, t, i, es[t].addr) && HeldBelow(es, |es|, i, es[t].addr)
    ensures TakenLater(es, i, t, p)
  {
    p :| p < |es| && HostBelow(es[p], i) && es[p].addr == es[t].addr && IsLastHost(es, |es|, es[p].hop, p);
    if p < t { assert IsLastHost(es, t, es[p].hop, p); }
  }

  /** Only an `h` line of a lower hop with another address ends that a lower hop has the address. */
  lemma {:induction false} HeldStep(es: seq<Event>, n: nat, i: nat, addr: string)
    requires n < |es| && HeldBelow(es, n, i, addr) && !HeldBelow(es, n + 1, i, addr)
    ensures HostBelow(es[n], i) && es[n].addr != addr
  {
    var p: nat :| p < n && HostBelow(es[p], i) && es[p].addr == addr && IsLastHost(es, n, es[p].hop, p);
    if !HostLine(es[n], es[p].hop) {
      assert IsLastHost(es, n + 1, es[p].hop, p);
    } else if es[n].addr == addr {
      assert IsLastHost(es, n + 1, es[n].hop, n);
    }
  }

  lemma {:induction false} TakeHolds(es: seq<Event>, n: nat, i: nat, addr: string)
    requires n < |es| && HostBelow(es[n], i) && es[n].addr == addr
    ensures HeldBelow(es, n + 1, i, addr)
  {
    assert IsLastHost(es, n + 1, es[n].hop, n);
  }

  lemma {:induction false} DroppingLine(es: seq<Event>, i: nat, t: nat, n: nat) returns (p: nat)
    requires IsLastHost(es, |es|, i, t) && t < n <= |es|
    requires HeldBelow(es, t, i, es[t].addr)
    requires forall m :: n <= m <= |es| ==> !HeldBelow(es, m, i, es[t].addr)
    ensures DroppedLater(es, i, t, p)
    decreases n
  {
    var addr := es[t].addr;
    hide HeldBelow;
    if HeldBelow(es, n - 1, i, addr) {
      p := n - 1;
      HeldStep(es, p, i, addr);
      forall q | p < q < |es| && HostBelow(es[q], i)
        ensures es[q].addr != addr
      {
        if es[q].addr == addr { TakeHolds(es, q, i, addr); }
      }
    } else {
      p := DroppingLine(es, i, t, n - 1);
    }
  }

  lemma {:induction false} StaysDropped(es: seq<Event>, i: nat, t: nat, p: nat)
    requires t < |es| && es[t].Host? && DroppedLater(es, i, t, p)
    ensures !HeldBelow(es, |es|, i, es[t].addr)
  {
  }

  // ---- When every address survives once ----

  /** No lower hop has an `h` line after the last one of a hop. */
  ghost predicate LastLinesInOrder(es: seq<Event>) {
    forall i: nat, t: nat, p :: IsLastHost(es, |es|, i, t) && t < p < |es| ==> !HostBelow(es[p], i)
  }

  /** `h` lines arrive with non-decreasing hop index. */
  ghost predicate InHopOrder(es: seq<Event>) {
    forall k, l :: 0 <= k < l < |es| && es[k].Host? && es[l].Host? ==> es[k].hop <= es[l].hop
  }

  lemma {:induction false} HopOrderIsEnough(es: seq<Event>)
    requires InHopOrder(es)
    ensures LastLinesInOrder(es)
  {
  }

  /** The guard on one hop: no lower hop has an `h` line after its last one. */
  lemma {:induction false} LowestSurvives(es: seq<Event>, i: nat, t: nat)
    requires IsLastHost(es, |es|, i, t) && forall p :: t < p < |es| ==> !HostBelow(es[p], i)
    ensures Survives(es, i) <==> LowestWithAddress(es, i)
  {
    LowestSurvivesExactlyWhen(es, i, t);
    hide Survives;
    hide LowestWithAddress;
    hide HeldBelow;
  }

  lemma {:induction false} AddressHasLine(es: seq<Event>, i: nat) returns (t: nat)
    requires Entry(es, i).address.Some?
    ensures IsLastHost(es, |es|, i, t)
  {
    AddressIsTheLast(es, i);
    hide Entry;
    LastAddrByPosition(es, i, LastAddr(es, i).value);
    t :| IsLastHost(es, |es|, i, t);
  }

  /** The lowest hop with an address. */
  lemma {:induction false} LowestHop(es: seq<Event>, i: nat) returns (j: nat)
    requires Entry(es, i).address.Some?
    ensures j <= i && Entry(es, j).address == Entry(es, i).address && LowestWithAddress(es, j)
    decreases i
  {
    hide Entry;
    if LowestWithAddress(es, i) {
      j := i;
    } else {
      var k: nat :| k < i && Entry(es, k).address == Entry(es, i).address;
      j := LowestHop(es, k);
    }
  }

  /** When the last `h` lines of the hops are in hop order, every address of the final table survives
      exactly once, at its lowest index. */
  lemma {:induction false} SurvivorsAreDistinct(es: seq<Event>, i: nat)
    requires LastLinesInOrder(es) && Entry(es, i).address.Some?
    ensures Survives(es, i) <==> LowestWithAddress(es, i)
    ensures exists j: nat ::
              && j <= i && Survives(es, j) && Entry(es, j).address == Entry(es, i).address
              && forall k: nat :: Survives(es, k) && Entry(es, k).address == Entry(es, i).address ==> k == j
  {
    hide Entry;
    hide Survives;
    forall k: nat | Entry(es, k).address.Some?
      ensures Survives(es, k) <==> LowestWithAddress(es, k)
    {
      var t := AddressHasLine(es, k);
      LowestSurvives(es, k, t);
    }
    var j := LowestHop(es, i);
    forall k: nat | Survives(es, k) && Entry(es, k).address == Entry(es, i).address
      ensures k == j
    {
      assert LowestWithAddress(es, k) && LowestWithAddress(es, j);
    }
  }

  /** Out of order the promise fails one way: hop 1 is announced before hop 0 with the same address,
      and both survive. */
  lemma {:induction false} OutOfOrderKeepsBoth()
    ensures var es := [Host(1, "a"), Host(0, "a")];
            Survives(es, 0) && Survives(es, 1) && Entry(es, 0).address == Entry(es, 1).address == Some("a")
  {
    var es := [Host(1, "a"), Host(0, "a")];
    hide Run;
    hide Entry;
    hide Survives;
    hide LowestWithAddress;
    assert IsLastHost(es, |es|, 1, 0) && IsLastHost(es, |es|, 0, 1);
    SurvivesByPosition(es, 1, 0);
    SurvivesByPosition(es, 0, 1);
  }

  /** And the other way: hop 0 gives up the address after hop 1 was marked for it, and the address is
      reported for neither. */
  lemma {:induction false} OutOfOrderLosesAddress()
    ensures var es := [Host(0, "a"), Host(1, "a"), Host(0, "b")];
            && Entry(es, 0).address == Some("b") && Entry(es, 1).address == Some("a")
            && LowestWithAddress(es, 1) && !Survives(es, 1)
  {
    var es := [Host(0, "a"), Host(1, "a"), Host(0, "b")];
    hide Run;
    hide Entry;
    hide Survives;
    hide LowestWithAddress;
    assert IsLastHost(es, |es|, 0, 2) && IsLastHost(es, |es|, 1, 1) && IsLastHost(es, 1, 0, 0);
    assert HeldBelow(es, 1, 1, "a");
    assert !HeldBelow(es, 3, 1, "a");
    SurvivesByPosition(es, 0, 2);
    SurvivesByPosition(es, 1, 1);
  }

  // ---- Names ----

  function LastName(es: seq<Event>, i: nat): Option<string> {
    if es == [] then None
    else
      var e := es[|es| - 1];
      if e.Name? && e.hop == i then Some(e.name) else LastName(es[..|es| - 1], i)
  }

  /** The name of the last `d` line for a hop that had this address at that time. */
  function NameOfAddress(es: seq<Event>, addr: string): Option<string> {
    if es == [] then None
    else
      var n := |es| - 1;
      if es[n].Name? && LastAddr(es[..n], es[n].hop) == Some(addr) then Some(es[n].name)
      else NameOfAddress(es[..n], addr)
  }

  lemma {:induction false} NamesByAddress(es: seq<Event>, addr: string)
    ensures addr in Run(es).names <==> NameOfAddress(es, addr).Some?
    ensures addr in Run(es).names ==> NameOfAddress(es, addr) == Some(Run(es).names[addr])
  {
    if es != [] {
      var n := |es| - 1;
      NamesByAddress(es[..n], addr);
      if es[n].Name? {
        AddressIsTheLast(es[..n], es[n].hop);
        PaddingIsInvisible(Run(es[..n]).hops, es[n].hop);
      }
      hide Padded;
      hide SeenBelow;
    }
  }

  lemma {:induction false} NameIsTheLast(es: seq<Event>, i: nat)
    ensures Entry(es, i).hostname == LastName(es, i)
  {
    if es != [] {
      var n := |es| - 1;
      assert es == es[..n] + [es[n]];
      NameIsTheLast(es[..n], i);
      EntryStep(es[..n], es[n], i);
      hide Run;
      hide SeenBelow;
    }
  }

  /** The name a hop is reported under: its own last one, unless there is none or it only repeats the
      address; then the one last given to the address at any hop, if any. */
  function TraceName(es: seq<Event>, i: nat): Option<string> {
    var own, addr := LastName(es, i), LastAddr(es, i);
    if (own.None? || own == addr) && addr.Some? && NameOfAddress(es, addr.value).Some?
    then NameOfAddress(es, addr.value)
    else own
  }

  /** Two hops with the same address and no name of their own are thus reported under the same name. */
  lemma {:induction false} ReportedName(es: seq<Event>, i: nat)
    ensures FinalName(Entry(es, i), Run(es).names) == TraceName(es, i)
  {
    NameIsTheLast(es, i);
    AddressIsTheLast(es, i);
    var addr := LastAddr(es, i);
    if addr.Some? { NamesByAddress(es, addr.value); }
    hide Run;
  }

  // ---- Output ----

  /** The positions of the hops that are reported. */
  function Reported(hops: seq<Option<HopBuilder>>): seq<nat> {
    if hops == [] then []
    else
      var n := |hops| - 1;
      Reported(hops[..n]) + if hops[n].Some? && !hops[n].value.duplicate then [n] else []
  }

  ghost predicate Ascending(s: seq<nat>) { forall k, l :: 0 <= k < l < |s| ==> s[k] < s[l] }

  lemma {:induction false} ReportedPositions(hops: seq<Option<HopBuilder>>)
    ensures forall i: nat :: i in Reported(hops) <==> i < |hops| && hops[i].Some? && !hops[i].value.duplicate
    ensures Ascending(Reported(hops))
  {
    if hops != [] {
      var n := |hops| - 1;
      ReportedPositions(hops[..n]);
      var at := Reported(hops[..n]);
      forall k | 0 <= k < |at|
        ensures at[k] < n
      {
        assert at[k] in at;
      }
    }
  }

  lemma {:induction false} OutputByPosition(hops: seq<Option<HopBuilder>>, names: map<string, string>,
                                            isFinal: bool, sqrt: real -> real)
    ensures var out, at := Output(hops, names, isFinal, sqrt), Reported(hops);
            && |out| == |at|
            && forall k :: 0 <= k < |at| ==>
                 && at[k] < |hops| && hops[at[k]].Some?
                 && out[k] == HopOutput(hops[at[k]].value, names, isFinal, sqrt)
  {
    if hops != [] {
      hide HopOutput;
      var n := |hops| - 1;
      var out, at := Output(hops[..n], names, isFinal, sqrt), Reported(hops[..n]);
      OutputByPosition(hops[..n], names, isFinal, sqrt);
      forall k | 0 <= k < |at|
        ensures at[k] < |hops| && hops[at[k]].Some?
        ensures out[k] == HopOutput(hops[at[k]].value, names, isFinal, sqrt)
      {
        assert hops[..n][at[k]] == hops[at[k]];
      }
      if hops[n].Some? && !hops[n].value.duplicate {
        assert Output(hops, names, isFinal, sqrt) == out + [HopOutput(hops[n].value, names, isFinal, sqrt)];
        assert Reported(hops) == at + [n];
      } else {
        assert Output(hops, names, isFinal, sqrt) == out && Reported(hops) == at;
      }
      hide Output;
      hide Reported;
    }
  }

  /** The output lists the surviving hops in index order and no others. */
  lemma {:induction false} OutputListsSurvivors(es: seq<Event>, isFinal: bool, sqrt: real -> real)
    ensures var t := Run(es);
            var out, at := Output(t.hops, t.names, isFinal, sqrt), Reported(t.hops);
            && |out| == |at|
            && (forall k :: 0 <= k < |at| ==> out[k] == HopOutput(Entry(es, at[k]), t.names, isFinal, sqrt))
            && Ascending(at)
            && (forall i: nat :: i in at <==> Survives(es, i))
  {
    ReportedPositions(Run(es).hops);
    OutputByPosition(Run(es).hops, Run(es).names, isFinal, sqrt);
    hide Run;
    hide HopOutput;
    hide Output;
    hide Reported;
  }

  /** When the last `h` lines of the hops are in hop order, no two reported hops have the same address,
      and every address of the final table is reported. */
  lemma {:induction false} ReportedAddressesDiffer(es: seq<Event>, isFinal: bool, sqrt: real -> real)
    requires LastLinesInOrder(es)
    ensures var out := Output(Run(es).hops, Run(es).names, isFinal, sqrt);
            && (forall a, b :: 0 <= a < b < |out| && out[a].resolvedAddress.Some? ==>
                  out[a].resolvedAddress != out[b].resolvedAddress)
            && (forall i: nat :: Entry(es, i).address.Some? ==>
                  exists a :: 0 <= a < |out| && out[a].resolvedAddress == Entry(es, i).address)
  {
    var out, at := Output(Run(es).hops, Run(es).names, isFinal, sqrt), Reported(Run(es).hops);
    OutputListsSurvivors(es, isFinal, sqrt);
    forall k | 0 <= k < |at|
      ensures out[k].resolvedAddress == Entry(es, at[k]).address && Survives(es, at[k])
    {
      assert at[k] in at;
    }
    hide *;
    forall a, b | 0 <= a < b < |out| && out[a].resolvedAddress.Some?
      ensures out[a].resolvedAddress != out[b].resolvedAddress
    {
      SurvivorsAreDistinct(es, at[a]);
      AscendingAt(at, a, b);
    }
    forall i: nat | Entry(es, i).address.Some?
      ensures exists a :: 0 <= a < |out| && out[a].resolvedAddress == Entry(es, i).address
    {
      SurvivorsAreDistinct(es, i);
      var j: nat :| Survives(es, j) && Entry(es, j).address == Entry(es, i).address;
      assert j in at;
      var a :| 0 <= a < |at| && at[a] == j;
      assert out[a].resolvedAddress == Entry(es, i).address;
    }
  }

  lemma {:induction false} AscendingAt(s: seq<nat>, k: nat, l: nat)
    requires Ascending(s) && k < l < |s|
    ensures s[k] < s[l]
  {
  }

  lemma {:induction false} ReceivedCounts(ts: seq<Timing>)
    ensures |Received(ts)| == |Rtts(ts)|
    ensures forall k :: 0 <= k < |Received(ts)| ==> Received(ts)[k] == Some(Rtts(ts)[k])
  {
    if ts != [] { ReceivedCounts(ts[..|ts| - 1]); }
  }

  /** For every reported hop: the emitted timings are the received times in order; on a final parse
      there are exactly `rcv` of them, and with `drop` they account for every probe sent. */
  lemma {:induction false} ReportedCounts(b: HopBuilder, names: map<string, string>, isFinal: bool, sqrt: real -> real)
    ensures var h := HopOutput(b, names, isFinal, sqrt);
            && h.stats.total == |b.probes|
            && h.stats.rcv + h.stats.drop == (if b.probes == [] || isFinal then |b.probes| else |b.probes| - 1)
            && (isFinal ==> |h.timings| == h.stats.rcv)
            && (forall k :: 0 <= k < |h.timings| ==> h.timings[k].Some?)
            && |h.timings| == |Rtts(TimingsOf(b.probes))|
  {
    var ts := TimingsOf(b.probes);
    ProbesAddUp(ts, isFinal, sqrt);
    ReceivedCounts(ts);
    hide StatsOf;
  }
}
