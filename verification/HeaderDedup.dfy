/** Collapsing header pairs into a map (src/command/http.rs, `dedup_headers`).

    Lower-casing is a parameter: every statement holds whatever it maps a name to. */
module HeaderDedup {
  import opened Utf8
  import opened Sums
  import opened HeaderTruncation
  import opened HeaderTheorems

  /** A JSON value of the map: a string, or an array of strings. */
  datatype Field = Text(text: seq<byte>) | Array(items: seq<seq<byte>>)

  type Lower = seq<byte> -> seq<byte>

  /** The values of the headers whose lowercased name is `key`, in order. */
  function ValuesOf(pairs: seq<Header>, key: seq<byte>, lower: Lower): seq<seq<byte>> {
    if pairs == [] then []
    else
      var last := pairs[|pairs| - 1];
      ValuesOf(pairs[..|pairs| - 1], key, lower) + if lower(last.name) == key then [last.value] else []
  }

  /** The map lists, under each lowercased name and under nothing else, exactly that name's values in
      order: as a string if there is one, as an array if there are more. */
  ghost predicate Collapsed(pairs: seq<Header>, lower: Lower, m: map<seq<byte>, Field>) {
    forall key: seq<byte> ::
      var values := ValuesOf(pairs, key, lower);
      && (key in m <==> values != [])
      && (key in m ==> m[key] == if |values| == 1 then Text(values[0]) else Array(values))
  }

  method DedupHeaders(pairs: seq<Header>, lower: Lower) returns (m: map<seq<byte>, Field>)
    ensures Collapsed(pairs, lower, m)
  {
    m := map[];
    for i := 0 to |pairs|
      invariant Collapsed(pairs[..i], lower, m)
    {
      var lk, v := lower(pairs[i].name), pairs[i].value;
      assert pairs[..i + 1][..i] == pairs[..i];
      if lk in m && m[lk].Array? {
        m := m[lk := Array(m[lk].items + [v])];
      } else if lk in m && m[lk].Text? {
        m := m[lk := Array([m[lk].text, v])];
      } else {
        m := m[lk := Text(v)];
      }
    }
    assert pairs[..|pairs|] == pairs;
  }

  /** Every header's value is found under its lowercased name, at the place given by the number of
      earlier headers of that name. */
  lemma {:induction false} ValueIsListed(pairs: seq<Header>, lower: Lower, i: nat)
    requires i < |pairs|
    ensures var key := lower(pairs[i].name);
            var rank := |ValuesOf(pairs[..i], key, lower)|;
            rank < |ValuesOf(pairs, key, lower)| && ValuesOf(pairs, key, lower)[rank] == pairs[i].value
    decreases |pairs|
  {
    var n := |pairs| - 1;
    if i < n {
      ValueIsListed(pairs[..n], lower, i);
      assert pairs[..n][..i] == pairs[..i];
    }
  }

  /** Adding header after header, each value is counted once: with `ValueIsListed`, the map lists
      nothing twice and nothing that was not sent. */
  lemma {:induction false} ListedValueIsAHeader(pairs: seq<Header>, lower: Lower, key: seq<byte>, rank: nat)
    returns (i: nat)
    requires rank < |ValuesOf(pairs, key, lower)|
    ensures i < |pairs| && lower(pairs[i].name) == key
    ensures pairs[i].value == ValuesOf(pairs, key, lower)[rank]
    ensures rank == |ValuesOf(pairs[..i], key, lower)|
    decreases |pairs|
  {
    var n := |pairs| - 1;
    if rank < |ValuesOf(pairs[..n], key, lower)| {
      i := ListedValueIsAHeader(pairs[..n], lower, key, rank);
      assert pairs[..n][..i] == pairs[..i];
    } else {
      i := n;
    }
  }

  ghost predicate SameValues(p: seq<Header>, q: seq<Header>, lower: Lower) {
    forall key: seq<byte> :: ValuesOf(p, key, lower) == ValuesOf(q, key, lower)
  }

  /** The map is determined by the headers, and it forgets nothing but the interleaving of different
      names: two lists give the same map exactly when they agree name by name. */
  lemma {:induction false} MapsAgreeExactlyWhen(p: seq<Header>, q: seq<Header>, lower: Lower,
                             m: map<seq<byte>, Field>, k: map<seq<byte>, Field>)
    requires Collapsed(p, lower, m) && Collapsed(q, lower, k)
    ensures m == k <==> SameValues(p, q, lower)
  {
  }

  // ---- Truncating, then collapsing ----

  ghost predicate AllCutTo(vs: seq<seq<byte>>, outs: seq<seq<byte>>, c: nat) {
    |outs| == |vs| && forall j :: 0 <= j < |vs| ==> CutTo(vs[j], outs[j], c)
  }

  lemma {:induction false} CutKeepsValues(kept: seq<Header>, out: seq<Header>, c: nat, key: seq<byte>, lower: Lower)
    requires OnlyCut(kept, out, c)
    ensures AllCutTo(ValuesOf(kept, key, lower), ValuesOf(out, key, lower), c)
  {
    if kept != [] {
      var n := |kept| - 1;
      CutKeepsValues(kept[..n], out[..n], c, key, lower);
      assert out[n].name == kept[n].name && CutTo(kept[n].value, out[n].value, c);
      hide CutTo;
    }
  }

  /** The map lists exactly the values of the headers that the drop phase keeps, under their
      lowercased names in their order, each whole or cut to the computed cap. */
  ghost predicate MapOf(hs: seq<Header>, S: set<nat>, c: nat, lower: Lower, m: map<seq<byte>, Field>) {
    && Keeps(hs, S) && IsCapFor(Pick(S, hs), c)
    && forall key: seq<byte> :: ListsCut(ValuesOf(Pick(S, hs), key, lower), c, m, key)
  }

  ghost predicate ListsCut(values: seq<seq<byte>>, c: nat, m: map<seq<byte>, Field>, key: seq<byte>) {
    && (key in m <==> values != [])
    && (key in m ==> match m[key]
                     case Text(t) => |values| == 1 && CutTo(values[0], t, c)
                     case Array(items) => |values| >= 2 && AllCutTo(values, items, c))
  }

  /** Truncating and then collapsing loses only what was cut. */
  lemma {:induction false} MapLosesOnlyWhatWasCut(hs: seq<Header>, checked: bool, r: Outcome,
                                                  lower: Lower, m: map<seq<byte>, Field>)
    requires Truncation(hs, checked, r) && r.Done? && Collapsed(r.headers, lower, m)
    ensures exists S: set<nat>, c: nat :: MapOf(hs, S, c, lower, m)
  {
    ResultOnlyCuts(hs, checked, r);
    hide *;
    var S: set<nat>, c: nat :| CutBack(hs, S, c, r.headers);
    CollapsedCut(hs, S, c, r.headers, lower, m);
  }

  lemma {:induction false} CollapsedCut(hs: seq<Header>, S: set<nat>, c: nat, out: seq<Header>,
                                        lower: Lower, m: map<seq<byte>, Field>)
    requires CutBack(hs, S, c, out) && Collapsed(out, lower, m)
    ensures MapOf(hs, S, c, lower, m)
  {
    hide Keeps;
    hide IsCapFor;
    forall key: seq<byte>
      ensures ListsCut(ValuesOf(Pick(S, hs), key, lower), c, m, key)
    {
      CutKeepsValues(Pick(S, hs), out, c, key, lower);
      hide Pick;
      hide ValuesOf;
      hide CutTo;
    }
  }
}
