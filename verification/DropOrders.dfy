/** The orders in which the drop phase may visit the headers (src/command/http.rs, lines 141-156): its
    sort fixes the order of equal minimum sizes no further. */
module DropOrders {
  import opened Sums
  import opened HeaderTruncation

  /** The positions from the `n`-th place of the order on. */
  function Rest(order: seq<(nat, nat)>, n: nat): set<nat> {
    set j | n <= j < |order| :: order[j].0
  }

  function Weight(hs: seq<Header>, order: seq<(nat, nat)>, n: nat): nat { SumOver(Rest(order, n), MinSizes(hs)) }

  /** Dropping along the order stops after `n` headers, and not before. */
  ghost predicate StopsAt(hs: seq<Header>, order: seq<(nat, nat)>, n: nat) {
    && n <= |order|
    && Weight(hs, order, n) <= HEADERS_SIZE_LIMIT + 1
    && forall m: nat :: m < n ==> Weight(hs, order, m) > HEADERS_SIZE_LIMIT + 1
  }

  /** A descending order of all headers after which `S` is left. */
  ghost predicate Leaves(hs: seq<Header>, order: seq<(nat, nat)>, n: nat, S: set<nat>) {
    && Indexes(order, MinSizes(hs)) && Descending(order, (p: (nat, nat)) => p.1)
    && StopsAt(hs, order, n) && S == Rest(order, n)
  }

  // ---- Building an order ----

  /** `o` lists the positions in `A`, each once, with their weights. */
  ghost predicate Lists(o: seq<(nat, nat)>, A: set<nat>, w: seq<nat>) {
    && |o| == |A|
    && (forall j :: 0 <= j < |o| ==> o[j].0 in A && o[j].0 < |w| && o[j].1 == w[o[j].0])
    && (forall i, j :: 0 <= i < j < |o| ==> o[i].0 != o[j].0)
    && (forall x :: x in A ==> exists j :: 0 <= j < |o| && o[j].0 == x)
  }

  ghost predicate Falls(o: seq<(nat, nat)>) { forall i, j :: 0 <= i < j < |o| ==> o[i].1 >= o[j].1 }

  /** Nothing in `A` weighs less than `m`. */
  ghost predicate AtLeast(A: set<nat>, w: seq<nat>, m: nat) {
    forall a :: a in A ==> a < |w| && w[a] >= m
  }

  lemma {:induction false} LightestOf(A: set<nat>, w: seq<nat>) returns (x: nat)
    requires A != {} && AtLeast(A, w, 0)
    ensures x in A && x < |w| && AtLeast(A, w, w[x])
    decreases |A|
  {
    x :| x in A;
    if A != {x} {
      assert A - {x} != {};
      var y := LightestOf(A - {x}, w);
      if w[y] < w[x] { x := y; }
    }
  }

  lemma {:induction false} AppendLists(o: seq<(nat, nat)>, A: set<nat>, w: seq<nat>, x: nat)
    requires x !in A && x < |w| && Lists(o, A, w)
    ensures Lists(o + [(x, w[x])], A + {x}, w)
  {
    var o' := o + [(x, w[x])];
    assert o'[|o|].0 == x;
    forall y | y in A
      ensures exists j :: 0 <= j < |o'| && o'[j].0 == y
    {
      var j :| 0 <= j < |o| && o[j].0 == y;
      assert o'[j].0 == y;
    }
  }

  lemma {:induction false} AppendFalls(o: seq<(nat, nat)>, A: set<nat>, w: seq<nat>, x: nat)
    requires x < |w| && Lists(o, A, w) && Falls(o) && AtLeast(A, w, w[x])
    ensures Falls(o + [(x, w[x])])
  {
  }

  lemma {:induction false} AppendLightest(o: seq<(nat, nat)>, A: set<nat>, w: seq<nat>, x: nat)
    requires x !in A && x < |w| && Lists(o, A, w) && Falls(o) && AtLeast(A, w, w[x])
    ensures Lists(o + [(x, w[x])], A + {x}, w) && Falls(o + [(x, w[x])])
  {
    hide *;
    AppendLists(o, A, w, x);
    AppendFalls(o, A, w, x);
  }

  /** Any order of `A` can be continued by the positions in `B`, when none of them weighs more. */
  lemma {:induction false} ContinueOrder(o: seq<(nat, nat)>, A: set<nat>, B: set<nat>, w: seq<nat>)
    returns (o': seq<(nat, nat)>)
    requires Lists(o, A, w) && Falls(o) && A !! B && AtLeast(B, w, 0)
    requires forall b :: b in B ==> b < |w| && AtLeast(A, w, w[b])
    ensures o <= o' && Lists(o', A + B, w) && Falls(o')
    decreases |B|
  {
    if B == {} {
      o' := o;
      assert A + B == A;
    } else {
      var x := LightestOf(B, w);
      assert AtLeast(A + (B - {x}), w, w[x]);
      assert AtLeast(B - {x}, w, 0);
      assert A + (B - {x}) + {x} == A + B && x !in A + (B - {x}) && A !! B - {x};
      hide Lists;
      hide Falls;
      hide AtLeast;
      o' := ContinueOrder(o, A, B - {x}, w);
      AppendLightest(o', A + (B - {x}), w, x);
      o' := o' + [(x, w[x])];
    }
  }

  /** What the longer list adds is what the shorter one does not list. */
  lemma {:induction false} ListedRest(o: seq<(nat, nat)>, o': seq<(nat, nat)>, A: set<nat>, B: set<nat>, w: seq<nat>)
    requires o <= o' && Lists(o, A, w) && Lists(o', A + B, w) && A !! B
    ensures Rest(o', |o|) == B
  {
    var r := Rest(o', |o|);
    forall x: nat
      ensures x in r <==> x in B
    {
      hide Lists;
      hide Rest;
      RestMember(o', |o|, x);
      if x in r { Added(o, o', A, B, w, x); }
      if x in B { Kept(o, o', A, B, w, x); }
    }
  }

  lemma {:induction false} RestMember(o: seq<(nat, nat)>, n: nat, x: nat)
    ensures x in Rest(o, n) <==> exists j :: n <= j < |o| && o[j].0 == x
  {
  }

  lemma {:induction false} Added(o: seq<(nat, nat)>, o': seq<(nat, nat)>, A: set<nat>, B: set<nat>, w: seq<nat>, x: nat)
    requires o <= o' && Lists(o, A, w) && Lists(o', A + B, w)
    requires exists j :: |o| <= j < |o'| && o'[j].0 == x
    ensures x in B
  {
    assert forall i :: 0 <= i < |o| ==> o'[i] == o[i];
  }

  lemma {:induction false} Kept(o: seq<(nat, nat)>, o': seq<(nat, nat)>, A: set<nat>, B: set<nat>, w: seq<nat>, x: nat)
    requires o <= o' && Lists(o, A, w) && Lists(o', A + B, w) && A !! B && x in B
    ensures exists j :: |o| <= j < |o'| && o'[j].0 == x
  {
    assert forall i :: 0 <= i < |o| ==> o'[i] == o[i];
    assert x in A + B;
    var j :| 0 <= j < |o'| && o'[j].0 == x;
  }

  // ---- The drop phase's specification is exact ----

  lemma {:induction false} RestBounds(hs: seq<Header>, order: seq<(nat, nat)>, m: nat)
    requires Indexes(order, MinSizes(hs))
    ensures Rest(order, m) <= Below(|hs|)
  {
  }

  lemma {:induction false} HeavierSet(A: set<nat>, B: set<nat>, w: seq<nat>)
    requires A <= B <= Below(|w|)
    ensures SumOver(A, w) <= SumOver(B, w)
  {
    assert B == A + (B - A);
    SumOverUnion(A, B - A, w);
  }

  lemma {:induction false} ListsAll(hs: seq<Header>, order: seq<(nat, nat)>)
    requires Lists(order, Below(|hs|), MinSizes(hs)) && Falls(order)
    ensures Indexes(order, MinSizes(hs)) && Descending(order, (p: (nat, nat)) => p.1)
  {
  }

  /** The weights of the survivors, the last dropped header and the headers dropped before it. */
  lemma {:induction false} SplitFacts(hs: seq<Header>, S: set<nat>, x: nat)
    requires JoinedMinSize(hs) > HEADERS_SIZE_LIMIT && Keeps(hs, S) && LastDropped(hs, S, x)
    ensures S <= Below(|hs|) && x in Below(|hs|) - S
    ensures var w, D := MinSizes(hs), Below(|hs|) - S;
            && x < |w| && AtLeast(D - {x}, w, w[x]) && AtLeast(S, w, 0)
            && (forall b :: b in S ==> b < |w| && AtLeast(D, w, w[b]))
  {
    hide SumOver;
  }

  /** An order of all positions that comes to `x` right before the positions in `S`. */
  lemma {:induction false} OrderAround(all: set<nat>, S: set<nat>, x: nat, w: seq<nat>)
    returns (order: seq<(nat, nat)>, n: nat)
    requires S <= all && x in all - S && x < |w|
    requires AtLeast(all - S - {x}, w, w[x]) && AtLeast(S, w, 0)
    requires forall b :: b in S ==> b < |w| && AtLeast(all - S, w, w[b])
    ensures Lists(order, all, w) && Falls(order)
    ensures 0 < n <= |order| && Rest(order, n) == S && order[n - 1].0 == x
  {
    var D := all - S;
    SplitSets(all, S, x);
    var front := OrderUpTo(D - {x}, x, w);
    hide *;
    order := ContinueOrder(front, D, S, w);
    n := |front|;
    ListedRest(front, order, D, S, w);
    assert order[n - 1] == front[n - 1];
  }

  lemma {:induction false} OrderUpTo(A: set<nat>, x: nat, w: seq<nat>) returns (o: seq<(nat, nat)>)
    requires x !in A && x < |w| && AtLeast(A, w, w[x])
    ensures Lists(o, A + {x}, w) && Falls(o) && |o| > 0 && o[|o| - 1].0 == x
  {
    assert AtLeast(A, w, 0) && forall b :: b in A ==> AtLeast({}, w, w[b]);
    EmptyOrder(w);
    assert {} + A == A;
    hide *;
    o := ContinueOrder([], {}, A, w);
    AppendLightest(o, A, w, x);
    o := o + [(x, w[x])];
  }

  /** Every set that meets the drop phase's specification is left by some order. */
  lemma {:induction false} SomeOrderLeaves(hs: seq<Header>, S: set<nat>) returns (order: seq<(nat, nat)>, n: nat)
    requires JoinedMinSize(hs) > HEADERS_SIZE_LIMIT && Keeps(hs, S)
    ensures Leaves(hs, order, n, S)
  {
    var x: nat :| LastDropped(hs, S, x);
    SplitFacts(hs, S, x);
    hide *;
    order, n := OrderAround(Below(|hs|), S, x, MinSizes(hs));
    ListsAll(hs, order);
    StopsThere(hs, order, n, S, x);
  }

  lemma {:induction false} EmptyOrder(w: seq<nat>)
    ensures Lists([], {}, w) && Falls([])
  {
  }

  lemma {:induction false} SplitSets(all: set<nat>, S: set<nat>, x: nat)
    requires S <= all && x in all - S
    ensures var D := all - S;
            && {} + (D - {x}) == D - {x} && D - {x} + {x} == D && D + S == all
            && {} !! D - {x} && D !! S && x !in D - {x}
  {
  }

  lemma {:induction false} StopsThere(hs: seq<Header>, order: seq<(nat, nat)>, n: nat, S: set<nat>, x: nat)
    requires JoinedMinSize(hs) > HEADERS_SIZE_LIMIT && Keeps(hs, S) && LastDropped(hs, S, x)
    requires Indexes(order, MinSizes(hs)) && Descending(order, (p: (nat, nat)) => p.1)
    requires 0 < n <= |order| && Rest(order, n) == S && order[n - 1].0 == x
    ensures Leaves(hs, order, n, S)
  {
    forall m: nat | m < n
      ensures Weight(hs, order, m) > HEADERS_SIZE_LIMIT + 1
    {
      RestBounds(hs, order, m);
      RestIncludes(order, m, n);
      assert SumOver(S + {x}, MinSizes(hs)) > HEADERS_SIZE_LIMIT + 1;
      hide *;
      HeavierSet(S + {x}, Rest(order, m), MinSizes(hs));
      WeightIs(hs, order, m);
    }
    assert SumOver(S, MinSizes(hs)) <= HEADERS_SIZE_LIMIT + 1;
    WeightIs(hs, order, n);
    hide SumOver;
    hide Indexes;
    hide Weight;
    hide Rest;
    hide Descending;
    hide Keeps;
    hide LastDropped;
  }

  lemma {:induction false} WeightIs(hs: seq<Header>, order: seq<(nat, nat)>, m: nat)
    ensures Weight(hs, order, m) == SumOver(Rest(order, m), MinSizes(hs))
  {
  }

  lemma {:induction false} RestIncludes(order: seq<(nat, nat)>, m: nat, n: nat)
    requires m < n <= |order|
    ensures Rest(order, n) + {order[n - 1].0} <= Rest(order, m)
    ensures Rest(order, n - 1) == Rest(order, n) + {order[n - 1].0}
  {
  }

  /** The drop phase's specification is exact: a set meets it if and only if it is what dropping along
      some descending order leaves. */
  lemma {:induction false} KeepsExactlyWhatAnOrderLeaves(hs: seq<Header>, S: set<nat>)
    requires JoinedMinSize(hs) > HEADERS_SIZE_LIMIT
    ensures Keeps(hs, S) <==> exists order: seq<(nat, nat)>, n: nat :: Leaves(hs, order, n, S)
  {
    if Keeps(hs, S) {
      var order, n := SomeOrderLeaves(hs, S);
    }
    forall order: seq<(nat, nat)>, n: nat | Leaves(hs, order, n, S)
      ensures Keeps(hs, S)
    {
      LeftIsKept(hs, order, n, S);
    }
  }

  lemma {:induction false} LeftIsKept(hs: seq<Header>, order: seq<(nat, nat)>, n: nat, S: set<nat>)
    requires JoinedMinSize(hs) > HEADERS_SIZE_LIMIT && Leaves(hs, order, n, S)
    ensures Keeps(hs, S)
  {
    RestBounds(hs, order, n);
    AllIsRest(hs, order);
    SumOverAll(MinSizes(hs), Below(|hs|));
    WeightIs(hs, order, 0);
    WeightIs(hs, order, n);
    hide SumOver;
    assert n > 0;
    WeightIs(hs, order, n - 1);
    RestIncludes(order, n - 1, n);
    RestByPlace(order, MinSizes(hs), n);
    assert Weight(hs, order, n - 1) > HEADERS_SIZE_LIMIT + 1;
    hide Rest;
    hide Indexes;
    hide Descending;
    hide Keeps;
    hide MinSizes;
    DropPhaseKeeps(hs, order, n, S);
  }

  lemma {:induction false} RestByPlace(order: seq<(nat, nat)>, w: seq<nat>, n: nat)
    requires Indexes(order, w)
    ensures forall j :: 0 <= j < |order| ==> (order[j].0 in Rest(order, n) <==> j >= n)
  {
  }

  lemma {:induction false} AllIsRest(hs: seq<Header>, order: seq<(nat, nat)>)
    requires Indexes(order, MinSizes(hs))
    ensures Rest(order, 0) == Below(|hs|)
  {
    RestBounds(hs, order, 0);
    forall x | x in Below(|hs|)
      ensures x in Rest(order, 0)
    {
      var j :| 0 <= j < |order| && order[j].0 == x;
    }
  }
}
