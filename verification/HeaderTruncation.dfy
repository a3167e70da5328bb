/** Fitting HTTP response headers into a fixed size (src/command/http.rs, `truncate_headers`).

    Headers are byte strings. The two phases of the algorithm are the methods `DropLargest` and
    `FindCap`; `TruncateHeaders` is the whole function. */
module HeaderTruncation {
  import opened Wrappers
  import opened Utf8
  import opened Sums

  const HEADERS_SIZE_LIMIT: nat := 10_000
  const TRUNCATION_MARK: seq<byte> := Ascii("...[truncated]")
  const MARK_LEN: nat := |TRUNCATION_MARK|
  const USIZE_MODULUS: nat := 0x1_0000_0000_0000_0000

  datatype Header = Header(name: seq<byte>, value: seq<byte>)

  /** `Panicked` stands for an arithmetic overflow trap or for slicing inside a character. */
  datatype Outcome = Done(truncated: bool, headers: seq<Header>) | Panicked

  function PairSize(h: Header): nat { |h.name| + |h.value| + 3 }

  function PairMinSize(h: Header): nat { |h.name| + Min(|h.value|, MARK_LEN) + 3 }

  function Sizes(hs: seq<Header>): (w: seq<nat>)
    ensures |w| == |hs|
  {
    seq(|hs|, i requires 0 <= i < |hs| => PairSize(hs[i]))
  }

  function MinSizes(hs: seq<Header>): (w: seq<nat>)
    ensures |w| == |hs|
  {
    seq(|hs|, i requires 0 <= i < |hs| => PairMinSize(hs[i]))
  }

  function ValueLens(hs: seq<Header>): (w: seq<nat>)
    ensures |w| == |hs|
  {
    seq(|hs|, i requires 0 <= i < |hs| => |hs[i].value|)
  }

  /** The size the algorithm accounts for: one separator fewer than there are headers. */
  function JoinedSize(hs: seq<Header>): nat { SaturatingSub(Sum(Sizes(hs)), 1) }

  function JoinedMinSize(hs: seq<Header>): nat { SaturatingSub(Sum(MinSizes(hs)), 1) }

  /** Machine subtraction without overflow checks. */
  function WrappingSub(a: nat, b: nat): (r: nat)
    requires a < USIZE_MODULUS && b <= USIZE_MODULUS
    ensures a >= b ==> r == a - b
    ensures a < b ==> r == a + USIZE_MODULUS - b
  {
    (a - b) % USIZE_MODULUS
  }

  // ---- Specification of the drop phase ----

  /** `S` holds the positions of the headers that survive the drop phase: the largest headers (by
      minimum size) go first, whatever the order of ties, and not one more than needed. */
  ghost predicate Keeps(hs: seq<Header>, S: set<nat>) {
    var mins := MinSizes(hs);
    && S <= Below(|hs|)
    && if JoinedMinSize(hs) <= HEADERS_SIZE_LIMIT then S == Below(|hs|)
       else
         && SumOver(S, mins) <= HEADERS_SIZE_LIMIT + 1
         && (forall d, k :: d in Below(|hs|) - S && k in S ==> mins[d] >= mins[k])
         && exists x :: LastDropped(hs, S, x)
  }

  /** `x` is a smallest dropped header, and keeping it as well would not fit. */
  ghost predicate LastDropped(hs: seq<Header>, S: set<nat>, x: nat) {
    var mins := MinSizes(hs);
    && x in Below(|hs|) - S
    && (forall d :: d in Below(|hs|) - S ==> mins[d] >= mins[x])
    && SumOver(S + {x}, mins) > HEADERS_SIZE_LIMIT + 1
  }

  // ---- Specification of the shrink phase ----

  /** Total length of the values when each is limited to `c`. */
  function SumCapped(lens: seq<nat>, c: nat): nat {
    if lens == [] then 0 else Min(lens[0], c) + SumCapped(lens[1..], c)
  }

  /** What is left for the values once names and separators are paid for. */
  function ValueBudget(hs: seq<Header>): int {
    HEADERS_SIZE_LIMIT + Sum(ValueLens(hs)) - JoinedSize(hs)
  }

  /** `c` is the largest uniform limit on value lengths that fits the budget. */
  ghost predicate IsCap(hs: seq<Header>, c: nat) {
    SumCapped(ValueLens(hs), c) <= ValueBudget(hs) < SumCapped(ValueLens(hs), c + 1)
  }

  function Cut(h: Header, c: nat): Header
    requires c >= MARK_LEN
  {
    if |h.value| > c then Header(h.name, h.value[..c - MARK_LEN] + TRUNCATION_MARK) else h
  }

  function CutAll(hs: seq<Header>, c: nat): (r: seq<Header>)
    requires c >= MARK_LEN
    ensures |r| == |hs|
  {
    seq(|hs|, i requires 0 <= i < |hs| => Cut(hs[i], c))
  }

  /** Some value has to be cut inside a character. */
  ghost predicate SplitsCharacter(hs: seq<Header>, c: nat)
    requires c >= MARK_LEN
  {
    exists i :: 0 <= i < |hs| && |hs[i].value| > c && !IsCharBoundary(hs[i].value, c - MARK_LEN)
  }

  ghost predicate ShrinksTo(hs: seq<Header>, r: Outcome) {
    if JoinedSize(hs) <= HEADERS_SIZE_LIMIT then r == Done(true, hs)
    else exists c :: c >= MARK_LEN && IsCap(hs, c)
                     && r == if SplitsCharacter(hs, c) then Panicked else Done(true, CutAll(hs, c))
  }

  /** The result for an oversized list when the positions in `S` survive the drop phase; `checked`
      says whether overflow checks are compiled in. */
  ghost predicate TruncationVia(hs: seq<Header>, checked: bool, S: set<nat>, r: Outcome) {
    && Keeps(hs, S)
    && if S == {} then r == if checked then Panicked else Done(true, [])
       else ShrinksTo(Pick(S, hs), r)
  }

  /** The result of `truncate_headers`. */
  ghost predicate Truncation(hs: seq<Header>, checked: bool, r: Outcome) {
    if JoinedSize(hs) <= HEADERS_SIZE_LIMIT then r == Done(false, hs)
    else exists S :: TruncationVia(hs, checked, S, r)
  }

  // ---- Drop phase ----

  /** The index-and-size pairs, before and after sorting, describe every header once. */
  ghost predicate Indexes(indexed: seq<(nat, nat)>, mins: seq<nat>) {
    && |indexed| == |mins|
    && (forall j :: 0 <= j < |indexed| ==> indexed[j].0 < |mins| && indexed[j].1 == mins[indexed[j].0])
    && (forall i, j :: 0 <= i < j < |indexed| ==> indexed[i].0 != indexed[j].0)
    && (forall x :: x in Below(|mins|) ==> exists j :: 0 <= j < |indexed| && indexed[j].0 == x)
  }

  function Enumerate(mins: seq<nat>): (r: seq<(nat, nat)>)
    ensures |r| == |mins|
    ensures forall i :: 0 <= i < |mins| ==> r[i] == (i, mins[i])
  {
    seq(|mins|, i requires 0 <= i < |mins| => (i, mins[i]))
  }

  lemma {:induction false} DistinctCount<T>(s: seq<T>, x: T)
    requires forall i, j :: 0 <= i < j < |s| ==> s[i] != s[j]
    ensures multiset(s)[x] <= 1
  {
    if s != [] {
      assert s == [s[0]] + s[1..];
      DistinctCount(s[1..], x);
      if s[0] == x { assert x !in s[1..]; }
    }
  }

  lemma {:induction false} TwiceInMultiset<T>(s: seq<T>, i: nat, j: nat)
    requires i < j < |s| && s[i] == s[j]
    ensures multiset(s)[s[i]] >= 2
  {
    assert s == s[..j] + s[j..];
    assert s[..j][i] in s[..j] && s[j..][0] in s[j..];
  }

  lemma {:induction false} PermutationIndexes(mins: seq<nat>, indexed: seq<(nat, nat)>)
    requires multiset(indexed) == multiset(Enumerate(mins))
    ensures Indexes(indexed, mins)
  {
    var e := Enumerate(mins);
    assert |indexed| == |multiset(indexed)| == |e|;
    forall j | 0 <= j < |indexed|
      ensures indexed[j].0 < |mins| && indexed[j].1 == mins[indexed[j].0]
    {
      assert indexed[j] in multiset(indexed);
      assert indexed[j] in e;
    }
    forall i, j | 0 <= i < j < |indexed|
      ensures indexed[i].0 != indexed[j].0
    {
      if indexed[i].0 == indexed[j].0 {
        var x := indexed[i];
        DistinctCount(e, x);
        TwiceInMultiset(indexed, i, j);
      }
    }
    forall x | x in Below(|mins|)
      ensures exists j :: 0 <= j < |indexed| && indexed[j].0 == x
    {
      assert e[x] in multiset(e);
      assert e[x] in indexed;
    }
  }

  /** The state after the first `n` headers of the order are dropped: `S` is what is left. */
  ghost predicate DroppedSoFar(hs: seq<Header>, indexed: seq<(nat, nat)>, n: nat, S: set<nat>) {
    && n <= |indexed| && S <= Below(|hs|)
    && (forall j :: 0 <= j < |indexed| ==> (indexed[j].0 in S <==> j >= n))
    && (n > 0 ==> SumOver(S + {indexed[n - 1].0}, MinSizes(hs)) > HEADERS_SIZE_LIMIT + 1)
  }

  lemma {:induction false} TailOfOrder(indexed: seq<(nat, nat)>, mins: seq<nat>, n: nat, S: set<nat>)
    requires Indexes(indexed, mins) && n < |indexed| && S <= Below(|mins|)
    requires forall j :: 0 <= j < |indexed| ==> (indexed[j].0 in S <==> j >= n)
    ensures var x := indexed[n].0;
            && x in S && x < |mins| && indexed[n].1 == mins[x]
            && (forall j :: 0 <= j < |indexed| ==> (indexed[j].0 in S - {x} <==> j >= n + 1))
            && (S - {x} == {} <==> n + 1 == |indexed|)
  {
    var x := indexed[n].0;
    assert x in Below(|mins|);
    assert forall j :: 0 <= j < |indexed| && j != n ==> indexed[j].0 != x;
    if n + 1 < |indexed| {
      assert indexed[n + 1].0 in S - {x};
    } else {
      forall y | y in S
        ensures y == x
      {
        assert y in Below(|mins|);
        var j :| 0 <= j < |indexed| && indexed[j].0 == y;
      }
    }
  }

  /** Dropping one more header. */
  lemma {:induction false} DropOne(hs: seq<Header>, indexed: seq<(nat, nat)>, n: nat, S: set<nat>)
    requires Indexes(indexed, MinSizes(hs)) && n < |indexed|
    requires DroppedSoFar(hs, indexed, n, S) && SumOver(S, MinSizes(hs)) > HEADERS_SIZE_LIMIT + 1
    ensures var x := indexed[n].0;
            && x in S && DroppedSoFar(hs, indexed, n + 1, S - {x})
            && (S - {x} == {} <==> n + 1 == |indexed|)
            && SumOver(S, Sizes(hs)) == SumOver(S - {x}, Sizes(hs)) + PairSize(hs[x])
            && SumOver(S, MinSizes(hs)) == SumOver(S - {x}, MinSizes(hs)) + indexed[n].1
  {
    TailOfOrder(indexed, MinSizes(hs), n, S);
    NextDropped(hs, indexed, n, S);
    RemoveWeights(hs, S, indexed[n].0);
    hide *;
  }

  lemma {:induction false} NextDropped(hs: seq<Header>, indexed: seq<(nat, nat)>, n: nat, S: set<nat>)
    requires n < |indexed| && indexed[n].0 in S
    requires forall j :: 0 <= j < |indexed| ==> (indexed[j].0 in S - {indexed[n].0} <==> j >= n + 1)
    requires DroppedSoFar(hs, indexed, n, S) && SumOver(S, MinSizes(hs)) > HEADERS_SIZE_LIMIT + 1
    ensures DroppedSoFar(hs, indexed, n + 1, S - {indexed[n].0})
  {
    assert S - {indexed[n].0} + {indexed[n].0} == S;
    hide SumOver;
    hide Below;
    hide MinSizes;
  }

  lemma {:induction false} RemoveWeights(hs: seq<Header>, S: set<nat>, x: nat)
    requires x in S && S <= Below(|hs|)
    ensures x < |hs|
    ensures SumOver(S, Sizes(hs)) == SumOver(S - {x}, Sizes(hs)) + PairSize(hs[x])
    ensures SumOver(S, MinSizes(hs)) == SumOver(S - {x}, MinSizes(hs)) + MinSizes(hs)[x]
  {
    hide SumOver;
    SumOverRemove(S, Sizes(hs), x);
    SumOverRemove(S, MinSizes(hs), x);
  }

  lemma {:induction false} WeightOfRest(hs: seq<Header>, S: set<nat>)
    requires S <= Below(|hs|)
    ensures S != {} ==> SumOver(S, Sizes(hs)) >= 3 && SumOver(S, MinSizes(hs)) >= 3
    ensures S == {} ==> SumOver(S, Sizes(hs)) == 0 && SumOver(S, MinSizes(hs)) == 0
  {
    if S == {} {
      SumOverEmpty(Sizes(hs));
      SumOverEmpty(MinSizes(hs));
    } else {
      var x :| x in S;
      SumOverRemove(S, Sizes(hs), x);
      SumOverRemove(S, MinSizes(hs), x);
    }
  }

  /** A prefix of the descending order, cut where the rest first fits, meets the specification. */
  lemma {:induction false} DropPhaseKeeps(hs: seq<Header>, indexed: seq<(nat, nat)>, n: nat, S: set<nat>)
    requires JoinedMinSize(hs) > HEADERS_SIZE_LIMIT
    requires Indexes(indexed, MinSizes(hs)) && Descending(indexed, (p: (nat, nat)) => p.1)
    requires n > 0 && DroppedSoFar(hs, indexed, n, S)
    requires SumOver(S, MinSizes(hs)) <= HEADERS_SIZE_LIMIT + 1
    ensures Keeps(hs, S)
  {
    hide SumOver;
    hide Below;
    hide PairMinSize;
    hide PairSize;
    var mins := MinSizes(hs);
    var D := Below(|hs|) - S;
    forall d, k | d in D && k in S
      ensures mins[d] >= mins[k]
    {
      var i :| 0 <= i < |indexed| && indexed[i].0 == d;
      var j :| 0 <= j < |indexed| && indexed[j].0 == k;
      assert indexed[i].1 >= indexed[j].1;
    }
    var x := indexed[n - 1].0;
    forall d | d in D
      ensures mins[d] >= mins[x]
    {
      var i :| 0 <= i < |indexed| && indexed[i].0 == d;
      assert i < n - 1 ==> indexed[i].1 >= indexed[n - 1].1;
    }
    assert LastDropped(hs, S, x);
  }

  /** The running totals agree with what is left, until the last header has gone: then checked
      arithmetic has trapped and unchecked arithmetic has wrapped. */
  ghost predicate Totals(hs: seq<Header>, S: set<nat>, checked: bool, size: nat, min: nat) {
    && size < USIZE_MODULUS && min < USIZE_MODULUS
    && if S == {} then !checked && size == min == USIZE_MODULUS - 1
       else size + 1 == SumOver(S, Sizes(hs)) && min + 1 == SumOver(S, MinSizes(hs))
  }

  lemma {:induction false} StartOfOrder(hs: seq<Header>, indexed: seq<(nat, nat)>, checked: bool)
    requires Indexes(indexed, MinSizes(hs)) && JoinedMinSize(hs) > 0 && Sum(Sizes(hs)) < USIZE_MODULUS
    ensures DroppedSoFar(hs, indexed, 0, Below(|hs|))
    ensures indexed != [] && Below(|hs|) != {}
    ensures Totals(hs, Below(|hs|), checked, JoinedSize(hs), JoinedMinSize(hs))
  {
    MinSizesAreSmaller(hs);
    SumOverAll(Sizes(hs), Below(|hs|));
    SumOverAll(MinSizes(hs), Below(|hs|));
    WeightOfRest(hs, Below(|hs|));
  }

  /** One round of the drop loop. The subtraction underflows exactly at the last header. */
  lemma {:induction false} DropStep(hs: seq<Header>, indexed: seq<(nat, nat)>, n: nat, S: set<nat>,
                                    checked: bool, size: nat, min: nat)
    requires JoinedMinSize(hs) > HEADERS_SIZE_LIMIT
    requires Indexes(indexed, MinSizes(hs)) && Descending(indexed, (p: (nat, nat)) => p.1)
    requires n < |indexed| && S != {} && min > HEADERS_SIZE_LIMIT
    requires DroppedSoFar(hs, indexed, n, S) && Totals(hs, S, checked, size, min)
    ensures indexed[n].0 < |hs|
    ensures var x, m := indexed[n].0, indexed[n].1;
            var rest := S - {x};
            && DroppedSoFar(hs, indexed, n + 1, rest)
            && (rest == {} <==> n + 1 == |indexed|)
            && (rest == {} <==> size < PairSize(hs[x]) || min < m)
            && (rest == {} ==> Keeps(hs, rest))
            && size < USIZE_MODULUS && min < USIZE_MODULUS
            && m <= USIZE_MODULUS && PairSize(hs[x]) <= USIZE_MODULUS
            && (rest != {} || !checked ==>
                  Totals(hs, rest, checked, WrappingSub(size, PairSize(hs[x])), WrappingSub(min, m)))
  {
    var x := indexed[n].0;
    DropOne(hs, indexed, n, S);
    WeightOfRest(hs, S - {x});
    if S - {x} == {} {
      DropPhaseKeeps(hs, indexed, n + 1, S - {x});
    }
  }

  /** What the drop phase leaves behind: the surviving positions and the size of the survivors. */
  ghost predicate DropResult(hs: seq<Header>, S: set<nat>, checked: bool, panicked: bool, size: nat) {
    && Keeps(hs, S)
    && (panicked <==> checked && S == {})
    && (S != {} ==> size + 1 == SumOver(S, Sizes(hs)))
    && (S == {} && !panicked ==> size == USIZE_MODULUS - 1)
  }

  lemma {:induction false} DropEnd(hs: seq<Header>, indexed: seq<(nat, nat)>, n: nat, dropped: set<nat>,
                                   S: set<nat>, checked: bool, size: nat, min: nat)
    requires S == Below(|hs|) - dropped
    requires JoinedMinSize(hs) > HEADERS_SIZE_LIMIT
    requires Indexes(indexed, MinSizes(hs)) && Descending(indexed, (p: (nat, nat)) => p.1)
    requires n > 0 && (S == {} || min <= HEADERS_SIZE_LIMIT)
    requires DroppedSoFar(hs, indexed, n, S) && Totals(hs, S, checked, size, min)
    ensures DropOutcome(hs, dropped, checked, false, size)
  {
    WeightOfRest(hs, S);
    DropPhaseKeeps(hs, indexed, n, S);
  }

  lemma {:induction false} PanicResult(hs: seq<Header>, dropped: set<nat>, S: set<nat>, size: nat)
    requires S == Below(|hs|) - dropped && Keeps(hs, S) && S == {}
    ensures DropOutcome(hs, dropped, true, true, size)
  {
  }

  /** The same in terms of the dropped positions. */
  ghost predicate DropOutcome(hs: seq<Header>, dropped: set<nat>, checked: bool, panicked: bool, size: nat) {
    DropResult(hs, Below(|hs|) - dropped, checked, panicked, size)
  }

  /** The drop loop over a given descending order. `panicked` is set when overflow checks trap;
      without them the sizes wrap around and nothing is kept. */
  method DropInOrder(pairs: seq<Header>, indexed: seq<(nat, nat)>, checked: bool)
    returns (dropped: set<nat>, currentSize: nat, panicked: bool)
    requires JoinedMinSize(pairs) > HEADERS_SIZE_LIMIT && Sum(Sizes(pairs)) < USIZE_MODULUS
    requires Indexes(indexed, MinSizes(pairs)) && Descending(indexed, (p: (nat, nat)) => p.1)
    ensures DropOutcome(pairs, dropped, checked, panicked, currentSize)
  {
    hide *;
    var currentMin: nat;
    currentSize, currentMin, dropped := JoinedSize(pairs), JoinedMinSize(pairs), {};
    StartOfOrder(pairs, indexed, checked);
    ghost var S := Below(|pairs|);
    var n := 0;
    while n < |indexed| && currentMin > HEADERS_SIZE_LIMIT
      invariant n <= |indexed| && S == Below(|pairs|) - dropped
      invariant DroppedSoFar(pairs, indexed, n, S)
      invariant n == |indexed| <==> S == {}
      invariant Totals(pairs, S, checked, currentSize, currentMin)
      invariant n == 0 ==> currentMin > HEADERS_SIZE_LIMIT
    {
      var x: nat, min: nat := indexed[n].0, indexed[n].1;
      DropStep(pairs, indexed, n, S, checked, currentSize, currentMin);
      S := S - {x};
      var size := PairSize(pairs[x]);
      dropped := dropped + {x};
      assert S == Below(|pairs|) - dropped;
      if checked && (currentSize < size || currentMin < min) {
        panicked := true;
        PanicResult(pairs, dropped, S, currentSize);
        return;
      }
      currentSize := WrappingSub(currentSize, size);
      currentMin := WrappingSub(currentMin, min);
      n := n + 1;
    }
    panicked := false;
    DropEnd(pairs, indexed, n, dropped, S, checked, currentSize, currentMin);
  }

  /** The drop phase: sort by minimum size, drop the largest, keep the rest in their order. */
  method DropLargest(pairs: seq<Header>, checked: bool)
    returns (kept: seq<Header>, currentSize: nat, panicked: bool, dropped: set<nat>)
    requires JoinedMinSize(pairs) > HEADERS_SIZE_LIMIT && Sum(Sizes(pairs)) < USIZE_MODULUS
    ensures DropOutcome(pairs, dropped, checked, panicked, currentSize)
    ensures !panicked ==> kept == Pick(Below(|pairs|) - dropped, pairs)
  {
    var mins := MinSizes(pairs);
    var indexed := SortDescendingBy(Enumerate(mins), (p: (nat, nat)) => p.1);
    PermutationIndexes(mins, indexed);
    dropped, currentSize, panicked := DropInOrder(pairs, indexed, checked);
    kept := Pick(Below(|pairs|) - dropped, pairs);
  }

  lemma {:induction false} MinSizesAreSmaller(hs: seq<Header>)
    ensures Sum(MinSizes(hs)) <= Sum(Sizes(hs))
  {
    if hs != [] {
      MinSizesAreSmaller(hs[1..]);
      assert MinSizes(hs)[1..] == MinSizes(hs[1..]);
      assert Sizes(hs)[1..] == Sizes(hs[1..]);
    }
  }

  // ---- Shrink phase ----

  lemma {:induction false} RemoveOne(t: seq<nat>, k: nat, c: nat)
    requires k < |t|
    ensures multiset(t[..k] + t[k + 1..]) == multiset(t) - multiset{t[k]}
    ensures SumCapped(t, c) == SumCapped(t[..k] + t[k + 1..], c) + Min(t[k], c)
  {
    var a, b := t[..k], t[k + 1..];
    assert t == a + ([t[k]] + b);
    assert ([t[k]] + b)[1..] == b;
    SumCappedAppend(a, b, c);
    SumCappedAppend(a, [t[k]] + b, c);
  }

  /** Permuting the lengths does not change the capped total. */
  lemma {:induction false} SumCappedPermutation(s: seq<nat>, t: seq<nat>, c: nat)
    requires multiset(s) == multiset(t)
    ensures SumCapped(s, c) == SumCapped(t, c)
  {
    assert |s| == |multiset(s)| == |multiset(t)| == |t|;
    if s != [] {
      assert s[0] in multiset(t);
      var k :| 0 <= k < |t| && t[k] == s[0];
      RemoveOne(s, 0, c);
      RemoveOne(t, k, c);
      SumCappedPermutation(s[..0] + s[1..], t[..k] + t[k + 1..], c);
    }
  }

  lemma {:induction false} SumCappedAppend(a: seq<nat>, b: seq<nat>, c: nat)
    ensures SumCapped(a + b, c) == SumCapped(a, c) + SumCapped(b, c)
  {
    if a == [] {
      assert a + b == b;
    } else {
      SumCappedAppend(a[1..], b, c);
      assert (a + b)[1..] == a[1..] + b;
    }
  }

  /** A cap nothing exceeds changes nothing. */
  lemma {:induction false} SumCappedHigh(s: seq<nat>, c: nat)
    requires forall i :: 0 <= i < |s| ==> s[i] <= c
    ensures SumCapped(s, c) == Sum(s)
  {
    if s != [] { SumCappedHigh(s[1..], c); }
  }

  lemma {:induction false} SumCappedZero(s: seq<nat>)
    ensures SumCapped(s, 0) == 0
  {
    if s != [] { SumCappedZero(s[1..]); }
  }

  /** Raising the cap by one adds one for every longer value. */
  function LongerThan(s: seq<nat>, c: nat): nat {
    if s == [] then 0 else (if s[0] > c then 1 else 0) + LongerThan(s[1..], c)
  }

  lemma {:induction false} SumCappedStep(s: seq<nat>, c: nat)
    ensures SumCapped(s, c + 1) == SumCapped(s, c) + LongerThan(s, c)
  {
    if s != [] { SumCappedStep(s[1..], c); }
  }

  lemma {:induction false} SumCappedMonotone(s: seq<nat>, c: nat, d: nat)
    requires c <= d
    ensures SumCapped(s, c) <= SumCapped(s, d)
  {
    if s != [] { SumCappedMonotone(s[1..], c, d); }
  }

  /** Where the first `n` lengths are at least `c` and the others at most `c`, the capped total is
      linear in `c`. */
  lemma {:induction false} SumCappedSplit(s: seq<nat>, n: nat, c: nat)
    requires n <= |s|
    requires forall i :: 0 <= i < n ==> s[i] >= c
    requires forall i :: n <= i < |s| ==> s[i] <= c
    ensures SumCapped(s, c) == n * c + Sum(s[n..])
  {
    if n == 0 {
      SumCappedHigh(s, c);
      assert s[0..] == s;
    } else {
      SumCappedSplit(s[1..], n - 1, c);
      assert s[1..][n - 1..] == s[n..];
      Distribute(n - 1, c);
    }
  }

  /** One round of the search: from the `n`-th length down to the next one the total falls by `n`
      per byte. */
  lemma {:induction false} TotalWithinStep(s: seq<nat>, n: nat, next: nat, c: nat)
    requires 0 < n <= |s| && Descending(s, (l: nat) => l)
    requires next == if n < |s| then s[n] else 0
    requires next <= c <= s[n - 1]
    ensures n * (s[n - 1] - c) + SumCapped(s, c) == SumCapped(s, s[n - 1])
  {
    assert forall i :: 0 <= i < n ==> s[i] >= s[n - 1];
    assert forall i :: n <= i < |s| ==> s[i] <= next;
    hide SumCapped;
    hide Sum;
    SumCappedSplit(s, n, s[n - 1]);
    SumCappedSplit(s, n, c);
    MulDifference(n, s[n - 1], c);
  }

  lemma {:induction false} MulDifference(n: nat, a: nat, b: nat)
    ensures n * (a - b) == n * a - n * b
  {
  }

  /** Ceiling division finds the largest cap within the step. */
  lemma {:induction false} CapWithinStep(s: seq<nat>, n: nat, next: nat, total: nat, budget: nat)
    requires 0 < n <= |s| && Descending(s, (l: nat) => l)
    requires next == if n < |s| then s[n] else 0
    requires total == SumCapped(s, s[n - 1]) && total > budget
    ensures next <= s[n - 1]
    ensures var reduction := n * (s[n - 1] - next);
            && reduction <= total && total - reduction == SumCapped(s, next)
            && (total - reduction <= budget ==>
                  var steps := (total - budget + n - 1) / n;
                  && 1 <= steps <= s[n - 1]
                  && SumCapped(s, s[n - 1] - steps) <= budget < SumCapped(s, s[n - 1] - steps + 1))
  {
    var len := s[n - 1];
    TotalWithinStep(s, n, next, next);
    if total - n * (len - next) <= budget {
      var diff := total - budget;
      var steps := (diff + n - 1) / n;
      CeilingDivision(diff, n, len - next);
      TotalWithinStep(s, n, next, len - steps);
      TotalWithinStep(s, n, next, len - steps + 1);
    }
  }

  lemma {:induction false} MulMonotone(n: nat, a: nat, b: nat)
    requires a <= b
    ensures n * a <= n * b
  {
  }

  lemma {:induction false} CeilingDivision(diff: nat, n: nat, most: nat)
    requires n > 0 && diff > 0 && diff <= n * most
    ensures var q := (diff + n - 1) / n;
            && 1 <= q <= most && n * (q - 1) < diff <= n * q
  {
    var q := (diff + n - 1) / n;
    assert n * q <= diff + n - 1 < n * q + n;
    assert n * (q - 1) == n * q - n;
    if q > most {
      MulMonotone(n, most, q - 1);
    }
  }

  /** The search for the cap over the descending lengths. */
  method FindCap(sortedLengths: seq<nat>, valueBudget: nat) returns (cap: nat)
    requires Descending(sortedLengths, (l: nat) => l)
    requires sortedLengths != [] ==> valueBudget < Sum(sortedLengths)
    ensures sortedLengths == [] ==> cap == 0
    ensures sortedLengths != [] ==>
              SumCapped(sortedLengths, cap) <= valueBudget < SumCapped(sortedLengths, cap + 1)
  {
    hide SumCapped;
    hide Sum;
    var total := Sum(sortedLengths);
    cap := 0;
    if sortedLengths != [] { SumCappedHigh(sortedLengths, sortedLengths[0]); }
    var n := 1;
    while n <= |sortedLengths|
      invariant 1 <= n <= |sortedLengths| + 1
      invariant n <= |sortedLengths| ==> total == SumCapped(sortedLengths, sortedLengths[n - 1]) > valueBudget
      invariant n == |sortedLengths| + 1 ==> sortedLengths == []
      invariant cap == 0
    {
      var len := sortedLengths[n - 1];
      var nextLen := if n < |sortedLengths| then sortedLengths[n] else 0;
      CapWithinStep(sortedLengths, n, nextLen, total, valueBudget);
      SumCappedZero(sortedLengths);
      var reduction := n * (len - nextLen);
      if SaturatingSub(total, reduction) <= valueBudget {
        var diff := SaturatingSub(total, valueBudget);
        cap := SaturatingSub(len, (diff + n - 1) / n);
        break;
      }
      total := SaturatingSub(total, reduction);
      n := n + 1;
    }
  }

  // ---- The whole function ----

  /** What the sizes say about the kept headers: the values' share is never negative, and at the
      marker's length every value fits. */
  lemma {:induction false} SizesSplit(hs: seq<Header>)
    ensures Sum(Sizes(hs)) == Sum(ValueLens(hs)) + (Sum(MinSizes(hs)) - SumCapped(ValueLens(hs), MARK_LEN))
    ensures SumCapped(ValueLens(hs), MARK_LEN) <= Sum(MinSizes(hs))
    ensures hs != [] ==> Sum(Sizes(hs)) > 0 && Sum(MinSizes(hs)) > 0
  {
    if hs != [] {
      SizesSplit(hs[1..]);
      assert Sizes(hs)[1..] == Sizes(hs[1..]);
      assert MinSizes(hs)[1..] == MinSizes(hs[1..]);
      assert ValueLens(hs)[1..] == ValueLens(hs[1..]);
    }
  }

  /** The drop phase's guarantee carries over: the cap is never below the marker's length. */
  lemma {:induction false} CapCoversMark(hs: seq<Header>, cap: nat)
    requires hs != [] && Sum(MinSizes(hs)) <= HEADERS_SIZE_LIMIT + 1 && IsCap(hs, cap)
    ensures cap >= MARK_LEN
  {
    SizesSplit(hs);
    if cap < MARK_LEN {
      SumCappedMonotone(ValueLens(hs), cap + 1, MARK_LEN);
    }
  }

  /** The weights of the picked headers are the picked weights. */
  lemma {:induction false} PickedWeights(S: set<nat>, hs: seq<Header>)
    ensures Sum(Sizes(Pick(S, hs))) == SumOver(S, Sizes(hs))
    ensures Sum(MinSizes(Pick(S, hs))) == SumOver(S, MinSizes(hs))
  {
    if hs == [] {
      assert Sizes(hs) == [] && MinSizes(hs) == [];
    } else {
      var n := |hs| - 1;
      var p, one := Pick(S, hs[..n]), [hs[n]];
      PickedWeights(S, hs[..n]);
      assert Sizes(hs)[..n] == Sizes(hs[..n]);
      assert MinSizes(hs)[..n] == MinSizes(hs[..n]);
      if n in S {
        assert Sizes(p + one) == Sizes(p) + [PairSize(hs[n])];
        assert MinSizes(p + one) == MinSizes(p) + [PairMinSize(hs[n])];
        SumAppend(Sizes(p), [PairSize(hs[n])]);
        SumAppend(MinSizes(p), [PairMinSize(hs[n])]);
        assert Pick(S, hs) == p + one;
      } else {
        assert Pick(S, hs) == p;
      }
    }
  }

  /** Cuts every value longer than the cap, which panics inside a character. */
  method CutValues(kept: seq<Header>, cap: nat) returns (r: Outcome)
    requires cap >= MARK_LEN
    ensures r == if SplitsCharacter(kept, cap) then Panicked else Done(true, CutAll(kept, cap))
  {
    var headers := [];
    for i := 0 to |kept|
      invariant headers == CutAll(kept[..i], cap)
      invariant forall j :: 0 <= j < i && |kept[j].value| > cap ==> IsCharBoundary(kept[j].value, cap - MARK_LEN)
    {
      var h := kept[i];
      if |h.value| > cap {
        if !IsCharBoundary(h.value, cap - MARK_LEN) {
          return Panicked;
        }
        h := Header(h.name, h.value[..cap - MARK_LEN] + TRUNCATION_MARK);
      }
      headers := headers + [h];
    }
    assert kept[..|kept|] == kept;
    return Done(true, headers);
  }

  /** Sorting changes neither the total length nor any capped total. */
  lemma {:induction false} SameTotals(s: seq<nat>, t: seq<nat>)
    requires multiset(s) == multiset(t)
    ensures |s| == |t| && Sum(s) == Sum(t)
    ensures forall c: nat :: SumCapped(s, c) == SumCapped(t, c)
  {
    assert |s| == |multiset(s)| == |multiset(t)| == |t|;
    PermutationSum(s, t);
    forall c: nat
      ensures SumCapped(s, c) == SumCapped(t, c)
    {
      SumCappedPermutation(s, t, c);
    }
  }

  /** The shrink phase for headers that still exceed the limit. */
  method ShrinkValues(kept: seq<Header>, currentSize: nat) returns (r: Outcome)
    requires Sum(MinSizes(kept)) <= HEADERS_SIZE_LIMIT + 1
    requires kept != [] ==> currentSize == JoinedSize(kept) > HEADERS_SIZE_LIMIT
    requires kept == [] ==> currentSize == USIZE_MODULUS - 1
    ensures kept != [] ==> ShrinksTo(kept, r)
    ensures kept == [] ==> r == Done(true, [])
  {
    SizesSplit(kept);
    var lens := ValueLens(kept);
    var sortedLengths := SortDescendingBy(lens, (l: nat) => l);
    SameTotals(sortedLengths, lens);
    hide SumCapped;
    hide Sum;
    var valuesSize := Sum(sortedLengths);
    var valueBudget := if HEADERS_SIZE_LIMIT + valuesSize >= currentSize
                       then HEADERS_SIZE_LIMIT + valuesSize - currentSize
                       else HEADERS_SIZE_LIMIT + valuesSize + USIZE_MODULUS - currentSize;
    var cap := FindCap(sortedLengths, valueBudget);
    if kept != [] { CapCoversMark(kept, cap); }
    cap := if cap >= MARK_LEN then cap else MARK_LEN;
    r := CutValues(kept, cap);
  }

  lemma {:induction false} PermutationSum(s: seq<nat>, t: seq<nat>)
    requires multiset(s) == multiset(t)
    ensures Sum(s) == Sum(t)
  {
    var c := Sum(s) + Sum(t);
    EachAtMostSum(s);
    EachAtMostSum(t);
    SumCappedHigh(s, c);
    SumCappedHigh(t, c);
    SumCappedPermutation(s, t, c);
  }

  lemma {:induction false} EachAtMostSum(s: seq<nat>)
    ensures forall i :: 0 <= i < |s| ==> s[i] <= Sum(s)
  {
    if s != [] { EachAtMostSum(s[1..]); }
  }

  /** `truncate_headers`. The total size of the header block is a machine-sized number. */
  method TruncateHeaders(pairs: seq<Header>, checked: bool) returns (r: Outcome)
    requires Sum(Sizes(pairs)) < USIZE_MODULUS
    ensures Truncation(pairs, checked, r)
  {
    if pairs == [] {
      return Done(false, pairs);
    }
    var size, minSize := JoinedSize(pairs), JoinedMinSize(pairs);
    if size <= HEADERS_SIZE_LIMIT {
      return Done(false, pairs);
    }
    var kept, currentSize: nat := pairs, size;
    ghost var S := Below(|pairs|);
    if minSize > HEADERS_SIZE_LIMIT {
      var panicked, dropped;
      kept, currentSize, panicked, dropped := DropLargest(pairs, checked);
      S := Below(|pairs|) - dropped;
      if panicked {
        assert TruncationVia(pairs, checked, S, Panicked);
        return Panicked;
      }
    } else {
      PickAll(S, pairs);
      SumOverAll(Sizes(pairs), S);
      SumOverAll(MinSizes(pairs), S);
    }
    SurvivorsFacts(pairs, S);
    if currentSize <= HEADERS_SIZE_LIMIT {
      r := Done(true, kept);
    } else {
      r := ShrinkValues(kept, currentSize);
    }
    assert TruncationVia(pairs, checked, S, r);
  }

  lemma {:induction false} SurvivorsFacts(hs: seq<Header>, S: set<nat>)
    requires Keeps(hs, S) && hs != []
    ensures Sum(MinSizes(Pick(S, hs))) <= HEADERS_SIZE_LIMIT + 1
    ensures Sum(Sizes(Pick(S, hs))) == SumOver(S, Sizes(hs))
    ensures Pick(S, hs) == [] <==> S == {}
    ensures S != {} ==> SumOver(S, Sizes(hs)) > 0
  {
    PickedWeights(S, hs);
    PickCount(S, hs);
    WeightOfRest(hs, S);
    SumOverAll(MinSizes(hs), Below(|hs|));
  }
}
