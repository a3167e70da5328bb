/** Sums of weights over sequences and over sets of positions, and a descending sort. */
module Sums {
  function Min(a: nat, b: nat): nat { if a <= b then a else b }

  function Sum(w: seq<nat>): nat {
    if w == [] then 0 else w[0] + Sum(w[1..])
  }

  /** All positions below `n`. */
  function Below(n: nat): (r: set<nat>)
    ensures forall i: nat :: i in r <==> i < n
    ensures |r| == n
  {
    if n == 0 then {} else Below(n - 1) + {n - 1}
  }

  /** The sum of the weights at the positions in `S`. */
  function SumOver(S: set<nat>, w: seq<nat>): nat {
    if w == [] then 0
    else SumOver(S, w[..|w| - 1]) + if |w| - 1 in S then w[|w| - 1] else 0
  }

  /** The elements at the positions in `S`, in their original order. */
  function Pick<T>(S: set<nat>, s: seq<T>): (r: seq<T>) {
    if s == [] then []
    else Pick(S, s[..|s| - 1]) + if |s| - 1 in S then [s[|s| - 1]] else []
  }

  lemma {:induction false} SumAppend(a: seq<nat>, b: seq<nat>)
    ensures Sum(a + b) == Sum(a) + Sum(b)
  {
    if a == [] {
      assert a + b == b;
    } else {
      SumAppend(a[1..], b);
      assert (a + b)[1..] == a[1..] + b;
    }
  }

  lemma {:induction false} SumOverAll(w: seq<nat>, S: set<nat>)
    requires Below(|w|) <= S
    ensures SumOver(S, w) == Sum(w)
  {
    if w != [] {
      var n := |w| - 1;
      SumOverAll(w[..n], S);
      SumAppend(w[..n], [w[n]]);
      assert w == w[..n] + [w[n]];
    }
  }

  lemma {:induction false} SumOverRemove(S: set<nat>, w: seq<nat>, x: nat)
    requires x in S && x < |w|
    ensures SumOver(S, w) == SumOver(S - {x}, w) + w[x]
  {
    var n := |w| - 1;
    if x < n {
      SumOverRemove(S, w[..n], x);
    } else {
      SumOverSame(S, S - {x}, w[..n]);
    }
  }

  /** Positions beyond the weights do not matter. */
  lemma {:induction false} SumOverSame(S: set<nat>, T: set<nat>, w: seq<nat>)
    requires forall i: nat :: i < |w| ==> (i in S <==> i in T)
    ensures SumOver(S, w) == SumOver(T, w)
  {
    if w != [] { SumOverSame(S, T, w[..|w| - 1]); }
  }

  lemma {:induction false} SumOverUnion(S: set<nat>, T: set<nat>, w: seq<nat>)
    requires S !! T
    ensures SumOver(S + T, w) == SumOver(S, w) + SumOver(T, w)
  {
    if w != [] { SumOverUnion(S, T, w[..|w| - 1]); }
  }

  lemma {:induction false} Distribute(k: nat, m: nat)
    ensures (k + 1) * m == k * m + m
  {
  }

  /** A set of positions whose weights are all at least `m` weighs at least `m` per position. */
  lemma {:induction false} SumOverAtLeast(S: set<nat>, w: seq<nat>, m: nat)
    requires S <= Below(|w|) && forall i :: i in S ==> w[i] >= m
    ensures SumOver(S, w) >= |S| * m
    decreases |S|
  {
    if S != {} {
      var x :| x in S;
      SumOverRemove(S, w, x);
      SumOverAtLeast(S - {x}, w, m);
      Distribute(|S| - 1, m);
    }
  }

  /** A set of positions whose weights are all at most `m` weighs at most `m` per position. */
  lemma {:induction false} SumOverAtMost(S: set<nat>, w: seq<nat>, m: nat)
    requires S <= Below(|w|) && forall i :: i in S ==> w[i] <= m
    ensures SumOver(S, w) <= |S| * m
    decreases |S|
  {
    if S == {} {
      SumOverEmpty(w);
    } else {
      var x :| x in S;
      SumOverRemove(S, w, x);
      SumOverAtMost(S - {x}, w, m);
      Distribute(|S| - 1, m);
    }
  }

  lemma {:induction false} SumOverEmpty(w: seq<nat>)
    ensures SumOver({}, w) == 0
  {
    if w != [] { SumOverEmpty(w[..|w| - 1]); }
  }

  lemma {:induction false} PickAll<T>(S: set<nat>, s: seq<T>)
    requires Below(|s|) <= S
    ensures Pick(S, s) == s
  {
    if s != [] {
      PickAll(S, s[..|s| - 1]);
      assert s == s[..|s| - 1] + [s[|s| - 1]];
    }
  }

  lemma {:induction false} PickNone<T>(S: set<nat>, s: seq<T>)
    requires forall i: nat :: i < |s| ==> i !in S
    ensures Pick(S, s) == []
  {
    if s != [] { PickNone(S, s[..|s| - 1]); }
  }

  /** As many elements are picked as there are positions. */
  lemma {:induction false} PickCount<T>(S: set<nat>, s: seq<T>)
    requires S <= Below(|s|)
    ensures |Pick(S, s)| == |S|
  {
    if s != [] {
      var n := |s| - 1;
      PickSame(S, S - {n}, s[..n]);
      PickCount(S - {n}, s[..n]);
    }
  }

  lemma {:induction false} PickSame<T>(S: set<nat>, T': set<nat>, s: seq<T>)
    requires forall i: nat :: i < |s| ==> (i in S <==> i in T')
    ensures Pick(S, s) == Pick(T', s)
  {
    if s != [] { PickSame(S, T', s[..|s| - 1]); }
  }

  // ---- Sorting ----

  ghost predicate Descending<T>(s: seq<T>, key: T -> nat) {
    forall i, j :: 0 <= i < j < |s| ==> key(s[i]) >= key(s[j])
  }

  function Insert<T>(s: seq<T>, p: nat, x: T): seq<T>
    requires p <= |s|
  {
    s[..p] + [x] + s[p..]
  }

  lemma {:induction false} InsertKeepsOrder<T>(s: seq<T>, p: nat, x: T, key: T -> nat)
    requires Descending(s, key) && p <= |s|
    requires forall i :: 0 <= i < p ==> key(s[i]) >= key(x)
    requires p < |s| ==> key(s[p]) < key(x)
    ensures Descending(Insert(s, p, x), key)
  {
  }

  lemma {:induction false} InsertIsPermutation<T>(s: seq<T>, p: nat, x: T)
    requires p <= |s|
    ensures multiset(Insert(s, p, x)) == multiset(s) + multiset{x}
  {
    assert s == s[..p] + s[p..];
  }

  /** The first position whose key is below that of `x`. */
  method FindSlot<T>(s: seq<T>, x: T, key: T -> nat) returns (p: nat)
    ensures p <= |s|
    ensures forall i :: 0 <= i < p ==> key(s[i]) >= key(x)
    ensures p < |s| ==> key(s[p]) < key(x)
  {
    p := 0;
    while p < |s| && key(s[p]) >= key(x)
      invariant p <= |s|
      invariant forall i :: 0 <= i < p ==> key(s[i]) >= key(x)
    {
      p := p + 1;
    }
  }

  /** Some descending order of `s`. The contract does not fix the order of equal keys, as the
      library's unstable sort does not. */
  method SortDescendingBy<T>(s: seq<T>, key: T -> nat) returns (r: seq<T>)
    ensures multiset(r) == multiset(s)
    ensures Descending(r, key)
  {
    r := [];
    for n := 0 to |s|
      invariant multiset(r) == multiset(s[..n])
      invariant Descending(r, key)
    {
      var p := FindSlot(r, s[n], key);
      InsertKeepsOrder(r, p, s[n], key);
      InsertIsPermutation(r, p, s[n]);
      r := Insert(r, p, s[n]);
      assert s[..n + 1] == s[..n] + [s[n]];
    }
    assert s[..|s|] == s;
  }
}
