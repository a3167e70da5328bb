/** What each reported statistic is (src/command/mtr.rs, `compute_stats`), by laws that do not name how
    it is computed: a mean is the value around which the deviations cancel, rounding gives the nearest
    tenth, and so on. */
module MtrStatsLaws {
  import opened Wrappers
  import opened MtrStats

  // ---- Sums and received times ----

  /** A single term is its own sum, and sums add up over concatenation. */
  lemma {:induction false} SumOfParts(a: seq<real>, b: seq<real>, x: real)
    ensures SumOf([x]) == x && SumOf(a + b) == SumOf(a) + SumOf(b)
  {
    assert SumOf([x][..0]) == 0.0;
    SumOfConcat(a, b);
  }

  lemma {:induction false} SumOfConcat(a: seq<real>, b: seq<real>)
    ensures SumOf(a + b) == SumOf(a) + SumOf(b)
  {
    if b == [] {
      assert a + b == a;
    } else {
      var n := |b| - 1;
      SumOfConcat(a, b[..n]);
      assert (a + b)[..|a + b| - 1] == a + b[..n];
    }
  }

  /** A reply counts with its time, a lost probe not at all, in order. */
  lemma {:induction false} RttsOfParts(a: seq<Timing>, b: seq<Timing>, x: real)
    ensures Rtts([Some(x)]) == [x] && Rtts([None]) == [] && Rtts(a + b) == Rtts(a) + Rtts(b)
  {
    var reply: seq<Timing>, lost: seq<Timing> := [Some(x)], [None];
    assert reply[..0] == [] && lost[..0] == [];
    RttsOfConcat(a, b);
  }

  lemma {:induction false} RttsOfConcat(a: seq<Timing>, b: seq<Timing>)
    ensures Rtts(a + b) == Rtts(a) + Rtts(b)
  {
    if b == [] {
      assert a + b == a;
    } else {
      var n := |b| - 1;
      RttsOfConcat(a, b[..n]);
      assert (a + b)[..|a + b| - 1] == a + b[..n];
    }
  }

  // ---- Rounding ----

  predicate IsTenths(t: real, n: int) { t * 10.0 == n as real }

  /** `t` is `v` to one decimal: a whole number of tenths, none nearer, and away from zero on a tie. */
  ghost predicate Rounds(v: real, t: real) {
    && (exists n: int :: IsTenths(t, n))
    && -0.05 <= t - v <= 0.05
    && (Abs(t - v) == 0.05 ==> Abs(t) > Abs(v))
  }

  lemma {:induction false} R1Rounds(v: real)
    ensures Rounds(v, R1(v))
  {
    RoundNearest(v * 10.0);
    TenthsBack(Round(v * 10.0));
    assert IsTenths(R1(v), Round(v * 10.0));
  }

  lemma {:induction false} TenthsBack(n: int)
    ensures n as real / 10.0 * 10.0 == n as real
  {
  }

  lemma {:induction false} RoundNearest(v: real)
    ensures -0.5 <= Round(v) as real - v <= 0.5
    ensures Abs(Round(v) as real - v) == 0.5 ==> Abs(Round(v) as real) > Abs(v)
  {
  }

  lemma {:induction false} TenthsApart(s: real, t: real, m: int, n: int)
    requires IsTenths(s, m) && IsTenths(t, n) && s > t
    ensures s - t >= 0.1
  {
    assert m > n;
    assert m as real - n as real >= 1.0;
  }

  /** Of two neighbouring tenths at the same distance only one is farther from zero. */
  lemma {:induction false} NoTieBothWays(v: real, s: real, t: real, m: int)
    requires s == v + 0.05 && t == v - 0.05 && IsTenths(s, m)
    ensures Abs(s) <= Abs(v) || Abs(t) <= Abs(v)
  {
  }

  lemma {:induction false} NotAbove(v: real, s: real, t: real)
    requires Rounds(v, s) && Rounds(v, t)
    ensures s <= t
  {
    var m: int :| IsTenths(s, m);
    var n: int :| IsTenths(t, n);
    if s > t {
      TenthsApart(s, t, m, n);
      hide IsTenths;
      NoTieBothWays(v, s, t, m);
    }
  }

  /** There is only one such value. */
  lemma {:induction false} RoundsOnce(v: real, s: real, t: real)
    requires Rounds(v, s) && Rounds(v, t)
    ensures s == t
  {
    hide *;
    NotAbove(v, s, t);
    NotAbove(v, t, s);
  }

  // ---- The mean ----

  function Deviations(rs: seq<real>, c: real): (ds: seq<real>)
    ensures |ds| == |rs|
  {
    seq(|rs|, i requires 0 <= i < |rs| => rs[i] - c)
  }

  /** The deviations from `m` cancel. */
  predicate Balances(rs: seq<real>, m: real) { SumOf(Deviations(rs, m)) == 0.0 }

  lemma {:induction false} DeviationSum(rs: seq<real>, c: real)
    ensures SumOf(Deviations(rs, c)) == SumOf(rs) - c * |rs| as real
  {
    if rs != [] {
      var n := |rs| - 1;
      DeviationSum(rs[..n], c);
      assert Deviations(rs, c)[..n] == Deviations(rs[..n], c);
      OneMoreTerm(c, n);
    }
  }

  lemma {:induction false} QuotientTimes(s: real, n: real)
    requires n > 0.0
    ensures s / n * n == s
  {
  }

  lemma {:induction false} SameProduct(a: real, b: real, n: real)
    requires n > 0.0 && a * n == b * n
    ensures a == b
  {
    if a < b { MulStrict(a, b, n); }
    if b < a { MulStrict(b, a, n); }
  }

  /** The mean is the one value around which the deviations cancel. */
  lemma {:induction false} MeanBalances(rs: seq<real>, m: real)
    requires rs != []
    ensures Balances(rs, m) <==> m == Mean(rs)
  {
    DeviationSum(rs, m);
    QuotientTimes(SumOf(rs), |rs| as real);
    if Balances(rs, m) { SameProduct(m, Mean(rs), |rs| as real); }
  }

  // ---- The fields ----

  /** Without a reply there is nothing to report but the counts. */
  lemma {:induction false} NoReplies(ts: seq<Timing>, isFinal: bool, sqrt: real -> real)
    requires Rtts(ts) == []
    ensures var st := StatsOf(ts, isFinal, sqrt);
            st.min == st.max == st.avg == st.stDev == st.jMin == st.jMax == st.jAvg == 0.0 && st.rcv == 0
  {
    if ts != [] {
      RttsOfConcat(ts[..|ts| - 1], ts[|ts| - 1..]);
      assert ts == ts[..|ts| - 1] + ts[|ts| - 1..];
    }
  }

  /** `avg` is the mean of the received times to one decimal. */
  lemma {:induction false} AvgIsTheMean(ts: seq<Timing>, isFinal: bool, sqrt: real -> real, m: real)
    requires Rtts(ts) != [] && Balances(Rtts(ts), m)
    ensures Rounds(m, StatsOf(ts, isFinal, sqrt).avg)
  {
    MeanBalances(Rtts(ts), m);
    R1Rounds(m);
    hide R1;
    hide Mean;
    hide Rounds;
  }

  /** `q` holds the squared distances of `rs` from `c`. */
  predicate SquaredDistances(rs: seq<real>, c: real, q: seq<real>) {
    |q| == |rs| && forall k :: 0 <= k < |rs| ==> IsRoot(Abs(rs[k] - c), q[k])
  }

  lemma {:induction false} SquaresAreDistances(rs: seq<real>, c: real)
    ensures SquaredDistances(rs, c, SquaresAround(rs, c))
    ensures forall q :: SquaredDistances(rs, c, q) ==> q == SquaresAround(rs, c)
  {
    forall k | 0 <= k < |rs|
      ensures IsRoot(Abs(rs[k] - c), SquaresAround(rs, c)[k])
    {
      AbsSquare(rs[k] - c);
    }
    forall q | SquaredDistances(rs, c, q)
      ensures q == SquaresAround(rs, c)
    {
      assert forall k :: 0 <= k < |rs| ==> q[k] == Abs(rs[k] - c) * Abs(rs[k] - c);
    }
  }

  lemma {:induction false} AbsSquare(x: real)
    ensures Abs(x) * Abs(x) == x * x
  {
  }

  /** `stDev` is, to one decimal, the root of the mean squared distance from the reported average. */
  lemma {:induction false} StDevIsTheDeviation(ts: seq<Timing>, isFinal: bool, sqrt: real -> real,
                                               q: seq<real>, v: real, d: real)
    requires Rtts(ts) != [] && SquaredDistances(Rtts(ts), StatsOf(ts, isFinal, sqrt).avg, q)
    requires Balances(q, v) && IsRoot(sqrt(v), v) && IsRoot(d, v)
    ensures Rounds(d, StatsOf(ts, isFinal, sqrt).stDev)
  {
    var rs := Rtts(ts);
    assert StatsOf(ts, isFinal, sqrt).avg == R1(Mean(rs));
    SquaresAreDistances(rs, R1(Mean(rs)));
    MeanBalances(q, v);
    assert v == Variance(ts);
    DeviationIsDetermined(ts, isFinal, sqrt, d);
    R1Rounds(d);
    hide *;
  }

  /** `p` is the share of `part` in `total` in percent. */
  predicate IsPercent(p: real, part: nat, total: nat) { p * total as real == 100.0 * part as real }

  /** `loss` is the share of lost probes in percent to one decimal. */
  lemma {:induction false} LossIsTheShare(ts: seq<Timing>, isFinal: bool, sqrt: real -> real, p: real)
    requires ts != [] && IsPercent(p, StatsOf(ts, isFinal, sqrt).drop, |ts|)
    ensures Rounds(p, StatsOf(ts, isFinal, sqrt).loss)
  {
    hide *;
    CountFields(ts, isFinal, sqrt);
    LossRounds(StatsOf(ts, isFinal, sqrt).drop, |ts|, p);
  }

  lemma {:induction false} LossRounds(drop: nat, total: nat, p: real)
    requires total > 0 && IsPercent(p, drop, total)
    ensures Rounds(p, Loss(drop, total))
  {
    PercentIs(drop, total, p);
    hide Rounds;
    hide R1;
    R1Rounds(p);
  }

  lemma {:induction false} PercentIs(drop: nat, total: nat, p: real)
    requires total > 0 && IsPercent(p, drop, total)
    ensures drop as real / total as real * 100.0 == p
  {
    var share := drop as real / total as real;
    QuotientTimes(drop as real, total as real);
    assert (share * 100.0) * total as real == 100.0 * drop as real;
    SameProduct(share * 100.0, p, total as real);
  }

  /** The probe that a running test leaves out is the last one, replied to or not. */
  lemma {:induction false} RunningLeavesOutTheLast(ts: seq<Timing>, sqrt: real -> real)
    requires ts != []
    ensures var st := StatsOf(ts, false, sqrt);
            var last := ts[|ts| - 1];
            && st.rcv == |Rtts(ts)| - (if last.Some? then 1 else 0)
            && st.drop == |ts| - |Rtts(ts)| - (if last.None? then 1 else 0)
    ensures var st := StatsOf(ts, true, sqrt);
            st.rcv == |Rtts(ts)| && st.drop == |ts| - |Rtts(ts)|
  {
    CountFields(ts, false, sqrt);
    CountFields(ts, true, sqrt);
    hide StatsOf;
  }

  /** The `k`-th jitter: the difference within the `k`-th pair of received times. */
  function Gap(rs: seq<real>, k: nat): real
    requires 2 * k + 1 < |rs|
  {
    Abs(rs[2 * k] - rs[2 * k + 1])
  }

  function Gaps(rs: seq<real>): (g: seq<real>)
    ensures |g| == |rs| / 2
  {
    seq(|rs| / 2, k requires 0 <= k < |rs| / 2 => Gap(rs, k))
  }

  lemma {:induction false} JittersAreGaps(rs: seq<real>)
    ensures Jitters(rs) == Gaps(rs)
  {
    JitterPairs(rs);
  }

  /** `jMin`, `jMax` and `jAvg` are the smallest, the largest and the mean difference within the pairs,
      to one decimal. */
  lemma {:induction false} JitterIsOfPairs(ts: seq<Timing>, isFinal: bool, sqrt: real -> real,
                                           lo: real, hi: real, m: real)
    requires |Rtts(ts)| >= 2
    requires lo in Gaps(Rtts(ts)) && hi in Gaps(Rtts(ts)) && forall g :: g in Gaps(Rtts(ts)) ==> lo <= g <= hi
    requires Balances(Gaps(Rtts(ts)), m)
    ensures var st := StatsOf(ts, isFinal, sqrt);
            Rounds(lo, st.jMin) && Rounds(hi, st.jMax) && Rounds(m, st.jAvg)
  {
    GapsRound(Rtts(ts), lo, hi, m);
    hide *;
    JitterFields(ts, isFinal, sqrt);
  }

  lemma {:induction false} GapsRound(rs: seq<real>, lo: real, hi: real, m: real)
    requires |rs| >= 2 && lo in Gaps(rs) && hi in Gaps(rs) && forall g :: g in Gaps(rs) ==> lo <= g <= hi
    requires Balances(Gaps(rs), m)
    ensures var jv := Jitters(rs);
            && jv != [] && Rounds(lo, R1(MinOf(jv))) && Rounds(hi, R1(MaxOf(jv))) && Rounds(m, R1(Mean(jv)))
  {
    var jv := Jitters(rs);
    JittersAreGaps(rs);
    Extremes(jv);
    MeanBalances(jv, m);
    hide *;
    R1Rounds(lo);
    R1Rounds(hi);
    R1Rounds(m);
  }

  lemma {:induction false} JitterFields(ts: seq<Timing>, isFinal: bool, sqrt: real -> real)
    requires Jitters(Rtts(ts)) != []
    ensures var st, jv := StatsOf(ts, isFinal, sqrt), Jitters(Rtts(ts));
            st.jMin == R1(MinOf(jv)) && st.jMax == R1(MaxOf(jv)) && st.jAvg == R1(Mean(jv))
  {
    hide R1;
    hide Loss;
    hide MinOf;
    hide MaxOf;
    hide Mean;
    hide SquaresAround;
  }

  /** With fewer than two replies there is no jitter. */
  lemma {:induction false} NoJitter(ts: seq<Timing>, isFinal: bool, sqrt: real -> real)
    requires |Rtts(ts)| < 2
    ensures var st := StatsOf(ts, isFinal, sqrt); st.jMin == st.jMax == st.jAvg == 0.0
  {
  }
}
