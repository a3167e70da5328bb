/** Per-hop statistics of mtr (src/command/mtr.rs, `compute_stats`), over the real numbers. The
    square root is a parameter. */
module MtrStats {
  import opened Wrappers

  /** The round-trip time of a probe in milliseconds; `None` is a probe without a reply. */
  type Timing = Option<real>

  datatype HopStats = HopStats(
    min: real, max: real, avg: real, total: nat, loss: real, rcv: nat, drop: nat,
    stDev: real, jMin: real, jMax: real, jAvg: real)

  const NO_STATS := HopStats(0.0, 0.0, 0.0, 0, 0.0, 0, 0, 0.0, 0.0, 0.0, 0.0)

  /** `f64::round`: to the nearest integer, halves away from zero. */
  function Round(v: real): int {
    if v >= 0.0 then (v + 0.5).Floor else -((-v + 0.5).Floor)
  }

  /** `r1`: rounding to one decimal. */
  function R1(v: real): real { Round(v * 10.0) as real / 10.0 }

  function Abs(v: real): real { if v >= 0.0 then v else -v }

  function Rtts(ts: seq<Timing>): seq<real> {
    if ts == [] then []
    else Rtts(ts[..|ts| - 1]) + if ts[|ts| - 1].Some? then [ts[|ts| - 1].value] else []
  }

  function SumOf(rs: seq<real>): real {
    if rs == [] then 0.0 else SumOf(rs[..|rs| - 1]) + rs[|rs| - 1]
  }

  function MinOf(rs: seq<real>): real
    requires rs != []
  {
    if |rs| == 1 then rs[0]
    else var m := MinOf(rs[..|rs| - 1]); if rs[|rs| - 1] < m then rs[|rs| - 1] else m
  }

  function MaxOf(rs: seq<real>): real
    requires rs != []
  {
    if |rs| == 1 then rs[0]
    else var m := MaxOf(rs[..|rs| - 1]); if rs[|rs| - 1] > m then rs[|rs| - 1] else m
  }

  function Mean(rs: seq<real>): real
    requires rs != []
  {
    SumOf(rs) / |rs| as real
  }

  function SquaresAround(rs: seq<real>, c: real): seq<real> {
    seq(|rs|, i requires 0 <= i < |rs| => (rs[i] - c) * (rs[i] - c))
  }

  /** The share of dropped probes in percent. */
  function Loss(drop: nat, total: nat): real
    requires total > 0
  {
    R1(drop as real / total as real * 100.0)
  }

  /** Absolute differences within consecutive, non-overlapping pairs. */
  function Jitters(rs: seq<real>): seq<real> {
    if |rs| < 2 then [] else [Abs(rs[0] - rs[1])] + Jitters(rs[2..])
  }

  /** The probes that are counted: on a running test the last one may still be in flight. */
  function Counted(ts: seq<Timing>, isFinal: bool): seq<Timing>
    requires ts != []
  {
    if isFinal then ts else ts[..|ts| - 1]
  }

  function StatsOf(ts: seq<Timing>, isFinal: bool, sqrt: real -> real): HopStats {
    if ts == [] then NO_STATS
    else
      var rtts, counted := Rtts(ts), Counted(ts, isFinal);
      var rcv := |Rtts(counted)|;
      RttsCount(counted);
      var drop := |counted| - rcv;
      var avg := if rtts == [] then 0.0 else R1(Mean(rtts));
      var jv := Jitters(rtts);
      HopStats(
        if rtts == [] then 0.0 else MinOf(rtts),
        if rtts == [] then 0.0 else MaxOf(rtts),
        avg, |ts|, Loss(drop, |ts|), rcv, drop,
        if rtts == [] then 0.0 else R1(sqrt(Mean(SquaresAround(rtts, avg)))),
        if jv == [] then 0.0 else R1(MinOf(jv)),
        if jv == [] then 0.0 else R1(MaxOf(jv)),
        if jv == [] then 0.0 else R1(Mean(jv)))
  }

  lemma {:induction false} RttsCount(ts: seq<Timing>)
    ensures |Rtts(ts)| <= |ts|
  {
    if ts != [] { RttsCount(ts[..|ts| - 1]); }
  }

  method ComputeStats(timings: seq<Timing>, isFinal: bool, sqrt: real -> real) returns (r: HopStats)
    ensures r == StatsOf(timings, isFinal, sqrt)
  {
    if timings == [] {
      return NO_STATS;
    }
    var total := |timings|;
    var rtts := Rtts(timings);
    var min, max, avg, stDev := 0.0, 0.0, 0.0, 0.0;
    if rtts != [] {
      min, max, avg := MinOf(rtts), MaxOf(rtts), R1(Mean(rtts));
      stDev := R1(sqrt(Mean(SquaresAround(rtts, avg))));
    }
    var rcv, drop := CountReplies(timings, isFinal);
    var loss := Loss(drop, total);
    var jv := PairJitters(rtts);
    var jMin, jMax, jAvg := 0.0, 0.0, 0.0;
    if jv != [] {
      jMin, jMax, jAvg := R1(MinOf(jv)), R1(MaxOf(jv)), R1(Mean(jv));
    }
    r := HopStats(min, max, avg, total, loss, rcv, drop, stDev, jMin, jMax, jAvg);
  }

  method CountReplies(timings: seq<Timing>, isFinal: bool) returns (rcv: nat, drop: nat)
    requires timings != []
    ensures rcv == |Rtts(Counted(timings, isFinal))|
    ensures rcv + drop == |Counted(timings, isFinal)|
  {
    rcv, drop := 0, 0;
    for i := 0 to |timings|
      invariant i < |timings| || isFinal ==> rcv == |Rtts(timings[..i])| && rcv + drop == i
      invariant i == |timings| && !isFinal ==>
                  rcv == |Rtts(timings[..i - 1])| && rcv + drop == i - 1
    {
      assert timings[..i + 1][..i] == timings[..i];
      if i == |timings| - 1 && !isFinal {
        continue;
      }
      if timings[i].Some? { rcv := rcv + 1; } else { drop := drop + 1; }
    }
    assert timings[..|timings|] == timings;
  }

  lemma {:induction false} JittersFrom(rs: seq<real>, i: nat)
    requires i + 1 < |rs|
    ensures Jitters(rs[i..]) == [Abs(rs[i] - rs[i + 1])] + Jitters(rs[i + 2..])
  {
    assert rs[i..][2..] == rs[i + 2..];
  }

  method PairJitters(rtts: seq<real>) returns (jv: seq<real>)
    ensures jv == Jitters(rtts)
  {
    jv := [];
    var i := 0;
    assert rtts[0..] == rtts;
    while i + 1 < |rtts|
      invariant 0 <= i <= |rtts|
      invariant jv + Jitters(rtts[i..]) == Jitters(rtts)
    {
      JittersFrom(rtts, i);
      hide Jitters;
      ghost var before, rest := jv, Jitters(rtts[i + 2..]);
      var d := Abs(rtts[i] - rtts[i + 1]);
      assert before + ([d] + rest) == (before + [d]) + rest;
      jv := jv + [d];
      i := i + 2;
    }
  }

  // ---- Rounding ----

  lemma {:induction false} RoundMonotone(a: real, b: real)
    requires a <= b
    ensures Round(a) <= Round(b)
  {
  }

  /** Rounding to one decimal is monotone and moves a value by at most 0.05. */
  lemma {:induction false} R1Properties(a: real, b: real)
    ensures a <= b ==> R1(a) <= R1(b)
    ensures -0.05 <= R1(a) - a <= 0.05
  {
    if a <= b { RoundMonotone(a * 10.0, b * 10.0); }
  }

  // ---- Accounting ----

  /** Received and dropped probes add up to all probes on a final parse and to all but the last on a
      running one; the loss is a percentage. */
  lemma {:induction false} ProbesAddUp(ts: seq<Timing>, isFinal: bool, sqrt: real -> real)
    ensures var st := StatsOf(ts, isFinal, sqrt);
            && st.total == |ts|
            && st.rcv + st.drop == (if ts == [] || isFinal then |ts| else |ts| - 1)
            && 0.0 <= st.loss <= 100.0
            && (isFinal ==> st.rcv == |Rtts(ts)|)
  {
    if ts == [] {
      assert Rtts(ts) == [];
    } else {
      CountFields(ts, isFinal, sqrt);
      hide StatsOf;
      hide Loss;
      LossIsPercentage(StatsOf(ts, isFinal, sqrt).drop, |ts|);
    }
  }

  lemma {:induction false} CountFields(ts: seq<Timing>, isFinal: bool, sqrt: real -> real)
    requires ts != []
    ensures var st := StatsOf(ts, isFinal, sqrt);
            && st.total == |ts| && st.loss == Loss(st.drop, |ts|)
            && st.rcv == |Rtts(Counted(ts, isFinal))|
            && st.rcv + st.drop == |Counted(ts, isFinal)|
  {
    hide R1;
    hide Loss;
    hide MinOf;
    hide MaxOf;
    hide Mean;
    hide Jitters;
    hide SquaresAround;
    hide Rtts;
  }

  lemma {:induction false} LossIsPercentage(drop: nat, total: nat)
    requires drop <= total && total > 0
    ensures 0.0 <= Loss(drop, total) <= 100.0
  {
    var share := drop as real / total as real;
    ShareIsAtMostOne(drop, total);
    R1Properties(0.0, share * 100.0);
    R1Properties(share * 100.0, 100.0);
    assert R1(0.0) == 0.0 && R1(100.0) == 100.0;
  }

  lemma {:induction false} ShareIsAtMostOne(a: nat, b: nat)
    requires a <= b && b > 0
    ensures 0.0 <= a as real / b as real <= 1.0
  {
  }

  lemma {:induction false} OneMoreTerm(x: real, n: nat)
    ensures x * (n + 1) as real == x * n as real + x
  {
    assert (n + 1) as real == n as real + 1.0;
  }

  lemma {:induction false} SumBetween(rs: seq<real>, lo: real, hi: real)
    requires forall r :: r in rs ==> lo <= r <= hi
    ensures lo * |rs| as real <= SumOf(rs) <= hi * |rs| as real
  {
    if rs != [] {
      var n := |rs| - 1;
      assert forall r :: r in rs[..n] ==> r in rs;
      SumBetween(rs[..n], lo, hi);
      assert rs[n] in rs;
      OneMoreTerm(lo, n);
      OneMoreTerm(hi, n);
    }
  }

  lemma {:induction false} Extremes(rs: seq<real>)
    requires rs != []
    ensures MinOf(rs) in rs && MaxOf(rs) in rs
    ensures forall r :: r in rs ==> MinOf(rs) <= r <= MaxOf(rs)
  {
    if |rs| > 1 {
      var n := |rs| - 1;
      Extremes(rs[..n]);
      assert forall r :: r in rs ==> r in rs[..n] || r == rs[n];
    }
  }

  lemma {:induction false} MeanBetween(rs: seq<real>)
    requires rs != []
    ensures MinOf(rs) <= Mean(rs) <= MaxOf(rs)
  {
    Extremes(rs);
    SumBetween(rs, MinOf(rs), MaxOf(rs));
    QuotientBetween(SumOf(rs), |rs| as real, MinOf(rs), MaxOf(rs));
  }

  lemma {:induction false} MulStrict(a: real, b: real, n: real)
    requires a < b && n > 0.0
    ensures a * n < b * n
  {
  }

  lemma {:induction false} QuotientBetween(s: real, n: real, lo: real, hi: real)
    requires n > 0.0 && lo * n <= s <= hi * n
    ensures lo <= s / n <= hi
  {
    var q := s / n;
    assert q * n == s;
    if q < lo { MulStrict(q, lo, n); }
    if q > hi { MulStrict(hi, q, n); }
  }

  /** With at least one reply, the smallest and largest times are attained and bound all others, and
      the reported average is within 0.05 of the range. */
  lemma {:induction false} AverageIsInRange(ts: seq<Timing>, isFinal: bool, sqrt: real -> real)
    requires Rtts(ts) != []
    ensures var st := StatsOf(ts, isFinal, sqrt);
            && st.min in Rtts(ts) && st.max in Rtts(ts)
            && (forall r :: r in Rtts(ts) ==> st.min <= r <= st.max)
            && st.min - 0.05 <= st.avg <= st.max + 0.05
  {
    var rs := Rtts(ts);
    Extremes(rs);
    MeanBetween(rs);
    R1Properties(Mean(rs), Mean(rs));
  }

  lemma {:induction false} JitterPairs(rs: seq<real>)
    ensures |Jitters(rs)| == |rs| / 2
    ensures forall k :: 0 <= k < |rs| / 2 ==> Jitters(rs)[k] == Abs(rs[2 * k] - rs[2 * k + 1])
  {
    if |rs| >= 2 { JitterPairs(rs[2..]); }
  }

  /** There is one jitter sample for every two replies, and rounding keeps the order of the smallest,
      the average and the largest jitter; none is negative. */
  lemma {:induction false} JitterIsOrdered(ts: seq<Timing>, isFinal: bool, sqrt: real -> real)
    ensures |Jitters(Rtts(ts))| == |Rtts(ts)| / 2
    ensures var st := StatsOf(ts, isFinal, sqrt);
            0.0 <= st.jMin <= st.jAvg <= st.jMax
  {
    var jv := Jitters(Rtts(ts));
    JitterPairs(Rtts(ts));
    if jv != [] {
      Extremes(jv);
      MeanBetween(jv);
      R1Properties(0.0, MinOf(jv));
      R1Properties(MinOf(jv), Mean(jv));
      R1Properties(Mean(jv), MaxOf(jv));
      assert R1(0.0) == 0.0;
    }
  }

  // ---- Deviation ----

  predicate IsRoot(d: real, v: real) { d >= 0.0 && d * d == v }

  lemma {:induction false} SquareDifference(a: real, b: real)
    ensures (b - a) * (b + a) == b * b - a * a
  {
  }

  lemma {:induction false} RealProduct(x: real, y: real)
    requires x > 0.0 && y > 0.0
    ensures x * y > 0.0
  {
  }

  lemma {:induction false} MulBoth(a: real, b: real)
    requires 0.0 <= a < b
    ensures a * a < b * b
  {
    SquareDifference(a, b);
    RealProduct(b - a, b + a);
  }

  lemma {:induction false} RootIsUnique(a: real, b: real, v: real)
    requires IsRoot(a, v) && IsRoot(b, v)
    ensures a == b
  {
    if a < b { MulBoth(a, b); }
    if b < a { MulBoth(b, a); }
  }

  /** The mean squared distance from the reported, rounded average. */
  function Variance(ts: seq<Timing>): real
    requires Rtts(ts) != []
  {
    Mean(SquaresAround(Rtts(ts), R1(Mean(Rtts(ts)))))
  }

  /** Any square root function that yields the root of the variance gives the same deviation, within 0.05 of that
      root. */
  lemma {:induction false} DeviationIsDetermined(ts: seq<Timing>, isFinal: bool, sqrt: real -> real, d: real)
    requires Rtts(ts) != [] && IsRoot(sqrt(Variance(ts)), Variance(ts)) && IsRoot(d, Variance(ts))
    ensures var st := StatsOf(ts, isFinal, sqrt);
            st.stDev == R1(d) >= 0.0 && d - 0.05 <= st.stDev <= d + 0.05
  {
    RootIsUnique(sqrt(Variance(ts)), d, Variance(ts));
    DeviationField(ts, isFinal, sqrt);
    hide StatsOf;
    hide Variance;
    R1Properties(0.0, d);
    assert R1(0.0) == 0.0;
  }

  lemma {:induction false} DeviationField(ts: seq<Timing>, isFinal: bool, sqrt: real -> real)
    requires Rtts(ts) != []
    ensures StatsOf(ts, isFinal, sqrt).stDev == R1(sqrt(Variance(ts)))
  {
    hide R1;
    hide Loss;
    hide MinOf;
    hide MaxOf;
    hide Mean;
    hide Jitters;
    hide SquaresAround;
  }

  lemma {:induction false} VarianceIsNotNegative(ts: seq<Timing>)
    requires Rtts(ts) != []
    ensures Variance(ts) >= 0.0
  {
    var rs := Rtts(ts);
    var avg := R1(Mean(rs));
    var sq := SquaresAround(rs, avg);
    forall k | 0 <= k < |sq|
      ensures sq[k] >= 0.0
    {
      SquareIsNotNegative(rs[k] - avg);
    }
    Extremes(sq);
    MeanBetween(sq);
  }

  lemma {:induction false} SquareIsNotNegative(x: real)
    ensures x * x >= 0.0
  {
  }
}
