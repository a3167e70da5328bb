/** What `truncate_headers` achieves, for every header list and every tie-breaking of its sort.

    The text that `run_http` sends is the kept headers joined as "name: value" lines. */
module HeaderTheorems {
  import opened Utf8
  import opened Sums
  import opened HeaderTruncation

  function Line(h: Header): seq<byte> { h.name + Ascii(": ") + h.value }

  /** The `rawHeaders` text. */
  function Join(hs: seq<Header>): seq<byte> {
    if hs == [] then []
    else if |hs| == 1 then Line(hs[0])
    else Line(hs[0]) + Ascii("\n") + Join(hs[1..])
  }

  // ---- Size ----

  /** The size the algorithm accounts for is the length of the joined text. */
  lemma {:induction false} JoinedSizeIsTextLength(hs: seq<Header>)
    ensures |Join(hs)| == JoinedSize(hs)
  {
    if hs != [] {
      assert Sizes(hs)[1..] == Sizes(hs[1..]);
      if |hs| == 1 {
        assert Sizes(hs) == [PairSize(hs[0])];
      } else {
        JoinedSizeIsTextLength(hs[1..]);
        assert Sizes(hs[1..])[0] == PairSize(hs[1]);
      }
    }
  }

  /** Limiting all values to `c` gives values whose lengths add up to the capped total. */
  lemma {:induction false} CutSizes(hs: seq<Header>, c: nat)
    requires c >= MARK_LEN
    ensures Sum(Sizes(CutAll(hs, c))) + Sum(ValueLens(hs)) == Sum(Sizes(hs)) + SumCapped(ValueLens(hs), c)
  {
    if hs != [] {
      CutSizes(hs[1..], c);
      assert Sizes(hs)[1..] == Sizes(hs[1..]);
      assert ValueLens(hs)[1..] == ValueLens(hs[1..]);
      assert CutAll(hs, c)[1..] == CutAll(hs[1..], c);
      assert Sizes(CutAll(hs, c))[1..] == Sizes(CutAll(hs[1..], c));
      assert Sizes(CutAll(hs, c))[0] == PairSize(Cut(hs[0], c));
      assert |Cut(hs[0], c).value| == Min(|hs[0].value|, c);
    }
  }

  /** After shrinking, the text is within the limit by as little as the cap allows: what is left
      unused is less than one byte for each shortened value. */
  lemma {:induction false} ShrunkTextFits(hs: seq<Header>, c: nat)
    requires hs != [] && c >= MARK_LEN && IsCap(hs, c) && JoinedSize(hs) > HEADERS_SIZE_LIMIT
    ensures |Join(CutAll(hs, c))| <= HEADERS_SIZE_LIMIT
    ensures HEADERS_SIZE_LIMIT - |Join(CutAll(hs, c))| < LongerThan(ValueLens(hs), c)
  {
    JoinedSizeIsTextLength(CutAll(hs, c));
    CutSizes(hs, c);
    SumCappedStep(ValueLens(hs), c);
    SizesSplit(CutAll(hs, c));
  }

  /** Every completed truncation, of any header list at all, yields a text of at most 10,000 bytes. */
  lemma {:induction false} TextFits(hs: seq<Header>, checked: bool, r: Outcome)
    requires Truncation(hs, checked, r) && r.Done?
    ensures |Join(r.headers)| <= HEADERS_SIZE_LIMIT
  {
    JoinedSizeIsTextLength(r.headers);
    if JoinedSize(hs) > HEADERS_SIZE_LIMIT {
      var S: set<nat> :| TruncationVia(hs, checked, S, r);
      if S != {} {
        SurvivorsFacts(hs, S);
        var kept := Pick(S, hs);
        if JoinedSize(kept) > HEADERS_SIZE_LIMIT {
          var c := ShrinkCap(kept, r);
          ShrunkTextFits(kept, c);
        }
      }
    }
  }

  /** Truncating the result again changes nothing, and nothing is reported as truncated. */
  lemma {:induction false} TruncatingAgain(hs: seq<Header>, checked: bool, r: Outcome, again: Outcome)
    requires Truncation(hs, checked, r) && r.Done? && Truncation(r.headers, checked, again)
    ensures again == Done(false, r.headers)
  {
    TextFits(hs, checked, r);
    JoinedSizeIsTextLength(r.headers);
  }

  /** `truncated` is reported exactly when the headers differ from the original ones. */
  lemma {:induction false} TruncatedMeansChanged(hs: seq<Header>, checked: bool, r: Outcome)
    requires Truncation(hs, checked, r) && r.Done?
    ensures r.truncated <==> r.headers != hs
    ensures r.truncated <==> |Join(hs)| > HEADERS_SIZE_LIMIT
  {
    TextFits(hs, checked, r);
    JoinedSizeIsTextLength(hs);
    JoinedSizeIsTextLength(r.headers);
  }

  // ---- Optimality of the drop phase ----

  /** No choice of headers whose minimum sizes fit keeps more headers than the drop phase does,
      whichever way the sort breaks ties. */
  lemma {:induction false} DropPhaseIsOptimal(hs: seq<Header>, S: set<nat>, R: set<nat>)
    requires Keeps(hs, S) && R <= Below(|hs|)
    requires SumOver(R, MinSizes(hs)) <= HEADERS_SIZE_LIMIT + 1
    ensures |R| <= |S|
  {
    var mins := MinSizes(hs);
    if JoinedMinSize(hs) <= HEADERS_SIZE_LIMIT {
      SubsetCount(R, Below(|hs|));
    } else if |R| > |S| {
      var x: nat :| LastDropped(hs, S, x);
      ExchangeWeight(S + {x}, R, mins, mins[x]);
      assert false;
    }
  }

  lemma {:induction false} SubsetCount(A: set<nat>, B: set<nat>)
    requires A <= B
    ensures |A| <= |B|
  {
    assert B == A + (B - A);
  }

  /** If everything only in `R` weighs at least `m`, everything only in `S` at most `m`, and `R` is
      no smaller, then `R` is no lighter. */
  lemma {:induction false} ExchangeWeight(S: set<nat>, R: set<nat>, w: seq<nat>, m: nat)
    requires S <= Below(|w|) && R <= Below(|w|) && |S| <= |R|
    requires forall i :: i in R - S ==> w[i] >= m
    requires forall i :: i in S - R ==> w[i] <= m
    ensures SumOver(S, w) <= SumOver(R, w)
  {
    var common := S * R;
    assert S == common + (S - R) && R == common + (R - S);
    assert |S| == |common| + |S - R| && |R| == |common| + |R - S|;
    SumOverUnion(common, S - R, w);
    SumOverUnion(common, R - S, w);
    SumOverAtMost(S - R, w, m);
    SumOverAtLeast(R - S, w, m);
    MulMonotone(m, |S - R|, |R - S|);
  }

  /** The drop phase loses every header exactly when no header fits on its own. */
  lemma {:induction false} NothingFits(hs: seq<Header>, S: set<nat>)
    requires hs != [] && Keeps(hs, S)
    ensures S == {} <==> forall i :: 0 <= i < |hs| ==> PairMinSize(hs[i]) > HEADERS_SIZE_LIMIT + 1
  {
    hide Below;
    var mins := MinSizes(hs);
    if S == {} {
      assert 0 in Below(|hs|);
      var x: nat :| LastDropped(hs, S, x);
      SumOverRemove({x}, mins, x);
      SumOverEmpty(mins);
      assert {x} - {x} == {} && S + {x} == {x};
      forall i | 0 <= i < |hs|
        ensures PairMinSize(hs[i]) > HEADERS_SIZE_LIMIT + 1
      {
        assert i in Below(|hs|) - S;
        assert mins[i] >= mins[x];
      }
    } else {
      var k: nat :| k in S;
      SumOverRemove(S, mins, k);
      SumOverAll(mins, Below(|hs|));
      assert mins[k] == PairMinSize(hs[k]) <= HEADERS_SIZE_LIMIT + 1;
    }
  }

  // ---- Optimality of the cap ----

  /** A uniform limit fits the budget exactly when it is no larger than the cap. */
  lemma {:induction false} CapIsLargest(hs: seq<Header>, cap: nat, c: nat)
    requires IsCap(hs, cap)
    ensures SumCapped(ValueLens(hs), c) <= ValueBudget(hs) <==> c <= cap
  {
    if c <= cap {
      SumCappedMonotone(ValueLens(hs), c, cap);
    } else {
      SumCappedMonotone(ValueLens(hs), cap + 1, c);
    }
  }

  /** When the kept headers are over the limit the cap exists, is unique, is at least the length of
      the marker and is shorter than the longest value. */
  lemma {:induction false} CapIsDetermined(hs: seq<Header>, cap: nat, other: nat)
    requires hs != [] && Sum(MinSizes(hs)) <= HEADERS_SIZE_LIMIT + 1 && JoinedSize(hs) > HEADERS_SIZE_LIMIT
    requires IsCap(hs, cap) && IsCap(hs, other)
    ensures cap == other >= MARK_LEN == 14
    ensures LongerThan(ValueLens(hs), cap) > 0
  {
    CapIsLargest(hs, cap, other);
    CapIsLargest(hs, other, cap);
    CapCoversMark(hs, cap);
    SumCappedStep(ValueLens(hs), cap);
  }

  // ---- Nothing but the cut is lost ----

  /** `out` is `v`, or, if that is longer than `c`, a prefix of it and the marker, `c` bytes in all. */
  ghost predicate CutTo(v: seq<byte>, out: seq<byte>, c: nat) {
    if |v| <= c then out == v
    else |out| == c >= MARK_LEN && out == v[..c - MARK_LEN] + TRUNCATION_MARK
  }

  /** `out` is `kept` with every value cut to `c`; names are untouched. */
  ghost predicate OnlyCut(kept: seq<Header>, out: seq<Header>, c: nat) {
    && |out| == |kept|
    && forall i :: 0 <= i < |out| ==> out[i].name == kept[i].name && CutTo(kept[i].value, out[i].value, c)
  }

  lemma {:induction false} CutAllOnlyCuts(kept: seq<Header>, c: nat)
    requires c >= MARK_LEN
    ensures OnlyCut(kept, CutAll(kept, c), c)
  {
  }

  /** The cap that a list of survivors calls for: the largest that fits if they are too large, and
      otherwise one that no value exceeds. */
  ghost predicate IsCapFor(kept: seq<Header>, c: nat) {
    if JoinedSize(kept) > HEADERS_SIZE_LIMIT then IsCap(kept, c)
    else forall i :: 0 <= i < |kept| ==> |kept[i].value| <= c
  }

  /** `out` is what the two phases make of `hs`: the survivors of the drop phase, cut to their cap. */
  ghost predicate CutBack(hs: seq<Header>, S: set<nat>, c: nat, out: seq<Header>) {
    Keeps(hs, S) && IsCapFor(Pick(S, hs), c) && OnlyCut(Pick(S, hs), out, c)
  }

  lemma {:induction false} UncutOnlyCuts(kept: seq<Header>)
    requires JoinedSize(kept) <= HEADERS_SIZE_LIMIT
    ensures IsCapFor(kept, Sum(ValueLens(kept))) && OnlyCut(kept, kept, Sum(ValueLens(kept)))
  {
    ValuesAreBounded(kept);
  }

  /** The result is the subsequence of the headers that the drop phase keeps, in which only values
      longer than the computed cap were cut, all to that length. */
  lemma {:induction false} ResultOnlyCuts(hs: seq<Header>, checked: bool, r: Outcome)
    requires Truncation(hs, checked, r) && r.Done?
    ensures exists S: set<nat>, c: nat :: CutBack(hs, S, c, r.headers)
  {
    if JoinedSize(hs) <= HEADERS_SIZE_LIMIT {
      var all, c := Below(|hs|), Sum(ValueLens(hs));
      PickAll(all, hs);
      MinSizesAreSmaller(hs);
      UncutOnlyCuts(hs);
      assert CutBack(hs, all, c, r.headers);
    } else {
      var S: set<nat> :| TruncationVia(hs, checked, S, r);
      assert Keeps(hs, S);
      hide *;
      var c := ViaOnlyCuts(hs, checked, S, r);
    }
  }

  lemma {:induction false} ViaOnlyCuts(hs: seq<Header>, checked: bool, S: set<nat>, r: Outcome) returns (c: nat)
    requires TruncationVia(hs, checked, S, r) && r.Done?
    ensures CutBack(hs, S, c, r.headers)
  {
    var kept := Pick(S, hs);
    hide Keeps;
    hide IsCap;
    if S == {} {
      PickNone(S, hs);
      c := 0;
    } else if JoinedSize(kept) <= HEADERS_SIZE_LIMIT {
      UncutOnlyCuts(kept);
      c := Sum(ValueLens(kept));
    } else {
      c := ShrinkCap(kept, r);
      CutAllOnlyCuts(kept, c);
    }
  }

  /** The cap behind a shrunk result. */
  lemma {:induction false} ShrinkCap(kept: seq<Header>, r: Outcome) returns (c: nat)
    requires JoinedSize(kept) > HEADERS_SIZE_LIMIT && ShrinksTo(kept, r)
    ensures c >= MARK_LEN && IsCap(kept, c)
    ensures r.Panicked? <==> SplitsCharacter(kept, c)
    ensures r.Done? ==> r == Done(true, CutAll(kept, c))
  {
    c :| c >= MARK_LEN && IsCap(kept, c)
         && r == if SplitsCharacter(kept, c) then Panicked else Done(true, CutAll(kept, c));
  }

  lemma {:induction false} ValuesAreBounded(hs: seq<Header>)
    ensures forall i :: 0 <= i < |hs| ==> |hs[i].value| <= Sum(ValueLens(hs))
  {
    EachAtMostSum(ValueLens(hs));
    assert forall i :: 0 <= i < |hs| ==> ValueLens(hs)[i] == |hs[i].value|;
  }

  ghost predicate WellFormed(hs: seq<Header>) {
    forall i :: 0 <= i < |hs| ==> Valid(hs[i].name) && Valid(hs[i].value)
  }

  lemma {:induction false} PickWellFormed(S: set<nat>, hs: seq<Header>)
    requires WellFormed(hs)
    ensures WellFormed(Pick(S, hs))
  {
    if hs != [] { PickWellFormed(S, hs[..|hs| - 1]); }
  }

  /** Valid UTF-8 headers give a valid UTF-8 text: no completed cut splits a character. */
  lemma {:induction false} ResultIsValidUtf8(hs: seq<Header>, checked: bool, r: Outcome)
    requires WellFormed(hs) && Truncation(hs, checked, r) && r.Done?
    ensures WellFormed(r.headers) && Valid(Join(r.headers))
  {
    if JoinedSize(hs) > HEADERS_SIZE_LIMIT {
      var S: set<nat> :| TruncationVia(hs, checked, S, r);
      var kept := Pick(S, hs);
      PickWellFormed(S, hs);
      if S != {} && JoinedSize(kept) > HEADERS_SIZE_LIMIT {
        var c := ShrinkCap(kept, r);
        CutIsWellFormed(kept, c);
      }
    }
    JoinIsValid(r.headers);
  }

  lemma {:induction false} CutIsWellFormed(hs: seq<Header>, c: nat)
    requires WellFormed(hs) && c >= MARK_LEN && !SplitsCharacter(hs, c)
    ensures WellFormed(CutAll(hs, c))
  {
    forall i | 0 <= i < |hs|
      ensures CutAll(hs, c)[i].name == hs[i].name && Valid(CutAll(hs, c)[i].value)
    {
      if |hs[i].value| > c {
        hide Valid;
        CutValueIsValid(hs[i].value, c);
      }
    }
  }

  lemma {:induction false} MarkIsValid()
    ensures Valid(TRUNCATION_MARK)
  {
    hide Valid;
    hide FirstCharLen;
    AsciiIsValid(TRUNCATION_MARK);
  }

  lemma {:induction false} CutValueIsValid(v: seq<byte>, c: nat)
    requires Valid(v) && MARK_LEN <= c < |v| && IsCharBoundary(v, c - MARK_LEN)
    ensures Valid(v[..c - MARK_LEN] + TRUNCATION_MARK)
  {
    hide Valid;
    MarkIsValid();
    BoundaryIffValidPrefix(v, c - MARK_LEN);
    ValidConcat(v[..c - MARK_LEN], TRUNCATION_MARK);
  }

  lemma {:induction false} JoinIsValid(hs: seq<Header>)
    requires WellFormed(hs)
    ensures Valid(Join(hs))
  {
    if hs != [] {
      AsciiIsValid(Ascii(": "));
      AsciiIsValid(Ascii("\n"));
      ValidConcat(hs[0].name, Ascii(": "));
      ValidConcat(hs[0].name + Ascii(": "), hs[0].value);
      if |hs| > 1 {
        JoinIsValid(hs[1..]);
        ValidConcat(Line(hs[0]), Ascii("\n"));
        ValidConcat(Line(hs[0]) + Ascii("\n"), Join(hs[1..]));
      }
    }
  }

  // ---- When the function panics ----

  ghost predicate NoHeaderFits(hs: seq<Header>) {
    forall i :: 0 <= i < |hs| ==> PairMinSize(hs[i]) - 1 > HEADERS_SIZE_LIMIT
  }

  /** The surviving headers are still too large, and at the cap the cut of some value falls inside a
      character. */
  ghost predicate CutsInsideCharacter(kept: seq<Header>) {
    && JoinedSize(kept) > HEADERS_SIZE_LIMIT
    && exists c: nat, i :: c >= MARK_LEN && IsCap(kept, c) && 0 <= i < |kept|
                           && |kept[i].value| > c && !IsCharBoundary(kept[i].value, c - MARK_LEN)
  }

  /** The function fails to return exactly when no header fits on its own and overflow checks are
      compiled in, or when the cut of some surviving value falls inside a character. */
  lemma {:induction false} PanicsExactlyWhen(hs: seq<Header>, checked: bool, S: set<nat>, r: Outcome)
    requires JoinedSize(hs) > HEADERS_SIZE_LIMIT && TruncationVia(hs, checked, S, r)
    ensures r.Panicked? <==> if NoHeaderFits(hs) then checked else CutsInsideCharacter(Pick(S, hs))
  {
    assert hs != [];
    NothingFits(hs, S);
    if S != {} {
      SurvivorsFacts(hs, S);
      if JoinedSize(Pick(S, hs)) > HEADERS_SIZE_LIMIT {
        ShrinkPanics(Pick(S, hs), r);
      }
    }
  }

  lemma {:induction false} ShrinkPanics(kept: seq<Header>, r: Outcome)
    requires kept != [] && Sum(MinSizes(kept)) <= HEADERS_SIZE_LIMIT + 1
    requires JoinedSize(kept) > HEADERS_SIZE_LIMIT && ShrinksTo(kept, r)
    ensures r.Panicked? <==> CutsInsideCharacter(kept)
  {
    var c := ShrinkCap(kept, r);
    forall d: nat | d >= MARK_LEN && IsCap(kept, d)
      ensures d == c
    {
      CapIsDetermined(kept, c, d);
    }
  }

  /** Without a drop phase, that is when all minimum sizes fit, the condition is on the given headers
      alone. */
  lemma {:induction false} PanicsWithoutDropping(hs: seq<Header>, checked: bool, r: Outcome)
    requires JoinedMinSize(hs) <= HEADERS_SIZE_LIMIT && Truncation(hs, checked, r)
    ensures r.Panicked? <==> CutsInsideCharacter(hs)
  {
    if JoinedSize(hs) > HEADERS_SIZE_LIMIT {
      var S: set<nat> :| TruncationVia(hs, checked, S, r);
      PickAll(Below(|hs|), hs);
      PanicsExactlyWhen(hs, checked, S, r);
      if NoHeaderFits(hs) { NothingFits(hs, S); }
    }
  }

  /** When no header fits, dropping all of them is what the drop phase does. */
  lemma {:induction false} KeepsNothing(hs: seq<Header>)
    requires hs != [] && NoHeaderFits(hs)
    ensures Keeps(hs, {}) && JoinedMinSize(hs) > HEADERS_SIZE_LIMIT
  {
    var mins := MinSizes(hs);
    EachAtMostSum(mins);
    assert mins[0] == PairMinSize(hs[0]);
    var x := Smallest(mins);
    SumOverEmpty(mins);
    SumOverRemove({x}, mins, x);
    assert {x} - {x} == {} && {} + {x} == {x};
    assert mins[x] == PairMinSize(hs[x]);
    assert LastDropped(hs, {}, x);
  }

  lemma {:induction false} Smallest(w: seq<nat>) returns (x: nat)
    requires w != []
    ensures x < |w| && forall d :: 0 <= d < |w| ==> w[d] >= w[x]
  {
    var n := |w| - 1;
    x := n;
    if n > 0 {
      var y := Smallest(w[..n]);
      assert forall d :: 0 <= d < n ==> w[d] == w[..n][d] >= w[y];
      if w[y] < w[n] { x := y; }
    }
  }

  /** Survivors that are still too large have a cap. */
  lemma {:induction false} CapExists(kept: seq<Header>) returns (c: nat)
    requires kept != [] && Sum(MinSizes(kept)) <= HEADERS_SIZE_LIMIT + 1 && JoinedSize(kept) > HEADERS_SIZE_LIMIT
    ensures c >= MARK_LEN && IsCap(kept, c)
  {
    var lens := ValueLens(kept);
    SizesSplit(kept);
    var top := Sum(lens);
    EachAtMostSum(lens);
    SumCappedHigh(lens, top);
    assert SumCapped(lens, top) > ValueBudget(kept) >= SumCapped(lens, MARK_LEN);
    if top < MARK_LEN { SumCappedMonotone(lens, top, MARK_LEN); }
    hide SumCapped;
    c := MARK_LEN;
    while SumCapped(lens, c + 1) <= ValueBudget(kept)
      invariant MARK_LEN <= c < top
      invariant SumCapped(lens, c) <= ValueBudget(kept)
      decreases top - c
    {
      c := c + 1;
    }
  }

  /** Every choice the drop phase may make leads to an outcome. */
  lemma {:induction false} OutcomeExists(hs: seq<Header>, checked: bool, S: set<nat>) returns (r: Outcome)
    requires hs != [] && Keeps(hs, S)
    ensures TruncationVia(hs, checked, S, r)
  {
    var kept := Pick(S, hs);
    SurvivorsFacts(hs, S);
    hide Keeps;
    hide IsCap;
    if S == {} {
      r := if checked then Panicked else Done(true, []);
    } else if JoinedSize(kept) <= HEADERS_SIZE_LIMIT {
      r := Done(true, kept);
    } else {
      var c := CapExists(kept);
      r := if SplitsCharacter(kept, c) then Panicked else Done(true, CutAll(kept, c));
    }
  }

  /** Over all tie-breakings, in terms of the given headers: a panic is possible, or certain, exactly
      when no header fits on its own and overflow is checked, or when some, or every, set that the
      drop phase may keep is cut inside a character. */
  lemma {:induction false} PanicsOverAllOrders(hs: seq<Header>, checked: bool)
    requires JoinedSize(hs) > HEADERS_SIZE_LIMIT
    ensures Truncation(hs, checked, Panicked) <==>
            if NoHeaderFits(hs) then checked
            else exists S :: Keeps(hs, S) && CutsInsideCharacter(Pick(S, hs))
    ensures (forall r :: Truncation(hs, checked, r) ==> r.Panicked?) <==>
            if NoHeaderFits(hs) then checked
            else forall S :: Keeps(hs, S) ==> CutsInsideCharacter(Pick(S, hs))
  {
    assert hs != [];
    if NoHeaderFits(hs) { KeepsNothing(hs); }
    hide Keeps;
    hide CutsInsideCharacter;
    hide NoHeaderFits;
    hide Pick;
    forall S | Keeps(hs, S)
      ensures exists r ::
                && TruncationVia(hs, checked, S, r)
                && (r.Panicked? <==> if NoHeaderFits(hs) then checked else CutsInsideCharacter(Pick(S, hs)))
    {
      var r := OutcomeExists(hs, checked, S);
      PanicsExactlyWhen(hs, checked, S, r);
    }
    forall S, r | TruncationVia(hs, checked, S, r)
      ensures Keeps(hs, S)
      ensures r.Panicked? <==> if NoHeaderFits(hs) then checked else CutsInsideCharacter(Pick(S, hs))
    {
      PanicsExactlyWhen(hs, checked, S, r);
    }
    hide TruncationVia;
  }

  /** Pure ASCII headers, one of which fits on its own, never make the function panic. */
  lemma {:induction false} AsciiNeverPanics(hs: seq<Header>, checked: bool, r: Outcome)
    requires Truncation(hs, checked, r) && !NoHeaderFits(hs)
    requires forall i, j :: 0 <= i < |hs| && 0 <= j < |hs[i].value| ==> hs[i].value[j] <= 0x7F
    ensures r.Done?
  {
    if JoinedSize(hs) > HEADERS_SIZE_LIMIT {
      var S: set<nat> :| TruncationVia(hs, checked, S, r);
      PanicsExactlyWhen(hs, checked, S, r);
      PickedFrom(S, hs);
      var kept := Pick(S, hs);
      forall i, k: nat | 0 <= i < |kept| && k < |kept[i].value|
        ensures IsCharBoundary(kept[i].value, k)
      {
        assert kept[i] in hs;
      }
    }
  }

  lemma {:induction false} PickedFrom(S: set<nat>, hs: seq<Header>)
    ensures forall h :: h in Pick(S, hs) ==> h in hs
  {
    if hs != [] { PickedFrom(S, hs[..|hs| - 1]); }
  }

  /** `n` two-byte characters. */
  function Accents(n: nat): (s: seq<byte>)
    ensures |s| == 2 * n
    ensures forall i :: 0 <= i < n ==> s[2 * i + 1] == 0xA9
  {
    if n == 0 then [] else Accents(n - 1) + [0xC3, 0xA9]
  }

  lemma {:induction false} AccentsAreValid(n: nat)
    ensures Valid(Accents(n))
  {
    if n > 0 {
      AccentsAreValid(n - 1);
      ValidCons([0xC3, 0xA9], 2, []);
      ValidConcat(Accents(n - 1), [0xC3, 0xA9]);
    }
  }

  /** A single header with a name of 9,999 bytes and no value does not fit: with overflow checks the
      function panics, without them it drops the header. */
  lemma {:induction false} PanicsOnLongName(hs: seq<Header>, name: seq<byte>, checked: bool, r: Outcome)
    requires |name| == 9999 && hs == [Header(name, [])] && Truncation(hs, checked, r)
    ensures r == if checked then Panicked else Done(true, [])
  {
    LongNameSizes(hs, name);
    var S: set<nat> :| TruncationVia(hs, checked, S, r);
    NothingFits(hs, S);
  }

  lemma {:induction false} LongNameSizes(hs: seq<Header>, name: seq<byte>)
    requires |name| == 9999 && hs == [Header(name, [])]
    ensures JoinedSize(hs) == 10_001 && PairMinSize(hs[0]) == 10_002
  {
    var w := Sizes(hs);
    assert w[0] == PairSize(hs[0]) == 10_002 && w[1..] == [];
    assert Sum(w) == w[0] + Sum(w[1..]);
  }

  /** A single valid header, "x" with 5,001 two-byte characters, makes the function panic in every
      build: the cap is 9,997 and the cut at byte 9,983 splits a character. */
  lemma {:induction false} PanicsOnAccents(hs: seq<Header>, n: nat, checked: bool, r: Outcome)
    requires n == 5001 && hs == [Header([0x78], Accents(n))]
    requires Truncation(hs, checked, r)
    ensures WellFormed(hs) && r.Panicked?
  {
    AccentsAreWellFormed(hs, n);
    AccentSizes(hs, n);
    var S: set<nat> :| TruncationVia(hs, checked, S, r);
    AccentSurvives(hs, n, checked, S, r);
    AccentCut(hs, n);
    hide *;
    PanicsExactlyWhen(hs, checked, S, r);
  }

  lemma {:induction false} AccentsAreWellFormed(hs: seq<Header>, n: nat)
    requires hs == [Header([0x78], Accents(n))]
    ensures WellFormed(hs)
  {
    AccentsAreValid(n);
    AsciiIsValid([0x78]);
  }

  lemma {:induction false} AccentSurvives(hs: seq<Header>, n: nat, checked: bool, S: set<nat>, r: Outcome)
    requires n == 5001 && hs == [Header([0x78], Accents(n))]
    requires TruncationVia(hs, checked, S, r)
    ensures JoinedSize(hs) > HEADERS_SIZE_LIMIT && Pick(S, hs) == hs
  {
    AccentSizes(hs, n);
    PickAll(Below(1), hs);
  }

  lemma {:induction false} AccentSizes(hs: seq<Header>, n: nat)
    requires n == 5001 && hs == [Header([0x78], Accents(n))]
    ensures Sizes(hs) == [10006] && MinSizes(hs) == [18] && ValueLens(hs) == [10002]
    ensures Sum(Sizes(hs)) == 10006 && Sum(MinSizes(hs)) == 18 && Sum(ValueLens(hs)) == 10002
    ensures forall c: nat :: SumCapped(ValueLens(hs), c) == Min(10002, c)
  {
  }

  lemma {:induction false} AccentCut(hs: seq<Header>, n: nat)
    requires n == 5001 && hs == [Header([0x78], Accents(n))]
    ensures CutsInsideCharacter(hs) && !NoHeaderFits(hs)
  {
    AccentSizes(hs, n);
    assert IsCap(hs, 9997);
    assert hs[0].value[2 * 4991 + 1] == 0xA9;
    assert !IsCharBoundary(hs[0].value, 9997 - MARK_LEN);
    assert PairMinSize(hs[0]) == MinSizes(hs)[0];
  }
}
