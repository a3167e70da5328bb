/** The size limit on `rawOutput` (src/util/output_limit.rs). */
module OutputLimit {
  import opened Utf8

  const MAX_RAW_OUTPUT_BYTES: nat := 10_240
  const TRUNCATION_MARKER: seq<byte> := Ascii("\n[...truncated]")

  /** `p` is the longest valid UTF-8 prefix of `s` that has at most `limit` bytes. */
  ghost predicate LongestValidPrefix(p: seq<byte>, s: seq<byte>, limit: nat) {
    && p <= s && |p| <= limit && Valid(p)
    && forall q: seq<byte> | q <= s && |q| <= limit && Valid(q) :: |q| <= |p|
  }

  /** What `truncate_output` promises: `s` itself when it fits, otherwise its longest valid prefix
      within the limit followed by the marker. */
  ghost predicate Truncation(s: seq<byte>, limit: nat, out: seq<byte>) {
    if |s| <= limit then out == s
    else exists p: seq<byte> :: LongestValidPrefix(p, s, limit) && out == p + TRUNCATION_MARKER
  }

  /** `truncate_output`. The parameter is a Rust `str`, hence valid UTF-8. */
  method TruncateOutput(s: seq<byte>, limit: nat) returns (out: seq<byte>)
    requires Valid(s)
    ensures Truncation(s, limit, out)
    ensures |s| > limit ==> limit - 3 + 15 <= |out| <= limit + 15
  {
    if |s| <= limit {
      return s;
    }
    var cut := limit;
    ghost var near := BoundaryNearby(s, limit);
    while cut > 0 && !IsCharBoundary(s, cut)
      invariant near <= cut <= limit
      invariant forall k :: cut < k <= limit ==> !IsCharBoundary(s, k)
    {
      cut := cut - 1;
    }
    LongestPrefixEndsAt(s, limit, cut);
    out := s[..cut] + TRUNCATION_MARKER;
  }

  /** The last boundary within the limit ends the longest valid prefix within the limit. */
  lemma {:induction false} LongestPrefixEndsAt(s: seq<byte>, limit: nat, cut: nat)
    requires Valid(s) && cut <= limit < |s| && IsCharBoundary(s, cut)
    requires forall k :: cut < k <= limit ==> !IsCharBoundary(s, k)
    ensures LongestValidPrefix(s[..cut], s, limit)
  {
    BoundaryIffValidPrefix(s, cut);
    forall q: seq<byte> | q <= s && |q| <= limit && Valid(q)
      ensures |q| <= cut
    {
      BoundaryIffValidPrefix(s, |q|);
      assert q == s[..|q|];
    }
  }

  lemma {:induction false} MarkerIsValid()
    ensures |TRUNCATION_MARKER| == 15 && Valid(TRUNCATION_MARKER)
    ensures forall i :: 0 <= i < 15 ==> TRUNCATION_MARKER[i] <= 0x7F
  {
    AsciiIsValid(TRUNCATION_MARKER);
  }

  /** Truncated output is valid UTF-8, and the specification determines it completely. */
  lemma {:induction false} TruncationIsValidAndUnique(s: seq<byte>, limit: nat, out: seq<byte>, other: seq<byte>)
    requires Valid(s) && Truncation(s, limit, out) && Truncation(s, limit, other)
    ensures Valid(out) && |out| <= limit + 15 && out == other
  {
    MarkerIsValid();
    if |s| > limit {
      var p: seq<byte> :| LongestValidPrefix(p, s, limit) && out == p + TRUNCATION_MARKER;
      var q: seq<byte> :| LongestValidPrefix(q, s, limit) && other == q + TRUNCATION_MARKER;
      assert p == s[..|p|] && q == s[..|q|];
      ValidConcat(p, TRUNCATION_MARKER);
    }
  }

  /** The cut text ends at most three bytes below the limit, and at the limit itself exactly when
      the limit is a character boundary. */
  lemma {:induction false} CutPosition(s: seq<byte>, limit: nat, p: seq<byte>)
    requires Valid(s) && |s| > limit && LongestValidPrefix(p, s, limit)
    ensures limit - 3 <= |p|
    ensures |p| == limit <==> IsCharBoundary(s, limit)
  {
    var cut := BoundaryNearby(s, limit);
    BoundaryIffValidPrefix(s, cut);
    assert s[..cut] <= s;
    BoundaryIffValidPrefix(s, limit);
    assert s[..limit] <= s;
    assert p == s[..|p|];
  }

  /** Every position inside the marker is a boundary of the marked text. */
  lemma {:induction false} BoundaryInsideMarker(p: seq<byte>, i: nat)
    requires |p| <= i < |p| + 15
    ensures IsCharBoundary(p + TRUNCATION_MARKER, i)
  {
    MarkerIsValid();
    assert (p + TRUNCATION_MARKER)[i] == TRUNCATION_MARKER[i - |p|];
  }

  /** Truncating twice is harmless exactly when nothing had to be cut or the limit itself falls on a
      character boundary. In all other cases the second pass keeps a piece of the first marker. */
  lemma {:induction false} TruncatingTwice(s: seq<byte>, limit: nat, once: seq<byte>, twice: seq<byte>)
    requires Valid(s) && Truncation(s, limit, once) && Truncation(once, limit, twice)
    ensures twice == once <==> |s| <= limit || IsCharBoundary(s, limit)
  {
    if |s| > limit {
      var p: seq<byte> :| LongestValidPrefix(p, s, limit) && once == p + TRUNCATION_MARKER;
      CutPosition(s, limit, p);
      MarkerIsValid();
      TruncationIsValidAndUnique(s, limit, once, once);
      BoundaryInsideMarker(p, limit);
      var q: seq<byte> :| LongestValidPrefix(q, once, limit) && twice == q + TRUNCATION_MARKER;
      CutPosition(once, limit, q);
      assert |p| == limit ==> q == p;
    }
  }

  /** A limit that cuts a two-byte character: the second pass changes the text. */
  lemma {:induction false} TruncatingTwiceCanDiffer()
    ensures exists s: seq<byte>, once: seq<byte>, twice: seq<byte> ::
              Valid(s) && Truncation(s, 2, once) && Truncation(once, 2, twice) && twice != once
  {
    var s: seq<byte> := [0x61, 0xC3, 0xA9];
    assert Valid(s) by {
      assert s[1..] == [0xC3, 0xA9];
      assert s[1..][2..] == [];
      assert FirstCharLen(s) == 1 && FirstCharLen(s[1..]) == 2;
      ValidCons(s[1..], 2, []);
    }
    var once := TruncationExists(s, 2);
    TruncationIsValidAndUnique(s, 2, once, once);
    var twice := TruncationExists(once, 2);
    TruncatingTwice(s, 2, once, twice);
    assert IsTail(s[2]);
  }

  lemma {:induction false} TruncationExists(s: seq<byte>, limit: nat) returns (out: seq<byte>)
    requires Valid(s)
    ensures Truncation(s, limit, out)
  {
    if |s| <= limit {
      out := s;
    } else {
      var k: nat := limit;
      while !IsCharBoundary(s, k)
        invariant 0 <= k <= limit
        invariant forall j :: k < j <= limit ==> !IsCharBoundary(s, j)
        decreases k
      {
        k := k - 1;
      }
      LongestPrefixEndsAt(s, limit, k);
      out := s[..k] + TRUNCATION_MARKER;
    }
  }

  // ---- limit_raw_output ----

  /** A JSON value; only the shape that `limit_raw_output` looks at is kept. */
  datatype Json = Text(text: seq<byte>) | Object(fields: map<string, Json>) | Other(tag: int)

  predicate HasOversizedRawOutput(v: Json) {
    && v.Object? && "rawOutput" in v.fields
    && v.fields["rawOutput"].Text? && |v.fields["rawOutput"].text| > MAX_RAW_OUTPUT_BYTES
  }

  /** Only an oversized `rawOutput` text is replaced, by its truncation; every other field and
      every other value is left as it was. */
  ghost predicate Limited(before: Json, after: Json) {
    if HasOversizedRawOutput(before) then
      && after.Object? && after.fields.Keys == before.fields.Keys
      && after.fields["rawOutput"].Text?
      && Truncation(before.fields["rawOutput"].text, MAX_RAW_OUTPUT_BYTES, after.fields["rawOutput"].text)
      && forall k :: k in before.fields && k != "rawOutput" ==> after.fields[k] == before.fields[k]
    else after == before
  }

  /** The mutable JSON value handed to `limit_raw_output`. */
  class MeasurementResult {
    var value: Json

    constructor (v: Json)
      ensures value == v
    {
      value := v;
    }

    method LimitRawOutput()
      requires HasOversizedRawOutput(value) ==> Valid(value.fields["rawOutput"].text)
      modifies this
      ensures Limited(old(value), value)
    {
      if value.Object? && "rawOutput" in value.fields && value.fields["rawOutput"].Text? {
        var raw := value.fields["rawOutput"].text;
        if |raw| > MAX_RAW_OUTPUT_BYTES {
          var truncated := TruncateOutput(raw, MAX_RAW_OUTPUT_BYTES);
          value := Object(value.fields["rawOutput" := Text(truncated)]);
        }
      }
    }
  }

  /** Whatever the result was, its `rawOutput` text afterwards has at most 10,255 bytes; it is untouched
      if it had at most 10,240, and otherwise loses no more than that demands. */
  lemma {:induction false} RawOutputIsBounded(before: Json, after: Json)
    requires HasOversizedRawOutput(before) ==> Valid(before.fields["rawOutput"].text)
    requires Limited(before, after)
    requires before.Object? && "rawOutput" in before.fields && before.fields["rawOutput"].Text?
    ensures after.Object? && "rawOutput" in after.fields && after.fields["rawOutput"].Text?
    ensures |after.fields["rawOutput"].text| <= 10_255
    ensures |before.fields["rawOutput"].text| <= 10_240 ==> after == before
    ensures |before.fields["rawOutput"].text| > 10_240 ==>
              10_252 <= |after.fields["rawOutput"].text|
  {
    if HasOversizedRawOutput(before) {
      var s, t := before.fields["rawOutput"].text, after.fields["rawOutput"].text;
      var p: seq<byte> :| LongestValidPrefix(p, s, MAX_RAW_OUTPUT_BYTES) && t == p + TRUNCATION_MARKER;
      CutPosition(s, MAX_RAW_OUTPUT_BYTES, p);
      MarkerIsValid();
    }
  }

  lemma {:induction false} MarkerText()
    ensures TRUNCATION_MARKER ==
            [0x0A, 0x5B, 0x2E, 0x2E, 0x2E, 0x74, 0x72, 0x75, 0x6E, 0x63, 0x61, 0x74, 0x65, 0x64, 0x5D]
  {
  }

  /** Applying the limit to an already limited result changes nothing exactly when the first pass
      had nothing to do or cut at the limit itself. */
  lemma {:induction false} LimitingTwice(v: Json, once: Json, twice: Json)
    requires HasOversizedRawOutput(v) ==> Valid(v.fields["rawOutput"].text)
    requires Limited(v, once) && Limited(once, twice)
    ensures twice == once <==>
            !HasOversizedRawOutput(v) || IsCharBoundary(v.fields["rawOutput"].text, MAX_RAW_OUTPUT_BYTES)
  {
    if HasOversizedRawOutput(v) {
      var s, t := v.fields["rawOutput"].text, once.fields["rawOutput"].text;
      var p: seq<byte> :| LongestValidPrefix(p, s, MAX_RAW_OUTPUT_BYTES) && t == p + TRUNCATION_MARKER;
      CutPosition(s, MAX_RAW_OUTPUT_BYTES, p);
      MarkerIsValid();
      TruncatingTwice(s, MAX_RAW_OUTPUT_BYTES, t, twice.fields["rawOutput"].text);
      if twice.fields["rawOutput"].text == t {
        assert forall k :: k in once.fields ==> twice.fields[k] == once.fields[k];
        assert twice.fields == once.fields;
      }
    }
  }

  /** `n` letters and one two-byte character. */
  function LettersAndAccent(n: nat): seq<byte> { seq(n, _ => 0x61 as byte) + [0xC3, 0xA9] }

  lemma {:induction false} LettersAndAccentIsValid(n: nat)
    ensures Valid(LettersAndAccent(n)) && !IsCharBoundary(LettersAndAccent(n), n + 1)
  {
    AsciiIsValid(seq(n, _ => 0x61 as byte));
    ValidCons([0xC3, 0xA9], 2, []);
    ValidConcat(seq(n, _ => 0x61 as byte), [0xC3, 0xA9]);
    assert LettersAndAccent(n)[n + 1] == 0xA9;
  }

  lemma {:induction false} LimitedExists(v: Json) returns (after: Json)
    requires HasOversizedRawOutput(v) ==> Valid(v.fields["rawOutput"].text)
    ensures Limited(v, after)
  {
    if HasOversizedRawOutput(v) {
      var t := TruncationExists(v.fields["rawOutput"].text, MAX_RAW_OUTPUT_BYTES);
      after := Object(v.fields["rawOutput" := Text(t)]);
    } else {
      after := v;
    }
  }

  /** At the program's own limit: 10,239 letters followed by a two-byte character. Both passes are
      possible, and every second pass changes the result. */
  lemma {:induction false} LimitingTwiceCanDiffer(n: nat, v: Json)
    requires n == 10_239 && v == Object(map["rawOutput" := Text(LettersAndAccent(n))])
    ensures Valid(LettersAndAccent(n))
    ensures exists once: Json, twice: Json :: Limited(v, once) && Limited(once, twice) && twice != once
    ensures forall once: Json, twice: Json :: Limited(v, once) && Limited(once, twice) ==> twice != once
  {
    LettersAndAccentIsValid(n);
    hide LettersAndAccent;
    hide Limited;
    hide IsCharBoundary;
    assert HasOversizedRawOutput(v) by { LettersLength(n); }
    forall once: Json, twice: Json | Limited(v, once) && Limited(once, twice)
      ensures twice != once
    {
      LimitingTwice(v, once, twice);
    }
    var once := LimitedExists(v);
    LimitedIsValid(v, once);
    var twice := LimitedExists(once);
  }

  lemma {:induction false} LettersLength(n: nat)
    ensures |LettersAndAccent(n)| == n + 2
  {
  }

  lemma {:induction false} LimitedIsValid(v: Json, after: Json)
    requires HasOversizedRawOutput(v) && Valid(v.fields["rawOutput"].text) && Limited(v, after)
    ensures HasOversizedRawOutput(after) ==> Valid(after.fields["rawOutput"].text)
  {
    var s, t := v.fields["rawOutput"].text, after.fields["rawOutput"].text;
    TruncationIsValidAndUnique(s, MAX_RAW_OUTPUT_BYTES, t, t);
  }
}
