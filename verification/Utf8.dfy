/** Byte strings, well-formed UTF-8 (sections 3 and 4 of RFC 3629) and Rust's `is_char_boundary`. */
module Utf8 {
  type byte = b: int | 0 <= b < 256

  /** The bytes of an ASCII literal. */
  function Ascii(s: string): (r: seq<byte>)
    requires forall i :: 0 <= i < |s| ==> s[i] < 128 as char
    ensures |r| == |s|
  {
    seq(|s|, i requires 0 <= i < |s| => s[i] as int)
  }

  predicate IsTail(b: byte) { 0x80 <= b <= 0xBF }

  /** Number of bytes of the well-formed character at the head of `s`; 0 if there is none. */
  function FirstCharLen(s: seq<byte>): (n: nat)
    ensures n <= |s| && n <= 4
  {
    if s == [] then 0
    else if s[0] <= 0x7F then 1
    else if 0xC2 <= s[0] <= 0xDF then
      if |s| >= 2 && IsTail(s[1]) then 2 else 0
    else if 0xE0 <= s[0] <= 0xEF then
      if |s| >= 3 && IsTail(s[1]) && IsTail(s[2])
         && (s[0] == 0xE0 ==> s[1] >= 0xA0) && (s[0] == 0xED ==> s[1] <= 0x9F)
      then 3 else 0
    else if 0xF0 <= s[0] <= 0xF4 then
      if |s| >= 4 && IsTail(s[1]) && IsTail(s[2]) && IsTail(s[3])
         && (s[0] == 0xF0 ==> s[1] >= 0x90) && (s[0] == 0xF4 ==> s[1] <= 0x8F)
      then 4 else 0
    else 0
  }

  predicate Valid(s: seq<byte>)
    decreases |s|
  {
    s == [] || (FirstCharLen(s) > 0 && Valid(s[FirstCharLen(s)..]))
  }

  /** `str::is_char_boundary`: looks at one byte only. */
  predicate IsCharBoundary(s: seq<byte>, i: nat) {
    i == 0 || i == |s| || (i < |s| && !IsTail(s[i]))
  }

  /** The head character is decided by its own bytes alone. */
  lemma {:induction false} FirstCharOfPrefix(p: seq<byte>, s: seq<byte>)
    requires p <= s
    ensures FirstCharLen(p) > 0 ==> FirstCharLen(s) == FirstCharLen(p)
    ensures FirstCharLen(s) > 0 ==>
              FirstCharLen(p) == if |p| >= FirstCharLen(s) then FirstCharLen(s) else 0
  {
    if |p| >= 1 { assert p[0] == s[0]; }
    if |p| >= 2 { assert p[1] == s[1]; }
    if |p| >= 3 { assert p[2] == s[2]; }
    if |p| >= 4 { assert p[3] == s[3]; }
  }

  lemma {:induction false} ValidCons(s: seq<byte>, n: nat, rest: seq<byte>)
    requires 0 < n <= |s| && FirstCharLen(s) == n
    requires s[n..] == rest && Valid(rest)
    ensures Valid(s)
  {
  }

  lemma {:induction false} ValidUncons(s: seq<byte>)
    requires s != [] && Valid(s)
    ensures 0 < FirstCharLen(s) <= |s| && Valid(s[FirstCharLen(s)..])
  {
  }

  /** Concatenating valid strings gives a valid string. */
  lemma {:induction false} ValidConcat(a: seq<byte>, b: seq<byte>)
    requires Valid(a) && Valid(b)
    ensures Valid(a + b)
    decreases |a|
  {
    hide *;
    if a == [] {
      assert a + b == b;
    } else {
      var n := FirstCharLen(a);
      ValidUncons(a);
      FirstCharOfPrefix(a, a + b);
      ValidConcat(a[n..], b);
      assert (a + b)[n..] == a[n..] + b;
      ValidCons(a + b, n, a[n..] + b);
    }
  }

  /** The one-byte test is exact: a position of a valid string is a boundary if and only if the
      bytes before it are themselves valid. */
  lemma {:induction false} BoundaryIffValidPrefix(s: seq<byte>, i: nat)
    requires Valid(s) && i <= |s|
    ensures IsCharBoundary(s, i) <==> Valid(s[..i])
    decreases |s|
  {
    if i > 0 {
      var n := FirstCharLen(s);
      var p := s[..i];
      FirstCharOfPrefix(p, s);
      if i >= n {
        BoundaryIffValidPrefix(s[n..], i - n);
        assert p[n..] == s[n..][..i - n];
      }
    }
  }

  /** No character is longer than four bytes, so one of any four neighbouring positions is a
      boundary. */
  lemma {:induction false} BoundaryNearby(s: seq<byte>, i: nat) returns (k: nat)
    requires Valid(s) && i <= |s|
    ensures k <= i <= k + 3 && IsCharBoundary(s, k)
    decreases |s|
  {
    var n := FirstCharLen(s);
    if i < n || s == [] {
      k := 0;
    } else {
      k := BoundaryNearby(s[n..], i - n);
      BoundaryIffValidPrefix(s[n..], k);
      assert s[..n + k][n..] == s[n..][..k];
      FirstCharOfPrefix(s[..n + k], s);
      k := n + k;
      BoundaryIffValidPrefix(s, k);
    }
  }

  lemma {:induction false} AsciiIsValid(s: seq<byte>)
    requires forall i :: 0 <= i < |s| ==> s[i] <= 0x7F
    ensures Valid(s)
  {
    if s != [] { AsciiIsValid(s[1..]); }
  }
}
