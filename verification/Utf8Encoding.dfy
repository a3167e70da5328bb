/** That `Utf8.Valid` is UTF-8: it accepts exactly the byte strings that encode a sequence of Unicode
    scalar values by the table of section 3 of RFC 3629. */
module Utf8Encoding {
  import opened Utf8

  /** A code point outside the surrogates. */
  predicate Scalar(c: nat) { c <= 0xD7FF || 0xE000 <= c <= 0x10FFFF }

  function Tail(c: nat): byte { 0x80 + c % 64 }

  function Encode(c: nat): (r: seq<byte>)
    requires Scalar(c)
    ensures 1 <= |r| <= 4
  {
    if c <= 0x7F then [c]
    else if c <= 0x7FF then [0xC0 + c / 64, Tail(c)]
    else if c <= 0xFFFF then [0xE0 + c / 4096, Tail(c / 64), Tail(c)]
    else [0xF0 + c / 262_144, Tail(c / 4096), Tail(c / 64), Tail(c)]
  }

  predicate AllScalar(cs: seq<nat>) { forall i :: 0 <= i < |cs| ==> Scalar(cs[i]) }

  function EncodeAll(cs: seq<nat>): seq<byte>
    requires AllScalar(cs)
  {
    if cs == [] then [] else Encode(cs[0]) + EncodeAll(cs[1..])
  }

  /** The encoding of a scalar value is read as one character, whatever follows it. */
  lemma {:induction false} EncodedIsCharacter(c: nat, rest: seq<byte>)
    requires Scalar(c)
    ensures FirstCharLen(Encode(c) + rest) == |Encode(c)|
  {
    var s := Encode(c) + rest;
    if c <= 0x7F {
      assert s[0] == c;
    } else if c <= 0x7FF {
      assert s[0] == 0xC0 + c / 64 && s[1] == Tail(c);
    } else if c <= 0xFFFF {
      assert s[0] == 0xE0 + c / 4096 && s[1] == Tail(c / 64) && s[2] == Tail(c);
      ThreeBytes(c);
    } else {
      assert s[0] == 0xF0 + c / 262_144 && s[1] == Tail(c / 4096) && s[2] == Tail(c / 64) && s[3] == Tail(c);
      FourBytes(c);
    }
  }

  lemma {:induction false} ThreeBytes(c: nat)
    requires 0x800 <= c <= 0xFFFF && Scalar(c)
    ensures c / 4096 <= 15
    ensures c / 4096 == 0 ==> c / 64 % 64 >= 0x20
    ensures c / 4096 == 13 ==> c / 64 % 64 <= 0x1F
  {
    assert c / 64 == c / 4096 * 64 + c / 64 % 64;
  }

  lemma {:induction false} FourBytes(c: nat)
    requires 0x1_0000 <= c <= 0x10_FFFF
    ensures c / 262_144 <= 4
    ensures c / 262_144 == 0 ==> c / 4096 % 64 >= 0x10
    ensures c / 262_144 == 4 ==> c / 4096 % 64 <= 0x0F
  {
    assert c / 4096 == c / 262_144 * 64 + c / 4096 % 64;
  }

  /** The value of the character at the head. */
  function Decode(s: seq<byte>): (c: nat)
    requires FirstCharLen(s) > 0
  {
    var n := FirstCharLen(s);
    if n == 1 then s[0]
    else if n == 2 then (s[0] as int - 0xC0) * 64 + (s[1] as int - 0x80)
    else if n == 3 then (s[0] as int - 0xE0) * 4096 + (s[1] as int - 0x80) * 64 + (s[2] as int - 0x80)
    else (s[0] as int - 0xF0) * 262_144 + (s[1] as int - 0x80) * 4096
         + (s[2] as int - 0x80) * 64 + (s[3] as int - 0x80)
  }

  lemma {:induction false} Digits(a: nat, b: nat)
    requires b < 64
    ensures (a * 64 + b) / 64 == a && (a * 64 + b) % 64 == b
  {
  }

  lemma {:induction false} TwoBytesDecode(a: byte, b: byte)
    requires 0xC2 <= a <= 0xDF && IsTail(b)
    ensures var c := (a as int - 0xC0) * 64 + (b as int - 0x80);
            0x80 <= c <= 0x7FF && Encode(c) == [a, b]
  {
    Digits(a as int - 0xC0, b as int - 0x80);
  }

  lemma {:induction false} ThreeBytesDecode(a: byte, b: byte, d: byte)
    requires 0xE0 <= a <= 0xEF && IsTail(b) && IsTail(d)
    requires (a == 0xE0 ==> b >= 0xA0) && (a == 0xED ==> b <= 0x9F)
    ensures var c := (a as int - 0xE0) * 4096 + (b as int - 0x80) * 64 + (d as int - 0x80);
            0x800 <= c <= 0xFFFF && Scalar(c) && Encode(c) == [a, b, d]
  {
    var hi := (a as int - 0xE0) * 64 + (b as int - 0x80);
    var c := hi * 64 + (d as int - 0x80);
    Digits(a as int - 0xE0, b as int - 0x80);
    Digits(hi, d as int - 0x80);
    Quotients(c);
  }

  lemma {:induction false} FourBytesDecode(a: byte, b: byte, d: byte, e: byte)
    requires 0xF0 <= a <= 0xF4 && IsTail(b) && IsTail(d) && IsTail(e)
    requires (a == 0xF0 ==> b >= 0x90) && (a == 0xF4 ==> b <= 0x8F)
    ensures var c := (a as int - 0xF0) * 262_144 + (b as int - 0x80) * 4096
                     + (d as int - 0x80) * 64 + (e as int - 0x80);
            0x1_0000 <= c <= 0x10_FFFF && Encode(c) == [a, b, d, e]
  {
    var top := (a as int - 0xF0) * 64 + (b as int - 0x80);
    var hi := top * 64 + (d as int - 0x80);
    var c := hi * 64 + (e as int - 0x80);
    Digits(a as int - 0xF0, b as int - 0x80);
    Digits(top, d as int - 0x80);
    Digits(hi, e as int - 0x80);
    Quotients(c);
  }

  /** Every character read is the encoding of a scalar value. */
  lemma {:induction false} CharacterIsEncoded(s: seq<byte>)
    requires FirstCharLen(s) > 0
    ensures Scalar(Decode(s)) && s[..FirstCharLen(s)] == Encode(Decode(s))
  {
    var n := FirstCharLen(s);
    if n == 2 { TwoBytesDecode(s[0], s[1]); }
    if n == 3 { ThreeBytesDecode(s[0], s[1], s[2]); }
    if n == 4 { FourBytesDecode(s[0], s[1], s[2], s[3]); }
  }

  lemma {:induction false} Quotients(c: nat)
    ensures c / 64 / 64 == c / 4096 && c / 4096 / 64 == c / 262_144
  {
  }

  lemma {:induction false} EncodedIsValid(cs: seq<nat>)
    requires AllScalar(cs)
    ensures Valid(EncodeAll(cs))
  {
    if cs != [] {
      EncodedIsValid(cs[1..]);
      EncodedIsCharacter(cs[0], EncodeAll(cs[1..]));
      var s := EncodeAll(cs);
      assert s[|Encode(cs[0])|..] == EncodeAll(cs[1..]);
      hide FirstCharLen;
      hide Encode;
    }
  }

  lemma {:induction false} ValidIsEncoded(s: seq<byte>) returns (cs: seq<nat>)
    requires Valid(s)
    ensures AllScalar(cs) && s == EncodeAll(cs)
    decreases |s|
  {
    if s == [] {
      cs := [];
    } else {
      var n := FirstCharLen(s);
      CharacterIsEncoded(s);
      var rest := ValidIsEncoded(s[n..]);
      hide *;
      PrependCharacter(s, n, Decode(s), rest);
      cs := [Decode(s)] + rest;
    }
  }

  lemma {:induction false} PrependCharacter(s: seq<byte>, n: nat, c: nat, rest: seq<nat>)
    requires n <= |s| && Scalar(c) && s[..n] == Encode(c) && AllScalar(rest) && s[n..] == EncodeAll(rest)
    ensures AllScalar([c] + rest) && s == EncodeAll([c] + rest)
  {
    var cs := [c] + rest;
    assert cs[1..] == rest && s == s[..n] + s[n..];
    hide Encode;
    hide Scalar;
  }

  /** A byte string is valid if and only if it encodes some sequence of scalar values. */
  lemma {:induction false} ValidExactlyWhenEncoded(s: seq<byte>)
    ensures Valid(s) <==> exists cs: seq<nat> :: AllScalar(cs) && s == EncodeAll(cs)
  {
    if Valid(s) { var cs := ValidIsEncoded(s); }
    forall cs: seq<nat> | AllScalar(cs) && s == EncodeAll(cs)
      ensures Valid(s)
    {
      EncodedIsValid(cs);
    }
  }

  /** ASCII characters encode themselves. */
  lemma {:induction false} AsciiEncodesItself(text: string)
    requires forall i :: 0 <= i < |text| ==> text[i] < 128 as char
    ensures forall i :: 0 <= i < |text| ==>
              Ascii(text)[i] == text[i] as int && Encode(text[i] as int) == [Ascii(text)[i]]
  {
  }
}
