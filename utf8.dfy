/**
 * UTF-8 as defined by RFC 3629.
 *
 * `Valid` is the well-formedness grammar of section 4 of RFC 3629 (the rule
 * that Rust's `str::from_utf8` enforces); `Encode` is the scalar-value
 * encoding table of section 3. The two are tied together by the round-trip
 * lemmas at the end: a byte sequence is well formed exactly when it is the
 * encoding of a sequence of Unicode scalar values.
 */
module Utf8 {
  import opened Seqs

  /** An octet. */
  type byte = x: int | 0 <= x < 0x100

  predicate InRange(b: byte, lo: int, hi: int) {
    lo <= b <= hi
  }

  /** UTF8-tail = %x80-BF */
  predicate IsTail(b: byte) {
    InRange(b, 0x80, 0xBF)
  }

  /**
   * Length of the UTF8-char that `s` starts with, or 0 when `s` does not
   * start with one. Each branch is one alternative of the grammar:
   *
   *   UTF8-1 = %x00-7F
   *   UTF8-2 = %xC2-DF UTF8-tail
   *   UTF8-3 = %xE0 %xA0-BF UTF8-tail / %xE1-EC 2( UTF8-tail ) /
   *            %xED %x80-9F UTF8-tail / %xEE-EF 2( UTF8-tail )
   *   UTF8-4 = %xF0 %x90-BF 2( UTF8-tail ) / %xF1-F3 3( UTF8-tail ) /
   *            %xF4 %x80-8F 2( UTF8-tail )
   */
  function CharLen(s: seq<byte>): (n: nat)
    ensures n <= |s| && n <= 4
    ensures n > 0 ==> !IsTail(s[0])
  {
    if |s| == 0 then 0
    else if s[0] <= 0x7F then 1
    else if InRange(s[0], 0xC2, 0xDF) then
      if |s| >= 2 && IsTail(s[1]) then 2 else 0
    else if s[0] == 0xE0 then
      if |s| >= 3 && InRange(s[1], 0xA0, 0xBF) && IsTail(s[2]) then 3 else 0
    else if InRange(s[0], 0xE1, 0xEC) || InRange(s[0], 0xEE, 0xEF) then
      if |s| >= 3 && IsTail(s[1]) && IsTail(s[2]) then 3 else 0
    else if s[0] == 0xED then
      if |s| >= 3 && InRange(s[1], 0x80, 0x9F) && IsTail(s[2]) then 3 else 0
    else if s[0] == 0xF0 then
      if |s| >= 4 && InRange(s[1], 0x90, 0xBF) && IsTail(s[2]) && IsTail(s[3]) then 4 else 0
    else if InRange(s[0], 0xF1, 0xF3) then
      if |s| >= 4 && IsTail(s[1]) && IsTail(s[2]) && IsTail(s[3]) then 4 else 0
    else if s[0] == 0xF4 then
      if |s| >= 4 && InRange(s[1], 0x80, 0x8F) && IsTail(s[2]) && IsTail(s[3]) then 4 else 0
    else 0
  }

  /** UTF8-octets = *( UTF8-char ) */
  predicate Valid(s: seq<byte>)
    decreases |s|
  {
    s == [] || (CharLen(s) > 0 && Valid(s[CharLen(s)..]))
  }

  /** A Unicode scalar value: a code point that is not a surrogate. */
  predicate IsScalar(c: int) {
    0 <= c < 0xD800 || 0xE000 <= c <= 0x10FFFF
  }

  predicate AllScalar(cs: seq<int>) {
    forall i :: 0 <= i < |cs| ==> IsScalar(cs[i])
  }

  /** The encoding table of section 3 of RFC 3629, for one scalar value. */
  function EncodeScalar(c: int): (e: seq<byte>)
    requires IsScalar(c)
    ensures 1 <= |e| <= 4
  {
    if c < 0x80 then [c]
    else if c < 0x800 then [0xC0 + c / 0x40, 0x80 + c % 0x40]
    else if c < 0x10000 then [0xE0 + c / 0x1000, 0x80 + (c / 0x40) % 0x40, 0x80 + c % 0x40]
    else [0xF0 + c / 0x40000, 0x80 + (c / 0x1000) % 0x40, 0x80 + (c / 0x40) % 0x40, 0x80 + c % 0x40]
  }

  function Encode(cs: seq<int>): seq<byte>
    requires AllScalar(cs)
  {
    if cs == [] then [] else EncodeScalar(cs[0]) + Encode(cs[1..])
  }

  /** The code point carried by the UTF8-char that `s` starts with. */
  function DecodeChar(s: seq<byte>): int
    requires CharLen(s) > 0
  {
    var n := CharLen(s);
    var b0: int := s[0];
    if n == 1 then b0
    else if n == 2 then (b0 - 0xC0) * 0x40 + (s[1] as int - 0x80)
    else if n == 3 then (b0 - 0xE0) * 0x1000 + (s[1] as int - 0x80) * 0x40 + (s[2] as int - 0x80)
    else (b0 - 0xF0) * 0x40000 + (s[1] as int - 0x80) * 0x1000 + (s[2] as int - 0x80) * 0x40 + (s[3] as int - 0x80)
  }

  function Decode(s: seq<byte>): seq<int>
    requires Valid(s)
    decreases |s|
  {
    if s == [] then [] else [DecodeChar(s)] + Decode(s[CharLen(s)..])
  }

  lemma DivMod64(hi: int, lo: int)
    requires 0 <= lo < 0x40
    ensures (hi * 0x40 + lo) / 0x40 == hi && (hi * 0x40 + lo) % 0x40 == lo
  {
  }

  /** A well-formed UTF-8 char decodes to a scalar value that encodes back to the same bytes. */
  lemma DecodeCharRoundTrip(s: seq<byte>)
    requires CharLen(s) > 0
    ensures IsScalar(DecodeChar(s))
    ensures EncodeScalar(DecodeChar(s)) == s[..CharLen(s)]
  {
    var n := CharLen(s);
    if n == 2 {
      DecodeTwo(s);
    } else if n == 3 {
      DecodeThree(s);
    } else if n == 4 {
      DecodeFour(s);
    }
  }

  lemma DecodeTwo(s: seq<byte>)
    requires CharLen(s) == 2
    ensures IsScalar(DecodeChar(s)) && EncodeScalar(DecodeChar(s)) == s[..2]
  {
    var b0: int, b1: int := s[0], s[1];
    DivMod64(b0 - 0xC0, b1 - 0x80);
  }

  lemma DecodeThree(s: seq<byte>)
    requires CharLen(s) == 3
    ensures IsScalar(DecodeChar(s)) && EncodeScalar(DecodeChar(s)) == s[..3]
  {
    var b0: int, b1: int, b2: int := s[0], s[1], s[2];
    var c := DecodeChar(s);
    var q := (b0 - 0xE0) * 0x40 + (b1 - 0x80);
    assert c == q * 0x40 + (b2 - 0x80);
    DivMod64(q, b2 - 0x80);
    DivMod64(b0 - 0xE0, b1 - 0x80);
    assert c / 0x1000 == q / 0x40;
  }

  lemma DecodeFour(s: seq<byte>)
    requires CharLen(s) == 4
    ensures IsScalar(DecodeChar(s)) && EncodeScalar(DecodeChar(s)) == s[..4]
  {
    var b0: int, b1: int, b2: int, b3: int := s[0], s[1], s[2], s[3];
    var c := DecodeChar(s);
    var q1 := (b0 - 0xF0) * 0x40 + (b1 - 0x80);
    var q2 := q1 * 0x40 + (b2 - 0x80);
    assert c == q2 * 0x40 + (b3 - 0x80);
    DivMod64(q2, b3 - 0x80);
    DivMod64(q1, b2 - 0x80);
    DivMod64(b0 - 0xF0, b1 - 0x80);
    assert c / 0x1000 == q2 / 0x40;
    assert c / 0x40000 == q1 / 0x40;
  }

  /** The encoding of a scalar value is one well-formed UTF-8 char, whatever follows it. */
  lemma EncodeScalarRoundTrip(c: int, rest: seq<byte>)
    requires IsScalar(c)
    ensures CharLen(EncodeScalar(c) + rest) == |EncodeScalar(c)|
    ensures DecodeChar(EncodeScalar(c) + rest) == c
  {
    var e := EncodeScalar(c) + rest;
    if c < 0x80 {
    } else if c < 0x800 {
      assert c == (c / 0x40) * 0x40 + c % 0x40;
    } else if c < 0x10000 {
      var q := c / 0x40;
      assert c == q * 0x40 + c % 0x40;
      assert q == (q / 0x40) * 0x40 + q % 0x40;
      assert c / 0x1000 == q / 0x40;
    } else {
      var q1 := c / 0x40;
      var q2 := q1 / 0x40;
      assert c == q1 * 0x40 + c % 0x40;
      assert q1 == q2 * 0x40 + q1 % 0x40;
      assert q2 == (q2 / 0x40) * 0x40 + q2 % 0x40;
      assert c / 0x1000 == q2;
      assert c / 0x40000 == q2 / 0x40;
    }
  }

  /** Every sequence of scalar values encodes to well-formed UTF-8 that decodes back to it. */
  lemma {:induction false} EncodeThenDecode(cs: seq<int>)
    requires AllScalar(cs)
    ensures Valid(Encode(cs))
    ensures Decode(Encode(cs)) == cs
  {
    if cs != [] {
      var e := EncodeScalar(cs[0]);
      var rest := Encode(cs[1..]);
      EncodeScalarRoundTrip(cs[0], rest);
      DropAppend(e, rest);
      EncodeThenDecode(cs[1..]);
    }
  }

  /** Every well-formed UTF-8 sequence is the encoding of the scalar values it decodes to. */
  lemma {:induction false} DecodeThenEncode(s: seq<byte>)
    requires Valid(s)
    ensures AllScalar(Decode(s))
    ensures Encode(Decode(s)) == s
    decreases |s|
  {
    if s != [] {
      var n, c := CharLen(s), DecodeChar(s);
      var d := Decode(s[n..]);
      assert Decode(s) == [c] + d;
      DecodeCharRoundTrip(s);
      DecodeThenEncode(s[n..]);
      EncodeCons(c, d);
      calc {
        Encode(Decode(s));
        Encode([c] + d);
        EncodeScalar(c) + Encode(d);
        s[..n] + s[n..];
        { SplitAt(s, n); }
        s;
      }
    }
  }

  lemma EncodeCons(c: int, cs: seq<int>)
    requires IsScalar(c) && AllScalar(cs)
    ensures AllScalar([c] + cs)
    ensures Encode([c] + cs) == EncodeScalar(c) + Encode(cs)
  {
    var all := [c] + cs;
    DropAppend([c], cs);
    forall i | 0 <= i < |all|
      ensures IsScalar(all[i])
    {
      if i > 0 {
        assert all[i] == cs[i - 1];
      }
    }
  }

  /** Section 4's grammar accepts exactly the images of section 3's encoding. */
  lemma ValidIffEncoding(s: seq<byte>)
    ensures Valid(s) <==> exists cs :: AllScalar(cs) && Encode(cs) == s
  {
    if Valid(s) {
      DecodeThenEncode(s);
    }
    if cs :| AllScalar(cs) && Encode(cs) == s {
      EncodeThenDecode(cs);
    }
  }

  /** Bytes below 0x80 are well-formed UTF-8, one char each. */
  lemma {:induction false} AsciiIsValid(s: seq<byte>)
    requires forall i :: 0 <= i < |s| ==> s[i] < 0x80
    ensures Valid(s)
    decreases |s|
  {
    if s != [] {
      assert CharLen(s) == 1;
      AsciiIsValid(s[1..]);
    }
  }

  /** Inside a well-formed sequence, the byte after the first char starts the next char. */
  lemma NextCharStart(s: seq<byte>)
    requires Valid(s) && s != []
    ensures CharLen(s) > 0
    ensures CharLen(s) < |s| ==> !IsTail(s[CharLen(s)])
  {
    var n := CharLen(s);
    if n < |s| {
      assert s[n..][0] == s[n];
    }
  }
}
