/**
  UTF-16 code units and code points, and the two conversions between them
  that the reader relies on: `CodePointAt` (the decoding performed by
  `String.prototype.codePointAt`, section 21.1.3.3 of ECMA-262 2015) and
  `Encode` (the UTF-16 encoding of one code point, its inverse).
 */
module Utf16 {

  /** A 16-bit code unit, as returned by `charCodeAt`. */
  type CodeUnit = u: int | 0 <= u < 0x1_0000

  /** A Unicode code point, including lone surrogates. */
  type CodePoint = c: int | 0 <= c < 0x11_0000

  predicate IsLead(u: int) { 0xD800 <= u <= 0xDBFF }

  predicate IsTrail(u: int) { 0xDC00 <= u <= 0xDFFF }

  predicate IsSurrogate(c: int) { 0xD800 <= c <= 0xDFFF }

  /** A code point that is not a surrogate: one that UTF-16 can encode. */
  predicate IsScalar(c: CodePoint) { !IsSurrogate(c) }

  predicate AllScalar(cps: seq<CodePoint>) {
    forall k :: 0 <= k < |cps| ==> IsScalar(cps[k])
  }

  /** True when a lead surrogate at `i` is followed by a trail surrogate. */
  predicate PairAt(s: seq<CodeUnit>, i: nat) {
    i + 1 < |s| && IsLead(s[i]) && IsTrail(s[i + 1])
  }

  /** The supplementary code point that a surrogate pair stands for. */
  function Combine(lead: CodeUnit, trail: CodeUnit): (c: CodePoint)
    requires IsLead(lead) && IsTrail(trail)
    ensures 0x1_0000 <= c
  {
    (lead - 0xD800) * 0x400 + (trail - 0xDC00) + 0x1_0000
  }

  /**
    `s.codePointAt(i)`: the code unit at `i`, unless it starts a surrogate
    pair, in which case the combined code point. The pair may extend to
    any index of `s`; there is no other bound.
   */
  function CodePointAt(s: seq<CodeUnit>, i: nat): (c: CodePoint)
    requires i < |s|
    ensures c > 0xFFFF <==> PairAt(s, i)
    ensures c <= 0xFFFF ==> c == s[i]
  {
    if PairAt(s, i) then Combine(s[i], s[i + 1]) else s[i]
  }

  /** The UTF-16 encoding of one code point: one unit, or a surrogate pair. */
  function Encode(c: CodePoint): (units: seq<CodeUnit>)
    ensures |units| == if c > 0xFFFF then 2 else 1
    ensures c > 0xFFFF ==> IsLead(units[0]) && IsTrail(units[1])
    ensures c <= 0xFFFF ==> units[0] == c
  {
    if c <= 0xFFFF then [c]
    else [0xD800 + (c - 0x1_0000) / 0x400, 0xDC00 + (c - 0x1_0000) % 0x400]
  }

  /** The UTF-16 encoding of a sequence of code points. */
  function EncodeAll(cps: seq<CodePoint>): (units: seq<CodeUnit>)
    ensures |units| >= |cps|
  {
    if |cps| == 0 then [] else Encode(cps[0]) + EncodeAll(cps[1..])
  }

  /** Decoding the encoding of a scalar value yields it again, whatever follows. */
  lemma DecodeEncode(c: CodePoint, rest: seq<CodeUnit>)
    requires IsScalar(c)
    ensures CodePointAt(Encode(c) + rest, 0) == c
  {
    var s := Encode(c) + rest;
    if c > 0xFFFF {
      var v: int := c - 0x1_0000;
      assert s[0] == 0xD800 + v / 0x400 && s[1] == 0xDC00 + v % 0x400;
      assert PairAt(s, 0);
    } else {
      assert !PairAt(s, 0);
    }
  }

  /** Re-encoding a decoded code point gives back exactly the units it was read from. */
  lemma EncodeDecode(s: seq<CodeUnit>, i: nat)
    requires i < |s|
    ensures PairAt(s, i) ==> Encode(CodePointAt(s, i)) == s[i..i + 2]
    ensures !PairAt(s, i) ==> Encode(CodePointAt(s, i)) == s[i..i + 1]
  {
    if PairAt(s, i) {
      var hi: int := s[i] - 0xD800;
      var lo: int := s[i + 1] - 0xDC00;
      var v: int := CodePointAt(s, i) - 0x1_0000;
      assert v == hi * 0x400 + lo;
      assert v / 0x400 == hi && v % 0x400 == lo;
    }
  }

  /** `codePointAt` only looks at the units from `i` on. */
  lemma CodePointAtSuffix(s: seq<CodeUnit>, i: nat)
    requires i < |s|
    ensures CodePointAt(s, i) == CodePointAt(s[i..], 0)
  {
    assert PairAt(s, i) <==> PairAt(s[i..], 0);
  }
}
