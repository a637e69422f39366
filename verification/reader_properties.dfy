/**
  Properties of the code-point reader that relate several operations: what
  the decoders return, what the window means, and what a whole scan of the
  text yields in each mode.
 */
module ReaderProperties {
  import opened Wrappers
  import opened Utf16
  import opened CodePointReader

  /**
    The decoders: nothing at or past `end` in either mode; otherwise the code
    unit itself in legacy mode, and in Unicode mode the code unit or, for a
    lead surrogate followed by a trail surrogate, the combined code point.
   */
  lemma AtSpec(u: bool, s: seq<CodeUnit>, end: nat, i: nat)
    ensures i >= end ==> At(u, s, end, i) == None
    ensures i < end && i < |s| && !u ==> At(u, s, end, i) == Some(s[i])
    ensures i < end && i < |s| && u ==>
      At(u, s, end, i) ==
        Some(if PairAt(s, i) then (s[i] as int - 0xD800) * 0x400 + (s[i + 1] as int - 0xDC00) + 0x1_0000 else s[i])
  {
  }

  /**
    Widths: always 1 in legacy mode; in Unicode mode 2 exactly for a code
    point above 0xFFFF, which is exactly when a surrogate pair starts at `i`.
   */
  lemma WidthSpec(u: bool, s: seq<CodeUnit>, end: nat, i: nat)
    ensures Width(u, At(u, s, end, i)) == 1 || Width(u, At(u, s, end, i)) == 2
    ensures !u ==> Width(u, At(u, s, end, i)) == 1
    ensures u && At(u, s, end, i).Some? ==>
      (Width(u, At(u, s, end, i)) == 2 <==> At(u, s, end, i).value > 0xFFFF)
    ensures u ==> (Width(u, At(u, s, end, i)) == 2 <==> i < end && PairAt(s, i))
  {
  }

  /**
    A decoded code point and its width account exactly for the code units it
    was read from: re-encoding it gives them back.
   */
  lemma AtUnits(u: bool, s: seq<CodeUnit>, end: nat, i: nat)
    requires At(u, s, end, i).Some?
    ensures i + Width(u, At(u, s, end, i)) <= |s|
    ensures s[i..i + Width(u, At(u, s, end, i))] ==
      if u then Encode(At(u, s, end, i).value) else [At(u, s, end, i).value]
  {
    EncodeDecode(s, i);
  }

  /** Rewinding depends only on the text, the bound and the mode. */
  lemma RewindIgnoresWindow(r1: Reader, r2: Reader, index: nat)
    requires r1.unicode == r2.unicode && r1.src == r2.src && r1.end == r2.end
    ensures Rewind(r1, index) == Rewind(r2, index)
  {
  }

  /**
    `reset` leaves nothing of the reader's previous state behind: two
    readers reset with the same arguments are equal.
   */
  lemma ResetForgets(r1: Reader, r2: Reader, source: seq<CodeUnit>, start: nat, end: nat, uFlag: bool)
    ensures Reset(r1, source, start, end, uFlag) == Reset(r2, source, start, end, uFlag)
  {
    RewindIgnoresWindow(r1.(unicode := uFlag, src := source, end := end),
                        r2.(unicode := uFlag, src := source, end := end), start);
  }

  /** Once there is no current code point, the whole window is empty. */
  lemma AbsentWindow(r: Reader)
    requires Consistent(r) && r.cp1.None?
    ensures r.cp2.None? && r.cp3.None? && r.cp4.None?
  {
    var u, s, e, i := r.unicode, r.src, r.end, r.index;
    assert r.w1 == 1 && r.cp2 == At(u, s, e, i + 1);
    assert r.w2 == 1 && r.cp3 == At(u, s, e, i + 2);
    assert r.w3 == 1 && r.cp4 == At(u, s, e, i + 3);
  }

  /**
    The window of a consistent reader holds the first four of the code
    points it still yields, and `None` in the slots past the last of them.
   */
  lemma {:induction false} WindowIsDrainPrefix(r: Reader)
    requires Consistent(r)
    ensures forall k :: 0 <= k < 4 ==>
      r.Slot(k) == if k < |Drain(r)| then Some(Drain(r)[k]) else None
    decreases if r.index < r.end then r.end - r.index else 0
  {
    if r.cp1.None? {
      AbsentWindow(r);
    } else {
      DrainStep(r);
      var a := Advance(r);
      AdvanceIsRewind(r);
      WindowIsDrainPrefix(a);
      assert a.cp3 == r.cp4;
      forall k | 1 <= k < 4
        ensures r.Slot(k) == if k < |Drain(r)| then Some(Drain(r)[k]) else None
      {
        assert r.Slot(k) == a.Slot(k - 1);
      }
    }
  }

  /**
    Legacy mode reads every code unit as one code point: scanning yields the
    code units from the cursor up to `end` (or to the end of the text).
   */
  lemma {:induction false} LegacyReadsUnits(r: Reader)
    requires Consistent(r) && !r.unicode
    requires r.index <= r.end && r.index <= |r.src|
    ensures Drain(r) == r.src[r.index..if r.end < |r.src| then r.end else |r.src|]
    decreases r.end - r.index
  {
    var stop := if r.end < |r.src| then r.end else |r.src|;
    if r.index == stop {
      assert r.cp1.None?;
    } else {
      var a := Advance(r);
      DrainStep(r);
      AdvanceIsRewind(r);
      assert r.cp1 == Some(r.src[r.index]) && r.w1 == 1;
      assert a.index == r.index + 1 && a.src == r.src && a.end == r.end && !a.unicode;
      LegacyReadsUnits(a);
      assert Drain(a) == r.src[r.index + 1..stop];
      assert r.src[r.index..stop] == [r.src[r.index]] + r.src[r.index + 1..stop];
    }
  }

  /** A code point encoded at offset `i` of a text is decoded from there. */
  lemma DecodeAtOffset(s: seq<CodeUnit>, end: nat, i: nat, c: CodePoint, rest: seq<CodeUnit>)
    requires i <= end <= |s| && IsScalar(c)
    requires s[i..end] == Encode(c) + rest
    ensures CodePointAt(s, i) == c
    ensures i + |Encode(c)| <= end
    ensures s[i + |Encode(c)|..end] == rest
  {
    var enc := Encode(c);
    assert s[i + |enc|..end] == rest by {
      assert s[i + |enc|..end] == s[i..end][|enc|..];
    }
    assert s[i..] == enc + (rest + s[end..]) by {
      assert s[i..] == s[i..end] + s[end..];
    }
    DecodeEncode(c, rest + s[end..]);
    CodePointAtSuffix(s, i);
  }

  /** The first code point of a UTF-16 encoding is decoded from its first units. */
  lemma DecodeFirst(s: seq<CodeUnit>, end: nat, i: nat, cps: seq<CodePoint>)
    requires i <= end <= |s| && |cps| > 0 && AllScalar(cps)
    requires s[i..end] == EncodeAll(cps)
    ensures At(true, s, end, i) == Some(cps[0])
    ensures Width(true, Some(cps[0])) == |Encode(cps[0])|
    ensures i + |Encode(cps[0])| <= end
    ensures s[i + |Encode(cps[0])|..end] == EncodeAll(cps[1..])
  {
    assert IsScalar(cps[0]);
    assert EncodeAll(cps) == Encode(cps[0]) + EncodeAll(cps[1..]);
    DecodeAtOffset(s, end, i, cps[0], EncodeAll(cps[1..]));
    assert UnicodeAt(s, end, i) == Some(cps[0]);
  }

  /**
    Unicode mode inverts UTF-16: when the units from the cursor to `end` are
    the encoding of a sequence of scalar values, scanning yields exactly
    those values. The bound may fall anywhere in a longer text.
   */
  lemma {:induction false} UnicodeReadsEncoding(r: Reader, cps: seq<CodePoint>)
    requires Consistent(r) && r.unicode
    requires r.index <= r.end <= |r.src|
    requires AllScalar(cps)
    requires r.src[r.index..r.end] == EncodeAll(cps)
    ensures Drain(r) == cps
    decreases |cps|
  {
    assert r.cp1 == At(true, r.src, r.end, r.index);
    if |cps| == 0 {
      assert r.cp1.None?;
    } else {
      var a := Advance(r);
      DecodeFirst(r.src, r.end, r.index, cps);
      assert r.cp1 == Some(cps[0]) && r.w1 == |Encode(cps[0])|;
      DrainStep(r);
      AdvanceIsRewind(r);
      assert a.index == r.index + |Encode(cps[0])| && a.src == r.src && a.end == r.end && a.unicode;
      assert AllScalar(cps[1..]) by {
        forall k | 0 <= k < |cps[1..]| ensures IsScalar(cps[1..][k]) {
          assert cps[1..][k] == cps[k + 1];
        }
      }
      UnicodeReadsEncoding(a, cps[1..]);
      assert Drain(r) == [cps[0]] + cps[1..];
    }
  }

  /** `reset` over a whole UTF-16 text in Unicode mode decodes it exactly. */
  lemma ResetDecodesUtf16(r: Reader, cps: seq<CodePoint>)
    requires AllScalar(cps)
    ensures Drain(Reset(r, EncodeAll(cps), 0, |EncodeAll(cps)|, true)) == cps
  {
    var units := EncodeAll(cps);
    assert units[0..|units|] == units;
    UnicodeReadsEncoding(Reset(r, units, 0, |units|, true), cps);
  }

  /**
    The mode flag only matters for surrogate pairs: over a text with no lead
    surrogate, a Unicode-mode window equals the legacy-mode one.
   */
  lemma ModesAgreeWithoutPairs(r: Reader, index: nat)
    requires forall k :: 0 <= k < |r.src| ==> !IsLead(r.src[k])
    ensures Rewind(r.(unicode := true), index) == Rewind(r.(unicode := false), index).(unicode := true)
  {
    forall i: nat
      ensures At(true, r.src, r.end, i) == At(false, r.src, r.end, i)
    {
      if i < r.end && i < |r.src| {
        assert !PairAt(r.src, i);
      }
    }
  }

  /** `eat2(a, b)` succeeds exactly when `eat(a)` then `eat(b)` do, ending in the same state. */
  lemma Eat2IsTwoEats(r: Reader, a: CodePoint, b: CodePoint)
    ensures Eat2(r, a, b).0 <==> Eat(r, a).0 && Eat(Eat(r, a).1, b).0
    ensures Eat2(r, a, b).0 ==> Eat2(r, a, b).1 == Eat(Eat(r, a).1, b).1
  {
  }

  /** `eat3(a, b, c)` succeeds exactly when `eat2(a, b)` then `eat(c)` do, ending in the same state. */
  lemma Eat3IsEat2ThenEat(r: Reader, a: CodePoint, b: CodePoint, c: CodePoint)
    ensures Eat3(r, a, b, c).0 <==> Eat2(r, a, b).0 && Eat(Eat2(r, a, b).1, c).0
    ensures Eat3(r, a, b, c).0 ==> Eat3(r, a, b, c).1 == Eat(Eat2(r, a, b).1, c).1
  {
  }
}
