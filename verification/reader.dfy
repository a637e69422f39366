/**
  The code-point lookahead reader of the regular-expression validator
  (src/reader.rs). It scans a text of UTF-16 code units from a cursor up to
  an exclusive `end` bound and keeps a window of the next four code points,
  with the widths, in code units, of the first three.

  In legacy mode every code unit is its own code point. In Unicode mode a
  lead surrogate followed by a trail surrogate is read as one code point of
  width 2. "No code point" (the source's -1 sentinel) is `None`.
 */
module CodePointReader {
  import opened Wrappers
  import opened Utf16

  // ---------------------------------------------------------------------
  // The two decoders (`legacyImpl` and `unicodeImpl`)
  // ---------------------------------------------------------------------

  /** `legacyImpl.at`: the code unit at `i`, or `None` at or past `end`. */
  function LegacyAt(s: seq<CodeUnit>, end: nat, i: nat): Option<CodePoint>
  {
    if i < end && i < |s| then Some(s[i]) else None
  }

  /** `legacyImpl.width`: every code point is one code unit wide. */
  function LegacyWidth(c: Option<CodePoint>): nat
  {
    1
  }

  /**
    `unicodeImpl.at`: `codePointAt(i)`, or `None` at or past `end`. Only `i`
    is compared with `end`: the trail surrogate may sit at or past `end`.
   */
  function UnicodeAt(s: seq<CodeUnit>, end: nat, i: nat): Option<CodePoint>
  {
    if i < end && i < |s| then Some(CodePointAt(s, i)) else None
  }

  /** `unicodeImpl.width`: two code units for a supplementary code point. */
  function UnicodeWidth(c: Option<CodePoint>): nat
  {
    if c.Some? && c.value > 0xFFFF then 2 else 1
  }

  /**
    The decoder selected by the mode flag. A code point is found exactly
    before `end` (and inside the text). Legacy mode returns the code unit;
    Unicode mode returns a value above 0xFFFF exactly at a surrogate pair,
    and the code unit elsewhere.
   */
  function At(unicode: bool, s: seq<CodeUnit>, end: nat, i: nat): (c: Option<CodePoint>)
    ensures c.Some? <==> i < end && i < |s|
    ensures c.Some? && !unicode ==> c.value == s[i]
    ensures c.Some? && unicode ==> (c.value > 0xFFFF <==> PairAt(s, i))
    ensures c.Some? && c.value <= 0xFFFF ==> c.value == s[i]
  {
    if unicode then UnicodeAt(s, end, i) else LegacyAt(s, end, i)
  }

  /**
    The width function selected by the mode flag: one code unit, except
    two for a supplementary code point in Unicode mode.
   */
  function Width(unicode: bool, c: Option<CodePoint>): (w: nat)
    ensures w == 1 || w == 2
    ensures !unicode ==> w == 1
    ensures w == 2 <==> unicode && c.Some? && c.value > 0xFFFF
  {
    if unicode then UnicodeWidth(c) else LegacyWidth(c)
  }

  /** The code-unit offset just past the code point read at `i`. */
  function Next(unicode: bool, s: seq<CodeUnit>, end: nat, i: nat): nat
  {
    i + Width(unicode, At(unicode, s, end, i))
  }

  /** The code-unit offset reached from `i` by stepping over `k` code points. */
  function Skip(unicode: bool, s: seq<CodeUnit>, end: nat, i: nat, k: nat): nat
    decreases k
  {
    if k == 0 then i else Skip(unicode, s, end, Next(unicode, s, end, i), k - 1)
  }

  /** The code point `k` positions after offset `i`. */
  function Lookahead(unicode: bool, s: seq<CodeUnit>, end: nat, i: nat, k: nat): Option<CodePoint>
  {
    At(unicode, s, end, Skip(unicode, s, end, i, k))
  }

  // ---------------------------------------------------------------------
  // The reader state
  // ---------------------------------------------------------------------

  datatype Reader = Reader(
    unicode: bool,
    src: seq<CodeUnit>,
    index: nat,
    end: nat,
    cp1: Option<CodePoint>,
    w1: nat,
    cp2: Option<CodePoint>,
    w2: nat,
    cp3: Option<CodePoint>,
    w3: nat,
    cp4: Option<CodePoint>)
  {
    /** Slot `k` of the window; slot 0 is the current code point. */
    function Slot(k: nat): Option<CodePoint>
      requires k < 4
    {
      if k == 0 then cp1 else if k == 1 then cp2 else if k == 2 then cp3 else cp4
    }
  }

  /**
    `rewind(index)`: move the cursor to `index` and rebuild the whole window
    from the text. Slot `k` holds the code point `k` positions after `index`.
   */
  function Rewind(r: Reader, index: nat): (r': Reader)
    ensures r'.unicode == r.unicode && r'.src == r.src && r'.end == r.end
    ensures r'.index == index
  {
    var cp1 := At(r.unicode, r.src, r.end, index);
    var w1 := Width(r.unicode, cp1);
    var cp2 := At(r.unicode, r.src, r.end, index + w1);
    var w2 := Width(r.unicode, cp2);
    var cp3 := At(r.unicode, r.src, r.end, index + w1 + w2);
    var w3 := Width(r.unicode, cp3);
    var cp4 := At(r.unicode, r.src, r.end, index + w1 + w2 + w3);
    r.(index := index, cp1 := cp1, w1 := w1, cp2 := cp2, w2 := w2, cp3 := cp3, w3 := w3, cp4 := cp4)
  }

  /**
    The window invariant: each slot holds the code point found one width
    past the previous slot, starting at the cursor.
   */
  ghost predicate Consistent(r: Reader)
  {
    && r.cp1 == At(r.unicode, r.src, r.end, r.index)
    && r.w1 == Width(r.unicode, r.cp1)
    && r.cp2 == At(r.unicode, r.src, r.end, r.index + r.w1)
    && r.w2 == Width(r.unicode, r.cp2)
    && r.cp3 == At(r.unicode, r.src, r.end, r.index + r.w1 + r.w2)
    && r.w3 == Width(r.unicode, r.cp3)
    && r.cp4 == At(r.unicode, r.src, r.end, r.index + r.w1 + r.w2 + r.w3)
  }

  /** A reader is consistent exactly when rewinding to its cursor would change nothing. */
  lemma ConsistentIsRewindFixpoint(r: Reader)
    ensures Consistent(r) <==> r == Rewind(r, r.index)
  {
  }

  /** Rewinding always leaves a consistent reader. */
  lemma RewindConsistent(r: Reader, index: nat)
    ensures Consistent(Rewind(r, index))
  {
  }

  /**
    The window `rewind(index)` builds: slot `k` holds the code point `k`
    positions after `index`, and each width is that of its slot.
   */
  lemma RewindWindow(r: Reader, index: nat)
    ensures forall k :: 0 <= k < 4 ==>
      Rewind(r, index).Slot(k) == Lookahead(r.unicode, r.src, r.end, index, k)
    ensures Rewind(r, index).w1 == Width(r.unicode, Rewind(r, index).cp1)
    ensures Rewind(r, index).w2 == Width(r.unicode, Rewind(r, index).cp2)
    ensures Rewind(r, index).w3 == Width(r.unicode, Rewind(r, index).cp3)
  {
    var u, s, e := r.unicode, r.src, r.end;
    var q := Rewind(r, index);
    assert Skip(u, s, e, index, 1) == index + q.w1;
    assert Skip(u, s, e, index, 2) == index + q.w1 + q.w2 by {
      assert Skip(u, s, e, index, 2) == Skip(u, s, e, index + q.w1, 1);
    }
    assert Skip(u, s, e, index, 3) == index + q.w1 + q.w2 + q.w3 by {
      assert Skip(u, s, e, index, 3) == Skip(u, s, e, index + q.w1, 2);
      assert Skip(u, s, e, index + q.w1, 2) == Skip(u, s, e, index + q.w1 + q.w2, 1);
    }
  }

  /** `Reader::new`: an empty legacy-mode reader over the empty text. */
  function New(): (r: Reader)
    ensures Consistent(r)
    ensures r.src == [] && r.index == 0 && r.end == 0 && !r.unicode
    ensures forall k :: 0 <= k < 4 ==> r.Slot(k) == None
  {
    Reader(false, [], 0, 0, None, 1, None, 1, None, 1, None)
  }

  /**
    `reset(source, start, end, uFlag)`: select the decoder, bind the text
    and the bound, then rewind to `start`.
   */
  function Reset(r: Reader, source: seq<CodeUnit>, start: nat, end: nat, uFlag: bool): (r': Reader)
    ensures r'.unicode == uFlag && r'.src == source && r'.end == end && r'.index == start
    ensures Consistent(r')
    ensures forall k :: 0 <= k < 4 ==> r'.Slot(k) == Lookahead(uFlag, source, end, start, k)
  {
    var bound := r.(unicode := uFlag, src := source, end := end);
    RewindConsistent(bound, start);
    RewindWindow(bound, start);
    Rewind(bound, start)
  }

  /**
    `advance()`: step over the current code point and slide the window,
    decoding one new code point at its far end. Nothing changes when there
    is no current code point.
   */
  function Advance(r: Reader): (r': Reader)
    ensures r.cp1.None? ==> r' == r
    ensures r'.src == r.src && r'.end == r.end && r'.unicode == r.unicode
    ensures r.cp1.Some? ==> r'.index == r.index + r.w1 && r'.cp1 == r.cp2
  {
    if r.cp1.None? then r
    else
      var index := r.index + r.w1;
      var w2 := Width(r.unicode, r.cp3);
      var w3 := Width(r.unicode, r.cp4);
      r.(index := index,
         cp1 := r.cp2, w1 := r.w2,
         cp2 := r.cp3, w2 := w2,
         cp3 := r.cp4, w3 := w3,
         cp4 := At(r.unicode, r.src, r.end, index + r.w2 + w2 + w3))
  }

  /**
    The window-consistency invariant: from a consistent reader with a
    current code point, `advance()` moves the cursor by that code point's
    width (1 or 2 code units, never past the text) and leaves exactly the
    window that `rewind` to the new cursor would rebuild from scratch.
   */
  lemma AdvanceIsRewind(r: Reader)
    requires Consistent(r) && r.cp1.Some?
    ensures r.index < r.end
    ensures r.w1 == 1 || r.w1 == 2
    ensures Advance(r).index == r.index + r.w1 <= |r.src|
    ensures Advance(r) == Rewind(r, r.index + r.w1)
    ensures Consistent(Advance(r))
  {
    var u, s, e, i := r.unicode, r.src, r.end, r.index;
    assert r.w1 == 2 ==> PairAt(s, i);
    var j := i + r.w1;
    var a := Advance(r);
    var q := Rewind(r, j);
    assert a.index == q.index == j;
    assert a.cp1 == q.cp1 && a.w1 == q.w1;
    assert a.cp2 == q.cp2 && a.w2 == q.w2;
    assert a.cp3 == q.cp3 && a.w3 == q.w3;
    assert a.cp4 == q.cp4 by {
      assert a.cp4 == At(u, s, e, j + r.w2 + r.w3 + Width(u, r.cp4));
    }
    RewindConsistent(r, j);
  }

  /**
    Every code point a consistent reader still yields: the current one, then
    those after repeated `advance` calls, until none is left. There are never
    more of them than code units before `end`.
   */
  function Drain(r: Reader): (cps: seq<CodePoint>)
    requires Consistent(r)
    ensures |cps| <= if r.index < r.end then r.end - r.index else 0
    decreases if r.index < r.end then r.end - r.index else 0
  {
    if r.cp1.None? then []
    else
      AdvanceIsRewind(r);
      [r.cp1.value] + Drain(Advance(r))
  }

  /** One step of `Drain`: the current code point, then the rest after `advance()`. */
  lemma DrainStep(r: Reader)
    requires Consistent(r) && r.cp1.Some?
    ensures Consistent(Advance(r))
    ensures Advance(r).index == r.index + r.w1
    ensures Advance(r).cp1 == r.cp2 && Advance(r).cp2 == r.cp3
    ensures Advance(r).w1 == r.w2 && Advance(r).w2 == r.w3
    ensures Drain(r) == [r.cp1.value] + Drain(Advance(r))
  {
    AdvanceIsRewind(r);
  }

  /** One `advance()` step over a present code point, as `Drain` sees it. */
  lemma AdvanceOnce(r: Reader)
    ensures Consistent(r) && r.cp1.Some? ==>
      && Consistent(Advance(r))
      && Advance(r).index == r.index + r.w1
      && Drain(r) == [r.cp1.value] + Drain(Advance(r))
  {
    if Consistent(r) && r.cp1.Some? {
      DrainStep(r);
    }
  }

  /** Two `advance()` steps over present code points, as `Drain` sees them. */
  lemma AdvanceTwice(r: Reader)
    ensures Consistent(r) && r.cp1.Some? && r.cp2.Some? ==>
      && Consistent(Advance(Advance(r)))
      && Advance(Advance(r)).index == r.index + r.w1 + r.w2
      && Advance(Advance(r)).cp1 == r.cp3
      && Advance(Advance(r)).w1 == r.w3
      && Drain(r) == [r.cp1.value, r.cp2.value] + Drain(Advance(Advance(r)))
  {
    if Consistent(r) && r.cp1.Some? && r.cp2.Some? {
      var r1 := Advance(r);
      DrainStep(r);
      DrainStep(r1);
      var v1, v2 := r.cp1.value, r.cp2.value;
      var rest := Drain(Advance(r1));
      assert Drain(r) == [v1] + ([v2] + rest);
      assert [v1] + ([v2] + rest) == [v1, v2] + rest;
    }
  }

  /** Three `advance()` steps over present code points consume exactly those three. */
  lemma AdvanceThrice(r: Reader)
    ensures Consistent(r) && r.cp1.Some? && r.cp2.Some? && r.cp3.Some? ==>
      && Consistent(Advance(Advance(Advance(r))))
      && Advance(Advance(Advance(r))).index == r.index + r.w1 + r.w2 + r.w3
      && Drain(r) == [r.cp1.value, r.cp2.value, r.cp3.value] + Drain(Advance(Advance(Advance(r))))
  {
    if Consistent(r) && r.cp1.Some? && r.cp2.Some? && r.cp3.Some? {
      var r2 := Advance(Advance(r));
      var r3 := Advance(r2);
      AdvanceTwice(r);
      AdvanceOnce(r2);
      var v1, v2, v3 := r.cp1.value, r.cp2.value, r.cp3.value;
      var rest := Drain(r3);
      assert Drain(r2) == [v3] + rest;
      assert Drain(r) == [v1, v2] + ([v3] + rest);
      assert [v1, v2] + ([v3] + rest) == [v1, v2, v3] + rest;
    }
  }

  /** `eat(cp)`: consume the current code point if it is `cp`. */
  function Eat(r: Reader, cp: CodePoint): (res: (bool, Reader))
    ensures res.0 <==> r.cp1 == Some(cp)
    ensures res.1.src == r.src && res.1.end == r.end && res.1.unicode == r.unicode
    ensures !res.0 ==> res.1 == r
    ensures res.0 && Consistent(r) ==>
      && Consistent(res.1)
      && res.1.index == r.index + r.w1
      && Drain(r) == [cp] + Drain(res.1)
  {
    if r.cp1 == Some(cp) then
      AdvanceOnce(r);
      (true, Advance(r))
    else
      (false, r)
  }

  /** `eat2(cp1, cp2)`: consume the next two code points if they are `a`, `b`. */
  function Eat2(r: Reader, a: CodePoint, b: CodePoint): (res: (bool, Reader))
    ensures res.0 <==> r.cp1 == Some(a) && r.cp2 == Some(b)
    ensures res.1.src == r.src && res.1.end == r.end && res.1.unicode == r.unicode
    ensures !res.0 ==> res.1 == r
    ensures res.0 && Consistent(r) ==>
      && Consistent(res.1)
      && res.1.index == r.index + r.w1 + r.w2
      && Drain(r) == [a, b] + Drain(res.1)
  {
    if r.cp1 == Some(a) && r.cp2 == Some(b) then
      AdvanceTwice(r);
      (true, Advance(Advance(r)))
    else
      (false, r)
  }

  /** `eat3(cp1, cp2, cp3)`: consume the next three code points if they are `a`, `b`, `c`. */
  function Eat3(r: Reader, a: CodePoint, b: CodePoint, c: CodePoint): (res: (bool, Reader))
    ensures res.0 <==> r.cp1 == Some(a) && r.cp2 == Some(b) && r.cp3 == Some(c)
    ensures res.1.src == r.src && res.1.end == r.end && res.1.unicode == r.unicode
    ensures !res.0 ==> res.1 == r
    ensures res.0 && Consistent(r) ==>
      && Consistent(res.1)
      && res.1.index == r.index + r.w1 + r.w2 + r.w3
      && Drain(r) == [a, b, c] + Drain(res.1)
  {
    if r.cp1 == Some(a) && r.cp2 == Some(b) && r.cp3 == Some(c) then
      AdvanceThrice(r);
      (true, Advance(Advance(Advance(r))))
    else
      (false, r)
  }
}
