/** Concrete runs of the reader, worked out by the verifier. */
module ReaderExamples {
  import opened Wrappers
  import opened Utf16
  import opened CodePointReader

  /** The text "abcdefghijk" as UTF-16 code units. */
  const Alphabet: seq<CodeUnit> :=
    [0x61, 0x62, 0x63, 0x64, 0x65, 0x66, 0x67, 0x68, 0x69, 0x6A, 0x6B]

  /**
    The unit test of src/reader.rs: after `reset("abcdefghijk", 0, 11, true)`
    the calls eat('a'), eat3('b','d','d'), eat3('b','c','d'), eat2('e','f'),
    eat('h'), eat('g'), eat2('h','i'), eat3('j','k','a') answer true, false,
    true, true, false, true, true, false.
   */
  lemma EatTest()
    ensures
      var r0 := Reset(New(), Alphabet, 0, 11, true);
      var e1 := Eat(r0, 'a' as int);
      var e2 := Eat3(e1.1, 'b' as int, 'd' as int, 'd' as int);
      var e3 := Eat3(e2.1, 'b' as int, 'c' as int, 'd' as int);
      var e4 := Eat2(e3.1, 'e' as int, 'f' as int);
      var e5 := Eat(e4.1, 'h' as int);
      var e6 := Eat(e5.1, 'g' as int);
      var e7 := Eat2(e6.1, 'h' as int, 'i' as int);
      var e8 := Eat3(e7.1, 'j' as int, 'k' as int, 'a' as int);
      [e1.0, e2.0, e3.0, e4.0, e5.0, e6.0, e7.0, e8.0] ==
        [true, false, true, true, false, true, true, false]
      && e8.1.index == 9
  {
    var r0 := Reset(New(), Alphabet, 0, 11, true);
    var e1 := Eat(r0, 'a' as int);
    EatA();
    assert e1 == (true, Test(1));
    var e2 := Eat3(e1.1, 'b' as int, 'd' as int, 'd' as int);
    EatBdd();
    assert e2 == (false, Test(1));
    var e3 := Eat3(e2.1, 'b' as int, 'c' as int, 'd' as int);
    EatBcd();
    assert e3 == (true, Test(4));
    var e4 := Eat2(e3.1, 'e' as int, 'f' as int);
    EatEf();
    assert e4 == (true, Test(6));
    var e5 := Eat(e4.1, 'h' as int);
    EatH();
    assert e5 == (false, Test(6));
    var e6 := Eat(e5.1, 'g' as int);
    EatG();
    assert e6 == (true, Test(7));
    var e7 := Eat2(e6.1, 'h' as int, 'i' as int);
    EatHi();
    assert e7 == (true, Test(9));
    var e8 := Eat3(e7.1, 'j' as int, 'k' as int, 'a' as int);
    EatJka();
    assert e8 == (false, Test(9));
  }

  /** The reader of the test, rewound to offset `i`. */
  function Test(i: nat): Reader
  {
    Rewind(Reset(New(), Alphabet, 0, 11, true), i)
  }

  // One lemma per call of the test, each from the state the previous call left.

  lemma EatA()
    ensures Eat(Reset(New(), Alphabet, 0, 11, true), 'a' as int) == (true, Test(1))
  {
    var r0 := Reset(New(), Alphabet, 0, 11, true);
    AlphabetWindow(r0, 0);
    Settle(r0, Eat(r0, 'a' as int).1);
  }

  lemma EatBdd()
    ensures Eat3(Test(1), 'b' as int, 'd' as int, 'd' as int) == (false, Test(1))
  {
    AlphabetWindow(Reset(New(), Alphabet, 0, 11, true), 1);
    assert Test(1).cp2 == Some(0x63);
  }

  lemma EatBcd()
    ensures Eat3(Test(1), 'b' as int, 'c' as int, 'd' as int) == (true, Test(4))
  {
    var r0 := Reset(New(), Alphabet, 0, 11, true);
    AlphabetWindow(r0, 1);
    RewindConsistent(r0, 1);
    Settle(r0, Eat3(Test(1), 'b' as int, 'c' as int, 'd' as int).1);
  }

  lemma EatEf()
    ensures Eat2(Test(4), 'e' as int, 'f' as int) == (true, Test(6))
  {
    var r0 := Reset(New(), Alphabet, 0, 11, true);
    AlphabetWindow(r0, 4);
    RewindConsistent(r0, 4);
    Settle(r0, Eat2(Test(4), 'e' as int, 'f' as int).1);
  }

  lemma EatH()
    ensures Eat(Test(6), 'h' as int) == (false, Test(6))
  {
    AlphabetWindow(Reset(New(), Alphabet, 0, 11, true), 6);
  }

  lemma EatG()
    ensures Eat(Test(6), 'g' as int) == (true, Test(7))
  {
    var r0 := Reset(New(), Alphabet, 0, 11, true);
    AlphabetWindow(r0, 6);
    RewindConsistent(r0, 6);
    Settle(r0, Eat(Test(6), 'g' as int).1);
  }

  lemma EatHi()
    ensures Eat2(Test(7), 'h' as int, 'i' as int) == (true, Test(9))
  {
    var r0 := Reset(New(), Alphabet, 0, 11, true);
    AlphabetWindow(r0, 7);
    RewindConsistent(r0, 7);
    Settle(r0, Eat2(Test(7), 'h' as int, 'i' as int).1);
  }

  lemma EatJka()
    ensures Eat3(Test(9), 'j' as int, 'k' as int, 'a' as int) == (false, Test(9))
  {
    AlphabetWindow(Reset(New(), Alphabet, 0, 11, true), 9);
  }

  /** A consistent reader over the alphabet is the rewind of the reset one to its cursor. */
  lemma Settle(r0: Reader, r: Reader)
    requires r0 == Reset(New(), Alphabet, 0, 11, true)
    requires Consistent(r) && r.src == Alphabet && r.end == 11 && r.unicode
    ensures r == Rewind(r0, r.index)
  {
  }

  /** The window over the alphabet: no surrogates, so every width is 1. */
  lemma AlphabetWindow(r0: Reader, i: nat)
    requires r0 == Reset(New(), Alphabet, 0, 11, true)
    requires i <= 9
    ensures Rewind(r0, i).w1 == 1 && Rewind(r0, i).w2 == 1 && Rewind(r0, i).w3 == 1
    ensures Rewind(r0, i).cp1 == Some(Alphabet[i])
    ensures Rewind(r0, i).cp2 == Some(Alphabet[i + 1])
    ensures Rewind(r0, i).cp3 == if i + 2 < 11 then Some(Alphabet[i + 2]) else None
  {
    assert !PairAt(Alphabet, i) && !PairAt(Alphabet, i + 1);
    if i + 2 < 11 {
      assert !PairAt(Alphabet, i + 2);
    }
  }

  /**
    In Unicode mode only the lead surrogate is compared with `end`: a pair
    that straddles the bound is still read whole, and `advance` then moves
    the cursor past `end`. In legacy mode the lead surrogate is read alone.
   */
  lemma PairAcrossEnd()
    ensures
      var r := Reset(New(), [0xD83D, 0xDE00], 0, 1, true);
      r.cp1 == Some(0x1_F600) && r.w1 == 2 && r.cp2 == None && Advance(r).index == 2
    ensures
      var r := Reset(New(), [0xD83D, 0xDE00], 0, 1, false);
      r.cp1 == Some(0xD83D) && r.w1 == 1 && r.cp2 == None && Advance(r).index == 1
  {
  }
}
