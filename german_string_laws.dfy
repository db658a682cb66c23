/** What german_string_cmp and german_string_eq promise about the strings they
    compare, and the assertions of the source's own tests (strings.c:116-168,
    test.c:59-70) stated for all values they cover. */
module GermanStringLaws {
  import opened Memory
  import opened StrView
  import opened GermanStrings

  /** The cached prefix is the first four bytes of the string, zero-padded:
      this is what lets eq_hash reject unequal strings. */
  lemma PrefixCachesContentHead(g: GermanString)
    requires Valid(g)
    ensures PrefixBytes(g) == (Content(g) + [0, 0, 0, 0])[..PrefixLen]
  {
    var padded := Content(g) + [0, 0, 0, 0];
    forall i | 0 <= i < PrefixLen
      ensures PrefixBytes(g)[i] == padded[i]
    {
      if g.Short? && i >= g.size {
        assert g.inline[i] == 0;
      }
    }
  }

  /** Values holding the same string have the same eq_hash. */
  lemma SameContentSameEqHash(a: GermanString, b: GermanString)
    requires Valid(a) && Valid(b)
    requires Content(a) == Content(b)
    ensures EqHash(a) == EqHash(b)
  {
    PrefixCachesContentHead(a);
    PrefixCachesContentHead(b);
  }

  /** german_string_eq holds exactly when the two values hold the same string. */
  lemma EqIffSameContent(a: GermanString, b: GermanString)
    requires Valid(a) && Valid(b)
    ensures Eq(a, b) <==> Content(a) == Content(b)
  {
    if Content(a) == Content(b) {
      SameContentSameEqHash(a, b);
    }
    if a.Long? && b.Long? {
      assert a.data[..] == a.data[..][..a.size];
      assert b.data[..] == b.data[..][..b.size];
    }
  }

  lemma EqReflexive(a: GermanString)
    requires Valid(a)
    ensures Eq(a, a)
  {
    EqIffSameContent(a, a);
  }

  lemma EqSymmetric(a: GermanString, b: GermanString)
    requires Valid(a) && Valid(b)
    ensures Eq(a, b) == Eq(b, a)
  {
    EqIffSameContent(a, b);
    EqIffSameContent(b, a);
  }

  lemma CmpReflexive(a: GermanString)
    requires Valid(a)
    ensures Cmp(a, a) == 0
  {
    ContentOrderReflexive(Buffer(a), a.size);
  }

  /** Ordering and equality agree: german_string_cmp is zero exactly when
      german_string_eq holds. */
  lemma CmpZeroIffEq(a: GermanString, b: GermanString)
    requires Valid(a) && Valid(b)
    ensures Cmp(a, b) == 0 <==> Eq(a, b)
  {
    EqIffSameContent(a, b);
    if PrefixWord(a) == PrefixWord(b) {
      var m := Min(a.size, b.size);
      ContentOrderZero(Buffer(a), a.size, Buffer(b), b.size);
      if Cmp(a, b) == 0 {
        assert a.size == b.size;
        assert Buffer(a)[..m] == Content(a);
      }
      if Content(a) == Content(b) {
        assert Buffer(a)[..m] == Buffer(b)[..m];
      }
    } else if Content(a) == Content(b) {
      SameContentSameEqHash(a, b);
    }
  }

  /** Swapping the operands negates german_string_cmp, unless the prefix words
      or the sizes differ by exactly 2^31. */
  lemma CmpAntisymmetric(a: GermanString, b: GermanString)
    requires Valid(a) && Valid(b)
    requires (PrefixWord(a) - PrefixWord(b)) % TwoTo32 != TwoTo31
    requires (a.size - b.size) % TwoTo32 != TwoTo31
    ensures Cmp(b, a) == -Cmp(a, b)
  {
    if PrefixWord(a) != PrefixWord(b) {
      Int32Negate(PrefixWord(a) - PrefixWord(b));
      assert -(PrefixWord(a) - PrefixWord(b)) == PrefixWord(b) - PrefixWord(a);
    } else {
      ContentOrderAntisymmetric(Buffer(a), a.size, Buffer(b), b.size);
    }
  }

  /** When the prefix words differ, german_string_cmp reads nothing but them:
      any two values with the same prefix words compare the same way. */
  lemma CmpDecidedByPrefixWords(a: GermanString, b: GermanString, a': GermanString, b': GermanString)
    requires Valid(a) && Valid(b) && Valid(a') && Valid(b')
    requires PrefixWord(a) != PrefixWord(b)
    requires PrefixWord(a') == PrefixWord(a) && PrefixWord(b') == PrefixWord(b)
    ensures Cmp(a, b) == Cmp(a', b')
  {
  }

  /** Prefix words below 2^31 (as for ASCII strings) are ordered as unsigned
      numbers by the prefix step. */
  lemma CmpOrdersSmallPrefixWords(a: GermanString, b: GermanString)
    requires Valid(a) && Valid(b)
    requires PrefixWord(a) != PrefixWord(b)
    requires PrefixWord(a) < TwoTo31 && PrefixWord(b) < TwoTo31
    ensures Cmp(a, b) < 0 <==> PrefixWord(a) < PrefixWord(b)
  {
    Int32Small(PrefixWord(a) - PrefixWord(b));
  }

  /** When the prefix words differ by exactly 2^31 both orders compare below:
      antisymmetry fails there. */
  lemma CmpPrefixWrapBreaksAntisymmetry(a: GermanString, b: GermanString)
    requires Valid(a) && Valid(b)
    requires PrefixWord(a) - PrefixWord(b) == TwoTo31
    ensures Cmp(a, b) == -TwoTo31 && Cmp(b, a) == -TwoTo31
  {
    Int32MinimumIsItsOwnNegation();
  }

  /** The 4-byte strings 00 00 00 80 and 00 00 00 00 are such a pair. */
  lemma CmpAntisymmetryCounterexample()
    ensures Cmp(Short(4, [0, 0, 0, 128, 0, 0, 0, 0, 0, 0, 0, 0]),
                Short(4, [0, 0, 0, 0, 0, 0, 0, 0, 0, 0, 0, 0])) < 0
    ensures Cmp(Short(4, [0, 0, 0, 0, 0, 0, 0, 0, 0, 0, 0, 0]),
                Short(4, [0, 0, 0, 128, 0, 0, 0, 0, 0, 0, 0, 0])) < 0
  {
    var a := Short(4, [0, 0, 0, 128, 0, 0, 0, 0, 0, 0, 0, 0]);
    var b := Short(4, [0, 0, 0, 0, 0, 0, 0, 0, 0, 0, 0, 0]);
    assert PrefixBytes(a) == [0, 0, 0, 128];
    assert PrefixBytes(b) == [0, 0, 0, 0];
    CmpPrefixWrapBreaksAntisymmetry(a, b);
  }

  /** The size tie-break breaks antisymmetry the same way: when one string
      begins another that is 2^31 bytes longer (prefix words equal), each
      compares below the other. */
  lemma CmpSizeWrapBreaksAntisymmetry(a: GermanString, b: GermanString)
    requires Valid(a) && Valid(b)
    requires PrefixWord(a) == PrefixWord(b)
    requires b.size - a.size == TwoTo31
    requires Content(a) == Content(b)[..a.size]
    ensures Cmp(a, b) == -TwoTo31 && Cmp(b, a) == -TwoTo31
  {
    Int32MinimumIsItsOwnNegation();
    assert Buffer(a)[..a.size] == Buffer(b)[..a.size];
  }

  /** With equal prefix words german_string_cmp is the reference byte-wise
      lexicographic order, shorter first, while the sizes differ by less
      than 2^31. */
  lemma CmpLexicographicOnEqualPrefix(a: GermanString, b: GermanString)
    requires Valid(a) && Valid(b)
    requires PrefixWord(a) == PrefixWord(b)
    requires -TwoTo31 < a.size - b.size < TwoTo31
    ensures Cmp(a, b) < 0 <==> LexLess(Content(a), Content(b))
    ensures Cmp(a, b) == 0 <==> Content(a) == Content(b)
    ensures Cmp(a, b) > 0 <==> LexLess(Content(b), Content(a))
  {
    ContentOrderLexicographic(Buffer(a), a.size, Buffer(b), b.size);
  }

  /** The prefix step is not lexicographic: "ba" sorts after "ab" byte-wise,
      but its little-endian prefix word 0x00006162 is below 0x00006261. */
  lemma CmpIsNotLexicographic()
    ensures LexLess([97, 98], [98, 97])
    ensures Cmp(Short(2, [98, 97, 0, 0, 0, 0, 0, 0, 0, 0, 0, 0]),
                Short(2, [97, 98, 0, 0, 0, 0, 0, 0, 0, 0, 0, 0])) < 0
  {
    var ba := Short(2, [98, 97, 0, 0, 0, 0, 0, 0, 0, 0, 0, 0]);
    var ab := Short(2, [97, 98, 0, 0, 0, 0, 0, 0, 0, 0, 0, 0]);
    assert PrefixBytes(ba) == [98, 97, 0, 0];
    assert PrefixBytes(ab) == [97, 98, 0, 0];
    LexLessAt([97, 98], [98, 97], 0);
  }

  /** With equal prefix words german_string_cmp is str_cmp on the two views. */
  lemma CmpAgreesWithStrCmp(a: GermanString, b: GermanString)
    requires Valid(a) && Valid(b)
    requires PrefixWord(a) == PrefixWord(b)
    ensures Cmp(a, b) == StrCmp(ToSlice(a), ToSlice(b))
  {
  }

  /** german_string_eq is the corrected str_eq on the two views. */
  lemma EqAgreesWithStrEqIntended(a: GermanString, b: GermanString)
    requires Valid(a) && Valid(b)
    ensures Eq(a, b) == StrEqIntended(ToSlice(a), ToSlice(b))
  {
    EqIffSameContent(a, b);
  }

  /** The all-zero value a failed allocation returns equals every empty
      string: it cannot be told apart from a successful empty one. */
  lemma FailedAllocationLooksEmpty(e: GermanString)
    requires Valid(e)
    ensures Eq(Zero(), e) <==> e.size == 0
  {
    EqIffSameContent(Zero(), e);
  }

  /** Every byte of the string is below 128, as for the test's charset. */
  ghost predicate Ascii(g: GermanString)
    requires Valid(g)
    reads Footprint(g)
  {
    forall i | 0 <= i < g.size :: Content(g)[i] < 128
  }

  lemma AsciiPrefixWordBelowSignBit(g: GermanString)
    requires Valid(g) && Ascii(g)
    ensures PrefixWord(g) < TwoTo31
  {
    PrefixCachesContentHead(g);
    if g.size <= 3 {
      assert PrefixBytes(g)[3] == 0;
    } else {
      assert PrefixBytes(g)[3] == Content(g)[3];
    }
  }

  /** The assertions of test_german_string (test.c:59-70), for ASCII strings
      shorter than 2^31 bytes (the test draws at most 64 from an ASCII
      charset). */
  lemma GermanStringTestAssertions(a: GermanString, b: GermanString)
    requires Valid(a) && Valid(b) && Ascii(a) && Ascii(b)
    requires a.size < TwoTo31 && b.size < TwoTo31
    ensures Cmp(a, a) == 0 && Cmp(b, b) == 0
    ensures Eq(a, a) && Eq(b, b)
    ensures Cmp(a, b) != 0 ==> Cmp(a, b) == -Cmp(b, a)
    ensures Cmp(a, b) == 0 ==> Eq(a, b) && Eq(b, a)
  {
    CmpReflexive(a);
    CmpReflexive(b);
    EqReflexive(a);
    EqReflexive(b);
    AsciiPrefixWordBelowSignBit(a);
    AsciiPrefixWordBelowSignBit(b);
    CmpAntisymmetric(a, b);
    CmpZeroIffEq(a, b);
    EqSymmetric(a, b);
  }

  const HelloWorld: seq<byte> := [72, 101, 108, 108, 111, 32, 87, 111, 114, 108, 100]
  const HelloWorld123: seq<byte> := HelloWorld + [32, 49, 50, 51]
  const HelloEarth: seq<byte> := [72, 101, 108, 108, 111, 32, 69, 97, 114, 116, 104]
  const HelloEarth123: seq<byte> := HelloEarth + [32, 49, 50, 51]

  /** The assertions of the test block of strings.c (strings.c:128-161) on
      "Hello World", "Hello World 123", "Hello Earth" and "Hello Earth 123". All
      four share the prefix "Hell", so every comparison is decided by content. */
  lemma StringsTestAssertions(a0: GermanString, b0: GermanString, a1: GermanString, b1: GermanString)
    requires Valid(a0) && Valid(b0) && Valid(a1) && Valid(b1)
    requires Content(a0) == HelloWorld && Content(b0) == HelloWorld123
    requires Content(a1) == HelloEarth && Content(b1) == HelloEarth123
    ensures Eq(a0, a0) && !Eq(a0, b0) && !Eq(a0, a1) && !Eq(a0, b1)
    ensures Eq(b0, b0) && !Eq(b0, a1) && !Eq(b0, b1)
    ensures Eq(a1, a1) && !Eq(a1, b1)
    ensures Eq(b1, b1)
    ensures Cmp(a0, a0) == 0 && Cmp(a0, b0) < 0 && Cmp(a0, a1) > 0 && Cmp(a0, b1) > 0
    ensures Cmp(b0, a0) > 0 && Cmp(b0, b0) == 0 && Cmp(b0, a1) > 0 && Cmp(b0, b1) > 0
    ensures Cmp(a1, a0) < 0 && Cmp(a1, b0) < 0 && Cmp(a1, a1) == 0 && Cmp(a1, b1) < 0
    ensures Cmp(b1, a0) < 0 && Cmp(b1, b0) < 0 && Cmp(b1, a1) > 0 && Cmp(b1, b1) == 0
  {
    HellPrefix(a0);
    HellPrefix(b0);
    HellPrefix(a1);
    HellPrefix(b1);
    CmpReflexive(a0);
    CmpReflexive(b0);
    CmpReflexive(a1);
    CmpReflexive(b1);
    EqReflexive(a0);
    EqReflexive(b0);
    EqReflexive(a1);
    EqReflexive(b1);
    // "Hello World" begins "Hello World 123", "Hello Earth" begins
    // "Hello Earth 123", and 'E' < 'W' at index 6.
    assert HelloWorld == HelloWorld123[..|HelloWorld|];
    assert HelloEarth == HelloEarth123[..|HelloEarth|];
    LexLessAt(HelloEarth, HelloWorld, 6);
    LexLessAt(HelloEarth, HelloWorld123, 6);
    LexLessAt(HelloEarth123, HelloWorld, 6);
    LexLessAt(HelloEarth123, HelloWorld123, 6);
    CmpOrderedPair(a0, b0);
    CmpOrderedPair(a1, a0);
    CmpOrderedPair(b1, a0);
    CmpOrderedPair(a1, b0);
    CmpOrderedPair(b1, b0);
    CmpOrderedPair(a1, b1);
  }

  /** All four test strings begin with "Hell". */
  lemma HellPrefix(g: GermanString)
    requires Valid(g) && g.size >= PrefixLen && Content(g)[..PrefixLen] == [72, 101, 108, 108]
    ensures PrefixWord(g) == LeWord([72, 101, 108, 108])
  {
    PrefixCachesContentHead(g);
    assert (Content(g) + [0, 0, 0, 0])[..PrefixLen] == Content(g)[..PrefixLen];
  }

  /** Two values with the same prefix whose strings are ordered compare that
      way round in both directions, and are unequal. */
  lemma CmpOrderedPair(u: GermanString, v: GermanString)
    requires Valid(u) && Valid(v) && PrefixWord(u) == PrefixWord(v)
    requires -TwoTo31 < u.size - v.size < TwoTo31
    requires LexLess(Content(u), Content(v))
    ensures Cmp(u, v) < 0 && Cmp(v, u) > 0
    ensures !Eq(u, v) && !Eq(v, u)
  {
    CmpLexicographicOnEqualPrefix(u, v);
    CmpLexicographicOnEqualPrefix(v, u);
    CmpZeroIffEq(u, v);
    CmpZeroIffEq(v, u);
  }

  /** The test block of strings.c as a client: construct the four strings
      (allocation succeeding), check them, and clean up. The call to
      StringsTestAssertions discharges every one of the block's checks
      (strings.c:128-161) for the four constructed values; the assert names
      three of them. Cleaning up hands exactly the two long strings' buffers
      to free(). */
  method StringsTest() returns (freed: nat)
    ensures freed == 2
  {
    var a0 := New(HelloWorld, 11, true);
    var b0 := New(HelloWorld123, 15, true);
    var a1 := New(HelloEarth, 11, true);
    var b1 := New(HelloEarth123, 15, true);
    assert Cmp(a0, b0) < 0 && !Eq(a0, b0) && Cmp(b1, a1) > 0 by {
      StringsTestAssertions(a0, b0, a1, b1);
    }

    var r0 := Release(a0);
    var r1 := Release(b0);
    var r2 := Release(a1);
    var r3 := Release(b1);
    freed := r0 + r1 + r2 + r3;
  }

  /** One `german_string_free(&s)` of the test block: the value is put in a
      slot and freed; the count is 1 when a buffer went to free(). */
  method Release(g: GermanString) returns (n: nat)
    requires Valid(g)
    ensures n == if g.Long? then 1 else 0
  {
    var slot := new Slot(g);
    var released := Free(slot);
    n := Released(released);
  }

  function Released(r: Option<array<byte>>): nat {
    if r.Some? then 1 else 0
  }
}
