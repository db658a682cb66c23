/** The baseline (pointer, length) string of strings.c, `Str`, with its
    comparison `str_cmp` and equality `str_eq`. A view borrows memory it does
    not own; the model represents the memory at the pointer by the bytes found
    there, of which the first `size` are the string. */
module StrView {
  import opened Memory

  datatype Str = Str(size: nat, data: seq<byte>) {
    /** The pointer reaches at least `size` readable bytes. */
    predicate Valid() {
      size <= |data|
    }

    /** The string the view denotes. */
    function Viewed(): (s: seq<byte>)
      requires Valid()
      ensures |s| == size
    {
      data[..size]
    }
  }

  /** The three-way comparison of str_cmp (strings.c:42-44), which
      german_string_cmp repeats once the prefixes agree (strings.c:87-91):
      memcmp over the shorter length, and on a tie the unsigned difference of
      the lengths converted to int. x and y are the bytes at the two pointers. */
  function ContentOrder(x: seq<byte>, sx: nat, y: seq<byte>, sy: nat): (r: int)
    requires sx <= |x| && sy <= |y|
    ensures -TwoTo31 <= r < TwoTo31
  {
    var ordering := MemCmp(x, y, Min(sx, sy));
    if ordering != 0 then ordering else Int32(sx - sy)
  }

  function StrCmp(a: Str, b: Str): (r: int)
    requires a.Valid() && b.Valid()
    ensures -TwoTo31 <= r < TwoTo31
  {
    ContentOrder(a.data, a.size, b.data, b.size)
  }

  /** str_eq as written (strings.c:48-50): the condition is inverted, so any
      two views of different lengths compare equal. */
  function StrEq(a: Str, b: Str): (r: bool)
    requires a.Valid() && b.Valid()
    ensures a.size != b.size ==> r
  {
    a.size != b.size || MemCmp(a.data, b.data, a.size) == 0
  }

  /** str_eq as evidently intended: equal lengths and equal bytes. */
  function StrEqIntended(a: Str, b: Str): (r: bool)
    requires a.Valid() && b.Valid()
    ensures r <==> a.Viewed() == b.Viewed()
  {
    a.size == b.size && MemCmp(a.data, b.data, a.size) == 0
  }

  lemma ContentOrderReflexive(x: seq<byte>, s: nat)
    requires s <= |x|
    ensures ContentOrder(x, s, x, s) == 0
  {
  }

  /** The ordering is zero exactly when the compared bytes agree and the
      lengths agree modulo 2^32 (the conversion to int sees only 32 bits). */
  lemma ContentOrderZero(x: seq<byte>, sx: nat, y: seq<byte>, sy: nat)
    requires sx <= |x| && sy <= |y|
    ensures ContentOrder(x, sx, y, sy) == 0 <==>
              x[..Min(sx, sy)] == y[..Min(sx, sy)] && (sx - sy) % TwoTo32 == 0
  {
    Int32ZeroIff(sx - sy);
  }

  /** Swapping the operands negates the ordering, unless the lengths differ by
      2^31 modulo 2^32, where the tie-break converts to int's minimum both ways. */
  lemma ContentOrderAntisymmetric(x: seq<byte>, sx: nat, y: seq<byte>, sy: nat)
    requires sx <= |x| && sy <= |y|
    requires (sx - sy) % TwoTo32 != TwoTo31
    ensures ContentOrder(y, sy, x, sx) == -ContentOrder(x, sx, y, sy)
  {
    MemCmpAntisymmetric(x, y, Min(sx, sy));
    Int32Negate(sx - sy);
    assert Min(sy, sx) == Min(sx, sy);
    assert -(sx - sy) == sy - sx;
  }

  /** While the lengths differ by less than 2^31 the ordering is the reference
      byte-wise lexicographic order with the shorter string first. */
  lemma ContentOrderLexicographic(x: seq<byte>, sx: nat, y: seq<byte>, sy: nat)
    requires sx <= |x| && sy <= |y|
    requires -TwoTo31 < sx - sy < TwoTo31
    ensures ContentOrder(x, sx, y, sy) < 0 <==> LexLess(x[..sx], y[..sy])
    ensures ContentOrder(x, sx, y, sy) == 0 <==> x[..sx] == y[..sy]
    ensures ContentOrder(x, sx, y, sy) > 0 <==> LexLess(y[..sy], x[..sx])
  {
    OrderBelowIsLexLess(x, sx, y, sy);
    OrderBelowIsLexLess(y, sy, x, sx);
    ContentOrderAntisymmetric(x, sx, y, sy);
  }

  lemma OrderBelowIsLexLess(x: seq<byte>, sx: nat, y: seq<byte>, sy: nat)
    requires sx <= |x| && sy <= |y|
    requires -TwoTo31 < sx - sy < TwoTo31
    ensures ContentOrder(x, sx, y, sy) < 0 <==> LexLess(x[..sx], y[..sy])
    ensures ContentOrder(x, sx, y, sy) == 0 <==> x[..sx] == y[..sy]
  {
    var m := Min(sx, sy);
    var xs, ys := x[..sx], y[..sy];
    if MemCmp(x, y, m) != 0 {
      var k := MemCmpFirstDifference(x, y, m);
      assert xs[..k] == x[..k] && ys[..k] == y[..k];
      assert xs[k] == x[k] && ys[k] == y[k];
      NoOtherDifference(xs, ys, k);
      if x[k] < y[k] {
        LexLessAt(xs, ys, k);
      }
    } else {
      Int32Small(sx - sy);
      assert xs[..m] == ys[..m];
      if sx < sy {
        assert xs == ys[..sx];
      }
    }
  }

  lemma StrCmpReflexive(a: Str)
    requires a.Valid()
    ensures StrCmp(a, a) == 0
  {
    ContentOrderReflexive(a.data, a.size);
  }

  lemma StrCmpAntisymmetric(a: Str, b: Str)
    requires a.Valid() && b.Valid()
    requires (a.size - b.size) % TwoTo32 != TwoTo31
    ensures StrCmp(b, a) == -StrCmp(a, b)
  {
    ContentOrderAntisymmetric(a.data, a.size, b.data, b.size);
  }

  /** str_cmp agrees with the reference order while the lengths differ by
      less than 2^31. */
  lemma StrCmpLexicographic(a: Str, b: Str)
    requires a.Valid() && b.Valid()
    requires -TwoTo31 < a.size - b.size < TwoTo31
    ensures StrCmp(a, b) < 0 <==> LexLess(a.Viewed(), b.Viewed())
    ensures StrCmp(a, b) == 0 <==> a.Viewed() == b.Viewed()
    ensures StrCmp(a, b) > 0 <==> LexLess(b.Viewed(), a.Viewed())
  {
    ContentOrderLexicographic(a.data, a.size, b.data, b.size);
  }

  /** As written, str_eq means "different lengths, or equal bytes". */
  lemma StrEqAsWritten(a: Str, b: Str)
    requires a.Valid() && b.Valid()
    ensures StrEq(a, b) <==> a.size != b.size || a.Viewed() == b.Viewed()
  {
  }

  /** A concrete pair that str_eq calls equal: "a" and "ab". */
  lemma StrEqAcceptsDifferentLengths()
    ensures StrEq(Str(1, [97]), Str(2, [97, 98]))
    ensures !StrEqIntended(Str(1, [97]), Str(2, [97, 98]))
  {
  }

  /** The assertions of test_standard_string (test.c:98-109), for views whose
      lengths are below 2^31 (the test uses at most 64 bytes). */
  lemma StandardStringTestAssertions(a: Str, b: Str)
    requires a.Valid() && b.Valid()
    requires a.size < TwoTo31 && b.size < TwoTo31
    ensures StrCmp(a, a) == 0 && StrCmp(b, b) == 0
    ensures StrEq(a, a) && StrEq(b, b)
    ensures StrCmp(a, b) != 0 ==> StrCmp(a, b) == -StrCmp(b, a)
    ensures StrCmp(a, b) == 0 ==> StrEq(a, b) && StrEq(b, a)
  {
    StrCmpReflexive(a);
    StrCmpReflexive(b);
    StrCmpLexicographic(a, b);
    StrCmpAntisymmetric(a, b);
  }
}
