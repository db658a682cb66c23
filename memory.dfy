/** The pieces of C that strings.c leans on: bytes read as unsigned char, the
    conversions of unsigned differences to 32-bit int, the little-endian reading
    of the four prefix bytes, and memcmp. Also the reference byte-wise
    lexicographic order against which the comparisons are measured. */
module Memory {

  /** A byte as memcmp reads it (unsigned char). */
  type byte = x: int | 0 <= x < 256

  const TwoTo31: int := 0x8000_0000
  const TwoTo32: int := 0x1_0000_0000

  /** The smaller of two lengths, as str_cmp and german_string_cmp take it
      (strings.c:42, :89). */
  function Min(x: int, y: int): (m: int)
    ensures m <= x && m <= y
    ensures m == x || m == y
  {
    if x < y then x else y
  }

  /** Storing x in a uint32_t field: the value is reduced modulo 2^32. */
  function Uint32(x: int): (r: nat)
    ensures r < TwoTo32
    ensures (x - r) % TwoTo32 == 0
  {
    x % TwoTo32
  }

  /** C's `(int)` conversion of an unsigned difference (of uint32_t or of
      size_t operands): the low 32 bits of x, read as a two's complement int. */
  function Int32(x: int): (r: int)
    ensures -TwoTo31 <= r < TwoTo31
    ensures (x - r) % TwoTo32 == 0
  {
    var m := x % TwoTo32;
    if m < TwoTo31 then m else m - TwoTo32
  }

  lemma Int32Small(x: int)
    requires -TwoTo31 <= x < TwoTo31
    ensures Int32(x) == x
  {
    if x < 0 {
      assert x % TwoTo32 == x + TwoTo32;
    }
  }

  lemma Int32ZeroIff(x: int)
    ensures Int32(x) == 0 <==> x % TwoTo32 == 0
  {
  }

  /** Negating the difference negates the int it converts to, except when the
      low 32 bits are exactly 2^31: -2^31 has no positive counterpart in int. */
  lemma Int32Negate(x: int)
    requires x % TwoTo32 != TwoTo31
    ensures Int32(-x) == -Int32(x)
  {
    var m := x % TwoTo32;
    assert x == TwoTo32 * (x / TwoTo32) + m;
    if m == 0 {
      assert -x == TwoTo32 * (-(x / TwoTo32));
      assert (-x) % TwoTo32 == 0;
    } else {
      assert -x == TwoTo32 * (-(x / TwoTo32) - 1) + (TwoTo32 - m);
      assert (-x) % TwoTo32 == TwoTo32 - m;
    }
  }

  lemma Int32MinimumIsItsOwnNegation()
    ensures Int32(TwoTo31) == -TwoTo31 && Int32(-TwoTo31) == -TwoTo31
  {
  }

  /** The uint32_t whose little-endian bytes are p[0..4]: how the prefix field
      reads the four prefix bytes on the little-endian target. */
  function LeWord(p: seq<byte>): (w: nat)
    requires |p| == 4
    ensures w < TwoTo32
    ensures p[3] < 128 ==> w < TwoTo31
  {
    (p[0] as int) + 0x100 * (p[1] as int) + 0x1_0000 * (p[2] as int) + 0x100_0000 * (p[3] as int)
  }

  /** memcmp(x, y, n), reading x and y as unsigned char. The C library promises
      only the sign of the result; the model fixes it to -1, 0 or 1. */
  function MemCmp(x: seq<byte>, y: seq<byte>, n: nat): (r: int)
    requires n <= |x| && n <= |y|
    ensures -1 <= r <= 1
    ensures r == 0 <==> x[..n] == y[..n]
    decreases n
  {
    if n == 0 then 0
    else if x[0] < y[0] then -1
    else if x[0] > y[0] then 1
    else
      assert x[..n] == [x[0]] + x[1..][..n - 1];
      assert y[..n] == [y[0]] + y[1..][..n - 1];
      MemCmp(x[1..], y[1..], n - 1)
  }

  /** A nonzero memcmp is decided by the first byte where the two differ. */
  lemma {:induction false} MemCmpFirstDifference(x: seq<byte>, y: seq<byte>, n: nat) returns (k: nat)
    requires n <= |x| && n <= |y|
    requires MemCmp(x, y, n) != 0
    ensures k < n && x[..k] == y[..k] && x[k] != y[k]
    ensures MemCmp(x, y, n) == if x[k] < y[k] then -1 else 1
    decreases n
  {
    if x[0] != y[0] {
      k := 0;
    } else {
      var j := MemCmpFirstDifference(x[1..], y[1..], n - 1);
      k := j + 1;
      assert x[..k] == [x[0]] + x[1..][..j];
      assert y[..k] == [y[0]] + y[1..][..j];
    }
  }

  /** Swapping the operands of memcmp negates its result. */
  lemma {:induction false} MemCmpAntisymmetric(x: seq<byte>, y: seq<byte>, n: nat)
    requires n <= |x| && n <= |y|
    ensures MemCmp(y, x, n) == -MemCmp(x, y, n)
    decreases n
  {
    if n > 0 && x[0] == y[0] {
      MemCmpAntisymmetric(x[1..], y[1..], n - 1);
    }
  }

  /** Reference order: x sorts strictly before y byte-wise, a proper prefix
      sorting before any longer string it begins. */
  ghost predicate LexLess(x: seq<byte>, y: seq<byte>) {
    || (exists k :: 0 <= k < |x| && k < |y| && x[..k] == y[..k] && x[k] < y[k])
    || (|x| < |y| && x == y[..|x|])
  }

  lemma LexLessAt(x: seq<byte>, y: seq<byte>, k: nat)
    requires k < |x| && k < |y| && x[..k] == y[..k] && x[k] < y[k]
    ensures LexLess(x, y)
  {
  }

  /** Two strings that agree before k and differ at k differ first at k: they
      are neither each other's prefix nor ordered by a later byte. */
  lemma NoOtherDifference(x: seq<byte>, y: seq<byte>, k: nat)
    requires k < |x| && k < |y| && x[..k] == y[..k] && x[k] != y[k]
    ensures forall j :: 0 <= j < |x| && j < |y| && x[..j] == y[..j] ==> j <= k
    ensures !(|x| < |y| && x == y[..|x|]) && !(|y| < |x| && y == x[..|y|])
  {
  }
}
