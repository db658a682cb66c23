/** The German string of strings.c: a 16-byte value that keeps strings of at
    most 12 bytes inline, zero-padded, and longer strings in an exactly sized
    heap buffer with their first four bytes cached beside the length. The C
    union is modelled as a sum of its two variants; which variant is live is
    decided, as in C, by the length alone. */
module GermanStrings {
  import opened Memory
  import opened StrView

  /** SHORT_STRING_CAPACITY: sizeof Short_String.data, 16 - sizeof(uint32_t). */
  const ShortCapacity: nat := 12
  /** GERMAN_STRING_PREFIX_LEN: sizeof of the uint32_t prefix field. */
  const PrefixLen: nat := 4

  datatype Option<T> = None | Some(value: T)

  datatype GermanString =
    | Short(size: nat, inline: seq<byte>)
    | Long(size: nat, prefix: seq<byte>, data: array<byte>)

  /** The heap memory a value owns: the buffer of the long variant. */
  function Footprint(g: GermanString): set<object> {
    if g.Long? then {g.data} else {}
  }

  /** The layout invariant: the variant matches the length, the inline bytes
      past the length are zero, and a long value's buffer holds exactly `size`
      bytes whose first four the prefix repeats. */
  ghost predicate Valid(g: GermanString)
    reads Footprint(g)
  {
    match g
    case Short(size, inline) =>
      && size <= ShortCapacity
      && |inline| == ShortCapacity
      && forall i | size <= i < ShortCapacity :: inline[i] == 0
    case Long(size, prefix, data) =>
      && ShortCapacity < size < TwoTo32
      && |prefix| == PrefixLen
      && data.Length == size
      && prefix == data[..PrefixLen]
  }

  /** The string a value holds. */
  ghost function Content(g: GermanString): (c: seq<byte>)
    requires Valid(g)
    reads Footprint(g)
    ensures |c| == g.size
  {
    match g
    case Short(size, inline) => inline[..size]
    case Long(_, _, data) => data[..]
  }

  /** The all-zero value that german_string_free leaves and german_string_new
      returns on a failed allocation (strings.c:64, :79): it reads as the empty short
      string. */
  function Zero(): (z: GermanString)
    ensures Valid(z) && z.size == 0 && Content(z) == []
  {
    Short(0, seq(ShortCapacity, _ => 0))
  }

  /** Bytes 4..8 of the value: the prefix field of the long variant, the first
      four inline bytes of the short one. */
  function PrefixBytes(g: GermanString): (p: seq<byte>)
    requires Valid(g)
    reads Footprint(g)
    ensures |p| == PrefixLen
  {
    if g.Short? then g.inline[..PrefixLen] else g.prefix
  }

  /** The uint32_t `prefix` field, read little-endian. */
  function PrefixWord(g: GermanString): (w: nat)
    requires Valid(g)
    reads Footprint(g)
    ensures w < TwoTo32
  {
    LeWord(PrefixBytes(g))
  }

  /** eq_hash: the first eight bytes, that is the size and the prefix word. */
  function EqHash(g: GermanString): (h: (nat, nat))
    requires Valid(g)
    reads Footprint(g)
    ensures h.0 == g.size
  {
    (g.size, PrefixWord(g))
  }

  /** The bytes at the pointer that german_string_cmp selects by size
      (strings.c:87-88): the inline bytes of a value of at most 12 bytes, the
      heap buffer of a longer one. */
  function Buffer(g: GermanString): (b: seq<byte>)
    requires Valid(g)
    reads Footprint(g)
    ensures g.size <= |b| && b[..g.size] == Content(g)
  {
    if g.size <= ShortCapacity then g.inline else g.data[..]
  }

  /** The size guard of german_string_new (strings.c:54) as written: it
      admits every size up to and including 2^32, and the uint32_t size field
      cannot hold 2^32. */
  predicate NewAssertAdmits(size: nat) {
    size <= TwoTo32
  }

  /** The assert lets a size of 2^32 through, and storing it in the uint32_t
      size field leaves 0: the value would claim to be empty. */
  lemma NewAssertAdmitsTruncatedSize()
    ensures NewAssertAdmits(TwoTo32) && Uint32(TwoTo32) == 0
  {
  }

  /** german_string_new. `allocOk` is the outcome of malloc for the long
      variant. The precondition bounds the size below 2^32, one less than the
      source's assert admits. */
  method New(str: seq<byte>, size: nat, allocOk: bool) returns (g: GermanString)
    requires size <= |str|
    requires size < TwoTo32
    ensures Valid(g)
    ensures size <= ShortCapacity ==> g.Short? && g.size == size && Content(g) == str[..size]
    ensures size > ShortCapacity && allocOk ==>
              && g.Long? && g.size == size && fresh(g.data)
              && Content(g) == str[..size] && g.prefix == str[..PrefixLen]
    ensures size > ShortCapacity && !allocOk ==> g == Zero()
    ensures size <= ShortCapacity || allocOk ==> ToSlice(g).Viewed() == str[..size]
  {
    if size <= ShortCapacity {
      // Start from twelve zero inline bytes (strings.c:56).
      var inline := new byte[ShortCapacity](_ => 0);
      // Copy the `size` input bytes into them (strings.c:58).
      var i := 0;
      while i < size
        invariant 0 <= i <= size
        invariant inline[..i] == str[..i]
        invariant forall j | i <= j < ShortCapacity :: inline[j] == 0
      {
        inline[i] := str[i];
        i := i + 1;
      }
      g := Short(Uint32(size), inline[..]);
      assert Content(g) == inline[..size];
    } else {
      if !allocOk {
        return Zero();
      }
      var data := new byte[size];
      // Copy the `size` input bytes into the new buffer (strings.c:68).
      var i := 0;
      while i < size
        invariant 0 <= i <= size
        invariant data[..i] == str[..i]
      {
        data[i] := str[i];
        i := i + 1;
      }
      // Cache the first four input bytes as the prefix (strings.c:69).
      var prefix := str[..PrefixLen];
      assert data[..] == data[..size];
      g := Long(Uint32(size), prefix, data);
    }
  }

  /** A German_String object in memory, as german_string_free reaches it
      through a pointer. */
  class Slot {
    var value: GermanString

    constructor (g: GermanString)
      ensures value == g
    {
      value := g;
    }
  }

  /** german_string_free. `released` is the buffer handed to free(): the heap
      buffer of a long value, nothing for a short one. The value is then reset
      to all zero, so freeing it again releases nothing. */
  method Free(str: Slot) returns (released: Option<array<byte>>)
    requires Valid(str.value)
    modifies str
    ensures str.value == Zero()
    ensures old(str.value).size > ShortCapacity ==> old(str.value).Long? && released == Some(old(str.value).data)
    ensures old(str.value).size <= ShortCapacity ==> released == None
  {
    released := None;
    if str.value.size > ShortCapacity {
      released := Some(str.value.data);
    }
    str.value := Zero();
  }

  /** german_string_cmp: the prefix words decide by their wrapped difference
      converted to int; only when they agree are the contents compared. */
  function Cmp(a: GermanString, b: GermanString): (r: int)
    requires Valid(a) && Valid(b)
    reads Footprint(a), Footprint(b)
    ensures -TwoTo31 <= r < TwoTo31
    ensures PrefixWord(a) != PrefixWord(b) ==> r != 0
  {
    if PrefixWord(a) != PrefixWord(b) then
      Int32ZeroIff(PrefixWord(a) - PrefixWord(b));
      Int32(PrefixWord(a) - PrefixWord(b))
    else
      ContentOrder(Buffer(a), a.size, Buffer(b), b.size)
  }

  /** german_string_eq: a differing eq_hash rejects at once; otherwise the
      `size` bytes of the two buffers are compared. */
  function Eq(a: GermanString, b: GermanString): (r: bool)
    requires Valid(a) && Valid(b)
    reads Footprint(a), Footprint(b)
    ensures r ==> EqHash(a) == EqHash(b)
  {
    if EqHash(a) != EqHash(b) then false
    else if a.size <= ShortCapacity then MemCmp(a.inline, b.inline, a.size) == 0
    else MemCmp(a.data[..], b.data[..], a.size) == 0
  }

  /** german_string_to_slice: a view of the value's own bytes, the inline
      buffer for a short value and the heap buffer for a long one. */
  function ToSlice(g: GermanString): (s: Str)
    requires Valid(g)
    reads Footprint(g)
    ensures s.Valid() && s.size == g.size && s.Viewed() == Content(g)
    ensures g.Short? ==> s.data == g.inline
    ensures g.Long? ==> s.data == g.data[..]
  {
    Str(g.size, Buffer(g))
  }

  /** Freeing a value twice releases its buffer once and leaves the all-zero
      value both times. */
  method FreeTwice(str: Slot) returns (first: Option<array<byte>>, second: Option<array<byte>>)
    requires Valid(str.value)
    modifies str
    ensures str.value == Zero() && second == None
    ensures old(str.value).Long? ==> first == Some(old(str.value).data)
    ensures old(str.value).Short? ==> first == None
  {
    first := Free(str);
    second := Free(str);
  }
}
