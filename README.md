# German strings in Dafny

A model of `strings.c` from the Naxaes/strings repository. That file defines a
"German string": a 16-byte string value with a 32-bit length.
- Strings of at most 12 bytes are kept inline, zero-padded.
- Longer strings live in a heap buffer of exactly their length. The value keeps
  a copy of the first four bytes (the *prefix*) beside the length.
- Which variant is live is decided by the length alone.

Ordering and equality test this cheap data first:
- The 4-byte prefix word.
- The 8-byte `eq_hash` word, which packs the length and the prefix.

Only when those agree do they read the contents. The file also has a baseline
`Str` (pointer, length) view with its own comparison and equality.

Modules:
- `Memory` (memory.dfy): bytes as `memcmp` reads them (unsigned char) and C's
  integer conversions.
  - `Uint32` stores a value into a `uint32_t`.
  - `Int32` is the `(int)` conversion of a wrapped unsigned difference.
  - `LeWord` reads the prefix word little-endian.
  - `MemCmp` models `memcmp` as a pure comparison.
  - `LexLess` is an independent reference for byte-wise lexicographic order.
- `StrView` (str_view.dfy): `Str`, `str_cmp`, and `str_eq` both as written and
  as intended. It also holds `ContentOrder`, the memcmp-then-length comparison.
  `str_cmp` uses it, and `german_string_cmp` uses it again once the prefixes
  agree.
- `GermanStrings` (german_strings.dfy): the value is a datatype with two
  variants.
  - `Short` has the 12 inline bytes.
  - `Long` has the prefix and an owned `array<byte>` heap buffer.
  - `Valid` is the layout invariant.
  - `New` is `german_string_new`: a method with the copy loops and an explicit
    allocation outcome.
  - `Free` is `german_string_free`: a method on a `Slot`, the memory a
    `German_String*` points at.
  - `Cmp`, `Eq` and `ToSlice` are pure functions.
- `GermanStringLaws` (german_string_laws.dfy): the properties of comparison and
  equality, and the source's test assertions proved for all the inputs they
  cover.

What is proved, in the system's terms:
- **Equality and ordering.** `german_string_eq` holds exactly when the two
  values hold the same string. `german_string_cmp` returns 0 exactly when
  `german_string_eq` holds. Both are reflexive, and `eq` is symmetric.
- **Antisymmetry.** Swapping the operands of `german_string_cmp` negates the
  result, except when the prefix words or the sizes differ by exactly 2^31.
  At that value the conversion to `int` gives -2^31 both ways round. Lemmas
  exhibit the failure, with a concrete pair for the prefix case. ASCII strings,
  as the test generates, never reach it.
- **The order is not lexicographic.** The prefix word is compared as a
  little-endian integer, so the first step is not byte-wise lexicographic:
  "ba" compares below "ab". Once the prefixes agree, the comparison is the
  reference lexicographic order with the shorter string first, as long
  as the sizes differ by less than 2^31.
- **Construction and free.** Construction stores exactly the given bytes, and
  `to_slice` gives them back. A failed allocation returns the all-zero value,
  which equals every empty string. Freeing hands the heap buffer to `free()`
  only for a long value, then zeroes the value, so a second free does nothing.

Where the code and its design description disagree, the model follows the code:
- On allocation failure the code returns the all-zero value (length 0), not a
  distinct out-of-memory outcome. `New` returns `Zero()` in that case.
- The prefix step takes the difference of the two `uint32_t` prefix fields,
  wrapped to 32 bits, and converts it to `int`. It is not an unsigned byte-wise
  comparison. `Cmp` models the code.
- `str_eq` returns true whenever the lengths differ. `StrEq` models that, and
  `StrEqIntended` is the corrected form (see Findings).

## Model

| member | source | states |
|---|---|---|
| `Memory.Min` | strings.c:42 | the result is one of the two operands and no larger than either |
| `Memory.Uint32` | strings.c:57 | storing into the `uint32_t` size field gives the unique value below 2^32 congruent to the input modulo 2^32 |
| `Memory.Int32` | strings.c:85 | `(int)` of a wrapped difference is the unique int in [-2^31, 2^31) congruent to it modulo 2^32 |
| `Memory.Int32Small` | strings.c:44 | a difference already within int's range converts to itself |
| `Memory.Int32ZeroIff` | strings.c:91 | the converted difference is zero exactly when the difference is a multiple of 2^32 |
| `Memory.Int32Negate` | strings.c:85 | negating a difference negates its conversion unless its low 32 bits are 2^31 |
| `Memory.Int32MinimumIsItsOwnNegation` | strings.c:85 | 2^31 and -2^31 both convert to -2^31 |
| `Memory.LeWord` | strings.c:17-20 | the prefix word is below 2^32, and below 2^31 when its fourth byte is below 128 |
| `Memory.MemCmp` | strings.c:43 | memcmp's result is -1, 0 or 1, and 0 exactly when the first n bytes agree |
| `Memory.MemCmpFirstDifference` | strings.c:43 | a nonzero memcmp is the sign of the first differing byte pair, all earlier bytes being equal |
| `Memory.MemCmpAntisymmetric` | strings.c:43 | swapping memcmp's operands negates it |
| `Memory.LexLessAt` | strings.c:43 | a first difference with the smaller byte on the left orders the strings lexicographically |
| `Memory.NoOtherDifference` | strings.c:43 | two strings that first differ at k agree everywhere before k and neither is a prefix of the other |
| `StrView.Str.Viewed` | strings.c:35-38 | a view denotes exactly `size` bytes from its pointer |
| `StrView.ContentOrder` | strings.c:41-45 | the memcmp-then-length comparison returns an int |
| `StrView.ContentOrderReflexive` | strings.c:41-45 | comparing bytes with themselves gives 0 |
| `StrView.ContentOrderZero` | strings.c:42-44 | the comparison is 0 exactly when the compared bytes agree and the lengths agree modulo 2^32 |
| `StrView.ContentOrderAntisymmetric` | strings.c:42-44 | swapping operands negates the comparison unless the lengths differ by 2^31 modulo 2^32 |
| `StrView.ContentOrderLexicographic` | strings.c:42-44 | with lengths less than 2^31 apart: below 0, 0 and above 0 match the reference order, equality, and the reversed reference order |
| `StrView.StrCmp` | strings.c:41-45 | `str_cmp` returns an int |
| `StrView.StrCmpReflexive` | test.c:99-100 | `str_cmp(a, a)` is 0 |
| `StrView.StrCmpAntisymmetric` | test.c:105-106 | `str_cmp(b, a)` is `-str_cmp(a, b)` unless the lengths differ by 2^31 modulo 2^32 |
| `StrView.StrCmpLexicographic` | strings.c:41-45 | `str_cmp` is the reference lexicographic order, shortest first, for lengths less than 2^31 apart |
| `StrView.StrEq` | strings.c:48-50 | as written, any two views of different lengths compare equal |
| `StrView.StrEqAsWritten` | strings.c:48-50 | as written, `str_eq` holds iff the lengths differ or the viewed bytes are equal |
| `StrView.StrEqAcceptsDifferentLengths` | strings.c:49 | "a" and "ab" are equal to `str_eq` but not to the corrected one |
| `StrView.StrEqIntended` | strings.c:48-50 | corrected `str_eq`: true exactly when the two views denote the same bytes |
| `StrView.StandardStringTestAssertions` | test.c:98-109 | reflexivity of `str_cmp` and `str_eq`; a nonzero `str_cmp` flips sign when the operands swap; a zero one implies `str_eq` both ways (lengths below 2^31) |
| `GermanStrings.Content` | strings.c:22-31 | the string a value holds has `size` bytes |
| `GermanStrings.Valid` | strings.c:13-32 | the layout invariant: the variant follows the size, a short value holds 12 inline bytes, zero past the size, and a long value's buffer holds exactly `size` bytes whose first four the prefix repeats |
| `GermanStrings.Zero` | strings.c:79 | the all-zero value is a valid short value of length 0 holding the empty string |
| `GermanStrings.PrefixBytes` | strings.c:17-31 | the bytes under the prefix field are four |
| `GermanStrings.PrefixWord` | strings.c:19 | the prefix field is a 32-bit unsigned word |
| `GermanStrings.EqHash` | strings.c:15-20 | eq_hash carries the size beside the prefix word |
| `GermanStrings.Buffer` | strings.c:87-88 | the buffer C selects by `size` starts with exactly the value's string |
| `GermanStrings.NewAssertAdmits` | strings.c:54 | the constructor's size guard as written: every size up to and including 2^32 passes |
| `GermanStrings.NewAssertAdmitsTruncatedSize` | strings.c:54 | the constructor's assert admits 2^32, which the size field stores as 0 |
| `GermanStrings.New` | strings.c:53-72 | see the list below this table |
| `GermanStrings.Slot.constructor` | strings.c:75 | a slot is the memory a `German_String*` points at; a new slot holds the given value |
| `GermanStrings.Free` | strings.c:75-80 | see the list below this table |
| `GermanStrings.FreeTwice` | strings.c:75-80 | freeing twice releases a long value's buffer once, releases nothing the second time, and leaves the all-zero value |
| `GermanStrings.Cmp` | strings.c:83-93 | an int result, which is nonzero whenever the prefix words differ |
| `GermanStrings.Eq` | strings.c:96-104 | true only when the two eq_hash words agree (the fast reject) |
| `GermanStrings.ToSlice` | strings.c:107-110 | the view has the value's length and denotes exactly the value's string; it points at the inline bytes of a short value and at the heap buffer's bytes of a long one |
| `GermanStringLaws.PrefixCachesContentHead` | strings.c:56-69 | the prefix field is the string's first four bytes, zero-padded when it is shorter |
| `GermanStringLaws.SameContentSameEqHash` | strings.c:97 | values holding the same string have the same eq_hash |
| `GermanStringLaws.EqIffSameContent` | strings.c:96-104 | `german_string_eq` holds exactly when the two values hold the same string |
| `GermanStringLaws.EqReflexive` | test.c:62-63 | `german_string_eq(a, a)` holds |
| `GermanStringLaws.EqSymmetric` | test.c:73 | `german_string_eq(a, b) == german_string_eq(b, a)` |
| `GermanStringLaws.CmpReflexive` | test.c:60-61 | `german_string_cmp(a, a)` is 0 |
| `GermanStringLaws.CmpZeroIffEq` | test.c:68-69 | `german_string_cmp` is 0 exactly when `german_string_eq` holds |
| `GermanStringLaws.CmpAntisymmetric` | test.c:66-67 | `cmp(b, a) == -cmp(a, b)` unless the prefix words or the sizes differ by 2^31 modulo 2^32 |
| `GermanStringLaws.CmpDecidedByPrefixWords` | strings.c:84-85 | when the prefix words differ the result depends on the prefix words alone, not on any content |
| `GermanStringLaws.CmpOrdersSmallPrefixWords` | strings.c:84-85 | differing prefix words below 2^31 order the values as unsigned numbers |
| `GermanStringLaws.CmpPrefixWrapBreaksAntisymmetry` | strings.c:84-85 | prefix words 2^31 apart make both orders compare -2^31 |
| `GermanStringLaws.CmpAntisymmetryCounterexample` | strings.c:85 | the 4-byte strings 00 00 00 80 and 00 00 00 00 each compare below the other |
| `GermanStringLaws.CmpSizeWrapBreaksAntisymmetry` | strings.c:91 | a string beginning one 2^31 bytes longer (same prefix) compares below it both ways round |
| `GermanStringLaws.CmpLexicographicOnEqualPrefix` | strings.c:86-92 | with equal prefix words and sizes less than 2^31 apart, `cmp` is the reference lexicographic order in both directions and 0 exactly on equal strings |
| `GermanStringLaws.CmpIsNotLexicographic` | strings.c:84-85 | "ba" compares below "ab" although it sorts after it byte-wise |
| `GermanStringLaws.CmpAgreesWithStrCmp` | strings.c:87-91 | with equal prefix words, `german_string_cmp` is `str_cmp` on the two views |
| `GermanStringLaws.EqAgreesWithStrEqIntended` | strings.c:96-104 | `german_string_eq` is the corrected `str_eq` on the two views |
| `GermanStringLaws.FailedAllocationLooksEmpty` | strings.c:61-65 | the value returned on allocation failure equals exactly the empty strings |
| `GermanStringLaws.Ascii` | test.c:17 | every byte of the value's string is below 128, as for every character of the test's charset |
| `GermanStringLaws.AsciiPrefixWordBelowSignBit` | test.c:17 | an ASCII string's prefix word is below 2^31 |
| `GermanStringLaws.GermanStringTestAssertions` | test.c:59-70 | for ASCII strings below 2^31 bytes: reflexivity of `cmp` and `eq`; a nonzero `cmp` flips sign when the operands swap; a zero one implies `eq` both ways |
| `GermanStringLaws.HellPrefix` | strings.c:117-120 | the four test strings share the prefix word of "Hell" |
| `GermanStringLaws.CmpOrderedPair` | strings.c:143-161 | lexicographically ordered strings with one prefix compare that way in both directions and are unequal |
| `GermanStringLaws.StringsTestAssertions` | strings.c:128-161 | every equality and comparison assertion of the test block holds for values holding its four strings |
| `GermanStringLaws.StringsTest` | strings.c:116-168 | the test block's construct, check and clean-up sequence verifies, and the clean-up frees exactly two heap buffers |
| `GermanStringLaws.Release` | strings.c:164-167 | one clean-up `german_string_free` releases a buffer exactly when the value is long |

What `GermanStrings.New` states:
- The result is valid.
- For a size of at most 12: a short value of that size holding the first `size`
  input bytes, zero-padded.
- For a longer size with successful allocation: a long value of that size with a
  fresh buffer holding exactly the input bytes, and the prefix equal to the
  first four input bytes.
- If allocation fails: the all-zero value.
- When construction succeeds: `to_slice` views exactly the input bytes.

What `GermanStrings.Free` states:
- The heap buffer is released exactly when the size exceeds 12. In that case
  the value is long and it is its own buffer that is released.
- The value is left all-zero.

## Left out

- The benchmark harness of test.c is left out: random string generation, timing
  with `clock_gettime` and `pow`, sorting and printing of statistics, and the
  timing loops of `main`. These are I/O, floating point and nondeterminism.
  Only its assertions are modelled: test.c:59-70 and 98-109.
- The union's raw byte layout is not modelled: the `uint64_t` eq_hash overlay,
  the pointer-width-dependent `prefix_` size and endianness. The value is a sum
  of its two variants. eq_hash is the (size, prefix word) pair. The target is
  fixed as little-endian with 8-byte pointers.
- The allocator is not modelled. The outcome of `malloc` is the `allocOk`
  parameter of `New`. `free()` is represented by the buffer `Free` reports as
  released. `memcpy` is the copy loops in `New`. `memcmp` is the pure
  function `MemCmp`.
- MemCmp: returns -1, 0 or 1. The C library promises only the sign, so a real
  `memcmp` may return other magnitudes. The model fixes one choice.
- Cmp: compares `min(a.size, b.size)` bytes. The source first stores that
  minimum in an `int`. For a minimum of 2^31 or more that `int` is negative,
  `memcmp` receives a huge length, and the behaviour is undefined. The model
  does not reproduce this.
- StrCmp: the same `int` truncation of the minimum length is not reproduced.
  The `size_t` bound on `Str.size` is not modelled either.
- ToSlice: returns the bytes at the view's pointer, not an address. The model
  therefore does not capture three facts about the view:
  - it aliases the inline bytes or the heap buffer without copying;
  - it must not outlive the value;
  - it dangles after `german_string_free`.
- Valid: requires every inline byte past `size` to be zero. In C, `{ 0 }` on
  the union initialises only its first member, the 8-byte `eq_hash`, so inline
  bytes 4..12 past the size are unspecified by the C standard (section 6.2.6.1
  of ISO C11). No operation reads those bytes, so no result of the model
  depends on them; the model states the stronger, zero-padded layout.
- Int32: assumes the conversion of an out-of-range unsigned value to `int` is
  modular. Section 6.3.1.3 of ISO C11 leaves it implementation-defined; GCC
  and Clang document it as reduction modulo 2^32.
- New: `fresh` gives each new buffer a single owner. There is no global
  invariant that two live values never share a buffer, and no model of copying
  a long value by value.

## Findings

| source | as written | input that shows it | evidently intended | confidence | as-written member | corrected member |
|---|---|---|---|---|---|---|
| strings.c:54 | the constructor's guard admits sizes up to and including 2^32; storing 2^32 in the `uint32_t` size field leaves 0 | a size of exactly 2^32 | sizes strictly below 2^32 | not executed; follows from the guard and the field width | `GermanStrings.NewAssertAdmitsTruncatedSize` | `GermanStrings.New` (requires a size below 2^32 and stores it unchanged) |
| strings.c:48-50 | `str_eq` returns true whenever the two lengths differ | "a" against "ab" | true exactly when the lengths are equal and the bytes match | not executed; the condition is inverted | `StrView.StrEqAcceptsDifferentLengths` | `StrView.StrEqIntended` (used by `GermanStringLaws.EqAgreesWithStrEqIntended`) |
