# xtrings in Dafny

A model of the core of **xtr** ("xtrings"), a C library of heap-allocated,
length-tracked byte strings. An xtring is a single allocation holding:

- a `capacity`;
- a `used` length;
- a buffer of `capacity + 1` bytes, terminated after the content and again at
  the end.

The model covers:

- construction, cloning and resizing;
- reading, comparing, shrinking, growing and reversing;
- substring search, counting and splitting;
- hex, base64 and UTF-8 conversions;
- the two internal helpers everything rests on: `memmove_secure` and `memmem`.

Conventions of the model:

- An xtring is `Xtring.Xtr(capacity, content)`. The subset type `Xtring` keeps
  `|content| <= capacity <= MAX_CAPACITY`.
- The raw layout, with buffer and terminators, is `Raw.Struct`. `Xtring.Abs`
  and `Xtring.Store` connect the two views.
- A NULL pointer is `None`.
- The allocator's answer is a `granted: bool` parameter of every operation
  that allocates.
- Operations that free or replace the caller's xtring through an `xtr_t**`
  return `Effect(updated, result)`:
  - `updated` is what the caller's handle holds afterwards;
  - `result` is the return value.
- `size_t` is 64 bits wide (`Sizing`). Every overflow test of the source is
  written with explicit wrap-around (`Sizing.Wrap`).
- Bytes are `bv8`. A C string (`const char*`) is a `Bytes.CString`, a byte
  sequence with no zero byte.

Modules follow the source files:

| module | source file |
|---|---|
| `Sizing` | `src/xtr_internal.h`, `src/xtr_utils.c` |
| `Raw` | `src/xtr_utils.c` |
| `Xtring` | `src/xtr_new.c` |
| `MemSearch` | `memmem` in `src/xtr_utils.c` |
| `Construct` | `src/xtr_from.c`, `src/xtr_new.c`, `src/xtr_clone.c` |
| `Access` | `src/xtr_get.c`, `src/xtr_unarycmp.c` |
| `Compare` | `src/xtr_cmp.c` |
| `Resize` | `src/xtr_resize.c` |
| `Decrease` | `src/xtr_decrease.c` |
| `Increase` | `src/xtr_increase.c` |
| `Reverse` | `src/xtr_reverse.c` |
| `Search` | `src/xtr_search.c` |
| `Split` | `src/xtr_split.c` |
| `Hex` | `src/xtr_hex.c` |
| `Base64` | `src/xtr_base64.c` |
| `Utf8` | `src/xtr_unicode.c` |

The header `inc/xtr.h` documents some operations whose code is not among the
implemented files. Those are modelled from their documented contract:

- `startswith` and `endswith`;
- `push_head` and `push_tail`;
- `extend_head` and `extend_tail`;
- `concat`;
- `to_hex`.

Where the code departs from what its comments, the header or its callers
evidently intend, the main model follows the intent. An `...AsWritten` member
models the code as it stands, and a lemma exhibits the difference (see
"## Findings").

## Model

| member | source | states |
|---|---|---|
| Sizing.StructSize | src/xtr_utils.c:62-66 | The allocation size wraps to the overflow sentinel exactly when the capacity exceeds `XTR_MAX_CAPACITY`. Otherwise it is header plus capacity plus terminator, larger than the capacity. |
| Raw.SetUsedAndTerminator | src/xtr_utils.c:47-52 | Setting the length restores the layout invariant. It writes only the two terminator bytes. |
| Raw.SetCapacityAndTerminator | src/xtr_utils.c:55-59 | Setting the capacity terminates the buffer at the new end and leaves every other byte alone. |
| Raw.Fresh | src/xtr_new.c:35-48 | A freshly allocated struct is empty, has the requested capacity and satisfies the layout invariant, whatever the allocator returned. |
| Raw.MemmoveSecure | src/xtr_utils.c:78-113 | No-op on NULL, on identical pointers and on length 0. Otherwise the destination receives the original source bytes. Source bytes the destination does not cover are zeroed. Nothing outside the two regions changes. |
| Raw.MemmoveForwardClobbersDestination | src/xtr_utils.c:83-92 | For an overlapping forward move, the code as written zeroes the start of the destination instead of the vacated source bytes. |
| Xtring.NewEnsure | src/xtr_new.c:35-48 | `xtr_new` succeeds exactly when the allocation is granted and the capacity is at most `XTR_MAX_CAPACITY`. It then yields an empty xtring of that capacity. |
| Xtring.NewEnsureLayout | src/xtr_new.c:35-48 | The raw struct `xtr_new` builds is well formed, and its abstraction is the xtring `NewEnsure` describes. |
| Xtring.NewEmpty | src/xtr_new.c:64-67 | An empty xtring with zero capacity, whenever allocation succeeds. |
| Xtring.Free | src/xtr_new.c:51-61 | Freeing leaves the caller's handle NULL. |
| Xtring.Store | src/xtr_internal.h:56-85 | Every abstract xtring has a well-formed raw layout that abstracts back to it. |
| MemSearch.FirstMatchFrom | src/xtr_utils.c:119-135 | The result is the smallest offset at or after `from` where the needle occurs, or None when it occurs nowhere from there on. |
| MemSearch.MemMem | src/xtr_utils.c:119-135 | The `memchr`-then-`memcmp` scan returns the first occurrence of the needle, or None exactly when there is none. |
| MemSearch.MemMemAsWrittenSkipsEveryMatch | src/xtr_utils.c:125 | Whenever the needle occurs at all, the loop as written is never entered, so NULL is returned although a match exists. |
| MemSearch.MemMemAsWrittenExample | src/xtr_utils.c:125 | "b" in "abc" is found at 1 by the intended scan and missed as written. |
| Construct.FromBytesRepeatCapac | src/xtr_from.c:90-108 | Succeeds exactly when the allocation is granted, the bytes are present or empty, and `max(reps*len, at_least)` fits. The content is `reps` copies of the bytes, and the capacity is that maximum. |
| Construct.RepeatGuardMissesWrap | src/xtr_from.c:97-98 | A repetition count whose product wraps past `SIZE_MAX` still passes the source's overflow test. The model refuses it. |
| Construct.FromBytes | src/xtr_from.c:66-71 | An xtring holding exactly the given bytes, with capacity equal to their length. NULL with a non-zero length is refused. |
| Construct.FromBytesCapac | src/xtr_from.c:74-79 | The same bytes, with capacity at least the requested one. |
| Construct.FromBytesRepeat | src/xtr_from.c:82-87 | The bytes repeated `reps` times, with capacity equal to the total length. |
| Construct.FromStr | src/xtr_from.c:38-41 | The C string's bytes, or an empty xtring for NULL. Capacity equals the length. |
| Construct.FromStrCapac | src/xtr_from.c:44-47 | The C string's bytes, with capacity `max(length, at_least)`. |
| Construct.FromStrRepeat | src/xtr_from.c:50-53 | The C string repeated `reps` times. |
| Construct.FromStrRepeatCapac | src/xtr_from.c:56-63 | The C string repeated `reps` times, with capacity `max(total, at_least)`. |
| Construct.FromByte | src/xtr_from.c:111-114 | A one-byte xtring. |
| Construct.FromByteRepeat | src/xtr_from.c:117-120 | `len` copies of the byte. |
| Construct.FromByteRepeatCapac | src/xtr_from.c:123-131 | `len` copies of the byte, with capacity `max(len, at_least)`. |
| Construct.FromByteIsGeneralRule | src/xtr_from.c:123-131 | Repeating one byte is the general repeated-bytes constructor applied to a one-byte array. |
| Construct.Zeros | src/xtr_from.c:134-145 | `len` zero bytes, with capacity `len`. |
| Construct.ZerosIsGeneralRule | src/xtr_from.c:134-145 | `xtr_zeros` agrees with repeating the zero byte through the general constructor. |
| Construct.NewFromC | src/xtr_new.c:70-79 | A copy of a non-NULL C string. NULL is refused. |
| Construct.NewFromCEnsure | src/xtr_new.c:82-92 | A copy of the C string with capacity at least the requested one. |
| Construct.NewFill | src/xtr_new.c:95-102 | `len` copies of a byte. |
| Construct.NewFromIsGeneralRule | src/xtr_new.c:70-102 | The `xtr_new_*` constructors agree with the corresponding `xtr_from_*` ones. |
| Construct.Clone | inc/xtr.h:409-416 | A clone is an identical xtring: same content and same capacity. |
| Construct.CloneLosesCapacity | src/xtr_clone.c:35-39 | As written, the clone's capacity shrinks to the content length. |
| Construct.Expanded | src/xtr_clone.c:42-46 | A copy with the same content and capacity `max(length, at_least)`. |
| Construct.Expand | src/xtr_clone.c:49-57 | On success the handle is replaced by the expanded copy with unchanged content. On failure the handle is untouched. |
| Access.Length | src/xtr_get.c:35-39 | The content length, or 0 for NULL. |
| Access.Capacity | src/xtr_get.c:42-46 | The capacity, or 0 for NULL. |
| Access.Available | src/xtr_get.c:49-53 | The free space never exceeds the capacity. |
| Access.LengthAvailableCapacity | src/xtr_get.c:35-53 | Length plus available space is the capacity, which is bounded by `XTR_MAX_CAPACITY`. |
| Access.Last | src/xtr_get.c:70-74 | The last byte exists exactly when the xtring is non-empty, and it is the byte at the last index. |
| Access.At | src/xtr_get.c:85-89 | A byte is returned exactly for in-range indices, and it is the content byte at that index. |
| Access.LastIsAtLastIndex | src/xtr_get.c:70-89 | `last` is `at(length - 1)`. |
| Access.Slice | src/xtr_get.c:98-115 | The slice is the content between `start` and `min(end, length)`, byte for byte. It is empty when the range is empty. |
| Access.SliceSplit | src/xtr_get.c:98-115 | Adjacent slices concatenate to the covering slice, and the full range slices out the whole content. |
| Access.IsEmpty | src/xtr_unarycmp.c:34-38 | True exactly when the length is 0, which covers NULL. |
| Access.IsZeros | src/xtr_unarycmp.c:41-49 | True exactly for non-empty xtrings whose bytes are all zero. |
| Access.IsZerosConsttime | src/xtr_unarycmp.c:52-61 | The same answer as `IsZeros`, computed over every byte. |
| Access.IsNotZeros | src/xtr_unarycmp.c:64-72 | True exactly for non-empty xtrings with some non-zero byte. |
| Access.IsNotZerosConsttime | src/xtr_unarycmp.c:75-84 | The same answer as `IsNotZeros`, computed over every byte. |
| Access.IsSpaces | src/xtr_unarycmp.c:87-95 | True exactly for non-empty xtrings made only of whitespace. |
| Compare.CmpLength | src/xtr_cmp.c:35-43 | 0 for equal lengths or two NULLs, ±1 when only one side is NULL, ±2 by which side is shorter. |
| Compare.CmpLengthAntisymmetric | src/xtr_cmp.c:35-43 | Swapping the arguments negates the result. |
| Compare.IsEqualLength | src/xtr_cmp.c:45-49 | True exactly when both are NULL or both are present with equal lengths; NULL and an empty xtring are not of equal length. |
| Compare.MemCmp | src/xtr_cmp.c:52-71 | The sign of `memcmp` is 0 exactly for equal bytes. |
| Compare.MemCmpFirstDifference | src/xtr_cmp.c:52-71 | The sign of `memcmp` is decided by the first differing byte, compared as unsigned. |
| Compare.MemCmpAntisymmetric | src/xtr_cmp.c:52-71 | Swapping the arguments negates the sign. |
| Compare.Cmp | src/xtr_cmp.c:52-71 | 0 exactly for equal content or two NULLs. ±1 for one NULL. ±2 when one content is a proper prefix of the other. ±3 otherwise. |
| Compare.CmpFirstDifference | src/xtr_cmp.c:52-71 | When the contents differ inside the shorter length, the first differing byte decides between -3 and 3. |
| Compare.CmpAntisymmetric | src/xtr_cmp.c:52-71 | Swapping the arguments negates the result. |
| Compare.IsEqual | src/xtr_cmp.c:74-80 | True exactly when both are NULL or the contents are equal, i.e. exactly when `Cmp` is 0. |
| Compare.IsEqualConsttime | inc/xtr.h:700-713 | The constant-time equality gives the same answer as `IsEqual`. |
| Compare.IsEqualConsttimeAsWritten | src/xtr_cmp.c:83-94 | As written, two distinct same-length xtrings are "equal" exactly when no position holds equal bytes. |
| Compare.IsEqualConsttimeInverted | src/xtr_cmp.c:91 | "a" vs "a" is reported unequal and "a" vs "b" equal. |
| Compare.StartsWith | inc/xtr.h:715-734 | True exactly when the content is the prefix followed by something, or both are NULL. |
| Compare.EndsWith | inc/xtr.h:736-756 | True exactly when the content is something followed by the suffix, or both are NULL. |
| Compare.PrefixSuffixExamples | inc/xtr.h:715-756 | The header's examples: "abcdef" starts with "abc" and ends with "def", not with "fed". |
| Compare.StartsWithSelf | inc/xtr.h:715-756 | Every xtring starts and ends with itself. |
| Resize.Resize | src/xtr_resize.c:55-75 | A new length below the content length truncates in place and keeps the capacity. Otherwise a copy of the content is made with the requested capacity, when the allocation is granted and the capacity fits. |
| Resize.ResizeKeepsPrefix | src/xtr_resize.c:55-75 | A successful resize keeps the first `min(new, length)` content bytes. |
| Resize.ResizeFree | src/xtr_resize.c:78-90 | Same result as `Resize`. The handle takes the result on success and stays valid on failure. |
| Resize.ResizeFreeLosesHandleOnFailure | src/xtr_resize.c:84-89 | As written, a refused allocation frees the caller's xtring and leaves its handle NULL. |
| Resize.ResizeFreeDouble | src/xtr_resize.c:93-105 | Doubles the capacity to twice the length and keeps the content, unless doubling overflows or allocation fails. On failure the handle is untouched. |
| Resize.DoublingWrapIsExact | src/xtr_resize.c:99-103 | The source's `2*used < used` test detects exactly the doublings that overflow. |
| Resize.CompressFree | src/xtr_resize.c:108-121 | Only when there is free space, replaces the handle by a copy whose capacity is the length. Otherwise nothing changes. |
| Resize.CompressFreeDropsResult | src/xtr_resize.c:115-120 | As written, the compacted copy is returned but the caller's handle is left NULL. |
| Resize.Ensure | src/xtr_resize.c:35-42 | The result has the same content and capacity `max(length, len)`, so `len` bytes fit. |
| Resize.EnsureTruncates | src/xtr_resize.c:35-42 | As written, `XTR_MIN` truncates the content instead of reserving room. |
| Resize.EnsureFree | src/xtr_resize.c:45-52 | Same result as `Ensure`. The handle takes the result on success and stays valid on failure. |
| Decrease.Clear | src/xtr_decrease.c:35-44 | Empties the content and keeps the capacity. |
| Decrease.TruncateHead | src/xtr_decrease.c:47-57 | Drops the first `min(n, length)` bytes, so the dropped bytes followed by the result give back the original. Capacity is kept. |
| Decrease.TruncateTail | src/xtr_decrease.c:60-72 | Drops the last `min(n, length)` bytes, so the result followed by the dropped bytes gives back the original. Capacity is kept. |
| Decrease.ClearIsTruncateAll | src/xtr_decrease.c:35-72 | Truncating at least the whole length from either end is clearing. |
| Decrease.TruncateHeadInPlace | src/xtr_decrease.c:47-57 | The in-place implementation is the abstract `TruncateHead`: a secure move of the tail to the front, then a new length. |
| Decrease.PopHead | src/xtr_decrease.c:96-112 | The popped head and the remaining xtring concatenate to the original. The popped part has `min(n, length)` bytes and a tight capacity. |
| Decrease.PopTail | src/xtr_decrease.c:75-93 | The remaining xtring and the popped tail concatenate to the original. The popped part has `min(n, length)` bytes and a tight capacity. |
| Decrease.PopHeadExample | inc/xtr.h:784-802 | The header's example: popping 3 from "Hello world!" gives "Hel" and leaves "lo world!". |
| Decrease.KeptBeforeTail | src/xtr_decrease.c:115-143 | The length left after removing the maximal trailing run of trim bytes. |
| Decrease.TrimmedHeadLength | src/xtr_decrease.c:146-172 | The length of the maximal leading run of trim bytes. |
| Decrease.TrimTail | src/xtr_decrease.c:115-143 | The result is a prefix of the content, every removed byte is a trim byte, and the new last byte is not. |
| Decrease.TrimHead | src/xtr_decrease.c:146-172 | The result is a suffix of the content, every removed byte is a trim byte, and the new first byte is not. |
| Decrease.Trim | src/xtr_decrease.c:175-179 | The result is a slice `c[h..k]` of the content with only trim bytes before `h` and after `k`, and neither its first nor its last byte is a trim byte, so the maximal runs at both ends are removed. Capacity is kept. |
| Decrease.TrimTailFixed | src/xtr_decrease.c:115-143 | Content that does not end in a trim byte is left unchanged. |
| Decrease.TrimHeadFixed | src/xtr_decrease.c:146-172 | Content that does not start with a trim byte is left unchanged. |
| Decrease.TrimIdempotent | src/xtr_decrease.c:175-179 | Trimming twice is trimming once. |
| Decrease.TrimTailIdempotent | src/xtr_decrease.c:115-143 | Trimming the tail twice is trimming it once. |
| Decrease.TrimHeadIdempotent | src/xtr_decrease.c:146-172 | Trimming the head twice is trimming it once. |
| Decrease.TrimTailLengthAsWritten | src/xtr_decrease.c:115-143 | As written, the new length is one less than the kept length, and it wraps to `SIZE_MAX` when everything is trimmed. |
| Decrease.TrimTailDropsOneMore | src/xtr_decrease.c:115-143 | The header's "Hello world!" example loses one kept byte as written, and "abc" loses its "c" with nothing to trim. |
| Decrease.TruncatePrefix | src/xtr_decrease.c:201-216 | When the content starts with the prefix, the prefix followed by the result is the original. Otherwise the xtring is unchanged. |
| Decrease.TruncateSuffix | src/xtr_decrease.c:183-198 | When the content ends with the suffix, the result followed by the suffix is the original. Otherwise the xtring is unchanged. |
| Decrease.Truncated | src/xtr_decrease.c:219-237 | A new xtring holding the first `min(at_most, length)` bytes, with a tight capacity. |
| Decrease.TruncatedIsTruncateTail | src/xtr_decrease.c:219-237 | The truncated copy has the content of truncating the tail in place. |
| Decrease.Truncate | src/xtr_decrease.c:240-254 | Same result as `Truncated`. The handle takes the result on success and stays valid on failure. |
| Increase.SumWrapIsExact | src/xtr_increase.c:135-137 | `xtr_merge`'s test, the wrapped sum lying below either length, fires exactly when the sum overflows, and otherwise the wrapped sum is the true sum. |
| Increase.Merge | src/xtr_increase.c:132-144 | A new xtring holding the first content followed by the second, when both exist and the total fits. |
| Increase.Concat | inc/xtr.h:1056-1066 | Both contents concatenated into an xtring of exactly that length. Refused for NULL inputs, overflow or a refused allocation. |
| Increase.ConcatSelf | inc/xtr.h:1056-1077 | Concatenating an xtring with itself is repeating it twice. |
| Increase.RepeatRaw | src/xtr_increase.c:102-114 | The part repeated `reps` times, refused when the total does not fit. Zero repetitions give an empty xtring, as documented for `xtr_repeated`. |
| Increase.RepeatRawAsWritten | src/xtr_increase.c:102-114 | As written, zero repetitions of a non-empty part give NULL. A result the code does make is the model's. A wrapped product that passes the test leaves an allocation smaller than the `reps * part_len` bytes the copy loop writes. |
| Increase.RepeatZeroRefusedAsWritten | src/xtr_increase.c:104-105 | For every non-empty part, 0 repetitions give NULL as written and an empty xtring in the model. |
| Increase.RepeatZeroExample | inc/xtr.h:1068-1077 | "ab" repeated 0 times: NULL as written, an empty xtring as documented. |
| Increase.RepeatRawAsWrittenAgrees | src/xtr_increase.c:102-114 | With at least one repetition and no wrap, the code as written gives the model's result. |
| Increase.RepeatWrapOverrunsAsWritten | src/xtr_increase.c:104-111 | A 2^33-byte part repeated 2^32 + 1 times wraps to 2^33, passes the test and gets a 2^33-byte allocation that the copy loop overruns. The model refuses it. |
| Increase.NewRepeat | src/xtr_increase.c:117-122 | A non-NULL C string repeated `reps` times. |
| Increase.Repeated | src/xtr_increase.c:125-129 | The content repeated `reps` times. |
| Increase.RepeatedTwiceIsConcat | inc/xtr.h:1056-1077 | Repeating twice agrees with concatenating the xtring with itself. |
| Increase.ExtendRaw | src/xtr_increase.c:36-50 | On success the handle holds the old content followed by `reps` copies of the part. Otherwise it is unchanged. |
| Increase.ExtendRawOverwrites | src/xtr_increase.c:36-50 | As written, the copies are written from offset 0 over the old content. Appending "c" to "ab" gives "cb" followed by junk. |
| Increase.Extend | src/xtr_increase.c:53-58 | On success the handle holds the old content followed by the extension. Otherwise it is unchanged. |
| Increase.ExtendMany | src/xtr_increase.c:61-66 | The same, with the extension repeated `reps` times. |
| Increase.ExtendFrom | src/xtr_increase.c:69-74 | The same, with a C string as the extension. |
| Increase.ExtendFromMany | src/xtr_increase.c:77-83 | The same, with a C string repeated `reps` times. |
| Increase.Append | src/xtr_increase.c:86-90 | On success the handle holds the old content followed by the byte. Otherwise it is unchanged. |
| Increase.AppendMany | src/xtr_increase.c:93-98 | On success the handle holds the old content followed by `reps` copies of the byte. |
| Increase.ExtendAgreesWithConcat | src/xtr_increase.c:53-58 | Extending in place gives exactly `Concat` when that succeeds, and leaves the handle when it fails. |
| Increase.PushHead | inc/xtr.h:1081-1094 | Without reallocating, prepends the whole extension when it fits in the free space and reports its length. Otherwise nothing changes and 0 is reported. |
| Increase.PushTail | inc/xtr.h:1096-1109 | Without reallocating, appends the whole extension when it fits in the free space and reports its length. Otherwise nothing changes and 0 is reported. |
| Increase.PushCountsBytes | inc/xtr.h:1081-1109 | The reported count is exactly how much the content grew. |
| Increase.ExtendHead | inc/xtr.h:1111-1124 | Prepends the extension, in place when it fits and by reallocation otherwise. On failure the handle is untouched. |
| Increase.ExtendTail | inc/xtr.h:1126-1139 | Appends the extension, in place when it fits and by reallocation otherwise. On failure the handle is untouched. |
| Reverse.Reversed | src/xtr_reverse.c:36-47 | A new xtring whose byte `i` is the original's byte `length-1-i`, with a tight capacity. |
| Reverse.ReversedTwice | inc/xtr.h:961-968 | Reversing twice gives back the content. |
| Reverse.ReverseInPlace | inc/xtr.h:970-976 | Swapping from both ends up to the middle leaves the reversed content and the same capacity. |
| Reverse.ReverseAsWrittenUndoesItself | src/xtr_reverse.c:50-60 | As written, the loop swaps over the whole length, so "ab" comes back as "ab". |
| Search.FindIn | src/xtr_search.c:48-57 | NOT_FOUND for empty inputs or an out-of-range window. Otherwise the result is the first offset whose whole match lies in `[start, end)`, and NOT_FOUND exactly when there is none. |
| Search.WindowSearch | src/xtr_search.c:48-57 | Searching the sub-window `[start, end)` and shifting the result by `start` finds the first match inside the window. |
| Search.FindInAsWritten | src/xtr_search.c:53 | As written, any `end` at or past the length is rejected. |
| Search.FindAsWrittenNeverFinds | src/xtr_search.c:36-57 | As written, `xtr_find` passes `end = length` to that guard and so finds nothing, while "b" is at 1 in "abc". |
| Search.Find | src/xtr_search.c:36-39 | The first offset where the needle occurs, and NOT_FOUND exactly when it occurs nowhere or either input is empty. |
| Search.FindFrom | src/xtr_search.c:42-45 | The first occurrence at or after `start`, and NOT_FOUND when there is none from there. |
| Search.FindExample | inc/xtr.h:1002-1013 | "b" is found at offset 1 of "abc". |
| Search.FindIsFirstMatch | inc/xtr.h:1002-1013 | For non-empty inputs, `Find` succeeds exactly when the needle occurs somewhere, and it returns an offset inside the content. |
| Search.Contains | src/xtr_search.c:60-63 | True exactly when `Find` succeeds, and then the needle occurs at the found offset. |
| Search.MatchesFrom | src/xtr_search.c:66-88 | The occurrences a left-to-right scan finds are matches in increasing order that do not overlap. |
| Search.MatchesFromComplete | src/xtr_search.c:73-86 | No occurrence is missed: every match at or after the start begins inside one of the listed matches, so none lies in a gap between them. |
| Search.MatchesFit | src/xtr_search.c:66-88 | Non-overlapping matches fit side by side in the content. |
| Search.Occurrences | src/xtr_search.c:66-88 | 0 for empty inputs. Otherwise the number of non-overlapping matches, which times the needle length is at most the content length. |
| Search.OccurrencesIffContains | inc/xtr.h:979-1000 | There is at least one occurrence exactly when the needle is contained. |
| Search.FirstMatchInSuffix | src/xtr_search.c:75-76 | Searching the suffix from `prev` finds the first match of the whole content at or after `prev`, shifted by `prev`, and fails exactly when there is none. |
| Search.MatchesFromResume | src/xtr_search.c:75-82 | A scan resuming just after the k-th listed match finds the next listed match first, and finds nothing after the last. |
| Search.NextMatch | src/xtr_search.c:75-76 | The `memmem` over the window of `remaining` bytes from `prev`, after k listed matches, fits the window and lands on the next listed match; it fails exactly when all were passed. |
| Search.CountMatches | src/xtr_search.c:73-86 | The do-while loop, shrinking the window to end at the content's end after each match, counts exactly the listed non-overlapping matches. |
| Search.OccurrencesScan | src/xtr_search.c:66-88 | 0 for empty inputs, otherwise the scan's count, which equals `Search.Occurrences`: the number of non-overlapping matches. |
| Search.OccurrencesWindowOverruns | src/xtr_search.c:81 | As written, the next window reaches twice the needle length past the end of the content. |
| Search.OccurrencesWindowExample | src/xtr_search.c:81 | For "aa" in "aa", the window after the first match is 4 bytes as written instead of 0. |
| Search.OccurrencesExample | inc/xtr.h:979-988 | "aa" occurs twice in "aaaa". |
| Search.OccurrencesOverlapExample | inc/xtr.h:979-988 | "aa" occurs once in "aaa", because matches do not overlap. |
| Split.ChunksFrom | src/xtr_split.c:37-89 | Cutting at every occurrence gives one more piece than there are occurrences. |
| Split.JoinChunks | src/xtr_split.c:37-89 | Joining the pieces with the separator gives back the content. |
| Split.ChunksHoldNoSeparator | src/xtr_split.c:37-89 | No piece contains the separator. |
| Split.ChunksCutAtMatches | src/xtr_split.c:52-71 | The pieces are cut exactly at the listed occurrences: the first from the start to the first occurrence, each middle one from the end of one occurrence to the start of the next, the last from the end of the last occurrence to the end. |
| Split.UncutWithoutMatch | src/xtr_split.c:45-50 | With no occurrence the single piece is the whole haystack, which is the cut the occurrence list describes. |
| Split.Split | src/xtr_split.c:37-89 | Some exactly for a count pointer, two non-NULL inputs and a granted allocation. On success there is one piece more than the occurrences, and the pieces join back to the haystack. Each piece is the bytes between consecutive listed occurrences of a non-empty separator. With no occurrence the single piece is the haystack. |
| Split.SplitExample | src/xtr_split.c:37-89 | "a,,b" split at "," gives "a", "" and "b". |
| Split.ChunksOf | src/xtr_split.c:92-118 | The chunks concatenate to the content. All but the last have the chunk length, and the last is non-empty and no longer. |
| Split.ChunkCountWrapIsExact | src/xtr_split.c:95-96 | The source's overflow test on the chunk count fires exactly when `used + chunk_len - 1` wraps. |
| Split.SplitEvery | src/xtr_split.c:92-118 | The chunks concatenate to the content, all but the last are `chunk_len` long, and their number is the rounded-up quotient. NULL, empty, zero chunk length and overflow are refused. |
| Split.LastChunkExample | src/xtr_split.c:107-108 | As written, the last chunk of "abc" cut every 2 is "b", where the intended one is "c". |
| Hex.DigitValue | src/xtr_hex.c:39-78 | A byte has a hex value exactly when it is 0-9, A-F or a-f. |
| Hex.Digit | inc/xtr.h:1142-1155 | The digit written for a nibble reads back as that nibble, and is never a terminator or an "x". |
| Hex.Nibbles | src/xtr_hex.c:57-72 | Joining a byte's high and low nibble gives back the byte. |
| Hex.Parse | src/xtr_hex.c:39-78 | A successful parse only appends to what was decoded, at most one byte per two characters. |
| Hex.FromHex | inc/xtr.h:1157-1176 | NULL text decodes to nothing, and a decoding has at most half as many bytes as the text. |
| Hex.Encode | inc/xtr.h:1142-1155 | The hex text is empty exactly for empty input, and contains no zero byte when the separator has none. |
| Hex.EncodeLength | inc/xtr.h:1142-1155 | The text has two digits per byte, with one separator between neighbouring bytes. |
| Hex.ToHex | inc/xtr.h:1142-1155 | The encoding of the content, in a tightly sized xtring, when it fits and is granted. |
| Hex.ParseSkips | src/xtr_hex.c:47-56 | Separator bytes before the text change nothing. |
| Hex.ParseByte | src/xtr_hex.c:57-72 | Two digits produced for a byte parse back to that byte. |
| Hex.DecodeEncode | src/xtr_hex.c:39-78 | Parsing the encoding of any bytes with a skippable separator yields exactly those bytes. |
| Hex.FromHexToHex | inc/xtr.h:1142-1176 | `from_hex` inverts `to_hex` for any bytes, either case and any separator it skips. |
| Hex.ToHexExample | inc/xtr.h:1142-1155 | {13, 1, 130} encodes as "0D0182". |
| Hex.FromHexSpacedExample | inc/xtr.h:1157-1176 | "0x0D 01 82" decodes to {13, 1, 130}. |
| Hex.Pairs | src/xtr_hex.c:61-72 | Byte `i` of the decoding has digit `2i` as its high nibble and digit `2i + 1` as its low nibble. |
| Hex.ParseDigits | src/xtr_hex.c:39-78 | For every text, pending nibble and decoded prefix, the parser gives exactly the digit pairs appended, when the text holds only digits and separators and the digit count is even, and None otherwise. |
| Hex.FromHexDigits | src/xtr_hex.c:39-78 | `from_hex` succeeds exactly on texts of separators and an even number of digits, and yields their pairs as bytes. |
| Hex.DigitsRejectStray | src/xtr_hex.c:57-60 | Any byte that is not a separator, a digit or the 'x'/'X' of a prefix leaves no digit list. |
| Hex.FromHexRejectsStray | src/xtr_hex.c:57-60 | For every text, one stray byte anywhere makes `from_hex` fail. |
| Hex.FromHexRejectsOdd | src/xtr_hex.c:75 | For every text, an odd number of digits makes `from_hex` fail. |
| Hex.FromHexRejects | src/xtr_hex.c:57-75 | Examples: "0G" and "1D1" are refused. |
| Hex.ParseAsWrittenMissesZeroHighNibble | src/xtr_hex.c:61-65 | As written, "0D" is refused although it is the byte 13. |
| Hex.ParseAsWrittenMissesTrailingZero | src/xtr_hex.c:75 | As written, "120" is accepted as {0x12} although it has an odd number of digits. |
| Base64.B64Int | src/xtr_base64.c:40-56 | Every byte maps to at most 64, and to exactly 64 for the padding character. |
| Base64.Symbol | src/xtr_base64.c:33-36 | The symbol for a 6-bit value maps back to it and is never padding. |
| Base64.Quad | src/xtr_base64.c:67-73 | Three bytes encode as four non-padding symbols. |
| Base64.TripleQuad | src/xtr_base64.c:67-89 | Decoding the four symbols of a group gives back its three bytes. |
| Base64.TripleAsWritten | src/xtr_base64.c:84-89 | As written, a group's third output byte is never written and keeps the buffer's earlier byte. |
| Base64.TripleAsWrittenMisdecodes | src/xtr_base64.c:86-88 | "TWFu", the encoding of "Man", decodes as written to 0x51 0x71 and an unwritten byte, whatever its fourth symbol, so never to "Man". |
| Base64.Trail | src/xtr_base64.c:108-126 | One or two trailing bytes become a four-symbol group ending in two or one padding characters. |
| Base64.Encode | src/xtr_base64.c:92-129 | The encoding is a whole number of four-symbol groups. |
| Base64.EncodeLength | src/xtr_base64.c:92-129 | The encoding of `n` bytes is `4 * ceil(n / 3)` long. |
| Base64.B64Encode | src/xtr_base64.c:92-129 | On success, the encoding of the content in a tightly sized xtring. |
| Base64.Decode | src/xtr_base64.c:132-151 | Decoding yields three bytes per group, less one per padding character. |
| Base64.B64Decode | src/xtr_base64.c:132-151 | Only a non-NULL text whose length is a multiple of 4 decodes. The result has capacity three bytes per group. |
| Base64.DecodeEncode | src/xtr_base64.c:92-151 | Decoding the encoding of any bytes gives them back. |
| Base64.B64DecodeEncode | src/xtr_base64.c:92-151 | `base64_decode(base64_encode(x))` has the content of `x`. |
| Base64.OneByteExample | src/xtr_base64.c:92-151 | "f" encodes as "Zg==" and decodes back. |
| Base64.TwoByteExample | src/xtr_base64.c:92-129 | "fo" encodes as "Zm8=". |
| Base64.B64DecodeRejectsLength | src/xtr_base64.c:134-135 | Text whose length is not a multiple of 4 is refused. |
| Base64.B64EncodeAsWrittenTooLong | src/xtr_base64.c:94-95 | As written, "fo" gets a 5-byte encoding that base64 decoding then refuses. |
| Utf8.Cont | src/xtr_unicode.c:37-88 | Every byte after the lead is a continuation byte. |
| Utf8.Encode | src/xtr_unicode.c:37-88 | Code points up to 0x7FFFFFFF encode in 1-6 bytes: ASCII as itself, longer forms as a lead byte and continuation bytes. Larger values encode as nothing. |
| Utf8.SkipContinuations | src/xtr_unicode.c:93-98 | The decoder resynchronises at the first byte that is not a continuation. |
| Utf8.Decode | src/xtr_unicode.c:91-135 | An ASCII first byte decodes as itself. |
| Utf8.DecodeSkipsContinuation | src/xtr_unicode.c:93-98 | A stray continuation byte in front changes nothing. |
| Utf8.DecodeSequence | src/xtr_unicode.c:99-128 | A lead byte followed by its continuation bytes decodes to the lead's payload with six bits per continuation. |
| Utf8.DecodeEncode | src/xtr_unicode.c:37-135 | Decoding the encoding of any code point up to 0x7FFFFFFF gives it back, whatever follows. |
| Utf8.DecodeReplacement | src/xtr_unicode.c:112-126 | A lead byte whose announced continuation bytes break off at any position k, from the first to the last announced, decodes to U+FFFD. |
| Utf8.GatherBreaks | src/xtr_unicode.c:112-126 | Gathering n continuation bytes yields U+FFFD when any one of them, not only the first, is not a continuation byte. |
| Utf8.Examples | src/xtr_unicode.c:37-135 | U+00E9 encodes as C3 A9. A broken sequence decodes to U+FFFD, and a stray continuation is skipped. |
| Utf8.EncodeAsWrittenOverlong | src/xtr_unicode.c:44 | As written, U+0400 gets a three-byte overlong form instead of two bytes, and the lenient decoder still reads it. |

## Left out

- `src/xtr_random.c`, `src/xtr.c`, `src/xtr_compare.c` and `src/xtr.h` are not part of this model.
- Version queries, console output and platform detection are not modelled: they are I/O or configuration.
- The raw-pointer accessors are not modelled, because the model has no pointers into an xtring's buffer:
  - `xtr_cstring`, `xtr_bytes`, `xtr_index`;
  - writes through a returned pointer.
- Secure erasure is modelled as zeroing where it changes visible bytes (`Raw.MemmoveSecure`). The `XTR_CLEAR_HEAP` zeroing of bytes that are about to become free space is not modelled.
- Timing is not modelled. The constant-time variants are modelled only by the values they return.
- `isspace` is the "C" locale's set of space, \t, \n, \v, \f and \r. Other locales are not modelled.
- The allocator is the `granted` parameter. One flag decides every allocation of a call, so a failure part-way through a split is not modelled separately.
- The model fixes a 64-bit `size_t`.
- A NULL `xtr_t**` handle (as opposed to a handle holding NULL) is not modelled: the caller's handle is always a variable.
- `xtr_find_all` is declared in the header only. `Split.Split` takes its occurrence list to be the non-overlapping matches `Search.MatchesFrom` lists.
- Split.Split: lines 62, 69 and 77 of `src/xtr_split.c` do not compile. The model cuts each piece where the surrounding code computes it and releases every piece on failure.
- Split.SplitEvery: the source never stores the chunks it makes into the returned array. The model stores them in order.
- Search.FindIn: the source has no `start < end` test. The model rejects an empty window, which can hold no match anyway.
- Search.Occurrences: the header promises NOT_FOUND for NULL inputs; the code returns 0, and the model follows the code.
- MemSearch.MemMem: the unchecked NULL from `memchr` is not modelled; the intended scan stops when no candidate remains.
- MemSearch.MemMem: an empty needle is found at offset 0, the usual `memmem` answer. As written the source returns NULL for it. Every caller returns before searching for an empty needle, so no modelled operation depends on this.
- Base64.B64Encode: takes an xtring rather than an optional one. The source dereferences its argument without a NULL test, so the model does not describe a NULL input.
- Base64.Decode: decodes by the bit layout the comment over `base64_decode_buffer` draws. The code as written decodes every group wrongly (see Findings). Characters outside the alphabet are not rejected, as in the source.
- Base64.B64Decode: the padding count reads the last two characters, which for empty text lie before the buffer. The model reads no padding from empty text.
- Utf8.Decode: the contract states only the ASCII case. The multi-byte behaviour is stated by `Utf8.DecodeSequence`, `Utf8.DecodeEncode` and `Utf8.DecodeReplacement`.
- Utf8.Decode: the source reads the terminator when a sequence is cut short. The model reads 0 past the end (`Utf8.At`).
- Compare.Cmp: the source returns `memcmp(...) * 3`. The model takes `memcmp` to return exactly -1, 0 or 1, so it promises ±3. A C library may return any negative or positive value, e.g. -6 from glibc, so the source only promises the sign.
- Hex.FromHex: the source decodes in place, overwriting its own input with the bytes, and on failure leaves it partly overwritten. The model returns the decoded bytes as a new sequence and leaves the input unchanged.
- Hex.FromHex: the source returns 0 both for "no digits" and for failure. The model distinguishes an empty decoding (`Some([])`) from a failure (`None`).
- Increase.NewRepeat: zero repetitions of a non-empty C string give an empty xtring. The source returns NULL there (see Findings). `xtr_new_repeat` has no documentation, so the model follows `xtr_repeated`'s.
- Increase.Repeated: zero repetitions of a non-empty xtring give an empty xtring, as inc/xtr.h documents. The source returns NULL (see Findings).
- Hex.ToHex: the header documents `xtr_to_hex` but the implementation is not among the source files. The model follows the header.
- `xtr_is_alpha` and the other character-class predicates are declared in the header only, so they are not modelled.

## Findings

| source | as written | input that shows it | evidently intended | confidence | as-written member | corrected member |
|---|---|---|---|---|---|---|
| src/xtr_utils.c:83-92 | after an overlapping forward move, `zero_out(d, d - s)` erases the start of the destination | memory 01 02 03 00, move 2 bytes from 0 to 1 | erase the source bytes the destination does not cover | high, not executed | Raw.MemmoveSecureAsWritten, Raw.MemmoveForwardClobbersDestination | Raw.MemmoveSecure |
| src/xtr_utils.c:125 | the search loops while `remaining < pattern_len` | "b" in "abc" | loop while the needle still fits | high, not executed | MemSearch.MemMemLoopEntersAsWritten, MemSearch.MemMemAsWrittenSkipsEveryMatch | MemSearch.MemMem |
| src/xtr_from.c:97-98 | overflow is tested as `reps * len < len` on the wrapped product | 2^33 bytes repeated 2^32+1 times | refuse every product above `SIZE_MAX` | high, not executed | Construct.RepeatGuardAsWritten, Construct.RepeatGuardMissesWrap | Construct.FromBytesRepeatCapac |
| src/xtr_clone.c:38 | the clone is built with capacity equal to the length | capacity 10, content "Abcdef" | an identical copy with capacity 10 | medium, not executed | Construct.CloneAsWritten, Construct.CloneLosesCapacity | Construct.Clone |
| src/xtr_cmp.c:91 | `differing` accumulates byte equality | "a" vs "a" as distinct xtrings | accumulate byte inequality | high, not executed | Compare.IsEqualConsttimeAsWritten, Compare.IsEqualConsttimeInverted | Compare.IsEqualConsttime |
| src/xtr_resize.c:84-89 | the old xtring is freed whenever the result differs from it, including NULL | "ab" grown to 8 with the allocation refused | keep the old xtring when the resize fails | high, not executed | Resize.ResizeFreeAsWritten, Resize.ResizeFreeLosesHandleOnFailure | Resize.ResizeFree |
| src/xtr_resize.c:115-120 | the handle is freed and the compacted copy is only returned | capacity 8, content "ab" | store the compacted copy in the handle | medium, not executed | Resize.CompressFreeAsWritten, Resize.CompressFreeDropsResult | Resize.CompressFree |
| src/xtr_resize.c:35-42 | resizes to `XTR_MIN(used, len)` | "abc" ensured for 1 byte | make room for `len` bytes without losing content | high, not executed | Resize.EnsureAsWritten, Resize.EnsureTruncates | Resize.Ensure |
| src/xtr_decrease.c:115-143 | the new length is set to the index of the last kept byte | "abc" trimmed of whitespace | the new length is one past the last kept byte | high, not executed | Decrease.TrimTailLengthAsWritten, Decrease.TrimTailDropsOneMore | Decrease.TrimTail |
| src/xtr_increase.c:36-50 | copies go to offset `i * part_len` and the length is `(used + part_len) * reps` | "ab" extended by "c" once | append after the old content; new length `used + reps * part_len` | high, not executed | Increase.ExtendRawAsWritten, Increase.ExtendRawOverwrites | Increase.ExtendRaw |
| src/xtr_increase.c:104-105 | `total_len < part_len` rejects a product of 0 | "ab" repeated 0 times | an empty xtring, as inc/xtr.h:1073 documents | high, not executed | Increase.RepeatRawAsWritten, Increase.RepeatZeroRefusedAsWritten | Increase.RepeatRaw |
| src/xtr_increase.c:104-111 | `total_len < part_len` on the wrapped product lets some wrapped products through, and the copy loop then writes past the allocation | 2^33 bytes repeated 2^32+1 times | refuse every product above `SIZE_MAX` | high, not executed | Increase.RepeatRawAsWritten, Increase.RepeatWrapOverrunsAsWritten | Increase.RepeatRaw |
| src/xtr_reverse.c:50-60 | the swap loop runs over the whole length | "ab" | swap only up to the middle | high, not executed | Reverse.ReverseAsWritten, Reverse.ReverseAsWrittenUndoesItself | Reverse.ReverseInPlace |
| src/xtr_search.c:53 | `end >= used` is rejected, and `xtr_find` passes `end = used` | "b" in "abc" | accept `end == used` | high, not executed | Search.FindInAsWritten, Search.FindAsWrittenNeverFinds | Search.FindIn |
| src/xtr_search.c:81 | the window shrinks by `gap - pattern_len` | "aa" in "aa" | shrink by `gap + pattern_len` | high, not executed | Search.OccurrencesRemainingAsWritten, Search.OccurrencesWindowOverruns | Search.OccurrencesScan |
| src/xtr_split.c:107-108 | the last chunk is cut from offset `used - chunk_len` | "abc" every 2 | cut it from `chunk_idx * chunk_len` | high, not executed | Split.LastChunkAsWritten, Split.LastChunkExample | Split.SplitEvery |
| src/xtr_hex.c:61-65 | the first digit of a pair is told apart by `byte & 0xF0` | "0D" | track whether a high nibble is pending | high, not executed | Hex.ParseAsWritten, Hex.ParseAsWrittenMissesZeroHighNibble | Hex.Parse |
| src/xtr_hex.c:75 | a dangling digit is detected by `byte != 0` | "120" | refuse an odd number of digits | high, not executed | Hex.ParseAsWritten, Hex.ParseAsWrittenMissesTrailingZero | Hex.FromHex |
| src/xtr_base64.c:94-95 | the encoded length is `(used + 2) * 4 / 3` | "fo" | `4 * ((used + 2) / 3)` | high, not executed | Base64.B64EncodeAsWritten, Base64.B64EncodeAsWrittenTooLong | Base64.B64Encode |
| src/xtr_base64.c:86-88 | the symbols' ASCII codes are shifted without `b64_int`, the third byte is stored at `decoded[3]` and the fourth symbol is never read | "TWFu" | "Man", the three bytes the group encodes | high, not executed | Base64.TripleAsWritten, Base64.TripleAsWrittenMisdecodes | Base64.Triple, Base64.TripleQuad |
| src/xtr_unicode.c:44 | the two-byte form is chosen up to 0x3FF | U+0400 | the two-byte form up to 0x7FF | high, not executed | Utf8.EncodeAsWritten, Utf8.EncodeAsWrittenOverlong | Utf8.Encode |
