# ustring in Dafny

A model of the core of ustring, a small C library of growable ASCII strings
(`str_t`) and owning lists of them (`str_list_t`), with proofs of what its
operations do.

- `wrappers.dfy`: module `Wrappers`, the `Option` type. `None` stands for a
  NULL pointer.
- `str_p.dfy`: module `StrPrivate`, the private header `src/str_p.h` and the
  private helpers of `src/str.c`.
  - Bytes are a `byte` newtype over 0..255. The byte classes and the case
    maps read a `char` through `unsigned char`. Every other comparison in the
    source is an equality of two `char`s, which does not depend on whether
    `char` is signed.
  - A `const char*` argument is a `CStr`: `None` for NULL, otherwise the bytes
    it points at. Its text (`Literal`) ends at the first NUL.
  - Also here: the constants, the byte classes `__is_blank`, `__is_ascii` and
    `__is_letter`, and `__str_literal_len`, `__str_literal_contains`,
    `__to_lower` and `__to_upper`.
- `str.dfy`: module `Strings`, the buffer `str_t` of `src/str.c` as the class
  `Str`.
  - The class has the fields of `struct __str`: `buf`, `len` and `cap`.
  - `Valid()` is the invariant every operation keeps. The storage is `cap`
    bytes long. Capacity 0 means no storage and no content. Otherwise
    `len < cap`, a terminator sits at `len`, and the content is ASCII without
    NUL bytes.
  - Constructors and the in-place mutators are methods with `modifies`
    clauses. Their loops are proved against specification functions:
    - `Grown` is the doubling of the capacity.
    - `Normalized` replaces non-ASCII bytes with `'?'`.
    - `Trimmed` drops the leading and trailing blank runs.
    - `Lowered` and `Uppered` map letter case.
  - The read-only queries are functions of the content they read, with `None`
    for a NULL handle.
- `str_list.dfy`: module `StrLists`, the list `str_list_t` of
  `src/str_list.c` as the class `StrList`.
  - The class has a slot array `buf`, `size` and `cap`.
  - Split and join are first stated over byte sequences. `Fields` gives the
    maximal runs of non-delimiter bytes. `Joined` puts a separator between
    neighbours. The methods `Split`, `SplitWhitespace` and `Join` build real
    lists and buffers and are proved against these two functions.

Where a header comment and the code disagree, the model follows the code:

- `str_contains` does not implement the substring test its header promises
  for patterns longer than one byte (see Findings).
- `str_trim` counts form feed (0x0C) as blank. Its header and the delimiter
  set of `str_split_whitespace` do not (`FormFeedIsBlankButNotWhitespace`).
- The header of `str_is_empty` says a NULL handle is not empty. The code
  answers true for NULL (`Strings.IsEmpty`).
- The header of `str_list_is_empty` says it answers true for a list with at
  least one element, and 0 for an empty or NULL list. The code answers true
  exactly for NULL or size 0 (`StrLists.IsEmpty`).
- The example in the header of `str_split` splits " .One, Two; Three" on
  " ,;" into "One", "Two" and "Three". The '.' is not a delimiter, so the code
  gives ".One" as the first field (`SplitHeaderExample`).

## Model

| member | source | states |
|---|---|---|
| StrPrivate.IsBlank | src/str_p.h:31-35 | blank exactly for 0x20 and 0x09..0x0D, form feed included |
| StrPrivate.IsAscii | src/str_p.h:43-45 | ASCII exactly below 0x80; every letter and every blank is ASCII |
| StrPrivate.IsLetter | src/str_p.h:53-58 | a letter exactly when upper or lower case; no letter is NUL or blank |
| StrPrivate.ToLower | src/str.c:423-427 | an upper-case letter moves up by the case shift; every other byte stays; the result is never upper case and a letter iff the input is |
| StrPrivate.ToUpper | src/str.c:429-433 | a lower-case letter moves down by the case shift; every other byte stays; the result is never lower case and a letter iff the input is |
| StrPrivate.ToLowerIdempotent | src/str.c:423-427 | lower-casing twice is lower-casing once |
| StrPrivate.ToUpperIdempotent | src/str.c:429-433 | upper-casing twice is upper-casing once |
| StrPrivate.LowerOfUpper | src/str.c:423-433 | lower-casing forgets an earlier upper-casing, and the other way round |
| StrPrivate.LetterIffCasesDiffer | src/str_p.h:53-58 | the letters are exactly the bytes on which the two case maps disagree |
| StrPrivate.Normalize | src/str.c:33 | the stored byte is ASCII: the byte itself when ASCII, '?' otherwise |
| StrPrivate.Normalized | src/str.c:145-147 | same length, byte-wise `Normalize`; NUL-free input gives valid text; valid text is left alone |
| StrPrivate.TerminatorIndex | src/str.c:399-402 | the index of the first NUL, or the length when there is none |
| StrPrivate.LiteralLen | src/str.c:394-405 | 0 for NULL; otherwise the count of non-NUL bytes before the terminator |
| StrPrivate.Literal | src/str.c:394-405 | the text of a C string is a prefix of its bytes, of length `LiteralLen`, without NUL |
| StrPrivate.LiteralOfTerminated | src/str.c:394-405 | NUL-free bytes followed by a terminator (or nothing) read back exactly |
| StrPrivate.LiteralContains | src/str.c:407-421 | true iff the byte occurs in the text; false for NULL, empty text or NUL |
| Strings.Grown | src/str.c:22-26 | the doubled capacity is strictly above the length, never below the start, and the start itself or at most twice the length |
| Strings.GrownIsSmallestDoubling | src/str.c:22-26 | the doubled capacity is `c * 2^k` for the smallest `k` that puts it above the length |
| Strings.Str.Content | src/str_p.h:17-21 | the content is `len` bytes of valid ASCII text |
| Strings.Str.AsPtr | src/str.c:116-118 | NULL exactly when there is no storage; otherwise it reads back as the content |
| Strings.Str.WithCapacity | src/str.c:40-55 | valid, empty, capacity exactly as requested |
| Strings.Str.New | src/str.c:16-38 | content is the text made ASCII; capacity is `Grown(32, len)` (32 for NULL) |
| Strings.Str.Copy | src/str.c:57-78 | same content in fresh storage of capacity `len + 1`; NULL gives empty with capacity 32 |
| Strings.Str.Append | src/str.c:120-152 | content becomes old content plus the text made ASCII; NULL or empty text changes nothing; capacity becomes `Grown(old cap, new len)` |
| Strings.Str.PutNormalized | src/str.c:145-149 | the write loop extends the content by the text made ASCII without touching the capacity |
| Strings.Str.Reallocate | src/str.c:137-142 | new storage of the requested capacity with the same content |
| Strings.Str.Trim | src/str.c:202-231 | content becomes `Trimmed(old content)` in the same storage and capacity |
| Strings.Str.ShiftToFront | src/str.c:218-230 | the bytes between the two scan pointers become the content, moved to the front |
| Strings.Str.Truncate | src/str.c:254-263 | the content becomes its first `n` bytes when longer, otherwise stays; capacity and storage unchanged |
| Strings.Str.ToLowercase | src/str.c:374-382 | content becomes `Lowered(old content)` |
| Strings.Str.ToUppercase | src/str.c:384-392 | content becomes `Uppered(old content)` |
| Strings.Concat | src/str.c:154-200 | fresh buffer holding `a` then `b` (NULL as empty); capacity 32, `len + 1` of the one non-empty side, or `Grown(32, total)` as in the four cases |
| Strings.ConcatBoth | src/str.c:176-199 | both non-empty: content `a ++ b`, capacity `Grown(32, total)` |
| Strings.CopyBytes | src/str.c:189-195 | one copy loop puts the source bytes at the offset and leaves the rest of the destination alone |
| Strings.LeadingBlanks | src/str.c:210-212 | the first scan stops at the first non-blank byte |
| Strings.TrailingBlanks | src/str.c:214-216 | the second scan stops after the last non-blank byte |
| Strings.LeadingBlanksIs | src/str.c:210-212 | a blank run ended by a non-blank byte or the end is the leading run |
| Strings.TrailingBlanksIs | src/str.c:214-216 | a blank run started after a non-blank byte or the start is the trailing run |
| Strings.TrimmedBetween | src/str.c:207-218 | the bytes between the stopped scan pointers are the trimmed text |
| Strings.TrimmedPlace | src/str.c:202-231 | the trimmed text sits unchanged in the input, between an all-blank prefix and an all-blank suffix |
| Strings.TrimmedEnds | src/str.c:202-231 | a non-empty trimmed text starts and ends with a non-blank byte |
| Strings.TrimmedEmptyIffBlank | src/str.c:202-231 | trimming leaves nothing iff every byte is blank |
| Strings.TrimmedIdempotent | src/str.c:202-231 | trimming twice is trimming once |
| Strings.Lowered | src/str.c:379-381 | same length, no upper-case byte left |
| Strings.Uppered | src/str.c:389-391 | same length, no lower-case byte left |
| Strings.CaseMapsAbsorb | src/str.c:374-392 | each case map is idempotent and absorbs an earlier application of the other |
| Strings.CaseMapsKeepText | src/str.c:374-392 | case mapping keeps valid text valid |
| Strings.Len | src/str.c:95-97 | the length, 0 for NULL |
| Strings.IsEmpty | src/str.c:103-105 | true iff NULL or no content, iff the length is 0 |
| Strings.At | src/str.c:107-114 | byte `pos` inside the content, 0 outside it or for NULL |
| Strings.AtZeroIffOutside | src/str.c:107-114 | on a valid buffer the 0 sentinel comes back exactly for positions outside the content |
| Strings.Eq | src/str.c:233-252 | false if either side is NULL, otherwise true iff the contents are equal |
| Strings.StartsWith | src/str.c:320-345 | false on NULL; otherwise true iff the pattern's text is a prefix |
| Strings.EndsWith | src/str.c:347-372 | false on NULL; otherwise true iff the pattern's text is a suffix |
| Strings.SearchFrom | src/str.c:291-307 | the corrected window search finds an occurrence at or after `i` exactly when there is one |
| Strings.Contains | src/str.c:265-310 | corrected: false on NULL; otherwise true iff the pattern's text occurs in the content |
| Strings.FirstByteScan | src/str.c:291-307 | the loop as written answers true iff some window with room for the pattern starts with its first byte |
| Strings.ContainsAsWritten | src/str.c:265-310 | as written: empty pattern true, otherwise true iff the first pattern byte occurs with room for the rest |
| Strings.ContainsAsWrittenShortPatterns | src/str.c:281-289 | for patterns of at most one byte the code agrees with the substring contract |
| Strings.ContainsAsWrittenNeverMisses | src/str.c:291-307 | every real occurrence is reported by the code as written |
| Strings.ContainsAsWrittenFalsePositive | src/str.c:291-307 | "ac" does not contain "ab", yet the code as written answers true |
| Strings.PrefixSuffixAreOccurrences | src/str.c:320-372 | a prefix or a suffix is an occurrence |
| Strings.AppendToItself | src/str.c:120-152 | appending a buffer's own text doubles its content |
| StrLists.StrList.Items | src/str_list_p.h:17-21 | the elements are the first `size` slots |
| StrLists.StrList.WithCapacity | src/str_list.c:20-38 | valid, no elements, capacity exactly as requested, every slot NULL |
| StrLists.StrList.New | src/str_list.c:16-18 | empty list of capacity 32 |
| StrLists.StrList.Push | src/str_list.c:81-92 | NULL changes nothing; otherwise the handle is appended, and the capacity doubles exactly when the list was full |
| StrLists.StrList.Reallocate | src/str_list.c:85-88 | new slot array of the requested capacity with the same elements |
| StrLists.StrList.Pop | src/str_list.c:94-102 | empty gives NULL; otherwise returns and removes the last element and clears its slot |
| StrLists.StrList.Copy | src/str_list.c:40-60 | deep copy: capacity equal to the size; fresh elements in fresh storage, no two sharing a handle or storage, with the same contents and capacity `len + 1`; NULL gives empty with capacity 32 |
| StrLists.CopyElements | src/str_list.c:46-56 | the size becomes the source's; the elements are fresh, pairwise unaliased copies with the same contents and capacity `len + 1` |
| StrLists.FillSlots | src/str_list.c:53-56 | each slot gets a fresh copy of the matching element, no two slots sharing a handle or storage; later slots are untouched |
| StrLists.CopyElement | src/str_list.c:54 | one slot gets a fresh copy sharing nothing with the slots before it; the other slots are untouched |
| StrLists.SlotsHeld | src/str_list.c:53-56 | filled slots read as elements: valid, same contents as the source list, unaliased, capacity `len + 1` |
| StrLists.Size | src/str_list.c:104-106 | the element count, 0 for NULL |
| StrLists.IsEmpty | src/str_list.c:112-114 | true iff NULL or no elements |
| StrLists.At | src/str_list.c:116-123 | element `idx` when inside the list, NULL otherwise |
| StrLists.QueriesAgree | src/str_list.c:104-123 | empty iff size 0 iff no index holds an element |
| StrLists.AnyEqualFrom | src/str_list.c:216-220 | the loop finds an element equal to the query at or after `i` iff there is one |
| StrLists.AnyEmptyFrom | src/str_list.c:209-214 | the loop finds an empty element at or after `i` iff there is one |
| StrLists.Contains | src/str_list.c:200-223 | false on NULL list or query; otherwise true iff some element has the query's bytes |
| StrLists.RunLength | src/str_list.c:148-150 | the run of non-delimiters at the front ends at a delimiter or at the end |
| StrLists.Fields | src/str_list.c:125-169 | every field of a split is non-empty and free of delimiters |
| StrLists.RunLengthIs | src/str_list.c:148-150 | the run length is fixed by its two ends |
| StrLists.FieldsStep | src/str_list.c:148-162 | a maximal non-empty run is the next field |
| StrLists.FieldsSkipDelims | src/str_list.c:143-145 | leading delimiters add no field |
| StrLists.FieldsAround | src/str_list.c:141-166 | a delimiter run separates the fields on its two sides |
| StrLists.FieldsOfField | src/str_list.c:141-166 | a field splits into itself |
| StrLists.FieldsWithoutDelimiters | src/str_list.c:130-134 | with no delimiters the whole text is the one field, or nothing for empty text |
| StrLists.JoinedLength | src/str_list.c:176-181 | the joined text is as long as the elements plus the separator times one less than their count |
| StrLists.TotalLenStep | src/str_list.c:179-181 | one more element adds its length to the running total |
| StrLists.TotalLenPrefix | src/str_list.c:179-181 | a prefix of the elements is no longer in total than all of them |
| StrLists.SeparatorBytesIsProduct | src/str_list.c:177 | the separator bytes are the delimiter length times their count |
| StrLists.SeparatorBytesMonotone | src/str_list.c:177 | fewer separators take no more bytes |
| StrLists.SplitJoinRoundTrip | src/str_list.c:125-192 | splitting text joined by a delimiter run gives the fields back |
| StrLists.KeptOfField | src/str_list.c:125-169 | a delimiter-free text keeps all its bytes |
| StrLists.KeptAppend | src/str_list.c:125-169 | keeping non-delimiters distributes over concatenation |
| StrLists.FieldsKeepEveryOtherByte | src/str_list.c:125-169 | the fields, put together, are exactly the non-delimiter bytes in order |
| StrLists.Split | src/str_list.c:125-169 | fresh list of fresh buffers, each in fresh storage and no two sharing a handle or storage, whose contents are `Fields(content, delimiter text)`; NULL or empty content gives none; no delimiters gives one copy with capacity `len + 1`; chunk capacities are `Grown(32, len)` |
| StrLists.SplitOnDelimiters | src/str_list.c:136-168 | the split loop leaves one valid buffer per field, in order, each fresh in fresh storage, no two sharing either |
| StrLists.ChunksHeldItems | src/str_list.c:136-168 | the buffers the loop leaves are valid, hold the fields and have the capacity `str_new` gives |
| StrLists.SplitStep | src/str_list.c:141-163 | one turn of the loop keeps the earlier elements in their slots, appends at most one fresh buffer in fresh storage holding the next field, keeps the elements unaliased, and moves past the field |
| StrLists.SplitAdvance | src/str_list.c:141-163 | skipping delimiters then taking a maximal run yields that run as the next field |
| StrLists.PushChunk | src/str_list.c:155-161 | the chunk goes through `str_new` into a fresh buffer with fresh storage, pushed at the end; the elements stay unaliased |
| StrLists.ScanField | src/str_list.c:144-152 | the two scans stop past the delimiters and then past the next run; that run is the next field, if not empty |
| StrLists.NewChunk | src/str_list.c:155-161 | `str_new` of the copied chunk gives a fresh buffer holding exactly those bytes, capacity `Grown(32, len)` |
| StrLists.PushHeld | src/str_list.c:161 | pushing a buffer that shares nothing with the elements appends it and keeps them unaliased and holding their chunks |
| StrLists.ChunksHeldAppend | src/str_list.c:161 | one more buffer holding the next chunk extends the held chunks |
| StrLists.UnaliasedAppend | src/str_list.c:161 | appending a buffer that shares nothing with the elements keeps every slot's allocation its own |
| StrLists.SplitWhitespace | src/str_list.c:194-198 | split on space, tab, vertical tab, newline and carriage return, into fresh, pairwise unaliased buffers in fresh storage |
| StrLists.SplitHeaderExample | src/str_list.c:125-169 | " .One, Two; Three" split on " ,;" gives ".One", "Two", "Three" |
| StrLists.SplitHeaderExampleTail | src/str_list.c:125-169 | "Two; Three" split on " ,;" gives "Two", "Three" |
| StrLists.FormFeedIsBlankButNotWhitespace | src/str_list.c:194-198 | trimming removes a lone form feed, splitting on whitespace keeps it |
| StrLists.Join | src/str_list.c:171-192 | fresh buffer holding the elements with the delimiter text made ASCII between neighbours; capacity `len + 1`, or 32 for a NULL or empty list |
| StrLists.JoinedUpToStep | src/str_list.c:184-189 | one turn appends the next element and a separator unless it was the last |
| StrLists.JoinedUpToLength | src/str_list.c:184-189 | before the last element the output is the earlier elements plus one separator each |
| StrLists.JoinedBySeparators | src/str_list.c:176-181 | the joined length equals the precomputed total |
| StrLists.JoinBudget | src/str_list.c:183-189 | the output never exceeds the precomputed total, so the appends never reallocate |
| StrLists.TotalLength | src/str_list.c:176-181 | the first loop computes the element lengths plus the separator bytes |
| StrLists.SeparatorTotal | src/str_list.c:176-177 | the product of delimiter length and count is the separator byte count |
| StrLists.AppendElements | src/str_list.c:184-189 | the second loop writes `Joined(contents, separator)` into the same storage |
| StrLists.AppendElement | src/str_list.c:185-188 | one element, then the separator when more follow, appended in place |
| StrLists.PushThenPop | src/str_list.c:81-102 | push then pop returns the pushed handle and restores the elements |
| StrLists.ThirdPushDoublesCapacity | src/str_list.c:85-88 | a list of capacity 2 grows to 4 on the third push |

## Left out

- `str_drop` and `str_list_drop` (src/str.c:80-93, src/str_list.c:62-79) free memory and clear the caller's pointer. The model has no deallocation.
- `str_shrink_to_fit` (src/str.c:312-318) is only a `realloc` to `len + 1`. It never updates `cap`, so it leaves the struct inconsistent and has no contract to state.
- `str_cap` and `str_list_cap` are plain field reads; the model exposes the `cap` fields directly.
- Functions declared in the headers without a body (`str_clear`, `str_replace`, `str_trim_matches` and the others), and the `int` error codes those headers declare. The implementation returns `void` or the values modelled.
- `size_t` is modelled as an unbounded `nat`. The model does not capture the wrap-around of the doubling `cap *= 2` (src/str.c:25, 134, 181; src/str_list.c:87) or of the length sums `len + string_len` (src/str.c:130) and `total_len` (src/str_list.c:176-181) on lengths near `SIZE_MAX`.
- Allocation failure: `malloc` and `realloc` are treated as total, since the source never checks them.
- A NULL receiver for the mutators (`str_append`, `str_trim`, `str_truncate`, the case maps, `str_list_push`, `str_list_pop`), which the source turns into a no-op. The methods require a receiver.
- Strings.Str.Append: requires `cap > 0` when the text is non-empty. From capacity 0 the source's doubling loop never ends.
- StrLists.StrList.Push: requires `cap > 0` for a non-NULL handle. The source writes past the slot array of a list made by `str_list_with_capacity(0)` or copied from an empty list.
- Strings.Str.Append: the text is a value, so relocation of the source's own storage by `realloc` during a self-append is not modelled. The C code would read freed memory there.
- StrLists.Split: the temporary chunk buffer `new_str_chunk` is modelled as a slice of the content passed to `str_new`.
- StrLists.Split: the source reads the byte at the end bound before testing the bound, relying on the terminator, which is never a delimiter byte. The model tests the bound first, which gives the same results.
- StrLists.Join: the contract speaks of the elements' contents at call time. Elements and result never share storage.

## Findings

| source | as written | input that shows it | evidently intended | confidence | as-written member | corrected member |
|---|---|---|---|---|---|---|
| src/str.c:291-307 | for a pattern of two or more bytes, the first window whose first byte matches answers true, because the inner `continue` only moves to the next pattern byte | content "ac", pattern "ab" | true only when the whole pattern occurs, as the header comment of `str_contains` states | high; not executed | Strings.ContainsAsWritten, Strings.ContainsAsWrittenFalsePositive | Strings.Contains |
