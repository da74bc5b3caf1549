# zero: growable array, aligned allocator and include preprocessor in Dafny

This project models three parts of the `zero` single-header C libraries and
proves properties of them.

- **The generic growable array** of `include/zero/dynamicarray.h`. The
  model covers:
  - the per-type maximum capacity;
  - the 1.5x growth rule;
  - the capacity check;
  - create, reserve, resize, extend, insert, push and trim, with their
    front and back variants.

  An array is a `DynArray(buffer, size)`. The buffer's length is the
  header's `capacity` field, and the contents are the first `size` slots.
  Every editing operation returns a status and the array the caller holds
  afterwards.
- **The aligned allocator** of `include/zero/allocator.h`. The model
  covers:
  - the power-of-two test and the minimum-alignment bump;
  - the block-size formula;
  - rounding the user pointer up to the alignment;
  - the 16-byte `{offset, size}` header stored just below the user
    pointer, which lets `zrFreeAligned` find the block;
  - the three branches of `zrReallocateAligned`: resized in place, moved
    with the same offset, and moved to a different offset;
  - the plain `zrAllocate` and `zrReallocate` wrappers.

  Addresses are naturals, and a block's bytes are a `seq<byte>`.
- **The include-directive preprocessor** of `tools/build/main.c`. The model
  covers:
  - the white-space, word and quoted-string scanners;
  - the `strstr` search for comment tags;
  - the `strncmp` keyword test;
  - joining a quoted path to the base directory;
  - the scan that records `/* @include "file" */` directives;
  - the splice that replaces each directive with the included file.

  The scan has two layers. `CommentsFrom` lists the comments the loop
  reaches, each from its opening tag to the first closing tag after it.
  `ScanWith` is the loop itself, with the reading of a comment body passed
  in as a function. `ScanIsFold` shows that the loop handles the listed
  comments in order, and `CommentReader` is the body reader of
  `zrCreateDirectives`.

The platform is LP64 with the allocator's debugging checks off:
- `size_t` is 64 bits wide, so `SIZE_MAX` is `2^64 - 1`;
- both headers are 16 bytes;
- the aligned header needs 8-byte alignment, and so does `void *`.

Wrap-around in `size_t` is written out with `Wrap` (modulo `2^64`).

The environment is a parameter of each operation:
- what `malloc` and `realloc` answer (`Answer`, `ReallocAnswer`,
  `reallocSucceeds`);
- what fresh memory holds (`garbage`);
- which files can be read, as a map from path to contents.

Where the code does something its own assertions or comments show was not
intended, the project models two things:
- the code as written, with a concrete input that shows the difference;
- the corrected behaviour, which the rest of the model uses.

See "## Findings".

Files:
- `platform.dfy`: `size_t`, `Wrap`, `Option`, bytes and arithmetic facts.
- `bits.dfy`: bitwise AND on naturals and powers of two.
- `memory.dfy`: `memmove` and the contents of a `realloc`ed block.
- `capacity.dfy`: maximum capacity, growth, and the capacity check.
- `dynamicarray.dfy`: the array operations.
- `allocator.dfy`: aligned allocation, header layout, and free.
- `realloc.dfy`: aligned reallocation and the unaligned wrappers.
- `scanner.dfy`: the character scanners of the preprocessor.
- `directives.dfy`: recognising and recording include directives.
- `splice.dfy`: splicing the included files into the text.

## Model

| member | source | states |
|---|---|---|
| ArrayCapacity.MaxCapacity | include/zero/dynamicarray.h:575-578 | the maximum is the largest element count whose block (16-byte header plus elements) has a byte size that fits in `size_t`: one more element would not fit |
| ArrayCapacity.MaxCapacityBelowSizeMax | include/zero/dynamicarray.h:575-578 | the maximum capacity is below `SIZE_MAX`, so position `(ZrSize)-1` is always past the size of a valid array |
| ArrayCapacity.BlockBytesFit | include/zero/dynamicarray.h:958-960 | for any capacity up to the maximum, the byte count handed to `realloc` does not wrap around |
| ArrayCapacity.NewCapacityAsWritten | include/zero/dynamicarray.h:914-929 | the code's wrap-around test is exact: when `current + current/2 + 1` exceeds `SIZE_MAX` the result is `max`; otherwise it is the larger of the growth step and the request |
| ArrayCapacity.GrowCapacity | include/zero/dynamicarray.h:953-956 | the clamped growth rule meets both assertions after the call (`requested <= new <= max`), is one of `max`, the request or the growth step, and is at least the growth step unless clamped to `max` |
| ArrayCapacity.NewCapacityExceedsMax | include/zero/dynamicarray.h:953-960 | for 4-byte elements the unclamped rule overshoots `max`, and the byte count passed to `realloc` wraps to fewer bytes than `max` elements need; the clamped rule yields `max` |
| ArrayCapacity.StatusOf | include/zero/dynamicarray.h:944-968 | success is reported exactly for "enough already" and "grown", and the max-size error exactly for an over-large request |
| ArrayCapacity.EnsureCapacity | include/zero/dynamicarray.h:931-969 | the exact conditions for each outcome (over the maximum; an existing block already large enough; `realloc` failing), and that a grown capacity lies between the request and the maximum, exceeds the old capacity, and has a block size that fits |
| DynamicArray.Create | include/zero/dynamicarray.h:580-606 | success exactly when an array is returned; the max-size error exactly when the count is over the maximum; the allocation error exactly when `realloc` fails; a created array is valid, with size and capacity both equal to the count |
| DynamicArray.Reserve | include/zero/dynamicarray.h:680-709 | the contents and size never change; on success the capacity is at least the request; exact conditions for each error; on error, or when the capacity already suffices, the array is untouched |
| DynamicArray.Resize | include/zero/dynamicarray.h:648-678 | same status as reserving the new count; on success the size is the count and the first `min(old size, count)` elements are kept; on error the array is untouched |
| DynamicArray.Extend | include/zero/dynamicarray.h:711-757 | the position is clamped to the size; on success the size grows by exactly `count`, the elements before the position stay, and the elements from it on reappear after the `count` new slots; the errors are for a sum over the maximum and for a failing `realloc`, leaving the array untouched |
| DynamicArray.ShiftTail | include/zero/dynamicarray.h:745-749 | the `memmove` of the extension keeps the first `p` elements and moves the rest of the contents up by `count` |
| DynamicArray.Insert | include/zero/dynamicarray.h:778-797 | same status as extending by the number of values; on success the contents are `old[..p] + values + old[p..]` with `p` the clamped position; on error the array is untouched |
| DynamicArray.Push | include/zero/dynamicarray.h:814-832 | same status as extending by one; on success the contents are `old[..p] + [value] + old[p..]`; on error the array is untouched |
| DynamicArray.PushIsInsert | include/zero/dynamicarray.h:814-832 | pushing a value gives exactly the same status and array as inserting the one-element sequence holding it |
| DynamicArray.ExtendFront | include/zero/dynamicarray.h:759-764 | the max-size error exactly when `size + count` exceeds the maximum; the allocation error exactly when the capacity is short and `realloc` fails; on success the old contents follow the `count` new slots; on error the array is untouched |
| DynamicArray.ExtendBack | include/zero/dynamicarray.h:766-776 | the same error conditions as `ExtendFront`; on success the old contents precede the `count` new slots; on error the array is untouched |
| DynamicArray.InsertFront | include/zero/dynamicarray.h:799-805 | the max-size error exactly when `size + |values|` exceeds the maximum; the allocation error exactly when the capacity is short and `realloc` fails; on success the contents are `values + old`; on error the array is untouched |
| DynamicArray.InsertBack | include/zero/dynamicarray.h:807-812 | position `(ZrSize)-1` clamps to the size, so on success the contents are `old + values`; the same error conditions as `InsertFront`, and on error the array is untouched |
| DynamicArray.PushFront | include/zero/dynamicarray.h:834-839 | the max-size error exactly when `size + 1` exceeds the maximum; the allocation error exactly when the array is full and `realloc` fails; on success the contents are `[value] + old`; on error the array is untouched |
| DynamicArray.PushBack | include/zero/dynamicarray.h:841-846 | the same error conditions as `PushFront`; on success the contents are `old + [value]`; on error the array is untouched |
| DynamicArray.Trim | include/zero/dynamicarray.h:848-870 | a position at or past the size changes nothing; otherwise the count is clamped to `size - position`, the size drops by exactly that, and the contents are `old[..position] + old[position + count..]`; the capacity never changes |
| DynamicArray.TrimFront | include/zero/dynamicarray.h:872-877 | the contents lose their first `min(count, size)` elements |
| DynamicArray.TrimBack | include/zero/dynamicarray.h:879-884 | as intended: the contents lose their last `min(count, size)` elements |
| DynamicArray.TrimAsWritten | include/zero/dynamicarray.h:848-870 | the code as written: unchanged for a position at or past the size; it reads past the block exactly when `position + 2*count` exceeds the capacity; otherwise the size drops by the clamped count and the elements before the position stay |
| DynamicArray.TrimAsWrittenAgrees | include/zero/dynamicarray.h:866-868 | when the removed run is at least as long as the tail after it, and the move stays inside the block, the trim as written leaves the intended contents |
| DynamicArray.TrimLosesTail | include/zero/dynamicarray.h:866-868 | trimming one element at the front of `[1, 2, 3]` as written leaves `[2, 2]`, while the intended trim leaves `[2, 3]`; trimming two reads past the block |
| DynamicArray.TrimBackAsWritten | include/zero/dynamicarray.h:879-884 | as written, trimming at the back always returns the array unchanged |
| DynamicArray.TrimBackRemovesNothing | include/zero/dynamicarray.h:879-884 | trimming one element at the back of `[1, 2, 3]` as written keeps all three, while the intended trim leaves `[1, 2]` |
| DynamicArray.ExtendAsWritten | include/zero/dynamicarray.h:711-757 | with the sum computed in `size_t`, a successful extension sets the size to `size + count` modulo `2^64`, and an error leaves the array untouched |
| DynamicArray.ExtendAsWrittenAgrees | include/zero/dynamicarray.h:727-755 | whenever `size + count` does not wrap, the extension as written returns exactly what the corrected extension returns |
| DynamicArray.ExtendSizeWraps | include/zero/dynamicarray.h:727-755 | extending a one-element byte array by `SIZE_MAX` as written succeeds and leaves it empty, while the corrected extension reports the max-size error |
| Allocator.IsPowerOfTwoCorrect | include/zero/allocator.h:351-356 | the decrement-and-compare test accepts exactly the powers of two |
| Allocator.MinAlignmentIsPowerOfTwo | include/zero/allocator.h:346-349 | the minimum alignment (the larger of the header's alignment and `sizeof(void *)`) is a power of two |
| Allocator.EffectiveAlignment | include/zero/allocator.h:400-402 | the alignment used is the request or the minimum, whichever is larger; it is still a power of two and a multiple of `sizeof(void *)` and of the header's alignment |
| Allocator.AlignedBlockSizeAsWritten | include/zero/allocator.h:321-322 | in `size_t` the block size equals `size + alignment - 1 + 16` whenever that sum fits |
| Allocator.AlignedBlockSizeWraps | include/zero/allocator.h:321-322 | a request of `SIZE_MAX - 30` bytes at alignment 16 makes the block size wrap to 0 |
| Allocator.AlignedBuffer | include/zero/allocator.h:316-319 | the rounded-up user pointer leaves room for the header behind it and lies at most `alignment - 1` bytes past that room |
| Allocator.AlignedBufferIsAligned | include/zero/allocator.h:316-319 | the mask with `~(alignment - 1)` yields a multiple of the alignment |
| Allocator.AlignedBufferIs | include/zero/allocator.h:316-319 | the user pointer is the one multiple of the alignment between `block + 16` and `block + 15 + alignment` |
| Allocator.HeaderAligned | include/zero/allocator.h:340-349 | with an alignment of at least the minimum, the header just below the user pointer is suitably aligned for its type |
| Allocator.HeaderRoundTrip | include/zero/allocator.h:324-330 | the 16 header bytes decode back to the offset and size written, for any values that fit in `size_t` |
| Allocator.WriteHeader | include/zero/allocator.h:412-414 | writing the header puts its encoding in the 16 bytes below the user pointer and changes no other byte |
| Allocator.AllocateAligned | include/zero/allocator.h:389-420 | null for a zero size, a non-power-of-two alignment or a failing `malloc`, and otherwise exactly when the block size would exceed `SIZE_MAX`; a returned allocation is valid, starts at the block `malloc` gave, records the size and effective alignment, and its buffer is aligned to the request |
| Allocator.AllocateAlignedAsWritten | include/zero/allocator.h:389-420 | as written the code asks `malloc` for too few bytes exactly when the size is positive, the alignment a power of two, `malloc` answers, and the block size exceeds `SIZE_MAX`; the bytes asked for are then the wrapped block size, below the requested size; in every other case the result is that of `AllocateAligned` |
| Allocator.UndersizedExample | include/zero/allocator.h:321-322 | for `SIZE_MAX - 30` bytes at alignment 16 with `malloc` answering 4096, the code as written asks for 0 bytes, while the corrected allocation returns null |
| Allocator.FreshBlockValid | include/zero/allocator.h:404-419 | the block laid out from a `malloc` result is a valid allocation of the requested size, with an aligned buffer |
| Allocator.BufferAlignedToRequest | include/zero/allocator.h:340-345 | a buffer aligned to the bumped-up alignment is aligned to the original request |
| Allocator.ValidPlacement | include/zero/allocator.h:294-310 | in a valid allocation the offset lies in `[16, 15 + alignment]`, the user pointer is aligned, and the user bytes end inside the block |
| Allocator.FreeAligned | include/zero/allocator.h:485-497 | nothing is freed exactly when the pointer is null |
| Allocator.FreeAlignedRoundTrip | include/zero/allocator.h:485-497 | the header read back from the user pointer of a valid allocation is the one stored, so the block freed is exactly the allocation's block |
| Allocator.AllocateThenFree | include/zero/allocator.h:412-414 | freeing the buffer returned by an aligned allocation frees exactly the block `malloc` returned |
| AlignedRealloc.Allocate | include/zero/allocator.h:358-366 | null for a zero size; otherwise exactly `malloc`'s answer |
| AlignedRealloc.Reallocate | include/zero/allocator.h:368-381 | a null original behaves as `zrAllocate`; a zero size frees the original and returns null; otherwise null exactly when `realloc` fails, the same pointer when resized in place, and the new address when moved |
| AlignedRealloc.ReallocateAligned | include/zero/allocator.h:422-483 | a null original behaves as `zrAllocateAligned`; a zero size or bad alignment frees the original block and returns null; otherwise null exactly when `realloc` fails or the block size exceeds `SIZE_MAX`, the second being the corrected behaviour (the source passes the wrapped size to `realloc`, see `ResizeBlockAsWritten`); every other result is the original resized (`ResizedFrom`): a valid allocation of the new size with the same alignment whose first `min(old, new)` bytes are the original ones, at the same user pointer when resized in place and at the new block when moved, with a buffer aligned to the request |
| AlignedRealloc.ResizeBlock | include/zero/allocator.h:444-483 | the corrected resize of a usable request: it never frees; it returns null exactly when `realloc` fails or the block size exceeds `SIZE_MAX` (a check the source does not make before calling `realloc`); otherwise the result is the original resized (`ResizedFrom`) with a buffer aligned to the original alignment |
| AlignedRealloc.SizeFieldRewrite | include/zero/allocator.h:460 | rewriting only the size field of a header that `realloc` kept yields the header with the old offset and the new size |
| AlignedRealloc.InPlaceBytes | include/zero/allocator.h:458-461 | after an in-place resize, the block holds the header for the new size at the old offset and the kept user bytes after it |
| AlignedRealloc.InPlaceHolds | include/zero/allocator.h:458-461 | rewriting only the size field of memory that starts with the old block's bytes leaves the header for the new size at the old offset and the first `min(old, new)` user bytes after it |
| AlignedRealloc.ResizedInPlace | include/zero/allocator.h:458-462 | an in-place resize gives a valid allocation with the same block and user pointer that keeps the first `min(old, new)` bytes |
| AlignedRealloc.SameOffsetBytes | include/zero/allocator.h:464-476 | a moved block with the same offset holds the new header and the kept user bytes at the old offset, with no copy needed |
| AlignedRealloc.MovedSameOffset | include/zero/allocator.h:464-476 | a moved block whose buffer keeps its offset is a valid allocation at the new address that keeps the first `min(old, new)` bytes |
| AlignedRealloc.OtherOffsetBytes | include/zero/allocator.h:466-480 | shifting the kept bytes first and then writing the header leaves both the header for the new size and the first `min(old, new)` user bytes at the new offset |
| AlignedRealloc.OtherOffsetHolds | include/zero/allocator.h:466-480 | shifting the first `min(old, new)` user bytes to the new offset and then writing the header there leaves both where the new offset says |
| AlignedRealloc.MovedOtherOffset | include/zero/allocator.h:464-482 | a moved block whose buffer changes offset is a valid allocation at the new address that keeps the first `min(old, new)` bytes |
| AlignedRealloc.MovedAsWritten | include/zero/allocator.h:464-480 | the moved branch as written (header first, then a `memmove` of the old size) goes past the new block exactly when the offsets differ and the old size overruns the new block at the old offset or at the new one |
| AlignedRealloc.HeaderClobbersData | include/zero/allocator.h:466-480 | moving a one-byte allocation holding `0xAA` from offset 16 to offset 32 as written leaves the user byte equal to 32, the low byte of the new header |
| AlignedRealloc.SampleMoveKeepsData | include/zero/allocator.h:466-480 | the corrected branch moves the same allocation with its byte `0xAA` intact |
| AlignedRealloc.ShrinkCopiesPastBlock | include/zero/allocator.h:478-480 | shrinking a 100-byte allocation to 1 byte while moving it makes the `memmove` as written run past the 48-byte new block; the corrected copy of `min(100, 1)` bytes keeps the first byte |
| AlignedRealloc.ResizeBlockAsWritten | include/zero/allocator.h:444-483 | the resize as written, with the wrapped block size passed to `realloc`: it fails exactly when `realloc` fails; it hands back a block too small for the request exactly when `realloc` answers and the block size exceeds `SIZE_MAX`, the bytes asked for then being the wrapped size and the size the header records being the requested one, which is larger, at the address `realloc` gave; otherwise it is the in-place resize, or the moved branch as written |
| AlignedRealloc.ResizeAsWrittenAgrees | include/zero/allocator.h:451-476 | when the block size fits and the block stays or moves to a block whose buffer keeps its offset, the resize as written returns exactly the allocation of the corrected resize |
| AlignedRealloc.ReallocWrapsExample | include/zero/allocator.h:451-453 | resizing an allocation at alignment 16 in place to `SIZE_MAX - 29` bytes as written asks `realloc` for a 1-byte block whose header then records `SIZE_MAX - 29`, and `SIZE_MAX - 30` bytes asks for 0 bytes; the corrected resize returns null |
| Memory.Move | include/zero/allocator.h:478-480 | the `memmove` leaves the length unchanged, puts the old contents of the source range at the destination, and changes nothing outside the destination |
| Memory.Realloced | include/zero/allocator.h:451-453 | the block `realloc` hands back has the length asked for, starts with the common prefix of the old contents, and holds fresh memory after it |
| Scanner.SkipSpaces | tools/build/main.c:127-138 | the result never passes `end`, everything skipped is white space, and the character it stops at is not |
| Scanner.WordLength | tools/build/main.c:140-154 | the word stays within `end`, consists of letters and digits, and is followed by a non-alphanumeric character or `end` |
| Scanner.StringLength | tools/build/main.c:156-179 | a length is returned exactly when the text starts with `"` and a closing `"` occurs before `end`; it counts the characters up to the first closing quote, none of which is a quote |
| Scanner.FindFrom | tools/build/main.c:291-298 | the `strstr` search returns the first occurrence at or after the start, or none when there is no occurrence |
| Scanner.StrNEqualPrefix | tools/build/main.c:322 | for NUL-free strings, `strncmp(a, b, n) == 0` with `n` the length of `a` holds exactly when `a` is a prefix of `b` |
| Scanner.KeywordAcceptsPrefixes | tools/build/main.c:317-324 | a word of letters and digits passes the keyword test exactly when it is a prefix of `include` |
| Scanner.KeywordExamples | tools/build/main.c:322 | `inc` and `include` pass the keyword test, while `includes` and `import` do not |
| Directives.PathFits | tools/build/main.c:217-230 | the corrected check holds exactly when the joined path and its terminator fit in the 512-byte array |
| Directives.PathCheckAsWritten | tools/build/main.c:218 | the assertion as written lets through every path that fits, and none longer than one byte too many |
| Directives.PathCheckOffByOne | tools/build/main.c:217-230 | a 500-character directory and an 11-character name pass the assertion as written, yet need 513 bytes |
| Directives.PathStart | tools/build/main.c:309-324 | a path start is found only after the body's first character and at most at its end, and sits at the body's end or on a character that is not white space |
| Directives.PathStartIsHead | tools/build/main.c:307-324 | the body reader accepts a comment body exactly when it is white space, `@`, white space, a word that is a non-empty prefix of `include` and ends the run of letters and digits, and white space; the position it returns is where that head ends |
| Directives.PathStartComplete | tools/build/main.c:307-324 | every body shaped like a directive head is accepted, at the position where the head ends |
| Directives.ParseComment | tools/build/main.c:305-334 | a comment is read as an include or as a path that does not fit only when its body opens like a directive, and an included file's contents are those of a readable file |
| Directives.QuotedPath | tools/build/main.c:210-237 | an included file is one whose joined path names a non-empty quoted name at that position; a rejected path is one such name that does not fit |
| Directives.ParseCommentExact | tools/build/main.c:305-334 | a comment is read as the include of `contents` exactly when it is an include directive of a readable file with those contents and a path that fits, and as a path that does not fit exactly when it quotes one; every other comment is skipped |
| Directives.QuotedNameParsed | tools/build/main.c:210-237 | a comment quoting `name` is read as "does not fit", as the include of the file at `name`'s path, or as skipped, according to the path check and the file map |
| Directives.ScanDirectives | tools/build/main.c:269-358 | with no opening tag from the start nothing is recorded; the missing-closing-tag error needs an opening tag; the recorded directives are non-empty, in order, non-overlapping and inside the text |
| Directives.ScanWithEnds | tools/build/main.c:291-303 | for any reading of comment bodies, the loop records nothing when there is no opening tag, and fails for a missing closing tag only when there is one |
| Directives.ScanWithPlaced | tools/build/main.c:285-349 | for any reading of comment bodies, the directives the loop records are non-empty, in order, non-overlapping and inside the text |
| Directives.CommentsSegmented | tools/build/main.c:285-307 | the comments the loop reaches are listed exactly: each opens at the first opening tag from where the last one closed and closes at the first closing tag after that; the listing ends with no further opening tag, or with an opening tag that has no closing tag anywhere after it |
| Directives.ScanIsFold | tools/build/main.c:285-349 | the loop, with any body reader, handles exactly the listed comments, one after another |
| Directives.ScanCommentsMatches | tools/build/main.c:285-349 | going through a listing, the scan aborts exactly when a path does not fit, fails for a missing closing tag exactly when the listing ends on one and no earlier path is too long, and otherwise records exactly the comments read as includes |
| Directives.RecordedExactly | tools/build/main.c:336-348 | every comment read as an include has its directive recorded, and every recorded directive comes from such a comment |
| Directives.ScanFollowsComments | tools/build/main.c:269-358 | `zrCreateDirectives` agrees with the listed comments as above, each comment being read as `ParseComment` reads it |
| Directives.ScanSound | tools/build/main.c:269-358 | the directives recorded are in order, non-overlapping and within the text, each opened by `/*`, closed by the first `*/` after it and holding the file its quoted path names; an error for a missing closing tag means an opening tag with no closing tag anywhere after it |
| Directives.ScanDirectivesFirst | tools/build/main.c:285-349 | the loop handles the first comment from the start, then goes on just past its closing tag |
| Directives.GetDirectory | tools/build/main.c:421-429 | the result is the prefix before the last separator, or none when the path has no separator |
| Directives.DirectoryOfIncludePath | tools/build/main.c:421-429 | the directory of a joined include path is the base it was joined from |
| Splice.Splice | tools/build/main.c:393-413 | the spliced text is as long as the original plus every directive's change in length, and is the original when there is no directive |
| Splice.Replace | tools/build/main.c:400-406 | replacing one directive changes the length by its contents minus its span, and keeps the text before and after it, with the contents in between |
| Splice.SpliceLength | tools/build/main.c:378-388 | the spliced text is as long as the original plus the sum, over the directives, of contents length minus span |
| Splice.SpliceIsReplaceAll | tools/build/main.c:393-413 | the single left-to-right copy gives the same text as replacing the directives one by one from the last |
| Splice.SplicedLength | tools/build/main.c:377-391 | the first loop computes, in `size_t`, the text's length plus every directive's change in length |
| Splice.CopyPieces | tools/build/main.c:393-413 | the copy loop builds exactly the text with every directive replaced by its contents |
| Splice.ProcessIncludeDirectives | tools/build/main.c:360-419 | the result is the text with every directive replaced; it agrees with the one-by-one replacement; its length is the original plus the changes, and the computed length matches it whenever it fits in `size_t`; with no directives the text is untouched |
| Splice.FinalCheckAsWritten | tools/build/main.c:412 | the final assertion as written fails exactly when the last directive ends the text |
| Splice.ExampleScanned | tools/build/main.c:269-358 | the text `/*@include"a"*/` in directory `.`, where `./a` holds `x`, is recorded as one directive spanning all 15 characters |
| Splice.TrailingDirectiveRejected | tools/build/main.c:412-413 | that directive splices to `x`, yet the final assertion as written rejects it |

## Left out

- `include/zero/timer.h` is not modelled: clock and `getrusage` queries and floating-point tick conversion.
- The loggers are not modelled: `include/zero/logger.h`, `src/partials/logger.h`, `src/partials/logging.h`, and the copy embedded in `dynamicarray.h`. They only format text to a stream.
- The build-time type and platform headers are not modelled. The model fixes the platform to LP64, 64-bit `x86_64`, with `/` as the path separator.
- 32-bit targets and the Windows separator are not modelled.
- `malloc`, `realloc` and `free` are abstract:
  - each call's answer is a parameter;
  - `realloc` keeps the common prefix of the old bytes;
  - the rest of a new block holds `garbage`.
- Heap internals and pointer identity are not modelled.
- The addresses `malloc` and `realloc` answer are taken as given. `MallocFits` and `ReallocFits` state what is assumed of them: a block they hand back is not at address 0 and, at the byte count the C code asks for (the block size wrapped in `size_t`), lies inside the address space.
- `zrDestroy<Name>` and `zrFree` only hand a block to `free`, so they are not modelled beyond `FreeAligned`.
- `zrGet<Name>Size`, `zrGet<Name>Capacity` and `zrGet<Name>MaxCapacity` read a header field or the constant. They are `size`, `Capacity` and `MaxCapacity` in the model.
- DynamicArray.Extend: the model does not return the slice pointer. It points at the clamped position, which the contract names.
- DynamicArray.Create: the block is allocated for the grown capacity, which is at least 1, but the header records `count`. The model follows the header, so the array's buffer has `count` slots.
- `ZR_ASSERT` and `assert` on null arguments are left out. Where an assertion can fail on valid input, the model shows that as a finding.
- The allocator's debugging mode is left out. That covers the header's `alignment` field and the assertion that a reallocation keeps the alignment. `ReallocateAligned` requires the same effective alignment instead.
- File I/O in `tools/build/main.c` is left out. That covers `zrCreateBufferFromFile`, writing the output, and `main`. Readable files are a map from path to contents.
- A `malloc` failure inside the preprocessor is not modelled. The source does not check for it.
- The preprocessor's text is a whole sequence. The source passes a buffer without a NUL terminator to `strstr`, which may read past it. The model searches only inside the text.
- Embedded NUL characters are not modelled. `strstr` and `strlen` would stop at them.
- `isspace` and `isalnum` are modelled in the "C" locale for ASCII. Characters above 127, which are negative `char` values and undefined behaviour for those functions, are not covered.
- The assertion `pOut != NULL` in `zrProcessIncludeDirectives` reads an uninitialised variable. It is left out.
- Directives.GetDirectory: for a path without a separator the source does arithmetic on a null pointer, which is undefined behaviour. The model returns `None`.
- Directives.ScanDirectives: a path that fails the length assertion is modelled as aborting the scan (`Aborted`), since the assertion stops the program.
- AlignedRealloc.ResizeBlockAsWritten: when the wrapped block size is 0, `realloc` may free the block and return null; the model's `Failed` answer does not record that the original block was freed.
- DynamicArray.TrimAsWrittenAgrees: the lemma states only when the trim as written is right (a sufficient condition). `TrimLosesTail` shows a case where it is wrong.
- The linked list of directives is a sequence, and directives of other types are never recorded. The source records only include directives too.

## Findings

| source | as written | input that shows it | evidently intended | confidence | as-written member | corrected member |
|---|---|---|---|---|---|---|
| include/zero/dynamicarray.h:914-929 | the non-wrapping growth step is never clamped to the maximum, so `assert(newCapacity <= maxCapacity)` can fail and the byte count can wrap | 4-byte elements, current capacity `max - 1`, request `max`: new capacity `0x5FFF_FFFF_FFFF_FFF8 > max`, byte count wraps to `0x7FFF_FFFF_FFFF_FFF0` | clamp the new capacity to `max` | high (not executed) | ArrayCapacity.NewCapacityExceedsMax | ArrayCapacity.GrowCapacity |
| include/zero/dynamicarray.h:727-755 | `size + count` is computed in `size_t`, so it wraps past the maximum check and the size wraps too | a one-element byte array extended by `SIZE_MAX`: success, size 0 | report the max-size error | high (not executed) | DynamicArray.ExtendSizeWraps | DynamicArray.Extend |
| include/zero/dynamicarray.h:866-868 | the `memmove` moves `count` elements, not the `size - position - count` elements of the tail | trim 1 at the front of `[1, 2, 3]`: `[2, 2]` | move the tail down: `[2, 3]` | high (not executed) | DynamicArray.TrimLosesTail | DynamicArray.Trim |
| include/zero/dynamicarray.h:879-884 | the back trim passes position `(ZrSize)-1`, which always takes the early return | trim 1 at the back of `[1, 2, 3]`: unchanged | remove the last elements: `[1, 2]` | high (not executed) | DynamicArray.TrimBackRemovesNothing | DynamicArray.TrimBack |
| include/zero/allocator.h:321-322 | the block size `size + alignment - 1 + 16` wraps in `size_t`, and `malloc` is asked for the wrapped size | size `SIZE_MAX - 30`, alignment 16, `malloc` answering 4096: a 0-byte block is asked for | refuse requests whose block size overflows | medium (not executed) | Allocator.AllocateAlignedAsWritten | Allocator.AllocateAligned |
| include/zero/allocator.h:451-453 | `zrReallocateAligned` passes the block size, wrapped in `size_t`, to `realloc` without checking it | size `SIZE_MAX - 29`, alignment 16, `realloc` resizing in place: a 1-byte block whose header records `SIZE_MAX - 29` bytes; `SIZE_MAX - 30` asks for 0 bytes | return null when the block size overflows, leaving the original alone | high (not executed) | AlignedRealloc.ReallocWrapsExample | AlignedRealloc.ResizeBlock |
| include/zero/allocator.h:466-480 | the new header is written before the user bytes are moved, and can land on bytes not yet moved | a 1-byte allocation holding `0xAA` at block 16 (offset 16), moved to block 32 (offset 32): the byte becomes 32 | move the bytes first, then write the header | high (not executed) | AlignedRealloc.HeaderClobbersData | AlignedRealloc.OtherOffsetBytes |
| include/zero/allocator.h:478-480 | the `memmove` copies the old size even when shrinking, past the new block | a 100-byte allocation shrunk to 1 byte and moved to block 16: a 100-byte copy into a 48-byte block | copy `min(old size, new size)` bytes | high (not executed) | AlignedRealloc.ShrinkCopiesPastBlock | AlignedRealloc.MovedOtherOffset |
| tools/build/main.c:218 | `baseLength + length < sizeof path` leaves no room for the separator | a 500-character directory and an 11-character name: 513 bytes written into 512 | `baseLength + length + 2 <= sizeof path` | high (not executed) | Directives.PathCheckOffByOne | Directives.PathFits |
| tools/build/main.c:412 | `assert(offset < *pBufferSize)` fails when the last directive ends the text | `/*@include"a"*/` with `./a` holding `x` | `offset <= *pBufferSize` | high (not executed) | Splice.TrailingDirectiveRejected | Splice.ProcessIncludeDirectives |
