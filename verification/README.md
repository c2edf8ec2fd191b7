# charport storage: a verified model

charport keeps R character vectors outside R's string heap, in two packed
representations. A **charpack** is one raw buffer: a head, end offsets, tags and
all the bytes. A **charvec** is a table of records that point into slices of
bytes its Store owns, with a cache of the R strings already handed out. Both
must behave exactly like a plain vector of records, each NA or some bytes with
an encoding tag. This project models the code of both and proves that they do.

`dafny verify dfyconfig.toml` checks everything (Dafny 4.11).

## How it is organised

| files | what they model |
|---|---|
| `Records`, `Seqs`, `Words`, `Memory` | records and payloads, words in memory in either byte order, copying |
| `PackLayout`, `PackRecords`, `PackState`, `Formats` | the charpack layout, the validator of an untrusted state, the in-place byte swap, both formats in literal offsets and bytes |
| `PackFill`, `PackRead`, `PackSubset` | filling from views and from slices, the readers, the two-pass subset |
| `Charpack`, `PackRuns` | the three-state object, and runs of calls on such objects that share buffers |
| `RStrings` | R strings, locales, and the text a record stands for |
| `Allocator`, `Chain`, `Ownership`, `ChainRuns` | slice sizes, the linked chain of slices, who owns each slice over a run, as a ledger and on the heap |
| `Stores`, `RecordArrays`, `Compaction` | the charvec Store, the three arrays of its record table, assignment in place, the rebuild into exactly filled slices |
| `Builders`, `GrowableBuilders`, `Writers`, `Schedules`, `ParallelBuilders` | the builders, the Writer, interleavings of parallel fills |
| `FillRuns`, `Construction` | whole fills, serial, parallel and by a Writer, compared; whole-vector constructions |
| `EltCache`, `CacheLaws`, `Charvecs`, `CharvecRuns` | the chunked string cache and materialization, as a state machine and as the object, and runs over such objects |
| `Cpv`, `CpvParse`, `CpvState`, `CharvecState`, `CharvecLaws` | the serialized charvec state: format, parser, writer, round trips; from R strings through any run and saving |
| `Ascii`, `ByteSwaps` | the blockwise ASCII check and the mask-and-shift swaps |

Buffers and slices are arrays, and everything the source updates in place is a
class or an array written by a method with a loop. Each such method is proved
against a function or predicate on values. What holds over runs is proved on the
heap: `PackRuns.RunCalls`, `CharvecRuns.RunOps`, `ChainRuns.RunChains`,
`ParallelBuilders.RunSchedule` and `Compaction.RunChanges` make any sequence of
calls on real objects and end in the state that a function on values gives, so
the lemmas about those functions are about the objects. A native word is a
positional decode in the host's byte order, which is a parameter.

Beside the functions the code computes with stand statements that use none of
them: the fills entry by entry of the caller's arrays, the formats in literal
offsets, errors as literal conditions on the bytes, tags by number, text by charset.

## What came out

- A packed record tagged ASCII whose bytes are not ASCII (a caller of the fills
  can make one, since tags are stored as given) may change its text when it is
  read in a locale with another native charset. Whatever the charsets spell, as
  long as they all spell ASCII alike, text is preserved exactly when the two
  native charsets spell every such record alike (`RStrings.RelabelTexts`); so it
  is preserved under every way to decode exactly when no record is like that or
  the native charsets are one (`RStrings.RelabelAlways`).
  `RStrings.MislabelledChangesText` is an instance. R's own strings are never like
  that, so vectors made of them and changed by R keep their text with no condition
  (`CharvecLaws.RunAndSave`).
- `store_assign` stores an empty string, not NA, for a view that is NA by its
  pointer or its length but is tagged otherwise (`Stores.StoredIsRec` says
  exactly when, `Stores.NullStoredEmpty` is an instance). `charsxp_to_view`
  never makes such a view, so an R assignment is not affected
  (`Charvecs.StringStored`).
- A Store accepts any tag byte, but the state it writes is accepted on reading
  only when every tag is a known one (`Cpv.AcceptedIffTagged`;
  `Cpv.UnknownTagRefused` is an instance).
- The `i + 1` fallback of `rebuild_store` is never taken
  (`Compaction.StopAdvances`).
- The comment on the charpack layout puts R's maximum vector length at 2^52 - 1;
  the code compares against `R_XLEN_T_MAX`, which is 2^52. The model follows the
  code; bits 52 to 62 of a head are clear all the same
  (`PackLayout.HeadBitsClear`).

## Assumed of R and of callers

- An ASCII string carries no encoding mark, there is one blank string and one
  NA, and any other string R makes is some object with the right content: a new
  one or one it already has.
- R converts its own character vectors between locales on serialization, so a
  vector sent as strings is shown only to be sent with the right strings.
- An allocation succeeds. Raw vectors are at most `R_XLEN_T_MAX` bytes.
- A caller's pointers address as many bytes as the length says, and readers'
  index lists and ranges are within the vector.

## Model

| member | source | states |
|---|---|---|
| `PackState.FindStateError` | src/charpack_altrep.h:507-545 | no error exactly when the bytes, read in the given order, are the layout of some list of valid records; otherwise the first failing check of the first failing record, each a literal condition on its end offsets and tag; no step leaves the range of size_t for any head |
| `PackState.VerdictExact` | src/charpack_altrep.h:505-545 | a verdict without error is equivalent to the bytes being the layout of some record list |
| `PackState.ReadShape` | src/charpack_altrep.h:508-520 | the head's regions are found to fit exactly when they do, with n, width and payload size as the head names them, whatever the head is |
| `PackState.CheckRecord` | src/charpack_altrep.h:524-540 | no error exactly when the record is sound; otherwise the record passes every check before the one that is named and fails that one, as literal conditions on its end offsets and tag |
| `PackState.CheckRecords` | src/charpack_altrep.h:523-544 | over all records: no error exactly when every record is sound and the last ends with the payload |
| `PackState.LaterLayoutRejected` | src/charpack_altrep.h:16-20 | a state of at most 2^52 bytes whose head sets one of bits 52 to 62 is rejected as truncated |
| `PackState.SwapWords` | src/charpack_altrep.h:547-560 | in place: the buffer becomes the one that says the same in the other byte order, for a head read natively or swapped |
| `PackState.SwapEnds` | src/charpack_altrep.h:555-559 | the loop puts every end offset in the other byte order and leaves the head and what follows the offsets |
| `PackState.SwappedTwice` | src/charpack_altrep.h:547-560 | swapping out and back in is the identity on every buffer whose head fits |
| `PackState.SwappedSays` | src/charpack_altrep.h:547-560 | the swapped buffer, read in the other order, says what the original says, and equals it past the end offsets |
| `PackState.SwappedValid` | src/charpack_altrep.h:505-560 | the validator's condition holds of the swapped buffer in the other order exactly when it holds of the original |
| `PackState.SwappedImage` | src/charpack_altrep.h:547-560 | swapping the layout of recs gives their layout in the other byte order |
| `PackRecords.HoldsUnique` | src/charpack_altrep.h:10-22 | a buffer is the layout of at most one record list, in one width |
| `PackRecords.HoldsImage` | src/charpack_altrep.h:10-22 | a buffer is read as recs exactly when it is, byte for byte, the layout of recs |
| `PackRecords.ValidStateIff` | src/charpack_altrep.h:507-545 | the layouts of record lists are exactly the buffers whose head fits and whose records are sound and cover the payload |
| `PackRecords.ExactIsImage` | src/charpack_altrep.h:10-22 | sound fields are the fields of the list they decode to |
| `PackRecords.HoldsRecord` | src/charpack_altrep.h:87-100 | record i of a layout is where its end offsets say, with its tag and its bytes |
| `PackLayout.FieldsOfFrame` | src/charpack_altrep.h:71-118 | reading a layout gives back the width, end offsets, tags and bytes that were laid out |
| `PackLayout.FrameOfFields` | src/charpack_altrep.h:71-118 | laying out what a buffer says rewrites that buffer byte for byte |
| `PackLayout.TotalBytes` | src/charpack_altrep.h:51-61 | 0 exactly when the true size exceeds R's maximum, else the true size; no intermediate value leaves size_t |
| `PackLayout.HeadBitsClear` | src/charpack_altrep.h:14-19 | every head that is written has bits 52 to 62 clear |
| `Formats.BufferHead` | src/charpack_altrep.h:10-22 | in numbers: a buffer has 8 bytes of head, 5 or 9 bytes a record and the bytes; the head is the count, plus 2^63 in a wide one, in the buffer's byte order |
| `Formats.BufferEnd` | src/charpack_altrep.h:10-22 | in numbers: end offset i is the 4 bytes at 8 + 4i, or the 8 bytes at 8 + 8i, and is the total size of the records up to i |
| `Formats.BufferRecord` | src/charpack_altrep.h:10-22 | in numbers: the tag byte of record i is right after the end offsets, 255 for NA, and its bytes are where the end offsets before and of it say, past the tags |
| `Words.ValueOfWord` | src/charpack_altrep.h:87-118 | a native load reads back what a native store of that width wrote, on either host order |
| `Words.LoadOrder` | src/charpack_altrep.h:496-503 | a load with a byte swap is a load in the other byte order |
| `Words.SwapReverses` | src/charpack_altrep.h:547-560 | storing a swapped word natively reverses its bytes in memory |
| `ByteSwaps.Swap32Reverses` | src/charvec_altrep.h:157-162 | byte k of the mask-and-shift result is byte 3 - k of the word |
| `ByteSwaps.Swap64Reverses` | src/charvec_altrep.h:164-173 | byte k of the mask-and-shift result is byte 7 - k of the word |
| `ByteSwaps.Swap64Twice` | src/charvec_altrep.h:164-173 | the swap is its own inverse |
| `ByteSwaps.Swap32Twice` | src/charvec_altrep.h:157-162 | the 32-bit swap is its own inverse |
| `ByteSwaps.Swap32IsSwap` | src/charvec_altrep.h:157-162 | as a number the mask-and-shift result is the word whose bytes are reversed, which is the swap the loads and stores of this model use |
| `ByteSwaps.Swap64IsSwap` | src/charvec_altrep.h:164-173 | the same for 64 bits |
| `PackFill.CheckedPayload` | src/charpack_api.cpp:26-50 | succeeds exactly when every record passes and the total fits size_t, and returns that total; an error names the first failing record |
| `PackFill.WriteRecords` | src/charpack_api.cpp:52-64 | writes the end offsets and tags of the described records; the running end never wraps in either width |
| `PackFill.AllocData1` | src/charpack_api.cpp:66-90 | a new buffer with the head, offsets and tags of the described records in the narrowest or forced width, or the size error exactly when no raw vector is that large |
| `PackFill.FillViews` | src/charpack_api.cpp:96-118 | a new buffer that is the layout of records that are, entry by entry, NA exactly when the pointer is null, the length NA_INTEGER or the encoding NA, and otherwise so many bytes from the pointer under the encoding; an error that names an entry names the first of the arrays that fails, and why |
| `PackFill.AcceptedExactly` | src/charpack_api.cpp:26-118 | a call with views is accepted exactly when n is not negative, no array is null, every entry passes and 8 + 4n or 8n + n + its bytes is at most 2^52 |
| `PackFill.CopyViews` | src/charpack_api.cpp:108-115 | the payload becomes the views' bytes end to end |
| `PackFill.CheckedSlices` | src/charpack_api.cpp:135-144 | the slice total, or the first slice that is null with bytes or overflows |
| `PackFill.FillSlices` | src/charpack_api.cpp:120-160 | a new buffer that is the layout of records that have, entry by entry, the lengths and encodings given, and whose bytes end to end are the slices in the order given, each right after those before it; an error that names an entry or a slice names the first of the arrays that fails, and why |
| `PackFill.SlicesAcceptedExactly` | src/charpack_api.cpp:120-160 | a call with slices is accepted exactly when no count is negative, no array is null, every entry passes, no slice is null with bytes, the slices hold exactly the bytes the entries need and the size fits, in literal bytes |
| `PackFill.SlicingIrrelevant` | src/charpack_api.cpp:96-160 | however the payload is cut into slices, empty and null ones included, the records cut from them are those of the views |
| `PackFill.SlicingSameBytes` | src/charpack_api.cpp:96-160 | so the buffer built from the slices equals, byte for byte, the one built from the views |
| `PackFill.CallsAgree` | src/charpack_api.cpp:96-160 | a call with views and one with slices, both accepted, of the same lengths and encodings and of the same bytes in the order of their arrays, hold the same records and build the same buffer byte for byte |
| `PackFill.NoWrap` | src/charpack_api.cpp:52-64 | the running end, added in the width of an end offset, is the true sum exactly when the sum fits that width |
| `PackFill.SameCut` | src/charpack_api.cpp:134-157 | a record cut from the joined bytes is the view's, since only the joined bytes of the slices matter |
| `PackRead.Put` | src/charpack_altrep.h:352-368 | one view: the length always, the pointer and the encoding exactly when asked for |
| `PackRead.NextView` | src/charpack_altrep.h:387-393 | one loop step makes one more view show its record and leaves all earlier views and all later outputs |
| `PackRead.RangeAccess` | src/charpack_altrep.h:370-423 | for any range and either width, view j shows record start + j in every combination of requested outputs, and no output past the range is written |
| `PackRead.IndexAccess` | src/charpack_altrep.h:396-434 | view j shows record indices[j] in every combination of requested outputs, and no output past them is written |
| `PackRead.Strings` | src/charpack_altrep.h:155-178 | a new character vector of exactly the records' strings |
| `PackRead.PlaceShows` | src/charpack_altrep.h:352-368 | what a reader makes of a record in place shows that record |
| `PackSubset.IntSelects` | src/charpack_altrep.h:235-239 | an integer subscript selects element k - 1 for 1 <= k <= n and NA otherwise |
| `PackSubset.RealTruncates` | src/charpack_altrep.h:240-242 | a real subscript selects what its integer part selects, and NA when it is not finite or out of range |
| `PackSubset.CountSubset` | src/charpack_altrep.h:263-278 | the counting pass returns the selected records' total, or fails exactly when it exceeds size_t |
| `PackSubset.CopySubset` | src/charpack_altrep.h:293-310 | the copying pass writes exactly the image of the selected records, whose size the counting pass gave |
| `PackSubset.ExtractSubset` | src/charpack_altrep.h:245-314 | the new buffer is the narrowest layout of the selected records; it fails exactly when no raw vector is large enough, with its own error when size_t overflows |
| `PackSubset.SubsetComposes` | src/charpack_altrep.h:230-314 | subsetting twice selects the records that the composed subscripts select at once |
| `PackSubset.SubsetBytesCompose` | src/charpack_altrep.h:245-314 | and the two buffers are equal byte for byte |
| `PackSubset.SubsetNarrowest` | src/charpack_altrep.h:279-281 | no layout of the selected records is shorter |
| `PackSubset.SubsetValid` | src/charpack_altrep.h:245-314 | selected records are valid when the source's are |
| `PackSubset.SelectCommutes` | src/charpack_altrep.h:245-314 | subsetting records and subsetting their strings agree |
| `Charpack.Charpack.FillFromViews` | src/charpack_api.cpp:96-118 | succeeds exactly on an unfilled vector and an accepted call, then holds in a fresh buffer what the arrays say, entry by entry; otherwise the error of the first check that fails, and nothing changes |
| `Charpack.Charpack.FillFromSlices` | src/charpack_api.cpp:120-160 | succeeds exactly on an unfilled vector and an accepted call, then holds in a fresh buffer the slices in order, cut as the arrays say; otherwise the error of the first check that fails, and nothing changes |
| `Charpack.Charpack.FillMaterializedNa` | src/charpack_api.cpp:180-193 | succeeds exactly on an unfilled vector and a non-negative n, then shows n NA strings; otherwise says which of the two it was |
| `Charpack.Charpack.Materialize` | src/charpack_altrep.h:185-197 | what R sees does not change and the buffer is dropped; a second call gives the same strings object |
| `Charpack.Charpack.Elt` | src/charpack_altrep.h:199-201 | element i of what R sees, which does not change; the strings are new or the ones already there |
| `Charpack.Charpack.SetElt` | src/charpack_altrep.h:203-205 | exactly element i of what R sees changes; the strings written are new or the vector's own |
| `Charpack.Charpack.Duplicate` | src/charpack_altrep.h:216-228 | a filled vector's copy shares its buffer and shows the same strings; otherwise the copy is a new plain vector |
| `Charpack.Charpack.SerializedState` | src/charpack_altrep.h:562-590 | the buffer in little-endian order on any host, or a new character vector exactly when a record is native outside a UTF-8 locale; the vector itself is unchanged |
| `Charpack.HasNativeTag` | src/charpack_altrep.h:180-183 | found exactly when some record is tagged native |
| `Charpack.RelabelNative` | src/charpack_altrep.h:618-629 | in place, exactly the native tags become UTF-8: the buffer becomes the layout of the relabelled records |
| `Charpack.Unserialize` | src/charpack_altrep.h:592-631 | strings stay as they are; a raw state is accepted exactly when it is a layout of some record list, is adopted without copying, and is read as that list, where a native record says in every locale what its bytes say in UTF-8; a rejected one is left as it was; an ALTREP raw vector and any other type are rejected |
| `Charpack.SaveAndRestore` | src/charpack_altrep.h:562-631 | for any charpack, writer and reader host and locale: a filled one comes back with its records and width, or as strings exactly when a record is native outside a UTF-8 locale; any other comes back as the strings it shows; the text is the same under every way to decode exactly when no record is tagged ASCII with other bytes or the native charsets are one |
| `PackRuns.RunCalls` | src/charpack_altrep.h:30-36 | on the heap: after any run of fills, reads, writes, materializations, duplicates and subsets of charpacks that share buffers, what R sees, and what every read showed, is what plain vectors that share nothing would show; every buffer there was before the run holds the bytes it held, and every buffer that a call of the run gave, which is one exactly when the plain vectors say so, still holds the layout that its call wrote |
| `PackRuns.RunKeeps` | src/charpack_altrep.h:30-36 | on the heap: over any run each vector only moves from unfilled to filled to materialized, and one that no call names ends in the phase and with the strings it had |
| `PackRuns.Step` | src/charpack_altrep.h:185-228 | on the heap: one call on one object, fresh or sharing its buffer, does to what R sees of all objects what it does to plain vectors, and gives a new buffer of the records it fills with or selects, or none |
| `PackRuns.RunForward` | src/charpack_altrep.h:30-36 | the plain vectors of `RunCalls` only move forward, and one that is still filled shows what it showed |
| `PackRuns.UntouchedUnchanged` | src/charpack_altrep.h:186-228 | a plain vector of `RunCalls` that no call names ends as it began |
| `PackRuns.SelectPacked` | src/charpack_altrep.h:245-314 | a subset of a filled object is a new filled object that shows the selected strings, refused exactly when no buffer holds them |
| `RStrings.ElementOfString` | src/charvec_altrep.h:58-106 | an R string stored as a record and made again is the same string |
| `RStrings.StringTag` | src/charvec_altrep.h:68-80 | a stored string is tagged ASCII, 254, exactly when R marks nothing and all its bytes are below 128, and native, 0, exactly when R marks nothing and some byte is not; so no stored string is mislabelled |
| `RStrings.RecordText` | src/charvec_altrep.h:42-56 | under any decoding that keeps ASCII a record says its bytes in UTF-8 for tags 1 and 100, in latin1 for 2, as bytes for 3 and in the native charset otherwise, in every locale |
| `RStrings.RelabelReads` | src/charpack_altrep.h:618-629 | records read from a packed state: native ones say in every locale what their bytes say in UTF-8, all others come back as they are, and in a UTF-8 locale all do |
| `RStrings.RelabelText` | src/charpack_altrep.h:566-581 | under any decoding that keeps ASCII, a packed record written in one locale says the same text in another exactly when it is not tagged ASCII with other bytes, or the native charsets spell those bytes alike |
| `RStrings.RelabelTexts` | src/charpack_altrep.h:618-629 | the same for whole vectors |
| `RStrings.RelabelAlways` | src/charpack_altrep.h:618-629 | a vector says the same text under every decoding that keeps ASCII exactly when no record is tagged ASCII with other bytes or the native charsets are one |
| `RStrings.MislabelledChangesText` | src/charpack_altrep.h:566-581 | a concrete record, tagged ASCII but not ASCII, whose text changes between two locales under any decoding in which their native charsets spell its byte differently |
| `Allocator.RoundUpLeast` | inst/include/charport/charvec/detail.h:96-102 | the least multiple of the alignment not below the value |
| `Allocator.NextPowerOfTwo` | inst/include/charport/charvec/detail.h:104-113 | the least power of two not below the value when one fits size_t, and the value itself otherwise; no shift overflows |
| `Allocator.PowerFromLeast` | inst/include/charport/charvec/detail.h:104-113 | the doubling stops at the least power of two that is large enough |
| `Allocator.InitialSliceHeuristic` | inst/include/charport/charvec/builder.h:43-49 | the first slice's size for a vector length, with no overflow up to R's maximum length |
| `Allocator.NextSliceFits` | inst/include/charport/charvec/builder.h:83-95 | a slice opened for a valid length holds it, and its size is a multiple of 64 that fits a u32, so checked_u32 never fails |
| `Allocator.InitialSliceSize` | inst/include/charport/charvec/builder.h:37-49 | no first slice for one record or none; otherwise at least 4 bytes a record and 64, at most 16384, and less than 8 bytes a record above that floor |
| `Allocator.NextSliceSize` | inst/include/charport/charvec/builder.h:83-95 | a slice is as large as the request, the first slice's size, and half of all bytes given out so far up to 262144, and less than 64 bytes larger than that |
| `Allocator.TakeBound` | inst/include/charport/charvec/builder.h:79-100 | one allocation keeps the cursor inside the newest slice and the space bound |
| `Allocator.RetiredBound` | inst/include/charport/charvec/builder.h:37-100 | after any run of allocations the slices other than the newest hold at most twice the bytes asked for, less what the newest has given out |
| `Allocator.SlicesFew` | inst/include/charport/charvec/builder.h:37-100 | over any run of allocations the slices opened are at most 54 and two for every 262144 bytes asked for |
| `Allocator.MatchStep` | inst/include/charport/charvec/writer.h:67-86 | from matching cursors the Writer and a builder answer a request alike and still match |
| `Allocator.WriterMatchesBuilder` | inst/include/charport/charvec/writer.h:67-86 | for the same lengths and vector size the Writer opens the same slice sizes and hands out the same offsets as the builders |
| `Chain.SliceChain.Move` | inst/include/charport/charvec/store.h:69-71 | the new chain has the other's slices in order, and the other is empty |
| `Chain.SliceChain.PushFront` | inst/include/charport/charvec/store.h:90-94 | one new slice in front of the old ones |
| `Chain.SliceChain.Count` | inst/include/charport/charvec/store.h:105-111 | the number of slices |
| `Chain.SliceChain.Clear` | inst/include/charport/charvec/store.h:113-119 | every slice is given back, none twice, and the chain is empty |
| `Chain.SliceChain.MoveAssign` | inst/include/charport/charvec/store.h:73-80 | the chain has the other's slices, its own are given back, the other is empty; self-assignment changes nothing |
| `Chain.SliceChain.Prepend` | inst/include/charport/charvec/store.h:121-133 | the chain becomes the other's slices followed by its own, in order, and the other is empty; the list stays acyclic |
| `Ownership.RunAccounted` | inst/include/charport/charvec/store.h:66-133 | over any run of opening, prepending, moving, clearing and renewing, every slice ever opened is in exactly one chain, once, until it is given back, once; `ChainRuns.RunChains` shows that the linked chains do what this ledger says |
| `Ownership.StepAccounted` | inst/include/charport/charvec/store.h:66-133 | each chain operation conserves every slice |
| `Ownership.FreedForGood` | inst/include/charport/charvec/store.h:113-119 | a slice given back is never again in any chain |
| `Ownership.NothingLeaks` | inst/include/charport/charvec/store.h:82 | once every chain is empty, every slice ever opened was given back exactly once |
| `ChainRuns.RunChains` | inst/include/charport/charvec/store.h:40-134 | on the heap: after any run of chain operations on any number of chains every chain is a sound acyclic list of the slices the ledger says, no two share a slice, and exactly the slices the ledger lists were given back |
| `ChainRuns.StepChains` | inst/include/charport/charvec/store.h:66-133 | on the heap: each operation, resetting a builder and finishing a shard included, moves the chains by one step of the ledger, and finds the chains it needs apart |
| `ChainRuns.AccountedApart` | inst/include/charport/charvec/store.h:121-133 | chains whose slices a ledger accounts for have no slice in common, which prepending and move assignment need |
| `ChainRuns.AllFreed` | inst/include/charport/charvec/store.h:113-119 | once every chain on the heap is empty, every slice ever opened was given back |
| `RecordArrays.Table.Grow` | inst/include/charport/charvec/store.h:233-244 | three larger arrays hold, slot by slot, the entries the old ones held |
| `RecordArrays.Table.Reserve` | inst/include/charport/charvec/store.h:225-245 | fails exactly above the maximum, keeps every entry, and makes exactly the room asked for when there was less; the arrays are new or the old ones |
| `RecordArrays.Table.ReserveForAppend` | inst/include/charport/charvec/store.h:247-259 | fails exactly when the table is as large as any may be; otherwise there is room for one more, at most doubled, and every entry is kept |
| `RecordArrays.Table.PushBack` | inst/include/charport/charvec/store.h:261-271 | the entries grow by one, whether or not the arrays had to grow, or nothing changes exactly when the table is as large as any may be |
| `RecordArrays.Table.Copy` | inst/include/charport/charvec/store.h:155-164 | a table of the same entries and capacity with arrays of its own |
| `RecordArrays.Table.CopyAssign` | inst/include/charport/charvec/store.h:166-170 | the table becomes a copy with arrays of its own, and the other keeps its entries, also when it is the same table |
| `RecordArrays.MakeTable` | inst/include/charport/charvec/store.h:146-153 | n NA entries, or nothing exactly above the maximum |
| `RecordArrays.RunBoth` | inst/include/charport/charvec/store.h:136-271 | over any run of reserving, appending and setting the three arrays stay, entry for entry and in capacity, the table that the rest of the model uses |
| `RecordArrays.AppendsCopyFew` | inst/include/charport/charvec/store.h:247-259 | doubling pays: the copies counted over n appends are fewer than 2n, and fewer than n slots are unused |
| `RecordArrays.AppendAll` | inst/include/charport/charvec/store.h:233-271 | appending n entries one by one to an empty table gives a table of exactly those entries, and growing copies exactly what is counted: fewer than 2n entries in all |
| `Stores.Store.constructor` | inst/include/charport/charvec/store.h:293-298 | n NA records, and one slice of the size asked for, or none |
| `Stores.Store.Move` | inst/include/charport/charvec/store.h:302 | the records and the slices change owner and stay laid out |
| `Stores.Store.MoveAssign` | inst/include/charport/charvec/store.h:303 | the same, and every slice the target had is given back |
| `Stores.Store.Reserve` | src/charvec_altrep.h:474-498 | succeeds exactly for a valid length and index; the entry keeps its place when the length fits, else gets a slice of its own; no two entries share a byte |
| `Stores.Store.Assign` | src/charvec_altrep.h:503-510 | exactly record idx changes, to the assigned value; every other entry and record stays, and the table stays laid out in slices the Store owns |
| `Stores.WriteRow` | src/charvec_altrep.h:507-509 | writing one entry's bytes in a laid-out table changes that record only |
| `Stores.LaidUpdate` | src/charvec_altrep.h:474-498 | replacing an entry by one that meets no other keeps all entries in pairwise disjoint places |
| `Stores.StoredIsRec` | src/charvec_altrep.h:503-510 | assignment stores the value exactly unless the value is NA by pointer or length but tagged otherwise, when it stores an empty string |
| `Stores.ViewSays` | src/charvec_altrep.h:97-106 | a view is NA exactly when its pointer is null, its length NA_INTEGER or its tag 255, and otherwise so many bytes from its pointer |
| `Stores.NullStoredEmpty` | src/charvec_altrep.h:503-510 | a concrete view, null but tagged UTF-8, that is NA and is stored as an empty string |
| `Compaction.StopExact` | src/charvec_altrep.h:339-349 | a block stops at j exactly when the records up to j fit and the next does not |
| `Compaction.StopAdvances` | src/charvec_altrep.h:374 | with valid lengths every block takes at least one record, so the fallback that would drop one is never taken |
| `Compaction.SlicesBound` | src/charvec_altrep.h:333-378 | no slice exactly when there are no live bytes, and otherwise at most 1 + total / (2^31 + 1) |
| `Compaction.SlicesLeast` | src/charvec_altrep.h:333-378 | no contiguous grouping of the records into slices of at most 2^32 - 1 bytes needs fewer slices |
| `Compaction.ScanBlock` | src/charvec_altrep.h:339-349 | the scanning loop finds the block's stop and its byte count |
| `Compaction.CopyRecord` | src/charvec_altrep.h:353-364 | one record is copied to its place in the block; no other record, and no source byte, changes |
| `Compaction.CopyBlock` | src/charvec_altrep.h:351-365 | a block's records are copied end to end into a slice of exactly their size |
| `Compaction.CopyEmpties` | src/charvec_altrep.h:366-373 | a block without bytes copies its empty strings and needs no slice |
| `Compaction.RebuildStore` | src/charvec_altrep.h:333-378 | the new Store holds the same records in fresh slices that hold exactly the records' bytes in all, each of 1 to 2^32 - 1 bytes, and as many as the grouping needs; the source is unchanged |
| `Compaction.Compact` | src/charvec_altrep.h:512-514 | the same records, the rebuild's slices of exactly the records' bytes, and every old slice given back |
| `Compaction.RunChanges` | src/charvec_altrep.h:474-514 | after any run of assignments and compactions the live records are in pairwise disjoint places in slices the Store owns and hold what a plain list given the same changes holds |
| `Builders.Shard.AllocateBytes` | inst/include/charport/charvec/builder.h:79-100 | the block handed out fits the newest slice right after what it had given out; the cursor moves as the policy says, within the space bound |
| `Builders.Shard.OpenSlice` | inst/include/charport/charvec/builder.h:84-94 | one new slice of the policy's size, which fits a u32 |
| `Builders.FillRecord` | inst/include/charport/charvec/builder.h:102-120 | the errors in source order; else the entry gets space that no entry has, and every other entry stays |
| `Builders.CopyRecord` | inst/include/charport/charvec/builder.h:122-128 | exactly record idx changes, to a copy of the value; an error changes nothing |
| `Builders.FinishShard` | inst/include/charport/charvec/builder.h:237-240 | the Store's chain becomes the shard's slices followed by its own, and the shard starts over |
| `Builders.MakeBuilder` | inst/include/charport/charvec/builder.h:130-135 | a builder of n NA records, or the error of a negative or too large n |
| `Builders.Builder.Set` | inst/include/charport/charvec/builder.h:190-206 | exactly record i of the contents changes, to the value or NA; the errors leave everything as it was |
| `Builders.Builder.ReleaseStore` | inst/include/charport/charvec/builder.h:218-240 | the Store given away has the builder's records, all in slices it owns itself, and the builder keeps none |
| `Builders.Builder.Reset` | inst/include/charport/charvec/builder.h:184-188 | n NA records, and every slice the builder had is given back; a negative or too large n is an error that changes nothing |
| `Builders.Scalar` | inst/include/charport/charvec/store.h:305-322 | a Store of one record in a first slice of exactly its size, or none for NA and the empty string |
| `GrowableBuilders.GrowableBuilder.AppendReserve` | inst/include/charport/charvec/builder.h:368-386 | the errors in source order; else one more entry in space that no entry has, sized without regard to the length |
| `GrowableBuilders.GrowableBuilder.Append` | inst/include/charport/charvec/builder.h:349-366 | the contents grow by the value and nothing else changes; an error changes nothing; a slice it opens is new |
| `GrowableBuilders.GrowableBuilder.ReleaseStore` | inst/include/charport/charvec/builder.h:392-414 | the Store given away has the appended records, all in slices it owns itself |
| `GrowableBuilders.LaidAppend` | inst/include/charport/charvec/builder.h:368-386 | appending an entry that meets no other keeps all entries in pairwise disjoint places |
| `Writers.Writer.Reserve` | inst/include/charport/charvec/writer.h:65-86 | the space is apart from every record, and slice sizes and offsets are the allocator policy's; it fails exactly for a length above R's limit |
| `Writers.Writer.Set` | inst/include/charport/charvec/writer.h:88-97 | for any pointer: record i points at it, or is NA or empty, and every other entry stays; the errors leave the table as it was; the Store stays laid out when the bytes are space given out that no other record uses |
| `Writers.Writer.Copy` | inst/include/charport/charvec/writer.h:108-120 | exactly record i changes, to a copy of the value, and the Store stays laid out; it opens a slice, a new one, exactly when the policy says; an error changes no record |
| `Schedules.StepTouches` | inst/include/charport/charvec/builder.h:273-282 | a call touches its own shard's cursor and its own record, nothing else |
| `Schedules.RunIsLocal` | inst/include/charport/charvec/builder.h:246-338 | what a shard owns after a run is what it would be had only its own calls run |
| `Schedules.SchedulesAgree` | inst/include/charport/charvec/builder.h:246-338 | when each index belongs to one shard, any two interleavings of the same workers end in the same state, down to the slice and offset of every byte |
| `Schedules.SameAsSerial` | inst/include/charport/charvec/builder.h:246-338 | the records are those of the same calls made one after another, which `FillRuns.RunSerial` shows the serial builder to hold |
| `Schedules.SchedulesAgreeWithSerial` | inst/include/charport/charvec/builder.h:246-338 | and those of the calls in the order of any other schedule of the same workers |
| `ParallelBuilders.ParallelBuilder.Set` | inst/include/charport/charvec/builder.h:273-294 | the heap moves exactly as one call of the schedule's model does: one record, one shard, every byte where the model puts it; the errors in source order |
| `ParallelBuilders.RunSchedule` | inst/include/charport/charvec/builder.h:246-338 | after the calls of any schedule the heap is, byte for byte, where the model of that run puts it, so schedules that agree in the model leave the same builder |
| `ParallelBuilders.ParallelBuilder.ReleaseStore` | inst/include/charport/charvec/builder.h:303-334 | the Store given away has the model's records and owns every shard's slices, the last shard's first, whatever the schedule was |
| `ParallelBuilders.FinishAll` | inst/include/charport/charvec/builder.h:329-334 | the loop prepends shard after shard, so the chain is shard k - 1 to shard 0 and then what the Store had |
| `ParallelBuilders.MakeParallelBuilder` | inst/include/charport/charvec/builder.h:248-269 | a builder of n NA records and k empty shards, or the first error of no shards, a negative and a too large n |
| `ParallelBuilders.RowsStep` | inst/include/charport/charvec/builder.h:102-128 | a call keeps all entries in pairwise disjoint places across all shards, and each where the model puts it |
| `ParallelBuilders.SeparateStep` | inst/include/charport/charvec/builder.h:79-100 | a shard that opens a slice still shares none with any other shard or the Store |
| `FillRuns.RunSerial` | inst/include/charport/charvec/builder.h:190-206 | on the heap: a serial builder given the calls of a schedule one after another holds the records, and has the cursor, that the calls give |
| `FillRuns.FillBoth` | inst/include/charport/charvec/builder.h:130-338 | on the heap: the Store a parallel builder releases after any schedule has the records of the one a serial builder releases after the calls in the order of any schedule of the same workers |
| `FillRuns.RunWriter` | inst/include/charport/charvec/writer.h:65-120 | on the heap: a Writer given any calls holds the records they give and has opened slices of the sizes a builder opens |
| `FillRuns.FillWriter` | inst/include/charport/charvec/writer.h:55-120 | a Writer over a new Store gives the serial builder's Store: the same records, in slices of the same sizes |
| `FillRuns.FillSerial` | inst/include/charport/charvec/builder.h:130-240 | the Store a serial builder releases has the records the calls give, in slices of the sizes the policy gives |
| `FillRuns.RunAppends` | inst/include/charport/charvec/builder.h:349-386 | on the heap: a growable builder holds, after any appends, the values in order, without those that are too long or find the table full |
| `Construction.StoreFromChars` | src/charvec_altrep.h:391-398 | a Store of exactly the strings' records, each tagged as `RStrings.StringTag` says |
| `Construction.FromViews` | src/charvec_api.cpp:63-111 | a Store of records that are what the arrays say, entry by entry, the same that a charpack fill holds, exactly when n is in range, no array is null and every entry passes; otherwise the error of the first check that fails, naming the first entry of the arrays that fails |
| `Construction.SubsetStore` | src/charvec_altrep.h:405-440 | a new Store of exactly the records that charpack's subsetting selects, sharing nothing with the source, which is unchanged |
| `EltCache.SlotOf` | src/charvec_altrep.h:531-538 | element i has a slot: chunk i / 1024, slot i % 1024 |
| `EltCache.ElementOfSlot` | src/charvec_altrep.h:531-538 | every slot of every chunk is one element's, and no chunk is empty or longer than 1024 |
| `EltCache.EltOk` | src/charvec_altrep.h:726-746 | a read returns the element, leaves what R sees, returns the rooted object when there is one, roots what it returns unless that is the blank string, and keeps every other slot |
| `EltCache.SetEltOk` | src/charvec_altrep.h:748-766 | a write changes exactly element i of what R sees and keeps cache and Store in agreement |
| `EltCache.MaterializeOk` | src/charvec_altrep.h:612-668 | materializing leaves what R sees and keeps every rooted object |
| `EltCache.PourOk` | src/charvec_api.cpp:135-149 | a direct write to the Store, allowed only without data2 and cache, changes exactly one element and leaves no stale object |
| `EltCache.SelectOk` | src/charvec_altrep.h:789-818 | a subset shows the selected strings, whether its source holds records or, once materialized, objects |
| `EltCache.StepRefines` | src/charvec_altrep.h:594-766 | one operation does to what R sees what it does to plain vectors, and keeps every slot blank or equal to its record |
| `EltCache.RunRefines` | src/charvec_altrep.h:521-818 | over any run of reads, writes, direct writes, compactions, materializations, copies and subsets of any vectors, they show what plain vectors given the same writes show; `CharvecRuns.RunOps` shows that the objects run as this model does |
| `EltCache.ReadsAgree` | src/charvec_altrep.h:726-746 | whatever ran before, every element read is the plain vector's |
| `EltCache.StepRoots` | src/charvec_altrep.h:521-526 | a step that does not assign element i leaves its rooted object in place, through first touches, copies and materialization |
| `EltCache.RunRoots` | src/charvec_altrep.h:521-526 | an object rooted for an element stays rooted through any run that does not assign the element, and is what reading returns |
| `EltCache.ReadRoots` | src/charvec_altrep.h:521-526 | a string object handed out, other than the blank string, is handed out again for that element after any run that does not assign it |
| `CacheLaws.RunGenuine` | src/charvec_altrep.h:58-61 | when only genuine objects are written, every object held in a chunk or in data2, or handed out, over any run of any vectors, is NA_STRING exactly when its value is NA and the blank string exactly when it is blank |
| `CacheLaws.OneNa` | src/charvec_altrep.h:740 | so any two reads of NA in a run, of whichever vectors, give one object |
| `CacheLaws.SelectedObject` | src/charvec_altrep.h:789-818 | a subset of a materialized vector holds the selected objects themselves, and NA_STRING where it selects none |
| `CacheLaws.RunHonest` | src/charvec_altrep.h:748-766 | over any run of reads, string writes, materializations, compactions, copies and subsets no vector comes to hold an invalid record or one tagged ASCII with other bytes |
| `Charvecs.Charvec.EltChunk` | src/charvec_altrep.h:701-724 | the chunk directory and the chunk are made on first touch only, and no other slot changes |
| `Charvecs.Charvec.StringElt` | src/charvec_altrep.h:726-746 | the object returned and the new state are those of the cache's read step, whose objects `CacheLaws.RunGenuine` shows to be R's own NA and blank string where they are those; all it comes to own is new |
| `Charvecs.Charvec.StringSetElt` | src/charvec_altrep.h:748-766 | the new state is that of the cache's write step: data2, or an allocated chunk and a Store record tagged as `RStrings.StringTag` says; all it comes to own is new |
| `Charvecs.Charvec.Materialize` | src/charvec_altrep.h:605-668 | the strings are the cached objects and new or R's own ones for the rest, on the promotion path in its single chunk itself and on the copying path in a new array, and every slice of the Store is given back |
| `Charvecs.PromoteChunk` | src/charvec_altrep.h:622-636 | a single chunk, filled in place, holds exactly the vector's strings and keeps its cached objects |
| `Charvecs.CopyAll` | src/charvec_altrep.h:638-664 | the mixed copy of present and missing chunks gives every element its cached object or a new one |
| `Charvecs.Charvec.Duplicate` | src/charvec_altrep.h:670-681 | a copy with a Store and no cache of its own, or a new plain vector of the same objects |
| `Charvecs.Charvec.GetStore` | src/charvec_api.cpp:135-149 | the Store exactly when nothing is materialized or cached, and then no object is rooted for any element |
| `Charvecs.Charvec.WriteDirect` | src/charvec_api.cpp:135-149 | a write to that Store is the model's direct write step, and happens exactly when the Store may be had |
| `Charvecs.Charvec.CompactStore` | src/charvec_api.cpp:220-225 | fails exactly when materialized; otherwise records and cache are unchanged, the slices are the rebuild's, as many as the grouping needs and of exactly the live bytes in all, every one new, and the old ones are given back |
| `Charvecs.Charvec.Assign` | src/charvec_api.cpp:202-218 | succeeds exactly for one string and a subscript in 1 to n, and then is the write step at its integer part |
| `Charvecs.Charvec.ExtractSubset` | src/charvec_altrep.h:789-818 | a new charvec of the selected records, or nothing exactly when materialized |
| `CharvecRuns.RunOps` | src/charvec_altrep.h:594-818 | on the heap: after any run of reads, writes, direct writes, materializations, compactions, copies and subsets of any charvecs, the objects are the model's run and every read returned the model's object; they still share nothing |
| `CharvecRuns.RunSeen` | src/charvec_altrep.h:521-818 | on the heap: what R reads after any run is what plain vectors given the same writes hold, and any other charvec is as it was |
| `CharvecLaws.RunGenuineOps` | src/charvec_altrep.h:726-746 | on the heap: over any run that writes genuine objects, every object held or handed out is genuine |
| `CharvecRuns.Step` | src/charvec_altrep.h:594-818 | on the heap: one operation moves the objects by one step of the model, and every other object stays as it was |
| `Cpv.WritesCpvImage` | src/charvec_altrep.h:126-145 | a buffer says recs exactly when it is, byte for byte, their state |
| `Cpv.HoldsCpvUnique` | src/charvec_altrep.h:126-145 | a buffer is the state of at most one record list, in one version and byte order |
| `Cpv.ExactBody` | src/charvec_altrep.h:302-329 | a body whose records are sound and whose sizes cover the payload is the body of a list of valid records |
| `Formats.StateBytes` | src/charvec_altrep.h:126-145 | in numbers: a state is "CPV1" or "CPV2", 1 or 2 for its byte order, the count in the 8 bytes at 5, sizes of 4 bytes from 13 on, a tag byte a record, and the bytes |
| `Cpv.AcceptedIffTagged` | src/charvec_altrep.h:302-329 | the state a Store writes is one the parser accepts exactly when every tag is a known one |
| `Cpv.UnknownTagRefused` | src/charvec_altrep.h:302-329 | a concrete record with an unknown tag whose state is written and then refused |
| `CpvParse.HeaderErrorExact` | src/charvec_altrep.h:241-300 | the header passes exactly when it names a version and byte order and the regions its body names fit |
| `CpvParse.ParseHeader` | src/charvec_altrep.h:239-300 | the first failing header check in source order, as literal conditions on the bytes, or what the header says; no size sum overflows |
| `CpvParse.CheckSizes` | src/charvec_altrep.h:302-329 | none exactly when every record is sound and the sizes cover the payload; otherwise the first failing record passes every check before the one that is named and fails that one, as literal conditions on its size and tag |
| `CpvParse.Parse` | src/charvec_altrep.h:241-329 | accepts exactly the states of lists of valid records, and reads each as the list it is the state of |
| `CpvState.UnserializeStore` | src/charvec_altrep.h:442-472 | a CPV1 state's records come back as they are, in every locale; a CPV2 state's native records say in every locale what their bytes say in UTF-8, and all others come back as they are |
| `CpvState.LoadRecord` | src/charvec_altrep.h:452-469 | one record's size, tag and bytes are those of the list the state is of, with a native tag kept or made UTF-8 as `CpvState.LoadedReadBack` says |
| `CpvState.LoadedReadBack` | src/charvec_altrep.h:447-463 | what is loaded is what a reader must make of it: CPV1 exactly as written, CPV2 with native records as UTF-8 text |
| `CpvState.WriteLittle` | src/charvec_altrep.h:188-200 | the word is little-endian in memory on either host |
| `CpvState.WriteState` | src/charvec_altrep.h:840-878 | the buffer is, byte for byte, the CPV2 little-endian state of the records, or refused exactly when no raw vector is that long |
| `CharvecState.SerializedState` | src/charvec_altrep.h:820-880 | the strings once materialized, a new character vector exactly when a record is native outside a UTF-8 locale, else the packed state, or refused exactly when no raw vector holds it |
| `CharvecState.Unserialize` | src/charvec_altrep.h:882-893 | strings stay as they are; a packed state is accepted exactly when it is the state of some list of valid records, and gives a charvec of that list, read back as its version says; any other type is refused |
| `CharvecState.EitherFlag` | src/charvec_altrep.h:126-136 | states written with either endian flag are accepted on any host and read as the same records |
| `CharvecState.SaveAndRestore` | src/charvec_altrep.h:820-893 | for any charvec, writer and reader host and locale: strings come back as they were; a packed state is written exactly when a raw vector holds it and accepted exactly when every tag is known, and then the records come back and say the same text under every way to decode exactly when none is tagged ASCII with other bytes or the native charsets are one |
| `CharvecLaws.FromStrings` | src/charvec_api.cpp:113-123 | a charvec of a character vector shows exactly its strings, and holds only genuine objects and honest records |
| `CharvecLaws.SaveHonest` | src/charvec_altrep.h:820-893 | a vector without mislabelled records, saved in one locale and restored in another, comes back as its strings or as a vector of the same texts, whenever a state can be written, with no condition on the locales |
| `CharvecLaws.RunAndSave` | src/charvec_altrep.h:594-893 | on the heap, the whole law: vectors of R's strings, after any run without direct writes that mislabel, and saved between any two hosts and locales, come back as the strings of plain vectors given the same writes or as a vector of the same texts |
| `Ascii.CheckScalar` | inst/include/charport/charvec/detail.h:47-53 | true exactly when every byte is below 128 |
| `Ascii.CheckBlocks` | inst/include/charport/charvec/detail.h:25-45 | the blockwise check with gathered top bits says the same as the scalar one, for every length |
| `Ascii.OrGathers` | inst/include/charport/charvec/detail.h:29-34 | or-ing registers gathers exactly the top bits set in either |
| `Ascii.AsciiNumbers` | inst/include/charport/charvec/detail.h:24-54 | both checks decide what the rest of the model calls ASCII |

## Left out

- The class registry, the broker and `wrap_string`, the C++ Reader wrapper, status codes and exceptions, and the Rcpp and cpp11 adapters: dispatch over R internals.
- R's garbage collection, protection, finalizers, long jumps and allocation failure; the errors for embedded NUL bytes.
- Interning of strings beyond what is assumed above: a string R makes may be any object with the right content.
- The probe that decides whether the native encoding is UTF-8: the locale is a parameter.
- The hardware memory model: parallel fills are interleavings of whole calls.
- Stores.RecordTable: is one sequence of entries, so that its many callers need not speak of three arrays; `RecordArrays` models those and shows that the two stay the same over any run.
- A slice's header and its bytes are an object and its array; freeing a slice is a mark that may be set once.
- Writes past these methods: direct edits of a public Store, and `reserve` of a builder without its bytes being written.
- PackFill.SlicingIrrelevant: asks that NA show in a length or an encoding, since slices carry no pointers.
- CharvecState.EitherFlag: asks that the states fit R raw vectors.
- Compaction.RunChanges: assigns views as `store_assign` stores them; when that differs from the view is `Stores.StoredIsRec`.
- PackRuns.RunCalls: an ordinary character vector takes part as a materialized charpack, whose reads and writes are the same; in `CharvecRuns.RunOps` likewise.
- Schedules.SchedulesAgree: is about `set`; `reserve` and `set_na` move the same state.
- Ascii.CheckBlocks: is about eight-bit bit-vectors; `Ascii.AsciiNumbers` links them to numbers.
- Construction.FromViews: reports a length above the maximum in place of the exception the record table raises.
- `No_NA`, `Inspect`, the readers of encodings alone, `charvec_alloc`, `alloc_na`, `stats`, and `ParallelBuilder::reset` after its first use.
- The R wrapper functions, names and other attributes, benchmarks, tests and documentation.
- `charvec_bswap_packed`, which nothing calls, and the padding between shards.
