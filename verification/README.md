# Noriko, verified

Noriko is a game engine written in C. This project models the parts of it that compute something
hard, and proves what they promise: the pool allocator, the Robin Hood hash table, and seven smaller
algorithms (sorting, random numbers, UUIDs, bitmap filling, the main loop's time keeping, component
startup and shutdown, UTF-8 paths, object creation). Windows, rendering, files and the database are
not modelled.

`dafny verify dfyconfig.toml` checks everything.

## How to read the project

The code is kept as it is, including what deviates from its own documentation. Where a promise fails,
there is a lemma with an input on which it fails, and a lemma that says exactly when it holds; where
the intended form is worth having, it is proved beside the one of the code.

| file | content |
|---|---|
| `PoolSizing` | size arithmetic of a pool in 32 bits; the requested blocks always fit |
| `PoolLayout` | header arrays as lists of segments; they are never ambiguous; allocations as disjoint ranges |
| `PoolBlocks` | class `Pool`: search, allocation and release on one header array, with its cached counters |
| `PoolTable` | the slots of the pool table and the cached free slot, as values |
| `PoolAllocator` | class `Allocator`: the public operations, from addresses to allocations and back |
| `PoolRuns` | whole runs: the client's books of byte ranges agree with the allocator |
| `RobinHood` | probe sequences on slot arrays: insertion, ordering, lookup, rebuilding |
| `Hashtable` | class `Hashtable`: the table refines a finite map, whatever the hash function is |
| `Quicksort` | partition and sort of an array in place |
| `Xoshiro`, `Uuid` | the generator's state update is a bijection; UUID text conversion, generation, comparison |
| `BitmapFill` | stride, and the two loops that fill an image by doubling |
| `FixedTimestep` | updates at a fixed rate: no time is lost over any run |
| `ComponentLifecycle` | shutdown as the reversal of startup |
| `Utf8Path` | walking over UTF-8, and rewriting path separators in place |
| `ObjectCreation` | the reference-count protocol of object creation |
| `Arithmetic`, `Basics` | facts on quotients and remainders; what several modules share |

What the code does differently from what it says:

- The pool search (`src/Noriko/alloc.c:513-514`) does not move the block it inspects while skipping used
  blocks, so it gives up as soon as the run at the first free block is too short
  (`PoolBlocks.SearchIsLeftmostIff`, `SearchGivesUpEarly`). `FindRangeAdvancing` is the search of the comment.
- Releasing the last allocation of a pool caches the *last* free slot above it
  (`src/Noriko/alloc.c:789-791`), and the next request searches upwards only. Five operations then make a
  new pool overwrite a live one (`PoolTable.FiveOperationsOverwrite`). `PoolTable.OverwritesIff` says for
  every run exactly when that happens, and `PoolRuns.AcceptedIffNotStranded` for every run of the allocator.
  A slot released from a full table is forgotten, and requests are refused although it is free:
  `PoolTable.ForgottenIff`. When a request does obtain a pool: `PoolRuns.ObtainsPoolIff`.
  `PoolTable.LeastRunIsSafe` and `PoolRuns.LeastNeverBlocks` are about the evident intent, in which the
  least free slot is kept; `PoolTable.ReleaseKeepsLeastIff` says when the code keeps it. The class
  `Allocator` has the code's form.
- A request is not compared with the size of the pool made for it (`src/Noriko/alloc.c:713-727`):
  `PoolAllocator.NewPoolTakesIff`, `LargeRequestOverrunsNewPool`. `NkPoolReserve` does not check that the
  block size is a multiple of 8, and no size is checked for wrapping: `PoolSizing.FitsIff` and
  `RequestIsCoveredIffNoWrap` say which requests are served correctly, `UnalignedBlockSizeOverruns` and
  `WrappedRequestIsEmpty` are two that are not. The argument in the comment at
  `src/Noriko/alloc.c:272-292` leaves out that no byte may be left over; `NoOddCountWithoutSlack` closes it.
- The hash table's insertion loop never advances its counter (`src/Noriko/dstruct/htable.c:270`), so it ends
  exactly if a slot is free. `NkHashtableClear` rebuilds with the minimum capacity before it empties the
  table, and ends exactly if the elements fit (`RobinHood.RebuildEndsIff`, `ClearOfTwoNeverEnds`).
- The sort leaves ranges of two elements alone, and `split - 1` wraps at index 0
  (`src/Noriko/sort.c:91`, `src/Noriko/sort.c:98`; documentation `include/Noriko/sort.h:36-38`):
  `Quicksort.SortAsWritten` says exactly when the array is left and when the result is sorted;
  `DeparturesFromDocumentation` has inputs.
- The table of character sizes is indexed with a plain `char` (`src/Noriko/dstruct/string.c:80`), which is
  signed with the compiler of the project files (`proj/Noriko.vcxproj`): every character of more than one
  byte is then looked up outside the table. `Utf8Path.LookupsInTableIff`, `RewriteInTableIff` and
  `SignedLookupLeavesTable`. The signedness is a parameter of the model.
- The success flags of startup are shared by all components, and component index 0 is taken to mean that
  nothing was started: `ComponentLifecycle.ShutdownUndoesIff`.
- With a timer of 63 to 120 Hz the update loop can hang, since an update takes no whole tick off the lag:
  `FixedTimestep.SomeRunHangsIff`.
- The fill computes row indices in 32 bits (`src/Noriko/bmp.c:200-201`), while the size of the buffer is
  computed in the width of `NkSize`: beyond the bound of `BitmapFill.RowIndicesFit` the last rows are never
  filled (`Fill`, `LastRowIsMissed`).
- Reading a UUID goes on behind the end of a string that ends inside a byte, and behind the nibble table for
  characters from 0x80 on: exactly if the string is not `Uuid.Readable` (`src/Noriko/util.c:340-341`).
- Invoking a callback records its success at the index of its stage, in an array of three
  (`src/Noriko/application.c:65`, `src/Noriko/application.c:265`): for the three shutdown stages, whose index
  is 3 or more, that is behind the array.

## Model

| member | source | states |
|---|---|---|
| PoolSizing.FitsIff | src/Noriko/alloc.c:216-297 | For every block size and every requested count, wraps included: headers, padding and blocks at the adjusted count fit in the buffer if and only if that count is even or at least eight bytes are left over. |
| PoolSizing.AdjustedPoolFits | src/Noriko/alloc.c:216-297 | For block sizes divisible by 8 that condition always holds: the pool always fits. |
| PoolSizing.NoOddCountWithoutSlack | src/Noriko/alloc.c:272-295 | The case the comment leaves out: an odd adjusted count never uses up the whole buffer, so the 8 bytes of padding always exist. |
| PoolSizing.RequestIsCoveredIffNoWrap | src/Noriko/alloc.c:238-297 | For every block size: the adjusted count is at least the requested one if and only if the rounded exact size is representable in 32 bits. |
| PoolSizing.BufferIsTight | src/Noriko/alloc.c:270-271 | Without wrap the buffer is at least the exact size and exceeds it by less than a page. |
| PoolSizing.NewCountIsLargest | src/Noriko/alloc.c:294-294 | The adjusted count is the largest for which headers and blocks, padding aside, are within the buffer. |
| PoolSizing.BlocksAreAligned | src/Noriko/alloc.c:222-225 | The header section is a multiple of the block alignment, and the least such that holds the headers. |
| PoolSizing.DefaultPoolOfSixtyFour | src/Noriko/alloc.c:713-713 | The pool set up for the default count of 128 has 12288 bytes and 170 blocks of 64 bytes. |
| PoolSizing.BufferSizeIsExactModulo | src/Noriko/alloc.c:216-271 | The nested wrapping computation is the exact rounded size modulo 2^32. |
| PoolSizing.OddFactorCancels | src/Noriko/alloc.c:272-295 | An odd factor contributes nothing to divisibility by a power of two; the number theory behind the sizing theorem. |
| PoolSizing.UnalignedBlockSizeOverruns | src/Noriko/alloc.c:730-744 | An input outside the condition of `FitsIff`: a reserved pool of 454 one-byte blocks overruns its buffer. |
| PoolSizing.WrappedRequestIsEmpty | src/Noriko/alloc.c:238-297 | A request whose size wraps gets a pool without blocks. |
| PoolLayout.DecodingIsUnique | src/Noriko/alloc.c:652-667 | A header array encodes a list of Free, Single and Multi segments if and only if decoding yields that list: it is well formed in at most one way. |
| PoolLayout.DecodeOfEncode | src/Noriko/alloc.c:652-667 | Decoding inverts encoding. |
| PoolLayout.EncodeOfDecode | src/Noriko/alloc.c:652-667 | Whatever decodes was produced by the segments it decodes to. |
| PoolLayout.SegmentsAreDisjoint | src/Noriko/alloc.c:652-667 | Block ranges of different segments never overlap and lie in the pool. |
| PoolLayout.SegmentIsUnique | src/Noriko/alloc.c:434-474 | Every block belongs to exactly one segment. |
| PoolLayout.FreeRangeIsFreeRun | src/Noriko/alloc.c:496-511 | A run of zero flags is a run of free segments: no allocation is cut by it. |
| PoolLayout.OccupyHeaders | src/Noriko/alloc.c:652-667 | The headers after an allocation are those of one new segment, all others unchanged. |
| PoolLayout.VacateHeaders | src/Noriko/alloc.c:762-765 | The headers after a release are zero on exactly the range of one segment, all others unchanged. |
| PoolLayout.VacateUndoesOccupy | src/Noriko/alloc.c:746-765 | Releasing through any block of an allocation restores the segments there were before it. |
| PoolLayout.OccupyAddsOneRange | src/Noriko/alloc.c:652-667 | An allocation adds exactly one live range, apart from all live ones. |
| PoolLayout.VacateRemovesOneRange | src/Noriko/alloc.c:762-765 | A release removes exactly the range of the segment the block belongs to, and nothing if that is free. |
| PoolLayout.LiveRangesAreApart | src/Noriko/alloc.c:652-667 | Live ranges of a pool never overlap. |
| PoolLayout.LiveRangeOfBlock | src/Noriko/alloc.c:434-474 | A block covered by a live range lies in the segment with that start and length. |
| PoolLayout.UsedIsLive | src/Noriko/alloc.c:668-669 | The number of non-zero headers is the total length of the live allocations. |
| PoolLayout.LeastFree | src/Noriko/alloc.c:671-688 | The result is free, or the length, and nothing before it is free. |
| PoolBlocks.SearchIsLeftmostIff | src/Noriko/alloc.c:483-518 | The search as written returns the first free range that is large enough if and only if the first free block starts such a range, or there is none at all. |
| PoolBlocks.SearchGivesUpEarly | src/Noriko/alloc.c:512-514 | On free, used, free, free a request for two blocks is refused although it fits. |
| PoolBlocks.OccupyCached | src/Noriko/alloc.c:668-688 | An allocation of n blocks adds n used headers, all in its range. |
| PoolBlocks.VacateCached | src/Noriko/alloc.c:762-771 | After a release the least free index is the smaller of the old one and the start of the segment, and the used count drops by its length. |
| PoolBlocks.WalkBackStep | src/Noriko/alloc.c:456-461 | The walk back stops exactly at the first header of the allocation. |
| PoolBlocks.ReleasedLength | src/Noriko/alloc.c:762-765 | The length read from the first header, and zeroing that many headers, is the release of the segment; a free block reads as 0. |
| PoolBlocks.BlockOfAddress | src/Noriko/alloc.c:446-450 | Dividing by the block size gives the block for every byte of it. |
| PoolBlocks.Pool.constructor | src/Noriko/alloc.c:307-347 | A new pool, for any block size with which it fits, has the adjusted count, all blocks free, and correct cached values. |
| PoolBlocks.Pool.FirstUsed | src/Noriko/alloc.c:500-509 | First used block of a range, or its end; everything before is free. |
| PoolBlocks.Pool.FindRange | src/Noriko/alloc.c:483-518 | Terminates and answers as `FoundAsWritten`, of which `SearchIsLeftmostIff` speaks. |
| PoolBlocks.Pool.FindRangeAdvancing | src/Noriko/alloc.c:483-518 | With the inspected block advancing as the comment says: the leftmost free range whenever there is one, otherwise none exists. |
| PoolBlocks.Pool.NextFree | src/Noriko/alloc.c:677-684 | Least free block from an index on, or the end of the pool. |
| PoolBlocks.Pool.Allocate | src/Noriko/alloc.c:649-688 | The pool's segments become those with the range occupied; count and first-free index stay right. |
| PoolBlocks.Pool.MarkHeaders | src/Noriko/alloc.c:655-667 | Setting flags and length header by header yields the headers of one live segment, all others unchanged. |
| PoolBlocks.Pool.FirstHeader | src/Noriko/alloc.c:451-461 | From any block of an allocation the walk ends at its first header. |
| PoolBlocks.Pool.ClearHeaders | src/Noriko/alloc.c:764-765 | Zeroes exactly the given headers. |
| PoolBlocks.Pool.Release | src/Noriko/alloc.c:762-780 | Removes exactly the segment; reports whether any allocation is left; otherwise the cached values stay right. |
| PoolTable.RequestKeepsLeast | src/Noriko/alloc.c:314-363 | With the least free slot cached, a request takes it, is refused exactly when the table is full, overwrites nothing, and leaves the least free slot cached. |
| PoolTable.RequestStaysReadyIff | src/Noriko/alloc.c:349-363 | After a request from a usable index the next index is usable if and only if the table is full or a free slot lies above the one taken. |
| PoolTable.ReleaseKeepsLeastIff | src/Noriko/alloc.c:788-791 | The release as written keeps the least free slot if and only if every slot above is occupied and some slot below is free. |
| PoolTable.ReleaseKeepsReady | src/Noriko/alloc.c:788-791 | The release as written never spoils a usable cached index. |
| PoolTable.ReleaseRescuesIff | src/Noriko/alloc.c:788-791 | If the cached slot is occupied, a release makes the index usable again if and only if a slot above the released one is free, or the cached slot itself is released. |
| PoolTable.StepFromReady | src/Noriko/alloc.c:349-363 | From a usable index only a request can lead away, exactly if no slot above the one taken is free and one below is. |
| PoolTable.StepFromStranded | src/Noriko/alloc.c:788-791 | From an unusable index exactly such a release leads back. |
| PoolTable.UnusableIff | src/Noriko/alloc.c:307-363 | After any operations from a usable index it is unusable if and only if some request stranded it and no later release rescued it. |
| PoolTable.OverwritesIff | src/Noriko/alloc.c:307-363 | Over all runs as written: a live pool is overwritten if and only if some request strands the index and another request follows before any release that rescues it. |
| PoolTable.SecondRequestOverwrites | src/Noriko/alloc.c:788-791 | If a slot above the released one was free, the second request afterwards overwrites the pool of the first. |
| PoolTable.ReleaseFromFullIsForgotten | src/Noriko/alloc.c:788-791 | A slot released from a full table is forgotten; requests stay refused. |
| PoolTable.StepFromRemembered | src/Noriko/alloc.c:788-791 | From a table that caches no slot exactly if it is full, an operation makes a free slot forgotten exactly if it releases from the full table. |
| PoolTable.StepFromForgotten | src/Noriko/alloc.c:788-791 | A forgotten table stays so until a release below a free slot. |
| PoolTable.ForgottenIff | src/Noriko/alloc.c:307-363 | Over all runs as written: requests are refused although a slot is free if and only if some slot was released from a full table and no later release was below a free slot. |
| PoolTable.FiveOperationsOverwrite | src/Noriko/alloc.c:307-363 | From the empty table of 8192 slots, two requests, one release and two requests overwrite a live pool. |
| PoolTable.LeastRunIsSafe | src/Noriko/alloc.c:307-363 | With the least free slot kept, no run of requests and releases overwrites a pool, and the cached index stays the least free slot. |
| PoolTable.RequestsAloneAreSafe | src/Noriko/alloc.c:307-363 | As written, runs without releases are safe. |
| PoolTable.ScanMayStop | src/Noriko/alloc.c:405-422 | Once as many pools were passed as are allocated, no later slot holds one: the early-exit scans equal full scans. |
| PoolAllocator.AddressRoundTrip | src/Noriko/alloc.c:446-450 | Every byte of every block leads back to that block. |
| PoolAllocator.AddressIsInItsBlock | src/Noriko/alloc.c:446-450 | Every address of the block section is a byte of the block the division gives. |
| PoolAllocator.BlocksAreDisjointInMemory | src/Noriko/alloc.c:690-693 | Byte ranges of distinct blocks, in the same or in different pools, are disjoint and lie in their buffers behind the headers. |
| PoolAllocator.SlotIsUnique | src/Noriko/alloc.c:382-422 | An address lies in at most one pool, and the scan finds that one. |
| PoolAllocator.AllocationsAreDisjoint | src/Noriko/alloc.c:690-693 | No byte belongs to two live allocations. |
| PoolAllocator.AddressLeadsToAllocation | src/Noriko/alloc.c:434-474 | Pool location, division and walk back lead from every byte of a live allocation to its first block and its length. |
| PoolAllocator.AllocAddsOne | src/Noriko/alloc.c:618-728 | A successful request adds exactly one allocation of the requested length at the address returned and changes no other; a failed one changes nothing. |
| PoolAllocator.RequestIsServed | src/Noriko/alloc.c:633-728 | A request fails exactly if no pool of its block size has a long enough run at its first free block, and no slot is cached or the heap fails. The least slot with such a pool serves it there; otherwise the cached slot holds a new pool with the allocation in front. |
| PoolAllocator.FreeRemovesOne | src/Noriko/alloc.c:746-812 | A release through any byte of an allocation removes exactly that allocation. |
| PoolAllocator.ReleaseRemovesSegment | src/Noriko/alloc.c:761-806 | A release of any block removes the segment of that block and no other, also when the pool is given up. |
| PoolAllocator.GivenUpIff | src/Noriko/alloc.c:768-812 | For every release: the pool is given up if and only if it has no live allocation but the released one; otherwise it keeps its place, and no other slot changes. |
| PoolAllocator.FreeUndoesAlloc | src/Noriko/alloc.c:618-815 | Releasing through any byte of what was just allocated restores the state, except that a reserved pool left empty is given up as well. |
| PoolAllocator.NewPoolTakesIff | src/Noriko/alloc.c:709-727 | A request is placed at block 0 of a new pool: its blocks end inside the pool, and its headers inside the header array, if and only if it does not exceed the new count; the padding takes one header more if that count is odd. |
| PoolAllocator.LargeRequestOverrunsNewPool | src/Noriko/alloc.c:713-727 | Of 257 blocks of 8 bytes requested from a new pool of 256, the last begins at the end of the buffer, and its header lies on the first block. |
| PoolAllocator.Allocator.constructor | src/Noriko/alloc.c:103-115 | The empty allocator is valid and caches the least free slot. |
| PoolAllocator.Allocator.RequestNewPool | src/Noriko/alloc.c:307-373 | Fails without effect exactly if no slot is cached or the heap fails; otherwise the cached slot, and no other, holds a new pool, and the cached index moves as in `RequestSlot`. |
| PoolAllocator.Allocator.FindFreeSlot | src/Noriko/alloc.c:357-362 | Least free slot from an index on. |
| PoolAllocator.Allocator.LocateBlock | src/Noriko/alloc.c:405-422 | The counted scan finds the pool that contains the address, or tells that none does. |
| PoolAllocator.Allocator.FindPool | src/Noriko/alloc.c:633-649 | The counted scan finds the first pool of the block size whose search succeeds. |
| PoolAllocator.Allocator.Alloc | src/Noriko/alloc.c:618-728 | When a request fails, which pool serves it and at which address, as in `RequestIsServed`, stated of the old and the new state; all invariants are kept. |
| PoolAllocator.Allocator.Place | src/Noriko/alloc.c:618-728 | The search and the marking compute `Allocated`, of which `AllocAddsOne` and `RequestIsServed` speak. |
| PoolAllocator.Allocator.AllocateInSlot | src/Noriko/alloc.c:649-693 | Only the pool of that slot changes, and it by one allocation. |
| PoolAllocator.Allocator.Reserve | src/Noriko/alloc.c:730-744 | For any block size with which the new pool fits: a successful reservation adds one pool without allocations, of at least the requested count exactly if nothing wraps; a failed one changes nothing. |
| PoolAllocator.Allocator.HeaderFor | src/Noriko/alloc.c:434-474 | For an address of a block section: the pool and the first header of the allocation it belongs to. |
| PoolAllocator.Allocator.Free | src/Noriko/alloc.c:746-815 | NULL and foreign addresses change nothing; any other releases exactly the allocation it belongs to, gives the pool up if it is empty, and moves the table index as in `ReleaseSlot`. |
| PoolAllocator.Allocator.ReleaseInSlot | src/Noriko/alloc.c:761-812 | The same for a located header; no other slot changes. |
| PoolAllocator.Allocator.GiveUpSlot | src/Noriko/alloc.c:780-812 | Clears one slot, counts it, and caches the last free slot from it on. |
| PoolAllocator.Allocator.FindLastFreeSlot | src/Noriko/alloc.c:788-791 | The loop without a break yields the last free slot. |
| PoolAllocator.Allocator.GetAllocSize | src/Noriko/alloc.c:833-858 | Block size times the length of the allocation the address belongs to, without wrap; 0 for a foreign address. |
| PoolAllocator.Allocator.GetBlockSize | src/Noriko/alloc.c:817-831 | Block size of the pool the address lies in; 0 for a foreign address. |
| PoolRuns.BooksAreKept | src/Noriko/alloc.c:618-815 | Over every run of allocations, reservations and releases the byte ranges the client was given and has not released are exactly those of the live allocations. |
| PoolRuns.BookedRangesAreApart | src/Noriko/alloc.c:618-815 | Ranges in these books never share a byte. |
| PoolRuns.StepIsSound | src/Noriko/alloc.c:618-815 | Every accepted operation keeps all pools legal and apart, and changes the live ranges as the client enters it. |
| PoolRuns.StepKeepsLeast | src/Noriko/alloc.c:788-791 | With the least free slot kept on release, every operation keeps it. |
| PoolRuns.LeastNeverBlocks | src/Noriko/alloc.c:307-363 | Then, at every point of every run, an operation is accepted exactly if caller and heap do their part: the table never stands in the way. |
| PoolRuns.TableFollows | src/Noriko/alloc.c:618-815 | Over every run as written the allocator's table goes through the run of its slot requests and releases. |
| PoolRuns.AcceptedIffNotStranded | src/Noriko/alloc.c:618-815 | After any run as written, an operation with which caller and heap do their part is accepted if and only if it needs no new pool, or the cached index is not stranded. |
| PoolRuns.ObtainsPoolIff | src/Noriko/alloc.c:618-815 | After any run as written, a permitted request that needs a new pool obtains one if and only if the heap answers, the table is not full, and the index is neither stranded nor forgotten. |
| PoolRuns.Perform | src/Noriko/alloc.c:618-815 | Each public operation of the allocator object is a step of the run, release as written. |
| PoolRuns.Execute | src/Noriko/alloc.c:618-815 | The allocator object ends in the state of the run, with the live ranges of the client's books. |
| RobinHood.InsertIsCorrect | src/Noriko/dstruct/htable.c:256-311 | With a free slot the counter-free loop ends within `capacity` rounds, adds exactly the given pair, keeps every stored offset equal to the circular distance from home, and keeps the Robin Hood ordering. |
| RobinHood.InsertEndsIff | src/Noriko/dstruct/htable.c:270-308 | The insertion ends if and only if a slot is free. |
| RobinHood.FullTableNeverEnds | src/Noriko/dstruct/htable.c:270-308 | Without a free slot no number of rounds ends it. |
| RobinHood.StepKeepsPairs | src/Noriko/dstruct/htable.c:272-303 | No round, swap or not, loses or adds a pair. |
| RobinHood.StepKeepsInvariant | src/Noriko/dstruct/htable.c:270-307 | Each round keeps the offsets right; the displacement carried never exceeds the rounds done, which stay below the capacity. |
| RobinHood.StepKeepsOrder | src/Noriko/dstruct/htable.c:284-307 | Each round keeps the ordering, including the carried pair's. |
| RobinHood.FullScanIsComplete | src/Noriko/dstruct/htable.c:405-427 | A scan that finds nothing has seen every slot, so no slot matches. |
| RobinHood.EarlyScanIsFullScan | src/Noriko/dstruct/htable.c:405-427 | In ordered slots, if equal keys hash equally, a probe that stops at a free or closer-to-home slot finds exactly what the full scan finds. |
| RobinHood.ChainToHome | src/Noriko/dstruct/htable.c:284-307 | In ordered slots every slot from an entry's home up to it is used, at least as far from home as the probe has gone. |
| RobinHood.EraseHidesFromEarlyScan | src/Noriko/dstruct/htable.c:570-602 | Erasing loses the ordering: a key then found by the full scan is missed by the early one. |
| RobinHood.InsertInTurnIsCorrect | src/Noriko/dstruct/htable.c:336-351 | Inserting pairs in turn into an empty array of `cap` slots ends if and only if there are at most `cap`, and then holds exactly these pairs, placed and ordered. |
| RobinHood.RebuildEndsIff | src/Noriko/dstruct/htable.c:319-358 | A rebuild ends if and only if the new capacity is at least the number of elements. |
| RobinHood.ListingInOrder | src/Noriko/dstruct/htable.c:673-684 | The pairs listed are those of the used slots, in array order. |
| RobinHood.ClearOfTwoNeverEnds | src/Noriko/dstruct/htable.c:492-502 | Clearing a table of two elements whose minimum capacity is one: the second insertion of the rebuild never ends. |
| Hashtable.BatchFits | src/Noriko/dstruct/htable.c:519-553 | For every batch within the limit the capacity after load check and clamp holds all elements. |
| Hashtable.CapacityIsClamped | src/Noriko/dstruct/htable.c:543-550 | The new capacity is 20/7 of the elements, rounded down, cut off at the limits. |
| Hashtable.BatchOutcome | src/Noriko/dstruct/htable.c:519-567 | When a batch is refused and with which error, what it adds, and the capacity it leaves. |
| Hashtable.BatchIsAdded | src/Noriko/dstruct/htable.c:555-563 | After a batch: old keys with their values, new keys with their first values, no others. |
| Hashtable.LocateRefinesMap | src/Noriko/dstruct/htable.c:405-427 | For any hash function: the scan finds a key exactly if the map has it, and then the slot has the map's value. |
| Hashtable.KeysAreDistinct | src/Noriko/dstruct/htable.c:555-563 | Used slots hold distinct keys. |
| Hashtable.FirstValueWins | src/Noriko/dstruct/htable.c:555-563 | Inserting a batch: stored keys keep their values, a new key gets the value of its first occurrence, and no other key appears. |
| Hashtable.PutAllSize | src/Noriko/dstruct/htable.c:555-566 | A batch adds at most as many elements as it has pairs. |
| Hashtable.RobinHoodInsertSingle | src/Noriko/dstruct/htable.c:256-311 | The loop ends, reports success and leaves the slots of `RobinHood.Insert`. |
| Hashtable.RunIgnoresHashes | src/Noriko/dstruct/htable.c:511-662 | Runs on the map that name the same key values answer alike; the specification side of `ExecuteBoth`. |
| Hashtable.RemovedIsNotFound | src/Noriko/dstruct/htable.c:570-654 | After Erase or Extract of a key, At and Contains do not find it until some batch names it. |
| Hashtable.AbsentStaysAbsent | src/Noriko/dstruct/htable.c:511-654 | A key that is not stored stays so over every run in which no batch names it. |
| Hashtable.InsertedIsFound | src/Noriko/dstruct/htable.c:511-568 | A key named by an accepted batch is found. |
| Hashtable.OrderAfterIff | src/Noriko/dstruct/htable.c:511-654 | The order is known exactly if it was there at first and nothing was removed, or some batch rebuilt the table and nothing was removed since. |
| Hashtable.Hashtable.constructor | src/Noriko/dstruct/htable.c:431-474 | A new table stands for the empty map and is ordered. |
| Hashtable.Hashtable.LocKey | src/Noriko/dstruct/htable.c:405-427 | The loop is the full circular scan. |
| Hashtable.Hashtable.Contains | src/Noriko/dstruct/htable.c:657-662 | True exactly if the map has the key. |
| Hashtable.Hashtable.At | src/Noriko/dstruct/htable.c:604-625 | The map's value, or nothing. |
| Hashtable.Hashtable.RemoveAt | src/Noriko/dstruct/htable.c:583-601 | Clearing one used flag removes exactly that key; offsets stay right. |
| Hashtable.Hashtable.Erase | src/Noriko/dstruct/htable.c:570-602 | Afterwards the map is without the key; the answer is Ok exactly if it had the key, and otherwise ItemNotFound, with nothing changed. |
| Hashtable.Hashtable.Extract | src/Noriko/dstruct/htable.c:627-654 | Afterwards the map is without the key; the answer is the value it had, or nothing. |
| Hashtable.Hashtable.AdjustCapacity | src/Noriko/dstruct/htable.c:319-358 | Same map in a fresh, ordered array of the new capacity; without memory nothing changes. |
| Hashtable.Rebuilt | src/Noriko/dstruct/htable.c:324-356 | The new array holds exactly the old pairs, placed and ordered. |
| Hashtable.MoveAll | src/Noriko/dstruct/htable.c:336-351 | The counted loop moves all pairs although it may stop before the end of the array. |
| Hashtable.Hashtable.Put | src/Noriko/dstruct/htable.c:561-562 | Adds one new key to the map; an ordered table stays ordered. |
| Hashtable.Hashtable.PutEach | src/Noriko/dstruct/htable.c:555-563 | The batch loop computes `PutAll` and counts what it added; an ordered table stays ordered. |
| Hashtable.Hashtable.InsertMulti | src/Noriko/dstruct/htable.c:511-568 | Refused for the limits exactly if old size and batch together exceed maxCap or 2^32-1, for memory exactly if the load of 3/4 is reached and the heap fails, and then nothing changes. Otherwise every old key keeps its value, every key of the batch is stored with its first value, no other appears, and the capacity is unchanged or the clamped 20/7 target; ordered after every rebuild. |
| Hashtable.Hashtable.InsertBatch | src/Noriko/dstruct/htable.c:519-567 | Checks, rebuild and insertion loop compute `StepOp`, of which `BatchOutcome` speaks. |
| Hashtable.Hashtable.ForEach | src/Noriko/dstruct/htable.c:664-687 | Visits the stored pairs in array order up to the first failure, and returns what the last visit returned. |
| Hashtable.Hashtable.FreeElems | src/Noriko/dstruct/htable.c:109-136 | Passes every stored pair to the destructor exactly once. |
| Hashtable.Hashtable.Clear | src/Noriko/dstruct/htable.c:492-502 | Leaves the empty map, with the minimum capacity unless the heap fails. |
| Hashtable.Hashtable.ExecuteOne | src/Noriko/dstruct/htable.c:511-662 | Each operation acts and answers as on the map, also stated operation by operation. |
| Hashtable.Hashtable.Execute | src/Noriko/dstruct/htable.c:511-662 | Every run of InsertMulti, Erase, Extract, At and Contains, rebuilds included, answers as the map does and leaves the map's entries; unless a key was removed since the last rebuild, the table ends in Robin Hood order. |
| Hashtable.Hashtable.OrderedLookup | src/Noriko/dstruct/htable.c:405-427 | In such a table, where equal keys hash equally, a lookup that stops early finds exactly what the full scan finds. |
| Hashtable.ExecuteBoth | src/Noriko/dstruct/htable.c:173-247 | Two tables with the same entries and capacity, executing runs whose keys have other raw hashes, give the same answers and end with the same entries and capacity. |
| Quicksort.ScanUp | src/Noriko/sort.c:52-54 | First element greater than the pivot, or the other index; all before it are not greater. |
| Quicksort.ScanDown | src/Noriko/sort.c:59-60 | Last element not greater than the pivot, or the other index; all after it are greater. |
| Quicksort.SplitRound | src/Noriko/sort.c:50-68 | A round keeps the splitting state, and brings the indices closer or makes the next round do so. |
| Quicksort.Split | src/Noriko/sort.c:39-77 | For any total preorder the split terminates, leaves left not greater than, and right greater than, the old last element at the returned index, rearranges only the range, and is the function `SplitOf` of the array. |
| Quicksort.RoundsStep | src/Noriko/sort.c:50-68 | Whatever indices meet the contract of the two scans are those of the function, so a round of the loop is a round of `SplitOf`. |
| Quicksort.SplitAtLeftEndIff | src/Noriko/sort.c:70-77 | The returned index is the left end if and only if the last element is smaller than all others. |
| Quicksort.Sort | src/Noriko/sort.c:81-103 | With the documented guard: the range comes out sorted and is a permutation; nothing outside it changes. |
| Quicksort.SortAsWritten | src/Noriko/sort.c:81-103 | As written: it leaves the array if and only if the range starts at index 0 and one of the splits of its leftmost parts, down to parts of two elements, is at index 0; never for a range with a least first element, always if the last of three or more is smaller than all others. Otherwise the range ends fully sorted if and only if every part of two elements that comes up is in order already (`EndsSorted`), and in any case elements out of order are direct neighbours. |
| Quicksort.SortParts | src/Noriko/sort.c:95-99 | The same, all in both directions, for a range that is split. |
| Quicksort.SplitDecides | src/Noriko/sort.c:96-98 | What the first split decides about the wrap-around, and that a least first element stays first. |
| Quicksort.Assemble | src/Noriko/sort.c:98-99 | Sorted parts around a separating pivot make a sorted range, a permutation of the original. |
| Quicksort.PartsDecide | src/Noriko/sort.c:98-99 | Around a separating pivot the whole is sorted if and only if both parts are, and what the right part ends as does not depend on the left. |
| Quicksort.EndsSortedFrame | src/Noriko/sort.c:81-103 | Whether a range ends sorted depends on its own elements only. |
| Quicksort.DeparturesFromDocumentation | src/Noriko/sort.c:91-98 | 2, 1 is not sorted and left alone; 2, 3, 1 splits at index 0. |
| Xoshiro.StepIsBijective | src/Noriko/util.c:148-158 | The state update has an explicit two-sided inverse. |
| Xoshiro.StepInBits | src/Noriko/util.c:148-158 | The number yielded is the sum of words 0 and 3 modulo 2^64; the new words as mixtures of the old ones, with the shift by 17 and the rotation by 45. |
| Xoshiro.StepInFull | src/Noriko/util.c:148-158 | The same in the named word operations. |
| Xoshiro.UnshiftSolves | src/Noriko/util.c:152-157 | The inverse of `x ^ (x << 17)` is a solution for every word. |
| Xoshiro.ShiftXorCancels | src/Noriko/util.c:152-157 | And it is the only one. |
| Xoshiro.NeverZeroIff | src/Noriko/util.c:142-159 | A run reaches the all-zero state if and only if it starts there. |
| Xoshiro.RunsNeverMerge | src/Noriko/util.c:142-159 | Runs from different states never meet at the same step. |
| Xoshiro.FirstRepeatIsStart | src/Noriko/util.c:142-159 | A run that repeats a state is a pure cycle: its starting state comes back first. |
| Xoshiro.Generator.Next | src/Noriko/util.c:142-159 | The number yielded and the four words after the in-place updates, in closed form of the old words. |
| Xoshiro.Generator.Draw | src/Noriko/util.c:142-159 | n draws give the first n outputs; a non-zero seed never leads to the zero state. |
| Uuid.BytesOfText | src/Noriko/util.c:318-371 | Reading the text of any 16 bytes gives these bytes. |
| Uuid.TextOfBytes | src/Noriko/util.c:318-371 | Printing what was read from any string in 8-4-4-4-12 form gives that string in lower case. |
| Uuid.TextShowsBytes | src/Noriko/util.c:353-371 | The two digits at the place of a byte in the text are its value in base 16. |
| Uuid.DigitsByValue | src/Noriko/util.c:328-339 | Digit n is the n-th of 0123456789abcdef; the table gives each hexadecimal digit of either case its value, and 0 to anything else. |
| Uuid.AnyCharactersAreRead | src/Noriko/util.c:318-351 | Neither dashes nor digits are checked: characters of the table are read in pairs, up to sixteen bytes. |
| Uuid.CanonicalIffForm | src/Noriko/util.c:318-371 | That form, read byte by byte, is the form by positions: 36 characters, dashes at 8, 13, 18, 23, digits elsewhere (section 4 of RFC 9562). |
| Uuid.TextIsInjective | src/Noriko/util.c:353-371 | Distinct UUIDs print differently. |
| Uuid.ToString | src/Noriko/util.c:353-371 | Writes the 36 characters and the terminator, and nothing behind them. |
| Uuid.FromString | src/Noriko/util.c:318-351 | Fails exactly if the string ends before sixteen bytes, and then zeroes the destination; otherwise stores the bytes read. |
| Uuid.HalfByteIsNotReadable | src/Noriko/util.c:340-341 | A string that ends inside a byte is not readable: the code goes on behind its terminator. |
| Uuid.RoundTrip | src/Noriko/util.c:318-371 | Writing and reading back succeeds and gives the same bytes. |
| Uuid.StampedText | src/Noriko/util.c:300-301 | Every generated UUID prints with 4 at index 14 and one of 8, 9, a, b at index 19 (section 5.4 of RFC 9562); all other bits are as drawn. |
| Uuid.Generate | src/Noriko/util.c:288-302 | The bytes of two consecutive outputs, stamped; the generator advances by two. |
| Uuid.DrawnWords | src/Noriko/util.c:294-297 | The two words of the bytes before the stamp are the two numbers drawn. |
| Uuid.IsEqualIffSame | src/Noriko/util.c:304-316 | Comparing two 64-bit words decides equality of all sixteen bytes. |
| BitmapFill.StrideIsLeastIff | src/Noriko/bmp.c:110-115 | The stride is the least multiple of four bytes that holds the row's bits if and only if the sum does not wrap. |
| BitmapFill.WideBitmapHasNoStride | src/Noriko/bmp.c:110-115 | 2^27 pixels of 32 bits get stride 0. |
| BitmapFill.Fill | src/Noriko/bmp.c:171-202 | If the 32-bit row indices fit, every byte of the image is the one of the naive fill, pattern[(b mod stride) mod pixelWidth]; if they do not, the last row copied to and all behind it keep what was there before. Every copy is in bounds. |
| BitmapFill.FillRow | src/Noriko/bmp.c:192-194 | The first doubling loop fills the row with the pixel. |
| BitmapFill.FillRows | src/Noriko/bmp.c:200-201 | The second doubling loop, with wrapping indices, fills the image with the row if the largest power of two below the height, times the row size, is below 2^32; otherwise it never reaches the rows from that power on. |
| BitmapFill.CopyReaches | src/Noriko/bmp.c:200-201 | Within that bound the wrapped indices are the exact ones and the ranges are disjoint; beyond it no copy reaches the last row copied to. |
| BitmapFill.CopyRows | src/Noriko/bmp.c:201-201 | One copy continues the image within the bound, and leaves the rows it misses alone beyond it. |
| BitmapFill.LastRowIsMissed | src/Noriko/bmp.c:200-201 | 32768 rows of 131072 bytes are within the bound, 32769 are not: the last row is copied to row 0. |
| BitmapFill.OverflowingHeightsDoNotFit | src/Noriko/bmp.c:200-200 | Heights on which the signed row counter overflows are all beyond the bound. |
| BitmapFill.ValidSizesSuffice | src/Noriko/bmp.c:206-244 | Validated sizes without wrap in a row give a stride between 4 and 2^31, and a pixel that fits it. |
| BitmapFill.Create | src/Noriko/bmp.c:229-276 | The error for every input: the bit depth if it is neither 24 nor 32, else the dimensions if one is not positive, else memory if the heap fails; on success the least stride, an array of that many rows, and, if the row indices fit, the fill. |
| BitmapFill.PixelsHaveColour | src/Noriko/bmp.c:171-202 | Every byte of every whole pixel has the colour's value. |
| FixedTimestep.TimeIsConserved | src/Noriko/application.c:447-501 | Over every run the sum of the limited elapsed ticks is the truncated update length times the number of updates, plus the lag; the lag is at most one update, is 0 only if no time passed, and every render ratio lies in [0, 1]. |
| FixedTimestep.RatioIsLag | src/Noriko/application.c:501-501 | The ratio of each frame times the ticks per update is the lag left after that frame. |
| FixedTimestep.ElapsedIsLimited | src/Noriko/application.c:465-468 | For a timer that neither decreases nor wraps, the ticks of a run are those between its frames, each limited. |
| FixedTimestep.AtMostTwoIff | src/Noriko/application.c:461-491 | No frame of any run does more than two updates if and only if the limit on elapsed ticks is at most two updates. |
| FixedTimestep.FrequenciesWithTwoUpdates | src/Noriko/application.c:447-461 | That holds from 1441 Hz on and fails at 1440 Hz. |
| FixedTimestep.SomeRunHangsIff | src/Noriko/application.c:447-491 | Some run reaches an update loop that never ends if and only if an update takes no whole tick while frames may take one: at 63 to 120 Hz. |
| FixedTimestep.NeverEndsIff | src/Noriko/application.c:485-491 | The update loop never ends exactly if the lag is above the ticks per update and an update takes nothing off. |
| FixedTimestep.OneTickHangs | src/Noriko/application.c:465-491 | At those frequencies the first frame hangs if it comes one tick after the start. |
| FixedTimestep.LagLeftIsLag | src/Noriko/application.c:463-501 | From 121 Hz on no loop hangs, and the lag is that of the run. |
| FixedTimestep.SlowTimerHangs | src/Noriko/application.c:485-491 | Below 121 Hz the update loop, once entered, takes nothing off the lag. |
| FixedTimestep.FastEnoughIff | src/Noriko/application.c:452-452 | An update takes off at least one tick if and only if the timer runs at 121 Hz or more. |
| FixedTimestep.TruncatedTicks | src/Noriko/application.c:452-461 | The integer constants are the truncated real ones. |
| FixedTimestep.CatchUp | src/Noriko/application.c:485-491 | The inner loop terminates, takes off whole updates only, and leaves at most one. |
| FixedTimestep.UpdatesTakeOff | src/Noriko/application.c:485-491 | The number of updates in closed form leaves a lag between 0 and one update. |
| FixedTimestep.MainLoop | src/Noriko/application.c:463-501 | The loop computes the run over the frames before the first that asks to leave; that frame's ticks are added but neither updated nor rendered. |
| ComponentLifecycle.OppositeIsReversal | src/Noriko/application.c:197-215 | The opposite-stage table is an involution that reverses the order of stages. |
| ComponentLifecycle.UndoingIsReversal | src/Noriko/application.c:399-443 | What undoes a startup is its reversed trace under the opposite-stage table. |
| ComponentLifecycle.StartupCallsInFull | src/Noriko/application.c:366-377 | Call 3i+j of a startup is stage j of component i. |
| ComponentLifecycle.ShutdownCallsInFull | src/Noriko/application.c:399-443 | For all flags a shutdown calls exactly the flagged stages of exactly the components up to the recorded one, the last component first, stage by stage. |
| ComponentLifecycle.ShutdownUndoesIff | src/Noriko/application.c:342-443 | A shutdown whose callbacks succeed calls exactly what undoes the startup if and only if the startup succeeded fully with more than one component, or its first call failed. |
| ComponentLifecycle.FullRunIsUndone | src/Noriko/application.c:342-443 | After a full startup of two or more components the shutdown trace is the reversed startup trace; if a callback fails, a beginning of it. |
| ComponentLifecycle.Application.InvokeCompCallback | src/Noriko/application.c:218-268 | Calls once; records component index and success flag whatever the outcome. |
| ComponentLifecycle.Application.StartupStep | src/Noriko/application.c:366-377 | One startup call; on failure exactly the index and flags of that point are left. |
| ComponentLifecycle.Application.StartComponent | src/Noriko/application.c:368-377 | The three startup calls of one component, up to the first failure, which leaves its index and flags. |
| ComponentLifecycle.Application.Start | src/Noriko/application.c:342-397 | Calls all stages of all components in order up to the first failure, and leaves the index and shared flags of that point. |
| ComponentLifecycle.Application.StopStage | src/Noriko/application.c:425-437 | One stage of a shutdown calls the opposite exactly if its flag is set. |
| ComponentLifecycle.Application.StopComponent | src/Noriko/application.c:424-437 | Runs the opposites of the flagged stages, last first, up to the first failure. |
| ComponentLifecycle.Application.StopFrom | src/Noriko/application.c:409-438 | The shutdown loop makes the calls it has to make, up to the first failure. |
| ComponentLifecycle.Application.Stop | src/Noriko/application.c:399-443 | The shutdown trace for every recorded state and every outcome of the callbacks. |
| Utf8Path.TableIsExact | src/Noriko/dstruct/string.c:64-81 | At the indices it has, the table gives the length of every character from its first byte, and is non-zero exactly for bytes that lead a character (section 4 of RFC 3629). |
| Utf8Path.WalkCountsCharacters | src/Noriko/dstruct/string.c:85-96 | On every NUL-terminated UTF-8 text the walk stays inside and advances by whole characters, up to the end. |
| Utf8Path.LookupsInTableIff | src/Noriko/dstruct/string.c:64-96 | The lookups of a walk over any text are inside the table if and only if `char` is unsigned or all characters walked over are single bytes. |
| Utf8Path.SignedLookupLeavesTable | src/Noriko/dstruct/string.c:80-80 | With a signed `char` the text C3 A9 is looked up at index -61. |
| Utf8Path.StuckIff | src/Noriko/dstruct/string.c:85-96 | On arbitrary bytes the walk gets stuck at a position if and only if its byte leads no character. |
| Utf8Path.CharactersAreUnique | src/Noriko/dstruct/string.c:64-131 | The bytes of a text determine its characters. |
| Utf8Path.Goto | src/Noriko/dstruct/string.c:85-96 | If its lookups are inside the table, the loop computes `Walk`, of which `WalkCountsCharacters` speaks. |
| Utf8Path.Strlen | src/Noriko/dstruct/string.c:119-130 | Terminates and counts the characters, in 32 bits: of any text if `char` is unsigned, of any single-byte text if it is signed. |
| Utf8Path.Iterate | src/Noriko/dstruct/string.c:252-256 | Nothing at the terminator, otherwise the position behind the lead byte's size. |
| Utf8Path.CalcSubstr | src/Noriko/dstruct/string.c:100-115 | The view covers exactly the `maxCount - 1` characters from `start` on, cut off at the end of the text; with a signed `char`, if the characters walked over are single bytes. |
| Utf8Path.ReplaceOfFlatten | src/Noriko/path.c:222-231 | Replacing separators character by character is replacing them byte by byte. |
| Utf8Path.CharsStayChars | src/Noriko/path.c:222-231 | Under replacement characters stay characters, and only characters become characters. |
| Utf8Path.ReplaceKeepsUtf8 | src/Noriko/path.c:222-231 | NUL-free bytes with separators replaced are UTF-8 if and only if they were. |
| Utf8Path.ReplaceEachKeepsText | src/Noriko/path.c:222-231 | The rewritten text has as many characters. |
| Utf8Path.ReplaceIsIdempotent | src/Noriko/path.c:213-238 | A second rewrite changes nothing; rewriting for another platform forgets the first. |
| Utf8Path.PathToNativeSeparators | src/Noriko/path.c:213-238 | The in-place loop terminates. Every byte 2F or 5C of the text is then the native separator, every other byte as before, and none of the other kind is left; length and validity are kept, and nothing behind the text is touched: for any text if `char` is unsigned, for any single-byte text if it is signed. |
| Utf8Path.ReplacedBytes | src/Noriko/path.c:100-102 | Exactly the bytes of '/' and '\' are replaced. |
| Utf8Path.RewriteInTableIff | src/Noriko/path.c:222-231 | The lookups of the rewrite are inside the table if and only if `char` is unsigned or all characters are single bytes. |
| ObjectCreation.CreationBalances | src/Noriko/nkom.c:197-252 | On every outcome the calls on the new instance replay without a use after destruction: one reference is left on success, none on failure. |
| ObjectCreation.FirstFailureDecides | src/Noriko/nkom.c:189-244 | The error code is that of the first step that fails: creation, initialization, query; a class without the initialization interface is no error. |
| ObjectCreation.InitializedOnce | src/Noriko/nkom.c:213-237 | An instance with the initialization interface is initialized exactly once, before the query for the interface asked for, any other not at all; the calls of each case in order. |
| ObjectCreation.DestroyedByLastRelease | src/Noriko/nkom.c:219-244 | An instance whose calls replay is destroyed at most once, by its last call, which is a release. |
| ObjectCreation.ReplayOfConcat | src/Noriko/nkom.c:197-252 | Histories replay piece by piece. |
| ObjectCreation.Instance.QueryInterface | include/Noriko/nkom.h:275-316 | The contract of an instance: a successful query adds one reference. |
| ObjectCreation.Instance.Drop | include/Noriko/nkom.h:340-363 | A release removes one reference. |
| ObjectCreation.Runtime.QueryFactoryForClass | src/Noriko/nkom.c:255-282 | The registered factory with one more reference, or the class is not registered and nothing changes. |
| ObjectCreation.Runtime.Instantiate | src/Noriko/nkom.c:189-207 | On every outcome each factory's count is what it was. |
| ObjectCreation.Runtime.Prepare | src/Noriko/nkom.c:208-252 | The calls on the instance in their order, and the error code; one reference on success, none on failure. |
| ObjectCreation.Runtime.CreateInstance | src/Noriko/nkom.c:173-253 | The error code for every outcome; a live instance with count one exactly on success; a failed one destroyed; all factory counts unchanged; all references accounted for. |
| ObjectCreation.Runtime.ClientQuery | include/Noriko/nkom.h:275-316 | A client's query keeps the balance of counts and references held. |
| ObjectCreation.Runtime.ClientRelease | include/Noriko/nkom.h:340-363 | A client's release keeps the balance, and destroys the instance exactly if it was the last reference. |

## Left out

- PoolAllocator.Allocator.Alloc: requires, when a new pool is needed, that the cached slot is usable and that the request fits a pool made for the default count; the code checks neither, and `PoolRuns.AcceptedIffNotStranded` and `NewPoolTakesIff` say exactly when they hold.
- PoolAllocator.Allocator.RequestNewPool: the cached slot must be usable, as for `Alloc`, and the new pool must fit its buffer and have a block.
- PoolAllocator.Allocator.Free: addresses inside a pool's header section are not modelled; the code computes a negative or truncated block index for them.
- PoolAllocator.Allocator.HeaderFor: the same.
- PoolAllocator.Allocator.GetAllocSize: the same.
- PoolAllocator.Allocator.Reserve: pools that do not fit their buffer, for which `FitsIff` is the condition, and pools without blocks, which only a wrapped size gives, are not modelled further.
- PoolBlocks.Pool.constructor: the same; the buffer is modelled as its header array and an address range, block contents are not.
- Hashtable.Hashtable.AdjustCapacity: requires that the elements fit; otherwise the code does not end, as `RebuildEndsIff` shows.
- Hashtable.Hashtable.Clear: requires that the elements fit the minimum capacity, for the same reason.
- Hashtable.Hashtable.constructor: capacity 0, for which the code divides by zero, is excluded.
- Hashtable.Hashtable.Erase: the call of the element destructor is not modelled, as opposed to those of `FreeElems`.
- Hashtable.Hashtable.Extract: the call of the key destructor is not modelled.
- Hashtable.BatchFits: the load factors are the exact rationals 3/4 and 7/20; rounding of the float computation, and its conversion to 32 bits for counts beyond 35 per cent of 2^32, are not modelled.
- Uuid.FromString: what is read behind the end of a string that is not `Readable` is not modelled.
- BitmapFill.Create: widths whose bit count wraps are covered by `StrideIsLeastIff` only.
- BitmapFill.Fill: the colour conversion is not modelled; the pixel is arbitrary. Heights beyond 2^30, on which the signed row counter overflows, are excluded; `OverflowingHeightsDoNotFit` shows that none of them would be filled.
- BitmapFill.FillRows: the same heights are excluded.
- FixedTimestep.TruncatedTicks: the truncation is that of exact rationals, not of floats.
- FixedTimestep.MainLoop: the constants 8.333/1000 and 0.016 are exact rationals, not floats; the number of frames is finite. Timers below 121 Hz are covered by `SomeRunHangsIff` only.
- ComponentLifecycle.Application.Start: the object registry and the validation of the specification are not modelled.
- ComponentLifecycle.Application.InvokeCompCallback: the flag array has six entries here; the code writes the last three behind an array of three.
- ObjectCreation.Runtime.CreateInstance: the controlling instance and the initialization parameter are not modelled; factories and instances obey the interface contract.
- Failure of the system heap is a parameter; locks and threads are not modelled, each locked operation is one step.
- The hash function itself (HalfSipHash): keys carry an arbitrary raw hash.
- `vector.c`: the list facts are easy, and the code differs from them in several places.
- String creation and joining, string trimming, the environment parser: buffer bookkeeping without a hard property.
- Bitmap loading, saving and flags: the flags are not a bit set, so there is no clean round trip.
- Installing and uninstalling class factories: their reference counts are not balanced in the code.
- The world layer, rendering, windows, files, the database and logging: input and output without a property of their own.
