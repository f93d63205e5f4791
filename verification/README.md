# HarOS kernel: a verified model

HarOS is a small kernel for 32-bit x86. This project models the parts of it that are pure logic and proves what
they promise:

- **Frames** (`BuddyManager`): free lists per order, one "can merge" bit per pair of buddies, and `frames[].chunk`.
  `BuddyTree.dfy` sees memory as a binary tree of blocks, `BuddyBlocks.dfy` connects tree nodes with (start, order)
  pairs and bit numbers, `BuddyLists.dfy` says when lists, bits and chunk records agree with one set of free blocks,
  and `BuddyManager.dfy` is the class with its in-place updates. `BuddyCanonical.dfy`, `BuddyHistory.dfy`,
  `BuddyNumbering.dfy` and `BuddyRange.dfy` hold the theorems about the canonical form, the bit numbering and
  `free_range`, and `MemoryRegions.dfy` says which frames the memory map hands in.
- **Heap** (`kmalloc`, `kfree`): `HeapChain.dfy` is the chain of blocks as a value, `HeapMemory.dfy` the headers in
  memory and their links, `Masks.dfy` the alignment of addresses, `Heap.dfy` the code.
- **Scheduler, wait queue, mutex**: `Scheduling.dfy` has the steps as functions and the scheduler's invariant,
  `Scheduler.dfy` the classes, and `KernelRuns.dfy` a state machine over arbitrary runs of interrupts, new tasks,
  `acquire` and `release`.
- **Intrusive list**: `IntrusiveList.dfy`, whose methods refine the sequence operations that the other parts use
  (`Seqs.dfy`).
- **Formatter and parser**: `Numerals.dfy` and `Formatting.dfy` say what text a number or a format stands for,
  `Conversions.dfy` what each conversion prints, character by character and without those functions, `Printing.dfy`
  and `Vsnprintf.dfy` are the loops that write it into a bounded buffer, `Parsing.dfy` the loops that read numbers, and
  `NumberRoundTrip.dfy` says exactly when reading undoes printing.
- **Terminal** (`TTY`): `Terminal.dfy` is the terminal as a value, `Tty.dfy` the loops over the ring and the screen
  memory, `Scrollback.dfy` the refinement of a log of all output, which knows of no window and no ring.

A class method is proved against a function of the old state, and the theorems are about that function, or are
invariants (`Valid`) that every method keeps. `dafny verify dfyconfig.toml` checks everything.

## Where the code departs from its intent

For each departure one member states the exact condition under which the code is right, and `Counterexamples.dfy`
has a concrete input for it; both are named below.

- `alloc_frames` (kernel/memory/BuddyManager.cpp:32-67) drops the chunk of an exact fit (34-46 does not return),
  can read past the last list (34, 50), splits only once (63 compares with the order found, not the order asked
  for), and does not toggle the bit of the block that it splits (64). `AllocFramesAsWritten` is that code, with
  `AllocLosesAFrame` and `AllocGivesTwoFrames`. `AllocFrames` repairs these places, each marked `Repaired`.
- Bit 0 of the bitmap belongs to no pair. `free_pages` sets it when all of memory becomes one free block and nothing
  clears it (36-38 returns first), so when all of memory becomes free again lines 95-96 reach outside `frames`.
  `FreePages` says so in its result, with `SecondTimeReachesOutside`. A frame that is never handed in prevents it.
- `bit_index` pairs buddies only when `frame_count` is a power of two, which `mem_size / PAGE_SIZE`
  (kernel/memory/MemoryManager.cpp:281) need not be: `PairsBuddiesIff`, with `ThreeFramesDoNotPair`.
- `free_range` includes both its bounds, while `init_frames` passes the end of a region
  (kernel/memory/MemoryManager.cpp:288-294) and so hands in one frame too many, outside memory or twice:
  `HandedExactIff`, `SurplusOutsideIff` and `SurplusTwiceIff`, with `OnePageIsTwoFrames`.
- `split_block` for data that needs aligning drops the rest of the chain (kernel/memory/MemoryManager.cpp:115), leaves
  the right neighbour's `prev` alone, and forgets the header's size (119). `SplitBlockAsWritten` is that code, with
  `SplitLeavesThePool`, and `SplitBlock` the repaired one, on which `kmalloc` is built. A gap in front of the first
  block may be lost for good (104): `FreeUndoesAllocIff`, with `GapIsLost`.
- `align_block` adds in 32 bits, and the sum may wrap: `AlignBlockExact` and the second result of `KmallocCommon`, with
  `AlignmentWraps`. Its mask aligns for powers of two only: `MaskRoundsIff`, with `TwentyFourIsNoMask`.
- `kfree` asks for a magic number only, which freed blocks keep; freed twice, a block that was merged into the one in
  front of it passes the test although it is no block any more: `Kfree` and `ReleasedIsBlockIff`, with
  `SecondFreePasses`.
- `ceil_divide` adds in 32 bits: `CeilDivideWordIff`, with `HalfOfTheGreatest`.
- `List::append` asserts that the node has no neighbours (libcpp/list.hpp:108), which the only member of a list
  passes: `Append` and `AssertionMissesOnlyMember`, with `AppendTakesAMember`. `remove` from the middle does not clear
  the node's `list` (libcpp/list.hpp:179-183), so a second `remove` dereferences null instead of reaching the panic:
  `Remove`, with `SecondRemoveFaults`.
- `Mutex::release` does not ask who releases: `ReleaseExclusiveIff`, with `StrangerReleases`.
- `schedule` passes null to `context_switch` if there is no task to switch to (kernel/tasking/Scheduler.cpp:107-117),
  which is when the task that blocks is the last one on the queues: `FaultsIff`. With one lock, as the kernel has, that
  never happens (`OneLockNeverFaults`); with two it does: `TwoLocksFault`.
- `number` prints "0X" for capitals (libcpp/cstring.cpp:124), which `str_to_u32int` with base 0 does not take for a
  prefix (libcpp/cstring.cpp:24): `GuessedBaseRoundTrip`, with `CapitalPrefixReadsAsZero`.
- `TTY::write` records the low end of the changed range before the cursor moves left (kernel/tty/TTY.cpp:21, 33), so a
  character typed over another one in the same call is not shown: `WriteShowsIff`, with `OldCharacterStays` and
  `ReturnLeavesOldCharacter`.
- `TTY::write` turns the page whenever the output position is not in view, and then blanks the rest of a row that it
  takes to be new (kernel/tty/TTY.cpp:57-61). After scrolling up the row may have been written already, and what it
  holds is lost: `KeyRefinesIff` and `RunRefinesIff`, with `RowIsBlanked`. Nothing is lost if every character finds the
  position in view (`RunRefines`), as it does without scrolling up (`TypingRefines`).
- For the same reason it blanks the last of several rows that one call begins. Once the ring is full, the rows above it
  show again what was written 250 rows before: `WriteRefinesIff`, with `OldRowComesBack`.
- `TTY::scroll_down` moves the window up if it is already below the limit that holds near the end of the ring
  (kernel/tty/TTY.cpp:111, 117): `ScrollDownMovesDownIff`, with `ScrollDownMovesUp`.

## Model

| member | source | states |
|---|---|---|
| CMath.ComputeCeilOrder | libcpp/cmath.hpp:19-30 | the loop and the final rounding give the least k with num <= 2^k |
| CMath.ComputeFloorOrder | libcpp/cmath.hpp:32-39 | the loop gives the greatest k with 2^k <= num |
| CMath.CeilDivideLeast | libcpp/cmath.hpp:11-17 | as long as the sum does not wrap, the quotient is the least number of parts that hold the whole: p * divisor >= dividend iff p >= the quotient |
| CMath.CeilDivideWordIff | libcpp/cmath.hpp:11-12 | for all 32-bit words ceil_divide is that quotient iff dividend + divisor <= 2^32; otherwise it is 0 |
| MathCounterexamples.HalfOfTheGreatest | libcpp/cmath.hpp:11-12 | (2^32 - 1) / 2 rounds up to 0 |
| Orders.CeilOrderUnique | libcpp/cmath.hpp:19-30 | a k with 2^(k-1) < num <= 2^k is the ceiling order |
| BuddyBlocks.BitIndexIsParent | kernel/memory/BuddyManager.hpp:35-37 | the bit index of a block is the tree node above it |
| BuddyBlocks.NodeNames | kernel/memory/Frame.hpp:22-38 | a chunk's (start, order) and a tree node determine each other |
| BuddyBlocks.NodeFrames | kernel/memory/Frame.hpp:22-38 | the frames below a node are exactly start .. start + 2^order - 1 |
| BuddyNumbering.SameBitIff | kernel/memory/BuddyManager.hpp:35-37 | with 2^m frames two blocks have the same bit index iff they are the same block or buddies of one order |
| BuddyNumbering.BitInBitmap | kernel/memory/BuddyManager.cpp:10-14 | every pair's bit lies in the allocated bitmap and is not bit 0, and (index << (order+1)) - frame_count is the start of the left buddy (line 85) |
| BuddyNumbering.PairsBuddiesIff | kernel/memory/BuddyManager.hpp:35-37 | the halves of every block get the same bit iff frame_count is a power of two |
| BuddyTree.Take | kernel/memory/BuddyManager.cpp:34-46 | a free block leaves: the rest stays disjoint and without buddy pairs, and exactly its frames leave the free frames |
| BuddyTree.Merge | kernel/memory/BuddyManager.cpp:84-103 | merging a block in hand with its free buddy gives the block above, apart from every other free block; no frame is gained or lost |
| BuddyTree.Split | kernel/memory/BuddyManager.cpp:21-30 | the left half joins the free blocks, which stay disjoint and without buddy pairs, the right half stays in hand, and no frame is gained or lost |
| BuddyTree.Canonical | kernel/memory/BuddyManager.cpp:21-105 | a block is on the free lists iff all its frames are free and those of the block above it are not |
| BuddyTree.FramesDetermineBlocks | kernel/memory/BuddyManager.cpp:21-105 | equal sets of free frames have equal sets of free blocks |
| BuddyCanonical.ListsAreMaximalRuns | kernel/memory/BuddyManager.cpp:21-105 | list k holds exactly the maximal aligned runs of 2^k free frames |
| BuddyCanonical.BitsAreMaximalRuns | kernel/memory/BuddyManager.cpp:70-105 | the bit of a block is set iff exactly one of it and its buddy is a maximal free run |
| BuddyCanonical.CanonicalForm | kernel/memory/BuddyManager.cpp:21-105 | whatever the history, two managers with the same free frames have the same chunks and the same number of them on every list, the same bits of all pairs, and the same records of free chunks |
| BuddyHistory.SameFreeFramesSameState | kernel/memory/BuddyManager.cpp:21-125 | the same for any two valid managers, whatever calls led to them |
| BuddyLists.PairDecides | kernel/memory/BuddyManager.cpp:76-84 | for a block that is not free its pair's bit is set iff its buddy is free |
| BuddyLists.PairStart | kernel/memory/BuddyManager.cpp:85-98 | the start recovered from the bit index is that of the left buddy, and the buddy is the block that free_pages looks up |
| BuddyLists.InsertStep | kernel/memory/BuddyManager.cpp:78-82 | appending the chunk and recording it keeps lists and records in agreement with the free blocks, grown by this one |
| BuddyLists.MergeLeft | kernel/memory/BuddyManager.cpp:88-103 | if the chunk is the left buddy, frames[].chunk names the right one, free at this very order, and removing it leaves the merged block in hand |
| BuddyLists.MergeRight | kernel/memory/BuddyManager.cpp:93-103 | the same if the chunk is the right buddy |
| BuddyLists.FreedEnds | kernel/memory/BuddyManager.cpp:70-105 | for any lists and chunk: the cascade ends in a chunk around it that is the last of its list; each list in between lost one chunk of the merged block, its other members keep their order, and no other list changed; it ends at once iff the buddy is not listed |
| BuddyLists.MateIsBuddy | kernel/memory/BuddyManager.cpp:85-98 | the buddy by frame numbers is the buddy in the tree, and is on its list iff it is free |
| BuddyLists.SplitStep | kernel/memory/BuddyManager.cpp:21-30 | replacing a chunk on the lists by its halves keeps lists and records in agreement with the blocks |
| BuddyLists.NoRun | kernel/memory/BuddyManager.cpp:48-60 | if the lists from an order up are empty, no aligned run of 2^order frames is free |
| BuddyLists.UntouchedBitIsWrong | kernel/memory/BuddyManager.cpp:61-64 | setting only the halves' bit after a split keeps the bitmap right iff the split block was all of memory |
| BuddyRange.CutShape | kernel/memory/BuddyManager.cpp:108-125 | past frame 0 the orders of the blocks of a range rise strictly to a peak and fall strictly after it; they only fall iff the first is limited by the length |
| BuddyRange.CutCount | kernel/memory/BuddyManager.cpp:108-125 | a range is cut into at most two blocks of each order up to the floor order of its length |
| BuddyRange.CutProper | kernel/memory/BuddyManager.cpp:108-125 | the blocks of a range are disjoint, no two are buddies, and together they are exactly the frames left..right |
| BuddyRange.CutNoMates | kernel/memory/BuddyManager.cpp:108-125 | past frame 0 no block of a range has its buddy in it |
| BuddyRange.PieceBelow | kernel/memory/BuddyManager.cpp:113-123 | a block of a range that begins in memory also ends there |
| BuddyRange.PieceAbove | kernel/memory/BuddyManager.cpp:113-123 | past the end, a block larger than memory begins and ends at multiples of twice the size, and a range with such bounds begins with one |
| BuddyRange.PastEnd | kernel/memory/BuddyManager.cpp:78-98 | past the end, the buddy that lines 85-98 look up is outside frames too |
| BuddyManagers.BuddyManager.constructor | kernel/memory/BuddyManager.cpp:9-18 | for every size: empty lists, no chunks, no bits, nothing free; the manager is valid iff the size is a power of two |
| BuddyManagers.BuddyManager.GetBit | kernel/memory/BuddyManager.hpp:39-41 | the bit at the index, as a bit of the whole bitmap |
| BuddyManagers.BuddyManager.SetBit | kernel/memory/BuddyManager.hpp:43-45 | exactly this bit becomes set, and no other bit changes |
| BuddyManagers.BuddyManager.ClearBit | kernel/memory/BuddyManager.hpp:47-49 | exactly this bit becomes clear, and no other bit changes |
| BuddyManagers.BuddyManager.Insert | kernel/memory/BuddyManager.cpp:78-82 | the end of the cascade: the block in hand joins the end of its list, no other list changes, and lists, records and bits agree again |
| BuddyManagers.BuddyManager.MergeWithBuddy | kernel/memory/BuddyManager.cpp:84-103 | one level of the cascade: the buddy, which is on its list, leaves it, no other list changes, and the block above is in hand with the frames of both |
| BuddyManagers.BuddyManager.FreePages | kernel/memory/BuddyManager.cpp:70-105 | for every lent chunk: the cascade ends outside frames iff the chunk completes all of memory while bit 0 is set; otherwise lists, records and bits agree, exactly its frames become free, and what is managed is unchanged; the chunk that ends the cascade is the last of its list and each list in between lost one buddy, the rest in its old order; with a clear pair bit the chunk itself is the last of its list, is what the next request of its order gets, and no other list changes |
| BuddyManagers.BuddyManager.BelowZeroIff | kernel/memory/BuddyManager.cpp:85 | buddy_start is less than zero iff the block is all of memory |
| BuddyManagers.BuddyManager.WhenAllIsFree | kernel/memory/BuddyManager.cpp:70-105 | when every frame is free the last list has the only chunk, and bit 0 is set |
| BuddyManagers.BuddyManager.SplitChunk | kernel/memory/BuddyManager.cpp:21-30 | the halves, left one first, join the end of their list in place of the chunk, in the records too, no other list changes, and the right half is returned |
| BuddyManagers.BuddyManager.PopExact | kernel/memory/BuddyManager.cpp:34-46 | the last chunk of a list is lent, its pair's bit toggles, and no other list changes |
| BuddyManagers.BuddyManager.SplitOff | kernel/memory/BuddyManager.cpp:61-66 | repaired: the head of a list is split until a chunk of the order asked for comes off its right end; all structures agree, and where the lists in between were empty each of them now has one left half |
| BuddyManagers.BuddyManager.AllocFrames | kernel/memory/BuddyManager.cpp:32-67 | repaired, for every count: an aligned chunk of order ceil_order(count) whose frames were free and are not any more; null iff no aligned run of 2^ceil_order(count) free frames exists; which chunk it is: the last of its list, or the right end of the head of the next list that has one; every list afterwards; what is managed is unchanged |
| BuddyManagers.BuddyManager.SplitOnce | kernel/memory/BuddyManager.cpp:61-66 | as written: one split whatever the order asked for, after which the bitmap is right iff the chunk was all of memory; every list afterwards |
| BuddyManagers.BuddyManager.AllocFramesAsWritten | kernel/memory/BuddyManager.cpp:32-67 | as written, for every count: the manager stays valid and the request is served (right order, right frames, null only without a run) iff it is for all of memory or more, or the lists from the order asked for up to the last but one are empty and so is the last, unless one split of its block gives that order; it reads past the lists iff no larger list has a block, unless all of memory was asked for and given |
| BuddyManagers.BuddyManager.NextOrder | kernel/memory/BuddyManager.cpp:115-119 | the order chosen is the largest that is aligned at left and not above either bound |
| BuddyManagers.BuddyManager.FreePiece | kernel/memory/BuddyManager.cpp:114-123 | for every range: a first block that begins in memory becomes free and managed, with the lists as free_pages leaves them, or the cascade ends outside frames, under the same condition as for free_pages; past the end a block ends outside frames iff its order is on the lists, and is forgotten otherwise |
| BuddyManagers.BuddyManager.FreeRange | kernel/memory/BuddyManager.cpp:108-125 | for every two addresses: a range in memory ends outside frames iff it completes all of memory while bit 0 is set; one that does not end in memory always does, unless it begins past the end with both bounds multiples of twice the size; otherwise exactly the frames left..right become free, and past frame 0, with nothing free before, every list holds exactly the blocks of the cut of its order, from left to right, so nothing merged |
| FrameCounterexamples.ThreeFramesDoNotPair | kernel/memory/BuddyManager.hpp:35-37 | three frames: frames 0 and 1 have different bits |
| FrameCounterexamples.AllocLosesAFrame | kernel/memory/BuddyManager.cpp:32-67 | four frames with 1..3 free: a request for one frame breaks the manager or loses frames |
| FrameCounterexamples.AllocGivesTwoFrames | kernel/memory/BuddyManager.cpp:61-63 | four free frames: a request for one frame is answered with two |
| FrameCounterexamples.SecondTimeReachesOutside | kernel/memory/BuddyManager.cpp:85-96 | four free frames, lent in one chunk and freed: the cascade ends outside frames |
| MemoryRegions.OneFrameTooMany | kernel/memory/MemoryManager.cpp:288-294 | handed in are exactly the usable frames of a region and the one behind the last of them |
| MemoryRegions.HandedExactIff | kernel/memory/MemoryManager.cpp:288-294 | exactly the usable frames are handed in iff the region has no page boundary past the heap |
| MemoryRegions.SurplusOutsideIff | kernel/memory/MemoryManager.cpp:281-294 | all frames handed in are below frame_count iff the region ends in an earlier page than memory |
| MemoryRegions.SurplusTwiceIff | kernel/memory/MemoryManager.cpp:285-302 | of two regions, one behind the other, a frame is handed in twice iff the second begins where the first ends, at a page boundary past the heap, and the first hands in frames |
| MemoryRegions.HandedOnceIff | kernel/memory/MemoryManager.cpp:285-302 | the ranges of a whole memory map share no frame, as free_range needs it, iff no region joins one in front of it like that |
| RegionCounterexamples.OnePageIsTwoFrames | kernel/memory/MemoryManager.cpp:288-294 | a region of one page hands in two frames |
| HeapChain.TilesBytes | kernel/memory/MemoryManager.cpp:137-187 | headers and data bytes of a tiling sum to the bytes from its first header to the end of the pool |
| HeapChain.TilesOrdered | kernel/memory/MemoryManager.cpp:137-187 | blocks of a tiling never overlap |
| HeapChain.CarveTiles | kernel/memory/MemoryManager.cpp:57-126 | after a split the chain tiles the pool to the same end; its start moves by the bytes dropped in front, which are none unless the first block is split with an offset of at most one header |
| HeapChain.CarveCoalesced | kernel/memory/MemoryManager.cpp:57-126 | allocation leaves no two free neighbours |
| HeapChain.CarveKeepsUsed | kernel/memory/MemoryManager.cpp:57-126 | every other used block stays in place with its size; only the one in front may grow, by the offset |
| HeapChain.CarveAddsOne | kernel/memory/MemoryManager.cpp:57-126 | the only new used block is the carved one |
| HeapChain.CarveCutsTail | kernel/memory/MemoryManager.cpp:57-126 | of the block that it is carved out of, the caller gets exactly the size, and what is behind becomes a free block, iff that has more than 16 bytes; and never more than 16 bytes too much |
| HeapChain.ReleaseTiles | kernel/memory/MemoryManager.cpp:224-241 | after kfree the chain tiles the same bytes |
| HeapChain.ReleaseCoalesced | kernel/memory/MemoryManager.cpp:224-241 | kfree leaves no two free neighbours |
| HeapChain.ReleaseKeepsUsed | kernel/memory/MemoryManager.cpp:224-241 | a used block is in the chain after kfree iff it was before and is not the released one |
| HeapChain.ReleasedIsBlockIff | kernel/memory/MemoryManager.cpp:224-241 | a freed block still is a block of the chain iff there was no free one in front of it |
| HeapChain.FreeUndoesAllocIff | kernel/memory/MemoryManager.cpp:57-126 | kfree right after kmalloc restores the chain iff nothing was given away in front: no offset, or one that became a block of its own |
| Masks.AlignUp | kernel/memory/MemoryManager.cpp:30-35 | the least multiple of the alignment that is not below the address |
| Masks.MaskRoundsIff | kernel/memory/MemoryManager.cpp:31-35 | masking with the alignment less 1 rounds every address down to a multiple iff the alignment is a power of two |
| Masks.PlaceIsAlignUp | kernel/memory/MemoryManager.cpp:30-35 | for a power of two lines 31-35 look for the least multiple not below the data |
| HeapChain.AlignBlockExact | kernel/memory/MemoryManager.cpp:30-44 | for every alignment: align_block finds the end of the masked place iff the alignment is not 0 and the data is masked already or the sum stays in 32 bits, or the answer is 0 all the same |
| HeapChain.WrapsPower | kernel/memory/MemoryManager.cpp:30-44 | for a power of two it is wrong iff some bytes are wanted of a free block that is large enough, not aligned, and whose sum leaves 32 bits; the answer then is a place at address 0 |
| HeapChain.WrappedAnswer | kernel/memory/MemoryManager.cpp:30-44 | where it is wrong, for any alignment, it answers with a place in front of the data |
| HeapMemory.MergeLinked | kernel/memory/MemoryManager.cpp:128-135 | merging two headers leaves all headers linked both ways |
| HeapMemory.TailLinked | kernel/memory/MemoryManager.cpp:111-117 | repaired: the tail's header links in between its neighbours both ways |
| Heaps.Heap.constructor | kernel/memory/MemoryManager.cpp:255-259 | one free block over the whole pool, with no gap in front |
| Heaps.Heap.PoolBytes | kernel/memory/MemoryManager.cpp:137-241 | after any calls, headers, data and the gap at the start sum to the pool; the gap is what the operations below add to it |
| Heaps.Heap.MoveHeader | kernel/memory/MemoryManager.cpp:87-105 | the header moves up; the gap goes to the left block, becomes a block, or is dropped with heap_head following |
| Heaps.Heap.CutTail | kernel/memory/MemoryManager.cpp:109-120 | repaired: if more than a header remains behind the block it becomes a free block of its own, linked both ways, and otherwise stays |
| Heaps.Heap.CutAligned | kernel/memory/MemoryManager.cpp:59-74 | the same for data that is aligned already, as written |
| Heaps.Heap.SplitBlock | kernel/memory/MemoryManager.cpp:57-126 | repaired: the chain becomes the carved chain, linked both ways, and the gap grows by the bytes dropped in front of the first block; in a coalesced chain lines 75-84 are unreachable |
| Heaps.Heap.SplitBlockAsWritten | kernel/memory/MemoryManager.cpp:57-126 | as written: the headers still tile the pool with inverse links iff no aligning was needed, or the block was the last and a tail is cut off |
| Heaps.Heap.MergeBlocks | kernel/memory/MemoryManager.cpp:128-135 | the left block takes in the right one; the gap stays, and so does every magic number |
| Heaps.Heap.KmallocCommon | kernel/memory/MemoryManager.cpp:137-187 | for every alignment: unless a block for which a place in front of its data is computed comes first (iff), the first block that can hold size bytes at its masked place gives them there, and the gap grows by what that drops; null iff there is none, and then nothing changes; the retry finds nothing new |
| Heaps.Heap.Kmalloc | kernel/memory/MemoryManager.cpp:213-218 | null iff no free block can hold the bytes; otherwise a used block at the result, aligned to 8 from 8 bytes on, carved out of the first block that fits: exactly the size asked for, with the rest behind it a free block, if that has room for more than a header, and else all of the rest; how the gap grows |
| Heaps.Heap.KmallocAligned | kernel/memory/MemoryManager.cpp:220-222 | the same for any alignment: the result is masked, and a multiple of the alignment if that is a power of two |
| Heaps.Heap.Kfree | kernel/memory/MemoryManager.cpp:224-241 | panics iff the magic number is wrong; otherwise the chain becomes the released chain and the gap stays; a second kfree of the same address will pass the test, although the address is no block any more iff there was a free one in front of it |
| HeapCounterexamples.SplitLeavesThePool | kernel/memory/MemoryManager.cpp:118-120 | kmalloc_aligned(0x60, 32) on a pool of one block gives offset 16, and the pool is not tiled any more |
| HeapCounterexamples.GapIsLost | kernel/memory/MemoryManager.cpp:103-105 | kmalloc and kfree with an offset of 16 lose 16 bytes |
| HeapCounterexamples.TwentyFourIsNoMask | kernel/memory/MemoryManager.cpp:31-35 | behind address 16 an alignment of 24 finds 40 |
| HeapCounterexamples.SecondFreePasses | kernel/memory/MemoryManager.cpp:224-241 | two neighbours of four bytes, freed from left to right: the right one passes the test once more |
| HeapCounterexamples.AlignmentWraps | kernel/memory/MemoryManager.cpp:34 | in a pool of 128 MB at 0xC0200000 an alignment of 1 GB takes a place at address 0 |
| Schedulers.Scheduler.constructor | kernel/tasking/Scheduler.cpp:63-83 | the idle task is ready with 5 slices, and the boot task is current and due to be switched out |
| Schedulers.Scheduler.PickNext | kernel/tasking/Scheduler.cpp:120-134 | the head of rq; when rq is empty the queues are swapped and every task gets 5 slices; null iff both are empty |
| Schedulers.Scheduler.Schedule | kernel/tasking/Scheduler.cpp:107-117 | the picked task becomes current, and the old one is no longer due; there is none to switch to iff both queues are empty |
| Schedulers.Scheduler.Tick | kernel/tasking/Scheduler.cpp:136-160 | nothing while rq is empty; otherwise the current task loses a slice, and with its last it moves to expired_q and is due; it must have a slice, and be in rq when it has one only |
| Schedulers.Scheduler.AfterInterrupt | arch/x86/interrupt.cpp:43-45 | a due task is switched out at the end of the interrupt; there is none to switch to iff it is due and both queues are empty |
| Schedulers.Scheduler.ActivateTask | kernel/tasking/Scheduler.cpp:162-165 | the task joins the end of rq with 5 slices |
| Schedulers.Scheduler.DeactivateTask | kernel/tasking/Scheduler.cpp:167-170 | the task leaves rq |
| Schedulers.WaitQueue.Add | kernel/wait_queue.cpp:9-12 | the task moves from rq to the end of the wait queue |
| Schedulers.WaitQueue.WakeUpOne | kernel/wait_queue.cpp:14-21 | the first waiting task moves to the end of rq with 5 slices, and the current task is due; nothing if none waits |
| Schedulers.Mutex.Acquire | kernel/locks/Mutex.cpp:11-28 | returns at once for the owner; otherwise takes a free lock, or joins the end of the wait queue, or dereferences null iff it would wait and is the last task on the queues |
| Schedulers.Mutex.Retry | kernel/locks/Mutex.cpp:18-25 | the loop's test and what follows: take the lock if it is free, otherwise join the end of the wait queue and switch, with the same exception |
| Schedulers.Mutex.Release | kernel/locks/Mutex.cpp:30-38 | the first waiter moves to the end of rq and the lock is free, whoever releases |
| Scheduling.TimerSettles | kernel/tasking/Scheduler.cpp:107-160 | a timer interrupt, also across a queue swap, keeps: the current task heads rq with 1..5 slices, the rest of rq have 5, expired tasks 0, nothing is queued twice |
| Scheduling.BlockSettles | kernel/wait_queue.cpp:9-12 | blocking keeps that state, and exactly the blocked task leaves the queues |
| Scheduling.ActivateSettles | kernel/tasking/Scheduler.cpp:162-165 | activating keeps that state |
| KernelRuns.StepKeepsInv | kernel/locks/Mutex.cpp:11-38 | every timer or other interrupt, new task, acquire, retry and owner's release, by any task, keeps: every task is in exactly one of rq, expired_q and one wait queue; at most one task is past acquire, it is the owner, and val is false exactly then; an owner does not wait for its own lock; a free lock with waiters has a woken task in rq |
| KernelRuns.ReachableInv | kernel/locks/Mutex.cpp:11-38 | all of that holds in every state reachable from the first switch to the idle task |
| KernelRuns.FaultsIff | kernel/tasking/Scheduler.cpp:107-134 | schedule dereferences null iff the task that finds a lock taken is the only one on the queues |
| KernelRuns.OneLockNeverFaults | devices/vga.cpp:25-29 | with one lock no event does, whoever blocks: its owner is still on the queues |
| KernelRuns.OneLockReachable | devices/vga.cpp:25-29 | so every run of enabled events from the first switch to the idle task goes through and keeps the invariant |
| KernelRuns.ReleaseExclusiveIff | kernel/locks/Mutex.cpp:30-38 | release keeps mutual exclusion iff the lock is free or the releasing task owns it |
| KernelRuns.TimerWait | kernel/tasking/Scheduler.cpp:107-160 | a timer interrupt shortens every runnable task's wait by exactly one tick |
| KernelRuns.BlockWait | kernel/wait_queue.cpp:9-12 | blocking shortens every other runnable task's wait by the slices given up |
| KernelRuns.ActivateWait | kernel/tasking/Scheduler.cpp:162-165 | activating a task delays exactly the expired tasks, by five ticks |
| KernelRuns.StepWait | kernel/tasking/Scheduler.cpp:107-170 | no event lengthens a wait except an activation while the task is expired |
| KernelRuns.BoundedWaiting | kernel/tasking/Scheduler.cpp:107-170 | in every run a runnable task becomes current within its wait plus 5 ticks for each activation while it is expired |
| KernelRuns.WithinFiveTicksEach | kernel/tasking/Scheduler.cpp:107-170 | the task at place i of rq becomes current within 5 i timer interrupts, whatever else happens |
| KernelRuns.FreeLockIsRetried | kernel/locks/Mutex.cpp:18-21 | if a lock is free and tasks wait for it, a woken one is back at the test, still woken for this lock, within 5 ticks for each task ahead in rq |
| KernelRuns.JoinsLast | kernel/locks/Mutex.cpp:18-21 | a task that blocks on a lock stands behind everyone who waits for it already |
| KernelRuns.PlaceInQueue | kernel/wait_queue.cpp:9-21 | no event moves a waiting task back; a release of its lock moves it up by one, or wakes it if it is the first, and nothing else moves it |
| KernelRuns.FirstComeFirstServed | kernel/locks/Mutex.cpp:11-38 | in every run the task at place i of a wait queue is woken by release i + 1 of its lock, and until then has moved up by one with each release |
| LockCounterexamples.StrangerReleases | kernel/locks/Mutex.cpp:30-38 | a release by another task frees the lock while its owner is inside |
| FaultCounterexamples.TwoLocksFault | kernel/tasking/Scheduler.cpp:107-117 | the idle task and another one take a lock each and then ask for the other: the run ends in the null dereference |
| IntrusiveLists.List.Append | libcpp/list.hpp:105-121 | whatever the assertion lets pass: a node that is no member is appended, and links, head, tail and size agree; a list that held the node, this one or another, is afterwards no list of any members; every other list is as before |
| IntrusiveLists.List.Pop | libcpp/list.hpp:140-154 | takes the last member off, clears its links and its list; every other list is as before |
| IntrusiveLists.List.LeftPop | libcpp/list.hpp:156-170 | takes the first member off, clears its links and its list; every other list is as before |
| IntrusiveLists.List.Remove | libcpp/list.hpp:172-187 | removes a member and clears its links; dereferences null iff the node was once removed from the middle, and panics iff it is any other stranger; every other list is as before |
| IntrusiveLists.List.RemoveInside | libcpp/list.hpp:179-183 | a member between two others leaves, and keeps naming the list |
| IntrusiveLists.List.Reached | libcpp/list.hpp:46-77 | k increments from begin() reach member k, and end() after the last |
| IntrusiveLists.ListsShareNoMember | libcpp/list.hpp:11-20 | a node is a member of at most one list |
| IntrusiveLists.AssertionMissesOnlyMember | libcpp/list.hpp:108 | the assertion in append lets a member of a list pass iff it is the only one |
| ListCounterexamples.AppendTakesAMember | libcpp/list.hpp:105-121 | appending the only member of a list to another breaks the first |
| ListCounterexamples.SecondRemoveFaults | libcpp/list.hpp:172-187 | the middle one of three nodes removed twice: a null dereference |
| Numerals.NumberTextLength | libcpp/cstring.cpp:55-151 | the output is max(width, sign + prefix + max(precision, digits)) long |
| Numerals.NumeralRoundTrip | libcpp/cstring.cpp:88-97 | digits after any number of zeros stand for the number they were made from, in every base 2..16 |
| Numerals.DigitMeans | libcpp/cstring.cpp:30-32 | digit d is character d of "0123456789abcdef" or of its capitals, printed and read |
| Numerals.ReadsLongestRun | libcpp/cstring.cpp:30-37 | in a given base str_to_u32int reads exactly the longest run of digits below the base, modulo 2^32 |
| Numerals.ReadsGuessedBase | libcpp/cstring.cpp:19-29 | with base 0 it reads base 16 behind "0x" and a hex digit, base 8 behind any other "0", and base 10 otherwise |
| NumberRoundTrips.UnsignedRoundTrip | libcpp/cstring.cpp:16-38 | for every word, base 2..16, width, precision and flags: str_to_u32int gives the value back and stops at the end iff no sign, no blank and no "0x" was printed |
| NumberRoundTrips.SignedRoundTrip | libcpp/cstring.cpp:40-44 | str_to_s32int gives the signed value back, -2^31 included, and stops at the end iff no plus, no blank and no "0x" was printed |
| NumberRoundTrips.GuessedBaseRoundTrip | libcpp/cstring.cpp:19-29 | with a prefix for base 8 or 16, base 0 gives the value back iff no sign, no blank and no "0X" was printed |
| Printing.StoredConcat | libcpp/cstring.cpp:103-149 | storing two texts one after the other is storing their concatenation, with any limit |
| Printing.TerminatorBounds | libcpp/cstring.cpp:383-387 | after the NUL the buffer holds the first min(length, size - 1) characters, the NUL, and its old contents; size 0 stays untouched |
| Printing.DigitCount | libcpp/cstring.cpp:56 | a number below 2^k has at most k digits in any base |
| Printing.ComputeDigits | libcpp/cstring.cpp:88-97 | the loop leaves the digits in reverse, inside the array |
| Printing.Number | libcpp/cstring.cpp:55-151 | stores exactly the number's text, as far as it fits, and advances by its whole length; a base outside 2..36 gives null |
| Formatting.FormatConcat | libcpp/cstring.cpp:190-382 | formatting two formats in a row is formatting the first, then the second with the arguments that are left |
| Formatting.SpecExtends | libcpp/cstring.cpp:198-258 | reading a specification does not look beyond its conversion character |
| Formatting.PlainText | libcpp/cstring.cpp:190-196 | text without '%' is copied and takes no argument |
| Formatting.StoresConcat | libcpp/cstring.cpp:320-330 | what "%n" stores for two formats in a row: the second counts the output of the first |
| Formatting.CountStored | libcpp/cstring.cpp:320-330 | "%n" stores the length of all output before it, whether or not it fits |
| Formatting.TrailingPercent | libcpp/cstring.cpp:355-366 | a '%' at the end of a format is printed, and the cursor does not pass the end |
| Conversions.SpecificationMeans | libcpp/cstring.cpp:198-258 | any flags, width, precision (none, a number, an argument, a bare dot) and qualifier, written out, are read as what they say: which flag is which, a negative width argument means left justified, a negative precision argument 0 |
| Conversions.DirectiveMeans | libcpp/cstring.cpp:263-381 | a single specification prints its conversion only, of the argument behind those of its width and precision, and the next one goes on behind that |
| Conversions.CharacterConverts | libcpp/cstring.cpp:264-281 | "%c" prints the low byte as one character, padded with blanks on the stated side |
| Conversions.StringConverts | libcpp/cstring.cpp:283-308 | "%s" prints the text at every address from 4096 on, and "<NULL>" below, up to its NUL and the precision, padded to the width with blanks on the stated side |
| Conversions.OthersConvert | libcpp/cstring.cpp:355-366 | "%%" prints one percent sign, "%n" nothing, and a character that is no conversion itself behind a percent sign |
| Conversions.IntegerConverts | libcpp/cstring.cpp:338-381 | "%d", "%i", "%u", "%o", "%x", "%X" with anything in between: the digits of the number in its base, without a leading zero and in the right case, of the low 16 bits for "h", signed for "d" and "i", and the sign, prefix, zeros and padding around them, each in its place |
| Conversions.PointerConverts | libcpp/cstring.cpp:310-318 | "%p" prints the whole word in base 16, zero-filled to 8 without a width |
| Vsnprintfs.SkipFlags | libcpp/cstring.cpp:199-218 | the goto loop reads exactly the flags |
| Vsnprintfs.SkipAtoi | libcpp/cstring.cpp:47-53 | the value of the longest run of decimal digits, and where it ends |
| Vsnprintfs.FieldWidth | libcpp/cstring.cpp:220-232 | digits or an argument; a negative argument means left justified |
| Vsnprintfs.Precision | libcpp/cstring.cpp:233-246 | digits, an argument, or 0; a negative argument means 0 |
| Vsnprintfs.Qualifier | libcpp/cstring.cpp:248-258 | one of h, l, L, Z, z; "ll" means L |
| Vsnprintfs.PutField | libcpp/cstring.cpp:264-281 | text padded with blanks on one side to the width |
| Vsnprintfs.PutString | libcpp/cstring.cpp:283-308 | at most precision characters of the string, or of "<NULL>" for addresses below 4096, padded |
| Vsnprintfs.PutInteger | libcpp/cstring.cpp:338-381 | the operand cut by the qualifier, in the conversion's base, with its sign and case |
| Vsnprintfs.Convert | libcpp/cstring.cpp:263-381 | the text of every conversion character, whether it takes an argument, and what it stores through it |
| Vsnprintfs.Vsnprintf | libcpp/cstring.cpp:165-392 | for every format, arguments, address and size: the buffer gets the first size - 1 characters of the unbounded output, then a NUL, and is as before behind it; a size that leaves the address space is cut, nothing else is written but the stores of "%n", and the result is the unbounded length |
| Vsnprintfs.LastAddress | libcpp/cstring.cpp:182-188 | lines 185-188 cut the size to the end of the address space iff buf + size leaves it |
| Vsnprintfs.Vsprintf | libcpp/cstring.cpp:420-422 | the text and its NUL are written, however long, and what is behind them stays |
| Parsing.StrToU32Int | libcpp/cstring.cpp:16-38 | the value of the longest run of digits modulo 2^32, and where it ends |
| Parsing.StrToS32Int | libcpp/cstring.cpp:40-44 | the same with a sign, as a signed word |
| Parsing.WrapEveryDigit | libcpp/cstring.cpp:32 | wrapping at every digit is wrapping once at the end |
| Parsing.DecimalReadsBack | libcpp/cstring.cpp:349-353 | "%d" prints every word so that it reads back |
| Parsing.UnsignedReadsBack | libcpp/cstring.cpp:339-347 | "%u", "%o", "%x", "%X" and "%p" print every word so that it reads back in its base |
| Parsing.HashReadsBackIff | libcpp/cstring.cpp:339-347 | "%#o" and "%#x" read back with base 0 for every word, "%#X" for none |
| NumberCounterexamples.CapitalPrefixReadsAsZero | libcpp/cstring.cpp:19-29 | 31 prints as "0X1F", which base 0 reads as 0 |
| Parsing.BufferReadsLikeText | libcpp/cstring.cpp:383-387 | a large enough buffer reads like the text printed into it, whatever lies behind the NUL |
| Parsing.BufferRoundTrip | libcpp/cstring.cpp:165-392 | vsnprintf with "%d" and str_to_s32int on the same buffer give the number back |
| Ttys.TTY.constructor | kernel/tty/TTY.hpp:102-107 | blank ring, blank screen, position and window at 0 |
| Ttys.TTY.Clear | kernel/tty/TTY.cpp:131-140 | the same |
| Ttys.TTY.PrintRange | kernel/tty/TTY.cpp:142-153 | exactly the cells of the range are copied from the ring to their places in the window |
| Ttys.TTY.Write | kernel/tty/TTY.cpp:11-67 | for every string the loops give the terminal that the character-by-character definition gives |
| Ttys.TTY.TurnPage | kernel/tty/TTY.cpp:55-65 | the window ends with the row of the last character, the rest of that row is blank, and the screen is redrawn |
| Scrollback.CharacterMeans | kernel/tty/TTY.cpp:16-48 | what each character does to the log: a printable one is stored in white on black at the position, a tab clears up to the next multiple of 8, a newline goes to the next multiple of 80 and a return to the last, a backspace one to the left inside the row, and all others nothing |
| Scrollback.TabStops | kernel/tty/TTY.cpp:24-30 | a tab ends at the least multiple of 8 past the column, at the latest at the end of the row |
| Scrollback.PageTurns | kernel/tty/TTY.cpp:50-57 | after any string the window is where it was if the string stayed inside it, and otherwise ends with the row that the string reached |
| Ttys.TTY.ScrollUp | kernel/tty/TTY.cpp:69-100 | the branches and the redraw give the terminal of the value model, which ScrollsUpRows describes row by row |
| Ttys.TTY.ScrollDown | kernel/tty/TTY.cpp:102-129 | the branches and the redraw give the terminal of the value model, which ScrollsDownRows describes row by row |
| Scrollback.KeyRefinesIff | kernel/tty/TTY.cpp:11-67 | the log holds what was written where, and knows nothing of windows; after any single character the screen is its window and the ring holds every row that scrolling can reach iff the position was in view, or nothing is written from the old or the new position, whichever is later, to the end of the row |
| Scrollback.WriteRefinesIff | kernel/tty/TTY.cpp:11-67 | the same for any string in one call, iff the page is turned or no cell changed in front of where the string moved left, and if it is turned nothing is written from the high end to the end of the row, and every cell that the string skipped was blank one round before |
| Scrollback.ScrollUpRefines | kernel/tty/TTY.cpp:69-100 | scrolling up shows the log's older rows, never an overwritten slot |
| Scrollback.ScrollDownRefines | kernel/tty/TTY.cpp:102-129 | scrolling down likewise |
| Scrollback.ScrollsUpRows | kernel/tty/TTY.cpp:69-100 | scrolling up by n lines moves the window up by exactly n rows, and what stays in view n rows down the screen, if the ring holds those rows, and otherwise to the oldest row that it holds |
| Scrollback.ScrollsDownRows | kernel/tty/TTY.cpp:102-129 | scrolling down by n lines likewise, up to the current row, or from position 18000 on to where that row is the last one |
| Scrollback.DownUndoesUp | kernel/tty/TTY.cpp:69-129 | scrolling down n lines undoes scrolling up n, screen and all, where neither limit is met |
| Scrollback.UpUndoesDown | kernel/tty/TTY.cpp:69-129 | and the other way round |
| Scrollback.ScrollDownMovesDownIff | kernel/tty/TTY.cpp:102-129 | scrolling down does not move the window up iff the window is not below its limit |
| Scrollback.ScrollUpMovesUp | kernel/tty/TTY.cpp:69-100 | scrolling up never moves the window down |
| Scrollback.RunRefines | kernel/tasking/IdleProcess.cpp:34-46 | all of that before and after every event of any run of single characters, scrolling and clearing in which every character finds the position in view |
| Scrollback.RunRefinesIff | kernel/tty/TTY.cpp:11-140 | for any run: iff every character finds the position in view or takes nothing away from its row |
| Scrollback.TypingRefines | kernel/tty/TTY.cpp:11-67 | without scrolling up that is so, from the cleared terminal on |
| Scrollback.ScreenIsOutputOrBlank | kernel/tty/TTY.cpp:55-65 | after any run at all every cell of the screen is the one written at its place in the log, or blank |
| Scrollback.ScreenIsRedraw | kernel/tty/TTY.cpp:50-53 | after any such run the incrementally printed screen is what a full redraw would give |
| Scrollback.TopLimitIsLow | kernel/tty/TTY.cpp:72-83 | the limit for scrolling up is the first row that the ring still holds whole |
| Scrollback.WriteShowsIff | kernel/tty/TTY.cpp:11-67 | for every string in one call: the screen is what a full redraw would give iff the page was turned or no cell changed between the start of the row and the least position from which the string moved left |
| Scrollback.StoredFromShows | kernel/tty/TTY.cpp:11-67 | so it is if the string stores no character below that position, which the string and the position alone decide |
| Scrollback.BackspaceInOneCall | kernel/tty/TTY.cpp:18-22 | after a backspace and a character in one call the screen is up to date iff the character did not change |
| TtyCounterexamples.OldCharacterStays | kernel/tty/TTY.cpp:18-22 | "\bb" in one call after "a" leaves "a" on the screen |
| TtyCounterexamples.ReturnLeavesOldCharacter | kernel/tty/TTY.cpp:31-34 | "\rX" in one call after "ab" leaves "a" on the screen |
| TtyCounterexamples.ScrollDownMovesUp | kernel/tty/TTY.cpp:109-118 | a run to position 18000 with the window at 17920, where scrolling down by one line moves the window up by 23 rows |
| TtyCounterexamples.RowIsBlanked | kernel/tty/TTY.cpp:55-65 | 25 newlines, "ab", a return, scrolling up by one line, and "X": the "b" is gone from the screen and the ring |
| TtyCounterexamples.OldRowComesBack | kernel/tty/TTY.cpp:55-65 | with "a" in row 0 and the position in row 249, two newlines in one call show the "a" again in row 250 |

## Left out

- BuddyManagers.BuddyManager.FreePages: stops where it reaches outside `frames`; the `assert` of line 73 is implied by the chunk being lent.
- BuddyManagers.BuddyManager.AllocFrames: a request for more than all of memory, for which line 34 reads past the lists, gets null; that test is one of the repairs.
- BuddyManagers.BuddyManager.AllocFramesAsWritten: a read past the lists is reported, and taken to find an empty list.
- BuddyManagers.BuddyManager.constructor: takes the bitmap as zeroed, which `new uint32_t[]` does not promise; `phy_addr` is the index shifted and is not kept.
- BuddyManagers.BuddyManager.FreeRange: the frames must not be managed already; `HandedOnceIff` says when the caller keeps that. Sums of addresses do not wrap there.
- BuddyManagers.BuddyManager.FreePiece: the same; past the end of memory it stops where it reaches outside `frames`.
- BuddyManagers.BuddyManager.SplitChunk: a `FrameChunk` is a value, so what the source does through the pointer in `frames[].chunk` is written out; allocation and `delete` of chunks are not modelled. The lists are sequences; IntrusiveLists shows that the linked lists have the same effects.
- Heaps.Heap.KmallocCommon: the model stops where a place in front of the block's data is computed. `heap_tail` is never read for a decision and is left out.
- Heaps.Heap.Kfree: what freeing a header that was merged away does to the chain; the address must be that of a block, or fail the test.
- Heaps.Heap.SplitBlock: addresses are numbers and headers a map from addresses; that headers do not share bytes with data follows from the tiling, the bytes themselves are not modelled.
- KernelRuns.StepKeepsInv: an event is one stretch with interrupts off; saving and restoring the interrupt flag, `switch_to` and stack frames are not modelled; what happens after the null dereference is not either.
- KernelRuns.ReachableInv: starts after the first switch from the boot task to the idle task.
- IntrusiveLists.List.Append: `left_append` is not used and does not set the old head's `prev`; the step from a node to the object around it is pointer arithmetic.
- IntrusiveLists.List.Remove: requires that a node once removed from the middle still has no neighbours, that is, that only lists write links.
- Vsnprintfs.Vsnprintf: what `%n` stores is a list of addresses and values, whose effect on the buffer or the arguments is left out; overflow of `int` in widths and in the result, and a text that leaves the address space, are not modelled; a string argument is given with the text it points to.
- Numerals.NumberTextLength: widths and precisions are unbounded integers.
- Ttys.TTY.Write: the cursor registers, `input_mode_` and the 32-bit wrap of `out_buf_pos_` are left out.
- Ttys.TTY.ScrollDown: `cols_ * lines` does not wrap.
- Scrollback.RunRefinesIff: one character for each call, as kernel/tasking/IdleProcess.cpp:43 uses it; WriteRefinesIff is about strings.
- File systems, disk, PCI and keyboard drivers, paging, GDT/IDT/TSS setup, `CircularQueue`, `String`, `Vector` and `Semaphore`: hardware effects, unfinished, or only easy members.
