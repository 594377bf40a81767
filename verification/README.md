# Verification of twOS's memory management and its byte-level interpreters

The project models the memory-management stack of the twOS kernel and four smaller components beside
it, and proves what each of them keeps over every run.

| layer | files | what is modelled |
|---|---|---|
| machine words | `Words`, `Bits`, `Bytes` | 64-bit words, masks and shifts, little-endian fields |
| physical frames | `Bitmap`, `FrameSearch`, `FrameGaps`, `FrameLedger`, `MemoryMap`, `RegionSpans`, `MapSafety`, `FrameGrants`, `PhysMem` | the frame bitmap, its search, runs of allocations and frees, the boot memory map and what it leaves free |
| page tables | `PageEntry`, `PageWalk`, `PageTree`, `PageMap`, `PageRuns`, `PageBudget`, `PageSupply`, `PageAccess`, `PageOverflow`, `VirtMem` | the table allocator, the radix tree of 2 MiB pages it feeds, and the window the kernel reaches both through |
| heap | `OrderedArray`, `HeapBlocks`, `HeapLayout`, `HeapRuns`, `HeapReuse`, `HeapContents`, `HeapFrames`, `KHeap` | headers and footers in memory, the size-sorted index, reuse of freed blocks, the frames underneath |
| text | `Numerals`, `NumeralReading`, `Printf`, `PrintfStandard`, `CmdLine`, `CmdLineText` | number printing and parsing, the format interpreter, the command line |
| interrupts | `RedirectionTable`, `IrqRouting`, `IoApic`, `Madt` | the redirection table behind its register window, the walk over the MADT |

Code that changes state is a class or a method over arrays (`Pmm`, `Vmm`, `OArray`, `KernelHeap`,
`CommandLine`, `IoApic`, `Acpi`, and the loops of `Numerals` and `Printf`). Each method is tied to a
function on values; the lemmas about runs speak of these functions.

## Where the code departs from its evident intent

The code is modelled as written. Where a one-line repair exists a parameter selects it, the theorem says
exactly when the code as written behaves like the repaired one, and the repaired build is covered too.

* `Build.wide` (`src/kernel/mem/physmem.c:34`): `set_phys` builds its mask with a 32-bit shift. A call on
  bit 31 or 63 writes bits 31 to 63, a call on bits 32 to 62 writes the bit 32 places below
  (`Bitmap.SetFrameUsed`). It updates one flat bit exactly for bit positions below 31
  (`Bitmap.SetFrameIsFlat`). Freeing an allocation restores the bitmap exactly for runs that stay below
  bit 31 of every word or take the whole word (`FrameSearch.FreeUndoesMark`), and a free in a run keeps
  the allocator's invariant exactly when it clears the run and nothing else in use
  (`FrameLedger.StepKeepsInv`). At set-up a region is written as meant exactly when in every word its span occupies
  bits below 31 only or the whole word; a span that starts among the low frames counts from frame 0
  (`RegionSpans.RegionIsFlat`). A map of such regions leaves the meant bitmap (`RegionSpans.InitialIsFlat`);
  a reserved region at bit 61 is left free (`MemoryMap.MisplacedReservation`). The 32-bit shift is taken as x86-64 executes it.
* `Build.reset` (`src/kernel/mem/physmem.c:114`): skipping a full word does not reset the run counter. A
  run may then jump over used frames; for every request of two or more frames there is a bitmap on which
  it does (`FrameSearch.JumpIsUnsound`), and the frames granted were all free exactly when no word they
  reach into was skipped (`FrameSearch.SearchIsFirstFit`). A bitmap is safe for every request exactly when before
  every stretch of examined free frames that crosses skipped words there is one at least as long
  (`FrameGaps.CrossingsAreExact`), in particular when every gap of full words has a used frame at one of its
  edges (`FrameGaps.GapFreeIsSound`).
* `Machine.step` (`src/kernel/mem/virtmem.c:59`): the trace line increments `cur->idx` as well, so two
  slots go per table and the 256th table of a block overlays the block's own `idx`, `prev` and `next`
  (`PageTree.NewTableIsClear`). The repository's log shows the stride of two tables (`com1.log:79-80`).
  A run from boot that returns is handed no such table exactly when the pages it names need at most 255
  tables that the tree does not have (`PageBudget.ExactIsWithinBudget`). Beyond that translations do
  change: 128 maps that need two tables each and one map more turn the flags of a page mapped with 0x83
  into 0x85 (`PageOverflow.OverflowBreaks`). With one increment every run is unaffected
  (`PageBudget.SingleStepRunsAreExact`).
* `src/kernel/mem/virtmem.c:36`, `:50`, `:73` and `:151`: every table is read and written through the
  higher-half window, which is itself made of pages that can be mapped anew. An access to a table that the
  window does not lead to ends in `Halt`. Unmapping the window page of P4 returns, and the next call stops
  (`PageRuns.UnmapWindowStops`). After a run a table is reached exactly when the last operation naming its window
  page, if any, mapped it to its own frame (`PageRuns.RunReachesExactly`); runs that name no page of the window
  are never stopped by it (`PageRuns.RunReaches`, `PageSupply.NextCallReturns`).
* Other callers' frees: as written, `phys_free` of the frame 32 places above a frame of tables marks that frame
  free (`PageRuns.NeighbourCleared`). A free keeps the tables held exactly when its masks touch none of their
  frames (`PageRuns.ReleaseOk`), which for 64-bit masks or flat runs means that it frees none of them
  (`PageRuns.OwnFramesSpare`).
* `reuse` (`src/kernel/mem/kalloc.c:169`): the path that reuses a freed block adds the size of a pointer,
  8, where the header has 13 bytes. It returns the payload of a block exactly when it makes a new one or
  the build adds 13 (`HeapRuns.ReturnsPayload`). As written, for sizes whose total does not wrap, freeing what
  it returned succeeds exactly when it made a new one; after a reuse the kernel stops
  (`HeapRuns.FreeAfterMalloc`). The first five bytes a reused grant covers are the upper ones of the block's
  size: a client's write leaves some layout exactly when it falls behind them or is zero
  (`HeapReuse.ReusedWrite`). Runs in which clients do no other harm keep the layout, reuse included, and keep
  grants apart from each other (`HeapReuse.HarmlessRunsKeepInv`, `HeapReuse.HeldIsSeparate`). Allocating,
  freeing and allocating no more again takes this path (`HeapReuse.ReuseHappens`), as the kernel does at boot
  (`src/kernel/kernel.c:129-131`, then `src/kernel/acpi/acpi.c:41`; `com1.log:111`).
* `src/kernel/mem/kalloc.c:227-230`: the heap lies in the window over frames 384 to 387, and nothing reserves
  these frames. Some run of `phys_malloc` is granted one of them exactly when one is managed and free at the
  start (`HeapFrames.HeapCanBeGranted`).
* `src/kernel/mem/kalloc.c:47-48`: the total block size wraps for requests in the last 25 bytes below
  2^64. Such a request passes the check for space and destroys the layout (`HeapRuns.MallocKeepsLayout`,
  `HeapRuns.WrappedSucceeds`).
* `include/kernel/mem/page.h:40-43` with `src/kernel/mem/physmem.c:83-84`: both ends of a region are rounded
  up. The frame an unaligned available end falls into is freed although part of it lies outside
  (`MapSafety.PartialEndFrame`), and the frame an unaligned reserved start falls into is not taken
  (`MapSafety.ReservedInsideFrame`). Every frame left free is available memory and meets no reserved region
  exactly when such ends and reserved ranges are covered by other regions (`MapSafety.FreedIsSafe`); when
  regions do not overlap the available ends alone decide (`MapSafety.DisjointFreedIsSafe`).
* `src/kernel/mem/virtmem.c:127`: flags from bit 21 on would change the frame (`PageEntry.LeafKeepsFrame`).
* `include/kernel/types/orderedarray.h:80-82` and `:88`: removal reads one slot past the last element, which is
  behind the storage when the array is full, and `oarray_get` hands out that slot for the index equal to the
  count (`OrderedArray.OArray.RemoveElement`, `OrderedArray.OArray.Get`).
* `src/kstdlib/print.c:41-44`: when the text fills the buffer its NUL goes to index `max_len`, one past
  the length passed; shorter text leaves that byte alone (`Printf.Snprintf`).
* `src/kstdlib/print.c:111-127` and `:197-206`: `%u` prints a negative argument with a sign, `%ld` and `%li`
  print one as unsigned, `%x` always prints a prefix, `%lX` (`:185-190` with `src/kstdlib/string.c:117`) spells
  digits above nine in lower case (`PrintfStandard.TenInLowerCase`), `%lo` prints in decimal and leaves its `o`
  as text (`:202-206`), and `%c` prints no NUL. For the bare specifiers that both know, the text is the one of
  section 7.21.6.1 of ISO C11 exactly for all other arguments (`PrintfStandard.ShowIsStandard`).
* `src/kstdlib/string.c:105-121`: `ltoa` copies 32 bytes, so it is exact for every 64-bit number exactly in
  bases from 5 on (`Numerals.LtoaIsExact`), and for one number exactly when it has at most 31 digits
  (`NumeralReading.LtoaFits`); of longer ones the first 32 of the last 60 digits are left
  (`NumeralReading.LtoaCut`).
* `src/kernel/apic/ioapic.c:30`: the upper half of an entry is shifted by 31 in 32-bit arithmetic. The
  entry is read correctly exactly when the upper half is zero (`RedirectionTable.JoinIs`), and only
  reserved bits of the lower half are ever wrong (`RedirectionTable.ReadFields`).
* `src/kernel/apic/ioapic.c:53-56`: `ioapic_mask_all` passes vectors where request lines are meant and
  masks exactly the entries of lines 32 to 47 (`IrqRouting.MaskAllIs`): none on a device with at most 31
  entries (`IrqRouting.MaskAllMasksNothing`).
* `src/kernel/apic/ioapic.c:117-121`: `max_redir` is one more than the last entry, and both the bound check
  and the masking loop reach that one entry too many (`IrqRouting.OneEntryTooMany`).
* `src/kernel/apic/ioapic.c:77-89`: with the usual override of request line 0 to global interrupt 2,
  unmasking line 2 enables an entry that carries line 0's vector (`IrqRouting.TimerOverride`,
  `IrqRouting.UnmaskRoutes`, `IrqRouting.PlainLineRoutes`).
* `src/kernel/acpi/acpi.c:86`: a record of length zero is never passed. The walk ends exactly when it
  reaches none (`Madt.WalkEnds`).

Where comments and code disagree the code is followed: the comment on `strncat`
(`src/kstdlib/string.c:57`) says that it adds exactly `n` characters, the code adds at most `n`; the comment on
`lx` (`src/kstdlib/print.c:185`) says that it prefixes with `0x`, the code does not.

`Outcome.Halt` stands for a failed `assert`, a `panic`, or an access outside the memory modelled.

## Model

| member | source | states |
|---|---|---|
| Bitmap.SetFrameUsed | src/kernel/mem/physmem.c:30-43 | set then get: exactly the frames the mask denotes get the new value, all others keep theirs |
| Bitmap.SetFrameIsFlat | src/kernel/mem/physmem.c:34-38 | `set_phys` is an update of one flat boolean, for all bitmaps and values, if and only if the bit is below 31 or the mask is built in 64 bits |
| FrameSearch.SearchIsFirstFit | src/kernel/mem/physmem.c:105-141 | fails only when no free run exists below the managed end; never starts beyond the first such run; its frames were all free if and only if the scan skipped no word they reach into |
| FrameSearch.JumpIsUnsound | src/kernel/mem/physmem.c:114 | for every request of two frames or more, a bitmap on which the code as written grants used frames |
| FrameSearch.SearchIsSound | src/kernel/mem/physmem.c:111-138 | for all bitmaps the granted frames were free, if and only if the counter is reset or one frame is asked for |
| FrameGaps.GapFreeIsSound | src/kernel/mem/physmem.c:111-138 | a simple sufficient condition: when every gap of full words has a used frame at one of its edges, every request that is granted is granted free frames, as written |
| FrameGaps.CrossingsAreExact | src/kernel/mem/physmem.c:111-138 | one bitmap, as written: every request that is granted is granted free frames, if and only if before every stretch of examined free frames that crosses skipped words there is one at least as long |
| FrameSearch.FramesHold | src/kernel/mem/physmem.c:106 | the frames asked for hold the bytes asked for and one less would not; sizes in the last 2 MiB below 2^64 wrap and ask for none |
| FrameSearch.GrantInBytes | src/kernel/mem/physmem.c:105-141 | in bytes: a grant marks the frames that begin among the bytes from its address on, and no other; a size that does not wrap is refused only when every place for it below the managed end meets a used frame |
| FrameSearch.MarkRunUsed | src/kernel/mem/physmem.c:126-130 | the cross-word marking loop marks exactly frames start to start+n-1 |
| FrameSearch.FreeRunUsed | src/kernel/mem/physmem.c:143-150 | freeing clears exactly the frames its masks touch |
| FrameSearch.FreeUndoesMark | src/kernel/mem/physmem.c:126-150 | freeing an allocation restores every bitmap bit for bit, if and only if the mask is wide or the run keeps below bit 31 or takes whole words |
| FrameSearch.FreeRestores | src/kernel/mem/physmem.c:126-150 | one bitmap: marking a free run and freeing it with its own size gives the bitmap back |
| FrameLedger.MallocKeepsInv | src/kernel/mem/physmem.c:105-141 | an allocation whose search skipped no word it reaches into keeps outstanding runs disjoint, in range, formerly free, and the bitmap equal to the start plus these runs |
| FrameLedger.FreeKeepsInv | src/kernel/mem/physmem.c:143-150 | a matching free that clears the run and no other frame in use keeps the same |
| FrameLedger.StepKeepsInv | src/kernel/mem/physmem.c:105-150 | a step keeps the invariant if and only if it stays clear of the two departures |
| FrameLedger.StepIs | src/kernel/mem/physmem.c:105-150 | in bytes: a step that grants holds and marks the frames of its bytes, a request with a free place is granted, a free gives back the run it names |
| FrameLedger.RunKeepsInv | src/kernel/mem/physmem.c:105-150 | every run of allocations and matching frees whose steps stay clear of the two departures keeps the same |
| FrameLedger.RepairedRunsAreExact | src/kernel/mem/physmem.c:34-114 | with both one-line repairs no run departs |
| FrameLedger.FramesAreConserved | src/kernel/mem/physmem.c:105-150 | over such runs free frames plus frames held by outstanding allocations is constant; with nothing outstanding the bitmap is the initial one |
| FrameGrants.GrantsAreAvailable | src/kernel/mem/physmem.c:79-141 | after set-up and any run clear of the departures, every frame granted is one whose last region to reach it is available, at or above 16, and held by nobody, so address 0 means failure alone |
| FrameGrants.GrantsAreSafe | src/kernel/mem/physmem.c:79-141 | with covered ends and reserved ranges, and flat spans or 64-bit masks, every frame granted and so every byte asked for is available memory and in no reserved region |
| MemoryMap.RoundUpIsLeast | include/kernel/mem/page.h:40-43 | the least frame boundary at or above, or 0 in the last frame below 2^64 |
| MemoryMap.ManagedEndIs | src/kernel/mem/physmem.c:60-73 | the managed end is the least frame boundary at or above the end of every available region, 0 if there is none or one ends in the last frame below 2^64 |
| MemoryMap.ManagedWordsIs | src/kernel/mem/physmem.c:69-74 | a frame is managed if and only if its whole word of 64 frames lies below that end |
| MemoryMap.TotalOfOne | src/kernel/mem/physmem.c:60-63 | what one region adds to the total: its length if it is available |
| MemoryMap.TotalOfBoth | src/kernel/mem/physmem.c:60-63 | the total of two lists of regions is the sum of their totals modulo 2^64 |
| MemoryMap.InitialUsed | src/kernel/mem/physmem.c:51-102 | as written: frames 0 to 15 are used, a managed frame above is free if and only if the last region to reach it is available |
| MemoryMap.InitialUsedFlat | src/kernel/mem/physmem.c:79-91 | with 64-bit masks: free if and only if the last region whose rounded span contains the frame is available |
| MemoryMap.SpanFrameInside | src/kernel/mem/physmem.c:83-86 | a frame of a rounded span lies wholly in the region unless the unaligned end falls into it |
| MemoryMap.FreeFramesAreAvailable | src/kernel/mem/physmem.c:79-91 | with aligned available ends every free frame lies wholly in one available region; what reserved regions add is `MapSafety.FreedIsSafe` |
| MemoryMap.MisplacedReservation | src/kernel/mem/physmem.c:34 | a memory map whose reserved frame the code as written leaves free |
| RegionSpans.RegionIsFlat | src/kernel/mem/physmem.c:34-88 | one region written and the low frames reserved: on every bitmap the code as written leaves what 64-bit masks leave, if and only if in every word the span occupies bits below 31 only or the whole word, where a span that starts among the low frames counts from frame 0 |
| RegionSpans.InitialIsFlat | src/kernel/mem/physmem.c:51-102 | a map of such regions leaves exactly the bitmap the 64-bit masks leave |
| RegionSpans.ManagedIsFlat | src/kernel/mem/physmem.c:51-102 | any map: the managed frames are as 64-bit masks leave them, if and only if for each frame above the low ones the last region to reach it is available under both masks or under neither |
| MapSafety.SpanIsFirstByte | src/kernel/mem/physmem.c:83-86 | the frames written for a region are those whose first byte it contains |
| MapSafety.FreedIsOwned | src/kernel/mem/physmem.c:79-91 | a managed frame is free if and only if it is not low and the last region containing its first byte is available |
| MapSafety.FreedIsSafe | src/kernel/mem/physmem.c:79-91 | every free frame lies wholly in available memory and meets no reserved region, if and only if unaligned available ends and reserved ranges are covered |
| MapSafety.DisjointFreedIsSafe | src/kernel/mem/physmem.c:79-91 | when regions do not overlap, if and only if unaligned available ends are covered |
| MapSafety.ReservedInsideFrame | src/kernel/mem/physmem.c:83 | a map whose reserved range lies in a frame left free |
| MapSafety.PartialEndFrame | src/kernel/mem/physmem.c:84 | a map without overlaps whose partly reserved frame is left free |
| PhysMem.Pmm.GetPhys | src/kernel/mem/physmem.c:22-29 | reads the frame's bit |
| PhysMem.Pmm.SetPhys | src/kernel/mem/physmem.c:30-43 | the new bitmap, in place |
| PhysMem.Pmm.Init | src/kernel/mem/physmem.c:51-102 | the bitmap, the managed end and the total after set-up |
| PhysMem.Pmm.Fill | src/kernel/mem/physmem.c:54-76 | the bitmap before the regions are written |
| PhysMem.Pmm.MarkRegions | src/kernel/mem/physmem.c:79-89 | the region loop up to the first entry above the managed end |
| PhysMem.Pmm.MarkRegion | src/kernel/mem/physmem.c:83-88 | one region's frames written in ascending order |
| PhysMem.Pmm.ReserveLowFrames | src/kernel/mem/physmem.c:90-91 | frames 0 to 15 written as used |
| PhysMem.Pmm.FindPages | src/kernel/mem/physmem.c:111-138 | the nested loops with their counter find what the search function says |
| PhysMem.Pmm.MarkPages | src/kernel/mem/physmem.c:126-130 | the marking loop, in place |
| PhysMem.Pmm.PhysMalloc | src/kernel/mem/physmem.c:105-141 | the address and the new bitmap, with the frames of the bytes granted marked, or 0 and the bitmap unchanged |
| PhysMem.Pmm.PhysFree | src/kernel/mem/physmem.c:143-150 | the new bitmap, in place, also for sizes that are not whole frames |
| Bits.BitsOf | src/kernel/mem/virtmem.c:73-127 | bit by bit, the conjunction and disjunction that masks, links and leaves are made with |
| PageEntry.PageAlignIs | include/kernel/mem/page.h:50-53 | the mask rounds down to 2 MiB |
| PageEntry.PageOfAligned | src/kernel/mem/virtmem.c:106-113 | aligning first does not change the three indices |
| PageEntry.DirectMapPage | src/boot/multiboot.asm:103-121 | byte x of the higher-half window lies in page (511, 510, x / 2 MiB) |
| PageEntry.LinkRecovers | src/kernel/mem/virtmem.c:69-80 | a link to a table is present and not large, and both the mask and the processor's walk recover the table from it |
| PageEntry.LeafIs | src/kernel/mem/virtmem.c:127 | the leaf is the aligned frame plus the flags |
| PageEntry.LeafKeepsFrame | src/kernel/mem/virtmem.c:107-127 | the frame is recovered from the leaf for all addresses if and only if the flags lie below bit 21 |
| PageWalk.WindowPageIs | src/kernel/mem/virtmem.c:36-73 | the window page each table is read and written through |
| PageTree.AllocBlockFacts | src/kernel/mem/virtmem.c:33-43 | a new block is a frame that was free, zeroed, outside the tree and all other blocks |
| PageTree.ChainExtended | src/kernel/mem/virtmem.c:54-57 | linking a block both ways keeps the chain well formed and ending at `cur` |
| PageTree.NextBlockOk | src/kernel/mem/virtmem.c:53-58 | rolling over to a new block keeps tree, chain and spare tables |
| PageTree.TakeOk | src/kernel/mem/virtmem.c:59-60 | from a block with room: the table taken is zero, 4 KiB aligned, outside the tree, clear of every block's control words |
| PageTree.NewTableOk | src/kernel/mem/virtmem.c:45-61 | when the block has room, one call of `new_page_table` that returns keeps the invariant and returns a fresh table |
| PageTree.NewTableIsClear | src/kernel/mem/virtmem.c:59-60 | the table returned is zero and not the block's control words if and only if the block has room |
| PageMap.LevelPresent | src/kernel/mem/virtmem.c:69-75 | an entry is present if and only if the child is in the tree, and then leads to it |
| PageMap.TreeLinked | src/kernel/mem/virtmem.c:77-80 | linking a fresh table adds one node and keeps the tables a tree without sharing |
| PageMap.NextLevelOk | src/kernel/mem/virtmem.c:65-88 | one level of the descent that is handed no control table reaches the child's table and changes no page's entry, even when it creates the table |
| PageMap.LeafWritten | src/kernel/mem/virtmem.c:127 | writing a leaf changes one page's entry |
| PageMap.MapPageOk | src/kernel/mem/virtmem.c:104-135 | a map call that is handed no control table and returns sets the named page to frame and flags; every other page keeps its entry |
| PageRuns.TranslateIsSlot | src/kernel/mem/virtmem.c:104-127 | the processor's walk from P4 ends in the page's own entry and meets no 1 GiB page |
| PageRuns.ReserveOk | src/kernel/mem/physmem.c:105-141 | other callers' allocations keep the tables and blocks held, and mark what `phys_malloc` marks |
| PageRuns.ReleaseOk | src/kernel/mem/physmem.c:143-150 | another caller's free keeps the tables and blocks held, if and only if its masks touch no frame that holds some |
| PageRuns.OwnFramesSpare | src/kernel/mem/physmem.c:143-150 | with 64-bit masks, or for runs below bit 31 or of whole words, if and only if it frees no such frame |
| PageRuns.NeighbourCleared | src/kernel/mem/physmem.c:34-38 | as written, freeing the frame 32 places above a frame of tables takes that frame from them |
| PageRuns.StepOk | src/kernel/mem/virtmem.c:104-140 | such a map or unmap call updates the flat map once and adds the tables its page lacks; other callers' allocations, and frees that spare the frames of tables, change nothing |
| PageRuns.RunRefinesFlat | src/kernel/mem/virtmem.c:65-140 | every run that returns, is handed no control table and frees no frame of tables keeps the tables a tree of depth three, and the tree equals the flat map updated once per call |
| PageRuns.BootInv | src/boot/multiboot.asm:103-121 | the boot tables are such a tree and map the first gigabyte |
| PageRuns.RunTranslates | src/kernel/mem/virtmem.c:65-140 | from boot, over every such run, the processor translates each page as the flat map says |
| PageRuns.MappedTranslates | src/kernel/mem/virtmem.c:104-140 | a page last mapped as present and large, with flags below bit 21, translates to the aligned frame and these flags |
| PageRuns.UnmappedTranslates | src/kernel/mem/virtmem.c:137-140 | a page last unmapped translates to nothing |
| PageRuns.RunKeepsDirectMap | src/boot/multiboot.asm:103-121 | the higher-half window survives every run that names no page in it |
| PageRuns.ReachedIsSlot | src/kernel/mem/virtmem.c:36-73 | the window leads to a table if and only if the tree's own entry for its window page says so |
| PageRuns.RunReachesExactly | src/kernel/mem/virtmem.c:36-151 | after a run from boot, accesses to a table reach it if and only if the entry the flat map has for its window page is the 2 MiB page of its own frame |
| PageRuns.RunReaches | src/kernel/mem/virtmem.c:36-151 | in particular through every run that does not name the window page |
| PageRuns.UnmapWindowStops | src/kernel/mem/virtmem.c:73-151 | a call that unmaps the window page of P4 returns, and the next map or unmap call stops |
| PageAccess.MapReaches | src/kernel/mem/virtmem.c:33-135 | a map call that returns reads P4 and the tables of its page, and changes tables, among those only that the window leads to before the call |
| PageAccess.MapStaysWithin | src/kernel/mem/virtmem.c:33-135 | it writes no frame but those that hold tables after it, and what held tables before still does |
| PageBudget.MapTaken | src/kernel/mem/virtmem.c:53-60 | how many slots of a block one map call uses, per table created |
| PageBudget.SingleStepRunsAreExact | src/kernel/mem/virtmem.c:60 | with one increment per call no run is handed a block's control words |
| PageBudget.RunTakes | src/kernel/mem/virtmem.c:53-60 | as written, an exact run from boot has added exactly the tables its pages need and lack, two slots each |
| PageBudget.ExactIsWithinBudget | src/kernel/mem/virtmem.c:59-60 | as written, a run that returns and frees no frame of tables is handed no control table if and only if its pages need at most 255 tables that the tree lacks |
| PageOverflow.LastMapOverlays | src/kernel/mem/virtmem.c:59-60 | as written, once 254 tables are taken a map that needs two more returns, and the block's control words become the table of its page |
| PageSupply.MapSucceeds | src/kernel/mem/virtmem.c:45-135 | with the window in place and no control table handed out, a map call returns if and only if it lacks no table, or a frame for a new block is to be had, or the current block has the tables it lacks |
| PageSupply.RunKeepsWindow | src/kernel/mem/virtmem.c:104-140 | from boot, runs that name no page of the window keep the whole window in place |
| PageSupply.NextCallReturns | src/kernel/mem/virtmem.c:45-140 | after such a run, the next call that is handed no control table returns if and only if there is supply for the tables its page needs and no page of the run needed |
| PageBudget.BootRunsTranslate | src/kernel/mem/virtmem.c:45-140 | from the boot tables, over every run that returns and frees no frame of tables, with one increment per call or with at most 255 missing tables as written, every page is translated as the flat map says |
| PageOverflow.OverflowBreaks | src/kernel/mem/virtmem.c:59-60 | as written, a run of 129 maps from the boot tables returns and one of its pages is translated with other flags than it was given |
| PageOverflow.BootTables | src/boot/multiboot.asm:103-121 | boot tables as these theorems require them exist, with a frame for the first block to be had |
| VirtMem.Vmm.AllocPtBlock | src/kernel/mem/virtmem.c:33-43 | a zeroed frame in memory, or the failed assertion |
| VirtMem.Vmm.ClearTables | src/kernel/mem/virtmem.c:36-39 | the tables of one frame are zero, the others unchanged |
| VirtMem.Vmm.EnsureBlock | src/kernel/mem/virtmem.c:47-51 | the first block is made once |
| VirtMem.Vmm.RollOver | src/kernel/mem/virtmem.c:53-58 | a full block gets a linked successor, in place |
| VirtMem.Vmm.TakeTable | src/kernel/mem/virtmem.c:59-60 | the increments of `idx` and the table handed out |
| VirtMem.Vmm.NewPageTable | src/kernel/mem/virtmem.c:45-61 | the three steps together |
| VirtMem.Vmm.GetNextMapLevel | src/kernel/mem/virtmem.c:65-88 | follows or creates the next table, in place |
| VirtMem.Vmm.VirtMapPage | src/kernel/mem/virtmem.c:104-135 | the memory after one map call, or the point where it stops |
| VirtMem.Vmm.VirtUnmapPage | src/kernel/mem/virtmem.c:137-140 | mapping frame 0 with no flags |
| OrderedArray.InsertKeepsOrder | include/kernel/types/orderedarray.h:50-77 | insertion keeps the array sorted and adds exactly the element |
| OrderedArray.OArray.constructor | include/kernel/types/orderedarray.h:35-44 | an empty array with room for the elements |
| OrderedArray.OArray.InsertElement | include/kernel/types/orderedarray.h:50-77 | the contents after insertion in place; 0 and no change when full |
| OrderedArray.OArray.Displace | include/kernel/types/orderedarray.h:64-72 | everything from the position on moves up one place |
| OrderedArray.OArray.RemoveElement | include/kernel/types/orderedarray.h:79-85 | the contents without the element, or without the last one for an index beyond the count; the count of an empty array wraps |
| OrderedArray.OArray.Get | include/kernel/types/orderedarray.h:87-91 | the element below the count, the word past the last one at the count, 0 beyond |
| HeapBlocks.TiledBounds | src/kernel/mem/kalloc.c:76-88 | tiled blocks are disjoint, in order, and at most (top - start) / 25 in number |
| HeapLayout.NewBlockOk | src/kernel/mem/kalloc.c:67-88 | header, footer and back link of a new block are readable, and nothing below it changed |
| HeapLayout.FindIsBestFit | src/kernel/mem/kalloc.c:94-117 | the first fit in the sorted index is a smallest available block that fits; none only if none fits |
| HeapLayout.FlagWritten | src/kernel/mem/kalloc.c:167-186 | changing a block's availability keeps the whole layout |
| HeapLayout.BlockAppended | src/kernel/mem/kalloc.c:144-155 | a new block keeps tiling, back links, permutation and order |
| HeapLayout.PayloadWritten | src/kernel/mem/kalloc.c:181-182 | a client's write inside a payload keeps the layout the checks of `_free` rely on |
| HeapLayout.MallocOk | src/kernel/mem/kalloc.c:121-171 | for every size: stops if and only if nothing fits and the space check fails, so no assertion and no index failure is reachable; otherwise a new block, or a smallest fitting one |
| HeapLayout.FreeOk | src/kernel/mem/kalloc.c:173-197 | freeing a payload passes every check and frees exactly that block |
| HeapLayout.FreeOfNull | src/kernel/mem/kalloc.c:176 | freeing the null address returns and changes nothing |
| HeapRuns.EmptyHeap | src/kernel/mem/kalloc.c:227-235 | the heap after initialisation has the layout |
| HeapRuns.StepKeepsInv | src/kernel/mem/kalloc.c:121-197 | a step that returns keeps the layout with every live address a payload, if and only if it is no allocation that wraps and none that reuses a block with less than 13 added |
| HeapRuns.RunsKeepInv | src/kernel/mem/kalloc.c:121-197 | every run of allocations, frees and client writes in which no allocation wraps, and none reuses a block unless the build adds 13, keeps the layout, and every live address backed by a block in use; `HeapReuse.HarmlessRunsKeepInv` has the runs that reuse blocks as written |
| HeapRuns.InvIsReady | src/kernel/mem/kalloc.c:121-171 | the side conditions under which `_malloc` is modelled hold in every state with the layout |
| HeapRuns.LiveIsSeparate | src/kernel/mem/kalloc.c:121-197 | live payloads are in the heap, disjoint from each other, from every header and footer and from the index |
| HeapRuns.ReturnsPayload | src/kernel/mem/kalloc.c:159-169 | the address is a payload of sufficient size if and only if the block is new or 13 is added |
| HeapRuns.FreeOfReusedHalts | src/kernel/mem/kalloc.c:169-182 | as written, freeing the address the reuse path returns for any block fails the check |
| HeapRuns.FreeAfterMalloc | src/kernel/mem/kalloc.c:121-197 | as written, freeing what `_malloc` returned succeeds if and only if it made a new block, for sizes whose total does not wrap; after a reuse it always stops |
| HeapRuns.MallocKeepsLayout | src/kernel/mem/kalloc.c:46-48 | an allocation that succeeds keeps the layout if and only if the total size does not wrap |
| HeapRuns.WrappedSucceeds | src/kernel/mem/kalloc.c:46-48 | on the empty heap a request 25 bytes below 2^64 succeeds and leaves no layout |
| HeapReuse.ReusedWrite | src/kernel/mem/kalloc.c:161-170 | as written, a byte a client writes at a reused address leaves a heap with some layout, if and only if it is behind the first five or zero |
| HeapReuse.ReleaseHarmless | src/kernel/mem/kalloc.c:173-197 | as written, freeing a live address stops the kernel if and only if the address came from a reused block; otherwise the layout is kept |
| HeapReuse.HarmlessIsExact | src/kernel/mem/kalloc.c:121-197 | as written, a step that returns leaves a heap with some layout, if and only if it is no allocation that wraps and no write that changes the size of a reused block |
| HeapReuse.EmptyHeapHeld | src/kernel/mem/kalloc.c:227-235 | the heap after initialisation is where such runs start |
| HeapReuse.HarmlessRunsKeepInv | src/kernel/mem/kalloc.c:121-197 | as written, every run of such steps, reuse included, keeps the layout and every live address in a block of its own |
| HeapReuse.HeldIsSeparate | src/kernel/mem/kalloc.c:121-197 | after such a run live grants lie in the heap, apart from each other, from every footer and from the first eight bytes of every header |
| HeapReuse.ReuseHappens | src/kernel/mem/kalloc.c:161-170 | from the empty heap, allocating, freeing and allocating again takes that path; freeing what it returned stops the kernel, and writing a one there leaves no layout |
| HeapContents.StepKeepsContents | src/kernel/mem/kalloc.c:121-197 | no call changes a byte of an allocation that stays live, but for the byte a client writes, with either build |
| HeapContents.HarmlessRunsKeepContents | src/kernel/mem/kalloc.c:121-197 | as written, through every run that does no harm and does not free an allocation, each of its bytes is what the client wrote last |
| HeapContents.RunsKeepContents | src/kernel/mem/kalloc.c:121-197 | the same for the runs without a departing step, with either build |
| HeapContents.FirstAllocation | src/kernel/mem/kalloc.c:46-197 | the first allocation byte by byte: its address, the marker, flag, size and footer as literals, the flag after a free, and the greatest size granted |
| HeapFrames.HeapIsInWindow | include/kernel/mem/kalloc.h:8-10 | every byte of the heap lies in the window pages of frames 384 to 387 |
| HeapFrames.HeapCanBeGranted | src/kernel/mem/physmem.c:105-150 | some run of the frame allocator is granted a frame under the heap, if and only if such a frame is managed and free at the start |
| KHeap.KernelHeap.constructor | src/kernel/mem/kalloc.c:227-235 | the index takes one page from the bump pointer |
| KHeap.KernelHeap.CreateHeapBlock | src/kernel/mem/kalloc.c:67-88 | the bytes written and the new end; its assertion holds |
| KHeap.KernelHeap.FindBestFreeSpace | src/kernel/mem/kalloc.c:94-117 | the position the scan stops at |
| KHeap.KernelHeap.KMalloc | src/kernel/mem/kalloc.c:121-171 | the heap after the call and the address, or the panic |
| KHeap.KernelHeap.NewAllocation | src/kernel/mem/kalloc.c:127-160 | the path that makes a block |
| KHeap.KernelHeap.Reuse | src/kernel/mem/kalloc.c:161-170 | the path that reuses one |
| KHeap.KernelHeap.KFree | src/kernel/mem/kalloc.c:173-197 | the heap after the call, or the failed assertion |
| Numerals.DigitsDenote | src/kstdlib/string.c:91-94 | the digits denote the number and only zero begins with a zero |
| Numerals.FillDigits | src/kstdlib/string.c:85-94 | the digits of the number at the end of the buffer, never left |
| Numerals.Itoa | src/kstdlib/string.c:75-103 | the exact text for every `int`, the least included, in every base from 2 to 36; nothing for other bases |
| Numerals.FillLong | src/kstdlib/string.c:107-117 | the last 60 digits at the end of the buffer |
| Numerals.Ltoa | src/kstdlib/string.c:105-121 | the bytes written |
| Numerals.LtoaIsExact | src/kstdlib/string.c:105-121 | exact for all 64-bit numbers if and only if the base is at least 5 |
| NumeralReading.LongTextReads | src/kstdlib/string.c:105-121 | what `ltoa` prints, read by ranges of characters, is the number, in digits and small letters without leading zeros |
| NumeralReading.IntTextReads | src/kstdlib/string.c:75-103 | what `itoa` prints is the number, in digits and capital letters without leading zeros, behind a sign if and only if it is negative |
| NumeralReading.LtoaReads | src/kstdlib/string.c:105-121 | the bytes up to the NUL that `ltoa` writes in bases from 5 on read back as the 64-bit number |
| NumeralReading.LtoaFits | src/kstdlib/string.c:105-121 | for one number in any base: text and NUL are complete if and only if it has at most 31 digits |
| NumeralReading.LtoaCut | src/kstdlib/string.c:105-121 | a number of 32 digits or more: the 32 bytes, without a NUL, are the first 32 of its last 60 digits, by division and remainder |
| Numerals.Atou | src/kstdlib/string.c:164-178 | the decimal value modulo 2^32 on digits, the greatest number on anything else |
| NumeralReading.AtouReads | src/kstdlib/string.c:164-178 | for any text: the decimal number modulo 2^32, or the greatest one if some character is not a digit |
| Numerals.AtouInvertsLtoa | src/kstdlib/string.c:105-178 | parsing undoes printing for every number below 2^32 |
| CmdLine.ParseUndoesPrint | src/boot/cmdline.c:23-68 | parsing the text of at most 16 pairs reproduces the table |
| CmdLineText.LineIsParsed | src/boot/cmdline.c:23-68 | every text of `key=value` items, whatever the keys and values, gives a row per item, its name the first 16 characters and its value the number or the mark, if and only if there are at most 16, keys have less than 64 and values less than 32 characters, and what is behind them fits; otherwise the parser leaves a buffer or the text |
| CmdLine.CommandLine.ParseText | src/boot/cmdline.c:23-68 | the table after parsing and the number of rows |
| CmdLine.CommandLine.ReadValue | src/boot/cmdline.c:36-63 | one row is filled and the character behind the value begins the next key |
| CmdLine.CommandLine.CopyValue | src/boot/cmdline.c:43-46 | the characters up to a space or a NUL |
| CmdLine.CompareIsEquality | src/kstdlib/string.c:146-162 | the comparison is 0 if and only if the texts are equal |
| CmdLine.CompareIsOrder | src/kstdlib/string.c:146-162 | the first difference decides, its bytes taken as signed, the NUL behind the shorter text counted |
| CmdLine.StrCmp | src/kstdlib/string.c:146-162 | the order of the two texts |
| CmdLine.LookupFindsPair | src/boot/cmdline.c:70-91 | looking a key up in the parsed table finds the first pair printed with it, or none |
| CmdLine.FindRowIsFirst | src/boot/cmdline.c:70-79 | for any table: the first row with the name, or none if no row has it |
| CmdLine.CommandLine.GetArgIdx | src/boot/cmdline.c:70-79 | the first row with the name; the first-character shortcut never changes the answer |
| CmdLine.CommandLine.HasArg | src/boot/cmdline.c:81-84 | whether a row has the name |
| CmdLine.CommandLine.GetArg | src/boot/cmdline.c:86-91 | the value of the first row with the name |
| CmdLine.CommandLine.IsTrue | src/boot/cmdline.c:93-97 | whether that value is neither 0 nor the mark for none |
| Printf.Sprint | src/kstdlib/print.c:19-48 | appends what fits and returns the number of characters added |
| Printf.IntDigits | src/kstdlib/print.c:64-117 | the text of an `int` argument |
| Printf.LongDigits | src/kstdlib/print.c:63-206 | the text of a 64-bit argument |
| Printf.EmitHex | src/kstdlib/print.c:120-127 | prefix and digits of a hexadecimal `int` |
| Printf.EmitDirective | src/kstdlib/print.c:109-218 | the argument's text is appended and the format advances past the directive |
| Printf.DirectiveBranch | src/kstdlib/print.c:87-227 | literal text is flushed, then the directive's argument |
| Printf.Vprintf | src/kstdlib/print.c:66-239 | the buffer holds the rendered text cut to its length, and the result counts the characters added |
| Printf.Snprintf | src/kstdlib/print.c:242-252 | the same from a cleared buffer, and where the NUL goes when the text fills it |
| PrintfStandard.ShowIsStandard | src/kstdlib/print.c:109-218 | the text and the length of a bare directive are the ones ISO C11 asks for, if and only if the argument is no negative under `u`, `ld` or `li`, no number with a digit above nine under `lX`, no NUL character, and the directive is neither `x` nor `lo` |
| PrintfStandard.TenInLowerCase | src/kstdlib/print.c:185-190 | `%lX` of ten is spelled `a`, where the standard asks for `A` |
| PrintfStandard.ShowReads | src/kstdlib/print.c:109-206 | read back: an `int` is printed as a signed number, in hexadecimal with capitals behind `0x`; a 64-bit argument as an unsigned one, in hexadecimal with small letters |
| PrintfStandard.DirectivesAre | src/kstdlib/print.c:99-218 | which specifiers are known bare, and what may follow `l` and `L` |
| PrintfStandard.RenderIsStandard | src/kstdlib/print.c:66-239 | a whole format of literal text and bare specifiers, with arguments on which they agree, is rendered as ISO C11 asks |
| RedirectionTable.JoinIs | src/kernel/apic/ioapic.c:27-32 | what reading an entry gives; the whole entry if and only if its upper half is zero |
| RedirectionTable.ReadFields | src/kernel/apic/ioapic.c:27-32 | vector, delivery and mask bit are always read correctly |
| RedirectionTable.SetMask | src/kernel/apic/ioapic.c:40 | only the mask field changes |
| RedirectionTable.ClearMask | src/kernel/apic/ioapic.c:48 | only the mask field changes |
| RedirectionTable.MappedIs | src/kernel/apic/ioapic.c:94-97 | vector and mask are set, the other fields of the lower half kept |
| IrqRouting.MaxRedirIs | src/kernel/apic/ioapic.c:117 | `max_redir` is one more than bits 16 to 23 of the version register, the number of the last entry |
| IrqRouting.MaskEntryIs | src/kernel/apic/ioapic.c:34-51 | masking or unmasking changes the mask bit of one existing entry, in its lower register no other field but reserved bits, and no other entry |
| IrqRouting.MapEntryIs | src/kernel/apic/ioapic.c:91-102 | mapping gives one entry its vector, masked, keeps how it is delivered, and changes no other |
| IrqRouting.MapEntryKeeps | src/kernel/apic/ioapic.c:91-102 | mapping clears the upper register of the entry, so that it delivers to processor 0, and changes no register but its two |
| IrqRouting.MaskEntryKeeps | src/kernel/apic/ioapic.c:34-51 | masking and unmasking change no register but the lower one of the entry |
| IrqRouting.InitialIs | src/kernel/apic/ioapic.c:105-136 | after set-up every entry is masked, delivered as before, and carries the vector of the line assigned to it |
| IrqRouting.InitialDelivers | src/kernel/apic/ioapic.c:105-136 | after set-up the entries below 16 and those an override names deliver to processor 0; all other upper registers, and all registers below 16, are as they were |
| IrqRouting.StepIs | src/kernel/apic/ioapic.c:64-89 | one call changes the mask bit of the line's target alone |
| IrqRouting.RunIsExact | src/kernel/apic/ioapic.c:64-136 | after set-up and any run of masking and unmasking, the entries not masked are exactly those the run enabled, with their vectors |
| IrqRouting.RunDelivers | src/kernel/apic/ioapic.c:64-136 | no run of masking and unmasking changes where an entry delivers to |
| IrqRouting.EnabledIs | src/kernel/apic/ioapic.c:64-89 | an entry is enabled by a run if and only if the last call that names it unmasks |
| IrqRouting.UnmaskRoutes | src/kernel/apic/ioapic.c:77-89 | unmasking a line enables exactly one entry, with the line's own vector if and only if the entry is assigned to it |
| IrqRouting.WellFormedRoutes | src/kernel/apic/ioapic.c:124-135 | with distinct overrides that take no un-overridden line's number, lines 1 to 15 are all routed right |
| IrqRouting.PlainLineRoutes | src/kernel/apic/ioapic.c:124-135 | a line without an override is routed right if and only if no override takes its number |
| IrqRouting.TimerOverride | src/kernel/apic/ioapic.c:64-89 | with line 0 overridden to interrupt 2, unmasking line 2 delivers line 0's vector, and unmasking line 0 leaves that entry masked |
| IrqRouting.MaskAllIs | src/kernel/apic/ioapic.c:53-56 | after set-up and any run, `ioapic_mask_all` leaves an entry masked if and only if it was masked or is the entry of a line from 32 to 47 |
| IrqRouting.MaskAllMasksNothing | src/kernel/apic/ioapic.c:53-56 | on a device with at most 31 entries `ioapic_mask_all` leaves every register as it was |
| IrqRouting.OneEntryTooMany | src/kernel/apic/ioapic.c:117-121 | the bound admits one entry more than the device has, and set-up writes that entry |
| IoApic.IoApic.Read | src/kernel/apic/ioapic.c:17-20 | select, then read the window: the register |
| IoApic.IoApic.Write | src/kernel/apic/ioapic.c:22-25 | select, then write the window: that register alone |
| IoApic.IoApic.ReadRedtblEntry | src/kernel/apic/ioapic.c:27-32 | the entry from its two registers |
| IoApic.IoApic.MaskGsi | src/kernel/apic/ioapic.c:34-42 | the registers after the call and its result |
| IoApic.IoApic.UnmaskGsi | src/kernel/apic/ioapic.c:43-51 | the registers after the call and its result |
| IoApic.IoApic.MaskAll | src/kernel/apic/ioapic.c:53-56 | the calls it makes |
| IoApic.IoApic.FindTarget | src/kernel/apic/ioapic.c:65-75 | the entry of the first override of the line, else the line itself |
| IoApic.IoApic.MaskIrq | src/kernel/apic/ioapic.c:64-76 | one masking step |
| IoApic.IoApic.UnmaskIrq | src/kernel/apic/ioapic.c:77-89 | one unmasking step |
| IoApic.IoApic.MapRedtblEntry | src/kernel/apic/ioapic.c:91-102 | both registers of the entry written |
| IoApic.IoApic.MaskEntries | src/kernel/apic/ioapic.c:121-122 | the masking loop, in place |
| IoApic.IoApic.MapOverridden | src/kernel/apic/ioapic.c:124-129 | the overrides mapped in order and their low numbers claimed |
| IoApic.IoApic.MapRemaining | src/kernel/apic/ioapic.c:131-135 | the unclaimed lines mapped one to one |
| IoApic.IoApic.Init | src/kernel/apic/ioapic.c:105-136 | the registers after set-up |
| Madt.WalkEnds | src/kernel/acpi/acpi.c:60-87 | the loop ends if and only if it reaches no record of length zero |
| Madt.WalkUndoesLayout | src/kernel/acpi/acpi.c:60-87 | walking a table made of records visits each of them once, in order, where it lies |
| Madt.TablesAreExact | src/kernel/acpi/acpi.c:62-85 | the seven tables are the in-order lists of the records of types 0, 1, 2, 3, 4, 5 and 9 |
| Madt.OthersInNone | src/kernel/acpi/acpi.c:62-85 | a record of any other type is in no table |
| Madt.Acpi.Push | src/kernel/acpi/acpi.c:64-85 | one pointer appended to one table |
| Madt.Acpi.InitMadt | src/kernel/acpi/acpi.c:60-87 | the seven tables after the walk |

## Left out

- PhysMem.Pmm.GetPhys: the quotient `end / mm_end` that `get_phys` computes and does not use, and that has no value when nothing is managed, is not modelled.
- PhysMem.Pmm.Init: memory maps whose processed regions end above the 64 GiB the bitmap covers are excluded; the source writes past `pmm[]` for them.
- PhysMem.Pmm.PhysFree: spans that end above the frames the bitmap covers are excluded, for the same reason.
- FrameLedger.RunKeepsInv: frees that do not match an outstanding allocation are not part of the runs.
- PageRuns.RunTranslates: memory is the 4 KiB tables of the first gigabyte, which the kernel reaches through its direct map; a table anywhere else ends the run in `Halt`, and so does an access while its window page is not mapped to itself. Access rights of window pages and stale translations (`src/kernel/mem/virtmem.c:130-131` flushes after every call) are not modelled. Runs in which another caller's free clears a frame of tables are excluded here and in `PageBudget`; `PageRuns.ReleaseOk` says which frees do. Other callers' accesses to the memory they are granted are not modelled.
- MapSafety.FreedIsSafe: memory maps with a region that reaches into the last 2 MiB below 2^64, where rounding up wraps, are excluded.
- MemoryMap.FreeFramesAreAvailable: says nothing about reserved regions; `MapSafety.FreedIsSafe` does.
- FrameGaps.GapFreeIsSound: a sufficient condition; the exact one for all requests is in `FrameGaps.CrossingsAreExact`, for a single request in `FrameSearch.SearchIsFirstFit`.
- PageRuns.Boot: the identity mapping that `src/boot/multiboot.asm:201-202` removes is taken as removed, and the frames of the boot tables as marked used.
- VirtMem.Vmm.TakeTable: a block whose `idx` would pass 512 ends in `Halt`.
- HeapRuns.RunsKeepInv: clients write inside their allocations only, and free only what they hold; runs of the heap and runs of the frame allocator are not interleaved, so what a grant of a frame under the heap overwrites is not followed. After a client's write that leaves no layout nothing is claimed.
- KHeap.KernelHeap.constructor: the index lies in the heap's first page in the source; here it is storage of its own, above which all blocks begin. `kmalloc_bootstrap` serves only this.
- HeapBlocks.Free: an address whose header or footer would lie outside the heap ends in `Halt`.
- Numerals.Ltoa: bases above 16, for which there is no digit, and below 2, are excluded.
- CmdLine.CommandLine.GetArgIdx: tables with a key of 16 characters or more are excluded; its field has no NUL and the source's comparison reads on into the next row.
- CmdLine.CommandLine.HasArg: the same tables are excluded.
- CmdLine.CommandLine.GetArg: the same tables are excluded.
- CmdLine.CommandLine.IsTrue: the same tables are excluded.
- CmdLine.CommandLine.ParseText: texts on which the source leaves its buffers (keys of 64 characters, values of 32, more than 16 rows, a value without an end) are excluded.
- Printf.Vprintf: the directives `b`, `B`, `C` and `f`, widths, precisions and `%%` are excluded, as are formats of 2048 characters or more, which leave the source's buffer. The sink is `__sprint`; the console sinks are not modelled. `vsnprintf` has the same body as `snprintf`.
- IrqRouting.RunIsExact: overrides name entries of the device, which has at most 119 entries, so that all register numbers are distinct 8-bit numbers. Read-only bits of the device, `gsi_base` and the mapping of its registers are not modelled; registers that it does not have are plain storage.
- IoApic.IoApic.Init: a version register that makes `max_redir` 255 is excluded; the 8-bit counter of the masking loop never passes that bound.
- Madt.Acpi.InitMadt: tables with more than 32 records of one type are excluded, for which the source writes past the table, and so are tables with a record of length zero. The search for the table by signature and checksum, and the fields of the records, are not modelled; `IoApic` takes the overrides as values.
- Serial port, 8259, HPET, local APIC, GDT, IDT, interrupt stubs and framebuffer: device plumbing and straight-line field packing with no state to keep.
- `expand_heap`: a stub that returns 0; a full heap is the panic.
