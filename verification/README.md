# Verified model of a small x86-64 operating system

This project models the memory management, the multi-core protocols, the text console and the virtual
machine control of a small operating system with its bootloaders, and proves what they promise. Check it
with `dafny verify dfyconfig.toml`.

## What is modelled

* **Physical memory.** `RangeSet.dfy` is the byte-interval set behind every allocator, in place, with its
  restart loops and its best-fit search. `PhysicalMemory.dfy` is RAM as 8-byte words with such a set as its
  free memory. `MemoryMaps.dfy` is how the two bootloaders fill it and how the kernel takes boot memory back.
* **Page tables.** `PageTable.dfy` is the code: a radix tree in words of the same memory that holds data
  pages. `PageTree.dfy` says when words form a tree, `PageMap.dfy` what the tree means (an abstract map of
  4 KB, 2 MB and 1 GB pages, the processor's own walk, and the bytes the tree owns). `PageSnapshot.dfy`,
  `PageRegion.dfy` and `PageTeardown.dfy` describe the steps of mapping and tearing down on values, and
  `PageRuns.dfy` puts calls together: what a region reads as, and where every byte is over any run.
  `PageLifetime.dfy` runs any sequence of calls between `new` and `destroy`.
* **Address spaces.** `ElfFile.dfy`, `KernelAddressSpace.dfy`, `LinearMap.dfy` and `KernelStacks.dfy` are
  the kernel's address space, from the program headers of its file to the loss of execution rights on the
  linear map. `GuestMemory.dfy`, `GuestPageTable.dfy` and `VirtualKernel.dfy` run the page-table code a second
  time, on guest-physical memory behind nested tables, and handle page faults while the guest runs.
  `GuestSpace.dfy` is the address space as the guest sees it.
* **The kernel heap.** `FreeList.dfy` and `KernelHeap.dfy` are the intrusive free lists, whose book-keeping
  lives in the free blocks. `GlobalAllocator.dfy` is the allocator over the lists of all cores, and
  `HeapOrder.dfy` says when the order of their calls matters.
  All of it runs on virtual memory behind the page table of the kernel (`HeapBacking.dfy`).
* **Protocols.** `SpinLock.dfy` and `BootProtocol.dfy` are step relations over any number of cores: the
  spin lock with owner tracking and interrupt accounting, and the way cores come up and change the boot
  block. Every interleaving of steps is a run. `LockRounds.dfy` says which steps are
  possible and which rounds lead back, `BootCompletion.dfy` that the boot process always can get done.
* **Caches.** `Screen.dfy` and `TextConsole.dfy` are the console whose updates skip what did not change.
  `VirtualMachine.dfy`, `GuestEvents.dfy` and `AddressSpaceIds.dfy` are the clean bits and TLB flushes of the
  control block, event injection, and address space identifiers. `NestedVm.dfy` joins them to the nested tables:
  what the processor holds for a guest is what these tables say.

## How to read the contracts

* `Attempt` is the outcome of a call: `Done`, `Refused` for the source's `None`, and `Panicked`. A kernel
  that panics does not return; its contracts say why it panicked, and nothing about what it leaves behind.
  Running out of the 256 slots of a range set shows as `used == CAPACITY`.
* Integers are unbounded. Where the source wraps around, as release builds do, the model says `% TWO_64` or `WrappingAdd`.
* Bytes that no owner can give back are counted in the ghost set `lost`. `Valid` of a page table says that
  every byte is free, owned by one position of the tree, or lost.
* A `Snapshot` is the state of memory and one page table at one moment. The methods are proved against
  relations between snapshots, and the lemmas about runs are about those relations.

## Where the code differs from what it says

* `is_canonical` speaks of canonical addresses but sign-extends from bit 51. It accepts addresses whose
  positions in the tree repeat every 2^48 bytes (`PageMaps.CanonicalMeaning`, `PageMaps.PositionsRepeat`).
  Statements about pages therefore compare the low 48 bits; for addresses that are canonical for the
  processor this is the page itself (`PageMaps.HardwareCanonicalPages`).
* `allocate_limited` gives up the whole search when the end computation of a single entry overflows. Its
  contract states exactly when it returns nothing.
* `map_raw` with `update` over a table or over an owned page loses what was below, and a failing `map_init`
  keeps its earlier pages and loses the last one, if it got memory for it. `PageRuns.CallLosesExactly` states
  both exactly, and conservation is stated with the lost bytes and without them.
* `map_raw` reports a single address to `invalidate_tlb`. That is not enough when a large page replaces a table
  with other pages, nor when the address is one that only the code accepts (`PageSnapshots.OneFlushSuffices`,
  `PageSnapshots.OverwrittenTableLeavesStaleEntry`, `PageSnapshots.RepeatedPositionLeavesStaleEntry`).
* `try_lock_unsafe` does not keep interrupts away from the two moments at which a lock is taken and
  `lock_core` is not set. An interrupt there can make a core wait for itself, exactly when the lock is
  non-preemptible and interrupts are on (`SpinLocks.CarefulRunsNeverWait`, `SpinLocks.CarelessCallMayWait`).
  Its only caller (kernel/src/panic.rs:35-49) runs with interrupts off.
* `reserve_virt_addr` reserves nothing for a region of 2^64 - 4096 bytes, because the size with its gap wraps to
  0 (`KernelHeaps.HeapMemory.ReserveVirtAddr`). The sizes of free lists are far from that.
* The loader accepts segments at addresses that the processor rejects, and it rounds a segment's size up modulo
  2^64, so that a segment of nearly 2^64 bytes can be accepted with a single page mapped.
  `KernelAddressSpaces.LoadSegment` states that a segment reads as it should exactly when the processor accepts its
  addresses, and `KernelAddressSpaces.WrappedSizeIsOnePage` when the size wraps around.
* `Font::draw` skips blank rows, so drawing over a visible character may leave parts of it.
  `Screens.DrawnIsPainted` states exactly when it does; it cannot happen without carriage returns.
* The permission bitmap of the virtual kernel has two bits for every page, but `get_vkernel_image` fills
  every byte, which is four pages, with one pair of set bits. Only every fourth page gets permissions
  (`VirtualKernels.ImageFaults`).

## Model

| member | source | states |
|---|---|---|
| `RangeSets.TouchesMeaning` | libs/rangeset/src/lib.rs:59-64 | the widened overlap test of `insert` holds exactly when no byte lies strictly between two ranges, also at 0 and 2^64-1 |
| `RangeSets.Padding` | libs/rangeset/src/lib.rs:176-182 | the padding is below the alignment and leads to a multiple of it |
| `RangeSets.RangeSet.AddEntry` | libs/rangeset/src/lib.rs:248-255 | appends an entry unless all 256 slots are taken, in which case nothing changes |
| `RangeSets.RangeSet.DeleteEntry` | libs/rangeset/src/lib.rs:258-268 | the swap loop removes exactly the entry asked for and keeps the order of the others |
| `RangeSets.RangeSet.Insert` | libs/rangeset/src/lib.rs:52-81 | set union over bytes; entries stay shaped, disjoint and non-touching; the restart loop ends; it panics exactly when the set is full and nothing can be merged |
| `RangeSets.RangeSet.Remove` | libs/rangeset/src/lib.rs:85-135 | set difference over bytes with the same invariant; the restart loop ends; it panics exactly when the set is full and one entry sticks out on both sides |
| `RangeSets.MergeStep` | libs/rangeset/src/lib.rs:59-74 | merging an entry into the range keeps the invariant and the bytes of list plus range |
| `RangeSets.DeleteStep` | libs/rangeset/src/lib.rs:97-103 | dropping a covered entry is a step towards the set difference |
| `RangeSets.CutStep` | libs/rangeset/src/lib.rs:105-114 | cutting an entry back is a step towards the set difference and lowers the number of overlapping entries |
| `RangeSets.SplitStep` | libs/rangeset/src/lib.rs:115-129 | splitting an entry is a step towards the set difference and lowers the number of overlapping entries |
| `RangeSets.RangeSet.FindBest` | libs/rangeset/src/lib.rs:171-220 | the search returns the candidate with the least (padding, region size), and none exactly when nothing fits or some end computation overflows |
| `RangeSets.RangeSet.AllocateLimited` | libs/rangeset/src/lib.rs:141-245 | exact outcome: `None` if and only if the request is senseless, some end computation overflows or nothing fits; otherwise the block is cut from the best entry and everything else stays |
| `RangeSets.BestStep` | libs/rangeset/src/lib.rs:197-219 | comparing a candidate with the next entry keeps the best one so far |
| `RangeSets.BestIsUnique` | libs/rangeset/src/lib.rs:197-219 | best fit has one answer: the first of the entries with least padding and size |
| `RangeSets.OnlyItsOwnEntrySplits` | libs/rangeset/src/lib.rs:226-240 | a block inside one entry can split no other entry |
| `RangeSets.AllocationResult` | libs/rangeset/src/lib.rs:222-244 | the block is aligned, inside its entry and below the limit; what leaves the set is the block and fewer than 512 bytes of padding |
| `RangeSets.PagedEntriesStartOnPages` | libs/rangeset/src/lib.rs:141-245 | in a set of whole pages every entry starts on a page boundary |
| `RangeSets.PagedWastesNothing` | libs/rangeset/src/lib.rs:226-238 | page-aligned requests lose no padding in a set of whole pages |
| `RangeSets.SearchMeaning` | libs/rangeset/src/lib.rs:171-220 | the search depends on the bytes in the set only: an entry fits if and only if the set has an aligned block below the limit, and an end computation overflows if and only if a run of bytes starts too close to 2^64 |
| `RangeSets.BeatsMeaning` | libs/rangeset/src/lib.rs:180-205 | an entry is better when it wastes fewer bytes in front, or as many and is smaller; the size of all 2^64 bytes counts as 0 |
| `PhysicalMemories.SensibleMeaning` | libs/rangeset/src/lib.rs:145-154 | the requests that are looked at: some bytes, aligned to a power of two |
| `PhysicalMemories.StarvedMeaning` | libs/rangeset/src/lib.rs:165-210 | for memory far from the end of the address space, a page cannot be had exactly when every aligned free block of its size lies behind the limit |
| `PhysicalMemories.PhysicalMemory.Translate` | kernel/src/mm.rs:53-64 | an address range is reachable exactly when it is not empty and ends inside the region |
| `PhysicalMemories.TakenIsAllocated` | kernel/src/mm.rs:42-51 | what the allocator cuts out is an aligned block and its padding, and nothing is lost from whole pages |
| `PhysicalMemories.PhysicalMemory.AllocPage` | kernel/src/mm.rs:42-51 | a page from free memory with every byte accounted for; refused if and only if free memory has no aligned block for it (or the search overflows), and it panics only with a full set |
| `PhysicalMemories.PhysicalMemory.AllocPageZeroed` | libs/page_table/src/lib.rs:57-68 | the page handed out is zeroed and no other word of memory changes |
| `PhysicalMemories.PhysicalMemory.FreePhys` | kernel/src/mm.rs:29-39 | the bytes become free again |
| `PhysicalMemories.SetByte` | libs/page_table/src/lib.rs:185-190 | a byte store changes one byte of its word |
| `PageTrees.TableEntryBits` | libs/page_table/src/lib.rs:303-304 | an entry for a table names the table and grants everything |
| `PageTrees.FinalEntryBits` | libs/page_table/src/lib.rs:234-241 | setting the deallocate and size flags changes neither the address nor the rights of an entry |
| `PageTrees.SlotsAreDistinct` | libs/page_table/src/lib.rs:282-287 | different entries of the tree are different words of memory |
| `PageTrees.TreeIgnoresOtherWords` | libs/page_table/src/lib.rs:282-287 | only words of its tables matter to a tree |
| `PageTrees.AncestorsAreTables` | libs/page_table/src/lib.rs:282-308 | no position is a table and a page at once, and everything above a position is a table |
| `PageTrees.LinkTable` | libs/page_table/src/lib.rs:289-308 | linking a zeroed frame adds an empty table and no page |
| `PageTrees.SetLeaf` | libs/page_table/src/lib.rs:309-329 | writing a last-level entry keeps the tree and sets exactly one leaf |
| `PageMaps.CanonicalMeaning` | libs/page_table/src/lib.rs:35-45 | the check accepts exactly the addresses whose bits 51 to 63 agree |
| `PageMaps.HardwareCanonicalPages` | libs/page_table/src/lib.rs:35-45 | among the addresses that the processor accepts every page of every size has its own position in the tree |
| `PageMaps.PositionsRepeat` | libs/page_table/src/lib.rs:35-45 | positions repeat every 2^48 bytes, although the check accepts addresses up to 2^51 |
| `PageMaps.SamePositionSamePage` | libs/page_table/src/lib.rs:255-280 | two addresses reach the same entry exactly when their low 48 bits lie in the same page |
| `PageMaps.OneEntryPerTable` | libs/page_table/src/lib.rs:299-304 | every table frame has exactly one entry that points to it |
| `PageMaps.AddressOfPosition` | libs/page_table/src/lib.rs:255-280 | every position in the tree has an address, below 2^48 |
| `PageMaps.LookupFinds` | libs/page_table/src/lib.rs:339-391 | a page on the way of an address is the page that the address maps to |
| `PageMaps.LookupFails` | libs/page_table/src/lib.rs:355-368 | a walk that ends at an empty entry means there is no page |
| `PageMaps.MapsExactlyOnePage` | libs/page_table/src/lib.rs:309-329 | replacing a leaf changes the map of every address exactly on that page |
| `PageMaps.HardwareAgrees` | libs/page_table/src/lib.rs:303-304 | for the addresses that it accepts, a walk of the processor that combines the rights of all levels finds the abstract page with exactly the rights of its leaf |
| `PageMaps.OwnedAfterLink` | libs/page_table/src/lib.rs:299-304 | a linked table brings its frame under ownership and no byte gets two owners |
| `PageMaps.OwnedAfterLeaf` | libs/page_table/src/lib.rs:309-329 | a new leaf takes over ownership of exactly its own page and gives up what was below it |
| `PageSnapshots.WalkEntry` | libs/page_table/src/lib.rs:284-287 | every step of a walk reads a word inside a table of the tree |
| `PageSnapshots.GrownCompose` | libs/page_table/src/lib.rs:282-308 | adding missing tables one after another still only adds tables on the way |
| `PageSnapshots.LastEntryWritten` | libs/page_table/src/lib.rs:309-329 | the last turn maps the page, keeps all other positions and accounts for every byte |
| `PageSnapshots.MapRawChangesExactlyOnePage` | libs/page_table/src/lib.rs:206-336 | a successful `map_raw` changes the abstract map at exactly its own page |
| `PageSnapshots.MapAllowedMeaning` | libs/page_table/src/lib.rs:230-335 | which calls the tree grants: an accepted, aligned address, no larger page in the way, the last table there or to be added, the position free or to be overwritten |
| `PageSnapshots.OneFlushSuffices` | libs/page_table/src/lib.rs:309-325 | the one address that is reported to `invalidate_tlb` makes the processor forget every stale translation if and only if the overwritten position holds no page besides the one of that address, and the processor accepts the address or that page stays the same; so always for canonical addresses when no table is overwritten |
| `PageSnapshots.OverwrittenTableLeavesStaleEntry` | libs/page_table/src/lib.rs:309-325 | an example of the other case: a 2 MB page over a table that maps page 1 reports address 0 and leaves a stale translation of 0x1000 |
| `PageSnapshots.RepeatedPositionLeavesStaleEntry` | libs/page_table/src/lib.rs:309-325 | an example with an address that only the code accepts: replacing the page at 2^48 reports 2^48 and leaves a stale translation of 0 |
| `PageSnapshots.ChangedTranslationsAreReported` | kernel/src/vm/svm/npt.rs:26-28 | whenever an existing translation changes something is reported, so that the flag of the nested tables is set and everything is flushed |
| `PageSnapshots.OverwritingLosesExactly` | libs/page_table/src/lib.rs:312-325 | overwriting loses memory exactly when a table or an owned page stood there |
| `PageRegions.PageRawBits` | libs/page_table/src/lib.rs:172-177 | the entry that `map_init` builds has exactly the requested rights and the address of the page |
| `PageRegions.KeptCompose` | libs/page_table/src/lib.rs:165-199 | what one page keeps, a whole region keeps |
| `PageRegions.MappedPageIsGot` | libs/page_table/src/lib.rs:166-198 | taking, filling and mapping a page gives the tree exactly one owned page |
| `PageRegions.UnmappedPageIsLost` | libs/page_table/src/lib.rs:193-198 | a page that was allocated and could not be mapped is lost, for one of two reasons: its position cannot be used, or there is no memory for a table |
| `PageRegions.OwnedPageKeepsContents` | libs/page_table/src/lib.rs:140-202 | mapping more pages does not touch the contents of an owned page |
| `PageRegions.GotPagesStep` | libs/page_table/src/lib.rs:165-199 | the pages of a region have distinct positions and were free before |
| `PageRegions.RegionStaysReady` | libs/page_table/src/lib.rs:165-199 | earlier pages of a region keep their contents while later ones are mapped |
| `PageRegions.FailedRegionIsKept` | libs/page_table/src/lib.rs:140-202 | a failing `map_init` keeps exactly the pages that it mapped, and every byte is accounted for |
| `PageRegions.BadRegionMeaning` | libs/page_table/src/lib.rs:154-168 | a region is refused as a whole exactly when it is empty, its size or address is not a multiple of the page size, or it does not end in the address space |
| `PageRegions.GoodRegionStops` | libs/page_table/src/lib.rs:154-199 | any other region can only fail at one of its pages: one that is starved, or whose position cannot be used |
| `PageRegions.StoreKeepsTree` | libs/page_table/src/lib.rs:185-190 | a store to an owned page changes no table |
| `PageTables.PageTable.New` | libs/page_table/src/lib.rs:97-106 | an empty tree in one zeroed frame, taken from free memory; refused if and only if there is no frame |
| `PageTables.PageTable.AddTable` | libs/page_table/src/lib.rs:289-308 | a missing table is allocated, zeroed and linked; refused if and only if there is no frame, and it panics only with a full set |
| `PageTables.PageTable.LastTable` | libs/page_table/src/lib.rs:282-333 | the loop finds or builds the tables on the way of the address and nothing else |
| `PageTables.PageTable.MapRawInternal` | libs/page_table/src/lib.rs:221-336 | exact outcome: the page is mapped and an overwritten one reported, or the call is not allowed or memory has run out and the abstract map stays as it was |
| `PageTables.PageTable.MapRaw` | libs/page_table/src/lib.rs:206-216 | the same for pages that the tree does not own |
| `PageTables.PageTable.FillPage` | libs/page_table/src/lib.rs:185-190 | the page holds the bytes of the initializer and nothing else changes |
| `PageTables.PageTable.MapPage` | libs/page_table/src/lib.rs:166-198 | one page of a region: mapped with its contents and rights; or not served, and nothing changes; or lost, because its position cannot be used or not be reached |
| `PageTables.PageTable.MapInit` | libs/page_table/src/lib.rs:140-202 | a region of fresh pages with the contents of the initializer; or a failure with its reason: an empty size, a size or address that is no multiple of the page size, an end behind 2^64, or else the first page that could not be served or mapped; or a full set |
| `PageTables.PageTable.Map` | libs/page_table/src/lib.rs:123-135 | the same, zeroed |
| `PageTables.PageTable.Destroy` | libs/page_table/src/lib.rs:394-396 | every table frame and every owned page becomes free, exactly once; only tables are written; it cannot panic while the set has as many free slots as the tree has tables and pages |
| `PageTables.PageTable.DestroyLevel` | libs/page_table/src/lib.rs:399-439 | the same for a subtree; it never returns the error for invalid entries |
| `PageTables.PageTable.VirtToPhys` | libs/page_table/src/lib.rs:339-391 | the walk returns what the abstract map says |
| `PageTeardowns.OwnedPartsAreDisjoint` | libs/page_table/src/lib.rs:403-434 | what different entries of a table own is disjoint |
| `PageTeardowns.DestroyingStep` | libs/page_table/src/lib.rs:403-434 | one turn of the loop frees what its entry owns and leaves the rest to be freed |
| `PageTeardowns.DestroyingEnds` | libs/page_table/src/lib.rs:399-439 | after 512 turns everything below the table is free and the table itself is not |
| `PageTeardowns.PositionsUpToStep` | libs/page_table/src/lib.rs:403-434 | the positions below different entries are different ones, which bounds what a teardown frees |
| `PageRuns.RegionIsFound` | libs/page_table/src/lib.rs:140-202 | every address of a mapped region translates to its own page |
| `PageRuns.RegionReadsAs` | libs/page_table/src/lib.rs:140-202 | after a successful `map_init` every byte of the region reads, through the tables, as the initializer said, with exactly the requested rights at the addresses that the processor accepts |
| `PageRuns.RegionChangesNothingElse` | libs/page_table/src/lib.rs:140-202 | addresses outside the region translate as before |
| `PageRuns.CallLosesExactly` | libs/page_table/src/lib.rs:123-336 | whether a call loses memory, if and only if: `map_raw` over a table or an owned page, and `map_init` when it got memory for a page that it could not map; and what is lost |
| `PageRuns.RunKeepsAccount` | libs/page_table/src/lib.rs:97-396 | over any run of calls each byte stays free, owned or lost; none is lost if and only if no call loses any |
| `PageRuns.LifetimeConserves` | libs/page_table/src/lib.rs:97-439 | from the states of such a run to the end: the free set comes back without the lost bytes, and entirely if and only if no call lost any |
| `PageLifetimes.Perform` | libs/page_table/src/lib.rs:123-336 | any public call is the step of a run that answers it: the same arguments, done or refused as the result says, with the contents and rights asked for; and it takes no more slots and positions than its pages and their tables |
| `PageLifetimes.PerformAll` | libs/page_table/src/lib.rs:123-336 | any sequence of calls is a run from the given state, call by call, to the final state of memory |
| `PageLifetimes.Live` | libs/page_table/src/lib.rs:97-439 | `new`, any calls in any order, then `destroy`, executed: the calls made are a run from an empty tree in the given memory to its end; what is free afterwards is what was free before without the lost bytes; all of it if and only if no call lost any; without `update` and failures always; it cannot panic while the set has slots for the pages asked for and their tables |
| `KernelAddressSpaces.LoadedStays` | uefi_bootloader/src/kernel.rs:145-191 | loading a segment leaves the segments loaded before readable as they were |
| `KernelAddressSpaces.RegionIsLoaded` | uefi_bootloader/src/kernel.rs:145-191 | a mapped region with the contents of the loader is the loaded segment |
| `KernelAddressSpaces.LoadSegment` | uefi_bootloader/src/kernel.rs:145-191 | after a load the segment reads as its file bytes followed by zeros, with its own rights, if and only if the processor accepts its addresses; it panics only because `map_init` fails, with its reason, or because the set is full |
| `KernelAddressSpaces.LoadedIsReachable` | uefi_bootloader/src/kernel.rs:145-191 | a segment that is loaded lies in one half of the addresses that the processor accepts |
| `KernelAddressSpaces.ContentsMeaning` | uefi_bootloader/src/kernel.rs:160-185 | the initializer gives zeros, then the bytes of the file, then zeros |
| `KernelAddressSpaces.SizedMeaning` | uefi_bootloader/src/kernel.rs:150-166 | the rounded size is the size in whole pages exactly when the rounding does not wrap around |
| `KernelAddressSpaces.ReachableIsSized` | uefi_bootloader/src/kernel.rs:160-166 | the rounded size of such a segment does not wrap around |
| `KernelAddressSpaces.WrappedSizeIsOnePage` | uefi_bootloader/src/kernel.rs:160-166 | a segment whose rounded size wraps around is refused or gets a single page |
| `KernelAddressSpaces.LoadSegments` | uefi_bootloader/src/kernel.rs:145-191 | in the end that holds for all of them; a panic names the segment that was refused, in a sound state where those before it are loaded |
| `ElfFiles.ByteSlice` | libs/elfparse/src/lib.rs:26-31 | a slice exists exactly when its end neither overflows nor lies behind the last byte |
| `ElfFiles.BytesRoundTrip` | libs/elfparse/src/lib.rs:6-13 | a number written in either byte order is read back |
| `ElfFiles.HeaderIsReadBack` | libs/elfparse/src/lib.rs:344-412 | a program header laid out as the ELF specification says, in either width and byte order, is read back, with exactly its bytes of the file; it is refused only when they lie outside |
| `ElfFiles.ShortEntriesAreRefused` | libs/elfparse/src/lib.rs:344-392 | a table whose entries are shorter than a program header has no segments |
| `ElfFiles.SegmentIsRead` | libs/elfparse/src/lib.rs:208-216 | in a file that holds headers at the places that table offset, index and entry size give, segment i is the one that header i describes, and it is refused exactly when its bytes do not lie in the file |
| `ElfFiles.SegmentsAreRead` | libs/elfparse/src/lib.rs:525-531 | the same for all segments |
| `ElfFiles.SegmentsAreIndexed` | libs/elfparse/src/lib.rs:525-531 | the loop visits the segments in the order of their indices |
| `ElfFiles.BaseAddress` | libs/elfparse/src/lib.rs:324-339 | the base is the lowest address that a header of a loadable segment in the file names; there is none exactly when the bytes of some segment do not lie in the file or none is loadable |
| `ElfFiles.LoadElf` | uefi_bootloader/src/kernel.rs:145-191 | for every file that holds program headers: each loadable segment reads as its bytes of the file followed by zeros, with the rights of its header, if and only if the processor accepts its addresses; a panic names the header at which mapping failed |
| `LinearMaps.MapLinear` | uefi_bootloader/src/kernel.rs:194-223 | the linear window maps all of its physical memory, writable and executable; a panic leaves the start with exactly the first j linear pages, of which page j cannot be mapped or has no memory for a table |
| `LinearMaps.CreateKernelPageTable` | uefi_bootloader/src/kernel.rs:139-229 | the tables of the kernel hold every loaded segment and the whole linear window; a panic comes with the states that it went through, from the empty tree to the memory at the end, and with the segment or linear page that stopped it |
| `LinearMaps.RemapIsHarmless` | kernel/src/mm.rs:388-404 | remapping a linear page without execution changes nothing but execution |
| `LinearMaps.EnableNx` | kernel/src/mm.rs:371-405 | every page of the linear window loses execution, and nothing else of the address space changes |
| `LinearMaps.TranslationSurvives` | kernel/src/mm.rs:371-405 | every address translates as before |
| `LinearMaps.LinearMapIsNotExecutable` | kernel/src/mm.rs:371-405 | every byte of the 1 TB window translates to itself and the processor's walk refuses to execute it |
| `LinearMaps.LoadedSurvives` | kernel/src/mm.rs:371-405 | loaded segments stay loaded, with their rights |
| `KernelStacks.StackAllocator.CreateKernelStack` | uefi_bootloader/src/kernel.rs:35-59 | a new zeroed stack that is writable and not executable, with all earlier stacks still usable; a panic has its reason: a page that could not be served or mapped, or a full set |
| `KernelStacks.StacksAreApart` | uefi_bootloader/src/kernel.rs:35-59 | stacks of different cores are at least the padding apart |
| `KernelStacks.StackStays` | uefi_bootloader/src/kernel.rs:35-59 | mapping more pages leaves a stack as it is |
| `FreeLists.ChainFrame` | kernel/src/mm.rs:170-186 | a list depends only on the words in its own free blocks |
| `FreeLists.SlotsFillBlock` | kernel/src/mm.rs:180-222 | a block of more than 16 bytes is a header and slots, and nothing is left over |
| `FreeLists.PushNode` | kernel/src/mm.rs:237-254 | a block that becomes a node is the new top of the stack, and only that block is written |
| `FreeLists.PushSlot` | kernel/src/mm.rs:255-263 | a block stored in a slot is the new top of the stack, and only the block of the head node is written |
| `FreeLists.PopNode` | kernel/src/mm.rs:322-331 | taking the head node takes the block pushed last |
| `FreeLists.PopSlot` | kernel/src/mm.rs:332-340 | taking a slot takes the block pushed last and writes only the block of the head node |
| `KernelHeaps.SizeClass` | kernel/src/mm.rs:223-233 | the asserts of `new` allow exactly sizes that divide a page or consist of pages |
| `KernelHeaps.HeapMemory.ReserveVirtAddr` | kernel/src/mm.rs:128-142 | the next address, followed by a gap; nobody else gets it, except when the size is 2^64 - 4096 and nothing is reserved; it panics exactly for a bad size or an overflow of the address |
| `KernelHeaps.HeapMemory.MapZeroed` | kernel/src/mm.rs:290-297 | mapping a heap region in the page table of the kernel adds zeroed words to the heap and changes no other; it fails only at one of the pages |
| `KernelHeaps.HeapMemory.Load` | kernel/src/mm.rs:318-348 | a load from the heap is the word that the tables lead to |
| `KernelHeaps.HeapMemory.Store` | kernel/src/mm.rs:236-274 | a store to the heap goes through the tables and changes that word of the heap only |
| `KernelHeaps.NextChunkIsPushable` | kernel/src/mm.rs:299-310 | the next chunk of a fresh page is mapped, aligned and apart from those pushed before |
| `KernelHeaps.FreeList.Push` | kernel/src/mm.rs:236-274 | the free blocks are a stack with the block on top; only free blocks are written |
| `KernelHeaps.FreeList.FillFromPage` | kernel/src/mm.rs:299-310 | an empty list gets exactly the blocks of one page, in order |
| `KernelHeaps.FreeList.Take` | kernel/src/mm.rs:318-348 | the block pushed last leaves the stack |
| `KernelHeaps.FreeList.Pop` | kernel/src/mm.rs:277-348 | the block freed last, or a block of a fresh region that is mapped in the page table of the kernel; it panics only when the list is empty and there are no addresses or the mapping fails, with its reason |
| `HeapBackings.StoreKeepsBacking` | kernel/src/mm.rs:236-274 | a store behind one heap address changes no other word of the heap and no table |
| `HeapBackings.BackingGrows` | kernel/src/mm.rs:286-297 | a zeroed region of the page table joins the heap |
| `HeapBackings.BackingStays` | kernel/src/mm.rs:286-297 | mapping anything else leaves the heap as it is |
| `HeapBackings.PhysicalWordsDiffer` | kernel/src/mm.rs:286-297 | different words of the heap are different words of memory |
| `GlobalAllocators.ClassFits` | kernel/src/core_locals.rs:175-193 | the index always names one of the 61 lists, and of those the one with the smallest blocks that are big enough |
| `GlobalAllocators.BlockIsAligned` | kernel/src/core_locals.rs:183-190 | every block of the list satisfies the alignment of a layout that passes the assert |
| `GlobalAllocators.AlignmentMeaning` | kernel/src/core_locals.rs:183-190 | the assert fails exactly for alignments above a page, and for those above 8 that are at least twice the size |
| `GlobalAllocators.CoverOfRegion` | kernel/src/mm.rs:299-310 | the blocks of a fresh region make up the region and do not overlap |
| `GlobalAllocators.GrantStep` | kernel/src/mm.rs:354-356 | a block moves from a list to a client that did not hold it, and no byte gets two owners |
| `GlobalAllocators.GiveBackStep` | kernel/src/mm.rs:358-360 | a block moves from a client to any list, and no byte gets two owners |
| `GlobalAllocators.CallKeepsOthers` | kernel/src/mm.rs:354-360 | a call writes nothing that another client holds or another list owns |
| `GlobalAllocators.PopOutcome` | kernel/src/mm.rs:277-348 | with or without a refill, the list owns afterwards what it owned before and the fresh region |
| `GlobalAllocators.GlobalAllocator.Alloc` | kernel/src/mm.rs:354-356 | on any core: a fresh live block, every other live block untouched, all mapped words still with exactly one owner, as one step of the heap on the list of the core; it panics for an alignment above a page, or above 8 and at least twice the size, and otherwise only when the list is empty and there are no addresses or the mapping fails |
| `GlobalAllocators.GlobalAllocator.Dealloc` | kernel/src/mm.rs:358-360 | on any core, also another one: the block joins the list of that core, as one step of the heap, under the same guarantees |
| `GlobalAllocators.GlobalAllocator.Store` | kernel/src/mm.rs:354-360 | clients may write to what they hold without disturbing lists or other clients |
| `GlobalAllocators.GlobalAllocator.LiveBlocksAreSound` | kernel/src/mm.rs:128-360 | live blocks have their size and alignment, are mapped, and overlap neither each other nor any free block |
| `HeapOrders.CallStaysIn` | kernel/src/mm.rs:233-348 | a call on a list changes only words of its own blocks, of the block it is given, or of a fresh region |
| `HeapOrders.CallMoves` | kernel/src/mm.rs:233-348 | a call does the same in every heap with the same words in that area |
| `HeapOrders.CallsCommute` | kernel/src/mm.rs:354-360 | calls on lists of different cores can be swapped, with the same results and the same heap and owners in the end, unless both need fresh memory |
| `HeapOrders.RefillsKeepTheirOrder` | kernel/src/mm.rs:354-360 | two calls that both need fresh memory cannot be swapped, because the first one gets the lower addresses |
| `SpinLocks.StepKeepsCoreOk` | kernel/src/core_locals.rs:130-148 | every step keeps flag, counters and guards of its core in balance |
| `SpinLocks.StepKeepsInv` | libs/lock/src/lib.rs:54-166 | every step of any core keeps the invariant of all cores and locks |
| `SpinLocks.RunKeepsInv` | libs/lock/src/lib.rs:54-166 | the invariant holds all along any interleaving |
| `SpinLocks.MutualExclusion` | libs/lock/src/lib.rs:84-103 | a lock has at most one guard |
| `SpinLocks.LockCoreNamesTheHolder` | libs/lock/src/lib.rs:56-67 | `lock_core` is a core exactly while that core holds the guard, so "Deadlock detected" fires for the holder and for nobody else |
| `SpinLocks.DeadlockCheck` | libs/lock/src/lib.rs:56-67 | the deadlock check panics exactly for a core that holds a guard of the lock; any other core goes on to spin |
| `SpinLocks.PanicsExactly` | libs/lock/src/lib.rs:56-103 | over any run, a core panics exactly when it would wait for itself, takes a preemptible lock in a handler, or overflows the disable counter |
| `SpinLocks.WaitingMeansWindow` | libs/lock/src/lib.rs:54-124 | no code spins on a lock whose guard its own core holds, guards of `try_lock_unsafe` included; it waits for its own core if and only if it interrupted code in one of the two windows around `lock_core` |
| `SpinLocks.CarefulRunsNeverWait` | libs/lock/src/lib.rs:109-166 | no core ever waits for itself in a run in which `try_lock_unsafe` and the drop of its guard are called with interrupts off or on preemptible locks |
| `SpinLocks.CarelessCallMayWait` | libs/lock/src/lib.rs:109-166 | after any other such call there is a continuation in which the core waits for itself |
| `SpinLocks.TryLockLetsACoreWaitForItself` | libs/lock/src/lib.rs:109-124 | a run in which an interrupt after `try_lock_unsafe` waits for its own core |
| `SpinLocks.FlagFollowsCounters` | kernel/src/core_locals.rs:152-173 | at operation boundaries the interrupt flag is on exactly when the counter is 0 and no handler runs |
| `SpinLocks.HandlersFindNothingMasked` | kernel/src/interrupts.rs:262-292 | handlers run with interrupts off on top of code that holds no non-preemptible guard, and hold no preemptible one |
| `SpinLocks.CounterNeverUnderflows` | kernel/src/core_locals.rs:57-63 | the disable counter never underflows |
| `LockRounds.OperationsGoOn` | libs/lock/src/lib.rs:56-165 | code inside an operation can always go on, unless it spins on a lock that is taken |
| `LockRounds.OperationsStart` | libs/lock/src/lib.rs:82-165 | which operations code can start: any lock, free locks to try, guards it holds to drop, interrupts while they are on, a return from a handler without guards |
| `LockRounds.SpinnersTakeFreeLocks` | libs/lock/src/lib.rs:84-103 | a core that spins on a free lock takes it and then has its guard |
| `LockRounds.LockAndDrop` | libs/lock/src/lib.rs:84-165 | from any reachable state, taking a free lock and dropping its guard leads back to the same state |
| `LockRounds.TryLockAndDrop` | libs/lock/src/lib.rs:109-165 | the same for `try_lock_unsafe`, without conditions |
| `LockRounds.InterruptAndReturn` | kernel/src/interrupts.rs:270-286 | an interrupt whose handler does nothing leads back to the same state, with interrupts off in between |
| `BootProtocols.CountChanges` | kernel/src/processors.rs:88-96 | how a step of one core changes a shared counter |
| `BootProtocols.MayUseBlockMeaning` | kernel/src/mm.rs:455-535 | when a core may take locks of the boot block: until it announces itself, the first core until it waits, and then with the new block |
| `BootProtocols.StepKeepsInv` | kernel/src/processors.rs:65-105 | every step of any core keeps the invariant |
| `BootProtocols.RunKeepsInv` | kernel/src/processors.rs:230-267 | the invariant holds all along any interleaving |
| `BootProtocols.OneCoreInTransit` | kernel/src/processors.rs:230-267 | at most one core is between being launched and going online, and the launch loop waits for it |
| `BootProtocols.IdsAgree` | kernel/src/core_locals.rs:224-253 | bootloader and kernel agree on the id of a core, and no two cores share one |
| `BootProtocols.NoFalseDeadlock` | libs/lock/src/lib.rs:66-67 | while cores come up and take locks under the ids they have at that time, a core finds its id in a lock if and only if it holds the guard, and the check panics exactly then: no false deadlock is reported, and none is missed |
| `BootProtocols.BarrierHolds` | kernel/src/processors.rs:88-96 | no core is behind the barrier before every core has registered |
| `BootProtocols.CheckInsSucceed` | kernel/src/processors.rs:69-84 | the asserts on the state of a core never fail |
| `BootProtocols.MoveIsExclusive` | kernel/src/mm.rs:479-511 | the boot block is moved when every core is ready and none of its locks is held |
| `BootProtocols.GuardsHoldUpTheMove` | kernel/src/mm.rs:475-500 | a core can take and drop locks of the block, and does not get on with the hand-off while it holds one |
| `BootProtocols.OldBlockIsAbandoned` | kernel/src/mm.rs:496-541 | from then on nobody uses the old block, all cores end on the new one, and boot memory is reclaimed only afterwards |
| `BootCompletions.SomeCoreGoesOn` | kernel/src/processors.rs:63-100 | as long as the boot process is not complete, some core can take a step that brings the end closer |
| `BootCompletions.EveryRunCanComplete` | kernel/src/mm.rs:455-535 | every run, with any number of cores, can be continued until all cores use the new boot block and boot memory is reclaimed |
| `BootCompletions.SomeRunCompletes` | kernel/src/processors.rs:90-93 | so there is a complete run for every number of cores |
| `MemoryMaps.E820Pass` | bios_bootloader/src/mm.rs:63-129 | one pass adds the free entries, or removes the others |
| `MemoryMaps.ReportedMeaning` | bios_bootloader/src/mm.rs:88-110 | which bytes an E820 list reports, and when an entry overflows |
| `MemoryMaps.InitializeFromE820` | bios_bootloader/src/mm.rs:55-133 | free is what some free entry names and no other entry does, without the first megabyte |
| `MemoryMaps.OrderDoesNotMatter` | bios_bootloader/src/mm.rs:63-129 | the order of the entries does not matter |
| `MemoryMaps.ListedMeaning` | uefi_bootloader/src/mm.rs:180-215 | which bytes a UEFI map lists as free or boot memory |
| `MemoryMaps.MemoryLists.LoadMap` | uefi_bootloader/src/mm.rs:198-228 | from a disjoint firmware map, free and boot memory are the unions of their kinds and disjoint |
| `MemoryMaps.MemoryLists.AllocateBootMemory` | uefi_bootloader/src/mm.rs:65-97 | the block moves from free memory to boot memory and the two stay disjoint; refused if and only if the alignment is bad or free memory has no such block; it panics only for a bad request or a full set |
| `MemoryMaps.MemoryLists.Reclaim` | kernel/src/mm.rs:417-429 | reclaiming returns every boot byte, and none that was free already |
| `Screens.SplicedAt` | kernel/src/framebuffer.rs:94-106 | writing within a scanline changes that part of it and nothing else |
| `Screens.CodeShowsColor` | kernel/src/framebuffer.rs:244-253 | the stored cell shows what drawing the character shows |
| `Screens.ConvertedChannels` | kernel/src/framebuffer.rs:108-125 | red, green and blue go to the places of the color mode, and converting twice gives the color back |
| `Screens.EncodeMeaning` | kernel/src/framebuffer.rs:244-253 | a cell holds the character and its color, which empty characters do not have |
| `Screens.ToByteMeaning` | kernel/src/framebuffer.rs:452-457 | ASCII characters are shown as they are, and question marks stand for all others |
| `Screens.RowPainted` | kernel/src/framebuffer.rs:346-370 | one more row of pixels shows the new text |
| `Screens.CopiedRowIsRender` | kernel/src/framebuffer.rs:346-370 | the pixels one line of text further down are what the moved line shows |
| `Screens.PartsMakeUpLine` | kernel/src/framebuffer.rs:800-825 | the 32 parts lie next to each other and make up the line, whatever its width |
| `Screens.ScrollThenClear` | kernel/src/framebuffer.rs:429-442 | moving the lines up part by part and clearing the last one is moving every row up by one and blanking the last |
| `Screens.RowDrawn` | kernel/src/framebuffer.rs:187-217 | drawing a row of a glyph changes that row of the cell and nothing else |
| `Screens.DrawnIsPainted` | kernel/src/framebuffer.rs:168-219 | drawing over a cell leaves a full render if and only if every row of the old character with ink has ink in the new one |
| `Screens.SpacesDoNotErase` | kernel/src/framebuffer.rs:209-216 | a blank drawn after a carriage return does not erase a visible character |
| `Screens.PutKeepsEmptyAhead` | kernel/src/framebuffer.rs:444-479 | without carriage returns the console only writes to empty cells |
| `Screens.NextLineShowsEnd` | kernel/src/framebuffer.rs:429-442 | going to the next line, with or without scrolling, still shows the last lines of the text |
| `Screens.PutShowsEnd` | kernel/src/framebuffer.rs:444-479 | a character on the screen is a character at the end of the unbounded text |
| `Screens.PrintedShowsEnd` | kernel/src/framebuffer.rs:429-498 | a cleared console shows the last lines of the unbounded text that a sequence of strings and colors makes |
| `TextConsoles.Framebuffer.SetPixelsInLine` | kernel/src/framebuffer.rs:94-106 | the pixels go to buffer and video memory alike, or the call panics exactly when they leave the visible area |
| `TextConsoles.Compare` | kernel/src/framebuffer.rs:692-741 | scalar meaning of the vector comparison |
| `TextConsoles.CompareSingle` | kernel/src/framebuffer.rs:743-792 | scalar meaning of the comparison with one value |
| `TextConsoles.TextFramebuffer.constructor` | kernel/src/framebuffer.rs:255-288 | the console starts cleared, in both copies: blank text, the cursor in the corner, the default color converted |
| `TextConsoles.TextFramebuffer.MovePartUp` | kernel/src/framebuffer.rs:314-371 | a part is moved, or skipped because it is the same, and the pixels stay a full render |
| `TextConsoles.TextFramebuffer.Scroll` | kernel/src/framebuffer.rs:298-373 | all lines but the last move up by one |
| `TextConsoles.TextFramebuffer.ClearLine` | kernel/src/framebuffer.rs:375-427 | the line becomes empty |
| `TextConsoles.TextFramebuffer.NewLine` | kernel/src/framebuffer.rs:429-442 | the cursor goes to the next line, after scrolling when there is none |
| `TextConsoles.TextFramebuffer.DrawGlyph` | kernel/src/framebuffer.rs:168-219 | exactly the rows of the glyph with ink are drawn |
| `TextConsoles.TextFramebuffer.WriteChar` | kernel/src/framebuffer.rs:444-479 | text and cursor are those of the specification, and the pixels, in both copies, are a full render |
| `TextConsoles.TextFramebuffer.WriteString` | kernel/src/framebuffer.rs:481-485 | the same for any text without carriage returns |
| `TextConsoles.TextFramebuffer.SetColor` | kernel/src/framebuffer.rs:487-498 | the color is converted, as the default color was, or the call panics exactly when it has reserved bits and changes nothing |
| `TextConsoles.TextFramebuffer.Print` | kernel/src/framebuffer.rs:481-498 | any sequence of strings without carriage returns and of colors leaves the specified page, fully rendered; it ends early exactly at the first color with reserved bits |
| `TextConsoles.Live` | kernel/src/framebuffer.rs:255-288 | from its creation on, whatever strings and colors a console gets, its pixels show the last lines of everything printed, wrapped at its width, with the cursor behind the last character |
| `VirtualMachines.Vm.constructor` | kernel/src/vm/svm/mod.rs:439-569 | no clean bits, no pending flush, the fixed intercepts on |
| `VirtualMachines.Vm.SetReg` | kernel/src/vm/svm/mod.rs:1205-1277 | the register changes, exactly its clean bit goes, and a flush is requested exactly for a change of CR3 or of the paging bits of CR0, CR4 or EFER |
| `VirtualMachines.PagingPartMeaning` | kernel/src/vm/svm/mod.rs:1242-1255 | the flush masks are any bit of CR3, and bits 31, 30, 29 and 16 of CR0, 7, 5 and 4 of CR4, and 11, 10 and 8 of EFER |
| `VirtualMachines.Vm.InjectEvent` | kernel/src/vm/svm/mod.rs:1364-1410 | the event is stored, with CR2 and its clean bit for a page fault, and reads back as the same event |
| `VirtualMachines.Vm.SetSegmentReg` | kernel/src/vm/svm/mod.rs:1303-1332 | the segment changes with its clean bit, and CS sets the privilege level |
| `VirtualMachines.Vm.SetTableReg` | kernel/src/vm/svm/mod.rs:1347-1358 | the table changes with its clean bit |
| `VirtualMachines.Vm.SetTscOffset` | kernel/src/vm/svm/mod.rs:1456-1459 | the offset changes with its clean bit |
| `VirtualMachines.Vm.Intercept` | kernel/src/vm/svm/mod.rs:640-666 | exactly the given intercepts are switched, and the fixed ones stay on |
| `VirtualMachines.SwitchableIsNotAlwaysOn` | kernel/src/vm/svm/mod.rs:173-249 | no intercept that a user can name is one of those that always stay on |
| `VirtualMachines.Vm.Run` | kernel/src/vm/svm/mod.rs:744-980 | at guest entry every set clean bit covers fields that are unchanged since the last exit on the same core, and a pending nested invalidation, or a change of CR3 or of the paging bits of CR0, CR4 and EFER, is in `tlb_control` |
| `VirtualMachines.OtherBitsStayClean` | kernel/src/vm/svm/mod.rs:633-638 | clearing one clean bit allows changes to its fields only |
| `NestedVms.OrUser` | kernel/src/vm/svm/npt.rs:66-68 | an entry for the guest has the user right and otherwise means what it meant |
| `NestedVms.NestedVm.MapRaw` | kernel/src/vm/svm/npt.rs:57-78 | the page is mapped for the guest, and the flag is set exactly when a position in use was overwritten; a panic has its reason |
| `NestedVms.NestedVm.Map` | kernel/src/vm/svm/npt.rs:79-101 | a region of fresh zeroed pages for the guest, which sets no flag |
| `NestedVms.NestedVm.Enter` | kernel/src/vm/svm/mod.rs:744-774 | a pending invalidation flushes the TLB at the next entry, and afterwards none is pending |
| `NestedVms.SilentMapKeepsHeld` | kernel/src/vm/svm/npt.rs:26-28 | a `map_raw` that does not set the flag keeps every translation |
| `NestedVms.NestedStepIsSafe` | kernel/src/vm/svm/mod.rs:764-774 | as long as no flush is pending the processor holds only translations of the nested tables, whatever is called |
| `NestedVms.GuestNeverRunsStale` | kernel/src/vm/svm/mod.rs:764-774 | over any run on one core, at every entry the TLB is flushed or all of it is current |
| `NestedVms.NestedVm.Perform` | kernel/src/vm/svm/mod.rs:744-980 | any sequence of nested mappings and entries is such a run |
| `NestedVms.Live` | kernel/src/vm/svm/mod.rs:439-569 | a machine from its creation on: every entry of its guest is safe in this sense |
| `GuestEvents.PackFields` | kernel/src/vm/svm/mod.rs:1397-1409 | every field of an injected event can be read back from its word |
| `GuestEvents.InjectedFields` | kernel/src/vm/svm/mod.rs:1364-1410 | vector, type, flags and error code of every event as the manual has them |
| `GuestEvents.Vectors` | kernel/src/vm/svm/mod.rs:1364-1410 | the vectors of the exceptions, and which of them have an error code |
| `GuestEvents.DeliveryOfInjection` | kernel/src/vm/svm/mod.rs:571-631 | an injected event whose delivery is intercepted is reported as the same event |
| `GuestEvents.DeliveryOutcomes` | kernel/src/vm/svm/mod.rs:571-630 | when nothing was being delivered, and which words are a panic |
| `GuestEvents.InjectionsDiffer` | kernel/src/vm/svm/mod.rs:1364-1410 | different events are injected as different words |
| `AddressSpaceIds.AsidBitmap.New` | kernel/src/vm/svm/utils.rs:168-193 | the lowest identifier that is not in use; none exactly when all below the processor's number and 2049 are in use |
| `AddressSpaceIds.AsidBitmap.Drop` | kernel/src/vm/svm/utils.rs:200-216 | the identifier is free again |
| `AddressSpaceIds.FullEntry` | kernel/src/vm/svm/utils.rs:171-175 | an entry that is skipped has no identifier to give |
| `GuestMemories.HostAddressesDiffer` | kernel/src/vm/svm/npt.rs:97-103 | different guest bytes are stored at different host addresses |
| `GuestMemories.MoreAreBacked` | kernel/src/vm/vkernel.rs:15-31 | after an allocation all guest pages below the bump pointer have their own host frame |
| `GuestMemories.NeverPastLastPage` | kernel/src/vm/vkernel.rs:15-31 | the bump pointer never passes 2^48, where nested positions repeat |
| `GuestMemories.WordWriteIsLocal` | kernel/src/vm/vkernel.rs:33-47 | a word written through the nested tables changes that word of the guest and nothing else |
| `GuestMemories.AllocationKeepsWords` | kernel/src/vm/vkernel.rs:15-31 | an allocation changes no word of the guest, because the nested tables give zeroed pages |
| `GuestMemories.BytesOfGuestWords` | kernel/src/vm/vkernel.rs:33-47 | the guest finds the bytes that are stored behind the nested tables |
| `GuestMemories.NextPageIsAllowed` | kernel/src/vm/vkernel.rs:15-31 | the nested tables can always take the next guest page, up to 2^48 |
| `GuestMemories.NestedWalkFinds` | kernel/src/vm/svm/npt.rs:97-103 | the nested walk finds the frame of a guest page |
| `GuestMemories.GuestMemory.AllocPhys` | kernel/src/vm/vkernel.rs:15-31 | a region behind all earlier ones, and no word of the guest changes; it panics only because the nested mapping fails, with its reason |
| `GuestMemories.GuestMemory.AllocPageZeroed` | kernel/src/vm/vkernel.rs:15-31 | a zeroed page behind all earlier ones; it panics only when the host has no memory or the guest no addresses |
| `GuestMemories.GuestMemory.ReadWord` | kernel/src/vm/vkernel.rs:33-47 | a load of a table entry as the guest sees it |
| `GuestMemories.GuestMemory.Translate` | kernel/src/vm/vkernel.rs:33-47 | where a part of one allocated guest page is in host memory; nothing that crosses a page is translated |
| `GuestMemories.GuestMemory.WriteByte` | kernel/src/vm/vkernel.rs:33-47 | a store of one byte as the guest sees it |
| `GuestMemories.GuestMemory.WriteWord` | kernel/src/vm/vkernel.rs:33-47 | a store of a table entry as the guest sees it |
| `GuestPageTables.OwnedIsAllocated` | kernel/src/vm/vkernel.rs:14-48 | what the tree of the guest owns is allocated guest memory |
| `GuestPageTables.GuestPageTable.New` | libs/page_table/src/lib.rs:97-106 | an empty guest tree in one zeroed guest frame |
| `GuestPageTables.GuestPageTable.AddTable` | libs/page_table/src/lib.rs:289-308 | a missing guest table is allocated, zeroed and linked, all through the nested tables |
| `GuestPageTables.GuestPageTable.LastTable` | libs/page_table/src/lib.rs:282-333 | the loop finds or builds the guest tables on the way of the address and nothing else |
| `GuestPageTables.GuestPageTable.MapRawInternal` | libs/page_table/src/lib.rs:221-336 | the guest page is mapped, or its position cannot be used, or memory has run out |
| `GuestPageTables.GuestPageTable.FillPage` | libs/page_table/src/lib.rs:185-190 | the guest page holds the bytes of the initializer and nothing else changes |
| `GuestPageTables.GuestPageTable.MapInit` | libs/page_table/src/lib.rs:140-202 | a fresh guest page with its contents and rights; refused only when its position cannot be used |
| `GuestPageTables.GuestPageTable.Walk` | kernel/src/vm/vkernel.rs:161-183 | the walk of the processor over the guest tables finds what the abstract map says, for the addresses that it accepts |
| `GuestPageTables.GuestPageTable.Store` | kernel/src/vm/vkernel.rs:161-183 | a store of the guest changes one byte of its own page and no table |
| `GuestSpaces.SpaceAfterFault` | kernel/src/vm/vkernel.rs:204-222 | a new page adds a page with its rights and contents to the address space of the guest, and changes no other |
| `GuestSpaces.SpaceAfterStore` | kernel/src/vm/vkernel.rs:161-183 | a store changes the byte that it names in the address space of the guest, and nothing else |
| `VirtualKernels.MappedPagesAreBacked` | kernel/src/vm/vkernel.rs:161-227 | whatever the guest maps has its own host frame behind it |
| `VirtualKernels.PagesReachDistinctFrames` | kernel/src/vm/vkernel.rs:161-227 | distinct guest-virtual pages reach distinct host frames through both walks |
| `VirtualKernels.TablesAreOutOfReach` | kernel/src/vm/vkernel.rs:161-227 | no guest-virtual address reaches a frame of the guest's page tables |
| `VirtualKernels.FaultedPageReads` | kernel/src/vm/vkernel.rs:209-222 | a page that a fault brought in reads, through both walks, as its contents |
| `VirtualKernels.FaultIsAllowed` | kernel/src/vm/vkernel.rs:168-170 | a guest page can be mapped if and only if its address is canonical and nothing is mapped there |
| `VirtualKernels.FaultKeepsNesting` | kernel/src/vm/vkernel.rs:204-222 | a mapped page keeps guest memory nested and filled exactly by the tables and pages of the guest |
| `VirtualKernels.VKernel.New` | kernel/src/vm/vkernel.rs:66-86 | the fresh kernel is contained and its address space is empty; the host accounts for every byte |
| `VirtualKernels.VKernel.HandleFault` | kernel/src/vm/vkernel.rs:172-222 | the address space gets exactly the planned page, which reads as planned through both walks, and the guest stays contained; it panics only on a fault that was no missing page, a bad plan, an address that is not canonical or in use, or when memory or guest addresses have run out |
| `VirtualKernels.BadFaultMeaning` | kernel/src/vm/vkernel.rs:172-225 | which faults are not handled: those on a present page, whatever the other bits of the error code, at an address that the code rejects, or where something is mapped |
| `VirtualKernels.VKernel.Run` | kernel/src/vm/vkernel.rs:161-227 | after any sequence of exits, faults and guest stores the address space is what these events make of a flat, demand-paged one, and the guest is contained: every mapped page has its own host frame, distinct pages reach distinct frames, no address reaches a table; a panic names the event, bad at that moment or without memory |
| `VirtualKernels.VKernel.Drop` | kernel/src/vm/svm/npt.rs:106-117 | everything that the nested tables own goes back to the host; it cannot panic while the set has slots for it |
| `VirtualKernels.VKernel.Live` | kernel/src/vm/svm/npt.rs:106-117 | created, run and dropped: the host has its free memory back without what was lost, and all of it when it consisted of whole pages |
| `VirtualKernels.ImageFaults` | kernel/src/vm/vkernel.rs:186-215 | a fault in the image brings in the bytes that belong there and zeros behind them; of the permissions only every fourth page is writable and executable |
| `VirtualKernels.ImageRights` | kernel/src/vm/vkernel.rs:189-210 | for any image: two bits of the bitmap for every page, the lower one for writing and the higher one for executing |
| `VirtualKernels.UnalignedImage` | kernel/src/vm/vkernel.rs:193-195 | an image that does not start on a page boundary is a panic at its first fault |
| `VirtualKernels.PermissionsOfImage` | kernel/src/vm/vkernel.rs:238-240 | the bitmap has a byte for every four bytes of the padded image, each with the lowest two bits set |
| `VirtualKernels.OtherFaults` | kernel/src/vm/vkernel.rs:216-222 | a fault elsewhere brings in a zeroed page that is writable and not executable |

## Left out

- GuestPageTables.GuestPageTable.MapRawInternal: 4 KB pages with `add` and without `update`, as the virtual kernel maps them. The source is generic in the memory; here it appears once for each memory.
- GuestPageTables.GuestPageTable.MapInit: regions of one 4 KB page, for the same reason.
- GlobalAllocators.GlobalAllocator.Alloc: the steps inside calls of different cores do not interleave. Their calls can be swapped, except for the order in which they ask for fresh memory (`HeapOrders.CallsCommute`, `HeapOrders.RefillsKeepTheirOrder`).
- SpinLocks.StepKeepsInv: exceptions and NMIs, whose handlers always panic, `force_lock_unsafe`, which only a panicking kernel uses, and memory orders weaker than sequential consistency.
- BootProtocols.StepKeepsInv: panics during start-up, and a firmware table that does not list the first core, with which the barrier would never open.
- VirtualMachines.Vm.Run: general-purpose registers other than RAX, the FPU state and XCR0, the decoding of exits, and flushing on a core that the machine left behind.
- NestedVms.GuestNeverRunsStale: a machine that stays on one core, under an address-space identifier for which the processor holds nothing at first.
- TextConsoles.TextFramebuffer.Print: strings with carriage returns, for which `Screens.DrawnIsPainted` says character by character whether the screen is still a full render.
- InjectionsDiffer: two page faults differ in their words only by the error code; their address goes to CR2.
- HandleFault: accessed and dirty bits that a processor sets in table entries.
- LoadMap: a firmware map that is not disjoint or that wraps around only keeps the range sets in order.
- CreateKernelStack: how the core switches to the stack, and what it then stores there.
- BaseAddress: of the file header only what the segments need; sections, strings and the machine type.
- WriteChar: font data is a table of rows of pixels instead of packed bytes, and the vector helpers have their scalar meaning.
- The trampoline page table of the bootloader: two more linear maps like the one of the kernel.
- MSR and port permission bitmaps, MMIO mappings, contiguous regions and physical pages of the kernel: easy members.
- ACPI tables, timers, interrupt controllers, the serial port, EFI calls and display modes: input and output.
- Panic handling, which takes locks by force and hopes that other cores have stopped.
