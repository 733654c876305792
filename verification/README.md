# kush-os: models and proofs

kush-os is a hobby operating system: a C++ kernel, and `idlc`, a compiler from interface descriptions to RPC stubs.
This project models the parts of both where state, arithmetic or protocol make mistakes easy, and proves what they
promise. `dafny verify dfyconfig.toml` checks everything.

**Kernel memory.** `Regions`, `Pools` and their objects are the bitmap allocator for physical pages. `PageEntries` to
`PageCreate` and `PageTableObject` are the four-level paging structures (section 4.5 of the Intel SDM, Volume 3A): a
heap of 512-entry tables that refines a flat map from pages to translations, with upper halves shared between maps;
`PageBits` says the same in bits of addresses and entries. `VirtualAlloc` to `VirtualRuns`, `TlbCoherence` and
`PageAllocatorObject` are VAlloc and VFree over both, as whole runs and, for the TLB, as a step-by-step machine;
`VirtualHalts` says when they halt, `VirtualSpans` what becomes of requests that span regions. `Boot` connects all of
it to raw memory segments. `Zones` is the slab allocator, `ZonePages` the slab allocator over VAlloc, `MemoryMove` the
word-wise memory copy, `ContiguousRegion` the mapping of a physical range.

**RPC.** `WireFormat` is the message layout for an arbitrary argument list and the three emitted functions.
`RemoteCalls` is the protocol between the emitted client and server as a transition system; `WireBytes` gives the
messages byte by byte; `RpcStubs` are the stubs as objects.

**The rest.** `MurmurHash` (method identifiers; `HashReference` is the published algorithm), `StringToLong` (`strtol`,
section 7.22.1.4 of C11; `WrittenNumbers` says what every string converts to), the framebuffer console with its
control sequences (`TextScreen`, `TerminalText`, `FramebufferConsole`, `ConsoleObject`; section 5.4 of ECMA-48), and
the grammar of interface descriptions with the builder its actions drive (`IdlGrammar`, `IdlParsing`, `IdlBuilder`,
`IdlBuilderObject`). `IdlSyntax` are descriptions as they are written, `IdlReading` and `IdlReadBack` what parser and
builder make of them, `IdlAccepting` and `IdlExact` the converse for every input, and `IdlPrinting` a written form for
each description.

Code that changes state in place is written as classes and loops, each method proved to compute a function on values;
the theorems are about those functions. The main results are `Boot.SafeFromPowerOn`, `ZonePages.ObjectsAreMemory`,
`PageRuns.RunRefinesFlatMap`, `TlbCoherence.FreedFramesUncached`, `RemoteCalls.CallsAreTransparent`,
`WireFormat.MessageRoundTrip`, `ConsoleObject.WriteAll`, `TerminalText.ColouredCharacter`,
`WrittenNumbers.WrittenReadsBack`, `IdlExact.BuiltExactly` and `IdlParsing.TripsExactly`.

## Where the code departs from its documentation

The model follows the code and states exactly when it does what it promises; the intended form is proved beside it.

- `Region::contains` adds the number of pages to a byte address, so regions refuse most of their own pages on free
  (`Regions.ContainedPages`). The extent is a parameter (`span`), so results hold for the code and for the intended
  value (`Regions.Intended`). Frames a region refuses are tracked as lost.
- The `Region` constructor sets whole bytes for all pages although only some are allocatable, so the bitmap is sound
  exactly when the allocatable pages are a multiple of 64 (`Regions.BuiltRegion`, `Boot.BuiltPoolSound`).
- `Pool::alloc` never advances its output pointer between regions (`Pools.BufferNamesTaken`), so a request that spans
  regions gets a buffer that does not name its pages. The flag `advances` selects the intended form: with it, runs of
  the page allocator allow every request of up to 16 pages; without it, those one region can serve
  (`Pools.OneRegion`), because any other leaves a page without an owner (`VirtualSpans.AllocOwnersExact`).
- `getPhysAddr` returns 0 for large pages although it fills in the address, and `unmapPage` returns 1 on an empty
  entry. Both are modelled; translations are stated through the walk.
- Top-level slots a parent gains after a child was made are not seen by the child (`PageCreate.LateSlotNotSeen`).
- `PageAllocator::Alloc` has room for 16 pages; an empty request, or a pool that serves none of one, halts the kernel.
- `ZoneAllocator::free` does not step to the next region (`Zones.FreeAsWrittenExact`); `FreeInList` does.
- The console scrolls with `memcpy`, whose overlap check panics for more than ten rows; the flag `moves` selects the
  intended move. Cursor positions are not clamped (`TextScreen.CursorExact`), and parameters are held in eight bytes,
  digits included (`TextScreen.UndefinedExact`). Fewer than five rows cannot be scrolled. In fonts wider than eight
  columns, columns 8, 16 and so on show a bit of the byte before (`FramebufferConsole.PixelShown`).
- The console's warning about an unknown sequence is written while the sequence is still being read. Where the
  kernel's log is shown on the same console, it never returns and runs over the escape buffer
  (`TextScreen.NeverReturns`). The setting `warnings` says where the log goes.
- `deserialize` reads past an input that ends between the scalars and the blob region, and follows blob pointers that
  lead outside it (`WireFormat.ReadsPastExact`).
- An empty decorator value is grammatical but trips an assert (`IdlParsing.TripsExactly`).
- The sample description `tools/idlc/sample/hello.idl` has a comment that starts with a number sign; the grammar has
  no such comments and refuses the file (`IdlReading.NoHashComments`).

## Model

| member | source | states |
|---|---|---|
| `FreeBits.TakeBitsFreeList` | Core/Kernel/Sources/Memory/Region.cpp:95-140 | clearing the lowest n set bits leaves the ascending list of set positions without its first n |
| `Words.FfsWord` | Core/Kernel/Sources/Memory/Region.cpp:108-117 | find-first-set names a set bit with none below it, so one scan step takes the lowest free page of a word |
| `Regions.Layout` | Core/Kernel/Sources/Memory/Region.cpp:34-46 | bitmap pages and allocatable pages make up the region, and addresses start behind the bitmap |
| `Regions.LayoutIs` | Core/Kernel/Sources/Memory/Region.cpp:34-46 | the bitmap takes the fewest pages with a bit for every page, and all addresses, sizes and the extent follow |
| `Regions.ExtentIs` | Core/Kernel/Includes/Memory/Region.h:48-50 | which addresses a region accepts, as written and as intended |
| `Regions.AllocTakesPrefix` | Core/Kernel/Sources/Memory/Region.cpp:95-140 | a request takes min(n, free) pages, a prefix of the ascending free list; the counter moves by as many and the bitmap invariants stay |
| `Regions.FreeAddrsArePages` | Core/Kernel/Sources/Memory/Region.cpp:95-140 | addresses on offer ascend; all of them are allocatable pages if and only if no bit past the last page is set |
| `Regions.FreeGivesBack` | Core/Kernel/Sources/Memory/Region.cpp:153-171 | freeing allocated pages makes free exactly those `contains` accepts, counts exactly those, and ignores the rest |
| `Regions.ContainedPages` | Core/Kernel/Includes/Memory/Region.h:48-50 | with the page count as extent, a page is accepted exactly when its byte offset from the base is below that count, so every region with an allocatable page refuses its last one; the byte extent accepts all |
| `Regions.AllocFreeRoundTrip` | Core/Kernel/Sources/Memory/Region.cpp:95-171 | giving back what a request returned restores bitmap and counter if and only if the extent test accepts every address |
| `Regions.BuiltRegion` | Core/Kernel/Sources/Memory/Region.cpp:34-70 | after the constructor every allocatable page is free, and the bitmap is clean past the end, and the count right, if and only if the number of allocatable pages is a multiple of 64, whatever storage held |
| `PhysicalRegion.Region.constructor` | Core/Kernel/Sources/Memory/Region.cpp:34-70 | the object built in place is the built region over whatever storage held |
| `PhysicalRegion.Build` | Core/Kernel/Sources/Memory/Region.cpp:34-70 | construction halts exactly when there is no whole page or the bitmap cannot be reached, in early boot at 4 GB and above |
| `PhysicalRegion.FillOnes` | Core/Kernel/Sources/Memory/Region.cpp:46-63 | the byte fill sets exactly the first 8 * bytes bits and keeps the others |
| `PhysicalRegion.Region.Alloc` | Core/Kernel/Sources/Memory/Region.cpp:95-140 | the word scan in place: output is the prefix of the free list, the rest of the buffer untouched, new state the specified one |
| `PhysicalRegion.Region.Free` | Core/Kernel/Sources/Memory/Region.cpp:153-171 | the loop in place refines the specified release and returns the number of contained addresses |
| `Pools.PoolAllocTakesPrefix` | Core/Kernel/Sources/Memory/Pool.cpp:88-117 | a request takes a prefix of the pool-wide free list, whichever regions it spans, and counts exactly what it took |
| `Pools.PoolFreePages` | Core/Kernel/Sources/Memory/Pool.cpp:88-117 | what the pool offers are page-aligned allocatable pages of its regions, each once |
| `Pools.BufferNamesTaken` | Core/Kernel/Sources/Memory/Pool.cpp:88-117 | the output pointer is not advanced between regions: the buffer names the pages taken if and only if one region supplied them all |
| `Pools.AnswerExact` | Core/Kernel/Sources/Memory/Pool.cpp:90-105 | with the pointer advanced the buffer names the pages taken always, without it exactly in that case |
| `Pools.PoolReleaseGivesBack` | Core/Kernel/Sources/Memory/Pool.cpp:127-139 | offering each address to each region frees exactly the accepted ones and keeps the invariant |
| `Pools.CountAll` | Core/Kernel/Sources/Memory/Pool.cpp:127-139 | the reported count is the number of pages if and only if some region accepts each address |
| `Pools.Conservation` | Core/Kernel/Sources/Memory/Pool.cpp:146-171 | free pages plus pages counted as allocated equal the total |
| `Pools.PoolRoundTrip` | Core/Kernel/Sources/Memory/Pool.cpp:88-139 | releasing what a request took, across any number of regions, restores every bitmap and counter if and only if each page is inside an extent |
| `Pools.PoolRunConserves` | Core/Kernel/Sources/Memory/Pool.cpp:88-171 | over every run of allocs and frees, free plus allocated is the same total and everything on offer is an aligned, in-range page, listed once |
| `PhysicalPool.Pool.Alloc` | Core/Kernel/Sources/Memory/Pool.cpp:88-117 | the loop over the regions refines the pool specification, buffer contents included |
| `PhysicalPool.Pool.Free` | Core/Kernel/Sources/Memory/Pool.cpp:127-139 | the loop over the regions refines the specified release and its count, addresses foreign to the pool included |
| `PhysicalPool.Pool.TotalPages` | Core/Kernel/Sources/Memory/Pool.cpp:146-156 | sum of the regions' allocatable pages |
| `PhysicalPool.Pool.AllocatedPages` | Core/Kernel/Sources/Memory/Pool.cpp:162-171 | sum of the regions' counters |
| `PageEntries.LinkSpec` | Core/Kernel/Platforms/x86_64/pc-uefi.platform/Sources/Vm/PageTable.cpp:125-200 | a written table entry is present, writable, user-accessible exactly below the split, small, and leads to exactly the new table |
| `PageEntries.LeafSpec` | Core/Kernel/Platforms/x86_64/pc-uefi.platform/Sources/Vm/PageTable.cpp:240-274 | a written page entry is the frame address with exactly the flags asked for, and decodes to the frame cut to 52 bits and to the normalised mode |
| `PageBits.WalkBits` | Core/Kernel/Platforms/x86_64/pc-uefi.platform/Sources/Vm/PageTable.cpp:434-504 | the walk entry by entry, with the bits of address and entries written out |
| `PageBits.CanonicalBits` | Core/Kernel/Platforms/x86_64/pc-uefi.platform/Sources/Vm/PageTable.cpp:134-137 | the addresses refused are those whose bits 47 to 63 differ |
| `PageBits.ModeBits` | Core/Kernel/Platforms/x86_64/pc-uefi.platform/Sources/Vm/PageTable.cpp:604-635 | the mode an entry stands for, flag by flag |
| `PageBits.MapPageBits` | Core/Kernel/Platforms/x86_64/pc-uefi.platform/Sources/Vm/PageTable.cpp:125-274 | mapPage: the code for every case; afterwards exactly the addresses of the page translate to the frame with the access asked for, writes pass every table on the way, and every other address translates as before |
| `PageBits.UnmapPageBits` | Core/Kernel/Platforms/x86_64/pc-uefi.platform/Sources/Vm/PageTable.cpp:286-352 | unmapPage: the code for every case; exactly the page or large page of the address goes |
| `PageBits.UnmapBits` | Core/Kernel/Platforms/x86_64/pc-uefi.platform/Sources/Vm/PageTable.cpp:385-417 | unmap: its argument checks and codes; without large pages exactly the pages of the range go |
| `PageWalk.WalkWrites` | Core/Kernel/Platforms/x86_64/pc-uefi.platform/Sources/Vm/PageTable.cpp:155-236 | a page mapped for writing can be written through every table on its way |
| `PageTables.FillKeeps` | Core/Kernel/Platforms/x86_64/pc-uefi.platform/Sources/Vm/PageTable.cpp:125-240 | filling in missing levels keeps the tree shape, frame ownership and every translation of every map; it fails only on a larger page in the way |
| `PageMap.WalkIsLookup` | Core/Kernel/Platforms/x86_64/pc-uefi.platform/Sources/Vm/PageTable.cpp:434-504 | the four-level walk at every address is the lookup in the flat map, large pages included |
| `PageMap.MapPageRefines` | Core/Kernel/Platforms/x86_64/pc-uefi.platform/Sources/Vm/PageTable.cpp:125-274 | mapPage is the flat update of exactly one page, below its root and the roots sharing the slot; a refused request changes no translation; every other entry it adds is present, writable, and user-accessible exactly below the split |
| `PageUnmap.UnmapPageRefines` | Core/Kernel/Platforms/x86_64/pc-uefi.platform/Sources/Vm/PageTable.cpp:286-352 | unmapPage drops exactly the page it ends at, below its root and the roots sharing the slot |
| `PageUnmap.UnmapRefines` | Core/Kernel/Platforms/x86_64/pc-uefi.platform/Sources/Vm/PageTable.cpp:385-417 | unmap drops every page of the range from the flat map of its root, and from those of other roots the pages below slots they share; it succeeds exactly when every address is canonical |
| `PageUnmap.FlatUnmapExact` | Core/Kernel/Platforms/x86_64/pc-uefi.platform/Sources/Vm/PageTable.cpp:385-417 | without large pages in the range exactly the pages of the range go |
| `PageRuns.StepRefines` | Core/Kernel/Platforms/x86_64/pc-uefi.platform/Sources/Vm/PageTable.cpp:125-417 | each operation keeps the invariant, is its flat counterpart on the map of its root and on every map that shares slots with it, and neither adds nor removes sharing |
| `PageRuns.RunRefinesFlatMap` | Core/Kernel/Platforms/x86_64/pc-uefi.platform/Sources/Vm/PageTable.cpp:125-504 | over any run of mapPage, unmapPage and unmap on any of the maps, the walk of each agrees at every address with a flat map of its own that went through the same operations |
| `PageRuns.OwnRun` | Core/Kernel/Platforms/x86_64/pc-uefi.platform/Sources/Vm/PageTable.cpp:125-504 | a map that alone is operated on needs nothing of the others |
| `PageRuns.SharedForever` | Core/Kernel/Platforms/x86_64/pc-uefi.platform/Sources/Vm/PageTable.cpp:29-69 | a slot present in parent and child at the copy translates identically in both after any later run on any map |
| `PageRuns.StepIsolated` | Core/Kernel/Platforms/x86_64/pc-uefi.platform/Sources/Vm/PageTable.cpp:125-417 | a lower-half operation changes no other map |
| `PageRuns.LowerHalfIsolated` | Core/Kernel/Platforms/x86_64/pc-uefi.platform/Sources/Vm/PageTable.cpp:125-417 | any run of lower-half operations on other maps leaves a map unchanged |
| `PageCreate.ChildSharesUpper` | Core/Kernel/Sources/Vm/Map.cpp:27-30 | a child translates the upper half as its parent and nothing else, shares every present upper slot, and its creation changes no existing map |
| `PageCreate.LateSlotNotSeen` | Core/Kernel/Platforms/x86_64/pc-uefi.platform/Sources/Vm/PageTable.cpp:62-69 | a top-level slot the parent fills after the copy is mapped there and stays unmapped in the child |
| `PageCreate.ApertureEntrySpec` | Core/Kernel/Platforms/x86_64/pc-uefi.platform/Sources/Vm/PageTable.cpp:77-113 | each aperture entry is a present, writable, global 1 GB page for its own gigabyte, bit by bit, kernel read-write |
| `PageCreate.ApertureMapsPhysical` | Core/Kernel/Platforms/x86_64/pc-uefi.platform/Sources/Vm/PageTable.cpp:77-113 | afterwards every address of the 2 TB window translates to its offset in the window, every other canonical address as before; the top-level entries are present and writable |
| `PageTableObject.PageTable.ReadTable` | Core/Kernel/Platforms/x86_64/pc-uefi.platform/Sources/Vm/PageTable.cpp:581-588 | reads exactly the entry |
| `PageTableObject.PageTable.WriteTable` | Core/Kernel/Platforms/x86_64/pc-uefi.platform/Sources/Vm/PageTable.cpp:590-600 | writes exactly the entry |
| `PageTableObject.PageTable.AllocPage` | Core/Kernel/Platforms/x86_64/pc-uefi.platform/Sources/Vm/PageTable.cpp:538-571 | takes the pool's next frame, zeroed, or halts exactly when there is none in reach, which in early boot ends at 4 GB |
| `PageTableObject.PageTable.MapPage` | Core/Kernel/Platforms/x86_64/pc-uefi.platform/Sources/Vm/PageTable.cpp:125-274 | the four levels in place refine the specified step, return code and halting included |
| `PageTableObject.PageTable.UnmapPage` | Core/Kernel/Platforms/x86_64/pc-uefi.platform/Sources/Vm/PageTable.cpp:286-352 | in place refines the specified step and code, among them code 1 on an entry that was already empty |
| `PageTableObject.PageTable.Unmap` | Core/Kernel/Platforms/x86_64/pc-uefi.platform/Sources/Vm/PageTable.cpp:385-417 | the loop up to the first error refines the specified range operation |
| `PageTableObject.PageTable.GetPhysAddr` | Core/Kernel/Platforms/x86_64/pc-uefi.platform/Sources/Vm/PageTable.cpp:434-504 | code and outputs exactly as the source: code 0 for large pages although the address is filled in |
| `PageTableObject.PageTable.CopyPml4Upper` | Core/Kernel/Platforms/x86_64/pc-uefi.platform/Sources/Vm/PageTable.cpp:62-69 | copies exactly slots 256 to 511 over whatever was there and touches nothing else |
| `PageTableObject.PageTable.MapPhysAperture` | Core/Kernel/Platforms/x86_64/pc-uefi.platform/Sources/Vm/PageTable.cpp:77-113 | the nested loops refine the specified tables, and halt exactly when that does |
| `PageTableObject.PageTable.Initialize` | Core/Kernel/Platforms/x86_64/pc-uefi.platform/Sources/Vm/PageTable.cpp:29-44 | the constructor is the child creation, the plain root or the root with the aperture, and halts exactly when that does |
| `VirtualAlloc.OwnersAddUp` | Core/Kernel/Sources/Vm/PageAllocator.cpp:79-186 | one owner per frame: pages counted allocated are the paging structures, the pages handed out and the refused ones |
| `VirtualAllocSteps.LengthPages` | Core/Kernel/Sources/Vm/PageAllocator.cpp:83-85 | rounding up to pages: the least page multiple not below the length |
| `VirtualAllocSteps.MapFramesRefines` | Core/Kernel/Sources/Vm/PageAllocator.cpp:109-119 | the mapping loop adds exactly the n pages, each to its own frame, and nothing else changes |
| `VirtualAllocSteps.AllocSucceeds` | Core/Kernel/Sources/Vm/PageAllocator.cpp:79-130 | a served request keeps the whole invariant, every existing translation and the regions |
| `VirtualFreeSteps.AllocRefused` | Core/Kernel/Sources/Vm/PageAllocator.cpp:97-103 | a partly served request gives its frames back and keeps the invariant |
| `VirtualFreeSteps.UnmapLive` | Core/Kernel/Sources/Vm/PageAllocator.cpp:164-167 | unmapping a live range succeeds and removes exactly its pages |
| `VirtualFreeSteps.FreeCompletes` | Core/Kernel/Sources/Vm/PageAllocator.cpp:143-186 | VFree of a live range completes if and only if an extent accepts each frame; then the invariant holds again |
| `VirtualRuns.AllocKeeps` | Core/Kernel/Sources/Vm/PageAllocator.cpp:79-130 | every VAlloc that returns keeps the invariant, with the exact result and new state for served and refused requests, two guard pages included |
| `VirtualRuns.TableKeeps` | Core/Kernel/Platforms/x86_64/pc-uefi.platform/Sources/Vm/PageTable.cpp:125-417 | table operations outside the window keep it |
| `VirtualRuns.ChildKeeps` | Core/Kernel/Sources/Vm/Map.cpp:27-30 | creating child maps keeps it |
| `VirtualRuns.VmRunKeeps` | Core/Kernel/Sources/Vm/PageAllocator.cpp:79-186 | so does every run, and no range that was handed out is ever forgotten |
| `VirtualRuns.BootedInv` | Core/Kernel/Sources/Vm/PageAllocator.cpp:47-50 | the state after Init satisfies it |
| `VirtualRuns.RunsAreSafe` | Core/Kernel/Sources/Vm/PageAllocator.cpp:79-186 | after every run: all ranges ever handed out are 1 to 16 pages, aligned, in the window and disjoint with their two guard pages; the guards are unmapped; each byte of each live page translates to its own frame, kernel read-write without user access, and no table on the way forbids writing; the allocated count is accounted for |
| `VirtualRuns.RunsConserve` | Core/Kernel/Sources/Vm/PageAllocator.cpp:79-186 | with extents that cover the regions the count is the paging structures plus gPagesAllocated |
| `VirtualHalts.MapPageHaltsExact` | Core/Kernel/Platforms/x86_64/pc-uefi.platform/Sources/Vm/PageTable.cpp:125-274 | mapPage halts if and only if the address is canonical and the next frames of the pool are too few, or too far up, for the tables missing on the way |
| `VirtualHalts.UsableIs` | Core/Kernel/Platforms/x86_64/pc-uefi.platform/Sources/Vm/PageTable.cpp:514-552 | which frames can become tables: in early boot those below 4 GB, later all but the last page of 2 TB |
| `VirtualHalts.MapFramesHaltsExact` | Core/Kernel/Sources/Vm/PageAllocator.cpp:109-119 | the mapping loop halts if and only if that happens at one of its pages |
| `VirtualHalts.AllocHaltsExact` | Core/Kernel/Sources/Vm/PageAllocator.cpp:79-130 | VAlloc halts if and only if no page is asked for, the window has no room, the pool is empty, frames run out in the mapping loop, or giving a partial result back writes outside a bitmap |
| `VirtualHalts.FreeHaltsExact` | Core/Kernel/Sources/Vm/PageAllocator.cpp:143-186 | VFree of any pointer halts if and only if pointer or length is zero, the pointer is unaligned, a page of the range is no mapped 4K page, or the pool does not take the frame behind one back |
| `VirtualSpans.ServedSpan` | Core/Kernel/Sources/Vm/PageAllocator.cpp:79-130 | with the output pointer as written and a second region contributing, the pages map to what the buffer holds, and the first page taken is left without an owner |
| `VirtualSpans.AllocOwnersExact` | Core/Kernel/Sources/Vm/PageAllocator.cpp:79-130 | VAlloc keeps one owner per frame if and only if the buffer names the pages taken; otherwise the first one is neither free, mapped, a paging structure nor known to be lost |
| `Boot.BuiltPoolSound` | Core/Kernel/Sources/Memory/Pool.cpp:25-45 | the pool built from page-aligned disjoint segments is sound if and only if every segment's allocatable pages are a multiple of 64 |
| `Boot.PowerOn` | Core/Kernel/Platforms/x86_64/pc-uefi.platform/Sources/Vm/PageTable.cpp:29-44 | building pool, first page table and aperture over such segments reaches the state runs start from, with no page unaccounted for |
| `Boot.StartHaltsExact` | Core/Kernel/Platforms/x86_64/pc-uefi.platform/Sources/Vm/PageTable.cpp:29-44 | start-up halts if and only if a segment starts at 4 GB or above, or the pool's first five frames are too few or reach that far |
| `Boot.SafeFromPowerOn` | Core/Kernel/Sources/Vm/PageAllocator.cpp:47-186 | the run theorem from raw segments, for extent and output pointer each as written and as intended |
| `TlbCoherence.CpuStepKeeps` | Core/Kernel/Sources/Vm/PageAllocator.cpp:79-186 | every step keeps coherence up to the pages being freed: cache loads and evictions, VAlloc, the parts of VFree, mappings of absent pages, lower-half operations on other maps, creation of maps |
| `TlbCoherence.RemapExact` | Core/Kernel/Platforms/x86_64/pc-uefi.platform/Sources/Vm/PageTable.cpp:125-274 | mapPage does not invalidate: mapping a page of the kernel map keeps coherence if and only if the TLB holds no other translation of it |
| `TlbCoherence.ReleaseIsSafe` | Core/Kernel/Sources/Vm/PageAllocator.cpp:160-178 | at the release no cached translation is stale or leads to a released frame, and the state is what VFree computes |
| `TlbCoherence.FreedFramesUncached` | Core/Kernel/Sources/Vm/PageAllocator.cpp:160-178 | the same in every run, whatever the processor loads or drops between any two steps |
| `TlbCoherence.StaleWithoutInvalidate` | Core/Kernel/Sources/Vm/Map.cpp:248-275 | without the invalidation the claim fails: for any live page there is a run that leaves it cached after the unmap |
| `PageAllocatorObject.PageAllocator.constructor` | Core/Kernel/Sources/Vm/PageAllocator.cpp:47-50 | Init gives the start state |
| `PageAllocatorObject.PageAllocator.MapAll` | Core/Kernel/Sources/Vm/PageAllocator.cpp:109-119 | the loop refines the specified mapping |
| `PageAllocatorObject.PageAllocator.Alloc` | Core/Kernel/Sources/Vm/PageAllocator.cpp:79-130 | VAlloc in place is the specified step, for requests that span regions too: pointer, new state, halting |
| `PageAllocatorObject.PageAllocator.ReadAll` | Core/Kernel/Sources/Vm/PageAllocator.cpp:154-161 | the frames behind the range, or a halt when a page is not a mapped 4K page |
| `PageAllocatorObject.PageAllocator.Free` | Core/Kernel/Sources/Vm/PageAllocator.cpp:143-186 | VFree in place is the specified step, for any pointer |
| `ContiguousRegion.AddRefines` | Core/Kernel/Sources/Vm/ContiguousPhysRegion.cpp:33-43 | the page-by-page loop is the flat map with exactly those pages added |
| `ContiguousRegion.AddThenRemove` | Core/Kernel/Sources/Vm/ContiguousPhysRegion.cpp:33-63 | removing what was added over unmapped addresses restores every translation; removal succeeds if and only if base and length are page multiples of a canonical range |
| `ContiguousRegion.ContiguousPhysRegion.AddedTo` | Core/Kernel/Sources/Vm/ContiguousPhysRegion.cpp:33-43 | the loop in place refines it |
| `Zones.LiveDisjoint` | Core/Kernel/Includes/Vm/ZoneAllocator.h:203-213 | live objects are pairwise disjoint, inside one region's storage, and determine their slot |
| `Zones.AllocSpec` | Core/Kernel/Includes/Vm/ZoneAllocator.h:237-265 | alloc hands out an address that was not live, makes exactly it live, takes a new region exactly when all are full, and fails exactly when that region cannot be had |
| `Zones.AllocPlaces` | Core/Kernel/Includes/Vm/ZoneAllocator.h:237-243 | the first region with an available slot gives its lowest one, and nothing else changes |
| `Zones.NewRegionPlaced` | Core/Kernel/Includes/Vm/ZoneAllocator.h:245-265 | without one a new region goes to the end of the list, its first slot is given, and exactly the other slots that fit are available |
| `Zones.ItemsFit` | Core/Kernel/Includes/Vm/ZoneAllocator.h:76-93 | a region has as many slots as fit behind its metadata |
| `Zones.FreeSpec` | Core/Kernel/Includes/Vm/ZoneAllocator.h:272-289 | with the step to the next region, free makes exactly the object available |
| `Zones.FreeAsWrittenExact` | Core/Kernel/Includes/Vm/ZoneAllocator.h:278-285 | without the step free of a live object completes, and is then right, if and only if the first region holds it; otherwise it never returns |
| `Zones.SlotsAddUp` | Core/Kernel/Includes/Vm/ZoneAllocator.h:135-182 | live plus available slots equal regions times slots per region |
| `Zones.ZoneRun` | Core/Kernel/Includes/Vm/ZoneAllocator.h:135-327 | over every run what callers hold is what the bitmaps say, objects are disjoint, and slots add up |
| `ZoneObject.Region.constructor` | Core/Kernel/Includes/Vm/ZoneAllocator.h:76-93 | the metadata loops build an empty region with one bit per item |
| `ZoneObject.Region.Alloc` | Core/Kernel/Includes/Vm/ZoneAllocator.h:135-164 | the bitmap scan in place refines the specified slot |
| `ZoneObject.Region.Free` | Core/Kernel/Includes/Vm/ZoneAllocator.h:173-182 | in place refines the specified release |
| `ZoneObject.Region.IsFull` | Core/Kernel/Includes/Vm/ZoneAllocator.h:218-227 | true exactly when no slot is available |
| `ZoneObject.ZoneAllocator.FindRegionWithSpace` | Core/Kernel/Includes/Vm/ZoneAllocator.h:309-327 | the first region along the linked list that is not full, or none |
| `ZoneObject.ZoneAllocator.Alloc` | Core/Kernel/Includes/Vm/ZoneAllocator.h:237-265 | on the linked list, refines the specified step and keeps the list acyclic and complete |
| `ZoneObject.ZoneAllocator.Free` | Core/Kernel/Includes/Vm/ZoneAllocator.h:272-289 | as written, the case that never returns reported as such |
| `ZoneObject.ZoneAllocator.FreeInList` | Core/Kernel/Includes/Vm/ZoneAllocator.h:272-289 | with the step to the next region: always terminates and refines the specification |
| `ZonePages.NewRegionApart` | Core/Kernel/Includes/Vm/ZoneAllocator.h:115-131 | the address VAlloc answers for a region is apart from every other region of the zone |
| `ZonePages.SystemRunKeeps` | Core/Kernel/Includes/Vm/ZoneAllocator.h:115-289 | over every run of zone, VAlloc, VFree and table operations from boot, zone and page allocator keep their invariants and every region is a live range |
| `ZonePages.ObjectsAreMemory` | Core/Kernel/Includes/Vm/ZoneAllocator.h:115-289 | every byte of every held object is memory the kernel can read and write, through every table on the way, and user space cannot, and no two bytes of held objects are the same physical byte |
| `MemoryMove.MovedBytes` | Core/Kernel/Sources/Runtime/String.cpp:48-115 | what a move is, byte by byte |
| `MemoryMove.LowerFirst` | Core/Kernel/Sources/Runtime/String.cpp:58-85 | moving the lower piece first is the move when the destination does not run into the source from below |
| `MemoryMove.UpperFirst` | Core/Kernel/Sources/Runtime/String.cpp:86-112 | moving the upper piece first is the move in the other direction |
| `MemoryMove.ForwardExact` | Core/Kernel/Sources/Runtime/String.cpp:58-85 | a forward copy is the move for all contents if and only if the destination does not start inside the source |
| `MemoryMove.CopyForward` | Core/Kernel/Sources/Runtime/String.cpp:58-85 | bytes to alignment, aligned words, trailing bytes: the move |
| `MemoryMove.CopyBackward` | Core/Kernel/Sources/Runtime/String.cpp:86-112 | the same from the ends |
| `MemoryMove.MemMove` | Core/Kernel/Sources/Runtime/String.cpp:48-115 | for every overlap, alignment and length the destination is the source's old bytes and nothing else changes |
| `MemoryMove.OverlapExact` | Core/Kernel/Sources/Runtime/String.cpp:120-140 | ranges count as overlapping exactly when they differ and share a byte |
| `MemoryMove.MemCpy` | Core/Kernel/Sources/Runtime/String.cpp:120-170 | the same, except that it panics and writes nothing exactly when non-empty ranges overlap |
| `MemoryMove.MemSet` | Core/Kernel/Sources/Runtime/String.cpp:18-28 | exactly the range is set, to the low byte of the value |
| `WireFormat.LayoutDisjoint` | tools/idlc/src/CodeGenerator+Serialization.cpp:298-344 | scalar slots lie before the blob region, blobs in it, none overlaps another, the last ends at bytesFor |
| `WireFormat.SerializeLaysOut` | tools/idlc/src/CodeGenerator+Serialization.cpp:381-418 | serialize stays in its buffer if and only if the buffer has the bytes needed; then every argument is in place and every other byte untouched |
| `WireBytes.SerializedBytes` | tools/idlc/src/CodeGenerator+Serialization.cpp:381-418 | byte by byte: scalars without gaps in argument order, for a blob its offset and length, four bytes each with the lowest first, and its data behind that of the blobs before it, from the next multiple of eight on |
| `WireBytes.BlobsStart` | tools/idlc/src/CodeGenerator+Serialization.cpp:330-344 | the blob region starts at the next multiple of eight behind the scalars |
| `WireFormat.BytesForEnough` | tools/idlc/src/CodeGenerator+Serialization.cpp:361-375 | bytesFor is always enough, and exactly enough when the last argument is a blob |
| `WireFormat.MessageRoundTrip` | tools/idlc/src/CodeGenerator+Serialization.cpp:361-464 | for every argument list and all values that fit 32-bit offsets, deserialize of serialize, whatever the buffer held and whatever trails, gives back the values; a void argument makes it fail |
| `WireBytes.DeserializedBytes` | tools/idlc/src/CodeGenerator+Serialization.cpp:424-464 | whatever deserialize accepts holds all arguments: each value is what its bytes, or the bytes its offset and length name, decode to |
| `WireBytes.TooShort` | tools/idlc/src/CodeGenerator+Serialization.cpp:424-430 | an input shorter than the scalars is refused |
| `WireFormat.ReadsPastExact` | tools/idlc/src/CodeGenerator+Serialization.cpp:424-464 | for every argument list and input, deserialize reads past the end if and only if the input holds the scalars but not their padding, or its first argument that does not decode is a blob whose offset and length lead outside |
| `WireFormat.WildPointer` | tools/idlc/src/CodeGenerator+Serialization.cpp:440-450 | one blob, said to be eight bytes at offset 1000 of eight, is such an input |
| `WireFormat.BytesForMessage` | tools/idlc/src/CodeGenerator+Serialization.cpp:361-375 | the emitted sum |
| `WireFormat.LayOut` | tools/idlc/src/CodeGenerator+Serialization.cpp:298-344 | the running sum yields the specified sizes, offsets and blob start |
| `WireFormat.Serialize` | tools/idlc/src/CodeGenerator+Serialization.cpp:381-418 | the emitted loop in place refines the specification and never leaves its span |
| `WireFormat.DeserializeMessage` | tools/idlc/src/CodeGenerator+Serialization.cpp:424-464 | the emitted loop returns exactly the specified values or the failure |
| `RemoteCalls.FindsMethod` | tools/idlc/src/CodeGenerator+Server.cpp:266-277 | with distinct identifiers the switch reaches exactly the method |
| `RemoteCalls.RequestUnderstood` | tools/idlc/src/CodeGenerator+Server.cpp:251-413 | a request is understood as exactly the call it was made from, with its tag |
| `RemoteCalls.ReplyUnderstood` | tools/idlc/src/CodeGenerator+Client.cpp:335-372 | a reply passes the client's tag and type checks and gives exactly its values |
| `WireBytes.HeaderBytes` | tools/idlc/src/CodeGenerator+Client.cpp:227-244 | eight bytes of type, four of flags, four of tag, lowest first |
| `WireBytes.MessageBytes` | tools/idlc/src/CodeGenerator+Serialization.cpp:381-418 | behind the sixteen bytes of the header the arguments stand in their places |
| `WireBytes.CallBytes` | tools/idlc/src/CodeGenerator+Server.cpp:336-413 | a request carries flag 1, its reply flag 2 and the same type and tag |
| `WireBytes.ServesOnlyItsMethods` | tools/idlc/src/CodeGenerator+Server.cpp:251-278 | the server takes a message for a method only by the type in it, and ignores it exactly if it is that of no method |
| `WireBytes.AcceptsOnlyItsReply` | tools/idlc/src/CodeGenerator+Client.cpp:335-372 | the client takes a message exactly if type and tag are those it sent and the payload deserializes |
| `RemoteCalls.VoidNeverServed` | tools/idlc/src/CodeGenerator+Server.cpp:336-413 | a request is rejected if and only if its method has a void parameter |
| `RemoteCalls.NoErrors` | tools/idlc/src/CodeGenerator+Server.cpp:251-413 | in every reachable state no check fails: pending requests are served, the waiting caller's reply is accepted, and one of the two is there |
| `RemoteCalls.BrokenExact` | tools/idlc/src/CodeGenerator+Server.cpp:251-278 | the server reads past a message if and only if its type is that of a method and its payload is such an input |
| `RemoteCalls.CallsAreTransparent` | tools/idlc/src/CodeGenerator+Client.cpp:282-372 | in every interleaving of calls, server steps and replies callers got exactly the results of direct calls in order, and the implementation ends in the state direct calls leave |
| `RpcStubs.Transmitter.EnsureTxBuf` | tools/idlc/src/CodeGenerator+Client.cpp:247-257 | afterwards the buffer holds header and payload with the slack |
| `RpcStubs.Transmitter.Build` | tools/idlc/src/CodeGenerator+Client.cpp:227-244 | header and payload written within the buffer are a well-formed message |
| `RpcStubs.Client.Call` | tools/idlc/src/CodeGenerator+Client.cpp:282-326 | one request appended, carrying exactly the call and the next tag modulo 2^32 |
| `RpcStubs.Client.AwaitReply` | tools/idlc/src/CodeGenerator+Client.cpp:335-372 | takes one reply; the values, or nothing exactly when a check fails |
| `RpcStubs.Server.RunOne` | tools/idlc/src/CodeGenerator+Server.cpp:251-278 | consumes one message and does exactly what its dispatch says |
| `RpcStubs.Server.Marshall` | tools/idlc/src/CodeGenerator+Server.cpp:336-413 | unmarshal, invoke, and reply with the request's tag and type unless the method is asynchronous |
| `RpcStubs.RemoteCall` | tools/idlc/src/CodeGenerator+Client.cpp:282-372 | one synchronous call through both stubs returns what the implementation returns and leaves its state and idle queues |
| `MurmurHash.TimesBijective` | tools/idlc/src/util/MurmurHash2.cpp:96-118 | the multiplication has an explicit inverse |
| `MurmurHash.ShiftedInvolution` | tools/idlc/src/util/MurmurHash2.cpp:96-118 | the xor-shift is its own inverse |
| `MurmurHash.MixBijective` | tools/idlc/src/util/MurmurHash2.cpp:104-118 | block mixing has an inverse |
| `MurmurHash.AbsorbInjective` | tools/idlc/src/util/MurmurHash2.cpp:104-118 | absorbing a block is injective in the hash and in the block |
| `MurmurHash.FoldTailIs` | tools/idlc/src/util/MurmurHash2.cpp:120-130 | the fall-through switch folds the tail in as one little-endian number |
| `MurmurHash.OneBlockNeverCollides` | tools/idlc/src/util/MurmurHash2.cpp:96-137 | equal-length keys that differ in exactly one block never collide |
| `MurmurHash.TailNeverCollides` | tools/idlc/src/util/MurmurHash2.cpp:96-137 | equal-length keys that differ only in the tail never collide |
| `MurmurHash.ShortNamesDistinct` | tools/idlc/src/InterfaceDescription.cpp:62-77 | method names of one length up to 8 have equal identifiers if and only if they are equal |
| `MurmurHash.MurmurHash64A` | tools/idlc/src/util/MurmurHash2.cpp:96-137 | the loop and switch compute the specified composition |
| `HashReference.HashIsReference` | tools/idlc/src/util/MurmurHash2.cpp:96-137 | the hash is the published algorithm from the front, constants and shifts written out |
| `StringToLong.ClassesAreRanges` | Core/Kernel/Platforms/x86_64/pc-uefi.platform/Sources/Util/String.h:17-47 | the subtract-and-compare tests are the intended character ranges, for signed and unsigned reads |
| `StringToLong.CutoffExact` | Core/Kernel/Platforms/x86_64/pc-uefi.platform/Sources/Util/String.h:110-150 | the cutoff test holds exactly when one more digit would leave the range |
| `StringToLong.Digits` | Core/Kernel/Platforms/x86_64/pc-uefi.platform/Sources/Util/String.h:120-178 | the digit loop: clamped signed value of the longest digit prefix, endptr just past it |
| `StringToLong.StrToL` | Core/Kernel/Platforms/x86_64/pc-uefi.platform/Sources/Util/String.h:72-178 | for every string and base: that value and endptr, or nothing converted for a bad base; no intermediate overflow |
| `WrittenNumbers.WrittenReadsBack` | Core/Kernel/Platforms/x86_64/pc-uefi.platform/Sources/Util/String.h:72-178 | every text of white space, sign, mark, digits and rest converts to the number its digits denote, cut to the range, or to nothing when it has none |
| `WrittenNumbers.EveryStringIsWritten` | Core/Kernel/Platforms/x86_64/pc-uefi.platform/Sources/Util/String.h:72-178 | every string is such a text, so this settles the result for all of them |
| `WrittenNumbers.RenderReadsBack` | Core/Kernel/Platforms/x86_64/pc-uefi.platform/Sources/Util/String.h:72-178 | any number in any base, written in any mixture of cases, with either sign or none, behind white space, plainly or behind 0x, 0X or 0 where the base allows, reads back as itself cut to the 64-bit range, and endptr ends behind it |
| `TextScreen.SgrLoopIs` | Core/Kernel/Platforms/Shared/FbCons/Sources/Console.cpp:173-250 | the buffered character loop is a fold over the semicolon-separated parameters, defined exactly when each has at most seven characters, or eight of which one is no digit |
| `TerminalText.AttributeColours` | Core/Kernel/Platforms/Shared/FbCons/Sources/Console.cpp:210-250 | one attribute by its number: 30+k and 90+k set the foreground to k and k+8, 40+k and 100+k the background, nothing and a single zero go back to 15 on 0, all others change nothing |
| `TerminalText.SelectsColours` | Core/Kernel/Platforms/Shared/FbCons/Sources/Console.cpp:173-250 | ESC [ attributes m leaves the colours of its attributes in order and changes nothing else |
| `TerminalText.ColouredCharacter` | Core/Kernel/Platforms/Shared/FbCons/Sources/Console.cpp:84-137 | a character behind such a sequence: exactly the cell at the cursor changes, to its glyph in those palette colours |
| `TerminalText.MovesCursor` | Core/Kernel/Platforms/Shared/FbCons/Sources/Console.cpp:258-287 | ESC [ row ; column H puts the cursor there, counted from one |
| `TerminalText.SwallowsOthers` | Core/Kernel/Platforms/Shared/FbCons/Sources/Console.cpp:106-116 | ESC and any character but [ are swallowed |
| `TerminalText.GivesUp` | Core/Kernel/Platforms/Shared/FbCons/Sources/Console.cpp:126-137 | after 32 characters without a final byte the sequence is given up |
| `TerminalText.WrapsLine` | Core/Kernel/Platforms/Shared/FbCons/Sources/Console.cpp:299-312 | a character in the last column is drawn and followed by a line break |
| `TerminalText.BreaksLine` | Core/Kernel/Platforms/Shared/FbCons/Sources/Console.cpp:359-388 | a line break goes to the next row, or moves everything up by five rows and leaves five blank ones |
| `TextScreen.CupLoopIs` | Core/Kernel/Platforms/Shared/FbCons/Sources/Console.cpp:258-287 | likewise for cursor positioning |
| `TextScreen.CupAllIs` | Core/Kernel/Platforms/Shared/FbCons/Sources/Console.cpp:258-287 | of the fold only the last row and the last column parameter matter; a coordinate without one is left as it was |
| `TextScreen.WriteKeeps` | Core/Kernel/Platforms/Shared/FbCons/Sources/Console.cpp:84-166 | a write that is defined keeps the escape buffer within its 32 bytes and the size of the grid; only a positioning sequence can take the cursor out of the grid, and only drawing there spoils the picture; only a scroll of more than ten rows can panic |
| `TextScreen.NeverReturns` | Core/Kernel/Platforms/Shared/FbCons/Sources/Console.cpp:137-166 | shown on this console, the warning about an unknown sequence is itself one more unknown final byte: each nested write adds a byte until the buffer is full and the next goes past its end |
| `TextScreen.UnknownSequence` | Core/Kernel/Platforms/Shared/FbCons/Sources/Console.cpp:158-161 | ESC [ J, like any unknown sequence, is lost that way if and only if warnings are shown on this console; otherwise it is skipped |
| `TextScreen.FullBuffer` | Core/Kernel/Platforms/Shared/FbCons/Sources/Console.cpp:158-161 | an unknown sequence of 32 bytes without a NUL is read past its end unless warnings are filtered out |
| `TextScreen.UndefinedExact` | Core/Kernel/Platforms/Shared/FbCons/Sources/Console.cpp:84-388 | a character is undefined if and only if it is drawn where its pixels leave the memory, scrolls fewer than five rows, ends a sequence with a parameter of nine characters or more or of eight digits, or ends an unknown one whose warning comes back to this console or reads past the full buffer |
| `TextScreen.CursorExact` | Core/Kernel/Platforms/Shared/FbCons/Sources/Console.cpp:258-287 | after a positioning sequence the cursor is in the grid if and only if the last row parameter is at most the rows and the last column parameter, if any, at most the columns |
| `TextScreen.EightDigits` | Core/Kernel/Platforms/Shared/FbCons/Sources/Console.cpp:175-198 | eight digits are an input that is read past its bytes |
| `TextScreen.EndsInColon` | Core/Kernel/Platforms/Shared/FbCons/Sources/Console.cpp:175-198 | seven digits and a colon are not: the colours stay |
| `TextScreen.BeyondTheRows` | Core/Kernel/Platforms/Shared/FbCons/Sources/Console.cpp:258-287 | row 9999 is outside every grid with fewer rows |
| `TextScreen.TextExact` | Core/Kernel/Platforms/Shared/FbCons/Sources/Console.cpp:64-137 | a string is undefined if and only if one of its characters finds that condition not met |
| `TextScreen.RunKeeps` | Core/Kernel/Platforms/Shared/FbCons/Sources/Console.cpp:64-137 | on at least five rows, a string with readable parameters, unknown sequences only where they can be warned about, and positioning sequences inside the grid is never undefined and leaves the cursor in the grid and the picture clean |
| `TextScreen.ScrollPanicsExact` | Core/Kernel/Platforms/Shared/FbCons/Sources/Console.cpp:359-388 | a line break on the last row panics in the overlap check if and only if there are more than ten rows |
| `FramebufferConsole.DrawRenders` | Core/Kernel/Platforms/Shared/FbCons/Sources/Console.cpp:323-352 | the pixel loops show the grid with exactly that cell replaced |
| `FramebufferConsole.PixelShown` | Core/Kernel/Platforms/Shared/FbCons/Sources/Console.cpp:323-352 | a pixel has the foreground colour exactly where its bit of the glyph is set; where that bit is, in fonts of any width |
| `FramebufferConsole.ScrollRenders` | Core/Kernel/Platforms/Shared/FbCons/Sources/Console.cpp:359-388 | the moved and cleared pixels show the grid scrolled by five rows |
| `FramebufferConsole.ClearRenders` | Core/Kernel/Platforms/Shared/FbCons/Sources/Console.cpp:407-421 | the cleared framebuffer shows an empty grid |
| `FramebufferConsole.ScrollCopyOverlaps` | Core/Kernel/Platforms/Shared/FbCons/Sources/Console.cpp:359-388 | in bytes the scroll's source and destination overlap if and only if there are more than ten rows |
| `ConsoleObject.Painter.constructor` | Core/Kernel/Platforms/Shared/FbCons/Sources/Console.cpp:35-56 | the stride, tightly packed when none is given |
| `ConsoleObject.CellInMemory` | Core/Kernel/Platforms/Shared/FbCons/Sources/Console.cpp:323-352 | a character can be drawn at any position, in the grid or not, exactly when its last pixel is in memory |
| `ConsoleObject.Painter.DrawChar` | Core/Kernel/Platforms/Shared/FbCons/Sources/Console.cpp:323-352 | stepping by pixels and strides through linear memory, every write in bounds wherever that is so; of the rows of the grid, exactly the cell's pixels change |
| `ConsoleObject.Painter.Scroll` | Core/Kernel/Platforms/Shared/FbCons/Sources/Console.cpp:359-388 | the move and the clearing, exactly |
| `ConsoleObject.Console.constructor` | Core/Kernel/Platforms/Shared/FbCons/Sources/Console.cpp:35-56 | grid size from the framebuffer and font whatever it comes to, empty screen, cursor home |
| `ConsoleObject.Console.Clear` | Core/Kernel/Platforms/Shared/FbCons/Sources/Console.cpp:407-421 | clears the grid it shows |
| `ConsoleObject.Console.NewLine` | Core/Kernel/Platforms/Shared/FbCons/Sources/Console.cpp:359-388 | refines the grid step; the framebuffer shows it |
| `ConsoleObject.Console.Print` | Core/Kernel/Platforms/Shared/FbCons/Sources/Console.cpp:299-312 | refines the grid step wherever the character can be drawn; the framebuffer shows the grid as long as every one was drawn inside it |
| `ConsoleObject.Console.ProcessSgr` | Core/Kernel/Platforms/Shared/FbCons/Sources/Console.cpp:173-250 | the loop over the buffer in place refines the specified fold |
| `ConsoleObject.Console.ProcessCup` | Core/Kernel/Platforms/Shared/FbCons/Sources/Console.cpp:258-287 | likewise for the cursor |
| `ConsoleObject.Console.Write` | Core/Kernel/Platforms/Shared/FbCons/Sources/Console.cpp:84-137 | one character that is defined: the object is the abstract terminal after it, and while the picture is clean the framebuffer shows its grid |
| `ConsoleObject.WriteAll` | Core/Kernel/Platforms/Shared/FbCons/Sources/Console.cpp:64-74 | the same for every string none of whose characters is undefined, panics included |
| `IdlBuilder.NeverVoid` | tools/idlc/src/InterfaceDescription.cpp:20-42 | void is no builtin type, so the round trip's condition holds of every argument the builder makes |
| `IdlBuilder.RunConcat` | tools/idlc/src/InterfaceDescriptionBuilderActions.h:12-129 | running fired actions in sequence composes |
| `IdlBuilder.ApplyGood` | tools/idlc/src/InterfaceDescriptionBuilder.cpp:48-243 | every action keeps the counts of custom types, the distinctness of method names, and that none starts with an underscore |
| `IdlBuilder.SecondKeyThrows` | tools/idlc/src/InterfaceDescriptionBuilder.cpp:222-236 | a second decorator with the same key ends the parse, whatever stands between, unless the method has ended |
| `IdlReadBack.BadIdentifierThrows` | tools/idlc/src/InterfaceDescriptionBuilder.cpp:97-113 | a method ends in an exception exactly when it has an identifier decorator that is no number below 2^64 in decimal, octal or hexadecimal |
| `IdlParsing.MethodSafe` | tools/idlc/src/IDLGrammar.h:96-101 | the actions a method rule fires, those before a rewind included, trip no assert except for an empty decorator value; a match leads back between methods |
| `IdlParsing.InterfaceSafe` | tools/idlc/src/IDLGrammar.h:112-112 | likewise for an interface |
| `IdlParsing.TripsExactly` | tools/idlc/src/IDLGrammar.h:16-116 | for every input an assert fails if and only if a decorator group with an empty value is closed before any exception |
| `IdlParsing.AcceptedIsClosed` | tools/idlc/src/InterfaceDescriptionBuilder.cpp:48-236 | every accepted input ends with nothing open, custom types counted exactly, and distinct method names per interface, none behind an underscore |
| `IdlReading.AcceptsWritten` | tools/idlc/src/IDLGrammar.h:16-116 | every well-formed file, any white space and comments included, is accepted, and its pieces fire exactly their actions in order |
| `IdlReading.NoHashComments` | tools/idlc/src/IDLGrammar.h:31-44 | a line that starts with a number sign and is no include fails the parse |
| `IdlReadBack.BuiltinIs` | tools/idlc/src/InterfaceDescription.cpp:20-42 | the builtin types are thirteen names in any mixture of cases |
| `IdlReadBack.WireTypeIs` | tools/idlc/src/CodeGenerator+Serialization.cpp:22-48 | the size of each on the wire |
| `IdlReadBack.ReadsBack` | tools/idlc/src/InterfaceDescriptionBuilder.cpp:48-243 | every well-formed file with sound methods builds exactly the interfaces and include paths that stand in it: names, methods in order, synchronous or not, parameters, results, identifiers, counts of custom types |
| `IdlAccepting.AcceptsExactly` | tools/idlc/src/IDLGrammar.h:16-116 | an input is accepted if and only if it is a well-formed file |
| `IdlExact.BuiltExactly` | tools/idlc/src/InterfaceDescriptionBuilder.cpp:48-243 | for every input: it is parsed and built without exception or failed assert if and only if it is a well-formed file whose methods are sound (public distinct names, decorators with values and distinct keys, numeric identifiers), and what comes out is exactly what stands in it |
| `IdlPrinting.EveryDescriptionReadsBack` | tools/idlc/src/InterfaceDescriptionBuilder.cpp:48-243 | every description has a written form that is read back as exactly that description |
| `IdlBuilderObject.Builder.BeginInterface` | tools/idlc/src/InterfaceDescriptionBuilder.cpp:48-52 | opens the interface, or trips exactly when one is open |
| `IdlBuilderObject.Builder.EndInterface` | tools/idlc/src/InterfaceDescriptionBuilder.cpp:57-62 | files the interface, or trips exactly when none is open |
| `IdlBuilderObject.Builder.BeginMethod` | tools/idlc/src/InterfaceDescriptionBuilder.cpp:67-83 | opens the method; duplicate names raise |
| `IdlBuilderObject.Builder.EndMethod` | tools/idlc/src/InterfaceDescriptionBuilder.cpp:97-113 | files the method with its decorators |
| `IdlBuilderObject.Builder.SetMethodAsync` | tools/idlc/src/InterfaceDescriptionBuilder.cpp:88-92 | marks the open method, or trips without one |
| `IdlBuilderObject.Builder.BeginArgs` | tools/idlc/src/InterfaceDescriptionBuilder.cpp:118-146 | opens parameters or results, or trips exactly when a list is open |
| `IdlBuilderObject.Builder.EndArgs` | tools/idlc/src/InterfaceDescriptionBuilder.cpp:128-157 | closes exactly the list that is open, or trips |
| `IdlBuilderObject.Builder.PushNextArg` | tools/idlc/src/InterfaceDescriptionBuilder.cpp:176-204 | moves the pending argument to the open list and counts custom types |
| `IdlBuilderObject.Builder.PushNextDecorator` | tools/idlc/src/InterfaceDescriptionBuilder.cpp:222-236 | adds the pending pair, or trips exactly when key or value is empty |
| `IdlBuilderObject.Builder.Act` | tools/idlc/src/InterfaceDescriptionBuilderActions.h:12-129 | each rule's action is the specified event on the builder state |

## Left out

- Start-up: the loader, GDT and IDT loading, processor features, and the mapping of the kernel image and of region bitmaps are not modelled; raw segments and the first page table are.
- Exceptions, panics, `printf`, backtraces, symbol lookup and logging are diagnostics; a failed `REQUIRE` is a halted result.
- `Map::remove`, entry lookup, fault handling, TLB shootdown and the teardown of page tables are unfinished in the source.
- One processor only: TLB claims do not extend to others.
- TlbCoherence.CpuStepKeeps: mapping over a page that is mapped, and unmapping ranges other than in VFree, are not steps; RemapExact says when the former keeps coherence.
- Hardware permission checks and user memory that aliases paging structures; writes go through the page table object.
- Physical memory is a map from frame to table; contents of other frames are not represented, nor is the zeroing of new zone objects, the zone magic value and stack or heap aliasing.
- Physical regions enter a pool once, before it is used; `Pool::addRegion` and the virtual mapping of bitmaps are not steps of a run.
- VirtualRuns.RunsAreSafe: runs free only live ranges with their own page count, and other table operations stay outside the allocator's window; the source trusts its callers in the same way.
- VirtualRuns.AllocKeeps: requests of more than 16 pages overrun a stack buffer in the source and are excluded; with the output pointer as written, so are requests no single region can serve, for which AllocOwnersExact shows that the invariant fails.
- PhysicalPool.Pool.Alloc: the object has the output pointer as written only; the advancing form is a value-level function.
- PageAllocatorObject.PageAllocator.Free: addresses for which a region has no bit, so that giving them back writes outside its bitmap, are excluded, as for PageAllocatorObject.PageAllocator.Alloc.
- ContiguousRegion.AddRefines: ranges longer than the 48-bit address space are excluded.
- Zones.AllocSpec: the address of a new region is a parameter required to be apart from the others; ZonePages discharges that for VAlloc.
- WireFormat.DeserializeMessage: inputs the emitted code reads past are excluded (also from AwaitReply, RunOne and Marshall); ReadsPastExact says which these are.
- WireFormat.MessageRoundTrip: codecs of custom types are arbitrary functions assumed to round-trip; messages of 4 GB and more are outside the format.
- RpcStubs.Server.RunOne: the transport is a lossless queue; receive and reply errors and blocking are not modelled. After a reported error the emitted code carries on as its handler returns; the model gives no result there.
- ConsoleObject.Console.Write: the font is an arbitrary glyph table and the palette sixteen arbitrary values; the text of a warning that is shown elsewhere, and what the panic path prints, are not modelled.
- ConsoleObject.WriteAll: characters that are undefined are excluded; UndefinedExact says which these are. After a character has been drawn outside the grid, cursor, colours and escape state are still exact, but the picture is not described.
- ConsoleObject.Painter.DrawChar: the framebuffer is linear memory in whole pixels; strides that are not a multiple of four bytes are not modelled.
- Emission of C++ text by the generator: names, headers, guards; the layout and the emitted algorithms are modelled.
- IdlParsing.TripsExactly: the PEG library is taken at its documented semantics (ordered choice, greedy repetition, `must` as global failure, actions on rule success); messages and positions are not modelled.
- File reading, the command line, `Builder::finalize` and the reuse of a builder for several files.
- `strncpy`, `strncmp`, reference counting and flag operators would only add easy members.
