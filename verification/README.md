# The kernel's memory, file-system and printf core in Dafny

A Dafny model of a small x86-64 kernel's memory stack (page bitmap, physical page
allocator, 4-level page tables, slab allocator), its spinlocks, its path resolver with
mounts and tmpfs, and the integer, character and string part of its printf. Code that
changes memory step by step is written as methods that change arrays and fields in place,
each proved equal to a function on values; the theorems are about those functions, over
all inputs, all runs and all interleavings.

| file | what it models |
|---|---|
| `Basics.dfy` | machine words, `Option`, sequences with an element taken out, small arithmetic |
| `Bitmap.dfy` | the packed bit set: single bits of 64-bit words (`Bits`), the set as a sequence of booleans (`BitSeq`), the in-place bitmap (`Bitmaps`) |
| `Pmm.dfy` | ownership of pages over whole runs (`PageOwnership`), the boot memory map (`MemoryMap`), the allocator in place (`Pmm`) |
| `Memory.dfy` | physical memory as frames of 512 words (`Ram`) and as bytes (`Bytes`), and the index arithmetic and entry format of 4-level paging, section 4.5 of the Intel SDM, volume 3A (`Paging`) |
| `PageTables.dfy` | the tree of tables (`PageTables`) and what each call does to it and to the bitmap (`Mapping`) |
| `Irq.dfy` | interrupt vectors handed out by the same bitmap |
| `VmRuns.dfy` | whole runs of the page allocator and the page tables together |
| `Rights.dfy` | what the entries along a walk allow after any run, section 4.6 of the same manual |
| `Vmm.dfy` | vmm.c in place: walks and entry writes in an array of words |
| `LinkedList.dfy` | circular prev/next lists in memory words, and the sequence each one stands for |
| `SlabModel.dfy` | a slab cache as three lists of pages and a chain of free cells for each |
| `SlabLayout.dfy`, `SlabSteps.dfy` | how memory words represent that cache, and that each group of stores moves to the next one |
| `SlabMemory.dfy` | slabAllocSlab, slabAlloc and slabFree as functions of memory words alone |
| `SlabFrames.dfy` | which words those functions may change, and which a cache depends on |
| `Slab.dfy` | slab.c in place |
| `SlabRuns.dfy` | whole runs of any number of caches over one page allocator |
| `SlabHeap.dfy` | the same runs in one memory, with holders who store what they like in their objects |
| `SlabLaws.dfy` | where slabAlloc and slabFree put slabs, and how a cache fills its pages |
| `SlabDrift.dfy` | slabFree on any word of a slab: when it leaves a cache, and what follows when it does not |
| `Interleavings.dfy` | N CPUs inside pmmAlloc, pmmFree, slabAlloc and slabFree on any caches at once, bit by bit |
| `WalkInterleavings.dfy` | N CPUs inside vmmMap and vmmUnmap at once, while others take, fill and give back pages |
| `Solo.dfy`, `SoloWalk.dfy` | one CPU left alone in those machines: it does what the sequential call does, and is done |
| `Locks.dfy` | N CPUs taking nested spinlocks: exclusion and freedom from deadlock |
| `VfsModel.dfy`, `VfsChanges.dfy` | the meaning of a path, and what creating and mounting do to it |
| `FileMemory.dfy` | the bytes of files in their pages of memory |
| `Vfs.dfy` | vfs.c and tmpfs.c in place |
| `VfsOps.dfy` | vfsops.c: the calls by path, and what creating, writing and reading add up to |
| `FileRuns.dfy` | whole runs of files beside page tables, allocations and other holders' stores |
| `PrintfSpec.dfy`, `Printf.dfy` | the untruncated output as a string, and the loops that write it into a bounded buffer |
| `PrintfTheorems.dfy` | what integer fields mean to a reader of them |
| `PrintfStandard.dfy` | the integer field that section 7.21.6.1 of C11 asks for, and exactly when it is written |
| `PrintfFormats.dfy` | what a format string asks for, character by character, and what each specifier writes |

The layers use one another: the page tables and files take frames from the page allocator of
`Pmm.dfy`, which searches the bitmap of `Bitmap.dfy`; slabs take their pages from the same
allocator and link them with `LinkedList.dfy`.

## Where the code and its promise part

The code is modelled as it is. Each of these has a concrete counterexample, an exact
condition, or both.

- slabAlloc returns the cell plus one word, slabFree links the address it is given. slabFree
  on a word of a slab leaves memory that holds a cache if and only if that word is the link
  of a live cell (`FreeableIff`): the pointer slabAlloc returned never is. Given that pointer,
  the next slabAlloc that turns to this slab returns it plus one word, and for objects of
  every size the last word of what is handed out is the next cell's link, or lies behind the
  last cell (`LiteralFreeDrifts`). Freeing a cell that is free already leaves no cache either
  (`DoubleFree`).
- slabInitCache rounds sizes near 2^64 around to 0 or 8 bytes: eight sizes divide by 0 and seven
  pass with cells that hold no object (`CellBytesOfSizes`). Cells that hold the object result if
  and only if the size is at most 4048 (`UsableSizes`, `HugeSizesSlipThrough`).
- bitmapFind's 0 means both "none" and position 0. A request's panic tells the truth if and only
  if no free run of that length starts at page 0 (`ReportIsRightIff`), and the panics for all
  lengths do if and only if bit 0 is set (`ReportsAreRightIff`); `PageZeroIsMistakenForFailure`
  is an instance.
- irqAllocVector takes that 0 for a position. Of n calls each gets an unused vector of its own
  if and only if at least n are free; every later one gets vector 32, which is in use
  (`VectorsAreFreshIff`, `VectorsAreFreshWhileTheyLast`, `AfterInit`).
- pmmInit sizes the bitmap by the last usable entry in list order. On page-aligned entries
  its bounds hold if and only if no usable entry ends higher than that one
  (`AssertionsHoldIff`); `UnsortedMapsTripTheBound` is a map on which they fail.
- pmmInit reserves whole pages from the one the bitmap begins in. No page with a byte of the
  bitmap is left free if and only if the bytes stay within those pages, or no released entry
  covers the next one (`BitmapIsSafeIff`); `OverlapsHandOutTheBitmap` is a map on which pmmAlloc
  gives part of the bitmap away.
- vmmWalk gives a new table the flags of the mapping that made it and never changes them, so
  a page can allow less than its mapping asked for. It allows a right if and only if its own
  latest mapping asked for it and so did the first mapping through each slot on its path
  (`RightsOfEveryRun`, `RightsAsAskedIff`); `LaterPageIsNotWritable` is an instance.
- vmmMap's flags are an int. Entries keep the address of every frame if and only if the flags
  are below 4096 (`SafeFlagsIff`).
- vmmUnmap reads through a null table if and only if one of the two upper tables for the page
  is missing (`UnmapChangesOnePage`), as on an empty root (`UnmapOnEmptyRoot`).
- vfsLookup stops advancing on a component longer than 63 characters: it never returns if
  and only if it gets as far as such a component (`ScanStopsAdvancing`); 64 letters will do
  (`LongNameNeverReturns`).
- vfsDoMounts mounts a file system of unknown type on /dev, which leaves the mount's root
  null: after start-up /dev resolves to nothing (`DevIsLostAtBoot`, `UnknownTypeHidesPath`).
- A mount is seen if and only if the node its path leads to is not the root of another mount;
  otherwise every path leads where it did (`MountIsSeenIff`, `MountOnRootIsUnseen`).
  `SecondRootMountIsNotSeen` is the case of "/".
- tmpfs refuses a transfer that ends at the file's last byte, so that byte cannot be written
  (`LastByteStays`); an empty transfer reaches memcpy's assertion if and only if it is inside
  the file; a position and size that wrap to a small sum pass the check
  (`RefusedExactlyAtTheEnd`, with instances in `RefusedInstances`).
- A name of 32 or more characters keeps 32 of them and whatever the name buffer's last byte
  held before. A created name is found if and only if it has at most 31 characters or ends
  in just what was there (`CreateThenLookup`).
- With '#', printf drops digits when their number equals the width or the precision, and has
  no room for the whole prefix of base 2 or 16 beside 31 digits. In bases 2, 8 and 16 the field
  still reads as its value if and only if only filled-in zeros were dropped and the prefix is
  whole or absent (`HashReadsBackIff`); `HashCanEatTheNumber` is an instance.
- Without '#', an integer field is what C11 asks for if and only if sign and precision fit 32
  characters and so does a zero-padded width, or, with '-', the precision asks for no more than
  the digits there are, since '-' hides the rest; or else the sign that is lost is a blank beside
  other blanks (`NtoaIsStandardIff`). With '#' it is under the conditions of `HashIsStandard`.
- A 32-character digit buffer has no room for the sign of a 32-digit field (`NtoaReadsBack`,
  `DigitsLeaveRoomIff`), as in `SignIsLost`, and holds only the low 32 bits in base 2
  (`BinaryFieldReadsBack`). d and i fields read back as their number if and only if it is not
  negative or the sign finds room (`IntFieldReadsBack`). A field is as long as its width,
  precision and sign ask for under an exact condition on them (`NtoaLengthIff`).

## Model

| member | source | states |
|---|---|---|
| Bits.PutThenTest | kernel/src/util/datastructures/bitmap.c:29-41 | Setting or clearing one bit of a 64-bit word with the shifted mask changes the test of exactly that bit |
| BitSeq.FirstFitFromIsLeast | kernel/src/util/datastructures/bitmap.c:63-82 | First fit is the least free run of the length at or after a position, and "none" means there is no such run at all |
| Bitmaps.CalculateSize | kernel/src/util/datastructures/bitmap.c:84-86 | The least whole number of 8-byte words with room for all bits |
| Bitmaps.Bitmap.constructor | kernel/src/util/datastructures/bitmap.c:10-23 | A new bitmap has every bit clear |
| Bitmaps.Bitmap.Set | kernel/src/util/datastructures/bitmap.c:25-34 | Exactly one position of the set changes, across all words |
| Bitmaps.Bitmap.Check | kernel/src/util/datastructures/bitmap.c:36-41 | Returns that position's membership |
| Bitmaps.Bitmap.FillAll | kernel/src/util/datastructures/bitmap.c:43-51 | Every position gets the value |
| Bitmaps.Bitmap.Fill | kernel/src/util/datastructures/bitmap.c:53-61 | Exactly the positions of the half-open range get the value |
| Bitmaps.Bitmap.Find | kernel/src/util/datastructures/bitmap.c:63-82 | The single-pass search returns the least free run, or 0 when there is none |
| Irq.AllocVector | kernel/src/driver/irq.c:20-26 | The vector is 32 plus the first unused position, or 32 when there is none, and that position is marked |
| Irq.VectorsAreFreshWhileTheyLast | kernel/src/driver/irq.c:20-26 | Of n calls, as many as positions were free get different unused ones, and every later call gets position 0 |
| Irq.VectorsAreFreshIff | kernel/src/driver/irq.c:20-26 | n calls all get different unused vectors if and only if at least n were free |
| Irq.AfterInit | kernel/src/driver/irq.c:10-42 | After irqInit 223 vectors are free, and any call past that many gets vector 32, as the first one did |
| PageOwnership.PanicsOnlyWhenFull | kernel/src/mem/pmm.c:28-33 | With page 0 reserved, allocation panics if and only if no run of that length is free |
| PageOwnership.ReportIsRightIff | kernel/src/mem/pmm.c:28-33 | For any set and any positive length: the allocator panics exactly when no run is free, if and only if no free run of that length starts at page 0 |
| PageOwnership.ReportsAreRightIff | kernel/src/mem/pmm.c:28-33 | Over all lengths at once that is so if and only if bit 0 is set |
| PageOwnership.PageZeroIsMistakenForFailure | kernel/src/mem/pmm.c:28-33 | An instance: position 0 free, a free run there, and the allocator panics |
| PageOwnership.EveryRunKeepsOwned | kernel/src/mem/pmm.c:23-60 | After any run of allocations and frees of live ranges: live ranges are pairwise disjoint, the set is exactly reserved or live, no page is lost |
| PageOwnership.FreeUndoesAlloc | kernel/src/mem/pmm.c:23-60 | Freeing what was just allocated restores the state exactly |
| MemoryMap.HomeIffRoom | kernel/src/mem/pmm.c:84-98 | A place for the bitmap is found if and only if some usable entry not at address 0 is long enough |
| MemoryMap.HomeIsFirst | kernel/src/mem/pmm.c:84-94 | The bitmap's home is the base of the first entry in list order that is usable, not at 0 and long enough |
| MemoryMap.LastEndIsLast | kernel/src/mem/pmm.c:72-80 | The bitmap is sized by the end, modulo 2^64, of the last usable entry in list order |
| MemoryMap.BitmapIsLargeEnough | kernel/src/mem/pmm.c:82 | Its size is a multiple of 8 bytes with a bit for every page below that end and not a word too many |
| MemoryMap.BitmapPagesHoldBytes | kernel/src/mem/pmm.c:116-122 | The pages reserved for the bitmap are exactly those that hold one of its bytes, counted from the start of the page it begins in |
| MemoryMap.StartsFreeIff | kernel/src/mem/pmm.c:102-124 | A page is left free if and only if it is not page 0, lies wholly in a usable entry that begins on a page boundary, and holds no such byte |
| MemoryMap.BitmapIsSafeIff | kernel/src/mem/pmm.c:84-124 | No byte of the bitmap lies in a page left free if and only if the bytes do not run over the pages counted, or no released entry covers the page they run into |
| MemoryMap.AssertionsHoldIff | kernel/src/mem/pmm.c:75-124 | On page-aligned entries with a home for the bitmap, every bound asserted on the way holds if and only if no usable entry ends higher than the last one in list order |
| MemoryMap.WellFormedMapsTripNothing | kernel/src/mem/pmm.c:75-124 | So none trips on a sorted, non-overlapping, page-aligned map |
| MemoryMap.UnsortedMapsTripTheBound | kernel/src/mem/pmm.c:75-114 | A two-entry map in descending order on which a bound fails |
| Pmm.PageAllocator.Alloc | kernel/src/mem/pmm.c:23-39 | The in-place allocator hands out what first fit on the set says, marks exactly that, and changes nothing when it panics |
| Pmm.PageAllocator.Free | kernel/src/mem/pmm.c:50-60 | Clears exactly the range's pages |
| Pmm.PageAllocator.Init | kernel/src/mem/pmm.c:62-125 | For any map or none: when it panics, when an assertion trips, and otherwise, in bytes and without the model's own page count, which pages are free |
| Pmm.LivePagesAreUsable | kernel/src/mem/pmm.c:23-125 | After start-up and any run, no live range contains page 0, a page outside usable memory, or a page reserved for a byte of the bitmap; where the bitmap is safe, none that holds a byte of it |
| Pmm.WellFormedMapsAreSafe | kernel/src/mem/pmm.c:84-124 | On a page-aligned, sorted, non-overlapping map the bitmap is safe |
| Pmm.OverlapsHandOutTheBitmap | kernel/src/mem/pmm.c:84-124 | Two overlapping entries for which a page with bytes of the bitmap is left free |
| Paging.IndicesOfAddress | kernel/src/include/paging.h:22-25 | The four index macros are the four base-512 digits of the page number |
| Paging.IndicesAreInjective | kernel/src/include/paging.h:22-25 | Two addresses have the same four indices if and only if they lie in the same 48-bit page |
| Paging.AddressFromIndices | kernel/src/include/paging.h:22-26 | The low 48 bits of an address are its four indices times 2^39, 2^30, 2^21 and 2^12, and its offset |
| Paging.FrameOfPte | kernel/src/include/paging.h:27 | Masking an entry gives back the frame stored in it, and a stored entry is never 0 |
| Paging.PteFields | kernel/src/include/paging.h:5-27 | An entry's low 12 bits are the flags with the present bit, its other bits 12 to 61 those of the address |
| Paging.PteBitsAreASum | kernel/src/include/paging.h:5-27 | On 64-bit words, for flags below bit 12 the macro is the sum of address field, flags and present bit, and the address field what is left of the address without its low bits |
| Paging.AddressSurvivesFlags | kernel/src/include/paging.h:5-27 | The address field survives if and only if the flags set no address bit that the frame lacks |
| Paging.SafeFlagsIff | kernel/src/include/paging.h:5-27 | Over all sign-extended int flags: the macro keeps the address of every frame if and only if the flags are below 4096 |
| PageTables.TranslateIsFourLoads | kernel/src/mem/vmm.c:22-54 | The translation that the theorems speak of is four loads from memory words, each at the next 9 bits of the address, stopping at an entry that is 0 |
| PageTables.WalkAfterLink | kernel/src/mem/vmm.c:37-50 | Linking a fresh zeroed table changes the walk of exactly the pages under that slot, at exactly that level |
| PageTables.LinkKeepsTree | kernel/src/mem/vmm.c:37-50 | After linking a fresh zeroed table the tables still form an unshared, acyclic tree with the new one in it |
| PageTables.LinkKeepsTranslations | kernel/src/mem/vmm.c:37-50 | Linking a fresh zeroed table changes no page's translation, so no spurious mapping appears |
| PageTables.LeafWriteChangesOnePage | kernel/src/mem/vmm.c:56-62 | A store in the last-level table of a page changes that page's entry and no other |
| PageTables.TablesAreNotShared | kernel/src/mem/vmm.c:22-54 | Two walks that reach the same frame reach it at the same level on the same path |
| Mapping.EmptyRootIsGood | kernel/src/mem/vmm.c:102-111 | A zeroed root table on a reserved frame is such a tree and translates nothing |
| Mapping.WalkGrows | kernel/src/mem/vmm.c:29-54 | The allocating walk adds at most three tables, keeps all translations, and ends at the page's last-level table or with memory exhausted |
| Mapping.WalkOnlyLooks | kernel/src/mem/vmm.c:29-54 | The walk without allocation changes nothing; it reads through a null table if and only if an upper table is missing |
| Mapping.MapChangesOnePage | kernel/src/mem/vmm.c:56-62 | Exactly the target page's entry becomes the new one; at most three new tables; other memory and filled upper entries unchanged |
| Mapping.UnmapChangesOnePage | kernel/src/mem/vmm.c:72-80 | Reads through a null table if and only if an upper table on the page's path is missing; otherwise exactly that page's entry becomes 0 and no frame changes hands |
| Mapping.UnmapOnEmptyRoot | kernel/src/mem/vmm.c:72-80 | An instance: on an empty root vmmUnmap of any page reads through a null table |
| Mapping.MapPagesChangesNPages | kernel/src/mem/vmm.c:64-70 | Exactly n consecutive pages, modulo the 48-bit space, get consecutive frames; all others keep theirs |
| Mapping.UnmapPagesChangesNPages | kernel/src/mem/vmm.c:82-88 | Exactly n consecutive pages become unmapped |
| Mapping.UnmapOfMappedPages | kernel/src/mem/vmm.c:82-88 | Unmapping pages that are all mapped never meets a null table |
| Mapping.UnmapUndoesMap | kernel/src/mem/vmm.c:64-88 | Mapping then unmapping pages that were unmapped restores every translation |
| VmRuns.EveryRunRefinesTheMap | kernel/src/mem/vmm.c:30-88 | Over any run of maps, unmaps, page allocations, frees and data stores: the 4-level walk of every page equals an abstract map, the tree stays unshared on used frames disjoint from all data, free plus live plus table pages are constant, and other memory changes only where its owner stored |
| VmRuns.CallsInAddresses | kernel/src/mem/vmm.c:56-88 | Every call of such a run in addresses: page virt + 4096 i gets frame phys + 4096 i, modulo 2^64, or loses its entry, for exactly the n pages given; no other call touches any page's entry |
| VmRuns.RunsFromEmptyRoot | kernel/src/mem/vmm.c:30-88 | From an empty root, after any run each page's last-level entry is what the calls made it |
| VmRuns.MapPanicsIff | kernel/src/mem/vmm.c:37-62 | vmmMap runs out of memory if and only if fewer pages are free than tables are missing on the page's path |
| VmRuns.TablesAreNotData | kernel/src/mem/vmm.c:37-50 | In every reachable state no data page is a table, and data pages are marked used |
| VmRuns.BootKeepsInv | kernel/src/mem/vmm.c:102-111 | Boot-loader tables on reserved frames are a starting state of those runs |
| Rights.UpperAfterMapPages | kernel/src/mem/vmm.c:37-70 | vmmMapPages fills exactly the missing upper entries on the paths of its pages, with its flags, and leaves every other upper entry alone |
| Rights.UpperOfRun | kernel/src/mem/vmm.c:30-88 | Over any run of calls and stores each upper entry is missing or carries the flags of the first mapping through its slot |
| Rights.RightsOfEveryRun | kernel/src/mem/vmm.c:30-88 | After any run from an empty root, every entry on a page's path grants a right if and only if the page's latest mapping asked for it and so did the first mapping through each slot above |
| Rights.RightsAsAskedIff | kernel/src/mem/vmm.c:37-62 | The rights are those the page's mapping asked for if and only if no first mapping above asked for less |
| Rights.LaterPageIsNotWritable | kernel/src/mem/vmm.c:37-62 | A page mapped writable below a table first made without that flag is not writable |
| Vmm.AddressSpace.ZeroAlloc | kernel/src/mem/pmm.c:41-48 | First-fit pages, as many as asked for, are marked used and exactly their words become 0; out of memory changes nothing |
| Vmm.AddressSpace.Walk | kernel/src/mem/vmm.c:29-54 | The three in-place steps equal the recursive walk; the result is the page's last-level table |
| Vmm.AddressSpace.Map | kernel/src/mem/vmm.c:56-62 | Memory and bitmap become exactly the specified ones; only the page's translation changes |
| Vmm.AddressSpace.MapPages | kernel/src/mem/vmm.c:64-70 | The loop maps exactly n consecutive pages |
| Vmm.AddressSpace.Unmap | kernel/src/mem/vmm.c:72-80 | Meets no null table if and only if the upper tables exist, and then clears only that page's translation |
| Vmm.AddressSpace.UnmapPages | kernel/src/mem/vmm.c:82-88 | The loop unmaps exactly n consecutive pages |
| LinkedList.InsertFrontRefinesSequence | kernel/src/util/datastructures/ll.c:11-21 | The four stores put the node in front of the sequence, forwards and backwards, and write no word outside the list's nodes |
| LinkedList.DeleteRefinesSequence | kernel/src/util/datastructures/ll.c:23-28 | The two stores remove exactly that node from the sequence, wherever it stands |
| LinkedList.InitHead | kernel/src/util/datastructures/ll.c:4-9 | Memory in place becomes the specified words, and the head stands for the empty list |
| LinkedList.InsertFront | kernel/src/util/datastructures/ll.c:11-21 | Memory in place becomes the specified words, also when the head is its own next |
| LinkedList.Delete | kernel/src/util/datastructures/ll.c:23-28 | Memory in place becomes the specified words, also for an only node |
| LinkedList.IsEmpty | kernel/src/util/datastructures/ll.c:30-34 | True if and only if the list stands for the empty sequence |
| SlabModel.GrowAddsNothingLive | kernel/src/mem/slab.c:13-40 | A new slab keeps every slab in exactly one list and makes no object live |
| SlabModel.TakeMakesOneLive | kernel/src/mem/slab.c:64-87 | Allocation makes exactly one cell live that was free, and the sum of usedObj rises by one; slabs in full have no free cell, the others have one |
| SlabModel.GiveEndsOneLife | kernel/src/mem/slab.c:96-112 | Freeing ends exactly one life, keeps every slab in exactly one list, and the sum of usedObj falls by one |
| SlabModel.FreedCellIsNext | kernel/src/mem/slab.c:98-112 | A freed cell is the next its slab hands out, and when that slab is the next one chosen |
| SlabLayout.PopSlab | kernel/src/mem/slab.c:72-75 | In memory words, popping firstFree leaves a well-formed slab; the last link is never relied on, only usedObj |
| SlabLayout.PushSlab | kernel/src/mem/slab.c:98-101 | Linking a cell in front leaves a well-formed slab with that cell first |
| SlabMemory.AddedRepresents | kernel/src/mem/slab.c:13-40 | Memory after slabAllocSlab's stores, computed from memory alone, represents the cache with one more slab whose chain is all its cells in order |
| SlabMemory.TakenIs | kernel/src/mem/slab.c:64-87 | The list chosen, the slab found through its node, the cell popped and the move to full, all read from memory words, are the abstract allocation |
| SlabMemory.AllocatedIs | kernel/src/mem/slab.c:42-88 | slabAlloc with its retry, computed from memory and bit set alone, is the abstract allocation and panics exactly when that does |
| SlabLaws.TakePlaces | kernel/src/mem/slab.c:64-83 | slabAlloc takes from the first slab of empty, or else of partial; the slab stays where it is until its last free cell goes, and then comes to the front of full |
| SlabLaws.GivePlaces | kernel/src/mem/slab.c:102-112 | slabFree takes the slab out of its list and puts it in front of empty if no cell of it is in use any more, and of partial otherwise |
| SlabLaws.AllocatedPage | kernel/src/mem/slab.c:56-87 | In memory: the page of slabAlloc's pointer is the first of empty, else the first of partial, else the page just allocated; it panics if and only if there is none of these |
| SlabLaws.NewSlabWords | kernel/src/mem/slab.c:21-31 | The words slabAllocSlab writes to a page: start, first free cell, used count, and each cell's link to the next |
| SlabLaws.FillsAPage | kernel/src/mem/slab.c:42-87 | A cache without a free cell takes one new page for as many slabAllocs as a slab has cells, and hands out the cells from first to last |
| SlabLaws.FillsAPageInMemory | kernel/src/mem/slab.c:42-87 | In memory with any number of caches: those pointers lie 48 bytes into the new page and every cell's size further on |
| SlabFrames.AllocatedKept | kernel/src/mem/slab.c:42-88 | slabAlloc changes no word but the list heads, slab headers and cells' link words of its own cache |
| SlabFrames.GivenKept | kernel/src/mem/slab.c:90-115 | slabFree of a live cell's link changes no other words either |
| SlabFrames.DependsOnBookkeeping | kernel/src/mem/slab.c:42-115 | Memories that agree on a cache's heads, headers and links represent the same cache |
| SlabFrames.OtherCacheKept | kernel/src/mem/slab.c:42-115 | What one cache writes leaves every cache whose heads and pages lie apart represented |
| SlabFrames.ObjectStoreKept | kernel/src/mem/slab.c:87 | A holder's store anywhere in its object leaves every cache represented |
| Slabs.UsableSizes | kernel/src/mem/slab.c:121-132 | A cache's cells hold the object if and only if its size is at most 4048, and then waste less than a word |
| Slabs.SlabIsFull | kernel/src/mem/slab.c:121-132 | For every usable size a slab has as many cells behind its 40-byte header as fit in 4096 bytes, each for one object and its link |
| Slabs.CellBytesOfSizes | kernel/src/mem/slab.c:121-132 | Which sizes wrap to 0, which to 8, and which are too large |
| Slabs.HugeSizesSlipThrough | kernel/src/mem/slab.c:121-132 | The largest size passes the assertion with 8-byte cells |
| Slabs.SlabCache.Init | kernel/src/mem/slab.c:117-138 | Exactly which sizes divide by zero and which trip the assertion; for usable sizes an empty cache whose slabs are full, in literals; no word but the list heads changes |
| Slabs.SlabCache.LinkCells | kernel/src/mem/slab.c:28-31 | The loop links every cell to the next; every other word, the last link among them, stays as it was |
| Slabs.SlabCache.AllocSlab | kernel/src/mem/slab.c:13-40 | One page is taken first fit and becomes a new slab in front of empty; memory becomes exactly the specified one; out of memory changes nothing |
| Slabs.SlabCache.Alloc | kernel/src/mem/slab.c:42-88 | With its retry, equals the abstract allocation and returns the chosen cell plus one word; memory becomes exactly the specified one, and only the cache's own bookkeeping words change |
| Slabs.SlabCache.Free | kernel/src/mem/slab.c:90-115 | Given any word of a slab but its two list-node words, memory becomes exactly the specified one; for a live cell's link it is the abstract free and only bookkeeping words change; for any other no cache is represented |
| Slabs.SlabCache.StaysValid | kernel/src/mem/slab.c:42-115 | A cache stays valid under another cache's writes |
| Slabs.SlabCache.SurvivesStore | kernel/src/mem/slab.c:87 | A cache stays valid under a holder's store to its object |
| SlabRuns.EveryRunKeepsInv | kernel/src/mem/slab.c:42-115 | Over any run on any caches: the objects handed out are exactly the used cells, no page serves two caches, the counters' sum is the number of live objects |
| SlabRuns.FreshCaches | kernel/src/mem/slab.c:117-138 | New caches are a starting state of those runs |
| SlabRuns.AllocFailsOnlyWhenFull | kernel/src/mem/slab.c:56-62 | slabAlloc panics if and only if the cache has no free cell and no page is free |
| SlabRuns.ObjectInItsPage | kernel/src/mem/slab.c:87-96 | Every live pointer is 8-aligned, beyond the header, inside its page, and rounding it down finds its slab |
| SlabRuns.ObjectsAreDisjoint | kernel/src/mem/slab.c:42-88 | Any two live objects of any caches occupy disjoint bytes |
| SlabRuns.ObjectsMissFreeLinks | kernel/src/mem/slab.c:74-98 | No live object overlaps a free cell's link word |
| SlabHeap.AllocStands | kernel/src/mem/slab.c:42-88 | slabAlloc on one of several caches in one memory leaves all of them represented and is one step of the abstract run |
| SlabHeap.FreeStands | kernel/src/mem/slab.c:90-115 | slabFree of a live pointer less its link word never fails, and does the same |
| SlabHeap.StoreStands | kernel/src/mem/slab.c:87 | A holder's store of any word to its object leaves all caches represented |
| SlabHeap.EveryRunOnMemory | kernel/src/mem/slab.c:42-115 | Over any run of allocations, frees and holders' stores in one memory: all caches stay represented, the pointers out are the objects of the abstract run, every word of an object not given back holds what its holder last stored there, and memory outside the caches is untouched |
| SlabHeap.PointersStayDisjoint | kernel/src/mem/slab.c:87 | Any two pointers out at the end of such a run share no byte |
| SlabHeap.FreshHeap | kernel/src/mem/slab.c:117-138 | Initialised list heads are a starting state of those runs |
| SlabDrift.FreeableIff | kernel/src/mem/slab.c:90-115 | slabFree on an aligned word of a slab leaves a memory that represents some cache if and only if the word is the link of a live cell |
| SlabDrift.DoubleFree | kernel/src/mem/slab.c:98-101 | slabFree of a cell that is free already leaves no memory that represents any cache |
| SlabDrift.NodeWordsSpoil | kernel/src/mem/slab.c:98-112 | After a free of a word of the slab's own list node, whatever the wild list stores then hit, no cache is represented |
| SlabDrift.LiteralFreeDrifts | kernel/src/mem/slab.c:87-115 | slabFree on the very pointer slabAlloc returned leaves no cache; when the slab comes next, slabAlloc returns the pointer plus one word; for objects of every size the last word of that is the next cell's link, or lies behind the last cell |
| Interleavings.EveryInterleavingKeepsInv | kernel/src/mem/slab.c:52-85 | In every interleaving of N CPUs over any number of caches, each with its lock: the page allocator's calls take effect one at a time in the order of their drops, and caches and handed-out objects are always a state of the sequential runs, drop and retry included |
| Interleavings.CommitAllocIsAtomic | kernel/src/mem/pmm.c:26-38 | At the drop, the bit-by-bit search and fill have done exactly one whole allocation on the last unlocked state |
| Interleavings.CommitFreeIsAtomic | kernel/src/mem/pmm.c:54-59 | At the drop, the bit-by-bit clear has done exactly one whole free |
| Interleavings.PanicsOnlyWhenFull | kernel/src/mem/pmm.c:28-33 | A step of any CPU panics if and only if it is at the end of its search, and then no free run of that length exists; while none exists, a search goes on to that end |
| Interleavings.RangesStayDisjoint | kernel/src/mem/pmm.c:23-60 | In every reachable state the ranges owned by all CPUs are pairwise disjoint and were free at the start |
| Interleavings.ObjectsStayDisjoint | kernel/src/mem/slab.c:42-88 | In every reachable state no two objects that any CPUs were handed by any caches share a byte, and each lies in a page owned by a slab |
| Interleavings.OneHolder | kernel/src/cpu/spinlock.c:3-11 | In every reachable state the page allocator's lock and each cache's lock have at most one holder |
| Interleavings.StartIsGood | kernel/src/mem/pmm.c:62-125 | Idle CPUs after start-up satisfy the invariant |
| Solo.PmmAllocAlone | kernel/src/mem/pmm.c:23-39 | With its lock free and no other CPU moving, pmmAlloc comes to its end bit by bit with exactly the sequential call's bit set and range, or panics exactly when that does |
| Solo.PmmFreeAlone | kernel/src/mem/pmm.c:50-60 | pmmFree likewise clears exactly its range |
| Solo.SlabAllocAlone | kernel/src/mem/slab.c:42-88 | slabAlloc likewise, drop and second try included, ends in exactly the sequential call's bit set, caches and objects |
| Solo.SlabFreeAlone | kernel/src/mem/slab.c:90-115 | slabFree likewise |
| WalkInterleavings.EveryInterleavingKeepsInv | kernel/src/mem/vmm.c:29-80 | In every interleaving of N CPUs in vmmMap and vmmUnmap, with pages cleared word by word before they are linked, the leaf stored outside the lock, and others taking, filling and giving back pages: what each CPU found on its way stays true, tables only grow, and no page is lost |
| WalkInterleavings.ReachableStates | kernel/src/mem/vmm.c:29-80 | After any such interleaving from any state of the sequential runs: the tables are an unshared tree on used frames that are no one's data, each page's entry is the word last stored for it, one CPU at most walks, and free, handed-out and table pages add up as before |
| WalkInterleavings.StopsOnlyIf | kernel/src/mem/vmm.c:29-80 | A CPU's step ends the run if and only if it needs a page and none is free, asks for a run that is not there, or unmaps through a missing upper table |
| WalkInterleavings.DataStays | kernel/src/mem/vmm.c:37-62 | No step changes a word of a page handed out as data, but a store to that page |
| SoloWalk.MapAlone | kernel/src/mem/vmm.c:30-62 | With the walk lock free and no other CPU moving, vmmMap comes to its end, page by page and word by word, with exactly the sequential call's memory and bit set and one store of its entry, or runs out exactly when that does |
| SoloWalk.UnmapAlone | kernel/src/mem/vmm.c:30-80 | vmmUnmap likewise, storing 0 if the last-level table is there and nothing otherwise |
| Locks.EveryRunKeepsInv | kernel/src/cpu/spinlock.c:3-11 | Over every schedule each flag is set exactly while one CPU holds the lock |
| Locks.NoDeadlock | kernel/src/cpu/spinlock.c:3-7 | No reachable state has all unfinished CPUs spinning |
| Locks.EveryoneCanFinish | kernel/src/cpu/spinlock.c:3-11 | From every reachable state some schedule finishes all CPUs with all locks free |
| Locks.PrintfNests | kernel/src/util/printf.c:866-879 | printf takes its lock, then the serial lock for each character, in order |
| Locks.AddSlabNests | kernel/src/mem/slab.c:52-59 | Adding a slab takes the cache's lock, then the page allocator's, then printf's, in order |
| Locks.AcquiresAre | kernel/src/mem/slab.c:52-85 | How often each call takes each lock |
| Locks.OrderOfActs | kernel/src/mem/vmm.c:30-52 | The exact order for a walk that adds two tables and a slabAlloc that adds a slab |
| Locks.CallNests | kernel/src/mem/vmm.c:30-52 | Every call the kernel makes nests upwards and releases what it takes |
| Locks.KernelCallsNeverDeadlock | kernel/src/mem/slab.c:42-115 | N CPUs making any calls: after any schedule all can still finish |
| VfsModel.ScanIsFold | kernel/src/filesystem/vfs.c:79-112 | From any node, the character scanner equals a fold of vfsLook over the non-empty components, null when a trailing slash follows a file |
| VfsModel.LookupIsFold | kernel/src/filesystem/vfs.c:64-113 | The same for vfsLookup from the mounted root |
| VfsModel.SlashesDoNotMatter | kernel/src/filesystem/vfs.c:82-105 | Paths with the same components resolve alike when both or neither end in a slash, or when no file is reached |
| VfsModel.LeadingSlash | kernel/src/filesystem/vfs.c:83-93 | A leading slash does not matter |
| VfsModel.DoubledSlash | kernel/src/filesystem/vfs.c:83-93 | A doubled slash does not matter |
| VfsModel.TrailingSlash | kernel/src/filesystem/vfs.c:83-112 | A trailing slash does not matter unless a file was reached |
| VfsModel.ScanStopsAdvancing | kernel/src/filesystem/vfs.c:95-98 | The scan never returns if and only if it reaches a component of more than 63 characters |
| VfsModel.LongNameNeverReturns | kernel/src/filesystem/vfs.c:95-98 | An instance: 64 letters |
| VfsModel.ShortNamesReturn | kernel/src/filesystem/vfs.c:95-98 | With at most 63 characters in every component vfsLookup returns |
| VfsModel.ComponentsAreBetweenSlashes | kernel/src/filesystem/vfs.c:82-105 | A component is a non-empty piece without a slash between two slashes, or a slash and an end, of the path |
| VfsChanges.OtherPathsKept | kernel/src/filesystem/tmpfs/tmpfs.c:46-53 | Every walk not using that directory entry ends where it did |
| VfsChanges.LookupKept | kernel/src/filesystem/tmpfs/tmpfs.c:103-109 | Every vfsLookup not using that directory entry ends where it did |
| VfsChanges.CreatedIsFound | kernel/src/filesystem/tmpfs/tmpfs.c:103-123 | path/name resolves to the new node |
| VfsChanges.MountTheorem | kernel/src/filesystem/vfs.c:117-146 | Mounting on a found node that is no mount root keeps mountpoints distinct, makes path/rest resolve to rest inside the new root, and leaves all other paths alone |
| VfsChanges.TmpfsMountMeans | kernel/src/filesystem/vfs.c:117-146 | After a tmpfs mount on what a path found, the path leads to the new root and path/dev to its directory |
| VfsChanges.OtherMountMeans | kernel/src/filesystem/vfs.c:117-146 | After a mount of any other type the path and every path below it lead to null |
| VfsChanges.MountOnRootIsUnseen | kernel/src/filesystem/vfs.c:25-61 | Whatever is mounted on a node that is a mount root, no walk from the top or from anywhere else changes |
| VfsChanges.MountIsSeenIff | kernel/src/filesystem/vfs.c:117-146 | After a mount its path leads to the new root if and only if the node found is no mount root; if it is one, every path leads where it did |
| VfsChanges.UnknownTypeHidesPath | kernel/src/filesystem/vfs.c:131-141 | Mounting an unknown type makes the path and all below it resolve to null |
| VfsChanges.DevIsLostAtBoot | kernel/src/filesystem/vfs.c:148-151 | /dev exists after the first boot mount and resolves to null after the second |
| VfsChanges.SecondRootMountIsNotSeen | kernel/src/filesystem/vfs.c:69-74 | An instance: a second mount on / leaves / resolving to the first one's root |
| Vfs.FileSystem.FindMnt | kernel/src/filesystem/vfs.c:25-40 | The list loop finds the newest mount on the node, or none if there is none |
| Vfs.FileSystem.Strcmp | kernel/src/util/string.c:71-82 | Zero if and only if the strings are equal |
| Vfs.FileSystem.TmpfsLookup | kernel/src/filesystem/tmpfs/tmpfs.c:111-123 | The list loop finds the newest child of that name, or null |
| Vfs.FileSystem.LookIn | kernel/src/filesystem/vfs.c:42-62 | One look with its checks and mount redirection |
| Vfs.FileSystem.LookupPath | kernel/src/filesystem/vfs.c:64-113 | The character loop with its 64-byte buffer equals the piecewise scan, or stops advancing exactly when that does |
| Vfs.FileSystem.Add | kernel/src/filesystem/tmpfs/tmpfs.c:20-53 | The new node has the kind asked for, handlers, no children and the name asked for; it goes in front of the directory's children; a file gets two pages that were free, which read as zeros; no other node and no other file's bytes change; out of memory changes nothing |
| Vfs.FileSystem.MountFs | kernel/src/filesystem/vfs.c:117-146 | A null lookup mounts nothing. On a node that is no mount root, type tmp makes the path lead to a new directory whose one child is a directory dev, and any other type makes it and all below it lead to null; on a mount root no lookup changes |
| Vfs.FileSystem.DoMounts | kernel/src/filesystem/vfs.c:148-151 | On the root of vfsInit both mounts together: / leads to the new directory, /dev to null |
| Vfs.FileSystem.TmpfsMount | kernel/src/filesystem/tmpfs/tmpfs.c:125-134 | A new root with a directory dev, and the mount in front of the list |
| Vfs.FileSystem.ReadWrite | kernel/src/filesystem/tmpfs/tmpfs.c:55-81 | Byte for byte: which transfers are refused, a write changes exactly the bytes in range of the file's own pages and of no other file's, a read exactly the buffer's; refused transfers change nothing; a directory refuses all |
| Vfs.FileSystem.Readdir | kernel/src/filesystem/tmpfs/tmpfs.c:83-101 | Entry k is the k-th newest child with its record length modulo 2^16, and there is one if and only if k is less than their number |
| FileMemory.FileByteIs | kernel/src/filesystem/tmpfs/tmpfs.c:29-30 | Byte k of a file is byte k of its pages, eight to a word of memory and the lowest first |
| VfsOps.Transport | kernel/src/filesystem/vfsops.c:4-18 | vfsWrite and vfsRead by path: whom they ask, what is refused, and byte for byte what they move |
| VfsOps.Create | kernel/src/filesystem/vfsops.c:28-34 | vfsCreate by path: the new node's kind and first bytes, and that path/name leads to it |
| VfsOps.CreateWriteRead | kernel/src/kernel/test.c:91-97 | Creating a file, writing to it and reading from it gives the bytes written and zeros around them, and goes through if and only if two pages are free and both transfers are within bounds |
| VfsOps.MkdirThenCreate | kernel/src/filesystem/tmpfs/tmpfs.c:103-109 | A node made in a directory just made is found below it |
| Vfs.RefusedExactlyAtTheEnd | kernel/src/filesystem/tmpfs/tmpfs.c:60-62 | Without wrap-around a transfer is refused if and only if pos + size reaches 8192, and trips memcpy's assertion if and only if it is empty and inside the file; past the file's memory if and only if the sum wraps to less |
| Vfs.RefusedInstances | kernel/src/filesystem/tmpfs/tmpfs.c:60-62 | One input each: refused at the last byte, stopped by the assertion, past the file's memory |
| Vfs.CreateThenLookup | kernel/src/filesystem/tmpfs/tmpfs.c:28-123 | A name made in a directory is found below that directory's path if and only if it has at most 31 characters or its end is what the name buffer held |
| FileRuns.EveryRunOfFiles | kernel/src/filesystem/tmpfs/tmpfs.c:20-81 | Over any run of creates, writes and reads of several files, mixed with page mapping, allocation and other holders' stores: each file's two pages hold the bytes its creation and accepted writes say, reads return them, and tables, translations and everyone else's words are as without the files |
| FileRuns.MovedIff | kernel/src/filesystem/tmpfs/tmpfs.c:60-62 | A transfer that returns has moved its bytes if and only if it is within the file's bounds |
| FileRuns.FilesAreByteArrays | kernel/src/filesystem/tmpfs/tmpfs.c:20-81 | After any run the files are those from before and those created in it, of 8192 bytes each, and each byte is the last accepted one written to it, else 0 if the file was created in the run, else what it was |
| FileRuns.ReadsGiveLastWritten | kernel/src/filesystem/tmpfs/tmpfs.c:55-81 | Every read within bounds in a run gives, byte for byte, what was last written before it |
| FileRuns.LastByteStays | kernel/src/filesystem/tmpfs/tmpfs.c:60-62 | After any run the last byte of every file is 0 if the file was created in it, and else what it was before |
| FileRuns.NoFilesYet | kernel/src/filesystem/tmpfs/tmpfs.c:20-44 | Any state of the page allocator and page tables is a starting state of those runs |
| Printf.Sink.Put | kernel/src/util/printf.c:133-138 | A character is stored if and only if its index is below the limit, and the index always advances |
| Printf.Sink.OutRev | kernel/src/util/printf.c:199-223 | The loops write the buffer reversed in a blank-padded field |
| Printf.Sink.AddHash | kernel/src/util/printf.c:243-262 | Digits dropped and prefix added as specified, within the 32-character buffer |
| Printf.Sink.NtoaFormat | kernel/src/util/printf.c:227-277 | Zeros, prefix, sign and padding, within the 32-character buffer |
| Printf.Sink.PutDigits | kernel/src/util/printf.c:292-298 | The digit loop fills the buffer with the digits, at most 32 |
| Printf.Sink.NtoaLong | kernel/src/util/printf.c:281-326 | A whole integer field |
| Printf.Sink.PutSpecification | kernel/src/util/printf.c:598-849 | One specification, or failure where it ends early or lacks an argument |
| Printf.Sink.PutFormat | kernel/src/util/printf.c:587-850 | The format loop appends exactly the untruncated output |
| Printf.Snprintf | kernel/src/util/printf.c:577-899 | Writes no index from count on, leaves the output cut to count - 1 and a NUL, and returns the whole length as an int whatever the count, with or without a buffer |
| PrintfTheorems.DigitsHoldValue | kernel/src/util/printf.c:292-298 | In bases 8 to 16 the digit buffer holds the value exactly |
| PrintfTheorems.BinaryDigitsHoldLowBits | kernel/src/util/printf.c:292-298 | In base 2 a buffer of n digits holds the value modulo 2^n |
| PrintfTheorems.NtoaReadsBack | kernel/src/util/printf.c:227-326 | Without '#', the field is blanks, a sign, digits and blanks, and reads back as the value, and as negative if and only if it was and fewer than 32 digits are shown, whatever the flags, width and precision |
| PrintfTheorems.BinaryFieldReadsBack | kernel/src/util/printf.c:227-326 | A base-2 field reads back as the value modulo 2^32 |
| PrintfTheorems.NtoaLengthIff | kernel/src/util/printf.c:227-301 | The field is as long as the larger of its width and sign plus digits shown, if and only if sign and precision fit 32 characters or blanks make up for them, and a zero-padded width is at most 32 |
| PrintfTheorems.DigitsLeaveRoomIff | kernel/src/util/printf.c:227-274 | The sign finds room if and only if the field is left-justified, or the precision and the zero-padded width are below 32 |
| PrintfStandard.NtoaIsStandardIff | kernel/src/util/printf.c:199-301 | Without '#', for every value, flag, width and precision: the field is the one C11 asks for, with its sign, zeros, digits and blanks each in their place, exactly under stated conditions on them |
| PrintfStandard.HashIsStandard | kernel/src/util/printf.c:227-301 | With '#' it is, prefix included, when the digits number neither the precision nor the width and all fits |
| PrintfFormats.IntFieldReadsBack | kernel/src/util/printf.c:684-756 | Fields of x and X read in base 16, of o in 8, of d, i and u in 10, always as a number, and as the one that the argument's low 8, 16, 32 or 64 bits stand for, in two's complement for d and i, if and only if it is not negative or its sign has room; fields of b read in base 2 modulo 2^32 |
| PrintfFormats.SignIsLost | kernel/src/util/printf.c:264-274 | An instance: %.32d of -1 reads as 1 |
| PrintfFormats.LettersAre | kernel/src/util/printf.c:693-702 | No capital in any field but X's, no small letter in X's, digits and prefix alike |
| PrintfFormats.ParsesAs | kernel/src/util/printf.c:598-680 | Flags, width, precision and modifier of a specification are taken for what their characters say: which flags are on, the decimal numbers modulo 2^32, and the bits of the argument |
| PrintfFormats.RendersAs | kernel/src/util/printf.c:587-680 | A specification writes its conversion, and the rest of the format follows with the arguments left |
| PrintfFormats.StarWidth | kernel/src/util/printf.c:619-629 | '*' takes an int; a negative one turns the field left and counts without its sign |
| PrintfFormats.StarPrecision | kernel/src/util/printf.c:639-643 | '.*' takes an int; a negative one counts as 0 |
| PrintfFormats.IntegerDirective | kernel/src/util/printf.c:682-756 | A whole integer specification in a format writes the number its argument stands for as C11 asks, exactly under those conditions |
| PrintfFormats.TextDirective | kernel/src/util/printf.c:796-820 | %s writes the text, or as much of it as the precision allows, with blanks behind if '-' is among the flags and in front otherwise |
| PrintfFormats.CharDirective | kernel/src/util/printf.c:776-794 | %c writes the argument's low 8 bits as a character, aligned likewise |
| PrintfFormats.PointerDirective | kernel/src/util/printf.c:822-837 | %p writes exactly 16 capital hexadecimal digits of the argument |
| PrintfFormats.OtherDirective | kernel/src/util/printf.c:839-848 | %% and every character that is no specifier write themselves and take no argument |
| PrintfFormats.WrongArgument | kernel/src/util/printf.c:682-848 | A specifier without an argument of its kind is out of bounds |
| PrintfFormats.UnfinishedDirective | kernel/src/util/printf.c:598-612 | So is a format that ends behind '%' or behind flags |
| PrintfTheorems.HashCanEatTheNumber | kernel/src/util/printf.c:243-262 | 0x12 in width 2 with '#' prints as the bare prefix |
| PrintfTheorems.HashReadsBackIff | kernel/src/util/printf.c:242-262 | A '#' field in base 2, 8 or 16, with any other flags, reads back as its value if and only if the digits taken away are only filled-in zeros and the prefix is whole or absent |

## Left out

- Mapping.MapPagesChangesNPages: page counts are natural numbers; the source counts an int down to zero, so a negative one goes on until it overflows. Flags are below 4096, as for MapChangesOnePage.
- Mapping.MapChangesOnePage: flags are below 4096, as every caller passes them; SafeFlagsIff says that exactly those keep every frame's address, so with others the entries name other frames.
- Mapping.WalkGrows: flags below 4096, for the same reason.
- Mapping.UnmapUndoesMap: flags below 4096, for the same reason.
- Vmm.AddressSpace.Walk: flags below 4096, for the same reason.
- Vmm.AddressSpace.Map: flags below 4096, for the same reason.
- Vmm.AddressSpace.MapPages: flags below 4096, for the same reason.
- Mapping.WalkOnlyLooks: what a null upper table's words are is not modelled. With virtual page 0 unmapped the read faults; kernel/src/kernel/test.c:71 maps that page, and then its words would be taken for entries.
- Mapping.UnmapChangesOnePage: ends the run at a null upper table, as WalkOnlyLooks does.
- Vmm.AddressSpace.Unmap: ends at a null upper table, as WalkOnlyLooks does.
- Vmm.AddressSpace.UnmapPages: ends at a null upper table, as WalkOnlyLooks does.
- Rights.RightsOfEveryRun: the write and user flags of entries; cached translations are not modelled.
- VmRuns.BootKeepsInv: boot-loader tables with huge pages or with frames shared between slots are excluded, since the walk never tests for them.
- Pmm.PageAllocator.Init: the bitmap's words are kept in an array of their own instead of in the pages it reserves for them.
- Slabs.SlabCache.Free: given one of the two list-node words of a slab it would run on wild pointers, which NodeWordsSpoil describes and the method does not; addresses outside the cache's slabs are not described.
- SlabDrift.FreeableIff: addresses that are not multiples of 8, or that lie outside the cache's slabs, are not described.
- Slabs.SlabCache.Init: the cache's name is not kept.
- Interleavings.EveryInterleavingKeepsInv: a cache's list surgery under its lock is a single step, and holders' stores to slab objects are not interleaved; memory is sequentially consistent; pmmInit and slabInitCache happen before the CPUs start.
- WalkInterleavings.EveryInterleavingKeepsInv: pmmAlloc and pmmFree are one step each, as Interleavings shows; a slot is read once where the source reads it twice under the lock; memory is sequentially consistent.
- Vfs.FileSystem.ReadWrite: what a transfer past the file's memory, after its sum has wrapped, would overwrite is not described.
- Vfs.FileSystem.Add: nodes are numbered in order of creation instead of living at slab addresses; children and mounts are sequences with the newest first, as the front insertion of LinkedList.dfy leaves them.
- Vfs.FileSystem.MountFs: the mount's type, device and path strings are not kept; the error and success messages are left out.
- Printf.Snprintf: string arguments are shorter than 2^31, and the result is None where a format ends inside a specification or an argument is missing or of the wrong kind, since the source reads out of bounds there.
- The offset between physical and virtual addresses is a bijection and is taken as the identity.
- cr3, invlpg and the TLB, model-specific registers, port I/O, interrupt tables and all drivers: CPU state the model has no view of.
- memset and memcpy are inline assembly and appear as whole-range assignments.
- The panic path ends the model's run; the state after a panic is not described, nor are the locks it takes.
- The lock flags are not fields of the sequential classes; Locks and Interleavings model them.
- The bare root node of vfsInit has uninitialised fields in the source; here it has no handlers, so nothing is found below it before the first mount.
- Floating-point conversion is compiled out. Of the printf sinks only the bounded buffer is modelled; printf sends each character but NUL to _putchar instead and keeps none, and fctprintf passes each to a callback.
- The handler table and the dispatch of interrupts, and the MMIO mapping calls, which pass their arguments on to modelled calls.
