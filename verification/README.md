# Verification model of the kernel's memory, filesystem and scheduling core

This project models the algorithmic core of a small x86-64 kernel in Dafny and proves its central
properties for all inputs and all runs. Code that works in place is modelled in place: classes with
the fields of the C structures, arrays, linked nodes, and methods that change them. Each such method
is proved against a specification function on values, and the properties are proved about that
function.

| files | what is modelled |
|---|---|
| `Common.dfy` | page size, word size, rounding, optional values, sequences without an element |
| `Bitmap.dfy`, `PmmSpec.dfy`, `PmmCount.dfy`, `Pmm.dfy` | the allocation bitmap, the physical page allocator as a state machine, what can be counted in its bitmaps, and its in-place form |
| `Frames.dfy` | single frames of the physical allocator: which are free, and how many more it will hand out |
| `PageWalk.dfy`, `Paging.dfy` | the four-level hardware walk as a pure function, and the page-table operations as pointwise updates of it, on frames of the allocator |
| `TableCount.dfy` | how many page tables a page, a range of pages, or several ranges lack |
| `VmmSpec.dfy`, `Vmm.dfy`, `VmmRun.dfy` | the virtual area allocator: its list, the agreement of list, page tables and frames, and whole runs of it |
| `Boot.dfy`, `BootMap.dfy` | from the memory map to the kernel image, the direct map, the interrupt controllers' registers and the kernel heap, and what the processor then finds where |
| `AvlSpec.dfy`, `Avl.dfy` | the AVL tree on values, and the intrusive tree whose nodes are relinked in place |
| `Paths.dfy`, `Tmpfs.dfy`, `TmpfsDir.dfy` | path splitting, and in-memory files and directories as chains of chunks |
| `Vfs.dfy`, `FileSystem.dfy` | the tree with lookup and creation as functions on values, and the operations in place |
| `Tar.dfy`, `TarArchive.dfy` | the ustar extractor, and the round trip with written archives |
| `List.dfy`, `SchedSpec.dfy`, `Sched.dfy` | the circular intrusive list, the scheduler's queues over it, bounded waiting |
| `SlabSpec.dfy`, `Slab.dfy` | the slab caches and their mutual recursion |
| `RingBuf.dfy`, `Mouse.dfy` | the ring buffer and the PS/2 mouse packet stream |
| `Surface.dfy` | back buffer and screen under clipped rectangles |

Where the code departs from what its names and comments suggest, the model keeps the code and the
exact condition is proved:

- `bitmap_set_range` and `bitmap_unset_range` ignore a range that ends at the last bit
  (`external/libs/libds/bitmap.h:59`, `:65`). `PmmCounting.TakeTracks` and `GiveTracks` say exactly
  when the bitmap is still right. `PmmSpec.PAllocSafe` shows that no page is handed out twice even so:
  `pmm_pfree` never restores `num_pages`, so the unrecorded range has used up its area.
- Because `num_pages` is never restored, an area hands out at most its size in its lifetime:
  `PmmSpec.PAllocFailsIff` and `RunSafe`. The page-table and area code inherits this: it is modelled
  over the allocator, allocations spend its budget and frees do not restore it (`Frames.TakeFrame`,
  `GiveFrame`, `Paging.Memory.PAlloc`, `PFree`).
- `pmm_init` promises too many pages for two-page regions and beyond 32448 pages:
  `PmmSpec.LayoutFits`, `LayoutExact`, `LayoutOverflows`. Where the promise is kept nevertheless,
  `pmm_pfree` finds every page of the area if and only if there are at most 32448
  (`PmmSpec.AllFoundIff`); with h header pages it misses the last h - 1 (`FoundExact`).
- `vheap_init` takes the 32 GiB behind the direct map without looking at what is mapped there.
  `apic_init` has by then mapped the registers of the interrupt controllers at their distance from
  hhdm: the range is unmapped if and only if none of them is in it (`Booting.HeapFreeIff`), that is,
  less than 32 GiB behind hhdm_end (`RegisterInHeapIff`). On a machine whose memory map ends below
  its registers the heap would map over them.
- `vmm_free` counts already free pages again when it merges: `VmmSpec.FreeCountExact`.
- AVL deletion looks its successor up by comparison. As a function on values, with equal keys allowed,
  it removes exactly the node it finds if and only if that node lacks a child or no key above its
  successor on the left spine equals the successor's: `AvlSpec.DeleteExactIff`, with the guard
  `Deletable`; distinct keys meet it (`DistinctKeysDeletable`). In place it does so under that guard
  (`AvlTrees.DeleteAt`). A failing call contains a deletion of a two-child node that fails although its
  inner deletion meets the guard (`InnermostFailure`), and what that one returns, after rebalancing,
  represents no tree (`AvlTrees.CloseCircle`); what its callers then make of it is not followed.
  `AvlTrees.EqualKeysSelfLink` is the smallest such call.
- `parent_path` and `basename_of_path` cut a bare name after its first character:
  `Paths.ParentBaseSplit` says exactly for which paths they are right.
- `MAX_ENTRIES_PER_DATA_CHUNK` is 4095 although 511 slots fit: every slot of a directory lies inside
  its chunk if and only if the directory has at most 511 entries (`TmpfsDirs.DirectoryFitsIff`). A
  512th creation is the result `STRAY` of the model, about which nothing is claimed; the theorems on
  creation speak of the others, and `Tar.NoStrayIff` says exactly for which archives there is none.
- `tmpfs_create` copies a name without its terminator into memory nobody cleared: the new inode is
  found under its name if and only if a zero byte stands behind it (`Vfs.CreateThenLookup`).
- `ustar_octtoi` lets the digit 8 pass: `Tar.OctRefusesIff`.
- Creating a path that exists succeeds and the new entry stays hidden: `Vfs.CreateThenLookup`.
- A failed `tmpfs_write` has already overwritten bytes: `Tmpfs.TmpfsFile.Write`. The extractor ignores
  the failure: a file whose contents find no memory stays empty (`Tar.TarBuildsTree`).

Every lemma carries `{:induction false}`: no proof rests on automatic induction. `dafny verify dfyconfig.toml`
checks the whole project.

## Model

| member | source | states |
|---|---|---|
| `Bitmaps.SetBit` | external/libs/libds/bitmap.h:12-17 | OR-ing in a shifted one sets that bit of the byte and leaves the other seven |
| `Bitmaps.UnsetBit` | external/libs/libds/bitmap.h:19-24 | AND-ing with the complement clears that bit and leaves the other seven |
| `Bitmaps.Bitmap.Set` | external/libs/libds/bitmap.h:12-17 | the packed bytes, seen as a bit sequence, change at exactly one index |
| `Bitmaps.Bitmap.Unset` | external/libs/libds/bitmap.h:19-24 | as Set, for clearing |
| `Bitmaps.Bitmap.Bit` | external/libs/libds/bitmap.h:26-31 | the bit read is that element of the bit sequence |
| `Bitmaps.Bitmap.FindContiguousRangeFrom` | external/libs/libds/bitmap.h:45-55 | the run-length scan returns exactly the first-fit answer of the bit sequence, and for a request of no bits that of the next row; with from = 0 it is also lines 33-43 |
| `Bitmaps.AfterSetIs` | external/libs/libds/bitmap.h:45-55 | the answer to a request of no bits is the place behind the first set bit, and there is none exactly when all bits are clear |
| `Bitmaps.Bitmap.SetRange` | external/libs/libds/bitmap.h:57-61 | the range becomes set, except that a range ending at or past the last bit is ignored |
| `Bitmaps.Bitmap.UnsetRange` | external/libs/libds/bitmap.h:63-67 | as SetRange, for clearing |
| `Bitmaps.FirstFitIsLeast` | external/libs/libds/bitmap.h:33-55 | first fit finds the least start of a clear run, and finds none exactly when there is none |
| `Bitmaps.FirstFitSkips` | external/libs/libds/bitmap.h:45-55 | starting later gives the same answer when no run starts in between |
| `PmmSpec.LayoutFits` | kernel/src/mm/pmm/pmm.c:27-37 | header and promised pages stay inside an n-page region if and only if n is in a size class given by one inequality on n |
| `PmmSpec.LayoutExact` | kernel/src/mm/pmm/pmm.c:29-37 | one header page and n-1 data pages, if and only if n is between 3 and 32448 |
| `PmmSpec.LayoutOverflows` | kernel/src/mm/pmm/pmm.c:27-37 | two concrete sizes for which the area promises one page more than the region has |
| `PmmSpec.AlignedRegionFits` | kernel/src/mm/pmm/pmm.c:23-25 | rounding the base up and the length down stays inside the region if and only if the base is aligned or the two remainders add up to at least a page |
| `PmmSpec.NewAreaInv` | kernel/src/mm/pmm/pmm.c:29-37 | a new area of 3 to 32448 pages has the area invariant and n-1 data pages |
| `PmmSpec.ServesIff` | kernel/src/mm/pmm/pmm.c:60-66 | the hint is sound: scanning from it equals scanning from 0, the scan succeeds if and only if the area's remaining budget suffices, and the run found is held by nobody |
| `PmmSpec.IndexRecovered` | kernel/src/mm/pmm/pmm.c:71-92 | pmm_pfree's address arithmetic recovers the bitmap index pmm_palloc used, for every page of an area |
| `PmmSpec.FoundExact` | kernel/src/mm/pmm/pmm.c:79-92 | for a region of any size with h header pages: which of its pages the bounds search finds (all but the last h - 1), and by how much the index computed for a page is too high |
| `PmmSpec.AllFoundIff` | kernel/src/mm/pmm/pmm.c:79-92 | every page of a region whose layout fits is found, under its own index, if and only if the region has at most 32448 pages |
| `PmmSpec.FindsOwner` | kernel/src/mm/pmm/pmm.c:83-92 | the bounds search of pmm_pfree stops at the one area that owns the page |
| `PmmSpec.PAllocFailsIff` | kernel/src/mm/pmm/pmm.c:53-77 | allocation fails, changing nothing, if and only if no area has that much lifetime budget left |
| `PmmSpec.PAllocSafe` | kernel/src/mm/pmm/pmm.c:53-77 | pages handed out are held by nobody before, exactly they become held, the invariant stays, and the range can be given back |
| `PmmSpec.PFreeSafe` | kernel/src/mm/pmm/pmm.c:79-96 | giving back held pages makes exactly them free to nobody, keeps the invariant and does not restore the budget (num_pages) |
| `PmmSpec.PFreeForeign` | kernel/src/mm/pmm/pmm.c:79-90 | an address within the bounds of no area changes nothing |
| `PmmSpec.RunSafe` | kernel/src/mm/pmm/pmm.c:53-96 | every run of allocations and legal frees keeps the invariant; budget plus pages granted is constant over the run |
| `PmmCounting.TakeTracks` | external/libs/libds/bitmap.h:57-61 | the bitmap still records all held pages after an allocation if and only if the range ends before the last bit |
| `PmmCounting.GiveTracks` | external/libs/libds/bitmap.h:63-67 | the same for a free |
| `PmmCounting.RunCounts` | kernel/src/mm/pmm/pmm.c:62-95 | in every run whose ranges end before the last bit, pmm_free_num_pages is the number of clear bits over all areas |
| `PhysicalMemory.PmmArea.Take` | kernel/src/mm/pmm/pmm.c:65-68 | hint, bitmap and page count of the area become those of the specification |
| `PhysicalMemory.PmmArea.Give` | kernel/src/mm/pmm/pmm.c:92-94 | hint and bitmap become those of the specification; num_pages stays |
| `PhysicalMemory.Pmm.constructor` | kernel/src/mm/pmm/pmm.c:14-48 | the area list built from a memory map, last usable entry first, and the free count; which areas these are is said by InitAreasAre and InitAreasExact |
| `PhysicalMemory.Pmm.Search` | kernel/src/mm/pmm/pmm.c:57-75 | the search loop stops at the first area that serves, with its first-fit index |
| `PhysicalMemory.Pmm.PAlloc` | kernel/src/mm/pmm/pmm.c:53-77 | state and result are those of the specification function the run lemmas speak about |
| `PhysicalMemory.Pmm.FindOwner` | kernel/src/mm/pmm/pmm.c:81-90 | the search loop stops at the first area whose bounds contain the address |
| `PhysicalMemory.Pmm.IndexIn` | kernel/src/mm/pmm/pmm.c:92-92 | the bitmap index of an address, in unsigned 64-bit arithmetic |
| `PhysicalMemory.Pmm.FreeIn` | kernel/src/mm/pmm/pmm.c:91-95 | the pages are given back to the area found, and the free count grows by them |
| `PhysicalMemory.Pmm.PFree` | kernel/src/mm/pmm/pmm.c:79-96 | the new state is that of the specification function the run lemmas speak about |
| `PhysicalMemory.EntryArea` | kernel/src/mm/pmm/pmm.c:19-37 | a usable aligned entry of 3 to 32448 pages becomes an area that covers the entry exactly |
| `PhysicalMemory.InitAreasAre` | kernel/src/mm/pmm/pmm.c:19-48 | for any memory map: a usable entry of at least two whole pages has its area, at the place counted from the end of the map, and there are as many areas as such entries |
| `PhysicalMemory.InitAreasExact` | kernel/src/mm/pmm/pmm.c:14-48 | over a good memory map each such entry of n pages has an area with its base, the next page as first data page, and n-1 data pages, all free; free count and budget are the sum of n-1 over these entries |
| `PhysicalMemory.InitInv` | kernel/src/mm/pmm/pmm.c:14-48 | a memory map of disjoint such entries yields the allocator invariant |
| `Frames.TakeFrame` | kernel/src/mm/pmm/pmm.c:53-77 | pmm_palloc(1) returns 0 if and only if the remaining budget is spent, and otherwise a free frame, which is free no longer while budget and invariant stay in step |
| `Frames.GiveFrame` | kernel/src/mm/pmm/pmm.c:79-96 | giving back one handed-out frame makes exactly it free again and leaves the budget as it was |
| `Frames.BootFrames` | kernel/src/mm/pmm/pmm.c:14-48 | after pmm_init over good regions the frames are all pages of the areas and the budget is their number not handed out |
| `PageWalk.IndicesArePageNo` | kernel/src/arch/x86_64/mm/paging.c:114-117 | two addresses have the same four table indices if and only if they have the same 36-bit page number |
| `PageWalk.SlotFixesPath` | kernel/src/arch/x86_64/mm/paging.c:112-129 | in tree-shaped tables a leaf slot is reached along one path only |
| `PageWalk.SlotShared` | kernel/src/arch/x86_64/mm/paging.c:67-73 | two roots reach the same leaf slot only along the same path through a shared top-level entry |
| `PageWalk.WithTableWalks` | kernel/src/arch/x86_64/mm/paging.c:29-38 | filling a missing upper-level entry changes no walk |
| `PageWalk.WithTableShape` | kernel/src/arch/x86_64/mm/paging.c:29-38 | and keeps the tables tree-shaped, with every present upper-level entry exactly its table's frame and bits 0, 1 and 2 |
| `PageWalk.WithLeafWalks` | kernel/src/arch/x86_64/mm/paging.c:127-128 | writing a leaf entry changes exactly the walks that end in it |
| `PageWalk.LeafDecides` | kernel/src/arch/x86_64/mm/paging.c:29-38 | the processor lets a write, or a user-mode access, through when all four entries on the way have bit 1, or bit 2, set; since every upper-level entry is its table's frame with exactly bits 0, 1 and 2, the leaf entry decides alone |
| `TableCounting.AddedMissing` | kernel/src/arch/x86_64/mm/paging.c:29-38 | a new table shortens the way of exactly those paths that stopped at the entry it was put behind |
| `TableCounting.SameStop` | kernel/src/arch/x86_64/mm/paging.c:112-127 | two paths of one root that stop at the same entry are the same up to there |
| `TableCounting.MissingAfter` | kernel/src/arch/x86_64/mm/paging.c:112-127 | after mapping one page every path lacks exactly what it lacked before, but no table it shares with the mapped one |
| `TableCounting.TablesForBound` | kernel/src/arch/x86_64/mm/paging.c:40-45 | mapping n pages adds at most three tables and one for each boundary of 512, 512^2 and 512^3 pages between the first page and the last |
| `TableCounting.LackedThen` | kernel/src/arch/x86_64/mm/paging.c:112-127 | what a page lacks after several ranges and part of another were mapped, from what it lacked before all of them |
| `TableCounting.NewTablesAre` | kernel/src/arch/x86_64/mm/paging.c:40-45 | the tables a range adds after others were mapped are those counted from the tables before all of them, ranges that share tables included |
| `Paging.LeafWriteEffect` | kernel/src/arch/x86_64/mm/paging.c:112-146 | writing the leaf of one path changes that path of this root and of roots sharing its top entry, nothing else |
| `Paging.WrittenTranslations` | kernel/src/arch/x86_64/mm/paging.c:112-146 | the same in terms of virtual addresses: one page number changes |
| `Paging.BesideWalks` | kernel/src/arch/x86_64/mm/paging.c:112-146 | after an operation on one root every other root sees what that root sees where it shares its top-level entry, and what it saw before elsewhere |
| `Paging.Memory.Boot` | kernel/src/mm/pmm/pmm.c:14-48 | after pmm_init over good regions below 2^48 memory is valid, with no page table and the whole budget |
| `Paging.Memory.PAlloc` | kernel/src/mm/pmm/pmm.c:53-77 | the allocator of the page tables is the specified one: 0 exactly when its budget is spent, else a free frame that is no page table |
| `Paging.Memory.PFree` | kernel/src/mm/pmm/pmm.c:79-96 | the frame can be handed out again, but the budget stays |
| `Paging.Memory.Create` | kernel/src/arch/x86_64/mm/paging.c:16-22 | a new root maps nothing and all existing walks stay |
| `Paging.Memory.SetPageEntry` | kernel/src/arch/x86_64/mm/paging.c:29-38 | the entry is present afterwards, a present one is not touched and costs nothing, an absent one costs one frame, and no walk of any table changes, and memory stays valid, so a new entry is present and open to writes and user mode |
| `Paging.Memory.Descend` | kernel/src/arch/x86_64/mm/paging.c:119-127 | the three upper levels exist afterwards, exactly the missing ones were allocated, and no walk changed |
| `Paging.Memory.Map` | kernel/src/arch/x86_64/mm/paging.c:112-129 | the walk of vaddr yields (paddr & mask) with the low 12 bits of flags, every other page of the root walks as before, other roots as in BesideWalks, the tables stay tree-shaped, and exactly the missing tables are allocated; the page may be written, or accessed from user mode, if and only if the flags are present with bit 1, or bit 2, and all other pages keep their rights |
| `Paging.Memory.MapIth` | kernel/src/arch/x86_64/mm/paging.c:43-44 | one turn of the loop extends the linear part of the map by one page and allocates exactly the tables that page still lacks |
| `Paging.Memory.MapAll` | kernel/src/arch/x86_64/mm/paging.c:40-45 | afterwards the range is exactly the linear map and everything else is as before, other roots as in BesideWalks; exactly the tables the range lacks are allocated, and no larger budget is needed; the rights of the range are those of the flags, all others are kept |
| `Paging.Memory.Unmap` | kernel/src/arch/x86_64/mm/paging.c:131-146 | the mapped page translates to nothing, its frame is handed back (without restoring the budget), and every other page is as before |
| `Paging.Memory.JoinKernel` | kernel/src/arch/x86_64/mm/paging.c:67-73 | the upper half of the user root becomes the kernel's, and walks of other roots stay |
| `Paging.JoinedWalk` | kernel/src/arch/x86_64/mm/paging.c:67-73 | after the join upper-half walks of the user root are the kernel's and lower-half ones its own old ones |
| `Paging.JoinedWalksAgree` | kernel/src/arch/x86_64/mm/paging.c:67-73 | equal upper-half entries give equal upper-half leaf slots and translations, also with the shared subtables |
| `Paging.JoinSurvivesMap` | kernel/src/arch/x86_64/mm/paging.c:67-73 | a later kernel pt_map keeps the two upper halves equal if and only if it is in the lower half or under a top-level entry present at the join |
| `Paging.JoinSurvivesRun` | kernel/src/arch/x86_64/mm/paging.c:67-73 | over any run of kernel pt_map calls after the join, each with what Memory.Map ensures: the two upper halves stay equal, and lead every upper-half address to the same leaf slot, if and only if each call is in the lower half or under a top-level entry present at the join |
| `VmmSpec.TilesApart` | kernel/src/mm/vmm/vmm.c:12-25 | areas of a tiling list are in address order and disjoint |
| `VmmSpec.PAllocEffect` | kernel/src/mm/vmm/vmm.c:71-87 | an allocation turns n pages of one free area into allocated ones, no other page changes, and the list stays tiled and coalesced |
| `VmmSpec.PAllocComplete` | kernel/src/mm/vmm/vmm.c:37-46 | vmm_palloc finds an area if and only if n consecutive pages of the range are free |
| `VmmSpec.PAllocLeast` | kernel/src/mm/vmm/vmm.c:71-87 | vmm_palloc returns the least address at which n consecutive pages are free; for no pages, or when there are none, it returns 0 and changes nothing |
| `VmmSpec.CarveSteps` | kernel/src/mm/vmm/vmm.c:56-83 | splitting where needed and then marking gives the specified list |
| `VmmSpec.AbsorbBoth` | kernel/src/mm/vmm/vmm.c:97-127 | merging with the free neighbours one after the other gives the specified list |
| `VmmSpec.FreeEffect` | kernel/src/mm/vmm/vmm.c:129-143 | freeing an area makes exactly its pages free and keeps the list tiled and coalesced |
| `VmmSpec.FreeCountExact` | kernel/src/mm/vmm/vmm.c:140-142 | the page count vmm_free adds equals the pages freed if and only if no neighbour was merged |
| `VmmSpec.AllFreeIsOneArea` | kernel/src/mm/vmm/vmm.c:97-127 | a coalesced list with everything free is one area |
| `VmmSpec.RunInv` | kernel/src/mm/vmm/vmm.c:71-143 | every run from one free area keeps the list tiling the range with no two adjacent free areas; only the list is claimed when a run frees an area that is already free |
| `VmmSpec.RunCoalesces` | kernel/src/mm/vmm/vmm.c:71-143 | a run that ends with nothing allocated ends in the original single free area, whatever the order |
| `VmmSpec.RunReleases` | kernel/src/mm/vmm/vmm.c:71-143 | from any list: if every area taken now or allocated in the run is later released, the list ends as one free area over the whole range |
| `VmmSpec.FreeingAllRestores` | kernel/src/mm/vmm/vmm.c:12-143 | from vmm_init: freeing everything that was allocated, in any order, gives the one original area back |
| `VirtualMemory.Vmm.constructor` | kernel/src/mm/vmm/vmm.c:12-25 | over an unmapped part of the page table the list is one free area, in a new record, and agrees with the page table, for the budget of one record |
| `VirtualMemory.Vmm.MapPage` | kernel/src/mm/vmm/vmm.c:52-52 | one page becomes mapped with flags plus PRESENT to a frame nobody else has, for the budget of that frame and the missing tables |
| `VirtualMemory.Vmm.MapArea` | kernel/src/mm/vmm/vmm.c:48-54 | all pages of the area become so mapped, no other translation changes, and exactly the pages and the tables they lack are allocated |
| `VirtualMemory.Vmm.UnmapPage` | kernel/src/mm/vmm/vmm.c:91-93 | one page becomes unmapped and its frame goes back; the budget of the allocator stays |
| `VirtualMemory.Vmm.UnmapArea` | kernel/src/mm/vmm/vmm.c:89-95 | all pages of the area become unmapped, no other translation changes |
| `VirtualMemory.Vmm.FindSufficient` | kernel/src/mm/vmm/vmm.c:37-46 | the loop returns the first free area that is large enough |
| `VirtualMemory.Vmm.Find` | kernel/src/mm/vmm/vmm.c:27-35 | the loop returns the first area starting at the address |
| `VirtualMemory.Vmm.Split` | kernel/src/mm/vmm/vmm.c:56-69 | nothing for n at or above the size; else the area keeps n pages, a new record after it has the rest, and the record frames stay accounted for |
| `VirtualMemory.Vmm.SplitOff` | kernel/src/mm/vmm/vmm.c:60-68 | the splitting case: one frame of budget is spent on the new record |
| `VirtualMemory.Vmm.Absorb` | kernel/src/mm/vmm/vmm.c:104-111 | the area takes over its neighbour's pages and the neighbour's record page goes back to the allocator |
| `VirtualMemory.Vmm.MergePrev` | kernel/src/mm/vmm/vmm.c:99-112 | the area absorbs a free predecessor, and only a free one |
| `VirtualMemory.Vmm.MergeNext` | kernel/src/mm/vmm/vmm.c:114-126 | the same for the successor |
| `VirtualMemory.Vmm.TryMerge` | kernel/src/mm/vmm/vmm.c:97-127 | the list becomes the merged one of the specification and the area record stays the same object |
| `VirtualMemory.Vmm.PAlloc` | kernel/src/mm/vmm/vmm.c:71-87 | list and result are those of the specification, free_num_pages falls by the pages allocated, a page is mapped if and only if its area is allocated, with that area's flags, each frame has one role, addresses outside the range translate as before, other roots are as in BesideWalks, and exactly the pages, the tables they lack and a record for the rest are allocated; the records listed are old ones or new |
| `VirtualMemory.ValidPage` | kernel/src/mm/vmm/vmm.c:48-54 | in a valid manager, after whatever run: a page of an area ALLOCATED with flags f translates to an entry with the page's own frame, bit 0 set, bits 1 to 11 those of f and nothing above bit 47, and may be written or accessed from user mode exactly as f says; any other page translates to nothing |
| `VirtualMemory.AllocatedPage` | kernel/src/mm/vmm/vmm.c:71-87 | the same for the pages vmm_palloc has just returned, with the flags it was given |
| `VirtualMemory.Vmm.NeedsBound` | kernel/src/mm/vmm/vmm.c:71-87 | n pages never need more than n frames, one record, three tables and one table for each boundary inside the range |
| `VirtualMemory.Vmm.MergeFreed` | kernel/src/mm/vmm/vmm.c:140-142 | free_num_pages grows by the merged area's pages, exactly |
| `VirtualMemory.Vmm.Free` | kernel/src/mm/vmm/vmm.c:129-143 | the list is the specification's, free_num_pages grows by the merged area's pages, page tables and frames agree with the list as after PAlloc, the budget and the tables stay, and the records listed are old ones or new |
| `VirtualMemoryRuns.Run` | kernel/src/mm/vmm/vmm.c:71-143 | after any run of vmm_palloc and of vmm_free of allocated areas the list is the specification's and the manager is valid: a page is mapped if and only if its area is allocated, with that area's flags, to a frame of its own; addresses outside and other roots are kept, and the run takes exactly the frames counted beforehand, shared tables once |
| `VirtualMemoryRuns.RunTakesBound` | kernel/src/mm/vmm/vmm.c:71-143 | a run takes at most, for each allocation, its pages, one record, three tables and one table for each boundary inside the range, whatever tables there are |
| `VirtualMemoryRuns.NothingLeft` | kernel/src/mm/vmm/vmm.c:129-143 | a valid manager with one free area has no page mapped, and every frame it ever had is free but those of tables and of its one record |
| `VirtualMemoryRuns.RunAndFreeAll` | kernel/src/mm/vmm/vmm.c:71-143 | a run on a new manager that later frees every address it was given ends so |
| `VirtualMemory.Range.AgreesStep` | kernel/src/mm/vmm/vmm.c:48-95 | list and page tables that change on the same pages in the same way keep agreeing |
| `Booting.MapSpan` | kernel/src/arch/x86_64/mm/paging.c:40-45 | after a run of pt_map_all calls on one root and one more: every address translates as the last call that has its page says, or as before them all, and they took exactly the tables that were missing, shared ones once |
| `Booting.MapKernel` | kernel/src/arch/x86_64/mm/paging.c:47-80 | text, read-only data and data of the kernel image are mapped so, from the image's place in memory |
| `Booting.MapMemmap` | kernel/src/arch/x86_64/mm/paging.c:82-110 | after earlier calls, every address translates as the last mapped region that has its page says, or as before; the result is hhdm_end; exactly the missing tables are allocated |
| `Booting.MapRegisters` | kernel/src/arch/x86_64/ints/apic.c:178-182 | then each register page is mapped at its distance from hhdm, the rest as before |
| `Booting.DirectIsOffset` | kernel/src/arch/x86_64/mm/paging.c:82-110 | however regions overlap, the pages of mapped regions are mapped, each to the physical page at its distance from hhdm, and all others are as before |
| `Booting.NothingBehind` | kernel/src/arch/x86_64/mm/paging.c:82-110 | the direct map leaves the 32 GiB behind hhdm_end as they were |
| `Booting.DirectBound` | kernel/src/arch/x86_64/mm/paging.c:82-110 | whatever was mapped before, the direct map needs at most the closed-form sum over its regions |
| `Booting.MapPays` | kernel/src/mm/pmm/pmm.c:14-48 | usable regions of at least eleven pages pay for their own direct map out of the budget pmm_init gives them, with two pages to spare each |
| `Booting.BootMap` | kernel/src/kernel.c:57-67 | pmm_init, pt_create, pt_map_kernel, pt_map_memmap and apic_init's pt_map calls establish valid memory with exactly those translations, for exactly the root and the tables counted beforehand |
| `Booting.HeapFreeIff` | kernel/src/mm/vheap.c:13-16 | with memory map and image out of the way, the heap's range is unmapped if and only if no register page is in it |
| `Booting.RegisterInHeapIff` | kernel/src/arch/x86_64/ints/apic.c:178-182 | a register page is in the heap's range if and only if its address is at least hhdm_end and less than 32 GiB behind it |
| `Booting.Boot` | kernel/src/mm/vheap.c:13-16 | with vheap_init the heap, a new object on new memory, is a valid area manager with one free area of 32 GiB behind the direct map, all translations and rights are those of the calls before it, and the budget left is exact |
| `Booting.BootAndRun` | kernel/src/mm/vheap.c:13-33 | from the memory map through any run of allocations and releases on the heap, list, page tables and frames agree |
| `BootMaps.SectionMapped` | kernel/src/arch/x86_64/mm/paging.c:47-80 | a page of text, read-only data or data that nothing mapped later is mapped to its place in the loaded image, for the kernel only; data can be written, text and read-only data cannot |
| `BootMaps.DirectFlags` | kernel/src/arch/x86_64/mm/paging.c:82-110 | a page of the direct map is writable by the kernel only; where the framebuffer is the last region that covers it, it is write-through with the PAT bit |
| `BootMaps.RegisterFlags` | kernel/src/arch/x86_64/ints/apic.c:178-182 | a register page is mapped to its physical page, writable by the kernel only |
| `BootMaps.MapEndIs` | kernel/src/arch/x86_64/mm/paging.c:97-107 | hhdm_end is the highest end of a mapped region, in 64-bit arithmetic, and 0 when there is none |
| `BootMaps.BudgetIs` | kernel/src/mm/pmm/pmm.c:14-48 | the frames the start has to spend are all pages of all usable regions of two pages or more but the first of each |
| `AvlSpec.RebalanceAvl` | external/libs/libds/avltree.c:97-116 | a node one step out of balance is repaired, with exact heights |
| `AvlSpec.RebalanceInOrder` | external/libs/libds/avltree.c:42-116 | rotations keep the in-order sequence |
| `AvlSpec.Insert` | external/libs/libds/avltree.c:118-144 | insertion into an AVL tree gives an AVL tree at most one higher |
| `AvlSpec.InsertInOrder` | external/libs/libds/avltree.c:130-141 | the new node is in the sequence after all keys not exceeding it; everything else keeps its order |
| `AvlSpec.InsertedSorted` | external/libs/libds/avltree.c:118-144 | insertion keeps the order, strictly for a new key |
| `AvlSpec.Delete` | external/libs/libds/avltree.c:152-189 | where Deletable holds, which is where the function describes the pointers: deletion from an AVL tree gives an AVL tree at most one lower |
| `AvlSpec.DeleteInOrder` | external/libs/libds/avltree.c:152-189 | with distinct keys deletion removes exactly the item with that key, also in the two-child case |
| `AvlSpec.RemovedExact` | external/libs/libds/avltree.c:152-189 | an item remains if and only if it was there and its key differs |
| `AvlSpec.DeleteExactIff` | external/libs/libds/avltree.c:152-189 | as a function on values, with equal keys allowed, deletion removes exactly the node it finds and moves nothing else if and only if that node lacks a child or its successor is alone among its equals (Deletable) |
| `AvlSpec.MinDeletedIff` | external/libs/libds/avltree.c:172-180 | looking up the successor's key removes the successor itself if and only if it is alone on the left spine; otherwise it stays in the subtree |
| `AvlSpec.DistinctKeysDeletable` | external/libs/libds/avltree.c:152-189 | pairwise distinct keys meet the condition |
| `AvlSpec.InnermostFailure` | external/libs/libds/avltree.c:172-180 | whenever the condition fails, some two-child deletion on the way fails at its own successor while the inner deletion meets the condition |
| `AvlSpec.EqualPairBuilt` | external/libs/libds/avltree.c:118-189 | inserting equal keys and deleting a larger one produces the right subtree on which EqualKeysSelfLink fails |
| `AvlSpec.RunRefines` | external/libs/libds/avltree.c:118-189 | every run of inserts and deletes of distinct keys is the run on a strictly sorted sequence, and stays balanced |
| `AvlSpec.SizeAtLeastFib` | external/libs/libds/avltree.c:5-14 | a tree of stored height h has at least Fib(h+2)-1 nodes |
| `AvlSpec.HeightLogarithmic` | external/libs/libds/avltree.c:118-189 | 2^(h/2) is at most one more than the number of nodes, so the recursion depth is logarithmic |
| `AvlSpec.HeightIsDepth` | external/libs/libds/avltree.c:10-14 | the stored height is the length of the longest path, so it bounds the recursion |
| `AvlTrees.UpdateHeight` | external/libs/libds/avltree.c:10-14 | the cached height becomes one more than the higher child's |
| `AvlTrees.RotateLeftAt` | external/libs/libds/avltree.c:42-52 | relinking three pointers represents the rotated tree on the same nodes |
| `AvlTrees.RotateRightAt` | external/libs/libds/avltree.c:79-89 | the mirror image |
| `AvlTrees.RebalanceAt` | external/libs/libds/avltree.c:97-116 | the in-place code represents the rebalanced tree |
| `AvlTrees.InsertAt` | external/libs/libds/avltree.c:118-144 | the in-place insert represents the specified tree on the old nodes plus the new one |
| `AvlTrees.FindMin` | external/libs/libds/avltree.c:146-150 | the loop ends at the node of the least item |
| `AvlTrees.ReplaceBySuccessor` | external/libs/libds/avltree.c:172-185 | when the successor is alone among its equals, its node is relinked in place of the deleted node, which is no longer reachable |
| `AvlTrees.DeleteAt` | external/libs/libds/avltree.c:152-189 | under the condition Deletable, equal keys allowed, the in-place delete represents the specified tree |
| `AvlTrees.SuccessorUnlinkedIff` | external/libs/libds/avltree.c:172-180 | the successor node is out of the right subtree before it is relinked if and only if it is alone among its equals |
| `AvlTrees.CloseCircle` | external/libs/libds/avltree.c:172-188 | the whole deletion of a two-child node whose successor is not alone, while the inner deletion meets the condition: what it returns, after rebalancing, represents no tree |
| `AvlTrees.RebalanceCircle` | external/libs/libds/avltree.c:97-116 | rebalance of a node that its own right links lead back to gives links that represent no tree, whichever rotation it does |
| `AvlTrees.EqualKeysSelfLink` | external/libs/libds/avltree.c:172-188 | the whole call on the smallest such tree: the successor becomes its own right child, one node is lost, and the result is no tree |
| `AvlTrees.DeleteConserves` | external/libs/libds/avltree.c:152-189 | a node is in the tree afterwards if and only if it was before and is not the deleted one |
| `AvlTrees.DeleteUnlinks` | external/libs/libds/avltree.c:152-189 | with equal keys allowed, under the condition: the node found is unlinked and no other |
| `Paths.ComponentsJoin` | kernel/src/fs/vfs.c:79-88 | components of a path cut at a slash are those of its parts |
| `Paths.ParentPath` | kernel/src/fs/vfs.c:43-53 | the two backward scans return the specified prefix |
| `Paths.Basename` | kernel/src/fs/vfs.c:55-62 | the two backward scans return the specified name |
| `Paths.CutAfterSlash` | kernel/src/fs/vfs.c:43-62 | for a last name that follows a slash the parent is everything before it and the base name is that name |
| `Paths.CutBare` | kernel/src/fs/vfs.c:43-62 | a bare name is cut after its first character |
| `Paths.CutSlashes` | kernel/src/fs/vfs.c:43-62 | a path of slashes only has the first of them for a parent and an empty last name |
| `Paths.ParentBaseSplit` | kernel/src/fs/vfs.c:43-62 | components(path) = components(parent) + [base name] if and only if the path has a component and starts with a slash or has at least two |
| `Tmpfs.Position` | kernel/src/fs/tmpfs.c:195-205 | byte k*4088+o of the chain is byte o of chunk k |
| `Tmpfs.StoredStep` | kernel/src/fs/tmpfs.c:216-224 | one memcpy of the write loop stores the next bytes and no others |
| `Tmpfs.StoredAll` | kernel/src/fs/tmpfs.c:207-228 | a finished write loop is an overwrite of the flat contents |
| `Tmpfs.StoredPart` | kernel/src/fs/tmpfs.c:211-214 | running out of chunks keeps the size and has stored the bytes inside it |
| `Tmpfs.OverwriteReads` | kernel/src/fs/tmpfs.c:144-231 | reading the written range gives what was written; reading around it gives what was there |
| `Tmpfs.TmpfsFile.NewChunk` | kernel/src/fs/tmpfs.c:56-61 | a zeroed chunk is linked at the end; no byte of the file changes |
| `Tmpfs.TmpfsFile.CopyIn` | kernel/src/fs/tmpfs.c:207-225 | how much the loop stores, where, and when it stops for lack of memory |
| `Tmpfs.TmpfsFile.Write` | kernel/src/fs/tmpfs.c:182-231 | for every argument the result and the flat contents: s[..off]+buf+s[off+count..] on success, each error case otherwise |
| `Tmpfs.TmpfsFile.Skip` | kernel/src/fs/tmpfs.c:195-205 | the skip loop finds chunk and offset, and the chunk exists |
| `Tmpfs.TmpfsFile.Piece` | kernel/src/fs/tmpfs.c:169-172 | bytes inside one chunk are consecutive bytes of the file |
| `Tmpfs.TmpfsFile.CopyOut` | kernel/src/fs/tmpfs.c:165-177 | the read loop never stops short and returns exactly the requested stretch |
| `Tmpfs.TmpfsFile.Read` | kernel/src/fs/tmpfs.c:144-180 | for every argument the result: s[off..min(off+count,cap)] on success, each error case otherwise |
| `TmpfsDirs.SlotsInsideIff` | kernel/src/fs/tmpfs.c:14-20 | for any number k of entries a chunk is taken to hold: the first n slots are inside their chunks if and only if k or n is at most 511 |
| `TmpfsDirs.DirectoryFitsIff` | kernel/src/fs/tmpfs.c:14-14 | with the 4095 of the source every slot used is inside its chunk if and only if the directory has at most 511 entries |
| `TmpfsDirs.ValidFits` | kernel/src/fs/tmpfs.c:14-25 | a directory whose entries all lie inside their chunks has, with the 4095 of the source, at most 511 of them |
| `TmpfsDirs.SlotInjective` | kernel/src/fs/tmpfs.c:94-128 | no two entries share a slot |
| `TmpfsDirs.TmpfsDir.Scan` | kernel/src/fs/tmpfs.c:71-82 | the inner loop returns the first entry of that name among those of one chunk, or passes them all |
| `TmpfsDirs.TmpfsDir.Lookup` | kernel/src/fs/tmpfs.c:63-89 | the walk over the chunks returns the first entry of that name in the flat entry sequence, or none |
| `TmpfsDirs.TmpfsDir.Place` | kernel/src/fs/tmpfs.c:94-108 | the skip loop finds chunk and slot of the next entry, and its allocation never runs |
| `TmpfsDirs.TmpfsDir.NewChunk` | kernel/src/fs/tmpfs.c:56-61 | a chunk without references is linked at the end; the entries stay |
| `TmpfsDirs.TmpfsDir.Reserve` | kernel/src/fs/tmpfs.c:94-113 | the slot for one more entry exists afterwards unless memory ran out; the entries stay |
| `TmpfsDirs.TmpfsDir.Store` | kernel/src/fs/tmpfs.c:128-129 | storing the reference appends one entry to the flat sequence and overwrites none |
| `FileSystems.FileSystem.LookupEntry` | kernel/src/fs/tmpfs.c:63-89 | on directories stored as chunk chains: the first entry of that name, FILE_NOT_FOUND, or UNIMPLEMENTED when it is no directory |
| `FileSystems.FileSystem.Lookup` | kernel/src/fs/vfs.c:73-93 | the pointer-moving loop is the fold of single-name lookup over the components |
| `FileSystems.FileSystem.CreateEntry` | kernel/src/fs/tmpfs.c:91-132 | with less than 511 entries in the directory, or when creation fails: the new inode, with the name that will be read, is the last entry of its directory and every other inode is as before; memory and name-length failures in the order of the source |
| `FileSystems.FileSystem.WriteFile` | kernel/src/fs/vfs.c:19-23 | on a file the chunked tmpfs_write in place: the bytes are overwritten from the start on when its chunks and those still to be had can hold them, and otherwise only those inside the old size; on a directory nothing happens |
| `FileSystems.FileSystem.RoomIn` | kernel/src/fs/tmpfs.c:94-113 | finding the slot and adding a chunk for it changes the tree of no directory |
| `FileSystems.FileSystem.Enter` | kernel/src/fs/tmpfs.c:115-131 | a new inode, entered last in its directory, whose name runs on into the bytes behind it up to the first zero |
| `FileSystems.NextName` | kernel/src/fs/vfs.c:81-86 | the two pointer loops skip slashes and find the end of the next component, or the end of the path |
| `FileSystems.FileSystem.CreateAtPath` | kernel/src/fs/vfs.c:95-109 | vfs_create in place is the specification function the next rows speak about, for every result but STRAY |
| `Vfs.LookupAfterCreate` | kernel/src/fs/tmpfs.c:63-132 | creation in a directory with room changes one lookup: the new name in its directory, if it was missing there |
| `Vfs.WalkAfterCreate` | kernel/src/fs/vfs.c:73-109 | a walk changes only if it asks for that missing name, and then continues from the new inode |
| `Vfs.WalkConcat` | kernel/src/fs/vfs.c:79-89 | walking two component lists in turn is walking their concatenation |
| `Vfs.WalkFailsIff` | kernel/src/fs/vfs.c:25-29 | a walk ends in FILE_NOT_FOUND if and only if it reaches a directory that lacks the next name, in UNIMPLEMENTED if and only if it asks something that is no directory, and succeeds otherwise |
| `Vfs.OnePath` | kernel/src/fs/vfs.c:73-109 | in a tree an inode has one component list |
| `Vfs.NodeAfterCreate` | kernel/src/fs/vfs.c:95-109 | a creation at a free path, in a directory with less than 511 entries, adds exactly that path to what the tree names |
| `Vfs.CreatePathSucceedsIff` | kernel/src/fs/vfs.c:95-109 | vfs_create succeeds inside its chunk if and only if the parent is a directory with less than 511 entries, memory is left and the name is under 128 bytes |
| `Vfs.CreatePathErrors` | kernel/src/fs/vfs.c:95-109 | a vfs_create that fails changes nothing, and its error says what was wrong first: the walk to the parent, a parent that is no directory, no memory, or a name of 128 bytes or more |
| `Vfs.CreatePathEffect` | kernel/src/fs/vfs.c:95-109 | what a successful vfs_create did, in terms of components and of the name that will be read: the parent had room, and the tree stays one |
| `Vfs.CreateThenLookup` | kernel/src/fs/vfs.c:73-109 | after a vfs_create that succeeded in a directory with room, any spelling of the path (repeated or trailing slashes) finds the new inode if and only if the path named nothing before and a zero byte stands behind the name; an older entry keeps hiding the new one |
| `Tar.ParseOctal` | kernel/src/fs/tar.c:11-21 | the digit loop returns the specified value or -1 |
| `Tar.OctRoundTrip` | kernel/src/fs/tar.c:11-21 | decoding inverts the 11-digit octal encoding of every number that fits |
| `Tar.OctValueBounds` | kernel/src/fs/tar.c:14-20 | the value of an accepted field is bounded, so eleven digits never wrap 64 bits |
| `Tar.OctRefusesIff` | kernel/src/fs/tar.c:16-16 | a field is refused if and only if a character is outside '0'..'8': the digit '8' is accepted |
| `Tar.StrideIs` | kernel/src/fs/tar.c:61-61 | the stride is one header block plus the blocks that hold the contents |
| `Tar.StrideAdvances` | kernel/src/fs/tar.c:27-61 | the address always grows, even after a bad size field, so the loop makes progress |
| `Tar.InstallEntry` | kernel/src/fs/tar.c:34-59 | one entry is created, when its directory is not full, and a file is filled, or stays empty when its contents find no memory; a failed creation stops the extraction |
| `Tar.ExtractOne` | kernel/src/fs/tar.c:27-61 | one turn of the loop is the specified turn |
| `Tar.TarExtract` | kernel/src/fs/tar.c:24-63 | the loop is the specified extraction of the whole archive, when no turn stores outside a chunk (NoStray) |
| `Tar.HeaderDecodes` | kernel/src/fs/tar.c:29-44 | what the extractor reads off a well-formed header is the entry it was made from |
| `Tar.ExtractInstalls` | kernel/src/fs/tar.c:24-63 | extracting an archive installs its directories and files one after the other, stopping at the first failure; members of any other type, whatever their size, are passed over as if absent |
| `Tar.OtherStep` | kernel/src/fs/tar.c:34-61 | one turn at a member that is neither directory nor file changes neither tree nor memory and goes on at the next header |
| `Tar.FailureStops` | kernel/src/fs/tar.c:34-52 | the first creation that fails, for whatever reason, ends the extraction; what was created before stays |
| `Tar.MemoryCuts` | kernel/src/fs/tar.c:34-52 | when memory ends, exactly the entries there was memory for are installed |
| `Tar.InstallEffect` | kernel/src/fs/tar.c:34-59 | installing an entry at a free path, under a directory with less than 511 entries, into a clear name buffer, adds that path, with its contents if they found room and none otherwise, and nothing else |
| `Tar.EntriesAfterInstall` | kernel/src/fs/tar.c:34-59 | it adds one to the entries of its directory and to those of no other path |
| `Tar.NoStrayIff` | kernel/src/fs/tar.c:24-63 | extracting an archive whose directories and files are distinct, well-formed and parents first, among any other members, keeps every directory entry inside its chunk if and only if the entries there is memory for give no directory more than 511 entries |
| `Tar.TarBuildsTree` | kernel/src/fs/tar.c:24-63 | extracting such an archive, with at most 511 entries in every directory and clear name buffers, builds a tree naming exactly the paths of the entries there is memory for, with the contents that found room (a file whose contents did not stays empty), besides what was there |
| `Tar.AllStoredIff` | kernel/src/fs/tar.c:24-63 | what is stored is the whole list if and only if there is memory for every entry and for its contents |
| `TarArchive.SerialiseDenotes` | kernel/src/fs/tar.c:24-63 | a written archive denotes the members it was written from: headers, contents and padding are where the extractor looks |
| `TarArchive.TarRoundTrip` | kernel/src/fs/tar.c:24-63 | extracting the archive written for distinct well-formed entries, parents first and at most 511 to a directory, among members of other types, never stores outside a chunk and builds a tree naming exactly the paths of the entries there is memory for, with their kinds and the contents that found room; with memory for all of it these are the entries themselves |
| `IntrusiveList.Insert` | external/libs/libds/list.h:30-36 | the four assignments put the node between its two neighbours of the ring |
| `IntrusiveList.Remove` | external/libs/libds/list.h:45-50 | the node leaves the ring, the rest keeps its order, and it is linked to itself; a node in no list is left as it is |
| `IntrusiveList.Append` | external/libs/libds/list.h:38-41 | the node becomes the last of the ring |
| `IntrusiveList.Empty` | external/libs/libds/list.h:23-26 | true if and only if the sequence is empty |
| `IntrusiveList.ForEach` | external/libs/libds/list.h:56-56 | the loop visits exactly the sequence, in order |
| `IntrusiveList.RingDetermines` | external/libs/libds/list.h:56-56 | the links determine the sequence: two sequences of one ring agree |
| `SchedSpec.RunInv` | kernel/src/tasks/sched.c:37-120 | every run keeps each task at most once in one queue |
| `SchedSpec.QueuedAfter` | kernel/src/tasks/sched.c:37-120 | no task is lost or invented: only one named by the operation enters or leaves the queues |
| `SchedSpec.BoundedWaiting` | kernel/src/tasks/sched.c:66-74 | a task at position p is among the first p+1 selections of any legal run, whatever other tasks do |
| `SchedSpec.WokenRuns` | kernel/src/tasks/sched.c:104-120 | a sleeper is selected, once woken, within as many selections as there are tasks ahead of it in both queues, plus one |
| `SchedSpec.RoundRobin` | kernel/src/tasks/sched.c:66-74 | n selections in a row return the first n tasks in order and rotate the queue by n |
| `SchedSpec.SleepRests` | kernel/src/tasks/sched.c:96-102 | in every legal run that begins with a task going to sleep, until somebody wakes the sleepers or removes it: the task is never selected and stays in the waiting queue |
| `SchedSpec.StoppedRests` | kernel/src/tasks/sched.c:61-64 | a task in no queue is never selected before it is scheduled or put to sleep |
| `SchedSpec.WokenInOrder` | kernel/src/tasks/sched.c:96-120 | distinct tasks that go to sleep one after the other are appended to the running queue in that order by the next waking, behind those that ran on and those that waited before |
| `SchedSpec.WaitersKeepOrder` | kernel/src/tasks/sched.c:37-120 | whatever else happens before the next waking, waiting tasks keep their order |
| `Scheduling.Scheduler.Schedule` | kernel/src/tasks/sched.c:56-59 | the ring of the running queue gets one more node at its end |
| `Scheduling.Scheduler.Unschedule` | kernel/src/tasks/sched.c:61-64 | the node leaves whichever ring holds it |
| `Scheduling.Scheduler.SelectTask` | kernel/src/tasks/sched.c:66-74 | the head of the running ring is returned and moved to its tail; the idle task when the ring is empty |
| `Scheduling.Scheduler.Switch` | kernel/src/tasks/sched.c:76-87 | nothing before the scheduler is ready; then the selected task becomes the current one |
| `Scheduling.Scheduler.SleepCurrent` | kernel/src/tasks/sched.c:96-102 | the current task moves to the end of the waiting ring |
| `Scheduling.Scheduler.WakeAllUp` | kernel/src/tasks/sched.c:104-120 | the loop appends the waiters, in order, to the running ring and empties the waiting one |
| `SlabSpec.GrownInv` | kernel/src/mm/slab.c:46-80 | a new slab keeps the cache invariant: lists sorted by use, free plus used objects equal to the slab's capacity, exact totals |
| `SlabSpec.TakenInv` | kernel/src/mm/slab.c:109-127 | so does handing out an object and moving its slab |
| `SlabSpec.ObjectsApart` | kernel/src/mm/slab.c:66-115 | any two objects handed out, by whichever caches, do not overlap |
| `SlabSpec.AllocSafe` | kernel/src/mm/slab.c:87-127 | cache_alloc fails, changing nothing, if and only if neither cache has room and no slab record can be allocated; else the object comes from the cache asked and overlaps nothing handed out before |
| `SlabSpec.ObjectMissesRecords` | kernel/src/mm/slab.c:50-54 | no object overlaps the record of any slab, unless it is that record; records of the slabs cache's own slabs included |
| `SlabSpec.InitInv` | kernel/src/mm/slab.c:26-33 | slab_init establishes the invariant |
| `SlabSpec.RunSafe` | kernel/src/mm/slab.c:37-127 | every run of cache_create and cache_alloc keeps the invariant, moves nothing handed out, and all objects stay apart |
| `SlabSpec.RunFillsPages` | kernel/src/mm/slab.c:10-44 | after every run from slab_init each cache cuts a page into as many objects as fit: slots * size <= 4096 < (slots + 1) * size |
| `SlabCaches.Thread` | kernel/src/mm/slab.c:66-70 | the loop threads all objects of the slab in address order |
| `SlabCaches.Allocator.constructor` | kernel/src/mm/slab.c:26-35 | two empty caches with the invariant |
| `SlabCaches.Allocator.Grow` | kernel/src/mm/slab.c:46-80 | a slab with all objects free is added, its record taken from the slabs cache unless this is the slabs cache; the recursion ends |
| `SlabCaches.Allocator.Furnish` | kernel/src/mm/slab.c:60-79 | once it has a record, the slab gets memory that misses every other block, and is in the free list with all its objects |
| `SlabCaches.Allocator.Select` | kernel/src/mm/slab.c:87-102 | the first partial slab, else the first free one, else one from growing |
| `SlabCaches.Allocator.Relist` | kernel/src/mm/slab.c:120-124 | the serving slab moves to the end of the full list if it is used up, else of the partial one |
| `SlabCaches.Allocator.CacheAlloc` | kernel/src/mm/slab.c:109-127 | state and object are those of the specification function the safety lemmas speak about |
| `SlabCaches.Allocator.CacheCreate` | kernel/src/mm/slab.c:37-44 | the new cache is empty, the last in the list, has the object size asked for, and as many objects to a slab as fit in a page |
| `RingBuffers.RingBuffer.constructor` | external/libs/libds/ringbuf.c:5-16 | an empty queue |
| `RingBuffers.RingBuffer.Write` | external/libs/libds/ringbuf.c:23-49 | in both modes the queue afterwards: overwriting keeps the last cap elements, blocking refuses when full; tail = (head+len) mod cap is kept |
| `RingBuffers.RingBuffer.Read` | external/libs/libds/ringbuf.c:51-60 | the oldest element is returned and removed, none when empty |
| `RingBuffers.LastLast` | external/libs/libds/ringbuf.c:25-36 | dropping old elements as they overflow or all at the end gives the same queue |
| `Ps2Mouse.RoundTrip` | kernel/src/drvs/ps2/ps2_mouse.c:60-68 | a packet made from an event with 9-bit movements and three buttons decodes to that event |
| `Ps2Mouse.PacketMeans` | kernel/src/drvs/ps2/ps2_mouse.c:60-68 | the movements of a packet are the nine-bit numbers with byte 1 or 2 and the sign in bit 4 or 5 of byte 0, and its three low bits are the buttons |
| `Ps2Mouse.FeedDecodes` | kernel/src/drvs/ps2/ps2_mouse.c:49-74 | for any byte stream the unread events are the last 256 of the old ones and the packets completed, and the leftover bytes are the pending packet |
| `Ps2Mouse.EventsArrive` | kernel/src/drvs/ps2/ps2_mouse.c:49-74 | when the bytes received encode a list of events, exactly these arrive, whatever gaps are between them |
| `Ps2Mouse.Lossless` | kernel/src/drvs/ps2/ps2_mouse.c:20-74 | in any run of callbacks and reads in which the reader keeps up, the events read plus the unread ones are all events in order |
| `Ps2Mouse.Mouse.Callback` | kernel/src/drvs/ps2/ps2_mouse.c:49-74 | the packet buffer and the ring change as the specified transducer does |
| `Ps2Mouse.Mouse.ReadEvents` | kernel/src/drvs/ps2/ps2_mouse.c:20-28 | the oldest min(count, len) events are returned and removed |
| `Surfaces.CopyRestores` | kernel/src/gfx/surface.c:40-76 | copying a rectangle makes the screen coherent if and only if it was coherent outside the rectangle |
| `Surfaces.Surface.PutPixel` | kernel/src/gfx/surface.c:32-38 | exactly one visible pixel changes, or none when off the screen |
| `Surfaces.Surface.DrawRect` | kernel/src/gfx/surface.c:80-89 | exactly the visible part of the rectangle gets the colour, negative coordinates included |
| `Surfaces.Surface.CopyRow` | kernel/src/gfx/surface.c:66-75 | one clipped row is copied and no other cell |
| `Surfaces.Surface.SyncChunk` | kernel/src/gfx/surface.c:40-77 | exactly the visible part of the rectangle is copied to the screen |
| `Surfaces.Surface.Present` | kernel/src/gfx/surface.c:40-89 | drawing and copying the same rectangle keeps a coherent screen coherent and writes the screen only inside it |

## Left out

Contracts that are deliberately weaker than the code, or that need a premise:

- Paging.Memory.Create: needs a budget of one page; what the code does with the 0 of an exhausted allocator, which `pt_create` and `set_page_entry` do not check, is not followed.
- Paging.Memory.MapAll: a range of more than 2^36 pages, which would wrap around the address space, is left out.
- Paging.Memory.Unmap: needs a mapped page whose frame the allocator handed out; on others the code follows whatever the entries contain.
- VirtualMemory.Vmm.PAlloc: needs allocator budget for exactly the frames it takes; the unchecked 0 of an exhausted allocator is not followed.
- VirtualMemory.Vmm.Free: for an address where a free area starts nothing is claimed here, and in `VmmSpec.RunInv` and `RunReleases` only the list; unmapping such an area is the case Unmap leaves out.
- Booting.Boot: usable regions are aligned and of 3 to 32448 pages as in `PhysicalMemory.InitInv`; the budget must cover root, tables and one record; no register page may be in the heap's range (`Booting.HeapFreeIff`).
- VirtualMemoryRuns.Run: releases name allocated areas or no area, and the budget must cover the run, as in PAlloc and Free.
- VirtualMemory.Vmm.View: the area list is a sequence of records; that the intrusive list refines a sequence is shown separately in `List.dfy`.
- PageWalk.LeafEntry: bit masks are written as integer arithmetic on the fields of an entry; large pages are recognised by the walk but never made.
- PmmSpec.PFreeSafe: frees name pages that are handed out and lie in one area; other addresses change bitmaps or counters in ways not described.
- AvlTrees.InsertAt: the early return for a null comparison function is not modelled; a null node is.
- AvlTrees.DeleteAt: needs the condition Deletable; outside it some two-child deletion on the way returns no tree (`AvlTrees.CloseCircle`), and the value function `AvlSpec.Delete`, which is total, no longer describes the pointers.
- Tmpfs.TmpfsFile.Write: the chunk chain is a sequence of arrays, and the number of chunks that can still be allocated is a parameter.
- FileSystems.FileSystem.CreateEntry: nothing is claimed about a creation in a directory with 511 entries or more, whose store is outside the chunk. Chunks and inodes run out of memory together (one buffer or none), and a name whose buffer holds no zero at all is taken to end with the buffer.
- FileSystems.FileSystem.WriteFile: writes at offset 0, as the extractor does; other offsets are those of `Tmpfs.TmpfsFile.Write`.
- Tar.TarExtract: the archive is a string and reads past its end stop there; archives that overfill a directory are excluded by NoStray. How much memory each entry finds is a parameter.
- SlabCaches.Allocator.CacheAlloc: only the checked allocation of a slab record may fail; the unchecked one of the slab's memory succeeds. Cache and slab lists are sequences of addresses.
- SlabCaches.Allocator.CacheCreate: object sizes from 16 bytes to one page; smaller ones let the freelist overlap its neighbours, larger ones give slabs without objects. A failed allocation of the cache record, which the code does not check, is left open.
- Scheduling.Scheduler.Schedule: needs a task that is in no queue yet, as the kernel's callers ensure.
- Surfaces.Surface.DrawRect: coordinates and their sums fit an int, and the pitch is a multiple of 4.
- RingBuffers.RingBuffer.constructor: a nonzero capacity and memory for it.

Parts of the repository that are not modelled:

- `cache_free`, `cache_free_within` and `cache_shrink` (`kernel/src/mm/slab.c:129-187`): freeing re-links the slab's own node instead of the object, so no invariant holds afterwards.
- The value of `free_num_pages` over runs of `vmm_free`: only the exact amount each call adds.
- `tmpfs_rmfile`, `vfs_mount` and device inodes: stubs or local effects only.
- `rbtree.c`, `hashmap.c`: unfinished.
- `switch_to`, stack frames, the reaper, and interrupts: every operation is one atomic step.
- `gfx_surface_sync`, fonts, the framebuffer console and the demo code: easy claims or floating point.
- `libc/string.c`: `memcpy`, `memset` and `memcmp` are taken as their sequence meanings.
- Port I/O, control registers, `invlpg`, interrupt controllers, ACPI, the boot protocol, formatted output.
