# Chestnut-64: the memory stack, the clock and the smaller cores

Chestnut-64 is a small x86-64 kernel written in C++. This project models its core in Dafny and proves that
each layer agrees with a much simpler object.

| layer | files | simple object |
|---|---|---|
| intrusive rings | `Rings`, `ListMemory` | sequences of addresses |
| physical pages | `PageAllocator`, `BootMemory`, `Startup` | a set of free pages, in ring order |
| slab allocator | `SortedLists`, `SlabBitmap`, `SlabStack`, `Heap`, `HeapInvariant`, `HeapSteps`, `HeapBlocks`, `HeapRuns`, `HeapOrder`, `HeapReuse`, `SlabTies`, `SlabAllocator`, `KernelRuns` | a set of disjoint byte ranges |
| page tables | `PageWalk`, `PageTree`, `PageTable`, `DirectMap` | a partial map from virtual to physical addresses, as section 4.5 of the Intel SDM Volume 3A walks it |
| KVM clock | `ClockScaling`, `Seqlock`, `BootTime` | exact scaling, whole records, one atomic maximum |
| scheduler | `Scheduler` | a queue, a current thread, a list of exits |
| vector | `MemoryCopy`, `Vector` | sequence insertion |
| text buffer | `TextBuffer` | the rows of the output |

The allocator comes in two levels. `Heap` is the state and its calls as functions, mutually recursive where a
data slab takes its descriptor from, or returns it to, the meta cache. `HeapInvariant` and `HeapSteps` show what
each call keeps, `HeapRuns` what follows over whole runs; `HeapOrder` and `HeapReuse` show which memory a call gets,
from nothing but the list of slabs in order of last use. `SlabAllocator` is the code itself: page structs in an
array, link words in a store, bitmaps, free stacks and counters, with every method proved to refine its function;
`KernelRuns` drives it from power-on through any sequence of calls. `Arithmetic` holds what they share.

The page tables are frames of 512 words. The hardware's walk is a function of memory and knows nothing of how the
tables were made; `PageTree` shows what one store does to every translation at once.

## Where the code departs from its evident intent

The model follows the code. Each departure has a statement of exactly when it matters.

- `1 << idx` is an `int` shift (kern/mm/uslab.cc:87, 95). Bits 31 to 63 of a row move together, so a bitmap slab
  serves 32 objects per row and never hands one out twice: `SlabBitmap.OneBitIff`, `SlabBitmap.HalfTheSlots`.
  The trailing-zero count of a zero row is taken as 64 (kern/mm/uslab.cc:81).
- `FitGlobalMemCache` has a class exactly for 2 to 2048 bytes: `HeapBlocks.FitCacheLeast`, `HeapRuns.BadSize`.
- `AllocPage` returns NULL with one page left, and callers use the pointer unchecked: a fault, with the exact
  condition in `HeapSteps.AllocateData` and `HeapRuns.MallocSmall`, inputs in `HeapRuns.OnePageKept`.
- `AllocPages` compares with an unsigned difference; for more pages than there are structs it runs past the array
  exactly when the last page is free: `PageAllocator.MemPages.AllocPages`, `PageAllocator.AskForTooMany`.
- `nr_page * PAGESIZE` is an `int`; a block of 0x80000 pages cannot be freed: `HeapRuns.FreeBlockStep`,
  `HeapRuns.BlockStuck`.
- `BaseSlab::FreeSlab` returns the descriptor but not the data page. Such pages are "retired":
  `HeapSteps.ReclaimData`, `HeapRuns.PageAccount`, `HeapRuns.PageRetired`.
- The start-up assertion needs the highest managed end to be a page boundary: `BootMemory.IndexAssertion`,
  `BootMemory.IndexTrips`.
- The walk of `MapPage` stops at 2 MB entries but follows 1 GB ones: `PageTable.PhysicalMemory.MapPage`,
  `PageTable.LargeNeverMaps`, `PageTable.MapBelowLarge`.
- A partial last page of a map entry is managed and mapped whole: `BootMemory.InsideIff`, `BootMemory.SharedPage`,
  `DirectMap.MapPages`.
- Start-up compares the address at which it visits a page, not the page, with the range in use. On an entry that
  starts off a page, the page where the page structs end can become free: `BootMemory.OffKernelIff`,
  `BootMemory.StructsGivenOut`.
- The seqlock loads the version a third time for its parity: `Seqlock.SafeIffEven`.
- A left shift that overflows loses time: `ClockScaling.NanoExactIff`, `ClockScaling.NanoMonotoneIff`,
  `ClockScaling.NanoWraps`.
- `memmove` always copies downward, which suits `Insert` but not `Remove`: `MemoryCopy.MoveIff`,
  `Vectors.RemoveIff`.
- `ExitCurrentThread` follows a null pointer when the last thread exits:
  `Scheduling.Scheduler.ExitCurrentThread`, `Scheduling.LastThreadExits`. kern/scheduler.cc names members its header does not have and is not
  built (CMakeLists.txt:20-37); its lists are modelled as the plain heads of kern/scheduler.h:30.

## Model

| member | source | states |
|---|---|---|
| `Rings.DeleteFromRing` | kern/libc/list.h:9-13 | unlinking a member leaves one ring of the other nodes in the same order, prev still inverse to next |
| `Rings.InsertAfterHead` | kern/libc/list.h:22-28 | inserting after the head gives one ring with the node second |
| `Rings.InsertBeforeHead` | kern/libc/list.h:15-21 | inserting before the head gives one ring with the node last |
| `Rings.RingUnique` | kern/libc/list.h:6-7 | the link words determine the ring: a head is on one cycle only |
| `ListNodes.ListMemory.InitHead` | kern/libc/list.h:30-32 | makes a ring of the head alone and leaves every other ring of the store as it was |
| `ListNodes.ListMemory.IsEmpty` | kern/libc/list.h:34 | true exactly when the ring has no member |
| `ListNodes.ListMemory.Delete` | kern/libc/list.h:9-13 | removes exactly that member; no other ring changes, and the node is then on no ring |
| `ListNodes.ListMemory.InsertAfter` | kern/libc/list.h:22-28 | the node becomes the first member; no other ring changes |
| `ListNodes.ListMemory.InsertBefore` | kern/libc/list.h:15-21 | the node becomes the last member; no other ring changes |
| `PageAllocator.MemPages.constructor` | kern/mm/allocator.cc:69-75 | all page structs are zero and the free ring is not yet linked |
| `PageAllocator.MemPages.AllocPage` | kern/mm/allocator.cc:103-113 | NULL exactly when at most one page is free; otherwise the first page leaves the ring, the flags follow, nothing else moves |
| `PageAllocator.MemPages.FreePage` | kern/mm/allocator.cc:115-123 | the page becomes first on the ring and its flags say free; undoes AllocPage |
| `PageAllocator.MemPages.Append` | kern/mm/allocator.cc:90-97 | start-up adds the page at the end of the ring |
| `PageAllocator.MemPages.FindRun` | kern/mm/allocator.cc:129-144 | the search over the flags gives the lowest start of n consecutive free pages, or none exactly when there is none; a count larger than the array runs past it exactly when the last page is free |
| `PageAllocator.MemPages.AllocPages` | kern/mm/allocator.cc:125-152 | first fit: the lowest-starting run of n free pages leaves the ring, order of the rest kept; NULL exactly when there is no run; overrun exactly when n exceeds the array and its last page is free; n = 1 is AllocPage |
| `PageAllocator.MemPages.RemoveRun` | kern/mm/allocator.cc:145-150 | unlinking the pages of a run one by one removes exactly those pages |
| `PageAllocator.OutsideOrder` | kern/mm/allocator.cc:145-150 | the pages left on the ring keep their order |
| `PageAllocator.MemPages.FreePages` | kern/mm/allocator.cc:154-169 | the n pages are put in front one by one, so they stand in descending order before the old ring |
| `PageAllocator.AskForTooMany` | kern/mm/allocator.cc:135 | three pages asked of two structs: an input on which the search runs past the array |
| `BootMemory.ComputeMaxEnd` | kern/mm/allocator.cc:22-32 | the highest end of an available entry that does not start at 0, and 0 when there is none |
| `BootMemory.CollectedPages` | kern/mm/allocator.cc:75-99 | a page is collected exactly when some managed entry visits it at an address outside [lo, hi), the kernel image, boot data and page structs |
| `BootMemory.CollectedOrder` | kern/mm/allocator.cc:75-97 | the order of the collected pages: those of an earlier entry first, those of one entry upwards |
| `BootMemory.StructBase` | kern/mm/allocator.cc:64-73 | the page structs start on a page, 128 pages after the first page boundary at or above the end of the image |
| `BootMemory.RangeInUse` | kern/mm/allocator.cc:64-73 | the range kept out is exactly the bytes of the image, the boot data and the page structs, and the gaps that rounding to pages leaves before and between them |
| `BootMemory.MeetsIff` | kern/mm/allocator.cc:88 | the test is on the visited address: a collected page meets [lo, hi) if and only if that range ends inside the page, at or before the visited address |
| `BootMemory.OffKernelIff` | kern/mm/allocator.cc:85-88 | no collected page meets the kernel image, boot data or page structs if and only if no managed entry straddles their end |
| `BootMemory.AlignedOffKernel` | kern/mm/allocator.cc:85-88 | which holds whenever managed entries start on a page |
| `BootMemory.StructsGivenOut` | kern/mm/allocator.cc:88 | a map with an entry half-way into a page: start-up accepts it and makes a page free that holds page structs |
| `BootMemory.InsideIff` | kern/mm/allocator.cc:80-81 | the pages of an entry lie inside it if and only if its address and length are multiples of 4096 |
| `BootMemory.SharedPage` | kern/mm/allocator.cc:80-81 | a page-aligned disjoint map on which half of a collected page is reserved memory |
| `BootMemory.CollectPage` | kern/mm/allocator.cc:83-97 | one page: its address is recorded and it joins the ring exactly when usable |
| `BootMemory.CollectEntry` | kern/mm/allocator.cc:80-98 | one entry, wherever it starts: every page visited from its first byte on is treated, unless one of them has no page struct |
| `BootMemory.CollectAvailable` | kern/mm/allocator.cc:61-99 | the ring holds the collected pages in map order, and the assertion fails exactly when some visited page has no page struct; entries may start anywhere, as long as no page is visited twice |
| `BootMemory.IndexAssertion` | kern/mm/allocator.cc:82 | on page-aligned disjoint entries no page trips the index assertion if and only if the highest managed end is a page boundary |
| `BootMemory.IndexTrips` | kern/mm/allocator.cc:82 | an entry of 0x1800 bytes: a map that trips it |
| `BootMemory.OrdinaryWellFormed` | kern/mm/allocator.cc:75-99 | page-aligned disjoint entries never visit a page twice |
| `BootMemory.Boot` | kern/mm/allocator.cc:13-101 | succeeds exactly when every visited page has a struct, and then free is exactly the collected pages, each struct holding 4096 times its index; they are off the range kept out if and only if no managed entry straddles its end; and where managed entries start on a page, no free page holds a byte of the image, the boot data or a page struct |
| `Startup.CollectedDistinct` | kern/mm/allocator.cc:75-99 | no page is collected twice |
| `Startup.BootServes` | kern/mm/allocator.cc:75-99 | for managed entries that start on a page, the state start-up leaves is one from which every run of calls is safe, with the collected pages managed and none lent |
| `Startup.OrdinaryBootable` | kern/mm/allocator.cc:75-99 | page-aligned disjoint entries whose highest end is a page boundary meet its conditions |
| `Startup.EveryRunServes` | kern/mm/uslab.cc:333-359 | from any accepted map whose managed entries start on a page, over every sequence of calls: exactly the held ranges are served, pairwise apart, as many as were given out and not given back; exactly the collected pages are managed, none of which meets the kernel image, boot data or page structs; a call that gives out memory gives out what nobody held |
| `Startup.HeldOffKernel` | kern/mm/uslab.cc:333-359 | no byte held at any point of any run is one of the image, the boot data or a page struct |
| `SlabBitmap.Init` | kern/mm/uslab.cc:31-35 | every slot of a fresh bitmap is free |
| `SlabBitmap.BestRow` | kern/mm/uslab.cc:78-86 | the row with the smallest trailing-zero count, the earliest on ties; 64 when all rows are zero |
| `SlabBitmap.LeastFree` | kern/mm/uslab.cc:80-88 | that row and bit are the least free object index idx*n+row |
| `SlabBitmap.AllocFromBitmapArray` | kern/mm/uslab.cc:76-89 | takes the minimum of the sorted free list, and the rows then show the rest |
| `SlabBitmap.FreeToBitmapArray` | kern/mm/uslab.cc:91-96 | the rows then show the free list with the object put back in order |
| `SlabBitmap.ObjectParts` | kern/mm/uslab.cc:88-94 | row and bit are recovered from an object index by remainder and quotient |
| `SlabBitmap.FlipTwice` | kern/mm/uslab.cc:87-95 | freeing the object just taken restores the rows exactly, whatever they hold |
| `SlabBitmap.OneBitIff` | kern/mm/uslab.cc:87 | the int shift flips one bit only if and only if the bit is not 31; at 31 it flips 33 |
| `SlabBitmap.HalfTheSlots` | kern/mm/uslab.cc:87-96 | for any number of rows and any free list shown: at most 32 of the 64 slots per row are ever free, empty means exactly these 32n and full means none, and bits 31 to 63 stand for one slot |
| `SlabBitmap.IsEmpty` | kern/mm/uslab.cc:44-51 | true exactly when all 32n slots are free |
| `SlabBitmap.IsFull` | kern/mm/uslab.cc:53-59 | true exactly when no slot is free |
| `SlabStack.Init` | kern/mm/uslab.cc:98-105 | the stack shows all slots, the highest first |
| `SlabStack.Alloc` | kern/mm/uslab.cc:107-110 | pops the slot freed last |
| `SlabStack.Free` | kern/mm/uslab.cc:112-116 | pushes the slot; undoes Alloc |
| `HeapBlocks.FitCacheLeast` | kern/mm/uslab.cc:322-331 | a size has a class exactly when it is 2 to 2048, and then it is the least class that holds it |
| `HeapBlocks.FitCacheOfClass` | kern/mm/uslab.cc:357 | the size stored on a page leads back to the class it came from |
| `HeapBlocks.AllocBlockKeeps` | kern/mm/uslab.cc:335-340 | a large request fails exactly when the search does; otherwise it takes the least number of whole pages that hold it and keeps the invariant |
| `HeapBlocks.ReleaseBlock` | kern/mm/uslab.cc:353-356 | a block is given back whole if and only if its byte count fits an int, that is below 0x80000 pages |
| `HeapSteps.AllocateMeta` | kern/mm/uslab.cc:175-183 | a descriptor: fails exactly when a page is needed and at most one is free; no data slab changes |
| `HeapSteps.AllocateData` | kern/mm/uslab.cc:214-239 | fails exactly when the pages needed, for a data slab and perhaps a meta slab, are not there with one to spare; otherwise exactly one slot is taken, from the front of its free list, and the invariant holds |
| `HeapSteps.FreeMeta` | kern/mm/uslab.cc:241-253 | a descriptor given back restores the invariant and changes no data slab |
| `HeapSteps.ReclaimData` | kern/mm/uslab.cc:195-200 | reclaiming re-enters the meta cache; the invariant holds afterwards and one more page is retired |
| `HeapSteps.FreeData` | kern/mm/uslab.cc:241-253 | never fails on a held object; gives back exactly that slot, and the slab goes exactly when it is empty and the cache has more slabs than max_pg |
| `HeapSteps.ObjectParts` | kern/mm/uslab.cc:238-249 | page number and slot are recovered from the address Allocate returns |
| `HeapRuns.LiveApart` | kern/mm/uslab.cc:238 | any two held byte ranges, objects or blocks, are disjoint |
| `HeapRuns.LiveOnOwnPages` | kern/mm/uslab.cc:278-291 | no byte a caller holds is on a free page, a page of descriptors or meta-slab headers, a directly lent page or a retired page |
| `HeapRuns.MallocSmall` | kern/mm/uslab.cc:333-344 | halts exactly when pages run short; otherwise an address nobody held is given out, with its class size, apart from every range held at that moment |
| `HeapRuns.MallocLarge` | kern/mm/uslab.cc:335-340 | halts exactly when no run of pages is found; otherwise an address nobody held is given out, rounded up to pages, apart from every range held at that moment |
| `HeapRuns.FreeObjectStep` | kern/mm/uslab.cc:346-358 | a held object can always be freed, exactly it stops being held, and a page is retired exactly when its slab is reclaimed |
| `HeapRuns.FreeBlockStep` | kern/mm/uslab.cc:353-356 | a held block can be freed if and only if at most 0x7FFFF000 bytes were asked for; exactly its pages return to the front of the ring |
| `HeapRuns.BlockStuck` | kern/mm/uslab.cc:338 | an input: with 2 GB free, 0x7FFFF001 bytes can be had, and freeing them stops the kernel |
| `HeapRuns.OnePageKept` | kern/mm/allocator.cc:105 | inputs: one page free and none can be had; two pages free and no object |
| `HeapRuns.PageRetired` | kern/mm/uslab.cc:288-291 | an input: one object had and given back, and its page is retired |
| `HeapRuns.BadSize` | kern/mm/uslab.cc:325-329 | a request below 2 bytes has no class and stops the kernel |
| `HeapRuns.GetPageStep` | kern/thread.cc:73 | a page taken directly was free, is lent to nobody else and touches nothing a caller holds; it halts exactly with at most one page free |
| `HeapRuns.PutPageStep` | kern/thread.cc:80 | exactly a page lent directly can be put back; it becomes first on the ring and nothing a caller holds changes |
| `HeapRuns.StepServes` | kern/mm/uslab.cc:333-359 | every call keeps: the held addresses are exactly the live objects and blocks, each with the bytes its request rounds up to; and hands out only what was not held, takes back only what is named |
| `HeapRuns.RunServes` | kern/mm/uslab.cc:333-359 | the same over every sequence of calls, with the managed pages unchanged and the retired count never falling |
| `HeapRuns.RunSafe` | kern/mm/uslab.cc:333-359 | over every sequence of calls: the ranges held at the end never overlap |
| `HeapRuns.RunHeld` | kern/mm/uslab.cc:278-291 | and each is at least as large as asked, with no byte on a free page or on allocator data |
| `HeapRuns.RunGrants` | kern/mm/uslab.cc:333-344 | whatever came before, the memory a call gives out was held by nobody and is apart from every range held at that moment |
| `HeapRuns.RunCounts` | kern/mm/uslab.cc:333-359 | as many addresses are held as were given out and not given back |
| `HeapRuns.PageAccount` | kern/mm/uslab.cc:175-200 | each managed page is in exactly one of free, meta slab, data slab, block, lent directly, retired; as many are retired as data slabs were reclaimed |
| `HeapRuns.OneQueue` | kern/mm/uslab.cc:201-212 | a slab is on exactly one queue of one cache: the one that matches its occupancy |
| `HeapRuns.Counters` | kern/mm/uslab.cc:195-235 | slab_pg is the number of slabs, allocated the number of slots in use, and an empty slab is kept only while slab_pg <= max_pg |
| `HeapRuns.FreshServes` | kern/mm/uslab.cc:301-315 | the caches after InitSlab serve nobody and satisfy the invariant |
| `HeapOrder.AllocateQueued` | kern/mm/uslab.cc:215-237 | with room in the cache, the first slot of the first partly used slab, or else of the first empty one, is given out; that slab goes to the front of the queue of its new occupancy, and no other slab, place in a queue or page changes |
| `HeapOrder.AllocateNewMeta` | kern/mm/uslab.cc:175-183 | a new meta slab is on the first free page and gives out its last descriptor |
| `HeapOrder.AllocateNewData` | kern/mm/uslab.cc:278-286 | a new data slab has its descriptor from the meta cache and its page from the ring after that |
| `HeapOrder.FreeMetaUses` | kern/mm/uslab.cc:185-212 | a descriptor given back: its meta slab goes to the front of the queue of its occupancy, or is dropped, exactly when all 63 are free and slab_pg exceeds max_pg; then its page is the first free page |
| `HeapOrder.FreeDataStays` | kern/mm/uslab.cc:201-212 | an object given back to a slab that stays: the slab goes to the front of the queue of its occupancy, and nothing else changes |
| `HeapOrder.FreeDataGoes` | kern/mm/uslab.cc:195-200 | an object given back to a slab that goes: it is off all queues, its meta slab is used or dropped by the same rule, and only the page of a dropped meta slab comes back |
| `HeapOrder.UseTouches` | kern/mm/uslab.cc:201-212 | if every queue lists its slabs in order of last use, it does so after one more use |
| `HeapReuse.FreshFirst` | kern/mm/uslab.cc:98-110 | the first object of a new slab is at the start of its page for the bitmap classes and the last of its page for the stack classes; the objects fill half the page or all of it |
| `HeapReuse.AllocateGives` | kern/mm/uslab.cc:214-239 | an allocation is served from the partly used slab used last; no empty slab and no page is taken while there is one; else from the empty slab used last, and no page is taken; else from a new slab, at an address computed from the ring |
| `HeapReuse.FreeTakes` | kern/mm/uslab.cc:241-253 | after Free of an object: exactly when its slab, and then its meta slab, goes or stays, what the slab then holds, and what the ring then is |
| `HeapReuse.StepRecent` | kern/mm/uslab.cc:333-359 | every call keeps every queue in order of last use |
| `HeapReuse.RunRecent` | kern/mm/uslab.cc:333-359 | so does every sequence of calls |
| `HeapReuse.RunGives` | kern/mm/uslab.cc:214-239 | after any run from start-up, which slab, slot and page the next small request is given, from the order of last use alone |
| `HeapReuse.Reused` | kern/mm/uslab.cc:201-253 | what is given back is used again first: the next request of the class is served from the same slab, no page taken, at the same address for the stack classes and at the lowest free slot for the bitmap classes; if other objects of the slab are in use, or if it is kept empty and no other slab of the class is partly used |
| `SlabAllocator.InitBody` | kern/mm/uslab.cc:220 | a fresh slab of any class shows all its slots free, in the order they will be handed out |
| `SlabAllocator.RowCount` | kern/mm/uslab.cc:269-271 | 64 bits for every 64 objects of a page, of which half serve |
| `SlabAllocator.AllocBody` | kern/mm/uslab.cc:232 | bitmap or stack: takes the first slot of the free list |
| `SlabAllocator.FreeBody` | kern/mm/uslab.cc:250 | bitmap or stack: puts the slot back where the class puts it |
| `SlabAllocator.IsFull` | kern/mm/uslab.cc:203 | true exactly when the free list is empty |
| `SlabAllocator.IsEmpty` | kern/mm/uslab.cc:205 | true exactly when every slot is free |
| `SlabAllocator.InitMeta` | kern/mm/uslab.cc:142-154 | the page gets a ring of its 63 descriptors, and no other ring changes |
| `SlabAllocator.Slabs.constructor` | kern/mm/uslab.cc:293-315 | the nine caches, with empty queues, refine the fresh heap |
| `SlabAllocator.Slabs.PopQueue` | kern/mm/uslab.cc:223-229 | takes the first slab off a queue |
| `SlabAllocator.Slabs.Remove` | kern/mm/uslab.cc:248 | takes a slab off whichever queue it is on |
| `SlabAllocator.Slabs.PushQueue` | kern/mm/uslab.cc:204-210 | puts a slab in front of a queue |
| `SlabAllocator.Slabs.AllocDescriptor` | kern/mm/uslab.cc:156-165 | the first free descriptor leaves the ring of its meta slab, and both assertions hold |
| `SlabAllocator.Slabs.FreeDescriptor` | kern/mm/uslab.cc:167-173 | the descriptor becomes first on the ring again |
| `SlabAllocator.Slabs.NewMetaSlab` | kern/mm/uslab.cc:175-183 | fails exactly when the model does; otherwise a page carries a full ring of descriptors and its struct leads back to it |
| `SlabAllocator.Slabs.NewDataSlab` | kern/mm/uslab.cc:278-286 | fails exactly when the model does; the descriptor from the meta cache and a data page refine the new slab |
| `SlabAllocator.Slabs.PickSlabOf` | kern/mm/uslab.cc:215-230 | half before empty before new, as the model does |
| `SlabAllocator.Slabs.AllocateFrom` | kern/mm/uslab.cc:214-239 | refines Allocate: same success, same address, same new heap |
| `SlabAllocator.Slabs.AdjustSlabOf` | kern/mm/uslab.cc:201-212 | refines AdjustSlab, including the recursion into the meta cache; what order that gives is HeapReuse.RunRecent |
| `SlabAllocator.Slabs.ReclaimEmptySlab` | kern/mm/uslab.cc:195-200 | reclaims exactly when slab_pg exceeds max_pg |
| `SlabAllocator.Slabs.FreeMetaPage` | kern/mm/uslab.cc:185-190 | the page of an empty meta slab returns to the free ring |
| `SlabAllocator.Slabs.FreeFrom` | kern/mm/uslab.cc:241-253 | refines FreeObject |
| `SlabAllocator.Slabs.AllocLarge` | kern/mm/uslab.cc:335-340 | refines AllocBlock over the page structs |
| `SlabAllocator.Slabs.AllocBytes` | kern/mm/uslab.cc:333-344 | kernel::Alloc refines the heap: succeeds exactly when the model does, with the same address and state, and keeps the invariant |
| `SlabAllocator.Slabs.FreeLarge` | kern/mm/uslab.cc:353-356 | refines giving back a block |
| `SlabAllocator.Slabs.FreeBytes` | kern/mm/uslab.cc:346-359 | kernel::Free refines the heap and keeps the invariant; the null pointer is ignored; the assertion fails exactly for the blocks that cannot be released |
| `SlabAllocator.LiveRoute` | kern/mm/uslab.cc:349-358 | what the page struct stores of a held address gives a block that can be freed its exact number of pages, and an object its own cache, slab and slot |
| `SlabAllocator.Slabs.TakeDirect` | kern/mm/allocator.cc:103-113 | AllocPage by a caller outside the allocator refines taking a page directly |
| `SlabAllocator.Slabs.GiveDirect` | kern/mm/allocator.cc:115-123 | FreePage of such a page refines putting it back |
| `KernelRuns.Call` | kern/mm/uslab.cc:333-359 | one call on the code's own fields succeeds exactly when the model's step does and ends in its state |
| `KernelRuns.Execute` | kern/mm/uslab.cc:333-359 | a whole sequence of calls on the code's own fields stops exactly when the model's run halts, and otherwise ends in its state with the same addresses held |
| `KernelRuns.PowerOn` | kern/mm/allocator.cc:13-101 | the same from power-on, where managed entries start on a page and none shares a page: Init and InitSlab on the code's own fields, then any sequence of calls; no page managed holds a byte of the image, the boot data or a page struct |
| `KernelRuns.CollectedMapped` | kern/main.cc:65-68 | once the direct map is built, every byte of every page the allocator manages translates to itself, not write-through |
| `KernelRuns.HeldMapped` | kern/main.cc:65-68 | and so does every byte held at any point of any run |
| `PageWalk.EntryFields` | kern/page-table.h:63-82 | an entry built by the constructor and setters gives back the address and exactly the flags that were set |
| `PageTree.WalkAfterWrite` | kern/page-table.h:96-105 | in any tree of tables, writing one slot with a non-table word changes exactly the translations that go through that slot |
| `PageTree.TreeAfterWrite` | kern/page-table.h:133-143 | and what is left is a tree, without the tables below that slot |
| `PageTree.WalkAfterAdd` | kern/page-table.h:51-57 | hanging an empty table into an absent slot changes no translation |
| `PageTree.TreeAfterAdd` | kern/page-table.h:51-57 | and gives a tree with that one table more |
| `PageTree.SamePageSamePath` | kern/page-table.h:102 | two addresses take the same slots if and only if they agree on the 36 page-number bits |
| `PageTable.EnterKeeps` | kern/page-table.h:91-105 | one level of the walk keeps the tree, every translation, and the tables apart from the free pages; it fails only with at most one page free |
| `PageTable.VirtualIs` | kern/page-table.h:134 | MapPage is given the address whose distance from KERN_OFFSET is the physical one, modulo 2^64; below 1 TB that is the address in the kernel window |
| `PageTable.MeetsIsSize` | kern/page-table.h:96-98 | a path meets a large entry if and only if the walk ends in a large translation |
| `PageTable.PhysicalMemory.Enter` | kern/page-table.h:91-105 | the next table: taken from the free pages and zeroed when absent; panic exactly on a 2 MB entry of a page directory |
| `PageTable.PhysicalMemory.MapPage` | kern/page-table.h:133-143 | maps exactly one 4 KB page and leaves a tree off the free ring if and only if the path meets no large entry and there is one page more than the tables it lacks, and then KERN_OFFSET+p+o gives p+o for every byte o of the page; a 2 MB entry gives panic with nothing changed; below a 1 GB entry the page is never mapped, and where that leads into ordinary memory no translation changes and the memory is overwritten |
| `PageTable.PhysicalMemory.MapStretchOf` | kern/acpi.cc:82-83 | mapping page after page: where no page has a large translation, KERN_OFFSET+p gives p throughout the stretch in the end, and every other address translates as before |
| `PageTable.LargeNeverMaps` | kern/page-table.h:97 | below a 1 GB entry no change of memory whatever maps the one page alone: its neighbour cannot keep a 1 GB translation |
| `PageTable.LargeMet` | kern/page-table.h:97 | a memory and tables whose path meets a 1 GB entry over ordinary memory |
| `PageTable.MapBelowLarge` | kern/page-table.h:133-143 | MapPage there: it reports nothing and overwrites the mapped memory |
| `PageTable.DamageDone` | kern/page-table.h:97 | in that case the walk of every address is as before, and the frame the 1 GB entry maps is not |
| `DirectMap.LeafIdentity` | kern/page-table.cc:18-46 | an entry of 4 KB, 2 MB or 1 GB for an aligned address translates every address of its stretch to itself |
| `DirectMap.Level` | kern/page-table.cc:18-41 | the entry chosen starts at the address and, unless it is a 4 KB one, ends within the range |
| `DirectMap.LevelIsSize` | kern/page-table.cc:18-41 | every address gets the largest of 1 GB, where allowed, 2 MB and 4 KB whose aligned stretch around it lies in the range |
| `DirectMap.RangeAbove` | kern/page-table.cc:11-55 | the tables of a range are exactly those above the entries its addresses want |
| `DirectMap.TablesCount` | kern/page-table.cc:11-55 | the number of tables: one if anything is mapped, and one for each 1 GB and each 2 MB stretch that holds an address mapped by a smaller entry |
| `DirectMap.OneGigabyte` | kern/page-table.cc:18-29 | an aligned gigabyte of available memory takes one table |
| `DirectMap.MapStretch` | kern/page-table.cc:13-54 | one entry of any of the three sizes changes exactly its own stretch, replaces no table, and fails exactly when the pages do not reach for the tables above it |
| `DirectMap.MapPages` | kern/page-table.cc:11-55 | the pages that start in the range translate to themselves with the given write-through, each by the largest entry that fits; every other address of the window is as before |
| `DirectMap.BuildTables` | kern/page-table.cc:79-93 | after the loop, an address is mapped if and only if an aligned entry holds the start of its page; the tables are exactly those above the entries used, and it fails exactly when there is not one page more than they take |
| `DirectMap.TopTree` | kern/page-table.cc:99-100 | the top table and the tables under kern_entry make one four-level tree |
| `DirectMap.WindowWalk` | kern/page-table.cc:99-100 | replacing two slots of the top table leaves the walk of the window as built |
| `DirectMap.InitKernelPageTable` | kern/page-table.cc:72-103 | panics exactly when an entry ends beyond 512 GB and otherwise fails exactly when there is not one page more than the tables needed; else the walk of KERN_OFFSET+p gives p for exactly the p in a page of an aligned entry, by the largest entry that fits, write-through exactly on entries that are not available, everything else is unmapped, and the tables are a tree off the free pages on which MapPage can go on |
| `ClockScaling.MulShift` | kern/kvm-clock.cc:66-69 | mulq and shrd give the floor of the product over 2^32, which fits in 64 bits |
| `ClockScaling.MovedIs` | kern/kvm-clock.cc:53-57 | the shift is a product with 2^shift, or the quotient by 2^-shift |
| `ClockScaling.NanoIsFloor` | kern/kvm-clock.cc:51-71 | for every count and shift: the floor of the shifted register times the multiplier over 2^32 |
| `ClockScaling.NanoExactIff` | kern/kvm-clock.cc:53-57 | it is the scaled time itself if and only if the shift does not overflow (or the multiplier is 0) |
| `ClockScaling.NanoMonotone` | kern/kvm-clock.cc:51-71 | later counts never give earlier times while the shift does not overflow |
| `ClockScaling.NanoMonotoneIff` | kern/kvm-clock.cc:51-71 | monotone up to a count if and only if the shift does not overflow there (or the multiplier is 0) |
| `ClockScaling.NanoAdditive` | kern/kvm-clock.cc:51-71 | f(a)+f(b) <= f(a+b) <= f(a)+f(b)+2, right shifts included |
| `ClockScaling.NanoLosesTwo` | kern/kvm-clock.cc:55-57 | the bound 2 is reached |
| `ClockScaling.NanoWraps` | kern/kvm-clock.cc:53-54 | for every left shift and multiplier: the first count that overflows gives 0, and the one before it does not |
| `Seqlock.NextInv` | kern/kvm-clock.cc:38-46 | every step of the writer or the reader keeps: what was read at an unchanged even version is that version's record |
| `Seqlock.RunInv` | kern/kvm-clock.cc:38-46 | the same in every reachable state |
| `Seqlock.ReadOutcome` | kern/kvm-clock.cc:38-46 | a read is accepted if and only if its first two loads of the version gave the same 32 bits and the version is even at the third; otherwise the reader goes round again |
| `Seqlock.AcceptedAtRest` | kern/kvm-clock.cc:46 | no read is accepted while an update is under way |
| `Seqlock.OddEndsLater` | kern/kvm-clock.cc:38-46 | an accepted read that began in an update ended after it |
| `Seqlock.QuietReadAccepted` | kern/kvm-clock.cc:38-46 | with the writer still, a read is accepted if and only if it starts between updates |
| `Seqlock.FieldSeen` | kern/kvm-clock.cc:78-86 | each field a reader holds is what memory held at some point of that read |
| `Seqlock.AcceptedWhole` | kern/kvm-clock.cc:78-86 | a read accepted with an even first load is the whole of one published record, if fewer than 2^31 updates complete between the compared loads |
| `Seqlock.TornAt` | kern/kvm-clock.cc:86 | for every odd version there is a run in which a mixture of two records is accepted |
| `Seqlock.SafeIffEven` | kern/kvm-clock.cc:38-46 | all accepted reads with first load w are whole if and only if w is even |
| `Seqlock.WrapTears` | kern/kvm-clock.cc:36-46 | after exactly 2^31 updates the u32 version repeats and a mixture is accepted |
| `BootTime.StepIsAtomic` | kern/kvm-clock.cc:97-102 | every step either leaves last_boot_time alone or is one whole atomic maximum that decides the value returned |
| `BootTime.RunningMaximum` | kern/kvm-clock.cc:96-104 | in every interleaving the k-th value returned is the greatest time among the first k calls to return |
| `BootTime.StepOfCall` | kern/kvm-clock.cc:96-104 | a call keeps its time until it returns the greater of that and last_boot_time, and what it returned stays |
| `BootTime.KeepsTime` | kern/kvm-clock.cc:96-104 | the same over every run |
| `BootTime.NotBeforeOwnTime` | kern/kvm-clock.cc:96-104 | a call never returns less than the time it came with, and its answer is on record |
| `BootTime.NeverFalls` | kern/kvm-clock.cc:96-104 | last_boot_time never decreases |
| `BootTime.LaterCallsNotLess` | kern/kvm-clock.cc:96-104 | a call that starts after another has returned never returns a smaller value |
| `BootTime.RetryOnlyAfterGrowth` | kern/kvm-clock.cc:102 | a compare-and-swap fails if and only if the word has grown since it was loaded |
| `Scheduling.MovesUp` | kern/scheduler.cc:31-43 | the k-th ready thread moves up one place at each of the first k RoundRobin calls, whatever is added or exits |
| `Scheduling.NotBefore` | kern/scheduler.cc:31-43 | and, being there once, is current after none of them |
| `Scheduling.DispatchedInTurn` | kern/scheduler.cc:31-43 | the (k+1)-th RoundRobin dispatches it |
| `Scheduling.BoundedWaiting` | kern/scheduler.cc:31-43 | among the first k+1 RoundRobin calls it is current after exactly the (k+1)-th |
| `Scheduling.RunKeeps` | kern/scheduler.cc:14-43 | over every sequence of calls the threads ready, current and exited are those there before and those added, each as often |
| `Scheduling.ExactlyOnePlace` | kern/scheduler.cc:14-43 | a thread added once is in exactly one of ready, current and exited |
| `Scheduling.StepExits` | kern/scheduler.cc:21-29 | exactly the current thread joins the exited, at their front |
| `Scheduling.ExitedForGood` | kern/scheduler.cc:14-43 | a thread that has exited is never ready or current again |
| `Scheduling.Scheduler.constructor` | kern/scheduler.cc:6-12 | three empty rings and no current thread |
| `Scheduling.Scheduler.AddThread` | kern/scheduler.cc:14-19 | the new node is last on the ready ring and nothing else moves |
| `Scheduling.Scheduler.RoundRobin` | kern/scheduler.cc:31-43 | the current thread goes last, the first becomes current; NULL exactly when there is neither |
| `Scheduling.Scheduler.ExitCurrentThread` | kern/scheduler.cc:21-29 | the thread goes to the exit ring and the next is dispatched; a null pointer is followed exactly when there is no current or no ready thread |
| `Scheduling.LastThreadExits` | kern/scheduler.cc:21-29 | an input: the only thread exits and the null pointer is followed |
| `MemoryCopy.MemCpy` | kern/libc/string.c:20-28 | the n bytes are copied and the rest of the destination is unchanged |
| `MemoryCopy.MemMove` | kern/libc/string.c:30-39 | the loop is the byte-by-byte downward copy |
| `MemoryCopy.DownExact` | kern/libc/string.c:30-39 | which moves the bytes when the destination does not start below an overlapping source |
| `MemoryCopy.MoveIff` | kern/libc/string.c:30-39 | memmove moves, whatever the memory holds, if and only if not dst < src < dst + n |
| `Vectors.InsertElements` | kern/libc/vector.h:70-71 | opening a gap of one element in the bytes is inserting one element in the sequence |
| `Vectors.PushesShape` | kern/libc/vector.h:23-32 | after k insertions the capacity is the number copied plus 16, at least k and, beyond 16, below 2k |
| `Vectors.PushesCheap` | kern/libc/vector.h:80-82 | k >= 1 PushBack calls from empty copy fewer than 2k elements in growth |
| `Vectors.Vector.constructor` | kern/libc/vector.h:45 | an empty vector without a buffer |
| `Vectors.Vector.ResetPtr` | kern/libc/vector.cc:5-16 | a new buffer of the new capacity with the same contents |
| `Vectors.Vector.EnsureSpace` | kern/libc/vector.h:23-32 | room for one more, contents kept, capacity 0, 16, 32, ... |
| `Vectors.OpenGapAt` | kern/libc/vector.h:70-71 | the bytes from the position move up through the overlapping copy and the element fills the gap |
| `Vectors.Vector.Insert` | kern/libc/vector.h:67-73 | for every pos <= len the contents are the old sequence with the element inserted at pos, through growth |
| `Vectors.Vector.PushBack` | kern/libc/vector.h:80-82 | appends the element |
| `Vectors.RemoveIff` | kern/libc/vector.h:77 | the copy in Remove is right, whatever the contents, if and only if at most one element follows the one removed |
| `TextBuffer.LayoutReadsBack` | kern/console.cc:15-46 | the rows an output makes read back as that output, and none is wider than 80 |
| `TextBuffer.TopOfPut` | kern/console.cc:17-37 | the screen scrolls by one row exactly when the cursor, after a wrap, is below it |
| `TextBuffer.TopIs` | kern/console.cc:17-37 | nothing scrolls off while 25 rows suffice, and then only what does not fit |
| `TextBuffer.CellOfPut` | kern/console.cc:38-45 | a character appears in one cell, a newline or wrap in none |
| `TextBuffer.VGABuffer.constructor` | kern/console.cc:9-13 | a blank screen with the cursor in the corner |
| `TextBuffer.VGABuffer.Scroll` | kern/console.cc:22-29 | every row takes the one below, the last is blank |
| `TextBuffer.VGABuffer.WriteByte` | kern/console.cc:15-46 | after any output the buffer holds its last 25 rows, not counting a row just begun, and blanks below them |

## Left out

- Inline assembly, context switching, interrupts and SMP boot: machine semantics; `mulq`, `shrd`, `rdtsc` and the compare-and-swap are specified operations, and the time stamp is a parameter.
- APIC, I/O ports, serial, PCI, ACPI and the scan of multiboot tags: device and record plumbing; the memory map is a sequence of entries.
- The TLB, accessed and dirty bits, and memory orders weaker than sequential consistency.
- `InitBootPageTable`: the top table it leaves is taken as given, with no entry but those of slots 0 and 510 present.
- Kernel pointers: addresses are physical, and a pointer is its address plus KERN_OFFSET.
- Contents of allocated memory: the allocator is modelled by what it hands out, not by what callers write there.
- Descriptor bodies: bitmap rows and free stacks are values in maps that the methods reassign, so their update in place inside a descriptor's 64 bytes is not captured.
- `CreateNew`, `PrintStat`, `DumpPageTableFromEntry` and the memory totals printed at start-up: nothing hard to state.
- The waiting queue of the scheduler, which nothing uses, and freeing the stack of an exited thread.
- Hardware VGA writes, colours and format strings; the serial port.
- Vector `PopBack`, `CopyFrom`, `Compact` and the move constructor; Alloc running out under a growing vector; byte counts of 2 GB and more, which memcpy and memmove take as `int`.
- PageAllocator.MemPages.AllocPages: counts below 1 are not modelled, because no caller passes one.
- BootMemory.Boot: maps in which two managed entries visit the same page are not modelled, because that page would be linked into the ring twice; `available()` and the other totals are left out.
- The linker script: that `_load_start` is not above `_bss_end` is taken from it (linker.ld), as `loadStart <= bssEnd`.
- BootMemory.CollectAvailable: the same maps are not modelled, for the same reason.
- KernelRuns.PowerOn: maps with a managed entry that starts off a page are not modelled beyond Boot, because a page that holds page structs can then be free and the structs are kept apart from the memory they describe.
- Startup.BootServes: the same.
- Startup.EveryRunServes: the same.
- SlabAllocator.Slabs.FreeBytes: only for memory the caller holds, because the kernel keeps nothing by which to recognise other pointers.
- PageTable.PhysicalMemory.MapPage: addresses that are not page-aligned or lie above bit 51 are not modelled; what exactly is overwritten below a 1 GB entry is stated where the frame is no table, is not free and has no present word there.
- PageTable.PhysicalMemory.MapStretchOf: stretches with a page under a large translation are not modelled beyond MapPage, and which pages are mapped when the tables run out half-way is not stated.
- Vectors.Vector.Insert: positions beyond the length are not modelled, because the copy length underflows there.
