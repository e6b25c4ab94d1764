# Verified models of the kernel's memory manager, romfs tools and small cores

This project models, in Dafny, the parts of the repository that carry the most state and
arithmetic, and proves what they keep over every run:

* **Page allocator** (`mm/mem.c`). `BuddySpec` gives the pool as a value: order, BUSY and
  DIRTY of every page and the blocks on each list. `BuddyTheorems` and `BuddyRuns` prove
  what holds of it, `BuddyAligned` when blocks stay aligned and the initial ones come back,
  `BuddyUnaligned` gives a run in which they do not, `BuddyBuild` shows that single pages
  given back in order make a block wherever they lie. `BuddyLinks`, `BuddyInit` and
  `PagePools` treat the intrusive circular lists: class `PagePool` holds the fields of the
  page descriptors and the nine list heads, its methods do the pointer surgery in place, and
  each of them is proved to be the operation on the value.
* **Object caches and kmalloc** (`mm/mem.c`). `SlabSpec`, `SlabSteps` and `KmallocRuns` are
  the caches as values, `KmallocEffects` says what each operation of a run does; `SlabRep`
  says how they lie in memory (the free list inside the objects, the slab chain in the page
  descriptors); class `KernelHeap` works in place.
  `HeapGeometry` covers addresses, descriptors and `virt_to_page`. `TaskMemory` is about
  what `current_task_info` (`kernel/proc.c`) needs of the memory kmalloc gives a task,
  `BootRoom` about what kmalloc_init leaves, and `TaskRuns` about where a run can put a task.
* **romfs** (`tools/genromfs.c`, `fs/romfs/romfs.c`). `RomfsLayout` has the two passes as
  functions of a tree, `RomfsImage` the image with its checksums, `RomfsFormat` the format
  byte by byte, class `Writer` the second pass in place on its two buffers, `RomfsGenerator`
  the first pass and the whole program, `RomfsPaths` paths and the two searches of a tree,
  `RomfsReader` the kernel's path walk on a device, `RomfsRoundTrip` the way from a tree to
  the image and back.
* **Smaller cores.** `TaskRing` (`kernel/proc.c`), `Print` (`lib/print.c`) and `Mmu`
  (`mm/mmu_init.c`).

`Common`, `Powers` and `Bits` (masks and shifts on numbers) hold shared definitions.
`dafny verify dfyconfig.toml` checks everything.

## What the proofs found out about the code

* At boot the pool is free of joinable neighbours exactly when the page count leaves at most
  one page over a multiple of 256 (`BuddyRuns.InitCoalescedExactly`): pages left over are
  strung one by one and never merged until one of them is allocated and freed. No later
  step ever adds such a pair, so in every run they exist only in that tail.
* Freeing a block just allocated restores the pool, list order included, exactly when the
  block it was cut from had no free neighbour of its own order or was of the largest order
  (`BuddyTheorems.AllocFreeIdentity`). In a coalesced pool that is always so (`BuddyRuns.AllocFreePages`).
* Merging looks at neighbours, not at alignment, so a block need not start at a multiple of
  its size, and freeing everything need not bring the initial blocks back. Allocation keeps
  blocks aligned (`BuddyAligned.AllocAligned`); joining the blocks of order k at t and
  t + 2^k does exactly when t is a multiple of 2^(k+1) (`BuddyAligned.JoinAlignedExactly`);
  so blocks are aligned in every state of a run exactly when every join in it is of that kind
  (`BuddyAligned.RunAlignedExactly`). When a run from boot has freed everything, the initial
  blocks are back exactly when the blocks are aligned, and hence whenever every join was
  (`BuddyAligned.RunRebuildsExactly`). `BuddyUnaligned.NotRebuilt` gives, on a pool of 256
  pages, a run of eight steps in which pages 253 and 254 join and the initial block is not rebuilt.
* `current_task_info` finds the task from its stack pointer exactly when the task's memory is
  aligned to 8192 bytes (`TaskMemory.CurrentTaskExactly`). What kmalloc gives is so exactly
  when its slab starts at an even page, as it does while blocks of the pool are aligned
  (`TaskMemory.TaskFoundExactly`). It need not stay so: on every machine with 8702 pages or
  more (the configured layout has 11707, `HeapGeometry.ConfiguredPages`) there is a run after
  kmalloc_init, destroying no class, after which kmalloc puts a task at an odd page
  (`TaskRuns.TaskLost`). The class is used up, the other pages are taken one by one, and 32 of
  them are given back in order from an odd one on (`BuddyBuild.BlockAnywhere`).
* Formatting a slab stays inside it exactly when objects have room for a link and what is
  left after the last whole object is nothing or has room for one, too
  (`SlabSpec.LinksInsideExactly`, for every size above 0 that fits the slab); every kmalloc
  class is of this kind. There is an order exactly for sizes up to 13120, so the last test of
  `find_right_order` (mm/mem.c:356) is always met when it is reached.
* `virt_to_page` also accepts the page behind the last one
  (`HeapGeometry.VirtToPageExactly`).
* The reader stops at the first path component that equals the last one, so it searches the
  path cut off there. That finds the same in every tree exactly when no earlier component
  equals the last (`RomfsPaths.TruncateExactly`).
* Below a component the reader goes on at whatever offset the second word of the node gives:
  for an empty directory (as the `.` of the root is written) the directory itself and the
  nodes behind it, for a hard link (as `..` and the `.` of other directories are) the node
  linked to and the nodes behind that one, instead of the entries of a directory. For all
  paths below a list of nodes its search is the plain one exactly when every node that a path
  can meet there is a directory with entries or ends the search (`RomfsPaths.WalkExactly`).
  With an empty directory a and a file b behind it, it finds b as a/b
  (`RomfsPaths.FoundThroughEmpty`).
* On a path that meets only directories with entries and nodes without an offset, what is cut
  off matters exactly when something stands at the path that is left
  (`RomfsPaths.ReaderExactly`).
* bmap copies a component without its zero, so a component shorter than one before it reads
  with the end of that one: after usr, a reads asr (`RomfsPaths.ShorterReads`). The names are
  read as they are exactly when none but the last is shorter than one before it and a zero
  was behind each in the buffer (`RomfsPaths.NamesExactly`).
* When the first entry of the root is padded for alignment, the reader takes the padding for
  the only entry. It then finds nothing but that padding itself, under the name it seems to
  have: none, unless the padding is 16 bytes and the image above 16 MB
  (`RomfsRoundTrip.ReadPadded`).
* A task waiting at distance d first runs exactly when schedules less creations first reach
  d (`TaskRing.RunsFirstExactly`), so tasks created as fast as tasks are switched keep it
  waiting for ever (`TaskRing.NeverRuns`).
* Once a format has contained `%l`, the rest of it is shown without its conversions, whatever
  the arguments (`Print.WidthSilences`); `%%` and unknown directives are copied as they stand.
* When the output does not fit, vsnprintf counts characters and literal text past the end of
  the buffer but strings only up to it, so it returns the length of the whole output if that
  fits and otherwise some number not below the size (`Print.AdvanceExactly`). Numbers are
  written past the end; what is behind the buffer is left alone exactly when every number
  ends before the buffer does (`Print.BehindExactly`).

## Model

| member | source | states |
|---|---|---|
| BuddySpec.SplitInv | mm/mem.c:234-247 | cutting a block down to any smaller order keeps the tiling, the lists exact and the flags right, and yields the end of the block |
| BuddySpec.MergeInv | mm/mem.c:257-291 | merging upwards and stringing the result keeps the tiling, the lists exact and the flags right |
| BuddySpec.GetInv | mm/mem.c:212-247 | the block handed out lies in the pool, is busy and of the order asked for, and the pool stays sound |
| BuddySpec.FirstOrder | mm/mem.c:219-231 | finds the smallest sufficient order whose list is not empty |
| BuddySpec.JoinTiled | mm/mem.c:263-282 | two adjacent blocks of one order become one block of a tiling |
| BuddySpec.CutTiled | mm/mem.c:235-243 | a block cut in half leaves a tiling |
| BuddyTheorems.Partition | mm/mem.c:171-292 | every page lies in exactly one block; a free block is on the list of its order and no other, a busy one on none |
| BuddyTheorems.AllocFailsExactly | mm/mem.c:219-232 | allocation fails if and only if no free block of at least the order exists |
| BuddyTheorems.AllocSmallestFit | mm/mem.c:219-246 | otherwise it takes the end of a free block of the smallest sufficient order and touches no page outside that block |
| BuddyTheorems.AllocTakesExactly | mm/mem.c:212-247 | exactly 2^order pages become busy, all were free, every other busy block stays as it is |
| BuddyTheorems.FreeReleasesExactly | mm/mem.c:251-292 | exactly the pages of the block become free, whatever it merges with; every other busy block stays |
| BuddyTheorems.MergeNoSplinter | mm/mem.c:259-289 | the merge loop stops only when no joinable pair involves the new block |
| BuddyTheorems.SplitNoSplinter | mm/mem.c:219-243 | a half put back has no free neighbour of its order, as all smaller sufficient lists were empty |
| BuddyTheorems.AllocKeepsCoalesced | mm/mem.c:212-247 | allocation creates no joinable pair of free blocks |
| BuddyTheorems.FreeKeepsCoalesced | mm/mem.c:251-292 | freeing creates no joinable pair of free blocks |
| BuddyTheorems.MergeUndoesSplit | mm/mem.c:234-291 | the merge loop climbs back every level a split went down |
| BuddyTheorems.AllocFreeIdentity | mm/mem.c:212-292 | freeing the block just taken restores the whole pool if and only if its source block could not itself be joined |
| BuddyTheorems.CoalescedIdentity | mm/mem.c:212-292 | in a pool without joinable pairs freeing the block just taken always restores the whole pool |
| BuddyRuns.AllocFreePages | mm/mem.c:299-318 | so do alloc_pages and free_pages, DIRTY flags included |
| BuddyRuns.InitInv | mm/mem.c:171-202 | the boot-time pool satisfies the invariant for any page count |
| BuddyRuns.InitCoalescedExactly | mm/mem.c:180-201 | its joinable pairs are exactly the neighbouring single pages left over; there are none if and only if at most one page is |
| BuddyRuns.AllocSound | mm/mem.c:299-310 | alloc_pages keeps the invariant and DIRTY exact, taking only free pages |
| BuddyRuns.FreeSound | mm/mem.c:312-318 | free_pages keeps the invariant and DIRTY exact |
| BuddyRuns.StepKeepsCoalesced | mm/mem.c:212-318 | a pair joinable after a step was joinable before it, at the same place and of the same order |
| BuddyRuns.RunSound | mm/mem.c:212-318 | any run keeps the pool sound, and a pair joinable after it was joinable before it, at the same place and of the same order |
| BuddyRuns.EveryRun | mm/mem.c:171-318 | from boot, every run keeps tiling, lists and DIRTY exact; joinable pairs are single pages in the tail of fewer than 256 pages, and there are none if at most one page is left over |
| BuddyRuns.AllocConserves | mm/mem.c:299-310 | the free pages lose exactly the 2^order pages handed out |
| BuddyRuns.FreeConserves | mm/mem.c:312-318 | the free pages gain exactly the pages of the block |
| BuddyRuns.AllocEffect | mm/mem.c:299-310 | a request for 2^o pages takes exactly that many free pages as one new busy block of order o if some free block is as large, and otherwise changes nothing; all other busy blocks stay |
| BuddyRuns.FreeEffect | mm/mem.c:312-318 | giving a busy block back makes exactly its pages free and keeps all other busy blocks; giving back anything else changes nothing |
| BuddyRuns.FirstFromBoot | mm/mem.c:171-247 | which page the first request after boot gets, for every page count and order |
| BuddyAligned.AllocAligned | mm/mem.c:212-247 | allocation leaves every block at a multiple of its size |
| BuddyAligned.JoinAlignedExactly | mm/mem.c:263-282 | joining aligned blocks of order k at t and t + 2^k leaves all blocks aligned if and only if t is a multiple of 2^(k+1) |
| BuddyAligned.MergeAlignedExactly | mm/mem.c:257-291 | after the merge loop all blocks are aligned if and only if each of its joins was aligned |
| BuddyAligned.FreeAlignedExactly | mm/mem.c:251-292 | so after freeing a block |
| BuddyAligned.NoSmallBlock | mm/mem.c:259-289 | where free blocks are aligned and none can be joined there is no block below the largest order |
| BuddyAligned.RebuiltExactly | mm/mem.c:171-292 | with everything free and nothing joinable, the initial blocks are there if and only if every block is aligned |
| BuddyAligned.RunAlignedExactly | mm/mem.c:212-318 | blocks are aligned in every state of a run if and only if every join of the run was aligned |
| BuddyAligned.RunRebuildsExactly | mm/mem.c:171-318 | a run from boot that ends with everything free brings the initial blocks back if and only if its last state is aligned, hence whenever all its joins were |
| BuddyAligned.RebuiltPool | mm/mem.c:171-318 | the pool is then the initial one but for the order of blocks on their lists |
| BuddyUnaligned.SplitHalves | mm/mem.c:234-243 | each list between the order wanted and that of the block gets, at its end, the half next to what is left |
| BuddyUnaligned.TakePage | mm/mem.c:212-247 | a single page taken is the last of the first block on the smallest non-empty list, and what then is on every list |
| BuddyUnaligned.GiveAlone | mm/mem.c:251-292 | a single page without a free single neighbour goes to the front of list 0 |
| BuddyUnaligned.GiveBehind | mm/mem.c:273-291 | a single page behind a free one joins it, wherever that one lies |
| BuddyUnaligned.NotRebuilt | mm/mem.c:259-291 | in a pool of 256 pages, a run with one unaligned join ends with every page free, no pair joinable, and the initial block not back |
| BuddyBuild.TakeAll | mm/mem.c:212-247 | as many single pages taken as are free leave no block free, and every page that was free is a busy block by itself |
| BuddyBuild.Build | mm/mem.c:251-292 | 2^k single pages given back in ascending order, with nothing beside them to join, become one pending block of order k at the first of them |
| BuddyBuild.BlockAnywhere | mm/mem.c:251-292 | in a pool with no free block, they become its only free block, wherever they lie |
| BuddyLinks.RingRemove | mm/mem.c:49-52 | unlinking a block's chain leaves a circular doubly linked list of the other blocks |
| BuddyLinks.RingAdd | mm/mem.c:54-59 | linking a chain in front gives the list with the block first |
| BuddyLinks.RingAddTail | mm/mem.c:61-66 | linking a chain at the tail gives the list with the block last |
| BuddyLinks.PopLinked | mm/mem.c:224-228 | cutting the first chain off its head keeps all nine lists and all chains inside blocks linked |
| BuddyLinks.PushLinked | mm/mem.c:291 | so does stringing the merged block in front |
| BuddyLinks.SplitStepLinked | mm/mem.c:236-242 | so does putting the first half at the tail of its list |
| BuddyLinks.JoinLinked | mm/mem.c:263-282 | so does unlinking a neighbour and linking the two chains at the seam |
| BuddyInit.StringOne | mm/mem.c:187-200 | one turn of the boot loop strings one more page on the right list |
| BuddyInit.StrungLinked | mm/mem.c:180-201 | pages strung one by one make up the chains of the initial blocks |
| PagePools.PagePool.constructor | mm/mem.c:151-202 | a pool of any size starts linked and equal to the initial pool |
| PagePools.PagePool.InitPageBuddy | mm/mem.c:163-168 | all nine heads are empty rings |
| PagePools.PagePool.InitPageMap | mm/mem.c:171-202 | the boot loop, in place, builds the initial pool and its lists |
| PagePools.PagePool.ListRemoveChain | mm/mem.c:49-52 | exactly two links change, to each other |
| PagePools.PagePool.ListAddChain | mm/mem.c:54-59 | the four links written, from the old links |
| PagePools.PagePool.ListAddChainTail | mm/mem.c:61-66 | the four links written, from the old links |
| PagePools.PagePool.FindList | mm/mem.c:219-232 | the search over heads finds the smallest sufficient non-empty list |
| PagePools.PagePool.TakeFirst | mm/mem.c:224-228 | returns the first block of the list and unstrings it |
| PagePools.PagePool.GetPagesFromList | mm/mem.c:212-247 | in place, is allocation on the value; on failure nothing changes; links at ends of busy blocks survive |
| PagePools.PagePool.PutHalves | mm/mem.c:235-243 | the split loop reaches the state from which the block of the order wanted is all that is left |
| PagePools.PagePool.CutHalf | mm/mem.c:236-242 | one turn puts the first half on its list |
| PagePools.PagePool.JoinNext | mm/mem.c:263-272 | the next block leaves its list and is linked behind |
| PagePools.PagePool.JoinPrev | mm/mem.c:273-284 | the previous block leaves its list and is linked before |
| PagePools.PagePool.MergeOnce | mm/mem.c:260-288 | one turn of the merge loop takes the branch the value takes |
| PagePools.PagePool.MergeUp | mm/mem.c:259-291 | the loop and the final stringing are the merge on the value |
| PagePools.PagePool.PutPagesToList | mm/mem.c:251-292 | in place, is freeing on the value; a page that is not busy is left alone |
| PagePools.PagePool.MarkPages | mm/mem.c:306-308 | exactly the pages of the block change their DIRTY flag |
| PagePools.PagePool.AllocPages | mm/mem.c:299-310 | in place, is alloc_pages on the value; NULL exactly when it has no block |
| PagePools.PagePool.FreePages | mm/mem.c:312-318 | in place, is free_pages on the value; links at ends of busy blocks survive |
| PagePools.PagePool.SetEndNext | mm/mem.c:399-400 | the next link in a busy block's last page can be written without disturbing any list |
| HeapGeometry.AreasDisjoint | mm/mem.c:104-111 | for any region and descriptor size the paged area ends before the descriptors, wasting less than one page and descriptor |
| HeapGeometry.ConfiguredPages | include/mem_layout.h:32-60 | the configured layout has 11707 pages from an address that is a multiple of 8192 |
| HeapGeometry.VirtToPageExactly | mm/mem.c:155-161 | an address maps to descriptor i if and only if it lies in page i, for the pages and the one behind; to NULL if and only if it lies elsewhere |
| HeapGeometry.PageRoundTrip | mm/mem.c:155-182 | virt_to_page of any address inside a page inverts page_address |
| HeapGeometry.OffsetsAgree | mm/mem.c:155-161 | the offsets used for addresses elsewhere give the page virt_to_page gives |
| TaskMemory.CurrentTaskExactly | kernel/proc.c:6-10 | every stack pointer into the memory of a task leads back to it if and only if that memory is aligned to its size |
| TaskMemory.TaskAlignedExactly | kernel/proc.c:61-67 | memory of that size from a cache is aligned if and only if its slab starts at an even page, which it does while the pool's blocks are aligned |
| TaskMemory.TaskFoundExactly | kernel/proc.c:61-67 | what kmalloc returns for a task on a booted heap is found from every stack pointer into it if and only if its slab starts at an even page, and always while blocks are aligned |
| BootRoom.AllocShort | mm/mem.c:219-243 | allocation lengthens no list beyond one block, as halves go to empty lists |
| BootRoom.LargestLeft | mm/mem.c:219-243 | a pool with such lists and more than 509 free pages has a free block of the largest order |
| BootRoom.BootRoomLeft | mm/mem.c:470-478 | with 8702 pages or more kmalloc_init sets up all classes and leaves a block of the largest order |
| TaskRuns.TaskAnywhere | mm/mem.c:428-486 | from any booted heap, pages inside a larger free block can be made the next slab for tasks by a run, and kmalloc then returns their address |
| TaskRuns.TaskLost | kernel/proc.c:6-10 | with 8702 pages or more there is a run after kmalloc_init after which some stack pointer into the memory kmalloc gives a task does not lead back to it |
| SlabSpec.ObjectsFit | mm/mem.c:362-380 | the objects of a slab lie inside it and do not overlap |
| SlabSpec.ObjectsAt | mm/mem.c:362-380 | the i-th object starts i sizes into the slab |
| SlabSpec.ObjectsCount | mm/mem.c:362-380 | there are as many as the slab divided by the size, rounded down |
| SlabSpec.LinksInsideExactly | mm/mem.c:366-373 | for every size above 0 that fits the slab, the 4-byte links formatting writes stay inside it if and only if the size is 4 or more and so is the rest, if any |
| SlabSpec.LinksApart | mm/mem.c:366-380 | no two of these links overlap |
| SlabSpec.ObjectsApart | mm/mem.c:362-455 | any two different objects, of one cache or of two, share no byte |
| SlabSpec.RefillInv | mm/mem.c:437-447 | a further slab keeps the heap sound and gives free objects |
| SlabSteps.TakeInv | mm/mem.c:449-454 | handing out the first free object keeps the heap sound and records the owner of its page |
| SlabSteps.AllocInv | mm/mem.c:428-455 | kmem_cache_alloc keeps the heap sound, refilling or not |
| SlabSteps.FreeInv | mm/mem.c:421-425 | kmem_cache_free of a live object keeps the heap sound, also when no object was free |
| SlabSteps.RightOrderLeast | mm/mem.c:349-359 | the least order with size <= 410 * 2^order, -1 if and only if the size exceeds 13120 |
| SlabSteps.SlabUse | mm/mem.c:341-380 | a slab of that order holds bytes / size objects, at least nine, and wastes less than 410 * 2^order bytes |
| SlabSteps.CreateInv | mm/mem.c:383-403 | kmem_cache_create keeps the heap sound |
| SlabSteps.FreeSlabsExact | mm/mem.c:406-419 | destroying gives back every slab once and no other busy page |
| SlabSteps.DestroyInv | mm/mem.c:406-419 | kmem_cache_destroy keeps the heap sound |
| SlabRep.TakeRecord | mm/mem.c:449-451 | popping the free list inside the objects is taking the first free object |
| SlabRep.GiveRecord | mm/mem.c:421-425 | pushing an object is putting it in front of the free objects |
| SlabRep.GrowRecord | mm/mem.c:441-446 | chaining a slab through the last page of the newest one is appending it |
| SlabRep.EndsSurvive | mm/mem.c:399-419 | page operations on other blocks keep the slab chain of a cache |
| SlabRep.FormatElsewhere | mm/mem.c:362-380 | formatting a block leaves free lists and live bytes of all caches that do not own it |
| KmallocRuns.KmallocClass | mm/mem.c:459-485 | kmalloc serves exactly the sizes 1 to 8192, from the smallest class that fits |
| KmallocRuns.ClassCreatable | mm/mem.c:459-478 | every class can be formatted |
| KmallocRuns.BootClassesResult | mm/mem.c:470-478 | kmalloc_init sets up all 256 classes or stops at one the pool has no block for |
| KmallocRuns.StepInv | mm/mem.c:299-492 | every operation, on pages, on any cache or through kmalloc, keeps the heap sound |
| KmallocRuns.RunInv | mm/mem.c:299-492 | so does every run |
| KmallocRuns.LiveObjectsDisjoint | mm/mem.c:362-492 | in every reachable state live objects are disjoint, each inside one slab of its cache, and its page names that cache |
| KmallocEffects.FreeEffect | mm/mem.c:421-425 | in a run, kfree and kmem_cache_free take exactly the object out of the live ones and put it in front of the free ones; of what is not live they change nothing |
| KmallocEffects.DrawEffect | mm/mem.c:428-455 | kmem_cache_alloc makes exactly one object live: the first free one, or the first of one further slab of 2^order free pages; with neither nothing changes |
| KmallocEffects.MallocEffect | mm/mem.c:480-486 | kmalloc is that on class (size - 1) / 32 for sizes 1 to 8192, and changes nothing for others |
| KmallocEffects.CreateEffect | mm/mem.c:383-403 | kmem_cache_create fills the slot with a cache of one slab of free objects, taking exactly its pages, or changes nothing |
| KmallocEffects.DestroyEffect | mm/mem.c:406-419 | kmem_cache_destroy empties the slot and makes exactly the pages of its slabs free |
| KmallocEffects.TakeEffect | mm/mem.c:299-310 | pages taken by others are taken from the pool, all caches as they are |
| KmallocEffects.GiveEffect | mm/mem.c:312-318 | pages given back by others are given to the pool, all caches as they are |
| KmallocRuns.KmallocResult | mm/mem.c:480-486 | kmalloc returns NULL exactly for other sizes or when nothing can be refilled, changing nothing; otherwise one new object with room for the request, apart from all live ones |
| KmallocRuns.KfreeResult | mm/mem.c:488-492 | kfree ends the life of that object only |
| KmallocRuns.FreeThenMalloc | mm/mem.c:421-455 | allocating right after freeing hands the object out again and restores the heap |
| KmallocRuns.RunKeepsObject | mm/mem.c:362-492 | in any run an object stays live and keeps its room until it is freed or its cache destroyed |
| KmallocRuns.RoomKept | mm/mem.c:459-492 | in any run from a booted heap that destroys no class the classes stand, and what kmalloc returned keeps room for the request until it is freed |
| KernelHeaps.KernelHeap.LineObject | mm/mem.c:362-380 | the loop counts the whole objects, chains them and writes the link words of the objects and of the rest, nothing else |
| KernelHeaps.KernelHeap.FindRightOrder | mm/mem.c:349-359 | the loop and the test behind it give the least sufficient order or -1 |
| KernelHeaps.KernelHeap.Grow | mm/mem.c:437-447 | in place, is refilling on the value; no byte of a live object and no link of a free one is written |
| KernelHeaps.KernelHeap.KmemCacheAlloc | mm/mem.c:428-455 | in place, is allocation on the value; no byte of a live object and no link of a free one is written |
| KernelHeaps.KernelHeap.KmemCacheFree | mm/mem.c:421-425 | in place, is freeing on the value; no byte of a remaining live object and no link of a free one is written |
| KernelHeaps.KernelHeap.KmemCacheCreate | mm/mem.c:383-403 | in place, is creation on the value; on failure nothing changes |
| KernelHeaps.KernelHeap.FreeChain | mm/mem.c:410-418 | the walk along the chain terminates and frees exactly the slabs of the cache |
| KernelHeaps.KernelHeap.KmemCacheDestroy | mm/mem.c:406-419 | in place, is destruction on the value |
| KernelHeaps.KernelHeap.KmallocInit | mm/mem.c:470-478 | in place, sets the classes up as the value does |
| KernelHeaps.KernelHeap.Kmalloc | mm/mem.c:480-486 | in place, is kmalloc on the value; no byte of a live object and no link of a free one is written |
| KernelHeaps.KernelHeap.Kfree | mm/mem.c:488-492 | in place, routes the object to the cache its page names |
| KernelHeaps.KernelHeap.TakePages | mm/mem.c:299-310 | pages taken by others: in place, is alloc_pages on the value, and all caches stay as they lie in memory |
| KernelHeaps.KernelHeap.GivePages | mm/mem.c:312-318 | pages given back by others: in place, is free_pages on the value, and all caches stay as they lie in memory |
| KernelHeaps.KernelHeap.Store | mm/mem.c:480-486 | a word stored inside a live object touches no link and no other live object |
| KernelHeaps.KernelHeap.StorePage | mm/mem.c:299-310 | a word stored inside pages held by others touches no link and no live object |
| RomfsBytes.SwapReads | fs/romfs/romfs.c:9-14 | swapping a loaded word gives the big-endian number stored |
| RomfsBytes.SumWordsConcat | tools/genromfs.c:217-229 | checksums add up modulo 2^32 |
| RomfsBytes.FixSumZero | tools/genromfs.c:231-235 | what fixsum has patched sums to zero |
| RomfsLayout.EmittedLengthAll | tools/genromfs.c:310-398 | for every tree the second pass emits exactly the bytes the first pass reserved |
| RomfsLayout.EmittedStoredAll | tools/genromfs.c:310-398 | every header stands at the offset the first pass gave its node, its contents right behind |
| RomfsLayout.LayoutAscending | tools/genromfs.c:508-683 | offsets increase in pre-order, are multiples of 16, and extents do not overlap |
| RomfsLayout.LayoutAligned | tools/genromfs.c:513-525 | data of regular files and headers of other nodes are on the alignment asked for, with less padding than that |
| RomfsImage.FileIsStream | tools/genromfs.c:237-265 | the file is what was passed to dumpdata but for the four checksum bytes |
| RomfsImage.HeadSumsToZero | tools/genromfs.c:254-258 | its first min(512, size) bytes sum to zero |
| RomfsImage.HeaderSumsToZero | tools/genromfs.c:285-303 | every node header sums to zero |
| RomfsImage.ImageCorrect | tools/genromfs.c:400-418 | the image has the length rounded up to 1024, holds every node where it was placed, and its head sums to zero |
| RomfsFormat.NodeWritten | tools/genromfs.c:310-398 | for each node: next offset, type and execute bit, second word, size, zero sum, name, contents and zero padding, in numbers |
| RomfsFormat.TreeWritten | tools/genromfs.c:310-398 | so for every node of a tree |
| RomfsFormat.LayoutSame | tools/genromfs.c:508-683 | the first pass changes nothing of the tree but offsets and paddings |
| RomfsFormat.ImageFormat | tools/genromfs.c:400-418 | the image starts with -rom1fs-, its size, a zero sum over the first 512 bytes and the volume name, and holds every node of the tree in the format |
| RomfsWriter.Writer.RomfsChecksum | tools/genromfs.c:217-229 | the loop computes the sum of the big-endian words |
| RomfsWriter.Writer.FixSumInPlace | tools/genromfs.c:231-235 | patches the checksum field and nothing else |
| RomfsWriter.Writer.DumpData | tools/genromfs.c:237-265 | any chunk, through the head buffer or past it, is appended to the stream; the file is the stream with its head patched |
| RomfsWriter.Writer.DumpZero | tools/genromfs.c:267-271 | appends zeroes |
| RomfsWriter.Writer.DumpDataA | tools/genromfs.c:273-278 | appends data padded to 16 |
| RomfsWriter.Writer.DumpRi | tools/genromfs.c:285-308 | appends a header, patched except at offset 0 |
| RomfsWriter.Writer.DumpFile | tools/genromfs.c:351-374 | appends the file in pieces, then zeroes to a multiple of 16 |
| RomfsWriter.Writer.DumpNode | tools/genromfs.c:310-398 | appends what the second pass emits for the node and its descendants |
| RomfsWriter.Writer.DumpAll | tools/genromfs.c:400-418 | the stream is superblock, nodes and padding |
| RomfsGenerator.AlignNode | tools/genromfs.c:513-525 | the least padding that puts header or data on the alignment, recorded in the node |
| RomfsGenerator.ProcessDir | tools/genromfs.c:527-683 | the loop over the entries is the first pass on the tree |
| RomfsGenerator.ProcessEntry | tools/genromfs.c:641-679 | one entry and its descendants are placed as the first pass does |
| RomfsGenerator.Genromfs | tools/genromfs.c:804-809 | both passes together produce the image of the tree, in the format byte by byte |
| RomfsPaths.TruncateExactly | fs/romfs/romfs.c:111-113 | searching the path cut off at the first component equal to the last finds, in every tree, what searching the whole path finds if and only if no earlier component equals the last |
| RomfsPaths.SplitExactly | fs/romfs/romfs.c:49-60 | the components of a path are the parts without slashes that slashes put together again |
| RomfsPaths.UpToFirst | fs/romfs/romfs.c:111-113 | the path is cut off where the last component first occurs |
| RomfsPaths.LookupFirst | fs/romfs/romfs.c:98-127 | a plain search takes the first node of the name and goes on among its entries |
| RomfsPaths.WalkExactly | fs/romfs/romfs.c:98-127 | for all paths below a list of nodes going on at second words finds what a plain search finds if and only if the first node of each name is a directory with entries, of which the same holds, or has nothing below it |
| RomfsPaths.OrdinaryWalk | fs/romfs/romfs.c:98-127 | on a path that meets only directories with entries and nodes without an offset the two searches agree, in any tree |
| RomfsPaths.EmptyDirectory | tools/genromfs.c:333-340 | behind an empty directory the reader searches for what is left of the path in the list that holds it, where a plain search finds nothing |
| RomfsPaths.FoundThroughEmpty | fs/romfs/romfs.c:111-119 | with an empty directory a and a file b behind it the reader finds b as a/b, which does not exist |
| RomfsPaths.FoundThroughLink | fs/romfs/romfs.c:114-119 | with a hard link l to the node b behind it the reader goes on with b and finds it as l/b |
| RomfsPaths.ReaderExactly | fs/romfs/romfs.c:98-147 | on such a path the reader, cutting it off, finds what a plain search of the whole path finds if and only if no earlier component equals the last or nothing stands at the path cut off |
| RomfsPaths.CopiedReads | fs/romfs/romfs.c:49-60 | a component copied without its zero reads as it is if and only if a zero was behind it; the last one always does |
| RomfsPaths.CopiedWhole | fs/romfs/romfs.c:57-58 | of a component of 128 bytes or more the first 128 are copied |
| RomfsPaths.ShorterReads | fs/romfs/romfs.c:58 | a component behind a longer one reads with the end of that one |
| RomfsPaths.NamesExactly | fs/romfs/romfs.c:49-60 | all components are read as they are if and only if a zero was behind each but the last in the buffer and none of these is shorter than one before it |
| RomfsPaths.AllPathsPlain | fs/romfs/romfs.c:114-119 | in a tree whose links lead to its nodes, and without device numbers that look like offsets, every path keeps to the nodes of the tree |
| RomfsReader.Bmap | fs/romfs/romfs.c:49-60 | copies the first component into the buffer, up to 128 bytes of it, with a zero only if it is the last, and returns what is behind the slash |
| RomfsReader.GetTheFileName | fs/romfs/romfs.c:62-76 | leaves the last component, terminated, in the buffer |
| RomfsReader.Namei | fs/romfs/romfs.c:78-177 | terminates and returns what the search that goes on at second words finds for the names read from the path, cut off, whatever the buffer held |
| RomfsReader.FindInDirectory | fs/romfs/romfs.c:129-147 | the second loop finds the last component among the entries of one directory |
| RomfsRoundTrip.StoredReadable | tools/genromfs.c:310-398 | whatever the passes have placed and stored, the reader reads back: next, spec, size and name |
| RomfsRoundTrip.LookupLaidOut | tools/genromfs.c:508-683 | the first pass does not change what a plain search finds |
| RomfsRoundTrip.OrdinaryLaidOut | tools/genromfs.c:508-683 | nor whether a path meets only directories with entries and nodes without an offset |
| RomfsRoundTrip.FoundStored | fs/romfs/romfs.c:180-183 | romfs_get_daddr is where the bytes of the node found begin |
| RomfsRoundTrip.DeviceReadable | fs/romfs/romfs.c:92-104 | on the image of any proper tree the first header is where the reader looks for it and every node is readable |
| RomfsRoundTrip.ReadBack | fs/romfs/romfs.c:78-183 | on the image of any tree with an unpadded first entry, reading a path finds exactly what the reader's search finds for the names it reads: its name and address, and for a file or symbolic link the number of its bytes and the place where just these stand; if the names are read as they are, the path meets only directories with entries and nodes without an offset, and no earlier component equals the last or nothing stands there, that is what a plain search of the tree given to genromfs finds |
| RomfsRoundTrip.ReadPadded | fs/romfs/romfs.c:92-126 | with a padded first entry the padding is the only entry read: a path finds nothing, unless the names read from it, cut off, are the one name the padding seems to have, which is the empty name when the padding exceeds 16 bytes or the image is at most 16 MB |
| TaskRing.RunDistinct | kernel/proc.c:93-97 | in every run all tasks created are in the ring, once each |
| TaskRing.DistanceFollowsBalance | kernel/proc.c:126-178 | after s schedules and f creations a task that has not run since is at distance d - s + f |
| TaskRing.RunsFirstExactly | kernel/proc.c:156-178 | it first runs if and only if s - f first reaches d |
| TaskRing.NeverRuns | kernel/proc.c:126-178 | in a run of any length in which each task switched to creates another, a task at distance 2 never runs |
| TaskRing.FullTurn | kernel/proc.c:167-178 | k schedules without creations rotate the ring by k, so one round gives every task one turn |
| TaskRing.Scheduler.constructor | kernel/proc.c:15-19 | the boot task alone makes up the ring |
| TaskRing.Scheduler.Enqueue | kernel/proc.c:126-130 | the pointers put the new task behind the current one; without memory nothing changes |
| TaskRing.Scheduler.Reschedule | kernel/proc.c:156-178 | the next task becomes current and the ring stays linked |
| Print.DigitsValue | lib/print.c:79-81 | reading the digits back by Horner's rule gives the number |
| Print.DigitsShape | lib/print.c:79-81 | digits are lower-case, below the base, and start with a zero only for zero |
| Print.ParseRendered | lib/print.c:70-99 | parsing what number writes, with sign and prefix, recovers the value in bases 2, 8, 10 and 16, the most negative one included |
| Print.RenderedInjective | lib/print.c:70-99 | different words never render alike |
| Print.DigitsFit | lib/print.c:79-81 | a number below 2^k has at most k digits, hence 32 in the 68-byte scratch buffer |
| Print.OutputConcat | lib/print.c:162-229 | the output of a format made of two parts is the outputs one after the other |
| Print.AdvanceConcat | lib/print.c:162-229 | what is counted for two joined parts is what is counted for each, the second starting where the first stopped |
| Print.NumbersConcat | lib/print.c:162-229 | and numbers fit in the whole if and only if they do in both parts |
| Print.BehindConcat | lib/print.c:162-229 | and behind the buffer stands what the second part leaves of what the first left |
| Print.TextPart | lib/print.c:182-189 | text is shown and counted as it is |
| Print.OtherPart | lib/print.c:182-189 | so is a percent sign with a character that is no conversion |
| Print.StringPart | lib/print.c:198-202 | a string is shown as it is, and counted as far as there is room |
| Print.CharacterPart | lib/print.c:193-197 | the low byte of the argument is shown and counted as one |
| Print.NumberPart | lib/print.c:203-219 | prefix, sign and digits for each conversion, counted in full, and written over what stands behind the buffer as far as they reach |
| Print.WidthSilences | lib/print.c:191-192 | a format whose first part contains an l shows that part as it would alone, and the rest without its conversions, whatever arguments are left |
| Print.AdvanceSilences | lib/print.c:191-192 | after an l only what is left without the conversions is counted |
| Print.SilentOutput | lib/print.c:191-192 | after an l no argument is needed, and the output is the format without its conversions |
| Print.AdvanceExactly | lib/print.c:176-221 | output that fits is counted in full and all its numbers fit; output that does not fit is counted at least up to the size |
| Print.BehindExactly | lib/print.c:70-99 | whatever stands behind the buffer is left alone if and only if every number ends before the buffer does |
| Print.DirectiveShows | lib/print.c:101-160 | what a directive decodes to shows what the format calls for and takes the argument it calls for |
| Print.FormatDecode | lib/print.c:101-160 | reads up to the next percent sign, or the directive with its flags |
| Print.Printer.DigitLoop | lib/print.c:79-81 | the loop leaves the digits, last first, in the scratch buffer |
| Print.Printer.Number | lib/print.c:70-99 | writes sign, prefix and digits and nothing behind them |
| Print.Printer.CopyBack | lib/print.c:96-98 | copies the scratch buffer out in reverse |
| Print.Printer.Vsnprintf | lib/print.c:162-229 | writes the format's text character by character with conversions replaced, cut off at the end of the buffer but for numbers, then a zero; returns the length if the output fits and at least the size if not; what is then behind the buffer is given exactly |
| Mmu.PteValue | mm/mmu_init.c:51-54 | masking the address and setting the bits of the descriptor is rounding down to a section and adding |
| Mmu.PteAddrValue | mm/mmu_init.c:58-62 | masking the table base, shifting the address and joining them is the base plus four times the section number |
| Bits.AndHigh | mm/mmu_init.c:52 | a mask of high bits clears the low ones and nothing else |
| Bits.OrLow | mm/mmu_init.c:52-53 | setting bits where there are zeroes is adding |
| Mmu.SlotsDistinct | mm/mmu_init.c:58-62 | two addresses have the same slot if and only if they are in the same section |
| Mmu.MappedWords | mm/mmu_init.c:79-87 | a loop's slots hold the descriptors in order, all other words are unchanged |
| Mmu.TablesTranslate | mm/mmu_init.c:64-97 | section translation sends memory and I/O to themselves, the first megabyte to the start of memory, and all else where it went before |
| Mmu.TablesElsewhere | mm/mmu_init.c:64-97 | no word but the 449 slots is written |
| Mmu.TablesInTable | mm/mmu_init.c:64-97 | the 449 words in numbers: section number times 0x100000 plus 0x402 from 0x33200000 on, and no other word changed |
| Mmu.TableTranslated | mm/mmu_init.c:64-97 | words like these translate the three windows and give the access bits 0x100, in numbers |
| Mmu.Memory.MapWindow | mm/mmu_init.c:79-87 | a loop over the sections of a window writes exactly that window |
| Mmu.Memory.InitSysMmu | mm/mmu_init.c:64-97 | the three loops leave exactly these words, with the translation and the access bits they stand for |

## Left out

- PagePools.PagePool.MergeOnce: a neighbour outside the page array counts as not free; the code reads the words before and behind the descriptors there.
- PagePools.PagePool.FreePages: only with the order the block was allocated with, as its callers do; a mismatch is not modelled.
- BuddyRuns.Run: requests to free what is not a busy block are not steps, as no caller may make them.
- KernelHeaps.KernelHeap.KmemCacheAlloc: caches are slots of an array, so the NULL cache pointer does not occur; the flags field of a cache, which nothing reads, is left out.
- KernelHeaps.KernelHeap.KmemCacheCreate: only into an unused slot and with a size that is refused or can be formatted; creating over a live cache would lose its slabs, and a size of 0 would make the formatting loop run for ever.
- KernelHeaps.KernelHeap.LineObject: memory is one word for each byte offset; that words at different offsets do not overlap is proved of all links and objects and not part of the memory itself.
- Links are node numbers (a page, or a list head), NULL is -1, and addresses are offsets into the paged area; `HeapGeometry` connects offsets with addresses.
- get_free_pages and put_free_pages, which wrap alloc_pages and free_pages; messages and logging throughout.
- RomfsGenerator.ProcessDir: starts from a tree whose names, modes, sizes and contents are given; directory scanning, lstat, readlink, exclusion and alignment patterns are not modelled, nodes are values, and the linked list of entries is a sequence.
- RomfsLayout.LayoutAligned: alignments are any multiples of 16 with the remainder as the code's mask computes it for powers of two, the only values the program accepts.
- RomfsGenerator.Genromfs: needs paddings, headers and link targets that fit the 4096-byte scratch buffer, which the program does not check; overrunning it is not modelled.
- Offsets that hard links point to are given with the tree; that they belong to a node is required only of links a path goes through (RomfsPaths.Plain).
- RomfsReader.Namei: components shorter than the 128-byte buffers, a zero at the end of the name buffer, device reads and memory that do not fail, and no path through a device or link whose second word is an offset where no node of the tree stands.
- RomfsRoundTrip.ReadBack: names end within the sector that starts at their header, and the device has a sector to spare behind the image.
- TaskRing.Scheduler.Reschedule: the switch of stacks and registers is taken to make the next task the running one; saved contexts and interrupt masking are not modelled.
- Print.Printer.Vsnprintf: numbers end inside the array that holds the buffer and what is behind it; a lone percent sign at the end would read past the format.
- printk and __put_char, which pass the text on to the serial line; a negative size, for which vsnprintf moves the end of the buffer.
- Print.FormatDecode: type codes that no directive sets (long, short, size_t) are not modelled.
- Mmu.Memory.InitSysMmu: the loops share one method; turning the MMU on and the domain register are not modelled.
- Inline assembly, exception entry, interrupt controller, UART, NAND, watchdog, boot code, driver and file system registration, system calls, user-space malloc and ioremap.
