# Proofs about the kernel's memory manager, scheduler, locks, timers and formatter

This project models the parts of the kernel that carry the most state and arithmetic, and proves what they
keep over single calls and over whole runs. `dafny verify dfyconfig.toml` checks everything.

## How it is built

Each part has two layers. A *value layer* (datatypes and functions) says what an operation does to the state; the
theorems are about it. A *class layer* carries the operation out the way the C code does, with loops, arrays, records
updated in place and the same nested calls, and every method is proved equal to the function of the value layer. So
`KernelHeap.Kmalloc` really calls `kmalloc_create`, which calls `get_new_Slab`, which calls `Kmalloc` again, and its
contract says that the heap afterwards is `Heap.Kmalloc` of the heap before.

| files | what they model |
|---|---|
| `Words`, `Pages`, `PageReferences`, `PhysicalMemory` | 64-bit words as bit sequences; the 2 MB page allocator with bitmap, zone counters, descriptors and reference counts |
| `E820`, `ZoneMap` | UEFI map to E820 list to zones |
| `Heap`, `HeapInvariant`, `HeapOperations`, `HeapCalls`, `HeapSupply`, `HeapTheorems`, `HeapSafety`, `HeapStart`, `HeapReferences`, `KernelHeap` | the slab heap: sixteen pools, growth and release with their nested calls, when growth fails, safety over runs, start-up, references to its pages, the records in place |
| `StartUp` | memory map, page allocator and heap set up one after the other |
| `PageTables`, `PageTableSupply`, `PageTableBuilder` | `pagetable_init` on top of the heap, and when it succeeds |
| `Scheduling`, `TaskScheduler` | the per-CPU run queue, slices, fairness over runs |
| `Semaphores` | the semaphore with direct hand-off, on top of the scheduler |
| `Spinlock` | the spinlock as a protocol of N CPUs |
| `Timers` | the timer list and the clock interrupt |
| `Numbers` | the integer formatter `number` |
| `Lists` | the intrusive circular list, as linked nodes |

## Where the code departs from its evident intent

* `src/kernel/mm/mm.c:518-521` computes `color_length` from a `color_count` that is not yet assigned. The model uses
  the order of `src/kernel/mm/slab.c:29-31`.
* `src/kernel/mm/slab.c:331` does not reset `i`, which the loop before it leaves at the number of the first page behind
  the boot data, so the loop misses the pools below that number. The model starts it at zero and gives pool `i` the
  `i`-th page from the end of the boot data on, as the expression in the loop computes it.
* `src/kernel/mm/mm.c:531-540` has no case for 65536, so that pool cannot grow; the model returns NULL there.
* `src/kernel/mm/mm.c:402-441` scans whole words past the end of a zone and reads the word after. The model puts two
  words behind the bitmap that read as used. A request can then still run into the next zone.
  `Pages.AllocConserves` says exactly when it does not: the zone it turns to has room for the whole run, or the scan
  meets no run at all. For one page, which is all the heap asks for, that always holds.
* `alloc_pages` falls off its end when every zone is too small (`src/kernel/mm/mm.c:443-449`); the model returns NULL.
* New page tables are not cleared (`src/kernel/mm/mm.c:711`, `src/kernel/mm/mm.c:718`), unlike in
  `src/kernel/debug/printk.c:69`. The model reads a word that was never written as an entry as zero.
* `src/kernel/mm/slab.c:306-311` and `src/kernel/mm/slab.c:332-341` reserve a page twice when the boot data ends exactly
  on a 2 MB boundary, before the heap takes its share or after. `HeapStart.SetUpConserves` shows that this is the only
  way the counters go wrong, and `StartUp.BadEnds` gives an input for each.
* `get_new_Slab` gives the page back without `page_clean` when it cannot get the bitmap (`src/kernel/mm/slab.c:44-45`), so
  the page keeps a reference. `HeapReferences.KmallocRefs` says exactly when that happens: the pool of the bitmap is
  empty and the page was the last free one.
* `spin_unlock` may be called by a CPU that does not hold the lock, as `src/kernel/init/SMP.c:132` does for
  `src/kernel/init/main.c:164`. The model allows it; mutual exclusion is kept exactly when nobody else holds the lock.
* `semaphore_down` may come back without a resource, because `schedule` can keep a caller that has gone to sleep, and
  falls back to idle even when idle sleeps. A down that has to wait keeps every waiter off the CPU if and only if its
  caller is not idle and not behind the next task (`Semaphores.DownServed`); `Semaphores.DownUnserved` shows the other
  downs lead to an unserved return, `Semaphores.DownCanKeepCpu` and `Semaphores.IdleCanComeBack` give an input for each
  kind. The waiter is a local of `__down` (`src/kernel/lock/semaphore.c:45-56`), so after such a return the list holds
  a dead record. The run theorems are therefore about runs in which every down that waits meets that condition.
* `kfree` flips the bit of whatever slot an address falls into, taken or not (`src/kernel/mm/mm.c:635-642`).
  `HeapTheorems.KfreeExact` says exactly when the heap is right afterwards.

## Model

| member | source | states |
|---|---|---|
| `Words.FlatUpdates` | src/kernel/mm/mm.c:430-432 | or-ing, clearing and toggling the one-bit mask in word n/64 changes exactly bit n of the flat bitmap |
| `Words.BitTest` | src/kernel/mm/slab.c:146-151 | the mask test reads bit n, and a word equal to all ones means that all 64 of its bits are set |
| `Words.StitchedTest` | src/kernel/mm/mm.c:411-424 | the test on two stitched words is empty exactly when the n bits from position k on are all clear |
| `Pages.FirstRunIsLeast` | src/kernel/mm/mm.c:402-441 | first fit finds the lowest start of a free run in range, and fails only when there is none |
| `Pages.FirstZoneIsFirst` | src/kernel/mm/mm.c:384-392 | the zone chosen is the first selected one whose free counter allows the request |
| `Pages.AllocIsFirstFit` | src/kernel/mm/mm.c:343-449 | alloc_pages succeeds with the lowest free run of the first large enough zone and takes exactly that run; otherwise it changes nothing and no such run exists |
| `Pages.AllocMeans` | src/kernel/mm/mm.c:343-449 | the whole effect, selector by selector: one to 63 pages, the first allowed zone whose counter suffices, the lowest run the scan meets up to the word that holds the end of the zone, its bits, its attribute, the two counters of that zone, and nothing else |
| `Pages.TakeConserves` | src/kernel/mm/mm.c:427-436 | taking a run keeps counters and bits in step if and only if the run lies inside the zone that is charged |
| `Pages.AllocConserves` | src/kernel/mm/mm.c:343-449 | a request keeps the counters exact if and only if the zone it turns to has room for the run or its scan meets none; then a successful one stays inside that zone |
| `Pages.SinglePageConfined` | src/kernel/mm/mm.c:384-441 | one page at a time that condition always holds |
| `Pages.GuardedConfined` | src/kernel/mm/mm.c:402-441 | it also holds for any request where every bit the scan can see behind the zones is set |
| `Pages.SinglePageRefusal` | src/kernel/mm/mm.c:390-449 | one page is refused if and only if every selected zone has no free page |
| `Pages.UnguardedRequestEscapes` | src/kernel/mm/mm.c:402-441 | a concrete memory where a two-page request crosses into the next zone and breaks conservation |
| `Pages.FreeConserves` | src/kernel/mm/mm.c:454-473 | freeing keeps conservation if and only if every page of the run was in use |
| `Pages.FreeRunInZone` | src/kernel/mm/mm.c:465-472 | freeing clears exactly the bits of the run and moves exactly its length between the counters of its zone |
| `Pages.FreeMeans` | src/kernel/mm/mm.c:454-473 | the pages of the run lose their attributes and no other page changes; no page, none at all or more than 63 is refused |
| `Pages.AllocThenFree` | src/kernel/mm/mm.c:343-473 | alloc_pages and free_pages of the same run give the bitmap back, and the counters if and only if the request was confined to its zone |
| `Pages.ServedConserves` | src/kernel/mm/mm.c:343-473 | one request of either kind keeps the counters exact if and only if it is confined, or frees only pages in use |
| `Pages.RunConserves` | src/kernel/mm/mm.c:427-472 | over every run of such requests the free counter of each zone is its number of clear bits, and free plus used is its length |
| `Pages.ReserveConserves` | src/kernel/mm/mm.c:301-309 | reserving a page of a zone keeps the counters exact if and only if the page was free |
| `Pages.ReserveRunConserves` | src/kernel/mm/slab.c:306-320 | reserving a run sets exactly its bits, and keeps the counters exact if and only if all of it was free |
| `PageReferences.InitMeans` | src/kernel/mm/mm.c:13-22 | page_init adds the flags and, to a page that has none or is shared, one reference, in the descriptor and in the zone alike |
| `PageReferences.CleanMeans` | src/kernel/mm/mm.c:25-35 | page_clean takes one away in both, and with the last one every attribute but that the page is mapped |
| `PageReferences.CleanUndoesInit` | src/kernel/mm/mm.c:13-35 | page_clean after page_init of a page without references restores page and zone |
| `PageReferences.AllocKeepsRefs` | src/kernel/mm/mm.c:343-449 | alloc_pages changes no reference and no link count |
| `PageReferences.FreeKeepsRefs` | src/kernel/mm/mm.c:454-473 | nor does free_pages |
| `PageReferences.ReserveMeans` | src/kernel/mm/mm.c:301-309 | each reserved page gets the flags, and a reference if it had none; the link counts of the zones follow |
| `PhysicalMemory.PageAllocator.constructor` | src/kernel/mm/mm.c:133-280 | after the construction loops a bit is clear exactly for the whole pages of RAM, the zones are those of the map, unlinked and split at 4 GB, every page of a zone has its exact descriptor and page 0 its own, and all invariants of the allocator hold |
| `PhysicalMemory.PageAllocator.AddZones` | src/kernel/mm/mm.c:181-234 | the loop over the memory entries builds the zones of the map with their bits and descriptors |
| `PhysicalMemory.PageAllocator.FindUnmapped` | src/kernel/mm/mm.c:268-280 | the loop that sets ZONE_UNMAPED_INDEX |
| `PhysicalMemory.PageAllocator.AddZone` | src/kernel/mm/mm.c:197-233 | one entry adds one free zone whose pages are described and clear |
| `PhysicalMemory.PageAllocator.ReserveBoot` | src/kernel/mm/mm.c:284-309 | the pages up to the end of the boot data are reserved one after the other |
| `PhysicalMemory.PageAllocator.ReserveRange` | src/kernel/mm/slab.c:309-320 | the reservation loop equals the reservation of the run |
| `PhysicalMemory.PageAllocator.AllocPages` | src/kernel/mm/mm.c:343-449 | the word-wise loops compute first fit and its effect on bitmap, counters and descriptors |
| `PhysicalMemory.PageAllocator.FindRun` | src/kernel/mm/mm.c:394-441 | the 64-aligned stepping with stitched words finds the first free run from the zone start |
| `PhysicalMemory.PageAllocator.WindowIsFree` | src/kernel/mm/mm.c:406-424 | the test of one window of the two words |
| `PhysicalMemory.PageAllocator.Occupy` | src/kernel/mm/mm.c:427-436 | the loop over the found pages sets their bits, attributes and counters |
| `PhysicalMemory.PageAllocator.FreePages` | src/kernel/mm/mm.c:454-473 | free_pages with its rejected arguments |
| `PhysicalMemory.PageAllocator.PageInit` | src/kernel/mm/mm.c:13-22 | page_init on the descriptor and the link counter |
| `PhysicalMemory.PageAllocator.PageClean` | src/kernel/mm/mm.c:25-35 | page_clean, with the attribute reset at reference count zero |
| `E820.Convert` | src/UEFIbootloader/BootLoader.c:179-239 | the merge loop leaves in the table the merged list of all descriptors |
| `E820.MergeMeaning` | src/UEFIbootloader/BootLoader.c:224-238 | for every address and kind as many entries cover it as recognised descriptors did, and the bytes of every kind are conserved |
| `E820.MapKinds` | src/UEFIbootloader/BootLoader.c:185-222 | for each E820 type the firmware types that make it: an address is listed as RAM, reserved, ACPI reclaimable, ACPI NVS or unusable if and only if a descriptor of such a type holds it, in pages of 4096 bytes |
| `E820.MergeIsTight` | src/UEFIbootloader/BootLoader.c:224-238 | no entry is empty, and neighbours of one kind never touch |
| `E820.SortByAddress` | src/UEFIbootloader/BootLoader.c:242-255 | the exchange sort leaves a permutation ascending by address and touches nothing behind it |
| `E820.ExchangePass` | src/UEFIbootloader/BootLoader.c:247-254 | the inner loop brings the lowest remaining address to its place |
| `E820.CoverOfPermutation` | src/UEFIbootloader/BootLoader.c:244-255 | sorting does not change what any address is covered by |
| `E820.LastEndsLast` | src/kernel/mm/mm.c:114-118 | in an ascending list without overlap the end of the last entry is the end of memory |
| `E820.LoaderMap` | src/UEFIbootloader/BootLoader.c:179-255 | for descriptors that do not overlap the sorted list covers the same addresses kind by kind, lists as RAM exactly what the eight memory types hold, is separated, and ends last |
| `E820.Record` | src/kernel/mm/mm.c:73-88 | the kernel's copy loop with its look-ahead keeps the recorded prefix, whatever the table's length, as long as that prefix fits |
| `E820.RecordedIsPrefix` | src/kernel/mm/mm.c:84-87 | that prefix is the longest one whose entries after the first have a type from 1 to 4 and a length |
| `ZoneMap.ZonesAreExact` | src/kernel/mm/mm.c:187-215 | the zones contain exactly the 2 MB pages that lie whole in one RAM entry |
| `ZoneMap.ZonesInOrder` | src/kernel/mm/mm.c:181-215 | zones are aligned, ascending, disjoint and below the number of pages |
| `ZoneMap.BitsSizeIs` | src/kernel/mm/mm.c:115-138 | bits_size counts exactly the pages that end below the end of memory |
| `ZoneMap.UnmappedSplits` | src/kernel/mm/mm.c:268-280 | the zones before ZONE_UNMAPED_INDEX are exactly those that start below 4 GB, and zone 0 |
| `ZoneMap.ZonePagesAreRam` | src/kernel/mm/mm.c:187-215 | from firmware descriptors to zones: every byte of every page of a zone lies in memory that a descriptor of one of the eight memory types holds |
| `ZoneMap.BuiltIsSound` | src/kernel/mm/mm.c:141-234 | the freshly built table satisfies the allocator's invariants, and its words suffice |
| `Heap.MapClassIsSmall` | src/kernel/mm/slab.c:10-33 | header and bitmap of every large slab come from the smallest pools that hold them, and these are self-contained |
| `Heap.ClassSizes` | src/kernel/include/mm.h:303-320 | sixteen classes, each twice the one before, from 32 bytes to 1 MB; which one cannot grow and which are self-contained |
| `Heap.Geometry` | src/kernel/mm/slab.c:20-31 | full slabs fill their page, and a bitmap is the least number of words that holds its bits |
| `HeapInvariant.WalkFindsRoom` | src/kernel/mm/mm.c:582-590 | a non-zero total makes the walk stop on the first slab with a free slot |
| `HeapInvariant.OccupyInv` | src/kernel/mm/slab.c:153-159 | taking a slot keeps all pool invariants: counters equal bits, totals equal sums |
| `HeapInvariant.ReleaseInv` | src/kernel/mm/mm.c:635-642 | giving a slot back keeps them |
| `HeapInvariant.ReleaseExact` | src/kernel/mm/mm.c:634-642 | toggling any slot keeps the pool invariants if and only if a caller's live object was in it |
| `HeapInvariant.LinkInv` | src/kernel/mm/mm.c:599-603 | linking a new slab keeps them |
| `HeapInvariant.UnlinkInv` | src/kernel/mm/mm.c:656-666 | taking a slab off its ring keeps them |
| `HeapOperations.SlabMallocOk` | src/kernel/mm/slab.c:141-170 | a slab with a free slot yields exactly one new object and keeps the heap invariant |
| `HeapOperations.GrowOk` | src/kernel/mm/mm.c:593-609 | a linked new slab yields its first object and keeps the heap invariant |
| `HeapCalls.SmallMallocOk` | src/kernel/mm/mm.c:494-530 | allocation from a self-contained pool, growing or not, keeps the invariant, the page balance and all other objects |
| `HeapCalls.SmallFreeOk` | src/kernel/mm/mm.c:621-670 | the nested kfree of a header or bitmap removes exactly that object |
| `HeapCalls.GetNewSlabOk` | src/kernel/mm/slab.c:7-50 | get_new_Slab gives a slab with its own page, header and bitmap, or undoes what it had taken |
| `HeapSupply.GetPageAvail` | src/kernel/mm/mm.c:384-449 | a page for the kernel is refused exactly when the normal zones have no free page, and costs one |
| `HeapSupply.SmallMallocSupply` | src/kernel/mm/mm.c:494-530 | a self-contained pool refuses exactly when it is empty and no page is free, and takes a page only when empty |
| `HeapSupply.GetNewSlabSupply` | src/kernel/mm/slab.c:7-50 | get_new_Slab fails exactly when there are fewer free pages than one for itself and one for each empty pool it draws on, and else takes exactly those |
| `HeapSupply.MallocSupply` | src/kernel/mm/mm.c:581-613 | kmalloc of a class fails exactly when the pool is empty and cannot grow or has too few free pages; what it takes is stated exactly |
| `HeapTheorems.KmallocOk` | src/kernel/mm/mm.c:564-613 | kmalloc gives one new object of the smallest sufficient class, or NULL exactly when the request is too large or its pool is empty and cannot grow with the free pages there are, and then no object changes; pages of others stay theirs |
| `HeapTheorems.KfreeOk` | src/kernel/mm/mm.c:621-676 | kfree removes exactly the addressed object from the callers' objects, fails exactly when no slab owns the page, and leaves pages of others theirs |
| `HeapTheorems.KfreeExact` | src/kernel/mm/mm.c:634-670 | for any address in a slab: if the slab stays, counters and bits are right afterwards if and only if the address was a caller's live object, so freeing a clear slot breaks them; if the slab goes, its one object goes with it whatever slot was given, and the heap is right if and only if that was no header or bitmap |
| `HeapTheorems.DestroyOk` | src/kernel/mm/slab.c:98-104 | releasing a slab keeps the invariant, gives back page, header and bitmap and nothing else, and leaves pages of others theirs |
| `HeapTheorems.AddressDecodes` | src/kernel/mm/mm.c:624-635 | masking a live address to 2 MB gives its page, and dividing the rest gives its slot |
| `HeapTheorems.Aligned` | src/kernel/mm/slab.c:165 | every object is aligned to the size of its class |
| `HeapTheorems.TailFits` | src/kernel/mm/mm.c:509-524 | the objects of a small slab end before its header, its bitmap fits behind it, and one object more would not fit |
| `HeapSafety.TailPlaces` | src/kernel/mm/mm.c:509-524 | objects, header and bitmap of a grown small slab follow one another within its page |
| `HeapSafety.LiveObjectsDisjoint` | src/kernel/mm/mm.c:564-613 | any two allocated objects, headers and bitmaps included, share no byte |
| `HeapSafety.ObjectsAvoidBookkeeping` | src/kernel/mm/mm.c:494-530 | no allocated object, those that hold other headers and bitmaps included, overlaps the header or bitmap of any slab except as that header or bitmap |
| `HeapSafety.StackMask` | src/kernel/include/task.h:195-209 | every stack pointer inside a 32 KB object masks to its start |
| `HeapSafety.ChoiceIsFirst` | src/kernel/mm/mm.c:582-607 | without growth the object is the lowest clear slot of the first slab that has one |
| `HeapSafety.FreeUndoesMalloc` | src/kernel/mm/mm.c:621-676 | kfree after kmalloc without growth gives the whole heap back if and only if the slab was not already due for release |
| `HeapSafety.FreedPool` | src/kernel/mm/mm.c:644-669 | a slab is released exactly when its last object goes, it is not cache_pool, and the pool has one and a half slabs of free objects with it; then it is the freed one, and half a slab stays free |
| `HeapSafety.UserMayBeFreed` | src/kernel/mm/mm.c:624-635 | the address kmalloc returned leads kfree to that object |
| `HeapSafety.RunIsSafe` | src/kernel/mm/mm.c:564-676 | over every run of kmalloc, kfree and page requests the invariant holds, the client owns exactly what it was given and has not given back, free pages plus slabs plus its pages stay constant, and pages of others stay theirs |
| `HeapSafety.RunKeepsObjectsApart` | src/kernel/mm/mm.c:481-676 | after every run all allocated objects are disjoint from each other, from every header and bitmap that is not their own, and from the client's pages |
| `HeapStart.FirstHeapInv` | src/kernel/mm/slab.c:277-347 | the heap as set up has no object, and satisfies the invariant exactly when the page counters are right |
| `HeapStart.SetUpConserves` | src/kernel/mm/slab.c:305-347 | setting up the heap keeps the page counters exact if and only if neither end of the boot data is a page boundary |
| `HeapStart.StaticPlacesApart` | src/kernel/mm/slab.c:278-303 | the sixteen static headers and bitmaps do not overlap |
| `HeapReferences.GetPageMeans` | src/kernel/mm/slab.c:17-22 | a page taken for a slab is marked as mapped and as the kernel's and has a reference, which its zone counts; no other page changes |
| `HeapReferences.PutPageMeans` | src/kernel/mm/mm.c:660-661 | a page given back has one reference less, and so has its zone, and no attribute |
| `HeapReferences.PageComesBack` | src/kernel/mm/mm.c:494-661 | a page taken for a slab and given back leaves bitmap, counters, links and descriptors as they were |
| `HeapReferences.DestroyRefs` | src/kernel/mm/slab.c:98-104 | releasing a large slab takes one reference from its page and from each page that goes with its header and bitmap |
| `HeapReferences.KfreeRefs` | src/kernel/mm/mm.c:621-676 | kfree takes one reference from exactly the pages that stop being slabs', in descriptors and zones; the page of the object is one of them if and only if its slab is released |
| `HeapReferences.KmallocRefs` | src/kernel/mm/mm.c:564-613 | kmalloc gives one reference to exactly the pages that become slabs', unless the bitmap of a large slab fails after its page was had: an if-and-only-if on the state before |
| `HeapReferences.StepRefs` | src/kernel/mm/mm.c:343-676 | the same for every call of a client |
| `HeapReferences.RunKeepsReferences` | src/kernel/mm/mm.c:343-676 | over every run without such a kmalloc: one reference to each slab's page, none to free pages and those of the client, other pages as before, and total_pages_link follows |
| `HeapReferences.SetUpRefs` | src/kernel/mm/slab.c:305-347 | the start-up code takes every page from the end of the boot data to the sixteenth data page once, with its flags |
| `HeapReferences.FirstAccounted` | src/kernel/mm/slab.c:277-347 | the first heap starts with its references right |
| `KernelHeap.SlabRecord.FindClear` | src/kernel/mm/slab.c:143-151 | the loop that skips full words finds the lowest clear slot, or none when all are taken |
| `KernelHeap.SlabRecord.constructor` | src/kernel/mm/slab.c:26-40 | a new record has an empty bitmap with its padding set |
| `KernelHeap.PoolRecord.SlabMalloc` | src/kernel/mm/slab.c:141-170 | slot, address and all four counters of one allocation |
| `KernelHeap.PoolRecord.FindRoom` | src/kernel/mm/mm.c:582-590 | the walk over the ring |
| `KernelHeap.KernelHeap.constructor` | src/kernel/mm/slab.c:271-347 | kmalloc_slab_init builds the first heap behind the boot data and reserves its pages; the result is valid if and only if neither end is a page boundary |
| `KernelHeap.KernelHeap.KmallocCreate` | src/kernel/mm/mm.c:481-555 | kmalloc_create refines the value layer, calling get_new_Slab for large classes |
| `KernelHeap.KernelHeap.GetNewSlab` | src/kernel/mm/slab.c:7-50 | get_new_Slab refines the value layer; its two nested kmallocs are of self-contained classes, which bounds the nesting at one level |
| `KernelHeap.KernelHeap.Kmalloc` | src/kernel/mm/mm.c:564-613 | kmalloc refines the value layer, terminates, and keeps the records valid |
| `KernelHeap.KernelHeap.Kfree` | src/kernel/mm/mm.c:621-676 | kfree refines the value layer and terminates; every page that goes back loses its one reference, in its descriptor and in its zone |
| `KernelHeap.KernelHeap.FreeSlot` | src/kernel/mm/mm.c:634-669 | bit, counters and the decision to release |
| `KernelHeap.KernelHeap.ToggleSlot` | src/kernel/mm/mm.c:634-642 | the bit and the four counters, in any slab and for any slot |
| `KernelHeap.KernelHeap.TakeBitmap` | src/kernel/mm/slab.c:29-47 | the bitmap of a new slab, or page and header given back in that order |
| `KernelHeap.KernelHeap.DoSlabDestroy` | src/kernel/mm/slab.c:98-104 | off the ring, bitmap, page and header, through nested kfree of self-contained classes |
| `StartUp.Boot` | src/kernel/mm/mm.c:55-333 | from a memory map with enough RAM, init_memory and kmalloc_slab_init give a heap that is valid if and only if neither end of the boot data is a page boundary; every page they take is marked as the kernel's and has one reference |
| `StartUp.HeapTakes` | src/kernel/mm/slab.c:278-303 | headers and bitmaps of the sixteen pools take 20128 bytes |
| `StartUp.BadEnds` | src/kernel/mm/slab.c:306-341 | an input for each of the two ends that make the counters wrong |
| `PageTables.EntryKeepsAddress` | src/kernel/include/mm.h:97-120 | attribute bits leave an aligned address alone, make the entry present, writable and the kernel's, and set the page-size bit exactly in an entry for a page |
| `PageTables.IndexesTellPages` | src/kernel/mm/mm.c:709-724 | no two pages share all three indexes |
| `PageTables.WalkIsTranslation` | src/kernel/mm/mm.c:707-724 | the walk by the kernel's index and entry addresses is what the processor makes of every address of the page: nine bits from 39, 30 and 21 on choose eight-byte entries, 21 bits stay |
| `PageTables.BootTables` | src/kernel/init/head.S:232-250 | the tables of head.S satisfy the tree invariant and lie in the boot data |
| `PageTables.TableIsNew` | src/kernel/mm/mm.c:711-719 | kmalloc(4096) hands out a 4 KB aligned table apart from every table in use |
| `PageTables.DescendOk` | src/kernel/mm/mm.c:709-720 | filling an empty upper entry keeps the tree and every walk |
| `PageTables.MapPageOk` | src/kernel/mm/mm.c:707-724 | inserting a page makes its walk end, through two tables, in that 2 MB page, writable and for the kernel, and changes no other walk |
| `PageTableSupply.GrantedExact` | src/kernel/mm/mm.c:711-719 | n calls of kmalloc(4096) in a row succeed if and only if there are the free pages for n tables, a closed form: one for each new slab of tables and those for the headers and bitmaps of these slabs |
| `PageTableSupply.TableSupplied` | src/kernel/mm/mm.c:711-719 | one such call fails only where the pages for n tables are not there, and else takes from them just what the first table costs |
| `PageTableSupply.MapPageSupplied` | src/kernel/mm/mm.c:707-724 | inserting a page fails only when the heap has too few free pages for the tables still missing, and a success leaves it as sufficient or insufficient as it was |
| `PageTableSupply.MissingBound` | src/kernel/mm/mm.c:709-719 | never more are missing than one for each GB and one for each 512 GB begun |
| `PageTableBuilder.Builder.Insert` | src/kernel/mm/mm.c:707-724 | the body of the inner loop refines the insertion |
| `PageTableBuilder.Builder.PagetableInit` | src/kernel/mm/mm.c:696-731 | afterwards the processor translates every address at page offset plus n, for n in a page of any zone, or of any before ZONE_UNMAPED_INDEX if that is set, to n, writable and for the kernel, and every other address of the upper half as before; it succeeds if and only if the heap has the free pages for the tables that are missing |
| `Scheduling.EnqueueOk` | src/kernel/sched/scheduler.c:55-70 | inserting keeps the queue sorted and distinct, adds exactly the one entry, counts it, and leaves idle out |
| `Scheduling.EnqueueSplits` | src/kernel/sched/scheduler.c:62-69 | the new entry goes behind those strictly smaller and in front of all others, whose order stays |
| `Scheduling.PickedIsLeast` | src/kernel/sched/scheduler.c:37-50 | picking takes a least entry off, or idle when there is none |
| `Scheduling.ScheduleOk` | src/kernel/sched/scheduler.c:93-118 | schedule keeps the state invariant, loses and duplicates nothing, what runs is behind no queued entry, and a slice used up to exactly zero is refilled with the share of the task that runs |
| `Scheduling.TickOk` | src/kernel/sched/scheduler.c:14-32 | a tick keeps the state invariant |
| `Scheduling.TickMeans` | src/kernel/sched/scheduler.c:14-32 | what a tick takes from the slice and adds to the virtual time by priority, when the flag is set, and that nothing else changes |
| `Scheduling.SliceLasts` | src/kernel/sched/scheduler.c:14-32 | after how many ticks, by priority and slice, the running task is to be stopped |
| `Scheduling.ForkOk` | src/kernel/sched/task.c:196-227 | a fork queues exactly the child and keeps the state invariant |
| `Scheduling.FairIsClose` | src/kernel/sched/scheduler.c:14-118 | in a fair state any two runnable entries are at most twelve apart |
| `Scheduling.ScheduleFair` | src/kernel/sched/scheduler.c:93-118 | schedule turns closeness back into fairness |
| `Scheduling.ForkFair` | src/kernel/sched/task.c:196-227 | a fork keeps fairness if and only if it is not made by idle more than twelve away from the queue |
| `Scheduling.IdleCanForkFar` | src/kernel/sched/scheduler.c:100-117 | a concrete state where idle does so, which ticks and forks alone do not reach from the start |
| `Scheduling.RunIsFair` | src/kernel/sched/scheduler.c:14-118 | over every run of ticks and forks, idle forking only close to the queue, virtual run times stay within twelve of each other |
| `Scheduling.StartedRunIsFair` | src/kernel/sched/scheduler.c:14-135 | over every run of ticks and forks from scheduler_init that needs no condition: idle never forks far, and any two runnable entries, idle included while it runs, stay within twelve |
| `Scheduling.RivalWasThere` | src/kernel/sched/scheduler.c:93-118 | what schedule leaves on the CPU is behind none of those it may be compared with next, idle included, and both were rivals or queued together before |
| `Scheduling.BoundIsReached` | src/kernel/sched/scheduler.c:73-88 | a run that reaches the bound of twelve |
| `Scheduling.InitialIsFair` | src/kernel/sched/scheduler.c:123-135 | the initial state is fair |
| `TaskScheduler.Scheduler.constructor` | src/kernel/sched/scheduler.c:123-135 | scheduler_init |
| `TaskScheduler.Scheduler.UpdateCurRuntime` | src/kernel/sched/scheduler.c:14-32 | slice, virtual run time and flag after a tick |
| `TaskScheduler.Scheduler.PickNextTask` | src/kernel/sched/scheduler.c:37-50 | the head of the queue, or idle |
| `TaskScheduler.Scheduler.EnqueueTask` | src/kernel/sched/scheduler.c:55-70 | the walk up to the sentinel inserts in front of the first entry that is not behind |
| `TaskScheduler.Scheduler.InitTimeslice` | src/kernel/sched/scheduler.c:73-88 | a new slice only when the old one is exactly zero, four or three times four shared among the runnable ones (stated in ScheduleOk); the division is never by zero |
| `TaskScheduler.Scheduler.Schedule` | src/kernel/sched/scheduler.c:93-118 | schedule in place, with everything ScheduleOk states |
| `TaskScheduler.Scheduler.Fork` | src/kernel/sched/task.c:196-227 | the scheduling part of do_fork |
| `TaskScheduler.Scheduler.Interrupt` | src/kernel/idt/entry.S:78-95 | a tick and the schedule it leads to keep the state invariant |
| `Semaphores.UpGood` | src/kernel/lock/semaphore.c:22-43 | up hands the resource to the first waiter, which becomes runnable, or raises the counter; the invariant (who waits sleeps and waits once, and only at counter zero) holds afterwards if and only if that waiter is not the caller itself, idle excepted |
| `Semaphores.DownGood` | src/kernel/lock/semaphore.c:45-70 | down takes a counted resource or joins the end of the waiters; the invariant holds afterwards if and only if the caller is not waiting already |
| `Semaphores.DownKeepsCpu` | src/kernel/lock/semaphore.c:45-70 | without a free resource the caller goes on running at once exactly when it is behind the next entry, or is idle and alone |
| `Semaphores.DownCanKeepCpu` | src/kernel/lock/semaphore.c:45-70 | a concrete state where a waiting caller keeps running |
| `Semaphores.DownServed` | src/kernel/lock/semaphore.c:45-70 | a down leaves every waiter asleep and off the CPU for good if and only if it finds a resource, or its caller is not idle and not behind the next entry |
| `Semaphores.DownUnserved` | src/kernel/lock/semaphore.c:45-70 | any other down is followed by an unserved return: its caller's at once, or, when idle has given the CPU away, after some further downs |
| `Semaphores.IdleComesBack` | src/kernel/sched/scheduler.c:37-50 | once idle waits, at most one down more than there are queued entries puts a waiter back on the CPU |
| `Semaphores.IdleCanComeBack` | src/kernel/sched/scheduler.c:37-50 | a concrete state where two downs put the sleeping idle back on the CPU |
| `Semaphores.StepServed` | src/kernel/lock/semaphore.c:22-70 | every up, tick, switch and fork keeps the waiters off the CPU, and a down does exactly under that condition |
| `Semaphores.RunIsAccounted` | src/kernel/lock/semaphore.c:22-70 | over every run whose waiting downs meet it immediate plus handed-over resources plus counter equal initial plus ups, waiters are served in order, each once, and none is on the CPU |
| `Semaphores.ParkedUntilHanded` | src/kernel/lock/semaphore.c:22-70 | over every such run whoever waits, idle included, stays off the CPU until it is handed a resource |
| `Semaphores.Semaphore.constructor` | src/kernel/lock/semaphore.c:17-20 | semaphore_init establishes the invariant |
| `Semaphores.Semaphore.Up` | src/kernel/lock/semaphore.c:35-43 | semaphore_up in place, with the exact condition on the caller |
| `Semaphores.Semaphore.Down` | src/kernel/lock/semaphore.c:62-70 | semaphore_down in place, with the exact condition on the caller |
| `Spinlock.NextSane` | src/kernel/include/lock/spinlock.h:15-39 | no step of any CPU, holder or not, lets the word leave its range or a taken lock be without a holder |
| `Spinlock.RunIsSane` | src/kernel/include/lock/spinlock.h:15-39 | over every run the word is at most one and at least -n, and at least 1 - n when holders do not call again: it never wraps |
| `Spinlock.NextExclusive` | src/kernel/include/lock/spinlock.h:15-39 | a step keeps mutual exclusion if and only if it is not a store that takes the lock from another CPU |
| `Spinlock.StolenLock` | src/kernel/include/lock/spinlock.h:33-39 | after such a store the CPU that made it can hold the lock together with the other |
| `Spinlock.NextCounted` | src/kernel/include/lock/spinlock.h:15-39 | preempt_count goes wrong in exactly two steps: unlocking what is not held, and taking again what was not unlocked |
| `Spinlock.RunIsSafe` | src/kernel/include/lock/spinlock.h:15-39 | mutual exclusion over every interleaving in which no store takes the lock from another CPU, in particular when only holders store; then preempt_count counts too |
| `Spinlock.InitialIsSafe` | src/kernel/include/lock/spinlock.h:12 | spin_init establishes the invariant |
| `Spinlock.FreeLockIsTaken` | src/kernel/include/lock/spinlock.h:17-26 | a trying CPU takes the lock, and a spinning one leaves its loop, exactly when nobody holds it |
| `Spinlock.WaitsForStore` | src/kernel/init/main.c:163-164 | a CPU that calls spin_lock while the lock is taken, as a holder that calls again, stays inside as long as no other CPU stores |
| `Spinlock.StoreLetsThrough` | src/kernel/init/SMP.c:132 | one store of another CPU and the caller's own test and decrement let it through |
| `Spinlock.WaiterMayReturn` | src/kernel/include/lock/spinlock.h:15-39 | it comes back in some run if and only if some CPU is not inside |
| `Timers.HeadTestIsExact` | src/kernel/device/HPET.c:23-25 | the head-only test equals "some timer is due" except at the last jiffy with an empty list |
| `Timers.AddSplits` | src/kernel/timer/timer.c:54-64 | the new timer goes between the earlier ones and the others, ahead of its equals |
| `Timers.AddKeepsOrder` | src/kernel/timer/timer.c:54-64 | adding keeps the order and adds exactly the one timer |
| `Timers.FireDueIsExact` | src/kernel/timer/timer.c:22-31 | do_timer fires exactly the due timers, each once and in order of expiry, and leaves only later ones |
| `Timers.FireDueKeepsTheRest` | src/kernel/timer/timer.c:22-31 | it keeps every timer that is not due and adds what the handlers armed |
| `Timers.NoTimerFiresEarly` | src/kernel/timer/timer.c:22-31 | over every run of interrupts every timer fires at its time |
| `Timers.NoTimerIsMissed` | src/kernel/timer/timer.c:22-31 | and none of the list that falls due is missed |
| `Timers.ArmedTimerFires` | src/kernel/timer/timer.c:22-31 | a timer that a handler arms during the run, as a periodic one does, fires at its time too |
| `Timers.TimersBalance` | src/kernel/timer/timer.c:22-31 | fired timers and the final list are, as multisets, the initial list and everything armed: nothing is lost and nothing fires twice |
| `Timers.TimerList.constructor` | src/kernel/timer/timer.c:11-16 | timer_init |
| `Timers.TimerList.AddTimer` | src/kernel/timer/timer.c:54-64 | add_timer in place, its loop ending at the head at the latest |
| `Timers.TimerList.DelTimer` | src/kernel/timer/timer.c:69-71 | del_timer |
| `Timers.TimerList.DoTimer` | src/kernel/timer/timer.c:22-31 | do_timer in place; it terminates although handlers arm timers |
| `Timers.TimerList.Interrupt` | src/kernel/device/HPET.c:18-25 | the interrupt and the soft interrupt it raises |
| `Numbers.TextLength` | src/kernel/debug/printk.c:168-234 | the output is as long as the width, or as one place for a sign, one or two for a prefix, and the larger of precision and digit count |
| `Numbers.TextReadsBack` | src/kernel/debug/printk.c:168-234 | for every base, flag combination and 64-bit value a reader in the manner of strtol gets the value back |
| `Numbers.TextTellsBase` | src/kernel/debug/printk.c:214-220 | under SPECIAL a reader that is told no base finds it from the prefix, for 8 and 16 |
| `Numbers.TextShowsSign` | src/kernel/debug/printk.c:183-189 | a minus exactly for a negative number under SIGN, a plus exactly under PLUS otherwise, a space under SPACE |
| `Numbers.TextHasCase` | src/kernel/debug/printk.c:172-175 | small letters only under SMALL, capital ones only otherwise, in digits and prefix |
| `Numbers.TextPads` | src/kernel/debug/printk.c:207-233 | the padding: spaces behind under LEFT, zeros between prefix and digits under ZEROPAD, spaces in front otherwise, and no other space but that of the sign |
| `Numbers.DigitCount` | src/kernel/debug/printk.c:197-202 | a number has at most k digits exactly when it is below the k-th power of the base |
| `Numbers.TmpIsLargeEnough` | src/kernel/debug/printk.c:170 | fifty places suffice exactly unless the base is 2 and the number is at least 2^50 |
| `Numbers.DoDiv` | src/kernel/include/printk.h:53-58 | quotient and remainder are the other digits and the last one |
| `Numbers.Convert` | src/kernel/debug/printk.c:197-202 | the digits into tmp, least significant first |
| `Numbers.Pad` | src/kernel/debug/printk.c:207-209 | one padding loop |
| `Numbers.PutHead` | src/kernel/debug/printk.c:211-220 | sign and prefix |
| `Numbers.PutNumeral` | src/kernel/debug/printk.c:226-229 | precision zeros and digits in reading order |
| `Numbers.Number` | src/kernel/debug/printk.c:168-234 | number writes exactly the text at the given place, changes nothing else, and refuses other bases |
| `Lists.RingIsUnique` | src/kernel/include/list.h:103-106 | the links determine the order |
| `Lists.RingRotates` | src/kernel/include/list.h:103-106 | a ring may be read from any of its nodes |
| `Lists.Init` | src/kernel/include/list.h:43-46 | list_init makes a ring of one |
| `Lists.AddToBehind` | src/kernel/include/list.h:54-59 | list_add_to_behind inserts behind the entry |
| `Lists.AddToBefore` | src/kernel/include/list.h:67-72 | list_add_to_before inserts in front of it, which for the head is the end |
| `Lists.Del` | src/kernel/include/list.h:79-82 | list_del takes exactly that node out and leaves its own links |
| `Lists.IsEmpty` | src/kernel/include/list.h:90-95 | list_is_empty holds exactly for the head alone |
| `Lists.Next` | src/kernel/include/list.h:104-109 | list_next |
| `Lists.Prev` | src/kernel/include/list.h:97-102 | list_prev |

## Left out

- Words.FlatUpdates: a 64-bit word is a sequence of 64 booleans; the arithmetic value of a word plays no role.
- HeapReferences.RunKeepsReferences: a run goes no further than a kmalloc whose bitmap fails after its page was had; what that call does to the counts is exact in `HeapReferences.KmallocRefs`.
- StartUp.Boot: page 0 is no RAM page of the map, and the pages up to sixteen behind the boot data are; otherwise the code reserves pages that have no zone.
- KernelHeap.KernelHeap.Kmalloc: counters are unbounded integers; under the invariant they lie between zero and the capacity of the pool.
- HeapTheorems.KfreeOk: the promise is about live objects of callers and addresses in no slab; what the code does with the other addresses of a slab's slots is `HeapTheorems.KfreeExact`, and an address behind the bitmap of a slab is not modelled.
- E820.Convert: addresses and lengths are unbounded; a firmware map that wraps around 64 bits is not covered.
- PhysicalMemory.PageAllocator.constructor: the room set aside for ten zones is not modelled (`src/kernel/mm/mm.c:173-175`).
- PhysicalMemory.PageAllocator.ReserveBoot: where the boot data ends is an argument; the places and sizes of bitmap, descriptors and zones before it (`src/kernel/mm/mm.c:133-178`, `src/kernel/mm/mm.c:284-290`) are not computed.
- PageTableBuilder.Builder.PagetableInit: stops with false when kmalloc has no table, where the code goes on with NULL; pages above 128 TB, the TLB flush and whether a new table is already mapped when it is written are not modelled.
- Scheduling.RunIsFair: blocking and wake-ups are outside the run; they can set the virtual run times further apart.
- TaskScheduler.Scheduler.Interrupt: the interrupted code has preempt_count zero; with a lock held the schedule comes later (`src/kernel/idt/entry.S:74-82`) and the running entry can get further ahead.
- Semaphores.RunIsAccounted: up and down are atomic steps of one CPU; runs go no further than a down that leads to an unserved return, because the waiter record it leaves behind is dead (`Semaphores.DownServed` is exact).
- Timers.FireDueIsExact: handlers act on the list only by arming later timers; a handler that deletes timers is not modelled.
- Numbers.Number: the bits of `type` are a record of booleans; binary numbers from 2^50 on, for which the code writes past `tmp`, are left to the caller (`Numbers.TmpIsLargeEnough` is exact).
- Lists.Del: the queues of the scheduler, the semaphore and the timers are sequences in the other files, not these nodes.
- `slab_create`, `slab_malloc`, `slab_destory`: thin layers over what is modelled; `slab_free` re-enters the slab it has just freed.
- `vsprintf`, the frame buffer, the keyboard, the clock, system calls and `switch_to`: input, output and machine state.
- Boot code, interrupt controllers, the start-up hand-off between CPUs and soft-interrupt bits: hardware effects.
- Concurrent use of heap, run queue or semaphore by several CPUs: the code takes no lock there.
