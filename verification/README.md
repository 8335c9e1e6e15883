# A verified model of the allocator

The repository is a thread-caching memory allocator in three layers, and an older boundary-tag
allocator beside it. This project models both and proves what they promise.

* The **page heap** (`PageHeapSpec`, `PageHeapLaws`, `PageHeap`) hands out spans of pages: mutable
  spans on sorted, doubly linked buckets, and a page map. The class is proved against a value, the map
  from first page to length, object size and free flag.
* A **central free list** per size class (`PackedLists`, `CflSpec`, `CflLaws`, `CflMemory`,
  `CentralFreeList`, `Separation`) carves spans into objects. Its free list is an unrolled list of
  16-bit indices kept inside the free objects; memory is a map of 16-bit words, and the class is proved
  against a plain stack per span.
* The **transfer caches** and **per-CPU slabs** (`TransferCache`, `SlabLayout`, `Slabs`) are bounded
  stacks; the slab's pointer array is divided among the classes as `config.hpp` computes it.
* The **restartable sections** of the slabs (`Rseq`, `RseqLaws`) are a step machine of threads, CPUs and
  a kernel that preempts and migrates at will. `SlabRaces` adds the plain calls, which nothing restarts,
  one access to the slab per step.
* The **allocator** is modelled twice. `Allocator`, `AllocatorLaws`, `AllocatorRuns`, `AllocatorSafety`,
  `AllocatorProgress`, `AllocatorAlone` and `ClassTable` are a step system: any number of threads and CPUs, one access to
  shared state per step. A span found by a lookup is used later, after any number of other threads' steps,
  as in the code. `AllocatorSplit` cuts the locked sections of the lists where they call the page heap.
  `AllocatorMemory` runs the steps over memory, with callers writing what they like into the objects they
  hold, and `AllocatorLists` has the lists of all classes over one page heap take those steps.
  `AllocatorCalls` has the calls themselves, with their loops over batch
  arrays, on the verified list, cache and slab of one size class. `BatchMoves` says what a call leaves in
  cache and stack without saying how; the calls do that, and so do the steps of a thread that no other
  disturbs.
* The **old allocator** (`BoundaryTagSpec`, `BoundaryTagLaws`, `BoundaryTags`, `BoundaryTrap`) is a class
  over headers, footers, a free list and a next-fit search.

`Widths`, `Arithmetic`, `Sequences` and `Counting` hold integer widths and small facts. `dafny verify dfyconfig.toml`
checks everything.

Answers of the operating system are parameters: `mmap` gives fresh pages or bytes or nothing, the
program break grows where the heap ends or not at all. A contract that takes such an answer says in its
`requires` that the memory is fresh.

Where the code and its intent part:

* `page_heap.hpp:4` speaks of pages of about 8 KB; `config.hpp:13` sets 4096. With 4096 the classes of
  8192 and 16384 bytes and all from 32768 up have objects longer than their spans. Their lists never give
  an object (`ClassTable.DeadClasses`, `ClassTable.DeadGivesNothing`), so `allocate(n)` can return memory
  only for n up to 6144, above 8192 up to 12288, and above 16384 up to 28672 (`ClassTable.DeliversOnly`);
  for those it fails only when neither page heap nor OS has pages (`ClassTable.FailsOnly`). Every other
  request that gets a span leaves one more useless span on its list (`ClassTable.DeadGrows`), which no
  step ever returns (`ClassTable.DeadForever`).
* "No two free spans are adjacent" fails when a return merges more than 255 pages and carves the result.
  `PageHeapLaws.GiveBackCoalesces` gives the exact condition for one return, and
  `PageHeapLaws.CarvingRun` is a run that ends with two adjacent free spans: two spans of 200 pages side
  by side, returned one after the other.
* A restartable section stays armed for two instructions after its commit store
  (`slabs.hpp:238-244`, `slabs.hpp:346-353`). An abort there repeats the operation:
  `RseqLaws.LateAbortDoubles` is a run in which a pushed pointer is about to be pushed again.
  `RseqLaws.ConservedExactly` says when pointers are conserved all the same.
* The plain push and pop, used where restartable sections are missing and on CPUs they give up on, are
  three accesses that other threads may come between. `SlabRaces.PoppedTwice` is a run in which two
  callers get one pointer. `SlabRaces.RacesExactly` says which runs conserve pointers; the counts stay
  inside their slices in all of them.
* The old allocator's search never ends when the previous search ended on the tail of the list and
  nothing fits: after any number of rounds it is still looking at a block
  (`BoundaryTags.OldAllocator.KeepsGoing`). `BoundaryTags.OldAllocator.Allocate` states the condition both
  ways, and `BoundaryTrap.ReachTrap` calls the allocator until a request for 150 bytes is caught, with 200
  bytes on the list.

## Model

| member | source | states |
|---|---|---|
| PageHeapSpec.MergeBoth | page_heap.hpp:215-242 | merging left and then right yields one span over the whole range between the outer edges, and the right neighbour found does not depend on the left merge |
| PageHeapSpec.MarkedEdges | page_heap.hpp:133-139 | which neighbours a returned span merges with does not depend on its own flag and size |
| PageHeapSpec.CarveStep | page_heap.hpp:143-159 | one round of the carve loop moves the span over pages nobody else holds and leaves the same final heap |
| PageHeapLaws.CarveTiles | page_heap.hpp:139-161 | the chunks carved from a range are free, of 255 pages each but the last, disjoint, and cover exactly its pages; every other span is untouched |
| PageHeapLaws.MergedRange | page_heap.hpp:215-242 | the spans a return detaches are the returned one and free spans at its two ends, and cover exactly the merged range |
| PageHeapLaws.GiveBackLaws | page_heap.hpp:133-162 | returning an in-use span keeps the live spans disjoint and the managed pages the same, ends the use of exactly that span, and leaves every other in-use span's start, length and size |
| PageHeapLaws.GiveBackPairs | page_heap.hpp:133-162 | adjacent free spans after a return lie inside the range it merged or stem from a pair that was there before |
| PageHeapLaws.GiveBackCoalesces | page_heap.hpp:133-162 | after a return no two free spans are adjacent if and only if none were before and the merged range has at most 255 pages |
| PageHeapLaws.TakeSpanLaws | page_heap.hpp:100-107 | taking a free span keeps the managed pages, makes exactly it in use at the requested length and size, frees what is left of it as one span, and leaves every other span, in use or free, as it is |
| PageHeapLaws.TakeSpanPairs | page_heap.hpp:248-267 | allocation never makes two free spans adjacent: every adjacent pair after it stems from one before |
| PageHeapLaws.MapSpanLaws | page_heap.hpp:110-130 | fresh pages become one more in-use span, and only they are added |
| PageHeapLaws.UnmapSpanLaws | page_heap.hpp:170-184 | deleting a span removes exactly its pages |
| PageHeapLaws.ServedLaws | page_heap.hpp:67-131 | serving a request makes exactly one span in use, on pages no span was using, and moves no other: the shortest free span that is long enough, the lowest among equals, and pages from the OS only when there is none |
| PageHeapLaws.EffectValid | page_heap.hpp:67-184 | each kind of call keeps the heap valid and changes the managed pages by exactly what the OS gave or took |
| PageHeapLaws.RunTiles | page_heap.hpp:67-184 | in every run of calls the live spans are disjoint and cover exactly the pages given by the OS and not taken back |
| PageHeapLaws.RunCoalesced | page_heap.hpp:133-162 | in every run without a carving return no two free spans are ever adjacent |
| PageHeapLaws.CarvingRun | page_heap.hpp:139-161 | there is a run of four calls, the last a carving return, after which two free spans are adjacent |
| PageHeaps.PageHeap.RegisterSpan | page_heap.hpp:196-200 | the loop maps exactly the span's pages to it |
| PageHeaps.PageHeap.UnregisterSpan | page_heap.hpp:202-206 | the loop unmaps exactly the span's pages |
| PageHeaps.PageHeap.Unlink | page_heap.hpp:272-288 | removing a span through its prev and next links leaves the rest of its list linked in the same order |
| PageHeaps.PageHeap.FindPlace | page_heap.hpp:305-322 | the walk stops before the first span with a larger start |
| PageHeaps.PageHeap.LinkBetween | page_heap.hpp:310-324 | the span is linked at that place and the list stays doubly linked |
| PageHeaps.PageHeap.RemoveFromFreeList | page_heap.hpp:272-288 | the span leaves its bucket and is no longer free; page map, buckets and links agree with the new heap |
| PageHeaps.PageHeap.Insert | page_heap.hpp:292-325 | the span joins its bucket in ascending order of start; page map, buckets and links agree with the new heap |
| PageHeaps.PageHeap.Split | page_heap.hpp:248-267 | the span keeps its first pages, a new free span holds the rest, and both are mapped |
| PageHeaps.PageHeap.CoalesceLeft | page_heap.hpp:218-229 | the span takes over a free left neighbour, found through the page map, and only a free one |
| PageHeaps.PageHeap.CoalesceRight | page_heap.hpp:233-241 | the same to the right |
| PageHeaps.PageHeap.Coalesce | page_heap.hpp:215-242 | the span covers the range between the outer edges of its free neighbours, which are gone |
| PageHeaps.PageHeap.CarveAll | page_heap.hpp:143-161 | the carve loop ends, each round taking 255 pages off the front, with a span of at most 255 pages that completes the carved heap of the specification |
| PageHeaps.PageHeap.ReturnSpan | page_heap.hpp:133-162 | return_span turns the heap into the specified one, keeps page map and buckets exact, runs the carve loop at most twice, and keeps the span objects of all other in-use spans |
| PageHeaps.PageHeap.ClosestSize | page_heap.hpp:83-98 | the closest-size scan picks the first span of the bucket, since free spans have size 0, and none for the size 2^32-1 |
| PageHeaps.PageHeap.FindFree | page_heap.hpp:78-98 | the nested search finds the free span least in length and start among all with enough pages, and none exactly when no free span is long enough (or the size is 2^32-1) |
| PageHeaps.PageHeap.AllocateSpan | page_heap.hpp:67-131 | serves from the best fitting free span, asks the OS exactly when there is none, and keeps page map, buckets and links exact |
| PageHeaps.PageHeap.SpanFor | page_heap.hpp:164-168 | finds the live span that holds the address, and null exactly when no span does |
| PageHeaps.PageHeap.DeallocateSpan | page_heap.hpp:170-184 | the span's pages leave the heap, free or not, and everything else stays exact |
| PackedLists.CapacityFits | central_free_list.hpp:41-44 | a node with all its slots fits its object, whatever the truncation to 16 bits, and where nothing is truncated one slot more would not |
| PackedLists.IndexRoundTrip | central_free_list.hpp:46-53 | index and address of an object translate back and forth |
| PackedLists.ObjectsApart | central_free_list.hpp:46-48 | different objects of a span have no byte in common |
| PackedLists.ListFrame | central_free_list.hpp:109-155 | a packed list depends only on the objects on it: any writes elsewhere leave it holding the same stack |
| PackedLists.PushSlot | central_free_list.hpp:141-147 | storing an index in the head node's next slot pushes it and changes no other object |
| PackedLists.PushNode | central_free_list.hpp:150-153 | turning the freed object into the head node pushes it and changes no other object |
| PackedLists.PopSlot | central_free_list.hpp:115-118 | taking the head node's last slot pops the stack |
| PackedLists.PopNode | central_free_list.hpp:119-122 | unlinking an empty head node pops the stack |
| PackedLists.BuildNode | central_free_list.hpp:216-229 | a node built over the next objects pushes exactly their indices |
| CflLaws.PopulateOk | central_free_list.hpp:202-236 | carving puts each index of a chunk on the stack exactly once and nothing else, hands out nothing, and leaves the stack empty only when all is carved |
| CflLaws.PopulateChunk | central_free_list.hpp:202-236 | a chunk is a single object or objects whose bytes fit one page, the last on top of the stack; unless it ends the span, one object more would not fit the page |
| CflLaws.AllocateOk | central_free_list.hpp:91-126 | allocate hands out exactly one object that was not out, or none, and keeps the list's invariant |
| CflLaws.AllocateComplete | central_free_list.hpp:91-126 | allocate fails if and only if no listed span has a free or uncarved object and the page heap gave no span, or one shorter than an object |
| CflLaws.AllocateListedExact | central_free_list.hpp:91-126 | while some listed span gives, the object is the top of the stack, or the last object of a new chunk when that is empty, of the current span or, when that gives nothing, of the first in the list that does; that span is current then and no other changes |
| CflLaws.AllocateFetchedExact | central_free_list.hpp:238-259 | a fetched span joins the front of the list with as many objects as its pages hold and gives the last of its first chunk, or nothing when it holds none |
| CflLaws.AllocateNothing | central_free_list.hpp:93-101 | when no listed span gives and none is fetched, only the current span changes: there is none |
| CflLaws.ObjectsFill | central_free_list.hpp:249-252 | a span has as many objects as fit its pages: one more would not |
| CflLaws.FreeOk | central_free_list.hpp:128-158 | deallocate takes back exactly one object and keeps the list's invariant |
| CflLaws.FreeExact | central_free_list.hpp:128-158 | a freed object goes on top of its span's stack and nothing else changes, unless the span is fully carved and all its other objects are free: then the span leaves the list, the others keep their order, and it is current no more |
| CflLaws.ReleaseExact | central_free_list.hpp:145-157 | a span is released if and only if it is fully carved and the object freed was its last one out |
| CflLaws.FreeThenAllocate | central_free_list.hpp:109-155 | an object freed to the current span without release is the next one allocated, and the list is then as before |
| CflLaws.BatchSafe | central_free_list.hpp:172-176 | in a batch of distinct outstanding objects each is still outstanding when its turn comes, whatever was released before, and together they are taken back |
| CflLaws.BatchListed | central_free_list.hpp:172-176 | which spans a batch leaves listed, and how far carved, depends only on which objects it frees |
| CflLaws.BatchOrder | central_free_list.hpp:172-176 | two batches of the same objects in any order leave the same spans listed and the same objects free and out |
| CflLaws.NothingLeft | central_free_list.hpp:162-170 | when allocate fails, no listed span has anything to give afterwards either |
| CflMemory.OtherListKept | central_free_list.hpp:137-155 | writing unheld objects of one span leaves the packed lists of the other spans holding the same stacks |
| CflMemory.SpanRespects | central_free_list.hpp:109-155 | writing unheld objects of one span changes no object that is out and no memory off the list's pages |
| CflMemory.AllocateStarved | central_free_list.hpp:91-126 | allocate fails if and only if no listed span has an object and the class is none, too long for its spans, or neither page heap nor OS has pages; the page heap then still has none |
| Separation.CallersHarmless | central_free_list.hpp:29-36 | whatever callers write into objects they hold, of this size or another, every packed list holds the same stack |
| Separation.OtherSizesKept | central_free_list.hpp:60-64 | whatever one list writes, the packed lists of a list of another size hold the same stacks and all its objects their contents |
| CentralFreeLists.CentralFreeList.FillNode | central_free_list.hpp:216-228 | the inner loop writes one node and packs the indices behind it, inside one object, until the node is full or the chunk ends |
| CentralFreeLists.CentralFreeList.CarveChunk | central_free_list.hpp:214-233 | the nested loop pushes the chunk's indices, adds their number to both counters and writes only uncarved objects |
| CentralFreeLists.CentralFreeList.PopulateSpan | central_free_list.hpp:202-236 | populate_span carves the next chunk as specified: one object or as many as fit a page, the last on top, and nothing when all is carved |
| CentralFreeLists.CentralFreeList.FindAvailableSpan | central_free_list.hpp:193-200 | the walk finds the first listed span with an object to give, null exactly when there is none |
| CentralFreeLists.CentralFreeList.ChooseSpan | central_free_list.hpp:93-95 | keeps the current span while it has an object, else takes the first that has |
| CentralFreeLists.CentralFreeList.FetchFromPageHeap | central_free_list.hpp:238-259 | a granted span joins the front of the list with nothing carved and becomes current; the page heap serves the request, and every span in use keeps its span object |
| CentralFreeLists.CentralFreeList.TakeObject | central_free_list.hpp:109-125 | the object taken is the top of the span's stack and both counters drop by one |
| CentralFreeLists.CentralFreeList.Allocate | central_free_list.hpp:91-126 | the call turns list and page heap into the specified ones, returns the address of the object handed out, changes no object that is out and no memory of others, and keeps the span objects of all spans in use |
| CentralFreeLists.CentralFreeList.PushObject | central_free_list.hpp:134-155 | the freed index becomes the top of its span's stack, in the head node while that has a slot and as a new head node only when it has none |
| CentralFreeLists.CentralFreeList.ReleaseToPageHeap | central_free_list.hpp:264-287 | the span leaves the list, the counters and the current span follow, and the page heap gets it back; every other span in use keeps its span object |
| CentralFreeLists.CentralFreeList.Deallocate | central_free_list.hpp:128-158 | frees the outstanding object at the pointer as specified and returns its span exactly when complete; what is out keeps its contents, other memory and the span objects of all spans still in use stay; null and unmanaged pointers change nothing |
| CentralFreeLists.CentralFreeList.DeallocateBatch | central_free_list.hpp:172-176 | distinct outstanding pointers are all freed, even when spans are released midway; what is still out keeps its contents, memory of others is not touched, and the span objects of all spans still in use stay |
| CentralFreeLists.CentralFreeList.AllocateBatch | central_free_list.hpp:162-170 | returns distinct objects that were not out and adds exactly them to those out; stops short only when no listed span has an object and neither page heap nor the OS can help; what was out keeps its contents, memory of others is not touched, and spans in use keep their span objects |
| CentralFreeLists.CentralFreeList.Undisturbed | central_free_list.hpp:60-64 | whatever another list writes into objects nobody holds and asks of the shared page heap, this list stays valid |
| TransferCaches.TransferCache.InsertRange | transfer_cache.hpp:27-36 | pushes the first pointers of the batch, as many as have room, and says how many |
| TransferCaches.TransferCache.RemoveRange | transfer_cache.hpp:38-46 | takes the topmost pointers, at most as many as asked for, in their order |
| SlabLayout.CapacityLaws | config.hpp:39-53 | for any class table a capacity is a positive multiple of its batch, at most the unscaled one, and fits 16 bits |
| SlabLayout.RawFillsBudget | config.hpp:36-45 | an unscaled capacity is within the class's byte budget or a single batch, and one batch more would exceed the budget |
| SlabLayout.CapacityFills | config.hpp:36-53 | when the unscaled total is at most 20000 a capacity uses up its byte budget; otherwise it uses up its proportional share of 20000: one batch more would exceed that, and it is within it or a single batch |
| SlabLayout.ShippedSlab | config.hpp:31-61 | on the shipped table nothing is scaled: 17253 pointers a CPU, 8000 of them for 8-byte objects, class by class down to one batch each from 312 bytes up |
| SlabLayout.RawTotalFits | config.hpp:36-50 | for any class table the sum of the capacities, and each product in the scaling, fits 32 bits |
| SlabLayout.TotalBounded | config.hpp:47-59 | the scaled pointer array is at most 20000 pointers and one batch of each class long |
| SlabLayout.SlicesApart | config.hpp:55-59 | the slices of two classes do not overlap and follow one another |
| SlabLayout.ComputeSlabOffsets | config.hpp:31-61 | the three loops compute the offsets of the specified slices, every product and sum formed in 32 bits |
| SlabLayout.ScaleCapacities | config.hpp:47-53 | the second loop scales every capacity to whole batches of its share, the product formed in 32 bits |
| SlabLayout.ComputeSlabCapacities | config.hpp:65-71 | the differences of the offsets are the capacities |
| PerCpuSlabs.Slabs.Pop | slabs.hpp:82-91 | pops the top pointer of the class, none exactly when its stack is empty; no other class's stack changes |
| PerCpuSlabs.Slabs.Push | slabs.hpp:96-105 | pushes exactly while the class's slice has room; no other class's stack changes |
| SizeClasses.RoundSizeClass | size_classes.hpp:77-91 | the binary search finds the class of least size that holds n bytes, class 0 exactly when none does |
| SizeClasses.SizeClassToIdx | size_classes.hpp:93-103 | the search finds the first class at least as long, so the size of a class leads back to that class |
| SizeClasses.TableWellOrdered | size_classes.hpp:20-70 | the table has 48 classes, class 0 empty, in strictly ascending size |
| ClassTable.TableRuns | size_classes.hpp:20-70 | the table suits the lists: a free object holds a node, a span's objects have 16-bit indices, batches fit their arrays |
| ClassTable.DeadClasses | size_classes.hpp:50-70 | the objects of a class are longer than its spans if and only if it is the class of 8192 or 16384 bytes or one from 32768 up |
| ClassTable.DeadGivesNothing | central_free_list.hpp:249-256 | the list of such a class never has an object to give, whatever the page heap grants |
| ClassTable.LivingRequests | size_classes.hpp:77-91 | the requests whose least class can give objects are exactly those up to 6144, above 8192 up to 12288, and above 16384 up to 28672 |
| ClassTable.DeliversOnly | allocator.hpp:52-77 | on this table allocate(n) returns memory only for those requests |
| ClassTable.FailsOnly | allocator.hpp:62-64 | for those requests a refill comes back empty only when the class's list has no object, no free span is long enough and the OS has no pages |
| ClassTable.DeadGrows | central_free_list.hpp:238-259 | an allocate of a class whose objects are longer than its spans puts each span it gets on the list as one more with nothing in it |
| ClassTable.DeadForever | central_free_list.hpp:145-157 | in every run such a span stays on its list and in use |
| RseqLaws.CommitSound | slabs.hpp:238-242 | a commit store is one atomic pop or push, on the CPU the thread runs on, of the very pointer read or written before, with something to pop or room to push |
| RseqLaws.StepAtomic | slabs.hpp:297-402 | no other step of any thread, preempted and migrated at will, changes any stack |
| RseqLaws.RefusalHonest | slabs.hpp:226-231 | a pop that reports empty meets an empty stack at that step, a push that reports full meets a full one |
| RseqLaws.SectionAlone | slabs.hpp:192-402 | a section that is neither preempted nor moved ends after at most six steps, a pop with the top of its CPU's stack or the report that it is empty, a push with its pointer on top or the report that it is full; no other stack changes |
| RseqLaws.RunBalanced | slabs.hpp:192-402 | in every run of sections each pointer pushed is on a stack or popped, but for those that aborts after the commit store lost or doubled |
| RseqLaws.ConservedExactly | slabs.hpp:238-244 | pointers are conserved in a run if and only if such aborts lost and doubled the same pointers, in particular when there are none |
| RseqLaws.LateAbortDoubles | slabs.hpp:346-353 | there is a run in which such an abort breaks conservation |
| SlabRaces.StoreExact | slabs.hpp:82-105 | storing a count moves exactly the call's pointer on or off the stack if and only if the count is as loaded and the slot holds what was read or written; either way no count leaves its slice |
| SlabRaces.TouchExact | slabs.hpp:96-105 | storing a pushed pointer leaves the stacks alone if and only if its slot is above the stack or holds that pointer already |
| SlabRaces.PlainExact | slabs.hpp:82-105 | a step of a plain call keeps pointers balanced if and only if it is careful in that sense |
| SlabRaces.FastExact | slabs.hpp:192-402 | so does a step of a section among plain calls, if it is no late abort |
| SlabRaces.RacesExactly | slabs.hpp:424-455 | in every run of sections and plain calls the counts stay inside their slices, and pointers are conserved throughout if and only if every touch and store is careful and no abort comes late |
| SlabRaces.PoppedTwice | slabs.hpp:82-91 | there is a run in which two plain pops whose accesses alternate pop one pointer twice |
| SlabRaces.LoadAlone | slabs.hpp:82-105 | a plain call refuses if and only if the stack is empty, for a pop, or full, for a push, when it loads the count |
| SlabRaces.PlainAlone | slabs.hpp:82-105 | a plain call that no other thread's access comes between takes the top of the stack or puts its pointer there, and touches no other stack |
| AllocatorLaws.LendsPlace | central_free_list.hpp:128-135 | a pointer handed out lies with its whole block inside its in-use span, at the index deallocate computes for it |
| AllocatorLaws.LentOnce | allocator.hpp:108-113 | no pointer is lent by two lists or from two spans |
| AllocatorLaws.BlocksApart | allocator.hpp:108-113 | two pointers handed out, of the same class or of two, are blocks without a common byte |
| AllocatorLaws.AllocateBacked | central_free_list.hpp:91-126 | a list's allocate keeps every in-use span on exactly one list and every list valid |
| AllocatorLaws.FreeBacked | central_free_list.hpp:128-158 | a list's deallocate does too, whether or not it returns the span |
| AllocatorRuns.LookupExact | page_heap.hpp:164-168 | looking a handed out pointer up finds the very span it was handed out from |
| AllocatorRuns.RoutesHome | allocator.hpp:79-83 | the size read off that span leads to the class that handed the pointer out |
| AllocatorRuns.TakeCacheKeeps | allocator.hpp:115-121 | refilling from the transfer cache moves pointers from the cache to the thread's batch and loses none |
| AllocatorRuns.TakeListKeeps | allocator.hpp:115-121 | refilling from the list adds to the batch a pointer that was nowhere outside before |
| AllocatorRuns.PublishKeeps | allocator.hpp:66-75 | republishing the batch moves pointers to the slab, or on to the release when a push fails midway |
| AllocatorRuns.DrainKeeps | allocator.hpp:91-101 | draining the slab moves pointers to the batch and never overruns it |
| AllocatorRuns.FillCacheKeeps | allocator.hpp:123-128 | releasing a batch moves pointers to the cache, whose bound holds, and keeps the rest for the list |
| AllocatorRuns.GiveHomeKeeps | allocator.hpp:123-128 | the locked section that follows a lookup frees an outstanding object of its own class into the span found, which nobody holds afterwards |
| AllocatorSafety.StepKeeps | allocator.hpp:52-128 | every step of every thread keeps the invariant, and what is outside its list afterwards is lent from the same span |
| AllocatorSafety.RunSafe | allocator.hpp:52-128 | in every interleaving by any number of threads and CPUs the invariant holds and no lookup or locked section meets a span or object it must not |
| AllocatorSafety.OnePlace | allocator.hpp:52-128 | each object of each in-use span is in exactly one place: uncarved, on its span's free list, in a transfer cache, in a slab, with a thread, or with a caller |
| AllocatorSafety.SpanStays | central_free_list.hpp:131-135 | while an object is outside its list, no step returns, merges, splits or deletes its span |
| AllocatorSafety.LookupStable | allocator.hpp:79-83 | what a lookup outside the locks found is still right when the thread uses it: the span is in use, unchanged, and holds the pointer |
| AllocatorSafety.OnlyGiveHome | page_heap.hpp:133-162 | only the locked section of a deallocate ends a span's use, and only of the span it freed into |
| AllocatorSafety.EndsUse | central_free_list.hpp:145-157 | it does so if and only if the span is fully carved and the pointer freed is the last of its objects outside |
| AllocatorSplit.CutRefines | central_free_list.hpp:238-287 | with locked sections cut where they call the page heap, every step is a step of the uncut system or changes nothing of what that has done |
| AllocatorSplit.CutRuns | central_free_list.hpp:91-158 | whatever a run with cut sections reaches, but for the sections under way, a run with whole ones reaches |
| AllocatorSplit.CutSafe | allocator.hpp:52-128 | in every such run no lookup or locked section meets a span or object it must not |
| AllocatorSplit.SpansHome | central_free_list.hpp:238-287 | in every such state each span in use is on a list, or in the hands of a thread between a list's lock and the page heap's |
| AllocatorSplit.WholeCuts | central_free_list.hpp:91-158 | cutting loses nothing: any step with whole sections is one step of the same thread with cut ones, or two with the page heap's lock in between |
| AllocatorSplit.SectionEnds | central_free_list.hpp:238-287 | a thread that holds a list's lock in the middle of a section can always finish it |
| AllocatorSafety.DeliveredBlock | allocator.hpp:52-77 | allocate(n) returns a block of the least class that holds n bytes, inside one in-use span whose size leads back to the class, apart from every other block outside the lists |
| AllocatorSafety.CallersApart | allocator.hpp:52-77 | callers hold each pointer once, and two pointers are blocks without a common byte |
| AllocatorProgress.NeverStuck | allocator.hpp:52-128 | a thread in the middle of a call always has a next step, on any CPU and even when the OS gives nothing |
| AllocatorProgress.CallEnds | allocator.hpp:52-128 | a call ends after at most 132 steps of its own thread, however the other threads are scheduled between them |
| AllocatorProgress.TakeListGives | central_free_list.hpp:91-126 | a locked allocate of a refill adds one object to the batch, or none if and only if the list has no object and the class is none, too long for its spans, or neither page heap nor OS has pages; the thread asks again until its batch is full or that happens |
| AllocatorProgress.NullOnlyStarved | allocator.hpp:62-64 | allocate goes on to return null only from a locked allocate in that very situation |
| AllocatorProgress.TakeCacheExact | transfer_cache.hpp:38-46 | a refill turns from the transfer cache to the list if and only if the class's cache is empty; otherwise its batch is the last pointers of the cache, a whole batch or all there are, and the cache keeps the rest |
| AllocatorProgress.NullHistory | allocator.hpp:52-64 | whatever other threads do in between, a call about to return null met, in this order, a CPU with no pointer of the class on its slab or no slab, the class's transfer cache empty, and the class's list without an object while neither page heap nor OS could help |
| AllocatorAlone.AllocateAlone | allocator.hpp:52-77 | the steps of an allocate that no other thread disturbs do what the call promises, in the terms of `BatchMoves`: the top of the stack goes out; else the last of a batch, whole unless the cache ran out or the list had no more, the others going on the stack and, when that is full, on the cache; null only with stack and cache empty and the list spent; the list is asked only when the cache is empty; no other class, CPU or thread sees a change |
| AllocatorAlone.DeallocateAlone | allocator.hpp:79-106 | the steps of a deallocate that no other thread disturbs put the pointer on the stack; when that was full a batch came off it first, or all there was, to the cache as far as that had room; the list is untouched unless pointers had to go back to it; no other class, CPU or thread sees a change |
| AllocatorMemory.ListsIntact | central_free_list.hpp:29-36 | in every interleaving of calls, and of callers writing what they like into the objects they hold, from any memory, each packed list holds its span's stack of free objects |
| AllocatorMemory.ContentsKept | central_free_list.hpp:109-155 | no step of the allocator changes the contents of an object that is out before and after it |
| AllocatorLists.FreeLists.AllocateOn | central_free_list.hpp:91-126 | over one page heap and one memory, a locked allocate of one class does what its list specifies and keeps the lists of all other classes valid and as they were |
| AllocatorLists.FreeLists.FreeOn | central_free_list.hpp:128-158 | a locked deallocate of one class does too, returned span or not |
| AllocatorLists.FreeLists.AllocateLocked | allocator.hpp:115-121 | the call on the real lists is a locked allocate of the steps over memory, heads and packed lists included |
| AllocatorLists.FreeLists.FreeLocked | allocator.hpp:123-128 | the call on the real lists is a locked deallocate of those steps |
| AllocatorLists.FreeLists.Store | central_free_list.hpp:29-36 | callers writing what they like into objects they hold keep the lists of all classes valid |
| AllocatorLists.FreeLists.constructor | allocator.hpp:17-21 | one empty list a class, all over one page heap, all valid |
| AllocatorCalls.ClassAllocator.RefillBatch | allocator.hpp:115-121 | from a cache with pointers the batch is its topmost, the asked number or all there are, and the list is not touched; from an empty cache it is pointers not lent before, fewer than asked for only when then no listed span has an object and neither page heap nor OS can help; nobody else holds any of them; what callers stored and what other sizes use is kept |
| AllocatorCalls.ClassAllocator.ReleaseBatch | allocator.hpp:123-128 | the front of the batch goes on the cache as far as it has room and the rest is free again; every lent pointer still has exactly one holder; what callers stored and what other sizes use is kept |
| AllocatorCalls.ClassAllocator.Republish | allocator.hpp:66-75 | the loop pushes the batch on the slab last first, all of it unless the slab is full then; the front of what is left goes on the cache, all of it unless that is full then, the rest back to the list; every lent pointer still has exactly one holder |
| AllocatorCalls.ClassAllocator.DrainSlab | allocator.hpp:91-101 | the loop takes the topmost pointers off the slab, a whole batch unless the slab is empty then, and puts them on the cache in that order, all of them unless that is full then, the rest back to the list; every lent pointer still has exactly one holder |
| AllocatorCalls.ClassAllocator.Allocate | allocator.hpp:52-77 | the caller gets the top of the slab, or the last pointer of a refill whose others are then on the slab: a batch off the top of the cache, whole unless the cache is empty then, or when it was empty before a batch from the list, whole unless that has nothing left; none only when slab and cache are empty, no listed span has an object and neither page heap nor OS can help; no caller held the pointer before and every lent pointer has exactly one holder afterwards; what callers stored and what other sizes use is kept |
| AllocatorCalls.ClassAllocator.Deallocate | allocator.hpp:79-106 | the caller's pointer goes on the slab; when that was full a batch was drained off it first, to the cache as far as it had room; every lent pointer has exactly one holder afterwards; what callers still hold and what other sizes use is kept; an address of no span changes nothing |
| BatchMoves.RefilledOnce | allocator.hpp:62-76 | what an allocate on an empty stack hands out and leaves in cache and stack is fixed by the cache, the batch size and the room, when the cache has pointers |
| BatchMoves.PutBackOnce | allocator.hpp:86-105 | what a deallocate leaves in cache and stack is fixed by what they held before |
| BoundaryTagLaws.SplitLaws | old/old_design.hpp:510-551 | a split tiles the bytes of the block with two, the second with a payload of at least one byte, if and only if the block has more than the bytes to keep, a header and a footer; otherwise nothing changes |
| BoundaryTagLaws.MergeLaws | old/old_design.hpp:465-503 | a merge covers the bytes of both blocks with one |
| BoundaryTagLaws.ReturnedLaws | old/old_design.hpp:238-266 | returning a block keeps the heap tiled and without adjacent free blocks, frees exactly it, and moves no other block in use |
| BoundaryTagLaws.TakenLaws | old/old_design.hpp:129-157 | taking a free block keeps both; the block keeps exactly the bytes asked for if and only if it had exactly those or enough for a free block of at least one byte behind them, and all its bytes otherwise; no other block changes |
| BoundaryTagLaws.RemovedLaws | old/old_design.hpp:298-317 | unmapping a block or shrinking the break over the last one keeps both |
| BoundaryTagLaws.RunSound | old/old_design.hpp:94-318 | in every run blocks never overlap, those from the program break tile the heap exactly, and no two physical neighbours are both free |
| BoundaryTagLaws.InUseStays | old/old_design.hpp:94-318 | in every run a block in use keeps its place and size until it is itself deallocated |
| BoundaryTagLaws.PayloadsApart | old/old_design.hpp:18-44 | no byte of a payload belongs to any header or footer, its own or another's |
| BoundaryTags.OldAllocator.NextPhys | old/old_design.hpp:359-368 | finds the block behind, none exactly at the end of the heap |
| BoundaryTags.OldAllocator.PrevPhys | old/old_design.hpp:370-388 | finds the block before through its footer, none exactly at the start of the heap |
| BoundaryTags.OldAllocator.UnlinkFree | old/old_design.hpp:396-423 | takes exactly that block off the list, keeping the order of the rest; a search that ended on it, at place k, ends on the block at place k - 1, on none when k is 0; any other search ends where it did |
| BoundaryTags.OldAllocator.CoalesceAround | old/old_design.hpp:465-503 | leaves one free block in place of the block and its free neighbours, with list, footers and available_bytes exact |
| BoundaryTags.OldAllocator.ReturnBackUnlocked | old/old_design.hpp:238-266 | puts a block in use back as specified, and refuses a free one unchanged |
| BoundaryTags.OldAllocator.SplitBlock | old/old_design.hpp:510-551 | splits if and only if the rest has a payload of at least one byte, puts the rest behind the block on the list and takes one header and footer off available_bytes |
| BoundaryTags.OldAllocator.TakeBlock | old/old_design.hpp:136-147 | cuts the chosen block to size as `TakenLaws` says and takes it off the list and out of available_bytes, the rest standing in its place; the next search starts from its predecessor |
| BoundaryTags.OldAllocator.Search | old/old_design.hpp:104-173 | finds the first block that fits from where the last search ended, once around the list; misses when none fits; in addition, when the last search ended on the tail, the loop of the code, taken round by round, never exits |
| BoundaryTags.OldAllocator.NextFitPlace | old/old_design.hpp:104-173 | a search that starts behind place q serves the first block that fits behind q or, when none does, the first from the head; it starts at the head when no search ended anywhere or the last one on the tail |
| BoundaryTags.OldAllocator.NoneServesExact | old/old_design.hpp:104-105 | a request goes to the OS if and only if every block on the list is too small for it |
| BoundaryTags.OldAllocator.KeepsGoing | old/old_design.hpp:124-172 | when nothing fits and the last search ended on the tail, the search is still looking at a block of the list after any number of rounds |
| BoundaryTags.OldAllocator.CreateBlock | old/old_design.hpp:425-463 | a new block in use with agreeing header and footer, which extends the heap when it is not mapped |
| BoundaryTags.OldAllocator.Allocate | old/old_design.hpp:94-196 | gives a block that was not in use, long enough, apart from the rest: the next fitting free block, cut to size when the rest makes a block of at least one byte, or a new one exactly when none serves; the rest takes the block's place on the list and the search ends on its predecessor; never returns if and only if the list's bytes suffice and the search runs forever, which is when nothing fits and the last search ended on the tail |
| BoundaryTags.OldAllocator.Deallocate | old/old_design.hpp:284-318 | unmaps a mapped block, shrinks the heap over the last one, returns any other to the head of the list unless it melts into a free block before it; a block that leaves the list, itself or a free one behind it, takes a search that ended on it to its predecessor there; keeps tiling, footers, free list and available_bytes exact even when brk fails |
| BoundaryTags.OldAllocator.constructor | old/old_design.hpp:58-72 | starts with one free chunk of 4096 bytes, or with nothing when the break does not move |
| BoundaryTrap.ReachTrap | old/old_design.hpp:94-173 | a sequence of calls on a new allocator after which a request for 150 bytes never returns although the list holds 200 |

## Left out

- AllocatorSafety.RunSafe: takes each locked section of a central free list as one step; `AllocatorSplit` cuts it where it calls the page heap and carries the result over. Slab push and pop are single steps, so the late aborts of `RseqLaws` and the races of `SlabRaces` are not among these interleavings.
- AllocatorMemory.ListsIntact: the words a locked section writes one by one are not separate steps; callers do not write between them.
- AllocatorLists.FreeLists.FreeLocked: leaves out pointer 0, which the code takes for null and an OS that maps page 0 could hand out.
- RseqLaws.RunBalanced: covers sections only; plain calls among them are in `SlabRaces`, where a plain call is a thread of its own, so more orders are possible than one thread falling back from a section allows.
- BoundaryTags.OldAllocator.Allocate: sizes are unbounded, so a request whose size plus header and footer wraps around is not modelled; the call that never returns is the outcome `Hangs`.
- CentralFreeLists.CentralFreeList.Allocate: counts free objects without the wrap-around of the 32-bit counter.
- AllocatorCalls.ClassAllocator.Allocate: has one size class and one CPU's slab, without other threads between its accesses; the step system has all classes, CPUs and threads.
- Memory is aligned 16-bit words; byte order, alignment and the copying of pointer batches are not modelled.
- The page map as a hash table: it is a map. Span objects deleted by the code become unreachable here.
- mmap, munmap, sbrk and brk themselves, and memory that others take from the program break.
- CPU discovery, affinity, slab region mapping and the alignment of slabs to cache lines.
- Large requests (class 0): allocate returns null; deallocate of such memory is unfinished in the code.
- Destructors of all classes; the old one may put blocks back that it has just taken off its list.
- The unused batch helpers of the slabs (push_destination, commit_push, pop_source, commit_pop, available, remaining).
- radix_tree.hpp, the drivers, scripts and tests.
