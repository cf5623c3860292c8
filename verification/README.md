# Verified models of the AIP host library and driver

This project models the four parts of the AIP software stack that hold mutable state or do tight
integer arithmetic, and proves what they promise. Each imperative part is a class (or methods on
arrays) that works in place, step by step as the C code does; its methods are proved to make exactly
the steps of a small model on values, and the theorems about whole runs are proved on that model.

## The four parts

**Hash table** (`lib/include/uthash.h`). Every element is a `Handle` that sits in two linked
structures at once: the doubly linked application order, with a tail pointer, and the doubly linked
chain of its bucket. `UtHash.HashTable` rewires these pointers: insertion at the tail, sorted
insertion, replacement, deletion, the in-place bottom-up merge sort, the doubling of the bucket
array with its per-bucket multipliers and its "ineffective expansion" cut-off, and the optional
Bloom filter, a vector of bytes. `HashModel` is the abstract state; `HashInvariant` proves that
every macro keeps the invariant that `HASH_FSCK` checks; `HashExpansion` says what one expansion
computes; `HashRefinement` proves that a table with unique keys is a finite map over any run, that
the filter is invisible, and that sorted insertion agrees with insertion followed by sorting.
`HashRuns` follows runs in which keys may repeat, with the bound on chain lengths, and `HashMeaning`
states the whole table record after an insertion or a deletion in numbers. `StableSort` shows the
merge sort to be a stable sort; `AppOrder` and `Buckets` hold the pointer loops.

**Buffer allocator** (`lib/src/iaic_bo.c` over `lib/include/iaic_list.h`). A ring of blocks behind a
sentinel tiles one region; an allocation takes the first fit and splits it, a release merges
backward and then forward. `IaicList` is the ring; `BoAllocator.Context` the allocator in place,
with its lock; `BoModel` the block list as a value. `BoLayout` proves the tiling invariant,
`BoCanonical` that the layout is a function of the live buffers alone, with the round trips that
follow, and `BoFirstFit` what first fit and coalescing mean byte by byte.

**Job scheduler** (`drive/jz_aip_v20_core.c`, `_irq.c`, `_drv.c`). Each locked section of a channel
is one atomic step: submission, completion interrupt, release of a process, reaping. `Scheduler` is
the machine; `SchedulerSafety` proves that each step keeps the invariant and what a release does;
`SchedulerRuns` proves conservation of jobs, the queue discipline and the meaning of a wait over all
interleavings; `Waits` is the answer of a wait as a function of what it observes, and `WaitHistory`
ties what it observes to the run; `JobChannel.Channel` makes the steps in place on the two job
lists.

**Resize reference** (`testsuite/aipv20_resize/aipv20_resize2.c`). The fixed-point bilinear
interpolation that the hardware is compared with: 16.16 coordinates with running accumulators,
11-bit weights, three truncations, packed 2-, 4- and 8-bit lanes, and edge clamping. `Interpolation`
is one sample and one byte of packed lanes, `Resize` the loops over the image, `ResizeTheory` the
properties of the resulting image, and `PixelTheory` its exact values, with every rounding written
out.

`TableRuns`, `BoRuns` and `ChannelRuns` carry out any sequence of operations on the objects and end
in the states that the theorems about runs speak of.

## Assumptions

- The hash is an arbitrary function of the key; the same key always has the same hash. Keys are byte
  sequences that do not change while their element is in a table. The table record that uthash
  allocates and the user's head pointer are one object. Memory is always available.
- An element that is being added is not in the table yet; one that replaces another is not, or is the
  one its key finds. Unique keys are assumed only where a statement speaks of a map.
- The allocator has one region of at least 64 bytes, obtained once, whose first block is held for the
  whole run, as the library's initialisation does. `size_t` has 32 bits. The sentinel is tested before
  `idle` or `size` of a neighbour is read; the C loops read them first.
- The hardware interrupts only for the job it is running, a reset drops a pending interrupt, and the
  interrupt handler is one atomic step. The 64-bit counters are read atomically.
- In the resize the number of channels of both images is the one the element type is made for.

Where the loops of `lib/src/iaic_bo.c:111-135` look at the sentinel as if it were a block, the model
follows the order of tests that gives those reads a meaning; the results are the same.

## Model

| member | source | states |
|---|---|---|
| `UtHash.HashTable.MakeTable` | lib/include/uthash.h:215-245 | 32 empty buckets, cleared statistics and a cleared filter, in the concrete fields |
| `UtHash.HashTable.Add` | lib/include/uthash.h:399-418 | the element goes to the end of the application order and into its bucket; all pointers, counts, tail and statistics stay exact, through any expansion this triggers |
| `UtHash.HashTable.AddInOrder` | lib/include/uthash.h:353-384 | the element goes behind every element that does not compare greater, up to the first that does; everything else stays exact |
| `UtHash.HashTable.FindPlace` | lib/include/uthash.h:289-296 | the loop stops at the first element that compares greater than the new one, or past the end |
| `UtHash.HashTable.AppendList` | lib/include/uthash.h:281-287 | the application order gains the element at its end and the tail moves to it |
| `UtHash.HashTable.AddToTable` | lib/include/uthash.h:340-348 | the item count, the chain and the filter all learn of the new element |
| `UtHash.HashTable.AddToBkt` | lib/include/uthash.h:770-789 | the element is pushed on its chain, and the table doubles exactly when the chain reaches its multiple of ten and expansion is on |
| `UtHash.HashTable.ExpandBuckets` | lib/include/uthash.h:836-886 | the doubling in place computes the abstract expansion: chains, multipliers, ideal length, nonideal items, cut-off |
| `UtHash.HashTable.Delete` | lib/include/uthash.h:450-480 | the element leaves both lists; neighbours, head, tail, counts are repaired; the last element takes the table with it |
| `UtHash.HashTable.UnlinkApp` | lib/include/uthash.h:464-474 | the element at any position leaves the application order, head and tail following |
| `UtHash.HashTable.Find` | lib/include/uthash.h:156-176 | returns an element of the table with the key, and null only when no element has it |
| `UtHash.HashTable.Replace` | lib/include/uthash.h:257-272 | the element with the same key, if any, is returned and unlinked, then the new one is appended; an element may replace itself |
| `UtHash.HashTable.ReplaceInOrder` | lib/include/uthash.h:247-279 | the same with ordered insertion of the new element |
| `UtHash.HashTable.Sort` | lib/include/uthash.h:893-975 | the application order becomes the merge-sorted one with correct links, head and tail; buckets and filter are untouched |
| `UtHash.HashTable.Count` | lib/include/uthash.h:1070 | the number of elements in the application order, zero for no table |
| `UtHash.HashTable.Fsck` | lib/include/uthash.h:519-566 | on any table whose lists can be walked the check finds nothing wrong exactly when all links mirror each other, all bucket counts are exact and both lists hold the stored number of items |
| `UtHash.HashTable.FsckPasses` | lib/include/uthash.h:519-566 | the check finds nothing wrong in any valid state, so after any operation |
| `UtHash.HashTable.CheckOrder` | lib/include/uthash.h:549-564 | the walk over the application order finds a wrong prev link exactly if there is one, and counts the elements |
| `UtHash.HashTable.BloomPasses` | lib/include/uthash.h:204-205 | the test of the byte vector is membership of the masked hash, or always true without the filter |
| `Bloom.NewBits` | lib/include/uthash.h:179-191 | a cleared vector of enough bytes represents the empty set of bits |
| `Bloom.BitSet` | lib/include/uthash.h:198-202 | setting a bit stays in bounds and adds exactly that bit |
| `Bloom.BitTest` | lib/include/uthash.h:199-205 | testing a bit stays in bounds and is non-zero exactly when the bit is set |
| `Bloom.ByteInBounds` | lib/include/uthash.h:179-205 | the byte of every masked hash lies inside the vector, whatever the filter's size |
| `Bloom.ByteLenIsExact` | lib/include/uthash.h:179-180 | the vector has exactly as many bytes as the bits need |
| `Bits.AndMaskIsMod` | lib/include/uthash.h:433-436 | masking with a power of two minus one is the remainder, so the bucket index is the hash modulo the number of buckets |
| `Buckets.PushFront` | lib/include/uthash.h:770-779 | a chain with correct links gains the handle at its head, count included |
| `Buckets.Unlink` | lib/include/uthash.h:792-805 | the handle at any position leaves its chain; neighbours, head and count are repaired and no other chain changes |
| `Buckets.Redistribute` | lib/include/uthash.h:852-873 | the loop over all buckets leaves the chains, multipliers and nonideal count that moving the items one by one computes |
| `Buckets.FindInChain` | lib/include/uthash.h:748-767 | the first entry of the chain whose hash, length and key agree |
| `Buckets.CheckBuckets` | lib/include/uthash.h:526-544 | the walk over the buckets finds fault exactly if some hh_prev link or some stored count is wrong, and counts all items |
| `AppOrder.SortList` | lib/include/uthash.h:893-975 | the in-place bottom-up merge sort terminates with the merge-sorted order, correct prev links, head and tail |
| `AppOrder.PassOver` | lib/include/uthash.h:903-965 | one pass merges the runs two by two, in place |
| `AppOrder.MergeRuns` | lib/include/uthash.h:919-961 | two adjacent runs become their merge at the end of the output list |
| `AppOrder.SkipRun` | lib/include/uthash.h:908-918 | finding the second run advances by the run length or stops at the end of the list |
| `StableSort.MergeOfSorted` | lib/include/uthash.h:919-961 | merging two stably sorted runs, left one first on ties, gives the stable sort of their concatenation |
| `StableSort.PassDoublesRuns` | lib/include/uthash.h:902-972 | a pass turns stably sorted runs of length w into stably sorted runs of length 2 w |
| `StableSort.MergeSortIsStableSort` | lib/include/uthash.h:893-975 | for a total preorder the result is the stable sort: what insertion behind equals produces |
| `StableSort.StableSortedIsStableSort` | lib/include/uthash.h:893-975 | that result is sorted, a permutation, and keeps the order of equal elements |
| `StableSort.InsertStable` | lib/include/uthash.h:289-296 | sorted insertion puts a new element behind its equals and disturbs no other ones |
| `HashInvariant.AddKeepsInv` | lib/include/uthash.h:399-418 | insertion, expansion included, keeps each element once in the order and once in the chain its hash selects, and its filter bit set |
| `HashInvariant.AddInOrderKeepsInv` | lib/include/uthash.h:353-384 | the same for sorted insertion, for any comparison function |
| `HashInvariant.DeleteKeepsInv` | lib/include/uthash.h:450-480 | the element is found in the chain its hash selects, and its deletion keeps the invariant |
| `HashInvariant.SortKeepsInv` | lib/include/uthash.h:893-975 | sorting keeps the invariant, the elements and the whole bucket table, for any comparison function |
| `HashInvariant.ExpandKeepsInv` | lib/include/uthash.h:836-886 | doubling puts every item into the chain its hash now selects, losing and duplicating none |
| `HashInvariant.ChainsHoldTheItems` | lib/include/uthash.h:526-564 | the chains together hold exactly the elements of the application order, so both counts of the check agree |
| `HashExpansion.IdealIsCeiling` | lib/include/uthash.h:849-851 | the shift-and-mask formula is the ceiling of items over new buckets |
| `HashExpansion.ExpandStatistics` | lib/include/uthash.h:849-864 | after a doubling the ideal length is that ceiling, the nonideal items are the sum of the excesses, and each chain is at most (multiplier + 1) times ideal |
| `HashExpansion.MultOfClosedForm` | lib/include/uthash.h:859-864 | the multiplier counted up item by item, in closed form |
| `HashExpansion.ExpandCutOff` | lib/include/uthash.h:878-883 | expansion is switched off exactly by the second doubling in a row that leaves more than half of the items nonideal |
| `HashExpansion.HomeSplits` | lib/include/uthash.h:433-436 | with twice as many buckets an item's bucket i becomes i or i + n |
| `HashExpansion.ExpandSplitsBuckets` | lib/include/uthash.h:853-873 | each new chain is, reversed, the part of the one old chain whose hash selects it |
| `HashMeaning.AddMeaning` | lib/include/uthash.h:353-418 | the whole table record after an insertion, plain or ordered: the element at the front of its chain, its bit in the filter, and all statistics unchanged exactly if expansion is off or the chain is then shorter than ten times its multiplier plus one; otherwise one doubling, with its chains, multipliers, ideal length and cut-off; a first element finds 32 empty buckets |
| `HashMeaning.AddGrowsIff` | lib/include/uthash.h:770-789 | the number of buckets stays exactly under that condition and doubles otherwise |
| `HashMeaning.DeleteMeaning` | lib/include/uthash.h:450-480 | a deletion takes one entry out of one chain and changes nothing else in the table; the last element takes the table with it |
| `HashMeaning.FindIsFirst` | lib/include/uthash.h:748-767 | a lookup stops at the first entry of the chain that has the key |
| `HashRefinement.FindIsLookup` | lib/include/uthash.h:156-176 | in every good state a lookup is sound and complete, with or without the filter |
| `HashRefinement.BloomIsTransparent` | lib/include/uthash.h:156-213 | a lookup through the filter equals the lookup without it: no false negatives |
| `HashRefinement.FindRefinesMap` | lib/include/uthash.h:156-176 | with unique keys a lookup is the map lookup |
| `HashRefinement.ReplaceKeepsInv` | lib/include/uthash.h:257-265 | replacement keeps the invariant, returns what a lookup finds and leaves every other element in order; an element that replaces itself moves to the end |
| `HashRefinement.ReplaceInOrderKeepsInv` | lib/include/uthash.h:247-255 | the same with ordered insertion of the replacement |
| `HashRefinement.ReplaceRefines` | lib/include/uthash.h:257-265 | replacement overwrites the map entry and returns the old one, for every element, one that is in the table included |
| `HashRefinement.ReplaceInOrderRefines` | lib/include/uthash.h:247-255 | the same for the ordered form |
| `HashRefinement.DeleteRefines` | lib/include/uthash.h:450-480 | deletion removes exactly the entry of the element's key |
| `HashRefinement.RunRefinesMap` | lib/include/uthash.h:247-480 | from any good state, every run of adds, sorted adds, replaces, deletes and sorts keeps the invariant and represents the map the run describes |
| `HashRefinement.FindAfterRun` | lib/include/uthash.h:156-176 | after any run from the empty table a lookup answers as the map does |
| `HashRefinement.InOrderEqualsAddThenSort` | lib/include/uthash.h:353-384 | inserting any sequence in order gives exactly the order of plain insertion followed by a sort, for any total preorder |
| `HashRefinement.SortKeepsLookups` | lib/include/uthash.h:893-975 | a sort changes no lookup and leaves the order sorted with equal elements in their old order |
| `HashRuns.EditsKeepInvAndBound` | lib/include/uthash.h:247-480 | every run of operations on elements, equal keys allowed, keeps the full invariant; while expansion is on, every chain stays below ten times its multiplier plus one, or at most the ideal length times that |
| `HashRuns.EditKeepsBound` | lib/include/uthash.h:818-835 | each single operation keeps that bound on the chain lengths |
| `HashRuns.EditRefinesList` | lib/include/uthash.h:247-480 | whatever the keys, each operation does to the application order what its name says: append, place behind equals, make room for a replacement, remove one element, sort stably |
| `TableRuns.PerformAll` | lib/include/uthash.h:247-480 | any allowed sequence of operations, carried out on the pointers, ends in the state that the run theorems are about |
| `IaicList.Init` | lib/include/iaic_list.h:23-27 | a node becomes a ring of its own |
| `IaicList.Link` | lib/include/iaic_list.h:31-38 | a node linked between two neighbours of a ring gives the ring with it in between |
| `IaicList.Add` | lib/include/iaic_list.h:39-42 | insertion directly behind any node |
| `IaicList.AddTail` | lib/include/iaic_list.h:43-46 | insertion at the end of the list |
| `IaicList.DelEntry` | lib/include/iaic_list.h:50-58 | the ring closes over the removed node; a node that is a ring of its own stays one |
| `IaicList.Del` | lib/include/iaic_list.h:59-64 | the ring closes over the removed node, which then points nowhere |
| `IaicList.DelInit` | lib/include/iaic_list.h:65-69 | the ring closes over the removed node, which is then a ring of its own |
| `IaicList.Replace` | lib/include/iaic_list.h:72-79 | the new node takes the old one's place, also on a ring of one |
| `IaicList.ReplaceInit` | lib/include/iaic_list.h:80-85 | the same, and the replaced node is a ring of its own |
| `IaicList.Move` | lib/include/iaic_list.h:88-93 | the node moves to the front; the others keep their order |
| `IaicList.MoveTail` | lib/include/iaic_list.h:94-99 | the node moves to the end; the others keep their order |
| `IaicList.PredicatesMean` | lib/include/iaic_list.h:102-119 | the pointer tests mean last, empty, empty and singular, in both directions |
| `BoAllocator.Context.CreateBoNode` | lib/src/iaic_bo.c:6-34 | a region from the kernel joins the list as one idle block with both addresses; a refusal changes nothing; called with the lock held it blocks |
| `BoAllocator.Context.FindFit` | lib/src/iaic_bo.c:43-46 | the search ends at the first idle block that is large enough, or at the sentinel |
| `BoAllocator.Context.FastAlloc` | lib/src/iaic_bo.c:37-85 | the first block that fits is granted, split when at least 512 bytes would remain, and the buffer describes it. The lock is free after a call if and only if a block was found, that is (FirstFitIsComplete) if some free range holds the request: without one the kernel is asked with the lock held, a refusal returns without releasing it, and an offered region makes create_bo_node lock a second time and never return |
| `BoAllocator.Context.MergeBackLoop` | lib/src/iaic_bo.c:115-125 | the backward loop terminates and fuses the block into its idle predecessors |
| `BoAllocator.Context.MergeForwardLoop` | lib/src/iaic_bo.c:127-135 | the forward loop terminates and swallows the idle successors |
| `BoAllocator.Context.FastFree` | lib/src/iaic_bo.c:87-136 | a buffer without a handle is ignored, an unknown address is reported, any other release marks and merges; a failed return of the region is reported; exactly a successful return of the region leaves a freed node on the list; no new node appears |
| `BoAllocator.RegionBackIff` | lib/src/iaic_bo.c:115-138 | the region is handed back to the kernel exactly by the release of its root |
| `BoRuns.Open` | lib/src/iaic_api.c:168-175 | opening a context succeeds exactly if the kernel gives a region of at least 64 bytes, and then leaves the initial list of the run theorems and the shared buffer of 16 bytes at the base |
| `BoRuns.PerformAll` | lib/src/iaic_bo.c:37-136 | any sequence of requests is carried out in place exactly as the run on values, up to the first allocation that finds no block, which alone leaves the lock taken; allowed requests never leave a freed node on the list |
| `BoRuns.ServedMeans` | lib/src/iaic_bo.c:64-70 | the run stops in front of exactly the first allocation for which there is no block |
| `BoModel.AlignSize` | lib/src/iaic_bo.c:39 | the rounded size is a multiple of 64 at most 63 above the request, when nothing wraps |
| `BoModel.FirstFit` | lib/src/iaic_bo.c:43-46 | the found block fits and no earlier one does |
| `BoLayout.BlocksTileTheRegion` | lib/src/iaic_bo.c:45-57 | blocks lie end to end, never overlap, fill the region, start at multiples of 64, and keep physical and virtual addresses in step |
| `BoLayout.AllocKeepsGood` | lib/src/iaic_bo.c:37-62 | an allocation keeps tiling and coalescing |
| `BoLayout.AllocKeepsGoodIff` | lib/src/iaic_bo.c:39-57 | the exact condition, for every size_t: the layout survives unless the size is zero or wraps and the first idle block is large enough to be split |
| `BoCanonical.FirstEmptyRequestBreaks` | lib/src/iaic_bo.c:39-57 | the condition fails in practice: after initialisation of any region with 576 bytes or more, an empty or wrapping request breaks the tiling |
| `BoLayout.AlignSizeZeroIff` | lib/src/iaic_bo.c:39 | a request rounds to zero exactly when it is empty or wraps around |
| `BoLayout.FreeKeepsGood` | lib/src/iaic_bo.c:87-136 | a release of any address but the root's keeps tiling and coalescing |
| `BoLayout.FreeKeepsGoodIff` | lib/src/iaic_bo.c:87-136 | the exact condition: only the release of the root gives the invariant up |
| `BoLayout.FreeAtShape` | lib/src/iaic_bo.c:111-135 | in a coalesced list each merge loop fuses at most once |
| `BoLayout.RootFreeShape` | lib/src/iaic_bo.c:111-135 | the exact list after a release of the root |
| `BoLayout.FreeIdle` | lib/src/iaic_bo.c:100-135 | a second release of the same idle block changes nothing |
| `BoCanonical.CanonicalUnique` | lib/src/iaic_bo.c:43-135 | a coalesced tiling is determined by its live buffers |
| `BoCanonical.AllocLive` | lib/src/iaic_bo.c:37-62 | an allocation adds exactly the granted buffer, at an address where none was live |
| `BoCanonical.FreeLive` | lib/src/iaic_bo.c:87-136 | a release removes exactly the released buffer |
| `BoCanonical.AllocFreeRoundTrip` | lib/src/iaic_bo.c:37-136 | allocating and releasing restores the block list exactly |
| `BoCanonical.InitGood` | lib/src/iaic_api.c:168-175 | initialisation leaves a good list whose one live buffer is the root |
| `BoCanonical.RunKeepsGood` | lib/src/iaic_bo.c:37-136 | every run of allocations and releases keeps the invariant |
| `BoCanonical.LayoutDependsOnLiveOnly` | lib/src/iaic_bo.c:37-136 | two runs that end with the same live buffers end with the same list, whatever their order |
| `BoCanonical.DrainRestoresInit` | lib/src/iaic_bo.c:87-136 | after any run, releasing all live buffers but the root in any order restores the list just after initialisation |
| `BoCanonical.RootStays` | lib/src/iaic_api.c:168-175 | no run changes the root block |
| `BoFirstFit.IdleBlocksAreMaximalGaps` | lib/src/iaic_bo.c:111-135 | the idle blocks are exactly the maximal ranges of free bytes |
| `BoFirstFit.FirstFitIsComplete` | lib/src/iaic_bo.c:39-62 | for every size_t: a request is served exactly when some free range holds its rounded size, from the lowest such range, in free bytes. The granted block holds the request if and only if the rounding does not wrap (size at most 2^32 - 64), and then exceeds it by at most 63 + 511 bytes; above that the rounded size is zero, any free byte serves, and the block is too small |
| `BoFirstFit.GrantIsExact` | lib/src/iaic_bo.c:39-62 | the exact list after a grant, for every list and every size_t: the first idle block of at least the rounded size is granted whole if fewer than 512 bytes would remain, and otherwise cut to the rounded size with an idle block of the remaining bytes behind it; no other block changes |
| `SchedulerSafety.SubmitKeepsInv` | drive/jz_aip_v20_core.c:360-374 | a submission keeps the whole invariant; a job starts at once only into an empty queue |
| `SchedulerSafety.SubmitMeaning` | drive/jz_aip_v20_core.c:360-374 | every field after a submission: the job is last, with the next number and the id of its process, and runs at once exactly if it is alone |
| `SchedulerSafety.CompleteKeepsInv` | drive/jz_aip_v20_irq.c:36-46 | a completion keeps the invariant and strictly raises the finished number |
| `SchedulerSafety.IrqKeepsInv` | drive/jz_aip_v20_irq.c:21-47 | an interrupt keeps the invariant |
| `SchedulerSafety.IrqMeaning` | drive/jz_aip_v20_irq.c:21-47 | every field after an interrupt: the first job is done under its number and the next one runs |
| `SchedulerSafety.HandlersAgree` | drive/jz_aip_v20_irq.c:77-99 | the handler that does not test the job's state makes the same step as the one that does |
| `SchedulerSafety.ReapKeepsInv` | drive/jz_aip_v20_core.c:665-693 | reaping one job keeps the invariant |
| `SchedulerSafety.ReleaseFromMeaning` | drive/jz_aip_v20_drv.c:148-159 | the loop of a release in closed form, from any position on |
| `SchedulerSafety.ReleaseMeaning` | drive/jz_aip_v20_drv.c:141-165 | a release drops all and only the jobs of the process, keeps the order of the others, resets once if and only if the running job was dropped, and then starts only the new first job |
| `SchedulerSafety.ReleaseKeepsInv` | drive/jz_aip_v20_drv.c:141-165 | a release re-establishes that a non-empty queue has its first job running |
| `SchedulerRuns.RunKeepsInv` | drive/jz_aip_v20_core.c:119-153 | every interleaving of submissions, interrupts, releases and reaps keeps the invariant |
| `SchedulerRuns.StepMeaning` | drive/jz_aip_v20_core.c:119-153 | what each event of a run does to the lists |
| `SchedulerRuns.HeadRuns` | drive/jz_aip_v20_irq.c:21-47 | in every run a non-empty queue has exactly its first job running and the hardware runs it, so the handler's other branch is never taken |
| `SchedulerRuns.JobsAreConserved` | drive/jz_aip_v20_core.c:360-374 | in every run each accepted job is in exactly one of queue, done list, reaped, cancelled; none starts or is freed twice; jobs are reaped in increasing order |
| `SchedulerRuns.StepMonotone` | drive/jz_aip_v20_irq.c:37-41 | neither counter ever falls |
| `SchedulerRuns.InterruptsDrain` | drive/jz_aip_v20_irq.c:21-47 | from any good state as many interrupts as there are jobs empty the list: the jobs finish in order, each later one starts once, the finished number is the last one |
| `SchedulerRuns.DrainServesIff` | drive/jz_aip_v20_irq.c:37-41 | the waits these interrupts serve: the finished number reaches n exactly if it had, or if a queued job has the number n or a later one; so the number of a cancelled last job is served by none |
| `SchedulerRuns.EmptyMeansReaped` | drive/jz_aip_v20_core.c:665-693 | over all interleavings, when the done list is found empty every job completed at any earlier moment has been reaped, in the order of completion |
| `SchedulerRuns.ZeroMeansGone` | drive/jz_aip_v20_core.c:779-892 | over all interleavings of processes that submit, fail to submit, and wait for any number: each wait answers what the wait function answers on what it saw; after a 0 no job up to the number is queued, and if it was the number handed back by submit, the own job of the caller completed or was cancelled; the overflow error never meets such a number |
| `SchedulerRuns.HandedMayBeLater` | drive/jz_aip_v20_core.c:789-791 | the number handed back can belong to a later submitter |
| `WaitHistory.ActionMeaning` | drive/jz_aip_v20_core.c:779-892 | over all runs, every action of a process uses the counters of that moment: its number and job on submission, the number handed back, the overflow test, the first read, and each turn, which ends the wait with the signal, the reached number or the expired timer, in this order; no other process moves |
| `WaitHistory.CompletionIsNoticed` | drive/jz_aip_v20_core.c:862-874 | over all runs, once the finished counter has reached the number of a waiting process, its next turn without a signal returns 0 |
| `WaitHistory.ReadsAreReal` | drive/jz_aip_v20_core.c:842-874 | over all runs, what a wait has seen are the values of the counters at its own entry, first read and turns, in this order |
| `WaitHistory.OwnIsSubmitted` | drive/jz_aip_v20_core.c:362-365 | over all runs, the own number of a process is that of a job it submitted itself |
| `Waits.LoopCodeMeans` | drive/jz_aip_v20_core.c:862-885 | each answer of the loop in both directions: which turn is the first to end it, and by a signal, a reached number or an expired timer |
| `Waits.LoopStopsAt` | drive/jz_aip_v20_core.c:862-885 | the first turn that does not continue decides, whatever follows |
| `JobChannel.Channel.Submit` | drive/jz_aip_v20_core.c:360-374 | the job gets the next number, joins the end of the list and starts if it is the first |
| `JobChannel.Channel.SubmitNext` | drive/jz_aip_v20_core.c:119-153 | the first job of the list, if any, is running on the hardware afterwards |
| `JobChannel.Channel.FinishJob` | drive/jz_aip_v20_irq.c:21-47 | the first job moves to the done list with its number recorded, and the next one starts; no other record enters a list |
| `JobChannel.Channel.FinishJobT` | drive/jz_aip_v20_irq.c:77-99 | the same step without the test of the state |
| `JobChannel.Channel.Release` | drive/jz_aip_v20_drv.c:141-165 | the deleting walk over the list makes exactly one release step, touches no completed job and brings in no record |
| `JobChannel.Channel.ReapOne` | drive/jz_aip_v20_core.c:672-676 | the oldest completed job leaves the done list |
| `JobChannel.Channel.HandleCompleted` | drive/jz_aip_v20_core.c:665-693 | all completed jobs are reaped in the order of completion, when nothing happens in between |
| `ChannelRuns.HandleCompletedAmid` | drive/jz_aip_v20_core.c:665-693 | with any events in the gaps in which the lock is dropped, the worker ends with an empty done list and has reaped, in order, all that had completed before it started |
| `ChannelRuns.PerformAll` | drive/jz_aip_v20_core.c:360-374 | any sequence of events, carried out on the two lists, ends in the state that the run theorems are about, with either handler |
| `JobChannel.WaitForSeqno` | drive/jz_aip_v20_core.c:842-891 | every answer has its exact condition: 0 when a read of the finished counter reached the number before anything else ended the wait, overflow for numbers not yet handed out, and the timeout and signal errors likewise |
| `Interpolation.LerpBetween` | testsuite/aipv20_resize/aipv20_resize2.c:375-377 | the truncating sample lies between the least and the greatest of its four inputs |
| `Interpolation.LerpError` | testsuite/aipv20_resize/aipv20_resize2.c:375-377 | it exceeds the exact interpolation by at most 1/2 and falls short by less than 0.7574 |
| `Interpolation.IntermediatesFit` | testsuite/aipv20_resize/aipv20_resize2.c:375-377 | no intermediate value leaves 32 bits |
| `Interpolation.PackedFits` | testsuite/aipv20_resize/aipv20_resize2.c:380-408 | packed lanes never spill out of their byte |
| `Interpolation.PackedLane` | testsuite/aipv20_resize/aipv20_resize2.c:380-408 | each lane of the packed result is the interpolation of the same lane of the inputs |
| `Resize.StrideIsRow` | testsuite/aipv20_resize/aipv20_resize2.c:302-318 | with the matching channel count the stride is exactly one row of pixels |
| `Resize.TapOf` | testsuite/aipv20_resize/aipv20_resize2.c:325-353 | both source pixels of a coordinate are inside the image and the weight is below one |
| `Resize.TapMeaning` | testsuite/aipv20_resize/aipv20_resize2.c:325-353 | the branches compute the rounded coordinate clamped to the image, between two neighbouring or equal pixels |
| `Resize.ComputeTap` | testsuite/aipv20_resize/aipv20_resize2.c:325-353 | shifts, masks and branches on a two's complement word compute that tap |
| `Resize.PackLanes` | testsuite/aipv20_resize/aipv20_resize2.c:380-408 | the loop that ors shifted lanes together computes the packed lanes |
| `Resize.BlendBytes` | testsuite/aipv20_resize/aipv20_resize2.c:374-408 | for every element type the byte is the blend of its four source bytes |
| `Resize.IndexInBounds` | testsuite/aipv20_resize/aipv20_resize2.c:365-378 | every byte of every pixel has an index inside its buffer (in int for images of at most 2^31 bytes, as IndexFitsIff says) |
| `Resize.IndexSplits` | testsuite/aipv20_resize/aipv20_resize2.c:365-378 | an index determines row, pixel and byte |
| `Resize.ResizeWith` | testsuite/aipv20_resize/aipv20_resize2.c:302-414 | for any scales and offsets the loops write the whole destination, one place after the other, each with its blend |
| `Resize.ResizeFmu` | testsuite/aipv20_resize/aipv20_resize2.c:289-414 | the same with the scales and offsets of the two image sizes (in int for the calls that CallFitsIff describes) |
| `ResizeTheory.WrittenMeans` | testsuite/aipv20_resize/aipv20_resize2.c:321-414 | a finished destination holds each byte of each pixel at its place |
| `ResizeTheory.PlacesAreExact` | testsuite/aipv20_resize/aipv20_resize2.c:365-378 | every place of the destination belongs to exactly one byte of one pixel |
| `ResizeTheory.BlendLane` | testsuite/aipv20_resize/aipv20_resize2.c:374-408 | each output lane depends only on the same lane of the four sources, as their interpolation |
| `ResizeTheory.FlatStaysFlat` | testsuite/aipv20_resize/aipv20_resize2.c:289-414 | a constant image resizes to the same constant, for any sizes, scales and offsets |
| `ResizeTheory.OutputLanePrecise` | testsuite/aipv20_resize/aipv20_resize2.c:374-408 | every lane of the output image lies between its source lanes and within the error bounds of the exact interpolation |
| `PixelTheory.SampleIff` | testsuite/aipv20_resize/aipv20_resize2.c:375-377 | the sample is the one number that the rounding of both row sums, of both weighted rows and of the final sum allow, each written as inequalities |
| `PixelTheory.BlendIsSampled` | testsuite/aipv20_resize/aipv20_resize2.c:374-408 | for every type, each lane of the byte is that sample of the same lane of its four source bytes |
| `PixelTheory.MappingIff` | testsuite/aipv20_resize/aipv20_resize2.c:291-296 | in integers, for all sizes: each axis has the ratio of its own sizes times 65536, rounded down, and half their difference, rounded towards zero, and no other mapping does |
| `PixelTheory.TapIff` | testsuite/aipv20_resize/aipv20_resize2.c:325-353 | the tap of a coordinate by inequalities: both pixels and the weight |
| `PixelTheory.PixelIsSampled` | testsuite/aipv20_resize/aipv20_resize2.c:289-414 | every lane of every byte of every pixel of the output is the sample of that lane of the four source pixels at the taps of its column and row |
| `ResizeTheory.SameSizeIsIdentity` | testsuite/aipv20_resize/aipv20_resize2.c:289-414 | resizing to the same size returns the source (with 32-bit accumulators up to 32767 pixels per axis, the range of EqualSizesFitIff) |
| `ResizeTheory.AxisFitsIff` | testsuite/aipv20_resize/aipv20_resize2.c:291-325 | the exact condition, for every pair of sizes: the running coordinates of an axis stay in a 32-bit int if and only if the last one, offset + dst * scale, does; with the rounded ones, if and only if the last of both kinds do |
| `ResizeTheory.IndexFitsIff` | testsuite/aipv20_resize/aipv20_resize2.c:365-378 | the exact condition: all indices of an image stay in a 32-bit int if and only if it has at most 2^31 bytes |
| `ResizeTheory.ImageFitsIff` | testsuite/aipv20_resize/aipv20_resize2.c:302-318 | with the product behind the stride: that, and width times channels below 2^31 |
| `ResizeTheory.CallFitsIff` | testsuite/aipv20_resize/aipv20_resize2.c:289-414 | no coordinate, stride or index of a whole call overflows if and only if eight numbers known before the loops are in range |
| `ResizeTheory.SourceFitsAllIff` | testsuite/aipv20_resize/aipv20_resize2.c:291-325 | a source axis fits whatever the destination exactly up to 21845 pixels |
| `ResizeTheory.EqualSizesFitIff` | testsuite/aipv20_resize/aipv20_resize2.c:291-325 | an axis resized to its own size fits exactly up to 32767 pixels |

## Left out

- UtHash.HashTable.Fsck: assumes that the walks along next and hh_next end; on a cyclic list the C check would not.
- JobChannel.Channel.HandleCompleted: runs without other steps between its pops; the interleaved form is ChannelRuns.HandleCompletedAmid.
- BoAllocator.Context.FastAlloc: a blocked call is an answer of its own, after which nothing follows; the region that the kernel gave to it is lost and not modelled. Lines 71-73 of lib/src/iaic_bo.c are never reached and have no counterpart.
- BoLayout.FreeKeepsGood: speaks of every release but the root's, which FreeKeepsGoodIff shows to be the one exception.
- BoAllocator.Context.FastFree: a freed node on the list is a flag of the model; what reading it does is not.
- ResizeTheory.SameSizeIsIdentity: scales and offsets are computed over the reals; double rounding is not modelled (it is exact for equal sizes).
- Resize.ResizeWith: accumulators are unbounded integers, for scales and offsets of any size.
- Resize.ResizeFmu: accumulators and indices are unbounded integers; CallFitsIff gives exactly the calls for which they are the 32-bit ones.
- T task mode of the driver: it busy-waits and leaves the queue discipline of the other paths.
- Register writes, cache flushes, reset polling, timing and trace fields: reduced to "start job" and "reset"; the reset inside starting a job is not counted.
- Liveness of waits: whether a wait ends at all depends on wake-ups, timeouts and signals outside this code.
- HASH_SELECT, HASH_CLEAR, the non-fatal out-of-memory variant, the concrete hash functions, the typing variants of the macros.
- Wrap-around of the unsigned counters and table sizes of uthash.
- NNA driver, kernel buffer objects, job descriptors and the other entry points of the library: field packing and calls into code that is not visible.
- NV12 and the other image formats of the resize program, and its comparison with the hardware.
