# Firedrake, verified

A Dafny model of the in-memory machinery of the Firedrake kernel and of its two dynamic
linkers, with proofs of what that machinery is for. Each module follows one part of the
system in the form the C code has it: nodes, tables and queues that are rewritten in
place are classes with `modifies` clauses, loops stay loops, and each method is proved
against a function or a predicate on values. The laws themselves are lemmas about those
functions, for all inputs and all runs.

| files | part of the system |
|---|---|
| `AATree.dfy`, `AATreeStore.dfy` | the balanced tree that indexes libraries and modules: the functions it computes, and the pointer code with its 64-entry path array |
| `ZoneHeap.dfy` | the kernel heap: zones of pages, slot tables, `halloc()` and `hfree()` |
| `FrameBitmap.dfy` | the bitmap of physical frames |
| `PageTable.dfy`, `FreePages.dfy`, `AddressSpace.dfy`, `Windows.dfy`, `PageRanges.dfy`, `MemorySteps.dfy`, `TwoSided.dfy`, `VirtualMemory.dfy`, `MemoryInstances.dfy` | two-level page tables (section 4.3 of the Intel SDM, Volume 3A), the free-page searches, what an operation does to the page maps of all directories and which frames it takes, the temporary windows, runs of pages, the steps of the operations, the search in two directories, the operations, and spaces in which they go wrong |
| `Introsort.dfy` | `array_sort()` |
| `HashSet.dfy`, `HashLoad.dfy`, `HashIteration.dfy` | the chained hash table, its growing and shrinking, and iterators that fetch ten answers at a time |
| `Scheduler.dfy`, `SchedulerProofs.dfy`, `SchedulerDeath.dfy`, `SchedulerLaws.dfy`, `SchedulerMachine.dfy` | the two-level round robin: its steps, what holds over every call and every run, when the dead are chosen, who leaves, stays and sleeps on, and the code |
| `ThreadBlocking.dfy`, `Joining.dfy` | sleeping, waking, joining and the block counter, and what they mean for the scheduler's choice |
| `SymbolTable.dfy`, `DependencySearch.dfy`, `SearchOrder.dfy` | hash-chain lookup (System V gABI, chapter 5, "Hash Table"), the kernel's breadth-first symbol resolution, and which of several providers it comes to |
| `PltBinding.dfy` | lazy and eager binding (System V ABI Intel386 supplement, chapter 5, "Procedure Linkage Table") |
| `RemoteCommand.dfy` | the cross-thread call of libio as a state machine |
| `Common.dfy` | options, powers of two, comparators |

Integers are unbounded; where the width matters it is written out: the block counter
wraps at 256, usedTicks is taken modulo 256, addresses written by the linker modulo 2^32,
quicksort's bounds use UINT32_MAX for the range below pivot 0, the table guard and the
final sum of the page searches and the hash table's count wrap at 2^32, and alarms wrap at
2^64. Spinlocks are atomic sections. The
clock, the frame allocator's answers inside the page-table code, the page allocator's
answers inside the heap, the hash functions and the comparators are parameters.

## What the code does not keep

Some laws one expects of this code are false of it as written. The code is modelled as
it is, and the model proves exactly when each law holds.

- Removing a node with two children copies the heir's data but not its key
  (sys/container/atree.c:244). Exactly the found (key, data) pair goes if and only if its
  node has a nil link or the next entry has the same key (`RemovedPair`); with different
  keys, the key goes if and only if its node has a nil link (`RemovedKey`);
  `RemovedKeyStillFound` is a tree in which the removed key is still found.
- Defragmentation looks only for used neighbours (sys/memory/heap.c:361, 386), so it
  never merges; `ZoneHeap.Zone.Defragment` states this. The zone's freeSize is never
  decreased, and `size % 4` is no alignment, so none is claimed.
- The frame search asks for one frame more than requested and starts at the limit rounded
  down to 32 frames (sys/memory/pmemory.c:63, 88, 98); the contracts say so.
- A page search that starts inside an absent table counts 1024 pages for it
  (sys/memory/vmemory.c:123, 184, 269). `StartInsideAbsentTable` shows when that is
  harmless, in both directions.
- The sum that a page search compares with the upper limit has 32 bits
  (sys/memory/vmemory.c:130, 191, 276), so a run that reaches the end of the address space
  is accepted. `StaysBelowExactly` says for which requests no directory lets the answer
  pass the limit; `PastTheEnd` has a run that ends with the address space and one that
  goes past it.
- The two-sided search reads the kernel's tables while its window onto the user's table is
  open (sys/memory/vmemory.c:226, 242), and takes the page of the window for mapped. It
  comes to the lowest common run if and only if no page of that run is masked by a window
  (`BothExactly`, `AnswerExactly`); with a kernel table for the windows that is the
  kernel's lowest free page alone, and only if the user has a table for it
  (`BothExactlyInTable`). In `WindowPageSkipped` page 2 is free in both directories and
  page 3 is found.
- Only 1024 of the 4096 bytes of a fresh page table are cleared (sys/memory/vmemory.c:324).
  For the kernel's directory `OtherPagesKeptExactly` gives the exact condition under which
  no other page changes, and `OldEntryAppears` a state in which one does. For a user's
  directory every window may take a table as well. Which slots get a table, and in which
  order the next frames of the pool go to them, is a function of the state before the
  operation (`SingleTables`, `RangeTables`, `ReadTables`, `AllocTables`), and the contracts
  of `MapPage`, `MapRange`, `AllocLimit`, `Release` and `Resolve` say that no other page
  differs if and only if those frames hold no old entry past the cleared part.
  `WindowUncovers` shows what opening and closing a window is enough to do,
  `WindowNeedsTable` a state for it.
- Slot 0xFF of a directory is the directory itself, and its absent entries look like free
  pages (sys/memory/vmemory.c:550). An allocation whose run meets the slot overwrites the
  directory. It is as promised whatever the frames hold if and only if the run does not
  meet the slot, or starts above the directory's entry for itself and goes on to the end of
  the address space (`WhateverTheFramesHold`), and for given frames exactly under the
  condition in the contract of `AllocLimit`. In `DirectoryOverwritten` a request for
  0x3FC00 pages gets page 1 and loses its first 1023 pages again. Releasing such a run
  removes whole tables: the contract of `Release` says exactly when that takes no other
  page along.
- Reading the kernel's own page-table entry for its lowest unmapped page shows the
  temporary window that was opened at that very page (sys/memory/vmemory.c:391-410), so an
  unmapped address resolves to a page table; the same happens to the directory's entry for
  the table that the window needs. `Resolve` is right if and only if this is not the case;
  `MisreadHappens` is an instance.
- `__array_isSorted` recognises ranges that do not ascend (sys/container/array.c:223-237) and the
  heapsort fallback ignores `begin` (array.c:332). Both are harmless because of the final
  insertion sort.
- NULL is a key that the hash table accepts and its rehash drops (sys/container/hashset.c:185-196),
  with the object and without the count. The file systems store their root under it
  (sys/vfs/ffs/ffs.c:42, sys/vfs/filesystem.c:36). A run of operations on any keys behaves
  like the finite map if and only if every step is `Safe`, which is a test on the table
  before the step (`RunRefines`); `RootIsLost` and `RootIsLostAtOnce` lose the root, and
  `RemoveNullKeyMiscounts` wraps the count. An iterator over keys stops its batch at the
  key NULL, and then skips it or ends early: a loop meets all answers if and only if none
  of them is NULL (`IterationComplete`).
- The selection loop stops at a dead thread whose sleep just ended
  (sys/scheduler/scheduler.c:173), and after reaping a process the next one is charged even
  if it is dead too. `DeadChosenExactly` and `DeadProcessChosenExactly` say for a whole call
  when a clock exists under which a dead thread, or a thread of a dead process, is chosen;
  `DeadSleeperChosen` and `DeadProcessChosen` are instances.
- The block counter has eight bits: a joiner can be chosen before the exit of its target is
  signalled if and only if its listeners vanish in the counter, or wrap it together with a
  sleep (`JoinerChosenExactly`); `WrappedJoinerChosen` has one with 256 pending joins.
- A library that needs itself makes every unsuccessful search endless that reaches it:
  `SearchEndsExactly`, and `SelfNeedSpreads` for a library that only needs such a one.
- Lazy and eager binding agree if and only if entries that share a slot resolve alike:
  `LazyIsEagerExactly`; `SharedSlotDisagrees` is an image in which they do not.
- `_executed` is never reset (libkernel/libio/IORemoteCommand.cpp:81-93), so only the
  answer to a request made before the first success can be trusted:
  `SuccessIsHonestExactlyBefore`.

## Model

| member | source | states |
|---|---|---|
| AATree.InsertBalanced | sys/container/atree.c:140-191 | insertion keeps every level rule, raises the root level by at most one, and then leaves no right-leaning root |
| AATree.RemoveBalanced | sys/container/atree.c:193-281 | removal restores every level rule at every node and loses at most one level |
| AATree.RebalanceRearranges | sys/container/atree.c:256-267 | the repair of a node on the way back changes shape and levels but not the in-order sequence of nodes, keys and data |
| AATree.InsertEntries | sys/container/atree.c:140-191 | insertion adds exactly one entry to the in-order sequence, at the insertion point |
| AATree.InsertSorted | sys/container/atree.c:140-191 | insertion keeps the keys in order |
| AATree.RemoveEntries | sys/container/atree.c:193-281 | removal of a stored key drops exactly one entry: its own, or with two children the next one, whose data the staying key receives |
| AATree.RemoveAbsent | sys/container/atree.c:193-281 | removing a key that is not stored leaves the tree alone |
| AATree.RemoveSorted | sys/container/atree.c:193-281 | removal keeps the keys in order |
| AATree.RemovedPair | sys/container/atree.c:217-248 | the multiset of (key, data) pairs loses exactly the found pair if and only if the found node has a nil link or the next entry is stored under the same key |
| AATree.RemovedKey | sys/container/atree.c:217-248 | with pairwise different keys, the removed key is gone if and only if its node had a nil link; otherwise it now finds the next entry's data |
| AATree.RemovedKeyStillFound | sys/container/atree.c:244 | a tree whose removed key is found again |
| AATree.SearchPosition | sys/container/atree.c:109-123 | where the search stops is an entry with an equal key |
| AATree.SearchComplete | sys/container/atree.c:109-123 | a search that finds nothing means that no stored key compares equal |
| AATree.HeightBound | sys/container/atree.c:22-49 | height is at most twice the level, and a tree of level n has at least 2^n - 1 nodes |
| AATree.PathFits | sys/container/atree.h:25 | with fewer than 2^32 - 1 nodes no walk overruns the 64-entry path, even with the nil entry and the walk to the heir |
| AATreeStore.SkewNode | sys/container/atree.c:22-34 | the link surgery of the right rotation computes Skew and touches no other node |
| AATreeStore.SplitNode | sys/container/atree.c:36-49 | the link surgery of the left rotation computes Split |
| AATreeStore.RebalanceNode | sys/container/atree.c:256-267 | lowering, three skews and two splits in place compute Rebalance, and the sentinel keeps its links and level |
| AATreeStore.Atree.constructor | sys/container/atree.c:52-74 | a new tree is empty, with a sentinel that links to itself |
| AATreeStore.Atree.Find | sys/container/atree.c:109-123 | returns data stored under an equal key exactly when there is such a key |
| AATreeStore.Atree.Insert | sys/container/atree.c:140-191 | the pointer code with its path array computes Insert, keeps balance, order, node identities and the count |
| AATreeStore.Atree.Remove | sys/container/atree.c:193-281 | the pointer code with its path array computes Remove, frees at most one node, keeps the sentinel, and changes nothing for an absent key |
| AATreeStore.Atree.ClimbFromInsert | sys/container/atree.c:171-187 | the repair loop over the path equals skewing and splitting every node from the leaf to the root |
| AATreeStore.Atree.ClimbFromRemove | sys/container/atree.c:250-277 | the repair loop over the path equals rebalancing every node on it |
| AATreeStore.Atree.DescendToHeir | sys/container/atree.c:233-242 | the walk finds the leftmost node of the right subtree and records the way there |
| ZoneHeap.Zone.constructor | sys/memory/heap.c:94-195 | a new zone's blocks tile its pages without gap or overlap, and its counters match |
| ZoneHeap.ZoneForSize | sys/memory/heap.c:77-113 | requests of up to 64, 256 and 2048 bytes get zones of 1, 5 and 20 pages, a longer one the fewest pages that hold it |
| ZoneHeap.FreshBlocks | sys/memory/heap.c:140-195 | what a new zone has to offer: one block of all its pages, or in a tiny zone 16 blocks of 255 bytes and one of 16 |
| ZoneHeap.TinyTableTiles | sys/memory/heap.c:148-175 | the initial blocks of a tiny zone tile it |
| ZoneHeap.TableLengths | sys/memory/heap.c:133-138 | the slot tables hold 998 and 333 records, fewer than maxAllocations |
| ZoneHeap.CutTiles | sys/memory/heap.c:409-464 | cutting a block in two keeps the tiling |
| ZoneHeap.Zone.TakeBlock | sys/memory/heap.c:409-464 | a free block of sufficient size is handed out: just the bytes required if it is longer and a record is left for the rest, which stays free; all other blocks are untouched and the zone is tiled and counted |
| ZoneHeap.Zone.Release | sys/memory/heap.c:466-485 | exactly the given block becomes free |
| ZoneHeap.Zone.Defragment | sys/memory/heap.c:348-403 | the pass never merges a block; only the change counter is reset |
| ZoneHeap.LiveBlocksApart | sys/memory/heap.c:489-539 | no two blocks in use overlap, within or across zones |
| ZoneHeap.Heap.FindZoneFor | sys/memory/heap.c:214-269 | first fit over zones and slots: no zone before and no slot before has room; none exactly when no zone fits |
| ZoneHeap.Heap.FindZoneWith | sys/memory/heap.c:271-322 | finds the used block that starts at a pointer, and fails only if no block in use does |
| ZoneHeap.Heap.Alloc | sys/memory/heap.c:489-512 | the first block with room for size, padding and 16 bytes serves the request, and no more of it than that unless the records are used up; the free blocks lose it and keep its rest, the blocks in use stay as they are and apart from the new one; a zone is created exactly when none fits, and a request of the same size is then served without another |
| ZoneHeap.Heap.Free | sys/memory/heap.c:514-539 | accepts exactly the pointers that are in use, takes exactly that block away and makes it free again; nothing changes for any other pointer |
| ZoneHeap.Heap.FreeAt | sys/memory/heap.c:514-539 | a zone is destroyed exactly when its last used block is freed, with its free blocks; otherwise the block becomes free and the zone counts its bytes, the freed block and the change |
| FrameBitmap.FrameTable.MarkUsed | sys/memory/pmemory.c:44-48 | marks one frame |
| FrameBitmap.FrameTable.FindFreePages | sys/memory/pmemory.c:58-105 | the word-skipping scan returns what a bit-by-bit first-fit search for pages + 1 frames from the rounded-down start returns |
| FrameBitmap.FrameTable.AllocLimit | sys/memory/pmemory.c:110-147 | marks exactly the requested number of frames of the first fitting run, all of them free before |
| FrameBitmap.FrameTable.Free | sys/memory/pmemory.c:149-160 | frees exactly the given frames |
| FrameBitmap.AllocThenFree | sys/memory/pmemory.c:110-160 | freeing a range that was just allocated restores the bitmap |
| FrameBitmap.LiveRangesApart | sys/memory/pmemory.c:110-160 | over every run of allocations and releases, the ranges in use are pairwise disjoint, lie in the table, and all their frames are marked |
| FreePages.Search | sys/memory/vmemory.c:137-196 | the kernel's search: the first start at which the count is reached if the 32-bit sum test accepts it, 0 exactly if there is no such start or it is not accepted |
| FreePages.AcceptedMeans | sys/memory/vmemory.c:130 | the sum test accepts a start if and only if its run ends at or below the upper limit or reaches the end of the address space |
| FreePages.StaysBelowExactly | sys/memory/vmemory.c:130 | no directory makes the search answer with a run past the upper limit if and only if the limit lies below the last table or the request cannot reach the end of the address space |
| FreePages.FoundIsLowest | sys/memory/vmemory.c:73-281 | starting in a present table, at a table's start, or for no more pages than the table has left: what is found is the lowest run of unmapped pages and ends below the limit or with the address space; nothing is found only if no run ends below the limit |
| FreePages.FindFreePages | sys/memory/vmemory.c:137-196 | the same of the kernel's search itself |
| FreePages.HitIsRun | sys/memory/vmemory.c:73-281 | in these cases what the count accepts is a run of free pages |
| FreePages.StartInsideAbsentTable | sys/memory/vmemory.c:116-128 | starting inside an absent table, the search is right for every directory if and only if the request fits into the rest of that table |
| FreePages.CountsUsedPage | sys/memory/vmemory.c:116-128 | for every larger request, a directory in which a used page is counted as free |
| AddressSpace.MappedHere | sys/memory/vmemory.c:293-356 | after mapping, a page of the kernel resolves to the mapped word |
| AddressSpace.MappedOtherTable | sys/memory/vmemory.c:293-356 | mapping a page of the kernel leaves pages of other tables and other directories alone, also when a table is added |
| AddressSpace.MappedSameTable | sys/memory/vmemory.c:293-356 | other pages of the same kernel table are as before, or show what the fresh frame held |
| AddressSpace.OtherPagesKeptExactly | sys/memory/vmemory.c:324 | for the kernel's directory: no other page of any directory changes if and only if the table was there or the uncleared part of the fresh frame holds no present entry outside the cell written |
| AddressSpace.MappedKernelFrames | sys/memory/vmemory.c:293-356 | mapping a kernel page leaves all user directories and tables alone |
| AddressSpace.EffectThen | sys/memory/vmemory.c:293-389 | effects compose: every untouched page shows what it showed, or what a table that was added on the way uncovers |
| AddressSpace.TakesThen | sys/memory/vmemory.c:304-306 | frames taken for tables add up: the pool's frames go to the listed slots in order, and no other slot gets a table |
| AddressSpace.KeptExactly | sys/memory/vmemory.c:293-389 | for any operation and the slots it takes frames for: no other page of any directory differs if and only if those frames of the pool, as they are before it, hold no present entry past the cleared part and outside the pages written |
| AddressSpace.WithEntryHere | sys/memory/vmemory.c:332-349 | mapping a page of slot 0xFF makes the frame the table of that slot: its pages resolve through whatever the frame holds, or to nothing if the entry is removed |
| Windows.RecursiveWindow | sys/memory/vmemory.c:318-319 | slot 0xFF shows the kernel's page tables and its directory |
| Windows.RoomLeft | sys/memory/vmemory.c:324 | two free pages are enough for two windows, even if the first takes a table with old entries |
| Windows.WindowDone | sys/memory/vmemory.c:369-389 | opening a window, operating and closing it does to all page maps what the operation does and what a table for the window uncovers, takes the window's frame and then the operation's, and nothing else |
| Windows.SecondWindow | sys/memory/vmemory.c:391-401 | which table a second window needs is decided before the first is opened: none next to a first window with a new table, else that of the next free kernel page |
| Windows.MisreadIsWrong | sys/memory/vmemory.c:391-410 | where a read goes wrong, the answer is never that of the page map |
| PageRanges.RangeMappedExactly | sys/memory/vmemory.c:358-367 | a run of pages holds its words and no other page differs if and only if the frames taken for tables hold no old entry and the frames for pages of slot 0xFF hold what their pages are to show, both before the operation |
| PageRanges.WhateverTheFramesHold | sys/memory/vmemory.c:358-367 | the second half holds whatever the frames contain if and only if the run does not meet slot 0xFF, or starts above the directory's entry for itself and goes on to the end of the address space |
| PageRanges.RunTablesBound | sys/memory/vmemory.c:358-367 | a run takes at most one frame for each slot it reaches and one for the window |
| PageRanges.OnePageTables | sys/memory/vmemory.c:504-518 | one page takes a frame for the window onto the directory, for its own table and for the window onto that, each only where the table is absent |
| PageRanges.FreeSparesEntries | sys/memory/vmemory.c:550 | a run of free pages never holds the directory's entry for itself, nor the kernel's for its first table |
| PageRanges.KernelExact | sys/memory/vmemory.c:606 | the kernel's search from its first table on starts in a present table, so that the count is right |
| PageRanges.StaysInside | sys/memory/vmemory.c:606 | a search from the lowest page never answers with a run past the end of the address space |
| MemorySteps.AllocBound | sys/memory/vmemory.c:622-643 | an allocation takes at most one frame for every 1024 pages and four more |
| MemorySteps.AllocThenRelease | sys/memory/vmemory.c:599-685 | releasing a free run that was just allocated restores the page maps of all directories if and only if the frames that both took hold no old entry outside the run and no mapped page goes with a table whose entry is removed |
| MemorySteps.KernelAllocThenRelease | sys/memory/vmemory.c:599-685 | in the kernel, outside slot 0xFF, the release takes no frame: the frames of the allocation decide |
| TwoSided.BothExactly | sys/memory/vmemory.c:218-249 | where the page maps of user and kernel have a run for the request, the two-sided search comes to it if and only if none of its pages is masked: by the open window onto a table of the user, or by what a new table for the window uncovers |
| TwoSided.BothExactlyInTable | sys/memory/vmemory.c:218-249 | with a kernel table for the windows: if and only if the run does not hold the kernel's lowest free page, or the user has no table for that page |
| TwoSided.AnswerExactly | sys/memory/vmemory.c:198-281 | the answer is the lowest run of the two page maps if and only if none of its pages is masked |
| TwoSided.BothSound | sys/memory/vmemory.c:198-281 | the search never comes to a run where the page maps have none at or below it |
| VirtualMemory.Machine.MapKernel | sys/memory/vmemory.c:293-356 | for the kernel's directory, the writes through the recursive slot compute Mapped |
| VirtualMemory.Machine.OpenWindow | sys/memory/vmemory.c:369-389 | a window is opened at the lowest free kernel page, and takes a frame exactly if that page has no table; other pages show what they showed, or what that table uncovers |
| VirtualMemory.Machine.CloseWindow | sys/memory/vmemory.c:353-355 | closing a window unmaps that page, takes no frame and changes no other page |
| VirtualMemory.Machine.MapUser | sys/memory/vmemory.c:293-356 | for a user directory, through a window onto its table: the page holds the word, other pages show what they showed or what a new table uncovers, frames go to the page's table and the window's, and the window is closed |
| VirtualMemory.Machine.MapPage | sys/memory/vmemory.c:504-518 | the page holds the word, also in slot 0xFF; no other page of any directory differs if and only if the frames it takes, given before the call, hold no old entry and in slot 0xFF the frame fits |
| VirtualMemory.Machine.GetEntry | sys/memory/vmemory.c:391-410 | returns the entry of the flat page map, also in slot 0xFF, except where its own window gets in the way |
| VirtualMemory.Machine.Resolve | sys/memory/vmemory.c:435-463 | the frame of the entry and the offset in the page of a mapped address, 0 otherwise, if and only if the read does not meet its own window; no page differs if and only if the frames that its windows take, given before the call, hold no old entry |
| VirtualMemory.Machine.MapRange | sys/memory/vmemory.c:520-534 | consecutive pages hold consecutive words and no other page of any directory differs, exactly under a condition on the frames before the call |
| VirtualMemory.Machine.SearchUser | sys/memory/vmemory.c:73-135 | the user's search, each table through a window of its own, finds the first start at which the count is reached, if the 32-bit sum test accepts it; its windows take one frame at most, and none if no table is visited |
| VirtualMemory.Machine.SearchBoth | sys/memory/vmemory.c:198-281 | the two-sided search, with its windows: the first start in what it sees, where the open window and what a new table uncovers look mapped; its windows take one frame at most |
| VirtualMemory.Machine.AllocLimit | sys/memory/vmemory.c:622-643 | the first run that the search accepts is mapped, or 0 only if it accepts none; it ends below the upper limit or with the address space; it holds consecutive frames and no other page differs if and only if the frames taken for tables, given before the call, hold no old entry and the frames for pages of slot 0xFF fit |
| VirtualMemory.Machine.Alloc | sys/memory/vmemory.c:599-620 | the same between the lowest and the highest page |
| VirtualMemory.Machine.Release | sys/memory/vmemory.c:663-685 | the given pages are unmapped, with every page of a slot whose entry is among them; no other page differs if and only if the frames taken for tables, given before the call, hold no old entry and no other page of such a slot was mapped |
| MemoryInstances.MisreadHappens | sys/memory/vmemory.c:391-410 | a state within the contract of Resolve in which an unmapped address of the kernel resolves to a page table |
| MemoryInstances.OldEntryAppears | sys/memory/vmemory.c:324 | a state in which mapping one page maps another one |
| MemoryInstances.WindowUncovers | sys/memory/vmemory.c:369-389 | opening and closing a window that needs a table leaves every old entry of its frame past the cleared part mapped in the kernel |
| MemoryInstances.WindowNeedsTable | sys/memory/vmemory.c:369-389 | a state in which the next window needs a table and its frame holds an old entry |
| MemoryInstances.DirectoryOverwritten | sys/memory/vmemory.c:599-620 | within the contract of Alloc, with 300 free frames: 0x3FC00 pages in a user directory without tables get page 1, the run ends in slot 0xFF, and its first 1023 pages are lost; the run meets the contract of Release |
| MemoryInstances.PastTheEnd | sys/memory/vmemory.c:130 | 1024 pages from 0xFFC00 on get a run that ends with the address space, past the upper limit; from 0xFFC01 on one that goes past its end |
| MemoryInstances.WindowPageSkipped | sys/memory/vmemory.c:218-249 | page 2 is free in both directories, and the two-sided search for one page comes to page 3 |
| Introsort.SiftRestoresHeap | sys/container/array.c:240-262 | sifting down restores the heap order below a node |
| Introsort.SiftDown | sys/container/array.c:240-262 | the loop in place computes Sift |
| Introsort.HeapSort | sys/container/array.c:264-283 | the first n elements become an ascending permutation of themselves, nothing else is touched |
| Introsort.IsSorted | sys/container/array.c:223-237 | recognises ranges in which no element is below its successor |
| Introsort.Partition | sys/container/array.c:286-314 | everything before the pivot is at most the pivot, everything after it is above, the range is permuted and the rest untouched |
| Introsort.QuickSort | sys/container/array.c:316-335 | terminates by depth, stays in range for pivot 0, permutes the array, touches nothing above the range and nothing at all for an empty one |
| Introsort.InsertionSort | sys/container/array.c:338-355 | ascending permutation |
| Introsort.LogBase2 | sys/container/array.c:357-366 | the integer logarithm |
| Introsort.Sort | sys/container/array.c:368-377 | for every array and every total preorder: an ascending permutation of the input |
| HashSet.HashTable.constructor | sys/container/hashset.c:41-76 | an empty table with the capacity of the chosen row: the largest that does not exceed the request, or the smallest |
| HashSet.HashTable.FindBucket | sys/container/hashset.c:116-158 | the first bucket of the key's chain whose key compares equal |
| HashSet.HashTable.ObjectForKey | sys/container/hashset.c:248-252 | computes Lookup |
| HashSet.HashTable.RehashTo | sys/container/hashset.c:160-203 | computes Rehash |
| HashSet.HashTable.RemoveObjectForKey | sys/container/hashset.c:254-265 | computes Remove, with the shrinking |
| HashSet.HashTable.SetObjectForKey | sys/container/hashset.c:267-283 | computes Set, with the growing |
| HashSet.LookupRefines | sys/container/hashset.c:248-252 | for every key, NULL included, lookup returns the map's value for an equal key, NULL without one |
| HashSet.RehashRefines | sys/container/hashset.c:160-203 | rehashing to any capacity stands for the same map if and only if nothing is stored under NULL |
| HashSet.SetRefines | sys/container/hashset.c:267-283 | set is that of the map (adds, leaves a present key, removes for a NULL object, counts) if and only if the step is safe: no growth with an object under NULL, no wrap of the count, NULL equal to itself |
| HashSet.RemoveRefines | sys/container/hashset.c:254-265 | remove is that of the map if and only if it is safe: no blank bucket for NULL is blanked again, and the object under NULL is neither rehashed nor hidden |
| HashSet.RunRefines | sys/container/hashset.c:116-283 | any run of set and remove on any keys behaves like the finite map of the same run at every step if and only if every step is safe in the table it finds |
| HashSet.KeyedRunSafe | sys/container/hashset.c:116-283 | every run of fewer than 2^32 - 1 operations without the NULL key is safe |
| HashLoad.RunRow | sys/container/hashset.c:205-236 | in every safe run on a new table, the number of chains follows the numbers of keys alone (up a row when an added key reaches the limit, down one when after a removal the row below would do), and all but the largest table have more chains than keys |
| HashSet.RootIsLost | sys/container/hashset.c:185-196 | for every table with an object under NULL: a set that makes it grow loses the object, and the count still includes it |
| HashSet.RootIsLostAtOnce | sys/container/hashset.c:185-196 | the root under NULL and three more nodes in a new table of capacity 5: the root is lost |
| HashSet.RemoveNullKey | sys/container/hashset.c:254-265 | with NULL equal to NULL, removing NULL is that of the map if and only if an object is stored under it or its chain holds no removed bucket |
| HashSet.RemoveNullKeyMiscounts | sys/container/hashset.c:254-265 | a run after which the count has wrapped to 2^32 - 1 |
| HashSet.TableIterator.NextObject | sys/container/hashset.c:290-328 | yields the pending objects one by one |
| HashIteration.BatchIterator.Fetch | sys/container/hashset.c:330-345 | the answers up to the limit or the first NULL, which is used up |
| HashIteration.BatchIterator.NextObject | sys/container/iterator.c:49-63 | the next answer of the batches to come, NULL when a batch is empty |
| HashIteration.BatchIterator.Collect | sys/container/iterator.c:49-63 | a loop to the first NULL meets exactly these answers |
| HashIteration.MetExactly | sys/container/hashset.c:330-345 | a loop meets all answers if and only if none of them is NULL |
| HashIteration.IterationComplete | sys/container/hashset.c:290-345 | over an undisturbed table, a loop over objects meets every pair of the map exactly once; over keys if and only if nothing is stored under NULL |
| HashSet.IterationMeetsAll | sys/container/hashset.c:290-345 | an undisturbed iteration meets each pair of the map exactly once |
| Scheduler.AdvanceCloser | sys/scheduler/scheduler.c:180-186 | every departure brings each runnable thread one place closer |
| Scheduler.PassCloser | sys/scheduler/scheduler.c:156-194 | the measure by which the selection loop ends when some thread can run |
| SchedulerProofs.CallConserves | sys/scheduler/scheduler.c:114-201 | a whole call, with its recursive reaping, keeps every process on exactly one of the run and dead lists and every thread on exactly one list |
| SchedulerProofs.CallKeepsFirst | sys/scheduler/scheduler.c:131-152 | the first process is never removed if it and its main thread never die |
| SchedulerProofs.ChosenMayRun | sys/scheduler/scheduler.c:156-201 | the chosen thread is unblocked and within its quantum, and alive if no dead thread is asleep |
| SchedulerDeath.DeadChosenExactly | sys/scheduler/scheduler.c:114-201 | a call chooses a dead thread under some clock if and only if the rotation in which sleepers sleep on meets a dead sleeper that nothing else blocks before a thread that can be selected |
| SchedulerDeath.DeadProcessChosenExactly | sys/scheduler/scheduler.c:114-201 | a call chooses a thread of a dead process under some clock if and only if the rotation in which the sleepers of dead processes wake comes, in a dead process, to a thread that stops the loop |
| SchedulerDeath.RotationLeads | sys/scheduler/scheduler.c:156-194 | until it gets there, that rotation is alike to every run of the loop under every clock |
| SchedulerDeath.DeadProcessChosen | sys/scheduler/scheduler.c:131-152 | a state from which a thread of a dead process is chosen |
| SchedulerProofs.DeadSleeperChosen | sys/scheduler/scheduler.c:173 | a state from which a dead thread is chosen |
| SchedulerProofs.EnteredDeadExactly | sys/scheduler/scheduler.c:131-152 | the process that a call charges first is dead if and only if the call reaped one and the next is dead |
| SchedulerProofs.CallRank | sys/scheduler/scheduler.c:114-201 | with nobody dead, every call lowers the rank of every waiting runnable thread |
| SchedulerProofs.YieldRank | sys/scheduler/scheduler.c:203-212 | a call by a thread that yields lowers it to ten ticks per departure |
| SchedulerProofs.BoundedWaiting | sys/scheduler/scheduler.c:156-212 | in every run of calls, a thread that stays runnable is chosen within 10 x processes x threads of its process calls, whatever the others do, also with yields that do not get the lock |
| SchedulerLaws.DeadProcessLeaves | sys/scheduler/scheduler.c:131-159 | a process that is dead, or whose dead main thread runs, leaves with all its threads and heads the dead processes, and the next process is charged |
| SchedulerLaws.DeadThreadLeaves | sys/scheduler/scheduler.c:131-159 | a dead thread that is not the main thread of a living process leaves its process, heads the dead threads, and the next thread is charged |
| SchedulerLaws.NobodyLeaves | sys/scheduler/scheduler.c:131-159 | with a living process and thread nobody leaves, and the thread is charged one tick |
| SchedulerLaws.CallReaps | sys/scheduler/scheduler.c:114-201 | over a whole call: a dead running thread joins the dead threads, its process the dead processes if that is dead or the thread was its main thread, and otherwise only dead processes follow |
| SchedulerLaws.StaysExactly | sys/scheduler/scheduler.c:158-160 | a living thread keeps the processor if and only if it is not blocked and has more than this tick left |
| SchedulerLaws.LeftExactly | sys/scheduler/scheduler.c:160-186 | the thread that is left starts its ticks again and wakes exactly at a reading that is not below its alarm; its process goes on to the next thread and the loop to the next process, in a circle, and nothing else changes |
| SchedulerLaws.CallSleeps | sys/scheduler/scheduler.c:114-201 | over a whole call whose readings stay below a sleeper's alarm, the sleeper sleeps on, unless the call ends at it because it is dead |
| SchedulerMachine.Machine.ReapDead | sys/scheduler/scheduler.c:131-152 | computes Reap, whose effect on the lists SchedulerLaws states |
| SchedulerMachine.Machine.LeaveThread | sys/scheduler/scheduler.c:158-186 | one pass: the running thread leaves, or the loop stops at it |
| SchedulerMachine.Machine.Select | sys/scheduler/scheduler.c:114-201 | loop and recursion terminate and compute the selection, from consecutive readings of the clock |
| SchedulerMachine.Machine.Schedule | sys/scheduler/scheduler.c:114-201 | without the lock nothing changes; otherwise conservation and a thread that may run |
| SchedulerMachine.Machine.Yield | sys/scheduler/scheduler.c:203-212 | the same after giving up the quantum; without the lock the quantum is spent and nothing else changes |
| SchedulerMachine.Machine.SetPriority | sys/scheduler/thread.c:635-643 | the thread's quantum is the priority clamped to 1..10, and nothing else changes |
| SchedulerMachine.Quantum | sys/scheduler/thread.c:635-643 | the priority clamped to 1..10 |
| SchedulerMachine.Machine.Attach | sys/scheduler/thread.c:101-121 | the new thread is second, behind the main thread, all others keep their order, and the same one runs on |
| SchedulerMachine.Machine.CollectProcesses | sys/scheduler/scheduler.c:47-56 | hands over the dead processes, none lost |
| SchedulerMachine.Machine.CollectThreads | sys/scheduler/scheduler.c:58-67 | hands over the dead threads, none lost |
| ThreadBlocking.ThreadTable.AttachListener | sys/scheduler/thread.c:470-488 | the listener goes to the end of the list, one-shot if it blocks, and a blocking one blocks its thread once; nothing else changes, and the account is kept |
| ThreadBlocking.ThreadTable.Notify | sys/scheduler/thread.c:490-519 | exactly the one-shot listeners for the event go, every blocking one releases its thread once, nothing else changes, and the account is kept |
| ThreadBlocking.KeptInOrder | sys/scheduler/thread.c:490-519 | the listeners that stay keep their order |
| ThreadBlocking.ThreadTable.Join | sys/scheduler/thread.c:522-532 | a blocking listener for the exit |
| ThreadBlocking.ThreadTable.Sleep | sys/scheduler/thread.c:534-544 | a thread that is awake sleeps until now + time and is blocked once; one that sleeps has its alarm put off and is not blocked again; nothing else changes |
| ThreadBlocking.ThreadTable.Wakeup | sys/scheduler/thread.c:546-554 | a sleeper is awake, without an alarm and unblocked once; nothing changes for any other thread |
| ThreadBlocking.ThreadTable.Expire | sys/scheduler/scheduler.c:162-176 | a sleeper whose alarm is not later than the clock is awake and unblocked once; nothing else changes |
| ThreadBlocking.RunAccounted | sys/scheduler/thread.c:470-554 | over any run, blocks is (1 if sleeping) plus the pending blocking listeners that name the thread, modulo 256 |
| ThreadBlocking.SleepsAddUp | sys/scheduler/thread.c:534-544 | a second sleep before the first has ended prolongs it, modulo 2^64 |
| ThreadBlocking.SleepsExactly | sys/scheduler/thread.c:534-544 | over every run: a thread put to sleep at a time and left alone sleeps on if and only if no look at the clock has shown that time plus the duration or later |
| ThreadBlocking.JoinerWaits | sys/scheduler/thread.c:490-532 | until the exit of its target is signalled a joiner has a reason to wait, over any run, and is blocked exactly when its reasons do not wrap the counter |
| Joining.JoinerChosenExactly | sys/scheduler/thread.c:490-532 | over any run, before the exit of its target is signalled: some call of the scheduler chooses the joiner if and only if its listeners vanish in the eight-bit counter, or wrap it together with a sleep; fewer than 256 reasons never do |
| Joining.ChosenExactly | sys/scheduler/scheduler.c:160-190 | the same of any thread with any listeners |
| Joining.WrappedJoinerChosen | sys/scheduler/thread.c:490-532 | a thread with 256 pending joins that is chosen, asleep or not |
| ThreadBlocking.WrappedCounter | sys/scheduler/thread.c:480-484 | with 256 pending joins the thread may run |
| SymbolTable.SymbolWithName | bin/linkd/library.c:254-269 | the first symbol of that name on the chain, for any well-formed table |
| SymbolTable.FirstNamedIsFirst | bin/linkd/library.c:254-269 | of several symbols of that name on the chain it is the first |
| SymbolTable.ChainLookupIsScan | sys/ioglue/iolibrary.c:77-92 | the chain walk finds a name if and only if a scan of all hashed symbols would |
| DependencySearch.Search | sys/ioglue/iostore.c:61-84 | in any store, where the search ends after some number of levels, the worklist loop terminates and returns the first provider in breadth-first order |
| DependencySearch.LoopGoesOn | sys/ioglue/iostore.c:61-84 | where no number of levels ends the search, every state of the loop has a library left to visit |
| DependencySearch.SearchEnds | sys/ioglue/iostore.c:61-84 | for every dependency graph: the search ends if and only if a library below offers the name or no path comes back to where it has been |
| DependencySearch.SearchFindsNearest | sys/ioglue/iostore.c:61-84 | the provider is one of least depth over all dependency paths, and there is none if and only if no library that can be reached offers the name with an address |
| DependencySearch.OfferAtLevel | sys/ioglue/iostore.c:61-84 | it is the first in list order of its depth |
| SearchOrder.SearchTakesFirstWay | sys/ioglue/iostore.c:61-84 | the provider is the library at the end of the first way to an offer: the shortest, and of these the first in the order in which the libraries name their dependencies at each step |
| SearchOrder.OneFirstWay | sys/ioglue/iostore.c:61-84 | and this is one way only |
| DependencySearch.LookupSymbol | sys/ioglue/iostore.c:35-96 | local symbols, then the kernel, then a provider of least depth over all dependency paths, and the library's own offer if and only if none below it offers the name; none exactly when there is no offer either |
| DependencySearch.SearchEndsExactly | sys/ioglue/iostore.c:61-84 | in every store that adding libraries can build: the search for a name nobody offers ends if and only if neither the library nor one below it needs itself |
| DependencySearch.SelfNeedSpreads | sys/ioglue/iostore.c:61-84 | a library that needs one that needs itself searches for ever, for every such store |
| DependencySearch.LibraryStore.Resolve | sys/ioglue/iolibrary.c:321-337 | every needed name is resolved to a library of that name, or one that is missing is reported |
| DependencySearch.LibraryStore.Add | sys/ioglue/iostore.c:189-213 | a known name changes nothing; a new library needs older libraries, and itself if and only if it names itself |
| PltBinding.FindSymbol | bin/linkd/library.c:204-252 | a local symbol itself, else the offer of the main program, without one that of the first direct dependency with an offer, and without any that of the library itself; none if and only if nobody has an offer |
| PltBinding.FoundIsMeant | bin/linkd/library.c:204-252 | the order of the search as the four cases in which a symbol is meant |
| PltBinding.TargetStandsFor | bin/linkd/reloc.c:91-121 | the target is where the library that has the symbol meant was loaded plus the symbol's value, modulo 2^32, and is missing if and only if nobody offers the name |
| PltBinding.Linker.RelocateEntry | bin/linkd/reloc.c:91-121 | the word at the library's base plus the entry's offset becomes the address that the entry stands for, and no other word changes; without one nothing does |
| PltBinding.Linker.Bind | bin/linkd/reloc.c:123-133 | the same, called by the stub, and that address is returned |
| PltBinding.Linker.RelocateEagerly | bin/linkd/reloc.c:135-146 | binds all entries in order, up to the first without a target |
| PltBinding.Linker.RelocateLazily | bin/linkd/reloc.c:148-158 | moves every slot by the base |
| PltBinding.LazySlot | bin/linkd/reloc.c:148-158 | with different slots, every slot leads to its stub |
| PltBinding.BoundWord | bin/linkd/reloc.c:91-146 | after any run of binds, with repeats, a slot holds its target once bound and all other words are untouched |
| PltBinding.LazyIsEagerExactly | bin/linkd/reloc.c:91-158 | lazy setup and binding in any order leaves the memory of eager relocation if and only if entries that share a slot resolve alike |
| PltBinding.SharedSlotDisagrees | bin/linkd/reloc.c:91-158 | an image with a shared slot in which lazy and eager binding differ |
| RemoteCommand.InvRun | libkernel/libio/IORemoteCommand.cpp:38-117 | the invariant of every interleaving of the caller with the run loop |
| RemoteCommand.TimeoutMeansNotRun | libkernel/libio/IORemoteCommand.cpp:73-117 | a request that returned Timeout has not been carried out |
| RemoteCommand.TimeoutIsFinal | libkernel/libio/IORemoteCommand.cpp:73-117 | and never will be, however the run goes on |
| RemoteCommand.TimesOutExactly | libkernel/libio/IORemoteCommand.cpp:73-117 | after every run, the next request can be answered with Timeout if and only if it has a time limit and no request has been carried out before |
| RemoteCommand.SuccessMeansRunOnce | libkernel/libio/IORemoteCommand.cpp:38-117 | up to the first success, Success means that the action ran to completion exactly once, with that request's arguments |
| RemoteCommand.SuccessIsHonestExactlyBefore | libkernel/libio/IORemoteCommand.cpp:81-93 | the answer to the next request can be trusted if and only if no request has been carried out before |

## Left out

- AA tree iterators and atree_destroy: the iterators emit the root twice, and destruction only frees.
- Out-of-memory branches: node creation, zone creation and frame allocation succeed in the model; the page-table operations require enough frames in the pool and free kernel pages below the recursive slot for their windows.
- VirtualMemory.Machine.AllocLimit: where the run meets slot 0xFF, the frames for those pages are neither tables nor directories nor free, and the run does not hold the directory's entry for itself (which a run of free pages never does). A run that goes past the end of the address space is left out: the mapping of page 0 fails an assertion there (vmemory.c:295). Alloc never gets such a run (PageRanges.StaysInside).
- VirtualMemory.Machine.MapRange: a page of slot 0xFF that is mapped needs such a frame, and a page of the slot that is unmapped must not be the entry of a table that the same run needs again above the slot.
- VirtualMemory.Machine.Release: the same, so a run that unmaps the entry of a slot above 0xFF and then pages of that slot is not covered.
- vm_allocTwoSidedLimit, vm_createDirectory, vm_deleteDirectory, DMA and boot-time mapping: they only combine the modelled operations.
- ZoneHeap.Heap.Alloc: claims no alignment, and heap_create and heap_destroy are not modelled.
- Introsort.Sort: requires fewer than 2^30 elements, the most that fit a 32-bit address space; array growth and the other array operations are not modelled.
- SchedulerMachine.Machine.Select: a runnable thread must exist, since otherwise the loop does not end; stack pointers, the trampoline and wasNice are not modelled.
- SchedulerProofs.BoundedWaiting: for a fixed population, as nothing bounds the wait while threads are added; and for a running thread that does not shorten its quantum, fail to yield and lengthen it again between two calls, which gives it ticks back.
- SchedulerDeath.DeadChosenExactly: the clock may give any readings, also ones that go back.
- ThreadBlocking.ThreadTable.Notify: listener callbacks are not modelled, and the listener list is a sequence, because sys/container/list.c:182 breaks its own links.
- DependencySearch.LibraryStore.Add: relocation and the reference counts are not modelled, nor the removal after a failed relocation, which goes through the tree's removal and has the effect that AATree.RemovedKey states.
- PltBinding.Linker.RelocateEntry: R_386_RELATIVE and the non-PLT relocations are not modelled, since they read an unset container.
- RemoteCommand.InvRun: one caller; the call made on the run loop's own thread and executeAction's exchange of the action are not modelled.
- Boot, interrupts, drivers, file systems, system calls, mmap bookkeeping, string and number formatting: hardware access, or easier members.
