# Verified model of the SOSAL data structures and concurrency layer

SOSAL is the portable operating-system layer of this repository
(`source/sosal`).  This project models its stateful core in Dafny and proves
properties of it.  `dafny verify dfyconfig.toml` checks everything.

| file | what it models |
|---|---|
| `BTreeList.dfy` | the balanced search tree threaded through a sorted list (`btreelist.c`): the class with its `next`/`prev`/`left`/`right` links, and what its operations mean on the sorted sequence |
| `List.dfy` | the intrusive doubly linked list (`list.c`): sorted insertion, extraction, search and scoring; `ListOrder` holds what they mean on sequences |
| `HeapModel.dfy`, `Heap.dfy`, `HeapLayout.dfy` | the best-fit allocator (`heap.c`): its meaning on sequences of blocks, the class over three linked lists that refines it, and the placement of the heap in the caller's buffer |
| `BestFit.dfy`, `HeapFray.dfy` | what the allocator promises and does not keep: when its choice is the best fit, and how coalescing loses memory |
| `Ring.dfy`, `Event.dfy`, `Channel.dfy`, `Queue.dfy` | the byte ring (`ring.c`), the event (`event.c`, POSIX branch), what a message queue means, and the class over ring and events (`queue.c`) that refines that meaning |
| `QueueThreads.dfy` | the waits and mutex sections of one queue as a state machine: one reader, any number of writers, popped, unpopped, disabled and enabled at any time |
| `ThreadPool.dfy`, `PoolIssue.dfy`, `PoolProgress.dfy` | the thread pool (`threadpool.c`) as a state machine over atomic steps: any number of workers and issuers, any interleaving; what an issue gets accepted and where it goes; and that the work comes to an end |
| `Hash.dfy` | the chained hash table (`hash.c`) against a finite map |
| `CacheLines.dfy`, `Cache.dfy` | the line cache (`cache.c`) against a flat array of bytes: what its lines mean and what runs of operations make of them, and the class that does it |
| `RpcSocket.dfy` | packing and unpacking of remote calls (`rpc_socket.c`) |
| `Bytes.dfy`, `Arithmetic.dfy` | bytes and patches; products and remainders |

Two forms appear side by side.  Code that changes state in place is a class
whose methods are proved against a specification function (`Channel.Write`,
`HeapModel.Alloc`, `ListOrder.InsertPosition`, ...); what the source promises is
then proved about those functions, for all states and all runs.

## What the code does that one would not expect

Each of these is a theorem below.  Where a promise fails, the exact condition
under which it is kept is proved, and where that does not show a failing input by
itself, a lemma gives one.

* **Coalescing loses memory.** `heap_init` always turns coalescing on
  (`source/sosal/heap.c:288`).  A merge clears a list node without returning it
  to the spare list, and if that node was the last one the free list's tail goes
  on showing it.  Extracting the last free block later goes through
  `list_trim`, which hands out the cleared node and empties the list.  The model
  keeps this behaviour (`stale`, `leaked`, `lost`); `CoalesceLosesMemory` is a
  run of five calls after which a request that fits exactly returns NULL and
  takes all free memory with it.  The node that a merge clears is missing for
  later splits, too: after four calls a heap refuses 32 of its 64 free contiguous
  bytes (`LeakedNodeRefuses`).  The tiling, alignment and byte-conservation
  invariant holds under both policies once lost blocks are counted in; with
  coalescing off nothing is ever lost and NULL means that nothing fits.
* **Best fit is decided by a 32-bit score**, which wraps around when a block is
  4 GiB larger than the request.  Heaps of a given size choose the lowest of the
  smallest blocks that fit, for every request, if and only if their blocks come
  to at most 4 GiB and one alignment unit (`BestFitExactly`); above that there is
  a heap that chooses wrong (`CrowdedInv`, `CrowdedIsWrong`).  The score never
  calls a fitting block worthless, because block sizes are even.
* **A tiny buffer makes `heap_init` dereference NULL**: exactly when one block is
  to be had and its padding cannot align it (`HeapInit`, with `TinyBuffer` as an
  example).
* **A blocking queue call can return true without a message**, exactly when it
  finds the queue disabled and not popped when it gets the lock
  (`TrueWithoutTransfer`, and `BlockingReads` for any interleaving).  The queue may
  be disabled between the call's wait and its lock (`DisableBetweenWaitAndLock`), or
  long before the call: popping and unpopping a disabled queue sets its events again
  (`DisableBeforeTheCall`).  First-in-first-out holds over exactly the runs without
  such a write and without a reset that throws messages away (`Fifo`, `InOrder`).
* **`queue_reset` keeps `msgCount`.**  `queue_length` tells the number of waiting
  messages if and only if every reset so far has met an empty queue
  (`CountIsLength`); a write and a reset are enough to make it wrong
  (`WriteThenReset`).
* **A blocking read can come back empty from a queue that was never popped during
  the call**: `queue_unpop` takes the flag back before it clears the event, and a
  reader that calls in between passes its wait.  In every reachable state a read
  that begins there can fail without a pop if and only if the flag has just been
  taken back, the events of the pop still show and the queue is empty
  (`FailsExactly`); `UnpopRace` reaches that state in two steps.
* **A disable hides a pop**: it clears the events that the pop has set, and a
  waiting reader sleeps on although the queue is popped, even when it is enabled
  again (`DisableHidesPop`).  Otherwise no wake-up is lost (`NoLostWakeUp`,
  `NoLostRoom`).
* **A queue for no messages** starts with its write event set (`CreatedAgrees`).
* **A zero-length write to a full ring fails an assertion**, and nothing else
  does (`RingBuffer.Write`).
* **A queue for messages of no bytes** stops at that assertion on its first open
  write, and a read on it reports a message that is not there and counts it
  (`Queue.Write`, `Queue.Read`).
* **A short cache access that crosses a line boundary copies out of bounds**
  (`InLinesIff`, for example `OverTheEnd`), and so does any that has to evict a
  line.  `Cache.Read`, `Cache.Write` and `Cache.Run` tell `safe` from not exactly.
* **A cache write that misses does not fetch the rest of its line**; it brings
  along what the line taken into use last held.  A write is one to the flat array
  if and only if `Faithful` holds of the lines beforehand (`LandedIff`), and over any
  run the cache is a flat array throughout if and only if each of its writes is
  faithful when it comes (`AgreesIff`); a write, a flush and a short write are
  enough to corrupt the array (`ShortWriteCorrupts`).
* **Packing a remote call overruns its packet** when the 32-bit sum of an offset
  and an item's length wraps to something that seems to fit, and only then
  (`Pack`, for example `HugeItem`); receiving one trusts the lengths in it, which is
  in order exactly when the items stay inside the packet, the receiver's item array
  and the memory that its items bring (`Recv`; `ItemMissing` leads out of the packet,
  `ShortReply` out of the caller's own buffer).
* **The comparator that the kernel-graph RPC code supplies** for ranges is not
  transitive on its 0 answers; the tree needs transitivity of the strict part
  only, which it has (`SuppliedComparatorsAreLawful`).

## Model

| member | source | states |
|---|---|---|
| `BTreeOrder.AddIsSetInsert` | source/sosal/btreelist.c:100-167 | adding to a strictly sorted list keeps it strictly sorted, puts the item in unless one clashes with it, and then changes nothing |
| `BTreeOrder.RemoveIsSetDelete` | source/sosal/btreelist.c:199-223 | removing takes out the one item the value finds and leaves the others in strict order; nothing found, nothing changed |
| `BTreeOrder.AddThenRemove` | source/sosal/btreelist.c:163-223 | removing what was just added, by a value that finds it, gives the old list back |
| `BTreeOrder.RunStaysSorted` | source/sosal/btreelist.c:163-223 | after any run of adds and removes the list is strictly sorted |
| `BTreeOrder.SuppliedComparatorsAreLawful` | source/sosal/btreelist.c:259-280 | the comparator pairs this file and the kernel-graph RPC code (source/dvp/dvp_kgraph/dvp_rpc_omaprpc.c:148-171) supply meet what the tree needs: strict order, antisymmetry, agreement of the two; a range answers to exactly the addresses in it, and two ranges clash exactly if they overlap |
| `BTreeShape.BitLengthIsLog` | source/sosal/btreelist.c:44-95 | the height bound used below is floor(log2(count)) + 1 |
| `BTreeShape.BalancedInOrder` | source/sosal/btreelist.c:44-95 | the in-order traversal of the tree a rebuild makes is the sequence of slots |
| `BTreeShape.BalancedHeight` | source/sosal/btreelist.c:44-95 | the height of that tree is floor(log2(count)) + 1 |
| `BTreeShape.BalancedIff` | source/sosal/btreelist.c:44-95 | it is the only tree over those slots in which every node's left half is as large as its right one or larger by one |
| `BTreeList.BTreeList.constructor` | source/sosal/btreelist.c:242-252 | a new tree is empty and valid |
| `BTreeList.BTreeList.Refill` | source/sosal/btreelist.c:24-42 | the array is filled with the nodes in list order |
| `BTreeList.BTreeList.Rebtree` | source/sosal/btreelist.c:44-98 | for every count the centre and length arithmetic stays in range, terminates and links exactly the slots from center - count/2 on into the balanced tree |
| `BTreeList.BTreeList.Fork` | source/sosal/btreelist.c:66-94 | hanging two rebuilt halves below a node wires the whole range |
| `BTreeList.BTreeList.LinkNext` | source/sosal/btreelist.c:131-142 | the list gains the node right behind the leaf reached; links, tail and count agree |
| `BTreeList.BTreeList.LinkPrev` | source/sosal/btreelist.c:148-159 | the list gains the node right before the leaf reached; links, head and count agree |
| `BTreeList.BTreeList.LinkFirst` | source/sosal/btreelist.c:104-113 | the first node becomes root, head and tail |
| `BTreeList.BTreeList.Insert` | source/sosal/btreelist.c:100-161 | descending the tree alone finds the place in list order, or an item that clashes, and then nothing is linked |
| `BTreeList.BTreeList.Add` | source/sosal/btreelist.c:163-167 | the items become those a scan of the list would give; every invariant of list, array and tree holds again |
| `BTreeList.BTreeList.LookupIsScan` | source/sosal/btreelist.c:169-183 | the search of a subtree ends at the node a linear scan of the list finds, or at NULL if the scan finds none |
| `BTreeList.BTreeList.ProbesBound` | source/sosal/btreelist.c:169-183 | a search makes at most floor(log2(count)) + 1 comparisons |
| `BTreeList.BTreeList.Find` | source/sosal/btreelist.c:185-197 | the node found is the one the linear scan finds |
| `BTreeList.BTreeList.Unlink` | source/sosal/btreelist.c:208-218 | exactly the node leaves the list, its links cleared; head, tail and count agree |
| `BTreeList.BTreeList.Remove` | source/sosal/btreelist.c:199-223 | the node found leaves, the items become those the scan gives, no other node comes or goes, all invariants hold again |
| `BTreeList.ThreeViews` | source/sosal/btreelist.c:20-223 | in every valid tree the next chain from head, the reversed prev chain from tail and the in-order traversal from root are the same strictly sorted sequence of length count, and the tree has height floor(log2(count)) + 1 |
| `BTreeList.Run` | source/sosal/btreelist.c:163-223 | any run of adds and removes on the linked structure yields the items of the same run of scans |
| `ListOrder.InsertAlways` | source/sosal/list.c:159-251 | with a total preorder the insertion scan finds a place in any list, sorted or not, in either direction |
| `ListOrder.InsertBetween` | source/sosal/list.c:177-250 | in a sorted list nothing before that place comes after the node and nothing behind it comes before |
| `ListOrder.InsertExactly` | source/sosal/list.c:177-250 | which place that is among equals: in front of all of them, or behind the first if that one is the head |
| `ListOrder.InsertMeaning` | source/sosal/list.c:159-285 | insertion adds exactly one node, keeps a sorted list sorted in either direction, and cutting the node out restores the list |
| `ListOrder.CutThenSplice` | source/sosal/list.c:253-285 | extraction takes exactly one node, and putting it back restores the list |
| `ListOrder.BestIsUnique` | source/sosal/list.c:326-357 | the first position of the highest positive score is unique |
| `List.List.Append` | source/sosal/list.c:59-77 | the node becomes the last one; links and both ends agree |
| `List.List.Trim` | source/sosal/list.c:80-106 | the tail node comes out; with a stale tail that is the stale node and the list is emptied |
| `List.List.Push` | source/sosal/list.c:109-127 | the node becomes the first one |
| `List.List.Pop` | source/sosal/list.c:130-156 | the first node comes out with its links cleared, or NULL from an empty list |
| `List.List.Insert` | source/sosal/list.c:159-251 | the node is spliced in at the place the scan finds, all links, head and tail agree, also beside a stale tail |
| `List.List.Extract` | source/sosal/list.c:253-285 | exactly the node leaves; only for the last of several nodes of a list with a stale tail the stale node comes out instead and the list is lost |
| `List.List.RemoveMatch` | source/sosal/list.c:288-304 | the first matching node leaves, or nothing changes |
| `List.List.Search` | source/sosal/list.c:307-324 | the first node whose datum matches, or NULL |
| `List.List.Score` | source/sosal/list.c:326-357 | the first node of the highest positive score, or NULL if no score is positive |
| `List.List.Length` | source/sosal/list.c:359-374 | the number of nodes |
| `List.List.UnlinkNext` | source/sosal/heap.c:525-540 | the merge's hand-written unlinking takes out the next node and leaves the tail stale exactly when that node was the last (or the tail was stale before) |
| `HeapModel.BlockSizeRounds` | source/sosal/heap.c:70-78 | the rounded size is the least multiple of the alignment that is enough |
| `HeapModel.ComparePtrIsTotal` | source/sosal/heap.c:81-102 | comparing by address is a total preorder |
| `HeapModel.FitScores` | source/sosal/heap.c:115-131 | for even sizes the 32-bit score is positive exactly when the block is large enough |
| `HeapModel.SplitPiece` | source/sosal/heap.c:399-430 | cutting a block in two keeps the tiling |
| `HeapModel.GluePieces` | source/sosal/heap.c:519-542 | merging two neighbours keeps the tiling |
| `HeapModel.InitInv` | source/sosal/heap.c:268-344 | a new heap satisfies the invariant |
| `HeapModel.AllocInv` | source/sosal/heap.c:364-454 | an allocation keeps the invariant: blocks disjoint, aligned, inside and covering the region; lists sorted by address; bytes and nodes accounted for |
| `HeapModel.FreeInv` | source/sosal/heap.c:461-546 | so does a free, whether it merges or not |
| `HeapModel.RunInv` | source/sosal/heap.c:364-546 | so does every run of allocations and frees, under either policy |
| `HeapModel.AllocGives` | source/sosal/heap.c:364-454 | a pointer handed out is aligned, not NULL, inside the region with at least the bytes asked for, and shares none of them with any block in use; exactly that block is added to those in use |
| `HeapModel.AllocTakes` | source/sosal/heap.c:364-454 | it is the front of a free block, whose rest, if there is any, is free again for one spare node; no other free block changes |
| `HeapModel.AllocRefused` | source/sosal/heap.c:364-454 | without a pointer the blocks in use, the free blocks and the counters are as before, unless the best fit is the last of several behind a stale tail: then all free blocks are lost |
| `HeapModel.NothingFits` | source/sosal/heap.c:115-151 | the scored search finds a block exactly when one is large enough |
| `HeapModel.AllocNull` | source/sosal/heap.c:364-454 | NULL exactly when nothing was asked for, nothing fits, the best fit sits behind a stale tail, or it must be split without a spare node |
| `HeapModel.SpareSuffices` | source/sosal/heap.c:400-415 | while no node has leaked, a block that can be split leaves a spare node: the "not enough spare nodes" branch is unreachable |
| `HeapModel.AllocNullPlain` | source/sosal/heap.c:364-454 | with coalescing off, NULL exactly when nothing was asked for or nothing fits, and then the heap is unchanged |
| `HeapModel.FreeGives` | source/sosal/heap.c:461-510 | a free succeeds exactly for the address of a block in use, which then is no longer in use; otherwise nothing changes |
| `HeapModel.FreeMerges` | source/sosal/heap.c:513-543 | with coalescing on, a free block that ends where the freed one begins becomes one block with it; failing that, one that begins where it ends does; either merge leaks a node, and leaves the tail stale if no free block lies behind; otherwise, or with coalescing off, the freed block joins the free ones as it is and no node leaks |
| `HeapModel.Partition` | source/sosal/heap.c:364-546 | in every valid heap a byte of the region is free, in use or lost, and only one of these |
| `HeapModel.AllocBytes` | source/sosal/heap.c:364-454 | a successful allocation takes exactly its block's bytes from the free ones |
| `HeapModel.FreeBytes` | source/sosal/heap.c:461-546 | a successful free makes exactly its block's bytes free again, whether blocks are merged or not |
| `HeapModel.FreeUndoesExactAlloc` | source/sosal/heap.c:364-510 | with coalescing off, freeing what an exact fit gave restores the heap, lists and counters |
| `BestFit.BestFitIsBest` | source/sosal/heap.c:115-151 | up to 4 GiB and one alignment unit the block taken is the lowest in memory among the smallest that fit |
| `BestFit.CrowdedInv` | source/sosal/heap.c:115-151 | from 4 GiB and two alignment units on there is a heap, within all invariants, that holds a block of 4 GiB and a unit and one of a unit |
| `BestFit.CrowdedIsWrong` | source/sosal/heap.c:115-131 | and a request of one unit takes the large block of that heap |
| `BestFit.BestFitExactly` | source/sosal/heap.c:115-151 | every heap of n units chooses right for every request if and only if the units come to at most 4 GiB and one more |
| `BestFit.AllocIsBestFit` | source/sosal/heap.c:364-454 | the pointer returned is then the address of the lowest of the smallest free blocks that fit |
| `HeapFray.CoalesceLosesMemory` | source/sosal/heap.c:513-543 | a reachable state in which a request that fits exactly gets NULL and the free list is lost |
| `HeapFray.LeakedNodeRefuses` | source/sosal/heap.c:400-543 | a reachable state in which one free block is large enough and is refused for want of a spare node, which the merge did not give back |
| `Heap.HeapAllocator.Init` | source/sosal/heap.c:309-344 | chaining all nodes as spare, popping one and pushing it as the free block gives the initial heap; all of it is new memory |
| `Heap.HeapAllocator.TakeBest` | source/sosal/heap.c:133-151 | the best fit leaves the free list; through a stale tail a cleared node comes out and the list is lost |
| `Heap.HeapAllocator.Fracture` | source/sosal/heap.c:399-430 | a block too large is cut to size and the rest goes to the free list under a spare node; without one the block goes back |
| `Heap.HeapAllocator.Alloc` | source/sosal/heap.c:364-454 | on the linked lists, allocation does exactly what `HeapModel.Alloc` says and keeps the invariant; no node from outside the heap comes in |
| `Heap.HeapAllocator.Absorb` | source/sosal/heap.c:519-542 | a node takes over the bytes of the next one, which is unlinked and cleared |
| `Heap.HeapAllocator.Coalesce` | source/sosal/heap.c:513-543 | at most one merge, with the previous block or else with the next, on the linked list as in `HeapModel.Coalesce`, whose outcome is `FreeMerges` |
| `Heap.HeapAllocator.Free` | source/sosal/heap.c:461-546 | on the linked lists, freeing does exactly what `HeapModel.Free` says (`FreeGives`, `FreeMerges`) and keeps the invariant; the "block was misidentified" branch is never taken; no node from outside the heap comes in |
| `Heap.HeapAllocator.Run` | source/sosal/heap.c:364-546 | any run of allocations and frees on the linked lists is that run on the sequences of blocks |
| `HeapLayout.GapIsLeast` | source/sosal/heap.c:227-243 | the offset to the next aligned address is the least that aligns |
| `HeapLayout.CalcOverhead` | source/sosal/heap.c:192-250 | blocks, nodes and data end up one behind the other inside the buffer, the data aligned, with one block fewer exactly when the padding does not suffice |
| `HeapLayout.PadSufficesIff` | source/sosal/heap.c:192-250 | the padding suffices for n blocks exactly when there is any layout of n blocks in the buffer |
| `HeapLayout.HeapInit` | source/sosal/heap.c:268-344 | NULL is dereferenced exactly for an acceptable buffer with room for one block and no padding to align it; otherwise it fails exactly for a NULL or misaligned buffer or one too small for a block, or else the heap is laid out inside the buffer, is the initial heap, and has an alignment of 2 to the p2align for 5 to 12, of 32 below and of 4096 above |
| `HeapLayout.PointersAligned` | source/sosal/heap.c:268-454 | after any run on a heap so laid out for a p2align up to 12, every pointer given is a multiple of 2 to the p2align and of 32 and lies in the data with all the bytes asked for |
| `HeapLayout.TinyBuffer` | source/sosal/heap.c:227-250 | 72 bytes at address 4 are such a buffer |
| `Ring.AppendSegment` | source/sosal/ring.c:60-194 | bytes copied behind the used part, up to the end of the buffer, are appended to the contents |
| `Ring.RemoveSegment` | source/sosal/ring.c:196-336 | moving the front over bytes removes them from the contents |
| `Ring.RingBuffer.constructor` | source/sosal/ring.c:23-44 | a new ring is empty |
| `Ring.RingBuffer.Write` | source/sosal/ring.c:60-194 | all bytes are appended or, exactly when they do not fit, none; cursors and counters stay in range; an assertion fails exactly for a zero-length write to a full ring |
| `Ring.RingBuffer.Read` | source/sosal/ring.c:196-336 | exactly the first min(len, used) bytes are removed and returned, also over the end of the buffer |
| `Event.Event.EndWait` | source/sosal/event.c:96-193 | after a sleep, true exactly when the flag is set and the sleep did not fail; an auto-reset event is consumed by it |
| `Event.Event.BeginWait` | source/sosal/event.c:133-160 | a wait ends at once exactly for a manual event that is set; a set auto-reset event lets nobody pass without a sleep |
| `Event.Event.Wait` | source/sosal/event.c:133-160 | a whole wait, whatever other threads make of the flag during the sleep: what it answers and what it leaves of the flag |
| `Event.Event.Set` | source/sosal/event.c:195-217 | the flag is set |
| `Event.Event.Reset` | source/sosal/event.c:219-235 | the flag is cleared |
| `Channel.EventsAgreeAlways` | source/sosal/queue.c:69-254 | over any sequence of write, read, enable, disable, pop, unpop and reset on a queue with room, while it is active and not popped the read event is set exactly when a message waits and the write event exactly when there is room |
| `Channel.CreatedAgrees` | source/sosal/queue.c:33-58 | a new queue is open and empty; its events agree with it exactly when it has room at all |
| `Channel.Fifo` | source/sosal/queue.c:69-254 | what writers were told went in is what came out followed by what waits, in order, over exactly the runs without a false receipt and without a reset that throws messages away; after one of those more was acknowledged than ever comes out |
| `Channel.ReadsDrain` | source/sosal/queue.c:114-162 | an open queue of k messages gives them to the next k reads in order, whether these wait or not, and fails every read behind |
| `Channel.WritesFill` | source/sosal/queue.c:69-112 | an open queue with room for k messages takes those of the next k writes in order, whether these wait or not, and refuses every write behind |
| `Channel.ClosedIsStill` | source/sosal/queue.c:69-162 | reads and writes change nothing on a disabled or popped queue; they are told true exactly if they have waited and it is not popped |
| `Channel.ClosedLeavesNoTrace` | source/sosal/queue.c:69-254 | disabling an open queue clears both events, popping it sets both and fails everybody; whatever is read and written meanwhile, enabling it, taking the pop back, or both in either order, gives back the queue there was |
| `Channel.ResetIsNew` | source/sosal/queue.c:212-236 | over any run behind a reset the queue is what it would be if it were new, but for the counter |
| `Channel.CountDrifts` | source/sosal/queue.c:60-236 | over any run the counter exceeds the number of waiting messages by what resets have thrown away, on top of what it was off by |
| `Channel.CountIsLength` | source/sosal/queue.c:33-236 | over any run of a new queue the counter is the number of waiting messages if and only if every reset has met an empty queue |
| `Channel.WriteThenReset` | source/sosal/queue.c:69-236 | a run after which the queue is empty and its length reads 1 |
| `Channel.TrueWithoutTransfer` | source/sosal/queue.c:75-160 | a section reports success without moving a message exactly when it follows a wait and finds the queue disabled and not popped |
| `Channel.DisableBetweenWaitAndLock` | source/sosal/queue.c:116-196 | such a run: a reader reports a message it does not have |
| `Channel.DisableBeforeTheCall` | source/sosal/queue.c:116-254 | another: written, disabled, popped and unpopped, the queue lets a reader who calls only then report a message it does not have |
| `Channel.UnpopUndoesPop` | source/sosal/queue.c:198-254 | popping and unpopping an open queue restores it |
| `Queue.FlattenHead` | source/sosal/queue.c:138-147 | the first msgSize bytes of the ring are the first message, whole |
| `Queue.Slots` | source/sosal/queue.c:90-105 | a message fits into the free bytes exactly when a message slot is free |
| `Queue.Queue.constructor` | source/sosal/queue.c:33-58 | a new queue is empty, active and has its write event set; with messages of no bytes it has room for none |
| `Queue.Queue.Length` | source/sosal/queue.c:60-67 | the value of the counter, which `CountIsLength` is about |
| `Queue.Queue.Write` | source/sosal/queue.c:87-111 | the mutex section on ring and events does what `Channel.Write` says (`WritesFill`, `ClosedIsStill`); only a message of no bytes to an open queue stops at the ring's assertion |
| `Queue.Queue.Read` | source/sosal/queue.c:135-159 | the mutex section does what `Channel.Read` says (`ReadsDrain`, `ClosedIsStill`), no message is torn; only with messages of no bytes an open queue reports one that is not there |
| `Queue.Queue.Enable` | source/sosal/queue.c:164-181 | as `Channel.Enable` (`ClosedLeavesNoTrace`) |
| `Queue.Queue.Disable` | source/sosal/queue.c:183-196 | as `Channel.Disable` (`ClosedLeavesNoTrace`) |
| `Queue.Queue.Pop` | source/sosal/queue.c:198-210 | as `Channel.Pop` (`ClosedLeavesNoTrace`) |
| `Queue.Queue.Unpop` | source/sosal/queue.c:238-254 | as `Channel.Unpop` (`ClosedLeavesNoTrace`) |
| `Queue.Queue.Reset` | source/sosal/queue.c:212-236 | as `Channel.Reset` (`ResetIsNew`): the messages go, their count stays |
| `QueueThreads.StepInv` | source/sosal/queue.c:69-254 | every atomic step of the reader, of every writer and of pop, unpop, disable and enable keeps the invariant: a set read event promises the one reader a message or shows a pop, and messages and room on an active queue are never long without their event |
| `QueueThreads.Reachable` | source/sosal/queue.c:69-254 | it holds in every reachable state of every interleaving |
| `QueueThreads.BlockingReads` | source/sosal/queue.c:116-162 | over every interleaving a read returns true exactly when it brings a message or comes from a wait and finds the queue disabled and not popped at its lock, and a blocking one returns false only if the queue was popped at some moment of the call or the call began on a stale event |
| `QueueThreads.CallsDecided` | source/sosal/queue.c:69-162 | over every interleaving a finished read, waiting or not, is false exactly if at its lock the queue was popped, or active and empty, or disabled without a wait, and brings the first message otherwise, or none from a disabled queue; a finished write is false exactly if the queue was popped, or active and full, or disabled without a wait |
| `QueueThreads.ReadAlone` | source/sosal/queue.c:114-162 | a read that does not wait, or whose event is set, always runs to its end, which takes the first message off an open queue and nothing off any other |
| `QueueThreads.WriteAlone` | source/sosal/queue.c:69-112 | so does a write, which puts its message behind the others exactly if the queue is open and has room |
| `QueueThreads.DisableStopsAll` | source/sosal/queue.c:183-196 | behind a disable of an active queue nobody gets past a wait and no message moves until somebody pops, unpops or enables it |
| `QueueThreads.StaleWindow` | source/sosal/queue.c:198-254 | the event is stale exactly while a pop is being taken back, its flag gone and its events not, and the queue is empty |
| `QueueThreads.FailsExactly` | source/sosal/queue.c:116-254 | in every reachable state a blocking read that begins there can return false without the queue being popped during the call if and only if it begins in that window |
| `QueueThreads.InOrder` | source/sosal/queue.c:69-162 | whatever the interleaving of waits and sections, what writers were told went in is what came out followed by what waits, if and only if no writer was told so falsely |
| `QueueThreads.NoLostWakeUp` | source/sosal/queue.c:69-254 | whoever is inside the mutex can leave it; with the mutex free a reader waiting at an active queue can go on exactly if there is a message, or a pop that no unpop or disable has taken out of the events |
| `QueueThreads.NoLostRoom` | source/sosal/queue.c:69-254 | a writer waiting at an active queue can go on when the mutex is free and there is room or such a pop |
| `QueueThreads.UnpopRace` | source/sosal/queue.c:198-254 | a pop and the first step of an unpop lead to a state in which a blocking read can fail without a pop during the call |
| `QueueThreads.DisableHidesPop` | source/sosal/queue.c:164-210 | a run after which the queue is popped and active and a reader waits and cannot go on |
| `ThreadPool.InitialInv` | source/sosal/threadpool.c:77-106 | a new pool satisfies the invariant |
| `ThreadPool.StepInv` | source/sosal/threadpool.c:20-143 | every atomic step of every worker, issuer and the destroyer keeps the invariant: who holds semaphore and mutexes, counter, event, receipts, where the items are; which items an issue gets accepted is in `PoolIssue` |
| `ThreadPool.Reachable` | source/sosal/threadpool.c:20-143 | it holds in every reachable state of every interleaving |
| `ThreadPool.Conservation` | source/sosal/threadpool.c:58-142 | accepted items are exactly those executed once, in flight or queued, and exactly those the issuers were told; the counter is queued plus in flight plus the one an issuer is about to place; that an item is accepted where there is room is `RoomMeansTaken` |
| `PoolIssue.RoomMeansTaken` | source/sosal/threadpool.c:114-132 | an item for which some worker's queue is open and has room when the call comes to it is taken by the time the call returns, whatever the workers do meanwhile, unless the pool is being destroyed |
| `PoolIssue.EnoughRoom` | source/sosal/threadpool.c:108-143 | a call that enters with as much room in all queues together as it has items takes all of them, and returns true exactly if there was one |
| `PoolIssue.WriteGoes` | source/sosal/threadpool.c:120-131 | the queue written to is that of the worker just offered the item, one before nextWorkerIndex; the item is taken exactly if it is open and has room, then stands last in it, and no other queue changes |
| `PoolIssue.RoundRobin` | source/sosal/threadpool.c:120-126 | over any run nextWorkerIndex moves on by one modulo the number of workers for every offer: the workers are asked strictly in turn |
| `ThreadPool.CompleteMeansDone` | source/sosal/threadpool.c:58-158 | whenever the event is set, or the counter reads 0, every accepted item's function has run and no worker holds one |
| `ThreadPool.CompleteAnswers` | source/sosal/threadpool.c:145-158 | whichever way `threadpool_complete` comes to answer true, all accepted work has been done; false with nothing left to do means that an issue or a count-down is under way, that nothing was ever issued, or that the sleep failed |
| `ThreadPool.DoneMeansComplete` | source/sosal/threadpool.c:64-142 | once some issue has returned and the semaphore is free, the event is set exactly when nothing is left |
| `ThreadPool.WorkersStay` | source/sosal/threadpool.c:58-75 | a worker leaves its loop only when its queue has been popped, which only destroying the pool does |
| `ThreadPool.AfterDestroy` | source/sosal/threadpool.c:20-43 | after destroying, all workers have left and accepted items have been executed or lie unread in a queue |
| `ThreadPool.DestroyInTurn` | source/sosal/threadpool.c:20-43 | queues are popped one by one, each only after all workers before it have left, and only by the destroyer |
| `ThreadPool.NeverStuck` | source/sosal/threadpool.c:45-143 | while items are outstanding or the semaphore is taken some engaged thread can take its next step: no deadlock, no lost wake-up |
| `ThreadPool.DestroyNeverStuck` | source/sosal/threadpool.c:20-75 | while the pool is being destroyed, or the semaphore is taken, some engaged thread can take its next step |
| `PoolProgress.StepWorks` | source/sosal/threadpool.c:20-143 | every step of every thread uses up work, which only a new call of `threadpool_issue` adds to, by a fixed amount per item and worker |
| `PoolProgress.RunsEnd` | source/sosal/threadpool.c:20-143 | no run, of whatever interleaving, has more steps than the work at its start and that of the calls begun in it |
| `PoolProgress.QuietMeansDone` | source/sosal/threadpool.c:45-158 | where nobody but a new caller can take a step, every accepted item has been run, the counter is 0, the semaphore free and, if anything was ever issued, the event set |
| `PoolProgress.QuietMeansDestroyed` | source/sosal/threadpool.c:20-43 | a pool being destroyed comes to the end of it: where nobody but a new caller can take a step, every worker has been joined, what was accepted has been run or lies unread in a queue, and the counter says how much |
| `ThreadPool.CounterFits` | source/sosal/threadpool.c:58-142 | the counter stays between 0 and what queues and workers can hold, plus one |
| `Hash.DefaultKeyInRange` | source/sosal/hash.c:93-110 | for the three table sizes the default key is always a slot |
| `Hash.DefaultKeyIsRemainder` | source/sosal/hash.c:93-110 | the default key is the remainder of the mixed word by the number of slots |
| `Hash.MixExamples` | source/sosal/hash.c:93-110 | what the keys 1, 2 and 255 mix to |
| `Hash.Found` | source/sosal/hash.c:197-230 | in a strictly sorted bucket the search finds the one record with the key, or there is none |
| `Hash.Inserted` | source/sosal/hash.c:232-239 | inserting a new key keeps the bucket strictly sorted and adds exactly that record |
| `Hash.ChangeSlot` | source/sosal/hash.c:160-255 | changing one key's record in its own slot changes the represented map at that key only |
| `Hash.Hash.constructor` | source/sosal/hash.c:129-156 | a new table stands for the empty map |
| `Hash.Hash.EveryKeyInTable` | source/sosal/hash.c:69-110 | with the default key function no key is ignored |
| `Hash.Hash.Set` | source/sosal/hash.c:160-255 | the represented map gets the key, loses it for value 0, and ignores a key outside the table; buckets stay strictly sorted and hash-consistent, the counters are the map's size and the number of lists |
| `Hash.Hash.Get` | source/sosal/hash.c:257-302 | found exactly when the map has the key, with its value; otherwise the caller's variable keeps its value |
| `Hash.Hash.Length` | source/sosal/hash.c:352-360 | the size of the map |
| `CacheLines.OnlyCover` | source/sosal/cache.c:80-92 | valid lines never overlap, so the first that covers an offset is the only one |
| `CacheLines.CommitKeeps` | source/sosal/cache.c:206-208 | committing a line changes the store but not the flat array |
| `CacheLines.InLinesIff` | source/sosal/cache.c:139-163 | every copy of an access stays within its line exactly when it is at least a line long or lies in one line |
| `CacheLines.WholeLines` | source/sosal/cache.c:179-214 | writes of whole lines at a line boundary hit or fill a line with every chunk |
| `CacheLines.NewLineApart` | source/sosal/cache.c:187-197 | a line taken into use for an uncached offset overlaps no valid line |
| `CacheLines.RoomyIff` | source/sosal/cache.c:99-197 | chunk by chunk a write finds a line, and stays within it, exactly if it stays within lines and the lines in use and those it touches are no more than there are |
| `CacheLines.ReadableIff` | source/sosal/cache.c:99-157 | so does a read, exactly if it stays within lines and one line is to spare or none is missing |
| `CacheLines.LandedIff` | source/sosal/cache.c:178-214 | what a write leaves is the flat array with the written bytes if and only if each chunk finds its line or, beforehand, the right bytes around it in the line it takes into use |
| `CacheLines.HitOrFullIsFaithful` | source/sosal/cache.c:178-214 | a write that hits or fills a line with every chunk is faithful, whatever the lines hold |
| `CacheLines.AgreesIff` | source/sosal/cache.c:130-251 | over any run of writes, reads, flushes and invalidations that fits, the cache and its store are those of a flat array throughout if and only if every write is faithful when it comes |
| `CacheLines.AgreesReads` | source/sosal/cache.c:130-168 | then every read returns what the flat array holds |
| `CacheLines.HitsAreFaithful` | source/sosal/cache.c:130-251 | runs whose writes all hit or fill their lines are such runs, whatever the lines hold |
| `CacheLines.PlainRuns` | source/sosal/cache.c:130-251 | runs of whole-line writes, reads, flushes and invalidations fit and are such runs as long as one line is never needed |
| `CacheLines.ShortWriteCorrupts` | source/sosal/cache.c:170-251 | after writing two bytes to a new cache, flushing it and writing one byte, the flat array reads 1 1 7 1 where it should read 1 1 7 0 |
| `CacheLines.LeftoverLands` | source/sosal/cache.c:170-251 | after a flush or an invalidation of any cache, a short write leaves its own bytes and around them exactly what the last line held: its part of the flat array if it was in use, or what it last held |
| `CacheLines.ReadThenWrite` | source/sosal/cache.c:130-220 | a read leaves its line's bytes where a write behind it in the same line finds them: with a line to spare the short write is one to the flat array |
| `Cache.Cache.constructor` | source/sosal/cache.c:39-78 | a new cache stands for the store |
| `Cache.Cache.Index` | source/sosal/cache.c:80-92 | the first valid line that covers the offset, if any |
| `Cache.Cache.Next` | source/sosal/cache.c:99-121 | the last line not in use, if there is one |
| `Cache.Cache.Fetch` | source/sosal/cache.c:148-157 | the line found or filled holds the bytes of the flat array around the offset; a filled one is not taken into use |
| `Cache.Cache.Read` | source/sosal/cache.c:130-168 | safe exactly as `ReadableIff` says; then it returns the bytes of the flat array, leaves it unchanged and takes no line into use |
| `Cache.Cache.WriteChunk` | source/sosal/cache.c:178-208 | a hit patches the flat array; a miss puts the old bytes of the last line not in use there first, and takes that line into use |
| `Cache.Cache.Write` | source/sosal/cache.c:170-220 | safe exactly as `RoomyIff` says; then the flat array becomes what `Landed` says, which is a write to it if and only if `Faithful` holds beforehand; the lines in use grow by those touched |
| `Cache.Cache.Flush` | source/sosal/cache.c:237-251 | the store becomes the flat array, which is unchanged; no line is in use and each keeps its bytes |
| `Cache.Cache.Invalidate` | source/sosal/cache.c:222-235 | the flat array falls back to the store; under write-through nothing is lost |
| `Cache.Cache.Run` | source/sosal/cache.c:130-251 | any run of operations inside the store is safe exactly if it fits, and then leaves the flat array, the store, the lines and the read results that the views say |
| `RpcSocket.WordRoundTrip` | source/sosal/rpc_socket.c:122-169 | a 32-bit word read back from its bytes |
| `RpcSocket.FitsPacket` | include/sosal/rpc_socket.h:116-128 | ten items of at most 128 bytes fit the largest packet |
| `RpcSocket.FillLengths` | source/sosal/rpc_socket.c:112-119 | every item gets the length 16 + sizeElement * numElements, in 32 bits, and no other field changes; the result is 16 plus the sum of those lengths, in 32 bits |
| `RpcSocket.Pack` | source/sosal/rpc_socket.c:108-143 | the copy overruns the packet exactly when the first item that does not fit wraps the 32-bit offset; otherwise packing fails exactly when the packet is too small, or the packet is, field by field, the header and the items, each with its sizeElement * numElements bytes, and the final offset is where they end; the header's length is as in `FillLengths` |
| `RpcSocket.WireForm` | source/sosal/rpc_socket.c:120-141 | the packet byte by byte: four words of the header, least significant byte first, then from where the one before ends each item's four words and its sizeElement * numElements bytes |
| `RpcSocket.HugeItem` | source/sosal/rpc_socket.c:108-143 | one item of nearly 4 GiB overruns the packet |
| `RpcSocket.Recv` | source/sosal/rpc_socket.c:145-187 | receiving leads out of the packet, of the receiver's items or of the memory they bring exactly when what arrives is too short for a length word, names more items than there are, items that end outside the packet, or one that is longer than its item's own memory; otherwise it succeeds exactly when the stream holds the announced length and the packet has room, and header and items are those the bytes parse to |
| `RpcSocket.ItemMissing` | source/sosal/rpc_socket.c:145-187 | a header that announces an item and brings none leads out of the packet |
| `RpcSocket.ParseItems` | source/sosal/rpc_socket.c:163-177 | parsing from any item on gives back the remaining items and the total length |
| `RpcSocket.ParseExtends` | source/sosal/rpc_socket.c:145-187 | what the packet holds behind the items does not matter |
| `RpcSocket.RoundTrip` | source/sosal/rpc_socket.c:108-187 | unpacking a packed call, whatever lies behind it, gives back the header, every item's type and sizes and the first sizeElement * numElements bytes its pointer led to, and an end offset equal to the header's length; it is safe exactly when each item has room at the receiver |
| `RpcSocket.ShortReply` | source/sosal/rpc_socket.c:163-177 | a reply of eight bytes to a caller with room for four stays inside packet and items and overruns the caller's buffer; with room for eight it is in order, with seven or without an item it is not |
| `RpcSocket.PackSmall` | source/sosal/rpc_socket.c:108-143 | with at most ten items of at most 128 bytes the insufficient-length branch is never taken |
| `RpcSocket.Deliver` | source/sosal/rpc_socket.c:356-376 | a call from the client's packet to the server's always goes through then: of every item all its sizeElement * numElements bytes arrive, and the header with the length of all |

## Left out

- Cache.Cache.constructor: asks for lines of at least one byte and a store of whole lines, because the source divides by the line size and fetches and commits whole lines.
- Eviction in `cache_next` (source/sosal/cache.c:123-125) indexes one line past the array; reads and writes here say `safe` is false when they come to that, and nothing about what follows. Line ages and locks matter only there.
- `hash_clean` uses one static cursor for all tables and reads a bucket before checking the bound.
- `fph.c`, `ini.c`, `bitfield.c`, `histogram.c`, `profiler.c`, `vector.c` and the other small or numeric parts of the library would add only easy members; pixel kernels, sockets, pipes, shared memory and devices depend on code outside the repository.
- The floating-point estimate of the number of blocks in `heap_calc_overhead` is a parameter; only that its blocks and bookkeeping fit the buffer is assumed.
- `heap_free`'s filling of a freed block and `heap_deinit`'s clearing: the contents of user memory are not modelled. `heap_valid` is a range check.
- A heap's list node and the block it points to are one node with the block as its datum; the block descriptor a merge leaves behind is therefore counted with its node.
- The heap's mutex: operations are sequential. The early test of `bytesFree` before the lock is modelled as part of the operation.
- An uninitialised heap, queue or ring (NULL handles) and failing allocations of memory.
- RpcSocket.Recv: an item's bytes are returned as a value, whether they were copied to the receiver's memory or are pointed to in the packet; the stream is the bytes there are, in one piece.
- RpcSocket.Pack: packets of less than 4 GiB, as all callers have; above that the source's 32-bit offset itself would wrap. The same for `Recv`.
- RpcSocket.RoundTrip: asks that the header carries the true length, which `Pack` puts there unless the 32-bit sum wraps.
- Queue.Queue.Read: `msgCount` is a number here; in the source it wraps around below 0, which only reads of messages of no bytes get it to.
- Queue.Queue.Write: says nothing about what follows the failed assertion of a message of no bytes.
- `queue_reset` re-initialises ring and events in place here; a failing allocation of the new ring is not modelled.
- Several readers on one queue: events and order are proved for sections in any order; that a blocking read is never turned away empty is proved for one reader, because with two the second may find the message gone. `QueueThreads` leaves out reset, whose section is in `Channel`: a reset throws away the message that a reader past its wait was promised.
- QueueThreads.NoLostRoom: a writer that is let go on may still find the queue full at its lock, because another writer was faster, and then its blocking write returns false; only that it is not left waiting is proved.
- ThreadPool.WorkersStay: the pool's own queues, written without blocking under the pool's semaphore; blocking writers and other writers at the same time are in `QueueThreads`.
- PoolProgress.RunsEnd: counts the steps of the modelled threads; that the scheduler lets an enabled thread run, and that the user's function returns, is assumed.
- Hash buckets hold the record sequence of their list; the links of such a list are proved in `List.dfy` and not repeated per bucket. The node that `hash_set` allocates for a removal is never released by the source; memory is not counted here.
- The debugging flag `active` of a worker, the profiler calls, thread affinity, and the worker's data pointer.
- Issuing to a pool that is being destroyed reaches queues that are freed one by one; the model keeps the queues, and a popped one refuses every write.
- Timed waits: the clock is not modelled, a wait may time out at any moment. The Windows and SYSBIOS branches are not modelled.
- Comparators of the tree that answer outside -1, 0 and 1.
- Coalescing merges at most once per free, so two free neighbours can remain; the model follows the code.
- Unit tests, printing, `btreelist_destroy`, `list_destroy`, `hash_destroy` and `cache_destroy`.
