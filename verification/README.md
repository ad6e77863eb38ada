# Verification of the charging pile firmware

A Dafny model of five parts of the firmware and proofs about them: the small-memory heap of RT-Thread, its kernel
objects for communication between threads, the JSON printer and parser, the resumable firmware download, and the
framing and handshake of the link between the two boards. Number formatting and aligned allocation come with them.

`dafny verify dfyconfig.toml` checks everything.

## How the model is built

Where the source changes things in place, the model does, too: classes with the source's fields, methods with its
loops, arrays for its buffers. Each method is proved against a function that gives the new state, and the properties
of whole runs are proved about these functions.

- **Heap** (`HeapModel`, `HeapSafety`, `HeapSpans`, `HeapRuns`, `HeapTraces`; `LittleEndian`, `HeapBytes`, `HeapLinks`,
  `SmallMem`; `AlignedAlloc`). The upper layer is the list of blocks in address order; a run is a sequence of critical
  sections, so that the malloc and the free inside a realloc may be apart. The lower layer is a byte array with in-place headers
  (magic, used, next, prev, little-endian, twelve bytes), and its methods refine the upper layer and keep the payloads
  of live blocks. The `prev` of the end marker is not kept up to date by the source and is left free.
- **Kernel objects** (`RtList`, `WaitQueue`; `Semaphore`, `MutexModel`, `Mutexes`, `EventModel`, `Events`, `MqModel`,
  `MessagePool`, `MessageQueues`). An interrupt-disabled section is one step; a timeout is a step of the environment.
  Waiting lists are rings of links. A link stands for the thread it is embedded in and carries the fields of the thread
  the objects use. The models are generic in the type of threads; the classes use links. Event flags and masks are sets
  of bit numbers. A thread that is suspended, or between two sections of a call, starts no other call on the object.
  In runs of semaphores, events and message queues any thread's priority may change at any time, as it does when the
  thread owns a mutex. In the message queue, ghost state records who holds each node and who wrote each body.
- **JSON** (`JsonModel`, `JsonGrammar`, `JsonAccepts`, `JsonRoundTrip`, `JsonPieces`, `JsonPrinter`, `JsonStrings`). Texts
  are bytes without the final zero; reading past the end reads 0. The grammar is defined apart from parser and printer:
  the parser reads all of its strict form, which is RFC 8259 without escapes of zero and of half a surrogate pair, and
  accepts nothing outside the wider one. A number is an exact decimal, so that the grammar of fraction and exponent is
  there without floating point. Children are linked lists, as in the source.
- **Download** (`Flash`, `Ota`, `OtaLimits`, `OtaModules`). Flash cells are blank (0xFF) after an erase, and
  programming can only clear bits. Requests to the lower board keep their order and may be lost, carried out twice or
  cut short, and an erase may fail; either board may restart between any two steps. The callbacks of the upper board and
  the handlers of the lower one are proved to be steps of the protocol.
- **Link** (`PacketModel`, `Packets`, `PacketNests`, `EmitterRuns`, `Handshake`). The step of the checksum is a
  parameter, and so is, for each type, when its parser has read enough. Failures that the source throws are results.
  The packet mutex lets its owner in again.
- **Formatting** (`PrintNumber`). The unbounded output is a text, and the buffer gets the part before its end.

Where a claim one would like to make is false of the code, the code is kept: a lemma gives an input for which it fails,
and another the exact condition. These are the wrap-around of rounded sizes (`MallocWraps`, `MallocGrants`,
`ReallocNull`, `CallocWraps`, `CallocGrants`, `MallocAlignWraps`, `PlacedNeedsSum`), the exact fit at the end of the heap
(`WholeHeapRefused`, `MallocFirstFit`), lfree and the minimum size after a shrink (`ShrinkHidesFree`, `ShrinkLowest`,
`RunLowest`, `ShrinkRoomy`, `RunStrong`), the 16-bit semaphore value (`Overflow`, `Conservation`), the order of threads whose
priorities change while they wait (`UrgentPassedOver`, `JoiningOrderLost`, `RunOrder`), the 8-bit hold count and the arrival
order of a mutex (`HoldOverflows`, `PrioMutexSafe`, `FifoMutexInverts`, `StepUrgent`), the buffer for a JSON string
(`CutEscapeOverruns`, `FitsExactly`), page size and short reads in the download (`PagesMustDivide`, `ShortReadsBreak`,
`WriteTakes`), and frames begun inside one another (`NestedFramesLost`, `EmittersTakeTurns`).

Two comments in `rt-thread/src/mem.c` promise more than the code does, and the model follows the code. `rt_malloc` returns
null, by its comment, if no free memory is found; it also does so for an exact fit at the end of the heap, and for nothing
else while lfree is the lowest free block (`WholeHeapRefused`, `MallocFirstFit`). `lfree` is described as the lowest free
block; after a shrink it need not be (`ShrinkLowest`).

## Model

| member | source | states |
|---|---|---|
| HeapTraces.RunSafe | rt-thread/src/mem.c:156-609 | in every state of every run of malloc, free and shrink sections the blocks tile the heap up to the end marker, offsets are word-aligned, no two neighbours are free, lfree is a free block or the end, used_mem is the sum of the used spans, and max_mem is its largest value so far |
| HeapTraces.StepInv | rt-thread/src/mem.c:272-609 | each critical section keeps that invariant, and raises max_mem to the new usage if that is larger |
| HeapTraces.RunStrong | rt-thread/src/mem.c:272-609 | in any run, lfree is the lowest free block and no payload is below the minimum, in all states up to one, if and only if every shrink before it had a free block below the shrunk one or right behind it and left at least the minimum; so always without realloc |
| HeapTraces.ShrinkRoomy | rt-thread/src/mem.c:470-498 | a shrink keeps every payload at the minimum of twelve bytes if and only if the new size is at least that, which the source does not ask for |
| HeapTraces.RunLowest | rt-thread/src/mem.c:272-609 | in any run, lfree is the lowest free block in all states up to one if and only if every shrink before it had a free block below the shrunk one or right behind it |
| HeapTraces.MallocFirstFit | rt-thread/src/mem.c:298-405 | whenever lfree is the lowest free block, malloc takes the lowest free block that fits below the bound of its search, and returns null if and only if no block fits or the only one that fits is an exact fit that ends at the end marker |
| HeapTraces.MallocCuts | rt-thread/src/mem.c:298-405 | the block malloc gives is the lowest that serves, ends behind the size asked for if the rest is worth a block and otherwise where it ended, and raises max_mem by its length if need be |
| HeapTraces.ReallocFails | rt-thread/src/mem.c:459-511 | realloc of a live block to a size that fits the heap returns null if and only if the size is neither the same nor smaller by more than a block, and no free block serves but an exact fit that ends at the end marker |
| HeapTraces.ReallocStays | rt-thread/src/mem.c:459-498 | the block stays where it is if and only if the size is the same, when nothing changes, or smaller by more than a block, when it ends behind the new size |
| HeapTraces.ReallocMovesTo | rt-thread/src/mem.c:500-511 | a block that moves goes to the lowest one that serves, the old one is no longer live, and max_mem counts both |
| HeapTraces.WholeHeapRefused | rt-thread/src/mem.c:305-307 | a request for all of an empty heap, which is such an exact fit, is refused |
| HeapTraces.ShrinkLowest | rt-thread/src/mem.c:471-498 | whatever earlier shrinks left, after a shrink lfree is still the lowest free block if and only if a free block lay below the shrunk one or right behind it |
| HeapTraces.ShrinkHidesFree | rt-thread/src/mem.c:471-498 | a shrink after which a malloc that would fit returns null |
| HeapSafety.PlugOk | rt-thread/src/mem.c:156-194 | plug_holes restores the merged state from a list with one unmerged free block, and keeps tiling, usage and lfree right |
| HeapSafety.TakeInv | rt-thread/src/mem.c:311-387 | taking a block, split or not, keeps the invariant |
| HeapSafety.FreeInv | rt-thread/src/mem.c:589-607 | freeing a live block keeps the invariant |
| HeapSafety.ShrinkInv | rt-thread/src/mem.c:471-498 | shrinking a live block in place keeps the invariant |
| HeapSpans.Canonical | rt-thread/src/mem.c:156-194 | two merged tilings with the same used spans are the same block list |
| HeapRuns.FindFitLeast | rt-thread/src/mem.c:305-311 | the search returns the first candidate from lfree on, or none if there is none |
| HeapRuns.MallocOk | rt-thread/src/mem.c:272-410 | malloc keeps the invariant and takes the first candidate from lfree on; null leaves the heap alone and means that the size is 0 or above that of the heap, or that there is no candidate from lfree on |
| HeapRuns.MallocGrants | rt-thread/src/mem.c:272-410 | a non-null result is word-aligned, inside the heap and disjoint from all live spans, which stay; it holds the request if and only if rounding the request does not wrap |
| HeapRuns.MallocWraps | rt-thread/src/mem.c:289 | a request of four gigabytes less three bytes is granted twelve bytes |
| HeapRuns.MallocFree | rt-thread/src/mem.c:272-609 | freeing what malloc returned restores blocks, lfree and used_mem |
| HeapRuns.FreeAll | rt-thread/src/mem.c:546-609 | freeing all live blocks in any order leaves one free block over the heap and used_mem 0 |
| HeapRuns.ReallocOk | rt-thread/src/mem.c:421-510 | a non-null realloc has room for the new size and takes the place of the old block among the live spans; a null one leaves the heap alone unless the size rounds to 0 |
| HeapRuns.ReallocNull | rt-thread/src/mem.c:421-510 | a null realloc of a nonzero size leaves the block live if and only if rounding the size does not wrap |
| HeapRuns.CallocGrants | rt-thread/src/mem.c:525-537 | calloc grants count times size bytes if and only if neither the product nor its rounding wraps, that is, the product is at most four gigabytes less four bytes |
| HeapRuns.CallocWraps | rt-thread/src/mem.c:525-537 | 3 times 0x55555556 wraps and 1 times 0xFFFFFFFD rounds to 0: each is granted twelve bytes |
| HeapBytes.DecodeEncode | rt-thread/src/mem.c:95-114 | a header read from the twelve bytes it was written to is that header |
| HeapBytes.HeaderLayout | rt-thread/src/mem.c:95-114 | the twelve bytes of a header, one by one |
| HeapLinks.LinkedInsert | rt-thread/src/mem.c:329-348 | the stores that link a new header in turn the chain of a block list into that of the list with the block |
| HeapLinks.LinkedRemove | rt-thread/src/mem.c:166-193 | the stores that unlink a header turn the chain of a block list into that of the list without the block |
| SmallMemory.SmallMem.constructor | rt-thread/src/mem.c:233-256 | the two headers of a fresh heap encode one free block |
| SmallMemory.SystemHeapInit | rt-thread/src/mem.c:204-257 | for every address range: the heap covers the aligned range less two headers, or is refused when the range is too small |
| SmallMemory.SmallMem.PlugHoles | rt-thread/src/mem.c:156-194 | the merging stores on the header bytes do what merging does on the block list, and keep every live payload |
| SmallMemory.SmallMem.Search | rt-thread/src/mem.c:305-311 | the walk over next offsets finds the block the first-fit search finds |
| SmallMemory.SmallMem.TakeBlock | rt-thread/src/mem.c:316-387 | splitting, marking, counting and moving lfree on the bytes do what taking does on the block list, and change no live payload |
| SmallMemory.SmallMem.Malloc | rt-thread/src/mem.c:272-410 | malloc on the bytes refines malloc on the block list, and changes no live payload |
| SmallMemory.SmallMem.Free | rt-thread/src/mem.c:546-609 | free on the bytes refines free on the block list, ignores pointers outside the heap, and changes no payload that stays live |
| SmallMemory.SmallMem.Realloc | rt-thread/src/mem.c:421-510 | realloc on the bytes refines realloc on the block list, keeps all other payloads, copies the first min(old, new) bytes, and on null for a nonzero rounded size keeps the block |
| SmallMemory.KeptBytewise | rt-thread/src/mem.c:505-505 | the bytes copied are all that lie both in the old block and in the new size |
| SmallMemory.SmallMem.Calloc | rt-thread/src/mem.c:525-537 | calloc is malloc of the wrapped product, with as many zero bytes at the result; a flag is set exactly if malloc succeeds although rounding that product wraps, when clearing leaves the block |
| AlignedAlloc.Align4IsMask | rt-thread/src/mem.c:289 | rounding up to words is the sum and mask of the source in 32 bits, wrap-around included |
| AlignedAlloc.AlignUpValue | rt-thread/src/kservice.c:1249-1257 | both branches of the address computation come to the next multiple of the alignment strictly above the pointer |
| AlignedAlloc.MallocAlign | rt-thread/src/kservice.c:1229-1266 | for every size and power of two: unless size or sum wrap, the result is aligned, its size bytes and the word below it, which holds the pointer malloc returned, lie inside that block, and all live payloads are kept; a block too small for the request is taken exactly if they wrap and malloc succeeds, and a flag says so |
| AlignedAlloc.SavedKept | rt-thread/src/kservice.c:1259-1260 | whatever keeps the payload of the block keeps the saved pointer |
| AlignedAlloc.FreeAlign | rt-thread/src/kservice.c:1275-1281 | the word below the address gives back the pointer malloc returned, and that block is freed |
| AlignedAlloc.PlacedNeedsSum | rt-thread/src/kservice.c:1240-1244 | an aligned address with all its bytes in a block below the top of memory exists only if neither rounding the size nor the sum of size and alignment wraps |
| AlignedAlloc.MallocAlignWraps | rt-thread/src/kservice.c:1243-1246 | a sum that wraps, for which twelve bytes are granted |
| RtList.InsertAfter | rt-thread/include/rtservice.h:58-65 | the ring gets the new link behind the given one |
| RtList.InsertBefore | rt-thread/include/rtservice.h:73-80 | the ring gets the new link before the given one, before the head meaning at the end |
| RtList.Remove | rt-thread/include/rtservice.h:86-92 | the ring loses the link, which is a ring of its own again |
| RtList.IsEmpty | rt-thread/include/rtservice.h:98-101 | a list is empty exactly if its ring is the head alone |
| RtList.Len | rt-thread/include/rtservice.h:107-118 | the number of links other than the head |
| RtList.RingDistinct | rt-thread/include/rtservice.h:47-92 | a ring whose prev inverts next and that meets its head once meets no link twice |
| WaitQueue.EnqueueOrdered | rt-thread/src/ipc.c:80-123 | a thread that begins to wait is placed so that the list stays in waking order: by priority and then by age with the priority flag, by age without |
| WaitQueue.RemoveOrdered | rt-thread/src/thread.c:821-822 | taking any thread out keeps waking order |
| WaitQueue.Suspend | rt-thread/src/ipc.c:80-123 | the ring of the list becomes that of the waiting threads with the new one in its place, for both flags |
| WaitQueue.Resume | rt-thread/src/ipc.c:134-147 | the first waiting thread leaves the ring |
| WaitQueue.ResumeAll | rt-thread/src/ipc.c:157-185 | the ring is left empty, and every thread that waited has its error set |
| SemaphoreModel.Conservation | rt-thread/src/ipc.c:324-515 | in every run, whatever happens to the priorities of the threads, no thread waits while the value is positive, and value last set plus releases equals value plus granted takes if and only if no release met the value 65535 without a waiter |
| SemaphoreModel.RunInv | rt-thread/src/ipc.c:324-515 | every run keeps those facts, with each such release counted as 65536 |
| SemaphoreModel.TakeGranted | rt-thread/src/ipc.c:336-408 | after every run in which no release was lost, a take is granted at once if and only if more has been put in than granted; otherwise it fails at once, with nothing changed, or joins the list |
| SemaphoreModel.Leaves | rt-thread/src/ipc.c:454-515 | a thread leaves the list if and only if a release finds it first, without an error, or by a timeout or reset, with one |
| SemaphoreModel.ReleaseWakes | rt-thread/src/ipc.c:454-461 | a release wakes a waiting thread, without an error, exactly if it is the first of the list; while the list is in waking order by current priorities, that is the one that comes before all others |
| SemaphoreModel.RunOrder | rt-thread/src/ipc.c:80-123 | with priorities that change while threads wait, the list is in waking order by current priorities throughout a run if and only if no change takes a waiting thread past a neighbour |
| SemaphoreModel.StepOrder | rt-thread/src/thread.c:655-667 | the same for one step: the change of a priority does not move a suspended thread |
| SemaphoreModel.UrgentPassedOver | rt-thread/src/thread.c:655-667 | a thread raised above the first while it waits: the release wakes the first |
| SemaphoreModel.JoiningOrderLost | rt-thread/src/ipc.c:95-118 | nor is the list in the order of the priorities at joining: a run that ends in 8, 5, 7 |
| SemaphoreModel.Overflow | rt-thread/src/ipc.c:460-461 | a release at 65535 sets the value to 0 |
| Semaphores.Semaphore.Take | rt-thread/src/ipc.c:324-409 | rt_sem_take up to its first scheduling point: value, list, error and outcome are those of the step function |
| Semaphores.Semaphore.Release | rt-thread/src/ipc.c:433-471 | rt_sem_release: value and list are those of the step function |
| Semaphores.Semaphore.Expire | rt-thread/src/thread.c:807-829 | a timeout takes the thread off the list with its error set |
| Semaphores.Semaphore.Reset | rt-thread/src/ipc.c:483-515 | a reset fails all waiting threads and sets the value modulo 65536 |
| MutexModel.PrioMutexSafe | rt-thread/src/ipc.c:654-881 | with the priority flag, for every run from creation: that in all its states value is 1 iff there is no owner iff hold is 0, threads wait only for an owner, who is none of them and at least as urgent as each, and all others run at base priority, is true if and only if no owner nests 256 takes |
| MutexModel.HoldOverflows | rt-thread/src/ipc.c:681-685 | a run of up to 256 nested takes by one thread from creation: all is well in it if and only if there are at most 255 |
| MutexModel.MutexCounts | rt-thread/src/ipc.c:654-881 | in every run from creation in which no owner nests 256 takes, a thread owns the mutex if and only if it has been granted more takes, hand-overs included, than it has released, and the hold count is by how many |
| MutexModel.OwnsUntilReleased | rt-thread/src/ipc.c:681-829 | after n nested takes, at most 255, and k releases a thread owns the mutex if and only if k < n |
| MutexModel.NestedRelease | rt-thread/src/ipc.c:828-832 | a release of a nested take changes the hold count by one, and nothing else |
| MutexModel.TakeOutcome | rt-thread/src/ipc.c:674-779 | a take is granted if and only if there is no other owner, which makes the thread the owner; otherwise it fails or joins the list; only its own error changes |
| MutexModel.ReleaseOutcome | rt-thread/src/ipc.c:816-826 | only the owner can release; for anybody else nothing changes but the error |
| MutexModel.Leaves | rt-thread/src/ipc.c:841-861 | a thread leaves the list if and only if the mutex is handed to it, without an error, or by a timeout, with one |
| MutexModel.RunInv | rt-thread/src/ipc.c:654-881 | the same without the claim on urgency, for either flag and from any state of the invariant |
| MutexModel.StepInv | rt-thread/src/ipc.c:654-881 | a step keeps the invariant if and only if it is not a take by the owner at hold 255 |
| MutexModel.StepUrgent | rt-thread/src/ipc.c:721-858 | a step keeps the owner as urgent as every waiting thread if and only if it is not a hand-over to a thread while a more urgent one waits |
| MutexModel.PrioNeverDemotes | rt-thread/src/ipc.c:95-118 | in priority order no release is such a hand-over |
| MutexModel.ReleaseRestores | rt-thread/src/ipc.c:828-871 | the last release puts the priority of the owner back to what it was on taking, and leaves the mutex without owner exactly if nobody waits |
| MutexModel.FifoMutexInverts | rt-thread/src/ipc.c:841-861 | in arrival order a release that leaves a thread of priority 5 waiting for an owner running at 9 |
| MutexModel.FifoMutexQueues | rt-thread/src/ipc.c:654-779 | three takes that lead to the state before that release |
| Mutexes.MutexObject.Take | rt-thread/src/ipc.c:654-779 | rt_mutex_take up to its scheduling point: all fields, priorities, errors, list and outcome are those of the step function |
| Mutexes.MutexObject.Release | rt-thread/src/ipc.c:790-881 | rt_mutex_release: all fields, priorities, errors, list and outcome are those of the step function |
| Mutexes.MutexObject.Expire | rt-thread/src/thread.c:807-829 | a timeout takes the thread off the list; the priority lent to the owner stays |
| EventModel.EventSafe | rt-thread/src/ipc.c:1029-1237 | in every run, with any changes of priorities, a thread suspended for all its flags lacks one of them and a thread suspended for any has none, and a thread woken by a send will return the flags an immediate receive at its waking would have returned |
| EventModel.ReceiveBits | rt-thread/src/ipc.c:1160-1213 | a receive returns flags if and only if all, or with OR some, of its bits are set: those that are, and the clear option clears just these; otherwise it fails or waits and no flag changes |
| EventModel.SendBits | rt-thread/src/ipc.c:1040-1101 | a send adds its flags to those there, and of all these a flag is gone if and only if a thread that was woken asked for it to be cleared; a send of none fails |
| EventModel.RetryAt | rt-thread/src/ipc.c:1054-1101 | each waiting thread in turn is woken if and only if what those before it have left is what it asks for, and gets and clears just its bits of that |
| EventModel.Joins | rt-thread/src/ipc.c:1186-1213 | a thread joins the list if and only if it may wait and does not find what it asks for |
| EventModel.Leaves | rt-thread/src/ipc.c:1054-1277 | it leaves the list if and only if a send wakes it, without an error, or by a timeout or reset, with one |
| EventModel.KeepsOrder | rt-thread/src/ipc.c:80-123 | every step but a change of priorities keeps the list in waking order |
| EventModel.WakeIsReceive | rt-thread/src/ipc.c:1063-1184 | a waking clears the flags and stores the flags that an immediate receive would |
| EventModel.WalkIsRetry | rt-thread/src/ipc.c:1054-1101 | the walk of a send has the effect of every waiting thread in turn retrying its receive without waiting |
| EventModel.RetryNoneReady | rt-thread/src/ipc.c:1054-1101 | a thread passed over stays unsatisfied although flags are cleared behind it |
| EventModel.RunInv | rt-thread/src/ipc.c:1029-1277 | every run keeps that, with resets and timeouts |
| Events.EventObject.Send | rt-thread/src/ipc.c:1029-1111 | rt_event_send: flags, list and the threads' stored flags are those of the step function |
| Events.EventObject.Receive | rt-thread/src/ipc.c:1127-1199 | rt_event_recv up to its scheduling point: flags, list, wants, errors and outcome are those of the step function |
| Events.EventObject.Finish | rt-thread/src/ipc.c:1223-1229 | the rest of a receive that was woken returns the flags stored for the thread |
| Events.EventObject.Expire | rt-thread/src/thread.c:807-829 | a timeout takes the thread off the list with its error set |
| Events.EventObject.Reset | rt-thread/src/ipc.c:1249-1277 | a reset fails all waiting threads and clears the flags |
| MqModel.NoLostWakeUp | rt-thread/src/ipc.c:1975-2384 | in every run, with any changes of priorities, every node is free, queued or held; while a receiver is suspended the queued messages are no more than receivers woken and not yet run; while a sender is, the free nodes are no more than senders woken and not yet run |
| MqModel.RunInv | rt-thread/src/ipc.c:1975-2442 | every run keeps that, and a thread is in one place at a time |
| MqModel.FirstInFirstOut | rt-thread/src/ipc.c:2092-2349 | without urgent messages and resets, what receives take is what sends put in, in order, and the rest is queued |
| MqModel.UrgentFirst | rt-thread/src/ipc.c:2092-2349 | in every run, with urgent messages and resets, a receive takes the latest urgent message not yet taken, or else the oldest other one |
| MqModel.SendOutcome | rt-thread/src/ipc.c:1975-2061 | the first section of a send gets a node if and only if not all are queued or held; otherwise it fails and leaves no trace, or joins the list |
| MqModel.RecvOutcome | rt-thread/src/ipc.c:2240-2323 | the first section of a receive gets a message if and only if there is one; otherwise it fails and leaves no trace, or joins the list |
| MqModel.Leaves | rt-thread/src/ipc.c:2092-2442 | a thread leaves its list if and only if the other side finds it first, and is then on its way, or by a timeout or reset, and is not |
| MqModel.KeepsOrder | rt-thread/src/ipc.c:80-123 | every step but a change of priorities keeps both lists in waking order |
| MessagePools.PartitionCovers | rt-thread/src/ipc.c:1810-1822 | every node is in exactly one of free list, queue and flight |
| MessagePools.ChainDistinct | rt-thread/src/ipc.c:1814-1822 | a chain of next links that ends at NULL meets no node twice |
| MessagePools.MessagePool.constructor | rt-thread/src/ipc.c:1806-1825 | all nodes are chained into the free list |
| MessagePools.MessagePool.Grab | rt-thread/src/ipc.c:2175-2186 | the first free node, or NULL, is taken into flight |
| MessagePools.MessagePool.Fill | rt-thread/src/ipc.c:2085-2088 | writing a node in flight changes no queued message and no other node in flight |
| MessagePools.MessagePool.Append | rt-thread/src/ipc.c:2092-2106 | the node becomes the last of the queue, its body the last message; head, tail and entry agree |
| MessagePools.MessagePool.Prepend | rt-thread/src/ipc.c:2197-2206 | the node becomes the first of the queue, its body the first message |
| MessagePools.MessagePool.Pop | rt-thread/src/ipc.c:2339-2349 | the first message is taken into flight; tail is NULL when it was the last |
| MessagePools.MessagePool.PutBack | rt-thread/src/ipc.c:2359-2361 | the node becomes the first of the free list |
| MessagePools.MessagePool.Drain | rt-thread/src/ipc.c:2416-2434 | a reset returns all queued nodes to the free list |
| MessageQueues.MessageQueue.SendTry | rt-thread/src/ipc.c:2002-2083 | the first section of a send: the step of the protocol model; the node taken was in nobody's hands, and all nodes that were keep their holder, link and body |
| MessageQueues.MessageQueue.SendCommit | rt-thread/src/ipc.c:2090-2125 | the second section of a send: the step of the protocol model with the body the sender has written, a receiver woken if one waits; nodes in the hands of other threads keep their holder, link and body |
| MessageQueues.MessageQueue.UrgentCommit | rt-thread/src/ipc.c:2194-2225 | the second section of an urgent send: the step of the protocol model with the body the sender has written; nodes in the hands of other threads keep their holder, link and body |
| MessageQueues.MessageQueue.RecvTry | rt-thread/src/ipc.c:2262-2352 | the first section of a receive: the step of the protocol model; the node taken holds the first message, and all nodes in hands keep their holder, link and body |
| MessageQueues.MessageQueue.GiveBack | rt-thread/src/ipc.c:2357-2383 | the second section of a receive: the step of the protocol model, a sender woken if one waits; nodes in the hands of other threads keep their holder, link and body |
| MessageQueues.MessageQueue.Reset | rt-thread/src/ipc.c:2397-2442 | a reset: the step of the protocol model; all nodes in hands keep their holder, link and body |
| MessageQueues.MessageQueue.Fill | rt-thread/src/ipc.c:2085-2088 | the copying between the sections of a send: the sender's node begins with its buffer and is entered under its name, nothing else changes |
| MessageQueues.MessageQueue.Read | rt-thread/src/ipc.c:2354-2355 | the copying between the sections of a receive: whatever came between, what is read is what some sender wrote, as far as both go |
| MessageQueues.MessageQueue.ExpireReceiver | rt-thread/src/thread.c:807-829 | a timeout of a suspended receiver: the step of the protocol model |
| MessageQueues.MessageQueue.ExpireSender | rt-thread/src/thread.c:807-829 | a timeout of a suspended sender: the step of the protocol model |
| JsonGrammar.ValueBack | packages/cJSON-v1.0.2/cJSON.c:363-375 | every text of the strict grammar, with any blanks, escapes, fractions and exponents, parses to what it means, and what follows it is left |
| JsonGrammar.StringBack | packages/cJSON-v1.0.2/cJSON.c:198-255 | a quoted string parses to its characters, letters behind a backslash and code points in either case of digits or as a pair of surrogates included; without the second quote it goes to the end of the text |
| JsonGrammar.Utf8Exact | packages/cJSON-v1.0.2/cJSON.c:230-247 | a code point is decoded to its shortest UTF-8: reading that by the bit layout gives the code point, and no other text does |
| JsonGrammar.HexBack | packages/cJSON-v1.0.2/cJSON.c:183-194 | four hexadecimal digits in either case are read as their value |
| JsonGrammar.VoidEscape | packages/cJSON-v1.0.2/cJSON.c:219-229 | a long escape without four digits, of zero, or of half a pair stands for nothing |
| JsonGrammar.NumberBack | packages/cJSON-v1.0.2/cJSON.c:102-121 | a number parses to all its digits in base 10, with its sign, scaled by the exponent less the digits behind the point |
| JsonGrammar.ArrayBack | packages/cJSON-v1.0.2/cJSON.c:412-437 | the text of an array, with blanks anywhere, parses to the array |
| JsonGrammar.ObjectBack | packages/cJSON-v1.0.2/cJSON.c:520-553 | the text of an object, with blanks anywhere, parses to the object |
| JsonAccepts.ParseSound | packages/cJSON-v1.0.2/cJSON.c:326-345 | whatever text is accepted is blanks and a text of the grammar, read as what that means; so brackets, commas, colons and names are all there |
| JsonAccepts.ValueSound | packages/cJSON-v1.0.2/cJSON.c:363-553 | the same for a value at the front of a text, with what is left |
| JsonRoundTrip.RoundTrip | packages/cJSON-v1.0.2/cJSON.c:326-664 | parsing the printed text of any tree of null, booleans, 32-bit integers, strings without zero bytes, arrays and objects gives the tree back and leaves no text, formatted or not |
| JsonRoundTrip.ValuePrinted | packages/cJSON-v1.0.2/cJSON.c:378-664 | the printed text of a tree is a text of the strict grammar with just these blanks, and means the tree |
| JsonPieces.PrintJoin | packages/cJSON-v1.0.2/cJSON.c:378-409 | what is printed for a value does not depend on what follows it |
| JsonPieces.PlainPrint | packages/cJSON-v1.0.2/cJSON.c:378-409 | a printed text has no zero byte before its end |
| JsonPrinter.PrintString | packages/cJSON-v1.0.2/cJSON.c:258-313 | both paths write the quoted text and the final zero into exactly the bytes allocated |
| JsonPrinter.PrintNumber | packages/cJSON-v1.0.2/cJSON.c:153-168 | the text of a 32-bit integer and the final zero fit the 2 or 21 bytes allocated |
| JsonPrinter.PrintArray | packages/cJSON-v1.0.2/cJSON.c:440-517 | the text of the array, and the zero the composing loop ends it with after every step, is written within the length added up for it |
| JsonPrinter.PrintObject | packages/cJSON-v1.0.2/cJSON.c:556-664 | the text of the object, tabs and newlines included, and the zeros that copying and the composing loop end it with after every step, are written within the length added up for it |
| JsonPrinter.PrintEmptyObject | packages/cJSON-v1.0.2/cJSON.c:566-575 | the text of an empty object fits its own allocation at every depth |
| JsonPrinter.PrintValue | packages/cJSON-v1.0.2/cJSON.c:378-409 | the buffer of every printed tree holds its text as a string |
| JsonStrings.DecodedFits | packages/cJSON-v1.0.2/cJSON.c:200-255 | what a text decodes to is no longer than the length measured for it, if no escape the decoding meets reaches over the end the measuring found |
| JsonStrings.FitsExactly | packages/cJSON-v1.0.2/cJSON.c:200-255 | it is no longer whatever follows that end, if and only if no such escape does |
| JsonStrings.CutEscapeOverruns | packages/cJSON-v1.0.2/cJSON.c:203-227 | a long escape cut short by the quote: one byte measured, three decoded |
| JsonStrings.ParseStringAt | packages/cJSON-v1.0.2/cJSON.c:198-255 | for any text: not a string exactly if the parse function says so; a write behind the measured buffer exactly if more is decoded than was measured; otherwise the string and the place behind it are those of the parse function |
| JsonStrings.PrintedBelow | packages/cJSON-v1.0.2/cJSON.c:290-311 | in a printed string the measuring ends at the closing quote, and no escape reaches over it |
| Ota.DownloadSafe | components/ota_lower_module.cxx:6-59 | for pages that divide 10240 and reads of whole words, whatever the flash held and whatever is lost, repeated, cut short or restarted: bytes below the stored offset and below the position are those of the image, bytes erased once are blank or right, and success means the whole image is in flash |
| Ota.RunSafe | components/ota_lower_module.cxx:6-59 | every run keeps that, and the stored offset never decreases |
| Ota.StepSafe | components/ota_lower_module.cxx:6-59 | every step keeps that: start, execution, loss, fault or interruption of a request, reply, timeout, read, failed read, restart |
| Ota.EraseEffect | drivers/drv_flash_f1.c:137-175 | erasing any number of pages from a page boundary keeps what is below it, and erasing all makes every byte blank or right |
| Ota.WriteEffect | drivers/drv_flash_f1.c:78-124 | writing a piece of the image makes its bytes right and harms none, repeated or not |
| Ota.ProgressOk | applications/ota.cxx:73-85 | a recorded offset is a multiple of 10240, not above the position and not below the one before; afterwards lastProgress is less than 10240 behind the position; the offset is lastProgress or unchanged, and unchanged before a full 10240 |
| Ota.LittleLost | applications/ota.cxx:31-85 | in every run, for any page size: an attempt past its erase that is cut off anywhere is resumed from the stored offset, less than 10240 bytes before |
| Ota.AttemptEnds | components/ota_lower_module.cxx:6-59 | an attempt ends if and only if nothing more is read, its erase is not confirmed, or the board restarts; the next one begins at the stored offset with an erase from there |
| OtaLimits.PagesMustDivide | drivers/drv_flash_f1.c:154-156 | a run with a download to the first checkpoint, a restart and the erase of the resumed attempt, for any image, flash and page size: all below the stored offset is right if and only if the page size divides 10240 or the image is blank in the part of the page below 10240 |
| OtaLimits.WriteTakes | drivers/drv_flash_f1.c:83-87 | a write leaves its bytes right if and only if its address is word-aligned or they were right before |
| OtaLimits.ShortReadsBreak | components/ota_lower.cxx:39-48 | from any flash of four bytes, an attempt whose reads give two bytes each: a refused write is confirmed, and the attempt ends with success, with the image in flash if and only if its other half happened to lie behind the data of the first write in memory |
| Flash.EraseExact | drivers/drv_flash_f1.c:137-175 | on a page boundary an erase blanks the range and nothing below it |
| Flash.ErasesPages | drivers/drv_flash_f1.c:137-175 | an erase from a page boundary blanks the pages of its range and no others |
| Flash.EraseKeepsBelow | drivers/drv_flash_f1.c:32-37 | a byte before the address that is not blank survives an erase if and only if the address starts a page |
| Flash.EraseBank | drivers/drv_flash_f1.c:137-175 | a range beyond the flash is refused and nothing changes; otherwise the pages from that of the address on are blank up to the first the hardware fails to erase, the rest is as it was, and success means that none failed |
| Flash.WriteFlash | drivers/drv_flash_f1.c:78-124 | an unaligned or outlying write is refused and changes nothing; otherwise words are programmed up to the first that the hardware fails on or that does not read back, and the write succeeds exactly if there is none |
| Flash.TakesExactly | drivers/drv_flash_f1.c:97-114 | cells take data if and only if programming leaves it there |
| OtaModules.RetryFetch | components/ota_module.cxx:29-37 | failed reads are repeated from the position up to the first that succeeds; the bytes returned are as many as that read gives, those of the image there, and whole words if the stream gives whole words |
| OtaModules.Store.SetLastOffset | applications/ota.cxx:66-71 | the offset counts for this version only, and other modules keep theirs |
| OtaModules.Store.UpdateProgress | applications/ota.cxx:73-85 | the stored offset and lastProgress after progress |
| OtaModules.UpperStart | components/ota_upper_module.cxx:18-53 | the whole loop on the board's own flash: an image that does not fit and an erase that fails are reported with nothing stored; otherwise how far it comes and how it ends is given by what the stream does; the stored offset never goes back and is less than 10240 behind; if reads are whole words and pages divide 10240, success leaves the image, and whenever it stops all below the stored offset is right |
| OtaModules.LowerModule.OnReply | components/ota_lower_module.cxx:19-40 | the callback with a reply is the steps Reply and Read of the protocol model: the same position, progress, stored offset and request, or the end of the attempt, with success exactly where the model has it |
| OtaModules.LowerModule.OnTimeout | components/ota_lower_module.cxx:13-18 | the callback with an error is the step Expire of the protocol model: the request it queues is the one sent |
| OtaModules.LowerModule.OnEraseError | components/ota_lower_module.cxx:47-53 | an erase that fails or is not confirmed is the step Expire of the protocol model, which ends the attempt |
| OtaModules.LowerStart | components/ota_lower_module.cxx:44-47 | the start of an attempt is the step Start of the protocol model: position, stream and the request to erase come from the stored offset |
| OtaModules.HandleErase | components/ota_lower.cxx:25-37 | the handler on the lower board is the step Exec of the protocol model on an erase, or Fault if the driver fails, and reports which |
| OtaModules.HandleWrite | components/ota_lower.cxx:39-48 | the handler on the lower board, on a write whose data the cells take, is the step Exec of the protocol model, cut short where the hardware fails, which is not reported; a write beyond the flash changes nothing |
| OtaModules.SafeTakes | drivers/drv_flash_f1.c:97-114 | in every safe state the cells take the data of every write under way |
| PacketModel.AllDelivered | components/packet.cxx:9-70 | for any list of frames with noise free of head and escape bytes between them, the receive loop delivers exactly the frames of known types, in order |
| PacketModel.FrameDelivered | components/packet.cxx:26-187 | a frame of a known type is delivered with its hash and value, and the checksums agree, whatever follows |
| PacketModel.FrameExact | components/packet.cxx:26-187 | a frame is delivered if and only if the bytes begin with just that frame, of a known type, complete and with its own checksum |
| PacketModel.DeliveredCarried | components/packet.cxx:9-70 | whatever is on the wire, all that is delivered is there as whole frames with their checksums, in that order |
| PacketModel.NoiseSkipped | components/packet.cxx:115-123 | escaped bytes outside a frame change nothing |
| PacketModel.UnknownSkipped | components/packet.cxx:36-44 | a frame of an unknown type changes nothing, whatever it holds |
| PacketModel.CutFrame | components/packet.cxx:135-165 | a frame that loses its end at any byte costs the whole frame behind it, unless its hash is complete and unknown; what follows is delivered as ever |
| PacketModel.CutInEscape | components/packet.cxx:135-165 | a frame cut between an escape and its byte runs together with the next, as bytes of which the first four are the type: both are lost if that is unknown; one value is delivered if they are enough for it and the checksum agrees, and none if it does not; if they are too few, the head behind them is lost, too |
| PacketNests.ArriveExactly | components/packet.cxx:9-113 | frames begun inside one another, to any depth and at any byte: all arrive, once and in the order they were finished, if and only if no frame of a known type has another begun inside it |
| EmitterRuns.EmittersTakeTurns | components/packet.cxx:72-113 | for any interleaving of emitters under the mutex, which lets its owner in again: when all are done, the frames of known types have been delivered once each, in the order they were finished, if and only if none was begun inside one of a known type |
| EmitterRuns.RunWhole | components/packet.cxx:72-113 | at every point of a run without nesting the wire is whole frames and the part of the frame whose emitter holds the mutex, with the checksum of that part |
| EmitterRuns.NestedFramesLost | components/packet.cxx:72-79 | a thread that begins a frame at any byte of the value of its own, which the mutex lets it do: neither is delivered if the outer type is known, and the inner one is if it is not |
| Packets.Emit | components/packet.cxx:72-113 | an emitter appends exactly one frame to the wire |
| Packets.Emitter.WriteData | components/packet.cxx:90-113 | every byte is sent escaped, and the checksum follows what is sent |
| Packets.Absorber.ReadData | components/packet.cxx:135-165 | data bytes are read back from escaped ones; a head or a bad escape breaks the frame |
| Packets.Absorber.Handle | components/packet.cxx:26-70 | handleFrame on the bytes received: delivered, skipped or blocked as the function says |
| Packets.Receive | components/packet.cxx:9-24 | the receive loop delivers what the function says |
| PrintNumber.Print | rt-thread/src/kservice.c:606-775 | the place behind the output does not depend on the buffer end; the buffer holds the part of the unbounded output before the end, and nothing else changes |
| PrintNumber.OutputLength | rt-thread/src/kservice.c:685-774 | the output is as long as the wider of the field and sign plus digits or precision; precision 0 drops the digits |
| PrintNumber.NumberBack | rt-thread/src/kservice.c:645-683 | the printed digits read back to the absolute value, in base 10 and 16 |
| PrintNumber.OutputBack | rt-thread/src/kservice.c:606-775 | the whole output, with sign, padding and precision, reads back to the number, or without SIGN to the number modulo 2^32 |
| PrintNumber.OutputSign | rt-thread/src/kservice.c:651-664 | a minus for exactly the negative numbers, a plus for exactly the others with PLUS, a blank for the others with SPACE only |
| PrintNumber.AtMostTen | rt-thread/src/kservice.c:631-635 | the digits fit the temporary buffer |
| PrintNumber.Divide | rt-thread/src/kservice.c:676-683 | the temporary buffer gets at most ten digits, the least significant first |
| HandshakeModel.HandshakeSafe | components/handshake.cxx:16-35 | over a link that loses, repeats and reorders: each side sends at most one sync mark, and is connected only after the other side, of the same kind, has received a greeting from it |
| HandshakeModel.RunInv | components/handshake.cxx:16-35 | every run keeps the facts behind that |
| HandshakeModel.Connects | components/handshake.cxx:16-35 | a run that connects both sides |
| Handshakes.Handshake.OnReceive | components/handshake.cxx:18-28 | the receive callback: the step of the model |
| Handshakes.Handshake.OnTimer | components/handshake.cxx:30-34 | the timer callback: the step of the model and its greeting |

## Left out

- AlignedAlloc.MallocAlign: when size or sum wrap and malloc succeeds, the block is too small (`PlacedNeedsSum`); the model says so and does not go on to save the pointer, which the source puts in the block or beyond it.
- SmallMemory.SmallMem.Calloc: when rounding the product wraps and malloc succeeds, the source clears bytes outside the block; the model says that it does and stops before.
- SmallMemory.SmallMem.Free: a pointer into the heap is one that malloc returned and that is still live; the source checks this with assertions.
- SmallMemory.SmallMem.Realloc: a pointer into the heap is one that malloc returned and that is still live; the source relies on this.
- SmallMemory.SystemHeapInit: a heap of fewer than twelve bytes is built but is not a valid heap, because the bound of malloc's search wraps in it.
- MutexModel.PrioMutexSafe: priorities change only through this mutex, and a thread uses no other mutex at the time.
- Events.EventObject.Receive: asking for neither all nor any flags is an error of the caller, which the source checks with an assertion.
- JsonStrings.FitsExactly: only texts whose measuring does not skip the final zero, which it does when a backslash is the last byte; the source then reads on behind the text. `ParseStringAt` covers such texts, too, as if nothing but that zero were there.
- Ota.DownloadSafe: for attempts at one version that do not overlap, although `Ota::start` does not look at `running`; the record of another version stays in place until the first checkpoint of the new one. Reads are whole words but at the end, and pages divide 10240; `ShortReadsBreak` and `PagesMustDivide` show why.
- OtaModules.UpperStart: stops between chunks, when the stream falls silent; stopping inside a write or an erase is in the protocol model only.
- PrintNumber.Print: without the options for `0x` and for 64-bit numbers, which are not compiled in.
- Heap hooks, memory tracing, the listing commands and the heap semaphore, which makes each section atomic.
- Threads and scheduling: suspending and resuming a thread is what happens to its link and its error; timers, signals and several processors are not modelled, nor a thread that waits for two mutexes.
- Deletion of kernel objects, and the mailbox, which is not compiled in.
- Message bodies are byte sequences; alignment of the message size and the layout of the pool are not modelled.
- Floating-point numbers in JSON, the buffered printer, the error pointer, deletion and editing of trees, and lengths beyond the range of `int`. The array and object parsers are functions on texts; nodes filled in place are not modelled.
- The version query before a download, the progress callback, and matching of replies to requests: each request is answered or times out.
- How likely the checksum is to detect an error, serialisation of values, and what the source does without exceptions.
- The source finds the page of an address with a mask; the model divides, which is the same for page sizes that are powers of two. The base address of the partition, which starts a page, is not modelled.
- OtaModules.HandleErase: an erase from an offset beyond the size, which `Ota::start` never asks for while the offset is one stored for that image, is not modelled.
- OtaModules.HandleWrite: does not say what happens to cells that do not take the data; `Flash.WriteFlash` does, for any data.
- Drivers other than the flash page arithmetic, cloud and modem code, user interface, voice and lights: foreign calls and small domains.
