# A model of the huilin kernel in Dafny

huilin is a small x86 kernel written in C. This project models the parts in
which its correctness is decided - the kernel heap, physical frames and page
tables with the program loader, the process table with its two schedulers, and
the text screen with the string primitives - and proves what these parts
promise.

Check everything with `dafny verify dfyconfig.toml`.

## How the model is built

Each C file is a class whose fields are the C variables and whose methods are
the C functions, statement by statement. Ghost fields give the abstract state
(a block list, a queue, a tape, sets of frames); `Valid()` ties the two
together, and each method is proved against a function on the abstract state.
What these functions do is stated by lemmas that do not name them: on live
allocations, addresses, stored bits, states and queues.
The large statements - over every run, every pair of heaps, every number of
ticks - are lemmas about these functions.

| file | models |
|---|---|
| Options.dfy, Memory.dfy | optional values; bytes, little-endian words, copies |
| HeapBlocks.dfy, HeapRuns.dfy | the heap as a list of blocks: single calls, then runs |
| Kheap.dfy | kernel/kheap.c on one array of bytes that holds headers and payloads |
| Pmm.dfy | kernel/pmm.c: the bitmap of frames |
| PageTables.dfy, PageRuns.dfy | entries, the two walks, the TLB; runs of map_page and unmap_page |
| Paging.dfy | kernel/paging.c on physical memory |
| Ramdisk.dfy | ramdisk_register and ramdisk_load of kernel/syscall.c |
| SchedSpec.dfy | the process manager as a state machine: invariant, runs, bounded waiting |
| PcbLists.dfy, Process.dfy | lists threaded through process control blocks; kernel/process.c |
| WakeOrder.dfy, Scheduler.dfy | the order of wake-ups; kernel/scheduler.c |
| Screen.dfy, KString.dfy | kernel/screen.c and kernel/string.c |

## Where the code does not do what it seems to promise

Each of these is kept as the code has it, with the exact condition proved.

- kmalloc rounds in 32 bits. Requests above 0xFFFFFFE8 wrap: from 0xFFFFFFF9 on
  they are answered with a block of 16 bytes or a little more (`MallocLive`), and
  from 0xFFFFFFE9 to 0xFFFFFFF8 a block shorter than its header is cut if the
  block found is large enough, which destroys the heap (`MallocKeeps`,
  `WrapBreaks`, `KernelHeap.Kmalloc`).
- krealloc then copies beyond the new payload unless the old one was small enough
  (`MoveFits`, `MoveOverruns`, `GrowOverruns`); kcalloc multiplies in 32 bits and clears beyond it
  (`CallocRoom`).
- kfree recognises a double free by a byte of the old header, which a later
  kmalloc may have overwritten - with the low byte of a link, in five calls
  without a single store into a payload. The double free then destroys the heap
  (`FreeByteTells`, `StaleFree`, `DoubleFreeMissed`); without an allocation in
  between it is always recognised (`KfreesKnown`).
- init_pmm leaves a wrong counter if and only if there are fewer pages than it
  reserves (`FrameAllocator.Init`), as for 4 GB (`FourGigabytes`).
- map_page fails silently when no frame is left for a table. ramdisk_load may
  therefore return success without a mapped stack, or write to an unmapped page
  (`Loader.Load`, `StackLost`).
- map_page has no invlpg: remapping a page held by the TLB leaves it stale
  (`StaleOrNot`, `StaleIff`).
- A program loaded into a 4 MB slot whose table was created without PAGE_USER is
  not accessible to users (`Loader.Load`).
- next_pid wraps to the pid that marks an empty slot (`CreateInv`).
- The first process created takes over slot 0, the idle process, because its pid
  is 0. Later the fall-back to slot 0 can resurrect a process that has just
  called exit, wait or sleep, and a call made before the first scheduling is
  lost (`LeaveTakes`).
- create_process enqueues already; the add_to_ready_queue that follows it in
  kernel/kernel.c:69-74 links the slot to itself (`ProcessManager.AddToReadyQueue`).
- kill_process does not unlink its victim (`KillInv`, `KilledRuns`). Killing the
  running process, or waking it, leaves a current process that exit, wait and
  sleep may later strand in the queue (`LeaveInv`, `SeatedStep`).
- In scheduler.c, remove_from_ready_queue of a process that is not in the queue
  cuts the blocked queue behind it, and adding a queued process loses what is
  behind it (`Queues.RemoveFromReadyQueue`, `Queues.AddToReadyQueue`).
- Nothing in kernel/scheduler.c ever puts a process on blocked_queue, which is
  assigned only in lines 10, 18 and 142. The theorems on wake-ups hold of that
  loop started with any well-linked blocked queue; no call fills one.
- Characters from 128 on are sign-extended over the colour (`CellShows`).

## Conventions

- Pointers to heap blocks and physical addresses are natural numbers below 2^32
  with 0 as NULL; pointers to process control blocks are slots of the process
  table. Both C files that keep process lists use the same table type; the field
  `wakeupTime` is the `wakeup_time` of kernel/scheduler.c:135, which
  include/process.h:49 calls `sleep_until`.
- pmm_alloc_page (include/pmm.h:7) is alloc_frame, PAGE_RW is PAGE_WRITE, and a
  page directory has both `entries` and `tables`, as kernel/paging.c uses it.
- Page tables are reachable at their physical address. Physical memory is one
  array; the frame bitmap, the page directories (globals of the kernel) and
  registered programs are separate objects.
- Ghost parameters name what the arguments denote; they take no part in the
  computation.

## Model

| member | source | states |
|---|---|---|
| HeapRuns.MallocFailsIff | kernel/kheap.c:75-111 | kmalloc returns NULL exactly when no run of free bytes of the length it needs exists anywhere in the heap; holds only because coalescing leaves every maximal free run one block |
| HeapRuns.Canonical | kernel/kheap.c:180-199 | history independence: two well-formed heaps with the same live allocations are the same block list, whatever calls led to them |
| HeapRuns.RunWellFormed | kernel/kheap.c:67-200 | any run of kmalloc, kcalloc, kfree and krealloc in which pointers given back are NULL or live, and no call cuts a block shorter than its header or copies or clears beyond a payload, keeps blocks that tile the heap, are multiples of 8 and at least 16 long, with no two free neighbours |
| HeapRuns.MallocKeeps | kernel/kheap.c:69-96 | for every 32-bit request: kmalloc leaves a well-formed heap if and only if the rounded size holds a header, or nothing fits, or the block found is too small to be cut |
| HeapRuns.MoveFits | kernel/kheap.c:130-141 | when krealloc has to move, its copy fits into the new payload if and only if the size did not wrap, or there is nothing to copy, or the block found was too small to be cut and still large enough |
| HeapRuns.MoveOverruns | kernel/kheap.c:135-141 | if it does not fit, the copy runs over the start of the next block or the end of the heap |
| HeapRuns.FullReclamation | kernel/kheap.c:176-199 | after any such run, freeing all live pointers in any order, NULL and pointers freed before among them, gives back the single free block of init |
| HeapRuns.AllFreed | kernel/kheap.c:176-199 | the same from any well-formed heap |
| HeapRuns.FreeUndoesMalloc | kernel/kheap.c:79-97 | kfree of the pointer kmalloc just returned restores the block list exactly |
| HeapRuns.FreesCommute | kernel/kheap.c:176-199 | the order of two frees leaves no trace in the block list |
| HeapRuns.FreePtrLive | kernel/kheap.c:162-200 | freeing a live pointer takes exactly its allocation out of the live set; NULL and pointers that kfree recognises as freed take nothing (what it recognises is stated by Kheap.FreeByteTells) |
| HeapRuns.MallocLive | kernel/kheap.c:79-100 | a successful kmalloc adds exactly one allocation, new, 8-aligned and inside the heap; the request fits into it if and only if it is at most 0xFFFFFFE8 |
| HeapRuns.MallocWaste | kernel/kheap.c:80-94 | it is less than 32 bytes larger than a request that did not wrap |
| HeapRuns.ReallocLive | kernel/kheap.c:115-147 | what krealloc does to the live allocations: NULL adds one; size 0 takes exactly that allocation away; a size that fits changes nothing; a move replaces it by one new allocation with room for all of the old; failure, which means no sufficient run of free bytes, changes nothing |
| HeapBlocks.LiveApart | kernel/kheap.c:80-100 | live payloads and their headers never overlap |
| HeapBlocks.FreeWellFormed | kernel/kheap.c:176-199 | merging with both neighbours restores the absence of free neighbours and the tiling |
| HeapBlocks.TakeWellFormed | kernel/kheap.c:80-96 | so does taking a block, split or whole |
| HeapBlocks.FreeUsed | kernel/kheap.c:178 | kfree lowers the sum of non-free sizes by exactly the size of the block |
| HeapBlocks.TakeUsed | kernel/kheap.c:96-97 | kmalloc raises it by exactly the size of the block cut |
| HeapBlocks.FirstFit | kernel/kheap.c:73-104 | first fit: the block found is free and large enough, and none before it is |
| HeapRuns.NeedCovers | kernel/kheap.c:69-70 | the 32-bit rounding leaves room for the request and a header if and only if the request is at most 0xFFFFFFE8 |
| HeapRuns.NeedHoldsHeader | kernel/kheap.c:69-70 | the block to cut holds its own header if and only if the request is at most 0xFFFFFFE8 or at least 0xFFFFFFF9 |
| HeapRuns.NeedWraps | kernel/kheap.c:69-70 | concrete requests for which the rounding wraps: 4 GB less 7 bytes are answered with a block without payload |
| HeapRuns.WrapBreaks | kernel/kheap.c:69-94 | an instance: a request of 0xFFFFFFE9 bytes destroys a fresh heap |
| HeapRuns.GrowOverruns | kernel/kheap.c:126-141 | an instance: growing 8 bytes to 0xFFFFFFF9 copies 8 bytes into a payload of none |
| HeapRuns.FiveCalls | kernel/kheap.c:67-200 | kmalloc(8) twice, kfree of both and kmalloc(0) are a permitted run; the second pointer is no longer live after it |
| Kheap.CallocRoom | kernel/kheap.c:151-155 | the block kcalloc gets holds num * size bytes if and only if the product is at most 0xFFFFFFE8, and its memset stays inside if and only if the 32-bit product is |
| Kheap.KernelHeap.constructor | kernel/kheap.c:47-52 | the start state: one free block over the whole heap, used = 16 |
| Kheap.KernelHeap.Kmalloc | kernel/kheap.c:67-112 | for every 32-bit request: walking the in-band headers refines first fit on the block list; headers stay a doubly linked list (prev and next inverse) that tiles the heap, used = 16 + sum of non-free sizes, every other live payload is unchanged byte for byte, failure changes nothing - or else, exactly if the size wraps below a header and the block found is split, no list of blocks describes the heap any more |
| Kheap.NothingLinked | kernel/kheap.c:82-93 | a memory that agrees with a linked heap below some block but has an impossible size there is described by no list of blocks |
| Kheap.KernelHeap.Kfree | kernel/kheap.c:162-200 | refines release and two-sided merging on the block list with the same invariants; surviving payloads unchanged; the header just freed and all those freed before still read free, merged or not |
| Kheap.KernelHeap.Krealloc | kernel/kheap.c:115-147 | whenever its copy fits: exactly the live allocations of ReallocLive are left; the whole old payload is a prefix of the new one; other payloads unchanged; a failed call changes no byte and no block |
| Kheap.KernelHeap.Kcalloc | kernel/kheap.c:150-159 | whenever its memset fits: a successful call returns a payload whose first (num * size mod 2^32) bytes are zero; other payloads unchanged |
| Kheap.KernelHeap.Split | kernel/kheap.c:80-94 | the writes of a split turn the linked headers of one block into those of two, or, if the new header overlaps the old, break the heap at that block |
| Kheap.KernelHeap.Absorb | kernel/kheap.c:183-198 | the writes of a merge, forward or backward, turn the headers of two free blocks into those of one; every header in or of a free block that reads free still does |
| Kheap.Relink | kernel/kheap.c:47-199 | the general step behind split and merge: replacing some blocks keeps every header linked if the new headers are right, the neighbour is redirected and all other headers are untouched |
| Kheap.FreeByteTells | kernel/kheap.c:163-177 | for any pointer into the heap, live or not: kfree leaves it alone if and only if the byte is_free in front of it is set; so it tells live from freed exactly for live pointers and those whose old header still reads free |
| Kheap.KernelHeap.MarkFree | kernel/kheap.c:163-177 | the check for double frees and the store that follows it, for any pointer into the heap |
| Kheap.StaleFree | kernel/kheap.c:170-177 | a pointer that is not live and whose old header has been overwritten is not recognised: the headers survive the store exactly if it meets no size and no link, otherwise no list of blocks describes the heap any more |
| Kheap.DoubleFreeMissed | kernel/kheap.c:170-177 | an instance: kfree of the second pointer after those five calls stores into a link and breaks the heap, in every memory that holds their outcome |
| Kheap.KfreesKnown | kernel/kheap.c:162-200 | through any run of kfree without an allocation, whatever clients write into payloads they still hold, every header freed keeps reading free; so NULL, live pointers and those freed earlier in the run are all told apart |
| Kheap.KfreesReclaim | kernel/kheap.c:162-200 | hence such a run that gives back every live pointer leaves the one free block of init in memory |
| Kheap.PayloadWritten | kernel/kheap.c:141-155 | writing inside one live payload disturbs neither headers nor other payloads |
| Pmm.FrameAllocator.Init | kernel/pmm.c:16-57 | after boot nothing is handed out and exactly those pages of memory are free that begin at or behind the last byte of the bitmap at 2 MB; the counter equals the number of clear bits if and only if there are as many pages as are reserved |
| Pmm.FrameAllocator.AllocFrame | kernel/pmm.c:78-102 | hands out the lowest clear page; fails only at free_pages = 0 (the final return NULL is never reached); the counter keeps agreeing with the bitmap, no page handed out is free; it is a step of the ledger of free and held pages |
| Pmm.FrameAllocator.FreeFrame | kernel/pmm.c:105-130 | gives back exactly the page of the address; NULL, out of range and double frees change nothing; a step of the ledger if the page was held; the books keep balancing if and only if no page is given back that was neither held nor free |
| Pmm.RunConserves | kernel/pmm.c:78-130 | over any run of ledger steps free and held pages partition the pages free at its beginning: none is lost, invented or handed out twice |
| Pmm.ReservedStay | kernel/pmm.c:28-130 | in every run from boot a page handed out begins at or behind the last byte of the bitmap, 0x200000 + 4 * its words, and lies in memory |
| Pmm.FreeAtBoot | kernel/pmm.c:40-46 | a page is free at boot if and only if it lies in memory and holds neither low memory nor a byte of the bitmap |
| Pmm.WordsCover | kernel/pmm.c:25-26 | the words of the bitmap have a bit for every page, and no more than their alignment asks for |
| Pmm.PagesOfMemory | kernel/pmm.c:20-21 | below 4 GB the pages are exactly the whole 4 KB pages of the memory given |
| Pmm.GiveBalances | kernel/pmm.c:110-129 | giving back a page keeps the ledger balanced if and only if the page was held or free |
| Pmm.StepBalances | kernel/pmm.c:78-130 | every ledger step keeps it balanced |
| Pmm.WordArithmetic | kernel/pmm.c:11-12 | setting and clearing bit k in a word adds or takes away 2^k exactly if it was not, or was, there |
| Pmm.BitUpdate | kernel/pmm.c:9-13 | the word and bit macros on 32-bit words change the bit of that page and of no other |
| Pmm.BootMarks | kernel/pmm.c:28-55 | the three marking loops leave exactly the pages from the first free one on clear |
| Pmm.SubExact | kernel/pmm.c:34-55 | the 32-bit counter is exact after n decrements if and only if it did not start below n |
| Pmm.FourGigabytes | kernel/pmm.c:20-55 | an instance: 4 GB, or a multiple, count as no pages, and the counter starts at 2^32 - 512 |
| PageTables.DecodeEncode | include/paging.h:22-48 | the bitfields of an entry survive being stored as a 32-bit word |
| PageTables.DecodedBits | include/paging.h:22-48 | where the bits of an entry lie in its word: present bit 0, rw bit 1, user bit 2, frame from bit 12 on (Intel SDM Vol. 3A section 4.3) |
| PageTables.WalksAgree | kernel/paging.c:73-87 | the walk of the processor through entries[].frame (Intel SDM Vol. 3A section 4.3) finds what the walk through tables[] finds, with rw and user ANDed along the way (section 4.6) |
| PageTables.EntryChanged | kernel/paging.c:83-87 | storing one entry remaps that page and no other of the 2^20 pages |
| PageTables.TableAdded | kernel/paging.c:73-80 | hanging a zeroed table into an empty slot changes no mapping |
| PageTables.StaleOrNot | kernel/paging.c:83-103 | a remapping without invlpg leaves the TLB coherent if and only if it did not hold the page, or held what is there now; with invlpg always (Intel SDM Vol. 3A section 4.10) |
| PageTables.StaleIff | kernel/paging.c:83-87 | no TLB goes stale by a remapping without invlpg if and only if the page was not mapped before, or to the same |
| PageTables.MapSafe | kernel/paging.c:64-88 | for map_page that can be told before the call, from the walk of the page and its directory entry |
| Paging.Mmu.constructor | kernel/paging.c:6-10 | an empty kernel directory is current, nothing is held by clients or hung as a table and the TLB is empty, as init_paging needs it |
| Paging.Mmu.MapPage | kernel/paging.c:64-88 | remaps the page in both walks and nothing else in any directory; the stored words bit by bit (MapBits); without a table and a frame nothing changes at all; either way one step of the flat map; the rights of a new slot are those of the call that created it; client frames untouched; exact condition for coherence of the TLB there is, and of every TLB by the page as it was seen before the call; the low 4 MB of the kernel stay closed to users |
| Paging.MapBits | kernel/paging.c:64-88 | the word map_page leaves for the address, at index (address >> 12) % 1024 of the table of slot address >> 22, is present, holds the frame and in bits 1 and 2 those of the flags; so is the directory entry of a new slot |
| Paging.Mmu.UnmapPage | kernel/paging.c:91-105 | the page, and no other, is unmapped in both walks, which is one step of the flat map; its entry keeps all bits but present and frame; the TLB stays coherent |
| Paging.Mmu.SwitchPageDirectory | kernel/paging.c:108-112 | NULL is ignored; otherwise the other directory is current and the TLB is coherent with it |
| Paging.Mmu.InitPaging | kernel/paging.c:21-61 | both walks map exactly the low 1024 pages to themselves, writable and not for users, the flat map that runs start from; without a frame nothing is mapped |
| Paging.Mmu.CreatePageTable | kernel/paging.c:13-18 | a zeroed frame that no client holds and no other table uses; every mapping stays as it was |
| Paging.Mmu.AllocPage | include/pmm.h:7 | a data page handed out is the lowest free one, is never a page table and was held by nobody |
| Paging.Mmu.FreePage | kernel/pmm.c:105-130 | freeing a held data page takes no frame away from a page table |
| Paging.Mmu.LowKernelSafe | kernel/paging.c:43-47 | while the first directory entry of the kernel has no user right, no walk grants users a page below 4 MB |
| Paging.Mmu.BeyondReserved | kernel/pmm.c:28-130 | page tables and client pages begin at or behind the last byte of the bitmap and lie in memory, whatever calls led there |
| PageRuns.MapRefines | kernel/paging.c:64-88 | what map_page does to the tables is one step of the flat map of 2^20 pages, the lost call included |
| PageRuns.UnmapRefines | kernel/paging.c:91-105 | so is what unmap_page does |
| PageRuns.RunLast | kernel/paging.c:64-105 | after any run a page holds what the last operation on it that was not lost put there; a page none reached holds what it held before |
| PageRuns.RunRights | kernel/paging.c:77-79 | a 4 MB slot that gets its table in a run has the rights of the call that created it, whatever follows |
| PageRuns.RunKeepsRights | kernel/paging.c:73-79 | a slot that has a table keeps its rights over any run |
| PageRuns.RunSeen | kernel/paging.c:64-105 | after any run the processor sees at each page mapped in it the mapping of the last map_page that was not lost, with its flags ANDed with those of the call that created the 4 MB table |
| PageRuns.LowStaysClosed | kernel/paging.c:43-88 | no run that starts at boot ever makes a page of the low 4 MB user-accessible |
| PageRuns.RunSlots | kernel/paging.c:73-81 | a slot has a table if and only if some map_page on it found a frame |
| PageRuns.EffectiveIsHard | kernel/paging.c:73-87 | the walk of the processor finds the flat map through the rights of the slots |
| Ramdisk.RegisterAt | kernel/syscall.c:25-40 | registering a program makes that name, and no other, look up to it |
| Ramdisk.LookupFinds | kernel/syscall.c:44-45 | a load finds a program of that name if and only if there is one |
| Ramdisk.Loader.Register | kernel/syscall.c:25-40 | a known name is replaced, a new one takes the first free slot, a full table is refused unchanged; all other names keep their program |
| Ramdisk.Loader.Load | kernel/syscall.c:43-75 | success, failure and page fault each exactly characterised by the free frames and missing tables before the call; on success entry 0x400000 and stack top 0xBFC00000 are returned and every byte from the entry on, read through the page tables, is the registered byte; the image ends below the stack; the 4096 bytes below the top, if mapped, are those of one frame, and they are mapped if and only if their table existed or a second frame was left; image pages and stack lie in pairwise different frames; users have the rights of the 4 MB slot that existed before, or full rights in a new one; whatever the outcome, all other pages translate as before |
| Ramdisk.Loader.StackLost | kernel/syscall.c:53-71 | an instance: one byte loaded with three frames left succeeds without a stack page |
| Ramdisk.Loader.LoadImage | kernel/syscall.c:48-71 | the same for the program found |
| Ramdisk.Loader.LoadPages | kernel/syscall.c:53-60 | the loop maps and fills page after page, each to a frame of its own, without disturbing earlier ones; exact frame count, and exact conditions for stopping or faulting |
| Ramdisk.Loader.MapStack | kernel/syscall.c:62-67 | the stack page, if it can be mapped, gets a fresh frame that no image page has |
| Ramdisk.Loader.StackBytes | kernel/syscall.c:63-70 | every address of the page below the stack top returned is backed by the stack frame |
| Ramdisk.PagesOfImage | kernel/syscall.c:53-58 | an image has as many pages as its bytes need |
| Ramdisk.Loader.LoadPage | kernel/syscall.c:53-60 | one round: a fresh frame, never a page table or an earlier page, is mapped and holds its chunk; out of frames and lost map_page told apart |
| Ramdisk.ImageReads | kernel/syscall.c:53-60 | an image in place is the code, read byte by byte through the walk of the processor |
| Ramdisk.ImageUndisturbed | kernel/syscall.c:59 | filling one frame leaves the pages loaded before as they were |
| Ramdisk.StoreElsewhereKeeps | kernel/syscall.c:62-67 | any store to the stack frame leaves the whole image in place |
| Ramdisk.SeenRights | kernel/syscall.c:57-66 | the rights a page mapped for users really has: full in a new slot, those of the directory entry in an old one |
| Ramdisk.OutOfTables | kernel/syscall.c:55-59 | when a map_page is lost for want of a table frame, the load cannot succeed either |
| SchedSpec.RunInv | kernel/process.c:17-205 | after any permitted sequence of schedule, create, fork, exit, wait, sleep, wake and kill - also of the running process -: the queue is duplicate-free and holds exactly the READY slots, at most the current slot runs, the pids of processes are distinct and below next_pid |
| SchedSpec.BoundedWaiting | kernel/process.c:17-53 | the process at position k of the queue starts to run with exactly the (k+1)-th call of the scheduler, whatever permitted calls come in between, and waits until then |
| SchedSpec.WaitAtMost64 | kernel/process.c:9-53 | hence nobody waits for more than 64 calls |
| SchedSpec.StillWaiting | kernel/process.c:17-53 | every call moves a waiting process up by exactly one place, no other event moves it |
| SchedSpec.NextInv | kernel/process.c:37-53 | one call of the scheduler keeps the invariant, the fall-back to slot 0 included |
| SchedSpec.RoundRobin | kernel/process.c:37-53 | a running process that is preempted becomes READY and goes to the end of the queue, and the head of the queue runs; alone it runs on; without a running process the head runs, or slot 0; no other process changes |
| SchedSpec.StaysActive | kernel/process.c:17-205 | over any permitted run a process that is READY or RUNNING stays so unless it exits, waits or sleeps while current, or is killed |
| SchedSpec.PreemptedReturns | kernel/process.c:37-53 | a preempted process waits in the queue and runs again with exactly call number n + 1, n being the length of the queue at preemption |
| SchedSpec.CreateInv | kernel/process.c:88-101 | creating a process keeps it if and only if no slot is free or next_pid does not wrap; reuse of slot 0 and of terminated slots included |
| SchedSpec.CreateDoes | kernel/process.c:88-140 | a process is created in the first slot that is terminated or has no pid, gets next_pid and waits at the end of the queue; nothing else changes |
| SchedSpec.NoneCreated | kernel/process.c:88-101 | without such a slot nothing happens |
| SchedSpec.PidLeftIs | kernel/process.c:88-101 | when pids are left: until next_pid is 0xFFFFFFFF, or while no slot can be reused |
| SchedSpec.LeaveInv | kernel/process.c:143-164 | exit, wait and sleep keep it if and only if the caller is not queued behind another process |
| SchedSpec.LeaveTakes | kernel/process.c:143-164 | exit, wait and sleep take effect if and only if the process dispatched next is another one: the caller is not queued and the fall-back to slot 0 does not pick it again at once |
| SchedSpec.LeaveDoes | kernel/process.c:143-164 | the head of the queue runs, or slot 0, and the caller is left TERMINATED or BLOCKED unless it is itself that process |
| SchedSpec.WakeInv | kernel/process.c:184-189 | add_to_ready_queue keeps the invariant if and only if the process is not queued and has a pid |
| SchedSpec.WakeDoes | kernel/process.c:184-189 | a process woken is READY and last in the queue |
| SchedSpec.KillInv | kernel/process.c:167-176 | kill_process keeps it if and only if its victim does not wait in the queue |
| SchedSpec.KillDoes | kernel/process.c:167-176 | after a kill no slot with that pid, other than 0, is in a state other than TERMINATED, and nothing else has changed |
| SchedSpec.KilledRuns | kernel/process.c:167-176 | an instance: the first process, killed while it waits, runs at the next call of the scheduler |
| SchedSpec.SeatedStep | kernel/process.c:17-205 | the current process runs or is at the head of the queue until it is killed, or woken while others wait, and exactly then no longer; every scheduling call restores that |
| SchedSpec.RunSeated | kernel/process.c:17-205 | hence exit, wait and sleep keep the invariant in every run without these two events |
| Process.ProcessManager.Enqueue | kernel/process.c:17-26 | the walk along the links appends to the FIFO; a slot queued already ends up linked to itself, and no list describes the queue any more |
| PcbLists.SelfLoop | kernel/process.c:17-26 | once a queued slot is linked to itself no list of slots at all describes the links from the head |
| Process.ProcessManager.Dequeue | kernel/process.c:28-34 | takes the head of the FIFO and unlinks it |
| Process.ProcessManager.SchedulerGetNext | kernel/process.c:37-53 | refines the dispatch step of the machine on the linked queue, also without a current process |
| Process.ProcessManager.InitProcessManager | kernel/process.c:66-85 | establishes the invariant in the initial state: slot 0 runs, no process exists |
| Process.ProcessManager.CreateProcessEmpty | kernel/process.c:88-101 | the first reusable slot, cleared, with a new pid and not on the queue; none if all 64 are taken |
| Process.ProcessManager.ForkProcess | kernel/process.c:104-140 | refines creation; every field of the child: the registers of the parent with result 0, its name, descriptors, break and directory - unless it took over the slot of its own parent, which is cleared by then |
| Process.ProcessManager.CreateProcess | kernel/process.c:192-205 | refines creation; every field of the new process; apart from the new slot only links change |
| Process.ProcessManager.ExitProcess | kernel/process.c:143-148 | refines leaving as TERMINATED; exact condition under which the invariant survives |
| Process.ProcessManager.Block | kernel/process.c:151-164 | wait and sleep refine leaving as BLOCKED; exact condition under which the invariant survives |
| Process.ProcessManager.KillProcess | kernel/process.c:167-176 | terminates the first live process with the pid, -1 if there is none; exact condition under which the invariant survives |
| Process.ProcessManager.AddToReadyQueue | kernel/process.c:184-189 | wakes a process; exact condition for the invariant; for a queued process (as after create_process) the slot is linked to itself and no list describes the queue any more |
| Scheduler.Queues.AddToReadyQueue | kernel/scheduler.c:25-37 | appends to the FIFO in constant time with the tail on the last node; exact effect when the process is queued already (everything behind it is lost, or it is linked to itself) or still on the blocked queue |
| Scheduler.Queues.RemoveFromReadyQueue | kernel/scheduler.c:40-63 | takes a process out of any position; the rest keeps its order and the tail stays on the last node or NULL; a process not in the queue has its link cleared, which cuts the blocked queue behind it |
| Scheduler.AroundIs | kernel/scheduler.c:40-63 | removing a process from any place of a queue leaves what is before and behind it in order; cutting there leaves what is before, and it |
| Scheduler.Queues.WakeUp | kernel/scheduler.c:130-153 | terminates and stably partitions the blocked queue in place: ready becomes old ready ++ the due in order, blocked the rest in order, tail on the last node; only links and the states of the woken change |
| Scheduler.WhoWakes | kernel/scheduler.c:130-153 | exactly those wake up that are on the blocked queue, are BLOCKED and whose wake-up time has come |
| Scheduler.Queues.Wake | kernel/scheduler.c:139-148 | one wake-up moves that process from the middle of one list to the end of the other |
| Scheduler.Queues.TimerTick | kernel/scheduler.c:121-153 | the loop of one tick, counter included, is one step of the tick machine; only links and the states of the woken change |
| Scheduler.Queues.Schedule | kernel/scheduler.c:66-106 | a process with time left goes on with one tick less; otherwise the head of the ready queue, or the idle process, is chosen, a running process goes to the end of the queue and gets a new slice; exact condition under which the queues survive |
| Scheduler.ChosenLeaves | kernel/scheduler.c:84-93 | the process at the head of the ready queue is the one chosen and is no longer queued; the idle process stays |
| Scheduler.Queues.TimerTickHandler | kernel/scheduler.c:121-157 | the whole handler: the wake-ups of the tick, then schedule on the queues they leave |
| Scheduler.SortedWakeUps | kernel/scheduler.c:121-153 | over any number of ticks without wrap the wake-ups are the stable sort of the due sleepers by wake-up time, times already past counting as the first tick, appended to the ready queue; the others stay asleep in order |
| WakeOrder.Partition | kernel/scheduler.c:134-152 | due and rest make up the queue: nobody is lost, duplicated or woken early |
| WakeOrder.PartsInOrder | kernel/scheduler.c:134-152 | both parts keep the order of the queue |
| WakeOrder.OneSleeper | kernel/scheduler.c:134-135 | a sleeper is due if and only if it is BLOCKED and its time is not later than the tick |
| WakeOrder.OneMoreTick | kernel/scheduler.c:134-152 | the sleepers due by one tick more, sorted, are those due before, sorted, followed by the newly due in queue order |
| WakeOrder.SortIsStable | kernel/scheduler.c:130-153 | the sort is sorted by key and keeps the order of equal keys |
| WakeOrder.StableSortIsUnique | kernel/scheduler.c:130-153 | there is only one sequence with these two properties |
| Screen.Screen.PutChar | kernel/screen.c:43-76 | after any character the 80 x 25 buffer is exactly the last 25 rows of the unbounded tape; every index stays below 2000; where the cursor goes on the screen for every kind of character |
| Screen.ControlMoves | kernel/screen.c:45-54 | newline, return, tab and backspace write no cell and move the cursor to column 0 of the next row, column 0, the next multiple of 8, one column back within the row |
| Screen.Screen.Scroll | kernel/screen.c:123-139 | all rows move up by one and the last is blank |
| Screen.Screen.Clear | kernel/screen.c:25-35 | a blank screen with the cursor at the origin starts a new tape |
| Screen.Screen.PutStr | kernel/screen.c:79-83 | types the string up to its terminator and reads no further |
| Screen.AppendOnly | kernel/screen.c:43-76 | the tape only grows, and nothing above the row of the cursor ever changes |
| Screen.TextStands | kernel/screen.c:56-72 | text without control characters stands on the tape as written, across line ends and scrolling |
| Screen.CellShows | kernel/screen.c:11-15 | a cell holds character and colour if and only if the character is 7-bit or the colour all ones (char is signed) |
| Screen.Screen.PutDec | kernel/screen.c:102-120 | types the decimal digits of the number, through a buffer of which at most ten places are used |
| Screen.DecimalReadsBack | kernel/screen.c:102-120 | the digits are decimal, evaluate to the number and have no leading zero |
| Screen.DecimalOnTape | kernel/screen.c:102-120 | the characters then on the tape evaluate to the number |
| Screen.TenDigits | kernel/screen.c:108-114 | a 32-bit number has at most ten digits |
| Screen.Screen.PutHex | kernel/screen.c:86-99 | types 0x and the eight hexadecimal digits of the number |
| Screen.EightHexDigits | kernel/screen.c:89-98 | exactly eight digits that evaluate to the number |
| KString.MemMove | kernel/string.c:124-139 | whatever the overlap, the destination holds what the source held before, and nothing else changes |
| KString.StrStr | kernel/string.c:69-86 | the earliest occurrence, or none if and only if there is none; needs nothing of memory beyond the terminators |
| KString.StrCmp | kernel/string.c:36-42 | negative, zero or positive as the strings compare lexicographically by unsigned bytes |
| KString.StrNCmp | kernel/string.c:45-55 | the same for the strings cut off after n bytes, which need no terminator then |
| KString.LessTotal | kernel/string.c:36-42 | that order is total and irreflexive |
| KString.LessTransitive | kernel/string.c:36-42 | and transitive |
| KString.StrNCpy | kernel/string.c:18-33 | the destination holds the string cut off at n and zeros behind it, nothing else changes, for every overlap from below |
| KString.PaddedBytes | kernel/string.c:18-33 | byte by byte: those of the source until its first 0, and 0 from there on |
| KString.PaddedEnds | kernel/string.c:18-33 | the copy is terminated, and then equal to its source, if and only if the string is shorter than n |
| KString.StrLen | kernel/string.c:4-8 | the length of the string before its first 0 |

## Left out

- Kheap.KernelHeap.Krealloc: requires that its copy fits; when it does, and that it overruns the payload otherwise, is stated by HeapRuns.MoveFits and HeapRuns.MoveOverruns, not what the overrun leaves behind.
- Kheap.KernelHeap.Kcalloc: requires that its memset fits; the exact condition is stated by Kheap.CallocRoom, not what an overrun leaves behind.
- Kheap.KernelHeap.Kmalloc: when the new header half overlaps the old one, C also stores through a size taken for a link, at an address below the heap, which is outside the memory modelled.
- Kheap.KernelHeap.Kfree: requires NULL, a live pointer, or one in front of which the header byte says free; for any other pointer Kheap.KernelHeap.MarkFree and Kheap.StaleFree follow C up to its first store (line 177), not through the merge that follows, which goes by whatever bytes it takes for links.
- Ramdisk.Loader.Load: requires the image to end at or below the stack page; reads and writes go through the page tables, not through a TLB.
- Scheduler.Queues.TimerTickHandler: update_ticks and the switch to the process chosen are not part of this model; init_process, which is declared nowhere, and the current process are parameters.
- Scheduler.Queues.Schedule: yield, which marks the current process READY and calls it, is not modelled; schedule and yield never set RUNNING, so no run invariant rests on them.
- Scheduler.SortedWakeUps: assumes that the 32-bit tick counter does not wrap; TimerTick itself wraps it.
- Process.ProcessManager.CreateProcess: requires a name of at most 31 characters; strcpy of a longer one would write behind the field.
- KString.StrNCpy: excludes a destination that overlaps the bytes still to be read, for which C promises nothing.
- strcpy, strchr, memcmp, memset and memcpy of kernel/string.c are not modelled.
- init_kheap before its second initialisation, its frame-mapping loop, and heap expansion (a TODO in the source).
- alloc_frames (one frame, no contiguity promised), set_process_priority, the rest of kernel/syscall.c, kernel/fs.c, kernel/device.c, kernel/console.c, kernel/kernel.c and user programs: stubs, simple look-ups or interactive loops.
- The context switch itself, interrupts, timers, disks, boot code: assembly and port I/O; a context switch is the change of the current process.
- PageDirectory: its two C arrays of 1024 elements are fields of sequence type that the methods reassign; kernel/paging.c shares no part of them.
- All screen messages, the hardware cursor and show_ functions: output only.
