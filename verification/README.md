# Verified model of the RedLeaf core

RedLeaf is a microkernel written in Rust. This project models the parts of it whose correctness rests on
invariants rather than on single functions, and proves those invariants in Dafny 4.11. Run
`dafny verify dfyconfig.toml` to check everything.

| files | component |
|---|---|
| `Dyadic`, `Bits`, `Chains`, `Buddy` | the buddy allocator for physical frames, its lists threaded through free memory |
| `PageTables`, `VSpace` | four-level page tables (section 4.5 of the Intel 64 and IA-32 SDM, volume 3A): mapping, guard pages, rights |
| `RunQueue`, `Scheduler` | the two-queue priority scheduler of every CPU and the migration of threads |
| `RwLock` | the reader-writer spin lock, as an interleaving of atomic steps |
| `Inode`, `Image`, `Mkfs`, `Build` | the xv6 file-system image builder, from bytes to the whole run |
| `Containment`, `SharedHeap`, `Deque` | reclamation on the cross-domain shared heap, ownership marks, the ring deque |
| `Primes`, `Maglev` | the consistent-hashing table, with the number theory it needs |
| `Checksum` | the IPv4 header checksum and the edits that must keep it |
| `Common`, `Collections`, `Arith` | shared definitions |

## How the model relates to the code

- State that the code updates in place is a class with the same fields; a loop is a loop. Ghost fields hold what
  the concrete fields stand for (free blocks, the place of every table, the place of every thread, the slot that
  owns a disk block), and the class invariant ties the two together.
- A panic, a failed assertion or an index out of range is a `false` or `None` result. Nothing is claimed about the
  state after it, except where a contract says so.
- `usize` and `u64` arithmetic is unbounded where the values are bounded by the invariant. The lock word, `i8` and
  `u32` casts and the one's complement sum are written out at their width.
- Buddy: the region starts on a 2 MiB boundary above 0, has between one page and 2^39 bytes, and a frame is freed
  once, with a layout of the order it was allocated with. The code keeps the whole region's size although only its
  largest power of two is managed; the proof shows that a buddy address outside the root block is never on a list.
- Page tables: addresses are below 2^48. The three mapping loops of `map_generic` (1 GiB, 2 MiB and 4 KiB) are one
  method with the depth as a parameter, as they differ only in the entry size and in what a present entry means.
  The frames the page allocator will return are a parameter; running out of them is a failure. The loops over
  1 GiB and 2 MiB entries panic on any present entry, also on a table through which nothing is mapped
  (`EmptyTableBlocks`), so an unmapped range is not always one that can be mapped; `MapGeneric` says which can.
  Rights are those the processor computes along the whole walk. Changing rights to `None` leaves the page mapped,
  readable and executable for the kernel, so there and only there the rights are not what the action says.
- Scheduler: `schedule` and the setters are atomic steps. Thread identifiers are the code's plus one, so that 0 is
  the empty link. The setters are not applied to idle threads. An affinity is compared with the number of CPUs by
  its low 32 bits only, and `SetAffinity` gives the exact condition under which that does no harm.
- Lock: atomic steps are sequentially consistent, and the `force_*` functions are not used. Exclusion needs the
  number of readers and pending read attempts to fit the word: a step keeps the invariant exactly when the count
  it leads to fits, and `OverflowBreaksExclusion` gives a run of 2^62 readers after which exclusion fails.
- Image builder: a disk that is full makes an append fail at the allocation, where the code panics one read later.
  `alloc_inode` has no check for the end of the inode area (the superblock announces 200 inodes). Inodes 256 to 319
  go into the block of the bitmap: the image is well formed with them until the bitmap is written, and then exactly
  they are lost (`AllocDiskBlock`, `InodeInBitmap`). Inode 320, the one of the 319th file, overwrites the start of
  the root directory (`OneFileTooMany`). Rounding up the size of the root directory keeps the image well formed
  exactly when the size is not a multiple of the block size already, which a run with 254 files makes it; otherwise
  the directory claims a block it does not have.
- Shared heap: the addresses the memory provider returns are parameters, distinct from every live block. What an
  object contains is an arbitrary graph, also with cycles, shared and dangling references. The constructors leave
  the marks of what is put into an object as they are, unlike `set`; `NewObject` and `MoveTo` say exactly when the
  ownership discipline survives, and `MarkedDangles` what happens when it does not.
- Maglev: hash values are arbitrary numbers. Table entries are bytes, so the table is the intended one exactly for at
  most 128 nodes; with more, no index is out of range while it is built, but the nodes from 128 on get no flow. The
  connection cache may evict anything; a hit returns what was inserted.
- Checksum: `swap_udp_ips` keeps a valid checksum valid for every header length but 16 bytes, where the header ends
  between the two addresses; `SwapKeepsValid` gives the exact condition and `SwapCanBreak` a frame that breaks.

## Model

| member | source | states |
|---|---|---|
| `Bits.NextPow2IsLeast` | kernel/src/memory/buddy.rs:206-241 | rounding up gives the least power of two that is large enough, and the logarithm names it |
| `Bits.XorFlipsIndex` | kernel/src/memory/buddy.rs:306-322 | flipping one bit of an offset moves to the neighbouring block of that order |
| `Buddy.BuddyOfIsBuddy` | kernel/src/memory/buddy.rs:306-322 | the address found by exclusive or is the buddy block, and the smaller of the two addresses is the merged block |
| `Buddy.RoundedSize` | kernel/src/memory/buddy.rs:206-241 | the size a request is rounded to is a power-of-two number of pages, and the logarithm gives its order |
| `Buddy.RoundedIsLeast` | kernel/src/memory/buddy.rs:206-230 | the size a request is rounded to is the least power of two that holds its size, its alignment and a page |
| `Buddy.LayoutOrder` | kernel/src/memory/buddy.rs:232-241 | the order of a request is that of the least sufficient size, if the region holds it |
| `Buddy.AddrAligned` | kernel/src/memory/buddy.rs:86-113 | a block on a 2 MiB aligned base meets every requested alignment up to 2 MiB |
| `Buddy.RootOrder` | kernel/src/memory/buddy.rs:63-77 | the managed root block is the largest power of two below the region size, or the region if that is one page |
| `Buddy.FreePagesAreTheRest` | kernel/src/memory/buddy.rs:86-146 | a page of the root block is free exactly when no outstanding frame holds it |
| `Buddy.FramesDisjoint` | kernel/src/memory/buddy.rs:86-146 | outstanding frames lie inside the root block and do not overlap |
| `Buddy.NaturallyAligned` | kernel/src/memory/buddy.rs:306-322 | the offset of every block is a multiple of its size |
| `Buddy.Granted` | kernel/src/memory/buddy.rs:86-113 | a block cut from a free block is a free run of the rounded size, aligned as requested |
| `Buddy.NoFreeRun` | kernel/src/memory/buddy.rs:86-113 | when all free blocks are smaller than the request no free, naturally aligned run of that size exists, because buddies are never both free |
| `Dyadic.Split` | kernel/src/memory/buddy.rs:284-302 | replacing a block by its halves keeps the tiling of the root block |
| `Dyadic.Join` | kernel/src/memory/buddy.rs:118-146 | replacing two buddies by their parent keeps the tiling of the root block |
| `Dyadic.FreeRunInOneBlock` | kernel/src/memory/buddy.rs:86-113 | in a coalesced free set, every free naturally aligned run lies inside one free block |
| `Dyadic.AllFree` | kernel/src/memory/buddy.rs:118-146 | a coalesced tiling that is all free is the single root block |
| `Chains.Acyclic` | kernel/src/memory/buddy.rs:244-280 | a null-terminated chain visits every node once |
| `Chains.Unlink` | kernel/src/memory/buddy.rs:263-280 | redirecting one link removes exactly one node |
| `Buddy.BuddyFrameAllocator.constructor` | kernel/src/memory/buddy.rs:161-200 | an allocator with empty lists |
| `Buddy.BuddyFrameAllocator.FreeListInsert` | kernel/src/memory/buddy.rs:255-259 | the block joins the list of its order; all lists stay chains through memory and nothing else changes |
| `Buddy.BuddyFrameAllocator.OnOneList` | kernel/src/memory/buddy.rs:244-280 | a block address is on one list only |
| `Buddy.BuddyFrameAllocator.FreeListPop` | kernel/src/memory/buddy.rs:244-252 | gives a free block of the order, or none exactly when there is none |
| `Buddy.BuddyFrameAllocator.Locate` | kernel/src/memory/buddy.rs:263-280 | following the links finds the address exactly when it is listed, and the word that points at it |
| `Buddy.BuddyFrameAllocator.FreeListRemove` | kernel/src/memory/buddy.rs:263-280 | removes the block exactly when it is free, and leaves the other lists intact |
| `Buddy.BuddyFrameAllocator.SplitFreeBlock` | kernel/src/memory/buddy.rs:284-302 | what remains has the wanted order, starts at the same address and lies in the original block; the rest is free |
| `Buddy.BuddyFrameAllocator.AddMemory` | kernel/src/memory/buddy.rs:63-77 | accepts the first region only, and puts its root block on a list as the only free block |
| `Buddy.BuddyFrameAllocator.Allocate` | kernel/src/memory/buddy.rs:86-113 | succeeds if and only if the alignment is at most 2 MiB and a free naturally aligned run exists of the least power of two that holds size, alignment and a page; the frame has that size, is new and aligned; failure changes nothing |
| `Buddy.BuddyFrameAllocator.Deallocate` | kernel/src/memory/buddy.rs:118-146 | a frame of the least size for its layout is no longer outstanding, its block always ends up on a list, no two buddies are free together, and with no frame outstanding the free set is the root block |
| `Buddy.BuddyFrameAllocator.Merge` | kernel/src/memory/buddy.rs:124-146 | a block is merged with its buddy as long as that is free, and what results is put on a list |
| `Buddy.BuddyFrameAllocator.NoBuddyAtRoot` | kernel/src/memory/buddy.rs:306-322 | at the root order no buddy is ever free, although the kept region size may be larger |
| `Buddy.BuddyFrameAllocator.ClientWrite` | kernel/src/memory/buddy.rs:86-113 | a client may write anything into its frame without disturbing a list |
| `Buddy.BuddyFrameAllocator.BackToRoot` | kernel/src/memory/buddy.rs:63-146 | once every frame is back, the lists are what they were after adding the region |
| `PageTables.LinkKeepsTree` | kernel/src/arch/vspace.rs:640-668 | hanging a zeroed table under an absent entry keeps the tables a tree: none shared, none lost |
| `PageTables.LinkSameLeaves` | kernel/src/arch/vspace.rs:640-668 | hanging a zeroed table changes no translation |
| `PageTables.FirstStop` | kernel/src/arch/vspace.rs:670-701 | where a walk first meets an absent or leaf entry decides the translation |
| `PageTables.EffectiveIsLast` | kernel/src/arch/vspace.rs:639-652 | entries that lead to tables grant everything, so the rights the processor computes along a walk are those of its last entry |
| `VSpaces.RightsAsShown` | kernel/src/arch/vspace.rs:60-134 | the flags of an action are the letters the kernel prints for it: writable, user, executable, uncached; `None` alone does not disable execution |
| `VSpaces.GrantedExactly` | kernel/src/arch/vspace.rs:60-112 | a page with the flags of an action may be written, used by users and executed exactly as the action says, if and only if the action is not `None` |
| `VSpaces.ResolveIsTranslate` | kernel/src/arch/vspace.rs:670-701 | the nested lookups compute the address given by the leaf at the end of the path |
| `VSpaces.UnderEntry` | kernel/src/arch/vspace.rs:204-410 | the addresses under one entry are exactly those that share its path |
| `VSpaces.FillLeaf` | kernel/src/arch/vspace.rs:255-400 | writing a leaf at an absent entry maps exactly the addresses under it |
| `VSpaces.ResolveAfterMap` | kernel/src/arch/vspace.rs:204-410 | after a mapping, previously unmapped addresses of the range resolve to base plus offset and all others resolve as before |
| `VSpaces.VSpace.RewriteEntry` | kernel/src/arch/vspace.rs:444-559 | replacing a page-table entry gives the addresses of that page the new entry's translation, or none if it is absent, and leaves every other address its translation and every walk its large pages |
| `VSpaces.VSpace.constructor` | kernel/src/arch/vspace.rs:144-150 | an empty root table resolves nothing |
| `VSpaces.VSpace.NewTable` | kernel/src/arch/vspace.rs:640-653 | a new table keeps the tree, open links, every translation and the freshness of the range, or the frames are exhausted |
| `VSpaces.VSpace.Descend` | kernel/src/arch/vspace.rs:225-377 | the entry leads to a table afterwards, with no translation changed; a large page in the way is a failure; in a fresh range only lack of frames is |
| `VSpaces.VSpace.FillEntry` | kernel/src/arch/vspace.rs:255-400 | one leaf is written and maps its addresses; fails if and only if it is a 1 GiB or 2 MiB entry that is present; a present 4 KiB entry is left alone |
| `VSpaces.VSpace.FillTable` | kernel/src/arch/vspace.rs:255-400 | one mapping loop maps exactly the bytes it reports; the 1 GiB and 2 MiB loops fail if and only if some entry among those the table takes of the range is present |
| `VSpaces.EmptyTableBlocks` | kernel/src/arch/vspace.rs:253-327 | a table in the place of a large page counts as present although no address under it is mapped |
| `VSpaces.FreshExtent` | kernel/src/arch/vspace.rs:238-341 | in a fresh range an absent first entry means that all entries the loop would fill are absent |
| `VSpaces.LinkKeepsFresh` | kernel/src/arch/vspace.rs:295-367 | a table hung on the way to the range leaves it fresh |
| `VSpaces.VSpace.MapGeneric` | kernel/src/arch/vspace.rs:204-410 | when it returns, every unmapped address of the range is mapped to base plus offset, may be written, used and executed exactly as the action says, and every earlier entry is unchanged; the first page is the largest that fits; also on failure no translation is lost; a fresh range fails only for lack of frames; the recursion terminates |
| `VSpaces.VSpace.MapFrom` | kernel/src/arch/vspace.rs:204-410 | the same from a given table down; the first page is the largest that fits from there |
| `VSpaces.ChoosesPage` | kernel/src/arch/vspace.rs:238-321 | the test on presence, alignment and size picks the largest page that fits |
| `VSpaces.VSpace.FindPage` | kernel/src/arch/vspace.rs:444-559 | the presence checks succeed exactly when the page is mapped |
| `VSpaces.VSpace.SetGuardPage` | kernel/src/arch/vspace.rs:444-500 | exactly one page becomes unresolvable, and true is returned exactly when it was mapped |
| `VSpaces.VSpace.MapChangeProt` | kernel/src/arch/vspace.rs:503-559 | the rights of exactly one page change, to what the action says if and only if it is not `None`, and its physical address does not |
| `VSpaces.VSpace.MapChangeProtRange` | kernel/src/arch/vspace.rs:423-441 | all pages up to the first unmapped one, and no others, get the rights the action says (unless it is `None`), and no translation changes its address |
| `RunQueue.AlwaysDisjoint` | kernel/src/thread.rs:554-629 | in every history no thread is on the active and the passive queue at once |
| `RunQueue.BoundedBypass` | kernel/src/thread.rs:563-629 | while a queued thread may run, no other thread is returned more than twice before it |
| `RunQueue.PriorityOrder` | kernel/src/thread.rs:502-629 | between two flips threads are taken from lists of non-increasing priority, and no thread is left on a list above the one served before |
| `RunQueue.StaysHonest` | kernel/src/thread.rs:502-603 | a thread whose priority does not change is on the list of its priority as long as it is queued, whatever is put, passed over or flipped |
| `RunQueue.PriorityServed` | kernel/src/thread.rs:502-629 | a thread that is returned has a priority no lower than any thread left on that queue, among threads whose priority was not changed since they were put |
| `Scheduler.NextActive` | kernel/src/thread.rs:563-629 | a thread found on the active queue makes the step of the abstract queues |
| `Scheduler.NextFlipped` | kernel/src/thread.rs:606-629 | looking through both queues makes the step of the abstract queues |
| `Scheduler.Kernel.constructor` | kernel/src/thread.rs:952-976 | after initialisation there are the idle threads and no others, and every CPU runs its own |
| `Scheduler.Kernel.Push` | kernel/src/thread.rs:478-488 | the thread becomes the head of the list |
| `Scheduler.Kernel.Pop` | kernel/src/thread.rs:490-499 | takes the head of the list, or nothing exactly when the list is empty |
| `Scheduler.Kernel.PutThread` | kernel/src/thread.rs:502-511 | the thread is on the list of its priority and lists above the highest stay empty |
| `Scheduler.Kernel.GetHighest` | kernel/src/thread.rs:514-528 | gives a thread of the highest non-empty list, or nothing exactly when the queue is empty; it terminates |
| `Scheduler.Kernel.GetNext` | kernel/src/thread.rs:563-603 | gives a thread that may run, or nothing when the queue has none; threads it passes over move to the other queue, to the list of their priority |
| `Scheduler.Kernel.Next` | kernel/src/thread.rs:615-629 | nothing is returned exactly when neither queue holds a thread that may run; the returned thread was on the list of the recorded priority and no thread is left above it; apart from it, threads only move between the two queues |
| `Scheduler.Kernel.TakeNext` | kernel/src/thread.rs:615-629 | the same as a step of the machine, recorded in the history of the CPU |
| `Scheduler.Kernel.PutInPassive` | kernel/src/thread.rs:554-561 | the thread is on the passive queue of this CPU, on the list of its priority, and the history records it |
| `Scheduler.Kernel.TakeMoving` | kernel/src/thread.rs:193-203 | takes a thread off the rebalance queue |
| `Scheduler.Kernel.RebalanceThread` | kernel/src/thread.rs:180-234 | the thread is on the rebalance queue of its CPU, which is signalled |
| `Scheduler.Kernel.ProcessRbQueue` | kernel/src/thread.rs:632-653 | every thread sent to this CPU is on its passive queue, on the list of its priority, runnable; no other record changes and the signal is cleared; it terminates |
| `Scheduler.Kernel.Accept` | kernel/src/thread.rs:716-719 | after the test of the signal no thread is left waiting for this CPU |
| `Scheduler.Kernel.Pick` | kernel/src/thread.rs:711-770 | the thread to run is Runnable and not to be moved; when there is none, no queued thread may run; threads leave this CPU only if they are marked to be moved; it terminates |
| `Scheduler.Kernel.SwitchTo` | kernel/src/thread.rs:770-795 | the picked thread is current, and the old one is on the list of its priority or back in the idle slot |
| `Scheduler.Kernel.TakeIdle` | kernel/src/thread.rs:541-552 | the idle slot is filled whenever it is needed, so the panic for a missing idle thread is unreachable |
| `Scheduler.Kernel.Dispatch` | kernel/src/thread.rs:711-795 | afterwards another, Runnable thread is current, or the old one is and no queued thread may run, or the idle thread and no queued thread may run |
| `Scheduler.Kernel.Schedule` | kernel/src/thread.rs:711-795 | every thread sent to this CPU is accepted and Runnable, no other record changes, threads leave only if they are marked to be moved; the old thread goes on only if no other may run, and otherwise is put on the list of its priority; current thread, idle slot and queues of every other CPU are left alone |
| `Scheduler.Kernel.CreateThread` | kernel/src/thread.rs:834-842 | a new Runnable thread is on the passive queue of the creating CPU, on the list of its priority |
| `Scheduler.Kernel.SetState` | kernel/src/thread.rs:911-933 | Waiting and Runnable are accepted, and the invariant is kept |
| `Scheduler.Kernel.SetPriority` | kernel/src/thread.rs:888-909 | the invariant, with empty lists above the highest, survives a change of a queued thread |
| `Scheduler.Kernel.SetAffinity` | kernel/src/thread.rs:862-886 | the thread is marked to be moved if the low 32 bits name a CPU; the invariant is kept if and only if the affinity is rejected or names a CPU, and otherwise there is no queue to move the thread to |
| `Scheduler.Kernel.OnePlace` | kernel/src/thread.rs:180-653 | a thread is on at most one list, once, and then it is nobody's current or idle-slot thread |
| `Scheduler.Kernel.SomePlace` | kernel/src/thread.rs:711-795 | a thread that is not idle is current on one CPU or on a list |
| `Scheduler.Kernel.IdleThread` | kernel/src/thread.rs:541-552 | idle threads are never queued, and the idle slot is filled whenever another thread is current |
| `Scheduler.Kernel.NoStarvation` | kernel/src/thread.rs:502-629 | over every run and on every CPU, the bounded bypass holds |
| `Scheduler.Kernel.PriorityRespected` | kernel/src/thread.rs:502-629 | over every run and on every CPU, between flips threads are taken from lists of non-increasing priority and none is left on a higher list |
| `Scheduler.Kernel.PrioritiesServed` | kernel/src/thread.rs:502-629 | over every run and on every CPU, a thread that is returned has a priority no lower than any it leaves on that queue, among threads whose priority was not changed since they were put |
| `RwLock.StepInv` | lib/core/spin-rs/src/rw_lock.rs:198-213 | an atomic step keeps the word equal to writer bit, upgrade bit and four times the readers and pending attempts if and only if the count it leads to fits the word |
| `RwLock.RunInv` | lib/core/spin-rs/src/rw_lock.rs:198-551 | that invariant holds in every state of every interleaving |
| `RwLock.Exclusion` | lib/core/spin-rs/src/rw_lock.rs:240-494 | a write guard is the only guard; an upgradeable guard is the only one of its kind and never meets a writer |
| `RwLock.Released` | lib/core/spin-rs/src/rw_lock.rs:526-551 | once all guards and attempts are gone the word is 0: failed upgradeable attempts leak nothing |
| `RwLock.NoNewGuards` | lib/core/spin-rs/src/rw_lock.rs:198-339 | while a writer or an upgradeable guard exists every attempt to acquire fails |
| `RwLock.Acquires` | lib/core/spin-rs/src/rw_lock.rs:198-395 | in every state of every run: an upgrade succeeds if and only if no reader and no read attempt is left, a write if and only if nobody is there, a read or upgradeable read if and only if there is no writer and no upgradeable guard; a failed attempt leaves the guards as they were |
| `RwLock.WordTells` | lib/core/spin-rs/src/rw_lock.rs:198-395 | the word is 0, or shows no lock bit, or the upgrade bit alone, exactly when nobody is there, or no writer and upgrader, or no reader beside the upgrader |
| `RwLock.Releases` | lib/core/spin-rs/src/rw_lock.rs:450-551 | dropping a guard removes it, and a downgrade leaves a read guard |
| `RwLock.Enabled` | lib/core/spin-rs/src/rw_lock.rs:198-551 | what is held can be given up, and what is not held can be tried for |
| `RwLock.DropAssertions` | lib/core/spin-rs/src/rw_lock.rs:526-551 | the debug assertions of the three guard destructors hold |
| `RwLock.WriterBesideReaders` | lib/core/spin-rs/src/rw_lock.rs:239-258 | beside n readers and nobody else a writer gets in if and only if n is a multiple of 2^62 |
| `RwLock.OverflowBreaksExclusion` | lib/core/spin-rs/src/rw_lock.rs:198-213 | a run of 2^62 readers wraps the word and lets a writer in beside them |
| `Inode.WriteThenRead` | tools/rv6-mkfs/src/layer.rs:25-33 | a number written to a block is read back, and numbers elsewhere are not disturbed |
| `Inode.EntryOfSet` | tools/rv6-mkfs/src/layer.rs:25-37 | updating one entry of an index table changes that entry only |
| `Inode.EntryBytes` | tools/rv6-mkfs/src/layer.rs:25-37 | the four bytes of an entry of an index table, low byte first |
| `Inode.InodeRoundTrip` | tools/rv6-mkfs/src/inode.rs:61-113 | an inode written out is read back unchanged |
| `Inode.InodeLayout` | tools/rv6-mkfs/src/inode.rs:92-113 | the bytes of an inode at their offsets, low byte first: type code, device numbers, links, size and addresses |
| `Inode.ToBytes` | tools/rv6-mkfs/src/inode.rs:92-113 | filling the buffer field by field gives the encoding |
| `Inode.FromBytes` | tools/rv6-mkfs/src/inode.rs:61-90 | reading field by field gives the decoding; an unknown type is a failure |
| `Image.AllocInInode` | tools/rv6-mkfs/src/fs.rs:152-165 | giving a block to an empty slot of an inode keeps every block referenced by exactly one slot |
| `Image.AllocInTable` | tools/rv6-mkfs/src/fs.rs:166-200 | giving a block to an empty entry of an index table keeps every block referenced by exactly one slot |
| `Image.AllocKeepsData` | tools/rv6-mkfs/src/fs.rs:148-200 | allocating a block changes no byte of any file |
| `Image.SizeBound` | tools/rv6-mkfs/src/fs.rs:226-229 | files are smaller than the disk, so sizes fit their 32 bits |
| `Image.ContentAt` | tools/rv6-mkfs/src/fs.rs:148-200 | byte k of a file is in the block named by a direct address, or through the table at address 12 and one of the tables it refers to |
| `Image.AppendStep` | tools/rv6-mkfs/src/fs.rs:148-225 | one turn of the append loop adds the chunk to the end of the file, changes no other file and keeps the image well formed |
| `Mkfs.InodeArea` | tools/rv6-mkfs/src/fs.rs:45-47 | the block of an inode is in the inode area exactly for numbers below 256, and among the reserved blocks exactly below 320 |
| `Mkfs.InodePlace` | tools/rv6-mkfs/src/fs.rs:45-47 | inode n is the n-th 64 bytes of the area that starts at block 32 |
| `Mkfs.StoreInode` | tools/rv6-mkfs/src/fs.rs:89-101 | storing one inode puts it in place and disturbs no other stored inode |
| `Mkfs.MetaWrite` | tools/rv6-mkfs/src/fs.rs:260-277 | writing a reserved block disturbs no file and keeps the image as well formed as it was |
| `Mkfs.InodeOverData` | tools/rv6-mkfs/src/fs.rs:89-128 | from number 320 on, an inode that lands in the contents of a file replaces 64 bytes of it, which are kept if and only if they were that inode already |
| `Mkfs.SpaceTaken` | tools/rv6-mkfs/src/fs.rs:148-225 | the free blocks consumed are exactly those the growth of the file calls for, index tables included |
| `Mkfs.BitmapExact` | tools/rv6-mkfs/src/fs.rs:57-87 | the final bitmap marks the reserved blocks and the blocks some slot refers to, and no others |
| `Mkfs.BitmapOverInodes` | tools/rv6-mkfs/src/fs.rs:57-87 | after the bitmap is written an inode can be read back if and only if its number is below 256 |
| `Mkfs.InodeInBitmap` | tools/rv6-mkfs/src/fs.rs:57-128 | inode 256 leaves the image well formed, and writing the bitmap destroys it and no other |
| `Mkfs.MarkBits` | tools/rv6-mkfs/src/fs.rs:57-87 | setting the bits one at a time marks exactly the first ones |
| `Mkfs.RoundedGood` | tools/rv6-mkfs/src/main.rs:59-66 | rounding a size up keeps the image well formed if and only if the size was not a multiple of the block size |
| `Mkfs.FSHandler.constructor` | tools/rv6-mkfs/src/main.rs:34-43 | a zeroed disk with the reserved blocks set aside is well formed |
| `Mkfs.FSHandler.ReadInode` | tools/rv6-mkfs/src/fs.rs:103-114 | reads the inode as it was last written |
| `Mkfs.FSHandler.WriteInode` | tools/rv6-mkfs/src/fs.rs:89-101 | writes the encoded inode to its place |
| `Mkfs.FSHandler.AllocInode` | tools/rv6-mkfs/src/fs.rs:116-128 | the next number with a fresh inode; fails exactly beyond the end of the disk; below 320 the image stays well formed with an empty file more and no other changed |
| `Mkfs.FSHandler.EnsureAddress` | tools/rv6-mkfs/src/fs.rs:152-165 | the slot refers to a block afterwards, taken from the free ones if it was empty |
| `Mkfs.FSHandler.EnsureEntry` | tools/rv6-mkfs/src/fs.rs:166-200 | the table entry refers to a block afterwards, taken from the free ones if it was empty |
| `Mkfs.FSHandler.FindSector` | tools/rv6-mkfs/src/fs.rs:150-200 | finds or allocates the block and its index tables; fails exactly when the disk is full |
| `Mkfs.FSHandler.AppendChunk` | tools/rv6-mkfs/src/fs.rs:148-225 | adds a chunk at the end of the file; fails exactly when the disk is full |
| `Mkfs.FSHandler.AppendDataToInode` | tools/rv6-mkfs/src/fs.rs:130-230 | the file grows by exactly the data and no other file changes; fails if and only if the blocks it calls for are not there |
| `Mkfs.FSHandler.RoundSize` | tools/rv6-mkfs/src/main.rs:59-66 | the root directory keeps its entries; the image stays well formed if and only if the size was not a multiple of the block size |
| `Mkfs.FSHandler.AllocDiskBlock` | tools/rv6-mkfs/src/fs.rs:57-87 | exactly the first blocks are marked; fails if and only if they are more than the bitmap has bits; no file changes, and the inodes left on the disk are those below 256 |
| `Build.AppendRoot` | tools/rv6-mkfs/src/main.rs:70-86 | the root directory holds its two entries and starts in the first data block |
| `Build.DirectoryEntries` | tools/rv6-mkfs/src/fs.rs:285-315 | the bytes of the root directory: `.` and `..`, and for every file its inode number and its name filled up with zeroes |
| `Build.AppendContents` | tools/rv6-mkfs/src/main.rs:114-123 | the contents are appended buffer by buffer; fails if and only if they do not fit |
| `Build.AppendFile` | tools/rv6-mkfs/src/main.rs:88-124 | the file and its directory entry are added; fails if and only if the name is not acceptable or they do not fit |
| `Build.MakeImage` | tools/rv6-mkfs/src/main.rs:24-67 | the whole run succeeds if and only if names are acceptable and everything fits; then every file is in the image as given, the root lists them all, the bitmap marks the blocks in use, the super block is in block 1 and the log is zero, the inodes on the disk are those below 256, and the image is well formed if and only if the root directory does not fill whole blocks |
| `Build.AllReadable` | tools/rv6-mkfs/src/main.rs:46-67 | after a run every inode can be read back if and only if there are at most 254 files |
| `Build.OneFileTooMany` | tools/rv6-mkfs/src/main.rs:88-107 | the inode of the 319th file replaces the first four entries of the root directory |
| `Containment.ReclaimsExactly` | kernel/src/heap.rs:59-116 | a reclamation removes exactly what is reachable from its roots, for any graph |
| `Containment.ReclaimsUnique` | kernel/src/heap.rs:86-116 | the outcome does not depend on the order in which objects are visited |
| `Containment.OneOwner` | interface/src/rref/rref_array.rs:48-59 | under well-formed ownership an object is reachable from one marked object only |
| `Containment.OthersUntouched` | kernel/src/heap.rs:86-116 | dropping a domain leaves alone what another domain owns, directly or through containment |
| `Containment.NothingDangles` | kernel/src/heap.rs:86-116 | no object that is left contains one that was removed |
| `Containment.MarkedDangles` | interface/src/rref/rref_array.rs:19-24 | a contained object that kept the mark of a domain is gone when that domain ends, while its container in another domain stays |
| `Containment.DropIsExact` | kernel/src/heap.rs:86-116 | dropping a domain removes exactly its objects and what they contain, and ownership stays well formed |
| `Containment.PutKeeps` | interface/src/rref/rref_array.rs:56-59 | putting an object into an array, marked 0, keeps ownership well formed |
| `Containment.TakeKeeps` | interface/src/rref/rref_array.rs:48-54 | taking an object out, marked with the current domain, keeps ownership well formed |
| `Containment.MarkKeeps` | interface/src/rref/rref.rs:98-105 | changing a mark keeps ownership well formed if and only if it becomes 0 or the object is not contained |
| `Containment.NewKeeps` | interface/src/rref/rref_array.rs:19-24 | a new object keeps ownership well formed if and only if what is put into it is marked 0 and in no other object |
| `SharedHeap.Heap.constructor` | kernel/src/heap.rs:10-13 | an empty table with no live block |
| `SharedHeap.Heap.AllocHeap` | kernel/src/heap.rs:38-57 | succeeds if and only if the type is registered; the live blocks are exactly the three of every table entry |
| `SharedHeap.Heap.NewObject` | interface/src/rref/rref.rs:36-66 | the new object carries the mark of its domain and the given contents; ownership stays well formed if and only if the contents are marked 0 already and in no other object |
| `SharedHeap.Heap.MoveTo` | interface/src/rref/rref.rs:100-109 | changes the mark of that object only; ownership stays well formed if and only if the mark becomes 0 or the object is not contained |
| `SharedHeap.Heap.Store` | interface/src/rref/rref_array.rs:56-59 | the object is contained and marked 0; ownership stays well formed |
| `SharedHeap.Heap.Replace` | interface/src/rref/rref_array.rs:56-59 | over a full slot: what the slot held is reclaimed with everything reachable from it, the new object is contained and marked 0, and ownership stays well formed |
| `SharedHeap.Heap.Take` | interface/src/rref/rref_array.rs:48-54 | the object is no longer contained and carries the current domain; ownership stays well formed |
| `SharedHeap.Heap.Release` | kernel/src/heap.rs:71-81 | the three blocks are live when they are released, so none is released twice |
| `SharedHeap.Heap.Drop` | interface/src/rref/traits.rs:25-39 | cleanup visits every contained reference and reclaims what is reachable from them |
| `SharedHeap.Heap.DeallocHeap` | kernel/src/heap.rs:59-84 | reclaims what is reachable from the object and nothing else, for any graph; it terminates because the entry is removed first |
| `SharedHeap.Heap.Retain` | kernel/src/heap.rs:86-98 | takes exactly the objects of the domain out of the table, in any order |
| `SharedHeap.Heap.DropDomain` | kernel/src/heap.rs:86-116 | reclaims what is reachable from the objects of the domain and nothing else, each block released once |
| `Deque.RRefDeque.constructor` | interface/src/rref/rref_deque.rs:21-29 | an empty deque |
| `Deque.RRefDeque.Get` | interface/src/rref/rref_array.rs:48-54 | takes the reference out and marks it with the current domain |
| `Deque.RRefDeque.Set` | interface/src/rref/rref_array.rs:56-59 | stores the reference, marked 0 |
| `Deque.RRefDeque.Len` | interface/src/rref/rref_deque.rs:56-68 | the number of elements, also when full and when empty |
| `Deque.RRefDeque.PushBack` | interface/src/rref/rref_deque.rs:70-77 | the element is added at the end, marked 0, or given back when the deque is full |
| `Deque.RRefDeque.PopFront` | interface/src/rref/rref_deque.rs:79-85 | the first element is taken and carries the current domain, or there is none |
| `Deque.RRefDeque.Iterate` | interface/src/rref/rref_deque.rs:87-125 | the iterator visits the elements in queue order |
| `Deque.RRefDeque.Perform` | interface/src/rref/rref_deque.rs:56-125 | every run of pushes and pops gives the results of the bounded queue |
| `Primes.Euclid` | domains/lib/libbenchnet/src/maglev.rs:78-111 | a prime that divides a product divides one of the factors, which makes skips invertible |
| `Primes.TableSizePrime` | domains/lib/libbenchnet/src/maglev.rs:37 | the table size 65537 is prime |
| `Maglev.PermutationIsOne` | domains/lib/libbenchnet/src/maglev.rs:105-111 | for a prime table size every preference list holds every slot exactly once |
| `Maglev.Preferences` | domains/lib/libbenchnet/src/maglev.rs:78-111 | a preference list starts at the second hash and goes on in steps given by the first |
| `Maglev.FindsFree` | domains/lib/libbenchnet/src/maglev.rs:131-148 | while a slot is free the search for one stays inside the preference list |
| `Maglev.TurnTakes` | domains/lib/libbenchnet/src/maglev.rs:131-148 | in every turn the node whose turn it is takes the first slot of its preference list that is free |
| `Maglev.SlotAhead` | domains/lib/libbenchnet/src/maglev.rs:131-148 | before the last turn every node has a free slot ahead of its pointer, however many nodes there are |
| `Maglev.TableFair` | domains/lib/libbenchnet/src/maglev.rs:131-148 | after any number of turns the slots are spread evenly over the nodes |
| `Maglev.Balanced` | domains/lib/libbenchnet/src/maglev.rs:98-151 | in the full table every slot holds a node and any two nodes differ by at most one slot |
| `Maglev.I8Exact` | domains/lib/libbenchnet/src/maglev.rs:140 | a node number survives the cast exactly below 128 |
| `Maglev.TakeTurn` | domains/lib/libbenchnet/src/maglev.rs:132-142 | a node moves its pointer to the next free slot and takes it; while node numbers fit a byte that is the slot it prefers most among the free ones |
| `Maglev.NodeIn` | domains/lib/libbenchnet/src/maglev.rs:131-148 | every node that gets a turn has a slot in the intended table |
| `Maglev.Populate` | domains/lib/libbenchnet/src/maglev.rs:98-151 | for any positive number of nodes it terminates with no index out of range, and the table equals the one described without pointers if and only if there are at most 128 nodes or slots |
| `Maglev.Balancer.constructor` | domains/lib/libbenchnet/src/maglev.rs:65-75 | the table of a new balancer is the intended one if and only if there are at most 128 nodes |
| `Maglev.Balancer.GetIndexFromHash` | domains/lib/libbenchnet/src/maglev.rs:168-191 | the cache never changes the answer; with at most 128 nodes it is a node, and with more it is below 128 or no index at all |
| `Checksum.FoldedStep` | domains/lib/libbenchnet/src/packettool.rs:152-166 | adding a word with the carry brought back is a step of the closed-form sum |
| `Checksum.CalcIpv4Checksum` | domains/lib/libbenchnet/src/packettool.rs:152-166 | the loop gives the complement of the one's complement sum |
| `Checksum.FixVerifies` | domains/lib/libbenchnet/src/packettool.rs:30-39 | storing the complement makes the whole header sum to all ones |
| `Checksum.FixIpChecksum` | domains/lib/libbenchnet/src/packettool.rs:30-39 | only the checksum field changes, and a header that holds it verifies afterwards |
| `Checksum.SwapUdpIps` | domains/lib/libbenchnet/src/packettool.rs:137-150 | the swap loops exchange ports and addresses; fails exactly for frames too short |
| `Checksum.SwappedFields` | domains/lib/libbenchnet/src/packettool.rs:137-150 | the two ports and the two addresses after the exchange, with the header lengths for which they overlap, and nothing else changed |
| `Checksum.SwapSum` | domains/lib/libbenchnet/src/packettool.rs:137-150 | the exchange changes the header sum only for a header of 16 bytes |
| `Checksum.SwapKeepsValid` | domains/lib/libbenchnet/src/packettool.rs:137-166 | a valid checksum stays valid if and only if the header is not 16 bytes long or its addresses agree in sum |
| `Checksum.SwapCanBreak` | domains/lib/libbenchnet/src/packettool.rs:137-150 | a frame with a 16-byte header whose valid checksum becomes invalid |

## Left out

- Context switching, stacks, continuations and unwinding: assembly and raw pointers, no source-level property.
- Device and platform code, ELF loading, multiboot parsing, signature checks and the tools beside rv6-mkfs.
- The zone allocator and the `CIndex` cache: their libraries are not part of this model.
- TPM marshalling, sockets, HTTP and the network benchmarks: no invariant reaches beyond one function.
- `Mutex`, `Once`, wait queues, `CircularBuffer` and list.rs: simpler than the state machines chosen.
- Page allocation in `allocate_pages_aligned`, the identity mappings and stacks of vspace.rs: callers of what is
  modelled.
- Weak memory ordering in the lock, and the instruction-level race on the rebalance flag (kernel/src/thread.rs:635-652).
- The bytes of the superblock: a parameter of `Build.MakeImage`. Host files and the disk image file are sequences.
- MAC addresses, lengths and flow hashes in packettool.rs: straight-line edits.
- Build.MakeImage: takes at most 318 files; `OneFileTooMany` and `InodeOverData` say what the next inode does to the
  image, and beyond that inodes may be written over index tables.
- Mkfs.FSHandler.AppendDataToInode: takes an inode that was allocated before, as every caller in main.rs does, while
  all inodes are below 320.
- Maglev.Populate: takes at least one node; with none the code does not terminate.
- VSpaces.VSpace.MapGeneric: for a range that is not fresh it does not say when it succeeds, beyond what `FillTable`
  says of each loop; that depends on the alignment of the physical address.
- VSpaces.VSpace.SetGuardPage: takes a page that no 1 GiB or 2 MiB mapping covers; the code reads such an entry as a
  table, which has no meaning in this model.
- VSpaces.VSpace.MapChangeProt: the same.
- VSpaces.VSpace.MapChangeProtRange: the same, for every page of the range.
- Deque.RRefDeque.Perform: a pushed reference is not in the deque already, which Rust's ownership guarantees.
- SharedHeap.Heap.Store: the stored reference is in no other object, which Rust's ownership guarantees; nothing is
  assumed by DeallocHeap and DropDomain. A slot that is full already is `Replace`.
- SharedHeap.Heap.Replace: the same.
- Scheduler.Kernel.SetAffinity: what `schedule` does with a thread whose affinity names no CPU is not followed
  further; the code indexes out of range there.
