# Yanix kernel: verified models

Yanix is a small x86 kernel written in C. This project models the parts of it whose correctness is
hard to see by reading, and proves what they promise, in Dafny 4.11. `dafny verify dfyconfig.toml`
checks everything.

The source is imperative, and so are the models: intrusive linked lists in memory, page tables,
bitmaps, ring buffers, screen buffers and growable arrays are updated in place by methods with
loops. Each of them is proved against a specification that knows nothing of the representation, and
the laws are proved of the specification, over all inputs and whole runs.

| modules | what is modelled | specification and laws |
|---|---|---|
| `Arena`, `LinkedList` | the heap allocator: two doubly linked lists over one arena | `Arena`: the blocks tile the arena in every run; best fit; bounds; only live blocks can be freed |
| `Frames`, `Paging`, `AddressSpace`, `SpaceRuns` | the frame bitmap, two-level page tables, range mapping, the copy of an address space at fork | a set of free frames; translation; the copy is faithful and owns its frames; in every run of forks, frames handed out and stores, private pages share no frame and hold what the stores to them made of them |
| `UnixSocket`, `Queue` | connect and accept on a local socket, any number of clients, every interleaving | no access to freed memory, crossed pipes, first in first out, bounded waiting |
| `Sched`, `Scheduler`, `Fairness`, `Waiting` | ready and blocked lists, timer tick, fork, wait, kill, resume | a transition system with its invariant over every run; round robin; no starvation while tasks come and go; which waits can end |
| `Scrollback`, `Tty` | the terminal's screen buffer | an endless sheet of paper of which the buffer is a window |
| `ByteStream`, `Ring` | the ring buffer behind pipes and terminals | a byte stream: first in first out, and gating by lines |
| `Blocks`, `Disk`, `Ext2` | byte access to block devices, inode and block lookup, reading a file | a flat sequence of bytes; the on-disk format |
| `FdVector` | the table of file descriptors | an endless table; the lowest free descriptor |
| `Hex` | printing a number | the usual recursive printer |
| `Basics`, `Lists` | shared definitions | |

Where a law does not hold of the code, the code is kept, an input shows it, and the exact condition is
proved:

* an aligned request can take the heap past its maximum size, by up to a page:
  `Arena.ExceedsMaxIff`, `Arena.ExceedsMaxExample`;
* `disk_read` and `disk_write` agree with a flat disk exactly for transfers that start on a block
  or stay inside one: `Disk.ReadCorrectIff`, `Disk.WriteCorrectIff`, `Disk.ShortReadExample`,
  `Disk.ShiftedWriteExample`;
* the two-part inode offset is right for every inode exactly when the inode size divides the block
  size: `Ext2.InodeOffsetIff`, `Ext2.InodeOffsetFails`; and the last row of the double indirect
  block is not reached: `Ext2.SlotFoundIff`, `Ext2.LastRowExample`;
* an inode without a single indirect block is read as if that block were block 0 of the disk, so the
  offset of a block, the block and the whole file are right exactly when no such lookup finds
  anything: `Ext2.OffsetRightIff`, `Ext2.FoundIsBlock`, `Ext2.ReadRightIff`, `Ext2.MisledExample`;
* `vector_add_from` gives a descriptor below the one asked for, and `vector_set` writes behind the
  table, exactly for certain multiples of the number of slots: `FdVector.Vector.AddFrom`,
  `FdVector.Vector.Set`, `FdVector.AddFromExample`, `FdVector.SetExample`; and `dup2` of a
  descriptor onto itself closes it: `FdVector.Vector.Dup2`, `FdVector.Dup2Example`;
* removing a newline from a pipe, or writing part of a line without blocking, opens the line gate:
  `ByteStream.RemoveGatedIff`, `ByteStream.NonblockGatedIff`, `ByteStream.GateExample`;
* the store of a ring has 65535 bytes and its 16-bit index reaches one more: `ringbuffer_remove`
  writes its zero byte behind the store exactly when the end counter is 65535 or more, and a write
  does so exactly when it is longer than the room up to there: `Ring.Ring.Remove`,
  `Ring.Ring.Write`, `Ring.StrayByteExample`, `Ring.StrayWriteExample`;
* mapping a range makes it translate byte by byte exactly when the two addresses have the same
  offset in their pages and the loop, which starts at the page of the first byte, reaches the last
  one (or that one was mapped right before): `Paging.RangeTranslatesIff`,
  `Paging.RangeTranslatesAloneIff`, `Paging.RangeTranslatesExample`;
* the scheduler lock is kept exactly by a `task_resume` that finds no blocked task, on its own or in
  `kill_proc` when the parent does not wait: `Sched.LockKeptIff`, `Sched.LockKeptExample`;
* fork copies the counter of children, so a task can wait that has no child; a wait can end without
  a `task_resume` from outside exactly when a child is ready, or waits itself and its wait can end:
  `Waiting.WaitEndsIff`, `Waiting.ChildlessWaitExample`;
* `kill_proc` counts down through a null pointer exactly when a forked task dies after its parent:
  `Waiting.NullParentIff`, `Waiting.OrphanExample`.

## Model

| member | source | states |
|---|---|---|
| Arena.InsertPos | kernel/mm/linkedlist.c:83-127 | the place of a block in the free list is before the first larger block and behind all others |
| Arena.FirstFit | kernel/mm/linkedlist.c:294-377 | the block a walk stops at fits the request and no earlier one does |
| Arena.FindUsed | kernel/mm/linkedlist.c:386-412 | the block found has the address asked for and no earlier one has |
| Arena.NextPage | kernel/mm/linkedlist.c:159-162 | the first page boundary behind an address |
| Arena.InvBounds | kernel/mm/linkedlist.c:164-412 | every block lies in the arena and has a payload of at least 32 bytes |
| Arena.InvDisjoint | kernel/mm/linkedlist.c:164-412 | no two blocks of the two lists overlap, so none is on both lists or twice on one |
| Arena.InvCovers | kernel/mm/linkedlist.c:164-412 | every byte of the arena belongs to a block |
| Arena.InvConserves | kernel/mm/linkedlist.c:164-412 | headers and payloads of both lists add up to the current size |
| Arena.TakeInv | kernel/mm/linkedlist.c:246-278 | handing out a free block, whole or split, keeps the tiling and the order by size |
| Arena.GrowInv | kernel/mm/linkedlist.c:183-244 | growth, aligned or not, keeps the tiling and the order by size |
| Arena.GetFreeInv | kernel/mm/linkedlist.c:288-384 | get_free keeps the tiling and the order by size |
| Arena.FreeNodeInv | kernel/mm/linkedlist.c:386-412 | free_node keeps the tiling and the order by size |
| Arena.GetFreeGives | kernel/mm/linkedlist.c:288-384 | a successful get_free adds one block, of at least the size asked for and at least 32 bytes, page aligned when asked, and changes no live block |
| Arena.GrowAligned | kernel/mm/linkedlist.c:164-223 | the payload of a block grown for an aligned request starts on a page |
| Arena.GetFreeApart | kernel/mm/linkedlist.c:288-384 | the block handed out overlaps no live block |
| Arena.BestFit | kernel/mm/linkedlist.c:363-377 | first fit on the sorted list is best fit, and the heap grows exactly when no free block suffices |
| Arena.GetFreeFailsIff | kernel/mm/linkedlist.c:183-384 | get_free fails exactly when no free block has the size (at least 32) and, when asked, a payload on a page, and the heap would pass its maximum by growing a header and the payload, or from the next page on |
| Arena.TakesSmallest | kernel/mm/linkedlist.c:246-377 | while some free block will do, a smallest one is handed out; a rest of 44 bytes or more is free again behind a header of its own; the heap does not grow |
| Arena.GrowsAtEnd | kernel/mm/linkedlist.c:183-244 | otherwise the block is behind the end: behind its header, or with its payload on the next page, or the one behind that when the bytes before it make neither a header nor a block; bytes left out are one free block |
| Arena.FreeNodeSucceedsIff | kernel/mm/linkedlist.c:386-412 | free_node succeeds exactly on the addresses of live blocks |
| Arena.FreeNodeMoves | kernel/mm/linkedlist.c:386-412 | free_node moves exactly that block, unchanged, to the free list |
| Arena.DoubleFreeFails | kernel/mm/linkedlist.c:386-412 | freeing an address twice fails the second time |
| Arena.AllocThenFree | kernel/mm/linkedlist.c:288-412 | freeing what was just allocated restores the live blocks |
| Arena.StepInv | kernel/mm/linkedlist.c:288-412 | every call, failing ones included, keeps the invariant |
| Arena.RunInv | kernel/mm/linkedlist.c:46-412 | in every run from an empty heap the invariant holds and the sizes add up |
| Arena.LiveBlockUntouched | kernel/mm/linkedlist.c:288-412 | a live block keeps its address and size through every run that does not free it |
| Arena.GetFreeBounded | kernel/mm/linkedlist.c:196-239 | no call takes the heap further than a page past its maximum, and no unaligned one past it |
| Arena.RunBounded | kernel/mm/linkedlist.c:196-239 | the size bound over whole runs: maximum plus a page, and the maximum when all requests are unaligned |
| Arena.ExceedsMaxIff | kernel/mm/linkedlist.c:196-223 | exactly when a call takes the heap past its maximum size |
| Arena.ExceedsMaxExample | kernel/mm/linkedlist.c:196-223 | a two-call run that ends past the maximum size |
| LinkedList.LinkBetween | kernel/mm/linkedlist.c:83-127 | the pointer writes that link a node into the middle of a list give the list with the node in it, next and prev inverse, no cycle |
| LinkedList.LinkLast | kernel/mm/linkedlist.c:61-81 | the pointer writes that link a node at the end of a list give the longer list |
| LinkedList.LinkNull | kernel/mm/linkedlist.c:61-81 | linking the null of a failed growth leaves the list as it was |
| LinkedList.UnlinkBetween | kernel/mm/linkedlist.c:129-157 | the pointer writes that take a node out leave the list without it, next and prev inverse |
| LinkedList.FreePayload | kernel/mm/heap.c:65-69 | the header address computed from a payload address is that of a live block exactly when the payload is |
| LinkedList.List.constructor | kernel/mm/linkedlist.c:46-59 | a new list refines the empty arena |
| LinkedList.List.AddToUsed | kernel/mm/linkedlist.c:61-81 | the node becomes the last of the used list; null leaves it unchanged; only links of that list change |
| LinkedList.List.FindLarger | kernel/mm/linkedlist.c:94-126 | the walk stops at the place the size order asks for |
| LinkedList.List.AddToFree | kernel/mm/linkedlist.c:83-127 | the node goes to its place by size in the free list; only links of that list change |
| LinkedList.List.MarkUsed | kernel/mm/linkedlist.c:129-142 | a node moves from the free list to the end of the used list, both staying well linked and disjoint |
| LinkedList.List.MarkFree | kernel/mm/linkedlist.c:144-157 | a node moves from the used list to its place by size in the free list, both staying well linked and disjoint |
| LinkedList.List.SplitFit | kernel/mm/linkedlist.c:253-278 | refines handing out a free block, cutting off the rest when it can hold a block |
| LinkedList.List.ExpandSplit | kernel/mm/linkedlist.c:164-181 | refines growth that leaves a block on the left of the next page |
| LinkedList.List.ExpandHeap | kernel/mm/linkedlist.c:183-244 | refines growth; null exactly when the size check fails, and then nothing changed |
| LinkedList.List.FindFit | kernel/mm/linkedlist.c:294-377 | the walk of get_free ends at the first block that fits, or at null when there is none |
| LinkedList.List.GetFree | kernel/mm/linkedlist.c:288-384 | refines the allocation of Arena and keeps the invariant; null exactly when that fails, and then the heap is unchanged |
| LinkedList.List.FindUsed | kernel/mm/linkedlist.c:386-405 | the walk of free_node ends, and finds exactly the nodes of the used list |
| LinkedList.List.FreeNode | kernel/mm/linkedlist.c:386-412 | refines the freeing of Arena and keeps the invariant; -1 exactly when that fails, and then the heap is unchanged |
| LinkedList.List.Alloc | kernel/mm/heap.c:55-63 | null exactly when no free block will do and the heap cannot grow, and then nothing changed; otherwise the payload is large enough, aligned when asked, disjoint from all live blocks, and no live block changed |
| LinkedList.List.Free | kernel/mm/heap.c:65-69 | succeeds exactly on payload addresses of live blocks, and otherwise changes nothing |
| Frames.SetBit | kernel/mm/paging.c:81-87 | setting a bit of a word sets that bit and no other |
| Frames.OrBitFits | kernel/mm/paging.c:81-87 | setting a bit stays within 32 bits |
| Frames.ZeroWordFree | kernel/mm/paging.c:729-733 | a zero word stands for 32 free frames, so it may be counted without looking at its bits |
| Frames.AllocationsDistinct | kernel/mm/paging.c:137-159 | over any run of allocations and mappings no frame is handed out that was handed out or mapped before, and frames handed out increase |
| Frames.AllocationsCost | kernel/mm/paging.c:137-159 | each allocation takes exactly one frame from the free ones |
| Frames.FrameMap.constructor | kernel/mm/paging.c:637-640 | a new bitmap has all frames free |
| Frames.FrameMap.SetFrame | kernel/mm/paging.c:81-87 | exactly the frame of the address stops being free |
| Frames.FrameMap.FirstFrame | kernel/mm/paging.c:107-125 | the least free frame, and -1 exactly when none is free |
| Frames.FrameMap.CountClear | kernel/mm/paging.c:735-737 | the clear bits of a word are the free frames it adds |
| Frames.FrameMap.FreeRam | kernel/mm/paging.c:723-742 | 4096 times the number of free frames |
| Paging.PutPageEntry | kernel/mm/paging.c:345-365 | writing an entry changes the translation of one virtual page and no other |
| Paging.NewTableEntry | kernel/mm/paging.c:326-334 | an empty page table maps what no table maps |
| Paging.TranslateIs | kernel/mm/paging.c:276-289 | of the 32 bits of an address the upper ten choose the table, the next ten the entry and the lower twelve the byte of the frame |
| Paging.MappedTranslates | kernel/mm/paging.c:276-289 | an address of a mapped range translates to the address as far into the block |
| Paging.RangeCoveredIff | kernel/mm/paging.c:614-625 | the rounds of the loop reach the last byte of the range exactly when the offset of its first byte allows it |
| Paging.RangeTranslates | kernel/mm/paging.c:577-626 | with equal offsets in the pages and a loop that reaches the last byte, v + k translates to p + k for every k below the size (frames other than 0) |
| Paging.RangeTranslatesIff | kernel/mm/paging.c:577-626 | in any directory, v + k translates to p + k for all k below the size exactly when the offsets in the pages are equal and the loop reaches the last byte or that byte went to the right place before |
| Paging.RangeTranslatesAloneIff | kernel/mm/paging.c:577-626 | in a directory that maps nothing else, exactly when the offsets are equal and the loop reaches the last byte |
| Paging.RangeTranslatesExample | kernel/mm/paging.c:609-626 | two ranges that do not translate byte by byte, one for each half of the condition |
| Paging.OutsideTranslates | kernel/mm/paging.c:577-626 | addresses of other pages translate as before |
| Paging.PutPageSees | kernel/mm/paging.c:237-253 | an entry written through one directory is seen by exactly the directories that share the table |
| Paging.PutTaken | kernel/mm/paging.c:137-159 | entering a frame in a table while taking it leaves no present page on a free frame |
| Paging.DirTaken | kernel/mm/paging.c:137-253 | then no directory has a present page on a free frame |
| Paging.KernelCopied | kernel/mm/paging.c:418-475 | a copy of the kernel directory is the same tables and pages |
| Paging.Mmu.constructor | kernel/mm/paging.c:633-640 | all frames free and no directory |
| Paging.Mmu.NewDirectory | kernel/mm/paging.c:642-644 | a directory nobody else has, without tables |
| Paging.Mmu.KernelDirectory | kernel/mm/paging.c:642-674 | the kernel's pages are mapped to themselves, and the page buffer has a frame unless none is left |
| Paging.Mmu.InitPaging | kernel/mm/paging.c:633-697 | two directories come, the kernel's and one with the same tables, which fulfils what the copying of a directory asks for |
| Paging.Mmu.AllocPageTable | kernel/mm/paging.c:326-334 | a table nobody else has, all zero, in the slot asked for |
| Paging.Mmu.GetPage | kernel/mm/paging.c:345-365 | the table of the address, made when missing and asked for, and then new, all zero and nobody else's; no translation in any directory changes, and pages stay on taken frames |
| Paging.Mmu.AllocFrame | kernel/mm/paging.c:137-159 | -1 when the entry has a frame, -2 exactly when none is free, otherwise the least free frame with the flags asked for |
| Paging.Mmu.MapFrame | kernel/mm/paging.c:237-253 | the entry holds the frame and the flags and the frame is taken; -1 and no change when it is occupied and may not be remapped |
| Paging.Mmu.MapOne | kernel/mm/paging.c:582-593 | one page of the directory is mapped and every other one is as before; other directories see the new page exactly where they share the table; pages stay on taken frames |
| Paging.Mmu.MapPhysicalToVirtual | kernel/mm/paging.c:609-626 | exactly the pages of the range are mapped, to consecutive frames and with the flags; the others, and other directories where they share no table, are as before; pages stay on taken frames |
| Paging.Mmu.IdentityMapMemoryBlock | kernel/mm/paging.c:577-595 | exactly the pages from start to end are mapped, each to its own frame; the others, and other directories where they share no table, are as before; pages stay on taken frames |
| Paging.Mmu.CopyThroughBuffer | kernel/mm/paging.c:401-408 | the bytes of a page reach the given frame, and the buffer page has its own frame back |
| Paging.Mmu.CopyPage | kernel/mm/paging.c:393-411 | the new entry has the flags and bytes of the old and the least free frame; without a free frame the bytes land in frame 0 |
| Paging.Mmu.CopyTable | kernel/mm/paging.c:457-470 | every present page of a table is copied to a frame of its own, no other table changes, and no frame that was taken is written |
| Paging.Mmu.DuplicateCurrentPageDirectory | kernel/mm/paging.c:418-475 | with enough free frames every slot is linked or copied as it should be, no other directory, table or taken frame changes, and pages stay on taken frames |
| AddressSpace.OriginalKept | kernel/mm/paging.c:418-475 | the pages and bytes of the original are as they were |
| AddressSpace.SharedPage | kernel/mm/paging.c:436-445 | a table shared with the kernel is the same table in the copy, so its pages are the same pages |
| AddressSpace.PrivatePageCopied | kernel/mm/paging.c:447-471 | a private page is present in the copy exactly when it was, with the same flags and bytes, in a frame that was free |
| AddressSpace.CopyFaithful | kernel/mm/paging.c:393-475 | every page is present in the copy exactly when it was, with the same flags and bytes, in the same frame if its table is the kernel's and in one that was free otherwise |
| AddressSpace.FramesNotShared | kernel/mm/paging.c:393-475 | the frame of a private page of the copy is in no other page of the copy and in no page of any directory there was |
| AddressSpace.CopyInUse | kernel/mm/paging.c:393-475 | the copy and all directories there were keep to taken frames, so they can be copied again |
| AddressSpace.Isolation | kernel/mm/paging.c:393-475 | under any interleaving of stores through original and copy each side's pages hold what its own stores alone make of them |
| SpaceRuns.StartApart | kernel/mm/paging.c:633-697 | what init_paging leaves has no private pages, so it fulfils the invariant |
| SpaceRuns.CopyTables | kernel/mm/paging.c:436-471 | no directory has a private table of the copy, and the copy has no private table of any directory |
| SpaceRuns.CopyFrames | kernel/mm/paging.c:393-475 | a private page of the copy is in no frame of another page, of the copy or of a directory there was |
| SpaceRuns.OldFrames | kernel/mm/paging.c:393-475 | a private page of a directory there was is in no frame of the copy |
| SpaceRuns.ForkApart | kernel/mm/paging.c:418-475 | a fork of any directory keeps the separation of all |
| SpaceRuns.GrowApart | kernel/mm/paging.c:326-365 | so does a new page table, in any directory, the kernel's included |
| SpaceRuns.GiveApart | kernel/mm/paging.c:137-177 | so does a frame, or other flags, for any page of any directory |
| SpaceRuns.StepKeeps | kernel/mm/paging.c:137-475 | no step moves a private page to another frame, and none but a store to that page changes its bytes |
| SpaceRuns.NewPage | kernel/mm/paging.c:137-475 | a page that becomes a present private page is in a frame that was free |
| SpaceRuns.RunKept | kernel/mm/paging.c:137-475 | the separation of private tables and frames, and what the copying of a directory asks for, hold of every directory in every state of every run |
| SpaceRuns.NeverShared | kernel/mm/paging.c:137-475 | in every run from init_paging no present page of any directory is in the frame of a private page of a directory, but that page itself |
| SpaceRuns.PrivateContents | kernel/mm/paging.c:137-475 | over every run a private page stays in its frame and holds what the stores to that page alone make of its bytes |
| SpaceRuns.Boot | kernel/mm/paging.c:633-697 | init_paging reaches a start of the runs |
| SpaceRuns.ForkSpace | kernel/mm/paging.c:418-475 | a fork of any directory of a run is a step of the run; it needs no more than frames for the private pages |
| SpaceRuns.FlagForceAllocFrame | kernel/mm/paging.c:167-177 | an entry without a frame gets the least free one, one with a frame keeps it and gets the flags; -1 and no change exactly when a frame is needed and none is free |
| SpaceRuns.MapRound | kernel/mm/paging.c:516-528 | a round of map_memory_block, in any directory, is a run; afterwards the page has a frame, with the flags asked for, unless it had none and none is left |
| UnixSocket.InvSafe | kernel/net/socket/unix.c:86-134 | the invariant rules out that any step touches a freed record or pops an empty queue |
| UnixSocket.StepInv | kernel/net/socket/unix.c:41-134 | every step of every party is safe and keeps the invariant |
| UnixSocket.ReachesInv | kernel/net/socket/unix.c:41-134 | the invariant holds in every state of every interleaving |
| UnixSocket.NoUseAfterFree | kernel/net/socket/unix.c:86-134 | in every interleaving the next step touches only live records |
| UnixSocket.ConnectedEndsMatch | kernel/net/socket/unix.c:106-131 | a client leaves its spin after exactly one accept took its record, and the two ends are crossed |
| UnixSocket.NoSharedPipes | kernel/net/socket/unix.c:86-134 | no pipe belongs to two connections or to both ends of one |
| UnixSocket.FirstInFirstOut | kernel/net/socket/unix.c:86-134 | records are accepted in the order of the pushes, none twice and none skipped |
| UnixSocket.FreedAfterLastAccess | kernel/net/socket/unix.c:106-112 | a record is freed only when it is not queued and the acceptor is done with it |
| UnixSocket.AheadMeans | kernel/net/socket/unix.c:106-131 | the measure of a spinning client is at most five for each queued record and one more, is used up exactly when its lock is open, and until then the acceptor has a step to take |
| UnixSocket.AheadStep | kernel/net/socket/unix.c:86-134 | every acceptor step lowers the measure by one and no other step changes it |
| UnixSocket.BoundedWait | kernel/net/socket/unix.c:106-131 | whatever the other clients do, a spinning client sees its lock open after as many acceptor steps as its measure |
| UnixSocket.NoClientStuck | kernel/net/socket/unix.c:106-131 | while a client spins, it or the acceptor has a step to take |
| UnixSocket.PushResult | kernel/net/socket/unix.c:86-107 | in every reachable state a push is refused, and its record and pipes given back, exactly when the queue is full; otherwise the client spins with its record last in the queue, as queue_push has it, and nothing else changes |
| UnixSocket.AcceptorOpens | kernel/net/socket/unix.c:116-134 | the acceptor alone opens the lock of a spinning client, in at most five steps for each record up to its own |
| UnixSocket.SpinningCanConnect | kernel/net/socket/unix.c:106-134 | from every state of every run the acceptor and a spinning client alone can bring it to its connection |
| UnixSocket.FilledCanConnect | kernel/net/socket/unix.c:86-134 | so can a client that has not pushed yet, when the queue is not full |
| UnixSocket.FirstConnection | kernel/net/socket/unix.c:41-134 | from the start, any client of a socket that can queue a record can get a connection |
| Queue.Queue.constructor | kernel/yanix/ds/queue.c:19-31 | an empty queue of the size asked for, 128 for -1 |
| Queue.Queue.Pop | kernel/yanix/ds/queue.c:33-47 | the oldest element goes, the others stay in order; null on an empty queue |
| Queue.Queue.Push | kernel/yanix/ds/queue.c:49-59 | the element goes last, or -1 and no change when the queue is full |
| Scrollback.FeedAllBounds | kernel/yanix/tty/tty_dev.c:461-539 | the pen stays between the margins and never moves up |
| Scrollback.LinesAbovePenAreFinal | kernel/yanix/tty/tty_dev.c:461-539 | lines above the pen never change again |
| Scrollback.FeedAllConcat | kernel/yanix/tty/tty_dev.c:461-539 | writing a text in pieces is writing it at once |
| Scrollback.PrintableTextFlows | kernel/yanix/tty/tty_dev.c:461-539 | printable text fills consecutive cells in reading order across line breaks, and nothing else changes |
| Scrollback.NewlineMoves | kernel/yanix/tty/tty_dev.c:466-471 | behind any text a newline or return puts the pen at the start of the next row and marks nothing |
| Scrollback.TabMoves | kernel/yanix/tty/tty_dev.c:472-476 | a tab moves the pen right by four columns, or to the start of the next row when that reaches the margin, and marks nothing |
| Scrollback.BackspaceErases | kernel/yanix/tty/tty_dev.c:496-503 | a backspace moves the pen left by one and leaves a space there in the old colour, and nothing else changes; in column 0 it does nothing |
| Scrollback.BackspaceUndoes | kernel/yanix/tty/tty_dev.c:496-503 | a character and a backspace leave the pen where it was and a space |
| Scrollback.LinesOfText | kernel/yanix/tty/tty_dev.c:461-539 | of any number of printable lines, character i of line k is i cells in reading order behind the start of its line, which is the row behind all the rows of the line before it |
| Scrollback.ManyWrites | kernel/yanix/tty/tty_dev.c:418-566 | any series of writes leaves the window that one write of the whole text leaves: the pen is in it, and it moved only as far as the pen's row made it |
| Tty.PutShows | kernel/yanix/tty/tty_dev.c:400-405 | a place on the screen is a buffer index in range, and writing there is writing the cell of the paper and no other |
| Tty.ScrollShows | kernel/yanix/tty/tty_dev.c:206-230 | dropping the first row and adding an empty one moves the window down by one line |
| Tty.Tty.Scroll | kernel/yanix/tty/tty_dev.c:206-230 | the copying in place shifts the buffer up by a row and clears the last one |
| Tty.Tty.ClearCell | kernel/yanix/tty/tty_dev.c:400-405 | the cell becomes a space in its old colour and no other cell changes |
| Tty.Tty.WriteByte | kernel/yanix/tty/tty_dev.c:461-539 | one byte does to buffer and cursor what it does to the paper, with the window following the pen |
| Tty.Tty.Write | kernel/yanix/tty/tty_dev.c:418-566 | after any text the buffer is the last rows of the paper, the cursor is on the screen, and the return value and the place variants are as coded |
| Tty.Tty.ClearBuf | kernel/yanix/tty/tty_dev.c:633-654 | a clean sheet of spaces in the current colour, and the cursor at its start |
| ByteStream.FirstInFirstOut | kernel/yanix/ds/ringbuffer.c:58-228 | over any run what readers got, what is unread and what is ready are those of a ledger that never looks at a stream: the bytes written less those removed or flushed, how many were taken, and the place where a reader waits |
| ByteStream.ReadsAllItMay | kernel/yanix/ds/ringbuffer.c:58-101 | a read delivers the front of the stream, at most what was asked for, what there is and, if any is, what is ready, and as much as one of these allows |
| ByteStream.NonblockReadsAll | kernel/yanix/ds/ringbuffer.c:58-164 | after a write without blocking everything unread can be read at once |
| ByteStream.LinesIs | kernel/yanix/ds/ringbuffer.c:132-164 | the part of a text that a write makes ready ends with its last newline |
| ByteStream.WriteGated | kernel/yanix/ds/ringbuffer.c:132-164 | a blocking write keeps the gate at the last unread newline |
| ByteStream.ReadGated | kernel/yanix/ds/ringbuffer.c:58-101 | a read keeps the gate there, and never goes past a ready line |
| ByteStream.RemoveGatedIff | kernel/yanix/ds/ringbuffer.c:204-228 | a removal keeps the gate exactly when the byte is not a newline |
| ByteStream.NonblockGatedIff | kernel/yanix/ds/ringbuffer.c:145-155 | a non-blocking write keeps the gate exactly when it is empty or ends a line |
| ByteStream.RunGated | kernel/yanix/ds/ringbuffer.c:58-228 | over any run without non-blocking writes and removed newlines the gate is at the last unread newline |
| ByteStream.GateExample | kernel/yanix/ds/ringbuffer.c:145-228 | a removed newline, and half a line written without blocking, leave the gate open where there is no line |
| Ring.U16OfU32 | kernel/yanix/ds/ringbuffer.c:58-164 | the 16-bit slot of a counter does not depend on its wrap at 32 bits |
| Ring.WindowWraps | kernel/yanix/ds/ringbuffer.c:58-164 | the unread bytes do not depend on where the counter wrapped |
| Ring.Ring.constructor | kernel/yanix/ds/ringbuffer.c:19-37 | a new ring is the empty stream |
| Ring.Ring.Write | kernel/yanix/ds/ringbuffer.c:132-190 | refines the write of the stream, across index wraps, and writes behind the store exactly when the data is longer than the room up to its end |
| Ring.Ring.Read | kernel/yanix/ds/ringbuffer.c:58-119 | refines the read of the stream, across index wraps |
| Ring.Ring.Flush | kernel/yanix/ds/ringbuffer.c:198-202 | refines the flush of the stream |
| Ring.Ring.Remove | kernel/yanix/ds/ringbuffer.c:204-228 | refines the removal of the last unread byte, and writes behind the store exactly when the end counter is 65535 or more |
| Ring.StrayByteExample | kernel/yanix/ds/ringbuffer.c:204-228 | a new ring, a write that fills the store, and a removal that writes behind it |
| Ring.StrayWriteExample | kernel/yanix/ds/ringbuffer.c:132-190 | two writes of 40000 bytes, with the first read in between, of which the second writes behind the store |
| Sched.TickInv | kernel/proc/sched.c:171-224 | a timer tick keeps the invariant of the scheduler |
| Sched.WaitInv | kernel/proc/tasking.c:220-233 | waiting keeps the invariant |
| Sched.ResumeInv | kernel/proc/sched.c:260-273 | resuming keeps the invariant, whether or not a blocked task is found |
| Sched.ForkInv | kernel/proc/tasking.c:110-186 | fork keeps the invariant |
| Sched.KillInv | kernel/proc/tasking.c:82-102 | self-kill, with the notification of the parent, keeps the invariant |
| Sched.FindTaskFinds | kernel/proc/sched.c:149-164 | the task found by process id is the live task with that id, when there is one |
| Sched.StepInv | kernel/proc/sched.c:63-297 | every step keeps the invariant |
| Sched.RunInv | kernel/proc/sched.c:232-240 | in every run each live task is on exactly one list, process ids are distinct, the running task is ready, the cursor is null or on a ready task, each live task counts exactly its live children and what its parent counted when it was forked, and the lock count is the number of failed resumes |
| Sched.CountConserved | kernel/proc/sched.c:275-297 | only fork and kill change the number of tasks, by one |
| Sched.StepPlaces | kernel/proc/sched.c:63-273 | where every task is after every step: who becomes ready, who becomes blocked, who leaves, and that nobody else moves |
| Sched.ForkGives | kernel/proc/tasking.c:110-186 | the child has the next process id, the running task as parent and its counter, and the last place on the ready list; the parent counts one child more and no other task changes |
| Sched.DeathWakesParent | kernel/proc/tasking.c:82-102 | the death of a child moves its blocked parent to the ready list |
| Sched.RoundRobin | kernel/proc/sched.c:108-121 | from any cursor position as many calls as there are tasks return them in cyclic list order |
| Sched.RoundRobinOnce | kernel/proc/sched.c:108-121 | each of them exactly once |
| Sched.TicksReachAll | kernel/proc/sched.c:171-224 | with ticks only, each ready task runs within as many ticks as there are ready tasks |
| Sched.KillNotifies | kernel/proc/tasking.c:82-102 | exactly when a kill wakes the parent, and when it keeps the lock |
| Sched.LockKeptIff | kernel/proc/sched.c:242-273 | exactly which steps keep the scheduler lock |
| Sched.LockKeptExample | kernel/proc/tasking.c:82-102 | a child that dies while its parent is ready leaves the lock held |
| Fairness.DispatchWait | kernel/proc/sched.c:108-121 | a dispatch brings every other ready task one turn nearer |
| Fairness.JoinWait | kernel/proc/sched.c:63-78 | a task that joins the list delays every other by at most one turn |
| Fairness.LeaveWait | kernel/proc/sched.c:80-106 | a running task that leaves the list, with what that does to the cursor, delays nobody |
| Fairness.StepWait | kernel/proc/sched.c:63-273 | every step brings a ready task nearer by its dispatch and delays it by no more than the tasks that join |
| Fairness.RunFair | kernel/proc/sched.c:232-240 | in every run the cursor is behind the running task, null, or still on a running head |
| Fairness.NoStarvation | kernel/proc/sched.c:171-273 | in every run, with forks, waits, kills and resumes in between, a ready task runs within as many dispatches as there are ready tasks plus one for each that joins |
| Waiting.LeavesBlockedIff | kernel/proc/sched.c:242-273 | a blocked task leaves its list exactly when it is resumed or when its child is running and dies |
| Waiting.ChildWas | kernel/proc/tasking.c:82-233 | what a step without a resume can do to the children of a waiting task |
| Waiting.EndableBefore | kernel/proc/tasking.c:82-233 | no such step makes a wait endable that was not |
| Waiting.WaitsForEver | kernel/proc/tasking.c:82-233 | a wait that is not endable outlasts every run without a resume from outside |
| Waiting.TicksTo | kernel/proc/sched.c:171-224 | ticks alone bring a ready task to the processor and change nothing else |
| Waiting.EndsByDeath | kernel/proc/tasking.c:82-102 | the death of a running child ends the wait of its parent and of no older task |
| Waiting.EndsByChild | kernel/proc/tasking.c:82-233 | for an endable wait, a run without a resume that ends it |
| Waiting.WaitEndsIff | kernel/proc/tasking.c:82-233 | the waits that some run without a resume from outside ends are exactly those of tasks with a ready child, or with a waiting child whose own wait can end |
| Waiting.OnlyInherited | kernel/proc/tasking.c:146-186 | the wait of a task that counts only what fork copied into it is not endable |
| Waiting.ChildlessRunIs | kernel/proc/tasking.c:146-233 | after two forks and three ticks the second child counts one child, has none, and may wait |
| Waiting.ChildlessWaitExample | kernel/proc/tasking.c:146-233 | and then no run without a resume from outside ends its wait |
| Waiting.NullParentIff | kernel/proc/tasking.c:87-92 | kill_proc counts down through a null pointer exactly when the dying task was forked and no live task is its parent |
| Waiting.OrphanExample | kernel/proc/tasking.c:87-92 | a run to such a state |
| Scheduler.AppendLinks | kernel/proc/sched.c:63-78 | the link written at the end of a list gives the longer list |
| Scheduler.RemoveLinks | kernel/proc/sched.c:80-106 | the link written around a task gives the list without it |
| Scheduler.TaskList.Add | kernel/proc/sched.c:63-78 | the task becomes the last of the list, which stays well linked |
| Scheduler.TaskList.Remove | kernel/proc/sched.c:80-106 | the task leaves the list and the cursor moves as specified, or -1 and no change when it is not on it |
| Scheduler.TaskList.GetNext | kernel/proc/sched.c:108-121 | refines the rotation of the cursor |
| Scheduler.TaskList.FindByPid | kernel/proc/sched.c:134-147 | the first task of the list with the process id, or null |
| Scheduler.TaskList.Count | kernel/proc/sched.c:275-288 | the length of the list |
| Scheduler.Scheduler.constructor | kernel/proc/tasking.c:188-218 | the state after initialisation is the initial state of the transition system |
| Scheduler.Scheduler.TimerTick | kernel/proc/sched.c:171-224 | refines the tick |
| Scheduler.Scheduler.TaskResume | kernel/proc/sched.c:260-273 | refines resume; -1 exactly when no blocked task has the id, and then the lock is kept |
| Scheduler.Scheduler.Fork | kernel/proc/tasking.c:158-186 | refines fork, and returns the process id of the child, which no task ever had |
| Scheduler.Scheduler.TaskBlock | kernel/proc/sched.c:242-258 | refines the self-block |
| Scheduler.Scheduler.TaskWait | kernel/proc/tasking.c:220-233 | refines waiting; -1 and no change for a task that counts no children |
| Scheduler.Scheduler.FindTaskByPid | kernel/proc/sched.c:149-164 | refines the search of all lists |
| Scheduler.Scheduler.KillProc | kernel/proc/tasking.c:82-102 | refines the self-kill and the switch to the next task |
| Scheduler.Scheduler.TaskCountAll | kernel/proc/sched.c:290-297 | the number of tasks on all lists |
| Disk.ReadCorrectIff | kernel/drivers/disk.c:45-126 | a read delivers the bytes of the flat disk for every buffer exactly when the transfer starts on a block or stays inside one |
| Disk.WriteCorrectIff | kernel/drivers/disk.c:130-196 | a write replaces exactly the bytes of the transfer for all data exactly under the same condition |
| Disk.ReadOtherwise | kernel/drivers/disk.c:72-123 | byte by byte what any other read leaves in the buffer, and exactly when it overruns |
| Disk.WriteOtherwise | kernel/drivers/disk.c:156-193 | byte by byte what any other write leaves on the disk, and exactly when it overruns |
| Disk.ReadAfterWrite | kernel/drivers/disk.c:45-196 | what was written is read back, and a read elsewhere gives what it gave before |
| Disk.ShortReadExample | kernel/drivers/disk.c:72-76 | an unaligned read across blocks that comes back short |
| Disk.ShiftedWriteExample | kernel/drivers/disk.c:170 | an unaligned write across blocks that leaves out a byte of its data |
| Disk.WriteArithmetic | kernel/drivers/disk.c:148-154 | the block and byte counts of disk_write add up to the size |
| Disk.BlockDevice.ReadUnaligned | kernel/drivers/disk.c:72-123 | an unaligned read across blocks falls short by twice the offset, or overruns when the 32-bit difference wraps |
| Disk.BlockDevice.Read | kernel/drivers/disk.c:45-126 | the buffer after disk_read, in every case, and when it leaves its buffers |
| Disk.BlockDevice.WriteUnaligned | kernel/drivers/disk.c:156-193 | an unaligned write across blocks takes its data from too far on, and from behind its end when that is all there is |
| Disk.BlockDevice.Write | kernel/drivers/disk.c:130-196 | the disk after disk_write, in every case, and when it reads behind its data |
| Ext2.InodeOffsetFormula | kernel/fs/ext2/ext2.c:178-209 | the modelled offset is the formula of the code |
| Ext2.InodeOffsetLaw | kernel/fs/ext2/ext2.c:178-209 | when the inode size divides the block size the offset is that of a table of inodes one after the other |
| Ext2.InodeOffsetIff | kernel/fs/ext2/ext2.c:178-209 | and only then, for all inodes |
| Ext2.InodeOffsetFails | kernel/fs/ext2/ext2.c:178-209 | otherwise the first inode of the second block gets the offset of the first inode |
| Ext2.InodesDisjoint | kernel/fs/ext2/ext2.c:178-209 | distinct inodes, of one group or of two, are in disjoint slots |
| Ext2.SlotInBounds | kernel/fs/ext2/ext2.c:317-407 | with p pointers in a block, exactly the blocks below p * p + 12 resolve, each to an in-bounds pointer that is the one of the format |
| Ext2.SlotFoundIff | kernel/fs/ext2/ext2.c:317-407 | every pointer slot of the format is found from its block, except the last p of the double indirect block |
| Ext2.LastRowExample | kernel/fs/ext2/ext2.c:339-341 | with blocks of 1024 bytes, block 65548 of a file has a slot in the double indirect block that is not looked in |
| Ext2.SlotsDistinct | kernel/fs/ext2/ext2.c:317-407 | distinct blocks resolve to distinct slots |
| Ext2.BlocksContained | kernel/fs/ext2/ext2.c:95-100 | reads of whole file system blocks are of the kind that disk_read does right |
| Ext2.FlattenByte | kernel/fs/ext2/ext2.c:486-508 | byte k * bs + r of what was read is byte r of block k |
| Ext2.ReadFsBlock | kernel/fs/ext2/ext2.c:95-100 | the bytes of the block, through disk_read |
| Ext2.PointerStored | kernel/fs/ext2/ext2.c:240-248 | a pointer of a pointer block is the number that its four bytes are the digits of to base 256, the lowest first |
| Ext2.PointerOfFormat | kernel/fs/ext2/ext2.c:233-407 | the pointer of a block is the one that the bytes of inode, single and double indirect blocks give by the format |
| Ext2.HasBlockIff | kernel/fs/ext2/ext2.c:233-407 | a file has a block exactly when that pointer is not 0 |
| Ext2.FileByte | kernel/fs/ext2/ext2.c:474-513 | byte k * bs + r of a reading of the file is byte r, on the disk, of the block that the format has for block k of the reading |
| Ext2.HandleIndirectBp | kernel/fs/ext2/ext2.c:233-315 | the offset that a pointer of a pointer block stands for, 0 for the end of a file |
| Ext2.DataOffset | kernel/fs/ext2/ext2.c:317-407 | the offset of the pointer that the code fetches for a block, which Ext2.OffsetRightIff compares with that of the format |
| Ext2.ReadInodeBlock | kernel/fs/ext2/ext2.c:420-434 | the block of the pointer that was fetched, exactly when that is not 0, which Ext2.FoundIsBlock compares with the block of the file |
| Ext2.FetchedIff | kernel/fs/ext2/ext2.c:331-338 | the code fetches the pointer of the format exactly when it does not follow a single indirect pointer of 0 to something |
| Ext2.OffsetRightIff | kernel/fs/ext2/ext2.c:317-407 | the offset computed is that of the format's pointer exactly then |
| Ext2.FindsIff | kernel/fs/ext2/ext2.c:420-434 | a block is found exactly when the file has it, exactly then; otherwise one is found that it does not have |
| Ext2.FoundIsBlock | kernel/fs/ext2/ext2.c:420-434 | a block that is found is the block of the file exactly then |
| Ext2.ReadRightIff | kernel/fs/ext2/ext2.c:474-513 | what is read is the blocks of the file up to the first that is not there exactly when no misleading block is reached |
| Ext2.SingleNeverMisleads | kernel/fs/ext2/ext2.c:331-338 | a file with a single indirect block is always read right |
| Ext2.MisledExample | kernel/fs/ext2/ext2.c:331-338 | with blocks of 4096 bytes, a disk on which block 268 of an empty file is found |
| Ext2.ReadFile | kernel/fs/ext2/ext2.c:474-513 | the blocks that are found in order up to the first that is not, their number, and a buffer unchanged behind them; these are the blocks of the file exactly when no misleading block is reached |
| FdVector.CloseThenOpen | kernel/yanix/ds/fd_vector.c:91-110 | after a close the next descriptor made is the lower of the one closed and the one that would have been made |
| FdVector.RoundUpCovers | kernel/libk/math/math.c:87-94 | growth by the rounded-up quotient gives the least multiple that is not below the slot, which makes room for it exactly when it is not itself a multiple |
| FdVector.Vector.constructor | kernel/yanix/ds/fd_vector.c:17-38 | eight slots, every one empty |
| FdVector.Vector.Copy | kernel/yanix/ds/fd_vector.c:39-59 | the same table in an array of its own |
| FdVector.Vector.Expand | kernel/yanix/ds/fd_vector.c:61-78 | growth changes no slot of the endless table |
| FdVector.Vector.Push | kernel/yanix/ds/fd_vector.c:80-89 | the slot behind the last one is filled and no other changes; the table doubles exactly when it is full |
| FdVector.Vector.Add | kernel/yanix/ds/fd_vector.c:91-103 | the lowest free descriptor is filled and no other slot changes; the table doubles exactly when it is full |
| FdVector.Vector.AddFrom | kernel/yanix/ds/fd_vector.c:140-158 | one slot changes; it is the lowest free one from `from` on exactly when `from` is 0, no multiple of the number of slots, or that number with a full table; otherwise it is below `from`; and the number of slots afterwards |
| FdVector.Vector.Set | kernel/yanix/ds/fd_vector.c:160-170 | exactly that slot changes, in bounds exactly when the descriptor is not negative and is below the number of slots or no multiple of it; and the number of slots afterwards |
| FdVector.Vector.Close | kernel/fs/filedescriptor.c:85-95 | the slot becomes free and no other changes |
| FdVector.Vector.OpenIff | kernel/fs/filedescriptor.c:50-83 | a descriptor is open exactly when its slot of the endless table is not free |
| FdVector.Vector.Register | kernel/fs/filedescriptor.c:39-48 | the lowest free descriptor |
| FdVector.Vector.Dup | kernel/fs/filedescriptor.c:102-112 | -1 exactly when the descriptor is not open, and out of bounds exactly for a negative `from` other than -1; otherwise a copy in the lowest free slot, from `from` on exactly where AddFrom reaches it |
| FdVector.Vector.Dup2 | kernel/fs/filedescriptor.c:137-148 | only slot `new` changes, to a copy of slot `old`; the same descriptor is closed; -1 and no change when `old` is not open |
| FdVector.Vector.CheckFiledescriptors | kernel/fs/filedescriptor.c:125-135 | exactly the descriptors marked close-on-exec are closed |
| FdVector.AddFromExample | kernel/yanix/ds/fd_vector.c:140-158 | on a new table descriptor 0 is given out when 8 is asked for |
| FdVector.SetExample | kernel/yanix/ds/fd_vector.c:160-170 | on a new table descriptor 8 is set behind the table |
| FdVector.Dup2Example | kernel/fs/filedescriptor.c:137-148 | an open descriptor duplicated onto itself is closed |
| Hex.HexIsDigits | kernel/yanix/functions/kfunctions.c:85-129 | the usual printer prints the digits from the most significant one down |
| Hex.ReadsBack | kernel/yanix/functions/kfunctions.c:85-129 | what is printed, read back with the table 0123456789ABCDEF, is the number, and has no zero in front |
| Hex.LowFirstOfValue | kernel/yanix/functions/kfunctions.c:93-119 | turning digits around twice gives them back, when the first is not zero |
| Hex.TurnAround | kernel/yanix/functions/kfunctions.c:88-99 | the number turned around, and the zeros that this loses, without a 32-bit overflow |
| Hex.TurnedBack | kernel/yanix/functions/kfunctions.c:108-126 | the digits of the turned number followed by the lost zeros print the number |
| Hex.IntToStr | kernel/yanix/functions/kfunctions.c:85-129 | every 32-bit number is printed in hexadecimal, ended by a null, within the nine bytes |

## Left out

- LinkedList.List.GetFree: requests are small enough that the sums of the size checks do not wrap in 32 bits, and the arena ends two pages before the top of the address space.
- LinkedList.List.Alloc: as for GetFree; the statistics and debugging output of heap.c are not modelled, nor is the placement allocator used before the heap exists.
- The part of get_free behind the `continue` of its aligned walk, which is never reached.
- Frames.FrameMap.constructor: the bitmap has a word for every 32 frames and all of it is cleared; init_paging allocates and clears one byte for every 32 frames.
- Paging.Mmu.MapPhysicalToVirtual: the range ends within the frames of the bitmap and the address space; set_frame has no check of its own.
- Paging.Mmu.IdentityMapMemoryBlock: as for MapPhysicalToVirtual, and the end is a page below the top of the address space, where the loop variable would wrap.
- Paging.Mmu.InitPaging: the first pages of the two heaps, the tables reserved for the kernel heap, and the frame buffer, which lies beyond the bitmap, are not mapped.
- Paging.Mmu.DuplicateCurrentPageDirectory: the buffer page is present in a table that the kernel shares, and there are enough free frames; CopyPage says what happens without one. Page tables and directories are taken from kernel memory without using up frames of the bitmap, a table address is non-null exactly when its physical address is, and the TLB is ignored.
- SpaceRuns.RunKept: the steps are forks, new page tables, frames handed out by alloc_frame and stores; a page mapped to a frame of the caller's choice by map_frame shares that frame by design and is no step.
- UnixSocket.StepInv: one acceptor for each listening socket, and queue_push and queue_pop are atomic; queue_lock as written never takes its lock, so that is an assumption.
- Tty.Tty.Write: text without escape sequences; the parsing of escape sequences does not keep its parameters on the screen. Drawing the screen is not modelled.
- Ring.Ring.Write: the backlog stays below 65536 bytes. The byte behind the store, which the kernel does not own, keeps what is written to it, so that the stream laws hold; nothing is said of a ring whose byte there is changed by others. Only rings with the 16-bit index are modelled; other sizes are refused by the code. Waiting for data is not modelled.
- Ring.Ring.Remove: only the removal of the last byte; the code has no other.
- Scheduler.Scheduler.KillProc: a task other than the last ready one is killed, blocked or waits, so that there is one to switch to. The decrement through the null pointer of a dead parent changes no task; what else it does is not modelled. Register saving, stack switching, interrupts, signals and the release of a dead task's memory are not modelled.
- Disk.BlockDevice.Read: the buffer is a sequence passed in and out, so aliasing of buffer and driver memory is not captured; the return value adds up blocks and bytes and is not modelled.
- Disk.BlockDevice.Write: drivers write all the blocks they are given; the early return on a short write and the return value are not modelled.
- Ext2.HandleIndirectBp: a pointer of 0 is included where the next two pointers of the block are 0 as well, the end of a file. Excluded is a 0 in front of anything else, where the code guesses a block from the neighbours, and a 0 among the last two of a block, where it reads behind the block.
- Ext2.InodeOffsetFormula: the products of block numbers and block sizes are not cut to 32 bits; they do not reach that for blocks of a disk below 4 GiB.
- Ext2.ReadFile: the inode is given as a value, not parsed from its bytes, and drivers return more than zero for a successful read. Triple indirect blocks are refused by the code. Writing files, allocating blocks and inodes, and directories are not modelled.
- FdVector.Vector.Expand: memory for the larger table is there, and its size does not overflow.
- Drivers (ATA, PCI, network, PS/2, serial, clock, graphics), interrupt and context-switch assembly, boot code.
- The virtual file system, pipes and character devices as such, sockets other than local stream sockets, system call dispatch: they forward to what is modelled here.
- realloc_frame, free_frame, get_frame and clear_page_directory, which do something other than their comments say, and the unused sleeping list of the scheduler.
- printk, login, environment strings, keyboard maps, ELF loading, and all user programs and libraries.
