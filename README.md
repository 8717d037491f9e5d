# Linux 0.11 kernel core in Dafny

This project models the core of the Linux 0.11 kernel, a single-CPU, cooperative i386 kernel. Every piece below is proved against a specification written as Dafny functions and lemmas.

The centre of the model is the block buffer cache of fs/buffer.c:
- a fixed pool of buffer heads;
- 307 hash buckets keyed by `(dev ^ block) % 307`;
- a circular free list.

Its operations find, claim (getblk's victim choice by `2 * dirt + lock`), read, write back and release buffers. The request queue of kernel/blk_drv/ll_rw_blk.c sits below the cache. It has 32 request slots, of which writes may use only the low two thirds, and keeps one pending list per major in the elevator order `IN_ORDER` of blk.h. On a failed request, end_request (kernel/blk_drv/blk.h:136-137) prints the block number through the request's buffer pointer without testing it. The queue invariant gives every queued request a buffer, so LlRwBlk.RequestQueue.EndRequest proves that this NULL read cannot happen.

Around the cache the model covers:
- the zone and inode bitmaps, block mapping, the inode table, truncation and the super-block table;
- path-name checks, pipes, raw-device and file reads and writes, lseek, and the descriptor tables;
- the request side of the hard-disk, floppy and RAM-disk drivers;
- the terminal queues, the line discipline, the terminal ioctls and the console's escape-sequence machine;
- the scheduler and its delta-list timers, signals, the id and break system calls, fork, exit and waitpid;
- the `mem_map` page counts and the page-table copy and share rules, and the bucket allocator of lib/malloc.c;
- vsprintf, the string functions of include/string.h, kernel_mktime, the a.out macros, exec's loading checks, and the boot-time sizing in init/main.c.

Each source file is one module, named after it.
- Code that changes state in place is a class: the buffer cache, the request queue, the drivers, the terminal queues and terminals, the console, the timer list, the kernel's task table, the page map and the allocator. Its methods carry `modifies` clauses and are proved against value functions of the old state.
- Pure code is datatypes, functions and lemmas.

The kernel's waits (`sleep_on`, `wait_on_buffer`) appear as `Sleep` calls in the model. Each call consumes one step of a finite script of environment steps (module Interleave):
- a driver completing a request;
- another task changing the pool. Such a change is adopted only when it respects the buffers the sleeping task holds.

A run whose script ends while the task is still waiting ends with the outcome `Asleep`. A loop that would spin forever ends with `Spins`.

The following are parameters or returned effects, not modelled behaviour:
- hardware;
- user memory, which is given as values or byte arrays;
- the clock;
- the page allocator, where a call's result is a parameter.

Integers are unbounded in Dafny, so 32-bit wrap-around, truncating division and two's-complement bit tests are written out wherever the source relies on them. The reference counts are the exception: b_count, i_count and f_count are unbounded in the model (see "## Left out").

## Model

| member | source | states |
|---|---|---|
| BufferState.HashFn | fs/buffer.c:153-154 | the bucket `(dev ^ block) % NR_HASH` of a key is a valid index into the hash table |
| BufferState.Badness | fs/buffer.c:257 | BADNESS is 0..3 and is 0 exactly for a buffer neither dirty nor locked |
| BufferState.Invalidated | fs/buffer.c:103-117 | invalidate_buffers leaves a buffer of the device neither up to date nor dirty, touches no other flag or field, and leaves other devices' buffers alone |
| BufferState.SyncedTwice | fs/buffer.c:72-97 | two sync_dev passes with no other task running change nothing, so no buffer of the device was locked or dirty with a driver |
| BufferState.FirstFreeWhenClean | fs/buffer.c:271-283 | getblk's scan stops at the first unused buffer of BADNESS 0 in free-ring order, and that buffer is the least recently used free one |
| BufferState.InvSameShape | fs/buffer.c:160-201 | changing only flags and counts keeps the hash chains and the free ring well formed |
| BufferQueues.Relinked | fs/buffer.c:164-167 | unlinking from a hash chain joins the two chain neighbours and changes no other field |
| BufferQueues.RelinkedFree | fs/buffer.c:174-175 | unlinking from the free ring joins the two ring neighbours and changes no other field |
| BufferQueues.Spliced | fs/buffer.c:188-200 | insert_into_queues puts the buffer at the tail of the free ring and at the head of its chain, updating exactly the neighbours' links |
| BufferQueues.UnqueuedOk | fs/buffer.c:160-178 | remove_from_queues on a well-formed pool leaves the buffer detached, drops it from the ring at its position, and changes only link fields |
| BufferQueues.EnqueuedOk | fs/buffer.c:184-201 | insert_into_queues (with the bucket-head store guarded) restores the pool invariant with the buffer last in the ring and first in its bucket |
| BufferQueues.AsWrittenStoresThroughNull | fs/buffer.c:200 | as written, insert_into_queues stores through a NULL bucket head exactly when a hashed buffer enters an empty bucket, and agrees with the guarded version otherwise |
| BufferQueues.DetachedInsertable | fs/buffer.c:188-191 | a detached buffer can be inserted: the ring tail is the free-list head's predecessor |
| BufferQueues.RekeyedDetached | fs/buffer.c:310-311 | giving a detached buffer a new key that no hashed buffer has keeps the pool consistent |
| BufferQueues.ClaimStages | fs/buffer.c:305-312 | each stage of getblk's claim (flags cleared, removed, rekeyed) meets what the next stage needs |
| BufferQueues.ClaimedOk | fs/buffer.c:305-313 | the claimed buffer has the new key, count 1, clean and not up to date, moves to the ring tail and heads its bucket; every other buffer changes only in its links |
| BufferQueues.ClaimOwns | fs/buffer.c:305-313 | the claim gives the task one reference to the buffer and keeps every reference it already held |
| Buffer.LayoutSound | fs/buffer.c:440-469 | buffer_init's data blocks are disjoint, descending, above the heads, below the top, and never overlap the 640 KB..1 MB hole |
| Buffer.Layout | fs/buffer.c:447-469 | the loop computing the block addresses produces the layout LaidOut describes, with at least two buffers |
| Buffer.FreshPool | fs/buffer.c:452-474 | every head buffer_init builds is unused, unhashed and linked into one free ring in array order |
| Buffer.HitQuiet | fs/buffer.c:269-270 | getblk returning a cached buffer with one more reference is its quiet outcome |
| Buffer.CachedHit | fs/buffer.c:269-270 | when a buffer of the key is cached and up to date, a quiet getblk returns that buffer |
| Buffer.QuietMiss | fs/buffer.c:300-313 | on a miss the undisturbed getblk leaves the claimed buffer fresh for the key at the tail of the free ring, and every other buffer as it was but for its links |
| Buffer.GotStep | fs/buffer.c:380-386 | bread_page's first loop records no buffer for block number 0 and a buffer of the key otherwise |
| Buffer.PageFromStep | fs/buffer.c:391-392 | copying one more kilobyte keeps the page equal to the copied buffers' data where copied and to the old page elsewhere |
| Buffer.PageFromUncopied | fs/buffer.c:391 | a kilobyte not copied leaves the page's record unchanged |
| Buffer.PageStart | fs/buffer.c:388 | before the copy loop no kilobyte is copied |
| Buffer.Cache.BufferInit | fs/buffer.c:440-478 | buffer_init yields a valid cache: the fresh pool, every bucket empty, no request queued |
| Buffer.Cache.Sleep | fs/buffer.c:40-46 | a sleep consumes one environment step; a change by another task is adopted only when it respects the buffers this task holds |
| Buffer.Cache.WaitOnBuffer | fs/buffer.c:40-46 | wait_on_buffer returns with the buffer unlocked, sleeps only while it is locked, and changes nothing when it was not locked |
| Buffer.Cache.FindBuffer | fs/buffer.c:209-219 | find_buffer returns NULL exactly when no hashed buffer has the key, and otherwise the buffer of the key in its bucket's chain |
| Buffer.Cache.SelectVictim | fs/buffer.c:271-283 | getblk's scan returns NULL exactly when every buffer is in use, and otherwise an unused buffer of least BADNESS, the first such in ring order |
| Buffer.Cache.Unlink | fs/buffer.c:164-177 | the stores of remove_from_queues: the pool and hash table become the unlinked ones, and free_list moves on when it pointed at the buffer |
| Buffer.Cache.RemoveFromQueues | fs/buffer.c:160-178 | remove_from_queues on a valid cache gives exactly the Unqueued state, with the buffer detached |
| Buffer.Cache.Splice | fs/buffer.c:184-200 | the stores of insert_into_queues give the Spliced pool and the buffer at the head of its bucket |
| Buffer.Cache.InsertIntoQueues | fs/buffer.c:184-201 | insert_into_queues on a detached buffer gives exactly the Enqueued state and a valid cache |
| Buffer.Cache.Claim | fs/buffer.c:305-312 | getblk's claim gives exactly the Claimed state and a valid cache |
| Buffer.Cache.LlRwBlock | kernel/blk_drv/ll_rw_blk.c:188-199 | ll_rw_block only changes buffer flags; without a driver it does nothing; READA/WRITEA on a locked buffer do nothing; READ or WRITE of an unlocked buffer leaves it locked and clean unless the task sleeps for good |
| Buffer.Cache.SyncOne | fs/buffer.c:80-85 | one turn of sync_dev's loop writes the buffer when it is of the device and dirty, and otherwise changes nothing when undisturbed |
| Buffer.Cache.SyncWrite | fs/buffer.c:84-85 | after the wait the buffer is written exactly when it is still of the device and dirty, and no other buffer changes when undisturbed |
| Buffer.Cache.SyncPass | fs/buffer.c:79-86 | an undisturbed pass of sync_dev writes exactly the dirty buffers of the device that has a driver and changes nothing else |
| Buffer.Cache.SyncDev | fs/buffer.c:72-97 | each undisturbed pass of sync_dev writes exactly the dirty buffers of the device; when nothing else ran at all, nothing changed |
| Buffer.Cache.FlushOne | fs/buffer.c:60-62 | one turn of sys_sync's loop waits for the buffer and writes it when dirty, changing no other buffer |
| Buffer.Cache.SysSync | fs/buffer.c:51-65 | an undisturbed sys_sync writes every dirty buffer whose device has a driver and changes nothing else |
| Buffer.Cache.InvalidateOne | fs/buffer.c:111-115 | one turn of invalidate_buffers clears the flags of the buffer when it is still of the device after the wait |
| Buffer.Cache.InvalidateBuffers | fs/buffer.c:103-117 | an undisturbed invalidate_buffers applies Invalidated to every buffer |
| Buffer.Cache.Pin | fs/buffer.c:241 | b_count++ gives the task one more reference and changes nothing else |
| Buffer.Cache.Unpin | fs/buffer.c:246 | b_count-- on a held buffer drops exactly that reference |
| Buffer.Cache.HoldFound | fs/buffer.c:241-246 | get_hash_table keeps the buffer found only if it still has the key after the wait, and otherwise drops its reference and asks for another round |
| Buffer.Cache.HashRound | fs/buffer.c:239-246 | one round of get_hash_table's loop: NULL when the key is absent, a held unlocked buffer of the key when kept |
| Buffer.Cache.GetHashTable | fs/buffer.c:234-248 | get_hash_table returns NULL only when the key is absent and otherwise a held, unlocked buffer of the key; undisturbed it only adds one reference |
| Buffer.Cache.Scrub | fs/buffer.c:292-297 | getblk's cleaning loop ends with the victim clean, unused and unlocked, starts over when another task took it, and turns for ever exactly when its device has no driver |
| Buffer.Cache.Victim | fs/buffer.c:271-297 | getblk's choice of victim: an unused, unlocked, clean buffer, the first free one when undisturbed; it sleeps on buffer_wait when all are in use |
| Buffer.Cache.Ready | fs/buffer.c:289-297 | getblk's wait on its victim starts over when the victim was taken meanwhile and otherwise leaves it unused, unlocked and clean |
| Buffer.Cache.Take | fs/buffer.c:300-313 | getblk starts over, changing nothing, when the key appeared meanwhile; otherwise the whole cache becomes the Claimed state of the victim for the key |
| Buffer.Cache.ClaimRound | fs/buffer.c:271-313 | a claim round returns a fresh held buffer of the key; undisturbed, the least recently used free buffer is claimed and the whole cache is its Claimed state |
| Buffer.Cache.GetblkRound | fs/buffer.c:268-313 | one round of getblk: undisturbed, a cached buffer only gains a reference with the rest of the cache unchanged, and otherwise the cache is the Claimed state of the least recently used free buffer |
| Buffer.Cache.Getblk | fs/buffer.c:265-315 | getblk returns a held, unlocked buffer of the key; undisturbed, a cached buffer only gains a reference and nothing else changes, and otherwise the whole cache is the Claimed state of the least recently used free buffer; it spins only on a dirty victim without a driver |
| Buffer.Cache.Brelse | fs/buffer.c:321-329 | brelse does nothing for NULL, waits for the buffer and drops one reference, panicking "Trying to free free buffer" exactly when the count was already 0 |
| Buffer.Cache.Decrement | fs/buffer.c:326-327 | the decrement panics exactly when the old count was 0, and otherwise lowers that one count |
| Buffer.Cache.Settle | fs/buffer.c:349-353 | after the wait the buffer is kept exactly when it is up to date; a buffer not kept was released unlocked and not up to date |
| Buffer.Cache.ReadOrRelease | fs/buffer.c:346-353 | bread returns an up-to-date buffer at once, otherwise issues READ, waits and keeps it only when up to date, releasing it otherwise |
| Buffer.Cache.Bread | fs/buffer.c:340-354 | bread returns an up-to-date held buffer of the key, or NULL after releasing a buffer of the key that was not up to date; undisturbed, a cached up-to-date block is returned |
| Buffer.Cache.AskAhead | fs/buffer.c:422-423 | breada's read-ahead issues READA on the first buffer rather than on the one read ahead, and does nothing when the one read ahead is up to date or the first buffer is locked |
| Buffer.Cache.ReadAhead | fs/buffer.c:421-425 | one read-ahead step releases the reference to the buffer read ahead |
| Buffer.Cache.ReadAheadAll | fs/buffer.c:419-426 | breada's loop runs over the further block numbers up to the first negative one, keeping every reference the task holds |
| Buffer.Cache.ReadAheadBlock | fs/buffer.c:420-425 | one turn of breada's loop keeps the held references |
| Buffer.Cache.StartRead | fs/buffer.c:414-417 | breada's first READ is issued only when the buffer is not up to date, and leaves it locked and clean |
| Buffer.Cache.Breada | fs/buffer.c:407-434 | breada returns an up-to-date held buffer of the first block, or NULL after releasing a buffer of that block that was not up to date |
| Buffer.Cache.PageGet | fs/buffer.c:380-386 | bread_page's first loop gets a held buffer of each nonzero block number and none for 0 |
| Buffer.Cache.PageGetStep | fs/buffer.c:381-386 | one turn of the first loop extends the buffers got by one |
| Buffer.Cache.PageGetOne | fs/buffer.c:382-384 | getblk of a nonzero block with its READ started returns a held buffer of the key |
| Buffer.Cache.PageCopyOne | fs/buffer.c:389-394 | the buffer is copied into its kilobyte exactly when it is up to date after the wait, and the page changes only there |
| Buffer.Cache.PageCopyStep | fs/buffer.c:389-394 | one turn of the copy loop keeps the page record and adds the decision for one more kilobyte |
| Buffer.Cache.PageCopyNext | fs/buffer.c:389-394 | a turn of the copy loop keeps every reference the loop still holds and, when the task sleeps for good, the caller's own references |
| Buffer.Cache.PageCopy | fs/buffer.c:388-394 | the copy loop copies each nonzero block's buffer exactly when it is up to date and releases every buffer |
| Buffer.Cache.BreadPage | fs/buffer.c:374-395 | bread_page overwrites a kilobyte only with an up-to-date buffer of its block, copies every nonzero block whose buffer is up to date after the wait, skips block number 0, and releases every buffer |
| Blk.InOrderIsStrictOrder | kernel/blk_drv/blk.h:47-50 | IN_ORDER is irreflexive, asymmetric and transitive, and total on requests with distinct (cmd, dev, sector) keys |
| Blk.ReadsBeforeWrites | kernel/blk_drv/blk.h:47-50 | IN_ORDER compares the command first: every read precedes every write and never the reverse |
| Blk.InsertPos | kernel/blk_drv/ll_rw_blk.c:103-107 | the elevator scan stops at the first position whose pair (tmp, tmp->next) admits the request, or at the last request; no earlier pair admits it |
| Blk.Inserted | kernel/blk_drv/ll_rw_blk.c:103-109 | add_request on a non-empty list grows it by exactly the new request, keeps the current request at the head, and changes nothing else (multiset) |
| Blk.ElevatorKeepsSorted | kernel/blk_drv/ll_rw_blk.c:103-109 | on a list sorted in IN_ORDER whose head precedes the new request, the splice keeps the list sorted |
| Blk.PastDescent | kernel/blk_drv/ll_rw_blk.c:103-107 | once the scan has passed the list's wrap-around point, every entry it walks over precedes the new request in IN_ORDER |
| Blk.DescentSource | kernel/blk_drv/ll_rw_blk.c:103-109 | every out-of-order pair after the splice comes from one before it, at the same place or one back; a splice at the tail adds one only to a list that had none |
| Blk.ElevatorKeepsSweep | kernel/blk_drv/ll_rw_blk.c:103-109 | on any list in sweep order (at most one place where IN_ORDER descends), with keys distinct from the new request's, add_request's splice keeps it in sweep order |
| Blk.InsertedAfterHead | kernel/blk_drv/ll_rw_blk.c:103-109 | the request being served stays at the head and the new request lands right behind the scan's stopping point |
| Blk.ElevatorExample1 | kernel/blk_drv/ll_rw_blk.c:103-109 | a write below the current one is appended behind it (no pair to fit between) |
| Blk.ElevatorExample2 | kernel/blk_drv/ll_rw_blk.c:103-109 | a write between the sweep's end and the current request goes to the tail |
| Blk.ElevatorExample3 | kernel/blk_drv/ll_rw_blk.c:103-109 | a read goes straight behind the current request, ahead of every queued write |
| Blk.ElevatorSweepExample | kernel/blk_drv/ll_rw_blk.c:103-109 | a read below the sweep position waits for the next sweep, behind writes already queued |
| LlRwBlk.RetireKeeps | kernel/blk_drv/blk.h:125-147 | end_request on a major with a current request frees its slot, advances the list, unlocks its buffer with the given up-to-date flag, and keeps the request-layer invariant |
| LlRwBlk.LocksKeep | kernel/blk_drv/ll_rw_blk.c:55-75 | buffer changes that keep every requested buffer locked keep the request-layer invariant |
| LlRwBlk.FillKeeps | kernel/blk_drv/ll_rw_blk.c:171-180 | filling a free slot for a locked buffer no slot holds keeps the invariant, with that slot as the one pending insertion |
| LlRwBlk.RegisterKeeps | kernel/blk_drv/ll_rw_blk.c:205-215 | installing a request function keeps the invariant |
| LlRwBlk.FirstKeeps | kernel/blk_drv/ll_rw_blk.c:96-101 | on an empty list the pending slot becomes the current request and the invariant holds again |
| LlRwBlk.SpliceKeeps | kernel/blk_drv/ll_rw_blk.c:103-109 | the splice of the pending slot behind any list position restores the invariant, the list gaining exactly that slot |
| LlRwBlk.FirstAddKeeps | kernel/blk_drv/ll_rw_blk.c:87-101 | add_request on an empty list, from the state it is called in: link and dirty flag cleared, slot becomes current, invariant restored |
| LlRwBlk.SortedAddKeeps | kernel/blk_drv/ll_rw_blk.c:87-111 | add_request on a non-empty list: the scan position computed after clearing the link is the one on the original list, and the splice there restores the invariant |
| LlRwBlk.PrepareKeeps | kernel/blk_drv/ll_rw_blk.c:91-94 | clearing the pending slot's link and its buffer's dirty flag keeps the invariant |
| LlRwBlk.EntriesSpliced | kernel/blk_drv/ll_rw_blk.c:103-109 | the linked splice behind the scan position yields exactly Blk.Inserted of the pending requests: the pointer code matches the value-level elevator |
| LlRwBlk.InsertPosFirst | kernel/blk_drv/ll_rw_blk.c:103-107 | a scan that passed every earlier pair and stopped at an admitting pair or the tail stopped where InsertPos says |
| LlRwBlk.RequestQueue.BlkDevInit | kernel/blk_drv/ll_rw_blk.c:205-215 | blk_dev_init: every slot free (dev -1, next NULL), no request function, every list empty |
| LlRwBlk.RequestQueue.IdleValid | kernel/blk_drv/ll_rw_blk.c:205-215 | the idle request layer is consistent with any buffer pool |
| LlRwBlk.RequestQueue.Register | kernel/blk_drv/ll_rw_blk.c:205-215 | installing a driver's request function changes only that major's entry and keeps the invariant |
| LlRwBlk.RequestQueue.EndRequest | kernel/blk_drv/blk.h:125-147 | end_request: the current slot is freed, the major's current pointer moves to its next, the buffer gets the up-to-date flag and is unlocked, and nothing else changes |
| LlRwBlk.RequestQueue.InitRequest | kernel/blk_drv/blk.h:152-161 | INIT_REQUEST returns when no request is current, panics on a request of another major or an unlocked buffer, and neither panic can happen under the invariant |
| LlRwBlk.RequestQueue.FindFreeSlot | kernel/blk_drv/ll_rw_blk.c:149-158 | the search from the top returns the highest free slot below NR_REQUEST for reads and below two thirds of it for writes, or -1 when all are busy |
| LlRwBlk.RequestQueue.Sleep | kernel/blk_drv/ll_rw_blk.c:161-168 | a wait in the request layer consumes one scripted step (a driver completion), keeps the invariant and the buffers' keys, and reports whether the task woke |
| LlRwBlk.RequestQueue.LockBuffer | kernel/blk_drv/ll_rw_blk.c:55-62 | lock_buffer sleeps while the buffer is locked; when it returns awake the buffer is locked and no slot holds it; an unlocked buffer is locked without sleeping |
| LlRwBlk.RequestQueue.ScanList | kernel/blk_drv/ll_rw_blk.c:103-107 | the pointer walk over the linked list stops at the entry InsertPos names |
| LlRwBlk.RequestQueue.AddRequest | kernel/blk_drv/ll_rw_blk.c:87-111 | add_request clears the dirty flag, makes the request current on an empty list, otherwise splices it where the elevator scan stops, and keeps the invariant |
| LlRwBlk.RequestQueue.AddBehind | kernel/blk_drv/ll_rw_blk.c:103-109 | on a non-empty list the request is linked in behind the InsertPos entry and the list becomes q[..k+1] + [slot] + q[k+1..] |
| LlRwBlk.RequestQueue.AddFirst | kernel/blk_drv/ll_rw_blk.c:96-101 | on an empty list the request becomes the device's current request and its list is [slot] |
| LlRwBlk.RequestQueue.AddSorted | kernel/blk_drv/ll_rw_blk.c:103-109 | the scan-and-splice leaves the request array, pool and lists of the spliced state |
| LlRwBlk.RequestQueue.Prepare | kernel/blk_drv/ll_rw_blk.c:91-94 | the request's link is cleared and its buffer's dirty flag is cleared, nothing else |
| LlRwBlk.RequestQueue.Splice | kernel/blk_drv/ll_rw_blk.c:103-109 | the request array after the scan and splice is Spliced behind the entry at InsertPos |
| LlRwBlk.RequestQueue.GetSlot | kernel/blk_drv/ll_rw_blk.c:149-168 | a slot is found (free, in the writer's two thirds for writes) or, for read/write-ahead, the buffer is unlocked and nothing queued, or the task sleeps for good |
| LlRwBlk.RequestQueue.MakeRequest | kernel/blk_drv/ll_rw_blk.c:119-181 | make_request: a bad command panics; READA/WRITEA on a locked buffer do nothing; an unneeded write or read unlocks and queues nothing; a needed one ends with a filled slot in the major's list or asleep |
| LlRwBlk.RequestQueue.Submit | kernel/blk_drv/ll_rw_blk.c:139-181 | after lock_buffer: a clean buffer for writing or up-to-date buffer for reading is unlocked and nothing queued, otherwise a slot is taken, filled and added |
| LlRwBlk.RequestQueue.Queue | kernel/blk_drv/ll_rw_blk.c:171-181 | the free slot is filled from the locked buffer (dev, cmd, sector, nr_sectors 2, buffer, waiting NULL) and added to its major's list, clearing the dirty flag |
| LlRwBlk.RequestQueue.LlRwBlock | kernel/blk_drv/ll_rw_blk.c:188-199 | ll_rw_block refuses a major with no driver (nothing changes), otherwise behaves as make_request; a needed read or write always ends queued or asleep |
| BlockDev.Chunk | fs/block_dev.c:32-34 | a chunk is at least one byte, at most what is left to transfer, never past the block's end, and is either the rest of the count or the rest of the block |
| BlockDev.ReadSpan | fs/block_dev.c:72-88 | block_read transfers a prefix of the request: every byte of it can be read, and it stops short only at a byte whose block cannot be read |
| BlockDev.WriteSpan | fs/block_dev.c:31-51 | block_write transfers a prefix of the request and stops short only at a partial-block chunk whose block cannot be read (a whole-block chunk needs no read) |
| BlockDev.AllRead | fs/block_dev.c:72-88 | when every byte of the range can be read, block_read transfers all count bytes |
| BlockDev.WriteThenRead | fs/block_dev.c:22-89 | bytes block_write left on the device are read back by block_read in full and unchanged |
| BlockDev.WriteStep | fs/block_dev.c:42-50 | one chunk copied into its block extends the bytes written by exactly that chunk and keeps every byte outside the range |
| BlockDev.ReadStep | fs/block_dev.c:79-85 | one chunk copied out of its block extends what has been read with the device's bytes |
| BlockDev.Device.CopyIn | fs/block_dev.c:47-48 | the byte loop leaves the block with the user bytes spliced in at the offset |
| BlockDev.Device.CopyOut | fs/block_dev.c:84-85 | the byte loop delivers exactly the chunk of the block starting at the offset |
| BlockDev.Device.BlockWrite | fs/block_dev.c:22-53 | block_write returns the bytes written, or -EIO when the first chunk fails; pos advances by them; exactly those bytes hold the user data, no other byte changes, and the blocks touched are marked dirty |
| BlockDev.Device.BlockRead | fs/block_dev.c:63-89 | block_read returns the bytes read, or -EIO when the first chunk fails; pos advances by them and the user gets the device's bytes at those positions |
| Driver.Unsigned | kernel/blk_drv/hd.c:400-402 | the 32-bit unsigned view of a value: in range, the identity on 0..2^32-1, and x + 2^32 for a negative x of one word |
| Driver.ExtendsFail | kernel/blk_drv/blk.h:125-147 | retiring one more request as failed extends the record of ended requests |
| Driver.Le16 | kernel/blk_drv/hd.c:119-124 | a little-endian unsigned short read from a byte table is below 2^16 |
| Driver.Le32 | kernel/blk_drv/hd.c:191-192 | a little-endian unsigned int read from a byte table is below 2^32 |
| Hd.TrackSplit | kernel/blk_drv/hd.c:416-420 | the two divisions give sector, head and cylinder that recombine to the absolute sector |
| Hd.LocateMeans | kernel/blk_drv/hd.c:405-420 | a request is out of range exactly when its minor is beyond the drives or sector + 2 exceeds the partition; otherwise the place found is on the partition's drive, with sec in 1..sect, head below heads, and recombines to start_sect + sector |
| Hd.AfterBadRw | kernel/blk_drv/hd.c:323-331 | bad_rw_intr counts one more error; the request fails exactly at MAX_ERRORS and is then dropped; reset stays set once set; the errors test then reads the next request, or through NULL when none is left |
| Hd.RetriesThenFails | kernel/blk_drv/hd.c:323-331 | a failing request is retried until its seventh error, asking for a reset from its fourth error on |
| Hd.FailureSkipsReset | kernel/blk_drv/hd.c:326-330 | when the seventh error ends a request, the reset test looks at the next request, so no reset is asked for although the failed one had more than MAX_ERRORS/2 errors |
| Hd.LastFailureReadsNull | kernel/blk_drv/hd.c:326-330 | when the last request fails, the reset test depends only on the word read through the NULL CURRENT |
| Hd.ReadsMove | kernel/blk_drv/hd.c:345-350 | after k read interrupts the request's buffer and sector have moved k sectors on and the error count is 0 |
| Hd.WritesMove | kernel/blk_drv/hd.c:371-377 | after k write interrupts k sectors are done, but buffer and sector stop one short at the last one |
| Hd.HardDisk.constructor | kernel/blk_drv/hd.c:43-74 | the static state: no drives, empty partition table, reset and recalibrate set, sys_setup callable |
| Hd.HardDisk.EndRequest | kernel/blk_drv/blk.h:125-147 | end_request drops the current request and records it as ended with the given outcome |
| Hd.HardDisk.BadRwIntr | kernel/blk_drv/hd.c:323-331 | bad_rw_intr leaves the queue, reset flag and ended requests AfterBadRw describes |
| Hd.HardDisk.DoHdRequest | kernel/blk_drv/hd.c:397-456 | do_hd_request fails out-of-range requests, resets or recalibrates when asked, otherwise sends a read or write command for the current request at the place Locate finds, with its sector count |
| Hd.HardDisk.ReadIntr | kernel/blk_drv/hd.c:336-357 | read_intr on error goes through bad_rw_intr; otherwise advances the request one sector, and on the last one ends it successfully and starts the next |
| Hd.HardDisk.WriteIntr | kernel/blk_drv/hd.c:362-381 | write_intr on error goes through bad_rw_intr; otherwise counts one sector written, and on the last one ends the request successfully and starts the next |
| Hd.HardDisk.RecalIntr | kernel/blk_drv/hd.c:387-392 | recal_intr runs bad_rw_intr on a controller error, then do_hd_request; ended requests only grow |
| Hd.HardDisk.SysSetup | kernel/blk_drv/hd.c:102-202 | sys_setup runs once (-1 after); it takes both drives' geometry from the BIOS table, the drive count from CMOS, sizes whole-drive entries, clears absent drives, copies each partition table and panics on an unreadable or unsigned one |
| Hd.HardDisk.SetWholeDrives | kernel/blk_drv/hd.c:134-138 | entry 0 of each present drive spans heads x sectors x cylinders from sector 0 |
| Hd.HardDisk.ClearAbsent | kernel/blk_drv/hd.c:171-174 | entry 0 of every drive from the drive count up is cleared |
| Hd.HardDisk.ReadTables | kernel/blk_drv/hd.c:175-195 | succeeds exactly when every present drive's block 0 reads and ends in 55 AA, and then entries 1-4 of each drive come from its table at 0x1BE |
| Hd.CmosDrives | kernel/blk_drv/hd.c:163-169 | the CMOS drive count is 0, 1 or 2 |
| Hd.BiosDrives | kernel/blk_drv/hd.c:128-131 | the BIOS drive count is 1 or 2 |
| Floppy.TypeOf | kernel/blk_drv/floppy.c:540 | TYPE(minor) = minor >> 2 selects a floppy_type entry for minors below 32; from 32 on the index runs past the table, which the driver does not check |
| Floppy.NoTestingAlwaysFails | kernel/blk_drv/floppy.c:105 | type 0 ("no testing") has size 0, so every request on it fails the size test before any division by its zero geometry |
| Floppy.TableIsRegular | kernel/blk_drv/floppy.c:104-113 | every real entry of floppy_type has nonzero sectors, heads and tracks, stretch 0 or 1, and size = sect x head x track |
| Floppy.PlaceMeans | kernel/blk_drv/floppy.c:544-556 | a block fits exactly when block + 2 <= size; then sector is 1..sect, head below heads, track below tracks, they recombine to the block, and the seek track is the track shifted by stretch |
| Floppy.AfterBadFlp | kernel/blk_drv/floppy.c:286-301 | bad_flp_intr counts one more error and fails the request only beyond MAX_ERRORS; it always asks for a reset or a recalibration, testing the next request (or NULL) when the failed one was dropped |
| Floppy.RetriesThenFails | kernel/blk_drv/floppy.c:286-301 | a failing request is retried until its ninth error; its first four failures recalibrate, the later ones reset |
| Floppy.FloppyDisk.constructor | kernel/blk_drv/floppy.c:58-140 | the static driver state: no request, reset and recalibrate clear, no current drive or track |
| Floppy.FloppyDisk.EndRequest | kernel/blk_drv/blk.h:125-147 | end_request drops the current request and records it as ended with the given outcome |
| Floppy.FloppyDisk.BadFlpIntr | kernel/blk_drv/floppy.c:286-301 | the queue, flags and ended requests AfterBadFlp describes |
| Floppy.FloppyDisk.Prepare | kernel/blk_drv/floppy.c:540-556 | the request's type is looked up; past the table nothing else changes; otherwise the drive becomes current, the geometry is Place's, and seek is set when drive or seek track changed |
| Floppy.FloppyDisk.DoFdRequest | kernel/blk_drv/floppy.c:524-565 | do_fd_request clears seek, then resets (forcing a new specify and rate and a recalibration) or recalibrates (track 0) when asked; otherwise scans the requests as Scanned says |
| Floppy.FloppyDisk.Scan | kernel/blk_drv/floppy.c:539-564 | the request scan fails requests that do not fit and ends idle, past the table, or with a read or write transfer at Place's geometry on the request's drive |
| RamDisk.ReadAfterWrite | kernel/blk_drv/ramdisk.c:41-49 | a read served right after a write of the same sectors returns the bytes written |
| RamDisk.OutcomesMeans | kernel/blk_drv/ramdisk.c:36-54 | request i is retired successfully exactly when its minor is 1 and it fits within rd_length |
| RamDisk.DecodeEncode | kernel/blk_drv/ramdisk.c:100 | the super block copied out of block 257 is the one mkfs wrote there, whatever follows it |
| RamDisk.NBlocks | kernel/blk_drv/ramdisk.c:104 | s_nzones << s_log_zone_size as a 32-bit signed value; with log zone size 0 it is the zone count |
| RamDisk.ImageBlock | kernel/blk_drv/ramdisk.c:116-133 | block i of the loaded image is block 256 + i of the floppy |
| RamDisk.ImageLength | kernel/blk_drv/ramdisk.c:116-133 | an image of n blocks is n x BLOCK_SIZE bytes |
| RamDisk.LoadStep | kernel/blk_drv/ramdisk.c:126-131 | copying one more block extends the loaded image by it and leaves the rest of the disk as it was |
| RamDisk.RamDisk.constructor | kernel/blk_drv/ramdisk.c:27-56 | no RAM disk: rd_length 0 and no request function |
| RamDisk.RamDisk.EndRequest | kernel/blk_drv/blk.h:125-147 | end_request drops the current request and records it as ended with the given outcome |
| RamDisk.RamDisk.RdInit | kernel/blk_drv/ramdisk.c:63-75 | rd_init installs the request function, sets rd_length, zeroes exactly those bytes and returns the length |
| RamDisk.RamDisk.CopyIn | kernel/blk_drv/ramdisk.c:42-44 | memcpy of len buffer bytes into the disk at the offset, nothing else |
| RamDisk.RamDisk.CopyOut | kernel/blk_drv/ramdisk.c:47-49 | memcpy of len disk bytes into the buffer, nothing else |
| RamDisk.RamDisk.DoRdRequest | kernel/blk_drv/ramdisk.c:27-56 | do_rd_request retires requests in order, failing those of another minor or beyond rd_length, serving the rest, and leaves the disk and buffers as MemAfter and BufAfter say |
| RamDisk.RamDisk.Retire | kernel/blk_drv/ramdisk.c:33-54 | the current request fails when it does not fit; otherwise a write copies its buffer to the disk, a read the disk to its buffer, and it succeeds |
| RamDisk.RamDisk.Serve | kernel/blk_drv/ramdisk.c:41-52 | a write changes the disk at the request's sectors, a read changes the buffer's first len bytes |
| RamDisk.RamDisk.CopyBlock | kernel/blk_drv/ramdisk.c:126 | memcpy of one floppy block to block n of the disk |
| RamDisk.RamDisk.RdLoad | kernel/blk_drv/ramdisk.c:80-136 | rd_load does nothing without a RAM disk, off a floppy, without block 257 or a Minix magic, or when the image is too big; otherwise it copies blocks 256.. in order, stopping at the first unreadable one, and on success the image fills the disk's start and ROOT_DEV becomes 0x0101 |
| Bitmap.PutBits | fs/bitmap.c:28-43 | set_bit/clear_bit change bit n to the given value and no other bit, and no bitmap block appears or disappears |
| Bitmap.ClearUndoesSet | fs/bitmap.c:93-97 | clearing a bit new_block set restores every bit of the map: free_block undoes new_block |
| Bitmap.FindFirstZero | fs/bitmap.c:48-62 | find_first_zero returns the first clear bit of a block, or 8192 when all are set |
| Bitmap.Volume.Mount | fs/super.c:205-206 | a mounted volume's maps are the disk's with bit 0 of the first zone and inode map blocks ORed in: every other bit is the one on disk and neither block's dirty flag changes; geometry and device buffers as given, with no demand that the map blocks read reach s_nzones or s_ninodes |
| Bitmap.ForceBit0Sets | fs/super.c:205-206 | after bit 0 of the first map byte is forced on, bit 0 is set, every other bit is the one on disk, the first block keeps its dirty flag and the other blocks are untouched |
| Bitmap.Volume.Scan | fs/bitmap.c:116-119 | the scan over the eight bitmap slots finds the first clear bit of the first present block that has one, or reports that none has |
| Bitmap.Volume.NewBlock | fs/bitmap.c:105-143 | new_block returns 0 when no bit is clear; it sets the first clear bit, and returns 0 with that bit left set when the zone is beyond s_nzones (the bit leaks); otherwise it hands out a zeroed, up-to-date, dirty buffer for that zone, panicking when the buffer is referenced |
| Bitmap.Volume.FreeBlock | fs/bitmap.c:69-98 | free_block panics outside the data zones; a zone whose buffer another holds is left allocated (only reported); otherwise the buffer loses its valid and dirty flags, and then a zone bit whose s_zmap slot is NULL is cleared through that NULL pointer (`NullStore`), else the bit is cleared and a bit already clear panics |
| Bitmap.Volume.NewInodeBit | fs/bitmap.c:203-225 | new_inode's bitmap part sets the first clear inode bit and returns its number in 1..s_ninodes; beyond s_ninodes it fails and the map is unchanged |
| Bitmap.Volume.FreeInodeBit | fs/bitmap.c:172-180 | free_inode panics for inode 0 or beyond s_ninodes, and with "nonexistent imap in superblock" when the inode's s_imap slot is NULL; otherwise it clears the bit, reporting a bit already clear, and marks its block dirty |
| Bitmap.Volume.Bread | fs/buffer.c:340-354 | bread of a cached block takes one more reference to it and fails for any other block; the data view does not change |
| Bitmap.Volume.SetData | fs/bitmap.c:137-139 | writing a cached block's data marks its buffer dirty and changes nothing else |
| Bitmap.Volume.Brelse | fs/buffer.c:321-329 | brelse drops one reference and panics on a buffer with none; the data view does not change |
| InodeMap.PathRoundTrip | fs/inode.c:102-165 | every logical block 0 .. 7+512+512x512-1 maps to a direct, single or double indirect path that maps back to it |
| InodeMap.LogicalRoundTrip | fs/inode.c:102-165 | every well-formed path names exactly one logical block and is that block's path |
| InodeMap.Lookup | fs/inode.c:133 | an entry of an indirect block, as the unsigned short _bmap reads, is below 2^16 (0 when the block is 0 or cannot be read) |
| InodeMap.BmapPanics | fs/inode.c:102-105 | bmap panics exactly for a negative block or one at or beyond 7+512+512x512 |
| InodeMap.MappedIsFreed | fs/inode.c:96-178 | every nonzero zone bmap finds for a file is among the zones truncate frees |
| InodeMap.NewZone | fs/bitmap.c:105-143 | the new_block create_block calls: 0 changes no buffer; a nonzero zone is a data zone whose bit was clear and is now set, with a fresh zeroed unreferenced buffer |
| InodeMap.ThroughBlock | fs/inode.c:130-141 | one indirect step of create_block: an existing entry is returned with nothing changed; a 0 entry is filled with a new zone and the block marked dirty; what is returned is what bmap then reads there |
| InodeMap.ZoneSlot | fs/inode.c:107-116 | a direct or top-level slot already set is kept; a 0 slot gets a fresh zone, with i_ctime and i_dirt updated, and nothing else of the inode changes |
| InodeMap.DoubleThrough | fs/inode.c:152-172 | the two double-indirect steps return an existing entry unchanged, otherwise fill missing entries with fresh zones so that bmap then finds the result |
| InodeMap.CreateBlock | fs/inode.c:186-189 | create_block panics outside 0..MAX_BLOCK-1, returns the zone bmap already finds when there is one, and otherwise allocates fresh zones along the path so that bmap then finds the result |
| Super.Run | fs/super.c:179-188 | the bitmap loop reads a run of consecutive blocks, at most n, all readable, and stops short only at a block that cannot be read |
| Super.Loaded | fs/super.c:173-188 | after k blocks are read, exactly the first k of the eight slots hold them, in block order, and the rest are NULL |
| Super.ReadStep | fs/super.c:179-183 | one more successful bread extends the run by one and fills the next slot with that block |
| Super.FirstFree | fs/super.c:146-151 | the free-slot scan returns the first slot with s_dev 0, or -1 when every slot is in use |
| Super.LoadOkMeans | fs/super.c:177-206 | read_super's loops succeed exactly when both counts fit the slots and every map block from block 2 on can be read; the maps are then the disk's with bit 0 forced |
| Super.OutcomeOk | fs/super.c:193-206 | the block-count check succeeds exactly when every block asked for was read, and then hands over the maps with bit 0 forced |
| Super.RunAll | fs/super.c:179-188 | when every block can be read the loop reads all n |
| Super.LoadOfIs | fs/super.c:177-206 | the outcome computed from the loops' run lengths is the one LoadOf states |
| Super.FirstFreeIs | fs/super.c:146-151 | a free slot with every earlier slot in use is the one the scan returns |
| Super.Table.Init | fs/super.c:324-328 | mount_root's reset of the table: every slot free and unlocked |
| Super.Table.GetSuper | fs/super.c:78-95 | get_super returns the slot holding dev, and NULL for dev 0 or a device with no slot |
| Super.Table.PutSuper | fs/super.c:101-128 | put_super leaves the root device, an unknown device and a mounted super block alone; otherwise it frees the device's slot |
| Super.Table.ReadMaps | fs/super.c:179-188 | one bitmap loop ends one past the run of readable blocks with exactly those blocks loaded |
| Super.Table.ReadSuper | fs/super.c:135-209 | read_super returns NULL for dev 0, the slot already holding dev, NULL when no slot is free, and otherwise fills the first free slot as Filled says (freed again on a bad block 1, magic or bitmap read) |
| Super.Table.Fill | fs/super.c:153-208 | from a free slot: the super block is loaded with its maps when the device has a Minix super block and every map block reads, otherwise the slot is freed; no other slot changes |
| Super.Table.LoadMaps | fs/super.c:177-206 | the two loops and the count check compute LoadOf |
| Super.Table.LoadZones | fs/super.c:184-206 | the zone map loop and the check after it compute LoadAfter for the run read |
| Super.Table.FindFree | fs/super.c:146-151 | the scan returns FirstFree of the table |
| Super.Table.SysMount | fs/super.c:258-303 | sys_mount's errors in the source's order (-ENOENT, -EPERM for a non-block device, -ENOENT, -EBUSY for a busy or root dir, -EPERM for a non-directory, -EBUSY when read_super fails or the volume is mounted, -EPERM when the dir has a mount); on success the super block records the dir, which gets i_mount and i_dirt |
| Super.Table.SysUmount | fs/super.c:216-250 | sys_umount's errors in order (-ENOENT, -ENOTBLK, -EBUSY for the root, -ENOENT when not mounted, -EBUSY when an inode of the device is in use); success only then, and it frees the super block and reports the inodes to put |
| Super.InUse | fs/super.c:239-241 | the scan reports busy exactly when some inode of the device has a nonzero count |
| InodeTable.DiskFieldsRoundTrip | fs/inode.c:389-391 | copying the on-disk fields of an inode out and back in are inverses: read_inode of what write_inode stored gives the same fields |
| InodeTable.LocationOfFirst | fs/inode.c:383-384 | inode 1 is slot 0 of the block right after the boot block, super block and both bitmaps |
| InodeTable.LocationInjective | fs/inode.c:416-423 | distinct inode numbers (unsigned shorts) have distinct (block, slot) locations |
| InodeTable.LocationOfZero | fs/inode.c:383-384 | inode 0 wraps: the unsigned (i_num - 1) / INODES_PER_BLOCK puts it 2^27 - 1 blocks past the inode area, slot 31 |
| InodeTable.ReadAfterWrite | fs/inode.c:372-432 | read_inode after write_inode of a dirty inode gives back the inode written |
| InodeTable.WriteKeepsOthers | fs/inode.c:400-432 | write_inode of one inode leaves what read_inode gives for every other inode (other number or device) unchanged |
| InodeTable.Scan | fs/inode.c:259-268 | the last_inode scan result is a free slot, and when it stopped early that slot is also clean and unlocked |
| InodeTable.ScanStays | fs/inode.c:265-266 | once the scan breaks, further steps do not change its result |
| InodeTable.ScanMeans | fs/inode.c:259-268 | the scan stops at the first free clean slot in visiting order; without one it keeps the last free slot visited, or none |
| InodeTable.VisitNext | fs/inode.c:260-261 | the wrap-around increment of last_inode visits slot (last + i + 1) mod NR_INODE |
| InodeTable.VisitOnto | fs/inode.c:259-261 | the cyclic scan visits every slot |
| InodeTable.ScanNone | fs/inode.c:270-275 | the scan comes back empty-handed (and get_empty_inode panics) exactly when no slot has count 0 |
| InodeTable.InvalidatedLeavesNone | fs/inode.c:62-70 | invalidate_inodes leaves no inode of the device and keeps counts; inodes of other devices are untouched |
| InodeTable.SyncCleans | fs/inode.c:76-87 | after sync_inodes over slots 0..n-1 none of them is dirty, non-pipe and on a device; only dirty flags change there, and later slots are untouched |
| InodeTable.FailStays | fs/inode.c:82-86 | a write_inode that panics ends sync_inodes: later slots do not change the outcome |
| InodeTable.Dropped | fs/inode.c:204-211 | dropping a pipe inode's reference decrements the count, keeps mode, zones, device, number and size, and clears i_pipe exactly on the last reference |
| InodeTable.PipeInode | fs/inode.c:296-302 | get_pipe_inode's inode: count 2 (reader and writer), i_pipe set, the page in i_size, head and tail 0 so the pipe is empty |
| InodeTable.Table.Init | fs/inode.c:250-253 | the boot table: every slot zero and last_inode at slot 0 |
| InodeTable.Table.InvalidateInodes | fs/inode.c:55-71 | every inode of dev loses its device and dirty flag; all others unchanged |
| InodeTable.Table.SyncInodes | fs/inode.c:76-87 | sync_inodes writes every dirty non-pipe inode in table order, leaving the disk and table SyncUpTo computes, or panics with the first write_inode panic |
| InodeTable.Table.Choose | fs/inode.c:256-268 | one scan of get_empty_inode returns Scan's result and leaves last_inode where the scan stopped |
| InodeTable.Table.GetEmptyInode | fs/inode.c:250-288 | get_empty_inode panics exactly when no slot has count 0; otherwise it writes back the chosen inode if dirty and hands it out zeroed with count 1; a dirty inode with no device spins forever |
| InodeTable.Table.GetPipeInode | fs/inode.c:290-304 | get_pipe_inode panics as get_empty_inode; without a page the slot is given back and NULL returned; otherwise the slot holds PipeInode(page) |
| InodeTable.Table.ReleaseUnlinked | fs/inode.c:231-235 | the last iput of an unlinked inode truncates a regular file or directory (freeing exactly TruncFrees), clears its inode bit and empties the slot |
| InodeTable.Table.ReleaseLinked | fs/inode.c:237-243 | the last iput of a linked inode writes it back when dirty and drops the count to 0, or panics with write_inode |
| InodeTable.Table.Iput | fs/inode.c:193-244 | iput ignores NULL, panics on a free inode, drops pipe references (freeing the page on the last), only decrements a deviceless or shared inode, syncs the device of a block special file, and releases the last reference as ReleaseLinked or ReleaseUnlinked |
| InodeTable.Table.NewInode | fs/bitmap.c:190-228 | new_inode panics as get_empty_inode; with no inode bit to spare the slot is put back and NULL returned; otherwise it sets the bit and returns the inode with count 1, one link, the device, euid, egid, the number and the times, dirty |
| Namei.AccMode | fs/namei.c:21 | ACC_MODE maps O_RDONLY to MAY_READ, O_WRONLY to MAY_WRITE, O_RDWR to both, and access mode 3 to the signed char 0377, that is -1 |
| Namei.Permission | fs/namei.c:39-56 | permission denies an unlinked inode on a device; otherwise it grants exactly when every requested bit is set in the caller's class (owner, else group, else other), or the caller is the superuser |
| Namei.GrantsMeans | fs/namei.c:53 | `(mode & mask & 0007) == mask` holds exactly when every bit of the mask is set in the mode; never for mask -1 |
| Namei.AccModeThreeOnlySuperuser | fs/namei.c:21 | with access mode 3 the mask is -1, which only the superuser passes, and never on an unlinked inode of a device |
| Namei.ReadWriteNeedsBoth | fs/namei.c:21 | for a non-superuser, read-write access is granted exactly when both read and write are |
| Namei.Stored | fs/namei.c:226-227 | add_entry stores the first namelen characters of the name and NUL-pads to NAME_LEN |
| Namei.Match | fs/namei.c:65-80 | match succeeds only for a used entry, a length up to NAME_LEN, and equal first len bytes |
| Namei.MatchIsNameEquality | fs/namei.c:65-80 | for NUL-free names of 1..NAME_LEN characters, match against a stored name is exactly name equality on a used entry |
| Namei.Truncated | fs/namei.c:99-107 | with NO_TRUNCATE undefined a name longer than NAME_LEN is cut to NAME_LEN |
| Namei.LongNamesCollide | fs/namei.c:105-106 | two long names that agree on their first NAME_LEN characters match the same entries |
| Namei.PrepareName | fs/namei.c:105-129 | find_entry's preparation: ".." at the task's root searches for "." (length 1); ".." at a mounted file system's root crosses to the mount point |
| Namei.DotDotAtRootIsDot | fs/namei.c:113-116 | at the task's root ".." finds the "." entry: the root is its own parent |
| Namei.EntryAt | fs/namei.c:138-161 | entry j of a directory lies in block j / DIR_ENTRIES_PER_BLOCK at position j mod DIR_ENTRIES_PER_BLOCK and is well formed |
| Namei.NoHitBelowMeans | fs/namei.c:140-162 | the loop invariant of find_entry means no entry below n matches |
| Namei.FindEntry | fs/namei.c:90-165 | find_entry returns NULL exactly for an empty name, an unreadable first block, or no matching entry; otherwise the first matching entry (holes and unreadable blocks skipped) |
| Namei.ScanEntries | fs/namei.c:137-164 | the loop returns the first matching entry, or none when no entry matches |
| Namei.EmptyDir | fs/namei.c:583-625 | empty_dir holds exactly for a well-formed directory ("." naming itself, ".." used, at least two entries, block 0 readable) whose later blocks read and whose entries from index 2 on are all free |
| Namei.FreeBelowMeans | fs/namei.c:604-622 | the loop invariant of empty_dir means every loaded entry from 2 below n is free |
| Namei.SlashAt | fs/namei.c:277-278 | the component length loop stops at the first '/' or the end: no '/' before it |
| Namei.WalkEndsSearchable | fs/namei.c:269-294 | the directory get_dir returns is one the task may search (a directory with exec permission) |
| Namei.BaseStart | fs/namei.c:311-316 | dir_namei's base name starts just after the last '/' and contains none |
| Namei.WalkIgnoresBase | fs/namei.c:269-294 | get_dir never looks at the base name: walking the whole path and the path cut after its last '/' agree |
| Namei.GetDir | fs/namei.c:244-295 | get_dir's loop resolves the path to the directory GetDirOf specifies (root for a leading '/', pwd otherwise, NULL for an empty path) |
| Namei.ComponentLength | fs/namei.c:277-278 | the for loop measures the next component up to the first '/' |
| Namei.DirNamei | fs/namei.c:303-318 | dir_namei returns get_dir's directory together with the text after the last '/', and fails when get_dir does |
| Namei.OpenFlag | fs/namei.c:372-373 | O_TRUNC with read-only access becomes write-only; no other bit of the flag changes |
| Namei.CreateMode | fs/namei.c:374-375 | a created file's mode is the regular type with the permission bits of mode not masked by umask, and no bits 9..14 |
| Namei.OpenNamei | fs/namei.c:362-437 | open_namei's outcomes in the source's order: -ENOENT, the directory itself or -EISDIR for an empty base name, -EEXIST with O_EXCL, creation only with O_CREAT and write permission on the directory (mode CreateMode, owner euid), -EPERM for a directory opened for writing or a denied access |
| Namei.TruncNeedsWrite | fs/namei.c:372-373 | O_TRUNC on a read-only open is an open for writing: it needs write permission on the file and truncates it |
| Truncate.TruncFreesHasNoZero | fs/truncate.c:22-31 | truncate never hands block 0 (the "no block" mark) to free_block |
| Truncate.NonZeroHasNoZero | fs/truncate.c:26-28 | free_ind frees only the nonzero entries of an indirect block |
| Truncate.TruncFreesOfEmpty | fs/truncate.c:61-78 | truncating an inode with no zones frees nothing |
| Truncate.Free | fs/bitmap.c:69-98 | free_block as truncate uses it changes neither the inode map nor any block's data |
| Truncate.Read | fs/truncate.c:24 | bread succeeds exactly for a cached block and returns its contents; no data changes |
| Truncate.Release | fs/truncate.c:29 | brelse changes no block's data |
| Truncate.FreeEntries | fs/truncate.c:26-28 | the loop frees every nonzero entry of the block, in order |
| Truncate.FreeInd | fs/truncate.c:16-32 | free_ind does nothing for block 0; otherwise it frees the block's nonzero entries (when it reads) and then the block, as IndFrees lists |
| Truncate.FreeIndirects | fs/truncate.c:49-51 | the loop runs free_ind on every nonzero entry, in order |
| Truncate.FreeDind | fs/truncate.c:39-55 | free_dind does nothing for block 0; otherwise frees each indirect block below it and then the block, as DindFrees lists |
| Truncate.FreeDirect | fs/truncate.c:67-71 | the first loop frees every nonzero direct zone, in order |
| Truncate.Truncate | fs/truncate.c:61-78 | truncate leaves anything but a regular file or directory alone; otherwise it frees exactly TruncFrees (direct, indirect, double indirect) and leaves the inode with no zones, size 0, dirty, and both times now |
| Files.FreeFile | fs/open.c:194-198 | the lowest file_table entry at or after the start with f_count 0, or NR_FILE when every entry is in use, and every entry skipped is in use |
| Files.FreeFd | fs/open.c:188-192 | the lowest descriptor at or after the start whose filp slot is NULL, or NR_OPEN when none is, and every slot skipped is filled |
| Files.ClearFdBit | fs/open.c:193 | `close_on_exec &= ~(1<<fd)` clears bit fd and leaves every other bit as it was |
| Files.SetFdBit | fs/fcntl.c:76 | or-ing 1<<fd into close_on_exec sets bit fd and leaves every other bit as it was |
| Files.Descriptors.constructor | include/linux/fs.h:181 | a fresh descriptor table: every file_table entry free, every filp slot NULL, close_on_exec empty |
| Files.Descriptors.FindFd | fs/open.c:188-190 | the scan loop over filp returns exactly FreeFd from the given start |
| Files.Descriptors.FindFile | fs/open.c:194-196 | the scan loop over file_table returns exactly FreeFile from 0 |
| Fcntl.DupFd | fs/fcntl.c:24-45 | dupfd: -EBADF for a descriptor that is out of range or not open, -EINVAL for arg >= NR_OPEN, -EMFILE when no slot at or above arg is free; otherwise the lowest free slot at or above arg now shares the file, its f_count is one higher, its close-on-exec bit is clear, and nothing else changes; every error leaves the tables as they were |
| Fcntl.DupShares | fs/fcntl.c:41-43 | after a dup the new slot and the old one name the same file, the new slot's close-on-exec bit is clear, and every other slot is unchanged |
| Fcntl.SysDup | fs/fcntl.c:58-61 | dup returns the lowest free descriptor, now sharing the file of fildes, or -EBADF / -EMFILE with nothing changed |
| Fcntl.SysDup2 | fs/fcntl.c:47-51 | dup2 first closes newfd, then duplicates oldfd into exactly newfd when oldfd is open and differs from it; an out-of-range newfd gives -EINVAL, or -EBADF when oldfd is not open either |
| Fcntl.SetFlBits | fs/fcntl.c:83-84 | F_SETFL takes bits 10 and 11 (O_APPEND, O_NONBLOCK) from arg and every other flag bit from the old f_flags |
| Fcntl.SysFcntl | fs/fcntl.c:63-91 | fcntl: -EBADF for a descriptor not open; F_DUPFD is dupfd; F_GETFD returns bit fd of close_on_exec; F_SETFD sets or clears that bit from arg's low bit; F_GETFL returns f_flags; F_SETFL changes only O_APPEND and O_NONBLOCK; the lock commands and any other command return -1; each command touches only the table it names |
| Open.SysClose | fs/open.c:244-260 | close: -EINVAL for fd >= NR_OPEN (nothing changes) or an empty slot (only the close-on-exec bit is cleared); otherwise the slot becomes NULL, the file's f_count drops by one, the inode is handed to iput when it reaches 0, and a file whose f_count is already 0 panics |
| Open.TtyOutcome | fs/open.c:205-217 | opening a tty (major 4) makes it the controlling tty of a session leader that has none; opening /dev/tty (major 5) without a controlling tty fails; every other open leaves the task's tty alone |
| Open.SysOpen | fs/open.c:181-226 | open takes the lowest free descriptor (or -EINVAL), clears its close-on-exec bit, takes the lowest free file_table entry (or -EINVAL), and on a failed open_namei or a refused /dev/tty gives both back with the error; on success the descriptor names a file with f_count 1, f_mode the inode's mode, f_flags the flag, f_pos 0 |
| Open.Install | fs/open.c:199-225 | the part of open after both slots are found: exactly the failure and success outcomes above, keeping the tables unchanged on failure |
| Open.SysChmod | fs/open.c:134-148 | chmod: -ENOENT for no inode, -EACCES unless the caller owns the file (by euid) or is the superuser; otherwise the low twelve mode bits become the new ones, the file type bits stay, and the inode is marked dirty |
| Open.SysChown | fs/open.c:157-172 | chown: -ENOENT for no inode, -EACCES unless the caller is the superuser; otherwise the new uid and gid, with the inode dirty |
| Open.AccessShift | fs/open.c:70-73 | the class shift sys_access uses is 6 or 0, never 3 |
| Open.SysAccess | fs/open.c:60-86 | access answers 0 or -EACCES; -EACCES for no inode; 0 exactly when every requested bit of the low three is set in the caller's class bits, or the caller's real uid is 0 and execute was not asked for or some execute bit is set |
| Open.ClassGrant | fs/open.c:74 | `(res & 0007 & mode) == mode` after the shift holds exactly when every requested bit is set in that class of the mode |
| Open.ExecBits | fs/open.c:83 | `i_mode & 0111` is non-zero exactly when some execute bit (owner, group or other) is set |
| Open.GroupGetsOwnerBits | fs/open.c:72-73 | as written, a caller in the file's group is checked against the owner's bits: group read alone is refused and owner read alone is granted |
| FileDev.Layout | fs/file_dev.c:33-37 | the block map file_read walks: every logical block below the file-size limit has an entry, and each entry is what bmap returns for it |
| FileDev.ReadRun | fs/file_dev.c:30-51 | the bytes file_read delivers, block by block: nothing when count <= 0, and never more than count |
| FileDev.ChunkIsFile | fs/file_dev.c:42-45 | the bytes copied out of one present block are the file's bytes at those positions |
| FileDev.RunBytes | fs/file_dev.c:32-51 | every byte file_read delivers is the file's byte at f_pos plus its index |
| FileDev.RunStops | fs/file_dev.c:33-35 | file_read stops short only where a mapped block cannot be read, and panics only past the largest mapped block |
| FileDev.AllReadable | fs/file_dev.c:32-51 | when every position in the range can be read, file_read delivers exactly count bytes and finishes |
| FileDev.HoleReadsZero | fs/file_dev.c:36-49 | a file with no zones reads as zeros at every position |
| FileDev.Zeros | fs/file_dev.c:47-49 | the loop for a hole yields count zero bytes |
| FileDev.ReadChunk | fs/file_dev.c:33-46 | one block's chunk: it fails exactly when a mapped block cannot be read; otherwise it yields the chunk's bytes, zeros for a hole, and leaves the cache as it was |
| FileDev.ReadOne | fs/file_dev.c:33-50 | one pass of file_read's loop: a panic or a stop is what ReadRun says; otherwise a chunk of min(BLOCK_SIZE - offset, left) bytes that begins ReadRun, which goes on from the next block |
| FileDev.ReadLoop | fs/file_dev.c:32-51 | the whole loop delivers exactly ReadRun's bytes and status from f_pos |
| FileDev.FileRead | fs/file_dev.c:25-54 | file_read returns 0 for count <= 0; otherwise ReadRun's bytes, f_pos moved past them, i_atime set, and the count read or -ERROR when nothing was read |
| FileDev.WriteChunk | fs/file_dev.c:79-94 | writing a chunk into a block that bread finds splices the bytes at the offset and marks the buffer dirty; one it cannot find changes nothing |
| FileDev.PutChunk | fs/file_dev.c:79-93 | the chunk written is min(BLOCK_SIZE - pos % BLOCK_SIZE, count - i) bytes, or 0 exactly when the block cannot be read |
| FileDev.WriteStep | fs/file_dev.c:76-95 | one pass of file_write's loop: create_block only fills zones that were 0, i_size is untouched by the step, and the chunk never goes past count |
| FileDev.WriteLoop | fs/file_dev.c:76-95 | the whole loop writes at most count bytes; i_size becomes pos + i when that is larger, and the inode is then dirty; zones only fill in |
| FileDev.FileWrite | fs/file_dev.c:64-102 | file_write starts at i_size for O_APPEND and at f_pos otherwise, sets i_mtime, grows i_size to the end of what was written, moves f_pos and sets i_ctime only without O_APPEND, and returns the count written, or -1 for none |
| Pipe.Circ | include/linux/fs.h:58-60 | the bytes waiting in the pipe page, oldest first, from the tail round to the head: PIPE_SIZE of them |
| Pipe.Advance | fs/pipe.c:38-40 | moving the tail on by k, masked with 4095, forgets the k oldest bytes and keeps the rest in order |
| Pipe.Append | fs/pipe.c:75-79 | copying bytes in at the head without wrapping and moving the head on appends them to the waiting bytes |
| Pipe.Pipe.constructor | fs/inode.c:290-304 | a new pipe inode holds no bytes and has i_count 2 |
| Pipe.Pipe.Size | include/linux/fs.h:60 | PIPE_SIZE is at most 4095: one byte of the page is always left free |
| Pipe.Pipe.Contents | include/linux/fs.h:58-60 | the waiting bytes number exactly PIPE_SIZE |
| Pipe.Pipe.ReadChunk | fs/pipe.c:31-42 | one chunk of read_pipe is min(PAGE_SIZE - tail, count, size) bytes: the oldest waiting bytes, which are then gone |
| Pipe.Pipe.CopyOut | fs/pipe.c:41-42 | the byte loop copies exactly the page bytes from the old tail |
| Pipe.Pipe.WriteChunk | fs/pipe.c:68-79 | one chunk of write_pipe is min(PAGE_SIZE - head, count, 4095 - size) bytes of the data, appended to the waiting bytes |
| Pipe.Pipe.Writer | fs/pipe.c:59-80 | what a writer does while the reader sleeps only appends a prefix of its data, or closes its end and drops i_count |
| Pipe.Pipe.Reader | fs/pipe.c:24-43 | what a reader does while the writer sleeps only takes the oldest bytes, up to its count, or closes its end |
| Pipe.Pipe.ReadPipe | fs/pipe.c:20-46 | read_pipe returns as many bytes as it copied, never more than count; they are the oldest bytes, those waiting first and then those written while it slept; it returns short only with the pipe empty and no writer left |
| Pipe.Pipe.AwaitData | fs/pipe.c:25-30 | the wait while the pipe is empty ends with data, with no writer left and the pipe empty, or with the other side's steps used up |
| Pipe.Pipe.WritePipe | fs/pipe.c:55-83 | write_pipe writes a prefix of the data that readers see in order; with no reader left and the pipe full it raises SIGPIPE and returns what it wrote, or -1 for nothing; otherwise it writes all count bytes |
| Pipe.Pipe.AwaitRoom | fs/pipe.c:60-67 | the wait while the pipe is full ends with room, with no reader left and the pipe full, or with the other side's steps used up |
| Pipe.TakeFiles | fs/pipe.c:97-100 | sys_pipe's first loop takes the two lowest free file_table entries, or as many as there are, raising f_count on each |
| Pipe.TakeFds | fs/pipe.c:105-110 | sys_pipe's second loop puts the two files into the two lowest free descriptors, or as many as there are |
| Pipe.GivenTaken | fs/pipe.c:113-114 | dropping both f_counts back to 0 restores the file table exactly |
| Pipe.Unclaim | fs/pipe.c:101-102 | with only one entry found, dropping its f_count restores the file table |
| Pipe.Reserve | fs/pipe.c:97-116 | either two free entries and two free descriptors are taken, the lowest ones, or the tables are as they were |
| Pipe.Connect | fs/pipe.c:117-129 | with no pipe inode the four are given back and the result is -1; otherwise the read end (f_mode 1) and write end (f_mode 2) sit on the new inode at f_pos 0 and the result is 0 |
| Pipe.SysPipe | fs/pipe.c:90-130 | sys_pipe returns 0 or -1; -1 leaves the descriptor and file tables unchanged; 0 means the two lowest free descriptors hold a read end and a write end on one new pipe inode |
| ReadWrite.Target | fs/read_write.c:42-58 | the new f_pos for SEEK_SET, SEEK_CUR and SEEK_END is the base plus offset when that is not negative; a negative result or an unknown origin gives -EINVAL |
| ReadWrite.SysLseek | fs/read_write.c:31-60 | lseek gives -EBADF for a descriptor not open or a device that cannot seek and -ESPIPE for a pipe; otherwise it returns Target and moves f_pos to it exactly when it is not an error |
| ReadWrite.SeekNeverNegative | fs/read_write.c:44-54 | lseek never leaves f_pos negative |
| ReadWrite.SeekTell | fs/read_write.c:43-55 | SEEK_CUR 0 tells the position; SEEK_SET x then tells x; SEEK_END 0 is i_size |
| ReadWrite.SeekCurAdds | fs/read_write.c:47-50 | two SEEK_CUR moves make one by their sum |
| ReadWrite.ReadRoute | fs/read_write.c:69-96 | sys_read gives -EINVAL for a descriptor not open or a negative count, 0 for count 0, and calls a read routine only for an open descriptor and a positive count |
| ReadWrite.WriteRoute | fs/read_write.c:105-125 | the same for sys_write |
| ReadWrite.PipeNeedsMode | fs/read_write.c:81-82 | a pipe is read only through a file with f_mode bit 0 and written only through one with bit 1; otherwise -EIO |
| ReadWrite.ReadStaysInFile | fs/read_write.c:87-92 | a read of a regular file or directory at or past i_size returns 0; otherwise the count is cut to end at i_size |
| ReadWrite.WriteOnlyRegular | fs/read_write.c:121-124 | a directory cannot be written (-EINVAL); a regular file goes to file_write with the full count |
| ReadWrite.ReadRegular | fs/read_write.c:87-93 | a read of a regular file never moves f_pos past i_size, returns the file's bytes from f_pos, and returns 0 at the end of the file |
| TtyQueue.Mask | include/linux/tty.h:27-28 | masking with TTY_BUF_SIZE-1 always lands on an index of the 1024-byte buffer |
| TtyQueue.Distance | include/linux/tty.h:30-33 | CHARS is head - tail taken round the ring, and LEFT is 1023 minus CHARS |
| TtyQueue.Ring | include/linux/tty.h:33 | the characters waiting in a queue, oldest first, number exactly CHARS |
| TtyQueue.RingPut | include/linux/tty.h:36-37 | PUTCH appends the character to the waiting characters (dropping the oldest when the ring is full) |
| TtyQueue.RingGet | include/linux/tty.h:34-35 | GETCH on a non-empty queue takes exactly the oldest character |
| TtyQueue.RingDec | include/linux/tty.h:28-31 | DEC on the head of a non-empty queue removes the newest character, which is the one LAST reads |
| TtyQueue.Queue.Contents | include/linux/tty.h:19-25 | the waiting characters of a tty_queue number exactly CHARS |
| TtyQueue.Queue.constructor | include/linux/tty.h:19-25 | a queue with head and tail 0 holds nothing |
| TtyQueue.Queue.Putch | include/linux/tty.h:36-37 | PUTCH stores at the head, advances it modulo 1024, and appends the character |
| TtyQueue.Queue.Getch | include/linux/tty.h:34-35 | GETCH reads at the tail and advances it; on a non-empty queue that removes the oldest character |
| TtyQueue.Queue.DecHead | include/linux/tty.h:28 | DEC(head) on a non-empty queue drops the newest character |
| TtyQueue.Queue.Flush | kernel/chr_drv/tty_ioctl.c:48-53 | flush sets head to tail and leaves the queue empty |
| TtyQueue.Room | include/linux/tty.h:29-33 | CHARS and LEFT always add up to 1023; EMPTY holds exactly when CHARS is 0 and FULL exactly when it is 1023 |
| TtyQueue.LastIsNewest | include/linux/tty.h:31 | LAST reads the newest waiting character |
| TtyIo.Intr | kernel/chr_drv/tty_io.c:126-136 | tty_intr leaves the task table the same length |
| TtyIo.IntrMeans | kernel/chr_drv/tty_io.c:126-136 | tty_intr sets the bits of mask in the signal word of exactly the tasks in the tty's process group, of none when pgrp is not positive, and changes no other bit, task or field |
| TtyIo.EraseOne | kernel/chr_drv/tty_io.c:214-227 | erasing a character removes exactly one character from the cooked queue |
| TtyIo.RawCopy | kernel/chr_drv/tty_io.c:173-275 | with no input or local flags, copy_to_cooked moves characters unchanged onto the cooked queue, as many as it has room for, echoes nothing, and stops only when the cooked queue is full |
| TtyIo.EraseUndoes | kernel/chr_drv/tty_io.c:214-227 | in canonical mode an ERASE straight after an ordinary character takes that character back off the cooked queue, while its echo stays on the write queue |
| TtyIo.DrainMeans | kernel/chr_drv/tty_io.c:311-322 | tty_read's inner loop copies the oldest cooked characters, at most nr, all of them or nr unless an EOF stops it; that EOF is the next character, and in canonical mode no copied character is an EOF |
| TtyIo.ReadNothing | kernel/chr_drv/tty_io.c:299-337 | a read of 0 characters returns 0, or -EINTR when a signal is pending, and takes nothing |
| TtyIo.ReadSignalled | kernel/chr_drv/tty_io.c:300-305 | a pending signal ends the read at once: a SIGALRM from the read's own timer is cleared and gives 0 (or -EINTR with other signals left); any other signal gives -EINTR |
| TtyIo.ReadUnsignalled | kernel/chr_drv/tty_io.c:306-310 | with no signal, a read waits on an empty cooked queue, keeps waiting in canonical mode while no line is complete and more than 20 places are free, and otherwise drains |
| TtyIo.ReadDrains | kernel/chr_drv/tty_io.c:311-332 | what a drain leaves to tty_read: the oldest characters, at most nr, and in non-canonical mode a short drain empties the queue |
| TtyIo.EofKeepsAlarm | kernel/chr_drv/tty_io.c:292-296 | as written, a canonical timed read that meets EOF returns at line 316 without restoring the task's alarm, so the timer tty_read armed stays set |
| TtyIo.ReadMeans | kernel/chr_drv/tty_io.c:280-338 | tty_read returns the oldest cooked characters, at most nr, and their count; it restores the alarm unless it returned at an EOF; a signal other than its own timer with nothing read gives -EINTR |
| TtyIo.EmitBounds | kernel/chr_drv/tty_io.c:352-370 | tty_write's inner loop fills at most the free room, and either takes every character or fills the queue |
| TtyIo.EmitRaw | kernel/chr_drv/tty_io.c:352-370 | without OPOST the characters are written unchanged, as many as fit |
| TtyIo.EmitCrlf | kernel/chr_drv/tty_io.c:359-363 | with OPOST and ONLCR alone and room enough, every NL goes out as CR NL and all of the input is taken |
| TtyIo.Terminal.constructor | include/linux/tty.h:52-60 | a tty with the given termios, no process group, not stopped, and three empty queues |
| TtyIo.Terminal.TtyIntr | kernel/chr_drv/tty_io.c:126-136 | the loop over the task table leaves it as Intr says |
| TtyIo.Terminal.EchoErased | kernel/chr_drv/tty_io.c:220-225 | the echo of an erased character: two DELs for a control character, one otherwise, nothing without ECHO |
| TtyIo.Terminal.AtLineStart | kernel/chr_drv/tty_io.c:197-199 | the test for an empty cooked queue, or one whose last character is NL or EOF |
| TtyIo.Terminal.EraseLast | kernel/chr_drv/tty_io.c:201-209 | one step of the kill loop: the newest cooked character and its echo as EraseOne says |
| TtyIo.Terminal.KillLine | kernel/chr_drv/tty_io.c:194-212 | KILL erases cooked characters back to the start of the line |
| TtyIo.Terminal.EraseChar | kernel/chr_drv/tty_io.c:214-228 | ERASE erases one character unless the line is empty |
| TtyIo.Terminal.EchoStored | kernel/chr_drv/tty_io.c:257-272 | the echo of a stored character: NL as NL CR, a control character as ^ and c+64 under ECHOCTL, anything else as itself |
| TtyIo.Terminal.StoreChar | kernel/chr_drv/tty_io.c:254-274 | a stored character counts a line when it is NL or EOF, is echoed, and goes on the cooked queue |
| TtyIo.Terminal.HandleChar | kernel/chr_drv/tty_io.c:192-274 | one character after input mapping: KILL, ERASE, STOP, START, INTR and QUIT as their flags say, else stored |
| TtyIo.Terminal.CookOne | kernel/chr_drv/tty_io.c:174-274 | one pass of copy_to_cooked's loop |
| TtyIo.Terminal.CopyToCooked | kernel/chr_drv/tty_io.c:168-278 | copy_to_cooked leaves the queues, the stopped flag and the task table as the specification function Run gives from the raw queue, and leaves exactly the unread characters on the raw queue |
| TtyIo.Terminal.DrainQueue | kernel/chr_drv/tty_io.c:311-322 | the copy loop takes what Drain says off the cooked queue, and lowers its line count by the line ends taken |
| TtyIo.Terminal.DrainOne | kernel/chr_drv/tty_io.c:312-321 | one character of the copy loop |
| TtyIo.Terminal.ReadPass | kernel/chr_drv/tty_io.c:299-333 | one pass of tty_read's outer loop keeps its invariant and ends it as ReadSpec says |
| TtyIo.Terminal.TtyRead | kernel/chr_drv/tty_io.c:280-338 | tty_read returns -1 for a channel above 2; otherwise exactly the result of the specification ReadSpec, leaving the cooked queue without the characters taken |
| TtyIo.Terminal.FillOne | kernel/chr_drv/tty_io.c:353-369 | one character of tty_write's inner loop |
| TtyIo.Terminal.FillWriteQ | kernel/chr_drv/tty_io.c:352-370 | the inner loop appends exactly what Emit gives to the write queue, and stops short only when it is full |
| TtyIo.Terminal.TtyWrite | kernel/chr_drv/tty_io.c:340-376 | tty_write returns -1 for a bad channel or negative nr, 0 with nothing written for nr 0 or a pending signal, and otherwise appends Emit's output to the write queue, returning the count taken and waiting when some is left |
| TtyIoctl.QuotientGivesBaud | kernel/chr_drv/tty_ioctl.c:19-23 | every divisor in the quotient table after the first divides 115200 down to the baud rate of its CBAUD code |
| TtyIoctl.Bytes32 | include/termios.h:64-71 | a 32-bit flag word is stored as four bytes |
| TtyIoctl.Bytes16 | include/termios.h:51-58 | a 16-bit flag word of struct termio is stored as two bytes |
| TtyIoctl.Le32Bytes32 | include/termios.h:64-71 | reading back the four stored bytes of a word gives the word modulo 2^32 |
| TtyIoctl.Bytes32Le32 | include/termios.h:64-71 | storing the word read from four bytes gives those bytes back |
| TtyIoctl.Le16Bytes16 | include/termios.h:51-58 | reading back the two stored bytes of a flag gives its low 16 bits |
| TtyIoctl.Signed32 | kernel/chr_drv/tty_ioctl.c:217 | a long read back from user memory is the signed 32-bit value of its bytes |
| TtyIoctl.CcBytes | include/termios.h:70 | the first n control characters, one byte each |
| TtyIoctl.TermiosFields | include/termios.h:64-71 | the bytes of struct termios before its padding: four flag words, c_line, and the 17 control characters |
| TtyIoctl.TermiosBytes | include/termios.h:64-71 | the bytes of struct termios as get_termios copies them, beginning with its fields |
| TtyIoctl.ParseTermios | kernel/chr_drv/tty_ioctl.c:95-103 | set_termios's byte copy always yields a well-formed termios |
| TtyIoctl.TermiosBytesParse | kernel/chr_drv/tty_ioctl.c:79-103 | get_termios after set_termios gives back the 34 field bytes the user wrote |
| TtyIoctl.ParseTermiosBytes | kernel/chr_drv/tty_ioctl.c:79-103 | set_termios of the bytes get_termios wrote restores the termios exactly |
| TtyIoctl.TermioFields | include/termios.h:51-58 | the bytes of struct termio before its padding: four 16-bit flags, c_line, and 8 control characters |
| TtyIoctl.TermioBytes | kernel/chr_drv/tty_ioctl.c:111-127 | the bytes get_termio copies out, beginning with its fields |
| TtyIoctl.Low16 | kernel/chr_drv/tty_ioctl.c:142-145 | storing through an unsigned short pointer replaces the low 16 bits of the flag and keeps the high ones |
| TtyIoctl.SetTermio | kernel/chr_drv/tty_ioctl.c:135-151 | set_termio leaves a well-formed termios |
| TtyIoctl.SetTermioKeeps | kernel/chr_drv/tty_ioctl.c:142-148 | set_termio keeps the high 16 bits of every flag and the control characters past NCC |
| TtyIoctl.TermioBytesSet | kernel/chr_drv/tty_ioctl.c:111-151 | get_termio after set_termio gives back the 17 field bytes the user wrote |
| TtyIoctl.SetTermioBytes | kernel/chr_drv/tty_ioctl.c:111-151 | set_termio of the bytes get_termio wrote leaves the termios as it was |
| TtyIoctl.SpeedMeans | kernel/chr_drv/tty_ioctl.c:29-42 | change_speed writes nothing for a tty without a port, and otherwise four port writes whose divisor bytes make the quotient for CBAUD, which gives its baud rate |
| FsDefs.Overwrite | kernel/chr_drv/tty_ioctl.c:84-85 | storing bytes over memory (put_fs_byte to consecutive user addresses, or a memcpy) keeps its size |
| FsDefs.OverwriteMeans | kernel/chr_drv/tty_ioctl.c:84-85 | after the store the bytes are found from the offset on, and every other byte is the old one |
| TtyIoctl.Area | kernel/chr_drv/tty_ioctl.c:170-248 | the user memory each command reads or writes is never negative |
| TtyIoctl.RefusedChangesNothing | kernel/chr_drv/tty_ioctl.c:193-247 | a command that is not implemented returns -EINVAL and changes nothing; every implemented command other than TCFLSH returns 0 |
| TtyIoctl.FlushMeans | kernel/chr_drv/tty_ioctl.c:195-205 | TCFLSH 0 empties the read queue, 1 the write queue, 2 both; any other argument gives -EINVAL and changes nothing |
| TtyIoctl.GetsAndSets | kernel/chr_drv/tty_ioctl.c:170-227 | the get commands change no tty state and write no port; the set commands change no user memory; TCSETS/TCSETA and their W forms keep the read queue, while the F forms empty it |
| TtyIoctl.SetThenGetTermios | kernel/chr_drv/tty_ioctl.c:171-178 | TCSETS then TCGETS at the same address leaves the user's field bytes as they were |
| TtyIoctl.SetThenGetTermio | kernel/chr_drv/tty_ioctl.c:179-186 | TCSETA then TCGETA at the same address leaves the user's field bytes as they were |
| TtyIoctl.SetThenGetPgrp | kernel/chr_drv/tty_ioctl.c:212-218 | TIOCSPGRP then TIOCGPGRP at the same address leaves user memory as it was |
| TtyIoctl.TtyOf | kernel/chr_drv/tty_ioctl.c:163-168 | major 5 means the task's own tty, and panics when it has none; otherwise the minor number |
| TtyIoctl.CopyOut | kernel/chr_drv/tty_ioctl.c:84-85 | the put_fs_byte loop writes the bytes at arg and nothing else |
| TtyIoctl.CopyIn | kernel/chr_drv/tty_ioctl.c:99-100 | the get_fs_byte loop reads the n bytes at arg |
| TtyIoctl.ChangeSpeed | kernel/chr_drv/tty_ioctl.c:29-42 | change_speed makes the port writes the speed function gives |
| TtyIoctl.GetTermios | kernel/chr_drv/tty_ioctl.c:79-87 | get_termios writes the termios bytes at arg and returns 0 |
| TtyIoctl.SetTermios | kernel/chr_drv/tty_ioctl.c:95-103 | set_termios takes the termios from the bytes at arg and sets the speed |
| TtyIoctl.GetTermio | kernel/chr_drv/tty_ioctl.c:111-127 | get_termio writes the termio bytes at arg and returns 0 |
| TtyIoctl.SetTermioOn | kernel/chr_drv/tty_ioctl.c:135-151 | set_termio takes the termio fields from the bytes at arg and sets the speed |
| TtyIoctl.FlushCmd | kernel/chr_drv/tty_ioctl.c:195-205 | the TCFLSH case leaves the tty and the result as FlushMeans describes |
| TtyIoctl.SetCmd | kernel/chr_drv/tty_ioctl.c:173-186 | the six set commands, with the flush of the read queue in the F forms, as the specification says |
| TtyIoctl.Ioctl | kernel/chr_drv/tty_ioctl.c:159-249 | tty_ioctl leaves the tty, user memory, the result and the port writes exactly as the specification IoctlSpec gives |
| ConsoleSpec.Fill | kernel/chr_drv/console.c:295-304 | filling n cells with the erase character keeps the size of video memory |
| ConsoleSpec.Move | kernel/chr_drv/console.c:129-140 | copying n cells from src to dst keeps the size of video memory |
| ConsoleSpec.FillAt | kernel/chr_drv/console.c:295-304 | after a fill, exactly the n cells from at hold the erase character and every other cell is unchanged |
| ConsoleSpec.MoveAt | kernel/chr_drv/console.c:129-140 | after a copy, the n cells from dst hold the cells from src and every other cell is unchanged |
| ConsoleSpec.Gotoxy | kernel/chr_drv/console.c:90-98 | gotoxy keeps the console state well formed |
| ConsoleSpec.GotoxyMeans | kernel/chr_drv/console.c:90-98 | gotoxy moves the cursor to (new_x, new_y) exactly when new_x <= columns and new_y < lines, compared as unsigned, and otherwise changes nothing |
| ConsoleSpec.SetPar | kernel/chr_drv/console.c:625 | storing an escape parameter keeps the state well formed |
| ConsoleSpec.ScrUp | kernel/chr_drv/console.c:117-185 | scrup changes only the origin and video memory, and keeps the state well formed |
| ConsoleSpec.ScrUpScreenMeans | kernel/chr_drv/console.c:123-154 | on an EGA with the whole screen as region, scrup moves the origin down a row (back to the start of video memory when it would pass the end), the screen shows the old rows 2 to 25, and the new bottom row is erased |
| ConsoleSpec.ScrUpRegionMeans | kernel/chr_drv/console.c:155-184 | otherwise scrup copies the rows of the region below top up by one, erases its bottom row, and leaves every cell outside the region alone |
| ConsoleSpec.ScrDown | kernel/chr_drv/console.c:191-224 | scrdown changes only video memory |
| ConsoleSpec.ScrDownMeans | kernel/chr_drv/console.c:191-224 | scrdown copies the rows of the region down by one, erases its top row, and leaves every cell outside the region alone |
| ConsoleSpec.Lf | kernel/chr_drv/console.c:229-238 | a line feed keeps the column |
| ConsoleSpec.Ri | kernel/chr_drv/console.c:243-252 | a reverse line feed keeps the state well formed |
| ConsoleSpec.Del | kernel/chr_drv/console.c:266-274 | a DEL keeps the state well formed |
| ConsoleSpec.CsiJ | kernel/chr_drv/console.c:280-309 | ESC [ J changes only video memory |
| ConsoleSpec.CsiK | kernel/chr_drv/console.c:315-344 | ESC [ K changes only video memory |
| ConsoleSpec.EraseMeans | kernel/chr_drv/console.c:295-297 | ESC [ 2 J erases exactly the screen, ESC [ 2 K exactly the cursor's row |
| ConsoleSpec.Recolor | kernel/chr_drv/console.c:354-361 | one SGR parameter sets the attribute to 0x07, 0x0f or 0x70, or leaves it |
| ConsoleSpec.Attr | kernel/chr_drv/console.c:350-362 | csi_m keeps the attribute a byte |
| ConsoleSpec.AttrLastWins | kernel/chr_drv/console.c:350-362 | the attribute after csi_m is set by the last recognised parameter, or unchanged when there is none |
| ConsoleSpec.CsiM | kernel/chr_drv/console.c:350-362 | csi_m changes only the attribute |
| ConsoleSpec.InsertAt | kernel/chr_drv/console.c:397-410 | inserting a cell keeps the size of video memory |
| ConsoleSpec.DeleteAt | kernel/chr_drv/console.c:431-445 | deleting a cell keeps the size of video memory |
| ConsoleSpec.InsertAtMeans | kernel/chr_drv/console.c:397-410 | insert_char puts the erase character at the cursor and shifts the rest of the row right by one, dropping its last cell |
| ConsoleSpec.DeleteAtMeans | kernel/chr_drv/console.c:431-445 | delete_char shifts the rest of the row left by one and erases its last cell |
| ConsoleSpec.DeleteUndoesInsert | kernel/chr_drv/console.c:397-445 | deleting where a cell was inserted, with the dropped cell as filler, restores the row |
| ConsoleSpec.InsertChar | kernel/chr_drv/console.c:397-410 | insert_char changes only video memory |
| ConsoleSpec.DeleteChar | kernel/chr_drv/console.c:431-445 | delete_char changes only video memory |
| ConsoleSpec.InsertLine | kernel/chr_drv/console.c:415-426 | insert_line changes only video memory |
| ConsoleSpec.DeleteLine | kernel/chr_drv/console.c:450-461 | delete_line changes only the origin and video memory |
| ConsoleSpec.ClampIn | kernel/chr_drv/console.c:467-476 | the repeat count of csi_at, csi_L, csi_P and csi_M is the parameter, brought into 1 to the limit |
| ConsoleSpec.Edit1 | kernel/chr_drv/console.c:467-521 | one insert or delete of a character or line changes only the origin and video memory |
| ConsoleSpec.Repeat | kernel/chr_drv/console.c:467-521 | repeating it changes only the origin and video memory |
| ConsoleSpec.CsiEdit | kernel/chr_drv/console.c:467-521 | csi_at, csi_L, csi_P and csi_M keep the state well formed |
| ConsoleSpec.Print | kernel/chr_drv/console.c:557-569 | printing a character keeps the state well formed |
| ConsoleSpec.PrintMeans | kernel/chr_drv/console.c:557-569 | a printable character is written at the cursor with the current attribute and the cursor moves right; at the end of a line it goes first to column 0 of the next line, so the cursor ends in column 1 |
| ConsoleSpec.Wrap | kernel/chr_drv/console.c:558-562 | the wrap before printing leaves the cursor inside the row |
| ConsoleSpec.Tab | kernel/chr_drv/console.c:583-592 | a TAB keeps the state well formed |
| ConsoleSpec.TabMeans | kernel/chr_drv/console.c:583-592 | a TAB moves to the next multiple of 8 on the row, or wraps to the next line by the excess |
| ConsoleSpec.Plain | kernel/chr_drv/console.c:556-595 | a character in state 0 keeps the state well formed |
| ConsoleSpec.Escaped | kernel/chr_drv/console.c:596-612 | a character after ESC keeps the state well formed |
| ConsoleSpec.EscStarts | kernel/chr_drv/console.c:570-571 | ESC in state 0 goes to state 1 and changes nothing else |
| ConsoleSpec.BracketStarts | kernel/chr_drv/console.c:598-599 | [ after ESC goes to state 2 and changes nothing else |
| ConsoleSpec.EscSevenQuirk | kernel/chr_drv/console.c:608-611 | as written the ESC 7 and ESC 8 branches test the column x, not the character: any other character after ESC saves the cursor when x is 55, restores it when x is 56, and otherwise only returns to state 0 |
| ConsoleSpec.StartClears | kernel/chr_drv/console.c:613-620 | the first character after ESC [ clears the parameters; ? sets ques and waits, anything else is then parsed as a parameter character |
| ConsoleSpec.DigitAccumulates | kernel/chr_drv/console.c:624-626 | a digit multiplies the current parameter by ten and adds itself, in 32 bits |
| ConsoleSpec.SemicolonNext | kernel/chr_drv/console.c:621-623 | a semicolon moves to the next parameter while there is room, and otherwise ends the sequence |
| ConsoleSpec.Place | kernel/chr_drv/console.c:631-634 | the column and row commands keep the state well formed |
| ConsoleSpec.Shift | kernel/chr_drv/console.c:635-667 | the cursor motions keep the state well formed |
| ConsoleSpec.Motion | kernel/chr_drv/console.c:635-658 | the relative motions keep the state well formed |
| ConsoleSpec.Region | kernel/chr_drv/console.c:689-697 | ESC [ r keeps the state well formed |
| ConsoleSpec.RegionMeans | kernel/chr_drv/console.c:689-697 | ESC [ t ; b r sets the scrolling region to rows t-1 up to b (b 0 meaning all) exactly when that is a non-empty region on the screen, and otherwise keeps it |
| ConsoleSpec.Final | kernel/chr_drv/console.c:628-704 | the final character of a sequence keeps the state well formed |
| ConsoleSpec.Param | kernel/chr_drv/console.c:620-627 | a parameter character keeps the state well formed |
| ConsoleSpec.Zeros | kernel/chr_drv/console.c:614-615 | the cleared parameters are NPAR zeros |
| ConsoleSpec.Start | kernel/chr_drv/console.c:613-619 | the first character after ESC [ keeps the state well formed |
| ConsoleSpec.Step | kernel/chr_drv/console.c:555-705 | one character of con_write keeps the state well formed |
| ConsoleSpec.Run | kernel/chr_drv/console.c:547-708 | con_write over a run of characters keeps the state well formed |
| ConsoleSpec.RunAppend | kernel/chr_drv/console.c:552-706 | writing two runs one after another is writing their concatenation |
| ConsoleSpec.PutsAppend | kernel/chr_drv/console.c:381-392 | respond appends its answer to the read queue when it fits |
| ConsoleSpec.Card | kernel/chr_drv/console.c:736-776 | con_init's card: the BIOS column count, and EGA exactly when the BIOS reports no 0x10 in BX |
| ConsoleSpec.Label | kernel/chr_drv/console.c:781-787 | writing the display description keeps the size of video memory |
| ConsoleSpec.LabelMeans | kernel/chr_drv/console.c:781-787 | the description goes into the character bytes from the given cell on, keeping their attribute bytes, and no other cell changes |
| ConsoleSpec.ConInit | kernel/chr_drv/console.c:724-802 | con_init yields a console exactly for a well-formed card, and its state is well formed |
| ConsoleSpec.ConInitMeans | kernel/chr_drv/console.c:789-796 | after con_init the cursor is at the BIOS position when gotoxy accepts it and at (0, 0) otherwise; the origin is the start of video memory, the region is the whole screen and the parser is in state 0 |
| Console.Screen.CopyForward | kernel/chr_drv/console.c:129-131 | the forward copy loop is Move |
| Console.Screen.CopyBackward | kernel/chr_drv/console.c:196-198 | the backward copy loop (std; rep movsl) is Move |
| Console.Screen.FillCells | kernel/chr_drv/console.c:295-304 | the fill loop is Fill |
| Console.Screen.Gotoxy | kernel/chr_drv/console.c:90-98 | gotoxy, with pos recomputed, is the specification's |
| Console.Screen.ScrUp | kernel/chr_drv/console.c:117-185 | scrup is the specification's ScrUp |
| Console.Screen.ScrUpScreen | kernel/chr_drv/console.c:123-154 | the whole-screen EGA branch is ScrUp |
| Console.Screen.ScrUpWrap | kernel/chr_drv/console.c:128-143 | the branch that copies the screen back to the start of video memory is ScrUp |
| Console.Screen.ScrUpSlide | kernel/chr_drv/console.c:144-152 | the branch that only erases the new row is ScrUp |
| Console.Screen.ScrUpRegion | kernel/chr_drv/console.c:155-184 | the region branches are ScrUp |
| Console.Screen.ScrDown | kernel/chr_drv/console.c:191-224 | scrdown is the specification's ScrDown |
| Console.Screen.Lf | kernel/chr_drv/console.c:229-238 | lf is the specification's Lf |
| Console.Screen.Ri | kernel/chr_drv/console.c:243-252 | ri is the specification's Ri |
| Console.Screen.Cr | kernel/chr_drv/console.c:257-261 | cr moves the cursor to column 0 and changes nothing else |
| Console.Screen.Del | kernel/chr_drv/console.c:266-274 | del is the specification's Del |
| Console.Screen.CsiJ | kernel/chr_drv/console.c:280-309 | csi_J is the specification's CsiJ |
| Console.Screen.CsiK | kernel/chr_drv/console.c:315-344 | csi_K is the specification's CsiK |
| Console.Screen.CsiM | kernel/chr_drv/console.c:350-362 | csi_m is the specification's CsiM |
| Console.Screen.InsertCells | kernel/chr_drv/console.c:397-410 | the insert_char loop is InsertAt |
| Console.Screen.InsertChar | kernel/chr_drv/console.c:397-410 | insert_char is the specification's InsertChar |
| Console.Screen.DeleteCells | kernel/chr_drv/console.c:431-445 | the delete_char loop is DeleteAt |
| Console.Screen.DeleteChar | kernel/chr_drv/console.c:431-445 | delete_char is the specification's DeleteChar |
| Console.Screen.InsertLine | kernel/chr_drv/console.c:415-426 | insert_line is the specification's InsertLine |
| Console.Screen.DeleteLine | kernel/chr_drv/console.c:450-461 | delete_line is the specification's DeleteLine |
| Console.Screen.Edit1 | kernel/chr_drv/console.c:397-461 | one edit is the specification's Edit1 |
| Console.Screen.RepeatEdit | kernel/chr_drv/console.c:472-475 | the repeat loop is Repeat |
| Console.Screen.CsiEdit | kernel/chr_drv/console.c:467-521 | csi_at, csi_L, csi_P and csi_M are the specification's CsiEdit |
| Console.Screen.SaveCur | kernel/chr_drv/console.c:529-533 | save_cur keeps x and y |
| Console.Screen.RestoreCur | kernel/chr_drv/console.c:538-541 | restore_cur goes to the saved position |
| Console.Screen.Respond | kernel/chr_drv/console.c:381-392 | respond puts the answer ESC [ ? 1 ; 2 c on the read queue |
| Console.Screen.Wrap | kernel/chr_drv/console.c:558-562 | the wrap before printing is the specification's Wrap |
| Console.Screen.Print | kernel/chr_drv/console.c:557-569 | printing is the specification's Print |
| Console.Screen.Tab | kernel/chr_drv/console.c:583-592 | a TAB is the specification's Tab |
| Console.Screen.Plain | kernel/chr_drv/console.c:556-595 | state 0 is the specification's Plain |
| Console.Screen.Escaped | kernel/chr_drv/console.c:596-612 | state 1 is the specification's Escaped, and only ESC Z answers on the read queue |
| Console.Screen.SetPar | kernel/chr_drv/console.c:625 | a parameter store is the specification's SetPar |
| Console.Screen.Motion | kernel/chr_drv/console.c:635-658 | the relative motions are the specification's Motion |
| Console.Screen.Place | kernel/chr_drv/console.c:631-634 | the column and row commands are the specification's Place |
| Console.Screen.Shift | kernel/chr_drv/console.c:635-667 | the cursor commands are the specification's Shift |
| Console.Screen.Region | kernel/chr_drv/console.c:689-697 | ESC [ r is the specification's Region |
| Console.Screen.Final | kernel/chr_drv/console.c:628-704 | state 4 is the specification's Final |
| Console.Screen.Param | kernel/chr_drv/console.c:620-627 | state 3 is the specification's Param |
| Console.Screen.Start | kernel/chr_drv/console.c:613-619 | state 2 is the specification's Start |
| Console.Screen.Step | kernel/chr_drv/console.c:554-705 | one character is the specification's Step, answering on the read queue exactly when it responds |
| Console.Screen.Feed | kernel/chr_drv/console.c:553-705 | one turn of con_write's loop takes the oldest character of the write queue and does Step |
| Console.Screen.ConWrite | kernel/chr_drv/console.c:547-708 | con_write empties the write queue, and the screen and read queue end as the specification's Run of its characters gives |
| Sched.KillStopBit | kernel/sched.c:24 | the bits _BLOCKABLE leaves out are exactly those of SIGKILL and SIGSTOP |
| Sched.UnmaskedBit | kernel/sched.c:138-139 | a signal counts for waking a task exactly when it is raised and either not blocked or SIGKILL or SIGSTOP |
| Sched.UnmaskedPending | kernel/sched.c:139 | the masked signal word is non-zero exactly when some raised signal is unblocked or unblockable |
| Sched.WakeAlarm | kernel/sched.c:131-137 | an alarm that has passed is cleared and raises SIGALRM; an alarm not yet due and no alarm leave the task's signals and alarm alone; nothing but signal, alarm and state changes |
| Sched.WakeSignal | kernel/sched.c:131-137 | after the wake pass a signal bit is set exactly when it was set before or it is SIGALRM from an expired alarm |
| Sched.WakeState | kernel/sched.c:139-141 | a task runs after the wake pass exactly when it already ran or it slept interruptibly with an unmasked signal pending; otherwise its state is unchanged |
| Sched.WokenAbove | kernel/sched.c:130-142 | the wake pass over task slots above lo keeps the table well formed |
| Sched.RecountedAbove | kernel/sched.c:159-165 | the recount over task slots above lo keeps the table well formed |
| Sched.BestMeans | kernel/sched.c:145-158 | the selection loop picks the running task with the largest counter, the highest slot among equals, and picks task 0 exactly when no task other than 0 is running |
| Sched.RecountEnds | kernel/sched.c:146-165 | when every running task's counter is 0 the recount gives some running task a positive counter, so the outer loop of schedule ends after one recount |
| Sched.Scheduled | kernel/sched.c:123-169 | schedule keeps the table well formed and switches to a task slot in range |
| Sched.ScheduledMeans | kernel/sched.c:123-169 | schedule wakes tasks first, recounts exactly when every running task has used up its counter, then switches to the running task with the largest positive counter (highest slot among equals), or to task 0 when none runs |
| Sched.Select | kernel/sched.c:145-158 | the selection loop returns the largest counter and its task as the reference selection does |
| Sched.Schedule | kernel/sched.c:123-169 | schedule leaves the task table and current task of the reference schedule |
| Sched.WakeAll | kernel/sched.c:130-142 | the wake loop over task[NR_TASKS-1] down to task[1] leaves the table the reference wake pass gives |
| Sched.RecountAll | kernel/sched.c:159-165 | the recount loop gives every task counter/2 + priority as the reference recount does |
| Sched.Insert | kernel/sched.c:364-388 | adding a timer lengthens the delta list by one |
| Sched.Spot | kernel/sched.c:379-388 | the position a new timer settles at lies within the list |
| Sched.InsertMeans | kernel/sched.c:364-388 | the new timer is placed before the first entry whose running sum reaches its delay, with its delay less that sum, so it falls due exactly after its own delay |
| Sched.AddTimerDelaysSuccessor | kernel/sched.c:379-388 | as written, the entry after a new timer keeps its own delta, so it falls due later by the new timer's delta |
| Sched.AddTimerExample | kernel/sched.c:379-388 | a 10-tick timer followed by a 5-tick one runs after 15 ticks, not 10 |
| Sched.PopMeans | kernel/sched.c:419-426 | the expiry loop removes exactly the leading entries whose delta is 0 or less, runs their functions in list order and stops at the first positive delta |
| Sched.TimerList.constructor | kernel/sched.c:343-347 | the timer table starts with no timer queued |
| Sched.TimerList.AddTimer | kernel/sched.c:354-391 | a NULL function does nothing; a delay of 0 or less runs the function at once; a full table is the panic case; otherwise the list becomes the reference insertion of the new timer |
| Sched.TimerList.FreeSlot | kernel/sched.c:368-370 | the search returns the first slot without a function, or TIME_REQUESTS when every slot holds one |
| Sched.TimerList.Push | kernel/sched.c:373-376 | the new timer goes to the head of the list in a free slot |
| Sched.TimerList.Sift | kernel/sched.c:378-388 | moving the new timer down the list gives the reference insertion |
| Sched.TimerList.Passes | kernel/sched.c:378-388 | the swap loop moves the new timer past every entry whose delta is below what is left of its delay, subtracting each |
| Sched.TimerList.PassNext | kernel/sched.c:379-387 | one turn of the swap loop moves the new timer one place down and takes the passed entry's delta off its own |
| Sched.TimerList.SwapSlots | kernel/sched.c:380-386 | one swap exchanges the functions of two entries and gives the later one the remaining delta |
| Sched.TimerList.Tick | kernel/sched.c:416-427 | a tick decrements the head delta and then removes the expired entries, returning their functions as the reference expiry does |
| Sched.TimerList.DecHead | kernel/sched.c:417 | only the head delta drops by one |
| Sched.TimerList.PopHead | kernel/sched.c:421-424 | the head entry leaves the list and its function is returned |
| Sched.Ticked | kernel/sched.c:409-434 | the clock tick keeps the table well formed and leaves a task slot in range as current |
| Sched.TickedMeans | kernel/sched.c:409-434 | user time rises in user mode and system time in kernel mode; the counter drops by one and is held at 0; with counter left or in kernel mode the current task runs on and no other task changes |
| Sched.DoTimer | kernel/sched.c:398-435 | do_timer expires the timer list as the reference expiry does and updates the task table as the reference tick does |
| Sched.Alarmed | kernel/sched.c:448 | sys_alarm changes only the alarm of the task |
| Sched.AlarmRoundTrip | kernel/sched.c:442-450 | an alarm set and read back at the same tick reports the seconds it was set for, or 0 when set to 0 or less |
| Sched.AlarmFires | kernel/sched.c:131-137 | after sys_alarm, SIGALRM is raised at a later schedule exactly when it was raised already or the alarm was set and its tick has passed |
| Sched.SysAlarm | kernel/sched.c:442-450 | sys_alarm returns the seconds left of the old alarm truncated towards zero and sets the new alarm |
| Sched.Niced | kernel/sched.c:507-508 | sys_nice changes only the priority |
| Sched.NicedMeans | kernel/sched.c:505-510 | the priority stays positive and drops by exactly the increment when that leaves it above 0, and is otherwise unchanged |
| Sched.SysNice | kernel/sched.c:505-510 | sys_nice returns 0 and leaves the current task as the reference nice gives it |
| Proc.S | kernel/sched.c:23 | the bit of a signal from 1 to 32 fits in a 32-bit word |
| Proc.ToWord | kernel/signal.c:31-33 | a long stored as an unsigned 32-bit word: negative values wrap by 2^32, values in range are kept |
| Proc.Signed | kernel/signal.c:31 | reading a 32-bit word back as an int gives a value in the signed range that stores as the same word |
| Proc.RaiseBit | kernel/sched.c:134 | raising signal nr sets bit nr-1 and leaves every other bit alone |
| Proc.RaiseTwice | kernel/sched.c:134 | raising a signal twice is the same as raising it once |
| Proc.Short | include/linux/sched.h:109-110 | a uid or gid stored in an unsigned short is reduced to 16 bits and is kept when it already fits |
| Proc.Kernel.Cur | include/linux/sched.h:97 | the current task in a well-formed table is well formed |
| Proc.Kernel.SetCur | include/linux/sched.h:97 | writing the current task changes only its slot of the table |
| Signal.SsetMaskMeans | kernel/signal.c:29-35 | sys_ssetmask returns the old mask and stores the new one with SIGKILL's bit cleared, changing nothing else |
| Signal.SysSsetmask | kernel/signal.c:29-35 | sys_ssetmask leaves the current task and result of the reference mask change and touches no other slot |
| Signal.SetSignalMeans | kernel/signal.c:74-90 | a signal number outside 1 to 32 or SIGKILL is refused with -1 and no change; otherwise the old handler is returned and only that signal's action becomes the handler with mask 0, flags SA_ONESHOT and SA_NOMASK and the restorer |
| Signal.OneshotNomask | kernel/signal.c:84 | the flags sys_signal stores hold both SA_ONESHOT and SA_NOMASK |
| Signal.SysSignal | kernel/signal.c:74-90 | sys_signal leaves the current task and result of the reference handler change and touches no other slot |
| Signal.SetActionMeans | kernel/signal.c:99-120 | a signal number outside 1 to 32 or SIGKILL is refused with -1; otherwise 0 is returned, the old action is saved, only that signal's action is replaced, and its mask is 0 under SA_NOMASK and otherwise the given mask plus the signal's own bit |
| Signal.SysSigaction | kernel/signal.c:99-120 | sys_sigaction leaves the current task, result and saved action of the reference action change and touches no other slot |
| Signal.DoSignalMeans | kernel/signal.c:126-166 | SIG_IGN, and SIG_DFL for SIGCHLD, ignore the signal; other SIG_DFL exit with the signal's bit; a handler is entered with the user stack lowered by 7 longs under SA_NOMASK and 8 otherwise, holding restorer, signal, the old blocked mask when not NOMASK, eax, ecx, edx, eflags and the old eip; a one-shot handler reverts to SIG_DFL and the handler's mask is added to blocked |
| Signal.SysDoSignal | kernel/signal.c:126-166 | do_signal leaves the current task and outcome of the reference signal delivery and touches no other slot |
| Sys.SetRegidMeans | kernel/sys.c:62-81 | without root, a positive rgid must equal gid and a positive egid must equal gid, egid or sgid, else -EPERM; root always succeeds; a refused egid keeps the gid already changed; only gid and egid change |
| Sys.SysSetregid | kernel/sys.c:62-81 | sys_setregid leaves the current task and result of the reference gid change and touches no other slot |
| Sys.SetReuidMeans | kernel/sys.c:139-162 | without root, a positive ruid must equal uid or euid and a positive euid must equal the old uid or euid; -EPERM is returned exactly when one fails, and then the task is unchanged; only uid and euid change |
| Sys.SysSetreuid | kernel/sys.c:139-162 | sys_setreuid leaves the current task and result of the reference uid change and touches no other slot |
| Sys.BrkMeans | kernel/sys.c:209-217 | sys_brk changes only brk, returns the new brk, and sets it to the request exactly when the request lies from end_code to below start_stack less 16384 or already equals brk |
| Sys.BrkWraps | kernel/sys.c:211-212 | with start_stack below 16384 the unsigned subtraction wraps, so a request far above the stack is accepted |
| Sys.SysBrk | kernel/sys.c:209-217 | sys_brk leaves the current task and result of the reference brk change and touches no other slot |
| Sys.FindPid | kernel/sys.c:231-232 | the scan finds the first task slot with the pid, or NR_TASKS when none has it |
| Sys.SetPgid | kernel/sys.c:225-247 | sys_setpgid keeps the task table well formed |
| Sys.SetPgidMeans | kernel/sys.c:225-247 | with 0 read as the caller's pid, -ESRCH is returned exactly when no task has the pid; on any error nothing changes; on success the first task with the pid is neither a leader nor in another session and only its pgrp becomes pgid |
| Sys.SysSetpgid | kernel/sys.c:225-247 | the scan leaves the table and result of the reference setpgid |
| Sys.SetSidMeans | kernel/sys.c:262-272 | a leader without root gets -EPERM and no change; otherwise the task becomes a leader whose session and pgrp are its pid, loses its tty, and the pid is returned |
| Sys.SysSetsid | kernel/sys.c:262-272 | sys_setsid leaves the current task and result of the reference setsid and touches no other slot |
| Sys.UmaskMeans | kernel/sys.c:297-303 | sys_umask returns the old umask and keeps exactly the low 9 bits of the new mask, changing nothing else |
| Sys.SysUmask | kernel/sys.c:297-303 | sys_umask leaves the current task and result of the reference umask change and touches no other slot |
| Sys.SysStime | kernel/sys.c:179-185 | without root -EPERM and no change; with root startup_time is set so that it plus the seconds since boot is the given time |
| Fork.Bump | kernel/fork.c:172 | the incremented last_pid stays a positive long, going back to 1 past the largest one |
| Fork.Cand | kernel/fork.c:171-174 | every pid find_empty_process tries is a positive long |
| Fork.CandDistinct | kernel/fork.c:171-174 | up to 100 successive tries never repeat a pid |
| Fork.Pigeon | kernel/fork.c:171-174 | with NR_TASKS tasks one of the first 65 pids tried is free, so the repeat loop ends |
| Fork.FreshAt | kernel/fork.c:171-174 | the search from a given try stops at the first free pid within 65 tries, every earlier try being in use |
| Fork.FreshPidMeans | kernel/fork.c:171-174 | the new last_pid is a positive long used by no task, and every pid tried before it is in use by some task |
| Fork.FreeSlot | kernel/fork.c:176-179 | the slot found is the lowest empty one at or above the start, or NR_TASKS when all are taken |
| Fork.PidTaken | kernel/fork.c:173-174 | the scan reports exactly whether some task has the pid |
| Fork.FindEmptyProcess | kernel/fork.c:166-180 | find_empty_process moves last_pid to the first free pid after it and returns the lowest empty slot above task 0, or -EAGAIN |
| Fork.VerifiedPagesCover | kernel/fork.c:29-44 | the pages verify_area checks cover every byte of the area, from the page of the first byte to the page of the last, at linear addresses offset by the segment base |
| Fork.VerifyArea | kernel/fork.c:29-44 | the loop passes write_verify exactly the reference sequence of page addresses |
| Fork.ChildMeans | kernel/fork.c:99-134 | the child keeps its parent's credentials, signal actions and mask, files, memory and LDT, priority, group and session; gets the new pid with the parent as father, a full time slice, no pending signal, no alarm, zero times, not a leader, and eax 0 in its saved registers |
| Fork.CopyMemMeans | kernel/fork.c:51-78 | code and data bases that differ, or a data limit below the code limit, panic; otherwise both bases become the slot's own 64 MB slice, disjoint from every other slot's, only those fields change, and a failed page-table copy gives -ENOMEM |
| Fork.SharedMeans | kernel/fork.c:146-148 | only f_count changes, and a file named by n of the child's descriptors gains exactly n references |
| Fork.ShareFiles | kernel/fork.c:146-148 | the loop over the descriptors leaves the file table of the reference sharing |
| Fork.Hold | kernel/fork.c:149-154 | a non-NULL inode gains one reference and the table is otherwise unchanged |
| Fork.CopyProcess | kernel/fork.c:90-161 | without a free page -EAGAIN and nothing changes; copy_mem's panics pass through; a failed copy empties the slot again and gives -EAGAIN; otherwise the running child is in the slot, the files and inodes it shares gain references and last_pid is returned |
| Exit.SendSigMeans | kernel/exit.c:45-56 | send_sig fails with -EINVAL for a NULL task or a signal outside 1 to 32 and with -EPERM when neither privileged, nor of the same euid, nor root, changing nothing; otherwise it raises exactly the signal's bit of that task alone |
| Exit.SendToMeans | kernel/exit.c:80-94 | a kill loop signals every aimed task among task[1] to task[n-1] that send_sig accepts and no other slot; the result is retval unless some aimed task was refused, and then -EINVAL for a bad signal and -EPERM otherwise |
| Exit.KillAllMeans | kernel/exit.c:88-94 | for pid -1 the loop signals from the top down to the highest task that accepts the signal; below it the dangling else sends to process group 1 instead; task 0 and the slots above are untouched |
| Exit.KillQuirks | kernel/exit.c:88-94 | as written, a pid below -1 signals nobody and returns 0, and a pid of -1 with the top slot empty always reports an error |
| Exit.KillAllNonzero | kernel/exit.c:88-90 | once the pid -1 loop has an error it never returns 0 |
| Exit.SendSigTo | kernel/exit.c:45-56 | send_sig on the task table does what the reference send_sig does |
| Exit.SendLoop | kernel/exit.c:80-94 | the loop from task[n-1] down to task[1] leaves the table and result of the reference loop |
| Exit.SysKill | kernel/exit.c:75-96 | sys_kill leaves the table and result of the reference kill |
| Exit.KillSessionMeans | kernel/exit.c:61-69 | every task above task 0 in the caller's session gets SIGHUP and every other slot is unchanged |
| Exit.SysKillSession | kernel/exit.c:61-69 | the loop leaves the table of the reference kill_session |
| Exit.KillSessionIds | kernel/exit.c:61-69 | kill_session removes no task and changes no ids |
| Exit.ReparentedIsOrphaned | kernel/exit.c:135-141 | the reparenting loop as run gives every child of the exiting task father 1 and raises SIGCHLD in init once for each zombie child |
| Exit.OrphanedSlot | kernel/exit.c:135-141 | through the reparenting loop every slot keeps its task, pid and session, and exactly the children of the exiting task get father 1 |
| Exit.TellFatherMeans | kernel/exit.c:102-119 | the lowest task with the father's pid gets SIGCHLD and nothing else changes; with no father the exiting task's own slot is emptied, and releasing task 0 or an empty slot is the panic case |
| Exit.TellFatherIds | kernel/exit.c:102-119 | tell_father removes no other task and changes no other task's ids |
| Exit.OpenFiles | kernel/exit.c:143-145 | the files closed are exactly those the open descriptors name |
| Exit.AbandonMeans | kernel/exit.c:131-167 | the exiting task becomes a zombie with the exit code, no open descriptors and no pwd, root or executable; no other task disappears or stays its child unless the exiting task is init |
| Exit.DoExitZombie | kernel/exit.c:126-173 | after do_exit, unless it released itself, the task is a zombie holding the exit code and no files or directories |
| Exit.DoExitOrphans | kernel/exit.c:126-173 | do_exit removes no other task and leaves none a child of the exiting task, unless init itself exits |
| Exit.DoExitLeftovers | kernel/exit.c:143-154 | do_exit closes exactly the files the open descriptors name and puts pwd, root and executable |
| Exit.ExitCodeRoundTrip | kernel/exit.c:175-178 | the status sys_exit stores reads back through the wait macros as a normal exit with the low byte of the code |
| Exit.SysExit | kernel/exit.c:175-178 | sys_exit runs the reference do_exit with the code shifted into the high byte |
| Exit.ReparentAll | kernel/exit.c:135-141 | the loop leaves the table of the reference reparenting |
| Exit.TellFatherNow | kernel/exit.c:102-119 | the loop leaves the outcome and table of the reference tell_father |
| Exit.AbandonNow | kernel/exit.c:126-167 | do_exit up to kill_session leaves the table of the reference |
| Exit.DoExitNow | kernel/exit.c:126-173 | do_exit leaves the outcome, table and released resources of the reference do_exit |
| Exit.WaitScanMeans | kernel/exit.c:195-231 | the scan from the top stops at the highest child that matches pid and is a zombie or, with WUNTRACED, stopped; otherwise it reports whether a matching living child exists |
| Exit.WaitPassFound | kernel/exit.c:210-225 | a stopped child is reported with status 0x7f and no change; a zombie child is released, its status is its exit code and its times are added to the caller's child times; its pid is returned |
| Exit.WaitPassNone | kernel/exit.c:227-247 | with matching children but none to report, WNOHANG returns 0 and otherwise the caller sleeps interruptibly; with none at all -ECHILD |
| Exit.SysWaitpid | kernel/exit.c:186-248 | one pass of sys_waitpid leaves the outcome and table of the reference pass |
| Exit.ClearChldMeans | kernel/exit.c:242 | clearing SIGCHLD drops exactly that bit, and the word is then 0 exactly when no other signal was pending |
| Exit.WaitWoken | kernel/exit.c:242-245 | after waking, SIGCHLD is cleared and the scan repeats exactly when no other signal is pending, otherwise -EINTR |
| Wait.WExitStatus | include/sys/wait.h:16 | the exit status is a byte |
| Wait.WTermSig | include/sys/wait.h:17 | the terminating signal is below 128 |
| Wait.WStopSig | include/sys/wait.h:18 | the stop signal is a byte |
| Wait.StatusBytes | include/sys/wait.h:14-18 | a 16-bit status is its high byte followed by its low byte, WEXITSTATUS and WSTOPSIG agree, and no status both exited and stopped |
| Wait.StoppedStatus | include/sys/wait.h:14-19 | the stopped status 0x7f reads as stopped with signal 0 and not exited, and as written it also reads as signalled by signal 127 |
| Memory.Frame | mm/memory.c:273 | masking an entry with 0xfffff000 gives the page-aligned address of the page that holds it |
| Memory.ReadOnly | mm/memory.c:220 | clearing bit 1 keeps the entry's page and present bit and makes it read-only |
| Memory.Writable | mm/memory.c:275 | setting bit 1 keeps the entry's page and present bit and makes it writable |
| Memory.RwBit | mm/memory.c:275 | on an entry whose R/W bit is clear, setting it adds 2 and changes neither page nor present bit |
| Memory.HighestFree | mm/memory.c:76-79 | the backwards scan of mem_map finds the highest page whose count is 0, or none when every page is in use |
| Memory.GetFree | mm/memory.c:72-92 | get_free_page returns 0 or a page-aligned address from LOW_MEM up to the end of paged memory |
| Memory.FreePageSpec | mm/memory.c:102-114 | free_page changes reference counts only, never memory |
| Memory.GetFreeTakesHighest | mm/memory.c:72-92 | get_free_page returns 0 and changes nothing exactly when every page is in use; otherwise it takes the highest free page, sets its count to 1, zeroes exactly its 4096 bytes and changes nothing else |
| Memory.GetThenFree | mm/memory.c:72-114 | freeing a page get_free_page just returned succeeds and restores every reference count |
| Memory.FreeFreePanics | mm/memory.c:111-113 | freeing a page whose count is already 0 panics |
| Memory.InitThenGetFree | mm/memory.c:455-469 | after mem_init exactly the pages wholly inside start_mem to end_mem are free, and the first page handed out is the last whole page below end_mem |
| Memory.FreeTableRunClears | mm/memory.c:144-150 | the inner loop of free_page_tables only ever writes zeros to memory |
| Memory.FreeDirClears | mm/memory.c:139-152 | one pass of the outer loop only writes zeros and, when it goes well, leaves the directory entry absent |
| Memory.FreeDirRunClears | mm/memory.c:137-153 | the outer loop only writes zeros and, when it goes well, leaves every directory entry it passed absent |
| Memory.FreeTablesMeans | mm/memory.c:125-156 | a start not 4 MB aligned, or 0, panics; free_page_tables only writes zeros, and on success no directory entry of the range is present |
| Memory.FreeDirRunIdle | mm/memory.c:139-140 | a range whose directory entries are all absent is left exactly as it is |
| Memory.CopyTableMeans | mm/memory.c:213-229 | each present source entry is copied read-only to the target, and the source entry is made read-only too when its page lies above LOW_MEM; absent entries are skipped |
| Memory.CopyTableCounts | mm/memory.c:223-227 | after the inner loop every page above LOW_MEM gains one reference per source entry that maps it, modulo 256 as mem_map holds bytes |
| Memory.CopyTablesRefuses | mm/memory.c:191-199 | an unaligned start panics, and a present target directory entry panics before anything is copied |
| Memory.CopyDirMeans | mm/memory.c:198-209 | one outer pass takes a free page for the new table and stores it in the target directory entry as present, writable and user |
| Memory.CopyTableKeepsOthers | mm/memory.c:213-229 | the inner loop writes only inside the two page tables |
| Memory.UnWpInPlace | mm/memory.c:274-278 | a page above LOW_MEM with one reference is made writable in place and nothing else changes |
| Memory.UnWpCopies | mm/memory.c:279-285 | otherwise a fresh page with count 1 replaces the entry with flags 7 and receives a copy of the old page, and an old page above LOW_MEM loses one reference |
| Memory.Shareable | mm/memory.c:351-366 | a page offered for sharing is present, clean and lies from LOW_MEM to below HIGH_MEMORY |
| Memory.ToTable | mm/memory.c:367-373 | the target table is the page the target directory entry names, allocated when that entry was absent |
| Memory.ShareIntoMeans | mm/memory.c:374-384 | sharing succeeds exactly when the target entry is absent; then both entries hold the source entry write-protected, no other word changes, and the page gains one reference |
| Memory.ShareMeans | mm/memory.c:343-385 | nothing is shared and nothing changes without a clean present page in range; when shared, the current task's entry maps the page read-only and the page gains one reference |
| Memory.Mm.constructor | mm/memory.c:57-62 | mem_map starts all 0 and HIGH_MEMORY 0 |
| Memory.Mm.MemInit | mm/memory.c:455-469 | mem_init sets HIGH_MEMORY to end_mem and mem_map to the reference initial counts |
| Memory.Mm.GetFreePage | mm/memory.c:72-92 | get_free_page leaves the memory, counts and result of the reference |
| Memory.Mm.FreePage | mm/memory.c:102-114 | free_page leaves the counts and outcome of the reference |
| Memory.Mm.FreeTableEntry | mm/memory.c:146-148 | one pass of the inner loop is the reference pass |
| Memory.Mm.FreeTable | mm/memory.c:144-150 | the inner loop over 1024 entries is the reference run |
| Memory.Mm.FreeDirEntry | mm/memory.c:139-152 | one pass of the outer loop is the reference pass |
| Memory.Mm.FreePageTables | mm/memory.c:125-156 | free_page_tables leaves the memory, counts and outcome of the reference |
| Memory.Mm.FreeDirStep | mm/memory.c:137-153 | one more outer pass extends the reference run by one |
| Memory.Mm.FreeDirs | mm/memory.c:137-153 | the outer loop over n directory entries is the reference run |
| Memory.Mm.CopyTableEntry | mm/memory.c:214-228 | one pass of the inner copy loop is the reference pass |
| Memory.Mm.CopyTable | mm/memory.c:213-229 | the inner copy loop is the reference run |
| Memory.Mm.CopyDirEntry | mm/memory.c:198-229 | one pass of the outer copy loop is the reference pass |
| Memory.Mm.CopyPageTables | mm/memory.c:182-233 | copy_page_tables leaves the memory, counts and outcome of the reference |
| Memory.Mm.CopyDirStep | mm/memory.c:196-230 | one more outer copy pass extends the reference run by one |
| Memory.Mm.CopyDirs | mm/memory.c:196-230 | the outer copy loop over n directory entries is the reference run |
| Memory.Mm.UnWpCopyPage | mm/memory.c:279-285 | the copying branch of un_wp_page is the reference branch |
| Memory.Mm.UnWpPage | mm/memory.c:269-286 | un_wp_page leaves the memory, counts and outcome of the reference |
| Memory.Mm.TargetTable | mm/memory.c:367-373 | the target table lookup is the reference lookup |
| Memory.Mm.TryToShare | mm/memory.c:343-385 | try_to_share leaves the memory, counts and result of the reference |
| Memory.Mm.ShareAt | mm/memory.c:374-384 | the sharing step is the reference step |
| Malloc.SizesIncrease | lib/malloc.c:86-96 | the bucket sizes of bucket_dir grow strictly |
| Malloc.BucketFrom | lib/malloc.c:143-145 | the scan of bucket_dir stops within the table or at its end marker |
| Malloc.BucketChoice | lib/malloc.c:143-150 | malloc picks the smallest bucket size that holds len bytes, and finds none exactly when len exceeds 4096 |
| Malloc.FirstWithSpace | lib/malloc.c:156-158 | the chain scan stops at the first descriptor with a free object, or at the chain's end when none has one |
| Malloc.DescRun | lib/malloc.c:117-120 | the descriptors of a fresh page lie 16 bytes apart from its start |
| Malloc.ForgetPage | lib/malloc.c:113 | the descriptors of a page that get_free_page has zeroed read as empty, the others are unchanged |
| Malloc.InitDescs | lib/malloc.c:107-129 | init_bucket_desc leaves the bucket chains alone and, when it succeeds, the free descriptor list is not empty |
| Malloc.InitDescsMeans | lib/malloc.c:107-129 | init_bucket_desc fails exactly when no page is free; otherwise the 256 zeroed descriptors of the new page, in address order, go in front of free_bucket_desc |
| Malloc.CarveLinks | lib/malloc.c:179-183 | each object of a carved page holds the address of the next and the last holds 0 |
| Malloc.CarveKeeps | lib/malloc.c:179-183 | carving writes nothing outside the page's objects |
| Malloc.GrowMeans | lib/malloc.c:160-187 | a new bucket takes the first free descriptor and a fresh page, heads its size's chain, and the page's first free object links to the next one, or to 0 for 4096-byte objects |
| Malloc.MallocTooLarge | lib/malloc.c:146-150 | a request over 4096 bytes panics and changes nothing |
| Malloc.MallocPops | lib/malloc.c:156-195 | with a descriptor that has a free object, malloc returns that object, the descriptor's free pointer moves to the next one and its count rises, and nothing else changes |
| Malloc.MallocFresh | lib/malloc.c:160-195 | with no such descriptor, malloc returns the first object of a fresh page, whose descriptor heads the chain with count 1 |
| Malloc.FindPage | lib/malloc.c:217-221 | the chain scan stops at the first descriptor for the page, or at the chain's end |
| Malloc.Owner | lib/malloc.c:212-222 | free_s finds a descriptor for the object's page in the first chain whose size is at least the given size |
| Malloc.ScanChain | lib/malloc.c:217-221 | the walk down one chain stops at the position the chain scan of the reference gives: the first descriptor for the page, or the chain's end |
| Malloc.Kmalloc.FindOwner | lib/malloc.c:212-222 | the two nested loops return exactly the bucket and position the reference search gives, (number of sizes, 0) when no chain holds the page |
| Malloc.Unlink | lib/malloc.c:238-245 | unlinking a descriptor shortens its chain by one |
| Malloc.FreeBadAddress | lib/malloc.c:223 | freeing an object whose page no descriptor owns panics and changes nothing |
| Malloc.FreeMeans | lib/malloc.c:224-252 | free_s pushes the object onto its descriptor's free list and lowers its count; at 0 the descriptor leaves its chain, its page is freed and it heads free_bucket_desc |
| Malloc.TakeThenPush | lib/malloc.c:189-193 | freeing the object just taken restores the descriptor and every word of memory |
| Malloc.MallocThenFree | lib/malloc.c:136-255 | malloc followed by free_s of the result brings the descriptors, chains, counts and memory back to where they were |
| Malloc.Kmalloc.constructor | lib/malloc.c:86-101 | every chain starts empty with no free descriptors |
| Malloc.Kmalloc.InitBucketDesc | lib/malloc.c:107-129 | init_bucket_desc leaves the heap of the reference |
| Malloc.Kmalloc.Carve | lib/malloc.c:179-183 | the carving loop leaves the memory of the reference carving |
| Malloc.Kmalloc.NewBucketFor | lib/malloc.c:160-187 | the new-bucket branch leaves the heap and descriptor of the reference |
| Malloc.Kmalloc.Malloc | lib/malloc.c:136-196 | malloc leaves the heap, outcome and result of the reference |
| Malloc.Kmalloc.FreeS | lib/malloc.c:203-255 | free_s leaves the heap and outcome of the reference |
| VSprintf.DigitsValue | kernel/vsprintf.c:91-95 | the digits number() produces read back in the base as the number |
| VSprintf.DigitsShape | kernel/vsprintf.c:91-95 | a positive number's digits start with a non-zero digit and every digit lies below the base |
| VSprintf.DigitsFit | kernel/vsprintf.c:65 | a value below 2 to the k has at most k digits in any base, so a 32-bit value fits tmp[36] |
| VSprintf.Magnitude | kernel/vsprintf.c:78-83 | the value printed is a 32-bit unsigned value |
| VSprintf.NumberBase | kernel/vsprintf.c:73-74 | number() returns NULL exactly for a base outside 2 to 36 |
| VSprintf.BodyValue | kernel/vsprintf.c:91-122 | the digits written, precision zeros included, denote the value printed |
| VSprintf.BodyShape | kernel/vsprintf.c:91-122 | at least precision digits and at least one are written, with no leading zero beyond the precision, and 0 prints as "0" |
| VSprintf.NumberWidth | kernel/vsprintf.c:85-125 | the field is as wide as the width, or as sign, prefix and digits when those are wider |
| VSprintf.NumberLeft | kernel/vsprintf.c:71-125 | with LEFT the field starts with sign, prefix and digits and spaces fill the rest |
| VSprintf.NumberZeroPad | kernel/vsprintf.c:100-122 | with ZEROPAD and no LEFT the field starts with sign and prefix, ends with the digits, and zeros fill the middle |
| VSprintf.NumberSpacePad | kernel/vsprintf.c:100-122 | with neither LEFT nor ZEROPAD spaces come first and sign, prefix and digits close the field |
| VSprintf.SignMeans | kernel/vsprintf.c:78-83 | the sign is '-' for a negative SIGN number, else '+' with PLUS, else ' ' with SPACE, else none; a negative SIGN number prints its magnitude and an unsigned one its 32-bit pattern |
| VSprintf.PadTo | kernel/vsprintf.c:101-102 | the post-decrement padding loop writes size copies of c, none when size is not positive, and leaves size one below the smaller of size and 0 |
| VSprintf.DigitLoop | kernel/vsprintf.c:94-95 | tmp holds the number's digits least significant first |
| VSprintf.DivBase | kernel/vsprintf.c:47-50 | do_div gives quotient and remainder, and the remainder is the last digit of the number's digits |
| VSprintf.Backwards | kernel/vsprintf.c:121-122 | tmp is copied out most significant digit first |
| VSprintf.WriteHead | kernel/vsprintf.c:103-112 | the sign, then 0 for octal or 0x or 0X for hexadecimal under SPECIAL, are written |
| VSprintf.ZeroFill | kernel/vsprintf.c:118-119 | zeros are written up to the precision |
| VSprintf.Layout | kernel/vsprintf.c:100-125 | the parts are written in the order that gives the reference field |
| VSprintf.SignOf | kernel/vsprintf.c:78-83 | the sign and magnitude are the reference ones |
| VSprintf.HeadRoom | kernel/vsprintf.c:85-89 | the width left is the width less the room of the sign and the SPECIAL prefix |
| VSprintf.TmpDigits | kernel/vsprintf.c:91-95 | tmp holds "0" for zero and otherwise the digits least significant first |
| VSprintf.Number | kernel/vsprintf.c:62-127 | number() writes the reference field, or returns NULL for a base outside 2 to 36 |
| VSprintf.FlagsFrom | kernel/vsprintf.c:158-169 | the flag loop stops at the first character that is no flag, having passed only flag characters |
| VSprintf.FlagsMeans | kernel/vsprintf.c:158-169 | a flag is set exactly when its character occurs in the run, and SIGN and SMALL are untouched |
| VSprintf.ParseFlags | kernel/vsprintf.c:158-169 | the flag loop gives the reference flags and position |
| VSprintf.DigitsEnd | kernel/vsprintf.c:27-28 | the digit run ends at the first non-digit, having passed only digits |
| VSprintf.SkipAtoi | kernel/vsprintf.c:23-30 | skip_atoi consumes the longest run of decimal digits and returns its non-negative value |
| VSprintf.Neg32 | kernel/vsprintf.c:180-181 | negating an int flips its sign except for the most negative int, which stays itself |
| VSprintf.WidthSpec | kernel/vsprintf.c:171-184 | the width parse moves forward and reads at most one argument |
| VSprintf.PrecisionSpec | kernel/vsprintf.c:186-201 | the precision parse moves forward and changes no flag |
| VSprintf.ParseDirective | kernel/vsprintf.c:158-209 | the conversion character lies after the '%' |
| VSprintf.ParseWidth | kernel/vsprintf.c:171-184 | the width part gives the reference width with fmt stepped past a '*' |
| VSprintf.ParsePrecision | kernel/vsprintf.c:186-201 | the precision part gives the reference precision with fmt stepped past a '*' |
| VSprintf.Parse | kernel/vsprintf.c:158-209 | flags, width, precision and qualifier give the reference conversion |
| VSprintf.StrLen | kernel/vsprintf.c:228 | a %s argument's length is its bytes before the first NUL |
| VSprintf.NumericArgs | kernel/vsprintf.c:244-275 | every numeric conversion passes number() a base from 2 to 36 |
| VSprintf.Convert | kernel/vsprintf.c:212-292 | a conversion reads at most one argument, and only %n stores, its count at the address its argument gives |
| VSprintf.PreDecPad | kernel/vsprintf.c:217-218 | the pre-decrement loop writes width less one spaces and leaves width at 0, or one lower when it was not positive |
| VSprintf.PostDecPad | kernel/vsprintf.c:235-236 | the post-decrement loop writes width less len spaces and leaves width one below the smaller of width and len |
| VSprintf.CopyChars | kernel/vsprintf.c:237-238 | the first len characters of the string are copied |
| VSprintf.EmitChar | kernel/vsprintf.c:214-223 | %c writes the reference field |
| VSprintf.EmitString | kernel/vsprintf.c:225-242 | %s writes the reference field |
| VSprintf.EmitNumber | kernel/vsprintf.c:244-275 | the numeric conversions write what number() gives for their base, width and flags |
| VSprintf.Emit | kernel/vsprintf.c:212-292 | one conversion writes the reference output |
| VSprintf.Vsprintf | kernel/vsprintf.c:136-296 | vsprintf writes the reference text and %n stores |
| VSprintf.FormatExtends | kernel/vsprintf.c:151-293 | the text only grows, the stores only accumulate, and every %n count is at most the final length |
| VSprintf.LiteralCopied | kernel/vsprintf.c:153-156 | a format without '%' is copied as it stands and reads no argument |
| VSprintf.PlainDirective | kernel/vsprintf.c:158-209 | a conversion character right after '%' parses with no flags, width or precision and reads no argument |
| VSprintf.NumberUnpadded | kernel/vsprintf.c:100-125 | a number no wider than its width prints as sign, prefix and digits, unpadded |
| VSprintf.StoresCount | kernel/vsprintf.c:277-280 | %n after a literal stores the number of characters written so far |
| VSprintf.PercentEscaped | kernel/vsprintf.c:282-291 | "%%" prints one '%' |
| VSprintf.UnknownConversion | kernel/vsprintf.c:282-291 | an unknown conversion character is printed after a '%' |
| VSprintf.TrailingPercent | kernel/vsprintf.c:287-290 | a lone '%' at the end of the format prints as '%' |
| VSprintf.NumericText | kernel/vsprintf.c:244-275 | a numeric conversion alone in the format prints what number() gives for its argument |
| VSprintf.DecimalMeans | kernel/vsprintf.c:269-275 | %d prints '-' exactly for a negative number, then its magnitude in decimal with no leading zero |
| VSprintf.UnsignedMeans | kernel/vsprintf.c:272-275 | %u prints the 32-bit word, read as unsigned, in decimal |
| VSprintf.StarWidthAsWritten | kernel/vsprintf.c:177-184 | as written, a '*' width uses up an argument but leaves fmt on the '*', so "%*" is printed and the scan resumes after the '*' |
| VSprintf.StarPrecisionAsWritten | kernel/vsprintf.c:195-198 | as written, a '*' precision uses up an argument but leaves fmt on the '*', so "%*" is printed and the scan resumes after the '*' |
| VSprintf.StarWidthFixed | kernel/vsprintf.c:177-184 | with fmt stepped past the '*', the width is the argument's magnitude, LEFT when negative, and the conversion is read after the '*' |
| VSprintf.StarPrecisionFixed | kernel/vsprintf.c:195-201 | with fmt stepped past the '*', the precision is the argument, 0 when negative, and the conversion is read after the '*' |
| VSprintf.StarExampleAsWritten | kernel/vsprintf.c:177-184 | as written "%*d" with 5 and 42 prints "%*d" |
| VSprintf.StarExampleFixed | kernel/vsprintf.c:177-184 | corrected, "%*d" with 5 and 42 prints 42 five wide |
| CString.SChar | include/string.h:116-133 | a byte compared as a char lies in -128 to 127 |
| CString.Strlen | include/string.h:338-348 | strlen is the number of bytes before the first NUL |
| CString.Z | include/string.h:338-348 | a C string is its bytes up to and including the first NUL |
| CString.StrcmpMeans | include/string.h:116-133 | strcmp is 0 exactly when the two strings are equal, and otherwise 1 or -1 as the first differing byte, read as a signed char, is greater or less |
| CString.StrncmpIsStrcmp | include/string.h:142-161 | strncmp with a count beyond the first string's length is strcmp, and with count 0 it is 0 |
| CString.StrncmpPrefix | include/string.h:142-161 | strncmp reads only the first count bytes of either string |
| CString.StrchrMeans | include/string.h:169-184 | strchr finds the first occurrence of c at or before the NUL, or none when there is none |
| CString.StrrchrMeans | include/string.h:191-205 | strrchr finds the last occurrence of c at or before the NUL, or none when there is none |
| CString.StrspnMeans | include/string.h:213-235 | strspn is the length of the longest prefix whose bytes all occur in ct |
| CString.StrcspnMeans | include/string.h:243-265 | strcspn is the length of the longest prefix none of whose bytes occurs in ct |
| CString.MemcmpMeans | include/string.h:464-478 | memcmp is 0 exactly when the first count bytes are equal, and otherwise 1 or -1 as the first differing byte, read as a signed char, is greater or less |
| CString.Memchr | include/string.h:487-501 | memchr finds the first c among the first count bytes, or none, and so none when count is 0 |
| CString.Strcpy | include/string.h:32-41 | strcpy copies src and its NUL to dest and changes nothing else |
| CString.StrcpyCopy | include/string.h:34-38 | the copy loop copies the bytes before the NUL and changes nothing else |
| CString.StrcpyMeans | include/string.h:32-41 | after strcpy dest holds the same C string as src did |
| CString.FindNul | include/string.h:73-76 | the scan stops at the string's NUL |
| CString.Strcat | include/string.h:70-82 | strcat copies src and its NUL over dest's NUL and changes nothing else |
| CString.Strncpy | include/string.h:49-63 | strncpy writes the first count bytes of src, NUL-padded after its terminator, and nothing else |
| CString.StrncpyCopy | include/string.h:51-57 | the copy loop stops at count or after copying the NUL and changes nothing else |
| CString.Memmove | include/string.h:440-455 | memmove copies the source block even when it overlaps the destination, and changes nothing else |
| CString.Memset | include/string.h:509-519 | memset fills count bytes with c and changes nothing else |
| MkTime.MonthTable | kernel/mktime.c:26-39 | month[] starts at 0, grows strictly, and holds DAY times the days before each month of a leap year |
| MkTime.KernelMktime | kernel/mktime.c:46-63 | kernel_mktime returns the seconds since 1970 whenever they fit a 32-bit long |
| MkTime.YearsMeans | kernel/mktime.c:53 | YEAR*year + DAY*((year+1)/4) counts the days of the years since 1970, one more for each leap year among them |
| MkTime.MonthsMeans | kernel/mktime.c:54-57 | month[] less a DAY after February of a non-leap year is the days before the month in that year |
| MkTime.MonthsDiffer | kernel/mktime.c:56-57 | after February a non-leap year has one day fewer before each month |
| MkTime.SecondsMeans | kernel/mktime.c:51-61 | the sum is the days before the date times DAY plus the hours, minutes and seconds, and 1970-01-01 00:00:00 gives 0 |
| MkTime.FieldSteps | kernel/mktime.c:58-61 | one more second, minute, hour or day adds 1, MINUTE, HOUR or DAY |
| AOut.Add | include/a.out.h:55-75 | unsigned 32-bit addition wraps modulo 2 to the 32 |
| AOut.TxtOff | include/a.out.h:46-51 | the text starts one segment in for ZMAGIC and right after the 32-byte header otherwise |
| AOut.OffsetsChain | include/a.out.h:54-76 | when the file end fits 32 bits, each section starts where the previous one ends, in order text, data, relocations, symbols, strings |
| AOut.SegmentRoundMeans | include/a.out.h:112 | _N_SEGMENT_ROUND rounds up to the next multiple of the segment size |
| AOut.AddrsMeans | include/a.out.h:115-128 | an OMAGIC file's data follows its text at once, the others' starts at the next segment boundary, and bss follows the data |
| Boot.MemoryLayoutMeans | init/main.c:150-166 | memory_end is the memory size rounded down to a page and capped at 16MB, the buffer cache ends at 1, 2 or 4MB inside it, and main memory starts after the RAM disk |
| Boot.BufferGrows | init/main.c:150-161 | more extended memory never shrinks memory_end or the buffer cache |
| Boot.BcdRoundTrip | init/main.c:97 | BCD_TO_BIN recovers every two-digit number from its BCD form |
| Boot.TimeInit | init/main.c:102-122 | time_init converts every CMOS field from BCD and counts months from 0 |
| Boot.TimeInitMeans | init/main.c:102-122 | a CMOS clock holding a date in BCD gives that date with the month counted from 0 |
| Boot.StartupTime | init/main.c:123 | startup_time is kernel_mktime of the converted CMOS time |
| FsDefs.LayoutConstants | include/linux/fs.h:49-56 | a block holds 32 disk inodes of 32 bytes and 64 directory entries of 16 bytes |
| FsDefs.ZeroBlock | fs/bitmap.c:17-21 | a cleared block is 1024 zero bytes |
| FsDefs.Entry | fs/inode.c:133 | an indirect block entry is a 16-bit zone number |
| FsDefs.EntryOfSet | fs/inode.c:137 | storing an indirect block entry changes that entry and no other |
| FsDefs.Major | include/linux/fs.h:33 | MAJOR of a 16-bit device number is below 256 |
| FsDefs.Minor | include/linux/fs.h:34 | MINOR is a byte |
| FsDefs.MajorMinorSplit | include/linux/fs.h:33-34 | a 16-bit device number is MAJOR times 256 plus MINOR |
| FsDefs.PipeSize | include/linux/fs.h:60-62 | PIPE_SIZE is at most PAGE_SIZE-1, 0 exactly when head equals tail, and the distance from tail to head round the page |
| FsDefs.IncPipe | include/linux/fs.h:63-64 | INC_PIPE advances a pipe index by one round the page |
| FsDefs.PipeCapacity | include/linux/fs.h:60-64 | a pipe is full exactly when one more byte would make it look empty, writing a byte grows it by one and reading one shrinks it by one |
| Execve.FirstNull | fs/exec.c:89-90 | the index found holds NULL and no entry before it does |
| Execve.Count | fs/exec.c:83-93 | count is 0 for a NULL array and otherwise the number of entries before the first NULL |
| Execve.PutByteMeans | fs/exec.c:151-163 | one store below p either finds no page to put it in or puts the byte at its offset and changes no other byte |
| Execve.CopyBackLays | fs/exec.c:149-164 | the inner loop lays the string and its NUL in order just below p, moves p down by their length and changes nothing else, unless it fails for want of a page |
| Execve.CopyFromLays | fs/exec.c:134-168 | with room below p, copy_strings returns 0 for want of a page or lays the strings, last first, just below p and changes nothing else |
| Execve.LongStringOverruns | fs/exec.c:145 | the unsigned test p-len < 0 never fires, so a string longer than the room left runs below offset 0 |
| Execve.AllPagesStore | fs/exec.c:149-158 | with every page present the stores below p succeed until p wraps to 2 to the 32 less one, which is outside page[] |
| Execve.CopyFromAppend | fs/exec.c:134-165 | copying two vectors in one call is copying the later strings first and then the earlier ones, unless the first part returns 0 |
| Execve.PrefixCopy | fs/exec.c:134-137 | copy_strings with argc k reads only the first k pointers |
| Execve.CopyStringsLoop | fs/exec.c:121-169 | the loop with its page offset computes the reference copy_strings result |
| Execve.NextStringMeans | fs/exec.c:67 | the string at q runs to its first NUL, and the scan stops just past it |
| Execve.SkipString | fs/exec.c:67 | the inner loop stops just past the string's NUL |
| Execve.StartsAdd | fs/exec.c:65-73 | skipping k strings and then j more is skipping k + j |
| Execve.TableMeans | fs/exec.c:65-69 | each table slot points to its string and nothing outside the table changes |
| Execve.FillTable | fs/exec.c:65-74 | the loop points slot i at string i, puts NULL after the last slot and changes nothing else |
| Execve.CreateTables | fs/exec.c:53-76 | the stack gets argc, argv and envp below two NULL-terminated tables pointing to the strings in order, the pointer is aligned down to 4, and nothing else changes |
| Execve.StartsOfFlat | fs/exec.c:53-76 | strings laid out as copy_strings lays them are found again by create_tables, the i-th pointer at the i-th string |
| Execve.SkipIs | fs/exec.c:67 | skipping a NUL-free string and its NUL moves past both |
| Execve.CodeLimitRounds | fs/exec.c:183-184 | the code limit is the text size rounded up to a whole page |
| Execve.ArgPagesLine | fs/exec.c:193-197 | argument page i is mapped so that offset q of the argument space lands at the top 128 KB of the data segment |
| Execve.PlacedMeans | fs/exec.c:194-198 | each present argument page is put once, at its slot's address, and nothing else is |
| Execve.ChangeLdt | fs/exec.c:177-200 | change_ldt gives the rounded code limit, the 64 MB data limit and puts each present argument page at its place |
| Execve.FileCheckMeans | fs/exec.c:236-251 | the file passes exactly when it is regular and the owner, group or other execute bit that applies is set, or some execute bit is set for the superuser; not regular is -EACCES and an owner without execute permission is refused even when others may execute |
| Execve.HeaderCheckMeans | fs/exec.c:311-322 | the header passes exactly when it is ZMAGIC with no relocations, an image of at most 48 MB and a file long enough, the sums taken in 32 bits, and otherwise gives -ENOEXEC |
| Execve.HeaderSumWraps | fs/exec.c:311-313 | a header whose text and data add up to 4 GB passes the size test as if they were empty |
| Execve.Line | fs/exec.c:260-263 | the first line holds no NUL and at most 1022 bytes |
| Execve.Find | fs/exec.c:264 | the index of the first c, or the end when there is none |
| Execve.SkipBlanks | fs/exec.c:266 | the index of the first character that is neither space nor tab |
| Execve.WordEnd | fs/exec.c:274 | the index of the first blank after the word |
| Execve.NameStart | fs/exec.c:275-276 | the name starts just past the word's last '/', or at the word when it has none |
| Execve.ParseFails | fs/exec.c:268-271 | the line is refused exactly when it holds only blanks |
| Execve.ParseShape | fs/exec.c:266-281 | the line is blanks, then the interpreter, then either nothing or one blank and the argument |
| Execve.ParseWord | fs/exec.c:272-277 | the interpreter is a non-empty word without blanks and its name is the part after its last '/' |
| Execve.ReadInterp | fs/exec.c:257-281 | the "#!" line parse gives the reference interpreter, name and argument |
| Execve.ScanFor | fs/exec.c:264 | the scan stops at the first c or the end |
| Execve.ScanBlanks | fs/exec.c:266 | the scan stops at the first non-blank |
| Execve.ScanWord | fs/exec.c:274-277 | the scan stops at the word's end, with the name just past its last '/' |
| Execve.ThenAppend | fs/exec.c:283-293 | two copy_strings calls in a row, when the second does not return 0, do what one call on both vectors does |
| Execve.ScriptCopies | fs/exec.c:282-293 | for a script the copies lay envp, then argv without argv[0], the file name, the argument and the interpreter's name, as one copy of the script's argument vector would |
| Execve.DecideMeans | fs/exec.c:235-322 | do_execve runs a binary only after the file and header checks pass, runs a script only on a first "#!" line, refuses with -EACCES or -ENOEXEC otherwise, and refuses a second "#!" with -ENOEXEC |

## Left out

- Waits and interrupts. `sleep_on`, `interruptible_sleep_on`, `wake_up`, `switch_to`, the `cli()`/`sti()` brackets and interrupt re-entrancy are not modelled as task switching. A wait is a `Sleep` call that takes one scripted environment step. A run whose script ends while the task waits ends with `Asleep`.
- LlRwBlk.RequestQueue.Sleep: the waits inside ll_rw_block take only driver completions from the script. These are the waits in lock_buffer and the wait for a free request slot. Another task's change to the buffer pool is not applied there, so the re-test of b_dirt and b_uptodate after lock_buffer (kernel/blk_drv/ll_rw_blk.c:137-142) sees only what a completion changed. Reason: adopting pool changes there would need the cache's rely condition carried through the queue's invariant.
- Buffer.Cache.SyncDev: the exact set of blocks written is stated only for a pass during which no other task ran. When other tasks do run, the contract states only that the invariant and the held references are kept.
- Buffer.Cache.SysSync: the same as SyncDev. The exact effect is stated only for an undisturbed run.
- Buffer.Cache.Bread: a returned buffer is always stated to be up to date, and a refused one to have been released. That a block already cached and up to date is returned rather than refused is stated only for a run in which no other task ran.
- Buffer.Cache.Breada: states for the first block what Bread states, except the undisturbed clause. It states nothing about the read-ahead blocks beyond the invariant and the held references.
- Buffer.Cache.Settle: that a buffer which was up to date before the wait is kept is stated only for a run in which no other task ran.
- The inode write-back that sys_sync and sync_dev start with (sync_inodes) is not called from the cache model. It is modelled separately as InodeTable.Table.SyncInodes.
- LlRwBlk.RequestQueue.AddRequest: the driver's request_fn is not called when the request becomes current. The drivers are modelled separately, on their own view of the list (module Driver).
- Hardware register sequencing is not modelled:
  - the floppy controller's commands and replies, DMA, and the motor and reset timers;
  - hd_out, controller_ready, drive_busy and reset_controller;
  - the console's set_origin, set_cursor and sysbeep port writes;
  - the serial driver.
  What a driver would send is returned as a step value. The sector data of the hard disk is not modelled.
- The hard-disk partition table is read as an array of partition records. kernel/blk_drv/hd.c:74 declares `*hd[5*MAX_HD]`, an array of pointers whose `{0,0}` initialiser and `.start_sect` uses do not compile with that declaration. The model takes the reading under which the rest of the file compiles.
- kernel/blk_drv/hd.c:167 holds a stray non-ASCII character after `NR_HD = 1;`, and fs/namei.c:377 lacks the `;` after `return -ENOENT`. Neither compiles as written. The model reads the first as `NR_HD = 1;` and the second as returning -ENOENT when dir_namei fails.
- iget (fs/inode.c) is left out. It crosses mount points and waits on locked inodes. The namespace of get_dir and open_namei is a lookup table given as a parameter.
- Namei.Key: passes "not at a file-system root" to Namei.PrepareName, so a path walk never crosses from a mounted root to the inode it is mounted on; only PrepareName states when find_entry crosses. As written the crossing has a quirk that is not modelled either: fs/namei.c:108 computes `entries` from the i_size of the mounted root, and only then do lines 117-125 replace `*dir` with the covered inode, so the covered directory is searched with the mounted root's entry count.
- Buffer.Cache.Pin: b_count is an `unsigned char` (include/linux/fs.h:77), so `b_count++` at 255 wraps to 0. The model's count is unbounded, and Pin promises one more reference in every case. A count of 255 needs 255 references held at once. The reference that Bitmap.Volume.FreeBlock leaks as written shows that counts can grow without a matching brelse. Reason: the wrap would break the ownership invariant (every held reference is counted) on which the whole cache model rests.
- Fork.Hold: i_count is an `unsigned short` (include/linux/fs.h:116), so its `++` would wrap at 65535. The model's count is unbounded.
- Fcntl.DupShares: f_count is an `unsigned short` (include/linux/fs.h:131), so its `++` would wrap at 65535. The model's count is unbounded. The same holds for the other places that raise f_count: Fork.ShareFiles, Fcntl.SysDup, Fcntl.SysDup2 and Fcntl.SysFcntl (F_DUPFD).
- ReadWrite.SysLseek: f_pos and i_size are unbounded integers. The 32-bit overflow of `f_pos + offset` and of `i_size + offset` is not modelled.
- Pipe and terminal reads and writes that would sleep end the run (`Asleep`), or take their wake-ups from an environment script. Another task's concurrent use of the same pipe or terminal is not shown.
- TtyIo.Terminal.TtyWrite: tty->write (con_write or rs_write) is not called. Echoed and written characters stay in the write queue.
- Sched.DoTimer: the speaker countdown (beepcount, sysbeepstop) and do_floppy_timer are hardware timers and are left out. The timer functions that come due are returned in calling order, not called.
- The page-fault paths of mm/memory.c are not modelled:
  - put_page, get_empty_page, do_wp_page, write_verify, share_page and do_no_page;
  - calc_mem, which prints only.
  try_to_share is modelled on its own, with the physical address it reads as a parameter.
- Memory.Bump: for a page at or above 16 MB, which has no byte in mem_map, the model leaves mem_map unchanged. The C would write outside the array there. Memory.Drop does the same.
- Malloc.Kmalloc.FreeS: free_s's chain walk is the model's own descriptor chain. The re-search for `prev` and the "malloc bucket chains corrupted" panic do not arise, because the chain the model keeps is always well formed.
- Execve.DecideMeans: do_execve is modelled up to its decision on the file: the file checks, the "#!" line and the header checks. Its final state changes are not modelled:
  - the executable inode and the reset of signal handlers;
  - close_on_exec, and freeing the old page tables;
  - the new brk, end_code, start_stack and entry point.
  Looking up the interpreter (namei) and the restart are also left out. copy_strings, create_tables and change_ldt are modelled separately.
- Fork.CopyProcess: get_free_page's page and copy_page_tables' outcome are parameters. Saving the FPU state into the child (`fnsave`, kernel/fork.c:136-137) is left out.
- printk and the console output of diagnostics are left out. panic is a distinct outcome (`Panic`, `Halt`).
- A store through a NULL pointer ends the run with `NullStore`. In the kernel's identity-mapped address space the store lands in low memory (the page directory); what it overwrites is not modelled. Bitmap.Volume.FreeBlock is the path that reaches it: the maps read by read_super need not cover s_nzones (fs/super.c:179-196 checks only the number of blocks read), and fs/bitmap.c:97 does not test the s_zmap slot.
- Bitmap.Volume.Mount: requires 1 <= s_firstdatazone and a first inode map block and a first zone map block. Without a first map block, read_super's `b_data[0] |= 1` (fs/super.c:205-206) goes through NULL; that case is modelled as Super's `NullMap` outcome. A s_firstdatazone of 0, which no Minix file system has because blocks 0 and 1 hold the boot and super blocks, would let new_block hand out zone 0 and return 0, the value that means failure; the Volume contracts do not cover it.
- FPU state (math_state_restore, used_math) and TLB flushes (invalidate) are left out.
- System calls that only read a field (sys_getpid, sys_sgetmask and the like) are outside the modelled core. So are the thin dispatchers fs/char_dev.c, fs/ioctl.c and fs/stat.c.
- The syscall stubs of lib/ and the host build tool tools/build.c are not part of this model.

## Findings

| source | as written | input that shows it | evidently intended | confidence | as-written member | corrected member |
|---|---|---|---|---|---|---|
| fs/buffer.c:200 | insert_into_queues stores `bh->b_next->b_prev = bh` without testing `b_next` | a buffer with a non-zero device inserted into an empty hash bucket, so that `b_next` is NULL | store the back link only when the bucket had a head | not executed | BufferQueues.AsWrittenStoresThroughNull | BufferQueues.EnqueuedOk |
| kernel/vsprintf.c:177-183 | a `*` width reads its argument but does not step fmt past the `*`, so the `*` is then taken as the conversion character | "%*d" with the arguments 5 and 42 prints "%*d" and leaves 42 unread | step past the `*` and print 42 right-aligned in 5 columns | not executed | VSprintf.StarExampleAsWritten | VSprintf.StarExampleFixed |
| kernel/vsprintf.c:195-198 | a `*` precision reads its argument but does not step fmt past the `*` | "%.*d" with the arguments 3 and 7 prints "%*d" and leaves 7 unread | step past the `*` and take the argument as the precision | not executed | VSprintf.StarPrecisionAsWritten | VSprintf.StarPrecisionFixed |

The model's buffer cache (Buffer.Cache.InsertIntoQueues) and vsprintf (VSprintf.Vsprintf) use the corrected behaviour. VSprintf.StarWidthAsWritten states the width case as written for every format.
