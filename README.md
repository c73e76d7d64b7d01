# xv6 buffer cache, per-CPU page allocator and `find`'s name formatting, in Dafny

This project models three parts of an xv6-riscv kernel lab solution and proves properties of each.

**The hashed buffer cache (`kernel/bio.c`, `kernel/buf.h`).**
- NBUF slot records are spread over NBUCKET circular, doubly linked lists. Each list has a sentinel head, and a block lives in the bucket `blockno % NBUCKET`.
- `bget` scans the block's bucket for a hit.
- On a miss it rescans, then sweeps every bucket from tail to head. The sweep picks the unreferenced slot with the smallest last-access tick.
- The chosen slot is renamed and moved to the block's bucket. With no free slot, the kernel panics with "bget: no buffers".
- `bread`, `bwrite`, `brelse`, `bpin` and `bunpin` complete the interface.
- Module `Buf` holds the slot record.
- Module `BucketRing` holds the lists as values. The records form an arena linked by index, and the lists' unlink, push-front and move operations are proved to keep every ring.
- Module `CacheState` holds the cache invariant and the lookup and sweep specifications. It also proves that recycling keeps the invariant.
- Module `Bio` holds the imperative cache: a class whose arena is an `array`, with one method per C function and loops for the scans.

**The per-CPU page allocator (`kernel/kalloc.c`).**
- Each CPU owns a free list.
- `freerange` deals the pages of `[end, PHYSTOP)` round-robin over the lists.
- `kfree` checks the address and pushes the page on the current CPU's list.
- `kalloc` pops from the current CPU's list. When that list is empty, it steals from the first non-empty list of another CPU.
- Module `Kalloc` has the list specifications and lemmas, plus the class `Kmem` whose methods update the lists in place.

**`fmtname` of `user/find.c`.**
- It takes the path component after the last `/`.
- A component of at least DIRSIZ characters is returned unchanged.
- A shorter one is blank-padded into a static buffer, then cut after its last non-blank character.
- Module `Find` has the functional specification and a method that runs the C algorithm on a buffer. The method is proved equal to the specification.

Module `Outcomes` has the `Option` and `Result` datatypes. `Panic(msg)` stands for a kernel `panic(msg)`.

## Model

| member | source | states |
|---|---|---|
| CacheState.Hash | kernel/bio.c:38-40 | the bucket of a block is below NBUCKET, and a block number below NBUCKET is its own bucket |
| CacheState.OnExactlyOneList | kernel/bio.c:54-64 | in a well-formed cache every slot is on the list of the bucket its block hashes to, exactly once, and on no other list |
| CacheState.LiveSlotsDistinct | kernel/bio.c:79-88 | two different slots that are referenced, valid or held never cache the same (dev, blockno) |
| CacheState.BucketsApart | kernel/bio.c:116-119 | the rings of two different buckets share no record, sentinel or slot |
| CacheState.Lookup | kernel/bio.c:79-88 | the hit scan finds the first slot from head.next on that caches (dev, blockno); None means no slot of the list caches it |
| CacheState.Sweep | kernel/bio.c:113-134 | the sweep's choice is -1 with the minimum still ~0, or a visited slot with refcnt 0 and a stamp below ~0 that equals the running minimum |
| CacheState.SweepStep | kernel/bio.c:120-133 | visiting one more slot replaces the choice exactly when that slot has refcnt 0 and a stamp strictly below the running minimum |
| CacheState.SweepPicksLru | kernel/bio.c:113-139 | the sweep chooses nothing iff no visited slot is eligible; its choice is strictly older than every unreferenced slot before it and no younger than any after it |
| CacheState.Reverse | kernel/bio.c:119 | the walk along the prev links visits a list from tail to head |
| CacheState.ScanOrder | kernel/bio.c:116-119 | the sweep visits exactly the slots that are on some bucket list |
| CacheState.ScanOrderStep | kernel/bio.c:116-119 | bucket i adds its list, tail first, after the buckets below i |
| CacheState.WalkStep | kernel/bio.c:119 | one step of the prev walk extends the visited order by the next slot from the tail |
| CacheState.ScanOrderBounded | kernel/bio.c:116-119 | in a well-formed cache the sweep visits only slots, never a sentinel |
| CacheState.VictimIsLru | kernel/bio.c:113-142 | the sweep chooses nothing iff no slot has refcnt 0 and a stamp below ~0; otherwise it chooses such a slot, whose stamp is no larger than that of any slot with refcnt 0 |
| CacheState.LruChoice | kernel/bio.c:113-142 | any choice that agrees with the sweep is -1 exactly when bget panics, and is otherwise the least recently used free slot |
| CacheState.BucketPrev | kernel/bio.c:119 | the prev link of each member of a bucket is the member before it, or the sentinel for the first, and each member hashes to the bucket |
| CacheState.AllBuckets | kernel/bio.c:116-119 | in a well-formed cache every bucket is a ring of slots that hash to it |
| CacheState.BucketFacts | kernel/bio.c:79 | in a well-formed cache a bucket is a ring of slots that does not pass its sentinel twice, all hashing to the bucket |
| CacheState.LiveLeads | kernel/bio.c:79-88 | a live slot is the first slot of its bucket that caches its block, so a lookup finds it |
| CacheState.UpdateInPlace | kernel/bio.c:214-218 | changing a slot's count, flags, stamp or data but not its block or links keeps the invariant, provided the slot is live only if a lookup finds it |
| CacheState.Acquired | kernel/bio.c:81-84 | a hit's record gains exactly one reference and is held; its block, links, valid flag, stamp and data stay as they were |
| CacheState.Renamed | kernel/bio.c:144-147 | the recycled slot caches (dev, blockno), is invalid, has one reference, is held, and keeps its links, stamp and data |
| CacheState.Recycled | kernel/bio.c:144-165 | bget's recycling changes no record apart from the renamed slot, except in its links |
| CacheState.Relisted | kernel/bio.c:149-165 | the lists after moving slot v from bucket `from` to bucket `to`: unchanged when the buckets are equal; otherwise v heads `to` in front of its old members, `from` loses exactly v, and every other bucket is unchanged |
| CacheState.RelistedShape | kernel/bio.c:149-165 | when the slot is on its old bucket's list once and not on the new one, the recycling removes it from the old list keeping the others' order, puts it at the head of the new list, and leaves every other bucket as it was |
| CacheState.MovedDistinct | kernel/bio.c:149-165 | after moving a slot between buckets no list holds a slot twice |
| CacheState.RecycleKeepsWellformed | kernel/bio.c:144-165 | renaming a slot to a block missing from its bucket, unlinking it and pushing it on the block's bucket keeps the cache well-formed, with the slot moved from its old bucket's list to the head of the new one |
| CacheState.SameBucketUnshadowed | kernel/bio.c:144-147 | renaming a slot in place, with no slot of the bucket caching the new block, hides no live slot behind another |
| CacheState.ContentsOnly | kernel/bio.c:149-165 | relinking records without changing their fields keeps every part of the invariant apart from the rings |
| BucketRing.Unlink | kernel/bio.c:150-151 | the unlink joins x's neighbours: its prev now links forward to its next and its next back to its prev. No other record changes, and each neighbour's other link is kept |
| BucketRing.PushFront | kernel/bio.c:159-162 | the push puts x right after the sentinel h: h links forward to x, the old first member links back to x, and x links to h and to the old first member. No other record changes. binit's pushes at kernel/bio.c:57-62 use the same operation |
| BucketRing.UnlinkOnlyLinks | kernel/bio.c:150-151 | the unlink changes no field of any record other than prev and next |
| BucketRing.PushFrontOnlyLinks | kernel/bio.c:159-162 | the push changes no field of any record other than prev and next |
| BucketRing.RingSameLinks | kernel/bio.c:214-218 | updating a record without touching its links keeps every ring |
| BucketRing.RingUnlink | kernel/bio.c:150-151 | unlinking the j-th member of a simple ring leaves a ring of the other members in the same order |
| BucketRing.RingPushFront | kernel/bio.c:159-162 | pushing a record after the sentinel makes it the first member of the ring, in front of the old members |
| BucketRing.PushFrontElsewhere | kernel/bio.c:159-162 | a push on one list leaves every ring that shares no record with it intact |
| BucketRing.Move | kernel/bio.c:149-165 | the move from one bucket to another changes links only and keeps every link inside the arena |
| BucketRing.MoveSource | kernel/bio.c:150-151 | after the move the source bucket is a ring of its other members in the same order |
| BucketRing.MoveTarget | kernel/bio.c:159-162 | after the move the moved slot heads the target bucket, followed by the target's old members |
| BucketRing.MoveElsewhere | kernel/bio.c:149-165 | a bucket that shares no record with the source or the target is untouched by the move |
| Bio.Descending | kernel/bio.c:54-64 | binit's pushes leave slot NBUF-1 at the head and slot 0 at the tail of bucket 0 |
| Bio.Zeroed | kernel/buf.h:1-14 | a record of the static cache before binit caches (0, 0), is not live and has BSIZE bytes |
| Bio.InitPush | kernel/bio.c:55-62 | stamping slot i and pushing it at the head of bucket 0 keeps every bucket a ring, with i added in front |
| Bio.InitWellformed | kernel/bio.c:54-64 | the state binit leaves is well-formed |
| Bio.NoTruncation | kernel/bio.c:123-129 | a stamp below the running minimum survives the store into the 32-bit minimum unchanged |
| Bio.BCache.Binit | kernel/bio.c:41-65 | every slot caches (0, 0) with no reference, invalid, not held and stamped with the current tick; bucket 0 holds slots NBUF-1 down to 0, the other buckets are empty, and the cache is well-formed |
| Bio.BCache.LinkHeads | kernel/bio.c:46-52 | every sentinel heads an empty ring |
| Bio.BCache.SeedSlot | kernel/bio.c:55-62 | slot i is stamped and pushed at the head of bucket 0, and every ring is kept |
| Bio.BCache.Bget | kernel/bio.c:70-172 | on a hit: the first slot of the bucket caching the block gains a reference and is held. On a miss: panic "bget: no buffers" with nothing changed iff no slot is eligible. Otherwise the least recently used free slot is renamed and moved to the block's bucket; among equally old slots it is the first the sweep visits (SweepChoice). The invariant is kept in every case. |
| Bio.BCache.Miss | kernel/bio.c:96-170 | after the hit scan missed: the rescan misses. Then comes the panic, or the recycling of the least recently used free slot, the first of its age in sweep order, as in Bget |
| Bio.BCache.Hit | kernel/bio.c:79-87 | the hit slot gains a reference and is held; nothing else changes and the invariant is kept |
| Bio.BCache.FindCached | kernel/bio.c:79-88 | the walk from head.next along next returns the slot Lookup specifies, or None exactly when Lookup finds none |
| Bio.BCache.WalkBucket | kernel/bio.c:79-80 | the loop over a bucket's next links returns its first slot that caches (dev, blockno) |
| Bio.BCache.ChooseVictim | kernel/bio.c:113-142 | -1 iff no slot has refcnt 0 and a stamp below ~0. Otherwise it is such a slot with the smallest stamp among unreferenced slots, and the first with that stamp in sweep order (buckets in order, each tail to head); `index` is its bucket |
| Bio.BCache.FindVictim | kernel/bio.c:113-139 | the nested loops of the sweep compute the choice Victim specifies over the buckets in order, each walked tail to head, and `index` is the chosen slot's bucket |
| Bio.BCache.SweepBucket | kernel/bio.c:118-134 | sweeping bucket i extends the visited order by its list from tail to head and keeps the sweep state consistent with Sweep |
| Bio.BCache.SweepSlot | kernel/bio.c:120-133 | visiting a slot extends the visited order by it and keeps the sweep state consistent with Sweep |
| Bio.BCache.Recycle | kernel/bio.c:144-165 | the chosen slot is renamed and moved to the block's bucket as Recycled and Relisted say, and the invariant is kept |
| Bio.BCache.Rewrite | kernel/bio.c:144-165 | the writes of the recycling produce exactly Recycled of the old arena |
| Bio.BCache.Relink | kernel/bio.c:149-162 | the pointer writes produce exactly Move of the old arena |
| Bio.BCache.Put | kernel/bio.c:214-218 | storing a record that keeps the slot's block and links, and is live only if the slot was, keeps the invariant and changes only that slot |
| Bio.ReadOutcome | kernel/bio.c:176-189 | bget's outcome followed by the fill gives the state ReadEffect describes: a panic changes nothing, a hit is acquired and filled only if invalid, and a miss recycles the sweep's choice and fills it from the disk |
| Bio.BCache.Fill | kernel/bio.c:183-186 | the disk is read iff the slot is not valid; the slot becomes valid, takes the block's contents when read and keeps its data otherwise, and no other record changes |
| Bio.BCache.Bread | kernel/bio.c:176-189 | the whole new state (ReadEffect): bget's panic is passed on with nothing changed. On a hit the cached slot gains a reference, is held and valid, and its data changes only if it was invalid, when it becomes the block's contents. On a miss the sweep's choice is renamed, relisted and filled from the disk. The disk is read exactly when the block was not cached valid. |
| Bio.BCache.Bwrite | kernel/bio.c:193-200 | panic "bwrite" iff the caller does not hold the slot; otherwise the slot's BSIZE-byte payload goes to the disk |
| Bio.BCache.Brelse | kernel/bio.c:204-221 | panic "brelse" with nothing changed iff the slot is not held; otherwise the slot is released and loses a reference, and is stamped with the current tick when that was its last reference |
| Bio.BCache.Bpin | kernel/bio.c:223-229 | the slot gains one reference, nothing else changes, and the invariant is kept |
| Bio.BCache.Bunpin | kernel/bio.c:231-237 | the slot loses one reference, nothing else changes, and the invariant is kept |
| Kalloc.PgRoundUp | kernel/kalloc.c:46 | the smallest page-aligned address at or above the argument |
| Kalloc.SeedCount | kernel/kalloc.c:47 | the number of whole pages from p that fit below pa_end: one more would not fit |
| Kalloc.DealtFrames | kernel/kalloc.c:46-52 | every page dealt to list i lies in the range, is aligned, and its page number is congruent to i modulo NCPU |
| Kalloc.DealtDescending | kernel/kalloc.c:48-50 | each list holds its pages in strictly descending address order, because every push goes to the head |
| Kalloc.DealtSize | kernel/kalloc.c:44-51 | list i receives count / NCPU pages, plus one when i < count mod NCPU |
| Kalloc.DealtBalanced | kernel/kalloc.c:44-51 | the round-robin leaves the lists' lengths at most one apart |
| Kalloc.DealtTotal | kernel/kalloc.c:47-52 | the lists freerange deals hold, in all, exactly as many pages as the loop counted in `total` |
| Kalloc.DealtLists | kernel/kalloc.c:44-52 | the NCPU lists freerange builds, list i being the pages dealt to CPU i |
| Kalloc.DealtStep | kernel/kalloc.c:48-51 | dealing one more page adds it at the head of list total mod NCPU only |
| Kalloc.DealOne | kernel/kalloc.c:48-51 | the loop body's push keeps every list equal to the pages dealt so far on top of its old contents |
| Kalloc.NextRoundRobin | kernel/kalloc.c:51-52 | `id=(id+1)%NCPU` keeps id equal to the page count modulo NCPU |
| Kalloc.FreeFramesPush | kernel/kalloc.c:75-76 | a push adds exactly the pushed page to the free pages |
| Kalloc.FreeFramesPop | kernel/kalloc.c:93-95 | a pop removes exactly the head page from the free pages |
| Kalloc.FreeFramesUpdate | kernel/kalloc.c:75-76 | replacing one list changes the free pages by exactly the difference of the old and new list |
| Kalloc.TotalCountsFreeFrames | kernel/kalloc.c:21-24 | the number of free pages is the sum of the list lengths |
| Kalloc.Total | kernel/kalloc.c:21-24 | the number of free pages is zero exactly when every CPU's list is empty |
| Kalloc.TotalUpdate | kernel/kalloc.c:21-24 | replacing one list changes the sum of the lengths by the difference of the two lengths |
| Kalloc.StealFrom | kernel/kalloc.c:101-112 | the first CPU other than the caller, from `from` on, whose list is non-empty; None when every such list is empty |
| Kalloc.AllocSource | kernel/kalloc.c:93-113 | kalloc takes from the caller's list when it is non-empty, otherwise from another non-empty list; None exactly when all lists are empty |
| Kalloc.PushKeepsAcceptable | kernel/kalloc.c:64-76 | pushing an address that passes kfree's check keeps every free page aligned and inside [end, PHYSTOP) |
| Kalloc.PopKeepsAcceptable | kernel/kalloc.c:93-106 | a pop keeps every free page aligned and inside [end, PHYSTOP) |
| Kalloc.Kmem.Kinit | kernel/kalloc.c:27-37 | list i holds exactly the pages of [PGROUNDUP(end), PHYSTOP) dealt to CPU i, and nothing was filled |
| Kalloc.Kmem.FreeRange | kernel/kalloc.c:40-54 | every whole page of the range is pushed round-robin: list i gains exactly the pages dealt to it, in front of its old contents |
| Kalloc.Kmem.Kfree | kernel/kalloc.c:60-80 | panic "kfree" with nothing changed iff the address is unaligned, below end or not below PHYSTOP; otherwise the page is filled with 1s and pushed on the caller's list, adding exactly that page to the free pages |
| Kalloc.Kmem.Kalloc | kernel/kalloc.c:85-120 | 0 iff every list is empty. Otherwise the head of the list AllocSource names is popped, filled with 5s and returned, and it is an acceptable page that leaves the free pages. |
| Kalloc.Kmem.Pop | kernel/kalloc.c:88-113 | the own-list pop and the stealing loop take the head of the list AllocSource names, or nothing exactly when every list is empty |
| Find.Basename | user/find.c:13-16 | the suffix of the path after its last '/': contains no '/', and is preceded by '/' unless it is the whole path |
| Find.BasenameAfterLastSlash | user/find.c:14-16 | when the backward search stops after a '/' or at the start, what follows is the basename |
| Find.TrimRight | user/find.c:24-29 | the longest prefix ending in a non-blank, with only blanks cut off |
| Find.Blanks | user/find.c:22 | DIRSIZ blanks as memset writes them |
| Find.FmtName | user/find.c:7-32 | the result never contains '/'; a basename of DIRSIZ or more characters is returned unchanged, a shorter one in at most DIRSIZ characters |
| Find.ShortName | user/find.c:21-30 | the formatted short name fits the DIRSIZ buffer and holds only blanks and characters of the name |
| Find.ShortNameTrims | user/find.c:21-29 | a short name with a non-blank comes back as its prefix up to its last non-blank, cutting off only blanks |
| Find.ShortNameOfBlanks | user/find.c:22-30 | an empty or all-blank short name comes back as DIRSIZ blanks, since the trimming loop never cuts at position 0 |
| Find.StrLen | user/find.c:19-23 | strlen counts the characters before the first NUL |
| Find.StrLenAt | user/find.c:23-24 | the strlen of the buffer whose first NUL is at index n is n |
| Find.FmtNameInBuffer | user/find.c:7-32 | the C algorithm returns exactly FmtName(path): the backward slash search, the copy, the blank padding and the backward trimming loop on the static DIRSIZ+1 buffer |
| Find.PadAndTrim | user/find.c:21-30 | copying a short name into the buffer, padding it and running the trimming loop yields ShortName of it |
| Find.TrimRightOfPadded | user/find.c:24-28 | when the loop stops at the first non-blank from the right, the cut prefix is TrimRight of the buffer |

## Left out

- Locks and concurrency are not modelled: the bucket spinlocks, `evictlock`, the sleeplocks' blocking, and `push_off`/`pop_off`. Every operation is one atomic step. Holding a buffer's sleeplock is the flag `locked`, and `acquiresleep` sets it without waiting. A hit on a held buffer therefore does not block.
- In a sequential model the rescan at kernel/bio.c:98-110 sees the same lists as the first scan, so its hit branch cannot be taken. `Miss` re-runs the scan and shows that it misses.
- `virtio_disk_rw` is not modelled. In `Bread` the block's contents are a parameter, and in `Bwrite` the bytes sent to the disk are the result.
- The kernel clock `ticks` is a parameter of `Binit` and `Brelse`.
- NBUF, NBUCKET, NCPU, `end` and PHYSTOP are constructor parameters. kernel/param.h and kernel/memlayout.h are not part of this model.
- BSIZE (1024), PGSIZE (4096) and DIRSIZ (14) are xv6's values. kernel/fs.h and kernel/riscv.h are not part of this model.
- The lock names built with `snprintf` in `binit` and `kinit` are not modelled.
- The `disk` field of `struct buf` is not modelled, since no code of the cache reads it.
- Reference counts and stamps are unbounded naturals, so the 32-bit wrap of `refcnt--` on 0 is not modelled. The 32-bit running minimum of the sweep, which starts at ~0, is modelled exactly: a free slot stamped 0xFFFFFFFF is never chosen.
- Bio.BCache.Brelse: requires that a held slot has a reference. The C code would wrap `refcnt` to 0xFFFFFFFF otherwise.
- Bio.BCache.Bpin: requires a slot that is referenced, valid or held, as the log layer's pinned buffers are. Pinning a slot that is not in use would make a second live copy of its block possible.
- Bio.BCache.Bunpin: requires refcnt > 0, since the C decrement would otherwise wrap.
- CacheState.LiveSlotsDistinct: states that no two live slots cache the same block, not that no two slots do. After `binit` every slot caches block 0 of device 0.
- Page contents are reduced to the byte each page was last filled with (the `fill` map). The 1s of `kfree` and the 5s of `kalloc` are recorded, and the `struct run` link stored inside a free page is the list itself.
- Kalloc.Kmem.Kfree and Kalloc.Kmem.Kalloc take the CPU number as a parameter instead of calling `cpuid()`.
- Find.FmtNameInBuffer: the check `strlen(buf) == 0` at user/find.c:23 can never be true, because the buffer then holds DIRSIZ characters that are not NUL. The model asserts this instead of modelling a return.
- Find.FmtName: returns a fresh value. The C function returns a pointer into its static buffer, or into `path` for a long name. That aliasing is not modelled, nor is a later call overwriting an earlier short result.
- The rest of user/find.c (`find`, `main`) does directory I/O and is not modelled.
