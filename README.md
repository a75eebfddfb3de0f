# hgrnic resource bookkeeping, in Dafny

A model of the resource bookkeeping of the hgrnic RDMA NIC driver. It covers the Linux
kernel driver `ib_hgrnic` and its user-space library `libhgrnic_tmp`. Firmware, DMA memory,
MMIO registers and the kernel's allocators are not modelled. Every call into them becomes
an outcome passed in as a parameter: a `bool` or a function from an attempt counter to a
result. The firmware commands a component issues are recorded in a log.

The model covers:

- the resource-number allocator and the two-level lookup array (`Allocator`, `Pd`, `Uar`);
- the MTT buddy allocator, MTT ranges, the WRITE_MTT mailbox and MPT key set-up
  (`BuddySpec`, `Buddy`, `Mr`);
- the ICM manager (`IcmSpec`, `Icm`, `Profile`):
  - the greedy page-block decomposition of an ICM area and its chunk iterator;
  - per-chunk reference counts that issue one MAP_ICM and one UNMAP_ICM per chunk lifetime;
  - range registration with rollback;
  - table creation;
  - the context-memory profile packer;
- the firmware command layer (`CmdSpec`, `Cmd`, `Bytes`):
  - the host command register words and the status-to-errno table;
  - polled-command outcomes and the MAP_ICM mailbox;
  - QUERY_DEV_LIM decoding, the INIT_HCA parameter block and the MODIFY_QP opcode table;
  - the big-endian HGRNIC_GET/HGRNIC_PUT helpers;
- completion queues in the kernel and in user space (`CqSpec`, `CqRing`, `Cq`, `Provider`, `UserCq`):
  - consumption by owner bit and work-queue tail accounting;
  - compaction when a QP goes away;
  - the ALLOC → READY → SWAPPED resize protocol;
- queue pairs in the kernel and in user space (`Wq`, `Wqe`, `QpSpec`, `QueuePair`, `QpLife`, `UserQp`):
  - descriptor sizing and capability checks;
  - the ring-full test, the post loops with their doorbells and `wr_id` tables;
  - state encodings, the QP table, creation with rollback, modify_qp and its reset path, and
    destruction;
- device bring-up arithmetic (`Device`), the user-space context and QP table (`UserContext`),
  the small user-space helpers (`LibHgrnic`, `UserVerbs`) and address vectors (`AddressVector`).

Where the source changes state in place, the model does too. Allocators, lookup arrays,
buddy bitmaps, ICM tables, completion queues, work queues and the user QP table are classes
whose methods modify their fields and arrays. Each such method is proved against a pure
step function, and the invariants and round trips are stated as lemmas about those
functions. Encoders, decoders and tables are functions. Unsigned C integers are written
out as remainders (`% 2^32`, `% 256`). A value stored into a C `int` goes through
`Common.Signed32`, and `1 << n` on an `int` through `Common.IntShl1`; the exceptions are
listed under "Left out". Rollback paths are recorded
as traces of acquire and release steps, and `Trace.Held` checks that they unwind last
first.

The kernel's poll_one reads a receive completion's `wr_id` from the send queue's table, at
the receive slot (hgrnic_cq.c:380-384). The model keeps that behaviour: `Cq.KernelWrId`
states it, `Cq.WrIdSides` compares it with the library's choice of table, and
`Cq.KernelRecvWrIdFromSendQueue` gives an input on which the two differ.

The kernel copies max_send_wr and max_recv_wr into the queue depths without rounding them
(hgrnic_qp.c:786-787), and the post loops start from slot `head & (max - 1)` (hgrnic_qp.c:979,
1125). The model takes the depth as copied. `QpSpec.StartSlot` is that mask for every depth.
`QpSpec.StartSlotIsMod` shows it is `head mod max` exactly when the depth is a power of two.
`QueuePair.UnroundedDepthReusesSlot` shows that a depth of 3 lets a second post overwrite an
outstanding request's `wr_id`. The user-space library rounds its depths up to powers of two
(verbs.c:375-390).

## Model

| member | source | states |
|---|---|---|
| Allocator.FirstZeroFrom | JingZhao2/software/drivers/ib_hgrnic/hgrnic_allocator.c:25 | find_next_zero_bit: the result is a clear bit at or after `from` with every bit in between set, or the bitmap size when no such bit exists |
| Allocator.ChosenBitIsFree | JingZhao2/software/drivers/ib_hgrnic/hgrnic_allocator.c:25-31 | the bit alloc takes is clear; the bitmap counts as full exactly when every bit is set; when a clear bit lies at or after `last`, the one taken is at or after `last` |
| Allocator.NextTopAligned | JingZhao2/software/drivers/ib_hgrnic/hgrnic_allocator.c:27 | advancing the generation prefix by max under a low mask keeps it a multiple of max |
| Allocator.AllocNumber | JingZhao2/software/drivers/ib_hgrnic/hgrnic_allocator.c:37 | bit \| top is bit + top, fits in a u32, and reducing it modulo max gives the bit back (so free's `obj & (max - 1)` names the bit alloc set) |
| Allocator.AllocStepFacts | JingZhao2/software/drivers/ib_hgrnic/hgrnic_allocator.c:25-40 | alloc takes a clear bit k, sets only it and returns k + top, a u32 that is k modulo max; it returns -1 (all ones) with the bitmap and `last` unchanged exactly when every bit is set; `last` moves to k + 1, wrapping to 0; the allocator's conditions still hold |
| Allocator.NumAllocator.Alloc | JingZhao2/software/drivers/ib_hgrnic/hgrnic_allocator.c:18-44 | the bitmap, `last`, `top` and the result after hgrnic_alloc are AllocStep's |
| Allocator.NumAllocator.Free | JingZhao2/software/drivers/ib_hgrnic/hgrnic_allocator.c:46-59 | hgrnic_free clears bit obj mod max and no other; `last` is unchanged; top becomes (top + max) & mask |
| Allocator.AllocFreeRestores | JingZhao2/software/drivers/ib_hgrnic/hgrnic_allocator.c:36-54 | freeing the number an allocation returned restores the bitmap from before that allocation |
| Allocator.InitCheck | JingZhao2/software/drivers/ib_hgrnic/hgrnic_allocator.c:68-70 | the check `num != 1 << (ffs(num) - 1)` passes exactly for powers of two, and gives -EINVAL otherwise |
| Allocator.LowestSetBit | JingZhao2/software/drivers/ib_hgrnic/hgrnic_allocator.c:68 | 1 << (ffs(x) - 1) is a power of two that divides x, and it equals x exactly when x is a power of two |
| Allocator.AllocInit | JingZhao2/software/drivers/ib_hgrnic/hgrnic_allocator.c:64-86 | alloc_init returns -EINVAL exactly for a size that is not a power of two and -ENOMEM exactly when the bitmap cannot be allocated; otherwise it returns an allocator of that size and mask with every bit clear and last = top = 0 |
| Allocator.NumAllocator.constructor | JingZhao2/software/drivers/ib_hgrnic/hgrnic_allocator.c:72-83 | a new allocator has max = num, the given mask, last = top = 0 and an all-clear bitmap |
| Allocator.FirstAllocIsZero | JingZhao2/software/drivers/ib_hgrnic/hgrnic_allocator.c:72-83 | a freshly initialised allocator hands out bit 0 first |
| Allocator.PageOf | JingZhao2/software/drivers/ib_hgrnic/hgrnic_allocator.c:111 | (index * sizeof(void *)) >> PAGE_SHIFT is index / 512 |
| Allocator.SlotOf | JingZhao2/software/drivers/ib_hgrnic/hgrnic_allocator.c:114 | index & HGRNIC_ARRAY_MASK is index mod 512 |
| Allocator.PagesCover | JingZhao2/software/drivers/ib_hgrnic/hgrnic_allocator.c:165 | DIV_ROUND_UP(nent * 8, PAGE_SIZE) pages of 512 slots hold nent indices |
| Allocator.EmptyPages | JingZhao2/software/drivers/ib_hgrnic/hgrnic_allocator.c:163-179 | with every page absent, every index up to the capacity reads NULL |
| Allocator.LookupAfterStore | JingZhao2/software/drivers/ib_hgrnic/hgrnic_allocator.c:125-140 | after array_set the index reads the stored value and every other index reads what it read before |
| Allocator.LookupAfterClear | JingZhao2/software/drivers/ib_hgrnic/hgrnic_allocator.c:142-155 | after array_clear the index reads NULL; indices on other pages are unaffected; on the same page the others keep their values unless the last use went, in which case the whole page reads NULL |
| Allocator.SameIndex | JingZhao2/software/drivers/ib_hgrnic/hgrnic_allocator.c:114 | distinct indices on the same page occupy distinct slots |
| Allocator.LookupArray.constructor | JingZhao2/software/drivers/ib_hgrnic/hgrnic_allocator.c:165-176 | the page list has DIV_ROUND_UP(nent * 8, PAGE_SIZE) entries, all absent with no uses, and every index reads NULL |
| Allocator.LookupArray.Get | JingZhao2/software/drivers/ib_hgrnic/hgrnic_allocator.c:109-117 | array_get returns what is stored at the index, or NULL when its page is absent |
| Allocator.LookupArray.Set | JingZhao2/software/drivers/ib_hgrnic/hgrnic_allocator.c:125-140 | array_set returns -ENOMEM and changes nothing when the page is absent and cannot be created; otherwise the value is stored (creating a zeroed page on first use) and the page's use count goes up by one; page present ⇔ uses > 0 is kept |
| Allocator.LookupArray.Clear | JingZhao2/software/drivers/ib_hgrnic/hgrnic_allocator.c:142-155 | array_clear drops one use; the last use frees the page, otherwise only the slot is cleared; page present ⇔ uses > 0 is kept |
| Allocator.ArrayInit | JingZhao2/software/drivers/ib_hgrnic/hgrnic_allocator.c:163-179 | array_init returns -ENOMEM exactly when the page list cannot be allocated; otherwise every index up to at least nent reads NULL |
| Pd.PdAlloc | JingZhao2/software/drivers/ib_hgrnic/hgrnic_pd.c:12-22 | the privileged flag is recorded; pd_num is the number the PD allocator hands out (AllocStep); -ENOMEM exactly when that number is -1 |
| Pd.PdFree | JingZhao2/software/drivers/ib_hgrnic/hgrnic_pd.c:24-27 | exactly bit pd_num mod max is cleared in the PD allocator, and its prefix advances |
| Pd.InitPdTable | JingZhao2/software/drivers/ib_hgrnic/hgrnic_pd.c:30-34 | the PD allocator has num_pds entries under the mask 2^24 - 1; -EINVAL for a num_pds that is not a power of two, -ENOMEM when the bitmap cannot be allocated |
| Pd.PdAllocFailsOnlyWhenFull | JingZhao2/software/drivers/ib_hgrnic/hgrnic_pd.c:17-19 | with at most 2^24 PDs, pd_alloc fails with -ENOMEM exactly when every PD number is in use; otherwise the number's low bits name the bit it took |
| Uar.UarAlloc | JingZhao2/software/drivers/ib_hgrnic/hgrnic_uar.c:15-24 | the index is the UAR allocator's; -ENOMEM exactly when that is -1; otherwise pfn = (BAR 2 start >> PAGE_SHIFT) + index |
| Uar.UarFree | JingZhao2/software/drivers/ib_hgrnic/hgrnic_uar.c:26-29 | exactly bit index mod max is cleared in the UAR allocator |
| Uar.InitUarTable | JingZhao2/software/drivers/ib_hgrnic/hgrnic_uar.c:31-36 | the UAR allocator has num_uars entries under the mask num_uars - 1, with the same error cases as alloc_init |
| Uar.UarPrefixStaysZero | JingZhao2/software/drivers/ib_hgrnic/hgrnic_uar.c:34-35 | under the mask num_uars - 1 the prefix stays 0 across alloc and free, so the index handed out is the bit itself, below num_uars |
| BuddySpec.FirstSet | JingZhao2/software/drivers/ib_hgrnic/hgrnic_mr.c:60 | find_first_bit: the result is a set bit at or after `from` with none set in between, or the bitmap size when there is none |
| BuddySpec.CountUpdate | JingZhao2/software/drivers/ib_hgrnic/hgrnic_mr.c:69-76 | writing one bit changes the number of set bits by exactly the change of that bit (the ±1 on num_free) |
| BuddySpec.CountZero | JingZhao2/software/drivers/ib_hgrnic/hgrnic_mr.c:58-61 | a bitmap has no set bit exactly when its count is 0 |
| BuddySpec.FindOrder | JingZhao2/software/drivers/ib_hgrnic/hgrnic_mr.c:57-63 | the search stops at the first order from `order` up whose num_free is nonzero and whose bitmap has a set bit; no order before it qualifies |
| BuddySpec.FindOrderNone | JingZhao2/software/drivers/ib_hgrnic/hgrnic_mr.c:57-66 | when the counts match the bitmaps, the search fails exactly when no block of order ≥ `order` is free |
| BuddySpec.BuddyOf | JingZhao2/software/drivers/ib_hgrnic/hgrnic_mr.c:75 | seg ^ 1 is the other half of the same parent |
| BuddySpec.ClearKeeps | JingZhao2/software/drivers/ib_hgrnic/hgrnic_mr.c:69 | taking a free block out keeps free blocks disjoint and keeps buddies from both being free |
| BuddySpec.SetVacantKeepsDisjoint | JingZhao2/software/drivers/ib_hgrnic/hgrnic_mr.c:99 | marking an allocated block free keeps free blocks disjoint |
| BuddySpec.SetKeepsNoFreePair | JingZhao2/software/drivers/ib_hgrnic/hgrnic_mr.c:99 | marking free an allocated block whose buddy is not free keeps buddies from both being free |
| BuddySpec.SplitStep | JingZhao2/software/drivers/ib_hgrnic/hgrnic_mr.c:73-76 | one split step frees the upper child (seg ^ 1 after seg <<= 1), keeps the bitmaps consistent and leaves the lower child allocated |
| BuddySpec.SplitIteration | JingZhao2/software/drivers/ib_hgrnic/hgrnic_mr.c:72-77 | one split iteration on bitmaps and counts together keeps the counts equal to the popcounts and the block held |
| BuddySpec.MergeStep | JingZhao2/software/drivers/ib_hgrnic/hgrnic_mr.c:92-96 | one merge step takes the free buddy out, keeps the bitmaps consistent and leaves the parent allocated |
| BuddySpec.MergeIteration | JingZhao2/software/drivers/ib_hgrnic/hgrnic_mr.c:92-97 | one merge iteration on bitmaps and counts together keeps the counts equal to the popcounts |
| BuddySpec.MarkFree | JingZhao2/software/drivers/ib_hgrnic/hgrnic_mr.c:99-100 | the final set_bit and ++num_free keep the counts equal to the popcounts and give MergeUp's bitmaps |
| BuddySpec.TakeStep | JingZhao2/software/drivers/ib_hgrnic/hgrnic_mr.c:69-70 | clear_bit and --num_free on the found block keep the counts right and leave that block allocated |
| BuddySpec.CountedUpdate | JingZhao2/software/drivers/ib_hgrnic/hgrnic_mr.c:69-76 | writing one bit and adjusting that order's num_free by the change keeps num_free[o] equal to the popcount of bits[o] |
| BuddySpec.BuddyNotFree | JingZhao2/software/drivers/ib_hgrnic/hgrnic_mr.c:92 | the buddy of a free block is never free |
| BuddySpec.SplitThenMerge | JingZhao2/software/drivers/ib_hgrnic/hgrnic_mr.c:72-97 | merging from the bottom of a split gives what merging from the top gives |
| BuddySpec.MergeSplitChild | JingZhao2/software/drivers/ib_hgrnic/hgrnic_mr.c:92-97 | merging from the lower child of a split block, with its buddy free, undoes that split |
| BuddySpec.AllocThenFreeRestores | JingZhao2/software/drivers/ib_hgrnic/hgrnic_mr.c:49-103 | buddy_free of the block buddy_alloc returned, at the same order, restores the bitmaps exactly |
| BuddySpec.BlockInRange | JingZhao2/software/drivers/ib_hgrnic/hgrnic_mr.c:81 | the allocated segment satisfies seg + 2^order ≤ 2^max_order |
| BuddySpec.InitialBits | JingZhao2/software/drivers/ib_hgrnic/hgrnic_mr.c:122-132 | buddy_init leaves every level below the top all clear with 2^(max_order - o) bits, and block 0 of the top level set |
| BuddySpec.InitialCounts | JingZhao2/software/drivers/ib_hgrnic/hgrnic_mr.c:117-133 | buddy_init leaves num_free 1 at max_order and 0 below |
| BuddySpec.InitialSearch | JingZhao2/software/drivers/ib_hgrnic/hgrnic_mr.c:57-63 | from the initial state every search finds the top order, block 0 |
| BuddySpec.LevelWidth | JingZhao2/software/drivers/ib_hgrnic/hgrnic_mr.c:59 | level o of a consistent allocator has 2^(max_order - o) bits |
| BuddySpec.DocumentedExample | JingZhao2/software/drivers/ib_hgrnic/hgrnic_dev.h:193-203 | with max_order 2, one order-0 allocation from the initial state returns segment 0 and leaves bits[0] = 0 1 0 0, bits[1] = 0 1, bits[2] = 0 |
| BuddySpec.SegmentFacts | JingZhao2/software/drivers/ib_hgrnic/hgrnic_mr.c:81-83 | the segment seg << order is a multiple of 2^order, lies inside the managed range, shifts back to the block, and is never -1 |
| BuddySpec.BlockSegment | JingZhao2/software/drivers/ib_hgrnic/hgrnic_mr.c:81-83 | the same facts for a block of a consistent allocator |
| Buddy.BuddyAllocator.constructor | JingZhao2/software/drivers/ib_hgrnic/hgrnic_mr.c:122-133 | the bitmaps and counts are InitialBits and InitialCounts |
| Buddy.BuddyAllocator.Search | JingZhao2/software/drivers/ib_hgrnic/hgrnic_mr.c:57-63 | the search loop returns FindOrder's order and the first set bit of that level |
| Buddy.BuddyAllocator.SplitFrom | JingZhao2/software/drivers/ib_hgrnic/hgrnic_mr.c:72-77 | the split loop updates the bitmaps and block index as SplitDown does, keeps num_free equal to the popcounts, and leaves the block reached allocated |
| Buddy.BuddyAllocator.TakeAndSplit | JingZhao2/software/drivers/ib_hgrnic/hgrnic_mr.c:68-83 | the found block is cleared and split down; the returned segment is seg << order of the block reached, aligned, in range and not -1 |
| Buddy.BuddyAllocator.Alloc | JingZhao2/software/drivers/ib_hgrnic/hgrnic_mr.c:49-84 | returns -1 with bitmaps and counts unchanged exactly when no order from `order` up has a free block; otherwise the first free block of the lowest such order is split down; the segment is a multiple of 2^order inside the range, and its block is allocated; num_free stays the popcount |
| Buddy.BuddyAllocator.Free | JingZhao2/software/drivers/ib_hgrnic/hgrnic_mr.c:86-103 | the bitmaps become MergeUp's: merge with seg ^ 1 while it is free, then mark the block reached free; num_free stays the popcount |
| Buddy.BuddyInit | JingZhao2/software/drivers/ib_hgrnic/hgrnic_mr.c:108-146 | buddy_init returns -ENOMEM and no allocator exactly when one of its allocations fails; otherwise it returns the initial bitmaps and counts of max_order |
| Mr.MttOrder | JingZhao2/software/drivers/ib_hgrnic/hgrnic_mr.c:210-212 | the order loop computes the smallest order with 2^order ≥ size |
| Mr.AllocMttRange | JingZhao2/software/drivers/ib_hgrnic/hgrnic_mr.c:170-184 | a buddy block of `order`; -1 when the buddy has none, or when ICM registration fails, in which case the buddy bitmaps are exactly as before |
| Mr.CountsDetermined | JingZhao2/software/drivers/ib_hgrnic/hgrnic_mr.c:69-100 | num_free is determined by the bitmaps, so restoring the bitmaps restores the counts |
| Mr.AllocMtt | JingZhao2/software/drivers/ib_hgrnic/hgrnic_mr.c:194-221 | -EINVAL for size ≤ 0; -ENOMEM when the descriptor cannot be allocated or no range is obtained; otherwise a range of the smallest order covering size |
| Mr.FreeMtt | JingZhao2/software/drivers/ib_hgrnic/hgrnic_mr.c:234-246 | NULL changes nothing; otherwise the range goes back to the buddy allocator (MergeUp) |
| Mr.MttAllocFreeRestores | JingZhao2/software/drivers/ib_hgrnic/hgrnic_mr.c:170-243 | allocating an MTT range and freeing it restores the buddy bitmaps exactly |
| Mr.SlotEntry | JingZhao2/software/drivers/ib_hgrnic/hgrnic_mr.c:275-282 | mailbox word 4 + j holds entry 4(j / 4) + 3 - j mod 4: each group of four is reversed |
| Mr.SlotEntryInvolution | JingZhao2/software/drivers/ib_hgrnic/hgrnic_mr.c:275-282 | reversing a group of four twice is the identity, so slot and entry determine each other |
| Mr.Stride | JingZhao2/software/drivers/ib_hgrnic/hgrnic_mr.c:275 | the inner loop fills whole groups of four: the first multiple of 4 at or past the remaining length, capped at 508 |
| Mr.FilledStep | JingZhao2/software/drivers/ib_hgrnic/hgrnic_mr.c:276-282 | one inner-loop pass writes the next group of four slots |
| Mr.FillMailbox | JingZhao2/software/drivers/ib_hgrnic/hgrnic_mr.c:268-289 | one outer-loop pass writes words 0-2 as 0, word 3 as start_index and the entries in reversed groups of four; it returns the final i |
| Mr.WriteMtt | JingZhao2/software/drivers/ib_hgrnic/hgrnic_mr.c:254-305 | no mailbox gives -ENOMEM with nothing sent; otherwise the error, the WRITE_MTT commands sent and the final mailbox are WriteMttSpec's: the first failing command stops the loop; each command counts the entries its mailbox holds (the corrected count, see Findings) |
| Mr.MailboxLayout | JingZhao2/software/drivers/ib_hgrnic/hgrnic_mr.c:269-282 | header words 0, 0, 0, start_index; reading the entries back gives the first min(len, 508) entries of the list; the slots of a last partial group are zero; later words are untouched |
| Mr.CountsAsWritten | JingZhao2/software/drivers/ib_hgrnic/hgrnic_mr.c:291-297 | the counts as written: list_len before each command, one count per command |
| Mr.WriteMttOvercounts | JingZhao2/software/drivers/ib_hgrnic/hgrnic_mr.c:291 | as written, the count sent with each WRITE_MTT is the number of entries still to write: for more than 508 entries the first command announces more than its mailbox holds, and the counts add up to more than the list (512 entries give commands of 512 and 4 where the mailboxes hold 508 and 4) |
| Mr.WriteMttDelivers | JingZhao2/software/drivers/ib_hgrnic/hgrnic_mr.c:268-300 | when every command succeeds, the mailboxes read back in command order hold exactly the list, and the counts, each the entries its mailbox holds, add up to its length |
| Mr.MptFlagsTest | JingZhao2/software/drivers/ib_hgrnic/hgrnic_mr.c:364-367 | the MPT flags word has bits 28-31, 17 and 8 set, plus exactly the access bits |
| Mr.MptForFacts | JingZhao2/software/drivers/ib_hgrnic/hgrnic_mr.c:364-379 | the MPT entry carries the key, pd, start and length given; lkey and the fields after it are zero; mtt_seg is the MTT's first index or 0; the flags are the fixed ones plus the access bits; page_size is 2^shift for shift < 32 |
| Mr.MrAlloc | JingZhao2/software/drivers/ib_hgrnic/hgrnic_mr.c:334-407 | -ENOMEM when the key allocator is full, or when the key handed out is 0xffffffff (its bit then stays set); a failed reg_icm or mailbox allocation gives -ENOMEM and a failed SW2HW_MPT its error, and on each failure the key bit is freed again; on success the key's bit is set, its ICM entry registered and the entry is MptFor's |
| Mr.FreeMr | JingZhao2/software/drivers/ib_hgrnic/hgrnic_mr.c:458-483 | the key's bit is cleared with the allocator's prefix advanced, and the MTT range goes back to the buddy allocator |
| Mr.FlsIsCeilLog2 | JingZhao2/software/drivers/ib_hgrnic/hgrnic_mr.c:500 | fls(n - 1) is the order of the smallest power of two ≥ n |
| Mr.InitMrTable | JingZhao2/software/drivers/ib_hgrnic/hgrnic_mr.c:489-510 | the MPT key allocator over num_mpts keys with mask ~0, then the buddy of order fls(num_mtt_segs - 1); when the buddy fails the key allocator is dropped and the buddy's error returned; alloc_init's errors come first |
| IcmSpec.IcmConstants | JingZhao2/software/drivers/ib_hgrnic/hgrnic_icm.h:22-25 | ICM pages are 2^12 = 4096 bytes (PAGE_SIZE); a 256 KiB table chunk is 64 pages, one block of order 6 |
| IcmSpec.PageSumAppend | JingZhao2/software/drivers/ib_hgrnic/hgrnic_icm.c:198 | each block obtained adds 2^order pages |
| IcmSpec.AddBlockFacts | JingZhao2/software/drivers/ib_hgrnic/hgrnic_icm.c:181-196 | a block joins the open chunk and its order is appended to the area's blocks; the chunk stays open while it has room (a coherent chunk closes as soon as it is full), and earlier chunks stay closed |
| IcmSpec.MapLast | JingZhao2/software/drivers/ib_hgrnic/hgrnic_icm.c:206-213 | pci_map_sg of the last chunk replaces its DMA entries; with at least one entry every chunk is closed |
| IcmSpec.FitOrder | JingZhao2/software/drivers/ib_hgrnic/hgrnic_icm.c:169-170 | the inner loop lowers cur_order until 2^cur_order ≤ npages |
| IcmSpec.FitOrderLargest | JingZhao2/software/drivers/ib_hgrnic/hgrnic_icm.c:169-170 | FitOrder is the largest order up to the current one whose block fits |
| IcmSpec.GreedyCovers | JingZhao2/software/drivers/ib_hgrnic/hgrnic_icm.c:156-204 | when no block allocation fails, the blocks cover exactly npages pages, in non-increasing orders not above the starting order |
| IcmSpec.GreedyTableChunk | JingZhao2/software/drivers/ib_hgrnic/hgrnic_icm.c:249 | a 64-page table chunk is one order-6 block when nothing fails |
| IcmSpec.GreedyLower | JingZhao2/software/drivers/ib_hgrnic/hgrnic_icm.c:169-170 | lowering the order while its block does not fit does not change the greedy outcome |
| IcmSpec.GreedyStep | JingZhao2/software/drivers/ib_hgrnic/hgrnic_icm.c:181-198 | when the block of the current order fits, it is the next greedy block |
| IcmSpec.FillingStart | JingZhao2/software/drivers/ib_hgrnic/hgrnic_icm.c:151-154 | the loop starts with no chunk, no block, npages missing and order 6 |
| IcmSpec.OpenStep | JingZhao2/software/drivers/ib_hgrnic/hgrnic_icm.c:157-167 | a new empty chunk is appended when none is open |
| IcmSpec.LowerStep | JingZhao2/software/drivers/ib_hgrnic/hgrnic_icm.c:169-170 | lowering the order keeps the block and page counts |
| IcmSpec.FailStep | JingZhao2/software/drivers/ib_hgrnic/hgrnic_icm.c:199-203 | a failed block allocation lowers the order; from then on the blocks need not be the greedy ones |
| IcmSpec.BlockStep | JingZhao2/software/drivers/ib_hgrnic/hgrnic_icm.c:181-198 | a successful block at the fitting order keeps the loop state, with one block more and 2^cur fewer pages missing |
| IcmSpec.LuckyBlock | JingZhao2/software/drivers/ib_hgrnic/hgrnic_icm.c:181-198 | while nothing has failed the blocks obtained stay a prefix of the greedy decomposition |
| IcmSpec.FillingDone | JingZhao2/software/drivers/ib_hgrnic/hgrnic_icm.c:204-215 | when nothing is missing, the blocks cover exactly the pages asked for (the greedy ones if nothing failed), and after the final pci_map_sg every chunk is closed |
| IcmSpec.FillingReturnable | JingZhao2/software/drivers/ib_hgrnic/hgrnic_icm.c:217-219 | whatever the loop holds can be given back by hgrnic_free_icm |
| IcmSpec.ChunkIndexInRange | JingZhao2/software/drivers/ib_hgrnic/hgrnic_icm.c:234 | (obj & (num_obj - 1)) * obj_size / CHUNK is below num_icm: every object's chunk has a slot |
| IcmSpec.ChunkVirtInjective | JingZhao2/software/drivers/ib_hgrnic/hgrnic_icm.c:259 | distinct chunks of one table are mapped at distinct ICM addresses (virt + i * CHUNK) |
| IcmSpec.RegStepFacts | JingZhao2/software/drivers/ib_hgrnic/hgrnic_icm.c:230-271 | reg_icm: a present chunk only gains a reference, with no allocation and no command; an absent one is allocated and MAP_ICM-ed at its address with refcount 1; when allocation or MAP_ICM fails the result is -ENOMEM with every slot unchanged; other slots are untouched; the table invariants (one successful MAP_ICM more than UNMAP_ICM at an address exactly while its chunk is present) are kept |
| IcmSpec.UnregFacts | JingZhao2/software/drivers/ib_hgrnic/hgrnic_icm.c:277-294 | unreg_icm: the refcount drops by one; at zero, one UNMAP_ICM of the chunk's 64 pages at its address, and the slot is emptied; other slots are untouched; the table invariants are kept |
| IcmSpec.RegThenUnreg | JingZhao2/software/drivers/ib_hgrnic/hgrnic_icm.c:230-291 | a successful registration followed by the matching unregistration restores the slots |
| IcmSpec.TwoRegsTwoUnregs | JingZhao2/software/drivers/ib_hgrnic/hgrnic_icm.c:243-291 | two registrations and two unregistrations of an absent chunk send exactly one MAP_ICM and one UNMAP_ICM, and the slot is empty again |
| IcmSpec.UndoExtend | JingZhao2/software/drivers/ib_hgrnic/hgrnic_icm.c:310-322 | one more successful registration extends a rollback that restores the same slots |
| IcmSpec.ReleaseKeepsOk | JingZhao2/software/drivers/ib_hgrnic/hgrnic_icm.c:327-336 | unregistering a range whose chunks are present keeps the table invariants |
| IcmSpec.Inc | JingZhao2/software/drivers/ib_hgrnic/hgrnic_icm.c:307 | the step CHUNK / obj_size is at least one object and its objects fit in a chunk |
| IcmSpec.NoSlots | JingZhao2/software/drivers/ib_hgrnic/hgrnic_icm.c:371-373 | a new table has num_icm slots, all empty |
| IcmSpec.ReservedBound | JingZhao2/software/drivers/ib_hgrnic/hgrnic_icm.c:380 | a reserved chunk lies inside the table when at most nobj objects are reserved |
| IcmSpec.PinnedDone | JingZhao2/software/drivers/ib_hgrnic/hgrnic_icm.c:380-406 | after the reserved loop exactly the chunks of the reserved objects are present, each pinned with one reference |
| IcmSpec.TrailPop | JingZhao2/software/drivers/ib_hgrnic/hgrnic_icm.c:319-321 | above start the rollback always has a registration to undo, the last one registered |
| IcmSpec.RangeStep | JingZhao2/software/drivers/ib_hgrnic/hgrnic_icm.c:310-314 | the chunks visited are those of start, start + inc, ... up to end, in order |
| IcmSpec.ReleaseStep | JingZhao2/software/drivers/ib_hgrnic/hgrnic_icm.c:332-335 | each unregistration of unreg_icm_range finds its chunk present and moves on by inc |
| IcmSpec.ReleaseDone | JingZhao2/software/drivers/ib_hgrnic/hgrnic_icm.c:327-336 | at the end of unreg_icm_range the whole range has been unregistered in order |
| IcmSpec.RollbackStep | JingZhao2/software/drivers/ib_hgrnic/hgrnic_icm.c:319-322 | each rollback step finds its chunk present and moves back by inc |
| IcmSpec.RollbackDone | JingZhao2/software/drivers/ib_hgrnic/hgrnic_icm.c:318-324 | back at start, the rollback has undone every registration |
| Icm.FillStep | JingZhao2/software/drivers/ib_hgrnic/hgrnic_icm.c:156-204 | one loop round keeps the loop state and makes progress (fewer pages missing, or a lower order); a failure leaves chunks that hold exactly the blocks obtained |
| Icm.TakeBlock | JingZhao2/software/drivers/ib_hgrnic/hgrnic_icm.c:181-198 | a successful block joins the open chunk; a full non-coherent chunk is mapped, and a mapping of no entries ends the allocation |
| Icm.Lower | JingZhao2/software/drivers/ib_hgrnic/hgrnic_icm.c:169-170 | the inner loop ends at an order whose block fits |
| Icm.AllocIcm | JingZhao2/software/drivers/ib_hgrnic/hgrnic_icm.c:137-220 | on failure every block obtained is given back and NULL returned; on success the chunks hold the blocks obtained, all chunks are closed (at most HGRNIC_ICM_CHUNK_LEN blocks, mapped), the blocks cover exactly npages pages in non-increasing orders ≤ 6, and they are the greedy ones when no page allocation failed |
| Icm.IcmIter.First | JingZhao2/software/drivers/ib_hgrnic/hgrnic_icm.h:91-98 | icm_first: the entries still to visit are all entries of all chunks, none for an empty list |
| Icm.IcmIter.Last | JingZhao2/software/drivers/ib_hgrnic/hgrnic_icm.h:100-102 | icm_last holds exactly when no entry remains |
| Icm.IcmIter.Addr | JingZhao2/software/drivers/ib_hgrnic/hgrnic_icm.h:117-119 | icm_addr is the DMA address of the current entry |
| Icm.IcmIter.Size | JingZhao2/software/drivers/ib_hgrnic/hgrnic_icm.h:121-124 | icm_size is the DMA length of the current entry |
| Icm.IcmIter.Next | JingZhao2/software/drivers/ib_hgrnic/hgrnic_icm.h:104-115 | icm_next drops exactly the current entry: the next one in the chunk, else the first of the next chunk, else the end |
| Icm.Walk | JingZhao2/software/drivers/ib_hgrnic/hgrnic_icm.h:91-124 | a full iteration visits every entry of every chunk exactly once, in list order |
| Icm.UnmapAll | JingZhao2/software/drivers/ib_hgrnic/hgrnic_icm.c:411-417 | every present chunk is unmapped (one UNMAP_ICM of 64 pages at its address) and freed, in slot order; afterwards the log is balanced with every slot empty |
| Icm.IcmTable.Init | JingZhao2/software/drivers/ib_hgrnic/hgrnic_icm.c:363-373 | the table records virt, num_obj, obj_size, lowmem and coherent, with num_icm empty slots and nothing mapped |
| Icm.IcmTable.Reg | JingZhao2/software/drivers/ib_hgrnic/hgrnic_icm.c:230-271 | the slots and command log after reg_icm are RegStep's; a present chunk takes no pages; a new chunk is 64 pages closed; on failure every page obtained is given back and the slots are unchanged |
| Icm.IcmTable.Unreg | JingZhao2/software/drivers/ib_hgrnic/hgrnic_icm.c:277-294 | the slots and log after unreg_icm are UnregSlots/UnregLog's, and the chunk's pages are given back exactly when its last reference goes |
| Icm.IcmTable.RegRange | JingZhao2/software/drivers/ib_hgrnic/hgrnic_icm.c:304-325 | returns 0 or -ENOMEM; on success, undoing the chunks visited (last first) gives back the slots as they were; on failure the earlier registrations are undone, so the slots are exactly as before |
| Icm.IcmTable.RegForward | JingZhao2/software/drivers/ib_hgrnic/hgrnic_icm.c:310-314 | the forward loop stops at the end or at its first failure, and what it did can be undone to the slots it started from |
| Icm.IcmTable.Rollback | JingZhao2/software/drivers/ib_hgrnic/hgrnic_icm.c:318-322 | the rollback loop undoes the registrations made, the last first |
| Icm.IcmTable.UnregRange | JingZhao2/software/drivers/ib_hgrnic/hgrnic_icm.c:327-336 | the slots and log after unreg_icm_range are those of unregistering the chunks of start, start + inc, ... up to end, in order |
| Icm.IcmTable.FreeTable | JingZhao2/software/drivers/ib_hgrnic/hgrnic_icm.c:424-438 | free_icm_table unmaps and frees every present chunk whatever its refcount, in slot order, and gives their pages back |
| Icm.AllocIcmTable | JingZhao2/software/drivers/ib_hgrnic/hgrnic_icm.c:343-422 | NULL with no command when obj_size or nobj is 0 or the table cannot be allocated; otherwise num_icm = ceil(nobj / (CHUNK / obj_size)) slots, with exactly the reserved objects' chunks present and pinned; on a failure every chunk mapped is unmapped again (balanced log), every page obtained is given back, and NULL is returned |
| Icm.PinReserved | JingZhao2/software/drivers/ib_hgrnic/hgrnic_icm.c:380-406 | the reserved loop pins each reserved chunk (the last one clipped to the table's end); it stops at the first failure with that chunk's pages given back and the earlier chunks still present |
| Profile.LogNumOfPow2 | JingZhao2/software/drivers/ib_hgrnic/hgrnic_icm.c:477 | for a power-of-two count, the log field max(ffs(num) - 1, 0) is its exponent: 2^log == num |
| Profile.RegionSize | JingZhao2/software/drivers/ib_hgrnic/hgrnic_icm.c:478-479 | a region is its entry size times its count, and never less than a page |
| Profile.Initial | JingZhao2/software/drivers/ib_hgrnic/hgrnic_icm.c:463-480 | the first loop leaves five regions, one per type in enumeration order, sized and counted, with the EQ region holding HGRNIC_NUM_EQS entries |
| Profile.NewProfile | JingZhao2/software/drivers/ib_hgrnic/hgrnic_icm.c:463-480 | the first loop fills a fresh array with exactly the initial regions |
| Profile.CompareSwap | JingZhao2/software/drivers/ib_hgrnic/hgrnic_icm.c:493-494 | one comparison leaves the array as Compared: the larger of a[j - 1] and a[j] first |
| Profile.Compare | JingZhao2/software/drivers/ib_hgrnic/hgrnic_icm.c:492-495 | one comparison keeps the smallest of the prefix moving down, the settled tail untouched, and the same regions |
| Profile.CompareSinks | JingZhao2/software/drivers/ib_hgrnic/hgrnic_icm.c:492-495 | after the comparison at j the smallest of s[..j + 1] sits at j and the settled tail is unchanged |
| Profile.ComparePermutes | JingZhao2/software/drivers/ib_hgrnic/hgrnic_icm.c:493-494 | a comparison swaps two regions or none: the multiset of regions is unchanged |
| Profile.SinkDone | JingZhao2/software/drivers/ib_hgrnic/hgrnic_icm.c:492-495 | when the inner loop ends, one more element is settled at the tail |
| Profile.SinkSmallest | JingZhao2/software/drivers/ib_hgrnic/hgrnic_icm.c:492-495 | one pass of the inner loop extends the settled tail by one, permuting the regions |
| Profile.SortBySize | JingZhao2/software/drivers/ib_hgrnic/hgrnic_icm.c:491-495 | the bubble sort leaves the regions in non-increasing size and a permutation of what it was given |
| Profile.PlaceRegions | JingZhao2/software/drivers/ib_hgrnic/hgrnic_icm.c:497-517 | -ENOMEM exactly when the regions together need more than the context memory; otherwise the total is their sum and each region starts where the ones before it end, nothing else changed |
| Profile.SizeSumMonotone | JingZhao2/software/drivers/ib_hgrnic/hgrnic_icm.c:497-517 | a prefix's total is no more than the whole, so the loop's early -ENOMEM agrees with the final total |
| Profile.PlacedBefore | JingZhao2/software/drivers/ib_hgrnic/hgrnic_icm.c:497-517 | a region placed earlier ends no later than a region placed later starts |
| Profile.PlacedAligned | JingZhao2/software/drivers/ib_hgrnic/hgrnic_icm.c:485-490 | with non-increasing power-of-two sizes every region starts at a multiple of its own size, the property the sort is there for |
| Profile.LastOfType | JingZhao2/software/drivers/ib_hgrnic/hgrnic_icm.c:522-553 | the index of the last region of a type, or -1 when there is none |
| Profile.Assign | JingZhao2/software/drivers/ib_hgrnic/hgrnic_icm.c:523-552 | one case of the switch gives region r's type r's base, count and log and leaves every other type and num_pds alone |
| Profile.Distribute | JingZhao2/software/drivers/ib_hgrnic/hgrnic_icm.c:522-553 | after the switch loop every type holds the fields of the last region of that type, and the others keep their values |
| Profile.MakeProfile | JingZhao2/software/drivers/ib_hgrnic/hgrnic_icm.c:442-563 | -ENOMEM, with nothing written, exactly when the profile array cannot be allocated or the regions need more than the context memory; otherwise the total size, with every region inside it, no two overlapping, each aligned to its size when all sizes are powers of two, the requested counts and logs handed out and num_pds = HGRNIC_NUM_PDS |
| Profile.Packed | JingZhao2/software/drivers/ib_hgrnic/hgrnic_icm.c:491-559 | sorted, placed and distributed regions satisfy that layout guarantee |
| Profile.SizeSumPermutation | JingZhao2/software/drivers/ib_hgrnic/hgrnic_icm.c:491-517 | sorting does not change how much memory the regions need |
| Profile.OneOfEach | JingZhao2/software/drivers/ib_hgrnic/hgrnic_icm.c:463-495 | after sorting every type appears exactly once, as its initial region |
| Profile.Locate | JingZhao2/software/drivers/ib_hgrnic/hgrnic_icm.c:497-553 | after the three loops each type's base is the start of its own region |
| Profile.Within | JingZhao2/software/drivers/ib_hgrnic/hgrnic_icm.c:497-517 | every region ends within the total |
| Profile.Disjoint | JingZhao2/software/drivers/ib_hgrnic/hgrnic_icm.c:497-517 | no two regions overlap |
| Profile.Aligned | JingZhao2/software/drivers/ib_hgrnic/hgrnic_icm.c:485-517 | with power-of-two sizes every base is a multiple of its region's size |
| Profile.SortedSizes | JingZhao2/software/drivers/ib_hgrnic/hgrnic_icm.c:491-495 | the sorted regions' sizes are those of the types, so power-of-two sizes stay powers of two |
| Profile.Counts | JingZhao2/software/drivers/ib_hgrnic/hgrnic_icm.c:522-559 | the limits and INIT_HCA fields receive the requested counts, HGRNIC_NUM_EQS, and their logs, and the MPT and MTT bases agree between the two |
| CmdSpec.HcrWords | JingZhao2/software/drivers/ib_hgrnic/hgrnic_cmd.c:137-149 | post_hcr writes seven words, in_param and out_param split in halves, the token in the upper half of word 5 and the control word last |
| CmdSpec.ControlWord | JingZhao2/software/drivers/ib_hgrnic/hgrnic_cmd.c:146-149 | the go bit, the op modifier and the opcode occupy disjoint fields of the control word |
| CmdSpec.HcrDecodes | JingZhao2/software/drivers/ib_hgrnic/hgrnic_cmd.c:137-149 | the firmware recovers in_param, out_param, in_modifier, the token, the op modifier, the opcode and the go bit from the seven words |
| CmdSpec.StatusToErrno | JingZhao2/software/drivers/ib_hgrnic/hgrnic_cmd.c:170-198 | 0 exactly for status 0, a negative errno for every other status, -EINVAL past the table |
| CmdSpec.StatusClasses | JingZhao2/software/drivers/ib_hgrnic/hgrnic_cmd.c:172-197 | which firmware statuses become -ENOMEM, -EBUSY, -EAGAIN, -EBADF and the other errnos of trans_table, both directions |
| CmdSpec.CmdPollOutcomes | JingZhao2/software/drivers/ib_hgrnic/hgrnic_cmd.c:201-249 | a polled command succeeds exactly when the HCR was free, the go bit cleared in time, an immediate output had a destination and the status byte is 0; -EAGAIN, -EBUSY, -EINVAL and the status's errno otherwise; the output word is delivered only on success |
| Cmd.Hcr.Post | JingZhao2/software/drivers/ib_hgrnic/hgrnic_cmd.c:122-153 | -EAGAIN with the register untouched while the go bit is set; otherwise the register holds HcrWords, go bit last |
| CmdSpec.PageLog | JingZhao2/software/drivers/ib_hgrnic/hgrnic_cmd.c:800-812 | the page log of an entry aligned to at least 4 KiB lies between 12 and 20 |
| CmdSpec.Pages | JingZhao2/software/drivers/ib_hgrnic/hgrnic_cmd.c:814-821 | an entry of length len yields len >> lg page entries |
| CmdSpec.FirstFailure | JingZhao2/software/drivers/ib_hgrnic/hgrnic_cmd.c:830-837 | the index of the first command that fails, every earlier one having succeeded |
| CmdSpec.SlotNext | JingZhao2/software/drivers/ib_hgrnic/hgrnic_cmd.c:825-830 | the slot order 1, 0, 3, 2, ... is what nent += 3 / --nent produces, and the mailbox is full exactly after 256 entries |
| CmdSpec.SlotBack | JingZhao2/software/drivers/ib_hgrnic/hgrnic_cmd.c:841 | the final nent adjustment turns the next slot back into the entry count |
| CmdSpec.FillStep | JingZhao2/software/drivers/ib_hgrnic/hgrnic_cmd.c:816-830 | writing one entry into its slot keeps the entries written so far and either leaves room or completes a batch of 256 |
| CmdSpec.MapIcmFinish | JingZhao2/software/drivers/ib_hgrnic/hgrnic_cmd.c:841-849 | the closing command sends the rest of the mailbox with its count |
| CmdSpec.MapIcmFinishEmpty | JingZhao2/software/drivers/ib_hgrnic/hgrnic_cmd.c:841-842 | no closing command when the entries filled whole mailboxes |
| CmdSpec.MapIcmRejects | JingZhao2/software/drivers/ib_hgrnic/hgrnic_cmd.c:800-808 | an entry aligned below 4 KiB ends MAP_ICM with -EINVAL after the batches already sent |
| CmdSpec.MapIcmFails | JingZhao2/software/drivers/ib_hgrnic/hgrnic_cmd.c:832-835 | a failing full-mailbox command ends MAP_ICM with its error and nothing more is sent |
| Cmd.MapIcm | JingZhao2/software/drivers/ib_hgrnic/hgrnic_cmd.c:770-857 | MAP_ICM sends the scatter list's page entries in batches of 256 in the mailbox's slot order, up to and including the first failing command, and returns -ENOMEM without a mailbox, -EINVAL at a misaligned entry, the first command error, or 0 |
| Cmd.MapPages | JingZhao2/software/drivers/ib_hgrnic/hgrnic_cmd.c:814-838 | the inner loop turns one scatter entry into its pages in order, sending each full mailbox |
| Cmd.PagePhys | JingZhao2/software/drivers/ib_hgrnic/hgrnic_cmd.c:819-821 | the physical word of page i is the entry's address plus i pages OR-ed with the page count flag |
| CmdSpec.MapIcmPage | JingZhao2/software/drivers/ib_hgrnic/hgrnic_cmd.c:864-896 | -ENOMEM and nothing sent without a mailbox; otherwise one command of count 1 with slot 0 zeroed and slot 1 holding virt and the address flagged as one page |
| CmdSpec.MapIcmPageIsMapIcm | JingZhao2/software/drivers/ib_hgrnic/hgrnic_cmd.c:864-896 | for a 4 KiB-aligned page MAP_ICM_page sends what MAP_ICM sends for that one page |
| CmdSpec.UnmapIcmDecodes | JingZhao2/software/drivers/ib_hgrnic/hgrnic_cmd.c:903-908 | the firmware reads back the area, the page count and the region selector of UNMAP_ICM |
| CmdSpec.QueryDevLim | JingZhao2/software/drivers/ib_hgrnic/hgrnic_cmd.c:331-534 | -ENOMEM without a mailbox, the command's error with the limits untouched when it fails, and the decoded reply otherwise |
| CmdSpec.DevLimReserved | JingZhao2/software/drivers/ib_hgrnic/hgrnic_cmd.c:411-433 | each reserved count is 1 << (byte & 0xf): a power of two of at most 2^15 |
| CmdSpec.DevLimMaxima | JingZhao2/software/drivers/ib_hgrnic/hgrnic_cmd.c:443-469 | the QP, CQ, MPT and PD maxima, 1 << (b & 0x1f) and 1 << (b & 0x3f) in C ints, are 2^e up to an exponent of 30, INT_MIN at 31, and positive powers of two exactly when e mod 32 is not 31; the EQ maximum is a power of two of at most 2^7 and the GID and P_Key sizes powers of two set by a nibble |
| CmdSpec.DevLimNibbles | JingZhao2/software/drivers/ib_hgrnic/hgrnic_cmd.c:495-505 | MTU and port width, VL count and port count are the two nibbles of their bytes, and recombine to the byte |
| CmdSpec.DevLimMins | JingZhao2/software/drivers/ib_hgrnic/hgrnic_cmd.c:511-524 | the scatter and descriptor limits are the smaller of the send and receive values |
| CmdSpec.HcaImage | JingZhao2/software/drivers/ib_hgrnic/hgrnic_cmd.c:613-626 | the INIT_HCA block is 0x40 bytes, built by the memset and then the PUTs in the source's order |
| CmdSpec.BaseAndLogField | JingZhao2/software/drivers/ib_hgrnic/hgrnic_cmd.c:616-625 | a base PUT followed by its log PUT over the base's last byte reads as the base with its low byte replaced by the log |
| CmdSpec.HcaLayout | JingZhao2/software/drivers/ib_hgrnic/hgrnic_cmd.c:595-626 | the firmware finds each context base with its log in the low byte at 0x08, 0x10, 0x18 and 0x30, and the MTT base whole at 0x38 |
| CmdSpec.HcaReservedZero | JingZhao2/software/drivers/ib_hgrnic/hgrnic_cmd.c:613-626 | bytes 0x00-0x07 and 0x20-0x2f of the block stay zero |
| CmdSpec.HcaDecodes | JingZhao2/software/drivers/ib_hgrnic/hgrnic_cmd.c:595-626 | with 256-byte aligned bases and byte-sized logs, every base and log is recovered from the block |
| CmdSpec.PackedClobbers | JingZhao2/software/drivers/ib_hgrnic/hgrnic_cmd.c:616-617 | a base that is not 256-byte aligned loses its low byte to the log |
| Cmd.InitHca | JingZhao2/software/drivers/ib_hgrnic/hgrnic_cmd.c:588-643 | without a mailbox nothing is written and -ENOMEM returned; otherwise the first 0x40 bytes of the buffer become HcaImage, the rest unchanged, and the command's answer is returned |
| CmdSpec.ModifyQpTable | JingZhao2/software/drivers/ib_hgrnic/hgrnic_cmd.c:1057-1095 | the table has an opcode exactly for the listed transitions, each fitting the opcode field |
| CmdSpec.ModifyQpToResetOrError | JingZhao2/software/drivers/ib_hgrnic/hgrnic_cmd.c:1058-1094 | from every state ERR2RST leads to Reset and 2ERR to Error |
| CmdSpec.ModifyQpDistinct | JingZhao2/software/drivers/ib_hgrnic/hgrnic_cmd.c:1057-1095 | apart from the moves to Reset and Error, different transitions have different opcodes |
| CmdSpec.ModifyQpDecodes | JingZhao2/software/drivers/ib_hgrnic/hgrnic_cmd.c:1100-1101 | the firmware reads the mailbox, the QP number and the transition back from the HCR |
| Bytes.BE | JingZhao2/software/drivers/ib_hgrnic/hgrnic_dev.h:306-316 | the encoding of a w-byte field is exactly w bytes long (its value read back is GetAfterPut) |
| Bytes.Put | JingZhao2/software/drivers/ib_hgrnic/hgrnic_dev.h:306-316 | PUT stores the w-byte big-endian encoding at the offset, in place, and changes nothing else |
| Bytes.GetAfterPut | JingZhao2/software/drivers/ib_hgrnic/hgrnic_dev.h:294-316 | GET after PUT at the same offset and width returns the value reduced to the field's width |
| Bytes.BEOfValue | JingZhao2/software/drivers/ib_hgrnic/hgrnic_dev.h:294-316 | PUT of what GET read gives the same bytes back |
| Bytes.PutFrame | JingZhao2/software/drivers/ib_hgrnic/hgrnic_dev.h:306-316 | PUT leaves every byte outside its field as it was |
| Bytes.GetFrame | JingZhao2/software/drivers/ib_hgrnic/hgrnic_dev.h:294-316 | a field PUT did not touch reads as before |
| Bytes.OneByte | JingZhao2/software/drivers/ib_hgrnic/hgrnic_dev.h:294-316 | for one-byte fields both macros copy the byte |
| CqSpec.HwPrefixStep | JingZhao2/software/drivers/ib_hgrnic/hgrnic_cq.c:197-198 | handing back one more entry extends the handed-back prefix by exactly that entry |
| CqSpec.SlotsDistinct | JingZhao2/software/drivers/ib_hgrnic/hgrnic_cq.c:175 | two different offsets below the ring size name two different slots of index & cqe |
| CqSpec.WindowUpdate | JingZhao2/software/drivers/ib_hgrnic/hgrnic_cq.c:188-193 | writing one slot of the ring changes exactly one element of the window |
| CqSpec.ProducedSpec | JingZhao2/software/drivers/ib_hgrnic/hgrnic_cq.c:174-178 | the producer search stops at the first hardware-owned entry, or at cons_index + cqe: every entry before it is software-owned |
| CqSpec.ProducedStopsAt | JingZhao2/software/drivers/ib_hgrnic/hgrnic_cq.c:174-178 | a hardware-owned entry at offset j stops the search at or before j |
| CqSpec.KeepFacts | JingZhao2/software/drivers/ib_hgrnic/hgrnic_cq.c:187-194 | compaction loses only qpn's entries: kept plus removed is the window, no kept entry is qpn's, every other entry is kept as often as it occurs, and a window without qpn's entries is kept whole |
| CqSpec.KeepMultiset | JingZhao2/software/drivers/ib_hgrnic/hgrnic_cq.c:187-194 | every entry of another queue pair is kept as often as it occurs |
| CqSpec.SweepDrop | JingZhao2/software/drivers/ib_hgrnic/hgrnic_cq.c:189-190 | an entry of qpn frees one more slot |
| CqSpec.SweepMove | JingZhao2/software/drivers/ib_hgrnic/hgrnic_cq.c:191-193 | an entry of another queue pair moves nfreed slots towards the producer |
| CqSpec.CleanedFacts | JingZhao2/software/drivers/ib_hgrnic/hgrnic_cq.c:159-204 | after cleaning, the first Removed slots are owned by hardware, then come the other queue pairs' entries in their order, and from the producer on nothing changed |
| CqSpec.CleanedWindow | JingZhao2/software/drivers/ib_hgrnic/hgrnic_cq.c:196-201 | read from the new consumer index cons_index + nfreed, the window up to the producer is the kept entries |
| CqSpec.CleanCompose | JingZhao2/software/drivers/ib_hgrnic/hgrnic_cq.c:187-201 | the sweep followed by handing back the freed slots gives the compacted window |
| CqSpec.CopyIntoWindow | JingZhao2/software/drivers/ib_hgrnic/hgrnic_cq.c:210-218 | when the copied entries fit the new ring, the new ring read from the consumer index holds them in their order, followed by what it held before |
| CqSpec.TailStepAdvances | JingZhao2/software/drivers/ib_hgrnic/hgrnic_cq.c:386-396 | with a power-of-two queue and tail in step with last_cpl, a completion at index w retires (w - last_cpl - 1) mod max + 1 requests, between 1 and max, and keeps tail in step with w |
| CqSpec.TailSyncedAtReset | JingZhao2/software/drivers/ib_hgrnic/hgrnic_cq.c:387-389 | tail 0 and last_cpl max - 1 are in step |
| CqSpec.ErrorStatus | JingZhao2/software/drivers/ib_hgrnic/hgrnic_cq.c:267-325 | an error syndrome is never reported as success, only as one of the listed statuses or a general error |
| CqSpec.ErrorStatusTable | JingZhao2/software/drivers/ib_hgrnic/hgrnic_cq.c:267-325 | the syndrome switch is one to one: each specific status comes from exactly one syndrome and every other syndrome is a general error |
| CqSpec.KernelSend | JingZhao2/software/drivers/ib_hgrnic/hgrnic_cq.c:405-437 | the kernel's send switch flags immediate data exactly for RDMA WRITE and SEND with immediate |
| CqSpec.UserSend | JingZhao2/software/drivers/libhgrnic_tmp/src/cq.c:299-335 | the library's send switch flags immediate data exactly for RDMA WRITE and SEND with immediate |
| CqSpec.SendSidesAgree | JingZhao2/software/drivers/libhgrnic_tmp/src/cq.c:299-335 | kernel and library report the same send completion except for atomics (the kernel fixes the length at 8) and MW binds (named only by the library); only reads and atomics report a byte length |
| CqSpec.RecvOpcodeClasses | JingZhao2/software/drivers/ib_hgrnic/hgrnic_cq.c:438-457 | a receive carries immediate data exactly when opcode & 0x1f is SEND or RDMA WRITE with immediate, and is an RDMA write with immediate exactly for the latter |
| CqSpec.CompletionFacts | JingZhao2/software/drivers/ib_hgrnic/hgrnic_cq.c:398-466 | success exactly for a non-error entry; an error carries the vendor code and no opcode; immediate data exactly with the immediate flag and only on receives; the source QP fits 24 bits |
| CqRing.MarkAllHw | JingZhao2/software/drivers/ib_hgrnic/hgrnic_cq.c:238-239 | every entry of the new ring is owned by hardware |
| CqRing.FindProducer | JingZhao2/software/drivers/ib_hgrnic/hgrnic_cq.c:174-178 | the producer index is cons_index plus the offset of the first hardware-owned entry, at most cqe |
| CqRing.Sweep | JingZhao2/software/drivers/ib_hgrnic/hgrnic_cq.c:187-194 | the backward sweep leaves the window as the kept entries packed against the producer, the slots in front of them unchanged |
| CqRing.ReturnToHw | JingZhao2/software/drivers/ib_hgrnic/hgrnic_cq.c:196-201 | the freed entries from the consumer index on are handed back to hardware, nothing else changes |
| CqRing.Clean | JingZhao2/software/drivers/ib_hgrnic/hgrnic_cq.c:159-204 | cq_clean returns cons_index + Removed, and the window becomes Cleaned: freed slots owned by hardware, the other queue pairs' entries in order, the rest unchanged |
| CqRing.CopyCqes | JingZhao2/software/drivers/ib_hgrnic/hgrnic_cq.c:210-218 | every entry from the consumer index up to the first hardware-owned one is copied to the same index of the new ring, and only those |
| Cq.Cq.constructor | JingZhao2/software/drivers/ib_hgrnic/hgrnic_cq.c:564-615 | a queue after init_cq: consumer index 0, one reference, no resize, cqe = nent - 1 |
| Cq.FindQp | JingZhao2/software/drivers/ib_hgrnic/hgrnic_cq.c:357-372 | the cached queue pair when its number matches, otherwise the table's entry at qpn & (num_qps - 1) |
| Cq.AccountCqe | JingZhao2/software/drivers/ib_hgrnic/hgrnic_cq.c:376-396 | the completion carries the entry's queue pair number and the wr_id KernelWrId reads, the queue the entry names retires the request at its descriptor index, and of the queue pairs given only this one changes, and only in its tail and last_cpl (Advanced) |
| Cq.WrIdSides | JingZhao2/software/drivers/ib_hgrnic/hgrnic_cq.c:376-384 | kernel and library agree on send completions; on a receive the kernel reads the send queue's id at the receive slot |
| Cq.KernelRecvWrIdFromSendQueue | JingZhao2/software/drivers/ib_hgrnic/hgrnic_cq.c:380-384 | a concrete receive completion that the kernel reports with the send queue's id and the library with the receive queue's |
| Cq.Cq.PollOne | JingZhao2/software/drivers/ib_hgrnic/hgrnic_cq.c:331-473 | -EAGAIN with nothing changed on a hardware-owned entry; otherwise the entry goes back to hardware and cons_index advances by one, and the queue pair is FindQp's: -EINVAL with no queue pair changed when there is none, else the completion of the entry with that queue pair's number and KernelWrId of its state before, and only that queue pair's tail and last_cpl moved |
| Cq.Cq.PollLoop | JingZhao2/software/drivers/ib_hgrnic/hgrnic_cq.c:501-509 | at most the budget of completions, stopping at the first error (0, -EAGAIN or -EINVAL); the entries consumed are the software-owned ones from cons_index on, in ring order, each handed back to hardware, the k-th completion decoding the k-th of them; an unknown queue pair's entry is consumed without a completion, and -EAGAIN means the next entry is owned by hardware; the k-th completion goes to the queue pair FindQp picks after the one before, carrying its number and the wr_id of its state on entry, and only the queue pairs served move, only in tail and last_cpl |
| Cq.Cq.PollCq | JingZhao2/software/drivers/ib_hgrnic/hgrnic_cq.c:489-541 | the number of completions, at most num, or -EINVAL, fewer than num only when both rings ran empty; the rings are swapped (the resize becoming SWAPPED) exactly when the first ring ran empty with -EAGAIN while the resize buffer is READY and its entry at the consumer index is software-owned; in each ring the entries consumed are handed back to hardware and the completions decode them in order, the first ring's before the second's; each completion carries the number of the queue pair FindQp picks, the cached one surviving the swap, and the wr_id of that queue pair's state on entry; only the queue pairs served move, only in tail and last_cpl |
| Cq.Cq.Release | JingZhao2/software/drivers/ib_hgrnic/hgrnic_cq.c:469-470 | set_cqe_hw and ++cons_index: the entry at the slot is handed to hardware, nothing else in the ring changes, and cons_index moves on by one |
| Cq.Cq.SwapRings | JingZhao2/software/drivers/ib_hgrnic/hgrnic_cq.c:522-532 | the resize buffer's ring and cqe become the queue's and the old ones the resize buffer's, which is SWAPPED; the consumer index is kept |
| Cq.Cq.PollStep | JingZhao2/software/drivers/ib_hgrnic/hgrnic_cq.c:503-508 | one turn of the loop keeps PollState: -EAGAIN consumes nothing and leaves the cached queue pair, -EINVAL consumes the entry without a completion, 0 appends the completion and its queue pair |
| Cq.PollStateIdle | JingZhao2/software/drivers/ib_hgrnic/hgrnic_cq.c:343-345 | a software-owned entry at the consumer index is the next entry of the window not yet consumed |
| Cq.PollStateSkip | JingZhao2/software/drivers/ib_hgrnic/hgrnic_cq.c:366-370 | consuming an entry of an unknown queue pair keeps every part of PollState but the completions |
| Cq.PollStateHit | JingZhao2/software/drivers/ib_hgrnic/hgrnic_cq.c:357-396 | consuming an entry of the queue pair FindQp picks appends its completion, decoded with the id of that queue pair's state on entry, and keeps PollState |
| Cq.ServedStep | JingZhao2/software/drivers/ib_hgrnic/hgrnic_cq.c:357-372 | the queue pair FindQp picks after the last one served extends the chain of queue pairs served |
| Cq.LastServed | JingZhao2/software/drivers/ib_hgrnic/hgrnic_cq.c:357-372 | the queue pair a poll loop has cached is one of the table's when any was served |
| Cq.AdvancedTrans | JingZhao2/software/drivers/ib_hgrnic/hgrnic_cq.c:376-396 | two rounds of completions move only the tails and last_cpl of the queue pairs served in either round |
| Cq.AllocCqBuf | JingZhao2/software/drivers/ib_hgrnic/hgrnic_cq.c:226-242 | the allocation's error, or a fresh ring of nent entries all owned by hardware |
| Cq.InitCqReportsTornDown | JingZhao2/software/drivers/ib_hgrnic/hgrnic_cq.c:588-643 | as written, init_cq returns 0 for a torn-down queue exactly when the mailbox or the table slot could not be had and every other step succeeded |
| Cq.InitCqErrReports | JingZhao2/software/drivers/ib_hgrnic/hgrnic_cq.c:557-644 | with the corrected error, 0 exactly when the queue exists, a negative errno otherwise |
| Cq.InitCq | JingZhao2/software/drivers/ib_hgrnic/hgrnic_cq.c:557-644 | -ENOMEM when no CQ number is left; otherwise the steps run until the first failure, each completed step undone in reverse and the number freed; on success the queue is in the table at cqn & (num_cqs - 1) |
| Cq.InitCqSteps | JingZhao2/software/drivers/ib_hgrnic/hgrnic_cq.c:571-628 | ICM registration, ring, mailbox, SW2HW_CQ and table entry, in order, the first failure undoing the steps already done |
| Cq.PublishCq | JingZhao2/software/drivers/ib_hgrnic/hgrnic_cq.c:588-628 | the mailbox, SW2HW_CQ and the table entry at cqn & (num_cqs - 1), the first failure ending it |
| Cq.FreeCq | JingZhao2/software/drivers/ib_hgrnic/hgrnic_cq.c:657-680 | the table slot cleared, one reference dropped, the ring freed for a kernel queue, the ICM unregistered and the CQ number's bit cleared; the steps it takes are FreeCqTrace: context (HW2SW_CQ), table slot, the kernel ring, ICM, number |
| Cq.FreeCqBalanced | JingZhao2/software/drivers/ib_hgrnic/hgrnic_cq.c:557-680 | init_cq's acquisitions followed by free_cq's releases leak nothing and release nothing twice |
| Cq.FreeCqUndoesInit | JingZhao2/software/drivers/ib_hgrnic/hgrnic_cq.c:557-680 | after init_cq the number, ICM, kernel ring, context and slot are held in that order; free_cq releases the context before the slot taken after it, so it does not unwind last-in first-out, while with those two swapped it would give back everything |
| Cq.InitCqTable | JingZhao2/software/drivers/ib_hgrnic/hgrnic_cq.c:682-701 | 0 exactly when both the allocator and the table exist; -EINVAL for a count that is not a power of two, -ENOMEM when an allocation fails, and nothing kept on failure |
| Provider.ConvertAccessBits | JingZhao2/software/drivers/ib_hgrnic/hgrnic_provider.h:218-225 | the MPT flags always have local read, carry local write, remote write, remote read and remote atomic exactly when the access asks for them, and no other bit |
| Provider.QueryDeviceSpec | JingZhao2/software/drivers/ib_hgrnic/hgrnic_provider.c:29-74 | -EINVAL exactly for non-empty user data; otherwise every QP, CQ, MR and PD the device does not reserve, the device's CQE limit, its scatter limit for sends and receives, and its page-size mask |
| Provider.CqRingSizeSpec | JingZhao2/software/drivers/ib_hgrnic/hgrnic_provider.c:360-375 | a CQ request is refused exactly for flags or a size outside 1..max_cqes; an accepted one gets the least power of two above entries + 1 |
| Provider.CqRingFitsDevice | JingZhao2/software/drivers/ib_hgrnic/hgrnic_provider.c:363-375 | with a power-of-two device CQ size, every ring create_cq accepts under the derived max_cqes fits the device |
| Provider.CreateCq | JingZhao2/software/drivers/ib_hgrnic/hgrnic_provider.c:345-391 | -EINVAL for a refused request, -EFAULT when the user command cannot be read; -ENOMEM with nothing changed when no CQ number is left; init_cq's own error with the allocator bits and the table unchanged; a user queue whose number cannot be returned is freed again with -EFAULT, its number free, its slot empty and every other slot unchanged; on success a fresh queue with the rounded ring size and no resize, its number marked taken and the queue stored at cqn & (num_cqs - 1) |
| Provider.AllocResizeBuf | JingZhao2/software/drivers/ib_hgrnic/hgrnic_provider.c:616-659 | -EBUSY while a resize is pending, -ENOMEM without a record, the ring's error with the record dropped; otherwise a READY record holding a hardware-owned ring of entries entries with cqe = entries - 1 |
| Provider.ResizeCqStart | JingZhao2/software/drivers/ib_hgrnic/hgrnic_provider.c:661-707 | -EINVAL out of range and 0 for the current size, both changing nothing; then the resize buffer or the user command, and RESIZE_CQ, whose failure drops the resize buffer again; a user queue's cqe becomes entries - 1 |
| Provider.ResizeCqFinish | JingZhao2/software/drivers/ib_hgrnic/hgrnic_provider.c:709-731 | a READY resize copies the software entries from the consumer index and makes the new ring current; a SWAPPED one keeps the current ring; either way the resize record is gone |
| Provider.BatchesCover | JingZhao2/software/drivers/ib_hgrnic/hgrnic_provider.c:469-492 | the write_mtt batches cover the region's pages exactly and in order, each of 1 to write_mtt_size entries, page p written by batch p / write_mtt_size |
| Provider.WriteMttBatches | JingZhao2/software/drivers/ib_hgrnic/hgrnic_provider.c:469-496 | the page loop issues the batches in order up to and including the first failure, whose error it returns; 0 when every batch is written |
| AddressVector.AllocAv | JingZhao2/software/drivers/libhgrnic/src/ah.c:44-74 | hgrnic_alloc_av returns -1 and no record exactly when malloc fails, else 0 with a record carrying the DLID, a 16-byte GID and fields within their C widths; a global route carries the GRH flag and the GRH fields, a local one only dgid[3] = 2 |
| AddressVector.PackSplits | JingZhao2/software/drivers/libhgrnic/src/ah.c:53 | packing a k-bit value under another with OR and a shift is addition and splits back at bit k |
| AddressVector.PortPdSplits | JingZhao2/software/drivers/libhgrnic/src/ah.c:53 | pdn \| (port << 24) splits back into the PD number (low 24 bits) and the port (high 8 bits) |
| AddressVector.MsgSrSplits | JingZhao2/software/drivers/libhgrnic/src/ah.c:56-57 | (3 << 4) \| static_rate has 3 in its high nibble and the rate in its low one |
| AddressVector.SlBitsPlaced | JingZhao2/software/drivers/libhgrnic/src/ah.c:58 | sl << 28 puts the service level in bits 31:28 and nowhere else |
| AddressVector.GrhBitsSplit | JingZhao2/software/drivers/libhgrnic/src/ah.c:58-66 | the global SL word decodes back into SL (bits 31:28), traffic class (27:20) and flow label (19:0) |
| AddressVector.GlobalFlagBit | JingZhao2/software/drivers/libhgrnic/src/ah.c:54-60 | bit 7 of g_slid is the GRH flag and its low seven bits the source path bits |
| AddressVector.GidIndexSplits | JingZhao2/software/drivers/libhgrnic/src/ah.c:62-63 | (port - 1) * 32 + sgid_index decodes back into the port and the source GID index |
| AddressVector.AllocAvDecodes | JingZhao2/software/drivers/libhgrnic/src/ah.c:44-74 | for attributes within their IB widths every field the adapter reads back yields the attribute it came from, and the destination GID is the one given |
| Device.CheckProfileValSpec | JingZhao2/software/drivers/ib_hgrnic/hgrnic_main.c:678-701 | a non-positive profile value becomes its default; a value up to 2^30 becomes the least power of two at or above it (below twice the value), and a power of two is kept; a value above 2^30 rounds up to 2^31, which the int parameter holds as INT_MIN |
| Device.ValidatedIsPow2 | JingZhao2/software/drivers/ib_hgrnic/hgrnic_main.c:703-708 | after hgrnic_validate_profile a count is a positive power of two exactly when its parameter was at most 2^30; an all-zero profile takes the four defaults, and the compiled-in defaults are kept |
| Device.DefaultsArePow2 | JingZhao2/software/drivers/ib_hgrnic/hgrnic_main.c:37-42 | the default QP, CQ, MPT and MTT counts are powers of two |
| Device.PageSizeCap | JingZhao2/software/drivers/ib_hgrnic/hgrnic_main.c:151 | ~(u32)(min_page_sz - 1) is a u32 |
| Device.PageSizeCapSpec | JingZhao2/software/drivers/ib_hgrnic/hgrnic_main.c:151 | for a power-of-two page size the mask is 2^32 - min_page_sz: every bit from the page size's bit up, a multiple of it |
| Device.DevLimSpec | JingZhao2/software/drivers/ib_hgrnic/hgrnic_main.c:96-157 | dev_lim passes on a failed query's status, otherwise succeeds exactly when the minimum page size is at most PAGE_SIZE and the port count at most HGRNIC_MAX_PORTS (-ENODEV otherwise); the MTT segment size is 8 and the profile's counts are kept; on success max_cqes is one below the device's CQ size, max_wqes its QP size, max_sg 16, num_uars 0x1000, no MRWs reserved, and the page-size mask as PageSizeCapSpec says |
| Device.FwVer | JingZhao2/software/drivers/ib_hgrnic/hgrnic_main.c:397-398 | HANGU_FW_VER is a u64 |
| Device.FwVerSum | JingZhao2/software/drivers/ib_hgrnic/hgrnic_main.c:397-398 | with 16-bit parts the fields do not overlap: the version is major * 2^32 + minor * 2^16 + subminor |
| Device.InitIcmBalanced | JingZhao2/software/drivers/ib_hgrnic/hgrnic_main.c:159-240 | init_icm succeeds exactly when every table is made; any failure leaves nothing mapped, each unmap undoing the latest map still held, and returns -ENOMEM after the EQ step; success maps the five tables in order and free_icms unmaps them all, last first |
| LibHgrnic.QpTableConstants | JingZhao2/software/drivers/libhgrnic/src/hgrnic.h:79-81 | HGRNIC_QP_TABLE_SIZE is 2^BITS, MASK is SIZE - 1, and x & MASK is x mod SIZE |
| LibHgrnic.AndHighMask64 | JingZhao2/software/drivers/libhgrnic/src/hgrnic.h:201-204 | the mask ~(2^k - 1) on a u64 keeps all but the low k bits |
| LibHgrnic.AlignClears | JingZhao2/software/drivers/libhgrnic/src/hgrnic.h:201-204 | align(val, 2^k) is the 64-bit sum val + 2^k - 1 with its low k bits cleared |
| LibHgrnic.AlignRoundsUp | JingZhao2/software/drivers/libhgrnic/src/hgrnic.h:201-204 | when the sum does not wrap, align(val, a) is the multiple of a at or above val and below val + a |
| LibHgrnic.AlignIsMultiple | JingZhao2/software/drivers/libhgrnic/src/hgrnic.h:201-204 | align always yields a multiple of a, at least a below 2^64 |
| LibHgrnic.AlignOfMultiple | JingZhao2/software/drivers/libhgrnic/src/hgrnic.h:201-204 | a multiple of a with room below 2^64 is already aligned |
| LibHgrnic.AlignIdempotent | JingZhao2/software/drivers/libhgrnic/src/hgrnic.h:201-204 | aligning twice is aligning once, for every u64 and power of two, even when the sum wraps |
| QueuePair.StateRoundTrip | JingZhao2/software/drivers/ib_hgrnic/hgrnic_qp.c:150-193 | to_hgrnic_state and to_ib_qp_state are inverse on the seven verbs states and the seven device states other than DRAINING, DRAINING reads back as SQD, and exactly the values outside the encodings give -1 |
| QueuePair.ServiceTypes | JingZhao2/software/drivers/ib_hgrnic/hgrnic_qp.c:166-178 | every transport gets its own 3-bit service type, and exactly the codes outside 0..4 give -1 |
| QueuePair.SendDescHolds | JingZhao2/software/drivers/ib_hgrnic/hgrnic_qp.c:718-742 | a send descriptor holds the next unit and every data unit, plus the UD unit for UD, the address unit for UC and RC, and for RC room for an atomic operation (atomic, address and one data unit) |
| QueuePair.EntrySizeLog | JingZhao2/software/drivers/ib_hgrnic/hgrnic_qp.c:714-715 | the loop from 7 stops at the smallest log whose power of two, at least 128, covers the descriptor |
| QueuePair.SetQpEntrySz | JingZhao2/software/drivers/ib_hgrnic/hgrnic_qp.c:704-757 | set_qp_entry_sz succeeds exactly when the receive and the send descriptor fit in max_desc_sz, fails with -EINVAL otherwise, and on success gives each queue the smallest fitting entry log and a size of max << log |
| QueuePair.SetQpSize | JingZhao2/software/drivers/ib_hgrnic/hgrnic_qp.c:759-793 | set_qp_size succeeds exactly when the capabilities are within the device limits and both descriptors fit, failing with -EINVAL otherwise; on success the queues take the requested depths, gather counts and inline size, with fitting entry logs and queue sizes |
| QueuePair.PostReceive | JingZhao2/software/drivers/ib_hgrnic/hgrnic_qp.c:1111-1172 | post_receive stops at the first rejected request, reports it as bad_wr with its status, has accepted every one before it, stores their ids from slot head & (max - 1) on, whatever the depth, and moves head by the number accepted; the send queue is untouched |
| QueuePair.RecvIndices | JingZhao2/software/drivers/ib_hgrnic/hgrnic_qp.c:1124-1165 | the loop of post_receive over a queue value of any depth: the same statuses, bad index and wr_id table as PostReceive |
| QueuePair.SlotStep | JingZhao2/software/drivers/ib_hgrnic/hgrnic_qp.c:1159-1163 | storing request n's id and moving the slot on, with wrap-around, extends the placement of the first n ids by one |
| QueuePair.AcceptedFit | JingZhao2/software/drivers/ib_hgrnic/hgrnic_qp.c:933-950 | when none of the first n overflow tests fired, the earlier requests plus the n new ones fit in max |
| QueuePair.PostReceiveKeepsRoom | JingZhao2/software/drivers/ib_hgrnic/hgrnic_qp.c:1111-1172 | after post_receive the queue holds its earlier requests plus the accepted ones, never more than max, and the i-th accepted id is in slot (start + i) mod max for the start slot head & (max - 1), which is (head + i) mod max when max is a power of two |
| QueuePair.RoomAfter | JingZhao2/software/drivers/ib_hgrnic/hgrnic_qp.c:1167-1168 | moving head by n requests that fit raises the outstanding count by exactly n |
| QueuePair.SlotsAfter | JingZhao2/software/drivers/ib_hgrnic/hgrnic_qp.c:1159-1163 | storing at most max ids from the start slot puts the i-th one in slot (start + i) mod max, and in slot (head + i) mod max on a power-of-two ring |
| QueuePair.PostSend | JingZhao2/software/drivers/ib_hgrnic/hgrnic_qp.c:951-1109 | post_send stops at the first rejected request and reports it with its status, having accepted every one before it; one doorbell is rung per started batch of 255, with that batch's head, size, fence and opcode; head and the wr_id table are SentHead's and SentIds'; the receive queue is untouched |
| QueuePair.SentHead | JingZhao2/software/drivers/ib_hgrnic/hgrnic_qp.c:985-986 | head after post_send is a u32 |
| QueuePair.SentIds | JingZhao2/software/drivers/ib_hgrnic/hgrnic_qp.c:1069 | the wr_id table after post_send keeps the ring's size |
| QueuePair.SendIndices | JingZhao2/software/drivers/ib_hgrnic/hgrnic_qp.c:979-1099 | the loop and last doorbell of post_send over a queue value of any depth: the same statuses, bad index, doorbells, head and wr_id table as PostSend, nothing else changed |
| QueuePair.SendFinished | JingZhao2/software/drivers/ib_hgrnic/hgrnic_qp.c:1096-1099 | the loop's end state plus the final doorbell gives SendIndices' statuses, doorbells and head |
| QueuePair.SendLoop | JingZhao2/software/drivers/ib_hgrnic/hgrnic_qp.c:981-1094 | the loop stops at the first rejected request (or the end) with every earlier one accepted, the batch state of the requests passed, and the wr_id table holding every id stored, including one rejected only for its opcode |
| QueuePair.SendOne | JingZhao2/software/drivers/ib_hgrnic/hgrnic_qp.c:981-1094 | one pass of the loop either accepts request j and keeps the loop invariant, or stops with its status and the batch state as its checks saw it |
| QueuePair.SendChecks | JingZhao2/software/drivers/ib_hgrnic/hgrnic_qp.c:989-1076 | the ring-full test (-ENOMEM), the gather test (-EINVAL) and the opcode test (-EINVAL), in that order, give SendError, and the id is stored exactly when the first two pass |
| QueuePair.BatchBoundary | JingZhao2/software/drivers/ib_hgrnic/hgrnic_qp.c:982-987 | with 255 pending their doorbell is rung, nreq restarts at 0 and head moves by 255 twice; otherwise nothing changes |
| QpLife.MtuMsgmaxFields | JingZhao2/software/drivers/ib_hgrnic/hgrnic_qp.c:369-379 | (mtu << 5) \| msgmax is mtu * 32 + msgmax, both fields read back, and every MTU below 8 fits the u8 field |
| QpLife.RnrTimerLost | JingZhao2/software/drivers/ib_hgrnic/hgrnic_qp.c:428-432 | as written, the u8 min_rnr_timer shifted left by 24 is 0 whatever timer is asked for, so the RNR word carries the expected PSN alone |
| QpLife.RnrWordFields | JingZhao2/software/drivers/ib_hgrnic/hgrnic_qp.c:428-435 | with the timer kept before the shift, the RNR word is timer * 2^24 + PSN, fits in 32 bits, and both fields read back |
| QpLife.CacheFields | JingZhao2/software/drivers/ib_hgrnic/hgrnic_qp.c:369-435 | the context filled by __hgrnic_modify_qp: MTU 4096 with log 11 for UD and the requested MTU with log 31 otherwise; the port and the timer read back from bits 31:24; the destination QPN, send PSN and expected PSN replaced when their bits are set; every field whose bit is clear keeps its value |
| QpLife.ModifyPrecheckCases | JingZhao2/software/drivers/ib_hgrnic/hgrnic_qp.c:505-555 | modify_qp refuses exactly a transition ib_modify_qp_is_ok refuses or an out-of-range port, does nothing exactly for an accepted RESET to RESET, otherwise runs the command from the current to the new state; without the state bits both are the QP's own state |
| QpLife.ModifyQpOutcome | JingZhao2/software/drivers/ib_hgrnic/hgrnic_qp.c:341-555 | modify_qp returns 0 exactly for RESET to RESET or when the checks, the mailbox, the path MTU and the command all succeed; its own checks fail with -EINVAL and a missing mailbox with -ENOMEM |
| QpLife.KernelQp.constructor | JingZhao2/software/drivers/ib_hgrnic/hgrnic_qp.c:635-642 | a new QP holds one reference, is in RESET, has no port and nothing cached, with the queues, transport and CQs given |
| QpLife.KernelQp.CleanCqs | JingZhao2/software/drivers/ib_hgrnic/hgrnic_qp.c:485-491 | the QP's completions are removed from its receive CQ, and from its send CQ when that is another one, each as hgrnic_cq_clean specifies |
| QpLife.KernelQp.DoModifyQp | JingZhao2/software/drivers/ib_hgrnic/hgrnic_qp.c:341-503 | without a mailbox (-ENOMEM) or with a bad path MTU (-EINVAL) nothing changes; otherwise the attributes are cached even when MODIFY_QP then fails with its status; on success the state moves, the port moves when IB_QP_PORT is set, and a kernel QP moved to RESET loses its completions and has both queues reset |
| QpLife.KernelQp.Commit | JingZhao2/software/drivers/ib_hgrnic/hgrnic_qp.c:480-498 | after a successful MODIFY_QP the state is the new one, the port changes only under IB_QP_PORT, and a kernel QP moved to RESET has both queues reset (keeping the inline limit) and its completions removed; otherwise nothing else changes |
| QpLife.KernelQp.Reinit | JingZhao2/software/drivers/ib_hgrnic/hgrnic_qp.c:488-498 | a kernel QP moved to RESET has its completions removed from its CQs and both queues reset, keeping the inline limit |
| QpLife.KernelQp.ModifyQp | JingZhao2/software/drivers/ib_hgrnic/hgrnic_qp.c:505-555 | the status is ModifyQpErr's; a refused request or RESET to RESET changes nothing; otherwise the QP changes as DoModifyQp specifies for the new state |
| QpLife.TransportOf | JingZhao2/software/drivers/ib_hgrnic/hgrnic_qp.c:803-808 | exactly the RC, UC and UD QP types get a transport, and never RD |
| QpLife.AllocQpBufUnwinds | JingZhao2/software/drivers/ib_hgrnic/hgrnic_qp.c:589-702 | alloc_qp_buf succeeds exactly when its ICM registration and, for a kernel QP, its four buffer allocations succeed; a failure holds nothing afterwards, each release undoing the latest resource still held; a success holds the context (and a kernel QP's four buffers), and free_qp's releases then give back every one of them |
| QpLife.FreeReordersUnwind | JingZhao2/software/drivers/ib_hgrnic/hgrnic_qp.c:919-930 | free_qp releases the same five resources as unwinding all five, in another order |
| QpLife.BalancedReordered | JingZhao2/software/drivers/ib_hgrnic/hgrnic_qp.c:919-930 | reordering the releases that follow a run keeps it balanced |
| QpLife.NewQueue | JingZhao2/software/drivers/ib_hgrnic/hgrnic_qp.c:641-642 | a new queue has the size, gather limit and entry log set_qp_size chose, and nothing posted |
| QpLife.AllocQp | JingZhao2/software/drivers/ib_hgrnic/hgrnic_qp.c:795-832 | alloc_qp returns -EINVAL with nothing changed for an unsupported QP type or capabilities over the limits; otherwise the number, buffers and table entry are as AllocNumbered specifies; a QP comes back exactly when the status is 0 |
| QpLife.AllocNumbered | JingZhao2/software/drivers/ib_hgrnic/hgrnic_qp.c:814-831 | no free number gives -ENOMEM; the all-ones number gives -ENOMEM with its bit left set; otherwise a failed alloc_qp_buf frees the number again, and a success returns a fresh QP under that number, entered in the table unless the table's page could not be had |
| QpLife.Unnumber | JingZhao2/software/drivers/ib_hgrnic/hgrnic_qp.c:821-825 | freeing the number just taken gives back the bitmap from before the allocation |
| QpLife.PublishQp | JingZhao2/software/drivers/ib_hgrnic/hgrnic_qp.c:827-831 | the new QP has its sized and reset queues and is entered at qpn & (num_qps - 1) when the table's page exists or can be had; otherwise the table is unchanged and the QP returned all the same |
| QpLife.FreeQp | JingZhao2/software/drivers/ib_hgrnic/hgrnic_qp.c:877-931 | free_qp clears the QP's table slot, drops one reference, issues the move to RESET exactly when the QP is not in RESET (leaving its cached state), removes a kernel QP's completions from its CQs (a user QP's CQs are untouched), releases its buffers and context and frees exactly its number's bit |
| QpLife.ReleaseQp | JingZhao2/software/drivers/ib_hgrnic/hgrnic_qp.c:918-930 | a kernel QP's completions leave its CQs (a user QP's are untouched), its releases are FreeQpSteps, and only its number's bit is freed |
| QpLife.Unlist | JingZhao2/software/drivers/ib_hgrnic/hgrnic_qp.c:894-898 | the table slot at qpn & (num_qps - 1) is cleared (the page dropped with its last entry) and the reference count drops by one |
| QpLife.SqpStart | JingZhao2/software/drivers/ib_hgrnic/hgrnic_qp.c:1184 | (reserved_qps + 1) & ~1 is the first even number not below reserved_qps |
| QpLife.EvenMask | JingZhao2/software/drivers/ib_hgrnic/hgrnic_qp.c:1184 | x & ~1 on a u64 clears bit 0 and nothing else |
| QpLife.InitQpTable | JingZhao2/software/drivers/ib_hgrnic/hgrnic_qp.c:1174-1201 | init_qp_table fails with -EINVAL exactly for a QP count that is not a power of two and with -ENOMEM exactly when a later allocation fails, holding nothing then; on success the allocator has num_qps clear bits under a 24-bit mask and the table is empty |
| QpSpec.StartSlot | JingZhao2/software/drivers/ib_hgrnic/hgrnic_qp.c:979 | head & (max - 1) is a slot of the ring for every depth, and head mod max for a power-of-two depth |
| QpSpec.StartSlotIsMod | JingZhao2/software/drivers/ib_hgrnic/hgrnic_qp.c:979 | head & (max - 1) is head mod max for every u32 head exactly when max is a power of two |
| QueuePair.UnroundedDepthReusesSlot | JingZhao2/software/drivers/ib_hgrnic/hgrnic_qp.c:786-787 | with max_recv_wr 3 copied as the depth, two one-request posts both start at slot 0, so the first id is overwritten while both requests are outstanding |
| QpSpec.Placed | JingZhao2/software/drivers/ib_hgrnic/hgrnic_qp.c:1069 | storing ids in the wr_id table keeps its length |
| QpSpec.PlacedSlots | JingZhao2/software/drivers/ib_hgrnic/hgrnic_qp.c:1069-1089 | after n ids (n at most the ring size) are stored from start, the i-th id is in slot (start + i) mod max and every slot not reached keeps its old wr_id |
| QpSpec.NextSlot | JingZhao2/software/drivers/ib_hgrnic/hgrnic_qp.c:1087-1089 | moving the slot on by one with a subtraction at max lands on the next slot modulo max |
| QpSpec.BatchQueue | JingZhao2/software/drivers/ib_hgrnic/hgrnic_qp.c:982-987 | the queue as request i sees it keeps its tail and has a u32 head |
| QpSpec.SendError | JingZhao2/software/drivers/ib_hgrnic/hgrnic_qp.c:989-1076 | request i is accepted exactly when its wr_id is stored (the ring has room and the gathers fit) and its opcode is inside the opcode table |
| QpSpec.BatchCalls | JingZhao2/software/drivers/ib_hgrnic/hgrnic_qp.c:982-1099 | there is one doorbell call per batch counted |
| QpSpec.AcceptedAll | JingZhao2/software/drivers/ib_hgrnic/hgrnic_qp.c:981-1094 | when the loop passed the first j requests, each of them got status 0 |
| QpSpec.RingCount | JingZhao2/software/drivers/ib_hgrnic/hgrnic_qp.c:981-1099 | with j requests passed, the boundary doorbells number j / 255 (or (j - 1) / 255 after a clean end) and, with the final one, post_send rings one doorbell per started batch of 255 |
| QpSpec.RingStep | JingZhao2/software/drivers/ib_hgrnic/hgrnic_qp.c:982-987 | at a batch boundary the doorbell rung is the batch's own and head moves on by 255 in hgrnic_send_dbell and 255 more in the loop |
| QpSpec.CheckView | JingZhao2/software/drivers/ib_hgrnic/hgrnic_qp.c:989-1069 | request j is checked against the loop's head with j mod 255 pending; its id is stored exactly when the ring has room and the gathers fit, and the table then equals the specification's placement of the first j + 1 ids |
| QpSpec.AcceptStep | JingZhao2/software/drivers/ib_hgrnic/hgrnic_qp.c:1069-1089 | an accepted request stores its id, moves the slot on with wrap-around, joins the pending batch and, as the batch's first, sets size0, f0 and op0 |
| QpSpec.AcceptBatched | JingZhao2/software/drivers/ib_hgrnic/hgrnic_qp.c:1082-1087 | an accepted request joins the pending batch and, as its first, sets its doorbell fields |
| QpSpec.FinishSend | JingZhao2/software/drivers/ib_hgrnic/hgrnic_qp.c:1096-1099 | at the end of post_send head has moved by the requests passed plus 255 per boundary, and exactly one doorbell was rung per started batch, in order |
| QpSpec.FinishCalls | JingZhao2/software/drivers/ib_hgrnic/hgrnic_qp.c:1096-1099 | the final doorbell, rung only when requests are pending, completes one doorbell per started batch |
| QpSpec.FinishHead | JingZhao2/software/drivers/ib_hgrnic/hgrnic_wqe.h:105 | head after the final doorbell is the start plus the requests passed plus 255 per boundary, in u32 arithmetic |
| Trace.AcquireFirst | JingZhao2/software/drivers/ib_hgrnic/hgrnic_main.c:159-210 | the trace of taking the first n resources of a set-up sequence, one acquire each, in order |
| Trace.ReleaseFirst | JingZhao2/software/drivers/ib_hgrnic/hgrnic_main.c:212-224 | the trace of the error labels that give back the first n resources, the last taken first |
| Trace.HeldAcquireFirst | JingZhao2/software/drivers/ib_hgrnic/hgrnic_main.c:159-210 | after taking the first n resources exactly those are held, in order |
| Trace.HeldReleaseFirst | JingZhao2/software/drivers/ib_hgrnic/hgrnic_main.c:212-224 | releasing the first k resources, last first, from a stack that ends in them leaves what was below them |
| Trace.Unwinds | JingZhao2/software/drivers/ib_hgrnic/hgrnic_main.c:159-224 | taking the first n resources and falling through the error labels holds nothing afterwards |
| Trace.UnwindBalanced | JingZhao2/software/drivers/ib_hgrnic/hgrnic_main.c:159-224 | taking the first n resources and giving them back, last first, leaks none of them |
| UserCq.MaskedSlot | JingZhao2/software/drivers/libhgrnic_tmp/src/cq.c:89-92 | ci & (n - 1) on a power-of-two ring is ci mod n |
| UserCq.UserCq.constructor | JingZhao2/software/drivers/libhgrnic_tmp/src/verbs.c:195-222 | a queue create_cq hands out has consumed nothing and both masks one below the ring size |
| UserCq.UserCq.PollOne | JingZhao2/software/drivers/libhgrnic_tmp/src/cq.c:192-371 | poll_one reports CQ_EMPTY, changing nothing, exactly when hardware owns the entry at cons_index; otherwise it hands the entry back and moves cons_index on, takes the queue pair Pick gives (the cached one when its number matches, else find_qp's) or returns CQ_POLL_ERR with no queue pair changed, and decodes the completion with that queue pair's number and the wr_id of the entry's own queue, that queue's tail moved on and no other queue pair changed |
| UserCq.UserCq.PollCq | JingZhao2/software/drivers/libhgrnic_tmp/src/cq.c:377-395 | poll_cq consumes the software-owned entries from cons_index in ring order, at most ne, handing each back; the k-th completion decodes the k-th entry consumed, goes to the queue pair Pick chains from none cached and carries that queue pair's number and the wr_id of its state on entry; only the queue pairs served move, only in tail and last_cpl; CQ_POLL_ERR is passed on, otherwise the count is returned, and a count below ne means the next entry is hardware's |
| UserCq.UserCq.Serve | JingZhao2/software/drivers/libhgrnic_tmp/src/cq.c:261-368 | for a known queue pair: the completion Retire gives, the entry handed back and cons_index moved on, no other queue pair changed |
| UserCq.UserCq.Release | JingZhao2/software/drivers/libhgrnic_tmp/src/cq.c:367-368 | set_cqe_hw and ++cons_index: the entry at the slot is handed to hardware, cons_index moves on, no queue pair changes |
| UserCq.UserCq.PollStep | JingZhao2/software/drivers/libhgrnic_tmp/src/cq.c:384-390 | one turn of the loop keeps PollState: CQ_EMPTY consumes nothing, CQ_POLL_ERR consumes the entry without a completion, CQ_OK appends the completion and its queue pair |
| UserCq.PollStateSkip | JingZhao2/software/drivers/libhgrnic_tmp/src/cq.c:254-257 | consuming an entry of an unknown queue pair keeps every part of PollState but the completions |
| UserCq.PollStateHit | JingZhao2/software/drivers/libhgrnic_tmp/src/cq.c:248-290 | consuming an entry of the queue pair Pick gives appends its completion, decoded with the id of that queue pair's state on entry, and keeps PollState |
| UserCq.UserCq.CleanQp | JingZhao2/software/drivers/libhgrnic_tmp/src/cq.c:406-445 | __hgrnic_cq_clean removes the QP's entries among the unpolled ones, keeps the others in order and moves cons_index past the slots freed |
| UserCq.UserCq.Reallocate | JingZhao2/software/drivers/libhgrnic_tmp/src/verbs.c:313-352 | the new ring's allocation (-1), its memory region (ENOMEM) and RESIZE_CQ (its status) are tried in order, a failure keeping the old ring; on success the unpolled entries are copied to the same indices of the new ring, which replaces the old one with both masks nent - 1 |
| UserCq.UserCq.ResizeCqAsWritten | JingZhao2/software/drivers/libhgrnic_tmp/src/verbs.c:293-357 | resize_cq as written returns EINVAL above 0x20000, 0 for the current size, else the first failing step's status; cqe_mask takes the new size before any of those steps, so a failure leaves it stale |
| UserCq.UserCq.ResizeCq | JingZhao2/software/drivers/libhgrnic_tmp/src/verbs.c:293-357 | resize_cq with the mask set only with the new ring: the same statuses, the queue stays consistent on every path, and a successful resize holds the unpolled completions in order from cons_index, then hardware-owned entries |
| UserCq.Retire | JingZhao2/software/drivers/libhgrnic_tmp/src/cq.c:261-290 | the completion carries the queue pair's number and the wr_id of the entry's own queue; that queue's tail moves on to the entry's slot; a receive clears the next unit at the entry's offset; of the queue pairs given only this one changes (Advanced) |
| UserCq.ResizedFromCopy | JingZhao2/software/drivers/libhgrnic_tmp/src/cq.c:454-461 | copying the software-owned entries into a ring owned by hardware yields the resized ring the specification asks for |
| UserCq.CopyKeepsOrder | JingZhao2/software/drivers/libhgrnic_tmp/src/cq.c:454-461 | copying n entries from cons_index to the same indices keeps them in order, and the rest of the new ring is as it was |
| UserCq.StaleMaskOverruns | JingZhao2/software/drivers/libhgrnic_tmp/src/verbs.c:309-310 | a ring of len entries polled under a larger mask nent - 1 selects slot len at cons_index len, one past its end |
| UserCq.ResizeFailureExample | JingZhao2/software/drivers/libhgrnic_tmp/src/verbs.c:309-310 | a 128-entry queue asked for 200 rounds up to 256; when the ring cannot be had, cqe_mask is left at 255 and cons_index 128 selects slot 128 |
| UserCq.CreateCq | JingZhao2/software/drivers/libhgrnic_tmp/src/verbs.c:195-291 | create_cq returns a queue exactly when the size is at most 0x20000 and every step succeeds; a failure gives back what was taken, last first; a new queue has the kernel's CQ number, a ring of the rounded-up size all owned by hardware, and holds all three resources |
| UserCq.DestroyCq | JingZhao2/software/drivers/libhgrnic_tmp/src/verbs.c:360-372 | destroy_cq returns the DESTROY_CQ status |
| UserCq.CreateDestroyBalanced | JingZhao2/software/drivers/libhgrnic_tmp/src/verbs.c:195-372 | a queue created and then destroyed holds nothing; a failed destroy keeps all three resources |
| CqSpec.NextEntry | JingZhao2/software/drivers/libhgrnic_tmp/src/cq.c:84-92 | after n entries consumed, poll_one looks at the n-th unpolled entry, or at a handed-back one once the whole ring has been consumed |
| CqSpec.ConsumeStep | JingZhao2/software/drivers/libhgrnic_tmp/src/cq.c:367-368 | consuming the next software-owned entry and handing it back extends the consumed prefix by that entry |
| UserContext.ReadSysfsFile | JingZhao2/software/drivers/libhgrnic_tmp/src/hgrnic.c:141-162 | -1 when the file cannot be opened; otherwise read's length, less one exactly when the text ends in a newline, which alone is replaced by a NUL; everything before the length is kept |
| UserContext.ReadSysfsStripsOne | JingZhao2/software/drivers/libhgrnic_tmp/src/hgrnic.c:158-159 | only one trailing newline is stripped: text ending in two keeps the first, and a result still ending in a newline came from text ending in two |
| UserContext.MatchFrom | JingZhao2/software/drivers/libhgrnic_tmp/src/hgrnic.c:184-188 | the search finds the pair exactly when some entry of hca_table from i on has that vendor and device |
| UserContext.DriverInit | JingZhao2/software/drivers/libhgrnic_tmp/src/hgrnic.c:166-209 | driver_init returns a device exactly when both sysfs reads succeed, the pair is the ICT Hangu RNIC of hca_table, the ABI version is not newer than the library's and malloc succeeds; the device carries the page size |
| UserContext.TrailingZerosOfPow2 | JingZhao2/software/drivers/libhgrnic_tmp/src/hgrnic.c:86 | ffs(x) - 1 of a power of two is its logarithm |
| UserContext.NegativeShiftBelowTable | JingZhao2/software/drivers/libhgrnic_tmp/src/hgrnic.c:86-87 | as written, the shift ffs(num_qps) - 1 - 8 of a power of two is negative exactly when num_qps is below 256; num_qps 128 gives -1 (see Findings) |
| UserContext.TableShift | JingZhao2/software/drivers/libhgrnic_tmp/src/hgrnic.c:86-87 | the corrected shift: never negative, at least the shift as written and equal to it whenever that is not negative |
| UserContext.GeometryOf | JingZhao2/software/drivers/libhgrnic_tmp/src/hgrnic.c:85-87 | for every power-of-two num_qps that fits an int, num_qps is a multiple of the 2^shift slots of a sub-table and at most 256 sub-tables are needed; from 256 on the shift is ffs(num_qps) - 1 - 8 and the 256 sub-tables cover num_qps exactly; below 256 the shift is 0 |
| UserContext.TableIndex | JingZhao2/software/drivers/libhgrnic_tmp/src/qp.c:548 | (qpn & (num_qps - 1)) >> shift is one of the 256 sub-tables |
| UserContext.IndexSplit | JingZhao2/software/drivers/libhgrnic_tmp/src/qp.c:548-551 | the sub-table and the slot are the high and low parts of qpn mod num_qps: sub-table * 2^shift + slot == qpn mod num_qps |
| UserContext.SameEntry | JingZhao2/software/drivers/libhgrnic_tmp/src/qp.c:546-553 | two QP numbers share a table slot exactly when they agree modulo num_qps |
| UserContext.Context.constructor | JingZhao2/software/drivers/libhgrnic_tmp/src/hgrnic.c:85-93 | the new context has num_qps from the kernel, the corrected shift TableShift(num_qps), which is ffs(num_qps) - 1 - 8 from 256 on, with its mask, every reference count 0, and finds no QP |
| UserContext.Context.Find | JingZhao2/software/drivers/libhgrnic_tmp/src/qp.c:546-553 | find_qp is NULL whenever qpn's sub-table has no references, and otherwise a stored QP or NULL |
| UserContext.Context.Store | JingZhao2/software/drivers/libhgrnic_tmp/src/qp.c:557-570 | store_qp returns -1, changing nothing, exactly when qpn's sub-table has no references and calloc fails; otherwise that count goes up by one, no other sub-table changes, and find_qp(qpn) is qp |
| UserContext.Context.Clear | JingZhao2/software/drivers/libhgrnic_tmp/src/qp.c:573-580 | clear_qp drops the count of qpn's sub-table by one and changes no other sub-table; find_qp(qpn) is then NULL, as is every number of a sub-table freed at count 0 |
| UserContext.AllocContext | JingZhao2/software/drivers/libhgrnic_tmp/src/hgrnic.c:68-118 | alloc_context returns a context exactly when calloc, GET_CONTEXT, the UAR mmap and the PD allocation all succeed, for every power-of-two num_qps the kernel reports, including those below 256; a new context finds no QP |
| UserQp.InitQpIndices | JingZhao2/software/drivers/libhgrnic_tmp/src/qp.c:67-80 | both queues go back to nothing posted and nothing retired, with next_ind 0 and last_comp max - 1; max_inline_data is kept |
| UserQp.WqOverflow | JingZhao2/software/drivers/libhgrnic_tmp/src/qp.c:82-97 | wq_overflow reports full exactly when head - tail + nreq, in u32 arithmetic, reaches past max |
| UserQp.OverflowAfterRings | JingZhao2/software/drivers/libhgrnic_tmp/src/qp.c:178-183 | testing a request against a head already moved on by a rung requests, with b pending, is the test for a + b requests against the queue post_send started from |
| UserQp.UserSendDoorbellFields | JingZhao2/software/drivers/libhgrnic_tmp/src/qp.c:136-138 | the high doorbell word is qpn over size0 and the low word is head scaled to 16-byte units, modulo 2^24, over f0 and op0, with no field overlapping another |
| UserQp.SendDb | JingZhao2/software/drivers/libhgrnic_tmp/src/qp.c:133-143 | hgrnic_send_db writes the doorbell words of the head before the ring, then moves head on by nreq modulo 2^32 |
| UserQp.InlineTotal | JingZhao2/software/drivers/libhgrnic_tmp/src/qp.c:272-296 | the inline size check with an exact total accepts a request exactly when its whole payload fits max_inline_data, the total then being the payload size |
| Common.Signed32 | JingZhao2/software/drivers/libhgrnic_tmp/src/qp.c:276 | a u32 read back as a C int is the value congruent to it modulo 2^32 in the int range |
| Common.IntShl1 | JingZhao2/software/drivers/ib_hgrnic/hgrnic_cmd.c:444 | 1 << n on a C int is an int, 2^n for a count up to 30 and INT_MIN for 31, with the count taken modulo 32 |
| UserQp.InlineTotalAsWritten | JingZhao2/software/drivers/libhgrnic_tmp/src/qp.c:276-286 | the inline check as written, with the int total wrapping, accepts exactly what the wrapped comparison lets through, and the total is the payload size wrapped into an int |
| UserQp.InlineWrapAccepted | JingZhao2/software/drivers/libhgrnic_tmp/src/qp.c:276-286 | with max_inline_data 1024, a payload of 1024 and 2^32 - 1024 bytes wraps to 0 and one of 2^31 bytes to a negative int; both pass the check although they exceed 1024 |
| UserQp.InlineUnits | JingZhao2/software/drivers/libhgrnic_tmp/src/qp.c:295 | the 16-byte units of an inline unit and s bytes of payload are the fewest that hold them |
| UserQp.AlignInlineUnits | JingZhao2/software/drivers/libhgrnic_tmp/src/qp.c:295 | align(s + 4, 16) / 16 is that number of units |
| UserQp.Bells | JingZhao2/software/drivers/libhgrnic_tmp/src/qp.c:178-337 | post_send rings one doorbell per batch, each with its batch's fields |
| UserQp.SentQueue | JingZhao2/software/drivers/libhgrnic_tmp/src/qp.c:305-322 | after bad requests, post_send leaves the send queue as it was except head, moved on by bad modulo 2^32, and the wr_id table |
| UserQp.CheckSend | JingZhao2/software/drivers/libhgrnic_tmp/src/qp.c:183-312 | request i's wr_id is stored exactly when the ring has room and, inline, its payload fits; it is accepted exactly when its opcode is in the opcode table too, with the descriptor size in units of its transport and gathers |
| UserQp.RingBatch | JingZhao2/software/drivers/libhgrnic_tmp/src/qp.c:178-181 | before a request that finds 255 pending, their doorbell is rung, head moves on by 255 and a new batch starts |
| UserQp.SendStep | JingZhao2/software/drivers/libhgrnic_tmp/src/qp.c:178-327 | one turn of post_send's loop keeps the loop invariant and either passes the request or stops with a status |
| UserQp.RejectSend | JingZhao2/software/drivers/libhgrnic_tmp/src/qp.c:183-312 | a rejected request stops the loop with -1 at that request, its wr_id stored when only the opcode failed |
| UserQp.AcceptSend | JingZhao2/software/drivers/libhgrnic_tmp/src/qp.c:305-322 | an accepted request stores its wr_id, joins the pending batch (setting size0, f0 and op0 as its first) and moves the slot on with wrap-around |
| UserQp.FlushBatch | JingZhao2/software/drivers/libhgrnic_tmp/src/qp.c:330-332 | the doorbell at the out label completes one doorbell per started batch, and head has then moved on by every request taken |
| UserQp.SendStart | JingZhao2/software/drivers/libhgrnic_tmp/src/qp.c:174-176 | post_send's loop starts with nothing taken, from slot head & (max - 1) |
| UserQp.SendDone | JingZhao2/software/drivers/libhgrnic_tmp/src/qp.c:176-332 | when the loop stops, every request before bad was accepted, request bad (if any) was not, the status is 0 exactly when all were taken, and the wr_id table is the specification's |
| UserQp.SendIndices | JingZhao2/software/drivers/libhgrnic_tmp/src/qp.c:152-337 | post_send returns 0 or -1, 0 exactly when every request was accepted; the requests before bad_wr were accepted and bad_wr was not; one doorbell per started batch of 255; the send queue is the specification's |
| UserQp.PostSend | JingZhao2/software/drivers/libhgrnic_tmp/src/qp.c:152-337 | post_send on a queue pair: the same, applied to its send queue, with the receive queue and max_inline_data unchanged |
| UserQp.PostSendKeepsRoom | JingZhao2/software/drivers/libhgrnic_tmp/src/qp.c:183-305 | after post_send the queue holds the requests it held plus the ones accepted, never more than max, and the i-th accepted request's id is in slot (start + i) mod max, which is (head + i) mod max on the power-of-two rings the library creates |
| UserQp.PostRecv | JingZhao2/software/drivers/libhgrnic_tmp/src/qp.c:346-412 | post_recv checks ring room, then the gather count, and stores each accepted wr_id from head & (max - 1) on; it returns -1 at the first rejection, head moving on by the number accepted, and leaves the send queue alone |
| UserQp.MaxSqSge | JingZhao2/software/drivers/libhgrnic_tmp/src/qp.c:428-431 | a send descriptor is sized for at least max_send_sge data units and for the largest inline payload with its inline unit, and is one of the two |
| UserQp.AllocQpBuf | JingZhao2/software/drivers/libhgrnic_tmp/src/qp.c:417-544 | alloc_qp_buf returns 0 exactly when both wr_id tables, the send ring and (when the receive queue has slots) the receive ring are allocated; each queue's entry-size log is the least from 7 that holds its descriptor; a failure frees everything taken |
| UserQp.TakeBuffers | JingZhao2/software/drivers/libhgrnic_tmp/src/qp.c:433-514 | the four allocations in order, the receive ring only when its size is not 0; success holds all of them, a failure holds none |
| UserQp.SqMaxGs | JingZhao2/software/drivers/libhgrnic_tmp/src/qp.c:428-431 | max_sq_sge as computed is MaxSqSge |
| UserQp.SizeQueue | JingZhao2/software/drivers/libhgrnic_tmp/src/qp.c:442-452 | one queue's entry-size log, buffer size max << log (0 exactly when max is 0), and reset indices |
| UserQp.FailedAlloc | JingZhao2/software/drivers/libhgrnic_tmp/src/qp.c:433-514 | the number of the first failing allocation is one of the four |
| UserQp.BufUnwind | JingZhao2/software/drivers/libhgrnic_tmp/src/qp.c:433-514 | every failure path of alloc_qp_buf frees exactly what it took |
| UserQp.SqBufFailureFreesInTakenOrder | JingZhao2/software/drivers/libhgrnic_tmp/src/qp.c:494-499 | the send-ring failure frees the two wr_id tables in the order they were taken; nothing leaks |
| UserQp.BufSizesFitInt | JingZhao2/software/drivers/libhgrnic_tmp/src/verbs.c:401-405 | under create_qp's limits neither buffer size alloc_qp_buf computes in an int can overflow |
| UserQp.RqMrCheckAsWritten | JingZhao2/software/drivers/libhgrnic_tmp/src/verbs.c:432-441 | the test after registering the receive region, as written, tests the send region: it unwinds exactly when that is NULL and writes through NULL when only the receive region failed |
| UserQp.RqMrFailureDereferencesNull | JingZhao2/software/drivers/libhgrnic_tmp/src/verbs.c:432-441 | with the send region registered, a failed receive registration never unwinds and always writes through NULL |
| UserQp.RqMrCheck | JingZhao2/software/drivers/libhgrnic_tmp/src/verbs.c:432-441 | the intended test unwinds exactly when the receive registration failed and never writes through NULL |
| UserQp.QpOrder | JingZhao2/software/drivers/libhgrnic_tmp/src/verbs.c:410-454 | create_qp takes six resources, five when there is no receive ring |
| UserQp.Progress | JingZhao2/software/drivers/libhgrnic_tmp/src/verbs.c:410-490 | how many resources create_qp holds when it stops: all but the table slot exactly when every step up to CREATE_QP succeeded |
| UserQp.CreateQp | JingZhao2/software/drivers/libhgrnic_tmp/src/verbs.c:392-495 | create_qp returns a QP exactly when the limits hold and every step succeeds; a failure gives back what was taken, last first, and leaves the table alone; a new QP is stored under its number with queues sized for the capabilities and max_inline_data |
| UserQp.StoreQp | JingZhao2/software/drivers/libhgrnic_tmp/src/verbs.c:450-467 | store_qp stores the new QP under its number unless the table page cannot be had, and then everything taken before is given back |
| UserQp.ModifyQp | JingZhao2/software/drivers/libhgrnic_tmp/src/verbs.c:506-526 | modify_qp returns the command's result; a move to RESET removes the QP's completions from its receive CQ and, if distinct, its send CQ, and resets both queues' indices; otherwise nothing changes |
| UserVerbs.FwSplit | JingZhao2/software/drivers/libhgrnic_tmp/src/verbs.c:76-78 | major, minor and sub-minor are the three 16-bit fields at bits 47:32, 31:16 and 15:0 |
| UserVerbs.FwSplitInvertsFwVer | JingZhao2/software/drivers/libhgrnic_tmp/src/verbs.c:76-78 | splitting a version the driver packed from three 16-bit parts gives back those parts |
| UserVerbs.FwVerOfSplit | JingZhao2/software/drivers/libhgrnic_tmp/src/verbs.c:76-78 | packing the three fields read from any raw version gives back its low 48 bits |
| UserVerbs.RoundUpPow2Is | JingZhao2/software/drivers/libhgrnic_tmp/src/verbs.c:189-190 | the smallest power of two of at least x is 2^k when 2^k covers x and 2^(k-1) does not |
| UserVerbs.CqSize | JingZhao2/software/drivers/libhgrnic_tmp/src/verbs.c:185-193 | align_cq_size gives a power of two of at least cqe and at least 1, less than 2 * cqe unless it is 1 |
| UserVerbs.AlignCqSize | JingZhao2/software/drivers/libhgrnic_tmp/src/verbs.c:185-193 | the doubling loop of align_cq_size computes CqSize |
| UserVerbs.QueueSize | JingZhao2/software/drivers/libhgrnic_tmp/src/verbs.c:375-390 | align_queue_size is 0 exactly for a zero-sized queue, else a power of two of at least size + spare, less than twice it unless it is 1 |
| UserVerbs.AlignQueueSize | JingZhao2/software/drivers/libhgrnic_tmp/src/verbs.c:375-390 | the doubling loop of align_queue_size computes QueueSize |
| Wq.Reset | JingZhao2/software/drivers/ib_hgrnic/hgrnic_qp.c:142-148 | a reset queue has head = tail = next_ind = 0 and nothing outstanding, keeps its size, gather limit, entry size and wr_id table, and is consistent for any power-of-two size below 2^32 |
| Wq.Outstanding | JingZhao2/software/drivers/ib_hgrnic/hgrnic_qp.c:939 | head - tail in u32 arithmetic is the count that added to tail gives head modulo 2^32 |
| Wq.OverflowExact | JingZhao2/software/drivers/ib_hgrnic/hgrnic_qp.c:933-950 | with k requests outstanding (k <= max) the overflow test fires exactly when k + nreq >= max, however far head and tail have wrapped |
| Wq.WqeIndex | JingZhao2/software/drivers/ib_hgrnic/hgrnic_cq.c:378-382 | wqe >> entry_sz_log is the slot whose byte range holds offset wqe |
| Wq.Complete | JingZhao2/software/drivers/ib_hgrnic/hgrnic_cq.c:385-395 | a completion changes only tail and last_cpl, leaves tail a u32 and records idx as the last completed slot |
| Wq.CompleteKeepsSynced | JingZhao2/software/drivers/ib_hgrnic/hgrnic_cq.c:385-395 | a completion at a slot inside the queue retires between 1 and max requests, moves tail by exactly that many modulo 2^32, leaves head alone and keeps head, tail and last_cpl consistent |
| Wq.Qp.constructor | JingZhao2/software/drivers/ib_hgrnic/hgrnic_provider.h:181-205 | a QP's number, queues and inline limit are the ones given |
| Wqe.SetRaddrUnit | JingZhao2/software/drivers/ib_hgrnic/hgrnic_wqe.h:66-72 | the remote-address unit always has its reserved word zero |
| Wqe.AtomicSegReads | JingZhao2/software/drivers/ib_hgrnic/hgrnic_wqe.h:74-84 | the atomic unit reads back as (swap, compare) for compare-and-swap and as (add value, 0) for fetch-and-add, each an eight-byte big-endian word |
| Wqe.ImageReads | JingZhao2/software/drivers/ib_hgrnic/hgrnic_wqe.h:78-82 | cpu_to_be64 of a 64-bit value reads back as that value |
| Wqe.SetUdUnit | JingZhao2/software/drivers/ib_hgrnic/hgrnic_wqe.h:86-95 | the UD unit's LID fields fit in 16 bits and its MAC-high fields in 32 bits |
| Wqe.LidSplit | JingZhao2/software/drivers/ib_hgrnic/hgrnic_wqe.h:91-94 | the low 16 bits and the next 32 bits of a LID put back together give its low 48 bits |
| Wqe.UdUnitKeepsLids | JingZhao2/software/drivers/ib_hgrnic/hgrnic_wqe.h:86-95 | for LIDs below 2^48 the UD unit carries both source and destination LID whole |
| Wqe.DataUnitInval | JingZhao2/software/drivers/ib_hgrnic/hgrnic_wqe.h:130-135 | the end-of-list unit carries lkey HGRNIC_INVAL_LKEY (0x100) |
| Wqe.InvalIsEmptyEntry | JingZhao2/software/drivers/ib_hgrnic/hgrnic_wqe.h:122-135 | the end marker is exactly the data unit of an empty entry at address 0 with lkey 0x100, and no other scatter entry produces it |
| Wqe.InlineLengthSpec | JingZhao2/software/drivers/ib_hgrnic/hgrnic_wqe.h:114-120 | (1 << 31) \| length sets the inline flag in bit 31 and keeps a length below 2^31 whole under it |
| Wqe.SendDoorbellFields | JingZhao2/software/drivers/ib_hgrnic/hgrnic_wqe.h:97-104 | the send doorbell's high word is qpn over size0 and its low word is (head mod 2^16) over the fence bit and opcode, each decoding back into its parts |
| Wqe.HiWord | JingZhao2/software/drivers/ib_hgrnic/hgrnic_wqe.h:102 | (qpn << 8) \| size0 in 32 bits is qpn * 256 + size0 and splits back into both |
| Wqe.LoWord | JingZhao2/software/drivers/ib_hgrnic/hgrnic_wqe.h:103 | ((head & 0xffff) << 8) \| f0 \| op0 in 32 bits is head * 256 + f0 + op0 and splits back |
| Cq.Cq.CleanQp | JingZhao2/software/drivers/ib_hgrnic/hgrnic_cq.c:159-203 | cq_clean removes the QP's completions among the software-owned entries from cons_index, keeps the others in order and moves cons_index past the slots handed back; the ring, its mask, the resize record and the reference count stay |
| Cmd.AddPage | JingZhao2/software/drivers/ib_hgrnic/hgrnic_cmd.c:814-836 | one page of MAP_ICM's inner loop adds its entry to those sent or pending; when the mailbox fills it is sent, and a failure returns that command's status with the full mailbox as the last one sent |
| Allocator.NextTop | JingZhao2/software/drivers/ib_hgrnic/hgrnic_allocator.c:27 | the generation prefix after a wrap is (top + max) in u32 arithmetic, masked, and stays within the mask |
| CqSpec.TailDelta | JingZhao2/software/drivers/ib_hgrnic/hgrnic_cq.c:390-393 | the two branches of the tail update both add the distance from last_cpl to the new index going round the queue, between 1 and max |
| CqSpec.KeepCount | JingZhao2/software/drivers/ib_hgrnic/hgrnic_cq.c:187-194 | the entries kept and the entries removed by compaction add up to the window swept |
| Common.RoundUpPow2 | JingZhao2/software/drivers/ib_hgrnic/hgrnic_provider.c:375 | roundup_pow_of_two gives a power of two of at least x, below 2x for x at least 1 |
| Common.RoundUpPow2Least | JingZhao2/software/drivers/ib_hgrnic/hgrnic_provider.c:375 | it is the least power of two covering x |

## Left out

- MMIO and timing: register reads and writes, write barriers and the go-bit busy wait are not modelled. The HCR is a record, and whether the firmware took a command is an outcome passed in. Doorbell words are computed but not written anywhere.
- Concurrency: spinlocks, mutexes, poll_sem, the wait_event drains in free_cq and free_qp, and the CQ lock ordering of the QP paths are left out. Every operation is atomic, so the second ring-full test of wq_overflow under the CQ lock sees the same values as the first.
- PCI bring-up and teardown: probe, remove, module parameters, BAR and DMA-mask checks, sysfs attributes and ib_core registration are platform glue with no bookkeeping of their own.
- Memory and DMA: page and chunk allocation, dma_alloc_coherent, pci_map_sg, kmalloc, malloc and calloc, mailboxes and hgrnic_alloc_buf become success flags or functions from an attempt number to an outcome. Addresses are abstract numbers.
- Foreign calls: ib_modify_qp_is_ok, ib_umem_*, the ibv_cmd_* commands, the rdma_ah_* helpers and ib_copy_*_udata are parameters that give their result.
- Debug output: printk, hgrnic_dump, the fprintf diagnostics and the commented-out dumps are left out.
- Descriptor memory: get_wqe, the inline memcpy, the pointer step of hgrnic_set_inline_unit and the next-unit chaining between descriptors that the post loops write through sq.last, rq.last and prev_wqe are left out. The unit setters are modelled as records, and the post loops are modelled on their indices, doorbells and wr_id tables.
- The kernel's descriptor initialisation loops in hgrnic_alloc_qp (hgrnic_qp.c:680-699) write only descriptor memory, so they are left out.
- QP context fields: modify_qp is modelled on its checks, its opcode choice and the attributes it caches in struct hgrnic_qp. The other fields of the QP context mailbox are not modelled.
- query_qp, the kernel's verbs-level destroy_qp glue, hgrnic_cleanup_qp_table and hgrnic_cleanup_cq_table only forward to modelled operations or free memory, so they are left out.
- hgrnic_eq.c maps one page through the DMA API. The MAP_ICM_page mailbox it uses is modelled.
- hgrnic_register.c is a global pointer with an early return, and srq.c holds only stubs. Both are left out.
- Signalled and solicited flags of work requests are left out. So are the contents of the data units beyond the fields the unit setters write.
- Cq.Cq: cons_index is an unbounded natural number, not a u32. The ring size divides 2^32, so the slot a masked u32 index selects is the same.
- IcmSpec.ICM_CHUNK_LEN: HGRNIC_ICM_CHUNK_LEN is taken with the x86_64 sizes of a list head, two ints and a scatterlist entry, which gives 7.
- Buddy.BuddyAllocator: bits past the meaningful width of a level read as clear. The source zeroes whole words of each bitmap, so they are clear there too.
- CmdSpec.DecodeDevLim: max_qp_sz, max_cq_sz and min_page_sz (hgrnic_cmd.c:436, 440, 508) are kept as the unbounded 2^size. The C int holds that value only for a size of at most 30, so the limits dev_lim derives from them match the source only for those sizes.
- Allocator.AllocInit: a size of 0 is rejected with -EINVAL. In the source, ffs(0) - 1 is a shift by -1, which C leaves undefined.
- Allocator.LookupArray.Clear: requires the index's page to be in use. With no page, the source decrements used and writes through a NULL page.
- Mr.AllocMttRange: the ICM registration of the MTT range is a success flag. The ICM table itself is modelled in Icm.
- QpLife.FreeQp: the mailbox of the final 2RST command is not checked, and the command's result is ignored as in the source. The model records only whether the command was issued (resetIssued).
- The kernel's user CQ ring lives in user memory. Cq.InitCqSteps and Provider.ResizeCqStart stand in a ring of the right size, every entry owned by hardware.
- Profile.MakeProfile: the requested counts of Profile.Request are natural numbers. hgrnic_validate_profile can leave INT_MIN in a count (Device.CheckProfileVal, for a module parameter above 2^30). make_profile then takes ffs(INT_MIN) - 1 = 31 as the log and multiplies the u64 size by the count converted to u64, which wraps (hgrnic_icm.c:469-479). Such a region is 2^64 less the entry size times 2^31, so the total-size test (hgrnic_icm.c:497-510) refuses the profile with -ENOMEM unless the context memory is that large. The model does not follow this path.
- CqRing.CopyCqes, UserCq.UserCq.Reallocate, UserCq.UserCq.ResizeCqAsWritten, UserCq.UserCq.ResizeCq and Provider.ResizeCqFinish require that some entry of the old ring is owned by hardware when the copy runs. The copy loops of resize_copy_cqes (hgrnic_cq.c:214, and cq.c:454-461 of the library) stop only at such an entry; with a ring entirely owned by software they never end. That the device never leaves every entry of the ring owned by software is an assumption about the hardware, which the model states as a precondition and does not prove.
- Where Findings names a corrected member, the rest of the model uses the corrected code; the code as written is modelled beside it.

## Findings

| source | as written | input that shows it | evidently intended | confidence | as-written member | corrected member |
|---|---|---|---|---|---|---|
| JingZhao2/software/drivers/ib_hgrnic/hgrnic_mr.c:291 | each WRITE_MTT carries list_len, the entries still to write, as its count, even when the mailbox holds only 508 | a 512-entry list gives commands with counts 512 and 4; the first mailbox holds 508 entries and the counts add up to 516 | each command counts the entries its mailbox holds (min(list_len, 508)), and these add up to the list | not executed | Mr.WriteMttOvercounts | Mr.WriteMttDelivers |
| JingZhao2/software/drivers/ib_hgrnic/hgrnic_cq.c:588-643 | when the mailbox or the table slot cannot be had, init_cq tears everything down and jumps to the exit with err still 0 from the step before | the ICM registration succeeds, the mailbox allocation fails and the rest would succeed: init_cq returns 0 and no queue exists | -ENOMEM for those two failures, so that 0 means the queue exists | not executed | Cq.InitCqReportsTornDown | Cq.InitCqErrReports |
| JingZhao2/software/drivers/libhgrnic_tmp/src/verbs.c:309-310 | resize_cq sets cqe_mask to the new size minus one before the ring, its memory region and RESIZE_CQ are tried, and no failure restores it | a 128-entry queue resized to 200 rounds up to 256; when the new ring cannot be had, cqe_mask stays 255, and at cons_index 128 poll_one reads slot 128 of a 128-entry ring | cqe_mask changes only together with the ring | not executed | UserCq.StaleMaskOverruns | UserCq.UserCq.ResizeCq |
| JingZhao2/software/drivers/libhgrnic_tmp/src/hgrnic.c:86-87 | qp_table_shift = ffs(num_qps) - 1 - 8 with no lower bound, then qp_table_mask = (1 << qp_table_shift) - 1 | the kernel reports limits.num_qps (hgrnic_provider.c:298), a power of two below 256 when the num_qp module parameter is, e.g. 128: the shift is -1 and the mask a shift by a negative count | shift 0 below 256, so that 256 sub-tables of one slot cover num_qps | not executed | UserContext.NegativeShiftBelowTable | UserContext.TableShift |
| JingZhao2/software/drivers/libhgrnic_tmp/src/qp.c:276-286 | the inline size check adds each u32 length into an int total and compares it with max_inline_data, so the total can wrap | with max_inline_data 1024, lengths 1024 and 0xFFFFFC00 sum to 0 in the int and pass; so does one length of 2^31, which is a negative int | a request is accepted only when its whole payload fits max_inline_data | not executed | UserQp.InlineWrapAccepted | UserQp.InlineTotal |
| JingZhao2/software/drivers/libhgrnic_tmp/src/verbs.c:432-441 | after registering the receive queue's region, create_qp tests the send queue's region (qp->sq.mr) and then writes through qp->rq.mr | the send region registered and the receive registration failing: the test passes and qp->rq.mr->context is written through NULL | test qp->rq.mr and unwind through err_sq_mr_unreg | not executed | UserQp.RqMrFailureDereferencesNull | UserQp.RqMrCheck |
| JingZhao2/software/drivers/ib_hgrnic/hgrnic_qp.c:428-432 | modify_qp caches attr->min_rnr_timer << 24 in the u8 min_rnr_timer field of struct hgrnic_qp (hgrnic_provider.h:198), which keeps only the low eight bits (all zero) | min_rnr_timer 12 is cached as 0, and the RNR context word is the expected PSN alone | the timer reaches bits 31:24 of the context word above the 24-bit PSN | not executed | QpLife.RnrTimerLost | QpLife.RnrWordFields |
