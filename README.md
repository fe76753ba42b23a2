# pKVM EL2 memory core, modelled in Dafny

This project models the memory core of the protected-KVM hypervisor (pKVM) that runs at EL2 on arm64. It also states and proves what that core promises.

- **`page_alloc.dfy`**: the EL2 buddy page allocator of `nvhe/page_alloc.c`. A pool is a class with:
  - its physical range;
  - its twelve free lists;
  - its array of page descriptors (the vmemmap part for the pool).

  A ghost partition of the pool into page groups carries the allocator invariant that the source states in prose. The invariant says:
  - every page belongs to exactly one aligned group of 2^order pages;
  - free groups are on the list of their order and have no references;
  - the lists hold no repetition;
  - free groups are maximally coalesced.

  Attaching (with coalescing), extracting (with splitting), allocating, put/get of references and pool initialisation keep this invariant. Each says exactly which pages change from allocated to free or back, and how each free list changes: entries leave in place, and groups join at the tail.
- **`early_alloc.dfy`**: the bump allocator of `nvhe/early_alloc.c` used before the buddy allocator exists.
- **`mm_sizes.dfy`** and **`reserved_mem.dfy`**: the page-table size estimates of `nvhe/mm.h`, and the boot-time reservation of `reserved_mem.c`. The reservation covers:
  - registering memory regions;
  - sorting them;
  - the fixed-point computation of the vmemmap size.
- **`mm.dfy`**: the EL2 stage-1 mapping helpers of `nvhe/mm.c`, which are:
  - page-by-page mappings;
  - private (IO) mappings;
  - vmemmap backing;
  - the idmap and the placement of the IO/vmemmap quarter of the VA space.
- **`mem_protect.dfy`**: the host stage-2 fault path of `nvhe/mem_protect.c`, which covers:
  - the binary search over the memory regions;
  - the choice of pool;
  - the retry after unmapping all device space;
  - the abort handler;
  - the pool preparation.
- **`pgtable_walk.dfy`**, **`check_mappings.dfy`** and **`check_maplets.dfy`**: the page-table checker of `nvhe/check-pkvm-pgtables.c`. It consists of:
  - the descriptor classification;
  - the simplified Armv8-A translation-table walk;
  - the record of intended mappings;
  - the forward and reverse inclusion checks;
  - the "maplet" interpretations of both sides and their comparison.

  The main results are:
  - a page-table listing proved to agree with the walk;
  - the proof that passing both inclusion checks means that the page tables translate exactly the recorded pages;
  - the same for passing the maplet comparison, provided neither interpretation reported a failure. `CheckHypMappings` returns the comparison alone, as the source does, so it can return true after a failed interpretation (a block entry, or a full maplet table).

Calls into code outside the core are parameters:
- `kvm_pgtable_hyp_map`, `kvm_pgtable_stage2_map` and `kvm_pgtable_stage2_unmap` are oracle functions from the log of earlier calls and the new call to a return code. Each class logs its calls in a sequence field.
- `hyp_virt_to_phys` and `hyp_phys_to_virt` are function parameters of the mapping helpers and the checker. The page allocator works on physical addresses only (see "Left out").
- Page-table memory is a function from byte address to 64-bit word.

`Bits` holds the C integer arithmetic the model writes out: u32 shifts, u64 wrap-around, page alignment, and XOR on naturals. `Sorting` is an insertion sort by key that stands in for the kernel's `sort`.

## Model

| member | source | states |
|---|---|---|
| PageAlloc.BuddySymmetric | arch/arm64/kvm/hyp/nvhe/page_alloc.c:147-157 | The buddy of the buddy is the page itself. The buddy differs in exactly bit `order` of the page frame number, so it lies 2^order pages before or after. |
| PageAlloc.BuddyPfnBuddy | arch/arm64/kvm/hyp/nvhe/page_alloc.c:147-157 | Flipping bit `order` is an involution. It toggles that bit and preserves alignment to 2^order. |
| PageAlloc.BuddyAddress | arch/arm64/kvm/hyp/nvhe/page_alloc.c:150-152 | `addr ^ (PAGE_SIZE << order)` on a page address is the buddy's page frame number times PAGE_SIZE. |
| PageAlloc.Remove | arch/arm64/kvm/hyp/nvhe/page_alloc.c:178 | `list_del_init`: the list afterwards holds exactly the old members other than the removed one. It keeps a list without repetition free of repetition. |
| PageAlloc.MergeStep | arch/arm64/kvm/hyp/nvhe/page_alloc.c:171-181 | One coalescing round unlinks the free buddy and makes the lower of the two the head of a group one order larger. The allocator invariant is kept. The set of free pages is unchanged, and no page outside the two groups changes. |
| PageAlloc.SplitStep | arch/arm64/kvm/hyp/nvhe/page_alloc.c:234-239 | One split halves the group and links its upper half on the list of the lower order. The invariant is kept, and the upper half becomes free. |
| PageAlloc.SplitBuddy | arch/arm64/kvm/hyp/nvhe/page_alloc.c:235-237 | At a split, `__find_buddy` finds the upper half of the group, which lies inside the pool. |
| PageAlloc.RefcountStep | arch/arm64/kvm/hyp/nvhe/page_alloc.c:201-205 | Changing the reference count of an allocated group head keeps the invariant and the set of free pages. |
| PageAlloc.FreeRefcount | arch/arm64/kvm/hyp/nvhe/page_alloc.c:79 | Every page of a free group has reference count 0. |
| PageAlloc.AllocatedHead | arch/arm64/kvm/hyp/nvhe/page_alloc.c:77 | A page with references heads an allocated group: it is on no list and has an order. |
| PageAlloc.InitialInv | arch/arm64/kvm/hyp/nvhe/page_alloc.c:307-320 | Zeroed descriptors with empty free lists satisfy the invariant, with no free page. |
| PageAlloc.AttachBegin | arch/arm64/kvm/hyp/nvhe/page_alloc.c:167-170 | Starting `__hyp_attach_page` (clearing the order) establishes the coalescing loop invariant. |
| PageAlloc.AttachMerge | arch/arm64/kvm/hyp/nvhe/page_alloc.c:173-180 | One merge round preserves the coalescing loop invariant. |
| PageAlloc.AttachEnd | arch/arm64/kvm/hyp/nvhe/page_alloc.c:183-184 | Linking the merged group on its list restores the allocator invariant. It leaves the old free pages plus the attached group free. |
| PageAlloc.BuddyLookup | arch/arm64/kvm/hyp/nvhe/page_alloc.c:173-175 | The buddy test succeeds exactly when the buddy is in range, linked and of the same order. |
| PageAlloc.ExtractBegin | arch/arm64/kvm/hyp/nvhe/page_alloc.c:228-231 | Unlinking the chosen head keeps the invariant and starts the split loop invariant. |
| PageAlloc.ExtractSplit | arch/arm64/kvm/hyp/nvhe/page_alloc.c:234-239 | One split round preserves the split loop invariant. |
| PageAlloc.ExtractEnd | arch/arm64/kvm/hyp/nvhe/page_alloc.c:241 | Setting the reference count to 1 completes the extraction. Exactly the extracted group stops being free. |
| PageAlloc.FirstFit | arch/arm64/kvm/hyp/nvhe/page_alloc.c:262-266 | The search returns the lowest order at or above the request whose free list is non-empty. Every list it skips is empty. |
| PageAlloc.RangeEndAsWritten | arch/arm64/kvm/hyp/nvhe/page_alloc.c:310 | `phys + (nr_pages << PAGE_SHIFT)` with the shift on an unsigned int. It agrees with `phys + nr_pages * PAGE_SIZE` only below 4 GiB. |
| PageAlloc.RangeEndWraps | arch/arm64/kvm/hyp/nvhe/page_alloc.c:310 | For 2^20 pages (4 GiB), the range end as written equals the range start: the pool range is empty. |
| PageAlloc.HypPool.FindBuddy | arch/arm64/kvm/hyp/nvhe/page_alloc.c:147-157 | `__find_buddy` gives the page index of the XOR buddy exactly when the buddy's address lies in [range_start, range_end), and NULL otherwise. |
| PageAlloc.HypPool.AvailableBuddy | arch/arm64/kvm/hyp/nvhe/page_alloc.c:173-175 | The loop test returns the buddy exactly when the buddy is a free group of the same order. |
| PageAlloc.HypPool.MergeBuddy | arch/arm64/kvm/hyp/nvhe/page_alloc.c:173-180 | One coalescing round: the free buddy, which is on the list of the current order and on no other, is taken off that list with the other entries kept in order. The coalescing loop invariant is kept. |
| PageAlloc.HypPool.LinkGroup | arch/arm64/kvm/hyp/nvhe/page_alloc.c:183-184 | The merged group is added at the tail of the list of its final order, and no other list changes. The invariant is restored, with the old free pages plus the attached group free. |
| PageAlloc.HypPool.AttachPage | arch/arm64/kvm/hyp/nvhe/page_alloc.c:164-185 | Returning the group at `p` to the allocator keeps the invariant. The pages free afterwards are the old free pages plus the group, and every page that is not free is unchanged. The lists are the old lists with the merged buddies removed, every other entry in its old place, and the merged group at the tail of the list of its order. |
| PageAlloc.MergeLists | arch/arm64/kvm/hyp/nvhe/page_alloc.c:178 | Taking the free buddy off its list is dropping one more entry from the lists as they were before the attach, order kept. |
| PageAlloc.DropAllNothing | arch/arm64/kvm/hyp/nvhe/page_alloc.c:167-171 | Before the first coalescing round, no list has lost an entry. |
| PageAlloc.RelinkEnd | arch/arm64/kvm/hyp/nvhe/page_alloc.c:184 | Appending the merged group to the lists without the merged buddies gives the lists after the attach. |
| PageAlloc.DropOneMore | arch/arm64/kvm/hyp/nvhe/page_alloc.c:178 | Dropping one more entry from a list is `list_del_init` of that entry. |
| PageAlloc.RemoveAbsent | arch/arm64/kvm/hyp/nvhe/page_alloc.c:178 | Removing an entry that is not on the list leaves the list as it was. |
| PageAlloc.RemoveHead | arch/arm64/kvm/hyp/nvhe/page_alloc.c:269-270 | Removing the first entry of a list without repetition leaves the rest of the list, in order. |
| PageAlloc.SplitListsMeaning | arch/arm64/kvm/hyp/nvhe/page_alloc.c:231-239 | After taking p off list k and splitting down to the requested order, list k has lost p. Each list of an order from the requested one up to k-1 has the upper half `p + 2^o` added at its tail. Every other list is as it was. |
| PageAlloc.Drop | arch/arm64/kvm/hyp/nvhe/page_alloc.c:178 | A list with some entries taken off holds exactly the other entries. |
| PageAlloc.SplitListsHead | arch/arm64/kvm/hyp/nvhe/page_alloc.c:269-270 | When the extracted page is the first entry of list k, that list keeps the rest of its entries in order. |
| PageAlloc.SplitListsBegin | arch/arm64/kvm/hyp/nvhe/page_alloc.c:231 | Taking the page off list k is the start of the splitting, with no upper half linked yet. |
| PageAlloc.SplitListsStep | arch/arm64/kvm/hyp/nvhe/page_alloc.c:234-239 | One split adds the upper half at the tail of the next lower list, which no earlier split touched. |
| PageAlloc.HypPool.SplitOff | arch/arm64/kvm/hyp/nvhe/page_alloc.c:234-239 | One split lowers the page's order by one. The upper half goes at the tail of the list of the new order, and no other list changes. The invariant and the split loop invariant are kept. |
| PageAlloc.HypPool.SplitDown | arch/arm64/kvm/hyp/nvhe/page_alloc.c:233-239 | The splitting loop ends at the requested order. The upper half of each split is at the tail of the list of its order. |
| PageAlloc.HypPool.ExtractPage | arch/arm64/kvm/hyp/nvhe/page_alloc.c:222-244 | Returns NULL, changing nothing, when the page has no order or too small an order. Otherwise the page becomes an unlinked head of the requested order with reference count 1. Exactly its group leaves the free pages, and the invariant is kept. The page leaves list k, the old order. For each order o from the requested one up to k-1, the upper half `p + 2^o` is added at the tail of list o. Every other list is unchanged. |
| PageAlloc.HypPool.ClearPage | arch/arm64/kvm/hyp/nvhe/page_alloc.c:247-253 | Exactly the 2^order pages of the group are added to the zeroed pages. |
| PageAlloc.HypPool.AllocPages | arch/arm64/kvm/hyp/nvhe/page_alloc.c:256-288 | Returns NULL, changing nothing, exactly when no list at or above the order is non-empty. Otherwise it returns the page address of the first entry of the lowest such list, extracted at the requested order with reference count 1. The group is zeroed when `HYP_GFP_ZERO` is set, and the invariant is kept. That list loses its first entry, the split-off halves go at the tails of the lower lists, and every other list is unchanged. |
| PageAlloc.HypPool.AllocFrom | arch/arm64/kvm/hyp/nvhe/page_alloc.c:269-275 | Extracting the first page of a non-empty list of sufficient order returns its address. The list keeps the rest of its entries in order, and the split-off halves go at the tails of the lower lists. The group is zeroed under `HYP_GFP_ZERO`. |
| PageAlloc.HypPool.PutPage | arch/arm64/kvm/hyp/nvhe/page_alloc.c:195-207 | Panics, changing nothing, exactly when the reference count is 0. Otherwise the count drops by one. When it reaches 0 the group is attached: it becomes free and everything else is kept. The lists are then the old lists with the merged buddies removed, order kept, and the merged group at the tail of its list. |
| PageAlloc.HypPool.GetPage | arch/arm64/kvm/hyp/nvhe/page_alloc.c:211-219 | Only the page's reference count changes, up by one. The free pages are unchanged. |
| PageAlloc.HypPool.CheckAllocInvariant | arch/arm64/kvm/hyp/nvhe/page_alloc.c:98-115 | The result is true iff every descriptor belongs to this pool and has `HYP_NO_ORDER` or an order at most `HYP_MAX_ORDER`. A pool satisfying the invariant always passes. |
| PageAlloc.HypPool.NewDescriptors | arch/arm64/kvm/hyp/nvhe/page_alloc.c:314-320 | `nr_pages` zeroed descriptors owned by this pool. |
| PageAlloc.HypPool.AttachUnused | arch/arm64/kvm/hyp/nvhe/page_alloc.c:322-325 | Attaching pages `used_pages..nr_pages-1` one by one makes exactly those pages free. It keeps the invariant and leaves the used pages as zeroed descriptors. |
| PageAlloc.HypPool.Init | arch/arm64/kvm/hyp/nvhe/page_alloc.c:296-331 | Returns -EINVAL, changing nothing, for a misaligned `phys`. Otherwise it returns 0 with the pool over `[phys, phys + nr_pages * PAGE_SIZE)`, satisfying the invariant, with exactly the pages from `used_pages` free. |
| EarlyAlloc.Allocator.NrPages | arch/arm64/kvm/hyp/nvhe/early_alloc.c:18-21 | The number of pages handed out: times PAGE_SIZE it is `cur - base`. |
| EarlyAlloc.Allocator.Init | arch/arm64/kvm/hyp/nvhe/early_alloc.c:51-60 | The allocator covers `[virt, virt + size)`, with nothing handed out. |
| EarlyAlloc.Allocator.ClearPages | arch/arm64/kvm/hyp/nvhe/early_alloc.c:38-41 | Exactly the `nr_pages` pages from `start` are cleared. |
| EarlyAlloc.Allocator.Contig | arch/arm64/kvm/hyp/nvhe/early_alloc.c:25-44 | Returns NULL, changing nothing, iff `nr_pages` is 0 or the request passes `end`. Otherwise it returns the old `cur`, advances `cur` by `nr_pages` pages and clears exactly those pages. The allocator stays within `[base, end]` (corrected shift, see Findings). |
| EarlyAlloc.Allocator.Page | arch/arm64/kvm/hyp/nvhe/early_alloc.c:46-49 | The same as a one-page contig. It returns NULL, changing nothing, when no page is left. Otherwise it returns the old `cur` and advances `cur` by one page. The handed-out count grows by one, and exactly the page at the old `cur` is cleared. |
| EarlyAlloc.Allocator.ContigAsWritten | arch/arm64/kvm/hyp/nvhe/early_alloc.c:25-44 | The allocation with `cur` advanced by the 32-bit `nr_pages << PAGE_SHIFT`. |
| EarlyAlloc.ShiftWrapsAt4GiB | arch/arm64/kvm/hyp/nvhe/early_alloc.c:32 | A request for 2^20 pages advances `cur` by 0. |
| EarlyAlloc.AsWrittenRangesOverlap | arch/arm64/kvm/hyp/nvhe/early_alloc.c:25-44 | As written, two requests for 2^20 pages from a 1 MiB allocator both succeed, return the same address and run past the end. |
| EarlyAlloc.ContigRangesAdjacent | arch/arm64/kvm/hyp/nvhe/early_alloc.c:25-44 | Two successful allocations are adjacent and their pages are disjoint. |
| EarlyAlloc.PagesFromNext | arch/arm64/kvm/hyp/nvhe/early_alloc.c:38-41 | Clearing one more page adds exactly the next page address. |
| ReservedMem.CmpHypMemblock | arch/arm64/kvm/hyp/reserved_mem.c:37-43 | Negative, zero or positive exactly as the first region starts below, at or above the second. |
| ReservedMem.VmemmapStepMonotone | arch/arm64/kvm/hyp/reserved_mem.c:82-84 | The loop step is monotone in the previous page count. |
| ReservedMem.VmemmapStepBounded | arch/arm64/kvm/hyp/reserved_mem.c:82-84 | The loop step is at most `m + 7` when its argument is, so the iteration is bounded. |
| ReservedMem.VmemmapPages | arch/arm64/kvm/hyp/reserved_mem.c:79-85 | The do-while loop stops at the least fixed point of the step from 0. That is the fewest pages that back the vmemmap of the memory plus themselves, including their page tables. |
| ReservedMem.GrowReservation | arch/arm64/kvm/hyp/reserved_mem.c:71-86 | `hyp_mem_size` grows by NR_CPUS pages, the stage-1 table size and the fixed-point page count. |
| ReservedMem.SortKeepsFit | arch/arm64/kvm/hyp/reserved_mem.c:45-52 | Sorting the regions keeps each region's bounds within u64. |
| ReservedMem.Memblocks.AddMemory | arch/arm64/kvm/hyp/reserved_mem.c:19-35 | With the table full, or already failed, the count becomes -1 (sticky) and -ENOMEM is returned. Otherwise `[base, base+size mod 2^64)` is appended and 0 is returned. |
| ReservedMem.Memblocks.SortRegions | arch/arm64/kvm/hyp/reserved_mem.c:45-52 | The first `nr` regions are replaced by their sort by start. The rest are unchanged. |
| ReservedMem.Memblocks.Reserve | arch/arm64/kvm/hyp/reserved_mem.c:54-86 | Nothing happens outside protected mode or with no regions. Otherwise the regions are sorted by start and `hyp_mem_size` grows by the NR_CPUS pages, the stage-1 estimate and the least-fixed-point vmemmap pages. |
| MmSizes.VmemmapRange | arch/arm64/kvm/hyp/include/nvhe/mm.h:30-40 | The start is the page below the first descriptor. Barring u64 overflow, the end is the least page boundary at or above the end of the descriptors. |
| MmSizes.HypPgtableMaxPages | arch/arm64/kvm/hyp/include/nvhe/mm.h:42-53 | The four-level loop computes the sum, over four levels, of the repeated `DIV_ROUND_UP(·, 512)`. |
| MmSizes.TablesSumFour | arch/arm64/kvm/hyp/include/nvhe/mm.h:47-50 | The four loop terms add up to the closed form. |
| MmSizes.MaxPagesAtLeastFour | arch/arm64/kvm/hyp/include/nvhe/mm.h:46-50 | Any non-empty range needs at least one table page per level, four in all. |
| MmSizes.MaxPagesZero | arch/arm64/kvm/hyp/include/nvhe/mm.h:42-53 | No pages need no table pages. |
| MmSizes.MaxPagesMonotone | arch/arm64/kvm/hyp/include/nvhe/mm.h:42-53 | More pages never need fewer table pages. |
| MmSizes.MaxPagesBound | arch/arm64/kvm/hyp/include/nvhe/mm.h:42-53 | The estimate is at most four times the leaf-table count and at most `nr_pages + 4`. |
| MmSizes.MaxPagesOneGiB | arch/arm64/kvm/hyp/include/nvhe/mm.h:80-82 | 1 GiB of private mappings needs 515 table pages. |
| MmSizes.TablesMonotone | arch/arm64/kvm/hyp/include/nvhe/mm.h:47-50 | Each level's table count is monotone in the page count. |
| MmSizes.TablesPositive | arch/arm64/kvm/hyp/include/nvhe/mm.h:47-50 | Each level of a non-empty range needs at least one table. |
| MmSizes.TablesShrink | arch/arm64/kvm/hyp/include/nvhe/mm.h:47-50 | Higher levels never need more tables than the leaf level. |
| MmSizes.DivRoundUpMonotone | arch/arm64/kvm/hyp/include/nvhe/mm.h:48 | `DIV_ROUND_UP(·, 512)` is monotone. |
| MmSizes.TotalSizeAligned | arch/arm64/kvm/hyp/include/nvhe/mm.h:61-66 | The per-region total is a whole number of pages. |
| MmSizes.HypPgtableTotalSize | arch/arm64/kvm/hyp/include/nvhe/mm.h:55-69 | The loop sums the page-table estimate of every region, in bytes. The sum is 0 with no regions. |
| MmSizes.TotalPlusPagesAligned | arch/arm64/kvm/hyp/include/nvhe/mm.h:78-83 | The total plus whole pages stays page-aligned. |
| MmSizes.PrivateMappingTables | arch/arm64/kvm/hyp/include/nvhe/mm.h:80-82 | The private-mapping allowance is 515 pages. |
| MmSizes.HypS1PgtableSize | arch/arm64/kvm/hyp/include/nvhe/mm.h:71-86 | 0 without regions. Otherwise the per-region total plus 515 pages, page-aligned. |
| MmSizes.HostS2MemPgtableSize | arch/arm64/kvm/hyp/include/nvhe/mm.h:88-96 | 0 without regions. Otherwise the per-region total plus 16 pages for the PGD, page-aligned. |
| MmSizes.HostS2DevPgtableSize | arch/arm64/kvm/hyp/include/nvhe/mm.h:98-105 | 0 without regions. Otherwise the 515 pages of the 1 GiB allowance. |
| Mm.PagesBetween | arch/arm64/kvm/hyp/nvhe/mm.c:78-81 | The number of page steps from `start` to `end`: they reach `end` exactly, or there are none when `start >= end`. |
| Mm.PageMaps | arch/arm64/kvm/hyp/nvhe/mm.c:81-88 | The k-th single-page mapping call maps `start + k*PAGE_SIZE` onto its physical address. |
| Mm.PageMapsNext | arch/arm64/kvm/hyp/nvhe/mm.c:81-88 | One more loop turn appends the next page's call. |
| Mm.SucceededAppend | arch/arm64/kvm/hyp/nvhe/mm.c:85-87 | Calls that succeeded keep succeeding when the log grows. |
| Mm.MapPageStep | arch/arm64/kvm/hyp/nvhe/mm.c:81-88 | A successful loop turn extends the logged calls by the next page and keeps all earlier calls successful. |
| Mm.PrivateSize | arch/arm64/kvm/hyp/nvhe/mm.c:47 | `PAGE_ALIGN(size + offset_in_page(phys))` is page-aligned. Barring overflow, it is the least page multiple covering the offset plus the size. |
| Mm.BitClearBelow | arch/arm64/kvm/hyp/nvhe/mm.c:170-171 | A value below 2^(k+1) whose bit k is clear is below 2^k. |
| Mm.IdmapOutsideQuarter | arch/arm64/kvm/hyp/nvhe/mm.c:162-172 | For any idmap start, the IO/vmemmap quarter chosen from it does not contain it. The quarter lies in the lower half of the VA space, and it splits into two halves of 2^(va_bits-3) bytes. |
| Mm.QuarterFits | arch/arm64/kvm/hyp/nvhe/mm.c:170-172 | The chosen quarter lies below 2^(va_bits-1) < 2^64. |
| Mm.HypMm.Map | arch/arm64/kvm/hyp/nvhe/mm.c:27-37 | One `kvm_pgtable_hyp_map` call is logged, and its return code is returned. |
| Mm.HypMm.CreateMappings | arch/arm64/kvm/hyp/nvhe/mm.c:71-91 | The calls are the single-page mappings of the page-aligned range, in order. It returns 0 exactly after all of them succeeded. Otherwise it stops at the first failing call and returns that call's error. |
| Mm.HypMm.CreatePrivateMapping | arch/arm64/kvm/hyp/nvhe/mm.c:39-69 | If the range would pass the vmemmap it returns 0, changing nothing. Otherwise `__io_map_base` advances by the aligned size and one map call is made. The result is the old base plus the page offset on success, 0 on failure. |
| Mm.HypMm.BackVmemmap | arch/arm64/kvm/hyp/nvhe/mm.c:93-100 | One `PAGE_HYP` call maps the page-aligned span of the descriptors of `[phys, phys+size)` onto `back`. Its return code is returned. |
| Mm.HypMm.CreateIdmap | arch/arm64/kvm/hyp/nvhe/mm.c:150-175 | `__io_map_base` is the quarter chosen by flipping bit `va_bits-2` of the idmap start, and `__hyp_vmemmap` is its upper half. One executable identity mapping of the aligned idmap is made. |
| Mm.PrivateMappingsAdjacent | arch/arm64/kvm/hyp/nvhe/mm.c:47-56 | Two successive private mappings that both reach the page tables are placed back to back from the old IO base. Both stay below the vmemmap. |
| MemProtect.SortedDisjointOrdersEnds | arch/arm64/kvm/hyp/nvhe/mem_protect.c:137 | In a sorted, disjoint region list, later regions start and end no earlier. |
| MemProtect.IpaIsMemory | arch/arm64/kvm/hyp/nvhe/mem_protect.c:132-150 | The binary search answers true only for an address inside some region. It is false with no regions. On a sorted disjoint list it answers true iff the address is in some region. |
| MemProtect.GapsUpTo | arch/arm64/kvm/hyp/nvhe/mem_protect.c:125-128 | One unmap per region, for the gap before it. |
| MemProtect.GapsUpToIndex | arch/arm64/kvm/hyp/nvhe/mem_protect.c:125-128 | The k-th unmap is the gap between region k-1's end and region k's start. |
| MemProtect.DevGaps | arch/arm64/kvm/hyp/nvhe/mem_protect.c:117-130 | The gaps plus the final unmap of everything from the last end, nr+1 unmaps in all. |
| MemProtect.CoveredIsDevice | arch/arm64/kvm/hyp/nvhe/mem_protect.c:117-130 | No unmapped range touches memory. |
| MemProtect.DeviceIsCovered | arch/arm64/kvm/hyp/nvhe/mem_protect.c:117-130 | Every non-memory address below ULONG_MAX is unmapped by some call. |
| MemProtect.GapsAreDeviceSpace | arch/arm64/kvm/hyp/nvhe/mem_protect.c:117-130 | An address below ULONG_MAX is covered by the unmaps iff it is not memory. |
| MemProtect.HostMapPool | arch/arm64/kvm/hyp/nvhe/mem_protect.c:158-166 | Every map call of `host_stage2_map` is for the faulting range and protection. It uses the memory pool iff the address is memory. |
| MemProtect.HostMapRetry | arch/arm64/kvm/hyp/nvhe/mem_protect.c:158-174 | The first call always happens. A retry happens iff it returned -ENOMEM for a device address. The retry follows the unmaps of all device space and repeats the same call. |
| MemProtect.AbortIpaFrame | arch/arm64/kvm/hyp/nvhe/mem_protect.c:187 | `(hpfar & HPFAR_MASK) << 8` on u64 is the frame number field times PAGE_SIZE: a page-aligned u64. |
| MemProtect.ModOfMultiple | arch/arm64/kvm/hyp/nvhe/mem_protect.c:187 | Adding whole multiples of 2^64 does not change a u64 value. |
| MemProtect.HostStage2.MapPages | arch/arm64/kvm/hyp/nvhe/mem_protect.c:152-156 | One identity stage-2 map call with the given pool is logged, and its result is returned. |
| MemProtect.HostStage2.UnmapDevAll | arch/arm64/kvm/hyp/nvhe/mem_protect.c:117-130 | The logged unmaps are exactly the device gaps, in order. |
| MemProtect.HostStage2.HostStage2Map | arch/arm64/kvm/hyp/nvhe/mem_protect.c:158-174 | The calls and the result are those of `host_stage2_map` (see HostMapPool, HostMapRetry). |
| MemProtect.HostStage2.HandleHostMemAbort | arch/arm64/kvm/hyp/nvhe/mem_protect.c:176-191 | It panics, with no call, when the fault information cannot be read. Otherwise it maps one RWX page at the faulting IPA and panics iff that fails. |
| MemProtect.MemPoolPages | arch/arm64/kvm/hyp/nvhe/mem_protect.c:43-44 | The memory pool size in pages, truncated to the unsigned int that `hyp_pool_init` takes. |
| MemProtect.PrepareS2Pools | arch/arm64/kvm/hyp/nvhe/mem_protect.c:38-62 | A misaligned pool base gives -EINVAL, and the dev pool is then untouched. Otherwise both pools are initialised with all pages free. The memory pool gets the stage-2 memory estimate and the device pool 515 pages (0 without regions). |
| Sorting.Compare | arch/arm64/kvm/hyp/nvhe/check-pkvm-pgtables.c:574-579 | A three-way comparison: -1, 0, 1 exactly for less, equal, greater. |
| Sorting.SortByPermutation | arch/arm64/kvm/hyp/reserved_mem.c:47-51 | The sort is a permutation of its input. |
| Sorting.SortBySorted | arch/arm64/kvm/hyp/reserved_mem.c:47-51 | The sort's output is in non-decreasing key order. |
| Bits.PageAlignDown | arch/arm64/kvm/hyp/nvhe/mm.c:78 | `x & PAGE_MASK` is the page boundary at or below `x`. |
| Bits.PageAlignU64 | arch/arm64/kvm/hyp/nvhe/mm.c:79 | `PAGE_ALIGN` on u64 is the page boundary at or above `x`, and 0 above the last boundary. |
| Bits.AddU64 | arch/arm64/kvm/hyp/nvhe/mm.c:49 | u64 addition wraps modulo 2^64. |
| PgtableWalk.EntryKindOf | arch/arm64/kvm/hyp/nvhe/check-pkvm-pgtables.c:169-212 | Each descriptor kind is stated as an iff on the level and the low two bits: dummy beyond level 3; invalid with bit 0 clear; table at levels 0-2 and page at level 3 for `0b11`; block at levels 1-2, not-permitted at level 0 and reserved at level 3 for `0b01`. |
| PgtableWalk.WalkShape | arch/arm64/kvm/hyp/nvhe/check-pkvm-pgtables.c:412-477 | The walk yields either a fault for the address or a translation of it. |
| PgtableWalk.WalkFaults | arch/arm64/kvm/hyp/nvhe/check-pkvm-pgtables.c:412-477 | An invalid, level-0 block or reserved entry faults. |
| PgtableWalk.WalkTable | arch/arm64/kvm/hyp/nvhe/check-pkvm-pgtables.c:412-477 | A table entry continues the walk at the next level in the table it points to. |
| PgtableWalk.WalkPage | arch/arm64/kvm/hyp/nvhe/check-pkvm-pgtables.c:412-477 | A level-3 page entry translates to its output address plus the page offset. |
| PgtableWalk.WalkBlock | arch/arm64/kvm/hyp/nvhe/check-pkvm-pgtables.c:412-477 | A block entry translates to its output address plus the block offset. |
| PgtableWalk.Field | arch/arm64/kvm/hyp/nvhe/check-pkvm-pgtables.c:419-426 | The index into the table at each level is below 512. |
| PgtableWalk.TableLeaves | arch/arm64/kvm/hyp/nvhe/check-pkvm-pgtables.c:1108-1154 | The pages `_interpret_pgtable` emits from a table lie in its VA span, in strictly increasing order, with page-aligned output addresses below 2^48. Each is translated by the walk onto its output. |
| PgtableWalk.EntriesLeaves | arch/arm64/kvm/hyp/nvhe/check-pkvm-pgtables.c:1116-1153 | The same, for the entries before index n. |
| PgtableWalk.EntryLeaves | arch/arm64/kvm/hyp/nvhe/check-pkvm-pgtables.c:1125-1152 | The same, for one entry and its VA block. |
| PgtableWalk.WalkListed | arch/arm64/kvm/hyp/nvhe/check-pkvm-pgtables.c:1108-1154 | When the listing of a table has no uninterpretable entry, every address the walk translates is listed with its output. |
| PgtableWalk.ListingIsTranslation | arch/arm64/kvm/hyp/nvhe/check-pkvm-pgtables.c:1108-1154 | For listings without uninterpretable entries, a page (va, oa) is listed iff the first-stage translation of va is oa. |
| CheckMappings.MappingCompare | arch/arm64/kvm/hyp/nvhe/check-pkvm-pgtables.c:574-579 | -1, 0, 1 exactly as the left mapping's virt is below, equal to or above the right's. |
| CheckMappings.RangePages | arch/arm64/kvm/hyp/nvhe/check-pkvm-pgtables.c:845-847 | Barring wrap-around, the number of pages from the aligned-down start reaching exactly `PAGE_ALIGN(to)`, which covers `to`. |
| CheckMappings.CheckMappingFwdAt | arch/arm64/kvm/hyp/nvhe/check-pkvm-pgtables.c:659-671 | True iff the walk translates `virt` onto `phys` without a fault. |
| CheckMappings.CheckMappingFwd | arch/arm64/kvm/hyp/nvhe/check-pkvm-pgtables.c:675-692 | True iff every page of the mapping is translated onto the corresponding physical page. |
| CheckMappings.RevOkConcat | arch/arm64/kvm/hyp/nvhe/check-pkvm-pgtables.c:797 | The reverse verdict of two listings together is the conjunction of their verdicts. |
| CheckMappings.InvalidEntryVerdict | arch/arm64/kvm/hyp/nvhe/check-pkvm-pgtables.c:773 | An invalid entry passes the reverse check. |
| CheckMappings.PageEntryVerdict | arch/arm64/kvm/hyp/nvhe/check-pkvm-pgtables.c:781-791 | A page entry passes iff some recorded mapping covers its (va, oa). |
| CheckMappings.BadEntryVerdict | arch/arm64/kvm/hyp/nvhe/check-pkvm-pgtables.c:792-796 | A block, not-permitted, reserved or dummy entry fails. |
| CheckMappings.AsWrittenSortTakesNullSlot | arch/arm64/kvm/hyp/nvhe/check-pkvm-pgtables.c:581-584 | Sorting the first HYP_MAPPING_KIND_NUMBER slots with fewer mappings recorded moves an unused slot (virt 0) to the front. The first `count` entries are then no longer the recorded mappings. |
| CheckMappings.MappingTable.Record | arch/arm64/kvm/hyp/nvhe/check-pkvm-pgtables.c:850-857 | Slot `count` gets the mapping and `count` grows. On a full table a failure is reported. |
| CheckMappings.MappingTable.ExtendMappingsVirt | arch/arm64/kvm/hyp/nvhe/check-pkvm-pgtables.c:838-858 | Records the aligned-down start, its physical address, and the page count up to the aligned end. |
| CheckMappings.MappingTable.ExtendMappingsIdmap | arch/arm64/kvm/hyp/nvhe/check-pkvm-pgtables.c:861-881 | As above, with the physical address recorded as the virtual one. |
| CheckMappings.MappingTable.ExtendMappingsVmemmap | arch/arm64/kvm/hyp/nvhe/check-pkvm-pgtables.c:885-903 | As above, with the given physical address. |
| CheckMappings.MappingTable.SortMappingsAsWritten | arch/arm64/kvm/hyp/nvhe/check-pkvm-pgtables.c:581-584 | The first HYP_MAPPING_KIND_NUMBER slots are sorted by virt whatever the count. The rest are unchanged. |
| CheckMappings.MappingTable.SortMappings | arch/arm64/kvm/hyp/nvhe/check-pkvm-pgtables.c:581-584 | The recorded mappings become a permutation of themselves in non-decreasing virt order. Unused slots are unchanged (corrected count, see Findings). |
| CheckMappings.MappingTable.CheckFwd | arch/arm64/kvm/hyp/nvhe/check-pkvm-pgtables.c:695-704 | True iff every recorded mapping passes the forward check. |
| CheckMappings.MappingTable.CheckRevAt | arch/arm64/kvm/hyp/nvhe/check-pkvm-pgtables.c:726-744 | True iff some recorded mapping maps `virt` onto `phys`, with u64 bounds. |
| CheckMappings.MappingTable.CheckRev | arch/arm64/kvm/hyp/nvhe/check-pkvm-pgtables.c:749-801 | True iff every page in the table's listing is covered by a recorded mapping and no entry is uninterpretable. |
| CheckMappings.MappingTable.CheckRevEntry | arch/arm64/kvm/hyp/nvhe/check-pkvm-pgtables.c:768-796 | The same verdict for one entry. |
| CheckMappings.MappingTable.CheckRevTable | arch/arm64/kvm/hyp/nvhe/check-pkvm-pgtables.c:775-780 | A table entry's verdict is that of the next-level table. |
| CheckMappings.MappingTable.CheckBoth | arch/arm64/kvm/hyp/nvhe/check-pkvm-pgtables.c:815-829 | True iff both the forward and the reverse check pass from the root. |
| CheckMappings.CoveredPage | arch/arm64/kvm/hyp/nvhe/check-pkvm-pgtables.c:732 | A page-aligned address inside a page-aligned mapping is one of its pages, with the matching physical page. |
| CheckMappings.BothChecksMeanAgreement | arch/arm64/kvm/hyp/nvhe/check-pkvm-pgtables.c:815-829 | When both checks pass on page-aligned mappings, a page-aligned va below 2^48 is translated onto oa iff a recorded mapping maps va onto oa. |
| CheckMaplets.LeafMaplets | arch/arm64/kvm/hyp/nvhe/check-pkvm-pgtables.c:1138-1147 | One maplet with protection 0 per listed page, in order. |
| CheckMaplets.MappingMaplets | arch/arm64/kvm/hyp/nvhe/check-pkvm-pgtables.c:1169-1180 | One maplet per page of the mapping: page i of virt onto page i of phys, on u64. |
| CheckMaplets.ExtendAllConcat | arch/arm64/kvm/hyp/nvhe/check-pkvm-pgtables.c:1077-1085 | Extending with a concatenation is extending with each part in turn. |
| CheckMaplets.InterpretItemsConcat | arch/arm64/kvm/hyp/nvhe/check-pkvm-pgtables.c:1116-1153 | Interpreting a concatenated listing is interpreting each part in turn. |
| CheckMaplets.IncreasingSnoc | arch/arm64/kvm/hyp/nvhe/check-pkvm-pgtables.c:1080 | Appending keeps virts strictly increasing iff the new virt exceeds the last. |
| CheckMaplets.ExtendAllContents | arch/arm64/kvm/hyp/nvhe/check-pkvm-pgtables.c:1077-1085 | Extending an empty table keeps the first MAX_MAPLETS maplets. |
| CheckMaplets.ExtendAllFailed | arch/arm64/kvm/hyp/nvhe/check-pkvm-pgtables.c:1077-1085 | A failure is reported iff there are more than MAX_MAPLETS maplets or the virts do not strictly increase. |
| CheckMaplets.InterpretKeepsFailure | arch/arm64/kvm/hyp/nvhe/check-pkvm-pgtables.c:1108-1154 | A reported failure is never withdrawn. |
| CheckMaplets.InterpretItemsMeaning | arch/arm64/kvm/hyp/nvhe/check-pkvm-pgtables.c:1108-1154 | An uninterpretable entry means failure. Otherwise the table is extended with the listed pages' maplets. |
| CheckMaplets.HasPairConcat | arch/arm64/kvm/hyp/nvhe/check-pkvm-pgtables.c:1185-1191 | A pair is in a concatenation iff it is in one of the parts. |
| CheckMaplets.FlattenPairs | arch/arm64/kvm/hyp/nvhe/check-pkvm-pgtables.c:1185-1191 | The interpreted mappings map exactly the recorded pages. |
| CheckMaplets.PgtableInterpretationClean | arch/arm64/kvm/hyp/nvhe/check-pkvm-pgtables.c:1158-1162 | Well-formed tables with at most MAX_MAPLETS pages are interpreted without failure: their pages arrive in strictly increasing order. |
| CheckMaplets.LeavesIncreasingMaplets | arch/arm64/kvm/hyp/nvhe/check-pkvm-pgtables.c:1144 | Increasing listed pages give increasing maplets. |
| CheckMaplets.CleanInterpretations | arch/arm64/kvm/hyp/nvhe/check-pkvm-pgtables.c:1200-1223 | Without failures, the two tables hold the recorded pages and the listed pages, and the listing has no bad entry. |
| CheckMaplets.SamePairs | arch/arm64/kvm/hyp/nvhe/check-pkvm-pgtables.c:1088-1101 | Tables equal index by index hold the same (virt, phys) pairs. |
| CheckMaplets.InterpretationsAgree | arch/arm64/kvm/hyp/nvhe/check-pkvm-pgtables.c:1200-1223 | When the comparison passes without failures, a page-aligned va below 2^48 is translated onto oa iff some recorded page maps va onto oa. |
| CheckMaplets.Maplets.Extend | arch/arm64/kvm/hyp/nvhe/check-pkvm-pgtables.c:1077-1085 | The maplet is appended, with a failure reported on a full table or a non-increasing virt. |
| CheckMaplets.Maplets.InterpretPgtableAt | arch/arm64/kvm/hyp/nvhe/check-pkvm-pgtables.c:1108-1154 | The table's listing is interpreted item by item. |
| CheckMaplets.Maplets.InterpretEntry | arch/arm64/kvm/hyp/nvhe/check-pkvm-pgtables.c:1125-1152 | One entry is interpreted as its listing. |
| CheckMaplets.Maplets.InterpretPgtable | arch/arm64/kvm/hyp/nvhe/check-pkvm-pgtables.c:1158-1162 | The table is emptied and then holds the interpretation from the root. |
| CheckMaplets.Maplets.InterpretMapping | arch/arm64/kvm/hyp/nvhe/check-pkvm-pgtables.c:1169-1180 | The mapping's maplets are appended in order. |
| CheckMaplets.Maplets.InterpretMappings | arch/arm64/kvm/hyp/nvhe/check-pkvm-pgtables.c:1185-1191 | The table is emptied and then holds all recorded mappings' maplets. |
| CheckMaplets.InterpretEquals | arch/arm64/kvm/hyp/nvhe/check-pkvm-pgtables.c:1088-1101 | True iff the tables have equally many maplets, equal index by index in virt and phys. |
| CheckMaplets.CheckHypMappings | arch/arm64/kvm/hyp/nvhe/check-pkvm-pgtables.c:1200-1229 | The result is the comparison of the record's and the tables' interpretations. |

## Left out

- Spinlocks (`hyp_spin_lock`) and all concurrency: each operation is modelled as running under its lock.
- UART output (`hyp_puts`, `hyp_putsxn`, the `hyp_put_*` printers, `dump_pgtable`) and the `noisy` flags: they produce no state the checks use.
- `hyp_panic` is an outcome (`Panic`, `panicked`) rather than a halt. `check_assert_fail` is a sticky `failed` flag, since the source only prints and carries on.
- `clear_page` is modelled as recording the page in a set of cleared/zeroed pages; memory contents are not modelled.
- `kvm_pgtable_hyp_map`, `kvm_pgtable_stage2_map`, `kvm_pgtable_stage2_unmap` and `kvm_pgtable_stage2_init` (pgtable.c is not part of this model) are oracles or left out. The model logs the calls and uses the oracle's return code.
- `hyp_virt_to_phys`, `hyp_phys_to_virt`, `__hyp_pa` and `hyp_symbol_addr` are parameters. `__get_fault_info` is an `Option` parameter. The ESR is not modelled.
- `hyp_cpu_set_vector`, `hyp_map_vectors`, `prepare_host_vtcr`, the body of `kvm_host_prepare_stage2` after `prepare_s2_pools`, the `mm_ops` table set-up and the `host_s2_zalloc_*` wrappers are left out: they are register or function-pointer wiring.
- `record_hyp_mappings` / `_record_hyp_mappings` (the list of concrete EL2 sections and symbols) is left out: it depends on linker symbols and per-CPU bases. Its three recorders are modelled.
- `kvm_hyp_reserve`: `memblock_find_in_range` and `memblock_reserve` are not modelled (hyp_mem_base is not computed). `is_hyp_mode_available`/`is_kernel_in_hyp_mode`/`kvm_get_mode` are two boolean parameters.
- The kernel's `sort` (heapsort) is replaced by an insertion sort with the same specification (a permutation that is sorted by the key). Stability and the swap order are not modelled.
- PgtableWalk.Walk: `table_base + 8*index` is not wrapped at 2^64, and page-table memory is a function from address to word rather than 512-entry tables. Only the parts of the walk that the checker's descriptors use are modelled: the 4 KB granule, 48-bit addresses and start level 0.
- ReservedMem.Memblocks.Reserve: `hyp_mem_size` is unbounded rather than a u64.
- EarlyAlloc.Allocator.Contig: `cur`, `base` and `end` are unbounded rather than `unsigned long`.
- CheckMappings.MappingTable.Record: on a full table the source writes past the array; the model reports the failure and writes nothing. CheckMaplets.Maplets.Extend does the same.
- PageAlloc works on physical addresses throughout. AllocPages returns the group's physical address where `hyp_alloc_pages` returns its hyp virtual address (`hyp_page_to_virt`). PutPage and GetPage take a physical address where the source converts a virtual one with `hyp_virt_to_page`. The fixed offset between the two address spaces is not modelled.
- PageAlloc.HypPool.Init: each pool gets its own fresh descriptor array. The shared global vmemmap, and aliasing between pools, are not modelled.
- PageAlloc.HypPool.GetPage: requires the page to head an allocated group (it has an order and is on no free list), because the allocator invariant is stated for group heads. The source increments any page's count.
- PageAlloc.HypPool.PutPage: requires the address to lie in the pool. The pool is the receiver rather than found via `hyp_page_to_pool`.
- CheckMappings.CheckMappingFwd: protections are not checked, as in the source.
- MemProtect.HostStage2.HostStage2Map and MemProtect.HostStage2.HandleHostMemAbort: both require the first `nr` memory regions to be sorted and disjoint. The binary search depends on this, and the source assumes it because the kernel's memblock list is kept that way. The model does not derive it from the memblock code, which is not part of this model.
- MmSizes.TotalSizeOf: the sum is unbounded, where mm.h adds `nr_pages << PAGE_SHIFT` into a u64. With at most 128 regions of at most 2^64 bytes each, each region needs under 2^56 bytes of tables and the sum stays below 2^63, so the u64 sum does not wrap. The model does not prove this bound.
- NR_CPUS is fixed at 256 and HYP_MEMBLOCK_REGIONS at 128. HPFAR_MASK is taken as `~0xF` and the protection bits as X=1, W=2, R=4. Their definitions are not part of this model.

## Findings

| source | as written | input that shows it | evidently intended | confidence | as-written member | corrected member |
|---|---|---|---|---|---|---|
| arch/arm64/kvm/hyp/nvhe/early_alloc.c:32 | `cur += nr_pages << PAGE_SHIFT` shifts an `unsigned int`, so the advance is taken modulo 4 GiB | `hyp_early_alloc_init(0x4000_0000, 0x10_0000)`, then `hyp_early_alloc_contig(0x10_0000)` twice: both succeed and return the same address, and pages past `end` are cleared | advance `cur` by `nr_pages * PAGE_SIZE` at `unsigned long` width | medium, not executed | EarlyAlloc.AsWrittenRangesOverlap | EarlyAlloc.Allocator.Contig |
| arch/arm64/kvm/hyp/nvhe/page_alloc.c:310 | `range_end = phys + (nr_pages << PAGE_SHIFT)` shifts an `unsigned int`, so the range end wraps for pools of 4 GiB or more | `hyp_pool_init(pool, 0, 0x10_0000, 0)`: range_end == range_start, so `__find_buddy` finds no buddy in range | `range_end = phys + nr_pages * PAGE_SIZE` as a `phys_addr_t` | medium, not executed | PageAlloc.RangeEndWraps | PageAlloc.HypPool.Init |
| arch/arm64/kvm/hyp/nvhe/check-pkvm-pgtables.c:583 | `sort_mappings` sorts the first HYP_MAPPING_KIND_NUMBER entries whatever `count` is | 3 mappings recorded at non-zero addresses in the zero-initialised static table: after the sort an unused slot with virt 0 is first, so the first `count` entries are no longer the recorded mappings | sort the first `count` entries | high, not executed | CheckMappings.AsWrittenSortTakesNullSlot | CheckMappings.MappingTable.SortMappings |
