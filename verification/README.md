# NUX in Dafny

NUX is a C library for kernels: a boot loader, a hardware abstraction for x86, memory management,
and a small C library. This project models the parts of it that are hardest to get right and
proves what they promise. Every loop and every in-place update of the C code is a method with a
loop or a store, proved against a specification on values; pure code is functions and lemmas;
code that runs concurrently is a state machine, and its theorems are about all its runs.

| area | modules |
|---|---|
| the red-black tree on linked records | `RbShape`, `RbOrder`, `RbHeap`, `RbInsertion`, `RbRemoval`, `RbSwap`, `Rb` |
| kernel TLB generations across processors, interrupts and page-table changes | `KTlb`, `KTlbTheorems` |
| reader-writer locks | `RwLock` |
| the hierarchical bitmap and the frame allocator on it | `Powers`, `STreeLayout`, `STree`, `FrameAlloc` |
| page tables: the hardware walk, the linear window, mapping through it, user maps, the boot loader's direct map | `PageTree`, `SelfMap`, `Linmap`, `UserMap`, `DirectMap` |
| kernel virtual addresses: size classes, interval tree, coalescing | `Zone`, `KvaTree`, `KvaZone` |
| slabs | `Slab`, `SlabMemory` |
| shared | `Lists`, `Frames` |
| memmove, division by multiplication, numbers as text, SQUOZE names | `MemMove`, `FastDivide`, `Numbers`, `Strtoul`, `Kprintn`, `PrintParse`, `Squoze` |

Conventions. Integers are unbounded; where the width of a C type matters, the wrap-around or the
absence of overflow is written out. Pointers into records are numbers (`Ptr`, frame numbers,
addresses). The nodes of the kernel virtual allocator live in a `Rb.RbTree`, the frames of the
frame allocator in a `STree.Bitmap`, and the slabs come from the kernel virtual allocator, so these
results are about the composed code. Page tables are walked as four-level paging of the Intel 64
architecture does. What the code gets from outside (frames of page tables, the boot loader's bitmap,
comparison functions, interrupts) is a parameter or a step of the state machine.

## Findings

Properties that one would expect and that the code does not have. The lemmas give the failing case
and the exact condition.

- The recorded normal TLB generation of a processor can go back (libnux/cpu.c:387-399):
  cpu_tlbflush_local loads the counter, an update records a newer one, then it loads that newer
  recorded value and replaces it by the older counter. The window between its two loads is exactly
  what must be masked: from every state with the window open, an update that comes in there leads
  to a decrease (`KTlbTheorems.NormalBackIfOpen`), and in a run masked so far an update can lead to
  one if and only if it comes in there (`KTlbTheorems.WindowExact`); a run with all windows masked
  has none (`KTlbTheorems.NormalNeverBack`). The only caller of cpu_tlbflush_local is cpu_nmiop
  (libnux/cpu.c:417).
- A global translation can outlive a recorded change of its page (libnux/cpu.c:328-359), because a
  normal flush keeps it while the normal generation moves on: `KTlbTheorems.GlobalCanBeOlder`. It
  can happen exactly for pages whose history goes from a present global value to a present
  non-global one and then to a value that is not global (`KTlbTheorems.StaleOnlyIfRisky`,
  `KTlbTheorems.StaleIfRisky`); never for a caller that keeps the global bit of a page
  (`KTlbTheorems.SameBitNotRisky`).
- A slab cache whose slabs hold one object or none breaks (libnux/slabinc.c:109-144): with one, the
  full slab stays in the partial queue and the next allocation takes the head of an empty list
  (`Slab.OneObjectFaults`), with none the first one does (`Slab.NoObjectFaults`). A new slab serves
  two allocations exactly when it holds two objects (`Slab.TwoTakes`), that is when
  2 * objsize + 2 * header <= 8192 (`Slab.TwoObjects`).
- The boot loader's test `frame > maxframe` (apxh/src/main.c:462,487) lets the frame maxframe pass.
  It is outside the tree exactly when maxframe is a power of two (`FrameAlloc.GuardSafe`), and then
  it hits a summary bit. For orders from 7 on, setting it leaves the tree right if and only if one
  of frames 0 to 63 is free, and clearing it if and only if none is (`FrameAlloc.PastEndSets`,
  `FrameAlloc.PastEndClears`, which also give the orders below).
- pfn_free checks its frame against the number of all page frames, while the tree is sized by those
  of memory (libnux/pfnalloc.c:73, apxh/src/main.c:418), and does not see whether the frame is live.
  For a frame of the tree the books stay right exactly when it was live
  (`FrameAlloc.FrameAllocator.Free`).
- kva_free does not see whether its pages are live (libnux/kva.c:173-182). For pages that are not
  free, free and live addresses go on to partition the area exactly when they were live
  (`KvaZone.Kva.KvaFree`).
- kva_free rounds the size and truncates the address on their own (libnux/kva.c:173-182). All the
  given bytes become free exactly when they end on the pages counted from the first, as they do from
  the start of a page (`Zone.TruncCovers`).
- The comparison of generations takes an older one for newer exactly when the wrap counts differ
  (libnux/internal.h:39-53; `KTlb.GenAfterIs`), so cpu_ktlb_reach may update without need; it
  never returns short of its target (`KTlbTheorems.ReachAlone`, `KTlbTheorems.ReachReturns`).
- unsquozelen decrements its length below zero when the buffer is too short for the encoding, and
  asks memset to clear the largest size (tools/ar50/squoze.c:56-62; `Squoze.TooShort`). It stays
  inside the buffer exactly when the value is 0 or a multiple of the power of 40 that the length
  leaves over (`Squoze.ClearInside`); unsquoze, which passes 13, always does.
- ___slaballoc does not look at the result of kva_alloc (libnux/slab.c:37). From VADDR_INVALID the
  start of the slab wraps to 0 and the page at 8192 seems to be left over (`SlabMemory.SlabOfNothing`),
  so it is freed into the area. The area stays partitioned if and only if some free range has the
  least power of two for what is asked (`SlabMemory.SlabAlloc`); slab_grow sees the null result only
  then (`SlabMemory.SlabCache.Grow`).
- strtoul reports an overflow with the maximum and an end pointer at the start of the string, as if
  nothing had been read (libec/_strtoul.h:185-212); `Strtoul.Strtoul` states it.

Where code and documentation disagree, the model follows the code: include/nux/types.h:42-71 puts
the wrap count of a TLB generation into the high bits, the macros below it take the low six.

## Model

| member | source | states |
|---|---|---|
| `Rb.RbTree.constructor` | libec/rb.c:106-126 | an initialised tree is empty and valid, and no record outside the head is touched |
| `Rb.RbTree.Insert` | libec/rb.c:189-324 | if a node compares equal, that node is returned and memory, minimum and maximum stay; otherwise the node is inserted at the one position that keeps the sequence sorted, the tree is red-black again with exact minimum, maximum and parent pointers, and no record outside it changes |
| `Rb.RbTree.Remove` | libec/rb.c:754-817 | the in-order sequence loses exactly the given node; the tree is red-black, sorted, with exact minimum, maximum and parent pointers, and no record outside the old tree changes |
| `Rb.RbTree.FindPlace` | libec/rb.c:200-227 | the descent ends at an equal node, or at the one empty place with only smaller nodes before it and only greater ones after it, whose father and side it reports |
| `Rb.RbTree.Link` | libec/rb.c:256-324 | the stores and the rebalancing after a descent put the node between what is before and after that place |
| `Rb.RbTree.InsertRebalance` | libec/rb.c:398-459 | from a tree whose only fault is a red node with a red father, the loop ends in a red-black tree with the same in-order sequence; it reads and writes only nodes of the tree |
| `Rb.RbTree.InsertRotate` | libec/rb.c:461-502 | cases 2 and 3: with a black uncle at most two rotations end it |
| `Rb.RbTree.ReparentNodes` | libec/rb.c:334-396 | the pointer, colour and position stores make a father and its child a rotated subtree in place, whatever is above and below |
| `Rb.RbTree.PruneNode` | libec/rb.c:504-551 | a childless node leaves the sequence; minimum and maximum move to its father when it was extreme |
| `Rb.RbTree.PruneBlackRed` | libec/rb.c:709-752 | a node with one child is replaced by that child |
| `Rb.RbTree.SwapPruneAndRebalance` | libec/rb.c:556-700 | a node with two children leaves the sequence: its neighbour takes over its place, colour and children, next to it or further down, and the place of the neighbour is repaired |
| `Rb.RbTree.RemovalRebalance` | libec/rb.c:819-968 | from a tree that is short of one black node below one place, the loop ends in a red-black tree with the same in-order sequence |
| `Rb.RbTree.RemovalFinish` | libec/rb.c:884-965 | cases 2b, 3 and 4 end that loop |
| `Rb.RbTree.Find` | libec/rb.c:128-145 | a node equal to the key, or null and the gap where the key would go; never both |
| `Rb.RbTree.FindGeq` | libec/rb.c:147-166 | an equal node, or the first node after the gap, null if there is none |
| `Rb.RbTree.FindLeq` | libec/rb.c:168-187 | an equal node, or the last node before the gap, null if there is none |
| `Rb.RbTree.Iterate` | libec/rb.c:970-1017 | the neighbour of a node in the sequence in either direction, null at the end; from null the extreme node of that side |
| `RbShape.RotateIn` | libec/rb.c:334-396 | a rotation keeps the in-order sequence |
| `RbShape.InsertRedUncle` | libec/rb.c:415-459 | case 1 of insertion removes the clash of two red nodes or moves it two levels up, at every place of every tree |
| `RbShape.InsertInner` | libec/rb.c:469-482 | case 2 moves the clash one rotation further |
| `RbShape.InsertOuter` | libec/rb.c:483-502 | case 3 removes the clash and keeps all black counts |
| `RbShape.RemoveAllBlack` | libec/rb.c:839-882 | with all black around, painting the brother red moves the missing black node up |
| `RbShape.RemoveRedBrother` | libec/rb.c:839-861 | a red brother leads to a black one below a red father, with the same node missing |
| `RbShape.RemoveRedFather` | libec/rb.c:884-909 | a red father of a black brother with black children makes up for the missing black node |
| `RbShape.RemoveInnerNephew` | libec/rb.c:910-935 | a red near nephew becomes a red far nephew |
| `RbShape.RemoveOuterNephew` | libec/rb.c:936-965 | a red far nephew makes up for the missing black node |
| `RbHeap.RotateTree` | libec/rb.c:334-396 | the records after the stores of a rotation represent the rotated tree in its context |
| `RbInsertion.InsertMinMax` | libec/rb.c:261-278 | after an insertion the minimum and maximum pointers are exact if they follow a new outermost child |
| `RbRemoval.PruneMinMax` | libec/rb.c:530-541 | after the removal of a leaf they are exact if its father takes over |
| `RbRemoval.BlackRedMinMax` | libec/rb.c:740-746 | after the removal of a node with one child they are exact if that child takes over |
| `RbSwap.SwappedIn` | libec/rb.c:556-700 | exchanging a node for its neighbour and cutting the neighbour out removes exactly that node from the sequence |
| `RbOrder.GapMeansNone` | libec/rb.c:128-187 | where a search reports a gap, no node equals the key |
| `KTlb.StepInv` | libnux/cpu.c:328-399 | every step of every processor, interrupt and page-table writer keeps the invariant that ties recorded generations to flushed translations |
| `KTlb.ExecInv` | libnux/cpu.c:328-399 | the invariant holds after every run, for any number of processors and any interleaving |
| `KTlb.MarkAhead` | libnux/ktlbgen.c:19-33 | in every run, a mark gives a change a generation that no processor has recorded, loaded or waits for yet: the next global one if the old or the new mapping is global, the next normal one otherwise; the other counter stays |
| `KTlb.GenAfterIs` | libnux/internal.h:39-53 | the comparison sees every newer generation, and takes an older one for newer exactly when the wrap counts differ |
| `KTlbTheorems.NoStale` | libnux/cpu.c:328-379 | in every run, a cached translation is older than a change that its processor has recorded only if it is global and that change was one of a non-global mapping |
| `KTlbTheorems.NotSuperseded` | libnux/cpu.c:328-379 | in every run, the change that replaced a cached translation is not recorded by the processor that caches it |
| `KTlbTheorems.StaleOnlyIfRisky` | libnux/cpu.c:328-379 | in every run, such an older translation exists only for a page whose history goes from a global mapping to a non-global one and then to a value that is not global; the caller chooses that history |
| `KTlbTheorems.StaleIfRisky` | libnux/cpu.c:328-359 | every such history has a run in which a processor keeps the translation: the condition is exact |
| `KTlbTheorems.SameBitNotRisky` | libhal_x86/pmap.c:134-157 | a caller that gives all present mappings of a page the same global bit has no such history |
| `KTlbTheorems.Coherent` | libnux/cpu.c:328-379 | in every run, a processor that has recorded both counters, with every change marked, caches current translations only |
| `KTlbTheorems.UpdateAlone` | libnux/cpu.c:328-359 | an update that nothing interrupts ends within seven steps and records both counters; it drops all translations if the global counter was ahead of the recorded one, all but the global ones if only the normal one was, and none otherwise |
| `KTlbTheorems.CommitCoherent` | libnux/kmap.c:199-207 | after an update that nothing interrupts nothing stale is cached, if every change was marked before (for any run: CommitReturns) |
| `KTlbTheorems.UpdateReturns` | libnux/cpu.c:328-359 | in every run, an update returns with at least the counters of its beginning recorded, whatever interrupts it and whatever other processors do |
| `KTlbTheorems.CommitReturns` | libnux/kmap.c:199-207 | so the processor then caches no translation that a change marked before the update replaced |
| `KTlbTheorems.ReachReturns` | libnux/cpu.c:361-379 | in every run, when cpu_ktlb_reach returns, the processor has recorded at least the target |
| `KTlbTheorems.ReachAlone` | libnux/cpu.c:361-379 | when nothing interrupts it, cpu_ktlb_reach returns within ten steps: it changes nothing if the test finds the target recorded, and otherwise both counters are recorded and the translations are those an update leaves |
| `KTlbTheorems.LocalAlone` | libnux/cpu.c:387-399 | when nothing interrupts it, cpu_tlbflush_local ends in four steps: the normal counter is recorded, exactly the global translations stay cached, and nothing else changes |
| `KTlbTheorems.LocalReturns` | libnux/cpu.c:387-399 | in every run, when cpu_tlbflush_local returns, every non-global translation that its processor caches was filled after the call began |
| `KTlbTheorems.GlobalMonotone` | libnux/cpu.c:328-399 | no step lowers the recorded global generation of a processor |
| `KTlbTheorems.GlobalNeverBack` | libnux/cpu.c:328-399 | the recorded global generation never decreases in any run |
| `KTlbTheorems.NormalNeverBack` | libnux/cpu.c:381-399 | the recorded normal generation never decreases in any run in which no activation starts between the two loads of a local flush |
| `KTlbTheorems.NormalBackIfOpen` | libnux/cpu.c:381-399 | from every state of every run that has a local flush between its two loads, an update that comes in there makes the recorded normal generation of that processor decrease, with no further interrupt |
| `KTlbTheorems.WindowExact` | libnux/cpu.c:381-399 | in a run masked so far, an update that comes in on a processor can make its normal generation decrease, all else staying masked, if and only if it comes in between the two loads |
| `KTlbTheorems.NormalBackIff` | libnux/cpu.c:381-399 | the step that lowers it is the store of such a local flush and no other |
| `KTlbTheorems.NormalCanGoBack` | libnux/cpu.c:387-399 | a run from boot in which it decreases |
| `KTlbTheorems.GlobalCanBeOlder` | libnux/cpu.c:328-359 | a run in which a global translation outlives a recorded change of its page |
| `FastDivide.Fls32Bits` | libec/sys/bitops.h:126-161 | fls32 is the bit length of its argument, 0 for 0 |
| `FastDivide.Fls32CeilLog` | libec/sys/bitops.h:286-298 | for a divisor it gives the least power of two not below it |
| `FastDivide.PrepareValue` | libec/sys/bitops.h:286-298 | no word of the preparation overflows and the multiplier is the rounded-up reciprocal without its top bit |
| `FastDivide.Reciprocal` | libec/sys/bitops.h:300-309 | multiplying by a slightly too large reciprocal and dropping the low part is exact division, under the stated error bound |
| `FastDivide.DivideShifts` | libec/sys/bitops.h:300-309 | the sums and shifts of the division stay within 32 bits and divide by the power of two |
| `FastDivide.DivideExact` | libec/sys/bitops.h:286-317 | for all 32-bit values and all non-zero divisors, fast_divide32 is the quotient and fast_remainder32 the remainder |
| `STreeLayout.OrderLeast` | include/stree.h:141-151 | stree_order is the least order whose tree has a bit for each object |
| `STreeLayout.LmapOffStart` | include/stree.h:154-176 | the shifts and subtractions of stree_lmap_off give the sum of the sizes of the levels before |
| `STreeLayout.ShiftFits` | include/stree.h:154-176 | no shift count exceeds 30 for orders up to 24 |
| `STreeLayout.LevelsFill` | include/stree.h:115-183 | the levels are consecutive, the last is one word, and they fill exactly STREE_SIZE words |
| `STreeLayout.WordsDisjoint` | include/stree.h:154-190 | every word of every level lies inside the tree and no two share a place |
| `STree.SetBitCorrect` | include/stree.h:192-251 | setting a bit, stopping early at a word that was not empty, keeps every summary bit right and adds exactly that address |
| `STree.ClearBitCorrect` | include/stree.h:206-269 | clearing a bit, stopping early at a word that does not become empty, keeps every summary bit right and removes exactly that address |
| `STree.Covered` | include/stree.h:306-351 | a set address has its summary bit set on every level |
| `STree.Bitmap.GetBit` | include/stree.h:227-233 | reports membership in the flat set |
| `STree.Bitmap.SetBit` | include/stree.h:235-251 | the loop in place: the set gains exactly the address |
| `STree.Bitmap.ClearBit` | include/stree.h:253-269 | the loop in place: the set loses exactly the address |
| `STree.Bitmap.Count` | include/stree.h:289-303 | the population counts of the lowest level add up to the size of the set |
| `STree.Bitmap.BitSearch` | include/stree.h:306-351 | the descent returns the least or greatest address of the set, and -1 exactly when it is empty; the check for a corrupted table never fires |
| `FrameAlloc.FrameAllocator.constructor` | libnux/pfnalloc.c:22-40 | the free count starts as the number of usable frames |
| `FrameAlloc.FrameAllocator.Alloc` | libnux/pfnalloc.c:43-102 | returns the lowest or highest free frame, which was not live, and PFN_INVALID exactly when all usable frames are live; the free count stays exact |
| `FrameAlloc.FrameAllocator.Free` | libnux/pfnalloc.c:69-111 | a frame of the tree becomes free; frames, live frames and free count stay in agreement exactly when the frame was live |
| `FrameAlloc.GuardSafe` | apxh/src/main.c:411-501 | a frame that passes the loader's test is inside the tree, unless it is the maximum and the maximum is a power of two |
| `FrameAlloc.PastEndHitsSummary` | apxh/src/main.c:458-495 | the bit of the frame that slips through is bit 0 of the first summary word |
| `FrameAlloc.PastEndSets` | apxh/src/main.c:458-469 | setting the frame that slips through leaves the tree right if and only if one of frames 0 to 63 is free, for orders from 7 on; in a tree of one word it never does for orders up to 5, and for order 6 the bit is outside |
| `FrameAlloc.PastEndClears` | apxh/src/main.c:483-495 | clearing it leaves the tree right if and only if none of frames 0 to 63 is free, or the tree is one word |
| `FrameAlloc.PastEndTop` | apxh/src/main.c:458-495 | on the top level the bit is past the bits of the only word, or in the word after the tree |
| `PageTree.OneWay` | libhal_x86/amd64/pae64.c:124-134 | the walk reaches a table frame at one place of the tables only |
| `PageTree.SetEntryFrame` | libhal_x86/amd64/pae64.c:96-122 | a store changes the entry itself and nothing outside the subtree below it |
| `PageTree.AddTableEntry` | libhal_x86/amd64/pae64.c:245-268 | linking a zeroed table under an absent entry changes that one entry, for every other place on every level |
| `PageTree.AddTableOwned` | libhal_x86/amd64/pae64.c:124-134 | the tables stay a tree |
| `PageTree.StoreEntry` | apxh/src/pae.c:239-242 | storing an entry that is no pointer empties what was below it and keeps all else |
| `PageTree.ExtendsTrans` | libhal_x86/amd64/pae64.c:245-367 | adding tables changes no translation and no leaf entry |
| `PageTree.RightsKept` | libhal_x86/amd64/pae64.c:124-134 | adding tables changes the user right and the write right of no page |
| `PageTree.LeafRights` | libhal_x86/amd64/pae64.c:124-134 | after a leaf is stored under tables that were there or were made for it, its page has the rights that the leaf and the tables that were there all grant, and user mode has it under a table made only if that was made for a user address; the rights of all other pages stay |
| `SelfMap.MkaddrOff` | libhal_x86/amd64/pae64.c:63-69 | mkaddr and the offset macros are inverse, the page number is the number of the four offsets, and the address is canonical |
| `SelfMap.OneLower` | apxh/src/pae.c:828-850 | through the root slot that points to the root, the walk sees every level one level lower |
| `SelfMap.WindowTrans` | apxh/src/pae.c:828-850 | a page of the window translates to the table that the walk one level up finds |
| `SelfMap.LinmapLands` | libhal_x86/amd64/pae64.c:136-227 | for every address and level, the pointer that the linear map getters compute is canonical, and its hardware walk lands on the byte offset of the very entry that an explicit walk reaches, in the very frame |
| `UserMap.ForeignPointer` | libhal_x86/amd64/pae64.c:15-29 | packing frame and index into an odd pointer loses neither, and the pointer less its mark is the physical address of the entry |
| `UserMap.DistinctSlots` | libhal_x86/amd64/pae64.c:371-389 | distinct pages have distinct leaf pointers |
| `UserMap.Umap.constructor` | libhal_x86/amd64/pae64.c:478-485 | every slot gets a table with the rights of a user table as long as there are frames, and no page is in use |
| `UserMap.Umap.AllocTable` | libhal_x86/amd64/pae64.c:124-134 | a table frame comes zeroed, or nothing changes |
| `UserMap.Umap.TableUnder` | libhal_x86/amd64/pae64.c:245-367 | the table under an entry is found or made, only adding a table; failure without frames or without permission to allocate leaves everything as it was |
| `UserMap.Umap.GetL3Pfn` | libhal_x86/amd64/pae64.c:245-268 | the level 3 table of the address, with the same promises |
| `UserMap.Umap.GetL2Pfn` | libhal_x86/amd64/pae64.c:291-317 | the level 2 table |
| `UserMap.Umap.GetL1Pfn` | libhal_x86/amd64/pae64.c:340-367 | the level 1 table |
| `UserMap.Umap.GetL1p` | libhal_x86/amd64/pae64.c:371-389 | the pointer leads to the leaf slot of the address; all translations and leaf entries stay, also after a failure half way, and every table that is made may be written and used from user mode; frames are conserved, and three spare frames suffice |
| `UserMap.Umap.ScanL1` | libhal_x86/amd64/pae64.c:544-567 | the first non-zero leaf from an offset on, with its foreign pointer and entry, or that there is none |
| `UserMap.Umap.ScanUpper` | libhal_x86/amd64/pae64.c:569-619 | the least page in use below the entries from an offset on, with the pointer and entry of its leaf, or that there is none |
| `UserMap.Umap.ScanL4` | libhal_x86/amd64/pae64.c:621-647 | the same from a slot of the root on |
| `UserMap.Umap.Next` | libhal_x86/amd64/pae64.c:649-694 | the address of the least page in use above the given one with the pointer to its leaf slot and its entry, or UADDR_INVALID exactly when there is none; the tables are not changed |
| `UserMap.EnumerationComplete` | libhal_x86/amd64/pae64.c:649-694 | repeated calls give exactly the later pages in use, in strictly increasing order |
| `UserMap.EnumerationEnds` | libhal_x86/amd64/pae64.c:649-694 | the calls come to an end |
| `UserMap.Umap.Free` | libhal_x86/amd64/pae64.c:696-738 | exactly the table frames of the map go back to the allocator, each once and after all tables below it, and the user slots are cleared |
| `UserMap.Umap.FreeTable` | libhal_x86/amd64/pae64.c:696-738 | a subtree of tables goes back, each table after all tables below it |
| `Linmap.LinearMap.constructor` | libhal_x86/amd64/pae64.c:741-770 | a root with the self-reference maps nothing outside the window |
| `Linmap.OutsideTrans` | libhal_x86/amd64/pae64.c:136-227 | outside the window the hardware walk does not depend on the self-reference |
| `Linmap.OutsideRights` | libhal_x86/amd64/pae64.c:136-227 | outside the window the rights that the hardware finds do not depend on the self-reference |
| `Linmap.TableBits` | libhal_x86/amd64/pae64.c:124-134 | a new table may always be written through, and be used from user mode exactly when it is made for a user address |
| `Linmap.Linked` | libhal_x86/amd64/pae64.c:148-227 | clearing a frame and storing its entry, in a table or in the root, adds one table to the space and changes nothing else |
| `Linmap.LinearMap.PtrLands` | libhal_x86/amd64/pae64.c:136-227 | the load or store through a window pointer does not fault and meets the entry of the address, if the tables above are there |
| `Linmap.LinearMap.TableUnder` | libhal_x86/amd64/pae64.c:148-227 | the table under an entry, read and written through the window, is found or made; a failure changes nothing |
| `Linmap.LinearMap.GetPtr` | libhal_x86/amd64/pae64.c:148-227 | the three getters: a pointer exactly when the tables above exist or could be made |
| `Linmap.LinearMap.GetL1p` | libhal_x86/amd64/pae64.c:371-408 | kmap_get_l1p, and umap_get_l1p of the loaded map: the hardware reaches the leaf entry of the address through the pointer; no translation outside the window changes, also after a failure half way; tables are made writable, and for user mode exactly when the address is a user address; three spare frames suffice |
| `Linmap.LinearMap.Map` | libnux/kmap.c:25-42 | after the store through that pointer the hardware translates the page by the new leaf and grants the rights of the leaf under the tables above, the old leaf is returned, and no other page outside the window is translated differently or gets other rights |
| `DirectMap.MapBlock` | apxh/src/pae.c:734-794 | a page of 4 KB, 2 MB or 1 GB stored at its level serves every page of its block by the entry stored, and no other page changes |
| `DirectMap.PageFlags` | apxh/src/pae.c:73-93 | the flags of a leaf: writable, not for user mode, not executable unless asked, with the two cache bits of the memory type |
| `DirectMap.PatBytes` | apxh/src/pae.c:63-71 | the page attribute table that is loaded has write-back at 0, uncached at 3 and write-combining at 7 |
| `DirectMap.PageIs` | apxh/src/pae.c:63-93 | in the table loaded, a leaf of every level, decoded as the hardware does with the PAT bit of its size, has the frame, the memory type and the rights that were asked for |
| `DirectMap.TestedLevel` | apxh/src/pae.c:751-789 | the tests of the loop choose the largest page whose alignment of address and frame, remaining length and processor support allow it |
| `DirectMap.LevelChosen` | apxh/src/pae.c:751-789 | which is the level that the range as a whole gives the page, for every page of the block |
| `DirectMap.EdgeNext` | apxh/src/pae.c:751-793 | after a block the loop is at the start of another one |
| `DirectMap.ServedTrans` | apxh/src/pae.c:734-794 | a range that is served as asked translates to the consecutive frames |
| `DirectMap.BootTables.constructor` | apxh/src/pae.c:635-648 | new tables, with or without the slot of the window, map nothing |
| `DirectMap.BootTables.TableUnder` | apxh/src/pae.c:558-627 | the table under an entry is found or made, only adding a table |
| `DirectMap.BootTables.MapOne` | apxh/src/pae.c:734-794 | one round stores the entry at the level chosen, serves exactly its block and makes only tables above it |
| `DirectMap.BootTables.Directmap` | apxh/src/pae.c:734-794 | every page of the range gets its frame, its memory type and its rights from a page of the largest size that can serve it; no other page is mapped differently, the tables made on the way may be written and used from user mode, and it fails only when no page is left for a table |
| `Zone.MinBitBounds` | libnux/alloc.h:107-133 | the class searched for is the least power of two not below the size, less than twice the size |
| `Zone.ListHeads` | libnux/alloc.h:107-133 | an occupied class has a range of just that class at its head, and any range of at least a power of two is in an occupied class at or above it |
| `Zone.NotMuchLarger` | libnux/alloc.h:107-133 | a range of the lowest class that can serve is less than twice as large as any other that can |
| `Zone.RoundPage` | include/nux/defs.h:16-17 | the least number of whole pages that holds the size |
| `Zone.TruncPage` | include/nux/defs.h:16-16 | the page boundary at or before an address, less than a page away |
| `Zone.RoundCovers` | libnux/kva.c:157-171 | the rounded block holds the bytes asked for |
| `Zone.TruncCovers` | libnux/kva.c:173-182 | the pages that kva_free frees hold the given bytes if and only if these end on the pages counted from the first |
| `Zone.NeighborsTouch` | libnux/kva.c:118-136 | what is found just before and at the end of a range touches it, and no other free range does |
| `Zone.MergedApart` | libnux/alloc.h:142-165 | replacing the neighbours by the merged range frees exactly the new addresses and leaves no two ranges that touch |
| `Zone.SumCounts` | libnux/alloc.h:69-105 | the sizes of the free ranges add up to the number of free addresses |
| `Zone.ConsistentRemove` | libnux/alloc.h:69-85 | taking a range off its list, its bit, the tree and the counters leaves them in agreement |
| `Zone.ConsistentAdd` | libnux/alloc.h:87-105 | putting one in leaves them in agreement |
| `KvaTree.NodesOrdered` | libnux/kva.c:84-101 | the comparison of nodes is an order as the red-black tree demands |
| `KvaTree.KeysOrdered` | libnux/kva.c:71-82 | on ranges that do not touch, the comparison with an address agrees with that order |
| `KvaTree.FindsRange` | libnux/kva.c:49-82 | a search by address finds the range that holds it, and nothing exactly when no range does |
| `KvaTree.Ascending` | libnux/kva.c:84-101 | along the nodes the ranges lie in ascending order, with gaps between them |
| `KvaTree.InsertAsserts` | libnux/kva.c:84-101 | a range that touches no other passes the asserts of the comparison against every node and equals none |
| `KvaTree.Vmap.Find` | libnux/kva.c:49-56 | the search on the red-black tree |
| `KvaTree.Vmap.Insert` | libnux/kva.c:58-69 | the tree gains exactly the range |
| `KvaTree.Vmap.Remove` | libnux/kva.c:39-47 | the tree loses exactly the range of the node |
| `KvaZone.Kva.constructor` | libnux/kva.c:236-248 | the whole area, in pages, is free |
| `KvaZone.Kva.ZoneRemove` | libnux/alloc.h:69-140 | lists, occupancy bits, counters and red-black tree all lose the range |
| `KvaZone.Kva.ZoneAttach` | libnux/alloc.h:87-105 | they all gain it |
| `KvaZone.Kva.ZoneCreate` | libnux/alloc.h:142-165 | the free addresses gain exactly the range, merged with its neighbours |
| `KvaZone.Kva.FindFree` | libnux/alloc.h:107-133 | the head of the list of the lowest class that can serve, found exactly when some free range has the power of two |
| `KvaZone.Kva.Alloc` | libnux/alloc.h:177-200 | the addresses handed out are the start of a free range of the lowest class that can serve, exactly they become live, free and live partition the area; failure exactly when no free range has the power of two, and then nothing changes |
| `KvaZone.Kva.Free` | libnux/alloc.h:168-175 | exactly the given addresses, which were not free, become free; free and live addresses go on to partition the area exactly when they were live |
| `KvaZone.Kva.KvaAlloc` | libnux/kva.c:157-171 | the same in whole pages, at a page boundary, never at address 0; all the bytes asked for become live |
| `KvaZone.Kva.KvaFree` | libnux/kva.c:173-182 | the same in whole pages; all the given bytes become free exactly when they end on the pages counted from the first |
| `KvaZone.Kva.Conserved` | libnux/kva.c:39-69 | vmap_size and the live addresses add up to the area, always |
| `KvaZone.Kva.Suffices` | libnux/alloc.h:107-133 | a free range of twice the size less one is always enough |
| `Slab.ObjHome` | libnux/slab.c:25-73 | the objects of a slab lie between its two headers, do not overlap, and each masks back to its slab |
| `Slab.TwoObjects` | libnux/slab.c:25-30 | a slab holds two objects exactly when two fit beside two headers |
| `Slab.MostObjects` | libnux/slab.c:25-30 | a slab holds as many objects as fit beside two headers, and not one more |
| `Slab.ObjSize` | libnux/slabinc.c:199-238 | an object has room for the list entry and for what was asked for, in whole cache lines if asked, and no more than that takes |
| `Slab.QueuesExact` | libnux/slabinc.c:99-195 | for slabs that hold an object, the queue changes follow the free counts exactly when they hold at least two |
| `Slab.OneObjectFaults` | libnux/slabinc.c:109-144 | with one object per slab, the first allocation leaves the full slab in the partial queue and the second takes the head of an empty list |
| `Slab.NoObjectFaults` | libnux/slabinc.c:109-144 | with none, the first allocation takes it |
| `Slab.TwoTakes` | libnux/slabinc.c:109-144 | a new slab serves two allocations if and only if it has two objects |
| `Slab.TakeObject` | libnux/slabinc.c:109-144 | taking the first free object of a slab keeps counts and lists exact; the object was not live |
| `Slab.PutObject` | libnux/slabinc.c:159-195 | putting a live object back keeps them exact |
| `Slab.GridApart` | libnux/slabinc.c:47-75 | two objects of a slab do not overlap |
| `Slab.Cache.constructor` | libnux/slabinc.c:199-238 | a new cache has the object size registered, no slabs and no live objects |
| `Slab.Cache.Chain` | libnux/slabinc.c:61-67 | the loop chains every object of the slab once, the last in front |
| `Slab.Cache.Attach` | libnux/slabinc.c:58-74 | a new slab without live objects comes to the front of the empty queue |
| `Slab.Cache.Detach` | libnux/slabinc.c:83-93 | a round of slab_shrink takes the first slab of the empty queue, which has no live objects |
| `Slab.Cache.Take` | libnux/slabinc.c:109-144 | the first free object of the first partial slab, or of the first empty one if there is none; every slab stays in the queue of its count |
| `Slab.Cache.Free` | libnux/slabinc.c:159-195 | a pointer that leads to no slab is ignored; otherwise exactly the object stops being live, and every slab stays in the queue of its count |
| `Slab.FreeUndoesTake` | libnux/slabinc.c:99-195 | freeing the object just allocated brings back the queues, their order and the lists of free objects |
| `SlabMemory.SlabFits` | libnux/slab.c:32-61 | in the arithmetic of vaddr_t, an aligned slab fits into the pages asked for, wherever they start, with whole pages left over |
| `SlabMemory.SlabOfNothing` | libnux/slab.c:32-61 | from VADDR_INVALID the slab starts at 0 and the page at 8192 seems to be left over |
| `SlabMemory.Trim` | libnux/slab.c:39-55 | the code after kva_alloc, for a block and for VADDR_INVALID alike: what it frees in each case |
| `SlabMemory.SlabAlloc` | libnux/slab.c:32-61 | both outcomes of kva_alloc: the area stays partitioned if and only if some free range has the power of two for what is asked; then exactly one aligned slab becomes live and the rest is free again; otherwise it returns null, with the page at 8192 among the free addresses |
| `SlabMemory.SlabFree` | libnux/slab.c:75-81 | exactly the slab becomes free |
| `SlabMemory.SlabCache.Grow` | libnux/slabinc.c:47-75 | the slab that ___slaballoc gives is none of the cache and becomes one without live objects; SLABFATAL exactly when the area has no room |
| `SlabMemory.SlabCache.Shrink` | libnux/slabinc.c:77-97 | exactly the slabs of the empty queue go back to the area, and no live object is in them |
| `SlabMemory.SlabCache.Alloc` | libnux/slabinc.c:99-157 | the object was not live and is one of the first partial slab if there is one; the cache grows only when no slab has a free object; failure exactly when then the area has no room; the retries never run out |
| `SlabMemory.SlabCache.Free` | libnux/slabinc.c:159-195 | exactly the object stops being live, and the area keeps its slabs |
| `SlabMemory.SlabCache.ObjectsApart` | libnux/slabinc.c:99-157 | the bytes of live objects are live addresses of the area, and no two objects share one |
| `SlabMemory.CachesApart` | libnux/slabinc.c:99-157 | nor do objects of two caches on the area |
| `RwLock.InvExec` | include/nux/locks.h:31-105 | the lock invariant holds after every run of any number of threads |
| `RwLock.Exclusion` | include/nux/locks.h:77-105 | no writer is inside together with a reader or another writer, in any interleaving |
| `RwLock.CountExact` | include/nux/locks.h:77-93 | whenever the reader lock is free, the count is the number of readers inside, and the global lock is held exactly when a reader or a writer is inside |
| `RwLock.NoUnderflow` | include/nux/locks.h:86-93 | the count never drops below zero |
| `RwLock.NoDeadlock` | include/nux/locks.h:31-105 | as long as some thread is not outside, some thread that is not outside can move |
| `RwLock.ReadersShare` | include/nux/locks.h:77-84 | in every run, while a reader is inside and the reader lock is free, another reader gets in by four steps of its own |
| `RwLock.FirstEnters` | include/nux/locks.h:77-84 | in every run, with both locks free a reader gets in by five steps of its own |
| `RwLock.ReaderLeaves` | include/nux/locks.h:86-93 | in every run, with the reader lock free a reader inside gets out by steps of its own, whoever else is inside, and frees the global lock exactly when it is the last |
| `RwLock.WriterEnters` | include/nux/locks.h:95-99 | in every run, with the global lock free a waiting writer gets in by its next step |
| `RwLock.Progress` | include/nux/locks.h:31-105 | every state of every run has a continuation in which a given waiting reader or writer gets in, and one in which a given thread that leaves is out |
| `MemMove.MovedAt` | libec/bcopy.c:86-174 | byte by byte: the destination has the old source bytes, all other bytes are as before |
| `MemMove.MovedUp` | libec/bcopy.c:111-139 | going up to lower addresses, the source bytes still to come are the old ones |
| `MemMove.MovedDown` | libec/bcopy.c:140-167 | going down to higher addresses, too |
| `MemMove.MoveUp` | libec/bcopy.c:111-139 | bytes to alignment, words, remaining bytes: the whole move |
| `MemMove.MoveDown` | libec/bcopy.c:140-167 | the same from the end |
| `MemMove.Memmove` | libec/bcopy.c:86-174 | for every length, alignment and overlap, with words of 4 or 8 bytes, the destination gets the old source bytes and nothing else changes |
| `Strtoul.Cutoff` | libec/_strtoul.h:169-200 | the test against cutoff and cutlim is exactly the overflow of one more digit |
| `Strtoul.Scan` | libec/_strtoul.h:166-213 | the value of the longest run of digits, or the maximum with the end at the start when it does not fit |
| `Strtoul.Strtoul` | libec/_strtoul.h:72-214 | spaces, sign, prefix and digits as a grammar over the whole string, for every base |
| `Strtoul.SpaceChars` | libec/ctype.c:4-8 | blank and the five control characters from tab to carriage return are skipped, and no others |
| `Strtoul.BadBase` | libec/_strtoul.h:83-102 | bases other than 0 and 2 to 36 give 0 and use no characters |
| `Numbers.DigitChars` | libec/_strtoul.h:176-183 | values run on through the decimal digits and the letters of either case, and nothing else has one |
| `Kprintn.DigitsFit` | libec/subr_prf.c:368-413 | a 64-bit value has at most 22 digits, so the buffer is long enough |
| `Kprintn.PutDigits` | libec/subr_prf.c:381-384 | the loop leaves the digits of the value, the highest last, inside the buffer |
| `Kprintn.PutAlt` | libec/subr_prf.c:385-394 | the prefix of the base follows them, unless the value is 0 |
| `Kprintn.PutSign` | libec/subr_prf.c:395-400 | the sign follows, minus before plus before space |
| `Kprintn.Lay` | libec/subr_prf.c:401-413 | blanks, prefix, zeros, digits and trailing blanks come out in the order of the flags |
| `Kprintn.Kprintn` | libec/subr_prf.c:368-413 | the text is sign, prefix, zeros, digits and padding as the flags and the width ask for |
| `Kprintn.FormatShown` | libec/subr_prf.c:368-413 | the text has padding to the width on the side the flags ask for, at most one sign, the prefix of the base and a numeral of the value without leading zeros, for every value, base, width and set of flags |
| `Kprintn.ShownOnce` | libec/subr_prf.c:368-413 | there is only one such text |
| `PrintParse.ParsesNumber` | libec/_strtoul.h:72-214 | spaces, an optional sign, an optional prefix and digits have the value of the digits in every base, chosen by the prefix for base 0, and the end pointer is after them |
| `PrintParse.NoNumber` | libec/_strtoul.h:72-214 | without a digit after spaces and sign the value is 0 and no characters are used |
| `PrintParse.ParsesText` | libec/_strtoul.h:72-214 | in particular such a text in the form that kprintn prints |
| `PrintParse.FormatText` | libec/subr_prf.c:368-413 | what kprintn prints is such a text |
| `PrintParse.RoundTrip` | libec/subr_prf.c:368-413 | strtoul of what kprintn prints in the same base is the number, negated in the unsigned type after a minus, and only spaces are left, for all flags and widths |
| `Squoze.DecEnc` | tools/ar50/squoze.c:5-29 | decoding a character code gives the normed character |
| `Squoze.EncOrder` | tools/ar50/squoze.c:5-29 | the codes follow the order of the alphabet, with all other characters as one group, and each of the forty numbers is a code |
| `Squoze.Encode` | tools/ar50/squoze.c:34-41 | the first loop packs at most twelve codes |
| `Squoze.PadOut` | tools/ar50/squoze.c:43-47 | the second loop brings the first code to the top |
| `Squoze.Squoze` | tools/ar50/squoze.c:31-48 | the number of the padded codes in base 40, below 2^64 at every step |
| `Squoze.SquozeOrder` | tools/ar50/squoze.c:31-48 | encodings compare as the padded code strings do |
| `Squoze.DecodeStep` | tools/ar50/squoze.c:50-64 | a step takes off the next digit, within 64 bits |
| `Squoze.Decode` | tools/ar50/squoze.c:50-64 | for every 64-bit value the loop takes at most twelve steps and writes the characters of the encoding, as many as the length allows; the count handed to memset is what is left, or the largest size |
| `Squoze.ClearInside` | tools/ar50/squoze.c:50-64 | memset stays inside the buffer exactly when the value is 0 or the length holds its last non-zero digit |
| `Squoze.TooShort` | tools/ar50/squoze.c:50-64 | a value of twelve characters does not fit eleven |
| `Squoze.RoundTrip` | tools/ar50/squoze.c:31-76 | decoding an encoded string gives its first twelve characters, normed, without trailing spaces |
| `Squoze.Unsquoze` | tools/ar50/squoze.c:66-76 | a buffer of thirteen always suffices and the text ends with a NUL |

## Left out

- KTlb.ExecInv: steps are sequentially consistent and a compare-and-swap fails only on a different value; the generation counters do not overflow their type. The comparison is the one of the code, with the wrap count in the low six bits (libnux/internal.h:39-53).
- KTlbTheorems.NormalNeverBack: only for runs without an interrupt between two loads, because it is false otherwise.
- STreeLayout.LmapOffStart: orders up to 24, above which the shifts leave the type int.
- STreeLayout.OrderLeast: counts below 2^32, as stree_order takes the bit length of an unsigned value.
- FrameAlloc.FrameAllocator.Free: only frames of the tree; a store past its end is not modelled except where Findings says.
- KvaZone.Kva.FindFree: sizes below 2^31, above which the shift of an int in _zone_findfree is undefined.
- KvaZone.Kva.Alloc: sizes below 2^31, for the same reason.
- KvaZone.Kva.KvaAlloc: rounded sizes from one page up to 2^31, for the same reason; size 0 is no request.
- KvaZone.Kva.Free: only addresses that are not free already; a double free meets the asserts of the tree or corrupts it.
- KvaZone.Kva.KvaFree: the same.
- Slab.Cache.constructor: caches whose slabs hold at least two objects, because the others break (see Findings).
- Slab.Cache.Free: an object of a slab must be live; memory outside the slabs is taken not to hold the magic number.
- SlabMemory.SlabAlloc: the area lies above the first three pages, as the kernel's does; the mapping of the slab's pages is not modelled.
- UserMap.Umap.GetL1p: addresses of the user slots, which hal_umap_getl1p checks (libhal_x86/pmap.c:37-54); the loaded map (`umap == NULL`) is Linmap.LinearMap.GetL1p.
- UserMap.Umap.Next: maps that are not loaded; for the loaded one the same scans start from the root that the window shows.
- Linmap.LinearMap.GetL1p: addresses without a large page on the way, which the code asserts, and outside the window.
- DirectMap.BootTables.Directmap: page-aligned ranges that are not mapped yet; over a large page the code would take the page for a table. Which memory the pages of new tables come from is not modelled.
- Rb.RbTree.Find: keys that compare with the nodes as some place in their order would, as the interface demands; the debugging statistics and checks are left out.
- List entries of the zones and slabs are named by their ranges and addresses; the link pointers of sys/queue.h are not modelled.
- The allocators under contention: their spinlocks make each call one step here.
- stree_setall, which nothing calls, and the early-boot branches of the allocators.
- pae64_getphys, pae64_populate and the 32-bit PAE tables of the boot loader; pae32 and sv48 of the hardware abstraction.
- Reuse of vme records by the kernel heap: every insertion uses a fresh node.
- Constructor callbacks, slab_deregister and statistics of the slab cache; zeroing of objects.
- nux_set_allocator, the frame cache, kernel heap, user contexts, timers, drivers, ACPI, ELF loading.
- The format parser of kdoprnt: only the number printer it calls.
- String functions other than memmove; memmove is one memory with in-range operands.
