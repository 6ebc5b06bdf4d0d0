# CuoreOS kernel model

A Dafny model of the parts of the CuoreOS kernel whose correctness is hardest to
see from the code: the memory subsystem (physical pages, virtual addresses, page
tables, heap), the ELF loader on top of it, processor bring-up and scheduling,
and the arithmetic and format code (bounded random numbers, CRC-32, GUID
partition tables, number printing and reading). `dafny verify dfyconfig.toml`
checks the whole project.

| component | files |
|---|---|
| physical page allocator (`src/mem/pma.c`) | `TlsfMapping`, `FreeRuns`, `FreeLists`, `ZoneIndex`, `Pma` |
| virtual address allocator (`src/mem/vmm.c`, `src/datatype/avl.c`) | `Intervals`, `AvlTree`, `Avl`, `Vmm` |
| page tables (`src/mem/paging.c`) | `PageTable`, `PageSpace`, `PageSight`, `Paging` |
| kernel heap (`src/mem/heap.c`) | `HeapLayout`, `HeapList`, `HeapBlocks`, `HeapPools`, `Heap` |
| ELF loader (`src/binfmt/elf64.c`) | `ElfImage`, `ElfProof`, `ElfProgram`, `ElfPaging`, `Elf`, `ElfWitness` |
| processor bring-up (`src/cpu/smp/init.c`, `src/kmain.c`) | `Smp` |
| scheduler (`src/scheduler.c`) | `Scheduler` |
| bounded random numbers (`src/rand/swrand.c`) | `Rand` |
| CRC-32 (`src/math/crc32.S`, `tools/mkramfs.c`) | `Crc` |
| partition tables (`src/disk/gpt.c`, `src/disk/mbr.c`) | `Bytes`, `Gpt` |
| number printing and reading (`src/stdio.c`) | `Numerals`, `Stdio` |

Objects the kernel changes in place are classes (`Pma.Zone`, `Avl`'s nodes,
`Vmm.Allocator`, `Paging.AddressSpace`, `Heap.Allocator`, `Elf.Loader`,
`Scheduler.Scheduler`, `Gpt.Disk`, `Stdio.Context`); their methods follow the
source's loops and writes and are tied to functions on values, about which the
laws are proved. Bring-up is a step machine over all interleavings.

## What the model found

Where the code does not have the property one would expect, the model keeps the
code and proves exactly when the property holds.

- An aligned page allocation that splits off a block's head and then fails leaves
  two touching free blocks (`Pma.Zone.Alloc`, `Pma.HeadSplitWitness`).
- From 64 pages on, an allocation can fail although a long enough run is free
  (`Pma.AllocFailsIff`, `Pma.ShortHeadWitness`); below 64 it cannot.
- `realloc` growing a block in place by 16 or 32 bytes writes the new header over
  the old neighbour's before reading its successor; the block list is torn
  exactly in the cases `HeapBlocks.Tears` names (`Heap.Allocator.Realloc`,
  `Heap.TearWitness`).
- A page mapped for users is reachable by users exactly when every table on its
  path was already there and open to users (`Paging.UserNeedsPath`); so no page of
  a program loaded into a fresh lower half is, even if it is loaded for users
  (`ElfPaging.AsAsked`, `Elf.Loader.Parse`).
- `paging_get_phys` leaves the no-execute bit of a huge page in the address, and
  the direct-map pointer made of it is not canonical (`Elf.CanonicalIff`). Loading
  page-disjoint segments therefore faults exactly when some loadable segment has a
  whole 2 MB chunk and is not executable (`Elf.Loader.Parse`,
  `ElfWitness.FaultWitness`).
- The loader's tail loop also covers the pages of the 2 MB chunk before a segment
  that starts and ends in one chunk. A page ends with exactly its segment's rights
  if and only if no segment that touches it, loaded before or after, asks for more
  (`ElfPaging.OwnRightsIff`, `ElfWitness.SpillWitness`).
- The virtual allocator's rounding aligns every address exactly for powers of two
  (`Intervals.AlignUpAlignsIff`).
- Processor bring-up writes one entry past `cpu_blocks` when the boot processor is
  not among the first `cores_to_boot` processors listed and `cores_to_boot` is the
  size of the table (`Smp.InTable`, `Smp.PastTable`).
- A table installed on a disk of 68 to 2081 sectors describes a partition of
  length zero or of wrapped-around length (`Gpt.PartitionFits`).
- A number printed with leading spaces is read back as zero, any other way of
  printing it is read back exactly (`Numerals.DecimalRoundTrip`).

## Model

| member | source | states |
|---|---|---|
| TlsfMapping.MappingBounds | src/mem/pma.c:55-69 | the bin of a size is the one whose size interval contains it, and every size the allocator handles has a bin in the table |
| TlsfMapping.BinsOrdered | src/mem/pma.c:55-69 | bins in (fl, sl) order cover disjoint, increasing size intervals |
| TlsfMapping.MappingMonotone | src/mem/pma.c:55-69 | larger sizes never map to earlier bins |
| TlsfMapping.FoundBlockSize | src/mem/pma.c:131-151 | a block from the request's bin or a later one is short by less than one bin width, and below 64 pages never short |
| FreeRuns.RunsDetermined | src/mem/pma.c:418-458 | the bitmap alone determines the maximal free runs |
| FreeRuns.CarveMaximal | src/mem/pma.c:343-400 | cutting an allocated range out of a maximal run leaves exactly the maximal runs of the new bitmap |
| FreeRuns.MergeMaximal | src/mem/pma.c:418-458 | joining a freed range with the runs before and after it gives exactly the maximal runs of the new bitmap |
| FreeRuns.CarveMergeInverse | src/mem/pma.c:343-458 | carving and merging the same range give back the same free runs |
| FreeLists.RemoveKeeps | src/mem/pma.c:72-87 | unlinking a block keeps every bin a well-formed doubly linked list ending in the sentinel, without that block |
| FreeLists.InsertKeeps | src/mem/pma.c:89-98 | pushing a block keeps every bin a well-formed list, with the block in its bin |
| FreeLists.CandidateIsFirstFit | src/mem/pma.c:113-129 | the two bit scans find the first non-empty bin at or after the request's, and nothing exactly when there is none |
| ZoneIndex.RemovedOk | src/mem/pma.c:72-104 | removing a block keeps lists, bitmaps and block sizes in agreement: a bit is set exactly when its bin is non-empty |
| ZoneIndex.InsertedOk | src/mem/pma.c:89-110 | the same for inserting a block into the bin of its size |
| ZoneIndex.FoundFits | src/mem/pma.c:113-151 | a found block is free, in a bin no earlier than the request's, and nothing is found exactly when all free blocks are in earlier bins |
| Pma.Zone.constructor | src/mem/pma.c:202-220 | an empty zone: every bin empty, every page used |
| Pma.Zone.AddRegion | src/mem/pma.c:223-254 | adds exactly the whole pages of a region except page 0 as one free block; blocks stay maximal runs exactly when the region touches no free page |
| Pma.RegionWhole | src/mem/pma.c:223-240 | the pages of a region are exactly the whole pages in its bytes, page 0 excepted |
| Pma.Zone.LocateFree | src/mem/pma.c:131-151 | takes the candidate block out of the index |
| Pma.Zone.BlockSplit | src/mem/pma.c:155-167 | cuts a block's header into two whose sizes add up |
| Pma.Zone.Alloc | src/mem/pma.c:343-400 | success returns the least aligned page of the located block and marks exactly the pages from there, which were free; failure changes no page; free blocks stay the maximal runs exactly unless a head was split off before the failure |
| Pma.Zone.FreeRange | src/mem/pma.c:418-458 | freeing an allocation or a part of one clears exactly the range, merges with the neighbouring runs, leaves the other pages live, and keeps free blocks equal to the maximal free runs |
| Pma.Zone.AllocThenFree | src/mem/pma.c:343-458 | allocating and freeing restores the same bitmap and free blocks |
| Pma.Zone.ClientWrite | src/mem/pma.c:72-98 | whatever owners write into their pages, headers included, the index stays intact |
| Pma.Zone.WouldSplitHead | src/mem/pma.c:363-388 | whether an aligned allocation will end at the failing exit after a head split can be read off the zone before the call |
| Pma.Zone.Run | src/mem/pma.c:72-458 | every history of page and 2 MB allocations that avoids that exit, frees of allocations or parts of them, and owner writes keeps bitmap, bins and free lists in agreement, free blocks equal to the maximal runs, and exactly what was allocated and not freed live and disjoint; everything held lies in what was handed out, and every 2 MB allocation was handed out on a multiple of 512 pages |
| Pma.SmallAllocFailsIff | src/mem/pma.c:343-388 | below 64 pages an allocation fails exactly when no free run is long enough |
| Pma.AllocFailsIff | src/mem/pma.c:343-388 | for any length it fails exactly when no run is long enough or in the request's bin, or the head of the request's own bin is too short |
| Pma.GapFits | src/mem/pma.c:363-372 | rounding up to the alignment stays inside the located block, so the head split never underflows |
| Pma.HeadSplitWitness | src/mem/pma.c:369-388 | a concrete zone in which a failing aligned allocation leaves two touching free blocks |
| Pma.ShortHeadWitness | src/mem/pma.c:131-151 | a concrete zone in which a 65-page allocation fails although 100 pages are free |
| Intervals.LinearGapIsLowest | src/mem/vmm.c:115-153 | for a power of two the linear scan gives the lowest aligned address of a hole that is large enough before the last interval, and 0 exactly when there is none |
| Intervals.NoGap | src/mem/vmm.c:126-126 | when the largest gap is too small the linear scan finds nothing between the intervals, so pruning is safe |
| Intervals.AlignUpLeast | src/mem/vmm.c:16-19 | for a power of two, masking gives the least aligned address not below |
| Intervals.AlignUpAlignsIff | src/mem/vmm.c:16-19 | masking aligns every address exactly for powers of two; otherwise it fails already at address 1 |
| Intervals.FoundIsFree | src/mem/vmm.c:115-182 | whatever the alignment, the address found is free space from the base on |
| Intervals.InsertRemove | src/mem/vmm.c:172-226 | removing the interval just inserted gives the old intervals back |
| AvlTree.RebalanceBalances | src/datatype/avl.c:31-43 | one rebalance restores balance after a one-step change of height, double rotations included |
| AvlTree.RebalanceKeeps | src/datatype/avl.c:11-43 | rotations keep the in-order sequence and the set of nodes |
| AvlTree.InsertOrder | src/datatype/avl.c:54-61 | insertion adds the interval at its place of the in-order sequence |
| AvlTree.InsertBalanced | src/datatype/avl.c:54-61 | insertion keeps the tree balanced and its height grows by at most one |
| AvlTree.DeleteOrder | src/datatype/avl.c:63-79 | deletion removes exactly the interval with the key, successor relinking included |
| AvlTree.DeleteBalanced | src/datatype/avl.c:45-79 | deletion keeps the tree balanced and its height shrinks by at most one |
| AvlTree.FindMeaning | src/datatype/avl.c:81-89 | the search finds the node with the key exactly when there is one |
| AvlTree.FieldsMeaning | src/mem/vmm.c:46-83 | subtree start, end and largest gap are those of the subtree's in-order intervals |
| Avl.VmmUpdate | src/mem/vmm.c:46-83 | recomputes the three augmented fields of a node from its children |
| Avl.Rebalance | src/datatype/avl.c:31-43 | relinks nodes in place as the tree rotation does, with every field of every node up to date |
| Avl.Insert | src/datatype/avl.c:54-61 | the in-place recursion builds the inserted tree; an equal key changes nothing |
| Avl.UnlinkLeftmost | src/datatype/avl.c:45-52 | takes out the leftmost node and rebalances on the way up |
| Avl.Delete | src/datatype/avl.c:63-79 | the in-place recursion builds the tree without the key and reports the removed node |
| Avl.Find | src/datatype/avl.c:81-89 | the read-only loop returns the tree's node for the key or null |
| Vmm.FindGap | src/mem/vmm.c:115-153 | the recursion over node fields is the pruned search on the tree |
| Vmm.PrunedIsLinear | src/mem/vmm.c:115-153 | the pruned search equals a linear scan of the in-order intervals |
| Vmm.Allocator.constructor | src/mem/vmm.c:155-170 | an empty pool |
| Vmm.Allocator.AllocAligned | src/mem/vmm.c:172-194 | reserves exactly one interval, free and inside the pool, or panics; for a power of two it is the lowest aligned address that is free, and a panic means that none in the pool is |
| Vmm.Allocator.FreePages | src/mem/vmm.c:204-226 | removes exactly the interval that starts there, whatever its length; reports it exactly when the length matches |
| Vmm.Allocator.AllocThenFree | src/mem/vmm.c:172-226 | allocating and freeing restores the reserved intervals |
| Vmm.Allocator.Run | src/mem/vmm.c:172-226 | every history keeps the intervals disjoint and in the pool and the tree balanced and augmented |
| PageTable.LocalChange | src/mem/paging.c:14-61 | in a tree of tables a change of one table that keeps its own translations keeps all translations |
| PageTable.EntryChange | src/mem/paging.c:93-97 | changing one entry affects only the addresses of its page |
| PageSpace.AddTableKeeps | src/mem/paging.c:26-33 | adding an empty table changes no translation and keeps the tables a tree |
| PageSpace.SplitKeeps | src/mem/paging.c:34-54 | splitting a huge page keeps every address's translation and its writable, user and no-execute rights |
| PageSight.SplitFlagsKept | src/mem/paging.c:34-54 | and every other flag of the entry an address ends at, except that the parts of the page are not global |
| PageSpace.WithEntryHere | src/mem/paging.c:93-97 | a leaf entry decides the translation of its page, with its rights limited by those of the path |
| PageSpace.WithEntryElsewhere | src/mem/paging.c:93-97 | and leaves every other address's translation as it was |
| PageSight.SightTranslates | src/mem/paging.c:63-83 | an address translates as the entry its walk ends at says, on that entry's level; below tables the walk made itself the entry's own rights are the effective ones, but never for users |
| PageSight.SightAdd | src/mem/paging.c:26-33 | adding an empty table changes for no address which entry maps it and on which level |
| PageSight.SightHere | src/mem/paging.c:93-97 | once its table is there, a leaf entry is what every address of its page ends at |
| PageSight.Stuck | src/mem/paging.c:26-39 | where a walk runs out of memory, the addresses that would have shared the next table are all mapped or all unmapped |
| Paging.AddressSpace.FillSplit | src/mem/paging.c:40-50 | the loop fills the new table with the 512 parts of the huge page |
| Paging.AddressSpace.WalkToLevel | src/mem/paging.c:14-61 | with allocation no translation or right changes even if it stops early, no flag but the global one of a page it split, at most one page a level is taken, and huge pages change only where one is split; without, or when every table is there, nothing is written; without, it succeeds exactly when every table is there |
| Paging.AddressSpace.Map | src/mem/paging.c:85-147 | a successful 4 KB, 2 MB or 1 GB map makes exactly that page translate to the physical page plus offset with the given rights limited by the path, and end at an entry with every flag asked for, while all other addresses keep their flags; a failed one changes no translation; it cannot fail when the tables are there |
| Paging.AddressSpace.Unmap | src/mem/paging.c:104-164 | unmapping removes exactly that page's translations when its table is there, and otherwise changes nothing |
| Paging.AddressSpace.GetPhys | src/mem/paging.c:166-185 | returns the translated address, with bit 63 set exactly for a huge page that is not executable; 0 when there is none |
| Paging.AddressSpace.GetPte | src/mem/paging.c:85-89 | the entry that maps the address if it is a last-level one, and nothing for a huge page |
| Paging.UserNeedsPath | src/mem/paging.c:26-33 | the path of a new mapping is open to users exactly when every entry on it was present and open to users |
| HeapLayout.RegionTiled | src/mem/heap.c:93-146 | every region is tiled without holes from its first block to its end |
| HeapLayout.PayloadsDisjoint | src/mem/heap.c:222-288 | payloads are 16-byte aligned and meet no other block |
| HeapLayout.CutKeeps | src/mem/heap.c:253-265 | splitting a block keeps regions tiled and neighbours not both free |
| HeapLayout.MeltKeeps | src/mem/heap.c:353-372 | absorbing the next block of a region keeps regions tiled |
| HeapList.CutRep | src/mem/heap.c:254-264 | the header writes of a split turn the list into that of the split layout |
| HeapList.MeltRep | src/mem/heap.c:355-359 | the header writes of a coalesce turn the list into that of the merged layout |
| HeapBlocks.TakeRelease | src/mem/heap.c:251-374 | taking a block and releasing it at once gives back the same layout |
| HeapBlocks.ReleaseSteps | src/mem/heap.c:350-372 | freeing, absorbing forward and being absorbed backward leaves one free block and no free neighbours |
| HeapBlocks.NextReadRight | src/mem/heap.c:414-420 | the successor read after the new header is written is the true one exactly when the growth is at least 48 bytes, or 16 bytes and there is no successor |
| HeapBlocks.GrowCoreOk | src/mem/heap.c:408-425 | with the true successor, growing in place keeps list, tiling and pool pages |
| HeapBlocks.GrowTorn | src/mem/heap.c:414-424 | with any other successor the headers no longer form the list of the layout |
| HeapPools.LiveDisjoint | src/mem/heap.c:148-288 | live allocations, block payloads and pool slots together, are aligned and pairwise disjoint |
| HeapPools.BlockNotInPool | src/mem/heap.c:60-73 | a block's pointer is never taken for a pool pointer |
| HeapPools.PtrType | src/mem/heap.c:67-73 | the page registry tells live pool pointers from live block pointers |
| HeapPools.RetireOk | src/mem/heap.c:310-341 | retiring a pool page keeps the other pools, the registry and the counters consistent |
| HeapPools.ClearOk | src/mem/heap.c:379-449 | writing inside a live allocation destroys no header in use |
| Heap.Allocator.constructor | src/mem/heap.c:191-220 | one free region, three pool pages, nothing live |
| Heap.Allocator.OpenPool | src/mem/heap.c:151-188 | a new pool page whose every slot is on the free list once |
| Heap.Allocator.Append | src/mem/heap.c:75-81 | links a block behind the tail |
| Heap.Allocator.Unlink | src/mem/heap.c:83-89 | takes a pool page out of the list and forgets a last fit on it |
| Heap.Allocator.Grow | src/mem/heap.c:93-146 | adds one region as one free block large enough for the request, exactly when one is available |
| Heap.Allocator.Scan | src/mem/heap.c:237-284 | visits each block at most once and returns the first serving one in cyclic order from the last fit, nothing exactly when none serves |
| Heap.Allocator.TakeBlock | src/mem/heap.c:251-269 | splits and hands out a free block, touching no byte in use |
| Heap.Allocator.ReleaseBlock | src/mem/heap.c:346-374 | frees a block with two-way coalescing, touching no byte still in use |
| Heap.Allocator.TakeSlot | src/mem/heap.c:225-232 | pops a slot that was not live and counts it |
| Heap.Allocator.FreeSlot | src/mem/heap.c:293-344 | frees exactly that slot; with the last live slot of its page the page leaves the registry, the block list and the pool, otherwise the slot heads the pool's free list, the page counts one less and nothing else changes |
| Heap.Allocator.IsPoolPage | src/mem/heap.c:60-65 | finds a page in the registry exactly when it is there |
| Heap.Allocator.ServeBlock | src/mem/heap.c:235-288 | grows exactly when no block serves, at most once, and then succeeds; the rest of the list is untouched |
| Heap.Allocator.Malloc | src/mem/heap.c:222-288 | adds exactly one live allocation of at least the size, at an address where none was: the first slot of the smallest pool that has one, or else a serving block; null exactly for size 0 or when no slot, block or region is there; all live bytes kept |
| Heap.Allocator.Free | src/mem/heap.c:290-377 | removes exactly that allocation and keeps the bytes of all others; null is ignored |
| Heap.Allocator.GrowInPlace | src/mem/heap.c:412-425 | the list survives exactly when the growth does not tear it, and then every byte in use is kept |
| Heap.Allocator.Move | src/mem/heap.c:437-444 | allocate, copy and free keep the caller's bytes and all others; null exactly when malloc finds no slot, block or region |
| Heap.Allocator.Realloc | src/mem/heap.c:379-449 | on every path that does not tear the list the first bytes up to the old size and every other allocation's bytes are kept and the allocation is replaced by one large enough; null exactly for size 0 or when it must move and malloc finds nothing; the list is torn exactly in the stated cases |
| Heap.Allocator.ClientWrite | src/mem/heap.c:222-288 | holders writing into their allocations disturb neither the heap nor each other |
| Heap.Allocator.WouldTear | src/mem/heap.c:404-425 | the condition for tearing can be read off the headers before the call |
| Heap.Allocator.HeldSize | src/mem/heap.c:379-400 | a live allocation's size, from its header or its pool's |
| Heap.Allocator.Run | src/mem/heap.c:222-449 | every history of malloc, free, realloc that does not tear, of null and to size 0 too, and writes to any byte held keeps every invariant, and what is live is exactly what was before or was handed out and not taken back, each pointer once |
| Heap.TearWitness | src/mem/heap.c:412-425 | a new heap, one malloc and one realloc: growing by 16 or 32 bytes leaves a torn list, growing by 48 a valid heap |
| ElfProgram.NoClash | src/binfmt/elf64.c:54-134 | for page-disjoint segments whole chunks are unmapped and no touched page is in a huge page |
| ElfProof.NewSmall | src/binfmt/elf64.c:62-67 | a new zeroed frame, mapped or not for want of tables, leaves every mapped page's frame and bytes alone and no frame, block or table used twice |
| ElfProof.NewBig | src/binfmt/elf64.c:86-91 | the same for a new 2 MB block |
| ElfPaging.SmallMap | src/mem/paging.c:93-97 | a 4 KB map on the page tables is an update of one page of the view read off them |
| ElfPaging.BigMap | src/mem/paging.c:118-122 | a 2 MB map on the page tables is an update of the 512 pages of its chunk |
| ElfProgram.PhasesOk | src/binfmt/elf64.c:58-134 | head, middle and tail loop together keep all earlier pages' frames and contents, add zeroed pages in the touched range only, and give the segment's rights there and nowhere else |
| ElfProgram.CopyLoads | src/binfmt/elf64.c:136-179 | copying the file part and zeroing the rest into empty pages makes every byte of the segment what its header asks |
| ElfProgram.SegmentOk | src/binfmt/elf64.c:35-180 | after another segment's loops every earlier segment is still loaded and the new one is, with exact rights |
| ElfPaging.OwnRightsIff | src/binfmt/elf64.c:112-134 | a page ends with exactly its segment's rights if and only if no loaded segment that touches it asks for more |
| ElfPaging.ViewTranslates | src/mem/paging.c:166-185 | every lower-half address translates as the view of its page says |
| ElfPaging.LoadInPlace | src/binfmt/elf64.c:32-190 | then every address of every segment translates to a byte with the header's content and at least its rights, exactly the touched pages are mapped, no two addresses share memory and none lies in a page table |
| Elf.CanonicalIff | src/binfmt/elf64.c:152-152 | a pointer into the direct map is canonical exactly when bit 63 of the physical address is clear |
| Elf.Loader.AddPage | src/binfmt/elf64.c:62-67 | an unmapped page gets a zeroed frame; if it stays unmapped, memory is used up and its whole chunk is unmapped |
| Elf.Loader.Rejoin | src/binfmt/elf64.c:69-78 | whatever the tables, a mapped address is mapped again with exactly the flags it has plus the write and execute rights asked for, or no translation changes |
| Elf.Loader.JoinPage | src/binfmt/elf64.c:69-78 | a mapped page keeps its frame and bytes and has the rights of both |
| Elf.Loader.MapSmalls | src/binfmt/elf64.c:58-80 | the 4 KB loops map every page of their range with the segment's rights, and leave one unmapped only at the end and when memory is used up |
| Elf.Loader.MapBigs | src/binfmt/elf64.c:82-110 | the 2 MB loop maps every chunk, unless memory for tables is used up |
| Elf.Loader.Locate | src/binfmt/elf64.c:142-152 | the write goes to the page's own frame, stops at an unmapped page, and faults exactly at a page that is huge and not executable |
| Elf.Loader.FillBytes | src/binfmt/elf64.c:140-157 | a finished copy changed exactly its bytes; otherwise a page of the range is missing, or faults |
| Elf.Loader.Load | src/binfmt/elf64.c:32-180 | one program header keeps earlier segments loaded and loads the new one; it faults only for a segment astray and fails only for a short file or used-up memory |
| Elf.Loader.Parse | src/binfmt/elf64.c:9-190 | into a fresh lower half with enough memory, page-disjoint segments of an acceptable file load exactly if none with a whole 2 MB chunk lacks execution and fault otherwise; once loaded every address translates, reads and may be used as asked; entry and top are reported |
| ElfWitness.FaultWitness | src/binfmt/elf64.c:159-178 | a writable 4 MB segment of zeros at 4 MB faults |
| ElfWitness.SpillWitness | src/binfmt/elf64.c:112-134 | a read-only page is writable after a writable segment in the same chunk is loaded, before or after it |
| Smp.RunOk | src/cpu/smp/init.c:37-57 | every state of every interleaving keeps the bring-up invariant |
| Smp.CoresMeaning | src/kmain.c:166-185 | as many processors are wanted as are listed, as the table holds and as were asked for, at least one |
| Smp.BringUpSafe | src/cpu/smp/init.c:37-57 | in every interleaving at most one processor is in the locked section, logical ids are dense and distinct, every online processor's block is published under its own id with its own hardware id, and the panic is unreachable |
| Smp.BringUpComplete | src/kmain.c:195-219 | when the boot processor has finished, as many are online as it wanted, it has visited each of their blocks in order and found it published under its own id, and if it counted itself every processor it started is registered |
| Smp.InTable | src/kmain.c:178-206 | if the boot processor is among the first cores or the table has room, no interleaving writes outside cpu_blocks |
| Smp.PastTable | src/kmain.c:199-208 | otherwise some interleaving writes one entry past its end |
| Smp.NeverStuck | src/kmain.c:187-223 | until the boot processor has finished some processor can move |
| Smp.BringUpEnds | src/kmain.c:187-223 | the number of moves of any interleaving is bounded |
| Scheduler.Scheduler.Init | src/scheduler.c:143-153 | the bootstrap task is a ring of one with id 0 |
| Scheduler.Scheduler.Enroll | src/scheduler.c:88-109 | the new task gets the next id and goes to the far end of the ring, which stays doubly linked with distinct ids |
| Scheduler.Scheduler.Tick | src/scheduler.c:15-42 | the next task runs; the old one goes last, or leaves the ring exactly when its id is 0 and it is not alone |
| Scheduler.Scheduler.Exit | src/scheduler.c:111-125 | the running task leaves and the next one runs, refused exactly for the last task |
| Scheduler.Scheduler.Do | src/scheduler.c:15-125 | one enrolment, timer interrupt or exit does to the ring what the corresponding event of the sequence law does |
| Scheduler.Scheduler.Find | src/scheduler.c:44-54 | terminates and finds a task exactly when one with the id is in the ring |
| Scheduler.Unique | src/scheduler.c:44-54 | at most one task of a ring has a given id |
| Scheduler.Scheduler.Run | src/scheduler.c:15-125 | over every history of enrolments, timer interrupts and exits, a task at distance d is one place closer after each switch and is the current task after exactly d |
| Scheduler.TurnComes | src/scheduler.c:15-125 | the same for sequences: a task at distance d runs after exactly d ticks whatever is enrolled or exits meanwhile |
| Rand.Threshold | src/rand/swrand.c:28-32 | the negate-and-reduce code computes 2^32 mod range |
| Rand.ShortcutSafe | src/rand/swrand.c:27-33 | the l < range shortcut never changes which draws are accepted |
| Rand.DrawsOf | src/rand/swrand.c:22-40 | the accepted draws that give a value are one block of consecutive draws |
| Rand.Unbiased | src/rand/swrand.c:22-40 | every value of the range is produced by exactly floor(2^32 / range) accepted draws |
| Rand.RandInt | src/rand/swrand.c:15-41 | the first accepted draw decides, and the result lies between the bounds given in either order |
| Crc.Fill | tools/mkramfs.c:89-96 | the nested loops fill the table with eight rounds of each index |
| Crc.LookUp | src/math/crc32.S:86-90 | one table look-up and a shift do the work of eight bit steps |
| Crc.FoldIsCrc | tools/mkramfs.c:98-103 | byte steps over a message equal bit steps over its bits |
| Crc.Crc32 | src/math/crc32.S:78-98 | the table loop computes the bit-by-bit reflected CRC-32 of every byte string |
| Crc.CheckValue | src/math/crc32.S:78-98 | the bytes of "123456789" give the published check value 0xCBF43926 |
| Crc.DetectsByte | src/math/crc32.S:78-98 | changing one byte of a message always changes its CRC |
| Gpt.Parse | src/disk/gpt.c:11-76 | of every disk with a header and an entry array that pass their checks exactly the entries with a type are registered, in order, each with its own number, first sector, length and type |
| Gpt.RefusesWrongSums | src/disk/gpt.c:19-50 | nothing is registered unless the signature and both checksums are right |
| Gpt.ParseMbr | src/disk/mbr.c:7-47 | reports a protective table exactly when the signature is there and one of the four types is 0xEE |
| Gpt.HeaderReads | src/disk/gpt.c:126-152 | a written header passes the reader's checks and gives back where its array is |
| Gpt.HeaderLayout | src/disk/gpt.c:126-152 | every field of a written header is where section 5.3.2 of UEFI 2.10 has it |
| Gpt.EntryLayout | src/disk/gpt.c:89-106 | every field of the written entry is where section 5.3.3 of UEFI 2.10 has it, the name in 16-bit units with a zero behind it, and the rest of the array is empty |
| Gpt.MbrLayout | src/disk/gpt.c:110-120 | the first sector holds one protective entry for the rest of the disk, the boot signature and nothing else |
| Gpt.ArrayParses | src/disk/gpt.c:89-108 | a written array reads as exactly one entry, or none for the empty type |
| Gpt.InstallThenParse | src/disk/gpt.c:78-156 | after installation the disk reads as a protective MBR, and both tables pass every check, name each other and give the one partition |
| Gpt.PartitionFits | src/disk/gpt.c:98-100 | the partition lies in the usable sectors exactly on disks of at least 2082 sectors; its length is total - 2081 there and wraps below 2081 |
| Gpt.Disk.Install | src/disk/gpt.c:78-156 | writes exactly those sectors in place, the backup header made from the primary one in the same buffer; disks below 68 sectors are left alone |
| Gpt.DamagedArray | src/disk/gpt.c:45-50 | changing any one byte of the partition array makes the reader refuse it |
| Numerals.DigitsValue | src/stdio.c:137-172 | the digits of a number denote it, in every base |
| Numerals.DecimalRoundTrip | src/stdio.c:19-37 | reading a number printed in decimal with any width and flags gives it back, and 0 exactly when spaces come first |
| Numerals.HexRoundTrip | src/stdio.c:19-37 | the same for prefixed hexadecimal in both cases |
| Numerals.SignedRoundTrip | src/stdio.c:197-218 | a signed number's text, read past spaces and a sign, gives the number back for every width and flags, and starts with the sign it should |
| Numerals.WidthMet | src/stdio.c:139-195 | the text is exactly as wide as asked for or as long as sign and digits, which stand at the side asked for with the filling asked for |
| Stdio.WriteDecimal | src/stdio.c:154-166 | two digits at a time give the decimal digits and never run out of the buffer |
| Stdio.WriteInBase | src/stdio.c:144-153 | one digit at a time for the other bases, within the buffer |
| Stdio.Context.Putc | src/stdio.c:114-119 | appends one character; the buffer holds the first min(pos, cap) characters of all output |
| Stdio.Context.Write | src/stdio.c:121-127 | appends a string, truncating only what does not fit |
| Stdio.Context.Pad | src/stdio.c:129-135 | appends n copies of a character |
| Stdio.Context.FmtUint | src/stdio.c:137-195 | appends exactly the formatted number |
| Stdio.Context.FmtSigned | src/stdio.c:197-218 | appends the text of the number: a signed reader gets every 64-bit value back from it, it is at least as wide as asked for, and it shows a minus exactly for negative numbers and a plus exactly when asked for |
| Stdio.Context.Terminate | src/stdio.c:445-449 | ends what fits with a terminator and returns the full length |
| Stdio.Strtoull | src/stdio.c:19-37 | reads the leading digits, decimal or prefixed hexadecimal, in 64-bit arithmetic |
| Stdio.PtrToHex | src/stdio.c:10-17 | writes sixteen hexadecimal digits that denote the value |

## Left out

- Two zones sharing one page bitmap (`src/mem/pma.c:278-280`): the model has one zone with its own bitmap, in units of pages; requests have at least one page.
- Bit words of the page allocator are sets of bit positions, and the bit-scan instructions are least members; word width is the size of the table.
- Pma.Zone.FreeRange: frees of ranges that do not lie in one live allocation are not modelled; the code would trust them.
- Pma.Zone.AddRegion: a region past the zone's last page is not modelled; zone start-up never passes one.
- Vmm.Allocator.AllocAligned: 64-bit address wrap and the early node pool's limit are not modelled, and nodes are not reclaimed (`src/mem/vmm.c:93` is overwritten at line 100).
- TLB flushes and `range_is_safe`; physical addresses have no bits between the architecture's limit and bit 63.
- Out-of-memory panics of the virtual allocator inside `heap_grow`, the mapping of a grown region and the return of a retired pool page to the physical allocator: a grown region is a parameter.
- Heap.Allocator.Malloc: 64-bit overflow of the size and the heap magic checks are not modelled; a pool's free list is a sequence rather than linked nodes.
- Heap.Allocator.Free: a pointer that is not live is not modelled; the code trusts it or panics.
- `zalloc`, `zfree` and the size-taking variants: a call and a memset.
- Program headers are given as records; addresses of a segment do not wrap at 64 bits. Page tables and program memory are kept apart in the model, and that no page or block of a program ever holds a table is proved.
- The 2 MB blocks and the single pages of the physical allocator are two supplies that do not overlap; the loader's success is stated for supplies large enough by a bound computed from the program headers (`Elf.PagesFor`, `Elf.BlocksFor`).
- Elf.Loader.Parse: segments with an empty memory image, overlapping segments and files larger than their memory image are run by the model but the contents theorem does not speak of them.
- `elf64_alloc` and task stacks: a call of the loader and a copy of entries.
- Smp: status and mailbox fields, interrupt handler installation and memory ordering weaker than one access at a time.
- Scheduler.Scheduler.Tick: saved registers, address-space switches and freeing a task's memory and stack; task identifiers do not wrap at 64 bits.
- Rand.RandInt: the generator is a parameter, the sequence of its 32-bit outputs; the loop may run out of draws.
- The literal table in `src/math/crc32.S` is not compared entry by entry with the one `crc32_fill` builds.
- Gpt.Parse: allocation failures and the chaining of registered partitions (`src/disk/partition.c`); a disk is its bytes.
- Stdio.Context.FmtUint: the two-digit table is given by its meaning, and the format-string parser and floating point are not modelled.
- Drivers, port I/O, interrupts, APIC, ACPI, SMBIOS, PCI, terminal, keyboard, audio, `cmm.c`, `ramfs.c`, `mailbox.c`, `logbuf.c`, `symtable.c`, `cmdline.c`, `registry.c`, `time.c` and `list.h`: hardware effects, user interface, or easier code.
