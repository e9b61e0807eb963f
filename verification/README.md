# Telos: models and proofs

Telos is a 32-bit x86 kernel written in C. This project models six of its parts in Dafny and proves
what they promise.

| part | modules | main results |
|---|---|---|
| Copy-on-write address spaces | `Machine`, `VmaList`, `MmStruct`, `FrameTable`, `Paging`, `Eager`, `AddressSpaces`, `CowKernel` | `CowKernel.Kernel.Run`, `CowKernel.FrameAccounting`, `MmStruct.CutAt`, `MmStruct.RunKeepsWf`, `VmaList.FindHighCorrectIff` |
| Buffer cache, block I/O, ext2 block lists | `BlockCache`, `BlockIo`, `Ext2Blocks` | `BlockIo.RunOps`, `BlockIo.BioDoIo`, `Ext2Blocks.InodeToBioVec` |
| Printing and parsing numbers | `Decimal`, `NumberFormat`, `StandardField`, `FormatDecode`, `Vsnprintf`, `Directives`, `Formats`, `Strtox`, `RoundTrip` | `Decimal.PutDec`, `Vsnprintf.VsnPrintf`, `Formats.FormatMeans`, `Vsnprintf.StarWidth`, `StandardField.StandardIff`, `Directives.IntegerDirectiveIff`, `RoundTrip.PrintParseIff` |
| Kernel allocators | `KernelPages`, `Heap`, `SlabCache` | `KernelPages.RunPages`, `Heap.RunHeap`, `SlabCache.RunSlab` |
| Path walking | `Namei` | `Namei.Vfs.Namei`, `Namei.ResolveAppend`, `Namei.DoubledSlash`, `Namei.WalkBack` |
| Pipes | `Flexbuf`, `Pipe` | `Pipe.RunPipe`, `Pipe.Fifo` |

The C code changes things in place, so its operations are methods of classes that hold the fields the
C code updates: the area list, the page tables and frame counts, the hash table of buffers, the inode
counts. Lists and tables are fields of type `seq` and `map`; buffers that the C code writes through a
pointer are arrays with an index. Each method is proved against a function on plain values, and the
properties are proved about those functions and about the invariants the methods keep. Integers are
unbounded in Dafny, so the 32-bit, 16-bit and 64-bit arithmetic of the modelled functions is written out;
what is not is listed under "Left out".

How the address-space part fits together. `Eager` is a kernel in which fork copies every byte. `Paging`
is the real one: frames with reference counts, two-level page tables, husks, `pm_apply`. `AddressSpaces`
relates a state of the second to a state of the first, and `CowKernel` proves that every operation of the
second is the corresponding operation of the first. The invariant that carries this is `AddressSpaces.CowInv`.

Where the code does not do what it is meant to do on every input, the model keeps the code's behaviour,
names an input that shows it, and proves exactly when the intended property holds:

- `vma_find_space_high` forms sums in 32 bits. The range it returns may overlap an area
  (`VmaList.FindHighOverlapsStack`) or lie in the kernel (`VmaList.FindHighIntoKernel`);
  `VmaList.FindHighCorrectIff` says exactly when it is right, for every start and length.
- `vma_find_space` passes over a gap of exactly the size asked for (`VmaList.FindLowMissesExactFit`); with one byte
  to spare it finds the lowest place (`VmaList.FindLowComplete`). What it returns is right exactly when the place it
  takes does not wrap (`VmaList.FindLowSoundIff`).
- `sys_munmap` computes its end address in 32 bits (`MmStruct.CutKeepsWfIff`, `MmStruct.MunmapWraps`), and so do
  `vma_create_low` (`MmStruct.LowAreaCorrectIff`), `vma_create_fixed` (`MmStruct.FixedAreaCorrect`,
  `MmStruct.FixedWraps`) and `vma_grow_up` (`MmStruct.GrowKeepsWfIff`). Through `sys_sbrk` the last leaves a heap area
  that ends below its start (`MmStruct.SbrkKeepsWfIff`, `MmStruct.SbrkBreaksList`).
- `sys_munmap` also refuses a range because of a kept area that only ends where the range starts
  (`MmStruct.RefusedIff`, `MmStruct.RefusesNeighbour`).
- `sys_sbrk` may leave the break above the heap when the new break wraps (`MmStruct.SbrkBreakIff`,
  `MmStruct.SbrkWrapsBelowZero`).
- An area that is writable but not readable never becomes accessible: the access faults for ever
  (`CowKernel.Kernel.Access`, `Eager.WriteOnlyFaults`).
- `read_block` does not count a reference to a buffer it finds in the cache, so that a block read twice and released twice
  stays in use for good and its device's block size cannot be changed (`BlockCache.ReadTwice`).
- `blkdev_generic_io` does not clip a transfer that starts behind the end of the device (`BlockIo.ClipIff`,
  `BlockIo.ClipBehindEnd`).
- `ext2_inode_to_bio_vec` leaves entries unset for a file larger than its trees can address, and takes a zero pointer to
  an indirect block, which is a hole, for device block 0 (`Ext2Blocks.CompleteIff`, `Ext2Blocks.TooLargeFile`,
  `Ext2Blocks.HolesIff`, `Ext2Blocks.HoleReadsBlockZero`).
- `number()` keeps its width counter in 16 bits and pads with 32768 characters too many when that counter
  steps below its least value (`NumberFormat.FieldIff`, `NumberFormat.Underflows`); `string()` and the `%c` case have
  the same fault for the least widths (`Vsnprintf.StringFieldIff`, `Vsnprintf.StringFieldWraps`,
  `Vsnprintf.CharFieldIff`, `Vsnprintf.CharFieldWraps`). Widths of 2^15 and more are cut to 16 bits
  (`Directives.WidthIsCut`).
- `number()` departs from ISO C99 in four more cases: zero at precision zero, `#` octal with a precision above its
  digits, `#` hexadecimal zero, and the `0` flag with a precision (`StandardField.StandardIff`, and one lemma at an
  input for each).
- A negative precision from an argument counts as zero. For numbers that is as if it were left out, as ISO C99 says;
  for strings it is not (`Vsnprintf.StarPrecision`, `Vsnprintf.NegativePrecisionOfStringIff`,
  `Vsnprintf.NegativePrecisionHidesString`). A period without a number, which ISO C99 takes for precision zero, leaves the
  precision out (`Directives.PeriodAlone`).
- An unsigned conversion of a negative `ptrdiff_t` prints a 64-bit number (`Directives.IntegerDirectiveIff`,
  `Directives.PtrDiffMisread`). The length modifier `j` is not known (`Directives.UnknownModifier`).
- `vsnprintf` returns 0 and prints nothing for a size of 2^31 or more (`Vsnprintf.VsnPrintf`, `Vsnprintf.HugeSize`).
- `kstrtoll` refuses "-0", and like `kstrtoull` accepts numbers of 2^64 and more modulo 2^64
  (`Strtox.Kstrtoll`, `Strtox.MinusZeroRefused`).
- `kfree_pages` of no pages below the hint leaves the hint on a mapped page (`KernelPages.KernelMap.KfreePages`,
  `KernelPages.FreeNothing`).
- `hmalloc` rounds a request close to 2^32 down to nothing (`Heap.AlignUpIff`, `Heap.AlignUpWraps`).
- A slab of objects larger than the slab's memory holds none of them (`SlabCache.SlabHoldsIff`, `SlabCache.SlabHoldsNone`).
- `pages_in_range` is wrong for the empty range (`Flexbuf.PagesInRangeIff`), so that an empty transfer reads page
  pointers behind the buffer's descriptor exactly at a page boundary (`Flexbuf.Buffer.EmptyTransfer`). Reading an empty
  pipe and writing to a full one are such transfers (`Pipe.FreshPipeStrays`, `Pipe.FullPipeStrays`).
- `namei` resolves the empty path to the directory it starts from, where POSIX.1-2017, section 4.13, has it not resolved
  (`Namei.EmptyPath`).

The first algorithm for decimal conversion in `lib/vsprintf.c` has a loop with no body for numbers from
10^9 on. The second algorithm is modelled as `Decimal.PutDec`; the first is modelled below 10^9.

`dafny verify dfyconfig.toml` checks the project.

## Model

| member | source | states |
|---|---|---|
| VmaList.GetIsComplete | include/kernel/mm/vma.h:86-90 | looking at the first area that ends after an address finds the area holding it whenever there is one |
| VmaList.InsertKeepsWf | kernel/vma.c:56-65 | inserting an area keeps the list sorted, aligned and disjoint if and only if the area goes into a gap |
| VmaList.InsertAt | kernel/vma.c:56-65 | after an insertion an address has the new area's attributes if the area contains it, and its old ones otherwise |
| VmaList.FindHighWraps | kernel/vma.c:67-84 | an area that ends within the length of the top of the address space makes the search return a range that overlaps an area |
| VmaList.FindHighZeroIff | kernel/vma.c:67-84 | on every input the search returns 0 exactly when no gap passes its 32-bit comparisons, or the one that does ends at address len |
| VmaList.FindHighCorrectIff | kernel/vma.c:67-84 | for every start and length: if start + len fits in 32 bits the search is sound, complete and optimal exactly when no area below the upper bound ends within the length of 2^32 or there is no room anyway; if it does not fit there is no place, and the search is right exactly when it comes back empty-handed |
| VmaList.FindHighOverlapsStack | kernel/vma.c:67-84 | with the stack below the kernel a request for one GiB is given a range over the stack |
| VmaList.FindHighIntoKernel | kernel/vma.c:67-84 | with the same stack a request for all but a page of the address space is given an address in the kernel |
| VmaList.FindLowSoundIff | kernel/vma.c:86-102 | what the upward search returns lies in the bounds and its pages are free, if and only if the place it takes does not wrap |
| VmaList.FindLowComplete | kernel/vma.c:86-102 | wherever there is room for one byte more than asked for the upward search finds a place at or below |
| VmaList.FindLowMissesExactFit | kernel/vma.c:86-102 | a gap of exactly the size asked for is passed over |
| MmStruct.CutKeepsWf | kernel/mmap.c:202-235 | cutting a range out of the list keeps it sorted, aligned and disjoint |
| MmStruct.CutKeepsWfIff | kernel/mmap.c:202-235 | munmap keeps the list well formed if and only if its end did not wrap, or no area was looked at |
| MmStruct.MunmapWraps | kernel/mmap.c:202-235 | a length close to 2^32 leaves two areas that overlap |
| MmStruct.RefusedIff | kernel/mmap.c:211-219 | a range is refused because of a kept area it does not meet if and only if only such areas end where it starts |
| MmStruct.RefusesNeighbour | kernel/mmap.c:211-219 | the page above a kept area cannot be unmapped |
| MmStruct.CutAt | kernel/mmap.c:202-235 | munmap is exact: no address of the range stays covered, and every other address keeps its flags, its file and its position off + (addr - start) in that file |
| MmStruct.RemovedAt | kernel/mmap.c:202-235 | the pieces handed to the page-table code cover exactly what was covered of the range, with the attributes it had |
| MmStruct.CutShape | kernel/vma.c:226-253 | bisecting at the start, bisecting at the end and unlinking is cutting the range out of one area, file offsets moving along |
| MmStruct.HighAreaCorrectIff | kernel/vma.c:104-117 | for every start and length the new area is the highest free range of the rounded-up size and keeps the list well formed, if and only if the search is right for that size |
| MmStruct.LowAreaCorrectIff | kernel/vma.c:119-132 | for every start, end and length the new area covers the request, lies in the bounds and keeps the list well formed, if and only if the place taken is page-aligned and, rounded up, does not run past 2^32 |
| MmStruct.FixedAreaCorrect | kernel/vma.c:134-145 | a fixed request is refused if and only if it meets an area; an accepted one is covered and keeps the list well formed if and only if its rounded-up end is representable |
| MmStruct.FixedWraps | kernel/vma.c:134-145 | the area made for the last page of the address space ends at 0 |
| MmStruct.GrowKeepsWfIff | kernel/vma.c:210-224 | an area that is not blocked grows by the rounded-up amount in 32 bits, and the list stays well formed if and only if its end is not below its start |
| MmStruct.GrownExtends | kernel/vma.c:210-224 | growing an area changes nothing about the addresses that were covered |
| MmStruct.HeapHoldsBreak | dispatch/process.c:137-143 | the heap area used by sbrk contains the byte below the break and the list with it is well formed |
| MmStruct.SbrkBreakIff | dispatch/mem.c:23-43 | a successful sbrk leaves the break no higher than the end of the heap area it used if and only if the new break did not wrap |
| MmStruct.SbrkMeaning | dispatch/mem.c:23-43 | with the area holding the byte below the break, or a page there, as heap: EINVAL if and only if the new break is below it, ENOMEM if and only if it has to grow and an area above starts below the sum, success otherwise with the break not below the heap; the heap covers what it did and, grown, the increment rounded up, and every other address is as before |
| MmStruct.SbrkWrapsBelowZero | dispatch/mem.c:23-43 | a negative increment larger than the break is accepted and leaves the break far above the heap |
| MmStruct.SbrkKeepsWfIff | dispatch/mem.c:23-43 | sbrk keeps the list sorted, aligned and disjoint if and only if a heap area it grows does not wrap below its start |
| MmStruct.SbrkBreaksList | dispatch/mem.c:23-43 | with the break far below the end of the heap area sbrk succeeds and leaves an area that ends below its start |
| MmStruct.ServeKeepsWf | kernel/vma.c:104-145 | every create, unmap and sbrk request whose 32-bit sums do not mislead the search keeps the list well formed |
| MmStruct.RunKeepsWf | kernel/vma.c:56-253 | over every run of such requests the list is sorted, page-aligned and disjoint |
| MmStruct.Mm.Find | kernel/vma.c:199-208 | the loop returns the first area that ends after the address |
| MmStruct.Mm.InsertArea | kernel/vma.c:56-65 | the list becomes the one with the area inserted by its start |
| MmStruct.Mm.FindSpaceHigh | kernel/vma.c:67-84 | the loop computes the downward search, wrap-around included |
| MmStruct.Mm.FindSpace | kernel/vma.c:86-102 | the loop computes the upward search, wrap-around included |
| MmStruct.Mm.CreateHigh | kernel/vma.c:104-117 | finds the space and inserts the area, or changes nothing |
| MmStruct.Mm.CreateLow | kernel/vma.c:119-132 | finds the space and inserts the area, or changes nothing |
| MmStruct.Mm.CreateFixed | kernel/vma.c:134-145 | refuses or inserts the area |
| MmStruct.Mm.GrowUp | kernel/vma.c:210-224 | grows the area in place unless the next one is in the way |
| MmStruct.Mm.Bisect | kernel/vma.c:226-253 | splits one area in place into two that meet at the split |
| MmStruct.Mm.AnyKept | kernel/mmap.c:202-235 | the first loop of munmap finds whether an area that must stay is touched |
| MmStruct.Mm.CutOne | kernel/mmap.c:202-235 | one round of the second loop replaces an area by what is left of it and yields the middle |
| MmStruct.Mm.CutRange | kernel/mmap.c:202-235 | the second loop, which splits and removes while it walks, leaves the list with the range cut out |
| MmStruct.Mm.Munmap | kernel/mmap.c:202-235 | on success the list has the range cut out, on EINVAL nothing changes |
| MmStruct.Mm.Sbrk | dispatch/mem.c:23-43 | the error, break and areas are those of SbrkMeaning; an unwritable result pointer changes nothing and answers EFAULT |
| FrameTable.AllocExact | kernel/paging.c:570-587 | taking a frame off the pool keeps the accounting exact |
| FrameTable.ReleaseExact | include/kernel/mm/paging.h:65-69 | giving a kernel frame back keeps the accounting exact |
| FrameTable.ShareExact | kernel/paging.c:275-293 | one more entry for a shared frame and one more reference keep the accounting exact |
| FrameTable.MapExact | kernel/paging.c:690-699 | the first entry for a fresh frame keeps the accounting exact |
| FrameTable.UnmapExact | kernel/paging.c:514-520 | clearing an entry and dropping its reference keeps the accounting exact, the frame going to the pool exactly at its last reference |
| FrameTable.DropTableExact | kernel/paging.c:390-402 | freeing an empty page table keeps the accounting exact |
| FrameTable.SoleUser | kernel/paging.c:709-740 | a frame with one reference has one entry |
| Paging.VisitedExactly | kernel/paging.c:471-512 | the directory and table indices pm_apply visits are exactly the pages of the area |
| Paging.PageMaps.constructor | kernel/paging.c:837-870 | the initial frame table is exact |
| Paging.PageMaps.AllocFrame | kernel/paging.c:570-587 | the frame taken was free, has one reference now, and is zero if asked for |
| Paging.PageMaps.ReturnFrame | include/kernel/mm/paging.h:65-69 | giving back a frame that nothing maps makes it free again, and the accounting stays exact |
| Paging.PageMaps.ClonePgtab | kernel/paging.c:275-293 | the copy has the same entries and every frame they name has one reference more |
| Paging.PageMaps.NewPgdir | kernel/paging.c:334-385 | a new directory is a husk taken from the list or fresh frames, empty either way |
| Paging.PageMaps.CloneTables | kernel/paging.c:295-322 | every user page table has been cloned into the new directory |
| Paging.PageMaps.ClonePgdir | kernel/paging.c:295-322 | the new directory has a clone of every user page table, no other directory changes, and exactly the frames for the tables, and for a directory if there is no husk, leave the pool |
| Paging.PageMaps.PmApply | kernel/paging.c:471-512 | every page of the range, and no other, has the callback applied to its entry |
| Paging.PageMaps.HuskPgdir | kernel/paging.c:445-458 | all user page tables are freed and nothing else |
| Paging.PageMaps.FreePgdir | kernel/paging.c:460-467 | the directory becomes a husk, without its user page tables; with sixteen husks the latest one is first freed with all its frames |
| Paging.PageMaps.UmapPageTable | kernel/paging.c:601-610 | a missing page table is allocated, an existing one is returned |
| Paging.PageMaps.MapFrame | kernel/paging.c:690-699 | exactly one page's entry changes, to the frame given |
| Paging.PageMaps.CopyPage | kernel/paging.c:709-740 | the page ends up writable on a frame of its own with the same contents, copied only if it was shared |
| Paging.AppliedWalk | kernel/paging.c:471-512 | what pm_apply did to the tables, seen through a page walk |
| Paging.ClonedWalk | kernel/paging.c:295-322 | a page walk in a cloned directory finds what it finds in the original |
| Eager.RunConcat | kernel/vma.c:164-188 | a run of the eager machine in two parts is the run of both together |
| Eager.Isolation | kernel/vma.c:164-188 | what other processes do never changes a process's areas, break or memory |
| Eager.ForkIsSnapshot | kernel/vma.c:164-188 | whatever others do after a fork, the child sees the parent's memory as it was at the fork |
| Eager.LifeAndDeath | kernel/vma.c:147-188 | a new process reads nothing, after a fork both processes read what the parent read, a process that exits is gone |
| Eager.StepTracks | kernel/vma.c:147-188 | in every state of every run a process has contents for exactly its own zero-filled private pages |
| Eager.AccessMeans | kernel/interrupt.c:91-121 | an access succeeds if and only if an area holds the address that is readable and, for a store, writable |
| Eager.LoadMeans | kernel/interrupt.c:91-121 | a load delivers a byte if and only if it reads a readable private zero-filled area |
| Eager.StoreThenLoad | kernel/interrupt.c:91-121 | a store is seen by the next load at its address and by no other load |
| Eager.MapThenLoad | kernel/vma.c:298-309 | a new area reads as zeros and nothing else reads differently |
| Eager.UnmapThenLoad | kernel/mmap.c:202-235 | an unmapped range cannot be read and everything else reads as before, as does everything when munmap refuses |
| Eager.WriteOnlyFaults | kernel/interrupt.c:91-121 | a store to a page that is writable and not readable faults for ever |
| AddressSpaces.FillStep | kernel/vma.c:311-317 | entering a private frame with the contents the page already showed keeps the invariant and is invisible |
| AddressSpaces.StoreStep | kernel/paging.c:709-740 | a store through a writable entry changes that page of that process and nothing else anyone sees |
| AddressSpaces.ReshapeStep | kernel/vma.c:343-355 | areas come and go: surviving pages keep their contents, new ones are zero, others see nothing |
| AddressSpaces.ForkStep | kernel/vma.c:357-367 | sharing all frames and taking write permission away on both sides is copying all memory |
| AddressSpaces.ExitStep | kernel/vma.c:155-162 | dropping a process leaves what every other process sees |
| CowKernel.Kernel.constructor | kernel/paging.c:837-870 | the kernel starts with no processes and an exact frame table |
| CowKernel.Kernel.MapPage | kernel/vma.c:311-317 | demand paging installs an entry with the area's permissions and changes nothing anyone sees |
| CowKernel.Kernel.CopyOnWrite | kernel/vma.c:334-341 | a write fault on a writable area ends with a writable private page and changes nothing anyone sees |
| CowKernel.Kernel.PageFault | kernel/interrupt.c:91-121 | which accesses are retried, which are segmentation faults and which kind; memory stays what it was |
| CowKernel.Kernel.Access | kernel/interrupt.c:91-121 | a permitted access succeeds after at most one fault and takes exactly the frames counted; the outcome is decided by the area alone |
| CowKernel.Kernel.Load | kernel/interrupt.c:91-121 | a load delivers the byte the eager machine has there |
| CowKernel.Kernel.Store | kernel/interrupt.c:91-121 | a store changes the byte the eager machine changes |
| CowKernel.Kernel.ProtectAreas | kernel/vma.c:357-367 | the loop over the areas takes write access from exactly the private pages |
| CowKernel.Kernel.Fork | kernel/vma.c:164-188 | fork is the eager fork: the child has a copy of every byte |
| CowKernel.Kernel.Munmap | kernel/mmap.c:202-235 | munmap unmaps exactly the range for this process and nothing for any other |
| CowKernel.Kernel.MapArea | kernel/vma.c:298-309 | a new area shows zeros and changes nothing else |
| CowKernel.Kernel.Sbrk | dispatch/mem.c:23-43 | the error, break and areas are those of SbrkMeaning, and memory is that of the eager machine |
| CowKernel.SbrkThenLoad | dispatch/mem.c:23-43 | after sbrk what could be read reads as before, new heap pages read as zeros, and nothing else can be read |
| CowKernel.Kernel.Spawn | kernel/vma.c:147-153 | a new process has an empty address space |
| CowKernel.Kernel.Exit | kernel/vma.c:155-162 | an exiting process gives up all it maps and no other process notices |
| CowKernel.Kernel.Perform | kernel/vma.c:147-188 | one action of any kind does what the eager machine does |
| CowKernel.Kernel.MemoryTracks | kernel/vma.c:147-188 | the memory a kernel stands for has contents for exactly the private zero-filled pages of each process |
| CowKernel.Kernel.FramesBounded | kernel/paging.c:570-587 | a load or store needs at most two frames, and a directory with all its page tables is the most an action needs |
| CowKernel.Kernel.Run | kernel/vma.c:147-188 | copy-on-write refines eager copying over every run, up to an action that needs more frames than there are: every load delivers and every process is left with what it would have if fork copied every page |
| CowKernel.UsersAreMappers | kernel/paging.c:275-322 | page-table entries naming a frame and user pages mapping it are equally many |
| CowKernel.FrameAccounting | kernel/paging.c:570-595 | in every reachable state a frame is in the pool once with count 0, or held by the kernel with count 1, or its count is the number of user pages that map it, which is not 0 |
| CowKernel.WritableFrameIsPrivate | kernel/paging.c:709-740 | a writable page of a private area is in a writable area and its frame has one reference |
| CowKernel.TableFramesHeldOnce | kernel/paging.c:334-467 | page tables and directories, husks included, have one reference |
| BlockCache.Cache.constructor | fs/buffer.c:45-59 | an empty cache shows every device as it is |
| BlockCache.Cache.FindBuffer | fs/buffer.c:45-59 | the bucket walk finds the block's buffer if and only if it is cached |
| BlockCache.Cache.MakeBuffer | fs/buffer.c:64-82 | the new buffer is entered under its key and shows the block |
| BlockCache.Cache.ReadBlock | fs/buffer.c:88-117 | the buffer returned shows the block of the flat disk, from the cache or from the device |
| BlockCache.Cache.WriteInto | drivers/block/rw_block.c:173-200 | writing into a buffer is writing those bytes of the flat disk and no others |
| BlockCache.Cache.FlushBuffer | fs/buffer.c:122-128 | after a flush the device holds the buffer's bytes and the flat disk is unchanged |
| BlockCache.Cache.FreeDeviceBuffers | fs/buffer.c:142-158 | fails if and only if a buffer of the device is in use; buffers leave only unused, only of this device and only after their bytes are on it; on success none of the device is left |
| BlockCache.Cache.ClearCache | fs/buffer.c:160-171 | exactly the buffers in use stay, and the flat disk is unchanged |
| BlockCache.Cache.SetBlocksize | drivers/block/rw_block.c:119-137 | EBUSY if and only if the device exists, the size differs and a buffer of the device is in use; the size changes only when no buffer of the old size is left, and the flat disk is unchanged |
| BlockCache.ReadTwice | fs/buffer.c:88-117 | after two reads and two releases of a block its device answers EBUSY |
| BlockIo.BlockCountCovers | drivers/block/block.h:86-90 | the block count covers the bytes asked for and not a block more |
| BlockIo.WriteVecElsewhere | drivers/block/rw_block.c:173-200 | a write to a block list leaves every byte outside its range unchanged |
| BlockIo.WriteVecHits | drivers/block/rw_block.c:173-200 | byte i written to a block list without repetitions is byte pos + i of the concatenated blocks |
| BlockIo.BioDoIo | drivers/block/rw_block.c:173-200 | any transfer over any block list moves exactly bytes [pos, pos+len) of the concatenated blocks, unaligned ends and length zero included, and returns len |
| BlockIo.SequentialWrite | drivers/block/rw_block.c:239-259 | over consecutive blocks a write is a write to a range of the device |
| BlockIo.SequentialRead | drivers/block/rw_block.c:239-259 | over consecutive blocks a read is a read of a range of the device |
| BlockIo.BlkdevGenericIo | drivers/block/rw_block.c:239-259 | device I/O moves the device's bytes from pos on, clipped to its sectors, and says how many |
| BlockIo.ClipIff | drivers/block/rw_block.c:239-243 | the length is clipped to what lies between the position and the end, if and only if the position is not behind the end or nothing is asked for |
| BlockIo.ClipBehindEnd | drivers/block/rw_block.c:239-243 | a byte behind the end of a 1.44 MB disk is not cut off |
| BlockIo.PerformOp | drivers/block/rw_block.c:119-259 | one operation of any kind answers what the flat disk answers |
| BlockIo.RunOps | fs/buffer.c:45-171 | the cache refines a flat disk: any sequence of reads, writes, evictions and block-size changes returns what a plain byte array would |
| Ext2Blocks.LeafIn | fs/ext2/inode.c:107-142 | leaf i * w + r of a tree is leaf r of its subtree i |
| Ext2Blocks.FilledStep | fs/ext2/inode.c:107-142 | one more subtree extends the filled part of the array by its leaves |
| Ext2Blocks.EntryBytes | fs/ext2/inode.c:96 | an entry of an indirect block is the little-endian word at its place |
| Ext2Blocks.WordBytes | fs/ext2/inode.c:96 | every value below 2^32 is the word of its four bytes, least significant first |
| Ext2Blocks.BlockMeans | fs/ext2/inode.c:147-179 | block i of a file written out: direct, or the entry found through one, two or three indirect blocks by division and remainder |
| Ext2Blocks.FromIndirect | fs/ext2/inode.c:89-101 | writes the entries of an indirect block at its place in the array, as many as fit, and nothing else |
| Ext2Blocks.FromIndirect2 | fs/ext2/inode.c:107-121 | writes the leaves of a doubly-indirect block at their places, and nothing else |
| Ext2Blocks.FromIndirect3 | fs/ext2/inode.c:127-142 | writes the leaves of a triply-indirect block at their places, and nothing else |
| Ext2Blocks.InodeToBioVec | fs/ext2/inode.c:147-179 | every entry up to 12+m+m^2+m^3 is the block a recursive lookup of its index finds; the others are untouched |
| Ext2Blocks.LeafIff | fs/ext2/inode.c:89-142 | a leaf is what ext2 defines, zero under a zero pointer, if and only if nothing but zero is read behind the first zero pointer on the way to it |
| Ext2Blocks.HolesIff | fs/ext2/inode.c:89-142 | holes read as zeros in every file if and only if device block 0 holds nothing but zeros |
| Ext2Blocks.HoleReadsBlockZero | fs/ext2/inode.c:89-101 | an empty inode on a device whose block 0 starts with the word 1 has block 1 as its block 12 |
| Ext2Blocks.CompleteIff | fs/ext2/inode.c:147-179 | the whole list is the block list ext2 defines, holes included, if and only if the file has at most 12+m+m^2+m^3 blocks and nothing but zeros is read behind its holes |
| Ext2Blocks.TooLargeFile | fs/ext2/inode.c:147-179 | block 16843020 of a file with blocks of 1024 bytes is never listed |
| Decimal.Tenth32 | lib/vsprintf.c:123-165 | the 32-bit reciprocal divides by ten exactly up to its bound |
| Decimal.TenThousandth | lib/vsprintf.c:250-264 | the reciprocal divides by ten thousand exactly up to its bound |
| Decimal.SumsFit | lib/vsprintf.c:272-301 | every sum given to the helper is at most 1125520955, and the sums carry the number in groups of four digits |
| Decimal.DigitsAreLow | lib/vsprintf.c:272-301 | repeated division gives the shortest list of digits: no leading zeros |
| Decimal.PutDecTrunc8 | lib/vsprintf.c:173-198 | writes exactly the reversed digits given by repeated division and touches nothing else |
| Decimal.PutDecFull9 | lib/vsprintf.c:123-165 | writes exactly nine reversed digits, zeros included |
| Decimal.PutDecFull4 | lib/vsprintf.c:238-248 | writes exactly four reversed digits, zeros included |
| Decimal.PutDecHelper4 | lib/vsprintf.c:258-264 | writes the last four digits and returns the rest of the number |
| Decimal.StripZeros | lib/vsprintf.c:297-298 | the zero-strip loop ends, inside the digits, at the number's last significant digit |
| Decimal.PutDec | lib/vsprintf.c:272-301 | for every 64-bit number writes exactly its reversed decimal digits without redundant zeros |
| Decimal.PutDecFirst | lib/vsprintf.c:221-230 | below 10^9 the first algorithm writes the same digits |
| NumberFormat.Pad | lib/vsprintf.c:436-443 | how many characters a padding loop writes and what it leaves of the 16-bit width |
| NumberFormat.MakeDigits | lib/vsprintf.c:410-431 | the digits in the scratch buffer are those of repeated division, in base 8, 10 and 16, in the case asked for |
| NumberFormat.Number | lib/vsprintf.c:371-493 | what is written is the ideal text cut at the end of the buffer, and the pointer moves by the length of all of it |
| NumberFormat.FieldWhen | lib/vsprintf.c:371-493 | the text is sign, prefix and digits filled up to the width on the side and with the character the flags say |
| NumberFormat.FieldIff | lib/vsprintf.c:371-493 | the text is sign, prefix and digits filled up to the width as the flags say, if and only if the 16-bit width counter does not underflow |
| StandardField.StandardIff | lib/vsprintf.c:371-493 | the text is the field ISO C99, section 7.19.6.1, prescribes, if and only if the width counter does not underflow and the directive is none of: zero at precision zero, # octal with a precision above its digits, # hexadecimal zero, the 0 flag with a precision that leaves room to fill |
| StandardField.PrintsZeroAtZero | lib/vsprintf.c:371-493 | "%.0d" of 0 prints a digit |
| StandardField.PrintsPrefixOfZero | lib/vsprintf.c:371-493 | "%#x" of 0 prints a prefix, whatever the other flags |
| StandardField.PrintsOctalTooLong | lib/vsprintf.c:371-493 | "%#.5o" of 8 prints a digit too many |
| StandardField.PrintsZerosWithPrecision | lib/vsprintf.c:371-493 | "%08.3d" of 5 fills with zeros |
| NumberFormat.Underflows | lib/vsprintf.c:371-493 | precision 32767 without a width prints 32768 characters too many |
| FormatDecode.SkipAtoi | lib/vsprintf.c:103-111 | consumes the longest row of digits and returns its value |
| FormatDecode.ScanFlags | lib/vsprintf.c:666-685 | consumes the longest row of flags and collects them |
| FormatDecode.FlagsMeaning | lib/vsprintf.c:666-685 | each flag is set if and only if its character stands in the row, in whatever order |
| FormatDecode.DecodeQualifier | lib/vsprintf.c:714-806 | consumes qualifier and conversion and sets base, sign, case and type |
| FormatDecode.DecodePrecision | lib/vsprintf.c:698-806 | continues at the precision, stopping early at a '*' |
| FormatDecode.DecodeNext | lib/vsprintf.c:631-807 | one call consumes and decodes exactly the next literal text, directive or rest of a directive |
| FormatDecode.DecodeProgress | lib/vsprintf.c:631-807 | a call that consumes nothing takes up a pending width or precision and leaves none pending; no call runs past the end |
| Vsnprintf.StringOut | lib/vsprintf.c:495-523 | what is written is the ideal text cut at the end of the buffer |
| Vsnprintf.StringFieldIff | lib/vsprintf.c:495-523 | a string field is the text up to the precision, filled up to the width, if and only if the width does not wrap |
| Vsnprintf.StringFieldWraps | lib/vsprintf.c:495-523 | "%32768s" of one character prints 32767 |
| Vsnprintf.CharOut | lib/vsprintf.c:898-919 | what is written is the ideal text cut at the end of the buffer |
| Vsnprintf.CharFieldIff | lib/vsprintf.c:898-919 | a character field is the character filled up to the width, if and only if the counter does not wrap |
| Vsnprintf.CharFieldWraps | lib/vsprintf.c:898-919 | "%32769c" prints 32768 characters |
| Vsnprintf.PointerOut | lib/vsprintf.c:586-609 | a pointer is printed in hexadecimal at full width, null as text, cut at the end of the buffer |
| Vsnprintf.StepProgress | lib/vsprintf.c:872-1001 | every round consumes format or settles a pending width or precision: the loop ends |
| Vsnprintf.Round | lib/vsprintf.c:872-1001 | one round writes what fits of its text, moves the pointer by all of it and consumes its arguments |
| Vsnprintf.FormatAll | lib/vsprintf.c:872-1001 | the loop writes what fits of the ideal output and nothing at or past the end |
| Vsnprintf.VsnPrintf | lib/vsprintf.c:852-1013 | for every format, argument list and size below 2^31 returns the length of the ideal output, writes its first min(size-1, length) characters, one NUL, and nothing else; for larger sizes returns 0 and writes nothing |
| Vsnprintf.HugeSize | lib/vsprintf.c:852-1013 | a text is not printed into a buffer whose size is given as 2^31 |
| Vsnprintf.StarWidth | lib/vsprintf.c:631-807 | taking the width from an argument, whatever it is, prints what the same width written in the format prints, a minus sign becoming the left flag and zero being written as 65536 |
| Vsnprintf.StarPrecision | lib/vsprintf.c:631-807 | taking the precision from an argument, whatever it is and whatever flags and width come before, prints what the same precision written in the format prints, a negative one counting as zero |
| Vsnprintf.NegativePrecisionOfNumber | lib/vsprintf.c:645-652 | for numbers precision zero prints what no precision prints |
| Vsnprintf.NegativePrecisionOfStringIff | lib/vsprintf.c:645-652 | for strings what is written is the same if and only if the string is spaces that fit in the field |
| Vsnprintf.NegativePrecisionHidesString | lib/vsprintf.c:645-652 | "%.*s" of "a" with -1 prints nothing |
| Vsnprintf.ArgShift | lib/vsprintf.c:852-1013 | the output depends on the arguments only from the next one on |
| Vsnprintf.PlainText | lib/vsprintf.c:852-1013 | text without directives is printed as it is |
| Formats.TextThen | lib/vsprintf.c:872-1001 | text without a percent sign is printed in front of what the rest prints |
| Formats.NumberThen | lib/vsprintf.c:958-1000 | an integer directive prints what it prints alone and takes one argument; the rest prints what it prints alone with the arguments left |
| Formats.OtherThen | lib/vsprintf.c:898-956 | so do characters, strings and counts with one argument and the percent sign with none, a count storing what was printed before it |
| Formats.PointerThen | lib/vsprintf.c:924-929 | so does a pointer, skipping the letters and digits behind it |
| Formats.BareOthers | lib/vsprintf.c:898-956 | "%c" prints its character, "%s" its string or "(null)", "%%" a percent sign, "%n" stores |
| Formats.BarePointer | lib/vsprintf.c:586-609 | "%p" prints eight hexadecimal digits, or "(null)" in eight columns |
| Formats.RunAlike | lib/vsprintf.c:631-807 | a directive leaves nothing behind in the specification that shows in what follows |
| Formats.FormatMeans | lib/vsprintf.c:852-1013 | a format of any pieces prints what they print, in order, each using up its own arguments, with the counts stored relative to all that was printed |
| Formats.TwoNumbers | lib/vsprintf.c:852-1013 | "%d %d%n" of 1, 2 and an address prints "1 2" and stores 3 |
| Directives.BareDirectiveIff | lib/vsprintf.c:714-806 | a directive of a length modifier and a conversion prints its argument at the type the modifier names in the base, case and sign of the conversion, if and only if it is not an unsigned conversion of a negative ptrdiff_t |
| Directives.PtrDiffMisread | lib/vsprintf.c:977-979 | "%tu" of -1 prints 2^64 - 1 |
| Directives.IntegerDirectiveIff | lib/vsprintf.c:631-807 | every integer directive, with any flags, width and precision below 2^15, length modifier and conversion, prints the field ISO C99 prescribes for its argument at the type the modifier names, if and only if it is not misread, the width counter does not underflow and it is none of the cases of StandardIff |
| Directives.WidthIsCut | lib/vsprintf.c:687-696 | width 65537 prints what width 1 prints |
| Directives.PeriodAlone | lib/vsprintf.c:698-712 | "%.s" prints the whole string |
| Directives.UnknownModifier | lib/vsprintf.c:714-776 | "%jd" is printed as it is |
| Directives.SignedRoundTrip | lib/vsprintf.c:959-1000 | parsing what a signed directive prints gives the value of its argument at its type, with both parsers |
| Directives.UnsignedRoundTrip | lib/vsprintf.c:959-1000 | parsing what an unsigned directive prints gives the value of its argument at its type |
| Directives.PointerRoundTrip | lib/vsprintf.c:586-609 | a pointer printed with the default width has eight hexadecimal digits and parses back |
| Strtox.RadixIs | lib/kstrtox.c:21-35 | for every spelling of a number, in a given base or base 0, the base found and the prefix skipped are those of the spelling |
| Strtox.ParseInteger | lib/kstrtox.c:45-82 | consumes the longest row of digits of the base and returns its value modulo 2^64 |
| Strtox.SimpleStrtoull | lib/vsprintf.c:42-56 | the value and end of the longest numeral, prefix included |
| Strtox.SimpleStrtoll | lib/vsprintf.c:95-101 | the same with an optional minus sign |
| Strtox.WholeNumber | lib/kstrtox.c:84-103 | accepts a numeral with at least one digit and nothing but a newline behind it |
| Strtox.WholeIff | lib/kstrtox.c:84-103 | a text is accepted if and only if it spells a number, and the number is returned modulo 2^64 |
| Strtox.Kstrtoull | lib/kstrtox.c:121-126 | a text is accepted if and only if it spells a number with an optional plus sign; the number is returned modulo 2^64, which is itself exactly below 2^64 |
| Strtox.Kstrtoll | lib/kstrtox.c:144-165 | without a minus sign the number modulo 2^64 is returned if it is below 2^63; behind one its negation is if it is from 1 to 2^63; other numbers are out of range, zero behind a minus sign included, and other texts are invalid |
| Strtox.MinusZeroRefused | lib/kstrtox.c:144-165 | "-0" is out of range |
| Strtox.NumeralRoundTrip | lib/vsprintf.c:410-431 | the value of the printed digits is the number, in every base and case |
| RoundTrip.PrintParseIff | lib/vsprintf.c:371-493 | for every 64-bit number, base 8, 10 or 16 and specification, parsing the printed text in its base or base 0 gives the number and consumes exactly the text, if and only if it is not padded with spaces and, for base 0, shows its base or reads the same in the base it seems to have |
| RoundTrip.PrintParseSignedIff | lib/vsprintf.c:371-493 | the same for signed numbers in base 10: no spaces, no plus or space in front, and for base 0 no leading zeros or one digit below eight |
| RoundTrip.OctalAsDecimalNever | lib/vsprintf.c:371-493 | an octal number from 8 on with at most nineteen digits never reads the same as decimal |
| RoundTrip.OctalReadsAsDecimal | lib/vsprintf.c:371-493 | with twenty-two digits the eight numbers from 16454510724414655648 on do |
| Strtox.PrintKstrtoll | lib/kstrtox.c:144-165 | the strict parser accepts every signed number as printed, with or without a newline, and returns it |
| KernelPages.HintIsEnough | kernel/paging.c:745-790 | the lowest run of free pages from the hint on is the lowest run there is |
| KernelPages.KernelMap.FindRun | kernel/paging.c:745-765 | the search ends with the lowest run of n free pages from the hint on |
| KernelPages.KernelMap.KallocPages | kernel/paging.c:745-790 | returns the lowest run of n free pages, maps exactly it, and leaves the hint on the lowest free page |
| KernelPages.KernelMap.KfreePages | kernel/paging.c:792-809 | unmaps exactly the pages; the hint is the lowest free page if and only if a page was freed or the hint was not moved |
| KernelPages.FreeNothing | kernel/paging.c:792-809 | freeing no pages below the hint leaves the hint on a mapped page |
| KernelPages.RunPages | kernel/paging.c:745-809 | over any mix of calls every allocation returns what an exhaustive search returns |
| Heap.AlignUpIff | kernel/kmalloc.c:45-49 | the rounded-up request covers the request if and only if it does not wrap |
| Heap.AlignUpWraps | kernel/kmalloc.c:45-49 | a request for 2^32 - 15 bytes is rounded to nothing |
| Heap.TiledSplit | kernel/kmalloc.c:65-82 | splitting a block keeps blocks and headers an exact partition of the pages, 16-byte aligned |
| Heap.TiledGrow | kernel/kmalloc.c:57-63 | pages obtained as one block extend the partition |
| Heap.TiledOnce | kernel/kmalloc.c:45-87 | no byte is in two blocks |
| Heap.KernelHeap.FirstFit | kernel/kmalloc.c:51-55 | the first block of the free list that is large enough |
| Heap.KernelHeap.Hmalloc | kernel/kmalloc.c:45-87 | the first free block that is large enough, without new pages, or else one from new pages; at least as large as asked for and at most 32 bytes larger than that rounded up; no other allocated block changes and the partition is kept |
| Heap.KernelHeap.Hfree | kernel/kmalloc.c:93-107 | the block is free again and the partition is kept |
| Heap.LiveApart | kernel/kmalloc.c:45-107 | no byte, header included, belongs to two live allocations |
| Heap.TraceSizes | kernel/kmalloc.c:45-107 | after each operation of a run the live allocations have the sizes asked for and not given back, in order |
| Heap.RunHeap | kernel/kmalloc.c:45-107 | over any run of allocations and single frees the live allocations after each operation are those before it with the one added or dropped, and share no byte; at the end they are everything that is allocated, large enough, with the sizes asked for |
| SlabCache.OnesUpdate | include/kernel/bitmap.h:27-35 | setting a clear bit adds one to the number of set bits, clearing a set bit takes one off |
| SlabCache.BitmapFfz | include/kernel/bitmap.h:42-51 | the first clear bit, or -1 if there is none |
| SlabCache.ObjectsApart | kernel/slab.c:97-116 | different objects never overlap |
| SlabCache.ObjectInSlab | kernel/slab.c:47-63 | an object stays in its slab, behind the descriptor, and its index is recovered from its address |
| SlabCache.SlabHoldsIff | kernel/slab.c:47-63 | a slab holds at least one object if and only if the object is no larger than the slab's memory |
| SlabCache.SlabHoldsNone | kernel/slab.c:47-63 | a slab holds no object of 4049 bytes |
| SlabCache.PlacedMove | kernel/slab.c:107-113 | moving a slab when its count says so keeps every slab on the list of its count |
| SlabCache.Cache.GetSlab | kernel/slab.c:80-95 | returns a slab with a free object, a new one only if there is none |
| SlabCache.Cache.SlabAlloc | kernel/slab.c:97-116 | allocates the first free object of a slab, a new slab only if all are full, and changes no other; counts, bitmaps and lists agree afterwards |
| SlabCache.Cache.FindSlab | kernel/slab.c:123-138 | finds the slab in use that holds an address if and only if there is one |
| SlabCache.Cache.SlabFree | kernel/slab.c:140-160 | frees exactly the object at the address, or nothing for a foreign address; counts, bitmaps and lists agree afterwards |
| SlabCache.TraceCount | kernel/slab.c:97-160 | after each operation of a run as many objects are live as were allocated and not freed |
| SlabCache.RunSlab | kernel/slab.c:97-160 | over any run of allocations and single frees the live addresses after each operation are those before it with the one added or dropped, and do not overlap; at the end each is an allocated object of a slab and nothing else is allocated |
| Namei.Vfs.Iput | fs/inode.c:135-146 | gives back one reference and forgets the inode at the last one unless it lives in memory |
| Namei.Vfs.Iget | fs/inode.c:101-133 | takes one reference to the inode, or to the root mounted on it, and no other count changes |
| Namei.Vfs.FsLookup | fs/ext2/dir.c:39-55 | uses up the directory's reference and returns the entry with one, or an error with none |
| Namei.Vfs.Lookup | fs/namei.c:35-75 | uses up the directory's reference and leads where one step of the resolution leads, mounts and the root included |
| Namei.Vfs.FollowLink | fs/namei.c:77-92 | gives back the directory and passes the inode on |
| Namei.Vfs.DirNamei | fs/namei.c:94-137 | finds the directory and name of the last component, and holds exactly that directory on success and nothing on failure |
| Namei.Vfs.Namei | fs/namei.c:139-177 | for every path, tree and mount layout the result is the recursive resolution, and no count changes but plus one on the inode returned, none on error |
| Namei.Vfs.Lnamei | fs/namei.c:139-172 | the same without following the last component |
| Namei.WalkAppend | fs/namei.c:111-127 | walking one path after another is walking their components in a row |
| Namei.SplitAppend | fs/namei.c:111-127 | a slash puts the components of two paths side by side |
| Namei.ResolveIsWalk | fs/namei.c:139-167 | looking the last component up in its directory is the last step of the walk over all components |
| Namei.ResolveAppend | fs/namei.c:94-167 | a path behind another is resolved from where the other leads |
| Namei.AbsolutePath | fs/namei.c:94-112 | a path that begins with a slash is resolved from the root of the process, whatever the working directory |
| Namei.RelativePath | fs/namei.c:94-167 | a name without a slash is looked up in the working directory |
| Namei.RootUp | fs/namei.c:47-52 | ".." at the root of the process leads to that root |
| Namei.StepMeans | fs/namei.c:35-75 | where a component leads: its entry, the root mounted there, the directory a mounted root covers, ENOENT or ENOTDIR |
| Namei.EmptyPath | fs/namei.c:94-167 | the empty path names the directory it starts from |
| Namei.DoubledSlash | fs/namei.c:94-167 | doubling a slash anywhere in a path, in front too, changes nothing |
| Namei.UpUndoesDown | fs/namei.c:47-61 | for every mount layout and tree, a step down into a directory and ".." lead back, within a file system and across a mount alike |
| Namei.WalkBack | fs/namei.c:94-137 | however deep a walk goes and whatever mounts it crosses, as many ".." lead back to its start unless it passes the root of the process |
| Flexbuf.PagesInRangeIff | include/kernel/mm/paging.h:71-74 | the page count is right if and only if the range is not empty |
| Flexbuf.Buffer.EmptyTransfer | kernel/flexbuf.c:175-197 | an empty transfer reads page pointers behind the descriptor if and only if it is at a page boundary |
| Flexbuf.Buffer.Read | kernel/flexbuf.c:175-209 | delivers exactly the bytes at the offset, across pages, and touches nothing else; strays if and only if there is nothing to read at a page boundary |
| Flexbuf.Buffer.Write | kernel/flexbuf.c:175-226 | writes exactly the bytes at the offset that the size leaves room for, across pages, and no others; strays as reading does |
| Flexbuf.Buffer.Grow | kernel/flexbuf.c:117-144 | the buffer grows by fresh pages and keeps its bytes |
| Flexbuf.Buffer.Enqueue | kernel/flexbuf.c:233-236 | appends the bytes; strays if and only if there are none and the end of the buffer is at a page boundary |
| Flexbuf.Buffer.Dequeue | kernel/flexbuf.c:244-254 | delivers the first bytes and removes exactly them, dropping pages in front; strays if and only if there are none and the start of the buffer is at a page boundary |
| Pipe.PipeRead | fs/pipe.c:38-54 | a non-blocking read takes out and delivers the first bytes, as many as there are and are asked for; one that finds none is put off or strays |
| Pipe.PipeRound | fs/pipe.c:64-83 | one round of a blocking write appends as many bytes as there is room for; one that appends none may stray |
| Pipe.PipeWrite | fs/pipe.c:85-111 | a non-blocking write of up to PIPE_BUF bytes is appended as a whole if there is room and answers EAGAIN otherwise; a larger one fills the pipe, and answers EAGAIN only if it is full |
| Pipe.AfterMoves | fs/pipe.c:38-111 | the queue moves the bytes described for each operation |
| Pipe.RunPipe | fs/pipe.c:38-111 | over any run of writes, rounds and reads the pipe answers what a queue answers, up to the first operation that strays; one strays if and only if it moves no byte and the stream of bytes stands at a page boundary |
| Pipe.FreshPipeStrays | fs/pipe.c:38-54 | reading a fresh pipe strays |
| Pipe.FullPipeStrays | fs/pipe.c:64-83 | so does the round after one that filled a fresh pipe |
| Pipe.Fifo | fs/pipe.c:38-111 | bytes in equal bytes out followed by bytes buffered, in order, never more than PIPE_BUF are buffered, and the page position follows from the bytes taken out |

## Left out

- Boot, descriptor tables, interrupts other than page faults, port I/O, console, keyboard, tty: hardware effects.
- The TLB: a page walk reads the tables as they are.
- Temporary mappings of frames: a frame is read and written directly; the slots themselves are not counted.
- Failure of `kalloc_frame`, which panics: operations need the frames they allocate, and `CowKernel.Kernel.Run` stops where they run out. The checks of its result for NULL, and those behind it in `slab_alloc` and `iget`, are never taken.
- The contents of kernel stacks and of the kernel half of page directories; their frames are counted.
- The width of frame reference counts, taken as unbounded.
- Kernel address spaces other than user ranges: an area ends above 0 and at or below the kernel base. An area [0, 0) would make `pm_apply` walk the whole address space.
- CowKernel.Kernel.Munmap: ranges that wrap around 2^32 are excluded here; `MmStruct.CutKeepsWfIff` says what they do to the list.
- CowKernel.Kernel.Sbrk: increments that wrap around 2^32 are excluded here; `MmStruct.SbrkBreakIff` says what they do. The store of the old break into the caller's memory is not a store of the model.
- MmStruct.Mm.Sbrk: the old break is returned, not stored through the caller's pointer.
- MmStruct.Mm.GrowUp: only with the area's own flags, as its one caller uses it.
- MmStruct.Mm.Bisect: both halves keep the area's flags, as in munmap.
- File-backed pages: what reading the file returned is a parameter, their contents are not tracked; `mmap_writeback`, the `len` and `ref` fields of `mmap_private` and `vma_split` are not modelled.
- Failure of the allocation in `vma_bisect`.
- `vm_verify`, which decides whether `sys_sbrk` may store the old break, is a parameter.
- Block request queues, buffer locks and waiting: a request is completed when it is submitted.
- The value of `b_count`: it is kept in 16 bits as the code does, and nothing is claimed about it beyond which buffers are evicted and `BlockCache.ReadTwice`.
- Bytes past the end of a device inside its last block.
- The mask and shift forms of the `io_block_*` helpers are written as division and remainder by the block size.
- BlockIo.BlkdevGenericIo: a position behind the end of the device, where the transfer leaves the device; `BlockIo.ClipIff` says what becomes of the length.
- BlockIo.RunOps: operations on a block list stop the run once the list's block size is not the device's any more.
- Ext2Blocks.InodeToBioVec: every indirect block that has to be read lies on the device.
- Ext2Blocks.FromIndirect: the indirect block lies on the device.
- Ext2Blocks.FromIndirect2: every indirect block that has to be read lies on the device.
- Ext2Blocks.FromIndirect3: every indirect block that has to be read lies on the device.
- The number of blocks of an ext2 file, which the code takes from the count of sectors, indirect ones included, is a parameter.
- Ext2 superblocks, inodes on disk, directories and bitmaps.
- Directives.IntegerDirectiveIff: widths and precisions below 2^15; `Directives.WidthIsCut` says what becomes of larger widths.
- RoundTrip.PrintParseIff: for octal numbers of twenty and more digits without `#` and base 0 the condition is left as an equation between the two readings.
- Signed overflow in `skip_atoi` and `str - buf` beyond 32 bits, which C leaves undefined: the numbers are unbounded before they are cut to 16 bits.
- Output pointers that wrap around the address space; the buffer's own end is clamped as in the code.
- The letters behind `%p`, which this code skips; `%pK` is modelled.
- `num_to_str`, `vscnprintf`, `snprintf` and the other wrappers of `vsnprintf`; `simple_strtoul`, `simple_strtol` and the narrower `kstrto*` functions, which only cut the result.
- Overflow reporting in `_kstrtoull`, which the code has commented out: values are taken modulo 2^64.
- Heap.KernelHeap.Hmalloc: sizes for which `pages_needed` wraps to no pages are excluded, since the page search does not end for them.
- Heap.KernelHeap.Hfree: only allocated blocks are freed; a second free of a block is not detected by the code.
- SlabCache.Cache.SlabFree: an address inside a slab in use is that of a live object.
- The limit of the kernel address space in `kalloc_pages`, which the code does not check, and the frames behind kernel pages.
- Namei: counts are unbounded, permission checks always pass as in the code, no file system has a `follow_link` operation, and the trees and mounts do not change during a walk. `open_namei` and the system calls that create or remove names are not modelled.
- Hash buckets of the inode table: the table is a map from super block and number.
- Flexbuf: an initial size, and pages that are no longer pointed at.
- Flexbuf.Buffer.Grow: no shrinking and no new descriptor, which only buffers of more than PIPE_BUF bytes need.
- Flexbuf.Buffer.Write: inside the buffer; growing it first is `Flexbuf.Buffer.Enqueue`.
- Flexbuf.Buffer.Enqueue: up to PIPE_BUF bytes in the buffer, as its one user keeps it.
- Pipe.RunPipe: what becomes of a transfer that strays depends on the memory behind the descriptor; the run stops there.
- Pipe.PipeRead: waiting, waking, interruption and the closing of the write end.
- Pipe.PipeWrite: the blocking branch is a sequence of rounds, `Pipe.PipeRound`, with waiting between them left out.
- Scheduler, signals, timers, ramfs contents, ELF loading, mounting.
