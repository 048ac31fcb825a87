# LameOS kernel model

A Dafny model of the memory, file and task core of LameOS, a small 32-bit x86 kernel, with proofs about it. Two stacks
of layers share one allocator.

* Memory: the block heap (`HeapTable`, `HeapRuns`, `Heap`, `Kheap`), two-level page structures built from heap blocks
  (`PageTables`, `Paging`, `PagingChunks`), what a loaded process can reach (`AddressSpace`), the loading of processes
  (`Processes`, `KernelState`), tasks (`Tasks`, `TaskRuns`, `TaskLife`) and the copying of user strings (`TaskCopy`,
  `UserStrings`).
* Files: byte reads from sectors (`DiskStream`), cluster chains (`FatChain`, `FatExact`), the recursive file read
  (`FatRead`), the root directory (`FatDirectory`), paths (`PathParser`) and descriptors (`Files`).
* `Boot`: how both come about, from an empty heap to a mounted disk and a kernel without processes.
* `Gdt`: segment descriptors. `Words`: 32-bit words, C's bitwise operators, frames and little-endian words in memory.

Physical memory is one array of 2^32 bytes. A page structure is what lies in that array: nothing says beforehand that
directory, tables and data are different frames; that follows from the heap. The heap's own ghost state `live` lists
its allocations, and `Decodes` ties it to the byte table. `Preserved` says that no frame held by a live allocation, and
none outside the heap, differs; `Grown` that every allocation is still there.

Operations that work by changing state are methods on those arrays and objects, specified by functions on their
contents; the laws are then proved about those functions. The code is modelled as it is written. Where it does not do
what it is documented or named to do, a lemma says exactly when it does, usually with the smallest failing input:

* the block search answers with a too short trailing run instead of `-ENOMEM` (`SearchContractExact`,
  `SearchContractBroken`), sizes above 2^32 - 4096 wrap to no block at all (`BlocksForExact`), and `StepExact` says which
  calls leave a table that still encodes allocations;
* the position of a FAT entry is a product where the FAT specification has a sum, and the link codes tested are those
  of FAT12 (`FatPosNeverRight`, `FatPosOnBootDisk`, `LinkPositionExact`, `RefusedExact`); the first data sector is rounded
  down (`DataSectorExact`); the high half of a first cluster is or-ed in unshifted (`FirstClusterExact`). What all that
  leaves of the file read is `WrittenReadExact`, over healthy volumes `ProperChainReadExact`; `FittingReadDelivers` says what
  holds wherever links and data area are found right, and `MeantReadExact` what the recursion itself is good for;
* a streamed read that leaves its sector copies from behind its buffer (`ReadExact`), and one that leaves its cluster
  runs on into the physically next one (`ClusterLeftFails`);
* a full-length 8.3 name is scanned past its field (`RenderedExact`, `EightLetterNameFails`), lookup goes by the number
  of live entries (`LookupExact`) and takes volume labels for files; `NamesExact` says which directories it gets right;
* `task_list_remove` leaves the successor's `prev` link stale, and the first-fit heap soon puts a new task where that
  link points (`Scheduler.Remove`, `TwoRemovalsLoseTheList`, `ReuseMakesALoop`, `ReuseLosesTheList`); `TaskRuns.Run` says
  which runs of creations and removals it survives;
* every process can read all of physical memory but the frames whose addresses its own program and stack take
  (`ReadableExact`); a program of more than 511 pages takes those of the kernel stack (`KernelStackExact`);
* mounting that fails loses three blocks (`Resolve`);
* an opened path is never given back (`OpenThenClose`), and descriptor 512 is handed out but not accepted
  (`DescriptorExact`).

In the FAT modules each notion has two readings: `AsWritten`, what the code computes, and `AsSpecified`. Tasks are
identified by address: `OneTaskPerBlock` gives the `struct task` that each heap block holds when it is one, so that a task
made in a freed block is the one that a stale link names.

FAT references are to the Microsoft FAT specification, version 1.03 (sections "FAT Data Structure" and "FAT Directory
Structure"); paging and descriptors to the Intel SDM, Vol. 3A (sections 4.3, 4.6 and 3.4.5).

## Model

| member | source | states |
|---|---|---|
| HeapTable.SearchContractExact | src/memory/heap/heap.c:188-246 | for n >= 1 the search gives the first fit, or `-ENOMEM` when there is none, if and only if a fitting run exists or the last block is taken |
| HeapTable.SearchContractBroken | src/memory/heap/heap.c:240-245 | one free block and a request for two: the answer is block 0 |
| HeapTable.FirstFitFromIsLeast | src/memory/heap/heap.c:202-246 | the fit found is the least start of n free blocks, and the search runs to the end exactly when there is none |
| HeapTable.ExtentsDisjoint | src/memory/heap/heap.c:281-308 | in a table that encodes a set of allocations, no block belongs to two of them, also when they are adjacent |
| HeapTable.FreeIsUncovered | src/memory/heap/heap.h:46-54 | a block is free if and only if no allocation covers it |
| HeapTable.DecodeUnique | src/memory/heap/heap.h:46-54 | a table encodes at most one set of allocations |
| HeapTable.EncodeUnique | src/memory/heap/heap.h:46-54 | a set of allocations is encoded by at most one table of a given length |
| HeapTable.MarkDecodes | src/memory/heap/heap.c:281-308 | marking a free run adds exactly that allocation |
| HeapTable.ReleaseDecodes | src/memory/heap/heap.c:371-391 | releasing clears exactly the blocks of that allocation and removes it alone |
| HeapRuns.BlocksForExact | src/memory/heap/heap.c:158-170 | the block count is the rounded-up quotient if and only if size <= 2^32 - 4096, and 0 above |
| HeapRuns.StepAgrees | src/memory/heap/heap.c:423-448 | one allocation or release keeps byte table and abstract first-fit allocator in step |
| HeapRuns.StepExact | src/memory/heap/heap.c:337-448 | a step leaves a table that encodes some set of allocations if and only if it is admissible: not a request the search fails to refuse, not a release from inside an allocation |
| HeapRuns.RunAgrees | src/memory/heap/heap.c:423-448 | after any run of admissible allocations and releases, requests of no blocks and releases of free blocks among them, the table encodes what an allocator of plain extents holds |
| HeapRuns.FirstFitLeavesRoom | src/memory/heap/heap.c:202-246 | a first fit of n blocks leaves a run of k - n wherever there was one of k |
| HeapRuns.OneBlockFits | src/memory/heap/heap.c:202-246 | one-block requests can be served if and only if some block is free |
| HeapRuns.OneBlockTaken | src/memory/heap/heap.c:281-308 | a one-block allocation costs exactly one free block |
| Heap.BlockHeap.GetStartBlock | src/memory/heap/heap.c:202-246 | the scan with its two counters returns, on every table and for every n, the first fit, the trailing run or `-ENOMEM` as characterised |
| Heap.BlockHeap.MarkBlocksTaken | src/memory/heap/heap.c:281-308 | exactly the entries of the run are written, 0x41 or 0xC1 0x81* 0x01; what lies past the table is spilled and nothing is when the run fits |
| Heap.BlockHeap.MarkBlocksFree | src/memory/heap/heap.c:371-391 | entries are cleared up to and including the first without the has-next bit |
| Heap.BlockHeap.AddressToBlockExact | src/memory/heap/heap.c:399-404 | for 2 GiB from the heap's start on the index is the block the address lies in; from there on the signed cast makes it negative, up to less than a block before the start, where it is 0 again |
| Heap.BlockHeap.Malloc | src/memory/heap/heap.c:423-435 | served by the first fit of the rounded-up count and recorded as live, or null with nothing changed; the table afterwards for every request, also one of no bytes |
| Heap.BlockHeap.Free | src/memory/heap/heap.c:443-448 | for every address whose index is not negative: a live allocation goes and no other entry changes; a free block or one past the table changes nothing; otherwise the entries are cleared as the loop does |
| Heap.Create | src/memory/heap/heap.c:114-146 | success if and only if both ends are aligned and the table has one entry per block; then the table is empty, otherwise untouched |
| Kheap.Machine.constructor | src/memory/heap/kheap.c:47-73 | the kernel's geometry passes every test: 25600 blocks from 16 MiB on, all free |
| Kheap.Machine.Kmalloc | src/memory/heap/kheap.c:90-95 | null if and only if no run of the rounded-up count is free, when the search answers as documented; otherwise the trailing run is marked and the rest past the table |
| Kheap.Machine.Kzalloc | src/memory/heap/kheap.c:105-113 | as above; exactly the first `size` bytes become zero and no byte of a live allocation, or outside the heap, changes |
| Kheap.Machine.Kfree | src/memory/heap/kheap.c:127-131 | for 2 GiB from the heap's start on: exactly a live allocation goes, nothing for a free block; memory is not touched |
| Kheap.WriteInFreeBlocks | src/memory/heap/kheap.c:105-113 | writing inside blocks that were free disturbs no held frame |
| Words.AndPageMask | src/memory/paging/paging.c:79 | `entry & 0xfffff000` computed bit by bit is the entry without its low twelve bits |
| Words.OrFlags | src/memory/paging/paging.c:49-52 | or-ing flags into an aligned address adds them, and changes nothing above |
| PageTables.ChunkHolds1026Blocks | src/memory/paging/paging.c:34-59 | a page structure is 1026 distinct live one-block allocations |
| PageTables.ChunkPreserved | src/memory/paging/paging.c:34-59 | a page structure, all its 2^20 entries and its blocks survive everything that changes only frames nobody holds |
| PageTables.EntryStored | src/memory/paging/paging.c:199-220 | a store to a table entry changes that entry of the flat map and no other, and reaches neither directory nor another table |
| Paging.IndicesArePageDigits | src/memory/paging/paging.c:99-120 | directory and table index are the two base-1024 digits of the page number |
| Paging.Set | src/memory/paging/paging.c:199-220 | exactly one word of memory, and exactly the addressed page of the flat map, gets the value; unaligned addresses are refused without effect |
| Paging.Get | src/memory/paging/paging.c:222-231 | the entry of the flat map |
| Paging.Map | src/memory/paging/paging.c:134-146 | the page goes to the frame with the flags, or -EINVARG and nothing; only table frames of that structure change |
| Paging.MapRange | src/memory/paging/paging.c:148-163 | the flat map after `count` single maps with wrapping addresses; nothing for count <= 0 |
| Paging.MapTo | src/memory/paging/paging.c:165-197 | the four refusals, else (phys_end - phys) / 4096 pages mapped |
| Paging.MapFlatExact | src/memory/paging/paging.c:148-163 | a range map changes exactly `count` consecutive pages (all of them from 2^20 on), each to the frame the same distance from `phys` |
| PagingChunks.New4gb | src/memory/paging/paging.c:34-59 | an identity map of all pages with its flags, directory entries writeable in addition, from exactly 1026 new blocks, with no held frame changed |
| PagingChunks.Free4gb | src/memory/paging/paging.c:73-85 | exactly the blocks of the structure are given back |
| PagingChunks.RemoveAdded | src/memory/paging/paging.c:73-85 | giving back what was added restores the allocations |
| PagingChunks.RunEdits | src/memory/paging/paging.c:134-220 | any sequence of set, map, map_range and map_to calls refines the same edits of a flat map of 2^20 entries |
| PagingChunks.BuildEditFree | src/memory/paging/paging.c:34-85 | build, any edits, free: the heap table is byte for byte the same, and no frame held at the start has changed |
| AddressSpace.WritablePagesExact | src/task/process.c:88-117 | a page of a loaded task can be written if and only if it is a program or a stack page (both levels considered) |
| AddressSpace.TranslateLoaded | src/task/process.c:88-117 | the walk sends program addresses to the program image, the 16 KiB below 0x3FF000 to the stack, all others to themselves |
| AddressSpace.WritableFrameOwned | src/task/process.c:88-117 | a writable page lies in the live allocation of the task's own program or stack |
| AddressSpace.Isolation | src/task/process.c:148-207 | no writable frame of one loaded process is a writable frame of another or part of any page structure |
| AddressSpace.KernelIsolation | src/task/process.c:148-207 | nor is it part of the kernel's own page structure |
| AddressSpace.ReadableExact | src/task/process.c:88-117 | a loaded process can read a frame if and only if it is one of its own program or stack, or its number is not that of a page the program or stack is mapped to |
| AddressSpace.KernelStackExact | src/task/process.c:88-97 | in a task's map the page under the top of the kernel stack leads to itself if and only if the program has at most 511 pages |
| AddressSpace.LoadedPreserved | src/task/process.c:148-207 | a loaded process stays loaded while only free blocks are taken and written |
| AddressSpace.AllLoadedGrows | src/task/process.c:148-207 | a process made of new blocks joins the others without disturbing them |
| AddressSpace.MapsApartGrows | src/task/process.c:148-207 | and the kernel's own map stays apart from all |
| Processes.ReadOpened | src/task/process.c:52-73 | an open file is read whole into a new allocation of its size; success exactly for a non-empty file for which a run is free and whose last byte the walk reaches |
| Processes.LoadBinary | src/task/process.c:40-78 | success only for a loadable file with a descriptor to be had, and always then when one run of free blocks has room; the buffer holds the file, the descriptor table is as before |
| Processes.MapMemory | src/task/process.c:88-117 | the identity of a new task becomes the intended map of all 2^20 pages |
| Processes.MappedIsEntryOf | src/task/process.c:88-117 | the two range maps together give every page its intended entry |
| Processes.NewTask | src/task/task.c:26-41 | a task's block and page structure, all new, user-readable and not writable; the task is the one in the least free block and in no list of live tasks |
| Processes.LoadSpace | src/task/process.c:163-202 | success only for a loadable file, and always then when one run has room, else possibly -ENOMEM; then a complete space of new blocks with the file in its program pages; all earlier allocations, contents and listed tasks kept |
| Processes.WholeFileDelivered | src/fs/fat/fat16.c:470-518 | a read of a whole file delivers it, whatever the stack holds, if and only if each byte walked is the byte of the specification |
| Processes.AgreeingFileReadsRight | src/task/process.c:66-70 | a file is read right when the root directory fills its sectors and it fits one cluster, or all links met are read right |
| Processes.ProgramFileExact | src/task/process.c:66-70 | over all disks of a geometry a program file is read right if and only if the root directory fills its sectors and the file fits one cluster |
| KernelState.Kernel.constructor | src/task/process.c:119-129 | a kernel with a mounted disk, a page structure of its own and no process is valid |
| KernelState.Kernel.GetFreeSlot | src/task/process.c:119-129 | the least free slot, or -EISTKN exactly when all 12 are used |
| KernelState.Kernel.LoadMemory | src/task/process.c:163-202 | whatever the outcome, all processes stay loaded and apart and the task list stays as it is; on success the new space is apart from every other |
| KernelState.Kernel.LoadForSlot | src/task/process.c:148-220 | in every outcome the kernel stays valid; on success the slot holds the process and the task list ends with its task |
| KernelState.Kernel.Load | src/task/process.c:131-220 | success only when slot, descriptor and loadable file are there, always then with room in one run; -EISTKN exactly when all slots are used; every process loaded before keeps its map, memory and isolation |
| KernelState.VirtualFile | src/task/process.c:88-97 | virtual byte 0x400000 + i of a loaded process is byte i of the chain as the code walks it, for every i below the file size |
| KernelState.SeesFileExact | src/task/process.c:66-97 | a loaded process sees the file of the FAT specification if and only if the code reads that file right |
| KernelState.PathSlotIsEntry | src/fs/fat/fat16.c:629-708 | with the visited slots in order, the slot an opened path leads to is a file that the FAT specification gives the path: live, no label, of that 8.3 name; its size and first cluster are those on the disk |
| KernelState.LoadedProcessSeesFile | src/task/process.c:131-207 | end to end: the path of a process just loaded names, by the live 8.3 names of the disk, the file in some slot, the process has that file's size, and sees it through its own directory from 0x400000 on; asks that the visited slots are in order, and for the last that root directory, first cluster and links met are read right |
| KernelState.SlotsIsolated | src/task/process.c:148-207 | in every valid kernel no frame is writable for the processes of two slots, and none writable for one is part of a page structure of the two or of the kernel's (what they can read: `ReadableExact`) |
| Tasks.Scheduler.Append | src/task/task.c:43-53 | head, tail, next and prev spell the list with the task at its end, wherever stale links point; the first task becomes current |
| Tasks.Scheduler.GetNext | src/task/task.c:65-74 | from task i of n, the task in place (i + 1) mod n |
| Tasks.Scheduler.Remove | src/task/task.c:76-98 | whatever stale links name: the rest of the list is spelled if and only if the task's own prev link was right, or it was first of several and the link named none of them; all next links afterwards; a doubly linked list stays one if and only if the last task goes; who is current next |
| Tasks.RemovedSpells | src/task/task.c:76-98 | the links left by a removal, for every list, position and prev link other than to the task itself |
| Tasks.RemovedBackLinks | src/task/task.c:76-98 | the removal makes exactly the successor's prev link stale |
| Tasks.TwoRemovalsLoseTheList | src/task/task.c:76-98 | three tasks appended, the middle one removed and then the last: the list is lost, the first still leads to the last |
| Tasks.ReuseMakesALoop | src/task/task.c:26-98 | with a new task made where the middle one was, removing the third makes the new task its own successor |
| Tasks.Scheduler.StepsAre | src/task/task.c:65-74 | k scheduling steps from task i lead to task (i + k) mod n |
| Tasks.Scheduler.RoundRobin | src/task/task.c:65-74 | from any task, n steps visit each of the n tasks once and come back |
| TaskRuns.Run | src/task/task.c:26-98 | over whole runs: as long as every removal was clean the list is spelled, and after the next one exactly if that is clean too; clean is a removal whose own prev link, as set when the task was made, still names the task before, or the first of several's that names none of them |
| TaskRuns.RunFromEmpty | src/task/task.c:26-98 | the same from an empty list, where it can be told from the run alone |
| TaskLife.TaskNew | src/task/task.c:26-63 | 1027 new blocks, an identity map, and the task at the end of the list; it lies in the least free block, where a stale link may point |
| TaskLife.TaskFree | src/task/task.c:100-109 | exactly the task's 1027 blocks are given back, and the list loses the task as above |
| TaskLife.NewThenFree | src/task/task.c:26-109 | a task created and freed leaves heap table, list, back links and current task as they were, whatever the stale links |
| TaskLife.FreedBlockIsNext | src/task/task.c:26-109 | a block that was the least free one when taken is so again once given back with all taken with it |
| TaskLife.ReuseLosesTheList | src/task/task.c:26-109 | on every heap with 4108 free blocks: of tasks a, b, c, b is freed and d made; d lies in b's block, and freeing c makes d its own successor and loses the list |
| TaskCopy.StrncpyMapped | src/string/string.c:39-53 | through the current map, the string up to count - 1 bytes and a NUL, and no other byte, is written |
| TaskCopy.SpliceCopy | src/task/task.c:152-162 | entry saved, page mapped in, string copied through the task's map, entry restored: outside the page memory is identical |
| TaskCopy.CopyStringFromTask | src/task/task.c:136-175 | both address maps and the heap table are identical afterwards, also for max = 0; the buffer holds the NUL-terminated prefix of at most max - 1 bytes as the task sees it; the two refusals change nothing |
| TaskCopy.KernelStringLength | src/task/task.c:168 | read back through the kernel's map the string is as long as it was in the task |
| TaskCopy.OwnStringAvoids | src/task/task.c:145-158 | a string in the program or stack of a loaded process, up to its NUL, avoids every free page, unless the program is mapped at that page's own address |
| UserStrings.CopyFromProcess | src/task/task.c:136-175 | for the process of a slot of a valid kernel, of at most 511 pages: the buffer gets its own string as it sees it, and the kernel stays valid with its own map, every process loaded and apart, so that loads and copies follow one another in any order |
| UserStrings.AllKept | src/task/task.c:136-175 | writes into a free page and a buffer outside all page structures leave every process loaded, and the kernel's map |
| DiskStream.ReadExact | src/disk/streamer.c:28-56 | a read delivers disk[pos..pos + total) whatever the stack holds if and only if it starts on a sector boundary or stays in one sector |
| DiskStream.SmallReadsFit | src/disk/streamer.c:28-56 | table entries and directory items are always read inside a sector |
| DiskStream.Stream.Read | src/disk/streamer.c:28-56 | every delivered byte, the new position, and nothing outside the buffer part, for all positions and lengths |
| FatChain.WalkCompose | src/fs/fat/fat16.c:421-468 | walking a + b links is walking b from where a ended, also on cyclic tables |
| FatChain.WalkSucceedsExact | src/fs/fat/fat16.c:421-468 | a walk of k links gives a cluster if and only if each of the k links is proper |
| FatChain.RefusedExact | src/fs/fat/fat16.c:434-459 | for which values the tests agree with the FAT16 codes |
| FatChain.DataSectorExact | src/fs/fat/fat16.c:257-258 | the data area of every read is sought where the FAT specification puts it if and only if the root directory fills its sectors |
| FatChain.LinkPositionExact | src/fs/fat/fat16.c:397-409 | over all tables, the right link is read if and only if the position is right |
| FatChain.FatPosNeverRight | src/fs/fat/fat16.c:397-401 | short of a 32-bit wrap the position is wrong for every cluster |
| FatChain.FatPosOnBootDisk | src/fs/fat/fat16.c:397-401 | 409600 instead of 102404 on the disk the kernel is built with |
| FatChain.WalksAgree | src/fs/fat/fat16.c:421-468 | where the links met are read right, the walk is that of the FAT specification |
| FatChain.RawIsChain | src/fs/fat/fat16.c:470-518 | a fitting request's bytes are those of the clusters laid end to end, as the code finds them or as the specification does |
| FatRead.FatFs.GetFatEntry | src/fs/fat/fat16.c:386-419 | the little-endian word at the coded position, whatever the stack holds |
| FatRead.FatFs.GetClusterForOffset | src/fs/fat/fat16.c:421-468 | the loop computes the (offset / cluster size)-th link, or -EIO |
| FatRead.FatFs.ReadInternal | src/fs/fat/fat16.c:470-518 | the whole buffer and the result of the recursive read, for every request; it terminates on the remaining total |
| FatRead.FatFs.Read | src/fs/fat/fat16.c:752-778 | the buffer and result of n items, for every size, position and count |
| FatRead.FittingIsChain | src/fs/fat/fat16.c:470-518 | the recursive read is one slice of the chain, and succeeds if and only if the chain reaches the last byte |
| FatRead.ItemsAsOne | src/fs/fat/fat16.c:752-778 | n items of s bytes from position 0 give the same buffer and outcome as one of n * s bytes, for s dividing 512 |
| FatRead.RoomyVolume | src/fs/fat/fat16.c:257-258 | where the data area starts behind two clusters' worth of sectors, no chain leads before the disk |
| FatExact.FittingReadDelivers | src/fs/fat/fat16.c:470-518 | where root directory and links met are read right, every fitting request delivers the file as the code stands |
| FatExact.WrittenReadExact | src/fs/fat/fat16.c:386-518 | as written, a request delivers the file on all disks of the geometry if and only if the root directory fills its sectors and the request lies in the first cluster and is aligned to, or inside, a sector |
| FatExact.ProperChainReadExact | src/fs/fat/fat16.c:386-518 | the same over healthy volumes whose file has two clusters that do not follow each other, the second with the end mark |
| FatExact.MeantReadExact | src/fs/fat/fat16.c:470-518 | with links and data area found as the specification says, the recursion delivers a request on all covering disks if and only if it starts on a boundary of cluster and sector or stays in them; the failing half on chains that link a cluster to itself |
| FatExact.MeantProperChainExact | src/fs/fat/fat16.c:470-518 | the same over healthy volumes whose file has two clusters that do not follow each other, the second with the end mark |
| FatExact.ClusterLeftFails | src/fs/fat/fat16.c:492-493 | a read that leaves its cluster from inside runs on into the next one on the disk, and is wrong when that differs from the next of the chain |
| FatExact.SectorLeftFails | src/disk/streamer.c:41-45 | for every read that leaves its sector some stack makes it wrong: the byte behind the buffer is delivered |
| FatExact.TwoClusterFileFails | src/fs/fat/fat16.c:397-401 | with the boot disk's geometry, a disk with the healthy chain 2, 4 on which a file of 65537 bytes is not read |
| FatExact.OneByteFails | src/fs/fat/fat16.c:257-258 | with 65 root entries a one-byte read is wrong: sector 716 instead of 717 |
| FatDirectory.GetTotalItems | src/fs/fat/fat16.c:163-210 | with an end marker the scan ends there, with the number of slots before it not marked 0xE5 |
| FatDirectory.GetRootDirectory | src/fs/fat/fat16.c:212-261 | -ENOMEM exactly when no run is free for it; else a new allocation of its size, the items as on the disk, the live count, and where directory and data start |
| FatDirectory.RenderedExact | src/fs/fat/fat16.c:316-344 | the rendering is the 8.3 name if and only if a full-length name and extension happen to be followed by a blank |
| FatDirectory.EightLetterNameFails | src/fs/fat/fat16.c:316-344 | ABCDEFGH.TXT of an archived file comes out with 15 letters |
| FatDirectory.ToProperString | src/fs/fat/fat16.c:316-330 | the bytes up to the first blank are copied, the cursor ends behind them, and at most a NUL is written there |
| FatDirectory.GetFullRelativeFilename | src/fs/fat/fat16.c:332-344 | the C string in the buffer is the rendering |
| FatDirectory.Istrncmp | src/string/string.c:82-97 | zero if and only if the names are equal up to case |
| FatDirectory.LookupExact | src/fs/fat/fat16.c:629-649 | for all names, lookup succeeds exactly for the names the code renders live entries to, if and only if no visited slot is a deleted one |
| FatDirectory.InOrderIsRight | src/fs/fat/fat16.c:629-649 | for every name: with the visited slots in order the lookup finds a live entry of that 8.3 name that is no volume label, or nothing when there is none |
| FatDirectory.NamesExact | src/fs/fat/fat16.c:629-649 | for directories without a dot byte in a name: all lookups are right if and only if each visited slot is in order, which is not deleted, rendered as its 8.3 name, and, if a label, followed by a file of its name |
| FatDirectory.FirstClusterExact | src/fs/fat/fat16.c:366-370 | the or-ed halves are the first cluster of the specification if and only if the high one is zero |
| Files.FindItem | src/fs/fat/fat16.c:607-649 | the last matching slot; an item and a clone taken for every matching one |
| Files.LoadedLookup | src/fs/fat/fat16.c:629-649 | what the search of the loaded directory finds is what the lookup finds on the disk |
| Files.RootLookup | src/fs/fat/fat16.c:212-261 | the root directory loaded and searched: the last visited slot rendered to the name is found; with the visited slots in order, a live entry of that 8.3 name, and nothing only when there is none |
| PathParser.ComponentsOfJoin | src/fs/pparser.c:40-65 | splitting undoes joining |
| PathParser.JoinOfComponents | src/fs/pparser.c:40-65 | on any text, the components joined are the text up to its first empty component |
| PathParser.ParsedPath | src/fs/pparser.c:103-142 | "d:/c1/.../ck" is accepted and means drive d and components c1 to ck |
| PathParser.CopyPart | src/fs/pparser.c:43-50 | the part's C string; every store is inside the 108 bytes |
| PathParser.GetPathPart | src/fs/pparser.c:40-65 | the part and the cursor behind its slash; for an empty part the heap table is as before |
| PathParser.Parse | src/fs/pparser.c:103-142 | null exactly for paths that are not accepted; else drive, linked parts with the components, and 2k + 1 one-block allocations |
| PathParser.Free | src/fs/pparser.c:88-101 | exactly the blocks of the path are given back |
| PathParser.ParseThenFree | src/fs/pparser.c:88-142 | for every path the heap table is byte for byte restored; in between k components hold 2k + 1 blocks |
| Files.FileSystem.NewIndex | src/fs/file.c:72-93 | the least free index |
| Files.FileSystem.DescriptorExact | src/fs/file.c:95-106 | a descriptor is found under its number if and only if it is not number 512 |
| Files.FoundSlotIs | src/fs/fat/fat16.c:629-649 | the slot settled on is the last match |
| Files.FileSystem.FatOpen | src/fs/fat/fat16.c:651-708 | the matching slot for a one-component path, failure for a longer one; one block, and two for every slot with the name, are taken |
| Files.FileSystem.Fopen | src/fs/file.c:143-206 | a descriptor exactly when the path names one entry on drive 0 and an index is free, else 0 and no table change; exactly how many blocks are kept in each case |
| Files.FileSystem.Fstat | src/fs/file.c:208-222 | the four bytes of the size in the file's directory entry on the disk, or -EIO without a descriptor |
| Files.FileSystem.Fread | src/fs/file.c:261-282 | the result and the whole of memory afterwards |
| Files.FileSystem.Fclose | src/fs/file.c:224-242 | the descriptor's four blocks and its index are given back |
| Files.FileSystem.OpenThenClose | src/fs/file.c:143-242 | a file opened and closed has cost the three blocks of its path and two for every further slot of its name; a failed open all it took |
| Gdt.DecodeEncode | src/gdt/gdt.c:4-32 | by the processor's rule the descriptor gives back base, limit and type if and only if the limit is one the encoder accepts |
| Gdt.EncodedInjective | src/gdt/gdt.c:4-32 | different accepted segments have different descriptors |
| Gdt.EncodeGdtEntry | src/gdt/gdt.c:4-32 | the eight bytes, and no others, are written |
| Gdt.StructuredToGdt | src/gdt/gdt.c:34-42 | every descriptor of the table is 32-bit and decodes to its segment |
| Boot.Resolve | src/fs/fat/fat16.c:263-314 | -EFSNOTUS exactly for a foreign signature; else a mounted file system whenever one run of free blocks has room, and otherwise possibly -EIO; a failure loses exactly the blocks of three streams |
| Boot.Start | src/kernel.c:225-230 | the kernel's page structure is built and the kernel without processes is valid |

## Left out

- PagingChunks.New4gb: requires 1026 free blocks, because the source does not test its allocations; with fewer it would write through a null pointer.
- PathParser.Parse: requires 2k + 2 free blocks for the same reason.
- PathParser.ParseThenFree: needs free blocks as `Parse` does.
- Processes.NewTask: needs 1027 free blocks, as `New4gb` does.
- TaskLife.TaskNew: needs 1027 free blocks, as `New4gb` does; its error path, which frees a half-built task, is not modelled.
- TaskLife.TaskFree: is about tasks whose block and page structure are live; what else a freed task's memory may hold by then is not.
- Processes.LoadSpace: requires as many free blocks as the load takes, in one run or with the last block of the heap taken (else a request could be answered with a run that is too short), a file of at most 2^32 - 4096 bytes, no subdirectory of the file's name, and that index 511 is not the next free descriptor (number 512 would be followed into null).
- Processes.LoadBinary: requires room and a descriptor other than 512, as `LoadSpace` does.
- Processes.ReadOpened: requires that a request for the file is served or refused as documented.
- KernelState.Kernel.Load: requires what `LoadSpace` does; process exit is not modelled, as the source has none.
- KernelState.Kernel.LoadMemory: requires what `LoadSpace` does.
- KernelState.Kernel.LoadForSlot: covers free slots only; for a used one the source reads an uninitialised pointer.
- Kheap.Machine.Kzalloc: requires that the request is served or refused as documented; the clearing of a run that is too short would leave the heap.
- Kheap.Machine.Kfree: requires an address inside the 2 GiB from the heap's start on; on others the index is negative (`AddressToBlockExact`) and the loop starts before the table. A free from inside an allocation is followed in the table only.
- Heap.BlockHeap.Free: requires an index that is not negative, for the same reason.
- HeapRuns.RunAgrees: is about runs of admissible steps; by `StepExact` no other step leaves a table that encodes anything.
- TaskCopy.CopyStringFromTask: requires max >= 0 (below, the source clears up to 4 GiB), a source that avoids the temporary page and the four bytes of its entry, a buffer outside the page structures and that page, and that the kernel stack's page leads to itself in the task's map (`KernelStackExact`).
- TaskCopy.StrncpyMapped: requires a source outside the destination.
- UserStrings.CopyFromProcess: is about programs of at most 511 pages, since a larger one takes the page of the kernel stack that the copy runs on; of that stack only the topmost page is considered.
- Tasks.Scheduler.Remove: a stale prev link may point to freed memory, where the store through it lands; what that block holds by then, if not a task, is not followed.
- DiskStream.Stream.Read: disk errors are not modelled, positions are unbounded integers and what lies behind the sector buffer is an arbitrary function.
- FatRead.FatFs.ReadInternal: offsets and totals are not wrapped at 2^31.
- FatRead.FittingIsChain: asks of an unaligned request that its cluster does not lie before the disk, as clusters 0 and 1 may.
- FatRead.ItemsAsOne: is about chains that do not lead before the disk, which `RoomyVolume` shows of every volume with its data behind two clusters' worth of sectors.
- FatExact.WrittenReadExact: is about geometries in which the coded and the right position of the first link differ, which `FatPosNeverRight` shows for all clusters short of a wrap, and in which the table lies before the data.
- FatExact.ProperChainReadExact: the second cluster must not follow the first on the disk, because a read from inside the first then rightly runs on into it, and its entry must not be where the code looks for that of the first.
- FatDirectory.GetTotalItems: requires an end marker, without which the scan would not end.
- FatDirectory.GetFullRelativeFilename: requires that a blank byte ends the scans before the slot does, as the reserved byte 12 of a directory item does on DOS disks.
- FatDirectory.GetRootDirectory: the items are a buffer of their own; of the allocation only the extent is modelled.
- FatDirectory.NamesExact: is about slots without dot bytes, which the FAT specification forbids in names; with them two different 8.3 names could read alike. `InOrderIsRight` holds for all.
- Files.FindItem: requires that no slot with the name is a subdirectory, whose contents the source would load and then forget.
- KernelState.LoadedProcessSeesFile: is about visited slots in order; on directories without dot bytes no others have all lookups right (`NamesExact`).
- Files.RootLookup: requires free blocks for the directory and for two per slot.
- Files.FileSystem.FatOpen: requires that no slot with the name is a subdirectory.
- Files.FileSystem.Fopen: opens for reading only, requires room, and that no slot with the name is a subdirectory.
- Files.FileSystem.Fclose: requires a number that has a descriptor, or 0; any other would be followed into null.
- Boot.Resolve: the header and its signature are parameters; requires free blocks, since the source does not test its own allocations there, an end marker in the root directory, and slots that end their names.
- TaskRuns.Run: is about creations of tasks that are not in the list and removals of tasks that are, up to the first removal that is not clean; what the links are afterwards is in `RemovedSpells`.
- Gdt.EncodeGdtEntry: requires an accepted limit; on others the kernel stops.
- Small kernel objects (processes, path parts, descriptors) are Dafny objects; of their heap blocks, and of those of tasks, only the extents are modelled, not the bytes. The heap table is an array of its own, not part of physical memory.
- Seeking, subdirectories, FAT writes, reading the boot sector into the header, `strcpy` and `strncmp`.
- Registers, interrupts, system calls, the TSS, the terminal, the boot loader, all assembly and ATA port I/O; a switch of directory is only the choice of the map an access goes through.
- `task_get_stack_item`: one read through another map, an easy member beside `copy_string_from_task`.
