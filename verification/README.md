# HardikHyperionOS in Dafny

A model of the memory stack, the scheduler, the storage reads and the small parsers of HardikHyperionOS, with proofs.
`dafny verify dfyconfig.toml` checks it.

The kernel hands out 4096-byte blocks from a byte table, builds 32-bit two-level page tables in such blocks, and gives a
process memory by allocating blocks and making exactly those pages writeable in the process's directory. The main result
(`Isolation.Isolation`) spans all three: over any interleaving of process creation, harmless program loading,
`process_malloc`, `process_free`, kernel allocations, stores by programs and by the kernel, and process destruction, user
mode can write a heap page in a process exactly when it lies in one of its live allocations, and then writes that page;
whatever else it can write is the process's image; two processes never write the same physical page; and no page of any
paging structure can be written by any process. `KernelSystem` shows that every operation, as a method on the machine, takes
one such step, and that process exit is a path of them. Two of these steps are harmless only on a condition that the code
does not check, and for both the exact condition is proved:

- Loading. Of a program header the code checks only that its end does not lie below its start. From an isolated moment of
  a run, loading leaves the system isolated if and only if every page table entry that it leaves is allowed: a heap page
  can be written exactly when it lies in a live allocation, and then leads to itself, and any other page that can be
  written leads into the image of the process (`Isolation.MappingIsolatesIff`, and on the machine
  `KernelSystem.System.LoadProgram`). `ElfLoad.ElfReachesDirectory` is a header for which it fails.
- Stores by the kernel. A program's own stores never reach a paging structure (`Isolation.UserStoreIsLegal`), but the kernel
  also stores where a program tells it to, as `isr80h_command8_get_program_arguments` does with a count. The runs are those
  in which no store of the kernel hits a paging structure. A word that the kernel does store into a table slot leaves the
  system isolated if and only if it is an allowed entry (`Isolation.KernelStoreIff`, and for the count and the pointer that
  this call stores, `Isolation.KernelStoresIff`); the word 7 in the slot of a page
  outside the heap is not, and lets the process write the physical page 0 (`Isolation.KernelStoreHarm`).

`Lifetime` follows one process through a run: everything recorded for it stays accounted for until it exits, and then
nothing recorded for it is left. What starting it takes and the code never gives back is named exactly: the process's own
block, the path list of every file that is opened, and for a flat binary the record and the copy of the file that
`elf_load` makes before it refuses the file. `KernelSystem.System.Life` and `LifeOfElf` state the heap table after a whole
life: the old table with those chains in free blocks, and nothing else.

## How the model is laid out

| file | models |
|---|---|
| `Status.dfy`, `Bits.dfy`, `Memory.dfy` | error numbers, 32-bit words, bitwise and/or from their digits, physical memory as 2^32 bytes with little-endian words |
| `BlockTable.dfy`, `KernelHeap.dfy` | the block table as a value and what its bits mean; the allocator working in place on it |
| `PageMap.dfy`, `Kernel.dfy` | two-level tables refining a flat map of 2^20 pages; `kheap.c` and `paging.c` on one machine |
| `Processes.dfy`, `Isolation.dfy`, `Termination.dfy`, `Lifetime.dfy`, `KernelSystem.dfy` | allocation tables, the run argument, process exit, the life of a process, the kernel with its processes |
| `ElfLoad.dfy`, `CopyString.dfy` | `process_map_memory`; `copy_string_from_task` |
| `Tasks.dfy` | the task list and round robin |
| `Streamer.dfy`, `Fat16.dfy` | sector-splitting reads and the FAT16 reads on top |
| `CStrings.dfy`, `Tokens.dfy`, `PathParser.dfy`, `Keyboard.dfy`, `Itoa.dfy` | tokenising, command lists, paths, the key buffer, decimal output |

Conventions. Pointers and page-table entries are unsigned 32-bit values and wrap where the C code wraps. The bytes behind
the heap's block table are part of the array the allocator works on, so that marking past the end of the table is visible.
The block table itself lies outside the heap pool and is not reached through heap pointers. Error numbers are negated as in
the source. Out-parameters through pointers become results. `paging_switch` is the choice of the address space in force.

## What the code does not do

Each of these follows the code; the theorem names the exact condition.

- A request that does not fit is answered with the start of the trailing free run whenever the last block is free, and one
  for zero blocks too. An answer is a block that the caller holds afterwards exactly when the request was for at least one
  block and fitted (`AnswerHeldIffFits`). An answered nonzero request leaves a sound table exactly when it fitted
  (`AnswerSoundIffFits`); `AnsweredWithoutFit` gives requests that do not, and `Heap.MallocBlocks` the bytes behind the
  table that are overwritten. The run theorems ask for requests that fit or find the last block taken (`Safe`).
- A request for zero blocks marks nothing. The next request, for m blocks, is answered with the same block exactly when no
  run of m free blocks starts below it (`ZeroRequestAliases`).
- `process_free` does not give the page entries back their initial flags: freed pages end neither present nor
  user-accessible. So malloc and free restore the page map exactly when the pages had no flags before
  (`MallocThenFree`). Directories start with every page present and user-readable, so isolation is about writing.
- `process_malloc` clears the bytes that were asked for. It maps whole pages, and what follows in the last one is as it was
  (`MallocGrants`).
- A segment is loaded where it says exactly when `p_vaddr` and `p_offset` agree modulo 4096 (`SegLoadedIffCongruent`).
  Every program header is mapped, whatever its type, its addresses and its `p_memsz`, over the heap's addresses and past
  the end of the file too; `MappingIsolatesIff` and `SegmentKeepsIff` say exactly when that is harmless.
- Nothing frees the process's own block, nor the path list that `fopen` makes, nor what `elf_load` takes for a file that it
  refuses (`Life`, `LifeOfElf`).
- `task_list_remove` leaves the successor's `prev` stale, so removing a task and then its successor breaks the list
  (`RemoveTwoInARow`). An exiting task is followed by its successor exactly when there are two tasks; with more, that one
  is passed over, because removal already moved the current pointer; with one, no current task is left (`ExitCurrent`).
  Which sequences of steps, new tasks and exits the list survives is decided by which prev links are still exact, as long
  as no new task is given the block of one that has left (`Survives`, `RunLife`); of four tasks, the exits of the second, the fourth and the third are too many (`ThreeExits`).
- `fat16_get_fat_entry` answers a status, so every read that needs a second cluster fails (`GetClusterForOffset`), and a
  read near the end of a cluster continues on the disk, not in the chain (`ReadInternal`).
- When an allocation fails, `hardikhyperionos_parse_command` leaves the hidden cursor of `strtok` non-null: it is null
  afterwards exactly when there was memory for every word (`ParseCommand`).
- One push onto 1024 outstanding characters replaces the oldest (`PushWhenFull`); a backspace on an empty buffer swallows the
  next character (`BackspaceWhenEmpty`).

## Model

| member | source | states |
|---|---|---|
| Bits.MaskIsBitAnd | src/memory/paging/paging.c:168 | masking an entry with 0xFFFFF000, digit by digit, is rounding down to a page |
| Bits.TagIsBitOr | src/memory/paging/paging.c:102 | or-ing flags into an address: addition when the address is page aligned and the flags are below 4096 |
| Bits.BitByBit | src/memory/paging/paging.c:102 | bitwise "and" and "or" work on each bit by itself |
| Bits.BitsDetermine | src/memory/paging/paging.c:102 | numbers with the same bits are the same |
| Memory.WordBytes | src/memory/paging/paging.c:168-171 | the word at an address is w exactly when the four bytes there are those of w, lowest first |
| BlockTable.FirstFit | src/memory/heap/heap.c:119-153 | the least start of n free blocks if there is one; else -ENOMEM when the last block is taken, else the start of the too-short trailing run |
| BlockTable.EntryBytes | src/memory/heap/heap.h:9-13 | the bytes of a chain: 0x41 for a single block, else 0xC1, 0x81 in between, 0x01 |
| BlockTable.FreedClearsChain | src/memory/heap/heap.c:202-216 | following HAS_NEXT clears exactly one chain and nothing else |
| BlockTable.FreeUndoesMark | src/memory/heap/heap.c:160-216 | freeing a chain just marked in free blocks restores the table |
| BlockTable.LiveDisjoint | src/memory/heap/heap.c:160-181 | live allocations never share a block |
| BlockTable.HoldsUnique | src/memory/heap/heap.h:9-13 | the FIRST and HAS_NEXT bits alone determine which allocations are live |
| BlockTable.HoldsDetermines | src/memory/heap/heap.h:9-13 | the live allocations determine every byte of the table |
| BlockTable.MarkKeeps | src/memory/heap/heap.c:160-181 | marking n free blocks adds exactly one allocation and keeps the others |
| BlockTable.FreeKeeps | src/memory/heap/heap.c:202-216 | freeing a live block releases exactly the chain it heads; all other entries stay |
| BlockTable.RunKeeps | src/memory/heap/heap.c:183-234 | after any run of legal calls the table holds exactly the allocations the callers hold |
| BlockTable.FreeAllInAnyOrder | src/memory/heap/heap.c:183-234 | after any run, freeing what is live in any order is legal and leaves the all-free table |
| BlockTable.TableIsConcatenation | src/memory/heap/heap.c:160-216 | every such table is a concatenation of free blocks and well-formed chains |
| BlockTable.TypeTestAgrees | src/memory/heap/heap.c:114-128 | on every such table the test with the misplaced parenthesis equals the intended type test |
| BlockTable.AnswerSoundIffFits | src/memory/heap/heap.c:119-181 | an answered nonzero request leaves a table that holds some set of allocations exactly when it fitted |
| BlockTable.AnswerHeldIffFits | src/memory/heap/heap.c:119-181 | the answer is a block that the caller holds afterwards exactly for a request of at least one block that fits |
| BlockTable.AnsweredWithoutFit | src/memory/heap/heap.c:119-181 | on an all-free table every request for more blocks than there are is answered with block 0, and leaves no sound table |
| BlockTable.ZeroRequestAliases | src/memory/heap/heap.c:141-172 | a zero-block request marks nothing; the next request, for m blocks, gets the same block exactly when no run of m free blocks starts below it, soundly when m blocks fit there; freeing the one then releases the other |
| KernelHeap.KernelHeapConstants | src/memory/heap/kheap.c:11-24 | the pool is 25600 blocks of 4096 bytes from 16 MB on; the table has one entry per block and the pool is block aligned at both ends |
| KernelHeap.AlignUpper | src/memory/heap/heap.c:101-112 | the least multiple of 4096 not below the size; 0 when rounding up wraps |
| KernelHeap.Blocks | src/memory/heap/heap.c:223-229 | the number of blocks asked for covers the size and not a block more; 0 after wrap-around |
| KernelHeap.Heap.Create | src/memory/heap/heap.c:51-99 | refuses exactly an unaligned pool or a table of the wrong size, else clears the table and nothing behind it |
| KernelHeap.Heap.GetStartBlock | src/memory/heap/heap.c:119-153 | the one-pass scan computes FirstFit |
| KernelHeap.Heap.MarkBlocksTaken | src/memory/heap/heap.c:160-181 | writes a chain of n entries at start, wherever the table ends, and nothing else |
| KernelHeap.Heap.MallocBlocks | src/memory/heap/heap.c:183-200 | answers 0 and changes nothing on -ENOMEM; else marks the blocks, and overwrites the bytes behind the table by as much as the chain reaches past it |
| KernelHeap.Heap.MarkBlocksFree | src/memory/heap/heap.c:202-216 | the loop clears the table as Freed says and leaves the bytes behind it |
| KernelHeap.Heap.Malloc | src/memory/heap/heap.c:223-229 | heap_malloc: the request in blocks, answered as by MallocBlocks |
| KernelHeap.Heap.Free | src/memory/heap/heap.c:218-234 | heap_free of the block that contains the pointer |
| PageMap.IndexBijection | src/memory/paging/paging.c:61-76 | index pairs below 1024 and page addresses correspond one to one |
| PageMap.HardwareWalk | src/memory/paging/paging.c:61-76 | the flat map and its translation are the two-level walk of the hardware: address bits 22 to 31, 12 to 21 and 0 to 11 |
| PageMap.FlatFrame | src/memory/paging/paging.c:181-190 | memory changes outside a directory's own pages do not change its map |
| PageMap.SetRefinesUpdate | src/memory/paging/paging.c:152-172 | writing one table slot changes exactly one page of the flat map |
| PageMap.FlagBits | src/memory/paging/paging.h:8-12 | the present, writeable and user bits of an entry are bits 0, 1 and 2 |
| PageMap.TagGrants | src/memory/paging/paging.h:8-12 | an entry made of a frame and flags gives the frame back when masked, and grants exactly those flags |
| PageMap.TranslateInFrame | src/memory/paging/paging.c:174-179 | a translated address lies in the frame of its entry |
| PageMap.AppliedAt | src/memory/paging/paging.c:105-150 | after several calls a page has the entry of the last call that maps it, and any other page keeps its entry |
| PageMap.RangeMapping | src/memory/paging/paging.c:105-150 | the k-th byte of a mapped range translates to the k-th byte of the frames, also across the top of the address space; pages outside keep their entries |
| PageMap.RangeOpen | src/memory/paging/paging.c:105-150 | a range mapped with flags 7 is one that user mode may use byte for byte |
| Kernel.MaskRecoversTable | src/memory/paging/paging.c:23-43 | masking a directory entry gives back the aligned table it was made of |
| Kernel.Machine.Kzalloc | src/memory/heap/kheap.c:27-43 | allocates by first fit and zeroes exactly the requested bytes, or answers 0 and changes nothing |
| Kernel.Machine.Kfree | src/memory/heap/kheap.c:45-48 | frees the chain headed by the pointer's block |
| Kernel.Machine.PagingGet | src/memory/paging/paging.c:181-190 | reads the flat map; page 0 for an unaligned address |
| Kernel.Machine.PagingSet | src/memory/paging/paging.c:152-172 | changes exactly one page of the flat map, keeps the tables, and writes nothing but tables; -EINVARG and no change if unaligned |
| Kernel.Machine.PagingMap | src/memory/paging/paging.c:95-103 | the same for an address with flags |
| Kernel.Machine.PagingMapRange | src/memory/paging/paging.c:105-118 | maps count consecutive pages, virtual addresses wrapping |
| Kernel.Machine.PagingMapTo | src/memory/paging/paging.c:120-150 | succeeds exactly on aligned addresses in order, with the range mapped; a rejected call changes nothing |
| Kernel.Machine.PagingGetPhysicalAddress | src/memory/paging/paging.c:174-179 | translates an address through the flat map |
| Kernel.Machine.FillTable | src/memory/paging/paging.c:16-20 | a table of 1024 consecutive frames |
| Kernel.Machine.PagingNew4gb | src/memory/paging/paging.c:9-30 | with 1026 free blocks: takes blocks that were free, touches no other block or page, and builds the identity map with the given flags in distinct tables |
| Kernel.Machine.PagingFree4gb | src/memory/paging/paging.c:38-49 | frees exactly the blocks of the structure |
| Kernel.StructureSize | src/memory/paging/paging.c:9-30 | a paging structure occupies exactly 1026 blocks |
| Kernel.PagingConservesHeap | src/memory/paging/paging.c:9-49 | new, then anything that keeps the tables, then free: the structure's blocks are as before and every other entry is as the calls in between left it |
| Processes.FindSlot | src/task/process.c:45-58 | the first slot with the pointer |
| Processes.Process.FindFreeAllocationIndex | src/task/process.c:45-58 | the first empty slot or -ENOMEM |
| Processes.Process.GetAllocationByAddr | src/task/process.c:118-127 | the first slot with the address or none |
| Processes.Process.AllocationUnjoin | src/task/process.c:106-116 | empties every slot with the pointer and no other |
| Processes.Process.Enter | src/task/process.c:68-83 | maps the new blocks writeable and records them in the first empty slot, or changes nothing |
| Processes.Process.Malloc | src/task/process.c:60-93 | process_malloc: table, page map, slots and answer after each outcome, and which memory may change; of the new blocks the requested bytes are 0 and the rest is as it was; the block is given back when no slot is free |
| Processes.Process.Free | src/task/process.c:279-300 | process_free of a nonzero pointer: pages lose their flags, slots are emptied, the chain is freed; nothing for a foreign pointer |
| Processes.ZeroMissesTables | src/task/process.c:60-66 | clearing a fresh allocation touches no page of the process's paging structure |
| Processes.ZeroStays | src/task/process.c:60-83 | what kzalloc cleared is still 0 after the new pages are entered in the process's tables |
| Processes.MallocGrants | src/task/process.c:60-93 | the addresses handed out lead to themselves, the process may write them, and reads 0 there; what follows in the last page is not cleared |
| Processes.MallocThenFree | src/task/process.c:60-93 | malloc then free restores the heap table and the slots; the pages end mapped to themselves with no flags, so the page map is restored exactly when they had none before |
| Isolation.MallocKeeps | src/task/process.c:60-93 | process_malloc keeps the invariant of the whole system |
| Isolation.FreeKeepsInv | src/task/process.c:279-300 | process_free keeps the invariant |
| Isolation.MappingKeepsIff | src/memory/paging/paging.c:120-150 | after any calls of paging_map_to for a process the invariant of the runs holds exactly when every entry they leave is allowed |
| Isolation.MappingIsolatesIff | src/memory/paging/paging.c:120-150 | after any calls of paging_map_to for a process the system is isolated exactly when every entry they leave is allowed |
| Isolation.IsolatedIsPages | src/memory/paging/paging.c:152-190 | whether a process is isolated, address by address, is decided by its flat map |
| Isolation.InvIsolated | src/task/process.c:60-300 | the invariant of the runs implies isolation |
| Isolation.KernelStoreIff | src/isr80h/process.c:71-79 | after a word stored by the kernel into the table slot of a page the system is isolated exactly when the word is an allowed entry of that page |
| Isolation.KernelStoresIff | src/isr80h/process.c:71-79 | after two words stored into the table slots of two pages the system is isolated exactly when both are allowed entries |
| Isolation.KernelStoreHarm | src/isr80h/process.c:71-79 | the word 7 stored there for a page outside the heap lets the process write the physical page 0 |
| Isolation.HarmfulMapping | src/memory/paging/paging.c:120-150 | one page outside the heap mapped writeable to the process's own directory lets the process write it, so the system is not isolated |
| Isolation.LoadKeeps | src/task/process.c:421-451 | harmless loading keeps the invariant |
| Isolation.SpawnKeeps | src/task/task.c:239-260 | creating a process with a fresh directory keeps the invariant |
| Isolation.DisposeKeeps | src/task/process.c:205-210 | freeing program and stack blocks of a process that runs no more, one after the other, keeps the invariant |
| Isolation.PtSurvives | src/task/process.c:205-212 | its paging structure is still whole, and still recorded, when they are gone |
| Isolation.DestroyKeeps | src/task/process.c:203-212 | the end of process_terminate, program and stack before the directory, keeps the invariant |
| Isolation.KernelAllocKeeps | src/memory/heap/kheap.c:33-43 | kernel allocations in between keep the invariant |
| Isolation.KernelFreeKeeps | src/memory/heap/kheap.c:45-48 | freeing a kernel allocation, or the image of a process that is gone, keeps the invariant |
| Isolation.StoreKeeps | src/memory/paging/paging.c:181-190 | any stores outside the paging structures keep the invariant |
| Isolation.SlotsDisjoint | src/task/process.c:45-93 | allocations of one process never overlap |
| Isolation.PtDisjoint | src/memory/paging/paging.c:9-30 | no page belongs to the paging structures of two processes |
| Isolation.RunInv | src/task/process.c:60-300 | the invariant holds at every moment of every run from boot |
| Isolation.Isolation | src/task/process.c:60-300 | in a run, writeable heap pages are exactly the live allocations and lead to themselves, what else is writeable is the process's image, and all of it belongs to the process; no physical page is writeable from two processes; no page of a paging structure is writeable |
| Isolation.UserStoreIsLegal | src/memory/paging/paging.h:8-12 | a program's own store, where it may write, is a legal step, so by its own stores no program can rewrite a page table |
| Isolation.CallsAreReady | src/task/process.c:60-300 | at every moment the conditions of the process methods hold |
| Termination.FreeSlot | src/task/process.c:131-134 | one turn of the sweep frees one occupied slot and keeps the invariant |
| Termination.TerminateAllocations | src/task/process.c:129-137 | the sweep over occupied slots leaves none, drops exactly their allocations, and keeps the invariant |
| Termination.DisposablesStay | src/task/process.c:129-137 | the sweep touches none of the kernel's own blocks of the process |
| Termination.FreeProgramData | src/task/process.c:139-167 | frees the binary, or the ELF image and then its record; -EINVARG for any other file type |
| Termination.DestroyMemory | src/task/process.c:203-212 | program, stack, directory, in this order: one step of the run argument |
| Termination.Terminate | src/task/process.c:193-218 | the memory side of process_terminate is a path of the run argument; exactly the allocations, the program, the stack, the paging structure and the task's block are gone; if everything recorded for the process was accounted for, nothing that belongs to it is left |
| Termination.AllGone | src/task/process.c:203-212 | once program, stack and structure are freed, nothing recorded for the process is left |
| Lifetime.StepSpares | src/task/process.c:60-300 | a step that spares the process adds nothing to what is recorded for it but data in its slots, and leaves the kept blocks |
| Lifetime.RunSpares | src/task/process.c:60-300 | over any run of such steps everything recorded for the process stays accounted for |
| Lifetime.LifeKeeps | src/task/process.c:193-218 | so at any later moment process_terminate finds what the process was started with |
| Lifetime.SpawnTidy | src/task/task.c:239-260 | a fresh paging structure is recorded with each part once |
| Lifetime.OwnLife | src/task/process.c:193-218 | while only the process runs, what it was started with and from is recorded, so exit at any later moment leaves the same |
| Lifetime.OnlyKeptLeft | src/task/process.c:193-218 | when the process is gone the record is the one from which it was started, plus the blocks that stay taken |
| Lifetime.AddsKept | src/memory/heap/heap.h:9-13 | a table with more allocations is the old table with their chains in free blocks, and nothing else |
| Lifetime.LifeCosts | src/task/process.c:482-552 | what one life of a process costs in free blocks: its own block and a path list of 2 * parts + 1; for a flat binary also the record, a copy of the file and a second path list |
| Lifetime.FreedRoom | src/memory/heap/heap.c:202-216 | freeing a chain leaves no less room |
| Lifetime.RoomLeft | src/memory/heap/heap.c:119-153 | taking the first fit from a table with a longer free run leaves the rest of that run's length free in one run |
| KernelSystem.System.constructor | src/memory/heap/kheap.c:11-24 | a machine with an all-free heap starts a run |
| KernelSystem.System.Malloc | src/task/process.c:60-93 | process_malloc by any process is one step of the run argument; the process may write the memory it gets, and all the requested bytes are 0 |
| KernelSystem.System.Free | src/task/process.c:279-300 | process_free by any process is one step of the run argument |
| KernelSystem.System.NewProcess | src/task/task.c:239-248 | a process starts with no allocations and a directory that is present and user-accessible but not writeable |
| KernelSystem.System.Spawn | src/task/task.c:26-62 | creating a process is one step of the run argument |
| KernelSystem.System.Kzalloc | src/memory/heap/kheap.c:33-43 | kzalloc by the kernel is one step of the run argument, and answers the first fit, which heads no live allocation |
| KernelSystem.System.Kfree | src/memory/heap/kheap.c:45-48 | kfree of a block of the kernel's own is one step of the run argument |
| KernelSystem.LoadStepIff | src/task/process.c:421-451 | after loading the system is isolated, and its invariant holds, exactly when the load is harmless |
| KernelSystem.BinaryHarmless | src/task/process.c:380-389 | loading a flat binary that ends below the heap's addresses is harmless |
| KernelSystem.System.LoadProgram | src/task/process.c:421-451 | process_map_memory on the machine: the system is isolated afterwards, and its invariant holds, exactly when every entry it leaves is allowed |
| KernelSystem.CopyIsStore | src/task/task.c:142-177 | what copy_string_from_task leaves is a store outside the paging structures |
| KernelSystem.System.CopyStringFrom | src/task/task.c:142-177 | copy_string_from_task into a buffer of the kernel delivers the program's string, up to max - 1 bytes and a terminator, and keeps the invariant of the system |
| KernelSystem.System.Store | src/memory/paging/paging.c:174-179 | a store by a program where it may write changes the one byte that its address leads to, and is one step of the run argument |
| KernelSystem.System.Exit | src/task/process.c:193-218 | exit is a path of the run argument that removes exactly that process with everything it held, keeps every other entry of the record, and leaves the others' values |
| KernelSystem.System.TakePath | src/fs/file.c:169-182 | a path list stays taken: one block, and two for each part; the buffer of the empty last part is given back |
| KernelSystem.System.OpenFile | src/fs/file.c:169-231 | opening a file takes a path list and four blocks more |
| KernelSystem.System.CloseFile | src/fs/file.c:290-308 | closing it gives back the four and nothing else |
| KernelSystem.System.LoadRefused | src/loader/formats/elfloader.c:175-212 | elf_load of a file that it refuses leaves its copy of the file and the path list taken |
| KernelSystem.System.LoadImage | src/task/process.c:302-338 | loading a file leaves its path list taken, besides the image |
| KernelSystem.System.LoadFlatData | src/task/process.c:368-378 | process_load_data of a flat binary: the record, the copy and two path lists stay taken |
| KernelSystem.System.LoadElfData | src/task/process.c:368-378 | process_load_data of an ELF file: one path list stays taken |
| KernelSystem.System.Equip | src/task/process.c:495-526 | the allocations that start a process, in order: what is recorded for it, and what stays taken |
| KernelSystem.System.Launch | src/task/process.c:482-552 | starting a process where there is room: all that exit needs is recorded, everything recorded for it is accounted for, and the rest is as before plus the blocks that stay taken |
| KernelSystem.System.LoadFlat | src/task/process.c:380-389 | loading the flat binary of a started process keeps the system's invariant; then every byte of the image leads from 0x400000 on, and of the stack from 0x3FB000 on, where the process may use it |
| KernelSystem.System.ReadFile | src/loader/formats/elfloader.c:194-199 | the bytes of the file reach the image, in one step of the run argument |
| KernelSystem.System.LoadElf | src/task/process.c:391-451 | reading and loading an ELF file whose headers stay inside the image and off the heap keeps the system's invariant; the process may use its stack, and with clean headers every segment is in place with its permissions and reads as the file says |
| KernelSystem.FlatLoaded | src/task/process.c:380-389 | what mapping a flat binary leaves: image and stack where the process may use them, the image unchanged |
| KernelSystem.ElfLoaded | src/task/process.c:391-451 | what mapping an ELF file leaves: the file in place, the stack, and with clean headers all segments |
| KernelSystem.ImageStays | src/task/process.c:421-451 | mapping for a process writes no byte of its image |
| KernelSystem.System.StartFlat | src/task/process.c:482-552 | starting a process with a flat binary: what Launch says, with image and stack in place |
| KernelSystem.System.StartElf | src/task/process.c:482-552 | starting a process with an ELF file: what Launch says, with stack and segments in place |
| KernelSystem.System.Finish | src/task/process.c:193-218 | terminating a process of which everything is accounted for leaves the record and the table from which it was started, and the blocks that stay taken |
| KernelSystem.System.Life | src/task/process.c:482-552 | start, load and terminate a process with a flat binary: the heap table is as before but for the process's own block, the refused record and copy, and two path lists of 2 * parts + 1 blocks, which is exactly how many free blocks are lost |
| KernelSystem.System.LifeOfElf | src/task/process.c:482-552 | the same with an ELF file: the heap table is as before but for the process's own block and one path list, and exactly as many free blocks are lost |
| ElfLoad.FitsAccepted | src/task/process.c:401-411 | a segment whose addresses do not wrap is accepted, and whole pages cover it |
| ElfLoad.PageOwner | src/task/process.c:398-416 | after the loop a page is decided by the one header that covers it |
| ElfLoad.SegLoadedIffCongruent | src/task/process.c:391-419 | with disjoint page ranges a segment's bytes appear at its addresses, present, user-accessible, and writeable exactly when bit 1 of p_flags is set, exactly when p_vaddr and p_offset agree modulo 4096 |
| ElfLoad.OutsideSegments | src/task/process.c:391-419 | pages no header covers keep their entries |
| ElfLoad.StackIsolated | src/task/process.c:443-447 | the 16 KB below 0x3FF000 become the stack, which the process may use, and no segment at or above 0x400000 is disturbed |
| ElfLoad.ProgramLoaded | src/task/process.c:421-451 | after process_map_memory of a well-formed ELF file all segments are loaded with their permissions, and the process may use the stack |
| ElfLoad.BinaryLoaded | src/task/process.c:380-389 | after process_map_memory the bytes of a flat binary appear from 0x400000 on, and the process may use them and the stack |
| ElfLoad.ElfMappedIsApplied | src/task/process.c:391-419 | mapping the headers is the sequence of their calls of paging_map_to |
| ElfLoad.HeadersSame | src/loader/formats/elfloader.c:55-78 | mapping does not disturb the headers that are still to be read |
| ElfLoad.MapHeader | src/task/process.c:400-411 | one header is mapped with the flags that p_flags asks for, or refused without a change when its end wraps below its start |
| ElfLoad.MapElf | src/task/process.c:391-419 | maps the headers in order up to the first that is refused, which decides the status |
| ElfLoad.MapMemory | src/task/process.c:421-451 | ELF or flat binary, then the stack; after a refused header the stack is not mapped |
| ElfLoad.HeadersInImage | src/loader/formats/elfloader.c:55-78 | headers that lie in the process's image are apart from its page tables |
| ElfLoad.SegmentKeepsIff | src/task/process.c:400-411 | after one mapped header the system is isolated, and its invariant holds, exactly when the header's pages are allowed |
| ElfLoad.HeaderOverDirectory | src/task/process.c:400-411 | a writeable header whose file offset reaches the process's directory is accepted, and maps one page to it |
| ElfLoad.ElfReachesDirectory | src/task/process.c:400-411 | with that header mapped the process can write its own page directory |
| ElfLoad.HeadersOfFile | src/loader/formats/elfloader.c:55-78 | the headers that the mapping reads are those of the file's bytes |
| ElfLoad.HeadersReadBack | src/loader/formats/elf.h:62-104 | a file written field by field as the ELF structures say is accepted, and of each program header p_offset, p_vaddr, p_memsz and p_flags are read back |
| ElfLoad.CleanIsWellFormed | src/task/process.c:400-411 | headers inside the image, congruent, above 0x400000 and with no page in common are well-formed wherever the image is |
| ElfLoad.LoadedReads | src/task/process.c:391-419 | at the addresses of a loaded segment the process reads the bytes of the file |
| ElfLoad.HeaderIsInside | src/task/process.c:400-411 | a header whose bytes end inside the image and whose pages are not the heap's is accepted, and its frames are the image's |
| ElfLoad.ElfHarmless | src/task/process.c:391-451 | loading an ELF file with only such headers is harmless, and succeeds |
| ElfLoad.InsideIsHarmless | src/task/process.c:421-451 | calls whose frames stay in the process's image and whose pages avoid the heap are harmless |
| CopyString.Strncpy | src/string/string.c:112-126 | copies at most count - 1 bytes of a string between translated addresses and terminates the copy, and nothing else; only the bytes read and written matter |
| CopyString.ScratchHolds | src/task/task.c:160-163 | the scratch page holds the string, and the second copy stops where the first did |
| CopyString.MapScratch | src/task/task.c:158-159 | mapping the scratch page changes one entry of the task's map |
| CopyString.EntryRestored | src/task/task.c:164 | putting the old entry back restores the task's whole map |
| CopyString.CopyStringFromTask | src/task/task.c:142-177 | the task's map, its tables and the heap table end as they began; the destination gets the string cut to max - 1 bytes; every other byte outside the scratch page is untouched |
| CopyString.DeliveredText | src/task/task.c:142-177 | the bytes at the destination are those that the program reads at its addresses, up to their terminator or max - 1 of them, and a terminator |
| RoundRobin.EveryTaskRuns | src/task/task.c:64-124 | in any interleaving of steps and appends, a task runs once the steps reach its distance plus the appends |
| RoundRobin.ThreeExits | src/task/task.c:64-95 | of four tasks, the exits of the second, the fourth and then the third are not survived; the first two are |
| RoundRobin.FullRound | src/task/task.c:64-124 | n steps run each of n tasks exactly once and return to the start |
| Tasks.Scheduler.TaskNew | src/task/task.c:26-62 | appends the task, keeps the current one, and keeps exact links exact |
| Tasks.Scheduler.GetNext | src/task/task.c:64-72 | the cyclic successor of the current task |
| Tasks.Scheduler.TaskNext | src/task/task.c:107-124 | moves to the cyclic successor |
| Tasks.Scheduler.RunOps | src/task/task.c:26-124 | the tasks that run are those at the positions of the trace |
| Tasks.Scheduler.Unlink | src/task/task.c:74-95 | what removal writes, whatever the links are |
| Tasks.Scheduler.ListRemove | src/task/task.c:74-95 | with a usable prev link the forward list loses exactly that task and current moves to its cyclic successor if removed; with a stale one, in the list or not, the predecessor still leads to it and the task that the link names leads to its successor |
| Tasks.Scheduler.RemoveFromExact | src/task/task.c:74-95 | exact links stay exact exactly when the last task is removed; otherwise one prev link, the successor's, is stale |
| Tasks.Scheduler.RemoveTwoInARow | src/task/task.c:74-95 | removing a task and then its successor leaves the predecessor leading to a removed task |
| Tasks.Scheduler.ExactIsMarked | src/task/task.c:26-62 | in an exact list from which no task has left every prev link is marked exact |
| Tasks.Scheduler.Leave | src/isr80h/process.c:81-88 | an exit with a usable prev link makes only the successor's prev link stale |
| Tasks.Scheduler.RunLife | src/task/task.c:26-124 | any run of steps, new tasks and exits keeps the list exactly when every exiting task is at the head or has an exact prev link and is not the only one; otherwise no task is left or a task that has left is still its predecessor's next |
| Tasks.Scheduler.ExitCurrent | src/isr80h/process.c:81-88 | where the prev link is usable, another task runs exactly when there is one, and it is the successor exactly when there were two; with one task current is null |
| Streamer.DiskStream.Seek | src/disk/streamer.c:46-50 | sets the position |
| Streamer.DiskStream.CopyOut | src/disk/streamer.c:70-73 | copies a piece of one sector into the buffer and nothing else |
| Streamer.DiskStream.Read | src/disk/streamer.c:53-84 | delivers the slice disk[pos..pos+total], advances by total, and reads exactly the sectors from pos/512 to (pos+total)/512; an unknown disk changes nothing |
| Streamer.DiskStream.ReadInTwo | src/disk/streamer.c:53-84 | reading a and then b bytes is reading a + b: same bytes, position and sectors |
| Streamer.TouchedSplit | src/disk/streamer.c:55-66 | the sectors of adjacent reads are those of the joint read |
| Streamer.TouchedIs | src/disk/streamer.c:55-66 | the sectors of a read are those from pos / 512 to (pos + total) / 512 |
| Fat16.DataStartsWhereSpecified | src/fs/fat/fat16.c:211-219 | the first data sector is that of the FAT specification, version 1.03, section "FAT Data Structure" |
| Fat16.ClustersAdjoin | src/fs/fat/fat16.c:354-357 | cluster 2 is the first of the data region and each cluster ends where the next begins |
| Fat16.Volume.ClusterBounds | src/fs/fat/fat16.c:354-357 | the computed sector is where the FAT specification, version 1.03, section "FAT Data Structure", puts the cluster |
| Fat16.FirstClusterIsLow | src/fs/fat/fat16.c:349-352 | with a zero high half the first cluster is the low half |
| Fat16.Volume.GetFatEntry | src/fs/fat/fat16.c:364-390 | answers the status of the read; it reads two bytes at the position of the table times twice the cluster |
| Fat16.Volume.GetClusterForOffset | src/fs/fat/fat16.c:392-436 | the starting cluster for an offset in it, without reading the table; else -EIO |
| Fat16.Volume.ReadInternal | src/fs/fat/fat16.c:438-478 | succeeds exactly for an offset in the first cluster and at most a cluster of bytes, delivering the contiguous bytes from there on, where the specification puts the cluster, and reading no other sectors |
| Fat16.Volume.Read | src/fs/fat/fat16.c:682-704 | succeeds exactly when every element fits a cluster and starts in the first, delivering the contiguous bytes from byte (FirstDataSector + (N - 2) * sectorsPerCluster) * 512 + pos, N the or of the two halves; otherwise fails after delivering those up to the first cluster it cannot follow |
| Fat16.Volume.ReachAll | src/fs/fat/fat16.c:682-704 | a read that succeeds delivers all its bytes |
| CStrings.WordsSkip | programs/stdlib/src/string.c:182-198 | leading delimiters do not change the words |
| CStrings.FirstWord | programs/stdlib/src/string.c:206-221 | the first word ends at its delimiter, and the rest follows it |
| CStrings.SplitOfJoin | programs/stdlib/src/string.c:167-224 | splitting undoes joining |
| CStrings.StringAt | programs/stdlib/src/string.c:140-153 | the string at a position is the one that stands there before a terminator and holds none |
| Tokens.Strncpy | programs/stdlib/src/string.c:140-153 | the destination holds a prefix of the source string: all of it if it has at most count - 1 characters, else count - 1; nothing behind the terminator is written |
| Tokens.Tokenizer.SkipDelimiters | programs/stdlib/src/string.c:181-198 | the first scan stops at the first non-delimiter |
| Tokens.Tokenizer.CutToken | programs/stdlib/src/string.c:206-221 | the second scan ends the token at its first delimiter or at the end of the string |
| Tokens.Tokenizer.Strtok | programs/stdlib/src/string.c:168-224 | one call: where the token starts, what is written, where the cursor ends; an argument is ignored while a string is being scanned |
| Tokens.ScannedWords | programs/stdlib/src/string.c:168-224 | one call takes the first of the remaining words |
| Tokens.Drain | programs/stdlib/src/string.c:168-224 | calling until null yields exactly the words in order and leaves the cursor null |
| Tokens.ParseCommand | programs/stdlib/src/hardikhyperionos.c:27-71 | the list of words of the first 1024 characters, each cut to 511, as far as allocations succeed; words of at most 511 characters of a command of at most 1024 are in their nodes unchanged; the cursor is null afterwards exactly when all allocations succeeded |
| PathParser.PathRoundTrip | src/fs/pparser.c:113-151 | parsing a printed path gives back drive and parts |
| PathParser.AcceptedIff | src/fs/pparser.c:15-26 | accepted are exactly the texts of at most 108 characters that are a digit, a colon, a slash and a rest; the drive is the digit and the parts are those of the rest |
| PathParser.PartsStep | src/fs/pparser.c:49-95 | one component at a time yields the components up to the first empty one |
| PathParser.PartsFit | src/fs/pparser.c:49-74 | every part of an accepted path is nonempty, slash-free and fits 108 bytes with its terminator |
| PathParser.GetPathPart | src/fs/pparser.c:49-74 | one component in a fresh buffer and one block; an empty one gives its block back |
| PathParser.TakePart | src/fs/pparser.c:77-95 | a node and two blocks for one component, or nothing |
| PathParser.ParseRest | src/fs/pparser.c:143-147 | the loop links one node for each remaining part |
| PathParser.Parse | src/fs/pparser.c:113-151 | a list exactly for a text of at most 108 characters that is a digit, a colon, a slash and a rest, else null; it holds the digit and the parts of the rest, and takes exactly 2 * parts + 1 blocks |
| PathParser.ListCosts | src/fs/pparser.c:34-95 | a path list takes a block for its root and two for each part |
| PathParser.Free | src/fs/pparser.c:98-110 | gives back every block of the list |
| PathParser.ParseThenFree | src/fs/pparser.c:98-151 | parse and free restore the heap table, whatever the path |
| Keyboard.FirstInFirstOut | src/keyboard/keyboard.c:64-102 | without backspaces, what was popped and what is left is what was there and what was pushed, in order |
| Keyboard.PushRing | src/keyboard/keyboard.c:77-79 | below capacity a push appends to the queue and keeps zero cells exactly outside it |
| Keyboard.PopRing | src/keyboard/keyboard.c:90-99 | a pop takes the first of a nonempty queue |
| Keyboard.BackspaceRing | src/keyboard/keyboard.c:47-52 | a backspace takes the last of a nonempty queue |
| Keyboard.KeyboardBuffer.Push | src/keyboard/keyboard.c:64-80 | a queue append below capacity; zero is ignored |
| Keyboard.KeyboardBuffer.Pop | src/keyboard/keyboard.c:82-102 | the first of the queue, and 0 exactly when it is empty |
| Keyboard.KeyboardBuffer.Backspace | src/keyboard/keyboard.c:47-52 | drops the last of a nonempty queue |
| Keyboard.KeyboardBuffer.RunOps | src/keyboard/keyboard.c:47-102 | any legal run behaves as the queue |
| Keyboard.KeyboardBuffer.PushWhenFull | src/keyboard/keyboard.c:77-79 | one push onto a full buffer: the next pop answers the newest |
| Keyboard.KeyboardBuffer.BackspaceWhenEmpty | src/keyboard/keyboard.c:47-52 | after a backspace on the empty buffer the next character cannot be popped |
| Itoa.Itoa | programs/stdlib/src/stdlib.c:16-42 | the canonical numeral of every int32, the minimum included, within the 12-byte buffer |
| Itoa.Numeral | programs/stdlib/src/stdlib.c:16-42 | the numeral is canonical and decodes to the number |
| Itoa.CanonicalUnique | programs/stdlib/src/stdlib.c:16-42 | no other canonical numeral has that value |
| Itoa.LengthBound | programs/stdlib/src/stdlib.c:18-33 | ten digits are enough for every int32 |
| Itoa.NegativeSide | programs/stdlib/src/stdlib.c:29-33 | C's truncating remainder and quotient of a negative number are the last digit and the rest, negated |

## Left out

- Port I/O, ATA transfers, interrupts, boot code and assembly: the disk is a byte sequence, and a disk read fails only for an unknown disk, as in `disk_read_block`.
- `kfree(0)` and the sweep of `process_terminate_allocations` over empty slots: they index below the block table; the sweep is modelled over occupied slots.
- Failing `kzalloc` inside `paging_new_4gb`, `pathparser_parse_path_part` and `pathparser_create_root`: their results are not looked at; the model asks for enough free blocks.
- Kernel.Machine.PagingMapRange: asks for page-aligned addresses and less than 2^20 pages, as its one caller guarantees.
- KernelHeap.Heap.Free: asks for a pointer that is not below the pool and less than 2^31 above its start; otherwise the table index is negative.
- KernelHeap.Heap.MarkBlocksFree: asks for a block that is not negative.
- Kernel.Machine.Kfree: asks for the same.
- Kernel.Machine.Kzalloc: asks for a nonzero size, and for a request that fits or finds the last block taken; what the allocator does otherwise is in `Heap.Malloc`, not what `memset` then overwrites.
- Kernel.Machine.PagingNew4gb: asks for 1026 free blocks.
- Processes.Process.Malloc: asks for what `Kernel.Machine.Kzalloc` asks for.
- Processes.Process.Free: asks for a nonzero pointer; 0 names an empty slot and reaches `kfree(0)`.
- KernelSystem.System.Malloc: asks for what `Processes.Process.Malloc` asks for.
- KernelSystem.System.Kzalloc: asks for what `Kernel.Machine.Kzalloc` asks for.
- KernelSystem.System.Free: asks for a nonzero pointer.
- KernelSystem.System.NewProcess: asks for 1026 free blocks.
- KernelSystem.System.Spawn: asks for 1026 free blocks.
- Isolation.RunInv: in a run every request is nonzero and fits or finds the last block taken, `process_free` gets a nonzero pointer, loading leaves allowed entries only, and no store of the kernel hits a paging structure (`Isolation.MappingIsolatesIff` and `Isolation.KernelStoreIff` say what happens otherwise).
- Isolation.Isolation: is about the runs of `Isolation.RunInv`.
- Isolation.KernelStoreIff: is about one word in a table slot; stores by the kernel into a directory or a chunk are not described.
- Isolation.KernelStoresIff: is about two words in table slots of different pages.
- Isolation.LoadKeeps: is about harmless loading; `Isolation.MappingIsolatesIff` is about all.
- KernelSystem.System.CopyStringFrom: asks that the kernel's buffer is no part of a paging structure.
- KernelSystem.System.Launch: asks for one free run as long as all it allocates; the error paths of `process_load_for_slot` are left as they are in the source, to be done.
- KernelSystem.System.OpenFile: is about a file that there is, under a name that one directory entry has; a failing `fopen` keeps more.
- KernelSystem.System.Life: is about a flat binary, whose contents do not matter; in between, `Lifetime.OwnLife` lets the process run.
- KernelSystem.System.LifeOfElf: the file is read after the stack, the task and the directory are allocated, not before; they leave it alone.
- KernelSystem.System.StartElf: the same.
- KernelSystem.System.StartFlat: asks for one free run as long as all it allocates; the contents of the binary do not matter.
- KernelSystem.System.LoadElf: says of the segments of a file whose headers are not clean (`ElfLoad.HeadersClean`) only what `LoadProgram` says.
- KernelSystem.System.LoadProgram: asks that there is a program header table, as `elf_validate_loaded` checks, and that ELF headers are not themselves page tables of the process (`ElfLoad.HeadersInImage` says where they are not), and that a flat binary ends a page below the top of memory.
- Termination.TerminateAllocations: passes over the empty slots, where the source would call `process_free` with pointer 0.
- Termination.Terminate: the same, and a process whose file type is neither of the two, for which the source stops after the sweep.
- KernelSystem.System.Exit: the same.
- CopyString.CopyStringFromTask: asks for a max of at least 1, that the pages of the bytes that are read are present, and that these bytes do not come from the scratch page or the entry that maps it. On a page that is not present the kernel faults in the middle of the copy, and the scratch block stays taken.
- CopyString.Strncpy: asks that the bytes that are read lie outside those that are written.
- PathParser.Parse: asks for enough free blocks for an accepted path.
- PathParser.ParseThenFree: asks for the same.
- Tokens.ParseCommand: starts from a null `strtok` cursor.
- Tasks.Scheduler.ExitCurrent: asks for a usable prev link; `Tasks.Scheduler.LeaveBadly` is the other exit.
- Tasks.Scheduler.RunLife: leaves out a new task that is given the block of one that has left; a stale link to that block then leads into the list again, also from the head.
- Tasks.Scheduler.TaskNew: leaves out the path on which the allocation or `task_init` fails, and a new task that is given the block of a removed one.
- Registers, the kernel's own page directory beyond its identity map, and which process keyboard input goes to.
- Signed overflow of positions, offsets and ring indices beyond 2^31, and of the running offset of `paging_new_4gb`, which wraps here.
- FAT16 directory walking and name expansion, the file descriptor table, the GDT and IDT, the terminal and key decoding: nothing deep depends on them.
- The virtual base and end computed by `elf_process_pheaders`: the mapping does not use them.
