# Memory, processes and loading in the multitasking kernel

A Dafny model of the kernel's memory stack — the block heap, two-level paging, process
memory, the task list, ELF loading — and of the disk and FAT16 readers, the keyboard
ring, the path parser and the number and command-line code of the user library. Check it
with `dafny verify dfyconfig.toml`.

## How it is built

- **Memory.** Physical memory is 2^20 frames of 4096 cells. Page tables are words in heap
  blocks and are found by masking table words (`Paging`), as the kernel finds them; that the
  1024 tables of a directory, and the tables of two processes, are different blocks follows
  from the heap handing out disjoint runs. `PageTables` gives a directory's meaning as a flat
  map of 2^20 words.
- **Heap.** `Heap` works on the tag table in place. `HeapRuns` says which tag tables decode
  to a set of runs, proves that decoding unique, and defines first fit on it.
- **Kernel as a state machine.** `System` has one function per operation on a value: live
  runs, ledgers, page maps, process slots, task ring. `Invariants`, `Preservation` and
  `Isolation` prove what every step and every run keeps, `Scheduling` how long a task waits.
  `Kernel` is the code itself over objects and physical memory; each of its methods is proved
  to move the state exactly as `System` says, with `Backing` relating page tables in memory
  to page maps in the state.
- **Files that are not ELF.** When a file fails ELF validation, `process_load_binary` reads
  it again and stores the pointer to its bytes in a union with the pointer to a `struct
  elf_file` (src/task/process.h:50-55), and the file type stays 0, which is ELF. From then on
  the bytes are read as a `struct elf_file`: the word at byte 112 is taken for `elf_memory`,
  headers are read by way of it, and it is freed when the process ends. The model has this
  outcome, with that word and those headers arbitrary. `LoadedPages` says when such a
  process stays isolated and `Closing` when its end frees only what is its own.
- **Loading.** `LoadPlan` says from the process table, the heap and the file how a load must
  end and what it leaves of the heap, request by request; `Kernel.ProcessLoad` is proved to
  end so, and `SystemCommands` carries that up to the line the user types.
- **Programs.** Between the kernel's operations programs store where their page maps let
  them. `Stores` has runs of both: while each store is into the program's own memory, and in
  an isolated kernel no other is possible, page tables and records in memory stay what the
  state says, and so does the word each process is closed by, which `elf_close` reads from
  memory.
- **Everything else** is one module per source file. A method that changes state is proved
  against a specification function, and the lemmas beside it prove what that function means.

## Repairs

Some lines cannot mean what they say. The model follows the evident intent, and for each
repair states exactly when the line as written is right too.

| line | repair | as written |
|---|---|---|
| src/memory/heap/heap.c:83, 102 | a block that is not free resets the run; a short trailing run is -ENOMEM | `Heap.Heap.GetStartBlockAsWritten` |
| src/memory/heap/heap.c:120, 129 | HAS_NEXT on every block of a run but its last | `Heap.Heap.MarkBlocksTakenAsWritten` |
| src/task/process.c:306 | unmap before the ledger record is cleared | `Isolation.FreeAsWrittenIsolatesIff` |
| src/task/process.c:100, 134 | the null pointer is nobody's allocation | `Isolation.NullReachesKfreeIff`, `Closing.NullClearsInFront` |
| src/task/task.c:76-97 | the successor's prev is updated on removal | `Tasks.TaskList.ListRemoveAsWritten` |
| src/task/task.h:68 | `task_next`, called but defined in no file, switches to what `task_get_next` returns | none |
| src/fs/fat/fat16.c:385 | the entry's offset is added, not multiplied | `Fat16.EntryPositionAsWrittenIff` |
| src/fs/fat/fat16.c:415, 423, 430 | 16-bit markers: end of chain 0xFFF8 up, bad 0xFFF7, reserved 0xFFF0-0xFFF6 | `Fat16.IsLinkAsWrittenIff` |
| src/fs/fat/fat16.c:468 | a piece ends where its cluster does | `Fat16.AsWrittenIff`, `Fat16.Volume.ReadInternalAsWritten` |

Behaviour that is surprising but kept, because the code is otherwise consistent with it:
`p_offset`, a signed number, and `p_memsz` are never compared with the file (`LoadedPages`
and `LoadIsolation` say when that is harmless, after and before the load, and show files for
which it is not); a file that is not ELF chooses what its process may write and what its end
frees (`LoadIsolation.RawWritesAnywhere`, `Closing.ExitFreesOthers`), and a file that is ELF
can get there too (`Stores.NegativeOffsetRun`); a failed load leaves its record, file and
stack runs behind, and terminating a process never frees its record (the state calls such
runs the kernel's); an exit advances the task cursor twice and so skips one task
(`TaskRing.BoundIsReached`); a command line whose allocation fails leaves strtok's cursor
behind for the next one (`Command.StaleCursor`); the 1025th pending key and a backspace
without a key break the keyboard ring (`Keyboard.PushIff`, `Keyboard.BackspaceIff`); an ELF
segment at address 0 is taken for "no segment yet" (`ElfLoader.BaseIsMinimumIff`);
`fat16_read` does not advance the file position.

## Model

| member | source | states |
|---|---|---|
| Heap.BlocksIsCeiling | src/memory/heap/heap.c:59-68 | a size is rounded up to whole blocks, and wraps to zero blocks only in the last page of the word range |
| Heap.Heap.Create | src/memory/heap/heap.c:28-57 | misaligned bounds or a table of the wrong length are rejected; otherwise every block is free |
| Heap.Heap.GetStartBlock | src/memory/heap/heap.c:75-108 | finds the lowest start of enough consecutive free blocks, or -ENOMEM exactly when there is none |
| Heap.Heap.GetStartBlockAsWritten | src/memory/heap/heap.c:75-108 | as written a start it returns is never free, the answer is right exactly when every window is mixed and the last block is free, and it is -ENOMEM exactly when no window is all taken and the last block is free |
| Heap.Heap.MarkBlocksTaken | src/memory/heap/heap.c:115-134 | the run joins the live runs the tags decode to |
| Heap.Heap.MarkBlocksTakenAsWritten | src/memory/heap/heap.c:115-134 | as written the tags are those of a run exactly for one block in the first two positions |
| Heap.Heap.MarkBlocksFree | src/memory/heap/heap.c:155-167 | from any block the tags up to the first without HAS_NEXT are cleared; from a live run's start that is exactly the run, from a free block nothing |
| Heap.Heap.Malloc | src/memory/heap/heap.c:175-180 | complete first fit: succeeds exactly when some free run is long enough, at the lowest such address |
| Heap.Heap.Free | src/memory/heap/heap.c:182-185 | the same for the block of any address that is not in front of the heap; a run's address removes that run and no other |
| Heap.Heap.MallocThenFree | src/memory/heap/heap.c:175-185 | malloc followed by free leaves every tag of the table as it was |
| Heap.Heap.AddressToBlock | src/memory/heap/heap.c:169-173 | undoes the conversion of a block to its address |
| Heap.BlockOfByte | src/memory/heap/heap.c:169-173 | every byte of a block has that block, and in front of the heap blocks count toward zero |
| Heap.FreshHeapRefusesAsWritten | src/memory/heap/heap.c:75-108 | on an empty heap the search as written returns -ENOMEM for every request, though block 0 would do |
| HeapRuns.WellTaggedIffEncoded | src/memory/heap/heap.c:115-167 | tags decode to disjoint runs exactly when IS_FIRST starts and HAS_NEXT links every chain properly |
| HeapRuns.EncodingIsInjective | src/memory/heap/heap.c:115-134 | two sets of runs with the same tags are the same set |
| HeapRuns.EncodeAdd | src/memory/heap/heap.c:115-134 | writing a run's tags over free blocks adds that run and nothing else |
| HeapRuns.EncodeRemove | src/memory/heap/heap.c:155-167 | clearing one run's tags removes that run and nothing else |
| HeapRuns.IsFirstFitMeansFirstFit | src/memory/heap/heap.c:75-108 | first fit read off the tags is first fit over the free blocks |
| Machine.FrameIsMask | src/memory/paging/paging.c:38-49 | masking a table word with 0xfffff000 gives back the table's address |
| PageTables.SetEntryIsFlatUpdate | src/memory/paging/paging.c:155-175 | writing one table word changes one page of the flat map and keeps the directory in place |
| PageTables.MapPagesAt | src/memory/paging/paging.c:106-120 | the n-th page of a range, counted past the last page on to the first, holds the n-th frame plus the flags; all other pages are untouched |
| PageTables.MapToDisplaces | src/memory/paging/paging.c:123-153 | all-or-nothing: an error changes no page; success translates the n-th byte of the range, wrapping at 4 GB or not, to the n-th physical byte |
| PageTables.IdentityTranslates | src/memory/paging/paging.c:9-31 | a fresh directory translates every 32-bit address to itself |
| Paging.Memory.New4gb | src/memory/paging/paging.c:9-31 | 1026 fresh blocks become an installed directory whose flat map is the identity |
| Paging.Memory.Free4gb | src/memory/paging/paging.c:38-49 | the directory, its chunk record and the 1024 tables its words lead to are freed, whatever the heap's tags; on a sound heap exactly these runs go back |
| Paging.Memory.NewThenFree | src/memory/paging/paging.c:9-49 | a new directory given back at once leaves every tag of the heap as it was |
| Paging.Memory.Set | src/memory/paging/paging.c:155-175 | an aligned page of the flat map gets the word, a misaligned one is -EINVARG, and only table blocks change |
| Paging.Memory.GetIsFlat | src/memory/paging/paging.c:190-198 | get returns the flat map's word, and page 0's for a misaligned address |
| Paging.Memory.GetPhysicalAddressTranslates | src/memory/paging/paging.c:177-184 | the physical address is the flat map's translation of any byte |
| Paging.Memory.Map | src/memory/paging/paging.c:95-103 | one page is mapped, or -EINVARG and nothing changes |
| Paging.Memory.MapRange | src/memory/paging/paging.c:106-120 | the flat map moves as the whole range says, never part of it |
| Paging.Memory.MapTo | src/memory/paging/paging.c:123-153 | validation in the source's order, then the whole range; an error leaves memory as it was |
| Paging.Memory.Kzalloc | src/memory/heap/kheap.c:30-39 | a first-fit run with its requested bytes cleared, and no frame outside the run touched |
| Paging.Memory.Kfree | src/memory/heap/kheap.c:41-44 | kfree of any address not in front of the heap, whatever the tags: a run's address removes that run, one in a free block or beyond the heap changes nothing, and the tags are cleared from the block up to the first without HAS_NEXT |
| Freeing.FreesExactlyIff | src/memory/heap/heap.c:155-185 | freeing the starts of some runs and one block more, in any order, leaves the tags of the others exactly when that block lies in none of them |
| System.FindPtr | src/task/process.c:46-59 | the first ledger entry with a pointer, or -1 exactly when there is none |
| System.FreeSlot | src/task/process.c:464-473 | the lowest free process slot, or -EISTKN exactly when all are taken |
| System.AnyProcess | src/task/process.c:172-187 | the lowest occupied process slot, or none exactly when all are free |
| Tasks.Process.FindAllocation | src/task/process.c:46-59 | the ledger scan finds that entry |
| Tasks.Process.AllocationUnjoin | src/task/process.c:109-119 | every entry with the pointer is cleared and no other |
| Invariants.MallocKeeps | src/task/process.c:61-95 | a malloc keeps a process's record, ledger and page map consistent, adds exactly one owned run, fails exactly when the ledger is full, and keeps isolation |
| Invariants.FreeKeeps | src/task/process.c:294-324 | a free of an owned pointer always unmaps and gives back exactly that run, and keeps isolation |
| Preservation.MallocOutcome | src/task/process.c:61-95 | a malloc succeeds exactly if a run fits and the ledger has an empty entry; then the run is mapped to itself with flags 7 and nothing else of any process changes; otherwise the state is as before |
| Preservation.FreeOutcome | src/task/process.c:294-324 | a free of a foreign pointer changes nothing; one of an owned pointer gives exactly that run back and leaves its pages with flags 0 |
| Preservation.StepKeeps | src/task/process.c:61-577 | every operation of the kernel, a load with any outcome included, keeps the accounting of runs, the process table and the task list; it keeps isolation if each page a writable segment of the loaded file decides is one of the file's own, or for a file that is not ELF if the headers read for it make no page writable. An exit is an operation if the word its process is closed by is harmless |
| Preservation.BootOk | src/task/process.c:15-17 | the kernel starts in such a state |
| Preservation.EveryRun | src/task/process.c:61-577 | so does every finite run of the kernel's operations. With files among them that are not isolated, the accounting is that of the machine only for runs in which no process stores outside its own memory: Stores.OwnStoresKeep |
| Stores.StoreKeeps | src/memory/paging/paging.c:177-184 | a store into a process's own image, stack or malloc'd memory leaves every page table, directory and struct elf_file in memory as the state has them, and changes no byte of any record, of the kernel's runs or of another process |
| Stores.IsolatedStores | src/task/process.c:61-462 | in an isolated state every store a page map admits is such a store |
| Stores.OwnStoresKeep | src/task/process.c:61-577 | over every run of operations and stores, of any files, in which no process stores outside its own memory, page tables and struct elf_files in memory stay those of the state |
| Stores.EveryRunWithStores | src/task/process.c:61-577 | that holds, with isolation, whatever the programs store, if every loaded file's writable pages are its own |
| Preservation.TerminateStep | src/task/process.c:199-226 | terminating a process keeps everything for the others |
| Preservation.GoneOwner | src/task/process.c:199-226 | all of a dying process's runs go to the heap, its record to the kernel |
| Preservation.KeyboardAfter | src/task/process.c:172-197 | the keyboard stays where it is unless the dying process had it; then it goes to the lowest slot with a process, and the kernel halts exactly if there is none |
| Preservation.LoadStep | src/task/process.c:502-577 | every outcome of a load, complete, raw or abandoned midway, keeps the accounting |
| Preservation.LoadOutcome | src/task/process.c:475-577 | a load that fails changes nothing but the heap; one that succeeds fills the lowest free slot with a process with an empty ledger and appends its task |
| LoadedPages.InsideIsIsolated | src/task/process.c:405-434 | a file whose writable pages are its own gives the new process no writable page outside its image and stack, wherever it is loaded |
| LoadedPages.EndingIsInside | src/task/process.c:405-434 | for that it is enough that every writable segment ends within the file's blocks |
| Isolation.WritableRun | src/task/process.c:61-95 | every block a process can write lies in its own image, stack or malloc'd runs |
| Isolation.NoSharedWrites | src/task/process.c:61-324 | no block is writable by two processes, and no process can write a page table, a process or task record or kernel memory |
| LoadedPages.LoadIsolatesIff | src/task/process.c:405-462 | for any headers the loader maps, overlapping, wrapping or with a negative p_offset, and any elf_memory: the new process is isolated exactly when each page a writable segment decides lands in its own image or stack |
| LoadIsolation.IsolatedInEveryLayoutIff | src/task/process.c:405-434 | from headers and file size alone, for any headers: isolated wherever the heap puts it exactly when the file can be loaded nowhere or each page a writable segment decides is one of the file's own pages |
| LoadIsolation.OverflowWritesTask | src/task/process.c:405-434 | a one-block file with a six-page segment makes its own task record writable |
| LoadIsolation.NegativeOffsetWritesElf | src/loader/format/elf.h:64 | a segment with p_offset -4096 makes the process's own struct elf_file writable |
| LoadIsolation.OverlaidIsInside | src/task/process.c:405-434 | a six-page writable segment of a one-block file overlaid by a read-only one does no harm, so a check of each header by itself is not necessary |
| LoadIsolation.RawWritesAnywhere | src/task/process.c:381-391 | a file that is not ELF can make any heap block outside its stack writable |
| Isolation.FreeAsWrittenIsolatesIff | src/task/process.c:294-324 | free as written keeps isolation exactly when it frees nothing |
| Isolation.FreeAsWrittenSharesMemory | src/task/process.c:294-324 | after a free as written, the next process given the block and the old one can both write it |
| Isolation.NullReachesKfreeIff | src/task/process.c:98-107 | as written the null pointer is passed on to kfree exactly when the ledger has an empty slot |
| Closing.NullClearsInFront | src/memory/heap/heap.c:155-173 | kfree(0) clears the byte 4096 in front of the table and those behind it up to the first without HAS_NEXT |
| Isolation.OwnMemoryOnly | src/task/process.c:61-324 | whatever a process mallocs and frees, the runs it does not own and the scheduling state stay as they are |
| Isolation.Lifetime | src/task/process.c:132-226 | load, any own mallocs and frees, then terminate: all runs are as before the load, but for the never-freed record |
| Isolation.LifetimeAmongOthers | src/task/process.c:132-226 | with anything else going on: what a load gave a process stays its own, and its end gives that back, except the record, and touches no other run |
| Closing.ExitFreesExactlyIff | src/task/process.c:148-226 | the tags after a process's end are those of the surviving runs, with nothing cleared in front of the table, exactly when the word found in its struct elf_file at that time names no block in front of the table or of a surviving run; the word the load wrote for a validated file never does |
| Closing.ExitFreesOthers | src/task/process.c:148-151 | if that word is the address of somebody else's run, the run's first block is free afterwards |
| Stores.ExitAfterStores | src/loader/format/elfloader.c:223-230 | after any run in which no process stored outside its own memory, a process of a validated file finds the word its load wrote and frees exactly what is its own |
| Stores.StoreFreesOthers | src/loader/format/elfloader.c:223-230 | a process that can write its own struct elf_file can have any other run freed by its end |
| Stores.NegativeOffsetRun | src/loader/format/elf.h:64 | from the start, one load of a validated file and one kernel allocation lead to such a process |
| Backing.BackedAfterMap | src/memory/paging/paging.c:123-153 | remapping one process in physical memory changes no other process's page map |
| Backing.BackedFresh | src/memory/heap/kheap.c:30-39 | clearing a newly allocated run changes no process's page map |
| Kernel.Kernel.UserStore | src/memory/paging/paging.c:177-184 | a store of a program into its own memory, found through its directory, keeps objects, page tables and state consistent |
| Kernel.Kernel.ProcessMalloc | src/task/process.c:61-95 | heap, page tables in memory and ledger move together as System.Malloc says with the first fitting run; only that run and the process's own tables change in memory |
| Kernel.Kernel.ProcessFree | src/task/process.c:294-324 | heap, page tables and ledger move together as System.Free says |
| Kernel.Kernel.TerminateAllocations | src/task/process.c:132-140 | the ledger ends empty with every malloc'd run given back, and nothing else of the process changes |
| Kernel.Kernel.FreeProgramData | src/task/process.c:153-170 | the block of the word found in memory in the struct elf_file, and then the record itself, are freed, whatever the heap's tags |
| Kernel.Kernel.TaskFree | src/task/task.c:99-107 | the page tables and the task record are freed, whatever the heap's tags, and the task leaves the list |
| Kernel.Kernel.Unlink | src/task/process.c:189-197 | the slot is emptied; only a process that had the keyboard hands it on, to the lowest one left, and the kernel panics exactly if none is left |
| Kernel.Kernel.ProcessTerminate | src/task/process.c:199-226 | objects and memory move as System.Terminate says, on the exact condition of Closing.ExitFreesExactlyIff |
| Kernel.Kernel.Clock | src/idt/idt.c:77-83 | a tick switches to the next task of the ring |
| Kernel.Kernel.Exit | src/isr80h/process.c:80-86 | the running process terminates and the cursor moves on twice; a kernel left without a process halts |
| Kernel.Kernel.GetFreeSlot | src/task/process.c:464-473 | the lowest free slot |
| Kernel.Kernel.TaskNew | src/task/task.c:27-63 | a task record and an identity directory in fresh runs, and the task at the tail of the list |
| Kernel.Kernel.ProcessMapElf | src/task/process.c:405-434 | the page tables in memory move as Elf.MapElf says |
| Kernel.Kernel.ProcessMapMemory | src/task/process.c:437-462 | segments, then stack, as Elf.MapMemory says |
| Kernel.Kernel.ElfLoad | src/loader/format/elfloader.c:185-221 | success, -EINFORMAT and -EIO exactly by the kind of file; its two runs where first fit puts them, and what is left behind |
| Kernel.Kernel.LoadBinary | src/task/process.c:327-363 | success exactly if the file opens, a run is granted and the bytes are read, each error by its cause; the raw bytes in a first-fit run of their own |
| Kernel.Kernel.LoadData | src/task/process.c:381-391 | an ELF file or, on -EINFORMAT, raw bytes beside the two leaked runs; success and each error exactly by file and heap |
| Kernel.Kernel.StackAlloc | src/task/process.c:502-577 | success exactly if four blocks are granted, at the first fit |
| Kernel.Kernel.LoadParts | src/task/process.c:502-577 | record, data and stack in this order: success, -ENOMEM and -EIO each exactly by its cause, and the heap left in every case |
| LoadPlan.OneEnd | src/task/process.c:475-577 | from table, heap and file the load has exactly one possible result |
| LoadPlan.FirstProgramLoads | src/kernel.c:207 | on the empty heap an ELF file with room in it is loaded exactly when its segments can be mapped for an image at block 4, and ends with -EINVARG otherwise |
| Kernel.Kernel.ProcessLoad | src/task/process.c:475-577 | succeeds exactly when a slot is free, record, data and stack are granted in this order, the file is read and every segment can be mapped; -EISTKN, -ENOMEM, -EIO and -EINVARG each have their one cause; objects and memory end as System.Load says, with every run where first fit puts it |
| Kernel.Kernel.ProcessSwitch | src/task/process.c:40-44 | the process gets the keyboard and nothing else changes |
| Kernel.Kernel.TaskSwitch | src/task/task.c:110-115 | the process's task becomes the running one and nothing else changes |
| Kernel.Kernel.ProcessLoadSwitch | src/task/process.c:490-499 | a load with the same exact results, and the keyboard for the new process exactly if it succeeds |
| Tasks.TaskList.Append | src/task/task.c:27-63 | the doubly linked list gains the task at its tail, and the cursor is set only if it was empty |
| Tasks.TaskList.GetNext | src/task/task.c:65-73 | the following task, or the head after the tail |
| Tasks.TaskList.ListRemove | src/task/task.c:76-97 | the list loses exactly this task, stays doubly linked, and the cursor moves on if it stood here |
| Tasks.TaskList.ListRemoveAsWritten | src/task/task.c:76-97 | as written the list stays doubly linked exactly when the task had no successor |
| Tasks.TaskList.TaskNext | src/idt/idt.c:77-83 | the cursor moves to the next task of the ring |
| TaskRing.EventsOnTheList | src/idt/idt.c:71-83 | a tick turns the ring by one; an exit drops the running task and turns the rest by one more |
| TaskRing.BoundedWaiting | src/task/task.c:65-97 | with n tasks and k exits every waiting task runs within (n-1) + (n-2) + ... + (n-1-k) scheduling events |
| TaskRing.BoundIsReached | src/isr80h/process.c:80-86 | for every ring, every waiting task and every possible number of exits some events make the task wait exactly that long |
| TaskRing.SkipsSum | src/isr80h/process.c:80-86 | the sum in closed form |
| Scheduling.KernelBoundedWaiting | src/idt/idt.c:71-83 | the same over runs of the kernel, with any mallocs, frees, kernel allocations and focus changes between the ticks and exits |
| TaskRing.TicksVisitAll | src/task/task.c:65-73 | on ticks alone n steps run each task exactly once |
| CopyString.CopyStringFromTask | src/task/task.c:139-174 | the task's page map and the heap are left as found, and the output is the string the task sees, cut to max - 1 bytes and terminated |
| CopyString.StrncpyFromUser | src/task/task.c:139-174 | the copy through the task's directory is what the task's own page map shows |
| CopyString.SeenTranslates | src/memory/paging/paging.c:177-184 | a character the task sees lies where its page map translates the address to |
| Elf.MapElfAt | src/task/process.c:405-434 | the header loop succeeds exactly when no segment's physical end wraps in front of its start, and then each page holds the word of the last segment over it, or is as before |
| Elf.LastDecides | src/task/process.c:405-434 | where segments overlap the last one decides a page |
| Elf.MapMemoryAt | src/task/process.c:437-462 | for any headers: the stack's words on its pages, elsewhere the word of the last segment, and without one the old word |
| Elf.LoadedImage | src/task/process.c:405-462 | for any headers the loader takes: an address on a page some segment decides leads to its own byte of that segment exactly when p_vaddr and the segment's place agree modulo the page size; the low bits of its table word are 7 with PF_W and 5 without; the stack has its own 16 KB with 7 |
| Elf.SegmentCovered | src/task/process.c:405-434 | every byte of such a segment is on one of its pages exactly when it does not fill the address space |
| LoadedPages.PageRights | src/task/process.c:405-462 | every page of a loaded program is present and the user's: low bits 7 on the stack and where a segment with PF_W decides, 5 everywhere else, and undecided pages are identity mapped |
| ElfLoader.ElfFile.ProcessPheaders | src/loader/format/elfloader.c:149-164 | the four address fields end as the fold over all headers |
| ElfLoader.EndIsMaximum | src/loader/format/elfloader.c:130-135 | the virtual end is the greatest p_vaddr + p_filesz, in 32 bits, of a PT_LOAD segment, for all headers |
| ElfLoader.EndIsASegment | src/loader/format/elfloader.c:130-135 | it is attained, and the physical end is elf_memory + p_offset + p_filesz of the last segment attaining it |
| ElfLoader.BaseIsASegment | src/loader/format/elfloader.c:121-128 | the virtual base is a segment's address and the physical base is elf_memory + p_offset of the last segment there |
| ElfLoader.BaseIsMinimumIff | src/loader/format/elfloader.c:121-128 | the virtual base is the least address exactly when no segment lies at 0 or the last one does |
| Arguments.InjectArguments | src/task/process.c:251-292 | succeeds exactly when all its mallocs do; the program then finds, through its own page map, argc strings by way of argv, each the argument's string cut to 511 characters; otherwise argc and argv are unchanged |
| Arguments.CountArguments | src/task/process.c:234-245 | the length of the list |
| Arguments.MallocAllIff | src/task/process.c:251-292 | requests of a block each are all granted exactly when heap and ledger have as many free blocks and empty entries |
| Arguments.ArgumentsGrantedIff | src/task/process.c:251-292 | a new process gets n arguments, up to 1023, exactly when n + 1 blocks are free |
| Arguments.ParsedIsGiven | src/task/process.c:283 | the list the command parser leaves is one the kernel can copy, word i cut to 511 characters |
| SystemCommands.ProcessLoadStart | src/isr80h/process.c:9-35 | a program is loaded exactly as process_load's conditions say, and then gets the keyboard and the processor |
| SystemCommands.InvokeSystemCommand | src/isr80h/process.c:37-68 | no first argument is -EINVARG and changes nothing; a failed load, exactly as process_load's conditions say, ends with its error; a loaded program gets its n arguments and the processor exactly when n + 1 blocks are free (n up to 1023), and then finds exactly the argument strings by way of argc and argv |
| SystemCommands.RunLine | programs/stdlib/src/multitaskos.c:99-110 | a line of n blank-separated words starts a program exactly when a slot is free, the load's requests are granted, its file is read and mapped, and n + 1 blocks are left; its argc and argv are then exactly these words, cut to 511 characters |
| Arguments.LaidAfterMalloc | src/task/process.c:271-286 | a further malloc leaves the strings and pointers already written in place |
| Arguments.LaidIsSeen | src/task/process.c:271-290 | what is laid out in physical memory is what the program sees |
| OwnMemory.BackedOwn | src/task/process.c:283-284 | writing to malloc'd memory of a process disturbs no page map |
| OwnMemory.SeenOwn | src/task/process.c:79 | a process sees its malloc'd memory at its own physical address |
| Disk.SectorBytes | src/disk/streamer.c:48-51 | the bytes inside a sector are that sector's, in its order |
| Disk.DiskStream.Read | src/disk/streamer.c:26-61 | exactly the next total disk bytes, over any number of sectors, and the position advances by total; a request inside sector n leaves disk(n)[o..o + total] in the buffer |
| Disk.DiskStream.ReadTwice | src/disk/streamer.c:26-61 | reading a then b bytes is reading a + b bytes |
| Fat16.EntryPositionAsWrittenIff | src/fs/fat/fat16.c:374-402 | multiplying finds the entry only at position zero |
| Fat16.IsLinkAsWrittenIff | src/fs/fat/fat16.c:405-448 | the 12-bit markers classify a word rightly except five cluster numbers and the sixteen real markers |
| Fat16.EntryOfFat | src/fs/fat/fat16.c:374-402 | with a list of 16-bit words behind the reserved sectors, two bytes each and the low one first, the entry of a cluster is the list's |
| Fat16.Volume.GetFatEntry | src/fs/fat/fat16.c:374-402 | the word read for a cluster is that of any such list |
| FatContents.ClusterByte | src/fs/fat/fat16.c:362-366 | byte t of cluster c from 2 on is byte (c - 2) cluster sizes + t of the data area |
| FatContents.WalkIs | src/fs/fat/fat16.c:405-448 | walking a chain of the list meets its clusters in order and ends behind the last |
| FatContents.ReadsTheFile | src/fs/fat/fat16.c:451-493 | from the list and the data area alone: a request inside the file delivers the file's bytes, and one beyond its last cluster finds the chain ended |
| FatContents.ReadItems | src/fs/fat/fat16.c:715-736 | fat16_read delivers the file's next bytes, or -EIO exactly when they reach beyond its last cluster |
| Fat16.Volume.GetClusterForOffset | src/fs/fat/fat16.c:405-448 | the cluster offset / cluster size links down the chain, or -EIO exactly when the chain ends first |
| Fat16.WalkComposes | src/fs/fat/fat16.c:405-448 | m + n links are m links and then n more |
| Fat16.PieceBytes | src/fs/fat/fat16.c:451-493 | the part of a request inside one cluster is one stretch of the disk |
| Fat16.Volume.ReadInternalFromStream | src/fs/fat/fat16.c:451-493 | the requested bytes of the concatenated clusters, or -EIO exactly when the chain ends before the last of them; nothing outside the buffer range; ends on a cyclic chain too |
| Fat16.Volume.ReadInternalAsWritten | src/fs/fat/fat16.c:451-493 | as written byte i comes from where AsWrittenPosition says, and the read fails exactly when the chain ends before the last cluster it looks up |
| Fat16.AsWrittenIff | src/fs/fat/fat16.c:468 | it ends as the repaired read does, and takes every byte from its place in the file, exactly when it runs off the chain, or the chain holds the request and the offset is cluster-aligned or every cluster run on into follows its predecessor on the disk |
| Fat16.Volume.Read | src/fs/fat/fat16.c:715-736 | all the items together are one stretch of the file from the descriptor's position, or -EIO |
| Strings.Strncpy | programs/stdlib/src/string.c:99-112 | the source string cut to count - 1 characters, one terminator, and no other character changed |
| Strings.Tokenizer.Strtok | programs/stdlib/src/string.c:124-179 | hands out the first word as a string, leaves the cursor on a string of the other words, and is null with a null cursor when none is left; at most one delimiter becomes NUL |
| Strings.WordsAreMaximalRuns | programs/stdlib/src/string.c:124-179 | the words handed out are exactly the maximal delimiter-free runs, in order |
| Strings.JoinThenWordsIff | programs/stdlib/src/string.c:124-179 | joining and splitting gives the words back exactly when none is empty or holds the separator |
| Command.ParseCommand | programs/stdlib/src/multitaskos.c:4-49 | a list of the words cut to 511 characters, as many as memory lasts for; the cursor is null afterwards exactly when it lasted; null for max of 1025 or more |
| Command.StaleCursor | programs/stdlib/src/multitaskos.c:4-49 | what the next call parses when a cursor was left behind |
| Command.SystemRun | programs/stdlib/src/multitaskos.c:99-110 | a line of blank-separated words becomes exactly those words; -1 exactly when the list is empty |
| Readline.TerminalReadline | programs/stdlib/src/multitaskos.c:65-97 | the terminated line the keys edit to, or no return while they do not end it |
| Readline.BackspaceUndoes | programs/stdlib/src/multitaskos.c:83-90 | a character and a backspace cancel exactly while the character does not fill the buffer |
| Readline.FirstBackspaceStays | programs/stdlib/src/multitaskos.c:83-92 | a backspace on an empty line stays in it as a character, until the next one takes it back |
| Readline.PlainKeys | programs/stdlib/src/multitaskos.c:65-97 | keys without editing make the line they spell, cut to max - 1 |
| PathParser.GetPathPart | src/fs/pparser.c:37-61 | the characters up to the next slash, terminated in a 108-byte buffer of their own, or null with nothing allocated |
| PathParser.Parse | src/fs/pparser.c:97-135 | accepts exactly paths of at most 108 characters with a drive prefix; the list is their parts, and exactly its objects are allocated |
| PathParser.PartsAreBeforeEmpty | src/fs/pparser.c:37-61 | the parts are the slash-separated segments before the first empty one |
| PathParser.SplitIsUnjoin | src/fs/pparser.c:37-61 | the segments are slash-free and joining them gives the text back |
| PathParser.SplitOfJoin | src/fs/pparser.c:37-61 | no other slash-free segments do |
| PathParser.PrintThenParseIff | src/fs/pparser.c:97-135 | parsing undoes printing exactly for nonempty slash-free parts that fit |
| PathParser.Free | src/fs/pparser.c:83-95 | the root, every node and every buffer are freed once and nothing else |
| PathParser.ParseThenFree | src/fs/pparser.c:83-135 | parse followed by free leaves the heap as it was, whatever the path |
| Keyboard.Push | src/keyboard/keyboard.c:64-79 | the focused process's ring gets the character at its tail; nothing for 0 or without focus |
| Keyboard.Pop | src/keyboard/keyboard.c:81-100 | the running process's ring gives up the character at its head, or 0 |
| Keyboard.Backspace | src/keyboard/keyboard.c:47-52 | the tail moves back over a cleared slot |
| Keyboard.PushIff | src/keyboard/keyboard.c:64-79 | a push enqueues while fewer than 1024 are pending; on a full ring no queue describes the result |
| Keyboard.PopTakesOldest | src/keyboard/keyboard.c:81-100 | a pop dequeues the oldest character and returns 0 exactly when none is pending |
| Keyboard.BackspaceIff | src/keyboard/keyboard.c:47-52 | a backspace drops the newest character exactly when one is pending; on an empty ring no queue describes the result |
| Keyboard.OneQueue | src/keyboard/keyboard.c:64-100 | a ring describes at most one queue |
| Keyboard.RunsAreQueues | src/keyboard/keyboard.c:42-100 | over every run that never overfills or underruns, across counter wraps, the ring returns what a first-in first-out queue returns |
| Itoa.IntToText | programs/stdlib/src/stdlib.c:4-29 | for every 32-bit number, the most negative included, the terminated string is a canonical numeral with that value |
| Itoa.NumeralIsUnique | programs/stdlib/src/stdlib.c:4-29 | a number has one such numeral |

## Left out

- Port I/O, ATA polling, segment and interrupt descriptor tables, register save and restore, VGA output, printf, the shell and sample programs: hardware effects and user interface.
- Which directory CR3 holds; a task's page map is used through its own chunk. The directory a dying task leaves loaded is not tracked.
- Reading isolation: a fresh directory lets user code read every identity-mapped page, so only writing is isolated.
- The mapping of raw binaries (src/task/process.c:394-403): no process ever has the binary file type, so it is never reached.
- File opening and reading: a load is told what the file holds, whether it passes the four tests of `elf_validate_loaded`, and which opening or reading fails; the descriptor accounting of src/fs/file.c is not part of this model.
- FAT directory lookup, 8.3 names, boot sector parsing and disk errors; the reader takes the geometry and the first cluster as given.
- Kernel.Kernel.ProcessLoad: assumes enough free blocks for the allocations inside `elf_load`, `task_new` and `paging_new_4gb`, whose results the source does not check.
- Kernel.Kernel.TaskNew: the same assumption.
- Kernel.Kernel.ElfLoad: the same assumption for its two allocations.
- Kernel.Kernel.LoadData: the same assumption.
- Kernel.Kernel.ProcessLoadSwitch: the same assumption.
- SystemCommands.ProcessLoadStart: the same assumption; which file the path names is a parameter.
- SystemCommands.InvokeSystemCommand: likewise, and copying the program's name into the path is not modelled.
- SystemCommands.RunLine: likewise.
- Paging.Memory.New4gb: the same assumption for its 1026 blocks.
- Heap.Heap.Free: addresses whose block is in front of the table; what they clear there is in Closing.NullClearsInFront.
- Kernel.Kernel.ProcessTerminate: where the condition of Closing.ExitFreesExactlyIff fails, the tags that remain are given by Freeing.FreeAll and not followed any further.
- Kernel.Kernel.FreeProgramData: a word whose block is in front of the table.
- Stores of programs that reach outside their own memory: after one, only what Stores.StoreFreesOthers says of the next exit.
- CopyString.CopyStringFromTask: the characters read must not be seen through the borrowed page or inside the task's own page tables while these are being changed.
- CopyString.StrncpyFromUser: the same.
- Fat16.Volume.Read: chains name no cluster in front of the disk's first sector; disk positions do not overflow 32 bits.
- Fat16.Volume.ReadInternalFromStream: the same.
- Fat16.Volume.ReadInternalAsWritten: the same.
- Fat16.AsWrittenIff: the same.
- Arguments.InjectArguments: the list's addresses are already physical ones, and its buffers are none of the kernel's arrays; the length of the list is bounded by memory.
- Command.ParseCommand: how many allocations succeed is a parameter, and the program's stack buffer lies in the tokenizer's memory at a given position.
- PathParser.Parse: allocations succeed, and the heap is the set of objects allocated and not yet freed rather than blocks.
- Readline.TerminalReadline: echo to the screen, and waiting for keys.
- Memory cells: a word lies in the cell of its first byte, so punning a word's bytes is not modelled.
