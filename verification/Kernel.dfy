/** src/task/process.c and the task side of src/task/task.c, over the kernel's own
    memory, process table and task list. The ghost field abs is the state of System the
    objects and the physical memory stand for. */
module Kernel {
  import opened Machine
  import opened HeapRuns
  import opened Heap
  import opened Freeing
  import opened PageTables
  import opened Paging
  import TaskRing
  import opened Elf
  import opened ElfLoader
  import opened System
  import opened LoadPlan
  import opened Invariants
  import opened LoadedPages
  import opened Preservation
  import opened Backing
  import opened Tasks
  import opened OwnMemory
  import Stores

  const PROCESS_SIZE := 9364
  const ELF_FILE_SIZE := 132
  const TASK_SIZE := 64

  /** The process record p is what the state knows of slot i. */
  ghost predicate Tied(p: Process?, o: Option<Proc>, i: nat)
    reads p, if p == null then {} else {p.allocations}
  {
    if p == null then o.None?
    else
      && o.Some? && p.id == i
      && p.address == Addr(o.value.record) && p.stack == Addr(o.value.stack)
      && p.elfFile.address == Addr(o.value.elf)
      && p.task != null && p.task.process == p && p.task.address == Addr(o.value.task)
      && p.task.dir == o.value.dir && p.task.pageDirectory == Addr(o.value.dir.chunk)
      && p.allocations[..] == o.value.ledger
  }

  ghost function RingOf(l: seq<Task>): (r: seq<nat>)
    ensures |r| == |l| && forall i :: 0 <= i < |l| ==> r[i] == l[i].process.id
  {
    seq(|l|, i requires 0 <= i < |l| => l[i].process.id)
  }

  /** The process table, entry by entry. */
  ghost predicate TableOk(table: seq<Process?>, procs: seq<Option<Proc>>)
    reads set j | 0 <= j < |table| && table[j] != null :: table[j]
    reads set j | 0 <= j < |table| && table[j] != null :: table[j].allocations
  {
    && |table| == MAX_PROCESSES == |procs|
    && (forall i :: 0 <= i < MAX_PROCESSES ==> Tied(table[i], procs[i], i))
    && (forall i, j :: 0 <= i < j < MAX_PROCESSES && table[i] != null && table[j] != null ==>
          table[i].allocations != table[j].allocations)
  }

  /** The process table apart from slot i, where the record p is or was. */
  ghost predicate OthersOk(table: seq<Process?>, procs: seq<Option<Proc>>, i: nat, p: Process)
    reads set j | 0 <= j < |table| && table[j] != null && j != i :: table[j]
    reads set j | 0 <= j < |table| && table[j] != null && j != i :: table[j].allocations
  {
    && |table| == MAX_PROCESSES == |procs| && i < MAX_PROCESSES
    && (forall j :: 0 <= j < MAX_PROCESSES && j != i ==> Tied(table[j], procs[j], j))
    && (forall j :: 0 <= j < MAX_PROCESSES && j != i && table[j] != null ==> table[j].allocations != p.allocations)
    && (forall j, l :: 0 <= j < l < MAX_PROCESSES && j != i && l != i && table[j] != null && table[l] != null ==>
          table[j].allocations != table[l].allocations)
  }

  lemma OthersFromTable(table: seq<Process?>, procs: seq<Option<Proc>>, p: Process)
    requires TableOk(table, procs) && p.id < |table| && table[p.id] == p
    ensures OthersOk(table, procs, p.id, p)
  {
  }

  lemma TableFromOthers(table: seq<Process?>, procs: seq<Option<Proc>>, procs': seq<Option<Proc>>, p: Process)
    requires OthersOk(table, procs, p.id, p) && |procs'| == |procs| && Tied(p, procs'[p.id], p.id) && table[p.id] == p
    requires forall j :: 0 <= j < |procs| && j != p.id ==> procs'[j] == procs[j]
    ensures TableOk(table, procs')
  {
  }

  lemma TableGone(table: seq<Process?>, procs: seq<Option<Proc>>, p: Process)
    requires OthersOk(table, procs, p.id, p)
    ensures TableOk(table[p.id := null], procs[p.id := None])
  {
  }

  /** Every task of l is the task of a process in the table. */
  ghost predicate TasksInTable(table: seq<Process?>, l: seq<Task>)
    reads set j | 0 <= j < |table| && table[j] != null :: table[j]
  {
    forall t :: t in l ==> t.process.id < |table| && table[t.process.id] == t.process && t.process.task == t
  }

  lemma TasksGone(table: seq<Process?>, l: seq<Task>, l': seq<Task>, p: Process)
    requires TasksInTable(table, l) && p.id < |table| && table[p.id] == p
    requires forall t :: t in l' ==> t in l && t != p.task
    ensures TasksInTable(table[p.id := null], l')
  {
  }

  ghost function IdOf(p: Process?): Option<nat> {
    if p == null then None else Some(p.id)
  }

  ghost function TaskId(t: Task?): Option<nat> {
    if t == null then None else Some(t.process.id)
  }

  // --- What a load may meet, allocate and leave behind ------------------------------------------

  ghost predicate PartsDistinct(p: Parts) {
    && p.record != p.elf && p.record != p.stack && p.elf != p.stack && ImageRun(p.image) !! {p.record, p.elf, p.stack}
    && p.record < HEAP_BLOCKS && p.elf < HEAP_BLOCKS && p.stack < HEAP_BLOCKS && MemoryIs(p.image, p.memory)
  }

  ghost function PartRunsOf(p: Parts, size: Word): Runs {
    ProgramRuns(p.record, p.elf, p.image, size) + map[p.stack := STACK_BLOCKS]
  }

  lemma ProgramAndStack(p: Parts, size: Word)
    ensures PartRunsOf(p, size) == ProgramRuns(p.record, p.elf, p.image, size)[p.stack := STACK_BLOCKS]
  {
  }

  ghost function MemoryOf(file: File, image: Option<nat>): Word {
    if file.Other? then file.memory else if image.Some? && image.value < HEAP_BLOCKS then Addr(image.value) else 0
  }

  /** The runs of the program itself are those of a file of this kind. */
  ghost predicate ProgramFits(file: File, rb: nat, eb: nat, image: Option<nat>) {
    && rb != eb && ImageRun(image) !! {rb, eb} && MemoryIs(image, MemoryOf(file, image))
    && (file.Program? || file.Other?) && (image.Some? <==> file.Program?)
  }

  ghost predicate PartsOf(file: File, parts: Parts) {
    && PartsDistinct(parts) && ProgramFits(file, parts.record, parts.elf, parts.image)
    && parts.memory == MemoryOf(file, parts.image)
  }

  lemma PartsKnown(file: File, parts: Parts)
    requires PartsOf(file, parts)
    ensures PartsDistinct(parts)
  {
  }

  /** The load of img went as far as l says, and System.Load describes the outcome. */
  ghost predicate LoadsAs(k: State, img: Image, l: Loading, k': State, res: int) {
    FreshLoading(k.runs, l, img.size) && LoadInHeap(l) && (k', res) == Load(k, img, l)
  }

  lemma NoRecordLoads(k: State, img: Image)
    requires Inv(k) && FreeSlot(k.procs, 0) >= 0
    ensures LoadsAs(k, img, NoRecord, k, -ENOMEM)
  {
    assert k.runs + map[] == k.runs;
  }

  /** The state beside which a load goes on: that of the beginning, or the one in which
      elf_load has left its two runs behind. */
  ghost function Beside(k: State, spare: Option<(nat, nat)>, size: Word): State {
    if spare.None? then k else Leaked(k, SpareRuns(spare.value.0, spare.value.1, size))
  }

  ghost predicate SpareFits(k: State, spare: Option<(nat, nat)>, size: Word) {
    spare.Some? ==>
      (spare.value.0 != spare.value.1
      && Extends(k.runs, SpareRuns(spare.value.0, spare.value.1, size), HEAP_BLOCKS))
  }

  ghost function Outcome(spare: Option<(nat, nat)>, l: Loading): Loading {
    if spare.None? then l else Raw(spare.value.0, spare.value.1, l)
  }

  lemma Wrapped(k: State, img: Image, spare: Option<(nat, nat)>, l: Loading, k': State, res: int)
    requires SpareFits(k, spare, img.size) && LoadsAs(Beside(k, spare, img.size), img, l, k', res)
    requires FreeSlot(k.procs, 0) >= 0
    ensures LoadsAs(k, img, Outcome(spare, l), k', res)
  {
    if spare.Some? {
      RawLoads(k, img, spare.value.0, spare.value.1, l, k', res);
    }
  }

  lemma RawLoads(k: State, img: Image, elf: nat, image: nat, l: Loading, k': State, res: int)
    requires elf != image && Extends(k.runs, SpareRuns(elf, image, img.size), HEAP_BLOCKS) && FreeSlot(k.procs, 0) >= 0
    requires LoadsAs(Leaked(k, SpareRuns(elf, image, img.size)), img, l, k', res)
    ensures LoadsAs(k, img, Raw(elf, image, l), k', res)
  {
    hide SpareRuns, LoadingRuns, Partition, DistinctParts;
    var part, rest := SpareRuns(elf, image, img.size), LoadingRuns(l, img.size);
    FreshExtends(k.runs + part, l, img.size);
    assert k.runs + (part + rest) == (k.runs + part) + rest;
    RawRuns(elf, image, l, img.size);
  }

  lemma RawRuns(elf: nat, image: nat, l: Loading, size: Word)
    ensures LoadingRuns(Raw(elf, image, l), size) == SpareRuns(elf, image, size) + LoadingRuns(l, size)
  {
  }

  lemma SpareKeys(elf: nat, image: nat, size: Word)
    ensures SpareRuns(elf, image, size).Keys == {elf, image}
  {
  }

  lemma ProgramIsSpare(record: nat, elf: nat, image: nat, size: Word)
    requires record != elf && record != image && elf != image
    ensures ProgramRuns(record, elf, Some(image), size) == map[record := PROCESS_BLOCKS] + SpareRuns(elf, image, size)
  {
  }

  lemma SpareSplits(r: Runs, extra: Runs, rest: Runs, spare: Runs)
    requires Extends(r, extra, HEAP_BLOCKS) && extra == rest + spare && rest.Keys !! spare.Keys
    ensures Extends(r, spare, HEAP_BLOCKS) && Extends(r + spare, rest, HEAP_BLOCKS) && r + extra == (r + spare) + rest
  {
    hide Partition;
    assert extra.Keys == rest.Keys + spare.Keys;
    assert r + extra == (r + spare) + rest;
    WithoutRest(r, rest, spare);
    PartitionSubset(r + extra, HEAP_BLOCKS, rest.Keys);
  }

  lemma WithoutRest(r: Runs, rest: Runs, spare: Runs)
    requires rest.Keys !! spare.Keys && rest.Keys !! r.Keys
    ensures ((r + spare) + rest) - rest.Keys == r + spare
  {
  }

  // --- The kernel ---------------------------------------------------------------------------------

  class Kernel {
    const memory: Memory
    const processes: array<Process?>
    const tasks: TaskList
    var currentProcess: Process?
    var halted: bool
    ghost var abs: State

    ghost predicate ListOk(ring: seq<nat>, current: Option<nat>)
      reads processes, tasks, tasks.list
      reads set j | 0 <= j < processes.Length && processes[j] != null :: processes[j]
    {
      && tasks.Valid() && ring == RingOf(tasks.list) && current == TaskId(tasks.current)
      && TasksInTable(processes[..], tasks.list)
    }

    ghost predicate FocusOk(focus: Option<nat>, stopped: bool)
      reads this`currentProcess, this`halted, processes
    {
      && stopped == halted && focus == IdOf(currentProcess)
      && (currentProcess != null && !halted ==> InTable(currentProcess))
    }

    /** The heap's own arrays are none of the process structures. */
    ghost predicate Apart(a: array<Allocation>) {
      a as object != memory.ram && a as object != memory.heap.entries && a as object != processes
    }

    ghost predicate Separate()
      reads processes
      reads set j | 0 <= j < processes.Length && processes[j] != null :: processes[j]
    {
      && processes as object != memory.ram && processes as object != memory.heap.entries
      && forall j :: 0 <= j < processes.Length && processes[j] != null ==> Apart(processes[j].allocations)
    }

    /** Objects agree with the state, whatever the page tables in memory say. */
    ghost predicate Standing()
      reads this, memory, memory.heap, memory.heap.entries, memory.ram, processes, tasks, tasks.list
      reads set j | 0 <= j < processes.Length && processes[j] != null :: processes[j]
      reads set j | 0 <= j < processes.Length && processes[j] != null :: processes[j].allocations
    {
      && memory.Valid() && Separate()
      && TableOk(processes[..], abs.procs) && ListOk(abs.ring, abs.current) && FocusOk(abs.focus, abs.halted)
      && Inv(abs)
    }

    /** Objects and memory agree with the state, save perhaps for a run in transit. */
    ghost predicate Consistent()
      reads this, memory, memory.heap, memory.heap.entries, memory.ram, processes, tasks, tasks.list
      reads set j | 0 <= j < processes.Length && processes[j] != null :: processes[j]
      reads set j | 0 <= j < processes.Length && processes[j] != null :: processes[j].allocations
    {
      Standing() && Backed(abs, memory.Ram())
    }

    ghost predicate Valid()
      reads this, memory, memory.heap, memory.heap.entries, memory.ram, processes, tasks, tasks.list
      reads set j | 0 <= j < processes.Length && processes[j] != null :: processes[j]
      reads set j | 0 <= j < processes.Length && processes[j] != null :: processes[j].allocations
    {
      Consistent() && memory.heap.runs == abs.runs
    }

    /** A process in the table. */
    ghost predicate InTable(p: Process)
      reads processes
    {
      p.id < processes.Length && processes[p.id] == p
    }

    /** The kernel as kernel_main has it before any process is loaded. */
    constructor (memory: Memory)
      requires memory.Valid() && memory.heap.runs == map[]
      ensures Valid() && fresh(tasks) && fresh(processes) && this.memory == memory && abs == Boot()
    {
      this.memory := memory;
      processes := new Process?[MAX_PROCESSES](_ => null);
      tasks := new TaskList();
      currentProcess := null;
      halted := false;
      abs := Boot();
      new;
      BootOk();
    }

    /** process_malloc: the state moves as System.Malloc says, with the first fitting run. */
    method ProcessMalloc(p: Process, size: Word) returns (ptr: Word)
      requires Valid() && InTable(p) && !halted
      modifies this`abs, memory.heap`runs, memory.heap.entries, memory.ram, p.allocations
      ensures Valid() && Occupied(old(abs), p.id) && |old(abs).procs[p.id].value.pages| == PAGES
      ensures p.task != null && p.task.dir == old(abs).procs[p.id].value.dir
      ensures (abs, ptr) == Malloc(old(abs), p.id, size, FirstFit(old(abs).runs, HEAP_BLOCKS, Blocks(size)))
      ensures ptr != 0 ==> SameExcept(old(memory.Ram()), memory.Ram(), NewBlocks(ptr, size) + TableBlocks(p.task.dir))
    {
      hide Valid, Consistent, Inv, Malloc, FirstFit, Blocks, FindPtr, TableOk, FocusOk, Tied, ProcOk, TableBlocks,
        NewBlocks, SameExcept, Encoded;
      ValidParts(p);
      ghost var k, m, i, fit := abs, memory.Ram(), p.id, FirstFit(abs.runs, HEAP_BLOCKS, Blocks(size));
      MallocFacts(k, i, size, fit);
      ptr := RunFor(size);
      if ptr == 0 {
        return;
      }
      ghost var m1 := memory.Ram();
      NewBlocksIs(fit, size);
      var index := p.FindAllocation(0);
      var res := -ENOMEM;
      if index >= 0 {
        res := MapAllocation(p, ptr, size, index, fit);
        SameExceptTrans(m, m1, memory.Ram(), NewBlocks(ptr, size), TableBlocks(p.task.dir));
      }
      if res < 0 {
        GiveBack(ptr, fit, Blocks(size));
        ptr := 0;
      } else {
        AllRunsKnown();
      }
    }

    lemma ValidParts(p: Process)
      requires Valid() && InTable(p) && !halted
      ensures Inv(abs) && !abs.halted && Occupied(abs, p.id) && |abs.procs[p.id].value.pages| == PAGES
      ensures p.task != null && p.task.dir == abs.procs[p.id].value.dir
      ensures p.allocations[..] == abs.procs[p.id].value.ledger
      ensures memory.Valid() && memory.heap.runs == abs.runs
      ensures processes as object != memory.ram && processes as object != memory.heap.entries && Apart(p.allocations)
    {
      hide TaskList.Valid, Heap.Valid, Inv, Backed, TasksInTable, ProcOk;
      SlotFacts(p);
    }

    lemma MemoryOk()
      requires Valid()
      ensures memory.Valid() && memory.heap.runs == abs.runs && Inv(abs)
    {
    }

    lemma AllRunsKnown()
      requires Consistent() && memory.heap.runs == abs.runs
      ensures Valid()
    {
    }

    /** The kzalloc of process_malloc, before the run is entered in the state. */
    method RunFor(size: Word) returns (ptr: Word)
      requires Valid() && !halted
      modifies memory.heap`runs, memory.heap.entries, memory.ram
      ensures var fit := FirstFit(abs.runs, HEAP_BLOCKS, Blocks(size));
        if fit == -1 then ptr == 0 && Valid()
        else
          && Consistent() && ptr == Addr(fit) && memory.heap.runs == abs.runs[fit := Blocks(size)]
          && SameExcept(old(memory.Ram()), memory.Ram(), RunBlocks(fit, Blocks(size)))
    {
      hide TaskList.Valid, Heap.Valid, Inv, Backed, ListOk, FocusOk, TableOk, FirstFit, Blocks, Tied, Encoded,
        SameExcept;
      ghost var k, m, fit := abs, memory.Ram(), FirstFit(abs.runs, HEAP_BLOCKS, Blocks(size));
      ptr := memory.Kzalloc(size);
      if ptr != 0 {
        FitIs(k, fit, Blocks(size));
        BackedFresh(k, m, memory.Ram(), fit, Blocks(size));
      }
    }

    lemma FitIs(k: State, fit: int, n: nat)
      requires Inv(k) && fit == FirstFit(k.runs, HEAP_BLOCKS, n) && fit != -1
      ensures FitsAt(k.runs, fit, n)
    {
    }

    /** kfree of a run that never reached the state. */
    method GiveBack(ptr: Word, ghost fit: nat, ghost n: nat)
      requires Consistent() && fit !in abs.runs && memory.heap.runs == abs.runs[fit := n] && ptr == Addr(fit)
      modifies memory.heap`runs, memory.heap.entries
      ensures Valid()
    {
      hide TaskList.Valid, Heap.Valid, Inv, Backed, ListOk, FocusOk, TableOk, Tied, Encoded;
      memory.BlockOfRun(fit);
      memory.Kfree(ptr, fit);
    }

    /** The second half of process_malloc: map the new run and record it in the ledger. */
    method MapAllocation(p: Process, ptr: Word, size: Word, index: nat, ghost fit: nat) returns (res: int)
      requires Consistent() && InTable(p) && !halted
      requires ptr == Addr(fit) && fit == FirstFit(abs.runs, HEAP_BLOCKS, Blocks(size))
      requires index == FindPtr(p.allocations[..], 0)
      requires fit !in abs.runs && memory.heap.runs == abs.runs[fit := Blocks(size)]
      modifies this`abs, memory.ram, p.allocations
      ensures Consistent()
      ensures Occupied(old(abs), p.id) && |old(abs).procs[p.id].value.pages| == PAGES
      ensures res < 0 ==> abs == old(abs) && Malloc(abs, p.id, size, fit) == (abs, 0)
      ensures res >= 0 ==> (abs, ptr) == Malloc(old(abs), p.id, size, fit) && memory.heap.runs == abs.runs
      ensures p.task != null && p.task.dir == old(abs).procs[p.id].value.dir
      ensures SameExcept(old(memory.Ram()), memory.Ram(), TableBlocks(p.task.dir))
    {
      hide Standing, Inv, Backed, Installed, FreeAt, FindPtr, Partition, ProcOk, SameExcept, Flat, Blocks,
        TableBlocks, PageTables.MapTo, Tied;
      ghost var k, m, i := abs, memory.Ram(), p.id;
      StandingParts(p);
      MallocFacts(k, i, size, fit);
      BackedSlot(k, m, i);
      res := Remap(p, ptr, AlignAddress(Wrap(ptr + size)), USER_RW);
      if res < 0 {
        return;
      }
      ghost var k' := Malloc(k, i, size, fit).0;
      BackedAfterMap(k, k', m, memory.Ram(), i);
      Record(p, index, Allocation(ptr, size), k');
    }

    lemma StandingParts(p: Process)
      requires Standing() && InTable(p) && !halted
      ensures Inv(abs) && !abs.halted && memory.Valid() && Occupied(abs, p.id) && |abs.procs[p.id].value.pages| == PAGES
      ensures p.task != null && p.task.dir == abs.procs[p.id].value.dir
      ensures p.task.pageDirectory == Addr(p.task.dir.chunk)
      ensures p.allocations[..] == abs.procs[p.id].value.ledger && p.allocations.Length == MAX_ALLOCATIONS
      ensures processes as object != memory.ram && processes as object != memory.heap.entries && Apart(p.allocations)
    {
      hide TaskList.Valid, Heap.Valid, Inv, TasksInTable, ProcOk;
      SlotFacts(p);
    }

    /** paging_map_to of a range to itself in the process's own directory. */
    method Remap(p: Process, a: Word, end: Word, flags: Word) returns (res: int)
      requires Standing() && InTable(p) && !halted && p.task != null && Installed(memory.Ram(), p.task.dir)
      modifies memory.ram
      ensures Standing() && p.task != null
      ensures (Flat(memory.Ram(), p.task.dir), res) == PageTables.MapTo(Flat(old(memory.Ram()), p.task.dir), a, a,
        end, flags)
      ensures res != 0 ==> memory.Ram() == old(memory.Ram())
      ensures Installed(memory.Ram(), p.task.dir)
      ensures SameExcept(old(memory.Ram()), memory.Ram(), TableBlocks(p.task.dir))
    {
      hide TaskList.Valid, Heap.Valid, Inv, Installed, ListOk, FocusOk, TableOk, PageTables.MapTo, Flat, SameExcept,
        TableBlocks, Encoded;
      StandingParts(p);
      res := memory.MapTo(p.task.pageDirectory, a, a, end, flags, p.task.dir);
    }

    /** The state differs from k in the ledger and page map of process i and in the runs. */
    ghost predicate Ledgered(k: State, k': State, i: nat, l: seq<Allocation>) {
      && Occupied(k, i) && Occupied(k', i) && SameElsewhere(k, k', i) && k' == k.(runs := k'.runs, procs := k'.procs)
      && k'.procs[i].value == k.procs[i].value.(ledger := l, pages := k'.procs[i].value.pages)
    }

    /** process->allocations[index] = a, which completes the step to k'. */
    method Record(p: Process, index: nat, a: Allocation, ghost k': State)
      requires Standing() && InTable(p) && !halted && index < p.allocations.Length
      requires Ledgered(abs, k', p.id, p.allocations[..][index := a]) && Inv(k') && Backed(k', memory.Ram())
      modifies this`abs, p.allocations
      ensures Consistent() && abs == k'
    {
      hide TaskList.Valid, Heap.Valid, Inv, Backed, ListOk, FocusOk, TableOk, OthersOk, Encoded;
      ghost var k := abs;
      SlotFacts(p);
      OthersFromTable(processes[..], k.procs, p);
      p.allocations[index] := a;
      abs := k';
      TableFromOthers(processes[..], k.procs, k'.procs, p);
    }

    /** process_allocation_unjoin, which completes the step to k'. */
    method Unrecord(p: Process, ptr: Word, ghost k': State)
      requires Standing() && InTable(p) && !halted
      requires Ledgered(abs, k', p.id, Unjoin(p.allocations[..], ptr)) && Inv(k') && Backed(k', memory.Ram())
      modifies this`abs, p.allocations
      ensures Consistent() && abs == k'
    {
      hide TaskList.Valid, Heap.Valid, Inv, Backed, ListOk, FocusOk, TableOk, OthersOk, Encoded;
      ghost var k := abs;
      SlotFacts(p);
      OthersFromTable(processes[..], k.procs, p);
      p.AllocationUnjoin(ptr);
      abs := k';
      TableFromOthers(processes[..], k.procs, k'.procs, p);
    }

    /** The blocks of a malloc'd run at ptr. */
    ghost function NewBlocks(ptr: Word, size: Word): set<nat> {
      RunBlocks(BlockAt(ptr), Blocks(size))
    }

    lemma NewBlocksIs(fit: nat, size: Word)
      requires fit < HEAP_BLOCKS
      ensures NewBlocks(Addr(fit), size) == RunBlocks(fit, Blocks(size))
    {
    }

    lemma SlotFacts(p: Process)
      requires TableOk(processes[..], abs.procs) && InTable(p) && FocusOk(abs.focus, abs.halted) && Inv(abs)
      ensures Occupied(abs, p.id) && Tied(p, abs.procs[p.id], p.id) && abs.halted == halted
      ensures ProcOk(abs.runs, abs.procs[p.id].value) && |abs.procs[p.id].value.pages| == PAGES
      ensures |abs.procs[p.id].value.ledger| == MAX_ALLOCATIONS
    {
    }

    lemma BackedSlot(k: State, m: Mem, i: nat)
      requires Backed(k, m) && Occupied(k, i)
      ensures BackedProc(k.procs[i].value, m) && Installed(m, k.procs[i].value.dir)
      ensures k.procs[i].value.pages == Flat(m, k.procs[i].value.dir)
    {
    }

    /** What a malloc does to the state, by outcome. */
    lemma MallocFacts(k: State, i: nat, size: Word, fit: int)
      requires Inv(k) && !k.halted && Occupied(k, i) && fit == FirstFit(k.runs, HEAP_BLOCKS, Blocks(size))
      ensures |k.procs[i].value.pages| == PAGES
      ensures var (k', ptr) := Malloc(k, i, size, fit);
        && Inv(k') && (ptr == 0 ==> k' == k)
        && (fit == -1 || FindPtr(k.procs[i].value.ledger, 0) < 0 ==> ptr == 0)
        && (fit != -1 ==> FitsAt(k.runs, fit, Blocks(size)) && fit !in k.runs)
    {
      hide ProcOk, LedgerMapped, Accounted, RingOk, Blocks, FirstFit, FreeAt, Partition, PageTables.MapTo, FindPtr;
      PageMapSize(k, i);
      if fit != -1 {
        FitIs(k, fit, Blocks(size));
        PartitionAdd(k.runs, HEAP_BLOCKS, fit, Blocks(size));
      }
      MallocStep(k, i, size, fit);
    }

    /** One store into run (b, n), which process i got from malloc. */
    method StoreOwn(a: Word, val: Word, ghost i: nat, ghost b: nat, ghost n: nat)
      requires Valid() && OwnRun(abs, i, b, n) && InRun(a, b, n)
      modifies memory.ram
      ensures Valid() && SameExcept(old(memory.Ram()), memory.Ram(), RunBlocks(b, n))
      ensures memory.Ram() == Stored(old(memory.Ram()), a, val)
    {
      hide TaskList.Valid, Heap.Valid, Inv, Backed, ListOk, FocusOk, TableOk, OwnRun, Encoded;
      ghost var m := memory.Ram();
      BlockInRun(a, b, n);
      memory.Store(a, val);
      BackedOwn(abs, m, memory.Ram(), i, b, n);
    }

    /** A store by the program of process p, into memory of its own; the processor finds the
        frame through the program's directory. In an isolated kernel every store the directory
        admits is one (Stores.IsolatedStores). */
    method UserStore(p: Process, va: Word, val: Word)
      requires Valid() && InTable(p) && !halted && Occupied(abs, p.id) && |abs.procs[p.id].value.pages| == PAGES
      requires Stores.OwnStore(abs, p.id, va)
      modifies memory.ram
      ensures Valid() && memory.Ram() == Stores.AfterStore(old(memory.Ram()), abs.procs[p.id].value, va, val)
    {
      hide TaskList.Valid, Heap.Valid, Inv, Backed, ListOk, FocusOk, TableOk, Stores.OwnStore, Encoded, Installed,
        Flat, Tied, Translate;
      ghost var m, k, q := memory.Ram(), abs, abs.procs[p.id].value;
      StandingParts(p);
      BackedSlot(k, m, p.id);
      DirectoryAt(m, q.dir);
      var directory := memory.Load(p.task.pageDirectory);
      memory.GetPhysicalAddressTranslates(q.dir, va);
      var a := memory.GetPhysicalAddress(directory, va);
      memory.Store(a, val);
      Stores.StoreKeeps(k, m, p.id, va, val);
    }

    lemma DirectoryAt(m: Mem, d: Dir)
      requires Installed(m, d)
      ensures DistinctDir(d) && Cell(m, Addr(d.chunk)) == Addr(d.dir) && Addr(d.dir) + PAGE_SIZE <= WORD
    {
    }

    /** process_free, with the null pointer a no-op and the unmapping done while the ledger
        record still holds the pointer and size. */
    method ProcessFree(p: Process, ptr: Word)
      requires Valid() && InTable(p) && !halted
      modifies this`abs, memory.heap`runs, memory.heap.entries, memory.ram, p.allocations
      ensures Valid() && Occupied(old(abs), p.id) && |old(abs).procs[p.id].value.pages| == PAGES
      ensures abs == Free(old(abs), p.id, ptr)
    {
      hide TaskList.Valid, Heap.Valid, Inv, Backed, BackedProc, ListOk, FocusOk, TableOk, Free, ProcOk, InLedger,
        FindPtr, Encoded, Cleared;
      ghost var k, i := abs, p.id;
      SlotFacts(p);
      FreeFacts(k, i, ptr);
      if ptr == 0 {
        return;
      }
      var index := p.FindAllocation(ptr);
      if index < 0 {
        return;
      }
      var res := UnmapAllocation(p, ptr, index);
      if res < 0 {
        return;
      }
      memory.BlockOfRun(BlockAt(ptr));
      memory.Kfree(ptr, BlockAt(ptr));
    }

    /** The second half of process_free, up to the kfree: unmap the run, clear its ledger
        records. */
    method UnmapAllocation(p: Process, ptr: Word, index: nat) returns (res: int)
      requires Valid() && InTable(p) && !halted && ptr != 0 && index == FindPtr(p.allocations[..], ptr)
      modifies this`abs, memory.ram, p.allocations
      ensures Consistent() && Occupied(old(abs), p.id) && |old(abs).procs[p.id].value.pages| == PAGES
      ensures abs == Free(old(abs), p.id, ptr)
      ensures res < 0 ==> abs == old(abs)
      ensures res >= 0 ==> abs.runs == old(abs).runs - {BlockAt(ptr)}
    {
      hide Standing, Inv, Backed, Installed, FindPtr, ProcOk, SameExcept, Flat, TableBlocks, PageTables.MapTo,
        InLedger, Tied, BlockAt;
      ghost var k, m, i := abs, memory.Ram(), p.id;
      StandingParts(p);
      FreeFacts(k, i, ptr);
      BackedSlot(k, m, i);
      var a := p.allocations[index];
      res := Remap(p, a.ptr, AlignAddress(Wrap(a.ptr + a.size)), 0);
      if res < 0 {
        return;
      }
      ghost var k' := Free(k, i, ptr);
      BackedAfterMap(k, k', m, memory.Ram(), i);
      Unrecord(p, ptr, k');
    }

    /** The task of a process in the table is on the list. */
    lemma TaskListed(p: Process)
      requires ListOk(abs.ring, abs.current) && Inv(abs) && InTable(p) && Occupied(abs, p.id)
      ensures p.id in abs.ring && abs.current.Some? && tasks.current != null && tasks.current in tasks.list
      ensures p.task != null && p.task in tasks.list && p.task.process == p
      ensures TaskRing.Distinct(RingOf(tasks.list)) && TaskRing.Distinct(tasks.list) && abs.ring == RingOf(tasks.list)
      ensures abs.current == Some(tasks.current.process.id)
    {
      hide ProcsOk, Accounted;
      var j :| 0 <= j < |tasks.list| && tasks.list[j].process.id == p.id;
      assert tasks.list[j] in tasks.list;
    }

    /** With the ledger empty, freeing the parts leaves the tags of the runs that survive. */
    lemma PartsFacts(k: State, i: nat, s: seq<Tag>)
      requires Inv(k) && !k.halted && Occupied(k, i) && LedgerBlocks(k.procs[i].value.ledger) == {}
      requires ExitHarmless(k, i) && Encoded(s, k.runs) && |s| == HEAP_BLOCKS
      ensures i in k.ring && k.current.Some?
      ensures var q := k.procs[i].value;
        && q.elf < HEAP_BLOCKS && q.stack < HEAP_BLOCKS && q.task < HEAP_BLOCKS && FreedBlock(q.memory) >= 0
        && Encoded(FreeAll(s, PartCalls(q, q.memory)), Terminate(k, i).runs)
    {
      hide LedgerBlocks, Accounted, LedgerMapped, LedgerOk, Encoded, FreeAll, FreedBlock, DistinctDir, DirBlocks;
      var q := k.procs[i].value;
      assert PartsLive(k.runs, q) && DistinctParts(q.record, q.elf, q.image, q.stack, q.task, q.dir);
      var gone := Owned(q) - {q.record};
      PartCallsAre(q, gone);
      FreesExactlyIff(s, k.runs, gone, FreedBlock(q.memory), PartCalls(q, q.memory));
    }

    lemma PartCallsAre(q: Proc, gone: set<nat>)
      requires FreedBlock(q.memory) >= 0 && LedgerBlocks(q.ledger) == {} && gone == Owned(q) - {q.record}
      requires DistinctParts(q.record, q.elf, q.image, q.stack, q.task, q.dir) && MemoryIs(q.image, q.memory)
      ensures forall b: nat :: b in PartCalls(q, q.memory) <==> b in gone || b == FreedBlock(q.memory)
    {
      hide LedgerBlocks, DistinctDir, DirBlocks;
      PagingBlocksAre(q.dir);
      if q.image.Some? {
        ImageBlock(q);
      }
    }

    lemma ImageBlock(q: Proc)
      requires q.image.Some? && MemoryIs(q.image, q.memory)
      ensures FreedBlock(q.memory) == q.image.value
    {
    }

    /** What a free does to the state, by outcome. */
    lemma FreeFacts(k: State, i: nat, ptr: Word)
      requires Inv(k) && !k.halted && Occupied(k, i)
      ensures |k.procs[i].value.pages| == PAGES && Inv(Free(k, i, ptr))
      ensures var l := k.procs[i].value.ledger;
        && (InLedger(l, ptr) <==> ptr != 0 && FindPtr(l, ptr) >= 0)
        && (InLedger(l, ptr) ==> BlockAt(ptr) in k.runs && ptr == Addr(BlockAt(ptr)))
        && (!InLedger(l, ptr) ==> Free(k, i, ptr) == k)
    {
      hide ProcOk, LedgerMapped, Isolated, Accounted, RingOk, FreeProc, Partition;
      PageMapSize(k, i);
      FreeStep(k, i, ptr);
      var p := k.procs[i].value;
      NotFreed(p, ptr);
      if InLedger(p.ledger, ptr) {
        FreeKeeps(k.runs, p, ptr);
      }
    }

    // --- Termination -------------------------------------------------------------------------

    /** process_terminate: the state moves as System.Terminate says, if the word the load left
        in the struct elf_file is harmless; for a file that passed validation it always is. */
    method ProcessTerminate(p: Process)
      requires Valid() && InTable(p) && !halted && ExitHarmless(abs, p.id)
      modifies this, memory.heap`runs, memory.heap.entries, memory.ram, p.allocations, processes, tasks, tasks.list
      ensures Occupied(old(abs), p.id) && p.id in old(abs).ring && old(abs).current.Some?
      ensures Valid() && abs == Terminate(old(abs), p.id)
    {
      hide TaskList.Valid, Heap.Valid, Inv, Backed, ListOk, FocusOk, TableOk, Terminate, Encoded, Owned,
        LedgerBlocks, Separate, CloseHarmless;
      ghost var k0 := abs;
      SlotFacts(p);
      TerminateAllocations(p);
      TerminateSame(k0, abs, p.id);
      FinishTermination(p);
    }

    /** process_terminate after its allocations are gone. */
    method FinishTermination(p: Process)
      requires Valid() && InTable(p) && !halted && Occupied(abs, p.id) && ExitHarmless(abs, p.id)
      requires LedgerBlocks(abs.procs[p.id].value.ledger) == {}
      modifies this, memory.heap`runs, memory.heap.entries, processes, tasks, tasks.list
      ensures p.id in old(abs).ring && old(abs).current.Some?
      ensures Valid() && abs == Terminate(old(abs), p.id)
    {
      hide TaskList.Valid, Heap.Valid, Inv, Backed, TableOk, TasksInTable, FocusOk, Terminate, LedgerBlocks, RingOf,
        TaskId, ProcOk, Tied, CloseHarmless;
      SlotFacts(p);
      ReleaseParts(p);
      LeaveTable(p);
    }

    /** process_terminate from process_unlink on. */
    method LeaveTable(p: Process)
      requires memory.Valid() && Separate() && TableOk(processes[..], abs.procs) && FocusOk(abs.focus, abs.halted)
      requires Backed(abs, memory.Ram()) && Inv(abs) && InTable(p) && !halted && Occupied(abs, p.id)
      requires p.id in abs.ring && abs.current.Some? && memory.heap.runs == Terminate(abs, p.id).runs
      requires tasks.Valid() && RingOf(tasks.list) == Terminate(abs, p.id).ring
      requires TaskId(tasks.current) == Terminate(abs, p.id).current
      requires TasksInTable(processes[..][p.id := null], tasks.list)
      modifies this, processes
      ensures Valid() && abs == Terminate(old(abs), p.id)
    {
      hide TaskList.Valid, Heap.Valid, Inv, Backed, TableOk, Terminate, OthersOk, TasksInTable, FocusOk, FocusAfter,
        HaltedAfter, RingOf, TaskId, Tied, ProcOk;
      ghost var k, i, table := abs, p.id, processes[..];
      SlotFacts(p);
      OthersFromTable(table, k.procs, p);
      TableGone(table, k.procs, p);
      TerminateStep(k, i);
      TerminateIs(k, i);
      BackedFewer(k, i, memory.Ram());
      Unlink(p, k);
      abs := Terminate(k, i);
    }

    /** process_terminate up to process_unlink: heap and task list are as they will be. */
    method ReleaseParts(p: Process)
      requires Valid() && InTable(p) && !halted && Occupied(abs, p.id) && ExitHarmless(abs, p.id)
      requires LedgerBlocks(abs.procs[p.id].value.ledger) == {}
      modifies memory.heap`runs, memory.heap.entries, tasks, tasks.list
      ensures memory.Valid() && Separate() && p.id in abs.ring && abs.current.Some?
      ensures memory.heap.runs == Terminate(abs, p.id).runs
      ensures tasks.Valid() && RingOf(tasks.list) == Terminate(abs, p.id).ring
      ensures TaskId(tasks.current) == Terminate(abs, p.id).current
      ensures TasksInTable(processes[..][p.id := null], tasks.list)
    {
      hide TaskList.Valid, Inv, Backed, TableOk, Encoded, LedgerBlocks, TasksInTable, Installed, FocusOk, DirBlocks;
      hide TaskRing.Remove, TaskRing.CurrentAfter, TaskRing.IndexOf, TaskRing.Distinct, RingOf, ProcOk, AnyProcess,
        Flat, Terminate, PartCalls, CloseHarmless;
      ghost var k, i, table, l, s := abs, p.id, processes[..], tasks.list, memory.heap.entries[..];
      SlotFacts(p);
      TaskListed(p);
      BackedSlot(k, memory.Ram(), i);
      PartsFacts(k, i, s);
      RingRemove(l, p.task, tasks.current);
      FreeParts(p, k.procs[i].value);
      memory.heap.Settle(Terminate(k, i).runs);
      TerminateIs(k, i);
      TasksGone(table, l, tasks.list, p);
    }

    /** The blocks process_terminate frees after the allocations, in its order, word being
        what elf_close takes for the file's address. */
    ghost function PartCalls(q: Proc, word: Word): seq<nat>
      requires FreedBlock(word) >= 0
    {
      [FreedBlock(word), q.elf, q.stack] + PagingBlocks(q.dir) + [q.task]
    }

    lemma PartCallsJoin(q: Proc, word: Word)
      requires FreedBlock(word) >= 0
      ensures ([FreedBlock(word), q.elf] + [q.stack]) + (PagingBlocks(q.dir) + [q.task]) == PartCalls(q, word)
    {
    }

    /** The middle of process_terminate: program, stack and task are freed, whatever the
        heap's tags and whatever address stands in the struct elf_file. */
    method FreeParts(p: Process, ghost q: Proc)
      requires memory.Sized() && Tied(p, Some(q), p.id) && Installed(memory.Ram(), q.dir)
      requires q.elf < HEAP_BLOCKS && q.stack < HEAP_BLOCKS && q.task < HEAP_BLOCKS
      requires FreedBlock(memory.Load(Addr(q.elf) + ELF_MEMORY)) >= 0
      requires tasks.Valid() && p.task in tasks.list
      modifies memory.heap`runs, memory.heap.entries, tasks, tasks.list
      ensures memory.heap.entries[..] ==
        FreeAll(old(memory.heap.entries[..]), PartCalls(q, memory.Load(Addr(q.elf) + ELF_MEMORY)))
      ensures tasks.Valid() && tasks.list == TaskRing.Remove<Task>(old(tasks.list), p.task)
      ensures old(tasks.current) != null
      ensures Cursor(tasks.current) == TaskRing.CurrentAfter<Task>(old(tasks.list), old(tasks.current), p.task)
      ensures forall t :: t in tasks.list ==> t in old(tasks.list) && t != p.task
    {
      hide Encoded, DirBlocks, Installed, Heap.Valid, FreeAll, Cleared, FreedBlock, TaskRing.CurrentAfter, PartCalls,
        PagingBlocks;
      TaskRing.RemoveElements(tasks.list, p.task);
      ghost var s, first := memory.heap.entries[..], [FreedBlock(memory.Load(Addr(q.elf) + ELF_MEMORY)), q.elf];
      FreeProgramData(p, q.elf);
      FreeAllMore(s, first, q.stack);
      memory.BlockOfAddr(q.stack);
      memory.Kfree(p.stack, q.stack);
      TaskFree(p.task, q.task);
      FreeAllJoin(s, first + [q.stack], PagingBlocks(q.dir) + [q.task]);
      PartCallsJoin(q, memory.Load(Addr(q.elf) + ELF_MEMORY));
    }

    /** process_terminate_allocations: the process keeps its parts and loses its ledger. */
    method TerminateAllocations(p: Process)
      requires Valid() && InTable(p) && !halted
      modifies this`abs, memory.heap`runs, memory.heap.entries, memory.ram, p.allocations
      ensures Valid() && InTable(p) && Occupied(abs, p.id)
      ensures Clearing(old(abs), abs, p.id) && LedgerBlocks(abs.procs[p.id].value.ledger) == {}
    {
      hide TaskList.Valid, Heap.Valid, Inv, Backed, ListOk, FocusOk, TableOk, Free, ProcOk, InLedger, FindPtr,
        Encoded, Clearing;
      ghost var k0, i := abs, p.id;
      SlotFacts(p);
      ClearingStarts(k0, i);
      for n := 0 to MAX_ALLOCATIONS
        invariant Valid() && InTable(p) && !halted && Clearing(k0, abs, i) && Occupied(abs, i)
        invariant LedgerFrom(abs.procs[i].value.ledger, n)
      {
        SlotFacts(p);
        ghost var k := abs;
        ClearingStep(k0, k, i, p.allocations[n].ptr, n);
        ProcessFree(p, p.allocations[n].ptr);
      }
      NothingLeft(abs.procs[i].value.ledger);
    }

    /** process_free_elf_data: elf_close frees what the word elf_memory points to, as it finds
        it in memory, and then the record. For raw bytes these are an address found in them
        and the bytes themselves. */
    method FreeProgramData(p: Process, ghost elf: nat)
      requires memory.Sized() && elf < HEAP_BLOCKS && p.elfFile.address == Addr(elf)
      requires FreedBlock(memory.Load(Addr(elf) + ELF_MEMORY)) >= 0
      modifies memory.heap`runs, memory.heap.entries
      ensures memory.heap.entries[..] ==
        FreeAll(old(memory.heap.entries[..]), [FreedBlock(memory.Load(Addr(elf) + ELF_MEMORY)), elf])
    {
      hide Encoded, Heap.Valid, FreedBlock, Cleared;
      var word := memory.Load(p.elfFile.address + ELF_MEMORY);
      memory.BlockOfAddr(elf);
      ghost var s, b: nat := memory.heap.entries[..], FreedBlock(word);
      TwoFreed(s, b, elf);
      FreedBlockIs(word);
      memory.Kfree(word, b);
      memory.Kfree(p.elfFile.address, elf);
    }

    lemma TwoFreed(s: seq<Tag>, a: nat, b: nat)
      ensures FreeAll(s, [a, b]) == Cleared(Cleared(s, a), b)
    {
      hide Cleared;
      FreeAllMore(s, [a], b);
      FreeAllMore(s, [], a);
      assert [a] + [b] == [a, b] && [] + [a] == [a];
      NoneFreed(s);
    }

    lemma FreedBlockIs(word: Word)
      ensures FreedBlock(word) == BlockOf(HEAP_ADDRESS, word)
    {
    }

    /** task_free: page tables, then the list, then the task record, whatever the heap's
        tags. */
    method TaskFree(task: Task, ghost b: nat)
      requires memory.Sized() && Installed(memory.Ram(), task.dir) && task.pageDirectory == Addr(task.dir.chunk)
      requires b < HEAP_BLOCKS && task.address == Addr(b)
      requires tasks.Valid() && task in tasks.list
      modifies memory.heap`runs, memory.heap.entries, tasks, tasks.list
      ensures memory.heap.entries[..] == FreeAll(old(memory.heap.entries[..]), PagingBlocks(task.dir) + [b])
      ensures var (all, r) := (DirBlocks(task.dir) + {b}, old(memory.heap.runs));
        old(memory.Valid()) && b !in DirBlocks(task.dir) && all <= r.Keys ==>
          memory.Valid() && memory.heap.runs == r - all
      ensures tasks.Valid() && tasks.list == TaskRing.Remove<Task>(old(tasks.list), task)
      ensures old(tasks.current) != null
      ensures Cursor(tasks.current) == TaskRing.CurrentAfter<Task>(old(tasks.list), old(tasks.current), task)
    {
      hide Encoded, Installed, DirBlocks, TaskRing.CurrentAfter, TaskRing.Remove, Heap.Valid, FreeAll, Cleared;
      ghost var s, r := memory.heap.entries[..], memory.heap.runs;
      memory.Free4gb(task.pageDirectory, task.dir);
      tasks.ListRemove(task);
      FreeAllMore(s, PagingBlocks(task.dir), b);
      memory.BlockOfAddr(b);
      memory.Kfree(task.address, b);
    }

    /** q is the process in the lowest slot that has one. */
    ghost predicate IsLowest(q: Process)
      reads processes
    {
      exists j :: 0 <= j < processes.Length && processes[j] == q && NoneBelow(j)
    }

    ghost predicate NoneBelow(j: int)
      requires j <= processes.Length
      reads processes
    {
      forall l :: 0 <= l < j ==> processes[l] == null
    }

    /** process_unlink, with process_switch_to_any: the lowest remaining process gets the
        keyboard, and with none left the kernel panics. */
    method Unlink(p: Process, ghost k: State)
      requires InTable(p) && FocusOk(k.focus, k.halted) && !halted && OthersOk(processes[..], k.procs, p.id, p)
      modifies this`currentProcess, this`halted, processes
      ensures processes[..] == old(processes[..])[p.id := null] && |k.procs| == MAX_PROCESSES && p.id < MAX_PROCESSES
      ensures FocusOk(FocusAfter(k, p.id), HaltedAfter(k, p.id))
      ensures old(currentProcess) != p ==> currentProcess == old(currentProcess) && !halted
      ensures old(currentProcess) == p && halted ==> forall j :: 0 <= j < processes.Length ==> processes[j] == null
      ensures old(currentProcess) == p && !halted ==> currentProcess != null && IsLowest(currentProcess)
    {
      ghost var procs := k.procs[p.id := None];
      TableGone(processes[..], k.procs, p);
      processes[p.id] := null;
      assert forall j :: 0 <= j < MAX_PROCESSES ==> Tied(processes[..][j], procs[j], j);
      if currentProcess == p {
        for i := 0 to MAX_PROCESSES
          invariant currentProcess == p && !halted && AnyProcess(procs, i) == AnyProcess(procs, 0)
          invariant NoneBelow(i)
        {
          if processes[i] != null {
            currentProcess := processes[i];
            return;
          }
        }
        halted := true;
      }
    }

    // --- Scheduling ----------------------------------------------------------------------------

    /** idt_clock */
    method Clock()
      requires Valid() && !halted && tasks.current != null
      modifies this`abs, tasks`current
      ensures old(abs).current.Some? && old(abs).current.value in old(abs).ring
      ensures Valid() && abs == TaskNext(old(abs))
    {
      hide TaskList.Valid, Heap.Valid, Inv, Backed, TableOk, TasksInTable, FocusOk, RingOf, TaskRing.Next,
        TaskRing.Distinct;
      CurrentFacts();
      RingNext(tasks.list, tasks.current);
      TaskNextStep(abs);
      SameBacking(abs, TaskNext(abs), memory.Ram());
      tasks.TaskNext();
      abs := TaskNext(abs);
    }

    /** process_switch */
    method ProcessSwitch(p: Process)
      requires Valid() && InTable(p) && !halted
      modifies this`currentProcess, this`abs
      ensures Inv(old(abs)) && Enabled(old(abs), OpFocus(p.id))
      ensures Valid() && abs == Step(old(abs), OpFocus(p.id))
    {
      hide TaskList.Valid, Heap.Valid, Inv, Backed, TableOk, TasksInTable, RingOf, Tied;
      ghost var k := abs;
      SlotFacts(p);
      CursorStep(k, Step(k, OpFocus(p.id)));
      SameBacking(k, Step(k, OpFocus(p.id)), memory.Ram());
      currentProcess := p;
      abs := Step(k, OpFocus(p.id));
    }

    /** task_switch to the task of a process in the table, without the CR3 load. */
    method TaskSwitch(p: Process)
      requires Valid() && InTable(p) && !halted
      modifies this`abs, tasks`current
      ensures Inv(old(abs)) && Enabled(old(abs), OpRunTask(p.id))
      ensures Valid() && abs == Step(old(abs), OpRunTask(p.id))
    {
      hide TaskList.Valid, Heap.Valid, Inv, Backed, TableOk, TasksInTable, RingOf, TaskRing.Distinct, Tied;
      ghost var k := abs;
      SlotFacts(p);
      TaskListed(p);
      CursorStep(k, Step(k, OpRunTask(p.id)));
      SameBacking(k, Step(k, OpRunTask(p.id)), memory.Ram());
      tasks.Switch(p.task);
      abs := Step(k, OpRunTask(p.id));
    }

    /** isr80h_command9_exit, and idt_handle_exception: the current process is terminated,
        then the next task is switched to. With no task left to switch to, the source
        dereferences a null current_task; the model halts. */
    method Exit()
      requires Valid() && !halted && tasks.current != null && ExitHarmless(abs, tasks.current.process.id)
      modifies this, memory.heap`runs, memory.heap.entries, memory.ram, processes, tasks, tasks.list
      modifies tasks.current.process.allocations
      ensures Enabled(old(abs), OpExit) && Inv(old(abs))
      ensures Valid() && abs == Step(old(abs), OpExit)
    {
      hide TaskList.Valid, Heap.Valid, Inv, Backed, TableOk, TasksInTable, RingOf, Terminate, TaskRing.Next,
        TaskRing.Distinct, Occupied;
      ghost var k := abs;
      CurrentFacts();
      ExitFacts(k);
      var p := tasks.current.process;
      ProcessTerminate(p);
      if halted {
        return;
      }
      if tasks.current == null {
        halted := true;
        abs := abs.(halted := true);
        SameBacking(Terminate(k, p.id), abs, memory.Ram());
        return;
      }
      Clock();
    }

    // --- Loading ---------------------------------------------------------------------------------

    /** kzalloc while a load is under way: one more run in transit, or none that fits. */
    method AllocTransit(size: Word, ghost extra: Runs) returns (ptr: Word, ghost b: nat)
      requires memory.Valid() && Inv(abs) && Transit(abs, memory.heap.runs, extra, memory.Ram())
      modifies memory.heap`runs, memory.heap.entries, memory.ram
      ensures memory.Valid()
      ensures var fit := FirstFit(old(memory.heap.runs), HEAP_BLOCKS, Blocks(size));
        if fit == -1 then ptr == 0 && memory.heap.runs == old(memory.heap.runs) && memory.Ram() == old(memory.Ram())
        else
          && ptr == Addr(b) && fit == b && b < HEAP_BLOCKS && b !in old(memory.heap.runs)
          && memory.heap.runs == old(memory.heap.runs)[b := Blocks(size)]
          && b !in extra && Transit(abs, memory.heap.runs, extra[b := Blocks(size)], memory.Ram())
          && KeepsWords(old(memory.heap.runs), old(memory.Ram()), memory.Ram())
    {
      hide Inv, Heap.Valid, SameExcept, Blocks, KeepsWords;
      HeapPartition();
      ghost var r, m, fit := memory.heap.runs, memory.Ram(), FirstFit(memory.heap.runs, HEAP_BLOCKS, Blocks(size));
      ptr := memory.Kzalloc(size);
      b := 0;
      if ptr != 0 {
        b := fit;
        TransitGrows(abs, r, extra, m, memory.Ram(), b, Blocks(size));
        FitIsFresh(r, b, Blocks(size));
        FreeHoldsNoStart(r, b, Blocks(size));
        KeepsWordsApart(r, m, memory.Ram(), RunBlocks(b, Blocks(size)));
      }
    }

    /** elf_file->elf_memory = word; for raw bytes, the word their reading puts there. */
    method StoreElfWord(elf: Word, word: Word, ghost extra: Runs, ghost b: nat)
      requires memory.Valid() && Inv(abs) && Transit(abs, memory.heap.runs, extra, memory.Ram())
      requires b < HEAP_BLOCKS && b in extra && elf == Addr(b)
      modifies memory.ram
      ensures memory.Valid() && Transit(abs, memory.heap.runs, extra, memory.Ram())
      ensures ElfWord(memory.Ram(), b, word)
    {
      hide Inv, Heap.Valid, Transit;
      ghost var m := memory.Ram();
      memory.Store(elf + ELF_MEMORY, word);
      StoredAt(m, b, word);
      TransitMap(abs, memory.heap.runs, extra, m, memory.Ram(), {b});
    }

    lemma StoredAt(m: Mem, b: nat, word: Word)
      requires b < HEAP_BLOCKS
      ensures var m' := Stored(m, Addr(b) + ELF_MEMORY, word);
        ElfWord(m', b, word) && SameExcept(m, m', {b})
    {
      assert (Addr(b) + ELF_MEMORY) / PAGE_SIZE == BlockFrame(b);
    }

    lemma FitIsFresh(r: Runs, b: nat, n: nat)
      requires n > 0 && FreeAt(r, b, n) && Partition(r, HEAP_BLOCKS) && b + n <= HEAP_BLOCKS
      ensures b !in r
    {
      PartitionAdd(r, HEAP_BLOCKS, b, n);
    }

    /** process_map_elf: the page map moves as Elf.MapElf says. */
    method ProcessMapElf(file: ElfFile, chunk: Word, ghost d: Dir) returns (res: int)
      requires memory.ram.Length == PAGES && Installed(memory.Ram(), d) && chunk == Addr(d.chunk)
      modifies memory.ram
      ensures (Flat(memory.Ram(), d), res) == MapElf(Flat(old(memory.Ram()), d), file.elfMemory, file.image.phdrs)
      ensures Installed(memory.Ram(), d) && SameExcept(old(memory.Ram()), memory.Ram(), TableBlocks(d))
    {
      hide Installed, SameExcept, Flat, PageTables.MapTo;
      ghost var m0 := memory.Ram();
      InstalledIsDistinct(m0, d);
      res := 0;
      var phdrs := file.image.phdrs;
      SameAsItself(m0, TableBlocks(d));
      for i := 0 to |phdrs|
        invariant res == 0 && Installed(memory.Ram(), d) && SameExcept(m0, memory.Ram(), TableBlocks(d))
        invariant MapElf(Flat(m0, d), file.elfMemory, phdrs) == MapElf(Flat(memory.Ram(), d), file.elfMemory,
          phdrs[i..])
      {
        ghost var m := memory.Ram();
        var ph := phdrs[i];
        var phys := PhysAddress(file.elfMemory, ph);
        assert phdrs[i..][0] == ph && phdrs[i..][1..] == phdrs[i + 1..];
        res := memory.MapTo(chunk, AlignToLowerPage(ph.vaddr), AlignToLowerPage(phys),
          AlignAddress(Wrap(phys + ph.memsz)), SegmentFlags(ph), d);
        SameExceptTrans(m0, m, memory.Ram(), TableBlocks(d), TableBlocks(d));
        assert TableBlocks(d) + TableBlocks(d) == TableBlocks(d);
        if res < 0 {
          break;
        }
      }
    }

    lemma InstalledIsDistinct(m: Mem, d: Dir)
      requires Installed(m, d)
      ensures DistinctDir(d)
    {
    }

    lemma SameAsItself(m: Mem, s: set<nat>)
      ensures SameExcept(m, m, s)
    {
    }

    /** process_map_memory for an ELF process: segments, then stack. */
    method ProcessMapMemory(p: Process, chunk: Word, ghost d: Dir) returns (res: int)
      requires memory.ram.Length == PAGES && Installed(memory.Ram(), d) && chunk == Addr(d.chunk)
      modifies memory.ram
      ensures (Flat(memory.Ram(), d), res) == MapMemory(Flat(old(memory.Ram()), d), p.elfFile.elfMemory,
        p.elfFile.image.phdrs, p.stack)
      ensures Installed(memory.Ram(), d) && SameExcept(old(memory.Ram()), memory.Ram(), TableBlocks(d))
    {
      hide Installed, SameExcept, Flat, PageTables.MapTo, MapElf;
      ghost var m0 := memory.Ram();
      res := ProcessMapElf(p.elfFile, chunk, d);
      if res < 0 {
        return;
      }
      ghost var m1 := memory.Ram();
      var ignored := memory.MapTo(chunk, STACK_END, p.stack, AlignAddress(Wrap(p.stack + USER_STACK_SIZE)), USER_RW, d);
      SameExceptTrans(m0, m1, memory.Ram(), TableBlocks(d), TableBlocks(d));
      assert TableBlocks(d) + TableBlocks(d) == TableBlocks(d);
    }

    /** process_get_free_slot */
    method GetFreeSlot() returns (slot: int)
      requires TableOk(processes[..], abs.procs)
      ensures slot == FreeSlot(abs.procs, 0)
    {
      slot := 0;
      while slot < MAX_PROCESSES
        invariant 0 <= slot <= MAX_PROCESSES && FreeSlot(abs.procs, 0) == FreeSlot(abs.procs, slot)
      {
        assert Tied(processes[..][slot], abs.procs[slot], slot);
        if processes[slot] == null {
          return;
        }
        slot := slot + 1;
      }
      slot := -EISTKN;
    }

    /** What a load that stops half way leaves behind becomes the kernel's. */
    ghost method Leak(extra: Runs)
      requires Consistent() && Transit(abs, memory.heap.runs, extra, memory.Ram())
      modifies this`abs
      ensures Valid() && abs == Leaked(old(abs), extra)
    {
      hide TaskList.Valid, Heap.Valid, Inv, Backed, TableOk, TasksInTable, FocusOk, RingOf, AllIsolated;
      KernelGains(abs, extra);
      SameBacking(abs, Leaked(abs, extra), memory.Ram());
      abs := Leaked(abs, extra);
    }

    /** Part of what a load has allocated becomes the kernel's, the rest stays in transit. */
    ghost method LeakSpare(extra: Runs, rest: Runs, elf: nat, image: nat, size: Word)
      requires Consistent() && Transit(abs, memory.heap.runs, extra, memory.Ram()) && elf != image
      requires extra == rest + SpareRuns(elf, image, size) && rest.Keys !! {elf, image}
      modifies this`abs
      ensures Consistent() && abs == Leaked(old(abs), SpareRuns(elf, image, size))
      ensures Extends(old(abs).runs, SpareRuns(elf, image, size), HEAP_BLOCKS)
      ensures Transit(abs, memory.heap.runs, rest, memory.Ram())
    {
      hide TaskList.Valid, Heap.Valid, Inv, Backed, TableOk, TasksInTable, FocusOk, RingOf, AllIsolated, SpareRuns,
        Partition;
      ghost var spare := SpareRuns(elf, image, size);
      SpareKeys(elf, image, size);
      SpareSplits(abs.runs, extra, rest, spare);
      KernelGains(abs, spare);
      SameBacking(abs, Leaked(abs, spare), memory.Ram());
      abs := Leaked(abs, spare);
    }

    /** process_load_data and the stack: everything process_load_for_slot allocates before
        task_new. part says what the process owns of it, spare what an ELF load that failed
        validation has left behind. */
    method LoadParts(file: File)
      returns (res: int, record: Word, elf: Word, word: Word, stack: Word, ghost l: Loading, ghost parts: Parts,
        ghost spare: Option<(nat, nat)>)
      requires Valid() && FreeSlot(abs.procs, 0) >= 0 && LoadRoom(abs.runs, file)
      modifies this`abs, memory.heap`runs, memory.heap.entries, memory.ram
      ensures Consistent() && FreeSlot(abs.procs, 0) == FreeSlot(old(abs).procs, 0)
      ensures res != 0 ==> Valid() && LoadsAs(old(abs), ImageOf(file), l, abs, res)
      ensures res == 0 ==>
        && SpareFits(old(abs), spare, ImageOf(file).size) && abs == Beside(old(abs), spare, ImageOf(file).size)
        && PartsOf(file, parts)
        && record == Addr(parts.record) && elf == Addr(parts.elf) && word == parts.memory && stack == Addr(parts.stack)
        && Transit(abs, memory.heap.runs, PartRunsOf(parts, ImageOf(file).size), memory.Ram())
        && ElfWord(memory.Ram(), parts.elf, parts.memory) && PartsAt(old(abs).runs, file, parts)
        && |FreeBlocks(memory.heap.runs, HEAP_BLOCKS)| >= ENTRIES + 3
      ensures (res == 0 <==> PartsGranted(old(abs).runs, file)) && (res == 0 || res == -ENOMEM || res == -EIO)
      ensures (res == -ENOMEM <==> LacksMemory(old(abs).runs, file))
      ensures (res == -EIO <==> FailsToRead(old(abs).runs, file))
      ensures memory.heap.runs == HeapLeft(old(abs), file)
    {
      hide TaskList.Valid, Heap.Valid, Inv, Backed, TableOk, TasksInTable, FocusOk, RingOf, FirstFit, FreeBlocks,
        Extends, Partition, SpareRuns, ProgramRuns, LoadsAs, KeepsWords, ElfWord, IsRead, ReadFails, RawRefused,
        AfterData, WordFound, DataAt;
      SlotIsFree(abs);
      ghost var k, size := abs, ImageOf(file).size;
      record, elf, word, stack, l, parts, spare := 0, 0, 0, 0, NoRecord, Parts(0, 0, None, 0, 0), None;
      ghost var rb: nat, eb: nat, image: Option<nat>;
      TransitStarts(k, memory.Ram());
      record, rb := AllocTransit(PROCESS_SIZE, map[]);
      if record == 0 {
        NoRecordLoads(k, ImageOf(file));
        return -ENOMEM, 0, 0, 0, 0, l, parts, spare;
      }
      res, elf, word, l, eb, image, spare := LoadData(file, rb);
      if res < 0 {
        return res, 0, 0, 0, 0, l, parts, spare;
      }
      ghost var sl: Loading;
      res, stack, sl, parts := StackAlloc(ImageOf(file), rb, eb, image, word);
      if res < 0 {
        Wrapped(k, ImageOf(file), spare, sl, abs, res);
        l := Outcome(spare, sl);
      }
    }

    /** process_load_data: as an ELF file, or else as raw bytes. */
    method LoadData(file: File, ghost rb: nat)
      returns (res: int, elf: Word, word: Word, ghost l: Loading, ghost eb: nat, ghost image: Option<nat>,
        ghost spare: Option<(nat, nat)>)
      requires Consistent() && FreeSlot(abs.procs, 0) >= 0 && rb < HEAP_BLOCKS
      requires Transit(abs, memory.heap.runs, map[rb := PROCESS_BLOCKS], memory.Ram())
      requires DataRoom(memory.heap.runs, file)
      modifies this`abs, memory.heap`runs, memory.heap.entries, memory.ram
      ensures Consistent() && FreeSlot(abs.procs, 0) == FreeSlot(old(abs).procs, 0) && res <= 0
      ensures res < 0 ==> Valid() && LoadsAs(old(abs), ImageOf(file), l, abs, res)
      ensures res == 0 ==>
        && SpareFits(old(abs), spare, ImageOf(file).size) && abs == Beside(old(abs), spare, ImageOf(file).size)
        && eb < HEAP_BLOCKS && elf == Addr(eb) && ProgramFits(file, rb, eb, image) && word == MemoryOf(file, image)
        && Transit(abs, memory.heap.runs, ProgramRuns(rb, eb, image, ImageOf(file).size), memory.Ram())
        && ElfWord(memory.Ram(), eb, word) && DataAt(old(memory.heap.runs), file, eb, image, word)
      ensures (res == 0 <==> IsRead(old(memory.heap.runs), file)) && (res == 0 || res == -ENOMEM || res == -EIO)
      ensures (res == -ENOMEM <==> RawRefused(old(memory.heap.runs), file))
      ensures (res == -EIO <==> ReadFails(old(memory.heap.runs), file))
      ensures memory.heap.runs == AfterData(old(memory.heap.runs), file)
    {
      hide TaskList.Valid, Heap.Valid, Inv, Backed, TableOk, TasksInTable, FocusOk, RingOf, FirstFit, FreeBlocks,
        Extends, Partition, SpareRuns, LoadsAs, KeepsWords, ElfWord, AfterElf;
      ghost var k := abs;
      ghost var ib: nat;
      spare := None;
      res, elf, word, l, eb, ib := ElfLoad(file, rb);
      image := Some(ib);
      if res == -EINFORMAT {
        ghost var ee := eb;
        ghost var rl: Loading;
        ProgramIsSpare(rb, eb, ib, ImageOf(file).size);
        LeakSpare(ProgramRuns(rb, eb, Some(ib), ImageOf(file).size), map[rb := PROCESS_BLOCKS], eb, ib,
          ImageOf(file).size);
        spare := Some((ee, ib));
        ghost var k1 := abs;
        res, elf, rl, eb := LoadBinary(file.bytes.size, file.memory, file.again, rb, file.bytes);
        image, word := None, file.memory;
        if res < 0 {
          Wrapped(k, ImageOf(file), spare, rl, abs, res);
          l := Outcome(spare, rl);
        }
      }
    }

    /** process_load_binary: the file is read again, to a run of its own. The pointer to it is
        stored where the pointer to a struct elf_file is expected (process.h:50-55), and word
        then stands at byte 112. */
    method LoadBinary(size: Word, word: Word, again: Again, ghost rb: nat, ghost img: Image)
      returns (res: int, data: Word, ghost l: Loading, ghost db: nat)
      requires Consistent() && FreeSlot(abs.procs, 0) >= 0 && img.size == size && rb < HEAP_BLOCKS
      requires Transit(abs, memory.heap.runs, map[rb := PROCESS_BLOCKS], memory.Ram())
      modifies this`abs, memory.heap`runs, memory.heap.entries, memory.ram
      ensures Consistent() && FreeSlot(abs.procs, 0) == FreeSlot(old(abs).procs, 0) && res <= 0
      ensures res < 0 ==> Valid() && LoadsAs(old(abs), img, l, abs, res)
      ensures res == 0 ==>
        && abs == old(abs) && again.Read? && data == Addr(db) && db < HEAP_BLOCKS && db != rb
        && Transit(abs, memory.heap.runs, ProgramRuns(rb, db, None, size), memory.Ram())
        && ElfWord(memory.Ram(), db, word)
        && db == FirstFit(old(memory.heap.runs), HEAP_BLOCKS, Blocks(size))
      ensures (res == 0 <==> again.Read? && Grants(old(memory.heap.runs), Blocks(size)))
      ensures (res == -ENOMEM <==> !again.Gone? && !Grants(old(memory.heap.runs), Blocks(size)))
      ensures res == 0 || res == -ENOMEM || res == -EIO
      ensures memory.heap.runs ==
        if again.Gone? then old(memory.heap.runs) else Grown(old(memory.heap.runs), Blocks(size))
    {
      hide TaskList.Valid, Heap.Valid, Inv, Backed, TableOk, TasksInTable, FocusOk, RingOf, FirstFit, Extends,
        Partition, KeepsWords, ElfWord, Blocks;
      data, db := 0, 0;
      l := NoData(rb, EIO);
      if again.Gone? {
        Leak(LoadingRuns(l, size));
        return -EIO, 0, l, db;
      }
      data, db := AllocTransit(size, map[rb := PROCESS_BLOCKS]);
      if data == 0 {
        l := NoData(rb, ENOMEM);
        Leak(LoadingRuns(l, size));
        return -ENOMEM, 0, l, db;
      }
      if again.Broken? {
        l := NoStack(rb, db, None, EIO);
        Leak(LoadingRuns(l, size));
        return -EIO, 0, l, db;
      }
      StoreElfWord(data, word, ProgramRuns(rb, db, None, size), db);
      res := 0;
    }

    /** The stack allocation of process_load_for_slot. */
    method StackAlloc(img: Image, ghost rb: nat, ghost eb: nat, ghost image: Option<nat>, ghost word: Word)
      returns (res: int, stack: Word, ghost l: Loading, ghost parts: Parts)
      requires Consistent() && FreeSlot(abs.procs, 0) >= 0 && rb != eb && ImageRun(image) !! {rb, eb}
      requires MemoryIs(image, word)
      requires rb < HEAP_BLOCKS && eb < HEAP_BLOCKS && ElfWord(memory.Ram(), eb, word)
      requires Transit(abs, memory.heap.runs, ProgramRuns(rb, eb, image, img.size), memory.Ram())
      modifies this`abs, memory.heap`runs, memory.heap.entries, memory.ram
      ensures Consistent() && FreeSlot(abs.procs, 0) == FreeSlot(old(abs).procs, 0) && res <= 0
      ensures res < 0 ==> Valid() && LoadsAs(old(abs), img, l, abs, res)
      ensures res == 0 ==>
        && abs == old(abs) && parts == Parts(rb, eb, image, word, parts.stack) && PartsDistinct(parts)
        && stack == Addr(parts.stack)
        && Transit(abs, memory.heap.runs, PartRunsOf(parts, img.size), memory.Ram())
        && ElfWord(memory.Ram(), eb, word)
        && parts.stack == FirstFit(old(memory.heap.runs), HEAP_BLOCKS, STACK_BLOCKS)
      ensures (res == 0 <==> Grants(old(memory.heap.runs), STACK_BLOCKS)) && (res == 0 || res == -ENOMEM)
      ensures memory.heap.runs == Grown(old(memory.heap.runs), STACK_BLOCKS)
    {
      hide TaskList.Valid, Heap.Valid, Inv, Backed, TableOk, TasksInTable, FocusOk, RingOf, FirstFit, Extends,
        Partition, ElfWord;
      l, parts := NoStack(rb, eb, image, ENOMEM), Parts(rb, eb, image, word, 0);
      ghost var sb: nat;
      stack, sb := AllocTransit(USER_STACK_SIZE, ProgramRuns(rb, eb, image, img.size));
      if stack == 0 {
        Leak(LoadingRuns(l, img.size));
        return -ENOMEM, 0, l, parts;
      }
      parts := Parts(rb, eb, image, word, sb);
      ProgramAndStack(parts, img.size);
      res := 0;
    }

    /** elf_load's allocations, for a process whose record is already allocated: its own
        record and, if the file opens, room for the file. Neither is checked or freed; a file
        that is read but fails validation ends with -EINFORMAT and both still in transit. */
    method ElfLoad(file: File, ghost rb: nat)
      returns (res: int, elf: Word, image: Word, ghost l: Loading, ghost eb: nat, ghost ib: nat)
      requires Consistent() && FreeSlot(abs.procs, 0) >= 0
      requires Transit(abs, memory.heap.runs, map[rb := PROCESS_BLOCKS], memory.Ram())
      requires DataRoom(memory.heap.runs, file) && rb < HEAP_BLOCKS
      modifies this`abs, memory.heap`runs, memory.heap.entries, memory.ram
      ensures Consistent() && FreeSlot(abs.procs, 0) == FreeSlot(old(abs).procs, 0) && res <= 0
      ensures (res == 0 <==> file.Program?) && (res == -EINFORMAT <==> file.Other?)
      ensures res < 0 && res != -EINFORMAT ==> Valid() && LoadsAs(old(abs), ImageOf(file), l, abs, res)
      ensures res == 0 || res == -EINFORMAT ==>
        && abs == old(abs) && rb != eb && rb != ib && eb != ib && eb < HEAP_BLOCKS && ib < HEAP_BLOCKS
        && elf == Addr(eb) && image == Addr(ib)
        && Transit(abs, memory.heap.runs, ProgramRuns(rb, eb, Some(ib), ImageOf(file).size), memory.Ram())
        && ElfWord(memory.Ram(), eb, image)
        && eb == FirstFit(old(memory.heap.runs), HEAP_BLOCKS, ELF_FILE_BLOCKS)
        && ib == FirstFit(Grown(old(memory.heap.runs), ELF_FILE_BLOCKS), HEAP_BLOCKS, FileBlocks(file))
      ensures (res == -EIO <==> file.Missing? || file.Unreadable?)
      ensures memory.heap.runs == AfterElf(old(memory.heap.runs), file)
    {
      hide TaskList.Valid, Heap.Valid, Inv, Backed, TableOk, TasksInTable, FocusOk, RingOf, FirstFit, FreeBlocks,
        Extends, Partition, KeepsWords, ElfWord, ProgramRuns;
      image, l, ib := 0, NoRecord, 0;
      elf, eb := AllocTransit(ELF_FILE_SIZE, map[rb := PROCESS_BLOCKS]);
      if file.Missing? {
        l := NoFile(rb, eb);
        Leak(LoadingRuns(l, ImageOf(file).size));
        return -EIO, 0, 0, l, eb, ib;
      }
      image, ib := ElfBytes(ImageOf(file).size, elf, rb, eb);
      if file.Unreadable? {
        l := NoStack(rb, eb, Some(ib), EIO);
        Leak(LoadingRuns(l, ImageOf(file).size));
        return -EIO, 0, 0, l, eb, ib;
      }
      res := if file.Program? then 0 else -EINFORMAT;
    }

    /** elf_file->elf_memory = kzalloc(stat.filesize) */
    method ElfBytes(size: Word, elf: Word, ghost rb: nat, ghost eb: nat) returns (image: Word, ghost ib: nat)
      requires memory.Valid() && Inv(abs) && rb != eb && eb < HEAP_BLOCKS && elf == Addr(eb)
      requires Transit(abs, memory.heap.runs, map[rb := PROCESS_BLOCKS, eb := ELF_FILE_BLOCKS], memory.Ram())
      requires Grants(memory.heap.runs, Blocks(size))
      modifies memory.heap`runs, memory.heap.entries, memory.ram
      ensures memory.Valid() && ib < HEAP_BLOCKS && image == Addr(ib) && ib != rb && ib != eb
      ensures ib == FirstFit(old(memory.heap.runs), HEAP_BLOCKS, Blocks(size))
      ensures memory.heap.runs == Grown(old(memory.heap.runs), Blocks(size))
      ensures Transit(abs, memory.heap.runs, ProgramRuns(rb, eb, Some(ib), size), memory.Ram())
      ensures ElfWord(memory.Ram(), eb, image)
    {
      hide Heap.Valid, Inv, FirstFit, KeepsWords, ElfWord, Blocks, Transit;
      image, ib := AllocTransit(size, map[rb := PROCESS_BLOCKS, eb := ELF_FILE_BLOCKS]);
      StoreElfWord(elf, image, ProgramRuns(rb, eb, Some(ib), size), eb);
    }

    lemma TableKnown()
      requires Consistent()
      ensures TableOk(processes[..], abs.procs) && Inv(abs)
    {
    }

    /** process_load: it ends as LoadPlan.EndsWith says, the state moves as System.Load says,
        and every run it is given is where first fit puts it. */
    method ProcessLoad(file: File) returns (res: int, process: Process?, ghost l: Loading)
      requires Valid() && !halted && LoadRoom(abs.runs, file)
      modifies this`abs, memory.heap`runs, memory.heap.entries, memory.ram, processes, tasks, tasks.list
      ensures Valid() && !halted && LoadsAs(old(abs), ImageOf(file), l, abs, res)
      ensures res == 0 ==>
        process != null && InTable(process) && Some(process.id) == SlotOf(FreeSlot(old(abs).procs, 0))
        && fresh(process) && fresh(process.allocations) && fresh(process.arguments)
      ensures EndsWith(old(abs), file, res)
      ensures res != 0 ==> abs.runs == HeapLeft(old(abs), file)
      ensures res == 0 ==>
        Occupied(abs, process.id) && LoadedAs(old(abs), file, abs.procs[process.id].value, abs.runs)
    {
      hide Standing, Inv, Backed, TableOk, LoadRoom, Transit, LoadsAs, SpareFits, PartsOf, PartRunsOf, FreeBlocks,
        PartsGranted, LacksMemory, FailsToRead, HeapLeft, SlotFree, AllAccepted, PartsAt, Tasked, EndsWith,
        PartsDistinct, SpareRuns, ElfWord;
      process, l := null, NoRecord;
      ghost var k := abs;
      TableKnown();
      SlotIsFree(k);
      var slot := GetFreeSlot();
      if slot < 0 {
        NothingLoaded(abs, ImageOf(file));
        EndsEarly(k, file, slot);
        return slot, null, l;
      }
      var record, elf, word, stack;
      ghost var parts: Parts, spare: Option<(nat, nat)>;
      res, record, elf, word, stack, l, parts, spare := LoadParts(file);
      if res != 0 {
        EndsEarly(k, file, res);
        return res, null, l;
      }
      PartsKnown(file, parts);
      var p := FilledRecord(file, record, slot, elf, word, stack);
      ghost var rest: Loading;
      res, rest := FinishLoad(p, parts);
      Wrapped(k, ImageOf(file), spare, rest, abs, res);
      l := Outcome(spare, rest);
      EndsLate(k, file, parts, res);
      process := if res == 0 then p else null;
    }

    /** The record process_load_for_slot fills in; only elf_load's own success works out the
        extents. */
    method FilledRecord(file: File, record: Word, slot: nat, elf: Word, word: Word, stack: Word) returns (p: Process)
      ensures fresh(p) && fresh(p.allocations) && fresh(p.arguments) && fresh(p.elfFile)
      ensures p.address == record && p.id == slot && p.stack == stack && p.task == null
      ensures p.allocations[..] == EmptyLedger()
      ensures p.elfFile.address == elf && p.elfFile.elfMemory == word && p.elfFile.image == ImageOf(file)
      ensures file.Program? ==> p.elfFile.Found() == ExtentsOf(word, file.image.phdrs)
    {
      var elfFile := new ElfFile(elf, word, ImageOf(file));
      if file.Program? {
        elfFile.ProcessPheaders();
      }
      p := new Process(record, slot, elfFile, stack);
    }

    /** process_load_switch: a loaded process also gets the keyboard. */
    method ProcessLoadSwitch(file: File) returns (res: int, process: Process?, ghost l: Loading, ghost loaded: State)
      requires Valid() && !halted && LoadRoom(abs.runs, file)
      modifies this`abs, this`currentProcess, memory.heap`runs, memory.heap.entries, memory.ram, processes, tasks,
        tasks.list
      ensures Valid() && !halted && LoadsAs(old(abs), ImageOf(file), l, loaded, res)
      ensures res != 0 ==> abs == loaded
      ensures res == 0 ==>
        process != null && InTable(process) && Some(process.id) == SlotOf(FreeSlot(old(abs).procs, 0))
        && fresh(process) && fresh(process.allocations) && fresh(process.arguments)
        && Inv(loaded) && Enabled(loaded, OpFocus(process.id)) && abs == Step(loaded, OpFocus(process.id))
        && Occupied(loaded, process.id) && LoadedAs(old(abs), file, loaded.procs[process.id].value, loaded.runs)
      ensures EndsWith(old(abs), file, res)
      ensures res != 0 ==> loaded.runs == HeapLeft(old(abs), file)
    {
      hide Valid, Inv, LoadRoom, LoadsAs, Enabled, Step, EndsWith, LoadedAs, HeapLeft;
      res, process, l := ProcessLoad(file);
      loaded := abs;
      if res == 0 {
        ProcessSwitch(process);
      }
    }

    /** process_load_for_slot once its buffers are allocated: task, page map, table entry;
        or, when a segment cannot be mapped, task_free. */
    method FinishLoad(p: Process, ghost parts: Parts) returns (res: int, ghost l: Loading)
      requires Consistent() && !halted && p.id == FreeSlot(abs.procs, 0) && PartsDistinct(parts)
      requires p.task == null && p.allocations[..] == EmptyLedger() && forall j :: 0 <= j < processes.Length ==>
        processes[j] != p
      requires p.address == Addr(parts.record) && p.elfFile.address == Addr(parts.elf)
      requires p.elfFile.elfMemory == parts.memory && p.stack == Addr(parts.stack)
      requires ElfWord(memory.Ram(), parts.elf, parts.memory)
      requires forall j :: 0 <= j < processes.Length && processes[j] != null ==>
        processes[j].allocations != p.allocations
      requires Apart(p.allocations)
      requires Transit(abs, memory.heap.runs, PartRunsOf(parts, p.elfFile.image.size), memory.Ram())
      requires |FreeBlocks(memory.heap.runs, HEAP_BLOCKS)| >= ENTRIES + 3
      modifies this`abs, memory.heap`runs, memory.heap.entries, memory.ram, processes, tasks, tasks.list, p`task
      ensures Valid() && !halted && LoadsAs(old(abs), p.elfFile.image, l, abs, res)
      ensures (res == 0 <==> AllAccepted(parts.memory, p.elfFile.image.phdrs)) && (res == 0 || res == -EINVARG)
      ensures res != 0 ==> memory.heap.runs == old(memory.heap.runs)
      ensures res == 0 ==>
        && InTable(p) && Occupied(abs, p.id) && PartsOfProc(abs.procs[p.id].value) == parts
        && Tasked(old(memory.heap.runs), abs.procs[p.id].value, memory.heap.runs)
    {
      hide TaskList.Valid, Heap.Valid, Inv, Backed, TableOk, TasksInTable, RingOf, Transit, FreeBlocks, Installed,
        Flat, MapMemory, LoadsAs, PartRunsOf, LoadingRuns, DirBlocks, FreshLoading, Identity, AllAccepted, FirstFit,
        Grown, Singles;
      ghost var list, current, r := tasks.list, tasks.current, memory.heap.runs;
      ListEnds();
      InTransit(parts, p.elfFile.image.size);
      StackIsRun(parts.stack);
      var task;
      res, task, l := TaskMapped(p, parts);
      MapMemoryAt(Identity(IS_PRESENT + ACCESS_FROM_ALL), parts.memory, p.elfFile.image.phdrs, Addr(parts.stack), 0);
      if res < 0 {
        AbortLoad(task, l, parts, list, current, res, p.elfFile.image);
      } else {
        EnterTable(p, task, l, parts, list, current);
      }
    }

    /** task_new and process_map_memory for a process whose buffers are in transit. */
    method TaskMapped(p: Process, ghost parts: Parts) returns (res: int, task: Task, ghost l: Loading)
      requires memory.Valid() && Inv(abs) && PartsDistinct(parts) && tasks.Valid() && p.task == null
      requires TasksInTable(processes[..], tasks.list) && forall j :: 0 <= j < processes.Length ==> processes[j] != p
      requires p.elfFile.elfMemory == parts.memory && p.stack == Addr(parts.stack)
      requires ElfWord(memory.Ram(), parts.elf, parts.memory)
      requires Transit(abs, memory.heap.runs, PartRunsOf(parts, p.elfFile.image.size), memory.Ram())
      requires |FreeBlocks(memory.heap.runs, HEAP_BLOCKS)| >= ENTRIES + 3
      modifies memory.heap`runs, memory.heap.entries, memory.ram, tasks, tasks.list, p`task
      ensures memory.Valid() && tasks.Valid() && fresh(task) && p.task == task && task.process == p && res <= 0
      ensures tasks.list == old(tasks.list) + [task] && task !in old(tasks.list)
      ensures tasks.current == if old(tasks.list) == [] then task else old(tasks.current)
      ensures LoadCompleted(l, parts, task) && FreshLoading(abs.runs, l, p.elfFile.image.size) && l.stack < HEAP_BLOCKS
      ensures Transit(abs, memory.heap.runs, LoadingRuns(l, p.elfFile.image.size), memory.Ram())
      ensures Installed(memory.Ram(), task.dir) && ElfWord(memory.Ram(), l.elf, l.memory)
      ensures (Flat(memory.Ram(), task.dir), res) == MapMemory(Identity(IS_PRESENT + ACCESS_FROM_ALL), l.memory,
        p.elfFile.image.phdrs, Addr(l.stack))
      ensures l.task == FirstFit(old(memory.heap.runs), HEAP_BLOCKS, TASK_BLOCKS)
      ensures memory.heap.runs == Grown(old(memory.heap.runs), TASK_BLOCKS) + Singles(DirBlocks(task.dir))
    {
      hide TaskList.Valid, Heap.Valid, Inv, Backed, TasksInTable, Transit, FreeBlocks, Installed, Flat, MapMemory,
        PartRunsOf, LoadingRuns, DirBlocks, FreshLoading, PartsDistinct, Identity;
      ghost var img := p.elfFile.image;
      NotListed(p);
      ghost var tb: nat;
      PartsInTransit(parts, img.size);
      task, tb := TaskNew(p, PartRunsOf(parts, img.size));
      p.task := task;
      l := Complete(parts.record, parts.elf, parts.image, parts.memory, parts.stack, tb, task.dir);
      InstalledIsDistinct(memory.Ram(), task.dir);
      CompleteRuns(parts, tb, task.dir, img.size);
      CompleteIsFresh(abs, memory.heap.runs, memory.Ram(), parts, tb, task.dir, img.size);
      TaskTables(abs.runs, task.dir, l, img.size);
      ghost var m := memory.Ram();
      res := ProcessMapMemory(p, task.pageDirectory, task.dir);
      TransitMap(abs, memory.heap.runs, LoadingRuns(l, img.size), m, memory.Ram(), TableBlocks(task.dir));
      ElfWordKept(m, memory.Ram(), l.elf, l.memory, TableBlocks(task.dir));
    }

    lemma InTransit(parts: Parts, size: Word)
      requires memory.Valid() && Transit(abs, memory.heap.runs, PartRunsOf(parts, size), memory.Ram())
      ensures memory.heap.runs == abs.runs + PartRunsOf(parts, size)
    {
      hide Backed, Partition, PartRunsOf;
    }

    lemma PartsInTransit(parts: Parts, size: Word)
      requires memory.Valid() && Transit(abs, memory.heap.runs, PartRunsOf(parts, size), memory.Ram())
      ensures parts.elf in memory.heap.runs
    {
      hide Backed, Partition;
    }

    lemma ListEnds()
      requires tasks.Valid()
      ensures tasks.list == [] ==> tasks.current == null
      ensures tasks.list != [] ==> tasks.current != null && tasks.current in tasks.list
    {
    }

    lemma NotListed(p: Process)
      requires TasksInTable(processes[..], tasks.list) && forall j :: 0 <= j < processes.Length ==> processes[j] != p
      ensures forall t :: t in tasks.list ==> t.process != p
    {
    }

    /** The error exit of process_load_for_slot after task_new. */
    method AbortLoad(task: Task, ghost l: Loading, ghost parts: Parts, ghost list: seq<Task>, ghost current: Task?,
        ghost res: int, ghost img: Image)
      requires memory.Valid() && Separate() && TableOk(processes[..], abs.procs)
      requires FocusOk(abs.focus, abs.halted) && Inv(abs)
      requires LoadCompleted(l, parts, task) && PartsDistinct(parts) && FreshLoading(abs.runs, l, img.size)
      requires FreeSlot(abs.procs, 0) >= 0
      requires Transit(abs, memory.heap.runs, LoadingRuns(l, img.size), memory.Ram())
      requires Installed(memory.Ram(), task.dir)
      requires tasks.Valid() && tasks.list == list + [task] && task !in list
      requires tasks.current == (if list == [] then task else current)
      requires (list == [] ==> current == null) && (list != [] ==> current != null && current in list)
      requires abs.ring == RingOf(list) && abs.current == TaskId(current) && TasksInTable(processes[..], list)
      requires l.stack < HEAP_BLOCKS && res < 0
      requires MapMemory(Identity(IS_PRESENT + ACCESS_FROM_ALL), l.memory, img.phdrs, Addr(l.stack)).1 == res
      modifies this`abs, memory.heap`runs, memory.heap.entries, tasks, tasks.list
      ensures Valid() && LoadsAs(old(abs), img, l, abs, res)
      ensures memory.heap.runs == old(abs).runs + PartRunsOf(parts, img.size)
    {
      hide TaskList.Valid, Heap.Valid, Inv, TableOk, TasksInTable, RingOf, FocusOk, Installed, MapMemory, Backed,
        FreshLoading, LoadingRuns, DirBlocks, PartRunsOf, LoadsAs, FreeAll, PagingBlocks, PartsDistinct, Extends,
        FreeSlot, TaskRing.Remove, TaskRing.CurrentAfter, Identity;
      ghost var k, r := abs, memory.heap.runs;
      AbortRuns(k, r, l, parts, img, memory.Ram());
      LastRemoved(list, task, current);
      TaskFree(task, l.task);
      Leak(PartRunsOf(parts, img.size));
      AbortIsLoad(k, l, parts, img, res);
    }

    /** The success exit of process_load_for_slot. */
    method EnterTable(p: Process, task: Task, ghost l: Loading, ghost parts: Parts, ghost list: seq<Task>,
        ghost current: Task?)
      requires memory.Valid() && Separate() && TableOk(processes[..], abs.procs)
      requires FocusOk(abs.focus, abs.halted) && Inv(abs) && !halted
      requires LoadCompleted(l, parts, task) && FreshLoading(abs.runs, l, p.elfFile.image.size) && l.stack < HEAP_BLOCKS
      requires p.id == FreeSlot(abs.procs, 0) && p.task == task && task.process == p
      requires p.allocations[..] == EmptyLedger()
      requires p.address == Addr(parts.record) && p.elfFile.address == Addr(parts.elf)
      requires p.elfFile.elfMemory == parts.memory && p.stack == Addr(parts.stack)
      requires forall j :: 0 <= j < processes.Length && processes[j] != null ==>
        processes[j].allocations != p.allocations
      requires Apart(p.allocations)
      requires Transit(abs, memory.heap.runs, LoadingRuns(l, p.elfFile.image.size), memory.Ram())
      requires Installed(memory.Ram(), task.dir) && ElfWord(memory.Ram(), l.elf, l.memory)
      requires tasks.Valid() && tasks.list == list + [task] && tasks.current == (if list == [] then task else current)
      requires abs.ring == RingOf(list) && abs.current == TaskId(current) && TasksInTable(processes[..], list)
      requires (Flat(memory.Ram(), task.dir), 0) == MapMemory(Identity(IS_PRESENT + ACCESS_FROM_ALL), l.memory,
        p.elfFile.image.phdrs, Addr(l.stack))
      modifies this`abs, processes
      ensures Valid() && LoadsAs(old(abs), p.elfFile.image, l, abs, 0) && InTable(p)
      ensures Occupied(abs, p.id) && abs.procs[p.id].value == NewProc(l, Flat(memory.Ram(), task.dir))
    {
      hide TaskList.Valid, Heap.Valid, Inv, TableOk, TasksInTable, RingOf, Installed, Flat, MapMemory, Backed,
        FreshLoading, LoadingRuns, Load, Identity, AllIsolated, InsideFile, NoneWritable, EmptyLedger;
      InstalledIsDistinct(memory.Ram(), task.dir);
      ghost var k, img, table, pages := abs, p.elfFile.image, processes[..], Flat(memory.Ram(), task.dir);
      LoadStep(k, img, l);
      LoadIs(k, img, l, pages);
      FreeSlotIsFree(k.procs);
      assert Tied(p, Some(NewProc(l, pages)), p.id);
      TableEntered(table, k.procs, p, NewProc(l, pages));
      TasksEntered(table, list, p);
      RingEntered(list, task);
      processes[p.id] := p;
      abs := Load(k, img, l).0;
      BackedEntered(k, abs, p.id, memory.Ram());
    }

    /** task_new: the task record, a page directory mapping every page to itself read-only,
        and a place at the tail of the list. */
    method TaskNew(p: Process, ghost extra: Runs) returns (task: Task, ghost tb: nat)
      requires memory.Valid() && Inv(abs) && Transit(abs, memory.heap.runs, extra, memory.Ram()) && tasks.Valid()
      requires |FreeBlocks(memory.heap.runs, HEAP_BLOCKS)| >= ENTRIES + 3
      requires forall t :: t in tasks.list ==> t.process != p
      modifies memory.heap`runs, memory.heap.entries, memory.ram, tasks, tasks.list
      ensures memory.Valid() && tasks.Valid() && fresh(task) && tasks.list == old(tasks.list) + [task]
      ensures tasks.current == if old(tasks.list) == [] then task else old(tasks.current)
      ensures task.process == p && task.address == Addr(tb) && task.pageDirectory == Addr(task.dir.chunk)
      ensures Installed(memory.Ram(), task.dir)
      ensures Flat(memory.Ram(), task.dir) == Identity(IS_PRESENT + ACCESS_FROM_ALL)
      ensures tb !in extra && tb < HEAP_BLOCKS && DirBlocks(task.dir) !! extra[tb := TASK_BLOCKS].Keys
      ensures Transit(abs, memory.heap.runs, extra[tb := TASK_BLOCKS] + Singles(DirBlocks(task.dir)), memory.Ram())
      ensures KeepsWords(old(memory.heap.runs), old(memory.Ram()), memory.Ram())
      ensures tb == FirstFit(old(memory.heap.runs), HEAP_BLOCKS, TASK_BLOCKS)
      ensures memory.heap.runs == Grown(old(memory.heap.runs), TASK_BLOCKS) + Singles(DirBlocks(task.dir))
    {
      hide KeepsWords, TaskList.Valid, Heap.Valid, Inv, Backed, Extends, Installed, Flat, DirBlocks, SameExcept,
        TaskRing.Distinct;
      HeapPartition();
      TakeOneMore(memory.heap.runs, Blocks(TASK_SIZE));
      var address;
      address, tb := AllocTransit(TASK_SIZE, extra);
      ghost var r, m := memory.heap.runs, memory.Ram();
      ghost var dir: Dir;
      var chunk: Word;
      chunk, dir := memory.New4gb(IS_PRESENT + ACCESS_FROM_ALL);
      HeapPartition();
      TransitPaging(abs, r, extra[tb := TASK_BLOCKS], m, memory.Ram(), dir);
      KeepsWordsApart(r, m, memory.Ram(), DirBlocks(dir));
      KeepsWordsTrans(old(memory.heap.runs), r, old(memory.Ram()), m, memory.Ram());
      task := new Task(address, chunk, p, dir);
      tasks.Append(task);
    }

    lemma HeapPartition()
      requires memory.Valid()
      ensures Partition(memory.heap.runs, HEAP_BLOCKS)
    {
    }

    lemma TakeOneMore(r: Runs, n: nat)
      requires Partition(r, HEAP_BLOCKS) && FreeBlocks(r, HEAP_BLOCKS) != {} && n == 1
      ensures Grants(r, n) && |FreeBlocks(Grown(r, n), HEAP_BLOCKS)| == |FreeBlocks(r, HEAP_BLOCKS)| - 1
    {
      TakeOne(r, HEAP_BLOCKS);
    }

    lemma TransitStarts(k: State, m: Mem)
      requires Inv(k) && Backed(k, m)
      ensures Transit(k, k.runs, map[], m)
    {
      assert k.runs + map[] == k.runs;
    }

    lemma CurrentFacts()
      requires Valid() && tasks.current != null
      ensures abs.current == Some(tasks.current.process.id) && abs.current.value in abs.ring
      ensures Occupied(abs, abs.current.value)
      ensures InTable(tasks.current.process) && tasks.current in tasks.list && abs.ring == RingOf(tasks.list)
      ensures TaskRing.Distinct(RingOf(tasks.list))
      ensures (!halted && ExitHarmless(abs, tasks.current.process.id) ==> Enabled(abs, OpExit))
    {
      hide ProcsOk, Accounted, TableOk, ExitHarmless;
      assert tasks.current in tasks.list;
    }

    lemma ExitFacts(k: State)
      requires Inv(k) && Enabled(k, OpExit)
      ensures var k1 := Terminate(k, k.current.value);
        && Inv(k1) && (k1.current.Some? ==> k1.current.value in k1.ring)
        && Step(k, OpExit) == if k1.halted then k1 else TaskNext(k1)
      ensures Inv(Step(k, OpExit))
    {
      hide Inv, Terminate, TaskNext, AllIsolated;
      InRing(k);
      TerminateStep(k, k.current.value);
      ExitStep(k);
    }
  }

  function SlotOf(slot: int): Option<nat> {
    if slot < 0 then None else Some(slot)
  }

  lemma NothingLoaded(k: State, img: Image)
    requires Inv(k) && FreeSlot(k.procs, 0) < 0
    ensures LoadsAs(k, img, NoRecord, k, FreeSlot(k.procs, 0)) && FreeSlot(k.procs, 0) != 0
  {
    hide Accounted, RingOk, ProcOk, LedgerMapped, FreeSlot;
    assert k.runs + map[] == k.runs;
  }

  ghost predicate LoadCompleted(l: Loading, parts: Parts, task: Task) {
    && l.Complete? && l == Complete(parts.record, parts.elf, parts.image, parts.memory, parts.stack, l.task, task.dir)
    && task.address == Addr(l.task) && task.pageDirectory == Addr(task.dir.chunk)
  }

  lemma CompleteRuns(parts: Parts, tb: nat, dir: Dir, size: Word)
    ensures LoadingRuns(Complete(parts.record, parts.elf, parts.image, parts.memory, parts.stack, tb, dir), size)
      == PartRunsOf(parts, size)[tb := TASK_BLOCKS] + Singles(DirBlocks(dir))
  {
  }

  lemma CompleteIsFresh(k: State, r: Runs, m: Mem, parts: Parts, tb: nat, dir: Dir, size: Word)
    requires PartsDistinct(parts) && tb !in PartRunsOf(parts, size)
    requires DirBlocks(dir) !! PartRunsOf(parts, size)[tb := TASK_BLOCKS].Keys
    requires DistinctDir(dir)
    requires Transit(k, r, LoadingRuns(Complete(parts.record, parts.elf, parts.image, parts.memory, parts.stack, tb,
      dir), size), m)
    ensures FreshLoading(k.runs, Complete(parts.record, parts.elf, parts.image, parts.memory, parts.stack, tb, dir),
      size)
    ensures parts.stack < HEAP_BLOCKS
  {
    hide DistinctDir, Backed, Partition, DirBlocks, LoadingRuns;
    assert PartRunsOf(parts, size)[tb := TASK_BLOCKS].Keys == {parts.record, parts.elf, parts.stack,
      tb} + ImageRun(parts.image);
  }

  lemma TaskTables(r: Runs, dir: Dir, l: Loading, size: Word)
    requires l.Complete? && l.dir == dir && FreshLoading(r, l, size)
    ensures TableBlocks(dir) <= LoadingRuns(l, size).Keys && l.elf !in TableBlocks(dir)
  {
    hide DistinctDir, Partition;
  }

  /** Giving the task and its page tables back leaves the four buffers in transit. */
  lemma AbortRuns(k: State, r: Runs, l: Loading, parts: Parts, img: Image, m: Mem)
    requires l.Complete?
    requires l == Complete(parts.record, parts.elf, parts.image, parts.memory, parts.stack, l.task, l.dir)
    requires FreshLoading(k.runs, l, img.size) && Transit(k, r, LoadingRuns(l, img.size), m)
    ensures l.task < HEAP_BLOCKS && l.task !in DirBlocks(l.dir) && DirBlocks(l.dir) + {l.task} <= r.Keys
    ensures Transit(k, r - (DirBlocks(l.dir) + {l.task}), PartRunsOf(parts, img.size), m)
    ensures r - (DirBlocks(l.dir) + {l.task}) == (k.runs + LoadingRuns(l, img.size)) - ({l.task} + DirBlocks(l.dir))
  {
    hide DistinctDir, Partition, Backed, DirBlocks, LoadingRuns, PartRunsOf;
    var back, extra := DirBlocks(l.dir) + {l.task}, LoadingRuns(l, img.size);
    CompleteParts(l, img.size);
    PartsLeft(l, parts, img.size);
    BackApart(k.runs, extra, back);
    PartitionSubset(r, HEAP_BLOCKS, back);
    RunInside(r, l.task, HEAP_BLOCKS);
  }

  /** What is left of a complete load's runs without the task and its page tables. */
  lemma PartsLeft(l: Loading, parts: Parts, size: Word)
    requires l.Complete?
    requires l == Complete(parts.record, parts.elf, parts.image, parts.memory, parts.stack, l.task, l.dir)
    requires DistinctParts(l.record, l.elf, l.image, l.stack, l.task, l.dir)
    ensures LoadingRuns(l, size) - (DirBlocks(l.dir) + {l.task}) == PartRunsOf(parts, size)
    ensures PartRunsOf(parts, size).Keys == {l.record, l.elf, l.stack} + ImageRun(l.image)
  {
    hide DistinctDir, DirBlocks;
  }

  lemma LastRemoved(list: seq<Task>, task: Task, current: Task?)
    requires task !in list && (list == [] ==> current == null) && (list != [] ==> current != null && current in list)
    ensures task in list + [task] && TaskRing.Remove<Task>(list + [task], task) == list
    ensures TaskRing.CurrentAfter<Task>(list + [task], if list == [] then task else current, task) == Cursor(current)
  {
    LastIndex(list, task);
  }

  lemma {:induction false} LastIndex(list: seq<Task>, task: Task)
    requires task !in list
    ensures TaskRing.IndexOf(list + [task], task) == |list|
  {
    if list != [] {
      assert (list + [task])[1..] == list[1..] + [task];
      LastIndex(list[1..], task);
    }
  }

  lemma AbortIsLoad(k: State, l: Loading, parts: Parts, img: Image, res: int)
    requires l.Complete?
    requires l == Complete(parts.record, parts.elf, parts.image, parts.memory, parts.stack, l.task, l.dir)
    requires FreshLoading(k.runs, l, img.size) && FreeSlot(k.procs, 0) >= 0 && res < 0
    requires l.stack < HEAP_BLOCKS
    requires MapMemory(Identity(IS_PRESENT + ACCESS_FROM_ALL), l.memory, img.phdrs, Addr(l.stack)).1 == res
    ensures LoadsAs(k, img, l, Leaked(k, PartRunsOf(parts, img.size)), res)
  {
    hide DistinctDir, Partition, DirBlocks, MapMemory, Identity, LoadingRuns, PartRunsOf, ImageRun;
    var back, extra := DirBlocks(l.dir) + {l.task}, LoadingRuns(l, img.size);
    CompleteParts(l, img.size);
    PartsLeft(l, parts, img.size);
    BackApart(k.runs, extra, back);
    assert {l.task} + DirBlocks(l.dir) == back;
    assert k.kernel + {l.record, l.elf, l.stack} + ImageRun(l.image) == k.kernel + PartRunsOf(parts, img.size).Keys;
  }

  lemma LoadIs(k: State, img: Image, l: Loading, pages: seq<Word>)
    requires l.Complete? && l.stack < HEAP_BLOCKS && FreeSlot(k.procs, 0) >= 0
    requires (pages, 0) == MapMemory(Identity(IS_PRESENT + ACCESS_FROM_ALL), l.memory, img.phdrs, Addr(l.stack))
    ensures var (k', res) := Load(k, img, l); var slot := FreeSlot(k.procs, 0);
      && res == 0 && k'.runs == k.runs + LoadingRuns(l, img.size)
        && k'.procs == k.procs[slot := Some(NewProc(l, pages))]
      && k'.ring == k.ring + [slot] && k'.current == (if k.ring == [] then Some(slot) else k.current)
      && k'.focus == k.focus && k'.halted == k.halted
  {
  }

  lemma FreeSlotIsFree(procs: seq<Option<Proc>>)
    ensures FreeSlot(procs, 0) >= 0 ==> FreeSlot(procs, 0) < |procs| && procs[FreeSlot(procs, 0)].None?
  {
  }

  lemma TableEntered(table: seq<Process?>, procs: seq<Option<Proc>>, p: Process, o: Proc)
    requires TableOk(table, procs) && p.id < |procs| && procs[p.id].None? && Tied(p, Some(o), p.id)
    requires forall j :: 0 <= j < |table| && table[j] != null ==> table[j].allocations != p.allocations
    ensures p.id < |table| && table[p.id] == null && TableOk(table[p.id := p], procs[p.id := Some(o)])
  {
    assert Tied(table[p.id], procs[p.id], p.id);
  }

  lemma TasksEntered(table: seq<Process?>, list: seq<Task>, p: Process)
    requires TasksInTable(table, list) && p.id < |table| && table[p.id] == null && p.task != null && p.task.process == p
    ensures TasksInTable(table[p.id := p], list + [p.task])
  {
  }

  lemma RingEntered(list: seq<Task>, task: Task)
    ensures RingOf(list + [task]) == RingOf(list) + [task.process.id]
    ensures RingOf(list) == [] <==> list == []
  {
  }

  lemma BackedEntered(k: State, k': State, slot: nat, m: Mem)
    requires Backed(k, m) && slot < |k.procs| && |k'.procs| == |k.procs| && k'.procs == k.procs[slot := k'.procs[slot]]
    requires k'.procs[slot].Some? && BackedProc(k'.procs[slot].value, m)
    ensures Backed(k', m)
  {
    hide BackedProc;
    forall j | Occupied(k', j) && j != slot ensures BackedProc(k'.procs[j].value, m) {
      assert Occupied(k, j);
    }
  }

  lemma SameBacking(k: State, k': State, m: Mem)
    requires Backed(k, m) && k'.procs == k.procs
    ensures Backed(k', m)
  {
    hide BackedProc;
    assert forall i :: Occupied(k', i) <==> Occupied(k, i);
  }

  ghost function FocusAfter(k: State, i: nat): Option<nat>
    requires i < |k.procs|
  {
    var any := AnyProcess(k.procs[i := None], 0);
    if k.focus == Some(i) && any.Some? then any else k.focus
  }

  ghost predicate HaltedAfter(k: State, i: nat)
    requires i < |k.procs|
  {
    k.focus == Some(i) && AnyProcess(k.procs[i := None], 0).None?
  }

  lemma TerminateIs(k: State, i: nat)
    requires Occupied(k, i) && i in k.ring && k.current.Some?
    ensures var k' := Terminate(k, i);
      && k'.procs == k.procs[i := None] && k'.focus == FocusAfter(k, i) && k'.halted == HaltedAfter(k, i)
      && k'.ring == TaskRing.Remove(k.ring, i) && k'.current == TaskRing.CurrentAfter(k.ring, k.current.value, i)
  {
  }

  /** Removing a task from the list removes its process from the ring. */
  lemma RingRemove(l: seq<Task>, t: Task, current: Task)
    requires t in l && current in l && TaskRing.Distinct(RingOf(l)) && TaskRing.Distinct(l)
    ensures t.process.id in RingOf(l)
    ensures RingOf(TaskRing.Remove(l, t)) == TaskRing.Remove(RingOf(l), t.process.id)
    ensures TaskRing.CurrentAfter(RingOf(l), current.process.id, t.process.id) ==
      match TaskRing.CurrentAfter(l, current, t) case None => None case Some(c) => Some(c.process.id)
  {
    var r, i, c := RingOf(l), TaskRing.IndexOf(l, t), TaskRing.IndexOf(l, current);
    TaskRing.IndexIs(r, i);
    TaskRing.IndexIs(r, c);
    assert r[i] == t.process.id && r[c] == current.process.id;
  }

  lemma RingNext(l: seq<Task>, t: Task)
    requires t in l && TaskRing.Distinct(RingOf(l))
    ensures t.process.id in RingOf(l) && TaskRing.Next(l, t).process.id == TaskRing.Next(RingOf(l), t.process.id)
  {
    var r, i := RingOf(l), TaskRing.IndexOf(l, t);
    TaskRing.IndexIs(r, i);
    assert r[i] == t.process.id;
  }

  /** Process i of k0 has given some of its ledger back, and nothing else has happened. */
  ghost predicate Clearing(k0: State, k: State, i: nat) {
    && Occupied(k0, i) && Occupied(k, i)
    && var (p0, p) := (k0.procs[i].value, k.procs[i].value);
      && p == p0.(ledger := p.ledger, pages := p.pages) && LedgerBlocks(p.ledger) <= LedgerBlocks(p0.ledger)
      && k == k0.(runs := k0.runs - (LedgerBlocks(p0.ledger) - LedgerBlocks(p.ledger)), procs := k0.procs[i := Some(p)])
  }

  /** Clearing the ledger first does not change where termination ends. */
  lemma TerminateSame(k0: State, k: State, i: nat)
    requires Inv(k0) && Inv(k) && Clearing(k0, k, i) && LedgerBlocks(k.procs[i].value.ledger) == {}
    ensures i in k.ring && k.current.Some? && i in k0.ring && k0.current.Some?
    ensures Terminate(k, i) == Terminate(k0, i)
  {
    hide LedgerBlocks, ProcsOk, Accounted, DirBlocks;
    var p0, p := k0.procs[i].value, k.procs[i].value;
    assert k.procs[i := None] == k0.procs[i := None];
    RecordNotInLedger(k0, i);
    assert Core(p) == Core(p0) && p.record in Core(p);
    assert k.runs - (Owned(p) - {p.record}) == k0.runs - (Owned(p0) - {p0.record});
  }

  lemma RecordNotInLedger(k: State, i: nat)
    requires Inv(k) && Occupied(k, i)
    ensures k.procs[i].value.record !in LedgerBlocks(k.procs[i].value.ledger)
  {
    assert k.procs[i].value.record in Core(k.procs[i].value);
  }

  lemma ClearingStarts(k: State, i: nat)
    requires Occupied(k, i)
    ensures Clearing(k, k, i)
  {
    hide LedgerBlocks;
    var l := LedgerBlocks(k.procs[i].value.ledger);
    assert l - l == {} && k.procs[i := k.procs[i]] == k.procs;
    assert k.runs - {} == k.runs;
  }

  /** The first n ledger entries are empty. */
  ghost predicate LedgerFrom(l: seq<Allocation>, n: nat) {
    |l| == MAX_ALLOCATIONS && n <= MAX_ALLOCATIONS && forall j :: 0 <= j < n ==> l[j].ptr == 0
  }

  lemma NothingLeft(l: seq<Allocation>)
    requires LedgerFrom(l, MAX_ALLOCATIONS)
    ensures LedgerBlocks(l) == {}
  {
  }

  /** Freeing the n-th entry clears it and keeps the cleared ones. */
  lemma ClearingStep(k0: State, k: State, i: nat, ptr: Word, n: nat)
    requires Inv(k) && Clearing(k0, k, i) && n < MAX_ALLOCATIONS
    requires LedgerFrom(k.procs[i].value.ledger, n) && ptr == k.procs[i].value.ledger[n].ptr
    ensures |k.procs[i].value.pages| == PAGES && Clearing(k0, Free(k, i, ptr), i)
    ensures Occupied(Free(k, i, ptr), i) && LedgerFrom(Free(k, i, ptr).procs[i].value.ledger, n + 1)
  {
    hide ProcOk, LedgerMapped, Isolated, Accounted, RingOk, FreeProc, Partition, LedgerBlocks;
    PageMapSize(k, i);
    var p := k.procs[i].value;
    NotFreed(p, ptr);
    if ptr != 0 {
      assert InLedger(p.ledger, ptr);
      FreeProcIs(k.runs, p, ptr);
      FreeLedgerOf(k, i, ptr);
      var p0, p', b := k0.procs[i].value, FreeProc(p, ptr).0, BlockAt(ptr);
      RunsLess(k0.runs, LedgerBlocks(p0.ledger), LedgerBlocks(p.ledger), b);
      assert LedgerBlocks(p'.ledger) == LedgerBlocks(p.ledger) - {b};
    }
  }

  lemma FreeLedgerOf(k: State, i: nat, ptr: Word)
    requires Inv(k) && Occupied(k, i) && InLedger(k.procs[i].value.ledger, ptr)
    ensures LedgerBlocks(Unjoin(k.procs[i].value.ledger, ptr)) == LedgerBlocks(k.procs[i].value.ledger) - {BlockAt(ptr)}
    ensures BlockAt(ptr) in LedgerBlocks(k.procs[i].value.ledger)
  {
    hide LedgerMapped, Isolated, Accounted, RingOk, DistinctParts, PartsLive, LedgerBlocks;
    FreeLedger(k.runs, k.procs[i].value.ledger, ptr);
    FreeProcIs(k.runs, k.procs[i].value, ptr);
  }

  lemma RunsLess(r: Runs, all: set<nat>, left: set<nat>, b: nat)
    requires left <= all && b in left
    ensures (r - (all - left)) - {b} == r - (all - (left - {b}))
  {
  }
}
