/** The kernel's memory and process state as a value, and one function per system
    operation: src/task/process.c and src/task/task.c over the live heap runs, each
    process's allocation ledger and each process's flat page map. Allocations are
    parameters, so the invariants hold whatever fresh blocks the allocator picks. */
module System {
  import opened Machine
  import opened HeapRuns
  import opened Heap
  import opened PageTables
  import opened TaskRing
  import opened Elf

  datatype Allocation = Allocation(ptr: Word, size: Word)

  const NO_ALLOCATION := Allocation(0, 0)

  // Blocks of the fixed-size records: 9364, 132, 64 and 16384 bytes.
  const PROCESS_BLOCKS := 3
  const ELF_FILE_BLOCKS := 1
  const TASK_BLOCKS := 1
  const STACK_BLOCKS := 4

  /** One process: the first blocks of the runs it was given at load time, its ledger of
      malloc'd memory and its page map. elf is the run process->elf_file points to, memory
      the elf_memory word the load finds there. A file that passed ELF validation has its
      bytes in the run image, and memory is their address. One that did not has image None:
      elf then holds its raw bytes (process.h:50-55 keeps both pointers in one union, and the
      file type stays that of ELF), and memory is whatever stands at byte 112 of them.
      Backing says that the word is still in memory. */
  datatype Proc = Proc(
    record: nat, elf: nat, image: Option<nat>, memory: Word, stack: nat, task: nat, dir: Dir,
    ledger: seq<Allocation>, pages: seq<Word>)

  /** procs is the 12-slot process table, ring the task list (a task is named by its
      process slot), focus is current_process, and kernel collects the runs no process
      owns, leaked ones included. */
  datatype State = State(
    runs: Runs, kernel: set<nat>, procs: seq<Option<Proc>>,
    ring: seq<nat>, current: Option<nat>, focus: Option<nat>, halted: bool)

  ghost predicate Occupied(k: State, i: int) {
    0 <= i < |k.procs| && k.procs[i].Some?
  }

  // --- The ledger ---------------------------------------------------------------

  ghost predicate InLedger(l: seq<Allocation>, ptr: nat) {
    ptr != 0 && exists i :: 0 <= i < |l| && l[i].ptr == ptr
  }

  ghost function LedgerBlocks(l: seq<Allocation>): set<nat> {
    set b: nat | b < HEAP_BLOCKS && InLedger(l, Addr(b))
  }

  /** Index of the first entry with this pointer, or -1. */
  ghost function FindPtr(l: seq<Allocation>, ptr: Word): (i: int)
    ensures -1 <= i < |l|
    ensures i >= 0 ==> l[i].ptr == ptr
    ensures forall j :: 0 <= j < (if i < 0 then |l| else i) ==> l[j].ptr != ptr
  {
    FindPtrFrom(l, ptr, 0)
  }

  ghost function FindPtrFrom(l: seq<Allocation>, ptr: Word, n: nat): (i: int)
    requires n <= |l|
    ensures i == -1 || n <= i < |l|
    ensures i >= 0 ==> l[i].ptr == ptr
    ensures forall j :: n <= j < (if i < 0 then |l| else i) ==> l[j].ptr != ptr
    decreases |l| - n
  {
    if n == |l| then -1 else if l[n].ptr == ptr then n else FindPtrFrom(l, ptr, n + 1)
  }

  /** process_allocation_unjoin */
  ghost function Unjoin(l: seq<Allocation>, ptr: Word): (r: seq<Allocation>)
    ensures |r| == |l|
  {
    seq(|l|, i requires 0 <= i < |l| => if l[i].ptr == ptr then NO_ALLOCATION else l[i])
  }

  // --- Operations on one process --------------------------------------------------

  /** process_malloc, given the run the heap offers (or -1). */
  ghost function MallocProc(p: Proc, size: Word, fit: int): (r: (Proc, Word))
    requires |p.pages| == PAGES && (fit == -1 || 0 <= fit < HEAP_BLOCKS)
  {
    if fit == -1 then (p, 0)
    else
      var ptr := Addr(fit);
      var index := FindPtr(p.ledger, 0);
      if index < 0 then (p, 0)
      else
        var (pages, res) := MapTo(p.pages, ptr, ptr, AlignAddress(Wrap(ptr + size)), USER_RW);
        if res < 0 then (p, 0)
        else (p.(ledger := p.ledger[index := Allocation(ptr, size)], pages := pages), ptr)
  }

  /** process_free with process.c:306 and the null pointer repaired: unmap, unjoin. The
      result says whether the memory goes back to the heap. */
  ghost function FreeProc(p: Proc, ptr: Word): (r: (Proc, bool))
    requires |p.pages| == PAGES
  {
    if !InLedger(p.ledger, ptr) then (p, false)
    else
      var a := p.ledger[FindPtr(p.ledger, ptr)];
      var (pages, res) := MapTo(p.pages, a.ptr, a.ptr, AlignAddress(Wrap(a.ptr + a.size)), 0);
      if res < 0 then (p, false)
      else (p.(ledger := Unjoin(p.ledger, ptr), pages := pages), true)
  }

  /** process_free as written, for a non-null pointer: the ledger record is cleared before
      it is used, so the unmapping covers no page. */
  ghost function FreeProcAsWritten(p: Proc, ptr: Word): (r: (Proc, bool))
    requires |p.pages| == PAGES
  {
    if !InLedger(p.ledger, ptr) then (p, false)
    else
      var (pages, res) := MapTo(p.pages, 0, 0, AlignAddress(0), 0);
      if res < 0 then (p, false)
      else (p.(ledger := Unjoin(p.ledger, ptr), pages := pages), true)
  }

  /** The block whose address is ptr, for ptr in the heap. */
  function BlockAt(ptr: Word): (b: nat)
    ensures forall c :: ptr == Addr(c) ==> b == c
  {
    if ptr < HEAP_ADDRESS then 0 else (ptr - HEAP_ADDRESS) / PAGE_SIZE
  }

  // --- Operations on the kernel ----------------------------------------------------

  ghost function Malloc(k: State, i: nat, size: Word, fit: int): (r: (State, Word))
    requires Occupied(k, i) && |k.procs[i].value.pages| == PAGES && (fit == -1 || 0 <= fit < HEAP_BLOCKS)
  {
    var (p, ptr) := MallocProc(k.procs[i].value, size, fit);
    if ptr == 0 then (k, 0)
    else (k.(runs := k.runs[fit := Blocks(size)], procs := k.procs[i := Some(p)]), ptr)
  }

  ghost function Free(k: State, i: nat, ptr: Word): State
    requires Occupied(k, i) && |k.procs[i].value.pages| == PAGES
  {
    var (p, freed) := FreeProc(k.procs[i].value, ptr);
    if freed then k.(runs := k.runs - {BlockAt(ptr)}, procs := k.procs[i := Some(p)]) else k
  }

  ghost function FreeAsWritten(k: State, i: nat, ptr: Word): State
    requires Occupied(k, i) && |k.procs[i].value.pages| == PAGES
  {
    var (p, freed) := FreeProcAsWritten(k.procs[i].value, ptr);
    if freed then k.(runs := k.runs - {BlockAt(ptr)}, procs := k.procs[i := Some(p)]) else k
  }

  /** A program file: its length, and the program headers the kernel finds for it. They are
      the file's own only if the file passed validation. */
  datatype Image = Image(size: Word, phdrs: seq<Phdr>)

  /** How far process_load_for_slot got, with the runs its allocations made. A load that
      fails before the stack is allocated ends with -error. */
  datatype Loading =
    | NoRecord
    | NoFile(record: nat, elf: nat)
    | NoData(record: nat, error: int)
    | NoStack(record: nat, elf: nat, image: Option<nat>, error: int)
    | Complete(record: nat, elf: nat, image: Option<nat>, memory: Word, stack: nat, task: nat, dir: Dir)
    | Raw(spareElf: nat, spareImage: nat, rest: Loading)

  ghost function ImageRun(image: Option<nat>): set<nat> {
    if image.Some? then {image.value} else {}
  }

  /** The runs of a program's record, its struct elf_file and, if validated, its bytes. */
  ghost function ProgramRuns(record: nat, elf: nat, image: Option<nat>, size: Word): Runs {
    if image.Some? then map[record := PROCESS_BLOCKS, elf := ELF_FILE_BLOCKS, image.value := Blocks(size)]
    else map[record := PROCESS_BLOCKS, elf := Blocks(size)]
  }

  /** What elf_load leaves behind when the file fails validation. */
  ghost function SpareRuns(elf: nat, image: nat, size: Word): Runs {
    map[elf := ELF_FILE_BLOCKS, image := Blocks(size)]
  }

  ghost function LoadingRuns(l: Loading, size: Word): Runs {
    match l
    case NoRecord => map[]
    case NoFile(record, elf) => map[record := PROCESS_BLOCKS, elf := ELF_FILE_BLOCKS]
    case NoData(record, _) => map[record := PROCESS_BLOCKS]
    case NoStack(record, elf, image, _) => ProgramRuns(record, elf, image, size)
    case Complete(record, elf, image, _, stack, task, dir) =>
      ProgramRuns(record, elf, image, size) + map[stack := STACK_BLOCKS, task := TASK_BLOCKS] + Singles(DirBlocks(dir))
    case Raw(elf, image, rest) => SpareRuns(elf, image, size) + LoadingRuns(rest, size)
  }

  /** The allocations are pairwise different fresh runs. */
  ghost predicate FreshLoading(r: Runs, l: Loading, size: Word)
    decreases l
  {
    && Extends(r, LoadingRuns(l, size), HEAP_BLOCKS)
    && match l
       case NoRecord => true
       case NoFile(record, elf) => record != elf
       case NoData(_, error) => error > 0
       case NoStack(record, elf, image, error) => error > 0 && record != elf && ImageRun(image) !! {record, elf}
       case Complete(record, elf, image, memory, stack, task, dir) =>
         DistinctParts(record, elf, image, stack, task, dir) && MemoryIs(image, memory)
       case Raw(elf, image, rest) =>
         && elf != image && Extends(r, SpareRuns(elf, image, size), HEAP_BLOCKS)
         && FreshLoading(r + SpareRuns(elf, image, size), rest, size)
  }

  /** elf_memory is set by elf_load only. */
  ghost predicate MemoryIs(image: Option<nat>, memory: Word) {
    image.Some? ==> image.value < HEAP_BLOCKS && memory == Addr(image.value)
  }

  ghost predicate DistinctParts(record: nat, elf: nat, image: Option<nat>, stack: nat, task: nat, dir: Dir) {
    && DistinctDir(dir) && {record, elf, stack, task} !! DirBlocks(dir)
    && record != elf && record != stack && record != task && elf != stack && elf != task && stack != task
    && ImageRun(image) !! {record, elf, stack, task} + DirBlocks(dir)
  }

  ghost function EmptyLedger(): seq<Allocation> {
    seq(MAX_ALLOCATIONS, _ => NO_ALLOCATION)
  }

  /** process_get_free_slot */
  ghost function FreeSlot(procs: seq<Option<Proc>>, i: nat): (s: int)
    requires i <= |procs|
    ensures s == -EISTKN || (i <= s < |procs| && procs[s].None?)
    ensures forall j :: i <= j < (if s < 0 then |procs| else s) ==> procs[j].Some?
    decreases |procs| - i
  {
    if i == |procs| then -EISTKN else if procs[i].None? then i else FreeSlot(procs, i + 1)
  }

  /** What fails to become a process becomes the kernel's: nobody frees it. */
  ghost function Leaked(k: State, extra: Runs): State {
    k.(runs := k.runs + extra, kernel := k.kernel + extra.Keys)
  }

  /** process_load: a new process in the lowest free slot, its task at the tail of the
      list; on every error path what was allocated stays behind. */
  ghost function Load(k: State, img: Image, l: Loading): (r: (State, int))
    requires LoadInHeap(l)
    decreases l
  {
    var slot := FreeSlot(k.procs, 0);
    if slot < 0 then (k, slot)
    else
      var leak := Leaked(k, LoadingRuns(l, img.size));
      match l
      case NoRecord => (k, -ENOMEM)
      case NoFile(_, _) => (leak, -EIO)
      case NoData(_, error) => (leak, -error)
      case NoStack(_, _, _, error) => (leak, -error)
      case Complete(record, elf, image, memory, stack, task, dir) =>
        var (pages, res) := MapMemory(Identity(IS_PRESENT + ACCESS_FROM_ALL), memory, img.phdrs, Addr(stack));
        if res < 0 then
          (k.(runs := leak.runs - ({task} + DirBlocks(dir)), kernel := k.kernel + {record, elf,
            stack} + ImageRun(image)), res)
        else
          var p := Proc(record, elf, image, memory, stack, task, dir, EmptyLedger(), pages);
          (k.(runs := leak.runs,
              procs := k.procs[slot := Some(p)],
              ring := k.ring + [slot],
              current := if k.ring == [] then Some(slot) else k.current),
           0)
      case Raw(elf, image, rest) => Load(Leaked(k, SpareRuns(elf, image, img.size)), img, rest)
  }

  /** The stack's address is a word. */
  ghost predicate LoadInHeap(l: Loading) {
    match l
    case Complete(_, _, _, _, stack, _, _) => stack < HEAP_BLOCKS
    case Raw(_, _, rest) => LoadInHeap(rest)
    case _ => true
  }

  ghost function Core(p: Proc): set<nat> {
    {p.record, p.elf, p.stack, p.task} + ImageRun(p.image) + DirBlocks(p.dir)
  }

  /** First blocks of every run the process owns. */
  ghost function Owned(p: Proc): set<nat> {
    Core(p) + LedgerBlocks(p.ledger)
  }

  /** Lowest occupied slot: process_switch_to_any. */
  ghost function AnyProcess(procs: seq<Option<Proc>>, i: nat): (r: Option<nat>)
    requires i <= |procs|
    ensures r.Some? ==>
      i <= r.value < |procs| && procs[r.value].Some? && forall j :: i <= j < r.value ==> procs[j].None?
    ensures r.None? ==> forall j :: i <= j < |procs| ==> procs[j].None?
    decreases |procs| - i
  {
    if i == |procs| then None else if procs[i].Some? then Some(i) else AnyProcess(procs, i + 1)
  }

  /** The block heap_free works from for an address. */
  function FreedBlock(address: Word): int {
    BlockOf(HEAP_ADDRESS, address)
  }

  /** The kfree of this word on termination touches nothing in front of the heap's table and
      no block of a run that is to survive. */
  ghost predicate CloseHarmless(r: Runs, word: Word) {
    FreedBlock(word) >= 0 && !InSomeRun(r, FreedBlock(word))
  }

  /** process_terminate: all runs of the process are freed except its record, which the
      source never frees. With no process left to take the keyboard, the kernel panics. */
  ghost function Terminate(k: State, i: nat): State
    requires Occupied(k, i) && i in k.ring && k.current.Some?
  {
    var p := k.procs[i].value;
    var procs := k.procs[i := None];
    var any := AnyProcess(procs, 0);
    k.(runs := k.runs - (Owned(p) - {p.record}),
       kernel := k.kernel + {p.record},
       procs := procs,
       ring := Remove(k.ring, i),
       current := CurrentAfter(k.ring, k.current.value, i),
       focus := if k.focus == Some(i) && any.Some? then any else k.focus,
       halted := k.focus == Some(i) && any.None?)
  }

  /** task_next: the timer, and the tail of exit and exception. */
  ghost function TaskNext(k: State): State
    requires k.current.Some? ==> k.current.value in k.ring
  {
    if k.current.None? then k.(halted := true) else k.(current := Some(Next(k.ring, k.current.value)))
  }

  // --- Runs of the kernel ------------------------------------------------------------

  datatype Op =
    | OpLoad(img: Image, loading: Loading)
    | OpMalloc(slot: nat, size: Word, fit: int)
    | OpFree(slot: nat, ptr: Word)
    | OpExit
    | OpTick
    | OpFocus(slot: nat)
    | OpRunTask(slot: nat)
    | OpKernelAlloc(block: nat, n: nat)
    | OpKernelFree(block: nat)

  /** What the operation may assume when it starts: the kernel is running, the process it
      names exists and the blocks it is given are free. */
  ghost predicate Enabled(k: State, op: Op) {
    && !k.halted
    && match op
       case OpLoad(img, l) => FreshLoading(k.runs, l, img.size)
       case OpMalloc(i, size, fit) => Occupied(k, i) && (fit == -1 || FitsAt(k.runs, fit, Blocks(size)))
       case OpFree(i, _) => Occupied(k, i)
       case OpExit => k.current.Some? && ExitHarmless(k, k.current.value)
       case OpTick => k.current.Some?
       case OpFocus(i) => Occupied(k, i)
       case OpRunTask(i) => Occupied(k, i)
       case OpKernelAlloc(b, n) => FitsAt(k.runs, b, n)
       case OpKernelFree(b) => b in k.kernel
  }

  /** Terminating process i does what Terminate says: Closing.ExitFreesExactlyIff. For a
      file that passed ELF validation it always does. */
  ghost predicate ExitHarmless(k: State, i: nat) {
    Occupied(k, i) && i in k.ring && k.current.Some? ==>
      CloseHarmless(Terminate(k, i).runs, k.procs[i].value.memory)
  }

  ghost predicate FitsAt(r: Runs, b: int, n: nat) {
    n > 0 && 0 <= b && b + n <= HEAP_BLOCKS && FreeAt(r, b, n)
  }
}
