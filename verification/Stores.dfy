/** Stores by the programs themselves, between the kernel's operations. Isolation is what
    keeps them away from page tables and records, and so makes runs of the kernel runs of the
    machine; a program that is not isolated can change what its own end frees. */
module Stores {
  import opened Machine
  import opened HeapRuns
  import opened PageTables
  import opened Elf
  import opened System
  import opened Invariants
  import opened LoadedPages
  import opened Preservation
  import opened Isolation
  import opened LoadIsolation
  import opened Backing
  import opened Freeing
  import opened Closing

  // --- One store --------------------------------------------------------------------------------

  /** The heap block behind the page of va. */
  ghost function BlockBehind(p: Proc, va: Word): int
    requires |p.pages| == PAGES
  {
    FrameOf(p.pages[va / PAGE_SIZE]) - HEAP_FRAME
  }

  /** Physical memory after process p has stored val at its address va. */
  ghost function AfterStore(m: Mem, p: Proc, va: Word, val: Word): Mem
    requires |p.pages| == PAGES
  {
    Stored(m, Translate(p.pages, va), val)
  }

  /** Process i may store at va, and what it writes there is its own. */
  ghost predicate OwnStore(k: State, i: nat, va: Word)
    requires Occupied(k, i) && |k.procs[i].value.pages| == PAGES
  {
    var p := k.procs[i].value;
    Writable(p.pages[va / PAGE_SIZE]) && InOwn(k.runs, p, BlockBehind(p, va))
  }

  lemma StoreHitsBlock(m: Mem, p: Proc, va: Word, val: Word)
    requires |p.pages| == PAGES
    ensures Translate(p.pages, va) / PAGE_SIZE == HEAP_FRAME + BlockBehind(p, va)
    ensures forall f :: 0 <= f < PAGES && f != HEAP_FRAME + BlockBehind(p, va) ==> AfterStore(m, p, va, val)[f] == m[f]
  {
  }

  /** A store into the process's own memory changes one block of one of its user runs. No page
      table, directory or struct elf_file of any process changes, and no byte of any run but
      those user runs: no process or task record, nothing of the kernel's, and nothing of
      another process. */
  lemma StoreKeeps(k: State, m: Mem, i: nat, va: Word, val: Word)
    requires Inv(k) && Backed(k, m) && Occupied(k, i) && |k.procs[i].value.pages| == PAGES && OwnStore(k, i, va)
    ensures var m' := AfterStore(m, k.procs[i].value, va, val);
      && Backed(k, m')
      && forall b: nat, c :: b !in UserRuns(k.procs[i].value) && Covers(k.runs, b, c) && 0 <= HEAP_FRAME + c < PAGES ==>
        m'[HEAP_FRAME + c] == m[HEAP_FRAME + c]
  {
    hide Inv, Backed, Covers, InOwn, UserRuns, OwnedBy, Writable, DirBlocks;
    var p := k.procs[i].value;
    var m', x := AfterStore(m, p, va, val), BlockBehind(p, va);
    StoreHitsBlock(m, p, va, val);
    var a := OwnRunAround(k, i, x);
    InItsRun(k, m, m', a, x);
    BackedInRun(k, m, m', i, a);
    forall b: nat, c | b !in UserRuns(p) && Covers(k.runs, b, c) && 0 <= HEAP_FRAME + c < PAGES
      ensures m'[HEAP_FRAME + c] == m[HEAP_FRAME + c]
    {
      CoversOnce(k, a, b, x, c);
    }
  }

  lemma InItsRun(k: State, m: Mem, m': Mem, a: nat, x: int)
    requires Covers(k.runs, a, x) && forall f :: 0 <= f < PAGES && f != HEAP_FRAME + x ==> m'[f] == m[f]
    ensures a in k.runs && SameExcept(m, m', RunBlocks(a, k.runs[a]))
  {
    assert InRange(x, a, k.runs[a]);
  }

  lemma CoversOnce(k: State, a: nat, b: nat, x: int, c: int)
    requires Inv(k) && Covers(k.runs, a, x) && Covers(k.runs, b, c) && a != b
    ensures x != c
  {
    if x == c { OneCover(k.runs, a, b, c); }
  }

  /** What isolation is for: in an isolated state every store a page map admits is such a
      store. */
  lemma IsolatedStores(k: State, i: nat, va: Word)
    requires Inv(k) && AllIsolated(k) && Occupied(k, i)
    ensures |k.procs[i].value.pages| == PAGES
    ensures Writable(k.procs[i].value.pages[va / PAGE_SIZE]) ==> OwnStore(k, i, va)
  {
    hide ProcOk, LedgerMapped, Accounted, RingOk, Writable, InMalloced, Covers;
    PageMapSize(k, i);
    assert Isolated(k.runs, k.procs[i].value);
  }

  // --- Runs with stores in between ------------------------------------------------------------------

  /** A step of the machine: the kernel carries out an operation and leaves memory so, or a
      process stores a word. */
  datatype Move = ByKernel(op: Op, after: Mem) | ByProcess(slot: nat, va: Word, val: Word)

  /** What a move may assume. The kernel's code, started on memory that carries its state,
      ends on memory that does: that is what the methods of Kernel are proved to do. A process
      may store wherever its page map lets it. */
  ghost predicate Admits(k: State, m: Mem, move: Move)
    requires Inv(k)
  {
    match move
    case ByKernel(op, after) => Enabled(k, op) && (Backed(k, m) ==> Backed(Step(k, op), after))
    case ByProcess(i, va, _) =>
      Occupied(k, i) && (PageMapSize(k, i); Writable(k.procs[i].value.pages[va / PAGE_SIZE]))
  }

  ghost function Next(k: State, m: Mem, move: Move): (r: (State, Mem))
    requires Inv(k) && Admits(k, m, move)
    ensures Inv(r.0)
  {
    match move
    case ByKernel(op, after) => StepKeeps(k, op); (Step(k, op), after)
    case ByProcess(i, va, val) => PageMapSize(k, i); (k, AfterStore(m, k.procs[i].value, va, val))
  }

  ghost predicate CanMove(k: State, m: Mem, moves: seq<Move>)
    requires Inv(k)
    decreases |moves|
  {
    moves == [] || (Admits(k, m, moves[0]) &&
      var (k1, m1) := Next(k, m, moves[0]); CanMove(k1, m1, moves[1..]))
  }

  ghost function RunMoves(k: State, m: Mem, moves: seq<Move>): (r: (State, Mem))
    requires Inv(k) && CanMove(k, m, moves)
    ensures Inv(r.0)
    decreases |moves|
  {
    if moves == [] then (k, m)
    else var (k1, m1) := Next(k, m, moves[0]); RunMoves(k1, m1, moves[1..])
  }

  /** Every store of the run is into the storing process's own memory. */
  ghost predicate AllOwn(k: State, m: Mem, moves: seq<Move>)
    requires Inv(k) && CanMove(k, m, moves)
    decreases |moves|
  {
    moves == [] || (OwnMove(k, m, moves[0]) &&
      var (k1, m1) := Next(k, m, moves[0]); AllOwn(k1, m1, moves[1..]))
  }

  ghost predicate OwnMove(k: State, m: Mem, move: Move)
    requires Inv(k) && Admits(k, m, move)
  {
    move.ByProcess? ==> (PageMapSize(k, move.slot); OwnStore(k, move.slot, move.va))
  }

  ghost predicate SafeMoves(moves: seq<Move>) {
    forall move :: move in moves && move.ByKernel? ==> Safe(move.op)
  }

  /** Over any run of operations and stores, of any files: if no process stores outside its
      own memory, then the page tables, directories and struct elf_files in memory are at the
      end what the state says, so that the accounting of the state is that of the machine. */
  lemma {:induction false} OwnStoresKeep(k: State, m: Mem, moves: seq<Move>)
    requires Inv(k) && Backed(k, m) && CanMove(k, m, moves) && AllOwn(k, m, moves)
    ensures var (k', m') := RunMoves(k, m, moves); Inv(k') && Backed(k', m')
    decreases |moves|
  {
    hide Inv, Backed, Step, Enabled, OwnStore, Writable, AfterStore;
    if moves != [] {
      var (k1, m1) := Next(k, m, moves[0]);
      match moves[0] {
        case ByKernel(_, _) =>
        case ByProcess(i, va, val) =>
          PageMapOf(k, i);
          StoreKeeps(k, m, i, va, val);
      }
      OwnStoresKeep(k1, m1, moves[1..]);
    }
  }

  lemma PageMapOf(k: State, i: nat)
    requires Inv(k) && Occupied(k, i)
    ensures |k.procs[i].value.pages| == PAGES
  {
    PageMapSize(k, i);
  }

  /** And if every loaded file's writable pages are its own, that is so whatever the programs
      do: they have no other store to make. */
  lemma {:induction false} EveryRunWithStores(k: State, m: Mem, moves: seq<Move>)
    requires Inv(k) && Backed(k, m) && AllIsolated(k) && CanMove(k, m, moves) && SafeMoves(moves)
    ensures AllOwn(k, m, moves)
    ensures var (k', m') := RunMoves(k, m, moves); Inv(k') && Backed(k', m') && AllIsolated(k')
    decreases |moves|
  {
    hide Inv, Backed, Step, Enabled, OwnStore, Writable, AfterStore, AllIsolated, Safe;
    if moves != [] {
      var (k1, m1) := Next(k, m, moves[0]);
      match moves[0] {
        case ByKernel(op, _) =>
          StepKeeps(k, op);
        case ByProcess(i, va, val) =>
          PageMapOf(k, i);
          IsolatedStores(k, i, va);
          StoreKeeps(k, m, i, va, val);
      }
      EveryRunWithStores(k1, m1, moves[1..]);
    }
  }

  // --- What an exit finds -----------------------------------------------------------------------------

  /** At the end of such a run the word found in the struct elf_file is the one the load put
      there, so a process whose file passed ELF validation frees exactly what is its own. */
  lemma ExitAfterStores(k: State, m: Mem, i: nat, s: seq<Tag>, calls: seq<int>)
    requires Inv(k) && Backed(k, m) && Occupied(k, i) && i in k.ring && k.current.Some?
    requires k.procs[i].value.image.Some? && k.procs[i].value.elf < HEAP_BLOCKS
    requires KfreesOf(k.procs[i].value, Cell(m, Addr(k.procs[i].value.elf) + ELF_MEMORY), calls)
    requires Encoded(s, k.runs) && |s| == HEAP_BLOCKS
    ensures NoneNegative(calls) && Encoded(FreeAll(s, Nats(calls)), Terminate(k, i).runs)
  {
    hide Inv, Encoded, FreeAll, Terminate, KfreesOf, CloseHarmless, NoneNegative, Installed, Flat;
    var p := k.procs[i].value;
    assert BackedProc(p, m);
    ExitFreesExactlyIff(k, i, s, p.memory, calls);
  }

  /** The failing store: a process that can write its own struct elf_file puts the address of
      somebody else's run there, and its end frees that run. */
  lemma StoreFreesOthers(k: State, m: Mem, i: nat, va: Word, b: nat, s: seq<Tag>, calls: seq<int>)
    requires b < HEAP_BLOCKS && Inv(k) && Occupied(k, i) && i in k.ring && k.current.Some?
    requires b in k.runs && b !in OwnedBy(k, i) && |k.procs[i].value.pages| == PAGES
    requires k.procs[i].value.elf < HEAP_BLOCKS
    requires Translate(k.procs[i].value.pages, va) == Addr(k.procs[i].value.elf) + ELF_MEMORY
    requires Encoded(s, k.runs) && |s| == HEAP_BLOCKS && NoneNegative(calls)
    requires var m' := AfterStore(m, k.procs[i].value, va, Addr(b));
      KfreesOf(k.procs[i].value, Cell(m', Addr(k.procs[i].value.elf) + ELF_MEMORY), calls)
    ensures FreeAll(s, Nats(calls))[b] == FREE && InSomeRun(Terminate(k, i).runs, b)
  {
    hide Inv, Encoded, FreeAll, Terminate, KfreesOf, OwnedBy, NoneNegative, Translate, InSomeRun, Stored, Cell;
    var word: Word := Addr(k.procs[i].value.elf) + ELF_MEMORY;
    CellStored(m, word, Addr(b), word);
    ExitFreesOthers(k, i, s, calls, b);
  }

  /** Such a run from the start, with a file that passes ELF validation: load it on the empty
      heap and allocate one block for the kernel. The process may store at 0x400070, which is
      the word elf_memory of its own struct elf_file, whatever block the kernel has. */
  lemma NegativeOffsetRun(c: nat) returns (k: State)
    requires 1036 <= c < HEAP_BLOCKS
    ensures var ops := [OpLoad(FirstLoad(NEGATIVE_OFFSET).0, FirstLoad(NEGATIVE_OFFSET).1), OpKernelAlloc(c, 1)];
      Inv(Boot()) && CanRun(Boot(), ops) && k == RunOps(Boot(), ops)
    ensures Inv(k) && Occupied(k, 0) && 0 in k.ring && k.current.Some? && k.procs[0].value.image.Some?
    ensures c in k.runs && c !in OwnedBy(k, 0)
    ensures var p := k.procs[0].value;
      && p.elf < HEAP_BLOCKS && |p.pages| == PAGES
      && Writable(p.pages[0x400]) && Translate(p.pages, 0x40_0000 + ELF_MEMORY) == Addr(p.elf) + ELF_MEMORY
  {
    hide Inv, FreshLoading, LoadingRuns, MapMemory, Isolated, OwnedBy, FirstLoad, Writable, StaysInside, CanWrite,
      Enabled, Step, Maps;
    BootOk();
    var (img, l, pages) := FirstLoad(NEGATIVE_OFFSET);
    NegativeOffsetWritesElf();
    var load, alloc := OpLoad(img, l), OpKernelAlloc(c, 1);
    FirstLoaded(img, l, pages);
    var k1 := Step(Boot(), load);
    StepKeeps(Boot(), load);
    FreeBehind(NEGATIVE_OFFSET, k1, c);
    k := Step(k1, alloc);
    StepKeeps(k1, alloc);
    TwoSteps(Boot(), load, alloc);
    OthersBlock(k1, k, c);
    FirstIs(NEGATIVE_OFFSET);
    ByteBehind(pages, l.elf);
  }

  lemma FirstLoaded(img: Image, l: Loading, pages: seq<Word>)
    requires Inv(Boot()) && Maps(map[], img, l, pages)
    ensures Enabled(Boot(), OpLoad(img, l))
    ensures Step(Boot(), OpLoad(img, l)) == Boot().(runs := LoadingRuns(l, img.size),
      procs := Boot().procs[0 := Some(NewProc(l, pages))], ring := [0], current := Some(0))
  {
    hide Inv, FreshLoading, LoadingRuns, MapMemory;
    assert FreeSlot(Boot().procs, 0) == 0;
    assert map[] + LoadingRuns(l, img.size) == LoadingRuns(l, img.size);
  }

  lemma FirstIs(ph: Phdr)
    ensures FirstLoad(ph).0.size == PAGE_SIZE && FirstLoad(ph).1.image.Some? && FirstLoad(ph).1.elf == 3
  {
    hide Loaded, DirAt;
  }

  lemma FreeBehind(ph: Phdr, k: State, c: nat)
    requires 1036 <= c < HEAP_BLOCKS && k.runs == LoadingRuns(FirstLoad(ph).1, FirstLoad(ph).0.size) && !k.halted
    ensures Enabled(k, OpKernelAlloc(c, 1)) && c !in k.runs
  {
    hide LoadingRuns, FirstLoad;
    FirstIs(ph);
    forall a: nat | a in k.runs ensures a + k.runs[a] <= c {
      FirstEnds(ph, a);
    }
    if c in k.runs { FirstEnds(ph, c); }
  }

  lemma OthersBlock(k: State, k': State, c: nat)
    requires Inv(k) && Enabled(k, OpKernelAlloc(c, 1)) && k' == Step(k, OpKernelAlloc(c, 1)) && c !in k.runs
    requires Inv(k')
    ensures c in k'.runs && c !in OwnedBy(k', 0) && k'.procs == k.procs && k'.ring == k.ring && k'.current == k.current
  {
    hide ProcsOk, RingOk, Owned;
  }

  lemma ByteBehind(pages: seq<Word>, elf: nat)
    requires elf < HEAP_BLOCKS && |pages| == PAGES && FrameOf(pages[0x400]) == HEAP_FRAME + elf
    ensures Translate(pages, 0x40_0000 + ELF_MEMORY) == Addr(elf) + ELF_MEMORY
  {
    ByteOf(pages, 0x40_0000 + ELF_MEMORY, 0x400, ELF_MEMORY);
    assert Addr(elf) == (HEAP_FRAME + elf) * PAGE_SIZE;
  }

  lemma ByteOf(pages: seq<Word>, va: Word, v: nat, o: nat)
    requires |pages| == PAGES && va == v * PAGE_SIZE + o && o < PAGE_SIZE
    ensures v < PAGES && Translate(pages, va) == FrameOf(pages[v]) * PAGE_SIZE + o
  {
    assert va / PAGE_SIZE == v && va % PAGE_SIZE == o;
  }

  lemma TwoSteps(k: State, op1: Op, op2: Op)
    requires Inv(k) && Enabled(k, op1) && Inv(Step(k, op1)) && Enabled(Step(k, op1), op2)
    ensures CanRun(k, [op1, op2]) && RunOps(k, [op1, op2]) == Step(Step(k, op1), op2)
  {
    hide Inv, Enabled, Step;
    OneStep(Step(k, op1), op2);
    assert [op1, op2][1..] == [op2];
  }

  lemma OneStep(k: State, op: Op)
    requires Inv(k) && Enabled(k, op)
    ensures CanRun(k, [op]) && RunOps(k, [op]) == Step(k, op)
  {
    hide Inv, Enabled, Step;
    StepKeeps(k, op);
    assert [op][1..] == [];
    assert CanRun(Step(k, op), []);
  }
}
