/** What the invariants mean for processes: no two can write the same memory, none can
    write a page table, and a finished process has returned everything but its record.
    Also the exact conditions under which two steps of the source keep isolation. */
module Isolation {
  import opened Machine
  import opened HeapRuns
  import opened Heap
  import opened PageTables
  import opened Elf
  import opened System
  import opened Invariants
  import opened LoadedPages
  import opened Preservation

  /** Some page of the process is writable onto heap block c. */
  ghost predicate CanWrite(p: Proc, c: int)
    requires |p.pages| == PAGES
  {
    exists v :: 0 <= v < PAGES && Writable(p.pages[v]) && FrameOf(p.pages[v]) == HEAP_FRAME + c
  }

  /** Block c lies in the process's image, its stack or memory it got from malloc. */
  ghost predicate InOwn(r: Runs, p: Proc, c: int) {
    InImage(r, p.image, c) || Covers(r, p.stack, c) || InMalloced(r, p, c)
  }

  /** The first blocks of these runs. */
  ghost function UserRuns(p: Proc): set<nat> {
    ImageRun(p.image) + {p.stack} + LedgerBlocks(p.ledger)
  }

  /** The run around such a block is the process's, and not one of the runs its record, task
      or page tables live in. */
  lemma OwnRunAround(k: State, i: nat, c: int) returns (b: nat)
    requires Inv(k) && Occupied(k, i) && InOwn(k.runs, k.procs[i].value, c)
    ensures var p := k.procs[i].value;
      && Covers(k.runs, b, c) && b in UserRuns(p) && b in OwnedBy(k, i)
      && b != p.record && b != p.elf && b != p.task && b !in DirBlocks(p.dir)
  {
    var p := k.procs[i].value;
    hide LedgerMapped, Accounted, RingOk, DistinctDir, LedgerOk, Partition, DirBlocks;
    if InImage(k.runs, p.image, c) {
      b := p.image.value;
    } else if Covers(k.runs, p.stack, c) {
      b := p.stack;
    } else {
      b :| b in LedgerBlocks(p.ledger) && Covers(k.runs, b, c);
      assert b !in Core(p);
    }
  }

  /** The run that holds a block a process can write is one of its own, and not one of the
      runs its record, task or page tables live in. */
  lemma WritableRun(k: State, i: nat, v: int) returns (b: nat)
    requires Inv(k) && AllIsolated(k) && Occupied(k, i)
    requires 0 <= v < PAGES && Writable(k.procs[i].value.pages[v])
    ensures var p := k.procs[i].value;
      && Covers(k.runs, b, FrameOf(p.pages[v]) - HEAP_FRAME) && b in UserRuns(p) && b in OwnedBy(k, i)
      && b != p.record && b != p.elf && b != p.task && b !in DirBlocks(p.dir)
  {
    hide ProcOk, LedgerMapped, Accounted, RingOk, Writable, InMalloced, DirBlocks;
    PageMapSize(k, i);
    var p := k.procs[i].value;
    assert Isolated(k.runs, p);
    b := OwnRunAround(k, i, FrameOf(p.pages[v]) - HEAP_FRAME);
  }

  /** No block is writable by two processes, and no process can write kernel memory, a page
      table, or any process record. */
  lemma NoSharedWrites(k: State, i: nat, j: nat, c: int)
    requires Inv(k) && AllIsolated(k) && Occupied(k, i) && Occupied(k, j) && CanWrite(k.procs[i].value, c)
    ensures i != j ==> !CanWrite(k.procs[j].value, c)
    ensures forall b: nat :: b in k.kernel ==> !Covers(k.runs, b, c)
    ensures var q := k.procs[j].value;
      forall b: nat :: b in DirBlocks(q.dir) + {q.record, q.elf, q.task} ==> !Covers(k.runs, b, c)
  {
    hide ProcOk, LedgerMapped, RingOk, Isolated, Writable, DirBlocks;
    PageMapSize(k, i);
    PageMapSize(k, j);
    assert i != j ==> OwnedBy(k, i) !! OwnedBy(k, j);
    var v :| 0 <= v < PAGES && Writable(k.procs[i].value.pages[v])
      && FrameOf(k.procs[i].value.pages[v]) == HEAP_FRAME + c;
    var b := WritableRun(k, i, v);
    var q := k.procs[j].value;
    if i != j && CanWrite(q, c) {
      var w :| 0 <= w < PAGES && Writable(q.pages[w]) && FrameOf(q.pages[w]) == HEAP_FRAME + c;
      var b' := WritableRun(k, j, w);
      OneCover(k.runs, b, b', c);
    }
    forall a: nat | Covers(k.runs, a, c) ensures a == b { OneCover(k.runs, a, b, c); }
    assert b !in k.kernel;
    if i != j { CoreOwned(k, j); }
  }

  lemma CoreOwned(k: State, j: nat)
    requires Occupied(k, j)
    ensures var q := k.procs[j].value; DirBlocks(q.dir) + {q.record, q.elf, q.task} <= OwnedBy(k, j)
  {
  }

  // --- Freeing as written ----------------------------------------------------------------------

  /** process_free with process.c:306 as written keeps its process isolated exactly when it
      frees nothing: a block it does return to the heap stays mapped and writable. */
  lemma FreeAsWrittenIsolatesIff(k: State, i: nat, ptr: Word)
    requires Inv(k) && AllIsolated(k) && Occupied(k, i)
    ensures |FreeAsWritten(k, i, ptr).procs[i].value.pages| == PAGES
    ensures Isolated(FreeAsWritten(k, i, ptr).runs, FreeAsWritten(k, i, ptr).procs[i].value)
      <==> !InLedger(k.procs[i].value.ledger, ptr)
  {
    var p, k' := k.procs[i].value, FreeAsWritten(k, i, ptr);
    if InLedger(p.ledger, ptr) {
      var p', b := k'.procs[i].value, BlockAt(ptr);
      FreeProcIs(k.runs, p, ptr);
      FreeLedger(k.runs, p.ledger, ptr);
      assert p' == p.(ledger := Unjoin(p.ledger, ptr));
      FreedStaysWritable(k.runs, p, p', b);
    }
  }

  lemma FreedStaysWritable(r: Runs, p: Proc, p': Proc, b: nat)
    requires Partition(r, HEAP_BLOCKS) && ProcOk(r, p) && LedgerMapped(r, p) && b in LedgerBlocks(p.ledger) && b in r
    requires p' == p.(ledger := p'.ledger) && LedgerBlocks(p'.ledger) == LedgerBlocks(p.ledger) - {b}
    ensures !Isolated(r - {b}, p')
  {
    hide LedgerOk, DistinctParts, PartsLive, LedgerBlocks;
    assert Covers(r, b, b) && InMalloced(r, p, b);
    var entry := p'.pages[HEAP_FRAME + b];
    assert entry == Addr(b) + USER_RW;
    WordParts(HEAP_FRAME + b, USER_RW);
    assert b !in Core(p);
    FreeMalloced(r, p, p', b, b);
    assert !OwnPage(r - {b}, p', HEAP_FRAME + b, b);
  }

  /** The consequence: the block is given to the next process that asks for that size,
      and from then on both processes can write it. */
  lemma FreeAsWrittenSharesMemory(k: State, i: nat, j: nat, ptr: Word, size: Word)
    requires Inv(k) && AllIsolated(k) && Occupied(k, i) && Occupied(k, j) && i != j
    requires InLedger(k.procs[i].value.ledger, ptr) && FindPtr(k.procs[j].value.ledger, 0) >= 0
    requires Blocks(size) > 0 && BlockAt(ptr) + Blocks(size) <= HEAP_BLOCKS
    ensures |FreeAsWritten(k, i, ptr).procs[j].value.pages| == PAGES
    ensures var k2 := Malloc(FreeAsWritten(k, i, ptr), j, size, BlockAt(ptr)).0;
      && Occupied(k2, i) && Occupied(k2, j) && |k2.procs[i].value.pages| == PAGES == |k2.procs[j].value.pages|
      && CanWrite(k2.procs[i].value, BlockAt(ptr)) && CanWrite(k2.procs[j].value, BlockAt(ptr))
  {
    hide Inv, AllIsolated, FreeProcAsWritten, MallocProc, CanWrite, InLedger, FindPtr, Blocks;
    var p, q, b := k.procs[i].value, k.procs[j].value, BlockAt(ptr);
    StillMapped(k, i, ptr);
    NewlyMapped(q, size, b);
  }

  lemma StillMapped(k: State, i: nat, ptr: Word)
    requires Inv(k) && Occupied(k, i) && InLedger(k.procs[i].value.ledger, ptr)
    ensures forall j :: Occupied(k, j) ==> |k.procs[j].value.pages| == PAGES
    ensures var (p', freed) := FreeProcAsWritten(k.procs[i].value, ptr);
      freed && |p'.pages| == PAGES && CanWrite(p', BlockAt(ptr))
  {
    hide Accounted, RingOk, ProcOk, LedgerMapped, Partition;
    assert forall j :: Occupied(k, j) ==> ProcOk(k.runs, k.procs[j].value);
    AllPageMaps(k);
    LedgerEntryMapped(k.runs, k.procs[i].value, ptr);
  }

  lemma AllPageMaps(k: State)
    requires ProcsOk(k)
    ensures forall j :: Occupied(k, j) ==> |k.procs[j].value.pages| == PAGES
  {
  }

  lemma LedgerEntryMapped(r: Runs, p: Proc, ptr: Word)
    requires Partition(r, HEAP_BLOCKS) && ProcOk(r, p) && LedgerMapped(r, p) && InLedger(p.ledger, ptr)
    ensures var (p', freed) := FreeProcAsWritten(p, ptr);
      freed && |p'.pages| == PAGES && CanWrite(p', BlockAt(ptr))
  {
    hide DistinctParts, PartsLive, LedgerOk;
    var b := BlockAt(ptr);
    FreeProcIs(r, p, ptr);
    assert Covers(r, b, b) && InMalloced(r, p, b);
    WordParts(HEAP_FRAME + b, USER_RW);
    assert Writable(p.pages[HEAP_FRAME + b]);
  }

  lemma NewlyMapped(q: Proc, size: Word, b: nat)
    requires |q.pages| == PAGES && FindPtr(q.ledger, 0) >= 0 && Blocks(size) > 0 && b + Blocks(size) <= HEAP_BLOCKS
    ensures var (q', ptr) := MallocProc(q, size, b);
      ptr != 0 && |q'.pages| == PAGES && CanWrite(q', b)
  {
    MapRun(q.pages, b, size, USER_RW);
    WordParts(HEAP_FRAME + b, USER_RW);
    var q' := MallocProc(q, size, b).0;
    assert InRange(b, b, Blocks(size)) && Writable(q'.pages[HEAP_FRAME + b]);
  }

  /** process_free as written passes ptr on to kfree: some ledger slot holds it and the
      (empty) unmapping succeeds. */
  ghost predicate ReachesKfreeAsWritten(p: Proc, ptr: Word)
    requires |p.pages| == PAGES
  {
    FindPtr(p.ledger, ptr) >= 0 && PageTables.MapTo(p.pages, 0, 0, AlignAddress(0), 0).1 >= 0
  }

  /** As written, the null pointer goes on to kfree exactly when some ledger slot is empty. */
  lemma NullReachesKfreeIff(p: Proc)
    requires |p.pages| == PAGES && |p.ledger| == MAX_ALLOCATIONS
    ensures ReachesKfreeAsWritten(p, 0) <==> exists i :: 0 <= i < |p.ledger| && p.ledger[i].ptr == 0
  {
    if FindPtr(p.ledger, 0) >= 0 { assert p.ledger[FindPtr(p.ledger, 0)].ptr == 0; }
  }

  // --- A process's life in the heap ---------------------------------------------------------------

  /** Operations of process i on its own memory. */
  ghost predicate ByProcess(op: Op, i: nat) {
    (op.OpMalloc? && op.slot == i) || (op.OpFree? && op.slot == i)
  }

  /** Whatever process i allocates and frees, the runs it does not own stay as they are. */
  lemma {:induction false} OwnMemoryOnly(k: State, ops: seq<Op>, i: nat)
    requires Inv(k) && CanRun(k, ops) && Occupied(k, i) && forall op :: op in ops ==> ByProcess(op, i)
    ensures var k' := RunOps(k, ops);
      && Occupied(k', i) && k'.procs[i].value.record == k.procs[i].value.record
      && k'.runs - OwnedBy(k', i) == k.runs - OwnedBy(k, i)
      && (k'.kernel, k'.ring, k'.current, k'.focus, k'.halted) == (k.kernel, k.ring, k.current, k.focus, k.halted)
    decreases |ops|
  {
    hide Inv, Enabled, Step, OwnedBy;
    if ops != [] {
      StepKeeps(k, ops[0]);
      OwnStep(k, ops[0], i);
      OwnMemoryOnly(Step(k, ops[0]), ops[1..], i);
    }
  }

  lemma OwnStep(k: State, op: Op, i: nat)
    requires Inv(k) && Enabled(k, op) && Occupied(k, i) && ByProcess(op, i)
    ensures var k' := Step(k, op);
      && Occupied(k', i) && k'.procs[i].value.record == k.procs[i].value.record
      && k'.runs - OwnedBy(k', i) == k.runs - OwnedBy(k, i)
      && (k'.kernel, k'.ring, k'.current, k'.focus, k'.halted) == (k.kernel, k.ring, k.current, k.focus, k.halted)
  {
    hide ProcOk, LedgerMapped, Isolated, Accounted, RingOk, MallocProc, FreeProc, Owned, Blocks, Partition, FreeAt;
    var p := k.procs[i].value;
    PageMapSize(k, i);
    OwnedLive(k, i);
    match op
    case OpMalloc(_, size, fit) =>
      NotAllocated(p, size);
      if fit != -1 { MallocKeeps(k.runs, p, size, fit); SameRecord(p, size, fit); }
    case OpFree(_, ptr) =>
      NotFreed(p, ptr);
      if InLedger(p.ledger, ptr) { FreeKeeps(k.runs, p, ptr); FreeProcIs(k.runs, p, ptr); }
  }

  lemma SameRecord(p: Proc, size: Word, fit: nat)
    requires |p.pages| == PAGES && fit < HEAP_BLOCKS
    ensures MallocProc(p, size, fit).0.record == p.record
  {
  }

  /** Conservation over a lifetime: a process that is loaded, allocates and frees as it
      likes, and terminates gives back every run it was given except its own record, which
      the source never frees. */
  lemma Lifetime(k: State, img: Image, l: Loading, ops: seq<Op>, i: nat)
    requires Inv(k) && Enabled(k, OpLoad(img, l)) && l.Complete?
    requires i == FreeSlot(k.procs, 0) && (LoadInRange(k.runs, l, img.size); Load(k, img, l).1 == 0)
    requires var k1 := Step(k, OpLoad(img, l)); (StepKeeps(k, OpLoad(img, l)); CanRun(k1, ops))
    requires forall op :: op in ops ==> ByProcess(op, i)
    ensures var k1 := Step(k, OpLoad(img, l)); (StepKeeps(k, OpLoad(img, l));
      var k2 := RunOps(k1, ops);
      && Occupied(k2, i) && i in k2.ring && k2.current.Some?
      && Terminate(k2, i).runs == k.runs[l.record := PROCESS_BLOCKS])
  {
    var k1 := Step(k, OpLoad(img, l));
    StepKeeps(k, OpLoad(img, l));
    LoadGives(k, img, l, i);
    OwnMemoryOnly(k1, ops, i);
    var k2 := RunOps(k1, ops);
    hide *;
    InTable(k2, i);
    GivesBack(k, k1, k2, l.record, i);
  }

  lemma LoadGives(k: State, img: Image, l: Loading, i: nat)
    requires Inv(k) && FreshLoading(k.runs, l, img.size) && l.Complete? && i == FreeSlot(k.procs, 0)
    requires (LoadInRange(k.runs, l, img.size); Load(k, img, l).1 == 0)
    ensures (LoadInRange(k.runs, l, img.size); var k1 := Load(k, img, l).0;
      && Occupied(k1, i) && k1.procs[i].value.record == l.record && l.record in OwnedBy(k1, i)
      && k1.runs - OwnedBy(k1, i) == k.runs && l.record !in k.runs && k1.runs[l.record] == PROCESS_BLOCKS)
  {
    hide Inv, FreshLoading, LoadingRuns, MapMemory, Identity, Owned;
    LoadInRange(k.runs, l, img.size);
    FreshExtends(k.runs, l, img.size);
    var pages := MapMemory(Identity(IS_PRESENT + ACCESS_FROM_ALL), l.memory, img.phdrs, Addr(l.stack)).0;
    NewProcOk(k.runs, l, img.size, pages);
    RecordRun(l, img.size);
  }

  lemma RecordRun(l: Loading, size: Word)
    requires l.Complete?
    ensures l.record in LoadingRuns(l, size)
    ensures forall r: Runs :: FreshLoading(r, l, size) ==> LoadingRuns(l, size)[l.record] == PROCESS_BLOCKS
  {
  }

  lemma InTable(k: State, i: nat)
    requires Inv(k) && Occupied(k, i)
    ensures i in k.ring && k.current.Some? && OwnedBy(k, i) == Owned(k.procs[i].value)
    ensures Live(k.runs, k.procs[i].value.record, PROCESS_BLOCKS) && k.procs[i].value.record in OwnedBy(k, i)
  {
  }

  lemma GivesBack(k: State, k1: State, k2: State, record: nat, i: nat)
    requires Occupied(k2, i) && i in k2.ring && k2.current.Some? && k2.procs[i].value.record == record
    requires k1.runs - OwnedBy(k1, i) == k.runs && k2.runs - OwnedBy(k2, i) == k1.runs - OwnedBy(k1, i)
    requires record in OwnedBy(k2, i) && Live(k2.runs, record, PROCESS_BLOCKS) && record !in k.runs
    ensures Terminate(k2, i).runs == k.runs[record := PROCESS_BLOCKS]
  {
    hide Owned;
    assert OwnedBy(k2, i) == Owned(k2.procs[i].value);
  }

  // --- The same with others at work -----------------------------------------------------------------

  ghost predicate SameParts(p: Proc, q: Proc) {
    q == p.(ledger := q.ledger, pages := q.pages)
  }

  /** Process i is not the one that exits. */
  ghost predicate Spares(k: State, op: Op, i: nat) {
    op.OpExit? ==> k.current != Some(i)
  }

  /** Process i lives through the whole run. */
  ghost predicate Lives(k: State, ops: seq<Op>, i: nat)
    requires Inv(k) && CanRun(k, ops)
    decreases |ops|
  {
    ops == [] || (Spares(k, ops[0], i) && (StepKeeps(k, ops[0]); Lives(Step(k, ops[0]), ops[1..], i)))
  }

  lemma {:induction false} LoadSparesOthers(k: State, img: Image, l: Loading, i: nat)
    requires Occupied(k, i) && LoadInHeap(l)
    ensures var k' := Load(k, img, l).0; Occupied(k', i) && k'.procs[i] == k.procs[i]
    decreases l
  {
    hide LoadingRuns, MapMemory, Identity, SpareRuns;
    if FreeSlot(k.procs, 0) >= 0 && l.Raw? {
      LoadSparesOthers(Leaked(k, SpareRuns(l.spareElf, l.spareImage, img.size)), img, l.rest, i);
    }
  }

  lemma PartsStep(k: State, op: Op, i: nat)
    requires Occupied(k, i) && Spares(k, op, i) && Inv(k) && Enabled(k, op)
    ensures Occupied(Step(k, op), i) && SameParts(k.procs[i].value, Step(k, op).procs[i].value)
  {
    hide ProcsOk, Accounted, Load, FreshLoading, FitsAt, Owned, PageTables.MapTo, Blocks, ExitHarmless, FindPtr;
    match op
    case OpLoad(img, l) =>
      LoadInRange(k.runs, l, img.size);
      LoadSparesOthers(k, img, l, i);
    case _ =>
  }

  lemma {:induction false} PartsLast(k: State, ops: seq<Op>, i: nat)
    requires Occupied(k, i) && Inv(k) && CanRun(k, ops) && Lives(k, ops, i)
    ensures Occupied(RunOps(k, ops), i) && SameParts(k.procs[i].value, RunOps(k, ops).procs[i].value)
    decreases |ops|
  {
    hide Inv, Enabled, Step, Spares;
    if ops != [] {
      StepKeeps(k, ops[0]);
      PartsStep(k, ops[0], i);
      PartsLast(Step(k, ops[0]), ops[1..], i);
    }
  }

  /** Whatever else goes on between a process's load and its end, the runs the load gave it
      are its own throughout; its end gives them back with all its memory, except for the
      record, and touches no other run. */
  lemma LifetimeAmongOthers(k: State, ops: seq<Op>, i: nat)
    requires Occupied(k, i) && Inv(k) && CanRun(k, ops) && Lives(k, ops, i)
    ensures var (p, k2) := (k.procs[i].value, RunOps(k, ops));
      && Occupied(k2, i) && i in k2.ring && k2.current.Some?
      && Core(p) <= OwnedBy(k2, i)
      && Core(p) * Terminate(k2, i).runs.Keys == {p.record} && p.record in Terminate(k2, i).kernel
      && Terminate(k2, i).runs - {p.record} == k2.runs - OwnedBy(k2, i)
  {
    PartsLast(k, ops, i);
    var k2 := RunOps(k, ops);
    hide *;
    InTable(k2, i);
    EndsWithRecord(k2, i);
    assert Core(k.procs[i].value) == Core(k2.procs[i].value) by { SameCore(k.procs[i].value, k2.procs[i].value); }
  }

  lemma SameCore(p: Proc, q: Proc)
    requires SameParts(p, q)
    ensures Core(q) == Core(p) && q.record == p.record
  {
  }

  lemma EndsWithRecord(k: State, i: nat)
    requires Occupied(k, i) && i in k.ring && k.current.Some? && OwnedBy(k, i) == Owned(k.procs[i].value)
    requires Live(k.runs, k.procs[i].value.record, PROCESS_BLOCKS)
    ensures var p := k.procs[i].value;
      && Core(p) <= OwnedBy(k, i) && Core(p) * Terminate(k, i).runs.Keys == {p.record}
      && p.record in Terminate(k, i).kernel && Terminate(k, i).runs - {p.record} == k.runs - OwnedBy(k, i)
  {
    hide DirBlocks, LedgerBlocks;
  }
}
