/** Every operation keeps the kernel's invariants, hence so does every run. */
module Preservation {
  import opened Machine
  import opened HeapRuns
  import opened Heap
  import opened PageTables
  import opened TaskRing
  import opened Elf
  import opened System
  import opened Invariants
  import opened LoadedPages

  // --- Changing one slot ---------------------------------------------------------------

  ghost predicate SameElsewhere(k: State, k': State, i: nat) {
    |k'.procs| == |k.procs| && forall j :: 0 <= j < |k.procs| && j != i ==> k'.procs[j] == k.procs[j]
  }

  /** Runs change hands between slot i, the kernel and the free pool only. */
  lemma AccountedStep(k: State, k': State, i: nat)
    requires Accounted(k) && SameElsewhere(k, k', i)
    requires OwnedBy(k', i) !! k'.kernel
    requires var (before, after) := (OwnedBy(k, i) + k.kernel, OwnedBy(k', i) + k'.kernel);
      k'.runs.Keys == (k.runs.Keys - before) + after && after !! (k.runs.Keys - before)
    ensures Accounted(k')
  {
    var rest := k.runs.Keys - (OwnedBy(k, i) + k.kernel);
    forall j: nat | j != i
      ensures OwnedBy(k', j) == OwnedBy(k, j) <= rest
    {
      assert OwnedBy(k, j) !! OwnedBy(k, i) && OwnedBy(k, j) !! k.kernel;
    }
    AccountedParts(k, k', i, rest);
  }

  lemma AccountedParts(k: State, k': State, i: nat, rest: set<nat>)
    requires Accounted(k) && OwnedBy(k', i) !! k'.kernel
    requires rest == k.runs.Keys - (OwnedBy(k, i) + k.kernel)
    requires k'.runs.Keys == rest + (OwnedBy(k', i) + k'.kernel) && OwnedBy(k', i) !! rest && k'.kernel !! rest
    requires forall j: nat :: j != i ==> OwnedBy(k', j) == OwnedBy(k, j) <= rest
    ensures Accounted(k')
  {
    hide OwnedBy;
    forall b | b in k'.runs ensures b in k'.kernel || exists j: nat :: b in OwnedBy(k', j) {
      if b in rest {
        assert b in k.runs;
        var j: nat :| b in OwnedBy(k, j);
        assert b in OwnedBy(k', j);
      }
    }
  }

  lemma ProcsStep(k: State, k': State, i: nat)
    requires ProcsOk(k) && SameElsewhere(k, k', i) && Partition(k'.runs, HEAP_BLOCKS)
    requires forall j: nat :: j != i ==> Agree(k.runs, k'.runs, OwnedBy(k, j))
    requires Occupied(k', i) ==> ProcOk(k'.runs, k'.procs[i].value) && LedgerMapped(k'.runs, k'.procs[i].value)
    ensures ProcsOk(k')
    ensures AllIsolated(k) && (Occupied(k', i) ==> Isolated(k'.runs, k'.procs[i].value)) ==> AllIsolated(k')
  {
    forall j: nat | Occupied(k', j) && j != i
      ensures ProcOk(k'.runs, k'.procs[j].value) && LedgerMapped(k'.runs, k'.procs[j].value)
      ensures AllIsolated(k) ==> Isolated(k'.runs, k'.procs[j].value)
    {
      assert Occupied(k, j) && OwnedBy(k, j) == Owned(k.procs[j].value);
      ProcFrame(k.runs, k'.runs, k.procs[j].value);
    }
  }

  // --- The operations --------------------------------------------------------------------

  /** The change from k to k' is confined to process i and its runs, and leaves that
      process well formed. */
  ghost predicate SlotChange(k: State, k': State, i: nat) {
    && Occupied(k, i) && Occupied(k', i) && SameElsewhere(k, k', i)
    && k' == k.(runs := k'.runs, procs := k'.procs) && Partition(k'.runs, HEAP_BLOCKS)
    && ProcOk(k'.runs, k'.procs[i].value) && LedgerMapped(k'.runs, k'.procs[i].value)
    && k'.runs.Keys == (k.runs.Keys - OwnedBy(k, i)) + OwnedBy(k', i)
    && OwnedBy(k', i) !! (k.runs.Keys - OwnedBy(k, i))
    && Agree(k.runs, k'.runs, k.runs.Keys - OwnedBy(k, i))
  }

  lemma SlotStep(k: State, k': State, i: nat)
    requires Inv(k) && SlotChange(k, k', i)
    ensures Inv(k')
    ensures AllIsolated(k) && Isolated(k'.runs, k'.procs[i].value) ==> AllIsolated(k')
  {
    SlotAccounted(k, k', i);
    SlotProcs(k, k', i);
    SameRing(k, k', i);
    hide *;
    ThreeParts(k');
  }

  lemma SlotAccounted(k: State, k': State, i: nat)
    requires Inv(k) && SlotChange(k, k', i)
    ensures Accounted(k')
  {
    hide ProcsOk, RingOk, ProcOk, LedgerMapped, Partition, Agree, OwnedBy;
    SwapOwned(k.runs.Keys, k'.runs.Keys, OwnedBy(k, i), OwnedBy(k', i), k.kernel);
    AccountedStep(k, k', i);
  }

  lemma SlotProcs(k: State, k': State, i: nat)
    requires Inv(k) && SlotChange(k, k', i)
    ensures ProcsOk(k')
    ensures AllIsolated(k) && Isolated(k'.runs, k'.procs[i].value) ==> AllIsolated(k')
  {
    hide ProcsOk, RingOk, ProcOk, LedgerMapped, Partition, Agree, OwnedBy, Accounted, Isolated;
    OthersAgree(k, k'.runs, i);
    ProcsStep(k, k', i);
  }

  lemma ThreeParts(k: State)
    requires ProcsOk(k) && Accounted(k) && RingOk(k)
    ensures Inv(k)
  {
  }

  lemma SameRing(k: State, k': State, i: nat)
    requires RingOk(k) && Occupied(k, i) && Occupied(k', i) && SameElsewhere(k, k', i)
    requires k' == k.(runs := k'.runs, procs := k'.procs)
    ensures RingOk(k')
  {
    assert forall j :: Occupied(k', j) <==> Occupied(k, j);
  }

  lemma OthersAgree(k: State, r': Runs, i: nat)
    requires Accounted(k) && Agree(k.runs, r', k.runs.Keys - OwnedBy(k, i))
    ensures forall j: nat :: j != i ==> Agree(k.runs, r', OwnedBy(k, j))
  {
    hide OwnedBy;
    forall j: nat | j != i ensures Agree(k.runs, r', OwnedBy(k, j)) {
      assert OwnedBy(k, j) !! OwnedBy(k, i);
    }
  }

  lemma SwapOwned(keys: set<nat>, keys': set<nat>, o: set<nat>, o': set<nat>, kernel: set<nat>)
    requires o <= keys && kernel <= keys && o !! kernel
    requires keys' == (keys - o) + o' && o' !! (keys - o)
    ensures o' !! kernel
    ensures keys' == (keys - (o + kernel)) + (o' + kernel)
    ensures (o' + kernel) !! (keys - (o + kernel))
  {
  }

  lemma MallocStep(k: State, i: nat, size: Word, fit: int)
    requires Inv(k) && Enabled(k, OpMalloc(i, size, fit))
    ensures Inv(Malloc(k, i, size, fit).0)
    ensures AllIsolated(k) ==> AllIsolated(Malloc(k, i, size, fit).0)
  {
    hide ProcOk, LedgerMapped, Isolated, Accounted, RingOk, MallocProc, Owned, Blocks, Partition, FreeAt;
    PageMapSize(k, i);
    var p := k.procs[i].value;
    NotAllocated(p, size);
    if fit != -1 {
      MallocKeeps(k.runs, p, size, fit);
      OwnedLive(k, i);
      var (p', ptr) := MallocProc(p, size, fit);
      var k' := Malloc(k, i, size, fit).0;
      if ptr != 0 {
        MallocChange(k, k', i, fit, Blocks(size));
        SlotStep(k, k', i);
      }
    }
  }

  /** A malloc succeeds exactly if the heap has a run and the ledger an empty entry. Then the
      process has the run, mapped to itself for reading and writing; otherwise nothing has
      changed, the run found included. */
  lemma MallocOutcome(k: State, i: nat, size: Word, fit: int)
    requires Inv(k) && Enabled(k, OpMalloc(i, size, fit)) && |k.procs[i].value.pages| == PAGES
    ensures var (k', ptr) := Malloc(k, i, size, fit);
      && (ptr != 0 <==> fit != -1 && exists a :: a in k.procs[i].value.ledger && a.ptr == 0)
      && (ptr == 0 ==> k' == k)
    ensures var (k', ptr) := Malloc(k, i, size, fit);
      ptr != 0 ==>
        && ptr == Addr(fit) && k'.runs == k.runs[fit := Blocks(size)] && OnlyProc(k, k', i)
        && |k'.procs[i].value.pages| == PAGES
        && forall v: nat :: v < PAGES ==>
          k'.procs[i].value.pages[v] ==
            if InRange(v - HEAP_FRAME, fit, Blocks(size)) then 4096 * v + 7 else k.procs[i].value.pages[v]
  {
    hide Accounted, RingOk, ProcOk, LedgerMapped, Blocks, FreeAt, Partition, PageTables.MapTo;
    var p := k.procs[i].value;
    NotAllocated(p, size);
    if fit != -1 { MapRun(p.pages, fit, size, USER_RW); }
  }

  /** Process i is the only one that changes, in its ledger and page map, and the task list
      and the kernel's own runs stay. */
  ghost predicate OnlyProc(k: State, k': State, i: nat) {
    && Occupied(k, i) && Occupied(k', i) && k' == k.(runs := k'.runs, procs := k.procs[i := k'.procs[i]])
    && k'.procs[i].value == k.procs[i].value.(ledger := k'.procs[i].value.ledger, pages := k'.procs[i].value.pages)
  }

  /** A free of a pointer the process does not own changes nothing; one of a pointer it owns
      gives the run back and leaves its pages not present. */
  lemma FreeOutcome(k: State, i: nat, ptr: Word)
    requires Inv(k) && Enabled(k, OpFree(i, ptr)) && |k.procs[i].value.pages| == PAGES
    ensures !InLedger(k.procs[i].value.ledger, ptr) ==> Free(k, i, ptr) == k
    ensures InLedger(k.procs[i].value.ledger, ptr) ==>
      var (k', b) := (Free(k, i, ptr), (ptr - HEAP_ADDRESS) / 4096);
      && ptr == Addr(b) && b in k.runs && k'.runs == k.runs - {b} && OnlyProc(k, k', i)
      && |k'.procs[i].value.pages| == PAGES
      && forall v: nat :: v < PAGES ==>
        k'.procs[i].value.pages[v] ==
          if InRange(v - HEAP_FRAME, b, k.runs[b]) then 4096 * v else k.procs[i].value.pages[v]
  {
    hide Accounted, RingOk, ProcOk, LedgerMapped, Partition, FreeProc, InLedger;
    var p := k.procs[i].value;
    NotFreed(p, ptr);
    if InLedger(p.ledger, ptr) { FreeProcIs(k.runs, p, ptr); }
  }

  lemma MallocChange(k: State, k': State, i: nat, fit: nat, n: nat)
    requires Occupied(k, i) && Occupied(k', i) && SameElsewhere(k, k', i)
    requires k' == k.(runs := k.runs[fit := n], procs := k'.procs) && fit !in k.runs && Partition(k'.runs, HEAP_BLOCKS)
    requires ProcOk(k'.runs, k'.procs[i].value) && LedgerMapped(k'.runs, k'.procs[i].value)
    requires Owned(k.procs[i].value) <= k.runs.Keys && Owned(k'.procs[i].value) == Owned(k.procs[i].value) + {fit}
    ensures SlotChange(k, k', i)
  {
    hide ProcOk, LedgerMapped, Partition, Owned;
  }

  lemma OwnedLive(k: State, i: nat)
    requires Inv(k) && Occupied(k, i)
    ensures Owned(k.procs[i].value) <= k.runs.Keys
  {
    assert OwnedBy(k, i) == Owned(k.procs[i].value);
  }

  lemma FreeStep(k: State, i: nat, ptr: Word)
    requires Inv(k) && Enabled(k, OpFree(i, ptr))
    ensures Inv(Free(k, i, ptr)) && (AllIsolated(k) ==> AllIsolated(Free(k, i, ptr)))
  {
    hide ProcOk, LedgerMapped, Isolated, Accounted, RingOk, FreeProc, Owned, Partition;
    PageMapSize(k, i);
    var p, k' := k.procs[i].value, Free(k, i, ptr);
    NotFreed(p, ptr);
    if InLedger(p.ledger, ptr) {
      FreeKeeps(k.runs, p, ptr);
      OwnedLive(k, i);
      PartitionRemove(k.runs, HEAP_BLOCKS, BlockAt(ptr));
      FreeChange(k, k', i, BlockAt(ptr));
      SlotStep(k, k', i);
    }
  }

  lemma PageMapSize(k: State, i: nat)
    requires ProcsOk(k) && Occupied(k, i)
    ensures |k.procs[i].value.pages| == PAGES
  {
  }

  lemma NotAllocated(p: Proc, size: Word)
    requires |p.pages| == PAGES
    ensures MallocProc(p, size, -1) == (p, 0)
  {
  }

  lemma NotFreed(p: Proc, ptr: Word)
    requires |p.pages| == PAGES
    ensures !InLedger(p.ledger, ptr) ==> !FreeProc(p, ptr).1
  {
  }

  lemma FreeChange(k: State, k': State, i: nat, b: nat)
    requires Occupied(k, i) && Occupied(k', i) && SameElsewhere(k, k', i)
    requires k' == k.(runs := k.runs - {b}, procs := k'.procs) && Partition(k'.runs, HEAP_BLOCKS)
    requires ProcOk(k'.runs, k'.procs[i].value) && LedgerMapped(k'.runs, k'.procs[i].value)
    requires b in Owned(k.procs[i].value) && Owned(k.procs[i].value) <= k.runs.Keys
    requires Owned(k'.procs[i].value) == Owned(k.procs[i].value) - {b}
    ensures SlotChange(k, k', i)
  {
    hide ProcOk, LedgerMapped, Partition, Owned;
  }

  // --- Runs given to and taken from the kernel ---------------------------------------------

  /** New runs that no process gets are the kernel's: kernel allocations and what a failed
      load leaves behind. */
  lemma KernelGains(k: State, extra: Runs)
    requires Inv(k) && Extends(k.runs, extra, HEAP_BLOCKS)
    ensures var k' := k.(runs := k.runs + extra, kernel := k.kernel + extra.Keys);
      Inv(k') && (AllIsolated(k) ==> AllIsolated(k'))
  {
    hide ProcOk, LedgerMapped, Isolated, RingOk, Partition, OwnedBy;
    var k' := k.(runs := k.runs + extra, kernel := k.kernel + extra.Keys);
    SameOwners(k, k');
    AccountedStep(k, k', |k.procs|);
    ProcsStep(k, k', |k.procs|);
    SameOccupied(k, k');
  }

  lemma KernelLoses(k: State, b: nat)
    requires Inv(k) && b in k.kernel
    ensures var k' := k.(runs := k.runs - {b}, kernel := k.kernel - {b});
      Inv(k') && (AllIsolated(k) ==> AllIsolated(k'))
  {
    hide ProcOk, LedgerMapped, Isolated, RingOk, Partition, OwnedBy;
    var k' := k.(runs := k.runs - {b}, kernel := k.kernel - {b});
    SameOwners(k, k');
    PartitionSubset(k.runs, HEAP_BLOCKS, {b});
    forall j: nat ensures Agree(k.runs, k'.runs, OwnedBy(k, j)) { assert OwnedBy(k, j) !! k.kernel; }
    AccountedStep(k, k', |k.procs|);
    ProcsStep(k, k', |k.procs|);
    SameOccupied(k, k');
  }

  lemma SameOwners(k: State, k': State)
    requires k'.procs == k.procs
    ensures forall j: nat :: OwnedBy(k', j) == OwnedBy(k, j)
    ensures OwnedBy(k, |k.procs|) == {} && !Occupied(k', |k.procs|)
  {
  }

  lemma SameOccupied(k: State, k': State)
    requires RingOk(k) && k' == k.(runs := k'.runs, kernel := k'.kernel)
    ensures RingOk(k')
  {
    assert forall j :: Occupied(k', j) <==> Occupied(k, j);
  }

  // --- Loading ---------------------------------------------------------------------------------

  /** Every outcome of a load keeps the invariants; isolation needs the file's writable pages
      to be its own, or for raw bytes no page made writable at all. */
  lemma {:induction false} LoadStep(k: State, img: Image, l: Loading)
    requires Inv(k) && FreshLoading(k.runs, l, img.size)
    ensures (LoadInRange(k.runs, l, img.size); Inv(Load(k, img, l).0))
    ensures (LoadInRange(k.runs, l, img.size);
      AllIsolated(k) && SafeLoad(img, l) ==> AllIsolated(Load(k, img, l).0))
    decreases l
  {
    hide Inv, LoadingRuns, MapMemory, AllIsolated, InsideFile, NoneWritable, ProgramRuns, SpareRuns, DistinctParts,
      Extends;
    LoadInRange(k.runs, l, img.size);
    FreshExtends(k.runs, l, img.size);
    if FreeSlot(k.procs, 0) >= 0 {
      match l
      case NoRecord =>
      case Complete(_, _, _, _, _, _, _) =>
        var (pages, res) := MapMemory(Identity(IS_PRESENT + ACCESS_FROM_ALL), l.memory, img.phdrs, Addr(l.stack));
        if res < 0 {
          UnwoundLoad(k, img, l);
        } else {
          LoadedStep(k, img, l, pages);
        }
      case Raw(elf, image, rest) =>
        KernelGains(k, SpareRuns(elf, image, img.size));
        LoadStep(Leaked(k, SpareRuns(elf, image, img.size)), img, rest);
      case _ => KernelGains(k, LoadingRuns(l, img.size));
    }
  }

  /** A load that fails, however far it got, changes nothing but the heap. One that succeeds
      puts a process with an empty ledger into the lowest free slot, its task at the tail of
      the list, and leaves all else to the others. */
  lemma {:induction false} LoadOutcome(k: State, img: Image, l: Loading)
    requires LoadInHeap(l) && FreshLoading(k.runs, l, img.size)
    ensures var (k', res) := Load(k, img, l);
      res != 0 ==> k' == k.(runs := k'.runs, kernel := k'.kernel)
    ensures var ((k', res), slot) := (Load(k, img, l), FreeSlot(k.procs, 0));
      res == 0 ==>
        && slot >= 0 && Occupied(k', slot) && k'.procs == k.procs[slot := k'.procs[slot]]
        && k'.procs[slot].value.ledger == EmptyLedger()
        && k'.ring == k.ring + [slot] && k'.current == (if k.ring == [] then Some(slot) else k.current)
        && k'.focus == k.focus && k'.halted == k.halted
    decreases l
  {
    hide LoadingRuns, MapMemory, Identity, SpareRuns, EmptyLedger, Extends, DistinctParts;
    if FreeSlot(k.procs, 0) >= 0 && l.Raw? {
      LoadOutcome(Leaked(k, SpareRuns(l.spareElf, l.spareImage, img.size)), img, l.rest);
    }
  }

  lemma FreshExtends(r: Runs, l: Loading, size: Word)
    requires FreshLoading(r, l, size)
    ensures Extends(r, LoadingRuns(l, size), HEAP_BLOCKS)
  {
  }

  /** A load undone after task_new: the page tables and the task go back to the heap. */
  lemma UnwoundLoad(k: State, img: Image, l: Loading)
    requires Inv(k) && l.Complete? && FreshLoading(k.runs, l, img.size)
    ensures var back := {l.task} + DirBlocks(l.dir);
      var k' := k.(runs := (k.runs + LoadingRuns(l, img.size)) - back, kernel := k.kernel + {l.record, l.elf,
        l.stack} + ImageRun(l.image));
      Inv(k') && (AllIsolated(k) ==> AllIsolated(k'))
  {
    hide Inv, Partition, DirBlocks, DistinctParts, LoadingRuns, AllIsolated, ImageRun;
    var back, all := {l.task} + DirBlocks(l.dir), LoadingRuns(l, img.size);
    CompleteParts(l, img.size);
    BackApart(k.runs, all, back);
    KeysLeft(l, all);
    assert k.kernel + {l.record, l.elf, l.stack} + ImageRun(l.image) == k.kernel + (all - back).Keys;
    PartitionSubset(k.runs + all, HEAP_BLOCKS, back);
    KernelGains(k, all - back);
  }

  lemma BackApart(r: Runs, extra: Runs, back: set<nat>)
    requires extra.Keys !! r.Keys && back <= extra.Keys
    ensures (r + extra) - back == r + (extra - back)
  {
  }

  lemma KeysLeft(l: Loading, all: Runs)
    requires l.Complete? && DistinctParts(l.record, l.elf, l.image, l.stack, l.task, l.dir)
    requires all.Keys == {l.record, l.elf, l.stack, l.task} + ImageRun(l.image) + DirBlocks(l.dir)
    ensures (all - ({l.task} + DirBlocks(l.dir))).Keys == {l.record, l.elf, l.stack} + ImageRun(l.image)
  {
    hide DirBlocks, DistinctDir, ImageRun;
  }

  lemma LoadedStep(k: State, img: Image, l: Loading, pages: seq<Word>)
    requires Inv(k) && l.Complete? && FreshLoading(k.runs, l, img.size) && FreeSlot(k.procs, 0) >= 0
    requires l.stack < HEAP_BLOCKS
    requires (pages, 0) == MapMemory(Identity(IS_PRESENT + ACCESS_FROM_ALL), l.memory, img.phdrs, Addr(l.stack))
    ensures var k' := Load(k, img, l).0;
      Inv(k') && (AllIsolated(k) && SafeLoad(img, l) ==> AllIsolated(k'))
  {
    hide ProcOk, LedgerMapped, Isolated, Partition, Owned, LoadingRuns, MapMemory, DistinctDir, DirBlocks, Accounted,
      RingOk, AllIsolated, InsideFile, NoneWritable;
    var k', slot: nat := Load(k, img, l).0, FreeSlot(k.procs, 0);
    FreshExtends(k.runs, l, img.size);
    NewProcOk(k.runs, l, img.size, pages);
    NewOwner(k, k', slot, LoadingRuns(l, img.size).Keys);
    OwnerGains(k, k', slot, LoadingRuns(l, img.size));
    ProcsStep(k, k', slot);
    RingGrows(k, k', slot);
    if SafeLoad(img, l) { InsideIsIsolated(k.runs, img, l, pages); }
  }

  lemma OwnerGains(k: State, k': State, slot: nat, extra: Runs)
    requires Accounted(k) && SameElsewhere(k, k', slot) && k'.kernel == k.kernel
    requires extra.Keys !! k.runs.Keys && k'.runs == k.runs + extra
    requires OwnedBy(k, slot) == {} && OwnedBy(k', slot) == extra.Keys
    ensures Accounted(k')
  {
    hide OwnedBy;
    AccountedStep(k, k', slot);
  }

  lemma NewOwner(k: State, k': State, slot: nat, keys: set<nat>)
    requires slot < |k.procs| && k.procs[slot].None? && Occupied(k', slot) && Owned(k'.procs[slot].value) == keys
    ensures OwnedBy(k, slot) == {} && OwnedBy(k', slot) == keys && !Occupied(k, slot)
  {
  }

  lemma RingGrows(k: State, k': State, slot: nat)
    requires RingOk(k) && !Occupied(k, slot) && SameElsewhere(k, k', slot) && Occupied(k', slot)
    requires k' == k.(runs := k'.runs, procs := k'.procs, ring := k.ring + [slot], current := k'.current)
    requires k'.current == if k.ring == [] then Some(slot) else k.current
    ensures RingOk(k')
  {
    assert forall j :: j != slot ==> (Occupied(k', j) <==> Occupied(k, j));
    assert forall j :: j in k'.ring <==> j in k.ring || j == slot;
  }

  // --- Termination and scheduling ------------------------------------------------------------

  lemma TerminateStep(k: State, i: nat)
    requires Inv(k) && !k.halted && Occupied(k, i) && k.current.Some?
    ensures i in k.ring && Inv(Terminate(k, i)) && (AllIsolated(k) ==> AllIsolated(Terminate(k, i)))
    ensures Terminate(k, i).current.Some? ==> Terminate(k, i).current.value in Terminate(k, i).ring
  {
    hide ProcOk, LedgerMapped, Isolated, Partition, Owned, Accounted, AnyProcess;
    var k' := Terminate(k, i);
    GoneOwner(k, k', i);
    PartitionSubset(k.runs, HEAP_BLOCKS, Owned(k.procs[i].value) - {k.procs[i].value.record});
    ProcsStep(k, k', i);
    RingShrinks(k, i);
  }

  /** All of a dying process's runs go back to the heap, except its record, which becomes
      the kernel's to lose. */
  lemma GoneOwner(k: State, k': State, i: nat)
    requires Accounted(k) && Occupied(k, i) && SameElsewhere(k, k', i) && !Occupied(k', i)
    requires var (o, record) := (Owned(k.procs[i].value), k.procs[i].value.record);
      k'.runs == k.runs - (o - {record}) && k'.kernel == k.kernel + {record}
    ensures Accounted(k')
    ensures forall j: nat :: j != i ==> Agree(k.runs, k'.runs, OwnedBy(k, j))
  {
    hide OwnedBy, Owned;
    OwnerFacts(k, k', i);
    forall j: nat | j != i ensures Agree(k.runs, k'.runs, OwnedBy(k, j)) {
      assert OwnedBy(k, j) !! OwnedBy(k, i);
    }
    AccountedStep(k, k', i);
  }

  lemma OwnerFacts(k: State, k': State, i: nat)
    requires Occupied(k, i) && !Occupied(k', i)
    ensures OwnedBy(k, i) == Owned(k.procs[i].value) && OwnedBy(k', i) == {} && k.procs[i].value.record in OwnedBy(k, i)
  {
  }

  /** j is the lowest slot with a process other than i's. */
  ghost predicate LowestLeft(k: State, i: nat, j: nat) {
    Occupied(k, j) && j != i && forall l :: 0 <= l < j && l != i ==> k.procs[l].None?
  }

  /** The keyboard after an end: it stays where it is unless the dying process had it; then it
      goes to the lowest slot that still has a process, and the kernel halts exactly if there is
      none. */
  lemma KeyboardAfter(k: State, i: nat)
    requires Occupied(k, i) && i in k.ring && k.current.Some?
    ensures k.focus != Some(i) ==> Terminate(k, i).focus == k.focus && !Terminate(k, i).halted
    ensures k.focus == Some(i) ==>
      (Terminate(k, i).halted <==> forall j :: 0 <= j < |k.procs| && j != i ==> k.procs[j].None?)
    ensures k.focus == Some(i) && !Terminate(k, i).halted ==>
      Terminate(k, i).focus.Some? && LowestLeft(k, i, Terminate(k, i).focus.value)
  {
    hide Owned, Remove, CurrentAfter;
    var procs := k.procs[i := None];
    assert forall j :: 0 <= j < |procs| ==> procs[j] == if j == i then None else k.procs[j];
  }

  lemma RingShrinks(k: State, i: nat)
    requires RingOk(k) && !k.halted && Occupied(k, i) && k.current.Some?
    ensures i in k.ring && RingOk(Terminate(k, i))
  {
    hide Owned, Remove, CurrentAfter, Distinct;
    var k' := Terminate(k, i);
    RemoveElements(k.ring, i);
    CurrentAfterIsLive(k.ring, k.current.value, i);
    assert forall j :: Occupied(k', j) <==> Occupied(k, j) && j != i;
  }

  lemma TaskNextStep(k: State)
    requires Inv(k) && (k.current.Some? ==> k.current.value in k.ring)
    ensures Inv(TaskNext(k)) && (AllIsolated(k) ==> AllIsolated(TaskNext(k)))
  {
    hide ProcOk, LedgerMapped, Isolated, Partition, OwnedBy, Next, Distinct;
    var k' := TaskNext(k);
    SameOwners(k, k');
    assert forall j :: Occupied(k', j) <==> Occupied(k, j);
  }

  lemma CursorStep(k: State, k': State)
    requires Inv(k) && k' == k.(current := k'.current, focus := k'.focus)
    requires k'.current == k.current || (k'.current.Some? && Occupied(k, k'.current.value))
    requires k'.focus == k.focus || (k'.focus.Some? && Occupied(k, k'.focus.value))
    ensures Inv(k') && (AllIsolated(k) ==> AllIsolated(k'))
  {
    hide ProcOk, LedgerMapped, Isolated, Partition, OwnedBy, Distinct;
    SameOwners(k, k');
    assert forall j :: Occupied(k', j) <==> Occupied(k, j);
  }

  // --- Whole runs -----------------------------------------------------------------------------

  /** The file an operation loads, if any, makes nothing writable but what is its own. */
  ghost predicate Safe(op: Op) {
    op.OpLoad? ==> SafeLoad(op.img, op.loading)
  }

  /** Every enabled operation of the kernel keeps the accounting, the process table and the
      task list, and keeps isolation when the file it loads, if any, is safe. Stores of the
      programs themselves are in Stores. */
  lemma StepKeeps(k: State, op: Op)
    requires Inv(k) && Enabled(k, op)
    ensures Inv(Step(k, op))
    ensures AllIsolated(k) && Safe(op) ==> AllIsolated(Step(k, op))
  {
    hide Inv, AllIsolated, SafeLoad, Malloc, Free, Load, Terminate, TaskNext, ExitHarmless, FreshLoading;
    match op
    case OpLoad(img, l) => LoadStep(k, img, l);
    case OpMalloc(i, size, fit) => MallocStep(k, i, size, fit);
    case OpFree(i, ptr) => FreeStep(k, i, ptr);
    case OpExit => ExitStep(k);
    case OpTick => InRing(k); TaskNextStep(k);
    case OpFocus(i) => CursorStep(k, Step(k, op));
    case OpRunTask(i) => CursorStep(k, Step(k, op));
    case OpKernelAlloc(b, n) => KernelAllocStep(k, b, n);
    case OpKernelFree(b) => KernelLoses(k, b);
  }

  lemma InRing(k: State)
    requires Inv(k) && k.current.Some?
    ensures k.current.value in k.ring && Occupied(k, k.current.value)
  {
  }

  lemma ExitStep(k: State)
    requires Inv(k) && Enabled(k, OpExit)
    ensures Inv(Step(k, OpExit)) && (AllIsolated(k) ==> AllIsolated(Step(k, OpExit)))
  {
    hide Inv, AllIsolated, Terminate, TaskNext, ExitHarmless;
    InRing(k);
    var k1 := Terminate(k, k.current.value);
    TerminateStep(k, k.current.value);
    if !k1.halted { TaskNextStep(k1); }
  }

  lemma KernelAllocStep(k: State, b: nat, n: nat)
    requires Inv(k) && FitsAt(k.runs, b, n)
    ensures var k' := k.(runs := k.runs[b := n], kernel := k.kernel + {b});
      Inv(k') && (AllIsolated(k) ==> AllIsolated(k'))
  {
    PartitionOf(k);
    PartitionAdd(k.runs, HEAP_BLOCKS, b, n);
    hide *;
    assert k.runs[b := n] == k.runs + map[b := n];
    KernelGainsOne(k, b, n);
  }

  lemma PartitionOf(k: State)
    requires Inv(k)
    ensures Partition(k.runs, HEAP_BLOCKS)
  {
  }

  lemma KernelGainsOne(k: State, b: nat, n: nat)
    requires Inv(k) && b !in k.runs && Partition(k.runs[b := n], HEAP_BLOCKS)
    ensures var k' := k.(runs := k.runs[b := n], kernel := k.kernel + {b});
      Inv(k') && (AllIsolated(k) ==> AllIsolated(k'))
  {
    hide Inv, AllIsolated, Partition;
    var one := map[b := n];
    assert k.runs[b := n] == k.runs + one && one.Keys == {b} && k.kernel + {b} == k.kernel + one.Keys;
    KernelGains(k, one);
  }

  /** The kernel before anything is allocated: an empty heap and an empty table. */
  ghost function Boot(): State {
    State(map[], {}, seq(MAX_PROCESSES, _ => None), [], None, None, false)
  }

  lemma BootOk()
    ensures Inv(Boot()) && AllIsolated(Boot())
  {
    assert forall i: nat :: OwnedBy(Boot(), i) == {};
  }

  /** The operations can be carried out one after the other from k. */
  ghost predicate CanRun(k: State, ops: seq<Op>)
    requires Inv(k)
    decreases |ops|
  {
    ops == [] || (Enabled(k, ops[0]) && (StepKeeps(k, ops[0]); CanRun(Step(k, ops[0]), ops[1..])))
  }

  ghost function RunOps(k: State, ops: seq<Op>): (k': State)
    requires Inv(k) && CanRun(k, ops)
    ensures Inv(k')
    decreases |ops|
  {
    if ops == [] then k else (StepKeeps(k, ops[0]); RunOps(Step(k, ops[0]), ops[1..]))
  }

  /** Every run of operations ends in a state that accounts for every live run and keeps the
      process table and task list consistent; it isolates the processes if every loaded file is
      safe. Unsafe files among them, this speaks of the machine only while no process stores
      outside its own memory: Stores.OwnStoresKeep. */
  lemma {:induction false} EveryRun(k: State, ops: seq<Op>)
    requires Inv(k) && CanRun(k, ops)
    ensures Inv(RunOps(k, ops))
    ensures AllIsolated(k) && (forall op :: op in ops ==> Safe(op)) ==> AllIsolated(RunOps(k, ops))
    decreases |ops|
  {
    hide Inv, AllIsolated, Safe, Step, Enabled;
    if ops != [] {
      StepKeeps(k, ops[0]);
      EveryRun(Step(k, ops[0]), ops[1..]);
    }
  }
}
