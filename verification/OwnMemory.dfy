/** Memory a process got from malloc: writing to it disturbs no page table, later
    allocations leave it alone, and the process sees it at its own address. */
module OwnMemory {
  import opened Machine
  import opened HeapRuns
  import opened Heap
  import opened PageTables
  import opened Elf
  import opened System
  import opened Invariants
  import opened Preservation
  import opened Backing
  import opened CopyString

  /** Run (b, n) is in process i's ledger. */
  ghost predicate OwnRun(k: State, i: nat, b: nat, n: nat) {
    Occupied(k, i) && b < HEAP_BLOCKS && b in LedgerBlocks(k.procs[i].value.ledger) && Live(k.runs, b, n)
  }

  /** a is an address inside run (b, n). */
  predicate InRun(a: int, b: nat, n: nat) {
    Addr(b) <= a < Addr(b) + PAGE_SIZE * n
  }

  lemma BlockInRun(a: int, b: nat, n: nat)
    requires InRun(a, b, n)
    ensures a / PAGE_SIZE - HEAP_FRAME in RunBlocks(b, n)
  {
    var c := a / PAGE_SIZE - HEAP_FRAME;
    assert b <= c < b + n;
    assert InRange(c, b, n);
  }

  /** A malloc'd run is none of those the kernel relies on. */
  lemma OwnRunIs(k: State, i: nat, b: nat, n: nat)
    requires ProcsOk(k) && Accounted(k) && OwnRun(k, i, b, n)
    ensures b in OwnedBy(k, i) && b !in Trusted(k.procs[i].value)
  {
    hide LedgerMapped, LedgerOk, DistinctParts, DirBlocks, Partition, LedgerBlocks;
    assert ProcOk(k.runs, k.procs[i].value);
    TrustedParts(k.procs[i].value);
  }

  lemma RunNotDir(k: State, i: nat, b: nat, n: nat, j: nat)
    requires Inv(k) && OwnRun(k, i, b, n) && Occupied(k, j)
    ensures RunBlocks(b, n) !! DirBlocks(k.procs[j].value.dir)
  {
    hide Inv, DirBlocks;
    assert ProcsOk(k) && Accounted(k) by { InvParts(k); }
    OwnRunIs(k, i, b, n);
    OwnRunNotTrusted(k, i, b, j);
    TrustedParts(k.procs[j].value);
  }

  lemma InvParts(k: State)
    requires Inv(k)
    ensures ProcsOk(k) && Accounted(k)
  {
  }

  /** Writing into a malloc'd run disturbs no page map and no struct elf_file. */
  lemma BackedOwn(k: State, m: Mem, m': Mem, i: nat, b: nat, n: nat)
    requires Inv(k) && Backed(k, m) && OwnRun(k, i, b, n) && SameExcept(m, m', RunBlocks(b, n))
    ensures Backed(k, m')
  {
    hide Inv, Backed, SameExcept;
    assert ProcsOk(k) && Accounted(k) by { InvParts(k); }
    OwnRunIs(k, i, b, n);
    BackedInRun(k, m, m', i, b);
  }

  /** A successful malloc gives the process one more run, apart from those it had. */
  lemma OwnRunsGrow(k: State, i: nat, size: Word, fit: int)
    requires Inv(k) && !k.halted && Occupied(k, i) && fit == FirstFit(k.runs, HEAP_BLOCKS, Blocks(size))
    requires |k.procs[i].value.pages| == PAGES
    ensures var (k', ptr) := Malloc(k, i, size, fit);
      ptr != 0 ==>
        && fit >= 0 && ptr == Addr(fit) && Inv(k') && !k'.halted && OwnRun(k', i, fit, Blocks(size))
        && k'.procs[i].value.dir == k.procs[i].value.dir
        && (forall b: nat, n: nat :: OwnRun(k, i, b, n) ==> OwnRun(k', i, b, n) && b != fit)
  {
    hide LedgerMapped, PartsLive, DistinctParts, Partition, Accounted, RingOk, Blocks, PageTables.MapTo, LedgerBlocks;
    if fit != -1 {
      MallocStep(k, i, size, fit);
      var p := k.procs[i].value;
      assert ProcOk(k.runs, p);
      PartitionAdd(k.runs, HEAP_BLOCKS, fit, Blocks(size));
      var index := FindPtr(p.ledger, 0);
      if index >= 0 {
        MallocLedger(k.runs, p.ledger, index, fit, size);
      }
    }
  }

  // --- As the process sees it -------------------------------------------------------------------

  lemma SeenOwn(k: State, m: Mem, i: nat, b: nat, n: nat, a: Word)
    requires Inv(k) && OwnRun(k, i, b, n) && InRun(a, b, n)
    ensures |k.procs[i].value.pages| == PAGES && Seen(m, k.procs[i].value.pages, a) == Cell(m, a)
  {
    hide ProcOk, Accounted, RingOk, LedgerBlocks;
    var p := k.procs[i].value;
    PageMapSize(k, i);
    assert LedgerMapped(k.runs, p);
    var c := a / PAGE_SIZE - HEAP_FRAME;
    assert Covers(k.runs, b, c);
    assert InMalloced(k.runs, p, c);
    RunInHeap(k.runs, b, c);
    assert p.pages[HEAP_FRAME + c] == Addr(c) + USER_RW;
    WordParts(HEAP_FRAME + c, USER_RW);
  }

  lemma RunInHeap(r: Runs, b: nat, c: int)
    requires Partition(r, HEAP_BLOCKS) && Covers(r, b, c)
    ensures 0 <= c < HEAP_BLOCKS
  {
  }
}
