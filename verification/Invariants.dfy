/** What every operation of the kernel keeps: the ownership accounting of heap runs, the
    process and task structure, and isolation of writable memory. */
module Invariants {
  import opened Machine
  import opened HeapRuns
  import opened Heap
  import opened PageTables
  import opened TaskRing
  import opened System

  ghost predicate Live(r: Runs, b: nat, n: nat) {
    b in r && r[b] == n
  }

  /** A ledger entry is empty or names a live run of the recorded size. */
  ghost predicate EntryOk(r: Runs, a: Allocation) {
    a.ptr == 0 || (a.ptr == Addr(BlockAt(a.ptr)) && Live(r, BlockAt(a.ptr), Blocks(a.size)))
  }

  ghost predicate LedgerOk(r: Runs, l: seq<Allocation>) {
    && |l| == MAX_ALLOCATIONS
    && (forall i :: 0 <= i < |l| ==> EntryOk(r, l[i]))
    && (forall i, j :: 0 <= i < |l| && 0 <= j < |l| && i != j && l[i].ptr != 0 ==> l[i].ptr != l[j].ptr)
  }

  ghost predicate PartsLive(r: Runs, p: Proc) {
    && Live(r, p.record, PROCESS_BLOCKS) && p.elf in r
      && (p.image.Some? ==> Live(r, p.elf, ELF_FILE_BLOCKS) && p.image.value in r)
    && Live(r, p.stack, STACK_BLOCKS) && Live(r, p.task, TASK_BLOCKS)
    && forall b :: b in DirBlocks(p.dir) ==> Live(r, b, 1)
  }

  /** Everything a process record points at is a live run, and no two of its parts are
      the same run. */
  ghost predicate ProcOk(r: Runs, p: Proc) {
    && DistinctParts(p.record, p.elf, p.image, p.stack, p.task, p.dir)
    && PartsLive(r, p) && MemoryIs(p.image, p.memory) && LedgerOk(r, p.ledger) && LedgerBlocks(p.ledger) !! Core(p)
    && |p.pages| == PAGES
  }

  /** Block c lies in memory the process obtained from malloc. */
  ghost predicate InMalloced(r: Runs, p: Proc, c: int) {
    exists b :: b in LedgerBlocks(p.ledger) && Covers(r, b, c)
  }

  /** Malloc'd memory is mapped to itself, readable and writable. */
  ghost predicate LedgerMapped(r: Runs, p: Proc)
    requires |p.pages| == PAGES
  {
    forall c :: 0 <= c < HEAP_BLOCKS && InMalloced(r, p, c) ==> p.pages[HEAP_FRAME + c] == Addr(c) + USER_RW
  }

  ghost predicate InImage(r: Runs, image: Option<nat>, c: int) {
    image.Some? && Covers(r, image.value, c)
  }

  /** Page v may be writable onto heap block c: the image, the stack, or malloc'd memory
      seen at its own address. */
  ghost predicate OwnPage(r: Runs, p: Proc, v: int, c: int) {
    InImage(r, p.image, c) || Covers(r, p.stack, c) || (v == HEAP_FRAME + c && InMalloced(r, p, c))
  }

  /** Whatever the process can write lies in its own image, stack and malloc'd runs. */
  ghost predicate Isolated(r: Runs, p: Proc)
    requires |p.pages| == PAGES
  {
    forall v :: 0 <= v < PAGES && Writable(p.pages[v]) ==> OwnPage(r, p, v, FrameOf(p.pages[v]) - HEAP_FRAME)
  }

  ghost function OwnedBy(k: State, i: nat): set<nat> {
    if Occupied(k, i) then Owned(k.procs[i].value) else {}
  }

  /** The live runs are the disjoint union of what each process owns and the kernel's. */
  ghost predicate Accounted(k: State) {
    && k.kernel <= k.runs.Keys
    && (forall i: nat :: OwnedBy(k, i) <= k.runs.Keys && OwnedBy(k, i) !! k.kernel)
    && (forall i: nat, j: nat :: i != j ==> OwnedBy(k, i) !! OwnedBy(k, j))
    && (forall b :: b in k.runs ==> b in k.kernel || exists i: nat :: b in OwnedBy(k, i))
  }

  /** The task list holds each occupied slot once; the running task is on it (none only
      when it is empty), and the focused process, if any, is in the table. */
  ghost predicate RingOk(k: State) {
    && Distinct(k.ring)
    && (forall i :: i in k.ring <==> Occupied(k, i))
    && (k.current.None? <==> k.ring == [])
    && (k.current.Some? ==> k.current.value in k.ring)
    && (!k.halted && k.focus.Some? ==> Occupied(k, k.focus.value))
  }

  ghost predicate ProcsOk(k: State) {
    && Partition(k.runs, HEAP_BLOCKS) && |k.procs| == MAX_PROCESSES
    && forall i :: Occupied(k, i) ==> ProcOk(k.runs, k.procs[i].value) && LedgerMapped(k.runs, k.procs[i].value)
  }

  ghost predicate Inv(k: State) {
    ProcsOk(k) && Accounted(k) && RingOk(k)
  }

  ghost predicate AllIsolated(k: State)
    requires ProcsOk(k)
  {
    forall i :: Occupied(k, i) ==> Isolated(k.runs, k.procs[i].value)
  }

  ghost function Step(k: State, op: Op): State
    requires Inv(k) && Enabled(k, op)
  {
    match op
    case OpLoad(img, l) => LoadInRange(k.runs, l, img.size); Load(k, img, l).0
    case OpMalloc(i, size, fit) => Malloc(k, i, size, fit).0
    case OpFree(i, ptr) => Free(k, i, ptr)
    case OpExit =>
      var k1 := Terminate(k, k.current.value);
      ExitCursor(k);
      if k1.halted then k1 else TaskNext(k1)
    case OpTick => TaskNext(k)
    case OpFocus(i) => k.(focus := Some(i))
    case OpRunTask(i) => k.(current := Some(i))
    case OpKernelAlloc(b, n) => k.(runs := k.runs[b := n], kernel := k.kernel + {b})
    case OpKernelFree(b) => k.(runs := k.runs - {b}, kernel := k.kernel - {b})
  }

  lemma {:induction false} LoadInRange(r: Runs, l: Loading, size: Word)
    requires FreshLoading(r, l, size)
    ensures LoadInHeap(l)
    decreases l
  {
    match l
    case Complete(_, _, _, _, stack, _, _) => StackInHeap(r, l, size);
    case Raw(elf, image, rest) => LoadInRange(r + SpareRuns(elf, image, size), rest, size);
    case _ =>
  }

  lemma StackInHeap(r: Runs, l: Loading, size: Word)
    requires l.Complete? && FreshLoading(r, l, size)
    ensures l.stack < HEAP_BLOCKS
  {
    hide DistinctParts;
    assert l.stack in r + LoadingRuns(l, size);
  }

  lemma ExitCursor(k: State)
    requires Inv(k) && k.current.Some?
    ensures var k1 := Terminate(k, k.current.value); k1.current.Some? ==> k1.current.value in k1.ring
  {
    CurrentAfterIsLive(k.ring, k.current.value, k.current.value);
  }

  // --- Frames --------------------------------------------------------------------------

  ghost predicate Agree(r: Runs, r': Runs, s: set<nat>) {
    forall b :: b in s && b in r ==> b in r' && r'[b] == r[b]
  }

  /** A process's own facts survive any change to runs it does not own. */
  lemma ProcFrame(r: Runs, r': Runs, p: Proc)
    requires Partition(r, HEAP_BLOCKS) && ProcOk(r, p) && Agree(r, r', Owned(p))
    ensures ProcOk(r', p)
    ensures LedgerMapped(r, p) ==> LedgerMapped(r', p)
    ensures Isolated(r, p) ==> Isolated(r', p)
  {
    LedgerLive(r, p.ledger);
    forall i | 0 <= i < |p.ledger| ensures EntryOk(r', p.ledger[i]) {
      if p.ledger[i].ptr != 0 { EntryInLedger(r, p.ledger, i); }
    }
    forall c: int ensures InMalloced(r', p, c) <==> InMalloced(r, p, c) {
      MallocedFrame(r, r', p, c);
    }
    assert Live(r', p.stack, STACK_BLOCKS) && ImageRun(p.image) <= Core(p);
  }

  lemma MallocedFrame(r: Runs, r': Runs, p: Proc, c: int)
    requires Partition(r, HEAP_BLOCKS) && ProcOk(r, p) && Agree(r, r', Owned(p))
    ensures InMalloced(r', p, c) <==> InMalloced(r, p, c)
  {
    LedgerLive(r, p.ledger);
    forall b | b in LedgerBlocks(p.ledger) ensures Covers(r', b, c) <==> Covers(r, b, c) {
      assert b in r;
    }
  }

  lemma LedgerLive(r: Runs, l: seq<Allocation>)
    requires LedgerOk(r, l)
    ensures forall b :: b in LedgerBlocks(l) ==> b in r
  {
    forall b | b in LedgerBlocks(l) ensures b in r {
      var i :| 0 <= i < |l| && l[i].ptr == Addr(b);
      assert EntryOk(r, l[i]);
    }
  }

  lemma EntryInLedger(r: Runs, l: seq<Allocation>, i: nat)
    requires LedgerOk(r, l) && i < |l| && l[i].ptr != 0 && Partition(r, HEAP_BLOCKS)
    ensures BlockAt(l[i].ptr) in LedgerBlocks(l) && BlockAt(l[i].ptr) in r
  {
    assert EntryOk(r, l[i]);
    assert InLedger(l, l[i].ptr);
  }

  // --- malloc and free on one process ----------------------------------------------

  /** Mapping the run at block b, as malloc and free do, sets its pages to themselves with
      the given flags and touches no other page. */
  lemma MapRun(pages: seq<Word>, b: nat, size: Word, flags: Word)
    requires |pages| == PAGES && b + Blocks(size) <= HEAP_BLOCKS && Blocks(size) > 0 && flags < PAGE_SIZE
    ensures var (q, res) := MapTo(pages, Addr(b), Addr(b), AlignAddress(Wrap(Addr(b) + size)), flags);
      && res == 0
      && forall v: nat :: v < PAGES ==>
        q[v] == if InRange(v - HEAP_FRAME, b, Blocks(size)) then v * PAGE_SIZE + flags else pages[v]
  {
    AlignRun(b, size);
    MapPagesStraight(pages, HEAP_FRAME + b, HEAP_FRAME + b, Blocks(size), flags);
  }

  lemma AlignRun(b: nat, size: Word)
    requires b + Blocks(size) <= HEAP_BLOCKS && Blocks(size) > 0
    ensures AlignAddress(Wrap(Addr(b) + size)) == Addr(b) + Blocks(size) * PAGE_SIZE
  {
    BlocksIsCeiling(size);
  }

  /** The new entry adds exactly one block to the ledger. */
  lemma LedgerAdd(l: seq<Allocation>, i: nat, a: Allocation, b: nat)
    requires i < |l| && l[i].ptr == 0 && b < HEAP_BLOCKS && a.ptr == Addr(b)
    ensures LedgerBlocks(l[i := a]) == LedgerBlocks(l) + {b}
  {
    var l' := l[i := a];
    forall c: nat | c < HEAP_BLOCKS ensures InLedger(l', Addr(c)) <==> InLedger(l, Addr(c)) || c == b {
      if InLedger(l, Addr(c)) {
        var j :| 0 <= j < |l| && l[j].ptr == Addr(c);
        assert l'[j].ptr == Addr(c);
      }
      if c == b { assert l'[i].ptr == Addr(b); }
      if InLedger(l', Addr(c)) {
        var j :| 0 <= j < |l'| && l'[j].ptr == Addr(c);
        if j != i { assert l[j].ptr == Addr(c); }
      }
    }
  }

  /** Unjoin removes exactly the block of the pointer. */
  lemma LedgerRemove(l: seq<Allocation>, ptr: Word)
    requires ptr != 0
    ensures LedgerBlocks(Unjoin(l, ptr)) == LedgerBlocks(l) - {BlockAt(ptr)} || ptr != Addr(BlockAt(ptr))
    ensures forall b: nat :: b in LedgerBlocks(Unjoin(l, ptr)) <==> b in LedgerBlocks(l) && Addr(b) != ptr
  {
    var l' := Unjoin(l, ptr);
    forall c: nat | c < HEAP_BLOCKS ensures InLedger(l', Addr(c)) <==> InLedger(l, Addr(c)) && Addr(c) != ptr {
      if InLedger(l, Addr(c)) && Addr(c) != ptr {
        var j :| 0 <= j < |l| && l[j].ptr == Addr(c);
        assert l'[j].ptr == Addr(c);
      }
      if InLedger(l', Addr(c)) {
        var j :| 0 <= j < |l'| && l'[j].ptr == Addr(c);
        assert l[j].ptr == Addr(c);
      }
    }
  }

  lemma MallocKeeps(r: Runs, p: Proc, size: Word, fit: nat)
    requires Partition(r, HEAP_BLOCKS) && ProcOk(r, p) && LedgerMapped(r, p) && FitsAt(r, fit, Blocks(size))
    ensures var ((p', ptr), r') := (MallocProc(p, size, fit), r[fit := Blocks(size)]);
      && fit !in r && Partition(r', HEAP_BLOCKS)
      && (FindPtr(p.ledger, 0) >= 0 <==> ptr != 0)
      && (ptr != 0 ==>
            && ptr == Addr(fit) && ProcOk(r', p') && LedgerMapped(r', p') && Owned(p') == Owned(p) + {fit}
            && (Isolated(r, p) ==> Isolated(r', p')))
  {
    var n, index := Blocks(size), FindPtr(p.ledger, 0);
    PartitionAdd(r, HEAP_BLOCKS, fit, n);
    MapRun(p.pages, fit, size, USER_RW);
    if index >= 0 {
      var r', p' := r[fit := n], MallocProc(p, size, fit).0;
      ProcFrame(r, r', p);
      MallocLedger(r, p.ledger, index, fit, size);
      MallocPages(r, r', p, p', fit, n);
      hide *;
      assert p' == p.(ledger := p'.ledger, pages := p'.pages);
      MallocOwned(r, r', p, p', fit);
    }
  }

  lemma MallocOwned(r: Runs, r': Runs, p: Proc, p': Proc, fit: nat)
    requires ProcOk(r, p) && ProcOk(r', p) && fit !in r && p' == p.(ledger := p'.ledger, pages := p'.pages)
    requires LedgerOk(r', p'.ledger) && LedgerBlocks(p'.ledger) == LedgerBlocks(p.ledger) + {fit} && |p'.pages| == PAGES
    ensures ProcOk(r', p') && Owned(p') == Owned(p) + {fit}
  {
    assert fit !in Core(p);
  }

  lemma MallocLedger(r: Runs, l: seq<Allocation>, index: nat, fit: nat, size: Word)
    requires Partition(r, HEAP_BLOCKS) && LedgerOk(r, l) && index < |l| && l[index].ptr == 0 && fit !in r
    requires fit < HEAP_BLOCKS
    ensures var l' := l[index := Allocation(Addr(fit), size)];
      LedgerOk(r[fit := Blocks(size)], l') && LedgerBlocks(l') == LedgerBlocks(l) + {fit}
  {
    LedgerAdd(l, index, Allocation(Addr(fit), size), fit);
    forall i | 0 <= i < |l| ensures l[i].ptr != Addr(fit) && EntryOk(r[fit := Blocks(size)], l[i]) {
      if l[i].ptr != 0 { EntryInLedger(r, l, i); }
    }
  }

  /** The page map after a malloc of run (fit, n). */
  lemma MallocPages(r: Runs, r': Runs, p: Proc, p': Proc, fit: nat, n: nat)
    requires FitsAt(r, fit, n) && fit !in r && r' == r[fit := n] && ProcOk(r', p) && |p'.pages| == PAGES
    requires LedgerBlocks(p'.ledger) == LedgerBlocks(p.ledger) + {fit} && p'.image == p.image && p'.stack == p.stack
    requires forall v :: 0 <= v < PAGES ==>
      p'.pages[v] == if InRange(v - HEAP_FRAME, fit, n) then v * PAGE_SIZE + USER_RW else p.pages[v]
    ensures LedgerMapped(r', p) ==> LedgerMapped(r', p')
    ensures Isolated(r', p) ==> Isolated(r', p')
  {
    assert Covers(r', fit, fit);
    forall c: int ensures InMalloced(r', p', c) <==> InMalloced(r', p, c) || InRange(c, fit, n) {
      if InRange(c, fit, n) { assert Covers(r', fit, c); }
    }
    if Isolated(r', p) {
      forall v | 0 <= v < PAGES && Writable(p'.pages[v])
        ensures OwnPage(r', p', v, FrameOf(p'.pages[v]) - HEAP_FRAME)
      {
        if !InRange(v - HEAP_FRAME, fit, n) { assert Writable(p.pages[v]); }
      }
    }
  }

  lemma FreeKeeps(r: Runs, p: Proc, ptr: Word)
    requires Partition(r, HEAP_BLOCKS) && ProcOk(r, p) && LedgerMapped(r, p) && InLedger(p.ledger, ptr)
    ensures var ((p', freed), b) := (FreeProc(p, ptr), BlockAt(ptr));
      && freed && b in r && b in Owned(p) && ptr == Addr(b)
      && ProcOk(r - {b}, p') && LedgerMapped(r - {b}, p') && Owned(p') == Owned(p) - {b}
      && (Isolated(r, p) ==> Isolated(r - {b}, p'))
  {
    FreeProcIs(r, p, ptr);
    FreeLedger(r, p.ledger, ptr);
    var b, p' := BlockAt(ptr), FreeProc(p, ptr).0;
    hide *;
    FreeOwned(r, p, p', b);
    FreePages(r, p, p', b);
  }

  lemma FreeProcIs(r: Runs, p: Proc, ptr: Word)
    requires Partition(r, HEAP_BLOCKS) && ProcOk(r, p) && InLedger(p.ledger, ptr)
    ensures var ((p', freed), b) := (FreeProc(p, ptr), BlockAt(ptr));
      && freed && b in r && b in LedgerBlocks(p.ledger) && b in Owned(p) && ptr == Addr(b)
      && p' == p.(ledger := Unjoin(p.ledger, ptr), pages := p'.pages) && |p'.pages| == PAGES
      && forall v :: 0 <= v < PAGES ==>
        p'.pages[v] == if InRange(v - HEAP_FRAME, b, r[b]) then v * PAGE_SIZE else p.pages[v]
  {
    hide DistinctParts, PartsLive, Partition, FindPtr, PageTables.MapTo, Blocks;
    var i := FindPtr(p.ledger, ptr);
    EntryInLedger(r, p.ledger, i);
    assert EntryOk(r, p.ledger[i]);
    RunInside(r, BlockAt(ptr), HEAP_BLOCKS);
    MapRun(p.pages, BlockAt(ptr), p.ledger[i].size, 0);
  }

  lemma FreeLedger(r: Runs, l: seq<Allocation>, ptr: Word)
    requires Partition(r, HEAP_BLOCKS) && LedgerOk(r, l) && InLedger(l, ptr)
    ensures LedgerOk(r - {BlockAt(ptr)}, Unjoin(l, ptr))
    ensures LedgerBlocks(Unjoin(l, ptr)) == LedgerBlocks(l) - {BlockAt(ptr)}
  {
    EntryInLedger(r, l, FindPtr(l, ptr));
    assert EntryOk(r, l[FindPtr(l, ptr)]);
    LedgerRemove(l, ptr);
    forall j | 0 <= j < |l| ensures EntryOk(r - {BlockAt(ptr)}, Unjoin(l, ptr)[j]) {
      assert EntryOk(r, l[j]);
    }
  }

  lemma FreeOwned(r: Runs, p: Proc, p': Proc, b: nat)
    requires ProcOk(r, p) && b in LedgerBlocks(p.ledger) && p' == p.(ledger := p'.ledger, pages := p'.pages)
    requires LedgerOk(r - {b}, p'.ledger) && LedgerBlocks(p'.ledger) == LedgerBlocks(p.ledger) - {b}
    requires |p'.pages| == PAGES
    ensures ProcOk(r - {b}, p') && Owned(p') == Owned(p) - {b}
  {
    assert b !in Core(p);
  }

  /** The page map after the run at block b is unmapped and returned. */
  lemma FreePages(r: Runs, p: Proc, p': Proc, b: nat)
    requires Partition(r, HEAP_BLOCKS) && ProcOk(r, p) && b in LedgerBlocks(p.ledger) && b in r && |p'.pages| == PAGES
    requires LedgerBlocks(p'.ledger) == LedgerBlocks(p.ledger) - {b} && p'.image == p.image && p'.stack == p.stack
    requires forall v :: 0 <= v < PAGES ==>
      p'.pages[v] == if InRange(v - HEAP_FRAME, b, r[b]) then v * PAGE_SIZE else p.pages[v]
    ensures LedgerMapped(r, p) ==> LedgerMapped(r - {b}, p')
    ensures Isolated(r, p) ==> Isolated(r - {b}, p')
  {
    hide ProcOk, InMalloced, Partition, Core, LedgerBlocks;
    NotCore(r, p, b);
    var r' := r - {b};
    forall c: int ensures InMalloced(r', p', c) <==> InMalloced(r, p, c) && !InRange(c, b, r[b]) {
      FreeMalloced(r, p, p', b, c);
    }
    if Isolated(r, p) {
      forall v | 0 <= v < PAGES && Writable(p'.pages[v])
        ensures OwnPage(r', p', v, FrameOf(p'.pages[v]) - HEAP_FRAME)
      {
        assert !InRange(v - HEAP_FRAME, b, r[b]);
        assert OwnPage(r, p, v, FrameOf(p.pages[v]) - HEAP_FRAME);
      }
    }
  }

  lemma NotCore(r: Runs, p: Proc, b: nat)
    requires ProcOk(r, p) && b in LedgerBlocks(p.ledger)
    ensures p.image != Some(b) && p.stack != b && LedgerOk(r, p.ledger) && |p.pages| == PAGES
  {
    assert b !in Core(p);
  }

  lemma FreeMalloced(r: Runs, p: Proc, p': Proc, b: nat, c: int)
    requires Partition(r, HEAP_BLOCKS) && LedgerOk(r, p.ledger) && b in LedgerBlocks(p.ledger) && b in r
    requires LedgerBlocks(p'.ledger) == LedgerBlocks(p.ledger) - {b}
    ensures InMalloced(r - {b}, p', c) <==> InMalloced(r, p, c) && !InRange(c, b, r[b])
  {
    hide LedgerOk, LedgerBlocks, Partition;
    var r' := r - {b};
    LedgerLive(r, p.ledger);
    if InMalloced(r, p, c) && !InRange(c, b, r[b]) {
      var a :| a in LedgerBlocks(p.ledger) && Covers(r, a, c);
      assert Covers(r', a, c);
    }
    if InMalloced(r', p', c) {
      var a :| a in LedgerBlocks(p'.ledger) && Covers(r', a, c);
      assert Covers(r, a, c) && a != b;
      if Covers(r, b, c) { OneCover(r, a, b, c); }
    }
  }
}
